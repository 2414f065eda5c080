/** Restarting what depends on a restarted group: dependents with tasks are run again,
    dependents with only services have them restarted and pass the restart on. */
module RestartCascade {
  import opened Common
  import opened Graph
  import opened Resolver

  datatype GroupState = GroupState(status: Status, hasStartupTasks: bool, hasRunningServices: bool)

  type Groups = map<string, GroupState>

  /** Takes the restart by running its tasks. */
  predicate IsTarget(groups: Groups, g: string) {
    g in groups && groups[g].status == Ready && groups[g].hasStartupTasks
  }

  /** Takes it by restarting its services, and passes it on. */
  predicate IsRelay(groups: Groups, g: string) {
    g in groups && groups[g].status == Ready && !groups[g].hasStartupTasks && groups[g].hasRunningServices
  }

  /** The reverse index, and an order in which dependents come after what they depend on. */
  datatype Net = Net(index: map<string, seq<string>>, order: seq<string>)

  ghost predicate Ordered(net: Net) {
    forall g, h :: Listed(net.index, g, h) ==> h in net.order && (g in net.order ==> Rank(net, h) < Rank(net, g))
  }

  /** How many groups of the order are left from `g` on. */
  function Rank(net: Net, g: string): nat {
    if g in net.order then |net.order| - IndexOf(net.order, g) else |net.order| + 1
  }

  function Dependents(net: Net, g: string): seq<string> {
    if g in net.index then net.index[g] else []
  }

  /** A validated configuration gives such an order. */
  lemma IndexIsOrdered(deps: Deps, index: map<string, seq<string>>, order: seq<string>)
    requires DepsFirst(deps, order) && deps.Keys <= Elems(order) && IndexExact(index, deps)
    ensures Ordered(Net(index, order))
  {
  }

  // -------------------------------------------------------------------------
  // Specification: whom a restart of `src` reaches

  /** `p` leads from a dependent of `src` to its last group, only through groups that are
      ready, have no startup tasks and have services running. */
  ghost predicate IsChain(net: Net, groups: Groups, src: string, p: seq<string>)
    decreases |p|
  {
    p != [] && Listed(net.index, src, p[0]) &&
    (|p| > 1 ==>
       && p[0] in groups && groups[p[0]].status == Ready
       && !groups[p[0]].hasStartupTasks && groups[p[0]].hasRunningServices
       && IsChain(net, groups, p[0], p[1..]))
  }

  ghost predicate Reached(net: Net, groups: Groups, src: string, t: string) {
    exists p :: IsChain(net, groups, src, p) && p[|p| - 1] == t
  }

  lemma ReachedStep(net: Net, groups: Groups, src: string, t: string)
    ensures Reached(net, groups, src, t) <==>
            exists d :: Listed(net.index, src, d) && ReachedVia(net, groups, d, t)
  {
    if p :| IsChain(net, groups, src, p) && p[|p| - 1] == t {
      if |p| > 1 {
        assert p[1..][|p[1..]| - 1] == t;
        assert Reached(net, groups, p[0], t);
      }
      assert ReachedVia(net, groups, p[0], t);
    }
    if d :| Listed(net.index, src, d) && ReachedVia(net, groups, d, t) {
      if d == t {
        assert IsChain(net, groups, src, [t]) && [t][|[t]| - 1] == t;
      } else {
        var q :| IsChain(net, groups, d, q) && q[|q| - 1] == t;
        assert ([d] + q)[1..] == q;
        assert IsChain(net, groups, src, [d] + q);
        assert ([d] + q)[|[d] + q| - 1] == t;
      }
    }
  }

  /** By way of the dependent `d`. */
  ghost predicate ReachedVia(net: Net, groups: Groups, d: string, t: string) {
    d == t || (IsRelay(groups, d) && Reached(net, groups, d, t))
  }

  function MarkRunning(groups: Groups, started: set<string>): Groups {
    map g | g in groups :: if g in started then groups[g].(status := Running) else groups[g]
  }

  /** Starting the tasks of some targets takes those off the list and leaves the rest. */
  lemma ReachedUnchanged(net: Net, groups: Groups, started: set<string>, src: string, t: string)
    requires forall g :: g in started ==> IsTarget(groups, g)
    ensures Reached(net, MarkRunning(groups, started), src, t) <==> Reached(net, groups, src, t)
  {
    var marked := MarkRunning(groups, started);
    forall p ensures IsChain(net, marked, src, p) <==> IsChain(net, groups, src, p) {
      ChainUnchanged(net, groups, started, src, p);
    }
  }

  lemma {:induction false} ChainUnchanged(net: Net, groups: Groups, started: set<string>, src: string, p: seq<string>)
    requires forall g :: g in started ==> IsTarget(groups, g)
    ensures IsChain(net, MarkRunning(groups, started), src, p) <==> IsChain(net, groups, src, p)
    decreases |p|
  {
    if |p| > 1 {
      ChainUnchanged(net, groups, started, p[0], p[1..]);
    }
  }

  /** Reached by way of one of the dependents in `ds`. */
  ghost predicate ReachedViaAny(net: Net, groups: Groups, ds: seq<string>, t: string) {
    exists d :: d in ds && ReachedVia(net, groups, d, t)
  }

  lemma ViaAppend(net: Net, groups: Groups, ds: seq<string>, d: string, t: string)
    ensures ReachedViaAny(net, groups, ds + [d], t) <==>
            ReachedViaAny(net, groups, ds, t) || ReachedVia(net, groups, d, t)
  {
  }

  lemma ViaAll(net: Net, groups: Groups, src: string, t: string)
    ensures ReachedViaAny(net, groups, Dependents(net, src), t) <==> Reached(net, groups, src, t)
  {
    ReachedStep(net, groups, src, t);
    if d :| Listed(net.index, src, d) && ReachedVia(net, groups, d, t) {
      assert d in Dependents(net, src);
    }
    if d :| d in Dependents(net, src) && ReachedVia(net, groups, d, t) {
      assert Listed(net.index, src, d);
    }
  }

  lemma MarkTwice(groups: Groups, a: set<string>, b: set<string>)
    ensures MarkRunning(MarkRunning(groups, a), b) == MarkRunning(groups, a + b)
    ensures MarkRunning(groups, {}) == groups
  {
  }

  /** What a cascade over some dependents has done: `started` lists, once each, the targets
      they lead to, and `signalled` the relays. */
  ghost predicate Covers(net: Net, groups: Groups, ds: seq<string>, started: seq<string>, signalled: seq<string>) {
    && NoDup(started)
    && (forall t :: t in started <==> IsTarget(groups, t) && ReachedViaAny(net, groups, ds, t))
    && (forall r :: r in signalled <==> IsRelay(groups, r) && ReachedViaAny(net, groups, ds, r))
  }

  lemma NothingCovered(net: Net, groups: Groups)
    ensures Covers(net, groups, [], [], []) && MarkRunning(groups, Elems([])) == groups
  {
  }

  lemma CoversTargets(net: Net, groups: Groups, ds: seq<string>, started: seq<string>, signalled: seq<string>,
                      g: string)
    requires Covers(net, groups, ds, started, signalled)
    ensures var now := MarkRunning(groups, Elems(started));
            && (IsTarget(now, g) <==> IsTarget(groups, g) && g !in started)
            && (IsRelay(now, g) <==> IsRelay(groups, g))
            && (forall t :: t in Elems(started) ==> IsTarget(groups, t))
  {
  }

  lemma RelaysKept(net: Net, groups: Groups, ds: seq<string>, started: seq<string>, signalled: seq<string>)
    requires Covers(net, groups, ds, started, signalled)
    ensures forall g :: IsRelay(MarkRunning(groups, Elems(started)), g) <==> IsRelay(groups, g)
  {
    hide Covers;
    forall g ensures IsRelay(MarkRunning(groups, Elems(started)), g) <==> IsRelay(groups, g) {
      CoversTargets(net, groups, ds, started, signalled, g);
    }
  }

  /** A dependent that is a target: it is started unless it already was. */
  lemma CoversTarget(net: Net, groups: Groups, ds: seq<string>, started: seq<string>, signalled: seq<string>, d: string)
    requires Covers(net, groups, ds, started, signalled) && IsTarget(groups, d)
    ensures Covers(net, groups, ds + [d], if d in started then started else started + [d], signalled)
  {
    forall t ensures ReachedViaAny(net, groups, ds + [d], t) <==> ReachedViaAny(net, groups, ds, t) || d == t {
      ViaAppend(net, groups, ds, d, t);
    }
  }

  /** If it has not been, its tasks are spawned now. */
  lemma CoversOneMore(net: Net, groups: Groups, ds: seq<string>, started: seq<string>, signalled: seq<string>,
                      d: string)
    requires Covers(net, groups, ds, started, signalled) && IsTarget(groups, d) && d !in started
    ensures Covers(net, groups, ds + [d], started + [d], signalled)
    ensures MarkRunning(MarkRunning(groups, Elems(started)), {d}) == MarkRunning(groups, Elems(started + [d]))
  {
    hide Covers, MarkRunning, Elems;
    CoversTarget(net, groups, ds, started, signalled, d);
    MarkTwice(groups, Elems(started), {d});
    ElemsAppend(started, d);
  }

  /** A dependent that takes no part. */
  lemma CoversBystander(net: Net, groups: Groups, ds: seq<string>, started: seq<string>, signalled: seq<string>,
                        d: string)
    requires Covers(net, groups, ds, started, signalled) && !IsTarget(groups, d) && !IsRelay(groups, d)
    ensures Covers(net, groups, ds + [d], started, signalled)
  {
  }

  /** A relay: whatever it leads to, less what had been started before, is added. */
  lemma CoversRelay(net: Net, groups: Groups, ds: seq<string>, started: seq<string>, signalled: seq<string>, d: string,
                    more: seq<string>, relays: seq<string>)
    requires Covers(net, groups, ds, started, signalled) && IsRelay(groups, d)
    requires Covers(net, MarkRunning(groups, Elems(started)), Dependents(net, d), more, relays)
    ensures Covers(net, groups, ds + [d], started + more, signalled + [d] + relays)
  {
    var now := MarkRunning(groups, Elems(started));
    forall t
      ensures ReachedViaAny(net, groups, ds + [d], t) <==>
              ReachedViaAny(net, groups, ds, t) || d == t || Reached(net, groups, d, t)
      ensures ReachedViaAny(net, now, Dependents(net, d), t) <==> Reached(net, groups, d, t)
      ensures IsTarget(now, t) <==> IsTarget(groups, t) && t !in started
      ensures IsRelay(now, t) <==> IsRelay(groups, t)
    {
      CoversTargets(net, groups, ds, started, signalled, t);
      ViaAppend(net, groups, ds, d, t);
      ViaAll(net, now, d, t);
      ReachedUnchanged(net, groups, Elems(started), d, t);
    }
    assert forall t :: t in more ==> t !in started;
    NoDupConcat(started, more);
  }

  lemma Grown(a: seq<string>, b: seq<string>, c: seq<string>)
    requires a <= b <= c
    ensures c[|a|..] == b[|a|..] + c[|b|..]
  {
  }

  // -------------------------------------------------------------------------
  // How often a relay is signalled

  /** The chains of relays that start with one of the first `n` dependents of `src`, each
      before those that go on from it. */
  ghost function RelayChains(net: Net, groups: Groups, src: string, n: nat): seq<seq<string>>
    requires Ordered(net) && n <= |Dependents(net, src)|
    decreases Rank(net, src), n
  {
    if n == 0 then []
    else
      var d := Dependents(net, src)[n - 1];
      assert Listed(net.index, src, d);
      RelayChains(net, groups, src, n - 1) +
      if IsRelay(groups, d) then [[d]] + Behind(d, RelayChains(net, groups, d, |Dependents(net, d)|)) else []
  }

  function Behind(d: string, chains: seq<seq<string>>): (r: seq<seq<string>>)
    ensures |r| == |chains| && forall i :: 0 <= i < |r| ==> r[i] == [d] + chains[i]
  {
    seq(|chains|, i requires 0 <= i < |chains| => [d] + chains[i])
  }

  function Ends(chains: seq<seq<string>>): (r: seq<string>)
    ensures |r| == |chains| && forall i :: 0 <= i < |r| && chains[i] != [] ==> r[i] == chains[i][|chains[i]| - 1]
  {
    seq(|chains|, i requires 0 <= i < |chains| => if chains[i] == [] then "" else chains[i][|chains[i]| - 1])
  }

  lemma EndsConcat(a: seq<seq<string>>, b: seq<seq<string>>)
    ensures Ends(a + b) == Ends(a) + Ends(b)
  {
  }

  lemma {:induction false} ChainsNonempty(net: Net, groups: Groups, src: string, n: nat)
    requires Ordered(net) && n <= |Dependents(net, src)|
    ensures forall i :: 0 <= i < |RelayChains(net, groups, src, n)| ==> RelayChains(net, groups, src, n)[i] != []
    decreases n
  {
    hide Ordered;
    if n == 0 {
    } else {
      ChainsNonempty(net, groups, src, n - 1);
    }
  }

  lemma EndsBehind(net: Net, groups: Groups, d: string)
    requires Ordered(net)
    ensures var chains := RelayChains(net, groups, d, |Dependents(net, d)|);
            Ends([[d]] + Behind(d, chains)) == [d] + Ends(chains)
  {
    ChainsNonempty(net, groups, d, |Dependents(net, d)|);
    hide Ordered, RelayChains;
  }

  lemma {:induction false} ChainsUnchanged(net: Net, groups: Groups, other: Groups, src: string, n: nat)
    requires Ordered(net) && n <= |Dependents(net, src)|
    requires forall g :: IsRelay(groups, g) <==> IsRelay(other, g)
    ensures RelayChains(net, groups, src, n) == RelayChains(net, other, src, n)
    decreases Rank(net, src), n
  {
    if n == 0 {
    } else {
      var d := Dependents(net, src)[n - 1];
      assert Listed(net.index, src, d);
      ChainsUnchanged(net, groups, other, src, n - 1);
      ChainsUnchanged(net, groups, other, d, |Dependents(net, d)|);
    }
  }

  /** One step of the list: a chain starts with a relay that depends on `src` and ends there
      or goes on with a chain of that relay. */
  lemma {:induction false} ChainsStep(net: Net, groups: Groups, src: string, n: nat, p: seq<string>)
    requires Ordered(net) && n <= |Dependents(net, src)| && p != []
    ensures p in RelayChains(net, groups, src, n) <==>
              && p[0] in Dependents(net, src)[..n] && IsRelay(groups, p[0])
              && (|p| > 1 ==> p[1..] in RelayChains(net, groups, p[0], |Dependents(net, p[0])|))
    decreases n
  {
    hide Ordered, Rank;
    if n == 0 {
    } else {
      var ds := Dependents(net, src);
      var d := ds[n - 1];
      ChainsStep(net, groups, src, n - 1, p);
      assert ds[..n] == ds[..n - 1] + [d];
      var further := RelayChains(net, groups, d, |Dependents(net, d)|);
      ChainsNonempty(net, groups, d, |Dependents(net, d)|);
      InBehind(d, further, p);
      if IsRelay(groups, d) {
        assert RelayChains(net, groups, src, n) ==
               RelayChains(net, groups, src, n - 1) + ([[d]] + Behind(d, further));
      } else {
        assert RelayChains(net, groups, src, n) == RelayChains(net, groups, src, n - 1);
      }
    }
  }

  lemma InBehind(d: string, chains: seq<seq<string>>, p: seq<string>)
    requires p != [] && forall i :: 0 <= i < |chains| ==> chains[i] != []
    ensures p in [[d]] + Behind(d, chains) <==> p[0] == d && (|p| > 1 ==> p[1..] in chains)
  {
    var all := [[d]] + Behind(d, chains);
    if p in all {
      var i :| 0 <= i < |all| && all[i] == p;
      assert i > 0 ==> p == [d] + chains[i - 1] && p[1..] == chains[i - 1];
    }
    if p[0] == d {
      if |p| == 1 {
        assert p == [d] && all[0] == p;
      } else if p[1..] in chains {
        var i :| 0 <= i < |chains| && chains[i] == p[1..];
        assert all[i + 1] == p;
      }
    }
  }

  /** The list holds exactly the chains that end in a relay. */
  lemma {:induction false} ChainsListed(net: Net, groups: Groups, src: string, p: seq<string>)
    requires Ordered(net) && p != []
    ensures p in RelayChains(net, groups, src, |Dependents(net, src)|) <==>
              var r := p[|p| - 1];
              && IsChain(net, groups, src, p) && r in groups && groups[r].status == Ready
              && !groups[r].hasStartupTasks && groups[r].hasRunningServices
    decreases |p|
  {
    ChainsStep(net, groups, src, |Dependents(net, src)|, p);
    hide Ordered, RelayChains;
    var ds := Dependents(net, src);
    assert ds[..|ds|] == ds && (p[0] in ds <==> Listed(net.index, src, p[0]));
    if |p| > 1 {
      ChainsListed(net, groups, p[0], p[1..]);
      assert p[1..][|p[1..]| - 1] == p[|p| - 1];
    }
  }

  /** Once each, if nobody is listed twice as a dependent of the same group. */
  lemma {:induction false} ChainsOnce(net: Net, groups: Groups, src: string, n: nat)
    requires Ordered(net) && n <= |Dependents(net, src)|
    requires forall g :: NoDup(Dependents(net, g))
    ensures NoDup(RelayChains(net, groups, src, n))
    decreases Rank(net, src), n
  {
    if n == 0 {
    } else {
      var ds := Dependents(net, src);
      var d := ds[n - 1];
      assert Listed(net.index, src, d);
      var before := RelayChains(net, groups, src, n - 1);
      var further := RelayChains(net, groups, d, |Dependents(net, d)|);
      ChainsOnce(net, groups, src, n - 1);
      ChainsOnce(net, groups, d, |Dependents(net, d)|);
      ChainsNonempty(net, groups, src, n - 1);
      ChainsNonempty(net, groups, d, |Dependents(net, d)|);
      assert NoDup(ds) && d !in ds[..n - 1];
      forall p | p in before ensures p[0] != d {
        ChainsStep(net, groups, src, n - 1, p);
      }
      hide Ordered, Rank, IsRelay;
      BehindOnce(d, before, further);
    }
  }

  lemma BehindOnce(d: string, before: seq<seq<string>>, further: seq<seq<string>>)
    requires NoDup(before) && NoDup(further)
    requires forall p :: p in before ==> p != [] && p[0] != d
    requires forall p :: p in further ==> p != []
    ensures NoDup(before + ([[d]] + Behind(d, further)))
  {
    var all := [[d]] + Behind(d, further);
    forall i, j | 0 <= i < j < |all| ensures all[i] != all[j] {
      assert all[j] == [d] + further[j - 1] && further[j - 1] in further;
      if i > 0 {
        assert all[i] == [d] + further[i - 1];
        assert all[i][1..] == further[i - 1] && all[j][1..] == further[j - 1];
      }
    }
    forall p | p in all ensures p != [] && p[0] == d {
      var i :| 0 <= i < |all| && all[i] == p;
    }
    forall i, j | 0 <= i < |before| && 0 <= j < |all| ensures before[i] != all[j] {
      assert before[i] in before && all[j] in all;
    }
  }

  /** Every relay has been signalled once for every chain that leads to it, in their order. */
  ghost predicate Signals(net: Net, groups: Groups, src: string, n: nat, signalled: seq<string>)
    requires Ordered(net) && n <= |Dependents(net, src)|
  {
    signalled == Ends(RelayChains(net, groups, src, n))
  }

  lemma SignalsNone(net: Net, groups: Groups, src: string)
    requires Ordered(net)
    ensures Signals(net, groups, src, 0, [])
  {
  }

  lemma SignalsBystander(net: Net, groups: Groups, src: string, n: nat, signalled: seq<string>)
    requires Ordered(net) && n < |Dependents(net, src)| && Signals(net, groups, src, n, signalled)
    requires !IsRelay(groups, Dependents(net, src)[n])
    ensures Signals(net, groups, src, n + 1, signalled)
  {
    hide Ordered;
    assert RelayChains(net, groups, src, n + 1) == RelayChains(net, groups, src, n);
  }

  lemma SignalsRelay(net: Net, groups: Groups, src: string, n: nat, signalled: seq<string>, more: seq<string>)
    requires Ordered(net) && n < |Dependents(net, src)| && Signals(net, groups, src, n, signalled)
    requires var d := Dependents(net, src)[n];
             IsRelay(groups, d) && more != [] && more[0] == d &&
             Signals(net, groups, d, |Dependents(net, d)|, more[1..])
    ensures Signals(net, groups, src, n + 1, signalled + more)
  {
    hide Ordered;
    var d := Dependents(net, src)[n];
    var further := RelayChains(net, groups, d, |Dependents(net, d)|);
    assert more == [d] + more[1..];
    assert RelayChains(net, groups, src, n + 1) ==
           RelayChains(net, groups, src, n) + ([[d]] + Behind(d, further));
    EndsBehind(net, groups, d);
    EndsConcat(RelayChains(net, groups, src, n), [[d]] + Behind(d, further));
  }

  /** Starting tasks makes no difference to it. */
  lemma SignalsElsewhere(net: Net, groups: Groups, other: Groups, src: string, signalled: seq<string>)
    requires Ordered(net) && Signals(net, groups, src, |Dependents(net, src)|, signalled)
    requires forall g :: IsRelay(groups, g) <==> IsRelay(other, g)
    ensures Signals(net, other, src, |Dependents(net, src)|, signalled)
  {
    ChainsUnchanged(net, groups, other, src, |Dependents(net, src)|);
  }

  class Engine {
    const net: Net
    var groups: Groups
    var spawned: seq<string>    // groups whose tasks were spawned, in order
    var signalled: seq<string>  // groups whose services were told to restart, in order

    constructor (net: Net, groups: Groups)
      ensures this.net == net && this.groups == groups && spawned == [] && signalled == []
    {
      this.net, this.groups := net, groups;
      spawned, signalled := [], [];
    }

    method SpawnGroupTasks(group: string)
      requires group in groups
      modifies this`groups, this`spawned
      ensures groups == MarkRunning(old(groups), {group}) && spawned == old(spawned) + [group]
    {
      groups := groups[group := groups[group].(status := Running)];
      spawned := spawned + [group];
    }

    /** Spawns the tasks of exactly the targets that a restart of `source` reaches, each
        group once even where several ways lead to it. The relays in between are signalled
        once for every way. */
    method CascadeServiceRestart(source: string)
      requires Ordered(net)
      modifies this`groups, this`spawned, this`signalled
      ensures old(spawned) <= spawned && old(signalled) <= signalled
      ensures var started := spawned[|old(spawned)|..];
              && groups == MarkRunning(old(groups), Elems(started))
              && Covers(net, old(groups), Dependents(net, source), started, signalled[|old(signalled)|..])
      ensures Signals(net, old(groups), source, |Dependents(net, source)|, signalled[|old(signalled)|..])
      decreases Rank(net, source), 0
    {
      var ds := Dependents(net, source);
      ghost var g0, n, m := groups, |spawned|, |signalled|;
      hide Covers, Signals, MarkRunning, Elems, Ordered;
      NothingCovered(net, g0);
      SignalsNone(net, g0, source);
      assert spawned[n..] == [] && signalled[m..] == [] && ds[..0] == [];
      for i := 0 to |ds|
        invariant old(spawned) <= spawned && old(signalled) <= signalled
        invariant groups == MarkRunning(g0, Elems(spawned[n..]))
        invariant Covers(net, g0, ds[..i], spawned[n..], signalled[m..])
        invariant Signals(net, g0, source, i, signalled[m..])
      {
        var d := ds[i];
        CoversTargets(net, g0, ds[..i], spawned[n..], signalled[m..], d);
        assert ds[..i + 1] == ds[..i] + [d];
        if !IsRelay(g0, d) {
          SignalsBystander(net, g0, source, i, signalled[m..]);
        }
        if IsTarget(groups, d) {
          Grown(old(spawned), spawned, spawned + [d]);
          CoversOneMore(net, g0, ds[..i], spawned[n..], signalled[m..], d);
          SpawnGroupTasks(d);
        } else if IsRelay(groups, d) {
          assert Listed(net.index, source, d);
          OrderedFalls(net, source, d);
          ghost var sofar, toldSofar := spawned, signalled;
          RelayRestart(d, g0, ds[..i], spawned[n..], signalled[m..]);
          Grown(old(spawned), sofar, spawned);
          Grown(old(signalled), toldSofar, signalled);
          SignalsRelay(net, g0, source, i, toldSofar[m..], signalled[|toldSofar|..]);
        } else if IsTarget(g0, d) {
          CoversTarget(net, g0, ds[..i], spawned[n..], signalled[m..], d);
        } else {
          CoversBystander(net, g0, ds[..i], spawned[n..], signalled[m..], d);
        }
      }
      assert ds[..|ds|] == ds;
    }

    /** Restarts the services of `d` and goes on to its dependents, in a cascade that has
        covered `ds` and started and signalled what it lists. */
    method RelayRestart(d: string, ghost g0: Groups, ghost ds: seq<string>, ghost started: seq<string>,
                        ghost told: seq<string>)
      requires Ordered(net) && IsRelay(g0, d)
      requires groups == MarkRunning(g0, Elems(started)) && Covers(net, g0, ds, started, told)
      modifies this`groups, this`spawned, this`signalled
      ensures old(spawned) <= spawned && old(signalled) <= signalled
      ensures var more, relays := spawned[|old(spawned)|..], signalled[|old(signalled)|..];
              && groups == MarkRunning(g0, Elems(started + more))
              && Covers(net, g0, ds + [d], started + more, told + relays)
              && relays != [] && relays[0] == d && Signals(net, g0, d, |Dependents(net, d)|, relays[1..])
      decreases Rank(net, d), 1
    {
      hide Covers, Signals, MarkRunning, Elems, Ordered, Rank;
      ghost var n, m, now := |spawned|, |signalled|, groups;
      signalled := signalled + [d];
      CascadeServiceRestart(d);
      ghost var more, relays := spawned[n..], signalled[m + 1..];
      CoversRelay(net, g0, ds, started, told, d, more, relays);
      assert signalled[m..] == [d] + relays && signalled[m..][1..] == relays;
      RelaysKept(net, g0, ds, started, told);
      SignalsElsewhere(net, now, g0, d, relays);
      assert told + [d] + relays == told + ([d] + relays);
      MarkTwice(g0, Elems(started), Elems(more));
      ElemsConcat(started, more);
    }

    /** The same in terms of chains of dependents and of the groups' own fields. */
    method Restart(source: string)
      requires Ordered(net)
      modifies this`groups, this`spawned, this`signalled
      ensures old(spawned) <= spawned && old(signalled) <= signalled
      ensures NoDup(spawned[|old(spawned)|..])
      ensures forall t :: t in spawned[|old(spawned)|..] <==>
                t in old(groups) && old(groups)[t].status == Ready && old(groups)[t].hasStartupTasks &&
                Reached(net, old(groups), source, t)
      ensures forall r :: r in signalled[|old(signalled)|..] <==>
                r in old(groups) && old(groups)[r].status == Ready && !old(groups)[r].hasStartupTasks &&
                old(groups)[r].hasRunningServices && Reached(net, old(groups), source, r)
      ensures signalled[|old(signalled)|..] == Ends(RelayChains(net, old(groups), source, |Dependents(net, source)|))
      ensures forall g :: g in groups <==> g in old(groups)
      ensures forall g :: g in groups ==>
                groups[g] == if g in spawned[|old(spawned)|..] then old(groups)[g].(status := Running)
                             else old(groups)[g]
      ensures forall g :: g in old(groups) && old(groups)[g].status != Ready ==>
                groups[g] == old(groups)[g] && g !in spawned[|old(spawned)|..] && g !in signalled[|old(signalled)|..]
    {
      CascadeServiceRestart(source);
      forall t
        ensures ReachedViaAny(net, old(groups), Dependents(net, source), t) <==> Reached(net, old(groups), source, t)
      {
        ViaAll(net, old(groups), source, t);
      }
    }
  }

  lemma OrderedFalls(net: Net, g: string, h: string)
    requires Ordered(net) && Listed(net.index, g, h)
    ensures Rank(net, h) < Rank(net, g)
  {
  }
}
