/** The engine's half of a wave: the calls that drive the resolver when the daemon starts,
    when everything is restarted, and when a started group reports. */
module WaveEngine {
  import opened Common
  import opened Graph
  import opened Resolver
  import opened Wave
  import TopoSort

  /** Resolver statuses `rs` and engine statuses `es` agree with the wave state. The resolver
      is not told when a group that nobody depends on is done. */
  ghost predicate Agree(net: Net, s: State, rs: map<string, Status>, es: map<string, Status>) {
    && (rs.Keys == net.deps.Keys && forall g :: HasDependent(net.deps, g) ==> SameDecision(s, rs, g))
    && (es.Keys == net.deps.Keys && forall g :: SameDecision(s, es, g))
  }

  ghost predicate HasDependent(deps: Deps, g: string) {
    exists h :: Edge(deps, h, g)
  }

  ghost predicate SameDecision(s: State, m: map<string, Status>, g: string) {
    IsDecided(s.statuses, g) ==> HasStatus(m, g) && m[g] == s.statuses[g]
  }

  lemma AgreeCompleted(net: Net, s: State, rs: map<string, Status>, es: map<string, Status>, g: string)
    requires Agree(net, s, rs, es) && g in net.deps
    ensures Agree(net, Completed(net, s, g), rs[g := Ready], es[g := Ready])
    ensures !HasDependent(net.deps, g) ==> Agree(net, Completed(net, s, g), rs, es[g := Ready])
  {
    var t, rt, et := Completed(net, s, g), rs[g := Ready], es[g := Ready];
    forall d ensures SameDecision(t, et, d) {
      assert SameDecision(s, es, d);
    }
    hide HasDependent;
    forall d | HasDependent(net.deps, d)
      ensures SameDecision(t, rt, d) && (d != g ==> SameDecision(t, rs, d))
    {
      assert SameDecision(s, rs, d);
    }
  }

  lemma AgreeSkipped(net: Net, s: State, rs: map<string, Status>, es: map<string, Status>, g: string, status: Status)
    requires Agree(net, s, rs, es) && g in net.deps && s.waiting.Keys <= net.deps.Keys
    ensures var skipped := SkipSet(s.waiting, g);
            var rt, et := SkipAll(rs[g := status], skipped), SkipAll(es[g := status], skipped);
            Agree(net, SkippedBehind(s, g, status), rt, et)
  {
    var skipped := SkipSet(s.waiting, g);
    SkipSetIsLeast(s.waiting, g);
    var rt, et := SkipAll(rs[g := status], skipped), SkipAll(es[g := status], skipped);
    var after := SkipAll(s.statuses[g := status], skipped);
    SkipAllKeys(rs, g, status, skipped);
    SkipAllKeys(es, g, status, skipped);
    hide SkipAll;
    hide HasDependent;
    forall d
      ensures SameDecision(SkippedBehind(s, g, status), et, d)
      ensures HasDependent(net.deps, d) ==> SameDecision(SkippedBehind(s, g, status), rt, d)
    {
      assert SameDecision(s, es, d) && (HasDependent(net.deps, d) ==> SameDecision(s, rs, d));
      SkipAllAt(rs, g, status, skipped, d);
      SkipAllAt(es, g, status, skipped, d);
      SkipAllAt(s.statuses, g, status, skipped, d);
    }
  }

  lemma SkipAllAt(m: map<string, Status>, g: string, status: Status, skipped: set<string>, d: string)
    ensures var t := SkipAll(m[g := status], skipped);
            if d in skipped then d in t && t[d] == Skipped
            else if d == g then d in t && t[d] == status
            else (d in t <==> d in m) && (d in t ==> t[d] == m[d])
  {
  }

  lemma SkipAllKeys(m: map<string, Status>, g: string, status: Status, skipped: set<string>)
    requires skipped <= m.Keys && g in m
    ensures SkipAll(m[g := status], skipped).Keys == m.Keys
  {
  }

  /** The resolver's own check for a failed dependency gives the wave's answer. */
  lemma AgreeDoomed(net: Net, s: State, rs: map<string, Status>, es: map<string, Status>, g: string, h: string)
    requires Agree(net, s, rs, es) && GroupInv(net, s, h) && h in s.waiting && s.waiting[h] == {g}
    ensures DependencyBlocks(net.deps, rs[g := Ready], h) <==> DependencyBlocks(net.deps, s.statuses[g := Ready], h)
  {
    forall d | d in net.deps[h] && d != g
      ensures HasStatus(rs, d) && HasStatus(s.statuses, d) && rs[d] == s.statuses[d]
    {
      assert d !in Undecided(s.statuses, net.deps[h]);
      assert Edge(net.deps, h, d);
      assert HasDependent(net.deps, d) && SameDecision(s, rs, d);
    }
  }

  lemma DependentsWait(net: Net, s: State, g: string)
    requires Inv(net, s) && g in net.deps && !IsDecided(s.statuses, g)
    ensures forall h :: Edge(net.deps, h, g) ==> h in s.waiting && g in s.waiting[h]
  {
    forall h | Edge(net.deps, h, g) ensures h in s.waiting && g in s.waiting[h] {
      assert GroupInv(net, s, h);
      assert g in Undecided(s.statuses, net.deps[h]);
    }
  }

  /** What one marking call to the resolver must leave behind, when it skips. */
  lemma SkipEvent(net: Net, s: State, rs: map<string, Status>, es: map<string, Status>, e: Event)
    requires Inv(net, s) && Enabled(s, e) && Agree(net, s, rs, es) && (e.Report? ==> !Succeeds(net, e.group))
    ensures var t, skipped := Next(net, s, e), SkipSet(s.waiting, e.group);
            var status := if e.Report? then Failed else Skipped;
            && t.waiting == Release(s.waiting, {e.group} + skipped)
            && Agree(net, t, SkipAll(rs[e.group := status], skipped), SkipAll(es[e.group := status], skipped))
            && t.started == s.started - (if e.Report? then {e.group} else {})
            && t.toSkip == s.toSkip - (if e.Report? then {} else {e.group})
  {
    hide Agree, Release, SkipAll, SkipSet, AllReady, Doomed, Undecided;
    assert GroupInv(net, s, e.group);
    AgreeSkipped(net, s, rs, es, e.group, if e.Report? then Failed else Skipped);
  }

  /** What a completion must leave behind, and which groups it lets go. */
  lemma CompleteEvent(net: Net, s: State, rs: map<string, Status>, es: map<string, Status>, g: string)
    requires Inv(net, s) && g in s.started && Agree(net, s, rs, es) && Succeeds(net, g)
    ensures var t, doomed := Next(net, s, Report(g)), DoomedBy(net, s, rs, g);
            && t.waiting == Release(s.waiting, {g}) && Agree(net, t, rs[g := Ready], es[g := Ready])
            && t.started == s.started - {g} + (Freed(s.waiting, g) - doomed)
            && t.toSkip == s.toSkip + doomed
            && Freed(s.waiting, g) !! s.started && Freed(s.waiting, g) !! s.toSkip
  {
    hide Agree, Release, AllReady, Doomed, Undecided, DependencyBlocks;
    AgreeCompleted(net, s, rs, es, g);
    forall h | h in Freed(s.waiting, g)
      ensures DependencyBlocks(net.deps, rs[g := Ready], h) <==> DependencyBlocks(net.deps, s.statuses[g := Ready], h)
      ensures h !in s.started && h !in s.toSkip
    {
      assert GroupInv(net, s, h);
      AgreeDoomed(net, s, rs, es, g, h);
    }
  }

  /** The status of a group that has only been started is neither side's business yet. */
  lemma AgreeTouched(net: Net, s: State, rs: map<string, Status>, es: map<string, Status>, g: string,
                     x: Status, y: Status)
    requires Agree(net, s, rs, es) && g in net.deps && !IsDecided(s.statuses, g)
    ensures Agree(net, s, rs[g := x], es[g := y]) && Agree(net, s, rs, es[g := y])
  {
    hide IsDecided, HasDependent;
    var rt, et := rs[g := x], es[g := y];
    forall d ensures SameDecision(s, et, d) {
      assert SameDecision(s, es, d);
    }
    forall d | HasDependent(net.deps, d) ensures SameDecision(s, rt, d) {
      assert SameDecision(s, rs, d);
    }
  }

  /** Completing a group nobody depends on changes its own status and nothing else. */
  lemma LoneCompletion(net: Net, s: State, rs: map<string, Status>, es: map<string, Status>, g: string)
    requires Inv(net, s) && Agree(net, s, rs, es) && g in s.started && Succeeds(net, g)
    requires g in es && es[g] == Ready
    requires forall h :: h in s.waiting ==> g !in s.waiting[h]
    ensures !HasDependent(net.deps, g)
    ensures Agree(net, Next(net, s, Report(g)), rs, es)
    ensures Next(net, s, Report(g)) == State(s.waiting, s.statuses[g := Ready], s.started - {g}, s.toSkip)
  {
    hide Inv, Agree, Completed;
    StartedUndecided(net, s, g);
    NoWaitersNoDependents(net, s, g);
    AgreeCompleted(net, s, rs, es, g);
    assert es[g := Ready] == es;
  }

  lemma NoDependentsListed(index: map<string, seq<string>>, deps: Deps, g: string)
    requires IndexExact(index, deps) && !HasDependent(deps, g)
    ensures g in index ==> index[g] == []
  {
    if g in index && index[g] != [] {
      assert Listed(index, g, index[g][0]);
    }
  }

  lemma StartedUndecided(net: Net, s: State, g: string)
    requires Inv(net, s) && g in s.started
    ensures !IsDecided(s.statuses, g) && g in net.deps
  {
  }

  // The resolver once the groups in `asked` have been asked what they wait for.

  function AskedWaits(net: Net, asked: set<string>): Waits {
    map g | g in asked && g in net.deps && net.deps[g] != [] :: Elems(net.deps[g])
  }

  function AskedStatuses(net: Net, asked: set<string>): map<string, Status> {
    map g | g in net.deps :: if g in asked && net.deps[g] != [] then Waiting else Pending
  }

  lemma AskOne(net: Net, asked: set<string>, g: string)
    requires g in net.deps
    ensures net.deps[g] == [] ==> AskedWaits(net, asked + {g}) == AskedWaits(net, asked) &&
                                  AskedStatuses(net, asked + {g}) == AskedStatuses(net, asked)
    ensures net.deps[g] == [] <==> Elems(net.deps[g]) == {}
    ensures net.deps[g] != [] ==> AskedWaits(net, asked + {g}) == AskedWaits(net, asked)[g := Elems(net.deps[g])] &&
                                  AskedStatuses(net, asked + {g}) == AskedStatuses(net, asked)[g := Waiting]
    ensures Unready(net.deps, AskedStatuses(net, asked), g) == Elems(net.deps[g])
  {
    if net.deps[g] != [] {
      assert net.deps[g][0] in Elems(net.deps[g]);
    }
  }

  lemma AskedAll(net: Net, es: map<string, Status>)
    requires es.Keys == net.deps.Keys
    ensures AskedWaits(net, net.deps.Keys) == Initial(net).waiting
    ensures Agree(net, Initial(net), AskedStatuses(net, net.deps.Keys), es)
    ensures AskedWaits(net, {}) == map[] && AskedStatuses(net, {}) == map g | g in net.deps :: Pending
  {
    var s := Initial(net);
    assert forall g :: !IsDecided(s.statuses, g);
    hide IsDecided, HasDependent;
    assert AskedStatuses(net, net.deps.Keys).Keys == net.deps.Keys;
  }

  lemma NotYetListed(s: seq<string>, i: nat)
    requires NoDup(s) && i < |s|
    ensures s[i] !in s[..i]
  {
  }

  lemma ElemsSplit(s: seq<string>, i: nat)
    requires i <= |s| && NoDup(s)
    ensures i < |s| ==> s[i] in Elems(s[i..]) && Elems(s[i..]) - {s[i]} == Elems(s[i + 1..])
    ensures Elems(s[0..]) == Elems(s) && Elems(s[i..]) <= Elems(s) && Elems(s[|s|..]) == {}
  {
  }

  lemma ReleasedLists(net: Net, s: State, rs: map<string, Status>, g: string,
                      ready: seq<string>, needsSkip: seq<string>)
    requires forall h :: h in ready <==>
               h in s.waiting && s.waiting[h] == {g} && !DependencyBlocks(net.deps, rs[g := Ready], h)
    requires forall h :: h in needsSkip <==>
               h in s.waiting && s.waiting[h] == {g} && DependencyBlocks(net.deps, rs[g := Ready], h)
    ensures Elems(ready) == Freed(s.waiting, g) - DoomedBy(net, s, rs, g)
    ensures Elems(needsSkip) == DoomedBy(net, s, rs, g)
  {
  }

  /** The groups released by `g` that the resolver hands over to be skipped. */
  ghost function DoomedBy(net: Net, s: State, rs: map<string, Status>, g: string): set<string> {
    set h | h in Freed(s.waiting, g) && DependencyBlocks(net.deps, rs[g := Ready], h)
  }

  /** A group nobody waits for, not yet decided, has no dependents at all. */
  lemma NoWaitersNoDependents(net: Net, s: State, g: string)
    requires Inv(net, s) && g in net.deps && !IsDecided(s.statuses, g)
    requires forall h :: h in s.waiting ==> g !in s.waiting[h]
    ensures !HasDependent(net.deps, g)
    ensures Completed(net, s, g) == State(s.waiting, s.statuses[g := Ready], s.started - {g}, s.toSkip)
  {
    DependentsWait(net, s, g);
    WaitersWait(net, s);
    hide Inv, DependencyBlocks, IsDecided, Release, Freed;
    NobodyReleased(s.waiting, g);
  }

  lemma WaitersWait(net: Net, s: State)
    requires Inv(net, s)
    ensures forall h :: h in s.waiting ==> s.waiting[h] != {}
  {
    hide AllReady, Doomed, Undecided, IsDecided;
    forall h | h in s.waiting ensures s.waiting[h] != {} {
      assert GroupInv(net, s, h);
    }
  }

  lemma NobodyReleased(w: Waits, g: string)
    requires forall h :: h in w ==> w[h] != {} && g !in w[h]
    ensures Release(w, {g}) == w && Freed(w, g) == {}
  {
    forall h | h in w ensures w[h] - {g} == w[h] && !(w[h] <= {g}) {
      var x :| x in w[h];
    }
    assert Release(w, {g}).Keys == w.Keys;
  }

  /** What the engine shows for groups that have not come to an end. */
  ghost predicate ShowsWork(waiting: set<string>, working: set<string>, shown: map<string, Status>) {
    && (forall g :: g in waiting ==> g in shown && shown[g] == Waiting)
    && (forall g :: g in working ==> g in shown && shown[g] == Running)
  }

  lemma ShowsKept(waiting: set<string>, working: set<string>, shown: map<string, Status>,
                  fewer: set<string>, less: set<string>, g: string, status: Status)
    requires ShowsWork(waiting, working, shown) && fewer <= waiting && less <= working
    ensures ShowsWork(fewer, less, shown)
    ensures g !in fewer && g !in less ==> ShowsWork(fewer, less, shown[g := status])
    ensures g !in fewer ==> ShowsWork(fewer, less + {g}, shown[g := Running])
  {
  }

  lemma ShowsWaiting(waiting: set<string>, shown: map<string, Status>, g: string)
    requires ShowsWork(waiting, {}, shown)
    ensures ShowsWork(waiting + {g}, {}, shown[g := Waiting])
  {
  }

  lemma ShowsSkipped(w: Waits, working: set<string>, shown: map<string, Status>, g: string, status: Status)
    requires ShowsWork(w.Keys, working, shown) && g !in w && g !in working && working !! w.Keys
    ensures var skipped := SkipSet(w, g);
            ShowsWork(Release(w, {g} + skipped).Keys, working, SkipAll(shown[g := status], skipped))
  {
    var skipped := SkipSet(w, g);
    SkipSetIsLeast(w, g);
    SkipSetBacked(w, g);
    ReleaseKeys(w, {g} + skipped);
    var after := SkipAll(shown[g := status], skipped);
    forall h ensures h !in skipped && h != g && h in shown ==> h in after && after[h] == shown[h] {
      SkipAllAt(shown, g, status, skipped, h);
    }
    hide SkipAll, SkipSet;
  }

  lemma PlacesApart(net: Net, s: State)
    requires Inv(net, s)
    ensures s.started !! s.waiting.Keys && s.toSkip !! s.waiting.Keys && s.started !! s.toSkip
  {
    hide AllReady, Doomed, Undecided, IsDecided;
    forall g | g in s.started || g in s.toSkip ensures g !in s.waiting && !(g in s.started && g in s.toSkip) {
      assert GroupInv(net, s, g);
    }
  }

  class Engine {
    const resolver: DependencyResolver
    const deferred: set<string>   // groups with tasks or services to wait for once started
    const withTasks: set<string>  // those of them with tasks
    var groups: map<string, Status>  // the engine's own copy of each status
    var inFlight: set<string>        // groups at work, whose report is still to come
    var stale: set<string>           // groups at work since an earlier wave
    ghost var net: Net
    ghost var events: seq<Event>  // the wave so far

    ghost function S(): State
      reads this
    {
      After(net, events)
    }

    /** Started by the resolver's word, but not yet taken up by the engine. */
    ghost function Unstarted(): set<string>
      reads this
    {
      S().started - inFlight
    }

    /** The calls made so far amount to a legal run, and resolver and engine agree with the
        state it leads to. */
    ghost predicate InStep()
      reads this, resolver
    {
      && WellFormed(net) && Legal(net, events)
      && (forall g :: g in net.deps && g !in deferred ==> Succeeds(net, g))
      && resolver.Valid() && resolver.dependencies == net.deps && IndexExact(resolver.dependents, net.deps)
      && resolver.waiting == S().waiting && Agree(net, S(), resolver.statuses, groups)
      && inFlight <= S().started && inFlight <= deferred
      && ShowsWork(resolver.waiting.Keys, inFlight * withTasks, groups)
    }

    /** Before the wave: a resolver that was just built or reset. */
    ghost predicate Fresh()
      reads this, resolver
    {
      && WellFormed(net) && events == []
      && (forall g :: g in net.deps && g !in deferred ==> Succeeds(net, g))
      && resolver.Valid() && resolver.dependencies == net.deps && IndexExact(resolver.dependents, net.deps)
      && resolver.waiting == map[] && resolver.statuses == (map g | g in net.deps :: Pending)
      && groups.Keys == net.deps.Keys && inFlight == {}
    }

    constructor (resolver: DependencyResolver, deferred: set<string>, withTasks: set<string>, ghost net: Net)
      requires WellFormed(net) && forall g :: g in net.deps && g !in deferred ==> Succeeds(net, g)
      requires resolver.Valid() && resolver.dependencies == net.deps && IndexExact(resolver.dependents, net.deps)
      requires resolver.waiting == map[] && resolver.statuses == (map g | g in net.deps :: Pending)
      ensures Fresh() && this.net == net && this.resolver == resolver && this.deferred == deferred
      ensures this.withTasks == withTasks && stale == {}
    {
      this.resolver, this.deferred, this.withTasks, this.net := resolver, deferred, withTasks, net;
      groups, inFlight, stale, events := resolver.statuses, {}, {}, [];
    }

    ghost method Record(e: Event)
      requires Legal(net, events) && Enabled(S(), e)
      modifies this`events
      ensures events == old(events) + [e] && Legal(net, events) && S() == Next(net, old(S()), e)
    {
      hide Next, Initial, Enabled;
      events := events + [e];
      assert events[..|events| - 1] == old(events);
    }

    lemma RunBounded()
      requires InStep()
      ensures |events| <= |net.deps|
    {
      RunsAreShort(net, events);
    }

    method SyncSkipped(skipped: seq<string>)
      modifies this`groups
      ensures groups == SkipAll(old(groups), Elems(skipped))
    {
      SkipAllNone(groups);
      for i := 0 to |skipped|
        invariant groups == SkipAll(old(groups), Elems(skipped[..i]))
      {
        SkipAllAppend(old(groups), skipped[..i], skipped[i]);
        assert skipped[..i + 1] == skipped[..i] + [skipped[i]];
        groups := groups[skipped[i] := Skipped];
      }
      assert skipped[..|skipped|] == skipped;
    }

    method CascadeSkip(group: string)
      requires InStep() && group in S().toSkip
      modifies this`groups, this`events, resolver`waiting, resolver`statuses
      ensures InStep() && events == old(events) + [ApplySkip(group)]
      ensures S().toSkip == old(S().toSkip) - {group} && S().started == old(S().started)
    {
      hide After, Next, Inv, Agree, IndexExact, SkipAll, Release, WellFormed, SkipSet, Legal, Succeeds;
      RunInv(net, events);
      SkipEvent(net, S(), resolver.statuses, groups, ApplySkip(group));
      PlacesApart(net, S());
      ShowsSkipped(resolver.waiting, inFlight * withTasks, groups, group, Skipped);
      hide ShowsWork;
      var toSkip := resolver.MarkSkipped(group);
      groups := groups[group := Skipped];
      SyncSkipped(toSkip);
      Record(ApplySkip(group));
    }

    method CascadeFailure(group: string)
      requires InStep() && group in Unstarted() && !Succeeds(net, group)
      modifies this`groups, this`events, resolver`waiting, resolver`statuses
      ensures InStep() && events == old(events) + [Report(group)]
      ensures S().toSkip == old(S().toSkip) && S().started == old(S().started) - {group}
    {
      hide After, Next, Inv, Agree, IndexExact, SkipAll, Release, WellFormed, SkipSet, Legal, Succeeds;
      RunInv(net, events);
      SkipEvent(net, S(), resolver.statuses, groups, Report(group));
      PlacesApart(net, S());
      ShowsSkipped(resolver.waiting, inFlight * withTasks, groups, group, Failed);
      hide ShowsWork;
      var toSkip := resolver.MarkFailed(group);
      groups := groups[group := Failed];
      SyncSkipped(toSkip);
      Record(Report(group));
    }

    /** A group is done: the resolver releases whoever waited only for it. Released groups
        with nothing to wait for are done at once, which may release more. */
    method TriggerDependents(completed: string)
      requires InStep() && completed in Unstarted() && Succeeds(net, completed)
      modifies this`groups, this`inFlight, this`events, resolver`waiting, resolver`statuses
      ensures InStep() && |events| > old(|events|) && old(inFlight) <= inFlight
      ensures Unstarted() == old(Unstarted()) - {completed} && S().toSkip == old(S().toSkip)
      decreases |net.deps| - |events|, 0
    {
      hide InStep, Succeeds, After, NoDup, Elems;
      RunBounded();
      var ready, needsSkip := MarkComplete(completed);
      RunBounded();
      StartReleased(ready);
      SkipDoomed(needsSkip);
    }

    /** Tells the resolver, which lets go of some groups to be started and some to be skipped. */
    method MarkComplete(completed: string) returns (ready: seq<string>, needsSkip: seq<string>)
      requires InStep() && completed in Unstarted() && Succeeds(net, completed)
      modifies this`groups, this`events, resolver`waiting, resolver`statuses
      ensures InStep() && |events| > old(|events|) && NoDup(ready) && NoDup(needsSkip)
      ensures Unstarted() == old(Unstarted()) - {completed} + Elems(ready) && Elems(ready) !! old(Unstarted())
      ensures S().toSkip == old(S().toSkip) + Elems(needsSkip) && Elems(needsSkip) !! old(S().toSkip)
    {
      hide After, Next, Inv, Agree, IndexExact, SkipAll, Release, WellFormed, Legal, NoDup, DependencyBlocks;
      RunInv(net, events);
      CompleteEvent(net, S(), resolver.statuses, groups, completed);
      ghost var s := S();
      PlacesApart(net, s);
      ReleaseKeys(resolver.waiting, {completed});
      ghost var fewer := Release(resolver.waiting, {completed}).Keys;
      assert fewer <= resolver.waiting.Keys;
      ShowsKept(resolver.waiting.Keys, inFlight * withTasks, groups, fewer, inFlight * withTasks, completed, Ready);
      hide ShowsWork;
      ready, needsSkip := resolver.MarkComplete(completed);
      groups := groups[completed := Ready];
      Record(Report(completed));
      ReleasedLists(net, s, old(resolver.statuses), completed, ready, needsSkip);
    }

    method SkipDoomed(needsSkip: seq<string>)
      requires InStep() && NoDup(needsSkip) && Elems(needsSkip) <= S().toSkip
      modifies this`groups, this`events, resolver`waiting, resolver`statuses
      ensures InStep() && |events| >= old(|events|)
      ensures S().started == old(S().started) && S().toSkip == old(S().toSkip) - Elems(needsSkip)
    {
      hide InStep, After, NoDup, Elems;
      ElemsSplit(needsSkip, 0);
      for i := 0 to |needsSkip|
        invariant InStep() && |events| >= old(|events|) && S().started == old(S().started)
        invariant S().toSkip == old(S().toSkip) - Elems(needsSkip) + Elems(needsSkip[i..])
      {
        ElemsSplit(needsSkip, i);
        CascadeSkip(needsSkip[i]);
      }
      ElemsSplit(needsSkip, |needsSkip|);
    }

    method StartReleased(ready: seq<string>)
      requires InStep() && NoDup(ready) && Elems(ready) <= Unstarted()
      modifies this`groups, this`inFlight, this`events, resolver`waiting, resolver`statuses
      ensures InStep() && |events| >= old(|events|) && old(inFlight) <= inFlight
      ensures Unstarted() == old(Unstarted()) - Elems(ready) && S().toSkip == old(S().toSkip)
      decreases |net.deps| - |events|, 2
    {
      hide InStep, Unstarted, After, Inv, WellFormed, Legal, NoDup, Elems;
      ElemsSplit(ready, 0);
      for i := 0 to |ready|
        invariant InStep() && |events| >= old(|events|) && old(inFlight) <= inFlight
        invariant Unstarted() == old(Unstarted()) - Elems(ready) + Elems(ready[i..])
        invariant S().toSkip == old(S().toSkip)
      {
        RunBounded();
        ElemsSplit(ready, i);
        StartWaitingGroup(ready[i]);
      }
      ElemsSplit(ready, |ready|);
    }

    method StartWaitingGroup(group: string)
      requires InStep() && group in Unstarted()
      modifies this`groups, this`inFlight, this`events, resolver`waiting, resolver`statuses
      ensures InStep() && |events| >= old(|events|) && old(inFlight) <= inFlight
      ensures Unstarted() == old(Unstarted()) - {group} && S().toSkip == old(S().toSkip)
      decreases |net.deps| - |events|, 1
    {
      hide After, InStep;
      if group in deferred {
        SetToWork(group);
      } else {
        SetReady(group);
        TriggerDependents(group);
      }
    }

    /** Its tasks or services are under way. A group with tasks shows that it is running, one
        with only services may show it, too. */
    method SetToWork(group: string)
      requires InStep() && group in Unstarted() && group in deferred
      modifies this`groups, this`inFlight
      ensures InStep() && inFlight == old(inFlight) + {group}
      ensures groups == old(groups)[group := Running] || (group !in withTasks && groups == old(groups))
    {
      hide After, Next, Inv, Agree, IndexExact, WellFormed, Legal, ShowsWork;
      RunInv(net, events);
      StartedUndecided(net, S(), group);
      AgreeTouched(net, S(), resolver.statuses, groups, group, Running, Running);
      PlacesApart(net, S());
      ghost var waiting, working := resolver.waiting.Keys, inFlight * withTasks;
      ShowsKept(waiting, working, groups, waiting, working, group, Running);
      assert (inFlight + {group}) * withTasks == if group in withTasks then working + {group} else working;
      var servicesStarting: bool := *;
      if group in withTasks || servicesStarting {
        groups := groups[group := Running];
      }
      inFlight := inFlight + {group};
    }

    /** Only the engine's own copy of the status changes. */
    method ShowReady(group: string)
      requires InStep() && group in Unstarted()
      modifies this`groups
      ensures InStep() && groups == old(groups)[group := Ready]
    {
      hide After, Next, Inv, Agree, IndexExact, WellFormed, Legal, ShowsWork;
      RunInv(net, events);
      StartedUndecided(net, S(), group);
      PlacesApart(net, S());
      ghost var waiting, working := resolver.waiting.Keys, inFlight * withTasks;
      ShowsKept(waiting, working, groups, waiting, working, group, Ready);
      AgreeTouched(net, S(), resolver.statuses, groups, group, Ready, Ready);
      groups := groups[group := Ready];
    }

    /** Engine and resolver both show a group with nothing to do as ready. */
    method SetReady(group: string)
      requires InStep() && group in Unstarted() && group !in deferred
      modifies this`groups, resolver`statuses
      ensures InStep() && groups == old(groups)[group := Ready] && Succeeds(net, group)
      ensures resolver.statuses == old(resolver.statuses)[group := Ready]
    {
      hide After, Next, Inv, Agree, IndexExact, WellFormed, Legal, ShowsWork;
      RunInv(net, events);
      StartedUndecided(net, S(), group);
      PlacesApart(net, S());
      ghost var waiting, working := resolver.waiting.Keys, inFlight * withTasks;
      ShowsKept(waiting, working, groups, waiting, working, group, Ready);
      AgreeTouched(net, S(), resolver.statuses, groups, group, Ready, Ready);
      groups := groups[group := Ready];
      resolver.SetStatus(group, Ready);
    }

    /** A group is done; the lifecycle phase decides whether the resolver is told. During a
        wave it goes untold only when nothing depends on the group, and then the cascade of
        restarts, which takes its place, has nowhere to go. */
    method Propagate(completed: string, firstServiceStart: bool) returns (cascadedTo: seq<string>)
      requires InStep() && completed in Unstarted() && Succeeds(net, completed)
      requires completed in groups && groups[completed] == Ready
      modifies this`groups, this`inFlight, this`events, resolver`waiting, resolver`statuses
      ensures InStep() && |events| > old(|events|) && old(inFlight) <= inFlight
      ensures Unstarted() == old(Unstarted()) - {completed} && S().toSkip == old(S().toSkip)
      ensures cascadedTo == []
    {
      hide After, Next, Inv, Agree, IndexExact, WellFormed, Legal, Completed;
      cascadedTo := [];
      var waited := resolver.HasWaitingDependents(completed);
      if waited || firstServiceStart {
        TriggerDependents(completed);
      } else {
        RunInv(net, events);
        LoneCompletion(net, S(), resolver.statuses, groups, completed);
        cascadedTo := resolver.GetDependents(completed);
        NoDependentsListed(resolver.dependents, net.deps, completed);
        Record(Report(completed));
      }
    }

    /** A group at work is done: its tasks failed, or it is ready. */
    method ReportGroup(group: string, ok: bool, firstServiceStart: bool)
      requires InStep() && group in inFlight && ok == Succeeds(net, group)
      modifies this`groups, this`inFlight, this`events, resolver`waiting, resolver`statuses
      ensures InStep() && |events| > old(|events|) && old(inFlight) - {group} <= inFlight
      ensures Unstarted() == old(Unstarted()) && S().toSkip == old(S().toSkip)
    {
      hide After, Next, Inv, Agree, IndexExact, WellFormed, Legal;
      ghost var waiting, working := resolver.waiting.Keys, inFlight * withTasks;
      ShowsKept(waiting, working, groups, waiting, (inFlight - {group}) * withTasks, group, Ready);
      hide ShowsWork;
      inFlight := inFlight - {group};
      if ok {
        ShowReady(group);
        var cascadedTo := Propagate(group, firstServiceStart);
      } else {
        CascadeFailure(group);
      }
    }

    /** The groups that wait for nothing are executed, as at the start of any wave. */
    method ExecuteGroups(names: seq<string>, immediate: set<string>)
      requires InStep() && NoDup(names) && Elems(names) <= Unstarted()
      requires forall g :: g in immediate && g in net.deps ==> Succeeds(net, g)
      modifies this`groups, this`inFlight, this`events, resolver`waiting, resolver`statuses
      ensures InStep() && old(inFlight) <= inFlight
      ensures Unstarted() == old(Unstarted()) - Elems(names) && S().toSkip == old(S().toSkip)
    {
      hide InStep, Unstarted, After, Inv, WellFormed, Legal, NoDup, Elems, Succeeds;
      ElemsSplit(names, 0);
      for i := 0 to |names|
        invariant InStep() && old(inFlight) <= inFlight
        invariant Elems(names[i..]) <= Unstarted() == old(Unstarted()) - Elems(names) + Elems(names[i..])
        invariant S().toSkip == old(S().toSkip)
      {
        ElemsSplit(names, i);
        ExecuteGroup(names[i], immediate);
      }
      ElemsSplit(names, |names|);
    }

    /** Services that need no time to be ready, those of `immediate` groups, are up when this
        call returns. */
    method ExecuteGroup(group: string, immediate: set<string>)
      requires InStep() && group in Unstarted()
      requires forall g :: g in immediate && g in net.deps ==> Succeeds(net, g)
      modifies this`groups, this`inFlight, this`events, resolver`waiting, resolver`statuses
      ensures InStep() && old(inFlight) <= inFlight
      ensures Unstarted() == old(Unstarted()) - {group} && S().toSkip == old(S().toSkip)
    {
      hide After, InStep;
      StartedIsKnown(group);
      if group in deferred && (group in withTasks || group !in immediate) {
        SetToWork(group);
      } else {
        if group in deferred {
          ShowReady(group);
        } else {
          SetReady(group);
        }
        var firstServiceStart: bool := *;  // whatever services it has may or may not have run before
        var cascadedTo := Propagate(group, firstServiceStart);
      }
    }

    lemma StartedIsKnown(group: string)
      requires InStep() && group in S().started
      ensures group in net.deps
    {
      RunInv(net, events);
      StartedUndecided(net, S(), group);
    }

    method AskGroup(group: string, ghost asked: set<string>) returns (waits: bool)
      requires resolver.Valid() && resolver.dependencies == net.deps && group in net.deps && group !in asked
      requires resolver.waiting == AskedWaits(net, asked) && resolver.statuses == AskedStatuses(net, asked)
      requires ShowsWork(resolver.waiting.Keys, {}, groups)
      modifies this`groups, resolver`waiting, resolver`statuses
      ensures resolver.Valid() && waits == (net.deps[group] != [])
      ensures resolver.waiting == AskedWaits(net, asked + {group})
      ensures resolver.statuses == AskedStatuses(net, asked + {group})
      ensures groups == if waits then old(groups)[group := Waiting] else old(groups)
      ensures ShowsWork(resolver.waiting.Keys, {}, groups)
    {
      AskOne(net, asked, group);
      ShowsWaiting(resolver.waiting.Keys, groups, group);
      hide AskedWaits, AskedStatuses, ShowsWork, Unready, DependencyResolver.Valid, Elems;
      ghost var waiting := resolver.waiting;
      var unready := resolver.MarkWaiting(group);
      waits := unready.Some?;
      assert resolver.waiting.Keys == if waits then waiting.Keys + {group} else waiting.Keys;
      if waits {
        groups := groups[group := Waiting];
      }
    }

    /** Every group is asked what it waits for; those that wait for nothing are returned. */
    method AskGroups(order: seq<string>) returns (ready: seq<string>)
      requires Fresh() && order == net.order
      modifies this`groups, resolver`waiting, resolver`statuses
      ensures InStep() && NoDup(ready) && Elems(ready) == Unstarted() && inFlight == {} && S().toSkip == {}
    {
      hide NoDup, IndexExact, Agree, DepsFirst, AskedWaits, AskedStatuses;
      AskedAll(net, groups);
      ready := AskEach(order);
      AskedAll(net, groups);
      assert inFlight * withTasks == {};
    }

    method AskEach(order: seq<string>) returns (ready: seq<string>)
      requires resolver.Valid() && resolver.dependencies == net.deps && groups.Keys == net.deps.Keys
      requires NoDup(order) && Elems(order) == net.deps.Keys
      requires resolver.waiting == AskedWaits(net, {}) && resolver.statuses == AskedStatuses(net, {})
      requires resolver.waiting == map[]
      modifies this`groups, resolver`waiting, resolver`statuses
      ensures resolver.Valid() && groups.Keys == net.deps.Keys
      ensures resolver.waiting == AskedWaits(net, net.deps.Keys)
      ensures resolver.statuses == AskedStatuses(net, net.deps.Keys)
      ensures ShowsWork(resolver.waiting.Keys, {}, groups)
      ensures NoDup(ready) && forall h :: h in ready <==> h in net.deps && net.deps[h] == []
    {
      hide NoDup, AskedWaits, AskedStatuses;
      ready := [];
      assert resolver.waiting.Keys == {} && ShowsWork({}, {}, groups);
      hide ShowsWork;
      NoDupEmpty<string>();
      ghost var asked := {};
      for i := 0 to |order|
        invariant resolver.Valid() && groups.Keys == net.deps.Keys
        invariant asked == Elems(order[..i]) && ShowsWork(resolver.waiting.Keys, {}, groups)
        invariant resolver.waiting == AskedWaits(net, asked) && resolver.statuses == AskedStatuses(net, asked)
        invariant NoDup(ready) && forall h :: h in ready <==> h in asked && h in net.deps && net.deps[h] == []
      {
        var group := order[i];
        NotYetListed(order, i);
        ElemsAppend(order[..i], group);
        assert group in Elems(order);
        assert order[..i + 1] == order[..i] + [group];
        NoDupAppend(ready, group);
        var waits := AskGroup(group, asked);
        asked := asked + {group};
        if !waits {
          ready := ready + [group];
        }
      }
      assert order[..|order|] == order;
    }

    /** At any time a group that waits is shown as waiting and one whose tasks are under way
        as running; a group that is neither waiting nor under way shows how it ended. */
    lemma WhatIsShown(g: string)
      requires InStep() && Unstarted() == {} && S().toSkip == {} && g in net.deps
      ensures g in groups
      ensures g in resolver.waiting ==> groups[g] == Waiting
      ensures g in inFlight && g in withTasks ==> groups[g] == Running
      ensures g !in resolver.waiting && g !in inFlight ==> groups[g] == Final(net, g)
    {
      hide After, Legal, WellFormed, Final, AllReady, Doomed, Undecided;
      RunInv(net, events);
      assert GroupInv(net, S(), g);
      if g !in resolver.waiting && g !in inFlight {
        DecidedIsFinal(net, S(), g);
        assert SameDecision(S(), groups, g);
      }
    }

    /** The daemon starts: every group is run, dependencies first. */
    method Startup(order: seq<string>, immediate: set<string>)
      requires Fresh() && order == net.order
      requires forall g :: g in immediate && g in net.deps ==> Succeeds(net, g)
      modifies this`groups, this`inFlight, this`events, resolver`waiting, resolver`statuses
      ensures InStep() && Unstarted() == {} && S().toSkip == {}
      ensures forall g :: g in inFlight && g in withTasks ==> g in groups && groups[g] == Running
      ensures forall g :: g in resolver.waiting ==> g in groups && groups[g] == Waiting
    {
      var ready := AskGroups(order);
      ExecuteGroups(ready, immediate);
    }

    /** All groups are restarted, whatever statuses an earlier wave left behind. What it left
        at work is stale now: the new wave takes up every group anew. */
    method RestartAll(order: seq<string>, immediate: set<string>, ghost succeeds: map<string, bool>)
      requires WellFormed(net.(succeeds := succeeds)) && order == net.order
      requires forall g :: g in net.deps && (g !in deferred || g in immediate) ==>
                 Succeeds(net.(succeeds := succeeds), g)
      requires resolver.Valid() && resolver.dependencies == net.deps && IndexExact(resolver.dependents, net.deps)
      requires groups.Keys == net.deps.Keys == resolver.statuses.Keys
      modifies this, resolver`waiting, resolver`statuses
      ensures net == old(net).(succeeds := succeeds) && stale == old(stale) + old(inFlight)
      ensures InStep() && Unstarted() == {} && S().toSkip == {}
      ensures forall g :: g in inFlight && g in withTasks ==> g in groups && groups[g] == Running
      ensures forall g :: g in resolver.waiting ==> g in groups && groups[g] == Waiting
    {
      hide WellFormed, IndexExact, Agree, After, Legal, Succeeds, DependencyResolver.Valid;
      resolver.ResetForRerun();
      net, events := net.(succeeds := succeeds), [];
      stale, inFlight := stale + inFlight, {};
      var ready := AskGroups(order);
      ExecuteGroups(ready, immediate);
    }

    /** The groups at work report one after the other, in any order, until none is left. */
    method FinishWave(outcomes: map<string, bool>)
      requires InStep() && Unstarted() == {} && S().toSkip == {} && outcomes == net.succeeds
      modifies this`groups, this`inFlight, this`events, resolver`waiting, resolver`statuses
      ensures InStep() && inFlight == {} && groups == map g | g in net.deps :: Final(net, g)
    {
      hide After, Next, Inv, Agree, IndexExact, Legal, Final;
      while inFlight != {}
        invariant InStep() && Unstarted() == {} && S().toSkip == {}
        decreases |net.deps| - |events|
      {
        var group :| group in inFlight;
        var firstServiceStart: bool := *;
        StartedIsKnown(group);
        ReportGroup(group, outcomes[group], firstServiceStart);
        RunBounded();
      }
      FinalStatuses();
    }

    /** Once nothing is in flight, the engine shows every group its final status. */
    lemma FinalStatuses()
      requires InStep() && S().started == {} && S().toSkip == {}
      ensures groups == map g | g in net.deps :: Final(net, g)
    {
      hide Next, Initial, Inv, Final, Legal, IsDecided;
      CompleteIsFinal(net, events);
      forall g | g in net.deps ensures groups[g] == Final(net, g) {
        assert SameDecision(S(), groups, g);
      }
    }
  }

  /** What the validator checks beside cycles: names are unique and dependencies known. */
  ghost predicate KnownGroups(groups: seq<Group>) {
    UniqueNames(groups) && Names(Adjacency(groups)) == Adjacency(groups).Keys
  }

  /** From a configuration to a started daemon: refused exactly when there is a cycle,
      otherwise a wave in which only groups with work to do are in flight. */
  method Boot(groups: seq<Group>, deferred: set<string>, withTasks: set<string>, immediate: set<string>,
              ghost succeeds: map<string, bool>)
    returns (e: Option<Engine>)
    requires KnownGroups(groups) && succeeds.Keys == Adjacency(groups).Keys
    requires forall g :: g in succeeds && (g !in deferred || g in immediate) ==> succeeds[g]
    ensures e.Some? <==> Acyclic(Adjacency(groups))
    ensures e.Some? ==> fresh(e.value) && fresh(e.value.resolver) && e.value.deferred == deferred &&
                        e.value.stale == {} && e.value.net.deps == Adjacency(groups) && e.value.net.succeeds == succeeds
    ensures e.Some? ==> e.value.InStep() && e.value.Unstarted() == {} && e.value.S().toSkip == {}
    ensures e.Some? ==> e.value.withTasks == withTasks
  {
    var sorted := TopoSort.ReloadOrder(groups);
    if !sorted.Ordered? {
      return None;
    }
    var resolver := FromGroups(groups);
    ghost var net := Net(Adjacency(groups), sorted.order, succeeds);
    var engine := new Engine(resolver, deferred, withTasks, net);
    engine.Startup(sorted.order, immediate);
    return Some(engine);
  }

  /** From a configuration to the end of its first wave: in whatever order the groups report,
      each is shown with the status the specification gives it. */
  method BootAndRun(groups: seq<Group>, deferred: set<string>, withTasks: set<string>, immediate: set<string>,
                    outcomes: map<string, bool>)
    returns (e: Option<Engine>)
    requires KnownGroups(groups) && outcomes.Keys == Adjacency(groups).Keys
    requires forall g :: g in outcomes && (g !in deferred || g in immediate) ==> outcomes[g]
    ensures e.Some? <==> Acyclic(Adjacency(groups))
    ensures e.Some? ==> e.value.net.deps == Adjacency(groups) && e.value.net.succeeds == outcomes
    ensures e.Some? ==> WellFormed(e.value.net) && e.value.inFlight == e.value.stale == {}
    ensures e.Some? ==> e.value.groups == map g | g in Adjacency(groups) :: Final(e.value.net, g)
  {
    hide Final, Acyclic, KnownGroups, Adjacency;
    e := Boot(groups, deferred, withTasks, immediate, outcomes);
    if e.Some? {
      e.value.FinishWave(outcomes);
    }
  }
}
