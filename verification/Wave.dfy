/** One wave of the groups: a full start or rerun, from the moment every group has been
    asked what it waits for until every started group has reported. The wave is a
    transition system over the resolver's waiting sets and statuses; events may come in
    any order the protocol allows. */
module Wave {
  import opened Common
  import opened Graph
  import opened Resolver

  /** The configured graph, an execution order for it, and how each group would fare. */
  datatype Net = Net(deps: Deps, order: seq<string>, succeeds: map<string, bool>)

  ghost predicate WellFormed(net: Net) {
    && NoDup(net.order) && Elems(net.order) == net.deps.Keys == net.succeeds.Keys
    && DepsFirst(net.deps, net.order)
  }

  /** `started` groups have been started and have not reported; `toSkip` groups were found
      to have a failed dependency and have not been marked skipped yet. */
  datatype State = State(waiting: Waits, statuses: map<string, Status>, started: set<string>, toSkip: set<string>)

  datatype Event = Report(group: string) | ApplySkip(group: string)

  function Initial(net: Net): State {
    State(map g | g in net.deps && net.deps[g] != [] :: Elems(net.deps[g]),
          map g | g in net.deps :: if net.deps[g] == [] then Pending else Waiting,
          set g | g in net.deps && net.deps[g] == [],
          {})
  }

  ghost predicate Enabled(s: State, e: Event) {
    match e
    case Report(g) => g in s.started
    case ApplySkip(g) => g in s.toSkip
  }

  predicate Succeeds(net: Net, g: string) {
    g in net.succeeds && net.succeeds[g]
  }

  ghost function Next(net: Net, s: State, e: Event): State {
    match e
    case Report(g) => if Succeeds(net, g) then Completed(net, s, g) else SkippedBehind(s, g, Failed)
    case ApplySkip(g) => SkippedBehind(s, g, Skipped)
  }

  /** The groups that wait for `g` alone. */
  ghost function Freed(w: Waits, g: string): set<string> {
    set h | h in w && w[h] == {g}
  }

  ghost function Completed(net: Net, s: State, g: string): State {
    var statuses := s.statuses[g := Ready];
    var doomed := set h | h in Freed(s.waiting, g) && DependencyBlocks(net.deps, statuses, h);
    State(Release(s.waiting, {g}), statuses, s.started - {g} + (Freed(s.waiting, g) - doomed), s.toSkip + doomed)
  }

  ghost function SkippedBehind(s: State, g: string, status: Status): State {
    var skipped := SkipSet(s.waiting, g);
    State(Release(s.waiting, {g} + skipped), SkipAll(s.statuses[g := status], skipped),
          s.started - {g}, s.toSkip - {g})
  }

  /** The state after a run of events, and whether each was allowed when it happened. */
  ghost function After(net: Net, es: seq<Event>): State {
    if es == [] then Initial(net) else Next(net, After(net, es[..|es| - 1]), es[|es| - 1])
  }

  ghost predicate Legal(net: Net, es: seq<Event>) {
    es != [] ==>
      Legal(net, es[..|es| - 1]) && Enabled(After(net, es[..|es| - 1]), es[|es| - 1])
  }

  /** Nothing is left to happen. */
  ghost predicate Complete(net: Net, es: seq<Event>) {
    Legal(net, es) && After(net, es).started == {} && After(net, es).toSkip == {}
  }

  // -------------------------------------------------------------------------
  // What every reachable state satisfies

  predicate Decided(s: Status) {
    s == Ready || Blocks(s)
  }

  predicate IsDecided(statuses: map<string, Status>, g: string) {
    g in statuses && Decided(statuses[g])
  }

  function Undecided(statuses: map<string, Status>, deps: seq<string>): set<string> {
    set d | d in deps && !IsDecided(statuses, d)
  }

  /** Some dependency is decided and not Ready. */
  ghost predicate Doomed(net: Net, statuses: map<string, Status>, g: string) {
    exists d :: Edge(net.deps, g, d) && HasStatus(statuses, d) && Blocks(statuses[d])
  }

  ghost predicate AllReady(net: Net, statuses: map<string, Status>, g: string) {
    forall d :: Edge(net.deps, g, d) ==> HasStatus(statuses, d) && statuses[d] == Ready
  }

  predicate HasStatus(statuses: map<string, Status>, g: string) {
    g in statuses
  }

  /** Where one group is: waiting for exactly its undecided dependencies, started with all
      of them Ready, doomed by one that is not, or decided for the matching reason. */
  ghost predicate GroupInv(net: Net, s: State, g: string) {
    && HasStatus(s.statuses, g) && g in net.deps
    && (IsDecided(s.statuses, g) ==> g !in s.waiting && g !in s.started && g !in s.toSkip)
    && (g in s.waiting ==> g !in s.started && g !in s.toSkip && s.waiting[g] != {} &&
                           s.waiting[g] == Undecided(s.statuses, net.deps[g]))
    && (g in s.started ==> g !in s.toSkip)
    && (g !in s.waiting ==> Undecided(s.statuses, net.deps[g]) == {})
    && (g !in s.waiting ==>
          if IsDecided(s.statuses, g) then
            if s.statuses[g] == Skipped then Doomed(net, s.statuses, g)
            else AllReady(net, s.statuses, g) && (s.statuses[g] == Ready <==> Succeeds(net, g))
          else if g in s.started then AllReady(net, s.statuses, g)
          else g in s.toSkip && Doomed(net, s.statuses, g))
  }

  ghost predicate Inv(net: Net, s: State) {
    && s.statuses.Keys == net.deps.Keys
    && s.waiting.Keys <= net.deps.Keys && s.started <= net.deps.Keys && s.toSkip <= net.deps.Keys
    && (forall g :: g in net.deps ==> GroupInv(net, s, g))
  }

  lemma InitialInv(net: Net)
    requires WellFormed(net)
    ensures Inv(net, Initial(net))
  {
    hide GroupInv;
    forall g | g in net.deps ensures GroupInv(net, Initial(net), g) {
      InitialGroupInv(net, g);
    }
    hide WellFormed;
  }

  lemma InitialGroupInv(net: Net, g: string)
    requires WellFormed(net) && g in net.deps
    ensures GroupInv(net, Initial(net), g)
  {
    var s := Initial(net);
    forall d | d in net.deps[g] ensures d in s.statuses && !IsDecided(s.statuses, d) {
      KnownDependency(net, g, d);
    }
    hide WellFormed, Blocks;
    if net.deps[g] != [] {
      assert net.deps[g][0] in Elems(net.deps[g]);
      assert Elems(net.deps[g]) == Undecided(s.statuses, net.deps[g]);
    }
  }

  lemma KnownDependency(net: Net, g: string, d: string)
    requires WellFormed(net) && Edge(net.deps, g, d)
    ensures d in net.deps
  {
  }

  /** A step decides exactly the groups in `gone` and leaves decided groups as they were. */
  ghost predicate Decides(before: map<string, Status>, after: map<string, Status>, gone: set<string>) {
    && (forall d :: IsDecided(after, d) <==> IsDecided(before, d) || d in gone)
    && (forall d :: IsDecided(before, d) ==> HasStatus(after, d) && after[d] == before[d])
  }

  lemma DoomedStays(net: Net, before: map<string, Status>, after: map<string, Status>, gone: set<string>, g: string)
    requires Decides(before, after, gone) && Doomed(net, before, g)
    ensures Doomed(net, after, g)
  {
  }

  lemma AllReadyStays(net: Net, before: map<string, Status>, after: map<string, Status>, gone: set<string>, g: string)
    requires Decides(before, after, gone) && AllReady(net, before, g)
    ensures AllReady(net, after, g)
  {
  }

  lemma UndecidedAfter(before: map<string, Status>, after: map<string, Status>, gone: set<string>, deps: seq<string>)
    requires Decides(before, after, gone)
    ensures Undecided(after, deps) == Undecided(before, deps) - gone
  {
  }

  /** A waiter released by a decision is ready to go ahead or doomed. */
  lemma ReleasedWaiter(net: Net, s: State, after: map<string, Status>, gone: set<string>, h: string)
    requires GroupInv(net, s, h) && h in s.waiting && s.waiting[h] <= gone
    requires Decides(s.statuses, after, gone)
    ensures Undecided(after, net.deps[h]) == {}
    ensures Doomed(net, after, h) || AllReady(net, after, h)
  {
  }

  /** Groups a step neither decides nor releases keep their place. */
  lemma BystanderInv(net: Net, s: State, t: State, gone: set<string>, h: string)
    requires GroupInv(net, s, h) && HasStatus(t.statuses, h)
    requires Decides(s.statuses, t.statuses, gone) && h !in gone
    requires t.waiting == Release(s.waiting, gone)
    requires h in s.waiting ==> !(s.waiting[h] <= gone)
    requires h in s.started <==> h in t.started
    requires h in s.toSkip <==> h in t.toSkip
    ensures GroupInv(net, t, h)
  {
    hide DepsFirst, Blocks;
    ReleaseKeys(s.waiting, gone);
    ReleaseShrinks(s.waiting, gone);
    UndecidedAfter(s.statuses, t.statuses, gone, net.deps[h]);
    if h in s.waiting {
      assert t.waiting[h] == s.waiting[h] - gone;
    } else if Doomed(net, s.statuses, h) {
      DoomedStays(net, s.statuses, t.statuses, gone, h);
    }
    if AllReady(net, s.statuses, h) {
      AllReadyStays(net, s.statuses, t.statuses, gone, h);
    }
  }

  lemma CompletedInv(net: Net, s: State, g: string)
    requires Inv(net, s) && g in s.started && Succeeds(net, g)
    ensures Inv(net, Completed(net, s, g))
  {
    hide GroupInv;
    var t := Completed(net, s, g);
    ReleaseKeys(s.waiting, {g});
    forall h | h in net.deps ensures GroupInv(net, t, h) {
      CompletedGroupInv(net, s, g, h);
    }
  }

  lemma CompletedGroupInv(net: Net, s: State, g: string, h: string)
    requires g in s.started && Succeeds(net, g) && GroupInv(net, s, g) && GroupInv(net, s, h)
    ensures GroupInv(net, Completed(net, s, g), h)
  {
    var t := Completed(net, s, g);
    assert Decides(s.statuses, t.statuses, {g});
    FreedIsReleased(s, g, h, net);
    if h in Freed(s.waiting, g) {
      ReleasedWaiter(net, s, t.statuses, {g}, h);
      DoomedIsBlocked(net, t.statuses, h);
      ReleaseKeys(s.waiting, {g});
    } else if h == g {
      AllReadyStays(net, s.statuses, t.statuses, {g}, g);
      UndecidedAfter(s.statuses, t.statuses, {g}, net.deps[g]);
      ReleaseKeys(s.waiting, {g});
    } else {
      BystanderInv(net, s, t, {g}, h);
    }
  }

  lemma FreedIsReleased(s: State, g: string, h: string, net: Net)
    requires GroupInv(net, s, h)
    ensures h in Freed(s.waiting, g) <==> h in s.waiting && s.waiting[h] <= {g}
  {
  }

  lemma DoomedIsBlocked(net: Net, statuses: map<string, Status>, h: string)
    ensures Doomed(net, statuses, h) <==> DependencyBlocks(net.deps, statuses, h)
    ensures Doomed(net, statuses, h) ==> !AllReady(net, statuses, h)
  {
  }

  lemma SkippedBehindInv(net: Net, s: State, g: string, status: Status)
    requires Inv(net, s)
    requires if status == Failed then g in s.started && !Succeeds(net, g) else status == Skipped && g in s.toSkip
    ensures Inv(net, SkippedBehind(s, g, status))
  {
    var t := SkippedBehind(s, g, status);
    PlaceOf(net, s, g);
    WaitersUndecided(net, s);
    SkippedBehindKeys(s, g, status);
    hide GroupInv, SkippedBehind, IsDecided, Succeeds;
    forall h | h in net.deps ensures GroupInv(net, t, h) {
      SkippedBehindGroupInv(net, s, g, status, h);
    }
  }

  lemma SkippedBehindKeys(s: State, g: string, status: Status)
    requires g in s.statuses && s.waiting.Keys <= s.statuses.Keys
    ensures var t := SkippedBehind(s, g, status);
            t.statuses.Keys == s.statuses.Keys && t.waiting.Keys <= s.waiting.Keys &&
            t.started <= s.started && t.toSkip <= s.toSkip
  {
    SkipSetIsLeast(s.waiting, g);
    ReleaseKeys(s.waiting, {g} + SkipSet(s.waiting, g));
    hide SkipSet, Release;
  }

  lemma PlaceOf(net: Net, s: State, g: string)
    requires Inv(net, s) && (g in s.started || g in s.toSkip)
    ensures g in net.deps && g !in s.waiting && !IsDecided(s.statuses, g)
  {
  }

  lemma SkippedBehindGroupInv(net: Net, s: State, g: string, status: Status, h: string)
    requires GroupInv(net, s, g) && GroupInv(net, s, h) && g !in s.waiting
    requires if status == Failed then g in s.started && !Succeeds(net, g) else status == Skipped && g in s.toSkip
    requires forall d :: IsDecided(s.statuses, d) ==> d !in s.waiting
    ensures GroupInv(net, SkippedBehind(s, g, status), h)
  {
    hide Doomed, AllReady, Undecided, SkipSet;
    var t := SkippedBehind(s, g, status);
    var skipped := SkipSet(s.waiting, g);
    var gone := {g} + skipped;
    SkipSetIsLeast(s.waiting, g);
    SkipSetBacked(s.waiting, g);
    ReleaseKeys(s.waiting, gone);
    SkippingDecides(s.statuses, g, status, skipped);
    hide SkipAll, Release;
    UndecidedAfter(s.statuses, t.statuses, gone, net.deps[h]);
    if h in skipped {
      SkippedIsDoomed(net, s, t, gone, g, h);
    } else if h == g {
      if status == Failed {
        AllReadyStays(net, s.statuses, t.statuses, gone, g);
      } else {
        DoomedStays(net, s.statuses, t.statuses, gone, g);
      }
    } else {
      BystanderInv(net, s, t, gone, h);
    }
  }

  lemma WaitersUndecided(net: Net, s: State)
    requires Inv(net, s)
    ensures forall d :: IsDecided(s.statuses, d) ==> d !in s.waiting
  {
  }

  lemma SkippingDecides(before: map<string, Status>, g: string, status: Status, skipped: set<string>)
    requires Blocks(status) && !IsDecided(before, g) && g !in skipped
    requires forall d :: IsDecided(before, d) ==> d !in skipped
    ensures var after := SkipAll(before[g := status], skipped);
            && Decides(before, after, {g} + skipped)
            && after.Keys == before.Keys + {g} + skipped && after[g] == status
            && forall h :: h in skipped ==> after[h] == Skipped
  {
    var after := SkipAll(before[g := status], skipped);
    forall d | d !in skipped && d != g ensures d in after <==> d in before {
    }
    assert after.Keys == before.Keys + {g} + skipped;
  }

  /** What a group skipped in the cascade waited for is failed or skipped now. */
  lemma SkippedIsDoomed(net: Net, s: State, t: State, gone: set<string>, g: string, h: string)
    requires GroupInv(net, s, h) && h in s.waiting && s.waiting[h] <= gone && h !in t.waiting
    requires h !in t.started && h !in t.toSkip && IsDecided(t.statuses, h) && t.statuses[h] == Skipped
    requires Undecided(t.statuses, net.deps[h]) == {}
    requires forall d :: d in gone ==> HasStatus(t.statuses, d) && Blocks(t.statuses[d])
    ensures GroupInv(net, t, h)
  {
  }

  lemma StepInv(net: Net, s: State, e: Event)
    requires Inv(net, s) && Enabled(s, e)
    ensures Inv(net, Next(net, s, e))
  {
    match e
    case Report(g) =>
      if Succeeds(net, g) {
        CompletedInv(net, s, g);
      } else {
        SkippedBehindInv(net, s, g, Failed);
      }
    case ApplySkip(g) => SkippedBehindInv(net, s, g, Skipped);
  }

  /** Safety: every state of every run satisfies the invariant. */
  lemma {:induction false} RunInv(net: Net, es: seq<Event>)
    requires WellFormed(net) && Legal(net, es)
    ensures Inv(net, After(net, es))
  {
    if es == [] {
      InitialInv(net);
    } else {
      var before := es[..|es| - 1];
      RunInv(net, before);
      StepInv(net, After(net, before), es[|es| - 1]);
    }
  }

  /** A group is started only when everything it depends on is Ready, and skipped only when
      something it depends on failed or was skipped itself. */
  lemma StartsAndSkipsJustified(net: Net, es: seq<Event>, g: string)
    requires WellFormed(net) && Legal(net, es) && g in net.deps
    ensures var s := After(net, es);
            && g in s.statuses
            && (g in s.started || s.statuses[g] == Ready || s.statuses[g] == Failed ==> AllReady(net, s.statuses, g))
            && (g in s.toSkip || s.statuses[g] == Skipped ==> Doomed(net, s.statuses, g))
  {
    RunInv(net, es);
    assert GroupInv(net, After(net, es), g);
  }

  /** Nothing of an earlier wave may be in flight: if a group that waits reports as complete,
      whoever waits for it alone is started, while the group itself still waits. */
  lemma StaleReportStartsTooEarly(net: Net, s: State, g: string, h: string)
    requires WellFormed(net) && Inv(net, s) && g in s.waiting && h in s.waiting && s.waiting[h] == {g}
    requires !DependencyBlocks(net.deps, s.statuses[g := Ready], h)
    ensures var t := Completed(net, s, g);
            h in t.started && g in t.waiting && IsDecided(t.statuses, g) && !Inv(net, t)
  {
    var t := Completed(net, s, g);
    WaitsForOthers(net, s, g);
    ReleaseKeys(s.waiting, {g});
    hide WellFormed, DependencyBlocks;
    assert g in t.waiting && !GroupInv(net, t, g);
  }

  lemma WaitsForOthers(net: Net, s: State, g: string)
    requires WellFormed(net) && Inv(net, s) && g in s.waiting
    ensures g in net.deps && !(s.waiting[g] <= {g})
  {
    hide AllReady, Doomed, Undecided;
    assert GroupInv(net, s, g);
    var d :| d in s.waiting[g];
    assert d in Undecided(s.statuses, net.deps[g]);
    UndecidedEdge(net, s, g, d);
    NotItsOwnDependency(net, g);
  }

  lemma UndecidedEdge(net: Net, s: State, g: string, d: string)
    requires g in net.deps && d in Undecided(s.statuses, net.deps[g])
    ensures Edge(net.deps, g, d)
  {
  }

  lemma NotItsOwnDependency(net: Net, g: string)
    requires WellFormed(net)
    ensures !Edge(net.deps, g, g)
  {
    if Edge(net.deps, g, g) {
      DependencyIsEarlier(net, g, g);
    }
  }

  // -------------------------------------------------------------------------
  // The outcome, independent of the order of events

  function Position(net: Net, g: string): nat {
    if g in net.order then IndexOf(net.order, g) else 0
  }

  lemma DependencyIsEarlier(net: Net, g: string, d: string)
    requires WellFormed(net) && Edge(net.deps, g, d)
    ensures d in net.deps && Position(net, d) < Position(net, g)
  {
  }

  /** Skipped behind a dependency that does not end Ready, otherwise its own outcome. */
  ghost function Final(net: Net, g: string): Status
    requires WellFormed(net) && g in net.deps
    decreases Position(net, g)
  {
    if exists d | Edge(net.deps, g, d) :: (DependencyIsEarlier(net, g, d); Final(net, d) != Ready) then Skipped
    else if Succeeds(net, g) then Ready
    else Failed
  }

  lemma {:induction false} DecidedIsFinal(net: Net, s: State, g: string)
    requires WellFormed(net) && Inv(net, s) && IsDecided(s.statuses, g)
    ensures g in net.deps && s.statuses[g] == Final(net, g)
    decreases Position(net, g)
  {
    assert GroupInv(net, s, g);
    forall d | Edge(net.deps, g, d) && IsDecided(s.statuses, d)
      ensures d in net.deps && s.statuses[d] == Final(net, d)
    {
      DependencyIsEarlier(net, g, d);
      DecidedIsFinal(net, s, d);
    }
  }

  /** Progress: while a group waits, a started group has yet to report or a decided skip
      has yet to be applied. */
  lemma {:induction false} Progress(net: Net, s: State, g: string)
    requires WellFormed(net) && Inv(net, s) && g in s.waiting
    ensures s.started != {} || s.toSkip != {}
    decreases Position(net, g)
  {
    assert GroupInv(net, s, g);
    var d :| d in s.waiting[g];
    assert d in Undecided(s.statuses, net.deps[g]);
    DependencyIsEarlier(net, g, d);
    assert GroupInv(net, s, d);
    if d in s.waiting {
      Progress(net, s, d);
    }
  }

  /** When nothing is left to happen no group waits, and the statuses are exactly the
      final ones. */
  lemma CompleteIsFinal(net: Net, es: seq<Event>)
    requires WellFormed(net) && Complete(net, es)
    ensures After(net, es).waiting == map[]
    ensures After(net, es).statuses == map g | g in net.deps :: Final(net, g)
    ensures forall g :: g in net.deps ==> IsDecided(After(net, es).statuses, g)
  {
    hide Next, Initial, DepsFirst, IsDecided, Final, Undecided, Doomed, AllReady;
    var s := After(net, es);
    RunInv(net, es);
    if g :| g in s.waiting {
      Progress(net, s, g);
      assert false;
    }
    forall g | g in net.deps ensures s.statuses[g] == Final(net, g) {
      assert GroupInv(net, s, g);
      DecidedIsFinal(net, s, g);
    }
  }

  lemma OrderIndependence(net: Net, es: seq<Event>, fs: seq<Event>)
    requires WellFormed(net) && Complete(net, es) && Complete(net, fs)
    ensures After(net, es) == After(net, fs)
  {
    CompleteIsFinal(net, es);
    CompleteIsFinal(net, fs);
  }

  lemma {:induction false} ReadyReaches(net: Net, g: string, p: seq<string>)
    requires WellFormed(net) && g in net.deps && Final(net, g) == Ready
    requires IsWalk(net.deps, p) && p[0] == g
    ensures Succeeds(net, p[|p| - 1])
    decreases |p|
  {
    if |p| > 1 {
      assert EdgeAt(net.deps, p, 0);
      DependencyIsEarlier(net, g, p[1]);
      assert Final(net, p[1]) == Ready;
      WalkTail(net.deps, p, 1);
      ReadyReaches(net, p[1], p[1..]);
    }
  }

  lemma UnreadyDependency(net: Net, g: string) returns (d: string)
    requires WellFormed(net) && g in net.deps && Final(net, g) == Skipped
    ensures Edge(net.deps, g, d) && d in net.deps && Position(net, d) < Position(net, g) && Final(net, d) != Ready
  {
    d :| Edge(net.deps, g, d) && (DependencyIsEarlier(net, g, d); Final(net, d) != Ready);
    DependencyIsEarlier(net, g, d);
  }

  lemma {:induction false} CulpritOf(net: Net, g: string) returns (p: seq<string>)
    requires WellFormed(net) && g in net.deps && Final(net, g) != Ready
    ensures IsWalk(net.deps, p) && p[0] == g && !Succeeds(net, p[|p| - 1])
    decreases Position(net, g)
  {
    hide WellFormed, DepsFirst, Position;
    if Succeeds(net, g) {
      var d := UnreadyDependency(net, g);
      var q := CulpritOf(net, d);
      WalkPrepend(net.deps, g, q);
      p := [g] + q;
    } else {
      p := [g];
    }
  }

  /** Without recursion: a group ends Ready exactly when it and everything it depends on,
      however indirectly, succeeds. */
  lemma ReadyClosedForm(net: Net, g: string)
    requires WellFormed(net) && g in net.deps
    ensures Final(net, g) == Ready <==>
            forall p :: IsWalk(net.deps, p) && p[0] == g ==> Succeeds(net, p[|p| - 1])
  {
    if Final(net, g) == Ready {
      forall p | IsWalk(net.deps, p) && p[0] == g ensures Succeeds(net, p[|p| - 1]) {
        ReadyReaches(net, g, p);
      }
    } else {
      var p := CulpritOf(net, g);
    }
  }

  // -------------------------------------------------------------------------
  // How runs unfold

  ghost function UndecidedGroups(net: Net, s: State): set<string> {
    set g | g in net.deps && !IsDecided(s.statuses, g)
  }

  ghost function Subject(e: Event): string {
    e.group
  }

  /** `t` keeps every decision of `s` and makes one for `g`; no group waits again, and only
      `g` may have reported in between. */
  ghost predicate Advances(s: State, t: State, g: string) {
    && IsDecided(t.statuses, g)
    && (forall d :: IsDecided(s.statuses, d) ==> IsDecided(t.statuses, d) && t.statuses[d] == s.statuses[d])
    && (forall d :: d in t.waiting ==> d in s.waiting)
    && (forall d :: GoesOn(t, d) ==> GoesOn(s, d) || d == g)
  }

  lemma CompletedAdvances(net: Net, s: State, g: string)
    requires !IsDecided(s.statuses, g)
    ensures var t := Completed(net, s, g); Advances(s, t, g) && GoesOn(t, g)
  {
  }

  lemma SkippedBehindAdvances(s: State, g: string, status: Status)
    requires !IsDecided(s.statuses, g) && Blocks(status) && g !in s.waiting
    requires forall d :: IsDecided(s.statuses, d) ==> d !in s.waiting
    ensures var t := SkippedBehind(s, g, status); Advances(s, t, g) && (GoesOn(t, g) <==> status == Failed)
  {
    var skipped := SkipSet(s.waiting, g);
    SkipSetIsLeast(s.waiting, g);
    ReleaseKeys(s.waiting, {g} + skipped);
    SkippingDecides(s.statuses, g, status, skipped);
  }

  /** Every event decides its group, and reports it if it is a report. */
  lemma StepDecides(net: Net, s: State, e: Event)
    requires Inv(net, s) && Enabled(s, e)
    ensures Subject(e) in net.deps && !IsDecided(s.statuses, Subject(e))
    ensures Advances(s, Next(net, s, e), Subject(e))
    ensures GoesOn(Next(net, s, e), Subject(e)) <==> e.Report?
  {
    hide AllReady, Doomed, Undecided, Completed, SkippedBehind, Advances, GoesOn;
    var g := Subject(e);
    assert GroupInv(net, s, g);
    WaitersUndecided(net, s);
    CompletedAdvances(net, s, g);
    SkippedBehindAdvances(s, g, if e.ApplySkip? then Skipped else Failed);
  }

  /** Reported, in one way or the other. */
  predicate GoesOn(s: State, g: string) {
    g in s.statuses && (s.statuses[g] == Ready || s.statuses[g] == Failed)
  }

  /** A run has at most as many events as there are groups. */
  lemma {:induction false} RunsAreShort(net: Net, es: seq<Event>)
    requires WellFormed(net) && Legal(net, es)
    ensures |es| + |UndecidedGroups(net, After(net, es))| <= |net.deps|
  {
    hide Next, Inv, Initial, IsDecided;
    if es == [] {
      SubsetSize(UndecidedGroups(net, Initial(net)), net.deps.Keys);
    } else {
      var before, e := es[..|es| - 1], es[|es| - 1];
      RunsAreShort(net, before);
      RunInv(net, before);
      StepDecides(net, After(net, before), e);
      assert Subject(e) in UndecidedGroups(net, After(net, before));
      assert Subject(e) !in UndecidedGroups(net, After(net, es));
      SetSizes(UndecidedGroups(net, After(net, es)), UndecidedGroups(net, After(net, before)));
    }
  }

  lemma SubsetSize(a: set<string>, b: set<string>)
    requires a <= b
    ensures |a| <= |b|
  {
    if a != b {
      SetSizes(a, b);
    }
  }

  /** Every run can be completed. */
  lemma {:induction false} RunsFinish(net: Net, es: seq<Event>)
    requires WellFormed(net) && Legal(net, es)
    ensures exists fs :: es <= fs && Complete(net, fs)
    decreases |net.deps| - |es|
  {
    hide Next, Inv, Initial, IsDecided, WellFormed;
    var s := After(net, es);
    if s.started == {} && s.toSkip == {} {
      assert es <= es && Complete(net, es);
    } else {
      var e := if s.started != {} then var g :| g in s.started; Report(g) else var g :| g in s.toSkip; ApplySkip(g);
      var longer := es + [e];
      assert longer[..|longer| - 1] == es;
      assert Legal(net, longer);
      RunsAreShort(net, longer);
      RunsFinish(net, longer);
      var fs :| longer <= fs && Complete(net, fs);
      assert es <= fs;
    }
  }

  /** The groups that report are those that are not skipped. */
  lemma {:induction false} ReportedGroups(net: Net, es: seq<Event>, g: string)
    requires WellFormed(net) && Legal(net, es) && g in net.deps
    ensures Report(g) in es <==> GoesOn(After(net, es), g)
  {
    if es == [] {
    } else {
      var before, e := es[..|es| - 1], es[|es| - 1];
      assert es == before + [e];
      ReportedGroups(net, before, g);
      RunInv(net, before);
      StepDecides(net, After(net, before), e);
      hide Inv, Next, WellFormed, IsDecided;
    }
  }

  /** No group is reported or skipped twice. */
  lemma {:induction false} EventsOnce(net: Net, es: seq<Event>)
    requires WellFormed(net) && Legal(net, es)
    ensures forall i, j :: 0 <= i < j < |es| ==> Subject(es[i]) != Subject(es[j])
    ensures forall i :: 0 <= i < |es| ==> IsDecided(After(net, es).statuses, Subject(es[i]))
  {
    hide Next, Inv, Initial, IsDecided;
    if es == [] {
    } else {
      var before, e := es[..|es| - 1], es[|es| - 1];
      EventsOnce(net, before);
      RunInv(net, before);
      StepDecides(net, After(net, before), e);
      assert forall i :: 0 <= i < |before| ==> before[i] == es[i];
    }
  }

  ghost predicate ReleasedAt(net: Net, es: seq<Event>, i: nat, g: string) {
    i < |es| && g in After(net, es[..i]).waiting && g !in After(net, es[..i + 1]).waiting
  }

  lemma {:induction false} NeverWaitsAgain(net: Net, es: seq<Event>, i: nat, g: string)
    requires WellFormed(net) && Legal(net, es) && i <= |es|
    requires g !in After(net, es[..i]).waiting
    ensures g !in After(net, es).waiting
  {
    if i == |es| {
      assert es[..i] == es;
    } else {
      var before := es[..|es| - 1];
      assert before[..i] == es[..i];
      NeverWaitsAgain(net, before, i, g);
      RunInv(net, before);
      StepDecides(net, After(net, before), es[|es| - 1]);
    }
  }

  lemma {:induction false} PrefixLegal(net: Net, es: seq<Event>, i: nat)
    requires Legal(net, es) && i <= |es|
    ensures Legal(net, es[..i])
  {
    if i < |es| {
      assert es[..|es| - 1][..i] == es[..i];
      PrefixLegal(net, es[..|es| - 1], i);
    } else {
      assert es[..i] == es;
    }
  }

  /** Over a complete wave each group with dependencies is released exactly once. */
  lemma ReleasedOnce(net: Net, es: seq<Event>, g: string)
    requires WellFormed(net) && Complete(net, es) && g in net.deps && net.deps[g] != []
    ensures exists i: nat :: ReleasedAt(net, es, i, g) && forall j: nat :: ReleasedAt(net, es, j, g) ==> j == i
  {
    hide Next, Inv, Final;
    CompleteIsFinal(net, es);
    assert es[..|es|] == es;
    var i := FirstRelease(net, es, g);
    hide ReleasedAt;
    forall j: nat | ReleasedAt(net, es, j, g) ensures j == i {
      NotReleasedAgain(net, es, i, j, g);
      NotReleasedAgain(net, es, j, i, g);
    }
  }

  lemma NotReleasedAgain(net: Net, es: seq<Event>, i: nat, j: nat, g: string)
    requires WellFormed(net) && Legal(net, es) && ReleasedAt(net, es, i, g) && ReleasedAt(net, es, j, g)
    ensures j <= i
  {
    hide Next, Inv, After, WellFormed;
    if i < j {
      PrefixLegal(net, es, j);
      assert es[..j][..i + 1] == es[..i + 1];
      NeverWaitsAgain(net, es[..j], i + 1, g);
    }
  }

  lemma {:induction false} FirstRelease(net: Net, es: seq<Event>, g: string) returns (i: nat)
    requires g in Initial(net).waiting && g !in After(net, es).waiting
    ensures ReleasedAt(net, es, i, g)
  {
    hide Next, Initial;
    assert es[..|es|] == es && es[..0] == [];
    i := |es| - 1;
    while g !in After(net, es[..i]).waiting
      invariant i < |es| && g !in After(net, es[..i + 1]).waiting
      decreases i
    {
      i := i - 1;
    }
  }
}
