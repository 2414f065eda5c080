/** The dependency resolver: which groups may start, or must be skipped, as others finish. */
module Resolver {
  import opened Common
  import opened Graph

  datatype Status = Pending | Waiting | Running | Ready | Failed | Skipped

  /** For each waiting group, the dependencies it still waits for. */
  type Waits = map<string, set<string>>

  predicate Blocks(s: Status) {
    s == Failed || s == Skipped
  }

  predicate DependencyBlocks(deps: Deps, statuses: map<string, Status>, group: string) {
    group in deps && exists d :: d in deps[group] && d in statuses && Blocks(statuses[d])
  }

  /** The dependencies of a group that are not Ready. */
  ghost function Unready(deps: Deps, statuses: map<string, Status>, group: string): (unready: set<string>)
    ensures forall d :: d in unready <==>
              group in deps && d in deps[group] && !(d in statuses && statuses[d] == Ready)
  {
    if group in deps then set d | d in deps[group] && !(d in statuses && statuses[d] == Ready) else {}
  }

  // -------------------------------------------------------------------------
  // Specification of a cascade of skips

  /** `s` holds every waiter that, beside `src`, waits only for members of `s`. */
  ghost predicate SkipClosed(w: Waits, src: string, s: set<string>) {
    forall g :: g in w && w[g] <= {src} + s ==> g in s
  }

  /** The least set closed in that sense. */
  ghost function SkipSet(w: Waits, src: string): set<string> {
    Grow(w, src, {})
  }

  ghost function Grow(w: Waits, src: string, s: set<string>): set<string>
    requires s <= w.Keys
    decreases |w.Keys - s|
  {
    var next := set g | g in w && w[g] <= {src} + s;
    if next <= s then s
    else
      assert w.Keys - (s + next) < w.Keys - s;
      SetSizes(w.Keys - (s + next), w.Keys - s);
      Grow(w, src, s + next)
  }

  lemma SetSizes(a: set<string>, b: set<string>)
    requires a < b
    ensures |a| < |b|
  {
    assert b == a + (b - a);
    assert |b| == |a| + |b - a|;
  }

  lemma {:induction false} GrowIsLeast(w: Waits, src: string, s: set<string>, t: set<string>)
    requires s <= w.Keys
    ensures s <= Grow(w, src, s) <= w.Keys && SkipClosed(w, src, Grow(w, src, s))
    ensures s <= t && SkipClosed(w, src, t) ==> Grow(w, src, s) <= t
    decreases |w.Keys - s|
  {
    var next := set g | g in w && w[g] <= {src} + s;
    if !(next <= s) {
      assert w.Keys - (s + next) < w.Keys - s;
      SetSizes(w.Keys - (s + next), w.Keys - s);
      GrowIsLeast(w, src, s + next, t);
    }
  }

  lemma SkipSetIsLeast(w: Waits, src: string)
    ensures SkipSet(w, src) <= w.Keys && SkipClosed(w, src, SkipSet(w, src))
    ensures forall t :: SkipClosed(w, src, t) ==> SkipSet(w, src) <= t
  {
    GrowIsLeast(w, src, {}, {});
    forall t | SkipClosed(w, src, t) ensures SkipSet(w, src) <= t {
      GrowIsLeast(w, src, {}, t);
    }
  }

  /** No member waits for anything outside the set: a skip is always forced. */
  lemma SkipSetBacked(w: Waits, src: string)
    ensures forall g :: g in SkipSet(w, src) ==> g in w && w[g] <= {src} + SkipSet(w, src)
  {
    SkipSetIsLeast(w, src);
    var s := SkipSet(w, src);
    var t := set g | g in s && w[g] <= {src} + s;
    assert SkipClosed(w, src, t);
  }

  /** Waiting sets once the groups in `gone` are no longer waited for. */
  function Release(w: Waits, gone: set<string>): Waits {
    map h | h in w && !(w[h] <= gone) :: w[h] - gone
  }

  lemma ReleaseShrinks(w: Waits, gone: set<string>)
    ensures forall h :: h in Release(w, gone) ==> h in w && Release(w, gone)[h] <= w[h] && Release(w, gone)[h] != {}
  {
    forall h | h in Release(w, gone) ensures w[h] - gone != {} {
      var x :| x in w[h] && x !in gone;
      assert x in w[h] - gone;
    }
  }

  lemma ReleaseTwice(w: Waits, gone: set<string>, more: set<string>)
    ensures Release(Release(w, gone), more) == Release(w, gone + more)
  {
    forall h | h in w ensures w[h] - gone <= more <==> w[h] <= gone + more {
    }
    assert forall h :: h in w ==> (w[h] - gone) - more == w[h] - (gone + more);
    assert Release(Release(w, gone), more).Keys == Release(w, gone + more).Keys;
  }

  lemma ReleaseKeys(w: Waits, gone: set<string>)
    ensures forall h :: h in Release(w, gone) <==> h in w && !(w[h] <= gone)
  {
  }

  function SkipAll(statuses: map<string, Status>, skipped: set<string>): map<string, Status> {
    statuses + map g | g in skipped :: Skipped
  }

  /** Where a cascade stands: the groups in `done` have been removed from every waiting
      set, the waiters this emptied are in `skipped`, and what is not done is stacked. */
  ghost predicate Cascading(w: Waits, src: string, done: set<string>, skipped: set<string>, stack: set<string>) {
    && done + stack == {src} + skipped
    && skipped == (set h | h in w && w[h] <= done)
    && skipped <= SkipSet(w, src)
  }

  lemma CascadeStep(w: Waits, src: string, done: set<string>, skipped: set<string>, stack: set<string>,
                    current: string, released: set<string>)
    requires Cascading(w, src, done, skipped, stack + {current})
    requires released == set h | h in Release(w, done) && Release(w, done)[h] <= {current}
    ensures Cascading(w, src, done + {current}, skipped + released, stack + released)
    ensures Release(Release(w, done), {current}) == Release(w, done + {current})
    ensures released !! skipped
  {
    ReleaseTwice(w, done, {current});
    ReleaseKeys(w, done);
    SkipSetIsLeast(w, src);
    var all := set h | h in w && w[h] <= done + {current};
    forall h ensures h in all <==> h in skipped + released {
      if h in w && !(w[h] <= done) {
        assert Release(w, done)[h] == w[h] - done;
        assert w[h] - done <= {current} <==> w[h] <= done + {current};
      }
    }
    assert done + {current} <= {src} + skipped <= {src} + SkipSet(w, src);
    assert forall h :: h in all ==> w[h] <= {src} + SkipSet(w, src);
    assert done + {current} + (stack + released) == {src} + (skipped + released);
  }

  lemma CascadeDone(w: Waits, src: string, done: set<string>, skipped: set<string>)
    requires Cascading(w, src, done, skipped, Elems<string>([]))
    ensures skipped == SkipSet(w, src) && done == {src} + SkipSet(w, src)
  {
    SkipSetIsLeast(w, src);
    assert done == {src} + skipped;
    assert SkipClosed(w, src, skipped);
  }

  lemma CascadeStart(w: Waits, src: string)
    requires forall h :: h in w ==> w[h] != {}
    ensures Cascading(w, src, {}, Elems<string>([]), Elems([src])) && Release(w, {}) == w
  {
    forall h | h in w ensures !(w[h] <= {}) && w[h] - {} == w[h] {
    }
    assert Elems([src]) == {src};
    assert Release(w, {}).Keys == w.Keys;
  }

  /** One round of the worklist, on the lists the method keeps. */
  lemma CascadeRound(w: Waits, src: string, done: set<string>, skipped: seq<string>, stack: seq<string>,
                     current: string, released: seq<string>, statuses: map<string, Status>)
    requires Cascading(w, src, done, Elems(skipped), Elems(stack + [current]))
    requires NoDup(skipped) && NoDup(released)
    requires forall h :: h in Release(w, done) ==> Release(w, done)[h] != {}
    requires forall h :: h in released <==> h in Release(w, done) && Release(w, done)[h] == {current}
    ensures Cascading(w, src, done + {current}, Elems(skipped + released), Elems(stack + released))
    ensures Release(Release(w, done), {current}) == Release(w, done + {current})
    ensures NoDup(skipped + released)
    ensures SkipAll(SkipAll(statuses, Elems(skipped)), Elems(released)) == SkipAll(statuses, Elems(skipped + released))
    ensures if released == [] then |Release(w, done + {current})| <= |Release(w, done)|
            else |Release(w, done + {current})| < |Release(w, done)|
  {
    var wc := Release(w, done);
    ElemsConcat(stack, [current]);
    ElemsConcat(stack, released);
    ElemsConcat(skipped, released);
    assert Elems([current]) == {current};
    ReleasedByOne(wc, current, released);
    CascadeStep(w, src, done, Elems(skipped), Elems(stack), current, Elems(released));
    NoDupConcat(skipped, released);
    SkipAllTwice(statuses, Elems(skipped), Elems(released));
  }

  lemma ReleasedByOne(w: Waits, current: string, released: seq<string>)
    requires forall h :: h in w ==> w[h] != {}
    requires forall h :: h in released <==> h in w && w[h] == {current}
    ensures Elems(released) == set h | h in w && w[h] <= {current}
    ensures if released == [] then |Release(w, {current})| <= |w| else |Release(w, {current})| < |w|
  {
    SingletonBelow(w, current);
    var next := Release(w, {current});
    ReleaseKeys(w, {current});
    assert next.Keys <= w.Keys;
    if released != [] {
      assert released[0] in w.Keys - next.Keys;
    }
    if next.Keys != w.Keys {
      SetSizes(next.Keys, w.Keys);
    }
    assert |next| == |next.Keys| && |w| == |w.Keys|;
  }

  lemma SingletonBelow(w: Waits, g: string)
    requires forall h :: h in w ==> w[h] != {}
    ensures forall h :: h in w ==> (w[h] <= {g} <==> w[h] == {g})
  {
  }

  lemma SkipAllTwice(statuses: map<string, Status>, a: set<string>, b: set<string>)
    ensures SkipAll(SkipAll(statuses, a), b) == SkipAll(statuses, a + b)
  {
  }

  lemma SkipAllNone(statuses: map<string, Status>)
    ensures SkipAll(statuses, Elems([])) == statuses
  {
  }

  lemma SkipAllAppend(statuses: map<string, Status>, skipped: seq<string>, d: string)
    ensures SkipAll(statuses, Elems(skipped + [d])) == SkipAll(statuses, Elems(skipped))[d := Skipped]
  {
  }

  // -------------------------------------------------------------------------

  /** The waiting sets when only the groups in `seen` have been told that `group` is done. */
  function ReleaseSeen(w: Waits, group: string, seen: set<string>): Waits {
    map h | h in w && !(h in seen && w[h] == {group}) :: if h in seen then w[h] - {group} else w[h]
  }

  lemma ReleaseSeenStep(w: Waits, group: string, seen: set<string>, d: string)
    requires forall h :: h in w ==> w[h] != {}
    ensures var cur, next := ReleaseSeen(w, group, seen), ReleaseSeen(w, group, seen + {d});
            if d !in cur then next == cur && (d in w ==> d in seen)
            else if cur[d] - {group} != {} then
              d in w && w[d] != {group} && next == cur[d := cur[d] - {group}]
            else d in w && w[d] == {group} && d !in seen && next == cur[d := {}] - {d}
  {
    var cur, next := ReleaseSeen(w, group, seen), ReleaseSeen(w, group, seen + {d});
    if d in cur {
      if cur[d] - {group} == {} {
        assert w[d] <= {group} && w[d] != {};
        assert forall x :: x in w[d] ==> x == group;
        assert w[d] == {group};
        assert next == cur[d := {}] - {d};
      } else {
        assert w[d] != {group};
        assert (w[d] - {group}) - {group} == w[d] - {group};
        assert next == cur[d := cur[d] - {group}];
      }
    }
  }

  lemma ReleaseSeenNone(w: Waits, group: string)
    ensures ReleaseSeen(w, group, {}) == w
  {
  }

  lemma ReleaseSeenAll(w: Waits, group: string, seen: set<string>)
    requires forall h :: h in w ==> w[h] != {}
    requires forall h :: h in w && group in w[h] ==> h in seen
    ensures ReleaseSeen(w, group, seen) == Release(w, {group})
  {
    forall h | h in w ensures w[h] <= {group} <==> w[h] == {group} {
      if w[h] <= {group} {
        assert exists x :: x in w[h];
      }
    }
    assert forall h :: h in w && h !in seen ==> w[h] - {group} == w[h] && w[h] != {group};
    assert ReleaseSeen(w, group, seen).Keys == Release(w, {group}).Keys;
  }

  predicate Listed(index: map<string, seq<string>>, g: string, h: string) {
    g in index && h in index[g]
  }

  function IndexUnder(index: map<string, seq<string>>, name: string, deps: seq<string>): map<string, seq<string>> {
    if deps == [] then index
    else
      var n := |deps| - 1;
      var shorter := IndexUnder(index, name, deps[..n]);
      shorter[deps[n] := (if deps[n] in shorter then shorter[deps[n]] else []) + [name]]
  }

  lemma {:induction false} IndexUnderAt(index: map<string, seq<string>>, name: string, deps: seq<string>,
                                        g: string, h: string)
    ensures var r := IndexUnder(index, name, deps);
            Listed(r, g, h) <==> Listed(index, g, h) || (h == name && g in deps)
  {
    if deps == [] {
    } else {
      var n := |deps| - 1;
      IndexUnderAt(index, name, deps[..n], g, h);
      assert deps == deps[..n] + [deps[n]];
    }
  }

  function ListedUnder(index: map<string, seq<string>>, g: string): (ds: seq<string>)
    ensures g in index ==> ds == index[g]
    ensures g !in index ==> ds == []
  {
    if g in index then index[g] else []
  }

  /** Under each dependency `name` is appended as often as the dependency is given. */
  lemma {:induction false} IndexUnderCount(index: map<string, seq<string>>, name: string, deps: seq<string>, g: string)
    ensures ListedUnder(IndexUnder(index, name, deps), g) == ListedUnder(index, g) + Times(name, multiset(deps)[g])
  {
    if deps == [] {
    } else {
      var n := |deps| - 1;
      IndexUnderCount(index, name, deps[..n], g);
      IndexUnderLast(index, name, deps, g);
      TimesMore(ListedUnder(index, g), name, multiset(deps[..n])[g]);
      assert deps == deps[..n] + [deps[n]];
      assert multiset(deps) == multiset(deps[..n]) + multiset{deps[n]};
      hide IndexUnder, ListedUnder, Times;
    }
  }

  lemma IndexUnderLast(index: map<string, seq<string>>, name: string, deps: seq<string>, g: string)
    requires deps != []
    ensures var n := |deps| - 1;
            ListedUnder(IndexUnder(index, name, deps), g) ==
            ListedUnder(IndexUnder(index, name, deps[..n]), g) + if deps[n] == g then [name] else []
  {
  }

  lemma TimesMore(before: seq<string>, name: string, n: nat)
    ensures before + Times(name, n) + [name] == before + Times(name, n + 1) && before + Times(name, 0) == before
  {
  }

  function Times(name: string, n: nat): (s: seq<string>)
    ensures |s| == n && forall i :: 0 <= i < n ==> s[i] == name
  {
    if n == 0 then [] else Times(name, n - 1) + [name]
  }

  /** Registering `name` adds exactly the entries for its dependencies. */
  lemma IndexUnderExact(index: map<string, seq<string>>, name: string, deps: seq<string>)
    ensures var r := IndexUnder(index, name, deps);
            forall g, h :: Listed(r, g, h) <==> Listed(index, g, h) || (h == name && g in deps)
  {
    var r := IndexUnder(index, name, deps);
    forall g, h ensures Listed(r, g, h) <==> Listed(index, g, h) || (h == name && g in deps) {
      IndexUnderAt(index, name, deps, g, h);
    }
  }

  class DependencyResolver {
    var dependents: map<string, seq<string>>
    var waiting: Waits
    var statuses: map<string, Status>
    var dependencies: Deps

    /** The reverse index covers every dependency and every waiting set, and a waiter
        waits for something. */
    ghost predicate Valid()
      reads this
    {
      && (forall h, g :: Edge(dependencies, h, g) ==> Listed(dependents, g, h))
      && (forall h, g :: h in waiting && g in waiting[h] ==> Listed(dependents, g, h))
      && (forall h :: h in waiting ==> waiting[h] != {})
    }

    constructor ()
      ensures Valid() && dependents == map[] && waiting == map[] && statuses == map[] && dependencies == map[]
    {
      dependents, waiting, statuses, dependencies := map[], map[], map[], map[];
    }

    method AddGroup(name: string, deps: seq<string>)
      requires Valid()
      modifies this
      ensures Valid() && waiting == old(waiting)
      ensures dependencies == old(dependencies)[name := deps]
      ensures statuses == old(statuses)[name := Pending]
      ensures dependents == IndexUnder(old(dependents), name, deps)
    {
      dependencies := dependencies[name := deps];
      for i := 0 to |deps|
        invariant waiting == old(waiting) && statuses == old(statuses)
        invariant dependencies == old(dependencies)[name := deps]
        invariant dependents == IndexUnder(old(dependents), name, deps[..i])
      {
        assert deps[..i + 1][..i] == deps[..i];
        dependents := dependents[deps[i] := GetDependents(deps[i]) + [name]];
      }
      assert deps[..|deps|] == deps;
      IndexUnderExact(old(dependents), name, deps);
      statuses := statuses[name := Pending];
    }

    function GetDependencies(group: string): seq<string>
      reads this`dependencies
    {
      if group in dependencies then dependencies[group] else []
    }

    function GetDependents(group: string): seq<string>
      reads this`dependents
    {
      if group in dependents then dependents[group] else []
    }

    method SetStatus(group: string, status: Status)
      modifies this`statuses
      ensures statuses == old(statuses)[group := status]
    {
      statuses := statuses[group := status];
    }

    predicate IsReady(group: string)
      reads this`statuses
    {
      group in statuses && statuses[group] == Ready
    }

    /** Exact in every reachable state: the loop over the reverse index misses no waiter. */
    method HasWaitingDependents(group: string) returns (found: bool)
      requires Valid()
      ensures found <==> exists h :: h in waiting && group in waiting[h]
    {
      var ds := GetDependents(group);
      for i := 0 to |ds|
        invariant forall j :: 0 <= j < i && ds[j] in waiting ==> group !in waiting[ds[j]]
      {
        if ds[i] in waiting && group in waiting[ds[i]] {
          return true;
        }
      }
      assert forall h :: h in waiting && group in waiting[h] ==> Listed(dependents, group, h);
      return false;
    }

    predicate AnyDependencyFailed(group: string)
      reads this`statuses, this`dependencies
    {
      DependencyBlocks(dependencies, statuses, group)
    }

    method MarkWaiting(group: string) returns (r: Option<set<string>>)
      requires Valid()
      modifies this`waiting, this`statuses
      ensures Valid()
      ensures var unready := Unready(dependencies, old(statuses), group);
              if unready == {} then r.None? && waiting == old(waiting) && statuses == old(statuses)
              else r == Some(unready) && waiting == old(waiting)[group := unready] &&
                   statuses == old(statuses)[group := Waiting]
    {
      var unready := set d | d in GetDependencies(group) && !IsReady(d);
      assert unready == Unready(dependencies, statuses, group);
      if unready == {} {
        return None;
      }
      assert forall d :: d in unready ==> Edge(dependencies, group, d);
      waiting := waiting[group := unready];
      SetStatus(group, Waiting);
      return Some(unready);
    }

    /** Every group that waited for `group` alone is released, once, on one of the two
        lists: to start if none of its dependencies failed, to be skipped otherwise. */
    method MarkComplete(group: string) returns (ready: seq<string>, needsSkip: seq<string>)
      requires Valid()
      modifies this`waiting, this`statuses
      ensures Valid()
      ensures statuses == old(statuses)[group := Ready]
      ensures waiting == Release(old(waiting), {group})
      ensures NoDup(ready) && NoDup(needsSkip)
      ensures forall h :: h in ready <==>
                h in old(waiting) && old(waiting)[h] == {group} && !DependencyBlocks(dependencies, statuses, h)
      ensures forall h :: h in needsSkip <==>
                h in old(waiting) && old(waiting)[h] == {group} && DependencyBlocks(dependencies, statuses, h)
    {
      hide NoDup, ReleaseSeen, Release, DependencyBlocks;
      SetStatus(group, Ready);
      ready, needsSkip := [], [];
      NoDupEmpty<string>();
      var ds := GetDependents(group);
      ghost var w, seen := waiting, {};
      ReleaseSeenNone(w, group);
      for i := 0 to |ds|
        invariant statuses == old(statuses)[group := Ready]
        invariant waiting == ReleaseSeen(w, group, seen) && forall j :: 0 <= j < i ==> ds[j] in seen
        invariant NoDup(ready) && NoDup(needsSkip)
        invariant forall h :: h in ready <==>
                    h in seen && h in w && w[h] == {group} && !DependencyBlocks(dependencies, statuses, h)
        invariant forall h :: h in needsSkip <==>
                    h in seen && h in w && w[h] == {group} && DependencyBlocks(dependencies, statuses, h)
      {
        var d := ds[i];
        ReleaseSeenStep(w, group, seen, d);
        NoDupAppend(ready, d);
        NoDupAppend(needsSkip, d);
        seen := seen + {d};
        if d in waiting {
          var left := waiting[d] - {group};
          waiting := waiting[d := left];
          if left == {} {
            waiting := waiting - {d};
            if AnyDependencyFailed(d) {
              needsSkip := needsSkip + [d];
            } else {
              ready := ready + [d];
            }
          }
        }
      }
      forall h | h in w && group in w[h] ensures h in seen {
        assert Listed(dependents, group, h);
        assert h in ds;
      }
      assert forall h :: h in w && w[h] == {group} ==> group in w[h];
      ReleaseSeenAll(w, group, seen);
      ReleaseShrinks(w, {group});
    }

    /** Releases the groups that waited for `current` alone, marking them skipped. */
    method SkipDependents(current: string) returns (released: seq<string>)
      requires Valid()
      modifies this`waiting, this`statuses
      ensures Valid()
      ensures waiting == Release(old(waiting), {current})
      ensures NoDup(released)
      ensures forall h :: h in released <==> h in old(waiting) && old(waiting)[h] == {current}
      ensures statuses == SkipAll(old(statuses), Elems(released))
    {
      hide NoDup, ReleaseSeen, Release, Elems, SkipAll;
      released := [];
      NoDupEmpty<string>();
      SkipAllNone(statuses);
      var ds := GetDependents(current);
      ghost var w, seen := waiting, {};
      ReleaseSeenNone(w, current);
      for i := 0 to |ds|
        invariant waiting == ReleaseSeen(w, current, seen) && forall j :: 0 <= j < i ==> ds[j] in seen
        invariant NoDup(released) && statuses == SkipAll(old(statuses), Elems(released))
        invariant forall h :: h in released <==> h in seen && h in w && w[h] == {current}
      {
        var d := ds[i];
        ReleaseSeenStep(w, current, seen, d);
        NoDupAppend(released, d);
        SkipAllAppend(old(statuses), released, d);
        seen := seen + {d};
        if d in waiting {
          var left := waiting[d] - {current};
          waiting := waiting[d := left];
          if left == {} {
            waiting := waiting - {d};
            SetStatus(d, Skipped);
            released := released + [d];
          }
        }
      }
      forall h | h in w && current in w[h] ensures h in seen {
        assert Listed(dependents, current, h);
        assert h in ds;
      }
      assert forall h :: h in w && w[h] == {current} ==> current in w[h];
      ReleaseSeenAll(w, current, seen);
      ReleaseShrinks(w, {current});
    }

    /** Skips exactly the least set of groups that wait, beside `group`, only for each
        other; every other waiter stops waiting for those and for `group`. */
    method CascadeSkipFrom(group: string) returns (toSkip: seq<string>)
      requires Valid()
      modifies this`waiting, this`statuses
      ensures Valid()
      ensures NoDup(toSkip) && Elems(toSkip) == SkipSet(old(waiting), group)
      ensures waiting == Release(old(waiting), {group} + SkipSet(old(waiting), group))
      ensures statuses == SkipAll(old(statuses), SkipSet(old(waiting), group))
    {
      hide NoDup, Release, Elems, SkipAll, Cascading, SkipSet;
      toSkip := [];
      var toProcess := [group];
      ghost var w, done := waiting, {};
      CascadeStart(w, group);
      SkipAllNone(statuses);
      NoDupEmpty<string>();
      while toProcess != []
        invariant Valid() && waiting == Release(w, done)
        invariant NoDup(toSkip) && statuses == SkipAll(old(statuses), Elems(toSkip))
        invariant Cascading(w, group, done, Elems(toSkip), Elems(toProcess))
        decreases |waiting|, |toProcess|
      {
        var current := toProcess[|toProcess| - 1];
        assert toProcess == toProcess[..|toProcess| - 1] + [current];
        toProcess := toProcess[..|toProcess| - 1];
        var released := SkipDependents(current);
        CascadeRound(w, group, done, toSkip, toProcess, current, released, old(statuses));
        toSkip := toSkip + released;
        toProcess := toProcess + released;
        done := done + {current};
      }
      CascadeDone(w, group, done, Elems(toSkip));
    }

    /** The group that broke keeps Failed, unless it waits, at some remove, for itself. */
    method MarkFailed(group: string) returns (toSkip: seq<string>)
      requires Valid()
      modifies this`waiting, this`statuses
      ensures Valid()
      ensures NoDup(toSkip) && Elems(toSkip) == SkipSet(old(waiting), group)
      ensures waiting == Release(old(waiting), {group} + SkipSet(old(waiting), group))
      ensures statuses == SkipAll(old(statuses)[group := Failed], SkipSet(old(waiting), group))
    {
      SetStatus(group, Failed);
      toSkip := CascadeSkipFrom(group);
    }

    method MarkSkipped(group: string) returns (toSkip: seq<string>)
      requires Valid()
      modifies this`waiting, this`statuses
      ensures Valid()
      ensures NoDup(toSkip) && Elems(toSkip) == SkipSet(old(waiting), group)
      ensures waiting == Release(old(waiting), {group} + SkipSet(old(waiting), group))
      ensures statuses == SkipAll(old(statuses)[group := Skipped], SkipSet(old(waiting), group))
    {
      SetStatus(group, Skipped);
      toSkip := CascadeSkipFrom(group);
    }

    method ResetForRerun()
      requires Valid()
      modifies this`waiting, this`statuses
      ensures Valid()
      ensures waiting == map[] && statuses == map g | g in old(statuses) :: Pending
    {
      waiting := map[];
      statuses := map g | g in statuses :: Pending;
    }
  }

  ghost predicate UniqueNames(groups: seq<Group>) {
    forall i, j :: 0 <= i < j < |groups| ==> groups[i].name != groups[j].name
  }

  lemma NameIsNew(groups: seq<Group>, i: nat)
    requires UniqueNames(groups) && i < |groups|
    ensures groups[i].name !in Adjacency(groups[..i])
  {
  }

  /** The reverse index lists only actual dependents. */
  ghost predicate IndexExact(index: map<string, seq<string>>, deps: Deps) {
    forall g, h :: Listed(index, g, h) <==> Edge(deps, h, g)
  }

  lemma IndexStaysExact(index: map<string, seq<string>>, deps: Deps, name: string, added: seq<string>)
    requires IndexExact(index, deps) && name !in deps
    ensures IndexExact(IndexUnder(index, name, added), deps[name := added])
  {
    IndexUnderExact(index, name, added);
    forall g, h ensures Listed(IndexUnder(index, name, added), g, h) <==> Edge(deps[name := added], h, g) {
      assert Listed(index, g, h) <==> Edge(deps, h, g);
    }
  }

  lemma OneGroupMore(groups: seq<Group>, i: nat, index: map<string, seq<string>>)
    requires i < |groups|
    ensures var deps, next := Adjacency(groups[..i]), Adjacency(groups[..i + 1]);
            && next == deps[groups[i].name := groups[i].dependsOn]
            && (map g | g in next :: Pending) == (map g | g in deps :: Pending)[groups[i].name := Pending]
            && (UniqueNames(groups) && IndexExact(index, deps) ==>
                  IndexExact(IndexUnder(index, groups[i].name, groups[i].dependsOn), next))
  {
    assert groups[..i + 1][..i] == groups[..i];
    hide IndexExact, IndexUnder;
    if UniqueNames(groups) && IndexExact(index, Adjacency(groups[..i])) {
      NameIsNew(groups, i);
      IndexStaysExact(index, Adjacency(groups[..i]), groups[i].name, groups[i].dependsOn);
    }
  }

  /** A resolver for the configured groups, in their order. */
  method FromGroups(groups: seq<Group>) returns (r: DependencyResolver)
    ensures fresh(r) && r.Valid() && r.waiting == map[]
    ensures r.dependencies == Adjacency(groups)
    ensures r.statuses == map g | g in Adjacency(groups) :: Pending
    ensures UniqueNames(groups) ==> IndexExact(r.dependents, r.dependencies)
  {
    r := new DependencyResolver();
    for i := 0 to |groups|
      invariant fresh(r) && r.Valid() && r.waiting == map[]
      invariant r.dependencies == Adjacency(groups[..i])
      invariant r.statuses == map g | g in Adjacency(groups[..i]) :: Pending
      invariant UniqueNames(groups) ==> IndexExact(r.dependents, r.dependencies)
    {
      hide IndexExact, IndexUnder, UniqueNames, Adjacency;
      OneGroupMore(groups, i, r.dependents);
      r.AddGroup(groups[i].name, groups[i].dependsOn);
    }
    assert groups[..|groups|] == groups;
  }
}
