/** Of the groups affected by a file change only the roots are run; the rest follow them. */
module RootFilter {
  import opened Common
  import opened Graph

  predicate HasAffectedDependency(affected: set<string>, deps: Deps, g: string) {
    g in deps && exists d :: d in deps[g] && d in affected
  }

  /** The affected groups none of whose own dependencies are affected, in their order. */
  function KeepRoots(groups: seq<string>, affected: set<string>, deps: Deps): (roots: seq<string>)
    ensures |roots| <= |groups| && forall g :: g in roots <==> g in groups && !HasAffectedDependency(affected, deps, g)
  {
    if groups == [] then []
    else if HasAffectedDependency(affected, deps, groups[0]) then KeepRoots(groups[1..], affected, deps)
    else [groups[0]] + KeepRoots(groups[1..], affected, deps)
  }

  /** Order and repetition are kept: the roots of a list are those of its parts, in turn. */
  lemma {:induction false} KeepRootsConcat(a: seq<string>, b: seq<string>, affected: set<string>, deps: Deps)
    ensures KeepRoots(a + b, affected, deps) == KeepRoots(a, affected, deps) + KeepRoots(b, affected, deps)
  {
    hide HasAffectedDependency;
    if a == [] {
      assert a + b == b;
    } else {
      assert (a + b)[1..] == a[1..] + b;
      KeepRootsConcat(a[1..], b, affected, deps);
    }
  }

  function FilterAffectedToRoots(affected: seq<string>, deps: Deps): seq<string> {
    KeepRoots(affected, Elems(affected), deps)
  }

  /** `part` is what `all` has at the positions `at`, in their order. */
  ghost predicate At(part: seq<string>, all: seq<string>, at: seq<nat>) {
    && |at| == |part| && (forall i, j :: 0 <= i < j < |at| ==> at[i] < at[j])
    && forall i :: 0 <= i < |at| ==> at[i] < |all| && part[i] == all[at[i]]
  }

  lemma AtMore(part: seq<string>, all: seq<string>, at: seq<nat>, g: string)
    requires At(part, all, at)
    ensures At(part, all + [g], at) && At(part + [g], all + [g], at + [|all|]) && |all| !in at
  {
  }

  /** The roots are the affected groups without an affected dependency, each as often as it was
      listed, in the order of the list: `at` says where each was. */
  lemma RootPositions(affected: seq<string>, deps: Deps) returns (at: seq<nat>)
    ensures At(FilterAffectedToRoots(affected, deps), affected, at)
    ensures forall k: nat :: k < |affected| ==>
              (k in at <==> !(affected[k] in deps && exists d :: d in deps[affected[k]] && d in affected))
  {
    at := KeptPositions(affected, Elems(affected), deps);
    hide At;
    forall k: nat | k < |affected|
      ensures k in at <==> !(affected[k] in deps && exists d :: d in deps[affected[k]] && d in affected)
    {
      assert k in at <==> !HasAffectedDependency(Elems(affected), deps, affected[k]);
    }
  }

  lemma {:induction false} KeptPositions(groups: seq<string>, affected: set<string>, deps: Deps) returns (at: seq<nat>)
    ensures At(KeepRoots(groups, affected, deps), groups, at)
    ensures forall k: nat :: k < |groups| ==> (k in at <==> !HasAffectedDependency(affected, deps, groups[k]))
  {
    hide HasAffectedDependency;
    if groups == [] {
      at := [];
    } else {
      var n := |groups| - 1;
      var init, g := groups[..n], groups[n];
      at := KeptPositions(init, affected, deps);
      assert groups == init + [g];
      KeepRootsConcat(init, [g], affected, deps);
      KeepRootsOfOne(g, affected, deps);
      AtMore(KeepRoots(init, affected, deps), init, at, g);
      hide KeepRoots, At;
      assert KeepRoots(init, affected, deps) + [] == KeepRoots(init, affected, deps);
      PositionsMore(init, affected, deps, g, at);
      if !HasAffectedDependency(affected, deps, g) {
        at := at + [n];
      }
    }
  }

  lemma PositionsMore(groups: seq<string>, affected: set<string>, deps: Deps, g: string, at: seq<nat>)
    requires forall k: nat :: k < |groups| ==> (k in at <==> !HasAffectedDependency(affected, deps, groups[k]))
    requires |groups| !in at
    ensures var more := if HasAffectedDependency(affected, deps, g) then at else at + [|groups|];
            forall k: nat :: k <= |groups| ==>
              (k in more <==> !HasAffectedDependency(affected, deps, (groups + [g])[k]))
  {
    hide HasAffectedDependency;
  }

  lemma KeepRootsOfOne(g: string, affected: set<string>, deps: Deps)
    ensures KeepRoots([g], affected, deps) == if HasAffectedDependency(affected, deps, g) then [] else [g]
  {
  }

  /** `p` is a walk along dependencies from `g` to a root, all of it affected. */
  ghost predicate LeadsToRoot(affected: seq<string>, deps: Deps, g: string, p: seq<string>) {
    && IsWalk(deps, p) && p[0] == g && p[|p| - 1] in FilterAffectedToRoots(affected, deps)
    && forall i :: 0 <= i < |p| ==> p[i] in affected
  }

  /** No root depends on an affected group. */
  lemma RootsAreIndependent(affected: seq<string>, deps: Deps, g: string, d: string)
    requires g in FilterAffectedToRoots(affected, deps) && Edge(deps, g, d)
    ensures d !in affected
  {
  }

  /** Nothing is forgotten: in an acyclic configuration every affected group is a root or
      depends on one through affected groups. */
  lemma {:induction false} RootsCover(affected: seq<string>, deps: Deps, order: seq<string>, g: string)
    returns (p: seq<string>)
    requires DepsFirst(deps, order) && deps.Keys <= Elems(order) && g in affected
    ensures LeadsToRoot(affected, deps, g, p)
    decreases if g in order then IndexOf(order, g) + 1 else 0
  {
    if HasAffectedDependency(Elems(affected), deps, g) {
      var d :| d in deps[g] && d in Elems(affected);
      assert g in Elems(order) && Edge(deps, order[IndexOf(order, g)], d);
      IndexOfInPrefix(order, IndexOf(order, g), d);
      var q := RootsCover(affected, deps, order, d);
      hide LeadsToRoot, DepsFirst;
      LeadsOn(affected, deps, g, d, q);
      p := [g] + q;
    } else {
      p := [g];
    }
  }

  lemma LeadsOn(affected: seq<string>, deps: Deps, g: string, d: string, p: seq<string>)
    requires LeadsToRoot(affected, deps, d, p) && Edge(deps, g, d) && g in affected
    ensures LeadsToRoot(affected, deps, g, [g] + p)
  {
    WalkPrepend(deps, g, p);
  }

  /** On a cycle of affected groups nothing is kept, so acyclicity is needed. */
  lemma CycleHasNoRoots(affected: seq<string>, deps: Deps)
    requires forall g :: g in affected ==> exists d :: Edge(deps, g, d) && d in affected
    ensures FilterAffectedToRoots(affected, deps) == []
  {
    forall g | g in affected ensures HasAffectedDependency(Elems(affected), deps, g) {
      var d :| Edge(deps, g, d) && d in affected;
    }
    NoneKept(affected, Elems(affected), deps);
  }

  lemma {:induction false} NoneKept(groups: seq<string>, affected: set<string>, deps: Deps)
    requires forall g :: g in groups ==> HasAffectedDependency(affected, deps, g)
    ensures KeepRoots(groups, affected, deps) == []
  {
    if groups == [] {
    } else {
      NoneKept(groups[1..], affected, deps);
    }
  }
}
