/** Dependency graphs of group names: walks, cycles and dependency orders. */
module Graph {
  import opened Common

  /** The configured groups, each with the names it depends on. */
  datatype Group = Group(name: string, dependsOn: seq<string>)

  type Deps = map<string, seq<string>>

  /** Collecting pairs into a hash map: of two groups with one name the later wins. */
  function Adjacency(groups: seq<Group>): (deps: Deps)
    ensures deps.Keys == set i | 0 <= i < |groups| :: groups[i].name
  {
    if groups == [] then map[]
    else
      var last := |groups| - 1;
      Adjacency(groups[..last])[groups[last].name := groups[last].dependsOn]
  }

  /** A group keeps all its dependencies, in their order. */
  lemma {:induction false} AdjacencyAt(groups: seq<Group>, i: nat)
    requires i < |groups| && forall j :: i < j < |groups| ==> groups[j].name != groups[i].name
    ensures groups[i].name in Adjacency(groups) && Adjacency(groups)[groups[i].name] == groups[i].dependsOn
  {
    var last := |groups| - 1;
    if i == last {
    } else {
      AdjacencyAt(groups[..last], i);
    }
  }

  predicate Edge(deps: Deps, a: string, b: string) {
    a in deps && b in deps[a]
  }

  /** Every name the graph mentions: its groups and their dependencies. */
  function Names(deps: Deps): set<string> {
    deps.Keys + set k, d | k in deps && d in deps[k] :: d
  }

  predicate EdgeAt(deps: Deps, p: seq<string>, i: nat) {
    i + 1 < |p| && Edge(deps, p[i], p[i + 1])
  }

  ghost predicate IsWalk(deps: Deps, p: seq<string>) {
    |p| >= 1 && forall i: nat :: i < |p| - 1 ==> EdgeAt(deps, p, i)
  }

  ghost predicate IsCycle(deps: Deps, p: seq<string>) {
    |p| >= 2 && IsWalk(deps, p) && p[0] == p[|p| - 1]
  }

  /** A cycle that repeats no node but the one that closes it. */
  ghost predicate IsSimpleCycle(deps: Deps, p: seq<string>) {
    IsCycle(deps, p) && NoDup(p[1..])
  }

  ghost predicate Acyclic(deps: Deps) {
    forall p :: !IsCycle(deps, p)
  }

  ghost predicate OnCycle(deps: Deps, name: string) {
    exists p :: IsCycle(deps, p) && p[0] == name
  }

  /** Whatever a listed name depends on is listed before it. */
  ghost predicate DepsFirst(deps: Deps, order: seq<string>) {
    forall i, d :: 0 <= i < |order| && Edge(deps, order[i], d) ==> d in order[..i]
  }

  lemma NeighborEdge(deps: Deps, a: string, i: nat)
    requires a in deps && i < |deps[a]|
    ensures Edge(deps, a, deps[a][i]) && deps[a][i] in Names(deps)
  {
  }

  lemma WalkExtends(deps: Deps, p: seq<string>, b: string)
    requires p == [] || (IsWalk(deps, p) && Edge(deps, p[|p| - 1], b))
    ensures IsWalk(deps, p + [b])
  {
    forall i: nat | i < |p| ensures EdgeAt(deps, p + [b], i) {
      assert i < |p| - 1 ==> EdgeAt(deps, p, i);
    }
  }

  lemma WalkPrepend(deps: Deps, a: string, p: seq<string>)
    requires IsWalk(deps, p) && Edge(deps, a, p[0])
    ensures IsWalk(deps, [a] + p)
  {
    forall i: nat | i < |p| ensures EdgeAt(deps, [a] + p, i) {
      assert i > 0 ==> EdgeAt(deps, p, i - 1);
    }
  }

  lemma WalkTail(deps: Deps, p: seq<string>, k: nat)
    requires IsWalk(deps, p) && k < |p|
    ensures IsWalk(deps, p[k..])
  {
    forall i: nat | i < |p| - k - 1 ensures EdgeAt(deps, p[k..], i) {
      assert EdgeAt(deps, p, k + i);
    }
  }

  /** Along a walk the position in a dependency order strictly falls. */
  lemma {:induction false} WalkDescends(deps: Deps, order: seq<string>, p: seq<string>)
    requires DepsFirst(deps, order) && IsWalk(deps, p) && |p| >= 2 && p[0] in order
    ensures p[|p| - 1] in order[..IndexOf(order, p[0])]
  {
    var i := IndexOf(order, p[0]);
    assert EdgeAt(deps, p, 0);
    assert p[1] in order[..i];
    if |p| > 2 {
      var k := IndexOf(order, p[1]);
      IndexOfInPrefix(order, i, p[1]);
      WalkTail(deps, p, 1);
      WalkDescends(deps, order, p[1..]);
      assert order[..i][..k] == order[..k];
    }
  }

  lemma OrderedIsAcyclic(deps: Deps, order: seq<string>)
    requires DepsFirst(deps, order) && deps.Keys <= Elems(order)
    ensures Acyclic(deps)
  {
    forall p ensures !IsCycle(deps, p) {
      if IsCycle(deps, p) {
        assert EdgeAt(deps, p, 0);
        WalkDescends(deps, order, p);
      }
    }
  }

  /** What a depth-first search keeps: `path` is the walk under exploration, `finished`
      the completed nodes, and the dependencies of a completed node are complete. */
  ghost predicate DfsInv(deps: Deps, path: seq<string>, finished: seq<string>) {
    && NoDup(path) && (path != [] ==> IsWalk(deps, path)) && Elems(path) <= Names(deps)
    && NoDup(finished) && Elems(finished) <= Names(deps) && DepsFirst(deps, finished)
    && Elems(path) !! Elems(finished)
  }

  lemma DfsEnter(deps: Deps, path: seq<string>, finished: seq<string>, node: string)
    requires DfsInv(deps, path, finished)
    requires node in Names(deps) && node !in path && node !in finished
    requires path != [] ==> Edge(deps, path[|path| - 1], node)
    ensures DfsInv(deps, path + [node], finished)
    ensures |Names(deps) - Elems(path + [node])| < |Names(deps) - Elems(path)|
    ensures Elems(path + [node]) == Elems(path) + {node}
  {
    WalkExtends(deps, path, node);
    ElemsAppend(path, node);
    assert Names(deps) - Elems(path + [node]) == (Names(deps) - Elems(path)) - {node};
  }

  lemma DfsFinish(deps: Deps, path: seq<string>, finished: seq<string>, node: string)
    requires DfsInv(deps, path + [node], finished)
    requires node in deps ==> forall i :: 0 <= i < |deps[node]| ==> deps[node][i] in finished
    ensures DfsInv(deps, path, finished + [node])
    ensures Elems(path + [node]) - {node} == Elems(path) && Elems(finished + [node]) == Elems(finished) + {node}
  {
    ElemsAppend(path, node);
    ElemsAppend(finished, node);
    var p := path + [node];
    assert node in Elems(p);
    assert forall i :: 0 <= i < |path| ==> path[i] == p[i];
    assert node !in path by {
      assert p[|path|] == node;
    }
    forall i: nat | i < |path| - 1 ensures EdgeAt(deps, path, i) {
      assert EdgeAt(deps, p, i);
    }
    DepsFirstAppend(deps, finished, node);
  }

  lemma DepsFirstAppend(deps: Deps, order: seq<string>, node: string)
    requires DepsFirst(deps, order) && forall d :: Edge(deps, node, d) ==> d in order
    ensures DepsFirst(deps, order + [node])
  {
    var o := order + [node];
    forall i, d | 0 <= i < |o| && Edge(deps, o[i], d) ensures d in o[..i] {
      if i < |order| {
        assert o[..i] == order[..i] && order[i] == o[i];
      } else {
        assert o[..i] == order;
      }
    }
  }

  /** Reaching a node of the walk under exploration closes a cycle. */
  lemma DfsClosesCycle(deps: Deps, path: seq<string>, finished: seq<string>, node: string)
    requires DfsInv(deps, path, finished) && node in path && Edge(deps, path[|path| - 1], node)
    ensures var p := path + [node];
            var cycle := p[IndexOf(p, node)..];
            IsSimpleCycle(deps, cycle) && cycle[0] == node
  {
    WalkExtends(deps, path, node);
    var p := path + [node];
    var start := IndexOf(p, node);
    assert start < |path| by {
      assert p[..|path|] == path;
      IndexOfInPrefix(p, |path|, node);
    }
    var cycle := p[start..];
    WalkTail(deps, p, start);
    forall i, j | 0 <= i < j < |cycle[1..]| ensures cycle[1..][i] != cycle[1..][j] {
      assert cycle[1..][i] == path[start + 1 + i];
      if j == |cycle[1..]| - 1 {
        assert cycle[1..][j] == path[start];
      } else {
        assert cycle[1..][j] == path[start + 1 + j];
      }
    }
  }

  lemma NamesInOrder(deps: Deps, order: seq<string>)
    requires DepsFirst(deps, order) && deps.Keys <= Elems(order)
    ensures Names(deps) <= Elems(order)
  {
    forall n | n in Names(deps) ensures n in order {
      if n !in deps {
        var k :| k in deps && n in deps[k];
        var i :| 0 <= i < |order| && order[i] == k;
        assert Edge(deps, order[i], n);
      }
    }
  }
}
