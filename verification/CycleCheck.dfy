/** The validator's depth-first cycle search. */
module CycleCheck {
  import opened Common
  import opened Graph

  class CycleSearch {
    const deps: Deps
    var visiting: set<string>
    var visited: set<string>
    var path: seq<string>
    ghost var finished: seq<string>  // `visited`, in the order the nodes were finished

    /** `path` is the walk under exploration and `visiting` its nodes;
        everything finished has only finished dependencies. */
    ghost predicate Valid()
      reads this
    {
      visiting == Elems(path) && visited == Elems(finished) && DfsInv(deps, path, finished)
    }

    constructor (deps: Deps)
      ensures Valid() && this.deps == deps && path == [] && visited == {}
    {
      this.deps := deps;
      visiting, visited, path, finished := {}, {}, [], [];
    }

    method Enter(node: string)
      requires Valid() && node in Names(deps) && node !in visiting && node !in visited
      requires path != [] ==> Edge(deps, path[|path| - 1], node)
      modifies this`path, this`visiting
      ensures Valid() && path == old(path) + [node]
      ensures |Names(deps) - visiting| < |Names(deps) - old(visiting)|
    {
      hide DfsInv, Elems, Names, Edge;
      InElems(path, node);
      InElems(finished, node);
      DfsEnter(deps, path, finished, node);
      visiting := visiting + {node};
      path := path + [node];
    }

    method Leave(node: string, ghost outer: seq<string>)
      requires Valid() && path == outer + [node]
      requires node in deps ==> forall i :: 0 <= i < |deps[node]| ==> deps[node][i] in finished
      modifies this
      ensures Valid() && path == outer && visited == old(visited) + {node}
    {
      hide DfsInv, Elems, Names, Edge;
      PopLast(outer, node);
      DfsFinish(deps, outer, finished, node);
      path := path[..|path| - 1];
      visiting := visiting - {node};
      visited := visited + {node};
      finished := finished + [node];
    }

    method DfsCycle(node: string) returns (cycle: Option<seq<string>>)
      requires Valid() && node in Names(deps)
      requires path != [] ==> Edge(deps, path[|path| - 1], node)
      modifies this
      ensures cycle.Some? ==> IsSimpleCycle(deps, cycle.value)
      ensures cycle.None? ==> Valid() && path == old(path) && old(visited) <= visited && node in visited
      decreases |Names(deps) - visiting|
    {
      hide DfsInv, IsSimpleCycle, Elems, Names, Edge;
      InElems(path, node);
      if node in visiting {
        DfsClosesCycle(deps, path, finished, node);
        path := path + [node];
        return Some(path[IndexOf(path, node)..]);
      }
      InElems(finished, node);
      if node in visited {
        return None;
      }
      Enter(node);
      if node in deps {
        var neighbors := deps[node];
        for i := 0 to |neighbors|
          invariant Valid() && path == old(path) + [node] && old(visited) <= visited
          invariant forall j :: 0 <= j < i ==> neighbors[j] in finished
        {
          NeighborEdge(deps, node, i);
          ghost var sofar := finished;
          var found := DfsCycle(neighbors[i]);
          if found.Some? {
            return found;
          }
          ElemsSubset(sofar, finished);
          InElems(finished, neighbors[i]);
        }
      }
      Leave(node, old(path));
      return None;
    }
  }

  /** None exactly when the configuration has no dependency cycle; otherwise a closed
      walk of dependency edges that repeats no node but its end. */
  method DetectCycle(groups: seq<Group>) returns (cycle: Option<seq<string>>)
    ensures cycle.None? <==> Acyclic(Adjacency(groups))
    ensures cycle.Some? ==> IsSimpleCycle(Adjacency(groups), cycle.value)
  {
    var deps := Adjacency(groups);
    var search := new CycleSearch(deps);
    for i := 0 to |groups|
      invariant search.Valid() && search.deps == deps && search.path == []
      invariant forall j :: 0 <= j < i ==> groups[j].name in search.visited
    {
      if groups[i].name !in search.visited {
        cycle := search.DfsCycle(groups[i].name);
        if cycle.Some? {
          return;
        }
      }
    }
    OrderedIsAcyclic(deps, search.finished);
    return None;
  }
}
