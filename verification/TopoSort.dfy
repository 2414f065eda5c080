/** The engine's topological sort, and its agreement with the validator's cycle search. */
module TopoSort {
  import opened Common
  import opened Graph
  import CycleCheck

  /** `HashMap<&str, bool>` read with a default of false. */
  predicate Marked(marks: map<string, bool>, name: string) {
    name in marks && marks[name]
  }

  function MarkedSet(marks: map<string, bool>): set<string> {
    set n | n in marks && marks[n]
  }

  lemma MarkedIn(marks: map<string, bool>, s: seq<string>, name: string)
    requires MarkedSet(marks) == Elems(s)
    ensures Marked(marks, name) <==> name in s
  {
    assert name in MarkedSet(marks) <==> name in Elems(s);
  }

  lemma MarkSets(marks: map<string, bool>, name: string)
    ensures MarkedSet(marks[name := true]) == MarkedSet(marks) + {name}
    ensures MarkedSet(marks[name := false]) == MarkedSet(marks) - {name}
  {
  }

  lemma CycleThrough(deps: Deps, stack: seq<string>, result: seq<string>, name: string)
    requires DfsInv(deps, stack, result) && name in stack && Edge(deps, stack[|stack| - 1], name)
    ensures OnCycle(deps, name)
  {
    DfsClosesCycle(deps, stack, result, name);
  }

  class Sorter {
    const groupMap: Deps
    var visited: map<string, bool>
    var tempMark: map<string, bool>
    var result: seq<string>
    ghost var stack: seq<string>  // the calls of Visit in progress

    ghost predicate Valid()
      reads this
    {
      && MarkedSet(visited) == Elems(result) && MarkedSet(tempMark) == Elems(stack)
      && DfsInv(groupMap, stack, result)
    }

    constructor (groupMap: Deps)
      ensures Valid() && this.groupMap == groupMap && stack == [] && result == []
    {
      this.groupMap := groupMap;
      visited, tempMark, result, stack := map[], map[], [], [];
    }

    method Enter(name: string)
      requires Valid() && name in Names(groupMap) && name !in stack && name !in result
      requires stack != [] ==> Edge(groupMap, stack[|stack| - 1], name)
      modifies this`tempMark, this`stack
      ensures Valid() && stack == old(stack) + [name]
      ensures |Names(groupMap) - Elems(stack)| < |Names(groupMap) - Elems(old(stack))|
    {
      hide DfsInv, Elems, Names, Edge, MarkedSet;
      DfsEnter(groupMap, stack, result, name);
      MarkSets(tempMark, name);
      tempMark := tempMark[name := true];
      stack := stack + [name];
    }

    method Leave(name: string, ghost outer: seq<string>)
      requires Valid() && stack == outer + [name]
      requires name in groupMap ==> forall i :: 0 <= i < |groupMap[name]| ==> groupMap[name][i] in result
      modifies this
      ensures Valid() && stack == outer && result == old(result) + [name]
      ensures Elems(result) == Elems(old(result)) + {name}
    {
      hide DfsInv, Elems, Names, Edge, MarkedSet;
      PopLast(outer, name);
      DfsFinish(groupMap, outer, result, name);
      MarkSets(tempMark, name);
      MarkSets(visited, name);
      tempMark := tempMark[name := false];
      visited := visited[name := true];
      result := result + [name];
      stack := stack[..|stack| - 1];
    }

    method Visit(name: string) returns (r: Result<(), string>)
      requires Valid() && name in Names(groupMap)
      requires stack != [] ==> Edge(groupMap, stack[|stack| - 1], name)
      modifies this
      ensures r.Ok? ==> Valid() && stack == old(stack) && Elems(old(result)) <= Elems(result) && name in result
      ensures r.Err? ==> OnCycle(groupMap, r.error)
      decreases |Names(groupMap) - Elems(stack)|
    {
      hide DfsInv, DepsFirst, IsWalk, OnCycle, IsCycle, NoDup, Elems, Names, Edge, MarkedSet, Marked;
      MarkedIn(visited, result, name);
      MarkedIn(tempMark, stack, name);
      if Marked(visited, name) {
        return Ok(());
      }
      if Marked(tempMark, name) {
        CycleThrough(groupMap, stack, result, name);
        return Err(name);
      }
      Enter(name);
      if name in groupMap {
        var deps := groupMap[name];
        for i := 0 to |deps|
          invariant Valid() && stack == old(stack) + [name] && Elems(old(result)) <= Elems(result)
          invariant forall j :: 0 <= j < i ==> deps[j] in result
        {
          NeighborEdge(groupMap, name, i);
          ghost var sofar := result;
          r := Visit(deps[i]);
          if r.Err? {
            return;
          }
          ElemsSubset(sofar, result);
        }
      }
      Leave(name, old(stack));
      return Ok(());
    }
  }

  /** Fails exactly on a cyclic graph, naming a group on a cycle. An order lists each group
      and each named dependency once, dependencies first. */
  method TopologicalSort(groups: seq<Group>) returns (r: Result<seq<string>, string>)
    ensures r.Ok? <==> Acyclic(Adjacency(groups))
    ensures r.Ok? ==> NoDup(r.value) && Elems(r.value) == Names(Adjacency(groups)) &&
                      DepsFirst(Adjacency(groups), r.value)
    ensures r.Err? ==> OnCycle(Adjacency(groups), r.error)
  {
    var deps := Adjacency(groups);
    var sorter := new Sorter(deps);
    for i := 0 to |groups|
      invariant sorter.Valid() && sorter.groupMap == deps && sorter.stack == []
      invariant forall j :: 0 <= j < i ==> groups[j].name in sorter.result
    {
      ghost var sofar := sorter.result;
      var v := sorter.Visit(groups[i].name);
      if v.Err? {
        return Err(v.error);
      }
      assert forall j :: 0 <= j < i ==> groups[j].name in Elems(sofar);
    }
    OrderedIsAcyclic(deps, sorter.result);
    NamesInOrder(deps, sorter.result);
    return Ok(sorter.result);
  }

  datatype ReloadOutcome =
    | InvalidConfig(cycle: seq<string>)    // refused by the validator, nothing stopped
    | DependencyError(name: string)        // refused after services were stopped
    | Ordered(order: seq<string>)

  /** A reload: the parsed configuration is validated, services are stopped, and only then
      is the execution order computed. The failing branch in between is never taken. */
  method ReloadOrder(groups: seq<Group>) returns (r: ReloadOutcome)
    ensures !r.DependencyError?
    ensures r.Ordered? <==> Acyclic(Adjacency(groups))
    ensures r.Ordered? ==> NoDup(r.order) && Elems(r.order) == Names(Adjacency(groups)) &&
                           DepsFirst(Adjacency(groups), r.order)
  {
    var cycle := CycleCheck.DetectCycle(groups);
    if cycle.Some? {
      return InvalidConfig(cycle.value);
    }
    var sorted := TopologicalSort(groups);
    match sorted
    case Ok(order) => return Ordered(order);
    case Err(name) => return DependencyError(name);
  }
}
