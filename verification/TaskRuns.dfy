/** Running tasks at most once at a time: a request for a task that is already running is
    remembered and served by one more execution when the running one completes. */
module TaskRuns {
  import opened Common
  import opened Strings

  /** The tasks of each group, and those whose command expands when it is run again. */
  datatype Config = Config(tasks: map<string, seq<string>>, expands: set<(string, string)>)

  function TaskId(group: string, task: string): string {
    Join(group, ':', task)
  }

  /** The task a pending id is run again as: the id is split, and both halves looked up. */
  function RerunTarget(cfg: Config, id: string): (r: Option<(string, string)>)
    ensures r.Some? ==> TaskId(r.value.0, r.value.1) == id
  {
    var split := SplitOnce(id, ':');
    if split.None? then None
    else
      var (group, task) := split.value;
      if Runnable(cfg, group, task) then split else None
  }

  predicate Runnable(cfg: Config, group: string, task: string) {
    group in cfg.tasks && task in cfg.tasks[group] && (group, task) in cfg.expands
  }

  /** An id leads to a task exactly when it is that task's id, its group has no colon, and the
      task can be run. */
  lemma RerunTargetIs(cfg: Config, id: string, group: string, task: string)
    ensures RerunTarget(cfg, id) == Some((group, task)) <==>
            id == TaskId(group, task) && ':' !in group && Runnable(cfg, group, task)
  {
    SplitJoin(group, ':', task);
  }

  datatype Event =
    | Requested(group: string, task: string)
    | Started(group: string, task: string)
    | Finished(id: string)

  /** `inFlight` counts the executions whose completion has not been processed. */
  datatype State = State(running: set<string>, pending: set<string>, inFlight: multiset<string>, log: seq<Event>)

  /** What the daemon is asked to do, and what the completion channel delivers. */
  datatype Op = Request(group: string, task: string) | Completion(id: string)

  const IDLE := State({}, {}, multiset{}, [])

  function Spawn(s: State, group: string, task: string): State {
    var id := TaskId(group, task);
    if id in s.running then s.(pending := s.pending + {id})
    else s.(running := s.running + {id}, inFlight := s.inFlight + multiset{id}, log := s.log + [Started(group, task)])
  }

  function Ended(s: State, id: string): State {
    State(s.running - {id}, s.pending, s.inFlight - multiset{id}, s.log + [Finished(id)])
  }

  function Step(cfg: Config, s: State, op: Op): State {
    match op
    case Request(group, task) => Spawn(s.(log := s.log + [Requested(group, task)]), group, task)
    case Completion(id) =>
      if id !in s.pending then Ended(s, id)
      else
        var cleared := Ended(s, id).(pending := s.pending - {id});
        match RerunTarget(cfg, id)
        case Some((group, task)) => Spawn(cleared, group, task)
        case None => cleared
  }

  /** A request names a configured task; a completion comes from an execution in flight. */
  predicate Allowed(cfg: Config, s: State, op: Op) {
    match op
    case Request(group, task) => group in cfg.tasks && task in cfg.tasks[group]
    case Completion(id) => id in s.inFlight
  }

  function Run(cfg: Config, ops: seq<Op>): State {
    if ops == [] then IDLE else Step(cfg, Run(cfg, ops[..|ops| - 1]), ops[|ops| - 1])
  }

  ghost predicate Legal(cfg: Config, ops: seq<Op>) {
    ops != [] ==> Legal(cfg, ops[..|ops| - 1]) && Allowed(cfg, Run(cfg, ops[..|ops| - 1]), ops[|ops| - 1])
  }

  /** A start after position `i` of the log. */
  predicate StartedSince(log: seq<Event>, i: nat, group: string, task: string) {
    exists j :: i < j < |log| && log[j] == Started(group, task)
  }

  /** A task whose id, when pending, leads back to it. */
  predicate Returns(cfg: Config, group: string, task: string) {
    RerunTarget(cfg, TaskId(group, task)) == Some((group, task))
  }

  ghost predicate Inv(cfg: Config, s: State) {
    && s.pending <= s.running
    && (forall id :: s.inFlight[id] == if id in s.running then 1 else 0)
    && (forall i: nat :: ServedAt(cfg, s, i))
  }

  /** If the log records at `i` a request for a task that returns, the task has been
      started since or is pending. */
  ghost predicate ServedAt(cfg: Config, s: State, i: nat) {
    i < |s.log| && s.log[i].Requested? && Returns(cfg, s.log[i].group, s.log[i].task) ==>
      TaskId(s.log[i].group, s.log[i].task) in s.pending || StartedSince(s.log, i, s.log[i].group, s.log[i].task)
  }

  /** One more event in the log takes no service back. */
  lemma ServedStays(cfg: Config, s: State, t: State, e: Event, i: nat)
    requires ServedAt(cfg, s, i) && i < |s.log| && t.log == s.log + [e] && s.pending <= t.pending
    ensures ServedAt(cfg, t, i)
  {
    hide RerunTarget;
    var r := s.log[i];
    if r.Requested? && StartedSince(s.log, i, r.group, r.task) {
      var j :| i < j < |s.log| && s.log[j] == Started(r.group, r.task);
      assert t.log[j] == s.log[j];
    }
  }

  lemma RequestInv(cfg: Config, s: State, group: string, task: string)
    requires Inv(cfg, s)
    ensures Inv(cfg, Step(cfg, s, Request(group, task)))
  {
    hide Returns, StartedSince;
    var r, id := Requested(group, task), TaskId(group, task);
    var asked, t := s.(log := s.log + [r]), Step(cfg, s, Request(group, task));
    assert t == Spawn(asked, group, task);
    forall i: nat ensures ServedAt(cfg, t, i) {
      if i < |s.log| {
        assert ServedAt(cfg, s, i);
        ServedStays(cfg, s, asked, r, i);
        if id in s.running {
          assert t.log == asked.log;
        } else {
          ServedStays(cfg, asked, t, Started(group, task), i);
        }
      } else if i == |s.log| && id !in s.running {
        StartedLast(asked.log, i, group, task);
      }
    }
  }

  lemma StartedLast(log: seq<Event>, i: nat, group: string, task: string)
    requires i < |log|
    ensures StartedSince(log + [Started(group, task)], i, group, task)
  {
    assert (log + [Started(group, task)])[|log|] == Started(group, task);
  }

  lemma CompletionInv(cfg: Config, s: State, id: string)
    requires Inv(cfg, s) && id in s.inFlight
    ensures Inv(cfg, Step(cfg, s, Completion(id)))
  {
    hide StartedSince, RerunTarget, TaskId;
    var done, t := Ended(s, id), Step(cfg, s, Completion(id));
    var target := RerunTarget(cfg, id);
    assert id in s.running;
    forall i: nat ensures ServedAt(cfg, t, i) {
      if i < |s.log| {
        assert ServedAt(cfg, s, i);
        ServedStays(cfg, s, done, Finished(id), i);
        if id in s.pending && target.Some? {
          var restarted := t.(pending := s.pending);
          ServedStays(cfg, done, restarted, Started(target.value.0, target.value.1), i);
          StartedLast(done.log, i, target.value.0, target.value.1);
        }
      }
    }
  }

  lemma StepInv(cfg: Config, s: State, op: Op)
    requires Inv(cfg, s) && Allowed(cfg, s, op)
    ensures Inv(cfg, Step(cfg, s, op))
  {
    match op
    case Request(group, task) => RequestInv(cfg, s, group, task);
    case Completion(id) => CompletionInv(cfg, s, id);
  }

  /** Over every run: at most one execution of a task id is in flight, only running ids are
      pending, and every request for a task that returns has been served by an execution
      started after it or is still pending. */
  lemma {:induction false} RunInv(cfg: Config, ops: seq<Op>)
    requires Legal(cfg, ops)
    ensures Inv(cfg, Run(cfg, ops))
  {
    if ops == [] {
    } else {
      RunInv(cfg, ops[..|ops| - 1]);
      StepInv(cfg, Run(cfg, ops[..|ops| - 1]), ops[|ops| - 1]);
    }
  }

  /** In every run that has become idle, each request for this task is followed by a start
      of this task. */
  ghost predicate AlwaysServed(cfg: Config, group: string, task: string) {
    forall ops, i: nat :: Legal(cfg, ops) && Run(cfg, ops).running == {} && RequestedAt(cfg, ops, i, group, task) ==>
      StartedSince(Run(cfg, ops).log, i, group, task)
  }

  predicate RequestedAt(cfg: Config, ops: seq<Op>, i: nat, group: string, task: string) {
    i < |Run(cfg, ops).log| && Run(cfg, ops).log[i] == Requested(group, task)
  }

  /** A configured task is always served exactly when its group's name has no colon and its
      command expands. */
  lemma RequestsServed(cfg: Config, group: string, task: string)
    requires group in cfg.tasks && task in cfg.tasks[group]
    ensures AlwaysServed(cfg, group, task) <==> ':' !in group && (group, task) in cfg.expands
  {
    ReturnsWhen(cfg, group, task);
    hide RerunTarget, Returns, Step, StartedSince;
    if Returns(cfg, group, task) {
      forall ops, i: nat | Legal(cfg, ops) && Run(cfg, ops).running == {} && RequestedAt(cfg, ops, i, group, task)
        ensures StartedSince(Run(cfg, ops).log, i, group, task)
      {
        RunInv(cfg, ops);
        assert ServedAt(cfg, Run(cfg, ops), i);
      }
    } else {
      var ops := LosesRequest(cfg, group, task);
    }
  }

  lemma ReturnsWhen(cfg: Config, group: string, task: string)
    requires group in cfg.tasks && task in cfg.tasks[group]
    ensures Returns(cfg, group, task) <==> ':' !in group && (group, task) in cfg.expands
  {
    RerunTargetIs(cfg, TaskId(group, task), group, task);
    hide RerunTarget;
  }

  /** Otherwise the second of two overlapping requests is lost: what its id leads to, if
      anything, is another task. */
  lemma LosesRequest(cfg: Config, group: string, task: string) returns (ops: seq<Op>)
    requires group in cfg.tasks && task in cfg.tasks[group] && !Returns(cfg, group, task)
    ensures Legal(cfg, ops) && Run(cfg, ops).running == {}
    ensures RequestedAt(cfg, ops, 2, group, task) && !StartedSince(Run(cfg, ops).log, 2, group, task)
  {
    hide RerunTarget, TaskId, Run, Legal;
    var r, id := Request(group, task), TaskId(group, task);
    TwoRequests(cfg, group, task);
    RunAppend(cfg, [r, r], Completion(id));
    ops := [r, r] + [Completion(id)];
    var target := RerunTarget(cfg, id);
    if target.Some? {
      RunAppend(cfg, ops, Completion(id));
      ops := ops + [Completion(id)];
    }
  }

  lemma TwoRequests(cfg: Config, group: string, task: string)
    requires group in cfg.tasks && task in cfg.tasks[group]
    ensures var r, id := Request(group, task), TaskId(group, task);
            && Legal(cfg, [r, r])
            && Run(cfg, [r, r]) ==
                 State({id}, {id}, multiset{id}, [Requested(group, task), Started(group, task), Requested(group, task)])
  {
    var r, id := Request(group, task), TaskId(group, task);
    RunAppend(cfg, [], r);
    RunAppend(cfg, [r], r);
    assert [] + [r] == [r] && [r] + [r] == [r, r];
    assert Run(cfg, [r]) == State({id}, {}, multiset{id}, [Requested(group, task), Started(group, task)]);
  }

  lemma RunAppend(cfg: Config, ops: seq<Op>, op: Op)
    ensures Run(cfg, ops + [op]) == Step(cfg, Run(cfg, ops), op)
    ensures Legal(cfg, ops + [op]) <==> Legal(cfg, ops) && Allowed(cfg, Run(cfg, ops), op)
  {
  }

  /** Without new requests the daemon becomes idle after at most one completion for each
      running and each pending task, in whatever order they arrive; exactly one, if every
      pending id leads somewhere. */
  lemma {:induction false} CompletionsDrain(cfg: Config, ops: seq<Op>, more: seq<Op>)
    requires Legal(cfg, ops + more)
    requires forall i :: 0 <= i < |more| ==> more[i].Completion?
    ensures Legal(cfg, ops) && Run(cfg, ops + more).pending <= Run(cfg, ops).pending
    ensures var s, t := Run(cfg, ops), Run(cfg, ops + more);
            && |t.running| + |t.pending| + |more| <= |s.running| + |s.pending|
            && ((forall id :: id in s.pending ==> RerunTarget(cfg, id).Some?) ==>
                  |t.running| + |t.pending| + |more| == |s.running| + |s.pending|)
  {
    hide RerunTarget, Step, Inv, Allowed;
    if more == [] {
      assert ops + more == ops;
    } else {
      var shorter, op := more[..|more| - 1], more[|more| - 1];
      assert (ops + more)[..|ops + more| - 1] == ops + shorter;
      CompletionsDrain(cfg, ops, shorter);
      RunInv(cfg, ops + shorter);
      assert Allowed(cfg, Run(cfg, ops + shorter), op);
      CompletionShrinks(cfg, Run(cfg, ops + shorter), op.id);
    }
  }

  lemma CompletionShrinks(cfg: Config, s: State, id: string)
    requires Inv(cfg, s) && Allowed(cfg, s, Completion(id))
    ensures var t := Step(cfg, s, Completion(id));
            && t.pending == s.pending - {id}
            && |t.running| + |t.pending| ==
               |s.running| + |s.pending| - if id in s.pending && RerunTarget(cfg, id).None? then 2 else 1
  {
    hide RerunTarget, TaskId, ServedAt;
    assert id in s.running;
    Without(s.running, id);
    Without(s.pending, id);
    if id in s.pending && RerunTarget(cfg, id).Some? {
      assert Step(cfg, s, Completion(id)).running == s.running;
    }
  }

  lemma Without(s: set<string>, x: string)
    ensures |s - {x}| == if x in s then |s| - 1 else |s|
    ensures x in s ==> s - {x} + {x} == s
    ensures x !in s ==> s - {x} == s
  {
  }

  // -------------------------------------------------------------------------
  // Executions answer requests

  function CountOf(e: Event, start: bool, id: string): nat {
    match e
    case Requested(group, task) => if !start && TaskId(group, task) == id then 1 else 0
    case Started(group, task) => if start && TaskId(group, task) == id then 1 else 0
    case Finished(_) => 0
  }

  function Starts(log: seq<Event>, id: string): nat {
    if log == [] then 0 else Starts(log[..|log| - 1], id) + CountOf(log[|log| - 1], true, id)
  }

  function Requests(log: seq<Event>, id: string): nat {
    if log == [] then 0 else Requests(log[..|log| - 1], id) + CountOf(log[|log| - 1], false, id)
  }

  lemma LogMore(log: seq<Event>, e: Event, id: string)
    ensures Starts(log + [e], id) == Starts(log, id) + CountOf(e, true, id)
    ensures Requests(log + [e], id) == Requests(log, id) + CountOf(e, false, id)
    ensures multiset(log + [e]) == multiset(log) + multiset{e}
  {
  }

  /** Under every id, each execution answers a request of its own, and what was started has
      finished or is in flight. */
  ghost predicate Accounted(s: State, id: string) {
    && Starts(s.log, id) == multiset(s.log)[Finished(id)] + s.inFlight[id]
    && Starts(s.log, id) + (if id in s.pending then 1 else 0) <= Requests(s.log, id)
  }

  lemma SpawnAccounted(s: State, group: string, task: string, other: string)
    requires var id := TaskId(group, task);
             && Starts(s.log, other) == multiset(s.log)[Finished(other)] + s.inFlight[other]
             && Starts(s.log, other) + (if other in s.pending || other == id then 1 else 0) <= Requests(s.log, other)
             && (id !in s.running ==> id !in s.pending)
    ensures Accounted(Spawn(s, group, task), other)
  {
    hide TaskId;
    LogMore(s.log, Started(group, task), other);
  }

  lemma CompletedAlone(cfg: Config, s: State, id: string)
    requires id !in s.pending
    ensures Step(cfg, s, Completion(id)) == Ended(s, id)
  {
  }

  lemma StepAccounted(cfg: Config, s: State, op: Op, other: string)
    requires Inv(cfg, s) && Allowed(cfg, s, op) && Accounted(s, other)
    ensures Accounted(Step(cfg, s, op), other)
  {
    hide Starts, Requests, TaskId, RerunTarget;
    match op
    case Request(group, task) =>
      LogMore(s.log, Requested(group, task), other);
      SpawnAccounted(s.(log := s.log + [Requested(group, task)]), group, task, other);
    case Completion(id) =>
      var done := Ended(s, id);
      LogMore(s.log, Finished(id), other);
      assert id in s.running;
      if id in s.pending && RerunTarget(cfg, id).Some? {
        var (group, task) := RerunTarget(cfg, id).value;
        SpawnAccounted(done.(pending := done.pending - {id}), group, task, other);
      }
  }

  lemma {:induction false} RunAccounted(cfg: Config, ops: seq<Op>, id: string)
    requires Legal(cfg, ops)
    ensures Accounted(Run(cfg, ops), id)
  {
    if ops == [] {
    } else {
      RunAccounted(cfg, ops[..|ops| - 1], id);
      RunInv(cfg, ops[..|ops| - 1]);
      StepAccounted(cfg, Run(cfg, ops[..|ops| - 1]), ops[|ops| - 1], id);
    }
  }

  /** The engine's test whether a group still has tasks running is a prefix test on ids.
      For groups without colons it sees the group's own tasks and no others. */
  lemma PrefixTestExact(group: string, owner: string, task: string)
    requires ':' !in group && ':' !in owner
    ensures group + ":" <= TaskId(owner, task) <==> group == owner
  {
    var id := TaskId(owner, task);
    if group + ":" <= id {
      var rest := id[|group| + 1..];
      assert id == TaskId(group, rest);
      JoinUnique(group, rest, owner, task, ':');
    }
  }

  // -------------------------------------------------------------------------

  class TaskRunner {
    const cfg: Config
    var running: set<string>
    var pending: set<string>
    ghost var inFlight: multiset<string>
    ghost var log: seq<Event>
    ghost var ops: seq<Op>  // what the daemon has been asked and told so far

    ghost function Abs(): State
      reads this
    {
      State(running, pending, inFlight, log)
    }

    /** The fields are those of a legal run, so whatever holds over every run holds here. */
    ghost predicate Valid()
      reads this
    {
      Legal(cfg, ops) && Abs() == Run(cfg, ops)
    }

    constructor (cfg: Config)
      ensures Valid() && this.cfg == cfg && ops == []
    {
      this.cfg := cfg;
      running, pending, inFlight, log, ops := {}, {}, multiset{}, [], [];
    }

    method SpawnTask(group: string, task: string)
      modifies this`running, this`pending, this`inFlight, this`log
      ensures Abs() == Spawn(old(Abs()), group, task)
    {
      var id := TaskId(group, task);
      if id in running {
        pending := pending + {id};
        return;
      }
      running := running + {id};
      inFlight := inFlight + multiset{id};
      log := log + [Started(group, task)];
    }

    method RequestTask(group: string, task: string)
      requires Valid() && group in cfg.tasks && task in cfg.tasks[group]
      modifies this
      ensures Valid() && ops == old(ops) + [Request(group, task)]
    {
      hide Run, Legal;
      RunAppend(cfg, ops, Request(group, task));
      ops := ops + [Request(group, task)];
      log := log + [Requested(group, task)];
      SpawnTask(group, task);
    }

    method ProcessCompletion(id: string)
      requires Valid() && id in inFlight
      modifies this
      ensures Valid() && ops == old(ops) + [Completion(id)]
    {
      hide Run, Legal, Step;
      RunAppend(cfg, ops, Completion(id));
      ops := ops + [Completion(id)];
      EndTask(id);
      if id in pending {
        RerunTask(id);
      } else {
        CompletedAlone(cfg, old(Abs()), id);
      }
    }

    method EndTask(id: string)
      modifies this`running, this`inFlight, this`log
      ensures Abs() == Ended(old(Abs()), id)
    {
      running := running - {id};
      inFlight := inFlight - multiset{id};
      log := log + [Finished(id)];
    }

    /** Another request came in meanwhile. */
    method RerunTask(id: string)
      requires id in pending
      modifies this`running, this`pending, this`inFlight, this`log
      ensures forall s :: Ended(s, id) == old(Abs()) ==> Abs() == Step(cfg, s, Completion(id))
    {
      hide RerunTarget, TaskId;
      pending := pending - {id};
      var target := RerunTarget(cfg, id);
      if target.Some? {
        SpawnTask(target.value.0, target.value.1);
      }
    }

    /** In every state the daemon can be in, no task id is in flight twice, and what is
        running is what is in flight. */
    lemma OneAtATime()
      requires Valid()
      ensures pending <= running && forall id :: inFlight[id] == if id in running then 1 else 0
    {
      RunInv(cfg, ops);
    }

    /** When nothing runs any more, every request for a task that returns has been served. */
    lemma IdleMeansServed(i: nat)
      requires Valid() && running == {} && i < |log| && log[i].Requested? && Returns(cfg, log[i].group, log[i].task)
      ensures StartedSince(log, i, log[i].group, log[i].task)
    {
      RunInv(cfg, ops);
      assert ServedAt(cfg, Abs(), i);
    }
  }
}
