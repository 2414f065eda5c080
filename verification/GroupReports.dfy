/** How the results of its tasks become the one result of a group: the engine looks, at each
    completion, whether the group has tasks left that run. */
module GroupReports {
  import opened Common
  import opened Strings
  import opened TaskRuns

  datatype TaskStatus = Pending | Running | Success | Failed

  /** The running tasks of all groups, the tasks of one group, and what that group has been
      reported as, success or failure, so far. */
  datatype Tracker = Tracker(running: set<string>, tasks: map<string, TaskStatus>, reports: seq<bool>)

  datatype TaskEvent = Begun(group: string, task: string) | Done(group: string, task: string, success: bool)

  predicate HasRunningTasks(running: set<string>, group: string) {
    exists id :: id in running && group + ":" <= id
  }

  predicate AnyFailed(tasks: map<string, TaskStatus>) {
    exists t :: t in tasks && tasks[t] == Failed
  }

  /** None while tasks are running. */
  function GroupResult(tasks: map<string, TaskStatus>, hasRunningTasks: bool): Option<bool> {
    if hasRunningTasks then None else Some(!AnyFailed(tasks))
  }

  function After(g: string, s: Tracker, e: TaskEvent): Tracker {
    match e
    case Begun(h, t) => s.(running := s.running + {TaskId(h, t)})
    case Done(h, t, success) =>
      var running := s.running - {TaskId(h, t)};
      if h != g then s.(running := running)
      else
        var tasks := s.tasks[t := if success then Success else Failed];
        match GroupResult(tasks, HasRunningTasks(running, g))
        case None => Tracker(running, tasks, s.reports)
        case Some(result) => Tracker(running, tasks, s.reports + [result])
  }

  /** Tasks of other groups may begin, and whatever runs may be done. */
  predicate Possible(g: string, s: Tracker, e: TaskEvent) {
    ':' !in e.group && if e.Begun? then e.group != g else TaskId(e.group, e.task) in s.running
  }

  function AfterAll(g: string, s: Tracker, es: seq<TaskEvent>): Tracker {
    if es == [] then s else After(g, AfterAll(g, s, es[..|es| - 1]), es[|es| - 1])
  }

  ghost predicate PossibleAll(g: string, s: Tracker, es: seq<TaskEvent>) {
    es != [] ==>
      PossibleAll(g, s, es[..|es| - 1]) && Possible(g, AfterAll(g, s, es[..|es| - 1]), es[|es| - 1])
  }

  /** Which of the group's spawned tasks still run. */
  function StillRunning(g: string, spawned: set<string>, running: set<string>): set<string> {
    set t | t in spawned && TaskId(g, t) in running
  }

  /** Whose task an id is; of the group's own, only spawned tasks run. */
  ghost predicate Owned(g: string, spawned: set<string>, id: string) {
    exists owner, task :: ':' !in owner && id == TaskId(owner, task) && (owner == g ==> task in spawned)
  }

  /** The group's tasks in `spawned` have just been spawned, and no others of it run. */
  ghost predicate JustSpawned(g: string, spawned: set<string>, s: Tracker) {
    && ':' !in g && spawned != {} && s.reports == []
    && StillRunning(g, spawned, s.running) == spawned
    && (forall t :: t in spawned ==> t in s.tasks && s.tasks[t] == Running)
    && forall id :: id in s.running ==> Owned(g, spawned, id)
  }

  /** Nothing is reported while spawned tasks run, and afterwards there is one report. */
  ghost predicate Inv(g: string, spawned: set<string>, s: Tracker) {
    && (forall id :: id in s.running ==> Owned(g, spawned, id))
    && s.reports == if StillRunning(g, spawned, s.running) == {} then [!AnyFailed(s.tasks)] else []
  }

  /** The prefix test sees exactly the group's spawned tasks. */
  lemma RunningSeen(g: string, spawned: set<string>, running: set<string>)
    requires ':' !in g && forall id :: id in running ==> Owned(g, spawned, id)
    ensures HasRunningTasks(running, g) <==> StillRunning(g, spawned, running) != {}
  {
    if id :| id in running && g + ":" <= id {
      var owner, task :| ':' !in owner && id == TaskId(owner, task) && (owner == g ==> task in spawned);
      PrefixTestExact(g, owner, task);
      assert task in StillRunning(g, spawned, running);
    }
    if t :| t in StillRunning(g, spawned, running) {
      assert g + ":" <= TaskId(g, t);
    }
  }

  /** Task ids of colon-free groups are told apart. */
  lemma IdsDiffer(g: string, h: string, t: string, u: string)
    requires ':' !in g && ':' !in h
    ensures TaskId(g, t) == TaskId(h, u) <==> g == h && t == u
  {
    if TaskId(g, t) == TaskId(h, u) {
      JoinUnique(g, t, h, u, ':');
    }
  }

  lemma StepInv(g: string, spawned: set<string>, s: Tracker, e: TaskEvent)
    requires ':' !in g && Inv(g, spawned, s) && Possible(g, s, e)
    ensures Inv(g, spawned, After(g, s, e))
  {
    hide TaskId;
    var t := After(g, s, e);
    StillRunningAfter(g, spawned, s, e);
    match e
    case Begun(h, u) =>
      assert Owned(g, spawned, TaskId(h, u));
    case Done(h, u, success) =>
      if h == g {
        RunningSeen(g, spawned, t.running);
      }
  }

  /** Only a completion of the group's own changes which of its tasks run. */
  lemma StillRunningAfter(g: string, spawned: set<string>, s: Tracker, e: TaskEvent)
    requires ':' !in g && Possible(g, s, e) && forall id :: id in s.running ==> Owned(g, spawned, id)
    ensures var left := StillRunning(g, spawned, s.running);
            StillRunning(g, spawned, After(g, s, e).running) ==
              if e.Done? && e.group == g then left - {e.task} else left
    ensures e.Done? && e.group == g ==> e.task in StillRunning(g, spawned, s.running)
  {
    hide HasRunningTasks, AnyFailed;
    forall t ensures TaskId(g, t) == TaskId(e.group, e.task) <==> g == e.group && t == e.task {
      IdsDiffer(g, e.group, t, e.task);
    }
    if e.Done? && e.group == g {
      var owner, task :| ':' !in owner && TaskId(g, e.task) == TaskId(owner, task) && (owner == g ==> task in spawned);
      IdsDiffer(g, owner, e.task, task);
    }
    hide TaskId;
  }

  lemma {:induction false} RunInv(g: string, spawned: set<string>, s: Tracker, es: seq<TaskEvent>)
    requires JustSpawned(g, spawned, s) && PossibleAll(g, s, es)
    ensures Inv(g, spawned, AfterAll(g, s, es))
  {
    if es == [] {
    } else {
      RunInv(g, spawned, s, es[..|es| - 1]);
      StepInv(g, spawned, AfterAll(g, s, es[..|es| - 1]), es[|es| - 1]);
    }
  }

  /** What one of the group's tasks shows after `es`, with those in `left` still running: the
      result if it is done, and otherwise what it showed before. */
  ghost predicate Shows(g: string, spawned: set<string>, left: set<string>, was: map<string, TaskStatus>,
                        now: map<string, TaskStatus>, es: seq<TaskEvent>, t: string) {
    && (Done(g, t, true) in es || Done(g, t, false) in es <==> t in spawned && t !in left)
    && !(Done(g, t, true) in es && Done(g, t, false) in es)
    && (t in now && now[t] == Failed <==>
          if t in spawned then Done(g, t, false) in es else t in was && was[t] == Failed)
    && (Done(g, t, true) in es ==> t in now && now[t] == Success)
    && (t !in spawned || t in left ==> (t in now <==> t in was) && (t in now ==> now[t] == was[t]))
  }

  lemma ShowsMore(g: string, spawned: set<string>, left: set<string>, was: map<string, TaskStatus>,
                  now: map<string, TaskStatus>, es: seq<TaskEvent>, t: string, e: TaskEvent)
    requires Shows(g, spawned, left, was, now, es, t) && left <= spawned
    requires e.Done? && e.group == g ==> e.task in left
    ensures if e.Done? && e.group == g then
              Shows(g, spawned, left - {e.task}, was, now[e.task := if e.success then Success else Failed], es + [e], t)
            else Shows(g, spawned, left, was, now, es + [e], t)
  {
    forall d: TaskEvent ensures d in es + [e] <==> d in es || d == e {
    }
  }

  lemma {:induction false} RunShows(g: string, spawned: set<string>, s: Tracker, es: seq<TaskEvent>, t: string)
    requires JustSpawned(g, spawned, s) && PossibleAll(g, s, es)
    ensures var now := AfterAll(g, s, es);
            Shows(g, spawned, StillRunning(g, spawned, now.running), s.tasks, now.tasks, es, t)
  {
    if es == [] {
    } else {
      var before, e := es[..|es| - 1], es[|es| - 1];
      var was := AfterAll(g, s, before);
      assert es == before + [e];
      RunShows(g, spawned, s, before, t);
      RunInv(g, spawned, s, before);
      StillRunningAfter(g, spawned, was, e);
      hide TaskId, JustSpawned, PossibleAll, HasRunningTasks, AnyFailed, Owned, Shows;
      ShowsMore(g, spawned, StillRunning(g, spawned, was.running), s.tasks, was.tasks, before, t, e);
    }
  }

  /** A group whose tasks have been spawned reports once, when the last of them is done, in
      whatever order that happens and whatever other groups do meanwhile. */
  lemma ReportsOnce(g: string, spawned: set<string>, s: Tracker, es: seq<TaskEvent>)
    requires JustSpawned(g, spawned, s) && PossibleAll(g, s, es)
    ensures var reports := AfterAll(g, s, es).reports;
            && |reports| <= 1
            && (reports != [] <==> forall t :: t in spawned ==> Done(g, t, true) in es || Done(g, t, false) in es)
  {
    var now := AfterAll(g, s, es);
    var left := StillRunning(g, spawned, now.running);
    RunInv(g, spawned, s, es);
    hide JustSpawned, PossibleAll, AnyFailed, Owned, AfterAll, TaskId;
    forall t | t in spawned ensures t in left <==> !(Done(g, t, true) in es || Done(g, t, false) in es) {
      RunShows(g, spawned, s, es, t);
    }
  }

  /** It reports success exactly when none of the spawned tasks failed and none of its other
      tasks is left from earlier as failed. */
  lemma ReportsFailure(g: string, spawned: set<string>, s: Tracker, es: seq<TaskEvent>)
    requires JustSpawned(g, spawned, s) && PossibleAll(g, s, es) && AfterAll(g, s, es).reports != []
    ensures AfterAll(g, s, es).reports == [false] <==>
              || (exists t :: Done(g, t, false) in es)
              || (exists t :: t in s.tasks && t !in spawned && s.tasks[t] == Failed)
  {
    var now := AfterAll(g, s, es);
    var left := StillRunning(g, spawned, now.running);
    RunInv(g, spawned, s, es);
    hide JustSpawned, PossibleAll, Owned, AfterAll, StillRunning;
    forall t ensures Shows(g, spawned, left, s.tasks, now.tasks, es, t) {
      RunShows(g, spawned, s, es, t);
    }
    if t :| t in now.tasks && now.tasks[t] == Failed {
      assert Shows(g, spawned, left, s.tasks, now.tasks, es, t);
    }
    if t :| Done(g, t, false) in es {
      assert Shows(g, spawned, left, s.tasks, now.tasks, es, t);
    }
    if t :| t in s.tasks && t !in spawned && s.tasks[t] == Failed {
      assert Shows(g, spawned, left, s.tasks, now.tasks, es, t);
    }
  }

  /** A task that is done shows how it ended; every other task shows what it showed before. */
  lemma TasksShown(g: string, spawned: set<string>, s: Tracker, es: seq<TaskEvent>, t: string)
    requires JustSpawned(g, spawned, s) && PossibleAll(g, s, es)
    ensures var tasks := AfterAll(g, s, es).tasks;
            && (Done(g, t, true) in es ==> t in tasks && tasks[t] == Success)
            && (Done(g, t, false) in es ==> t in tasks && tasks[t] == Failed)
            && (Done(g, t, true) !in es && Done(g, t, false) !in es ==>
                  (t in tasks <==> t in s.tasks) && (t in tasks ==> tasks[t] == s.tasks[t]))
  {
    RunShows(g, spawned, s, es, t);
  }

  /** A failure of a task that runs on changes only outlives the change: it fails later
      runs of the group in which no task fails. */
  lemma OldFailureFailsAgain(g: string, ran: string, other: string, s: Tracker)
    requires JustSpawned(g, {ran}, s) && other != ran && other in s.tasks && s.tasks[other] == Failed
    ensures PossibleAll(g, s, [Done(g, ran, true)])
    ensures AfterAll(g, s, [Done(g, ran, true)]).reports == [false]
  {
    var e := Done(g, ran, true);
    assert [e][..0] == [] && ran in StillRunning(g, {ran}, s.running);
    assert AfterAll(g, s, []) == s && PossibleAll(g, s, []);
    assert AfterAll(g, s, [e]) == After(g, s, e);
    hide HasRunningTasks;
    ReportsOnce(g, {ran}, s, [e]);
    ReportsFailure(g, {ran}, s, [e]);
  }

  class GroupTracker {
    const group: string
    var running: set<string>
    var tasks: map<string, TaskStatus>
    ghost var reports: seq<bool>

    ghost function Abs(): Tracker
      reads this
    {
      Tracker(running, tasks, reports)
    }

    constructor (group: string, running: set<string>, tasks: map<string, TaskStatus>)
      ensures this.group == group && Abs() == Tracker(running, tasks, [])
    {
      this.group, this.running, this.tasks := group, running, tasks;
      reports := [];
    }

    /** A completion is recorded, and the group's result, if there is one now, returned. */
    method TaskDone(owner: string, task: string, success: bool) returns (result: Option<bool>)
      modifies this
      ensures Abs() == After(group, old(Abs()), Done(owner, task, success))
      ensures running == old(running) - {owner + ":" + task}
      ensures tasks == if owner == group then old(tasks)[task := if success then Success else Failed] else old(tasks)
      ensures result.Some? <==> owner == group && forall id :: id in running ==> !(group + ":" <= id)
      ensures result.Some? ==> (result.value <==> forall t :: t in tasks ==> tasks[t] != Failed)
      ensures reports == old(reports) + (if result.Some? then [result.value] else [])
    {
      assert TaskId(owner, task) == owner + ":" + task;
      running := running - {TaskId(owner, task)};
      result := None;
      if owner == group {
        tasks := tasks[task := if success then Success else Failed];
        result := GroupResult(tasks, HasRunningTasks(running, group));
        if result.Some? {
          reports := reports + [result.value];
        }
      }
    }
  }
}
