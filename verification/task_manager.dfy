/**
 * The task registry of TaskManager.java. A registered task is an abstract
 * value: its name, what its `check()` and `countChildTask()` answer, and
 * whether its `startTask`/`stopTask` throw. What starting or stopping does
 * inside the task is not part of this model; the calls the registry issues
 * into tasks are its observable effect, as a list of `Call`s.
 */
module Manager {
  import opened Wrappers

  datatype ModelTask = ModelTask(
    name: string,
    check: bool,
    childTaskCount: int,
    startThrows: bool,
    stopThrows: bool)

  datatype Registry = Registry(tasks: map<string, ModelTask>, initialized: bool)

  /** A call the registry issues into a task. */
  datatype Call = Start(name: string, force: bool) | Stop(name: string)

  /** The status `getTaskStatus` builds: name, executable, child count. */
  datatype StatusView = StatusView(taskName: string, executable: bool, childTaskCount: int)

  /** The calls a bulk operation made, and whether an exception escaped it. */
  datatype Outcome = Outcome(calls: seq<Call>, threw: bool)

  /** The process-wide instance as first created. */
  function Empty(): (r: Registry)
    ensures r.tasks == map[] && !r.initialized
  {
    Registry(map[], false)
  }

  /** `order` lists each key of `tasks` exactly once: the iteration order of
      the concurrent map, which the model leaves open. */
  predicate IsListing(order: seq<string>, tasks: map<string, ModelTask>) {
    && (forall i :: 0 <= i < |order| ==> order[i] in tasks)
    && (forall n :: n in tasks ==> n in order)
    && (forall i, j :: 0 <= i < j < |order| ==> order[i] != order[j])
  }

  /** `registerTask(task)`: a null task changes nothing; otherwise the task is
      stored under its name, replacing any earlier one, and nothing else changes. */
  function RegisterTask(r: Registry, task: Option<ModelTask>): (r': Registry)
    ensures task.None? ==> r' == r
    ensures task.Some? ==>
              && r'.tasks.Keys == r.tasks.Keys + {task.value.name}
              && r'.tasks[task.value.name] == task.value
              && (forall n :: n in r.tasks && n != task.value.name ==> r'.tasks[n] == r.tasks[n])
    ensures r'.initialized == r.initialized
  {
    match task
    case None => r
    case Some(t) => r.(tasks := r.tasks[t.name := t])
  }

  /** `getTask(taskName)`: the registered task, or null. */
  function GetTask(r: Registry, taskName: string): (t: Option<ModelTask>)
    ensures t.Some? <==> taskName in r.tasks
    ensures t.Some? ==> t.value == r.tasks[taskName]
  {
    if taskName in r.tasks then Some(r.tasks[taskName]) else None
  }

  /** `startTask(taskName, force)`: false without any call for an unknown name;
      otherwise one start call, and true unless that call throws. True says
      only that nothing was thrown, not that the task is running. */
  function StartTask(r: Registry, taskName: string, force: bool): (o: (bool, seq<Call>))
    ensures taskName !in r.tasks ==> o == (false, [])
    ensures taskName in r.tasks ==>
              o.1 == [Start(taskName, force)] && (o.0 <==> !r.tasks[taskName].startThrows)
  {
    match GetTask(r, taskName)
    case None => (false, [])
    case Some(t) => (!t.startThrows, [Start(taskName, force)])
  }

  /** `stopTask(taskName)`: nothing for an unknown name; otherwise one stop
      call, whose exception (if any) is not caught. */
  function StopTask(r: Registry, taskName: string): (o: Outcome)
    ensures taskName !in r.tasks ==> o == Outcome([], false)
    ensures taskName in r.tasks ==>
              o.calls == [Stop(taskName)] && o.threw == r.tasks[taskName].stopThrows
  {
    match GetTask(r, taskName)
    case None => Outcome([], false)
    case Some(t) => Outcome([Stop(taskName)], t.stopThrows)
  }

  /** `startAllTasks(force)`: every registered task gets a start call, in map
      order; an exception from one is caught and the rest still start. */
  method StartAllTasks(r: Registry, force: bool, order: seq<string>) returns (calls: seq<Call>)
    requires IsListing(order, r.tasks)
    ensures |calls| == |order|
    ensures forall i :: 0 <= i < |order| ==> calls[i] == Start(order[i], force)
    ensures forall n :: n in r.tasks <==> Start(n, force) in calls
  {
    calls := [];
    for i := 0 to |order|
      invariant |calls| == i
      invariant forall j :: 0 <= j < i ==> calls[j] == Start(order[j], force)
    {
      // a throwing start is caught inside the loop body
      calls := calls + [Start(order[i], force)];
    }
    forall n | n in r.tasks
      ensures Start(n, force) in calls
    {
      var i :| 0 <= i < |order| && order[i] == n;
      assert calls[i] == Start(n, force);
    }
  }

  /** `stopAllTasks()`: stop calls in map order, with no isolation: the first
      stop that throws ends the loop and the exception escapes. */
  method StopAllTasks(r: Registry, order: seq<string>) returns (o: Outcome)
    requires IsListing(order, r.tasks)
    ensures |o.calls| <= |order|
    ensures forall i :: 0 <= i < |o.calls| ==> o.calls[i] == Stop(order[i])
    ensures o.threw <==> exists i :: 0 <= i < |order| && r.tasks[order[i]].stopThrows
    ensures !o.threw ==> |o.calls| == |order|
    ensures o.threw ==> |o.calls| >= 1 && r.tasks[order[|o.calls| - 1]].stopThrows
    ensures forall i :: 0 <= i < |o.calls| - 1 ==> !r.tasks[order[i]].stopThrows
  {
    var calls: seq<Call> := [];
    var i := 0;
    while i < |order|
      invariant 0 <= i <= |order| && |calls| == i
      invariant forall j :: 0 <= j < i ==> calls[j] == Stop(order[j])
      invariant forall j :: 0 <= j < i ==> !r.tasks[order[j]].stopThrows
    {
      calls := calls + [Stop(order[i])];
      if r.tasks[order[i]].stopThrows {
        return Outcome(calls, true);
      }
      i := i + 1;
    }
    o := Outcome(calls, false);
  }

  /** `getTaskStatus(taskName)`: `(name, false, 0)` for an unknown name, else
      the task's current `check()` and `countChildTask()`. */
  function GetTaskStatus(r: Registry, taskName: string): (s: StatusView)
    ensures s.taskName == taskName
    ensures taskName !in r.tasks ==> !s.executable && s.childTaskCount == 0
    ensures taskName in r.tasks ==>
              s.executable == r.tasks[taskName].check
              && s.childTaskCount == r.tasks[taskName].childTaskCount
  {
    match GetTask(r, taskName)
    case None => StatusView(taskName, false, 0)
    case Some(t) => StatusView(taskName, t.check, t.childTaskCount)
  }

  /** `getAllTaskStatus()`: one status per registered name, each as
      `getTaskStatus` would give it. */
  function GetAllTaskStatus(r: Registry): (m: map<string, StatusView>)
    ensures m.Keys == r.tasks.Keys
    ensures forall n :: n in m ==> m[n] == GetTaskStatus(r, n)
  {
    map n | n in r.tasks :: StatusView(n, r.tasks[n].check, r.tasks[n].childTaskCount)
  }

  /** `initialize()`: sets the flag; `first` tells whether this call set it
      (the compare-and-set succeeded, so the completion line is logged). */
  function Initialize(r: Registry): (o: (Registry, bool))
    ensures o.0.initialized && o.0.tasks == r.tasks
    ensures o.1 <==> !r.initialized
  {
    (r.(initialized := true), !r.initialized)
  }

  /** A second `initialize()` changes nothing and reports no first time. */
  lemma InitializeIdempotent(r: Registry)
    ensures Initialize(Initialize(r).0).0 == Initialize(r).0
    ensures !Initialize(Initialize(r).0).1
  {
  }

  /** `cleanup()`: stop everything, then empty the registry and clear the flag.
      If a stop throws, the exception escapes before the registry is touched. */
  method Cleanup(r: Registry, order: seq<string>) returns (r': Registry, o: Outcome)
    requires IsListing(order, r.tasks)
    ensures |o.calls| <= |order|
    ensures forall i :: 0 <= i < |o.calls| ==> o.calls[i] == Stop(order[i])
    ensures o.threw <==> exists i :: 0 <= i < |order| && r.tasks[order[i]].stopThrows
    ensures !o.threw ==> r'.tasks == map[] && !r'.initialized && |o.calls| == |order|
    ensures !o.threw ==> forall n :: n in r.tasks ==> Stop(n) in o.calls
    ensures o.threw ==> |o.calls| >= 1 && r.tasks[order[|o.calls| - 1]].stopThrows
    ensures forall i :: 0 <= i < |o.calls| - 1 ==> !r.tasks[order[i]].stopThrows
    ensures o.threw ==> r' == r
  {
    o := StopAllTasks(r, order);
    if o.threw {
      return r, o;
    }
    forall n | n in r.tasks
      ensures Stop(n) in o.calls
    {
      var i :| 0 <= i < |order| && order[i] == n;
      assert o.calls[i] == Stop(n);
    }
    r' := Registry(map[], false);
  }
}
