/** The status record of TaskStatus.java and its four updates. */
module Status {
  import opened Wrappers

  /** `TaskState`, with the description each value carries. */
  datatype TaskState = UNKNOWN | IDLE | RUNNING | STOPPED | ERROR | DISABLED {
    function Description(): (d: string)
      ensures 2 <= |d| <= 3
      ensures d == "错误" <==> this == ERROR
    {
      match this
      case UNKNOWN => "未知"
      case IDLE => "空闲"
      case RUNNING => "运行中"
      case STOPPED => "已停止"
      case ERROR => "错误"
      case DISABLED => "已禁用"
    }
  }

  const AllStates: seq<TaskState> := [UNKNOWN, IDLE, RUNNING, STOPPED, ERROR, DISABLED]

  /** There are exactly six states, and no two share a description. */
  lemma StatesAndDescriptions(s: TaskState, t: TaskState)
    ensures |AllStates| == 6 && s in AllStates
    ensures forall i, j :: 0 <= i < j < |AllStates| ==> AllStates[i] != AllStates[j]
    ensures s.Description() == t.Description() ==> s == t
  {
  }

  datatype TaskStatus = TaskStatus(
    taskName: Option<string>,
    executable: bool,
    childTaskCount: int,
    state: TaskState,
    lastExecuteTime: int,
    executeCount: int,
    errorCount: int)

  /** `TaskStatus.builder().build()`: the builder defaults (state UNKNOWN and
      both counts 0) and Java's zero values for the rest. */
  function BuilderDefaults(): (r: TaskStatus)
    ensures r.taskName.None? && !r.executable && r.childTaskCount == 0
    ensures r.state == UNKNOWN && r.lastExecuteTime == 0
    ensures r.executeCount == 0 && r.errorCount == 0
  {
    TaskStatus(None, false, 0, UNKNOWN, 0, 0, 0)
  }

  /** `createDefault(taskName)`. */
  function CreateDefault(taskName: Option<string>): (r: TaskStatus)
    ensures r.taskName == taskName && !r.executable && r.childTaskCount == 0
    ensures r.state == UNKNOWN && r.executeCount == 0 && r.errorCount == 0
    ensures r.lastExecuteTime == 0
  {
    BuilderDefaults().(taskName := taskName, executable := false, childTaskCount := 0, state := UNKNOWN)
  }

  /** `updateExecution()`, with the clock reading as `now`: one more execution
      at `now`, nothing else changes. */
  function UpdateExecution(s: TaskStatus, now: int): (r: TaskStatus)
    ensures r.executeCount == s.executeCount + 1 && r.lastExecuteTime == now
    ensures r.taskName == s.taskName && r.executable == s.executable
    ensures r.childTaskCount == s.childTaskCount && r.state == s.state
    ensures r.errorCount == s.errorCount
  {
    s.(lastExecuteTime := now, executeCount := s.executeCount + 1)
  }

  /** `updateError()`: one more error and state ERROR, nothing else changes. */
  function UpdateError(s: TaskStatus): (r: TaskStatus)
    ensures r.errorCount == s.errorCount + 1 && r.state == ERROR
    ensures r.taskName == s.taskName && r.executable == s.executable
    ensures r.childTaskCount == s.childTaskCount
    ensures r.executeCount == s.executeCount && r.lastExecuteTime == s.lastExecuteTime
  {
    s.(errorCount := s.errorCount + 1, state := ERROR)
  }

  /** `reset()`: state IDLE and both counts 0; the name, executability, child
      count and last execution time are kept. */
  function Reset(s: TaskStatus): (r: TaskStatus)
    ensures r.state == IDLE && r.executeCount == 0 && r.errorCount == 0
    ensures r.taskName == s.taskName && r.executable == s.executable
    ensures r.childTaskCount == s.childTaskCount && r.lastExecuteTime == s.lastExecuteTime
  {
    s.(state := IDLE, executeCount := 0, errorCount := 0)
  }

  /** Resetting twice is resetting once. */
  lemma ResetIdempotent(s: TaskStatus)
    ensures Reset(Reset(s)) == Reset(s)
  {
  }

  /** A reset forgets errors entirely, and forgets executions except for the
      time of the last one. */
  lemma ResetForgetsUpdates(s: TaskStatus, now: int)
    ensures Reset(UpdateError(s)) == Reset(s)
    ensures Reset(UpdateExecution(s, now)) == Reset(s).(lastExecuteTime := now)
  {
  }

  /** Recording an execution and recording an error are independent. */
  lemma UpdatesCommute(s: TaskStatus, now: int)
    ensures UpdateError(UpdateExecution(s, now)) == UpdateExecution(UpdateError(s), now)
  {
  }
}
