/**
  The ffrt statistics session: start, stop and get commands and a delayed clear
  task, all serialized by ffrtMetricLock, that share one record buffer.

  Buffers and tasks are numbered in the order of their creation.  The outcomes of
  ffrt_dump, of submitting a task and of cancelling one are arbitrary; a task
  that could not be cancelled still runs later.  Get destroys the queue of the
  tasks: which of them survive that is arbitrary too.
 */
module FfrtSession {
  import opened Options
  import FfrtParser

  const CLEAR_TASK := "ClearFfrtStatistics"
  const DELAY_TIME := 60 * 1000
  const CONVERSION_FACTOR := 1000

  type TaskMap = map<string, nat>

  /** `due` holds the tasks neither run nor cancelled, each with the buffer of the session that posted it. */
  datatype Session = Session(
    collectEnable: bool, buffer: Option<nat>, handler: Option<TaskMap>,
    allocations: nat, freed: seq<nat>, submitted: nat, due: map<nat, nat>)

  const INITIAL := Session(false, None, None, 0, [], 0, map[])

  /** `dumped`: ffrt_dump succeeded; `posted`: the task was submitted; `cancelled`: cancelling the recorded task succeeded. */
  datatype Step =
    | Start(dumped: bool, posted: bool, cancelled: bool)
    | Stop(dumped: bool, cancelled: bool)
    | Get(cancelled: bool, surviving: set<nat>)  // the tasks that outlive their queue
    | Timer(task: nat, cancelled: bool)
    | Unknown                        // any other command code

  ghost function Recorded(s: Session): Option<nat> {
    if s.handler.Some? && CLEAR_TASK in s.handler.value then Some(s.handler.value[CLEAR_TASK]) else None
  }

  ghost function Drop(s: Session, cancelled: bool): Session {
    match Recorded(s)
    case None => s
    case Some(task) =>
      s.(handler := Some(s.handler.value - {CLEAR_TASK}), due := if cancelled then s.due - {task} else s.due)
  }

  /** Free the buffer, then cancel and forget the recorded task. */
  ghost function Clear(s: Session, cancelled: bool): Session {
    var t := if s.buffer.Some? then s.(freed := s.freed + [s.buffer.value], buffer := None) else s;
    Drop(t, cancelled)
  }

  /** Release the handler and its queue. */
  ghost function DropQueue(s: Session, surviving: set<nat>): Session {
    s.(handler := None, due := map t | t in s.due && t in surviving :: s.due[t])
  }

  ghost function Allocate(s: Session): Session {
    s.(buffer := Some(s.allocations), allocations := s.allocations + 1)
  }

  ghost function Post(s: Session, posted: bool): Session {
    var tasks := if s.handler.Some? then s.handler.value else map[];
    if !posted then s.(handler := Some(tasks))
    else s.(handler := Some(tasks[CLEAR_TASK := s.submitted]),
            due := s.due[s.submitted := if s.buffer.Some? then s.buffer.value else 0], submitted := s.submitted + 1)
  }

  ghost predicate Enabled(s: Session, step: Step) {
    step.Timer? ==> step.task in s.due
  }

  ghost function Apply(s: Session, step: Step): Session {
    match step
    case Start(dumped, posted, cancelled) =>
      if s.collectEnable then s
      else if !dumped then Clear(Allocate(Clear(s, cancelled)), cancelled)
      else Post(Allocate(Clear(s, cancelled)).(collectEnable := true), posted)
    case Stop(dumped, cancelled) =>
      if !s.collectEnable then s
      else if !dumped then Clear(s.(collectEnable := false), cancelled)
      else s.(collectEnable := false)
    case Get(cancelled, surviving) =>
      if s.collectEnable || s.buffer.None? then s
      else DropQueue(Clear(s, cancelled), surviving)
    case Timer(task, cancelled) => Clear(s.(collectEnable := false, due := s.due - {task}), cancelled)
    case Unknown => s
  }

  ghost function Run(steps: seq<Step>): Option<Session> {
    if steps == [] then Some(INITIAL)
    else
      var before, step := Run(steps[..|steps| - 1]), steps[|steps| - 1];
      if before.Some? && Enabled(before.value, step) then Some(Apply(before.value, step)) else None
  }

  // ---------- Ownership of the buffer ----------

  ghost function UpTo(n: nat): (r: seq<nat>)
    ensures |r| == n && forall i :: 0 <= i < n ==> r[i] == i
  {
    seq(n, i => i)
  }

  /** The one buffer that may be live is the newest; every older one has been freed once, in order. */
  ghost predicate Owned(s: Session) {
    && (s.collectEnable ==> s.buffer.Some?)
    && (match s.buffer
        case None => s.freed == UpTo(s.allocations)
        case Some(b) => s.allocations == b + 1 && s.freed == UpTo(b))
  }

  /** The recorded task is due and was posted for the live buffer. */
  ghost predicate Tracked(s: Session) {
    && (Recorded(s).Some? ==>
          Recorded(s).value in s.due && s.buffer == Some(s.due[Recorded(s).value]))
    && (forall t :: t in s.due ==> t < s.submitted)
  }

  lemma ClearOwned(s: Session, cancelled: bool)
    requires Owned(s.(collectEnable := false))
    ensures var t := Clear(s, cancelled); Owned(t.(collectEnable := false)) && t.buffer == None && Recorded(t) == None
    ensures Clear(s, cancelled).collectEnable == s.collectEnable
  {
  }

  lemma ClearTracked(s: Session, cancelled: bool)
    requires forall t :: t in s.due ==> t < s.submitted
    ensures Tracked(Clear(s, cancelled)) && Recorded(Clear(s, cancelled)) == None
  {
  }

  lemma TrackedKept(s: Session, step: Step)
    requires Owned(s) && Tracked(s) && Enabled(s, step)
    ensures Tracked(Apply(s, step))
  {
    match step
    case Start(dumped, posted, cancelled) =>
      ClearTracked(s, cancelled);
      ClearTracked(Allocate(Clear(s, cancelled)), cancelled);
    case Stop(_, cancelled) => ClearTracked(s.(collectEnable := false), cancelled);
    case Get(cancelled, _) => ClearTracked(s, cancelled);
    case Timer(task, cancelled) => ClearTracked(s.(collectEnable := false, due := s.due - {task}), cancelled);
    case Unknown =>
  }

  lemma OwnedKept(s: Session, step: Step)
    requires Owned(s) && Enabled(s, step)
    ensures Owned(Apply(s, step))
  {
    match step
    case Start(dumped, posted, cancelled) =>
      if !s.collectEnable {
        ClearOwned(s, cancelled);
        ClearOwned(Allocate(Clear(s, cancelled)), cancelled);
      }
    case Stop(_, cancelled) => ClearOwned(s.(collectEnable := false), cancelled);
    case Get(cancelled, _) => ClearOwned(s.(collectEnable := false), cancelled);
    case Timer(task, cancelled) => ClearOwned(s.(collectEnable := false, due := s.due - {task}), cancelled);
    case Unknown =>
  }

  lemma {:induction false} Reachable(steps: seq<Step>)
    requires Run(steps).Some?
    ensures Owned(Run(steps).value) && Tracked(Run(steps).value)
  {
    if steps != [] {
      var pre := steps[..|steps| - 1];
      Reachable(pre);
      OwnedKept(Run(pre).value, steps[|steps| - 1]);
      TrackedKept(Run(pre).value, steps[|steps| - 1]);
    }
  }

  /**
    Over every run: collection implies a live buffer; the live buffer has not
    been freed; no buffer is freed twice; and every buffer ever allocated is
    either freed or live.
   */
  lemma BufferOwnership(steps: seq<Step>)
    requires Run(steps).Some?
    ensures var s := Run(steps).value;
            && (s.collectEnable ==> s.buffer.Some?)
            && (s.buffer.Some? ==> s.buffer.value !in s.freed)
            && (forall i, j :: 0 <= i < j < |s.freed| ==> s.freed[i] != s.freed[j])
            && (forall b: nat :: b < s.allocations <==> b in s.freed || s.buffer == Some(b))
            && s.allocations == |s.freed| + (if s.buffer.Some? then 1 else 0)
  {
    Reachable(steps);
    var s := Run(steps).value;
    forall b: nat ensures b < s.allocations <==> b in s.freed || s.buffer == Some(b) {
      if b < |s.freed| { assert s.freed[b] == b; }
    }
  }

  // ---------- What the commands mean, by history ----------

  /** Step `i` is a start that ffrt accepts, with no stop and no clear task after it. */
  ghost predicate StartedAt(steps: seq<Step>, i: nat) {
    && i < |steps| && steps[i].Start? && steps[i].dumped
    && forall j :: i < j < |steps| ==> !steps[j].Stop? && !steps[j].Timer?
  }

  ghost predicate Collecting(steps: seq<Step>) {
    exists i: nat :: StartedAt(steps, i)
  }

  /** Step `k` is a stop that ffrt accepts, of a collection, with nothing but refused stops and unknown commands after it. */
  ghost predicate StoppedAt(steps: seq<Step>, k: nat) {
    && k < |steps| && steps[k].Stop? && steps[k].dumped && Collecting(steps[..k])
    && forall j :: k < j < |steps| ==> steps[j].Stop? || steps[j].Unknown?
  }

  ghost predicate Stopped(steps: seq<Step>) {
    exists k: nat :: StoppedAt(steps, k)
  }

  lemma StartedPrefix(steps: seq<Step>)
    requires steps != []
    ensures var last := steps[|steps| - 1];
            Collecting(steps) <==> (last.Start? && last.dumped) || (Collecting(steps[..|steps| - 1]) && !last.Stop? && !last.Timer?)
  {
    var n := |steps| - 1;
    var pre, last := steps[..n], steps[n];
    if last.Start? && last.dumped { assert StartedAt(steps, n); }
    if Collecting(pre) && !last.Stop? && !last.Timer? {
      var i: nat :| StartedAt(pre, i);
      assert forall j :: i < j < n ==> steps[j] == pre[j];
      assert StartedAt(steps, i);
    }
    if Collecting(steps) && !(last.Start? && last.dumped) {
      var i: nat :| StartedAt(steps, i);
      assert StartedAt(pre, i);
    }
  }

  lemma StoppedPrefix(steps: seq<Step>)
    requires steps != []
    ensures var pre, last := steps[..|steps| - 1], steps[|steps| - 1];
            Stopped(steps) <==> (last.Stop? && last.dumped && Collecting(pre)) || (Stopped(pre) && (last.Stop? || last.Unknown?))
  {
    var n := |steps| - 1;
    var pre, last := steps[..n], steps[n];
    if last.Stop? && last.dumped && Collecting(pre) { assert StoppedAt(steps, n); }
    if Stopped(pre) && (last.Stop? || last.Unknown?) {
      var k: nat :| StoppedAt(pre, k);
      assert steps[..k] == pre[..k] && forall j :: k < j < n ==> steps[j] == pre[j];
      assert StoppedAt(steps, k);
    }
    if Stopped(steps) && !(last.Stop? && last.dumped && Collecting(pre)) {
      var k: nat :| StoppedAt(steps, k);
      assert steps[..k] == pre[..k];
      assert StoppedAt(pre, k);
    }
  }

  /** Collecting, and a report that Get would give, in terms of the commands alone; a failed stop leaves no report. */
  lemma {:induction false} SessionByHistory(steps: seq<Step>)
    requires Run(steps).Some?
    ensures Run(steps).value.collectEnable <==> Collecting(steps)
    ensures (!Run(steps).value.collectEnable && Run(steps).value.buffer.Some?) <==> Stopped(steps)
  {
    if steps != [] {
      var pre := steps[..|steps| - 1];
      SessionByHistory(pre);
      StartedPrefix(steps);
      StoppedPrefix(steps);
      Reachable(pre);
    }
  }

  // ---------- The clear task ----------

  /** The clear task is recorded exactly while a buffer is live. */
  ghost predicate RecordedWhileLive(s: Session) {
    Recorded(s).Some? <==> s.buffer.Some?
  }

  /** A start that begins collecting but cannot submit its clear task. */
  ghost predicate StartsUnposted(s: Session, step: Step) {
    step.Start? && !s.collectEnable && step.dumped && !step.posted
  }

  lemma RecordedExactly(s: Session, step: Step)
    requires Owned(s) && Tracked(s) && Enabled(s, step) && RecordedWhileLive(s)
    ensures RecordedWhileLive(Apply(s, step)) <==> !StartsUnposted(s, step)
  {
    match step
    case Start(dumped, posted, cancelled) =>
      ClearOwned(s.(collectEnable := false), cancelled);
    case _ =>
  }

  ghost predicate RecordedThroughout(steps: seq<Step>) {
    && (steps != [] ==> RecordedThroughout(steps[..|steps| - 1]))
    && (Run(steps).Some? ==> RecordedWhileLive(Run(steps).value))
  }

  ghost predicate AllPosted(steps: seq<Step>) {
    if steps == [] then true
    else
      var pre := steps[..|steps| - 1];
      AllPosted(pre) && (Run(pre).Some? ==> !StartsUnposted(Run(pre).value, steps[|steps| - 1]))
  }

  /** The clear task is recorded exactly while a buffer is live, at every point of a run, if and only if every start posts its task. */
  lemma {:induction false} RecordedOverRuns(steps: seq<Step>)
    requires Run(steps).Some?
    ensures RecordedThroughout(steps) <==> AllPosted(steps)
  {
    if steps != [] {
      var pre := steps[..|steps| - 1];
      RecordedOverRuns(pre);
      Reachable(pre);
      if RecordedThroughout(pre) {
        RecordedExactly(Run(pre).value, steps[|steps| - 1]);
      }
    }
  }

  /** When every start posts its task, a live buffer always has a task on its way that will free it. */
  lemma LiveBufferWillBeFreed(steps: seq<Step>)
    requires Run(steps).Some? && AllPosted(steps)
    ensures var s := Run(steps).value;
            s.buffer.Some? ==> exists t :: t in s.due && s.due[t] == s.buffer.value
  {
    RecordedOverRuns(steps);
    Reachable(steps);
  }

  /** Whenever a clear task runs, it ends the session: nothing is collected, live or recorded after it. */
  lemma TimerEndsSession(s: Session, task: nat, cancelled: bool)
    requires Owned(s) && task in s.due
    ensures var t := Apply(s, Timer(task, cancelled));
            !t.collectEnable && t.buffer == None && Recorded(t) == None && t.freed == UpTo(s.allocations)
  {
    ClearOwned(s.(collectEnable := false, due := s.due - {task}), cancelled);
  }

  /** Only the recorded task is due. */
  ghost predicate OnlyRecordedDue(s: Session) {
    forall t :: t in s.due ==> Recorded(s) == Some(t)
  }

  /** The step releases the buffer, and with it the recorded task. */
  ghost predicate Releases(s: Session, step: Step) {
    match step
    case Start(_, _, _) => !s.collectEnable
    case Stop(dumped, _) => s.collectEnable && !dumped
    case Get(_, _) => !s.collectEnable && s.buffer.Some?
    case Timer(_, _) => true
    case Unknown => false
  }

  /** A recorded task, other than the one running, that could not be cancelled and did not go with its queue. */
  ghost predicate FailedCancel(s: Session, step: Step) {
    && Releases(s, step) && Recorded(s).Some? && !step.cancelled
    && !(step.Timer? && Recorded(s) == Some(step.task))
    && (step.Get? ==> Recorded(s).value in step.surviving)
  }

  lemma OnlyRecordedExactly(s: Session, step: Step)
    requires Owned(s) && Tracked(s) && Enabled(s, step) && OnlyRecordedDue(s)
    ensures OnlyRecordedDue(Apply(s, step)) <==> !FailedCancel(s, step)
  {
  }

  ghost predicate OnlyRecordedThroughout(steps: seq<Step>) {
    && (steps != [] ==> OnlyRecordedThroughout(steps[..|steps| - 1]))
    && (Run(steps).Some? ==> OnlyRecordedDue(Run(steps).value))
  }

  ghost predicate NoFailedCancel(steps: seq<Step>) {
    if steps == [] then true
    else
      var pre := steps[..|steps| - 1];
      NoFailedCancel(pre) && (Run(pre).Some? ==> !FailedCancel(Run(pre).value, steps[|steps| - 1]))
  }

  /** No stray task is due at any point of a run if and only if no cancellation fails in it. */
  lemma {:induction false} CancelledOverRuns(steps: seq<Step>)
    requires Run(steps).Some?
    ensures OnlyRecordedThroughout(steps) <==> NoFailedCancel(steps)
  {
    if steps != [] {
      var pre := steps[..|steps| - 1];
      CancelledOverRuns(pre);
      Reachable(pre);
      if OnlyRecordedThroughout(pre) {
        OnlyRecordedExactly(Run(pre).value, steps[|steps| - 1]);
      }
    }
  }

  /** Every task that is due was posted for the live buffer, so it frees only the buffer of its own session. */
  ghost predicate DueOwn(s: Session) {
    forall t :: t in s.due ==> s.buffer == Some(s.due[t])
  }

  /** A task left behind was posted for a buffer that the same step frees. */
  lemma OwnExactly(s: Session, step: Step)
    requires Owned(s) && Tracked(s) && Enabled(s, step) && OnlyRecordedDue(s)
    ensures DueOwn(Apply(s, step)) <==> !FailedCancel(s, step)
  {
    OnlyRecordedExactly(s, step);
    TrackedKept(s, step);
    OwnedKept(s, step);
  }

  ghost predicate OwnThroughout(steps: seq<Step>) {
    && (steps != [] ==> OwnThroughout(steps[..|steps| - 1]))
    && (Run(steps).Some? ==> DueOwn(Run(steps).value))
  }

  /**
    At every point of a run each clear task that is due frees only the buffer of
    the session that posted it, if and only if no cancellation fails in the run.
   */
  lemma {:induction false} OwnOverRuns(steps: seq<Step>)
    requires Run(steps).Some?
    ensures OwnThroughout(steps) <==> NoFailedCancel(steps)
  {
    if steps != [] {
      var pre := steps[..|steps| - 1];
      OwnOverRuns(pre);
      CancelledOverRuns(pre);
      Reachable(pre);
      if NoFailedCancel(pre) {
        OwnExactly(Run(pre).value, steps[|steps| - 1]);
      }
    }
  }

  /** When no cancellation fails, a clear task that is due was posted for the live buffer. */
  lemma TimerFreesOwnBuffer(steps: seq<Step>, task: nat)
    requires Run(steps).Some? && NoFailedCancel(steps) && task in Run(steps).value.due
    ensures Run(steps).value.buffer == Some(Run(steps).value.due[task])
  {
    OwnOverRuns(steps);
  }

  /** A clear task that could not be cancelled ends the next session while it is collecting; the queue is the same throughout. */
  lemma StaleTimerEndsNextSession()
    ensures var steps := [Start(true, true, true), Stop(true, true), Start(true, true, false)];
            && Run(steps).Some? && Run(steps).value.collectEnable && Run(steps).value.buffer == Some(1)
            && 0 in Run(steps).value.due && Run(steps).value.due[0] == 0
            && Apply(Run(steps).value, Timer(0, true)).freed == [0, 1]
  {
    var steps := [Start(true, true, true), Stop(true, true), Start(true, true, false)];
    var s1 := Session(true, Some(0), Some(map[CLEAR_TASK := 0]), 1, [], 1, map[0 := 0]);
    Reach(steps, 0, INITIAL, s1);
    var s2 := s1.(collectEnable := false);
    Reach(steps, 1, s1, s2);
    assert s2.handler.value - {CLEAR_TASK} == map[];
    assert Clear(s2, false) == Session(false, None, Some(map[]), 1, [0], 1, map[0 := 0]);
    var s3 := Session(true, Some(1), Some(map[CLEAR_TASK := 1]), 2, [0], 2, map[0 := 0, 1 := 1]);
    Reach(steps, 2, s2, s3);
  }

  lemma Reach(steps: seq<Step>, n: nat, s: Session, t: Session)
    requires n < |steps| && Run(steps[..n]) == Some(s) && Enabled(s, steps[n]) && Apply(s, steps[n]) == t
    ensures Run(steps[..n + 1]) == Some(t)
    ensures n + 1 == |steps| ==> steps[..n + 1] == steps
  {
    assert steps[..n + 1][..n] == steps[..n];
  }

  // ---------- The handler and the dumper ----------

  class FFRTHandler {
    var taskMap: TaskMap

    constructor ()
      ensures taskMap == map[]
    {
      taskMap := map[];
    }

    /** `handle` is what submitting the task gave; the delay in microseconds is checked not to exceed 64 bits. */
    method PostTask(name: string, delayTime: FfrtParser.uint64, handle: Option<nat>) returns (ok: bool)
      modifies this
      ensures ok <==> handle.Some? && delayTime * 1000 < 0x1_0000_0000_0000_0000
      ensures taskMap == if ok then old(taskMap)[name := handle.value] else old(taskMap)
    {
      if delayTime > (FfrtParser.TWO_64 - 1) / CONVERSION_FACTOR {
        return false;
      }
      if handle == None {
        return false;
      }
      taskMap := taskMap[name := handle.value];
      return true;
    }

    /** Cancels the named task in its queue, if it is recorded, and forgets it whether or not that succeeds. */
    method RemoveTask(name: string, ghost due: map<nat, nat>, ghost cancelled: bool) returns (ghost left: map<nat, nat>)
      modifies this
      ensures left == if name in old(taskMap) && cancelled then due - {old(taskMap)[name]} else due
      ensures taskMap == old(taskMap) - {name}
    {
      left := due;
      if name !in taskMap {
        assert taskMap - {name} == taskMap;
        return;
      }
      if cancelled {
        left := due - {taskMap[name]};
      }
      taskMap := taskMap - {name};
    }
  }

  class LocalAbilityManagerDumper {
    var collectEnable: bool
    var ffrtMetricBuffer: Option<nat>
    var handler: FFRTHandler?
    var allocations: nat
    var submitted: nat
    ghost var freed: seq<nat>
    ghost var due: map<nat, nat>

    ghost function View(): Session
      reads this, handler
    {
      Session(collectEnable, ffrtMetricBuffer, if handler == null then None else Some(handler.taskMap),
              allocations, freed, submitted, due)
    }

    constructor ()
      ensures View() == INITIAL
    {
      collectEnable, ffrtMetricBuffer, handler := false, None, null;
      allocations, submitted, freed, due := 0, 0, [], map[];
    }

    method ClearFfrtStatisticsBufferLocked(ghost cancelled: bool)
      modifies this, handler
      ensures View() == Clear(old(View()), cancelled) && handler == old(handler)
    {
      ghost var before := View();
      if ffrtMetricBuffer.Some? {
        freed := freed + [ffrtMetricBuffer.value];
        ffrtMetricBuffer := None;
      }
      if handler != null {
        ghost var tasks := handler.taskMap;
        due := handler.RemoveTask(CLEAR_TASK, due, cancelled);
        if CLEAR_TASK !in tasks {
          assert tasks - {CLEAR_TASK} == tasks;
        }
      }
    }

    method StartFfrtStatistics(dumped: bool, posted: bool, ghost cancelled: bool) returns (ok: bool)
      modifies this, handler
      ensures View() == Apply(old(View()), Start(dumped, posted, cancelled))
      ensures ok <==> !old(collectEnable) && dumped
      ensures handler == old(handler) || fresh(handler)
    {
      if collectEnable {
        return false;
      }
      ClearFfrtStatisticsBufferLocked(cancelled);
      ffrtMetricBuffer, allocations := Some(allocations), allocations + 1;
      if !dumped {
        ClearFfrtStatisticsBufferLocked(cancelled);
        return false;
      }
      collectEnable := true;
      PostClearTask(posted);
      return true;
    }

    method PostClearTask(posted: bool)
      requires ffrtMetricBuffer.Some?
      modifies this, handler
      ensures View() == Post(old(View()), posted)
      ensures handler == old(handler) || fresh(handler)
    {
      if handler == null {
        handler := new FFRTHandler();
      }
      var sent := handler.PostTask(CLEAR_TASK, DELAY_TIME, if posted then Some(submitted) else None);
      if posted {
        due, submitted := due[submitted := ffrtMetricBuffer.value], submitted + 1;
      }
    }

    method StopFfrtStatistics(dumped: bool, ghost cancelled: bool) returns (ok: bool)
      modifies this, handler
      ensures View() == Apply(old(View()), Stop(dumped, cancelled))
      ensures ok <==> old(collectEnable) && dumped
      ensures handler == old(handler)
    {
      if !collectEnable {
        return false;
      }
      collectEnable := false;
      if !dumped {
        ClearFfrtStatisticsBufferLocked(cancelled);
        return false;
      }
      return true;
    }

    /** A report is given only for a buffer whose collection has been stopped, and the buffer is then released. */
    method GetFfrtStatistics(records: seq<FfrtParser.Stat>, statSize: int, ghost cancelled: bool, ghost surviving: set<nat>)
      returns (report: Option<FfrtParser.Report>)
      requires |records| == 5000 && statSize > 0
      modifies this, handler
      ensures View() == Apply(old(View()), Get(cancelled, surviving))
      ensures report.Some? <==> !old(collectEnable) && old(ffrtMetricBuffer).Some?
      ensures report.Some? ==> FfrtParser.Reports(report.value, records)
      ensures handler == old(handler) || handler == null
    {
      if collectEnable {
        return None;
      }
      if ffrtMetricBuffer == None {
        return None;
      }
      var r := FfrtParser.FfrtStatisticsParser(records, statSize);
      ClearFfrtStatisticsBufferLocked(cancelled);
      handler := null;
      due := map t | t in due && t in surviving :: due[t];
      return Some(r);
    }

    /** The delayed task; ffrt is told to stop first if it is still collecting. */
    method ClearFfrtStatistics(ghost task: nat, ghost cancelled: bool)
      requires task in due
      modifies this, handler
      ensures View() == Apply(old(View()), Timer(task, cancelled))
      ensures handler == old(handler)
    {
      due := due - {task};
      if collectEnable {
        collectEnable := false;
      }
      ClearFfrtStatisticsBufferLocked(cancelled);
    }
  }
}
