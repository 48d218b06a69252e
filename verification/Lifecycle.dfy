/**
  The life of one system ability: NOT_LOADED, ACTIVE or IDLE.

  Every lifecycle call checks its guard in one section of abilityLock, runs its
  callback with the lock released and writes the new state in a second section.
  The model is a machine whose steps are these lock sections, so a run is any
  interleaving of any number of calls.  Calls are named by ids; a call made from
  inside a callback is one more call.
 */
module Lifecycle {
  import opened Options

  datatype AbilityState = NOT_LOADED | ACTIVE | IDLE

  /** Where a call that has begun is. */
  datatype Where = AtStartGuard | InOnStart | InOnIdle | InOnActive | InOnStop | AskingSamgr

  /** `registered` is the system ability manager's record of this ability's id. */
  datatype Ability = Ability(
    state: AbilityState, isRunning: bool, registered: bool, startLock: Option<int>, calls: map<int, Where>)

  const INITIAL := Ability(NOT_LOADED, false, false, None, map[])

  datatype Step =
    | Publish(ok: bool)              // the whole of Publish; ok when the manager accepted the id
    | StopAbility(removed: bool)     // removes the id at the manager, nothing else
    | LockStart(call: int)           // takes onStartLock_
    | GuardStart(call: int)
    | ReturnStart(call: int)         // OnStart has returned; releases onStartLock_
    | GuardIdle(call: int)
    | ReturnIdle(call: int, delay: int)
    | GuardActive(call: int)
    | ReturnActive(call: int)
    | GuardStop(call: int)
    | ReturnStop(call: int, removed: bool)
    | CheckIdle(call: int)           // CancelIdle looks at the state
    | CancelUnload(call: int, ok: bool)  // and, if it was IDLE, asks the manager with the lock released

  ghost predicate Inside(s: Ability, call: int, at: Where) {
    call in s.calls && s.calls[call] == at
  }

  ghost predicate Enabled(s: Ability, step: Step) {
    match step
    case Publish(_) => true
    case StopAbility(_) => true
    case LockStart(c) => c !in s.calls && s.startLock == None
    case GuardStart(c) => Inside(s, c, AtStartGuard)
    case ReturnStart(c) => Inside(s, c, InOnStart)
    case GuardIdle(c) => c !in s.calls
    case ReturnIdle(c, _) => Inside(s, c, InOnIdle)
    case GuardActive(c) => c !in s.calls
    case ReturnActive(c) => Inside(s, c, InOnActive)
    case GuardStop(c) => c !in s.calls
    case ReturnStop(c, _) => Inside(s, c, InOnStop)
    case CheckIdle(c) => c !in s.calls
    case CancelUnload(c, _) => Inside(s, c, AskingSamgr)
  }

  /** The callback a guard step starts when it passes. */
  ghost function Callback(step: Step): Option<Where> {
    match step
    case GuardStart(_) => Some(InOnStart)
    case GuardIdle(_) => Some(InOnIdle)
    case GuardActive(_) => Some(InOnActive)
    case GuardStop(_) => Some(InOnStop)
    case _ => None
  }

  predicate Passes(state: AbilityState, step: Step) {
    match step
    case GuardStart(_) => state == NOT_LOADED
    case GuardIdle(_) => state == ACTIVE
    case GuardActive(_) => state == IDLE
    case GuardStop(_) => state != NOT_LOADED
    case _ => false
  }

  /** The state a step writes, if it writes one. */
  function Write(step: Step): Option<AbilityState> {
    match step
    case Publish(ok) => if ok then Some(ACTIVE) else None
    case ReturnIdle(_, delay) => if delay == 0 then Some(IDLE) else None
    case ReturnActive(_) => Some(ACTIVE)
    case ReturnStop(_, _) => Some(NOT_LOADED)
    case _ => None
  }

  ghost function Enter(s: Ability, call: int, at: Where): Ability {
    s.(calls := s.calls[call := at])
  }

  ghost function Leave(s: Ability, call: int): Ability {
    s.(calls := s.calls - {call}, startLock := if s.startLock == Some(call) then None else s.startLock)
  }

  ghost function Apply(s: Ability, step: Step): Ability
    requires Enabled(s, step)
  {
    match step
    case Publish(ok) => if ok then s.(state := ACTIVE, registered := true) else s
    case StopAbility(removed) => s.(registered := s.registered && !removed)
    case LockStart(c) => Enter(s, c, AtStartGuard).(startLock := Some(c))
    case GuardStart(c) => if s.state != NOT_LOADED then Leave(s, c) else Enter(s, c, InOnStart)
    case ReturnStart(c) => Leave(s, c).(isRunning := true)
    case GuardIdle(c) => if s.state != ACTIVE then s else Enter(s, c, InOnIdle)
    case ReturnIdle(c, delay) => if delay == 0 then Leave(s, c).(state := IDLE) else Leave(s, c)
    case GuardActive(c) => if s.state != IDLE then s else Enter(s, c, InOnActive)
    case ReturnActive(c) => Leave(s, c).(state := ACTIVE)
    case GuardStop(c) => if s.state == NOT_LOADED then s else Enter(s, c, InOnStop)
    case ReturnStop(c, removed) =>
      Leave(s, c).(state := NOT_LOADED, isRunning := false, registered := s.registered && !removed)
    case CheckIdle(c) => if s.state != IDLE then s else Enter(s, c, AskingSamgr)
    case CancelUnload(c, _) => Leave(s, c)
  }

  ghost function RunFrom(s: Ability, steps: seq<Step>): Option<Ability> {
    if steps == [] then Some(s)
    else
      var before, step := RunFrom(s, steps[..|steps| - 1]), steps[|steps| - 1];
      if before.Some? && Enabled(before.value, step) then Some(Apply(before.value, step)) else None
  }

  ghost function Run(steps: seq<Step>): Option<Ability> {
    RunFrom(INITIAL, steps)
  }

  /** The state in which step `n` of a run is taken. */
  ghost function At(steps: seq<Step>, n: nat): Ability
    requires n <= |steps| && Run(steps[..n]).Some?
  {
    Run(steps[..n]).value
  }

  /** Step `n` passes its guard, so its callback begins there. */
  ghost predicate Begins(steps: seq<Step>, n: nat) {
    n < |steps| && Run(steps[..n]).Some? && Passes(At(steps, n).state, steps[n])
  }

  /** The step in which the callback `at` of `call` has returned. */
  ghost predicate Returns(step: Step, call: int, at: Where) {
    match at
    case AtStartGuard => false
    case InOnStart => step == ReturnStart(call)
    case InOnIdle => step.ReturnIdle? && step.call == call
    case InOnActive => step == ReturnActive(call)
    case InOnStop => step.ReturnStop? && step.call == call
    case AskingSamgr => false
  }

  lemma {:induction false} PrefixRuns(steps: seq<Step>, n: nat)
    requires Run(steps).Some? && n <= |steps|
    ensures Run(steps[..n]).Some?
    ensures n < |steps| ==> Enabled(At(steps, n), steps[n]) && Run(steps[..n + 1]) == Some(Apply(At(steps, n), steps[n]))
  {
    assert steps[..|steps|] == steps;
    if n < |steps| {
      var pre := steps[..|steps| - 1];
      PrefixRuns(pre, n);
      assert pre[..n] == steps[..n];
      if n < |pre| {
        assert pre[..n + 1] == steps[..n + 1];
      } else {
        assert steps[..n + 1] == steps && steps[..n] == pre;
      }
    }
  }

  // ---------- What holds on every interleaving ----------

  /** onStartLock_ is held by exactly the Start call that is between its first and its last step. */
  ghost predicate LockHeld(s: Ability) {
    && (forall c :: c in s.calls && IsStart(s.calls[c]) ==> s.startLock == Some(c))
    && (s.startLock.Some? ==> s.startLock.value in s.calls && IsStart(s.calls[s.startLock.value]))
  }

  ghost predicate IsStart(at: Where) {
    at == AtStartGuard || at == InOnStart
  }

  lemma LockKept(s: Ability, step: Step)
    requires Enabled(s, step) && LockHeld(s)
    ensures LockHeld(Apply(s, step))
  {
  }

  lemma {:induction false} LockAlwaysHeld(steps: seq<Step>)
    requires Run(steps).Some?
    ensures LockHeld(Run(steps).value)
  {
    if steps != [] {
      LockAlwaysHeld(steps[..|steps| - 1]);
      LockKept(Run(steps[..|steps| - 1]).value, steps[|steps| - 1]);
    }
  }

  lemma StaysInside(s: Ability, step: Step, call: int, at: Where)
    requires Enabled(s, step) && Inside(s, call, at) && at != AtStartGuard && at != AskingSamgr
    ensures Inside(Apply(s, step), call, at) || Returns(step, call, at)
  {
  }

  lemma EntersCallback(s: Ability, step: Step)
    requires Enabled(s, step) && Passes(s.state, step)
    ensures Inside(Apply(s, step), step.call, Callback(step).value)
  {
  }

  /** A callback that began at step `n` is over at step `m` only if it has returned in between. */
  lemma CallbackReturns(steps: seq<Step>, n: nat, m: nat) returns (k: nat)
    requires Run(steps).Some? && n < m <= |steps| && Begins(steps, n)
    requires Run(steps[..m]).Some? && !Inside(At(steps, m), steps[n].call, Callback(steps[n]).value)
    ensures n < k < m && Returns(steps[k], steps[n].call, Callback(steps[n]).value)
    decreases m - n
  {
    PrefixRuns(steps, m - 1);
    if m == n + 1 {
      EntersCallback(At(steps, n), steps[n]);
      assert false;
    } else if Inside(At(steps, m - 1), steps[n].call, Callback(steps[n]).value) {
      StaysInside(At(steps, m - 1), steps[m - 1], steps[n].call, Callback(steps[n]).value);
      k := m - 1;
    } else {
      k := CallbackReturns(steps, n, m - 1);
    }
  }

  /** Two executions of OnStart never overlap: the earlier has returned before the later begins. */
  lemma OnStartNeverOverlaps(steps: seq<Step>, i: nat, j: nat) returns (k: nat)
    requires Run(steps).Some? && i < j < |steps|
    requires steps[i].GuardStart? && Begins(steps, i) && steps[j].GuardStart? && Begins(steps, j)
    ensures i < k < j && steps[k] == ReturnStart(steps[i].call)
  {
    PrefixRuns(steps, j);
    LockAlwaysHeld(steps[..j]);
    k := CallbackReturns(steps, i, j);
  }

  /** The state that a history of steps leaves: that of its last write. */
  ghost function LastWrite(steps: seq<Step>): AbilityState {
    if steps == [] then NOT_LOADED
    else
      var last := Write(steps[|steps| - 1]);
      if last.Some? then last.value else LastWrite(steps[..|steps| - 1])
  }

  lemma {:induction false} StateIsLastWrite(steps: seq<Step>)
    requires Run(steps).Some?
    ensures Run(steps).value.state == LastWrite(steps)
  {
    if steps != [] {
      StateIsLastWrite(steps[..|steps| - 1]);
    }
  }

  lemma {:induction false} LastWriteSince(steps: seq<Step>, i: nat)
    requires i < |steps| && Write(steps[i]).Some?
    requires forall k :: i < k < |steps| ==> Write(steps[k]).None?
    ensures LastWrite(steps) == Write(steps[i]).value
  {
    if i < |steps| - 1 {
      LastWriteSince(steps[..|steps| - 1], i);
    }
  }

  lemma {:induction false} LastWriteIndex(steps: seq<Step>) returns (i: nat)
    requires LastWrite(steps) != NOT_LOADED
    ensures i < |steps| && Write(steps[i]) == Some(LastWrite(steps))
    ensures forall k :: i < k < |steps| ==> Write(steps[k]).None?
  {
    if Write(steps[|steps| - 1]).Some? {
      i := |steps| - 1;
    } else {
      i := LastWriteIndex(steps[..|steps| - 1]);
      assert forall k :: i < k < |steps| - 1 ==> steps[k] == steps[..|steps| - 1][k];
    }
  }

  // The state by the index of its last write.

  ghost predicate Writes(step: Step) {
    step == Publish(true) || step.ReturnActive? || step.ReturnStop? || (step.ReturnIdle? && step.delay == 0)
  }

  ghost predicate LastWriteAt(steps: seq<Step>, i: nat) {
    i < |steps| && Writes(steps[i]) && forall k :: i < k < |steps| ==> !Writes(steps[k])
  }

  ghost predicate Unwritten(steps: seq<Step>) {
    forall k :: 0 <= k < |steps| ==> !Writes(steps[k])
  }

  lemma {:induction false} StateAfterLast(steps: seq<Step>) returns (i: nat)
    requires Run(steps).Some?
    ensures Unwritten(steps) ==> Run(steps).value.state == NOT_LOADED
    ensures !Unwritten(steps) ==> LastWriteAt(steps, i)
    ensures !Unwritten(steps) ==>
      Run(steps).value.state == if steps[i].ReturnStop? then NOT_LOADED else if steps[i].ReturnIdle? then IDLE else ACTIVE
  {
    i := 0;
    if steps != [] {
      var n := |steps| - 1;
      i := StateAfterLast(steps[..n]);
      if Writes(steps[n]) {
        i := n;
      } else {
        assert forall k :: 0 <= k < n ==> steps[k] == steps[..n][k];
      }
    }
  }

  /** Over every interleaving, the state is that of the last write, and NOT_LOADED before the first. */
  lemma StateExactly(steps: seq<Step>)
    requires Run(steps).Some?
    ensures var state := Run(steps).value.state;
            && (state == NOT_LOADED <==> Unwritten(steps) || exists i: nat :: LastWriteAt(steps, i) && steps[i].ReturnStop?)
            && (state == IDLE <==> exists i: nat :: LastWriteAt(steps, i) && steps[i].ReturnIdle?)
            && (state == ACTIVE <==> exists i: nat :: LastWriteAt(steps, i) && (steps[i] == Publish(true) || steps[i].ReturnActive?))
  {
    var last := StateAfterLast(steps);
    forall i: nat | LastWriteAt(steps, i) ensures i == last {
      assert !Unwritten(steps);
    }
  }

  /**
    Over every interleaving, when each guard passes: Start's while nothing has been
    written or the last write is a Stop's, Idle's after a Publish or an Active's
    write, Active's after an Idle's, Stop's after any but a Stop's.
   */
  lemma GuardsExactly(steps: seq<Step>, j: nat)
    requires Run(steps).Some? && j < |steps|
    ensures var pre := steps[..j];
            && (steps[j].GuardStart? ==> (Begins(steps, j) <==> Unwritten(pre) || exists i: nat :: LastWriteAt(pre, i) && pre[i].ReturnStop?))
            && (steps[j].GuardIdle? ==>
                  (Begins(steps, j) <==> exists i: nat :: LastWriteAt(pre, i) && (pre[i] == Publish(true) || pre[i].ReturnActive?)))
            && (steps[j].GuardActive? ==> (Begins(steps, j) <==> exists i: nat :: LastWriteAt(pre, i) && pre[i].ReturnIdle?))
            && (steps[j].GuardStop? ==> (Begins(steps, j) <==> exists i: nat :: LastWriteAt(pre, i) && !pre[i].ReturnStop?))
  {
    PrefixRuns(steps, j);
    StateExactly(steps[..j]);
  }

  /** isRunning_ by history: a Start has returned and no Stop has since. */
  ghost predicate RunningSince(steps: seq<Step>, i: nat) {
    i < |steps| && steps[i].ReturnStart? && forall k :: i < k < |steps| ==> !steps[k].ReturnStop?
  }

  lemma {:induction false} RunningExactly(steps: seq<Step>)
    requires Run(steps).Some?
    ensures Run(steps).value.isRunning <==> exists i: nat :: RunningSince(steps, i)
  {
    if steps != [] {
      var n := |steps| - 1;
      var pre := steps[..n];
      RunningExactly(pre);
      if steps[n].ReturnStart? {
        assert RunningSince(steps, n);
      } else if !steps[n].ReturnStop? {
        forall i: nat ensures RunningSince(steps, i) <==> RunningSince(pre, i) {
          assert i < n ==> steps[i] == pre[i];
          assert forall k :: i < k < n ==> steps[k] == pre[k];
        }
      }
    }
  }

  /** Registered by history: published, and not removed since by a Stop or by StopAbility. */
  ghost predicate RegisteredSince(steps: seq<Step>, i: nat) {
    && i < |steps| && steps[i] == Publish(true)
    && forall k :: i < k < |steps| ==> !Removes(steps[k])
  }

  ghost predicate Removes(step: Step) {
    (step.ReturnStop? || step.StopAbility?) && step.removed
  }

  lemma {:induction false} RegisteredExactly(steps: seq<Step>)
    requires Run(steps).Some?
    ensures Run(steps).value.registered <==> exists i: nat :: RegisteredSince(steps, i)
  {
    if steps != [] {
      var n := |steps| - 1;
      var pre := steps[..n];
      RegisteredExactly(pre);
      if steps[n] == Publish(true) {
        assert RegisteredSince(steps, n);
      } else if !Removes(steps[n]) {
        forall i: nat ensures RegisteredSince(steps, i) <==> RegisteredSince(pre, i) {
          assert i < n ==> steps[i] == pre[i];
          assert forall k :: i < k < n ==> steps[k] == pre[k];
        }
      }
    }
  }

  /** After a successful Publish no Start passes its guard until some Stop has written NOT_LOADED. */
  lemma {:induction false} StartWaitsForStop(steps: seq<Step>, i: nat, j: nat) returns (k: nat)
    requires Run(steps).Some? && i < j < |steps|
    requires steps[i] == Publish(true) && steps[j].GuardStart? && Begins(steps, j)
    ensures i < k < j && steps[k].ReturnStop?
  {
    PrefixRuns(steps, j);
    k := UnloadedBy(steps, i, j);
  }

  lemma {:induction false} UnloadedBy(steps: seq<Step>, i: nat, j: nat) returns (k: nat)
    requires Run(steps).Some? && i < j <= |steps| && steps[i] == Publish(true)
    requires Run(steps[..j]).Some? && At(steps, j).state == NOT_LOADED
    ensures i < k < j && steps[k].ReturnStop?
    decreases j
  {
    PrefixRuns(steps, j - 1);
    if steps[j - 1].ReturnStop? {
      k := j - 1;
    } else {
      k := UnloadedBy(steps, i, j - 1);
    }
  }

  /** OnActive begins only after an OnIdle that returned 0, with no write of the state in between. */
  lemma OnActiveFollowsIdle(steps: seq<Step>, j: nat) returns (i: nat)
    requires Run(steps).Some? && j < |steps| && steps[j].GuardActive? && Begins(steps, j)
    ensures i < j && steps[i].ReturnIdle? && steps[i].delay == 0
    ensures forall k :: i < k < j ==> Write(steps[k]).None?
  {
    StateIsLastWrite(steps[..j]);
    i := LastWriteIndex(steps[..j]);
    assert forall k :: 0 <= k < j ==> steps[k] == steps[..j][k];
  }

  /** Conversely, after such an OnIdle an Active call does run OnActive. */
  lemma IdleAllowsOnActive(steps: seq<Step>, i: nat, j: nat)
    requires Run(steps).Some? && i < j < |steps| && steps[j].GuardActive?
    requires steps[i].ReturnIdle? && steps[i].delay == 0
    requires forall k :: i < k < j ==> Write(steps[k]).None?
    ensures Begins(steps, j)
  {
    PrefixRuns(steps, j);
    StateIsLastWrite(steps[..j]);
    LastWriteSince(steps[..j], i);
  }

  /** The callback that began at step `n` is still running at step `m`. */
  ghost predicate StillOpen(steps: seq<Step>, n: nat, m: nat) {
    && m <= |steps| && Run(steps[..m]).Some?
    && Begins(steps, n) && Inside(At(steps, m), steps[n].call, Callback(steps[n]).value)
  }

  /** No OnActive and no OnStop begins after step `i` and before step `j`. */
  ghost predicate NoneBegunBetween(steps: seq<Step>, i: nat, j: nat) {
    forall k :: i < k < j && Begins(steps, k) ==> !steps[k].GuardActive? && !steps[k].GuardStop?
  }

  /**
    Over every interleaving: after the OnIdle that allowed it, an OnActive is the
    first OnActive or OnStop to begin if and only if none begun since that OnIdle
    is still running.
   */
  lemma OnActiveExactly(steps: seq<Step>, i: nat, j: nat)
    requires Run(steps).Some? && i < j < |steps| && steps[j].GuardActive? && Begins(steps, j)
    requires steps[i].ReturnIdle? && steps[i].delay == 0 && forall k :: i < k < j ==> Write(steps[k]).None?
    ensures NoneBegunBetween(steps, i, j) <==>
      forall k :: i < k < j && StillOpen(steps, k, j) ==> !steps[k].GuardActive? && !steps[k].GuardStop?
  {
    forall k | i < k < j && Begins(steps, k) && (steps[k].GuardActive? || steps[k].GuardStop?)
      ensures StillOpen(steps, k, j)
    {
      if !StillOpen(steps, k, j) {
        var m := CallbackReturns(steps, k, j);
        assert false;
      }
    }
  }

  /**
    Over every interleaving: since a successful Publish that no Stop has answered,
    no OnStop has begun if and only if none begun since is still running.
   */
  lemma NoStopSincePublishExactly(steps: seq<Step>, i: nat, j: nat)
    requires Run(steps).Some? && i < j <= |steps| && Run(steps[..j]).Some?
    requires steps[i] == Publish(true) && forall k :: i < k < j ==> !steps[k].ReturnStop?
    ensures (forall k :: i < k < j && Begins(steps, k) ==> !steps[k].GuardStop?) <==>
      forall k :: i < k < j && StillOpen(steps, k, j) ==> !steps[k].GuardStop?
  {
    forall k | i < k < j && Begins(steps, k) && steps[k].GuardStop? ensures StillOpen(steps, k, j) {
      if !StillOpen(steps, k, j) {
        var m := CallbackReturns(steps, k, j);
        assert false;
      }
    }
  }

  // ---------- CancelIdle ----------

  /** CancelIdle asks the manager only if, when it looked, the last write was an OnIdle that returned 0. */
  lemma CancelIdleFollowsIdle(steps: seq<Step>, j: nat) returns (i: nat, k: nat)
    requires Run(steps).Some? && j < |steps| && steps[j].CancelUnload?
    ensures i < k < j && steps[k] == CheckIdle(steps[j].call)
    ensures steps[i].ReturnIdle? && steps[i].delay == 0
    ensures forall m :: i < m < k ==> Write(steps[m]).None?
  {
    PrefixRuns(steps, j);
    k := AskedAt(steps, steps[j].call, j);
    StateIsLastWrite(steps[..k]);
    i := LastWriteIndex(steps[..k]);
    assert forall m :: 0 <= m < k ==> steps[m] == steps[..k][m];
  }

  lemma AskedAt(steps: seq<Step>, call: int, j: nat) returns (k: nat)
    requires Run(steps).Some? && j <= |steps| && Run(steps[..j]).Some? && Inside(At(steps, j), call, AskingSamgr)
    ensures k < j && steps[k] == CheckIdle(call) && Run(steps[..k]).Some? && At(steps, k).state == IDLE
    decreases j
  {
    assert steps[..0] == [];
    PrefixRuns(steps, j - 1);
    if Inside(At(steps, j - 1), call, AskingSamgr) {
      k := AskedAt(steps, call, j - 1);
    } else {
      k := j - 1;
    }
  }

  /** Step `m` wakes the ability: a successful Publish, an Active's or a Stop's write, with no later OnIdle that returned 0. */
  ghost predicate Wakes(steps: seq<Step>, k: nat, m: nat) {
    && k <= m < |steps|
    && (steps[m] == Publish(true) || steps[m].ReturnActive? || steps[m].ReturnStop?)
    && forall n :: m < n < |steps| ==> !(steps[n].ReturnIdle? && steps[n].delay == 0)
  }

  /** When CancelIdle reaches the manager the ability is still IDLE if and only if no step since CancelIdle looked has woken it. */
  lemma {:induction false} StillIdleExactly(steps: seq<Step>, k: nat)
    requires Run(steps).Some? && k <= |steps| && Run(steps[..k]).Some? && At(steps, k).state == IDLE
    ensures Run(steps).value.state == IDLE <==> !exists m: nat :: Wakes(steps, k, m)
  {
    if k < |steps| {
      var n := |steps| - 1;
      var pre := steps[..n];
      assert pre[..k] == steps[..k];
      StillIdleExactly(pre, k);
      StateIsLastWrite(steps);
      StateIsLastWrite(pre);
      if Write(steps[n]) == None {
        forall m: nat ensures Wakes(steps, k, m) <==> Wakes(pre, k, m) {
          SameWake(steps, k, m);
        }
      } else if steps[n].ReturnIdle? {
        assert forall m: nat :: Wakes(steps, k, m) ==> m < n;
      } else {
        assert Wakes(steps, k, n);
      }
    } else {
      assert steps[..k] == steps;
    }
  }

  lemma SameWake(steps: seq<Step>, k: nat, m: nat)
    requires steps != [] && Write(steps[|steps| - 1]) == None
    ensures Wakes(steps, k, m) <==> Wakes(steps[..|steps| - 1], k, m)
  {
    var pre := steps[..|steps| - 1];
    if Wakes(pre, k, m) {
      assert forall n :: m < n < |pre| ==> steps[n] == pre[n];
    }
  }

  /** Registered at the manager means loaded. */
  ghost predicate RegisteredIsLoaded(s: Ability) {
    s.registered ==> s.state != NOT_LOADED
  }

  /** A Stop whose removal at the manager fails although the ability is registered. */
  ghost predicate FailedRemoval(s: Ability, step: Step) {
    step.ReturnStop? && !step.removed && s.registered
  }

  /** One step, from any state: exactly a failed removal breaks the agreement, however Idle and Active race. */
  lemma RegistrationExactly(s: Ability, step: Step)
    requires Enabled(s, step) && RegisteredIsLoaded(s)
    ensures RegisteredIsLoaded(Apply(s, step)) <==> !FailedRemoval(s, step)
  {
  }

  ghost predicate RegisteredThroughout(steps: seq<Step>) {
    && (steps != [] ==> RegisteredThroughout(steps[..|steps| - 1]))
    && (Run(steps).Some? ==> RegisteredIsLoaded(Run(steps).value))
  }

  ghost predicate NoFailedRemoval(steps: seq<Step>) {
    if steps == [] then true
    else
      var pre := steps[..|steps| - 1];
      NoFailedRemoval(pre) && (Run(pre).Some? ==> !FailedRemoval(Run(pre).value, steps[|steps| - 1]))
  }

  /** Over every interleaving: the implication holds at every point of a run if and only if no removal fails in it. */
  lemma {:induction false} RegistrationOverRuns(steps: seq<Step>)
    requires Run(steps).Some?
    ensures RegisteredThroughout(steps) <==> NoFailedRemoval(steps)
  {
    if steps != [] {
      var pre := steps[..|steps| - 1];
      RegistrationOverRuns(pre);
      if RegisteredThroughout(pre) {
        RegistrationExactly(Run(pre).value, steps[|steps| - 1]);
      }
    }
  }

  ghost predicate RemovalsSucceed(steps: seq<Step>) {
    forall step :: step in steps && step.ReturnStop? ==> step.removed
  }

  lemma {:induction false} RegisteredImpliesLoaded(steps: seq<Step>)
    requires Run(steps).Some? && RemovalsSucceed(steps)
    ensures NoFailedRemoval(steps) && RegisteredIsLoaded(Run(steps).value)
  {
    if steps != [] {
      RegisteredImpliesLoaded(steps[..|steps| - 1]);
      assert steps[|steps| - 1] in steps;
    }
    RegistrationOverRuns(steps);
  }

  // ---------- Calls that do not overlap ----------

  /** The first step of a lifecycle call. */
  ghost predicate Opens(step: Step) {
    step.LockStart? || step.GuardIdle? || step.GuardActive? || step.GuardStop?
  }

  /** No lifecycle call is open; CancelIdle is not one of them. */
  ghost predicate NoneOpen(s: Ability) {
    forall c :: c in s.calls ==> s.calls[c] == AskingSamgr
  }

  /** Lifecycle calls do not overlap; Publish and CancelIdle may happen at any time, also inside a callback. */
  ghost predicate Sequential(steps: seq<Step>) {
    if steps == [] then true
    else
      var pre := steps[..|steps| - 1];
      && Sequential(pre)
      && (Opens(steps[|steps| - 1]) && Run(pre).Some? ==> NoneOpen(Run(pre).value))
  }

  /** At most one call is open, and the ability stays loaded while a callback other than OnStart runs. */
  ghost predicate OneCall(s: Ability) {
    && (forall c, d :: c in s.calls && d in s.calls && s.calls[c] != AskingSamgr && s.calls[d] != AskingSamgr ==> c == d)
    && (forall c :: c in s.calls && !IsStart(s.calls[c]) && s.calls[c] != AskingSamgr ==> s.state != NOT_LOADED)
  }

  /** The history says loaded: a successful Publish not yet followed by a Stop. */
  ghost function Loads(loaded: bool, step: Step): bool {
    if step.ReturnStop? then false else loaded || step == Publish(true)
  }

  ghost predicate Loaded(steps: seq<Step>) {
    steps != [] && Loads(Loaded(steps[..|steps| - 1]), steps[|steps| - 1])
  }

  /** An Idle or Active call that writes its state after a Stop has already unloaded the ability. */
  ghost predicate LateWrite(s: Ability, step: Step) {
    s.state == NOT_LOADED && (step.ReturnActive? || (step.ReturnIdle? && step.delay == 0))
  }

  /** One step, from any state: the state agrees with the history unless the step is a late write. */
  lemma LoadedExactly(s: Ability, loaded: bool, step: Step)
    requires Enabled(s, step) && (loaded <==> s.state != NOT_LOADED)
    ensures (Loads(loaded, step) <==> Apply(s, step).state != NOT_LOADED) <==> !LateWrite(s, step)
  {
  }

  lemma OneCallKept(s: Ability, step: Step)
    requires Enabled(s, step) && OneCall(s) && (Opens(step) ==> NoneOpen(s))
    ensures OneCall(Apply(s, step)) && !LateWrite(s, step)
  {
  }

  ghost predicate LoadedThroughout(steps: seq<Step>) {
    && (steps != [] ==> LoadedThroughout(steps[..|steps| - 1]))
    && (Run(steps).Some? ==> (Run(steps).value.state != NOT_LOADED <==> Loaded(steps)))
  }

  ghost predicate NoLateWrite(steps: seq<Step>) {
    if steps == [] then true
    else
      var pre := steps[..|steps| - 1];
      NoLateWrite(pre) && (Run(pre).Some? ==> !LateWrite(Run(pre).value, steps[|steps| - 1]))
  }

  /** Over every interleaving: state and history agree at every point of a run if and only if no write in it is late. */
  lemma {:induction false} LoadedOverRuns(steps: seq<Step>)
    requires Run(steps).Some?
    ensures LoadedThroughout(steps) <==> NoLateWrite(steps)
  {
    if steps != [] {
      var pre := steps[..|steps| - 1];
      LoadedOverRuns(pre);
      if LoadedThroughout(pre) {
        LoadedExactly(Run(pre).value, Loaded(pre), steps[|steps| - 1]);
      }
    }
  }

  /** Without a late write OnIdle and OnStop begin only after a successful Publish that no Stop has answered. */
  lemma OnIdleOnStopFollowPublish(steps: seq<Step>, j: nat) returns (i: nat)
    requires Run(steps).Some? && j < |steps| && NoLateWrite(steps[..j])
    requires (steps[j].GuardIdle? || steps[j].GuardStop?) && Begins(steps, j)
    ensures i < j && steps[i] == Publish(true)
    ensures forall k :: i < k < j ==> !steps[k].ReturnStop?
  {
    LoadedOverRuns(steps[..j]);
    i := LoadedIndex(steps[..j]);
    assert forall k :: 0 <= k < j ==> steps[k] == steps[..j][k];
  }

  /** Calls that do not overlap make no late write, so the ability is loaded exactly when the history says so. */
  lemma {:induction false} SequentialLoaded(steps: seq<Step>)
    requires Run(steps).Some? && Sequential(steps)
    ensures OneCall(Run(steps).value) && NoLateWrite(steps)
    ensures Run(steps).value.state != NOT_LOADED <==> Loaded(steps)
  {
    if steps != [] {
      var pre, step := steps[..|steps| - 1], steps[|steps| - 1];
      SequentialLoaded(pre);
      OneCallKept(Run(pre).value, step);
    }
    LoadedOverRuns(steps);
  }

  lemma {:induction false} LoadedIndex(steps: seq<Step>) returns (i: nat)
    requires Loaded(steps)
    ensures i < |steps| && steps[i] == Publish(true)
    ensures forall k :: i < k < |steps| ==> !steps[k].ReturnStop?
  {
    if steps[|steps| - 1] == Publish(true) {
      i := |steps| - 1;
    } else {
      i := LoadedIndex(steps[..|steps| - 1]);
      assert forall k :: i < k < |steps| - 1 ==> steps[k] == steps[..|steps| - 1][k];
    }
  }

  lemma {:induction false} SequentialPrefix(steps: seq<Step>, n: nat)
    requires Sequential(steps) && n <= |steps|
    ensures Sequential(steps[..n])
    ensures n < |steps| && Opens(steps[n]) && Run(steps[..n]).Some? ==> NoneOpen(Run(steps[..n]).value)
  {
    if n < |steps| {
      var pre := steps[..|steps| - 1];
      SequentialPrefix(pre, n);
      assert pre[..n] == steps[..n];
    } else {
      assert steps[..n] == steps;
    }
  }

  /**
    Grammar of OnActive when calls do not overlap: only after an OnIdle that
    returned 0, with no later successful Publish and no OnActive or OnStop begun
    or finished in between.
   */
  lemma OnActiveGrammar(steps: seq<Step>, j: nat) returns (i: nat)
    requires Run(steps).Some? && Sequential(steps) && j < |steps| && steps[j].GuardActive? && Begins(steps, j)
    ensures i < j && steps[i].ReturnIdle? && steps[i].delay == 0
    ensures forall k :: i < k < j ==> steps[k] != Publish(true) && !steps[k].ReturnActive? && !steps[k].ReturnStop?
    ensures forall k :: i < k < j && Begins(steps, k) ==> !steps[k].GuardActive? && !steps[k].GuardStop?
  {
    i := OnActiveFollowsIdle(steps, j);
    SequentialPrefix(steps, j);
    OnActiveExactly(steps, i, j);
  }

  /** Grammar of OnIdle and OnStop when calls do not overlap: only after a successful Publish not yet followed by an OnStop. */
  lemma OnIdleOnStopGrammar(steps: seq<Step>, j: nat) returns (i: nat)
    requires Run(steps).Some? && Sequential(steps) && j < |steps|
    requires (steps[j].GuardIdle? || steps[j].GuardStop?) && Begins(steps, j)
    ensures i < j && steps[i] == Publish(true)
    ensures forall k :: i < k < j ==> !steps[k].ReturnStop?
    ensures forall k :: i < k < j && Begins(steps, k) ==> !steps[k].GuardStop?
  {
    SequentialPrefix(steps, j);
    SequentialLoaded(steps[..j]);
    i := OnIdleOnStopFollowPublish(steps, j);
    NoStopSincePublishExactly(steps, i, j);
  }

  /** Grammar of OnStart: a Start that reaches its guard runs OnStart exactly when the history says not loaded. */
  lemma OnStartGrammar(steps: seq<Step>, j: nat)
    requires Run(steps).Some? && Sequential(steps) && j < |steps| && steps[j].GuardStart?
    ensures Begins(steps, j) <==> !Loaded(steps[..j])
  {
    PrefixRuns(steps, j);
    SequentialPrefix(steps, j);
    SequentialLoaded(steps[..j]);
  }

  // ---------- What overlap and failure break ----------

  lemma Extend(steps: seq<Step>, n: nat, s: Ability)
    requires n < |steps| && Run(steps[..n]) == Some(s) && Enabled(s, steps[n])
    ensures Run(steps[..n + 1]) == Some(Apply(s, steps[n]))
    ensures n + 1 == |steps| ==> steps[..n + 1] == steps
  {
    assert steps[..n + 1][..n] == steps[..n];
  }

  lemma Reach(steps: seq<Step>, n: nat, s: Ability, t: Ability)
    requires n < |steps| && Run(steps[..n]) == Some(s) && Enabled(s, steps[n])
    requires Apply(s, steps[n]).(calls := t.calls) == t && Apply(s, steps[n]).calls == t.calls
    ensures Run(steps[..n + 1]) == Some(t)
    ensures n + 1 == |steps| ==> steps[..n + 1] == steps
  {
    Extend(steps, n, s);
  }

  /** Two overlapping Active calls both run OnActive after a single OnIdle. */
  lemma OverlappingActives(i: int, a: int, b: int)
    requires a != b
    ensures var steps := [Publish(true), GuardIdle(i), ReturnIdle(i, 0), GuardActive(a), GuardActive(b)];
            && Run(steps).Some? && Begins(steps, 3) && Begins(steps, 4)
            && Inside(Run(steps).value, a, InOnActive) && Inside(Run(steps).value, b, InOnActive)
  {
    var steps := [Publish(true), GuardIdle(i), ReturnIdle(i, 0), GuardActive(a), GuardActive(b)];
    IdleReached(steps, i);
    var s3 := Ability(IDLE, false, true, None, map[]);
    Extend(steps, 3, s3);
    Extend(steps, 4, Apply(s3, steps[3]));
  }

  /** Two overlapping Stop calls both run OnStop after a single Publish. */
  lemma OverlappingStops(a: int, b: int)
    requires a != b
    ensures var steps := [Publish(true), GuardStop(a), GuardStop(b)];
            && Run(steps).Some? && Begins(steps, 1) && Begins(steps, 2) && StillOpen(steps, 1, 2)
  {
    var steps := [Publish(true), GuardStop(a), GuardStop(b)];
    var s1 := Apply(INITIAL, steps[0]);
    Extend(steps, 0, INITIAL);
    Extend(steps, 1, s1);
    Extend(steps, 2, Apply(s1, steps[1]));
  }

  /** An Active that overlaps CancelIdle: the manager is asked to cancel the unloading of an ACTIVE ability. */
  lemma CancelIdleOutrun(i: int, c: int, a: int)
    requires a != c
    ensures var steps := [Publish(true), GuardIdle(i), ReturnIdle(i, 0), CheckIdle(c), GuardActive(a), ReturnActive(a)];
            && Run(steps) == Some(Ability(ACTIVE, false, true, None, map[c := AskingSamgr]))
            && Enabled(Run(steps).value, CancelUnload(c, true))
  {
    var steps := [Publish(true), GuardIdle(i), ReturnIdle(i, 0), CheckIdle(c), GuardActive(a), ReturnActive(a)];
    IdleReached(steps, i);
    var s3 := Ability(IDLE, false, true, None, map[]);
    var s4 := s3.(calls := map[c := AskingSamgr]);
    Reach(steps, 3, s3, s4);
    Reach(steps, 4, s4, s4.(calls := map[c := AskingSamgr, a := InOnActive]));
    Reach(steps, 5, s4.(calls := map[c := AskingSamgr, a := InOnActive]), s4.(state := ACTIVE));
  }

  lemma IdleReached(steps: seq<Step>, i: int)
    requires |steps| > 3 && steps[0] == Publish(true) && steps[1] == GuardIdle(i) && steps[2] == ReturnIdle(i, 0)
    ensures Run(steps[..3]) == Some(Ability(IDLE, false, true, None, map[]))
  {
    var s1 := Ability(ACTIVE, false, true, None, map[]);
    Reach(steps, 0, INITIAL, s1);
    Reach(steps, 1, s1, s1.(calls := map[i := InOnIdle]));
    Reach(steps, 2, s1.(calls := map[i := InOnIdle]), s1.(state := IDLE));
  }

  /** An Idle that overlaps a Stop leaves an unregistered ability IDLE, and the next Start is refused. */
  lemma LateIdleBlocksStart(i: int, p: int, c: int)
    requires i != p
    ensures var steps := [Publish(true), GuardIdle(i), GuardStop(p), ReturnStop(p, true), ReturnIdle(i, 0), LockStart(c), GuardStart(c)];
            && Run(steps) == Some(Ability(IDLE, false, false, None, map[]))
            && !Begins(steps, 6) && !Loaded(steps)
  {
    var steps := [Publish(true), GuardIdle(i), GuardStop(p), ReturnStop(p, true), ReturnIdle(i, 0), LockStart(c), GuardStart(c)];
    StopInsideIdle(steps, i, p);
    var idle := Ability(IDLE, false, false, None, map[]);
    Reach(steps, 4, Ability(NOT_LOADED, false, false, None, map[i := InOnIdle]), idle);
    var locked := Ability(IDLE, false, false, Some(c), map[c := AtStartGuard]);
    Reach(steps, 5, idle, locked);
    Reach(steps, 6, locked, idle);
    NotLoadedSinceStop(steps, 3);
  }

  lemma StopInsideIdle(steps: seq<Step>, i: int, p: int)
    requires i != p && |steps| > 4
    requires steps[0] == Publish(true) && steps[1] == GuardIdle(i) && steps[2] == GuardStop(p) && steps[3] == ReturnStop(p, true)
    ensures Run(steps[..4]) == Some(Ability(NOT_LOADED, false, false, None, map[i := InOnIdle]))
  {
    var s1 := Ability(ACTIVE, false, true, None, map[]);
    Reach(steps, 0, INITIAL, s1);
    var s2 := s1.(calls := map[i := InOnIdle]);
    Reach(steps, 1, s1, s2);
    var s3 := s1.(calls := map[i := InOnIdle, p := InOnStop]);
    Reach(steps, 2, s2, s3);
    Reach(steps, 3, s3, Ability(NOT_LOADED, false, false, None, map[i := InOnIdle]));
  }

  lemma {:induction false} NotLoadedSinceStop(steps: seq<Step>, i: nat)
    requires i < |steps| && steps[i].ReturnStop? && forall k :: i < k < |steps| ==> steps[k] != Publish(true)
    ensures !Loaded(steps)
  {
    if i < |steps| - 1 {
      NotLoadedSinceStop(steps[..|steps| - 1], i);
    }
  }

  /** A Stop whose removal fails leaves the ability registered and NOT_LOADED. */
  lemma FailedRemovalLeavesRegistration(p: int)
    ensures Run([Publish(true), GuardStop(p), ReturnStop(p, false)]) == Some(Ability(NOT_LOADED, false, true, None, map[]))
  {
    var steps := [Publish(true), GuardStop(p), ReturnStop(p, false)];
    var s1 := Apply(INITIAL, steps[0]);
    Extend(steps, 0, INITIAL);
    var s2 := Apply(s1, steps[1]);
    Extend(steps, 1, s1);
    Extend(steps, 2, s2);
    assert Apply(s2, steps[2]).calls == map[];
  }

  // ---------- The calls themselves ----------

  const ERR_OK := 0

  /** The steps of a callback whose Publish calls have the given outcomes. */
  ghost function Publishes(outcomes: seq<bool>): seq<Step> {
    seq(|outcomes|, i requires 0 <= i < |outcomes| => Publish(outcomes[i]))
  }

  lemma PublishesMore(before: seq<Step>, outcomes: seq<bool>, i: nat)
    requires i < |outcomes|
    ensures before + Publishes(outcomes[..i + 1]) == before + Publishes(outcomes[..i]) + [Publish(outcomes[i])]
  {
    assert Publishes(outcomes[..i + 1]) == Publishes(outcomes[..i]) + [Publish(outcomes[i])];
  }

  /**
    Each method is one whole call, with the callback given by what it does: the
    outcomes of the Publish calls it makes and the value it returns.  Each is
    proved to be a run of the machine above, whatever other calls are open.
   */
  class SystemAbility {
    var abilityState: AbilityState
    var isRunning: bool
    var registered: bool
    var publishObj: Option<int>
    ghost var startLock: Option<int>
    ghost var calls: map<int, Where>

    ghost function View(): Ability
      reads this
    {
      Ability(abilityState, isRunning, registered, startLock, calls)
    }

    constructor ()
      ensures View() == INITIAL && publishObj == None
    {
      abilityState, isRunning, registered, publishObj := NOT_LOADED, false, false, None;
      startLock, calls := None, map[];
    }

    /** The object is kept even when publishing fails; the manager is asked only when there is a proxy to it. */
    method Publish(remote: Option<int>, proxy: bool, result: int) returns (ok: bool)
      modifies this
      ensures ok <==> remote.Some? && proxy && result == ERR_OK
      ensures View() == Apply(old(View()), Step.Publish(ok))
      ensures publishObj == if remote.Some? then remote else old(publishObj)
    {
      if remote == None {
        return false;
      }
      publishObj := remote;
      if !proxy {
        return false;
      }
      if result == ERR_OK {
        registered := true;
        abilityState := ACTIVE;
        return true;
      }
      return false;
    }

    /** A callback that makes Publish calls, appended to the run so far. */
    method Callback(outcomes: seq<bool>, remote: int, ghost from: Ability, ghost before: seq<Step>)
      returns (ghost run: seq<Step>)
      requires RunFrom(from, before) == Some(View())
      modifies this
      ensures run == before + Publishes(outcomes) && RunFrom(from, run) == Some(View())
      ensures calls == old(calls) && startLock == old(startLock)
    {
      run := before;
      for i := 0 to |outcomes|
        invariant run == before + Publishes(outcomes[..i]) && RunFrom(from, run) == Some(View())
        invariant calls == old(calls) && startLock == old(startLock)
      {
        ghost var s := View();
        var ok := Publish(Some(remote), outcomes[i], ERR_OK);
        run := Append(from, run, s, Step.Publish(ok));
        PublishesMore(before, outcomes, i);
      }
      assert outcomes[..|outcomes|] == outcomes;
    }

    // The lock sections.

    ghost method LockStart(call: int)
      requires call !in calls && startLock == None
      modifies this`startLock, this`calls
      ensures View() == Apply(old(View()), Step.LockStart(call))
      ensures startLock == Some(call) && calls == old(calls)[call := AtStartGuard]
    {
      startLock, calls := Some(call), calls[call := AtStartGuard];
    }

    method GuardStart(ghost call: int) returns (passed: bool)
      requires Inside(View(), call, AtStartGuard) && startLock == Some(call)
      modifies this
      ensures passed <==> old(abilityState) == NOT_LOADED
      ensures View() == Apply(old(View()), Step.GuardStart(call))
      ensures startLock == (if passed then Some(call) else None)
      ensures calls == if passed then old(calls)[call := InOnStart] else old(calls) - {call}
    {
      if abilityState != NOT_LOADED {
        startLock, calls := None, calls - {call};
        return false;
      }
      calls := calls[call := InOnStart];
      return true;
    }

    method ReturnStart(ghost call: int)
      requires Inside(View(), call, InOnStart) && startLock == Some(call)
      modifies this
      ensures View() == Apply(old(View()), Step.ReturnStart(call))
      ensures startLock == None && calls == old(calls) - {call}
    {
      isRunning := true;
      startLock, calls := None, calls - {call};
    }

    method GuardIdle(ghost call: int) returns (passed: bool)
      requires call !in calls
      modifies this
      ensures passed <==> old(abilityState) == ACTIVE
      ensures View() == Apply(old(View()), Step.GuardIdle(call))
      ensures startLock == old(startLock) && calls == if passed then old(calls)[call := InOnIdle] else old(calls)
    {
      if abilityState != ACTIVE {
        return false;
      }
      calls := calls[call := InOnIdle];
      return true;
    }

    method ReturnIdle(ghost call: int, delay: int)
      requires Inside(View(), call, InOnIdle) && startLock != Some(call)
      modifies this
      ensures View() == Apply(old(View()), Step.ReturnIdle(call, delay))
      ensures startLock == old(startLock) && calls == old(calls) - {call}
    {
      if delay == 0 {
        abilityState := IDLE;
      }
      calls := calls - {call};
    }

    method GuardActive(ghost call: int) returns (passed: bool)
      requires call !in calls
      modifies this
      ensures passed <==> old(abilityState) == IDLE
      ensures View() == Apply(old(View()), Step.GuardActive(call))
      ensures startLock == old(startLock) && calls == if passed then old(calls)[call := InOnActive] else old(calls)
    {
      if abilityState != IDLE {
        return false;
      }
      calls := calls[call := InOnActive];
      return true;
    }

    method ReturnActive(ghost call: int)
      requires Inside(View(), call, InOnActive) && startLock != Some(call)
      modifies this
      ensures View() == Apply(old(View()), Step.ReturnActive(call))
      ensures startLock == old(startLock) && calls == old(calls) - {call}
    {
      abilityState := ACTIVE;
      calls := calls - {call};
    }

    method GuardStop(ghost call: int) returns (passed: bool)
      requires call !in calls
      modifies this
      ensures passed <==> old(abilityState) != NOT_LOADED
      ensures View() == Apply(old(View()), Step.GuardStop(call))
      ensures startLock == old(startLock) && calls == if passed then old(calls)[call := InOnStop] else old(calls)
    {
      if abilityState == NOT_LOADED {
        return false;
      }
      calls := calls[call := InOnStop];
      return true;
    }

    method ReturnStop(ghost call: int, proxy: bool, result: int)
      requires Inside(View(), call, InOnStop) && startLock != Some(call)
      modifies this
      ensures View() == Apply(old(View()), Step.ReturnStop(call, proxy && result == ERR_OK))
      ensures startLock == old(startLock) && calls == old(calls) - {call}
    {
      abilityState := NOT_LOADED;
      isRunning := false;
      if proxy && result == ERR_OK {
        registered := false;
      }
      calls := calls - {call};
    }

    method CheckIdle(ghost call: int) returns (idle: bool)
      requires call !in calls
      modifies this`calls
      ensures idle <==> abilityState == IDLE
      ensures View() == Apply(old(View()), Step.CheckIdle(call))
      ensures calls == if idle then old(calls)[call := AskingSamgr] else old(calls)
    {
      if abilityState != IDLE {
        return false;
      }
      calls := calls[call := AskingSamgr];
      return true;
    }

    ghost method CancelUnload(call: int, ok: bool)
      requires Inside(View(), call, AskingSamgr) && startLock != Some(call)
      modifies this`calls
      ensures View() == Apply(old(View()), Step.CancelUnload(call, ok))
      ensures calls == old(calls) - {call}
    {
      calls := calls - {call};
    }

    // The calls.

    /**
      Changes nothing of the ability.  The answer is true without asking when the
      ability is not IDLE, and otherwise whether the manager cancelled the unloading.
     */
    method CancelIdle(ghost call: int, proxy: bool, result: int) returns (ok: bool, ghost run: seq<Step>)
      requires call !in calls && startLock != Some(call)
      modifies this`calls
      ensures RunFrom(old(View()), run) == Some(View())
      ensures run == (if abilityState != IDLE then [Step.CheckIdle(call)]
                      else [Step.CheckIdle(call), Step.CancelUnload(call, ok)])
      ensures ok <==> (abilityState == IDLE ==> proxy && result == ERR_OK)
      ensures calls == old(calls)
    {
      ghost var from := View();
      var idle := CheckIdle(call);
      ghost var looked := View();
      if !idle {
        RunOfOne(from, Step.CheckIdle(call));
        return true, [Step.CheckIdle(call)];
      }
      ok := proxy && result == ERR_OK;
      CancelUnload(call, ok);
      assert calls == old(calls);
      RunOfTwo(from, looked, Step.CheckIdle(call), Step.CancelUnload(call, ok));
      run := [Step.CheckIdle(call), Step.CancelUnload(call, ok)];
    }

    method Start(ghost call: int, outcomes: seq<bool>, remote: int) returns (ghost run: seq<Step>)
      requires call !in calls && startLock == None
      modifies this
      ensures RunFrom(old(View()), run) == Some(View())
      ensures run == (if old(abilityState) != NOT_LOADED then [Step.LockStart(call), Step.GuardStart(call)]
                      else [Step.LockStart(call), Step.GuardStart(call)] + Publishes(outcomes) + [Step.ReturnStart(call)])
      ensures startLock == None && calls == old(calls)
    {
      ghost var from := View();
      var passed;
      passed, run := LockAndGuard(call);
      if passed {
        run := OnStartAndReturn(call, outcomes, remote, from, run);
        assert calls == old(calls);
      }
    }

    method LockAndGuard(ghost call: int) returns (passed: bool, ghost run: seq<Step>)
      requires call !in calls && startLock == None
      modifies this
      ensures passed <==> old(abilityState) == NOT_LOADED
      ensures RunFrom(old(View()), run) == Some(View())
      ensures run == [Step.LockStart(call), Step.GuardStart(call)]
      ensures startLock == (if passed then Some(call) else None)
      ensures calls == if passed then old(calls)[call := InOnStart] else old(calls)
    {
      ghost var from := View();
      LockStart(call);
      ghost var locked := View();
      passed := GuardStart(call);
      RunOfTwo(from, locked, Step.LockStart(call), Step.GuardStart(call));
      run := [Step.LockStart(call), Step.GuardStart(call)];
      if passed {
        assert calls == old(calls)[call := InOnStart];
      } else {
        assert calls == old(calls);
      }
    }

    method OnStartAndReturn(ghost call: int, outcomes: seq<bool>, remote: int, ghost from: Ability, ghost before: seq<Step>)
      returns (ghost run: seq<Step>)
      requires RunFrom(from, before) == Some(View())
      requires Inside(View(), call, InOnStart) && startLock == Some(call)
      modifies this
      ensures RunFrom(from, run) == Some(View())
      ensures run == before + Publishes(outcomes) + [Step.ReturnStart(call)]
      ensures startLock == None && calls == old(calls) - {call}
    {
      run := Callback(outcomes, remote, from, before);
      ghost var returned := View();
      ReturnStart(call);
      run := Append(from, run, returned, Step.ReturnStart(call));
    }

    /** The delay is -1 when the ability is not ACTIVE, and otherwise what OnIdle returned. */
    method Idle(ghost call: int, outcomes: seq<bool>, remote: int, answer: int) returns (delay: int, ghost run: seq<Step>)
      requires call !in calls && startLock != Some(call)
      modifies this
      ensures RunFrom(old(View()), run) == Some(View())
      ensures run == (if old(abilityState) != ACTIVE then [Step.GuardIdle(call)]
                      else [Step.GuardIdle(call)] + Publishes(outcomes) + [Step.ReturnIdle(call, answer)])
      ensures delay == if old(abilityState) == ACTIVE then answer else -1
      ensures startLock == old(startLock) && calls == old(calls)
    {
      ghost var from := View();
      var passed := GuardIdle(call);
      run := Append(from, [], from, Step.GuardIdle(call));
      delay := -1;
      if passed {
        run := Callback(outcomes, remote, from, run);
        delay := answer;
        ghost var returned := View();
        ReturnIdle(call, delay);
        run := Append(from, run, returned, Step.ReturnIdle(call, delay));
        assert calls == old(calls);
      }
    }

    method Active(ghost call: int, outcomes: seq<bool>, remote: int) returns (ghost run: seq<Step>)
      requires call !in calls && startLock != Some(call)
      modifies this
      ensures RunFrom(old(View()), run) == Some(View())
      ensures run == (if old(abilityState) != IDLE then [Step.GuardActive(call)]
                      else [Step.GuardActive(call)] + Publishes(outcomes) + [Step.ReturnActive(call)])
      ensures startLock == old(startLock) && calls == old(calls)
    {
      ghost var from := View();
      var passed := GuardActive(call);
      run := Append(from, [], from, Step.GuardActive(call));
      if passed {
        run := Callback(outcomes, remote, from, run);
        ghost var returned := View();
        ReturnActive(call);
        run := Append(from, run, returned, Step.ReturnActive(call));
        assert calls == old(calls);
      }
    }

    method Stop(ghost call: int, outcomes: seq<bool>, remote: int, proxy: bool, result: int) returns (ghost run: seq<Step>)
      requires call !in calls && startLock != Some(call)
      modifies this
      ensures RunFrom(old(View()), run) == Some(View())
      ensures run == (if old(abilityState) == NOT_LOADED then [Step.GuardStop(call)]
                      else [Step.GuardStop(call)] + Publishes(outcomes) + [Step.ReturnStop(call, proxy && result == ERR_OK)])
      ensures startLock == old(startLock) && calls == old(calls)
    {
      ghost var from := View();
      var passed := GuardStop(call);
      run := Append(from, [], from, Step.GuardStop(call));
      if passed {
        run := Callback(outcomes, remote, from, run);
        ghost var returned := View();
        ReturnStop(call, proxy, result);
        run := Append(from, run, returned, Step.ReturnStop(call, proxy && result == ERR_OK));
        assert calls == old(calls);
      }
    }
  }

  lemma RunOfOne(from: Ability, a: Step)
    requires Enabled(from, a)
    ensures RunFrom(from, [a]) == Some(Apply(from, a))
  {
    assert [a][..0] == [];
    assert RunFrom(from, [a][..0]) == Some(from);
  }

  lemma RunOfTwo(from: Ability, mid: Ability, a: Step, b: Step)
    requires Enabled(from, a) && mid == Apply(from, a) && Enabled(mid, b)
    ensures RunFrom(from, [a, b]) == Some(Apply(mid, b))
  {
    RunOfOne(from, a);
    assert [a, b][..1] == [a];
    assert RunFrom(from, [a, b][..1]) == Some(mid);
  }

  ghost function Append(from: Ability, run: seq<Step>, s: Ability, step: Step): (r: seq<Step>)
    requires RunFrom(from, run) == Some(s) && Enabled(s, step)
    ensures r == run + [step] && RunFrom(from, r) == Some(Apply(s, step))
  {
    assert (run + [step])[..|run|] == run;
    run + [step]
  }
}
