// One submitted event: the calling thread and the run_event coroutine, with every lock
// acquisition and every access to the shared context a step of its own.
module SyncSubmit {
  import opened Options

  datatype SubmitSyncError = Timeout | RateLimited | PipelineUnavailable | NotStarted | ValidationFailed | Cancelled

  /** The record an event's stages produce; what is in it does not matter here. */
  datatype Decision = Decision(eventId: nat, content: string)

  datatype Answer = Accepted | Decided(decision: Decision) | Failed(error: SubmitSyncError)

  /** The submitting thread. It holds the context's mutex where CallerInside says. */
  datatype Caller =
    | Entering
    | CheckingState
    | CheckingRate
    | Counting
    | Spawning
    | Locking
    | Checking
    | Waiting
    | ReadingResult
    | Cancelling(stopped: bool)
    | Looking(stopped: bool)
    | NamingError(stopped: bool)
    | Returned(answer: Answer)

  datatype Exit = Invalid | Skipped | Emitted(decision: Decision)

  /** The coroutine. It leaves through one of three exits, each ending in on_event_complete. */
  datatype Coroutine =
    | Unborn
    | Running
    | LockingToFail
    | SettingError
    | SettingFailedDone
    | LockingToCapture(d: Decision)
    | CheckingCancelled(d: Decision)
    | Capturing(d: Decision)
    | Emitting(d: Decision)
    | LockingToFinish(d: Decision)
    | SettingDone(d: Decision)
    | Completing(exit: Exit)
    | LockingToNotify(exit: Exit)
    | Notifying(exit: Exit)
    | Gone(exit: Exit)

  datatype Holder = Free | CallerHolds | CoroutineHolds

  /** `sync` tells submit_sync from submit; an asynchronous event has no context to share. */
  datatype Call = Call(
    sync: bool, stopPossible: bool, caller: Caller, co: Coroutine, mutex: Holder,
    decision: Option<Decision>, error: Option<SubmitSyncError>, cancelled: bool, done: bool,
    emitted: seq<Decision>)

  function NewCall(sync: bool, stopPossible: bool): Call {
    Call(sync, stopPossible, Entering, Unborn, Free, None, None, false, false, [])
  }

  /** What the world decides at a step: the clock, the stop token, the limits, the stages. */
  datatype World = World(deadline: bool, stop: bool, admitted: bool, valid: bool, decision: Decision, running: bool, everStarted: bool)

  /** Where the caller goes next, and the mutex with it. Counting raises the in-flight counter. */
  function CallerMove(c: Call, w: World): (Caller, Holder) {
    match c.caller
    case Entering => (if c.sync && c.stopPossible && w.stop then Returned(Failed(Cancelled)) else CheckingState, c.mutex)
    case CheckingState =>
      (if w.running then CheckingRate
       else Returned(Failed(if w.everStarted then PipelineUnavailable else NotStarted)), c.mutex)
    case CheckingRate => (if w.admitted then Counting else Returned(Failed(RateLimited)), c.mutex)
    case Counting => (Spawning, c.mutex)
    case Spawning => (if c.sync then Locking else Returned(Accepted), c.mutex)
    case Locking => if c.mutex.Free? then (Checking, CallerHolds) else (Locking, c.mutex)
    case Checking =>
      if c.done then (ReadingResult, c.mutex)
      else if w.deadline then (Cancelling(false), c.mutex)
      else if c.stopPossible && w.stop then (Cancelling(true), c.mutex)
      else (Waiting, Free)
    case Waiting => (Locking, c.mutex)
    case ReadingResult =>
      (Returned(if c.error.Some? then Failed(c.error.value)
                else if c.decision.Some? then Decided(c.decision.value)
                else Accepted), Free)
    case Cancelling(stopped) => (Looking(stopped), c.mutex)
    case Looking(stopped) =>
      (if c.decision.Some? then Returned(Decided(c.decision.value)) else NamingError(stopped), Free)
    case NamingError(stopped) =>
      (Returned(Failed(if stopped || (c.stopPossible && w.stop) then Cancelled else Timeout)), c.mutex)
    case Returned(_) => (c.caller, c.mutex)
  }

  function CallerStep(c: Call, w: World): Call {
    var (caller, mutex) := CallerMove(c, w);
    c.(caller := caller, mutex := mutex,
       co := if c.caller.Spawning? then Running else c.co,
       cancelled := c.cancelled || c.caller.Cancelling?)
  }

  /** Where the coroutine goes next. Completing and the two notify steps belong to the pipeline. */
  function CoroutineMove(c: Call, w: World): (Coroutine, Holder) {
    match c.co
    case Running =>
      (if !c.sync then Emitting(w.decision) else if w.valid then LockingToCapture(w.decision) else LockingToFail, c.mutex)
    case LockingToFail => if c.mutex.Free? then (SettingError, CoroutineHolds) else (c.co, c.mutex)
    case SettingError => (SettingFailedDone, c.mutex)
    case SettingFailedDone => (Completing(Invalid), Free)
    case LockingToCapture(d) => if c.mutex.Free? then (CheckingCancelled(d), CoroutineHolds) else (c.co, c.mutex)
    case CheckingCancelled(d) => if c.cancelled then (Completing(Skipped), Free) else (Capturing(d), c.mutex)
    case Capturing(d) => (Emitting(d), Free)
    case Emitting(d) => (if c.sync then LockingToFinish(d) else Completing(Emitted(d)), c.mutex)
    case LockingToFinish(d) => if c.mutex.Free? then (SettingDone(d), CoroutineHolds) else (c.co, c.mutex)
    case SettingDone(d) => (Completing(Emitted(d)), Free)
    case _ => (c.co, c.mutex)
  }

  function CoroutineStep(c: Call, w: World): Call {
    var (co, mutex) := CoroutineMove(c, w);
    c.(co := co, mutex := mutex,
       error := if c.co.SettingError? then Some(ValidationFailed) else c.error,
       decision := if c.co.Capturing? then Some(c.co.d) else c.decision,
       done := c.done || c.co.SettingFailedDone? || c.co.SettingDone?,
       emitted := if c.co.Emitting? then c.emitted + [c.co.d] else c.emitted)
  }

  // -------------------------------------------------------------------- invariant

  predicate CallerInside(caller: Caller) {
    caller.Checking? || caller.ReadingResult? || caller.Cancelling? || caller.Looking?
  }

  predicate CoroutineInside(co: Coroutine) {
    || co.SettingError? || co.SettingFailedDone? || co.CheckingCancelled? || co.Capturing? || co.SettingDone?
  }

  /** The mutex is held by exactly the party that is inside its critical section. */
  predicate MutexGood(c: Call) {
    && (c.mutex.CallerHolds? <==> CallerInside(c.caller))
    && (c.mutex.CoroutineHolds? <==> CoroutineInside(c.co))
  }

  predicate Left(co: Coroutine) {
    co.Completing? || co.LockingToNotify? || co.Notifying? || co.Gone?
  }

  /** What the coroutine has done so far, read off where it stands. */
  predicate CoroutineGood(c: Call) {
    match c.co
    case Unborn => c.emitted == [] && c.decision.None? && c.error.None? && !c.done
    case Running | LockingToFail | SettingError | LockingToCapture(_) | CheckingCancelled(_) | Capturing(_) =>
      && c.emitted == [] && c.decision.None? && c.error.None? && !c.done
      && (c.co.Capturing? ==> !c.cancelled) && (!c.co.Running? ==> c.sync)
    case SettingFailedDone => c.emitted == [] && c.decision.None? && c.error == Some(ValidationFailed) && !c.done && c.sync
    case Emitting(d) =>
      c.emitted == [] && (c.sync ==> c.decision == Some(d)) && (!c.sync ==> c.decision.None?) && c.error.None? && !c.done
    case LockingToFinish(d) => c.sync && c.emitted == [d] && c.decision == Some(d) && c.error.None? && !c.done
    case SettingDone(d) => c.sync && c.emitted == [d] && c.decision == Some(d) && c.error.None? && !c.done
    case Completing(x) => ExitGood(c, x)
    case LockingToNotify(x) => ExitGood(c, x)
    case Notifying(x) => ExitGood(c, x)
    case Gone(x) => ExitGood(c, x)
  }

  predicate ExitGood(c: Call, exit: Exit) {
    match exit
    case Invalid => c.sync && c.emitted == [] && c.decision.None? && c.error == Some(ValidationFailed) && c.done
    case Skipped => c.sync && c.emitted == [] && c.decision.None? && c.error.None? && !c.done && c.cancelled
    case Emitted(d) =>
      c.emitted == [d] && c.error.None?
      && (if c.sync then c.decision == Some(d) && c.done else c.decision.None? && !c.done)
  }

  /** The event was never spawned, or a context decides that it is not emitted. */
  predicate WillNeverEmit(c: Call) {
    && c.emitted == [] && c.decision.None?
    && (c.co.Unborn? || (c.sync && (c.cancelled || c.error.Some?)))
  }

  predicate CallerGood(c: Call) {
    match c.caller
    case Entering | CheckingState | CheckingRate | Counting | Spawning => c.co.Unborn? && !c.cancelled
    case Locking | Checking | Waiting | Cancelling(_) => c.sync && !c.co.Unborn? && !c.cancelled
    case ReadingResult => c.sync && !c.co.Unborn? && !c.cancelled && c.done
    case Looking(_) => c.sync && !c.co.Unborn? && c.cancelled
    case NamingError(_) => c.sync && WillNeverEmit(c) && !c.co.Unborn? && c.cancelled
    case Returned(Failed(_)) => WillNeverEmit(c)
    case Returned(Decided(d)) => c.sync && !c.co.Unborn? && c.decision == Some(d)
    case Returned(Accepted) => !c.sync && !c.co.Unborn? && !c.cancelled
  }

  predicate CallInv(c: Call) {
    MutexGood(c) && CoroutineGood(c) && CallerGood(c)
  }

  lemma CallerStepKeepsMutex(c: Call, w: World)
    requires MutexGood(c) && (c.caller.Spawning? ==> c.co.Unborn?)
    ensures MutexGood(CallerStep(c, w))
  {
    var t := CallerStep(c, w);
    assert CoroutineInside(t.co) <==> CoroutineInside(c.co);
    assert CallerInside(t.caller) <==> t.mutex.CallerHolds?;
    assert t.mutex.CoroutineHolds? <==> c.mutex.CoroutineHolds?;
  }

  /** The fields a caller writes while its coroutine runs: its own, the mutex, and cancelled. */
  lemma CallerStepFrame(c: Call, w: World)
    requires !c.caller.Spawning?
    ensures
      var t := CallerStep(c, w);
      && t.sync == c.sync && t.co == c.co && t.decision == c.decision && t.error == c.error
      && t.done == c.done && t.emitted == c.emitted
      && (t.cancelled == c.cancelled || (t.cancelled && c.caller.Cancelling?))
  {
  }

  lemma CoroutineGoodFrame(c: Call, t: Call)
    requires CoroutineGood(c) && (t.cancelled == c.cancelled || (t.cancelled && !c.co.Capturing?))
    requires t.sync == c.sync && t.co == c.co && t.decision == c.decision && t.error == c.error
    requires t.done == c.done && t.emitted == c.emitted
    ensures CoroutineGood(t)
  {
  }

  lemma CallerStepKeepsCoroutine(c: Call, w: World)
    requires CallInv(c)
    ensures CoroutineGood(CallerStep(c, w))
  {
    if !c.caller.Spawning? {
      CallerStepFrame(c, w);
      CoroutineGoodFrame(c, CallerStep(c, w));
    }
  }

  lemma CallerStepKeepsCaller(c: Call, w: World)
    requires CallInv(c)
    ensures CallerGood(CallerStep(c, w))
  {
    if c.caller.ReadingResult? {
      assert c.mutex.CallerHolds? && c.error.Some? ==> c.emitted == [];
    }
  }

  lemma CallerStepKeepsInv(c: Call, w: World)
    requires CallInv(c)
    ensures CallInv(CallerStep(c, w))
  {
    CallerStepKeepsMutex(c, w);
    CallerStepKeepsCoroutine(c, w);
    CallerStepKeepsCaller(c, w);
  }

  lemma CoroutineStepKeepsMutex(c: Call, w: World)
    requires MutexGood(c)
    ensures MutexGood(CoroutineStep(c, w))
  {
  }

  predicate OnTheErrorPath(co: Coroutine) {
    co.Running? || co.LockingToFail? || co.SettingError? || co.SettingFailedDone? || co.LockingToCapture?
  }

  lemma ErrorPathKeepsCoroutine(c: Call, w: World)
    requires CallInv(c) && OnTheErrorPath(c.co)
    ensures CoroutineGood(CoroutineStep(c, w))
  {
  }

  lemma CapturePathKeepsCoroutine(c: Call, w: World)
    requires CallInv(c) && !OnTheErrorPath(c.co)
    ensures CoroutineGood(CoroutineStep(c, w))
  {
  }

  lemma CoroutineStepKeepsCaller(c: Call, w: World)
    requires CallInv(c) && !c.co.Unborn?
    ensures CallerGood(CoroutineStep(c, w))
  {
    var t := CoroutineStep(c, w);
    assert t.caller == c.caller && t.cancelled == c.cancelled && t.sync == c.sync && !t.co.Unborn?;
    if t.decision != c.decision {
      assert c.co.Capturing?;
    }
    if t.emitted != c.emitted {
      assert c.co.Emitting?;
    }
  }

  lemma CoroutineStepKeepsInv(c: Call, w: World)
    requires CallInv(c) && !c.co.Unborn?
    ensures CallInv(CoroutineStep(c, w))
  {
    CoroutineStepKeepsMutex(c, w);
    if OnTheErrorPath(c.co) {
      ErrorPathKeepsCoroutine(c, w);
    } else {
      CapturePathKeepsCoroutine(c, w);
    }
    CoroutineStepKeepsCaller(c, w);
  }

  /** Where its caller was told of an error, nothing is emitted; where it was given a decision,
      that decision is emitted at most once, and certainly once the coroutine has left. */
  lemma AnswerMeaning(c: Call)
    requires CallInv(c) && c.caller.Returned?
    ensures
      match c.caller.answer
      case Failed(_) => c.emitted == []
      case Decided(d) =>
        && c.co != Completing(Skipped) && c.co != Gone(Skipped)
        && (c.emitted == [] || c.emitted == [d])
        && (Left(c.co) ==> c.emitted == [d])
      case Accepted => !c.sync && |c.emitted| <= 1 && (Left(c.co) ==> |c.emitted| == 1)
  {
  }
}
