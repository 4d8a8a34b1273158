// The pipeline around its events: lifecycle, the in-flight counter, and drain. Any number of
// calls, all interleaved with one another and with drain.
module Pipeline {
  import opened Slots
  import opened SyncSubmit

  datatype Phase = Stopped | Starting | Live | Draining

  /** drain() inside: the predicate is evaluated, and the wait begun, under drain_mutex. */
  datatype Drain =
    | NotDraining
    | LockingDrain
    | Evaluating
    | GoingToBlock
    | Blocked
    | Finished(clean: bool)

  datatype DrainHolder = Nobody | DrainHolds | CallHolds(who: nat)

  /** `allocating` and `starting` count the calls of start() before its two final stores. */
  datatype State = State(
    phase: Phase, allocating: nat, starting: nat, everStarted: bool, inFlight: int,
    drain: Drain, drainMutex: DrainHolder, calls: seq<Call>)

  datatype Action =
    | BeginStart
    | MarkStarted
    | FinishStart
    | Arrive(sync: bool, stopPossible: bool)
    | StepCaller(who: nat, world: World)
    | StepCoroutine(who: nat, world: World)
    | BeginDrain
    | StepDrain(timeUp: bool)

  function Initial(): State {
    State(Stopped, 0, 0, false, 0, NotDraining, Nobody, [])
  }

  function SetCall(s: State, i: nat, c: Call): State
    requires i < |s.calls|
  {
    s.(calls := s.calls[i := c])
  }

  /** Caller steps read the lifecycle from the pipeline, whatever the rest of the world decides. */
  function Outlook(s: State, w: World): World {
    w.(running := s.phase.Live?, everStarted := s.everStarted)
  }

  /** The rest of on_event_complete: decrement, and when that took the count from one to zero,
      lock drain_mutex and notify. */
  function Complete(s: State, i: nat): State
    requires i < |s.calls|
  {
    var c := s.calls[i];
    match c.co
    case Completing(x) =>
      SetCall(s.(inFlight := s.inFlight - 1), i, c.(co := if s.inFlight == 1 then LockingToNotify(x) else Gone(x)))
    case LockingToNotify(x) =>
      if s.drainMutex.Nobody? then SetCall(s.(drainMutex := CallHolds(i)), i, c.(co := Notifying(x))) else s
    case Notifying(x) =>
      SetCall(s.(drainMutex := Nobody, drain := if s.drain.Blocked? then LockingDrain else s.drain), i, c.(co := Gone(x)))
    case _ => s
  }

  function DrainStep(s: State, timeUp: bool): State {
    match s.drain
    case NotDraining => s
    case LockingDrain => if s.drainMutex.Nobody? then s.(drainMutex := DrainHolds, drain := Evaluating) else s
    case Evaluating =>
      if s.inFlight == 0 then s.(drain := Finished(true), drainMutex := Nobody)
      else if timeUp then s.(drain := Finished(false), drainMutex := Nobody)
      else s.(drain := GoingToBlock)
    case GoingToBlock => s.(drain := Blocked, drainMutex := Nobody)
    case Blocked => s.(drain := LockingDrain)
    case Finished(_) => s.(drain := NotDraining, phase := Stopped)
  }

  function Next(s: State, a: Action): State {
    match a
    case BeginStart => if s.phase.Stopped? then s.(phase := Starting, allocating := s.allocating + 1) else s
    case MarkStarted =>
      if s.allocating > 0 then s.(allocating := s.allocating - 1, starting := s.starting + 1, everStarted := true) else s
    case FinishStart => if s.starting > 0 then s.(starting := s.starting - 1, phase := Live) else s
    case Arrive(sync, stopPossible) => s.(calls := s.calls + [NewCall(sync, stopPossible)])
    case StepCaller(i, w) =>
      if i >= |s.calls| then s
      else
        var counted := if s.calls[i].caller.Counting? then s.inFlight + 1 else s.inFlight;
        SetCall(s.(inFlight := counted), i, CallerStep(s.calls[i], Outlook(s, w)))
    case StepCoroutine(i, w) =>
      if i >= |s.calls| || s.calls[i].co.Unborn? then s
      else if Left(s.calls[i].co) then Complete(s, i)
      else SetCall(s, i, CoroutineStep(s.calls[i], w))
    case BeginDrain => if s.drain.NotDraining? then s.(phase := Draining, drain := LockingDrain) else s
    case StepDrain(timeUp) => DrainStep(s, timeUp)
  }

  function Run(s: State, actions: seq<Action>): State {
    if actions == [] then s else Next(Run(s, actions[..|actions| - 1]), actions[|actions| - 1])
  }

  // -------------------------------------------------------------------- invariant

  /** Counted, and its run_event not yet through on_event_complete's decrement. */
  predicate Unfinished(c: Call) {
    c.caller.Spawning? || !(c.co.Unborn? || c.co.LockingToNotify? || c.co.Notifying? || c.co.Gone?)
  }

  function Counts(c: Call): int {
    if Unfinished(c) then 1 else 0
  }

  predicate NotifyComing(c: Call) {
    c.co.LockingToNotify? || c.co.Notifying?
  }

  ghost predicate DrainMutexGood(s: State) {
    && (s.drainMutex.DrainHolds? <==> s.drain.Evaluating? || s.drain.GoingToBlock?)
    && (s.drainMutex.CallHolds? ==> s.drainMutex.who < |s.calls|)
    && forall i :: 0 <= i < |s.calls| ==> (s.drainMutex == CallHolds(i) <==> s.calls[i].co.Notifying?)
  }

  /** A drain that waits, or is about to, while nothing is in flight, is going to be woken. */
  ghost predicate WakeupComing(s: State) {
    (s.drain.GoingToBlock? || s.drain.Blocked?) && s.inFlight == 0 ==>
      exists i :: 0 <= i < |s.calls| && NotifyComing(s.calls[i])
  }

  predicate AllCallsGood(calls: seq<Call>) {
    forall i {:trigger calls[i]} :: 0 <= i < |calls| ==> CallInv(calls[i])
  }

  ghost predicate Inv(s: State) {
    && AllCallsGood(s.calls)
    && s.inFlight == Total(Counts, s.calls)
    && DrainMutexGood(s)
    && WakeupComing(s)
  }

  // ---------------------------------------------------------------- preservation

  /** One call changed, with its share of the counter; notifies that were coming still are. */
  lemma CallMoved(s: State, i: nat, c: Call, inFlight: int)
    requires Inv(s) && i < |s.calls| && CallInv(c)
    requires inFlight - s.inFlight == Counts(c) - Counts(s.calls[i])
    requires c.co.Notifying? <==> s.calls[i].co.Notifying?
    requires NotifyComing(s.calls[i]) ==> NotifyComing(c)
    requires inFlight == 0 && s.inFlight != 0 ==> NotifyComing(c)
    ensures Inv(SetCall(s.(inFlight := inFlight), i, c))
  {
    var t := SetCall(s.(inFlight := inFlight), i, c);
    TotalUpdate(Counts, s.calls, i, c);
    assert t.calls[i] == c;
    if (s.drain.GoingToBlock? || s.drain.Blocked?) && inFlight == 0 && s.inFlight == 0 {
      var j :| 0 <= j < |s.calls| && NotifyComing(s.calls[j]);
      assert NotifyComing(t.calls[j]);
    }
  }

  lemma CountsUnchangedByCaller(c: Call, w: World)
    requires CallInv(c)
    ensures Counts(CallerStep(c, w)) - Counts(c) == (if c.caller.Counting? then 1 else 0)
    ensures CallerStep(c, w).co == c.co || (c.co.Unborn? && CallerStep(c, w).co.Running?)
  {
  }

  lemma CountsUnchangedByCoroutine(c: Call, w: World)
    requires CallInv(c) && !c.co.Unborn? && !Left(c.co)
    ensures Counts(CoroutineStep(c, w)) == Counts(c)
    ensures !NotifyComing(CoroutineStep(c, w)) && !CoroutineStep(c, w).co.Unborn?
  {
  }

  lemma CountPositive(s: State, i: nat)
    requires i < |s.calls| && s.inFlight == Total(Counts, s.calls) && Unfinished(s.calls[i])
    ensures s.inFlight >= 1
  {
    TotalNonNegative(Counts, s.calls);
  }

  lemma LeavingKeepsCallInv(c: Call, co: Coroutine)
    requires CallInv(c) && Left(c.co) && Left(co) && co.exit == c.co.exit
    ensures CallInv(c.(co := co))
  {
  }

  lemma DecrementKeepsInv(s: State, i: nat)
    requires Inv(s) && i < |s.calls| && s.calls[i].co.Completing?
    ensures Inv(Complete(s, i))
  {
    var d := Complete(s, i).calls[i];
    LeavingKeepsCallInv(s.calls[i], d.co);
    CountPositive(s, i);
    CallMoved(s, i, d, s.inFlight - 1);
  }

  lemma CompleteKeepsInv(s: State, i: nat)
    requires Inv(s) && i < |s.calls| && Left(s.calls[i].co)
    ensures Inv(Complete(s, i))
  {
    match s.calls[i].co
    case Completing(_) => DecrementKeepsInv(s, i);
    case LockingToNotify(_) => NotifyStepKeepsInv(s, i);
    case Notifying(_) => NotifyStepKeepsInv(s, i);
    case Gone(_) =>
  }

  lemma NotifyStepKeepsInv(s: State, i: nat)
    requires Inv(s) && i < |s.calls| && NotifyComing(s.calls[i])
    ensures Inv(Complete(s, i))
  {
    var c, t := s.calls[i], Complete(s, i);
    var d := t.calls[i];
    LeavingKeepsCallInv(c, d.co);
    TotalUpdate(Counts, s.calls, i, d);
    assert t.calls == s.calls[i := d] || t == s;
    if c.co.LockingToNotify? && t != s {
      if (s.drain.GoingToBlock? || s.drain.Blocked?) && s.inFlight == 0 {
        assert NotifyComing(t.calls[i]);
      }
    }
  }

  lemma CallerActionKeepsInv(s: State, i: nat, w: World)
    requires Inv(s) && i < |s.calls|
    ensures Inv(Next(s, StepCaller(i, w)))
  {
    var c, o := s.calls[i], Outlook(s, w);
    CallerStepKeepsInv(c, o);
    CountsUnchangedByCaller(c, o);
    TotalNonNegative(Counts, s.calls);
    CallMoved(s, i, CallerStep(c, o), if c.caller.Counting? then s.inFlight + 1 else s.inFlight);
  }

  lemma CoroutineActionKeepsInv(s: State, i: nat, w: World)
    requires Inv(s) && i < |s.calls| && !s.calls[i].co.Unborn?
    ensures Inv(Next(s, StepCoroutine(i, w)))
  {
    var c := s.calls[i];
    if Left(c.co) {
      CompleteKeepsInv(s, i);
    } else {
      CoroutineStepKeepsInv(c, w);
      CountsUnchangedByCoroutine(c, w);
      CallMoved(s, i, CoroutineStep(c, w), s.inFlight);
    }
  }

  lemma ArriveKeepsCalls(calls: seq<Call>, sync: bool, stopPossible: bool)
    requires AllCallsGood(calls)
    ensures AllCallsGood(calls + [NewCall(sync, stopPossible)])
  {
  }

  lemma ArriveKeepsMutex(s: State, sync: bool, stopPossible: bool)
    requires DrainMutexGood(s)
    ensures DrainMutexGood(Next(s, Arrive(sync, stopPossible)))
  {
  }

  lemma ArriveKeepsWakeup(s: State, sync: bool, stopPossible: bool)
    requires WakeupComing(s)
    ensures WakeupComing(Next(s, Arrive(sync, stopPossible)))
  {
    var t := Next(s, Arrive(sync, stopPossible));
    if i :| 0 <= i < |s.calls| && NotifyComing(s.calls[i]) {
      assert t.calls[i] == s.calls[i];
    }
  }

  lemma ArriveKeepsInv(s: State, sync: bool, stopPossible: bool)
    requires Inv(s)
    ensures Inv(Next(s, Arrive(sync, stopPossible)))
  {
    TotalAppend(Counts, s.calls, NewCall(sync, stopPossible));
    ArriveKeepsCalls(s.calls, sync, stopPossible);
    ArriveKeepsMutex(s, sync, stopPossible);
    ArriveKeepsWakeup(s, sync, stopPossible);
  }

  lemma DrainStepKeepsInv(s: State, timeUp: bool)
    requires Inv(s)
    ensures Inv(DrainStep(s, timeUp))
  {
    var t := DrainStep(s, timeUp);
    assert t.calls == s.calls && t.inFlight == s.inFlight;
    assert WakeupComing(t);
  }

  /** Every step of any party keeps the invariant. */
  lemma StepKeepsInv(s: State, a: Action)
    requires Inv(s)
    ensures Inv(Next(s, a))
  {
    match a
    case StepCaller(i, w) => if i < |s.calls| { CallerActionKeepsInv(s, i, w); }
    case StepCoroutine(i, w) => if i < |s.calls| && !s.calls[i].co.Unborn? { CoroutineActionKeepsInv(s, i, w); }
    case Arrive(sync, stopPossible) => ArriveKeepsInv(s, sync, stopPossible);
    case StepDrain(timeUp) => DrainStepKeepsInv(s, timeUp);
    case _ =>
  }

  // ------------------------------------------------------------------- whole runs

  lemma {:induction false} RunKeepsInv(actions: seq<Action>)
    ensures Inv(Run(Initial(), actions))
  {
    if actions != [] {
      RunKeepsInv(actions[..|actions| - 1]);
      StepKeepsInv(Run(Initial(), actions[..|actions| - 1]), actions[|actions| - 1]);
    }
  }

  /** In-flight accounting: after any run the counter is the number of counted events whose
      run_event has not completed; each of the three exits takes one off, once. */
  lemma InFlightCountsUnfinished(actions: seq<Action>)
    ensures
      var s := Run(Initial(), actions);
      && s.inFlight == Total(Counts, s.calls)
      && (s.inFlight == 0 <==> forall i :: 0 <= i < |s.calls| ==> !Unfinished(s.calls[i]))
  {
    var s := Run(Initial(), actions);
    RunKeepsInv(actions);
    TotalNonNegative(Counts, s.calls);
    assert forall i :: 0 <= i < |s.calls| ==> (Counts(s.calls[i]) == 0 <==> !Unfinished(s.calls[i]));
  }

  /** A drain blocked while nothing is in flight always has a notify still coming. */
  lemma NoLostWakeup(actions: seq<Action>)
    requires var s := Run(Initial(), actions); s.drain.Blocked? && s.inFlight == 0
    ensures
      var s := Run(Initial(), actions);
      exists i :: 0 <= i < |s.calls| && NotifyComing(s.calls[i])
  {
    RunKeepsInv(actions);
  }

  /** What no later step undoes: an answer given, and what an event that has left emitted. */
  ghost predicate Settled(c: Call, d: Call) {
    && (c.caller.Returned? ==> d.caller == c.caller)
    && (NotifyComing(c) || c.co.Gone? ==> d.emitted == c.emitted && (NotifyComing(d) || d.co.Gone?))
  }

  lemma CallerSettles(c: Call, w: World)
    requires CallInv(c)
    ensures Settled(c, CallerStep(c, w))
  {
  }

  lemma CompleteSettles(s: State, i: nat)
    requires i < |s.calls| && Left(s.calls[i].co)
    ensures |Complete(s, i).calls| == |s.calls| && Settled(s.calls[i], Complete(s, i).calls[i])
  {
  }

  lemma CoroutineSettles(s: State, i: nat, w: World)
    requires i < |s.calls|
    ensures |Next(s, StepCoroutine(i, w)).calls| == |s.calls|
    ensures Settled(s.calls[i], Next(s, StepCoroutine(i, w)).calls[i])
  {
    if Left(s.calls[i].co) {
      CompleteSettles(s, i);
    }
  }

  lemma StepSettles(s: State, a: Action, i: nat)
    requires Inv(s) && i < |s.calls|
    ensures i < |Next(s, a).calls| && Settled(s.calls[i], Next(s, a).calls[i])
  {
    match a
    case StepCaller(j, w) => CallerSettles(s.calls[i], Outlook(s, w));
    case StepCoroutine(j, w) =>
      if i == j {
        CoroutineSettles(s, i, w);
      } else {
        OthersUntouched(s, j, w, i);
      }
    case _ => assert Next(s, a).calls[i] == s.calls[i];
  }

  lemma OthersUntouched(s: State, j: nat, w: World, i: nat)
    requires i < |s.calls| && i != j
    ensures |Next(s, StepCoroutine(j, w)).calls| == |s.calls|
    ensures Next(s, StepCoroutine(j, w)).calls[i] == s.calls[i]
  {
  }

  lemma {:induction false} RunSettles(s: State, actions: seq<Action>, i: nat)
    requires Inv(s) && i < |s.calls|
    ensures Inv(Run(s, actions))
    ensures i < |Run(s, actions).calls| && Settled(s.calls[i], Run(s, actions).calls[i])
  {
    if actions != [] {
      var front := actions[..|actions| - 1];
      RunSettles(s, front, i);
      StepKeepsInv(Run(s, front), actions[|actions| - 1]);
      StepSettles(Run(s, front), actions[|actions| - 1], i);
    }
  }

  lemma {:induction false} RunConcat(s: State, a: seq<Action>, b: seq<Action>)
    ensures Run(s, a + b) == Run(Run(s, a), b)
  {
    if b == [] {
      assert a + b == a;
    } else {
      RunConcat(s, a, b[..|b| - 1]);
      assert (a + b)[..|a + b| - 1] == a + b[..|b| - 1];
    }
  }

  /** An error means never emitted: not before submit_sync returned it, and not after. */
  lemma ErrorMeansNeverEmitted(before: seq<Action>, after: seq<Action>, i: nat, e: SubmitSyncError)
    requires
      var s := Run(Initial(), before);
      i < |s.calls| && s.calls[i].caller == Returned(Failed(e))
    ensures
      var t := Run(Initial(), before + after);
      i < |t.calls| && t.calls[i].emitted == []
  {
    RunKeepsInv(before);
    RunConcat(Initial(), before, after);
    RunSettles(Run(Initial(), before), after, i);
    AnswerMeaning(Run(Initial(), before + after).calls[i]);
  }

  /** A decision returned is the decision emitted: never skipped, never twice, never another. */
  lemma DecisionMeansSameEmission(before: seq<Action>, after: seq<Action>, i: nat, d: Decision)
    requires
      var s := Run(Initial(), before);
      i < |s.calls| && s.calls[i].caller == Returned(Decided(d))
    ensures
      var t := Run(Initial(), before + after);
      && i < |t.calls|
      && (t.calls[i].emitted == [] || t.calls[i].emitted == [d])
      && (Left(t.calls[i].co) ==> t.calls[i].emitted == [d])
  {
    RunKeepsInv(before);
    RunConcat(Initial(), before, after);
    RunSettles(Run(Initial(), before), after, i);
    AnswerMeaning(Run(Initial(), before + after).calls[i]);
  }

  /** When the counter is 0, every event spawned so far has emitted all it ever will. */
  lemma CountZeroIsFinal(before: seq<Action>, after: seq<Action>, i: nat)
    requires
      var s := Run(Initial(), before);
      s.inFlight == 0 && i < |s.calls| && !s.calls[i].co.Unborn?
    ensures
      var s, t := Run(Initial(), before), Run(Initial(), before + after);
      i < |t.calls| && t.calls[i].emitted == s.calls[i].emitted
  {
    RunKeepsInv(before);
    RunConcat(Initial(), before, after);
    InFlightCountsUnfinished(before);
    RunSettles(Run(Initial(), before), after, i);
  }
}
