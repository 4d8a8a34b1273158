// What drain waits for, how it ends, and what start and drain do to the calls around them.
module Draining {
  import opened Slots
  import opened SyncSubmit
  import opened Pipeline

  // ------------------------------------------------------------------ how it ends

  ghost predicate SomeUnfinished(s: State) {
    exists i :: 0 <= i < |s.calls| && Unfinished(s.calls[i])
  }

  lemma CounterMeaning(s: State)
    requires Inv(s)
    ensures s.inFlight >= 0 && (s.inFlight > 0 <==> SomeUnfinished(s))
  {
    TotalNonNegative(Counts, s.calls);
    assert forall i :: 0 <= i < |s.calls| ==> (Counts(s.calls[i]) == 0 <==> !Unfinished(s.calls[i]));
  }

  /** The step at which drain stops waiting, with what it has found. */
  ghost predicate EndsDrain(s: State, a: Action, clean: bool) {
    !s.drain.Finished? && Next(s, a).drain == Finished(clean)
  }

  /** Drain ends cleanly only in a state in which no event is unfinished, and otherwise only
      because its time is up while some event still is. */
  lemma DrainEndsIff(s: State, a: Action)
    requires Inv(s)
    ensures EndsDrain(s, a, true) <==> a.StepDrain? && s.drain.Evaluating? && !SomeUnfinished(s)
    ensures EndsDrain(s, a, false) <==> a.StepDrain? && s.drain.Evaluating? && SomeUnfinished(s) && a.timeUp
  {
    CounterMeaning(s);
  }

  /** With an event unfinished and time left, drain goes on to block, and lets go of its mutex. */
  lemma DrainWaits(s: State)
    requires Inv(s) && s.drain.Evaluating? && SomeUnfinished(s)
    ensures
      var t := Next(Next(s, StepDrain(false)), StepDrain(false));
      t == s.(drain := Blocked, drainMutex := Nobody)
  {
    CounterMeaning(s);
  }

  /** Over every run: when drain has ended cleanly, every event spawned by then has finished, and
      emits nothing more whatever happens next. */
  lemma CleanDrainIsFinal(before: seq<Action>, a: Action, after: seq<Action>, i: nat)
    requires EndsDrain(Run(Initial(), before), a, true)
    requires i < |Run(Initial(), before).calls| && !Run(Initial(), before).calls[i].co.Unborn?
    ensures !SomeUnfinished(Run(Initial(), before + [a]))
    ensures
      var s, t := Run(Initial(), before), Run(Initial(), before + [a] + after);
      i < |t.calls| && t.calls[i].emitted == s.calls[i].emitted
  {
    var s := Run(Initial(), before);
    RunKeepsInv(before);
    DrainEndsIff(s, a);
    CounterMeaning(s);
    assert (before + [a])[..|before|] == before;
    assert Run(Initial(), before + [a]) == Next(s, a);
    assert Next(s, a).calls == s.calls;
    CountZeroIsFinal(before + [a], after, i);
  }

  /** Over every run: a drain that ends otherwise ran out of time over an unfinished event. */
  lemma TimedOutDrainHadReason(before: seq<Action>, a: Action)
    requires EndsDrain(Run(Initial(), before), a, false)
    ensures a == StepDrain(true) && SomeUnfinished(Run(Initial(), before))
  {
    RunKeepsInv(before);
    DrainEndsIff(Run(Initial(), before), a);
  }

  // ---------------------------------------------------------------- how it wakes up

  /** The call whose notify is nearest: the one that holds drain's mutex, or any other to come. */
  lemma NotifierOf(s: State) returns (i: nat)
    requires Inv(s) && s.drain.Blocked? && s.inFlight == 0
    ensures i < |s.calls| && NotifyComing(s.calls[i])
    ensures if s.calls[i].co.Notifying? then s.drainMutex == CallHolds(i) else s.drainMutex.Nobody?
  {
    if s.drainMutex.CallHolds? {
      i := s.drainMutex.who;
      assert s.calls[i].co.Notifying?;
    } else {
      i :| 0 <= i < |s.calls| && NotifyComing(s.calls[i]);
    }
  }

  lemma NotifyWakes(s: State, i: nat, w: World)
    requires i < |s.calls| && s.calls[i].co.Notifying? && s.drain.Blocked?
    ensures
      var t := Next(s, StepCoroutine(i, w));
      t.drain.LockingDrain? && t.drainMutex.Nobody? && t.inFlight == s.inFlight
  {
  }

  lemma NotifyLocks(s: State, i: nat, w: World)
    requires i < |s.calls| && s.calls[i].co.LockingToNotify? && s.drainMutex.Nobody?
    ensures
      var t := Next(s, StepCoroutine(i, w));
      && t.drain == s.drain && t.inFlight == s.inFlight
      && |t.calls| == |s.calls| && t.calls[i].co.Notifying?
  {
  }

  /** A drain blocked while nothing is in flight needs no timeout and no spurious wake-up: the
      notify that is coming wakes it, and it ends cleanly. */
  lemma BlockedDrainIsWoken(s: State, w: World) returns (wake: seq<Action>)
    requires Inv(s) && s.drain.Blocked? && s.inFlight == 0
    ensures forall p :: 0 <= p < |wake| ==> wake[p].StepCoroutine?
    ensures Run(s, wake).drain.LockingDrain?
    ensures Run(s, wake + [StepDrain(false), StepDrain(false)]).drain == Finished(true)
  {
    var i := NotifierOf(s);
    var step := StepCoroutine(i, w);
    if s.calls[i].co.Notifying? {
      wake := [step];
      NotifyWakes(s, i, w);
      RunOne(s, step);
    } else {
      wake := [step, step];
      NotifyLocks(s, i, w);
      NotifyWakes(Next(s, step), i, w);
      RunTwo(s, step, step);
    }
    RunConcat(s, wake, [StepDrain(false), StepDrain(false)]);
    WokenDrainEnds(Run(s, wake));
  }

  lemma WokenDrainEnds(s: State)
    requires s.drain.LockingDrain? && s.drainMutex.Nobody? && s.inFlight == 0
    ensures Run(s, [StepDrain(false), StepDrain(false)]).drain == Finished(true)
  {
    RunTwo(s, StepDrain(false), StepDrain(false));
  }

  /** A drain that blocks over an unfinished event does not block for ever: when its time is up it
      wakes, takes its mutex once that is free, and gives up. */
  lemma BlockedDrainTimesOut(s: State)
    requires Inv(s) && s.drain.Blocked? && s.drainMutex.Nobody? && SomeUnfinished(s)
    ensures
      var t := Next(Next(Next(s, StepDrain(true)), StepDrain(true)), StepDrain(true));
      t == s.(drain := Finished(false))
  {
    CounterMeaning(s);
  }

  lemma RunOne(s: State, a: Action)
    ensures Run(s, [a]) == Next(s, a)
  {
    assert [a][..0] == [];
  }

  lemma RunTwo(s: State, a: Action, b: Action)
    ensures Run(s, [a, b]) == Next(Next(s, a), b)
  {
    assert [a, b][..1] == [a];
    RunOne(s, a);
  }

  /** A completing event takes one off the counter, and goes on to notify exactly when it was the last. */
  lemma CompletionMeaning(s: State, i: nat, w: World)
    requires i < |s.calls| && s.calls[i].co.Completing?
    ensures
      var t := Next(s, StepCoroutine(i, w));
      && |t.calls| == |s.calls| && t.inFlight == s.inFlight - 1
      && (t.calls[i].co.LockingToNotify? <==> s.inFlight == 1)
      && (t.calls[i].co.Gone? <==> s.inFlight != 1)
  {
  }

  // -------------------------------------------------------------------- life cycle

  /** Only start's last store makes the pipeline live, only the end of a drain stops it, and a
      start gets under way only from a stopped pipeline. */
  lemma PhaseChanges(s: State, a: Action)
    ensures
      var t := Next(s, a);
      && (t.phase.Live? && !s.phase.Live? ==> a.FinishStart?)
      && (t.phase.Stopped? && !s.phase.Stopped? ==> a.StepDrain? && s.drain.Finished?)
      && (t.phase.Starting? && !s.phase.Starting? ==> a.BeginStart? && s.phase.Stopped?)
      && (t.phase.Draining? && !s.phase.Draining? ==> a.BeginDrain?)
      && (t.allocating > s.allocating ==> a.BeginStart? && s.phase.Stopped?)
      && (t.everStarted && !s.everStarted ==> a.MarkStarted?)
  {
  }

  /** Where drain stands changes by its own steps alone, but for its beginning, and for a notify,
      which only wakes it up where it is blocked. */
  lemma DrainChanges(s: State, a: Action)
    requires Next(s, a).drain != s.drain
    ensures || a.StepDrain?
            || (a.BeginDrain? && s.drain.NotDraining?)
            || (a.StepCoroutine? && s.drain.Blocked? && a.who < |s.calls| && s.calls[a.who].co.Notifying?)
  {
  }

  /** A stopped pipeline can be started, and a drain that has ended leaves it stopped. */
  lemma StartsAndStops(s: State, timeUp: bool)
    ensures s.phase.Stopped? ==>
              var t := Next(Next(Next(s, BeginStart), MarkStarted), FinishStart);
              t == s.(phase := Live, everStarted := true)
    ensures s.drain.Finished? ==> Next(s, StepDrain(timeUp)) == s.(phase := Stopped, drain := NotDraining)
    ensures s.drain.NotDraining? ==> Next(s, BeginDrain) == s.(phase := Draining, drain := LockingDrain)
  {
  }

  /** What the state check of a call looks at is the pipeline's phase, and nothing the rest of the
      world says. */
  lemma StateCheckReadsPhase(s: State, i: nat, w: World)
    requires i < |s.calls| && s.calls[i].caller.CheckingState?
    ensures
      var t := Next(s, StepCaller(i, w));
      && |t.calls| == |s.calls|
      && (t.calls[i].caller.CheckingRate? <==> s.phase.Live?)
      && (t.calls[i].caller == Returned(Failed(PipelineUnavailable)) <==> !s.phase.Live? && s.everStarted)
      && (t.calls[i].caller == Returned(Failed(NotStarted)) <==> !s.phase.Live? && !s.everStarted)
  {
  }

  /** Not past its state check, or refused there. */
  predicate Outside(c: Call) {
    c.co.Unborn? && (c.caller.Entering? || c.caller.CheckingState? || (c.caller.Returned? && c.caller.answer.Failed?))
  }

  ghost predicate AllOutside(s: State, first: nat) {
    forall i :: first <= i < |s.calls| ==> Outside(s.calls[i])
  }

  /** While the pipeline is not live, whoever is outside stays outside. */
  lemma StepKeepsOutside(s: State, a: Action, first: nat)
    requires !s.phase.Live? && first <= |s.calls| && AllOutside(s, first)
    ensures first <= |Next(s, a).calls| && AllOutside(Next(s, a), first)
  {
    var t := Next(s, a);
    forall i | first <= i < |t.calls|
      ensures Outside(t.calls[i])
    {
      assert i < |s.calls| ==> Outside(s.calls[i]);
    }
  }

  ghost predicate NoStartEnds(actions: seq<Action>) {
    forall p :: 0 <= p < |actions| ==> !actions[p].FinishStart?
  }

  lemma {:induction false} RunKeepsOutside(s: State, actions: seq<Action>, first: nat)
    requires !s.phase.Live? && first <= |s.calls| && AllOutside(s, first) && NoStartEnds(actions)
    ensures !Run(s, actions).phase.Live? && first <= |Run(s, actions).calls| && AllOutside(Run(s, actions), first)
  {
    if actions != [] {
      var front, last := actions[..|actions| - 1], actions[|actions| - 1];
      RunKeepsOutside(s, front, first);
      StepKeepsOutside(Run(s, front), last, first);
      PhaseChanges(Run(s, front), last);
    }
  }

  /** Over every run: until a start has been completed, every call is refused or still at its
      checks, and nothing is in flight. */
  lemma NothingBeforeStart(actions: seq<Action>)
    requires NoStartEnds(actions)
    ensures
      var s := Run(Initial(), actions);
      s.inFlight == 0 && forall i :: 0 <= i < |s.calls| ==> s.calls[i].emitted == [] && Outside(s.calls[i])
  {
    RunKeepsOutside(Initial(), actions, 0);
    RunKeepsInv(actions);
    var s := Run(Initial(), actions);
    forall i | 0 <= i < |s.calls|
      ensures Outside(s.calls[i]) && s.calls[i].emitted == [] && !Unfinished(s.calls[i])
    {
      assert CallInv(s.calls[i]);
    }
    CounterMeaning(s);
  }

  /** Over every run: once a drain has begun, and until a start completes, no call that arrives is
      let in. */
  lemma DrainRefusesNewcomers(s: State, actions: seq<Action>, i: nat)
    requires s.drain.NotDraining? && NoStartEnds(actions)
    requires |s.calls| <= i < |Run(Next(s, BeginDrain), actions).calls|
    ensures Outside(Run(Next(s, BeginDrain), actions).calls[i])
  {
    RunKeepsOutside(Next(s, BeginDrain), actions, |s.calls|);
  }
}
