// One event through the whole pipeline: what its own call would do, it does among all the others.
module Serving {
  import opened SyncSubmit
  import opened SyncAnswers
  import opened Pipeline

  /** The same call, up to how far its coroutine is in leaving. */
  predicate Alike(c: Call, d: Call) {
    && d == c.(co := d.co)
    && (c.co == d.co || (Left(c.co) && Left(d.co)))
  }

  function ActionOf(i: nat, m: Move): Action {
    match m
    case ByCaller(w) => StepCaller(i, w)
    case ByCoroutine(w) => StepCoroutine(i, w)
  }

  function ActionsOf(i: nat, moves: seq<Move>): seq<Action> {
    if moves == [] then [] else ActionsOf(i, moves[..|moves| - 1]) + [ActionOf(i, moves[|moves| - 1])]
  }

  /** The rest of the pipeline is as it was. */
  ghost predicate OthersAsBefore(s: State, t: State, i: nat) {
    && t.phase == s.phase && t.everStarted == s.everStarted && |t.calls| == |s.calls|
    && forall j :: 0 <= j < |s.calls| && j != i ==> t.calls[j] == s.calls[j]
  }

  lemma CallerAlike(c: Call, d: Call, w: World)
    requires Alike(c, d)
    ensures Alike(CallerStep(c, w), CallerStep(d, w))
  {
  }

  lemma CompleteAlike(s: State, i: nat)
    requires i < |s.calls| && Left(s.calls[i].co)
    ensures
      var t := Complete(s, i);
      && OthersAsBefore(s, t, i) && Left(t.calls[i].co)
      && t.calls[i] == s.calls[i].(co := t.calls[i].co)
  {
  }

  lemma LeftStays(c: Call, w: World)
    requires Left(c.co)
    ensures CoroutineStep(c, w) == c
  {
  }

  lemma CoroutineAlike(s: State, i: nat, c: Call, w: World)
    requires i < |s.calls| && Alike(c, s.calls[i]) && !c.co.Unborn?
    ensures
      var t := Next(s, StepCoroutine(i, w));
      OthersAsBefore(s, t, i) && Alike(CoroutineStep(c, w), t.calls[i])
  {
    if Left(c.co) {
      LeftStays(c, w);
      CompleteAlike(s, i);
    } else {
      assert c == s.calls[i];
      assert Next(s, StepCoroutine(i, w)) == SetCall(s, i, CoroutineStep(c, w));
    }
  }

  lemma MoveAlike(s: State, i: nat, c: Call, m: Move)
    requires i < |s.calls| && Alike(c, s.calls[i])
    requires m.world.running == s.phase.Live? && m.world.everStarted == s.everStarted
    ensures
      var t := Next(s, ActionOf(i, m));
      OthersAsBefore(s, t, i) && Alike(Made(c, m), t.calls[i])
  {
    match m
    case ByCaller(w) => CallerAlike(c, s.calls[i], w);
    case ByCoroutine(w) => if !c.co.Unborn? { CoroutineAlike(s, i, c, w); }
  }

  /** A call's own moves among any others in the pipeline: it fares as it would alone. */
  lemma {:induction false} PlaysAsAlone(s: State, i: nat, moves: seq<Move>, w: World)
    requires i < |s.calls| && AllIn(moves, w)
    requires w.running == s.phase.Live? && w.everStarted == s.everStarted
    ensures
      var t := Run(s, ActionsOf(i, moves));
      OthersAsBefore(s, t, i) && Alike(Play(s.calls[i], moves), t.calls[i])
  {
    if moves != [] {
      var front, last := moves[..|moves| - 1], moves[|moves| - 1];
      PlaysAsAlone(s, i, front, w);
      MoveAlike(Run(s, ActionsOf(i, front)), i, Play(s.calls[i], front), last);
      assert ActionsOf(i, moves)[..|ActionsOf(i, moves)| - 1] == ActionsOf(i, front);
    }
  }

  /** The actions that bring a new event to its end, whatever else is going on in the pipeline. */
  lemma Served(s: State, sync: bool, stopPossible: bool, moves: seq<Move>, w: World) returns (actions: seq<Action>)
    requires AllIn(moves, w) && w.running == s.phase.Live? && w.everStarted == s.everStarted
    ensures
      var t := Run(s, actions);
      && |t.calls| == |s.calls| + 1
      && Alike(Play(NewCall(sync, stopPossible), moves), t.calls[|s.calls|])
      && forall j :: 0 <= j < |s.calls| ==> t.calls[j] == s.calls[j]
  {
    var i, arrive := |s.calls|, Arrive(sync, stopPossible);
    var u := Next(s, arrive);
    PlaysAsAlone(u, i, moves, w);
    actions := [arrive] + ActionsOf(i, moves);
    assert [arrive][..0] == [];
    RunConcat(s, [arrive], ActionsOf(i, moves));
  }

  /** In a live pipeline, an event that arrives, is admitted, valid, not stopped and in time is
      served: submit_sync can return the decision its stages made, and that decision has been
      emitted, once. */
  lemma LiveEventIsDecided(s: State, stopPossible: bool, w: World) returns (actions: seq<Action>)
    requires s.phase.Live? && w.admitted && w.valid && !w.deadline && !w.stop
    ensures
      var t := Run(s, actions);
      && |t.calls| == |s.calls| + 1
      && t.calls[|s.calls|].caller == Returned(Decided(w.decision))
      && t.calls[|s.calls|].emitted == [w.decision]
  {
    var seen := w.(running := true, everStarted := s.everStarted);
    var moves := AdmittedEventIsDecided(stopPossible, seen);
    actions := Served(s, true, stopPossible, moves, seen);
  }

  /** An event submitted without waiting likewise: it is accepted and emitted once, valid or not. */
  lemma LiveEventIsEmitted(s: State, w: World) returns (actions: seq<Action>)
    requires s.phase.Live? && w.admitted
    ensures
      var t := Run(s, actions);
      && |t.calls| == |s.calls| + 1
      && t.calls[|s.calls|].caller == Returned(Accepted)
      && t.calls[|s.calls|].emitted == [w.decision]
  {
    var seen := w.(running := true, everStarted := s.everStarted);
    var moves := AcceptedEventIsEmitted(seen);
    actions := Served(s, false, false, moves, seen);
  }
}
