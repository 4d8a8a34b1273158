// Which answer a submitted event gets: the cause of each error, what a given world makes of a
// call in every interleaving, and that a call can always be brought to its answer.
module SyncAnswers {
  import opened Options
  import opened SyncSubmit

  /** One step of one party, and what the world decides at it. */
  datatype Move = ByCaller(world: World) | ByCoroutine(world: World)

  function Made(c: Call, m: Move): Call {
    match m
    case ByCaller(w) => CallerStep(c, w)
    case ByCoroutine(w) => if c.co.Unborn? then c else CoroutineStep(c, w)
  }

  function Play(c: Call, moves: seq<Move>): Call {
    if moves == [] then c else Made(Play(c, moves[..|moves| - 1]), moves[|moves| - 1])
  }

  lemma MadeKeepsInv(c: Call, m: Move)
    requires CallInv(c)
    ensures CallInv(Made(c, m))
  {
    match m
    case ByCaller(w) => CallerStepKeepsInv(c, w);
    case ByCoroutine(w) => if !c.co.Unborn? { CoroutineStepKeepsInv(c, w); }
  }

  lemma {:induction false} PlayKeepsInv(c: Call, moves: seq<Move>)
    requires CallInv(c)
    ensures CallInv(Play(c, moves))
  {
    if moves != [] {
      PlayKeepsInv(c, moves[..|moves| - 1]);
      MadeKeepsInv(Play(c, moves[..|moves| - 1]), moves[|moves| - 1]);
    }
  }

  // ------------------------------------------------------------- causes, step by step

  /** The step that answers with an error, and why it does: each error exactly under its cause. */
  lemma ErrorExactlyUnderItsCause(c: Call, w: World, e: SubmitSyncError)
    requires CallInv(c) && !c.caller.Returned?
    ensures CallerStep(c, w).caller == Returned(Failed(e)) <==>
      match e
      case NotStarted => c.caller.CheckingState? && !w.running && !w.everStarted
      case PipelineUnavailable => c.caller.CheckingState? && !w.running && w.everStarted
      case RateLimited => c.caller.CheckingRate? && !w.admitted
      case ValidationFailed => c.caller.ReadingResult? && c.error == Some(ValidationFailed)
      case Cancelled =>
        || (c.caller.Entering? && c.sync && c.stopPossible && w.stop)
        || (c.caller.NamingError? && (c.caller.stopped || (c.stopPossible && w.stop)))
      case Timeout => c.caller.NamingError? && !c.caller.stopped && !(c.stopPossible && w.stop)
  {
    if c.caller.ReadingResult? {
      assert c.error.Some? ==> c.error == Some(ValidationFailed);
    }
  }

  /** A call that is not refused at a check goes on to the next one, and in the end is spawned. */
  lemma ChecksPassed(c: Call, w: World)
    requires !c.caller.Returned?
    ensures !(c.sync && c.stopPossible && w.stop) && c.caller.Entering? ==> CallerStep(c, w).caller.CheckingState?
    ensures w.running && c.caller.CheckingState? ==> CallerStep(c, w).caller.CheckingRate?
    ensures w.admitted && c.caller.CheckingRate? ==> CallerStep(c, w).caller.Counting?
    ensures CallerStep(c, w).caller.Counting? ==> c.caller.CheckingRate? && w.admitted
    ensures CallerStep(c, w).co != c.co ==> c.caller.Spawning? && CallerStep(c, w).co.Running?
  {
  }

  /** The caller gives up waiting exactly when the result is not there and the deadline has passed
      or a stop is requested; the deadline is looked at first. */
  lemma GivesUpIff(c: Call, w: World)
    requires c.caller.Checking?
    ensures
      var next := CallerStep(c, w).caller;
      && (next == Cancelling(false) <==> !c.done && w.deadline)
      && (next == Cancelling(true) <==> !c.done && !w.deadline && c.stopPossible && w.stop)
      && (next.ReadingResult? <==> c.done)
      && (next.Waiting? <==> !c.done && !w.deadline && !(c.stopPossible && w.stop))
  {
  }

  // ------------------------------------------------------------- causes, over whole runs

  /** The move at which the world gives reason for the error. */
  predicate Reason(e: SubmitSyncError, m: Move) {
    match e
    case NotStarted => m.ByCaller? && !m.world.running && !m.world.everStarted
    case PipelineUnavailable => m.ByCaller? && !m.world.running && m.world.everStarted
    case RateLimited => m.ByCaller? && !m.world.admitted
    case ValidationFailed => m.ByCoroutine? && !m.world.valid
    case Cancelled => m.ByCaller? && m.world.stop
    case Timeout => m.ByCaller? && m.world.deadline
  }

  ghost predicate Given(e: SubmitSyncError, moves: seq<Move>) {
    exists i :: 0 <= i < |moves| && Reason(e, moves[i])
  }

  lemma GivenAppend(e: SubmitSyncError, moves: seq<Move>, m: Move)
    ensures Given(e, moves + [m]) <==> Given(e, moves) || Reason(e, m)
  {
    var all := moves + [m];
    if Given(e, moves) {
      var i :| 0 <= i < |moves| && Reason(e, moves[i]);
      assert Reason(e, all[i]);
    }
    assert all[|moves|] == m;
  }

  /** The error that a call on its way to one is going to report, if nothing intervenes. */
  predicate HeadingFor(c: Call, e: SubmitSyncError) {
    match e
    case ValidationFailed => c.error.Some? || c.co.LockingToFail? || c.co.SettingError? || c.co.SettingFailedDone?
    case Cancelled => c.stopPossible && (c.caller == Cancelling(true) || c.caller == Looking(true) || c.caller == NamingError(true))
    case Timeout => c.caller == Cancelling(false) || c.caller == Looking(false) || c.caller == NamingError(false)
    case _ => false
  }

  ghost predicate Explained(c: Call, moves: seq<Move>) {
    forall e :: HeadingFor(c, e) || c.caller == Returned(Failed(e)) ==> Given(e, moves)
  }

  lemma MoveExplains(c: Call, m: Move, e: SubmitSyncError)
    requires CallInv(c) && (c.caller == Cancelling(true) || c.caller == Looking(true) || c.caller == NamingError(true) ==> c.stopPossible)
    ensures
      var d := Made(c, m);
      HeadingFor(d, e) || d.caller == Returned(Failed(e)) ==>
        HeadingFor(c, e) || c.caller == Returned(Failed(e)) || Reason(e, m)
    ensures
      var d := Made(c, m);
      d.caller == Cancelling(true) || d.caller == Looking(true) || d.caller == NamingError(true) ==> d.stopPossible
  {
  }

  lemma {:induction false} AlwaysExplained(sync: bool, stopPossible: bool, moves: seq<Move>)
    ensures
      var c := Play(NewCall(sync, stopPossible), moves);
      && CallInv(c) && Explained(c, moves)
      && (c.caller == Cancelling(true) || c.caller == Looking(true) || c.caller == NamingError(true) ==> c.stopPossible)
  {
    if moves != [] {
      var front, last := moves[..|moves| - 1], moves[|moves| - 1];
      AlwaysExplained(sync, stopPossible, front);
      var c := Play(NewCall(sync, stopPossible), front);
      MadeKeepsInv(c, last);
      assert moves == front + [last];
      forall e | HeadingFor(Made(c, last), e) || Made(c, last).caller == Returned(Failed(e))
        ensures Given(e, moves)
      {
        MoveExplains(c, last, e);
        GivenAppend(e, front, last);
      }
      MoveExplains(c, last, Timeout);
    }
  }

  /** In every interleaving, an error is reported only if the world gave reason for it. */
  lemma ErrorHasReason(sync: bool, stopPossible: bool, moves: seq<Move>, e: SubmitSyncError)
    requires Play(NewCall(sync, stopPossible), moves).caller == Returned(Failed(e))
    ensures Given(e, moves)
  {
    AlwaysExplained(sync, stopPossible, moves);
  }

  // --------------------------------------------------------- a world that does not change

  ghost predicate AllIn(moves: seq<Move>, w: World) {
    forall i :: 0 <= i < |moves| ==> moves[i].world == w
  }

  /** The answer such a world calls for; past the deadline the caller may or may not wait long enough. */
  predicate Fits(sync: bool, stopPossible: bool, w: World, answer: Answer) {
    if sync && stopPossible && w.stop then answer == Failed(Cancelled)
    else if !w.running && !w.everStarted then answer == Failed(NotStarted)
    else if !w.running then answer == Failed(PipelineUnavailable)
    else if !w.admitted then answer == Failed(RateLimited)
    else if !sync then answer == Accepted
    else || answer == (if w.valid then Decided(w.decision) else Failed(ValidationFailed))
         || (w.deadline && answer == Failed(Timeout))
  }

  predicate GivingUp(caller: Caller) {
    caller.Cancelling? || caller.Looking? || caller.NamingError?
  }

  predicate PastState(caller: Caller) {
    !caller.Entering? && !caller.CheckingState? && !caller.Returned?
  }

  /** Where the two parties can be when the world has been w all along. */
  predicate CallerForeseen(c: Call, w: World) {
    && (!c.caller.Entering? && !c.caller.Returned? ==> !(c.sync && c.stopPossible && w.stop))
    && (PastState(c.caller) ==> w.running)
    && (PastState(c.caller) && !c.caller.CheckingRate? ==> w.admitted)
    && (GivingUp(c.caller) ==> !c.caller.stopped && w.deadline)
    && (c.caller.Returned? ==> Fits(c.sync, c.stopPossible, w, c.caller.answer))
    && (c.caller.Returned? && c.caller.answer.Decided? && !w.deadline ==> c.done)
  }

  predicate CoroutineForeseen(c: Call, w: World) {
    && (c.sync && (c.co.LockingToFail? || c.co.SettingError? || c.co.SettingFailedDone? || c.error.Some?) ==> !w.valid)
    && (c.sync && (c.co.LockingToCapture? || c.co.CheckingCancelled? || c.co.Capturing?) ==> w.valid && c.co.d == w.decision)
    && (c.co.Emitting? ==> c.co.d == w.decision && (c.sync ==> w.valid))
    && (c.decision.Some? ==> c.decision.value == w.decision && w.valid)
    && (c.emitted == [] || c.emitted == [w.decision])
  }

  lemma CallerMoveForeseen(c: Call, w: World)
    requires CallInv(c) && CallerForeseen(c, w) && CoroutineForeseen(c, w)
    ensures CallerForeseen(CallerStep(c, w), w) && CoroutineForeseen(CallerStep(c, w), w)
  {
  }

  lemma CoroutineMoveForeseen(c: Call, w: World)
    requires CallInv(c) && CallerForeseen(c, w) && CoroutineForeseen(c, w) && !c.co.Unborn?
    ensures CallerForeseen(CoroutineStep(c, w), w) && CoroutineForeseen(CoroutineStep(c, w), w)
  {
  }

  lemma {:induction false} PlayForeseen(sync: bool, stopPossible: bool, moves: seq<Move>, w: World)
    requires AllIn(moves, w)
    ensures
      var c := Play(NewCall(sync, stopPossible), moves);
      CallInv(c) && CallerForeseen(c, w) && CoroutineForeseen(c, w) && c.sync == sync && c.stopPossible == stopPossible
  {
    if moves != [] {
      var front, last := moves[..|moves| - 1], moves[|moves| - 1];
      PlayForeseen(sync, stopPossible, front, w);
      var c := Play(NewCall(sync, stopPossible), front);
      MadeKeepsInv(c, last);
      if last.ByCaller? {
        CallerMoveForeseen(c, w);
      } else if !c.co.Unborn? {
        CoroutineMoveForeseen(c, w);
      }
    }
  }

  /** In every interleaving in an unchanging world, an answer is the one that world calls for: an
      event that is admitted, valid and not cancelled gets its decision, and nothing else. */
  lemma AnswerFitsTheWorld(sync: bool, stopPossible: bool, moves: seq<Move>, w: World)
    requires AllIn(moves, w) && Play(NewCall(sync, stopPossible), moves).caller.Returned?
    ensures Fits(sync, stopPossible, w, Play(NewCall(sync, stopPossible), moves).caller.answer)
  {
    PlayForeseen(sync, stopPossible, moves, w);
  }

  // ----------------------------------------------------------- an answer is always near

  function CoroutineRank(co: Coroutine): nat {
    match co
    case Unborn => 12
    case Running => 11
    case LockingToFail | LockingToCapture(_) => 10
    case SettingError | CheckingCancelled(_) => 9
    case SettingFailedDone | Capturing(_) => 8
    case Emitting(_) => 7
    case LockingToFinish(_) => 6
    case SettingDone(_) => 5
    case Completing(_) | LockingToNotify(_) | Notifying(_) | Gone(_) => 0
  }

  /** A caller that waits comes near once the coroutine has left. */
  function CallerRank(c: Call): nat {
    match c.caller
    case Entering => 14
    case CheckingState => 13
    case CheckingRate => 12
    case Counting => 11
    case Spawning => 10
    case Waiting => if Left(c.co) then 8 else 0
    case Locking => 7
    case Checking => 6
    case Cancelling(_) => 4
    case Looking(_) => 3
    case NamingError(_) => 2
    case ReadingResult => 1
    case Returned(_) => 0
  }

  predicate Nearer(d: Call, c: Call) {
    || CoroutineRank(d.co) < CoroutineRank(c.co)
    || (CoroutineRank(d.co) == CoroutineRank(c.co) && CallerRank(d) < CallerRank(c))
  }

  /** Nobody is ever stuck: some party's next step brings the answer nearer. */
  lemma NextMove(c: Call, w: World) returns (m: Move)
    requires CallInv(c) && !c.caller.Returned?
    ensures m.world == w && Nearer(Made(c, m), c)
  {
    if !c.mutex.CallerHolds? && !c.co.Unborn? && !Left(c.co) {
      m := ByCoroutine(w);
    } else {
      m := ByCaller(w);
    }
  }

  lemma {:induction false} PlayFirst(c: Call, m: Move, rest: seq<Move>)
    ensures Play(c, [m] + rest) == Play(Made(c, m), rest)
  {
    var all := [m] + rest;
    if rest == [] {
      assert all[..0] == [];
    } else {
      var front := rest[..|rest| - 1];
      PlayFirst(c, m, front);
      assert all[..|all| - 1] == [m] + front;
    }
  }

  /** From every state that a call can be in, steps of its two parties lead to an answer. */
  lemma {:induction false} CanAlwaysReturn(c: Call, w: World) returns (moves: seq<Move>)
    requires CallInv(c)
    ensures AllIn(moves, w) && Play(c, moves).caller.Returned?
    decreases CoroutineRank(c.co), CallerRank(c)
  {
    if c.caller.Returned? {
      moves := [];
    } else {
      var m := NextMove(c, w);
      MadeKeepsInv(c, m);
      var rest := CanAlwaysReturn(Made(c, m), w);
      moves := [m] + rest;
      PlayFirst(c, m, rest);
    }
  }

  /** An event submitted to a live pipeline, admitted, valid, not cancelled and in time: its
      parties can bring it to its decision, and that decision has then been emitted, once. */
  lemma AdmittedEventIsDecided(stopPossible: bool, w: World) returns (moves: seq<Move>)
    requires w.running && w.admitted && w.valid && !w.deadline && !w.stop
    ensures AllIn(moves, w)
    ensures
      var c := Play(NewCall(true, stopPossible), moves);
      c.caller == Returned(Decided(w.decision)) && c.emitted == [w.decision]
  {
    moves := CanAlwaysReturn(NewCall(true, stopPossible), w);
    PlayForeseen(true, stopPossible, moves, w);
    AnswerMeaning(Play(NewCall(true, stopPossible), moves));
  }

  /** How far the caller is from giving the mutex back. */
  function HoldRank(caller: Caller): nat {
    match caller
    case Checking => 3
    case Cancelling(_) => 2
    case Looking(_) | ReadingResult => 1
    case _ => 0
  }

  /** From every state after the spawn, steps of the two parties lead the coroutine out, through
      one of its three exits. */
  lemma {:induction false} CanAlwaysLeave(c: Call, w: World) returns (moves: seq<Move>)
    requires CallInv(c) && !c.co.Unborn?
    ensures AllIn(moves, w) && Left(Play(c, moves).co)
    decreases CoroutineRank(c.co), HoldRank(c.caller)
  {
    if Left(c.co) {
      moves := [];
    } else {
      var m := if c.mutex.CallerHolds? then ByCaller(w) else ByCoroutine(w);
      MadeKeepsInv(c, m);
      LeavingMove(c, m);
      var rest := CanAlwaysLeave(Made(c, m), w);
      moves := [m] + rest;
      PlayFirst(c, m, rest);
    }
  }

  lemma LeavingMove(c: Call, m: Move)
    requires CallInv(c) && !c.co.Unborn? && !Left(c.co)
    requires if c.mutex.CallerHolds? then m.ByCaller? else m.ByCoroutine?
    ensures
      var d := Made(c, m);
      && !d.co.Unborn?
      && (|| CoroutineRank(d.co) < CoroutineRank(c.co)
          || (CoroutineRank(d.co) == CoroutineRank(c.co) && HoldRank(d.caller) < HoldRank(c.caller)))
  {
  }

  /** An event submitted without waiting, to a live pipeline and admitted: whatever else the world
      is like, it is accepted, and its parties can bring it to exactly one emission. */
  lemma AcceptedEventIsEmitted(w: World) returns (moves: seq<Move>)
    requires w.running && w.admitted
    ensures AllIn(moves, w)
    ensures
      var c := Play(NewCall(false, false), moves);
      c.caller == Returned(Accepted) && c.emitted == [w.decision]
  {
    var first := CanAlwaysReturn(NewCall(false, false), w);
    PlayForeseen(false, false, first, w);
    var second := CanAlwaysLeave(Play(NewCall(false, false), first), w);
    moves := first + second;
    PlayConcat(NewCall(false, false), first, second);
    PlayForeseen(false, false, moves, w);
    AnswerStays(Play(NewCall(false, false), first), second);
    AnswerMeaning(Play(NewCall(false, false), moves));
  }

  lemma {:induction false} PlayConcat(c: Call, a: seq<Move>, b: seq<Move>)
    ensures Play(c, a + b) == Play(Play(c, a), b)
  {
    if b == [] {
      assert a + b == a;
    } else {
      PlayConcat(c, a, b[..|b| - 1]);
      assert (a + b)[..|a + b| - 1] == a + b[..|b| - 1];
    }
  }

  lemma {:induction false} AnswerStays(c: Call, moves: seq<Move>)
    requires c.caller.Returned?
    ensures Play(c, moves).caller == c.caller
  {
    if moves != [] {
      AnswerStays(c, moves[..|moves| - 1]);
    }
  }
}
