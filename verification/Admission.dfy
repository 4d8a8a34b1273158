// One tenant's admission state under any number of concurrent callers: the lock-free
// token bucket and the concurrency cap, one atomic access a step.
module Admission {
  import opened Bits
  import opened Slots

  const TOKEN_SCALE: int := 1024
  const NS_PER_SECOND: int := 1_000_000_000

  datatype RateLimit = RateLimit(bucketCapacity: nat, tokensPerSecond: nat, maxConcurrent: int) {
    function CapacityFp(): int {
      bucketCapacity * TOKEN_SCALE
    }

    function RateFpPerNs(): int {
      tokensPerSecond * TOKEN_SCALE / NS_PER_SECOND
    }
  }

  /** Where one caller of try_acquire / release stands between two atomic accesses. */
  datatype Caller =
    | Idle
    | LoadRefill(now: nat)
    | SwapRefill(now: nat, prev: nat)
    | LoadToAdd(add: int)
    | SwapToAdd(add: int, cur: int)
    | LoadToConsume
    | SwapToConsume(cur: int)
    | TookToken
    | OverCap
    | Holding

  /** consumed, admitted and clamped are history: what successful swaps added up to. */
  datatype State = State(
    tokens: int, lastRefillNs: nat, inFlight: int, callers: seq<Caller>,
    consumed: nat, admitted: nat, clamped: int)

  /** Who moves, what the clock reads if it is read, whether a weak swap fails for no reason. */
  datatype Choice = Choice(caller: nat, now: nat, spurious: bool)

  function Initial(limit: RateLimit, t0: nat, callers: nat): State {
    State(limit.CapacityFp(), t0, 0, seq(callers, _ => Idle), 0, 0, 0)
  }

  function AsInt64(x: int): int {
    if x < TWO63 then x else x - TWO64
  }

  /** now_ns - prev_ns in uint64, then cast to int64. */
  function SignedElapsed(now: nat, prev: nat): int {
    AsInt64((now - prev) % TWO64)
  }

  function Step(limit: RateLimit, s: State, choice: Choice): State {
    if choice.caller >= |s.callers| then s else
      var c := choice.caller;
      match s.callers[c]
      case Idle => Goto(s, c, LoadRefill(choice.now))
      case LoadRefill(now) => Goto(s, c, SwapRefill(now, s.lastRefillNs))
      case SwapRefill(now, prev) =>
        var elapsed := SignedElapsed(now, prev);
        var add := elapsed * limit.RateFpPerNs();
        if elapsed == 0 || add <= 0 then Goto(s, c, LoadToConsume)
        else if s.lastRefillNs == prev && !choice.spurious then
          Goto(s.(lastRefillNs := now), c, LoadToAdd(add))
        else Goto(s, c, SwapRefill(now, s.lastRefillNs))
      case LoadToAdd(add) => Goto(s, c, SwapToAdd(add, s.tokens))
      case SwapToAdd(add, cur) =>
        var next := if cur + add < limit.CapacityFp() then cur + add else limit.CapacityFp();
        if s.tokens == cur && !choice.spurious then
          Goto(s.(tokens := next, clamped := s.clamped + (cur + add - next)), c, LoadToConsume)
        else Goto(s, c, SwapToAdd(add, s.tokens))
      case LoadToConsume => Goto(s, c, SwapToConsume(s.tokens))
      case SwapToConsume(cur) =>
        if cur < TOKEN_SCALE then Goto(s, c, Idle)
        else if s.tokens == cur && !choice.spurious then
          Goto(s.(tokens := cur - TOKEN_SCALE, consumed := s.consumed + 1), c, TookToken)
        else Goto(s, c, SwapToConsume(s.tokens))
      case TookToken =>
        if s.inFlight >= limit.maxConcurrent then Goto(s.(inFlight := s.inFlight + 1), c, OverCap)
        else Goto(s.(inFlight := s.inFlight + 1, admitted := s.admitted + 1), c, Holding)
      case OverCap => Goto(s.(inFlight := s.inFlight - 1), c, Idle)
      case Holding => Goto(s.(inFlight := s.inFlight - 1), c, Idle)
  }

  function Goto(s: State, c: nat, caller: Caller): State
    requires c < |s.callers|
  {
    s.(callers := s.callers[c := caller])
  }

  function Run(limit: RateLimit, s: State, choices: seq<Choice>): State {
    if choices == [] then s
    else Step(limit, Run(limit, s, choices[..|choices| - 1]), choices[|choices| - 1])
  }

  // -------------------------------------------------------------- invariant

  /** A refill this caller has won but not yet added. */
  function Owed(c: Caller): int {
    if c.LoadToAdd? || c.SwapToAdd? then c.add else 0
  }

  function Held(c: Caller): int {
    if c.Holding? then 1 else 0
  }

  function Undoing(c: Caller): int {
    if c.OverCap? then 1 else 0
  }

  function Took(c: Caller): int {
    if c.TookToken? then 1 else 0
  }

  predicate ValidCaller(c: Caller, horizon: nat) {
    match c
    case LoadRefill(now) => now <= horizon
    case SwapRefill(now, prev) => now <= horizon && prev <= horizon
    case LoadToAdd(add) => add > 0
    case SwapToAdd(add, _) => add > 0
    case _ => true
  }

  ghost predicate Conserved(limit: RateLimit, t0: nat, s: State) {
    TOKEN_SCALE * s.consumed + s.tokens + Total(Owed, s.callers) + s.clamped
    == limit.CapacityFp() + limit.RateFpPerNs() * (s.lastRefillNs - t0)
  }

  ghost predicate CapRespected(limit: RateLimit, s: State) {
    && s.inFlight == Total(Held, s.callers) + Total(Undoing, s.callers)
    && (Total(Held, s.callers) > 0 ==> Total(Held, s.callers) <= limit.maxConcurrent)
    && s.admitted + Total(Took, s.callers) <= s.consumed
  }

  /** horizon bounds every clock reading so far. */
  ghost predicate Inv(limit: RateLimit, t0: nat, horizon: nat, s: State) {
    && 0 <= s.tokens <= limit.CapacityFp()
    && 0 <= s.clamped
    && t0 <= s.lastRefillNs <= horizon
    && (forall c :: c in s.callers ==> ValidCaller(c, horizon))
    && Conserved(limit, t0, s)
    && CapRespected(limit, s)
  }

  lemma GotoTotals(s: State, c: nat, caller: Caller)
    requires c < |s.callers|
    ensures
      var t := Goto(s, c, caller).callers;
      && Total(Owed, t) == Total(Owed, s.callers) - Owed(s.callers[c]) + Owed(caller)
      && Total(Held, t) == Total(Held, s.callers) - Held(s.callers[c]) + Held(caller)
      && Total(Undoing, t) == Total(Undoing, s.callers) - Undoing(s.callers[c]) + Undoing(caller)
      && Total(Took, t) == Total(Took, s.callers) - Took(s.callers[c]) + Took(caller)
  {
    TotalUpdate(Owed, s.callers, c, caller);
    TotalUpdate(Held, s.callers, c, caller);
    TotalUpdate(Undoing, s.callers, c, caller);
    TotalUpdate(Took, s.callers, c, caller);
  }

  /** Below 2^63 the unsigned difference, cast back, is the signed one: a caller whose clock
      is behind sees a negative elapsed time, never a huge one. */
  lemma SignedElapsedIsDifference(now: nat, prev: nat)
    requires now < TWO63 && prev < TWO63
    ensures SignedElapsed(now, prev) == now - prev
  {
    if now >= prev {
      ModUnique(now - prev, TWO64, 0, now - prev);
    } else {
      ModUnique(now - prev, TWO64, -1, now - prev + TWO64);
    }
  }

  /** On any two clock readings, the one signed 64-bit number congruent to their difference. */
  lemma SignedElapsedFits(now: nat, prev: nat)
    ensures 0 - TWO63 <= SignedElapsed(now, prev) < TWO63
    ensures exists q: int :: now - prev == q * TWO64 + SignedElapsed(now, prev)
  {
    var d := now - prev;
    var q, r := d / TWO64, d % TWO64;
    assert d == q * TWO64 + r;
    if r >= TWO63 {
      assert d == (q + 1) * TWO64 + SignedElapsed(now, prev);
    }
  }

  lemma PositiveProduct(a: int, b: int)
    requires b >= 0 && a * b > 0
    ensures a > 0
  {
  }

  lemma HeldFits(s: State)
    ensures Total(Held, s.callers) >= 0 && Total(Undoing, s.callers) >= 0 && Total(Took, s.callers) >= 0
  {
    TotalNonNegative(Held, s.callers);
    TotalNonNegative(Undoing, s.callers);
    TotalNonNegative(Took, s.callers);
  }

  lemma StepKeepsCallers(limit: RateLimit, t0: nat, horizon: nat, s: State, choice: Choice)
    requires Inv(limit, t0, horizon, s) && choice.now <= horizon && choice.caller < |s.callers|
    ensures
      var s' := Step(limit, s, choice);
      && s'.callers == s.callers[choice.caller := s'.callers[choice.caller]]
      && forall c :: c in s'.callers ==> ValidCaller(c, horizon)
  {
    var c, s' := choice.caller, Step(limit, s, choice);
    assert s.callers[c] in s.callers;
    assert ValidCaller(s'.callers[c], horizon);
    forall x | x in s'.callers ensures x in s.callers || x == s'.callers[c] {
    }
  }

  /** What a step does to the slot counter, read off the caller that takes it. */
  lemma StepMovesSlots(limit: RateLimit, s: State, choice: Choice)
    requires choice.caller < |s.callers|
    ensures
      var s' := Step(limit, s, choice);
      var pc, pc' := s.callers[choice.caller], s'.callers[choice.caller];
      && s'.callers == s.callers[choice.caller := pc']
      && s'.inFlight - s.inFlight == Held(pc') + Undoing(pc') - Held(pc) - Undoing(pc)
      && s'.admitted + Took(pc') - s'.consumed <= s.admitted + Took(pc) - s.consumed
      && (Held(pc') > Held(pc) ==> s.inFlight < limit.maxConcurrent)
  {
  }

  lemma StepKeepsCap(limit: RateLimit, s: State, choice: Choice)
    requires CapRespected(limit, s) && choice.caller < |s.callers|
    ensures CapRespected(limit, Step(limit, s, choice))
  {
    var s' := Step(limit, s, choice);
    StepMovesSlots(limit, s, choice);
    GotoTotals(s, choice.caller, s'.callers[choice.caller]);
    HeldFits(s);
  }

  lemma WonRefill(limit: RateLimit, now: nat, prev: nat)
    requires now < TWO63 && prev < TWO63 && SignedElapsed(now, prev) * limit.RateFpPerNs() > 0
    ensures now > prev && SignedElapsed(now, prev) == now - prev
  {
    SignedElapsedIsDifference(now, prev);
    PositiveProduct(now - prev, limit.RateFpPerNs());
  }

  /** A step of the refill loop moves only the clock, and owes what that is worth. */
  lemma RefillMovesClock(limit: RateLimit, s: State, choice: Choice)
    requires choice.caller < |s.callers| && s.callers[choice.caller].SwapRefill?
    requires ValidCaller(s.callers[choice.caller], TWO63 - 1)
    ensures
      var s' := Step(limit, s, choice);
      var pc, pc' := s.callers[choice.caller], s'.callers[choice.caller];
      && s'.tokens == s.tokens && s'.consumed == s.consumed && s'.clamped == s.clamped
      && s.lastRefillNs <= s'.lastRefillNs
      && (s'.lastRefillNs > s.lastRefillNs ==> s'.lastRefillNs == pc.now)
      && Owed(pc') == (s'.lastRefillNs - s.lastRefillNs) * limit.RateFpPerNs()
  {
    var pc := s.callers[choice.caller];
    if Step(limit, s, choice).callers[choice.caller].LoadToAdd? {
      WonRefill(limit, pc.now, pc.prev);
    }
  }

  /** Any other step leaves the clock alone. */
  lemma OtherStepsMoveTokens(limit: RateLimit, s: State, choice: Choice)
    requires choice.caller < |s.callers| && 0 <= s.tokens <= limit.CapacityFp() && !s.callers[choice.caller].SwapRefill?
    requires ValidCaller(s.callers[choice.caller], TWO63 - 1)
    ensures
      var s' := Step(limit, s, choice);
      var pc, pc' := s.callers[choice.caller], s'.callers[choice.caller];
      && 0 <= s'.tokens <= limit.CapacityFp() && s.clamped <= s'.clamped
      && s'.lastRefillNs == s.lastRefillNs
      && TOKEN_SCALE * s'.consumed + s'.tokens + Owed(pc') + s'.clamped
         == TOKEN_SCALE * s.consumed + s.tokens + Owed(pc) + s.clamped
  {
  }

  /** What a step moves between the bucket, its callers and the history. */
  lemma StepMovesTokens(limit: RateLimit, s: State, choice: Choice)
    requires choice.caller < |s.callers| && 0 <= s.tokens <= limit.CapacityFp()
    requires ValidCaller(s.callers[choice.caller], TWO63 - 1)
    ensures
      var s' := Step(limit, s, choice);
      var pc, pc' := s.callers[choice.caller], s'.callers[choice.caller];
      && 0 <= s'.tokens <= limit.CapacityFp() && s.clamped <= s'.clamped
      && s.lastRefillNs <= s'.lastRefillNs
      && (s'.lastRefillNs > s.lastRefillNs ==> pc.SwapRefill? && s'.lastRefillNs == pc.now)
      && TOKEN_SCALE * s'.consumed + s'.tokens + Owed(pc') + s'.clamped
         == TOKEN_SCALE * s.consumed + s.tokens + Owed(pc) + s.clamped
            + (s'.lastRefillNs - s.lastRefillNs) * limit.RateFpPerNs()
  {
    if s.callers[choice.caller].SwapRefill? {
      RefillMovesClock(limit, s, choice);
    } else {
      OtherStepsMoveTokens(limit, s, choice);
    }
  }

  lemma StepKeepsBooks(limit: RateLimit, t0: nat, horizon: nat, s: State, choice: Choice)
    requires Inv(limit, t0, horizon, s) && choice.now <= horizon < TWO63 && choice.caller < |s.callers|
    ensures
      var s' := Step(limit, s, choice);
      && 0 <= s'.tokens <= limit.CapacityFp()
      && 0 <= s'.clamped
      && s.lastRefillNs <= s'.lastRefillNs <= horizon
      && Conserved(limit, t0, s')
  {
    var c, s' := choice.caller, Step(limit, s, choice);
    assert s.callers[c] in s.callers;
    StepMovesTokens(limit, s, choice);
    StepMovesSlots(limit, s, choice);
    GotoTotals(s, c, s'.callers[c]);
    Distribute(limit.RateFpPerNs(), s.lastRefillNs - t0, s'.lastRefillNs - s.lastRefillNs);
  }

  lemma Distribute(r: int, a: int, b: int)
    ensures r * (a + b) == r * a + b * r
  {
  }

  /** One atomic access by any caller keeps the invariant, and never turns the refill clock back. */
  lemma StepKeepsInv(limit: RateLimit, t0: nat, horizon: nat, s: State, choice: Choice)
    requires Inv(limit, t0, horizon, s) && choice.now <= horizon < TWO63
    ensures Inv(limit, t0, horizon, Step(limit, s, choice))
    ensures Step(limit, s, choice).lastRefillNs >= s.lastRefillNs
  {
    if choice.caller < |s.callers| {
      StepKeepsCallers(limit, t0, horizon, s, choice);
      StepKeepsCap(limit, s, choice);
      StepKeepsBooks(limit, t0, horizon, s, choice);
    }
  }

  lemma InitialInv(limit: RateLimit, t0: nat, horizon: nat, callers: nat)
    requires t0 <= horizon
    ensures Inv(limit, t0, horizon, Initial(limit, t0, callers))
  {
    var s := Initial(limit, t0, callers);
    TotalNonNegative(Owed, s.callers);
    TotalNonNegative(Held, s.callers);
    TotalNonNegative(Undoing, s.callers);
    TotalNonNegative(Took, s.callers);
  }

  ghost predicate ClockWithin(choices: seq<Choice>, horizon: nat) {
    forall i :: 0 <= i < |choices| ==> choices[i].now <= horizon
  }

  /** Every interleaving keeps the books, the bounds and the cap. */
  lemma {:induction false} RunKeepsInv(limit: RateLimit, t0: nat, horizon: nat, callers: nat, choices: seq<Choice>)
    requires t0 <= horizon < TWO63 && ClockWithin(choices, horizon)
    ensures Inv(limit, t0, horizon, Run(limit, Initial(limit, t0, callers), choices))
  {
    if choices == [] {
      InitialInv(limit, t0, horizon, callers);
    } else {
      var front := choices[..|choices| - 1];
      RunKeepsInv(limit, t0, horizon, callers, front);
      StepKeepsInv(limit, t0, horizon, Run(limit, Initial(limit, t0, callers), front), choices[|choices| - 1]);
    }
  }

  lemma OwedNonNegative(s: State, horizon: nat)
    requires forall c :: c in s.callers ==> ValidCaller(c, horizon)
    ensures Total(Owed, s.callers) >= 0
  {
    forall i | 0 <= i < |s.callers| ensures Owed(s.callers[i]) >= 0 {
      assert s.callers[i] in s.callers;
    }
    TotalNonNegative(Owed, s.callers);
  }

  /** No schedule lets more through than the burst plus the configured rate. */
  lemma ThroughputBound(limit: RateLimit, t0: nat, horizon: nat, callers: nat, choices: seq<Choice>)
    requires t0 <= horizon < TWO63 && ClockWithin(choices, horizon)
    ensures
      var s := Run(limit, Initial(limit, t0, callers), choices);
      && s.admitted <= s.consumed
      && s.consumed * NS_PER_SECOND
         <= limit.bucketCapacity * NS_PER_SECOND + limit.tokensPerSecond * (horizon - t0)
  {
    var s := Run(limit, Initial(limit, t0, callers), choices);
    RunKeepsInv(limit, t0, horizon, callers, choices);
    HeldFits(s);
    OwedNonNegative(s, horizon);
    var rate, elapsed := limit.RateFpPerNs(), s.lastRefillNs - t0;
    assert TOKEN_SCALE * s.consumed <= TOKEN_SCALE * limit.bucketCapacity + rate * elapsed;
    RateBound(limit, elapsed, horizon - t0);
  }

  lemma RateBound(limit: RateLimit, elapsed: nat, longer: nat)
    requires elapsed <= longer
    ensures limit.RateFpPerNs() * elapsed * NS_PER_SECOND <= TOKEN_SCALE * (limit.tokensPerSecond * longer)
  {
    var rate, tps := limit.RateFpPerNs(), limit.tokensPerSecond;
    assert rate * NS_PER_SECOND <= tps * TOKEN_SCALE;
    MulMonotone(rate * NS_PER_SECOND, tps * TOKEN_SCALE, elapsed);
    MulMonotone(elapsed, longer, tps);
    assert rate * elapsed * NS_PER_SECOND == rate * NS_PER_SECOND * elapsed;
    assert tps * TOKEN_SCALE * elapsed == TOKEN_SCALE * (elapsed * tps);
  }

  /** At most max_concurrent slots are held at once, and the counter is never negative. */
  lemma ConcurrencyCap(limit: RateLimit, t0: nat, horizon: nat, callers: nat, choices: seq<Choice>)
    requires t0 <= horizon < TWO63 && ClockWithin(choices, horizon)
    ensures
      var s := Run(limit, Initial(limit, t0, callers), choices);
      && 0 <= s.inFlight == Total(Held, s.callers) + Total(Undoing, s.callers)
      && Total(Held, s.callers) <= (if limit.maxConcurrent > 0 then limit.maxConcurrent else 0)
  {
    RunKeepsInv(limit, t0, horizon, callers, choices);
    HeldFits(Run(limit, Initial(limit, t0, callers), choices));
  }

  // --------------------------------------- why a caller gets what it gets, under contention

  /** Its position when it last read the bucket's fields, if it stands on what it read. */
  predicate StandsOnRead(pc: Caller) {
    pc.SwapToConsume? || pc.SwapToAdd? || pc.SwapRefill?
  }

  /** What the caller read is what the field held. */
  predicate ReadFrom(pc: Caller, s: State) {
    match pc
    case SwapToConsume(cur) => cur == s.tokens
    case SwapToAdd(_, cur) => cur == s.tokens
    case SwapRefill(_, prev) => prev == s.lastRefillNs
    case _ => true
  }

  ghost function StateAt(limit: RateLimit, t0: nat, callers: nat, choices: seq<Choice>, n: nat): State
    requires n <= |choices|
  {
    Run(limit, Initial(limit, t0, callers), choices[..n])
  }

  lemma StateNext(limit: RateLimit, t0: nat, callers: nat, choices: seq<Choice>, n: nat)
    requires n < |choices|
    ensures StateAt(limit, t0, callers, choices, n + 1) == Step(limit, StateAt(limit, t0, callers, choices, n), choices[n])
    ensures |StateAt(limit, t0, callers, choices, n + 1).callers| == |StateAt(limit, t0, callers, choices, n).callers|
  {
    assert choices[..n + 1][..n] == choices[..n];
    StepKeepsCount(limit, StateAt(limit, t0, callers, choices, n), choices[n]);
  }

  lemma StepKeepsCount(limit: RateLimit, s: State, choice: Choice)
    ensures |Step(limit, s, choice).callers| == |s.callers|
  {
  }

  lemma {:induction false} CallersStay(limit: RateLimit, t0: nat, callers: nat, choices: seq<Choice>, n: nat)
    requires n <= |choices|
    ensures |StateAt(limit, t0, callers, choices, n).callers| == callers
  {
    if n > 0 {
      CallersStay(limit, t0, callers, choices, n - 1);
      StateNext(limit, t0, callers, choices, n - 1);
    }
  }

  /** A step leaves a caller where it was, or it is that caller's step and what it stands on
      afterwards has just been read. */
  lemma StepReads(limit: RateLimit, s: State, choice: Choice, c: nat)
    requires c < |s.callers|
    ensures
      var pc, pc' := s.callers[c], Step(limit, s, choice).callers[c];
      pc' == pc || (choice.caller == c && (StandsOnRead(pc') ==> ReadFrom(pc', s)))
  {
  }

  /** Caller c read what it stands on in state j, and has stood there ever since. */
  ghost predicate ReadAt(limit: RateLimit, t0: nat, callers: nat, choices: seq<Choice>, j: nat, n: nat, c: nat)
    requires j < n <= |choices| && c < callers
  {
    && c < |StateAt(limit, t0, callers, choices, n).callers|
    && ReadFrom(StateAt(limit, t0, callers, choices, n).callers[c], StateAt(limit, t0, callers, choices, j))
    && choices[j].caller == c
    && forall m: nat :: j < m <= n ==> SamePlace(limit, t0, callers, choices, m, n, c)
  }

  ghost predicate SamePlace(limit: RateLimit, t0: nat, callers: nat, choices: seq<Choice>, m: nat, n: nat, c: nat)
    requires m <= |choices| && n <= |choices|
  {
    && c < |StateAt(limit, t0, callers, choices, m).callers| && c < |StateAt(limit, t0, callers, choices, n).callers|
    && StateAt(limit, t0, callers, choices, m).callers[c] == StateAt(limit, t0, callers, choices, n).callers[c]
  }

  /** Over every run, whatever a caller is about to decide on was in the bucket when it read it. */
  lemma {:induction false} ReadsAreReal(limit: RateLimit, t0: nat, callers: nat, choices: seq<Choice>, n: nat, c: nat) returns (j: nat)
    requires n <= |choices| && c < callers
    requires c < |StateAt(limit, t0, callers, choices, n).callers|
    requires StandsOnRead(StateAt(limit, t0, callers, choices, n).callers[c])
    ensures j < n && ReadAt(limit, t0, callers, choices, j, n, c)
  {
    var m := n - 1;
    StateNext(limit, t0, callers, choices, m);
    var s := StateAt(limit, t0, callers, choices, m);
    StepReads(limit, s, choices[m], c);
    if StateAt(limit, t0, callers, choices, n).callers[c] == s.callers[c] && !(choices[m].caller == c && ReadFrom(s.callers[c], s)) {
      j := ReadsAreReal(limit, t0, callers, choices, m, c);
      forall i: nat | j < i <= n
        ensures SamePlace(limit, t0, callers, choices, i, n, c)
      {
        assert i <= m ==> SamePlace(limit, t0, callers, choices, i, m, c);
      }
    } else {
      j := m;
    }
  }

  /** Step n sends caller c away from the consume loop without a token. */
  ghost predicate RefusedAt(limit: RateLimit, t0: nat, callers: nat, choices: seq<Choice>, n: nat, c: nat)
    requires n < |choices|
  {
    var s, s' := StateAt(limit, t0, callers, choices, n), StateAt(limit, t0, callers, choices, n + 1);
    && c < |s.callers| && c < |s'.callers|
    && (s.callers[c].LoadToConsume? || s.callers[c].SwapToConsume?) && s'.callers[c].Idle?
  }

  /** What the consume loop does with what it read. */
  lemma ConsumeStep(limit: RateLimit, s: State, choice: Choice)
    requires choice.caller < |s.callers|
    requires s.callers[choice.caller].LoadToConsume? || s.callers[choice.caller].SwapToConsume?
    ensures
      var s' := Step(limit, s, choice);
      var pc, pc' := s.callers[choice.caller], s'.callers[choice.caller];
      && (pc'.Idle? <==> pc.SwapToConsume? && pc.cur < TOKEN_SCALE)
      && (pc'.TookToken? <==> pc.SwapToConsume? && pc.cur >= TOKEN_SCALE && s.tokens == pc.cur && !choice.spurious)
      && (pc'.TookToken? ==> s'.tokens == s.tokens - TOKEN_SCALE && s'.consumed == s.consumed + 1)
      && (!pc'.TookToken? ==> s'.tokens == s.tokens && s'.consumed == s.consumed)
      && (!pc'.Idle? && !pc'.TookToken? ==> pc' == SwapToConsume(s.tokens))
  {
  }

  /** Over every run and against any rivals, a caller is refused for want of tokens only if at
      its last read the bucket did not hold a whole token; losing an exchange never refuses it. */
  lemma RefusedOnlyWhenEmpty(limit: RateLimit, t0: nat, callers: nat, choices: seq<Choice>, n: nat, c: nat) returns (j: nat)
    requires n < |choices| && c < callers && RefusedAt(limit, t0, callers, choices, n, c)
    ensures j < n && ReadAt(limit, t0, callers, choices, j, n, c)
    ensures StateAt(limit, t0, callers, choices, j).tokens < TOKEN_SCALE
  {
    var s := StateAt(limit, t0, callers, choices, n);
    StateNext(limit, t0, callers, choices, n);
    StepReads(limit, s, choices[n], c);
    ConsumeStep(limit, s, choices[n]);
    j := ReadsAreReal(limit, t0, callers, choices, n, c);
  }

  /** Step n takes caller c out of the refill loop without a refill. */
  ghost predicate RefillSkippedAt(limit: RateLimit, t0: nat, callers: nat, choices: seq<Choice>, n: nat, c: nat)
    requires n < |choices|
  {
    var s, s' := StateAt(limit, t0, callers, choices, n), StateAt(limit, t0, callers, choices, n + 1);
    && c < |s.callers| && c < |s'.callers|
    && s.callers[c].SwapRefill? && s'.callers[c].LoadToConsume?
  }

  /** What the refill loop does with what it read. */
  lemma RefillStep(limit: RateLimit, s: State, choice: Choice)
    requires choice.caller < |s.callers| && s.callers[choice.caller].SwapRefill?
    requires ValidCaller(s.callers[choice.caller], TWO63 - 1)
    ensures
      var s' := Step(limit, s, choice);
      var now, prev, pc' := s.callers[choice.caller].now, s.callers[choice.caller].prev, s'.callers[choice.caller];
      var add := (now - prev) * limit.RateFpPerNs();
      && (pc'.LoadToConsume? <==> now <= prev || limit.RateFpPerNs() == 0)
      && (pc'.LoadToAdd? <==> now > prev && limit.RateFpPerNs() > 0 && s.lastRefillNs == prev && !choice.spurious)
      && (pc'.LoadToAdd? ==> pc'.add == add && s'.lastRefillNs == now)
      && (!pc'.LoadToAdd? ==> s'.lastRefillNs == s.lastRefillNs)
      && (!pc'.LoadToConsume? && !pc'.LoadToAdd? ==> pc' == SwapRefill(now, s.lastRefillNs))
  {
    var pc := s.callers[choice.caller];
    SignedElapsedIsDifference(pc.now, pc.prev);
    ProductSign(pc.now - pc.prev, limit.RateFpPerNs());
  }

  lemma ProductSign(a: int, b: int)
    requires b >= 0
    ensures a == 0 || a * b <= 0 <==> a <= 0 || b == 0
  {
  }

  /** Over every run, a caller goes without a refill only if its clock reading was not ahead of
      the refill time that it had last read there, or the rate is 0. */
  lemma RefillSkippedOnlyWhenIdle(limit: RateLimit, t0: nat, horizon: nat, callers: nat, choices: seq<Choice>, n: nat, c: nat)
    returns (j: nat)
    requires t0 <= horizon < TWO63 && ClockWithin(choices, horizon)
    requires n < |choices| && c < callers && RefillSkippedAt(limit, t0, callers, choices, n, c)
    ensures j < n && ReadAt(limit, t0, callers, choices, j, n, c)
    ensures limit.RateFpPerNs() == 0
         || StateAt(limit, t0, callers, choices, n).callers[c].now <= StateAt(limit, t0, callers, choices, j).lastRefillNs
  {
    var s := StateAt(limit, t0, callers, choices, n);
    RunKeepsInv(limit, t0, horizon, callers, choices[..n]);
    assert s.callers[c] in s.callers && ValidCaller(s.callers[c], horizon);
    StateNext(limit, t0, callers, choices, n);
    StepReads(limit, s, choices[n], c);
    RefillStep(limit, s, choices[n]);
    j := ReadsAreReal(limit, t0, callers, choices, n, c);
  }

  /** Tokens are clamped off only by the step that adds a refill, and only what exceeds capacity. */
  lemma ClampedIsOverflow(limit: RateLimit, s: State, choice: Choice)
    requires 0 <= s.tokens <= limit.CapacityFp()
    ensures
      var s' := Step(limit, s, choice);
      && (s'.clamped != s.clamped ==>
            && choice.caller < |s.callers| && s.callers[choice.caller].SwapToAdd?
            && s'.tokens == limit.CapacityFp()
            && s'.clamped - s.clamped == s.tokens + s.callers[choice.caller].add - limit.CapacityFp() > 0)
      && (s'.tokens > s.tokens ==>
            && choice.caller < |s.callers| && s.callers[choice.caller].SwapToAdd?
            && s'.tokens + (s'.clamped - s.clamped) == s.tokens + s.callers[choice.caller].add)
  {
  }

  /** A caller that has its token is turned away exactly when the counter has reached the cap. */
  lemma TurnedAwayOnlyAtCap(limit: RateLimit, s: State, choice: Choice)
    requires choice.caller < |s.callers| && s.callers[choice.caller].TookToken?
    ensures
      var s' := Step(limit, s, choice);
      && (s'.callers[choice.caller].OverCap? <==> s.inFlight >= limit.maxConcurrent)
      && (s'.callers[choice.caller].Holding? <==> s.inFlight < limit.maxConcurrent)
      && s'.inFlight == s.inFlight + 1
      && s'.admitted == (if s'.callers[choice.caller].Holding? then s.admitted + 1 else s.admitted)
  {
  }

  // ------------------------------------------------- one caller, undisturbed

  datatype Outcome = Admitted | Exhausted | ConcurrencyCapReached

  /** The shared fields of one tenant. */
  datatype Bucket = Bucket(tokens: int, lastRefillNs: nat, inFlight: int)

  function Refilled(limit: RateLimit, b: Bucket, now: nat): Bucket {
    var elapsed := SignedElapsed(now, b.lastRefillNs);
    var add := elapsed * limit.RateFpPerNs();
    if elapsed == 0 || add <= 0 then b
    else
      var tokens := if b.tokens + add < limit.CapacityFp() then b.tokens + add else limit.CapacityFp();
      b.(tokens := tokens, lastRefillNs := now)
  }

  /** A token and a slot from a bucket that has been refilled. */
  function Take(limit: RateLimit, r: Bucket): (Bucket, Outcome) {
    if r.tokens < TOKEN_SCALE then (r, Exhausted)
    else
      var taken := r.(tokens := r.tokens - TOKEN_SCALE);
      if r.inFlight >= limit.maxConcurrent then (taken, ConcurrencyCapReached)
      else (taken.(inFlight := r.inFlight + 1), Admitted)
  }

  function TryAcquire(limit: RateLimit, b: Bucket, now: nat): (Bucket, Outcome) {
    Take(limit, Refilled(limit, b, now))
  }

  /** Caller c alone takes n steps, its clock reading `now`, no weak swap failing. */
  function Alone(limit: RateLimit, s: State, c: nat, now: nat, n: nat): State {
    if n == 0 then s else Step(limit, Alone(limit, s, c, now, n - 1), Choice(c, now, false))
  }

  function Shared(s: State): Bucket {
    Bucket(s.tokens, s.lastRefillNs, s.inFlight)
  }

  lemma AloneStep(limit: RateLimit, s: State, c: nat, now: nat, n: nat)
    requires n > 0
    ensures Alone(limit, s, c, now, n) == Step(limit, Alone(limit, s, c, now, n - 1), Choice(c, now, false))
  {
  }

  /** Refilling alone: n steps bring an idle caller to the load before the consume loop. */
  lemma AloneRefills(limit: RateLimit, s: State, c: nat, now: nat) returns (n: nat)
    requires c < |s.callers| && s.callers[c].Idle?
    ensures
      var t := Alone(limit, s, c, now, n);
      && n <= 5 && |t.callers| == |s.callers| && t.callers[c] == LoadToConsume
      && Shared(t) == Refilled(limit, Shared(s), now)
  {
    AloneStep(limit, s, c, now, 1);
    AloneStep(limit, s, c, now, 2);
    AloneStep(limit, s, c, now, 3);
    var t := Alone(limit, s, c, now, 3);
    if t.callers[c].LoadToAdd? {
      AloneStep(limit, s, c, now, 4);
      AloneStep(limit, s, c, now, 5);
      n := 5;
    } else {
      n := 3;
    }
  }

  /** The state in which caller c has come to `caller` and the shared fields are those of b. */
  ghost predicate At(t: State, c: nat, b: Bucket, caller: Caller, callers: nat) {
    Shared(t) == b && |t.callers| == callers && c < callers && t.callers[c] == caller
  }

  /** The consume loop alone: two steps decide about the token. */
  lemma AloneConsumes(limit: RateLimit, s: State, c: nat, now: nat, n: nat, r: Bucket)
    requires At(Alone(limit, s, c, now, n), c, r, LoadToConsume, |s.callers|)
    ensures
      var t := Alone(limit, s, c, now, n + 2);
      if r.tokens < TOKEN_SCALE then At(t, c, r, Idle, |s.callers|)
      else At(t, c, r.(tokens := r.tokens - TOKEN_SCALE), TookToken, |s.callers|)
  {
    AloneStep(limit, s, c, now, n + 1);
    AloneStep(limit, s, c, now, n + 2);
  }

  /** The slot alone: one step takes it, and one more gives it back when over the cap. */
  lemma AloneTakesSlot(limit: RateLimit, s: State, c: nat, now: nat, n: nat, b: Bucket)
    requires At(Alone(limit, s, c, now, n), c, b, TookToken, |s.callers|)
    ensures
      if b.inFlight < limit.maxConcurrent
      then At(Alone(limit, s, c, now, n + 1), c, b.(inFlight := b.inFlight + 1), Holding, |s.callers|)
      else At(Alone(limit, s, c, now, n + 2), c, b, Idle, |s.callers|)
  {
    AloneStep(limit, s, c, now, n + 1);
    AloneStep(limit, s, c, now, n + 2);
  }

  /** Undisturbed, the step machine computes TryAcquire, and ends where its outcome says. */
  lemma AloneComputesTryAcquire(limit: RateLimit, s: State, c: nat, now: nat) returns (n: nat)
    requires c < |s.callers| && s.callers[c].Idle?
    ensures n <= 9
    ensures
      var (bucket, outcome) := TryAcquire(limit, Shared(s), now);
      At(Alone(limit, s, c, now, n), c, bucket, if outcome.Admitted? then Holding else Idle, |s.callers|)
  {
    n := AloneRefills(limit, s, c, now);
    var r := Refilled(limit, Shared(s), now);
    AloneConsumes(limit, s, c, now, n, r);
    if r.tokens < TOKEN_SCALE {
      n := n + 2;
    } else {
      var taken := r.(tokens := r.tokens - TOKEN_SCALE);
      AloneTakesSlot(limit, s, c, now, n + 2, taken);
      n := n + if taken.inFlight < limit.maxConcurrent then 3 else 4;
    }
  }

  // ------------------------------------------------------- rates that are 0

  /** Integer division leaves a positive rate only from 976,563 tokens a second on. */
  lemma RateIsZeroIff(limit: RateLimit)
    ensures limit.RateFpPerNs() == 0 <==> limit.tokensPerSecond < 976_563
  {
  }

  /** The rate is the largest whole number of 1/1024 tokens a nanosecond within the configured one. */
  lemma RateIsFloor(limit: RateLimit, rate: int)
    ensures rate == limit.RateFpPerNs() <==>
            rate * 1_000_000_000 <= limit.tokensPerSecond * 1024 < (rate + 1) * 1_000_000_000
  {
    var x := limit.tokensPerSecond * 1024;
    if rate * 1_000_000_000 <= x < (rate + 1) * 1_000_000_000 {
      ModUnique(x, 1_000_000_000, rate, x - rate * 1_000_000_000);
    }
  }

  /** Sequentially, a later clock reading brings rate times the time passed, up to capacity. */
  lemma RefilledMeaning(limit: RateLimit, b: Bucket, now: nat)
    requires now < TWO63 && b.lastRefillNs < TWO63 && b.tokens <= limit.CapacityFp()
    ensures
      var r, gain := Refilled(limit, b, now), (now - b.lastRefillNs) * limit.RateFpPerNs();
      && r.inFlight == b.inFlight
      && (gain <= 0 ==> r == b)
      && (gain > 0 ==> r.lastRefillNs == now && r.tokens <= limit.CapacityFp() && r.tokens <= b.tokens + gain
                       && (r.tokens == limit.CapacityFp() || r.tokens == b.tokens + gain))
  {
    SignedElapsedIsDifference(now, b.lastRefillNs);
  }

  /** The bucket after n acquisitions at one clock reading. */
  function AcquiredTimes(limit: RateLimit, b: Bucket, now: nat, n: nat): Bucket {
    if n == 0 then b else TryAcquire(limit, AcquiredTimes(limit, b, now, n - 1), now).0
  }

  lemma {:induction false} AfterBurst(limit: RateLimit, now: nat, n: nat)
    requires n <= limit.bucketCapacity && n <= limit.maxConcurrent
    ensures AcquiredTimes(limit, Bucket(1024 * limit.bucketCapacity, now, 0), now, n)
         == Bucket(1024 * (limit.bucketCapacity - n), now, n)
  {
    if n > 0 {
      AfterBurst(limit, now, n - 1);
    }
  }

  /** A full bucket admits exactly its capacity at once, slots permitting: the first
      bucket_capacity acquisitions, and not the next one. */
  lemma BurstIsCapacity(limit: RateLimit, now: nat, n: nat)
    requires n <= limit.bucketCapacity && n < limit.maxConcurrent
    ensures TryAcquire(limit, AcquiredTimes(limit, Bucket(1024 * limit.bucketCapacity, now, 0), now, n), now).1
         == if n < limit.bucketCapacity then Admitted else Exhausted
  {
    AfterBurst(limit, now, n);
  }

  /** Below that rate the burst is all a tenant ever gets, however long it waits. */
  lemma SlowRateNeverRefills(limit: RateLimit, t0: nat, horizon: nat, callers: nat, choices: seq<Choice>)
    requires t0 <= horizon < TWO63 && ClockWithin(choices, horizon)
    requires limit.tokensPerSecond < 976_563
    ensures Run(limit, Initial(limit, t0, callers), choices).consumed <= limit.bucketCapacity
  {
    var s := Run(limit, Initial(limit, t0, callers), choices);
    RunKeepsInv(limit, t0, horizon, callers, choices);
    OwedNonNegative(s, horizon);
    RateIsZeroIff(limit);
    assert limit.RateFpPerNs() * (s.lastRefillNs - t0) == 0;
  }

  /** A bucket without a whole token is served again at some later clock reading exactly when the
      configured rate survives the integer division. */
  lemma DrainedBucketRecoversIff(limit: RateLimit, b: Bucket)
    requires limit.bucketCapacity > 0 && b.inFlight < limit.maxConcurrent
    requires 0 <= b.tokens < TOKEN_SCALE && b.lastRefillNs + TOKEN_SCALE < TWO63
    ensures
      (exists now: nat :: now < TWO63 && TryAcquire(limit, b, now).1.Admitted?)
      <==> limit.tokensPerSecond >= 976_563
  {
    RateIsZeroIff(limit);
    if limit.tokensPerSecond >= 976_563 {
      var now := b.lastRefillNs + TOKEN_SCALE;
      SignedElapsedIsDifference(now, b.lastRefillNs);
      MulMonotone(1, limit.RateFpPerNs(), TOKEN_SCALE);
      MulMonotone(1, limit.bucketCapacity, TOKEN_SCALE);
      assert TryAcquire(limit, b, now).1.Admitted?;
    } else {
      forall now: nat | now < TWO63 ensures !TryAcquire(limit, b, now).1.Admitted? {
        assert SignedElapsed(now, b.lastRefillNs) * limit.RateFpPerNs() == 0;
      }
    }
  }
}
