// The threshold evaluator: a bounded compare-and-swap retry over one versioned window.
module Threshold {
  import opened Bits
  import opened Slots
  import opened WindowStore

  const MAX_ATTEMPTS: nat := 10

  /** One evaluation. `start` and `seen` are positions in the log of changes to the key:
      where it began, and where it last read. */
  datatype Eval =
    | Reading(attempts: nat, start: nat)
    | Swapping(attempts: nat, start: nat, current: WindowValue, seen: nat)
    | Succeeded(aggregate: real)
    | Contended(start: nat, end: nat)

  datatype Writer = Evaluation(who: nat) | OtherClient | Expiry

  /** The key as `get` reads it, who changed it so far, and the evaluations. */
  datatype State = State(value: WindowValue, log: seq<Writer>, evals: seq<Eval>)

  datatype Action =
    | Begin
    | Get(who: nat)
    | Swap(who: nat)
    | WriteElsewhere(value: WindowValue)
    | Expire

  /** One more event, in 64-bit version arithmetic. */
  function Bumped(v: WindowValue): WindowValue {
    WindowValue(v.aggregate + 1.0, (v.version + 1) % TWO64)
  }

  function SetEval(s: State, i: nat, e: Eval): State
    requires i < |s.evals|
  {
    s.(evals := s.evals[i := e])
  }

  function Next(s: State, a: Action): State {
    match a
    case Begin => s.(evals := s.evals + [Reading(0, |s.log|)])
    case Get(i) =>
      if i < |s.evals| && s.evals[i].Reading? then
        var e := s.evals[i];
        SetEval(s, i, Swapping(e.attempts, e.start, s.value, |s.log|))
      else s
    case Swap(i) =>
      if i < |s.evals| && s.evals[i].Swapping? then
        var e := s.evals[i];
        if s.value.version == e.current.version then
          SetEval(s.(value := Bumped(e.current), log := s.log + [Evaluation(i)]), i, Succeeded(e.current.aggregate + 1.0))
        else if e.attempts + 1 == MAX_ATTEMPTS then SetEval(s, i, Contended(e.start, |s.log|))
        else SetEval(s, i, Reading(e.attempts + 1, e.start))
      else s
    case WriteElsewhere(v) => s.(value := v, log := s.log + [OtherClient])
    case Expire => if s.value == ZERO then s else s.(value := ZERO, log := s.log + [Expiry])
  }

  function Run(s: State, actions: seq<Action>): State {
    if actions == [] then s else Next(Run(s, actions[..|actions| - 1]), actions[|actions| - 1])
  }

  function FreshKey(): State {
    State(ZERO, [], [])
  }

  // ------------------------------------------------------- contention is real

  /** The evaluation has changed nothing so far. */
  ghost predicate Absent(log: seq<Writer>, i: nat) {
    Evaluation(i) !in log
  }

  /** As many changes by others as failed attempts, since the start. */
  ghost predicate EvalGood(s: State, i: nat)
    requires i < |s.evals|
  {
    match s.evals[i]
    case Reading(a, start) => start + a <= |s.log| && Absent(s.log, i)
    case Swapping(a, start, current, seen) =>
      start + a <= seen <= |s.log| && Absent(s.log, i) && (seen == |s.log| ==> s.value == current)
    case Succeeded(_) => true
    case Contended(start, end) => start + MAX_ATTEMPTS <= end <= |s.log| && Absent(s.log, i)
  }

  ghost predicate ContentionInv(s: State) {
    && (forall i :: 0 <= i < |s.evals| ==> EvalGood(s, i))
    && (forall i: nat :: Evaluation(i) in s.log ==> i < |s.evals|)
  }

  lemma StepKeepsContention(s: State, a: Action)
    requires ContentionInv(s)
    ensures ContentionInv(Next(s, a))
  {
    var t := Next(s, a);
    forall i | 0 <= i < |t.evals| ensures EvalGood(t, i) {
      if i < |s.evals| {
        assert EvalGood(s, i);
      }
    }
  }

  lemma {:induction false} RunKeepsContention(actions: seq<Action>)
    ensures ContentionInv(Run(FreshKey(), actions))
  {
    if actions != [] {
      RunKeepsContention(actions[..|actions| - 1]);
      StepKeepsContention(Run(FreshKey(), actions[..|actions| - 1]), actions[|actions| - 1]);
    }
  }

  /** An evaluation that reports contention changed nothing, ever, and at least ten swaps or
      removals by others hit its key between its start and its end. */
  lemma ContentionIsReal(actions: seq<Action>, i: nat)
    requires var s := Run(FreshKey(), actions); i < |s.evals| && s.evals[i].Contended?
    ensures
      var s := Run(FreshKey(), actions);
      var e := s.evals[i];
      && e.start <= e.end <= |s.log|
      && |s.log[e.start..e.end]| >= 10
      && Evaluation(i) !in s.log
  {
    RunKeepsContention(actions);
    assert EvalGood(Run(FreshKey(), actions), i);
  }

  /** What counts as a change: a swap that succeeded, by whomever, or the removal of a key that was
      there; reading, failing and removing an absent key do not. */
  lemma OnlyChangesAreLogged(s: State, a: Action)
    ensures
      var t := Next(s, a);
      && (t.log == s.log || (|t.log| == |s.log| + 1 && t.log[..|s.log|] == s.log))
      && (t.log == s.log ==> t.value == s.value)
      && (t.log != s.log && t.log[|s.log|].Expiry? ==> a.Expire? && s.value != ZERO && t.value == ZERO)
      && (t.log != s.log && t.log[|s.log|].OtherClient? ==> a == WriteElsewhere(t.value))
      && (t.log != s.log && t.log[|s.log|].Evaluation? ==>
            && a == Swap(t.log[|s.log|].who) && a.who < |s.evals|
            && !s.evals[a.who].Succeeded? && t.evals[a.who] == Succeeded(t.value.aggregate))
  {
  }

  // ---------------------------------------------------------- no lost updates

  predicate OnlyEvaluations(actions: seq<Action>) {
    forall a :: a in actions ==> !a.WriteElsewhere? && !a.Expire?
  }

  /** The window after n counted events. */
  function Counted(n: nat): WindowValue {
    WindowValue(n as real, n % TWO64)
  }

  /** The n-th change was made by the evaluation that saw n. */
  ghost predicate LogGood(s: State) {
    && (forall j :: 0 <= j < |s.log| ==>
          && s.log[j].Evaluation? && s.log[j].who < |s.evals|
          && s.evals[s.log[j].who] == Succeeded((j + 1) as real))
    && (forall i :: 0 <= i < |s.evals| && s.evals[i].Succeeded? ==>
          exists j :: 0 <= j < |s.log| && s.log[j] == Evaluation(i))
  }

  ghost predicate CountInv(s: State) {
    && s.value == Counted(|s.log|)
    && LogGood(s)
    && forall i :: 0 <= i < |s.evals| && s.evals[i].Swapping? ==>
         exists m :: 0 <= m <= |s.log| && s.evals[i].current == Counted(m)
  }

  /** Below 2^64 changes a version determines the count. */
  lemma VersionDetermines(m: nat, n: nat)
    requires m <= n < TWO64 && Counted(m).version == Counted(n).version
    ensures m == n
  {
    ModUnique(m, TWO64, 0, m);
    ModUnique(n, TWO64, 0, n);
  }

  lemma BumpedCounts(n: nat)
    requires n < TWO64
    ensures Bumped(Counted(n)) == Counted(n + 1)
  {
    ModUnique(n, TWO64, 0, n);
  }

  lemma SwapKeepsCount(s: State, i: nat)
    requires CountInv(s) && |s.log| < TWO64 && i < |s.evals| && s.evals[i].Swapping?
    ensures CountInv(Next(s, Swap(i)))
  {
    var e, t := s.evals[i], Next(s, Swap(i));
    var n := |s.log|;
    var m :| 0 <= m <= n && e.current == Counted(m);
    if s.value.version == e.current.version {
      VersionDetermines(m, n);
      BumpedCounts(n);
      assert t.evals[i] == Succeeded((n + 1) as real);
      assert t.log[n] == Evaluation(i);
      forall k | 0 <= k < |t.evals| && t.evals[k].Succeeded?
        ensures exists j :: 0 <= j < |t.log| && t.log[j] == Evaluation(k)
      {
        if k != i {
          var j :| 0 <= j < |s.log| && s.log[j] == Evaluation(k);
          assert t.log[j] == Evaluation(k);
        }
      }
    }
    forall k | 0 <= k < |t.evals| && t.evals[k].Swapping?
      ensures exists m :: 0 <= m <= |t.log| && t.evals[k].current == Counted(m)
    {
      var p :| 0 <= p <= |s.log| && s.evals[k].current == Counted(p);
      assert 0 <= p <= |t.log| && t.evals[k].current == Counted(p);
    }
  }

  lemma StepKeepsCount(s: State, a: Action)
    requires CountInv(s) && |s.log| < TWO64 && !a.WriteElsewhere? && !a.Expire?
    ensures CountInv(Next(s, a))
  {
    var t := Next(s, a);
    if a.Swap? && a.who < |s.evals| && s.evals[a.who].Swapping? {
      SwapKeepsCount(s, a.who);
    } else {
      forall k | 0 <= k < |t.evals| && t.evals[k].Swapping?
        ensures exists m :: 0 <= m <= |t.log| && t.evals[k].current == Counted(m)
      {
        if k < |s.evals| && s.evals[k].Swapping? {
          var p :| 0 <= p <= |s.log| && s.evals[k].current == Counted(p);
        } else {
          assert t.evals[k].current == Counted(|s.log|);
        }
      }
      forall k | 0 <= k < |t.evals| && t.evals[k].Succeeded?
        ensures exists j :: 0 <= j < |t.log| && t.log[j] == Evaluation(k)
      {
        assert s.evals[k].Succeeded?;
      }
    }
  }

  lemma LogGrows(s: State, a: Action)
    ensures |s.log| <= |Next(s, a).log| <= |s.log| + 1
  {
  }

  lemma {:induction false} RunKeepsCount(actions: seq<Action>)
    requires OnlyEvaluations(actions) && |Run(FreshKey(), actions).log| < TWO64
    ensures CountInv(Run(FreshKey(), actions))
  {
    if actions != [] {
      var front, last := actions[..|actions| - 1], actions[|actions| - 1];
      LogGrows(Run(FreshKey(), front), last);
      RunKeepsCount(front);
      StepKeepsCount(Run(FreshKey(), front), last);
    }
  }

  function Wins(e: Eval): int {
    if e.Succeeded? then 1 else 0
  }

  /** The verdict: Flag when the window this evaluation wrote exceeds the threshold. */
  predicate Flags(threshold: real, e: Eval) {
    e.Succeeded? && e.aggregate > threshold
  }

  function FlagCount(threshold: real, evals: seq<Eval>): int {
    Total(e => if Flags(threshold, e) then 1 else 0, evals)
  }

  predicate Saw(e: Eval, v: nat) {
    e == Succeeded(v as real)
  }

  /** The evaluation that made the v-th change is the only one that saw v. */
  lemma SeenByItsWriterOnly(s: State, v: nat, i: nat)
    requires CountInv(s) && 1 <= v <= |s.log| && i < |s.evals|
    ensures Saw(s.evals[i], v) <==> s.log[v - 1] == Evaluation(i)
  {
    if Saw(s.evals[i], v) {
      var j :| 0 <= j < |s.log| && s.log[j] == Evaluation(i);
      assert s.evals[s.log[j].who] == Succeeded((j + 1) as real);
    }
  }

  /** Any number of concurrent evaluations on a fresh key: the aggregate and the version are the
      number of changes n, each of 1..n was seen by exactly one evaluation, and a successful
      evaluation saw one of them. */
  lemma NoLostUpdates(actions: seq<Action>)
    requires OnlyEvaluations(actions) && |Run(FreshKey(), actions).log| < TWO64
    ensures
      var s := Run(FreshKey(), actions);
      var n := |s.log|;
      && s.value == WindowValue(n as real, n)
      && (forall j :: 0 <= j < n ==>
            s.log[j].Evaluation? && s.log[j].who < |s.evals|
            && forall i :: 0 <= i < |s.evals| ==> (Saw(s.evals[i], j + 1) <==> i == s.log[j].who))
      && (forall i :: 0 <= i < |s.evals| && s.evals[i].Succeeded? ==>
            exists v :: 1 <= v <= n && Saw(s.evals[i], v))
  {
    var s := Run(FreshKey(), actions);
    RunKeepsCount(actions);
    ModUnique(|s.log|, TWO64, 0, |s.log|);
    forall j, i | 0 <= j < |s.log| && 0 <= i < |s.evals|
      ensures Saw(s.evals[i], j + 1) <==> i == s.log[j].who
    {
      SeenByItsWriterOnly(s, j + 1, i);
    }
    forall i | 0 <= i < |s.evals| && s.evals[i].Succeeded?
      ensures exists v :: 1 <= v <= |s.log| && Saw(s.evals[i], v)
    {
      var j :| 0 <= j < |s.log| && s.log[j] == Evaluation(i);
      assert Saw(s.evals[i], j + 1);
    }
  }

  /** How many of 1..n exceed the threshold. */
  function Over(threshold: real, n: nat): nat {
    if n > threshold.Floor then (if threshold.Floor < 0 then n else n - threshold.Floor) else 0
  }

  lemma OneMoreOver(threshold: real, n: nat)
    ensures Over(threshold, n + 1) == Over(threshold, n) + (if (n + 1) as real > threshold then 1 else 0)
  {
  }

  /** The winners number n, and exactly max(0, n - floor(T)) of them flag (all n when T is negative). */
  lemma {:induction false} FlagsExactly(actions: seq<Action>, threshold: real)
    requires OnlyEvaluations(actions) && |Run(FreshKey(), actions).log| < TWO64
    ensures
      var s := Run(FreshKey(), actions);
      && Total(Wins, s.evals) == |s.log|
      && FlagCount(threshold, s.evals) == Over(threshold, |s.log|)
  {
    if actions != [] {
      var front, a := actions[..|actions| - 1], actions[|actions| - 1];
      var s, t := Run(FreshKey(), front), Run(FreshKey(), actions);
      LogGrows(s, a);
      FlagsExactly(front, threshold);
      RunKeepsCount(front);
      StepFlags(s, a, threshold);
    }
  }

  lemma StepFlags(s: State, a: Action, threshold: real)
    requires CountInv(s) && |s.log| < TWO64 && !a.WriteElsewhere? && !a.Expire?
    requires Total(Wins, s.evals) == |s.log| && FlagCount(threshold, s.evals) == Over(threshold, |s.log|)
    ensures
      var t := Next(s, a);
      Total(Wins, t.evals) == |t.log| && FlagCount(threshold, t.evals) == Over(threshold, |t.log|)
  {
    var t := Next(s, a);
    var flag := (e: Eval) => if Flags(threshold, e) then 1 else 0;
    if a.Begin? {
      TotalAppend(Wins, s.evals, Reading(0, |s.log|));
      TotalAppend(flag, s.evals, Reading(0, |s.log|));
    } else if a.who < |s.evals| {
      var e := t.evals[a.who];
      assert t.evals == s.evals[a.who := e];
      TotalUpdate(Wins, s.evals, a.who, e);
      TotalUpdate(flag, s.evals, a.who, e);
      OneMoreOver(threshold, |s.log|);
      if a.Swap? && s.evals[a.who].Swapping? {
        var m :| 0 <= m <= |s.log| && s.evals[a.who].current == Counted(m);
        if s.value.version == s.evals[a.who].current.version {
          VersionDetermines(m, |s.log|);
        }
      }
    }
  }

  // ---------------------------------------------------------------- the loop

  datatype Verdict = Pass | Flag

  /** What another client, or expiry, does to the key. */
  datatype Change = Wrote(value: WindowValue) | Removed

  /** What happens to the key before attempt a reads it, and between its read and its swap. */
  datatype World = World(before: nat -> seq<Change>, during: nat -> seq<Change>)

  function Changed(v: WindowValue, changes: seq<Change>): WindowValue {
    if changes == [] then v
    else match changes[|changes| - 1]
      case Wrote(x) => x
      case Removed => ZERO
  }

  /** The key after a attempts that came to nothing. */
  function AfterFailed(v: WindowValue, world: World, a: nat): WindowValue
    decreases a, 0
  {
    if a == 0 then v
    else Changed(ReadAt(v, world, a - 1), world.during(a - 1))
  }

  /** What attempt a reads when the ones before it came to nothing. */
  function ReadAt(v: WindowValue, world: World, a: nat): WindowValue
    decreases a, 1
  {
    Changed(AfterFailed(v, world, a), world.before(a))
  }

  /** The version has changed between attempt a's read and its swap. */
  predicate OvertakenAt(v: WindowValue, world: World, a: nat) {
    AfterFailed(v, world, a + 1).version != ReadAt(v, world, a).version
  }

  ghost predicate AllOvertaken(v: WindowValue, world: World, n: nat) {
    forall b: nat :: b < n ==> OvertakenAt(v, world, b)
  }

  /** Attempt a is the first that is not overtaken. */
  ghost predicate FirstToHold(v: WindowValue, world: World, a: nat) {
    !OvertakenAt(v, world, a) && AllOvertaken(v, world, a)
  }

  /** What an evaluation reports, and what it leaves at the key. */
  datatype Report = Swapped(aggregate: real) | CasContention

  /** Contention means that all ten attempts were overtaken, and the key is as the others left
      it. Success means that some attempt was not, and the first such one counted its event on
      top of what it had read. */
  ghost predicate Reports(v: WindowValue, world: World, after: WindowValue, report: Report) {
    match report
    case CasContention =>
      AllOvertaken(v, world, MAX_ATTEMPTS) && after == AfterFailed(v, world, MAX_ATTEMPTS)
    case Swapped(aggregate) =>
      exists a: nat :: a < MAX_ATTEMPTS && FirstToHold(v, world, a)
                       && after == Bumped(ReadAt(v, world, a)) && aggregate == ReadAt(v, world, a).aggregate + 1.0
  }

  /** The report and the value it leaves are determined: contention exactly when every attempt
      was overtaken, and otherwise what the one first attempt to hold makes of its read. */
  lemma ContentionIffOvertaken(v: WindowValue, world: World, after: WindowValue, report: Report)
    requires Reports(v, world, after, report)
    ensures report.CasContention? <==> forall a: nat :: a < MAX_ATTEMPTS ==> OvertakenAt(v, world, a)
    ensures forall after', report' :: Reports(v, world, after', report') ==> after' == after && report' == report
  {
    forall after', report' | Reports(v, world, after', report')
      ensures after' == after && report' == report
    {
      if report.Swapped? && report'.Swapped? {
        var a: nat :| a < MAX_ATTEMPTS && FirstToHold(v, world, a) && after == Bumped(ReadAt(v, world, a))
                      && report.aggregate == ReadAt(v, world, a).aggregate + 1.0;
        var b: nat :| b < MAX_ATTEMPTS && FirstToHold(v, world, b) && after' == Bumped(ReadAt(v, world, b))
                      && report'.aggregate == ReadAt(v, world, b).aggregate + 1.0;
        assert a == b;
      }
    }
  }

  // --------------------------------------------- the loop as a run of the machine

  function ChangeStep(c: Change): Action {
    match c
    case Wrote(v) => WriteElsewhere(v)
    case Removed => Expire
  }

  function ChangeSteps(changes: seq<Change>): seq<Action> {
    seq(|changes|, i requires 0 <= i < |changes| => ChangeStep(changes[i]))
  }

  function AttemptSteps(i: nat, world: World, a: nat): seq<Action> {
    ChangeSteps(world.before(a)) + [Get(i)] + (ChangeSteps(world.during(a)) + [Swap(i)])
  }

  /** Evaluation i begins and makes n attempts. */
  function EvaluationSteps(i: nat, world: World, n: nat): seq<Action> {
    if n == 0 then [Begin] else EvaluationSteps(i, world, n - 1) + AttemptSteps(i, world, n - 1)
  }

  lemma {:induction false} RunConcat(s: State, a: seq<Action>, b: seq<Action>)
    ensures Run(s, a + b) == Run(Run(s, a), b)
  {
    if b == [] {
      assert a + b == a;
    } else {
      RunConcat(s, a, b[..|b| - 1]);
      assert (a + b)[..|a + b| - 1] == a + b[..|b| - 1];
    }
  }

  lemma RunOne(s: State, a: Action)
    ensures Run(s, [a]) == Next(s, a)
  {
    assert [a][..0] == [];
  }

  lemma {:induction false} RunChanges(s: State, changes: seq<Change>)
    ensures Run(s, ChangeSteps(changes)).value == Changed(s.value, changes)
    ensures Run(s, ChangeSteps(changes)).evals == s.evals
    ensures |Run(s, ChangeSteps(changes)).log| <= |s.log| + |changes|
  {
    if changes != [] {
      var front := changes[..|changes| - 1];
      RunChanges(s, front);
      assert ChangeSteps(changes)[..|changes| - 1] == ChangeSteps(front);
    }
  }

  /** Changes by others, and then one step. */
  lemma RunChangesThen(s: State, changes: seq<Change>, a: Action) returns (t: State)
    ensures t.value == Changed(s.value, changes) && t.evals == s.evals && |t.log| <= |s.log| + |changes|
    ensures Run(s, ChangeSteps(changes) + [a]) == Next(t, a)
  {
    t := Run(s, ChangeSteps(changes));
    RunChanges(s, changes);
    RunConcat(s, ChangeSteps(changes), [a]);
    RunOne(t, a);
  }

  lemma AttemptRun(s: State, i: nat, world: World, a: nat)
    requires i < |s.evals| && s.evals[i].Reading? && s.evals[i].attempts < MAX_ATTEMPTS
    ensures
      var t := Run(s, AttemptSteps(i, world, a));
      var v := Changed(s.value, world.before(a));
      var w := Changed(v, world.during(a));
      && |t.evals| == |s.evals|
      && t.value == (if w.version == v.version then Bumped(v) else w)
      && (w.version != v.version ==> |t.log| <= |s.log| + |world.before(a)| + |world.during(a)|)
      && if w.version == v.version then t.evals[i] == Succeeded(v.aggregate + 1.0)
         else if s.evals[i].attempts + 1 == MAX_ATTEMPTS then t.evals[i].Contended?
         else t.evals[i] == Reading(s.evals[i].attempts + 1, s.evals[i].start)
  {
    var first, second := ChangeSteps(world.before(a)) + [Get(i)], ChangeSteps(world.during(a)) + [Swap(i)];
    var p := RunChangesThen(s, world.before(a), Get(i));
    var q := RunChangesThen(Next(p, Get(i)), world.during(a), Swap(i));
    RunConcat(s, first, second);
  }

  /** In t, evaluation |s.evals| has made n attempts in vain. */
  predicate InVain(s: State, world: World, n: nat, t: State) {
    && |t.evals| == |s.evals| + 1 && t.value == AfterFailed(s.value, world, n)
    && var e := t.evals[|s.evals|];
       if n < MAX_ATTEMPTS then e == Reading(n, |s.log|) else e.Contended?
  }

  lemma OneMoreInVain(s: State, world: World, n: nat, t: State)
    requires n < MAX_ATTEMPTS && InVain(s, world, n, t) && OvertakenAt(s.value, world, n)
    ensures InVain(s, world, n + 1, Run(t, AttemptSteps(|s.evals|, world, n)))
  {
    AttemptRun(t, |s.evals|, world, n);
  }

  /** While its attempts are overtaken, the evaluation keeps reading, ten times at most. */
  lemma {:induction false} FailedRun(s: State, world: World, n: nat)
    requires n <= MAX_ATTEMPTS && AllOvertaken(s.value, world, n)
    ensures InVain(s, world, n, Run(s, EvaluationSteps(|s.evals|, world, n)))
  {
    if n == 0 {
      RunOne(s, Begin);
    } else {
      var i := |s.evals|;
      FailedRun(s, world, n - 1);
      assert OvertakenAt(s.value, world, n - 1);
      OneMoreInVain(s, world, n - 1, Run(s, EvaluationSteps(i, world, n - 1)));
      RunConcat(s, EvaluationSteps(i, world, n - 1), AttemptSteps(i, world, n - 1));
    }
  }

  /** The evaluation as the machine leaves it. */
  predicate EndsAs(e: Eval, report: Report) {
    match report
    case CasContention => e.Contended?
    case Swapped(aggregate) => e == Succeeded(aggregate)
  }

  /** Evaluation |s.evals|, after n attempts, has left that value and come to that report. */
  ghost predicate RunsTo(s: State, world: World, n: nat, after: WindowValue, report: Report) {
    var t := Run(s, EvaluationSteps(|s.evals|, world, n));
    t.value == after && |t.evals| == |s.evals| + 1 && EndsAs(t.evals[|s.evals|], report)
  }

  lemma HeldRun(s: State, world: World, a: nat)
    requires a < MAX_ATTEMPTS && FirstToHold(s.value, world, a)
    ensures
      var read := ReadAt(s.value, world, a);
      RunsTo(s, world, a + 1, Bumped(read), Swapped(read.aggregate + 1.0))
  {
    var i := |s.evals|;
    FailedRun(s, world, a);
    AttemptRun(Run(s, EvaluationSteps(i, world, a)), i, world, a);
    RunConcat(s, EvaluationSteps(i, world, a), AttemptSteps(i, world, a));
  }

  /** Whatever an evaluation reports, the concurrent machine comes to the same, from any state
      with that value, by a run in which it is the one evaluation that moves. */
  lemma ReportIsARun(s: State, world: World, after: WindowValue, report: Report) returns (n: nat)
    requires Reports(s.value, world, after, report)
    ensures n <= MAX_ATTEMPTS && RunsTo(s, world, n, after, report)
  {
    if report.CasContention? {
      n := MAX_ATTEMPTS;
      FailedRun(s, world, n);
    } else {
      var a: nat :| a < MAX_ATTEMPTS && FirstToHold(s.value, world, a)
                    && after == Bumped(ReadAt(s.value, world, a)) && report.aggregate == ReadAt(s.value, world, a).aggregate + 1.0;
      n := a + 1;
      HeldRun(s, world, a);
    }
  }

  // ------------------------------------------------------ ten attempts, no more, no fewer

  /** One swap by another client between each read and each swap, for the first `last` attempts. */
  function Overtaking(last: nat): World {
    World(_ => [], (a: nat) => if a < last then [Wrote(WindowValue(0.0, a + 1))] else [])
  }

  lemma {:induction false} OvertakingValue(last: nat, a: nat)
    requires a <= last
    ensures AfterFailed(ZERO, Overtaking(last), a) == WindowValue(0.0, a)
    ensures ReadAt(ZERO, Overtaking(last), a) == WindowValue(0.0, a)
    ensures AllOvertaken(ZERO, Overtaking(last), a)
  {
    if a > 0 {
      OvertakingValue(last, a - 1);
      assert OvertakenAt(ZERO, Overtaking(last), a - 1);
      forall b: nat | b < a
        ensures OvertakenAt(ZERO, Overtaking(last), b)
      {
        assert b < a - 1 || b == a - 1;
      }
    }
  }

  /** At most one change an attempt. */
  ghost predicate Calm(world: World) {
    forall a: nat :: |world.before(a)| + |world.during(a)| <= 1
  }

  lemma OneMoreInVainLog(s: State, world: World, n: nat, t: State)
    requires n < MAX_ATTEMPTS && InVain(s, world, n, t) && OvertakenAt(s.value, world, n)
    ensures |Run(t, AttemptSteps(|s.evals|, world, n)).log| <= |t.log| + |world.before(n)| + |world.during(n)|
  {
    AttemptRun(t, |s.evals|, world, n);
  }

  lemma {:induction false} InVainLog(s: State, world: World, n: nat)
    requires n <= MAX_ATTEMPTS && AllOvertaken(s.value, world, n) && Calm(world)
    ensures |Run(s, EvaluationSteps(|s.evals|, world, n)).log| <= |s.log| + n
  {
    if n == 0 {
      RunOne(s, Begin);
    } else {
      var i := |s.evals|;
      InVainLog(s, world, n - 1);
      FailedRun(s, world, n - 1);
      assert OvertakenAt(s.value, world, n - 1);
      OneMoreInVainLog(s, world, n - 1, Run(s, EvaluationSteps(i, world, n - 1)));
      RunConcat(s, EvaluationSteps(i, world, n - 1), AttemptSteps(i, world, n - 1));
    }
  }

  /** Ten swaps by another client are enough for contention: the bound of ContentionIsReal is exact. */
  lemma TenChangesAreEnough() returns (actions: seq<Action>)
    ensures
      var s := Run(FreshKey(), actions);
      |s.evals| == 1 && s.evals[0].Contended? && |s.log| == 10
  {
    actions := EvaluationSteps(0, Overtaking(10), 10);
    OvertakingValue(10, 10);
    FailedRun(FreshKey(), Overtaking(10), 10);
    assert Calm(Overtaking(10));
    InVainLog(FreshKey(), Overtaking(10), 10);
    ContentionIsReal(actions, 0);
  }

  /** Nine are not: the tenth attempt still counts the event. */
  lemma NineChangesAreNotEnough()
    ensures Reports(ZERO, Overtaking(9), WindowValue(1.0, 10), Swapped(1.0))
  {
    OvertakingValue(9, 9);
    assert !OvertakenAt(ZERO, Overtaking(9), 9);
    assert FirstToHold(ZERO, Overtaking(9), 9);
    assert Bumped(WindowValue(0.0, 9)) == WindowValue(1.0, 10);
  }

  // ------------------------------------------------- the loop over the real store

  /** Other clients, each reading before it writes, and expiry. */
  method Interfere(store: InProcessWindowStore, key: WindowKey, changes: seq<Change>)
    requires store.Valid()
    modifies store`shards
    ensures store.Valid()
    ensures Lookup(store.hash, store.shards, key) == Changed(old(Lookup(store.hash, store.shards, key)), changes)
  {
    ghost var v := Lookup(store.hash, store.shards, key);
    for i := 0 to |changes|
      invariant store.Valid()
      invariant Lookup(store.hash, store.shards, key) == Changed(v, changes[..i])
    {
      match changes[i]
      case Wrote(value) =>
        var current := store.Get(key);
        ShardedCasHere(store.hash, store.shards, key, current, value);
        var _ := store.CompareAndSwap(key, current, value);
      case Removed =>
        store.Expire(key);
    }
    assert changes[..|changes|] == changes;
  }

  /** One turn of the loop: read, let the others in, swap. */
  method Attempt(store: InProcessWindowStore, key: WindowKey, during: seq<Change>)
    returns (updated: WindowValue, swapped: bool)
    requires store.Valid()
    modifies store`shards
    ensures store.Valid()
    ensures
      var before := old(Lookup(store.hash, store.shards, key));
      var after := Changed(before, during);
      && updated == Bumped(before)
      && swapped == (after.version == before.version)
      && Lookup(store.hash, store.shards, key) == if swapped then updated else after
  {
    var current := store.Get(key);
    updated := Bumped(current);
    Interfere(store, key, during);
    ShardedCasHere(store.hash, store.shards, key, current, updated);
    swapped := store.CompareAndSwap(key, current, updated);
  }

  /** The head of the loop after n attempts. */
  ghost predicate AtHead(v: WindowValue, world: World, n: nat, swapped: bool, updated: WindowValue, now: WindowValue) {
    if swapped
    then n > 0 && FirstToHold(v, world, n - 1) && updated == Bumped(ReadAt(v, world, n - 1)) && now == updated
    else AllOvertaken(v, world, n) && now == AfterFailed(v, world, n)
  }

  lemma OneMoreAttempt(v: WindowValue, world: World, n: nat, was: WindowValue, now: WindowValue)
    requires AtHead(v, world, n, false, was, now)
    ensures
      var read := Changed(now, world.before(n));
      var after := Changed(read, world.during(n));
      var swapped := after.version == read.version;
      AtHead(v, world, n + 1, swapped, Bumped(read), if swapped then Bumped(read) else after)
  {
  }

  lemma LoopReports(v: WindowValue, world: World, n: nat, swapped: bool, updated: WindowValue, now: WindowValue)
    requires n <= MAX_ATTEMPTS && AtHead(v, world, n, swapped, updated, now) && (swapped || n == MAX_ATTEMPTS)
    ensures Reports(v, world, now, if swapped then Swapped(updated.aggregate) else CasContention)
  {
  }

  /** evaluate, against the in-process store, on one key. */
  method Evaluate(store: InProcessWindowStore, key: WindowKey, threshold: real, world: World)
    returns (verdict: Verdict, contended: bool, ghost report: Report)
    requires store.Valid()
    modifies store`shards
    ensures store.Valid()
    ensures Reports(old(Lookup(store.hash, store.shards, key)), world, Lookup(store.hash, store.shards, key), report)
    ensures contended == report.CasContention?
    ensures verdict == Flag <==> report.Swapped? && report.aggregate > threshold
  {
    var swapped, attempts, updated := false, 0, ZERO;
    ghost var v := Lookup(store.hash, store.shards, key);
    while attempts < MAX_ATTEMPTS && !swapped
      invariant store.Valid() && attempts <= MAX_ATTEMPTS
      invariant AtHead(v, world, attempts, swapped, updated, Lookup(store.hash, store.shards, key))
      decreases MAX_ATTEMPTS - attempts
    {
      OneMoreAttempt(v, world, attempts, updated, Lookup(store.hash, store.shards, key));
      Interfere(store, key, world.before(attempts));
      updated, swapped := Attempt(store, key, world.during(attempts));
      attempts := attempts + 1;
    }
    LoopReports(v, world, attempts, swapped, updated, Lookup(store.hash, store.shards, key));
    contended := !swapped;
    report := if swapped then Swapped(updated.aggregate) else CasContention;
    verdict := if swapped && updated.aggregate > threshold then Flag else Pass;
  }
}
