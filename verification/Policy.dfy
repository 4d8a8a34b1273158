// The policy stage: decision types and their incompatible pairs, rule evaluation, and the
// resolution of the fired types into active decisions.
module Policy {
  import opened Options

  datatype Verdict = Pass | Flag | Block

  function MaxVerdict(a: Verdict, b: Verdict): Verdict {
    if a.Block? || b.Block? then Block else if a.Flag? || b.Flag? then Flag else Pass
  }

  datatype Descriptor = Descriptor(id: string, priority: nat)

  datatype Pair = Pair(a: string, b: string)

  /** What is registered: the types, in ascending priority, and the declared pairs. */
  datatype Registry = Registry(types: seq<Descriptor>, pairs: seq<Pair>)

  function Find(types: seq<Descriptor>, id: string): Option<Descriptor> {
    if types == [] then None
    else if types[0].id == id then Some(types[0])
    else Find(types[1..], id)
  }

  predicate Registered(r: Registry, id: string) {
    Find(r.types, id).Some?
  }

  function Priority(r: Registry, id: string): nat
    requires Registered(r, id)
  {
    Find(r.types, id).value.priority
  }

  ghost predicate Ascending(types: seq<Descriptor>) {
    forall i, j :: 0 <= i < j < |types| ==> types[i].priority <= types[j].priority
  }

  ghost predicate DistinctIds(types: seq<Descriptor>) {
    forall i, j :: 0 <= i < j < |types| ==> types[i].id != types[j].id
  }

  ghost predicate ValidRegistry(r: Registry) {
    && Ascending(r.types) && DistinctIds(r.types)
    && (forall d :: d in r.types ==> d.id != "")
    && (forall p :: p in r.pairs ==> Registered(r, p.a) && Registered(r, p.b))
  }

  lemma {:induction false} FindMeaning(types: seq<Descriptor>, id: string)
    ensures Find(types, id).Some? ==> Find(types, id).value in types && Find(types, id).value.id == id
    ensures Find(types, id).None? ==> forall d :: d in types ==> d.id != id
  {
    if types != [] {
      FindMeaning(types[1..], id);
      assert types == [types[0]] + types[1..];
    }
  }

  /** In a valid registry each registered type is found under its id, with its own priority. */
  lemma LookupMeaning(r: Registry, d: Descriptor)
    requires ValidRegistry(r)
    ensures d in r.types <==> Registered(r, d.id) && Find(r.types, d.id) == Some(d)
    ensures d in r.types ==> Priority(r, d.id) == d.priority
  {
    FindMeaning(r.types, d.id);
  }

  // --------------------------------------------------------------------- rules

  datatype Outcome = Matches | DoesNotMatch | Throws

  /** A rule, with what evaluating it on the event at hand came to. */
  datatype Rule = Rule(outcome: Outcome, verdict: Verdict, ruleId: string, typeId: Option<string>)

  datatype EvaluatorResult = EvaluatorResult(
    evaluatorId: string, verdict: Verdict, skipped: bool, reason: string, typeId: Option<string>)

  datatype StageOutput = StageOutput(stageId: string, verdict: Verdict, results: seq<EvaluatorResult>, evaluatorError: bool)

  function NameOr(ruleId: string, default: string): string {
    if ruleId == "" then default else ruleId
  }

  function Degraded(rule: Rule, failClosed: bool): EvaluatorResult {
    EvaluatorResult(NameOr(rule.ruleId, "unknown_rule"), if failClosed then Block else Pass, true, "rule_eval_exception", None)
  }

  function ResultOf(rule: Rule): EvaluatorResult {
    EvaluatorResult(NameOr(rule.ruleId, "policy_rule"), rule.verdict, false, rule.ruleId, rule.typeId)
  }

  // ------------------------------------------------- the declarative resolution

  /** The rule matched and names a registered type t. */
  predicate Fires(rule: Rule, r: Registry, t: string) {
    rule.outcome.Matches? && rule.typeId == Some(t) && Registered(r, t)
  }

  predicate Fired(rules: seq<Rule>, r: Registry, t: string) {
    exists i :: 0 <= i < |rules| && Fires(rules[i], r, t)
  }

  /** x beats y: a pair joins them, and x has the lower priority number, or the same one and is
      the pair's first member. */
  predicate Beats(r: Registry, x: string, y: string) {
    && Registered(r, x) && Registered(r, y)
    && ((Pair(x, y) in r.pairs && Priority(r, x) <= Priority(r, y))
        || (Pair(y, x) in r.pairs && Priority(r, x) < Priority(r, y)))
  }

  ghost predicate Survives(rules: seq<Rule>, r: Registry, t: string) {
    Fired(rules, r, t) && forall x :: Fired(rules, r, x) ==> !Beats(r, x, t)
  }

  /** Rule i is the first to fire its type. */
  predicate FiresFirst(rules: seq<Rule>, r: Registry, i: nat)
    requires i < |rules|
  {
    && rules[i].typeId.Some? && Fires(rules[i], r, rules[i].typeId.value)
    && forall j :: 0 <= j < i ==> !Fires(rules[j], r, rules[i].typeId.value)
  }

  /** The rules, among the first n, that speak for a surviving type. */
  ghost function Picks(rules: seq<Rule>, r: Registry, n: nat): (picks: seq<nat>)
    requires n <= |rules|
    ensures forall p :: 0 <= p < |picks| ==> picks[p] < n
  {
    if n == 0 then []
    else if Picked(rules, r, n - 1) then Picks(rules, r, n - 1) + [n - 1]
    else Picks(rules, r, n - 1)
  }

  ghost function ResultsAt(rules: seq<Rule>, picks: seq<nat>): seq<EvaluatorResult>
    requires forall p :: 0 <= p < |picks| ==> picks[p] < |rules|
  {
    if picks == [] then []
    else ResultsAt(rules, picks[..|picks| - 1]) + [ResultOf(rules[picks[|picks| - 1]])]
  }

  /** Rules that speak outside the resolution: exceptions, and matches without a type. */
  function Aside(rules: seq<Rule>, failClosed: bool): seq<EvaluatorResult> {
    if rules == [] then [] else
      var front, rule := Aside(rules[..|rules| - 1], failClosed), rules[|rules| - 1];
      if rule.outcome.Throws? then front + [Degraded(rule, failClosed)]
      else if rule.outcome.Matches? && rule.typeId.None? then front + [ResultOf(rule)]
      else front
  }

  function AsideVerdict(rules: seq<Rule>): Verdict {
    if rules == [] then Pass else
      var front, rule := AsideVerdict(rules[..|rules| - 1]), rules[|rules| - 1];
      if rule.outcome.Matches? && rule.typeId.None? then MaxVerdict(front, rule.verdict) else front
  }

  function VerdictOf(results: seq<EvaluatorResult>): Verdict {
    if results == [] then Pass
    else MaxVerdict(VerdictOf(results[..|results| - 1]), results[|results| - 1].verdict)
  }

  predicate AnyThrows(rules: seq<Rule>) {
    exists i :: 0 <= i < |rules| && rules[i].outcome.Throws?
  }

  /** Rule i speaks for a surviving type. */
  ghost predicate Picked(rules: seq<Rule>, r: Registry, i: nat)
    requires i < |rules|
  {
    FiresFirst(rules, r, i) && Survives(rules, r, rules[i].typeId.value)
  }

  ghost predicate StrictlyAscending(s: seq<nat>) {
    forall p, q :: 0 <= p < q < |s| ==> s[p] < s[q]
  }

  /** Picks lists exactly the picked rules, in rule order. */
  lemma {:induction false} PicksExact(rules: seq<Rule>, r: Registry, n: nat)
    requires n <= |rules|
    ensures forall i :: 0 <= i < n ==> (i in Picks(rules, r, n) <==> Picked(rules, r, i))
    ensures StrictlyAscending(Picks(rules, r, n))
  {
    if n > 0 {
      PicksExact(rules, r, n - 1);
    }
  }

  // --------------------------------------------------- what the resolution gives

  lemma FirstToFire(rules: seq<Rule>, r: Registry, t: string, i: nat) returns (first: nat)
    requires i < |rules| && Fires(rules[i], r, t)
    ensures first <= i && FiresFirst(rules, r, first) && rules[first].typeId == Some(t)
  {
    if j :| 0 <= j < i && Fires(rules[j], r, t) {
      first := FirstToFire(rules, r, t, j);
    } else {
      first := i;
    }
  }

  /** Rule i is picked for type t. */
  ghost predicate PickedFor(rules: seq<Rule>, r: Registry, i: nat, t: string) {
    i < |rules| && i in Picks(rules, r, |rules|) && rules[i].typeId == Some(t)
  }

  /** Exactly the surviving types have a picked rule, each exactly one: the first that fired it. */
  lemma PicksAreSurvivors(rules: seq<Rule>, r: Registry, t: string)
    ensures Survives(rules, r, t) <==> exists i :: PickedFor(rules, r, i, t)
    ensures forall i: nat :: PickedFor(rules, r, i, t) ==>
              Fires(rules[i], r, t) && forall j :: 0 <= j < i ==> !Fires(rules[j], r, t)
    ensures forall i: nat, j: nat :: PickedFor(rules, r, i, t) && PickedFor(rules, r, j, t) ==> i == j
  {
    PicksExact(rules, r, |rules|);
    if Survives(rules, r, t) {
      var i :| 0 <= i < |rules| && Fires(rules[i], r, t);
      var first := FirstToFire(rules, r, t, i);
      assert Picked(rules, r, first);
      assert PickedFor(rules, r, first, t);
    }
    forall i | PickedFor(rules, r, i, t)
      ensures FiresFirst(rules, r, i) && Survives(rules, r, t)
    {
      assert Picked(rules, r, i);
    }
  }

  /** The order in which pairs were declared, and how often, does not matter; a further pair
      only removes survivors. */
  lemma PairsActAsSet(rules: seq<Rule>, types: seq<Descriptor>, fewer: seq<Pair>, more: seq<Pair>, t: string)
    requires forall p :: p in fewer ==> p in more
    ensures Survives(rules, Registry(types, more), t) ==> Survives(rules, Registry(types, fewer), t)
    ensures (forall p :: p in more ==> p in fewer) ==>
              (Survives(rules, Registry(types, more), t) <==> Survives(rules, Registry(types, fewer), t))
  {
    var a, b := Registry(types, fewer), Registry(types, more);
    assert forall rule, x :: Fires(rule, a, x) == Fires(rule, b, x);
    assert forall x :: Fired(rules, a, x) == Fired(rules, b, x);
    assert forall x, y :: Beats(a, x, y) ==> Beats(b, x, y);
  }

  predicate Incompatible(r: Registry, x: string, y: string) {
    Pair(x, y) in r.pairs || Pair(y, x) in r.pairs
  }

  /** No two survivors, and no survivor with itself, were declared incompatible. */
  lemma SurvivorsCompatible(rules: seq<Rule>, r: Registry, x: string, y: string)
    requires Survives(rules, r, x) && Survives(rules, r, y)
    ensures !Incompatible(r, x, y)
  {
    assert Incompatible(r, x, y) ==> Beats(r, x, y) || Beats(r, y, x);
  }

  /** A declared pair makes both incompatible with each other, whichever is asked about first,
      and nothing else does. */
  lemma IncompatibleMeaning(r: Registry, x: string, y: string)
    ensures Incompatible(r, x, y) <==> Incompatible(r, y, x)
    ensures Incompatible(r, x, y) <==> exists i :: 0 <= i < |r.pairs| && (r.pairs[i] == Pair(x, y) || r.pairs[i] == Pair(y, x))
  {
  }

  /** A fired type that outranks every other and is not paired with itself survives. */
  lemma TopPrioritySurvives(rules: seq<Rule>, r: Registry, t: string)
    requires Fired(rules, r, t) && Pair(t, t) !in r.pairs
    requires forall x :: Fired(rules, r, x) && x != t ==> Registered(r, x) && Registered(r, t) && Priority(r, t) < Priority(r, x)
    ensures Survives(rules, r, t)
  {
  }

  /** No fired type other than the second beats the first. */
  ghost predicate OnlyRival(rules: seq<Rule>, r: Registry, t: string, rival: string) {
    forall z :: Fired(rules, r, z) && Beats(r, z, t) ==> z == rival
  }

  /** Of two fired incompatible types at least one goes. When nobody else is against either, both
      go exactly when their priorities are equal and the pair was declared both ways round. */
  lemma MutualLossIff(rules: seq<Rule>, r: Registry, x: string, y: string)
    requires Fired(rules, r, x) && Fired(rules, r, y) && Incompatible(r, x, y)
    ensures !Survives(rules, r, x) || !Survives(rules, r, y)
    ensures x != y && OnlyRival(rules, r, x, y) && OnlyRival(rules, r, y, x) ==>
              (!Survives(rules, r, x) && !Survives(rules, r, y) <==>
               Priority(r, x) == Priority(r, y) && Pair(x, y) in r.pairs && Pair(y, x) in r.pairs)
  {
    FiredIsRegistered(rules, r, x);
    FiredIsRegistered(rules, r, y);
    if Survives(rules, r, x) && Survives(rules, r, y) {
      SurvivorsCompatible(rules, r, x, y);
      assert false;
    }
  }

  lemma FiredIsRegistered(rules: seq<Rule>, r: Registry, t: string)
    requires Fired(rules, r, t)
    ensures Registered(r, t)
  {
  }

  /** On equal priorities, and with nobody else against it, the earlier match survives, as the
      registry's description has it, exactly when the pair was not declared with the later type
      first; the later match survives exactly when it was declared that way only. */
  lemma TieKeepsEarlierIff(rules: seq<Rule>, r: Registry, i: nat, j: nat)
    requires i < j < |rules| && FiresFirst(rules, r, i) && FiresFirst(rules, r, j)
    requires Incompatible(r, rules[i].typeId.value, rules[j].typeId.value)
    requires Priority(r, rules[i].typeId.value) == Priority(r, rules[j].typeId.value)
    ensures var x, y := rules[i].typeId.value, rules[j].typeId.value;
            OnlyRival(rules, r, x, y) ==> (Survives(rules, r, x) <==> Pair(y, x) !in r.pairs)
    ensures var x, y := rules[i].typeId.value, rules[j].typeId.value;
            OnlyRival(rules, r, y, x) ==> (Survives(rules, r, y) <==> Pair(x, y) !in r.pairs)
  {
    var x, y := rules[i].typeId.value, rules[j].typeId.value;
    assert Fires(rules[i], r, x) && Fires(rules[j], r, y);
    assert Fired(rules, r, x) && Fired(rules, r, y);
  }

  /** The three types of a chain a - b - c, and one rule for each. */
  function Chain(): Registry {
    Registry([Descriptor("a", 1), Descriptor("b", 2), Descriptor("c", 3)], [Pair("a", "b"), Pair("b", "c")])
  }

  function ChainRules(): seq<Rule> {
    [Rule(Matches, Flag, "1", Some("a")), Rule(Matches, Flag, "2", Some("b")), Rule(Matches, Flag, "3", Some("c"))]
  }

  lemma ChainLookup()
    ensures Find(Chain().types, "a") == Some(Descriptor("a", 1))
    ensures Find(Chain().types, "b") == Some(Descriptor("b", 2))
    ensures Find(Chain().types, "c") == Some(Descriptor("c", 3))
  {
    var types := Chain().types;
    assert "a"[0] != "b"[0] && "a"[0] != "c"[0] && "b"[0] != "c"[0];
    assert types[1..] == [Descriptor("b", 2), Descriptor("c", 3)];
    assert types[1..][1..] == [Descriptor("c", 3)];
  }

  lemma ChainFires()
    ensures Fired(ChainRules(), Chain(), "a") && Fired(ChainRules(), Chain(), "b") && Fired(ChainRules(), Chain(), "c")
  {
    ChainLookup();
    var rules, r := ChainRules(), Chain();
    assert Fires(rules[0], r, "a") && Fires(rules[1], r, "b") && Fires(rules[2], r, "c");
  }

  /** A type that loses still beats others: in a chain the middle one goes, and takes the last with it. */
  lemma LosersStillBeat()
    ensures !Survives(ChainRules(), Chain(), "b") && !Survives(ChainRules(), Chain(), "c")
    ensures !Incompatible(Chain(), "a", "c") && Survives(ChainRules(), Chain(), "a")
  {
    var r := Chain();
    ChainLookup();
    ChainFires();
    assert Beats(r, "a", "b") && Beats(r, "b", "c");
    assert "a"[0] != "b"[0] && "a"[0] != "c"[0];
    assert forall p :: p in r.pairs ==> p.b != "a" && p != Pair("a", "c");
    assert forall x :: Pair("a", x) in r.pairs ==> x == "b";
  }

  /** Two types of equal priority, the later one named first in the pair: the earlier match loses. */
  lemma TieCanDropTheEarlier() returns (rules: seq<Rule>, r: Registry)
    ensures ValidRegistry(r) && |rules| == 2 && FiresFirst(rules, r, 0) && FiresFirst(rules, r, 1)
    ensures Priority(r, rules[0].typeId.value) == Priority(r, rules[1].typeId.value)
    ensures !Survives(rules, r, rules[0].typeId.value) && Survives(rules, r, rules[1].typeId.value)
  {
    r := Registry([Descriptor("x", 5), Descriptor("y", 5)], [Pair("y", "x")]);
    rules := [Rule(Matches, Flag, "first", Some("x")), Rule(Matches, Flag, "second", Some("y"))];
    assert "x" != "y" by { assert "x"[0] != "y"[0]; }
    assert Find(r.types, "x") == Some(r.types[0]);
    assert Find(r.types, "y") == Some(r.types[1]) by { assert r.types[1..] == [r.types[1]]; }
    assert Fires(rules[0], r, "x") && Fires(rules[1], r, "y");
    assert Fired(rules, r, "x") && Fired(rules, r, "y");
    assert Beats(r, "y", "x");
    forall x | Fired(rules, r, x)
      ensures !Beats(r, x, "y")
    {
      assert Pair(x, "y") != Pair("y", "x");
    }
  }
}
