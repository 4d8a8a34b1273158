// What the results that the policy stage emits say, and in whose name, on both of its paths.
module StageResults {
  import opened Options
  import opened Policy
  import opened PolicyStage

  /** The result of a rule that matched: its verdict, its name, and its type if it speaks for one. */
  predicate SpeaksFor(result: EvaluatorResult, rule: Rule, typeId: Option<string>) {
    && result.verdict == rule.verdict && !result.skipped
    && (rule.ruleId != "" ==> result.evaluatorId == rule.ruleId)
    && (rule.ruleId == "" ==> result.evaluatorId == "policy_rule")
    && result.reason == rule.ruleId && result.typeId == typeId
  }

  /** The degraded result of a rule that threw: it blocks exactly when the stage fails closed. */
  predicate ReportsException(result: EvaluatorResult, rule: Rule, failClosed: bool) {
    && result.skipped && result.reason == "rule_eval_exception" && result.typeId.None?
    && (failClosed ==> result.verdict.Block?) && (!failClosed ==> result.verdict.Pass?)
    && (rule.ruleId != "" ==> result.evaluatorId == rule.ruleId)
    && (rule.ruleId == "" ==> result.evaluatorId == "unknown_rule")
  }

  ghost predicate Increasing(from: seq<nat>, n: nat) {
    && (forall p, q :: 0 <= p < q < |from| ==> from[p] < from[q])
    && (forall p :: 0 <= p < |from| ==> from[p] < n)
  }

  predicate IsAside(rule: Rule) {
    rule.outcome.Throws? || (rule.outcome.Matches? && rule.typeId.None?)
  }

  predicate AsideResult(result: EvaluatorResult, rule: Rule, failClosed: bool) {
    if rule.outcome.Throws? then ReportsException(result, rule, failClosed) else SpeaksFor(result, rule, None)
  }

  /** These results come from exactly those rules that throw, or match without a type, in order. */
  ghost predicate ComeFrom(results: seq<EvaluatorResult>, rules: seq<Rule>, failClosed: bool, from: seq<nat>) {
    && |from| == |results| && Increasing(from, |rules|)
    && (forall p :: 0 <= p < |from| ==> from[p] < |rules| && AsideResult(results[p], rules[from[p]], failClosed))
    && (forall i :: 0 <= i < |rules| ==> (IsAside(rules[i]) <==> i in from))
  }

  lemma OneMoreMember(from: seq<nat>, n: nat)
    requires Increasing(from, n)
    ensures Increasing(from + [n], n + 1)
    ensures forall i :: i in from + [n] <==> i in from || i == n
    ensures n !in from
  {
  }

  lemma OneMoreRule(results: seq<EvaluatorResult>, result: EvaluatorResult, rules: seq<Rule>, failClosed: bool, from: seq<nat>, rule: Rule)
    requires ComeFrom(results, rules, failClosed, from)
    ensures !IsAside(rule) ==> ComeFrom(results, rules + [rule], failClosed, from)
    ensures IsAside(rule) && AsideResult(result, rule, failClosed) ==>
              ComeFrom(results + [result], rules + [rule], failClosed, from + [|rules|])
  {
    OneMoreMember(from, |rules|);
  }

  /** What precedes the survivors: exactly the exceptions and the untyped matches, in rule order,
      each as its rule and the failure mode have it. */
  lemma {:induction false} AsideMeaning(rules: seq<Rule>, failClosed: bool) returns (from: seq<nat>)
    ensures ComeFrom(Aside(rules, failClosed), rules, failClosed, from)
  {
    if rules == [] {
      from := [];
    } else {
      var front, rule := rules[..|rules| - 1], rules[|rules| - 1];
      from := AsideMeaning(front, failClosed);
      assert rules == front + [rule];
      var result := if rule.outcome.Throws? then Degraded(rule, failClosed) else ResultOf(rule);
      OneMoreRule(Aside(front, failClosed), result, front, failClosed, from, rule);
      if IsAside(rule) {
        from := from + [|front|];
      }
    }
  }

  ghost predicate SpeakForPicks(results: seq<EvaluatorResult>, rules: seq<Rule>, picks: seq<nat>) {
    && |results| == |picks|
    && forall p :: 0 <= p < |picks| ==> picks[p] < |rules| && SpeaksFor(results[p], rules[picks[p]], rules[picks[p]].typeId)
  }

  /** What follows them: for each pick, its rule's verdict in its rule's name, for its type. */
  lemma {:induction false} PickedResultsMeaning(rules: seq<Rule>, picks: seq<nat>)
    requires forall p :: 0 <= p < |picks| ==> picks[p] < |rules|
    ensures SpeakForPicks(ResultsAt(rules, picks), rules, picks)
  {
    if picks != [] {
      PickedResultsMeaning(rules, picks[..|picks| - 1]);
    }
  }

  lemma Halves(a: seq<EvaluatorResult>, b: seq<EvaluatorResult>)
    ensures (a + b)[..|a|] == a && (a + b)[|a|..] == b
  {
  }

  /** The whole output of the resolving path, result by result: `picks` are the survivors' rules. */
  lemma ResolvedResultsMeaning(rules: seq<Rule>, r: Registry, failClosed: bool) returns (from: seq<nat>)
    ensures
      var results := ResolvedOutput(rules, r, failClosed).results;
      && |from| <= |results|
      && ComeFrom(results[..|from|], rules, failClosed, from)
      && SpeakForPicks(results[|from|..], rules, Picks(rules, r, |rules|))
    ensures ResolvedOutput(rules, r, failClosed).evaluatorError <==> exists i :: 0 <= i < |rules| && rules[i].outcome.Throws?
  {
    from := AsideMeaning(rules, failClosed);
    PickedResultsMeaning(rules, Picks(rules, r, |rules|));
    Halves(Aside(rules, failClosed), SurvivingResults(rules, r));
  }

  // --------------------------------------------------------------- first match wins

  ghost predicate MatchesFirstAt(rules: seq<Rule>, k: nat) {
    && k <= |rules| && (forall i :: 0 <= i < k ==> !rules[i].outcome.Matches?)
    && (k < |rules| ==> rules[k].outcome.Matches?)
  }

  ghost predicate ThrowsBefore(rules: seq<Rule>, k: nat) {
    exists i :: 0 <= i < k && i < |rules| && rules[i].outcome.Throws?
  }

  /** Without typed rules or a registry, the first rule that matches decides: the stage's verdict is
      its verdict, and its result, unlabelled, is the last one. The rules that threw before it, and
      no others, have degraded results and raise the error flag; rules after it have no part. When
      no rule matches the verdict is Pass. */
  lemma FirstMatchDecides(rules: seq<Rule>, failClosed: bool, k: nat) returns (from: seq<nat>)
    requires MatchesFirstAt(rules, k)
    ensures
      var out := FirstMatchOutput(rules, failClosed);
      && out.verdict == (if k < |rules| then rules[k].verdict else Pass)
      && |out.results| == |from| + (if k < |rules| then 1 else 0)
      && (k < |rules| ==> SpeaksFor(out.results[|from|], rules[k], None))
      && Increasing(from, k)
      && (forall p :: 0 <= p < |from| ==> from[p] < |rules| && ReportsException(out.results[p], rules[from[p]], failClosed))
      && (forall i :: 0 <= i < k ==> (rules[i].outcome.Throws? <==> i in from))
      && (out.evaluatorError <==> ThrowsBefore(rules, k))
  {
    var front := rules[..k];
    assert k == FirstMatch(rules);
    from := AsideMeaning(front, failClosed);
    assert forall i :: 0 <= i < k ==> front[i] == rules[i];
    assert AnyThrows(front) <==> ThrowsBefore(rules, k);
  }
}
