// The policy stage: its loops over the configured rules, proved to give what the declarative
// resolution in Policy describes, and what that makes of a decision's active decisions.
module PolicyStage {
  import opened Options
  import opened Policy
  import opened DecisionTypes

  // ------------------------------------------------------------- what it outputs

  predicate UsesTypes(rules: seq<Rule>) {
    exists i :: 0 <= i < |rules| && rules[i].typeId.Some?
  }

  function FirstMatch(rules: seq<Rule>): (k: nat)
    ensures k <= |rules| && forall i :: 0 <= i < k ==> !rules[i].outcome.Matches?
    ensures k < |rules| ==> rules[k].outcome.Matches?
  {
    if rules == [] || rules[0].outcome.Matches? then 0 else 1 + FirstMatch(rules[1..])
  }

  /** Without typed rules, or without a registry: the first match decides, unlabelled. */
  function FirstMatchOutput(rules: seq<Rule>, failClosed: bool): StageOutput {
    var k := FirstMatch(rules);
    StageOutput("policy",
                if k < |rules| then rules[k].verdict else Pass,
                Aside(rules[..k], failClosed) + if k < |rules| then [ResultOf(rules[k]).(typeId := None)] else [],
                AnyThrows(rules[..k]))
  }

  ghost function SurvivingResults(rules: seq<Rule>, r: Registry): seq<EvaluatorResult> {
    ResultsAt(rules, Picks(rules, r, |rules|))
  }

  /** With typed rules: every exception and untyped match, then the survivors, in rule order. */
  ghost function ResolvedOutput(rules: seq<Rule>, r: Registry, failClosed: bool): StageOutput {
    StageOutput("policy",
                MaxVerdict(AsideVerdict(rules), VerdictOf(SurvivingResults(rules, r))),
                Aside(rules, failClosed) + SurvivingResults(rules, r),
                AnyThrows(rules))
  }

  // ------------------------------------------------------------------- matching

  datatype Match = Match(typeId: string, result: EvaluatorResult)

  function Labelled(rule: Rule): Match
    requires rule.typeId.Some?
  {
    Match(rule.typeId.value, ResultOf(rule))
  }

  predicate FiresSome(rule: Rule, r: Registry) {
    rule.typeId.Some? && Fires(rule, r, rule.typeId.value)
  }

  /** The typed matches of the first n rules. */
  function MatchList(rules: seq<Rule>, r: Registry, n: nat): seq<Match>
    requires n <= |rules|
  {
    if n == 0 then []
    else if FiresSome(rules[n - 1], r) then MatchList(rules, r, n - 1) + [Labelled(rules[n - 1])]
    else MatchList(rules, r, n - 1)
  }

  predicate HasType(matches: seq<Match>, t: string) {
    exists i :: 0 <= i < |matches| && matches[i].typeId == t
  }

  /** The first match of each type. */
  function Deduplicated(matches: seq<Match>): seq<Match> {
    if matches == [] then [] else
      var front, last := Deduplicated(matches[..|matches| - 1]), matches[|matches| - 1];
      if HasType(front, last.typeId) then front else front + [last]
  }

  /** The same, read off the rules. */
  function FirstMatches(rules: seq<Rule>, r: Registry, n: nat): seq<Match>
    requires n <= |rules|
  {
    if n == 0 then []
    else if FiresFirst(rules, r, n - 1) then FirstMatches(rules, r, n - 1) + [Labelled(rules[n - 1])]
    else FirstMatches(rules, r, n - 1)
  }

  lemma HasTypeAppend(matches: seq<Match>, m: Match, t: string)
    ensures HasType(matches + [m], t) <==> HasType(matches, t) || m.typeId == t
  {
    var all := matches + [m];
    if HasType(matches, t) {
      var i :| 0 <= i < |matches| && matches[i].typeId == t;
      assert all[i].typeId == t;
    }
    assert all[|matches|] == m;
  }

  ghost predicate FiredBefore(rules: seq<Rule>, r: Registry, n: nat, t: string) {
    exists i :: 0 <= i < n && i < |rules| && Fires(rules[i], r, t)
  }

  lemma {:induction false} FirstMatchTypes(rules: seq<Rule>, r: Registry, n: nat, t: string)
    requires n <= |rules|
    ensures HasType(FirstMatches(rules, r, n), t) <==> FiredBefore(rules, r, n, t)
  {
    if n > 0 {
      FirstMatchTypes(rules, r, n - 1, t);
      if FiresFirst(rules, r, n - 1) {
        HasTypeAppend(FirstMatches(rules, r, n - 1), Labelled(rules[n - 1]), t);
      }
      assert FiredBefore(rules, r, n, t) <==> FiredBefore(rules, r, n - 1, t) || Fires(rules[n - 1], r, t);
    }
  }

  lemma {:induction false} DeduplicationKeepsFirst(rules: seq<Rule>, r: Registry, n: nat)
    requires n <= |rules|
    ensures Deduplicated(MatchList(rules, r, n)) == FirstMatches(rules, r, n)
  {
    if n > 0 {
      DeduplicationKeepsFirst(rules, r, n - 1);
      var front, rule := MatchList(rules, r, n - 1), rules[n - 1];
      if FiresSome(rule, r) {
        assert (front + [Labelled(rule)])[..|front|] == front;
        FirstMatchTypes(rules, r, n - 1, rule.typeId.value);
        assert FiresFirst(rules, r, n - 1) <==> !FiredBefore(rules, r, n - 1, rule.typeId.value);
      }
    }
  }

  // --------------------------------------------------------------------- losing

  /** t and a type that beats it are both there. */
  ghost predicate Loses(matches: seq<Match>, r: Registry, t: string) {
    HasType(matches, t) && exists x :: HasType(matches, x) && Beats(r, x, t)
  }

  /** What is left without the losing types. */
  function Kept(matches: seq<Match>, losers: seq<string>): seq<EvaluatorResult> {
    if matches == [] then [] else
      var front, last := Kept(matches[..|matches| - 1], losers), matches[|matches| - 1];
      if last.typeId in losers then front else front + [last.result]
  }

  ghost predicate AreLosers(losers: seq<string>, matches: seq<Match>, r: Registry) {
    forall t :: t in losers <==> Loses(matches, r, t)
  }

  lemma LosersAreBeaten(rules: seq<Rule>, r: Registry, t: string)
    ensures Fired(rules, r, t) ==> (Loses(FirstMatches(rules, r, |rules|), r, t) <==> !Survives(rules, r, t))
  {
    forall x
      ensures HasType(FirstMatches(rules, r, |rules|), x) <==> Fired(rules, r, x)
    {
      FirstMatchTypes(rules, r, |rules|, x);
      assert FiredBefore(rules, r, |rules|, x) <==> Fired(rules, r, x);
    }
  }

  lemma {:induction false} KeptAreSurvivors(rules: seq<Rule>, r: Registry, losers: seq<string>, n: nat)
    requires n <= |rules|
    requires AreLosers(losers, FirstMatches(rules, r, |rules|), r)
    ensures Kept(FirstMatches(rules, r, n), losers) == ResultsAt(rules, Picks(rules, r, n))
  {
    if n > 0 {
      KeptAreSurvivors(rules, r, losers, n - 1);
      var front, picks := FirstMatches(rules, r, n - 1), Picks(rules, r, n - 1);
      if FiresFirst(rules, r, n - 1) {
        var t := rules[n - 1].typeId.value;
        assert Fired(rules, r, t);
        LosersAreBeaten(rules, r, t);
        assert (front + [Labelled(rules[n - 1])])[..|front|] == front;
        assert (picks + [n - 1])[..|picks|] == picks;
      }
    }
  }

  /** The type that a pair of two registered types removes when both fired. */
  function LoserOf(r: Registry, pair: Pair): string
    requires Registered(r, pair.a) && Registered(r, pair.b)
  {
    if Priority(r, pair.a) <= Priority(r, pair.b) then pair.b else pair.a
  }

  lemma OneMorePair(matches: seq<Match>, r: Registry, pair: Pair, t: string)
    ensures Loses(matches, Registry(r.types, r.pairs + [pair]), t) <==>
            || Loses(matches, r, t)
            || (&& HasType(matches, pair.a) && HasType(matches, pair.b)
                && Registered(r, pair.a) && Registered(r, pair.b) && t == LoserOf(r, pair))
  {
    var more := Registry(r.types, r.pairs + [pair]);
    forall x, y
      ensures Beats(more, x, y) <==>
              || Beats(r, x, y)
              || (&& Registered(r, pair.a) && Registered(r, pair.b) && y == LoserOf(r, pair)
                  && x == if y == pair.b && Priority(r, pair.a) <= Priority(r, pair.b) then pair.a else pair.b)
    {
    }
  }

  // ------------------------------------------------------------------ the loops

  lemma ThrowsAppend(rules: seq<Rule>, rule: Rule)
    ensures AnyThrows(rules + [rule]) <==> AnyThrows(rules) || rule.outcome.Throws?
  {
    var all := rules + [rule];
    if AnyThrows(rules) {
      var i :| 0 <= i < |rules| && rules[i].outcome.Throws?;
      assert all[i].outcome.Throws?;
    }
    assert all[|rules|] == rule;
  }

  method EvaluateAll(rules: seq<Rule>, registry: DecisionTypeRegistry, failClosed: bool)
    returns (matches: seq<Match>, out: StageOutput)
    ensures matches == MatchList(rules, registry.View(), |rules|)
    ensures out == StageOutput("policy", AsideVerdict(rules), Aside(rules, failClosed), AnyThrows(rules))
  {
    out := StageOutput("policy", Pass, [], false);
    matches := [];
    for i := 0 to |rules|
      invariant matches == MatchList(rules, registry.View(), i)
      invariant out == StageOutput("policy", AsideVerdict(rules[..i]), Aside(rules[..i], failClosed), AnyThrows(rules[..i]))
    {
      assert rules[..i + 1] == rules[..i] + [rules[i]];
      ThrowsAppend(rules[..i], rules[i]);
      var rule := rules[i];
      if rule.outcome.Throws? {
        out := out.(results := out.results + [Degraded(rule, failClosed)], evaluatorError := true);
      } else if rule.outcome.Matches? {
        if rule.typeId.None? {
          out := out.(verdict := MaxVerdict(out.verdict, rule.verdict), results := out.results + [ResultOf(rule)]);
        } else {
          var desc := registry.FindType(rule.typeId.value);
          if desc.Some? {
            matches := matches + [Labelled(rule)];
          }
        }
      }
    }
    assert rules[..|rules|] == rules;
  }

  method ContainsType(matches: seq<Match>, t: string) returns (yes: bool)
    ensures yes <==> HasType(matches, t)
  {
    for i := 0 to |matches|
      invariant forall j :: 0 <= j < i ==> matches[j].typeId != t
    {
      if matches[i].typeId == t {
        return true;
      }
    }
    yes := false;
  }

  method Deduplicate(matches: seq<Match>) returns (deduped: seq<Match>)
    ensures deduped == Deduplicated(matches)
  {
    deduped := [];
    for i := 0 to |matches|
      invariant deduped == Deduplicated(matches[..i])
    {
      assert matches[..i + 1][..i] == matches[..i];
      var already := ContainsType(deduped, matches[i].typeId);
      if !already {
        deduped := deduped + [matches[i]];
      }
    }
    assert matches[..|matches|] == matches;
  }

  method CollectLosers(deduped: seq<Match>, registry: DecisionTypeRegistry) returns (losers: seq<string>)
    ensures AreLosers(losers, deduped, registry.View())
  {
    losers := [];
    var pairs := registry.incompatible;
    for i := 0 to |pairs|
      invariant AreLosers(losers, deduped, Registry(registry.types, pairs[..i]))
    {
      var pair, before := pairs[i], Registry(registry.types, pairs[..i]);
      assert pairs[..i + 1] == pairs[..i] + [pair];
      forall t
        ensures Loses(deduped, Registry(registry.types, pairs[..i + 1]), t) <==>
                || t in losers
                || (&& HasType(deduped, pair.a) && HasType(deduped, pair.b)
                    && Registered(before, pair.a) && Registered(before, pair.b) && t == LoserOf(before, pair))
      {
        OneMorePair(deduped, before, pair, t);
      }
      var hasA := ContainsType(deduped, pair.a);
      var hasB := ContainsType(deduped, pair.b);
      if hasA && hasB {
        var descA := registry.FindType(pair.a);
        var descB := registry.FindType(pair.b);
        if descA.Some? && descB.Some? {
          if descA.value.priority <= descB.value.priority {
            losers := losers + [pair.b];
          } else {
            losers := losers + [pair.a];
          }
        }
      }
    }
    assert pairs[..|pairs|] == pairs;
  }

  lemma VerdictOfOneMore(verdict: Verdict, results: seq<EvaluatorResult>, result: EvaluatorResult)
    ensures MaxVerdict(verdict, VerdictOf(results + [result])) == MaxVerdict(MaxVerdict(verdict, VerdictOf(results)), result.verdict)
  {
    var all := results + [result];
    assert all[..|results|] == results && all[|results|] == result;
  }

  lemma KeptOneMore(matches: seq<Match>, i: nat, losers: seq<string>)
    requires i < |matches|
    ensures Kept(matches[..i + 1], losers)
         == if matches[i].typeId in losers then Kept(matches[..i], losers) else Kept(matches[..i], losers) + [matches[i].result]
  {
    assert matches[..i + 1][..i] == matches[..i];
  }

  method EmitSurvivors(deduped: seq<Match>, losers: seq<string>, aside: StageOutput) returns (out: StageOutput)
    ensures out == StageOutput(aside.stageId, MaxVerdict(aside.verdict, VerdictOf(Kept(deduped, losers))),
                               aside.results + Kept(deduped, losers), aside.evaluatorError)
  {
    var verdict, results := aside.verdict, aside.results;
    for i := 0 to |deduped|
      invariant verdict == MaxVerdict(aside.verdict, VerdictOf(Kept(deduped[..i], losers)))
      invariant results == aside.results + Kept(deduped[..i], losers)
    {
      KeptOneMore(deduped, i, losers);
      if deduped[i].typeId !in losers {
        VerdictOfOneMore(aside.verdict, Kept(deduped[..i], losers), deduped[i].result);
        verdict, results := MaxVerdict(verdict, deduped[i].result.verdict), results + [deduped[i].result];
      }
    }
    assert deduped[..|deduped|] == deduped;
    out := aside.(verdict := verdict, results := results);
  }

  method ProcessFirstMatch(rules: seq<Rule>, failClosed: bool) returns (out: StageOutput)
    ensures out == FirstMatchOutput(rules, failClosed)
  {
    out := StageOutput("policy", Pass, [], false);
    for i := 0 to |rules|
      invariant i <= FirstMatch(rules)
      invariant out == StageOutput("policy", Pass, Aside(rules[..i], failClosed), AnyThrows(rules[..i]))
    {
      assert rules[..i + 1] == rules[..i] + [rules[i]];
      ThrowsAppend(rules[..i], rules[i]);
      var rule := rules[i];
      if rule.outcome.Throws? {
        out := out.(results := out.results + [Degraded(rule, failClosed)], evaluatorError := true);
      } else if rule.outcome.Matches? {
        out := out.(verdict := MaxVerdict(out.verdict, rule.verdict),
                    results := out.results + [ResultOf(rule).(typeId := None)]);
        return;
      }
    }
  }

  method HasTypedRule(rules: seq<Rule>) returns (yes: bool)
    ensures yes <==> UsesTypes(rules)
  {
    for i := 0 to |rules|
      invariant forall j :: 0 <= j < i ==> rules[j].typeId.None?
    {
      if rules[i].typeId.Some? {
        return true;
      }
    }
    yes := false;
  }

  /** The stage computes the declarative resolution whenever a registry and a typed rule are there. */
  method Process(rules: seq<Rule>, registry: DecisionTypeRegistry?, failClosed: bool) returns (out: StageOutput)
    ensures out == if registry != null && (exists i :: 0 <= i < |rules| && rules[i].typeId.Some?)
                   then ResolvedOutput(rules, registry.View(), failClosed)
                   else FirstMatchOutput(rules, failClosed)
  {
    var typed := HasTypedRule(rules);
    if registry == null || !typed {
      out := ProcessFirstMatch(rules, failClosed);
      return;
    }
    var matches, aside := EvaluateAll(rules, registry, failClosed);
    var deduped := Deduplicate(matches);
    DeduplicationKeepsFirst(rules, registry.View(), |rules|);
    var losers := CollectLosers(deduped, registry);
    out := EmitSurvivors(deduped, losers, aside);
    KeptAreSurvivors(rules, registry.View(), losers, |rules|);
  }
}
