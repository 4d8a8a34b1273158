// What the policy stage's output makes of a decision record: which types become active, in what
// order, in whose name, and with which verdict.
module ActiveDecisions {
  import opened Options
  import opened Policy
  import opened DecisionTypes
  import opened PolicyStage

  // ------------------------------------------------------------------- entries

  lemma {:induction false} EntriesConcat(a: seq<EvaluatorResult>, b: seq<EvaluatorResult>, types: seq<Descriptor>)
    ensures Entries(a + b, types) == Entries(a, types) + Entries(b, types)
  {
    if b == [] {
      assert a + b == a;
    } else {
      assert (a + b)[..|a + b| - 1] == a + b[..|b| - 1];
      EntriesConcat(a, b[..|b| - 1], types);
    }
  }

  lemma {:induction false} AsideHasNoEntries(rules: seq<Rule>, failClosed: bool, types: seq<Descriptor>)
    ensures Entries(Aside(rules, failClosed), types) == []
  {
    if rules != [] {
      var front, rule := Aside(rules[..|rules| - 1], failClosed), rules[|rules| - 1];
      AsideHasNoEntries(rules[..|rules| - 1], failClosed, types);
      EntriesConcat(front, [Degraded(rule, failClosed)], types);
      EntriesConcat(front, [ResultOf(rule)], types);
    }
  }

  /** The stage's first-match path never activates a type. */
  lemma FirstMatchActivatesNothing(rules: seq<Rule>, failClosed: bool, types: seq<Descriptor>, active: seq<ActiveDecision>)
    requires ActiveFor(active, FirstMatchOutput(rules, failClosed).results, types)
    ensures active == []
  {
    var k := FirstMatch(rules);
    AsideHasNoEntries(rules[..k], failClosed, types);
    EntriesConcat(Aside(rules[..k], failClosed), if k < |rules| then [ResultOf(rules[k]).(typeId := None)] else [], types);
    assert multiset(active) == multiset{};
    assert |active| == |multiset(active)|;
  }

  /** The entry speaks for rule i's type, in that rule's name. */
  ghost predicate EntryOf(entry: ActiveDecision, rules: seq<Rule>, r: Registry, i: nat) {
    && i < |rules| && FiresSome(rules[i], r)
    && entry.typeId == rules[i].typeId.value
    && entry.ruleId == NameOr(rules[i].ruleId, "policy_rule")
    && entry.priority == Priority(r, entry.typeId)
  }

  /** The entry speaks for its type's first match. */
  ghost predicate OfFirstToFire(entry: ActiveDecision, rules: seq<Rule>, r: Registry) {
    exists i: nat :: EntryOf(entry, rules, r, i) && FiresFirst(rules, r, i)
  }

  ghost predicate EntriesOf(entries: seq<ActiveDecision>, rules: seq<Rule>, r: Registry, picks: seq<nat>) {
    |entries| == |picks| && forall p :: 0 <= p < |entries| ==> EntryOf(entries[p], rules, r, picks[p])
  }

  lemma OneEntry(rules: seq<Rule>, r: Registry, i: nat) returns (entry: ActiveDecision)
    requires i < |rules| && FiresSome(rules[i], r)
    ensures EntryOf(entry, rules, r, i) && Entries([ResultOf(rules[i])], r.types) == [entry]
  {
    var result, t := ResultOf(rules[i]), rules[i].typeId.value;
    entry := ActiveDecision(t, result.evaluatorId, Priority(r, t));
    assert [result][..0] == [] && Entries([], r.types) == [];
  }

  lemma OneEntryMore(entries: seq<ActiveDecision>, entry: ActiveDecision, rules: seq<Rule>, r: Registry, picks: seq<nat>, i: nat)
    requires EntriesOf(entries, rules, r, picks) && EntryOf(entry, rules, r, i)
    ensures EntriesOf(entries + [entry], rules, r, picks + [i])
  {
  }

  ghost predicate AllFire(rules: seq<Rule>, r: Registry, picks: seq<nat>) {
    forall p :: 0 <= p < |picks| ==> picks[p] < |rules| && FiresSome(rules[picks[p]], r)
  }

  lemma {:induction false} PickedEntries(rules: seq<Rule>, r: Registry, picks: seq<nat>)
    requires AllFire(rules, r, picks)
    ensures EntriesOf(Entries(ResultsAt(rules, picks), r.types), rules, r, picks)
  {
    if picks != [] {
      var front, i := picks[..|picks| - 1], picks[|picks| - 1];
      PickedEntries(rules, r, front);
      EntriesConcat(ResultsAt(rules, front), [ResultOf(rules[i])], r.types);
      var entry := OneEntry(rules, r, i);
      OneEntryMore(Entries(ResultsAt(rules, front), r.types), entry, rules, r, front, i);
      assert picks == front + [i];
    }
  }

  lemma SurvivorEntries(rules: seq<Rule>, r: Registry)
    ensures EntriesOf(Entries(SurvivingResults(rules, r), r.types), rules, r, Picks(rules, r, |rules|))
  {
    var picks := Picks(rules, r, |rules|);
    PicksExact(rules, r, |rules|);
    forall p | 0 <= p < |picks|
      ensures FiresSome(rules[picks[p]], r)
    {
      assert picks[p] in picks && Picked(rules, r, picks[p]);
    }
    PickedEntries(rules, r, picks);
  }

  // --------------------------------------------------------------- permutations

  ghost predicate DistinctTypes(entries: seq<ActiveDecision>) {
    forall p, q :: 0 <= p < q < |entries| ==> entries[p].typeId != entries[q].typeId
  }

  lemma OccursOnce(entries: seq<ActiveDecision>, p: nat)
    requires p < |entries| && DistinctTypes(entries)
    ensures multiset(entries)[entries[p]] == 1
  {
    assert entries == entries[..p] + [entries[p]] + entries[p + 1..];
  }

  lemma OccursTwice(entries: seq<ActiveDecision>, p: nat, q: nat)
    requires p < q < |entries| && entries[p] == entries[q]
    ensures multiset(entries)[entries[p]] >= 2
  {
    assert entries == entries[..q] + entries[q..];
    assert entries[..q][p] == entries[p] && entries[q..][0] == entries[p];
  }

  lemma ReorderingKeepsDistinct(a: seq<ActiveDecision>, b: seq<ActiveDecision>)
    requires multiset(a) == multiset(b) && DistinctTypes(b)
    ensures DistinctTypes(a)
  {
    forall p, q | 0 <= p < q < |a|
      ensures a[p].typeId != a[q].typeId
    {
      if a[p].typeId == a[q].typeId {
        assert a[p] in multiset(b) && a[q] in multiset(b);
        var i :| 0 <= i < |b| && b[i] == a[p];
        var j :| 0 <= j < |b| && b[j] == a[q];
        assert i == j;
        OccursTwice(a, p, q);
        OccursOnce(b, i);
        assert false;
      }
    }
  }

  // -------------------------------------------------------------- active decisions

  ghost predicate IsActive(active: seq<ActiveDecision>, t: string) {
    exists p :: 0 <= p < |active| && active[p].typeId == t
  }

  /** The active decisions that follow from resolving these rules against this registry. */
  ghost predicate Activates(rules: seq<Rule>, r: Registry, failClosed: bool, active: seq<ActiveDecision>) {
    ActiveFor(active, ResolvedOutput(rules, r, failClosed).results, r.types)
  }

  lemma EntriesDistinct(entries: seq<ActiveDecision>, rules: seq<Rule>, r: Registry)
    requires EntriesOf(entries, rules, r, Picks(rules, r, |rules|))
    ensures DistinctTypes(entries)
  {
    var picks := Picks(rules, r, |rules|);
    PicksExact(rules, r, |rules|);
    forall p, q | 0 <= p < q < |entries|
      ensures entries[p].typeId != entries[q].typeId
    {
      assert EntryOf(entries[p], rules, r, picks[p]) && EntryOf(entries[q], rules, r, picks[q]);
      assert picks[q] in picks && Picked(rules, r, picks[q]);
    }
  }

  /** The active decisions are the entries of the survivors, reordered by priority. */
  lemma ActiveReorderEntries(rules: seq<Rule>, r: Registry, failClosed: bool, active: seq<ActiveDecision>)
    returns (entries: seq<ActiveDecision>)
    requires Activates(rules, r, failClosed, active)
    ensures EntriesOf(entries, rules, r, Picks(rules, r, |rules|))
    ensures SortedByPriority(active) && DistinctTypes(active)
    ensures forall e :: e in active <==> e in entries
  {
    var results := ResultsAt(rules, Picks(rules, r, |rules|));
    entries := Entries(results, r.types);
    SurvivorEntries(rules, r);
    AsideHasNoEntries(rules, failClosed, r.types);
    EntriesConcat(Aside(rules, failClosed), results, r.types);
    EntriesDistinct(entries, rules, r);
    ReorderingKeepsDistinct(active, entries);
    assert forall e :: e in active <==> e in multiset(active);
  }

  lemma EntryOfSurvivor(rules: seq<Rule>, r: Registry, entries: seq<ActiveDecision>, t: string) returns (q: nat)
    requires EntriesOf(entries, rules, r, Picks(rules, r, |rules|)) && Survives(rules, r, t)
    ensures q < |entries| && entries[q].typeId == t
  {
    PicksAreSurvivors(rules, r, t);
    var i: nat :| PickedFor(rules, r, i, t);
    var picks := Picks(rules, r, |rules|);
    q :| 0 <= q < |picks| && picks[q] == i;
    assert EntryOf(entries[q], rules, r, picks[q]);
  }

  lemma EntryIsOfSurvivor(rules: seq<Rule>, r: Registry, entries: seq<ActiveDecision>, q: nat) returns (i: nat)
    requires EntriesOf(entries, rules, r, Picks(rules, r, |rules|)) && q < |entries|
    ensures EntryOf(entries[q], rules, r, i) && FiresFirst(rules, r, i) && Survives(rules, r, entries[q].typeId)
  {
    i := Picks(rules, r, |rules|)[q];
    PicksExact(rules, r, |rules|);
    assert EntryOf(entries[q], rules, r, i) && Picked(rules, r, i);
  }

  /** The active types are exactly the survivors, each once and in the name of the first rule
      that fired it, ordered by priority, no two of them (nor one with itself) incompatible. */
  ghost predicate ResolvedActive(rules: seq<Rule>, r: Registry, active: seq<ActiveDecision>) {
    && (forall t :: IsActive(active, t) <==> Survives(rules, r, t))
    && SortedByPriority(active) && DistinctTypes(active)
    && (forall p :: 0 <= p < |active| ==> OfFirstToFire(active[p], rules, r))
    && (forall p, q :: 0 <= p < |active| && 0 <= q < |active| ==> !Incompatible(r, active[p].typeId, active[q].typeId))
  }

  /** Whatever order the sort leaves equal priorities in, the entries of the resolved results
      are the survivors as ResolvedActive has them. */
  lemma ActiveAreSurvivors(rules: seq<Rule>, r: Registry, failClosed: bool, active: seq<ActiveDecision>)
    requires Activates(rules, r, failClosed, active)
    ensures ResolvedActive(rules, r, active)
  {
    var entries := ActiveReorderEntries(rules, r, failClosed, active);
    forall p | 0 <= p < |active|
      ensures Survives(rules, r, active[p].typeId)
      ensures OfFirstToFire(active[p], rules, r)
    {
      assert active[p] in entries;
      var q: nat :| q < |entries| && entries[q] == active[p];
      var i := EntryIsOfSurvivor(rules, r, entries, q);
    }
    forall t
      ensures IsActive(active, t) <==> Survives(rules, r, t)
    {
      if Survives(rules, r, t) {
        var q := EntryOfSurvivor(rules, r, entries, t);
        assert entries[q] in active;
      }
    }
    forall p, q | 0 <= p < |active| && 0 <= q < |active|
      ensures !Incompatible(r, active[p].typeId, active[q].typeId)
    {
      SurvivorsCompatible(rules, r, active[p].typeId, active[q].typeId);
    }
  }

  lemma HeadIsTop(rules: seq<Rule>, r: Registry, active: seq<ActiveDecision>, p: nat)
    requires p < |active| && SortedByPriority(active)
    requires forall q :: 0 <= q < |active| ==> OfFirstToFire(active[q], rules, r)
    requires forall x :: Fired(rules, r, x) && x != active[p].typeId ==>
               Registered(r, x) && Registered(r, active[p].typeId) && Priority(r, active[p].typeId) < Priority(r, x)
    ensures active[0].typeId == active[p].typeId
  {
    var i: nat :| EntryOf(active[0], rules, r, i) && FiresFirst(rules, r, i);
    assert Fired(rules, r, active[0].typeId);
    var j: nat :| EntryOf(active[p], rules, r, j) && FiresFirst(rules, r, j);
  }

  /** A fired type that outranks every other fired type heads the active decisions, unless it is
      paired with itself. */
  lemma TopPriorityHeadsTheList(rules: seq<Rule>, r: Registry, failClosed: bool, active: seq<ActiveDecision>, t: string)
    requires Activates(rules, r, failClosed, active)
    requires Fired(rules, r, t)
    requires forall x :: Fired(rules, r, x) && x != t ==> Registered(r, x) && Registered(r, t) && Priority(r, t) < Priority(r, x)
    ensures Pair(t, t) !in r.pairs ==> active != [] && active[0].typeId == t
    ensures Pair(t, t) in r.pairs ==> !IsActive(active, t)
  {
    ActiveAreSurvivors(rules, r, failClosed, active);
    if Pair(t, t) in r.pairs {
      assert Beats(r, t, t);
    } else {
      TopPrioritySurvives(rules, r, t);
      assert IsActive(active, t);
      var p :| 0 <= p < |active| && active[p].typeId == t;
      HeadIsTop(rules, r, active, p);
    }
  }

  // -------------------------------------------------------------------- verdict

  function Level(v: Verdict): nat {
    match v case Pass => 0 case Flag => 1 case Block => 2
  }

  /** Rule i has a say in the verdict. */
  ghost predicate Counts(rules: seq<Rule>, r: Registry, i: nat) {
    i < |rules| && ((rules[i].outcome.Matches? && rules[i].typeId.None?) || Picked(rules, r, i))
  }

  /** v is the strictest verdict of the rules that belong, Pass when all of those pass or none belong. */
  ghost predicate StrictestOf(v: Verdict, rules: seq<Rule>, belongs: set<nat>) {
    && (forall i :: i in belongs && i < |rules| ==> Level(rules[i].verdict) <= Level(v))
    && (v == Pass || exists i :: i in belongs && i < |rules| && rules[i].verdict == v)
  }

  ghost function AsideBelow(rules: seq<Rule>, n: nat): set<nat>
    requires n <= |rules|
  {
    set i: nat | i < n && rules[i].outcome.Matches? && rules[i].typeId.None?
  }

  ghost function Elements(picks: seq<nat>): set<nat> {
    set i | i in picks
  }

  lemma StrictestOneMore(v: Verdict, rules: seq<Rule>, belongs: set<nat>, i: nat)
    requires i < |rules| && StrictestOf(v, rules, belongs)
    ensures StrictestOf(MaxVerdict(v, rules[i].verdict), rules, belongs + {i})
  {
    var w := MaxVerdict(v, rules[i].verdict);
    if v != Pass {
      var j :| j in belongs && j < |rules| && rules[j].verdict == v;
      assert j in belongs + {i};
    }
    assert i in belongs + {i};
  }

  lemma {:induction false} AsideVerdictStrictest(rules: seq<Rule>, n: nat)
    requires n <= |rules|
    ensures StrictestOf(AsideVerdict(rules[..n]), rules, AsideBelow(rules, n))
  {
    if n > 0 {
      var i := n - 1;
      AsideVerdictStrictest(rules, i);
      assert rules[..n][..i] == rules[..i];
      if rules[i].outcome.Matches? && rules[i].typeId.None? {
        StrictestOneMore(AsideVerdict(rules[..i]), rules, AsideBelow(rules, i), i);
        assert AsideBelow(rules, n) == AsideBelow(rules, i) + {i};
      } else {
        assert AsideBelow(rules, n) == AsideBelow(rules, i);
      }
    }
  }

  /** One more result, and the verdict it adds. */
  lemma VerdictOfPick(rules: seq<Rule>, picks: seq<nat>, i: nat)
    requires i < |rules| && forall p :: 0 <= p < |picks| ==> picks[p] < |rules|
    ensures VerdictOf(ResultsAt(rules, picks + [i])) == MaxVerdict(VerdictOf(ResultsAt(rules, picks)), rules[i].verdict)
  {
    assert (picks + [i])[..|picks|] == picks;
    VerdictOfOneMore(Pass, ResultsAt(rules, picks), ResultOf(rules[i]));
  }

  lemma {:induction false} PicksVerdictStrictest(rules: seq<Rule>, picks: seq<nat>)
    requires forall p :: 0 <= p < |picks| ==> picks[p] < |rules|
    ensures StrictestOf(VerdictOf(ResultsAt(rules, picks)), rules, Elements(picks))
  {
    if picks != [] {
      var front, i := picks[..|picks| - 1], picks[|picks| - 1];
      PicksVerdictStrictest(rules, front);
      VerdictOfPick(rules, front, i);
      StrictestOneMore(VerdictOf(ResultsAt(rules, front)), rules, Elements(front), i);
      assert picks == front + [i];
      assert Elements(picks) == Elements(front) + {i};
    }
  }

  lemma CountsSplit(rules: seq<Rule>, r: Registry)
    ensures (set i: nat | i < |rules| && Counts(rules, r, i)) == AsideBelow(rules, |rules|) + Elements(Picks(rules, r, |rules|))
  {
    PicksExact(rules, r, |rules|);
    var picks := Picks(rules, r, |rules|);
    assert forall i :: i in picks ==> i < |rules|;
  }

  lemma StrictestOfBoth(v: Verdict, w: Verdict, rules: seq<Rule>, a: set<nat>, b: set<nat>)
    requires StrictestOf(v, rules, a) && StrictestOf(w, rules, b)
    ensures StrictestOf(MaxVerdict(v, w), rules, a + b)
  {
    var x := MaxVerdict(v, w);
    if v != Pass && x == v {
      var i :| i in a && i < |rules| && rules[i].verdict == v;
      assert i in a + b;
    } else if w != Pass && x == w {
      var i :| i in b && i < |rules| && rules[i].verdict == w;
      assert i in a + b;
    }
  }

  /** The stage's verdict is the strictest among the matched untyped rules and the rules that
      speak for a survivor, and of no others; an exception or a beaten type never raises it. */
  lemma VerdictIsStrictest(rules: seq<Rule>, r: Registry, failClosed: bool)
    ensures StrictestOf(ResolvedOutput(rules, r, failClosed).verdict, rules, set i: nat | i < |rules| && Counts(rules, r, i))
  {
    var n := |rules|;
    AsideVerdictStrictest(rules, n);
    PicksVerdictStrictest(rules, Picks(rules, r, n));
    assert rules[..n] == rules;
    StrictestOfBoth(AsideVerdict(rules), VerdictOf(SurvivingResults(rules, r)), rules,
                    AsideBelow(rules, n), Elements(Picks(rules, r, n)));
    CountsSplit(rules, r);
  }

  // ------------------------------------------------- stage and record together

  lemma {:induction false} StageNamedAppend(outputs: seq<StageOutput>, out: StageOutput)
    requires StageNamed(outputs, out.stageId).None?
    ensures StageNamed(outputs + [out], out.stageId) == Some(out)
  {
    if outputs == [] {
      assert outputs + [out] == [out];
    } else {
      assert (outputs + [out])[1..] == outputs[1..] + [out];
      StageNamedAppend(outputs[1..], out);
    }
  }

  /** The policy part of an event's processing: the stage's output joins the record, and the
      active decisions follow from it. Of the rules only the survivors become active. */
  method ResolvePolicy(decision: Decision, rules: seq<Rule>, registry: DecisionTypeRegistry?, failClosed: bool)
    requires StageNamed(decision.stageOutputs, "policy").None? && decision.activeDecisions == []
    modifies decision
    ensures |decision.stageOutputs| == |old(decision.stageOutputs)| + 1
    ensures decision.stageOutputs[..|old(decision.stageOutputs)|] == old(decision.stageOutputs)
    ensures registry != null && (exists i :: 0 <= i < |rules| && rules[i].typeId.Some?) ==>
              && ResolvedActive(rules, registry.View(), decision.activeDecisions)
              && decision.stageOutputs[|old(decision.stageOutputs)|] == ResolvedOutput(rules, registry.View(), failClosed)
    ensures registry == null || (forall i :: 0 <= i < |rules| ==> rules[i].typeId.None?) ==>
              && decision.activeDecisions == []
              && decision.stageOutputs[|old(decision.stageOutputs)|] == FirstMatchOutput(rules, failClosed)
  {
    var out := Process(rules, registry, failClosed);
    StageNamedAppend(decision.stageOutputs, out);
    decision.stageOutputs := decision.stageOutputs + [out];
    if registry != null {
      decision.ComputeActiveDecisions(registry);
      if UsesTypes(rules) {
        ActiveAreSurvivors(rules, registry.View(), failClosed, decision.activeDecisions);
      } else {
        FirstMatchActivatesNothing(rules, failClosed, registry.types, decision.activeDecisions);
      }
    }
  }
}
