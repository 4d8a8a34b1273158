// The registry of decision types, filled by registration calls, and the active decisions that a
// decision record derives from the policy stage's results.
module DecisionTypes {
  import opened Options
  import opened Policy

  datatype ConfigError = EmptyId | AlreadyRegistered | UnknownType

  class DecisionTypeRegistry {
    var types: seq<Descriptor>
    var incompatible: seq<Pair>

    function View(): Registry
      reads this
    {
      Registry(types, incompatible)
    }

    ghost predicate Valid()
      reads this
    {
      ValidRegistry(View())
    }

    constructor ()
      ensures Valid() && types == [] && incompatible == []
    {
      types, incompatible := [], [];
    }

    method FindType(id: string) returns (found: Option<Descriptor>)
      ensures found == Find(types, id)
    {
      var i := 0;
      while i < |types|
        invariant 0 <= i <= |types|
        invariant Find(types, id) == Find(types[i..], id)
      {
        if types[i].id == id {
          return Some(types[i]);
        }
        assert types[i..][1..] == types[i + 1..];
        i := i + 1;
      }
      found := None;
    }

    /** Binary search for the first type that does not precede the given priority. */
    method LowerBound(priority: nat) returns (at: nat)
      requires Ascending(types)
      ensures IsLowerBound(types, priority, at)
    {
      at := 0;
      var hi := |types|;
      while at < hi
        invariant 0 <= at <= hi <= |types|
        invariant forall i :: 0 <= i < at ==> types[i].priority < priority
        invariant forall i :: hi <= i < |types| ==> types[i].priority >= priority
      {
        var mid := (at + hi) / 2;
        if types[mid].priority < priority {
          at := mid + 1;
        } else {
          hi := mid;
        }
      }
    }

    /** Registered in sorted position, ahead of the types of the same priority; nothing else changes. */
    method AddType(desc: Descriptor) returns (error: Option<ConfigError>)
      requires Valid()
      modifies this`types
      ensures Valid()
      ensures error == if desc.id == "" then Some(EmptyId)
                       else if Registered(old(View()), desc.id) then Some(AlreadyRegistered) else None
      ensures error.Some? ==> types == old(types)
      ensures error.None? ==>
                exists at: nat ::
                  && at <= |old(types)|
                  && types == old(types)[..at] + [desc] + old(types)[at..]
                  && (forall i :: 0 <= i < at ==> old(types)[i].priority < desc.priority)
                  && (forall i :: at <= i < |old(types)| ==> desc.priority <= old(types)[i].priority)
      ensures error.None? ==> forall id :: Find(types, id) == if id == desc.id then Some(desc) else Find(old(types), id)
    {
      if desc.id == "" {
        return Some(EmptyId);
      }
      var existing := FindType(desc.id);
      if existing.Some? {
        return Some(AlreadyRegistered);
      }
      var at := LowerBound(desc.priority);
      InsertKeepsRegistry(View(), at, desc);
      types := Inserted(types, at, desc);
      error := None;
    }

    method AddIncompatible(a: string, b: string) returns (error: Option<ConfigError>)
      requires Valid()
      modifies this`incompatible
      ensures Valid()
      ensures error == if Registered(View(), a) && Registered(View(), b) then None else Some(UnknownType)
      ensures incompatible == if error.None? then old(incompatible) + [Pair(a, b)] else old(incompatible)
    {
      var first := FindType(a);
      if first.None? {
        return Some(UnknownType);
      }
      var second := FindType(b);
      if second.None? {
        return Some(UnknownType);
      }
      incompatible := incompatible + [Pair(a, b)];
      error := None;
    }

    method AreIncompatible(x: string, y: string) returns (yes: bool)
      ensures yes <==> Incompatible(View(), x, y)
    {
      var i := 0;
      while i < |incompatible|
        invariant 0 <= i <= |incompatible|
        invariant Pair(x, y) !in incompatible[..i] && Pair(y, x) !in incompatible[..i]
      {
        var pair := incompatible[i];
        if (pair.a == x && pair.b == y) || (pair.a == y && pair.b == x) {
          return true;
        }
        i := i + 1;
      }
      yes := false;
    }
  }

  // ------------------------------------------------------- insertion in position

  ghost predicate IsLowerBound(types: seq<Descriptor>, priority: nat, at: nat) {
    && at <= |types|
    && (forall i :: 0 <= i < at ==> types[i].priority < priority)
    && (forall i :: at <= i < |types| ==> types[i].priority >= priority)
  }

  function Inserted(types: seq<Descriptor>, at: nat, desc: Descriptor): seq<Descriptor>
    requires at <= |types|
  {
    types[..at] + [desc] + types[at..]
  }

  lemma {:induction false} FindInConcat(a: seq<Descriptor>, b: seq<Descriptor>, id: string)
    ensures Find(a + b, id) == if Find(a, id).Some? then Find(a, id) else Find(b, id)
  {
    if a == [] {
      assert a + b == b;
    } else {
      assert (a + b)[1..] == a[1..] + b;
      FindInConcat(a[1..], b, id);
    }
  }

  lemma InsertKeepsFind(types: seq<Descriptor>, at: nat, desc: Descriptor, id: string)
    requires at <= |types| && Find(types, desc.id).None?
    ensures Find(Inserted(types, at, desc), id) == if id == desc.id then Some(desc) else Find(types, id)
  {
    var front, back := types[..at], types[at..];
    assert types == front + back;
    FindInConcat(front, back, id);
    FindInConcat(front, back, desc.id);
    FindInConcat(front + [desc], back, id);
    FindInConcat(front, [desc], id);
  }

  lemma InsertKeepsOrder(types: seq<Descriptor>, at: nat, desc: Descriptor)
    requires at <= |types| && Ascending(types)
    requires IsLowerBound(types, desc.priority, at)
    ensures Ascending(Inserted(types, at, desc))
  {
  }

  lemma InsertKeepsDistinct(types: seq<Descriptor>, at: nat, desc: Descriptor)
    requires at <= |types| && DistinctIds(types) && forall d :: d in types ==> d.id != desc.id
    ensures DistinctIds(Inserted(types, at, desc))
  {
  }

  lemma InsertedMembers(types: seq<Descriptor>, at: nat, desc: Descriptor)
    requires at <= |types|
    ensures forall d :: d in Inserted(types, at, desc) <==> d == desc || d in types
  {
    assert types == types[..at] + types[at..];
  }

  lemma InsertKeepsRegistry(r: Registry, at: nat, desc: Descriptor)
    requires ValidRegistry(r) && at <= |r.types| && desc.id != "" && !Registered(r, desc.id)
    requires IsLowerBound(r.types, desc.priority, at)
    ensures ValidRegistry(Registry(Inserted(r.types, at, desc), r.pairs))
    ensures forall id :: Find(Inserted(r.types, at, desc), id) == if id == desc.id then Some(desc) else Find(r.types, id)
  {
    FindMeaning(r.types, desc.id);
    InsertKeepsOrder(r.types, at, desc);
    InsertKeepsDistinct(r.types, at, desc);
    InsertedMembers(r.types, at, desc);
    forall id
      ensures Find(Inserted(r.types, at, desc), id) == if id == desc.id then Some(desc) else Find(r.types, id)
    {
      InsertKeepsFind(r.types, at, desc, id);
    }
  }

  // ------------------------------------------------------------ active decisions

  datatype ActiveDecision = ActiveDecision(typeId: string, ruleId: string, priority: nat)

  ghost predicate SortedByPriority(s: seq<ActiveDecision>) {
    forall p, q :: 0 <= p < q < |s| ==> s[p].priority <= s[q].priority
  }

  /** One entry for each result that names a registered type. */
  function Entries(results: seq<EvaluatorResult>, types: seq<Descriptor>): seq<ActiveDecision> {
    if results == [] then [] else
      var front, last := Entries(results[..|results| - 1], types), results[|results| - 1];
      if last.typeId.None? then front else
      match Find(types, last.typeId.value)
      case None => front
      case Some(desc) => front + [ActiveDecision(last.typeId.value, last.evaluatorId, desc.priority)]
  }

  predicate NamesRegistered(result: EvaluatorResult, types: seq<Descriptor>) {
    result.typeId.Some? && Find(types, result.typeId.value).Some?
  }

  predicate TakenFrom(entry: ActiveDecision, result: EvaluatorResult, types: seq<Descriptor>) {
    && NamesRegistered(result, types)
    && entry.typeId == result.typeId.value && entry.ruleId == result.evaluatorId
    && entry.priority == Find(types, result.typeId.value).value.priority
  }

  ghost predicate EntriesFrom(entries: seq<ActiveDecision>, results: seq<EvaluatorResult>, types: seq<Descriptor>, from: seq<nat>) {
    && |from| == |entries|
    && (forall p, q :: 0 <= p < q < |from| ==> from[p] < from[q])
    && (forall p :: 0 <= p < |from| ==> from[p] < |results| && TakenFrom(entries[p], results[from[p]], types))
    && (forall i :: 0 <= i < |results| ==> (NamesRegistered(results[i], types) <==> i in from))
  }

  lemma OneMoreResult(entries: seq<ActiveDecision>, entry: ActiveDecision, results: seq<EvaluatorResult>, result: EvaluatorResult,
                      types: seq<Descriptor>, from: seq<nat>)
    requires EntriesFrom(entries, results, types, from)
    ensures !NamesRegistered(result, types) ==> EntriesFrom(entries, results + [result], types, from)
    ensures TakenFrom(entry, result, types) ==>
              EntriesFrom(entries + [entry], results + [result], types, from + [|results|])
  {
    var more := from + [|results|];
    assert forall i :: i in more <==> i in from || i == |results|;
    assert forall i :: i in from ==> i < |results|;
  }

  /** The entries come from exactly the results that name a registered type, in order, whatever
      else those results say; each takes the type, the name of its evaluator, and the type's priority. */
  lemma {:induction false} EntriesMeaning(results: seq<EvaluatorResult>, types: seq<Descriptor>) returns (from: seq<nat>)
    ensures EntriesFrom(Entries(results, types), results, types, from)
  {
    if results == [] {
      from := [];
    } else {
      var front, last := results[..|results| - 1], results[|results| - 1];
      from := EntriesMeaning(front, types);
      assert results == front + [last];
      if NamesRegistered(last, types) {
        var entries := Entries(results, types);
        OneMoreResult(Entries(front, types), entries[|entries| - 1], front, last, types, from);
        from := from + [|front|];
      } else {
        OneMoreResult(Entries(front, types), ActiveDecision("", "", 0), front, last, types, from);
      }
    }
  }

  /** The active decisions of these results, in some order that agrees with the priorities. */
  ghost predicate ActiveFor(active: seq<ActiveDecision>, results: seq<EvaluatorResult>, types: seq<Descriptor>) {
    SortedByPriority(active) && multiset(active) == multiset(Entries(results, types))
  }

  function StageNamed(outputs: seq<StageOutput>, id: string): Option<StageOutput> {
    if outputs == [] then None
    else if outputs[0].stageId == id then Some(outputs[0])
    else StageNamed(outputs[1..], id)
  }

  /** The first output under the name, and none only if there is none. */
  lemma {:induction false} StageNamedMeaning(outputs: seq<StageOutput>, id: string)
    ensures StageNamed(outputs, id).None? ==> forall i :: 0 <= i < |outputs| ==> outputs[i].stageId != id
    ensures StageNamed(outputs, id).Some? ==>
              exists i :: 0 <= i < |outputs| && FirstNamed(outputs, id, i) && StageNamed(outputs, id).value == outputs[i]
  {
    if outputs != [] {
      StageNamedMeaning(outputs[1..], id);
      if outputs[0].stageId == id {
        assert FirstNamed(outputs, id, 0);
      } else if StageNamed(outputs, id).Some? {
        var i :| 0 <= i < |outputs[1..]| && FirstNamed(outputs[1..], id, i) && StageNamed(outputs, id).value == outputs[1..][i];
        assert FirstNamed(outputs, id, i + 1);
      }
    }
  }

  ghost predicate FirstNamed(outputs: seq<StageOutput>, id: string, i: nat)
    requires i < |outputs|
  {
    outputs[i].stageId == id && forall j :: 0 <= j < i ==> outputs[j].stageId != id
  }

  class Decision {
    var stageOutputs: seq<StageOutput>
    var activeDecisions: seq<ActiveDecision>

    method FindStage(id: string) returns (found: Option<StageOutput>)
      ensures found == StageNamed(stageOutputs, id)
    {
      var i := 0;
      while i < |stageOutputs|
        invariant 0 <= i <= |stageOutputs|
        invariant StageNamed(stageOutputs, id) == StageNamed(stageOutputs[i..], id)
      {
        if stageOutputs[i].stageId == id {
          return Some(stageOutputs[i]);
        }
        assert stageOutputs[i..][1..] == stageOutputs[i + 1..];
        i := i + 1;
      }
      found := None;
    }

    /** Without a registry or a policy stage the record stays as it is. */
    method ComputeActiveDecisions(registry: DecisionTypeRegistry?)
      modifies this`activeDecisions
      ensures registry == null || StageNamed(stageOutputs, "policy").None? ==> activeDecisions == old(activeDecisions)
      ensures registry != null && StageNamed(stageOutputs, "policy").Some? ==>
                ActiveFor(activeDecisions, StageNamed(stageOutputs, "policy").value.results, registry.types)
    {
      if registry == null {
        return;
      }
      var policy := FindStage("policy");
      if policy.None? {
        return;
      }
      var results := policy.value.results;
      activeDecisions := [];
      for i := 0 to |results|
        invariant activeDecisions == Entries(results[..i], registry.types)
      {
        assert results[..i + 1][..i] == results[..i];
        if results[i].typeId.Some? {
          var desc := registry.FindType(results[i].typeId.value);
          if desc.Some? {
            activeDecisions := activeDecisions
              + [ActiveDecision(results[i].typeId.value, results[i].evaluatorId, desc.value.priority)];
          }
        }
      }
      assert results[..|results|] == results;
      activeDecisions := SortByPriority(activeDecisions);
    }
  }

  function InsertedEntry(sorted: seq<ActiveDecision>, at: nat, entry: ActiveDecision): seq<ActiveDecision>
    requires at <= |sorted|
  {
    sorted[..at] + [entry] + sorted[at..]
  }

  lemma InsertedEntryOrder(sorted: seq<ActiveDecision>, at: nat, entry: ActiveDecision)
    requires SortedByPriority(sorted) && at <= |sorted|
    requires forall p :: at <= p < |sorted| ==> sorted[p].priority > entry.priority
    requires at > 0 ==> sorted[at - 1].priority <= entry.priority
    ensures SortedByPriority(InsertedEntry(sorted, at, entry))
  {
  }

  lemma InsertedEntryBag(sorted: seq<ActiveDecision>, at: nat, entry: ActiveDecision)
    requires at <= |sorted|
    ensures multiset(InsertedEntry(sorted, at, entry)) == multiset(sorted) + multiset{entry}
  {
    assert sorted == sorted[..at] + sorted[at..];
  }

  /** After the entries that do not rank behind the new one. */
  method Position(sorted: seq<ActiveDecision>, priority: nat) returns (at: nat)
    ensures at <= |sorted| && (at > 0 ==> sorted[at - 1].priority <= priority)
    ensures forall p :: at <= p < |sorted| ==> sorted[p].priority > priority
  {
    at := |sorted|;
    while at > 0 && sorted[at - 1].priority > priority
      invariant at <= |sorted|
      invariant forall p :: at <= p < |sorted| ==> sorted[p].priority > priority
    {
      at := at - 1;
    }
  }

  lemma PrefixBag(entries: seq<ActiveDecision>, i: nat)
    requires i < |entries|
    ensures multiset(entries[..i + 1]) == multiset(entries[..i]) + multiset{entries[i]}
  {
    assert entries[..i + 1] == entries[..i] + [entries[i]];
  }

  method SortByPriority(entries: seq<ActiveDecision>) returns (sorted: seq<ActiveDecision>)
    ensures SortedByPriority(sorted) && multiset(sorted) == multiset(entries)
  {
    sorted := [];
    for i := 0 to |entries|
      invariant SortedByPriority(sorted) && multiset(sorted) == multiset(entries[..i])
    {
      var at := Position(sorted, entries[i].priority);
      InsertedEntryOrder(sorted, at, entries[i]);
      InsertedEntryBag(sorted, at, entries[i]);
      PrefixBag(entries, i);
      sorted := InsertedEntry(sorted, at, entries[i]);
    }
    assert entries[..|entries|] == entries;
  }
}
