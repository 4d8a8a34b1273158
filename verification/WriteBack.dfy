// The write-back protocol, one lock section or table operation a step: callers swap and
// expire in the primary and then record it; flushers take the recorded keys, read them,
// write one batch, and delete.
module WriteBack {
  import opened WindowStore

  /** A caller between its primary operation and recording it under the lock. */
  datatype Caller = Quiet | MustMarkDirty(key: WindowKey) | MustMarkExpired(key: WindowKey)

  /** A flusher between two of its steps. `todo` are snapshot keys not yet read. */
  datatype Flusher =
    | Resting
    | Reading(dirtySnap: set<WindowKey>, expiredSnap: set<WindowKey>, todo: set<WindowKey>, batch: Table)
    | Requeueing(dirtySnap: set<WindowKey>, expiredSnap: set<WindowKey>)
    | Deleting(expiredSnap: set<WindowKey>)

  datatype State = State(
    available: bool, primary: Table, warm: Table,
    dirty: set<WindowKey>, expired: set<WindowKey>,
    callers: seq<Caller>, flushers: seq<Flusher>)

  datatype Action =
    | Swap(who: nat, key: WindowKey, expected: WindowValue, value: WindowValue)
    | Remove(who: nat, key: WindowKey)
    | Record(who: nat)
    | TakeSnapshots(who: nat)
    | ReadKey(who: nat, key: WindowKey)
    | Upsert(who: nat, works: bool)
    | Requeue(who: nat)
    | Delete(who: nat, key: WindowKey, works: bool)

  predicate Enabled(s: State, a: Action) {
    match a
    case Swap(c, _, _, _) => c < |s.callers| && s.callers[c].Quiet?
    case Remove(c, _) => c < |s.callers| && s.callers[c].Quiet?
    case Record(c) => c < |s.callers| && !s.callers[c].Quiet?
    case TakeSnapshots(f) => f < |s.flushers| && s.flushers[f].Resting?
    case ReadKey(f, k) => f < |s.flushers| && s.flushers[f].Reading? && k in s.flushers[f].todo
    case Upsert(f, _) => f < |s.flushers| && s.flushers[f].Reading? && s.flushers[f].todo == {}
    case Requeue(f) => f < |s.flushers| && s.flushers[f].Requeueing?
    case Delete(f, k, _) => f < |s.flushers| && s.flushers[f].Deleting? && k in s.flushers[f].expiredSnap
  }

  function SetCaller(s: State, c: nat, x: Caller): State
    requires c < |s.callers|
  {
    s.(callers := s.callers[c := x])
  }

  function SetFlusher(s: State, f: nat, x: Flusher): State
    requires f < |s.flushers|
  {
    s.(flushers := s.flushers[f := x])
  }

  function ToDelete(keys: set<WindowKey>): Flusher {
    if keys == {} then Resting else Deleting(keys)
  }

  function Apply(s: State, a: Action): State
    requires Enabled(s, a)
  {
    match a
    case Swap(c, k, expected, value) =>
      var (primary, ok) := Cas(s.primary, k, expected, value);
      if ok then SetCaller(s.(primary := primary), c, MustMarkDirty(k)) else s
    case Remove(c, k) => SetCaller(s.(primary := s.primary - {k}), c, MustMarkExpired(k))
    case Record(c) =>
      (match s.callers[c]
       case MustMarkDirty(k) => SetCaller(s.(dirty := s.dirty + {k}), c, Quiet)
       case MustMarkExpired(k) => SetCaller(s.(dirty := s.dirty - {k}, expired := s.expired + {k}), c, Quiet)
       case Quiet => s)
    case TakeSnapshots(f) =>
      var taken := s.(dirty := {}, expired := {});
      SetFlusher(taken, f,
        if s.dirty == {} then ToDelete(s.expired)
        else if s.available then Reading(s.dirty, s.expired, s.dirty, map[])
        else Requeueing(s.dirty, s.expired))
    case ReadKey(f, k) =>
      var x := s.flushers[f];
      SetFlusher(s, f, x.(todo := x.todo - {k}, batch := x.batch[k := Read(s.primary, k)]))
    case Upsert(f, works) =>
      var x := s.flushers[f];
      if works then SetFlusher(s.(warm := s.warm + x.batch), f, ToDelete(x.expiredSnap))
      else SetFlusher(s, f, Requeueing(x.dirtySnap, x.expiredSnap))
    case Requeue(f) =>
      var x := s.flushers[f];
      SetFlusher(s.(dirty := s.dirty + x.dirtySnap), f, ToDelete(x.expiredSnap))
    case Delete(f, k, works) =>
      var x := s.flushers[f];
      SetFlusher(s.(warm := if works && s.available then s.warm - {k} else s.warm), f, ToDelete(x.expiredSnap - {k}))
  }

  function Next(s: State, a: Action): State {
    if Enabled(s, a) then Apply(s, a) else s
  }

  function Run(s: State, actions: seq<Action>): State {
    if actions == [] then s else Next(Run(s, actions[..|actions| - 1]), actions[|actions| - 1])
  }

  // -------------------------------------------------------------- where keys wait

  /** A caller has changed the primary under k and not yet said so. */
  ghost predicate Unrecorded(s: State, k: WindowKey) {
    exists c :: 0 <= c < |s.callers| && !s.callers[c].Quiet? && s.callers[c].key == k
  }

  function SnapKeys(f: Flusher): set<WindowKey> {
    match f
    case Resting => {}
    case Reading(d, e, _, _) => d + e
    case Requeueing(d, e) => d + e
    case Deleting(e) => e
  }

  function CondemnedBy(f: Flusher): set<WindowKey> {
    if f.Resting? then {} else f.expiredSnap
  }

  ghost predicate Marked(s: State, k: WindowKey) {
    k in s.dirty || k in s.expired || Unrecorded(s, k)
  }

  /** Some party will still bring the warm row of k into line. */
  ghost predicate Covered(s: State, k: WindowKey) {
    Marked(s, k) || exists f :: 0 <= f < |s.flushers| && k in SnapKeys(s.flushers[f])
  }

  /** k has been expired and its warm row is still to be deleted. */
  ghost predicate Condemned(s: State, k: WindowKey) {
    || k in s.expired
    || (exists c :: 0 <= c < |s.callers| && s.callers[c] == MustMarkExpired(k))
    || (exists f :: 0 <= f < |s.flushers| && k in CondemnedBy(s.flushers[f]))
  }

  predicate AllResting(s: State) {
    forall f :: 0 <= f < |s.flushers| ==> s.flushers[f].Resting?
  }

  predicate AllQuiet(s: State) {
    forall c :: 0 <= c < |s.callers| ==> s.callers[c].Quiet?
  }

  predicate Same(s: State, k: WindowKey) {
    Read(s.warm, k) == Read(s.primary, k)
  }

  /** The discipline: no successful swap of a condemned key, one flusher at a time, deletes succeed. */
  ghost predicate Disciplined(s: State, a: Action) {
    match a
    case Swap(_, k, expected, _) => Read(s.primary, k).version == expected.version ==> !Condemned(s, k)
    case TakeSnapshots(_) => AllResting(s)
    case Delete(_, _, works) => works && s.available
    case _ => true
  }

  ghost predicate DisciplinedRun(s: State, actions: seq<Action>) {
    forall i :: 0 <= i < |actions| && Enabled(Run(s, actions[..i]), actions[i]) ==> Disciplined(Run(s, actions[..i]), actions[i])
  }

  ghost predicate OneFlusher(s: State) {
    forall f, g :: 0 <= f < |s.flushers| && 0 <= g < |s.flushers| && !s.flushers[f].Resting? && !s.flushers[g].Resting? ==> f == g
  }

  /** The batch holds the keys read so far, and a stale entry is marked again. */
  ghost predicate BatchGood(s: State, f: Flusher) {
    f.Reading? ==>
      && f.todo <= f.dirtySnap && f.batch.Keys == f.dirtySnap - f.todo
      && forall k :: k in f.batch ==> f.batch[k] == Read(s.primary, k) || Marked(s, k)
  }

  /** Write-back agreement. */
  ghost predicate Agreement(s: State) {
    forall k :: !Same(s, k) ==> Covered(s, k)
  }

  ghost predicate CondemnedAbsent(s: State) {
    forall k :: Condemned(s, k) ==> Read(s.primary, k) == ZERO
  }

  ghost predicate Inv(s: State) {
    && Agreement(s)
    && CondemnedAbsent(s)
    && OneFlusher(s)
    && forall f :: 0 <= f < |s.flushers| ==> BatchGood(s, s.flushers[f])
  }

  // ------------------------------------------------------------- preservation

  /** A slot changed from x to y: what other slots say is unaffected. */
  lemma CallerMoved(s: State, c: nat, x: Caller, k: WindowKey)
    requires c < |s.callers|
    ensures Unrecorded(s, k) ==> Unrecorded(SetCaller(s, c, x), k) || (!s.callers[c].Quiet? && s.callers[c].key == k)
    ensures !x.Quiet? && x.key == k ==> Unrecorded(SetCaller(s, c, x), k)
  {
    var t := SetCaller(s, c, x);
    if Unrecorded(s, k) {
      var i :| 0 <= i < |s.callers| && !s.callers[i].Quiet? && s.callers[i].key == k;
      if i != c {
        assert t.callers[i] == s.callers[i];
      }
    }
    assert t.callers[c] == x;
  }

  lemma FlusherMoved(s: State, f: nat, x: Flusher, k: WindowKey)
    requires f < |s.flushers|
    ensures Covered(s, k) ==> Covered(SetFlusher(s, f, x), k) || k in SnapKeys(s.flushers[f])
    ensures k in SnapKeys(x) ==> Covered(SetFlusher(s, f, x), k)
  {
    var t := SetFlusher(s, f, x);
    if exists g :: 0 <= g < |s.flushers| && k in SnapKeys(s.flushers[g]) {
      var g :| 0 <= g < |s.flushers| && k in SnapKeys(s.flushers[g]);
      if g != f {
        assert t.flushers[g] == s.flushers[g];
      }
    }
    assert t.flushers[f] == x;
  }

  /** After a caller's step, a key is condemned only if it was, or this caller condemns it. */
  lemma CondemnedAfterCaller(s: State, c: nat, x: Caller, k: WindowKey)
    requires c < |s.callers|
    ensures Condemned(SetCaller(s, c, x), k) ==> Condemned(s, k) || x == MustMarkExpired(k)
  {
    var t := SetCaller(s, c, x);
    if i :| 0 <= i < |t.callers| && t.callers[i] == MustMarkExpired(k) && i != c {
      assert s.callers[i] == t.callers[i];
    }
  }

  lemma CondemnedAfterFlusher(s: State, f: nat, x: Flusher, k: WindowKey)
    requires f < |s.flushers|
    ensures Condemned(SetFlusher(s, f, x), k) ==> Condemned(s, k) || k in CondemnedBy(x)
  {
    var t := SetFlusher(s, f, x);
    if g :| 0 <= g < |t.flushers| && k in CondemnedBy(t.flushers[g]) && g != f {
      assert s.flushers[g] == t.flushers[g];
    }
  }

  /** The primary changes under k0 and the caller now owes a mark. */
  lemma PrimaryStepKeepsInv(s: State, c: nat, k0: WindowKey, primary: Table, x: Caller)
    requires Inv(s) && c < |s.callers| && s.callers[c].Quiet? && !x.Quiet? && x.key == k0
    requires forall k :: k != k0 ==> Read(primary, k) == Read(s.primary, k)
    requires if x.MustMarkExpired? then Read(primary, k0) == ZERO else !Condemned(s, k0)
    ensures Inv(SetCaller(s.(primary := primary), c, x))
  {
    var u := s.(primary := primary);
    var t := SetCaller(u, c, x);
    forall k
      ensures Marked(s, k) || k == k0 ==> Marked(t, k)
      ensures Covered(s, k) || k == k0 ==> Covered(t, k)
      ensures Condemned(t, k) ==> Condemned(s, k) || x == MustMarkExpired(k)
    {
      CallerMoved(u, c, x, k);
      CondemnedAfterCaller(u, c, x, k);
      assert Unrecorded(s, k) == Unrecorded(u, k);
      assert Condemned(s, k) == Condemned(u, k);
    }
  }

  lemma RecordKeepsInv(s: State, c: nat)
    requires Inv(s) && Enabled(s, Record(c))
    ensures Inv(Apply(s, Record(c)))
  {
    var t := Apply(s, Record(c));
    var x := s.callers[c];
    var u := s.(dirty := t.dirty, expired := t.expired);
    assert t == SetCaller(u, c, Quiet);
    forall k
      ensures Marked(s, k) ==> Marked(t, k)
      ensures Covered(s, k) ==> Covered(t, k)
      ensures Condemned(t, k) ==> Condemned(s, k)
    {
      CallerMoved(s, c, Quiet, k);
      CallerMoved(u, c, Quiet, k);
      CondemnedAfterCaller(u, c, Quiet, k);
      assert Unrecorded(s, k) == Unrecorded(u, k);
      assert x == MustMarkExpired(k) ==> Condemned(s, k);
    }
  }

  lemma TakeSnapshotsKeepsInv(s: State, f: nat)
    requires Inv(s) && Enabled(s, TakeSnapshots(f)) && AllResting(s)
    ensures Inv(Apply(s, TakeSnapshots(f)))
  {
    var t := Apply(s, TakeSnapshots(f));
    var u := s.(dirty := {}, expired := {});
    var x := t.flushers[f];
    assert t == SetFlusher(u, f, x);
    forall k
      ensures Covered(s, k) ==> Covered(t, k)
      ensures Condemned(t, k) ==> Condemned(s, k)
    {
      FlusherMoved(u, f, x, k);
      CondemnedAfterFlusher(u, f, x, k);
      assert Unrecorded(s, k) == Unrecorded(u, k) == Unrecorded(t, k);
    }
  }

  lemma ReadKeyKeepsInv(s: State, f: nat, key: WindowKey)
    requires Inv(s) && Enabled(s, ReadKey(f, key))
    ensures Inv(Apply(s, ReadKey(f, key)))
  {
    var t := Apply(s, ReadKey(f, key));
    var x := t.flushers[f];
    assert BatchGood(s, s.flushers[f]);
    forall k
      ensures Marked(s, k) ==> Marked(t, k)
      ensures Covered(s, k) ==> Covered(t, k)
      ensures Condemned(t, k) ==> Condemned(s, k)
    {
      FlusherMoved(s, f, x, k);
      CondemnedAfterFlusher(s, f, x, k);
      assert Unrecorded(s, k) == Unrecorded(t, k);
    }
  }

  /** A batch that succeeds leaves every snapshot key in line, still to be deleted, or marked again. */
  lemma UpsertKeepsInv(s: State, f: nat, works: bool)
    requires Inv(s) && Enabled(s, Upsert(f, works))
    ensures Inv(Apply(s, Upsert(f, works)))
  {
    var t := Apply(s, Upsert(f, works));
    var was, x := s.flushers[f], t.flushers[f];
    var u := s.(warm := t.warm);
    assert t == SetFlusher(u, f, x);
    assert BatchGood(s, was);
    forall k
      ensures Marked(s, k) ==> Marked(t, k)
      ensures !Same(t, k) ==> Covered(t, k)
      ensures Condemned(t, k) ==> Condemned(s, k)
    {
      FlusherMoved(u, f, x, k);
      CondemnedAfterFlusher(u, f, x, k);
      assert Unrecorded(s, k) == Unrecorded(u, k) == Unrecorded(t, k);
      assert Covered(s, k) == Covered(u, k);
      assert Condemned(s, k) == Condemned(u, k);
    }
  }

  lemma RequeueKeepsInv(s: State, f: nat)
    requires Inv(s) && Enabled(s, Requeue(f))
    ensures Inv(Apply(s, Requeue(f)))
  {
    var t := Apply(s, Requeue(f));
    var x := t.flushers[f];
    var u := s.(dirty := t.dirty);
    assert t == SetFlusher(u, f, x);
    forall k
      ensures Marked(s, k) ==> Marked(t, k)
      ensures Covered(s, k) ==> Covered(t, k)
      ensures Condemned(t, k) ==> Condemned(s, k)
    {
      FlusherMoved(u, f, x, k);
      CondemnedAfterFlusher(u, f, x, k);
      assert Unrecorded(s, k) == Unrecorded(u, k) == Unrecorded(t, k);
      assert Covered(s, k) ==> Covered(u, k);
      assert Condemned(s, k) == Condemned(u, k);
    }
  }

  lemma DeleteKeepsInv(s: State, f: nat, key: WindowKey)
    requires Inv(s) && s.available && Enabled(s, Delete(f, key, true))
    ensures Inv(Apply(s, Delete(f, key, true)))
  {
    var t := Apply(s, Delete(f, key, true));
    var x := t.flushers[f];
    var u := s.(warm := t.warm);
    assert t == SetFlusher(u, f, x);
    assert Condemned(s, key);
    forall k
      ensures Marked(s, k) ==> Marked(t, k)
      ensures Covered(s, k) ==> Covered(t, k) || k == key
      ensures Condemned(t, k) ==> Condemned(s, k)
    {
      FlusherMoved(u, f, x, k);
      CondemnedAfterFlusher(u, f, x, k);
      assert Unrecorded(s, k) == Unrecorded(u, k) == Unrecorded(t, k);
      assert Covered(s, k) == Covered(u, k);
      assert Condemned(s, k) == Condemned(u, k);
    }
  }

  /** Every disciplined step keeps write-back agreement. */
  lemma StepKeepsInv(s: State, a: Action)
    requires Inv(s) && (Enabled(s, a) ==> Disciplined(s, a))
    ensures Inv(Next(s, a))
  {
    if Enabled(s, a) {
      match a
      case Swap(c, k, expected, value) =>
        var (primary, ok) := Cas(s.primary, k, expected, value);
        if ok {
          PrimaryStepKeepsInv(s, c, k, primary, MustMarkDirty(k));
        }
      case Remove(c, k) => PrimaryStepKeepsInv(s, c, k, s.primary - {k}, MustMarkExpired(k));
      case Record(c) => RecordKeepsInv(s, c);
      case TakeSnapshots(f) => TakeSnapshotsKeepsInv(s, f);
      case ReadKey(f, k) => ReadKeyKeepsInv(s, f, k);
      case Upsert(f, works) => UpsertKeepsInv(s, f, works);
      case Requeue(f) => RequeueKeepsInv(s, f);
      case Delete(f, k, _) => DeleteKeepsInv(s, f, k);
    }
  }

  // --------------------------------------------- exactly which steps are harmless

  /** k would still be waiting somewhere if flusher f forgot it. */
  ghost predicate WaitsElsewhere(s: State, f: nat, k: WindowKey) {
    Marked(s, k) || exists g :: 0 <= g < |s.flushers| && g != f && k in SnapKeys(s.flushers[g])
  }

  /** No stale value written over a row nobody will rewrite, no live row deleted, no dead row left. */
  ghost predicate Harmless(s: State, a: Action)
    requires Enabled(s, a)
  {
    match a
    case Upsert(f, works) =>
      var x := s.flushers[f];
      works ==> forall k :: k in x.batch ==>
        x.batch[k] == Read(s.primary, k) || k in x.expiredSnap || WaitsElsewhere(s, f, k)
    case Delete(f, k, works) =>
      Read(s.primary, k) == (if works && s.available then ZERO else Read(s.warm, k)) || WaitsElsewhere(s, f, k)
    case _ => true
  }

  predicate BatchShape(f: Flusher) {
    f.Reading? ==> f.todo <= f.dirtySnap && f.batch.Keys == f.dirtySnap - f.todo
  }

  lemma CoveredElsewhere(s: State, f: nat, x: Flusher, k: WindowKey)
    requires f < |s.flushers|
    ensures Covered(SetFlusher(s, f, x), k) <==> k in SnapKeys(x) || WaitsElsewhere(s, f, k)
  {
    var t := SetFlusher(s, f, x);
    assert Unrecorded(t, k) == Unrecorded(s, k);
    assert t.flushers[f] == x;
    assert forall g :: 0 <= g < |s.flushers| && g != f ==> t.flushers[g] == s.flushers[g];
  }

  lemma UpsertHarmlessIff(s: State, f: nat)
    requires Agreement(s) && Enabled(s, Upsert(f, true)) && BatchShape(s.flushers[f])
    ensures Agreement(Apply(s, Upsert(f, true))) <==> Harmless(s, Upsert(f, true))
  {
    var t := Apply(s, Upsert(f, true));
    var x, u := s.flushers[f], s.(warm := t.warm);
    assert s.flushers[f := x] == s.flushers;
    assert SetFlusher(s, f, x) == s;
    forall k
      ensures Covered(t, k) <==> k in x.expiredSnap || WaitsElsewhere(s, f, k)
      ensures Covered(s, k) <==> k in SnapKeys(x) || WaitsElsewhere(s, f, k)
    {
      CoveredElsewhere(u, f, t.flushers[f], k);
      CoveredElsewhere(s, f, x, k);
      assert Unrecorded(u, k) == Unrecorded(s, k);
      assert WaitsElsewhere(u, f, k) == WaitsElsewhere(s, f, k);
    }
  }

  lemma DeleteHarmlessIff(s: State, f: nat, key: WindowKey, works: bool)
    requires Agreement(s) && Enabled(s, Delete(f, key, works))
    ensures Agreement(Apply(s, Delete(f, key, works))) <==> Harmless(s, Delete(f, key, works))
  {
    var t := Apply(s, Delete(f, key, works));
    var x, u := s.flushers[f], s.(warm := t.warm);
    assert SetFlusher(s, f, x) == s by {
      assert s.flushers[f := x] == s.flushers;
    }
    forall k
      ensures Covered(t, k) <==> (k in x.expiredSnap && k != key) || WaitsElsewhere(s, f, k)
      ensures Covered(s, k) <==> k in x.expiredSnap || WaitsElsewhere(s, f, k)
    {
      CoveredElsewhere(u, f, t.flushers[f], k);
      CoveredElsewhere(s, f, x, k);
      assert Unrecorded(u, k) == Unrecorded(s, k);
      assert WaitsElsewhere(u, f, k) == WaitsElsewhere(s, f, k);
    }
  }

  lemma CallerStepCovers(s: State, a: Action, k: WindowKey)
    requires Enabled(s, a) && (a.Swap? || a.Remove? || a.Record?)
    ensures Covered(s, k) || (Same(s, k) && !Same(Apply(s, a), k)) ==> Covered(Apply(s, a), k)
  {
    var t := Apply(s, a);
    var m := t.(callers := s.callers);
    CallerMoved(m, a.who, t.callers[a.who], k);
    assert s.callers[a.who := t.callers[a.who]] == t.callers;
    assert t == SetCaller(m, a.who, t.callers[a.who]);
    assert Unrecorded(m, k) == Unrecorded(s, k);
    assert Marked(s, k) ==> Marked(t, k);
  }

  lemma FlusherStepCovers(s: State, a: Action, k: WindowKey)
    requires Enabled(s, a) && (a.TakeSnapshots? || a.ReadKey? || a.Requeue? || (a.Upsert? && !a.works))
    ensures Covered(s, k) ==> Covered(Apply(s, a), k)
  {
    var t := Apply(s, a);
    var f := a.who;
    var x := t.flushers[f];
    assert Unrecorded(t, k) == Unrecorded(s, k);
    assert k in SnapKeys(s.flushers[f]) ==> k in SnapKeys(x) || k in t.dirty;
    assert Marked(s, k) ==> Marked(t, k) || k in SnapKeys(x);
    if g :| 0 <= g < |s.flushers| && k in SnapKeys(s.flushers[g]) && g != f {
      assert t.flushers[g] == s.flushers[g];
    }
  }

  /** From agreement, with any number of flushers and callers of any kind, the next step keeps
      agreement exactly when it is harmless: only a batch or a delete can break it. */
  lemma StepKeepsAgreementIff(s: State, a: Action)
    requires Agreement(s) && Enabled(s, a)
    requires forall f :: 0 <= f < |s.flushers| ==> BatchShape(s.flushers[f])
    ensures Agreement(Apply(s, a)) <==> Harmless(s, a)
  {
    if a.Upsert? && a.works {
      UpsertHarmlessIff(s, a.who);
    } else if a.Delete? {
      DeleteHarmlessIff(s, a.who, a.key, a.works);
    } else {
      forall k | !Same(Apply(s, a), k) ensures Covered(Apply(s, a), k) {
        if a.Swap? || a.Remove? || a.Record? {
          CallerStepCovers(s, a, k);
        } else {
          FlusherStepCovers(s, a, k);
        }
      }
    }
  }

  // ------------------------------------------------------------------ whole runs

  /** A store as its constructor leaves it: the tiers agree and nothing is pending. */
  ghost predicate Fresh(s: State) {
    && (forall k :: Same(s, k))
    && s.dirty == {} && s.expired == {} && AllQuiet(s) && AllResting(s)
  }

  lemma RunPrefix(s: State, actions: seq<Action>, i: nat)
    requires i < |actions|
    ensures Run(s, actions[..i + 1]) == Next(Run(s, actions[..i]), actions[i])
  {
    assert actions[..i + 1][..i] == actions[..i];
  }

  /** In every disciplined interleaving, a key whose tiers differ is waiting somewhere. */
  lemma {:induction false} RunKeepsAgreement(s: State, actions: seq<Action>)
    requires Fresh(s) && DisciplinedRun(s, actions)
    ensures Inv(Run(s, actions))
  {
    if actions != [] {
      var last := |actions| - 1;
      var front := actions[..last];
      forall i | 0 <= i < last ensures front[..i] == actions[..i] && front[i] == actions[i] {
      }
      assert DisciplinedRun(s, front);
      RunKeepsAgreement(s, front);
      assert actions[..last] == front;
      StepKeepsInv(Run(s, front), actions[last]);
    }
  }

  /** When a disciplined run comes to rest with nothing marked, the tiers agree on every key. */
  lemma RestingRunAgrees(s: State, actions: seq<Action>, k: WindowKey)
    requires Fresh(s) && DisciplinedRun(s, actions)
    requires var t := Run(s, actions); AllQuiet(t) && AllResting(t) && t.dirty == {} && t.expired == {}
    ensures Same(Run(s, actions), k)
  {
    RunKeepsAgreement(s, actions);
    var t := Run(s, actions);
    assert !Unrecorded(t, k);
  }

  ghost predicate Shaped(s: State) {
    forall f :: 0 <= f < |s.flushers| ==> BatchShape(s.flushers[f])
  }

  lemma StepKeepsShapes(s: State, a: Action)
    requires Shaped(s)
    ensures Shaped(Next(s, a))
  {
    var t := Next(s, a);
    forall f | 0 <= f < |t.flushers|
      ensures BatchShape(t.flushers[f])
    {
      assert BatchShape(s.flushers[f]);
    }
  }

  lemma {:induction false} RunKeepsShapes(s: State, actions: seq<Action>)
    requires Shaped(s)
    ensures Shaped(Run(s, actions))
  {
    if actions != [] {
      RunKeepsShapes(s, actions[..|actions| - 1]);
      StepKeepsShapes(Run(s, actions[..|actions| - 1]), actions[|actions| - 1]);
    }
  }

  /** The i-th action does nothing, or no harm. */
  ghost predicate HarmlessAt(s: State, actions: seq<Action>, i: nat)
    requires i < |actions|
  {
    Enabled(Run(s, actions[..i]), actions[i]) ==> Harmless(Run(s, actions[..i]), actions[i])
  }

  ghost predicate AgreesAt(s: State, actions: seq<Action>, i: nat)
    requires i <= |actions|
  {
    Agreement(Run(s, actions[..i]))
  }

  lemma OneStepAgreesIff(s: State, actions: seq<Action>, i: nat)
    requires Shaped(s) && i < |actions| && AgreesAt(s, actions, i)
    ensures AgreesAt(s, actions, i + 1) <==> HarmlessAt(s, actions, i)
  {
    RunKeepsShapes(s, actions[..i]);
    RunPrefix(s, actions, i);
    if Enabled(Run(s, actions[..i]), actions[i]) {
      StepKeepsAgreementIff(Run(s, actions[..i]), actions[i]);
    }
  }

  ghost predicate AgreesThrough(s: State, actions: seq<Action>, n: nat)
    requires n <= |actions|
  {
    forall i: nat :: i <= n ==> AgreesAt(s, actions, i)
  }

  ghost predicate HarmlessThrough(s: State, actions: seq<Action>, n: nat)
    requires n <= |actions|
  {
    forall i: nat :: i < n ==> HarmlessAt(s, actions, i)
  }

  lemma ThroughOneMore(s: State, actions: seq<Action>, n: nat)
    requires n < |actions|
    ensures AgreesThrough(s, actions, n + 1) <==> AgreesThrough(s, actions, n) && AgreesAt(s, actions, n + 1)
    ensures HarmlessThrough(s, actions, n + 1) <==> HarmlessThrough(s, actions, n) && HarmlessAt(s, actions, n)
  {
  }

  /** Any callers, any number of overlapping flushers, any failures: starting from agreement, the
      tiers agree throughout a run exactly when each of its steps is harmless where it is taken. */
  lemma {:induction false} RunAgreesIff(s: State, actions: seq<Action>, n: nat)
    requires Agreement(s) && Shaped(s) && n <= |actions|
    ensures AgreesThrough(s, actions, n) <==> HarmlessThrough(s, actions, n)
  {
    if n == 0 {
      assert actions[..0] == [];
      assert AgreesAt(s, actions, 0);
    } else {
      RunAgreesIff(s, actions, n - 1);
      ThroughOneMore(s, actions, n - 1);
      if AgreesThrough(s, actions, n - 1) {
        assert AgreesAt(s, actions, n - 1);
        OneStepAgreesIff(s, actions, n - 1);
      }
    }
  }

  // ----------------------------------------------------- warm values are historical

  /** Some state up to the i-th had v at k, as the primary's get would return it. */
  ghost predicate Seen(s: State, actions: seq<Action>, i: nat, k: WindowKey, v: WindowValue)
    requires i <= |actions|
  {
    exists j :: 0 <= j <= i && Read(Run(s, actions[..j]).primary, k) == v
  }

  /** Everything on its way to the warm table has been seen. */
  ghost predicate OnlySeen(s: State, actions: seq<Action>, i: nat)
    requires i <= |actions|
  {
    var t := Run(s, actions[..i]);
    && (forall k :: Seen(s, actions, i, k, Read(t.warm, k)))
    && (forall f, k :: 0 <= f < |t.flushers| && t.flushers[f].Reading? && k in t.flushers[f].batch ==>
          Seen(s, actions, i, k, t.flushers[f].batch[k]))
    && (forall k :: Condemned(t, k) ==> Seen(s, actions, i, k, ZERO))
  }

  lemma SeenLater(s: State, actions: seq<Action>, i: nat, k: WindowKey, v: WindowValue)
    requires i < |actions| && Seen(s, actions, i, k, v)
    ensures Seen(s, actions, i + 1, k, v)
  {
  }

  lemma SeenNow(s: State, actions: seq<Action>, i: nat, k: WindowKey)
    requires i <= |actions|
    ensures Seen(s, actions, i, k, Read(Run(s, actions[..i]).primary, k))
  {
  }

  /** A warm row that a step changes comes from that step's batch, or is a condemned row deleted. */
  lemma WarmSource(t: State, a: Action, k: WindowKey)
    requires Enabled(t, a)
    ensures
      var u := Apply(t, a);
      || Read(u.warm, k) == Read(t.warm, k)
      || (a.Upsert? && k in t.flushers[a.who].batch && Read(u.warm, k) == t.flushers[a.who].batch[k])
      || (Read(u.warm, k) == ZERO && Condemned(t, k))
  {
    if a.Delete? && a.key == k {
      assert k in CondemnedBy(t.flushers[a.who]);
    }
  }

  /** A batch entry was there before, or is what the primary reads now. */
  lemma BatchSource(t: State, a: Action, f: nat, k: WindowKey)
    requires Enabled(t, a) && f < |t.flushers|
    ensures
      var x, y := t.flushers[f], Apply(t, a).flushers[f];
      y.Reading? && k in y.batch ==>
        (x.Reading? && k in x.batch && y.batch[k] == x.batch[k]) || y.batch[k] == Read(t.primary, k)
  {
  }

  /** A key becomes condemned only by the step that removes it from the primary. */
  lemma CondemnedSource(t: State, a: Action, k: WindowKey)
    requires Enabled(t, a)
    ensures
      var u := Apply(t, a);
      Condemned(u, k) ==> Condemned(t, k) || Read(u.primary, k) == ZERO
  {
    var u := Apply(t, a);
    if a.Swap? || a.Remove? || a.Record? {
      var m := t.(primary := u.primary, dirty := u.dirty, expired := u.expired);
      assert u == SetCaller(m, a.who, u.callers[a.who]) || u == t;
      CondemnedAfterCaller(m, a.who, u.callers[a.who], k);
      assert t.callers[a.who] == MustMarkExpired(k) ==> Condemned(t, k);
      assert Condemned(m, k) ==> t.callers[a.who] == MustMarkExpired(k) || Condemned(t, k);
    } else {
      FlusherCondemns(t, a, k);
    }
  }

  lemma FlusherCondemns(t: State, a: Action, k: WindowKey)
    requires Enabled(t, a) && !a.Swap? && !a.Remove? && !a.Record?
    ensures Condemned(Apply(t, a), k) ==> Condemned(t, k)
  {
    var u := Apply(t, a);
    var m := t.(warm := u.warm, dirty := u.dirty, expired := u.expired);
    var x := u.flushers[a.who];
    assert u == SetFlusher(m, a.who, x);
    CondemnedAfterFlusher(m, a.who, x, k);
    assert Condemned(m, k) ==> Condemned(t, k);
    assert k in CondemnedBy(x) ==> k in CondemnedBy(t.flushers[a.who]) || k in t.expired;
  }

  lemma {:induction false} OnlySeenAlways(s: State, actions: seq<Action>, i: nat)
    requires Fresh(s) && i <= |actions|
    ensures OnlySeen(s, actions, i)
  {
    if i == 0 {
      forall k ensures Seen(s, actions, 0, k, Read(s.warm, k)) {
        assert Same(s, k);
        SeenNow(s, actions, 0, k);
      }
    } else {
      OnlySeenAlways(s, actions, i - 1);
      RunPrefix(s, actions, i - 1);
      OnlySeenNext(s, actions, i - 1);
    }
  }

  lemma OnlySeenNext(s: State, actions: seq<Action>, i: nat)
    requires i < |actions| && OnlySeen(s, actions, i)
    ensures OnlySeen(s, actions, i + 1)
  {
    var t, a := Run(s, actions[..i]), actions[i];
    RunPrefix(s, actions, i);
    var u := Run(s, actions[..i + 1]);
    forall k ensures Seen(s, actions, i + 1, k, Read(u.warm, k)) {
      if Enabled(t, a) {
        WarmSource(t, a, k);
      }
      assert Seen(s, actions, i, k, Read(u.warm, k));
      SeenLater(s, actions, i, k, Read(u.warm, k));
    }
    forall f, k | 0 <= f < |u.flushers| && u.flushers[f].Reading? && k in u.flushers[f].batch
      ensures Seen(s, actions, i + 1, k, u.flushers[f].batch[k])
    {
      if Enabled(t, a) {
        BatchSource(t, a, f, k);
      }
      SeenNow(s, actions, i, k);
      assert Seen(s, actions, i, k, u.flushers[f].batch[k]);
      SeenLater(s, actions, i, k, u.flushers[f].batch[k]);
    }
    forall k | Condemned(u, k) ensures Seen(s, actions, i + 1, k, ZERO) {
      if Enabled(t, a) {
        CondemnedSource(t, a, k);
      }
      SeenNow(s, actions, i + 1, k);
      if Condemned(t, k) {
        SeenLater(s, actions, i, k, ZERO);
      }
    }
  }

  /** Overlapping flushes, failed batches, failed deletes and undisciplined callers included: what
      the warm table holds at a key is what the primary's get returned at some earlier moment. */
  lemma WarmValuesAreHistorical(s: State, actions: seq<Action>, k: WindowKey)
    requires Fresh(s)
    ensures exists j :: 0 <= j <= |actions| && Read(Run(s, actions[..j]).primary, k) == Read(Run(s, actions).warm, k)
  {
    OnlySeenAlways(s, actions, |actions|);
    assert actions[..|actions|] == actions;
    assert Seen(s, actions, |actions|, k, Read(Run(s, actions).warm, k));
  }

  // ---------------------------------------------- what each clause is there for

  const KEY: WindowKey := WindowKey("t", "e", "w", 0)
  const ONE: WindowValue := WindowValue(1.0, 1)
  const TWO: WindowValue := WindowValue(2.0, 2)

  function Start(flushers: seq<Flusher>): State {
    Holding(map[], map[], {}, {}, flushers)
  }

  /** An available store with one quiet caller. */
  function Holding(primary: Table, warm: Table, dirty: set<WindowKey>, expired: set<WindowKey>, flushers: seq<Flusher>): State {
    State(true, primary, warm, dirty, expired, [Quiet], flushers)
  }

  /** At rest with nothing marked, and yet the tiers differ. */
  ghost predicate QuietlyWrong(s: State) {
    AllQuiet(s) && AllResting(s) && s.dirty == {} && s.expired == {} && !Same(s, KEY)
  }

  lemma RunTwo(s: State, a: Action, b: Action)
    ensures Run(s, [a, b]) == Next(Next(s, a), b)
  {
    assert [a, b] == [a] + [b];
    RunCons(s, a, [b]);
    RunCons(Next(s, a), b, []);
    assert [b] == [b] + [];
  }

  lemma SwapAndRecord(s: State, value: WindowValue)
    requires s.callers == [Quiet]
    ensures Run(s, [Swap(0, KEY, Read(s.primary, KEY), value), Record(0)])
         == s.(primary := s.primary[KEY := value], dirty := s.dirty + {KEY})
  {
    RunTwo(s, Swap(0, KEY, Read(s.primary, KEY), value), Record(0));
  }

  lemma RemoveAndRecord(s: State)
    requires s.callers == [Quiet]
    ensures Run(s, [Remove(0, KEY), Record(0)])
         == s.(primary := s.primary - {KEY}, dirty := s.dirty - {KEY}, expired := s.expired + {KEY})
  {
    RunTwo(s, Remove(0, KEY), Record(0));
  }

  lemma TakeAndRead(s: State, f: nat)
    requires s.available && f < |s.flushers| && s.flushers[f].Resting? && s.dirty == {KEY}
    ensures Run(s, [TakeSnapshots(f), ReadKey(f, KEY)])
         == SetFlusher(s.(dirty := {}, expired := {}), f, Reading({KEY}, s.expired, {}, map[KEY := Read(s.primary, KEY)]))
  {
    RunTwo(s, TakeSnapshots(f), ReadKey(f, KEY));
    var u := s.(dirty := {}, expired := {});
    var x := Reading({KEY}, s.expired, {KEY}, map[]);
    assert Next(s, TakeSnapshots(f)) == SetFlusher(u, f, x);
    var y := Reading({KEY}, s.expired, {}, map[KEY := Read(s.primary, KEY)]);
    assert x.todo - {KEY} == {};
    assert Next(SetFlusher(u, f, x), ReadKey(f, KEY)) == SetFlusher(SetFlusher(u, f, x), f, y);
    SetTwice(u, f, x, y);
  }

  lemma Chain(s: State, a: seq<Action>, t: State, b: seq<Action>, u: State)
    requires Run(s, a) == t && Run(t, b) == u
    ensures Run(s, a + b) == u
  {
    RunConcat(s, a, b);
  }

  /** A key swapped again after its expiry loses its warm row: the batch writes it, then it is deleted. */
  lemma SwapAfterExpireIsLost()
    ensures
      var run := [Remove(0, KEY), Record(0)] + [Swap(0, KEY, ZERO, ONE), Record(0)]
                 + [TakeSnapshots(0), ReadKey(0, KEY)] + [Upsert(0, true), Delete(0, KEY, true)];
      Fresh(Start([Resting])) && QuietlyWrong(Run(Start([Resting]), run))
  {
    var r1, r2 := [Remove(0, KEY), Record(0)], [Swap(0, KEY, ZERO, ONE), Record(0)];
    var r3, r4 := [TakeSnapshots(0), ReadKey(0, KEY)], [Upsert(0, true), Delete(0, KEY, true)];
    var s := Start([Resting]);
    var s1 := Holding(map[], map[], {}, {KEY}, [Resting]);
    assert Run(s, r1) == s1 by {
      RemoveAndRecord(s);
    }
    var s2 := Holding(map[KEY := ONE], map[], {KEY}, {KEY}, [Resting]);
    assert Run(s1, r2) == s2 by {
      SwapAndRecord(s1, ONE);
    }
    var s3 := Holding(map[KEY := ONE], map[], {}, {}, [Reading({KEY}, {KEY}, {}, map[KEY := ONE])]);
    assert Run(s2, r3) == s3 by {
      TakeAndRead(s2, 0);
    }
    var s4 := Holding(map[KEY := ONE], map[], {}, {}, [Resting]);
    assert Run(s3, r4) == s4 by {
      RunTwo(s3, Upsert(0, true), Delete(0, KEY, true));
      assert Next(s3, Upsert(0, true)) == Holding(map[KEY := ONE], map[KEY := ONE], {}, {}, [Deleting({KEY})]);
    }
    Chain(s, r1, s1, r2, s2);
    Chain(s, r1 + r2, s2, r3, s3);
    Chain(s, r1 + r2 + r3, s3, r4, s4);
  }

  const OLDER: Flusher := Reading({KEY}, {}, {}, map[KEY := ONE])
  const NEWER: Flusher := Reading({KEY}, {}, {}, map[KEY := TWO])

  const FIRST_FLUSHER_READS: seq<Action> :=
    [Swap(0, KEY, ZERO, ONE), Record(0)] + [TakeSnapshots(0), ReadKey(0, KEY)]
  const SECOND_FLUSHER_READS: seq<Action> :=
    [Swap(0, KEY, ONE, TWO), Record(0)] + [TakeSnapshots(1), ReadKey(1, KEY)]

  lemma FirstFlusherReads()
    ensures Run(Start([Resting, Resting]), FIRST_FLUSHER_READS)
         == Holding(map[KEY := ONE], map[], {}, {}, [OLDER, Resting])
  {
    var s := Start([Resting, Resting]);
    var r1, r2 := [Swap(0, KEY, ZERO, ONE), Record(0)], [TakeSnapshots(0), ReadKey(0, KEY)];
    var s1 := Holding(map[KEY := ONE], map[], {KEY}, {}, [Resting, Resting]);
    assert Run(s, r1) == s1 by {
      SwapAndRecord(s, ONE);
    }
    TakeAndRead(s1, 0);
    RunConcat(s, r1, r2);
  }

  lemma SecondFlusherReads()
    ensures Run(Holding(map[KEY := ONE], map[], {}, {}, [OLDER, Resting]), SECOND_FLUSHER_READS)
         == Holding(map[KEY := TWO], map[], {}, {}, [OLDER, NEWER])
  {
    var s := Holding(map[KEY := ONE], map[], {}, {}, [OLDER, Resting]);
    var r1, r2 := [Swap(0, KEY, ONE, TWO), Record(0)], [TakeSnapshots(1), ReadKey(1, KEY)];
    var s1 := Holding(map[KEY := TWO], map[], {KEY}, {}, [OLDER, Resting]);
    assert Run(s, r1) == s1 by {
      SwapAndRecord(s, TWO);
    }
    TakeAndRead(s1, 1);
    RunConcat(s, r1, r2);
  }

  lemma OlderWrittenLast()
    ensures QuietlyWrong(Run(Holding(map[KEY := TWO], map[], {}, {}, [OLDER, NEWER]), [Upsert(1, true), Upsert(0, true)]))
  {
    var both := Holding(map[KEY := TWO], map[], {}, {}, [OLDER, NEWER]);
    var newer := Holding(map[KEY := TWO], map[KEY := TWO], {}, {}, [OLDER, Resting]);
    RunTwo(both, Upsert(1, true), Upsert(0, true));
    assert Next(both, Upsert(1, true)) == newer by {
      assert [OLDER, NEWER][1 := Resting] == [OLDER, Resting];
    }
    assert Next(newer, Upsert(0, true)) == Holding(map[KEY := TWO], map[KEY := ONE], {}, {}, [Resting, Resting]) by {
      assert [OLDER, Resting][0 := Resting] == [Resting, Resting];
    }
  }

  /** Two overlapping flushes may write the older value last. */
  lemma OverlappingFlushesRegress()
    ensures
      var s := Start([Resting, Resting]);
      var run := FIRST_FLUSHER_READS + SECOND_FLUSHER_READS + [Upsert(1, true), Upsert(0, true)];
      Fresh(s) && QuietlyWrong(Run(s, run))
  {
    var s := Start([Resting, Resting]);
    var writes := [Upsert(1, true), Upsert(0, true)];
    FirstFlusherReads();
    SecondFlusherReads();
    RunConcat(s, FIRST_FLUSHER_READS, SECOND_FLUSHER_READS);
    RunConcat(s, FIRST_FLUSHER_READS + SECOND_FLUSHER_READS, writes);
    OlderWrittenLast();
  }

  /** A delete that fails is not tried again. */
  lemma FailedDeleteIsForgotten()
    ensures
      var s := Holding(map[KEY := ONE], map[KEY := ONE], {}, {}, [Resting]);
      var run := [Remove(0, KEY), Record(0)] + [TakeSnapshots(0), Delete(0, KEY, false)];
      Fresh(s) && QuietlyWrong(Run(s, run))
  {
    var r1, r2 := [Remove(0, KEY), Record(0)], [TakeSnapshots(0), Delete(0, KEY, false)];
    var s := Holding(map[KEY := ONE], map[KEY := ONE], {}, {}, [Resting]);
    var s1 := Holding(map[], map[KEY := ONE], {}, {KEY}, [Resting]);
    assert Run(s, r1) == s1 by {
      RemoveAndRecord(s);
    }
    var s2 := Holding(map[], map[KEY := ONE], {}, {}, [Resting]);
    assert Run(s1, r2) == s2 by {
      RunTwo(s1, TakeSnapshots(0), Delete(0, KEY, false));
      assert Next(s1, TakeSnapshots(0)) == Holding(map[], map[KEY := ONE], {}, {}, [Deleting({KEY})]);
    }
    Chain(s, r1, s1, r2, s2);
  }

  // ------------------------------------------------------ one flush, undisturbed

  function Latest(s: State, ks: set<WindowKey>): Table {
    map k | k in ks :: Read(s.primary, k)
  }

  /** What a flush with no interference does, given which table operations work. */
  function Flushed(s: State, upsertWorks: bool, deleteWorks: WindowKey -> bool): State {
    var written := s.available && upsertWorks;
    var warm := if written then s.warm + Latest(s, s.dirty) else s.warm;
    s.(warm := map k | k in warm && !(k in s.expired && s.available && deleteWorks(k)) :: warm[k],
       dirty := if written then {} else s.dirty,
       expired := {})
  }

  lemma {:induction false} RunCons(s: State, a: Action, rest: seq<Action>)
    ensures Run(s, [a] + rest) == Run(Next(s, a), rest)
  {
    var all := [a] + rest;
    if rest == [] {
      assert all[..0] == [];
    } else {
      var front := rest[..|rest| - 1];
      RunCons(s, a, front);
      assert all[..|all| - 1] == [a] + front;
    }
  }

  lemma {:induction false} RunConcat(s: State, a: seq<Action>, b: seq<Action>)
    ensures Run(s, a + b) == Run(Run(s, a), b)
  {
    if b == [] {
      assert a + b == a;
    } else {
      RunConcat(s, a, b[..|b| - 1]);
      assert (a + b)[..|a + b| - 1] == a + b[..|b| - 1];
    }
  }

  lemma SetTwice(s: State, f: nat, x: Flusher, y: Flusher)
    requires f < |s.flushers|
    ensures SetFlusher(SetFlusher(s, f, x), f, y) == SetFlusher(s, f, y)
  {
    assert s.flushers[f := x][f := y] == s.flushers[f := y];
  }

  function Without(t: Table, ks: set<WindowKey>, works: WindowKey -> bool): Table {
    map k | k in t && !(k in ks && works(k)) :: t[k]
  }

  /** Once the batch is settled: written, or its keys dirty again. */
  function Written(s: State, upsertWorks: bool): State {
    var written := s.available && upsertWorks;
    s.(warm := if written then s.warm + Latest(s, s.dirty) else s.warm, dirty := if written then {} else s.dirty, expired := {})
  }

  /** With the keys in `rest` still to be deleted. */
  function Remaining(s: State, f: nat, upsertWorks: bool, deleteWorks: WindowKey -> bool, rest: set<WindowKey>): State
    requires f < |s.flushers|
  {
    var w := Written(s, upsertWorks);
    SetFlusher(w.(warm := Without(w.warm, s.expired - rest, k => s.available && deleteWorks(k))), f, ToDelete(rest))
  }

  /** What the state must be where flusher f, undisturbed since s, stands at x. */
  function MidFlush(s: State, f: nat, upsertWorks: bool, deleteWorks: WindowKey -> bool, x: Flusher): State
    requires f < |s.flushers|
  {
    match x
    case Reading(_, _, _, _) => SetFlusher(s.(dirty := {}, expired := {}), f, x)
    case Requeueing(_, _) => SetFlusher(s.(dirty := {}, expired := {}), f, x)
    case Deleting(rest) => Remaining(s, f, upsertWorks, deleteWorks, rest)
    case Resting => Remaining(s, f, upsertWorks, deleteWorks, {})
  }

  /** The positions it can stand at. */
  predicate OnItsWay(s: State, upsertWorks: bool, x: Flusher) {
    match x
    case Reading(d, e, todo, batch) => s.available && d == s.dirty && e == s.expired && todo <= d && batch == Latest(s, d - todo)
    case Requeueing(d, e) => !(s.available && upsertWorks) && d == s.dirty && e == s.expired
    case Deleting(rest) => rest <= s.expired && rest != {}
    case Resting => true
  }

  ghost predicate InFlush(s: State, f: nat, upsertWorks: bool, deleteWorks: WindowKey -> bool, t: State)
    requires f < |s.flushers|
  {
    f < |t.flushers| && OnItsWay(s, upsertWorks, t.flushers[f])
    && t == MidFlush(s, f, upsertWorks, deleteWorks, t.flushers[f])
  }

  /** A step of flusher f's own, the table operations turning out as given. */
  predicate OwnStep(a: Action, f: nat, upsertWorks: bool, deleteWorks: WindowKey -> bool) {
    match a
    case ReadKey(g, _) => g == f
    case Upsert(g, works) => g == f && works == upsertWorks
    case Requeue(g) => g == f
    case Delete(g, k, works) => g == f && works == deleteWorks(k)
    case _ => false
  }

  /** The snapshots, then nothing but the same flusher's other steps. */
  ghost predicate OneFlush(run: seq<Action>, f: nat, upsertWorks: bool, deleteWorks: WindowKey -> bool) {
    && run != [] && run[0] == TakeSnapshots(f)
    && forall i :: 1 <= i < |run| ==> OwnStep(run[i], f, upsertWorks, deleteWorks)
  }

  lemma RemainingNone(s: State, f: nat, upsertWorks: bool, deleteWorks: WindowKey -> bool)
    requires f < |s.flushers| && s.flushers[f].Resting?
    ensures Remaining(s, f, upsertWorks, deleteWorks, {}) == Flushed(s, upsertWorks, deleteWorks)
  {
    var t, u := Remaining(s, f, upsertWorks, deleteWorks, {}), Flushed(s, upsertWorks, deleteWorks);
    assert s.flushers[f := Resting] == s.flushers;
    assert t.warm == u.warm;
  }

  /** Nothing is deleted yet. */
  lemma RemainingAll(s: State, f: nat, upsertWorks: bool, deleteWorks: WindowKey -> bool)
    requires f < |s.flushers|
    ensures Remaining(s, f, upsertWorks, deleteWorks, s.expired) == SetFlusher(Written(s, upsertWorks), f, ToDelete(s.expired))
  {
    var w := Written(s, upsertWorks);
    assert Without(w.warm, s.expired - s.expired, k => s.available && deleteWorks(k)) == w.warm;
  }

  lemma FlushBegins(s: State, f: nat, upsertWorks: bool, deleteWorks: WindowKey -> bool)
    requires f < |s.flushers| && s.flushers[f].Resting?
    ensures InFlush(s, f, upsertWorks, deleteWorks, Next(s, TakeSnapshots(f)))
  {
    if s.dirty == {} {
      assert Written(s, upsertWorks).warm == s.warm;
      RemainingAll(s, f, upsertWorks, deleteWorks);
    }
  }

  lemma ReadGoesOn(s: State, f: nat, upsertWorks: bool, deleteWorks: WindowKey -> bool, t: State, k: WindowKey)
    requires f < |s.flushers| && InFlush(s, f, upsertWorks, deleteWorks, t) && Enabled(t, ReadKey(f, k))
    ensures InFlush(s, f, upsertWorks, deleteWorks, Next(t, ReadKey(f, k)))
  {
    var x, y := t.flushers[f], Next(t, ReadKey(f, k)).flushers[f];
    assert y.batch == Latest(s, s.dirty - y.todo);
    SetTwice(s.(dirty := {}, expired := {}), f, x, y);
  }

  lemma BatchGoesOn(s: State, f: nat, upsertWorks: bool, deleteWorks: WindowKey -> bool, t: State)
    requires f < |s.flushers| && InFlush(s, f, upsertWorks, deleteWorks, t) && Enabled(t, Upsert(f, upsertWorks))
    ensures InFlush(s, f, upsertWorks, deleteWorks, Next(t, Upsert(f, upsertWorks)))
  {
    var u, x := s.(dirty := {}, expired := {}), t.flushers[f];
    assert s.dirty - {} == s.dirty;
    if upsertWorks {
      RemainingAll(s, f, upsertWorks, deleteWorks);
      SetTwice(Written(s, true), f, x, ToDelete(s.expired));
    } else {
      SetTwice(u, f, x, Requeueing(s.dirty, s.expired));
    }
  }

  lemma RequeueGoesOn(s: State, f: nat, upsertWorks: bool, deleteWorks: WindowKey -> bool, t: State)
    requires f < |s.flushers| && InFlush(s, f, upsertWorks, deleteWorks, t) && Enabled(t, Requeue(f))
    ensures InFlush(s, f, upsertWorks, deleteWorks, Next(t, Requeue(f)))
  {
    RemainingAll(s, f, upsertWorks, deleteWorks);
    assert {} + s.dirty == s.dirty;
    SetTwice(Written(s, upsertWorks), f, t.flushers[f], ToDelete(s.expired));
  }

  lemma DeleteGoesOn(s: State, f: nat, upsertWorks: bool, deleteWorks: WindowKey -> bool, t: State, k: WindowKey)
    requires f < |s.flushers| && InFlush(s, f, upsertWorks, deleteWorks, t) && Enabled(t, Delete(f, k, deleteWorks(k)))
    ensures InFlush(s, f, upsertWorks, deleteWorks, Next(t, Delete(f, k, deleteWorks(k))))
  {
    var works := (k: WindowKey) => s.available && deleteWorks(k);
    var rest, u := t.flushers[f].expiredSnap, Next(t, Delete(f, k, deleteWorks(k)));
    var w := Written(s, upsertWorks);
    assert u.warm == Without(w.warm, s.expired - (rest - {k}), works);
    SetTwice(w.(warm := u.warm), f, t.flushers[f], ToDelete(rest - {k}));
  }

  lemma FlushGoesOn(s: State, f: nat, upsertWorks: bool, deleteWorks: WindowKey -> bool, t: State, a: Action)
    requires f < |s.flushers| && InFlush(s, f, upsertWorks, deleteWorks, t) && OwnStep(a, f, upsertWorks, deleteWorks)
    ensures InFlush(s, f, upsertWorks, deleteWorks, Next(t, a))
  {
    if Enabled(t, a) {
      match a
      case ReadKey(_, k) => ReadGoesOn(s, f, upsertWorks, deleteWorks, t, k);
      case Upsert(_, _) => BatchGoesOn(s, f, upsertWorks, deleteWorks, t);
      case Requeue(_) => RequeueGoesOn(s, f, upsertWorks, deleteWorks, t);
      case Delete(_, k, _) => DeleteGoesOn(s, f, upsertWorks, deleteWorks, t, k);
    }
  }

  lemma {:induction false} FlushStaysOnItsWay(s: State, f: nat, upsertWorks: bool, deleteWorks: WindowKey -> bool, run: seq<Action>)
    requires f < |s.flushers| && s.flushers[f].Resting? && OneFlush(run, f, upsertWorks, deleteWorks)
    ensures InFlush(s, f, upsertWorks, deleteWorks, Run(s, run))
  {
    var front, last := run[..|run| - 1], run[|run| - 1];
    if |run| == 1 {
      assert front == [];
      FlushBegins(s, f, upsertWorks, deleteWorks);
    } else {
      FlushStaysOnItsWay(s, f, upsertWorks, deleteWorks, front);
      FlushGoesOn(s, f, upsertWorks, deleteWorks, Run(s, front), last);
    }
  }

  /** Left alone, a flusher carries out Flushed: every run of its own steps, in whatever order it
      takes the keys, that brings it back to rest ends there. */
  lemma FlusherAloneFlushes(s: State, f: nat, upsertWorks: bool, deleteWorks: WindowKey -> bool, run: seq<Action>)
    requires f < |s.flushers| && s.flushers[f].Resting? && OneFlush(run, f, upsertWorks, deleteWorks)
    ensures f < |Run(s, run).flushers|
    ensures Run(s, run).flushers[f].Resting? ==> Run(s, run) == Flushed(s, upsertWorks, deleteWorks)
  {
    FlushStaysOnItsWay(s, f, upsertWorks, deleteWorks, run);
    RemainingNone(s, f, upsertWorks, deleteWorks);
  }

  function StepsLeft(x: Flusher): nat {
    match x
    case Resting => 0
    case Deleting(e) => |e|
    case Requeueing(_, e) => |e| + 1
    case Reading(_, e, todo, _) => |e| + |todo| + 2
  }

  /** A flusher with nothing to delete rests. */
  predicate Moving(x: Flusher) {
    x.Deleting? ==> x.expiredSnap != {}
  }

  /** From anywhere in a flush, own steps lead to rest. */
  lemma {:induction false} FlushEnds(t: State, f: nat, upsertWorks: bool, deleteWorks: WindowKey -> bool) returns (run: seq<Action>)
    requires f < |t.flushers| && Moving(t.flushers[f])
    ensures forall i :: 0 <= i < |run| ==> OwnStep(run[i], f, upsertWorks, deleteWorks)
    ensures f < |Run(t, run).flushers| && Run(t, run).flushers[f].Resting?
    decreases StepsLeft(t.flushers[f])
  {
    var x := t.flushers[f];
    if x.Resting? {
      run := [];
    } else {
      var a := NextOwnStep(t, f, upsertWorks, deleteWorks);
      var rest := FlushEnds(Next(t, a), f, upsertWorks, deleteWorks);
      run := [a] + rest;
      RunCons(t, a, rest);
    }
  }

  lemma NextOwnStep(t: State, f: nat, upsertWorks: bool, deleteWorks: WindowKey -> bool) returns (a: Action)
    requires f < |t.flushers| && Moving(t.flushers[f]) && !t.flushers[f].Resting?
    ensures OwnStep(a, f, upsertWorks, deleteWorks) && |Next(t, a).flushers| == |t.flushers|
    ensures Moving(Next(t, a).flushers[f])
    ensures StepsLeft(Next(t, a).flushers[f]) < StepsLeft(t.flushers[f])
  {
    match t.flushers[f]
    case Reading(_, _, todo, _) =>
      if todo == {} {
        a := Upsert(f, upsertWorks);
      } else {
        var k :| k in todo;
        a := ReadKey(f, k);
      }
    case Requeueing(_, _) => a := Requeue(f);
    case Deleting(rest) =>
      var k :| k in rest;
      a := Delete(f, k, deleteWorks(k));
  }

  /** There is such a run, whatever the table operations do. */
  lemma FlusherAloneFinishes(s: State, f: nat, upsertWorks: bool, deleteWorks: WindowKey -> bool) returns (run: seq<Action>)
    requires f < |s.flushers| && s.flushers[f].Resting?
    ensures OneFlush(run, f, upsertWorks, deleteWorks)
    ensures Run(s, run) == Flushed(s, upsertWorks, deleteWorks)
  {
    var rest := FlushEnds(Next(s, TakeSnapshots(f)), f, upsertWorks, deleteWorks);
    run := [TakeSnapshots(f)] + rest;
    RunCons(s, TakeSnapshots(f), rest);
    FlusherAloneFlushes(s, f, upsertWorks, deleteWorks, run);
  }

  /** What a flush leaves at a key, whichever table operations fail: after a delete that works the
      tiers agree exactly when the key has not been given a new value; otherwise exactly when the
      batch wrote it, or they agreed before. */
  lemma FlushAgreesIff(s: State, upsertWorks: bool, deleteWorks: WindowKey -> bool, k: WindowKey)
    ensures Same(Flushed(s, upsertWorks, deleteWorks), k) <==>
            if k in s.expired && s.available && deleteWorks(k) then Read(s.primary, k) == ZERO
            else (s.available && upsertWorks && k in s.dirty) || Same(s, k)
  {
  }
}
