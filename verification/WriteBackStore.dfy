// The write-back store as an object over its two tiers, with no other thread running.
module WriteBackStore {
  import opened WindowStore
  import opened WarmTier
  import opened WriteBack

  /** The primary after seeding: a row is taken where the primary is still at version 0. */
  function Seeded(primary: Table, rows: Table): Table {
    map k | k in primary.Keys + rows.Keys ::
      if k in rows && Read(primary, k).version == 0 then rows[k] else Read(primary, k)
  }

  lemma SeedNone(primary: Table)
    ensures Seeded(primary, map[]) == primary
  {
  }

  /** One row more, taken by a swap from version 0. */
  lemma SeedOne(primary: Table, rows: Table, key: WindowKey, value: WindowValue)
    requires key !in rows
    ensures Cas(Seeded(primary, rows), key, ZERO, value).0 == Seeded(primary, rows[key := value])
  {
    var before, after := Seeded(primary, rows), Seeded(primary, rows[key := value]);
    assert Read(before, key) == Read(primary, key);
    assert Cas(before, key, ZERO, value).0.Keys == after.Keys;
  }

  function Keys(rows: seq<(WindowKey, WindowValue)>): set<WindowKey> {
    set row | row in rows :: row.0
  }

  lemma KeysOneMore(rows: seq<(WindowKey, WindowValue)>, i: nat)
    requires i < |rows| && forall p, q :: 0 <= p < q < |rows| ==> rows[p].0 != rows[q].0
    ensures Keys(rows[..i + 1]) == Keys(rows[..i]) + {rows[i].0}
    ensures rows[i].0 !in Keys(rows[..i])
    ensures forall t :: Upserted(t, rows[..i + 1]) == Upserted(t, rows[..i])[rows[i].0 := rows[i].1]
  {
    assert rows[..i + 1] == rows[..i] + [rows[i]];
    assert rows[..i + 1][..i] == rows[..i];
  }

  /** A store that has just been seeded is fresh exactly when that agreed. */
  lemma FreshIff(s: State, held: Table)
    requires s.primary == Seeded(held, s.warm) && s.dirty == {} && s.expired == {} && AllQuiet(s) && AllResting(s)
    ensures Fresh(s) <==> SeedingAgrees(held, s.warm)
  {
    SeedingAgreesIff(held, s.warm);
    forall k
      ensures Same(s, k) <==> Read(Seeded(held, s.warm), k) == Read(s.warm, k)
    {
    }
  }

  /** What the primary holds already is in the warm tier as well, or gives way to its row. */
  predicate SeedingAgrees(held: Table, rows: Table) {
    forall k :: k in held ==> held[k] == Read(rows, k) || (k in rows && held[k].version == 0)
  }

  /** Seeding makes the primary read as the warm tier exactly when that is so, in particular
      when the primary starts empty. */
  lemma SeedingAgreesIff(held: Table, rows: Table)
    ensures (forall k :: Read(Seeded(held, rows), k) == Read(rows, k)) <==> SeedingAgrees(held, rows)
    ensures SeedingAgrees(map[], rows)
  {
    forall k | k in held
      ensures Read(Seeded(held, rows), k) == Read(rows, k)
         <==> held[k] == Read(rows, k) || (k in rows && held[k].version == 0)
    {
    }
  }

  /** Nothing expired has been given a value again. */
  predicate ExpiredStayAbsent(s: State) {
    forall k :: k in s.expired ==> Read(s.primary, k) == ZERO
  }

  predicate AllSafe(ks: set<WindowKey>) {
    forall k :: k in ks ==> Safe(k)
  }

  ghost predicate DiffersOnlyWhereMarked(s: State) {
    forall k :: !Same(s, k) ==> k in s.dirty || k in s.expired
  }

  /** The tiered query is the simple one for every range exactly when no expired key has been
      given an aggregate again before the flush. */
  lemma TieredQueryIff(s: State)
    requires s.available && DiffersOnlyWhereMarked(s)
    ensures
      (forall r :: RangeSum(Flushed(s, true, _ => true).warm, r) == RangeSum(s.primary, r))
      <==> (forall k :: k in s.expired ==> Aggregate(s.primary, k) == 0.0)
  {
    var warm := Flushed(s, true, _ => true).warm;
    if forall k :: k in s.expired ==> Aggregate(s.primary, k) == 0.0 {
      forall r ensures RangeSum(warm, r) == RangeSum(s.primary, r) {
        forall k ensures Aggregate(warm, k) == Aggregate(s.primary, k) {
          assert Same(s, k) || k in s.dirty || k in s.expired;
        }
        RangeSumOfTotals(warm, map[], s.primary, map[], r);
      }
    }
    if forall r :: RangeSum(warm, r) == RangeSum(s.primary, r) {
      forall k | k in s.expired ensures Aggregate(s.primary, k) == 0.0 {
        var r := Range(k.tenantId, k.entityId, k.windowName, k.epoch, k.epoch);
        assert RangeSum(warm, r) == RangeSum(s.primary, r);
        RangeOfOne(warm, k);
        RangeOfOne(s.primary, k);
      }
    }
  }

  /** From any state a disciplined run can leave at rest: flush, forget the primary, seed a new one.
      It reads the same at every key, and the new store starts fresh. */
  lemma RestartRoundTrip(s: State, k: WindowKey)
    requires Inv(s) && AllQuiet(s) && AllResting(s) && s.available
    ensures
      var reborn := Seeded(map[], Flushed(s, true, _ => true).warm);
      && Read(reborn, k) == Read(s.primary, k)
      && Fresh(State(true, reborn, Flushed(s, true, _ => true).warm, {}, {}, s.callers, s.flushers))
  {
    var warm := Flushed(s, true, _ => true).warm;
    assert Seeded(map[], warm) == warm;
    assert !Unrecorded(s, k);
    assert k in s.expired ==> Condemned(s, k);
    FlushAgreesIff(s, true, _ => true, k);
  }

  lemma {:induction false} RunKeepsAvailable(s: State, actions: seq<Action>)
    ensures Run(s, actions).available == s.available
  {
    if actions != [] {
      RunKeepsAvailable(s, actions[..|actions| - 1]);
    }
  }

  /** Where a disciplined run has come to rest, whatever is still marked is all that differs, and
      a flush that works makes the tiered query the simple one. */
  lemma QueryAfterDisciplinedRun(s: State, actions: seq<Action>, r: Range)
    requires Fresh(s) && s.available && DisciplinedRun(s, actions)
    requires AllQuiet(Run(s, actions)) && AllResting(Run(s, actions))
    ensures
      var t := Run(s, actions);
      && DiffersOnlyWhereMarked(t) && ExpiredStayAbsent(t)
      && RangeSum(Flushed(t, true, _ => true).warm, r) == RangeSum(t.primary, r)
  {
    var t := Run(s, actions);
    RunKeepsAgreement(s, actions);
    RunKeepsAvailable(s, actions);
    forall k
      ensures !Same(t, k) ==> k in t.dirty || k in t.expired
      ensures k in t.expired ==> Read(t.primary, k) == ZERO
    {
      assert !Unrecorded(t, k);
      assert k in t.expired ==> Condemned(t, k);
    }
    TieredQueryIff(t);
  }

  /** A caller of the machine that is not disturbed between its swap and its mark. */
  lemma SwapThenRecord(s: State, key: WindowKey, expected: WindowValue, value: WindowValue)
    requires s.callers == [Quiet]
    ensures
      var (primary, ok) := Cas(s.primary, key, expected, value);
      Run(s, [Swap(0, key, expected, value), Record(0)])
      == s.(primary := primary, dirty := if ok then s.dirty + {key} else s.dirty)
  {
    RunTwo(s, Swap(0, key, expected, value), Record(0));
  }

  lemma RemoveThenRecord(s: State, key: WindowKey)
    requires s.callers == [Quiet]
    ensures Run(s, [Remove(0, key), Record(0)])
         == s.(primary := s.primary - {key}, dirty := s.dirty - {key}, expired := s.expired + {key})
  {
    RunTwo(s, Remove(0, key), Record(0));
  }

  lemma LatestNone(s: State, base: Table, keys: set<WindowKey>)
    ensures base + Latest(s, keys - keys) == base
  {
  }

  /** One more row in the batch: one key fewer to read. */
  lemma LatestGrow(s: State, base: Table, batch: seq<(WindowKey, WindowValue)>, keys: set<WindowKey>, todo: set<WindowKey>, key: WindowKey)
    requires key in todo && todo <= keys
    requires Upserted(base, batch) == base + Latest(s, keys - todo)
    ensures Upserted(base, batch + [(key, Read(s.primary, key))]) == base + Latest(s, keys - (todo - {key}))
  {
    var row := (key, Read(s.primary, key));
    assert (batch + [row])[..|batch|] == batch;
    assert (base + Latest(s, keys - todo))[key := row.1] == base + Latest(s, keys - (todo - {key}));
  }

  class WriteBackWindowStore {
    const primary: InProcessWindowStore
    const warm: DuckDbWindowStore
    var dirtySet: set<WindowKey>
    var expiredSet: set<WindowKey>
    /** The primary as an abstract map. */
    ghost var contents: Table

    ghost predicate Valid()
      reads this, primary, warm
    {
      && primary.Valid() && Represents(primary.hash, primary.shards, contents)
      && AllSafe(dirtySet) && AllSafe(expiredSet) && AllSafe(warm.warm.Keys) && AllSafe(contents.Keys)
    }

    ghost function View(): State
      reads this, warm
    {
      State(warm.available, contents, warm.warm, dirtySet, expiredSet, [Quiet], [Resting])
    }

    /** Start over the primary as it is; a warm tier that can be scanned is seeded into it. */
    constructor (primary: InProcessWindowStore, warm: DuckDbWindowStore, scanWorks: bool, ghost held: Table)
      requires primary.Valid() && Represents(primary.hash, primary.shards, held)
      requires AllSafe(warm.warm.Keys) && AllSafe(held.Keys)
      modifies primary`shards
      ensures Valid() && this.primary == primary && this.warm == warm
      ensures dirtySet == {} && expiredSet == {}
      ensures contents == if warm.available && scanWorks then Seeded(held, warm.warm) else held
      ensures warm.available && scanWorks ==> (Fresh(View()) <==> SeedingAgrees(held, warm.warm))
    {
      this.primary, this.warm := primary, warm;
      dirtySet, expiredSet, contents := {}, {}, held;
      new;
      if warm.available {
        LoadWarmTier(scanWorks);
        ghost var s := View();
        if s.primary == Seeded(held, s.warm) {
          FreshIff(s, held);
        }
      }
    }

    method LoadWarmTier(scanWorks: bool)
      requires Valid()
      modifies this`contents, primary`shards
      ensures Valid()
      ensures contents == if warm.available && scanWorks then Seeded(old(contents), warm.warm) else old(contents)
    {
      var scanned := warm.ScanWarmTier(scanWorks);
      if scanned.Unavailable? {
        return;
      }
      var rows := scanned.value;
      ghost var taken: Table := map[];
      SeedNone(contents);
      for i := 0 to |rows|
        invariant Valid() && contents == Seeded(old(contents), taken)
        invariant taken == Upserted(map[], rows[..i])
        invariant forall k :: k in taken ==> k in Keys(rows[..i])
      {
        var (key, value) := rows[i];
        assert key in warm.warm.Keys;
        KeysOneMore(rows, i);
        SeedOne(old(contents), taken, key, value);
        var _ := SwapPrimary(key, ZERO, value);
        taken := taken[key := value];
      }
      assert rows[..|rows|] == rows;
      ScanRoundTrip(rows, warm.warm);
    }

    method SwapPrimary(key: WindowKey, expected: WindowValue, value: WindowValue) returns (ok: bool)
      requires Valid() && Safe(key)
      modifies this`contents, primary`shards
      ensures Valid() && (contents, ok) == Cas(old(contents), key, expected, value)
    {
      ShardedStoreRefinesMap(primary.hash, primary.shards, contents, key, expected, value);
      ok := primary.CompareAndSwap(key, expected, value);
      contents := Cas(contents, key, expected, value).0;
    }

    method Get(key: WindowKey) returns (value: WindowValue)
      requires Valid()
      ensures value == Lookup(primary.hash, primary.shards, key)
      ensures Safe(key) ==> value == Read(contents, key)
    {
      value := primary.Get(key);
    }

    /** On any key the primary's own swap and, if it held, a dirty mark; on safe keys, which
        cannot disturb one another, also a run of the protocol. */
    method CompareAndSwap(key: WindowKey, expected: WindowValue, value: WindowValue) returns (ok: bool)
      requires Valid()
      modifies this`contents, this`dirtySet, primary`shards
      ensures (primary.shards, ok) == ShardedCas(primary.hash, old(primary.shards), key, expected, value)
      ensures dirtySet == if ok then old(dirtySet) + {key} else old(dirtySet)
      ensures Safe(key) ==>
                && Valid() && (contents, ok) == Cas(old(contents), key, expected, value)
                && View() == Run(old(View()), [Swap(0, key, expected, value), Record(0)])
    {
      ghost var before := View();
      if Safe(key) {
        ShardedStoreRefinesMap(primary.hash, primary.shards, contents, key, expected, value);
      }
      ok := primary.CompareAndSwap(key, expected, value);
      contents := Cas(contents, key, expected, value).0;
      if ok {
        dirtySet := dirtySet + {key};
      }
      SwapThenRecord(before, key, expected, value);
    }

    method Expire(key: WindowKey)
      requires Valid()
      modifies this`contents, this`dirtySet, this`expiredSet, primary`shards
      ensures primary.shards == ShardedExpire(primary.hash, old(primary.shards), key)
      ensures dirtySet == old(dirtySet) - {key} && expiredSet == old(expiredSet) + {key}
      ensures Safe(key) ==>
                && Valid() && contents == old(contents) - {key}
                && View() == Run(old(View()), [Remove(0, key), Record(0)])
    {
      ghost var before := View();
      if Safe(key) {
        ShardedStoreRefinesMap(primary.hash, primary.shards, contents, key, ZERO, ZERO);
      }
      primary.Expire(key);
      contents := contents - {key};
      dirtySet := dirtySet - {key};
      expiredSet := expiredSet + {key};
      RemoveThenRecord(before, key);
    }

    /** Swap both sets out, then write and delete what they name. */
    method FlushSync(upsertWorks: bool, deleteWorks: WindowKey -> bool)
      requires Valid()
      modifies this`dirtySet, this`expiredSet, warm`warm
      ensures Valid() && View() == Flushed(old(View()), upsertWorks, deleteWorks)
      ensures exists run :: OneFlush(run, 0, upsertWorks, deleteWorks) && View() == Run(old(View()), run)
    {
      ghost var before := View();
      var dirtySnap, expiredSnap := dirtySet, expiredSet;
      dirtySet, expiredSet := {}, {};
      FlushDirty(dirtySnap, upsertWorks);
      FlushExpired(expiredSnap, deleteWorks);
      assert warm.warm == Flushed(before, upsertWorks, deleteWorks).warm;
      ghost var run := FlusherAloneFinishes(before, 0, upsertWorks, deleteWorks);
    }

    /** The authoritative value of every dirty key, as it reads now. */
    method ReadBatch(dirtySnap: set<WindowKey>) returns (batch: seq<(WindowKey, WindowValue)>)
      requires Valid() && AllSafe(dirtySnap)
      ensures Upserted(warm.warm, batch) == warm.warm + Latest(View(), dirtySnap)
      ensures batch == [] ==> dirtySnap == {}
    {
      batch := [];
      var todo := dirtySnap;
      ghost var s, base := View(), warm.warm;
      LatestNone(s, base, dirtySnap);
      while todo != {}
        invariant todo <= dirtySnap && (batch == [] ==> todo == dirtySnap)
        invariant Upserted(base, batch) == base + Latest(s, dirtySnap - todo)
        decreases |todo|
      {
        var key :| key in todo;
        var value := primary.Get(key);
        LatestGrow(s, base, batch, dirtySnap, todo, key);
        batch := batch + [(key, value)];
        todo := todo - {key};
      }
      assert dirtySnap - {} == dirtySnap;
    }

    method FlushDirty(dirtySnap: set<WindowKey>, upsertWorks: bool)
      requires Valid() && dirtySet == {} && AllSafe(dirtySnap)
      modifies this`dirtySet, warm`warm
      ensures Valid()
      ensures
        var written := warm.available && upsertWorks;
        && warm.warm == (if written then old(warm.warm) + Latest(old(View()), dirtySnap) else old(warm.warm))
        && dirtySet == (if written then {} else dirtySnap)
    {
      if dirtySnap != {} && warm.available {
        var batch := ReadBatch(dirtySnap);
        var result := warm.UpsertBatch(batch, _ => upsertWorks, upsertWorks);
        assert result.Ok? ==> upsertWorks;
        if result.Unavailable? {
          dirtySet := dirtySet + dirtySnap;
        }
      } else if dirtySnap != {} {
        dirtySet := dirtySet + dirtySnap;
      } else {
        assert warm.warm + Latest(View(), {}) == warm.warm;
      }
    }

    method FlushExpired(expiredSnap: set<WindowKey>, deleteWorks: WindowKey -> bool)
      requires Valid()
      modifies warm`warm
      ensures Valid()
      ensures warm.warm == Without(old(warm.warm), if warm.available then expiredSnap else {}, deleteWorks)
    {
      var todo := expiredSnap;
      assert warm.warm == Without(warm.warm, {}, deleteWorks);
      while todo != {}
        invariant todo <= expiredSnap && Valid()
        invariant warm.warm == Without(old(warm.warm), if warm.available then expiredSnap - todo else {}, deleteWorks)
        decreases |todo|
      {
        var key :| key in todo;
        var _ := warm.Expire(key, deleteWorks(key));
        todo := todo - {key};
      }
      assert expiredSnap - {} == expiredSnap;
    }

    /** Flush first, then ask the warm tier. */
    method QueryRange(r: Range, upsertWorks: bool, deleteWorks: WindowKey -> bool, warmWorks: bool, coldWorks: bool) returns (out: Outcome<real>)
      requires Valid()
      modifies this`dirtySet, this`expiredSet, warm`warm
      ensures Valid()
      ensures !warm.available ==> out == Unavailable && View() == old(View())
      ensures warm.available ==>
        && View() == Flushed(old(View()), upsertWorks, deleteWorks)
        && out == if !warmWorks then Unavailable
                  else Ok(RangeSum(warm.warm, r) + (if warm.archiving && coldWorks then RangeSum(warm.cold, r) else 0.0))
      ensures warm.available && warmWorks && upsertWorks && !warm.archiving && (forall k :: deleteWorks(k))
              && DiffersOnlyWhereMarked(old(View())) && ExpiredStayAbsent(old(View()))
              ==> out == Ok(RangeSum(old(contents), r))
    {
      if !warm.available {
        return Unavailable;
      }
      ghost var before := View();
      FlushSync(upsertWorks, deleteWorks);
      if upsertWorks && (forall k :: deleteWorks(k)) && DiffersOnlyWhereMarked(before) && ExpiredStayAbsent(before) {
        TieredQueryIff(before);
        assert Flushed(before, upsertWorks, deleteWorks).warm == Flushed(before, true, _ => true).warm;
      }
      out := warm.QueryRange(r, warmWorks, coldWorks);
    }
  }

  /** A process stops after its destructor's flush and another starts over the same database. */
  method Restart(store: WriteBackWindowStore, numShards: nat, hash: string -> nat) returns (reborn: WriteBackWindowStore)
    requires store.Valid() && store.warm.available && numShards > 0
    requires DiffersOnlyWhereMarked(store.View()) && ExpiredStayAbsent(store.View())
    modifies store`dirtySet, store`expiredSet, store.warm`warm
    ensures reborn.Valid() && fresh(reborn) && Fresh(reborn.View())
    ensures forall k :: Read(reborn.contents, k) == Read(old(store.contents), k)
  {
    ghost var before := store.View();
    store.FlushSync(true, _ => true);
    var primary := new InProcessWindowStore(numShards, hash);
    reborn := new WriteBackWindowStore(primary, store.warm, true, map[]);
    forall k ensures Read(reborn.contents, k) == Read(before.primary, k) {
      FlushAgreesIff(before, true, _ => true, k);
    }
  }
}
