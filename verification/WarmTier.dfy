// The DuckDB store as operations on two tables: the warm table and the parquet archive.
module WarmTier {
  import opened Bits
  import opened WindowStore

  /** Which rows a range query asks for. */
  datatype Range = Range(tenantId: string, entityId: string, windowName: string, first: nat, last: nat) {
    predicate Contains(k: WindowKey) {
      && k.tenantId == tenantId && k.entityId == entityId && k.windowName == windowName
      && first <= k.epoch <= last
    }
  }

  function Aggregate(t: Table, k: WindowKey): real {
    Read(t, k).aggregate
  }

  // ---------------------------------------------------------------------- sums

  ghost function SumOver(t: Table, ks: set<WindowKey>): real {
    if ks == {} then 0.0 else
      var k :| k in ks;
      Aggregate(t, k) + SumOver(t, ks - {k})
  }

  function RangeKeys(t: Table, r: Range): set<WindowKey> {
    set k | k in t && r.Contains(k)
  }

  ghost function RangeSum(t: Table, r: Range): real {
    SumOver(t, RangeKeys(t, r))
  }

  /** The sum does not depend on which row is taken first. */
  lemma {:induction false} SumPick(t: Table, ks: set<WindowKey>, k: WindowKey)
    requires k in ks
    ensures SumOver(t, ks) == Aggregate(t, k) + SumOver(t, ks - {k})
    decreases |ks|
  {
    var j :| j in ks && SumOver(t, ks) == Aggregate(t, j) + SumOver(t, ks - {j});
    if j != k {
      SumPick(t, ks - {j}, k);
      SumPick(t, ks - {k}, j);
      assert ks - {j} - {k} == ks - {k} - {j};
    }
  }

  /** Rows that read zero do not count. */
  lemma {:induction false} SumIgnoresZeros(t: Table, ks: set<WindowKey>, more: set<WindowKey>)
    requires forall k :: k in more ==> k in ks || Aggregate(t, k) == 0.0
    requires ks <= more
    ensures SumOver(t, more) == SumOver(t, ks)
    decreases |more|
  {
    if more != ks {
      var k :| k in more && k !in ks;
      SumPick(t, more, k);
      SumIgnoresZeros(t, ks, more - {k});
    }
  }

  /** Two pairs of tables with the same row totals have the same sum. */
  lemma {:induction false} SumOfTotals(a: Table, b: Table, c: Table, d: Table, ks: set<WindowKey>)
    requires forall k :: k in ks ==> Aggregate(a, k) + Aggregate(b, k) == Aggregate(c, k) + Aggregate(d, k)
    ensures SumOver(a, ks) + SumOver(b, ks) == SumOver(c, ks) + SumOver(d, ks)
    decreases |ks|
  {
    if ks != {} {
      var k :| k in ks;
      SumPick(a, ks, k);
      SumPick(b, ks, k);
      SumPick(c, ks, k);
      SumPick(d, ks, k);
      SumOfTotals(a, b, c, d, ks - {k});
    }
  }

  lemma RangeSumOver(t: Table, r: Range, ks: set<WindowKey>)
    requires forall k :: k in ks ==> r.Contains(k)
    requires forall k :: k in t && r.Contains(k) ==> k in ks
    ensures RangeSum(t, r) == SumOver(t, ks)
  {
    SumIgnoresZeros(t, RangeKeys(t, r), ks);
  }

  /** Range sums depend only on the row totals. */
  lemma RangeSumOfTotals(a: Table, b: Table, c: Table, d: Table, r: Range)
    requires forall k :: r.Contains(k) ==> Aggregate(a, k) + Aggregate(b, k) == Aggregate(c, k) + Aggregate(d, k)
    ensures RangeSum(a, r) + RangeSum(b, r) == RangeSum(c, r) + RangeSum(d, r)
  {
    var ks := set k | k in a.Keys + b.Keys + c.Keys + d.Keys && r.Contains(k);
    RangeSumOver(a, r, ks);
    RangeSumOver(b, r, ks);
    RangeSumOver(c, r, ks);
    RangeSumOver(d, r, ks);
    SumOfTotals(a, b, c, d, ks);
  }

  /** A one-epoch range sees exactly one key. */
  lemma RangeOfOne(t: Table, k: WindowKey)
    ensures RangeSum(t, Range(k.tenantId, k.entityId, k.windowName, k.epoch, k.epoch)) == Aggregate(t, k)
  {
    var r := Range(k.tenantId, k.entityId, k.windowName, k.epoch, k.epoch);
    RangeSumOver(t, r, {k});
    SumPick(t, {k}, k);
  }

  /** The aggregates of one tenant, entity and window, epoch by epoch from first to last. */
  function EpochSum(t: Table, tenantId: string, entityId: string, windowName: string, first: nat, last: int): real
    decreases last - first + 1
  {
    if last < first then 0.0
    else EpochSum(t, tenantId, entityId, windowName, first, last - 1) + Aggregate(t, WindowKey(tenantId, entityId, windowName, last))
  }

  /** A range sum is the sum over its epochs, both ends included, and 0 for an empty range. */
  lemma {:induction false} RangeSumIsEpochSum(t: Table, tenantId: string, entityId: string, windowName: string, first: nat, last: nat)
    ensures RangeSum(t, Range(tenantId, entityId, windowName, first, last))
         == EpochSum(t, tenantId, entityId, windowName, first, last)
    decreases last
  {
    var r := Range(tenantId, entityId, windowName, first, last);
    var k := WindowKey(tenantId, entityId, windowName, last);
    if last < first {
      RangeSumOver(t, r, {});
    } else if last == first {
      RangeOfOne(t, k);
      assert EpochSum(t, tenantId, entityId, windowName, first, last - 1) == 0.0;
    } else {
      RangeSumIsEpochSum(t, tenantId, entityId, windowName, first, last - 1);
      RangeGrows(t, tenantId, entityId, windowName, first, last);
    }
  }

  lemma RangeGrows(t: Table, tenantId: string, entityId: string, windowName: string, first: nat, last: nat)
    requires first < last
    ensures RangeSum(t, Range(tenantId, entityId, windowName, first, last))
         == RangeSum(t, Range(tenantId, entityId, windowName, first, last - 1))
            + Aggregate(t, WindowKey(tenantId, entityId, windowName, last))
  {
    var longer, shorter := Range(tenantId, entityId, windowName, first, last), Range(tenantId, entityId, windowName, first, last - 1);
    var k := WindowKey(tenantId, entityId, windowName, last);
    var ks := RangeKeys(t, shorter) + {k};
    RangeSumOver(t, longer, ks);
    SumPick(t, ks, k);
    assert ks - {k} == RangeKeys(t, shorter);
  }

  // ------------------------------------------------------------------ archival

  function CurrentEpoch(nowMs: nat, windowMs: nat): nat {
    if windowMs > 0 then nowMs / windowMs else 0
  }

  /** One epoch's COPY and DELETE, each of which may fail without being noticed. */
  function ArchiveEpoch(warm: Table, cold: Table, e: nat, copied: bool, deleted: bool): (Table, Table) {
    (if deleted then map k | k in warm && k.epoch != e :: warm[k] else warm,
     if copied then map k | k in warm.Keys + cold.Keys && (if k.epoch == e then k in warm else k in cold) ::
                      if k.epoch == e then warm[k] else cold[k]
     else cold)
  }

  function OldEpochs(warm: Table, cutoff: nat): set<nat> {
    set k | k in warm && k.epoch < cutoff :: k.epoch
  }

  /** All the given epochs at once. */
  function Archive(warm: Table, cold: Table, es: set<nat>, copied: nat -> bool, deleted: nat -> bool): (Table, Table) {
    (map k | k in warm && !(k.epoch in es && deleted(k.epoch)) :: warm[k],
     map k | k in warm.Keys + cold.Keys && (if k.epoch in es && copied(k.epoch) then k in warm else k in cold) ::
       if k.epoch in es && copied(k.epoch) then warm[k] else cold[k])
  }

  /** What the pre-state must satisfy at a key for its total to survive archival of its epoch. */
  predicate Settled(warm: Table, cold: Table, k: WindowKey, copied: bool, deleted: bool) {
    if copied && deleted then Aggregate(cold, k) == 0.0
    else if copied then Aggregate(cold, k) == Aggregate(warm, k)
    else if deleted then Aggregate(warm, k) == 0.0
    else true
  }

  ghost predicate AllSettled(warm: Table, cold: Table, es: set<nat>, copied: nat -> bool, deleted: nat -> bool) {
    forall k: WindowKey :: k.epoch in es ==> Settled(warm, cold, k, copied(k.epoch), deleted(k.epoch))
  }

  ghost predicate SameRangeSums(before: (Table, Table), after: (Table, Table)) {
    forall r :: RangeSum(after.0, r) + RangeSum(after.1, r) == RangeSum(before.0, r) + RangeSum(before.1, r)
  }

  /** Archival leaves every range sum unchanged exactly when each archived key is settled
      beforehand: nothing archived under it earlier when both statements succeed. */
  lemma ArchivalConservesIff(warm: Table, cold: Table, es: set<nat>, copied: nat -> bool, deleted: nat -> bool)
    ensures SameRangeSums((warm, cold), Archive(warm, cold, es, copied, deleted))
       <==> AllSettled(warm, cold, es, copied, deleted)
  {
    var (warm', cold') := Archive(warm, cold, es, copied, deleted);
    if AllSettled(warm, cold, es, copied, deleted) {
      forall r ensures RangeSum(warm', r) + RangeSum(cold', r) == RangeSum(warm, r) + RangeSum(cold, r) {
        RangeSumOfTotals(warm', cold', warm, cold, r);
      }
    }
    if SameRangeSums((warm, cold), (warm', cold')) {
      forall k: WindowKey | k.epoch in es ensures Settled(warm, cold, k, copied(k.epoch), deleted(k.epoch)) {
        var r := Range(k.tenantId, k.entityId, k.windowName, k.epoch, k.epoch);
        assert RangeSum(warm', r) + RangeSum(cold', r) == RangeSum(warm, r) + RangeSum(cold, r);
        RangeOfOne(warm', k);
        RangeOfOne(cold', k);
        RangeOfOne(warm, k);
        RangeOfOne(cold, k);
      }
    }
  }

  /** A first archival with both statements succeeding moves rows and changes no range sum. */
  lemma FirstArchivalConserves(warm: Table, cold: Table, cutoff: nat, r: Range)
    requires forall k :: k in cold ==> k.epoch !in OldEpochs(warm, cutoff)
    ensures
      var (warm', cold') := Archive(warm, cold, OldEpochs(warm, cutoff), _ => true, _ => true);
      && RangeSum(warm', r) + RangeSum(cold', r) == RangeSum(warm, r) + RangeSum(cold, r)
      && forall k :: k in warm' ==> k.epoch >= cutoff
  {
    ArchivalConservesIff(warm, cold, OldEpochs(warm, cutoff), _ => true, _ => true);
    forall k | k in warm && k.epoch < cutoff ensures k.epoch in OldEpochs(warm, cutoff) {
    }
  }

  /** Row by row: a copied row is in the archive as it was, a deleted one is not in the warm table,
      and rows of other epochs stay where and as they are. */
  lemma ArchivedRows(warm: Table, cold: Table, es: set<nat>, copied: nat -> bool, deleted: nat -> bool, k: WindowKey)
    ensures
      var (warm', cold') := Archive(warm, cold, es, copied, deleted);
      && (k.epoch in es && copied(k.epoch) ==> (k in cold' <==> k in warm) && Read(cold', k) == Read(warm, k))
      && (k.epoch in es && deleted(k.epoch) ==> k !in warm')
      && (!(k.epoch in es && copied(k.epoch)) ==> (k in cold' <==> k in cold) && Read(cold', k) == Read(cold, k))
      && (!(k.epoch in es && deleted(k.epoch)) ==> (k in warm' <==> k in warm) && Read(warm', k) == Read(warm, k))
  {
  }

  lemma QuotientBelow(x: nat, w: nat, q: nat)
    requires w > 0
    ensures q * w <= x <==> q <= x / w
  {
    assert x == x / w * w + x % w;
    if q <= x / w {
      MulMonotone(q, x / w, w);
    } else {
      MulMonotone(x / w + 1, q, w);
    }
  }

  /** In terms of time: an epoch is old exactly when at least `retention` whole windows have passed
      since its own window ended; without a window length no epoch ever is. */
  lemma OldMeansRetentionHasPassed(nowMs: nat, windowMs: nat, retention: nat, e: nat)
    ensures CurrentEpoch(nowMs, windowMs) >= retention && e < CurrentEpoch(nowMs, windowMs) - retention
       <==> windowMs > 0 && (e + 1 + retention) * windowMs <= nowMs
  {
    if windowMs > 0 {
      QuotientBelow(nowMs, windowMs, e + 1 + retention);
    }
  }

  /** Rows from the cutoff on are never touched. */
  lemma RecentEpochsUntouched(warm: Table, cold: Table, cutoff: nat, copied: nat -> bool, deleted: nat -> bool, k: WindowKey)
    requires k.epoch >= cutoff
    ensures
      var (warm', cold') := Archive(warm, cold, OldEpochs(warm, cutoff), copied, deleted);
      && (k in warm' <==> k in warm) && (k in cold' <==> k in cold)
      && Read(warm', k) == Read(warm, k) && Read(cold', k) == Read(cold, k)
  {
  }

  // -------------------------------------------------------------------- upserts

  /** Rows written one after another. */
  function Upserted(t: Table, rows: seq<(WindowKey, WindowValue)>): Table {
    if rows == [] then t
    else Upserted(t, rows[..|rows| - 1])[rows[|rows| - 1].0 := rows[|rows| - 1].1]
  }

  /** The rows are those of the table, no key twice. */
  ghost predicate Lists(rows: seq<(WindowKey, WindowValue)>, t: Table) {
    && (forall i, j :: 0 <= i < j < |rows| ==> rows[i].0 != rows[j].0)
    && (forall i :: 0 <= i < |rows| ==> rows[i].0 in t && t[rows[i].0] == rows[i].1)
    && (forall k :: k in t ==> (k, t[k]) in rows)
  }

  lemma ListsNothing()
    ensures forall t: Table :: t - t.Keys == map[] && Lists([], t - t.Keys)
  {
  }

  lemma ListsOneMore(rows: seq<(WindowKey, WindowValue)>, t: Table, rest: set<WindowKey>, key: WindowKey)
    requires key in rest && rest <= t.Keys && Lists(rows, t - rest)
    ensures Lists(rows + [(key, t[key])], t - (rest - {key}))
  {
    var more, s, u := rows + [(key, t[key])], t - rest, t - (rest - {key});
    forall k | k in u
      ensures (k, u[k]) in more
    {
      if k != key {
        assert k in s && (k, s[k]) in rows;
      }
    }
  }

  /** Written into an empty table, a scan's rows give the table back. */
  lemma {:induction false} ScanRoundTrip(rows: seq<(WindowKey, WindowValue)>, t: Table)
    requires Lists(rows, t)
    ensures Upserted(map[], rows) == t
  {
    if rows == [] {
      assert t == map[];
    } else {
      var front, last := rows[..|rows| - 1], rows[|rows| - 1];
      ListsFront(rows, t);
      ScanRoundTrip(front, t - {last.0});
      assert t == (t - {last.0})[last.0 := last.1];
    }
  }

  lemma ListsFront(rows: seq<(WindowKey, WindowValue)>, t: Table)
    requires rows != [] && Lists(rows, t)
    ensures Lists(rows[..|rows| - 1], t - {rows[|rows| - 1].0})
  {
    var front, last := rows[..|rows| - 1], rows[|rows| - 1];
    assert rows == front + [last];
    forall k | k in t - {last.0}
      ensures (k, t[k]) in front
    {
      assert (k, t[k]) in rows;
    }
  }

  /** Every error of the database reads the same here. */
  datatype Outcome<T> = Ok(value: T) | Unavailable

  class DuckDbWindowStore {
    const available: bool
    const archiving: bool
    const windowMs: nat
    const retention: nat
    var warm: Table
    var cold: Table

    /** A database opened over what an earlier process left in it. */
    constructor (available: bool, archiving: bool, windowMs: nat, retention: nat, warm: Table, cold: Table)
      ensures this.available == available && this.archiving == archiving
      ensures this.windowMs == windowMs && this.retention == retention
      ensures this.warm == warm && this.cold == cold
    {
      this.available, this.archiving, this.windowMs, this.retention := available, archiving, windowMs, retention;
      this.warm, this.cold := warm, cold;
    }

    method Get(key: WindowKey, works: bool) returns (out: Outcome<WindowValue>)
      ensures out == if available && works then Ok(Read(warm, key)) else Unavailable
    {
      if !available || !works {
        return Unavailable;
      }
      out := if key in warm then Ok(warm[key]) else Ok(ZERO);
    }

    /** Seed the row, then update it if the version matches, in one transaction whose commit is
        not checked. Committed, it is as `get` sees it the in-process compare-and-swap, although a
        failed one may leave a zero row behind; uncommitted, it gives the same answer and does nothing. */
    method CompareAndSwap(key: WindowKey, expected: WindowValue, value: WindowValue, works: bool, commits: bool)
      returns (out: Outcome<bool>)
      modifies this`warm
      ensures out == if available && works then Ok(Cas(old(warm), key, expected, value).1) else Unavailable
      ensures !(available && works && commits) ==> warm == old(warm)
      ensures available && works && commits ==>
                forall k :: Read(warm, k) == Read(Cas(old(warm), key, expected, value).0, k)
    {
      if !available || !works {
        return Unavailable;
      }
      var saved := warm;
      if key !in warm {
        warm := warm[key := ZERO];
      }
      var changed := 0;
      if warm[key].version == expected.version {
        warm := warm[key := value];
        changed := 1;
      }
      if !commits {
        warm := saved;
      }
      out := Ok(changed > 0);
    }

    method Expire(key: WindowKey, works: bool) returns (out: Outcome<()>)
      modifies this`warm
      ensures out == if available && works then Ok(()) else Unavailable
      ensures warm == if available && works then old(warm) - {key} else old(warm)
    {
      if !available || !works {
        return Unavailable;
      }
      warm := warm - {key};
      out := Ok(());
    }

    /** One transaction: every row, or after any failing statement none of them. */
    method UpsertBatch(entries: seq<(WindowKey, WindowValue)>, rowWorks: nat -> bool, commits: bool) returns (out: Outcome<()>)
      modifies this`warm
      ensures out.Ok? <==> available && (entries == [] || commits) && forall i :: 0 <= i < |entries| ==> rowWorks(i)
      ensures warm == if out.Ok? then Upserted(old(warm), entries) else old(warm)
    {
      if !available {
        return Unavailable;
      }
      if entries == [] {
        return Ok(());
      }
      var saved := warm;
      var i := 0;
      while i < |entries|
        invariant 0 <= i <= |entries|
        invariant warm == Upserted(saved, entries[..i])
        invariant forall j :: 0 <= j < i ==> rowWorks(j)
      {
        if !rowWorks(i) {
          warm := saved;
          return Unavailable;
        }
        warm := warm[entries[i].0 := entries[i].1];
        assert entries[..i + 1][..i] == entries[..i];
        i := i + 1;
      }
      assert entries[..i] == entries;
      if !commits {
        warm := saved;
        return Unavailable;
      }
      out := Ok(());
    }

    /** Row by row, in whatever order the database keeps them: each row once. */
    method ScanWarmTier(works: bool) returns (out: Outcome<seq<(WindowKey, WindowValue)>>)
      ensures out.Ok? <==> available && works
      ensures out.Ok? ==> Lists(out.value, warm)
    {
      if !available || !works {
        return Unavailable;
      }
      var rows := [];
      var rest := warm.Keys;
      ListsNothing();
      while rest != {}
        invariant rest <= warm.Keys && Lists(rows, warm - rest)
        decreases |rest|
      {
        var key :| key in rest;
        ListsOneMore(rows, warm, rest, key);
        rows := rows + [(key, warm[key])];
        rest := rest - {key};
      }
      assert warm - {} == warm;
      out := Ok(rows);
    }

    static method SumRows(t: Table, r: Range) returns (sum: real)
      ensures sum == RangeSum(t, r)
    {
      sum := 0.0;
      var rest := RangeKeys(t, r);
      while rest != {}
        invariant forall k :: k in rest ==> k in t
        invariant sum + SumOver(t, rest) == RangeSum(t, r)
        decreases |rest|
      {
        var k :| k in rest;
        SumPick(t, rest, k);
        sum := sum + t[k].aggregate;
        rest := rest - {k};
      }
    }

    /** Warm rows, and the archive when there is one; a failing archive query counts as zero. */
    method QueryRange(r: Range, warmWorks: bool, coldWorks: bool) returns (out: Outcome<real>)
      ensures out ==
        if !available || !warmWorks then Unavailable
        else Ok(RangeSum(warm, r) + (if archiving && coldWorks then RangeSum(cold, r) else 0.0))
    {
      if !available || !warmWorks {
        return Unavailable;
      }
      var warmSum := SumRows(warm, r);
      var coldSum := 0.0;
      if archiving && cold != map[] && coldWorks {
        coldSum := SumRows(cold, r);
      }
      assert cold == map[] ==> RangeSum(cold, r) == 0.0 by {
        RangeSumOver(map[], r, {});
      }
      out := Ok(warmSum + coldSum);
    }

    lemma TimeOfOld(nowMs: nat, t: Table)
      ensures forall k :: k in t ==>
                (CurrentEpoch(nowMs, windowMs) >= retention && k.epoch < CurrentEpoch(nowMs, windowMs) - retention
                 <==> windowMs > 0 && (k.epoch + 1 + retention) * windowMs <= nowMs)
    {
      forall k | k in t
        ensures CurrentEpoch(nowMs, windowMs) >= retention && k.epoch < CurrentEpoch(nowMs, windowMs) - retention
           <==> windowMs > 0 && (k.epoch + 1 + retention) * windowMs <= nowMs
      {
        OldMeansRetentionHasPassed(nowMs, windowMs, retention, k.epoch);
      }
    }

    /** Each old epoch in turn, in whatever order the query lists them. */
    method FlushOldEpochs(nowMs: nat, copied: nat -> bool, deleted: nat -> bool)
      modifies this`warm, this`cold
      ensures
        var current := CurrentEpoch(nowMs, windowMs);
        (warm, cold) ==
        if !available || current < retention then (old(warm), old(cold))
        else Archive(old(warm), old(cold), OldEpochs(old(warm), current - retention), copied, deleted)
      ensures forall k :: k in old(warm) ==>
                (k !in warm <==> available && windowMs > 0 && (k.epoch + 1 + retention) * windowMs <= nowMs && deleted(k.epoch))
    {
      TimeOfOld(nowMs, warm);
      if !available {
        return;
      }
      var current := CurrentEpoch(nowMs, windowMs);
      if current < retention {
        return;
      }
      var todo := OldEpochs(warm, current - retention);
      ghost var done: set<nat> := {};
      ArchiveNothing(warm, cold, copied, deleted);
      while todo != {}
        invariant todo !! done && todo + done == OldEpochs(old(warm), current - retention)
        invariant (warm, cold) == Archive(old(warm), old(cold), done, copied, deleted)
        decreases |todo|
      {
        var e :| e in todo;
        ArchiveOneMore(old(warm), old(cold), done, e, copied, deleted);
        var (nextWarm, nextCold) := ArchiveEpoch(warm, cold, e, copied(e), deleted(e));
        warm, cold := nextWarm, nextCold;
        todo, done := todo - {e}, done + {e};
      }
    }
  }

  lemma ArchiveNothing(warm: Table, cold: Table, copied: nat -> bool, deleted: nat -> bool)
    ensures Archive(warm, cold, {}, copied, deleted) == (warm, cold)
  {
    var (w, c) := Archive(warm, cold, {}, copied, deleted);
    assert w == warm && c == cold;
  }

  lemma ArchiveOneMoreWarm(warm: Table, cold: Table, es: set<nat>, e: nat, copied: nat -> bool, deleted: nat -> bool)
    requires e !in es
    ensures
      var (w, c) := Archive(warm, cold, es, copied, deleted);
      ArchiveEpoch(w, c, e, copied(e), deleted(e)).0 == Archive(warm, cold, es + {e}, copied, deleted).0
  {
  }

  lemma ArchiveOneMoreCold(warm: Table, cold: Table, es: set<nat>, e: nat, copied: nat -> bool, deleted: nat -> bool)
    requires e !in es
    ensures
      var (w, c) := Archive(warm, cold, es, copied, deleted);
      ArchiveEpoch(w, c, e, copied(e), deleted(e)).1 == Archive(warm, cold, es + {e}, copied, deleted).1
  {
    var (w, c) := Archive(warm, cold, es, copied, deleted);
    var more := Archive(warm, cold, es + {e}, copied, deleted).1;
    assert ArchiveEpoch(w, c, e, copied(e), deleted(e)).1 == more;
  }

  /** Epochs do not interfere: archiving one more extends the set archived so far. */
  lemma ArchiveOneMore(warm: Table, cold: Table, es: set<nat>, e: nat, copied: nat -> bool, deleted: nat -> bool)
    requires e !in es
    ensures
      var (w, c) := Archive(warm, cold, es, copied, deleted);
      ArchiveEpoch(w, c, e, copied(e), deleted(e)) == Archive(warm, cold, es + {e}, copied, deleted)
  {
    ArchiveOneMoreWarm(warm, cold, es, e, copied, deleted);
    ArchiveOneMoreCold(warm, cold, es, e, copied, deleted);
  }
}
