// The tenant table: assignment of cells on first use, then admission and release.
module TenantRouting {
  import opened Bits
  import opened ShuffleSharding
  import Admission

  datatype TenantState = TenantState(cells: seq<nat>, bucket: Admission.Bucket)

  /** The loop of assign_cells, in place on a growing vector with a 32-bit counter. */
  method AssignCells(h: nat, numCells: nat, cellsPerTenant: nat) returns (cells: seq<nat>)
    requires numCells > 0 && Finishes(h, numCells, cellsPerTenant)
    ensures cells == Assignment(h, numCells, cellsPerTenant)
    ensures FirstDistinctCells(h, numCells, cellsPerTenant, cells)
  {
    LoopEntry(h, numCells, cellsPerTenant);
    AssignmentIsFirstDistinct(h, numCells, cellsPerTenant, Assignment(h, numCells, cellsPerTenant));
    cells := [];
    var i := 0;
    ghost var rounds := 0;
    while |cells| < cellsPerTenant
      invariant AtHead(h, numCells, cellsPerTenant, rounds, cells, i)
      decreases TWO32 - rounds
    {
      LoopRound(h, numCells, cellsPerTenant, rounds, cells, i);
      var cell := Cell(h, numCells, i);
      if cell !in cells {
        cells := cells + [cell];
      }
      i := if i + 1 == TWO32 then 0 else i + 1;
      rounds := rounds + 1;
      if |cells| == numCells {
        break;
      }
    }
  }

  class TenantRouter {
    const numCells: nat
    const cellsPerTenant: nat
    const limit: Admission.RateLimit
    const hash: string -> nat
    var tenants: map<string, TenantState>

    /** The tenant is known already, or its assignment loop ends. */
    ghost predicate Servable(tenant: string)
      reads this
    {
      tenant in tenants || (numCells > 0 && Finishes(hash(tenant), numCells, cellsPerTenant))
    }

    /** Every tenant's cells are its assignment, whenever it was first seen. */
    ghost predicate Valid()
      reads this
    {
      && (tenants != map[] ==> numCells > 0)
      && forall t :: t in tenants ==> tenants[t].cells == Assignment(hash(t), numCells, cellsPerTenant)
    }

    constructor (numCells: nat, cellsPerTenant: nat, limit: Admission.RateLimit, hash: string -> nat)
      ensures Valid() && tenants == map[]
      ensures this.numCells == numCells && this.cellsPerTenant == cellsPerTenant
      ensures this.limit == limit && this.hash == hash
    {
      this.numCells, this.cellsPerTenant := numCells, cellsPerTenant;
      this.limit, this.hash := limit, hash;
      tenants := map[];
    }

    function Fresh(tenant: string, now: nat): TenantState
      requires numCells > 0
    {
      TenantState(Assignment(hash(tenant), numCells, cellsPerTenant), Admission.Bucket(limit.CapacityFp(), now, 0))
    }

    function Entry(tenant: string, now: nat): TenantState
      requires tenant in tenants || numCells > 0
      reads this
    {
      if tenant in tenants then tenants[tenant] else Fresh(tenant, now)
    }

    method GetOrCreateTenant(tenant: string, now: nat) returns (state: TenantState)
      requires Valid() && Servable(tenant)
      modifies this`tenants
      ensures Valid() && state == old(Entry(tenant, now))
      ensures tenants == old(tenants)[tenant := state]
      ensures tenant in old(tenants) ==> state == old(tenants)[tenant] && tenants == old(tenants)
      ensures tenant !in old(tenants) ==>
                && state.cells == Assignment(hash(tenant), numCells, cellsPerTenant)
                && state.bucket == Admission.Bucket(1024 * limit.bucketCapacity, now, 0)
    {
      if tenant in tenants {
        state := tenants[tenant];
        assert tenants == tenants[tenant := state];
      } else {
        var cells := AssignCells(hash(tenant), numCells, cellsPerTenant);
        state := TenantState(cells, Admission.Bucket(limit.CapacityFp(), now, 0));
        tenants := tenants[tenant := state];
      }
    }

    /** A new tenant is admitted exactly its burst at once, slots permitting. */
    lemma NewTenantHasItsBurst(tenant: string, now: nat, n: nat)
      requires tenant !in tenants && numCells > 0
      requires n <= limit.bucketCapacity && n < limit.maxConcurrent
      ensures Admission.TryAcquire(limit, Admission.AcquiredTimes(limit, Entry(tenant, now).bucket, now, n), now).1
           == if n < limit.bucketCapacity then Admission.Admitted else Admission.Exhausted
    {
      Admission.BurstIsCapacity(limit, now, n);
    }

    /** The first assigned cells of a tenant; each indexes the strand table. */
    method CellsFor(tenant: string, now: nat) returns (cells: seq<nat>)
      requires Valid() && Servable(tenant)
      modifies this`tenants
      ensures Valid() && tenants == old(tenants)[tenant := old(Entry(tenant, now))]
      ensures cells == Assignment(hash(tenant), numCells, cellsPerTenant)
      ensures forall c :: c in cells ==> c < numCells
    {
      var state := GetOrCreateTenant(tenant, now);
      cells := state.cells;
      AssignmentInRange(hash(tenant), numCells, cellsPerTenant);
    }

    /** The inner loop of the refill, its exchange failing spuriously `fails` times. */
    method AddTokens(tokens: int, add: int, fails: nat) returns (after: int)
      ensures after == if tokens + add < limit.CapacityFp() then tokens + add else limit.CapacityFp()
    {
      var cur, left := tokens, fails;
      while true
        invariant cur == tokens
        decreases left
      {
        var next := if cur + add < limit.CapacityFp() then cur + add else limit.CapacityFp();
        if left == 0 {
          return next;
        }
        cur, left := tokens, left - 1;
      }
    }

    /** Refill, then consume: undisturbed loops whose weak exchanges may fail spuriously any
        number of times before they succeed. */
    method TryConsume(bucket: Admission.Bucket, now: nat, refillFails: nat, addFails: nat, takeFails: nat)
      returns (after: Admission.Bucket, ok: bool)
      ensures
        var refilled := Admission.Refilled(limit, bucket, now);
        && ok == (refilled.tokens >= Admission.TOKEN_SCALE)
        && after == if ok then refilled.(tokens := refilled.tokens - Admission.TOKEN_SCALE) else refilled
    {
      after := bucket;
      var prev, left := after.lastRefillNs, refillFails;
      while true
        invariant after == bucket && prev == bucket.lastRefillNs
        decreases left
      {
        var elapsed := Admission.SignedElapsed(now, prev);
        if elapsed == 0 {
          break;
        }
        var add := elapsed * limit.RateFpPerNs();
        if add <= 0 {
          break;
        }
        if left == 0 {
          var tokens := AddTokens(after.tokens, add, addFails);
          after := after.(tokens := tokens, lastRefillNs := now);
          break;
        }
        prev, left := after.lastRefillNs, left - 1;
      }
      assert after == Admission.Refilled(limit, bucket, now);
      var cur := after.tokens;
      left := takeFails;
      while cur >= Admission.TOKEN_SCALE
        invariant after == Admission.Refilled(limit, bucket, now) && cur == after.tokens
        decreases left
      {
        if left == 0 {
          after := after.(tokens := cur - Admission.TOKEN_SCALE);
          return after, true;
        }
        cur, left := after.tokens, left - 1;
      }
      ok := false;
    }

    /** Take a token, take a slot; give the slot back when over the cap. */
    method Acquire(bucket: Admission.Bucket, now: nat, refillFails: nat, addFails: nat, takeFails: nat)
      returns (after: Admission.Bucket, outcome: Admission.Outcome)
      ensures (after, outcome) == Admission.TryAcquire(limit, bucket, now)
    {
      var ok;
      after, ok := TryConsume(bucket, now, refillFails, addFails, takeFails);
      if !ok {
        return after, Admission.Exhausted;
      }
      var prev := after.inFlight;
      after := after.(inFlight := prev + 1);
      if prev >= limit.maxConcurrent {
        after := after.(inFlight := after.inFlight - 1);
        return after, Admission.ConcurrencyCapReached;
      }
      outcome := Admission.Admitted;
    }

    method TryAcquire(tenant: string, created: nat, now: nat, refillFails: nat, addFails: nat, takeFails: nat)
      returns (outcome: Admission.Outcome)
      requires Valid() && Servable(tenant)
      modifies this`tenants
      ensures Valid()
      ensures
        var entry := old(Entry(tenant, created));
        var (bucket, result) := Admission.TryAcquire(limit, entry.bucket, now);
        && outcome == result
        && tenants == old(tenants)[tenant := entry.(bucket := bucket)]
    {
      var state := GetOrCreateTenant(tenant, created);
      var bucket;
      bucket, outcome := Acquire(state.bucket, now, refillFails, addFails, takeFails);
      StoreAgain(old(tenants), tenant, state, state.(bucket := bucket));
      tenants := tenants[tenant := state.(bucket := bucket)];
    }

    lemma StoreAgain(m: map<string, TenantState>, t: string, first: TenantState, second: TenantState)
      ensures m[t := first][t := second] == m[t := second]
    {
    }

    method Release(tenant: string)
      requires Valid()
      modifies this`tenants
      ensures Valid()
      ensures tenant !in old(tenants) ==> tenants == old(tenants)
      ensures tenant in old(tenants) ==>
        var entry := old(tenants)[tenant];
        tenants == old(tenants)[tenant := entry.(bucket := entry.bucket.(inFlight := entry.bucket.inFlight - 1))]
    {
      if tenant in tenants {
        var state := tenants[tenant];
        tenants := tenants[tenant := state.(bucket := state.bucket.(inFlight := state.bucket.inFlight - 1))];
      }
    }
  }
}
