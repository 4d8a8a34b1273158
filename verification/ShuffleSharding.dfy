// K-of-N assignment: the loop that gives a tenant its cells or its owner
// instances, as a function of the tenant's 64-bit hash.
module ShuffleSharding {
  import opened Bits

  const SEEDS: seq<nat> := [
    0x9e3779b9, 0x6c62272e, 0x94d049bb, 0xe9546b25,
    0x12e15e35, 0x3b1d8f2b, 0x7c9e4ab3, 0x4f5a1c9f]

  const GOLDEN: nat := 0x9e3779b9
  // GOLDEN + 1 == 2 * HALF_STEP, and HALF_STEP * HALF_STEP_INVERSE == 1 modulo 2^31.
  const HALF_STEP: nat := 0x4f1bbcdd
  const HALF_STEP_INVERSE: nat := 0x315efb75

  /** seed + i in 32-bit arithmetic. */
  function Mask(i: nat): nat
    requires i < TWO32
  {
    var seed := if i < |SEEDS| then SEEDS[i] else (i * GOLDEN) % TWO32;
    (seed + i) % TWO32
  }

  /** The cell that index i proposes. */
  function Cell(h: nat, n: nat, i: nat): nat
    requires n > 0 && i < TWO32
  {
    Xor(h, Mask(i)) % n
  }

  predicate Stopped(n: nat, k: nat, cells: seq<nat>) {
    |cells| >= k || |cells| == n
  }

  /** The vector after at most `steps` rounds; the 32-bit counter wraps around. */
  function Run(h: nat, n: nat, k: nat, steps: nat): seq<nat>
    requires n > 0
  {
    if steps == 0 then [] else
      var cells := Run(h, n, k, steps - 1);
      if Stopped(n, k, cells) then cells
      else Extend(cells, Cell(h, n, (steps - 1) % TWO32))
  }

  function Extend(cells: seq<nat>, cell: nat): seq<nat> {
    if cell in cells then cells else cells + [cell]
  }

  /** The loop ends after some number of rounds. */
  ghost predicate Finishes(h: nat, n: nat, k: nat)
    requires n > 0
  {
    exists steps: nat :: Stopped(n, k, Run(h, n, k, steps))
  }

  /** Every cell some index proposes. */
  ghost function Reach(h: nat, n: nat): set<nat>
    requires n > 0
  {
    set i | 0 <= i < TWO32 :: Cell(h, n, i)
  }

  /** What the loop returns when it finishes. */
  function Assignment(h: nat, n: nat, k: nat): seq<nat>
    requires n > 0
  {
    Run(h, n, k, TWO32)
  }

  // ------------------------------------------------------- the constants, in their order

  /** Known answers: what the first indices propose for the hash 0 among 2^32 - 1 cells. */
  const FIRST_PROPOSALS: seq<nat> := [
    0x9e37_79b9, 0x6c62_272f, 0x94d0_49bd, 0xe954_6b28, 0x12e1_5e39,
    0x3b1d_8f30, 0x7c9e_4ab9, 0x4f5a_1ca6, 0xf1bb_cdd0, 0x8ff3_478a]

  lemma FirstMasks(i: nat)
    requires i < 10
    ensures Mask(i) == FIRST_PROPOSALS[i]
  {
  }

  lemma ProposalsOfZero(h: nat, n: nat, i: nat, mask: nat)
    requires h == 0 && i < TWO32 && mask == Mask(i) && mask < n
    ensures Cell(h, n, i) == mask
  {
    ZeroXor(mask);
    ModUnique(mask, n, 0, mask);
  }

  /** The eight seeds in their order, and the first two of the multiplicative sequence. */
  lemma KnownProposals(i: nat)
    requires i < 10
    ensures Cell(0, 0xFFFF_FFFF, i) == FIRST_PROPOSALS[i]
  {
    FirstMasks(i);
    var proposed := FIRST_PROPOSALS[i];
    assert proposed < 0xFFFF_FFFF;
    ProposalsOfZero(0, 0xFFFF_FFFF, i, proposed);
  }

  // ---------------------------------------------------------------- the loop

  ghost predicate Distinct(s: seq<nat>) {
    forall i, j :: 0 <= i < j < |s| ==> s[i] != s[j]
  }

  ghost function Elements(s: seq<nat>): set<nat> {
    set x | x in s
  }

  lemma {:induction false} DistinctSize(s: seq<nat>)
    requires Distinct(s)
    ensures |Elements(s)| == |s|
  {
    if s != [] {
      var front, last := s[..|s| - 1], s[|s| - 1];
      DistinctSize(front);
      assert s == front + [last];
      assert Elements(s) == Elements(front) + {last};
    }
  }

  lemma {:induction false} BelowSize(s: set<nat>, n: nat)
    requires forall x :: x in s ==> x < n
    ensures |s| <= n
    ensures |s| == n ==> forall x: nat :: x < n ==> x in s
  {
    if n > 0 {
      BelowSize(s - {n - 1}, n - 1);
    } else {
      assert s == {};
    }
  }

  lemma ExtendKeeps(cells: seq<nat>, cell: nat)
    requires Distinct(cells)
    ensures Distinct(Extend(cells, cell))
    ensures forall c :: c in Extend(cells, cell) <==> c in cells || c == cell
  {
  }

  lemma RunStep(h: nat, n: nat, k: nat, i: nat)
    requires n > 0 && i < TWO32
    ensures
      var cells := Run(h, n, k, i);
      Run(h, n, k, i + 1) == if Stopped(n, k, cells) then cells else Extend(cells, Cell(h, n, i))
  {
    assert i % TWO32 == i;
  }

  ghost predicate ProposedBefore(h: nat, n: nat, steps: nat, cells: seq<nat>)
    requires n > 0 && steps <= TWO32
  {
    forall i :: 0 <= i < steps ==> Cell(h, n, i) in cells
  }

  /** Before it stops, the vector holds exactly the cells proposed so far, each once. */
  lemma {:induction false} RunCollects(h: nat, n: nat, k: nat, steps: nat)
    requires n > 0 && steps <= TWO32
    ensures
      var cells := Run(h, n, k, steps);
      && Distinct(cells)
      && |cells| <= k
      && (forall c :: c in cells ==> c in Reach(h, n))
      && (!Stopped(n, k, cells) ==> ProposedBefore(h, n, steps, cells))
  {
    if steps > 0 {
      var i := steps - 1;
      RunCollects(h, n, k, i);
      RunStep(h, n, k, i);
      ExtendKeeps(Run(h, n, k, i), Cell(h, n, i));
      assert Cell(h, n, i) in Reach(h, n);
    }
  }

  lemma {:induction false} RunStaysStopped(h: nat, n: nat, k: nat, s: nat, t: nat)
    requires n > 0 && s <= t && Stopped(n, k, Run(h, n, k, s))
    ensures Run(h, n, k, t) == Run(h, n, k, s)
    decreases t
  {
    if s < t {
      RunStaysStopped(h, n, k, s, t - 1);
    }
  }

  lemma ReachBound(h: nat, n: nat)
    requires n > 0
    ensures |Reach(h, n)| <= n
  {
    forall c | c in Reach(h, n) ensures c < n {
    }
    BelowSize(Reach(h, n), n);
  }

  /** After a full turn of the counter, either the loop has stopped or it holds all of Reach. */
  lemma FullTurn(h: nat, n: nat, k: nat)
    requires n > 0
    ensures
      var cells := Assignment(h, n, k);
      && |cells| <= |Reach(h, n)|
      && (!Stopped(n, k, cells) ==> |cells| == |Reach(h, n)|)
  {
    var cells := Assignment(h, n, k);
    RunCollects(h, n, k, TWO32);
    DistinctSize(cells);
    SubsetSize(Elements(cells), Reach(h, n));
    if !Stopped(n, k, cells) {
      assert Elements(cells) == Reach(h, n);
    }
  }

  lemma {:induction false} SubsetSize(a: set<nat>, b: set<nat>)
    requires a <= b
    ensures |a| <= |b|
  {
    assert b == a + (b - a);
  }

  /** A further turn of the counter proposes nothing new. */
  lemma {:induction false} LaterTurnsAddNothing(h: nat, n: nat, k: nat, steps: nat)
    requires n > 0 && steps >= TWO32
    ensures Run(h, n, k, steps) == Assignment(h, n, k)
    decreases steps
  {
    if steps > TWO32 {
      LaterTurnsAddNothing(h, n, k, steps - 1);
      RunCollects(h, n, k, TWO32);
    }
  }

  /** The loop finishes exactly when K cells, or all N of them, are within reach. */
  lemma FinishesIff(h: nat, n: nat, k: nat)
    requires n > 0
    ensures Finishes(h, n, k) <==> k <= |Reach(h, n)| || |Reach(h, n)| == n
    ensures Finishes(h, n, k) ==> Stopped(n, k, Assignment(h, n, k))
  {
    FullTurn(h, n, k);
    ReachBound(h, n);
    if Finishes(h, n, k) {
      var steps: nat :| Stopped(n, k, Run(h, n, k, steps));
      if steps <= TWO32 {
        RunStaysStopped(h, n, k, steps, TWO32);
      } else {
        LaterTurnsAddNothing(h, n, k, steps);
      }
    } else {
      assert !Stopped(n, k, Run(h, n, k, TWO32));
    }
  }

  /** c is the cell of the first index whose proposal is not in the prefix. */
  ghost predicate FirstNew(h: nat, n: nat, prefix: seq<nat>, c: nat)
    requires n > 0
  {
    c !in prefix &&
    exists i :: 0 <= i < TWO32 && c == Cell(h, n, i) && ProposedBefore(h, n, i, prefix)
  }

  /** The declarative reading: the first min(K, N) different cells of the index sequence. */
  ghost predicate FirstDistinctCells(h: nat, n: nat, k: nat, cells: seq<nat>)
    requires n > 0
  {
    |cells| == (if k < n then k else n) && PicksFirstNew(h, n, cells)
  }

  ghost predicate PicksFirstNew(h: nat, n: nat, cells: seq<nat>)
    requires n > 0
  {
    forall p :: 0 <= p < |cells| ==> FirstNew(h, n, cells[..p], cells[p])
  }

  lemma ExtendPicksFirstNew(h: nat, n: nat, cells: seq<nat>, c: nat)
    requires n > 0 && PicksFirstNew(h, n, cells)
    requires c !in cells ==> FirstNew(h, n, cells, c)
    ensures PicksFirstNew(h, n, Extend(cells, c))
  {
    var after := Extend(cells, c);
    forall p | 0 <= p < |after| ensures FirstNew(h, n, after[..p], after[p]) {
      if p < |cells| {
        assert after[..p] == cells[..p];
      } else {
        assert after[..p] == cells;
      }
    }
  }

  lemma {:induction false} RunPicksFirstNew(h: nat, n: nat, k: nat, steps: nat)
    requires n > 0 && steps <= TWO32
    ensures PicksFirstNew(h, n, Run(h, n, k, steps))
  {
    if steps > 0 {
      var i := steps - 1;
      RunPicksFirstNew(h, n, k, i);
      RunCollects(h, n, k, i);
      RunStep(h, n, k, i);
      if !Stopped(n, k, Run(h, n, k, i)) {
        ExtendPicksFirstNew(h, n, Run(h, n, k, i), Cell(h, n, i));
      }
    }
  }

  /** A finishing loop returns the first min(K, N) different cells, and nothing else does. */
  lemma AssignmentIsFirstDistinct(h: nat, n: nat, k: nat, cells: seq<nat>)
    requires n > 0 && Finishes(h, n, k)
    ensures FirstDistinctCells(h, n, k, cells) <==> cells == Assignment(h, n, k)
  {
    var result := Assignment(h, n, k);
    FinishesIff(h, n, k);
    RunCollects(h, n, k, TWO32);
    DistinctSize(result);
    BelowSize(Elements(result), n);
    RunPicksFirstNew(h, n, k, TWO32);
    assert FirstDistinctCells(h, n, k, result);
    if FirstDistinctCells(h, n, k, cells) {
      FirstDistinctUnique(h, n, cells, result, |cells|);
      assert cells == cells[..|cells|] == result[..|cells|] == result;
    }
  }

  lemma FirstNewUnique(h: nat, n: nat, prefix: seq<nat>, c: nat, c': nat)
    requires n > 0 && FirstNew(h, n, prefix, c) && FirstNew(h, n, prefix, c')
    ensures c == c'
  {
    var i :| 0 <= i < TWO32 && c == Cell(h, n, i) && ProposedBefore(h, n, i, prefix);
    var i' :| 0 <= i' < TWO32 && c' == Cell(h, n, i') && ProposedBefore(h, n, i', prefix);
  }

  lemma PickedCell(h: nat, n: nat, cells: seq<nat>, p: nat, prefix: seq<nat>)
    requires n > 0 && p < |cells| && PicksFirstNew(h, n, cells) && prefix == cells[..p]
    ensures FirstNew(h, n, prefix, cells[p])
  {
  }

  lemma {:induction false} FirstDistinctUnique(h: nat, n: nat, a: seq<nat>, b: seq<nat>, p: nat)
    requires n > 0 && p <= |a| && p <= |b|
    requires PicksFirstNew(h, n, a) && PicksFirstNew(h, n, b)
    ensures a[..p] == b[..p]
  {
    if p > 0 {
      var q := p - 1;
      FirstDistinctUnique(h, n, a, b, q);
      var prefix := a[..q];
      PickedCell(h, n, a, q, prefix);
      PickedCell(h, n, b, q, prefix);
      FirstNewUnique(h, n, prefix, a[q], b[q]);
      assert a[..p] == prefix + [a[q]] && b[..p] == prefix + [b[q]];
    }
  }

  /** A finished assignment has min(K, N) different cells, all in range. */
  lemma AssignmentShape(h: nat, n: nat, k: nat)
    requires n > 0 && Finishes(h, n, k)
    ensures
      var cells := Assignment(h, n, k);
      && Distinct(cells)
      && |cells| == (if k < n then k else n)
      && forall c :: c in cells ==> c < n
  {
    AssignmentIsFirstDistinct(h, n, k, Assignment(h, n, k));
    RunCollects(h, n, k, TWO32);
  }

  /** Whether or not the loop finishes, it only ever collects cells in range. */
  lemma AssignmentInRange(h: nat, n: nat, k: nat)
    requires n > 0
    ensures forall c :: c in Assignment(h, n, k) ==> c < n
  {
    RunCollects(h, n, k, TWO32);
  }

  /** The head of a finishing loop after `rounds` rounds: the vector, and the wrapped counter. */
  ghost predicate AtHead(h: nat, n: nat, k: nat, rounds: nat, cells: seq<nat>, i: nat)
    requires n > 0
  {
    && rounds <= TWO32 && i == (if rounds == TWO32 then 0 else rounds)
    && cells == Run(h, n, k, rounds)
    && (if |cells| < k then |cells| != n && rounds < TWO32 else cells == Assignment(h, n, k))
  }

  lemma LoopEntry(h: nat, n: nat, k: nat)
    requires n > 0
    ensures AtHead(h, n, k, 0, [], 0)
  {
    if k == 0 {
      RunStaysStopped(h, n, k, 0, TWO32);
    }
  }

  lemma StopsByFullTurn(h: nat, n: nat, k: nat, steps: nat)
    requires n > 0 && Finishes(h, n, k) && steps <= TWO32
    ensures if Stopped(n, k, Run(h, n, k, steps)) then Run(h, n, k, steps) == Assignment(h, n, k) else steps < TWO32
  {
    if Stopped(n, k, Run(h, n, k, steps)) {
      RunStaysStopped(h, n, k, steps, TWO32);
    } else if steps == TWO32 {
      FinishesIff(h, n, k);
    }
  }

  /** One round of a finishing loop: it fills the table, or comes back to its head one round later. */
  lemma LoopRound(h: nat, n: nat, k: nat, rounds: nat, cells: seq<nat>, i: nat)
    requires n > 0 && Finishes(h, n, k) && AtHead(h, n, k, rounds, cells, i) && |cells| < k
    ensures rounds < TWO32 && i < TWO32
    ensures
      var next := Extend(cells, Cell(h, n, i));
      if |next| == n then next == Assignment(h, n, k)
      else AtHead(h, n, k, rounds + 1, next, if i + 1 == TWO32 then 0 else i + 1)
  {
    RunStep(h, n, k, rounds);
    StopsByFullTurn(h, n, k, rounds + 1);
  }

  // ------------------------------------------------- which cells are in reach

  lemma LateMask(i: nat)
    requires 8 <= i < TWO32
    ensures Mask(i) == 2 * ((i * HALF_STEP) % TWO31)
  {
    var q, r := (i * GOLDEN) / TWO32, (i * GOLDEN) % TWO32;
    var x, y := (i * HALF_STEP) / TWO31, (i * HALF_STEP) % TWO31;
    assert i * HALF_STEP == x * TWO31 + y;
    assert i * GOLDEN == q * TWO32 + r;
    assert i * GOLDEN + i == 2 * (i * HALF_STEP);
    ModUnique(r + i, TWO32, x - q, 2 * y);
  }

  /** From index 8 on, the masks are exactly the even 32-bit words. */
  lemma EveryEvenMask(m: nat) returns (i: nat)
    requires m < TWO32 && m % 2 == 0
    ensures 8 <= i < TWO32 && Mask(i) == m
  {
    var x := m / 2;
    var q, r := (x * HALF_STEP_INVERSE) / TWO31, (x * HALF_STEP_INVERSE) % TWO31;
    i := r + TWO31;
    LateMask(i);
    assert x * HALF_STEP_INVERSE == q * TWO31 + r;
    assert HALF_STEP * HALF_STEP_INVERSE == 511922708 * TWO31 + 1;
    assert i * HALF_STEP == x * (HALF_STEP_INVERSE * HALF_STEP) - q * TWO31 * HALF_STEP + TWO31 * HALF_STEP;
    ModUnique(i * HALF_STEP, TWO31, x * 511922708 - q * HALF_STEP + HALF_STEP, x);
  }

  lemma NeighbourMask(h: nat, v: nat)
    requires h / TWO32 == v / TWO32 && h % 2 == v % 2
    ensures Xor(h, v) < TWO32 && Xor(h, v) % 2 == 0
  {
    Pow2At32();
    XorBelow(h, v, 32);
    XorParity(h, v);
    ParityOfSum(h, v);
  }

  /** Every word that agrees with h above bit 31 and in bit 0 is h under some mask. */
  lemma EveryNeighbour(h: nat, v: nat) returns (i: nat)
    requires h / TWO32 == v / TWO32 && h % 2 == v % 2
    ensures i < TWO32 && Xor(h, Mask(i)) == v
  {
    NeighbourMask(h, v);
    i := EveryEvenMask(Xor(h, v));
    XorCancel(h, v);
  }

  /** The t-th such word. */
  function Neighbour(h: nat, t: nat): nat {
    h / TWO32 * TWO32 + h % 2 + 2 * t
  }

  /** The cells of all such words. */
  ghost function NeighbourCells(h: nat, n: nat): set<nat>
    requires n > 0
  {
    set t | 0 <= t < TWO31 :: Neighbour(h, t) % n
  }

  lemma NeighbourReached(h: nat, n: nat, t: nat)
    requires n > 0 && t < TWO31
    ensures Neighbour(h, t) % n in Reach(h, n)
  {
    var v := Neighbour(h, t);
    var b := h % 2;
    ModUnique(v, TWO32, h / TWO32, b + 2 * t);
    ModUnique(v, 2, h / TWO32 * TWO31 + t, b);
    var i := EveryNeighbour(h, v);
    assert Cell(h, n, i) in Reach(h, n);
  }

  /** Under an even mask h becomes such a word. */
  lemma EvenMaskNeighbour(h: nat, m: nat) returns (t: nat)
    requires m < TWO32 && m % 2 == 0
    ensures t < TWO31 && Xor(h, m) == Neighbour(h, t)
  {
    var v := Xor(h, m);
    Pow2At32();
    XorAbove(h, m, 32);
    XorParity(h, m);
    SumParity(h, m);
    EvenModParity(v, TWO32);
    t := v % TWO32 / 2;
    assert v == v / TWO32 * TWO32 + v % TWO32;
  }

  /** A neighbour that is congruent to c modulo n has c as its cell. */
  lemma NeighbourCongruent(h: nat, n: nat, c: nat, t: nat, k: int)
    requires c < n && t < TWO31 && Neighbour(h, t) == k * n + c
    ensures c in NeighbourCells(h, n)
  {
    ModUnique(Neighbour(h, t), n, k, c);
  }

  /** How far, modulo n, it is from the hash's first neighbour to c. */
  function Gap(h: nat, n: nat, c: nat): (d: nat)
    requires n > 0
    ensures d < n
  {
    (c - Neighbour(h, 0)) % n
  }

  lemma GapCloses(h: nat, n: nat, c: nat) returns (k: int)
    requires n > 0
    ensures Neighbour(h, 0) + Gap(h, n, c) == k * n + c
  {
    var q := (c - Neighbour(h, 0)) / n;
    k := -q;
    assert k * n == -(q * n);
  }

  /** The gap, or the gap and one more turn of n, is an even number of 32 bits. */
  predicate NearCell(h: nat, n: nat, c: nat)
    requires n > 0
  {
    Gap(h, n, c) % 2 == 0 || Gap(h, n, c) + n < TWO32
  }

  /** An even distance of 32 bits from the first neighbour leads to another one. */
  lemma EvenDistance(h: nat, n: nat, c: nat, e: nat, k: int)
    requires c < n && e % 2 == 0 && e < TWO32 && Neighbour(h, 0) + e == k * n + c
    ensures c in NeighbourCells(h, n)
  {
    var t := e / 2;
    assert Neighbour(h, t) == Neighbour(h, 0) + e;
    NeighbourCongruent(h, n, c, t, k);
  }

  /** With an odd number of cells, the near ones are within reach. */
  lemma NearReached(h: nat, n: nat, c: nat)
    requires n % 2 == 1 && n < TWO32 && c < n && NearCell(h, n, c)
    ensures c in NeighbourCells(h, n)
  {
    var d := Gap(h, n, c);
    var k := GapCloses(h, n, c);
    if d % 2 == 0 {
      EvenDistance(h, n, c, d, k);
    } else {
      assert (k + 1) * n == k * n + n;
      ParityOfSum(d, n);
      EvenDistance(h, n, c, d + n, k + 1);
    }
  }

  /** An odd number of cells up to 2^31: every cell is within reach of every hash. */
  lemma OddReachesAll(h: nat, n: nat, c: nat)
    requires n % 2 == 1 && n <= TWO31 && c < n
    ensures c in Reach(h, n)
  {
    NearReached(h, n, c);
    var t :| 0 <= t < TWO31 && c == Neighbour(h, t) % n;
    NeighbourReached(h, n, t);
  }

  /** Beyond that, no other cell is a neighbour's. */
  lemma NeighbourIsNear(h: nat, n: nat, t: nat)
    requires n % 2 == 1 && TWO31 < n < TWO32 && t < TWO31
    ensures NearCell(h, n, Neighbour(h, t) % n)
  {
    var c, q := Neighbour(h, t) % n, Neighbour(h, t) / n;
    var d := Gap(h, n, c);
    var k := GapCloses(h, n, c);
    OffByMultiple(Neighbour(h, 0), 2 * t, d, q, k, c, n);
    MultipleBelowTwo(q - k, n, 2 * t - d);
    EvenAddend(t, 0);
  }

  lemma OffByMultiple(a: int, x: int, d: int, q: int, k: int, c: int, n: int)
    requires a + x == q * n + c && a + d == k * n + c
    ensures x - d == (q - k) * n
  {
  }

  lemma MultipleBelowTwo(k: int, n: int, x: int)
    requires n > 0 && x == k * n && -n < x < 2 * n
    ensures x == 0 || x == n
  {
    if k >= 2 {
      MulMonotone(2, k, n);
    } else if k <= -1 {
      MulMonotone(k, -1, n);
    }
  }

  /** Beyond that, different neighbours have different cells. */
  lemma NeighbourCellsDiffer(h: nat, n: nat, s: nat, t: nat)
    requires n % 2 == 1 && TWO31 < n < TWO32 && s < t < TWO31
    ensures Neighbour(h, s) % n != Neighbour(h, t) % n
  {
    var p, q := Neighbour(h, s) / n, Neighbour(h, t) / n;
    if Neighbour(h, s) % n == Neighbour(h, t) % n {
      OffByMultiple(Neighbour(h, 0), 2 * t, 2 * s, q, p, Neighbour(h, s) % n, n);
      MultipleBelowTwo(q - p, n, 2 * (t - s));
      assert false;
    }
  }

  ghost function FirstNeighbourCells(h: nat, n: nat, m: nat): set<nat>
    requires n > 0
  {
    set t | 0 <= t < m :: Neighbour(h, t) % n
  }

  lemma {:induction false} NeighbourCellsSize(h: nat, n: nat, m: nat)
    requires n % 2 == 1 && TWO31 < n < TWO32 && m <= TWO31
    ensures |FirstNeighbourCells(h, n, m)| == m
  {
    var cells := FirstNeighbourCells(h, n, m);
    if m == 0 {
      assert cells == {};
    } else {
      var front, last := FirstNeighbourCells(h, n, m - 1), Neighbour(h, m - 1) % n;
      NeighbourCellsSize(h, n, m - 1);
      if last in front {
        var s :| 0 <= s < m - 1 && last == Neighbour(h, s) % n;
        NeighbourCellsDiffer(h, n, s, m - 1);
        assert false;
      }
      assert cells == front + {last};
    }
  }

  /** An even number of cells: every cell of the hash's parity is within reach. */
  lemma EvenReachesOwnParity(h: nat, n: nat, c: nat)
    requires n > 0 && n % 2 == 0 && n <= TWO32 && c < n && c % 2 == h % 2
    ensures c in NeighbourCells(h, n)
  {
    var d := Gap(h, n, c);
    var k := GapCloses(h, n, c);
    EvenGap(h, n, c, d, k);
    EvenDistance(h, n, c, d, k);
  }

  lemma EvenGap(h: nat, n: nat, c: nat, d: nat, k: int)
    requires n % 2 == 0 && c % 2 == h % 2 && Neighbour(h, 0) + d == k * n + c
    ensures d % 2 == 0
  {
    EvenFactor(k, n);
    EvenAddend(k * (n / 2), c);
    assert Neighbour(h, 0) == 2 * (h / TWO32 * TWO31) + h % 2;
    EvenAddend(h / TWO32 * TWO31, h % 2 + d);
  }

  /** The cells proposed by the only indices with odd masks. */
  function OddMaskCells(h: nat, n: nat): set<nat>
    requires n > 0
  {
    {Cell(h, n, 0), Cell(h, n, 1), Cell(h, n, 2), Cell(h, n, 4), Cell(h, n, 6)}
  }

  function ParityCells(b: nat, n: nat): set<nat> {
    set c | 0 <= c < n && c % 2 == b
  }

  lemma ParityCellsGrow(b: nat, n: nat)
    requires b < 2 && n > 0 && n % 2 == 0
    ensures ParityCells(b, n) == ParityCells(b, n - 2) + {n - 2 + b}
  {
    forall c
      ensures c in ParityCells(b, n) <==> c in ParityCells(b, n - 2) + {n - 2 + b}
    {
    }
  }

  lemma {:induction false} ParityCellsSize(b: nat, n: nat)
    requires b < 2 && n % 2 == 0
    ensures |ParityCells(b, n)| == n / 2
  {
    if n > 0 {
      ParityCellsSize(b, n - 2);
      ParityCellsGrow(b, n);
    } else {
      assert ParityCells(b, n) == {};
    }
  }

  predicate OddMaskIndex(i: nat) {
    i in {0, 1, 2, 4, 6}
  }

  lemma MaskParity(i: nat)
    requires i < TWO32
    ensures Mask(i) % 2 == 1 <==> OddMaskIndex(i)
  {
    if i >= 8 {
      LateMask(i);
    }
  }

  lemma EvenCellParity(h: nat, n: nat, i: nat)
    requires n > 0 && n % 2 == 0 && i < TWO32
    ensures Cell(h, n, i) % 2 == h % 2 <==> !OddMaskIndex(i)
  {
    var m := Mask(i);
    MaskParity(i);
    XoredParity(h, n, m);
    assert Cell(h, n, i) == Xor(h, m) % n;
  }

  lemma XoredParity(h: nat, n: nat, m: nat)
    requires n > 0 && n % 2 == 0
    ensures (Xor(h, m) % n) % 2 == h % 2 <==> m % 2 == 0
  {
    EvenModParity(Xor(h, m), n);
    XorParity(h, m);
    SumParity(h, m);
  }

  lemma SumParity(a: nat, b: nat)
    ensures (a + b) % 2 == a % 2 <==> b % 2 == 0
  {
  }

  /** Any number of cells: the neighbours' cells, and the five odd-mask cells. */
  lemma ReachSplit(h: nat, n: nat)
    requires n > 0
    ensures Reach(h, n) == NeighbourCells(h, n) + OddMaskCells(h, n)
  {
    var own, odd := NeighbourCells(h, n), OddMaskCells(h, n);
    forall i | 0 <= i < TWO32
      ensures Cell(h, n, i) in own + odd
    {
      MaskParity(i);
      if !OddMaskIndex(i) {
        var t := EvenMaskNeighbour(h, Mask(i));
      }
    }
    forall c | c in own
      ensures c in Reach(h, n)
    {
      var t :| 0 <= t < TWO31 && c == Neighbour(h, t) % n;
      NeighbourReached(h, n, t);
    }
    assert forall c :: c in odd ==> exists i :: 0 <= i < TWO32 && OddMaskIndex(i) && c == Cell(h, n, i);
  }

  /** An even number of cells: the hash's own parity, and the five odd-mask cells. */
  lemma EvenReach(h: nat, n: nat)
    requires n > 0 && n % 2 == 0 && n <= TWO32
    ensures Reach(h, n) == ParityCells(h % 2, n) + OddMaskCells(h, n)
    ensures ParityCells(h % 2, n) !! OddMaskCells(h, n)
    ensures |Reach(h, n)| == n / 2 + |OddMaskCells(h, n)|
  {
    var own, odd := ParityCells(h % 2, n), OddMaskCells(h, n);
    forall i | 0 <= i < TWO32
      ensures Cell(h, n, i) in (if OddMaskIndex(i) then odd else own)
      ensures OddMaskIndex(i) ==> Cell(h, n, i) !in own
    {
      EvenCellParity(h, n, i);
    }
    ReachSplit(h, n);
    forall c | c in own ensures c in Reach(h, n) {
      EvenReachesOwnParity(h, n, c);
    }
    assert Reach(h, n) == own + odd;
    ParityCellsSize(h % 2, n);
  }

  /** The odd-mask cells that are no neighbour's. */
  function StrayCells(h: nat, n: nat): set<nat>
    requires n > 0
  {
    set c | c in OddMaskCells(h, n) && !NearCell(h, n, c)
  }

  /** An odd number of cells above 2^31: one cell a neighbour, and the stray ones. */
  lemma OddReach(h: nat, n: nat)
    requires n % 2 == 1 && TWO31 < n < TWO32
    ensures Reach(h, n) == NeighbourCells(h, n) + StrayCells(h, n)
    ensures NeighbourCells(h, n) !! StrayCells(h, n)
    ensures |Reach(h, n)| == TWO31 + |StrayCells(h, n)|
  {
    var own, stray := NeighbourCells(h, n), StrayCells(h, n);
    ReachSplit(h, n);
    forall c | c in own
      ensures NearCell(h, n, c)
    {
      var t :| 0 <= t < TWO31 && c == Neighbour(h, t) % n;
      NeighbourIsNear(h, n, t);
    }
    forall c | c in OddMaskCells(h, n) && NearCell(h, n, c)
      ensures c in own
    {
      NearReached(h, n, c);
    }
    NeighbourCellsSize(h, n, TWO31);
    assert own == FirstNeighbourCells(h, n, TWO31);
  }

  // ------------------------------------------------------------- termination

  /** How many cells some index proposes. */
  function ReachSize(h: nat, n: nat): nat
    requires n > 0
  {
    if n % 2 == 0 then n / 2 + |OddMaskCells(h, n)|
    else if n <= TWO31 then n
    else TWO31 + |StrayCells(h, n)|
  }

  /** What a caller can check before starting the loop. */
  predicate Assignable(h: nat, n: nat, k: nat)
    requires n > 0
  {
    k <= ReachSize(h, n) || ReachSize(h, n) == n
  }

  lemma ReachHasSize(h: nat, n: nat)
    requires 0 < n < TWO32
    ensures |Reach(h, n)| == ReachSize(h, n)
  {
    if n % 2 == 0 {
      EvenReach(h, n);
    } else if n <= TWO31 {
      forall c: nat | c < n ensures c in Reach(h, n) {
        OddReachesAll(h, n, c);
      }
      ReachBound(h, n);
      AtLeastSize(Reach(h, n), n);
    } else {
      OddReach(h, n);
    }
  }

  /** For every hash, every number of cells and every K, the loop finishes exactly when
      Assignable says so. */
  lemma TerminationIff(h: nat, n: nat, k: nat)
    requires 0 < n < TWO32
    ensures Finishes(h, n, k) <==> Assignable(h, n, k)
  {
    FinishesIff(h, n, k);
    ReachHasSize(h, n);
  }

  lemma {:induction false} AtLeastSize(s: set<nat>, n: nat)
    requires forall c: nat :: c < n ==> c in s
    ensures |s| >= n
  {
    if n > 0 {
      AtLeastSize(s - {n - 1}, n - 1);
    }
  }

  /** An odd cell count up to 2^31 always works, whatever K is; any count works up to half its size. */
  lemma AlwaysFinishes(h: nat, n: nat, k: nat)
    requires 0 < n < TWO32
    requires (n % 2 == 1 && n <= TWO31) || k <= n / 2
    ensures Finishes(h, n, k)
  {
    TerminationIff(h, n, k);
  }

  /** An even cell count never works beyond half its size plus five, for any tenant. */
  lemma NeverFinishes(h: nat, n: nat, k: nat)
    requires 10 < n < TWO32 && n % 2 == 0 && k > n / 2 + 5
    ensures !Finishes(h, n, k)
  {
    TerminationIff(h, n, k);
    OddMaskCellsAtMostFive(h, n);
  }

  lemma OddMaskCellsAtMostFive(h: nat, n: nat)
    requires n > 0
    ensures 1 <= |OddMaskCells(h, n)| <= 5
  {
    var a, b, c, d, e := Cell(h, n, 0), Cell(h, n, 1), Cell(h, n, 2), Cell(h, n, 4), Cell(h, n, 6);
    var s2 := {a} + {b};
    var s3 := s2 + {c};
    var s4 := s3 + {d};
    assert OddMaskCells(h, n) == s4 + {e};
    assert |s2| <= 2 && |s3| <= 3 && |s4| <= 4;
  }
}
