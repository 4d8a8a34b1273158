// Unsigned words as naturals: powers of two, bitwise exclusive or, and the few
// modular facts the shuffle-sharding argument needs.
module Bits {

  const TWO31: nat := 0x8000_0000
  const TWO32: nat := 0x1_0000_0000
  const TWO63: nat := 0x8000_0000_0000_0000
  const TWO64: nat := 0x1_0000_0000_0000_0000

  function Pow2(w: nat): (p: nat)
    ensures p > 0
  {
    if w == 0 then 1 else 2 * Pow2(w - 1)
  }

  lemma Pow2At32()
    ensures Pow2(32) == TWO32
  {
    assert Pow2(8) == 256;
    assert Pow2(16) == 65536 by { assert Pow2(12) == 4096; }
    assert Pow2(24) == 0x100_0000 by { assert Pow2(20) == 0x10_0000; }
    assert Pow2(28) == 0x1000_0000;
  }

  /** Bitwise exclusive or, bit by bit from the least significant one. */
  function Xor(a: nat, b: nat): nat
    decreases a + b
  {
    if a == 0 && b == 0 then 0
    else 2 * Xor(a / 2, b / 2) + (if a % 2 == b % 2 then 0 else 1)
  }

  lemma XorParity(a: nat, b: nat)
    ensures Xor(a, b) % 2 == (a + b) % 2
  {
    if a != 0 || b != 0 {
      LowBit(Xor(a / 2, b / 2), if a % 2 == b % 2 then 0 else 1);
      ParityOfSum(a, b);
    }
  }

  lemma LowBit(x: nat, bit: nat)
    requires bit < 2
    ensures (2 * x + bit) % 2 == bit
  {
  }

  lemma ParityOfSum(a: nat, b: nat)
    ensures (a + b) % 2 == if a % 2 == b % 2 then 0 else 1
  {
  }

  /** Exclusive or with the same word undoes itself. */
  lemma {:induction false} XorCancel(a: nat, b: nat)
    ensures Xor(a, Xor(a, b)) == b
    decreases a + b
  {
    if a != 0 || b != 0 {
      XorCancel(a / 2, b / 2);
      var x := Xor(a, b);
      assert x / 2 == Xor(a / 2, b / 2);
    }
  }

  lemma HalfThenDiv(a: nat, p: nat)
    requires p > 0
    ensures (a / 2) / p == a / (2 * p)
  {
    var q, r := (a / 2) / p, (a / 2) % p;
    assert a / 2 == q * p + r;
    var low := a % 2;
    assert a == 2 * (q * p + r) + low;
    assert 2 * (q * p) == q * (2 * p);
    ModUnique(a, 2 * p, q, 2 * r + low);
  }

  lemma XorHalf(a: nat, b: nat)
    requires a != 0 || b != 0
    ensures Xor(a, b) / 2 == Xor(a / 2, b / 2)
  {
  }

  lemma HalfBelow(x: nat, p: nat)
    requires x / 2 < p
    ensures x < 2 * p
  {
  }

  lemma HalvesAgree(a: nat, b: nat, w: nat)
    requires w > 0 && a / Pow2(w) == b / Pow2(w)
    ensures a / 2 / Pow2(w - 1) == b / 2 / Pow2(w - 1)
  {
    HalfThenDiv(a, Pow2(w - 1));
    HalfThenDiv(b, Pow2(w - 1));
  }

  /** Words that agree from bit w upwards differ only below bit w. */
  lemma {:induction false} XorBelow(a: nat, b: nat, w: nat)
    requires a / Pow2(w) == b / Pow2(w)
    ensures Xor(a, b) < Pow2(w)
    decreases w
  {
    if w == 0 {
      XorSelf(a);
    } else if a != 0 || b != 0 {
      HalvesAgree(a, b, w);
      XorBelow(a / 2, b / 2, w - 1);
      XorHalf(a, b);
      HalfBelow(Xor(a, b), Pow2(w - 1));
    }
  }

  lemma XorSelf(a: nat)
    ensures Xor(a, a) == 0
  {
  }

  /** A quotient and a remainder in range are the quotient and the remainder. */
  lemma ModUnique(a: int, n: nat, q: int, r: nat)
    requires r < n && a == q * n + r
    ensures a % n == r && a / n == q
  {
    var q', r' := a / n, a % n;
    assert (q - q') * n == r' - r;
    OnlyZeroMultiple(q - q', n);
  }

  lemma OnlyZeroMultiple(k: int, n: int)
    requires 0 < n && -n < k * n < n
    ensures k == 0
  {
    if k >= 1 {
      MulMonotone(1, k, n);
    } else if k <= -1 {
      MulMonotone(k, -1, n);
    }
  }

  lemma MulMonotone(a: int, b: int, n: int)
    requires 0 <= n && a <= b
    ensures a * n <= b * n
  {
  }

  /** Adding an even number does not change the parity. */
  lemma EvenAddend(x: int, r: int)
    ensures (2 * x + r) % 2 == r % 2
  {
  }

  lemma EvenFactor(k: int, n: int)
    requires n % 2 == 0
    ensures k * n == 2 * (k * (n / 2))
  {
    assert n == 2 * (n / 2);
  }

  /** Reducing first does not change the parity when the modulus is even. */
  lemma EvenModParity(a: nat, n: nat)
    requires n > 0 && n % 2 == 0
    ensures (a % n) % 2 == a % 2
  {
    var q := a / n;
    EvenFactor(q, n);
    EvenAddend(q * (n / 2), a % n);
  }

  lemma {:induction false} XorZero(a: nat)
    ensures Xor(a, 0) == a
  {
    if a != 0 {
      XorZero(a / 2);
    }
  }

  /** A word below bit w leaves the bits from w upwards alone. */
  lemma {:induction false} XorAbove(a: nat, b: nat, w: nat)
    requires b < Pow2(w)
    ensures Xor(a, b) / Pow2(w) == a / Pow2(w)
    decreases w
  {
    if w == 0 {
      XorZero(a);
    } else if a != 0 || b != 0 {
      var x := Xor(a, b);
      XorHalf(a, b);
      XorAbove(a / 2, b / 2, w - 1);
      HalfThenDiv(x, Pow2(w - 1));
      HalfThenDiv(a, Pow2(w - 1));
    }
  }

  lemma {:induction false} ZeroXor(b: nat)
    ensures Xor(0, b) == b
  {
    if b != 0 {
      ZeroXor(b / 2);
    }
  }

  /** Bit i of a word. */
  function Bit(a: nat, i: nat): nat {
    a / Pow2(i) % 2
  }

  lemma BitOfHalf(a: nat, i: nat)
    requires i > 0
    ensures Bit(a / 2, i - 1) == Bit(a, i)
  {
    HalfThenDiv(a, Pow2(i - 1));
  }

  /** Bit by bit, exclusive or is 1 exactly where the words differ. */
  lemma {:induction false} XorBits(a: nat, b: nat, i: nat)
    ensures Bit(Xor(a, b), i) == if Bit(a, i) == Bit(b, i) then 0 else 1
    decreases i
  {
    if i == 0 {
      XorParity(a, b);
      ParityOfSum(a, b);
    } else {
      XorHalves(a, b);
      XorBits(a / 2, b / 2, i - 1);
      BitOfHalf(a, i);
      BitOfHalf(b, i);
      BitOfHalf(Xor(a, b), i);
    }
  }

  lemma XorHalves(a: nat, b: nat)
    ensures Xor(a, b) / 2 == Xor(a / 2, b / 2)
  {
    if a != 0 || b != 0 {
      XorHalf(a, b);
    }
  }
}
