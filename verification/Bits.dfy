/** Unsigned machine arithmetic on naturals: powers of two, the bitwise operators the
    codec uses, and the C integer conversions. */
module Bits {

  type byte = x: int | 0 <= x < 256

  const TWO32: int := 0x1_0000_0000
  const TWO63: int := 0x8000_0000_0000_0000
  const TWO64: int := 0x1_0000_0000_0000_0000

  function Pow2(n: nat): (p: nat)
    ensures p > 0
  {
    if n == 0 then 1 else 2 * Pow2(n - 1)
  }

  lemma {:induction false} Pow2Sum(a: nat, b: nat)
    ensures Pow2(a + b) == Pow2(a) * Pow2(b)
  {
    if b != 0 {
      Pow2Sum(a, b - 1);
      assert Pow2(a + b) == 2 * Pow2(a + (b - 1));
    }
  }

  lemma Pow2Seven(a: nat)
    ensures Pow2(a + 7) == 128 * Pow2(a)
  {
    Pow2Sum(a, 7);
    assert Pow2(7) == 128 by { assert Pow2(4) == 16; }
  }

  lemma Pow2Monotone(a: nat, b: nat)
    requires a <= b
    ensures Pow2(a) <= Pow2(b)
  {
    if a < b { Pow2Monotone(a, b - 1); }
  }

  lemma Pow2At7() ensures Pow2(7) == 128 { assert Pow2(4) == 16; }

  lemma Pow2At28() ensures Pow2(28) == 0x1000_0000 {
    Pow2At7(); Pow2Seven(7); Pow2Seven(14); Pow2Seven(21);
  }

  lemma Pow2At25() ensures Pow2(25) == 0x200_0000 {
    Pow2At28(); Pow2Sum(25, 3);
  }

  lemma Pow2At32() ensures Pow2(32) == TWO32 {
    Pow2At28(); Pow2Sum(28, 4);
  }

  lemma Pow2At35() ensures Pow2(35) == 0x8_0000_0000 {
    Pow2At28(); Pow2Seven(28);
  }

  lemma Pow2At63() ensures Pow2(63) == TWO63 {
    Pow2At35(); Pow2At28(); Pow2Sum(35, 28);
  }

  lemma Pow2At64() ensures Pow2(64) == TWO64 {
    Pow2At63(); Pow2Sum(63, 1);
  }

  /** C's `a | b`. */
  function BitOr(a: nat, b: nat): nat
    decreases a + b
  {
    if a == 0 then b else if b == 0 then a
    else 2 * BitOr(a / 2, b / 2) + if a % 2 == 1 || b % 2 == 1 then 1 else 0
  }

  /** C's `a ^ b`. */
  function BitXor(a: nat, b: nat): nat
    decreases a + b
  {
    if a == 0 then b else if b == 0 then a
    else 2 * BitXor(a / 2, b / 2) + if a % 2 != b % 2 then 1 else 0
  }

  /** C's `x << s` in an unsigned type of `width` bits. */
  function Shl(x: nat, s: nat, width: nat): nat {
    (x * Pow2(s)) % Pow2(width)
  }

  /** Bit `k` of `x`. */
  predicate Bit(x: nat, k: nat) {
    (x / Pow2(k)) % 2 == 1
  }

  lemma HalvePow2(b: nat, k: nat)
    requires k > 0 && b % Pow2(k) == 0
    ensures b % 2 == 0 && (b / 2) % Pow2(k - 1) == 0
  {
    var p := Pow2(k - 1);
    var q := b / Pow2(k);
    assert b == q * Pow2(k) == q * (2 * p) == 2 * (q * p);
    ModMultiple(q, p);
  }

  lemma ModMultiple(q: nat, p: nat)
    requires p > 0
    ensures (q * p) % p == 0
  {
    DivUnique(q * p, p, q, 0);
  }

  /** On disjoint bit ranges `|` adds. */
  lemma {:induction false} OrDisjoint(a: nat, b: nat, k: nat)
    requires a < Pow2(k) && b % Pow2(k) == 0
    ensures BitOr(a, b) == a + b
    decreases k
  {
    if a != 0 && b != 0 {
      HalvePow2(b, k);
      OrDisjoint(a / 2, b / 2, k - 1);
    }
  }

  /** On disjoint bit ranges `^` adds. */
  lemma {:induction false} XorDisjoint(a: nat, b: nat, k: nat)
    requires a < Pow2(k) && b % Pow2(k) == 0
    ensures BitXor(a, b) == a + b
    decreases k
  {
    if a != 0 && b != 0 {
      HalvePow2(b, k);
      XorDisjoint(a / 2, b / 2, k - 1);
    }
  }

  lemma DivDiv(x: nat, k: nat)
    requires k > 0
    ensures x / Pow2(k) == (x / 2) / Pow2(k - 1)
  {
    var p := Pow2(k - 1);
    var q := (x / 2) / p;
    var r := (x / 2) % p;
    assert x / 2 == q * p + r;
    assert x == q * (2 * p) + (2 * r + x % 2) by {
      assert x == 2 * (x / 2) + x % 2;
      assert q * (2 * p) == 2 * (q * p);
    }
    DivUnique(x, 2 * p, q, 2 * r + x % 2);
  }

  lemma AtLeastOne(k: int, d: int)
    requires d > 0 && k > 0
    ensures k * d >= d
  {}

  lemma DivUnique(x: int, d: int, q: int, r: int)
    requires d > 0 && 0 <= r < d && x == q * d + r
    ensures x / d == q && x % d == r
  {
    var q', r' := x / d, x % d;
    assert x == q' * d + r';
    assert (q - q') * d == q * d - q' * d == r' - r;
    assert (q' - q) * d == q' * d - q * d;
    if q > q' {
      AtLeastOne(q - q', d);
    } else if q < q' {
      AtLeastOne(q' - q, d);
    }
  }

  lemma BitStep(x: nat, k: nat)
    requires k > 0
    ensures Bit(x, k) <==> Bit(x / 2, k - 1)
  {
    DivDiv(x, k);
  }

  /** `|` sets exactly the bits of either operand. */
  lemma {:induction false} OrBits(a: nat, b: nat, k: nat)
    ensures Bit(BitOr(a, b), k) <==> Bit(a, k) || Bit(b, k)
    decreases a + b, k
  {
    assert !Bit(0, k) by { assert 0 / Pow2(k) == 0; }
    if a != 0 && b != 0 {
      var c := BitOr(a / 2, b / 2);
      if k == 0 {
        assert Pow2(0) == 1;
      } else {
        assert BitOr(a, b) / 2 == c;
        BitStep(BitOr(a, b), k);
        BitStep(a, k);
        BitStep(b, k);
        OrBits(a / 2, b / 2, k - 1);
      }
    }
  }

  /** A single shifted bit. */
  lemma {:induction false} OneBit(s: nat, k: nat)
    ensures Bit(Pow2(s), k) <==> k == s
  {
    if s == 0 {
      assert Pow2(0) == 1;
      if k > 0 { BitStep(1, k); assert 0 / Pow2(k - 1) == 0; }
    } else if k == 0 {
      assert Pow2(0) == 1;
    } else {
      BitStep(Pow2(s), k);
      OneBit(s - 1, k - 1);
    }
  }

  /** The mask with the low `n` bits set is the only number below Pow2(m) with exactly those bits. */
  lemma {:induction false} LowMask(x: nat, n: nat, m: nat)
    requires n <= m && x < Pow2(m)
    ensures x == Pow2(n) - 1 <==> forall k: nat | k < m :: Bit(x, k) <==> k < n
    decreases m
  {
    if m > 0 {
      if n == 0 {
        LowMask(x / 2, 0, m - 1);
        BitsHalved(x, 0, m);
        assert Pow2(0) == 1;
      } else {
        LowMask(x / 2, n - 1, m - 1);
        BitsHalved(x, n, m);
      }
    }
  }

  lemma BitsHalved(x: nat, n: nat, m: nat)
    requires 0 < m && n <= m
    ensures (forall k: nat | k < m :: Bit(x, k) <==> k < n)
       <==> (x % 2 == 1 <==> 0 < n) && forall k: nat | k < m - 1 :: Bit(x / 2, k) <==> k + 1 < n
  {
    assert Bit(x, 0) <==> x % 2 == 1 by { assert Pow2(0) == 1; }
    forall k: nat | k < m - 1 ensures Bit(x / 2, k) <==> Bit(x, k + 1) { BitStep(x, k + 1); }
    if forall k: nat | k < m :: Bit(x, k) <==> k < n {
      forall k: nat | k < m - 1 ensures Bit(x / 2, k) <==> k + 1 < n { assert Bit(x, k + 1) <==> k + 1 < n; }
    }
    if (x % 2 == 1 <==> 0 < n) && forall k: nat | k < m - 1 :: Bit(x / 2, k) <==> k + 1 < n {
      forall k: nat | k < m ensures Bit(x, k) <==> k < n {
        if k > 0 { assert Bit(x / 2, k - 1) <==> k < n; BitStep(x, k); }
      }
    }
  }

  lemma {:induction false} OrBound(a: nat, b: nat, m: nat)
    requires a < Pow2(m) && b < Pow2(m)
    ensures BitOr(a, b) < Pow2(m)
    decreases m
  {
    if a != 0 && b != 0 { OrBound(a / 2, b / 2, m - 1); }
  }

  /** The signed value an `n`-value two's complement type gives to `u` (a C narrowing conversion). */
  function Signed(u: int, modulus: nat): (s: int)
    requires modulus > 0 && modulus % 2 == 0
    ensures -(modulus / 2) <= s < modulus / 2
    ensures (s - u) % modulus == 0
  {
    var m := u % modulus;
    SignedCongruent(u, modulus);
    if m >= modulus / 2 then m - modulus else m
  }

  lemma SignedCongruent(u: int, modulus: nat)
    requires modulus > 0
    ensures (u % modulus - u) % modulus == 0 && (u % modulus - modulus - u) % modulus == 0
  {
    var q := u / modulus;
    DivUnique(u % modulus - u, modulus, -q, 0);
    DivUnique(u % modulus - modulus - u, modulus, -q - 1, 0);
  }
}
