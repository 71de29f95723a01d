/** The Luhn check of card numbers (Annex B of ISO/IEC 7812-1). */
module Luhn {

  type digit = x: int | 0 <= x < 10
  type Digits = seq<digit>

  /** What a digit adds to the sum; every second one from the right is doubled. */
  function Weight(d: digit, odd: bool): nat {
    if odd then (if 2 * d > 9 then 2 * d - 9 else 2 * d) else d
  }

  /** The sum over a number from its last digit backwards. */
  function Sum(ds: Digits, odd: bool): nat {
    if ds == [] then 0 else Weight(ds[|ds| - 1], odd) + Sum(ds[..|ds| - 1], !odd)
  }

  predicate Passes(ds: Digits) {
    Sum(ds, false) % 10 == 0
  }

  /** What the digit at distance `i` from the right contributes by the standard: itself for an even distance, for an odd
      one its double, with the digits of the double added up. */
  function Part(d: digit, i: nat): nat {
    if i % 2 == 0 then d else if d >= 5 then d + d - 9 else d + d
  }

  /** The sum by position, from the first digit on. */
  function Total(ds: Digits): nat {
    if ds == [] then 0 else Part(ds[0], |ds| - 1) + Total(ds[1..])
  }

  lemma WeightIsPart(d: digit, i: nat)
    ensures Weight(d, Flipped(false, i)) == Part(d, i)
  {}

  /** The pass from the right with its flipping flag adds up the contributions by position. */
  lemma {:induction false} TotalIsSum(ds: Digits)
    ensures Sum(ds, false) == Total(ds)
    decreases |ds|
  {
    if ds != [] {
      hide Sum, Weight, Part;
      assert ds == [ds[0]] + ds[1..];
      SumSplit([ds[0]], ds[1..], false);
      SumOne(ds[0], Flipped(false, |ds| - 1));
      WeightIsPart(ds[0], |ds| - 1);
      TotalIsSum(ds[1..]);
    }
  }

  /** stringIsValidLuhn: one pass over the reversed digits with a flag that flips at each. */
  method IsValidLuhn(number: Digits) returns (valid: bool)
    ensures valid <==> Passes(number)
    ensures valid <==> Total(number) % 10 == 0
  {
    TotalIsSum(number);
    var odd := true;
    var sum: nat := 0;
    assert number[..|number|] == number;
    for i := |number| downto 0
      invariant Sum(number, false) == sum + Sum(number[..i], !odd)
    {
      var digit: int := number[i];
      odd := !odd;
      assert number[..i + 1][..i] == number[..i];
      if odd { digit := digit * 2; }
      if digit > 9 { digit := digit - 9; }
      sum := sum + digit;
    }
    return sum % 10 == 0;
  }

  predicate Flipped(odd: bool, n: nat) {
    if n % 2 == 0 then odd else !odd
  }

  /** The sum of a number is the sum of its parts, the left part starting at the parity the right part leaves. */
  lemma {:induction false} SumSplit(a: Digits, b: Digits, odd: bool)
    ensures Sum(a + b, odd) == Sum(b, odd) + Sum(a, Flipped(odd, |b|))
    decreases |b|
  {
    if b == [] {
      assert a + b == a;
    } else {
      var n := |b| - 1;
      assert (a + b)[..|a + b| - 1] == a + b[..n];
      SumSplit(a, b[..n], !odd);
      assert Flipped(!odd, n) == Flipped(odd, n + 1);
    }
  }

  lemma SumOne(d: digit, odd: bool)
    ensures Sum([d], odd) == Weight(d, odd)
  {
    assert [d][..0] == [];
    assert Sum([d][..0], !odd) == 0;
  }

  lemma SumAround(a: Digits, d: digit, b: Digits)
    ensures Sum(a + [d] + b, false) ==
            Sum(b, false) + Weight(d, Flipped(false, |b|)) + Sum(a, Flipped(false, |b| + 1))
  {
    hide Sum, Weight;
    SumSplit(a + [d], b, false);
    SumSplit(a, [d], Flipped(false, |b|));
    SumOne(d, Flipped(false, |b|));
  }

  lemma WeightInjective(c: digit, d: digit, odd: bool)
    requires c != d
    ensures Weight(c, odd) < 10 && Weight(d, odd) < 10 && Weight(c, odd) != Weight(d, odd)
  {}

  lemma NotBoth(x: nat, y: nat, rest: nat)
    requires x < 10 && y < 10 && x != y && (rest + x) % 10 == 0
    ensures (rest + y) % 10 != 0
  {}

  /** Changing one digit of a passing number, at any place, makes it fail. */
  lemma OneDigitChange(ds: Digits, i: nat, c: digit)
    requires i < |ds| && c != ds[i] && Passes(ds)
    ensures !Passes(ds[i := c])
  {
    var a, b := ds[..i], ds[i + 1..];
    assert ds == a + [ds[i]] + b && ds[i := c] == a + [c] + b;
    SumAround(a, ds[i], b);
    SumAround(a, c, b);
    var odd := Flipped(false, |b|);
    WeightInjective(c, ds[i], odd);
    NotBoth(Weight(ds[i], odd), Weight(c, odd), Sum(b, false) + Sum(a, Flipped(false, |b| + 1)));
  }

  function Pair(x: digit, y: digit, odd: bool): nat {
    Weight(y, odd) + Weight(x, !odd)
  }

  lemma SumAroundPair(a: Digits, x: digit, y: digit, b: Digits)
    ensures Sum(a + [x, y] + b, false) ==
            Sum(b, false) + Sum(a, Flipped(false, |b| + 2)) + Pair(x, y, Flipped(false, |b|))
  {
    hide Sum, Weight;
    assert a + [x, y] + b == (a + [x]) + [y] + b;
    SumAround(a + [x], y, b);
    SumSplit(a, [x], Flipped(false, |b| + 1));
    SumOne(x, Flipped(false, |b| + 1));
  }

  predicate ZeroAndNine(x: digit, y: digit) {
    (x == 0 && y == 9) || (x == 9 && y == 0)
  }

  /** What doubling adds to a digit's weight. */
  function Gain(d: digit): int {
    Weight(d, true) - Weight(d, false)
  }

  lemma GainTwins(x: digit, y: digit)
    ensures -8 <= Gain(x) - Gain(y) <= 8
    ensures Gain(x) == Gain(y) <==> x == y || ZeroAndNine(x, y)
  {
    GainValue(x);
    GainValue(y);
  }

  lemma GainValue(d: digit)
    ensures Gain(d) == if d < 5 then d else d - 9
  {}

  lemma CloseRemainders(x: nat, y: nat)
    requires -8 <= x - y <= 8
    ensures x % 10 == y % 10 <==> x == y
  {}

  /** Two digits in either order weigh the same exactly when they are equal or are 0 and 9. */
  lemma PairSwap(x: digit, y: digit, odd: bool)
    ensures Pair(x, y, odd) % 10 == Pair(y, x, odd) % 10 <==> x == y || ZeroAndNine(x, y)
  {
    hide Weight;
    GainTwins(x, y);
    CloseRemainders(Pair(x, y, odd), Pair(y, x, odd));
  }

  lemma SameRemainder(x: nat, y: nat, rest: nat)
    requires (rest + x) % 10 == 0
    ensures (rest + y) % 10 == 0 <==> x % 10 == y % 10
  {}

  /** Swapping two adjacent digits of a passing number goes unnoticed exactly when they are equal or are 0 and 9. */
  lemma AdjacentSwap(ds: Digits, i: nat)
    requires i + 1 < |ds| && Passes(ds)
    ensures Passes(ds[i := ds[i + 1]][i + 1 := ds[i]]) <==> ds[i] == ds[i + 1] || ZeroAndNine(ds[i], ds[i + 1])
  {
    hide Sum, Weight, Pair, ZeroAndNine;
    var a, b, x, y := ds[..i], ds[i + 2..], ds[i], ds[i + 1];
    assert ds == a + [x, y] + b && ds[i := y][i + 1 := x] == a + [y, x] + b;
    SumAroundPair(a, x, y, b);
    SumAroundPair(a, y, x, b);
    var odd := Flipped(false, |b|);
    SameRemainder(Pair(x, y, odd), Pair(y, x, odd), Sum(b, false) + Sum(a, Flipped(false, |b| + 2)));
    PairSwap(x, y, odd);
  }

  lemma CompletesTen(rest: nat, c: digit)
    ensures (c + rest) % 10 == 0 <==> c == (10 - rest % 10) % 10
  {}

  /** Any digits are completed to a passing number by exactly one check digit. */
  lemma CheckDigit(ds: Digits) returns (check: digit)
    ensures forall c: digit :: Passes(ds + [c]) <==> c == check
  {
    hide Sum, Weight;
    var rest := Sum(ds, true);
    check := (10 - rest % 10) % 10;
    forall c: digit ensures Passes(ds + [c]) <==> c == check {
      SumSplit(ds, [c], false);
      SumOne(c, false);
      assert Weight(c, false) == c by { PlainWeight(c); }
      CompletesTen(rest, c);
    }
  }

  lemma PlainWeight(c: digit)
    ensures Weight(c, false) == c
  {}
}
