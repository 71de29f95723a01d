/** The built-in table of BIN ranges. */
module BinTable {
  import opened Bits
  import opened Luhn
  import opened BinRange

  function DigitsOf(n: nat, width: nat): (ds: Digits)
    ensures |ds| == width
  {
    if width == 0 then [] else DigitsOf(n / 10, width - 1) + [n % 10]
  }

  datatype Entry = Entry(low: nat, high: nat, length: nat, brand: Brand)

  /** The two-digit ranges of the table, in order. */
  const TWO_DIGIT: seq<Entry> := [
    Entry(34, 34, 15, Amex), Entry(37, 37, 15, Amex),
    Entry(30, 30, 16, DinersClub), Entry(36, 36, 14, DinersClub), Entry(38, 39, 16, DinersClub),
    Entry(60, 60, 16, Discover), Entry(64, 65, 16, Discover),
    Entry(35, 35, 16, JCB),
    Entry(50, 59, 16, Mastercard), Entry(22, 27, 16, Mastercard), Entry(67, 67, 16, Mastercard),
    Entry(62, 62, 16, UnionPay), Entry(81, 81, 16, UnionPay),
    Entry(40, 49, 16, Visa)]

  /** The thirteen-digit Visa ranges of the table, in order. */
  const SIX_DIGIT: seq<(nat, nat)> := [
    (413600, 413600), (444509, 444509), (444509, 444509), (444550, 444550), (450603, 450603), (450617, 450617),
    (450628, 450629), (450636, 450636), (450640, 450641), (450662, 450662), (463100, 463100), (476142, 476142),
    (476143, 476143), (492901, 492902), (492920, 492920), (492923, 492923), (492928, 492930), (492937, 492937),
    (492939, 492939), (492960, 492960)]

  function TwoDigitRange(e: Entry): Range {
    Range(e.length, e.brand, DigitsOf(e.low, 2), DigitsOf(e.high, 2), false)
  }

  function SixDigitRange(e: (nat, nat)): Range {
    Range(13, Visa, DigitsOf(e.0, 6), DigitsOf(e.1, 6), false)
  }

  /** STPBINRangeAllRanges before any metadata arrives. */
  function BuiltIn(): seq<Range> {
    [UNKNOWN]
    + seq(|TWO_DIGIT|, i requires 0 <= i < |TWO_DIGIT| => TwoDigitRange(TWO_DIGIT[i]))
    + seq(|SIX_DIGIT|, i requires 0 <= i < |SIX_DIGIT| => SixDigitRange(SIX_DIGIT[i]))
  }

  /** Every entry of the table is one of three shapes. */
  lemma TableShape(r: Range)
    requires r in BuiltIn()
    ensures r == UNKNOWN
         || (exists i | 0 <= i < |TWO_DIGIT| :: r == TwoDigitRange(TWO_DIGIT[i]))
         || (exists i | 0 <= i < |SIX_DIGIT| :: r == SixDigitRange(SIX_DIGIT[i]))
  {
    hide TWO_DIGIT, SIX_DIGIT;
  }

  lemma EntryFacts(i: nat)
    requires i < |TWO_DIGIT|
    ensures TWO_DIGIT[i].length >= 13 && TWO_DIGIT[i].brand != Unknown
    ensures TWO_DIGIT[i].low <= TWO_DIGIT[i].high < 100
  {}

  /** The only two-digit entry whose bounds can enclose `n`. */
  function Owner(n: nat): nat {
    if n == 34 then 0 else if n == 37 then 1 else if n == 30 then 2 else if n == 36 then 3
    else if 38 <= n <= 39 then 4 else if n == 60 then 5 else if 64 <= n <= 65 then 6 else if n == 35 then 7
    else if 50 <= n <= 59 then 8 else if 22 <= n <= 27 then 9 else if n == 67 then 10 else if n == 62 then 11
    else if n == 81 then 12 else 13
  }

  lemma OwnerUnique(i: nat, n: nat)
    requires i < |TWO_DIGIT| && TWO_DIGIT[i].low <= n <= TWO_DIGIT[i].high
    ensures i == Owner(n)
  {}

  lemma TwoDigits(n: nat)
    requires n < 100
    ensures Number(DigitsOf(n, 2)) == n
  {
    var ds := DigitsOf(n, 2);
    assert DigitsOf(n / 10, 1) == DigitsOf(n / 10 / 10, 0) + [n / 10 % 10] == [n / 10];
    assert ds == [n / 10, n % 10];
    assert ds[..1] == [n / 10];
    assert ds[..1][..0] == [];
    assert Number(ds[..1]) == n / 10;
  }

  lemma TwoDigitMatch(i: nat, number: Digits)
    requires i < |TWO_DIGIT| && |number| >= 2 && Matches(TwoDigitRange(TWO_DIGIT[i]), number)
    ensures TWO_DIGIT[i].low <= Number(number[..2]) <= TWO_DIGIT[i].high
  {
    hide Number, TWO_DIGIT, DigitsOf, Matches;
    EntryFacts(i);
    var r := TwoDigitRange(TWO_DIGIT[i]);
    MatchesByCut(r, number);
    assert r.low[..2] == r.low && r.high[..2] == r.high;
    TwoDigits(TWO_DIGIT[i].low);
    TwoDigits(TWO_DIGIT[i].high);
  }

  lemma BoundsShort(r: Range)
    requires r in BuiltIn()
    ensures |r.low| == |r.high| && |r.low| in {0, 2, 6}
    ensures |r.low| == 0 <==> r.brand == Unknown
    ensures r.length >= 13
    ensures |r.low| == 0 ==> r == UNKNOWN
  {
    hide TWO_DIGIT, SIX_DIGIT, DigitsOf;
    TableShape(r);
    if i :| 0 <= i < |TWO_DIGIT| && r == TwoDigitRange(TWO_DIGIT[i]) { EntryFacts(i); }
  }

  /** Equally specific matches of a number of two or more digits are of the same length and brand. */
  lemma TiesAgree(number: Digits, q: Range, r: Range)
    requires |number| >= 2 && q in BuiltIn() && r in BuiltIn() && |q.low| == |r.low|
    requires Matches(q, number) && Matches(r, number)
    ensures q.length == r.length && q.brand == r.brand
  {
    hide TWO_DIGIT, SIX_DIGIT, Matches, DigitsOf, Number, Owner;
    BoundsShort(q);
    BoundsShort(r);
    TableShape(q);
    TableShape(r);
    if |q.low| == 2 {
      var i :| 0 <= i < |TWO_DIGIT| && q == TwoDigitRange(TWO_DIGIT[i]);
      var j :| 0 <= j < |TWO_DIGIT| && r == TwoDigitRange(TWO_DIGIT[j]);
      TwoDigitMatch(i, number);
      TwoDigitMatch(j, number);
      OwnerUnique(i, Number(number[..2]));
      OwnerUnique(j, Number(number[..2]));
    }
  }

  // ---------------------------------------------------------------- numbers of one digit

  /** The first digit of a number written with `width` digits. */
  lemma {:induction false} FirstDigit(n: nat, width: nat)
    requires 0 < width && n < Pow10(width)
    ensures DigitsOf(n, width)[0] == n / Pow10(width - 1) < 10
    decreases width
  {
    if width > 1 {
      FirstDigit(n / 10, width - 1);
      var p := Pow10(width - 2);
      DivTwice(n, p);
    }
  }

  lemma DivTwice(n: nat, p: nat)
    requires p > 0
    ensures n / 10 / p == n / (10 * p)
  {
    var q, x := n / 10 / p, n / 10 % p;
    assert n == 10 * (q * p + x) + n % 10;
    assert n == q * (10 * p) + (10 * x + n % 10);
    DivUnique(n, 10 * p, q, 10 * x + n % 10);
  }

  /** A one-digit number matches a range whose bounds' first digits enclose it. */
  lemma OneDigitMatch(r: Range, d: digit)
    requires 0 < |r.low| <= 18 && 0 < |r.high| <= 18
    ensures Matches(r, [d]) <==> r.low[0] <= d <= r.high[0]
  {
    hide Matches;
    MatchesByCut(r, [d]);
    NumberOne([d]);
    NumberOne(r.low[..1]);
    NumberOne(r.high[..1]);
    assert [d][..1] == [d];
  }

  lemma NumberOne(ds: Digits)
    requires |ds| == 1
    ensures Number(ds) == ds[0]
  {
    assert ds[..0] == [];
  }

  lemma SixFacts(i: nat)
    requires i < |SIX_DIGIT|
    ensures 400_000 <= SIX_DIGIT[i].0 <= SIX_DIGIT[i].1 < 500_000
  {}

  /** All thirteen-digit ranges begin with 4. */
  lemma SixStart(i: nat, d: digit)
    requires i < |SIX_DIGIT|
    ensures Matches(SixDigitRange(SIX_DIGIT[i]), [d]) <==> d == 4
  {
    hide SIX_DIGIT, DigitsOf, Matches, Number;
    SixFacts(i);
    assert Pow10(5) == 100_000 && Pow10(6) == 1_000_000;
    FirstDigit(SIX_DIGIT[i].0, 6);
    FirstDigit(SIX_DIGIT[i].1, 6);
    OneDigitMatch(SixDigitRange(SIX_DIGIT[i]), d);
  }

  lemma TwoStart(i: nat, d: digit)
    requires i < |TWO_DIGIT|
    ensures Matches(TwoDigitRange(TWO_DIGIT[i]), [d]) <==> TWO_DIGIT[i].low / 10 <= d <= TWO_DIGIT[i].high / 10
  {
    hide TWO_DIGIT, DigitsOf, Matches, Number;
    EntryFacts(i);
    assert Pow10(1) == 10 && Pow10(2) == 100;
    FirstDigit(TWO_DIGIT[i].low, 2);
    FirstDigit(TWO_DIGIT[i].high, 2);
    OneDigitMatch(TwoDigitRange(TWO_DIGIT[i]), d);
  }

  /** Apart from 3 and 6, a first digit is that of a single two-digit entry. */
  lemma TensUnique(i: nat, j: nat, d: digit)
    requires i < |TWO_DIGIT| && j < |TWO_DIGIT| && d != 3 && d != 6
    requires TWO_DIGIT[i].low / 10 <= d <= TWO_DIGIT[i].high / 10
    requires TWO_DIGIT[j].low / 10 <= d <= TWO_DIGIT[j].high / 10
    ensures i == j
  {
    TensOwner(i, d);
    TensOwner(j, d);
  }

  lemma TensOwner(i: nat, d: digit)
    requires i < |TWO_DIGIT| && d != 3 && d != 6 && TWO_DIGIT[i].low / 10 <= d <= TWO_DIGIT[i].high / 10
    ensures i == if d == 2 then 9 else if d == 4 then 13 else if d == 5 then 8 else 12
  {}

  // ---------------------------------------------------------------- when ties agree

  /** However ties fall, mostSpecificBINRange finds the same length and brand. */
  ghost predicate Unambiguous(number: Digits) {
    forall q, r | MostSpecific(BuiltIn(), number, q) && MostSpecific(BuiltIn(), number, r) ::
      q.length == r.length && q.brand == r.brand
  }

  lemma SameWidthAgrees(number: Digits, q: Range, r: Range)
    requires MostSpecific(BuiltIn(), number, q) && MostSpecific(BuiltIn(), number, r)
    requires |q.low| != 2
    ensures q.length == r.length && q.brand == r.brand
  {
    hide TWO_DIGIT, SIX_DIGIT, Matches, DigitsOf, Number, BuiltIn;
    BoundsShort(q);
    BoundsShort(r);
    TableShape(q);
    TableShape(r);
  }

  lemma OneDigitAgrees(d: digit, q: Range, r: Range)
    requires d != 3 && d != 6 && MostSpecific(BuiltIn(), [d], q) && MostSpecific(BuiltIn(), [d], r)
    ensures q.length == r.length && q.brand == r.brand
  {
    hide TWO_DIGIT, SIX_DIGIT, Matches, DigitsOf, Number, BuiltIn;
    if |q.low| == 2 {
      TableShape(q);
      TableShape(r);
      BoundsShort(q);
      BoundsShort(r);
      var i :| 0 <= i < |TWO_DIGIT| && q == TwoDigitRange(TWO_DIGIT[i]);
      var j :| 0 <= j < |TWO_DIGIT| && r == TwoDigitRange(TWO_DIGIT[j]);
      TwoStart(i, d);
      TwoStart(j, d);
      TensUnique(i, j, d);
    } else {
      SameWidthAgrees([d], q, r);
    }
  }

  /** Nothing is entered, and every range matches: the thirteen-digit ones are the most specific. */
  lemma EmptyAgrees(q: Range, r: Range)
    requires MostSpecific(BuiltIn(), [], q) && MostSpecific(BuiltIn(), [], r)
    ensures q.length == r.length && q.brand == r.brand
  {
    hide SIX_DIGIT, TWO_DIGIT, DigitsOf, Number;
    InTable(0);
    var six := SixDigitRange(SIX_DIGIT[0]);
    MatchesByCut(six, []);
    BoundsShort(q);
    SameWidthAgrees([], q, r);
  }

  lemma InTable(i: nat)
    ensures i < |TWO_DIGIT| ==> TwoDigitRange(TWO_DIGIT[i]) in BuiltIn()
    ensures i < |SIX_DIGIT| ==> SixDigitRange(SIX_DIGIT[i]) in BuiltIn()
    ensures |TWO_DIGIT| == 14 && |SIX_DIGIT| == 20
  {
    hide DigitsOf;
    assert |TWO_DIGIT| == 14 && |SIX_DIGIT| == 20;
    if i < |TWO_DIGIT| { assert BuiltIn()[1 + i] == TwoDigitRange(TWO_DIGIT[i]); }
    if i < |SIX_DIGIT| { assert BuiltIn()[15 + i] == SixDigitRange(SIX_DIGIT[i]); }
  }

  /** On a digit other than 4, a matching two-digit entry is a most specific range. */
  lemma TwoDigitMostSpecific(i: nat, d: digit)
    requires i < |TWO_DIGIT| && d != 4 && TWO_DIGIT[i].low / 10 <= d <= TWO_DIGIT[i].high / 10
    ensures MostSpecific(BuiltIn(), [d], TwoDigitRange(TWO_DIGIT[i]))
  {
    hide TWO_DIGIT, SIX_DIGIT, Matches, DigitsOf, Number, BuiltIn;
    InTable(i);
    TwoStart(i, d);
    forall q | q in BuiltIn() && Matches(q, [d]) ensures |q.low| <= 2 {
      TableShape(q);
      if k :| 0 <= k < |SIX_DIGIT| && q == SixDigitRange(SIX_DIGIT[k]) { SixStart(k, d); }
    }
  }

  /** The digit 3 begins American Express numbers of 15 and Diners Club numbers of 14 digits, the digit 6 Discover and
      Mastercard numbers: there the range found depends on how the sort arranges ties. */
  lemma OneDigitTies()
    ensures var q, r := TwoDigitRange(TWO_DIGIT[0]), TwoDigitRange(TWO_DIGIT[3]);
            && MostSpecific(BuiltIn(), [3], q) && MostSpecific(BuiltIn(), [3], r)
            && q.length != r.length && q.brand != r.brand
    ensures var q, r := TwoDigitRange(TWO_DIGIT[5]), TwoDigitRange(TWO_DIGIT[10]);
            && MostSpecific(BuiltIn(), [6], q) && MostSpecific(BuiltIn(), [6], r)
            && q.brand != r.brand
  {
    hide DigitsOf, MostSpecific, BuiltIn;
    TwoDigitMostSpecific(0, 3);
    TwoDigitMostSpecific(3, 3);
    TwoDigitMostSpecific(5, 6);
    TwoDigitMostSpecific(10, 6);
  }

  /** Ties agree on every number except the single digits 3 and 6. */
  lemma UnambiguousIff(number: Digits)
    ensures Unambiguous(number) <==> number != [3] && number != [6]
  {
    hide BuiltIn, TWO_DIGIT, SIX_DIGIT, MostSpecific;
    OneDigitTies();
    if number != [3] && number != [6] {
      forall q, r | MostSpecific(BuiltIn(), number, q) && MostSpecific(BuiltIn(), number, r)
        ensures q.length == r.length && q.brand == r.brand
      {
        if number == [] {
          EmptyAgrees(q, r);
        } else if |number| == 1 {
          assert number == [number[0]];
          OneDigitAgrees(number[0], q, r);
        } else {
          assert |q.low| == |r.low| && q in BuiltIn() && r in BuiltIn() && Matches(q, number) && Matches(r, number) by {
            SameSpecificity(number, q, r);
          }
          TiesAgree(number, q, r);
        }
      }
    }
  }

  lemma SameSpecificity(number: Digits, q: Range, r: Range)
    requires MostSpecific(BuiltIn(), number, q) && MostSpecific(BuiltIn(), number, r)
    ensures |q.low| == |r.low| && q in BuiltIn() && r in BuiltIn() && Matches(q, number) && Matches(r, number)
  {
    hide BuiltIn, Matches;
  }

  // ---------------------------------------------------------------- numbers within a range

  lemma {:induction false} DigitsNumber(n: nat, width: nat)
    requires n < Pow10(width)
    ensures Number(DigitsOf(n, width)) == n
    decreases width
  {
    if width > 0 {
      DigitsNumber(n / 10, width - 1);
      assert DigitsOf(n, width)[..width - 1] == DigitsOf(n / 10, width - 1);
    }
  }

  /** `Int` holds numbers up to 9223372036854775807; the next one counts as zero. */
  lemma LargestInt(n: nat)
    requires n < 10_000_000_000_000_000_000
    ensures IntOrZero(DigitsOf(n, 19)) == if n <= 9_223_372_036_854_775_807 then n else 0
  {
    Pow10At18();
    assert Pow10(19) == 10_000_000_000_000_000_000;
    DigitsNumber(n, 19);
  }

  lemma {:induction false} NumberInjective(a: Digits, b: Digits)
    requires |a| == |b| && Number(a) == Number(b)
    ensures a == b
    decreases |a|
  {
    if a != [] {
      var n := |a| - 1;
      NumberInjective(a[..n], b[..n]);
      assert a == a[..n] + [a[n]] && b == b[..n] + [b[n]];
    }
  }

  lemma TensClose(i: nat)
    requires i < |TWO_DIGIT|
    ensures TWO_DIGIT[i].low / 10 == TWO_DIGIT[i].high / 10
  {}

  lemma FrontClose(i: nat)
    requires i < |SIX_DIGIT|
    ensures SIX_DIGIT[i].1 / 10 <= SIX_DIGIT[i].0 / 10 + 1
  {}

  /** Without their last digit, the bounds of a known range are at most one apart. */
  lemma BoundsClose(r: Range)
    requires r in BuiltIn() && r.brand != Unknown
    ensures |r.low| == |r.high| && |r.low| in {2, 6}
    ensures Number(r.low) <= Number(r.high)
    ensures Number(r.high[..|r.low| - 1]) <= Number(r.low[..|r.low| - 1]) + 1
  {
    hide TWO_DIGIT, SIX_DIGIT, BuiltIn, Number;
    BoundsShort(r);
    TableShape(r);
    assert Pow10(1) == 10 && Pow10(2) == 100 && Pow10(5) == 100_000 && Pow10(6) == 1_000_000;
    if i :| 0 <= i < |TWO_DIGIT| && r == TwoDigitRange(TWO_DIGIT[i]) {
      EntryFacts(i);
      TensClose(i);
      DigitsNumber(TWO_DIGIT[i].low, 2);
      DigitsNumber(TWO_DIGIT[i].high, 2);
      DropLast(TWO_DIGIT[i].low, 2);
      DropLast(TWO_DIGIT[i].high, 2);
      DigitsNumber(TWO_DIGIT[i].low / 10, 1);
      DigitsNumber(TWO_DIGIT[i].high / 10, 1);
    } else {
      var k :| 0 <= k < |SIX_DIGIT| && r == SixDigitRange(SIX_DIGIT[k]);
      SixFacts(k);
      FrontClose(k);
      DigitsNumber(SIX_DIGIT[k].0, 6);
      DigitsNumber(SIX_DIGIT[k].1, 6);
      DropLast(SIX_DIGIT[k].0, 6);
      DropLast(SIX_DIGIT[k].1, 6);
      DigitsNumber(SIX_DIGIT[k].0 / 10, 5);
      DigitsNumber(SIX_DIGIT[k].1 / 10, 5);
    }
  }

  lemma DropLast(n: nat, width: nat)
    requires width > 0
    ensures DigitsOf(n, width)[..width - 1] == DigitsOf(n / 10, width - 1)
  {}

  lemma {:induction false} CutClose(a: Digits, b: Digits, k: nat)
    requires k <= |a| == |b| && Number(b) <= Number(a) + 1
    ensures Number(b[..k]) <= Number(a[..k]) + 1
    decreases |a|
  {
    if k == |a| {
      assert a[..k] == a && b[..k] == b;
    } else {
      var n := |a| - 1;
      CutClose(a[..n], b[..n], k);
      assert a[..n][..k] == a[..k] && b[..n][..k] == b[..k];
    }
  }

  /** A number shorter than the bounds of a known range it matches is the beginning of one of them. */
  lemma ShortMatch(r: Range, number: Digits)
    requires r in BuiltIn() && r.brand != Unknown && Matches(r, number) && |number| < |r.low|
    ensures |r.low| == |r.high| && (number == r.low[..|number|] || number == r.high[..|number|])
  {
    hide BuiltIn, Matches, Number;
    BoundsClose(r);
    MatchesByCut(r, number);
    var k, n := |number|, |r.low| - 1;
    assert number[..k] == number;
    assert r.low[..k] == r.low[..n][..k] && r.high[..k] == r.high[..n][..k];
    CutClose(r.low[..n], r.high[..n], k);
    if Number(number) == Number(r.low[..k]) { NumberInjective(number, r.low[..k]); }
    else { NumberInjective(number, r.high[..k]); }
  }

  /** Any number that matches a known range can be extended within it. */
  function Extended(r: Range, number: Digits): Digits {
    if |number| >= |r.low| then number else if number <= r.low then r.low else r.high
  }

  lemma ExtendedMatches(r: Range, number: Digits)
    requires r in BuiltIn() && r.brand != Unknown && Matches(r, number)
    ensures number <= Extended(r, number) && Matches(r, Extended(r, number)) && |Extended(r, number)| >= |r.low|
    ensures |Extended(r, number)| <= if |number| > 6 then |number| else 6
  {
    hide BuiltIn, Matches, Number;
    BoundsClose(r);
    if |number| < |r.low| {
      ShortMatch(r, number);
      MatchesByCut(r, r.low);
      MatchesByCut(r, r.high);
      assert r.low[..|r.low|] == r.low && r.high[..|r.high|] == r.high;
    }
  }

  /** From six digits on, what follows does not change the most specific ranges. */
  lemma SettledBySix(number: Digits, more: Digits, r: Range)
    requires |number| >= 6 && MostSpecific(BuiltIn(), number, r)
    ensures MostSpecific(BuiltIn(), number + more, r)
  {
    hide BuiltIn, Matches;
    var all := number + more;
    assert all[..|number|] == number;
    BoundsShort(r);
    LongPrefixMatches(r, all, |number|);
    forall q | q in BuiltIn() && Matches(q, all) ensures |q.low| <= |r.low| {
      BoundsShort(q);
      LongPrefixMatches(q, all, |number|);
    }
  }

  lemma UnknownInTable()
    ensures UNKNOWN in BuiltIn()
  {
    assert BuiltIn()[0] == UNKNOWN;
  }

  /** Six digits that extend a number within a known range have a known most specific range. */
  lemma SixDigits(number: Digits, q: Range) returns (six: Digits, r: Range)
    requires |number| < 6 && q in BuiltIn() && q.brand != Unknown && Matches(q, number)
    ensures number <= six && |six| == 6 && MostSpecific(BuiltIn(), six, r) && r.brand != Unknown
  {
    hide BuiltIn, Matches;
    ExtendedMatches(q, number);
    BoundsShort(q);
    var x := Extended(q, number);
    six := x + Repeat(0, 6 - |x|);
    assert six[..|x|] == x;
    LongPrefixMatches(q, six, |x|);
    UnknownInTable();
    r := MostSpecificExists(BuiltIn(), six);
    BoundsShort(r);
  }

  /** A number that matches a known range and is not yet of its full length is the beginning of a number of full length
      that passes the Luhn check. */
  lemma Completion(number: Digits, q: Range) returns (whole: Digits, r: Range)
    requires MostSpecific(BuiltIn(), number, q) && q.brand != Unknown && |number| < q.length
    ensures number <= whole && |number| < |whole| == r.length && Passes(whole)
    ensures MostSpecific(BuiltIn(), whole, r) && r.brand != Unknown
  {
    hide BuiltIn, Matches, Passes;
    var start;
    if |number| < 6 { start, r := SixDigits(number, q); } else { start, r := number, q; }
    BoundsShort(r);
    var zeros := Repeat(0, r.length - 1 - |start|);
    var check := CheckDigit(start + zeros);
    whole := start + zeros + [check];
    assert whole == start + (zeros + [check]);
    SettledBySix(start, zeros + [check], r);
  }

  /** When nothing is entered, the most specific ranges are known. */
  lemma EmptyKnown(q: Range)
    requires MostSpecific(BuiltIn(), [], q)
    ensures q.brand != Unknown && q.length > 0
  {
    hide SIX_DIGIT, TWO_DIGIT, DigitsOf, Number;
    InTable(0);
    var six := SixDigitRange(SIX_DIGIT[0]);
    MatchesByCut(six, []);
    BoundsShort(q);
  }
}
