/** What the built-in table of BIN ranges says of a number, by its first digits. */
module BrandTable {
  import opened Luhn
  import opened BinRange
  import opened BinTable

  /** The number that the first two digits make. */
  function FirstTwo(number: Digits): nat
    requires |number| >= 2
  {
    10 * (number[0] as int) + number[1]
  }

  /** The brand of the numbers that begin with these two digits. */
  function BrandOf(n: nat): Brand {
    if n == 34 || n == 37 then Amex
    else if n == 30 || n == 36 || n == 38 || n == 39 then DinersClub
    else if n == 60 || n == 64 || n == 65 then Discover
    else if n == 35 then JCB
    else if 50 <= n <= 59 || 22 <= n <= 27 || n == 67 then Mastercard
    else if n == 62 || n == 81 then UnionPay
    else if 40 <= n <= 49 then Visa
    else Unknown
  }

  /** The first six digits of the Visa numbers of thirteen digits. */
  predicate ShortVisa(n: nat) {
    n in {413600, 444509, 444550, 450603, 450617, 450628, 450629, 450636, 450640, 450641, 450662, 463100, 476142,
          476143, 492901, 492902, 492920, 492923, 492928, 492929, 492930, 492937, 492939, 492960}
  }

  /** The length of the numbers that begin with these two digits, unless the first six make them a short Visa. */
  function LengthOf(n: nat): nat {
    if n == 34 || n == 37 then 15
    else if n == 36 then 14
    else if BrandOf(n) == Unknown then 19
    else 16
  }

  lemma EntryIs(i: nat, n: nat)
    requires i < |TWO_DIGIT| && TWO_DIGIT[i].low <= n <= TWO_DIGIT[i].high
    ensures TWO_DIGIT[i].brand == BrandOf(n) != Unknown && TWO_DIGIT[i].length == LengthOf(n)
  {}

  lemma EntryFor(n: nat) returns (i: nat)
    requires BrandOf(n) != Unknown
    ensures i < |TWO_DIGIT| && TWO_DIGIT[i].low <= n <= TWO_DIGIT[i].high
  {
    i := Owner(n);
  }

  lemma ShortEntry(k: nat, n: nat)
    requires k < |SIX_DIGIT| && SIX_DIGIT[k].0 <= n <= SIX_DIGIT[k].1
    ensures ShortVisa(n)
  {}

  lemma ShortEntryFor(n: nat) returns (k: nat)
    requires ShortVisa(n)
    ensures k < |SIX_DIGIT| && SIX_DIGIT[k].0 <= n <= SIX_DIGIT[k].1
  {
    k := if n == 413600 then 0 else if n == 444509 then 1 else if n == 444550 then 3 else if n == 450603 then 4
         else if n == 450617 then 5 else if n <= 450629 then 6 else if n == 450636 then 7 else if n <= 450641 then 8
         else if n == 450662 then 9 else if n == 463100 then 10 else if n == 476142 then 11 else if n == 476143 then 12
         else if n <= 492902 then 13 else if n == 492920 then 14 else if n == 492923 then 15 else if n <= 492930 then 16
         else if n == 492937 then 17 else if n == 492939 then 18 else 19;
  }

  /** Numbers of two or more digits match a two-digit range by their first two digits. */
  lemma TwoDigitIff(i: nat, number: Digits)
    requires i < |TWO_DIGIT| && |number| >= 2
    ensures Matches(TwoDigitRange(TWO_DIGIT[i]), number) <==>
            TWO_DIGIT[i].low <= Number(number[..2]) <= TWO_DIGIT[i].high
  {
    hide Number, TWO_DIGIT, DigitsOf, Matches;
    EntryFacts(i);
    var r := TwoDigitRange(TWO_DIGIT[i]);
    MatchesByCut(r, number);
    assert r.low[..2] == r.low && r.high[..2] == r.high;
    TwoDigits(TWO_DIGIT[i].low);
    TwoDigits(TWO_DIGIT[i].high);
  }

  /** Numbers of six or more digits match a thirteen-digit range by their first six. */
  lemma SixDigitIff(k: nat, number: Digits)
    requires k < |SIX_DIGIT| && |number| >= 6
    ensures Matches(SixDigitRange(SIX_DIGIT[k]), number) <==>
            SIX_DIGIT[k].0 <= Number(number[..6]) <= SIX_DIGIT[k].1
  {
    hide Number, SIX_DIGIT, DigitsOf, Matches;
    SixFacts(k);
    assert Pow10(6) == 1_000_000;
    var r := SixDigitRange(SIX_DIGIT[k]);
    MatchesByCut(r, number);
    assert r.low[..6] == r.low && r.high[..6] == r.high;
    DigitsNumber(SIX_DIGIT[k].0, 6);
    DigitsNumber(SIX_DIGIT[k].1, 6);
  }

  lemma TwoDigitNumber(ds: Digits)
    requires |ds| == 2
    ensures Number(ds) == FirstTwo(ds)
  {
    assert ds[..1][..0] == [];
    assert Number(ds[..1]) == ds[0];
  }

  /** Any number that matches a thirteen-digit range begins with 4. */
  lemma SixBegins(k: nat, number: Digits)
    requires k < |SIX_DIGIT| && |number| >= 2 && Matches(SixDigitRange(SIX_DIGIT[k]), number)
    requires SixDigitRange(SIX_DIGIT[k]) in BuiltIn()
    ensures number[0] == 4 && BrandOf(FirstTwo(number)) == Visa
  {
    hide SIX_DIGIT, TWO_DIGIT, DigitsOf, Matches, Number, BuiltIn;
    var r := SixDigitRange(SIX_DIGIT[k]);
    BoundsShort(r);
    ShortSound(r);
    PrefixMatches(r, number, 1);
    assert number[..1] == [number[0]];
    SixStart(k, number[0]);
  }

  /** The brand of a number of two or more digits, whichever most specific range is found. */
  lemma KnownBrand(number: Digits, r: Range)
    requires |number| >= 2 && MostSpecific(BuiltIn(), number, r)
    ensures r.brand == BrandOf(FirstTwo(number))
    ensures |r.low| == 2 ==> r.length == LengthOf(FirstTwo(number))
    ensures |r.low| == 0 ==> r.length == 19
    ensures |r.low| == 6 ==> r.length == 13 && BrandOf(FirstTwo(number)) == Visa
  {
    hide SIX_DIGIT, TWO_DIGIT, DigitsOf, Matches, Number, BuiltIn, BrandOf, LengthOf;
    var n := FirstTwo(number);
    TwoDigitNumber(number[..2]);
    TableShape(r);
    BoundsShort(r);
    if r == UNKNOWN {
      if BrandOf(n) != Unknown {
        var i := EntryFor(n);
        TwoDigitIff(i, number);
        InTable(i);
      }
    } else if i :| 0 <= i < |TWO_DIGIT| && r == TwoDigitRange(TWO_DIGIT[i]) {
      TwoDigitIff(i, number);
      EntryIs(i, n);
    } else {
      var k :| 0 <= k < |SIX_DIGIT| && r == SixDigitRange(SIX_DIGIT[k]);
      SixBegins(k, number);
    }
  }

  /** The length that validation expects of a number of six or more digits. */
  lemma KnownLength(number: Digits, r: Range)
    requires |number| >= 6 && MostSpecific(BuiltIn(), number, r)
    ensures r.length == if ShortVisa(Number(number[..6])) then 13 else LengthOf(FirstTwo(number))
  {
    hide SIX_DIGIT, TWO_DIGIT, DigitsOf, Matches, Number, BuiltIn, BrandOf, LengthOf, ShortVisa;
    KnownBrand(number, r);
    TableShape(r);
    BoundsShort(r);
    if ShortVisa(Number(number[..6])) {
      var k := ShortEntryFor(Number(number[..6]));
      SixDigitIff(k, number);
      InTable(k);
      assert |SixDigitRange(SIX_DIGIT[k]).low| == 6;
    } else if |r.low| == 6 {
      var k :| 0 <= k < |SIX_DIGIT| && r == SixDigitRange(SIX_DIGIT[k]);
      SixDigitIff(k, number);
      ShortEntry(k, Number(number[..6]));
    } else if r == UNKNOWN {
      UnknownLength(FirstTwo(number));
    }
  }

  lemma UnknownLength(n: nat)
    ensures BrandOf(n) == Unknown ==> LengthOf(n) == 19
  {}
}
