/** BIN ranges: matching by truncation, the most specific range, and the built-in table. */
module BinRange {
  import opened Luhn

  datatype Brand = Unknown | Amex | DinersClub | Discover | JCB | Mastercard | UnionPay | Visa

  datatype Range = Range(length: nat, brand: Brand, low: Digits, high: Digits, isCardMetadata: bool)

  const INT_MAX: int := 0x7FFF_FFFF_FFFF_FFFF

  /** The number a string of digits denotes. */
  function Number(ds: Digits): nat {
    if ds == [] then 0 else 10 * Number(ds[..|ds| - 1]) + ds[|ds| - 1]
  }

  /** `Int(s) ?? 0`: zero for the empty string and for numbers beyond a 64-bit Int. */
  function IntOrZero(ds: Digits): int {
    if Number(ds) <= INT_MAX then Number(ds) else 0
  }

  predicate LowMatches(r: Range, number: Digits) {
    if |number| < |r.low| then IntOrZero(number) >= IntOrZero(r.low[..|number|])
    else IntOrZero(number[..|r.low|]) >= IntOrZero(r.low)
  }

  predicate HighMatches(r: Range, number: Digits) {
    if |number| < |r.high| then IntOrZero(number) <= IntOrZero(r.high[..|number|])
    else IntOrZero(number[..|r.high|]) <= IntOrZero(r.high)
  }

  /** matchesNumber: compare with each bound after cutting the longer of the two to the shorter. */
  predicate Matches(r: Range, number: Digits) {
    LowMatches(r, number) && HighMatches(r, number)
  }

  // ---------------------------------------------------------------- truncation is monotone

  function Pow10(n: nat): (p: nat)
    ensures p > 0
  {
    if n == 0 then 1 else 10 * Pow10(n - 1)
  }

  lemma {:induction false} NumberBound(ds: Digits)
    ensures Number(ds) < Pow10(|ds|)
    decreases |ds|
  {
    if ds != [] { NumberBound(ds[..|ds| - 1]); }
  }

  lemma {:induction false} Pow10Monotone(a: nat, b: nat)
    requires a <= b
    ensures Pow10(a) <= Pow10(b)
    decreases b
  {
    if a < b { Pow10Monotone(a, b - 1); }
  }

  lemma Pow10At18()
    ensures Pow10(18) == 1_000_000_000_000_000_000
  {
    assert Pow10(6) == 1_000_000;
    assert Pow10(12) == 1_000_000_000_000;
  }

  /** Up to 18 digits `Int` does not overflow. */
  lemma NoOverflow(ds: Digits)
    requires |ds| <= 18
    ensures IntOrZero(ds) == Number(ds)
  {
    NumberBound(ds);
    Pow10Monotone(|ds|, 18);
    Pow10At18();
  }

  /** Cutting two numbers of the same length to the same length keeps their order. */
  lemma {:induction false} CutMonotone(a: Digits, b: Digits, k: nat)
    requires k <= |a| == |b| && Number(a) <= Number(b)
    ensures Number(a[..k]) <= Number(b[..k])
    decreases |a|
  {
    if k == |a| {
      assert a[..k] == a && b[..k] == b;
    } else {
      var n := |a| - 1;
      assert Number(a[..n]) <= Number(b[..n]);
      CutMonotone(a[..n], b[..n], k);
      assert a[..n][..k] == a[..k] && b[..n][..k] == b[..k];
    }
  }

  function Min(a: nat, b: nat): nat { if a < b then a else b }

  lemma {:induction false} CutSmaller(ds: Digits, k: nat)
    requires k <= |ds|
    ensures Number(ds[..k]) <= Number(ds)
    decreases |ds|
  {
    if k < |ds| {
      CutSmaller(ds[..|ds| - 1], k);
      assert ds[..|ds| - 1][..k] == ds[..k];
    } else {
      assert ds[..k] == ds;
    }
  }

  /** The cuts that each bound compares. */
  lemma MatchesCut(r: Range, number: Digits)
    ensures var m := Min(|number|, |r.low|);
            LowMatches(r, number) <==> IntOrZero(number[..m]) >= IntOrZero(r.low[..m])
    ensures var n := Min(|number|, |r.high|);
            HighMatches(r, number) <==> IntOrZero(number[..n]) <= IntOrZero(r.high[..n])
  {
    hide Number;
    assert |number| <= |r.low| ==> number[..|number|] == number;
    assert |number| <= |r.high| ==> number[..|number|] == number;
    assert r.low[..|r.low|] == r.low && r.high[..|r.high|] == r.high;
  }

  /** Matches as one comparison of numbers per bound, for bounds that cannot overflow. */
  lemma MatchesByCut(r: Range, number: Digits)
    requires |r.low| <= 18 && |r.high| <= 18
    ensures Matches(r, number) <==>
            && Number(number[..Min(|number|, |r.low|)]) >= Number(r.low[..Min(|number|, |r.low|)])
            && Number(number[..Min(|number|, |r.high|)]) <= Number(r.high[..Min(|number|, |r.high|)])
  {
    hide Number, IntOrZero, LowMatches, HighMatches;
    var m, n := Min(|number|, |r.low|), Min(|number|, |r.high|);
    MatchesCut(r, number);
    NoOverflow(number[..m]);
    NoOverflow(r.low[..m]);
    NoOverflow(number[..n]);
    NoOverflow(r.high[..n]);
  }

  function Repeat(d: digit, n: nat): (ds: Digits)
    ensures |ds| == n
  {
    if n == 0 then [] else Repeat(d, n - 1) + [d]
  }

  lemma {:induction false} RepeatNumber(n: nat)
    ensures Number(Repeat(0, n)) == 0 && Number(Repeat(9, n)) == Pow10(n) - 1
  {
    if n > 0 {
      RepeatNumber(n - 1);
      assert Repeat(0, n)[..n - 1] == Repeat(0, n - 1) && Repeat(9, n)[..n - 1] == Repeat(9, n - 1);
    }
  }

  lemma {:induction false} RepeatCut(d: digit, n: nat, k: nat)
    requires k <= n
    ensures Repeat(d, n)[..k] == Repeat(d, k)
  {
    if k < n { RepeatCut(d, n - 1, k); }
  }

  /** Only nines make the largest number of their length. */
  lemma {:induction false} OnlyNines(ds: Digits)
    requires Number(ds) == Pow10(|ds|) - 1
    ensures ds == Repeat(9, |ds|)
    decreases |ds|
  {
    if ds != [] {
      var front := ds[..|ds| - 1];
      NumberBound(front);
      OnlyNines(front);
      assert ds == front + [9];
    }
  }

  lemma ZerosCut(n: nat, k: nat)
    requires k <= n
    ensures IntOrZero(Repeat(0, n)[..k]) == 0
  {
    RepeatCut(0, n, k);
    RepeatNumber(k);
  }

  /** Every range a number matches is matched by each of its prefixes. */
  ghost predicate Monotone(r: Range) {
    forall number: Digits, k: nat | k <= |number| && Matches(r, number) :: Matches(r, number[..k])
  }

  /** What makes a range of at most 19 digits monotone: an Int can hold the low bound; and a high bound of 19 digits
      comes with a positive low bound of 19 digits, or begins with eighteen nines. */
  predicate SoundBounds(r: Range) {
    && Number(r.low) <= INT_MAX
    && (|r.high| == 19 ==> (|r.low| == 19 && Number(r.low) > 0) || r.high[..18] == Repeat(9, 18))
  }

  lemma LowMonotone(r: Range, number: Digits, k: nat)
    requires |r.low| <= 19 && Number(r.low) <= INT_MAX && k <= |number| && LowMatches(r, number)
    ensures LowMatches(r, number[..k])
  {
    hide Number, LowMatches, HighMatches;
    var m, m' := Min(|number|, |r.low|), Min(k, |r.low|);
    MatchesCut(r, number);
    MatchesCut(r, number[..k]);
    assert number[..k][..m'] == number[..m][..m'] == number[..m'];
    assert r.low[..m][..m'] == r.low[..m'] && r.low[..|r.low|] == r.low;
    CutSmaller(r.low, m);
    CutSmaller(r.low, m');
    if m' < m { NoOverflow(number[..m']); }
    if Number(number[..m]) <= INT_MAX {
      CutMonotone(r.low[..m], number[..m], m');
    } else if m' < m {
      if m < 19 { NoOverflow(number[..m]); }
    }
  }

  lemma HighMonotone(r: Range, number: Digits, k: nat)
    requires |r.low| <= 19 && |r.high| <= 19 && SoundBounds(r) && k <= |number| && Matches(r, number)
    ensures HighMatches(r, number[..k])
  {
    hide Number, LowMatches, HighMatches;
    var n, n' := Min(|number|, |r.high|), Min(k, |r.high|);
    MatchesCut(r, number);
    MatchesCut(r, number[..k]);
    assert number[..k][..n'] == number[..n][..n'] == number[..n'];
    assert r.high[..n][..n'] == r.high[..n'];
    if n' < n {
      NoOverflow(number[..n']);
      NoOverflow(r.high[..n']);
      if |r.high| == 19 && r.high[..18] == Repeat(9, 18) {
        assert r.high[..n'] == r.high[..18][..n'];
        RepeatCut(9, 18, n');
        RepeatNumber(n');
        NumberBound(number[..n']);
      } else {
        if n < 19 { NoOverflow(number[..n]); NoOverflow(r.high[..n]); }
        assert r.low[..|r.low|] == r.low;
        CutMonotone(number[..n], r.high[..n], n');
      }
    }
  }

  /** Every range a number matches is matched by each of its prefixes. */
  lemma PrefixMatches(r: Range, number: Digits, k: nat)
    requires |r.low| <= 19 && |r.high| <= 19 && SoundBounds(r) && k <= |number| && Matches(r, number)
    ensures Matches(r, number[..k])
  {
    hide Number, LowMatches, HighMatches;
    LowMonotone(r, number, k);
    HighMonotone(r, number, k);
  }

  /** A low bound that no Int can hold counts as zero: nineteen zeros match it, and their first eighteen do not. */
  lemma ZerosRefute(r: Range)
    requires |r.low| <= 19 && |r.high| <= 19 && Number(r.low) > INT_MAX
    ensures Matches(r, Repeat(0, 19)) && !Matches(r, Repeat(0, 19)[..18])
  {
    hide Number, LowMatches, HighMatches, Repeat, IntOrZero;
    var zeros := Repeat(0, 19);
    assert |r.low| == 19 by { LongBound(r.low); }
    MatchesCut(r, zeros);
    MatchesCut(r, zeros[..18]);
    ZerosCut(19, 19);
    ZerosCut(19, Min(19, |r.high|));
    ZerosCut(19, 18);
    assert zeros[..18][..18] == zeros[..18] && r.low[..19] == r.low;
    assert IntOrZero(r.low) == 0 by { Overflows(r.low); }
    NotNegative(r.high[..Min(19, |r.high|)]);
    FrontPositive(r.low);
  }

  lemma LongBound(ds: Digits)
    requires |ds| <= 19 && Number(ds) > INT_MAX
    ensures |ds| == 19
  {
    hide Number;
    if |ds| < 19 { NoOverflow(ds); }
  }

  lemma Overflows(ds: Digits)
    requires Number(ds) > INT_MAX
    ensures IntOrZero(ds) == 0
  {
    hide Number;
  }

  lemma NotNegative(ds: Digits)
    ensures IntOrZero(ds) >= 0
  {
    hide Number;
  }

  lemma FrontPositive(ds: Digits)
    requires |ds| == 19 && Number(ds) > INT_MAX
    ensures IntOrZero(ds[..18]) > 0
  {
    hide Number;
    NoOverflow(ds[..18]);
    LastDigit(ds);
  }

  lemma LastDigit(ds: Digits)
    requires ds != []
    ensures Number(ds) == 10 * Number(ds[..|ds| - 1]) + ds[|ds| - 1]
  {}

  /** Nineteen nines overflow and count as zero: they match whatever the first eighteen digits of the high bound are,
      while eighteen nines match nothing less than eighteen nines. */
  lemma NinesRefute(r: Range)
    requires |r.low| <= 19 && |r.high| == 19 && (|r.low| < 19 || Number(r.low) == 0) && r.high[..18] != Repeat(9, 18)
    ensures Matches(r, Repeat(9, 19)) && !Matches(r, Repeat(9, 19)[..18])
  {
    hide Number, LowMatches, HighMatches, Repeat;
    var nines := Repeat(9, 19);
    MatchesCut(r, nines);
    MatchesCut(r, nines[..18]);
    RepeatNumber(19);
    RepeatNumber(18);
    RepeatCut(9, 19, 18);
    Pow10At18();
    assert Pow10(19) == 10 * Pow10(18);
    assert nines[..19] == nines && nines[..18][..18] == nines[..18];
    NoOverflow(r.high[..18]);
    NoOverflow(nines[..18]);
    NumberBound(r.high[..18]);
    if Number(r.high[..18]) == Pow10(18) - 1 { OnlyNines(r.high[..18]); assert false; }
    if |r.low| < 19 {
      var m := |r.low|;
      assert r.low[..m] == r.low;
      NoOverflow(r.low);
      NoOverflow(nines[..m]);
      RepeatCut(9, 19, m);
      RepeatNumber(m);
      NumberBound(r.low);
    } else {
      assert r.low[..19] == r.low;
    }
  }

  /** A concrete input: nineteen nines match a range of nineteen zeros, their first eighteen do not. */
  lemma OverflowMatches(length: nat, brand: Brand)
    ensures var r, nines := Range(length, brand, Repeat(0, 19), Repeat(0, 19), true), Repeat(9, 19);
            Matches(r, nines) && !Matches(r, nines[..18])
  {
    hide Number, Matches, Repeat;
    RepeatNumber(19);
    RepeatNumber(18);
    RepeatCut(0, 19, 18);
    Pow10At18();
    NinesRefute(Range(length, brand, Repeat(0, 19), Repeat(0, 19), true));
  }

  lemma ShortSound(r: Range)
    requires |r.low| <= 18 && |r.high| <= 18
    ensures SoundBounds(r)
  {
    hide Number;
    NoOverflow(r.low);
  }

  /** For bounds up to the length of the longest card number, truncation is monotone exactly for sound bounds. */
  lemma MonotoneIff(r: Range)
    requires |r.low| <= 19 && |r.high| <= 19
    ensures Monotone(r) <==> SoundBounds(r)
  {
    hide Matches, Number, Repeat;
    if SoundBounds(r) {
      forall number: Digits, k: nat | k <= |number| && Matches(r, number) ensures Matches(r, number[..k]) {
        PrefixMatches(r, number, k);
      }
    } else if Number(r.low) > INT_MAX {
      ZerosRefute(r);
    } else {
      NinesRefute(r);
    }
  }

  /** From the length of its bounds on, longer prefixes match a range or not alike. */
  lemma LongPrefixMatches(r: Range, number: Digits, k: nat)
    requires |r.low| <= k && |r.high| <= k <= |number|
    ensures Matches(r, number[..k]) <==> Matches(r, number)
  {
    assert number[..k][..|r.low|] == number[..|r.low|];
    assert number[..k][..|r.high|] == number[..|r.high|];
  }

  // ---------------------------------------------------------------- the most specific range

  /** A range that the sort in mostSpecificBINRange can leave last: a match no other match is more specific than. */
  predicate MostSpecific(ranges: seq<Range>, number: Digits, r: Range) {
    && r in ranges && Matches(r, number)
    && forall q | q in ranges && Matches(q, number) :: |q.low| <= |r.low|
  }

  /** Ascending by the number of digits of the low bound, as `compare` orders ranges. */
  predicate Sorted(rs: seq<Range>) {
    forall i, j | 0 <= i < j < |rs| :: |rs[i].low| <= |rs[j].low|
  }

  function Matching(ranges: seq<Range>, number: Digits): seq<Range> {
    if ranges == [] then []
    else (if Matches(ranges[0], number) then [ranges[0]] else []) + Matching(ranges[1..], number)
  }

  lemma {:induction false} MatchingMembers(ranges: seq<Range>, number: Digits)
    ensures forall r :: r in Matching(ranges, number) <==> r in ranges && Matches(r, number)
    decreases |ranges|
  {
    if ranges != [] {
      MatchingMembers(ranges[1..], number);
      assert ranges == [ranges[0]] + ranges[1..];
    }
  }

  /** The range for numbers of no known brand. */
  const UNKNOWN: Range := Range(19, Unknown, [], [], false)

  /** The range without digits is matched by every number. */
  lemma UnknownMatches(number: Digits)
    ensures Matches(UNKNOWN, number)
  {
    assert number[..0] == [];
  }

  /** mostSpecificBINRange takes the last range of the sorted matches. There is one, since the range without digits is
      in the table, and however the sort arranges equally specific ranges it is a most specific range. */
  lemma LastIsMostSpecific(ranges: seq<Range>, number: Digits, sorted: seq<Range>)
    requires UNKNOWN in ranges && Sorted(sorted) && multiset(sorted) == multiset(Matching(ranges, number))
    ensures sorted != [] && MostSpecific(ranges, number, sorted[|sorted| - 1])
  {
    hide Matches, Matching;
    MatchingMembers(ranges, number);
    UnknownMatches(number);
    SameMembers(sorted, Matching(ranges, number));
    assert UNKNOWN in sorted;
    forall q | q in ranges && Matches(q, number) ensures |q.low| <= |sorted[|sorted| - 1].low| {
      assert q in sorted;
    }
  }

  lemma SameMembers<T>(a: seq<T>, b: seq<T>)
    requires multiset(a) == multiset(b)
    ensures forall x :: x in a <==> x in b
  {
    assert forall x :: x in a <==> x in multiset(a);
    assert forall x :: x in b <==> x in multiset(b);
  }

  /** A sort by `compare`. */
  function Insert(r: Range, rs: seq<Range>): seq<Range>
    decreases |rs|
  {
    if rs == [] || |rs[|rs| - 1].low| <= |r.low| then rs + [r]
    else Insert(r, rs[..|rs| - 1]) + [rs[|rs| - 1]]
  }

  function SortRanges(rs: seq<Range>): seq<Range>
    decreases |rs|
  {
    if rs == [] then [] else Insert(rs[|rs| - 1], SortRanges(rs[..|rs| - 1]))
  }

  lemma {:induction false} InsertMembers(r: Range, rs: seq<Range>)
    ensures multiset(Insert(r, rs)) == multiset(rs) + multiset{r}
    decreases |rs|
  {
    if rs != [] {
      InsertMembers(r, rs[..|rs| - 1]);
      assert rs == rs[..|rs| - 1] + [rs[|rs| - 1]];
    }
  }

  lemma {:induction false} InsertBelow(r: Range, rs: seq<Range>, limit: nat)
    requires |r.low| <= limit && forall i | 0 <= i < |rs| :: |rs[i].low| <= limit
    ensures forall i | 0 <= i < |Insert(r, rs)| :: |Insert(r, rs)[i].low| <= limit
    decreases |rs|
  {
    if rs != [] { InsertBelow(r, rs[..|rs| - 1], limit); }
  }

  lemma AppendSorted(rs: seq<Range>, last: Range)
    requires Sorted(rs) && forall i | 0 <= i < |rs| :: |rs[i].low| <= |last.low|
    ensures Sorted(rs + [last])
  {}

  lemma {:induction false} InsertSorted(r: Range, rs: seq<Range>)
    requires Sorted(rs)
    ensures Sorted(Insert(r, rs))
    decreases |rs|
  {
    var n := |rs| - 1;
    if rs == [] || |rs[n].low| <= |r.low| {
      AppendSorted(rs, r);
    } else {
      InsertSorted(r, rs[..n]);
      InsertBelow(r, rs[..n], |rs[n].low|);
      AppendSorted(Insert(r, rs[..n]), rs[n]);
    }
  }

  lemma {:induction false} SortSorts(rs: seq<Range>)
    ensures Sorted(SortRanges(rs)) && multiset(SortRanges(rs)) == multiset(rs)
    decreases |rs|
  {
    hide Insert;
    if rs != [] {
      var n := |rs| - 1;
      SortSorts(rs[..n]);
      InsertSorted(rs[n], SortRanges(rs[..n]));
      InsertMembers(rs[n], SortRanges(rs[..n]));
      assert rs == rs[..n] + [rs[n]];
    }
  }

  /** mostSpecificBINRange. The contract promises only what every sort by specificity gives. */
  method MostSpecificBINRange(ranges: seq<Range>, number: Digits) returns (r: Range)
    requires UNKNOWN in ranges
    ensures MostSpecific(ranges, number, r)
  {
    hide Matches;
    var validRanges: seq<Range> := [];
    assert ranges[0..] == ranges;
    for i := 0 to |ranges|
      invariant validRanges + Matching(ranges[i..], number) == Matching(ranges, number)
    {
      assert ranges[i..][1..] == ranges[i + 1..];
      if Matches(ranges[i], number) { validRanges := validRanges + [ranges[i]]; }
    }
    var sorted := SortRanges(validRanges);
    SortSorts(validRanges);
    LastIsMostSpecific(ranges, number, sorted);
    return sorted[|sorted| - 1];
  }

  /** So there always is a most specific range. */
  lemma MostSpecificExists(ranges: seq<Range>, number: Digits) returns (r: Range)
    requires UNKNOWN in ranges
    ensures MostSpecific(ranges, number, r)
  {
    var sorted := SortRanges(Matching(ranges, number));
    SortSorts(Matching(ranges, number));
    LastIsMostSpecific(ranges, number, sorted);
    r := sorted[|sorted| - 1];
  }
}
