/** Validation of card numbers as they are typed. */
module CardValidator {
  import opened Common
  import opened Luhn
  import opened BinRange
  import opened BinTable
  import opened BrandTable

  datatype State = Valid | Invalid | Incomplete

  /** CharacterSet.whitespaces: the Unicode space separators and the tab. */
  predicate IsSpace(c: char) {
    || c == ' ' || c == '\t' || c == '\U{00A0}' || c == '\U{1680}' || '\U{2000}' <= c <= '\U{200A}'
    || c == '\U{202F}' || c == '\U{205F}' || c == '\U{3000}'
  }

  predicate IsDigit(c: char) { '0' <= c <= '9' }

  /** stringByRemovingSpaces. */
  function RemoveSpaces(s: string): (r: string)
    ensures |r| <= |s|
  {
    if s == [] then []
    else RemoveSpaces(s[..|s| - 1]) + if IsSpace(s[|s| - 1]) then [] else [s[|s| - 1]]
  }

  /** stringIsNumeric. */
  predicate IsNumeric(s: string) {
    forall i | 0 <= i < |s| :: IsDigit(s[i])
  }

  function DigitsIn(s: string): (ds: Digits)
    requires IsNumeric(s)
    ensures |ds| == |s|
  {
    seq(|s|, i requires 0 <= i < |s| => (s[i] as int - '0' as int))
  }

  /** validationState(forNumber:validatingCardBrand:), given the range that mostSpecificBINRange returns. */
  function Judge(number: Option<string>, checkBrand: bool, r: Range): State {
    if number.None? then Incomplete else
    var clean := RemoveSpaces(number.value);
    if clean == [] then Incomplete
    else if !IsNumeric(clean) then Invalid
    else if r.brand == Unknown && checkBrand then Invalid
    else if |clean| == r.length then (if Passes(DigitsIn(clean)) then Valid else Invalid)
    else if |clean| > r.length then Invalid
    else Incomplete
  }

  /** `r` is a range validationState can work with for this input: its digits have it as a most specific match. */
  predicate Chosen(ranges: seq<Range>, s: string, r: Range) {
    IsNumeric(RemoveSpaces(s)) ==> MostSpecific(ranges, DigitsIn(RemoveSpaces(s)), r)
  }

  /** `state` is the judgement for some most specific range of the digits typed, when there are digits. */
  ghost predicate Judged(ranges: seq<Range>, number: Option<string>, checkBrand: bool, state: State) {
    exists r: Range :: (number.Some? ==> Chosen(ranges, number.value, r)) && state == Judge(number, checkBrand, r)
  }

  lemma JudgedBy(ranges: seq<Range>, number: Option<string>, checkBrand: bool, r: Range)
    requires number.Some? ==> Chosen(ranges, number.value, r)
    ensures Judged(ranges, number, checkBrand, Judge(number, checkBrand, r))
  {
    hide Judge, Chosen;
  }

  /** What makes the input valid, with `r` as the range found: digits, as many as the range asks for, of a brand that is
      known when brands are checked, and a sum by position that is a multiple of ten. */
  predicate Accepts(s: string, checkBrand: bool, r: Range) {
    var clean := RemoveSpaces(s);
    && clean != [] && IsNumeric(clean) && |clean| == r.length && (checkBrand ==> r.brand != Unknown)
    && Total(DigitsIn(clean)) % 10 == 0
  }

  /** What makes it invalid: a character that is no digit, an unknown brand when brands are checked, too many digits, or
      the full number of them with another sum. */
  predicate Rejects(s: string, checkBrand: bool, r: Range) {
    var clean := RemoveSpaces(s);
    && clean != []
    && ( || !IsNumeric(clean) || (checkBrand && r.brand == Unknown) || |clean| > r.length
         || (|clean| == r.length && Total(DigitsIn(clean)) % 10 != 0))
  }

  /** For some most specific range of the digits typed, the state is valid exactly for what is accepted and invalid
      exactly for what is rejected. */
  ghost predicate Decided(ranges: seq<Range>, number: Option<string>, checkBrand: bool, state: State) {
    exists r: Range :: (number.Some? ==> Chosen(ranges, number.value, r)) && DecidedBy(number, checkBrand, r, state)
  }

  predicate DecidedBy(number: Option<string>, checkBrand: bool, r: Range, state: State) {
    && (state == Valid <==> number.Some? && Accepts(number.value, checkBrand, r))
    && (state == Invalid <==> number.Some? && Rejects(number.value, checkBrand, r))
  }

  lemma JudgeDecides(number: Option<string>, checkBrand: bool, r: Range)
    ensures DecidedBy(number, checkBrand, r, Judge(number, checkBrand, r))
  {
    hide RemoveSpaces, Sum, Total;
    if number.Some? && IsNumeric(RemoveSpaces(number.value)) { TotalIsSum(DigitsIn(RemoveSpaces(number.value))); }
  }

  lemma JudgedIsDecided(ranges: seq<Range>, number: Option<string>, checkBrand: bool, state: State)
    requires Judged(ranges, number, checkBrand, state)
    ensures Decided(ranges, number, checkBrand, state)
  {
    hide Chosen, Judge, DecidedBy;
    var r: Range :| (number.Some? ==> Chosen(ranges, number.value, r)) && state == Judge(number, checkBrand, r);
    JudgeDecides(number, checkBrand, r);
  }

  /** validationState by the source's branches, with the look-up of the range and the Luhn loop. */
  method ValidationState(number: Option<string>, checkBrand: bool, ranges: seq<Range>) returns (state: State)
    requires UNKNOWN in ranges
    ensures Judged(ranges, number, checkBrand, state)
    ensures Decided(ranges, number, checkBrand, state)
  {
    hide MostSpecific, RemoveSpaces, Passes, Judged, Decided;
    state := Incomplete;
    if number.None? {
      JudgedBy(ranges, number, checkBrand, UNKNOWN);
    } else {
      var clean := RemoveSpaces(number.value);
      ghost var r := UNKNOWN;
      if IsNumeric(clean) { r := MostSpecificExists(ranges, DigitsIn(clean)); }
      JudgedBy(ranges, number, checkBrand, r);
      if |clean| > 0 {
        if IsNumeric(clean) {
          var binRange := MostSpecificBINRange(ranges, DigitsIn(clean));
          JudgedBy(ranges, number, checkBrand, binRange);
          if binRange.brand == Unknown && checkBrand {
            state := Invalid;
          } else if |clean| == binRange.length {
            var valid := IsValidLuhn(DigitsIn(clean));
            state := if valid then Valid else Invalid;
          } else {
            state := if |clean| > binRange.length then Invalid else Incomplete;
          }
        } else {
          state := Invalid;
        }
      }
    }
    JudgedIsDecided(ranges, number, checkBrand, state);
  }

  // ---------------------------------------------------------------- the input

  /** Removing spaces goes character by character. */
  lemma {:induction false} SpacesApart(s: string, t: string)
    ensures RemoveSpaces(s + t) == RemoveSpaces(s) + RemoveSpaces(t)
    decreases |t|
  {
    if t == [] {
      assert s + t == s && RemoveSpaces(s) + [] == RemoveSpaces(s);
    } else {
      var n := |t| - 1;
      assert (s + t)[..|s + t| - 1] == s + t[..n];
      SpacesApart(s, t[..n]);
      var last := if IsSpace(t[n]) then [] else [t[n]];
      assert RemoveSpaces(s) + (RemoveSpaces(t[..n]) + last) == RemoveSpaces(s) + RemoveSpaces(t[..n]) + last;
    }
  }

  /** The characters removed are the tab, the space, and the other Unicode characters of category Zs. */
  lemma OneCharacter(c: char)
    ensures RemoveSpaces([c]) ==
            if c as int in {0x9, 0x20, 0xA0, 0x1680, 0x202F, 0x205F, 0x3000} || 0x2000 <= c as int <= 0x200A then []
            else [c]
  {
    assert [c][..0] == [];
    assert RemoveSpaces([]) == [];
  }

  /** Digits by their character codes. */
  lemma DigitCodes(s: string)
    ensures IsNumeric(s) <==> forall i | 0 <= i < |s| :: 48 <= s[i] as int <= 57
    ensures IsNumeric(s) ==> forall i | 0 <= i < |s| :: DigitsIn(s)[i] == s[i] as int - 48
  {}

  /** With the built-in table and brand checking, in terms of what was typed alone: the valid inputs are those whose
      digits sum up to a multiple of ten and are as many as their first digits ask for. */
  lemma ValidIff(s: string, r: Range)
    requires Chosen(BuiltIn(), s, r)
    ensures Judge(Some(s), true, r) == Valid <==>
            var clean := RemoveSpaces(s);
            && IsNumeric(clean) && |clean| >= 13 && Total(DigitsIn(clean)) % 10 == 0
            && BrandOf(FirstTwo(DigitsIn(clean))) != Unknown
            && |clean| == if ShortVisa(Number(DigitsIn(clean)[..6])) then 13 else LengthOf(FirstTwo(DigitsIn(clean)))
  {
    hide BuiltIn, MostSpecific, Sum, Total, RemoveSpaces, BrandOf, LengthOf, ShortVisa, Number, FirstTwo;
    var clean := RemoveSpaces(s);
    JudgeDecides(Some(s), true, r);
    if IsNumeric(clean) {
      assert r in BuiltIn() by { InTheTable(DigitsIn(clean), r); }
      BoundsShort(r);
      if |clean| >= 13 {
        KnownBrand(DigitsIn(clean), r);
        KnownLength(DigitsIn(clean), r);
      }
    }
  }

  lemma InTheTable(number: Digits, r: Range)
    requires MostSpecific(BuiltIn(), number, r)
    ensures r in BuiltIn()
  {
    hide BuiltIn, Matches;
  }

  // ---------------------------------------------------------------- prefixes

  lemma {:induction false} SpacesPrefix(s: string, k: nat)
    requires k <= |s|
    ensures RemoveSpaces(s[..k]) <= RemoveSpaces(s)
    decreases |s|
  {
    if k == |s| {
      assert s[..k] == s;
    } else {
      SpacesPrefix(s[..|s| - 1], k);
      assert s[..|s| - 1][..k] == s[..k];
    }
  }

  /** What follows for a prefix of digits, between most specific ranges of the built-in table. */
  lemma PrefixRanges(number: Digits, k: nat, r: Range, q: Range)
    requires 0 < k <= |number| && r.brand != Unknown && |number| == r.length
    requires MostSpecific(BuiltIn(), number, r) && MostSpecific(BuiltIn(), number[..k], q)
    ensures q.brand != Unknown
    ensures k < |number| ==> k < q.length
    ensures k == |number| ==> q.length == k
  {
    hide BuiltIn, Matches;
    BoundsShort(r);
    BoundsShort(q);
    ShortSound(r);
    PrefixMatches(r, number, k);
    assert |q.low| >= |r.low|;
    if k >= 6 {
      LongPrefixMatches(q, number, k);
      assert |q.low| <= |r.low|;
      TiesAgree(number, q, r);
    }
  }

  /** With the built-in table and brand checking, whatever way ties between equally specific ranges fall: when a
      typed number is valid, every prefix of it is incomplete, except one that lacks only spaces, which is valid. */
  lemma PrefixesOfValid(s: string, k: nat, r: Range, q: Range)
    requires k <= |s| && Chosen(BuiltIn(), s, r) && Chosen(BuiltIn(), s[..k], q)
    requires Judge(Some(s), true, r) == Valid
    ensures Judge(Some(s[..k]), true, q) == if RemoveSpaces(s[..k]) == RemoveSpaces(s) then Valid else Incomplete
  {
    hide BuiltIn, MostSpecific, Passes, RemoveSpaces;
    var whole, part := RemoveSpaces(s), RemoveSpaces(s[..k]);
    SpacesPrefix(s, k);
    if part != [] {
      assert part == whole[..|part|];
      assert IsNumeric(part);
      assert DigitsIn(part) == DigitsIn(whole)[..|part|];
      PrefixRanges(DigitsIn(whole), |part|, r, q);
    }
  }

  // ---------------------------------------------------------------- continuations

  function Typed(ds: Digits): (s: string)
    ensures |s| == |ds| && IsNumeric(s)
  {
    seq(|ds|, i requires 0 <= i < |ds| => ('0' as int + ds[i]) as char)
  }

  lemma DigitIsNoSpace(c: char)
    requires IsDigit(c)
    ensures !IsSpace(c)
  {}

  lemma SpacesLast(s: string, c: char)
    requires IsDigit(c)
    ensures RemoveSpaces(s + [c]) == RemoveSpaces(s) + [c]
  {
    hide IsSpace;
    DigitIsNoSpace(c);
    assert (s + [c])[..|s|] == s;
  }

  lemma Regroup(s: string, t: string, c: char)
    ensures s + (t + [c]) == (s + t) + [c]
  {}

  lemma {:induction false} SpacesAppend(s: string, t: string)
    requires IsNumeric(t)
    ensures RemoveSpaces(s + t) == RemoveSpaces(s) + t
    decreases |t|
  {
    hide RemoveSpaces, IsDigit;
    if t == [] {
      assert s + t == s && RemoveSpaces(s) + t == RemoveSpaces(s);
    } else {
      var n := |t| - 1;
      SpacesAppend(s, t[..n]);
      SpacesLast(s + t[..n], t[n]);
      assert t == t[..n] + [t[n]];
      Regroup(s, t[..n], t[n]);
      Regroup(RemoveSpaces(s), t[..n], t[n]);
    }
  }

  /** Some continuation of the input is judged valid. */
  ghost predicate Continues(s: string) {
    exists t: string, r: Range :: Chosen(BuiltIn(), s + t, r) && Judge(Some(s + t), true, r) == Valid
  }

  lemma ContinuesBy(s: string, whole: Digits, r: Range)
    requires IsNumeric(RemoveSpaces(s)) && DigitsIn(RemoveSpaces(s)) <= whole && |whole| == r.length > 0
    requires MostSpecific(BuiltIn(), whole, r) && r.brand != Unknown && Passes(whole)
    ensures Continues(s)
  {
    hide MostSpecific, BuiltIn, Passes, RemoveSpaces;
    var clean := RemoveSpaces(s);
    var ds := whole[|clean|..];
    var t := Typed(ds);
    SpacesAppend(s, t);
    assert IsNumeric(clean + t);
    assert DigitsIn(clean + t) == whole;
    assert Chosen(BuiltIn(), s + t, r) && Judge(Some(s + t), true, r) == Valid;
  }

  /** With the built-in table and brand checking, an input is judged incomplete exactly when it is not valid and some
      continuation of it is, however ties fall. */
  lemma IncompleteIff(s: string, q: Range)
    requires Chosen(BuiltIn(), s, q)
    ensures Judge(Some(s), true, q) == Incomplete <==> Judge(Some(s), true, q) != Valid && Continues(s)
  {
    hide MostSpecific, BuiltIn, Passes, RemoveSpaces;
    var clean := RemoveSpaces(s);
    if Judge(Some(s), true, q) == Incomplete {
      if clean == [] { assert DigitsIn(clean) == []; EmptyKnown(q); }
      var whole, r := Completion(DigitsIn(clean), q);
      ContinuesBy(s, whole, r);
    } else if Continues(s) {
      var t: string, r: Range :| Chosen(BuiltIn(), s + t, r) && Judge(Some(s + t), true, r) == Valid;
      assert (s + t)[..|s|] == s;
      PrefixesOfValid(s + t, |s|, r, q);
    }
  }
}
