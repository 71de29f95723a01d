/** Base-128 varints: the encoder, the 64-bit decoder and the 32-bit decoder, as functions
    from the unread input to a value and what is left of the input. */
module Varint {
  import opened Bits

  /** A reading attempt: failure, or a value and the bytes that follow it. */
  datatype Read<+T> = Bad | Got(v: T, rest: seq<byte>)

  /** pb_encode_varint. */
  function Encoded(v: nat): (bs: seq<byte>)
    ensures |bs| > 0
  {
    if v < 128 then [v] else [v % 128 + 128] + Encoded(v / 128)
  }

  /** The loop of pb_decode_varint from bit position `bitpos`. */
  function Decode64From(inp: seq<byte>, bitpos: nat, result: nat): (r: Read<nat>)
    ensures r.Got? ==> |r.rest| < |inp|
    decreases |inp|
  {
    if bitpos >= 64 || inp == [] then Bad else
    var result' := BitOr(result, Shl(inp[0] % 128, bitpos, 64));
    if inp[0] >= 128 then Decode64From(inp[1..], bitpos + 7, result') else Got(result', inp[1..])
  }

  /** pb_decode_varint. */
  function Decode64(inp: seq<byte>): (r: Read<nat>)
    ensures r.Got? ==> |r.rest| < |inp|
  {
    Decode64From(inp, 0, 0)
  }

  /** The bytes the 32-bit decoder tolerates above bit 32: zero, or sign extension of a negative value. */
  predicate HighByteOk(b: byte, bitpos: nat, result: nat) {
    b % 128 == 0 || (result / 0x8000_0000 != 0 && b == if bitpos < 63 then 0xFF else 0x01)
  }

  /** The do-while loop of pb_decode_varint32_eof. `bitpos` is an 8-bit counter, so it wraps. */
  function Decode32From(inp: seq<byte>, bitpos: nat, result: nat): (r: Read<nat>)
    ensures r.Got? ==> |r.rest| < |inp|
    decreases |inp|
  {
    if inp == [] then Bad else
    var b := inp[0];
    if bitpos >= 32 && !HighByteOk(b, bitpos, result) then Bad else
    var result' := if bitpos >= 32 then result else BitOr(result, Shl(b % 128, bitpos, 32));
    var bitpos' := (bitpos + 7) % 256;
    if b >= 128 then Decode32From(inp[1..], bitpos', result')
    else if bitpos' == 35 && (b / 16) % 8 != 0 then Bad
    else Got(result', inp[1..])
  }

  /** pb_decode_varint32_eof. */
  function Decode32(inp: seq<byte>): (r: Read<nat>)
    ensures r.Got? ==> |r.rest| < |inp|
  {
    if inp == [] then Bad
    else if inp[0] < 128 then Got(inp[0], inp[1..])
    else Decode32From(inp[1..], 7, inp[0] % 128)
  }

  // ---------------------------------------------------------------- sizes

  /** A varint of a value below 128^n takes at most n bytes. */
  lemma {:induction false} EncodedLength(v: nat, n: nat)
    requires n > 0 && v < Pow2(7 * n)
    ensures |Encoded(v)| <= n
  {
    if v >= 128 {
      if n == 1 { Pow2At7(); }
      Pow2Seven(7 * (n - 1));
      assert 7 * (n - 1) + 7 == 7 * n;
      EncodedLength(v / 128, n - 1);
    }
  }

  /** Every 64-bit value fits the encoder's ten-byte buffer. */
  lemma EncodedFitsTen(v: nat)
    requires v < TWO64
    ensures |Encoded(v)| <= 10
  {
    Pow2At64();
    Pow2Monotone(64, 70);
    EncodedLength(v, 10);
  }

  // ---------------------------------------------------------------- 64-bit round trip

  lemma ShlExact(x: nat, s: nat, width: nat)
    requires x * Pow2(s) < Pow2(width)
    ensures Shl(x, s, width) == x * Pow2(s)
  {
    DivUnique(x * Pow2(s), Pow2(width), 0, x * Pow2(s));
  }

  /** OR-ing the next septet at `bitpos` adds it. */
  lemma OrSeptet(result: nat, x: nat, bitpos: nat, width: nat)
    requires result < Pow2(bitpos) && x * Pow2(bitpos) < Pow2(width)
    ensures BitOr(result, Shl(x, bitpos, width)) == result + x * Pow2(bitpos)
  {
    ShlExact(x, bitpos, width);
    ModMultiple(x, Pow2(bitpos));
    OrDisjoint(result, x * Pow2(bitpos), bitpos);
  }

  /** Moving the low septet `x` of `w` into the result, at scale `p`. */
  lemma MoveSeptet(w: nat, x: nat, q: nat, p: nat, result: nat)
    requires x < 128 && w == 128 * q + x && result < p
    ensures (result + x * p) + q * (128 * p) == result + w * p
    ensures result + x * p < 128 * p
    ensures 0 <= x * p <= w * p && 0 <= q * (128 * p) <= w * p
  {
    assert w * p == (128 * q + x) * p == 128 * q * p + x * p;
    assert q * (128 * p) == 128 * q * p;
    MulNonneg(x, p);
    MulNonneg(q, 128 * p);
    assert x * p <= 127 * p;
  }

  lemma MulNonneg(a: nat, b: nat)
    ensures a * b >= 0
  {}

  /** The encoding by its first byte: septet `x`, then the encoding of `q`. */
  lemma EncodedCons(w: nat, x: nat, q: nat)
    requires x < 128 && w == 128 * q + x
    ensures Encoded(w) == if q == 0 then [x] else [x + 128] + Encoded(q)
    ensures w % 128 == x && w / 128 == q
  {}

  /** One turn of the 64-bit loop on an explicit first byte. */
  lemma Turn64(b: byte, tail: seq<byte>, bitpos: nat, result: nat)
    requires bitpos < 64
    ensures var result' := BitOr(result, Shl(b % 128, bitpos, 64));
            Decode64From([b] + tail, bitpos, result) ==
            if b >= 128 then Decode64From(tail, bitpos + 7, result') else Got(result', tail)
  {
    assert ([b] + tail)[1..] == tail;
  }

  lemma {:induction false} Decode64FromEncoded(w: nat, bitpos: nat, result: nat, rest: seq<byte>)
    requires bitpos < 64 && result < Pow2(bitpos) && w * Pow2(bitpos) < TWO64
    ensures Decode64From(Encoded(w) + rest, bitpos, result) == Got(result + w * Pow2(bitpos), rest)
    decreases w
  {
    hide Encoded, Decode64From, BitOr, Shl, Pow2;
    var x, q := w % 128, w / 128;
    EncodedCons(w, x, q);
    MoveSeptet(w, x, q, Pow2(bitpos), result);
    Pow2At64();
    OrSeptet(result, x, bitpos, 64);
    if q == 0 {
      Turn64(x, rest, bitpos, result);
    } else {
      assert Encoded(w) + rest == [x + 128] + (Encoded(q) + rest);
      Turn64(x + 128, Encoded(q) + rest, bitpos, result);
      Pow2Seven(bitpos);
      RoomForMore(q, bitpos);
      Decode64FromEncoded(q, bitpos + 7, result + x * Pow2(bitpos), rest);
    }
  }

  lemma RoomForMore(q: nat, bitpos: nat)
    requires q > 0 && q * (128 * Pow2(bitpos)) < TWO64
    ensures bitpos + 7 < 64
  {
    AtLeastOne(q, 128 * Pow2(bitpos));
    Pow2Seven(bitpos);
    Pow2At64();
    if bitpos + 7 >= 64 { Pow2Monotone(64, bitpos + 7); }
  }

  /** The 64-bit decoder reads back every encoded value and consumes exactly its bytes. */
  lemma Decode64Encoded(v: nat, rest: seq<byte>)
    requires v < TWO64
    ensures Decode64(Encoded(v) + rest) == Got(v, rest)
  {
    Decode64FromEncoded(v, 0, 0, rest);
  }

  // ---------------------------------------------------------------- 32-bit decoder

  /** The septets above bit 35 that the 32-bit decoder lets through: all zeros or all ones, ending in a lone
      one at bit 63. `k` is the index of the lowest septet of `w`. */
  predicate SignFill(w: nat, k: nat) {
    if w < 128 then k == 9 && w == 1
    else (w % 128 == 0 || w % 128 == 127) && SignFill(w / 128, k + 1)
  }

  /** One turn of the 32-bit loop on an explicit first byte. */
  lemma Turn32(b: byte, tail: seq<byte>, bitpos: nat, result: nat)
    ensures Decode32From([b] + tail, bitpos, result) ==
            if bitpos >= 32 && !HighByteOk(b, bitpos, result) then Bad else
            var result' := if bitpos >= 32 then result else BitOr(result, Shl(b % 128, bitpos, 32));
            var bitpos' := (bitpos + 7) % 256;
            if b >= 128 then Decode32From(tail, bitpos', result')
            else if bitpos' == 35 && (b / 16) % 8 != 0 then Bad
            else Got(result', tail)
  {
    assert ([b] + tail)[1..] == tail;
  }

  lemma {:induction false} Decode32High(w: nat, k: nat, result: nat, rest: seq<byte>)
    requires 5 <= k <= 9 && 0 < w && w * Pow2(7 * k) < TWO64
    ensures Decode32From(Encoded(w) + rest, 7 * k, result) ==
            if result >= 0x8000_0000 && SignFill(w, k) then Got(result, rest) else Bad
    decreases w
  {
    hide Encoded, Decode32From, BitOr, Shl, Pow2;
    var x, q := w % 128, w / 128;
    var p := Pow2(7 * k);
    EncodedCons(w, x, q);
    assert k == 9 ==> w == 1 by { if k == 9 { LastSeptet(w); } }
    if q == 0 {
      Turn32(x, rest, 7 * k, result);
    } else {
      assert Encoded(w) + rest == [x + 128] + (Encoded(q) + rest);
      Turn32(x + 128, Encoded(q) + rest, 7 * k, result);
      MoveSeptet(w, x, q, p, 0);
      Pow2Seven(7 * k);
      Decode32High(q, k + 1, result, rest);
    }
  }

  lemma LastSeptet(w: nat)
    requires 0 < w && w * Pow2(7 * 9) < TWO64
    ensures w == 1
  {
    Pow2At63();
    assert w * TWO63 < TWO64;
  }

  lemma FifthSeptet(x: nat, result: nat)
    requires x < 128 && result < 0x1000_0000
    ensures BitOr(result, Shl(x, 28, 32)) == result + (x % 16) * 0x1000_0000
  {
    Pow2At28();
    Pow2At32();
    DivUnique(x * 0x1000_0000, TWO32, x / 16, (x % 16) * 0x1000_0000);
    ShlExact(x % 16, 28, 32);
    OrSeptet(result, x % 16, 28, 32);
  }

  /** The fifth septet, whose top three bits do not fit. */
  lemma Decode32Fifth(w: nat, result: nat, rest: seq<byte>)
    requires 0 < w < 0x10_0000_0000 && result < 0x1000_0000
    ensures Decode32From(Encoded(w) + rest, 28, result) == Accepts32(result + w * 0x1000_0000, rest)
  {
    hide Encoded, Decode32From, BitOr, Shl, Pow2, Accepts32, SignFill;
    var x, q, low := w % 128, w / 128, result + (w % 16) * 0x1000_0000;
    EncodedCons(w, x, q);
    FifthArithmetic(w, result);
    AcceptsByParts(result + w * 0x1000_0000, low, q, rest);
    if q == 0 {
      FifthTurn(x, x, rest, result);
      NoFill(5);
    } else {
      assert Encoded(w) + rest == [x + 128] + (Encoded(q) + rest);
      FifthTurn(x + 128, x, Encoded(q) + rest, result);
      Pow2At35();
      Decode32High(q, 5, low, rest);
    }
  }

  /** One turn at bit 28: four bits of the septet are added, and the last byte must not hold more. */
  lemma FifthTurn(b: byte, x: nat, tail: seq<byte>, result: nat)
    requires x < 128 && (b == x || b == x + 128) && result < 0x1000_0000
    ensures var low := result + (x % 16) * 0x1000_0000;
            Decode32From([b] + tail, 28, result) ==
            if b >= 128 then Decode32From(tail, 35, low) else if x >= 16 then Bad else Got(low, tail)
  {
    hide Decode32From, BitOr, Shl, Pow2;
    FifthSeptet(x, result);
    Turn32(b, tail, 28, result);
  }

  lemma NoFill(k: nat)
    ensures !SignFill(0, k)
  {}

  lemma AcceptsByParts(v: nat, low: nat, q: nat, rest: seq<byte>)
    requires v % TWO32 == low && v / 0x8_0000_0000 == q
    ensures Accepts32(v, rest) ==
            if v < TWO32 then Got(v, rest)
            else if low >= 0x8000_0000 && SignFill(q, 5) then Got(low, rest) else Bad
  {
    if SignFill(q, 5) { SignFillNeedsBit63(q, 5); Pow2At28(); }
  }

  lemma NestedMod(w: nat)
    ensures (w % 128) % 16 == w % 16
  {
    var q, x := w / 128, w % 128;
    DivUnique(w, 16, 8 * q + x / 16, x % 16);
  }

  lemma FifthArithmetic(w: nat, result: nat)
    requires result < 0x1000_0000
    ensures var v := result + w * 0x1000_0000;
            && v % TWO32 == result + (w % 16) * 0x1000_0000
            && v / 0x8_0000_0000 == w / 128
            && (w % 128) % 16 == w % 16
  {
    var v := result + w * 0x1000_0000;
    NestedMod(w);
    DivUnique(v, TWO32, w / 16, result + (w % 16) * 0x1000_0000);
    DivUnique(v, 0x8_0000_0000, w / 128, result + (w % 128) * 0x1000_0000);
  }

  lemma ShortValue(x: nat, k: nat, result: nat)
    requires x < 128 && k <= 3 && result < Pow2(7 * k)
    ensures result + x * Pow2(7 * k) < TWO32
  {
    MoveSeptet(x, x, 0, Pow2(7 * k), result);
    Pow2Seven(7 * k);
    Pow2Monotone(7 * k + 7, 28);
    Pow2At28();
  }

  lemma AcceptsSmall(v: nat, rest: seq<byte>)
    requires v < TWO32
    ensures Accepts32(v, rest) == Got(v, rest)
  {}

  lemma SeptetBelow32(x: nat, k: nat)
    requires x < 128 && k <= 3
    ensures x * Pow2(7 * k) < Pow2(32)
  {
    Pow2Seven(7 * k);
    Pow2Monotone(7 * k + 7, 32);
    MoveSeptet(x, x, 0, Pow2(7 * k), 0);
  }

  /** One turn below bit 28: the septet is added in place. */
  lemma LowTurn(b: byte, x: nat, tail: seq<byte>, k: nat, result: nat)
    requires 1 <= k <= 3 && x < 128 && (b == x || b == x + 128) && result < Pow2(7 * k)
    ensures Decode32From([b] + tail, 7 * k, result) ==
            if b >= 128 then Decode32From(tail, 7 * (k + 1), result + x * Pow2(7 * k))
            else Got(result + x * Pow2(7 * k), tail)
  {
    hide Decode32From, BitOr, Shl, Pow2;
    SeptetBelow32(x, k);
    OrSeptet(result, x, 7 * k, 32);
    Turn32(b, tail, 7 * k, result);
    assert (7 * k + 7) % 256 == 7 * (k + 1);
  }

  /** Septets one to four of a long varint, read from index `k`; the value so far is `result`. */
  lemma {:induction false} Decode32Low(w: nat, k: nat, result: nat, rest: seq<byte>)
    requires 1 <= k <= 4 && 0 < w && result < Pow2(7 * k) && w * Pow2(7 * k) < TWO64
    ensures Decode32From(Encoded(w) + rest, 7 * k, result) == Accepts32(result + w * Pow2(7 * k), rest)
    decreases 4 - k
  {
    hide Encoded, Decode32From, BitOr, Shl, Pow2, Accepts32;
    if k == 4 {
      Pow2At28();
      Decode32Fifth(w, result, rest);
    } else {
      var x, q := w % 128, w / 128;
      var p := Pow2(7 * k);
      EncodedCons(w, x, q);
      MoveSeptet(w, x, q, p, result);
      if q == 0 {
        LowTurn(x, x, rest, k, result);
        ShortValue(x, k, result);
        AcceptsSmall(result + x * p, rest);
      } else {
        assert Encoded(w) + rest == [x + 128] + (Encoded(q) + rest);
        LowTurn(x + 128, x, Encoded(q) + rest, k, result);
        assert Pow2(7 * (k + 1)) == 128 * p by { Pow2Seven(7 * k); }
        Decode32Low(q, k + 1, result + x * p, rest);
      }
    }
  }

  /** On the encoding of any 64-bit `v` the 32-bit decoder does what Accepts32 says. */
  lemma Decode32Encoded(v: nat, rest: seq<byte>)
    requires v < TWO64
    ensures Decode32(Encoded(v) + rest) == Accepts32(v, rest)
  {
    hide Encoded, Decode32From, Pow2, Accepts32;
    var inp := Encoded(v) + rest;
    var x, q := v % 128, v / 128;
    EncodedCons(v, x, q);
    if q == 0 {
      assert inp[1..] == rest;
      AcceptsSmall(v, rest);
    } else {
      Pow2At7();
      assert inp[1..] == Encoded(q) + rest;
      Decode32Low(q, 1, x, rest);
    }
  }

  lemma NegativeFills(w: nat)
    requires w == 0x1FFF_FFFF
    ensures SignFill(w, 5)
  {
    assert SignFill(1, 9);
    assert SignFill(0xFF, 8);
    assert SignFill(0x7FFF, 7);
    assert SignFill(0x3F_FFFF, 6);
  }

  /** Values below 2^32 read back; values in [2^32, 2^63) are rejected; sign-extended negative int32 values
      read back as their low 32 bits. */
  lemma Decode32Cases(v: nat, rest: seq<byte>)
    requires v < TWO64
    ensures v < TWO32 ==> Decode32(Encoded(v) + rest) == Got(v, rest)
    ensures TWO32 <= v < TWO63 ==> Decode32(Encoded(v) + rest) == Bad
    ensures TWO64 - 0x8000_0000 <= v ==> Decode32(Encoded(v) + rest) == Got(v % TWO32, rest)
    ensures v >= TWO63 ==> (Decode32(Encoded(v) + rest).Got? <==>
                              v % TWO32 >= 0x8000_0000 && SignFill(v / 0x8_0000_0000, 5))
  {
    hide Encoded, Decode32, SignFill;
    Decode32Encoded(v, rest);
    if v >= TWO64 - 0x8000_0000 {
      NegativeFills(v / 0x8_0000_0000);
    }
  }

  /** What the 32-bit decoder makes of the encoding of `v`, for every 64-bit `v`. */
  function Accepts32(v: nat, rest: seq<byte>): Read<nat> {
    if v < TWO32 then Got(v, rest)
    else if v >= TWO63 && v % TWO32 >= 0x8000_0000 && SignFill(v / 0x8_0000_0000, 5) then Got(v % TWO32, rest)
    else Bad
  }

  lemma {:induction false} SignFillNeedsBit63(w: nat, k: nat)
    requires k <= 9 && SignFill(w, k)
    ensures w >= Pow2(7 * (9 - k))
    decreases w
  {
    if k == 9 {
      if w >= 128 { SignFillAtNine(w, k); }
    } else if w >= 128 {
      SignFillNeedsBit63(w / 128, k + 1);
      Pow2Seven(7 * (8 - k));
      assert 7 * (8 - k) + 7 == 7 * (9 - k);
    }
  }

  lemma {:induction false} SignFillAtNine(w: nat, k: nat)
    requires k >= 9 && w >= 128
    ensures !SignFill(w, k)
    decreases w
  {
    if w / 128 >= 128 { SignFillAtNine(w / 128, k + 1); }
  }

  // ---------------------------------------------------------------- reading from a longer input

  lemma {:induction false} Decode64FromExtend(inp: seq<byte>, bitpos: nat, result: nat, ext: seq<byte>)
    requires Decode64From(inp, bitpos, result).Got?
    ensures var r := Decode64From(inp, bitpos, result);
            Decode64From(inp + ext, bitpos, result) == Got(r.v, r.rest + ext)
    decreases |inp|
  {
    assert (inp + ext)[1..] == inp[1..] + ext;
    if inp[0] >= 128 {
      Decode64FromExtend(inp[1..], bitpos + 7, BitOr(result, Shl(inp[0] % 128, bitpos, 64)), ext);
    }
  }

  lemma {:induction false} Decode32FromExtend(inp: seq<byte>, bitpos: nat, result: nat, ext: seq<byte>)
    requires Decode32From(inp, bitpos, result).Got?
    ensures var r := Decode32From(inp, bitpos, result);
            Decode32From(inp + ext, bitpos, result) == Got(r.v, r.rest + ext)
    decreases |inp|
  {
    hide BitOr, Shl, HighByteOk;
    assert (inp + ext)[1..] == inp[1..] + ext;
    if inp[0] >= 128 {
      var result' := if bitpos >= 32 then result else BitOr(result, Shl(inp[0] % 128, bitpos, 32));
      Decode32FromExtend(inp[1..], (bitpos + 7) % 256, result', ext);
    }
  }

  lemma Decode64Extend(inp: seq<byte>, ext: seq<byte>)
    requires Decode64(inp).Got?
    ensures Decode64(inp + ext) == Got(Decode64(inp).v, Decode64(inp).rest + ext)
  {
    Decode64FromExtend(inp, 0, 0, ext);
  }

  lemma Decode32Extend(inp: seq<byte>, ext: seq<byte>)
    requires Decode32(inp).Got?
    ensures Decode32(inp + ext) == Got(Decode32(inp).v, Decode32(inp).rest + ext)
  {
    assert (inp + ext)[1..] == inp[1..] + ext;
    if inp[0] >= 128 { Decode32FromExtend(inp[1..], 7, inp[0] % 128, ext); }
  }

  /** Bounds of what the decoders return. */
  lemma {:induction false} Decode32FromBound(inp: seq<byte>, bitpos: nat, result: nat)
    requires result < TWO32 && Decode32From(inp, bitpos, result).Got?
    ensures Decode32From(inp, bitpos, result).v < TWO32
    decreases |inp|
  {
    hide HighByteOk, BitOr, Shl, Pow2;
    var s := Shl(inp[0] % 128, bitpos, 32);
    var result' := if bitpos >= 32 then result else BitOr(result, s);
    ShlBound(inp[0] % 128, bitpos, 32);
    Pow2At32();
    OrBound(result, s, 32);
    if inp[0] >= 128 { Decode32FromBound(inp[1..], (bitpos + 7) % 256, result'); }
  }

  lemma {:induction false} Decode64FromBound(inp: seq<byte>, bitpos: nat, result: nat)
    requires result < TWO64 && Decode64From(inp, bitpos, result).Got?
    ensures Decode64From(inp, bitpos, result).v < TWO64
    decreases |inp|
  {
    hide BitOr, Shl, Pow2;
    var s := Shl(inp[0] % 128, bitpos, 64);
    ShlBound(inp[0] % 128, bitpos, 64);
    Pow2At64();
    OrBound(result, s, 64);
    if inp[0] >= 128 { Decode64FromBound(inp[1..], bitpos + 7, BitOr(result, s)); }
  }

  lemma ShlBound(x: nat, s: nat, width: nat)
    ensures Shl(x, s, width) < Pow2(width)
  {}

  lemma Decode32Bound(inp: seq<byte>)
    requires Decode32(inp).Got?
    ensures Decode32(inp).v < TWO32
  {
    if inp[0] >= 128 { Decode32FromBound(inp[1..], 7, inp[0] % 128); }
  }

  lemma Decode64Bound(inp: seq<byte>)
    requires Decode64(inp).Got?
    ensures Decode64(inp).v < TWO64
  {
    Decode64FromBound(inp, 0, 0);
  }

  /** One step of an encoder's loop: `out` is written, `w` remains, `b` is the next byte with its top bit set. */
  lemma Emit(whole: seq<byte>, out: seq<byte>, w: nat, b: byte)
    requires w > 0 && whole == out + Encoded(w) && b == w % 128 + 128
    ensures |out| < |whole|
    ensures w / 128 > 0 ==> whole == (out + [b]) + Encoded(w / 128)
    ensures w / 128 == 0 ==> whole == out + [b % 128]
  {
    if w >= 128 { assert whole == out + ([b] + Encoded(w / 128)); }
  }
}
