/** What the two varint decoders make of arbitrary bytes, against the value the bytes denote. */
module AnyVarint {
  import opened Bits
  import opened Varint

  /** The value of the varint at the head of the input, however long it is and whatever its padding. */
  function Whole(inp: seq<byte>): (r: Read<nat>)
    ensures r.Got? ==> |r.rest| < |inp|
  {
    if inp == [] then Bad
    else if inp[0] < 128 then Got(inp[0], inp[1..])
    else
      var more := Whole(inp[1..]);
      if more.Bad? then Bad else Got(inp[0] % 128 + 128 * more.v, more.rest)
  }

  /** Its number of bytes. */
  function Length(inp: seq<byte>): nat
    requires Whole(inp).Got?
  {
    |inp| - |Whole(inp).rest|
  }

  /** The first byte and what follows. */
  lemma WholeTail(inp: seq<byte>)
    requires Whole(inp).Got? && inp[0] >= 128
    ensures Whole(inp[1..]).Got? && Whole(inp[1..]).rest == Whole(inp).rest && Length(inp[1..]) == Length(inp) - 1
    ensures Whole(inp).v == inp[0] % 128 + 128 * Whole(inp[1..]).v
  {}

  lemma WholeCons(inp: seq<byte>, k: nat)
    requires Whole(inp).Got? && inp[0] >= 128
    ensures Whole(inp[1..]).Got? && Whole(inp[1..]).rest == Whole(inp).rest && Length(inp[1..]) == Length(inp) - 1
    ensures Whole(inp).v * Pow2(7 * k) == inp[0] % 128 * Pow2(7 * k) + Whole(inp[1..]).v * Pow2(7 * (k + 1))
  {
    hide Pow2, Whole;
    WholeTail(inp);
    Pow2Seven(7 * k);
    assert 7 * k + 7 == 7 * (k + 1);
    Distribute(inp[0] % 128, Whole(inp[1..]).v, Pow2(7 * k));
  }

  lemma OneByte(inp: seq<byte>)
    requires inp != [] && inp[0] < 128
    ensures Whole(inp) == Got(inp[0], inp[1..])
  {}

  lemma Distribute(x: nat, w: nat, p: nat)
    ensures (x + 128 * w) * p == x * p + w * (128 * p)
  {}

  // ---------------------------------------------------------------- 64 bits

  /** OR-ing the tenth septet keeps its lowest bit only. */
  lemma TenthSeptet(result: nat, x: nat)
    requires result < TWO63 && x < 128
    ensures BitOr(result, Shl(x, 63, 64)) == (result + x * TWO63) % TWO64
  {
    hide BitOr, Pow2;
    Pow2At63();
    Pow2At64();
    DivUnique(x * TWO63, TWO64, x / 2, (x % 2) * TWO63);
    ModMultiple(x % 2, TWO63);
    OrDisjoint(result, (x % 2) * TWO63, 63);
    DivUnique(result + x * TWO63, TWO64, x / 2, result + (x % 2) * TWO63);
  }

  /** The loop of pb_decode_varint after `k` bytes. */
  ghost predicate Reads64(inp: seq<byte>, k: nat, result: nat) {
    var w := Whole(inp);
    Decode64From(inp, 7 * k, result) ==
    if w.Got? && k + Length(inp) <= 10 then Got((result + w.v * Pow2(7 * k)) % TWO64, w.rest) else Bad
  }

  lemma {:induction false} Decode64FromWhole(inp: seq<byte>, k: nat, result: nat)
    requires k <= 10 && (k < 10 ==> result < Pow2(7 * k))
    ensures Reads64(inp, k, result)
    decreases |inp|
  {
    hide Pow2, Reads64;
    if k == 10 || inp == [] {
      NoneLeft(inp, k, result);
    } else if k == 9 {
      Pow2At63();
      TenthByte(inp, result);
    } else {
      var x := inp[0] % 128;
      SeptetFits(x, k, result);
      if inp[0] >= 128 { Decode64FromWhole(inp[1..], k + 1, result + x * Pow2(7 * k)); }
      LowByte(inp, k, result);
    }
  }

  lemma NoneLeft(inp: seq<byte>, k: nat, result: nat)
    requires k == 10 || inp == []
    ensures Reads64(inp, k, result)
  {}

  lemma TenthByte(inp: seq<byte>, result: nat)
    requires result < TWO63 && inp != []
    ensures Reads64(inp, 9, result)
  {
    hide BitOr, Shl, Pow2, Whole;
    Pow2At63();
    TenthSeptet(result, inp[0] % 128);
    if inp[0] >= 128 {
      assert Decode64From(inp[1..], 70, BitOr(result, Shl(inp[0] % 128, 63, 64))) == Bad;
      if Whole(inp).Got? { WholeTail(inp); }
    } else {
      OneByte(inp);
    }
  }

  lemma LowByte(inp: seq<byte>, k: nat, result: nat)
    requires inp != [] && k <= 8 && result < Pow2(7 * k)
    requires inp[0] >= 128 ==> Reads64(inp[1..], k + 1, result + inp[0] % 128 * Pow2(7 * k))
    ensures Reads64(inp, k, result)
  {
    hide BitOr, Shl, Pow2, Whole;
    var x := inp[0] % 128;
    SeptetFits(x, k, result);
    OrSeptet(result, x, 7 * k, 64);
    assert 7 * k + 7 == 7 * (k + 1);
    if inp[0] < 128 {
      OneByte(inp);
      Small(result + x * Pow2(7 * k));
    } else if Whole(inp).Got? {
      WholeCons(inp, k);
    } else {
      StillUnfinished(inp);
    }
  }

  lemma StillUnfinished(inp: seq<byte>)
    requires inp != [] && inp[0] >= 128 && Whole(inp).Bad?
    ensures Whole(inp[1..]).Bad?
  {}

  lemma Small(v: nat)
    requires v < TWO64
    ensures v % TWO64 == v
  {}

  lemma SeptetFits(x: nat, k: nat, result: nat)
    requires x < 128 && k <= 8 && result < Pow2(7 * k)
    ensures x * Pow2(7 * k) < Pow2(64) && result + x * Pow2(7 * k) < Pow2(7 * (k + 1)) &&
            result + x * Pow2(7 * k) < TWO64
  {
    hide Pow2;
    MoveSeptet(x, x, 0, Pow2(7 * k), result);
    Pow2Seven(7 * k);
    assert 7 * k + 7 == 7 * (k + 1);
    Pow2Monotone(7 * (k + 1), 64);
    Pow2At64();
  }

  /** The 64-bit decoder accepts exactly the varints of up to ten bytes, and keeps the low 64 bits of their value. */
  lemma Decode64Whole(inp: seq<byte>)
    ensures var w := Whole(inp);
            Decode64(inp) == if w.Got? && Length(inp) <= 10 then Got(w.v % TWO64, w.rest) else Bad
  {
    assert Pow2(0) == 1;
    Decode64FromWhole(inp, 0, 0);
  }

  // ---------------------------------------------------------------- 32 bits

  /** The 32-bit decoder stops where the varint ends, if at all. */
  lemma {:induction false} Decode32FromStops(inp: seq<byte>, bitpos: nat, result: nat)
    requires Decode32From(inp, bitpos, result).Got?
    ensures Whole(inp).Got? && Whole(inp).rest == Decode32From(inp, bitpos, result).rest
    decreases |inp|
  {
    hide BitOr, Shl, HighByteOk;
    if inp[0] >= 128 {
      var result' := if bitpos >= 32 then result else BitOr(result, Shl(inp[0] % 128, bitpos, 32));
      Decode32FromStops(inp[1..], (bitpos + 7) % 256, result');
    }
  }

  /** Padding changes nothing, wherever the bit position stands. */
  lemma {:induction false} Padding(inp: seq<byte>, bitpos: nat, result: nat)
    requires Whole(inp).Got? && Whole(inp).v == 0
    ensures Decode32From(inp, bitpos, result) == Got(result, Whole(inp).rest)
    decreases |inp|
  {
    hide Shl, BitOr;
    assert inp[0] % 128 == 0;
    NoSeptet(result, bitpos);
    if inp[0] >= 128 { Padding(inp[1..], (bitpos + 7) % 256, result); }
  }

  lemma NoSeptet(result: nat, bitpos: nat)
    ensures BitOr(result, Shl(0, bitpos, 32)) == result
  {
    DivUnique(0, Pow2(32), 0, 0);
  }

  /** A value below 2^32, read from index `k`. */
  lemma {:induction false} LowValue(inp: seq<byte>, k: nat, result: nat)
    requires 1 <= k <= 4 && result < Pow2(7 * k) && Whole(inp).Got?
    requires result + Whole(inp).v * Pow2(7 * k) < TWO32
    ensures Decode32From(inp, 7 * k, result) == Got(result + Whole(inp).v * Pow2(7 * k), Whole(inp).rest)
    decreases |inp|
  {
    hide Decode32From, BitOr, Shl, Pow2;
    var b, x, tail := inp[0], inp[0] % 128, inp[1..];
    assert inp == [b] + tail;
    if k == 4 {
      Pow2At28();
      FifthTurn(b, x, tail, result);
      if b >= 128 {
        WholeTail(inp);
        assert Whole(tail).v == 0 && x < 16;
        Padding(tail, 35, result + x * 0x1000_0000);
      }
    } else {
      LowTurn(b, x, tail, k, result);
      if b >= 128 {
        WholeCons(inp, k);
        MoveSeptet(x, x, 0, Pow2(7 * k), result);
        Pow2Seven(7 * k);
        LowValue(tail, k + 1, result + x * Pow2(7 * k));
      }
    }
  }

  /** The 32-bit decoder keeps the value of a varint of any length if and only if it is below 2^32. */
  lemma KeepsValueIff(inp: seq<byte>)
    requires Whole(inp).Got?
    ensures Decode32(inp) == Whole(inp) <==> Whole(inp).v < TWO32
  {
    hide Decode32From, Pow2;
    if Decode32(inp) == Whole(inp) {
      Decode32Bound(inp);
    } else if Whole(inp).v < TWO32 && inp[0] >= 128 {
      WholeTail(inp);
      Pow2At7();
      LowValue(inp[1..], 1, inp[0] % 128);
    }
  }

  /** It never reads past an unfinished varint. */
  lemma UnfinishedRejected(inp: seq<byte>)
    requires Whole(inp).Bad?
    ensures Decode32(inp).Bad? && Decode64(inp).Bad?
  {
    hide Decode32From, Decode64;
    Decode64Whole(inp);
    if inp != [] && Decode32(inp).Got? { Decode32FromStops(inp[1..], 7, inp[0] % 128); }
  }

  // ---------------------------------------------------------------- the low 32 bits

  /** From bit 35 up to the wrap of the bit position the result stays as it is. */
  lemma {:induction false} HighSeptets(inp: seq<byte>, k: nat, result: nat)
    requires 5 <= k && Whole(inp).Got? && k + Length(inp) <= 37 && Decode32From(inp, 7 * k, result).Got?
    ensures Decode32From(inp, 7 * k, result) == Got(result, Whole(inp).rest)
    decreases |inp|
  {
    hide BitOr, Shl, HighByteOk;
    if inp[0] >= 128 {
      assert (7 * k + 7) % 256 == 7 * (k + 1);
      HighSeptets(inp[1..], k + 1, result);
    }
  }

  lemma {:induction false} LowBitsFrom(inp: seq<byte>, k: nat, result: nat)
    requires 1 <= k <= 4 && result < Pow2(7 * k) && Whole(inp).Got? && k + Length(inp) <= 37
    requires Decode32From(inp, 7 * k, result).Got?
    ensures Decode32From(inp, 7 * k, result) == Got((result + Whole(inp).v * Pow2(7 * k)) % TWO32, Whole(inp).rest)
    decreases |inp|
  {
    hide Decode32From, BitOr, Shl, Pow2, Whole;
    var b, x, tail := inp[0], inp[0] % 128, inp[1..];
    assert inp == [b] + tail;
    if b >= 128 { WholeTail(inp); } else { OneByte(inp); }
    if k == 4 {
      Pow2At28();
      FifthTurn(b, x, tail, result);
      var low := result + (x % 16) * 0x1000_0000;
      if b >= 128 {
        HighSeptets(tail, 5, low);
        FifthLow(result, x, Whole(tail).v);
      } else {
        FifthLow(result, x, 0);
      }
    } else {
      LowTurn(b, x, tail, k, result);
      MoveSeptet(x, x, 0, Pow2(7 * k), result);
      Pow2Seven(7 * k);
      if b >= 128 {
        WholeCons(inp, k);
        LowBitsFrom(tail, k + 1, result + x * Pow2(7 * k));
      } else {
        ShortValue(x, k, result);
        SmallLow(result + x * Pow2(7 * k));
      }
    }
  }

  lemma SmallLow(v: nat)
    requires v < TWO32
    ensures v % TWO32 == v
  {}

  lemma FifthLow(result: nat, x: nat, w: nat)
    requires result < 0x1000_0000 && x < 128
    ensures (result + (x + 128 * w) * 0x1000_0000) % TWO32 == result + (x % 16) * 0x1000_0000
  {
    var v := result + (x + 128 * w) * 0x1000_0000;
    DivUnique(v, TWO32, x / 16 + 8 * w, result + (x % 16) * 0x1000_0000);
  }

  /** Whatever the 32-bit decoder accepts of up to 37 bytes, it returns the low 32 bits of the value. */
  lemma LowBitsKept(inp: seq<byte>)
    requires Whole(inp).Got? && Length(inp) <= 37 && Decode32(inp).Got?
    ensures Decode32(inp) == Got(Whole(inp).v % TWO32, Whole(inp).rest)
  {
    hide Decode32From, Pow2, Whole;
    if inp[0] >= 128 {
      WholeTail(inp);
      Pow2At7();
      var x, w := inp[0] % 128, Whole(inp[1..]);
      LowBitsFrom(inp[1..], 1, x);
      assert Decode32(inp) == Got((x + w.v * 128) % TWO32, w.rest);
    } else {
      OneByte(inp);
    }
  }

  /** What the 32-bit decoder accepts of up to ten bytes has a value below 2^64. */
  lemma {:induction false} AcceptedFits(inp: seq<byte>, k: nat, result: nat)
    requires 1 <= k <= 9 && Whole(inp).Got? && k + Length(inp) <= 10 && Decode32From(inp, 7 * k, result).Got?
    ensures Whole(inp).v < Pow2(64 - 7 * k)
    decreases |inp|
  {
    hide BitOr, Shl, Pow2;
    var x, tail := inp[0] % 128, inp[1..];
    if k == 9 {
      PowOne();
    } else {
      Pow2Seven(57 - 7 * k);
      assert 57 - 7 * k + 7 == 64 - 7 * k && 64 - 7 * (k + 1) == 57 - 7 * k;
      if inp[0] >= 128 {
        var result' := if 7 * k >= 32 then result else BitOr(result, Shl(x, 7 * k, 32));
        AcceptedFits(tail, k + 1, result');
      }
    }
  }

  lemma PowOne()
    ensures Pow2(1) == 2
  {}

  lemma AcceptedBelow64(inp: seq<byte>)
    requires Whole(inp).Got? && Length(inp) <= 10 && Decode32(inp).Got?
    ensures Whole(inp).v < TWO64
  {
    hide Decode32From, Pow2, Whole;
    if inp[0] >= 128 {
      WholeTail(inp);
      AcceptedFits(inp[1..], 1, inp[0] % 128);
      Pow2Seven(57);
      Pow2At64();
    } else {
      OneByte(inp);
    }
  }

  /** So where the 64-bit decoder reads `v`, from up to ten bytes, the 32-bit decoder returns the low 32 bits of `v` or
      fails; it returns `v` itself if and only if the varint's own value is below 2^32. */
  lemma AgainstDecode64(inp: seq<byte>)
    requires Whole(inp).Got? && Length(inp) <= 10
    ensures Decode64(inp).Got?
    ensures Decode32(inp).Got? ==> Decode32(inp) == Got(Decode64(inp).v % TWO32, Decode64(inp).rest)
    ensures Decode32(inp) == Decode64(inp) <==> Whole(inp).v < TWO32
  {
    hide Decode64, Decode32, Whole;
    Decode64Whole(inp);
    var v := Whole(inp).v;
    if Decode32(inp).Got? {
      LowBitsKept(inp);
      AcceptedBelow64(inp);
      Small(v);
      Decode32Bound(inp);
    }
    KeepsValueIff(inp);
    if v < TWO32 { Small(v); }
  }

  // ---------------------------------------------------------------- inputs that lose their value

  /** The top bits of a fifth byte are tested only when it is the last one. */
  lemma FifthByteUnchecked()
    ensures var inp := [0x80, 0x80, 0x80, 0x80, 0xF0, 0x00];
            Whole(inp) == Got(0x7_0000_0000, []) && Decode32(inp) == Got(0, [])
  {
    hide BitOr, Shl, Pow2, Decode32From, Decode32, Whole, Pads;
    var tail: seq<byte> := [0xF0, 0x00];
    FifthWhole();
    Padded(3, tail);
    assert Pads(4) + tail == [0x80, 0x80, 0x80, 0x80, 0xF0, 0x00] by { FourPads(); }
    Pow2At28();
    FifthTurn(0xF0, 0x70, [0x00], 0);
    assert [0xF0] + [0x00] == tail;
    Padding([0x00], 35, 0);
  }

  lemma FifthWhole()
    ensures Whole([0xF0, 0x00]) == Got(0x70, []) && Whole([0x00]) == Got(0, [])
  {
    assert [0xF0, 0x00][1..] == [0x00];
  }

  function Pads(n: nat): (bs: seq<byte>)
    ensures |bs| == n
  {
    if n == 0 then [] else [0x80] + Pads(n - 1)
  }

  lemma FourPads()
    ensures Pads(4) == [0x80, 0x80, 0x80, 0x80]
  {}

  lemma {:induction false} PadsRun(n: nat, tail: seq<byte>, bitpos: nat)
    requires bitpos < 256
    ensures Decode32From(Pads(n) + tail, bitpos, 0) == Decode32From(tail, (bitpos + 7 * n) % 256, 0)
    decreases n
  {
    hide BitOr, Shl;
    if n == 0 {
      assert Pads(0) + tail == tail;
    } else {
      assert Pads(n) + tail == [0x80] + (Pads(n - 1) + tail);
      Turn32(0x80, Pads(n - 1) + tail, bitpos, 0);
      NoSeptet(0, bitpos);
      PadsRun(n - 1, tail, (bitpos + 7) % 256);
      Wrapped(bitpos, n);
    }
  }

  lemma Wrapped(bitpos: nat, n: nat)
    requires n > 0
    ensures ((bitpos + 7) % 256 + 7 * (n - 1)) % 256 == (bitpos + 7 * n) % 256
  {}

  lemma WholePad(tail: seq<byte>)
    requires Whole(tail).Got?
    ensures Whole([0x80] + tail) == Got(128 * Whole(tail).v, Whole(tail).rest)
  {
    assert ([0x80] + tail)[1..] == tail;
  }

  lemma {:induction false} PadsWhole(n: nat, tail: seq<byte>)
    requires Whole(tail).Got?
    ensures Whole(Pads(n) + tail) == Got(Whole(tail).v * Pow2(7 * n), Whole(tail).rest)
    decreases n
  {
    hide Pow2, Whole;
    if n == 0 {
      assert Pads(0) + tail == tail;
      PowZero();
    } else {
      assert Pads(n) + tail == [0x80] + (Pads(n - 1) + tail);
      PadsWhole(n - 1, tail);
      WholePad(Pads(n - 1) + tail);
      Pow2Seven(7 * (n - 1));
      assert 7 * (n - 1) + 7 == 7 * n;
      MoveScale(Whole(tail).v, Pow2(7 * (n - 1)));
    }
  }

  lemma PowZero()
    ensures Pow2(0) == 1
  {}

  lemma MoveScale(w: nat, p: nat)
    ensures 128 * (w * p) == w * (128 * p)
  {}

  /** Leading padding bytes move the value up. The 32-bit decoder starts at a later bit position. */
  lemma Padded(m: nat, tail: seq<byte>)
    requires Whole(tail).Got?
    ensures Whole(Pads(m + 1) + tail) == Got(Whole(tail).v * Pow2(7 * m + 7), Whole(tail).rest)
    ensures Decode32(Pads(m + 1) + tail) == Decode32From(tail, (7 + 7 * m) % 256, 0)
  {
    hide Pow2, Decode32From, Whole;
    PadsWhole(m + 1, tail);
    assert 7 * (m + 1) == 7 * m + 7;
    var inp := Pads(m + 1) + tail;
    assert inp[0] == 0x80 && inp[1..] == Pads(m) + tail;
    PadsRun(m, tail, 7);
  }

  /** After 37 bytes the 8-bit bit position has wrapped to 3, and a 1 lands there. */
  lemma WrapsRound()
    ensures Whole(Pads(37) + [0x01]) == Got(Pow2(259), [])
    ensures Decode32(Pads(37) + [0x01]) == Got(8, [])
  {
    hide Pow2, Decode32From;
    assert Whole([0x01]) == Got(1, []);
    Padded(36, [0x01]);
    assert [0x01] + [] == [0x01];
    Turn32(0x01, [], 3, 0);
    assert BitOr(0, Shl(1, 3, 32)) == 8 by { ThirdBit(); }
  }

  lemma ThirdBit()
    ensures BitOr(0, Shl(1, 3, 32)) == 8
  {
    Pow2At32();
    assert Pow2(3) == 8;
  }

  /** The 64-bit decoder drops what a tenth byte holds above bit 63. */
  lemma TenthByteDropped()
    ensures Whole(Pads(9) + [0x02]) == Got(TWO64, [])
    ensures Decode64(Pads(9) + [0x02]) == Got(0, []) && Decode32(Pads(9) + [0x02]).Bad?
  {
    hide Pow2, Decode32From, Decode64;
    assert Whole([0x02]) == Got(2, []);
    Padded(8, [0x02]);
    Pow2At63();
    Decode64Whole(Pads(9) + [0x02]);
    assert [0x02] + [] == [0x02];
    Turn32(0x02, [], 63, 0);
  }
}
