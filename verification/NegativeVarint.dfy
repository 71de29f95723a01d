/** The varint encoder for negative int32 values on platforms without 64-bit integers. */
module NegativeVarint {
  import opened Bits
  import Varint
  import opened OutStream

  /** The value the loop still has to write: the 32-bit register with `compensation` ones above it. */
  function Wide(value: nat, compensation: nat): nat {
    value + (Pow2(compensation) - 1) * TWO32
  }

  lemma Start(value: nat)
    ensures Wide(value, 32) == value + TWO64 - TWO32
  {
    Pow2At32();
  }

  /** How many of the ones still owed move into the register in one step. */
  function Step(compensation: nat): nat {
    if compensation > 7 then 7 else compensation
  }

  lemma Ones(bits: nat)
    requires 0 < bits <= 7
    ensures 0xFF / Pow2(8 - bits) == Pow2(bits) - 1 && Pow2(bits) <= 128
  {
    Pow2Sum(bits, 8 - bits);
    assert Pow2(8) == 256 by { assert Pow2(4) == 16; }
    var p, q := Pow2(bits), Pow2(8 - bits);
    assert (p - 1) * q == p * q - q;
    DivUnique(0xFF, q, p - 1, q - 1);
    Pow2Monotone(bits, 7);
    Pow2At7();
  }

  /** `^=` with the shifted ones adds them to the emptied top of the register. */
  lemma XorOnes(value: nat, bits: nat)
    requires value < 0x200_0000 && 0 < bits <= 7
    ensures BitXor(value, Shl(0xFF / Pow2(8 - bits), 25, 32)) == value + (Pow2(bits) - 1) * 0x200_0000 < TWO32
  {
    hide BitXor, Shl, Pow2;
    Ones(bits);
    Pow2At25();
    Pow2At32();
    Varint.ShlExact(Pow2(bits) - 1, 25, 32);
    ModMultiple(Pow2(bits) - 1, Pow2(25));
    XorDisjoint(value, (Pow2(bits) - 1) * 0x200_0000, 25);
  }

  lemma WideStep(value: nat, compensation: nat)
    requires value < TWO32 && 0 < compensation
    requires compensation <= 7 || Step(compensation) == 7
    ensures var bits := Step(compensation);
            && Wide(value, compensation) % 128 == value % 128
            && Wide(value, compensation) / 128 ==
               Wide(value / 128 + (Pow2(bits) - 1) * 0x200_0000, compensation - bits)
  {
    hide Pow2;
    var bits := Step(compensation);
    var p, q := Pow2(bits), Pow2(compensation - bits);
    Pow2Sum(bits, compensation - bits);
    DivUnique(Wide(value, compensation), 128, value / 128 + (p * q - 1) * 0x200_0000, value % 128);
    if bits == 7 {
      Pow2At7();
      assert p * q == 128 * q;
    } else {
      assert q == 1 by { PowZero(); }
      assert p * q == p;
    }
  }

  lemma PowZero()
    ensures Pow2(0) == 1
  {}

  /** One shift of the register, refilled from the top while ones are owed. */
  method Shift(value: nat, compensation: nat) returns (value': nat, compensation': nat)
    requires 0 < value < TWO32 && compensation <= 32 && (compensation > 0 ==> value >= 0x8000_0000)
    ensures value' < TWO32 && compensation' <= 32 && (compensation' > 0 ==> value' >= 0x8000_0000)
    ensures Wide(value', compensation') == Wide(value, compensation) / 128
    ensures Wide(value, compensation) % 128 == value % 128
    ensures value' == 0 ==> compensation' == 0
  {
    hide BitXor, Shl, Pow2, Wide;
    value', compensation' := value / 128, compensation;
    if compensation > 0 {
      var bits := if compensation > 7 then 7 else compensation;
      WideStep(value, compensation);
      XorOnes(value', bits);
      AtLeastTop(bits);
      value' := BitXor(value', Shl(0xFF / Pow2(8 - bits), 25, 32));
      compensation' := compensation - bits;
    } else {
      NoOnes(value);
      NoOnes(value / 128);
    }
  }

  /** The loop of pb_encode_negative_varint. */
  method FillNegative(buffer: array<byte>, negative: nat) returns (i: nat)
    requires buffer.Length == 10 && 0x8000_0000 <= negative < TWO32
    modifies buffer
    ensures i <= 10 && buffer[..i] == Varint.Encoded(negative + TWO64 - TWO32)
  {
    hide Varint.Encoded, Wide;
    ghost var whole := Varint.Encoded(negative + TWO64 - TWO32);
    var value: nat, compensation: nat := negative, 32;
    ghost var w := Wide(value, compensation);
    i := 0;
    Start(negative);
    Varint.EncodedFitsTen(w);
    while value > 0
      invariant i <= 10 && value < TWO32 && compensation <= 32 && w == Wide(value, compensation)
      invariant compensation > 0 ==> value >= 0x8000_0000
      invariant (value == 0) == (w == 0)
      invariant w > 0 ==> whole == buffer[..i] + Varint.Encoded(w)
      invariant w == 0 ==> i > 0 && whole == buffer[..i - 1] + [buffer[i - 1] % 128]
      decreases w
    {
      ghost var done, b := buffer[..i], value % 128 + 128;
      var next, owed := Shift(value, compensation);
      Varint.Emit(whole, done, w, b);
      buffer[i] := value % 128 + 128;
      assert buffer[..i + 1] == done + [b];
      value, compensation, i := next, owed, i + 1;
      w := Wide(value, compensation);
      WideAbove(value, compensation);
      if value == 0 { WideZero(value, compensation); }
    }
    buffer[i - 1] := buffer[i - 1] % 128;
    assert buffer[..i] == buffer[..i - 1] + [buffer[i - 1]];
  }

  lemma NoOnes(value: nat)
    ensures Wide(value, 0) == value
  {}

  lemma WideAbove(value: nat, compensation: nat)
    ensures Wide(value, compensation) >= value
  {}

  lemma WideZero(value: nat, compensation: nat)
    requires value == 0 && compensation == 0
    ensures Wide(value, compensation) == 0
  {}

  lemma AtLeastTop(bits: nat)
    requires 0 < bits <= 7
    ensures Pow2(bits) >= 2 && (bits == 7 ==> Pow2(bits) == 128)
  {
    Pow2At7();
    Pow2Monotone(1, bits);
    assert Pow2(1) == 2;
  }

  /** pb_encode_negative_varint: from a negative int32, given as its uint32_t, 32-bit arithmetic writes the same bytes
      as the 64-bit encoder on the sign-extended value. */
  method EncodeNegativeVarint(s: Stream, value: nat) returns (ok: bool)
    requires s.Valid() && 0x8000_0000 <= value < TWO32
    modifies s, s.buf
    ensures var bs := Varint.Encoded(value + TWO64 - TWO32);
            (ok <==> Fits(old(s.Now()), |bs|, s.sizing)) &&
                (ok ==> s.Valid() && Follows(old(s.Now()), s.Now(), bs, s.sizing))
  {
    hide Varint.Encoded, Follows, Fits;
    var buffer := new byte[10];
    var i := FillNegative(buffer, value);
    ok := s.Write(buffer[..i]);
  }

  /** Those bytes number ten, and the 32-bit decoder turns them back into the uint32_t. */
  lemma NegativeVarintBytes(value: nat, rest: seq<byte>)
    requires 0x8000_0000 <= value < TWO32
    ensures |Varint.Encoded(value + TWO64 - TWO32)| == 10
    ensures Varint.Decode32(Varint.Encoded(value + TWO64 - TWO32) + rest) == Varint.Got(value, rest)
  {
    hide Varint.Encoded, Varint.Decode32, Varint.SignFill, Pow2;
    var v := value + TWO64 - TWO32;
    Pow2At63();
    Varint.Decode32Cases(v, rest);
    DivUnique(v, TWO32, TWO32 - 1, value);
    Varint.EncodedFitsTen(v);
    TenSeptets(v, 9);
  }

  lemma {:induction false} TenSeptets(v: nat, n: nat)
    requires v >= Pow2(7 * n)
    ensures |Varint.Encoded(v)| > n
  {
    if n > 0 {
      Pow2Seven(7 * (n - 1));
      assert 7 * (n - 1) + 7 == 7 * n;
      var p := Pow2(7 * (n - 1));
      assert v >= 128 * p;
      TenSeptets(v / 128, n - 1);
    }
  }
}
