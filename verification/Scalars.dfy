/** Round trips of the scalar field codecs. */
module Scalars {
  import opened Common
  import opened Bits
  import opened Schema
  import opened Varint
  import opened Encode
  import opened Decode

  /** A scalar that survives the trip: it fits its C type, and a string leaves room for the terminator the decoder
      writes. */
  predicate SendableScalar(k: Kind, v: Value)
    requires !k.Submessage?
  {
    && ScalarFits(k, v)
    && (k.String? ==> CStringLength(v.bs, k.size) < k.size)
  }

  /** A scalar as it arrives: a string ends at its first zero byte, anything else is unchanged. */
  function Delivered(k: Kind, v: Value): Value {
    if k.String? && v.Blob? then Blob(v.bs[..CStringLength(v.bs, k.size)]) else v
  }

  // ---------------------------------------------------------------- integers

  lemma SignedIdentity(n: int, modulus: nat)
    requires modulus > 0 && modulus % 2 == 0 && -(modulus / 2) <= n < modulus / 2
    ensures Signed(n, modulus) == n
  {
    if n < 0 { DivUnique(n, modulus, -1, n + modulus); } else { DivUnique(n, modulus, 0, n); }
  }

  /** Conversion to uint64_t and back to the signed type of 32 or 64 bits is the identity. */
  lemma SignedOfUnsigned(n: int, modulus: nat)
    requires modulus == TWO32 || modulus == TWO64
    requires -(modulus / 2) <= n < modulus / 2
    ensures 0 <= n % TWO64 < TWO64 && Signed(n % TWO64, modulus) == n
  {
    if n < 0 {
      DivUnique(n, TWO64, -1, n + TWO64);
      assert n % TWO64 == n + TWO64;
      DivUnique(n + TWO64, modulus, TWO64 / modulus - 1, n + modulus);
    }
  }

  /** Zigzag is a bijection between int64 and uint64. */
  lemma ZigZagRoundTrip(v: int)
    requires -TWO63 <= v < TWO63
    ensures ZigZag(v) == if v < 0 then -2 * v - 1 else 2 * v
    ensures UnZigZag(ZigZag(v)) == v
  {
    if v < 0 { DivUnique((v + TWO64) * 2, TWO64, 1, 2 * v + TWO64); }
  }

  lemma UnZigZagRoundTrip(u: nat)
    requires u < TWO64
    ensures -TWO63 <= UnZigZag(u) < TWO63 && ZigZag(UnZigZag(u)) == u
  {
    var v := UnZigZag(u);
    assert v == if u % 2 == 1 then -1 - u / 2 else u / 2;
    ZigZagRoundTrip(v);
  }

  lemma {:induction false} LittleEndianRoundTrip(v: nat, n: nat)
    requires v < Pow2(8 * n)
    ensures FromLittleEndian(LittleEndian(v, n)) == v
  {
    if n > 0 {
      Pow2Sum(8 * (n - 1), 8);
      assert Pow2(8) == 256 by { assert Pow2(4) == 16; }
      assert 8 * (n - 1) + 8 == 8 * n;
      LittleEndianRoundTrip(v / 256, n - 1);
      assert LittleEndian(v, n)[1..] == LittleEndian(v / 256, n - 1);
    }
  }

  lemma {:induction false} LittleEndianBound(bs: seq<byte>)
    ensures FromLittleEndian(bs) < Pow2(8 * |bs|)
    decreases |bs|
  {
    if bs != [] {
      LittleEndianBound(bs[1..]);
      Pow2Sum(8 * (|bs| - 1), 8);
      assert Pow2(8) == 256 by { assert Pow2(4) == 16; }
      assert 8 * (|bs| - 1) + 8 == 8 * |bs|;
    }
  }

  lemma NextScale(n: nat, b: byte)
    requires n > 0
    ensures 256 * (b * Pow2(8 * (n - 1))) == b * Pow2(8 * n)
  {
    hide Pow2;
    Pow2Sum(8 * (n - 1), 8);
    PowEight();
    assert 8 * (n - 1) + 8 == 8 * n;
    Regroup(b, Pow2(8 * (n - 1)));
  }

  lemma Regroup(b: nat, p: nat)
    ensures 256 * (b * p) == b * (p * 256)
  {}

  lemma {:induction false} LittleEndianAppend(bs: seq<byte>, b: byte)
    ensures FromLittleEndian(bs + [b]) == FromLittleEndian(bs) + b * Pow2(8 * |bs|)
    decreases |bs|
  {
    if bs == [] {
      assert bs + [b] == [b] && [b][1..] == [];
    } else {
      assert (bs + [b])[1..] == bs[1..] + [b];
      LittleEndianAppend(bs[1..], b);
      NextScale(|bs|, b);
    }
  }

  /** OR-ing the next byte at its shift extends the value read. */
  lemma OrByte(bs: seq<byte>, i: nat, width: nat)
    requires i < |bs| && 8 * i + 8 <= width
    ensures BitOr(FromLittleEndian(bs[..i]), Shl(bs[i], 8 * i, width)) == FromLittleEndian(bs[..i + 1])
  {
    hide BitOr, Shl, FromLittleEndian, Pow2;
    assert bs[..i + 1] == bs[..i] + [bs[i]];
    LittleEndianAppend(bs[..i], bs[i]);
    LittleEndianBound(bs[..i]);
    Pow2Sum(8 * i, 8);
    assert Pow2(8) == 256 by { PowEight(); }
    Pow2Monotone(8 * i + 8, width);
    var p := Pow2(8 * i);
    assert bs[i] * p <= 255 * p;
    MulNonneg(bs[i], p);
    OrSeptet(FromLittleEndian(bs[..i]), bs[i], 8 * i, width);
  }

  lemma PowEight()
    ensures Pow2(8) == 256
  {
    assert Pow2(4) == 16;
  }

  /** pb_dec_varint undoes pb_enc_varint, and so on, at every C integer width. */
  lemma FromVarintRoundTrip(k: Kind, n: int, rest: seq<byte>)
    requires k.VarInt? || k.UVarInt? || k.SVarInt?
    requires ValidWidth(k.width) && ScalarFits(k, Num(n))
    ensures match k
            case VarInt(_) => 0 <= n % TWO64 < TWO64 && FromVarint(k, n % TWO64, rest) == Got(Num(n), rest)
            case UVarInt(_) => n < TWO64 && FromVarint(k, n, rest) == Got(Num(n), rest)
            case SVarInt(_) => 0 <= ZigZag(n) < TWO64 && FromVarint(k, ZigZag(n), rest) == Got(Num(n), rest)
  {
    hide Signed;
    match k
    case VarInt(w) =>
      SignedOfUnsigned(n, if w == 8 then TWO64 else TWO32);
      SignedIdentity(n, Modulus(w));
    case UVarInt(w) =>
    case SVarInt(w) =>
      ZigZagRoundTrip(n);
      SignedIdentity(n, Modulus(w));
  }

  // ---------------------------------------------------------------- bytes

  lemma TakeAll(bs: seq<byte>, rest: seq<byte>)
    ensures Take(bs + rest, |bs|) == Got(bs, rest)
  {}

  lemma PrefixedLength(bs: seq<byte>, rest: seq<byte>)
    requires |bs| < TWO32
    ensures Decode32(Prefixed(bs) + rest) == Got(|bs|, bs + rest)
  {
    hide Decode32, Encoded;
    assert Prefixed(bs) + rest == Encoded(|bs|) + (bs + rest);
    Decode32Encoded(|bs|, bs + rest);
  }

  /** Reading a length-prefixed run back: the prefix and exactly the declared bytes are consumed. */
  lemma TakePrefixedRoundTrip(bs: seq<byte>, rest: seq<byte>)
    requires |bs| < TWO32
    ensures TakePrefixed(Prefixed(bs) + rest) == Got(bs, rest)
  {
    hide Decode32, Prefixed;
    PrefixedLength(bs, rest);
    TakeAll(bs, rest);
  }

  /** A string without zero bytes that is shorter than its buffer arrives whole. */
  lemma StringWhole(n: nat, bs: seq<byte>)
    requires |bs| < n && forall i | 0 <= i < |bs| :: bs[i] != 0
    ensures SendableScalar(String(n), Blob(bs)) && Delivered(String(n), Blob(bs)) == Blob(bs)
  {
    var len := CStringLength(bs, n);
    assert bs[..|bs|] == bs;
  }

  // ---------------------------------------------------------------- every scalar kind

  lemma VarintFieldRoundTrip(k: Kind, v: Value, rest: seq<byte>)
    requires k.VarInt? || k.UVarInt? || k.SVarInt?
    requires ValidKind(k) && ScalarFits(k, v)
    ensures ScalarBytes(k, v).Some? && |ScalarBytes(k, v).value| > 0
    ensures DecodeScalar(k, ScalarBytes(k, v).value + rest) == Got(v, rest)
  {
    hide Decode64, Encoded, ZigZag, FromVarint, Decode32;
    FromVarintRoundTrip(k, v.n, rest);
    var u := match k case VarInt(_) => v.n % TWO64 case UVarInt(_) => v.n case SVarInt(_) => ZigZag(v.n);
    Decode64Encoded(u, rest);
  }

  lemma FixedFieldRoundTrip(k: Kind, v: Value, rest: seq<byte>)
    requires k.Fixed32? || k.Fixed64?
    requires ScalarFits(k, v)
    ensures ScalarBytes(k, v).Some? && |ScalarBytes(k, v).value| > 0
    ensures DecodeScalar(k, ScalarBytes(k, v).value + rest) == Got(v, rest)
  {
    hide LittleEndian, FromLittleEndian, Take, Decode32, Decode64;
    Pow2At32();
    Pow2At64();
    LittleEndianRoundTrip(v.n, if k.Fixed32? then 4 else 8);
    TakeAll(LittleEndian(v.n, if k.Fixed32? then 4 else 8), rest);
  }

  lemma BlobFieldRoundTrip(k: Kind, v: Value, rest: seq<byte>)
    requires k.Bytes? || k.String? || k.FixedBytes?
    requires ValidKind(k) && SendableScalar(k, v)
    ensures ScalarBytes(k, v).Some? && |ScalarBytes(k, v).value| > 0
    ensures DecodeScalar(k, ScalarBytes(k, v).value + rest) == Got(Delivered(k, v), rest)
  {
    hide Decode32, Take, Prefixed, CStringLength, Decode64;
    var bs := Delivered(k, v).bs;
    assert ScalarBytes(k, v) == Some(Prefixed(bs));
    PrefixedLength(bs, rest);
    TakeAll(bs, rest);
    PrefixedNonEmpty(bs);
    if k.FixedBytes? && k.size == 0 {
      assert v.bs == seq(k.size, _ => 0);
      assert v.bs + rest == rest;
    }
  }

  lemma PrefixedNonEmpty(bs: seq<byte>)
    ensures |Prefixed(bs)| > |bs|
  {}

  /** Every scalar field decoder undoes its encoder, up to what follows a string's zero byte, and consumes exactly its
      bytes. */
  lemma ScalarRoundTrip(k: Kind, v: Value, rest: seq<byte>)
    requires !k.Submessage? && ValidKind(k) && SendableScalar(k, v)
    ensures ScalarBytes(k, v).Some? && |ScalarBytes(k, v).value| > 0
    ensures DecodeScalar(k, ScalarBytes(k, v).value + rest) == Got(Delivered(k, v), rest)
  {
    hide DecodeScalar, ScalarBytes;
    match k
    case Bool => BoolRoundTrip(v, rest);
    case Fixed32 => FixedFieldRoundTrip(k, v, rest);
    case Fixed64 => FixedFieldRoundTrip(k, v, rest);
    case Bytes(_) => BlobFieldRoundTrip(k, v, rest);
    case String(_) => BlobFieldRoundTrip(k, v, rest);
    case FixedBytes(_) => BlobFieldRoundTrip(k, v, rest);
    case VarInt(_) => VarintFieldRoundTrip(k, v, rest);
    case UVarInt(_) => VarintFieldRoundTrip(k, v, rest);
    case SVarInt(_) => VarintFieldRoundTrip(k, v, rest);
  }

  lemma BoolRoundTrip(v: Value, rest: seq<byte>)
    requires v.Flag?
    ensures ScalarBytes(Bool, v).Some? && |ScalarBytes(Bool, v).value| > 0
    ensures DecodeScalar(Bool, ScalarBytes(Bool, v).value + rest) == Got(v, rest)
  {
    hide Decode32, Encoded, Decode64;
    Decode32Encoded(if v.b then 1 else 0, rest);
  }

  /** Every scalar of its C type arrives, except a string that fills its buffer: the encoder sends it and the decoder
      rejects it. */
  lemma ScalarArrivesIff(k: Kind, v: Value, rest: seq<byte>)
    requires !k.Submessage? && ValidKind(k) && ScalarFits(k, v)
    ensures ScalarBytes(k, v).Some?
    ensures DecodeScalar(k, ScalarBytes(k, v).value + rest) ==
            if SendableScalar(k, v) then Got(Delivered(k, v), rest) else Bad
  {
    hide DecodeScalar, ScalarBytes;
    if SendableScalar(k, v) { ScalarRoundTrip(k, v, rest); } else { FullStringRejected(k.size, v.bs, rest); }
  }

  lemma FullStringRejected(n: nat, bs: seq<byte>, rest: seq<byte>)
    requires n < TWO32 && |bs| <= n && CStringLength(bs, n) == n
    ensures ScalarBytes(String(n), Blob(bs)).Some?
    ensures DecodeScalar(String(n), ScalarBytes(String(n), Blob(bs)).value + rest) == Bad
  {
    hide Decode32, Take, Prefixed, CStringLength, Decode64;
    PrefixedLength(bs[..n], rest);
  }
}
