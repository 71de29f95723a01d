/** How the bytes on the wire are read, in numbers: what pb_skip_field passes over, which values the scalar decoders
    accept, and how a record's type bits are used. */
module WireReading {
  import opened Common
  import opened Bits
  import opened Schema
  import opened Varint
  import opened Encode
  import opened Decode
  import opened Scalars
  import opened Records
  import opened RoundTrip
  import opened WireFormat

  // ---------------------------------------------------------------- skipping

  lemma {:induction false} SkipVarintWhole(v: nat, rest: seq<byte>)
    ensures SkipVarint(Encoded(v) + rest) == Got((), rest)
  {
    SkipEncoded(v);
    SkipVarintExtend(Encoded(v), rest);
    assert [] + rest == rest;
  }

  /** pb_skip_field passes over exactly the varint, the eight bytes, the length and bytes, or the four bytes of types 0,
      1, 2 and 5, and refuses every other type. */
  lemma SkipByType(v: nat, bs: seq<byte>, rest: seq<byte>, w: nat)
    ensures Skip(0, Encoded(v) + rest) == Got((), rest)
    ensures |bs| == 8 ==> Skip(1, bs + rest) == Got((), rest)
    ensures |bs| == 4 ==> Skip(5, bs + rest) == Got((), rest)
    ensures |bs| < TWO32 ==> Skip(2, (Encoded(|bs|) + bs) + rest) == Got((), rest)
    ensures w !in {0, 1, 2, 5} ==> Skip(w, bs) == Bad
  {
    hide Encoded, SkipVarint, TakePrefixed;
    SkipVarintWhole(v, rest);
    if |bs| < TWO32 { TakePrefixedRoundTrip(bs, rest); }
  }

  /** Input that ends early is refused, whatever the type. */
  lemma SkipTooShort(bs: seq<byte>, n: nat)
    ensures |bs| < 8 ==> Skip(1, bs) == Bad
    ensures |bs| < 4 ==> Skip(5, bs) == Bad
    ensures |bs| < n < TWO32 ==> Skip(2, Encoded(n) + bs) == Bad
    ensures (forall i | 0 <= i < |bs| :: bs[i] >= 128) ==> Skip(0, bs) == Bad
  {
    hide Encoded, Decode32;
    if |bs| < n < TWO32 { Decode32Encoded(n, bs); }
    if forall i | 0 <= i < |bs| :: bs[i] >= 128 { SkipUnfinished(bs); }
  }

  lemma {:induction false} SkipUnfinished(bs: seq<byte>)
    requires forall i | 0 <= i < |bs| :: bs[i] >= 128
    ensures SkipVarint(bs) == Bad
    decreases |bs|
  {
    if bs != [] { SkipUnfinished(bs[1..]); }
  }

  // ---------------------------------------------------------------- numbers

  /** A bool is set by every varint but zero. */
  lemma ReadBool(n: nat, rest: seq<byte>)
    requires n < TWO32
    ensures DecodeScalar(Bool, Encoded(n) + rest) == Got(Flag(n != 0), rest)
  {
    hide Encoded, Decode32;
    Decode32Encoded(n, rest);
  }

  /** The signed number with these low bits. */
  function AsSigned(u: nat, modulus: nat): int
    requires modulus > 0
  {
    if u % modulus < modulus / 2 then u % modulus else u % modulus - modulus
  }

  /** Bounds of the C integers of `w` bytes. */
  function Half(w: nat): int {
    if w == 1 then 0x80 else if w == 2 then 0x8000 else if w == 4 then 0x8000_0000 else 0x8000_0000_0000_0000
  }

  lemma SignedIs(u: nat, modulus: nat)
    requires modulus == TWO32 || modulus == TWO64
    ensures Signed(u, modulus) == AsSigned(u, modulus)
  {}

  /** An int32, int64 or enum field takes a varint's low 32 bits as a signed number, or all 64 if it is of eight bytes,
      and refuses those that a narrower field cannot hold. */
  lemma ReadSigned(w: nat, u: nat, rest: seq<byte>)
    requires ValidWidth(w) && u < 0x1_0000_0000_0000_0000
    ensures var s := AsSigned(u, if w == 8 then 0x1_0000_0000_0000_0000 else 0x1_0000_0000);
            DecodeScalar(VarInt(w), Encoded(u) + rest) == if -Half(w) <= s < Half(w) then Got(Num(s), rest) else Bad
  {
    hide Encoded, Decode64, Signed, AsSigned;
    Decode64Encoded(u, rest);
    var s := AsSigned(u, if w == 8 then TWO64 else TWO32);
    SignedIs(u, if w == 8 then TWO64 else TWO32);
    KeptIff(s, Modulus(w));
  }

  lemma KeptIff(s: int, modulus: nat)
    requires modulus > 0 && modulus % 2 == 0
    ensures Signed(s, modulus) == s <==> -(modulus / 2) <= s < modulus / 2
  {
    if -(modulus / 2) <= s < modulus / 2 { SignedIdentity(s, modulus); }
  }

  /** An unsigned field refuses what it cannot hold. */
  lemma ReadUnsigned(w: nat, u: nat, rest: seq<byte>)
    requires ValidWidth(w) && u < 0x1_0000_0000_0000_0000
    ensures DecodeScalar(UVarInt(w), Encoded(u) + rest) == if u < 2 * Half(w) then Got(Num(u), rest) else Bad
  {
    hide Encoded, Decode64;
    Decode64Encoded(u, rest);
    if u < 2 * Half(w) { DivUnique(u, Modulus(w), 0, u); }
  }

  /** A sint32 or sint64 field takes even varints as 0, 1, 2, ... and odd ones as -1, -2, ..., and refuses what it
      cannot hold. */
  lemma ReadZigZag(w: nat, u: nat, rest: seq<byte>)
    requires ValidWidth(w) && u < 0x1_0000_0000_0000_0000
    ensures var s := if u % 2 == 0 then u / 2 else -1 - u / 2;
            DecodeScalar(SVarInt(w), Encoded(u) + rest) == if -Half(w) <= s < Half(w) then Got(Num(s), rest) else Bad
  {
    hide Encoded, Decode64, Signed;
    Decode64Encoded(u, rest);
    var s := if u % 2 == 0 then u / 2 else -1 - u / 2;
    UnZigZagIs(u);
    KeptIff(s, Modulus(w));
  }

  lemma UnZigZagIs(u: nat)
    requires u < TWO64
    ensures UnZigZag(u) == if u % 2 == 0 then u / 2 else -1 - u / 2
  {}

  /** Four or eight bytes are the number whose bytes they are, least significant first. */
  lemma ReadFixed(bs: seq<byte>, rest: seq<byte>) returns (n: nat)
    ensures Number(bs, n)
    ensures |bs| == 4 ==> n < 0x1_0000_0000 && DecodeScalar(Fixed32, bs + rest) == Got(Num(n), rest)
    ensures |bs| == 8 ==> n < 0x1_0000_0000_0000_0000 && DecodeScalar(Fixed64, bs + rest) == Got(Num(n), rest)
  {
    hide FromLittleEndian, Pow2, ByteAt;
    n := FromLittleEndian(bs);
    LittleEndianDigits(bs);
    LittleEndianBound(bs);
    Pow2At32();
    Pow2At64();
    TakeAll(bs, rest);
  }

  lemma {:induction false} LittleEndianDigits(bs: seq<byte>)
    ensures forall i | 0 <= i < |bs| :: ByteAt(FromLittleEndian(bs), i) == bs[i]
    decreases |bs|
  {
    if bs != [] {
      var v := FromLittleEndian(bs);
      LittleEndianDigits(bs[1..]);
      DivUnique(v, 256, FromLittleEndian(bs[1..]), bs[0]);
      forall i | 0 <= i < |bs| ensures ByteAt(v, i) == bs[i] {
        if i > 0 { DivScale256(v, i - 1); }
      }
    }
  }

  // ---------------------------------------------------------------- bytes

  /** A length and that many bytes: a bytes field takes up to its buffer without the four bytes of its length member. */
  lemma ReadBytes(n: nat, bs: seq<byte>, rest: seq<byte>)
    requires |bs| < 0x1_0000_0000
    ensures DecodeScalar(Bytes(n), (Encoded(|bs|) + bs) + rest) == if |bs| + 4 <= n then Got(Blob(bs), rest) else Bad
  {
    hide Encoded, Decode32, Take, Decode64;
    PrefixedLength(bs, rest);
    TakeAll(bs, rest);
  }

  /** A string takes up to its buffer without the terminator. */
  lemma ReadString(n: nat, bs: seq<byte>, rest: seq<byte>)
    requires |bs| < 0x1_0000_0000
    ensures DecodeScalar(String(n), (Encoded(|bs|) + bs) + rest) == if |bs| + 1 <= n then Got(Blob(bs), rest) else Bad
  {
    hide Encoded, Decode32, Take, Decode64;
    PrefixedLength(bs, rest);
    TakeAll(bs, rest);
  }

  /** A run of fixed size takes its size, or nothing, which zeroes it. */
  lemma ReadFixedBytes(n: nat, bs: seq<byte>, rest: seq<byte>)
    requires |bs| < 0x1_0000_0000
    ensures DecodeScalar(FixedBytes(n), (Encoded(|bs|) + bs) + rest) ==
            if |bs| == n then Got(Blob(bs), rest) else if |bs| == 0 then Got(Blob(seq(n, _ => 0)), rest) else Bad
  {
    hide Encoded, Decode32, Take, Decode64;
    PrefixedLength(bs, rest);
    TakeAll(bs, rest);
    if |bs| == 0 { NoBytes(n, bs, rest); }
  }

  lemma NoBytes(n: nat, bs: seq<byte>, rest: seq<byte>)
    requires bs == []
    ensures bs + rest == rest
    ensures n == 0 ==> seq(n, _ => 0) == bs
  {}

  /** When fewer bytes follow than the length says, the field is refused. */
  lemma BytesTooShort(n: nat, len: nat, bs: seq<byte>)
    requires |bs| < len < 0x1_0000_0000
    ensures DecodeScalar(Bytes(n), Encoded(len) + bs) == Bad
    ensures DecodeScalar(String(n), Encoded(len) + bs) == Bad
    ensures DecodeScalar(FixedBytes(n), Encoded(len) + bs) == Bad
    ensures TakePrefixed(Encoded(len) + bs) == Bad
  {
    hide Encoded, Decode32;
    Decode32Encoded(len, bs);
  }

  /** A submessage is decoded within its declared bytes, and what follows is left, even when a zero tag ends it
      early. */
  lemma ReadSubmessage(fields: seq<Field>, size: nat, slots: seq<Slot>, body: seq<byte>, rest: seq<byte>)
    requires |slots| == |fields| && |body| < 0x1_0000_0000
    ensures var m := Merge(fields, slots, body);
            DecodeValue(Submessage(fields, size), Msg(slots), (Encoded(|body|) + body) + rest) ==
            if m.Got? then Got(Msg(m.v), rest) else Bad
  {
    hide Encoded, TakePrefixed, Merge;
    TakePrefixedRoundTrip(body, rest);
  }

  // ---------------------------------------------------------------- the use of the type bits

  /** The kinds that have a packed form. */
  predicate HasPackedForm(k: Kind) {
    k.Bool? || k.VarInt? || k.UVarInt? || k.SVarInt? || k.Fixed32? || k.Fixed64?
  }

  /** The type bits of a known field matter in one place only: whether a record of type 2 for an array of numbers or
      bools is a packed run. In particular a record of any other type, even an impossible one, is read as the field's
      own kind. */
  lemma TypeBitsIgnored(fields: seq<Field>, st: State, i: nat, w1: nat, w2: nat, inp: seq<byte>)
    requires i < |fields| == |st.slots|
    requires (fields[i].rule.Repeated? || fields[i].rule.FixedCount?) && HasPackedForm(fields[i].kind) ==>
               (w1 == 2 <==> w2 == 2)
    ensures DecodeField(fields, st, i, w1, inp) == DecodeField(fields, st, i, w2, inp)
  {
    hide Received, StoreItems, StoreValue, FieldValue, DecodeArray;
    var f := fields[i];
    if f.rule.Repeated? || f.rule.FixedCount? {
      var acc := Received(fields, st, i);
      if acc.Some? { ArrayTypeBits(f.kind, f.rule.max, acc.value, w1, w2, inp); }
    }
  }

  lemma ArrayTypeBits(k: Kind, max: nat, acc: seq<Value>, w1: nat, w2: nat, inp: seq<byte>)
    requires HasPackedForm(k) ==> (w1 == 2 <==> w2 == 2)
    ensures DecodeArray(k, max, acc, w1, inp) == DecodeArray(k, max, acc, w2, inp)
  {
    hide DecodeValue, TakePrefixed, DecodePacked;
  }

  /** The record of field `i`, from its tag on. */
  lemma KnownRecord(fields: seq<Field>, st: State, i: nat, w: nat, inp: seq<byte>)
    requires ValidFields(fields) && i < |fields| == |st.slots| && w < 8
    ensures RunFields(fields, st, Encoded(8 * fields[i].tag + w) + inp) ==
            var s := DecodeField(fields, st, i, w, inp);
            if s.Bad? then Failed else RunFields(fields, s.v, s.rest)
  {
    hide RunFields, DecodeField, Encoded, ValidFields;
    TagStep(fields, st, i, w, inp);
    assert 8 * fields[i].tag + w == fields[i].tag * 8 + w;
  }

  /** Member `j` belongs to the oneof that member `i` belongs to. */
  predicate Siblings(f: Field, g: Field) {
    f.rule.Oneof? && g.rule.Oneof? && f.rule.group == g.rule.group
  }

  /** What a record of a field that is no array does to the message: the field holds the value read, as present or as
      the active member; the other members of its own oneof are off; every other field, those of other oneofs
      included, is as it was. */
  lemma RecordEffect(fields: seq<Field>, st: State, i: nat, w: nat, inp: seq<byte>)
    requires i < |fields| == |st.slots| && !fields[i].rule.Repeated? && !fields[i].rule.FixedCount?
    requires DecodeField(fields, st, i, w, inp).Got?
    ensures var f, s := fields[i], DecodeField(fields, st, i, w, inp);
            var prior := if f.rule.Oneof? then Zero(f.kind)
                         else if st.slots[i].One? || st.slots[i].Opt? then st.slots[i].v else InitValue(f);
            var v := DecodeValue(f.kind, prior, inp);
            && v.Got? && s.rest == v.rest
            && s.v.slots[i] ==
               (if f.rule.Oneof? then On(v.v) else if f.rule.Optional? then Opt(true, v.v) else One(v.v))
            && forall j | 0 <= j < |fields| && j != i ::
                 s.v.slots[j] == if Siblings(f, fields[j]) then Off else st.slots[j]
  {
    hide DecodeValue, FieldItems, Received;
  }

  /** A record of an array that is not a packed run appends one value, unless the array is full. */
  lemma ReadItem(k: Kind, max: nat, acc: seq<Value>, w: nat, inp: seq<byte>)
    requires !(w == 2 && HasPackedForm(k))
    ensures |acc| >= max ==> DecodeArray(k, max, acc, w, inp) == Bad
    ensures |acc| < max ==>
              var v := DecodeValue(k, Zero(k), inp);
              DecodeArray(k, max, acc, w, inp) == if v.Bad? then Bad else Got(acc + [v.v], v.rest)
  {}

  /** A zero tag ends the message, and nothing behind it is read. */
  lemma ZeroTagEnds(fields: seq<Field>, st: State, rest: seq<byte>)
    requires |st.slots| == |fields|
    ensures RunFields(fields, st, [0x00] + rest) == Ran(st, rest, true)
  {
    assert ([0x00] + rest)[1..] == rest;
  }

  /** The terminator of a descriptor without fields has tag zero and the type bits of a required bool: a record of tag
      zero, of whatever type, is read as a bool that is stored nowhere. */
  lemma EmptyDescriptor(w: nat, n: nat, rest: seq<byte>)
    requires 0 < w < 8 && n < TWO32
    ensures RunFields([], Start([]), [w] + (Encoded(n) + rest)) == RunFields([], Start([]), rest)
    ensures DecodeMessage([], [0x03, 0x05]) == Got([], [])
  {
    hide Encoded;
    EmptyDescriptorStep(w, n, rest);
    EmptyDescriptorStep(3, 5, []);
    assert [3] + (Encoded(5) + []) == [0x03, 0x05] by { FiveEncoded(); }
  }

  lemma FiveEncoded()
    ensures Encoded(5) == [5]
  {}

  lemma EmptyDescriptorStep(w: nat, n: nat, rest: seq<byte>)
    requires 0 < w < 8 && n < TWO32
    ensures RunFields([], Start([]), [w] + (Encoded(n) + rest)) == RunFields([], Start([]), rest)
  {
    hide Encoded, Decode32From;
    var inp := [w] + (Encoded(n) + rest);
    assert inp[1..] == Encoded(n) + rest;
    Decode32Encoded(n, rest);
  }
}
