/** pb_encode as it runs: two-pass submessages, sizing streams and substreams, proved to write exactly the bytes
    that Encode specifies. */
module Encoder {
  import opened Common
  import opened Bits
  import opened Schema
  import Varint
  import opened Encode
  import opened OutStream
  import FieldIter
  import opened Decoder
  import opened RoundTrip

  // ---------------------------------------------------------------- what any C struct satisfies

  /** A value as a 64-bit machine can hold it: the C types are right and every length the encoder computes fits
      size_t. Counts and byte sizes may still exceed the descriptor's limits. */
  predicate InMemory(k: Kind, v: Value)
    decreases k, 0
  {
    match k
    case Bytes(_) => v.Blob? && |v.bs| < TWO32
    case String(_) => v.Blob?
    case Submessage(fields, _) =>
      v.Msg? && StructInMemory(fields, v.slots) &&
      (var body := FieldsBytes(fields, v.slots, 0); body.Some? ==> |body.value| < TWO64)
    case _ => ScalarFits(k, v)
  }

  predicate SlotInMemory(f: Field, s: Slot)
    decreases f, 1
  {
    match f.rule
    case Required => s.One? && InMemory(f.kind, s.v)
    case Singular => s.One? && InMemory(f.kind, s.v)
    case Optional => s.Opt? && InMemory(f.kind, s.v)
    case Repeated(_) => s.Many? && ItemsInMemory(f, s.items)
    case FixedCount(max) => s.Many? && |s.items| == max && ItemsInMemory(f, s.items)
    case Oneof(_) => s.Off? || (s.On? && InMemory(f.kind, s.v))
  }

  predicate ItemsInMemory(f: Field, items: seq<Value>)
    decreases f, 0
  {
    && (forall i | 0 <= i < |items| :: InMemory(f.kind, items[i]))
    && (Packable(f.kind) ==> 8 * |items| < TWO64)
    && (Packable(f.kind) && ItemsBytes(f.kind, items).Some? ==> |ItemsBytes(f.kind, items).value| < TWO64)
  }

  predicate StructInMemory(fields: seq<Field>, slots: seq<Slot>)
    decreases fields
  {
    |slots| == |fields| && forall i | 0 <= i < |fields| :: SlotInMemory(fields[i], slots[i])
  }

  // ---------------------------------------------------------------- primitives

  /** The loop of pb_encode_varint: septets go to a ten-byte buffer, which is never overrun. */
  method FillBuffer(buffer: array<byte>, value: nat) returns (i: nat)
    requires buffer.Length == 10 && 0 < value < TWO64
    modifies buffer
    ensures i <= 10 && buffer[..i] == Varint.Encoded(value)
  {
    hide Varint.Encoded;
    ghost var whole := Varint.Encoded(value);
    i := 0;
    var rest: nat := value;
    Varint.EncodedFitsTen(value);
    while rest > 0
      invariant i <= 10
      invariant rest > 0 ==> whole == buffer[..i] + Varint.Encoded(rest)
      invariant rest == 0 ==> i > 0 && whole == buffer[..i - 1] + [buffer[i - 1] % 128]
      decreases rest
    {
      ghost var done, b := buffer[..i], rest % 128 + 128;
      Varint.Emit(whole, done, rest, b);
      buffer[i] := rest % 128 + 128;
      assert buffer[..i + 1] == done + [b];
      rest := rest / 128;
      i := i + 1;
    }
    buffer[i - 1] := buffer[i - 1] % 128;
    assert buffer[..i] == buffer[..i - 1] + [buffer[i - 1]];
  }

  /** pb_encode_varint. */
  method EncodeVarint(s: Stream, value: nat) returns (ok: bool)
    requires s.Valid() && value < TWO64
    modifies s, s.buf
    ensures ok <==> Fits(old(s.Now()), |Varint.Encoded(value)|, s.sizing)
    ensures ok ==> s.Valid() && Follows(old(s.Now()), s.Now(), Varint.Encoded(value), s.sizing)
  {
    hide Follows, Fits;
    if value <= 0x7F {
      ok := s.Write([value]);
      return;
    }
    var buffer := new byte[10];
    var i := FillBuffer(buffer, value);
    ok := s.Write(buffer[..i]);
  }

  /** pb_encode_svarint. */
  method EncodeSvarint(s: Stream, value: int) returns (ok: bool)
    requires s.Valid() && -TWO63 <= value < TWO63
    modifies s, s.buf
    ensures ok <==> Fits(old(s.Now()), |Varint.Encoded(ZigZag(value))|, s.sizing)
    ensures ok ==> s.Valid() && Follows(old(s.Now()), s.Now(), Varint.Encoded(ZigZag(value)), s.sizing)
  {
    var shifted := ((if value < 0 then value + TWO64 else value) * 2) % TWO64;
    ok := EncodeVarint(s, if value < 0 then TWO64 - 1 - shifted else shifted);
  }

  lemma LittleEndianDigits(v: nat)
    ensures LittleEndian(v, 4) == [v % 256, v / 0x100 % 256, v / 0x1_0000 % 256, v / 0x100_0000 % 256]
  {
    assert v / 256 / 256 == v / 0x1_0000;
    assert v / 256 / 256 / 256 == v / 0x100_0000;
    assert LittleEndian(v / 256, 3) == [v / 256 % 256] + LittleEndian(v / 256 / 256, 2);
    assert LittleEndian(v / 256 / 256, 2) == [v / 256 / 256 % 256] + LittleEndian(v / 256 / 256 / 256, 1);
    assert LittleEndian(v / 256 / 256 / 256, 1) ==
           [v / 256 / 256 / 256 % 256] + LittleEndian(v / 256 / 256 / 256 / 256, 0);
  }

  lemma {:induction false} LittleEndianHalves(v: nat, n: nat)
    ensures LittleEndian(v, n + 4) == LittleEndian(v, 4) + LittleEndian(v / TWO32, n)
  {
    var a, b, c, d := v / 256, v / 0x1_0000, v / 0x100_0000, v / TWO32;
    assert a / 256 == b && b / 256 == c && c / 256 == d;
    assert LittleEndian(v, n + 4) == [v % 256] + LittleEndian(a, n + 3);
    assert LittleEndian(a, n + 3) == [a % 256] + LittleEndian(b, n + 2);
    assert LittleEndian(b, n + 2) == [b % 256] + LittleEndian(c, n + 1);
    assert LittleEndian(c, n + 1) == [c % 256] + LittleEndian(d, n);
    LittleEndianDigits(v);
  }

  /** pb_encode_fixed32: four bytes picked out by shifts. */
  method EncodeFixed32(s: Stream, val: nat) returns (ok: bool)
    requires s.Valid()
    modifies s, s.buf
    ensures ok <==> Fits(old(s.Now()), 4, s.sizing)
    ensures ok ==> s.Valid() && Follows(old(s.Now()), s.Now(), LittleEndian(val, 4), s.sizing)
  {
    hide LittleEndian, Follows;
    var bytes := new byte[4];
    bytes[0], bytes[1] := val % 256, val / 0x100 % 256;
    bytes[2], bytes[3] := val / 0x1_0000 % 256, val / 0x100_0000 % 256;
    LittleEndianDigits(val);
    assert bytes[..] == LittleEndian(val, 4);
    ok := s.Write(bytes[..]);
  }

  /** pb_encode_fixed64. */
  method EncodeFixed64(s: Stream, val: nat) returns (ok: bool)
    requires s.Valid()
    modifies s, s.buf
    ensures ok <==> Fits(old(s.Now()), 8, s.sizing)
    ensures ok ==> s.Valid() && Follows(old(s.Now()), s.Now(), LittleEndian(val, 8), s.sizing)
  {
    hide LittleEndian, Follows;
    var high := val / TWO32;
    var bytes := new byte[8];
    bytes[0], bytes[1] := val % 256, val / 0x100 % 256;
    bytes[2], bytes[3] := val / 0x1_0000 % 256, val / 0x100_0000 % 256;
    bytes[4], bytes[5] := high % 256, high / 0x100 % 256;
    bytes[6], bytes[7] := high / 0x1_0000 % 256, high / 0x100_0000 % 256;
    LittleEndianDigits(val);
    LittleEndianDigits(high);
    LittleEndianHalves(val, 4);
    assert bytes[..] == LittleEndian(val, 4) + LittleEndian(high, 4);
    ok := s.Write(bytes[..]);
  }

  /** Writing `x` then `y`: the second write fails only when the two together do not fit. */
  lemma FitsBoth(a: Snapshot, b: Snapshot, x: seq<byte>, y: seq<byte>, sizing: bool)
    requires Follows(a, b, x, sizing) && Fits(a, |x|, sizing)
    ensures Fits(b, |y|, sizing) <==> Fits(a, |x + y|, sizing)
  {}

  lemma FitsFirst(a: Snapshot, x: nat, y: nat, sizing: bool)
    requires Fits(a, x + y, sizing)
    ensures Fits(a, x, sizing)
  {}

  /** pb_encode_string. */
  method EncodeString(s: Stream, data: seq<byte>) returns (ok: bool)
    requires s.Valid() && |data| < TWO64
    modifies s, s.buf
    ensures ok <==> Fits(old(s.Now()), |Prefixed(data)|, s.sizing)
    ensures ok ==> s.Valid() && Follows(old(s.Now()), s.Now(), Prefixed(data), s.sizing)
  {
    hide Follows, Fits;
    ghost var a := s.Now();
    ok := EncodeVarint(s, |data|);
    if !ok {
      if Fits(a, |Prefixed(data)|, s.sizing) { FitsFirst(a, |Varint.Encoded(|data|)|, |data|, s.sizing); }
      return;
    }
    ghost var b := s.Now();
    FitsBoth(a, b, Varint.Encoded(|data|), data, s.sizing);
    ok := s.Write(data);
    if ok { FollowsTrans(a, b, s.Now(), Varint.Encoded(|data|), data, s.sizing); }
  }

  /** pb_encode_tag. */
  method EncodeTag(s: Stream, wire: nat, tag: nat) returns (ok: bool)
    requires s.Valid() && wire < 8 && tag < TWO32
    modifies s, s.buf
    ensures ok <==> Fits(old(s.Now()), |Tag(tag, wire)|, s.sizing)
    ensures ok ==> s.Valid() && Follows(old(s.Now()), s.Now(), Tag(tag, wire), s.sizing)
  {
    hide Follows, Fits;
    ok := EncodeVarint(s, tag * 8 + wire);
  }

  /** The length of a C string, by the loop of pb_enc_string. */
  method StringLength(bs: seq<byte>, max: nat) returns (size: nat)
    ensures size == CStringLength(bs, max)
  {
    size := 0;
    while size < max && size < |bs| && bs[size] != 0
      invariant size <= |bs| && size <= max
      invariant CStringLength(bs, max) == size + CStringLength(bs[size..], max - size)
    {
      assert bs[size..][1..] == bs[size + 1..];
      size := size + 1;
    }
  }

  /** The pb_enc_ functions for kinds other than submessages. */
  method EncodeScalar(s: Stream, k: Kind, v: Value) returns (ok: bool)
    requires s.Valid() && !k.Submessage? && ValidKind(k) && InMemory(k, v)
    modifies s, s.buf
    ensures ok <==> ScalarBytes(k, v).Some? && Fits(old(s.Now()), |ScalarBytes(k, v).value|, s.sizing)
    ensures ok ==> s.Valid() && Follows(old(s.Now()), s.Now(), ScalarBytes(k, v).value, s.sizing)
  {
    hide Follows, Fits, Varint.Encoded, LittleEndian, Prefixed, CStringLength, ZigZag;
    match k {
      case Bool => ok := EncodeVarint(s, if v.b then 1 else 0);
      case VarInt(_) => ok := EncodeVarint(s, v.n % TWO64);
      case UVarInt(_) => ok := EncodeVarint(s, v.n);
      case SVarInt(_) => ok := EncodeSvarint(s, v.n);
      case Fixed32 => ok := EncodeFixed32(s, v.n);
      case Fixed64 => ok := EncodeFixed64(s, v.n);
      case Bytes(n) =>
        if |v.bs| + BYTES_HEADER > n { return false; }
        ok := EncodeString(s, v.bs);
      case String(n) =>
        var size := StringLength(v.bs, n);
        assert size <= n by { StringFits(v.bs, n); }
        ok := EncodeString(s, v.bs[..size]);
      case FixedBytes(_) => ok := EncodeString(s, v.bs);
    }
  }

  lemma StringFits(bs: seq<byte>, n: nat)
    ensures CStringLength(bs, n) <= n && CStringLength(bs, n) <= |bs|
  {}

  // ---------------------------------------------------------------- values and arrays

  /** pb_enc_ for any kind. */
  method EncodeValue(s: Stream, k: Kind, v: Value) returns (ok: bool)
    requires s.Valid() && ValidKind(k) && InMemory(k, v)
    modifies s, s.buf
    ensures ok <==> ValueBytes(k, v).Some? && Fits(old(s.Now()), |ValueBytes(k, v).value|, s.sizing)
    ensures ok ==> s.Valid() && Follows(old(s.Now()), s.Now(), ValueBytes(k, v).value, s.sizing)
    decreases k, 0
  {
    hide Follows, Fits, ScalarBytes, Prefixed, FieldsBytes, ValidFields, StructInMemory;
    if !k.Submessage? { ok := EncodeScalar(s, k, v); } else { ok := EncodeSubmessage(s, k.fields, v.slots); }
  }

  /** pb_encode_submessage: size the message, write the size, then write the message into a substream of exactly
      that size. The closing test for a changed size never fails. */
  method EncodeSubmessage(s: Stream, fields: seq<Field>, slots: seq<Slot>) returns (ok: bool)
    requires s.Valid() && ValidFields(fields) && StructInMemory(fields, slots)
    requires FieldsBytes(fields, slots, 0).Some? ==> |FieldsBytes(fields, slots, 0).value| < TWO64
    modifies s, s.buf
    ensures var body := FieldsBytes(fields, slots, 0);
            ok <==> body.Some? && Fits(old(s.Now()), |Prefixed(body.value)|, s.sizing)
    ensures ok ==> s.Valid() &&
                   Follows(old(s.Now()), s.Now(), Prefixed(FieldsBytes(fields, slots, 0).value), s.sizing)
    decreases fields, 4
  {
    hide FieldsBytes, ValidFields, StructInMemory;
    ghost var a := s.Now();
    var sizer := new Stream.Sizing();
    ok := PbEncode(sizer, fields, slots);
    if !ok { return; }
    var size := sizer.bytesWritten;
    ghost var body := FieldsBytes(fields, slots, 0).value;
    assert s.Now() == a && size == |body|;
    ok := EncodeVarint(s, size);
    if !ok { return; }
    ghost var prefix := Varint.Encoded(size);
    ghost var b := s.Now();
    FitsBoth(a, b, prefix, body, s.sizing);
    if s.sizing {
      s.Count(size);
      return true;
    }
    if s.bytesWritten + size > s.maxSize { return false; }
    var sub := new Stream.Buffer(s.buf, s.state, size);
    ghost var subStart := sub.Now();
    var status := PbEncode(sub, fields, slots);
    assert status;
    s.bytesWritten := s.bytesWritten + sub.bytesWritten;
    s.state := sub.state;
    if sub.bytesWritten != size { return false; }
    Adopt(b, subStart, sub.Now(), s.Now(), body);
    FollowsTrans(a, b, s.Now(), prefix, body, s.sizing);
    return status;
  }

  /** What a substream wrote counts for its parent. */
  lemma Adopt(parent: Snapshot, start: Snapshot, end: Snapshot, after: Snapshot, body: seq<byte>)
    requires Follows(start, end, body, false)
    requires start.state == parent.state && start.contents == parent.contents && start.written == 0
    requires after == Snapshot(end.state, parent.written + end.written, parent.max, end.contents)
    ensures Follows(parent, after, body, false)
  {}

  /** One item after another, as in a packed array. */
  method EncodeItems(s: Stream, f: Field, items: seq<Value>) returns (ok: bool)
    requires s.Valid() && ValidField(f) && Packable(f.kind)
    requires forall i | 0 <= i < |items| :: InMemory(f.kind, items[i])
    modifies s, s.buf
    ensures ok <==> ItemsBytes(f.kind, items).Some? && Fits(old(s.Now()), |ItemsBytes(f.kind, items).value|, s.sizing)
    ensures ok ==> s.Valid() && Follows(old(s.Now()), s.Now(), ItemsBytes(f.kind, items).value, s.sizing)
  {
    hide Follows, Fits, ScalarBytes, ScalarFits, ValidKind;
    var k := f.kind;
    ghost var a := s.Now();
    ghost var out: seq<byte> := [];
    NothingWritten(s);
    CatNothing(ItemsBytes(k, items));
    assert items[0..] == items;
    ok := true;
    for i := 0 to |items|
      invariant ok && s.Valid() && Follows(a, s.Now(), out, s.sizing) && Fits(a, |out|, s.sizing)
      invariant ItemsBytes(k, items) == Cat(Some(out), ItemsBytes(k, items[i..]))
    {
      ghost var b := s.Now();
      ghost var item := ValueBytes(k, items[i]);
      assert items[i..][1..] == items[i + 1..];
      CatStep(out, item, ItemsBytes(k, items[i + 1..]));
      if item.Some? { FitsBoth(a, b, out, item.value, s.sizing); }
      ok := EncodeScalar(s, k, items[i]);
      if !ok {
        TotalTooBig(a, out, item, ItemsBytes(k, items[i + 1..]), s.sizing);
        return;
      }
      FollowsTrans(a, b, s.Now(), out, item.value, s.sizing);
      out := out + item.value;
    }
    assert items[|items|..] == [];
    assert out + [] == out;
  }

  lemma NothingWritten(s: Stream)
    requires s.Valid()
    ensures Follows(s.Now(), s.Now(), [], s.sizing) && Fits(s.Now(), 0, s.sizing)
  {
    var a := s.Now();
    if !s.sizing { assert a.contents == a.contents[..a.state] + [] + a.contents[a.state..]; }
  }

  lemma CatNothing(x: Output)
    ensures Cat(Some([]), x) == x
  {
    if x.Some? { assert [] + x.value == x.value; }
  }

  lemma CatStep(out: seq<byte>, x: Output, rest: Output)
    ensures Cat(Some(out), Cat(x, rest)) == if x.Some? then Cat(Some(out + x.value), rest) else None
  {
    if x.Some? && rest.Some? { assert out + (x.value + rest.value) == out + x.value + rest.value; }
  }

  /** When one part fails or does not fit, the whole does not fit either. */
  lemma TotalTooBig(a: Snapshot, out: seq<byte>, x: Output, rest: Output, sizing: bool)
    requires x.None? || !Fits(a, |out + x.value|, sizing)
    ensures var total := Cat(Some(out), Cat(x, rest)); total.None? || !Fits(a, |total.value|, sizing)
  {}

  /** encode_array: packable items go out as one run whose size is computed first, others one record each. */
  method EncodeArray(s: Stream, f: Field, items: seq<Value>) returns (ok: bool)
    requires s.Valid() && ValidField(f) && (f.rule.Repeated? || f.rule.FixedCount?) && ItemsInMemory(f, items)
    modifies s, s.buf
    ensures var out := ArrayBytes(f.tag, f.kind, items, f.rule.max);
            ok <==> out.Some? && Fits(old(s.Now()), |out.value|, s.sizing)
    ensures ok ==> s.Valid() &&
                   Follows(old(s.Now()), s.Now(), ArrayBytes(f.tag, f.kind, items, f.rule.max).value, s.sizing)
    decreases f, 2
  {
    hide Follows, Fits, ItemsBytes, RecordsBytes, ScalarFits, ValidKind;
    if items == [] {
      NothingWritten(s);
      return true;
    }
    if |items| > f.rule.max { return false; }
    if Packable(f.kind) { ok := EncodePacked(s, f, items); } else { ok := EncodeRecords(s, f, items); }
  }

  /** The packed branch of encode_array. */
  method EncodePacked(s: Stream, f: Field, items: seq<Value>) returns (ok: bool)
    requires s.Valid() && ValidField(f) && Packable(f.kind) && ItemsInMemory(f, items)
    modifies s, s.buf
    ensures var body := ItemsBytes(f.kind, items);
            ok <==> body.Some? && Fits(old(s.Now()), |Tag(f.tag, WT_STRING) + Prefixed(body.value)|, s.sizing)
    ensures ok ==> s.Valid() && Follows(old(s.Now()), s.Now(),
                                        Tag(f.tag, WT_STRING) + Prefixed(ItemsBytes(f.kind, items).value), s.sizing)
  {
    hide Follows, Fits, ItemsBytes, Tag, Varint.Encoded, ScalarFits, ValidKind;
    ghost var a := s.Now();
    ghost var tag := Tag(f.tag, WT_STRING);
    ghost var body := ItemsBytes(f.kind, items);
    TagInRange(f);
    ok := EncodeTag(s, WT_STRING, f.tag);
    if !ok {
      if body.Some? && Fits(a, |tag + Prefixed(body.value)|, s.sizing) {
        FitsFirst(a, |tag|, |Prefixed(body.value)|, s.sizing);
      }
      return;
    }
    ghost var b := s.Now();
    var size: nat;
    ok, size := PackedSize(f, items);
    if !ok { return; }
    var prefix := Varint.Encoded(size);
    FitsBoth(a, b, tag, prefix + body.value, s.sizing);
    ok := EncodeVarint(s, size);
    if !ok {
      if Fits(b, |prefix + body.value|, s.sizing) { FitsFirst(b, |prefix|, |body.value|, s.sizing); }
      return;
    }
    ghost var c := s.Now();
    FitsBoth(b, c, prefix, body.value, s.sizing);
    if s.sizing {
      s.Count(size);
      Counted(c, s.Now(), body.value);
    } else {
      ok := EncodeItems(s, f, items);
      if !ok { return; }
    }
    FollowsTrans(b, c, s.Now(), prefix, body.value, s.sizing);
    FollowsTrans(a, b, s.Now(), tag, prefix + body.value, s.sizing);
    return true;
  }

  lemma Counted(a: Snapshot, b: Snapshot, bs: seq<byte>)
    requires b.max == a.max && b.written == a.written + |bs|
    ensures Follows(a, b, bs, true) && Fits(a, |bs|, true)
  {}

  lemma {:induction false} FixedItemsSize(k: Kind, items: seq<Value>)
    requires (k.Fixed32? || k.Fixed64?) && forall i | 0 <= i < |items| :: ScalarFits(k, items[i])
    ensures ItemsBytes(k, items).Some?
    ensures |ItemsBytes(k, items).value| == (if k.Fixed32? then 4 else 8) * |items|
    decreases |items|
  {
    if items != [] { FixedItemsSize(k, items[1..]); }
  }

  /** The size of a packed run: multiplied out for the fixed-width kinds, measured on a sizing stream otherwise. */
  method PackedSize(f: Field, items: seq<Value>) returns (ok: bool, size: nat)
    requires ValidField(f) && Packable(f.kind) && ItemsInMemory(f, items)
    ensures ok <==> ItemsBytes(f.kind, items).Some?
    ensures ok ==> size == |ItemsBytes(f.kind, items).value| < TWO64
  {
    hide ItemsBytes, ScalarFits, ValidKind;
    if f.kind.Fixed32? {
      FixedItemsSize(f.kind, items);
      return true, 4 * |items|;
    } else if f.kind.Fixed64? {
      FixedItemsSize(f.kind, items);
      return true, 8 * |items|;
    }
    var sizer := new Stream.Sizing();
    ok := EncodeItems(sizer, f, items);
    size := sizer.bytesWritten;
  }

  /** pb_encode_tag_for_field followed by the value. */
  method EncodeRecord(s: Stream, f: Field, v: Value) returns (ok: bool)
    requires s.Valid() && ValidField(f) && InMemory(f.kind, v)
    modifies s, s.buf
    ensures var out := RecordBytes(f.tag, f.kind, v);
            ok <==> out.Some? && Fits(old(s.Now()), |out.value|, s.sizing)
    ensures ok ==> s.Valid() && Follows(old(s.Now()), s.Now(), RecordBytes(f.tag, f.kind, v).value, s.sizing)
    decreases f, 0
  {
    hide Follows, Fits, ValueBytes, Tag, ScalarFits, ValidKind, InMemory;
    ghost var a := s.Now();
    ghost var tag := Tag(f.tag, WireType(f.kind));
    ghost var payload := ValueBytes(f.kind, v);
    TagInRange(f);
    ok := EncodeTag(s, WireType(f.kind), f.tag);
    if !ok {
      if payload.Some? && Fits(a, |tag + payload.value|, s.sizing) { FitsFirst(a, |tag|, |payload.value|, s.sizing); }
      return;
    }
    ghost var b := s.Now();
    if payload.Some? { FitsBoth(a, b, tag, payload.value, s.sizing); }
    ok := EncodeValue(s, f.kind, v);
    if ok { FollowsTrans(a, b, s.Now(), tag, payload.value, s.sizing); }
  }

  /** The unpacked branch of encode_array. */
  method EncodeRecords(s: Stream, f: Field, items: seq<Value>) returns (ok: bool)
    requires s.Valid() && ValidField(f) && forall i | 0 <= i < |items| :: InMemory(f.kind, items[i])
    modifies s, s.buf
    ensures var out := RecordsBytes(f.tag, f.kind, items);
            ok <==> out.Some? && Fits(old(s.Now()), |out.value|, s.sizing)
    ensures ok ==> s.Valid() && Follows(old(s.Now()), s.Now(), RecordsBytes(f.tag, f.kind, items).value, s.sizing)
    decreases f, 1
  {
    hide Follows, Fits, ScalarFits, ValidKind, InMemory, RecordBytes;
    var k := f.kind;
    ghost var a := s.Now();
    ghost var out: seq<byte> := [];
    NothingWritten(s);
    CatNothing(RecordsBytes(f.tag, k, items));
    assert items[0..] == items;
    ok := true;
    for i := 0 to |items|
      invariant ok && s.Valid() && Follows(a, s.Now(), out, s.sizing) && Fits(a, |out|, s.sizing)
      invariant RecordsBytes(f.tag, k, items) == Cat(Some(out), RecordsBytes(f.tag, k, items[i..]))
    {
      ghost var b := s.Now();
      ghost var item := RecordBytes(f.tag, k, items[i]);
      assert items[i..][1..] == items[i + 1..];
      CatStep(out, item, RecordsBytes(f.tag, k, items[i + 1..]));
      if item.Some? { FitsBoth(a, b, out, item.value, s.sizing); }
      ok := EncodeRecord(s, f, items[i]);
      if !ok {
        TotalTooBig(a, out, item, RecordsBytes(f.tag, k, items[i + 1..]), s.sizing);
        return;
      }
      FollowsTrans(a, b, s.Now(), out, item.value, s.sizing);
      out := out + item.value;
    }
    assert items[|items|..] == [];
    assert out + [] == out;
  }

  // ---------------------------------------------------------------- fields and messages

  /** pb_check_proto3_default_value on a proto3 singular value; a submessage is searched field by field. */
  method CheckDefaultValue(k: Kind, v: Value) returns (zero: bool)
    requires ValidKind(k) && InMemory(k, v)
    ensures zero <==> IsZeroValue(k, v)
    decreases k, 0
  {
    hide ValidFields, StructInMemory, FieldsBytes, IsUnsetSlot;
    match k {
      case Bool => zero := !v.b;
      case Bytes(_) => zero := |v.bs| == 0;
      case String(_) => zero := |v.bs| == 0 || v.bs[0] == 0;
      case FixedBytes(n) => zero := n == 0;
      case Submessage(fields, _) => zero := CheckDefaultFields(fields, v.slots);
      case _ => zero := v.n == 0;
    }
  }

  /** Its loop over the fields of a submessage. */
  method CheckDefaultFields(fields: seq<Field>, slots: seq<Slot>) returns (unset: bool)
    requires ValidFields(fields) && StructInMemory(fields, slots)
    ensures |slots| == |fields|
    ensures unset <==> forall i | 0 <= i < |fields| :: IsUnsetSlot(fields[i], slots[i])
    decreases fields, 1
  {
    hide ValidField, SlotInMemory, IsUnsetSlot;
    CellsValid(fields);
    var iter := new FieldIter.Iterator(Cells(fields), 0);
    if fields == [] { return true; }
    var more := true;
    ghost var done := 0;
    while more
      invariant iter.Valid() && iter.cells == Cells(fields)
      invariant done == if more then iter.pos else |fields|
      invariant forall i | 0 <= i < done :: IsUnsetSlot(fields[i], slots[i])
      decreases more, |fields| - iter.pos
    {
      var zero := CheckDefaultSlot(fields[iter.pos], slots[iter.pos]);
      if !zero { return false; }
      done := done + 1;
      more := iter.Next();
    }
    return true;
  }

  /** The branches for fields that are not proto3 singular. */
  method CheckDefaultSlot(f: Field, s: Slot) returns (unset: bool)
    requires ValidField(f) && SlotInMemory(f, s)
    ensures unset <==> IsUnsetSlot(f, s)
    decreases f, 1
  {
    hide InMemory, ValidKind, IsZeroValue, ScalarFits;
    match f.rule {
      case Required => unset := false;
      case Repeated(_) => unset := |s.items| == 0;
      case FixedCount(_) => unset := false;
      case Oneof(_) => unset := s.Off?;
      case Optional => unset := !s.has;
      case Singular => unset := CheckDefaultValue(f.kind, s.v);
    }
  }

  /** encode_basic_field. */
  method EncodeField(s: Stream, f: Field, slot: Slot) returns (ok: bool)
    requires s.Valid() && ValidField(f) && SlotInMemory(f, slot)
    modifies s, s.buf
    ensures ok <==> FieldBytes(f, slot).Some? && Fits(old(s.Now()), |FieldBytes(f, slot).value|, s.sizing)
    ensures ok ==> s.Valid() && Follows(old(s.Now()), s.Now(), FieldBytes(f, slot).value, s.sizing)
    decreases f, 3
  {
    hide Follows, Fits, RecordBytes, ArrayBytes, InMemory, ValidKind, ScalarFits, IsZeroValue;
    if f.rule.Repeated? || f.rule.FixedCount? {
      ok := EncodeArray(s, f, slot.items);
      return;
    }
    var present := f.rule.Required?;
    if f.rule.Singular? {
      var zero := CheckDefaultValue(f.kind, slot.v);
      present := !zero;
    } else if f.rule.Optional? {
      present := slot.has;
    } else if f.rule.Oneof? {
      present := slot.On?;
    }
    if present {
      ok := EncodeRecord(s, f, slot.v);
    } else {
      NothingWritten(s);
      ok := true;
    }
  }

  /** pb_encode: on a buffer with room for `c` more bytes it succeeds exactly when the message has an encoding of at
      most `c` bytes, and then writes that encoding and nothing else; on a sizing stream only the encoding matters. */
  method PbEncode(s: Stream, fields: seq<Field>, slots: seq<Slot>) returns (ok: bool)
    requires s.Valid() && ValidFields(fields) && StructInMemory(fields, slots)
    modifies s, s.buf
    ensures var out := FieldsBytes(fields, slots, 0);
            ok <==> out.Some? && Fits(old(s.Now()), |out.value|, s.sizing)
    ensures ok ==> s.Valid() && Follows(old(s.Now()), s.Now(), FieldsBytes(fields, slots, 0).value, s.sizing)
    decreases fields, 3
  {
    hide Follows, Fits, FieldBytes, SlotInMemory, ValidField;
    ghost var a := s.Now();
    NothingWritten(s);
    CellsValid(fields);
    var iter := new FieldIter.Iterator(Cells(fields), 0);
    if fields == [] { return true; }
    CatNothing(FieldsBytes(fields, slots, 0));
    ghost var out: seq<byte> := [];
    ghost var i := 0;
    var more := true;
    while more
      invariant s.Valid() && Follows(a, s.Now(), out, s.sizing) && Fits(a, |out|, s.sizing)
      invariant iter.Valid() && iter.cells == Cells(fields)
      invariant i == if more then iter.pos else |fields|
      invariant FieldsBytes(fields, slots, 0) == Cat(Some(out), FieldsBytes(fields, slots, i))
      decreases more, |fields| - iter.pos
    {
      ghost var b := s.Now();
      ghost var item := FieldBytes(fields[i], slots[i]);
      CatStep(out, item, FieldsBytes(fields, slots, i + 1));
      if item.Some? { FitsBoth(a, b, out, item.value, s.sizing); }
      ok := EncodeField(s, fields[iter.pos], slots[iter.pos]);
      if !ok {
        TotalTooBig(a, out, item, FieldsBytes(fields, slots, i + 1), s.sizing);
        return;
      }
      FollowsTrans(a, b, s.Now(), out, item.value, s.sizing);
      out := out + item.value;
      i := i + 1;
      more := iter.Next();
    }
    assert out + [] == out;
    ok := true;
  }

  /** pb_get_encoded_size. */
  method GetEncodedSize(fields: seq<Field>, slots: seq<Slot>) returns (ok: bool, size: nat)
    requires ValidFields(fields) && StructInMemory(fields, slots)
    ensures ok <==> MessageBytes(fields, slots).Some?
    ensures ok ==> size == |MessageBytes(fields, slots).value|
  {
    hide FieldsBytes, ValidFields, StructInMemory;
    var s := new Stream.Sizing();
    ok := PbEncode(s, fields, slots);
    size := s.bytesWritten;
  }

  /** pb_encode into a buffer: success exactly when sizing succeeds within the room, and then exactly that many bytes
      at the front of the buffer, the rest untouched. */
  method EncodeToBuffer(buf: array<byte>, fields: seq<Field>, slots: seq<Slot>) returns (ok: bool, written: nat)
    requires ValidFields(fields) && StructInMemory(fields, slots)
    modifies buf
    ensures ok <==> MessageBytes(fields, slots).Some? && |MessageBytes(fields, slots).value| <= buf.Length
    ensures ok ==> written == |MessageBytes(fields, slots).value| <= buf.Length
    ensures ok ==> buf[..] == MessageBytes(fields, slots).value + old(buf[..])[written..]
  {
    hide FieldsBytes, ValidFields, StructInMemory;
    var s := new Stream.Buffer(buf, 0, buf.Length);
    ok := PbEncode(s, fields, slots);
    written := s.bytesWritten;
  }
}
