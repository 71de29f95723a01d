/** What pb_encode writes, as a function of the descriptor and the message. None stands for the encoder's
    errors other than a full stream. */
module Encode {
  import opened Common
  import opened Bits
  import opened Schema
  import Varint

  type Output = Option<seq<byte>>

  function Cat(a: Output, b: Output): Output {
    if a.Some? && b.Some? then Some(a.value + b.value) else None
  }

  const WT_VARINT: nat := 0
  const WT_64BIT: nat := 1
  const WT_STRING: nat := 2
  const WT_32BIT: nat := 5

  /** The wire type pb_encode_tag_for_field chooses. */
  function WireType(k: Kind): (w: nat)
    ensures w < 8
  {
    match k
    case Fixed32 => WT_32BIT
    case Fixed64 => WT_64BIT
    case Bytes(_) => WT_STRING
    case String(_) => WT_STRING
    case FixedBytes(_) => WT_STRING
    case Submessage(_, _) => WT_STRING
    case _ => WT_VARINT
  }

  /** pb_encode_tag. */
  function Tag(tag: nat, wire: nat): seq<byte> {
    Varint.Encoded(tag * 8 + wire)
  }

  /** pb_encode_string. */
  function Prefixed(bs: seq<byte>): seq<byte> {
    Varint.Encoded(|bs|) + bs
  }

  /** `n` bytes of `v`, least significant first: pb_encode_fixed32 and pb_encode_fixed64. */
  function LittleEndian(v: nat, n: nat): (bs: seq<byte>)
    ensures |bs| == n
  {
    if n == 0 then [] else [v % 256] + LittleEndian(v / 256, n - 1)
  }

  /** pb_encode_svarint: the zigzag image of a 64-bit integer, by shift and complement. */
  function ZigZag(v: int): nat
    requires -TWO63 <= v < TWO63
  {
    if v < 0 then TWO64 - 1 - ((v + TWO64) * 2) % TWO64 else (v * 2) % TWO64
  }

  /** Length of the C string held in a buffer of `max` bytes: up to the first zero byte. */
  function CStringLength(bs: seq<byte>, max: nat): (n: nat)
    ensures n <= |bs| && n <= max
    ensures forall i | 0 <= i < n :: bs[i] != 0
    ensures n < |bs| && n < max ==> bs[n] == 0
    decreases |bs|
  {
    if bs == [] || max == 0 || bs[0] == 0 then 0
    else
      var n := CStringLength(bs[1..], max - 1);
      assert forall i | 1 <= i < n + 1 :: bs[i] == bs[1..][i - 1];
      n + 1
  }

  /** The pb_enc_ functions for kinds other than submessages. A value of the wrong C type has no encoding. */
  function ScalarBytes(k: Kind, v: Value): Output
    requires !k.Submessage?
  {
    match k
    case Bool => if v.Flag? then Some(Varint.Encoded(if v.b then 1 else 0)) else None
    case VarInt(w) =>
      if ValidWidth(w) && ScalarFits(k, v) then Some(Varint.Encoded(v.n % TWO64)) else None
    case UVarInt(w) =>
      if ValidWidth(w) && ScalarFits(k, v) then Some(Varint.Encoded(v.n)) else None
    case SVarInt(w) =>
      if ValidWidth(w) && ScalarFits(k, v) then Some(Varint.Encoded(ZigZag(v.n))) else None
    case Fixed32 => if ScalarFits(k, v) then Some(LittleEndian(v.n, 4)) else None
    case Fixed64 => if ScalarFits(k, v) then Some(LittleEndian(v.n, 8)) else None
    case Bytes(n) => if v.Blob? && |v.bs| + BYTES_HEADER <= n then Some(Prefixed(v.bs)) else None
    case String(n) => if v.Blob? then Some(Prefixed(v.bs[..CStringLength(v.bs, n)])) else None
    case FixedBytes(n) => if v.Blob? && |v.bs| == n then Some(Prefixed(v.bs)) else None
  }

  /** pb_enc_ for any kind. */
  function ValueBytes(k: Kind, v: Value): Output
    decreases k, 0
  {
    if !k.Submessage? then ScalarBytes(k, v)
    else if v.Msg? then
      var body := FieldsBytes(k.fields, v.slots, 0);
      if body.Some? then Some(Prefixed(body.value)) else None
    else None
  }

  /** A run of values one after the other, as in a packed array. */
  function ItemsBytes(k: Kind, items: seq<Value>): Output
    decreases k, 1, |items|
  {
    if items == [] then Some([]) else Cat(ValueBytes(k, items[0]), ItemsBytes(k, items[1..]))
  }

  /** One record per item, as in an unpacked array. */
  function RecordsBytes(tag: nat, k: Kind, items: seq<Value>): Output
    decreases k, 2, |items|
  {
    if items == [] then Some([])
    else Cat(RecordBytes(tag, k, items[0]), RecordsBytes(tag, k, items[1..]))
  }

  /** A tag and a value. */
  function RecordBytes(tag: nat, k: Kind, v: Value): Output
    decreases k, 1
  {
    Cat(Some(Tag(tag, WireType(k))), ValueBytes(k, v))
  }

  /** encode_array. */
  function ArrayBytes(tag: nat, k: Kind, items: seq<Value>, max: nat): Output
    decreases k, 3
  {
    if items == [] then Some([])
    else if |items| > max then None
    else if Packable(k) then
      var body := ItemsBytes(k, items);
      if body.Some? then Some(Tag(tag, WT_STRING) + Prefixed(body.value)) else None
    else RecordsBytes(tag, k, items)
  }

  /** pb_check_proto3_default_value on a proto3 singular value. */
  predicate IsZeroValue(k: Kind, v: Value)
    decreases k, 0
  {
    match k
    case Bool => v == Flag(false)
    case Bytes(_) => v == Blob([])
    case String(_) => v.Blob? && (v.bs == [] || v.bs[0] == 0)
    case FixedBytes(n) => n == 0
    case Submessage(fields, _) =>
      v.Msg? && |v.slots| == |fields| && forall i | 0 <= i < |fields| :: IsUnsetSlot(fields[i], v.slots[i])
    case _ => v == Num(0)
  }

  /** pb_check_proto3_default_value on a member of a proto3 submessage. */
  predicate IsUnsetSlot(f: Field, s: Slot)
    decreases f, 0
  {
    match f.rule
    case Required => false
    case Repeated(_) => s.Many? && s.items == []
    case FixedCount(_) => false
    case Oneof(_) => s.Off?
    case Optional => s.Opt? && !s.has
    case Singular => s.One? && IsZeroValue(f.kind, s.v)
  }

  /** encode_basic_field. A slot of the wrong shape has no encoding. */
  function FieldBytes(f: Field, s: Slot): Output
    decreases f, 1
  {
    match f.rule
    case Required => if s.One? then RecordBytes(f.tag, f.kind, s.v) else None
    case Optional =>
      if !s.Opt? then None else if s.has then RecordBytes(f.tag, f.kind, s.v) else Some([])
    case Singular =>
      if !s.One? then None
      else if IsZeroValue(f.kind, s.v) then Some([]) else RecordBytes(f.tag, f.kind, s.v)
    case Repeated(max) => if s.Many? then ArrayBytes(f.tag, f.kind, s.items, max) else None
    case FixedCount(max) =>
      if s.Many? && |s.items| == max then ArrayBytes(f.tag, f.kind, s.items, max) else None
    case Oneof(_) =>
      if s.On? then RecordBytes(f.tag, f.kind, s.v) else if s.Off? then Some([]) else None
  }

  /** The fields of a message from position `i` on. */
  function FieldsBytes(fields: seq<Field>, slots: seq<Slot>, i: nat): Output
    decreases fields, |fields| - i
  {
    if i >= |fields| then Some([])
    else if |slots| != |fields| then None
    else Cat(FieldBytes(fields[i], slots[i]), FieldsBytes(fields, slots, i + 1))
  }

  /** pb_encode. */
  function MessageBytes(fields: seq<Field>, slots: seq<Slot>): Output {
    FieldsBytes(fields, slots, 0)
  }
}
