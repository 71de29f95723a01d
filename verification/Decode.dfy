/** What pb_decode reads, as a function of the descriptor, the message before and the input. */
module Decode {
  import opened Common
  import opened Bits
  import opened Schema
  import opened Varint
  import Encode

  /** The decoder tracks presence of at most this many required fields (PB_MAX_REQUIRED_FIELDS). */
  const MAX_REQUIRED: nat := 64

  // ---------------------------------------------------------------- raw input

  /** pb_read. */
  function Take(inp: seq<byte>, n: nat): (r: Read<seq<byte>>)
    ensures r.Got? ==> |r.rest| <= |inp|
  {
    if n <= |inp| then Got(inp[..n], inp[n..]) else Bad
  }

  /** A length-prefixed run of bytes: pb_make_string_substream followed by pb_close_string_substream. */
  function TakePrefixed(inp: seq<byte>): (r: Read<seq<byte>>)
    ensures r.Got? ==> |r.rest| < |inp|
  {
    var n := Decode32(inp);
    if n.Bad? then Bad else Take(n.rest, n.v)
  }

  /** pb_skip_varint. */
  function SkipVarint(inp: seq<byte>): (r: Read<()>)
    ensures r.Got? ==> |r.rest| < |inp|
  {
    if inp == [] then Bad
    else if inp[0] >= 128 then SkipVarint(inp[1..]) else Got((), inp[1..])
  }

  /** pb_skip_field. */
  function Skip(wire: nat, inp: seq<byte>): (r: Read<()>)
    ensures r.Got? ==> |r.rest| <= |inp|
  {
    if wire == Encode.WT_VARINT then SkipVarint(inp)
    else if wire == Encode.WT_64BIT then (var t := Take(inp, 8); if t.Bad? then Bad else Got((), t.rest))
    else if wire == Encode.WT_STRING then (var t := TakePrefixed(inp); if t.Bad? then Bad else Got((), t.rest))
    else if wire == Encode.WT_32BIT then (var t := Take(inp, 4); if t.Bad? then Bad else Got((), t.rest))
    else Bad
  }

  // ---------------------------------------------------------------- scalar fields

  /** pb_decode_svarint's inverse of zigzag, by shift and complement. */
  function UnZigZag(u: nat): int
    requires u < TWO64
  {
    if u % 2 == 1 then Signed(TWO64 - 1 - u / 2, TWO64) else Signed(u / 2, TWO64)
  }

  /** The value of bytes stored least significant first. */
  function FromLittleEndian(bs: seq<byte>): nat {
    if bs == [] then 0 else bs[0] + 256 * FromLittleEndian(bs[1..])
  }

  /** Store a signed value in a field of `w` bytes; fail when it does not survive. */
  function StoreSigned(s: int, w: nat, rest: seq<byte>): Read<Value> {
    if ValidWidth(w) && Signed(s, Modulus(w)) == s then Got(Num(s), rest) else Bad
  }

  /** pb_dec_varint, pb_dec_uvarint and pb_dec_svarint on the decoded 64-bit value. */
  function FromVarint(k: Kind, u: nat, rest: seq<byte>): Read<Value>
    requires k.VarInt? || k.UVarInt? || k.SVarInt?
    requires u < TWO64
  {
    match k
    case VarInt(w) =>
      // Fields of up to 32 bits go through int32_t first.
      StoreSigned(if w == 8 then Signed(u, TWO64) else Signed(u, TWO32), w, rest)
    case UVarInt(w) =>
      if ValidWidth(w) && u % Modulus(w) == u then Got(Num(u), rest) else Bad
    case SVarInt(w) => StoreSigned(UnZigZag(u), w, rest)
  }

  function DecodeVarintField(k: Kind, inp: seq<byte>): (r: Read<Value>)
    requires k.VarInt? || k.UVarInt? || k.SVarInt?
    ensures r.Got? ==> |r.rest| < |inp|
  {
    var u := Decode64(inp);
    if u.Bad? then Bad else Decode64Bound(inp); FromVarint(k, u.v, u.rest)
  }

  /** The pb_dec_ functions for kinds other than submessages. */
  function DecodeScalar(k: Kind, inp: seq<byte>): (r: Read<Value>)
    requires !k.Submessage?
    ensures r.Got? ==> |r.rest| < |inp|
  {
    match k
    case Bool =>
      var u := Decode32(inp);
      if u.Bad? then Bad else Got(Flag(u.v != 0), u.rest)
    case Fixed32 =>
      var t := Take(inp, 4);
      if t.Bad? then Bad else Got(Num(FromLittleEndian(t.v)), t.rest)
    case Fixed64 =>
      var t := Take(inp, 8);
      if t.Bad? then Bad else Got(Num(FromLittleEndian(t.v)), t.rest)
    case Bytes(n) =>
      var u := Decode32(inp);
      if u.Bad? || u.v + BYTES_HEADER > n then Bad else
      var t := Take(u.rest, u.v);
      if t.Bad? then Bad else Got(Blob(t.v), t.rest)
    case String(n) =>
      var u := Decode32(inp);
      if u.Bad? || u.v + 1 > n then Bad else
      var t := Take(u.rest, u.v);
      if t.Bad? then Bad else Got(Blob(t.v), t.rest)
    case FixedBytes(n) =>
      var u := Decode32(inp);
      if u.Bad? then Bad
      else if u.v == 0 then Got(Blob(seq(n, _ => 0)), u.rest)
      else if u.v != n then Bad
      else
        var t := Take(u.rest, n);
        if t.Bad? then Bad else Got(Blob(t.v), t.rest)
    case VarInt(_) => DecodeVarintField(k, inp)
    case UVarInt(_) => DecodeVarintField(k, inp)
    case SVarInt(_) => DecodeVarintField(k, inp)
  }

  /** The packed-array loop of decode_static_field: stops at the end of the run or when the array is full. */
  function DecodePacked(k: Kind, max: nat, acc: seq<Value>, inp: seq<byte>): (r: Read<seq<Value>>)
    requires !k.Submessage?
    decreases |inp|
  {
    if inp == [] || |acc| >= max then Got(acc, inp) else
    var v := DecodeScalar(k, inp);
    if v.Bad? then Bad else DecodePacked(k, max, acc + [v.v], v.rest)
  }

  // ---------------------------------------------------------------- messages

  /** Position of the field with this tag. */
  function Find(fields: seq<Field>, tag: nat): (r: Option<nat>)
    ensures r.Some? ==> r.value < |fields| && fields[r.value].tag == tag
    ensures r.None? ==> forall i | 0 <= i < |fields| :: fields[i].tag != tag
  {
    FindFrom(fields, tag, 0)
  }

  function FindFrom(fields: seq<Field>, tag: nat, i: nat): (r: Option<nat>)
    requires i <= |fields|
    ensures r.Some? ==> i <= r.value < |fields| && fields[r.value].tag == tag
    ensures r.None? ==> forall j | i <= j < |fields| :: fields[j].tag != tag
    decreases |fields| - i
  {
    if i == |fields| then None else if fields[i].tag == tag then Some(i) else FindFrom(fields, tag, i + 1)
  }

  /** Number of required fields among the first `i`: the iterator's required_field_index at position `i`. */
  function RequiredBefore(fields: seq<Field>, i: nat): (n: nat)
    requires i <= |fields|
    ensures n <= i
  {
    if i == 0 then 0 else RequiredBefore(fields, i - 1) + if fields[i - 1].rule.Required? then 1 else 0
  }

  /** The locals of pb_decode_noinit: the destination, the required fields met, and the fixed-count array in
      progress with the number of entries it has received. */
  datatype State = State(slots: seq<Slot>, seen: set<nat>, fixedField: Option<nat>, fixedCount: nat)

  /** The outcome of the field loop; `stopped` tells a zero tag from the end of input. */
  datatype Run = Failed | Ran(st: State, rest: seq<byte>, stopped: bool)

  function Start(slots: seq<Slot>): State {
    State(slots, {}, None, 0)
  }

  function Items(s: Slot): seq<Value> {
    if s.Many? then s.items else []
  }

  function OldValue(f: Field, s: Slot): Value {
    if s.One? || s.Opt? then s.v else InitValue(f)
  }

  /** The array and the number of its entries that count as received when a record for field `i` arrives;
      None when another fixed-count array is still incomplete. */
  function Received(fields: seq<Field>, st: State, i: nat): Option<seq<Value>>
    requires i < |fields| == |st.slots|
  {
    var items := Items(st.slots[i]);
    if !fields[i].rule.FixedCount? then Some(items)
    else if st.fixedField == Some(i) then Some(if st.fixedCount <= |items| then items[..st.fixedCount] else items)
    else if FixedDone(fields, st) then Some([])
    else None
  }

  /** No fixed-count array has been begun and left incomplete. */
  predicate FixedDone(fields: seq<Field>, st: State) {
    (st.fixedField.Some? && st.fixedField.value < |fields| && fields[st.fixedField.value].rule.FixedCount?) ==>
      st.fixedCount == fields[st.fixedField.value].rule.max
  }

  /** Make member `i` of its oneof the active one. */
  function Activate(fields: seq<Field>, slots: seq<Slot>, i: nat, v: Value): (r: seq<Slot>)
    requires i < |fields| == |slots|
    ensures |r| == |slots|
  {
    seq(|slots|, j requires 0 <= j < |slots| =>
      if j == i then On(v) else if SameOneof(fields[i], fields[j]) then Off else slots[j])
  }

  /** Store the outcome of an array record. */
  function StoreItems(fields: seq<Field>, st: State, i: nat, items: seq<Value>): (r: State)
    requires i < |fields| == |st.slots|
    ensures |r.slots| == |st.slots|
  {
    if fields[i].rule.FixedCount? then
      var prior := Items(st.slots[i]);
      var kept := if |items| <= |prior| then prior[|items|..] else [];
      st.(slots := st.slots[i := Many(items + kept)], fixedField := Some(i), fixedCount := |items|)
    else st.(slots := st.slots[i := Many(items)])
  }

  /** Store the outcome of a record for a field that is not an array. */
  function StoreValue(fields: seq<Field>, st: State, i: nat, v: Value): (r: State)
    requires i < |fields| == |st.slots|
    ensures |r.slots| == |st.slots|
  {
    match fields[i].rule
    case Required => st.(slots := st.slots[i := One(v)], seen := st.seen + {i})
    case Optional => st.(slots := st.slots[i := Opt(true, v)])
    case Oneof(_) => st.(slots := Activate(fields, st.slots, i, v))
    case _ => st.(slots := st.slots[i := One(v)])
  }

  /** pb_dec_ for any kind; `prior` is the value a submessage record merges into. */
  function DecodeValue(k: Kind, prior: Value, inp: seq<byte>): (r: Read<Value>)
    ensures r.Got? ==> |r.rest| < |inp|
    decreases k, 0
  {
    if !k.Submessage? then DecodeScalar(k, inp) else
    var t := TakePrefixed(inp);
    if t.Bad? then Bad else
    var slots := if prior.Msg? && |prior.slots| == |k.fields| then prior.slots else Defaults(k.fields);
    var m := Merge(k.fields, slots, t.v);
    if m.Bad? then Bad else Got(Msg(m.v), t.rest)
  }

  /** The REPEATED case of decode_static_field. */
  function DecodeArray(k: Kind, max: nat, acc: seq<Value>, wire: nat, inp: seq<byte>): (r: Read<seq<Value>>)
    ensures r.Got? ==> |r.rest| < |inp|
    decreases k, 1
  {
    if wire == Encode.WT_STRING && Packable(k) then
      var t := TakePrefixed(inp);
      if t.Bad? then Bad else
      var a := DecodePacked(k, max, acc, t.v);
      if a.Bad? || a.rest != [] then Bad else Got(a.v, t.rest)
    else if |acc| >= max then Bad
    else
      var v := DecodeValue(k, Zero(k), inp);
      if v.Bad? then Bad else Got(acc + [v.v], v.rest)
  }

  function FieldItems(f: Field, acc: seq<Value>, wire: nat, inp: seq<byte>): (r: Read<seq<Value>>)
    requires f.rule.Repeated? || f.rule.FixedCount?
    ensures r.Got? ==> |r.rest| < |inp|
    decreases f
  {
    DecodeArray(f.kind, f.rule.max, acc, wire, inp)
  }

  /** The other cases of decode_static_field: a oneof member is zeroed first, anything else merges. */
  function FieldValue(f: Field, s: Slot, inp: seq<byte>): (r: Read<Value>)
    ensures r.Got? ==> |r.rest| < |inp|
    decreases f
  {
    DecodeValue(f.kind, if f.rule.Oneof? then Zero(f.kind) else OldValue(f, s), inp)
  }

  /** decode_field for the field at position `i`. The wire type matters to arrays only. */
  function DecodeField(fields: seq<Field>, st: State, i: nat, wire: nat, inp: seq<byte>): (r: Read<State>)
    requires i < |fields| == |st.slots|
    ensures r.Got? ==> |r.rest| < |inp| && |r.v.slots| == |st.slots|
    decreases fields, 0
  {
    var f := fields[i];
    if f.rule.Repeated? || f.rule.FixedCount? then
      var acc := Received(fields, st, i);
      if acc.None? then Bad else
      var a := FieldItems(f, acc.value, wire, inp);
      if a.Bad? then Bad else Got(StoreItems(fields, st, i, a.v), a.rest)
    else
      var v := FieldValue(f, st.slots[i], inp);
      if v.Bad? then Bad else Got(StoreValue(fields, st, i, v.v), v.rest)
  }

  /** One turn of the field loop after the tag. In an empty descriptor the terminator itself has tag zero and
      the type bits of a required bool. */
  function Step(fields: seq<Field>, st: State, tag: nat, wire: nat, inp: seq<byte>): (r: Read<State>)
    requires |st.slots| == |fields|
    ensures r.Got? ==> |r.rest| <= |inp| && |r.v.slots| == |fields|
    decreases fields, 1
  {
    var i := Find(fields, tag);
    if i.Some? then DecodeField(fields, st, i.value, wire, inp)
    else if fields == [] && tag == 0 then
      (var u := Decode32(inp); if u.Bad? then Bad else Got(st, u.rest))
    else
      (var u := Skip(wire, inp); if u.Bad? then Bad else Got(st, u.rest))
  }

  /** The field loop of pb_decode_noinit. */
  function RunFields(fields: seq<Field>, st: State, inp: seq<byte>): (r: Run)
    requires |st.slots| == |fields|
    ensures r.Ran? ==> |r.st.slots| == |fields|
    decreases fields, 2, |inp|
  {
    if inp == [] then Ran(st, [], false) else
    var t := Decode32(inp);
    if t.Bad? then Failed
    else if t.v == 0 then Ran(st, t.rest, true)
    else
      var s := Step(fields, st, t.v / 8, t.v % 8, t.rest);
      if s.Bad? then Failed else RunFields(fields, s.v, s.rest)
  }

  /** The checks after the loop: the last fixed-count array is complete and the tracked required fields were met. */
  predicate Complete(fields: seq<Field>, st: State) {
    && FixedDone(fields, st)
    && forall i | 0 <= i < |fields| && fields[i].rule.Required? && RequiredBefore(fields, i) < MAX_REQUIRED ::
         i in st.seen
  }

  /** pb_decode_noinit. */
  function Merge(fields: seq<Field>, slots: seq<Slot>, inp: seq<byte>): (r: Read<seq<Slot>>)
    requires |slots| == |fields|
    ensures r.Got? ==> |r.v| == |fields|
    decreases fields, 3
  {
    var r := RunFields(fields, Start(slots), inp);
    if r.Ran? && Complete(fields, r.st) then Got(r.st.slots, r.rest) else Bad
  }

  /** pb_decode. */
  function DecodeMessage(fields: seq<Field>, inp: seq<byte>): (r: Read<seq<Slot>>)
    ensures r.Got? ==> |r.v| == |fields|
  {
    Merge(fields, Defaults(fields), inp)
  }

  /** pb_decode_delimited. */
  function DecodeDelimited(fields: seq<Field>, inp: seq<byte>): (r: Read<seq<Slot>>)
    ensures r.Got? ==> |r.v| == |fields| && |r.rest| < |inp|
  {
    var t := TakePrefixed(inp);
    if t.Bad? then Bad else
    var m := DecodeMessage(fields, t.v);
    if m.Bad? then Bad else Got(m.v, t.rest)
  }
}
