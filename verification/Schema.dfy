/** Message descriptors and message values.

    A descriptor is a tree of pb_field_t tables; a message is the value tree of the C struct
    it describes, one slot per field. */
module Schema {
  import opened Bits

  /** PB_LTYPE with its data_size. */
  datatype Kind =
    | Bool
    | VarInt(width: nat)
    | UVarInt(width: nat)
    | SVarInt(width: nat)
    | Fixed32
    | Fixed64
    | Bytes(size: nat)
    | String(size: nat)
    | FixedBytes(size: nat)
    | Submessage(fields: seq<Field>, size: nat)

  /** PB_HTYPE; OPTIONAL and REPEATED split on whether the field has a has_ flag or count of its own. */
  datatype Rule =
    | Required
    | Optional
    | Singular
    | Repeated(max: nat)
    | FixedCount(max: nat)
    | Oneof(group: nat)

  datatype Field = Field(tag: nat, rule: Rule, kind: Kind, init: Value, dataOffset: nat, sizeOffset: int)

  datatype Value = Flag(b: bool) | Num(n: int) | Blob(bs: seq<byte>) | Msg(slots: seq<Slot>)

  /** One: required or proto3 singular; Opt: with its has_ flag; Many: an array with its count;
      On and Off: a oneof member that is or is not the active one. */
  datatype Slot = One(v: Value) | Opt(has: bool, v: Value) | Many(items: seq<Value>) | On(v: Value) | Off

  /** Offset of the byte data in pb_bytes_array_t, with a 32-bit pb_size_t. */
  const BYTES_HEADER: nat := 4

  /** LTYPE <= PB_LTYPE_LAST_PACKABLE. */
  predicate Packable(k: Kind) {
    k.Bool? || k.VarInt? || k.UVarInt? || k.SVarInt? || k.Fixed32? || k.Fixed64?
  }

  predicate ValidWidth(w: nat) { w == 1 || w == 2 || w == 4 || w == 8 }

  /** Number of values of an integer of `w` bytes. */
  function Modulus(w: nat): (m: nat)
    ensures m > 0 && m % 2 == 0
  {
    if w == 1 then 0x100 else if w == 2 then 0x1_0000 else if w == 4 then TWO32 else TWO64
  }

  // ---------------------------------------------------------------- default values

  /** The all-zero value of a kind; a zeroed submessage gets its defaults. */
  function Zero(k: Kind): Value
    decreases k
  {
    match k
    case Bool => Flag(false)
    case Bytes(_) => Blob([])
    case String(_) => Blob([])
    case FixedBytes(n) => Blob(seq(n, _ => 0))
    case Submessage(fields, _) => Msg(Defaults(fields))
    case _ => Num(0)
  }

  function InitValue(f: Field): Value
    decreases f, 0
  {
    if f.kind.Submessage? then Zero(f.kind) else f.init
  }

  /** pb_field_set_to_default. */
  function DefaultSlot(f: Field): Slot
    decreases f, 1
  {
    match f.rule
    case Required => One(InitValue(f))
    case Singular => One(InitValue(f))
    case Optional => Opt(false, InitValue(f))
    case Repeated(_) => Many([])
    case FixedCount(n) => Many(seq(n, _ => Zero(f.kind)))
    case Oneof(_) => Off
  }

  /** pb_message_set_to_defaults. */
  function Defaults(fields: seq<Field>): (slots: seq<Slot>)
    ensures |slots| == |fields|
    decreases fields
  {
    seq(|fields|, i requires 0 <= i < |fields| => DefaultSlot(fields[i]))
  }

  // ---------------------------------------------------------------- well-formedness

  /** A value of a non-message kind fits its C type. */
  predicate ScalarFits(k: Kind, v: Value)
    requires !k.Submessage?
  {
    match k
    case Bool => v.Flag?
    case VarInt(w) => v.Num? && -(Modulus(w) / 2) <= v.n < Modulus(w) / 2
    case SVarInt(w) => v.Num? && -(Modulus(w) / 2) <= v.n < Modulus(w) / 2
    case UVarInt(w) => v.Num? && 0 <= v.n < Modulus(w)
    case Fixed32 => v.Num? && 0 <= v.n < TWO32
    case Fixed64 => v.Num? && 0 <= v.n < TWO64
    case Bytes(n) => v.Blob? && |v.bs| + BYTES_HEADER <= n
    case String(n) => v.Blob? && |v.bs| <= n
    case FixedBytes(n) => v.Blob? && |v.bs| == n
  }

  predicate ValidKind(k: Kind)
    decreases k
  {
    match k
    case VarInt(w) => ValidWidth(w)
    case UVarInt(w) => ValidWidth(w)
    case SVarInt(w) => ValidWidth(w)
    case Bytes(n) => BYTES_HEADER <= n < TWO32
    case String(n) => 0 < n < TWO32
    case FixedBytes(n) => n < TWO32
    case Submessage(fields, _) => ValidFields(fields)
    case _ => true
  }

  predicate ValidField(f: Field)
    decreases f
  {
    && 0 < f.tag < 0x2000_0000
    && ValidKind(f.kind)
    && (!f.kind.Submessage? ==> ScalarFits(f.kind, f.init))
    && (f.rule.Singular? ==> InitValue(f) == Zero(f.kind))
  }

  predicate UniqueTags(fields: seq<Field>) {
    forall i, j | 0 <= i < j < |fields| :: fields[i].tag != fields[j].tag
  }

  /** What the generator guarantees of a descriptor: distinct non-zero field numbers within the protocol's range,
      C integer widths, defaults of the right type, and zero defaults for proto3 fields. */
  predicate ValidFields(fields: seq<Field>)
    decreases fields
  {
    && UniqueTags(fields)
    && forall i | 0 <= i < |fields| :: ValidField(fields[i])
  }

  // ---------------------------------------------------------------- messages

  /** The message is a struct of this descriptor: every value fits its C type, counts stay within the
      arrays, and a oneof has at most one active member. Each string leaves `room` bytes of its buffer. */
  predicate ValueFits(k: Kind, v: Value, room: nat)
    decreases k, 0
  {
    if k.Submessage? then v.Msg? && MessageFits(k.fields, v.slots, room)
    else ScalarFits(k, v) && (k.String? ==> |v.bs| + room <= k.size)
  }

  predicate SlotFits(f: Field, s: Slot, room: nat)
    decreases f, 0
  {
    match f.rule
    case Required => s.One? && ValueFits(f.kind, s.v, room)
    case Singular => s.One? && ValueFits(f.kind, s.v, room)
    case Optional => s.Opt? && ValueFits(f.kind, s.v, room)
    case Repeated(max) => s.Many? && |s.items| <= max &&
      forall i | 0 <= i < |s.items| :: ValueFits(f.kind, s.items[i], room)
    case FixedCount(max) => s.Many? && |s.items| == max &&
      forall i | 0 <= i < |s.items| :: ValueFits(f.kind, s.items[i], room)
    case Oneof(_) => s.Off? || (s.On? && ValueFits(f.kind, s.v, room))
  }

  predicate SameOneof(f: Field, g: Field) {
    f.rule.Oneof? && f.rule == g.rule
  }

  predicate OneActive(fields: seq<Field>, slots: seq<Slot>)
    requires |slots| == |fields|
  {
    forall i, j | 0 <= i < j < |fields| && SameOneof(fields[i], fields[j]) :: slots[i].Off? || slots[j].Off?
  }

  predicate MessageFits(fields: seq<Field>, slots: seq<Slot>, room: nat)
    decreases fields, 0
  {
    && |slots| == |fields|
    && (forall i | 0 <= i < |fields| :: SlotFits(fields[i], slots[i], room))
    && OneActive(fields, slots)
  }

  /** The default strings of the descriptor, at every depth, leave `room` bytes of their buffers. */
  predicate RoomyKind(k: Kind, room: nat)
    decreases k
  {
    match k
    case Submessage(fields, _) => RoomyFields(fields, room)
    case String(n) => room <= n
    case _ => true
  }

  predicate RoomyField(f: Field, room: nat)
    decreases f
  {
    RoomyKind(f.kind, room) && (f.kind.String? && f.init.Blob? ==> |f.init.bs| + room <= f.kind.size)
  }

  predicate RoomyFields(fields: seq<Field>, room: nat)
    decreases fields
  {
    forall i | 0 <= i < |fields| :: RoomyField(fields[i], room)
  }

  /** No room is always left. */
  lemma {:induction false} RoomlessKind(k: Kind)
    requires ValidKind(k)
    ensures RoomyKind(k, 0)
    decreases k
  {
    if k.Submessage? { Roomless(k.fields); }
  }

  lemma {:induction false} Roomless(fields: seq<Field>)
    requires ValidFields(fields)
    ensures RoomyFields(fields, 0)
    decreases fields
  {
    forall i | 0 <= i < |fields| ensures RoomyField(fields[i], 0) { RoomlessField(fields[i]); }
  }

  lemma {:induction false} RoomlessField(f: Field)
    requires ValidField(f)
    ensures RoomyField(f, 0)
    decreases f
  {
    RoomlessKind(f.kind);
  }

  /** The initial message is a struct of its descriptor. */
  lemma {:induction false} ZeroFits(k: Kind, room: nat)
    requires ValidKind(k) && RoomyKind(k, room)
    ensures ValueFits(k, Zero(k), room)
    decreases k
  {
    if k.Submessage? { DefaultsFit(k.fields, room); }
  }

  lemma {:induction false} DefaultsFit(fields: seq<Field>, room: nat)
    requires ValidFields(fields) && RoomyFields(fields, room)
    ensures MessageFits(fields, Defaults(fields), room)
    decreases fields
  {
    forall i | 0 <= i < |fields| ensures SlotFits(fields[i], Defaults(fields)[i], room) {
      DefaultSlotFits(fields[i], room);
    }
  }

  lemma {:induction false} DefaultSlotFits(f: Field, room: nat)
    requires ValidField(f) && RoomyField(f, room)
    ensures SlotFits(f, DefaultSlot(f), room)
    decreases f
  {
    ZeroFits(f.kind, room);
  }
}
