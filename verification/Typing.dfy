/** Whatever the input, a successful decode leaves a struct of the descriptor: no array, string or byte buffer
    holds more than its size, every integer fits its width, a oneof has at most one active member. */
module Typing {
  import opened Bits
  import opened Schema
  import opened Varint
  import opened Encode
  import opened Scalars
  import opened RoundTrip
  import opened Decode

  lemma VarintFits(k: Kind, u: nat, rest: seq<byte>)
    requires k.VarInt? || k.UVarInt? || k.SVarInt?
    requires u < TWO64 && FromVarint(k, u, rest).Got?
    ensures ScalarFits(k, FromVarint(k, u, rest).v)
  {
    match k
    case VarInt(w) =>
    case SVarInt(w) =>
    case UVarInt(w) =>
  }

  lemma ScalarDecodesFit(k: Kind, inp: seq<byte>, room: nat)
    requires !k.Submessage? && ValidKind(k) && DecodeScalar(k, inp).Got? && room <= 1
    ensures ValueFits(k, DecodeScalar(k, inp).v, room)
  {
    hide Decode32, Decode64, FromVarint, FromLittleEndian;
    if k.VarInt? || k.UVarInt? || k.SVarInt? {
      Decode64Bound(inp);
      VarintFits(k, Decode64(inp).v, Decode64(inp).rest);
    } else if k.Fixed32? {
      LittleEndianBound(Take(inp, 4).v);
      Pow2At32();
    } else if k.Fixed64? {
      LittleEndianBound(Take(inp, 8).v);
      Pow2At64();
    }
  }

  lemma {:induction false} PackedFit(k: Kind, max: nat, acc: seq<Value>, inp: seq<byte>, room: nat)
    requires room <= 1 && Packable(k) && ValidKind(k) && |acc| <= max && DecodePacked(k, max, acc, inp).Got?
    requires forall i | 0 <= i < |acc| :: ValueFits(k, acc[i], room)
    ensures var r := DecodePacked(k, max, acc, inp).v;
            |acc| <= |r| <= max && forall i | 0 <= i < |r| :: ValueFits(k, r[i], room)
    decreases |inp|
  {
    hide DecodeScalar, ScalarFits;
    if inp != [] && |acc| < max {
      ScalarDecodesFit(k, inp, room);
      PackedFit(k, max, acc + [DecodeScalar(k, inp).v], DecodeScalar(k, inp).rest, room);
    }
  }

  lemma {:induction false} ValueDecodesFit(k: Kind, prior: Value, inp: seq<byte>, room: nat)
    requires room <= 1 && ValidKind(k) && RoomyKind(k, room) && ValueFits(k, prior, room) &&
             DecodeValue(k, prior, inp).Got?
    ensures ValueFits(k, DecodeValue(k, prior, inp).v, room)
    decreases k
  {
    hide DecodeScalar, TakePrefixed, Merge, MessageFits, ScalarFits, ValidFields, RoomyFields;
    if k.Submessage? {
      assert |prior.slots| == |k.fields| by { FitsLength(k.fields, prior.slots, room); }
      MergeFits(k.fields, prior.slots, TakePrefixed(inp).v, room);
    } else {
      ScalarDecodesFit(k, inp, room);
    }
  }

  lemma FitsLength(fields: seq<Field>, slots: seq<Slot>, room: nat)
    requires MessageFits(fields, slots, room)
    ensures |slots| == |fields|
  {}

  lemma {:induction false} ArrayDecodesFit(f: Field, acc: seq<Value>, wire: nat, inp: seq<byte>, room: nat)
    requires room <= 1 && ValidField(f) && RoomyField(f, room) && (f.rule.Repeated? || f.rule.FixedCount?)
    requires |acc| <= f.rule.max && forall i | 0 <= i < |acc| :: ValueFits(f.kind, acc[i], room)
    requires FieldItems(f, acc, wire, inp).Got?
    ensures var r := FieldItems(f, acc, wire, inp).v;
            |acc| <= |r| <= f.rule.max && forall i | 0 <= i < |r| :: ValueFits(f.kind, r[i], room)
    decreases f
  {
    hide DecodeValue, TakePrefixed, DecodePacked, ScalarFits, ValidKind, RoomyKind, Zero, ValueFits;
    if wire == WT_STRING && Packable(f.kind) {
      PackedFit(f.kind, f.rule.max, acc, TakePrefixed(inp).v, room);
    } else {
      ZeroFits(f.kind, room);
      ValueDecodesFit(f.kind, Zero(f.kind), inp, room);
    }
  }

  lemma {:induction false} FieldDecodesFit(f: Field, s: Slot, inp: seq<byte>, room: nat)
    requires room <= 1 && ValidField(f) && RoomyField(f, room) && SlotFits(f, s, room) && FieldValue(f, s, inp).Got?
    ensures ValueFits(f.kind, FieldValue(f, s, inp).v, room)
    decreases f
  {
    hide DecodeValue, ValueFits, ScalarFits, ValidKind, RoomyKind, Zero;
    ZeroFits(f.kind, room);
    assert ValueFits(f.kind, InitValue(f), room) by { InitFits(f, room); }
    ValueDecodesFit(f.kind, if f.rule.Oneof? then Zero(f.kind) else OldValue(f, s), inp, room);
  }

  lemma InitFits(f: Field, room: nat)
    requires ValidField(f) && RoomyField(f, room)
    ensures ValueFits(f.kind, InitValue(f), room)
  {
    ZeroFits(f.kind, room);
  }

  /** One record keeps the message well-formed. */
  lemma {:induction false} StepFits(fields: seq<Field>, st: State, i: nat, wire: nat, inp: seq<byte>, room: nat)
    requires room <= 1 && ValidFields(fields) && RoomyFields(fields, room) && MessageFits(fields, st.slots, room) &&
             i < |fields|
    requires |st.slots| == |fields| && DecodeField(fields, st, i, wire, inp).Got?
    ensures MessageFits(fields, DecodeField(fields, st, i, wire, inp).v.slots, room)
    decreases fields, 0
  {
    hide ValidField, RoomyField, ValueFits, FieldItems, FieldValue, Activate, StoreItems, StoreValue, Received;
    var f := fields[i];
    assert ValidField(f) && RoomyField(f, room);
    assert SlotFits(f, st.slots[i], room);
    if f.rule.Repeated? || f.rule.FixedCount? {
      var acc := Received(fields, st, i).value;
      ReceivedFits(fields, st, i, room);
      ArrayDecodesFit(f, acc, wire, inp, room);
      StoreItemsFits(fields, st, i, FieldItems(f, acc, wire, inp).v, room);
    } else {
      FieldDecodesFit(f, st.slots[i], inp, room);
      StoreValueFits(fields, st, i, FieldValue(f, st.slots[i], inp).v, room);
    }
  }

  lemma ReceivedFits(fields: seq<Field>, st: State, i: nat, room: nat)
    requires i < |fields| == |st.slots| && SlotFits(fields[i], st.slots[i], room)
    requires (fields[i].rule.Repeated? || fields[i].rule.FixedCount?) && Received(fields, st, i).Some?
    ensures var acc := Received(fields, st, i).value;
            |acc| <= fields[i].rule.max && forall j | 0 <= j < |acc| :: ValueFits(fields[i].kind, acc[j], room)
  {
    hide ValueFits;
  }

  lemma StoreItemsFits(fields: seq<Field>, st: State, i: nat, items: seq<Value>, room: nat)
    requires MessageFits(fields, st.slots, room) && i < |fields| == |st.slots|
    requires (fields[i].rule.Repeated? || fields[i].rule.FixedCount?) && |items| <= fields[i].rule.max
    requires forall j | 0 <= j < |items| :: ValueFits(fields[i].kind, items[j], room)
    ensures MessageFits(fields, StoreItems(fields, st, i, items).slots, room)
  {
    hide ValueFits;
    assert SlotFits(fields[i], st.slots[i], room);
    var s' := StoreItems(fields, st, i, items).slots;
    assert SlotFits(fields[i], s'[i], room);
    forall j | 0 <= j < |fields| ensures SlotFits(fields[j], s'[j], room) { if j != i { assert s'[j] == st.slots[j]; } }
  }

  lemma StoreValueFits(fields: seq<Field>, st: State, i: nat, v: Value, room: nat)
    requires MessageFits(fields, st.slots, room) && i < |fields| == |st.slots|
    requires !fields[i].rule.Repeated? && !fields[i].rule.FixedCount? && ValueFits(fields[i].kind, v, room)
    ensures MessageFits(fields, StoreValue(fields, st, i, v).slots, room)
  {
    hide ValueFits;
    var s' := StoreValue(fields, st, i, v).slots;
    forall j | 0 <= j < |fields| ensures SlotFits(fields[j], s'[j], room) {
      assert SlotFits(fields[j], st.slots[j], room);
    }
  }

  lemma {:induction false} RunFits(fields: seq<Field>, st: State, inp: seq<byte>, room: nat)
    requires room <= 1 && ValidFields(fields) && RoomyFields(fields, room)
    requires |st.slots| == |fields| && MessageFits(fields, st.slots, room)
    requires RunFields(fields, st, inp).Ran?
    ensures MessageFits(fields, RunFields(fields, st, inp).st.slots, room)
    decreases fields, 1, |inp|
  {
    hide Decode32, DecodeField, Skip, Find, MessageFits, ValidFields, RoomyFields;
    if inp != [] {
      var t := Decode32(inp);
      if t.v != 0 {
        var i := Find(fields, t.v / 8);
        if i.Some? { StepFits(fields, st, i.value, t.v % 8, t.rest, room); }
        var s := Step(fields, st, t.v / 8, t.v % 8, t.rest);
        RunFits(fields, s.v, s.rest, room);
      }
    }
  }

  /** pb_decode_noinit keeps the destination a struct of the descriptor. */
  lemma {:induction false} MergeFits(fields: seq<Field>, slots: seq<Slot>, inp: seq<byte>, room: nat)
    requires room <= 1 && ValidFields(fields) && RoomyFields(fields, room) && |slots| == |fields| &&
             MessageFits(fields, slots, room)
    requires Merge(fields, slots, inp).Got?
    ensures MessageFits(fields, Merge(fields, slots, inp).v, room)
    decreases fields, 2
  {
    hide RunFields, MessageFits, ValidFields, RoomyFields;
    RunFits(fields, Start(slots), inp, room);
  }

  /** So does pb_decode, from any bytes at all. */
  lemma DecodedFits(fields: seq<Field>, inp: seq<byte>, room: nat)
    requires room <= 1 && ValidFields(fields) && RoomyFields(fields, room) && DecodeMessage(fields, inp).Got?
    ensures MessageFits(fields, DecodeMessage(fields, inp).v, room)
  {
    hide Merge, MessageFits, ValidFields, RoomyFields, DefaultSlot;
    DefaultsFit(fields, room);
    MergeFits(fields, Defaults(fields), inp, room);
  }

  // ---------------------------------------------------------------- what was decoded can be sent on

  lemma {:induction false} RoomySendable(k: Kind, v: Value)
    requires ValueFits(k, v, 1)
    ensures SendableValue(k, v)
    decreases k
  {
    if k.Submessage? { RoomyMessageSendable(k.fields, v.slots); }
  }

  lemma {:induction false} RoomySlotSendable(f: Field, s: Slot)
    requires SlotFits(f, s, 1)
    ensures SendableSlot(f, s)
    decreases f
  {
    hide ValueFits, SendableValue;
    if s.Many? {
      forall i | 0 <= i < |s.items| ensures SendableValue(f.kind, s.items[i]) { RoomySendable(f.kind, s.items[i]); }
    } else if s.One? || s.On? || s.Opt? {
      RoomySendable(f.kind, s.v);
    }
  }

  lemma {:induction false} RoomyMessageSendable(fields: seq<Field>, slots: seq<Slot>)
    requires MessageFits(fields, slots, 1)
    ensures Sendable(fields, slots)
    decreases fields
  {
    forall i | 0 <= i < |fields| ensures SendableSlot(fields[i], slots[i]) { RoomySlotSendable(fields[i], slots[i]); }
  }

  /** For a descriptor whose default strings leave room for their terminators, whatever pb_decode makes of any bytes can
      be sent on: its encoding decodes to the message as it arrives. */
  lemma DecodedCanBeSent(fields: seq<Field>, inp: seq<byte>)
    requires ValidFields(fields) && RoomyFields(fields, 1) && DecodeMessage(fields, inp).Got?
    ensures var m := DecodeMessage(fields, inp).v;
            && Sendable(fields, m) && MessageBytes(fields, m).Some?
            && (|MessageBytes(fields, m).value| < TWO32 ==>
                  DecodeMessage(fields, MessageBytes(fields, m).value) == Got(Normal(fields, m), []))
  {
    hide DecodeMessage, MessageFits, Sendable, ValidFields, RoomyFields, MessageBytes, Normal;
    DecodedFits(fields, inp, 1);
    var m := DecodeMessage(fields, inp).v;
    RoomyMessageSendable(fields, m);
    MessageRoundTrip(fields, m);
  }
}
