/** For every message the encoder accepts: it is delivered, or rejected because of a string that fills its buffer. */
module Delivery {
  import opened Common
  import opened Bits
  import opened Schema
  import opened Varint
  import opened Encode
  import opened Decode
  import opened Scalars
  import opened RoundTrip

  // ---------------------------------------------------------------- what is accepted

  /** Every C struct is accepted by the encoder. */
  lemma {:induction false} ValueFitsTyped(k: Kind, v: Value)
    requires ValueFits(k, v, 0)
    ensures TypedValue(k, v)
    decreases k
  {
    if k.Submessage? { StructIsTyped(k.fields, v.slots); }
  }

  lemma {:induction false} SlotFitsTyped(f: Field, s: Slot)
    requires SlotFits(f, s, 0)
    ensures TypedSlot(f, s)
    decreases f
  {
    hide ValueFits, TypedValue;
    if s.Many? {
      forall i | 0 <= i < |s.items| ensures TypedValue(f.kind, s.items[i]) { ValueFitsTyped(f.kind, s.items[i]); }
    } else if s.One? || s.On? || s.Opt? {
      ValueFitsTyped(f.kind, s.v);
    }
  }

  lemma {:induction false} StructIsTyped(fields: seq<Field>, slots: seq<Slot>)
    requires MessageFits(fields, slots, 0)
    ensures Typed(fields, slots)
    decreases fields
  {
    forall i | 0 <= i < |fields| ensures TypedSlot(fields[i], slots[i]) { SlotFitsTyped(fields[i], slots[i]); }
  }

  /** A value that is left out as zero needs no room. */
  lemma {:induction false} ZeroIsSendable(k: Kind, v: Value)
    requires ValidKind(k) && TypedValue(k, v) && IsZeroValue(k, v)
    ensures SendableValue(k, v)
    decreases k
  {
    if k.Submessage? {
      forall i | 0 <= i < |k.fields| ensures SendableSlot(k.fields[i], v.slots[i]) {
        UnsetIsSendable(k.fields[i], v.slots[i]);
      }
    }
  }

  lemma {:induction false} UnsetIsSendable(f: Field, s: Slot)
    requires ValidField(f) && TypedSlot(f, s) && IsUnsetSlot(f, s)
    ensures SendableSlot(f, s)
    decreases f
  {
    if f.rule.Singular? { ZeroIsSendable(f.kind, s.v); }
  }

  // ---------------------------------------------------------------- rejection

  lemma {:induction false} ValueRejected(k: Kind, v: Value, rest: seq<byte>)
    requires ValidKind(k) && TypedValue(k, v) && !SendableValue(k, v)
    requires ValueBytes(k, v).Some? && |ValueBytes(k, v).value| < TWO32
    ensures DecodeValue(k, Zero(k), ValueBytes(k, v).value + rest) == Bad
    decreases k
  {
    hide Decode32, TakePrefixed, Prefixed, ScalarBytes, DecodeScalar, Merge, SendableScalar, Sendable, Typed;
    if k.Submessage? {
      var body := FieldsBytes(k.fields, v.slots, 0).value;
      PrefixedNonEmpty(body);
      TakePrefixedRoundTrip(body, rest);
      MessageRejected(k.fields, v.slots);
    } else {
      ScalarArrivesIff(k, v, rest);
    }
  }

  lemma {:induction false} FieldValueRejected(f: Field, s: Slot, v: Value, rest: seq<byte>)
    requires ValidField(f) && TypedValue(f.kind, v) && !SendableValue(f.kind, v) && s == DefaultSlot(f)
    requires !f.rule.Repeated? && !f.rule.FixedCount?
    requires ValueBytes(f.kind, v).Some? && |ValueBytes(f.kind, v).value| < TWO32
    ensures FieldValue(f, s, ValueBytes(f.kind, v).value + rest) == Bad
    decreases f
  {
    hide SendableValue, TypedValue, ValueBytes, DecodeScalar, Merge, TakePrefixed, ValidKind;
    ValueRejected(f.kind, v, rest);
  }

  lemma {:induction false} RecordRejected(fields: seq<Field>, st: State, i: nat, v: Value, rest: seq<byte>)
    requires ValidFields(fields) && i < |fields| == |st.slots| && st.slots[i] == DefaultSlot(fields[i])
    requires !fields[i].rule.Repeated? && !fields[i].rule.FixedCount?
    requires TypedValue(fields[i].kind, v) && !SendableValue(fields[i].kind, v)
    requires var b := RecordBytes(fields[i].tag, fields[i].kind, v); b.Some? && |b.value| < TWO32
    ensures RunFields(fields, st, RecordBytes(fields[i].tag, fields[i].kind, v).value + rest) == Failed
    decreases fields, 0
  {
    hide RunFields, ValueBytes, Tag, DefaultSlot, SendableValue, TypedValue, FieldValue, StoreValue;
    var f := fields[i];
    assert ValidField(f);
    var payload := ValueBytes(f.kind, v).value;
    assert RecordBytes(f.tag, f.kind, v).value + rest == Tag(f.tag, WireType(f.kind)) + (payload + rest);
    FieldValueRejected(f, st.slots[i], v, rest);
    TagStep(fields, st, i, WireType(f.kind), payload + rest);
  }

  lemma {:induction false} ItemRejected(f: Field, acc: seq<Value>, v: Value, rest: seq<byte>)
    requires ValidField(f) && TypedValue(f.kind, v) && !SendableValue(f.kind, v)
    requires (f.rule.Repeated? || f.rule.FixedCount?) && !Packable(f.kind)
    requires ValueBytes(f.kind, v).Some? && |ValueBytes(f.kind, v).value| < TWO32
    ensures FieldItems(f, acc, WireType(f.kind), ValueBytes(f.kind, v).value + rest) == Bad
    decreases f
  {
    hide SendableValue, TypedValue, ValueBytes, DecodeValue, ValidKind, ScalarFits, Zero;
    ValueRejected(f.kind, v, rest);
  }

  /** The records of an array up to the first that cannot be held. */
  lemma {:induction false} RecordsRejected(fields: seq<Field>, st: State, i: nat, acc: seq<Value>, items: seq<Value>,
                                           rest: seq<byte>)
    requires ValidFields(fields) && i < |fields| == |st.slots|
    requires (fields[i].rule.Repeated? || fields[i].rule.FixedCount?) && !Packable(fields[i].kind)
    requires Received(fields, st, i) == Some(acc) && |acc| + |items| <= fields[i].rule.max
    requires fields[i].rule.FixedCount? ==> |Items(st.slots[i])| == fields[i].rule.max
    requires forall j | 0 <= j < |items| :: TypedValue(fields[i].kind, items[j])
    requires exists j :: 0 <= j < |items| && !SendableValue(fields[i].kind, items[j])
    requires var b := RecordsBytes(fields[i].tag, fields[i].kind, items); b.Some? && |b.value| < TWO32
    ensures RunFields(fields, st, RecordsBytes(fields[i].tag, fields[i].kind, items).value + rest) == Failed
    decreases fields, 0, |items|
  {
    hide RunFields, SendableValue, TypedValue, NormalValue, Received, StoreItems, ValueBytes, Tag, WireType, FieldItems,
         ValidFields;
    var f := fields[i];
    assert ValidField(f) by { FieldIsValid(fields, i); }
    var payload := ValueBytes(f.kind, items[0]).value;
    var more := RecordsBytes(f.tag, f.kind, items[1..]).value;
    assert RecordsBytes(f.tag, f.kind, items).value + rest == Tag(f.tag, WireType(f.kind)) + (payload + (more + rest));
    TagStep(fields, st, i, WireType(f.kind), payload + (more + rest));
    if SendableValue(f.kind, items[0]) {
      var v := NormalValue(f.kind, items[0]);
      FieldItemArrives(f, acc, items[0], more + rest);
      ReceivedAfterStore(fields, st, i, acc + [v]);
      var j :| 0 <= j < |items| && !SendableValue(f.kind, items[j]);
      assert items[1..][j - 1] == items[j];
      RecordsRejected(fields, StoreItems(fields, st, i, acc + [v]), i, acc + [v], items[1..], rest);
    } else {
      ItemRejected(f, acc, items[0], more + rest);
    }
  }

  lemma PackableSendable(k: Kind, v: Value)
    requires Packable(k) && TypedValue(k, v)
    ensures SendableValue(k, v)
  {}

  lemma {:induction false} FieldRejected(fields: seq<Field>, slots: seq<Slot>, sent: set<nat>, i: nat, st: State,
                                         rest: seq<byte>)
    requires ValidFields(fields) && Arrived(fields, slots, sent, st) && i < |fields| && i !in sent
    requires TypedSlot(fields[i], slots[i]) && !SendableSlot(fields[i], slots[i])
    requires FieldBytes(fields[i], slots[i]).Some? && |FieldBytes(fields[i], slots[i]).value| < TWO32
    ensures |st.slots| == |fields| && RunFields(fields, st, FieldBytes(fields[i], slots[i]).value + rest) == Failed
    decreases fields, 1
  {
    hide RunFields, RecordBytes, ItemsBytes, RecordsBytes, FixedDone, IsZeroValue, TypedValue, SendableValue, ValidKind,
         DefaultSlot;
    var f, s := fields[i], slots[i];
    assert ValidField(f);
    if f.rule.Repeated? || f.rule.FixedCount? {
      if Packable(f.kind) {
        forall j | 0 <= j < |s.items| ensures SendableValue(f.kind, s.items[j]) {
          PackableSendable(f.kind, s.items[j]);
        }
        assert false;
      }
      NothingReceived(fields, slots, sent, i, st);
      ItemRoom(fields, slots, sent, i, st);
      RecordsRejected(fields, st, i, [], s.items, rest);
    } else {
      if f.rule.Singular? && IsZeroValue(f.kind, s.v) { ZeroIsSendable(f.kind, s.v); assert false; }
      RecordRejected(fields, st, i, s.v, rest);
    }
  }

  lemma {:induction false} FieldsRejected(fields: seq<Field>, slots: seq<Slot>, i: nat, st: State)
    requires ValidFields(fields) && Typed(fields, slots) && Arrived(fields, slots, Below(i), st)
    requires exists j :: i <= j < |fields| == |slots| && !SendableSlot(fields[j], slots[j])
    requires FieldsBytes(fields, slots, i).Some? && |FieldsBytes(fields, slots, i).value| < TWO32
    ensures |st.slots| == |fields| && RunFields(fields, st, FieldsBytes(fields, slots, i).value) == Failed
    decreases fields, 2, |fields| - i
  {
    hide ValidFields, Arrived, FieldBytes, TypedSlot, SendableSlot, RunFields, Below;
    ArrivedShape(fields, slots, Below(i), st);
    BelowNext(i);
    var rest := FieldsBytes(fields, slots, i + 1).value;
    if SendableSlot(fields[i], slots[i]) {
      var next := FieldArrives(fields, slots, Below(i), i, st, rest);
      FieldsRejected(fields, slots, i + 1, next);
    } else {
      FieldRejected(fields, slots, Below(i), i, st, rest);
    }
  }

  lemma {:induction false} MessageRejected(fields: seq<Field>, slots: seq<Slot>)
    requires ValidFields(fields) && Typed(fields, slots) && !Sendable(fields, slots)
    requires FieldsBytes(fields, slots, 0).Some? && |FieldsBytes(fields, slots, 0).value| < TWO32
    ensures Merge(fields, Defaults(fields), FieldsBytes(fields, slots, 0).value) == Bad
    decreases fields, 3
  {
    hide FieldsBytes, RunFields, ValidFields, NormalSlot, DefaultSlot, SendableSlot, TypedSlot;
    BelowNext(0);
    assert Arrived(fields, slots, Below(0), Start(Defaults(fields)));
    FieldsRejected(fields, slots, 0, Start(Defaults(fields)));
  }

  // ---------------------------------------------------------------- the theorem

  /** For every message the encoder accepts, hence for every C struct: pb_encode has an output, and pb_decode of it
      returns the message as it arrives when each string sent leaves room for its terminator, and fails otherwise. */
  lemma DeliveredIff(fields: seq<Field>, slots: seq<Slot>)
    requires ValidFields(fields) && Typed(fields, slots)
    ensures MessageBytes(fields, slots).Some?
    ensures |MessageBytes(fields, slots).value| < TWO32 ==>
              DecodeMessage(fields, MessageBytes(fields, slots).value) ==
              if Sendable(fields, slots) then Got(Normal(fields, slots), []) else Bad
  {
    hide Sendable, Typed, FieldsBytes, Merge, Normal, ValidFields;
    FieldsEncode(fields, slots, 0);
    if |MessageBytes(fields, slots).value| < TWO32 {
      if Sendable(fields, slots) { MessageArrives(fields, slots); } else { MessageRejected(fields, slots); }
    }
  }
}
