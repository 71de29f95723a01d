/** pb_decode undoes pb_encode on whole messages. */
module RoundTrip {
  import opened Common
  import opened Bits
  import opened Schema
  import opened Varint
  import opened Encode
  import opened Decode
  import opened Scalars

  // ---------------------------------------------------------------- what is sent and what arrives

  /** A message the encoder accepts: its present values fit their C types. The value of an absent optional is
      irrelevant. */
  predicate TypedValue(k: Kind, v: Value)
    decreases k, 0
  {
    if k.Submessage? then v.Msg? && Typed(k.fields, v.slots) else ScalarFits(k, v)
  }

  predicate TypedSlot(f: Field, s: Slot)
    decreases f, 0
  {
    match f.rule
    case Required => s.One? && TypedValue(f.kind, s.v)
    case Singular => s.One? && TypedValue(f.kind, s.v)
    case Optional => s.Opt? && (s.has ==> TypedValue(f.kind, s.v))
    case Repeated(max) => s.Many? && |s.items| <= max && forall i | 0 <= i < |s.items| :: TypedValue(f.kind, s.items[i])
    case FixedCount(max) => s.Many? && |s.items| == max &&
      forall i | 0 <= i < |s.items| :: TypedValue(f.kind, s.items[i])
    case Oneof(_) => s.Off? || (s.On? && TypedValue(f.kind, s.v))
  }

  predicate Typed(fields: seq<Field>, slots: seq<Slot>)
    decreases fields, 0
  {
    && |slots| == |fields|
    && (forall i | 0 <= i < |fields| :: TypedSlot(fields[i], slots[i]))
    && OneActive(fields, slots)
  }

  /** A message the decoder can hold as well: its present strings leave room for their terminators. */
  predicate SendableValue(k: Kind, v: Value)
    decreases k, 0
  {
    if k.Submessage? then v.Msg? && Sendable(k.fields, v.slots) else SendableScalar(k, v)
  }

  predicate SendableSlot(f: Field, s: Slot)
    decreases f, 0
  {
    match f.rule
    case Required => s.One? && SendableValue(f.kind, s.v)
    case Singular => s.One? && SendableValue(f.kind, s.v)
    case Optional => s.Opt? && (s.has ==> SendableValue(f.kind, s.v))
    case Repeated(max) => s.Many? && |s.items| <= max &&
      forall i | 0 <= i < |s.items| :: SendableValue(f.kind, s.items[i])
    case FixedCount(max) => s.Many? && |s.items| == max &&
      forall i | 0 <= i < |s.items| :: SendableValue(f.kind, s.items[i])
    case Oneof(_) => s.Off? || (s.On? && SendableValue(f.kind, s.v))
  }

  predicate Sendable(fields: seq<Field>, slots: seq<Slot>)
    decreases fields, 0
  {
    && |slots| == |fields|
    && (forall i | 0 <= i < |fields| :: SendableSlot(fields[i], slots[i]))
    && OneActive(fields, slots)
  }

  /** The message as it arrives: absent optionals are back at their defaults, strings end at their first zero byte,
      everything else is unchanged. */
  function NormalValue(k: Kind, v: Value): Value
    decreases k, 0
  {
    if k.Submessage? && v.Msg? && |v.slots| == |k.fields| then Msg(Normal(k.fields, v.slots))
    else Delivered(k, v)
  }

  function NormalItems(k: Kind, items: seq<Value>): (r: seq<Value>)
    ensures |r| == |items|
    decreases k, 1
  {
    seq(|items|, i requires 0 <= i < |items| => NormalValue(k, items[i]))
  }

  function NormalSlot(f: Field, s: Slot): Slot
    decreases f, 0
  {
    match s
    case One(v) => One(NormalValue(f.kind, v))
    case Opt(has, v) => if has then Opt(true, NormalValue(f.kind, v)) else Opt(false, InitValue(f))
    case Many(items) => Many(NormalItems(f.kind, items))
    case On(v) => On(NormalValue(f.kind, v))
    case Off => Off
  }

  function Normal(fields: seq<Field>, slots: seq<Slot>): (r: seq<Slot>)
    requires |slots| == |fields|
    ensures |r| == |slots|
    decreases fields, 0
  {
    seq(|fields|, i requires 0 <= i < |fields| => NormalSlot(fields[i], slots[i]))
  }

  lemma {:induction false} NormalValueTwice(k: Kind, v: Value)
    ensures NormalValue(k, NormalValue(k, v)) == NormalValue(k, v)
    decreases k
  {
    if k.Submessage? {
      if v.Msg? && |v.slots| == |k.fields| { NormalTwice(k.fields, v.slots); }
    } else if k.String? && v.Blob? {
      var len := CStringLength(v.bs, k.size);
      assert CStringLength(v.bs[..len], k.size) == len;
    }
  }

  lemma {:induction false} NormalSlotTwice(f: Field, s: Slot)
    ensures NormalSlot(f, NormalSlot(f, s)) == NormalSlot(f, s)
    decreases f
  {
    hide NormalValue;
    match s
    case Many(items) =>
      forall i | 0 <= i < |items|
        ensures NormalValue(f.kind, NormalValue(f.kind, items[i])) == NormalValue(f.kind, items[i])
      {
        NormalValueTwice(f.kind, items[i]);
      }
    case One(v) => NormalValueTwice(f.kind, v);
    case On(v) => NormalValueTwice(f.kind, v);
    case Opt(_, v) => NormalValueTwice(f.kind, v);
    case Off =>
  }

  /** A message that has arrived arrives unchanged when it is sent again. */
  lemma {:induction false} NormalTwice(fields: seq<Field>, slots: seq<Slot>)
    requires |slots| == |fields|
    ensures Normal(fields, Normal(fields, slots)) == Normal(fields, slots)
    decreases fields
  {
    hide NormalSlot;
    forall i | 0 <= i < |fields|
      ensures NormalSlot(fields[i], NormalSlot(fields[i], slots[i])) == NormalSlot(fields[i], slots[i])
    {
      NormalSlotTwice(fields[i], slots[i]);
    }
  }

  /** What the encoder leaves out as zero is what the decoder starts from. */
  lemma {:induction false} ZeroIsNormal(k: Kind, v: Value)
    requires ValidKind(k) && SendableValue(k, v) && IsZeroValue(k, v)
    ensures NormalValue(k, v) == Zero(k)
    decreases k
  {
    if k.Submessage? {
      assert Normal(k.fields, v.slots) == Defaults(k.fields) by {
        forall i | 0 <= i < |k.fields| ensures NormalSlot(k.fields[i], v.slots[i]) == DefaultSlot(k.fields[i]) {
          UnsetIsDefault(k.fields[i], v.slots[i]);
        }
      }
    }
  }

  lemma {:induction false} UnsetIsDefault(f: Field, s: Slot)
    requires ValidField(f) && SendableSlot(f, s) && IsUnsetSlot(f, s)
    ensures NormalSlot(f, s) == DefaultSlot(f)
    decreases f
  {
    if f.rule.Singular? { ZeroIsNormal(f.kind, s.v); }
  }

  // ---------------------------------------------------------------- encoding succeeds

  lemma {:induction false} ValueEncodes(k: Kind, v: Value)
    requires ValidKind(k) && TypedValue(k, v)
    ensures ValueBytes(k, v).Some?
    decreases k, 0
  {
    if k.Submessage? { FieldsEncode(k.fields, v.slots, 0); } else { ScalarArrivesIff(k, v, []); }
  }

  lemma {:induction false} ItemsEncode(tag: nat, k: Kind, items: seq<Value>)
    requires ValidKind(k) && forall i | 0 <= i < |items| :: TypedValue(k, items[i])
    ensures ItemsBytes(k, items).Some? && RecordsBytes(tag, k, items).Some?
    decreases k, 1, |items|
  {
    if items != [] {
      ValueEncodes(k, items[0]);
      ItemsEncode(tag, k, items[1..]);
    }
  }

  lemma {:induction false} FieldEncodes(f: Field, s: Slot)
    requires ValidField(f) && TypedSlot(f, s)
    ensures FieldBytes(f, s).Some?
    decreases f
  {
    if s.Many? {
      ItemsEncode(f.tag, f.kind, s.items);
    } else if s.One? || s.On? || (s.Opt? && s.has) {
      ValueEncodes(f.kind, s.v);
    }
  }

  lemma {:induction false} FieldsEncode(fields: seq<Field>, slots: seq<Slot>, i: nat)
    requires ValidFields(fields) && Typed(fields, slots)
    ensures FieldsBytes(fields, slots, i).Some?
    decreases fields, |fields| - i
  {
    if i < |fields| {
      FieldEncodes(fields[i], slots[i]);
      FieldsEncode(fields, slots, i + 1);
    }
  }

  lemma {:induction false} SendableValueIsTyped(k: Kind, v: Value)
    requires SendableValue(k, v)
    ensures TypedValue(k, v)
    decreases k
  {
    if k.Submessage? { SendableIsTyped(k.fields, v.slots); }
  }

  lemma {:induction false} SendableSlotIsTyped(f: Field, s: Slot)
    requires SendableSlot(f, s)
    ensures TypedSlot(f, s)
    decreases f
  {
    hide SendableValue, TypedValue;
    if s.Many? {
      forall i | 0 <= i < |s.items| ensures TypedValue(f.kind, s.items[i]) { SendableValueIsTyped(f.kind, s.items[i]); }
    } else if s.One? || s.On? || (s.Opt? && s.has) {
      SendableValueIsTyped(f.kind, s.v);
    }
  }

  lemma {:induction false} SendableIsTyped(fields: seq<Field>, slots: seq<Slot>)
    requires Sendable(fields, slots)
    ensures Typed(fields, slots)
    decreases fields
  {
    forall i | 0 <= i < |fields| ensures TypedSlot(fields[i], slots[i]) { SendableSlotIsTyped(fields[i], slots[i]); }
  }

  // ---------------------------------------------------------------- reading one record

  lemma {:induction false} FindUnique(fields: seq<Field>, i: nat)
    requires UniqueTags(fields) && i < |fields|
    ensures Find(fields, fields[i].tag) == Some(i)
  {
    var r := Find(fields, fields[i].tag);
    assert r.Some?;
  }

  /** A tag written by the encoder brings the decoder to its field. */
  lemma TagStep(fields: seq<Field>, st: State, i: nat, wire: nat, inp: seq<byte>)
    requires ValidFields(fields) && i < |fields| == |st.slots| && wire < 8
    ensures var s := DecodeField(fields, st, i, wire, inp);
            RunFields(fields, st, Tag(fields[i].tag, wire) + inp) ==
            if s.Bad? then Failed else RunFields(fields, s.v, s.rest)
  {
    hide DecodeField, Decode32, Encoded, ValidField, Find;
    assert ValidField(fields[i]);
    TagInRange(fields[i]);
    var t := fields[i].tag * 8 + wire;
    Decode32Encoded(t, inp);
    FindUnique(fields, i);
    DivUnique(t, 8, fields[i].tag, wire);
  }

  lemma TagInRange(f: Field)
    requires ValidField(f)
    ensures 0 < f.tag < 0x2000_0000
  {}

  // ---------------------------------------------------------------- packed arrays

  lemma {:induction false} PackedRoundTrip(k: Kind, max: nat, acc: seq<Value>, items: seq<Value>)
    requires Packable(k) && ValidKind(k) && |acc| + |items| <= max
    requires forall i | 0 <= i < |items| :: SendableScalar(k, items[i])
    ensures ItemsBytes(k, items).Some?
    ensures DecodePacked(k, max, acc, ItemsBytes(k, items).value) == Got(acc + items, [])
    decreases |items|
  {
    hide ScalarBytes, DecodeScalar;
    if items == [] {
      assert acc + items == acc;
    } else {
      PackedRoundTrip(k, max, acc + [items[0]], items[1..]);
      var rest := ItemsBytes(k, items[1..]).value;
      ScalarRoundTrip(k, items[0], rest);
      assert acc + [items[0]] + items[1..] == acc + items;
    }
  }

  // ---------------------------------------------------------------- values

  /** The fields of a message decode one after the other; see FieldsArrive. */
  lemma {:induction false} ValueArrives(k: Kind, v: Value, rest: seq<byte>)
    requires ValidKind(k) && SendableValue(k, v)
    requires ValueBytes(k, v).Some? && |ValueBytes(k, v).value| < TWO32
    ensures DecodeValue(k, Zero(k), ValueBytes(k, v).value + rest) == Got(NormalValue(k, v), rest)
    decreases k
  {
    hide Decode32, TakePrefixed, Prefixed, ScalarBytes, DecodeScalar, Merge, SendableScalar;
    if k.Submessage? {
      var body := FieldsBytes(k.fields, v.slots, 0).value;
      PrefixedNonEmpty(body);
      TakePrefixedRoundTrip(body, rest);
      MessageArrives(k.fields, v.slots);
    } else {
      ScalarRoundTrip(k, v, rest);
    }
  }

  lemma {:induction false} FieldValueArrives(f: Field, s: Slot, v: Value, rest: seq<byte>)
    requires ValidField(f) && SendableValue(f.kind, v) && s == DefaultSlot(f)
    requires !f.rule.Repeated? && !f.rule.FixedCount?
    requires ValueBytes(f.kind, v).Some? && |ValueBytes(f.kind, v).value| < TWO32
    ensures FieldValue(f, s, ValueBytes(f.kind, v).value + rest) == Got(NormalValue(f.kind, v), rest)
    decreases f
  {
    hide SendableValue, ValueBytes, NormalValue, DecodeScalar, Merge, TakePrefixed, ValidKind;
    ValueArrives(f.kind, v, rest);
  }

  lemma {:induction false} FieldItemArrives(f: Field, acc: seq<Value>, v: Value, rest: seq<byte>)
    requires ValidField(f) && SendableValue(f.kind, v)
    requires f.rule.Repeated? || f.rule.FixedCount?
    requires !Packable(f.kind) && |acc| < f.rule.max
    requires ValueBytes(f.kind, v).Some? && |ValueBytes(f.kind, v).value| < TWO32
    ensures FieldItems(f, acc, WireType(f.kind), ValueBytes(f.kind, v).value + rest) ==
            Got(acc + [NormalValue(f.kind, v)], rest)
    decreases f
  {
    hide SendableValue, ValueBytes, NormalValue, DecodeValue, ValidKind, ScalarFits, Zero;
    ValueArrives(f.kind, v, rest);
  }

  lemma {:induction false} MessageArrives(fields: seq<Field>, slots: seq<Slot>)
    requires ValidFields(fields) && Sendable(fields, slots)
    requires FieldsBytes(fields, slots, 0).Some? && |FieldsBytes(fields, slots, 0).value| < TWO32
    ensures Merge(fields, Defaults(fields), FieldsBytes(fields, slots, 0).value) == Got(Normal(fields, slots), [])
    decreases fields, 4
  {
    hide FieldsBytes, RunFields, ValidFields, NormalSlot, DefaultSlot;
    BelowNext(0);
    assert Arrived(fields, slots, Below(0), Start(Defaults(fields)));
    var st := FieldsArrive(fields, slots, 0, Start(Defaults(fields)));
    assert st.slots == Normal(fields, slots);
  }

  /** The decoder has received exactly the fields at the positions in `sent`; the others are at their defaults. */
  predicate Arrived(fields: seq<Field>, slots: seq<Slot>, sent: set<nat>, st: State) {
    && |st.slots| == |slots| == |fields|
    && (forall j | 0 <= j < |fields| ::
          st.slots[j] == if j in sent then NormalSlot(fields[j], slots[j]) else DefaultSlot(fields[j]))
    && FixedDone(fields, st)
    && (st.fixedField.Some? ==> st.fixedField.value in sent)
    && (forall j | j in sent && j < |fields| && fields[j].rule.Required? :: j in st.seen)
    && forall j | j in st.seen :: j in sent
  }

  function Below(i: nat): (s: set<nat>)
    ensures forall j: nat :: j in s <==> j < i
  {
    if i == 0 then {} else Below(i - 1) + {i - 1}
  }

  lemma BelowNext(i: nat)
    ensures Below(i) + {i} == Below(i + 1) && i !in Below(i) && Below(0) == {}
  {}

  lemma {:induction false} FieldsArrive(fields: seq<Field>, slots: seq<Slot>, i: nat, st: State) returns (st': State)
    requires ValidFields(fields) && Sendable(fields, slots) && i <= |fields| && Arrived(fields, slots, Below(i), st)
    requires FieldsBytes(fields, slots, i).Some? && |FieldsBytes(fields, slots, i).value| < TWO32
    ensures |st.slots| == |fields|
    ensures RunFields(fields, st, FieldsBytes(fields, slots, i).value) == Ran(st', [], false)
    ensures Arrived(fields, slots, Below(|fields|), st')
    decreases fields, 3, |fields| - i
  {
    hide Sendable, ValidFields, Arrived, FieldBytes, Below;
    ArrivedShape(fields, slots, Below(i), st);
    if i == |fields| {
      st' := st;
    } else {
      var rest := FieldsBytes(fields, slots, i + 1).value;
      SendableHere(fields, slots, i);
      BelowNext(i);
      var next := FieldArrives(fields, slots, Below(i), i, st, rest);
      st' := FieldsArrive(fields, slots, i + 1, next);
    }
  }

  /** The part of Sendable that the bytes of field `i` depend on. */
  predicate SendableAt(fields: seq<Field>, slots: seq<Slot>, i: nat) {
    i < |fields| == |slots| && SendableSlot(fields[i], slots[i]) && OneActive(fields, slots)
  }

  lemma SendableHere(fields: seq<Field>, slots: seq<Slot>, i: nat)
    requires Sendable(fields, slots) && i < |fields|
    ensures SendableAt(fields, slots, i)
  {}

  lemma ArrivedShape(fields: seq<Field>, slots: seq<Slot>, sent: set<nat>, st: State)
    requires Arrived(fields, slots, sent, st)
    ensures |st.slots| == |slots| == |fields|
  {}

  /** The bytes of field `i` add it to the fields that have arrived, whichever these are and whatever follows. */
  lemma {:induction false} FieldArrives(fields: seq<Field>, slots: seq<Slot>, sent: set<nat>, i: nat, st: State,
                                        rest: seq<byte>)
    returns (st': State)
    requires ValidFields(fields) && SendableAt(fields, slots, i) && Arrived(fields, slots, sent, st) && i !in sent
    requires FieldBytes(fields[i], slots[i]).Some? && |FieldBytes(fields[i], slots[i]).value| < TWO32
    ensures Arrived(fields, slots, sent + {i}, st')
    ensures RunFields(fields, st, FieldBytes(fields[i], slots[i]).value + rest) == RunFields(fields, st', rest)
    decreases fields, 2
  {
    hide RunFields, ValueBytes, ItemsBytes, RecordsBytes, FixedDone, Activate;
    var f, s := fields[i], slots[i];
    assert ValidField(f) && SendableSlot(f, s);
    var bs := FieldBytes(f, s).value;
    if f.rule.Repeated? || f.rule.FixedCount? {
      if s.items == [] {
        st' := st;
        NothingSent(fields, slots, sent, i, st, rest);
      } else {
        st' := StoreItems(fields, st, i, NormalItems(f.kind, s.items));
        ArrayArrives(fields, slots, sent, i, st, rest);
        ArrayStored(fields, slots, sent, i, st);
      }
    } else if (f.rule.Optional? && !s.has) || (f.rule.Singular? && IsZeroValue(f.kind, s.v)) || s.Off? {
      st' := st;
      NothingSent(fields, slots, sent, i, st, rest);
    } else {
      st' := StoreValue(fields, st, i, NormalValue(f.kind, s.v));
      RecordArrives(fields, st, i, s.v, rest);
      ValueStored(fields, slots, sent, i, st);
    }
  }

  lemma NothingSent(fields: seq<Field>, slots: seq<Slot>, sent: set<nat>, i: nat, st: State, rest: seq<byte>)
    requires ValidFields(fields) && SendableAt(fields, slots, i) && Arrived(fields, slots, sent, st) && i !in sent
    requires FieldBytes(fields[i], slots[i]) == Some([])
    requires match fields[i].rule
             case Optional => !slots[i].has
             case Singular => IsZeroValue(fields[i].kind, slots[i].v)
             case Oneof(_) => slots[i].Off?
             case Required => false
             case _ => slots[i].items == []
    ensures Arrived(fields, slots, sent + {i}, st) && [] + rest == rest
  {
    hide FieldBytes, SendableValue, Zero, IsZeroValue, FixedDone;
    var f, s := fields[i], slots[i];
    assert ValidField(f) && SendableSlot(f, s);
    assert NormalSlot(f, s) == DefaultSlot(f) by {
      if f.rule.Singular? { ZeroIsNormal(f.kind, s.v); }
    }
  }

  /** A single record for a field that is not an array. */
  lemma {:induction false} RecordArrives(fields: seq<Field>, st: State, i: nat, v: Value, rest: seq<byte>)
    requires ValidFields(fields) && i < |fields| == |st.slots| && st.slots[i] == DefaultSlot(fields[i])
    requires !fields[i].rule.Repeated? && !fields[i].rule.FixedCount? && SendableValue(fields[i].kind, v)
    requires var b := RecordBytes(fields[i].tag, fields[i].kind, v); b.Some? && |b.value| < TWO32
    ensures RunFields(fields, st, RecordBytes(fields[i].tag, fields[i].kind, v).value + rest) ==
            RunFields(fields, StoreValue(fields, st, i, NormalValue(fields[i].kind, v)), rest)
    decreases fields, 0
  {
    hide RunFields, ValueBytes, Tag, DefaultSlot, SendableValue, NormalValue, FieldValue, StoreValue;
    var f := fields[i];
    assert ValidField(f);
    var payload := ValueBytes(f.kind, v).value;
    assert RecordBytes(f.tag, f.kind, v).value + rest == Tag(f.tag, WireType(f.kind)) + (payload + rest);
    FieldValueArrives(f, st.slots[i], v, rest);
    TagStep(fields, st, i, WireType(f.kind), payload + rest);
  }

  /** Storing a received value keeps the account of what has arrived. */
  lemma ValueStored(fields: seq<Field>, slots: seq<Slot>, sent: set<nat>, i: nat, st: State)
    requires ValidFields(fields) && SendableAt(fields, slots, i) && Arrived(fields, slots, sent, st) && i !in sent
    requires !slots[i].Many? && !slots[i].Off? && (slots[i].Opt? ==> slots[i].has)
    ensures Arrived(fields, slots, sent + {i}, StoreValue(fields, st, i, NormalValue(fields[i].kind, slots[i].v)))
  {
    hide SendableValue, NormalValue, DefaultSlot, ValidFields, ValidField;
    var f, s := fields[i], slots[i];
    assert SendableSlot(f, s);
    var st' := StoreValue(fields, st, i, NormalValue(f.kind, s.v));
    if f.rule.Oneof? {
      forall j | 0 <= j < |fields| && j != i ensures st'.slots[j] == st.slots[j] {
        if SameOneof(f, fields[j]) { OthersOff(fields, slots, sent, i, j, st); }
      }
    }
  }

  lemma OthersOff(fields: seq<Field>, slots: seq<Slot>, sent: set<nat>, i: nat, j: nat, st: State)
    requires SendableAt(fields, slots, i) && Arrived(fields, slots, sent, st) && i !in sent
    requires i < |fields| && j < |fields| && i != j && SameOneof(fields[i], fields[j]) && slots[i].On?
    ensures st.slots[j] == Off
  {
    hide NormalItems, NormalValue, Zero, InitValue, SendableSlot;
    assert SameOneof(fields[j], fields[i]);
    assert slots[j].Off?;
  }

  // ---------------------------------------------------------------- arrays

  /** All records of an array field. */
  lemma {:induction false} ArrayArrives(fields: seq<Field>, slots: seq<Slot>, sent: set<nat>, i: nat, st: State,
                                        rest: seq<byte>)
    requires ValidFields(fields) && SendableAt(fields, slots, i) && Arrived(fields, slots, sent, st) && i !in sent
    requires (fields[i].rule.Repeated? || fields[i].rule.FixedCount?) && slots[i].Many? && slots[i].items != []
    requires FieldBytes(fields[i], slots[i]).Some? && |FieldBytes(fields[i], slots[i]).value| < TWO32
    ensures RunFields(fields, st, FieldBytes(fields[i], slots[i]).value + rest) ==
            RunFields(fields, StoreItems(fields, st, i, NormalItems(fields[i].kind, slots[i].items)), rest)
    decreases fields, 1
  {
    hide RunFields, ItemsBytes, RecordsBytes, SendableValue, StoreItems, NormalItems, Prefixed, Tag, FixedDone;
    var f, s := fields[i], slots[i];
    assert ValidField(f) && SendableSlot(f, s);
    var bs := FieldBytes(f, s);
    assert bs == ArrayBytes(f.tag, f.kind, s.items, f.rule.max);
    NothingReceived(fields, slots, sent, i, st);
    if Packable(f.kind) {
      PrefixedNonEmpty(ItemsBytes(f.kind, s.items).value);
      PackedArrives(fields, st, i, s.items, rest);
    } else {
      ItemRoom(fields, slots, sent, i, st);
      RecordsArrive(fields, st, i, [], s.items, rest);
      assert [] + NormalItems(f.kind, s.items) == NormalItems(f.kind, s.items);
    }
  }

  lemma NothingReceived(fields: seq<Field>, slots: seq<Slot>, sent: set<nat>, i: nat, st: State)
    requires Arrived(fields, slots, sent, st) && i !in sent && i < |fields|
    requires fields[i].rule.Repeated? || fields[i].rule.FixedCount?
    ensures Received(fields, st, i) == Some([])
  {
    assert st.slots[i] == DefaultSlot(fields[i]);
  }

  lemma ItemRoom(fields: seq<Field>, slots: seq<Slot>, sent: set<nat>, i: nat, st: State)
    requires Arrived(fields, slots, sent, st) && i !in sent && i < |fields|
    ensures fields[i].rule.FixedCount? ==> |Items(st.slots[i])| == fields[i].rule.max
  {
    assert st.slots[i] == DefaultSlot(fields[i]);
  }

  lemma {:induction false} PackedArrives(fields: seq<Field>, st: State, i: nat, items: seq<Value>, rest: seq<byte>)
    requires ValidFields(fields) && i < |fields| == |st.slots|
    requires fields[i].rule.Repeated? || fields[i].rule.FixedCount?
    requires Packable(fields[i].kind) && Received(fields, st, i) == Some([]) && |items| <= fields[i].rule.max
    requires forall j | 0 <= j < |items| :: SendableValue(fields[i].kind, items[j])
    requires ItemsBytes(fields[i].kind, items).Some? && |ItemsBytes(fields[i].kind, items).value| < TWO32
    ensures RunFields(fields, st,
                      Tag(fields[i].tag, WT_STRING) + Prefixed(ItemsBytes(fields[i].kind, items).value) + rest) ==
            RunFields(fields, StoreItems(fields, st, i, NormalItems(fields[i].kind, items)), rest)
  {
    hide RunFields, ItemsBytes, Received, StoreItems, Tag, Prefixed, DecodePacked, TakePrefixed, SendableScalar,
         DecodeValue;
    var f := fields[i];
    assert ValidField(f);
    var body := ItemsBytes(f.kind, items).value;
    assert Tag(f.tag, WT_STRING) + Prefixed(body) + rest == Tag(f.tag, WT_STRING) + (Prefixed(body) + rest);
    PackedRoundTrip(f.kind, f.rule.max, [], items);
    assert [] + items == items == NormalItems(f.kind, items);
    TakePrefixedRoundTrip(body, rest);
    TagStep(fields, st, i, WT_STRING, Prefixed(body) + rest);
    assert TakePrefixed(Prefixed(body) + rest) == Got(body, rest);
    assert DecodeArray(f.kind, f.rule.max, [], WT_STRING, Prefixed(body) + rest) == Got(items, rest);
    assert FieldItems(f, [], WT_STRING, Prefixed(body) + rest) == Got(items, rest);
    assert DecodeField(fields, st, i, WT_STRING, Prefixed(body) + rest) == Got(StoreItems(fields, st, i, items), rest);
  }

  lemma {:induction false} RecordsArrive(fields: seq<Field>, st: State, i: nat, acc: seq<Value>, items: seq<Value>,
                                         rest: seq<byte>)
    requires ValidFields(fields) && i < |fields| == |st.slots| && items != []
    requires fields[i].rule.Repeated? || fields[i].rule.FixedCount?
    requires !Packable(fields[i].kind)
    requires Received(fields, st, i) == Some(acc) && |acc| + |items| <= fields[i].rule.max
    requires fields[i].rule.FixedCount? ==> |Items(st.slots[i])| == fields[i].rule.max
    requires forall j | 0 <= j < |items| :: SendableValue(fields[i].kind, items[j])
    requires var b := RecordsBytes(fields[i].tag, fields[i].kind, items); b.Some? && |b.value| < TWO32
    ensures RunFields(fields, st, RecordsBytes(fields[i].tag, fields[i].kind, items).value + rest) ==
            RunFields(fields, StoreItems(fields, st, i, acc + NormalItems(fields[i].kind, items)), rest)
    decreases fields, 0, |items|
  {
    hide RunFields, SendableValue, NormalValue, Received, StoreItems, ValueBytes, Tag, WireType, FieldItems,
         ValidFields;
    var f := fields[i];
    assert ValidField(f) by { FieldIsValid(fields, i); }
    var v := NormalValue(f.kind, items[0]);
    var payload := ValueBytes(f.kind, items[0]).value;
    var more := RecordsBytes(f.tag, f.kind, items[1..]).value;
    FieldItemArrives(f, acc, items[0], more + rest);
    TagStep(fields, st, i, WireType(f.kind), payload + (more + rest));
    assert RecordsBytes(f.tag, f.kind, items).value + rest == Tag(f.tag, WireType(f.kind)) + (payload + (more + rest));
    var next := StoreItems(fields, st, i, acc + [v]);
    assert acc + [v] + NormalItems(f.kind, items[1..]) == acc + NormalItems(f.kind, items);
    if items[1..] == [] {
      assert more + rest == rest;
      assert NormalItems(f.kind, items) == [v];
    } else {
      ReceivedAfterStore(fields, st, i, acc + [v]);
      RecordsArrive(fields, next, i, acc + [v], items[1..], rest);
      StoreTwice(fields, st, i, acc + [v], acc + NormalItems(f.kind, items));
    }
  }

  lemma FieldIsValid(fields: seq<Field>, i: nat)
    requires ValidFields(fields) && i < |fields|
    ensures ValidField(fields[i])
  {}

  lemma ReceivedAfterStore(fields: seq<Field>, st: State, i: nat, items: seq<Value>)
    requires i < |fields| == |st.slots|
    requires fields[i].rule.FixedCount? ==> |items| <= |Items(st.slots[i])|
    ensures Received(fields, StoreItems(fields, st, i, items), i) == Some(items)
    ensures fields[i].rule.FixedCount? ==>
              |Items(StoreItems(fields, st, i, items).slots[i])| == |Items(st.slots[i])|
  {}

  lemma StoreTwice(fields: seq<Field>, st: State, i: nat, a: seq<Value>, b: seq<Value>)
    requires i < |fields| == |st.slots| && |a| <= |b|
    requires fields[i].rule.FixedCount? ==> |b| <= |Items(st.slots[i])|
    ensures StoreItems(fields, StoreItems(fields, st, i, a), i, b) == StoreItems(fields, st, i, b)
  {
    var once := StoreItems(fields, st, i, a);
    assert once.slots[i := Many(b)] == st.slots[i := Many(b)];
    if fields[i].rule.FixedCount? {
      var old1 := Items(st.slots[i]);
      var old2 := Items(once.slots[i]);
      assert old2[|b|..] == old1[|b|..];
      assert once.slots[i := Many(b + old1[|b|..])] == st.slots[i := Many(b + old1[|b|..])];
    }
  }

  lemma ArrayStored(fields: seq<Field>, slots: seq<Slot>, sent: set<nat>, i: nat, st: State)
    requires SendableAt(fields, slots, i) && Arrived(fields, slots, sent, st) && i !in sent
    requires (fields[i].rule.Repeated? || fields[i].rule.FixedCount?) && slots[i].Many?
    ensures Arrived(fields, slots, sent + {i}, StoreItems(fields, st, i, NormalItems(fields[i].kind, slots[i].items)))
  {
    hide NormalItems, SendableValue, Zero, InitValue;
    var f, s := fields[i], slots[i];
    assert SendableSlot(f, s);
    assert st.slots[i] == DefaultSlot(f);
    var items := NormalItems(f.kind, s.items);
    var st' := StoreItems(fields, st, i, items);
    assert st'.slots[i] == Many(items);
  }

  // ---------------------------------------------------------------- the theorem

  /** Whatever pb_encode writes for a sendable message, pb_decode reads back: it succeeds, consumes all of it, and
      yields the message with absent optionals at their defaults. */
  lemma MessageRoundTrip(fields: seq<Field>, slots: seq<Slot>)
    requires ValidFields(fields) && Sendable(fields, slots)
    ensures MessageBytes(fields, slots).Some?
    ensures |MessageBytes(fields, slots).value| < TWO32 ==>
              DecodeMessage(fields, MessageBytes(fields, slots).value) == Got(Normal(fields, slots), [])
  {
    hide Sendable, Typed, FieldsBytes, Merge, Normal, ValidFields;
    SendableIsTyped(fields, slots);
    FieldsEncode(fields, slots, 0);
    if |MessageBytes(fields, slots).value| < TWO32 { MessageArrives(fields, slots); }
  }
}
