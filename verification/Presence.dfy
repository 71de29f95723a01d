/** Presence: what a proto3 encoder omits, and which required fields a decoder has met. */
module Presence {
  import opened Common
  import opened Bits
  import opened Schema
  import opened Varint
  import opened Encode
  import opened Decode
  import opened Scalars
  import opened RoundTrip

  // ---------------------------------------------------------------- omission

  /** Among scalars the test for the default value is exact. Fixed-length bytes are always sent unless of size zero. */
  lemma ZeroScalarIff(k: Kind, v: Value)
    requires !k.Submessage? && ScalarFits(k, v)
    ensures IsZeroValue(k, v) <==> Delivered(k, v) == Zero(k) && (k.FixedBytes? ==> k.size == 0)
  {
    if k.String? { assert |v.bs[..CStringLength(v.bs, k.size)]| == CStringLength(v.bs, k.size); }
  }

  lemma RecordNonEmpty(tag: nat, k: Kind, v: Value)
    ensures RecordBytes(tag, k, v).Some? ==> |RecordBytes(tag, k, v).value| > 0
  {
    hide ValueBytes, WireType;
  }

  lemma ArrayNonEmpty(f: Field, items: seq<Value>)
    requires items != [] && (f.rule.Repeated? || f.rule.FixedCount?)
    ensures var b := ArrayBytes(f.tag, f.kind, items, f.rule.max); b.Some? ==> |b.value| > 0
  {
    hide RecordBytes, ItemsBytes, Prefixed;
    if !Packable(f.kind) { RecordNonEmpty(f.tag, f.kind, items[0]); }
  }

  /** A field is unset exactly when nothing is written for it. */
  lemma UnsetIffEmpty(f: Field, s: Slot)
    requires TypedSlot(f, s) && (f.rule.FixedCount? ==> f.rule.max > 0)
    ensures IsUnsetSlot(f, s) <==> FieldBytes(f, s) == Some([])
  {
    hide RecordBytes, ArrayBytes, TypedValue, IsZeroValue;
    match f.rule
    case Repeated(max) =>
      if s.items != [] { ArrayNonEmpty(f, s.items); } else { EmptyArray(f); }
    case FixedCount(max) => ArrayNonEmpty(f, s.items);
    case Required => RecordNonEmpty(f.tag, f.kind, s.v);
    case Optional => RecordNonEmpty(f.tag, f.kind, s.v);
    case Singular => RecordNonEmpty(f.tag, f.kind, s.v);
    case Oneof(_) => if s.On? { RecordNonEmpty(f.tag, f.kind, s.v); }
  }

  lemma EmptyArray(f: Field)
    requires f.rule.Repeated?
    ensures ArrayBytes(f.tag, f.kind, [], f.rule.max) == Some([])
  {}

  lemma {:induction false} FieldsEmptyIff(fields: seq<Field>, slots: seq<Slot>, i: nat)
    requires |slots| == |fields|
    ensures FieldsBytes(fields, slots, i) == Some([]) <==>
            forall j | i <= j < |fields| :: FieldBytes(fields[j], slots[j]) == Some([])
    decreases |fields| - i
  {
    hide FieldBytes;
    if i < |fields| {
      FieldsEmptyIff(fields, slots, i + 1);
      CatEmptyIff(FieldBytes(fields[i], slots[i]), FieldsBytes(fields, slots, i + 1));
    }
  }

  lemma CatEmptyIff(a: Output, b: Output)
    ensures Cat(a, b) == Some([]) <==> a == Some([]) && b == Some([])
  {
    if a.Some? && b.Some? {
      assert a.value + b.value == [] <==> a.value == [] && b.value == [] by {
        assert |a.value + b.value| == |a.value| + |b.value|;
      }
    }
  }

  /** A proto3 submessage is left out exactly when its own encoding would be empty. Arrays in C have at least one
      element. */
  lemma OmittedIffEmpty(fields: seq<Field>, slots: seq<Slot>, size: nat)
    requires Typed(fields, slots)
    requires forall i | 0 <= i < |fields| && fields[i].rule.FixedCount? :: fields[i].rule.max > 0
    ensures IsZeroValue(Submessage(fields, size), Msg(slots)) <==> MessageBytes(fields, slots) == Some([])
  {
    hide FieldBytes, IsUnsetSlot, TypedSlot, FieldsBytes;
    FieldsEmptyIff(fields, slots, 0);
    forall i | 0 <= i < |fields|
      ensures IsUnsetSlot(fields[i], slots[i]) <==> FieldBytes(fields[i], slots[i]) == Some([])
    {
      UnsetIffEmpty(fields[i], slots[i]);
    }
  }

  // ---------------------------------------------------------------- required fields

  /** The positions of the fields for which the field loop meets a record. */
  function Met(fields: seq<Field>, st: State, inp: seq<byte>): set<nat>
    requires |st.slots| == |fields|
    decreases |inp|
  {
    if inp == [] then {} else
    var t := Decode32(inp);
    if t.Bad? || t.v == 0 then {} else
    var i := Find(fields, t.v / 8);
    var s := Step(fields, st, t.v / 8, t.v % 8, t.rest);
    if s.Bad? then {} else (if i.Some? then {i.value} else {}) + Met(fields, s.v, s.rest)
  }

  /** A decoded record is remembered when its field is required. */
  lemma FieldSees(fields: seq<Field>, st: State, i: nat, wire: nat, inp: seq<byte>)
    requires i < |fields| == |st.slots| && DecodeField(fields, st, i, wire, inp).Got?
    ensures DecodeField(fields, st, i, wire, inp).v.seen ==
            if fields[i].rule.Required? then st.seen + {i} else st.seen
  {
    hide DecodeValue, FieldItems, FieldValue, Received, Activate;
  }

  lemma {:induction false} SeenIsMet(fields: seq<Field>, st: State, inp: seq<byte>)
    requires |st.slots| == |fields| && RunFields(fields, st, inp).Ran?
    ensures forall i | 0 <= i < |fields| && fields[i].rule.Required? ::
              i in RunFields(fields, st, inp).st.seen <==> i in st.seen || i in Met(fields, st, inp)
    decreases |inp|
  {
    hide Decode32, DecodeField, Skip, Find;
    if inp != [] {
      var t := Decode32(inp);
      if t.v != 0 {
        var i := Find(fields, t.v / 8);
        if i.Some? { FieldSees(fields, st, i.value, t.v % 8, t.rest); }
        var s := Step(fields, st, t.v / 8, t.v % 8, t.rest);
        SeenIsMet(fields, s.v, s.rest);
      }
    }
  }

  /** The required fields in front of a position. */
  function RequiredIn(fields: seq<Field>, i: nat): set<nat> {
    set j | 0 <= j < i && j < |fields| && fields[j].rule.Required?
  }

  lemma {:induction false} RequiredCounts(fields: seq<Field>, i: nat)
    requires i <= |fields|
    ensures RequiredBefore(fields, i) == |RequiredIn(fields, i)|
    decreases i
  {
    if i > 0 {
      RequiredCounts(fields, i - 1);
      var s := RequiredIn(fields, i - 1);
      assert RequiredIn(fields, i) == if fields[i - 1].rule.Required? then s + {i - 1} else s;
    } else {
      assert RequiredIn(fields, 0) == {};
    }
  }

  /** The decoder insists on this field: it is required, and fewer than 64 required ones come before it. */
  predicate Insisted(fields: seq<Field>, i: nat) {
    i < |fields| && fields[i].rule.Required? && |RequiredIn(fields, i)| < 64
  }

  lemma CompleteIffSeen(fields: seq<Field>, st: State)
    ensures Complete(fields, st) <==>
            FixedDone(fields, st) && forall i: nat | Insisted(fields, i) :: i in st.seen
  {
    hide RequiredBefore, FixedDone, RequiredIn;
    forall i: nat | i < |fields|
      ensures Insisted(fields, i) <==> fields[i].rule.Required? && RequiredBefore(fields, i) < MAX_REQUIRED
    {
      RequiredCounts(fields, i);
    }
  }

  /** Decoding succeeds exactly when the loop runs through, no fixed-count array is left incomplete, and each required
      field with fewer than 64 required ones before it was met. What the destination held before does not count. */
  lemma SucceedsIffMet(fields: seq<Field>, slots: seq<Slot>, inp: seq<byte>)
    requires |slots| == |fields|
    ensures var r := RunFields(fields, Start(slots), inp);
            Merge(fields, slots, inp).Got? <==>
              && r.Ran? && FixedDone(fields, r.st)
              && forall i: nat | Insisted(fields, i) :: i in Met(fields, Start(slots), inp)
  {
    hide RunFields, Met, Complete, FixedDone, RequiredIn;
    var r := RunFields(fields, Start(slots), inp);
    if r.Ran? {
      CompleteIffSeen(fields, r.st);
      SeenIsMet(fields, Start(slots), inp);
      assert forall i: nat | Insisted(fields, i) :: i in r.st.seen <==> i in Met(fields, Start(slots), inp);
    }
  }
}
