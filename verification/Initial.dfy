/** What the fields of a message hold that the input does not name: their declared defaults. */
module Initial {
  import opened Common
  import opened Bits
  import opened Schema
  import opened Varint
  import opened Decode
  import opened Records
  import opened Presence
  import opened Packed

  /** The value of a kind before anything is stored: false, zero, no bytes, a fixed run of zero bytes; a submessage of
      which every field is fresh. */
  predicate FreshValue(k: Kind, v: Value)
    decreases k
  {
    match k
    case Bool => v == Flag(false)
    case VarInt(_) => v == Num(0)
    case UVarInt(_) => v == Num(0)
    case SVarInt(_) => v == Num(0)
    case Fixed32 => v == Num(0)
    case Fixed64 => v == Num(0)
    case Bytes(_) => v == Blob([])
    case String(_) => v == Blob([])
    case FixedBytes(n) => v.Blob? && |v.bs| == n && forall i | 0 <= i < n :: v.bs[i] == 0
    case Submessage(fields, _) => v.Msg? && Fresh(fields, v.slots)
  }

  /** A field that no record has met: a required, optional or singular scalar holds its declared default, with has false
      when it is optional; an array with a count is empty and a fixed one all zero; a oneof member is off. */
  predicate FreshSlot(f: Field, s: Slot)
    decreases f
  {
    match f.rule
    case Required => s.One? && (if f.kind.Submessage? then FreshValue(f.kind, s.v) else s.v == f.init)
    case Singular => s.One? && (if f.kind.Submessage? then FreshValue(f.kind, s.v) else s.v == f.init)
    case Optional => s.Opt? && !s.has && (if f.kind.Submessage? then FreshValue(f.kind, s.v) else s.v == f.init)
    case Repeated(_) => s == Many([])
    case FixedCount(n) => s.Many? && |s.items| == n && forall i | 0 <= i < n :: FreshValue(f.kind, s.items[i])
    case Oneof(_) => s == Off
  }

  predicate Fresh(fields: seq<Field>, slots: seq<Slot>)
    decreases fields
  {
    |slots| == |fields| && forall i | 0 <= i < |fields| :: FreshSlot(fields[i], slots[i])
  }

  // ---------------------------------------------------------------- pb_message_set_to_defaults

  lemma {:induction false} ZeroIsFresh(k: Kind)
    ensures FreshValue(k, Zero(k))
    decreases k
  {
    if k.Submessage? { DefaultsAreFresh(k.fields); }
  }

  lemma {:induction false} DefaultIsFresh(f: Field)
    ensures FreshSlot(f, DefaultSlot(f))
    decreases f
  {
    ZeroIsFresh(f.kind);
  }

  /** The struct pb_decode starts from is fresh at every depth. */
  lemma {:induction false} DefaultsAreFresh(fields: seq<Field>)
    ensures Fresh(fields, Defaults(fields))
    decreases fields
  {
    forall i | 0 <= i < |fields| ensures FreshSlot(fields[i], Defaults(fields)[i]) { DefaultIsFresh(fields[i]); }
  }

  // ---------------------------------------------------------------- fields that no record meets

  /** Either the slot is untouched, or it is a oneof member that a sibling has switched off. */
  predicate Untouched(f: Field, before: Slot, after: Slot) {
    after == before || (f.rule.Oneof? && after == Off)
  }

  lemma RecordTouches(fields: seq<Field>, st: State, k: nat, wire: nat, inp: seq<byte>, i: nat)
    requires k < |fields| == |st.slots| && i < |fields| && i != k && DecodeField(fields, st, k, wire, inp).Got?
    ensures Untouched(fields[i], st.slots[i], DecodeField(fields, st, k, wire, inp).v.slots[i])
  {
    hide FieldItems, FieldValue, Received;
  }

  /** The field loop touches only what its records name. */
  lemma {:induction false} UnmetUntouched(fields: seq<Field>, st: State, inp: seq<byte>, i: nat)
    requires i < |fields| == |st.slots| && RunFields(fields, st, inp).Ran? && i !in Met(fields, st, inp)
    ensures Untouched(fields[i], st.slots[i], RunFields(fields, st, inp).st.slots[i])
    decreases |inp|
  {
    hide Decode32, DecodeField, Skip, Find;
    if inp != [] {
      var t := Decode32(inp);
      if t.v != 0 {
        var k := Find(fields, t.v / 8);
        if k.Some? { RecordTouches(fields, st, k.value, t.v % 8, t.rest, i); }
        var s := Step(fields, st, t.v / 8, t.v % 8, t.rest);
        UnmetUntouched(fields, s.v, s.rest, i);
      }
    }
  }

  lemma StaysFresh(f: Field, before: Slot, after: Slot)
    requires FreshSlot(f, before) && Untouched(f, before, after)
    ensures FreshSlot(f, after)
  {}

  /** After pb_decode every field that no record met is fresh. */
  lemma UnmetAreFresh(fields: seq<Field>, inp: seq<byte>, i: nat)
    requires i < |fields| && DecodeMessage(fields, inp).Got? && i !in Met(fields, Start(Defaults(fields)), inp)
    ensures FreshSlot(fields[i], DecodeMessage(fields, inp).v[i])
  {
    hide RunFields, Met, Complete, FreshSlot;
    DefaultsAreFresh(fields);
    UnmetUntouched(fields, Start(Defaults(fields)), inp, i);
    StaysFresh(fields[i], Defaults(fields)[i], DecodeMessage(fields, inp).v[i]);
  }

  /** So is every field of a submessage in a oneof or an array that its own bytes do not name; in any other submessage
      such a field keeps what it held. */
  lemma SubmessageUnmet(k: Kind, prior: Value, inp: seq<byte>, i: nat)
    requires k.Submessage? && prior.Msg? && |prior.slots| == |k.fields| && i < |k.fields|
    requires TakePrefixed(inp).Got? && i !in Met(k.fields, Start(prior.slots), TakePrefixed(inp).v)
    requires DecodeValue(k, prior, inp).Got?
    ensures DecodeValue(k, prior, inp).v.Msg? && |DecodeValue(k, prior, inp).v.slots| == |k.fields|
    ensures Untouched(k.fields[i], prior.slots[i], DecodeValue(k, prior, inp).v.slots[i])
    ensures prior == Zero(k) ==> FreshSlot(k.fields[i], DecodeValue(k, prior, inp).v.slots[i])
  {
    hide RunFields, Met, Complete, FreshSlot, TakePrefixed;
    UnmetUntouched(k.fields, Start(prior.slots), TakePrefixed(inp).v, i);
    if prior == Zero(k) {
      DefaultsAreFresh(k.fields);
      StaysFresh(k.fields[i], prior.slots[i], DecodeValue(k, prior, inp).v.slots[i]);
    }
  }

  // ---------------------------------------------------------------- input that names no field

  /** pb_decode of input all of whose records are unknown, such as the empty input, succeeds exactly when no field is
      required, and then every field is fresh. */
  lemma UnknownOnly(fields: seq<Field>, us: seq<seq<byte>>)
    requires forall i | 0 <= i < |us| :: UnknownRecord(fields, us[i])
    ensures DecodeMessage(fields, Flatten(us)).Got? <==> NoRequired(fields)
    ensures NoRequired(fields) ==>
              DecodeMessage(fields, Flatten(us)).rest == [] && Fresh(fields, DecodeMessage(fields, Flatten(us)).v)
  {
    hide UnknownRecord, FreshSlot;
    var st := Start(Defaults(fields));
    UnknownsSkipped(fields, st, us, []);
    assert Flatten(us) + [] == Flatten(us);
    DefaultsAreFresh(fields);
    if !NoRequired(fields) {
      var i := FirstRequired(fields);
      assert i !in st.seen;
    }
  }

  /** Among fields of which one is required there is a first. */
  lemma FirstRequired(fields: seq<Field>) returns (i: nat)
    requires !NoRequired(fields)
    ensures i < |fields| && fields[i].rule.Required? && RequiredBefore(fields, i) == 0
  {
    ghost var k :| 0 <= k < |fields| && fields[k].rule.Required?;
    i := 0;
    while !fields[i].rule.Required?
      invariant i <= k && RequiredBefore(fields, i) == 0
      decreases k - i
    {
      i := i + 1;
    }
  }

  /** The empty input. */
  lemma EmptyInput(fields: seq<Field>)
    ensures DecodeMessage(fields, []).Got? <==> NoRequired(fields)
    ensures NoRequired(fields) ==> DecodeMessage(fields, []).rest == [] && Fresh(fields, DecodeMessage(fields, []).v)
  {
    hide Fresh;
    UnknownOnly(fields, []);
  }
}
