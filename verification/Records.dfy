/** The field loop on concatenated input, and on input with unknown fields. */
module Records {
  import opened Common
  import opened Bits
  import opened Schema
  import opened Varint
  import opened Encode
  import opened Decode
  import opened Scalars

  // ---------------------------------------------------------------- a record does not look past its end

  lemma TakeExtend(inp: seq<byte>, n: nat, ext: seq<byte>)
    requires Take(inp, n).Got?
    ensures Take(inp + ext, n) == Got(Take(inp, n).v, Take(inp, n).rest + ext)
  {
    assert (inp + ext)[..n] == inp[..n];
    assert (inp + ext)[n..] == inp[n..] + ext;
  }

  lemma TakePrefixedExtend(inp: seq<byte>, ext: seq<byte>)
    requires TakePrefixed(inp).Got?
    ensures TakePrefixed(inp + ext) == Got(TakePrefixed(inp).v, TakePrefixed(inp).rest + ext)
  {
    hide Decode32, Take;
    Decode32Extend(inp, ext);
    TakeExtend(Decode32(inp).rest, Decode32(inp).v, ext);
  }

  lemma {:induction false} SkipVarintExtend(inp: seq<byte>, ext: seq<byte>)
    requires SkipVarint(inp).Got?
    ensures SkipVarint(inp + ext) == Got((), SkipVarint(inp).rest + ext)
    decreases |inp|
  {
    assert (inp + ext)[1..] == inp[1..] + ext;
    if inp[0] >= 128 { SkipVarintExtend(inp[1..], ext); }
  }

  lemma SkipExtend(wire: nat, inp: seq<byte>, ext: seq<byte>)
    requires Skip(wire, inp).Got?
    ensures Skip(wire, inp + ext) == Got((), Skip(wire, inp).rest + ext)
  {
    hide Take, TakePrefixed, SkipVarint;
    if wire == WT_VARINT { SkipVarintExtend(inp, ext); }
    else if wire == WT_64BIT { TakeExtend(inp, 8, ext); }
    else if wire == WT_STRING { TakePrefixedExtend(inp, ext); }
    else { TakeExtend(inp, 4, ext); }
  }

  lemma ScalarExtend(k: Kind, inp: seq<byte>, ext: seq<byte>)
    requires !k.Submessage? && DecodeScalar(k, inp).Got?
    ensures DecodeScalar(k, inp + ext) == Got(DecodeScalar(k, inp).v, DecodeScalar(k, inp).rest + ext)
  {
    hide Decode32, Decode64, Take, FromVarint, FromLittleEndian;
    if k.VarInt? || k.UVarInt? || k.SVarInt? {
      VarintFieldExtend(k, inp, ext);
    } else if k.Fixed32? {
      TakeExtend(inp, 4, ext);
    } else if k.Fixed64? {
      TakeExtend(inp, 8, ext);
    } else {
      Decode32Extend(inp, ext);
      var u := Decode32(inp);
      if !k.Bool? && Take(u.rest, u.v).Got? { TakeExtend(u.rest, u.v, ext); }
    }
  }

  lemma VarintFieldExtend(k: Kind, inp: seq<byte>, ext: seq<byte>)
    requires k.VarInt? || k.UVarInt? || k.SVarInt?
    requires DecodeVarintField(k, inp).Got?
    ensures DecodeVarintField(k, inp + ext) ==
            Got(DecodeVarintField(k, inp).v, DecodeVarintField(k, inp).rest + ext)
  {
    hide Decode64;
    Decode64Extend(inp, ext);
    Decode64Bound(inp);
  }

  lemma ValueExtend(k: Kind, prior: Value, inp: seq<byte>, ext: seq<byte>)
    requires DecodeValue(k, prior, inp).Got?
    ensures DecodeValue(k, prior, inp + ext) ==
            Got(DecodeValue(k, prior, inp).v, DecodeValue(k, prior, inp).rest + ext)
  {
    hide DecodeScalar, TakePrefixed, Merge;
    if k.Submessage? { TakePrefixedExtend(inp, ext); } else { ScalarExtend(k, inp, ext); }
  }

  lemma ArrayExtend(k: Kind, max: nat, acc: seq<Value>, wire: nat, inp: seq<byte>, ext: seq<byte>)
    requires DecodeArray(k, max, acc, wire, inp).Got?
    ensures var a := DecodeArray(k, max, acc, wire, inp);
            DecodeArray(k, max, acc, wire, inp + ext) == Got(a.v, a.rest + ext)
  {
    hide DecodeValue, TakePrefixed, DecodePacked;
    if wire == WT_STRING && Packable(k) { TakePrefixedExtend(inp, ext); }
    else { ValueExtend(k, Zero(k), inp, ext); }
  }

  lemma FieldExtend(fields: seq<Field>, st: State, i: nat, wire: nat, inp: seq<byte>, ext: seq<byte>)
    requires i < |fields| == |st.slots| && DecodeField(fields, st, i, wire, inp).Got?
    ensures var s := DecodeField(fields, st, i, wire, inp);
            DecodeField(fields, st, i, wire, inp + ext) == Got(s.v, s.rest + ext)
  {
    hide DecodeValue, DecodeArray, Received, StoreItems, StoreValue, OldValue;
    var f := fields[i];
    if f.rule.Repeated? || f.rule.FixedCount? {
      ArrayExtend(f.kind, f.rule.max, Received(fields, st, i).value, wire, inp, ext);
    } else {
      ValueExtend(f.kind, if f.rule.Oneof? then Zero(f.kind) else OldValue(f, st.slots[i]), inp, ext);
    }
  }

  lemma StepExtend(fields: seq<Field>, st: State, tag: nat, wire: nat, inp: seq<byte>, ext: seq<byte>)
    requires |st.slots| == |fields| && Step(fields, st, tag, wire, inp).Got?
    ensures var s := Step(fields, st, tag, wire, inp);
            Step(fields, st, tag, wire, inp + ext) == Got(s.v, s.rest + ext)
  {
    hide DecodeField, Decode32, Skip, Find;
    var i := Find(fields, tag);
    if i.Some? { FieldExtend(fields, st, i.value, wire, inp, ext); }
    else if fields == [] && tag == 0 { Decode32Extend(inp, ext); }
    else { SkipExtend(wire, inp, ext); }
  }

  /** Input that ends at a field boundary can be cut there: the loop carries on from the state it reached. */
  lemma {:induction false} RunSplit(fields: seq<Field>, st: State, a: seq<byte>, b: seq<byte>)
    requires |st.slots| == |fields|
    requires var r := RunFields(fields, st, a); r.Ran? && !r.stopped
    ensures RunFields(fields, st, a + b) == RunFields(fields, RunFields(fields, st, a).st, b)
    decreases |a|
  {
    hide Decode32, Step;
    if a == [] {
      assert a + b == b;
    } else {
      var t := Decode32(a);
      Decode32Extend(a, b);
      var s := Step(fields, st, t.v / 8, t.v % 8, t.rest);
      StepExtend(fields, st, t.v / 8, t.v % 8, t.rest, b);
      RunSplit(fields, s.v, s.rest, b);
    }
  }

  /** Nothing after a zero tag is looked at. */
  lemma {:induction false} RunStopped(fields: seq<Field>, st: State, a: seq<byte>, b: seq<byte>)
    requires |st.slots| == |fields|
    requires var r := RunFields(fields, st, a); r.Ran? && r.stopped
    ensures var r := RunFields(fields, st, a); RunFields(fields, st, a + b) == Ran(r.st, r.rest + b, true)
    decreases |a|
  {
    hide Decode32, Step;
    var t := Decode32(a);
    Decode32Extend(a, b);
    if t.v != 0 {
      var s := Step(fields, st, t.v / 8, t.v % 8, t.rest);
      StepExtend(fields, st, t.v / 8, t.v % 8, t.rest, b);
      RunStopped(fields, s.v, s.rest, b);
    }
  }

  // ---------------------------------------------------------------- the account of required fields

  /** Remembering that more required fields were met changes nothing else. */
  function Recall(st: State, more: set<nat>): State { st.(seen := st.seen + more) }

  lemma FieldRecall(fields: seq<Field>, st: State, i: nat, wire: nat, inp: seq<byte>, more: set<nat>)
    requires i < |fields| == |st.slots|
    ensures var s := DecodeField(fields, st, i, wire, inp);
            DecodeField(fields, Recall(st, more), i, wire, inp) ==
            if s.Bad? then Bad else Got(Recall(s.v, more), s.rest)
  {
    hide DecodeValue, DecodeArray, OldValue, Activate;
    var f := fields[i];
    assert Received(fields, Recall(st, more), i) == Received(fields, st, i);
    if f.rule.Required? {
      assert st.seen + more + {i} == st.seen + {i} + more;
    }
  }

  lemma {:induction false} RunRecall(fields: seq<Field>, st: State, inp: seq<byte>, more: set<nat>)
    requires |st.slots| == |fields|
    ensures var r := RunFields(fields, st, inp);
            RunFields(fields, Recall(st, more), inp) ==
            if r.Failed? then Failed else Ran(Recall(r.st, more), r.rest, r.stopped)
    decreases |inp|
  {
    hide Decode32, DecodeField, Skip, Find;
    if inp != [] {
      var t := Decode32(inp);
      if t.Got? && t.v != 0 {
        var i := Find(fields, t.v / 8);
        if i.Some? { FieldRecall(fields, st, i.value, t.v % 8, t.rest, more); }
        var s := Step(fields, st, t.v / 8, t.v % 8, t.rest);
        if s.Got? { RunRecall(fields, s.v, s.rest, more); }
      }
    }
  }

  // ---------------------------------------------------------------- unknown fields

  /** One well-formed record whose field number the descriptor does not have. */
  predicate UnknownRecord(fields: seq<Field>, u: seq<byte>) {
    var t := Decode32(u);
    && t.Got? && t.v != 0
    && Find(fields, t.v / 8).None?
    && (fields == [] ==> t.v / 8 != 0)
    && Skip(t.v % 8, t.rest) == Got((), [])
  }

  lemma UnknownSkipped(fields: seq<Field>, st: State, u: seq<byte>, b: seq<byte>)
    requires |st.slots| == |fields| && UnknownRecord(fields, u)
    ensures RunFields(fields, st, u + b) == RunFields(fields, st, b)
  {
    hide Decode32, Skip, Find, DecodeField;
    var t := Decode32(u);
    Decode32Extend(u, b);
    SkipExtend(t.v % 8, t.rest, b);
    assert [] + b == b;
    assert u != [] by { EmptyVarint(); }
  }

  lemma EmptyVarint()
    ensures Decode32([]).Bad?
  {}

  lemma {:induction false} UnknownsSkipped(fields: seq<Field>, st: State, us: seq<seq<byte>>, b: seq<byte>)
    requires |st.slots| == |fields| && forall i | 0 <= i < |us| :: UnknownRecord(fields, us[i])
    ensures RunFields(fields, st, Flatten(us) + b) == RunFields(fields, st, b)
    decreases |us|
  {
    hide RunFields, UnknownRecord;
    if us == [] {
      assert Flatten(us) + b == b;
    } else {
      assert Flatten(us) + b == us[0] + (Flatten(us[1..]) + b);
      UnknownSkipped(fields, st, us[0], Flatten(us[1..]) + b);
      UnknownsSkipped(fields, st, us[1..], b);
    }
  }

  /** Unknown fields inserted at a field boundary change nothing: not the message, not the success of the decoding,
      not a fixed-count array in progress. `a` is input that ends at a boundary. */
  lemma UnknownFieldsTransparent(fields: seq<Field>, slots: seq<Slot>, a: seq<byte>, us: seq<seq<byte>>, b: seq<byte>)
    requires |slots| == |fields| && forall i | 0 <= i < |us| :: UnknownRecord(fields, us[i])
    requires var r := RunFields(fields, Start(slots), a); r.Ran? && !r.stopped
    ensures Merge(fields, slots, a + Flatten(us) + b) == Merge(fields, slots, a + b)
  {
    hide RunFields, UnknownRecord;
    var st := RunFields(fields, Start(slots), a).st;
    assert a + Flatten(us) + b == a + (Flatten(us) + b);
    RunSplit(fields, Start(slots), a, Flatten(us) + b);
    RunSplit(fields, Start(slots), a, b);
    UnknownsSkipped(fields, st, us, b);
  }

  /** The four kinds of record another version of a message can add. */
  datatype Extra = ExtraVarint(v: nat) | Extra64(bs: seq<byte>) | ExtraBytes(bs: seq<byte>) | Extra32(bs: seq<byte>)

  predicate ValidExtra(x: Extra) {
    match x
    case ExtraVarint(_) => true
    case Extra64(bs) => |bs| == 8
    case ExtraBytes(bs) => |bs| < TWO32
    case Extra32(bs) => |bs| == 4
  }

  function ExtraRecord(tag: nat, x: Extra): seq<byte> {
    match x
    case ExtraVarint(v) => Tag(tag, WT_VARINT) + Encoded(v)
    case Extra64(bs) => Tag(tag, WT_64BIT) + bs
    case ExtraBytes(bs) => Tag(tag, WT_STRING) + Prefixed(bs)
    case Extra32(bs) => Tag(tag, WT_32BIT) + bs
  }

  lemma {:induction false} SkipEncoded(v: nat)
    ensures SkipVarint(Encoded(v)) == Got((), [])
    decreases v
  {
    if v >= 128 {
      assert Encoded(v)[1..] == Encoded(v / 128);
      SkipEncoded(v / 128);
    }
  }

  /** Every record an encoder writes for a field number the descriptor lacks is skipped whole. */
  lemma ExtraIsUnknown(fields: seq<Field>, tag: nat, x: Extra)
    requires 0 < tag < 0x2000_0000 && Find(fields, tag).None? && ValidExtra(x)
    ensures UnknownRecord(fields, ExtraRecord(tag, x))
  {
    hide Decode32, Encoded, SkipVarint, Prefixed, TakePrefixed, Find;
    var wire := match x case ExtraVarint(_) => WT_VARINT case Extra64(_) => WT_64BIT
                        case ExtraBytes(_) => WT_STRING case Extra32(_) => WT_32BIT;
    var payload := match x case ExtraVarint(v) => Encoded(v) case Extra64(bs) => bs
                           case ExtraBytes(bs) => Prefixed(bs) case Extra32(bs) => bs;
    Decode32Encoded(tag * 8 + wire, payload);
    DivUnique(tag * 8 + wire, 8, tag, wire);
    match x {
      case ExtraVarint(v) => SkipEncoded(v);
      case ExtraBytes(bs) => TakePrefixedRoundTrip(bs, []); assert Prefixed(bs) + [] == Prefixed(bs);
      case Extra64(bs) =>
      case Extra32(bs) =>
    }
  }
}
