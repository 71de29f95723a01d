/** Packed and unpacked encodings of the same scalars are interchangeable. */
module Packed {
  import opened Common
  import opened Bits
  import opened Schema
  import opened Varint
  import opened Encode
  import opened Decode
  import opened Scalars
  import opened RoundTrip

  /** A record of a repeated scalar field: a packed run of any length, or a single value. */
  datatype Chunk = Run(items: seq<Value>) | Single(item: Value)

  function ChunkItems(c: Chunk): seq<Value> {
    match c case Run(items) => items case Single(v) => [v]
  }

  function Flat(cs: seq<Chunk>): seq<Value> {
    if cs == [] then [] else ChunkItems(cs[0]) + Flat(cs[1..])
  }

  predicate ValidChunk(k: Kind, c: Chunk)
    requires !k.Submessage?
  {
    && (forall i | 0 <= i < |ChunkItems(c)| :: SendableScalar(k, ChunkItems(c)[i]))
    && (c.Run? ==> ItemsBytes(k, c.items).Some? && |ItemsBytes(k, c.items).value| < TWO32)
  }

  function ChunkBytes(tag: nat, k: Kind, c: Chunk): Output {
    match c
    case Run(items) =>
      var body := ItemsBytes(k, items);
      if body.Some? then Some(Tag(tag, WT_STRING) + Prefixed(body.value)) else None
    case Single(v) => RecordBytes(tag, k, v)
  }

  function ChunksBytes(tag: nat, k: Kind, cs: seq<Chunk>): Output {
    if cs == [] then Some([]) else Cat(ChunkBytes(tag, k, cs[0]), ChunksBytes(tag, k, cs[1..]))
  }

  /** Past the end of the array the packed loop stops with input left over. */
  lemma {:induction false} PackedOverflow(k: Kind, max: nat, acc: seq<Value>, items: seq<Value>)
    requires Packable(k) && ValidKind(k) && |acc| <= max < |acc| + |items|
    requires forall i | 0 <= i < |items| :: SendableScalar(k, items[i])
    ensures ItemsBytes(k, items).Some?
    ensures var r := DecodePacked(k, max, acc, ItemsBytes(k, items).value); r.Got? && r.rest != []
    decreases |items|
  {
    hide ScalarBytes, DecodeScalar, SendableScalar;
    ItemsEncode(0, k, items) by { AllTyped(k, items); }
    var rest := ItemsBytes(k, items[1..]).value;
    ScalarRoundTrip(k, items[0], rest);
    if |acc| < max {
      PackedOverflow(k, max, acc + [items[0]], items[1..]);
    }
  }

  lemma AllTyped(k: Kind, items: seq<Value>)
    requires !k.Submessage? && forall i | 0 <= i < |items| :: SendableScalar(k, items[i])
    ensures forall i | 0 <= i < |items| :: TypedValue(k, items[i])
  {}

  /** One record appends its values, or fails when they do not fit. */
  lemma ChunkDecodes(f: Field, acc: seq<Value>, c: Chunk, rest: seq<byte>)
    requires ValidField(f) && Packable(f.kind) && (f.rule.Repeated? || f.rule.FixedCount?)
    requires |acc| <= f.rule.max && ValidChunk(f.kind, c)
    ensures ChunkBytes(f.tag, f.kind, c).Some?
    ensures var wire := if c.Run? then WT_STRING else WireType(f.kind);
            exists payload ::
              && ChunkBytes(f.tag, f.kind, c).value == Tag(f.tag, wire) + payload
              && FieldItems(f, acc, wire, payload + rest) ==
                 if |acc| + |ChunkItems(c)| <= f.rule.max then Got(acc + ChunkItems(c), rest) else Bad
  {
    hide ScalarBytes, DecodeScalar, DecodePacked, TakePrefixed, Prefixed, Tag, SendableScalar, ItemsBytes;
    var k := f.kind;
    match c
    case Run(items) =>
      var body := ItemsBytes(k, items).value;
      assert ChunkItems(c) == items;
      TakePrefixedRoundTrip(body, rest);
      if |acc| + |items| <= f.rule.max { PackedRoundTrip(k, f.rule.max, acc, items); }
      else { PackedOverflow(k, f.rule.max, acc, items); }
      assert TakePrefixed(Prefixed(body) + rest) == Got(body, rest);
      assert FieldItems(f, acc, WT_STRING, Prefixed(body) + rest) ==
             if |acc| + |ChunkItems(c)| <= f.rule.max then Got(acc + ChunkItems(c), rest) else Bad;
      assert ChunkBytes(f.tag, k, c).value == Tag(f.tag, WT_STRING) + Prefixed(body);
    case Single(v) =>
      assert ChunkItems(c)[0] == v;
      ScalarRoundTrip(k, v, rest);
      var payload := ScalarBytes(k, v).value;
      assert FieldItems(f, acc, WireType(k), payload + rest) ==
             if |acc| + |ChunkItems(c)| <= f.rule.max then Got(acc + ChunkItems(c), rest) else Bad;
      assert ChunkBytes(f.tag, k, c).value == Tag(f.tag, WireType(k)) + ScalarBytes(k, v).value;
  }

  /** However a list of scalars is cut into packed runs and single records, the array ends up with the same
      contents; and decoding fails exactly when the total exceeds the array. */
  lemma {:induction false} PackedInterchange(fields: seq<Field>, st: State, i: nat, acc: seq<Value>, cs: seq<Chunk>,
                                             rest: seq<byte>)
    requires ValidFields(fields) && i < |fields| == |st.slots|
    requires Packable(fields[i].kind) && (fields[i].rule.Repeated? || fields[i].rule.FixedCount?)
    requires Received(fields, st, i) == Some(acc) && |acc| <= fields[i].rule.max
    requires fields[i].rule.FixedCount? ==> |Items(st.slots[i])| == fields[i].rule.max
    requires forall j | 0 <= j < |cs| :: ValidChunk(fields[i].kind, cs[j])
    requires cs != []
    ensures ChunksBytes(fields[i].tag, fields[i].kind, cs).Some?
    ensures RunFields(fields, st, ChunksBytes(fields[i].tag, fields[i].kind, cs).value + rest) ==
            if |acc| + |Flat(cs)| <= fields[i].rule.max
            then RunFields(fields, StoreItems(fields, st, i, acc + Flat(cs)), rest) else Failed
    decreases |cs|
  {
    hide RunFields, ValidChunk, ChunkBytes, FieldItems, StoreItems, Received, Tag, WireType, ChunkItems;
    var f := fields[i];
    FieldIsValid(fields, i);
    var c := cs[0];
    var wire := if c.Run? then WT_STRING else WireType(f.kind);
    MoreBytes(fields, i, cs[1..]);
    var more := ChunksBytes(f.tag, f.kind, cs[1..]).value;
    ChunkDecodes(f, acc, c, more + rest);
    var payload :| ChunkBytes(f.tag, f.kind, c).value == Tag(f.tag, wire) + payload
                   && FieldItems(f, acc, wire, payload + (more + rest)) ==
                      if |acc| + |ChunkItems(c)| <= f.rule.max then Got(acc + ChunkItems(c), more + rest) else Bad;
    assert ChunksBytes(f.tag, f.kind, cs).value + rest == Tag(f.tag, wire) + (payload + (more + rest));
    TagStep(fields, st, i, wire, payload + (more + rest));
    var acc' := acc + ChunkItems(c);
    assert acc' + Flat(cs[1..]) == acc + Flat(cs);
    if |acc'| <= f.rule.max {
      if cs[1..] == [] {
        assert more + rest == rest;
        assert acc' == acc + Flat(cs);
      } else {
        ReceivedAfterStore(fields, st, i, acc');
        PackedInterchange(fields, StoreItems(fields, st, i, acc'), i, acc', cs[1..], rest);
        if |acc + Flat(cs)| <= f.rule.max { StoreTwice(fields, st, i, acc', acc + Flat(cs)); }
      }
    }
  }

  lemma {:induction false} MoreBytes(fields: seq<Field>, i: nat, cs: seq<Chunk>)
    requires ValidFields(fields) && i < |fields| && Packable(fields[i].kind)
    requires forall j | 0 <= j < |cs| :: ValidChunk(fields[i].kind, cs[j])
    ensures ChunksBytes(fields[i].tag, fields[i].kind, cs).Some?
    decreases |cs|
  {
    hide ScalarBytes, SendableScalar;
    if cs != [] {
      FieldIsValid(fields, i);
      if cs[0].Single? {
        assert ChunkItems(cs[0])[0] == cs[0].item;
        ScalarRoundTrip(fields[i].kind, cs[0].item, []);
      }
      MoreBytes(fields, i, cs[1..]);
    }
  }

  /** Two ways of cutting the same list give the same decoding of everything that follows. */
  lemma SameListSameMessage(fields: seq<Field>, st: State, i: nat, acc: seq<Value>, cs: seq<Chunk>, ds: seq<Chunk>,
                            rest: seq<byte>)
    requires ValidFields(fields) && i < |fields| == |st.slots|
    requires Packable(fields[i].kind) && (fields[i].rule.Repeated? || fields[i].rule.FixedCount?)
    requires Received(fields, st, i) == Some(acc) && |acc| <= fields[i].rule.max
    requires fields[i].rule.FixedCount? ==> |Items(st.slots[i])| == fields[i].rule.max
    requires forall j | 0 <= j < |cs| :: ValidChunk(fields[i].kind, cs[j])
    requires forall j | 0 <= j < |ds| :: ValidChunk(fields[i].kind, ds[j])
    requires cs != [] && ds != [] && Flat(cs) == Flat(ds)
    ensures ChunksBytes(fields[i].tag, fields[i].kind, cs).Some?
    ensures ChunksBytes(fields[i].tag, fields[i].kind, ds).Some?
    ensures RunFields(fields, st, ChunksBytes(fields[i].tag, fields[i].kind, cs).value + rest) ==
            RunFields(fields, st, ChunksBytes(fields[i].tag, fields[i].kind, ds).value + rest)
  {
    hide RunFields, ValidChunk, ChunksBytes, StoreItems, Received, Flat, ValidFields, Items;
    PackedInterchange(fields, st, i, acc, cs, rest);
    PackedInterchange(fields, st, i, acc, ds, rest);
  }

  // ---------------------------------------------------------------- fixed-count arrays do not merge

  predicate NoRequired(fields: seq<Field>) {
    forall i | 0 <= i < |fields| :: !fields[i].rule.Required?
  }

  /** A full packed record of a fixed-count array. */
  function FullRecord(f: Field, items: seq<Value>): Output { ChunkBytes(f.tag, f.kind, Run(items)) }

  lemma FullRecordRuns(fields: seq<Field>, slots: seq<Slot>, i: nat, items: seq<Value>)
    requires ValidFields(fields) && |slots| == |fields| && i < |fields|
    requires fields[i].rule.FixedCount? && Packable(fields[i].kind) &&
             |Items(slots[i])| == |items| == fields[i].rule.max > 0
    requires ValidChunk(fields[i].kind, Run(items))
    ensures FullRecord(fields[i], items).Some?
    ensures RunFields(fields, Start(slots), FullRecord(fields[i], items).value) ==
            Ran(StoreItems(fields, Start(slots), i, items), [], false)
    ensures RunFields(fields, Start(slots), FullRecord(fields[i], items).value + FullRecord(fields[i], items).value) ==
            Failed
  {
    hide ValidChunk, ChunkBytes, ValidFields, RunFields, StoreItems;
    var f, st, one := fields[i], Start(slots), Run(items);
    assert Received(fields, st, i) == Some([]) by { FreshStart(fields, slots, i); }
    assert Flat([one]) == items + Flat([]) == items by { assert [one][1..] == []; }
    assert Flat([one, one]) == items + Flat([one]) by { assert [one, one][1..] == [one]; }
    PackedInterchange(fields, st, i, [], [one], []);
    PackedInterchange(fields, st, i, [], [one, one], []);
    OneChunk(f, one);
    var b := FullRecord(f, items).value;
    assert b + [] == b && (b + b) + [] == b + b && [] + items == items;
    EmptyRun(fields, StoreItems(fields, st, i, items));
  }

  /** Records of a fixed-count array alone, however cut, decode exactly when they fill it. */
  lemma FixedCountIff(fields: seq<Field>, slots: seq<Slot>, i: nat, cs: seq<Chunk>)
    requires ValidFields(fields) && NoRequired(fields) && |slots| == |fields| && i < |fields|
    requires fields[i].rule.FixedCount? && Packable(fields[i].kind) && |Items(slots[i])| == fields[i].rule.max
    requires cs != [] && forall j | 0 <= j < |cs| :: ValidChunk(fields[i].kind, cs[j])
    ensures ChunksBytes(fields[i].tag, fields[i].kind, cs).Some?
    ensures var r := Merge(fields, slots, ChunksBytes(fields[i].tag, fields[i].kind, cs).value);
            && (r.Got? <==> |Flat(cs)| == fields[i].rule.max)
            && (r.Got? ==> r.v == slots[i := Many(Flat(cs))] && r.rest == [])
  {
    hide ValidChunk, ChunksBytes, ValidFields, RunFields, StoreItems, Received, Flat;
    var st, items := Start(slots), Flat(cs);
    FreshStart(fields, slots, i);
    PackedInterchange(fields, st, i, [], cs, []);
    var b := ChunksBytes(fields[i].tag, fields[i].kind, cs).value;
    assert b + [] == b && [] + items == items;
    EmptyRun(fields, StoreItems(fields, st, i, items));
    StoredCount(fields, slots, i, items);
  }

  lemma StoredCount(fields: seq<Field>, slots: seq<Slot>, i: nat, items: seq<Value>)
    requires NoRequired(fields) && |slots| == |fields| && i < |fields|
    requires fields[i].rule.FixedCount? && |Items(slots[i])| == fields[i].rule.max
    ensures var st := StoreItems(fields, Start(slots), i, items);
            && (Complete(fields, st) <==> |items| == fields[i].rule.max)
            && (|items| == fields[i].rule.max ==> st.slots == slots[i := Many(items)])
  {
    if |items| == fields[i].rule.max { assert Items(slots[i])[|items|..] == [] && items + [] == items; }
  }

  lemma FreshStart(fields: seq<Field>, slots: seq<Slot>, i: nat)
    requires i < |fields| == |slots| && fields[i].rule.FixedCount?
    ensures Received(fields, Start(slots), i) == Some([])
  {}

  lemma EmptyRun(fields: seq<Field>, st: State)
    requires |st.slots| == |fields|
    ensures RunFields(fields, st, []) == Ran(st, [], false)
  {}

  lemma OneChunk(f: Field, c: Chunk)
    ensures var b := ChunkBytes(f.tag, f.kind, c);
            && ChunksBytes(f.tag, f.kind, [c]) == (if b.Some? then Some(b.value) else None)
            && ChunksBytes(f.tag, f.kind, [c, c]) == (if b.Some? then Some(b.value + b.value) else None)
  {
    hide ChunkBytes;
    assert [c][1..] == [] && [c, c][1..] == [c];
    var b := ChunkBytes(f.tag, f.kind, c);
    if b.Some? { assert b.value + [] == b.value; }
  }

  /** Why concatenation is merge only without fixed-count arrays: a record that fills such an array decodes, and
      decodes again onto the result, while the two together are rejected. */
  lemma FixedCountDoesNotMerge(fields: seq<Field>, slots: seq<Slot>, i: nat, items: seq<Value>)
    requires ValidFields(fields) && NoRequired(fields) && |slots| == |fields| && i < |fields|
    requires fields[i].rule.FixedCount? && Packable(fields[i].kind) &&
             |Items(slots[i])| == |items| == fields[i].rule.max > 0
    requires ValidChunk(fields[i].kind, Run(items))
    ensures FullRecord(fields[i], items).Some?
    ensures var b := FullRecord(fields[i], items).value;
            && Merge(fields, slots, b).Got?
            && Merge(fields, Merge(fields, slots, b).v, b).Got?
            && Merge(fields, slots, b + b).Bad?
  {
    hide ValidChunk, FullRecord, ValidFields, RunFields;
    FullRecordRuns(fields, slots, i, items);
    var once := StoreItems(fields, Start(slots), i, items);
    FullRecordRuns(fields, once.slots, i, items);
  }
}
