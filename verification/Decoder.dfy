/** pb_decode as it runs: streams, the field iterator, the presence words and the fixed-count bookkeeping, proved
    to compute Decode.Merge. */
module Decoder {
  import opened Common
  import opened Bits
  import opened Schema
  import opened Varint
  import Encode
  import opened Decode
  import opened InStream
  import FieldIter
  import Required
  import Presence
  import opened Scalars
  import opened RoundTrip

  // ---------------------------------------------------------------- the descriptor as the iterator sees it

  function HTypeOf(r: Rule): FieldIter.HType {
    match r
    case Required => FieldIter.HRequired
    case Optional => FieldIter.HOptional
    case Singular => FieldIter.HOptional
    case Repeated(_) => FieldIter.HRepeated
    case FixedCount(_) => FieldIter.HRepeated
    case Oneof(_) => FieldIter.HOneof
  }

  function DataSize(k: Kind): nat {
    match k
    case Bool => 1
    case VarInt(w) => w
    case UVarInt(w) => w
    case SVarInt(w) => w
    case Fixed32 => 4
    case Fixed64 => 8
    case Bytes(n) => n
    case String(n) => n
    case FixedBytes(n) => n
    case Submessage(_, n) => n
  }

  function CellOf(f: Field): FieldIter.Cell {
    FieldIter.Cell(f.tag, HTypeOf(f.rule), FieldIter.Static, false, f.dataOffset, f.sizeOffset, DataSize(f.kind),
                   if f.rule.Repeated? || f.rule.FixedCount? then f.rule.max else 0)
  }

  function Cells(fields: seq<Field>): (cells: seq<FieldIter.Cell>)
    ensures |cells| == |fields|
    ensures forall i | 0 <= i < |fields| :: cells[i] == CellOf(fields[i])
  {
    seq(|fields|, i requires 0 <= i < |fields| => CellOf(fields[i]))
  }

  lemma CellsValid(fields: seq<Field>)
    requires ValidFields(fields)
    ensures FieldIter.ValidTable(Cells(fields))
  {
    forall i | 0 <= i < |fields| ensures Cells(fields)[i].tag != 0 { FieldIsValid(fields, i); TagInRange(fields[i]); }
  }

  lemma {:induction false} RequiredAgree(fields: seq<Field>, i: nat)
    requires i <= |fields|
    ensures FieldIter.RequiredAt(Cells(fields), i) == RequiredBefore(fields, i)
    decreases i
  {
    if i > 0 { RequiredAgree(fields, i - 1); }
  }

  /** Going round from any position, the iterator stops at the field Find names, or at none when Find names none. */
  lemma FindAgrees(fields: seq<Field>, tag: nat)
    requires ValidFields(fields)
    ensures Find(fields, tag).Some? <==> exists i | 0 <= i < |fields| :: FieldIter.Matches(Cells(fields)[i], tag)
    ensures forall i: nat | i < |fields| && FieldIter.Matches(FieldIter.At(Cells(fields), i), tag) ::
            Find(fields, tag) == Some(i)
  {
    forall i: nat | i < |fields| && FieldIter.Matches(FieldIter.At(Cells(fields), i), tag)
      ensures Find(fields, tag) == Some(i)
    {
      FindUnique(fields, i);
    }
    if Find(fields, tag).Some? { assert FieldIter.Matches(Cells(fields)[Find(fields, tag).value], tag); }
  }

  // ---------------------------------------------------------------- values

  /** pb_decode_fixed32: four bytes shifted into place. */
  method ReadFixed32(s: Stream) returns (ok: bool, value: nat)
    requires s.Valid()
    modifies s
    ensures s.Valid() && s.End() == old(s.End())
    ensures ok <==> Take(old(s.Rest()), 4).Got?
    ensures ok ==> s.Rest() == Take(old(s.Rest()), 4).rest && value == FromLittleEndian(Take(old(s.Rest()), 4).v)
  {
    hide BitOr, Shl, FromLittleEndian;
    var bytes;
    value := 0;
    ok, bytes := s.Read(4);
    if !ok { return; }
    value := BitOr(BitOr(BitOr(bytes[0], Shl(bytes[1], 8, 32)), Shl(bytes[2], 16, 32)), Shl(bytes[3], 24, 32));
    FirstByte(bytes);
    OrByte(bytes, 1, 32);
    OrByte(bytes, 2, 32);
    OrByte(bytes, 3, 32);
    assert bytes[..4] == bytes;
  }

  lemma FirstByte(bytes: seq<byte>)
    requires bytes != []
    ensures FromLittleEndian(bytes[..1]) == bytes[0]
  {
    assert bytes[..1][1..] == [];
  }

  /** pb_decode_fixed64. */
  method ReadFixed64(s: Stream) returns (ok: bool, value: nat)
    requires s.Valid()
    modifies s
    ensures s.Valid() && s.End() == old(s.End())
    ensures ok <==> Take(old(s.Rest()), 8).Got?
    ensures ok ==> s.Rest() == Take(old(s.Rest()), 8).rest && value == FromLittleEndian(Take(old(s.Rest()), 8).v)
  {
    hide BitOr, Shl, FromLittleEndian;
    var bytes;
    value := 0;
    ok, bytes := s.Read(8);
    if !ok { return; }
    var low := BitOr(BitOr(BitOr(bytes[0], Shl(bytes[1], 8, 64)), Shl(bytes[2], 16, 64)), Shl(bytes[3], 24, 64));
    value := BitOr(BitOr(BitOr(BitOr(low, Shl(bytes[4], 32, 64)), Shl(bytes[5], 40, 64)), Shl(bytes[6], 48, 64)),
                   Shl(bytes[7], 56, 64));
    FirstByte(bytes);
    OrByte(bytes, 1, 64);
    OrByte(bytes, 2, 64);
    OrByte(bytes, 3, 64);
    OrByte(bytes, 4, 64);
    OrByte(bytes, 5, 64);
    OrByte(bytes, 6, 64);
    OrByte(bytes, 7, 64);
    assert bytes[..8] == bytes;
  }

  /** The pb_dec_ functions for kinds other than submessages. */
  method ReadScalar(s: Stream, k: Kind) returns (ok: bool, v: Value)
    requires s.Valid() && !k.Submessage?
    modifies s
    ensures s.Valid() && s.End() == old(s.End())
    ensures ok <==> DecodeScalar(k, old(s.Rest())).Got?
    ensures ok ==> Got(v, s.Rest()) == DecodeScalar(k, old(s.Rest()))
  {
    hide Decode32, Decode64, FromVarint, Take, FromLittleEndian;
    var u: nat;
    var eof: bool;
    var data: seq<byte>;
    v := Flag(false);
    match k {
      case Bool =>
        ok, u, eof := s.DecodeVarint32();
        if ok { v := Flag(u != 0); }
      case Fixed32 =>
        ok, u := ReadFixed32(s);
        if ok { v := Num(u); }
      case Fixed64 =>
        ok, u := ReadFixed64(s);
        if ok { v := Num(u); }
      case Bytes(n) =>
        ok, u, eof := s.DecodeVarint32();
        if !ok { return; }
        if u + BYTES_HEADER > n { return false, v; }
        ok, data := s.Read(u);
        v := Blob(data);
      case String(n) =>
        ok, u, eof := s.DecodeVarint32();
        if !ok { return; }
        if u + 1 > n { return false, v; }
        ok, data := s.Read(u);
        v := Blob(data);
      case FixedBytes(n) =>
        ok, u, eof := s.DecodeVarint32();
        if !ok { return; }
        if u == 0 { return true, Blob(seq(n, _ => 0)); }
        if u != n { return false, v; }
        ok, data := s.Read(n);
        v := Blob(data);
      case VarInt(_) => ok, v := ReadVarintField(s, k);
      case UVarInt(_) => ok, v := ReadVarintField(s, k);
      case SVarInt(_) => ok, v := ReadVarintField(s, k);
    }
  }

  /** pb_dec_varint, pb_dec_uvarint, pb_dec_svarint: read 64 bits, cast to the field's size, and reject the value
      when the cast changed it. */
  method ReadVarintField(s: Stream, k: Kind) returns (ok: bool, v: Value)
    requires s.Valid() && (k.VarInt? || k.UVarInt? || k.SVarInt?)
    modifies s
    ensures s.Valid() && s.End() == old(s.End())
    ensures ok <==> DecodeVarintField(k, old(s.Rest())).Got?
    ensures ok ==> Got(v, s.Rest()) == DecodeVarintField(k, old(s.Rest()))
  {
    hide Decode64, Signed;
    var value: nat;
    v := Num(0);
    ok, value := s.DecodeVarint64();
    if !ok { return; }
    Decode64Bound(old(s.Rest()));
    if !ValidWidth(k.width) { return false, v; }
    if k.UVarInt? {
      var clamped := value % Modulus(k.width);
      return clamped == value, Num(clamped);
    }
    var svalue: int;
    if k.SVarInt? {
      svalue := if value % 2 == 1 then Signed(TWO64 - 1 - value / 2, TWO64) else Signed(value / 2, TWO64);
    }
    else if k.width == 8 { svalue := Signed(value, TWO64); }
    else { svalue := Signed(value, TWO32); }
    var clamped := Signed(svalue, Modulus(k.width));
    return clamped == svalue, Num(clamped);
  }

  /** pb_dec_ for any kind; a submessage is decoded in a substream. */
  method ReadValue(s: Stream, k: Kind, prior: Value) returns (ok: bool, v: Value)
    requires s.Valid() && ValidKind(k)
    modifies s
    ensures s.Valid() && s.End() <= old(s.End())
    ensures ok <==> DecodeValue(k, prior, old(s.Rest())).Got?
    ensures ok ==> Got(v, s.Rest()) == DecodeValue(k, prior, old(s.Rest())) && s.End() == old(s.End())
    decreases k, 0
  {
    hide TakePrefixed, Merge, DecodeScalar, ValidFields;
    if !k.Submessage? {
      ok, v := ReadScalar(s, k);
      return;
    }
    v := prior;
    var sub;
    ok, sub := s.MakeSubstream();
    if !ok { return; }
    var dest := if prior.Msg? && |prior.slots| == |k.fields| then prior.slots else Defaults(k.fields);
    var status;
    status, dest := DecodeNoinit(sub, k.fields, dest);
    ok := s.CloseSubstream(sub);
    if !ok { return; }
    return status, Msg(dest);
  }

  /** The packed branch of decode_static_field. */
  method ReadPacked(s: Stream, k: Kind, max: nat, acc: seq<Value>) returns (ok: bool, items: seq<Value>)
    requires s.Valid() && Packable(k)
    modifies s
    ensures s.Valid() && s.End() <= old(s.End())
    ensures ok <==> DecodeArray(k, max, acc, Encode.WT_STRING, old(s.Rest())).Got?
    ensures ok ==> Got(items, s.Rest()) == DecodeArray(k, max, acc, Encode.WT_STRING, old(s.Rest()))
    ensures ok ==> s.End() == old(s.End())
  {
    hide TakePrefixed, DecodeScalar, DecodeValue;
    items := acc;
    var sub;
    ok, sub := s.MakeSubstream();
    if !ok { return; }
    ghost var body, subEnd, at, left := sub.Rest(), sub.End(), s.state, s.bytesLeft;
    var status := true;
    while sub.bytesLeft > 0 && |items| < max
      invariant status && sub.Valid() && sub.End() == subEnd && s.state == at && s.bytesLeft == left
      invariant DecodePacked(k, max, acc, body) == DecodePacked(k, max, items, sub.Rest())
      decreases sub.bytesLeft
    {
      var good, v := ReadScalar(sub, k);
      if !good {
        status := false;
        break;
      }
      items := items + [v];
    }
    if sub.bytesLeft != 0 { return false, items; }
    ok := s.CloseSubstream(sub);
    if !ok { return; }
    return status, items;
  }

  /** The REPEATED case of decode_static_field; `acc` holds the entries received so far. */
  method ReadArray(s: Stream, f: Field, acc: seq<Value>, wire: nat) returns (ok: bool, items: seq<Value>)
    requires s.Valid() && ValidField(f) && (f.rule.Repeated? || f.rule.FixedCount?)
    modifies s
    ensures s.Valid() && s.End() <= old(s.End())
    ensures ok <==> FieldItems(f, acc, wire, old(s.Rest())).Got?
    ensures ok ==> Got(items, s.Rest()) == FieldItems(f, acc, wire, old(s.Rest())) && s.End() == old(s.End())
    decreases f
  {
    hide TakePrefixed, DecodeValue, DecodePacked, ValidKind, ScalarFits, Zero;
    if wire == Encode.WT_STRING && Packable(f.kind) {
      ok, items := ReadPacked(s, f.kind, f.rule.max, acc);
      return;
    }
    items := acc;
    if |acc| >= f.rule.max { return false, items; }
    var v;
    ok, v := ReadValue(s, f.kind, Zero(f.kind));
    if ok { items := acc + [v]; }
  }

  /** The REQUIRED, OPTIONAL and ONEOF cases of decode_static_field. */
  method ReadSingle(s: Stream, f: Field, slot: Slot) returns (ok: bool, v: Value)
    requires s.Valid() && ValidField(f)
    modifies s
    ensures s.Valid() && s.End() <= old(s.End())
    ensures ok <==> FieldValue(f, slot, old(s.Rest())).Got?
    ensures ok ==> Got(v, s.Rest()) == FieldValue(f, slot, old(s.Rest())) && s.End() == old(s.End())
    decreases f
  {
    hide DecodeValue, ValidKind, ScalarFits, Zero;
    ok, v := ReadValue(s, f.kind, if f.rule.Oneof? then Zero(f.kind) else OldValue(f, slot));
  }

  /** decode_field. `st` is the state of the field loop: for a fixed-count array, `fixedField` already names it and
      `fixedCount` counts the entries received. */
  method ReadField(s: Stream, fields: seq<Field>, st: State, i: nat, wire: nat) returns (ok: bool, st': State)
    requires s.Valid() && ValidFields(fields) && i < |fields| == |st.slots|
    requires fields[i].rule.FixedCount? ==> st.fixedField == Some(i)
    modifies s
    ensures s.Valid() && s.End() <= old(s.End())
    ensures ok <==> DecodeField(fields, st, i, wire, old(s.Rest())).Got?
    ensures ok ==> Got(st', s.Rest()) == DecodeField(fields, st, i, wire, old(s.Rest())) && s.End() == old(s.End())
    ensures |st'.slots| == |fields|
    decreases fields, 0
  {
    hide FieldItems, FieldValue, ValidField;
    var f, slot := fields[i], st.slots[i];
    st' := st;
    match f.rule {
      case Repeated(_) =>
        var items;
        ok, items := ReadArray(s, f, Items(slot), wire);
        if ok { st' := st.(slots := st.slots[i := Many(items)]); }
      case FixedCount(_) =>
        var entries := Items(slot);
        var size := if st.fixedCount < |entries| then st.fixedCount else |entries|;
        assert entries[..|entries|] == entries;
        var items;
        ok, items := ReadArray(s, f, entries[..size], wire);
        if ok {
          var kept := if |items| < |entries| then entries[|items|..] else [];
          st' := st.(slots := st.slots[i := Many(items + kept)], fixedCount := |items|);
          FixedStored(fields, st, i, items, kept);
        }
      case Required =>
        var v;
        ok, v := ReadSingle(s, f, slot);
        if ok { st' := st.(slots := st.slots[i := One(v)], seen := st.seen + {i}); }
      case Optional =>
        var v;
        ok, v := ReadSingle(s, f, slot);
        if ok { st' := st.(slots := st.slots[i := Opt(true, v)]); }
      case Singular =>
        var v;
        ok, v := ReadSingle(s, f, slot);
        if ok { st' := st.(slots := st.slots[i := One(v)]); }
      case Oneof(_) =>
        var v;
        ok, v := ReadSingle(s, f, slot);
        if ok { st' := st.(slots := Activate(fields, st.slots, i, v)); }
    }
  }

  lemma FixedStored(fields: seq<Field>, st: State, i: nat, items: seq<Value>, kept: seq<Value>)
    requires i < |fields| == |st.slots| && fields[i].rule.FixedCount? && st.fixedField == Some(i)
    requires var entries := Items(st.slots[i]); kept == if |items| < |entries| then entries[|items|..] else []
    ensures st.(slots := st.slots[i := Many(items + kept)], fixedCount := |items|) == StoreItems(fields, st, i, items)
  {
    var entries := Items(st.slots[i]);
    assert |items| == |entries| ==> entries[|items|..] == [];
  }

  /** A fixed-count record begins its array anew exactly when the array in progress is another one. */
  lemma BeginsAnew(fields: seq<Field>, st: State, i: nat, wire: nat, inp: seq<byte>)
    requires i < |fields| == |st.slots| && fields[i].rule.FixedCount? && st.fixedField != Some(i) &&
             FixedDone(fields, st)
    ensures DecodeField(fields, st, i, wire, inp) ==
            DecodeField(fields, st.(fixedField := Some(i), fixedCount := 0), i, wire, inp)
  {
    hide FieldItems;
  }

  /** The fixed-count bookkeeping before a record: an array in progress must be complete before another begins. */
  method TurnToFixed(fields: seq<Field>, st: State, i: nat, wire: nat, ghost inp: seq<byte>)
    returns (ok: bool, next: State)
    requires i < |fields| == |st.slots|
    ensures |next.slots| == |fields| && next.seen == st.seen
    ensures ok ==> DecodeField(fields, next, i, wire, inp) == DecodeField(fields, st, i, wire, inp)
    ensures ok && fields[i].rule.FixedCount? ==> next.fixedField == Some(i)
    ensures !ok ==> DecodeField(fields, st, i, wire, inp).Bad?
  {
    hide DecodeField;
    next := st;
    if fields[i].rule.FixedCount? && st.fixedField != Some(i) {
      if st.fixedField.Some? && st.fixedField.value < |fields| && fields[st.fixedField.value].rule.FixedCount?
         && st.fixedCount != fields[st.fixedField.value].rule.max {
        NothingReceivedFails(fields, st, i, wire, inp);
        return false, st;
      }
      next := st.(fixedField := Some(i), fixedCount := 0);
      BeginsAnew(fields, st, i, wire, inp);
    }
    ok := true;
  }

  /** One turn of the field loop, after the tag: find the field, check the fixed-count bookkeeping, mark a required
      field, and decode the field or skip the record. */
  method ReadRecord(s: Stream, fields: seq<Field>, st: State, tag: nat, wire: nat, iter: FieldIter.Iterator,
                    words: array<nat>)
    returns (ok: bool, st': State)
    requires s.Valid() && ValidFields(fields) && |st.slots| == |fields|
    requires iter.Valid() && iter.cells == Cells(fields)
    requires words.Length == 2 && Required.Tracks(words[..], Required.TrackedIndices(fields, st.seen))
    modifies s, iter, words
    ensures s.Valid() && s.End() <= old(s.End()) && iter.Valid() && |st'.slots| == |fields|
    ensures ok <==> Step(fields, st, tag, wire, old(s.Rest())).Got?
    ensures ok ==> Got(st', s.Rest()) == Step(fields, st, tag, wire, old(s.Rest())) && s.End() == old(s.End())
    ensures ok ==> Required.Tracks(words[..], Required.TrackedIndices(fields, st'.seen))
    decreases fields, 1
  {
    hide Skip, DecodeField, Decode32, ValidFields, Required.Tracks, Required.TrackedIndices, Find, StoreItems,
         RequiredBefore;
    st' := st;
    FindAgrees(fields, tag);
    var found, steps := iter.Find(tag);
    if !found {
      ok := s.SkipField(wire);
      return;
    }
    if fields == [] {
      // The terminator of an empty table passes for a required bool; the struct has no member to hold it.
      var u, eof;
      ok, u, eof := s.DecodeVarint32();
      return;
    }
    var i := iter.pos;
    var next;
    ok, next := TurnToFixed(fields, st, i, wire, s.Rest());
    if !ok { return; }
    RequiredAgree(fields, i);
    if fields[i].rule.Required? {
      Required.TrackOne(fields, st.seen, i);
      Required.MarkSeen(words, iter.requiredIndex, Required.TrackedIndices(fields, st.seen));
    }
    ghost var before := s.Rest();
    ok, st' := ReadField(s, fields, next, i, wire);
    if ok { Presence.FieldSees(fields, st, i, wire, before); }
  }

  lemma NothingReceivedFails(fields: seq<Field>, st: State, i: nat, wire: nat, inp: seq<byte>)
    requires i < |fields| == |st.slots| && Received(fields, st, i).None?
    ensures DecodeField(fields, st, i, wire, inp).Bad?
  {}

  /** The loop of pb_decode_noinit. */
  method FieldLoop(s: Stream, fields: seq<Field>, slots: seq<Slot>, iter: FieldIter.Iterator, words: array<nat>)
    returns (ok: bool, st: State)
    requires s.Valid() && ValidFields(fields) && |slots| == |fields|
    requires iter.Valid() && iter.cells == Cells(fields)
    requires words.Length == 2 && Required.Tracks(words[..], {})
    modifies s, iter, words
    ensures s.Valid() && s.End() <= old(s.End()) && iter.Valid() && |st.slots| == |fields|
    ensures ok <==> RunFields(fields, Start(slots), old(s.Rest())).Ran?
    ensures ok ==> var r := RunFields(fields, Start(slots), old(s.Rest()));
                   st == r.st && s.Rest() == r.rest && s.End() == old(s.End())
    ensures ok ==> Required.Tracks(words[..], Required.TrackedIndices(fields, st.seen))
    decreases fields, 2
  {
    hide Step, Decode32, ValidFields, Required.Tracks;
    st := Start(slots);
    assert Required.TrackedIndices(fields, {}) == {};
    ghost var whole, end := s.Rest(), s.End();
    ghost var stopped := false;
    while s.bytesLeft > 0
      invariant s.Valid() && s.End() == end && iter.Valid() && |st.slots| == |fields|
      invariant RunFields(fields, Start(slots), whole) == RunFields(fields, st, s.Rest())
      invariant Required.Tracks(words[..], Required.TrackedIndices(fields, st.seen))
      decreases s.bytesLeft
    {
      ghost var here := s.Rest();
      var more, wire, tag, eof := s.DecodeTag();
      if !more {
        if eof {
          stopped := true;
          assert RunFields(fields, st, here) == Ran(st, s.Rest(), true);
          break;
        }
        return false, st;
      }
      TagParts(tag, wire);
      ghost var payload := s.Rest();
      ok, st := ReadRecord(s, fields, st, tag, wire, iter, words);
      if !ok { return; }
    }
    ok := true;
  }

  lemma TagParts(tag: nat, wire: nat)
    requires wire < 8
    ensures (tag * 8 + wire) / 8 == tag && (tag * 8 + wire) % 8 == wire
  {}

  /** The checks after the loop. The iterator may stand anywhere; running it to the end counts the required
      fields. */
  method FinalChecks(fields: seq<Field>, st: State, iter: FieldIter.Iterator, words: array<nat>) returns (ok: bool)
    requires iter.Valid() && iter.cells == Cells(fields)
    requires words.Length == 2 && Required.Tracks(words[..], Required.TrackedIndices(fields, st.seen))
    modifies iter
    ensures ok <==> Complete(fields, st)
  {
    hide Required.Tracks, Required.TrackedIndices;
    if st.fixedField.Some? && st.fixedField.value < |fields| && fields[st.fixedField.value].rule.FixedCount?
       && st.fixedCount != fields[st.fixedField.value].rule.max {
      return false;
    }
    var count := 0;
    var lastRequired := false;
    var more := true;
    ghost var last := iter.pos;
    while more
      invariant iter.Valid() && iter.cells == Cells(fields)
      invariant more ==> last == iter.pos
      invariant !more ==> (last + 1 == |fields| || (fields == [] && last == 0)) &&
                          count == FieldIter.RequiredAt(Cells(fields), last) &&
                          lastRequired == FieldIter.At(Cells(fields), last).htype.HRequired?
      decreases more, |fields| - iter.pos
    {
      last := iter.pos;
      count := iter.requiredIndex;
      lastRequired := FieldIter.At(iter.cells, iter.pos).htype.HRequired?;
      more := iter.Next();
      if more { last := iter.pos; }
    }
    if lastRequired && FieldIter.At(iter.cells, iter.pos).tag != 0 {
      count := count + 1;
    }
    RequiredAgree(fields, last);
    assert count == RequiredBefore(fields, |fields|);
    Required.TrackedBelowTotal(fields, st.seen);
    Required.TrackedMeansSeen(fields, st.seen);
    ok := Required.CheckRequired(words, count, Required.TrackedIndices(fields, st.seen));
  }

  /** pb_decode_noinit. */
  method DecodeNoinit(s: Stream, fields: seq<Field>, slots: seq<Slot>) returns (ok: bool, dest: seq<Slot>)
    requires s.Valid() && ValidFields(fields) && |slots| == |fields|
    modifies s
    ensures s.Valid() && s.End() <= old(s.End()) && |dest| == |fields|
    ensures ok <==> Merge(fields, slots, old(s.Rest())).Got?
    ensures ok ==> Got(dest, s.Rest()) == Merge(fields, slots, old(s.Rest())) && s.End() == old(s.End())
    decreases fields, 3
  {
    hide RunFields, Complete, ValidFields, Required.Tracks;
    var words := new nat[2] [0, 0];
    CellsValid(fields);
    var iter := new FieldIter.Iterator(Cells(fields), 0);
    Required.NothingMet();
    assert words[..] == [0, 0];
    var st;
    ok, st := FieldLoop(s, fields, slots, iter, words);
    dest := st.slots;
    if !ok { return; }
    ok := FinalChecks(fields, st, iter, words);
  }

  /** pb_message_set_to_defaults: every slot of the destination is set, whatever it held. */
  method SetToDefaults(fields: seq<Field>, dest: seq<Slot>) returns (slots: seq<Slot>)
    requires ValidFields(fields) && |dest| == |fields|
    ensures slots == Defaults(fields)
  {
    hide ValidFields, DefaultSlot;
    CellsValid(fields);
    var iter := new FieldIter.Iterator(Cells(fields), 0);
    slots := dest;
    if fields == [] { return; }
    var more := true;
    ghost var done := 0;
    while more
      invariant iter.Valid() && iter.cells == Cells(fields) && |slots| == |fields|
      invariant done == if more then iter.pos else |fields|
      invariant forall j | 0 <= j < done :: slots[j] == DefaultSlot(fields[j])
      decreases more, |fields| - iter.pos
    {
      slots := slots[iter.pos := DefaultSlot(fields[iter.pos])];
      done := done + 1;
      more := iter.Next();
    }
  }

  /** pb_decode. */
  method PbDecode(s: Stream, fields: seq<Field>, dest: seq<Slot>) returns (ok: bool, slots: seq<Slot>)
    requires s.Valid() && ValidFields(fields) && |dest| == |fields|
    modifies s
    ensures s.Valid() && s.End() <= old(s.End()) && |slots| == |fields|
    ensures ok <==> DecodeMessage(fields, old(s.Rest())).Got?
    ensures ok ==> Got(slots, s.Rest()) == DecodeMessage(fields, old(s.Rest())) && s.End() == old(s.End())
  {
    hide Merge, ValidFields, DefaultSlot;
    slots := SetToDefaults(fields, dest);
    ok, slots := DecodeNoinit(s, fields, slots);
  }

  /** pb_decode_delimited. On success the stream has moved past the length prefix and exactly the declared bytes,
      also when a zero tag ended the message early. */
  method PbDecodeDelimited(s: Stream, fields: seq<Field>, dest: seq<Slot>) returns (ok: bool, slots: seq<Slot>)
    requires s.Valid() && ValidFields(fields) && |dest| == |fields|
    modifies s
    ensures s.Valid() && s.End() <= old(s.End())
    ensures ok <==> DecodeDelimited(fields, old(s.Rest())).Got?
    ensures ok ==> Got(slots, s.Rest()) == DecodeDelimited(fields, old(s.Rest())) && s.End() == old(s.End())
  {
    hide DecodeMessage, ValidFields, TakePrefixed;
    slots := dest;
    var sub;
    ok, sub := s.MakeSubstream();
    if !ok { return; }
    var status;
    status, slots := PbDecode(sub, fields, dest);
    ok := s.CloseSubstream(sub);
    if !ok { return; }
    return status, slots;
  }
}
