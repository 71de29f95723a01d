/** When decoding two field sequences in turn is decoding their concatenation, for any descriptor. */
module Merging {
  import opened Common
  import opened Bits
  import opened Schema
  import opened Varint
  import opened Encode
  import opened Decode
  import opened Scalars
  import opened RoundTrip
  import opened Records

  /** The first fixed-count array the field loop meets. */
  function FirstFixed(fields: seq<Field>, st: State, inp: seq<byte>): (r: Option<nat>)
    requires |st.slots| == |fields|
    ensures r.Some? ==> r.value < |fields| && fields[r.value].rule.FixedCount?
    decreases |inp|
  {
    if inp == [] then None else
    var t := Decode32(inp);
    if t.Bad? || t.v == 0 then None else
    var i := Find(fields, t.v / 8);
    if i.Some? && fields[i.value].rule.FixedCount? then i else
    var s := Step(fields, st, t.v / 8, t.v % 8, t.rest);
    if s.Bad? then None else FirstFixed(fields, s.v, s.rest)
  }

  /** The input begins with the array that `st` has just completed, and that array has entries. */
  predicate Reopens(fields: seq<Field>, st: State, b: seq<byte>)
    requires |st.slots| == |fields|
  {
    var j := FirstFixed(fields, Start(st.slots), b);
    j.Some? && st.fixedField == j && fields[j.value].rule.max > 0
  }

  /** The same state with another account of the fixed-count array in progress. */
  function With(st: State, f: Option<nat>, c: nat): State { st.(fixedField := f, fixedCount := c) }

  /** The array in progress holds at least the entries counted. */
  predicate Room(fields: seq<Field>, st: State) {
    st.fixedField.Some? ==>
      && st.fixedField.value < |fields| == |st.slots|
      && fields[st.fixedField.value].rule.FixedCount?
      && st.fixedCount <= |Items(st.slots[st.fixedField.value])|
  }

  lemma FieldRoom(fields: seq<Field>, st: State, i: nat, wire: nat, inp: seq<byte>)
    requires i < |fields| == |st.slots| && Room(fields, st) && DecodeField(fields, st, i, wire, inp).Got?
    ensures Room(fields, DecodeField(fields, st, i, wire, inp).v)
  {
    hide FieldItems, FieldValue, Received;
  }

  lemma {:induction false} RunRoom(fields: seq<Field>, st: State, inp: seq<byte>)
    requires |st.slots| == |fields| && Room(fields, st) && RunFields(fields, st, inp).Ran?
    ensures Room(fields, RunFields(fields, st, inp).st)
    decreases |inp|
  {
    hide Decode32, DecodeField, Skip, Find, Room;
    if inp != [] {
      var t := Decode32(inp);
      if t.v != 0 {
        var i := Find(fields, t.v / 8);
        if i.Some? { FieldRoom(fields, st, i.value, t.v % 8, t.rest); }
        var s := Step(fields, st, t.v / 8, t.v % 8, t.rest);
        RunRoom(fields, s.v, s.rest);
      }
    }
  }

  /** Records of other fields neither read nor write the account. */
  lemma FieldOther(fields: seq<Field>, st: State, i: nat, wire: nat, inp: seq<byte>, f: Option<nat>, c: nat)
    requires i < |fields| == |st.slots| && !fields[i].rule.FixedCount?
    ensures var s := DecodeField(fields, st, i, wire, inp);
            DecodeField(fields, With(st, f, c), i, wire, inp) == if s.Bad? then Bad else Got(With(s.v, f, c), s.rest)
    ensures var s := DecodeField(fields, st, i, wire, inp);
            s.Got? ==> s.v.fixedField == st.fixedField && s.v.fixedCount == st.fixedCount
  {
    hide FieldItems, FieldValue, Activate;
    assert Received(fields, With(st, f, c), i) == Received(fields, st, i);
  }

  /** A fixed-count record that finds the same entries received does the same. */
  lemma FieldSame(fields: seq<Field>, st: State, i: nat, wire: nat, inp: seq<byte>, f: Option<nat>, c: nat)
    requires i < |fields| == |st.slots| && fields[i].rule.FixedCount?
    requires Received(fields, With(st, f, c), i) == Received(fields, st, i)
    ensures DecodeField(fields, With(st, f, c), i, wire, inp) == DecodeField(fields, st, i, wire, inp)
  {
    hide FieldItems, Received;
  }

  /** A record for an array that is full is rejected, or is an empty packed run and changes nothing. */
  lemma FullArray(fields: seq<Field>, st: State, i: nat, wire: nat, inp: seq<byte>)
    requires i < |fields| == |st.slots| && fields[i].rule.FixedCount? && fields[i].rule.max > 0
    requires Received(fields, st, i) == Some([]) && fields[i].rule.max <= |Items(st.slots[i])|
    requires var full := With(st, Some(i), fields[i].rule.max); DecodeField(fields, full, i, wire, inp).Got?
    ensures var full := With(st, Some(i), fields[i].rule.max);
            var s := DecodeField(fields, st, i, wire, inp);
            && s.Got? && s.v == With(st, Some(i), 0)
            && DecodeField(fields, full, i, wire, inp) == Got(full, s.rest)
  {
    hide DecodeValue, TakePrefixed;
    var max, items := fields[i].rule.max, Items(st.slots[i]);
    assert st.slots[i] == Many(items);
    assert items[..max] + items[max..] == items;
    assert [] + items == items;
    assert st.slots[i := Many(items)] == st.slots;
    var full := With(st, Some(i), max);
    assert Received(fields, full, i) == Some(items[..max]);
    assert FieldItems(fields[i], items[..max], wire, inp).Got?;
    assert wire == WT_STRING && Packable(fields[i].kind);
    var t := TakePrefixed(inp);
    assert t.Got? && t.v == [];
    assert FieldItems(fields[i], items[..max], wire, inp) == Got(items[..max], t.rest);
    assert FieldItems(fields[i], [], wire, inp) == Got([], t.rest);
    assert StoreItems(fields, st, i, []) == With(st, Some(i), 0);
    assert StoreItems(fields, full, i, items[..max]) == full;
  }

  /** Two states that agree except that one has the array complete and the other empty: where the latter finishes,
      the former is rejected. */
  lemma {:induction false} CannotRefill(fields: seq<Field>, st: State, i: nat, b: seq<byte>)
    requires i < |fields| == |st.slots| && fields[i].rule.FixedCount? && fields[i].rule.max > 0
    requires st.fixedField == Some(i) && st.fixedCount == 0 && fields[i].rule.max <= |Items(st.slots[i])|
    requires var r := RunFields(fields, st, b); r.Ran? && FixedDone(fields, r.st)
    ensures RunFields(fields, With(st, Some(i), fields[i].rule.max), b).Failed?
    decreases |b|
  {
    hide Decode32, DecodeField, Skip, Find;
    var full := With(st, Some(i), fields[i].rule.max);
    if b != [] {
      var t := Decode32(b);
      if t.v != 0 {
        var k := Find(fields, t.v / 8);
        var s := Step(fields, st, t.v / 8, t.v % 8, t.rest);
        if k.None? {
          CannotRefill(fields, st, i, s.rest);
        } else if !fields[k.value].rule.FixedCount? {
          FieldOther(fields, st, k.value, t.v % 8, t.rest, Some(i), fields[i].rule.max);
          KeepsLength(fields, st, k.value, t.v % 8, t.rest, i);
          CannotRefill(fields, s.v, i, s.rest);
        } else if k.value == i {
          if DecodeField(fields, full, i, t.v % 8, t.rest).Got? {
            FullArray(fields, st, i, t.v % 8, t.rest);
            CannotRefill(fields, s.v, i, s.rest);
          }
        } else {
          OtherArrayRejected(fields, st, k.value, t.v % 8, t.rest);
        }
      }
    }
  }

  lemma KeepsLength(fields: seq<Field>, st: State, k: nat, wire: nat, inp: seq<byte>, i: nat)
    requires k < |fields| == |st.slots| && i < |fields| && DecodeField(fields, st, k, wire, inp).Got?
    requires !fields[k].rule.FixedCount? && fields[i].rule.FixedCount?
    ensures DecodeField(fields, st, k, wire, inp).v.slots[i] == st.slots[i]
  {
    hide FieldItems, FieldValue, Received;
  }

  lemma OtherArrayRejected(fields: seq<Field>, st: State, k: nat, wire: nat, inp: seq<byte>)
    requires k < |fields| == |st.slots| && fields[k].rule.FixedCount?
    requires st.fixedField != Some(k) && !FixedDone(fields, st)
    ensures DecodeField(fields, st, k, wire, inp).Bad?
  {}

  /** Running `b` with a completed array behind, against running it fresh. */
  lemma {:induction false} RunAfter(fields: seq<Field>, st: State, f: Option<nat>, c: nat, b: seq<byte>)
    requires |st.slots| == |fields| && st.fixedField == None && st.fixedCount == 0
    requires FixedDone(fields, With(st, f, c)) && Room(fields, With(st, f, c)) && RunFields(fields, st, b).Ran?
    ensures var j, r, r' := FirstFixed(fields, st, b), RunFields(fields, st, b), RunFields(fields, With(st, f, c), b);
            && (j.None? ==> FixedDone(fields, r.st) && r' == Ran(With(r.st, f, c), r.rest, r.stopped))
            && (j.Some? && !(f == j && fields[j.value].rule.max > 0) ==> r' == r)
            && (j.Some? && f == j && fields[j.value].rule.max > 0 && FixedDone(fields, r.st) ==> r'.Failed?)
    decreases |b|
  {
    hide Decode32, DecodeField, Skip, Find;
    if b != [] {
      var t := Decode32(b);
      if t.v != 0 {
        var k := Find(fields, t.v / 8);
        var s := Step(fields, st, t.v / 8, t.v % 8, t.rest);
        if k.None? {
          RunAfter(fields, st, f, c, s.rest);
        } else if fields[k.value].rule.FixedCount? {
          ArrayAfter(fields, st, f, c, k.value, t.v % 8, t.rest);
        } else {
          FieldOther(fields, st, k.value, t.v % 8, t.rest, f, c);
          if f.Some? { KeepsLength(fields, st, k.value, t.v % 8, t.rest, f.value); }
          RunAfter(fields, s.v, f, c, s.rest);
        }
      }
    }
  }

  /** The first fixed-count record after a completed array. */
  lemma ArrayAfter(fields: seq<Field>, st: State, f: Option<nat>, c: nat, k: nat, wire: nat, inp: seq<byte>)
    requires k < |st.slots| == |fields| && fields[k].rule.FixedCount? && st.fixedField == None && st.fixedCount == 0
    requires FixedDone(fields, With(st, f, c)) && Room(fields, With(st, f, c)) &&
             DecodeField(fields, st, k, wire, inp).Got?
    ensures var s, s' := DecodeField(fields, st, k, wire, inp), DecodeField(fields, With(st, f, c), k, wire, inp);
            if f == Some(k) && fields[k].rule.max > 0 then
              s'.Got? ==> (var r := RunFields(fields, s.v, s.rest);
                           r.Ran? && FixedDone(fields, r.st) ==> RunFields(fields, s'.v, s'.rest).Failed?)
            else s' == s
  {
    hide RunFields, DecodeField;
    if f == Some(k) && fields[k].rule.max > 0 {
      if DecodeField(fields, With(st, f, c), k, wire, inp).Got? {
        FullArray(fields, st, k, wire, inp);
        var s := DecodeField(fields, st, k, wire, inp);
        var r := RunFields(fields, s.v, s.rest);
        if r.Ran? && FixedDone(fields, r.st) { CannotRefill(fields, s.v, k, s.rest); }
      }
    } else {
      FieldSame(fields, st, k, wire, inp, f, c);
    }
  }

  /** Two field sequences that decode in turn onto a message decode as one, with the same result, exactly when the
      second does not begin its fixed-count arrays with the one the first ended on. */
  lemma MergesIff(fields: seq<Field>, slots: seq<Slot>, a: seq<byte>, b: seq<byte>)
    requires |slots| == |fields|
    requires Merge(fields, slots, a).Got? && !RunFields(fields, Start(slots), a).stopped
    requires Merge(fields, Merge(fields, slots, a).v, b).Got?
    ensures Merge(fields, slots, a + b) ==
            if Reopens(fields, RunFields(fields, Start(slots), a).st, b) then Bad
            else Merge(fields, Merge(fields, slots, a).v, b)
  {
    hide RunFields, FirstFixed, Room;
    var m := RunFields(fields, Start(slots), a).st;
    RunSplit(fields, Start(slots), a, b);
    assert Room(fields, Start(slots)) by { StartRoom(fields, slots); }
    RunRoom(fields, Start(slots), a);
    var anew := Start(m.slots);
    var behind := With(anew, m.fixedField, m.fixedCount);
    assert m == Recall(behind, m.seen) by { assert {} + m.seen == m.seen; }
    assert Room(fields, behind) by { SameRoom(fields, m, behind); }
    RunRecall(fields, behind, b, m.seen);
    RunAfter(fields, anew, m.fixedField, m.fixedCount, b);
  }

  predicate NoFixedCount(fields: seq<Field>) {
    forall i | 0 <= i < |fields| :: !fields[i].rule.FixedCount?
  }

  /** Without fixed-count arrays, concatenation is merge. The first sequence must run to its end instead of stopping
      at a zero tag. */
  lemma ConcatenationIsMerge(fields: seq<Field>, slots: seq<Slot>, a: seq<byte>, b: seq<byte>)
    requires NoFixedCount(fields) && |slots| == |fields|
    requires Merge(fields, slots, a).Got? && !RunFields(fields, Start(slots), a).stopped
    requires Merge(fields, Merge(fields, slots, a).v, b).Got?
    ensures Merge(fields, slots, a + b) == Merge(fields, Merge(fields, slots, a).v, b)
  {
    hide Merge, RunFields, FirstFixed;
    MergesIff(fields, slots, a, b);
  }

  /** A first sequence that stops at a zero tag hides the second one altogether. */
  lemma ZeroTagHides(fields: seq<Field>, slots: seq<Slot>, a: seq<byte>, b: seq<byte>)
    requires |slots| == |fields| && Merge(fields, slots, a).Got? && RunFields(fields, Start(slots), a).stopped
    ensures Merge(fields, slots, a + b) == Got(Merge(fields, slots, a).v, Merge(fields, slots, a).rest + b)
  {
    hide RunFields;
    RunStopped(fields, Start(slots), a, b);
  }

  lemma StartRoom(fields: seq<Field>, slots: seq<Slot>)
    ensures Room(fields, Start(slots))
  {}

  lemma SameRoom(fields: seq<Field>, s: State, s': State)
    requires Room(fields, s) && s'.slots == s.slots && s'.fixedField == s.fixedField && s'.fixedCount == s.fixedCount
    ensures Room(fields, s')
  {}

  // ---------------------------------------------------------------- one field met twice

  /** Two states that differ at most in field `i`, in the members of its oneof, and in whether `i` was met. */
  ghost predicate Alike(fields: seq<Field>, i: nat, st: State, st': State)
    requires i < |fields|
  {
    && |st.slots| == |st'.slots| == |fields|
    && st.fixedField == st'.fixedField && st.fixedCount == st'.fixedCount
    && (forall j | 0 <= j < |fields| && j != i && !SameOneof(fields[i], fields[j]) :: st.slots[j] == st'.slots[j])
    && forall j: nat | j != i || !fields[i].rule.Required? :: j in st.seen <==> j in st'.seen
  }

  /** Fields that a record overwrites whatever they held. */
  predicate Overwritten(f: Field) {
    !f.rule.Repeated? && !f.rule.FixedCount? && (f.kind.Submessage? ==> f.rule.Oneof?)
  }

  lemma FieldAlike(fields: seq<Field>, i: nat, st: State, st': State, k: nat, wire: nat, inp: seq<byte>)
    requires i < |fields| && k < |fields| && Overwritten(fields[i]) && Alike(fields, i, st, st')
    ensures var s, s' := DecodeField(fields, st, k, wire, inp), DecodeField(fields, st', k, wire, inp);
            s.Got? == s'.Got? && (s.Got? ==> s.rest == s'.rest && Alike(fields, i, s.v, s'.v))
  {
    hide FieldValue, FieldItems;
    var f := fields[k];
    if f.rule.Repeated? || f.rule.FixedCount? {
      assert Received(fields, st, k) == Received(fields, st', k);
    } else {
      if k == i || SameOneof(fields[i], f) {
        SlotIgnored(f, st.slots[k], st'.slots[k], inp);
      }
      var v := FieldValue(f, st.slots[k], inp);
      if v.Got? { StoreAlike(fields, i, st, st', k, v.v); }
    }
  }

  lemma StoreAlike(fields: seq<Field>, i: nat, st: State, st': State, k: nat, v: Value)
    requires i < |fields| && k < |fields| && Alike(fields, i, st, st')
    requires !fields[k].rule.Repeated? && !fields[k].rule.FixedCount?
    ensures Alike(fields, i, StoreValue(fields, st, k, v), StoreValue(fields, st', k, v))
  {}

  lemma {:induction false} RunAlike(fields: seq<Field>, i: nat, st: State, st': State, inp: seq<byte>)
    requires i < |fields| && Overwritten(fields[i]) && Alike(fields, i, st, st')
    ensures |st.slots| == |st'.slots| == |fields|
    ensures var r, r' := RunFields(fields, st, inp), RunFields(fields, st', inp);
            r.Ran? == r'.Ran? && (r.Ran? ==>
                  r.rest == r'.rest && r.stopped == r'.stopped && Alike(fields, i, r.st, r'.st))
    decreases |inp|
  {
    hide Decode32, DecodeField, Skip, Find, Overwritten;
    if inp != [] {
      var t := Decode32(inp);
      if t.Got? && t.v != 0 {
        var k := Find(fields, t.v / 8);
        if k.Some? { FieldAlike(fields, i, st, st', k.value, t.v % 8, t.rest); }
        var s := Step(fields, st, t.v / 8, t.v % 8, t.rest);
        if s.Got? { RunAlike(fields, i, s.v, Step(fields, st', t.v / 8, t.v % 8, t.rest).v, s.rest); }
      }
    }
  }

  /** A record of field `i` makes alike states equal. */
  lemma RecordEqualises(fields: seq<Field>, i: nat, st: State, st': State, v: Value)
    requires i < |fields| && Overwritten(fields[i]) && Alike(fields, i, st, st')
    ensures StoreValue(fields, st, i, v) == StoreValue(fields, st', i, v)
  {
    var s, s' := StoreValue(fields, st, i, v), StoreValue(fields, st', i, v);
    assert s.slots == s'.slots;
    assert s.seen == s'.seen;
  }

  lemma StoredAlike(fields: seq<Field>, st: State, i: nat, v: Value)
    requires i < |fields| == |st.slots| && Overwritten(fields[i])
    ensures Alike(fields, i, st, StoreValue(fields, st, i, v))
  {}

  /** The last record of a scalar field or of a oneof member wins: an earlier one leaves no trace, whatever records,
      of this field or of others, come in between. */
  lemma LastOneWins(fields: seq<Field>, st: State, i: nat, w1: nat, p1: seq<byte>, mid: seq<byte>, w2: nat,
                    p2: seq<byte>)
    requires ValidFields(fields) && i < |fields| == |st.slots| && w1 < 8 && w2 < 8 && Overwritten(fields[i])
    requires FieldValue(fields[i], st.slots[i], p1).Got? && FieldValue(fields[i], st.slots[i], p1).rest == []
    requires var r := RunFields(fields, st, mid); r.Ran? && !r.stopped
    ensures var u1, u2 := Tag(fields[i].tag, w1) + p1, Tag(fields[i].tag, w2) + p2;
            RunFields(fields, st, u1 + mid + u2) == RunFields(fields, st, mid + u2)
  {
    hide RunFields, DecodeValue, Tag, ValidFields, StoreValue, Alike;
    var f, u2 := fields[i], Tag(fields[i].tag, w2) + p2;
    var v := FieldValue(f, st.slots[i], p1).v;
    var tail := mid + u2;
    assert (Tag(f.tag, w1) + p1) + mid + u2 == Tag(f.tag, w1) + (p1 + tail);
    TagStep(fields, st, i, w1, p1 + tail);
    ValueExtend(f.kind, if f.rule.Oneof? then Zero(f.kind) else OldValue(f, st.slots[i]), p1, tail);
    assert [] + tail == tail;
    var st1 := StoreValue(fields, st, i, v);
    StoredAlike(fields, st, i, v);
    RunAlike(fields, i, st, st1, mid);
    RunSplit(fields, st, mid, u2);
    RunSplit(fields, st1, mid, u2);
    var m, m' := RunFields(fields, st, mid).st, RunFields(fields, st1, mid).st;
    TagStep(fields, m, i, w2, p2);
    TagStep(fields, m', i, w2, p2);
    SlotIgnored(f, m.slots[i], m'.slots[i], p2);
    var r := FieldValue(f, m.slots[i], p2);
    if r.Got? { RecordEqualises(fields, i, m, m', r.v); }
  }

  lemma SlotIgnored(f: Field, s: Slot, s': Slot, inp: seq<byte>)
    requires f.kind.Submessage? ==> f.rule.Oneof?
    ensures FieldValue(f, s, inp) == FieldValue(f, s', inp)
  {}

  /** Two records of a required, optional or singular submessage, one onto the other, are one record of the two bodies
      together, whenever those merge. */
  lemma SubmessageMerges(f: Field, s: Slot, a: seq<byte>, b: seq<byte>, rest: seq<byte>)
    requires f.kind.Submessage? && !f.rule.Oneof? && (s.One? || s.Opt?)
    requires s.v.Msg? && |s.v.slots| == |f.kind.fields| && |a| + |b| < TWO32
    requires var fields := f.kind.fields;
             var first := Merge(fields, s.v.slots, a);
             && first.Got? && Merge(fields, first.v, b).Got?
             && !RunFields(fields, Start(s.v.slots), a).stopped
             && !Reopens(fields, RunFields(fields, Start(s.v.slots), a).st, b)
    ensures var one := FieldValue(f, s, Prefixed(a));
            && one.Got?
            && (forall has :: FieldValue(f, Opt(has, one.v), Prefixed(b) + rest) ==
                  FieldValue(f, s, Prefixed(a + b) + rest))
            && FieldValue(f, One(one.v), Prefixed(b) + rest) == FieldValue(f, s, Prefixed(a + b) + rest)
            && FieldValue(f, s, Prefixed(a + b) + rest).Got?
  {
    hide RunFields, Merge, TakePrefixed, Prefixed, Reopens;
    TakePrefixedRoundTrip(a, []);
    assert Prefixed(a) + [] == Prefixed(a);
    TakePrefixedRoundTrip(b, rest);
    TakePrefixedRoundTrip(a + b, rest);
    MergesIff(f.kind.fields, s.v.slots, a, b);
  }
}
