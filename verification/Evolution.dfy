/** Writer and reader with different versions of a descriptor: each has some of the fields of a common one, and the
    writer sends its fields in any order. */
module Evolution {
  import opened Common
  import opened Bits
  import opened Schema
  import opened Varint
  import opened Encode
  import opened Decode
  import opened Scalars
  import opened RoundTrip
  import opened Delivery
  import opened Records

  // ---------------------------------------------------------------- every record written is skipped by its wire type

  /** The record of any value is one of the four kinds a reader can skip. */
  lemma RecordIsExtra(tag: nat, k: Kind, v: Value) returns (x: Extra)
    requires ValidKind(k) && TypedValue(k, v) && ValueBytes(k, v).Some? && |ValueBytes(k, v).value| < TWO32
    ensures ValidExtra(x) && RecordBytes(tag, k, v) == Some(ExtraRecord(tag, x))
  {
    hide Tag, Varint.Encoded, FieldsBytes, ValidFields, Typed, LittleEndian, CStringLength;
    match k
    case Bool => x := ExtraVarint(if v.b then 1 else 0);
    case VarInt(_) => x := ExtraVarint(v.n % TWO64);
    case UVarInt(_) => x := ExtraVarint(v.n);
    case SVarInt(_) => x := ExtraVarint(ZigZag(v.n));
    case Fixed32 => x := Extra32(LittleEndian(v.n, 4));
    case Fixed64 => x := Extra64(LittleEndian(v.n, 8));
    case Bytes(_) => x := ExtraBytes(v.bs);
    case String(n) => x := ExtraBytes(v.bs[..CStringLength(v.bs, n)]);
    case FixedBytes(_) => x := ExtraBytes(v.bs);
    case Submessage(fields, _) => x := ExtraBytes(FieldsBytes(fields, v.slots, 0).value);
  }

  lemma RecordSkipped(fields: seq<Field>, st: State, tag: nat, k: Kind, v: Value, rest: seq<byte>)
    requires |st.slots| == |fields| && 0 < tag < 0x2000_0000 && Find(fields, tag).None?
    requires ValidKind(k) && TypedValue(k, v)
    requires RecordBytes(tag, k, v).Some? && |RecordBytes(tag, k, v).value| < TWO32
    ensures RunFields(fields, st, RecordBytes(tag, k, v).value + rest) == RunFields(fields, st, rest)
  {
    hide RunFields, UnknownRecord, ValueBytes, TypedValue, ValidKind, ExtraRecord, Find;
    var x := RecordIsExtra(tag, k, v);
    ExtraIsUnknown(fields, tag, x);
    UnknownSkipped(fields, st, ExtraRecord(tag, x), rest);
  }

  lemma {:induction false} RecordsSkipped(fields: seq<Field>, st: State, tag: nat, k: Kind, items: seq<Value>,
                                          rest: seq<byte>)
    requires |st.slots| == |fields| && 0 < tag < 0x2000_0000 && Find(fields, tag).None?
    requires ValidKind(k) && forall i | 0 <= i < |items| :: TypedValue(k, items[i])
    requires RecordsBytes(tag, k, items).Some? && |RecordsBytes(tag, k, items).value| < TWO32
    ensures RunFields(fields, st, RecordsBytes(tag, k, items).value + rest) == RunFields(fields, st, rest)
    decreases |items|
  {
    hide RunFields, RecordBytes, TypedValue, ValidKind, Find;
    if items == [] {
      assert [] + rest == rest;
    } else {
      var one, more := RecordBytes(tag, k, items[0]).value, RecordsBytes(tag, k, items[1..]).value;
      assert RecordsBytes(tag, k, items).value + rest == one + (more + rest);
      RecordSkipped(fields, st, tag, k, items[0], more + rest);
      RecordsSkipped(fields, st, tag, k, items[1..], rest);
    }
  }

  /** All that the encoder writes for a field is skipped by a reader without that field. */
  lemma FieldSkipped(fields: seq<Field>, st: State, f: Field, s: Slot, rest: seq<byte>)
    requires |st.slots| == |fields| && ValidField(f) && TypedSlot(f, s) && Find(fields, f.tag).None?
    requires FieldBytes(f, s).Some? && |FieldBytes(f, s).value| < TWO32
    ensures RunFields(fields, st, FieldBytes(f, s).value + rest) == RunFields(fields, st, rest)
  {
    hide RunFields, RecordBytes, RecordsBytes, ItemsBytes, TypedValue, ValidKind, IsZeroValue, ScalarFits, Find,
         UnknownRecord, Zero, Tag, Prefixed;
    assert [] + rest == rest;
    if f.rule.Repeated? || f.rule.FixedCount? {
      if s.items != [] && Packable(f.kind) {
        var body := ItemsBytes(f.kind, s.items).value;
        PrefixedNonEmpty(body);
        assert ExtraRecord(f.tag, ExtraBytes(body)) == FieldBytes(f, s).value;
        ExtraIsUnknown(fields, f.tag, ExtraBytes(body));
        UnknownSkipped(fields, st, ExtraRecord(f.tag, ExtraBytes(body)), rest);
      } else if s.items != [] {
        RecordsSkipped(fields, st, f.tag, f.kind, s.items, rest);
      }
    } else if FieldBytes(f, s) != Some([]) {
      RecordSkipped(fields, st, f.tag, f.kind, s.v, rest);
    }
  }

  // ---------------------------------------------------------------- the fields of one version

  /** What is left of a sequence when some positions are dropped. */
  function Kept<T>(xs: seq<T>, keep: seq<bool>): seq<T>
    requires |keep| == |xs|
  {
    if xs == [] then []
    else Kept(xs[..|xs| - 1], keep[..|xs| - 1]) + if keep[|xs| - 1] then [xs[|xs| - 1]] else []
  }

  /** The position, after dropping, of what was at `p`. */
  function Rank(keep: seq<bool>, p: nat): nat
    requires p <= |keep|
  {
    if p == 0 then 0 else Rank(keep, p - 1) + if keep[p - 1] then 1 else 0
  }

  lemma {:induction false} RankPrefix(keep: seq<bool>, n: nat, p: nat)
    requires p <= n <= |keep|
    ensures Rank(keep[..n], p) == Rank(keep, p)
    decreases p
  {
    if p > 0 { RankPrefix(keep, n, p - 1); }
  }

  lemma {:induction false} RankMonotone(keep: seq<bool>, p: nat, q: nat)
    requires p <= q <= |keep|
    ensures Rank(keep, p) <= Rank(keep, q)
    ensures p < q && keep[p] ==> Rank(keep, p) < Rank(keep, q)
    decreases q
  {
    if p < q { RankMonotone(keep, p, q - 1); }
  }

  lemma {:induction false} KeptLength<T>(xs: seq<T>, keep: seq<bool>)
    requires |keep| == |xs|
    ensures |Kept(xs, keep)| == Rank(keep, |keep|)
    decreases |xs|
  {
    if xs != [] {
      var n := |xs| - 1;
      KeptLength(xs[..n], keep[..n]);
      RankPrefix(keep, n, n);
    }
  }

  lemma {:induction false} KeptAt<T>(xs: seq<T>, keep: seq<bool>, p: nat)
    requires |keep| == |xs| && p < |xs| && keep[p]
    ensures Rank(keep, p) < |Kept(xs, keep)| && Kept(xs, keep)[Rank(keep, p)] == xs[p]
    decreases |xs|
  {
    var n := |xs| - 1;
    KeptLength(xs[..n], keep[..n]);
    RankPrefix(keep, n, n);
    if p < n {
      KeptAt(xs[..n], keep[..n], p);
      RankPrefix(keep, n, p);
    }
  }

  /** Every position after dropping was some position before. */
  lemma {:induction false} KeptFrom(keep: seq<bool>, n: nat, i: nat) returns (p: nat)
    requires n <= |keep| && i < Rank(keep, n)
    ensures p < n && keep[p] && Rank(keep, p) == i
    decreases n
  {
    if i < Rank(keep, n - 1) { p := KeptFrom(keep, n - 1, i); } else { p := n - 1; }
  }

  lemma RankInjective(keep: seq<bool>, p: nat, q: nat)
    requires p < |keep| && q < |keep| && keep[p] && keep[q] && Rank(keep, p) == Rank(keep, q)
    ensures p == q
  {
    if p < q { RankMonotone(keep, p, q); }
    if q < p { RankMonotone(keep, q, p); }
  }

  lemma RankOrder(keep: seq<bool>, p: nat, q: nat)
    requires p < |keep| && q < |keep| && Rank(keep, p) < Rank(keep, q)
    ensures p < q
  {
    if q <= p { RankMonotone(keep, q, p); }
  }

  /** Position `i` of a version, in the common descriptor. */
  lemma Origin(fields: seq<Field>, slots: seq<Slot>, keep: seq<bool>, i: nat) returns (p: nat)
    requires |keep| == |fields| == |slots| && i < |Kept(fields, keep)|
    ensures |Kept(slots, keep)| == |Kept(fields, keep)|
    ensures p < |fields| && keep[p] && Rank(keep, p) == i
    ensures Kept(fields, keep)[i] == fields[p] && Kept(slots, keep)[i] == slots[p]
  {
    hide Kept, Rank;
    KeptLength(fields, keep);
    KeptLength(slots, keep);
    p := KeptFrom(keep, |keep|, i);
    KeptAt(fields, keep, p);
    KeptAt(slots, keep, p);
  }

  /** A version of a valid descriptor is valid, and its part of a message is one of its messages. */
  lemma KeptValid(fields: seq<Field>, slots: seq<Slot>, keep: seq<bool>)
    requires |keep| == |fields| == |slots| && ValidFields(fields) && Typed(fields, slots)
    ensures ValidFields(Kept(fields, keep)) && Typed(Kept(fields, keep), Kept(slots, keep))
  {
    hide ValidField, TypedSlot, Kept, Rank;
    KeptLength(fields, keep);
    KeptLength(slots, keep);
    var fs, ss := Kept(fields, keep), Kept(slots, keep);
    forall i | 0 <= i < |fs| ensures ValidField(fs[i]) && TypedSlot(fs[i], ss[i]) {
      var p := Origin(fields, slots, keep, i);
    }
    forall i, j | 0 <= i < j < |fs|
      ensures fs[i].tag != fs[j].tag && (SameOneof(fs[i], fs[j]) ==> ss[i].Off? || ss[j].Off?)
    {
      var p := Origin(fields, slots, keep, i);
      var q := Origin(fields, slots, keep, j);
      RankOrder(keep, p, q);
    }
  }

  lemma DroppedUnknown(fields: seq<Field>, keep: seq<bool>, p: nat)
    requires |keep| == |fields| && p < |fields| && UniqueTags(fields) && !keep[p]
    ensures Find(Kept(fields, keep), fields[p].tag).None?
  {
    hide Kept, Rank;
    var r := Find(Kept(fields, keep), fields[p].tag);
    if r.Some? {
      KeptLength(fields, keep);
      var q := KeptFrom(keep, |keep|, r.value);
      KeptAt(fields, keep, q);
    }
  }

  // ---------------------------------------------------------------- fields sent in any order

  predicate Positions(order: seq<nat>, n: nat) {
    Distinct(order) && forall k | 0 <= k < |order| :: order[k] < n
  }

  /** The fields at the given positions, one after the other. */
  function OrderBytes(fields: seq<Field>, slots: seq<Slot>, order: seq<nat>): Output
    requires |slots| == |fields| && forall k | 0 <= k < |order| :: order[k] < |fields|
  {
    if order == [] then Some([])
    else Cat(FieldBytes(fields[order[0]], slots[order[0]]), OrderBytes(fields, slots, order[1..]))
  }

  /** The reader's positions of the fields in `sent`. */
  ghost function Ranks(keep: seq<bool>, sent: set<nat>): set<nat> {
    set p | p in sent && p < |keep| && keep[p] :: Rank(keep, p)
  }

  lemma RanksAdd(keep: seq<bool>, sent: set<nat>, p: nat)
    requires p < |keep| && p !in sent
    ensures Ranks(keep, sent + {p}) == if keep[p] then Ranks(keep, sent) + {Rank(keep, p)} else Ranks(keep, sent)
    ensures keep[p] ==> Rank(keep, p) !in Ranks(keep, sent)
  {
    hide Rank;
    if keep[p] && Rank(keep, p) in Ranks(keep, sent) {
      var q :| q in sent && q < |keep| && keep[q] && Rank(keep, q) == Rank(keep, p);
      RankInjective(keep, p, q);
    }
  }

  /** Every string the reader keeps leaves room for its terminator. */
  predicate Holds(fields: seq<Field>, slots: seq<Slot>, keep: seq<bool>, order: seq<nat>)
    requires |keep| == |fields| == |slots| && forall k | 0 <= k < |order| :: order[k] < |fields|
  {
    forall k | 0 <= k < |order| && keep[order[k]] :: SendableSlot(fields[order[k]], slots[order[k]])
  }

  lemma HoldsTail(fields: seq<Field>, slots: seq<Slot>, keep: seq<bool>, order: seq<nat>)
    requires |keep| == |fields| == |slots| && order != [] && Positions(order, |fields|)
    ensures Positions(order[1..], |fields|)
    ensures Holds(fields, slots, keep, order) <==>
            (keep[order[0]] ==> SendableSlot(fields[order[0]], slots[order[0]])) &&
                Holds(fields, slots, keep, order[1..])
  {
    hide SendableSlot;
    if Holds(fields, slots, keep, order) {
      forall k | 0 <= k < |order[1..]| && keep[order[1..][k]]
        ensures SendableSlot(fields[order[1..][k]], slots[order[1..][k]])
      {
        assert order[1..][k] == order[k + 1];
      }
    }
    if (keep[order[0]] ==> SendableSlot(fields[order[0]], slots[order[0]])) && Holds(fields, slots, keep, order[1..]) {
      forall k | 0 <= k < |order| && keep[order[k]] ensures SendableSlot(fields[order[k]], slots[order[k]]) {
        if k > 0 { assert order[k] == order[1..][k - 1]; }
      }
    }
  }

  function Elements(order: seq<nat>): set<nat> { set k | 0 <= k < |order| :: order[k] }

  lemma ElementsTail(order: seq<nat>, sent: set<nat>)
    requires order != []
    ensures sent + {order[0]} + Elements(order[1..]) == sent + Elements(order)
  {
    assert order == [order[0]] + order[1..];
    assert forall k | 0 < k < |order| :: order[k] == order[1..][k - 1];
    forall x | x in Elements(order) ensures x == order[0] || x in Elements(order[1..]) {
      var k :| 0 <= k < |order| && order[k] == x;
      if k > 0 { assert order[1..][k - 1] == x; }
    }
    forall x | x in Elements(order[1..]) ensures x in Elements(order) {
      var k :| 0 <= k < |order[1..]| && order[1..][k] == x;
      assert order[k + 1] == x;
    }
  }

  /** One field of the writer, as the reader takes it. */
  lemma OneField(fields: seq<Field>, slots: seq<Slot>, keep: seq<bool>, sent: set<nat>, p: nat, st: State,
                 rest: seq<byte>)
    returns (st': State)
    requires |keep| == |fields| == |slots| && p < |fields| && p !in sent && ValidFields(fields) && Typed(fields, slots)
    requires ValidFields(Kept(fields, keep)) && Typed(Kept(fields, keep), Kept(slots, keep))
    requires Arrived(Kept(fields, keep), Kept(slots, keep), Ranks(keep, sent), st)
    requires FieldBytes(fields[p], slots[p]).Some? && |FieldBytes(fields[p], slots[p]).value| < TWO32
    ensures |st.slots| == |Kept(fields, keep)|
    ensures keep[p] && !SendableSlot(fields[p], slots[p]) ==>
              RunFields(Kept(fields, keep), st, FieldBytes(fields[p], slots[p]).value + rest) == Failed
    ensures !(keep[p] && !SendableSlot(fields[p], slots[p])) ==>
              && Arrived(Kept(fields, keep), Kept(slots, keep), Ranks(keep, sent + {p}), st')
              && |st'.slots| == |Kept(fields, keep)|
              && RunFields(Kept(fields, keep), st, FieldBytes(fields[p], slots[p]).value + rest)
                 == RunFields(Kept(fields, keep), st', rest)
  {
    hide ValidFields, ValidField, Arrived, FieldBytes, Kept, Rank, Ranks, RunFields, SendableSlot, TypedSlot;
    var fs, ss := Kept(fields, keep), Kept(slots, keep);
    ArrivedShape(fs, ss, Ranks(keep, sent), st);
    RanksAdd(keep, sent, p);
    st' := st;
    if keep[p] {
      KeptAt(fields, keep, p);
      KeptAt(slots, keep, p);
      if SendableSlot(fields[p], slots[p]) {
        st' := FieldArrives(fs, ss, Ranks(keep, sent), Rank(keep, p), st, rest);
        ArrivedShape(fs, ss, Ranks(keep, sent + {p}), st');
      } else {
        FieldRejected(fs, ss, Ranks(keep, sent), Rank(keep, p), st, rest);
      }
    } else {
      assert UniqueTags(fields) && ValidField(fields[p]) by { FieldIsValid(fields, p); Tags(fields); }
      DroppedUnknown(fields, keep, p);
      FieldSkipped(fs, st, fields[p], slots[p], rest);
    }
  }

  lemma Tags(fields: seq<Field>)
    requires ValidFields(fields)
    ensures UniqueTags(fields)
  {}

  /** The reader takes the writer's fields in the order they come: it fails at the first it keeps and cannot hold. */
  lemma {:induction false} InOrder(fields: seq<Field>, slots: seq<Slot>, keep: seq<bool>, order: seq<nat>,
                                   sent: set<nat>, st: State)
    returns (st': State)
    requires |keep| == |fields| == |slots| && ValidFields(fields) && Typed(fields, slots)
    requires Positions(order, |fields|) && forall k | 0 <= k < |order| :: order[k] !in sent
    requires ValidFields(Kept(fields, keep)) && Typed(Kept(fields, keep), Kept(slots, keep))
    requires Arrived(Kept(fields, keep), Kept(slots, keep), Ranks(keep, sent), st)
    requires OrderBytes(fields, slots, order).Some? && |OrderBytes(fields, slots, order).value| < TWO32
    ensures |st.slots| == |Kept(fields, keep)|
    ensures !Holds(fields, slots, keep, order) ==>
              RunFields(Kept(fields, keep), st, OrderBytes(fields, slots, order).value) == Failed
    ensures Holds(fields, slots, keep, order) ==>
              && RunFields(Kept(fields, keep), st, OrderBytes(fields, slots, order).value) == Ran(st', [], false)
              && Arrived(Kept(fields, keep), Kept(slots, keep), Ranks(keep, sent + Elements(order)), st')
    decreases |order|
  {
    hide ValidFields, Arrived, FieldBytes, Kept, Ranks, Typed, SendableSlot, Holds, Elements;
    ArrivedShape(Kept(fields, keep), Kept(slots, keep), Ranks(keep, sent), st);
    st' := st;
    if order == [] {
      NothingSentYet(fields, slots, keep, sent);
    } else {
      var p := order[0];
      var rest := OrderBytes(fields, slots, order[1..]).value;
      HoldsTail(fields, slots, keep, order);
      ElementsTail(order, sent);
      var next := OneField(fields, slots, keep, sent, p, st, rest);
      if !(keep[p] && !SendableSlot(fields[p], slots[p])) {
        forall k | 0 <= k < |order[1..]| ensures order[1..][k] !in sent + {p} { assert order[1..][k] == order[k + 1]; }
        st' := InOrder(fields, slots, keep, order[1..], sent + {p}, next);
      }
    }
  }

  lemma NothingSentYet(fields: seq<Field>, slots: seq<Slot>, keep: seq<bool>, sent: set<nat>)
    requires |keep| == |fields| == |slots|
    ensures Holds(fields, slots, keep, []) && sent + Elements([]) == sent
  {}

  // ---------------------------------------------------------------- the theorem

  /** The message as it arrives when only the fields at the given positions were sent. */
  function Arrivals(fields: seq<Field>, slots: seq<Slot>, order: seq<nat>): (r: seq<Slot>)
    requires |slots| == |fields|
    ensures |r| == |fields|
  {
    seq(|fields|, p requires 0 <= p < |fields| =>
      if p in order then NormalSlot(fields[p], slots[p]) else DefaultSlot(fields[p]))
  }

  /** The field at the reader's position `i` was sent. */
  predicate WasSent(keep: seq<bool>, order: seq<nat>, i: nat) {
    exists p :: 0 <= p < |keep| && keep[p] && Rank(keep, p) == i && p in order
  }

  /** Each of the reader's tracked required fields was sent. */
  predicate NothingMissing(fields: seq<Field>, keep: seq<bool>, order: seq<nat>)
    requires |keep| == |fields|
  {
    forall i | 0 <= i < |Kept(fields, keep)| && Kept(fields, keep)[i].rule.Required?
               && RequiredBefore(Kept(fields, keep), i) < MAX_REQUIRED ::
      WasSent(keep, order, i)
  }

  lemma CompleteIffSent(fields: seq<Field>, slots: seq<Slot>, keep: seq<bool>, order: seq<nat>, st: State)
    requires |keep| == |fields| == |slots| && Positions(order, |fields|)
    requires Arrived(Kept(fields, keep), Kept(slots, keep), Ranks(keep, Elements(order)), st)
    ensures Complete(Kept(fields, keep), st) <==> NothingMissing(fields, keep, order)
    ensures st.slots == Kept(Arrivals(fields, slots, order), keep)
  {
    hide Kept, Rank, FixedDone, RequiredBefore, NormalSlot, DefaultSlot;
    var fs, arrivals := Kept(fields, keep), Arrivals(fields, slots, order);
    KeptLength(fields, keep);
    KeptLength(slots, keep);
    KeptLength(arrivals, keep);
    forall i: nat | i < |fs|
      ensures i in Ranks(keep, Elements(order)) <==> WasSent(keep, order, i)
      ensures st.slots[i] == Kept(arrivals, keep)[i]
    {
      var p := Origin(fields, slots, keep, i);
      KeptAt(arrivals, keep, p);
      if i in Ranks(keep, Elements(order)) {
        var q :| q in Elements(order) && q < |keep| && keep[q] && Rank(keep, q) == i;
        RankInjective(keep, p, q);
      }
    }
  }

  /** Fields sent in any order and read with another version of the descriptor. The decoding succeeds exactly when each
      string that the reader keeps leaves room for its terminator and none of its tracked required fields is missing;
      then the fields the reader has arrive, those that were not sent are at their defaults, and the fields it does
      not have are gone. */
  lemma ReadByAnother(fields: seq<Field>, slots: seq<Slot>, keep: seq<bool>, order: seq<nat>)
    requires |keep| == |fields| == |slots| && ValidFields(fields) && Typed(fields, slots) && Positions(order, |fields|)
    requires OrderBytes(fields, slots, order).Some? && |OrderBytes(fields, slots, order).value| < TWO32
    ensures DecodeMessage(Kept(fields, keep), OrderBytes(fields, slots, order).value) ==
            if Holds(fields, slots, keep, order) && NothingMissing(fields, keep, order)
            then Got(Kept(Arrivals(fields, slots, order), keep), []) else Bad
  {
    hide RunFields, ValidFields, Typed, Kept, Holds, NothingMissing, Complete, OrderBytes, Arrived, Elements, Arrivals,
         Ranks;
    KeptValid(fields, slots, keep);
    KeptLength(fields, keep);
    KeptLength(slots, keep);
    var fs, ss := Kept(fields, keep), Kept(slots, keep);
    assert Arrived(fs, ss, Ranks(keep, {}), Start(Defaults(fs))) by { NoneArrived(fs, ss, keep); }
    var st := InOrder(fields, slots, keep, order, {}, Start(Defaults(fs)));
    assert {} + Elements(order) == Elements(order);
    if Holds(fields, slots, keep, order) { CompleteIffSent(fields, slots, keep, order, st); }
  }

  lemma NoneArrived(fields: seq<Field>, slots: seq<Slot>, keep: seq<bool>)
    requires |slots| == |fields|
    ensures Arrived(fields, slots, Ranks(keep, {}), Start(Defaults(fields)))
  {
    hide NormalSlot, DefaultSlot;
    assert Ranks(keep, {}) == {};
  }

  lemma {:induction false} OrderEncodes(fields: seq<Field>, slots: seq<Slot>, order: seq<nat>)
    requires ValidFields(fields) && Typed(fields, slots) && forall k | 0 <= k < |order| :: order[k] < |fields|
    ensures OrderBytes(fields, slots, order).Some?
    decreases |order|
  {
    hide FieldBytes, ValidField, TypedSlot;
    if order != [] {
      FieldEncodes(fields[order[0]], slots[order[0]]);
      OrderEncodes(fields, slots, order[1..]);
    }
  }

  // ---------------------------------------------------------------- what pb_encode sends

  function All(n: nat): (order: seq<nat>)
    ensures |order| == n && forall k | 0 <= k < n :: order[k] == k
  {
    seq(n, k requires 0 <= k < n => k)
  }

  function Everything(n: nat): (keep: seq<bool>)
    ensures |keep| == n && forall k | 0 <= k < n :: keep[k]
  {
    seq(n, k requires 0 <= k < n => true)
  }

  /** pb_encode sends the fields of its descriptor in order. */
  lemma {:induction false} BytesInOrder(fs: seq<Field>, ss: seq<Slot>, fields: seq<Field>, slots: seq<Slot>,
                                        order: seq<nat>, i: nat)
    requires |slots| == |fields| && |fs| == |ss| == |order| && i <= |order|
    requires forall k | 0 <= k < |order| :: order[k] < |fields| && fields[order[k]] == fs[k] && slots[order[k]] == ss[k]
    ensures FieldsBytes(fs, ss, i) == OrderBytes(fields, slots, order[i..])
    decreases |order| - i
  {
    hide FieldBytes;
    if i < |order| {
      BytesInOrder(fs, ss, fields, slots, order, i + 1);
      assert order[i..][1..] == order[i + 1..];
    }
  }

  lemma {:induction false} KeptEverything<T>(xs: seq<T>)
    ensures Kept(xs, Everything(|xs|)) == xs
    decreases |xs|
  {
    if xs != [] {
      var n := |xs| - 1;
      KeptEverything(xs[..n]);
      assert Everything(|xs|)[..n] == Everything(n);
    }
  }

  lemma {:induction false} RankEverything(n: nat, p: nat)
    requires p <= n
    ensures Rank(Everything(n), p) == p
    decreases p
  {
    if p > 0 { RankEverything(n, p - 1); }
  }

  /** A message written with one descriptor and read with another that lacks any of its fields: the decoding yields the
      message without them when each string left leaves room for its terminator, and fails otherwise. Strings in the
      fields that are dropped do not matter. */
  lemma ReaderMayLackFields(fields: seq<Field>, slots: seq<Slot>, keep: seq<bool>)
    requires |keep| == |fields| == |slots| && ValidFields(fields) && Typed(fields, slots)
    requires MessageBytes(fields, slots).Some? && |MessageBytes(fields, slots).value| < TWO32
    ensures |Kept(slots, keep)| == |Kept(fields, keep)|
    ensures DecodeMessage(Kept(fields, keep), MessageBytes(fields, slots).value) ==
            if Sendable(Kept(fields, keep), Kept(slots, keep))
            then Got(Normal(Kept(fields, keep), Kept(slots, keep)), []) else Bad
  {
    hide FieldsBytes, OrderBytes, ValidFields, Typed, Sendable, Kept, Rank, Normal, Arrivals, Holds, NothingMissing,
         DecodeMessage;
    var order := All(|fields|);
    BytesInOrder(fields, slots, fields, slots, order, 0);
    assert order[0..] == order;
    assert Positions(order, |fields|);
    ReadByAnother(fields, slots, keep, order);
    KeptLength(fields, keep);
    KeptLength(slots, keep);
    AllHeld(fields, slots, keep);
    NoneMissing(fields, slots, keep);
    AllArrive(fields, slots, keep);
  }

  lemma AllHeld(fields: seq<Field>, slots: seq<Slot>, keep: seq<bool>)
    requires |keep| == |fields| == |slots| && ValidFields(fields) && Typed(fields, slots)
    ensures Holds(fields, slots, keep, All(|fields|)) <==> Sendable(Kept(fields, keep), Kept(slots, keep))
  {
    hide SendableSlot, TypedSlot, Kept, Rank, ValidField;
    KeptValid(fields, slots, keep);
    var fs, ss := Kept(fields, keep), Kept(slots, keep);
    if Holds(fields, slots, keep, All(|fields|)) {
      forall i | 0 <= i < |fs| ensures SendableSlot(fs[i], ss[i]) {
        var p := Origin(fields, slots, keep, i);
        assert All(|fields|)[p] == p;
      }
    }
    if Sendable(fs, ss) {
      forall p | 0 <= p < |fields| && keep[p] ensures SendableSlot(fields[p], slots[p]) {
        KeptAt(fields, keep, p);
        KeptAt(slots, keep, p);
      }
    }
  }

  lemma NoneMissing(fields: seq<Field>, slots: seq<Slot>, keep: seq<bool>)
    requires |keep| == |fields| == |slots|
    ensures NothingMissing(fields, keep, All(|fields|))
  {
    hide Kept, Rank, RequiredBefore;
    forall i: nat | i < |Kept(fields, keep)| ensures WasSent(keep, All(|fields|), i) {
      var p := Origin(fields, slots, keep, i);
      assert All(|fields|)[p] == p;
    }
  }

  lemma AllArrive(fields: seq<Field>, slots: seq<Slot>, keep: seq<bool>)
    requires |keep| == |fields| == |slots|
    ensures |Kept(slots, keep)| == |Kept(fields, keep)|
    ensures Kept(Arrivals(fields, slots, All(|fields|)), keep) == Normal(Kept(fields, keep), Kept(slots, keep))
  {
    hide Kept, Rank, NormalSlot, DefaultSlot;
    var order := All(|fields|);
    KeptLength(fields, keep);
    KeptLength(slots, keep);
    KeptLength(Arrivals(fields, slots, order), keep);
    forall i | 0 <= i < |Kept(fields, keep)|
      ensures Kept(Arrivals(fields, slots, order), keep)[i] == NormalSlot(Kept(fields, keep)[i], Kept(slots, keep)[i])
    {
      var p := Origin(fields, slots, keep, i);
      KeptAt(Arrivals(fields, slots, order), keep, p);
      assert order[p] == p;
    }
  }

  /** A message of the same descriptor in any order of its fields, with none left out, decodes as in the encoder's. */
  lemma AnyOrder(fields: seq<Field>, slots: seq<Slot>, order: seq<nat>)
    requires |slots| == |fields| && ValidFields(fields) && Typed(fields, slots)
    requires Positions(order, |fields|) && forall p: nat | p < |fields| :: p in order
    requires OrderBytes(fields, slots, order).Some? && |OrderBytes(fields, slots, order).value| < TWO32
    ensures DecodeMessage(fields, OrderBytes(fields, slots, order).value) ==
            if Sendable(fields, slots) then Got(Normal(fields, slots), []) else Bad
  {
    hide OrderBytes, ValidFields, Kept, Rank, NormalSlot, DefaultSlot, DecodeMessage, SendableSlot, TypedSlot,
         RequiredBefore;
    var keep := Everything(|fields|);
    ReadByAnother(fields, slots, keep, order);
    KeptEverything(fields);
    KeptEverything(Arrivals(fields, slots, order));
    assert Arrivals(fields, slots, order) == Normal(fields, slots);
    if Holds(fields, slots, keep, order) {
      forall p: nat | p < |fields| ensures SendableSlot(fields[p], slots[p]) {
        assert p in order;
        var k :| 0 <= k < |order| && order[k] == p;
      }
    }
    assert NothingMissing(fields, keep, order) by {
      forall i: nat | i < |fields| ensures WasSent(keep, order, i) { RankEverything(|fields|, i); }
    }
  }

  // ---------------------------------------------------------------- a reader with more fields

  /** The positions a version has. */
  function Chosen(keep: seq<bool>): seq<nat> { Kept(All(|keep|), keep) }

  lemma ChosenAt(keep: seq<bool>, i: nat) returns (p: nat)
    requires i < |Chosen(keep)|
    ensures |Chosen(keep)| == Rank(keep, |keep|)
    ensures p < |keep| && keep[p] && Rank(keep, p) == i && Chosen(keep)[i] == p
  {
    hide Kept, Rank;
    KeptLength(All(|keep|), keep);
    p := KeptFrom(keep, |keep|, i);
    KeptAt(All(|keep|), keep, p);
  }

  lemma ChosenIff(keep: seq<bool>, p: nat)
    requires p < |keep|
    ensures p in Chosen(keep) <==> keep[p]
  {
    hide Kept, Rank;
    if keep[p] {
      KeptAt(All(|keep|), keep, p);
      assert Chosen(keep)[Rank(keep, p)] == p;
    }
    if p in Chosen(keep) {
      var i :| 0 <= i < |Chosen(keep)| && Chosen(keep)[i] == p;
      var q := ChosenAt(keep, i);
    }
  }

  lemma ChosenPositions(keep: seq<bool>)
    ensures Positions(Chosen(keep), |keep|)
  {
    hide Kept, Rank;
    forall i | 0 <= i < |Chosen(keep)| ensures Chosen(keep)[i] < |keep| { var p := ChosenAt(keep, i); }
    forall i, j | 0 <= i < j < |Chosen(keep)| ensures Chosen(keep)[i] != Chosen(keep)[j] {
      var p := ChosenAt(keep, i);
      var q := ChosenAt(keep, j);
    }
  }

  /** A message of a version as one of the full descriptor: the fields it lacks are at their defaults. */
  function Spread(fields: seq<Field>, keep: seq<bool>, slots: seq<Slot>): (r: seq<Slot>)
    requires |keep| == |fields| && |slots| == Rank(keep, |keep|)
    ensures |r| == |fields|
  {
    seq(|fields|, p requires 0 <= p < |fields| =>
      if keep[p] && Rank(keep, p) < |slots| then slots[Rank(keep, p)] else DefaultSlot(fields[p]))
  }

  lemma SpreadAt(fields: seq<Field>, keep: seq<bool>, slots: seq<Slot>, p: nat)
    requires |keep| == |fields| && |slots| == Rank(keep, |keep|) && p < |fields| && keep[p]
    ensures Rank(keep, p) < |slots| && Spread(fields, keep, slots)[p] == slots[Rank(keep, p)]
  {
    hide Rank;
    RankMonotone(keep, p, |keep|);
  }

  lemma SpreadTyped(fields: seq<Field>, keep: seq<bool>, slots: seq<Slot>)
    requires |keep| == |fields| && |slots| == Rank(keep, |keep|)
    requires ValidFields(fields) && Typed(Kept(fields, keep), slots)
    ensures Typed(fields, Spread(fields, keep, slots))
  {
    hide Rank, Kept, TypedSlot, DefaultSlot, ValidField, Spread;
    var spread := Spread(fields, keep, slots);
    KeptLength(fields, keep);
    forall p: nat | p < |fields| ensures TypedSlot(fields[p], spread[p]) {
      if keep[p] {
        SpreadAt(fields, keep, slots, p);
        KeptAt(fields, keep, p);
      } else {
        SpreadRest(fields, keep, slots, p);
        RoomlessField(fields[p]);
        DefaultSlotFits(fields[p], 0);
        SlotFitsTyped(fields[p], DefaultSlot(fields[p]));
      }
    }
    forall p: nat, q: nat | p < q < |fields| && SameOneof(fields[p], fields[q])
      ensures spread[p].Off? || spread[q].Off?
    {
      if keep[p] && keep[q] {
        SpreadAt(fields, keep, slots, p);
        SpreadAt(fields, keep, slots, q);
        KeptAt(fields, keep, p);
        KeptAt(fields, keep, q);
        RankMonotone(keep, p, q);
      } else {
        var r := if keep[p] then q else p;
        SpreadRest(fields, keep, slots, r);
        OneofOff(fields[r]);
      }
    }
  }

  lemma SpreadRest(fields: seq<Field>, keep: seq<bool>, slots: seq<Slot>, p: nat)
    requires |keep| == |fields| && |slots| == Rank(keep, |keep|) && p < |fields| && !keep[p]
    ensures Spread(fields, keep, slots)[p] == DefaultSlot(fields[p])
  {
    hide Rank, DefaultSlot;
  }

  lemma OneofOff(f: Field)
    requires f.rule.Oneof?
    ensures DefaultSlot(f) == Off
  {}

  /** The writer has each required field that the reader tracks. */
  predicate RequiredKept(fields: seq<Field>, keep: seq<bool>)
    requires |keep| == |fields|
  {
    forall p | 0 <= p < |fields| && fields[p].rule.Required? && RequiredBefore(fields, p) < MAX_REQUIRED :: keep[p]
  }

  /** A message written with a version that lacks some of the reader's fields: the decoding yields the message with
      those fields at their defaults, when none of them is a tracked required field and each string leaves room for its
      terminator, and fails otherwise. */
  lemma ReaderMayKnowMore(fields: seq<Field>, keep: seq<bool>, slots: seq<Slot>)
    requires |keep| == |fields| && ValidFields(fields) && Typed(Kept(fields, keep), slots)
    requires MessageBytes(Kept(fields, keep), slots).Some? && |MessageBytes(Kept(fields, keep), slots).value| < TWO32
    ensures |slots| == |Kept(fields, keep)| == Rank(keep, |keep|)
    ensures DecodeMessage(fields, MessageBytes(Kept(fields, keep), slots).value) ==
            if Sendable(Kept(fields, keep), slots) && RequiredKept(fields, keep)
            then Got(Spread(fields, keep, Normal(Kept(fields, keep), slots)), []) else Bad
  {
    hide FieldsBytes, OrderBytes, ValidFields, Typed, Sendable, Kept, Rank, Normal, Arrivals, Holds, NothingMissing,
         DecodeMessage, Spread, RequiredKept, Chosen, Positions;
    assert |slots| == |Kept(fields, keep)| by { TypedLength(Kept(fields, keep), slots); }
    KeptLength(fields, keep);
    var all, order, spread := Everything(|fields|), Chosen(keep), Spread(fields, keep, slots);
    ChosenPositions(keep);
    SpreadTyped(fields, keep, slots);
    assert forall k | 0 <= k < |order| :: order[k] < |fields| by { PositionsBelow(order, |fields|); }
    ChosenBytes(fields, keep, slots);
    ReadByAnother(fields, spread, all, order);
    KeptEverything(fields);
    KeptEverything(Arrivals(fields, spread, order));
    SpreadHeld(fields, keep, slots);
    SpreadMissing(fields, keep);
    SpreadArrives(fields, keep, slots);
  }

  lemma TypedLength(fields: seq<Field>, slots: seq<Slot>)
    requires Typed(fields, slots)
    ensures |slots| == |fields|
  {}

  lemma PositionsBelow(order: seq<nat>, n: nat)
    requires Positions(order, n)
    ensures forall k | 0 <= k < |order| :: order[k] < n
  {}

  lemma ChosenBytes(fields: seq<Field>, keep: seq<bool>, slots: seq<Slot>)
    requires |keep| == |fields| && |slots| == Rank(keep, |keep|) == |Kept(fields, keep)|
    requires forall k | 0 <= k < |Chosen(keep)| :: Chosen(keep)[k] < |fields|
    ensures MessageBytes(Kept(fields, keep), slots) == OrderBytes(fields, Spread(fields, keep, slots), Chosen(keep))
  {
    hide FieldsBytes, OrderBytes, Kept, Rank, Spread, Chosen;
    var order, spread := Chosen(keep), Spread(fields, keep, slots);
    assert |order| == |slots| by { ChosenLength(keep); }
    forall k | 0 <= k < |order| ensures fields[order[k]] == Kept(fields, keep)[k] && spread[order[k]] == slots[k] {
      var p := ChosenAt(keep, k);
      KeptAt(fields, keep, p);
      SpreadAt(fields, keep, slots, p);
    }
    BytesInOrder(Kept(fields, keep), slots, fields, spread, order, 0);
    assert order[0..] == order;
  }

  lemma ChosenLength(keep: seq<bool>)
    ensures |Chosen(keep)| == Rank(keep, |keep|)
  {
    hide Kept, Rank;
    KeptLength(All(|keep|), keep);
  }

  lemma SpreadHeld(fields: seq<Field>, keep: seq<bool>, slots: seq<Slot>)
    requires |keep| == |fields| && |slots| == Rank(keep, |keep|) == |Kept(fields, keep)|
    requires forall k | 0 <= k < |Chosen(keep)| :: Chosen(keep)[k] < |fields|
    requires Typed(Kept(fields, keep), slots)
    ensures Holds(fields, Spread(fields, keep, slots), Everything(|fields|), Chosen(keep)) <==>
            Sendable(Kept(fields, keep), slots)
  {
    hide Kept, Rank, Spread, Chosen, SendableSlot, TypedSlot;
    var fs, order, spread := Kept(fields, keep), Chosen(keep), Spread(fields, keep, slots);
    ChosenLength(keep);
    forall k | 0 <= k < |order| ensures fields[order[k]] == fs[k] && spread[order[k]] == slots[k] {
      var p := ChosenAt(keep, k);
      KeptAt(fields, keep, p);
      SpreadAt(fields, keep, slots, p);
    }
    if Holds(fields, spread, Everything(|fields|), order) {
      forall k | 0 <= k < |fs| ensures SendableSlot(fs[k], slots[k]) { assert order[k] < |fields|; }
    }
  }

  lemma SpreadMissing(fields: seq<Field>, keep: seq<bool>)
    requires |keep| == |fields|
    ensures NothingMissing(fields, Everything(|fields|), Chosen(keep)) <==> RequiredKept(fields, keep)
  {
    hide Kept, Rank, Chosen, RequiredBefore;
    KeptEverything(fields);
    forall p: nat | p < |fields| ensures Rank(Everything(|fields|), p) == p { RankEverything(|fields|, p); }
    forall p: nat | p < |fields| ensures WasSent(Everything(|fields|), Chosen(keep), p) <==> keep[p] {
      ChosenIff(keep, p);
    }
  }

  lemma SpreadArrives(fields: seq<Field>, keep: seq<bool>, slots: seq<Slot>)
    requires |keep| == |fields| && |slots| == Rank(keep, |keep|) == |Kept(fields, keep)|
    ensures Arrivals(fields, Spread(fields, keep, slots), Chosen(keep)) ==
            Spread(fields, keep, Normal(Kept(fields, keep), slots))
  {
    hide Kept, Rank, Chosen, Spread, NormalSlot, DefaultSlot;
    var normal := Normal(Kept(fields, keep), slots);
    forall p: nat | p < |fields|
      ensures Arrivals(fields, Spread(fields, keep, slots), Chosen(keep))[p] == Spread(fields, keep, normal)[p]
    {
      ChosenIff(keep, p);
      if keep[p] {
        SpreadAt(fields, keep, slots, p);
        SpreadAt(fields, keep, normal, p);
        KeptAt(fields, keep, p);
      } else {
        SpreadRest(fields, keep, normal, p);
      }
    }
  }
}
