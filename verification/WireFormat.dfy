/** The bytes on the wire, in numbers: what pb_encode writes for each kind and rule of field, what pb_skip_field passes
    over, and what the scalar decoders accept. The wire format is that of the protocol buffers encoding: a record is a
    varint of 8 * tag + type, type 0 for varints, 1 for eight bytes, 2 for a length and bytes, 5 for four bytes. */
module WireFormat {
  import opened Common
  import opened Bits
  import opened Schema
  import opened Varint
  import opened Encode
  import opened Decode
  import opened Scalars
  import opened RoundTrip
  import opened Presence

  // ---------------------------------------------------------------- varints

  /** 128 to the power `i`. */
  function Scale(i: nat): (p: nat)
    ensures p > 0
  {
    if i == 0 then 1 else 128 * Scale(i - 1)
  }

  /** Byte `i` of a varint of value `v`: the i-th group of seven bits, marked unless it is the last. */
  function Septet(v: nat, i: nat, last: bool): nat {
    v / Scale(i) % 128 + if last then 0 else 128
  }

  lemma DivScale(v: nat, i: nat)
    ensures v / 128 / Scale(i) == v / Scale(i + 1)
  {
    var p := Scale(i);
    var q, x := v / 128 / p, v / 128 % p;
    assert v == 128 * (q * p + x) + v % 128;
    assert v == q * (128 * p) + (128 * x + v % 128);
    DivUnique(v, 128 * p, q, 128 * x + v % 128);
  }

  /** The bytes of a varint one by one, and how many there are. */
  lemma {:induction false} EncodedSeptets(v: nat)
    ensures var n := |Encoded(v)|;
            && v < Scale(n) && (n > 1 ==> v >= Scale(n - 1))
            && forall i | 0 <= i < n :: Encoded(v)[i] == Septet(v, i, i == n - 1)
    decreases v
  {
    if v >= 128 {
      EncodedSeptets(v / 128);
      var n := |Encoded(v)|;
      forall i | 0 <= i < n ensures Encoded(v)[i] == Septet(v, i, i == n - 1) {
        if i > 0 { DivScale(v, i - 1); }
      }
    }
  }

  // ---------------------------------------------------------------- records

  /** The four, eight or `n` bytes of a number, least significant first. */
  function ByteAt(v: nat, i: nat): nat { v / Scale256(i) % 256 }

  function Scale256(i: nat): (p: nat)
    ensures p > 0
  {
    if i == 0 then 1 else 256 * Scale256(i - 1)
  }

  lemma DivScale256(v: nat, i: nat)
    ensures v / 256 / Scale256(i) == v / Scale256(i + 1)
  {
    var p := Scale256(i);
    var q, x := v / 256 / p, v / 256 % p;
    assert v == 256 * (q * p + x) + v % 256;
    assert v == q * (256 * p) + (256 * x + v % 256);
    DivUnique(v, 256 * p, q, 256 * x + v % 256);
  }

  lemma {:induction false} LittleEndianBytes(v: nat, n: nat)
    ensures forall i | 0 <= i < n :: LittleEndian(v, n)[i] == ByteAt(v, i)
    decreases n
  {
    if n > 0 {
      LittleEndianBytes(v / 256, n - 1);
      forall i | 0 <= i < n ensures LittleEndian(v, n)[i] == ByteAt(v, i) {
        if i > 0 { DivScale256(v, i - 1); }
      }
    }
  }

  /** `p` holds the bytes of a number, least significant first. */
  predicate Number(p: seq<byte>, v: nat) {
    forall i | 0 <= i < |p| :: p[i] == ByteAt(v, i)
  }

  /** `p` is a length and that many bytes. */
  predicate Counted(p: seq<byte>, bs: seq<byte>) {
    p == Encoded(|bs|) + bs
  }

  /** The part of a string buffer before its first zero byte. */
  predicate CString(buffer: seq<byte>, bs: seq<byte>) {
    bs <= buffer && (forall i | 0 <= i < |bs| :: bs[i] != 0) && (|bs| < |buffer| ==> buffer[|bs|] == 0)
  }

  /** The bytes of a value of each scalar kind. */
  ghost predicate Payload(k: Kind, v: Value, p: seq<byte>)
    requires !k.Submessage?
  {
    match k
    case Bool => v.Flag? && p == [if v.b then 0x01 else 0x00]
    case VarInt(_) => v.Num? && v.n >= -TWO64 && p == Encoded(if v.n >= 0 then v.n else v.n + TWO64)
    case UVarInt(_) => v.Num? && v.n >= 0 && p == Encoded(v.n)
    case SVarInt(_) => v.Num? && p == Encoded(if v.n >= 0 then 2 * v.n else -2 * v.n - 1)
    case Fixed32 => v.Num? && v.n >= 0 && |p| == 4 && Number(p, v.n)
    case Fixed64 => v.Num? && v.n >= 0 && |p| == 8 && Number(p, v.n)
    case Bytes(_) => v.Blob? && Counted(p, v.bs)
    case String(_) => v.Blob? && exists bs :: CString(v.bs, bs) && Counted(p, bs)
    case FixedBytes(_) => v.Blob? && Counted(p, v.bs)
  }

  lemma VarintPayload(k: Kind, v: Value)
    requires (k.VarInt? || k.UVarInt? || k.SVarInt?) && ValidKind(k) && ScalarFits(k, v)
    ensures ScalarBytes(k, v).Some? && Payload(k, v, ScalarBytes(k, v).value)
  {
    hide Encoded, ZigZag;
    if k.SVarInt? { ZigZagRoundTrip(v.n); }
    if k.VarInt? {
      if v.n < 0 { DivUnique(v.n, TWO64, -1, v.n + TWO64); }
    }
  }

  /** Every value of its C type is written as the format says. */
  lemma ScalarPayload(k: Kind, v: Value)
    requires !k.Submessage? && ValidKind(k) && ScalarFits(k, v)
    ensures ScalarBytes(k, v).Some? && Payload(k, v, ScalarBytes(k, v).value)
  {
    match k
    case VarInt(_) => VarintPayload(k, v);
    case UVarInt(_) => VarintPayload(k, v);
    case SVarInt(_) => VarintPayload(k, v);
    case Fixed32 => LittleEndianBytes(v.n, 4);
    case Fixed64 => LittleEndianBytes(v.n, 8);
    case String(n) =>
      hide Encoded;
      var bs := v.bs[..CStringLength(v.bs, n)];
      assert CString(v.bs, bs) && Counted(ScalarBytes(k, v).value, bs);
    case Bool =>
    case Bytes(_) =>
    case FixedBytes(_) =>
  }

  /** The type bits of a record of each kind. */
  function TypeOf(k: Kind): nat {
    match k
    case Bool => 0
    case VarInt(_) => 0
    case UVarInt(_) => 0
    case SVarInt(_) => 0
    case Fixed64 => 1
    case Bytes(_) => 2
    case String(_) => 2
    case FixedBytes(_) => 2
    case Submessage(_, _) => 2
    case Fixed32 => 5
  }

  /** Every record begins with the varint of 8 * tag + type; a submessage is the length and bytes of its encoding. */
  lemma RecordLayout(tag: nat, k: Kind, v: Value)
    requires RecordBytes(tag, k, v).Some?
    requires k.Submessage? || (ValidKind(k) && ScalarFits(k, v))
    ensures Encoded(8 * tag + TypeOf(k)) <= RecordBytes(tag, k, v).value
    ensures var payload := RecordBytes(tag, k, v).value[|Encoded(8 * tag + TypeOf(k))|..];
            if k.Submessage? then
              && v.Msg? && MessageBytes(k.fields, v.slots).Some?
              && Counted(payload, MessageBytes(k.fields, v.slots).value)
            else Payload(k, v, payload)
  {
    hide Encoded, FieldsBytes, Payload;
    assert tag * 8 + WireType(k) == 8 * tag + TypeOf(k);
    if !k.Submessage? { ScalarPayload(k, v); }
  }

  /** A bool is one byte after its tag. */
  lemma BoolRecord(tag: nat, b: bool)
    ensures RecordBytes(tag, Bool, Flag(b)) == Some(Encoded(8 * tag) + [if b then 0x01 else 0x00])
  {
    RecordLayout(tag, Bool, Flag(b));
  }

  /** 128 to the power 9, so 2 to the power 63. */
  lemma ScaleNine()
    ensures Scale(9) == TWO63
  {
    assert Scale(3) == 0x20_0000;
    assert Scale(6) == 0x20_0000 * 0x20_0000;
  }

  /** A negative integer of any width is ten bytes after its tag: nine marked groups and a final one. */
  lemma NegativeRecord(tag: nat, w: nat, n: int)
    requires ValidWidth(w) && -(Modulus(w) / 2) <= n < 0
    ensures RecordBytes(tag, VarInt(w), Num(n)).Some?
    ensures var p := RecordBytes(tag, VarInt(w), Num(n)).value;
            && |p| == |Encoded(8 * tag)| + 10 && Encoded(8 * tag) <= p && p[|p| - 1] == 0x01
            && forall i | |Encoded(8 * tag)| <= i < |p| - 1 :: p[i] == Septet(n + TWO64, i - |Encoded(8 * tag)|, false)
  {
    hide Encoded, Scale;
    ScalarPayload(VarInt(w), Num(n));
    RecordLayout(tag, VarInt(w), Num(n));
    var u := n + TWO64;
    EncodedSeptets(u);
    ScaleNine();
    TenGroups(u, |Encoded(u)|);
    LastGroup(u);
  }

  lemma TenGroups(u: nat, n: nat)
    requires TWO63 <= u < TWO64 && n > 0 && u < Scale(n) && (n > 1 ==> u >= Scale(n - 1))
    ensures n == 10
  {
    ScaleNine();
    if n < 10 { ScaleMonotone(n, 9); }
    if n > 10 { ScaleMonotone(10, n - 1); }
  }

  lemma ScaleMonotone(a: nat, b: nat)
    requires a <= b
    ensures Scale(a) <= Scale(b)
    decreases b
  {
    if a < b { ScaleMonotone(a, b - 1); }
  }

  lemma LastGroup(u: nat)
    requires TWO63 <= u < TWO64
    ensures Septet(u, 9, true) == 0x01
  {
    hide Scale;
    ScaleNine();
    DivUnique(u, TWO63, 1, u - TWO63);
  }

  /** For instance -1, at every width. */
  lemma MinusOne(tag: nat, w: nat)
    requires ValidWidth(w)
    ensures RecordBytes(tag, VarInt(w), Num(-1)) ==
            Some(Encoded(8 * tag) + [0xFF, 0xFF, 0xFF, 0xFF, 0xFF, 0xFF, 0xFF, 0xFF, 0xFF, 0x01])
  {
    hide Encoded;
    assert -1 % TWO64 == TWO64 - 1 by { DivUnique(-1, TWO64, -1, TWO64 - 1); }
    AllOnes();
  }

  lemma MarkedGroup(w: nat)
    requires w > 0
    ensures Encoded(128 * w + 127) == [0xFF] + Encoded(w)
  {}

  lemma UpperOnes()
    ensures Encoded(0xF_FFFF_FFFF) == [0xFF, 0xFF, 0xFF, 0xFF, 0xFF, 0x01]
  {
    assert Encoded(0x1) == [0x01];
    hide Encoded;
    MarkedGroup(0x1);
    MarkedGroup(0xFF);
    MarkedGroup(0x7FFF);
    MarkedGroup(0x3F_FFFF);
    MarkedGroup(0x1FFF_FFFF);
  }

  lemma AllOnes()
    ensures Encoded(TWO64 - 1) == [0xFF, 0xFF, 0xFF, 0xFF, 0xFF, 0xFF, 0xFF, 0xFF, 0xFF, 0x01]
  {
    hide Encoded;
    UpperOnes();
    MarkedGroup(0xF_FFFF_FFFF);
    MarkedGroup(0x7FF_FFFF_FFFF);
    MarkedGroup(0x3_FFFF_FFFF_FFFF);
    MarkedGroup(0x1FF_FFFF_FFFF_FFFF);
  }

  // ---------------------------------------------------------------- messages

  /** `p` is the value as it stands behind its tag; a submessage is the length and bytes of its own fields. */
  ghost predicate IsValue(k: Kind, v: Value, p: seq<byte>)
    decreases k, 0
  {
    if !k.Submessage? then Payload(k, v, p)
    else v.Msg? && exists body :: IsMessage(k.fields, v.slots, body) && Counted(p, body)
  }

  /** `bs` is a tag and a value. */
  ghost predicate IsRecord(tag: nat, k: Kind, v: Value, bs: seq<byte>)
    decreases k, 1
  {
    exists p :: IsValue(k, v, p) && bs == Encoded(8 * tag + TypeOf(k)) + p
  }

  ghost predicate AreValues(k: Kind, items: seq<Value>, ps: seq<seq<byte>>)
    decreases k, 1
  {
    |ps| == |items| && forall i | 0 <= i < |items| :: IsValue(k, items[i], ps[i])
  }

  ghost predicate AreRecords(tag: nat, k: Kind, items: seq<Value>, rs: seq<seq<byte>>)
    decreases k, 2
  {
    |rs| == |items| && forall i | 0 <= i < |items| :: IsRecord(tag, k, items[i], rs[i])
  }

  /** `bs` is an array: nothing when it is empty; numbers and bools in one record of type 2, value after value; anything
      else as one record per item. */
  ghost predicate IsArray(tag: nat, k: Kind, items: seq<Value>, bs: seq<byte>)
    decreases k, 3
  {
    if items == [] then bs == []
    else if TypeOf(k) != 2 then
      exists ps: seq<seq<byte>> ::
        AreValues(k, items, ps) && bs == Encoded(8 * tag + 2) + (Encoded(|Flatten(ps)|) + Flatten(ps))
    else exists rs: seq<seq<byte>> :: AreRecords(tag, k, items, rs) && bs == Flatten(rs)
  }

  /** The scalars that proto3 does not send. */
  predicate IsEmptyScalar(k: Kind, v: Value)
    requires !k.Submessage?
  {
    match k
    case Bool => v == Flag(false)
    case Bytes(_) => v == Blob([])
    case String(_) => v.Blob? && (v.bs == [] || v.bs[0] == 0)
    case FixedBytes(n) => n == 0
    case _ => v == Num(0)
  }

  /** `bs` is what is sent of a field. A proto3 singular field is left out when its scalar is empty, or its submessage
      has nothing to send. */
  ghost predicate IsField(f: Field, s: Slot, bs: seq<byte>)
    decreases f
  {
    match f.rule
    case Required => s.One? && IsRecord(f.tag, f.kind, s.v, bs)
    case Optional => s.Opt? && (if s.has then IsRecord(f.tag, f.kind, s.v, bs) else bs == [])
    case Singular =>
      s.One? && (if f.kind.Submessage? then
                   if bs == [] then s.v.Msg? && IsMessage(f.kind.fields, s.v.slots, [])
                   else IsRecord(f.tag, f.kind, s.v, bs)
                 else if IsEmptyScalar(f.kind, s.v) then bs == [] else IsRecord(f.tag, f.kind, s.v, bs))
    case Repeated(max) => s.Many? && |s.items| <= max && IsArray(f.tag, f.kind, s.items, bs)
    case FixedCount(max) => s.Many? && |s.items| == max && IsArray(f.tag, f.kind, s.items, bs)
    case Oneof(_) => if s.On? then IsRecord(f.tag, f.kind, s.v, bs) else s.Off? && bs == []
  }

  ghost predicate AreFields(fields: seq<Field>, slots: seq<Slot>, parts: seq<seq<byte>>)
    decreases fields, 0
  {
    |parts| == |slots| == |fields| && forall i | 0 <= i < |fields| :: IsField(fields[i], slots[i], parts[i])
  }

  /** `bs` is the message: its fields one after the other, in the order of the descriptor. */
  ghost predicate IsMessage(fields: seq<Field>, slots: seq<Slot>, bs: seq<byte>)
    decreases fields, 1
  {
    exists parts: seq<seq<byte>> :: AreFields(fields, slots, parts) && bs == Flatten(parts)
  }

  lemma {:induction false} ValueConforms(k: Kind, v: Value)
    requires ValidKind(k) && TypedValue(k, v)
    ensures ValueBytes(k, v).Some? && IsValue(k, v, ValueBytes(k, v).value)
    decreases k, 0
  {
    hide Encoded, Payload, FieldsBytes;
    if k.Submessage? {
      MessageConforms(k.fields, v.slots);
      assert Counted(ValueBytes(k, v).value, FieldsBytes(k.fields, v.slots, 0).value);
    } else {
      ScalarPayload(k, v);
    }
  }

  lemma {:induction false} RecordConforms(tag: nat, k: Kind, v: Value)
    requires ValidKind(k) && TypedValue(k, v)
    ensures RecordBytes(tag, k, v).Some? && IsRecord(tag, k, v, RecordBytes(tag, k, v).value)
    decreases k, 1
  {
    hide Encoded, ValueBytes, IsValue;
    assert tag * 8 + WireType(k) == 8 * tag + TypeOf(k);
    ValueConforms(k, v);
    assert RecordBytes(tag, k, v).value == Encoded(8 * tag + TypeOf(k)) + ValueBytes(k, v).value;
  }

  lemma {:induction false} ItemsConform(k: Kind, items: seq<Value>) returns (ps: seq<seq<byte>>)
    requires ValidKind(k) && forall i | 0 <= i < |items| :: TypedValue(k, items[i])
    ensures AreValues(k, items, ps) && ItemsBytes(k, items) == Some(Flatten(ps))
    decreases k, 1, |items|
  {
    hide ValueBytes, IsValue;
    if items == [] {
      ps := [];
    } else {
      ValueConforms(k, items[0]);
      var rest := ItemsConform(k, items[1..]);
      ps := [ValueBytes(k, items[0]).value] + rest;
      assert ps[1..] == rest;
      assert forall i | 0 < i < |items| :: items[i] == items[1..][i - 1];
    }
  }

  lemma {:induction false} RecordsConform(tag: nat, k: Kind, items: seq<Value>) returns (rs: seq<seq<byte>>)
    requires ValidKind(k) && forall i | 0 <= i < |items| :: TypedValue(k, items[i])
    ensures AreRecords(tag, k, items, rs) && RecordsBytes(tag, k, items) == Some(Flatten(rs))
    decreases k, 2, |items|
  {
    hide RecordBytes, IsRecord;
    if items == [] {
      rs := [];
    } else {
      RecordConforms(tag, k, items[0]);
      var rest := RecordsConform(tag, k, items[1..]);
      rs := [RecordBytes(tag, k, items[0]).value] + rest;
      assert rs[1..] == rest;
      assert forall i | 0 < i < |items| :: items[i] == items[1..][i - 1];
    }
  }

  lemma {:induction false} ArrayConforms(tag: nat, k: Kind, items: seq<Value>, max: nat)
    requires ValidKind(k) && |items| <= max && forall i | 0 <= i < |items| :: TypedValue(k, items[i])
    ensures ArrayBytes(tag, k, items, max).Some? && IsArray(tag, k, items, ArrayBytes(tag, k, items, max).value)
    decreases k, 3
  {
    hide Encoded, ItemsBytes, RecordsBytes, AreValues, AreRecords, TypedValue;
    if items != [] {
      if TypeOf(k) != 2 {
        var ps := ItemsConform(k, items);
        assert ArrayBytes(tag, k, items, max).value ==
               Encoded(8 * tag + 2) + (Encoded(|Flatten(ps)|) + Flatten(ps)) by { assert tag * 8 + 2 == 8 * tag + 2; }
      } else {
        var rs := RecordsConform(tag, k, items);
      }
    }
  }

  lemma {:induction false} FieldConforms(f: Field, s: Slot)
    requires ValidField(f) && TypedSlot(f, s)
    ensures FieldBytes(f, s).Some? && IsField(f, s, FieldBytes(f, s).value)
    decreases f
  {
    hide RecordBytes, ArrayBytes, IsRecord, IsArray, TypedValue, IsZeroValue, IsEmptyScalar, IsMessage;
    match f.rule
    case Required => RecordConforms(f.tag, f.kind, s.v);
    case Optional => if s.has { RecordConforms(f.tag, f.kind, s.v); }
    case Singular =>
      RecordConforms(f.tag, f.kind, s.v);
      RecordNonEmpty(f.tag, f.kind, s.v);
      if f.kind.Submessage? { OmittedConforms(f, s.v); } else { EmptyScalarIff(f.kind, s.v); }
    case Repeated(max) => ArrayConforms(f.tag, f.kind, s.items, max);
    case FixedCount(max) => ArrayConforms(f.tag, f.kind, s.items, max);
    case Oneof(_) => if s.On? { RecordConforms(f.tag, f.kind, s.v); }
  }

  lemma EmptyScalarIff(k: Kind, v: Value)
    requires !k.Submessage?
    ensures IsEmptyScalar(k, v) <==> IsZeroValue(k, v)
  {}

  lemma {:induction false} OmittedConforms(f: Field, v: Value)
    requires f.kind.Submessage? && ValidKind(f.kind) && TypedValue(f.kind, v)
    ensures IsZeroValue(f.kind, v) ==> v.Msg? && IsMessage(f.kind.fields, v.slots, [])
    decreases f.kind
  {
    hide IsMessage, FieldBytes, IsUnsetSlot, ValidFields, Typed;
    var k := f.kind;
    MessageConforms(k.fields, v.slots);
    if IsZeroValue(k, v) {
      forall i | 0 <= i < |k.fields| ensures FieldBytes(k.fields[i], v.slots[i]) == Some([]) {
        UnsetIsEmpty(k.fields[i], v.slots[i]);
      }
      FieldsEmptyIff(k.fields, v.slots, 0);
    }
  }

  lemma UnsetIsEmpty(f: Field, s: Slot)
    requires IsUnsetSlot(f, s)
    ensures FieldBytes(f, s) == Some([])
  {
    hide RecordBytes, IsZeroValue;
  }

  lemma {:induction false} FieldsConform(fields: seq<Field>, slots: seq<Slot>, i: nat) returns (parts: seq<seq<byte>>)
    requires ValidFields(fields) && Typed(fields, slots) && i <= |fields|
    ensures |parts| == |fields| - i && FieldsBytes(fields, slots, i) == Some(Flatten(parts))
    ensures forall j | i <= j < |fields| :: IsField(fields[j], slots[j], parts[j - i])
    decreases fields, |fields| - i
  {
    hide FieldBytes, IsField, TypedSlot;
    if i == |fields| {
      parts := [];
    } else {
      FieldConforms(fields[i], slots[i]);
      var rest := FieldsConform(fields, slots, i + 1);
      parts := [FieldBytes(fields[i], slots[i]).value] + rest;
      assert parts[1..] == rest;
    }
  }

  /** pb_encode writes every struct of a descriptor in the wire format. */
  lemma {:induction false} MessageConforms(fields: seq<Field>, slots: seq<Slot>)
    requires ValidFields(fields) && Typed(fields, slots)
    ensures MessageBytes(fields, slots).Some? && IsMessage(fields, slots, MessageBytes(fields, slots).value)
    decreases fields, |fields| + 1
  {
    hide IsField, FieldsBytes, Typed, ValidFields;
    assert |slots| == |fields| by { TypedShape(fields, slots); }
    var parts := FieldsConform(fields, slots, 0);
    assert AreFields(fields, slots, parts);
  }

  lemma TypedShape(fields: seq<Field>, slots: seq<Slot>)
    requires Typed(fields, slots)
    ensures |slots| == |fields|
  {}

  // ---------------------------------------------------------------- what is refused

  /** A field pb_encode refuses to write: an array whose count exceeds it, a fixed one not filled, or bytes that do not
      fit behind the four bytes of their length member, where they would be sent. */
  predicate Overfull(f: Field, s: Slot) {
    match f.rule
    case Repeated(max) => s.Many? && |s.items| > max
    case FixedCount(max) => s.Many? && |s.items| != max
    case Optional => s.Opt? && s.has && OverfullBytes(f.kind, s.v)
    case Required => s.One? && OverfullBytes(f.kind, s.v)
    case Singular => s.One? && OverfullBytes(f.kind, s.v) && s.v.bs != []
    case Oneof(_) => s.On? && OverfullBytes(f.kind, s.v)
  }

  predicate OverfullBytes(k: Kind, v: Value) {
    k.Bytes? && v.Blob? && |v.bs| + 4 > k.size
  }

  lemma OverfullField(f: Field, s: Slot)
    requires Overfull(f, s)
    ensures FieldBytes(f, s) == None
  {
    hide RecordBytes, OverfullBytes;
    if f.rule.Optional? || f.rule.Required? || f.rule.Singular? || f.rule.Oneof? {
      RecordStops(f.tag, f.kind, s.v);
      if f.rule.Singular? { assert !IsZeroValue(f.kind, s.v) by { NotOmitted(f.kind, s.v); } }
    }
  }

  lemma NotOmitted(k: Kind, v: Value)
    requires OverfullBytes(k, v) && v.bs != []
    ensures !IsZeroValue(k, v)
  {}

  lemma RecordStops(tag: nat, k: Kind, v: Value)
    requires OverfullBytes(k, v) || Unencodable(k, v)
    ensures RecordBytes(tag, k, v) == None
  {
    hide FieldsBytes;
    assert ValueBytes(k, v) == None;
  }

  lemma {:induction false} FieldStops(fields: seq<Field>, slots: seq<Slot>, i: nat, j: nat)
    requires j <= i < |fields| == |slots| && FieldBytes(fields[i], slots[i]) == None
    ensures FieldsBytes(fields, slots, j) == None
    decreases i - j
  {
    hide FieldBytes;
    if j < i { FieldStops(fields, slots, i, j + 1); }
  }

  /** One such field makes the whole encoding fail, and so does a submessage that cannot be encoded, wherever it is
      sent. */
  lemma Refused(fields: seq<Field>, slots: seq<Slot>, i: nat)
    requires i < |fields| == |slots|
    requires || Overfull(fields[i], slots[i])
             || (fields[i].rule.Required? && slots[i].One? && Unencodable(fields[i].kind, slots[i].v))
             || (fields[i].rule.Optional? && slots[i].Opt? && slots[i].has && Unencodable(fields[i].kind, slots[i].v))
             || (fields[i].rule.Oneof? && slots[i].On? && Unencodable(fields[i].kind, slots[i].v))
    ensures MessageBytes(fields, slots) == None
  {
    hide FieldsBytes, Overfull, OverfullBytes, Unencodable, RecordBytes;
    var f, s := fields[i], slots[i];
    if Overfull(f, s) { OverfullField(f, s); } else { RecordStops(f.tag, f.kind, s.v); }
    FieldStops(fields, slots, i, 0);
  }

  predicate Unencodable(k: Kind, v: Value) {
    k.Submessage? && v.Msg? && MessageBytes(k.fields, v.slots) == None
  }

  /** So does one item of an array that cannot be encoded. */
  lemma {:induction false} ItemStops(tag: nat, k: Kind, items: seq<Value>, i: nat)
    requires i < |items| && Unencodable(k, items[i])
    ensures RecordsBytes(tag, k, items) == None
    decreases i
  {
    hide RecordBytes, Unencodable;
    if i > 0 { ItemStops(tag, k, items[1..], i - 1); } else { RecordStops(tag, k, items[0]); }
  }
}
