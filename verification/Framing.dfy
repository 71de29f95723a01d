/** Streams of length-delimited messages. */
module Framing {
  import opened Common
  import opened Bits
  import opened Schema
  import opened Varint
  import opened Encode
  import opened Decode
  import opened Scalars
  import opened RoundTrip

  datatype Message = Message(fields: seq<Field>, slots: seq<Slot>)

  predicate SendableMessage(m: Message) {
    && |m.slots| == |m.fields|
    && ValidFields(m.fields) && Sendable(m.fields, m.slots)
    && MessageBytes(m.fields, m.slots).Some? && |MessageBytes(m.fields, m.slots).value| < TWO32
  }

  /** pb_encode_delimited, once per message. */
  function WriteAll(ms: seq<Message>): Output {
    if ms == [] then Some([]) else
    var body := MessageBytes(ms[0].fields, ms[0].slots);
    if body.None? then None else Cat(Some(Prefixed(body.value)), WriteAll(ms[1..]))
  }

  /** pb_decode_delimited, once per expected descriptor. */
  function ReadAll(descriptors: seq<seq<Field>>, inp: seq<byte>): Read<seq<seq<Slot>>> {
    if descriptors == [] then Got([], inp) else
    var m := DecodeDelimited(descriptors[0], inp);
    if m.Bad? then Bad else
    var ms := ReadAll(descriptors[1..], m.rest);
    if ms.Bad? then Bad else Got([m.v] + ms.v, ms.rest)
  }

  function Descriptors(ms: seq<Message>): seq<seq<Field>> {
    if ms == [] then [] else [ms[0].fields] + Descriptors(ms[1..])
  }

  /** The messages as they arrive. */
  function NormalAll(ms: seq<Message>): seq<seq<Slot>> {
    if ms == [] then [] else [Arriving(ms[0])] + NormalAll(ms[1..])
  }

  function Arriving(m: Message): seq<Slot> {
    if |m.slots| == |m.fields| then Normal(m.fields, m.slots) else m.slots
  }

  /** pb_decode_delimited decodes the declared bytes and then stands behind them, also when a zero tag ended the message
      early; a message cut short is refused. */
  lemma ReadDelimited(fields: seq<Field>, body: seq<byte>, len: nat, rest: seq<byte>)
    requires |body| < TWO32
    ensures DecodeDelimited(fields, (Encoded(|body|) + body) + rest) ==
            var m := DecodeMessage(fields, body); if m.Got? then Got(m.v, rest) else Bad
    ensures |body| < len < TWO32 ==> DecodeDelimited(fields, Encoded(len) + body) == Bad
  {
    hide Encoded, TakePrefixed, Decode32, DecodeMessage;
    TakePrefixedRoundTrip(body, rest);
    if |body| < len < TWO32 { CutShort(len, body); }
  }

  lemma CutShort(len: nat, body: seq<byte>)
    requires |body| < len < TWO32
    ensures TakePrefixed(Encoded(len) + body) == Bad
  {
    hide Encoded, Decode32;
    Decode32Encoded(len, body);
  }

  lemma DelimitedRoundTrip(m: Message, rest: seq<byte>)
    requires SendableMessage(m)
    ensures DecodeDelimited(m.fields, Prefixed(MessageBytes(m.fields, m.slots).value) + rest) ==
            Got(Arriving(m), rest)
  {
    hide MessageBytes, Prefixed, TakePrefixed, DecodeMessage, ValidFields, Sendable, Normal;
    MessageRoundTrip(m.fields, m.slots);
    TakePrefixedRoundTrip(MessageBytes(m.fields, m.slots).value, rest);
  }

  /** Any list of messages written back to back reads back message by message, each read consuming exactly the
      bytes of its own message and leaving what follows the list untouched. */
  lemma {:induction false} FramingRoundTrip(ms: seq<Message>, rest: seq<byte>)
    requires forall i | 0 <= i < |ms| :: SendableMessage(ms[i])
    ensures WriteAll(ms).Some?
    ensures ReadAll(Descriptors(ms), WriteAll(ms).value + rest) == Got(NormalAll(ms), rest)
    decreases |ms|
  {
    hide SendableMessage, MessageBytes, Prefixed, DecodeDelimited, Arriving;
    if ms == [] {
      assert [] + rest == rest;
    } else {
      FramingRoundTrip(ms[1..], rest);
      assert MessageBytes(ms[0].fields, ms[0].slots).Some? by { BodyExists(ms[0]); }
      var body := MessageBytes(ms[0].fields, ms[0].slots).value;
      var more := WriteAll(ms[1..]).value;
      assert WriteAll(ms).value + rest == Prefixed(body) + (more + rest);
      DelimitedRoundTrip(ms[0], more + rest);
      assert Descriptors(ms)[1..] == Descriptors(ms[1..]);
    }
  }

  lemma BodyExists(m: Message)
    requires SendableMessage(m)
    ensures MessageBytes(m.fields, m.slots).Some?
  {}
}
