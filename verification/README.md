# Lend: a verified model of its codec, card numbers and donation pipeline

The project models three parts of the Lend repository in Dafny and proves what they promise.

**The nanopb codec** (`Lend/Pods/nanopb`). A descriptor is a tree of field tables and a message the value tree of the
C struct it describes (`Schema`). `Encode.MessageBytes` says what pb_encode writes and `Decode.Merge`, `DecodeMessage`
and `DecodeDelimited` say what pb_decode_noinit, pb_decode and pb_decode_delimited read, as functions of descriptor,
message and bytes. On these functions stand the whole-message round trip with its exact condition (`Scalars`,
`RoundTrip`, `Delivery`), the conditions for concatenation, unknown fields, other versions of a descriptor, packed
records and framing (`Records`, `Merging`, `Evolution`, `Packed`, `Framing`), presence (`Presence`), and the
well-formedness of whatever was decoded from arbitrary bytes (`Typing`). The running code is modelled in its own form:
streams with a cursor and a byte count (`InStream`, `OutStream`), the cyclic field iterator (`FieldIter`), the
presence words (`Required`), and the encoder and decoder as methods with the source's loops, substreams and two-pass
submessages (`Decoder`, `Encoder`, `NegativeVarint`); each is proved to compute exactly the function that specifies
it. Independent of both, `WireFormat` states the wire format as a relation between messages and bytes, in numbers, to
which every encoding conforms; `WireReading` says in numbers what is skipped, accepted and refused; `Initial` what the
fields hold that no record met; and `Layout` that the addresses of the iterator are those of the struct's members.
`Bits` and `Varint` hold the machine arithmetic, `AnyVarint` what the varint decoders make of arbitrary bytes,
`Common` the optional values and sequence helpers of all parts.

**Card numbers** (`Lend/Pods/Stripe/Stripe`). `Luhn` has the check of Annex B of ISO/IEC 7812-1, `BinRange` the
matching by truncation, `BinTable` the built-in table, `BrandTable` what it says of a number by its first digits,
`CardValidator` the judgement of a number as it is typed, and `BinCache` the request-coalescing cache as a state
machine over every interleaving of calls, queue turns and network answers, beside the class that holds its static
state; `CacheRuns` has what every run keeps and that each gets done, `CacheEffects` what each block changes and with
what each completion runs.

**The donation pipeline** (`Lend/Lend`). `Bucket` has the merge of stored donates with the organisations of a cause,
the edits and the hand-over to the confirmation screen, `BucketAmounts` the amounts and the order its rows show;
`Confirmation` the concurrent writes and their barrier; `Reconciliation` what the store holds after them; `Flow` the
way from the stored donates through the bucket back to the store; `OneTime` the one-time payments; `Organisations` the
chunked fetch and the join; `Barrier` the counter that all fan-ins share. Callbacks are events that may come in any
order.

## Configuration

64-bit integers, memory-buffer streams, 64 tracked required fields, static fields, and the 32-bit pb_size_t that the
pod's build settings select with PB_FIELD_32BIT (`Lend/Pods/Target Support Files/nanopb/nanopb.release.xcconfig:3`): a
bytes array has a four-byte header. Descriptors have distinct field numbers from 1 to 2^29 - 1, C integer widths,
string buffers of at least one byte, defaults of the right type, and zero defaults for proto3 singular fields. An
empty descriptor is allowed. A message is shorter than 2^32 bytes, since lengths on the wire are read as 32 bits.

## Where the code differs from what is said of it

- Merging (`Lend/Pods/nanopb/pb_decode.h:74-75`) is not always concatenation: a fixed-count array cannot be continued
  or refilled within one input. `Merging.MergesIff` gives the exact condition, `Packed.FixedCountDoesNotMerge` a
  family of inputs. Nor does anything follow a zero tag (`Merging.ZeroTagHides`).
- A string that fills its buffer is encoded and then rejected by the decoder, and with it the whole message
  (`Delivery.DeliveredIff`).
- The 32-bit varint decoder accepts some values above 2^32; of up to 37 bytes it returns their low 32 bits
  (`AnyVarint.LowBitsKept`). On the encoder's output these are the sign-extended ones and, above 2^63, those in which
  some septets of bits 35 to 62 are all zero and others all one (`Varint.Decode32Cases`). On other bytes it also
  ignores the top bits of a fifth byte that is not the last (`AnyVarint.FifthByteUnchecked`), and its 8-bit bit
  position wraps after 37 bytes (`AnyVarint.WrapsRound`). It returns the value itself exactly when that is below 2^32
  (`AnyVarint.KeepsValueIff`). The 64-bit decoder drops what a tenth byte holds above bit 63
  (`AnyVarint.TenthByteDropped`).
- The wire type of a record matters to arrays only; other fields are decoded by their descriptor alone
  (`WireReading.TypeBitsIgnored`).
- In an empty descriptor the terminator is found by tag 0 and passes for a required bool
  (`WireReading.EmptyDescriptor`).
- A prefix of a valid card number is called incomplete by the documentation
  (`Lend/Pods/Stripe/Stripe/STPCardValidator.swift:78-80`); a prefix that lacks only trailing spaces is valid
  (`CardValidator.PrefixesOfValid`).
- Numbers that no Int can hold count as zero in range matching, so a prefix of a match need not match. Among bounds of
  up to 19 digits `BinRange.MonotoneIff` says exactly for which ranges it does, `BinRange.ZerosRefute` and
  `BinRange.NinesRefute` give the numbers for the others.
- On the single digits 3 and 6 the brand found depends on how the sort arranges equally specific ranges
  (`BinTable.OneDigitTies`), and on no other number (`BinTable.UnambiguousIff`).
- The confirmation of an empty list of rows never calls its handler (`Confirmation.HandlerFiresOnce`), and neither
  does a one-time payment without rows and tips (`OneTime.PaymentsRecorded`).
- A failed chunk query counts as one without documents: the completion cannot tell it from missing organisations
  (`Organisations.CannotTell`, `Organisations.FailureLosesOrganisation`), and fetchDonates drops the donates
  concerned. `Organisations.CompleteIff` and `Organisations.DonatesCompleteIff` say exactly when nothing is lost.
- A monthly bucket saved while its load is under way can bring in the id of a donate that no longer exists
  (`Bucket.StaleSavedRow`); `Bucket.MergedConsistent` says exactly when it does not, and
  `Reconciliation.MonthlyReconciliation` exactly when that harms the store.

The functions that serve as specifications (in `Encode`, `Decode`, `Varint`, and the `Next` and `After` of the state
machines) have no row of their own below; the rows name the methods proved equal to them and the lemmas about them.

## Model

| member | source | states |
|---|---|---|
| `Delivery.DeliveredIff` | Lend/Pods/nanopb/pb_decode.c:1075-1087 | For every descriptor and every message the encoder accepts, nested messages, oneofs, arrays and proto3 singulars included: pb_encode has an output and, below 2^32 bytes, pb_decode returns the message as it arrives if and only if every string sent leaves room for its terminator; otherwise it fails |
| `Delivery.StructIsTyped` | Lend/Pods/nanopb/pb_encode.c:341-426 | The encoder accepts every struct of the descriptor |
| `Delivery.FieldRejected` | Lend/Pods/nanopb/pb_decode.c:1468-1501 | A field that holds a string filling its buffer, however deep and wherever in an array, makes the decoding fail |
| `RoundTrip.MessageRoundTrip` | Lend/Pods/nanopb/pb_decode.c:925-1087 | For every message whose strings leave room for their terminators, pb_decode of the output of pb_encode succeeds, consumes all of it, and returns the message with absent optionals back at their defaults, strings ending at their first zero byte, and everything else unchanged |
| `RoundTrip.MessageArrives` | Lend/Pods/nanopb/pb_decode.c:1503-1525 | The same for a submessage inside its substream: decoding onto the defaults yields the sent message, at any depth |
| `RoundTrip.FieldArrives` | Lend/Pods/nanopb/pb_decode.c:406-483 | The bytes of one field add it to the fields that have arrived, whichever these are and whatever follows; a oneof member leaves the other members off, a fixed-count array is complete |
| `RoundTrip.PackedRoundTrip` | Lend/Pods/nanopb/pb_decode.c:424-445 | The packed loop reads back exactly the scalars that the packed writer emitted and ends with nothing left over |
| `RoundTrip.ZeroIsNormal` | Lend/Pods/nanopb/pb_encode.c:240-335 | Whatever pb_check_proto3_default_value lets the encoder omit, including whole unset submessages, is what the decoder starts from |
| `RoundTrip.ValueEncodes` | Lend/Pods/nanopb/pb_encode.c:341-426 | A value of its C type always has an encoding: none of the encoder error branches is reached |
| `Merging.MergesIff` | Lend/Pods/nanopb/pb_decode.c:925-1073 | Two field sequences that decode in turn onto a message decode as one with the same result, if and only if the second does not begin its fixed-count arrays with the non-empty one the first ended on; otherwise the concatenation is rejected |
| `Merging.ConcatenationIsMerge` | Lend/Pods/nanopb/pb_decode.c:925-1073 | Without fixed-count arrays, decoding a concatenation is decoding its parts in turn |
| `Merging.ZeroTagHides` | Lend/Pods/nanopb/pb_decode.c:943-955 | A sequence that stops at a zero tag leaves everything appended to it unread |
| `Merging.CannotRefill` | Lend/Pods/nanopb/pb_decode.c:988-1028 | A run that can finish only by filling a fixed-count array is rejected when that array already counts as full |
| `Merging.LastOneWins` | Lend/Pods/nanopb/pb_decode.c:414-483 | An earlier record of a scalar field or of a oneof member, submessages included, leaves no trace when another follows, whatever records come in between |
| `Merging.SubmessageMerges` | Lend/Pods/nanopb/pb_decode.c:1503-1525 | Two records of a submessage field are one record of the two bodies together, whenever those merge |
| `Packed.FixedCountDoesNotMerge` | Lend/Pods/nanopb/pb_decode.c:988-1028 | A record that fills a fixed-count array decodes, decodes again onto the result, and is rejected when doubled in one input |
| `Packed.FixedCountIff` | Lend/Pods/nanopb/pb_decode.c:988-1050 | Records of one fixed-count array, however cut into runs and single records, decode if and only if together they have as many entries as the array |
| `Packed.PackedInterchange` | Lend/Pods/nanopb/pb_decode.c:424-464 | However a list of scalars is cut into packed runs and single records, the array ends up with the same contents, and decoding fails exactly when the total exceeds the array |
| `Packed.SameListSameMessage` | Lend/Pods/nanopb/pb_decode.c:424-464 | Two ways of cutting the same list give the same decoding of everything that follows |
| `Packed.PackedOverflow` | Lend/Pods/nanopb/pb_decode.c:436-448 | A packed run with more entries than the array has room for stops with input left over, which is the overflow error |
| `Records.RunSplit` | Lend/Pods/nanopb/pb_decode.c:943-1021 | Input that ends at a field boundary can be cut there: the field loop carries on from the state it reached |
| `Records.RunStopped` | Lend/Pods/nanopb/pb_decode.c:943-955 | Nothing after a zero tag is looked at |
| `Records.UnknownFieldsTransparent` | Lend/Pods/nanopb/pb_decode.c:957-1010 | Well-formed records with field numbers the descriptor lacks, inserted at any field boundary, change neither the message nor the success of the decoding nor a fixed-count array in progress |
| `Records.ExtraIsUnknown` | Lend/Pods/nanopb/pb_decode.c:278-331 | Every varint, 64-bit, length-delimited or 32-bit record written under a missing field number is skipped whole |
| `Records.StepExtend` | Lend/Pods/nanopb/pb_decode.c:943-1021 | One record never looks past its own end |
| `Evolution.ReadByAnother` | Lend/Pods/nanopb/pb_decode.c:925-1073 | Fields of a common descriptor sent in any order, any of them left out, and read with a descriptor that has any of its fields: decoding succeeds if and only if each string the reader keeps leaves room for its terminator and no tracked required field of the reader is missing; then what was sent arrives, the rest is at its defaults, and fields the reader lacks are gone |
| `Evolution.ReaderMayLackFields` | Lend/Pods/nanopb/pb_decode.c:957-986 | What pb_encode writes, read with a descriptor that lacks any of the fields, decodes to the message without them if and only if the strings kept leave room for their terminators; dropped strings do not matter |
| `Evolution.ReaderMayKnowMore` | Lend/Pods/nanopb/pb_decode.c:1030-1070 | What pb_encode writes, read with a descriptor that has further fields, decodes to the message with those at their defaults, or fails exactly when one of them is a tracked required field or a string has no room |
| `Evolution.AnyOrder` | Lend/Pods/nanopb/pb_decode.c:943-1021 | The fields of a message decode alike in any order |
| `Evolution.FieldSkipped` | Lend/Pods/nanopb/pb_encode.c:675-707 | All that the encoder writes for a field, whatever its rule and wire type, is skipped by a reader without that field |
| `Presence.OmittedIffEmpty` | Lend/Pods/nanopb/pb_encode.c:240-335 | Any proto3 submessage the encoder accepts is left out exactly when its own encoding would be empty |
| `Presence.ZeroScalarIff` | Lend/Pods/nanopb/pb_encode.c:268-335 | The default-value test is exact among scalars, except that fixed-length bytes are always sent |
| `Presence.SucceedsIffMet` | Lend/Pods/nanopb/pb_decode.c:1012-1070 | Decoding succeeds exactly when the loop runs through, the fixed-count array in progress is complete, and each of the first 64 required fields was met during the call |
| `Framing.FramingRoundTrip` | Lend/Pods/nanopb/pb_decode.c:1089-1117 | Any list of messages written with pb_encode_delimited reads back message by message, each read consuming exactly its own bytes |
| `Framing.DelimitedRoundTrip` | Lend/Pods/nanopb/pb_encode.c:552-555 | The same for one delimited message with anything behind it |
| `Framing.ReadDelimited` | Lend/Pods/nanopb/pb_decode.c:1104-1117 | Delimited input decodes its declared bytes and leaves exactly the rest, also behind a zero tag; a message cut short is refused |
| `Typing.DecodedFits` | Lend/Pods/nanopb/pb_decode.c:1075-1087 | From any bytes at all, a successful pb_decode leaves a struct of the descriptor: no array or buffer exceeds its size, every integer fits its width, a oneof has at most one active member, and each string leaves room for its terminator when the default strings do |
| `Typing.DecodedCanBeSent` | Lend/Pods/nanopb/pb_decode.c:1075-1087 | Whatever pb_decode makes of any bytes, with default strings that leave room, can be encoded and decodes to the same message up to absent optionals and what follows a zero byte |
| `RoundTrip.NormalTwice` | Lend/Pods/nanopb/pb_decode.c:925-1087 | A message that has arrived arrives unchanged when sent again |
| `Typing.MergeFits` | Lend/Pods/nanopb/pb_decode.c:925-1073 | pb_decode_noinit keeps that invariant of the destination |
| `Typing.StepFits` | Lend/Pods/nanopb/pb_decode.c:406-483 | One record keeps that invariant |
| `Schema.DefaultsFit` | Lend/Pods/nanopb/pb_decode.c:836-923 | The defaults form a struct of the descriptor, at every depth |
| `WireFormat.MessageConforms` | Lend/Pods/nanopb/pb_encode.c:341-426 | For every descriptor and every struct of it, the output of pb_encode is a message of the wire format written out in numbers: fields in order, each record the varint of 8 * tag + type and its payload, arrays of numbers and bools as one record of type 2, other arrays as one record per item, submessages as length and bytes, absent and empty fields as nothing |
| `WireFormat.RecordLayout` | Lend/Pods/nanopb/pb_encode.c:675-707 | Every record begins with the varint of 8 * tag + type, where the type is 0 for bools and integers, 1 for eight bytes, 5 for four bytes and 2 for bytes, strings, fixed runs and submessages; behind it stands the payload of its kind |
| `WireFormat.ScalarPayload` | Lend/Pods/nanopb/pb_encode.c:769-921 | The payload of each scalar kind: one byte 00 or 01, the varint of the number modulo 2^64 or of its zigzag image, the bytes of the number least significant first, or a length and the bytes up to the first zero of a string |
| `WireFormat.BoolRecord` | Lend/Pods/nanopb/pb_encode.c:769-774 | A bool field is its tag and the byte 00 or 01 |
| `WireFormat.NegativeRecord` | Lend/Pods/nanopb/pb_encode.c:776-797 | A negative integer of any width is its tag and ten bytes, nine marked septets of its 64-bit two's complement and a final 01 |
| `WireFormat.MinusOne` | Lend/Pods/nanopb/pb_encode.c:776-797 | The integer -1 is its tag and FF nine times and 01 |
| `WireFormat.EncodedSeptets` | Lend/Pods/nanopb/pb_encode.c:608-628 | Byte i of a varint is the i-th group of seven bits, marked unless it is the last, and there are as many as the value needs |
| `WireFormat.Refused` | Lend/Pods/nanopb/pb_encode.c:147-239 | One array that exceeds its size, one bytes field that exceeds its buffer, or one submessage that cannot be encoded makes the whole encoding fail |
| `WireReading.SkipByType` | Lend/Pods/nanopb/pb_decode.c:321-331 | Skipping passes over exactly a varint for type 0, eight bytes for 1, a length and that many bytes for 2 and four bytes for 5, and refuses every other type |
| `WireReading.SkipTooShort` | Lend/Pods/nanopb/pb_decode.c:278-331 | Skipping refuses input that ends before the payload does |
| `WireReading.ReadBool` | Lend/Pods/nanopb/pb_decode.c:1318-1327 | A bool is set by every varint but zero |
| `WireReading.ReadSigned` | Lend/Pods/nanopb/pb_decode.c:1329-1364 | A signed field takes the low 32 bits of a varint, or all 64 in a field of eight bytes, as a two's complement number, and refuses exactly those that its width cannot hold |
| `WireReading.ReadUnsigned` | Lend/Pods/nanopb/pb_decode.c:1366-1388 | An unsigned field refuses exactly the varints its width cannot hold |
| `WireReading.ReadZigZag` | Lend/Pods/nanopb/pb_decode.c:1390-1412 | A zigzag field takes even varints as 0, 1, 2 and so on and odd ones as -1, -2 and so on, and refuses exactly what its width cannot hold |
| `WireReading.ReadFixed` | Lend/Pods/nanopb/pb_decode.c:1283-1315 | Any four or eight bytes read as the number whose bytes they are, least significant first |
| `WireReading.ReadBytes` | Lend/Pods/nanopb/pb_decode.c:1431-1466 | A bytes field accepts exactly what fits its buffer behind four bytes |
| `WireReading.ReadString` | Lend/Pods/nanopb/pb_decode.c:1468-1501 | A string field accepts exactly what leaves room for the terminator |
| `WireReading.ReadFixedBytes` | Lend/Pods/nanopb/pb_decode.c:1527-1548 | A fixed run accepts its own size, or nothing, which zeroes it |
| `WireReading.BytesTooShort` | Lend/Pods/nanopb/pb_decode.c:372-385 | A length that exceeds the bytes behind it is refused |
| `WireReading.ReadSubmessage` | Lend/Pods/nanopb/pb_decode.c:1503-1525 | A submessage is decoded within its declared bytes and the rest is left, even when a zero tag ended it early |
| `WireReading.TypeBitsIgnored` | Lend/Pods/nanopb/pb_decode.c:406-464 | The type bits of a known field decide only whether a record for an array of numbers or bools is a packed run |
| `WireReading.RecordEffect` | Lend/Pods/nanopb/pb_decode.c:414-483 | A record that is no array's sets its field present or active, switches off the other members of its own oneof and changes nothing else |
| `WireReading.ZeroTagEnds` | Lend/Pods/nanopb/pb_decode.c:943-955 | A zero tag ends the message and nothing behind it is read |
| `WireReading.EmptyDescriptor` | Lend/Pods/nanopb/pb_decode.c:957-986 | With an empty descriptor a record of tag zero is read as a bool and stored nowhere |
| `Initial.UnmetAreFresh` | Lend/Pods/nanopb/pb_decode.c:1075-1087 | After pb_decode of any bytes every field that no record met is fresh: a scalar holds its declared default, with has false when optional, an array with a count is empty, a oneof member off, a submessage the same in all its fields |
| `Initial.UnknownOnly` | Lend/Pods/nanopb/pb_decode.c:1075-1087 | Input whose records are all unknown decodes if and only if no field is required, and then to a message fresh at every depth |
| `Initial.EmptyInput` | Lend/Pods/nanopb/pb_decode.c:1075-1087 | So does the empty input |
| `Initial.DefaultsAreFresh` | Lend/Pods/nanopb/pb_decode.c:836-923 | The struct that decoding starts from is fresh at every depth |
| `Initial.UnmetUntouched` | Lend/Pods/nanopb/pb_decode.c:925-1073 | The field loop leaves alone what its records do not name, except for oneof members that a sibling switches off |
| `Initial.SubmessageUnmet` | Lend/Pods/nanopb/pb_decode.c:1503-1525 | In a submessage the fields its bytes do not name keep what they held; in one of a oneof or an array they are fresh |
| `Decoder.PbDecode` | Lend/Pods/nanopb/pb_decode.c:1075-1087 | The running decoder succeeds exactly when the specification does, returns the same message and leaves the same unread bytes |
| `Decoder.DecodeNoinit` | Lend/Pods/nanopb/pb_decode.c:925-1073 | Field loop, iterator, presence words and fixed-count bookkeeping together compute the merge of the input into the destination |
| `Decoder.PbDecodeDelimited` | Lend/Pods/nanopb/pb_decode.c:1104-1117 | On success the stream stands after the prefix and exactly the declared bytes, even when a zero tag ended the message early |
| `Decoder.SetToDefaults` | Lend/Pods/nanopb/pb_decode.c:908-923 | Every slot is set to its default, whatever it held |
| `Decoder.FieldLoop` | Lend/Pods/nanopb/pb_decode.c:943-1021 | The loop over tags computes the run of the specification and keeps the presence words equal to the set of required fields met |
| `Decoder.ReadRecord` | Lend/Pods/nanopb/pb_decode.c:957-1020 | One record: found, checked against a fixed-count array in progress, marked when required, then decoded or skipped, as specified |
| `Decoder.ReadField` | Lend/Pods/nanopb/pb_decode.c:731-757 | One field record has the specified effect on the message and on the fixed-count account |
| `Decoder.ReadSingle` | Lend/Pods/nanopb/pb_decode.c:414-483 | Required and optional fields merge into the prior value, a oneof member into a zeroed one |
| `Decoder.ReadArray` | Lend/Pods/nanopb/pb_decode.c:424-464 | A record of an array appends its value or its packed run, or fails at the array size |
| `Decoder.ReadPacked` | Lend/Pods/nanopb/pb_decode.c:425-453 | The packed loop over a substream computes the specified list and moves the parent past the whole run |
| `Decoder.ReadValue` | Lend/Pods/nanopb/pb_decode.c:1503-1525 | A submessage is decoded in a substream and the parent then stands after its declared bytes |
| `Decoder.ReadScalar` | Lend/Pods/nanopb/pb_decode.c:1318-1548 | Each scalar decoder returns the specified value, or fails on the same inputs |
| `Decoder.ReadFixed32` | Lend/Pods/nanopb/pb_decode.c:1283-1295 | Four bytes shifted and OR-ed into place give the little-endian value |
| `Decoder.ReadFixed64` | Lend/Pods/nanopb/pb_decode.c:1298-1315 | The same for eight bytes |
| `Decoder.TurnToFixed` | Lend/Pods/nanopb/pb_decode.c:988-1010 | Another fixed-count array may begin only when the one in progress is complete, and then begins empty |
| `Decoder.ReadVarintField` | Lend/Pods/nanopb/pb_decode.c:1329-1412 | The cast-and-compare of the integer decoders accepts exactly the values that survive the cast |
| `Decoder.FinalChecks` | Lend/Pods/nanopb/pb_decode.c:1023-1070 | The decoding is complete if and only if the array in progress is full and each of the first 64 required fields was met, wherever the iterator stood |
| `Decoder.FindAgrees` | Lend/Pods/nanopb/pb_common.c:78-95 | Going round from any position stops at the one field with the tag, or nowhere when there is none |
| `Decoder.RequiredAgree` | Lend/Pods/nanopb/pb_common.c:65-70 | The iterator counts required fields as the descriptor does |
| `Required.CheckRequired` | Lend/Pods/nanopb/pb_decode.c:1030-1070 | The word-and-mask check passes exactly when each of the first min(64, R) required fields was met |
| `Required.MarkSeen` | Lend/Pods/nanopb/pb_decode.c:1012-1017 | Setting one bit adds one required field to the account and disturbs no other |
| `Required.TrackedMeansSeen` | Lend/Pods/nanopb/pb_decode.c:1012-1070 | Meeting every tracked required index is meeting every required field whose index is below 64 |
| `Required.WordPart` | Lend/Pods/nanopb/pb_decode.c:1060-1068 | The last word equals the mask of r ones exactly when the r remaining required fields were met |
| `FieldIter.Iterator.Find` | Lend/Pods/nanopb/pb_common.c:78-95 | From any position in a table of n fields the search ends within n steps, succeeds exactly when a non-extension field has the tag, stops at the first one met going round, and otherwise returns to where it began |
| `FieldIter.Iterator.Next` | Lend/Pods/nanopb/pb_common.c:20-76 | Steps to the next field or wraps to the first, keeping address, size address and required index functions of the position alone |
| `FieldIter.Iterator.Begin` | Lend/Pods/nanopb/pb_common.c:8-18 | Stands at the first field, and tells an empty table |
| `Layout.AddressesAreMembers` | Lend/Pods/nanopb/pb.h:391-436 | For any struct whose table the descriptor macros build from the places of its members, the iterator's addresses are those of the member and of its has_ flag, count or which_ tag, wherever the struct stands |
| `Layout.RequiredCounts` | Lend/Pods/nanopb/pb_common.c:65-70 | The iterator's index of required fields is the number of required members before the position |
| `InStream.Stream.Read` | Lend/Pods/nanopb/pb_decode.c:102-139 | Delivers exactly the next count bytes, or fails without moving when fewer are left |
| `InStream.Stream.ReadByte` | Lend/Pods/nanopb/pb_decode.c:141-157 | Delivers the next byte and takes one from the count |
| `InStream.Stream.DecodeVarint32` | Lend/Pods/nanopb/pb_decode.c:187-247 | The do-while loop with its 8-bit bit position computes the 32-bit reading, and reports end of input only before the first byte |
| `InStream.Stream.DecodeVarint64` | Lend/Pods/nanopb/pb_decode.c:255-275 | The loop computes the 64-bit reading |
| `InStream.Stream.DecodeTag` | Lend/Pods/nanopb/pb_decode.c:298-319 | Splits the tag word, and tells the end of a message, by input or by zero tag, from an error |
| `InStream.Stream.SkipVarintBytes` | Lend/Pods/nanopb/pb_decode.c:278-287 | Skips to behind the first byte without continuation bit |
| `InStream.Stream.SkipField` | Lend/Pods/nanopb/pb_decode.c:321-331 | Skips exactly the payload of each wire type, and refuses the others |
| `InStream.Stream.MakeSubstream` | Lend/Pods/nanopb/pb_decode.c:372-385 | The substream holds exactly the declared bytes and the parent keeps exactly the rest |
| `InStream.Stream.CloseSubstream` | Lend/Pods/nanopb/pb_decode.c:387-400 | However much was read inside, the parent moves to the end of the substream |
| `Varint.Decode64Encoded` | Lend/Pods/nanopb/pb_decode.c:255-275 | Every uint64 varint decodes back, consuming exactly its bytes |
| `Varint.EncodedFitsTen` | Lend/Pods/nanopb/pb_encode.c:608-628 | Every uint64 fits the ten-byte buffer |
| `Varint.Decode32Encoded` | Lend/Pods/nanopb/pb_decode.c:187-247 | On the encoding of any 64-bit value, exactly what the 32-bit decoder does |
| `Varint.Decode32Cases` | Lend/Pods/nanopb/pb_decode.c:187-247 | Values below 2^32 read back, those in [2^32, 2^63) are rejected, sign-extended negative int32 values give their low 32 bits, and above 2^63 acceptance has an exact condition |
| `Varint.Decode32Bound` | Lend/Pods/nanopb/pb_decode.c:187-247 | From any input the 32-bit decoder returns a 32-bit value |
| `AnyVarint.KeepsValueIff` | Lend/Pods/nanopb/pb_decode.c:187-247 | On any bytes that hold a finished varint, of any length and padding, the 32-bit decoder returns its value if and only if that is below 2^32 |
| `AnyVarint.LowBitsKept` | Lend/Pods/nanopb/pb_decode.c:187-247 | Whatever it accepts of up to 37 bytes, it returns the low 32 bits of the value |
| `AnyVarint.UnfinishedRejected` | Lend/Pods/nanopb/pb_decode.c:187-275 | Both decoders reject a varint that the input does not finish |
| `AnyVarint.Decode64Whole` | Lend/Pods/nanopb/pb_decode.c:255-275 | On any bytes the 64-bit decoder accepts exactly the varints of up to ten bytes and returns the low 64 bits of their value |
| `AnyVarint.AgainstDecode64` | Lend/Pods/nanopb/pb_decode.c:187-275 | Where the 64-bit decoder reads v, the 32-bit decoder returns the low 32 bits of v or fails, and returns v itself if and only if the value of the varint is below 2^32 |
| `AnyVarint.FifthByteUnchecked` | Lend/Pods/nanopb/pb_decode.c:205-244 | The bytes 80 80 80 80 F0 00 hold 0x7_0000_0000 and are read as 0: the top bits of the fifth byte are tested only when it is the last |
| `AnyVarint.WrapsRound` | Lend/Pods/nanopb/pb_decode.c:205-244 | After 37 bytes 80 the 8-bit bit position is 3, and a final 01 is read as 8 |
| `AnyVarint.TenthByteDropped` | Lend/Pods/nanopb/pb_decode.c:255-275 | Nine bytes 80 and 02 hold 2^64: the 64-bit decoder returns 0, the 32-bit decoder fails |
| `Scalars.ScalarRoundTrip` | Lend/Pods/nanopb/pb_decode.c:1318-1548 | Every scalar decoder undoes its encoder, up to what follows the zero byte of a string, and consumes exactly its bytes |
| `Scalars.FromVarintRoundTrip` | Lend/Pods/nanopb/pb_decode.c:1329-1412 | The signed, unsigned and zigzag field codecs are identities at widths 1, 2, 4 and 8 |
| `Scalars.ZigZagRoundTrip` | Lend/Pods/nanopb/pb_encode.c:630-639 | Zigzag by shift and complement is 2v or -2v-1 and is undone by the decoder, over all of int64 |
| `Scalars.UnZigZagRoundTrip` | Lend/Pods/nanopb/pb_decode.c:1269-1281 | The inverse is into int64 and is undone by the encoder, over all of uint64 |
| `Scalars.LittleEndianRoundTrip` | Lend/Pods/nanopb/pb_decode.c:1283-1312 | Fixed-width values read back from their bytes |
| `Scalars.TakePrefixedRoundTrip` | Lend/Pods/nanopb/pb_decode.c:372-400 | Opening and closing a substream consumes the prefix and exactly the declared bytes |
| `Scalars.ScalarArrivesIff` | Lend/Pods/nanopb/pb_decode.c:1468-1501 | Every scalar of its C type is encoded, and arrives if and only if it is not a string that fills its buffer, which is sent and then rejected |
| `Scalars.StringWhole` | Lend/Pods/nanopb/pb_encode.c:875-899 | A string without zero bytes that is shorter than its buffer arrives whole |
| `Encoder.EncodeToBuffer` | Lend/Pods/nanopb/pb_encode.c:528-550 | Encoding into a buffer succeeds exactly when the message has an encoding that fits, writes that many bytes at the front and leaves the rest of the buffer alone |
| `Encoder.GetEncodedSize` | Lend/Pods/nanopb/pb_encode.c:567-576 | The size reported is the length of the encoding, and sizing succeeds exactly when there is one |
| `Encoder.PbEncode` | Lend/Pods/nanopb/pb_encode.c:528-550 | On any stream, buffer or sizing, pb_encode succeeds exactly when the encoding exists and fits, and appends exactly it |
| `Encoder.EncodeSubmessage` | Lend/Pods/nanopb/pb_encode.c:717-765 | Sizing first and writing into a substream of that size gives prefix and body; the changed-size error cannot occur, at any depth |
| `Encoder.EncodeField` | Lend/Pods/nanopb/pb_encode.c:341-426 | A field is written or omitted by its presence rule as specified |
| `Encoder.CheckDefaultValue` | Lend/Pods/nanopb/pb_encode.c:240-335 | The running test decides exactly whether a proto3 singular value is at its default |
| `Encoder.CheckDefaultFields` | Lend/Pods/nanopb/pb_encode.c:289-310 | The iterator loop over a submessage finds a field that is set exactly when there is one |
| `Encoder.CheckDefaultSlot` | Lend/Pods/nanopb/pb_encode.c:245-268 | The branches for required, repeated, oneof and optional members decide exactly whether the member is unset |
| `Encoder.EncodeArray` | Lend/Pods/nanopb/pb_encode.c:147-236 | An array is empty, too long, one packed run, or one record per item, as specified |
| `Encoder.EncodePacked` | Lend/Pods/nanopb/pb_encode.c:164-205 | The size announced for a packed run is the size written |
| `Encoder.PackedSize` | Lend/Pods/nanopb/pb_encode.c:169-189 | Multiplying out for fixed-width kinds gives the same size as writing to a sizing stream |
| `Encoder.EncodeItems` | Lend/Pods/nanopb/pb_encode.c:197-204 | The packed items are written one after the other, and fail when the whole does not fit |
| `Encoder.EncodeRecords` | Lend/Pods/nanopb/pb_encode.c:206-233 | One record per item, in order |
| `Encoder.EncodeRecord` | Lend/Pods/nanopb/pb_encode.c:669-707 | Tag with the wire type of the kind, then the value |
| `Encoder.EncodeValue` | Lend/Pods/nanopb/pb_encode.c:901-907 | A value of any kind, nested messages included |
| `Encoder.EncodeScalar` | Lend/Pods/nanopb/pb_encode.c:769-913 | Each scalar encoder writes the specified bytes or fails |
| `Encoder.EncodeString` | Lend/Pods/nanopb/pb_encode.c:709-715 | Length prefix and data; nothing succeeds that does not fit whole |
| `Encoder.EncodeTag` | Lend/Pods/nanopb/pb_encode.c:669-673 | The tag word as a varint |
| `Encoder.StringLength` | Lend/Pods/nanopb/pb_encode.c:875-899 | The scan stops at the first zero byte or at the buffer size |
| `Encoder.EncodeVarint` | Lend/Pods/nanopb/pb_encode.c:608-628 | Writes the base-128 encoding |
| `Encoder.FillBuffer` | Lend/Pods/nanopb/pb_encode.c:619-625 | The septet loop fills the buffer with the encoding and never overruns its ten bytes |
| `Encoder.EncodeSvarint` | Lend/Pods/nanopb/pb_encode.c:630-639 | Writes the varint of the zigzag image |
| `Encoder.EncodeFixed32` | Lend/Pods/nanopb/pb_encode.c:641-651 | Four bytes, least significant first |
| `Encoder.EncodeFixed64` | Lend/Pods/nanopb/pb_encode.c:653-667 | Eight bytes, least significant first, in two halves |
| `OutStream.Stream.Write` | Lend/Pods/nanopb/pb_encode.c:103-124 | Appends the bytes and nothing else, exactly when they fit; a refused write changes nothing |
| `OutStream.Stream.CopyIn` | Lend/Pods/nanopb/pb_encode.c:74-84 | The copy puts the bytes at the cursor and leaves the rest of the buffer alone |
| `OutStream.FollowsTrans` | Lend/Pods/nanopb/pb_encode.c:103-124 | Two writes in a row are one write of the concatenation |
| `NegativeVarint.EncodeNegativeVarint` | Lend/Pods/nanopb/pb_encode.c:583-605 | With 32-bit arithmetic and the compensation counter, writes the bytes of the 64-bit encoder on the sign-extended value |
| `NegativeVarint.FillNegative` | Lend/Pods/nanopb/pb_encode.c:583-605 | The loop fills the ten-byte buffer with that encoding and never overruns it |
| `NegativeVarint.Shift` | Lend/Pods/nanopb/pb_encode.c:592-600 | One shift with refill is division by 128 of the 64-bit value, and emits the same septet |
| `NegativeVarint.NegativeVarintBytes` | Lend/Pods/nanopb/pb_decode.c:187-247 | The encoding of a negative int32 has ten bytes and the 32-bit decoder turns it back |
| `BinRange.PrefixMatches` | Lend/Pods/Stripe/Stripe/STPBINRange.swift:152-176 | For bounds up to the longest card number that are sound, every range a number matches is matched by each of its prefixes |
| `BinRange.MonotoneIff` | Lend/Pods/Stripe/Stripe/STPBINRange.swift:152-176 | For bounds of up to 19 digits, of any two lengths: every prefix of every match matches, if and only if an Int can hold the low bound, and a high bound of 19 digits comes with a positive low bound of 19 digits or begins with eighteen nines |
| `BinRange.ZerosRefute` | Lend/Pods/Stripe/Stripe/STPBINRange.swift:157-163 | A low bound that no Int can hold counts as zero: nineteen zeros match the range and their first eighteen do not |
| `BinRange.NinesRefute` | Lend/Pods/Stripe/Stripe/STPBINRange.swift:166-173 | Nineteen nines count as zero and so match a 19-digit high bound that their first eighteen exceed |
| `BinRange.OverflowMatches` | Lend/Pods/Stripe/Stripe/STPBINRange.swift:157-173 | A number too large for an Int counts as zero, so that it can match a 19-digit range of zeros which its prefix does not match |
| `BinRange.LongPrefixMatches` | Lend/Pods/Stripe/Stripe/STPBINRange.swift:152-176 | From the length of the bounds on, longer prefixes match alike |
| `BinRange.CutMonotone` | Lend/Pods/Stripe/Stripe/STPBINRange.swift:150-176 | Cutting two numbers of equal length to the same length keeps their order |
| `BinRange.LastIsMostSpecific` | Lend/Pods/Stripe/Stripe/STPBINRange.swift:53-60 | There always is a match, so the force-unwrapped last of the sorted matches exists; and it is a most specific match however the sort arranges ties |
| `BinRange.MostSpecificBINRange` | Lend/Pods/Stripe/Stripe/STPBINRange.swift:53-60 | Filtering, sorting and taking the last gives a most specific match |
| `BinTable.OneDigitTies` | Lend/Pods/Stripe/Stripe/STPBINRange.swift:53-60 | On the digit 3 an American Express range of 15 and a Diners Club range of 14 digits are both most specific, on the digit 6 a Discover and a Mastercard range |
| `BinTable.UnambiguousIff` | Lend/Pods/Stripe/Stripe/STPBINRange.swift:53-60 | With the built-in table, length and brand of the most specific range do not depend on how ties fall, if and only if the number is not the single digit 3 or 6 |
| `CardValidator.PrefixesOfValid` | Lend/Pods/Stripe/Stripe/STPCardValidator.swift:82-117 | With brand checking and the built-in table, every prefix of a valid input is incomplete, except one that lacks only spaces, which is valid |
| `CardValidator.IncompleteIff` | Lend/Pods/Stripe/Stripe/STPCardValidator.swift:74-117 | With brand checking and the built-in table, an input is judged incomplete if and only if it is not valid and some continuation of it is |
| `CardValidator.ValidationState` | Lend/Pods/Stripe/Stripe/STPCardValidator.swift:82-117 | Branches, look-up of the most specific range and Luhn loop compute the judgement for a most specific range of the typed digits |
| `CardValidator.JudgeDecides` | Lend/Pods/Stripe/Stripe/STPCardValidator.swift:82-119 | With a range given, a number is valid if and only if it is digits, as many as the range asks for, of a known brand when that is checked, with a sum by position that ten divides; and invalid if and only if it has another character, an unknown brand, too many digits, or the full number of them with another sum |
| `CardValidator.ValidIff` | Lend/Pods/Stripe/Stripe/STPCardValidator.swift:82-119 | With the built-in table and brand checking the valid inputs in numbers: the sum by position is a multiple of ten and the digits are as many as the first two, or the first six, ask for |
| `CardValidator.OneCharacter` | Lend/Pods/Stripe/Stripe/STPCardValidator.swift:302-311 | The characters removed are the tab and the Unicode spaces, by code point |
| `CardValidator.SpacesApart` | Lend/Pods/Stripe/Stripe/STPCardValidator.swift:302-311 | Spaces are removed character by character |
| `BrandTable.KnownBrand` | Lend/Pods/Stripe/Stripe/STPBINRange.swift:219-263 | The brand of a number of two or more digits follows from the first two as listed, whichever most specific range is found |
| `BrandTable.KnownLength` | Lend/Pods/Stripe/Stripe/STPBINRange.swift:219-263 | The length expected of a number of six or more digits follows from the first two, or from the first six for the short Visa numbers |
| `BinTable.LargestInt` | Lend/Pods/Stripe/Stripe/STPBINRange.swift:152-176 | Of numbers up to 19 digits those up to 9223372036854775807 count as themselves and the others as zero |
| `Luhn.IsValidLuhn` | Lend/Pods/Stripe/Stripe/STPCardValidator.swift:419-441 | The loop over reversed digits accepts exactly the numbers whose weighted sum is divisible by ten |
| `Luhn.TotalIsSum` | Lend/Pods/Stripe/Stripe/STPCardValidator.swift:419-440 | The pass over the reversed digits with its flag adds up, by position, each digit at an even distance from the right and the digit sum of the double of each at an odd distance |
| `Luhn.OneDigitChange` | Lend/Pods/Stripe/Stripe/STPCardValidator.swift:419-441 | Changing one digit of a passing number, of any length, makes it fail |
| `Luhn.AdjacentSwap` | Lend/Pods/Stripe/Stripe/STPCardValidator.swift:419-441 | Swapping two adjacent digits goes unnoticed if and only if they are equal or are 0 and 9 |
| `Luhn.CheckDigit` | Lend/Pods/Stripe/Stripe/STPCardValidator.swift:419-441 | Exactly one check digit completes any string |
| `CacheRuns.CacheSafety` | Lend/Pods/Stripe/Stripe/STPBINRange.swift:94-148 | In every interleaving: no key both pending and retrieved, one request in flight per pending key and none otherwise, no completion run twice |
| `CacheRuns.CacheRanges` | Lend/Pods/Stripe/Stripe/STPBINRange.swift:94-148 | In every interleaving the range list is the built-in table plus the ranges of each retrieved key exactly once |
| `CacheRuns.QuiescentMeansDone` | Lend/Pods/Stripe/Stripe/STPBINRange.swift:94-148 | When the queues are empty and every request was answered, each completion handed in has run exactly once and nothing is pending |
| `CacheRuns.AnsweredCompletionsRun` | Lend/Pods/Stripe/Stripe/STPBINRange.swift:120-144 | Once a response is handled, every completion waiting on its key, those that joined later included, has run with that response after as many turns of the main queue as blocks were ahead, whatever happens in between |
| `CacheRuns.AnswerIsDelivered` | Lend/Pods/Stripe/Stripe/STPBINRange.swift:120-144 | From the answer of the network on, whatever else happens: after a turn of the retrieval queue for each block ahead and for the response, and then of the main queue for each block it held, every completion that waited has run with that answer |
| `CacheRuns.NeverStuck` | Lend/Pods/Stripe/Stripe/STPBINRange.swift:53-60 | While anything is queued or unanswered something can go ahead; in particular the look-up that each retrieval block makes always finds a range |
| `CacheRuns.WorkBounds` | Lend/Pods/Stripe/Stripe/STPBINRange.swift:94-148 | Without new calls only a bounded number of queue turns and responses can follow, in any order |
| `CacheRuns.EveryCallCompletes` | Lend/Pods/Stripe/Stripe/STPBINRange.swift:94-148 | From every reachable state the run leads on, without new calls, to one in which each completion handed in has run exactly once |
| `CacheEffects.RetrieveEffect` | Lend/Pods/Stripe/Stripe/STPBINRange.swift:97-121 | In every reachable state a call's block needs the service if and only if the prefix has six digits, these are not retrieved, and the most specific range of the first five digits is of UnionPay; then it sends a request exactly when the six digits are not pending, and joins the pending one otherwise; else it queues its completion |
| `CacheEffects.AnsweredFromDevice` | Lend/Pods/Stripe/Stripe/STPBINRange.swift:104-111 | A call that does not need the service is answered, after a turn of the main queue for each block ahead and one more, with the ranges that match its whole prefix among those known at that turn |
| `CacheEffects.FirstRequestIff` | Lend/Pods/Stripe/Stripe/STPBINRange.swift:97-121 | Until a response brings ranges, a call sends a request exactly when its prefix has six digits, begins with 62 or 81, and is not pending |
| `CacheEffects.ResponseEffect` | Lend/Pods/Stripe/Stripe/STPBINRange.swift:123-143 | In every reachable state a response's block frees its key and queues the delivery to all that waited; a successful one is remembered and extends the range list, a failed one changes neither |
| `CacheEffects.CallComes` | Lend/Pods/Stripe/Stripe/STPBINRange.swift:94-97 | From a call on, after a turn of the retrieval queue for each block ahead its own block is next, with its prefix and completion |
| `CacheEffects.AnswerComes` | Lend/Pods/Stripe/Stripe/STPBINRange.swift:120-123 | From an answer on, after a turn for each block ahead its response is next, with its ranges |
| `CacheEffects.NextEvents` | Lend/Pods/Stripe/Stripe/STPBINRange.swift:94-148 | Exactly the calls, queue turns and answers that can happen in a reachable state |
| `CacheEffects.MatchingApart` | Lend/Pods/Stripe/Stripe/STPBINRange.swift:41-45 | The ranges a completion receives are those that match, in the order of the range list |
| `BinCache.NextKeeps` | Lend/Pods/Stripe/Stripe/STPBINRange.swift:94-148 | Every call, queue turn, response and delivery keeps the invariant |
| `BinCache.Cache.RunRetrievalQueue` | Lend/Pods/Stripe/Stripe/STPBINRange.swift:97-146 | One block of the retrieval queue takes the branch the source takes and changes the dictionaries as it does |
| `BinCache.Cache.RetrieveBlock` | Lend/Pods/Stripe/Stripe/STPBINRange.swift:97-120 | The block answers from the device, joins a pending request or sends a new one |
| `BinCache.Cache.ResponseBlock` | Lend/Pods/Stripe/Stripe/STPBINRange.swift:123-143 | The block takes the waiting completions, records a successful response and queues the delivery |
| `BinCache.Cache.RunMainQueue` | Lend/Pods/Stripe/Stripe/STPBINRange.swift:108-142 | One block of the main queue runs its completions with the ranges at that moment, or with the response |
| `BinCache.Cache.AnswerRequest` | Lend/Pods/Stripe/Stripe/STPBINRange.swift:120-123 | An answer leaves the network and queues its response block |
| `BinCache.Cache.RetrieveBINRanges` | Lend/Pods/Stripe/Stripe/STPBINRange.swift:94-97 | A call only queues its block |
| `Bucket.MergedConsistent` | Lend/Lend/ViewControllers/MyBucket/MyBucketViewController.swift:108-157 | After the monthly load every stored donate has a row; and there is one row per organisation, each with the id of its stored donate or none, if and only if no row that a saved bucket appends carries a donate id |
| `Bucket.MergedLinked` | Lend/Lend/ViewControllers/MyBucket/MyBucketViewController.swift:108-157 | Whatever a saved bucket brings, after the monthly load there is one row per organisation, and the row of an organisation with a stored donate carries its id |
| `Bucket.ApplySavedIff` | Lend/Lend/ViewControllers/MyBucket/MyBucketViewController.swift:141-148 | Overwriting with a saved bucket keeps one row per organisation with the right donate ids exactly when the saved rows that get appended carry none |
| `Bucket.StaleSavedRow` | Lend/Lend/ViewControllers/MyBucket/MyBucketViewController.swift:141-148 | A row saved, while the load was under way, with the id of a donate that no longer exists, for an organisation outside the cause, enters the table with that id |
| `Bucket.OnceIsMonthly` | Lend/Lend/ViewControllers/MyBucket/MyBucketViewController.swift:123-134 | One-time mode loads no donates, and its table is the monthly one without donates |
| `Bucket.EditsKeep` | Lend/Lend/ViewControllers/MyBucket/MyBucketViewController.swift:265-320 | No sequence of slider, delete and amount actions breaks the link between rows and donates, brings in another id or makes an amount negative |
| `Bucket.HandOver` | Lend/Lend/ViewControllers/MyBucket/MyBucketViewController.swift:206-224 | The confirmation receives the table unchanged in front, every stored donate among its linked rows, and the same total |
| `Bucket.PositiveSumIff` | Lend/Lend/ViewControllers/MyBucket/MyBucketViewController.swift:188-204 | The positive rows alone add up to the total exactly when no row is negative |
| `Bucket.MyBucket.LoadDataCompletionHandler` | Lend/Lend/ViewControllers/MyBucket/MyBucketViewController.swift:100-157 | On success the table is the merge of its mode, one-time or monthly; on failure it is unchanged |
| `Bucket.MyBucket.MergeCauses` | Lend/Lend/ViewControllers/MyBucket/MyBucketViewController.swift:108-121 | The loop gives the rows of the cause, in order, and leaves the donates of other organisations |
| `Bucket.MyBucket.OverwriteWithSaved` | Lend/Lend/ViewControllers/MyBucket/MyBucketViewController.swift:141-148 | Saved rows overwrite amounts by organisation or are appended |
| `Bucket.MyBucket.OnEdit` | Lend/Lend/ViewControllers/MyBucket/MyBucketViewController.swift:265-320 | A user action changes the table and the amount to donate as specified |
| `BucketAmounts.UnsavedTable` | Lend/Lend/ViewControllers/MyBucket/MyBucketViewController.swift:108-140 | Without a saved bucket: the organisations of the cause in its order, each with the amount and id of its stored donate or zero and none, then in monthly mode the other stored donates in theirs; a table of one row takes the amount to donate |
| `BucketAmounts.UnsavedTotal` | Lend/Lend/ViewControllers/MyBucket/MyBucketViewController.swift:108-140 | Without a saved bucket the monthly table adds up to the stored donates, or to the amount to donate when it has one row |
| `BucketAmounts.SavedTable` | Lend/Lend/ViewControllers/MyBucket/MyBucketViewController.swift:141-148 | With a saved bucket each of these rows carries the amount of the last saved row of its organisation, or else its own; behind them come the saved rows of other organisations, one each |
| `BucketAmounts.SavedAmounts` | Lend/Lend/ViewControllers/MyBucket/MyBucketViewController.swift:141-148 | Laying a saved bucket over a table changes only amounts, to the last saved one of the organisation |
| `BucketAmounts.SavedAppends` | Lend/Lend/ViewControllers/MyBucket/MyBucketViewController.swift:141-148 | The saved rows of organisations the table lacks are appended in saved order, with the id of the first and the amount of the last |
| `BucketAmounts.EditEffect` | Lend/Lend/ViewControllers/MyBucket/MyBucketViewController.swift:265-320 | The slider changes one amount, the delete action takes out one row, a new amount to donate sets every row to zero, and nothing else moves |
| `Bucket.MyBucket.UpdateUI` | Lend/Lend/ViewControllers/MyBucket/MyBucketViewController.swift:188-204 | The button is enabled exactly when the rows add up to the amount to donate |
| `Bucket.MyBucket.ShowDonateConfirmation` | Lend/Lend/ViewControllers/MyBucket/MyBucketViewController.swift:206-224 | In monthly mode a row of amount zero is added for each donate whose organisation left the table; in one-time mode the table is passed on |
| `Barrier.FiresOnce` | Lend/Lend/ViewControllers/DonateConfirmation/DonateConfirmationViewController.swift:57-106 | For any order of up to n reports the handler fires exactly at the n-th, once, with success exactly when all succeeded; with n = 0 never |
| `Barrier.Counter.OnCompletion` | Lend/Lend/ViewControllers/DonateConfirmation/DonateConfirmationViewController.swift:67-73 | One completion block updates counter and flag and fires at the total |
| `Reconciliation.MonthlyReconciliation` | Lend/Lend/ViewControllers/DonateConfirmation/DonateConfirmationViewController.swift:54-109 | Load, merge with a cause and with whatever a saved bucket brings, any edits, confirmation with the right sum, all writes answered with success in any order: the handler fired once (never for an empty list); and the loaded donates are now exactly the rows with positive amount, each once, summing to donateAmount, with every other document as it was, if and only if each positive row with an id names a document of its own organisation that no other row deletes. It does when no row the saved bucket appended carries an id |
| `Reconciliation.ConfirmationReconciles` | Lend/Lend/ViewControllers/DonateConfirmation/DonateConfirmationViewController.swift:54-109 | The store part of that, for any table linked to the loaded donates |
| `Reconciliation.MisnamedNotStored` | Lend/Lend/ViewControllers/DonateConfirmation/DonateConfirmationViewController.swift:61-101 | Otherwise, in every order of answers, some row with a positive amount is not stored under its organisation |
| `Reconciliation.ConsistentNamed` | Lend/Lend/ViewControllers/DonateConfirmation/DonateConfirmationViewController.swift:61-101 | Rows that carry only the ids of the loaded donates of their organisations are always well named |
| `Flow.StoreToStore` | Lend/Lend/Common/FirebaseManager.swift:353-374 | From the stored donates through fetching, with any order and failures of the queries, loading, editing and confirming: the store holds exactly the positive rows, and every donate that no row names, such as those a failed query kept back, is as it was |
| `Flow.FetchedLoaded` | Lend/Lend/Common/FirebaseManager.swift:353-374 | What fetchDonates delivers is what the bucket requires of loaded donates: distinct documents of the store, one per organisation |
| `Confirmation.HandlerFiresOnce` | Lend/Lend/ViewControllers/DonateConfirmation/DonateConfirmationViewController.swift:54-109 | For any rows and in every interleaving of loop and answers the handler fires exactly when every row is dealt with, once, with success exactly when no write failed, and never for an empty list |
| `Reconciliation.PositiveStored` | Lend/Lend/ViewControllers/DonateConfirmation/DonateConfirmationViewController.swift:61-101 | Every row with a positive amount that names no foreign document ends up stored with its amount and organisation |
| `Reconciliation.HomesDiffer` | Lend/Lend/ViewControllers/DonateConfirmation/DonateConfirmationViewController.swift:61-101 | Different rows end up in different documents |
| `Reconciliation.NothingElse` | Lend/Lend/ViewControllers/DonateConfirmation/DonateConfirmationViewController.swift:61-101 | Every stored document belongs to a row with a positive amount, or was never loaded and is unchanged |
| `Confirmation.NextKeeps` | Lend/Lend/ViewControllers/DonateConfirmation/DonateConfirmationViewController.swift:60-108 | In every reachable state, failures included, the store is the initial one with exactly the succeeded writes done, as long as no two rows carry the same id unless both delete it |
| `Confirmation.Confirm.IssueNext` | Lend/Lend/ViewControllers/DonateConfirmation/DonateConfirmationViewController.swift:60-108 | One turn of the loop issues a write, or counts a row that needs none |
| `Confirmation.Confirm.OnAnswer` | Lend/Lend/ViewControllers/DonateConfirmation/DonateConfirmationViewController.swift:64-100 | A successful answer edits, deletes or adds exactly its document; every answer is counted |
| `Confirmation.Confirm.TakeEffect` | Lend/Lend/ViewControllers/DonateConfirmation/DonateConfirmationViewController.swift:62-90 | A positive amount is merged into the row's document, another deletes it, and a row without a donate gets a new document |
| `OneTime.PaymentsRecorded` | Lend/Lend/ViewControllers/DonateConfirmation/DonateConfirmationViewController.swift:141-177 | The handler fires once after the last of rows and tips has answered; without failures the history gains, for each organisation and amount, one record per row with these and one for the tips if there are any |
| `Organisations.ChunkedPartition` | Lend/Lend/Common/Extensions/Array.swift:10-16 | Chunks in order make up the list, all full except perhaps the last, none empty |
| `Organisations.FetchCompletes` | Lend/Lend/Common/FirebaseManager.swift:387-409 | For every order of the id set and of the responses, whichever queries fail and also for no ids, the completion runs exactly once, at the last response, with the existing organisations among the ids whose chunk query succeeded |
| `Organisations.CompleteIff` | Lend/Lend/Common/FirebaseManager.swift:387-409 | When all queries have answered, the completion gets every existing organisation among the ids if and only if each of them lies in a chunk whose query succeeded |
| `Organisations.CannotTell` | Lend/Lend/Common/FirebaseManager.swift:398-406 | The completion sees what it would see without any failure on a collection that lacks the organisations of the failed chunks |
| `Organisations.FailureLosesOrganisation` | Lend/Lend/Common/FirebaseManager.swift:398-406 | One failing query: an existing organisation is asked for and the completion receives nothing |
| `Organisations.FetchInvariant` | Lend/Lend/Common/FirebaseManager.swift:392-408 | After any number of responses the result holds what they brought and the completion has run only at the last |
| `Organisations.ResultInOrder` | Lend/Lend/Common/FirebaseManager.swift:398-406 | The result is the documents of the responses in the order in which these came |
| `Organisations.FetchDonates` | Lend/Lend/Common/FirebaseManager.swift:353-374 | For every order of ids and responses, whichever queries fail, the donates delivered are, in stored order, those whose organisation exists and lies in a chunk whose query succeeded |
| `Organisations.DonatesCompleteIff` | Lend/Lend/Common/FirebaseManager.swift:353-374 | fetchDonates drops none of the donates whose organisation exists if and only if each such organisation lies in a chunk whose query succeeded |
| `Organisations.JoinDonates` | Lend/Lend/Common/FirebaseManager.swift:360-371 | Indexing by id and filtering gives the donates whose organisation exists, in stored order |
| `Organisations.OrganisationFetch.Snapshot` | Lend/Lend/Common/FirebaseManager.swift:398-406 | One response adds its documents and, being the last, runs the completion |

## Left out

- nanopb callback fields, custom stream callbacks and extension fields: user code behind function pointers.
- nanopb pointer fields, allocate_field and pb_release: the build enables malloc, so that decode_field releases the old member of a union and a failed pb_decode releases the message; neither changes static fields with a which_ member that names a field.
- pb_encode_nullterminated and pb_decode_nullterminated: the zero tag itself is modelled.
- Error messages: only success and failure are kept.
- Aliasing: messages are values; addresses appear in the field iterator and its table only.
- The destination after a failed decode, and the stream's position after it.
- A fixed-count array, the bytes past a string's terminator, and unused array entries hold in C whatever memory held before; the model starts fixed-count arrays from zero values and keeps only received entries elsewhere.
- A value of the wrong C type has no encoding in the model; in C the descriptor types the struct, and this cannot arise.
- A oneof whose which_ member names none of its fields: the encoder writes nothing for it; the model has at most one active member and no such tag.
- Overflow of size_t on the encoder side: the encoder's methods require that every length and count fits 64 bits, as any message in memory does.
- CardValidator.ValidationState: Swift's sort leaves the order of ties open; the range looked up is some most specific one, and the lemmas hold for every choice.
- BinRange.MonotoneIff: bounds of at most 19 digits, the longest a card number is (`Lend/Pods/Stripe/Stripe/STPBINRange.swift:307`).
- Metadata analytics of the validator and the decoding of metadata responses; an answer is any list of ranges or none.
- The paths that skip loading the bucket (`Lend/Lend/ViewControllers/MyBucket/MyBucketViewController.swift:61-64`).
- Reconciliation.MonthlyReconciliation: documents of the collection that were not loaded, because their organisation is gone, stay as they are and are outside the sum; amounts are assumed not to be negative, since the slider cell is not part of this model.
- fetchDonateRefs, Firestore, Stripe and Apple Pay calls: each is a step that answers once with success or failure.
- Weak references: a view controller that disappears while writes are open.
- Tips of the monthly flow, the update of the default donate amount, and the screens that follow.
- Other view controllers, coordinator, themes, cells, and the remaining pods: user interface, tables and plumbing.
