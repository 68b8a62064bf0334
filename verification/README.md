# Verified models of the account-deletion app's core logic

The app deletes a user's account and data from Firebase. Most of what can go wrong in it lives in the libraries it
ships with. This project models, in Dafny, the parts that carry real logic, and proves what they promise:

- **nanopb**, the protocol buffer codec: `Bits`, `Varint`, `PbInput` (input streams), `Descriptor` (field tables and
  structs), `FieldIterator`, `Encoding` and `Decoding` (what the bytes mean), `Encoder` and `Decoder` (the streams and
  loops, proved to compute exactly that), `Unclosed` (where a failure leaves the stream), `Merge`, `RecordOrder`,
  `RepeatedSingular`, `RequiredRecords`, `Packed`, `RoundTrip`, `MessageRoundTrip`, `Reencoding`, `Redecoding`,
  `WireFormat` (what the bytes mean to others), `PointerArray` and `Limits` (inputs where a law stops).
  The build settings of the pod are followed: 32-bit `pb_size_t`, 64-bit integers, heap allocation on.
- **Alamofire's `AuthenticationInterceptor`**: `Interceptor` is the protocol as steps over an explicit history,
  `RefreshProtocol` what its callers can rely on, `Authentication` the class whose methods perform the steps in place.
- **Alamofire's `MultipartFormData`**: `MultipartFraming` holds the two ways of writing a body and an independent reader,
  `MultipartFormData` the classes with streams that read and write in pieces of arbitrary size.
- **Alamofire's `DataStreamRequest`**: `StreamGate`, `StreamHistory` and `DataStreamRequest`, the gate that holds
  completions back until all data have been handled.
- **The app's own delete service**: `DeleteProtocol`, `DeleteRuns` (judged by the answers alone) and
  `FirebaseDeleteService`, the two-level fan-out with dispatch groups.

`Occurrences` counts where a closure is. The three protocols are state machines with one step per critical section,
dispatched block or callback; a run is any sequence of enabled steps, so a statement about all runs covers every
interleaving. Clock readings, answers of the network and of the authenticator, the heap's refusals and the sizes of
partial reads and writes are parameters or arbitrary choices.

## What the proofs brought to light

- nanopb encodes a string that fills its buffer (`pb_encode.c:875-899`), but `pb_dec_string` rejects the result because it
  needs room for the terminator (`pb_decode.c:1481-1517`). `MessageRoundTrip.RoundTripExactly` says exactly which
  messages do not come back.
- A zero in an optional field without has-flag is not written and comes back as the field's explicit default, if it has
  one (`RoundTrip.PlainFieldComesBack`, `Limits.HiddenDefaultComesBack`).
- Concatenating messages merges them (`pb_decode.h:74-75`) unless the second goes back to the fixed-count array the first
  ended with (`Merge.ConcatenationIsMerge`, `Limits.FixedCountsDoNotMerge`).
- The 32-bit varint decoder also accepts some ten-byte varints that are no sign-extended 32-bit number
  (`Varint.Varint32RoundTrip`, `Limits.FastPathAcceptsMore`).
- A packed block of which something is left when its loop stops, because the array is full or an item is bad, is not
  closed (`pb_decode.c:447-448`), and the stream then ends earlier by the whole block. Every other failure keeps offset
  plus bytes left (`Decoder.DecodeElems`, `Decoder.DecodeNoinit`, `Limits.BadItemLosesBlock`).
- On an empty field table, tag 0 matches the terminator entry (`Merge.ZeroTagOnEmptyTable`).
- `writeEncodedData` ends without an error when the output has no space left, leaving a truncated file, and does not
  compare delivered with declared lengths as `encode` does (`MultipartFormData.WrittenIsEncoded`,
  `MultipartFormData.TruncationIsSilent`, `MultipartFormData.ShortStreamIsNoticedInMemory`).
- A form without parts is encoded as no bytes at all, which is not a multipart body (`MultipartFraming.FormRoundTrip`).
- `delete` never reports success for a user without aquariums, ignores failed removals of devices, and never invalidates
  its timer, so that every success is accompanied by a timeout (`DeleteProtocol.SuccessExactly`,
  `DeleteProtocol.NoAquariumsNoSuccess`, `DeleteProtocol.SuccessMeansGoneExactly`, `DeleteProtocol.TimeoutAfterSuccess`).

## Model

| member | source | states |
|---|---|---|
| `MessageRoundTrip.RoundTripExactly` | DeleteUserDataFirebase/Pods/nanopb/pb_encode.c:341-426 | for every nested table of static fields and every typed message, decoding the encoded bytes gives the message back with nothing left over if every string leaves room for its terminator and every length prefix is below 2^32, and fails otherwise; what a false has-flag or an unset union hides, and a zero that is not written, comes back as its default |
| `MessageRoundTrip.MsgRoundTrip` | DeleteUserDataFirebase/Pods/nanopb/pb_decode.c:928-1090 | the same for decoding into an initialised struct, as the induction over nested tables needs it |
| `MessageRoundTrip.FieldsRoundTrip` | DeleteUserDataFirebase/Pods/nanopb/pb_encode.c:528-550 | decoding the first n encoded fields from the initial state reaches exactly the state in which those n slots are final, or fails if one does not fit |
| `MessageRoundTrip.FieldRoundTrip` | DeleteUserDataFirebase/Pods/nanopb/pb_encode.c:341-426 | one field of any kind, present or absent, alone, in a union or repeated, moves the decoder from the state before it to the state after it |
| `MessageRoundTrip.ItemsRoundTrip` | DeleteUserDataFirebase/Pods/nanopb/pb_encode.c:206-233 | decoding one tagged record per item into an array that has received nothing yet receives exactly these items, and fails exactly when one of them does not fit |
| `MessageRoundTrip.PackedFieldRoundTrip` | DeleteUserDataFirebase/Pods/nanopb/pb_encode.c:162-205 | a packed block written by the encoder is received as exactly its items, or rejected when the block reaches 2^32 bytes |
| `MessageRoundTrip.ValueRoundTrip` | DeleteUserDataFirebase/Pods/nanopb/pb_decode.c:1519-1541 | a value, scalar or nested message, is decoded from its encoding and leaves the bytes behind it untouched |
| `RoundTrip.ScalarRoundTrip` | DeleteUserDataFirebase/Pods/nanopb/pb_decode.c:1328-1564 | every scalar kind is decoded from its encoding, except a string without room for its terminator, which is rejected |
| `RoundTrip.ZeroIsInit` | DeleteUserDataFirebase/Pods/nanopb/pb_encode.c:240-337 | a value skipped as a proto3 default, nested messages included, is the value the decoder initialises the field to, unless a scalar has an explicit default |
| `RoundTrip.PlainFieldComesBack` | DeleteUserDataFirebase/Pods/nanopb/pb_encode.c:240-337 | a field without has-flag comes back as it was exactly when it is required, or not zero, or holds its default; without an explicit default it always does |
| `Limits.HiddenDefaultComesBack` | DeleteUserDataFirebase/Pods/nanopb/pb_decode.c:839-909 | a concrete message whose zero comes back as the explicit default 5, and is then written |
| `Reencoding.ReencodesExactly` | DeleteUserDataFirebase/Pods/nanopb/pb_encode.c:240-426 | encoding the decoded form of an encoded message gives the same bytes if and only if no skipped zero comes back as something that is written; otherwise more bytes, or none |
| `Reencoding.EncCanonMsg` | DeleteUserDataFirebase/Pods/nanopb/pb_encode.c:528-550 | the same between a message and its canonical form, at every nesting level |
| `Reencoding.QuietMsg` | DeleteUserDataFirebase/Pods/nanopb/pb_encode.c:240-337 | with no explicit default but zeros where there is no has-flag, this holds of every message |
| `Redecoding.DecodedComesBack` | DeleteUserDataFirebase/Pods/nanopb/pb_decode.c:1078-1090 | whatever bytes a message was decoded from, it can be encoded, in the stated number of bytes, unless these reach 2^64; and if they stay below 2^32 they decode to the same message again, up to hidden parts; the default strings and bytes of the table must fit their fields |
| `Redecoding.RoomDecNoinit` | DeleteUserDataFirebase/Pods/nanopb/pb_decode.c:1441-1517 | decoding keeps room for the terminator of every string, the size of every bytes field and the count of every array, in nested structs too |
| `Redecoding.FitsRoomMsg` | DeleteUserDataFirebase/Pods/nanopb/pb_encode.c:875-899 | a message whose strings leave room and whose encoding is shorter than 2^32 bytes is one that comes back |
| `Redecoding.MsgEncodes` | DeleteUserDataFirebase/Pods/nanopb/pb_encode.c:528-550 | a struct with such room has an encoding, of exactly the computed size, unless that reaches 2^64 |
| `Limits.FullStringIsNotDecoded` | DeleteUserDataFirebase/Pods/nanopb/pb_decode.c:1481-1517 | a concrete message that is encoded but whose encoding is rejected: the string fills its buffer |
| `Merge.ConcatenationIsMerge` | DeleteUserDataFirebase/Pods/nanopb/pb_decode.c:928-1076 | when a decodes without a terminator and b then decodes into the result, decoding a ++ b gives the same if and only if b does not go back to the fixed-count array (of nonzero size) that a ended with, and fails otherwise; without required fields the two agree on failure as well |
| `Merge.SeamAgrees` | DeleteUserDataFirebase/Pods/nanopb/pb_decode.c:991-1013 | a full fixed-count array left over from before makes no difference to input whose first fixed-count record is of another array |
| `Merge.SeamBreaks` | DeleteUserDataFirebase/Pods/nanopb/pb_decode.c:991-1013 | input that fills an array from the start is rejected when that array is full already |
| `Merge.RecordEndAgrees` | DeleteUserDataFirebase/Pods/nanopb/pb_decode.c:406-483 | where a record ends is told by its bytes and the table alone |
| `Merge.DecFieldsAppend` | DeleteUserDataFirebase/Pods/nanopb/pb_decode.c:928-1024 | the field loop on a ++ b stops where it stopped on a if it met a terminator, and otherwise continues on b from the state a left |
| `Limits.FixedCountsDoNotMerge` | DeleteUserDataFirebase/Pods/nanopb/pb_decode.c:991-1013 | a concrete table and two messages that decode one after the other but not concatenated: a full fixed-count array takes no further item |
| `Merge.UnknownFieldIsTransparent` | DeleteUserDataFirebase/Pods/nanopb/pb_decode.c:960-989 | a field with any spelling of a tag outside the table and any well-formed payload may stand between two fields without changing the decoded struct, the bytes left, or success; on a nonempty table this includes tag 0 with a nonzero wire type |
| `RecordOrder.RecordsCommute` | DeleteUserDataFirebase/Pods/nanopb/pb_decode.c:928-1024 | two complete records of fields with different storage, not both fixed-count arrays, may be swapped wherever they stand: the decoder reaches the same state or fails either way |
| `RecordOrder.RecordLocal` | DeleteUserDataFirebase/Pods/nanopb/pb_decode.c:406-483 | a complete record does the same, or fails the same, whatever follows it |
| `RecordOrder.Frame` | DeleteUserDataFirebase/Pods/nanopb/pb_decode.c:406-483 | a record looks at and changes only the storage of its own field |
| `Merge.ZeroTagOnEmptyTable` | DeleteUserDataFirebase/Pods/nanopb/pb_decode.c:960-989 | on an empty table the iterator rests on the terminator entry: a record with tag 0 is read as one varint whatever its wire type |
| `Merge.TagRoundTrip` | DeleteUserDataFirebase/Pods/nanopb/pb_encode.c:669-673 | a tag is decoded from its encoding for all tags and wire types |
| `RepeatedSingular.SubmessagesMerge` | DeleteUserDataFirebase/Pods/nanopb/pb_decode.c:416-422 | two records of a singular submessage equal one record with both bodies, when the first body decodes without a terminator and the second then decodes into the result, exactly when the second does not go back to the fixed-count array the first ended with |
| `RepeatedSingular.LastOneWins` | DeleteUserDataFirebase/Pods/nanopb/pb_decode.c:416-422 | of two records of a singular field that is no submessage the last one wins |
| `RepeatedSingular.UnionSwitches` | DeleteUserDataFirebase/Pods/nanopb/pb_decode.c:466-478 | a record of another union member starts from that member's defaults, and the union then holds that member |
| `WireFormat.ForeignMessageSkipped` | DeleteUserDataFirebase/Pods/nanopb/pb_encode.c:675-707 | whatever is encoded, a reader that knows none of its tags passes over it to the last byte with its struct unchanged: every record carries the wire type of its payload |
| `WireFormat.ValueSkipped` | DeleteUserDataFirebase/Pods/nanopb/pb_encode.c:675-707 | the payload written for any field is skipped whole by the wire type in its tag |
| `WireFormat.SkipWidths` | DeleteUserDataFirebase/Pods/nanopb/pb_decode.c:321-331 | wire type 1 skips eight bytes, 5 four, 2 a length prefix and that many, 0 up to the first byte below 128, and no other type can be skipped |
| `WireFormat.TagOnWire` | DeleteUserDataFirebase/Pods/nanopb/pb_encode.c:669-673 | a tag is one varint of eight times the field number plus the wire type |
| `WireFormat.PackedIsOneRecord` | DeleteUserDataFirebase/Pods/nanopb/pb_encode.c:162-205 | a nonempty packable array is written as a single record of wire type 2 |
| `WireFormat.NumberOnWire` | DeleteUserDataFirebase/Pods/nanopb/pb_encode.c:776-833 | a 64-bit reader finds the number itself, sign-extended if negative, or its zigzag code |
| `WireFormat.LittleEndianByte` | DeleteUserDataFirebase/Pods/nanopb/pb_encode.c:641-667 | byte k of a fixed-size number is its k-th least significant byte |
| `WireFormat.NumberAccepted` | DeleteUserDataFirebase/Pods/nanopb/pb_decode.c:1339-1422 | a number is accepted exactly when the bytes of the field can hold it, as unsigned, zigzag or signed number, the latter cut to 32 bits in fields of up to four bytes |
| `WireFormat.BoolAccepted` | DeleteUserDataFirebase/Pods/nanopb/pb_decode.c:1328-1337 | every varint but zero is true |
| `WireFormat.StringCutAtZero` | DeleteUserDataFirebase/Pods/nanopb/pb_decode.c:1481-1517 | a string ends at its first zero byte |
| `WireFormat.FixedLengthBytes` | DeleteUserDataFirebase/Pods/nanopb/pb_decode.c:1543-1564 | fixed-length bytes of length zero are zeros, and any other wrong length is rejected |
| `WireFormat.TerminatorEnds` | DeleteUserDataFirebase/Pods/nanopb/pb_decode.c:298-319 | a zero byte where a tag is due ends the message and leaves the rest unread |
| `WireFormat.DefaultMessageIsEmpty` | DeleteUserDataFirebase/Pods/nanopb/pb_encode.c:240-337 | a message in its initial state takes no bytes, when nothing of its table has to be written |
| `RequiredRecords.AcceptedExactly` | DeleteUserDataFirebase/Pods/nanopb/pb_decode.c:1026-1075 | once its fields have been decoded, a message is accepted if and only if no fixed-count array is left half full and the input holds a record of each of the first 64 required fields |
| `RequiredRecords.SeenMeansHeld` | DeleteUserDataFirebase/Pods/nanopb/pb_decode.c:1015-1020 | the loop has seen a required field exactly when the input holds a record of it |
| `Packed.PackedEqualsUnpacked` | DeleteUserDataFirebase/Pods/nanopb/pb_decode.c:424-464 | from the same state, one packed block and one record per item leave the same decoder state, with the items appended to what was received and no other field touched, and both fail exactly when the array would overflow or another fixed-count array is not full |
| `Packed.EmptyBlockIsNothing` | DeleteUserDataFirebase/Pods/nanopb/pb_decode.c:424-453 | an empty packed block equals no record at all, except that it starts the count of a fixed-count array |
| `Packed.DecPackedAll` | DeleteUserDataFirebase/Pods/nanopb/pb_decode.c:436-448 | a block that spells a list of items is decoded to that list behind the items so far, or rejected when it exceeds the limit |
| `Varint.VarintRoundTrip` | DeleteUserDataFirebase/Pods/nanopb/pb_encode.c:608-628 | decoding an encoded uint64 gives it back, consumes exactly the bytes written, and these are 1 to 10 |
| `Varint.EncVarintMinimal` | DeleteUserDataFirebase/Pods/nanopb/pb_encode.c:608-628 | no varint that spells the same number is shorter than the encoder's |
| `Varint.EncVarintLength` | DeleteUserDataFirebase/Pods/nanopb/pb_encode.c:608-628 | a value takes at most n bytes exactly when it fits in 7n bits |
| `Varint.FastPathRefines` | DeleteUserDataFirebase/Pods/nanopb/pb_decode.c:187-253 | a varint the 32-bit decoder accepts ends at its first byte without continuation bit; the 64-bit decoder accepts it exactly when it has at most ten bytes, then consumes the same bytes, and the 32-bit result is the 64-bit result mod 2^32 |
| `Varint.Varint32RoundTrip` | DeleteUserDataFirebase/Pods/nanopb/pb_decode.c:187-253 | for every uint64, its encoding is accepted by the 32-bit decoder exactly when it is below 2^32, or has ten bytes, bit 31 set and bits 35 to 62 in groups of seven equal bits; the result is its low 32 bits; below 2^63 only 32-bit values pass |
| `Limits.FastPathAcceptsMore` | DeleteUserDataFirebase/Pods/nanopb/pb_decode.c:221-230 | the varint of 2^63 + 2^31 passes the 32-bit decoder as 2^31 |
| `Varint.NegativeVarint32RoundTrip` | DeleteUserDataFirebase/Pods/nanopb/pb_decode.c:221-230 | the ten-byte encoding of a negative int32 is accepted and yields its low 32 bits |
| `Varint.StepKeeps64` | DeleteUserDataFirebase/Pods/nanopb/pb_decode.c:255-275 | or-ing one more group into a 64-bit word keeps it equal to the number spelled so far mod 2^64 |
| `Varint.ZigZagValue` | DeleteUserDataFirebase/Pods/nanopb/pb_encode.c:630-639 | the shift-and-complement of the encoder is the zigzag numbering of the integers |
| `Varint.ZigZagRoundTrip` | DeleteUserDataFirebase/Pods/nanopb/pb_decode.c:1279-1291 | decoding an encoded signed varint gives back every int64, the minimum included |
| `Varint.UnZigZagRoundTrip` | DeleteUserDataFirebase/Pods/nanopb/pb_decode.c:1279-1291 | every 64-bit word is the zigzag code of the integer it decodes to |
| `PbInput.IStream.ReadByte` | DeleteUserDataFirebase/Pods/nanopb/pb_decode.c:141-157 | delivers the first remaining byte, and fails exactly at the end; offset plus bytes left is constant |
| `PbInput.IStream.Read` | DeleteUserDataFirebase/Pods/nanopb/pb_decode.c:102-137 | takes the requested bytes off the front, or fails and leaves the stream as it was |
| `PbInput.IStream.DecodeVarint` | DeleteUserDataFirebase/Pods/nanopb/pb_decode.c:255-275 | the loop with its shifts and ors computes the reference decoding of the remaining bytes; a failure consumes ten bytes, or all if there are fewer |
| `PbInput.IStream.DecodeVarint32` | DeleteUserDataFirebase/Pods/nanopb/pb_decode.c:187-253 | the loop, with its one-byte shortcut, sign-extension test and 8-bit bit position, computes the 32-bit decoding, and a failure stops right behind the byte it rejects |
| `PbInput.IStream.DecodeTag` | DeleteUserDataFirebase/Pods/nanopb/pb_decode.c:298-319 | the tag, the end of input or the zero terminator, or an error, as the reference decoding says |
| `PbInput.IStream.SkipField` | DeleteUserDataFirebase/Pods/nanopb/pb_decode.c:321-331 | consumes exactly the payload of the given wire type, or fails on a malformed payload or unknown wire type |
| `PbInput.IStream.SkipVarintBytes` | DeleteUserDataFirebase/Pods/nanopb/pb_decode.c:278-287 | consumes bytes up to and including the first without continuation bit |
| `PbInput.SkipAppend` | DeleteUserDataFirebase/Pods/nanopb/pb_decode.c:278-331 | what skipping consumes does not depend on the bytes behind the payload |
| `PbInput.IStream.MakeSubstream` | DeleteUserDataFirebase/Pods/nanopb/pb_decode.c:372-385 | the substream delivers exactly the block, and the parent keeps exactly the bytes behind it; a failed opening keeps offset plus bytes left |
| `PbInput.IStream.CloseSubstream` | DeleteUserDataFirebase/Pods/nanopb/pb_decode.c:387-400 | the parent ends up just behind the block, however little of it was read |
| `PbInput.Run` | DeleteUserDataFirebase/Pods/nanopb/pb_decode.c:102-400 | any program of reads, varints, tags, skips and blocks nested to any depth, its failures included, keeps offset plus bytes left |
| `PbInput.RunBlock` | DeleteUserDataFirebase/Pods/nanopb/pb_decode.c:372-400 | an opened and closed block leaves the parent just behind prefix and block whatever is done inside; if it cannot be opened, offset plus bytes left is kept |
| `FieldIterator.FieldIter.Begin` | DeleteUserDataFirebase/Pods/nanopb/pb_common.c:8-18 | the iterator starts at the first field with the offsets and required index that belong to it |
| `FieldIterator.FieldIter.Next` | DeleteUserDataFirebase/Pods/nanopb/pb_common.c:20-76 | advances by one and wraps at the end; offsets and required index stay functions of the position alone |
| `FieldIterator.FieldIter.Find` | DeleteUserDataFirebase/Pods/nanopb/pb_common.c:78-95 | stops within one lap at the first match behind the start; succeeds exactly when some field that is not an extension has the tag, and otherwise returns to the start |
| `FieldIterator.FullLap` | DeleteUserDataFirebase/Pods/nanopb/pb_common.c:78-95 | coming back to the start without a match means that no field matches |
| `FieldIterator.FieldsDisjoint` | DeleteUserDataFirebase/Pods/nanopb/pb_common.c:41-73 | a field outside a union lies before everything that follows it in the struct |
| `FieldIterator.ElementsInside` | DeleteUserDataFirebase/Pods/nanopb/pb_common.c:51-73 | no element of a static array, and no other field outside a union, reaches into a field that follows it; a pointer takes eight bytes |
| `FieldIterator.UnionShares` | DeleteUserDataFirebase/Pods/nanopb/pb_common.c:44-50 | members of a union have the same data and size offsets |
| `FieldIterator.RequiredStrict` | DeleteUserDataFirebase/Pods/nanopb/pb_common.c:65-70 | two required fields have different required indices, in table order |
| `Descriptor.InitMsgTyped` | DeleteUserDataFirebase/Pods/nanopb/pb_decode.c:839-922 | the defaults the decoder starts from form a well-typed struct |
| `Encoder.VarintBytes` | DeleteUserDataFirebase/Pods/nanopb/pb_encode.c:608-628 | the loop that fills the scratch buffer produces the reference encoding |
| `Encoder.OStream.FromBuffer` | DeleteUserDataFirebase/Pods/nanopb/pb_encode.c:86-101 | an empty stream over the buffer |
| `Encoder.OStream.Write` | DeleteUserDataFirebase/Pods/nanopb/pb_encode.c:103-126 | appends the bytes, or fails exactly when they exceed the maximal size; a sizing stream accepts everything |
| `Encoder.OStream.Store` | DeleteUserDataFirebase/Pods/nanopb/pb_encode.c:74-84 | copies the bytes behind what is already in the buffer and changes nothing before them |
| `Encoder.OStream.WriteVarint` | DeleteUserDataFirebase/Pods/nanopb/pb_encode.c:608-628 | appends the encoding of the value if it fits |
| `Encoder.WriteDelimited` | DeleteUserDataFirebase/Pods/nanopb/pb_encode.c:709-715 | appends length prefix and bytes if both fit |
| `Encoder.EncodeScalar` | DeleteUserDataFirebase/Pods/nanopb/pb_encode.c:769-899 | appends the scalar's encoding, and succeeds exactly when there is one and it fits |
| `Encoder.EncodeValue` | DeleteUserDataFirebase/Pods/nanopb/pb_encode.c:901-907 | the same for scalars and submessages |
| `Encoder.EncodeSubmessage` | DeleteUserDataFirebase/Pods/nanopb/pb_encode.c:717-765 | on buffer and sizing streams alike, appends prefix and body if they fit; "submsg size changed" is never reported |
| `Encoder.EncodeWithin` | DeleteUserDataFirebase/Pods/nanopb/pb_encode.c:737-765 | the second pass into the substream always succeeds and writes exactly the size the sizing pass found |
| `Encoder.EncodeItems` | DeleteUserDataFirebase/Pods/nanopb/pb_encode.c:206-233 | appends one record per item, in order |
| `Encoder.EncodeArray` | DeleteUserDataFirebase/Pods/nanopb/pb_encode.c:147-236 | appends a packed block with exact length prefix, or one record per item |
| `Encoder.PackedSize` | DeleteUserDataFirebase/Pods/nanopb/pb_encode.c:166-187 | the computed or sized length of a packed block is the length of the bytes written for it |
| `Encoder.EncodeField` | DeleteUserDataFirebase/Pods/nanopb/pb_encode.c:341-426 | appends the field if it is present: has-flag, union selector, proto3 default and count decide |
| `Encoder.EncodeMessage` | DeleteUserDataFirebase/Pods/nanopb/pb_encode.c:528-550 | appends all present fields in table order, and succeeds exactly when all can be encoded and fit |
| `Encoder.EncodedSize` | DeleteUserDataFirebase/Pods/nanopb/pb_encode.c:567-576 | returns the exact number of bytes the message takes, and fails exactly when it cannot be encoded |
| `Encoder.EncodeToBuffer` | DeleteUserDataFirebase/Pods/nanopb/pb_encode.c:528-550 | the buffer holds exactly the encoding; success exactly when the message can be encoded and fits |
| `Encoding.PackedItemsSize` | DeleteUserDataFirebase/Pods/nanopb/pb_encode.c:176-187 | packed items can always be encoded, in at most ten bytes each |
| `Encoding.FixedItemsSize` | DeleteUserDataFirebase/Pods/nanopb/pb_encode.c:168-175 | fixed-size items take exactly four or eight bytes each, so the product the encoder writes as prefix is exact |
| `Decoder.DecodeSized` | DeleteUserDataFirebase/Pods/nanopb/pb_decode.c:1441-1564 | bytes, strings and fixed-length bytes: accepts and returns what the reference decoding does |
| `Decoder.DecodeScalar` | DeleteUserDataFirebase/Pods/nanopb/pb_decode.c:1328-1564 | every scalar kind, with the range checks of narrow integers; a failed packable item leaves exactly the stated number of bytes |
| `Decoder.DecodeValue` | DeleteUserDataFirebase/Pods/nanopb/pb_decode.c:1519-1541 | a scalar or a submessage decoded in a substream that is closed in any case; the stream then ends earlier by exactly what the submessage lost, which is nothing on success |
| `Decoder.DecodePacked` | DeleteUserDataFirebase/Pods/nanopb/pb_decode.c:436-448 | reads items until the block or the array is exhausted or an item is bad, succeeds exactly when the block is used up, and leaves exactly the stated number of bytes otherwise |
| `Decoder.DecodeElems` | DeleteUserDataFirebase/Pods/nanopb/pb_decode.c:424-464 | one record of a repeated field, packed or single; on failure the stream ends earlier by the whole block exactly when a packed block has bytes left as its loop stops |
| `Decoder.DecodeRepeated` | DeleteUserDataFirebase/Pods/nanopb/pb_decode.c:991-1013 | the same with the bookkeeping of fixed-count arrays |
| `Decoder.DecodeSingle` | DeleteUserDataFirebase/Pods/nanopb/pb_decode.c:406-483 | a required, optional or union field, selecting and resetting the union member |
| `Decoder.DecodeRecord` | DeleteUserDataFirebase/Pods/nanopb/pb_decode.c:960-1023 | looks the field up with the iterator, skips unknown ones, and records required ones in the bitmap |
| `Decoder.MarkSeen` | DeleteUserDataFirebase/Pods/nanopb/pb_decode.c:1015-1020 | sets exactly the bit of one required field |
| `Decoder.WordTest` | DeleteUserDataFirebase/Pods/nanopb/pb_decode.c:1056-1071 | a word equals the mask of its low r bits exactly when these r required fields were seen |
| `Decoder.CountRequired` | DeleteUserDataFirebase/Pods/nanopb/pb_decode.c:1033-1049 | walking the iterator to the end of the table counts its required fields, the last one included |
| `Decoder.AllRequiredSeen` | DeleteUserDataFirebase/Pods/nanopb/pb_decode.c:1033-1073 | the final test passes exactly when each of the first 64 required fields was seen |
| `Decoder.Finish` | DeleteUserDataFirebase/Pods/nanopb/pb_decode.c:1026-1075 | decoding succeeds exactly when the last fixed-count array is full and the required fields were seen |
| `Decoder.DecodeNoinit` | DeleteUserDataFirebase/Pods/nanopb/pb_decode.c:928-1076 | the field loop with iterator, bitmap and fixed-count state computes the reference decoding; the stream ends earlier by exactly the packed block that was left open, at any nesting level, and not at all on success |
| `Decoder.DecodeMessage` | DeleteUserDataFirebase/Pods/nanopb/pb_decode.c:1078-1090 | decoding from defaults computes the reference decoding of the remaining bytes, with the same account of the stream |
| `Unclosed.NothingLost` | DeleteUserDataFirebase/Pods/nanopb/pb_decode.c:447-452 | a message that decodes leaves no packed block open |
| `Unclosed.ElemsKept` | DeleteUserDataFirebase/Pods/nanopb/pb_decode.c:424-464 | a record of a repeated field that decodes, packed or not, nested messages included, loses nothing |
| `Unclosed.PackedUsedUp` | DeleteUserDataFirebase/Pods/nanopb/pb_decode.c:436-448 | a packed block that decodes is used up |
| `Limits.BadItemLosesBlock` | DeleteUserDataFirebase/Pods/nanopb/pb_decode.c:436-448 | a concrete block of three bytes whose first item does not fit: decoding fails and the stream loses three bytes |
| `Limits.OverflowLosesBlock` | DeleteUserDataFirebase/Pods/nanopb/pb_decode.c:436-448 | a concrete block for an array without room: decoding fails and the stream loses the block |
| `Limits.TruncatedItemKeepsStream` | DeleteUserDataFirebase/Pods/nanopb/pb_decode.c:436-452 | a concrete block that ends inside an item: decoding fails, but the block is closed and nothing is lost |
| `PointerArray.GuardAllocation` | DeleteUserDataFirebase/Pods/nanopb/pb_decode.c:490-518 | the quick test with the square-root bound and the division admits a request exactly when it is nonempty and entries times size fits size_t |
| `PointerArray.QuotientBound` | DeleteUserDataFirebase/Pods/nanopb/pb_decode.c:507-518 | the overflow test by division is exact |
| `PointerArray.Reallocate` | DeleteUserDataFirebase/Pods/nanopb/pb_decode.c:490-533 | a granted request yields a block of the requested length that starts with the old contents |
| `PointerArray.NextReserve` | DeleteUserDataFirebase/Pods/nanopb/pb_decode.c:617-633 | the next reservation grows and stays within PB_SIZE_MAX |
| `PointerArray.ReserveCovers` | DeleteUserDataFirebase/Pods/nanopb/pb_decode.c:617-633 | the reservation is the smallest number of entries that covers the bytes left, or one where that would reach PB_SIZE_MAX |
| `PointerArray.DecodePackedGrowing` | DeleteUserDataFirebase/Pods/nanopb/pb_decode.c:597-655 | for fields of any allocation, pointer fields included: stored count, reserved entries and PB_SIZE_MAX stay in order, and unless the heap refuses, the stored items are those a packed block decodes to |
| `Interceptor.Conservation` | DeleteUserDataFirebase/Pods/Alamofire/Source/AuthenticationInterceptor.swift:250-402 | after any interleaving each submitted completion is in exactly one place and no other completion anywhere; at most one refresh is in flight; nothing waits unless one is |
| `Interceptor.AllAnsweredWhenQuiet` | DeleteUserDataFirebase/Pods/Alamofire/Source/AuthenticationInterceptor.swift:250-402 | once nothing is dispatched or in flight, every submitted completion was called exactly once |
| `Interceptor.SlidingWindow` | DeleteUserDataFirebase/Pods/Alamofire/Source/AuthenticationInterceptor.swift:330-368 | in every run, every closed time window of the configured length contains at most the allowed number of started refreshes |
| `Interceptor.StepKeeps` | DeleteUserDataFirebase/Pods/Alamofire/Source/AuthenticationInterceptor.swift:250-402 | every atomic step keeps the one-refresh invariant and the place of every completion |
| `Interceptor.RefreshLimited` | DeleteUserDataFirebase/Pods/Alamofire/Source/AuthenticationInterceptor.swift:330-368 | starting or refusing a refresh keeps every time window within the limit |
| `Interceptor.RefreshAnswersWaiting` | DeleteUserDataFirebase/Pods/Alamofire/Source/AuthenticationInterceptor.swift:370-402 | with an otherwise idle queue and no interference, whatever waits when a refresh ends is answered with its result, once each and in the order of arrival: adapted with the new credential or retried, or failed with the error |
| `Interceptor.FailureAnswersAll` | DeleteUserDataFirebase/Pods/Alamofire/Source/AuthenticationInterceptor.swift:388-402 | a failure block fails all its completions, adapts before retries, in order |
| `Interceptor.SuccessAnswersAll` | DeleteUserDataFirebase/Pods/Alamofire/Source/AuthenticationInterceptor.swift:370-386 | a success block adapts with the current credential and retries, in order, as long as the credential stays fresh |
| `RefreshProtocol.ExpiredNeverApplied` | DeleteUserDataFirebase/Pods/Alamofire/Source/AuthenticationInterceptor.swift:250-289 | in every run, whenever a credential is applied it is the current one, does not require a refresh, and no refresh is in place |
| `RefreshProtocol.StaleAdaptRefreshes` | DeleteUserDataFirebase/Pods/Alamofire/Source/AuthenticationInterceptor.swift:266-271 | with no refresh in place, an expired credential makes adapt wait and start exactly one refresh of that credential if the time window has room, and otherwise puts the operation into a failing block |
| `RefreshProtocol.RetryRefreshes` | DeleteUserDataFirebase/Pods/Alamofire/Source/AuthenticationInterceptor.swift:319-325 | a retry with the current credential waits, and starts exactly one refresh of the credential it had read if none is in place and the window has room |
| `RefreshProtocol.WaitsForRefresh` | DeleteUserDataFirebase/Pods/Alamofire/Source/AuthenticationInterceptor.swift:250-353 | a completion that waits for a refresh is not called, in any interleaving, before the authenticator has answered |
| `RefreshProtocol.AdaptAnswers` | DeleteUserDataFirebase/Pods/Alamofire/Source/AuthenticationInterceptor.swift:250-289 | what adapt answers at once, and when it does not |
| `RefreshProtocol.RetryAnswers` | DeleteUserDataFirebase/Pods/Alamofire/Source/AuthenticationInterceptor.swift:293-317 | retry does not retry failures that are not for lack of authentication, reports a missing credential, retries a request that went out with another credential, and waits otherwise |
| `RefreshProtocol.SetCredentialApplies` | DeleteUserDataFirebase/Pods/Alamofire/Source/AuthenticationInterceptor.swift:219-222 | a credential that is set is the one applied from then on |
| `RefreshProtocol.EverySubmissionKept` | DeleteUserDataFirebase/Pods/Alamofire/Source/AuthenticationInterceptor.swift:250-402 | every completion handed in by an action of the run, and no other, is in exactly one place, and once quiet has been called exactly once |
| `Authentication.StepSafe` | DeleteUserDataFirebase/Pods/Alamofire/Source/AuthenticationInterceptor.swift:250-402 | every step keeps conservation, the single refresh and the rate limit together |
| `Authentication.AuthenticationInterceptor.IsRefreshExcessive` | DeleteUserDataFirebase/Pods/Alamofire/Source/AuthenticationInterceptor.swift:355-368 | the fold counts the timestamps inside the window and compares with the maximum |
| `Authentication.AuthenticationInterceptor.RefreshInsideLock` | DeleteUserDataFirebase/Pods/Alamofire/Source/AuthenticationInterceptor.swift:330-353 | refuses with the excessive-refresh failure exactly when the window is full, or records the start and dispatches it; no completion is lost or duplicated |
| `Authentication.AuthenticationInterceptor.HandleRefreshSuccess` | DeleteUserDataFirebase/Pods/Alamofire/Source/AuthenticationInterceptor.swift:370-386 | stores the credential, empties both queues into one dispatched block that carries exactly what waited, ends the refresh, and keeps every completion in as many places as before |
| `Authentication.AuthenticationInterceptor.HandleRefreshFailure` | DeleteUserDataFirebase/Pods/Alamofire/Source/AuthenticationInterceptor.swift:388-402 | empties both queues into one dispatched block that carries the error and exactly what waited, ends the refresh, and keeps every completion in as many places as before |
| `Authentication.AuthenticationInterceptor.Adapt` | DeleteUserDataFirebase/Pods/Alamofire/Source/AuthenticationInterceptor.swift:250-289 | performs the adapt step and keeps the object safe |
| `Authentication.AuthenticationInterceptor.Retry` | DeleteUserDataFirebase/Pods/Alamofire/Source/AuthenticationInterceptor.swift:293-317 | performs the part of retry before the lock and keeps the object safe |
| `Authentication.AuthenticationInterceptor.RetryInsideLock` | DeleteUserDataFirebase/Pods/Alamofire/Source/AuthenticationInterceptor.swift:319-325 | performs the locked part of retry, with the credential read earlier, and keeps the object safe |
| `Authentication.AuthenticationInterceptor.RunNext` | DeleteUserDataFirebase/Pods/Alamofire/Source/AuthenticationInterceptor.swift:341-401 | performs the next piece of work of the serial queue and keeps the object safe |
| `Authentication.AuthenticationInterceptor.RefreshAnswered` | DeleteUserDataFirebase/Pods/Alamofire/Source/AuthenticationInterceptor.swift:342-351 | performs the authenticator's answer and keeps the object safe |
| `Authentication.AuthenticationInterceptor.SetCredential` | DeleteUserDataFirebase/Pods/Alamofire/Source/AuthenticationInterceptor.swift:219-222 | the public setter keeps the object safe |
| `MultipartFraming.FormRoundTrip` | DeleteUserDataFirebase/Pods/Alamofire/Source/MultipartFormData.swift:322-400 | a reader that follows section 5.1.1 of RFC 2046 and knows only the boundary recovers every part's headers and bytes in order if and only if there is a part, no line of a part starts like a delimiter line, and every header is one line whose name has no colon |
| `MultipartFraming.SplitRecoversParts` | DeleteUserDataFirebase/Pods/Alamofire/Source/MultipartFormData.swift:64-77 | the delimiters split the body into exactly the framed contents, with only the last line end behind the close delimiter, exactly when the parts are nonempty in number and clean |
| `MultipartFraming.ReadPartExact` | DeleteUserDataFirebase/Pods/Alamofire/Source/MultipartFormData.swift:394-400 | header text and bytes are told apart exactly when every header is one line whose name has no colon |
| `MultipartFraming.FindBehind` | DeleteUserDataFirebase/Pods/Alamofire/Source/MultipartFormData.swift:64-77 | a delimiter with a CR-free boundary cannot overlap itself: its first occurrence is the one written unless the text before contains it |
| `MultipartFraming.StreamedEqualsInMemory` | DeleteUserDataFirebase/Pods/Alamofire/Source/MultipartFormData.swift:375-482 | encode succeeds exactly when streaming does and every stream delivered its declared length, and then with the same bytes |
| `MultipartFormData.WrittenIsEncoded` | DeleteUserDataFirebase/Pods/Alamofire/Source/MultipartFormData.swift:347-371 | the output holds what encode returns exactly when it has room for it; otherwise a proper prefix, and a full output (unlike a failing one) goes unnoticed |
| `MultipartFormData.TruncationIsSilent` | DeleteUserDataFirebase/Pods/Alamofire/Source/MultipartFormData.swift:493-509 | a concrete form and an output with room for three bytes: encode returns seventeen bytes, the output holds three, and no error is reported |
| `MultipartFormData.ShortStreamIsNoticedInMemory` | DeleteUserDataFirebase/Pods/Alamofire/Source/MultipartFormData.swift:402-431 | a concrete part that delivers one byte of two: encode fails, the streamed form does not |
| `MultipartFormData.DeliverThen` | DeleteUserDataFirebase/Pods/Alamofire/Source/MultipartFormData.swift:493-509 | writing two pieces one after the other is writing them at once, whatever the output's capacity |
| `MultipartFormData.WriteBuffer` | DeleteUserDataFirebase/Pods/Alamofire/Source/MultipartFormData.swift:493-509 | for every pattern of partial writes, everything that fits arrives in order; an error exactly when a failing output is overrun |
| `MultipartFormData.BodyPart.EncodeBodyStream` | DeleteUserDataFirebase/Pods/Alamofire/Source/MultipartFormData.swift:402-431 | for every pattern of partial reads, returns the stream's bytes, or the read error, or the length mismatch |
| `MultipartFormData.BodyPart.WriteBodyStream` | DeleteUserDataFirebase/Pods/Alamofire/Source/MultipartFormData.swift:455-476 | for every pattern of partial reads and writes, passes the stream's bytes on, and reports a read error after them |
| `MultipartFormData.BodyPart.Encode` | DeleteUserDataFirebase/Pods/Alamofire/Source/MultipartFormData.swift:375-392 | delimiter, headers, bytes and, on the last part, the close delimiter |
| `MultipartFormData.BodyPart.Write` | DeleteUserDataFirebase/Pods/Alamofire/Source/MultipartFormData.swift:435-482 | the same bytes handed to the output piece by piece |
| `MultipartFormData.MultipartFormData.Append` | DeleteUserDataFirebase/Pods/Alamofire/Source/MultipartFormData.swift:307-310 | adds a part without boundary flags behind the others |
| `MultipartFormData.MultipartFormData.ContentLength` | DeleteUserDataFirebase/Pods/Alamofire/Source/MultipartFormData.swift:103 | the sum of the declared lengths |
| `MultipartFormData.EncodedLength` | DeleteUserDataFirebase/Pods/Alamofire/Source/MultipartFormData.swift:103 | the content length is the length of what encode returns without delimiters and headers |
| `MultipartFormData.MultipartFormData.SetFlags` | DeleteUserDataFirebase/Pods/Alamofire/Source/MultipartFormData.swift:329-330 | the first part opens and the last closes; no other flag changes |
| `MultipartFormData.MultipartFormData.Encode` | DeleteUserDataFirebase/Pods/Alamofire/Source/MultipartFormData.swift:322-338 | returns the framing of all parts or the first error, and leaves every stream it reached used up |
| `MultipartFormData.MultipartFormData.WriteEncodedData` | DeleteUserDataFirebase/Pods/Alamofire/Source/MultipartFormData.swift:347-371 | the output receives the streamed form as far as it has room, with the first read or write error reported |
| `MultipartFormData.MultipartFormData.SetBodyPartError` | DeleteUserDataFirebase/Pods/Alamofire/Source/MultipartFormData.swift:553-556 | the first error is kept |
| `StreamGate.CompletionGate` | DeleteUserDataFirebase/Pods/Alamofire/Source/Request.swift:1316-1412 | in every interleaving the counter is the number of unfinished parser calls, events are held only while it is positive, and each event is released at most once, with no parser call unfinished at that moment |
| `StreamGate.AllReleasedWhenQuiet` | DeleteUserDataFirebase/Pods/Alamofire/Source/ResponseSerialization.swift:1259-1269 | once the parsers, serializers and released batches are done, every registered event was handed on exactly once |
| `StreamGate.CompletionAfterAllData` | DeleteUserDataFirebase/Pods/Alamofire/Source/Request.swift:1257-1261 | when no data follows a presented completion, no completion reaches its handler before every parser call on all received data has finished |
| `StreamHistory.EveryChunkHandled` | DeleteUserDataFirebase/Pods/Alamofire/Source/Request.swift:1316-1330 | in every run, each received chunk is given exactly once to each stream added before it arrived and to no other, and once no call is under way each has been handled once |
| `StreamHistory.ReleasedAfterAllChunks` | DeleteUserDataFirebase/Pods/Alamofire/Source/ResponseSerialization.swift:1259-1269 | when a step releases a completion, every stream has finished with every chunk that has arrived |
| `StreamHistory.EveryCompletionHandedOn` | DeleteUserDataFirebase/Pods/Alamofire/Source/Request.swift:1393-1412 | once quiet, every completion registered by an action of the run, and no other, was handed on exactly once |
| `StreamHistory.HeldInOrder` | DeleteUserDataFirebase/Pods/Alamofire/Source/ResponseSerialization.swift:1265-1267 | completions that were held are handed on in the order in which they were presented, none left out |
| `StreamHistory.StagesInOrder` | DeleteUserDataFirebase/Pods/Alamofire/Source/ResponseSerialization.swift:1194-1216 | a handler of serialized data is called only after the serialization queue and the underlying queue, one of raw data directly |
| `StreamGate.StepKeeps` | DeleteUserDataFirebase/Pods/Alamofire/Source/ResponseSerialization.swift:1259-1269 | every step keeps the counter exact and every event in one place |
| `DataStreamRequest.DataStreamRequest.DidReceive` | DeleteUserDataFirebase/Pods/Alamofire/Source/Request.swift:1316-1330 | counts and dispatches one parser call on the chunk for each registered stream |
| `DataStreamRequest.DataStreamRequest.ResponseSerializerDidComplete` | DeleteUserDataFirebase/Pods/Alamofire/Source/Request.swift:1393-1412 | holds the event while parsers are at work and hands it on otherwise |
| `DataStreamRequest.DataStreamRequest.UpdateAndCompleteIfPossible` | DeleteUserDataFirebase/Pods/Alamofire/Source/ResponseSerialization.swift:1259-1269 | ends one parser call and, if it was the last, releases all held events together |
| `DataStreamRequest.DataStreamRequest.AdvanceParser` | DeleteUserDataFirebase/Pods/Alamofire/Source/ResponseSerialization.swift:1194-1216 | moves a parser call to its next queue without touching the gate |
| `DataStreamRequest.DataStreamRequest.RunCompletionEvents` | DeleteUserDataFirebase/Pods/Alamofire/Source/ResponseSerialization.swift:1266 | hands a released batch on in order |
| `DataStreamRequest.DataStreamRequest.AppendStream` | DeleteUserDataFirebase/Pods/Alamofire/Source/ResponseSerialization.swift:1176 | registers a parser |
| `DataStreamRequest.DataStreamRequest.AppendStreamCompletion` | DeleteUserDataFirebase/Pods/Alamofire/Source/Request.swift:1393-1396 | registers a completion to be presented later |
| `DeleteProtocol.SuccessMeansDone` | DeleteUserDataFirebase/DeleteUserDataFirebase/Common/FirebaseDeleteService.swift:65-116 | in every run success is reported at most once, and only when both removals succeeded, there was an aquarium, and every device chain of every fetched aquarium has called back |
| `DeleteRuns.SuccessMeansFetchedDone` | DeleteUserDataFirebase/DeleteUserDataFirebase/Common/FirebaseDeleteService.swift:65-170 | in every run with success, both removals were answered with success, the fetched aquariums were not none and all started, the devices of each were fetched, and there are exactly as many device chains as devices fetched, all called back |
| `DeleteRuns.SuccessExactlyByAnswers` | DeleteUserDataFirebase/DeleteUserDataFirebase/Common/FirebaseDeleteService.swift:65-170 | once every callback has fired, success was reported if and only if the answers were these: aquariums fetched, not none and all started, no fetching of devices failed, both removals succeeded |
| `DeleteRuns.FailedAnswerRulesOutSuccess` | DeleteUserDataFirebase/DeleteUserDataFirebase/Common/FirebaseDeleteService.swift:90-108 | a failed answer to either removal rules out success and is reported once |
| `DeleteRuns.FetchedDevicesGone` | DeleteUserDataFirebase/DeleteUserDataFirebase/Common/FirebaseDeleteService.swift:146-211 | with success and no failed removal of a device, exactly the fetched number of devices of each aquarium is gone |
| `DeleteRuns.StartedHow` | DeleteUserDataFirebase/DeleteUserDataFirebase/Common/FirebaseDeleteService.swift:65-73 | nothing starts and no timeout is reported unless delete found a user and a network |
| `DeleteProtocol.SuccessExactly` | DeleteUserDataFirebase/DeleteUserDataFirebase/Common/FirebaseDeleteService.swift:65-116 | once every callback has fired, success was reported if and only if the aquariums were fetched and not empty, no transaction was given up, and both removals succeeded |
| `DeleteProtocol.NoAquariumsNoSuccess` | DeleteUserDataFirebase/DeleteUserDataFirebase/Common/FirebaseDeleteService.swift:73-114 | a concrete run for a user without aquariums: both removals succeed, nothing more can happen but the timeout, and nothing was reported |
| `DeleteProtocol.FailedRemovalRulesOutSuccess` | DeleteUserDataFirebase/DeleteUserDataFirebase/Common/FirebaseDeleteService.swift:90-108 | a failed removal of the user record or the account rules out success in that call, and each failure is reported once |
| `DeleteProtocol.NeverOverLeaves` | DeleteUserDataFirebase/DeleteUserDataFirebase/Common/FirebaseDeleteService.swift:65-170 | in no run is the outer group or an aquarium's group left more often than entered |
| `DeleteProtocol.GroupEmpty` | DeleteUserDataFirebase/DeleteUserDataFirebase/Common/FirebaseDeleteService.swift:110-113 | the outer group is empty exactly when everything success stands for is done |
| `DeleteProtocol.SuccessDespiteFailedRemoval` | DeleteUserDataFirebase/DeleteUserDataFirebase/Common/FirebaseDeleteService.swift:194-210 | a concrete run in which success is reported although a device was not removed, and the timer then reports a failure to the same handler |
| `DeleteProtocol.SuccessMeansGoneExactly` | DeleteUserDataFirebase/DeleteUserDataFirebase/Common/FirebaseDeleteService.swift:146-211 | in every run with success, all devices are removed if and only if no removal of a device was answered with an error, and all three removals of every device chain took place if and only if none of them was |
| `DeleteProtocol.StepGood` | DeleteUserDataFirebase/DeleteUserDataFirebase/Common/FirebaseDeleteService.swift:192-211 | an answer spoils what is removed so far exactly when it is an error |
| `DeleteProtocol.TimeoutAfterSuccess` | DeleteUserDataFirebase/DeleteUserDataFirebase/Common/FirebaseDeleteService.swift:23-39 | after every success the timeout is still to come exactly when it has not been reported yet, and when nothing can happen any more both have been reported once |
| `DeleteProtocol.StepKeeps` | DeleteUserDataFirebase/DeleteUserDataFirebase/Common/FirebaseDeleteService.swift:65-211 | every callback keeps the counts of both levels of groups exact |
| `FirebaseDeleteService.FirebaseDeleteService.DeleteAccount` | DeleteUserDataFirebase/DeleteUserDataFirebase/Common/FirebaseDeleteService.swift:65-73 | enters the group, arms the timer and starts fetching, or does nothing without a user |
| `FirebaseDeleteService.FirebaseDeleteService.DidFetchAquariums` | DeleteUserDataFirebase/DeleteUserDataFirebase/Common/FirebaseDeleteService.swift:73-114 | launches one transaction per aquarium and enters the group for the two removals |
| `FirebaseDeleteService.FirebaseDeleteService.DidFetchDevices` | DeleteUserDataFirebase/DeleteUserDataFirebase/Common/FirebaseDeleteService.swift:142-168 | enters the aquarium's group once per device, or gives the aquarium up |
| `FirebaseDeleteService.FirebaseDeleteService.DidRemove` | DeleteUserDataFirebase/DeleteUserDataFirebase/Common/FirebaseDeleteService.swift:192-211 | moves a device chain on, skipping a removal after a failed one, and leaves the aquarium's group only when it was entered |
| `FirebaseDeleteService.FirebaseDeleteService.DidFinishAquarium` | DeleteUserDataFirebase/DeleteUserDataFirebase/Common/FirebaseDeleteService.swift:76-87 | counts the aquarium and leaves the outer group with the last one, only when it was entered |
| `FirebaseDeleteService.FirebaseDeleteService.DidDeleteUserFromUsers` | DeleteUserDataFirebase/DeleteUserDataFirebase/Common/FirebaseDeleteService.swift:89-98 | leaves the outer group on success, only when it was entered, and reports a failure otherwise |
| `FirebaseDeleteService.FirebaseDeleteService.DidDeleteUserFromAuthentication` | DeleteUserDataFirebase/DeleteUserDataFirebase/Common/FirebaseDeleteService.swift:99-108 | leaves the outer group on success, only when it was entered, and reports a failure otherwise |
| `FirebaseDeleteService.FirebaseDeleteService.GroupNotifies` | DeleteUserDataFirebase/DeleteUserDataFirebase/Common/FirebaseDeleteService.swift:110-113 | reports success for the first time, with everything done |
| `FirebaseDeleteService.FirebaseDeleteService.DidTimerFire` | DeleteUserDataFirebase/DeleteUserDataFirebase/Common/FirebaseDeleteService.swift:30-32 | reports the timeout whatever was reported before |

## Left out

- Encoder.EncodeSubmessage: a body of 2^64 bytes or more is reported as an error where the C counter of type `size_t` would
  wrap around; no such buffer exists.
- Redecoding.DecodedComesBack: decoding again is stated for encodings shorter than 2^32 bytes; an empty fixed-length bytes field is decoded as
  zeros of its full length, so a struct can be longer on the wire than what it was decoded from.
- MessageRoundTrip.RoundTripExactly: speaks of encodings shorter than 2^63 bytes, beyond which no buffer exists; tables are
  those of static fields with distinct tags.
- Decoder.DecodeNoinit: the destination struct is a value that is returned, not memory updated in place, so what a failed
  decoding leaves in it is not modelled; has-flags and counts live in the slots, and array
  entries the C code leaves uninitialised count as zeros, or as structs set to their defaults.
- Decoder.DecodeRecord: with an empty field table, the C code writes a decoded boolean through the terminator entry into
  the struct; the model reads it and drops it.
- PointerArray.DecodePackedGrowing: of the pointer-typed fields only the growth loop of packed arrays is modelled; whether
  the heap grants a request is a parameter, and `pb_release` is not modelled.
- Callbacks, extensions, custom stream callbacks, the delimited and null-terminated entry points, error message texts, null
  descriptors, the builds without 64-bit integers or with old-style callbacks: foreign code or variants without new laws.
- Raw struct layout: well-formed tables are a precondition; offsets appear only in the iterator.
- Authentication.AuthenticationInterceptor.Adapt: the completion call that follows the critical section is part of the same
  step; later steps never look at whether it has happened.
- MultipartFormData.MultipartFormData.Append: each part has a stream of its own; sharing one stream between two parts is
  not modelled.
- MultipartFormData.MultipartFormData.WriteEncodedData: the file checks and the opening of the output are not modelled; an
  output that accepts zero bytes forever, on which the source would loop, is not either.
- MultipartFormData.MultipartFormData.ContentLength: the trap of an overflowing 64-bit sum is not modelled.
- MIME lookup, file-based `append` and the random boundary: the boundary is any CR-free byte string.
- DataStreamRequest.DataStreamRequest.AppendStreamCompletion: the chain that runs response serializers is reduced to
  presenting each registered completion at most once; handler errors, cancellation and bound streams do not touch the gate.
- FirebaseDeleteService.FirebaseDeleteService.DidFinishAquarium: the increment of `index` is atomic here, while the source
  increments it on a concurrent queue without a lock; one call of `delete` is modelled, with the timer's delay left open.
- User interface, presenters, routers, `FirebaseService.swift`, `RequestTaskMap`, `HTTPHeaders`, `RetryPolicy` and the other
  vendored code: glue, tables or easy members.
