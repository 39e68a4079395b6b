# Verified models of nanopb and of four Alamofire components

This project models two libraries that the karupasu iOS application builds on, and proves their
central promises.

- `codec/` models **nanopb**, the schema-driven Protocol Buffers encoder and decoder
  (`pb_encode.c`, `pb_decode.c`, `pb_common.c`): 64-bit integers, memory-buffer streams, 32-bit sizes
  as the pod's build defines them (`PB_FIELD_32BIT=1`), fields allocated statically. That build also
  defines `PB_ENABLE_MALLOC=1`; the code this adds is for pointer fields and is left out.
- `alamofire/` models four parts of **Alamofire**: the `AuthenticationInterceptor`, the task
  bookkeeping of `RequestTaskMap` and `Session`, the stream counter of `DataStreamRequest`, and the
  two encoders of `MultipartFormData`.

## How the codec model is built

A descriptor list (`pb_field_t[]`) is a `seq<Field>`; a struct is a `seq<Slot>`, one slot for each
data offset, so that the members of a oneof share a slot. `FieldIter.WalkFindsMembers` and
`FieldIter.SlotsDisjoint` say why a struct may be seen this way: for any struct layout and the
descriptor that the PB_DATAOFFSET macros build for it, the iterator finds each member and its marker
where the compiler put them, and different slots have no byte in common. The one write that leaves a
slot is below, under what the code misses. The wire format is given by functions on byte sequences (`Varint`, `Encoding`,
`Decoding`) that make the same case distinctions as the C code, its limits and odd corners included:
the 8-bit `bitpos` that wraps, the bits lost in `pb_decode_varint32`, wire types that singular fields
do not check, the terminator that answers to tag 0. The loops of the C code are methods over classes
with the C structs' fields (`OStream`, `IStream`, `Iter`), each proved to do what the functions say:
same bytes, same success, same bytes left. The theorems are about the functions.

`None`, `Fail` and `Failed` stand for `return false`. C's bitwise operators are functions on
non-negative integers; every truncation to 8, 32 or 64 bits is written out.

Main results of the codec:

- **Round trip** (`RoundTrip.MessageRoundTrips`): for every well-formed descriptor tree and matching
  struct that encodes below 2^32 bytes, decoding the output gives the message back exactly when every
  encoded string has a NUL inside its buffer, and fails otherwise.
- **Decoded messages are valid** (`Canonical.DecodedReencodes`): whatever bytes the decoder accepts,
  the struct has values of the right width, counts within the arrays and terminated strings; if its
  fixed-count arrays have been received it encodes, and decodes to itself. `NestedCounts.IntoCounts`
  adds that a fixed-count array, at any depth, is received whole or not at all.
- **Initialisation, byte by byte** (`StructMemory`): in any struct layout, every position holds its
  default afterwards (`InitHolds`); bytes outside the struct stay as they were if and only if its
  reach ends within the struct (`InitStaysInside`), which depends on the fixed-count arrays alone
  (`InitOwnBytes`, `InsideByPositions`).
- **The encoder emits exactly the wire format** (`WireLaws.EncoderConforms`): `WireFormat` describes a
  message by the numbers that its bytes stand for, without the encoder; what `pb_encode` emits is that
  message and no other bytes are, absent and zero fields included. A reader with another schema skips
  all of it (`ForeignReader.SkippedByOthers`).
- **The decoders of single values, on every input** (`ScalarMeaning`): an integer field accepts exactly
  the varints of at most ten bytes whose number stands for an integer of its width, and takes that
  integer (`IntegerExactly`); likewise the other types.
- **Defaults and repeated occurrences**: a field that no record is stored in, at any depth, holds the
  default that the schema declares (`DefaultLaws.UnreadHoldsDefault`); a submessage that occurs again is
  merged (`MergeLaws.SplitMessageMerges`), of other singular fields the last one wins
  (`MergeLaws.LastOneWins`), array items and oneof members start afresh
  (`MergeLaws.MemberStartsAfresh`).
- **Sizing equals writing** (`PbEncode.GetEncodedSize`, `PbEncode.EncodeToBuffer`,
  `PbEncode.EncodeWithin`), with the exact condition of success (`EncodeLaws.EncodeSucceeds`).
- **Decoding is a fold over records** (`DecodeLaws`): whole inputs concatenate, unknown records vanish
  from any number of places, independent records swap (or fail in both orders) unless an item is
  initialised past its end, packed and unpacked arrays agree.
- **The required-field bitmap is exact** (`RequiredLaws.RequiredCheckExact`,
  `RequiredBitmap.AllPresent`, `PbDecode.DecodeNoInit`).
- **Varints**: round trip, minimality, the relation of the two decoders, the 32-bit emulation of
  negative varints, zigzag (`Varint`, `VarintLaws`).

Where the code misses what one would expect, the model keeps the code:

- `pb_decode_varint32` does not give an error for every value that needs more than 32 bits
  (`VarintLaws.Varint32DropsBits`). `VarintAcceptance.Varint32AcceptsExactly` says, for every byte
  string, whether it is accepted, `VarintLaws.Varint32Exact` of which varints the value itself is
  returned.
- Records of independent fields do not always swap. A fixed-count array has no count, so that its
  initialisation, which clears a count, clears the first four bytes of its data; an array shorter than
  that is overrun, and a submessage that ends in one is initialised past its end. When that submessage
  is an array item or a oneof member, receiving it clears what other records have stored behind it:
  `ItemOverrun.OrderMatters`, at the legal schema of `ItemOverrun.OverrunIsLegal`. A byte behind an item
  survives if and only if it lies behind the reach of the item's initialisation
  (`StructMemory.ItemKeepsExactly`). The functions of `Decoding`, where slots are apart, describe the code
  for schemas without such items (`StructMemory.ItemsInside`); the decoding methods and the results on
  swapped records ask for that. It holds when no fixed-count array is shorter than four bytes
  (`StructMemory.NoShortArraysItems`).
- A string that fills its buffer encodes but does not decode (the `else` of
  `RoundTrip.MessageRoundTrips`).

## How the Alamofire models are built

A component that runs under a lock or on several queues is a state machine: a `State` with the
locked fields and with what is under way outside (dispatch queue, foreign answers still to come,
completions called), one event for each atomic step, and `Runs` for every interleaving. `retry` is two
events because the credential is read before the lock is taken. The class beside it has the source's
fields and methods; each method is proved to make the transition of its event. Completion closures,
requests, sessions and tasks are identities. Times are real numbers, and each refresh reads the clock
twice.

Main results: each completion is always in exactly one place and is called exactly once by the time
nothing is left to run (`AuthenticationLaws.ExactlyOnePlace`,
`AuthenticationLaws.EveryCompletionCalled`); every outcome a completion is called with is
explained by what happened since it was pending (`AuthenticationOutcomes.OutcomeEarnedLater`) and by
the step that called it (`AuthenticationOutcomes.CallTraced`); the credential stored is the one given
last, and every request that goes out carries it (`AuthenticationHistory.StoredIsLastGiven`,
`AuthenticationHistory.RequestCarriesLastGiven`); every refresh and every error is traced to its cause
(`AuthenticationHistory.RefreshTraced`, `AuthenticationHistory.ErrorTraced`); what waits is served in
order (`AuthenticationOrder.RetriesInOrder`, `AuthenticationOrder.AdaptsInOrder`); `isRefreshing` is set exactly while one
refresh is out, in every state of a run, if and only if every repeated answer of the authenticator comes
while none is under way (`AuthenticationLaws.OneRefreshExactly`), and at most one refresh is out in every
state if and only if no event starts one beside another (`AuthenticationLaws.AtMostOneExactly`, with a
run that has two out in `AuthenticationLaws.AnsweringTwiceOverlaps`);
the refresh window over all runs (`AuthenticationWindow.RefreshesBounded`,
`AuthenticationWindow.RefusedOnlyWhenFull`); the task book is faithful,
and `fatalError` is reached exactly by an unexpected event (`SessionTasks.SessionFaithful`); completion
events of a stream are released only when no handler is outstanding (`DataStream`), and data and
completion events keep their order (`DataStreamOrder`); both multipart
encoders emit the same bytes (`MultipartFormData.Form.Encode`,
`MultipartFormData.Form.WriteEncodedData`), which are the multipart body of the form's parts, in the
grammar of section 5.1.1 of RFC 2046, if and only if no part before the last has kept its final flag
from an earlier encoding (`MultipartShape.MultipartExactly`); a reader that splits them at delimiters
finds the parts up to the first that has kept it, if and only if none of these contains the delimiter
(`MultipartReader.ReaderFindsVisible`), and gets back headers and bodies if and only if the headers can
be told apart (`MultipartHeaders.FormComesBack`).

Where code and documentation differ, the model follows the code: `RefreshWindow` is documented to
refuse a refresh when "more" attempts than `maximumAttempts` lie in the window, while the code already
refuses when that many do (`AuthenticationWindow.RefusedAtMaximum`, and in every reachable state
`AuthenticationWindow.RefusedOnlyWhenFull`);
`writeEncodedData` is documented to throw when encoding fails, but it neither checks the
content lengths that `encode()` checks nor reports an output stream without space
(`MultipartFormData.Form.WriteEncodedData`). The boundary flags stay on the part objects and the
streams are used up, so that a form encoded a second time after an append throws if a part had a body
and otherwise closes twice (`MultipartFormData.EncodeAppendEncode`), while a second `writeEncodedData`
reports success with empty bodies and two closing delimiters (`MultipartFormData.WriteAppendWrite`). A
reader then sees nothing of the part that was added (`MultipartReader.AddedPartUnread`).

## Model

| member | source | states |
|---|---|---|
| Varint.Varint64RoundTrip | ios/Pods/nanopb/pb_decode.c:255-275 | decoding inverts encoding for every 64-bit value and leaves any following bytes untouched |
| VarintLaws.EncVarintLength | ios/Pods/nanopb/pb_encode.c:608-628 | a value takes at most n bytes if and only if it is below 2^(7n) |
| VarintLaws.EncVarintFitsBuffer | ios/Pods/nanopb/pb_encode.c:610-611 | a 64-bit value never overruns the encoder's ten-byte buffer; a 32-bit value takes at most five |
| VarintLaws.EncVarintMinimal | ios/Pods/nanopb/pb_encode.c:608-628 | no accepted byte string for a value is shorter than the encoder's |
| VarintLaws.DecodersAgree | ios/Pods/nanopb/pb_decode.c:187-275 | when both varint decoders accept, they consume the same bytes and the 32-bit result is the 64-bit result modulo 2^32 |
| VarintLaws.Varint32Accepts | ios/Pods/nanopb/pb_decode.c:187-247 | of the varints that the 64-bit decoder accepts, the 32-bit decoder takes those of four bytes or less, of five with a last group of four bits, and longer ones whose groups from the sixth on are zero or, with bit 31 of the value set, all sign bits: an if and only if |
| VarintAcceptance.Varint32AcceptsExactly | ios/Pods/nanopb/pb_decode.c:187-247 | for every byte string, of any length: accepted if and only if it starts with a whole varint each of whose bytes passes the test at its wrapping bit position; exactly that varint is consumed |
| VarintAcceptance.Varint32Bits | ios/Pods/nanopb/pb_decode.c:187-247 | the word read from any accepted varint, bit by bit: groups that the wrapping position brings to the word again are added to it |
| VarintLaws.Varint32Exact | ios/Pods/nanopb/pb_decode.c:187-275 | of the accepted varints, exactly those whose groups fit 32 bits give the value itself |
| VarintLaws.NarrowValue | ios/Pods/nanopb/pb_decode.c:255-275 | a varint stands for a value below 2^32 if and only if its groups fit |
| VarintLaws.Varint32DropsBits | ios/Pods/nanopb/pb_decode.c:216-242 | witness: 2^32 in six bytes decodes to 0 in the 32-bit decoder without an error |
| VarintLaws.Varint32RoundTrip | ios/Pods/nanopb/pb_decode.c:187-252 | the 32-bit decoder recovers every uint32 |
| VarintLaws.Varint32SignExtended | ios/Pods/nanopb/pb_decode.c:216-242 | the 32-bit decoder recovers every negative int32 from its ten-byte sign-extended form |
| VarintLaws.EmulationStep | ios/Pods/nanopb/pb_encode.c:589-601 | a round on the 32-bit word with the compensation counter tracks the round on the 64-bit word |
| VarintLaws.ZigZagBijection | ios/Pods/nanopb/pb_encode.c:630-639 | zigzag is a bijection between int64 and the 64-bit words, with the published values |
| PbEncode.OStream.FromBuffer | ios/Pods/nanopb/pb_encode.c:86-101 | an empty writing stream bounded by the buffer |
| PbEncode.OStream.Write | ios/Pods/nanopb/pb_encode.c:103-124 | all bytes or none, by the room left; the emitted bytes are in the buffer, nothing else in it changes, and bytes_written never exceeds max_size |
| PbEncode.VarintBytes | ios/Pods/nanopb/pb_encode.c:610-627 | the loop over the local buffer yields the varint |
| PbEncode.NegativeVarintBytes | ios/Pods/nanopb/pb_encode.c:583-605 | 32-bit arithmetic yields the ten bytes of the sign-extended 64-bit value, for every negative int32 |
| PbEncode.EncodeVarint | ios/Pods/nanopb/pb_encode.c:608-628 | the stream receives the varint or is too short for it |
| PbEncode.EncodeSVarint | ios/Pods/nanopb/pb_encode.c:630-639 | the shift-and-complement form emits the zigzag varint |
| PbEncode.EncodeFixed32 | ios/Pods/nanopb/pb_encode.c:641-650 | four bytes, least significant first |
| PbEncode.EncodeFixed64 | ios/Pods/nanopb/pb_encode.c:653-667 | eight bytes, least significant first |
| PbEncode.EncodeTag | ios/Pods/nanopb/pb_encode.c:669-673 | the tag word as a varint, for the full 32-bit tag range |
| PbEncode.EncodeTagForField | ios/Pods/nanopb/pb_encode.c:675-707 | the wire type belongs to the field's type |
| PbEncode.EncodeString | ios/Pods/nanopb/pb_encode.c:709-715 | length and bytes |
| PbEncode.StringLength | ios/Pods/nanopb/pb_encode.c:888-896 | the scan finds the first NUL or the end of the field |
| PbEncode.EncodeCString | ios/Pods/nanopb/pb_encode.c:875-899 | a string is sent up to its NUL, or whole when it fills its buffer |
| PbEncode.EncodeScalar | ios/Pods/nanopb/pb_encode.c:769-873 | every scalar encoder, with its error on a bad width or an overlong bytes field |
| PbEncode.EncodeSubmessage | ios/Pods/nanopb/pb_encode.c:717-765 | a submessage is emitted with its exact length; success depends only on the fields and the room |
| PbEncode.EncodeWithin | ios/Pods/nanopb/pb_encode.c:743-764 | the second pass has the size of the first, so "submsg size changed" never happens, and it succeeds whenever the bytes fit |
| PbEncode.EncodeItems | ios/Pods/nanopb/pb_encode.c:197-204 | the items of a packed array, in order |
| PbEncode.FixedItemsLength | ios/Pods/nanopb/pb_encode.c:169-177 | the size computed for fixed-width items is the size they take |
| PbEncode.PackedSize | ios/Pods/nanopb/pb_encode.c:169-189 | the size of a packed payload, computed or measured, is its length |
| PbEncode.EncodePacked | ios/Pods/nanopb/pb_encode.c:159-205 | tag, length and items of a packed array, with the same success on sizing and writing streams |
| PbEncode.EncodeUnpacked | ios/Pods/nanopb/pb_encode.c:207-233 | a record for each item, in order |
| PbEncode.EncodeArray | ios/Pods/nanopb/pb_encode.c:147-236 | nothing for an empty array, an error above array_size, packed for packable types |
| PbEncode.CheckProto3Default | ios/Pods/nanopb/pb_encode.c:240-337 | true exactly for the zero value of the field, recursively for submessages |
| PbEncode.CheckMessageDefault | ios/Pods/nanopb/pb_encode.c:296-307 | the iterator loop decides whether every field of a submessage is zero |
| PbEncode.EncodeBasicField | ios/Pods/nanopb/pb_encode.c:341-426 | which fields of a struct are emitted: required always, optional by flag or non-zero value, the oneof member selected |
| PbEncode.EncodeMessage | ios/Pods/nanopb/pb_encode.c:528-550 | pb_encode emits the encoding of the struct on sizing, writing and nested streams alike |
| PbEncode.GetEncodedSize | ios/Pods/nanopb/pb_encode.c:567-576 | sizing succeeds exactly when encoding can, and gives its length |
| PbEncode.EncodeToBuffer | ios/Pods/nanopb/pb_encode.c:528-550 | encoding to a buffer succeeds if and only if sizing does and the capacity suffices; the front then holds the encoding and the rest is untouched |
| PbEncode.EncodeDelimitedTo | ios/Pods/nanopb/pb_encode.c:552-555 | the message behind its length |
| PbEncode.EncodeNullTerminatedTo | ios/Pods/nanopb/pb_encode.c:557-565 | the message and a zero byte |
| EncodeLaws.EncodeSucceeds | ios/Pods/nanopb/pb_encode.c:528-550 | encoding a matching struct fails for the named reasons only: array too long, odd integer width, overlong bytes field |
| WireLaws.NumberExactly | ios/Pods/nanopb/pb_encode.c:608-628 | the encoder's varint is the one varint of minimal length whose seven-bit groups make the number |
| WireLaws.EncoderConforms | ios/Pods/nanopb/pb_encode.c:341-550 | the bytes emitted are the message of the wire format, and nothing else is: per field present a key of eight times the tag plus wire type 0, 1, 2 or 5 and the payload of its value, in descriptor order; nothing for absent and zero fields |
| ForeignReader.SkippedByOthers | ios/Pods/nanopb/pb_decode.c:957-986 | a reader whose schema has none of the tags skips any encoded message whole and goes on behind it |
| FieldIter.Iter.constructor | ios/Pods/nanopb/pb_common.c:8-18 | the iterator at the first position |
| FieldIter.Iter.Rewind | ios/Pods/nanopb/pb_common.c:8-18 | back at the first position; false for an empty descriptor |
| FieldIter.Iter.Next | ios/Pods/nanopb/pb_common.c:20-76 | one position on, or wrapped; offsets and required index equal those of a fresh walk, across oneofs and arrays |
| FieldIter.Iter.Find | ios/Pods/nanopb/pb_common.c:78-95 | from any position, finds the tag if and only if a non-extension field has it, within one wrap; otherwise back where it was |
| FieldIter.SharedSlotSharedOffset | ios/Pods/nanopb/pb_common.c:43-49 | members of a oneof have the same data and size offset |
| FieldIter.SharesExactly | ios/Pods/nanopb/pb_common.c:43-49 | the iterator takes exactly the members that the schema declares in one oneof for one slot |
| FieldIter.WalkFindsMembers | ios/Pods/nanopb/pb.h:395-405 | for a descriptor built by the offset macros the iterator's offsets are the compiler's addresses, markers included |
| FieldIter.SlotsDisjoint | ios/Pods/nanopb/pb_common.c:40-73 | positions of different slots share no byte that is read or stored, neither of data nor of has_, count and which_ markers |
| StructMemory.LayoutOrdered | ios/Pods/nanopb/pb.h:395-405 | the struct of any layout and the descriptor of the offset macros is one behind the other, markers in front of data |
| StructMemory.InitWrites | ios/Pods/nanopb/pb_decode.c:836-919 | initialising a struct leaves the memory in front of it alone and clears behind it exactly the bytes up to its reach |
| StructMemory.InitStaysInside | ios/Pods/nanopb/pb_decode.c:862-869 | no byte outside the struct changes, in any memory, if and only if the reach ends within the struct |
| StructMemory.InsideByPositions | ios/Pods/nanopb/pb_decode.c:862-869 | that is, if and only if each fixed-count array has four bytes to the end of the struct and each submessage is initialised within it |
| StructMemory.InitHolds | ios/Pods/nanopb/pb_decode.c:836-919 | after initialisation every position of the struct, at any depth, holds its default, overruns included |
| StructMemory.InitOwnBytes | ios/Pods/nanopb/pb_decode.c:862-869 | a position writes only its own bytes if and only if it is no fixed-count array below four bytes and no submessage initialised past its end |
| StructMemory.TouchedDisjoint | ios/Pods/nanopb/pb_decode.c:836-906 | then positions of different slots share no byte, initialised, read or stored |
| StructMemory.NoShortArraysItems | ios/Pods/nanopb/pb_decode.c:862-869 | without fixed-count arrays below four bytes every item, at any depth, is initialised within its bytes |
| StructMemory.ItemKeepsOthers | ios/Pods/nanopb/pb_decode.c:1517-1518 | initialising such an item while decoding keeps every byte of the other slots |
| StructMemory.ItemKeepsExactly | ios/Pods/nanopb/pb_decode.c:1517-1518 | a byte behind an item survives its initialisation in every memory if and only if it lies behind the reach |
| ItemOverrun.SetFieldInPlace | ios/Pods/nanopb/pb_decode.c:836-906 | one field in place: flag, count or tag cleared at pSize, default or zeros at pData, submessages recursively |
| ItemOverrun.SetMessageInPlace | ios/Pods/nanopb/pb_decode.c:908-919 | the iterator loop over a struct in memory |
| ItemOverrun.OverrunIsLegal | ios/Pods/nanopb/pb.h:537 | a well-formed schema, laid out by the offset macros, with two independent fields and an item that is initialised past its end |
| ItemOverrun.OrderMatters | ios/Pods/nanopb/pb_decode.c:1503-1525 | witness: at that schema the two records leave different structs in different orders |
| Schema.DefaultsAt | ios/Pods/nanopb/pb_decode.c:908-919 | after initialisation each position holds its own default, oneof members included |
| DefaultLaws.DefaultsAreInitial | ios/Pods/nanopb/pb_decode.c:836-919 | after initialisation every field at every depth is as declared: flag cleared, array empty, no oneof member, the declared value or the zero of its type |
| DefaultLaws.UnreadHoldsDefault | ios/Pods/nanopb/pb_decode.c:1075-1087 | after pb_decode a field, at any depth of submessages, that no record is stored in holds its declared default |
| DefaultLaws.AbsentHoldsDefault | ios/Pods/nanopb/pb_decode.c:1075-1087 | in particular a field whose tag, or its oneof's, is not among the tags read |
| InputStream.IStream.FromBuffer | ios/Pods/nanopb/pb_decode.c:159-181 | a stream over all bytes of the buffer |
| InputStream.IStream.ReadByte | ios/Pods/nanopb/pb_decode.c:141-157 | the next byte, or an error at the end; the end does not move |
| InputStream.IStream.Read | ios/Pods/nanopb/pb_decode.c:87-137 | all bytes asked for or none; never past the end |
| InputStream.IStream.Varint32Tail | ios/Pods/nanopb/pb_decode.c:211-243 | the multibyte loop, wrapping bit position included |
| InputStream.IStream.DecodeVarint32 | ios/Pods/nanopb/pb_decode.c:187-252 | reads a 32-bit varint exactly as specified; eof tells an exhausted stream |
| InputStream.IStream.DecodeVarint64 | ios/Pods/nanopb/pb_decode.c:255-275 | reads a 64-bit varint exactly as specified |
| InputStream.IStream.SkipVarint | ios/Pods/nanopb/pb_decode.c:278-287 | skips to behind the first byte without continuation bit |
| InputStream.IStream.SkipString | ios/Pods/nanopb/pb_decode.c:289-296 | skips a length and that many bytes |
| InputStream.IStream.DecodeTag | ios/Pods/nanopb/pb_decode.c:298-319 | tells a tag, the end of a null-terminated message and a malformed tag apart |
| InputStream.IStream.SkipField | ios/Pods/nanopb/pb_decode.c:321-331 | skips a value of wire type 0, 1, 2 or 5, fails on others |
| InputStream.IStream.MakeSubstream | ios/Pods/nanopb/pb_decode.c:372-385 | the substream covers exactly the delimited bytes, fewer than the parent had |
| InputStream.IStream.CloseSubstream | ios/Pods/nanopb/pb_decode.c:387-400 | the parent continues at the substream's end wherever its reader stopped |
| FieldDecode.DecodeVarintField | ios/Pods/nanopb/pb_decode.c:1329-1364 | signed fields, cast through int32 below 64 bits, checked against their width |
| FieldDecode.DecodeUVarintField | ios/Pods/nanopb/pb_decode.c:1366-1388 | unsigned fields are accepted exactly when the value fits the width |
| FieldDecode.DecodeSVarintField | ios/Pods/nanopb/pb_decode.c:1390-1412 | zigzag fields, checked against their width |
| FieldDecode.DecodeBool | ios/Pods/nanopb/pb_decode.c:1318-1327 | any non-zero 32-bit varint is true |
| FieldDecode.DecodeFixed32 | ios/Pods/nanopb/pb_decode.c:1283-1295 | shifts and ORs assemble the little-endian word |
| FieldDecode.DecodeFixed64 | ios/Pods/nanopb/pb_decode.c:1298-1315 | shifts and ORs assemble the little-endian double word |
| FieldDecode.DecodeBytes | ios/Pods/nanopb/pb_decode.c:1431-1466 | a bytes field within its buffer, size header included |
| FieldDecode.DecodeString | ios/Pods/nanopb/pb_decode.c:1468-1501 | a string with room for its NUL, which is appended |
| FieldDecode.DecodeFixedBytes | ios/Pods/nanopb/pb_decode.c:1527-1549 | exactly data_size bytes, or zeros for an empty payload |
| FieldDecode.DecodeScalar | ios/Pods/nanopb/pb_decode.c:67-81 | the decoder table |
| ScalarMeaning.Varint64Exact | ios/Pods/nanopb/pb_decode.c:255-275 | of every input, accepted exactly when it starts with a varint of at most ten bytes; the value is its number modulo 2^64 |
| ScalarMeaning.ClampVarintExactly | ios/Pods/nanopb/pb_decode.c:1329-1364 | a signed field takes a value exactly when an integer of its width equals it modulo 2^64, or 2^32 below eight bytes, and then that integer |
| ScalarMeaning.ClampUVarintExactly | ios/Pods/nanopb/pb_decode.c:1366-1388 | an unsigned field takes exactly the values of its width |
| ScalarMeaning.ClampSVarintExactly | ios/Pods/nanopb/pb_decode.c:1390-1412 | a zigzag field takes a value exactly when it stands for an integer of its width |
| ScalarMeaning.IntegerExactly | ios/Pods/nanopb/pb_decode.c:1329-1412 | integer fields on every input: which bytes are accepted, as which integer, with which bytes left |
| ScalarMeaning.FixedExactly | ios/Pods/nanopb/pb_decode.c:1283-1315 | fixed-width fields on every input, by the weights of their bytes |
| ScalarMeaning.BoolExactly | ios/Pods/nanopb/pb_decode.c:1318-1327 | a bool is true exactly when some bit of the 32-bit word is set |
| ScalarMeaning.DelimitedExactly | ios/Pods/nanopb/pb_decode.c:1431-1549 | strings, bytes and fixed-length bytes on every input: the room each demands and what is stored |
| ScalarMeaning.TagExactly | ios/Pods/nanopb/pb_decode.c:298-319 | field number above three bits of wire type; zero, and only zero, ends a message |
| PbDecode.SetFieldDefault | ios/Pods/nanopb/pb_decode.c:836-906 | the value a field has after initialisation: flag cleared, count zero, declared or zero value |
| PbDecode.SetDefaults | ios/Pods/nanopb/pb_decode.c:908-919 | the iterator loop initialises every slot of uninitialised memory |
| PbDecode.DecodePacked | ios/Pods/nanopb/pb_decode.c:424-453 | the packed loop stores items while there are bytes and room, and fails if bytes are left; the count stays within array_size also on failure |
| PbDecode.DecodeStatic | ios/Pods/nanopb/pb_decode.c:406-480 | one field by its rule: required, optional, packed or single item, oneof member; a failed decode has set the has_ flag or which_ tag, and counted the item of an unpacked array |
| PbDecode.DecodeSubmessage | ios/Pods/nanopb/pb_decode.c:1503-1525 | array items are initialised, other submessages merged; the stream continues behind the delimited bytes; for items that are initialised within their bytes |
| PbDecode.DecodeKnown | ios/Pods/nanopb/pb_decode.c:988-1020 | fixed-count switching, required bit and field, from any iterator position |
| PbDecode.DecodeRecord | ios/Pods/nanopb/pb_decode.c:957-1020 | a known record is decoded, an unknown one skipped; tag 0 in an empty descriptor reads a bool |
| PbDecode.DecodeRecords | ios/Pods/nanopb/pb_decode.c:943-1021 | the main loop, which ends at the end of the stream or at a zero byte |
| PbDecode.CountRequired | ios/Pods/nanopb/pb_decode.c:1036-1046 | walking on from any iterator position counts all required fields, a required last one included |
| PbDecode.DecodeNoInit | ios/Pods/nanopb/pb_decode.c:925-1073 | pb_decode_noinit succeeds exactly when the specification does, with its struct and its bytes left, for schemas whose items are initialised within their bytes |
| PbDecode.DecodeMessage | ios/Pods/nanopb/pb_decode.c:1075-1087 | pb_decode, into initialised memory |
| PbDecode.DecodeDelimitedFrom | ios/Pods/nanopb/pb_decode.c:1104-1117 | pb_decode_delimited leaves exactly the bytes behind the message |
| RequiredBitmap.Mark | ios/Pods/nanopb/pb_decode.c:1012-1017 | setting one bit of the two words adds that index and no other |
| RequiredBitmap.AllPresent | ios/Pods/nanopb/pb_decode.c:1048-1070 | the word and remainder comparisons hold if and only if each of the first 64 required fields was seen, at 0, 32 and 64 too |
| RequiredBitmap.AllBitsShifted | ios/Pods/nanopb/pb_decode.c:1063-1064 | the shifted mask has exactly the low bits set |
| Bits.LowBits | ios/Pods/nanopb/pb_decode.c:1054-1067 | a word without higher bits equals the mask if and only if all its low bits are set |
| RequiredLaws.RequiredCheckExact | ios/Pods/nanopb/pb_decode.c:1012-1070 | for every input: when all records decode and the fixed-count checks pass, decoding succeeds if and only if the tag of each of the first 64 required fields was read |
| Shapes.IntoShaped | ios/Pods/nanopb/pb_decode.c:925-1073 | decoding keeps every slot of the kind its position has, at any nesting depth |
| ScalarRoundTrip.IntegerRoundTrip | ios/Pods/nanopb/pb_decode.c:1329-1412 | every signed, unsigned and zigzag value of 1, 2, 4 or 8 bytes survives the width check |
| ScalarRoundTrip.FixedRoundTrip | ios/Pods/nanopb/pb_decode.c:1283-1315 | fixed-width values come back |
| ScalarRoundTrip.PrefixedSplit | ios/Pods/nanopb/pb_decode.c:372-385 | a delimited region below 2^32 bytes is cut out exactly |
| ScalarRoundTrip.ScalarRoundTrips | ios/Pods/nanopb/pb_decode.c:1318-1549 | an encoded scalar decodes back, except a string without NUL, which fails |
| RoundTrip.TagRoundTrip | ios/Pods/nanopb/pb_decode.c:298-319 | every legal tag and wire type come back |
| RoundTrip.ZeroIsDefault | ios/Pods/nanopb/pb_encode.c:240-337 | a value that the encoder leaves out as zero is what the decoder initialises |
| RoundTrip.AllZeroIsDefaults | ios/Pods/nanopb/pb_encode.c:296-307 | the same for whole submessages |
| RoundTrip.PackedLoopInverts | ios/Pods/nanopb/pb_decode.c:434-443 | the packed loop reads back the items of a packed array |
| RoundTrip.MessageRoundTrips | ios/Pods/nanopb/pb_decode.c:925-1087 | full round trip over nested schemas: the message comes back if and only if every encoded string is terminated |
| Canonical.DecodedReencodes | ios/Pods/nanopb/pb_decode.c:1075-1087 | every accepted input gives valid values, counts and strings; with its fixed-count arrays received, the message encodes and decodes to itself |
| Canonical.IntoSound | ios/Pods/nanopb/pb_decode.c:925-1073 | each record keeps values within their fields, counts within their arrays (fixed-count ones too) and strings terminated, at any depth |
| Canonical.NoFixedComplete | ios/Pods/nanopb/pb_decode.c:1075-1087 | without fixed-count arrays nothing remains to be received |
| Locality.DecRecordLocal | ios/Pods/nanopb/pb_decode.c:943-1021 | a record's effect does not depend on the bytes behind it |
| DecodeLaws.DecLoopConcat | ios/Pods/nanopb/pb_decode.c:943-1021 | decoding whole records and then the rest is decoding the concatenation |
| DecodeLaws.DecodingIsFold | ios/Pods/nanopb/pb_decode.c:925-1073 | without required and fixed-count fields, decoding a ++ b is decoding a and then b into the same struct |
| DecodeLaws.SkipFieldExact | ios/Pods/nanopb/pb_decode.c:278-331 | skipping consumes a payload exactly if and only if it is well formed for its wire type |
| DecodeLaws.UnknownFieldsTransparent | ios/Pods/nanopb/pb_decode.c:957-986 | undescribed records at any number of record boundaries change neither the struct nor success nor the bytes left |
| DecodeLaws.RecordsCommute | ios/Pods/nanopb/pb_decode.c:406-480 | two records of independent fields have the same joint effect in either order, or fail in either order, when items are initialised within their bytes |
| DecodeLaws.AdjacentRecordsSwap | ios/Pods/nanopb/pb_decode.c:925-1073 | swapping adjacent records of different tags outside a shared oneof does not change the result, failure included, when items are initialised within their bytes |
| DecodeLaws.PackedAgreesWithUnpacked | ios/Pods/nanopb/pb_decode.c:424-464 | one packed record and the unpacked records of the same items give the same array and count, and fail together; also for no items, where the record must leave the state alone |
| DecodeLaws.EmptyPackedExactly | ios/Pods/nanopb/pb_decode.c:424-453 | an empty packed record changes nothing if and only if its array is counted or is the fixed-count array being received |
| MergeLaws.SplitMessageMerges | ios/Pods/nanopb/pb_decode.c:1503-1525 | two records of a singular submessage act as one record with the bytes of both |
| MergeLaws.MemberStartsAfresh | ios/Pods/nanopb/pb_decode.c:1515-1520 | a new array item or oneof member is what pb_decode makes of the record, whatever was there |
| MergeLaws.LastOneWins | ios/Pods/nanopb/pb_decode.c:406-480 | of two records of a singular field that is no submessage, or of a oneof member, the first leaves no trace |
| MergeLaws.FixedArrayReplaced | ios/Pods/nanopb/pb_decode.c:988-1010 | a fixed-count array received again holds the new items only |
| CountLaws.RecordCounts | ios/Pods/nanopb/pb_decode.c:424-464 | a record leaves at most array_size items, and counts them |
| CountLaws.DecodedCounts | ios/Pods/nanopb/pb_decode.c:925-1073 | after a whole decode, for every descriptor, the arrays of the outermost message hold at most array_size items, and the fixed-count ones all of them or none |
| CountLaws.FreshCounts | ios/Pods/nanopb/pb_decode.c:1075-1087 | the same for pb_decode, whatever the input |
| NestedCounts.IntoCounts | ios/Pods/nanopb/pb_decode.c:925-1073 | after a whole decode, at every depth, an array holds at most array_size items, and a fixed-count array all of them or none |
| NestedCounts.FreshAllCounts | ios/Pods/nanopb/pb_decode.c:1075-1087 | the same for pb_decode, whatever the input |
| Framing.DelimitedRoundTrip | ios/Pods/nanopb/pb_decode.c:1104-1117 | a delimited message decodes back and leaves exactly what follows |
| Framing.StreamRoundTrip | ios/Pods/nanopb/pb_decode.c:1104-1117 | so does a sequence of delimited messages |
| Framing.NullTerminatedRoundTrip | ios/Pods/nanopb/pb_decode.c:1119-1123 | so does a null-terminated message, whatever bytes follow |
| AuthenticationInterceptor.Interceptor.constructor | ios/Pods/Alamofire/Source/AuthenticationInterceptor.swift:241-247 | the initial state |
| AuthenticationInterceptor.Interceptor.Adapt | ios/Pods/Alamofire/Source/AuthenticationInterceptor.swift:251-290 | adapts, fails, or queues and refreshes, as the locked state says |
| AuthenticationInterceptor.Interceptor.RetryRead | ios/Pods/Alamofire/Source/AuthenticationInterceptor.swift:294-318 | retry up to the lock, with the credential it read |
| AuthenticationInterceptor.Interceptor.RetryLock | ios/Pods/Alamofire/Source/AuthenticationInterceptor.swift:320-326 | retry inside the lock, with a credential that may be outdated |
| AuthenticationInterceptor.Interceptor.Refresh | ios/Pods/Alamofire/Source/AuthenticationInterceptor.swift:331-354 | refuses an excessive refresh, otherwise records its time and dispatches it |
| AuthenticationInterceptor.Interceptor.IsRefreshExcessive | ios/Pods/Alamofire/Source/AuthenticationInterceptor.swift:356-369 | the count of attempts since the window's start reaches the maximum |
| AuthenticationInterceptor.Interceptor.HandleRefreshSuccess | ios/Pods/Alamofire/Source/AuthenticationInterceptor.swift:371-387 | stores the credential, moves both queues into one dispatched block, ends the refresh |
| AuthenticationInterceptor.Interceptor.HandleRefreshFailure | ios/Pods/Alamofire/Source/AuthenticationInterceptor.swift:389-403 | moves both queues into one failing block, ends the refresh |
| AuthenticationInterceptor.Interceptor.RunItem | ios/Pods/Alamofire/Source/AuthenticationInterceptor.swift:342-402 | the next item of the dispatched block: operations are adapted again, retries released |
| AuthenticationInterceptor.Interceptor.Handle | ios/Pods/Alamofire/Source/AuthenticationInterceptor.swift:251-403 | every event takes the object from one state of a run to the next |
| AuthenticationLaws.ExactlyOnePlace | ios/Pods/Alamofire/Source/AuthenticationInterceptor.swift:251-403 | over every interleaving each submission is pending, dispatched, about to lock or called: exactly one of them |
| AuthenticationLaws.PendingOnlyWhileRefreshing | ios/Pods/Alamofire/Source/AuthenticationInterceptor.swift:371-403 | when no refresh is under way both queues are empty, in every reachable state |
| AuthenticationLaws.RepeatedAnswer | ios/Pods/Alamofire/Source/AuthenticationInterceptor.swift:342-353 | a repeated answer keeps the flag set exactly while one refresh is out if and only if none is under way |
| AuthenticationLaws.OneRefreshExactly | ios/Pods/Alamofire/Source/AuthenticationInterceptor.swift:331-403 | the flag is set exactly while one refresh is out, in every state of a run, if and only if every repeated answer comes while none is under way |
| AuthenticationLaws.StartsExactly | ios/Pods/Alamofire/Source/AuthenticationInterceptor.swift:251-369 | the guards of adapt and retry under which a step sets the flag |
| AuthenticationLaws.AtMostOneExactly | ios/Pods/Alamofire/Source/AuthenticationInterceptor.swift:331-403 | at most one refresh is out, in every state of a run, if and only if no event starts one while another is out |
| AuthenticationLaws.AtMostOneRefresh | ios/Pods/Alamofire/Source/AuthenticationInterceptor.swift:331-354 | if refreshes are answered once, exactly one is dispatched or in flight while isRefreshing is set, and none otherwise, throughout the run |
| AuthenticationLaws.AnsweringTwiceOverlaps | ios/Pods/Alamofire/Source/AuthenticationInterceptor.swift:342-353 | witness: a run with an answer repeated during a refresh, after which two are under way |
| AuthenticationLaws.EveryCompletionCalled | ios/Pods/Alamofire/Source/AuthenticationInterceptor.swift:251-403 | when nothing is left to run, each completion has been called as often as it was submitted, whatever the authenticator answers |
| AuthenticationOutcomes.OutcomeEarnedLater | ios/Pods/Alamofire/Source/AuthenticationInterceptor.swift:251-403 | from any moment at which a submission is undecided: a retry is granted only by a refresh succeeding after that moment or for an outdated credential, an error is the interceptor's own or reported after it |
| AuthenticationOutcomes.CallTraced | ios/Pods/Alamofire/Source/AuthenticationInterceptor.swift:251-403 | every call is traced to the step that made it: a request goes out with the credential stored at that step, which does not require a refresh at that moment |
| AuthenticationHistory.StoredIsLastGiven | ios/Pods/Alamofire/Source/AuthenticationInterceptor.swift:371-387 | over every run the stored credential is the one given last, by the outside or by a refresh that succeeded |
| AuthenticationHistory.RequestCarriesLastGiven | ios/Pods/Alamofire/Source/AuthenticationInterceptor.swift:251-290 | a request that goes out, at once or released by a refresh, carries the credential given last before that step |
| AuthenticationHistory.RefreshTraced | ios/Pods/Alamofire/Source/AuthenticationInterceptor.swift:331-354 | each refresh is traced to the event that started it while none was under way: for the credential given last or the one the retry had read, with the time that event read |
| AuthenticationHistory.ReadingTraced | ios/Pods/Alamofire/Source/AuthenticationInterceptor.swift:294-318 | a retry on its way to the lock carries the credential given last before it read |
| AuthenticationHistory.ErrorTraced | ios/Pods/Alamofire/Source/AuthenticationInterceptor.swift:251-403 | each error handed out has its cause: no credential stored at that step, an error that a refresh reported, or a refresh refused when the window was full |
| AuthenticationOrder.RetriesInOrder | ios/Pods/Alamofire/Source/AuthenticationInterceptor.swift:371-403 | over every run retries are called by dispatched blocks in the order in which they took the lock |
| AuthenticationOrder.AdaptsInOrder | ios/Pods/Alamofire/Source/AuthenticationInterceptor.swift:371-403 | adapt operations leave the line in the order in which they joined it |
| AuthenticationOrder.AllRetriesInOrder | ios/Pods/Alamofire/Source/AuthenticationInterceptor.swift:371-403 | when nothing is left to run, exactly the retries that took the lock have been called, in that order |
| AuthenticationWindow.RefreshesBounded | ios/Pods/Alamofire/Source/AuthenticationInterceptor.swift:331-369 | over every run with a clock that never goes back, a closed interval of the window's length holds at most maximumAttempts refreshes |
| AuthenticationWindow.RefusedOnlyWhenFull | ios/Pods/Alamofire/Source/AuthenticationInterceptor.swift:356-369 | in every reachable state with a clock that never goes back, a refresh is refused if and only if the interval that ends now holds exactly maximumAttempts refreshes |
| AuthenticationWindow.RefusedAtMaximum | ios/Pods/Alamofire/Source/AuthenticationInterceptor.swift:356-369 | witness: with one attempt allowed, a reachable state in which one attempt in the window makes the next refused |
| RequestTaskMap.TaskMap.SetTask | ios/Pods/Alamofire/Source/RequestTaskMap.swift:47-66 | associates, or removes the pair from all three maps; fatal exactly for an unknown request |
| RequestTaskMap.TaskMap.SetRequest | ios/Pods/Alamofire/Source/RequestTaskMap.swift:68-87 | the same from the task's side |
| RequestTaskMap.TaskMap.DisassociateAfterGatheringMetrics | ios/Pods/Alamofire/Source/RequestTaskMap.swift:115-125 | first event recorded, second removes, duplicate fatal |
| RequestTaskMap.TaskMap.DisassociateAfterCompletion | ios/Pods/Alamofire/Source/RequestTaskMap.swift:127-147 | first event recorded, second removes, duplicate fatal |
| RequestTaskMap.AssociationConsistent | ios/Pods/Alamofire/Source/RequestTaskMap.swift:47-87 | the maps stay mutually inverse if and only if neither side was associated with something else |
| RequestTaskMap.RemovalUndoes | ios/Pods/Alamofire/Source/RequestTaskMap.swift:47-87 | removal undoes association |
| SessionTasks.Session.DidCreateURLRequest | ios/Pods/Alamofire/Source/Session.swift:1089-1101 | a live request gets its task, a cancelled one nothing |
| SessionTasks.Session.DidGatherMetricsForTask | ios/Pods/Alamofire/Source/Session.swift:1223-1232 | runs and drops a waiting completion when the task is removed |
| SessionTasks.Session.DidCompleteTask | ios/Pods/Alamofire/Source/Session.swift:1234-1244 | runs the completion when the task is removed, otherwise keeps it |
| SessionTasks.BookFaithful | ios/Pods/Alamofire/Source/Session.swift:1223-1244 | over every event sequence with fresh tasks: fatalError exactly for an unexpected event; otherwise maps inverse, waiting completions exactly those completed without metrics, each finished task's completion run once |
| SessionTasks.SessionFaithful | ios/Pods/Alamofire/Source/Session.swift:1223-1244 | the same for a new session |
| SessionTasks.RunsAtSecondEvent | ios/Pods/Alamofire/Source/Session.swift:1223-1244 | a completion runs exactly at the second of its task's events, in either order |
| DataStream.DataStreamRequest.ResponseStream | ios/Pods/Alamofire/Source/ResponseSerialization.swift:992-1003 | a stream and its completion are registered |
| DataStream.DataStreamRequest.DidReceive | ios/Pods/Alamofire/Source/Request.swift:1299-1313 | the counter grows by the streams registered, whose handlers are dispatched |
| DataStream.DataStreamRequest.StreamCompletion | ios/Pods/Alamofire/Source/Request.swift:1376-1395 | a completion event is released at zero, held back otherwise |
| DataStream.DataStreamRequest.UpdateAndCompleteIfPossible | ios/Pods/Alamofire/Source/ResponseSerialization.swift:1085-1095 | the counter shrinks by one; at zero all events held back are released together |
| DataStream.DataStreamRequest.RunHead | ios/Pods/Alamofire/Source/Request.swift:1311 | the block at the head of the underlying queue hands its handler runs or completion events on |
| DataStream.DataStreamRequest.Handle | ios/Pods/Alamofire/Source/Request.swift:1299-1395 | every event takes the object from one state of a run to the next |
| DataStream.RunsExact | ios/Pods/Alamofire/Source/Request.swift:1299-1313 | each piece of data is handled once by each stream registered when it arrived |
| DataStream.CounterExact | ios/Pods/Alamofire/Source/Request.swift:1299-1313 | over every interleaving the counter is the number of handler runs scheduled and not finished, hence never negative |
| DataStream.ReleasedOnlyAtZero | ios/Pods/Alamofire/Source/ResponseSerialization.swift:1085-1095 | a completion event is released only when no handler run is outstanding, and stays released |
| DataStream.ExactlyOnePlace | ios/Pods/Alamofire/Source/Request.swift:1376-1395 | each registered completion is unprocessed, held back or released: exactly one of them |
| DataStream.EveryCompletionReleased | ios/Pods/Alamofire/Source/Request.swift:1376-1395 | once all queues are empty each registered completion has been called exactly once |
| DataStreamOrder.HandedInOrder | ios/Pods/Alamofire/Source/Request.swift:1299-1313 | over every interleaving the data reaches the handlers' queues in the order of arrival, and each piece in the order in which its streams were registered |
| DataStreamOrder.AllHandedInOrder | ios/Pods/Alamofire/Source/Request.swift:1299-1313 | once the underlying queue is empty, exactly the data that arrived has been handed on, in order |
| DataStreamOrder.CompletionsInOrder | ios/Pods/Alamofire/Source/Request.swift:1376-1395 | completion events that were held back are released in the order in which they came |
| MultipartFormData.Form.Append | ios/Pods/Alamofire/Source/MultipartFormData.swift:307-310 | a part without boundary flags is added at the end |
| MultipartFormData.Form.MarkBoundaries | ios/Pods/Alamofire/Source/MultipartFormData.swift:329-330 | only the first part's initial flag and the last part's final flag are set |
| MultipartFormData.Form.Encode | ios/Pods/Alamofire/Source/MultipartFormData.swift:322-338 | the bytes of the marked parts; fails exactly on a refused append, a stream error or a wrong length; flags stay set and, on success, streams are used up |
| MultipartFormData.Form.EncodeBodyStream | ios/Pods/Alamofire/Source/MultipartFormData.swift:402-431 | the stream's bytes whatever the chunks; fails exactly on a stream error or a wrong length |
| MultipartFormData.Form.WriteEncodedData | ios/Pods/Alamofire/Source/MultipartFormData.swift:347-371 | the same bytes as Encode, cut at the file's capacity; fails exactly on a refused append, a refused file or a stream error; flags stay set and, on success, streams are used up |
| MultipartFormData.Form.WritePart | ios/Pods/Alamofire/Source/MultipartFormData.swift:435-482 | the four pieces of a part in order |
| MultipartFormData.Form.WriteBodyStream | ios/Pods/Alamofire/Source/MultipartFormData.swift:452-476 | all bytes of the input stream reach the output, whatever the chunks |
| MultipartFormData.Form.WriteBytes | ios/Pods/Alamofire/Source/MultipartFormData.swift:486-509 | the partial-write loop writes all that fits, in order, whatever the write sizes |
| MultipartShape.ClipExact | ios/Pods/Alamofire/Source/MultipartFormData.swift:493-509 | a file holds the whole form if and only if it has the space, and a prefix otherwise |
| MultipartShape.FreshFormIsMultipart | ios/Pods/Alamofire/Source/MultipartFormData.swift:64-77 | a fresh non-empty form has one opening boundary, n - 1 delimiters and one closing delimiter |
| MultipartShape.MultipartExactly | ios/Pods/Alamofire/Source/MultipartFormData.swift:322-338 | a form, fresh or encoded before, encodes to the multipart body of its parts if and only if no part before the last has kept its final flag |
| MultipartShape.MarkedLength | ios/Pods/Alamofire/Source/MultipartFormData.swift:375-392 | each such part adds the bytes of one closing delimiter |
| MultipartShape.ExtendedIsNotMultipart | ios/Pods/Alamofire/Source/MultipartFormData.swift:329-330 | encoded, extended and encoded again, no form gives the multipart body of its parts |
| MultipartShape.RepeatedIsMultipart | ios/Pods/Alamofire/Source/MultipartFormData.swift:329-330 | encoded again without an extension, it gives the multipart body of its drained parts |
| MultipartReader.ReaderFindsVisible | ios/Pods/Alamofire/Source/MultipartFormData.swift:322-338 | a reader that splits at delimiters finds, in the bytes of any form, the parts up to the first closing delimiter if and only if none of these contains the delimiter |
| MultipartReader.ReaderRecoversParts | ios/Pods/Alamofire/Source/MultipartFormData.swift:64-77 | when no header or body contains the delimiter, it recovers all parts if and only if none before the last has kept its final flag |
| MultipartReader.AddedPartUnread | ios/Pods/Alamofire/Source/MultipartFormData.swift:329-330 | encoded, extended and encoded again, with no delimiter in the parts: a reader sees nothing of the added part |
| MultipartHeaders.ReadPartExactly | ios/Pods/Alamofire/Source/MultipartFormData.swift:393-400 | a reader of lines, split at colon and space up to the empty line, gets back headers and body if and only if no name holds colon and space and no header line a line break |
| MultipartHeaders.FormComesBack | ios/Pods/Alamofire/Source/MultipartFormData.swift:322-338 | when no part contains the delimiter, a reader gets back headers and body of every part if and only if the headers are such and no part before the last has kept its final flag |
| MultipartFormData.EncodeAppendEncode | ios/Pods/Alamofire/Source/MultipartFormData.swift:322-338 | the second encode() throws if the first part had a body, and otherwise returns the bytes of the marked parts, which are not the multipart body of the two |
| MultipartFormData.WriteAppendWrite | ios/Pods/Alamofire/Source/MultipartFormData.swift:347-371 | the second writeEncodedData reports success without the first part's body and with a closing delimiter too many |

## Left out

- Callback fields, registered extensions and custom stream callbacks: user code with unknown behaviour. An
  extension placeholder in a descriptor stands for an empty list of extensions, which handles no record; the
  methods of the decoder and the encoder leave descriptors with a placeholder aside.
- Pointer fields, pb_release and pb_release_union_field: the branches of PB_ENABLE_MALLOC. For a descriptor without
  pointer fields they release nothing, and check that a oneof's stored tag is one of its members.
- The errmsg texts: only success and failure are modelled.
- pb_decode_delimited_noinit: pb_decode_delimited without the initialisation.
- The struct as memory updated in place: a struct is a value that the decoding methods take and return. Padding and pointer
  casts are not captured.
- PbDecode.DecodeStatic: of a failed decode, states the markers and the count it leaves, not the data bytes; the callers do not
  hand a failed decode's struct on.
- PbDecode.SetFieldDefault: works on slots, where an absent fixed-count array counts as empty; the bytes written are those of
  ItemOverrun.SetFieldInPlace.
- PbDecode.DecodeMessage: works on slots; when the outermost struct ends in a fixed-count array of less than four bytes, the C
  code also clears the bytes behind that struct, as StructMemory.InitWrites says.
- PbDecode.DecodeNoInit: asks for schemas whose items are initialised within their bytes; what other schemas decode to depends
  on memory shared by slots, of which StructMemory.ItemKeepsExactly says what is lost.
- Contents nobody reads: bytes behind a string's NUL, oneof memory without a selected member, items behind an array's count, the
  stray byte that tag 0 writes into a struct without fields.
- PbEncode.GetEncodedSize: does not model the wrap-around of the size counter at 2^64 bytes; sizes are unbounded up to the U64
  conversion of a length.
- The narrower pb_size_t of a build without PB_FIELD_32BIT.
- PbDecode.DecodeKnown: a fixed-count field is recognised by its descriptor; the C code compares the iterator's two pointers, the
  second of which it has redirected.
- Canonical.DecodedReencodes: encoding asks for every fixed-count array to have been received, because an absent one is memory
  that decoding does not initialise.
- MergeLaws.SplitMessageMerges: the submessage has no required and fixed-count fields of its own, because their checks run at the
  end of each record; what its submessages have does not matter.
- MergeLaws.FixedArrayReplaced: for one packed record with all items, not for items spread over several records.
- DecodeLaws.DecodingIsFold: required and fixed-count fields are excluded, because their checks run at the end of each part.
- Floating point: float and double fields are their 32- and 64-bit patterns; times are real numbers.
- Requests, sessions, tasks, closures, dispatch queues other than the modelled ones, and what an authenticator computes: foreign.
- AuthenticationInterceptor.Interceptor.Adapt: whether the stored credential requires a refresh is an input of the step, like
  the clock, because the source reads a property that may change with time.
- Linux and watchOS before 7, where tasks gather no metrics: only the branch with metrics is modelled.
- DataStream.EveryCompletionReleased: serializers appended after the request has finished are not modelled; each response
  serializer runs once.
- The output stream bound by asInputStream, and the order among handler queues.
- MultipartFormData.Form.Append: the stream is not shared with another part; the checks on file URLs that precede an append are
  foreign, their outcome is the form's error flag.
- MultipartFormData.OutputStream.HasSpaceAvailable: space is a fixed capacity; a stream without space for the moment only is not
  modelled.
- MultipartFormData.InputStream.HasBytesAvailable: false at the end only; a bound or network stream that is false for the moment,
  at which encode() throws and writeEncodedData truncates the part, is not modelled.
- MultipartReader.ReaderFindsVisible: the boundary has no carriage return, as the characters that RFC 2046 admits have none.
- MultipartReader.ReadMultipart: no preamble and no padding behind a boundary is looked for, because the encoders write none.
- UTF-8 encoding of header and boundary text: both are bytes. The random boundary is a parameter.
- Header collections, interceptor chaining, retry policy, URL encoding, the karupasu application code and BoringSSL: they would
  add only easy members.
