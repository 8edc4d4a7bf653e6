# A verified model of msgpack-java's streaming unpacker

This project models the decoding core of msgpack-java 0.7, the class
`AbstractMessagePackUnpacker`. The unpacker pulls a MessagePack stream of the
original format revision from an `Input`. That revision has positive and
negative fixnums, nil, booleans, float and double, the uint and int
families, fixraw/raw16/raw32, and fix/16/32 arrays and maps; it predates the
str and bin types.

The unpacker's mutable state is modelled as it is kept:

- the pending tag byte `headByte`;
- the raw body buffer `raw` and its fill count `rawFilled`;
- the container stack, one frame per open array or map, each counting the children still expected.

There are five modules:

- `Wire` (`wire.dfy`): bytes, tokens, errors, and the tag table in the dispatcher's test order.
  - `DecodeToken(input, p)` is a pure reference decoder of the one token whose tag is at byte `p`.
  - `SkipValues(input, p, n)` finds where `n` consecutive whole values end; a container counts as one value together with all its children.
- `Frames` (`frames.dfy`): the frame stack as a `seq<Frame>`, with these operations:
  - the slot check (`checkCount`) as `HasSlot`;
  - `reduceCount` as `Reduce`;
  - `pushArray`/`pushMap` as `Open`;
  - `pop` as `Close`;
  - `Owed`, the number of values still needed to close a run of frames.
- `Unpackers` (`unpacker.dfy`): class `Unpacker`.
  - Its fields are the bytes delivered so far (`input`), how many of them were consumed (`pos`), the pending tag (`head`), the raw buffer as an `array<byte>` filled in place together with `rawFilled`, and the frame stack.
  - Every operation is a method proved against the reference decoder. A read takes exactly the token `DecodeToken` finds at the cursor. `skip` and a lenient `readArrayEnd`/`readMapEnd` consume exactly the values `SkipValues` finds.
  - Loops become `while` loops with invariants: the raw body copy, the depth loop of `skip`, and the drain loop of the end calls.
- `WireFacts` (`wire_facts.dfy`): what the tag table promises, proved of the reference decoder.
  - Single-byte tags carry their value.
  - Container counts, raw lengths, rejected sizes and invalid tags are read as the format defines.
  - Later input never changes a token that is already complete.
  - Every encodable token decodes back from its encoding.
- `AsWritten` (`as_written.dfy`): the places where the code departs from what it evidently intends, modelled as written, each with an input that shows the difference (see "## Findings").

Behaviour that `UnpackerStack` decides, whose source is not part of this model, was settled as follows:

- `pop` closes the innermost container, and the closed container counts as one child of the container around it. This reading was chosen; with it, `readOne` (lines 61-66) not reducing the count for a header still lets nested containers close.
- The empty stack is the top level, where any number of values may follow one another.
- A map frame is pushed with its pair count and holds two slots per pair, one for the key and one for the value.
- A container of count 0 pushes nothing.

Decisions on reads:

- A typed read whose visitor refuses the token fails with a type error. The token stays pending: the next read sees it again.
- `readByte` and `readShort` consume an integer outside their range but do not count it (lines 323-328 and 335-340).

In two places the model keeps what the code does:

- Errors: a failure part way through `skip` or a lenient end leaves the frames opened so far on the stack.
- A short raw body: it can be resumed once more bytes arrive (`Feed`).

## Model

| member | source | states |
|---|---|---|
| `Wire.DecodeToken` | src/main/java/org/msgpack/unpacker/AbstractMessagePackUnpacker.java:78-270 | a decoded token ends after its tag and within the input |
| `Wire.MaskTests` | src/main/java/org/msgpack/unpacker/AbstractMessagePackUnpacker.java:78-124 | the dispatcher's mask tests are the byte ranges of the tag table, and the low bits are the fixraw length and fix container count |
| `Wire.Unsigned` | src/main/java/org/msgpack/unpacker/AbstractMessagePackUnpacker.java:178 | a big-endian field of w bytes reads as a value below 256 to the power w |
| `Wire.SkipValues` | src/main/java/org/msgpack/unpacker/AbstractMessagePackUnpacker.java:478-497 | n > 0 whole values end strictly after p and within the input |
| `Wire.SkipValuesSplit` | src/main/java/org/msgpack/unpacker/AbstractMessagePackUnpacker.java:396-398 | skipping m + n values is skipping m and then n |
| `Wire.SkipValuesFirst` | src/main/java/org/msgpack/unpacker/AbstractMessagePackUnpacker.java:396-398 | a drain of n values is one skip followed by a drain of n - 1 |
| `Frames.ReducePreserves` | src/main/java/org/msgpack/unpacker/AbstractMessagePackUnpacker.java:64 | reducing the count keeps the nesting invariant and changes only the innermost count, by exactly one |
| `Frames.ReduceTop` | src/main/java/org/msgpack/unpacker/AbstractMessagePackUnpacker.java:64 | reducing takes one slot of the top frame and leaves the frames below alone |
| `Frames.OpenPreserves` | src/main/java/org/msgpack/unpacker/AbstractMessagePackUnpacker.java:109-111 | pushing a frame with children keeps the nesting invariant, and the new frame has a slot |
| `Frames.ClosePreserves` | src/main/java/org/msgpack/unpacker/AbstractMessagePackUnpacker.java:400 | a pop removes exactly one frame and counts the closed container as one child of its parent |
| `Frames.CloseIgnoresTop` | src/main/java/org/msgpack/unpacker/AbstractMessagePackUnpacker.java:400 | a pop does not depend on the count of the frame it removes |
| `Frames.Owed` | src/main/java/org/msgpack/unpacker/AbstractMessagePackUnpacker.java:485-496 | the values owed by a run of frames are at least the slots of its innermost frame |
| `Frames.OwedReduce` | src/main/java/org/msgpack/unpacker/AbstractMessagePackUnpacker.java:487-488 | reading a whole value leaves one value fewer owed |
| `Frames.OwedOpen` | src/main/java/org/msgpack/unpacker/AbstractMessagePackUnpacker.java:487 | reading a header trades its own slot for the slots of its children |
| `Frames.OwedClose` | src/main/java/org/msgpack/unpacker/AbstractMessagePackUnpacker.java:489-490 | popping a finished frame leaves the values owed unchanged |
| `Frames.ReduceAbove` | src/main/java/org/msgpack/unpacker/AbstractMessagePackUnpacker.java:488 | reducing inside skip leaves the frames below its starting depth alone |
| `Frames.CloseAbove` | src/main/java/org/msgpack/unpacker/AbstractMessagePackUnpacker.java:490 | popping inside skip leaves the frames below its starting depth alone |
| `WireFacts.PositiveFixnumTag` | src/main/java/org/msgpack/unpacker/AbstractMessagePackUnpacker.java:78-82 | a tag with the top bit clear is the integer 0..127 and has no payload |
| `WireFacts.NegativeFixnumTag` | src/main/java/org/msgpack/unpacker/AbstractMessagePackUnpacker.java:84-88 | a tag with the top three bits set is the integer -32..-1 and has no payload |
| `WireFacts.NilTag` | src/main/java/org/msgpack/unpacker/AbstractMessagePackUnpacker.java:127-129 | a token is nil if and only if its tag is 0xc0, and it is one byte long |
| `WireFacts.BoolTags` | src/main/java/org/msgpack/unpacker/AbstractMessagePackUnpacker.java:130-135 | a token is false or true if and only if its tag is 0xc2 or 0xc3, and it is one byte long |
| `WireFacts.InvalidTags` | src/main/java/org/msgpack/unpacker/AbstractMessagePackUnpacker.java:126-269 | the tags outside the table are exactly 0xc1, 0xc4 to 0xc9 and 0xd4 to 0xd9 |
| `WireFacts.InvalidTagFails` | src/main/java/org/msgpack/unpacker/AbstractMessagePackUnpacker.java:265-269 | each of those tags fails with an invalid-byte error, whatever follows |
| `WireFacts.UnsignedFront` | src/main/java/org/msgpack/unpacker/AbstractMessagePackUnpacker.java:192 | the first byte of a big-endian field carries its highest weight |
| `WireFacts.SignBit` | src/main/java/org/msgpack/unpacker/AbstractMessagePackUnpacker.java:192-195 | a size read as a Java int is negative exactly when the top bit of its first byte is set |
| `WireFacts.TwoByteField` | src/main/java/org/msgpack/unpacker/AbstractMessagePackUnpacker.java:178 | a 16-bit field is its high byte times 256 plus its low byte |
| `WireFacts.FixContainerTag` | src/main/java/org/msgpack/unpacker/AbstractMessagePackUnpacker.java:102-124 | a fixmap or fixarray takes its count from the low four bits of its tag and has no payload |
| `WireFacts.Container16Tag` | src/main/java/org/msgpack/unpacker/AbstractMessagePackUnpacker.java:207-248 | array16 and map16 take their count from the full unsigned 16-bit field and end after it |
| `WireFacts.Container32Tag` | src/main/java/org/msgpack/unpacker/AbstractMessagePackUnpacker.java:220-264 | array32 and map32 reject a count with the sign bit set and otherwise take the count below 2 to the power 31 |
| `WireFacts.FixRawTag` | src/main/java/org/msgpack/unpacker/AbstractMessagePackUnpacker.java:90-100 | fixraw takes its length from the low five bits; the body follows, or the input ends too soon |
| `WireFacts.Raw16Tag` | src/main/java/org/msgpack/unpacker/AbstractMessagePackUnpacker.java:176-189 | raw16 takes its length from the unsigned 16-bit field; the body follows, or the input ends too soon |
| `WireFacts.Raw32Tag` | src/main/java/org/msgpack/unpacker/AbstractMessagePackUnpacker.java:190-206 | raw32 rejects a length with the sign bit set before reading a body |
| `WireFacts.RawExtent` | src/main/java/org/msgpack/unpacker/AbstractMessagePackUnpacker.java:273-285 | a decoded raw body is exactly as long as its header declares, and the token ends with it |
| `WireFacts.DecodeExtend` | src/main/java/org/msgpack/unpacker/AbstractMessagePackUnpacker.java:279-285 | bytes arriving later never change a complete token or any failure other than end of input |
| `WireFacts.SkipValuesExtend` | src/main/java/org/msgpack/unpacker/AbstractMessagePackUnpacker.java:478-497 | bytes arriving later never change where a complete run of values ends |
| `WireFacts.UnsignedToBE` | src/main/java/org/msgpack/unpacker/AbstractMessagePackUnpacker.java:144-175 | a big-endian field written from a value reads back as that value |
| `WireFacts.SmallSize` | src/main/java/org/msgpack/unpacker/AbstractMessagePackUnpacker.java:192-195 | a 32-bit size below 2 to the power 31 is never rejected as negative |
| `WireFacts.UnsignedForm` | src/main/java/org/msgpack/unpacker/AbstractMessagePackUnpacker.java:144-159 | uint8, uint16, uint32 and uint64 each read back, unsigned, every value of their width, and end after the field |
| `WireFacts.SignedTwos` | src/main/java/org/msgpack/unpacker/AbstractMessagePackUnpacker.java:160-175 | a two's-complement field read as a Java byte, short, int or long is the value written |
| `WireFacts.SignedForm` | src/main/java/org/msgpack/unpacker/AbstractMessagePackUnpacker.java:160-175 | int8, int16, int32 and int64 each read back every value of their signed range, and end after the field |
| `WireFacts.RoundTripInt` | src/main/java/org/msgpack/unpacker/AbstractMessagePackUnpacker.java:160-175 | every 64-bit signed integer decodes back from the narrowest of fixnum, int8, int16, int32 and int64 that holds it |
| `WireFacts.RoundTripUInt` | src/main/java/org/msgpack/unpacker/AbstractMessagePackUnpacker.java:144-159 | every 64-bit unsigned integer decodes back, unsigned, from the narrowest of uint8, uint16, uint32 and uint64 that holds it |
| `WireFacts.RoundTripFloat` | src/main/java/org/msgpack/unpacker/AbstractMessagePackUnpacker.java:136-143 | a float or double decodes back to the same four or eight bytes |
| `WireFacts.RoundTripRaw` | src/main/java/org/msgpack/unpacker/AbstractMessagePackUnpacker.java:90-100 | every raw body decodes back from its fixraw, raw16 or raw32 encoding |
| `WireFacts.RoundTripRaw16` | src/main/java/org/msgpack/unpacker/AbstractMessagePackUnpacker.java:176-189 | a raw16 encoding decodes to its body |
| `WireFacts.RoundTripRaw32` | src/main/java/org/msgpack/unpacker/AbstractMessagePackUnpacker.java:190-206 | a raw32 encoding decodes to its body |
| `WireFacts.RoundTripHeader` | src/main/java/org/msgpack/unpacker/AbstractMessagePackUnpacker.java:102-124 | every array or map header decodes back from its fix, 16-bit or 32-bit encoding |
| `WireFacts.RoundTrip` | src/main/java/org/msgpack/unpacker/AbstractMessagePackUnpacker.java:68-270 | every encodable token decodes back from its encoding, whatever follows, and ends exactly where the encoding ends |
| `Unpackers.OpenedHeader` | src/main/java/org/msgpack/unpacker/AbstractMessagePackUnpacker.java:102-124 | a header of count 0 pushes nothing; any other pushes one frame of its kind, with two slots per map pair |
| `Unpackers.AfterReadCounts` | src/main/java/org/msgpack/unpacker/AbstractMessagePackUnpacker.java:61-66 | a whole value reduces only the innermost count, by exactly one; a header leaves every count alone and opens a frame |
| `Unpackers.Unpacker.constructor` | src/main/java/org/msgpack/unpacker/AbstractMessagePackUnpacker.java:49-51 | a new unpacker has nothing consumed, nothing pending and no open container |
| `Unpackers.Unpacker.Feed` | src/main/java/org/msgpack/unpacker/AbstractMessagePackUnpacker.java:279-285 | bytes that arrive extend the input and keep a pending tag or raw pending |
| `Unpackers.Unpacker.GetHeadByte` | src/main/java/org/msgpack/unpacker/AbstractMessagePackUnpacker.java:53-59 | the pending tag if there is one, else the next byte, which becomes pending; end of input otherwise |
| `Unpackers.Unpacker.ReadRawBodyCont` | src/main/java/org/msgpack/unpacker/AbstractMessagePackUnpacker.java:279-285 | the buffer gains exactly the bytes available, up to its length; it is full, or the input is used up |
| `Unpackers.Unpacker.CopyInto` | src/main/java/org/msgpack/unpacker/AbstractMessagePackUnpacker.java:280 | the buffer's next len slots receive the input's next len bytes |
| `Unpackers.Unpacker.ReadRawBody` | src/main/java/org/msgpack/unpacker/AbstractMessagePackUnpacker.java:273-277 | a new buffer of the declared length is filled; the read yields the decoded raw, or end of input with the raw pending |
| `Unpackers.Unpacker.ResumeRaw` | src/main/java/org/msgpack/unpacker/AbstractMessagePackUnpacker.java:71-76 | a pending raw is completed from the input and yields the decoded raw, or stays pending |
| `Unpackers.Unpacker.TakeRaw` | src/main/java/org/msgpack/unpacker/AbstractMessagePackUnpacker.java:73-75 | a full buffer is handed to the visitor as the decoded raw and released |
| `Unpackers.Unpacker.FullRawDecodes` | src/main/java/org/msgpack/unpacker/AbstractMessagePackUnpacker.java:273-285 | a full buffer holds exactly the raw the reference decoder reads |
| `Unpackers.Unpacker.Deliver` | src/main/java/org/msgpack/unpacker/AbstractMessagePackUnpacker.java:109-111 | a visitor that takes the token consumes it and pushes its frame; one that does not leaves everything as it was |
| `Unpackers.Unpacker.Dispatch` | src/main/java/org/msgpack/unpacker/AbstractMessagePackUnpacker.java:78-270 | the token at the pending tag is read exactly as the reference decoder reads it |
| `Unpackers.Unpacker.DeliverFixed` | src/main/java/org/msgpack/unpacker/AbstractMessagePackUnpacker.java:126-175 | a form without a body is read exactly as the reference decoder reads it |
| `Unpackers.Unpacker.DeliverRaw` | src/main/java/org/msgpack/unpacker/AbstractMessagePackUnpacker.java:90-100 | a raw form is read exactly as the reference decoder reads it |
| `Unpackers.Unpacker.DeliverEmptyRaw` | src/main/java/org/msgpack/unpacker/AbstractMessagePackUnpacker.java:92-95 | a raw of length 0 is delivered without a body buffer |
| `Unpackers.Unpacker.ReadOneWithoutStack` | src/main/java/org/msgpack/unpacker/AbstractMessagePackUnpacker.java:68-271 | the read yields the token the reference decoder finds and consumes it, pushing its frame; a failure leaves the stack and, unless the tag was invalid, the token pending |
| `Unpackers.Unpacker.ReadOne` | src/main/java/org/msgpack/unpacker/AbstractMessagePackUnpacker.java:61-66 | after the slot check, one token is read and counted: a whole value fills one slot, a header opens a frame |
| `Unpackers.Unpacker.TryReadNil` | src/main/java/org/msgpack/unpacker/AbstractMessagePackUnpacker.java:287-296 | true and counted exactly when the next tag is 0xc0; otherwise false with the stack and cursor unchanged |
| `Unpackers.Unpacker.ReadNil` | src/main/java/org/msgpack/unpacker/AbstractMessagePackUnpacker.java:298-303 | succeeds exactly when tryReadNil would return true, and otherwise fails with the stack and cursor unchanged |
| `Unpackers.Unpacker.ReadBoolean` | src/main/java/org/msgpack/unpacker/AbstractMessagePackUnpacker.java:305-318 | false for 0xc2 and true for 0xc3, counted; any other tag fails with the stack unchanged |
| `Unpackers.Unpacker.ReadIntIn` | src/main/java/org/msgpack/unpacker/AbstractMessagePackUnpacker.java:320-342 | an integer in range is returned and counted; one outside fails after being consumed, without being counted |
| `Unpackers.Unpacker.ReadByte` | src/main/java/org/msgpack/unpacker/AbstractMessagePackUnpacker.java:320-330 | readByte returns an integer in -128..127, or fails without counting |
| `Unpackers.Unpacker.ReadShort` | src/main/java/org/msgpack/unpacker/AbstractMessagePackUnpacker.java:332-342 | readShort returns an integer in -32768..32767, or fails without counting |
| `Unpackers.Unpacker.ReadInt` | src/main/java/org/msgpack/unpacker/AbstractMessagePackUnpacker.java:344-348 | readInt returns the decoded integer, within the 32-bit range, as readOne counts it |
| `Unpackers.Unpacker.ReadLong` | src/main/java/org/msgpack/unpacker/AbstractMessagePackUnpacker.java:350-354 | readLong returns the decoded integer, within the 64-bit range, as readOne counts it |
| `Unpackers.Unpacker.ReadBigInteger` | src/main/java/org/msgpack/unpacker/AbstractMessagePackUnpacker.java:356-360 | readBigInteger returns any decoded integer, as readOne counts it |
| `Unpackers.Unpacker.ReadByteArray` | src/main/java/org/msgpack/unpacker/AbstractMessagePackUnpacker.java:374-377 | readByteArray returns the decoded raw body, as readOne counts it |
| `Unpackers.Unpacker.ReadArrayBegin` | src/main/java/org/msgpack/unpacker/AbstractMessagePackUnpacker.java:379-383 | readArrayBegin returns the element count of an array header and opens its frame |
| `Unpackers.Unpacker.ReadMapBegin` | src/main/java/org/msgpack/unpacker/AbstractMessagePackUnpacker.java:403-407 | readMapBegin returns the pair count of a map header and opens its frame of two slots per pair |
| `Unpackers.Unpacker.Skip` | src/main/java/org/msgpack/unpacker/AbstractMessagePackUnpacker.java:478-497 | skip consumes exactly one whole value, as the reference skip finds it, and counts it in the innermost container |
| `Unpackers.Unpacker.SkipContainer` | src/main/java/org/msgpack/unpacker/AbstractMessagePackUnpacker.java:485-496 | the depth loop consumes exactly the opened container's children and returns to the depth skip started at |
| `Unpackers.Unpacker.ReadAnyToken` | src/main/java/org/msgpack/unpacker/AbstractMessagePackUnpacker.java:487 | a read through the skip visitor consumes exactly the decoded token and pushes its frame |
| `Unpackers.Unpacker.SkipStep` | src/main/java/org/msgpack/unpacker/AbstractMessagePackUnpacker.java:487-495 | one turn of the depth loop owes one value fewer plus the children of a header, and stops once nothing is owed |
| `Unpackers.Unpacker.CloseFinished` | src/main/java/org/msgpack/unpacker/AbstractMessagePackUnpacker.java:489-494 | every finished frame above skip's starting depth is popped, leaving the values owed unchanged |
| `Unpackers.Unpacker.ReadContainerEnd` | src/main/java/org/msgpack/unpacker/AbstractMessagePackUnpacker.java:409-425 | the end call refuses a container of the other kind and, when strict, an unfinished one; otherwise it drains the unread children and pops |
| `Unpackers.Unpacker.Pop` | src/main/java/org/msgpack/unpacker/AbstractMessagePackUnpacker.java:424 | a pop closes the innermost container and keeps the stack well nested |
| `Unpackers.Unpacker.SkipChildren` | src/main/java/org/msgpack/unpacker/AbstractMessagePackUnpacker.java:420-422 | the drain loop skips exactly the remaining children and leaves the innermost frame with none left |
| `Unpackers.Unpacker.ReadArrayEnd` | src/main/java/org/msgpack/unpacker/AbstractMessagePackUnpacker.java:385-401 | readArrayEnd refuses unless an array is innermost, and refuses an unfinished one when strict; otherwise it drains the unread children and pops the frame |
| `Unpackers.Unpacker.ReadMapEnd` | src/main/java/org/msgpack/unpacker/AbstractMessagePackUnpacker.java:409-425 | readMapEnd refuses unless a map is innermost, and refuses an unfinished one when strict; otherwise it drains the unread children and pops the frame |
| `AsWritten.Count16Truncates` | src/main/java/org/msgpack/unpacker/AbstractMessagePackUnpacker.java:209 | as written, the 16-bit count is its low byte, right exactly when the high byte is zero |
| `AsWritten.Array16Counterexample` | src/main/java/org/msgpack/unpacker/AbstractMessagePackUnpacker.java:207-219 | [0xdc, 0x01, 0x00] opens an empty array as written, an array of 256 as intended |
| `AsWritten.RawBodyNeverEnds` | src/main/java/org/msgpack/unpacker/AbstractMessagePackUnpacker.java:279-285 | as written, a raw body never raises end of input; a complete one is read correctly |
| `AsWritten.RawBodyCounterexample` | src/main/java/org/msgpack/unpacker/AbstractMessagePackUnpacker.java:281-282 | [0xa2, 0x41] yields [0x41, 0] as written, end of input as intended |
| `AsWritten.EntryInverted` | src/main/java/org/msgpack/unpacker/AbstractMessagePackUnpacker.java:71-76 | as written, every read with no raw pending takes the resume branch and dereferences a null buffer |
| `AsWritten.ArrayEndGuardInverted` | src/main/java/org/msgpack/unpacker/AbstractMessagePackUnpacker.java:387 | as written, readArrayEnd refuses exactly the calls the intended guard admits |
| `AsWritten.ArrayEndCounterexample` | src/main/java/org/msgpack/unpacker/AbstractMessagePackUnpacker.java:385-389 | a finished array is refused as written and closed as intended |
| `AsWritten.UInt64Sign` | src/main/java/org/msgpack/unpacker/AbstractMessagePackUnpacker.java:156-157 | as written, a uint64 keeps its value exactly when its top bit is clear, and turns negative otherwise |
| `AsWritten.UInt64Counterexample` | src/main/java/org/msgpack/unpacker/AbstractMessagePackUnpacker.java:156-159 | 0xcf followed by eight 0xff reads as -1 as written, 2 to the power 64 minus 1 as intended |
| `AsWritten.HeadNeverCleared` | src/main/java/org/msgpack/unpacker/AbstractMessagePackUnpacker.java:53-59 | as written, after a one-byte token every later read yields that same token and the cursor stays put |
| `AsWritten.DecodeFrom` | src/main/java/org/msgpack/unpacker/AbstractMessagePackUnpacker.java:68-270 | the token at byte c depends only on the bytes from c on |
| `AsWritten.HeadCounterexample` | src/main/java/org/msgpack/unpacker/AbstractMessagePackUnpacker.java:268 | readInt twice over [0x01, 0x02] yields 1 and 1 as written, 1 and 2 as intended |
| `AsWritten.PeekDropsReserved` | src/main/java/org/msgpack/unpacker/AbstractMessagePackUnpacker.java:53-59 | as written, a head byte that tryReadNil or readBoolean peeks and refuses stays pending exactly when it is not 0xc6; a peeked 0xc6 is dropped, although the decoder rejects it |
| `AsWritten.ReservedHeadCounterexample` | src/main/java/org/msgpack/unpacker/AbstractMessagePackUnpacker.java:287-318 | over [0xc6, 0x05] tryReadNil then readInt yield false then 5 as written; over [0xc6, 0xc3] readBoolean fails then yields true; as intended the 0xc6 is an invalid tag |
| `AsWritten.SkipCounterexample` | src/main/java/org/msgpack/unpacker/AbstractMessagePackUnpacker.java:489-494 | skip over [0x91, 0x91, 0x01] runs out of input as written and ends at byte 3 as intended |

## Left out

- The `Input` byte source (lines 25, 28): it is I/O. It is modelled as the bytes delivered so far, a count of bytes consumed, and `Feed` for bytes arriving later. A read past the end is an end-of-input error.
- Float and double decoding (lines 136-143) and `readFloat`/`readDouble` (lines 362-372): floating point. Their 4- and 8-byte payloads are kept as opaque bits; only their length is consumed.
- `iterateNext` (lines 427-476): it drives the `Unconverter` tree builder, which is not part of this model.
- The `Accept` visitor classes: not part of this model. Each typed read is a choice of the tokens its visitor takes (`Unpackers.Accepts`).
- Unpackers.Accepts: the ranges `IntAccept` and `LongAccept` take are assumed to be those of Java's int and long, and unsigned integers are taken in those ranges as well.
- `UnpackerStack` is not part of this model. Its maximum depth is not modelled, and the top level is assumed to accept any number of values.
- The exception classes (IOException, EOFException, MessageTypeException) are merged into one error datatype; only the error kind is kept.
- The packer side (`Packer.java`) is an interface without bodies. `WireFacts.Encode` is a reference encoding, the narrowest form that holds each token, used only to state the round trip.
- `CharacterTemplate.java` and `ValueReader.java` are not part of this model.
- Unpackers.Unpacker.Skip: after a failure part way through a container, it states only that the frames below the starting depth are kept; it does not state which frames above them stay open.
- Unpackers.Unpacker.ReadArrayEnd: after a failure while draining children, it states only the error; it does not state the partial state.
- Unpackers.Unpacker.ReadMapEnd: after a failure while draining children, it states only the error; it does not state the partial state.
- Unpackers.Unpacker.ReadContainerEnd: after a failure while draining children, it states only the error; it does not state the partial state.
- Integer widths: tokens carry unbounded integers. Java's narrowing casts in `readByte`/`readShort` are modelled by the range checks that guard them.

## Findings

| source | as written | input that shows it | evidently intended | confidence | as-written member | corrected member |
|---|---|---|---|---|---|---|
| src/main/java/org/msgpack/unpacker/AbstractMessagePackUnpacker.java:209 | array16 and map16 (line 238) mask the 16-bit count with 0xff | [0xdc, 0x01, 0x00] opens an empty array | the full 16-bit count, masked with 0xffff as raw16 does at line 178 | not executed | `AsWritten.Count16Truncates` | `WireFacts.Container16Tag` |
| src/main/java/org/msgpack/unpacker/AbstractMessagePackUnpacker.java:281-282 | the fill count goes down by the bytes read, so it is never positive and a short body never raises EOFException; this assumes `Input.read` returns a short count at the end of input rather than throwing (`Input` is not part of this model) | [0xa2, 0x41] delivers [0x41, 0] | the count goes up by the bytes read, and EOFException is raised while it is below the buffer length | not executed | `AsWritten.RawBodyNeverEnds` | `Unpackers.Unpacker.ReadRawBodyCont` |
| src/main/java/org/msgpack/unpacker/AbstractMessagePackUnpacker.java:71 | the resume branch runs when no raw is pending | any read of a fresh unpacker reaches line 280 with a null buffer | resume only when a raw is pending | not executed | `AsWritten.EntryInverted` | `Unpackers.Unpacker.ReadOneWithoutStack` |
| src/main/java/org/msgpack/unpacker/AbstractMessagePackUnpacker.java:387 | readArrayEnd refuses when an array IS innermost | [0x91, 0x01] read by readArrayBegin and readInt, then readArrayEnd refuses | refuse when an array is NOT innermost, as readMapEnd does at line 411 | not executed | `AsWritten.ArrayEndGuardInverted` | `Unpackers.Unpacker.ReadArrayEnd` |
| src/main/java/org/msgpack/unpacker/AbstractMessagePackUnpacker.java:157 | uint64 is handed over as a signed long | 0xcf followed by eight 0xff reads as -1 | handed over unsigned, as the other unsigned forms are at lines 144-155 | not executed | `AsWritten.UInt64Sign` | `WireFacts.RoundTripUInt` |
| src/main/java/org/msgpack/unpacker/AbstractMessagePackUnpacker.java:268 | the pending head is reset only on an invalid tag, so a consumed token stays pending | readInt twice over [0x01, 0x02] yields 1 and 1 | the pending head is cleared once its token is consumed | not executed | `AsWritten.HeadNeverCleared` | `Unpackers.Unpacker.ReadOne` |
| src/main/java/org/msgpack/unpacker/AbstractMessagePackUnpacker.java:489 | a value that finishes several containers at once pops only one of them | skip over [0x91, 0x91, 0x01] reads past the value and runs out of input | pop while the innermost count is zero and the depth is above the starting depth | not executed | `AsWritten.SkipCounterexample` | `Unpackers.Unpacker.Skip` |
| src/main/java/org/msgpack/unpacker/AbstractMessagePackUnpacker.java:55-56 | getHeadByte takes a head equal to 0xc6 (REQUIRE_TO_READ_HEAD, line 30) as "none pending", so a 0xc6 left pending by tryReadNil or readBoolean is silently dropped | tryReadNil then readInt over [0xc6, 0x05] yield false then 5 | a peeked byte stays pending whatever its value, and the next read rejects 0xc6 as an invalid tag | not executed | `AsWritten.ReservedHeadCounterexample` | `Unpackers.Unpacker.TryReadNil` |
