# UE5 wire codec and session protocol: a verified model

This project models the two cores of the server.

**The bit-level wire codec.** A growable least-significant-bit-first buffer, the
encodings on top of it (variable-length and bounded integers, strings, rotations,
quantized vectors, recursive NetGUID exports, SerializeNewActor, bunch headers, whole
packets), and the independent readers of those formats: the C++ bunch parser, the
Python replay decoder and the export reader of the replay inspector. The streams are
`seq<bool>`; the writers are classes over byte buffers whose ghost field is the stream
they hold. The main results say that writers and readers undo each other bit for bit,
exactly where they do and where they do not, that two parsers and two packet framers
agree, and that an in-place rewriter changes only what it logs.

**The session protocol.** The dispatcher, the session registry, the NetGUID allocator,
the hooks of LiveWorld and its tick scheduler. `Sessions` is the step machine on values,
with the invariants of every run; `LiveWorlds` are the objects, each hook shown to be
one step of the machine; `Allocator` adds the concurrent history of slot fetches and map
insertions; `TickLoop` bounds the scheduler against any clock that never goes back.

## Modules

| module | what it holds |
|---|---|
| Bits | numbers, bits and byte buffers; round trips between them |
| Codec | SIP, SerializeInt, FString, rotations, quantized vectors |
| BitWriters | the growable writer, refined to an append-only stream |
| Exports | NetGUID export trees, RepLayout exports, must-be-mapped lists |
| NewActor | SerializeNewActor and the movement delta |
| Bunches | bunch headers and `BunchBuilder::write_to` |
| ReplayDecoder | the Python reader, header parser and bunch loop |
| Adaptive, BunchBuffers | the adaptive SerializeInt and the second bit buffer |
| WireFormats | what every writer puts where, at literal positions |
| ScBunchParser | `parse_sc_bunch`: soundness, locality, round trip, its own format |
| ReplayWire | the format the Python decoder reads, at literal positions |
| ParserAgreement | where the C++ and the Python parser say the same |
| Packet, Emitter | the two packet framers and the packet reader |
| Sequences | per-channel sequence numbers |
| NetGuidRemap | the in-place bit-stream rewriter |
| Allocator, Sessions, LiveWorlds | GUID blocks, sessions and the hooks |
| Transitions | the protocol as a table, and the runs of single clients |
| TickLoop | the replication scheduler |
| Wrappers | Option |

## Findings

Places where the code does not do what its comments or its other half suggest. The
model follows the code; each is stated as a lemma.

- `parse_sc_bunch` reads 12 sequence bits on reliable channels other than 0, where
  `write_to` writes 10 (`ScBunchParser.ScRoundTripExact`).
- A close reason is written in 3 bits under bound 5; `parse_sc_bunch` reads it under bound 7
  and takes one bit fewer exactly on reasons that are 3 modulo 4
  (`ScBunchParser.ControlEndExact`), and the Python parser reads it under bound 15 and
  takes one bit more (`ParserAgreement.CloseReasonReaders`).
- The two parsers give the last two sub-flags of a fragment each other's names, and on
  fragments behind the first of a reliable or opening bunch the Python parser reads a name
  that the C++ parser takes to be absent; it also reads a number behind a string name and
  ten sequence bits everywhere (`ParserAgreement.ParsersAgreeExactly`).
- `parse_sc_bunch` drops NULs and refuses names over 255 characters
  (`ScBunchParser.ScRoundTripExact`).
- The packet loop of `replay_decoder.py` asks for 32 more bits before each bunch and so
  can skip a last bunch of 27 to 31 bits (`ReplayDecoder.ShortLastBunchSkipped`).
- Open and close flags without the control bit are not written, but the name test looks at
  open alone (`ReplayDecoder.HeaderExact`, `ScBunchParser.ScRoundTripExact`).
- A must-be-mapped list of 65536 or more GUIDs is written with a truncated count
  (`Exports.MustMapRoundTrip`).
- The overflow test of the allocator refuses one slot of a cycle and then lets the base
  wrap below the dynamic base (`Allocator.AboveBaseExactly`). So the joint invariant of
  sessions and blocks holds over a run exactly up to the slot limit
  (`Sessions.RunInvExactly`), and at the slot whose base wraps to zero a login and its
  disconnect leave the block in the map (`Sessions.LeakExactly`) until the key logs in
  again (`Sessions.LeakEnds`). The comment there speaks of 16 million players; the limit
  is near 2^56 slots.
- `next_seq` ignores the base: a channel whose first call it is counts from zero
  (`Sequences.NthAnswer`).
- The comment above the export-list writer speaks of a SIP count; the code writes 32 plain
  bits (`Exports.WriteExportList`).
- The resize of the emitter before the bunch is dead code (`Emitter.ReserveSuffices`).
- A rate of 0 Hz or above 1000000 Hz gives a tick interval of zero
  (`TickLoop.IntervalPositive`), and then nothing bounds the rate of ticks
  (`TickLoop.NoBoundWithoutInterval`).

## Model

| member | source | states |
|---|---|---|
| `Bits.FromToBits` | src/protocol/wire/ue5_primitives.h:47-77 | Writing n bits of a value least significant first and reading them back gives the value modulo 2^n, for every value and width |
| `Bits.ToFromBits` | src/protocol/wire/ue5_primitives.h:47-77 | Reading any n bits as a number and writing that number in n bits reproduces the bits |
| `Bits.ToBitsAt` | src/net/ue5_replication.h:49-59 | Bit i of the written stream is `(value >> i) & 1` |
| `Bits.BytesExt` | src/net/ue5_replication.h:65-77 | Two byte buffers that hold the same bits are the same bytes, so equality of streams is equality of packets |
| `BitWriters.HoldsAppend` | src/net/ue5_replication.h:49-59 | On a zeroed tail, ORing in a one at the end appends a one and doing nothing appends a zero |
| `BitWriters.BitWriter.Reset` | src/net/ue5_replication.h:253-256 | Empties the stream in place, keeping the buffer |
| `BitWriters.BitWriter.EnsureCapacity` | src/net/ue5_replication.h:278-284 | Growth makes room for the requested bits and changes no bit of the stream; the buffer is the old one or a fresh one |
| `BitWriters.BitWriter.Write` | src/net/ue5_replication.h:49-59 | Appends exactly the low `count` bits, least significant first, and leaves every earlier bit alone across any growth; all bits past the end stay zero |
| `BitWriters.BitWriter.WriteBit` | src/net/ue5_replication.h:62-62 | Appends one bit |
| `BitWriters.BitWriter.WriteBitsFrom` | src/net/ue5_replication.h:65-77 | Appends exactly the first `num_bits` bits of another buffer, as they were at the call |
| `BitWriters.BitWriter.Patch` | src/net/ue5_replication.h:263-272 | Replaces the given window of the buffer, both ones and zeros, and no other bit; the zero tail that later writes rely on survives exactly when no one lands past the end of what was written |
| `BitWriters.BitWriter.WriteSip` | src/net/ue5_replication.h:110-127 | Appends the SIP encoding of the value |
| `BitWriters.BitWriter.WriteSerializeInt` | src/net/ue5_replication.h:150-156 | Appends the value in the least width for [0, max - 1], found by the shift loop |
| `BitWriters.BitWriter.WriteFString` | src/net/ue5_replication.h:137-147 | Appends the 32-bit length with its NUL, the characters and the NUL; only a zero for the empty string |
| `BitWriters.BitWriter.WriteRotation` | src/net/ue5_replication.h:159-181 | Appends three non-zero flags and then the axes that are not zero |
| `BitWriters.BitWriter.WriteQuantizedVector` | src/net/ue5_replication.h:188-218 | The width loop ends, and the 7-bit header and three biased components of that width are appended |
| `BitWriters.BitWriter.WriteConditionalVector` | src/net/ue5_replication.h:222-236 | Appends the presence flag, the quantize flag and the vector in the chosen form |
| `Codec.SipRoundTrip` | src/net/ue5_replication.h:110-127 | A SIP followed by anything is read back to its value and exactly to its end, by every reader that allows enough bytes |
| `Codec.SipLengthLaw` | src/net/ue5_replication.h:110-127 | A SIP has 8 * max(1, ceil(bit length / 7)) bits |
| `Codec.SipPrefixFree` | src/net/ue5_replication.h:110-127 | No SIP encoding is a prefix of another one |
| `Codec.SipWidths` | src/net/ue5_replication.h:110-127 | At most 5 bytes for 32-bit values, 10 for 64-bit values, 4 below 2^28 |
| `Codec.SerializeIntRoundTrip` | src/net/ue5_replication.h:150-156 | Every value below the bound is read back from its fixed width |
| `Codec.IntWidths` | src/net/ue5_replication.h:150-156 | The widths in use: 3 bits for close reasons under bounds 5 and 7, 4 under bound 15, 13 for the payload length |
| `Codec.FStringAt` | src/net/ue5_replication.h:137-147 | An FString in a stream shows its length with the NUL, its characters, and the NUL after them |
| `Codec.RotationRoundTrip` | src/net/ue5_replication.h:159-181 | Compressed rotations are read back exactly if and only if their axes have 16 bits, and to the end of their bits in every case |
| `Codec.AngleError` | src/net/ue5_replication.h:161-166 | Over the reals, a compressed angle is below 65536 and within half a step (180/65536 degrees) of the angle, up to full turns |
| `Codec.CompBitsLeast` | src/net/ue5_replication.h:194-203 | The width found is the least from the candidate on whose bias exceeds the largest component, or 32 |
| `Codec.QVecRoundTrip` | src/net/ue5_replication.h:188-218 | A quantized vector is read back exactly if and only if every scaled component fits a signed 32-bit integer; the cursor ends at the end in every case |
| `Codec.QuantizationError` | src/net/ue5_replication.h:188-192 | Over the reals, dividing the rounded scaled component by the scale misses the coordinate by at most 1/(2 * scale) |
| `Codec.CondVecRoundTrip` | src/net/ue5_replication.h:222-236 | Absent, quantized and raw vectors come back in their form and to the end of their bits, and with their value if and only if it fits its fields |
| `Exports.ObjectRoundTrip` | src/net/ue5_replication.h:303-330 | For every export tree of any depth the reader of the inspector returns the canonical form (a null GUID cuts, no path flag drops the rest, an empty chain is a path-less outer) and consumes exactly the bits written, if the tree is within the reader limits, and fails otherwise |
| `Exports.ExportListRoundTrip` | src/net/ue5_replication.h:507-515 | For lists of any length: the inspector takes as many objects as the 32-bit count says, and returns the whole list to its end exactly when it has fewer than 2^31 entries and its trees and its length are within the limits |
| `Exports.CleanEach` | src/tools/replay_inspect.cpp:432-439 | Character by character: ASCII stays and anything past it becomes a question mark |
| `Exports.CleanDrops` | src/tools/replay_inspect.cpp:432-439 | A NUL is dropped wherever it stands |
| `Exports.WideNameRead` | src/tools/replay_inspect.cpp:420-441 | A string of 16-bit characters behind a negative length is read to its end, or refused exactly when it is longer than the limit |
| `Exports.CleanIdentity` | src/tools/replay_inspect.cpp:432-439 | A name survives the inspector unchanged exactly when it is ASCII without NULs |
| `Exports.Sip64RoundTrip` | src/tools/replay_inspect.cpp:402-414 | The inspector reads a SIP back to its value and its end whenever the encoding has no more bytes than it allows |
| `Exports.WriteInternalObject` | src/net/ue5_replication.h:303-330 | The recursive writer appends exactly the bits of the tree |
| `Exports.WriteExportList` | src/net/ue5_replication.h:507-515 | The list writer appends the layout flag, the count cast to 32 bits and every tree, for lists of any length |
| `Exports.RepListRoundTrip` | src/net/ue5_replication.h:542-566 | For nested RepLayout lists of any length, as many exports are read as the 32-bit count says; the whole list comes back as it is on the wire (an unexported entry loses its name), with nothing left over, exactly when it and every field list written have fewer than 2^32 entries |
| `Exports.WriteRepList` | src/net/ue5_replication.h:542-566 | The RepLayout writer appends exactly the bits of its nested lists, their counts cast to 32 bits |
| `Exports.MustMapRoundTrip` | src/net/ue5_replication.h:570-575 | The must-be-mapped list is read back whole, to its end, exactly when it has fewer than 65536 entries; otherwise it is cut to its length modulo 65536 |
| `Exports.WriteMustBeMapped` | src/net/ue5_replication.h:570-575 | Appends the 16-bit count and every GUID, whatever the count says |
| `NewActor.ActorRoundTrip` | src/net/ue5_replication.h:357-386 | An actor reads back, GUIDs, optional location, rotation, scale and velocity, and to its end, if and only if its kind agrees with the static bit of its GUID and what it carries fits |
| `NewActor.ActorEndExact` | src/net/ue5_replication.h:357-386 | Whatever the components, the reader ends where the writer did exactly when the kind agrees with the bit |
| `NewActor.MovementRoundTrip` | src/net/ue5_replication.h:587-624 | For every movement the SIP in front of the delta equals the number of bits that follow it; the fields read back if and only if the components fit 32 bits |
| `NewActor.WriteNewActor` | src/net/ue5_replication.h:357-386 | The writer appends exactly the bits of the actor |
| `NewActor.WriteMovementDelta` | src/net/ue5_replication.h:587-624 | The writer appends exactly the flags, the count and the copied bits of its scratch writer |
| `NewActor.CopyTail` | src/net/ue5_replication.h:618-623 | The copy loop appends the bits of the scratch writer from bit 8 on |
| `Bunches.BunchBuilder.WriteTo` | src/net/ue5_replication.h:447-497 | Appends exactly the bits of header, length and payload to the target, and returns how many those were |
| `Bunches.WriteHeader` | src/net/ue5_replication.h:450-485 | Appends the header fields in order, each optional one under its condition |
| `Bunches.BunchBuilder.WritePayload` | src/net/ue5_replication.h:488-494 | Writes the length cast to 16 bits in 13, and that many payload bits |
| `ReplayDecoder.HeaderRoundTrip` | tools/replay_decoder.py:171-267 | The Python parser reads back, bit for bit, every plain header that `write_to` wrote, and the payload length modulo 8192 |
| `ReplayDecoder.HeaderExact` | src/net/ue5_replication.h:447-497 | The parser reports header and payload length as they were exactly when an open bunch is a control bunch and the payload is below 8192 bits |
| `ReplayDecoder.BunchLoopExact` | tools/replay_decoder.py:389-419 | On a region that holds bunches and nothing else, the loop reports exactly those bunches in order if the last one is as long as the guard asks, and otherwise exactly all but the last one; for every guard up to 54 bits |
| `ReplayDecoder.ShortLastBunchSkipped` | tools/replay_decoder.py:389-389 | The 32-bit guard skips the least bunch there is, 27 bits alone in its packet; the 16-bit guard does not |
| `ReplayDecoder.WindowsHoldPayloads` | tools/replay_decoder.py:397-408 | Every window the loop reports holds exactly the payload that was written |
| `ReplayDecoder.SipIs` | tools/replay_decoder.py:84-94 | The Python SIP reader returns the value and consumes exactly its bits |
| `ReplayDecoder.BitReader.ReadBit` | tools/replay_decoder.py:45-52 | One bit, or -1 at or past the end without moving |
| `ReplayDecoder.BitReader.ReadBits` | tools/replay_decoder.py:54-61 | The number made of the next bits, least significant first, or -1 when they run out |
| `ReplayDecoder.BitReader.ReadSerializeInt` | tools/replay_decoder.py:77-82 | A fixed width from the bit length of max - 1 |
| `ReplayDecoder.BitReader.ReadSerializeIntPacked` | tools/replay_decoder.py:84-94 | The SIP loop, with its error value and its ten-byte limit |
| `ReplayDecoder.BitReader.ReadBytesAligned` | tools/replay_decoder.py:96-104 | Whole bytes until the bits run out; a short last byte is consumed and lost |
| `ReplayDecoder.BitReader.ParseBunchHeader` | tools/replay_decoder.py:171-267 | The parser computes the header of the specification on every input, moves the cursor to its end, and gives up exactly when a string length is missing |
| `ReplayDecoder.BitReader.DecodeBunches` | tools/replay_decoder.py:389-419 | The loop computes the bunch list of the specification, ending on every input |
| `Adaptive.AdaptiveRoundTrip` | src/protocol/bunch_builder.h:78-87 | The matching reader undoes the bit-at-a-time writer for every value below the bound |
| `Adaptive.AdaptiveWidth` | src/protocol/bunch_builder.h:78-87 | The width is ceil(log2 max), or one less exactly when the last bit is implied |
| `Adaptive.SameWidthIffPowerOfTwo` | src/protocol/bunch_builder.h:78-87 | All values have the same width if and only if the bound is a power of two |
| `Adaptive.FixedIffPowerOfTwo` | src/net/ue5_replication.h:150-156 | The adaptive and the fixed-width writers coincide on all values if and only if the bound is a power of two |
| `BunchBuffers.BunchBuffer.WriteBits` | src/protocol/bunch_builder.h:38-49 | Appends exactly n bits, growing by zeros |
| `BunchBuffers.BunchBuffer.WriteRawBits` | src/protocol/bunch_builder.h:54-62 | Appends the first bits of a source, as many as asked and as the source has |
| `BunchBuffers.BunchBuffer.WriteSip` | src/protocol/bunch_builder.h:67-74 | Appends the same SIP encoding as the other writers |
| `BunchBuffers.BunchBuffer.WriteSerializeInt` | src/protocol/bunch_builder.h:78-87 | The loop with its 32-bit mask, overflow to zero included, appends the adaptive encoding |
| `BunchBuffers.BunchBuffer.WriteFStringAnsi` | src/protocol/bunch_builder.h:92-101 | Appends the same FString as the other writer |
| `BunchBuffers.BunchBuffer.WriteCompressedRotator` | src/protocol/bunch_builder.h:105-114 | Appends each axis after its own flag |
| `BunchBuffers.RotatorRoundTrip` | src/protocol/bunch_builder.h:105-114 | The interleaved rotator is read back, to the end of its bits |
| `BunchBuffers.RotationLayouts` | src/protocol/bunch_builder.h:105-114 | The two rotation layouts have equal length, are equal when pitch and yaw are zero, and differ on a concrete rotation otherwise |
| `WireFormats.SipWire` | src/net/ue5_replication.h:110-127 | Bit 0 of byte i of a SIP says whether byte i + 1 follows, and its other seven bits are bits 7i to 7i + 6 of the number |
| `WireFormats.AdaptiveWire` | src/protocol/bunch_builder.h:78-87 | Bit i of an adaptive integer is bit i of the number |
| `WireFormats.FStringWire` | src/net/ue5_replication.h:137-147 | A string has its length with the NUL in bits 0 to 31, character i at 32 + 8i and the NUL behind them; the empty string is a zero length alone |
| `WireFormats.RotationWire` | src/net/ue5_replication.h:159-181 | The three flags in bits 0 to 2, then pitch, yaw and roll in 16 bits each where they are not zero |
| `WireFormats.RotatorWire` | src/protocol/bunch_builder.h:105-114 | Each flag right before its own 16-bit axis, in the order pitch, yaw, roll |
| `WireFormats.QVecWire` | src/net/ue5_replication.h:188-218 | Five bits of width less two, bit 5 set and bit 6 clear, three components biased by half the range; the width is the least from 2 on whose bias exceeds every component, or 32 |
| `WireFormats.CondVecWire` | src/net/ue5_replication.h:222-236 | One clear bit, or a set bit, the quantize bit, and the quantized vector or three 64-bit values at 2, 66 and 130 |
| `WireFormats.ObjectWire` | src/net/ue5_replication.h:303-330 | From the written flags byte alone: when its bit 0 is set, outer and name follow, and the 32-bit checksum behind them exactly when its bit 2 is set; when bit 0 is clear nothing follows; a null GUID is one SIP |
| `WireFormats.ExportListWire` | src/net/ue5_replication.h:507-515 | A clear layout bit, the count in 32 bits, and the exports one after another |
| `WireFormats.FieldWire` | src/net/ue5_replication.h:553-563 | Handle and checksum in 32 bits each, the export bit at 64, and name and type byte behind it exactly for an exported field |
| `WireFormats.RepWire` | src/net/ue5_replication.h:542-566 | The path index in 32 bits, the export bit at 32, and path name, 32-bit field count and fields exactly for an exported entry |
| `WireFormats.RepListWire` | src/net/ue5_replication.h:542-566 | A set layout bit, the count in 32 bits, the entries and the fields one after another |
| `WireFormats.MustMapWire` | src/net/ue5_replication.h:570-575 | The low 16 bits of the count, and one SIP for each GUID |
| `WireFormats.ActorWire` | src/net/ue5_replication.h:357-386 | A static actor is its GUID; a dynamic one its GUID, archetype, level, location, rotation behind its bit, scale and velocity, in this order |
| `WireFormats.MovementWire` | src/net/ue5_replication.h:587-624 | The byte 0x2C, the SIP of the number of bits behind it, and location, pitch, yaw, roll and velocity |
| `WireFormats.ControlWire` | src/net/ue5_replication.h:450-462 | The control bit; open, close and a 3-bit reason under their conditions; paused and reliable |
| `WireFormats.BunchWire` | src/net/ue5_replication.h:447-497 | Control bits, channel, export, must-map and partial bits, ten sequence bits exactly when reliable, a name exactly when reliable or open, and the payload behind its length |
| `WireFormats.PayloadWire` | src/net/ue5_replication.h:488-494 | The length in 13 bits and every payload bit; past 65535 bits, what a cast to 16 bits leaves of the length, and so many bits |
| `WireFormats.PrefixWire` | src/net/ue5_replication.h:664-694 | Magic at 0, session at 32, client at 34, a clear bit 37, history count less one at 38, acknowledged sequence at 42, sequence at 56, only clear bits in the history words from 70 on, then custom bytes, packet info and server frame |
| `WireFormats.PacketWire` | src/net/ue5_replication.h:661-711 | A finished packet is prefix, bunches, two set bits, and fewer than eight clear bits up to a whole byte |
| `WireFormats.BunchesWire` | src/net/ue5_replication.h:697-699 | The bunches stand one after another |
| `WireFormats.HistoryClear` | src/net/ue5_replication.h:676-678 | Every bit of every history word of a finished packet is clear |
| `ScBunchParser.ParseSound` | src/net/sc_bunch_parser.h:112-230 | On any input a successful parse moves the cursor by at least 27 bits plus the payload, not past the effective end, and packs its payload window bit for bit |
| `ScBunchParser.ParseLocal` | src/net/sc_bunch_parser.h:112-230 | Nothing at or beyond the new cursor was looked at: any stream that agrees below it, with any later effective end, parses to the same bunch |
| `ScBunchParser.PayloadReproduced` | src/net/sc_bunch_parser.h:212-223 | The payload bytes reproduce the payload window bit for bit, for every length |
| `ScBunchParser.ScRoundTrip` | src/net/sc_bunch_parser.h:112-230 | A plain bunch written by `write_to`, followed by anything, is parsed to its flags, channel, sequence, name and payload, and exactly to its end; close bunches included, unless their reason is 3 modulo 4 |
| `ScBunchParser.ScRoundTripExact` | src/net/sc_bunch_parser.h:112-230 | For every whole bunch whose close reason is not 3 modulo 4, that holds exactly when open and close flags come with the control bit, a text name that is carried has no NUL and at most 255 characters, the channel is at most 32766, a reliable bunch is on channel 0, and the payload is below 8192 bits |
| `ScBunchParser.ControlEndExact` | src/net/sc_bunch_parser.h:116-128 | The parser steps over the control bits of `write_to` exactly when a close reason, if written, is not 3 modulo 4, and otherwise stops one bit short |
| `ScBunchParser.ParseAllRoundTrip` | src/tools/replay_inspect.cpp:1020-1052 | On a region that holds bunches of that domain, and fewer than 20 bits more, the loop of the inspector returns exactly those bunches in order |
| `ScBunchParser.FlagsWire` | src/net/sc_bunch_parser.h:143-165 | From the stream: exports, GUIDs, partial, the sequence in 10 bits on channel 0 and 12 elsewhere if reliable, and for a fragment initial, custom exports final, final, in this order |
| `ScBunchParser.ServerBunchWire` | src/net/sc_bunch_parser.h:112-230 | Every bunch that stands in the stream as the server frames it, whole or a fragment, on every channel up to 32766, followed by anything, is parsed to what it holds and exactly to its end; a name is read exactly when the bunch is reliable or open and is whole or the first fragment |
| `ScBunchParser.WideNameWire` | src/net/sc_bunch_parser.h:183-200 | A name of 16-bit ASCII characters behind a negative length is read to its text and its end |
| `ScBunchParser.KindExactly` | src/net/sc_bunch_parser.h:88-96 | Each kind has its own condition on the flags, whatever the order of the tests: a continuation is a bunch without the control bit that is partial and not initial |
| `ScBunchParser.ParseBunches` | src/tools/replay_inspect.cpp:1020-1052 | The loop computes the bunch list of the specification, ending on every input |
| `ScBunchParser.ParseScBunch` | src/net/sc_bunch_parser.h:112-230 | The parser computes the bunch of the specification, or fails with it, on every input |
| `ScBunchParser.ReadBits` | src/protocol/wire/ue5_primitives.h:47-59 | Bits past the buffer read as zero and the cursor advances all the same |
| `ScBunchParser.ReadSerializeInt` | src/protocol/wire/ue5_primitives.h:126-137 | The loop computes the adaptive reading of the stream |
| `ScBunchParser.ReadPacked` | src/net/sc_bunch_parser.h:130-140 | The inline SIP loop, five bytes and 32 bits wide, computes the shared SIP reading modulo 2^32 |
| `ScBunchParser.ParseControl` | src/net/sc_bunch_parser.h:116-128 | Reads the control, open, close, reason, paused and reliable bits in their order |
| `ScBunchParser.ParseFlags` | src/net/sc_bunch_parser.h:143-165 | Reads export, GUID and partial flags, the sequence in 10 or 12 bits, and the partial sub-flags, failing where the code does |
| `ScBunchParser.ParseText` | src/net/sc_bunch_parser.h:183-200 | Reads narrow and wide names of at most 256 characters, dropping what the code drops |
| `ScBunchParser.ParsePayload` | src/net/sc_bunch_parser.h:212-223 | Reads whole bytes and then the bits left over |
| `ParserAgreement.ParsersAgree` | src/net/sc_bunch_parser.h:88-230 | On every stream where the C++ parser accepts a bunch, whole or a fragment, that does not close, is unreliable or on channel 0, has no string name, is not a fragment behind the first of a reliable or opening bunch, and has SIPs of at most four bytes, the Python parser reads the same header, payload window and classification; the last two sub-flags are the same bits under crossed names |
| `ParserAgreement.ParsersAgreeExactly` | tools/replay_decoder.py:171-267 | Of the accepted bunches that do not close and whose SIPs end within four bytes, the two parsers agree on exactly those: on every other one a field, the kind or the end of the payload differs |
| `ParserAgreement.PythonUndoesExactly` | tools/replay_decoder.py:77-82 | The fixed-width Python reader undoes the adaptive writer on all values if and only if the bound is a power of two |
| `ParserAgreement.CloseReasonReaders` | src/net/ue5_replication.h:455-458 | Of the three bits of a close reason the C++ parser takes all exactly when the reason is not 3 modulo 4, and the Python parser takes four or runs out |
| `ParserAgreement.SipAgrees` | tools/replay_decoder.py:84-94 | The two SIP readers agree on every SIP that closes within the bytes both allow |
| `ReplayWire.BytesWire` | tools/replay_decoder.py:96-104 | The bytes of a read unpack to the bits of its window; a read past the end gives the whole bytes left and consumes everything |
| `ReplayWire.ShownBytes` | tools/replay_decoder.py:397-408 | The bytes shown with each decoded bunch unpack to its payload when the buffer holds the whole last byte, and otherwise to all but the last, partly filled byte |
| `ReplayWire.ControlWire` | tools/replay_decoder.py:195-209 | Control, open, close, a close reason of four bits modulo 16, paused and reliable, each from its own place |
| `ReplayWire.FlagsWire` | tools/replay_decoder.py:211-227 | Exports, must-map, partial, ten sequence bits if reliable, and for a fragment initial, final, custom exports final |
| `ReplayWire.NameWire` | tools/replay_decoder.py:229-267 | An index behind a set bit; behind a clear bit the text of a string without its NUL, and its 32-bit number |
| `ReplayWire.WideNameWire` | tools/replay_decoder.py:236-267 | Behind a negative length, two bytes a character, without the two of the NUL, and the number |
| `ReplayWire.HeaderWire` | tools/replay_decoder.py:171-267 | Every header that stands in the stream in the order of the decoder, closing, fragment, named by index or text or unnamed, is read field by field and to its end |
| `Packet.PacketAssembler.AddBunch` | src/net/ue5_replication.h:653-656 | Appends the bunch, by reference |
| `Packet.PacketAssembler.Finalize` | src/net/ue5_replication.h:661-711 | The bytes are the prefix, every bunch as it is at that moment, the sentinel, the termination bit and zero padding; the bunches do not change |
| `Packet.PacketRoundTrip` | src/net/ue5_replication.h:661-711 | Stripping padding, termination bit and sentinel, reading the fields and looping over the bunches returns the configuration, masked to its widths, and exactly the bunches, with no bit left over |
| `Packet.StrippedExactly` | src/protocol/wire/ue5_primitives.h:98-110 | Of a finished packet, strip_termination returns exactly the position behind the sentinel |
| `Packet.CppPacketRoundTrip` | src/tools/replay_inspect.cpp:994-1052 | Up to what strip_termination leaves, with or without the sentinel, the C++ loop over a finished packet returns exactly its bunches |
| `Packet.HistCountExact` | src/net/ue5_replication.h:671-678 | The history count survives its four bits exactly when it is between 1 and 16 |
| `Packet.PrefixRoundTrip` | src/net/ue5_replication.h:664-694 | The fields in front of the bunches are read back, masked to their widths, if and only if the history count is between 1 and 16 |
| `Packet.StripTermination` | src/protocol/wire/ue5_primitives.h:98-110 | Returns the position of the last one bit when the last byte has one, and the whole length otherwise |
| `Emitter.WrapPacket` | src/net/udp_packet_emitter.cpp:213-295 | Every write of the emitter fits its buffer, the bytes are prefix, bunch, sentinel and termination, and their number is ceil((116 + 48 * [custom field] + bunch bits) / 8) |
| `Emitter.EmitterWire` | src/net/udp_packet_emitter.cpp:221-295 | From the state alone: magic at 0, session at 32, client at 34, a clear bit 37, a zero count, acknowledged sequence at 42, sequence at 56, ones from 70 to 101, custom bytes, a set bit, jitter 1023, a clear bit, the bunch and two set bits |
| `Emitter.EmitterRoundTrip` | src/net/udp_packet_emitter.cpp:221-295 | The packet reader finds the magic, session modulo 4, client modulo 8, no handshake, both sequences modulo 2^14, one history word, the custom field, jitter 1023 and no server frame |
| `Emitter.FramersAgree` | src/net/udp_packet_emitter.cpp:213-295 | For every configuration whose fields equal those of the state one by one, with one history word, jitter 1023 and no server frame, the bytes of both framers are equal except in bits 70 to 101, which are ones in the one and zeros in the other |
| `Emitter.ReserveSuffices` | src/net/udp_packet_emitter.cpp:221-271 | The resize before the bunch is never taken: the initial reserve is always enough |
| `Emitter.EmitBunch` | src/net/udp_packet_emitter.cpp:274-279 | The copy loop appends exactly the bunch bits |
| `Sequences.HeldAfter` | src/net/ue5_replication.h:726-762 | On every interleaving of both kinds of calls over all channels, a channel holds its start plus its own number of calls, modulo 1024 |
| `Sequences.NthAnswer` | src/net/ue5_replication.h:748-757 | After `init_base`, whatever is called on other channels, the n-th call on a channel answers (base + n) mod 1024 if and only if the first call there was not `next_seq` or the base is a multiple of 1024 |
| `Sequences.RepeatsExactly` | src/net/ue5_replication.h:748-757 | In any two runs in which a channel starts the same way, two answers on it are equal exactly when their numbers of calls differ by a multiple of 1024, whatever is called on other channels |
| `Sequences.ChannelSequenceManager.NextSeq` | src/net/ue5_replication.h:729-739 | The answer and the new state of `next_seq` |
| `Sequences.ChannelSequenceManager.NextSeqFromBase` | src/net/ue5_replication.h:748-757 | The answer and the new state of `next_seq_from_base` |
| `Sequences.ChannelSequenceManager.InitBase` | src/net/ue5_replication.h:742-745 | Forgets all channels and stores the base |
| `NetGuidRemap.SweepExplained` | tools/netguid_remap.py:272-323 | Every replacement in the log held the captured encoding just before its write and ours just after, in windows of equal width |
| `NetGuidRemap.OutsideWindows` | tools/netguid_remap.py:272-323 | The stream keeps its length, and no bit outside the logged windows changes |
| `NetGuidRemap.OffsetsAscend` | tools/netguid_remap.py:272-323 | The logged offsets never go back |
| `NetGuidRemap.FirstHitLogged` | tools/netguid_remap.py:294-321 | The first place, offset by offset and pair by pair, at which a captured encoding of replaceable width stands is the next log entry, and the scan goes on behind it in the rewritten stream; with the next law this fixes the whole scan |
| `NetGuidRemap.NothingIffAbsent` | tools/netguid_remap.py:272-323 | Nothing is replaced exactly when no captured encoding whose replacement is as wide stands at any bit offset, and then the output is the input |
| `NetGuidRemap.RemapSipInStream` | tools/netguid_remap.py:272-323 | The scan over a copy of the data computes that result and that log |
| `NetGuidRemap.EncodeSip` | tools/netguid_remap.py:129-142 | The Python encoder produces the same SIP as the C++ writers, and its bit count |
| `NetGuidRemap.WriteBytesInto` | tools/netguid_remap.py:158-169 | Overwrites exactly the given window |
| `NetGuidRemap.Matches` | tools/netguid_remap.py:301-312 | The comparison loop, stopping at the first difference, decides whether the encoding stands at the offset |
| `Allocator.AllBlocksDisjoint` | src/protocol/net_guid_allocator.h:93-127 | For every interleaving of slot fetches, insertions and releases below the slot limit, all blocks ever issued are pairwise disjoint and at or above the dynamic base |
| `Allocator.AllAboveBaseExactly` | src/protocol/net_guid_allocator.h:93-127 | Over every interleaving whatever, all blocks ever issued lie at or above the dynamic base if and only if at most as many slots were fetched as the limit says |
| `Allocator.RunConsistent` | src/protocol/net_guid_allocator.h:93-146 | Over every such interleaving the issued slots count up from zero, and no slot is live or pending twice |
| `Allocator.AboveBaseExactly` | src/protocol/net_guid_allocator.h:93-102 | A block lies at or above the dynamic base exactly when the slot is below the limit in its cycle; the overflow test refuses one slot a cycle and lets the next ones wrap |
| `Allocator.DisjointExactly` | src/protocol/net_guid_allocator.h:93-116 | Two slots below the limit own disjoint blocks exactly when they differ modulo the cycle |
| `Allocator.GuidsInside` | src/protocol/net_guid_allocator.h:104-116 | The nine GUIDs of a block are distinct, even and inside it |
| `Transitions.BlockFields` | src/protocol/net_guid_allocator.h:93-116 | The block of a slot below the limit in numbers: base 2^24 + 256 * slot, and the nine GUIDs at base, base + 2, up to base + 16, each in its field |
| `Allocator.NetGuidAllocator.AllocatePlayerBlock` | src/protocol/net_guid_allocator.h:93-127 | Returns the block of the next slot, stores it under the key unless refused, and advances the slot modulo 2^64 |
| `Allocator.NetGuidAllocator.ReleasePlayerBlock` | src/protocol/net_guid_allocator.h:139-146 | Removes exactly that key |
| `Sessions.RunKeepsInv` | src/net/live_world.cpp:83-180 | Over every run of connects, packets, observations and disconnects with logins within the slot limit: every block belongs to a session that holds it, every session from Authenticated through InWorld has a live block and a name, and none before Authenticated has one |
| `Sessions.RunInvExactly` | src/net/live_world.cpp:83-180 | That invariant holds in every prefix of a run if and only if the run accepts at most as many logins as the slot limit |
| `Sessions.StepKeepsInv` | src/net/opcode_dispatcher.cpp:20-92 | Each step keeps that invariant when an accepted login finds a valid block |
| `Sessions.LoginKeepsInvExactly` | src/net/opcode_dispatcher.cpp:168-196 | An accepted login keeps the invariant exactly when its slot has a valid block |
| `Sessions.LeakExactly` | src/net/live_world.cpp:104-117 | A login and the disconnect after it leave a block behind whose session is gone exactly at the slot of a cycle whose base wraps to zero; the slot refused before it leaves none |
| `Sessions.LeakEnds` | src/net/live_world.cpp:104-117 | From any world, a later login of the key at a slot with a valid block, and the disconnect after it, release that block |
| `Sessions.PhaseForwardInRun` | src/net/opcode_dispatcher.cpp:118-311 | Over every run the phase never moves back between two points of the lifetime of a session, and Disconnecting is absorbing |
| `Sessions.AcceptedIffLogin` | src/net/opcode_dispatcher.cpp:168-196 | A login packet is accepted exactly when its session negotiates and its name is not empty, which is what the laws about runs count |
| `Sessions.PhaseForward` | src/net/opcode_dispatcher.cpp:118-311 | No step moves the phase of a surviving session back, and Disconnecting is absorbing |
| `Sessions.OneLoginPerLifetime` | src/net/opcode_dispatcher.cpp:168-196 | In every run at most one login is accepted in the lifetime of a session, and none while it is before Authenticated |
| `Sessions.SlotsAreLogins` | src/net/opcode_dispatcher.cpp:187-190 | Over every run the slots issued are the accepted logins, modulo 2^64 |
| `Sessions.RepliesMatch` | src/net/live_world.cpp:139-171 | Over every run with a UDP emitter there is one welcome for each accepted login, one challenge for each accepted hello and nothing else; without one there are no replies |
| `Sessions.CountersBalance` | src/net/live_world.cpp:121-134 | Over every run packets in are those received and observed, and every reject has exactly one reason, packets without a key being the only ones the dispatcher does not count |
| `Transitions.TransitionTable` | src/net/opcode_dispatcher.cpp:20-311 | The table of the protocol: for each operation exactly the phases in which it is accepted, the phase it leads to, the result it returns and the reason of a refusal, which keeps the phase |
| `Transitions.SessionFields` | src/net/opcode_dispatcher.cpp:168-196 | An accepted login stores name, online id, block and the three mirrored GUIDs; no other packet touches them; every packet counts once |
| `Transitions.CounterTable` | src/net/opcode_dispatcher.cpp:96-105 | Each operation counts its own handler once, and a refusal counts once under its own reason |
| `Transitions.BlockTable` | src/net/opcode_dispatcher.cpp:187-311 | Only an accepted login takes the next slot and stores its block, and only a disconnect of a session with a valid block gives it back |
| `Transitions.OthersUntouched` | src/net/opcode_dispatcher.cpp:20-92 | No step touches the session or the block of another client |
| `Transitions.WithoutSession` | src/net/opcode_dispatcher.cpp:20-43 | Without a session only an initial handshake is accepted, and it creates one in HandshakeInProgress; anything else changes no session and no block |
| `Transitions.HookTable` | src/net/live_world.cpp:83-180 | A connect moves AwaitingHandshake, or no session, to NmtNegotiating and nothing else; an observation counts; a disconnect removes |
| `Transitions.ClientsIndependent` | src/net/live_world.cpp:83-180 | In every run the phase, name, online id and packet count of a client are what its own events alone would have made of them, whatever the other clients do |
| `Transitions.ClientJoins` | src/net/opcode_dispatcher.cpp:242-294 | From any world without its session: connect, hello, login, game-specific and movement are all accepted and end in InWorld, under the name and with the block of the slot |
| `Transitions.EngineJoins` | src/net/opcode_dispatcher.cpp:118-275 | The same for the path through both handshakes, hello, login, welcome, join and game-specific, with no reject |
| `Transitions.JoinsInAnyRun` | src/net/live_world.cpp:83-180 | In every run in which those five are the own events of a client, interleaved with any events of others, it ends in InWorld under its name |
| `LiveWorlds.LiveWorld.OnClientConnected` | src/net/live_world.cpp:83-102 | On the objects: one Connected step of the machine |
| `LiveWorlds.LiveWorld.OnClientDisconnected` | src/net/live_world.cpp:104-117 | On the objects: one Disconnected step of the machine |
| `LiveWorlds.LiveWorld.OnPacket` | src/net/live_world.cpp:121-135 | On the objects: one Received step of the machine, and its result |
| `LiveWorlds.LiveWorld.MaybeSendNmtReply` | src/net/live_world.cpp:139-171 | Sends the reply the machine says, or nothing without an emitter |
| `LiveWorlds.LiveWorld.OnDataPacketObserved` | src/net/live_world.cpp:173-180 | On the objects: one Observed step of the machine |
| `LiveWorlds.LiveWorld.Replay` | src/net/live_world.cpp:83-180 | Any sequence of hook calls leaves the objects in the state of that run of the machine, so every law about runs is a law about the objects |
| `LiveWorlds.OpcodeDispatcher.Dispatch` | src/net/opcode_dispatcher.cpp:20-92 | Does to the registry, the allocator and the counters what the machine does, and returns its result |
| `LiveWorlds.OpcodeDispatcher.HandleOp` | src/net/opcode_dispatcher.cpp:48-91 | Each operation reaches its own handler |
| `LiveWorlds.OpcodeDispatcher.HandleHandshakeInitial` | src/net/opcode_dispatcher.cpp:118-133 | The handler leaves session, allocator, counters and result as the machine says |
| `LiveWorlds.OpcodeDispatcher.HandleHandshakeResponse` | src/net/opcode_dispatcher.cpp:135-148 | The same for the handshake response |
| `LiveWorlds.OpcodeDispatcher.HandleNmtHello` | src/net/opcode_dispatcher.cpp:152-166 | The same for NMT_Hello |
| `LiveWorlds.OpcodeDispatcher.HandleNmtLogin` | src/net/opcode_dispatcher.cpp:168-196 | The same for NMT_Login: phase and name checks, block allocation, mirrored GUIDs |
| `LiveWorlds.OpcodeDispatcher.HandleNmtWelcome` | src/net/opcode_dispatcher.cpp:198-213 | The same for NMT_Welcome |
| `LiveWorlds.OpcodeDispatcher.HandleNmtJoin` | src/net/opcode_dispatcher.cpp:215-230 | The same for NMT_Join |
| `LiveWorlds.OpcodeDispatcher.HandleNmtAbort` | src/net/opcode_dispatcher.cpp:231-240 | The same for NMT_Abort |
| `LiveWorlds.OpcodeDispatcher.HandleNmtGameSpecific` | src/net/opcode_dispatcher.cpp:242-275 | The same for NMT_GameSpecific |
| `LiveWorlds.OpcodeDispatcher.HandleActorMovement` | src/net/opcode_dispatcher.cpp:279-294 | The same for movement |
| `LiveWorlds.OpcodeDispatcher.HandleClientDisconnect` | src/net/opcode_dispatcher.cpp:298-311 | The same for a disconnect: a valid block is released |
| `LiveWorlds.OpcodeDispatcher.MakeReject` | src/net/opcode_dispatcher.cpp:96-105 | Counts the refusal and returns it with the phase unchanged |
| `LiveWorlds.SessionRegistry.Get` | src/net/session_registry.cpp:8-12 | The session of the key, or null |
| `LiveWorlds.SessionRegistry.GetOrCreate` | src/net/session_registry.cpp:14-28 | The existing session, or a new one at AwaitingHandshake; every other entry stays |
| `LiveWorlds.SessionRegistry.Remove` | src/net/session_registry.cpp:35-38 | Removes exactly that key |
| `LiveWorlds.ClientSession.TransitionTo` | src/net/client_session.h:141-144 | Changes the phase and nothing else |
| `TickLoop.Run` | src/net/live_world.cpp:184-244 | The nested loops, on any clock readings and any point at which the running flag drops, produce the ticks and heartbeats of the specification |
| `TickLoop.TicksSchedule` | src/net/live_world.cpp:184-244 | On a clock that never goes back, the ticks form a schedule: each fires at or after its deadline and the deadlines follow the resync rule |
| `TickLoop.NeverEarly` | src/net/live_world.cpp:184-244 | The k-th tick never fires before start + k intervals |
| `TickLoop.BoundedLag` | src/net/live_world.cpp:238-243 | After every iteration the deadline lags the clock by at most five intervals |
| `TickLoop.WindowBound` | src/net/live_world.cpp:184-244 | Any window of length T holds at most T / interval + 7 ticks |
| `TickLoop.LoopOnTime` | src/net/live_world.cpp:184-244 | On every clock that never goes back, the ticks of the loop itself are never early and its deadline never lags by more than five intervals |
| `TickLoop.LoopRateBound` | src/net/live_world.cpp:184-244 | With a positive interval, on every such clock, at most T / interval + 7 ticks of the loop fire within a window of length T |
| `TickLoop.RateBoundReached` | src/net/live_world.cpp:184-244 | That bound is reached for every interval and every T, on a clock that stalls for seven intervals |
| `TickLoop.NoBoundWithoutInterval` | src/net/live_world.cpp:184-244 | With interval zero any number of ticks can fire at one instant |
| `TickLoop.DeadlineRule` | src/net/live_world.cpp:238-243 | On the ticks themselves: the first deadline is one interval after the start, and the next is an interval after the last, unless the tick ended more than six intervals behind its deadline, and then an interval after its end |
| `TickLoop.FirstDue` | src/net/live_world.cpp:199-221 | A tick fires at the first reading that has reached its deadline and takes the next two readings; the loop goes on behind them |
| `TickLoop.BeatsComplete` | src/net/live_world.cpp:223-236 | Every heartbeat is a reading of a tick, and after each tick the last heartbeat is less than the gap behind its reading |
| `TickLoop.BeatsSpaced` | src/net/live_world.cpp:223-236 | Heartbeats are at least the gap apart |
| `TickLoop.IntervalPositive` | src/world/simulation/world_clock.h:40-43 | The interval is 1000000 divided by the rate, rounded down, and positive exactly for rates of 1 to 1000000 Hz, which is what the rate bound needs |

## Left out

- Sockets, threads, sleeping, TLS, gRPC, logging, UI and DLL stubs: input and output.
- Emitters of single actors, the splicer and the bootstrap plan: constants and calls into code that is not part of this model.
- `write_content_block_actor`: writes two flags, an optional SIP of the payload length and the payload; the payload's own format belongs to the property encoders, which are not part of this model.
- `BitWriter::restore_pos`: moving the cursor back would leave ones beyond it, and later writes only OR bits in.
- Floating point: float and double fields are opaque 32- and 64-bit values; the two error bounds and the rounding are over the reals, and coordinates enter the writers already scaled to integers.
- The payload hash of `BunchSummary`, timestamps in sessions, visibility, event bus, actors and broadcast: identifiers and classes that are not part of this model.
- ReplayDecoder.HeaderRoundTrip: is for what `write_to` writes, so without close bunches, fragments and string names: the Python parser takes more bits for a close reason than are written, and sub-flags and a name's number that are never written. `ReplayWire.HeaderWire` has them all, in the decoder's own format.
- ScBunchParser.ScRoundTripExact: is for what `write_to` writes, so without fragments, whose sub-flags are never written, and close reasons that are 3 modulo 4, behind which every field is read off its place. `ScBunchParser.ServerBunchWire` has fragments and twelve-bit sequences, in the parser's own format.
- ParserAgreement.ParsersAgreeExactly: says nothing of close bunches, whose reasons the parsers read in different widths (`ParserAgreement.CloseReasonReaders`), nor of SIPs of more than four bytes.
- The name of a channel given by index stays an index instead of the text "#" and digits; the bytes of a Python string name stay undecoded.
- The partly filled output and the cursor of a parse that failed: the callers drop both.
- Error texts: an enumeration of reasons.
- An OpcodeDispatcher without an allocator: LiveWorld always passes one.
- `list_keys`, `summarize`, `for_each`, `contains`, `size` of the registry and the statistics getters: they copy the maps and counters out for logs and displays, and no state of this model depends on them.
- The catalog that the replay inspector fills while it reads exports: only the object it returns is modelled, with its limits of 17 nested objects, 512 characters and 2048 objects as parameters.
- Exports.Sip64RoundTrip: its reader does not cut ten-byte SIPs to 64 bits, which makes no difference to values that fit 64 bits.
- Exports.RepListRoundTrip: the reader is the mirror image of the writer, because the code has no reader of the whole format; the same holds for the actor, the movement delta, the must-be-mapped list and the packet prefix.
- BitWriters.BitWriter.WriteQuantizedVector: takes the scaled components as unbounded integers; the int64 conversion of very large doubles is not modelled.
- ScBunchParser.ParseBunches: is the loop of `debug_walk_packet`; the classifying loops of the inspector also stop at bunches that look like drift, by payload hashes and channel histories that are not part of this model.
- NetGuidRemap.RemapSipInStream: the mapping is a sequence of pairs in iteration order instead of a dictionary, so it also covers repeated keys.
- TickLoop.Run: the running flag is the number of its loads that still see it set, and sleeping is a gap between clock readings; the broadcast tick has no effect on the schedule other than through the clock.
- ReplayDecoder.BitReader.DecodeBunches: collects the bunches instead of printing them, and leaves the channel and string statistics out.
- LiveWorlds.LiveWorld.OnPacket: hooks run one after another, as atomic steps; the locks are not modelled.
- Allocator.NetGuidAllocator.AllocatePlayerBlock: is one step in the class; the interleaving of its fetch and its insertion is modelled by `Allocator.AllBlocksDisjoint` on values.
