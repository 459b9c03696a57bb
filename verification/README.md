# ESP3 / ERP2 decoder of ostracon-enocean, modelled in Dafny

ostracon-enocean reads EnOcean rocker switches through a USB gateway. The
gateway speaks ESP3 (EnOcean Serial Protocol 3) over a serial port. The
program does three things:

1. `ESP3SerialPacketParser` cuts CRC-checked frames out of the byte stream.
   It resynchronises past noise and damaged frames.
2. `parseEsp3Data` re-checks a frame and decodes the ERP2 radio telegram
   (EnOcean Radio Protocol 2) it carries. ERP2 has a full bit-packed layout
   and a short layout keyed by length.
3. `handleEnOceanPacket` turns a rocker switch's data byte (profile
   F6-02-04) into one data point per pressed button.

The model keeps the source's structure:

| file | module | models |
|---|---|---|
| `wrappers.dfy` | `Wrappers` | `Option` (the source's `undefined`) and `Result` |
| `bytes.dfy` | `Bytes` | bytes, `Buffer.subarray` clamping, `readUInt16BE` |
| `crc8.dfy` | `Crc` | the CRC-8 of the `crc` package: polynomial 0x07, init 0, not reflected |
| `esp3_packet_parser.dfy` | `Esp3PacketParser` | `parsePacket` as a pure step, the `_transform` loop, writes of successive chunks |
| `esp3_framer_properties.dfy` | `Esp3FramerProperties` | the cases of one step, chunk-boundary invariance, noise and damaged frames |
| `esp3_data_parser.dfy` | `Esp3DataParser` | `parseEsp3Data`, `parseErp2` (both layouts) |
| `esp3_data_properties.dfy` | `Esp3DataProperties` | decoder checks against framer checks, frame encoding and its inverse |
| `erp2_properties.dfy` | `Erp2Properties` | ERP2 telegram encoding, both round trips, the extended-telegram-type quirk, the short layout |
| `switch_handler.dfy` | `SwitchHandler` | `parseF60204Data`, `recordData`, the decision part of `handleEnOceanPacket` |
| `test_vectors.dfy` | `TestVectors` | the repository's test frame through CRC, framer, decoder and handler |

The framer and the decoder take the checksum as a parameter
(`crc8: Checksum`). Their properties therefore hold for any deterministic
checksum. The test vectors instantiate it with `Crc.Crc8` and evaluate the
register one byte at a time.

A `readUint8` or `readUInt16BE` past the end of a buffer throws. Inside
`parseEsp3Data` that is the failure `OutOfRange`. In the handler, the caller
catches the exception (`src/index.ts:135-141`), so a throw there leaves the
recorder unchanged.

Three behaviours of the code worth noting, which the model keeps as written:

- The extended telegram type is read at byte 2 whatever precedes it. Without
  an extended header, that byte is the first originator ID byte.
- `parseEsp3Data` never looks at the sync byte or at bytes after the
  announced length.
- The short layout hands everything after the originator ID to `DataDl`. The
  `dataDlBits` values of its length table are never used.

## Model

| member | source | states |
|---|---|---|
| Bytes.ClampIndex | src/esp3DataParser.ts:129-148 | an index of `Buffer.subarray` within `[0, len]` is kept, a negative one counts from the end, and one past either end is clamped to `0` or `len` |
| Bytes.Subarray | src/esp3DataParser.ts:129-148 | `Buffer.subarray` as the decoders call it: an in-range pair is the plain slice, an open end runs to the end of the buffer, negative bounds count from the end and are clamped to `0` when they reach before the start of the buffer, and a start at or past the end (of the buffer or of the range) gives `[]` |
| Bytes.ReadUInt16BE | src/esp3PacketParser.ts:72 | the data length is the unsigned 16-bit big-endian value whose high byte is at `i` and low byte at `i + 1` |
| Crc.CrcFromConcat | src/esp3PacketParser.ts:2 | a property of the `crc` package's CRC-8: hashing `a + b` is hashing `b` starting from the register left by `a` |
| Crc.CrcResidueZero | src/esp3PacketParser.ts:2 | a property of the `crc` package's CRC-8: any message followed by its own CRC-8 hashes to zero |
| Crc.UpdateOwnValue | src/esp3PacketParser.ts:2 | a property of the `crc` package's CRC-8: feeding the register its own value clears it |
| Crc.CrcStep | src/esp3PacketParser.ts:58 | one byte moves the CRC register from one value to the next, along the input |
| Esp3PacketParser.PacketLength | src/esp3PacketParser.ts:72-74 | a frame is at least 7 bytes long: 7 plus the 16-bit data length plus the optional length |
| Esp3PacketParser.HeaderOfPrefix | src/esp3PacketParser.ts:56-87 | the header CRC verdict, packet length and payload CRC verdict depend only on the frame's own bytes, not on what follows them |
| Esp3PacketParser.FirstViable | src/esp3PacketParser.ts:48-65 | candidates are scanned in ascending order; the result is the first sync byte that is not stepped over, and every earlier one is stepped over |
| Esp3PacketParser.ParseAtHeader | src/esp3PacketParser.ts:72-94 | after a header is adopted, the step progresses iff the buffer holds the whole packet; if not, it waits with the buffer unchanged; if so, it drops the packet-length bytes and emits exactly them iff the payload CRC matches |
| Esp3PacketParser.ParsePacket | src/esp3PacketParser.ts:33-95 | one step: the new buffer is a suffix of the old; a true return shrinks it by at least 7; every emitted frame is well formed and is the bytes just before the new buffer; a buffer without sync byte is cleared |
| Esp3PacketParser.ShiftLemma | src/esp3PacketParser.ts:48-65 | dropping a prefix whose candidates are all stepped over does not change the step |
| Esp3PacketParser.StuckIsFixedPoint | src/esp3PacketParser.ts:21-23 | once the step returns false, repeating it on the buffer it left changes nothing |
| Esp3PacketParser.Drain | src/esp3PacketParser.ts:19-23 | repeating the step until it returns false leaves a suffix of the buffer and emits only well-formed frames |
| Esp3PacketParser.DrainQuiescent | src/esp3PacketParser.ts:19-23 | the buffer left between two writes is at rest: the step returns false on it and changes nothing |
| Esp3PacketParser.DrainLoopStep | src/esp3PacketParser.ts:21-23 | one loop iteration moves the emitted frames from the pending drain to the collected ones |
| Esp3PacketParser.Transform | src/esp3PacketParser.ts:14-25 | `_transform` appends the chunk and loops; it terminates, computes exactly `Drain`, and leaves a suffix of buffer plus chunk |
| Esp3PacketParser.FeedChunks | src/esp3PacketParser.ts:19-23 | successive writes emit only well-formed frames |
| Esp3FramerProperties.ShortCandidateWaits | src/esp3PacketParser.ts:48-55 | if the first candidate not stepped over has fewer than 6 bytes, the buffer becomes the suffix from it, nothing is emitted, and the step returns false |
| Esp3FramerProperties.NoHeaderClears | src/esp3PacketParser.ts:37-44 | if there is no sync byte, or every sync byte has 6 bytes and a failing header CRC, the buffer is cleared and the step returns false |
| Esp3FramerProperties.AdoptsCandidate | src/esp3PacketParser.ts:56-64 | the adopted start has a matching header CRC, and the rest of the step only looks at the buffer from there |
| Esp3FramerProperties.AdoptedHeader | src/esp3PacketParser.ts:48-94 | with the first matching header at `c`: too short means keep `buf[c..]`; otherwise drop `c + packetLength` bytes and emit `buf[c..c + packetLength]` iff the payload CRC matches |
| Esp3FramerProperties.StepExtend | src/esp3PacketParser.ts:33-95 | a step that progressed on `b` does the same on `b + x` and keeps `x`; a step that did not behaves as if `x` were appended to what it left |
| Esp3FramerProperties.DrainSplitsProgress | src/esp3PacketParser.ts:21-23 | splitting a drain at a chunk boundary survives a step that makes progress |
| Esp3FramerProperties.DrainSplitsStuck | src/esp3PacketParser.ts:21-23 | splitting a drain at a chunk boundary holds when the first step makes no progress |
| Esp3FramerProperties.DrainConcat | src/esp3PacketParser.ts:19-23 | draining `b + x` emits the frames of draining `b`, then those of draining its rest with `x` appended |
| Esp3FramerProperties.ChunkInvariance | src/esp3PacketParser.ts:14-25 | from a buffer at rest, any chunking of a stream emits the same frames and leaves the same buffer as one write |
| Esp3FramerProperties.ChunkInvarianceFromStart | src/esp3PacketParser.ts:9-25 | from the empty initial buffer, how the serial port splits the stream does not matter |
| Esp3FramerProperties.WellFormedParse | src/esp3PacketParser.ts:81-94 | a well-formed frame at the start of the buffer is emitted whole and the buffer empties |
| Esp3FramerProperties.SingleFrameRoundTrip | src/esp3PacketParser.ts:81-94 | one write of a well-formed frame emits exactly that frame and leaves nothing |
| Esp3FramerProperties.FrameThenStream | src/esp3PacketParser.ts:91-93 | a well-formed frame comes out first, and what follows it is framed as if alone |
| Esp3FramerProperties.TwoFramesInOrder | src/esp3PacketParser.ts:91-94 | two well-formed frames in one write come out both, in order |
| Esp3FramerProperties.NoiseTolerance | src/esp3PacketParser.ts:48-69 | leading noise whose sync bytes all fail the header CRC is dropped and the frame behind it is emitted |
| Esp3FramerProperties.CorruptFrameDropped | src/esp3PacketParser.ts:88-94 | a frame with a sound header but a bad payload CRC is dropped without losing synchronisation |
| Esp3DataProperties.ShortPacketOutOfRange | src/esp3DataParser.ts:29-39 | a packet shorter than 6 bytes fails with `OutOfRange`, because a read of the lengths or of the header CRC byte throws |
| Esp3DataProperties.HeaderCheckAgrees | src/esp3DataParser.ts:39-44 | the decoder rejects for the header CRC exactly when the framer's header check fails |
| Esp3DataProperties.TruncatedPacketOutOfRange | src/esp3DataParser.ts:45 | with a sound header, a packet shorter than announced makes the read of the data CRC byte throw |
| Esp3DataProperties.PayloadCheckAgrees | src/esp3DataParser.ts:45-50 | the decoder rejects for the data CRC exactly when the framer's payload check fails |
| Esp3DataProperties.DecodedPacketChecks | src/esp3DataParser.ts:26-70 | whatever the decoder accepts passes both CRC checks, is long enough, has type RADIO_ERP2, and has at least two optional bytes |
| Esp3DataProperties.EncodeHeader | src/esp3PacketParser.ts:72-73 | the four header bytes announce data length, optional length and packet type |
| Esp3DataProperties.EncodeFrameLayout | src/esp3PacketParser.ts:56-87 | the positions of sync byte, header, header CRC, data, optional data and data CRC in an encoded frame |
| Esp3DataProperties.EncodeFrameWellFormed | src/esp3PacketParser.ts:56-91 | an encoded frame passes both framer checks and announces its own data and optional data |
| Esp3DataProperties.WellFormedFrameIsEncoded | src/esp3PacketParser.ts:56-91 | every frame the framer emits is the encoding of its own type, data and optional data |
| Esp3DataProperties.DecodeEncodedFrame | src/esp3DataParser.ts:26-71 | decoding an encoded frame gives its data, the decoded telegram and the first two optional bytes; other types and too little optional data fail |
| Esp3DataProperties.DecodeWellFormedFrame | src/esp3DataParser.ts:39-70 | every frame the framer emits passes both decoder CRC checks and is rejected only for its type or for too little optional data |
| Esp3DataProperties.StreamedFrameDecodes | src/esp3DataParser.ts:53-66 | a frame written in any chunking is emitted once, unaltered, and decodes back to its telegram and optional fields |
| Erp2Properties.AddressControlRejects | src/esp3DataParser.ts:85-105 | a full-layout telegram fails with `InvalidAddressControl` iff its address control (bits 7-5 of byte 0) is 4 to 7 |
| Erp2Properties.TelegramCrcDecides | src/esp3DataParser.ts:146-152 | with a supported address control, a full-layout telegram decodes exactly when its last byte is the CRC of the bytes before it |
| Erp2Properties.HeaderByteFields | src/esp3DataParser.ts:76-80 | the header byte carries address control (bits 7-5), the extended-header flag (bit 4) and the telegram type (bits 3-0) |
| Erp2Properties.EncodedLayout | src/esp3DataParser.ts:122-148 | an encoded telegram places every field where the decoder looks, and ends in the CRC of its body |
| Erp2Properties.DecodedTelegram | src/esp3DataParser.ts:116-128 | the decoder reports the sender's telegram unchanged unless it is misread |
| Erp2Properties.LaidOutHeader | src/esp3DataParser.ts:76-120 | the header of a laid-out telegram announces its address widths, optional length, type, extended type and repeater count |
| Erp2Properties.LaidOutFields | src/esp3DataParser.ts:107-144 | the decoder reads every field of a laid-out telegram back |
| Erp2Properties.DecodeEncodedTelegram | src/esp3DataParser.ts:74-162 | decoding an encoded telegram gives back every field, except that a misread one reports its first originator ID byte as its extended telegram type |
| Erp2Properties.LaidOutPrefix | src/esp3DataParser.ts:122-128 | in a telegram that is not misread, the header bytes sit in front of the originator ID |
| Erp2Properties.LaidOutBody | src/esp3DataParser.ts:122-148 | every byte but the last of a laid-out telegram belongs to a field |
| Erp2Properties.LaidOutIsEncoded | src/esp3DataParser.ts:146-152 | a laid-out telegram ending in its body's CRC is the encoding of that telegram |
| Erp2Properties.DecodedSlices | src/esp3DataParser.ts:129-144 | when the announced fields fit, the decoder's slices are plain slices |
| Erp2Properties.HeaderByteRebuilt | src/esp3DataParser.ts:76-80 | the header byte is rebuilt from the three fields decoded from it |
| Erp2Properties.DecodedHeaderLaidOut | src/esp3DataParser.ts:107-128 | decoded header fields are those a sender writes |
| Erp2Properties.DecodedFieldsLaidOut | src/esp3DataParser.ts:129-144 | decoded IDs, data and optional data sit where a sender writes them |
| Erp2Properties.DecodedLaidOut | src/esp3DataParser.ts:107-144 | decoded fields fit the ERP2 layout and sit where a sender lays them out |
| Erp2Properties.DecodedIsLaidOut | src/esp3DataParser.ts:74-162 | a decoded full-layout telegram whose fields fit, and which is not misread, is laid out as a sender writes it |
| Erp2Properties.DecodeThenEncode | src/esp3DataParser.ts:74-162 | re-encoding what the decoder accepted gives back the input bytes, when the fields fit and the telegram is not misread |
| Erp2Properties.ExtendedTypeMisread | src/esp3DataParser.ts:116-128 | without an extended header, a type-0b1111 telegram reports its first originator ID byte as its extended telegram type |
| Erp2Properties.Erp2RoundTrip | src/esp3DataParser.ts:74-162 | every telegram that fits the layout and is not misread decodes back to itself |
| Erp2Properties.LayoutByLength | src/esp3DataParser.ts:73-75 | a decoded telegram has the full layout iff it is longer than 6 bytes, and the short layout otherwise |
| Erp2Properties.ShortLayout | src/esp3DataParser.ts:163-203 | a short telegram is rejected iff it is empty; otherwise the originator ID followed by the data is the input, with the widths of the length table |
| Erp2Properties.ShortRoundTrip | src/esp3DataParser.ts:166-203 | splitting a short telegram and joining its parts gives back the input, with widths 1,1,2,3,4,4 bytes for lengths 1 to 6 |
| SwitchHandler.ParseF60204Data | src/index.ts:27-40 | every flag is 0 or 1, and `isPressed` is 1 iff the top bit is set |
| SwitchHandler.EncodeF60204 | src/index.ts:27-40 | the byte a switch sends keeps the unused bits 6-4 |
| SwitchHandler.F60204RoundTrip | src/index.ts:27-40 | decoding a switch's byte gives back its flags, whatever bits 6-4 hold |
| SwitchHandler.F60204Complete | src/index.ts:27-40 | a byte is its five flags plus bits 6-4 |
| SwitchHandler.F60204IgnoresUnusedBits | src/index.ts:29-32 | bits 6-4 never affect the result |
| SwitchHandler.ByteSplit | src/index.ts:28-32 | a byte is the sum of the pressed bit, bits 6-4 and the four button bits at their weights |
| SwitchHandler.PressedButtons | src/index.ts:73-88 | a button is listed iff its flag is set, in strictly increasing A0, A1, B0, B1 order |
| SwitchHandler.RecordAll | src/index.ts:13-25 | recording one data point per button adds one entry and one to the count per button |
| SwitchHandler.RecordAllAppends | src/index.ts:18-24 | earlier data points stay; each new one carries the timestamp, originator, button and the count current at its call |
| SwitchHandler.RecordAllConcat | src/index.ts:73-88 | recording two runs of buttons is recording their concatenation |
| SwitchHandler.RecordAllKeepsCounts | src/index.ts:13-25 | unsent data points keep consecutive counts that end just below the counter |
| SwitchHandler.HandleTelegram | src/index.ts:50-88 | nothing is recorded unless a full type-0 telegram with a data byte, from a listed switch, has the pressed flag set; then one point per set button; earlier points are kept and the count grows by one per point |
| SwitchHandler.NewPointsListed | src/index.ts:66-88 | every new data point carries the timestamp, a consecutive count and a listed originator |
| SwitchHandler.HandleRecordsPressed | src/index.ts:73-88 | the four conditional `recordData` calls record exactly the pressed buttons, in order |
| SwitchHandler.HandleEnOceanPacket | src/index.ts:42-89 | the recorder changes only for a packet that decodes to an accepted telegram; earlier points are kept; new ones carry the timestamp, consecutive counts and a listed originator |
| SwitchHandler.HandleKeepsCounts | src/index.ts:13-25 | handling a packet keeps the counter invariant |
| SwitchHandler.HandleRecordsButtons | src/index.ts:73-88 | an accepted packet records one point per set button, in order, with its originator ID, the timestamp and consecutive counts |
| SwitchHandler.CompactNeverRecorded | src/index.ts:50-53 | a short-layout telegram has no telegram type, so it is never recorded |
| SwitchHandler.FullOriginatorIdNonEmpty | src/index.ts:66 | a decoded full-layout originator ID is never empty, so its hex string is never the falsy `""` |
| TestVectors.HeaderCrcVector | src/tests/esp3PacketParser.test.ts:5-7 | crc8(00 07 02 0A) = 0x0A, the header CRC of the test frame |
| TestVectors.FakeHeaderCrcVector | src/tests/esp3PacketParser.test.ts:71-74 | crc8(55 00 07 02) = 0xD7, so the stray sync byte's header fails |
| TestVectors.TelegramCrcVector | src/tests/esp3DataParser.test.ts:4-7 | crc8(20 00 2E 5C 72 84) = 0xF2, the telegram CRC |
| TestVectors.PayloadCrcVector | src/tests/esp3PacketParser.test.ts:5-7 | crc8 of data and optional data = 0x8B, the data CRC |
| TestVectors.PacketWellFormed | src/tests/esp3PacketParser.test.ts:5-7 | the test frame passes both framer checks |
| TestVectors.FieldsWellFormed | src/tests/esp3PacketParser.test.ts:5-7 | a frame with the test frame's header and payload passes both framer checks |
| TestVectors.SinglePacketParsing | src/tests/esp3PacketParser.test.ts:10-23 | one write emits the frame unchanged |
| TestVectors.SplitReceive | src/tests/esp3PacketParser.test.ts:25-42 | the frame split after byte 4 is emitted whole |
| TestVectors.MultiplePacketParsing | src/tests/esp3PacketParser.test.ts:44-59 | the frame written twice is emitted twice, in order |
| TestVectors.FakeHeaderSyncByte | src/tests/esp3PacketParser.test.ts:61-79 | a leading fake sync byte is skipped and the frame is emitted unchanged |
| TestVectors.FakeHeaderDrain | src/tests/esp3PacketParser.test.ts:71-77 | draining the stray sync byte and the frame emits only the frame |
| TestVectors.OneChunk | src/esp3PacketParser.ts:19-23 | a single write to a fresh framer is one drain of what was written |
| TestVectors.FakeSyncRejected | src/tests/esp3PacketParser.test.ts:71-74 | the stray sync byte is the only candidate before the frame, and it is rejected |
| TestVectors.FrameFieldsVector | src/tests/esp3DataParser.test.ts:4-7 | the test frame is of type RADIO_ERP2 with the telegram as data and `01 32` as optional data |
| TestVectors.TelegramChecksVector | src/esp3DataParser.ts:85-152 | the test telegram passes the address-control and CRC checks |
| TestVectors.TelegramFieldsVector | src/esp3DataParser.ts:107-162 | the fields of the test telegram: type 0, no extended fields, originator `00 2E 5C 72`, data `84` |
| TestVectors.TelegramVector | src/tests/esp3DataParser.test.ts:9-24 | the test telegram decodes to originator `00 2E 5C 72` and data `84` |
| TestVectors.PacketDataVector | src/tests/esp3DataParser.test.ts:9-24 | `parseEsp3Data` on the test frame gives that telegram's bytes as rawData, subTelNum 1 and dBm 50 |
| TestVectors.HandlerVector | src/index.ts:42-89 | the test frame from a listed switch records one A1 point with count 0 |
| TestVectors.TelegramHandled | src/index.ts:50-88 | the decision part on the test telegram records one A1 point with count 0 |
| TestVectors.UnlistedVector | src/index.ts:66-69 | the same frame from an unlisted switch records nothing |

## Left out

- Node stream plumbing (`Transform`, `callback`, `this.push`, `_flush`): a write is a function from buffer and chunk to new buffer and pushed frames. `_flush` only empties the buffer at end of stream.
- The serial port, reconnection, argument parsing, settings loading, the periodic send of `unsentEnOceanData` and both loggers: I/O and timers.
- `console.log` diagnostics: not observable behaviour.
- `Date.now()`: the timestamp is a parameter.
- `settings.originatorIds`: the list is a parameter.
- Hex formatting: originator IDs are byte sequences compared by equality. Byte sequences and their lower-case hex strings determine each other, and the empty ID is excluded just as the empty string is falsy.
- The `if (!packet)` guard of `handleEnOceanPacket`: the framer only pushes frames, so the packet is always present.
- The CRC inside the framer and decoder is the parameter `crc8: Checksum`. `Crc.Crc8` is the CRC of the `crc` package, and the test vectors use it. The package itself is not part of this model.
- A frame whose data and optional data exceed a JavaScript `Buffer`'s size: lengths are unbounded naturals.
- Erp2Properties.Erp2RoundTrip: requires that the telegram is not misread (type 0b1111 without an extended header). For those telegrams the decoder reads the extended telegram type from the originator ID. Erp2Properties.DecodeEncodedTelegram states what it returns instead.
- Erp2Properties.DecodeThenEncode: requires that the announced fields fit inside the telegram and that it is not misread. When fields overlap, the decoder clamps them, and no sender would have built those bytes.
- Erp2Properties.ShortRoundTrip: the short layout has no CRC and no header, so nothing else can be stated about it.
