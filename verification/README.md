# Verification of bsomeip

A Dafny model of the byte-level core of bsomeip, a SOME/IP stack, and proofs about it. Each Dafny module
follows one header of the stack or one result about it:

- `LinearRegister`, `Crc8`, `Crc32`, `Crc64`: checksums at three levels (bit step, byte table, slicing by 8)
  over one generic shift register that is linear over exclusive-or. Machine words are bit vectors.
- `E2eProfile`, `E2eDetection`, `E2eProtector`, `E2eRun`: the four end-to-end protection profiles, what damage
  they detect, the stateful stages around a channel, and whole runs over a channel that loses, repeats,
  reorders and invents messages.
- `Header`, `Tp`, `TpAssembler`, `TpTable`, `TpRun`, `Framer`, `TpStream`: the message header, segmentation,
  reassembly of arbitrary and of honest segments, the TCP stream framer, and a payload's way through all of them.
- `SdEntry`, `SdOption`, `SdMessage`, `SdRoundTrip`, `SdWire`, `SdDiscovery`, `SdBackoff`, `SdRuns`, `SdOptions`,
  `SdTicks`: the Service Discovery wire format and state machine.
- `Codec`, `CodecRoundTrip`, `CodecBytes`: the schema-directed codec; what reflection knows about a type is a schema value.
- `RingIndex`, `SubmissionRing`, `CompletionRing`, `Uring`: the shared-ring index protocol with 32-bit
  wrap-around, as step systems in which the kernel runs between any two accesses, and as methods.
- `Routing`, `App`, `AppCalls`, `AppHandlers`: the service registry with availability notifications, in-process calls.
- `Bytes`, `Wrappers`, `Sequences`: bytes, big-endian integers and writing into buffers; small helpers.

Code that changes buffers or objects is modelled as methods over arrays and classes, each proved equal to a
specification function; the lemmas are about these functions and hold for all inputs, runs and interleavings.
Where a function lays out bytes or decides something by itself, a lemma says in literal offsets, numbers and
conditions what it does, so that its body is not the only place where that stands.
Time points, handler and callback identities, the kernel's actions and the channel's actions are parameters.
Fixed-width arithmetic is written out wherever it can wrap. The look-up tables, compile-time constants in
the code, are filled by methods and handed to the loops that use them.

Where the code and its comments differ, the model follows the code:

- The TP header holds the byte offset shifted left by 4 and the more-segments flag in bit 0.
- The framer's cookies are 0xFFFF/0x0000 and 0xDEAD/0xBEEF with length 8; the cookie constants of
  `constants.hpp` are not used by it.
- A find is sent `max(2, repetition_max)` times, since the repetition phase is entered with a count of 1.
- The E2E profile 01 fields `data_id_mode` and the length limits of the other profiles are read by no code.
- `initial_delay_max` of the discovery configuration is read by no code.

## Model

| member | source | states |
|---|---|---|
| LinearRegister.Register.FoldIsPack | include/bsomeip/e2e/crc.hpp:103-132 | absorbing a block of bytes is one exclusive-or of the packed block followed by eight bit steps per byte, for every linear register |
| LinearRegister.Register.FoldBlock | include/bsomeip/e2e/crc.hpp:109-125 | absorbing a word and more bytes is the sum of the contributions of the bytes of register xor word, and of those bytes |
| LinearRegister.Register.Lookup8IsSliced | include/bsomeip/e2e/crc.hpp:89-99 | eight table look-ups, one per byte of the word, amount to advancing the whole word by eight bytes; the tables hold the step iterated 8(k+1) times |
| LinearRegister.Register.BurstDetected | include/bsomeip/e2e/crc.hpp:103-132 | two inputs that differ only in a window no wider than the register leave different registers |
| LinearRegister.Register.MessageBurstDetected | include/bsomeip/e2e/crc.hpp:103-132 | messages whose bits differ only in a window no longer than the register, wherever it starts, leave different registers |
| LinearRegister.Register.FoldIsRemainder | include/bsomeip/e2e/crc.hpp:65-79 | the register after a message is the remainder of a polynomial long division of the message and the initial value |
| Crc8.MakeTable | include/bsomeip/e2e/crc.hpp:27-41 | the table-filling loops produce, for every byte, eight bit steps of the polynomial 0x1D |
| Crc8.SaeJ1850 | include/bsomeip/e2e/crc.hpp:47-54 | the table-driven loop computes the bit-by-bit checksum for every input and initial value |
| Crc8.AbsorbIsLookup | include/bsomeip/e2e/crc.hpp:50-53 | one look-up is eight bit steps |
| Crc8.Chains | include/bsomeip/e2e/crc.hpp:47-54 | the checksum of a concatenation continues from the first checksum after undoing its final inversion |
| Crc8.ByteErrorDetected | include/bsomeip/e2e/crc.hpp:47-54 | changing any one byte changes the checksum |
| Crc8.BitBurstDetected | include/bsomeip/e2e/crc.hpp:47-54 | any error burst of at most 8 consecutive bits, across byte borders, changes the checksum |
| Crc8.CrcIsRemainder | include/bsomeip/e2e/crc.hpp:27-41 | the checksum is the inverted remainder of the long division of message * x^8 + init * x^length by the polynomial |
| Crc8.CheckValue | include/bsomeip/e2e/crc.hpp:47-54 | the checksum of "123456789" is 0x4B |
| Crc8.ResidueExactly | include/bsomeip/e2e/crc.hpp:47-54 | a message and one more byte have the checksum 0x3B exactly if that byte is the checksum of the message |
| Crc32.MakeTable | include/bsomeip/e2e/crc.hpp:65-79 | the table-filling loops produce eight reflected bit steps for every byte |
| Crc32.MakeSlice8 | include/bsomeip/e2e/crc.hpp:89-99 | table k holds the bit step iterated 8(k+1) times |
| Crc32.Fast | include/bsomeip/e2e/crc.hpp:103-132 | the slicing-by-8 loop with its byte-wise tail computes the bit-by-bit CRC-32 for every input and initial value |
| Crc32.Bytewise | include/bsomeip/e2e/crc.hpp:139-144 | the byte-at-a-time loop computes the same |
| Crc32.Ethernet | include/bsomeip/e2e/crc.hpp:136-148 | the public function computes the bit-by-bit CRC-32 |
| Crc32.BlockIsFold | include/bsomeip/e2e/crc.hpp:109-125 | one 8-byte block step equals eight byte steps |
| Crc32.DamageDetected | include/bsomeip/e2e/crc.hpp:136-148 | inputs of equal length that differ within 4 consecutive bytes have different CRCs |
| Crc32.BitBurstDetected | include/bsomeip/e2e/crc.hpp:136-148 | any error burst of at most 32 consecutive bits, in order of transmission and across byte borders, changes the CRC |
| Crc32.CrcIsRemainder | include/bsomeip/e2e/crc.hpp:65-79 | the CRC is the inverted remainder of the long division of message * x^32 + init * x^length by the polynomial |
| Crc32.CheckValue | include/bsomeip/e2e/crc.hpp:136-148 | the checksum of "123456789" is 0xCBF43926 |
| Crc32.ResidueExactly | include/bsomeip/e2e/crc.hpp:136-148 | a message and four more bytes have the checksum 0x2144DF1C exactly if these are, least significant first, the checksum of the message |
| Crc32.WireBytes | include/bsomeip/e2e/profile.hpp:245-260 | the checksum goes out with the most significant byte first |
| Crc64.MakeTable | include/bsomeip/e2e/crc.hpp:159-173 | the table-filling loops produce eight bit steps for every byte, most significant bit first |
| Crc64.MakeSlice8 | include/bsomeip/e2e/crc.hpp:183-193 | table k holds the bit step iterated 8(k+1) times |
| Crc64.Fast | include/bsomeip/e2e/crc.hpp:197-229 | the byte-swapped slicing-by-8 loop computes the bit-by-bit CRC-64 for every input and initial value |
| Crc64.Checksum | include/bsomeip/e2e/crc.hpp:233-245 | the public function computes the bit-by-bit CRC-64 |
| Crc64.BlockIsFold | include/bsomeip/e2e/crc.hpp:204-221 | one byte-swapped 8-byte block step equals eight byte steps |
| Crc64.DamageDetected | include/bsomeip/e2e/crc.hpp:233-245 | inputs of equal length that differ within 8 consecutive bytes have different CRCs |
| Crc64.BitBurstDetected | include/bsomeip/e2e/crc.hpp:233-245 | any error burst of at most 64 consecutive bits, across byte borders, changes the CRC |
| Crc64.CrcIsRemainder | include/bsomeip/e2e/crc.hpp:159-173 | the CRC is the inverted remainder of the long division of message * x^64 + init * x^length by the polynomial |
| Crc64.CheckValue | include/bsomeip/e2e/crc.hpp:233-245 | the checksum of "123456789" is 0x62EC59E3F1A4F00A |
| Crc64.ResidueExactly | include/bsomeip/e2e/crc.hpp:233-245 | a message and eight more bytes have the checksum 0x03534142A6CE566D exactly if these are, most significant first, the checksum of the message |
| Crc64.WireBytes | include/bsomeip/e2e/profile.hpp:343-356 | the checksum goes out with the most significant byte first |
| E2eProfile.Protect01 | include/bsomeip/e2e/profile.hpp:61-90 | in place: counter nibble and CRC are set, the rest of the payload and of the buffer stays |
| E2eProfile.ComputeSeal8 | include/bsomeip/e2e/profile.hpp:75-89 | the byte-by-byte loop with its re-inverted state computes the CRC-8 of the ID and the payload without its CRC byte |
| E2eProfile.Check01 | include/bsomeip/e2e/profile.hpp:93-128 | error, wrong CRC or the sequence verdict, and the counter moves only after a correct CRC |
| E2eProfile.Protect02 | include/bsomeip/e2e/profile.hpp:147-168 | in place: counter nibble of byte 1 and CRC of byte 0, the data ID picked by the counter |
| E2eProfile.Check02 | include/bsomeip/e2e/profile.hpp:171-200 | as for profile 01, with the data ID of the received counter |
| E2eProfile.Protect04 | include/bsomeip/e2e/profile.hpp:245-260 | in place: length, counter, data ID and the CRC-32 over the payload with its CRC field cleared |
| E2eProfile.Check04 | include/bsomeip/e2e/profile.hpp:263-296 | too short or wrong length, wrong data ID or CRC, or the 16-bit sequence verdict |
| E2eProfile.Protect07 | include/bsomeip/e2e/profile.hpp:343-356 | in place: length, counter, data ID and the CRC-64 over the payload with its CRC field cleared |
| E2eProfile.Check07 | include/bsomeip/e2e/profile.hpp:359-392 | too short or wrong length, wrong data ID or CRC, or the 32-bit sequence verdict |
| E2eDetection.Protected01Passes | include/bsomeip/e2e/profile.hpp:61-128 | what protect wrote passes the CRC check, and carries its counter if the CRC and counter offsets differ |
| E2eDetection.Protected02Passes | include/bsomeip/e2e/profile.hpp:147-200 | the same for profile 02 |
| E2eDetection.Protected04Passes | include/bsomeip/e2e/profile.hpp:245-296 | the same for profile 04, exactly when the size fits the 16-bit length field |
| E2eDetection.Protected07Passes | include/bsomeip/e2e/profile.hpp:343-392 | the same for profile 07, exactly when the size fits the 32-bit length field |
| E2eDetection.Sealed01 | include/bsomeip/e2e/profile.hpp:61-90 | byte by byte: the counter in the low nibble, the CRC over data ID (high byte first) and payload without the CRC byte, every other byte as before |
| E2eDetection.Sealed02 | include/bsomeip/e2e/profile.hpp:147-168 | the same for profile 02: CRC, counter nibble, the data ID of the counter |
| E2eDetection.Sealed04 | include/bsomeip/e2e/profile.hpp:245-260 | size, counter and data ID in the first 8 bytes, then the CRC with start value 0xFFFFFFFF over the payload with four zeros in its place |
| E2eDetection.Sealed07 | include/bsomeip/e2e/profile.hpp:343-356 | size, counter and data ID in the first 12 bytes, then the CRC-64 with all bits set at the start over the payload with eight zeros in its place |
| E2eDetection.Verdict01 | include/bsomeip/e2e/profile.hpp:93-128 | for every payload: error exactly if too short, wrong CRC exactly if the CRC byte differs, else repeated at counter distance 0, ok up to `max_delta`, wrong sequence beyond; the last counter moves only with the latter three |
| E2eDetection.Verdict02 | include/bsomeip/e2e/profile.hpp:171-200 | the same for profile 02 |
| E2eDetection.Verdict04 | include/bsomeip/e2e/profile.hpp:263-296 | the same for profile 04, with a length field that must match and a data ID |
| E2eDetection.Verdict07 | include/bsomeip/e2e/profile.hpp:359-392 | the same for profile 07 |
| E2eDetection.Damaged01 | include/bsomeip/e2e/profile.hpp:93-114 | any one changed byte, the CRC byte included, is reported as wrong CRC and the last counter stays |
| E2eDetection.Damaged02 | include/bsomeip/e2e/profile.hpp:171-188 | the same for profile 02 and every byte but byte 1 |
| E2eDetection.DamagedCounter02 | include/bsomeip/e2e/profile.hpp:171-188 | damage to byte 1 of profile 02 goes unnoticed exactly when data ID and byte have the same CRC as before |
| E2eDetection.DamagedCounterUnnoticed02 | include/bsomeip/e2e/profile.hpp:171-188 | a configuration and an authentic payload for which a changed byte 1 is accepted as the next message |
| E2eDetection.Damaged04 | include/bsomeip/e2e/profile.hpp:263-283 | damage within 4 consecutive bytes is refused and the counter stays, unless it reaches over the right border of the CRC field |
| E2eDetection.Damaged07 | include/bsomeip/e2e/profile.hpp:359-380 | damage within 8 consecutive bytes before or behind the CRC field, or anywhere in data ID and CRC field, is refused and the counter stays |
| E2eProtector.E2eState.Protect | include/bsomeip/e2e/protector.hpp:79-105 | the message buffer is sealed in place with the counter cut to the profile's width, the length field rewritten, the counter advanced |
| E2eProtector.E2eState.Check | include/bsomeip/e2e/protector.hpp:190-223 | verdict and counter of the profile's check; the message is forwarded exactly when the verdict is ok |
| E2eProtector.ProtectedMessageReads | include/bsomeip/e2e/protector.hpp:79-105 | a protected message has the header of the original with the length field rewritten, and the sealed payload |
| E2eProtector.BareHeaderIsNotProtected | include/bsomeip/e2e/protector.hpp:79-105 | a message without payload is forwarded as it is and not counted; the receiver reports an error |
| E2eRun.CheckedProtected | include/bsomeip/e2e/profile.hpp:285-295 | for every profile, a protected payload is repeated, ok or out of sequence exactly by the modular distance of the two counters: 0, 1 to `max_delta`, or more |
| E2eRun.RunIsPredicted | include/bsomeip/e2e/protector.hpp:190-223 | over every run with losses, repeats, reordering and noise, each genuine message is repeated at distance 0 from the last genuine one, ok at distance 1 to `max_delta`, out of sequence beyond, and noise is an error or a wrong CRC by its form and never moves the receiver |
| E2eRun.FreshRunIsPredicted | include/bsomeip/e2e/protector.hpp:35-48 | the same from fresh sender and receiver states |
| E2eRun.ReplayIsRefused | include/bsomeip/e2e/profile.hpp:285-295 | in every run, a message delivered again is reported as repeated and not forwarded, whatever is sent and whatever noise arrives in between |
| E2eRun.LosslessAlwaysOk | include/bsomeip/e2e/protector.hpp:35-105 | over a lossless in-order channel, however many messages it holds and whenever it delivers them, every message checks ok forever, across all counter wraps, exactly when `max_delta` is at least 1 (or nothing is delivered) |
| E2eRun.AtOnceAlwaysOk | include/bsomeip/e2e/protector.hpp:35-105 | the instance in which every message is delivered before the next one is sent |
| Bytes.BigEndian16 | include/bsomeip/wire/header.hpp:33-36 | two bytes, the most significant one first |
| Bytes.BigEndian32 | include/bsomeip/wire/header.hpp:39-44 | four bytes, the most significant one first |
| Bytes.ReadsBigEndian | include/bsomeip/wire/header.hpp:18-30 | the same for reading |
| Header.HeaderLayout | include/bsomeip/wire/header.hpp:49-150 | the offset of every header field |
| Header.HeaderRoundTrip | include/bsomeip/wire/header.hpp:49-150 | every header field reads back as it was set, whatever follows the header |
| Header.HeaderRewritten | include/bsomeip/wire/header.hpp:49-150 | setting all fields to what was read gives the same 16 bytes |
| Header.HeaderView.SetU16 | include/bsomeip/wire/header.hpp:111-129 | the setters of service, method, client and session write their field in place and keep all others |
| Header.HeaderView.SetLength | include/bsomeip/wire/header.hpp:119-121 | the length field is written in place, all other fields and bytes stay |
| Header.HeaderView.SetPayloadLength | include/bsomeip/wire/header.hpp:148-150 | the length field becomes the payload size plus 8 on 32 bits, and reads back as that size unless the sum wraps |
| Header.HeaderView.SetByte | include/bsomeip/wire/header.hpp:131-145 | the setters of versions, message type and return code write their byte in place and keep all others |
| Header.HeaderView.Fill | include/bsomeip/wire/header.hpp:111-145 | all setters in a row leave exactly the header with these fields and every other byte as it was |
| Tp.TpHeaderRoundTrip | include/bsomeip/wire/tp.hpp:32-44 | offset modulo 2^28 and flag survive the wire |
| Tp.SegmentMessage | include/bsomeip/wire/tp.hpp:55-98 | the loop produces one segment per piece of the payload, all but the last announcing more |
| Tp.BuildSegment | include/bsomeip/wire/tp.hpp:68-91 | header with TP flag and length, TP header and data are written into one buffer |
| TpStream.SegmentCarries | include/bsomeip/wire/tp.hpp:63-95 | every segment reads back as the header of the sender with bit 5 of the message type set, its other bits and all other fields kept, a length that is its own size minus 8, its offset, whether more follow, and its piece of the payload |
| TpStream.TpHeaderBits | include/bsomeip/wire/tp.hpp:32-44 | the offset is in the upper 28 bits of the word and the flag in the lowest one, for writing and reading |
| TpStream.PieceSizes | include/bsomeip/wire/tp.hpp:63-95 | piece k starts at k times the segment size; all but the last have exactly that size |
| TpStream.KeyIsIds | include/bsomeip/wire/tp.hpp:117-122 | two segments belong to the same stream exactly if service, method, client and session agree |
| TpAssembler.PutIsMap | include/bsomeip/wire/tp.hpp:131-132 | the fragment list behaves as an ordered map |
| TpAssembler.Assemble | include/bsomeip/wire/tp.hpp:143-161 | the in-place assembly loop yields the payload or fails at the first gap |
| TpAssembler.Assembler.Feed | include/bsomeip/wire/tp.hpp:114-162 | table and result after one segment: stored, refused or completed and removed |
| TpTable.AssembledExactly | include/bsomeip/wire/tp.hpp:143-161 | assembly succeeds exactly if the fragments are contiguous from 0 to the end, all of them included, and gives the payload made of them |
| TpTable.AnySegment | include/bsomeip/wire/tp.hpp:114-162 | for any segment, well-formed or not: refused if too short, else stored over what was there for its offset, and the payload given out exactly if an end is known and the data are contiguous up to it |
| TpTable.TableHoldsLatest | include/bsomeip/wire/tp.hpp:112-172 | over every run of any segments: for every key and offset the table holds the data received last since a payload was given out, and the end announced last since then |
| TpRun.PiecesTile | include/bsomeip/wire/tp.hpp:63-95 | the pieces follow each other without gap or overlap and together are the payload |
| TpRun.AssembledCollected | include/bsomeip/wire/tp.hpp:143-161 | assembling the pieces received so far succeeds exactly when none is missing, and then gives the payload |
| TpRun.FeedPart | include/bsomeip/wire/tp.hpp:114-162 | one more segment of a transmission whose offsets fit 28 bits and whose length fits 32: completion exactly with the last missing piece, other streams untouched |
| TpRun.RunIsExpected | include/bsomeip/wire/tp.hpp:114-162 | any interleaving of any number of such transmissions, in any order, with repeats even after completion, gives at each step the result that the set of received pieces determines |
| TpRun.FreshRunIsExpected | include/bsomeip/wire/tp.hpp:112-172 | the same from an empty assembler |
| TpRun.AnyOrderReassembles | include/bsomeip/wire/tp.hpp:55-172 | the segments of such a payload in any order are refused up to the last one, which returns exactly the payload |
| TpRun.OversizedNeverCompletes | include/bsomeip/wire/tp.hpp:55-172 | whatever else is under way, a payload with an offset beyond 28 bits or a length beyond 32 is never handed out |
| TpRun.ReassemblesExactly | include/bsomeip/wire/tp.hpp:55-172 | for every transmission and every order of its segments, the payload is handed out exactly if it is not empty, its offsets fit 28 bits and its length 32 |
| TpRun.OneByteTooMany | include/bsomeip/wire/tp.hpp:24-44 | a payload of 2^28 + 1 bytes in segments of 2^28 comes back as one byte |
| TpStream.SegmentFrames | include/bsomeip/io/framer.hpp:43-89 | a segment is framed as one message, never dropped as a cookie, exactly if it has at most 4 MiB |
| TpStream.PayloadCrossesStream | include/bsomeip/wire/tp.hpp:55-172 | end to end: a payload cut into segments, sent on one byte stream, received in chunks of any sizes and framed at any times, comes out of the assembler with the last segment |
| Framer.LooksExactly | include/bsomeip/io/framer.hpp:53-88 | the decision on the front of the buffer in terms of its bytes: which eight bytes are a cookie, how large a message is, that 4194304 is the limit |
| Framer.Framer.NextMessage | include/bsomeip/io/framer.hpp:43-89 | the rescan loop ends at the first message or incomplete header of the pending bytes and hands out that message |
| Framer.Framer.Feed | include/bsomeip/io/framer.hpp:35-37 | the pending bytes grow by the data |
| Framer.Framer.Reset | include/bsomeip/io/framer.hpp:92-95 | nothing is pending |
| Framer.Drive | include/bsomeip/io/framer.hpp:35-89 | feeding the framer and asking it for a message is one feed and one call of the run model |
| Framer.ParseConserves | include/bsomeip/io/framer.hpp:43-89 | every byte of a stream is emitted, dropped with a cookie, skipped, or left over, in order |
| Framer.RunIsParse | include/bsomeip/io/framer.hpp:35-89 | for every cut into feeds and every placement of calls, what is settled followed by the parse of what is pending is the parse of the whole stream |
| Framer.ChunkingDoesNotMatter | include/bsomeip/io/framer.hpp:35-89 | once drained, the output is the one-shot parse of the stream |
| Framer.RoundTrip | include/bsomeip/io/framer.hpp:43-89 | concatenated well-formed messages with cookies between them frame back to exactly these |
| Framer.FramesBack | include/bsomeip/io/framer.hpp:35-89 | the same for every run over such a stream |
| SdEntry.WriteEntry | include/bsomeip/sd/entry.hpp:92-119 | the 16 bytes are written in place, nothing else changes |
| SdEntry.EntryRoundTrip | include/bsomeip/sd/entry.hpp:58-119 | an entry survives the wire exactly when TTL and counts fit and the unused field is zero |
| SdEntry.ReadEntryRoundTrip | include/bsomeip/sd/entry.hpp:58-119 | bytes read as an entry are written back unchanged exactly when the reserved bytes were not used |
| SdEntry.CutBytes | include/bsomeip/sd/entry.hpp:92-119 | an entry has the bytes of its cut form: counts of 4 bits, a TTL of 24, the unused field dropped |
| SdWire.EntryLayout | include/bsomeip/sd/entry.hpp:92-119 | the offset of every field of an entry; types 0 to 2 end with the minor version, all others with the eventgroup |
| SdWire.EntryFields | include/bsomeip/sd/entry.hpp:58-88 | the same for reading, for any 16 bytes |
| SdOption.WriteOption | include/bsomeip/sd/option.hpp:103-147 | the bytes of either variant are written in place and their number returned |
| SdOption.OptionRoundTrip | include/bsomeip/sd/option.hpp:68-132 | size, type and all fields of a written option read back |
| SdWire.OptionLayout | include/bsomeip/sd/option.hpp:103-132 | the offset of every field of an option; the length field is 9 or 21 |
| SdMessage.SerializeSd | include/bsomeip/sd/message.hpp:134-180 | writes exactly 12 + 16 * entries + option sizes bytes, or returns 0 and touches nothing |
| SdWire.PayloadLayout | include/bsomeip/sd/message.hpp:160-179 | the offset of flags, lengths, every entry and the options in a payload; reboot is bit 7, unicast bit 6 |
| SdMessage.DeserializeSd | include/bsomeip/sd/message.hpp:59-130 | the parser loops terminate in bounds on every input and compute the recursive parse |
| SdRoundTrip.ErrorsAreExact | include/bsomeip/sd/message.hpp:61-94 | each length error in unbounded arithmetic: the 32-bit sum never matters, and the truncated-entry and unknown-type errors never happen |
| SdWire.OptionsReadExactly | include/bsomeip/sd/message.hpp:97-130 | an options array is accepted exactly if it consists of records whose length fields say their sizes and which are long enough for their types; then the options in the records of known types are returned in order, all others are skipped; otherwise it is reported as truncated |
| SdWire.AcceptedExactly | include/bsomeip/sd/message.hpp:59-130 | which payloads are accepted, which are truncated, and what is read from an accepted one |
| SdWire.OthersAreSkipped | include/bsomeip/sd/message.hpp:97-130 | options of known types among any well-sized records of other types, in any order: exactly the known ones are read, in order |
| SdRoundTrip.ParsedIsStorable | include/bsomeip/sd/message.hpp:59-130 | whatever the parser returns is storable and prints into no more bytes than were parsed |
| SdRoundTrip.SdMessageRoundTrip | include/bsomeip/sd/message.hpp:59-180 | a message survives printing and parsing, whatever follows it, exactly when it is storable |
| SdRoundTrip.PrintedParses | include/bsomeip/sd/message.hpp:59-180 | a message that fits, with options of known types, parses to itself with its entries cut, whatever they hold |
| SdRoundTrip.ReprintedParses | include/bsomeip/sd/message.hpp:59-180 | printing and parsing what was parsed gives the same message |
| SdRoundTrip.BuildSdMessage | include/bsomeip/sd/message.hpp:184-213 | header and payload are written in place; without room 0 is returned and the buffer stays, but a message without entries becomes a bare header |
| SdRoundTrip.BuiltMessageFrames | include/bsomeip/sd/message.hpp:184-213 | a built message is a notification of service 0xFFFF, method 0x8100, client 0, versions 1; it is framed as one message, never dropped as a cookie, exactly when it has at most 4 MiB, and its payload parses back exactly when the message is storable |
| SdDiscovery.Discovery.StopOffer | include/bsomeip/sd/discovery.hpp:105-114 | the first offer of the service moves to the pending withdrawals, or nothing changes |
| SdDiscovery.Discovery.StartOffer | include/bsomeip/sd/discovery.hpp:88-102 | a fresh offer joins the others |
| SdDiscovery.Discovery.StartFind | include/bsomeip/sd/discovery.hpp:117-129 | a fresh find joins the others |
| SdDiscovery.Discovery.StopFind | include/bsomeip/sd/discovery.hpp:132-136 | all finds of the service go, the others stay in order |
| SdDiscovery.Discovery.SetRebootFlag | include/bsomeip/sd/discovery.hpp:210 | only the flag changes |
| SdDiscovery.Discovery.Tick | include/bsomeip/sd/discovery.hpp:140-207 | messages and new state of a tick: withdrawals, due offers and due finds |
| SdBackoff.TimersAreIndependent | include/bsomeip/sd/discovery.hpp:155-197 | in a run of ticks every offer and find follows its own timer only |
| SdBackoff.TimerFollowsSends | include/bsomeip/sd/discovery.hpp:217-265 | after any run of ticks, phase, count and next send time are determined by the sends so far, whose gaps are at least those of the backoff |
| SdBackoff.FindIsBounded | include/bsomeip/sd/discovery.hpp:244-265 | a find is sent at most max(2, repetition_max) times, and exactly that often when it is down |
| SdBackoff.DownIsFinal | include/bsomeip/sd/discovery.hpp:187-197 | a find that is down is never sent again |
| SdBackoff.FindIsSentOut | include/bsomeip/sd/discovery.hpp:187-197 | over every run of ticks a find is sent once per timely tick, up to max(2, repetition_max) times |
| SdBackoff.MainIsAbsorbing | include/bsomeip/sd/discovery.hpp:236-238 | an offer in the main phase stays there, with gaps of at least the cyclic delay |
| SdBackoff.BackoffIsExponential | include/bsomeip/sd/discovery.hpp:217-265 | send k+1 comes at least base * (2^k - 1) after the first one during repetition, and cyclically afterwards |
| SdRuns.TickEntries | include/bsomeip/sd/discovery.hpp:147-204 | a tick sends withdrawals, then offers, then finds |
| SdRuns.TickSendsDueFinds | include/bsomeip/sd/discovery.hpp:187-197 | one entry per due find, in order, with its service and versions |
| SdTicks.TickSplits | include/bsomeip/sd/discovery.hpp:147-204 | a tick sends at most two messages: withdrawals, offers and their options in the first, finds in the second, none of them empty |
| SdTicks.EntriesSent | include/bsomeip/sd/discovery.hpp:147-197 | every field of the withdrawals, offers and finds of a tick |
| SdTicks.FlagsFollow | include/bsomeip/sd/discovery.hpp:180-210 | over every run, the messages of a tick say unicast, and reboot as it was set last, true at first |
| SdTicks.OffersAreStarted | include/bsomeip/sd/discovery.hpp:88-183 | over every run, each live offer has the service, versions and options of a call that started it, and the timer that this start and the ticks since then give |
| SdTicks.FindsAreStarted | include/bsomeip/sd/discovery.hpp:117-197 | the same for finds |
| SdTicks.StopTakesFirst | include/bsomeip/sd/discovery.hpp:105-114 | stopping takes the first offer of the service and leaves all others in order |
| SdTicks.StopDropsEvery | include/bsomeip/sd/discovery.hpp:132-136 | stopping a find drops all finds of the service and leaves all others in order |
| SdRuns.OffersAreAccountedFor | include/bsomeip/sd/discovery.hpp:88-183 | over every run and per service: live offers are starts minus successful stops, and each successful stop has been announced exactly once or is pending; under a configured offer TTL of 0 every offer sent looks like a withdrawal and is counted as one too |
| SdRuns.TickAnnouncesStops | include/bsomeip/sd/discovery.hpp:147-152 | after a tick as many withdrawals have been sent as stops succeeded, plus the offers that look like one under a configured TTL of 0 |
| SdRuns.FindsAreAccountedFor | include/bsomeip/sd/discovery.hpp:117-136 | over every run and per service, find entries sent plus those to come are at most max(2, repetition_max) per start, and exactly that without a stop |
| SdOptions.OptionsResolve | include/bsomeip/sd/discovery.hpp:147-183 | the withdrawals are followed by one entry per due offer; its option run selects exactly that offer's options if it starts at 255 or before and holds at most 255 |
| SdOptions.OptionsResolveExactly | include/bsomeip/sd/discovery.hpp:164-171 | if no option occurs twice in the message, the run selects the offer's options exactly under that condition |
| SdOptions.LastOfferMisleads | include/bsomeip/sd/discovery.hpp:164-171 | 19 due offers of 15 different options each: the last entry leads to other options than its own |
| SdOptions.OptionsResolveOnTheWire | include/bsomeip/sd/discovery.hpp:147-183 | a receiver of the serialized message sees the same entries, and the run selects the offer's options if it starts at 255 or before and holds at most 15; only then if no option occurs twice |
| Codec.SerializeField | include/bsomeip/wire/codec.hpp:194-217 | writes the encoding of a value of any supported type in place and returns the schema's width |
| Codec.SerializeMembers | include/bsomeip/wire/codec.hpp:178-184 | the members are written one behind the other |
| Codec.DeserializeField | include/bsomeip/wire/codec.hpp:219-260 | reads a value of any supported type and returns the schema's width |
| Codec.Serialize | include/bsomeip/wire/codec.hpp:266-289 | the checked fold writes the encoding and returns a size that does not depend on the value |
| Codec.Deserialize | include/bsomeip/wire/codec.hpp:291-315 | refuses exactly when some member starts at or behind the end of the buffer, else decodes |
| Codec.SerializeMessage | include/bsomeip/wire/codec.hpp:317-332 | header, length and payload in place; a buffer without room for a header is refused |
| CodecRoundTrip.SignRoundTrip | include/bsomeip/wire/codec.hpp:77-100 | signed values survive the conversion to unsigned and back, and the other way round |
| CodecBytes.UintIsBigEndian | include/bsomeip/wire/codec.hpp:57-96 | unsigned numbers of 1, 2, 4 and 8 bytes are sent with the most significant byte first |
| CodecBytes.LeafBytes | include/bsomeip/wire/codec.hpp:57-125 | the bytes of every scalar by its type: a boolean is 0 or 1, a negative number its two's complement, a float its bit pattern |
| CodecBytes.StructBytes | include/bsomeip/wire/codec.hpp:178-184 | the encoding of member i stands right behind that of the members before it |
| CodecBytes.TruthIsNotZero | include/bsomeip/wire/codec.hpp:125-127 | every byte but 0 is read as true |
| CodecRoundTrip.DecodeEncoded | include/bsomeip/wire/codec.hpp:57-260 | wherever an encoded value of any schema stands in a buffer, it reads back |
| CodecRoundTrip.EncodeIsInjective | include/bsomeip/wire/codec.hpp:194-217 | different values have different bytes |
| CodecRoundTrip.EncodeDecoded | include/bsomeip/wire/codec.hpp:57-260 | any bytes decode to a typed value, which encodes to the same bytes exactly when its booleans were 0 or 1 |
| CodecRoundTrip.CodecInverts | include/bsomeip/wire/codec.hpp:266-315 | deserialize inverts serialize, whatever follows, except exactly when the buffer ends with a last member that has no bytes |
| CodecRoundTrip.MessageRoundTrip | include/bsomeip/wire/codec.hpp:317-339 | a serialized message is framed as one message exactly when it has at most 4 MiB and is not an empty one with the ids of a magic cookie, and its other header fields and its payload always read back |
| CodecRoundTrip.LeavesTile | include/bsomeip/wire/codec.hpp:178-192 | nested fields tile the bytes of a value without gap or overlap |
| CodecRoundTrip.LeavesHold | include/bsomeip/wire/codec.hpp:178-217 | wherever an encoded value stands, the place of each nested field holds the encoding of that field's own value |
| SubmissionRing.AcquireAnswers | include/bsomeip/io/uring_context.hpp:149-161 | get_sqe refuses exactly when the ring was full at the head it loaded |
| SubmissionRing.SlotIsFree | include/bsomeip/io/uring_context.hpp:149-161 | the slot handed out holds no unconsumed entry, although the head may be stale |
| SubmissionRing.StepKeeps | include/bsomeip/io/uring_context.hpp:149-184 | every step of application and kernel keeps head <= tail <= local tail <= head + entries and every unconsumed entry in its slot |
| SubmissionRing.FreshRunKeeps | include/bsomeip/io/uring_context.hpp:149-184 | over every interleaving and any number of wraps the kernel takes exactly the queued entries, each once, in order |
| SubmissionRing.PublishedOnly | include/bsomeip/io/uring_context.hpp:167-174 | what a submit counts as new does not depend on what the kernel has taken: published entries are not submitted again |
| SubmissionRing.EntryIsStranded | include/bsomeip/io/uring_context.hpp:167-174 | an entry that is published but not taken, for which a further submit finds nothing to do |
| CompletionRing.PostIsFree | include/bsomeip/io/uring_context.hpp:204-215 | the kernel's posts during a reap never hit a completion still to be seen |
| CompletionRing.SeesNext | include/bsomeip/io/uring_context.hpp:189-215 | what the application looks at is the next posted completion |
| CompletionRing.FreshRunKeeps | include/bsomeip/io/uring_context.hpp:189-215 | over every interleaving the application sees each completion exactly once, in order |
| Uring.UringContext.GetSqe | include/bsomeip/io/uring_context.hpp:149-161 | a cleared entry at the next free slot, or none exactly when full, while the kernel consumes |
| Uring.UringContext.Submit | include/bsomeip/io/uring_context.hpp:167-174 | publishes everything acquired and returns the kernel's answer for that number of entries, or 0 if there is nothing to submit |
| Uring.UringContext.SubmitAndWait | include/bsomeip/io/uring_context.hpp:177-184 | publishes everything acquired and returns the kernel's answer in any case |
| Uring.UringContext.ForEachCqe | include/bsomeip/io/uring_context.hpp:204-215 | delivers exactly the completions posted before it started, in order, while the kernel keeps posting |
| Uring.UringContext.PeekCqe | include/bsomeip/io/uring_context.hpp:189-194 | the next unseen completion, or none exactly when all have been seen |
| Uring.UringContext.SeenCqe | include/bsomeip/io/uring_context.hpp:197-200 | the head moves behind the completion that was peeked at |
| Routing.RoutingManager.OfferService | include/bsomeip/route/manager.hpp:74-88 | registry and notifications after a local offer |
| Routing.RoutingManager.StopOfferService | include/bsomeip/route/manager.hpp:91-96 | registry and notifications after a local withdrawal |
| Routing.RoutingManager.AddRemoteService | include/bsomeip/route/manager.hpp:99-104 | registry and notifications after a remote offer |
| Routing.RoutingManager.RemoveRemoteService | include/bsomeip/route/manager.hpp:107-112 | registry and notifications after a remote withdrawal |
| Routing.RoutingManager.NotifyAvailability | include/bsomeip/route/dispatcher.hpp:191-200 | every handler of the service is called once, in order of registration |
| Routing.RoutingManager.OnAvailability | include/bsomeip/route/dispatcher.hpp:148-151 | one more handler for the service |
| Routing.EveryHandlerIsCalled | include/bsomeip/route/dispatcher.hpp:191-200 | a notification adds one call for every handler of the service, in order, and changes nothing else |
| Routing.AvailabilityAlternates | include/bsomeip/route/manager.hpp:74-112 | for every interleaving of local and remote offers and withdrawals, what a handler hears about a service alternates, starts with the opposite of what was the case, and ends with registry membership |
| Routing.RegistryIsLatest | include/bsomeip/route/registry.hpp:60-82 | after every run the registry holds exactly the latest offer of each service that is not withdrawn, a local one with a TTL of 0xFFFFFF |
| App.PackKeyInjective | include/bsomeip/route/dispatcher.hpp:111-113 | different methods have different keys |
| App.Application.NextSessionId | include/bsomeip/api/application.hpp:225-229 | the next id, skipping 0 |
| App.Application.RegisterPending | include/bsomeip/api/application.hpp:188-194 | the callback waits in its slot, the table grows if needed, other slots stay |
| App.Application.RegisterMessageHandler | include/bsomeip/route/dispatcher.hpp:125-128 | the handler replaces any other for the same method |
| App.Application.UnregisterMessageHandler | include/bsomeip/route/dispatcher.hpp:131-134 | only the handler of the method goes |
| App.Application.Route | include/bsomeip/api/application.hpp:199-221 | routing a message, and the responses it leads to, as the specification chain says |
| App.BuildMessage | include/bsomeip/api/proxy.hpp:209-227 | the message built in a buffer and cut is header plus encoded payload |
| AppCalls.SessionsCycle | include/bsomeip/api/application.hpp:225-229 | session ids walk round the cycle 1 to 65535 from any counter |
| AppCalls.SessionsDistinct | include/bsomeip/api/application.hpp:225-229 | no id is 0, ids less than 65535 calls apart differ, and ids 65535 calls apart are equal |
| AppCalls.CallbacksFireOnce | include/bsomeip/api/application.hpp:188-217 | over every run, completions and waiting callbacks of a call never exceed its registrations |
| AppCalls.HandlerServes | include/bsomeip/route/dispatcher.hpp:125-174 | a registered handler serves its method, or all methods of its service without a handler of their own, and no other |
| AppCalls.AnswerAddressesCaller | include/bsomeip/api/application.hpp:68-80 | a response carries the request's service, method, client, session and interface |
| AppHandlers.HandlerIsCalled | include/bsomeip/route/dispatcher.hpp:155-176 | a message that no callback takes is handled exactly if it is complete, no Service Discovery message and a handler is found; a plain handler is called once, with the header and exactly the announced bytes of the payload |
| AppHandlers.ServedMethodAnswers | include/bsomeip/api/skeleton.hpp:41-68 | every field of the answer of a served method, for any message that reaches it, or the refusal |
| AppHandlers.ResponseCompletesCall | include/bsomeip/api/application.hpp:205-217 | a response, bit 7 of whose type is set, to a waiting callback clears it and completes the call with an error for any return code but 0, else with the value of the payload or as malformed |
| AppHandlers.HandlerHearsItsMessages | include/bsomeip/route/manager.hpp:45-71 | over every run of registrations, removals and messages, a plain handler has been called with exactly the messages that reached it, each once and in order |
| AppHandlers.RequestReads | include/bsomeip/api/proxy.hpp:209-227 | every header field of the message of a call, and its payload |
| AppCalls.RequestIsAnswered | include/bsomeip/api/skeleton.hpp:41-68 | a served request leads to the response that carries the handler's result, or to nothing if the last member of the request type has no bytes |
| AppCalls.AsyncCallCompletes | include/bsomeip/api/proxy.hpp:69-98 | an asynchronous call to a served method completes exactly once with the handler's result, or as malformed if the last member of the response type has no bytes; it waits for ever if that of the request type has none; no other callback is touched |
| AppCalls.UnservedCallWaits | include/bsomeip/route/manager.hpp:45-71 | without a handler nothing happens and the call stays pending |
| AppCalls.RoutingSettles | include/bsomeip/api/skeleton.hpp:41-68 | for every message: routing comes to an end exactly if its first round ends it, or a served method answers and the answer ends it: a waiting callback can read it, or nobody waits and it is too short to be taken for a request |
| AppCalls.RequestSettles | include/bsomeip/api/skeleton.hpp:41-68 | an ordinary request to a served method settles exactly when it is refused for such a type or its answer settles |
| AppCalls.EchoNeverSettles | include/bsomeip/api/skeleton.hpp:41-68 | a method that answers with its request, called by nobody who waits, never settles |

## Left out

- Sockets, system calls, the io_uring scheduler and the setup and moving of the ring mapping.
- The sender and receiver machinery around the modelled bodies: connecting, completion signatures, cancellation.
- Reflection itself and the meaning of floats: types are schema values, floats are bit patterns.
- Strings and byte vectors as members: the codec's container branch accepts them too, but their width depends on the value and an empty target reads back nothing; the schema knows fixed-size byte arrays only.
- App.Application.Route: asks that routing comes to an end within the given number of rounds, because otherwise the code does not terminate or reads beyond a payload; `AppCalls.RoutingSettles` says for every message when that is.
- TpAssembler.Assembler.Feed: asks that the fragments do not reach beyond the announced end, because the code writes them unchecked; segments that `segment_message` cannot produce may break this.
- TpTable.AnySegment: speaks of segments on which the code stays inside its buffer; beyond that it is about the specification only.
- TpTable.TableHoldsLatest: the same.
- Tp.SegmentMessage: asks for a segment size of at least 1, because the code does not terminate for 0.
- Codec.Serialize: asks for a buffer with enough room, because the code checks the size only after each write; its error result is therefore never reached.
- Codec.SerializeMessage: asks for the same once there is room for a header.
- Codec.Deserialize: asks that no member sticks out of the buffer, because the code does not check the end of a member before reading it.
- E2eProfile.Protect01: asks for CRC and counter offsets inside the payload, which the code uses unchecked.
- E2eProfile.Check01: asks for the same offsets.
- E2eProtector.E2eState.Protect: asks for the same offsets under profile 01.
- E2eProtector.E2eState.Check: asks for the same offsets under profile 01.
- Masking a ring index with a power of two minus one is written as the remainder by that power.
- The reap of the completion ring from within a callback, and what a submission does in the kernel.
- Overflow of the clock type in the discovery timers; time points are integers.
- SdDiscovery.Discovery.Tick: asks for a repetition maximum of at most 33, beyond which the code's shift is undefined.
- SdOptions.OptionsResolveOnTheWire: asks for options whose type matches their address family, as the constructors of the code make them; the reader takes others for something else or skips them.
- TpRun.RunIsExpected: asks that offsets fit 28 bits and lengths 32; `TpRun.ReassemblesExactly` shows that the code fails for all others.
- TpRun.FreshRunIsExpected: asks for the same.
- TpRun.FeedPart: asks for the same.
- TpRun.AnyOrderReassembles: asks for the same; all other transmissions are in `TpRun.ReassemblesExactly`.
- The framer's count of buffered bytes, which includes bytes already handed out.
- The buffer pool, eventgroup subscriptions, listing all instances of a service, endpoints of remote services: single steps that would only add easy members.
- The application's pairing of routing and discovery calls, the legacy response callbacks, one-way methods and notifications of a skeleton.
- Thread safety of the registry and the storage of handlers.
- Access policies, configuration, the compatibility layer and the wrappers in `comm`.
