# Verified model of the M1 system application layer

This project models the parts of the firmware that move and keep data, and proves what they promise. Everything is
Dafny; each component is one or two files.

| component | files |
|---|---|
| xTP link layer: error correction, CRC, frame decoder and encoder, retransmission | `XtpLfsr`, `XtpEcc`, `XtpCrc`, `XtpFrame`, `XtpLink`, `XtpFormat`, `XtpDamage`, `XtpPattern`, `XtpDriver`, `XtpArq`, `XtpArqDriver`, `XtpRetries`, `XtpNode` |
| nanopb encoder and decoder, and the remote shell messages built on them | `PbWire`, `PbVarint`, `PbMessage`, `PbDefaults`, `PbIterator`, `PbSize`, `PbLargest`, `PbUnknown`, `PbRoundTrip`, `PbTransparent`, `PbEvolution`, `PbRepeat`, `PbStorage`, `PbCondition`, `PbDecoded`, `PbEncoder`, `PbDecoder`, `Gosh`, `GoshWire` |
| message log in a 256-byte ring | `DmesgLog`, `Dmesg` |
| xCLI field serializer and response fragmenter | `XcliSerial`, `XcliFragments` |
| single-producer single-consumer ring buffer | `RingQueue`, `RingBuffer` |
| software clock and calendar | `Calendar`, `SoftClock` |
| shared types | `Common` |

Each component has the same shape. Functions say what the code computes on plain values; classes and methods follow the
program step by step, over fields, arrays and loops, and are proved equal to those functions; lemmas state what the
functions guarantee over all inputs and all runs, and say in numbers what is on the wire and in memory.

The xTP model is the default configuration of `xtp_config.h`: CRC-16 and ECC and ARQ on; segmentation, HMAC, addressing
and 16-bit lengths off. The wire level of nanopb follows "Base 128 Varints", "Signed Integers" and "Message Structure"
of the Protocol Buffers encoding.

## What the proofs found

- `xtp_config.h` says two or more corrupted bytes per frame are detected. No frame has that property: in every frame,
  with or without a payload, adding 0x89 to the lower ID byte and 0xA1 to the SEQ byte leaves the CRC as it was, and the
  frame is delivered under the wrong header (`XtpPattern.FrameHidesDoubleError`). The same pattern hides in two DATA
  bytes (`XtpPattern.DataHidesDoubleError`). Both checks are linear, so `XtpPattern.PatternRule` gives the outcome of any
  damage beyond the framing bytes from the error pattern alone.
- Error correction, which is asked once the CRC has failed, hides more. Two wrong check bytes over an intact payload can
  spoil it (`XtpPattern.CheckBytesRule` says exactly when), and so can a wrong DATA byte with a wrong locator byte
  (`XtpPattern.DataLocatorHit`). `xtp_ecc.h` promises detection for a block: counting its check bytes, that holds for the
  empty block only (`XtpEcc.DetectionRule`). Within the block alone it holds for at most two bytes
  (`XtpEcc.DataDetectionRule`); in every longer block 0x8F and 0x8E on neighbouring bytes are reported as corrected, with
  a third byte changed as well (`XtpEcc.HiddenDoubleError`). What does hold: two wrong bytes of a block never pass as
  intact and never come back as the original (`XtpEcc.DoubleErrorNotRestored`), and `XtpPattern.DataPairRule` says which
  of the three things happens to a frame with two wrong DATA bytes.
- `xtp_config.h` says one corrupted byte per frame is corrected. `XtpDamage.OneByteRule` says exactly which: every DATA
  byte, the two CRC bytes when there is a payload, and START1 within its high nibble. One wrong byte anywhere else loses
  the frame.
- On a CRC mismatch the decoder accepts the frame if error correction finds the payload intact. A frame with a changed ID
  or SEQ byte is therefore delivered whenever it has a payload. Without one it is rejected if a single byte changed, or
  two neighbouring ones (`XtpLink.HeaderNoticed`), and in general exactly when the CRC sees the change
  (`XtpPattern.HeaderRule`). One wrong check byte, on the other hand, drops a frame whose payload is intact
  (`XtpLink.CheckByteHit`).
- Acknowledgements carry a sequence number that is never compared. A successful send can be trusted if and only if
  nothing harmful of an earlier call is still on the link; `XtpArq.TrustCondition` says exactly what is harmful, and
  `XtpArq.StaleAck`, `XtpArq.StaleData` and `XtpArq.StaleReset` give the three ways it goes wrong.
- The 32-bit varint reader means to take 32-bit numbers and sign extensions of negative ones. It also takes some other
  64-bit numbers, as it checks each group of seven bits by itself and never looks at bits 32 to 34: it reads
  0xFFFFFFF880000000 as 0x80000000 (`PbWire.OtherNumberTaken`; `PbWire.Varint32Condition` is the exact condition, and
  `PbVarint.Dec32Rule` the one for varints of any length, padded ones included).
- A nanopb string that fills its array without a terminator encodes in full but does not decode
  (`PbRoundTrip.StringDecodes`). A message survives encoding and decoding if and only if all its strings are terminated
  and all its counts are within their arrays, at every depth (`PbCondition.SurvivesExactly`).
- Whatever decodes is sound, at every depth: strings terminated, counts within their arrays, numbers within their
  storage. It therefore encodes again and decodes to itself (`PbDecoded.DecodedSound`), bools that are neither 0 nor 1
  included (`PbDecoded.BoolSurvives`).
- What a bool can break is the size. It is stored in a byte and encoded like a signed number, so a negative one takes ten
  bytes where the generated header counts one. `PbLargest.HeaderSizeHolds` and `PbLargest.HeaderSizeTravels` say for which
  descriptors the header's size is right. For responses it is too small by nine bytes in general (`Gosh.LongResponse`),
  but large enough for every response that can travel, as terminated strings leave more room than that
  (`Gosh.ResponseSizes`).
- The guard against endless eviction in the message log fires on a healthy log
  (`DmesgLog.GuardFiresOnHealthyLog`): twenty one-character messages, one of 128 characters, then another of 128.
  `Dmesg.Log.WriteEntry` says exactly when.
- The software clock follows the seconds of any year up to 2099; from a later date, which setting the epoch allows, it
  falls back to 2000 at the next New Year (`Calendar.TickedEpoch`).

## Model

| member | source | states |
|---|---|---|
| XtpLfsr.StepLinear | src/dev/M1_SysApp/xtp/xtp_ecc.c:18-21 | a shift step distributes over exclusive or |
| XtpLfsr.Period | src/dev/M1_SysApp/xtp/xtp_ecc.c:4-5 | 255 shift steps return every byte to itself |
| XtpLfsr.ExactPeriod | src/dev/M1_SysApp/xtp/xtp_ecc.c:4-5 | no smaller positive number of steps does, for any nonzero byte |
| XtpLfsr.OrbitCovers | src/dev/M1_SysApp/xtp/xtp_ecc.c:53-67 | any nonzero byte is reached from any other by one and only one step count below 255 |
| XtpEcc.FlipShifts | src/dev/M1_SysApp/xtp/xtp_ecc.c:23-33 | how one changed byte moves the two check bytes, for every position and pattern |
| XtpEcc.RepairCondition | src/dev/M1_SysApp/xtp/xtp_ecc.c:53-56 | changing byte k by e yields a code word if and only if e is the parity syndrome and, shifted len-k times, the locator syndrome |
| XtpEcc.RepairUnique | src/dev/M1_SysApp/xtp/xtp_ecc.c:53-74 | a block of at most 255 bytes has at most one code word one byte away |
| XtpEcc.SingleErrorCorrected | src/dev/M1_SysApp/xtp/xtp_ecc.h:2-4 | any one wrong byte in a block of 1..255 bytes is reported corrected and restored |
| XtpEcc.SearchAlwaysStops | src/dev/M1_SysApp/xtp/xtp_ecc.c:57-67 | for any two nonzero syndromes the search matches within 254 steps, so the give-up return is dead |
| XtpEcc.CorrectionRule | src/dev/M1_SysApp/xtp/xtp_ecc.c:57-74 | with both check bytes wrong, correction happens exactly when the one matching step count points into the block |
| XtpEcc.NoRotationNoRepair | src/dev/M1_SysApp/xtp/xtp_ecc.c:63-66 | if no step count matched there would be no repair either, so giving up would be right |
| XtpEcc.DoubleErrorNotRestored | src/dev/M1_SysApp/xtp/xtp_ecc.h:5 | two wrong bytes never pass as intact and never come back as the original block |
| XtpEcc.FullBlockHidesDoubleError | src/dev/M1_SysApp/xtp/xtp_ecc.h:5 | in a full block two wrong bytes are reported as corrected if and only if both syndromes are nonzero |
| XtpEcc.DoubleErrorRule | src/dev/M1_SysApp/xtp/xtp_ecc.h:5 | two wrong bytes, for every length: a parity failure when one syndrome vanishes, otherwise corrected or refused exactly as some single error in the block would have the same syndromes or none would |
| XtpEcc.MistakenFix | src/dev/M1_SysApp/xtp/xtp_ecc.c:68-74 | what comes out when there is such a single error: a third block, with its byte changed too |
| XtpEcc.HiddenDoubleError | src/dev/M1_SysApp/xtp/xtp_ecc.h:5 | two wrong bytes reported as corrected, at every place in every block of three bytes or more |
| XtpEcc.OutcomeRule | src/dev/M1_SysApp/xtp/xtp_ecc.c:35-75 | the result code for any nonempty block against any check bytes, from the two syndromes |
| XtpEcc.CheckBytesWrong | src/dev/M1_SysApp/xtp/xtp_ecc.c:47-75 | two wrong check bytes over an intact block: refused, or the block spoilt at the one place that fits them |
| XtpEcc.DataDetectionRule | src/dev/M1_SysApp/xtp/xtp_ecc.h:5 | two wrong bytes of the block itself are always detected if and only if it has at most two bytes |
| XtpEcc.DetectionRule | src/dev/M1_SysApp/xtp/xtp_ecc.h:5 | two wrong bytes of the block and its check bytes are always detected if and only if the block is empty |
| XtpEcc.Encode | src/dev/M1_SysApp/xtp/xtp_ecc.c:23-33 | the loop's check bytes make the block a code word |
| XtpEcc.Decode | src/dev/M1_SysApp/xtp/xtp_ecc.c:35-75 | the search and in-place repair give the outcome defined without a search: intact, the unique code word one byte away, or failure with the block untouched |
| XtpCrc.FastForm | src/dev/M1_SysApp/xtp/xtp_crc.c:45-63 | the table step equals the bit-serial step for every register and byte |
| XtpCrc.TableIsShifts | src/dev/M1_SysApp/xtp/xtp_crc_table.c:1-139 | each of the 256 table entries is its index shifted eight times by the polynomial |
| XtpCrc.BitSerialByte | src/dev/M1_SysApp/xtp/xtp_crc.c:23-31 | the bit-serial loop computes the table step |
| XtpCrc.StateInjective | src/dev/M1_SysApp/xtp/xtp_crc.c:45-63 | one byte keeps different register states different |
| XtpCrc.PairInjective | src/dev/M1_SysApp/xtp/xtp_crc.c:45-63 | two bytes are determined by the register they lead to |
| XtpCrc.CrcConcat | src/dev/M1_SysApp/xtp/xtp_crc.c:45-63 | the CRC of a concatenation runs on from the CRC of its first part |
| XtpCrc.BurstDetected | src/dev/M1_SysApp/xtp/xtp_crc.c:45-77 | messages of equal length that differ only within two consecutive bytes have different CRCs |
| XtpCrc.UpdateLinear | src/dev/M1_SysApp/xtp/xtp_crc.c:45-63 | a step is linear in register and byte together |
| XtpCrc.BurstMissed | src/dev/M1_SysApp/xtp/xtp_crc.c:45-77 | in every message and at every place a change within three consecutive bytes is missed, so two is the widest |
| XtpFrame.FeedConcat | src/dev/M1_SysApp/xtp/xtp.c:235-546 | reading a concatenation is reading its parts in turn, for state and outputs |
| XtpFrame.LongIsFrame | src/dev/M1_SysApp/xtp/xtp.c:610-700 | what the encoder emits for a 16-bit length is the frame as long as that length fits a byte |
| XtpLink.WireParses | src/dev/M1_SysApp/xtp/xtp.c:235-546 | any complete frame, whatever its fields, leaves an idle decoder idle and produces exactly one output |
| XtpLink.FrameRoundTrip | src/dev/M1_SysApp/xtp/xtp.c:552-757 | a frame as encoded is delivered once, with its id, SEQ byte and payload |
| XtpLink.NoiseIgnored | src/dev/M1_SysApp/xtp/xtp.c:247-253 | bytes outside 0xC0..0xCF leave an idle decoder as it is, with no output |
| XtpLink.StreamRoundTrip | src/dev/M1_SysApp/xtp/xtp.c:235-546 | a stream of encoded frames with noise between them yields exactly those frames, in order, and nothing else |
| XtpLink.DataByteCorrected | src/dev/M1_SysApp/xtp/xtp.c:426-457 | any one DATA byte replaced by any other value still delivers the original frame |
| XtpLink.HeaderHit | src/dev/M1_SysApp/xtp/xtp.c:441-455 | under any changed ID and SEQ the frame is delivered as changed, except when the CRC differs and the payload is empty |
| XtpLink.HeaderNoticed | src/dev/M1_SysApp/xtp/xtp.c:436-441 | a change in one ID or SEQ byte, or in two neighbouring ones, alters the CRC |
| XtpLink.CrcFieldHit | src/dev/M1_SysApp/xtp/xtp.c:436-455 | a wrong CRC field alone drops the frame exactly when the payload is empty |
| XtpLink.CheckByteHit | src/dev/M1_SysApp/xtp/xtp.c:441-455 | one wrong check byte drops the frame even though the payload is intact |
| XtpLink.StepProgress | src/dev/M1_SysApp/xtp/xtp.c:235-546 | every byte keeps the decoder invariant and, outside START1, brings START1 nearer |
| XtpLink.Resynchronises | src/dev/M1_SysApp/xtp/xtp.c:235-546 | from any reachable state the decoder is back in START1 within 267 bytes of anything |
| XtpFormat.LongLayout | src/dev/M1_SysApp/xtp/xtp.c:610-757 | what the encoder emits for any data, place by place and in numbers: 0xC0 0xDE, 0xA2, ID low byte first, SEQ, the length modulo 256, the data, the check bytes of that many bytes, the CRC of all from TYPEMETHOD on, low byte first, 0xDA 0xED |
| XtpFormat.FrameLayout | src/dev/M1_SysApp/xtp/xtp_config.h:13-35 | a frame of up to 255 bytes is laid out so, and its check bytes cover all of its payload |
| XtpFormat.BothBytes | src/dev/M1_SysApp/xtp/xtp.c:637-639 | the two bytes of an ID or CRC, put together again, are it |
| XtpFormat.NibbleRange | src/dev/M1_SysApp/xtp/xtp.c:247-253 | START1 is exactly 0xC0..0xCF |
| XtpFormat.CheckBytesOfOne | src/dev/M1_SysApp/xtp/xtp_ecc.c:18-33 | the check bytes of a single byte: itself, and itself shifted once with 0x8E folded in |
| XtpFormat.CheckValue | src/dev/M1_SysApp/xtp/xtp_config.h:105-109 | the CRC of "123456789" is 0x31C3, as published for CRC-16/XMODEM |
| XtpFormat.ReturnRule | src/dev/M1_SysApp/xtp/xtp.c:235-546 | what every byte returns in every state: in progress exactly in the middle of a frame, and otherwise waiting, complete or the error of the field it came in |
| XtpFormat.MendedFlag | src/dev/M1_SysApp/xtp/xtp.c:443-457 | after any delivered frame the flag says whether error correction changed the payload |
| XtpDamage.DeliveryTakesBytes | src/dev/M1_SysApp/xtp/xtp.c:235-546 | from any reachable state a frame is delivered only after all its 13 + n bytes have been taken |
| XtpDamage.Start1Hit | src/dev/M1_SysApp/xtp/xtp.c:247-253 | a START1 byte outside 0xC0..0xCF is passed over as noise, and the frame is not delivered |
| XtpDamage.Start2Hit | src/dev/M1_SysApp/xtp/xtp.c:256-263 | a wrong START2 byte sends the decoder back to idle before the rest, from which the frame cannot come |
| XtpDamage.TypeMethodHit | src/dev/M1_SysApp/xtp/xtp.c:266-275 | a wrong TYPEMETHOD byte is reported, and the frame cannot come from the rest |
| XtpDamage.LengthHit | src/dev/M1_SysApp/xtp/xtp.c:367-374 | under a wrong LEN byte, smaller or larger, the frame is not delivered |
| XtpDamage.StopHit | src/dev/M1_SysApp/xtp/xtp.c:528-539 | a wrong STOP byte, first or second, gives one error and no frame |
| XtpDamage.OneByteRule | src/dev/M1_SysApp/xtp/xtp_config.h:124 | one byte of a frame replaced by any other value: the frame is delivered if and only if the byte is DATA, or CRC with a payload, or START1 within its high nibble |
| XtpDamage.NeighboursHit | src/dev/M1_SysApp/xtp/xtp.c:436-455 | for two neighbouring DATA bytes, which of the two, and which payload |
| XtpDamage.WrongPayloadDelivered | src/dev/M1_SysApp/xtp/xtp.c:436-455 | every frame of three payload bytes or more can be delivered with a wrong payload |
| XtpPattern.OutcomeShifts | src/dev/M1_SysApp/xtp/xtp_ecc.c:35-75 | decoding a damaged block is decoding its error pattern, and what is left of the pattern is what stays wrong |
| XtpPattern.DamagedBytes | src/dev/M1_SysApp/xtp/xtp.c:552-757 | adding an error pattern to a frame's fields is adding it to its bytes |
| XtpPattern.PatternRule | src/dev/M1_SysApp/xtp/xtp.c:436-457 | any frame under any error pattern beyond the framing bytes: delivered exactly when the pattern is accepted by itself, with what is left of it added |
| XtpPattern.HeaderRule | src/dev/M1_SysApp/xtp/xtp.c:436-455 | any change of ID and SEQ: lost exactly when there is no payload and the change is visible to the CRC |
| XtpPattern.FrameHidesDoubleError | src/dev/M1_SysApp/xtp/xtp_config.h:125 | every frame has two bytes whose change is not detected: it is delivered under a wrong ID and SEQ |
| XtpPattern.CheckBytesRule | src/dev/M1_SysApp/xtp/xtp_config.h:125 | both check bytes wrong: the frame is lost if and only if no place in the payload fits them, and otherwise delivered with the payload spoilt there |
| XtpPattern.DataPairRule | src/dev/M1_SysApp/xtp/xtp_config.h:125 | any two wrong DATA bytes: delivered with both when the CRC misses them, with a third one when they look like one error, and otherwise lost |
| XtpPattern.DataHidesDoubleError | src/dev/M1_SysApp/xtp/xtp_config.h:125 | in every payload of three bytes or more two wrong bytes are delivered without error correction being asked |
| XtpPattern.DataCheckRule | src/dev/M1_SysApp/xtp/xtp_ecc.c:47-75 | one wrong DATA byte under check bytes wrong by any amounts: the result code |
| XtpPattern.DataLocatorHit | src/dev/M1_SysApp/xtp/xtp_config.h:125 | one wrong DATA byte and a wrong locator byte that deliver a payload that was never sent |
| XtpDriver.Decoder.constructor | src/dev/M1_SysApp/xtp/xtp.c:178-201 | a new instance is an idle decoder that last heard a byte now |
| XtpDriver.Decoder.Reset | src/dev/M1_SysApp/xtp/xtp.c:203-230 | back to the idle decoder, keeping only the time of the last byte |
| XtpDriver.Decoder.ReadSync | src/dev/M1_SysApp/xtp/xtp.c:247-275 | the START1, START2 and TYPEMETHOD steps of the grammar |
| XtpDriver.Decoder.ReadHeader | src/dev/M1_SysApp/xtp/xtp.c:299-318 | the ID and SEQ steps; the running CRC stays the CRC of all bytes since TYPEMETHOD |
| XtpDriver.Decoder.ReadLength | src/dev/M1_SysApp/xtp/xtp.c:367-374 | the LEN step, and with an empty payload straight on to the check bytes |
| XtpDriver.Decoder.ReadData | src/dev/M1_SysApp/xtp/xtp.c:386-399 | a payload byte is stored and counted; the overflow return is unreachable |
| XtpDriver.Decoder.ReadCheck | src/dev/M1_SysApp/xtp/xtp.c:403-415 | both check bytes enter the running CRC |
| XtpDriver.Decoder.ReadCrcLow | src/dev/M1_SysApp/xtp/xtp.c:420-424 | the first CRC byte does not |
| XtpDriver.Decoder.ReadVerdict | src/dev/M1_SysApp/xtp/xtp.c:426-457 | accepts on a CRC match or on successful error correction, otherwise resets |
| XtpDriver.Decoder.ReadStop | src/dev/M1_SysApp/xtp/xtp.c:528-539 | the frame counts only after both STOP bytes; anything else resets |
| XtpDriver.Decoder.Read | src/dev/M1_SysApp/xtp/xtp.c:235-546 | the updated fields are exactly the grammar's next state, and the return code its output |
| XtpDriver.Decoder.Poll | src/dev/M1_SysApp/xtp/xtp.c:780-869 | fields, tick of the last byte and return code after a poll are those of the timed receiver, of which `XtpNode.EmptyPoll` and `XtpNode.PromptPolls` speak in ticks |
| XtpDriver.SendHeader | src/dev/M1_SysApp/xtp/xtp.c:622-667 | emits START and header for any 16-bit length and leaves the CRC of the covered bytes |
| XtpDriver.SendBody | src/dev/M1_SysApp/xtp/xtp.c:622-689 | everything up to the check bytes; with at most 255 bytes these make the payload a code word |
| XtpDriver.SendEx | src/dev/M1_SysApp/xtp/xtp.c:552-757 | emits exactly the encoded frame when the length fits a byte, and for any 16-bit length the bytes `XtpFormat.LongLayout` describes; refuses exactly when the buffer has less room than the length and 13 bytes, counted in 16 bits |
| XtpArq.SendRun | src/dev/M1_SysApp/xtp/xtp_arq.c:113-166 | every call ends, whatever the polls bring, once the clock passes the timeout; `XtpRetries.SendRule` says how |
| XtpArq.BoundedDelivery | src/dev/M1_SysApp/xtp/xtp_arq.c:113-166 | over lossy, reordering links that start empty, and whatever the peer sends meanwhile except acknowledgements and resets: at most 4 transmissions and 4 deliveries, all of this payload, and at least one when the call succeeds |
| XtpArq.StaleAck | src/dev/M1_SysApp/xtp/xtp_arq.c:178-186 | an acknowledgement left over from an earlier call lets the call succeed with nothing delivered |
| XtpArq.StaleData | src/dev/M1_SysApp/xtp/xtp_arq.c:221-234 | so does another frame still on its way to the peer |
| XtpArq.StaleReset | src/dev/M1_SysApp/xtp/xtp_arq.c:199-208 | a reset between attempts lets the call succeed with an empty frame delivered instead |
| XtpArq.TrustCondition | src/dev/M1_SysApp/xtp/xtp_arq.c:78-235 | success means delivery in every run if and only if none of those is on the link at the call |
| XtpArq.RunFollowsSend | src/dev/M1_SysApp/xtp/xtp_arq.c:113-166 | in every run of the system the sender ends as the blocking send does on the same polls |
| XtpArqDriver.Endpoint.SendControl | src/dev/M1_SysApp/xtp/xtp_arq.c:20-32 | emits a control frame with the masked sequence number as payload |
| XtpArqDriver.Endpoint.Acknowledge | src/dev/M1_SysApp/xtp/xtp_arq.c:221-234 | a data frame is answered with exactly its acknowledgement |
| XtpArqDriver.Endpoint.TakeFrame | src/dev/M1_SysApp/xtp/xtp_arq.c:169-235 | control frames are consumed, any other is acknowledged at once and passed up |
| XtpArqDriver.Endpoint.Await | src/dev/M1_SysApp/xtp/xtp_arq.c:130-157 | the inner loop is the waiting part of the specified call, replies included |
| XtpArqDriver.Endpoint.Pend | src/dev/M1_SysApp/xtp/xtp_arq.c:92-100 | the pending frame becomes the caller's message under the current sequence number |
| XtpArqDriver.Endpoint.DoSend | src/dev/M1_SysApp/xtp/xtp_arq.c:35-46 | emits the pending frame |
| XtpArqDriver.Endpoint.Transfer | src/dev/M1_SysApp/xtp/xtp_arq.c:78-167 | result, final state and emitted frames are those of the specified call, whose attempts `XtpRetries.SendRule` counts; a message of more than 255 bytes changes nothing |
| XtpRetries.SendRule | src/dev/M1_SysApp/xtp/xtp_arq.c:113-166 | a call succeeds if and only if an acknowledgement ends one of its first four waits, even one that comes with the deadline, and has then transmitted once more than waits failed; otherwise it has transmitted four times, each wait refused or overdue; without a reset from the peer each transmission is the pending frame and the sequence number moves on by one modulo 128 |
| XtpRetries.FailsAfterFour | src/dev/M1_SysApp/xtp/xtp_config.h:235-237 | in every run of the system, whatever is on the link and whatever the peer does, a failed call has transmitted four times, and no call more often |
| XtpRetries.NextNumber | src/dev/M1_SysApp/xtp/xtp_arq.c:138 | the next sequence number is one more, modulo 128 |
| XtpRetries.EndpointRemembers | src/dev/M1_SysApp/xtp/xtp_arq.c:169-235 | after any frames, flags, numbers and pending frame are as the frames since the last reset leave them; a reset clears everything before |
| XtpNode.Instance.Route | src/dev/M1_SysApp/xtp/xtp.c:801-826 | a complete frame goes through the retransmission layer: consumed, or answered and passed up |
| XtpNode.Instance.Process | src/dev/M1_SysApp/xtp/xtp.c:776-876 | one poll of the receive path: decoder, retransmission layer and timeout, with return code, tick of the last byte, reply bytes and the frame passed up, all as specified for the poll |
| XtpNode.FedIsHandled | src/dev/M1_SysApp/xtp/xtp.c:776-876 | the layers compose: bytes fed one at a time through both are all decoded first and then handled |
| XtpNode.StreamServed | src/dev/M1_SysApp/xtp/xtp.c:776-876 | of a stream of frames with noise between them, exactly the application frames go up, in order, and exactly these are acknowledged, in order |
| XtpNode.AckNumbers | src/dev/M1_SysApp/xtp/xtp_arq.c:221-228 | each of these acknowledgements is a control frame 0xFFFE whose one payload byte is the sequence number of its frame |
| XtpNode.EmptyPoll | src/dev/M1_SysApp/xtp/xtp.c:858-869 | a poll without a byte does something exactly in the middle of a frame and more than 300 ticks, modulo 2^32, after the last byte: it reports a timeout, drops the frame and leaves the decoder idle |
| XtpNode.PromptPolls | src/dev/M1_SysApp/xtp/xtp.c:776-876 | for any list of polls with no poll that late in the middle of a frame: node, frames passed up and replies are those of the bytes alone, however the polls are spread |
| XtpNode.SilenceRecovers | src/dev/M1_SysApp/xtp/xtp.c:858-869 | whatever an interrupted transmission left behind, once a poll finds the line silent for more than 300 ticks, every frame that then arrives in time is served |
| XtpNode.AcksEnd | src/dev/M1_SysApp/xtp/xtp_arq.c:178-186 | the acknowledgements, read by the sender, are consumed there: none goes up, none is answered, and the sender is acknowledged if there was any |
| PbWire.Varint64RoundTrip | src/dev/M1_SysApp/nanopb/pb_decode.c:250-271 | every 64-bit value is read back, and what follows is left alone |
| PbWire.Varint32RoundTrip | src/dev/M1_SysApp/nanopb/pb_decode.c:182-242 | every 32-bit value is |
| PbWire.Varint32Condition | src/dev/M1_SysApp/nanopb/pb_decode.c:182-242 | which 64-bit numbers the 32-bit reader takes and as what: exactly those of 32 bits, and those with bit 31 set whose groups from bit 35 up are each all zeros or all ones with bit 63 set, as their low 32 bits |
| PbWire.SignExtensionTaken | src/dev/M1_SysApp/nanopb/pb_decode.c:206-222 | every sign extension of a negative 32-bit number is read as its low 32 bits |
| PbWire.OtherNumberTaken | src/dev/M1_SysApp/nanopb/pb_decode.c:206-222 | a 64-bit number that is neither 32 bits long nor a sign extension is taken too |
| PbVarint.Dec32Rule | src/dev/M1_SysApp/nanopb/pb_decode.c:182-242 | every varint of any length, padded ones included: taken exactly when its fifth byte fits as the last, or every byte from the sixth on is padding, and read as the low 32 bits of what it spells |
| PbVarint.Dec32Unfinished | src/dev/M1_SysApp/nanopb/pb_decode.c:182-242 | without a byte below 128 nothing is read |
| PbVarint.WriterSpells | src/dev/M1_SysApp/nanopb/pb_encode.c:538-558 | the writer's bytes are one varint, low groups of seven bits first, and spell the number |
| PbVarint.WriterShortest | src/dev/M1_SysApp/nanopb/pb_encode.c:538-558 | no varint that spells the number is shorter, and only the writer's has no needless last group |
| PbVarint.Dec64Rule | src/dev/M1_SysApp/nanopb/pb_decode.c:250-271 | the 64-bit reader takes every varint of up to ten bytes, padded ones included, as the low 64 bits of what it spells, and no longer one |
| PbVarint.Dec64Unfinished | src/dev/M1_SysApp/nanopb/pb_decode.c:250-271 | without a byte below 128 it reads nothing |
| PbWire.TagRoundTrip | src/dev/M1_SysApp/nanopb/pb_decode.c:293-314 | field number and wire type are read back |
| PbWire.SkipVarintEncoded | src/dev/M1_SysApp/nanopb/pb_decode.c:273-282 | skipping an encoded varint consumes exactly it |
| PbWire.SkipFieldStable | src/dev/M1_SysApp/nanopb/pb_decode.c:316-326 | a field that can be skipped is skipped alike whatever follows it |
| PbWire.DecTagStable | src/dev/M1_SysApp/nanopb/pb_decode.c:293-314 | and a tag is read alike |
| PbUnknown.TagRule | src/dev/M1_SysApp/nanopb/pb_decode.c:293-314 | any varint as a tag: its low three bits are the wire type, the others the field number; zero ends the message, an overlong one is an error |
| PbUnknown.TagUnfinished | src/dev/M1_SysApp/nanopb/pb_decode.c:293-314 | a tag that breaks off is an error |
| PbUnknown.SkipTakes | src/dev/M1_SysApp/nanopb/pb_decode.c:273-326 | skipping by wire type 0, 1, 2 or 5 passes over exactly one varint, eight bytes, a length and as many bytes, or four bytes, whatever follows |
| PbUnknown.SkipGives | src/dev/M1_SysApp/nanopb/pb_decode.c:273-326 | and whatever was skipped was that; no other wire type is |
| PbIterator.FieldIter.Next | src/dev/M1_SysApp/nanopb/pb_common.c:20-76 | the next entry, wrapping at the end; the required index counts the required entries before it |
| PbIterator.FieldIter.Seek | src/dev/M1_SysApp/nanopb/pb_common.c:78-97 | finds the entry with the tag from anywhere, or ends where it began |
| PbSize.MsgBound | src/dev/M1_SysApp/rgosh/gosh.pb.h:181-192 | any message that encodes stays within the size computed from its descriptor, one oneof member counted: with ten bytes for a bool always, with one when none is negative, and with less for terminated strings |
| PbLargest.MsgExact | src/dev/M1_SysApp/rgosh/gosh.pb.h:181-192 | and some message of every descriptor is exactly that long |
| PbLargest.HeaderSizeHolds | src/dev/M1_SysApp/rgosh/gosh.pb.h:181-192 | the header's size holds for all values in storage if and only if ten bytes for a bool make no difference |
| PbLargest.HeaderSizeTravels | src/dev/M1_SysApp/rgosh/gosh.pb.h:181-192 | it holds for all that can travel if and only if terminators make up for the bools |
| PbRoundTrip.IntRoundTrip | src/dev/M1_SysApp/nanopb/pb_decode.c:1239-1298 | every number in range of its field survives, negative 32-bit ones sign-extended to 64 bits included |
| PbRoundTrip.StringDecodes | src/dev/M1_SysApp/nanopb/pb_decode.c:1378-1411 | an encoded string decodes if and only if its storage holds a terminator |
| PbRoundTrip.SeenAll | src/dev/M1_SysApp/nanopb/pb_decode.c:955-1001 | the word-wise test passes once every required field has been seen |
| PbRoundTrip.RequiredCheck | src/dev/M1_SysApp/nanopb/pb_decode.c:955-1001 | the word-wise test passes if and only if every required field, up to the sixty-fourth, has been seen |
| PbRoundTrip.RequiredMissing | src/dev/M1_SysApp/nanopb/pb_decode.c:894-1004 | input without any known field decodes if and only if nothing is required |
| PbUnknown.JunkSkipped | src/dev/M1_SysApp/nanopb/pb_decode.c:917-948 | fields with tags outside the descriptor, as the decoder parses them, change neither message nor loop state |
| PbUnknown.UnknownExactly | src/dev/M1_SysApp/nanopb/pb_decode.c:917-948 | such a run is exactly a run of complete fields under other tags, said by varints, lengths and numerals alone |
| PbUnknown.UnknownSkipped | src/dev/M1_SysApp/nanopb/pb_decode.c:917-948 | whatever fields a newer writer emits, of wire type 0, 1, 2 or 5 and with any contents, change neither message nor loop state |
| PbUnknown.NumberZero | src/dev/M1_SysApp/nanopb/pb_common.c:78-97 | field number 0: refused under an empty descriptor, skipped under any other |
| PbRoundTrip.RoundTrip | src/dev/M1_SysApp/nanopb/pb_decode.c:894-1018 | decoding an encoded message into any storage yields it again, up to bytes it does not carry, and consumes exactly its bytes |
| PbRoundTrip.RoundTripAmidUnknown | src/dev/M1_SysApp/nanopb/pb_decode.c:905-948 | so it does with unknown fields before every entry and at the end |
| PbTransparent.FieldsThen | src/dev/M1_SysApp/nanopb/pb_decode.c:905-952 | a run of complete fields, of whatever origin, leaves the loop in a state that does not depend on what follows |
| PbTransparent.UnknownTransparent | src/dev/M1_SysApp/nanopb/pb_decode.c:905-948 | in any input, unknown fields between complete fields, between two entries of an array included, change nothing about the result |
| PbTransparent.UnknownTransparentInside | src/dev/M1_SysApp/nanopb/pb_decode.c:1413-1435 | nor do they inside a nested message |
| PbTransparent.StrewnSame | src/dev/M1_SysApp/nanopb/pb_decode.c:905-948 | encoded fields in any order, decodable or not: unknown fields strewn between them change nothing |
| PbTransparent.RoundTripStrewn | src/dev/M1_SysApp/nanopb/pb_decode.c:905-948 | an encoded message with unknown fields before every field it carries, between array entries included, decodes to itself |
| PbEvolution.WrittenAs | src/dev/M1_SysApp/nanopb/pb_encode.c:605-636 | every item is written as one complete field under its number: numbers as varints of wire type 0, texts up to their terminator and nested messages as length and bytes of wire type 2 |
| PbEvolution.EncodingIs | src/dev/M1_SysApp/nanopb/pb_encode.c:485-507 | the encoding of any message is byte for byte the run of the fields it carries, in the order of the descriptor |
| PbEvolution.StrangerSkips | src/dev/M1_SysApp/nanopb/pb_decode.c:917-948 | a decoder whose descriptor lacks the tag steps over exactly what the encoder wrote for an item |
| PbEvolution.NewerWriter | src/dev/M1_SysApp/nanopb/pb_decode.c:905-948 | a message of a newer version decodes under any part of its descriptor to that part of the message |
| PbEvolution.OlderWriter | src/dev/M1_SysApp/nanopb/pb_decode.c:905-1004 | a message of an older version decodes under a descriptor with more entries, none of them required, to the message with those absent |
| PbRepeat.ZeroEnds | src/dev/M1_SysApp/nanopb/pb_decode.c:303-309 | an encoded message, a zero byte and anything: the message, with all behind the zero left on the stream |
| PbRepeat.NestedZero | src/dev/M1_SysApp/nanopb/pb_decode.c:376-389 | a zero tag ends a nested message too, and what it leaves unread is passed over |
| PbRepeat.ArrayFull | src/dev/M1_SysApp/nanopb/pb_decode.c:441-451 | one more entry for a full array is refused, whatever follows |
| PbRepeat.LastNumberWins | src/dev/M1_SysApp/nanopb/pb_decode.c:395-467 | of a number that comes twice the second one stays, and nothing else is changed by the first |
| PbRepeat.LastMemberWins | src/dev/M1_SysApp/nanopb/pb_decode.c:453-462 | of two members of a oneof the second one is selected and nothing is left of the first |
| PbRepeat.NestedMerges | src/dev/M1_SysApp/nanopb/pb_decode.c:1413-1435 | a nested message that comes in two parts is read as the two put together, where nothing is required |
| PbRepeat.StartIrrelevant | src/dev/M1_SysApp/nanopb/pb_common.c:78-97 | what is read does not depend on where the iterator stands or which fields were seen before |
| PbRepeat.RequiredNeeded | src/dev/M1_SysApp/nanopb/pb_decode.c:955-1001 | fields in any order decode into nothing when any of the first 64 required ones is not among them |
| PbRepeat.TextEnds | src/dev/M1_SysApp/nanopb/pb_encode.c:790-814 | the text a string carries is what stands before its first zero byte, or all of its storage |
| PbRepeat.TextStored | src/dev/M1_SysApp/nanopb/pb_decode.c:1378-1411 | any text into any storage: taken exactly when it leaves room for a terminator, and byte by byte what the storage then holds |
| PbRepeat.NumberTaken | src/dev/M1_SysApp/nanopb/pb_decode.c:1239-1298 | which 64-bit numbers each kind of field takes and as what, in numerals |
| PbRepeat.NothingDecoded | src/dev/M1_SysApp/nanopb/pb_decode.c:805-888 | no bytes decode exactly when nothing is required, and leave numbers zero, texts blank, flags and counts cleared and no member selected, at every depth |
| PbStorage.StorageForgotten | src/dev/M1_SysApp/nanopb/pb_decode.c:1006-1018 | any bytes decode alike into any two pieces of storage: both or neither, the same bytes left, and messages that read and encode alike |
| PbCondition.SurvivesExactly | src/dev/M1_SysApp/nanopb/pb_decode.c:894-1018 | a message with numbers in range encodes and decodes if and only if its strings are terminated and its counts within their arrays, at every depth |
| PbCondition.BadFields | src/dev/M1_SysApp/nanopb/pb_decode.c:905-952 | an encoding with an entry that cannot travel does not decode |
| PbDecoded.DecodedSound | src/dev/M1_SysApp/nanopb/pb_decode.c:894-1018 | whatever decodes has its strings terminated, its counts within their arrays and its numbers within their storage, at every depth; it encodes again, and decodes to itself |
| PbDecoded.BoolSurvives | src/dev/M1_SysApp/nanopb/pb_encode.c:698-714 | every one-byte value of a bool is encoded and decoded to itself |
| PbEncoder.OStream.Write | src/dev/M1_SysApp/nanopb/pb_encode.c:70-118 | takes all the bytes or, when they do not fit, none; nothing outside the window changes |
| PbEncoder.OStream.EncodeVarint | src/dev/M1_SysApp/nanopb/pb_encode.c:538-558 | writes the varint of any 64-bit value |
| PbEncoder.VarintDigits | src/dev/M1_SysApp/nanopb/pb_encode.c:540-557 | ten bytes suffice and hold the varint |
| PbEncoder.OStream.EncodeTag | src/dev/M1_SysApp/nanopb/pb_encode.c:599-603 | writes the tag |
| PbEncoder.OStream.EncodeString | src/dev/M1_SysApp/nanopb/pb_encode.c:638-644 | writes the length-delimited bytes |
| PbEncoder.TextLength | src/dev/M1_SysApp/nanopb/pb_encode.c:790-814 | the text ends at the first terminator or at the end of the storage |
| PbEncoder.EncodeArray | src/dev/M1_SysApp/nanopb/pb_encode.c:124-209 | writes every entry under its own tag, or fails when the count exceeds the array |
| PbEncoder.EncodeItem | src/dev/M1_SysApp/nanopb/pb_encode.c:698-822 | a number, string or nested message, on any stream |
| PbEncoder.EncodeTagged | src/dev/M1_SysApp/nanopb/pb_encode.c:605-636 | an item behind its tag and wire type, which `PbEvolution.WrittenAs` gives in numerals |
| PbEncoder.EncodeField | src/dev/M1_SysApp/nanopb/pb_encode.c:305-383 | required, present optional, repeated and selected oneof fields are written, others not |
| PbEncoder.PbEncode | src/dev/M1_SysApp/nanopb/pb_encode.c:485-507 | on a counting stream and on a buffer alike, exactly the message's bytes, which `PbEvolution.EncodingIs` spells out, and failure only if it has none or they do not fit |
| PbEncoder.EncodeSubmessage | src/dev/M1_SysApp/nanopb/pb_encode.c:646-694 | length and body; the second pass never writes another size than the first counted |
| PbEncoder.EncodeBody | src/dev/M1_SysApp/nanopb/pb_encode.c:669-694 | the body goes into exactly the bytes counted for it |
| PbEncoder.GetEncodedSize | src/dev/M1_SysApp/nanopb/pb_encode.c:524-533 | the size is that of the bytes an encoding writes |
| PbDecoder.IStream.ReadByte | src/dev/M1_SysApp/nanopb/pb_decode.c:136-152 | the next byte, or failure exactly at the end of the stream |
| PbDecoder.IStream.DecodeVarint32Eof | src/dev/M1_SysApp/nanopb/pb_decode.c:182-242 | the 32-bit reader with its overflow and padding rules; end of stream reported only before the first byte |
| PbDecoder.IStream.DecodeVarint | src/dev/M1_SysApp/nanopb/pb_decode.c:250-271 | the 64-bit reader, at most ten bytes |
| PbDecoder.IStream.SkipAny | src/dev/M1_SysApp/nanopb/pb_decode.c:273-326 | skips as specified by wire type, which `PbUnknown.SkipTakes` and `PbUnknown.SkipGives` say in bytes, or fails |
| PbDecoder.IStream.DecodeTag | src/dev/M1_SysApp/nanopb/pb_decode.c:293-314 | a tag, or the end: end of stream or a zero tag |
| PbDecoder.IStream.MakeSubstream | src/dev/M1_SysApp/nanopb/pb_decode.c:361-374 | the substream holds exactly the delimited bytes, and the rest is kept for later |
| PbDecoder.IStream.CloseSubstream | src/dev/M1_SysApp/nanopb/pb_decode.c:376-389 | the parent continues right behind the substream, however much of it was read |
| PbDecoder.StoreNumber | src/dev/M1_SysApp/nanopb/pb_decode.c:1239-1298 | casting and comparing refuses exactly the numbers outside the field's range |
| PbDecoder.DecodeNumber | src/dev/M1_SysApp/nanopb/pb_decode.c:1239-1298 | reads a number and stores it so |
| PbDecoder.DecodeItem | src/dev/M1_SysApp/nanopb/pb_decode.c:395-467 | one item of any type into existing storage, keeping the storage's shape |
| PbDecoder.FreshUnion | src/dev/M1_SysApp/nanopb/pb_decode.c:453-462 | setting defaults in zeroed storage changes nothing |
| PbDecoder.DecodeString | src/dev/M1_SysApp/nanopb/pb_decode.c:1378-1411 | the text and a terminator over the old storage, or failure when they do not fit |
| PbDecoder.SetToDefaults | src/dev/M1_SysApp/nanopb/pb_decode.c:805-888 | values zeroed, flags and counts cleared, array contents and unions left |
| PbDecoder.DecodeSubmessage | src/dev/M1_SysApp/nanopb/pb_decode.c:1413-1435 | the nested message, initialised first when it is an array entry |
| PbDecoder.DecodeField | src/dev/M1_SysApp/nanopb/pb_decode.c:395-467 | only the field's own storage changes; a full array is refused; a oneof is selected and starts from zeros |
| PbDecoder.DecodeNoInit | src/dev/M1_SysApp/nanopb/pb_decode.c:894-1004 | the loop over iterator, bitmap and stream computes the specified message, rest and failure |
| PbDecoder.CountRequired | src/dev/M1_SysApp/nanopb/pb_decode.c:961-977 | the number of required entries, from wherever the iterator stands |
| PbDecoder.CheckRequired | src/dev/M1_SysApp/nanopb/pb_decode.c:955-1001 | the loop over whole words and the last partial one is the specified test |
| PbDecoder.Decode | src/dev/M1_SysApp/nanopb/pb_decode.c:1006-1018 | defaults first, then the loop: message, rest and failure as specified |
| Gosh.GoshRequestSize | src/dev/M1_SysApp/rgosh/gosh.pb.h:191 | the request descriptor is well formed and its size is 176, or 174 when strings are terminated |
| Gosh.GoshResponseSize | src/dev/M1_SysApp/rgosh/gosh.pb.h:192 | the response descriptor is well formed, and its size for any count of bytes for a bool |
| Gosh.ResponseSizes | src/dev/M1_SysApp/rgosh/gosh.pb.h:192 | 1089 as the header counts, 1098 for what storage can hold, 1081 for what can travel |
| Gosh.LongResponse | src/dev/M1_SysApp/rgosh/gosh.pb.h:192 | a response in storage that takes 1098 bytes |
| Gosh.RequestMembers | src/dev/M1_SysApp/rgosh/gosh.pb.c:68-77 | the size of every member of the request's oneof |
| Gosh.TimeStampSize | src/dev/M1_SysApp/rgosh/gosh.pb.c:13-17 | 22 |
| Gosh.StampOnlySize | src/dev/M1_SysApp/rgosh/gosh.pb.c:37-51 | 24, for the stop and keep-alive messages |
| Gosh.RunSize | src/dev/M1_SysApp/rgosh/gosh.pb.c:19-23 | 155, or 153 when strings are terminated |
| Gosh.RunScriptSize | src/dev/M1_SysApp/rgosh/gosh.pb.c:25-31 | 167, or 165 when strings are terminated |
| Gosh.ListJobsSize | src/dev/M1_SysApp/rgosh/gosh.pb.c:33-35 | the empty message, size 0 |
| Gosh.ShellSize | src/dev/M1_SysApp/rgosh/gosh.pb.c:42-46 | 12 |
| Gosh.ResultTupleSize | src/dev/M1_SysApp/rgosh/gosh.pb.c:53-58 | 199, or 195 when strings are terminated |
| Gosh.CommandResponseSize | src/dev/M1_SysApp/rgosh/gosh.pb.c:60-66 | 1080 with one byte for the flag, and the size for any other count |
| GoshWire.EncodedOutline | src/dev/M1_SysApp/rgosh/rgosh_serialize.c:11-33 | a message that can travel is encoded as the bytes of its outline, which the next rows give field by field |
| GoshWire.StampIs | src/dev/M1_SysApp/rgosh/gosh.proto:4-7 | seconds under 1, nanoseconds under 2 |
| GoshWire.RunIs | src/dev/M1_SysApp/rgosh/gosh.proto:9-12 | command under 1, time stamp, if any, under 2 |
| GoshWire.RunScriptIs | src/dev/M1_SysApp/rgosh/gosh.proto:14-19 | script, stack size, priority and time stamp, each if there, under 1 to 4 |
| GoshWire.StampOnlyIs | src/dev/M1_SysApp/rgosh/gosh.proto:25-36 | stop and keep-alive: the time stamp, if any, under 1 |
| GoshWire.ShellIs | src/dev/M1_SysApp/rgosh/gosh.proto:29-32 | stack size and priority, each if there, under 1 and 2 |
| GoshWire.ResultTupleIs | src/dev/M1_SysApp/rgosh/gosh.proto:39-43 | group, if any, key and value under 1 to 3 |
| GoshWire.CommandResponseIs | src/dev/M1_SysApp/rgosh/gosh.proto:45-50 | each result under 1, return code under 2, completion flag under 3, output, if any, under 10 |
| GoshWire.RequestIs | src/dev/M1_SysApp/rgosh/gosh.proto:52-62 | id under 1, and the selected command under 10 to 15 as the message of that number |
| GoshWire.ResponseIs | src/dev/M1_SysApp/rgosh/gosh.proto:64-70 | id under 1, and the answer under 10 or a keep-alive under 20 |
| GoshWire.ListJobsBytes | src/dev/M1_SysApp/rgosh/gosh.proto:52-62 | a request to list the jobs is 08, id, 62, 00 |
| Gosh.RequestRoundTrip | src/dev/M1_SysApp/rgosh/rgosh_serialize.c:11-72 | every request with terminated strings, any oneof choice, survives in at most 176 bytes |
| Gosh.ResponseRoundTrip | src/dev/M1_SysApp/rgosh/rgosh_serialize.c:36-86 | every response with terminated strings and at most four results does in at most 1089, whatever its flag |
| Gosh.Serialize | src/dev/M1_SysApp/rgosh/rgosh_serialize.c:11-33 | invalid, overflow or the encoding, each exactly when due; the exact-size buffer never runs out; bytes beyond the result are untouched |
| Gosh.SerializeRequest | src/dev/M1_SysApp/rgosh/rgosh_serialize.c:11-33 | never overflows a buffer of 176 bytes |
| Gosh.SerializeResponse | src/dev/M1_SysApp/rgosh/rgosh_serialize.c:36-58 | never overflows a buffer of 1098 bytes, nor one of 1089 if the response can travel or its flag is not negative |
| Gosh.Deserialize | src/dev/M1_SysApp/rgosh/rgosh_serialize.c:60-86 | the decoded message, or invalid exactly when decoding fails |
| DmesgLog.ParseBytes | src/dev/M1_SysApp/dmesg/dmesg.c:186-230 | the bytes of a log parse as exactly its records |
| DmesgLog.EntryLayout | src/dev/M1_SysApp/dmesg/dmesg.c:146-168 | a record byte by byte: time stamp in four bytes, low one first, one length byte, the text |
| DmesgLog.AppendedRule | src/dev/M1_SysApp/dmesg/dmesg.c:119-144 | one write, by the number k of records that must go before five bytes and the text fit into 255: the log is emptied exactly when 2k exceeds the number of records by more than ten, and otherwise loses those k and gains the new one |
| DmesgLog.FewestEvictions | src/dev/M1_SysApp/dmesg/dmesg.c:125-140 | dropping that many of the oldest makes room, and nothing less does |
| DmesgLog.LongestSuffix | src/dev/M1_SysApp/dmesg/dmesg.c:108-184 | over any run of writes the log is the longest run of latest messages since the last reset that fits |
| DmesgLog.GuardFiresOnHealthyLog | src/dev/M1_SysApp/dmesg/dmesg.c:131-139 | a log the guard empties although it is intact |
| Dmesg.Log.GetAvailableSpace | src/dev/M1_SysApp/dmesg/dmesg.c:62-71 | 255 less the size of the records |
| Dmesg.Log.EvictOldest | src/dev/M1_SysApp/dmesg/dmesg.c:73-106 | drops exactly the oldest record; the corruption branch is dead |
| Dmesg.Log.MakeRoom | src/dev/M1_SysApp/dmesg/dmesg.c:125-144 | drops the fewest records, or everything if and only if twice that number exceeds the count by more than ten |
| Dmesg.Log.PutBytes | src/dev/M1_SysApp/dmesg/dmesg.c:158-168 | writes around the end of the ring; all other positions keep their bytes |
| Dmesg.Log.Append | src/dev/M1_SysApp/dmesg/dmesg.c:151-175 | the record goes behind the others, which stay as they were |
| Dmesg.Log.WriteEntry | src/dev/M1_SysApp/dmesg/dmesg.c:108-184 | appends after the fewest evictions, or empties the log with BUFFER_FULL exactly when the guard fires; the final space check is dead; every record written is in the log or counted as dropped, a reset counting once |
| Dmesg.Log.ReadEntryAt | src/dev/M1_SysApp/dmesg/dmesg.c:186-230 | at any offset: an error, and the offset kept, exactly when it is 256 or more or the byte four places on is not 1..128; otherwise the number and the text standing there, around the end if need be, cut to the caller's buffer size, where 0 wraps around and cuts nothing |
| Dmesg.RecordStands | src/dev/M1_SysApp/dmesg/dmesg.c:186-230 | every record stands in the ring behind those before it, place by place modulo 256: time stamp, length, text, and then the next one |
| Dmesg.Log.GetLogs | src/dev/M1_SysApp/dmesg/dmesg.c:300-335 | all records, oldest first |
| Dmesg.Log.GetLatestN | src/dev/M1_SysApp/dmesg/dmesg.c:337-402 | the last min(N, count) records, oldest first |
| Dmesg.Log.Init | src/dev/M1_SysApp/dmesg/dmesg.c:236-259 | empties log and statistics the first time only |
| Dmesg.Log.Clear | src/dev/M1_SysApp/dmesg/dmesg.c:404-417 | empties an initialised log |
| Dmesg.Log.Write | src/dev/M1_SysApp/dmesg/dmesg.c:266-293 | logs the first 128 characters, refusing empty messages and an uninitialised log |
| Dmesg.Log.Utilization | src/dev/M1_SysApp/dmesg/dmesg.c:434-438 | the share of the ring in use, never 100 percent |
| XcliSerial.FieldsRoundTrip | src/dev/M1_SysApp/xcli/xcli_serial.c:165-201 | a buffer of fields reads back as those fields in order, ending cleanly |
| XcliSerial.WireLayout | src/dev/M1_SysApp/xcli/xcli_serial.c:4-10 | a field byte by byte: length of the name, name, type code, length of the data in two bytes, low one first, data |
| XcliSerial.SeenOf | src/dev/M1_SysApp/xcli/xcli_serial.c:165-201 | what the reader keeps of a field: at most 16 characters of the name, 64 bytes of the data with zeros behind, and the length as sent |
| XcliSerial.FirstComplete | src/dev/M1_SysApp/xcli/xcli_serial.c:165-201 | the reader gets a field exactly when the buffer begins with a complete one, and then that one |
| XcliSerial.LittleBytes | src/dev/M1_SysApp/xcli/xcli_serial.c:62-139 | numbers of one, two and four bytes, low byte first |
| XcliSerial.NumberRoundTrip | src/dev/M1_SysApp/xcli/xcli_serial.c:212-276 | every value put is what the accessor of its type returns, under the type's code 1 to 10 |
| XcliSerial.Serializer.PutField | src/dev/M1_SysApp/xcli/xcli_serial.c:18-48 | a whole field is appended, or the error flag set and nothing written, from then on for good; sizes past 16 bits included as long as the check sees too little space |
| XcliSerial.Serializer.Put | src/dev/M1_SysApp/xcli/xcli_serial.c:62-139 | the typed writers: type code and little-endian data |
| XcliSerial.Serializer.Finish | src/dev/M1_SysApp/xcli/xcli_serial.c:141-145 | the size of all fields, or 0 once anything was lost |
| XcliSerial.Deserializer.DecodeNext | src/dev/M1_SysApp/xcli/xcli_serial.c:165-201 | the next field, the end, or an error for a truncated one, each exactly when due |
| XcliFragments.FirstFragment | src/dev/M1_SysApp/xcli/xcli.c:105-137 | the first fragment is the longest run of fields that fits |
| XcliFragments.GreedyLossless | src/dev/M1_SysApp/xcli/xcli.c:97-142 | the fragments contain every field once, in order; each is nonempty and fits, or is a single field too large for any |
| XcliFragments.GreedyMinimal | src/dev/M1_SysApp/xcli/xcli.c:105-142 | no split at field boundaries has fewer fragments |
| XcliFragments.FewFragments | src/dev/M1_SysApp/xcli/xcli.c:86-123 | neighbouring fragments exceed one payload together, which bounds their number far below the 255 slots |
| XcliFragments.ResponseArrives | src/dev/M1_SysApp/xcli/xcli.c:68-188 | there is at least one frame; the frames together carry the fields, each read on its own yields them in order; frame i is at most 255 bytes long and begins 1, command, number, status, number of frames, i; and no split at field boundaries takes fewer |
| XcliFragments.HeaderAt | src/dev/M1_SysApp/xcli/xcli.c:162-168 | each header byte of each frame, and the fields behind them |
| XcliFragments.AnyOrder | src/dev/M1_SysApp/xcli/xcli.h:15-18 | from whatever frames of a response have come, in any order and with repetitions, ordering by the last header byte up to the one before yields all frames as soon as none is missing, and nothing before |
| XcliFragments.ReorderedArrives | src/dev/M1_SysApp/xcli/xcli.h:15-18 | any permutation of the frames, put in order by their headers, reads as all the fields in order |
| XcliFragments.Split | src/dev/M1_SysApp/xcli/xcli.c:96-151 | walking the field headers finds exactly the greedy split, of fields of any size, and stops at a header cut off by the end of the buffer |
| XcliFragments.SendParts | src/dev/M1_SysApp/xcli/xcli.c:154-187 | every frame sent is its header and its slice of the buffer |
| XcliFragments.SendResponse | src/dev/M1_SysApp/xcli/xcli.c:77-188 | the frames sent are those of the greedy split, one empty frame when there is no complete field; `XcliFragments.ResponseArrives` gives their bytes |
| RingQueue.StepRefines | src/dev/M5_Utils/RingBuffer/ring_buffer.c:28-95 | every single load or store of either side keeps the invariant and is a step of a bounded FIFO queue, or none |
| RingQueue.RunLegal | src/dev/M5_Utils/RingBuffer/ring_buffer.c:28-95 | along any interleaving, elements put and not yet got are exactly those in the queue |
| RingQueue.Linearizable | src/dev/M5_Utils/RingBuffer/ring_buffer.c:28-95 | under every interleaving the completed operations are those of a FIFO queue of one less than the size: got is a prefix of put, failures only when full or empty, the producer's free count exact |
| RingBuffer.Buffer.PutElement | src/dev/M5_Utils/RingBuffer/ring_buffer.c:28-50 | puts, or finds the queue full |
| RingBuffer.Buffer.GetElement | src/dev/M5_Utils/RingBuffer/ring_buffer.c:52-74 | gets the oldest element, or finds the queue empty |
| RingBuffer.Buffer.NumFreeSlots | src/dev/M5_Utils/RingBuffer/ring_buffer.c:78-95 | capacity less the elements held |
| RingBuffer.Buffer.ProcessAll | src/dev/M5_Utils/RingBuffer/ring_buffer.c:98-113 | hands over every element in order and leaves none |
| RingBuffer.Buffer.GetHeadData | src/dev/M5_Utils/RingBuffer/ring_buffer.c:125-135 | the newest element, or 0 |
| RingBuffer.Buffer.GetTailData | src/dev/M5_Utils/RingBuffer/ring_buffer.c:137-146 | the oldest element, or 0 |
| Calendar.EpochInjective | src/dev/M5_Utils/DateTime/date_time.c:41-57 | different valid dates are different numbers of seconds |
| Calendar.MonthFormula | src/dev/M5_Utils/DateTime/date_time.c:31-39 | the days before each month in closed form: from March on 153 days for every five months |
| Calendar.YearFormula | src/dev/M5_Utils/DateTime/date_time.c:26-29 | the days before each year in closed form: every fourth a leap year, of the centuries every fourth |
| Calendar.EpochFormula | src/dev/M5_Utils/DateTime/date_time.c:41-57 | the seconds since 2000 of every valid date in numerals, and what the code's arithmetic makes of any other fields |
| Calendar.CenturyBound | src/dev/M5_Utils/DateTime/date_time.h:12 | the dates up to 2099 are exactly the numbers below 3155760000 |
| Calendar.TickedEpoch | src/dev/M5_Utils/DateTime/date_time.c:102-135 | a tick adds one second, except that the last second of 2099 or any later year leads to 2000 |
| Calendar.OddValues | src/dev/M5_Utils/DateTime/date_time.c:102-135 | what a tick makes of values no date has: 255 starts again without a carry, the others carry |
| Calendar.CountsSeconds | src/dev/M5_Utils/DateTime/date_time.c:102-135 | from any date of 2000 to 2099, n ticks add n seconds modulo the century |
| Calendar.WorkingTotals | src/dev/M5_Utils/DateTime/date_time.c:137-153 | n ticks add n seconds to the working time |
| SoftClock.DateTimeToEpoch | src/dev/M5_Utils/DateTime/date_time.c:41-57 | the loops sum up the seconds since 2000, in 32 bits, for any fields with a month the table can count up to |
| SoftClock.SplitMonths | src/dev/M5_Utils/DateTime/date_time.c:84-97 | the month search ends within the year |
| SoftClock.EpochToDateTime | src/dev/M5_Utils/DateTime/date_time.c:59-100 | for every 32-bit number the one valid date with that many seconds, its year within a byte |
| SoftClock.UnixTime | src/dev/M5_Utils/DateTime/date_time.c:308-311 | the time reported for a valid date is its Unix time, 946684800 seconds more, in 32 bits |
| SoftClock.Clock.Update | src/dev/M5_Utils/DateTime/date_time.c:102-154 | one tick of calendar and working time, from any byte values; from a valid date to the valid date one second later |
| SoftClock.Clock.TickDay | src/dev/M5_Utils/DateTime/date_time.c:115-132 | midnight moves to the next day, month and year |
| SoftClock.Clock.SetEpoch | src/dev/M5_Utils/DateTime/date_time.c:297-306 | afterwards the clock reports exactly this time, or is unchanged before 2000 |
| SoftClock.Clock.SetRtc | src/dev/M5_Utils/DateTime/date_time.c:287-291 | takes over any date and leaves the working time |
| SoftClock.Clock.GetEpoch | src/dev/M5_Utils/DateTime/date_time.c:308-311 | the reported time, in 32 bits |
| SoftClock.Clock.constructor | src/dev/M5_Utils/DateTime/date_time.c:260-272 | 1 October 2025, 23:59:00, no time worked |

## Left out

xTP

- XtpArq.SendRun: assumes that the clock advances, so that a call that is never answered becomes overdue; a list of polls that is used up stands for that moment.
- XtpNode.Instance.Process: hands an accepted frame back to the caller, in place of the receive callback and the command table; the branch without a retransmission layer is not modelled.
- XtpArq.BoundedDelivery: assumes an application id, that the peer sends no acknowledgement or reset of its own, and that both directions are empty at the call, as acknowledgements are not compared; `XtpArq.TrustCondition` has the exact condition.
- Segmentation, HMAC, CRC-32, addressing and 16-bit lengths, all off by default; locks, logging and statistics counters.
- Links that duplicate frames or forge acknowledgements and resets. Several wrong bytes, some of them START, TYPEMETHOD, LEN or STOP: only `XtpLink.Resynchronises` speaks of those.

nanopb

- PbEncoder.EncodeArray: assumes entries that are strings or messages; arrays of numbers, which the code packs into one field, are not modelled.
- PbDecoder.DecodeField: assumes the same of array fields, so the packed form is not read.
- PbRepeat.NestedMerges: assumes a nested message without required fields, as the decoder checks each part for them by itself.
- PbRepeat.LastNumberWins: speaks of numbers; for a text that comes again, `PbRepeat.TextStored` says what the storage then holds.
- Descriptors whose longest message in storage reaches 2^32 bytes, as the reader's lengths have 32 bits.
- C memory: struct offsets, padding and pointers are replaced by field values, so what a failed decode leaves in the struct is not modelled.
- Signed (zigzag), fixed-width, bytes, packed, pointer, callback, extension and proto3 fields, which the remote shell messages do not use; a message has at most one oneof.
- Machine widths of counters: the bit position of a varint and `size_t` are unbounded, where the 32-bit originals do not wrap on the messages modelled.
- A oneof member that is not a message starts from zeros here and from the old bytes in C; the messages have none.
- Null struct pointers in the serializer.

Message log

- Dmesg.Log.ReadEntryAt: gives the characters it copies and not the caller's buffer, which a size of 0 lets the code write past.
- Null pointers, the console text, and wrap-around of the 32-bit counters.

xCLI

- XcliFragments.SendResponse: assumes fields of at most 249 wire bytes, as the frame buffer has no room for a larger one, and no data cut off behind a complete header, which the serializer never leaves.
- XcliFragments.Split: assumes no data cut off behind a complete header, which the code would walk past.
- XcliFragments.SendParts: assumes fragments of at most 249 bytes, for the room in the frame buffer.
- XcliSerial.Serializer.PutField: assumes that a field of 65536 wire bytes or more does not pass the 16-bit check by its low bits, as the code would then write past the buffer; null names and data are left out.
- XcliSerial.Serializer.Put: assumes the same of a field's size.
- The meaning of a float, which is carried as its bit pattern; command parsing and dispatch.

Ring buffer and clock

- RingQueue.Linearizable: interleaves the atomic loads and stores in one order seen by both sides, which the acquire and release orders provide for one producer and one consumer; more of either are not modelled.
- SoftClock.DateTimeToEpoch: assumes a month of at most 13; the month table has no entry past 12.
- SoftClock.Clock.GetEpoch: assumes the same.
- SoftClock.Clock.Update: assumes a month of the table at the end of a day, for the same reason.
- SoftClock.Clock.TickDay: assumes a month of the table.
- Names and ids of ring buffers, the cron job table, and synchronisation with an external clock chip.
