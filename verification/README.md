# Universal GNSS: verified model of framing, sessions, commands and corrections

This project models the protocol core of a GNSS receiver stack in Dafny and proves what it is for: framers whose
records are disjoint slices of the stream and that give built frames back, sessions whose results do not depend on
how a stream was cut into reads, a command protocol that never attributes a reply to the wrong command, correction
evidence that never mixes two stations, and printers, parsers and small queues that lose nothing.

`dafny verify dfyconfig.toml` checks everything. There is one module for each source file or for one theme of
proofs about it. State machines of the source are classes whose methods are proved against pure functions of the
old state; the laws are lemmas about those functions, over all inputs, all runs and all cuts into reads.

| area | modules |
|---|---|
| bit strings, CRCs as polynomials over GF(2), checksums | Bits, HexDigits, CrcAlgebra, CrcDivision, RtcmCrc24q, RtcmSample, UnicoreCrc32, UbxChecksum, NmeaChecksum |
| byte-at-a-time framers | Framing, FrameSlices, UbxFramer, UbxStream, RtcmFramer, RtcmStream, UnicoreBinaryFramer, UnicoreBinaryStream, UnicoreFramer, NmeaFramer |
| streams and sessions | UbloxSession, UbloxSlices, UbloxMixed, NmeaSession, StreamDetector, DetectorAnswers, ReceiverSession, ReceiverAnswers, ReceiverCuts |
| command protocol | ReceiverCommand, TransactionEngine, CommandRuns, CommandReplies, ConfigApplication, ConfigReplies, ConfigRuns, ConfigCauses, UbxCfgBuilder, UbxCfgWire |
| RTCM decoding and correction monitor | RtcmBits, RtcmParser, RtcmFields, TimestampWindow, CorrectionMonitor, CorrectionRuns, CorrectionRequirements |
| GGA printing and parsing | DecimalText, CNumber, NmeaParser, GgaSentence, GgaRoundTrip, GgaWritten, GgaLength |
| queues, fragments, back-off | RtcmCaster, CasterAnswers, MavlinkRtcm, ReconnectPolicy |

How the source is represented:

- Bytes are integers from 0 to 255; shift registers and bit fields are sequences of booleans, most significant
  bit first unless a module says otherwise. Floating-point numbers are exact reals.
- A framer is a function from the bytes it holds and the next byte to the bytes it holds afterwards and an answer;
  the framer classes, with their separate byte, timestamp and size fields, are proved equal to it.
- What a session does with a routed record (parsing, the runtime aggregator, freshness counters) is one arbitrary
  deterministic function, so the laws hold for every such function. The Unicore session is an arbitrary
  deterministic step on the chunks it is fed.
- What goes over a wire is also pinned in literal bytes and numbers: the CRC generators 0x1864CFB and 0x104C11DB7,
  headers, length fields, hemisphere letters, the identity of a command, requests and their answers, and one RTCM
  frame, one GGA sentence and one VALSET request worked through.
- Results of sockets and byte sinks are arbitrary, and the receiver at the other end of the command protocol is an
  environment that answers with any delay.

Three findings, where the code does less than one might expect; each has a lemma with the witness and a lemma with
the exact condition:

- The kind that automatic detection selects can depend on how the stream was cut into reads. The test for vendor
  records accepts more than the detector does, Unicore text without a checksum above all (`CutChangesTheVendor`), and
  generic NMEA is taken as soon as no vendor record has ended yet (`CutChangesNmeaToUblox`). Where the first records
  of each kind end says exactly when (`SelectionDependsOnCutIff`; `CutsAgreeIffWindowsAgree` for streams longer than
  the detection buffer).
- The u-blox session advances by the size of a record, not by the bytes probed. After a repeated sync byte the last
  byte of a record is scanned twice (`RestartRescansLastByte`); a frame recovered from inside a damaged one can be
  routed twice (`RecoveredFrameIsRoutedTwice`, and eighteen bytes that do it in `NestedFrameIsRoutedTwice`). A step
  moves past what it probed exactly when the record found starts where the probe did (`StepIsExactIffWhole`), and a
  scan routes what it finds, each place once (`DrainRoutesPlaces`), in slices that overlap exactly when a later record
  starts among the bytes of one that does not (`PlacesOverlapIff`).
- `MarkTimeout` of a configuration run that was reset while waiting still acts on the engine's old slot
  (`ResetThenMarkTimeoutStrays`). The counters agree in exactly the runs in which that did not happen
  (`MarkTimeoutCountsIffNotStale`, `CountersAgreeIffNotAstray`); order and acknowledgement hold in all of them.

## Model

| member | source | states |
|---|---|---|
| CrcAlgebra.FeedLinear | gnss_protocols/src/rtcm_crc24q.cpp:6-26 | Feeding a shift register is linear over xor, register and input together, for any generator with its lowest bit set; the root of CRC linearity for both CRCs. |
| CrcAlgebra.ZeroResidue | gnss_protocols/src/rtcm_crc24q.cpp:6-31 | A register is emptied by a trailer of its own width exactly when the trailer spells the register. |
| CrcAlgebra.BurstDetected | gnss_protocols/src/rtcm_crc24q.cpp:6-26 | A difference confined to one register width never leaves a zero residue, whatever surrounds it. |
| CrcAlgebra.NoBurstBetween | gnss_protocols/src/rtcm_crc24q.cpp:28-31 | Two inputs with zero residues that differ only inside one register width are equal. |
| CrcAlgebra.EvenDistance | gnss_protocols/src/rtcm_crc24q.cpp:28-31 | With a generator of odd parity, two inputs with zero residues differ in an even number of bits. |
| RtcmCrc24q.ComputeRtcmCrc24Q | gnss_protocols/src/rtcm_crc24q.cpp:6-26 | The byte loop with its eight shifts leaves the register that bitwise division of the whole input leaves. |
| RtcmCrc24q.ValidateRtcmCrc24Q | gnss_protocols/src/rtcm_crc24q.cpp:28-31 | Accepts exactly when the number in the register is the expected one. |
| RtcmCrc24q.AcceptedIffZeroResidue | gnss_protocols/src/rtcm_crc24q.cpp:6-31 | A body and its three-byte trailer validate exactly when the CRC of the two together is zero. |
| RtcmCrc24q.CrcLinear | gnss_protocols/src/rtcm_crc24q.cpp:6-26 | CRC-24Q of the bytewise xor of two equally long inputs is the xor of their CRCs. |
| RtcmCrc24q.AcceptedFramesDifferEvenly | gnss_protocols/src/rtcm_crc24q.cpp:6-31 | Two equally long frames that both validate differ in an even number of bits. |
| RtcmCrc24q.AcceptedFramesNoShortBurst | gnss_protocols/src/rtcm_crc24q.cpp:6-31 | Two equally long frames that both validate never differ only inside 24 neighbouring bits. |
| CrcDivision.EmptyIffMultiple | gnss_protocols/src/rtcm_crc24q.cpp:6-31 | For any generator an empty register is empty again exactly after a multiple of the generator polynomial, with polynomials multiplied out row by row. |
| CrcDivision.Quotient | gnss_protocols/src/rtcm_crc24q.cpp:6-26 | Long division: whatever leaves an empty register empty has a quotient. |
| CrcDivision.MultipleLeavesNothing | gnss_protocols/src/rtcm_crc24q.cpp:6-26 | And every product of the generator leaves it empty. |
| RtcmCrc24q.GeneratorIs1864CFB | gnss_protocols/src/rtcm_crc24q.cpp:8-8 | The generator, leading term included, is the number 0x1864CFB. |
| RtcmCrc24q.AcceptedIffMultiple | gnss_protocols/src/rtcm_crc24q.cpp:6-31 | A body and trailer validate exactly when their bits, as one polynomial, are a multiple of the polynomial 0x1864CFB. |
| RtcmSample.CrcOfOne | gnss_protocols/src/rtcm_crc24q.cpp:6-26 | The CRC of the single byte 01 is 0x864CFB. |
| RtcmSample.SampleIsAccepted | gnss_protocols/src/rtcm_crc24q.cpp:6-31 | The 22 bytes of a type 1005 frame have the CRC 0x360B98 and validate with the trailer 36 0B 98. |
| UnicoreCrc32.ComputeUnicoreBinaryCrc32 | gnss_protocols/src/unicore_binary_framer.cpp:22-39 | The reflected byte loop computes division of the bit string, least significant bit of each byte first. |
| UnicoreCrc32.ValidateUnicoreBinaryCrc32 | gnss_protocols/src/unicore_binary_framer.cpp:41-46 | Accepts exactly when the number in the register is the expected one. |
| UnicoreCrc32.AcceptedIffZeroResidue | gnss_protocols/src/unicore_binary_framer.cpp:22-46 | A body and its little-endian four-byte trailer validate exactly when the CRC of the two together is zero. |
| UnicoreCrc32.CrcLinear | gnss_protocols/src/unicore_binary_framer.cpp:22-39 | The reflected CRC-32 is linear over bytewise xor. |
| UnicoreCrc32.AcceptedFramesNoShortBurst | gnss_protocols/src/unicore_binary_framer.cpp:22-46 | Two equally long frames that both validate never differ only inside 32 neighbouring bits. |
| UnicoreCrc32.GeneratorIs104C11DB7 | gnss_protocols/src/unicore_binary_framer.cpp:22-39 | The generator, leading term included, is the number 0x104C11DB7. |
| UnicoreCrc32.AcceptedIffMultiple | gnss_protocols/src/unicore_binary_framer.cpp:22-46 | A body and trailer validate exactly when their bits, lowest bit of each byte first, are a multiple of the polynomial 0x104C11DB7. |
| UnicoreCrc32.CrcOf80 | gnss_protocols/src/unicore_binary_framer.cpp:22-39 | The CRC of the single byte 80 is 0xEDB88320, the constant of the source. |
| UbxChecksum.ComputeUbxChecksum | gnss_protocols/src/ubx_checksum.cpp:6-15 | The two running 8-bit sums over the input. |
| UbxChecksum.FletcherClosedForm | gnss_protocols/src/ubx_checksum.cpp:6-15 | The running checksum is the plain sum and the position-weighted sum, both modulo 256. |
| UbxChecksum.SingleChangeDetected | gnss_protocols/src/ubx_checksum.cpp:6-15 | Changing one byte always changes the first checksum byte. |
| UbxChecksum.SwapDetected | gnss_protocols/src/ubx_checksum.cpp:6-15 | Swapping two different neighbouring bytes is always detected by the second checksum byte. |
| UbxFramer.FirstValidFrame | gnss_protocols/src/ubx_framer.cpp:135-162 | The least offset of a complete frame with a matching checksum, or none. |
| UbxFramer.PushHolds | gnss_protocols/src/ubx_framer.cpp:22-89 | What a framer holds between calls: its sync bytes, then fewer bytes than the header declares, within the limit; a record needs exactly the declared size. |
| UbxFramer.ReportCases | gnss_protocols/src/ubx_framer.cpp:75-89 | A full buffer is answered with itself, with the first valid frame inside it, or with itself marked invalid. |
| UbxFramer.UbxFrameFramer.constructor | gnss_protocols/src/ubx_framer.cpp:18-20 | A new framer is idle. |
| UbxFramer.UbxFrameFramer.PushByte | gnss_protocols/src/ubx_framer.cpp:22-89 | The byte machine over its mutable buffers answers and holds what the pure framer function of the held bytes says. |
| UbxFramer.UbxFrameFramer.ContinueFrame | gnss_protocols/src/ubx_framer.cpp:50-89 | The same once both sync bytes are held: overflow at the header, waiting, completing. |
| UbxFramer.UbxFrameFramer.ReportFrame | gnss_protocols/src/ubx_framer.cpp:75-89 | The frame that fills the buffer or, failing its checksum, the one recovered from inside it. |
| UbxFramer.UbxFrameFramer.StartSync | gnss_protocols/src/ubx_framer.cpp:115-127 | An idle framer starts on the first sync byte only. |
| UbxFramer.UbxFrameFramer.FindEmbeddedValidFrame | gnss_protocols/src/ubx_framer.cpp:135-162 | The scan returns the frame at the least valid offset, with the read time of its own first byte. |
| UbxFramer.UbxFrameFramer.Finalize | gnss_protocols/src/ubx_framer.cpp:91-100 | Reports a truncation exactly when bytes were left, and leaves the framer idle. |
| UbxFramer.UbxFrameFramer.Reset | gnss_protocols/src/ubx_framer.cpp:102-108 | Leaves the framer idle. |
| UbxStream.ReportsAreDisjointSlices | gnss_protocols/src/ubx_framer.cpp:22-196 | Over any input the reported frames are slices of the stream, in order and without overlap, each stamped with its own first byte. |
| FrameSlices.LocateReportsRun | gnss_protocols/src/ubx_framer.cpp:22-89 | The located records are exactly the records the framer emits, for any framer. |
| FrameSlices.RecordsAreDisjointSlices | gnss_protocols/src/ubx_framer.cpp:22-196 | The records of any framer that holds on to the latest bytes and reports a part of them are slices of the stream, in order and without overlap. |
| UbxStream.PushSlices | gnss_protocols/src/ubx_framer.cpp:22-162 | Each byte keeps a suffix of what was held, and a report is a part of it with its own bytes and time. |
| UbxStream.ValidReportIsBuilt | gnss_protocols/src/ubx_framer.cpp:75-89 | A report marked valid has the raw bytes the builder writes for its class, id and payload. |
| UbxStream.ValidFrameIsBuilt | gnss_protocols/src/ubx_framer.cpp:164-196 | A slice that passes every framer test equals the built frame of its own three fields. |
| UbxStream.RecoveryReportsLeastOffset | gnss_protocols/src/ubx_framer.cpp:135-162 | When the filling frame fails, the report is the embedded valid frame of least offset, and the failed frame itself only if there is none. |
| UbxStream.FirstIsLeast | gnss_protocols/src/ubx_framer.cpp:135-162 | No valid frame lies before the recovered one. |
| UbxStream.OneBuiltFrame | gnss_protocols/src/ubx_cfg_builder.cpp:155-172 | A built frame fed byte by byte to an idle framer is reported once and leaves it idle. |
| UbxStream.BuiltFramesComeBack | gnss_protocols/src/ubx_cfg_builder.cpp:155-172 | A concatenation of built frames comes back as exactly those messages, in order. |
| UbxStream.ReportsAreCarried | gnss_protocols/src/ubx_framer.cpp:50-89 | No report has a payload of 2^16 bytes or more, or is longer than the limit. |
| UbxStream.ComesBackIffCarried | gnss_protocols/src/ubx_framer.cpp:22-89 | A message comes back if and only if its length fits 16 bits and its frame fits the limit. |
| RtcmFramer.CrcMatchesIffZeroResidue | gnss_protocols/src/rtcm_framer.cpp:71-85 | The framer test is the zero-residue test over the whole frame. |
| RtcmFramer.FirstValidFrame | gnss_protocols/src/rtcm_framer.cpp:126-154 | The least offset of a complete valid RTCM frame, or none. |
| RtcmFramer.PushHolds | gnss_protocols/src/rtcm_framer.cpp:22-85 | Preamble and length byte first, then fewer bytes than declared, within the limit. |
| RtcmFramer.ReportCases | gnss_protocols/src/rtcm_framer.cpp:71-85 | The full buffer, the first valid frame inside it, or the full buffer marked invalid. |
| RtcmFramer.RtcmFrameFramer.PushByte | gnss_protocols/src/rtcm_framer.cpp:22-85 | The byte machine agrees with the pure framer function, restart on a preamble and rejected length bytes included. |
| RtcmFramer.RtcmFrameFramer.ContinueFrame | gnss_protocols/src/rtcm_framer.cpp:45-85 | The same once a header is under way. |
| RtcmFramer.RtcmFrameFramer.ReportFrame | gnss_protocols/src/rtcm_framer.cpp:71-85 | The frame that fills the buffer or the one recovered from inside it. |
| RtcmFramer.RtcmFrameFramer.StartFrame | gnss_protocols/src/rtcm_framer.cpp:106-118 | An idle framer starts on the preamble only. |
| RtcmFramer.RtcmFrameFramer.FindEmbeddedValidFrame | gnss_protocols/src/rtcm_framer.cpp:126-154 | The scan returns the frame at the least valid offset. |
| RtcmFramer.RtcmFrameFramer.Finalize | gnss_protocols/src/rtcm_framer.cpp:87-96 | Reports a truncation exactly when bytes were left. |
| RtcmFramer.ReportsAreDisjointSlices | gnss_protocols/src/rtcm_framer.cpp:22-154 | Over any input the reported RTCM frames are slices of the stream, in order and without overlap. |
| RtcmStream.OneBuiltFrame | gnss_protocols/src/rtcm_framer.cpp:22-85 | A frame written as D3, two length bytes, payload and CRC, fed byte by byte to an idle framer, is reported once and leaves it idle. |
| RtcmStream.BuiltFrameReports | gnss_protocols/src/rtcm_framer.cpp:71-85 | The report of a built frame is valid and has its payload. |
| RtcmStream.BuiltFramesComeBack | gnss_protocols/src/rtcm_framer.cpp:22-85 | A concatenation of built RTCM frames comes back as exactly those payloads, in order. |
| RtcmStream.ReportsAreCarried | gnss_protocols/src/rtcm_framer.cpp:45-85 | No report has a payload of 1024 bytes or more, or is longer than the limit. |
| RtcmStream.ComesBackIffCarried | gnss_protocols/src/rtcm_framer.cpp:22-85 | A payload comes back from the framer if and only if it has fewer than 1024 bytes and its frame fits the limit. |
| RtcmStream.ValidFrameIsBuilt | gnss_protocols/src/rtcm_framer.cpp:126-154 | A slice that passes every framer test is what the builder writes for its payload. |
| RtcmStream.ValidReportIsBuilt | gnss_protocols/src/rtcm_framer.cpp:71-85 | A report marked valid has exactly the bytes the builder writes for its payload. |
| RtcmStream.SampleComesBack | gnss_protocols/src/rtcm_framer.cpp:22-85 | The 25 bytes of the sample frame, fed to any framer that has room for them, come back once, valid, as a message of type 1005. |
| UnicoreBinaryFramer.CrcMatchesIffZeroResidue | gnss_protocols/src/unicore_binary_framer.cpp:130-142 | The framer test is the zero-residue test over the whole frame. |
| UnicoreBinaryFramer.FirstValidFrame | gnss_protocols/src/unicore_binary_framer.cpp:190-223 | The least offset of a complete valid Unicore frame, or none. |
| UnicoreBinaryFramer.PushHolds | gnss_protocols/src/unicore_binary_framer.cpp:54-147 | Three sync bytes, then fewer bytes than declared, within the limit. |
| UnicoreBinaryFramer.ReportIsSound | gnss_protocols/src/unicore_binary_framer.cpp:130-147 | Whatever a full buffer is answered with is a slice of it, valid, with zero residue. |
| UnicoreBinaryFramer.ReportsLeaveZeroResidue | gnss_protocols/src/unicore_binary_framer.cpp:54-147 | Over any input no frame with a damaged CRC is ever reported. |
| UnicoreBinaryFramer.TrailerMatches | gnss_protocols/src/unicore_binary_framer.cpp:41-46 | Reading the trailer and comparing it with the computed CRC. |
| UnicoreBinaryFramer.UnicoreBinaryFrameFramer.PushByte | gnss_protocols/src/unicore_binary_framer.cpp:54-147 | The byte machine with its three-byte sync agrees with the pure framer function. |
| UnicoreBinaryFramer.UnicoreBinaryFrameFramer.ContinueSync | gnss_protocols/src/unicore_binary_framer.cpp:61-95 | The second and third sync byte, with restart on the first. |
| UnicoreBinaryFramer.UnicoreBinaryFrameFramer.ContinueFrame | gnss_protocols/src/unicore_binary_framer.cpp:97-147 | Header, overflow, waiting and completion. |
| UnicoreBinaryFramer.UnicoreBinaryFrameFramer.ReportFrame | gnss_protocols/src/unicore_binary_framer.cpp:130-147 | A valid frame, a recovered one, or invalid data. |
| UnicoreBinaryFramer.UnicoreBinaryFrameFramer.FindEmbeddedValidFrame | gnss_protocols/src/unicore_binary_framer.cpp:190-223 | The scan returns the frame at the least valid offset. |
| UnicoreBinaryFramer.UnicoreBinaryFrameFramer.Finalize | gnss_protocols/src/unicore_binary_framer.cpp:149-158 | Reports a truncation exactly when bytes were left. |
| UnicoreBinaryFramer.ReportsAreDisjointSlices | gnss_protocols/src/unicore_binary_framer.cpp:54-223 | Over any input the reported Unicore frames are slices of the stream, in order and without overlap. |
| UnicoreBinaryStream.HeaderFields | gnss_protocols/src/unicore_binary_framer.cpp:231-260 | Where each field of a built header stands, number by number. |
| UnicoreBinaryStream.FieldsRead | gnss_protocols/src/unicore_binary_framer.cpp:231-260 | Every field of the reported record is read from its own place in the header. |
| UnicoreBinaryStream.OneBuiltFrame | gnss_protocols/src/unicore_binary_framer.cpp:54-147 | A built binary frame fed byte by byte to an idle framer is reported once and leaves it idle. |
| UnicoreBinaryStream.BuiltFrameReports | gnss_protocols/src/unicore_binary_framer.cpp:231-260 | The report of a built frame is valid and has the payload and every header field it was built from. |
| UnicoreBinaryStream.BuiltFramesComeBack | gnss_protocols/src/unicore_binary_framer.cpp:54-147 | A concatenation of built binary frames comes back as exactly those messages, in order, field by field. |
| UnicoreBinaryStream.ReportsAreCarried | gnss_protocols/src/unicore_binary_framer.cpp:97-147 | No report has a payload of 2^16 bytes or more, or is longer than the limit. |
| UnicoreBinaryStream.ComesBackIffCarried | gnss_protocols/src/unicore_binary_framer.cpp:54-147 | A message comes back if and only if its length fits 16 bits and its frame fits the limit. |
| UnicoreBinaryStream.ValidFrameIsBuilt | gnss_protocols/src/unicore_binary_framer.cpp:190-223 | A slice that passes every framer test is what the builder writes for its header fields and payload. |
| UnicoreBinaryStream.ReportIsBuilt | gnss_protocols/src/unicore_binary_framer.cpp:54-223 | Every report has exactly the bytes the builder writes for the fields and payload it reports. |
| UnicoreFramer.FindLast | gnss_protocols/src/unicore_framer.cpp:139-142 | The last occurrence of a byte, as `rfind` returns it. |
| UnicoreFramer.NameOf | gnss_protocols/src/unicore_framer.cpp:121-132 | The message name is the text before the first comma, semicolon, star or space. |
| UnicoreFramer.TryParseHex32 | gnss_protocols/src/unicore_framer.cpp:35-54 | Succeeds exactly on eight hexadecimal digits; a failed parse leaves the value of the digits before the first other byte. |
| UnicoreFramer.CollectName | gnss_protocols/src/unicore_framer.cpp:124-132 | The name loop collects exactly the name. |
| UnicoreFramer.CheckPayload | gnss_protocols/src/unicore_framer.cpp:134-165 | Missing, invalid or valid checksum of a record. |
| UnicoreFramer.ValidIffSealed | gnss_protocols/src/unicore_framer.cpp:134-165 | A record is valid exactly when its payload is some text, a star and eight digits that spell the CRC-32 of that text. |
| UnicoreFramer.RecordComesBackIffItFits | gnss_protocols/src/unicore_framer.cpp:64-166 | A sealed record line fed to an idle framer comes back once, valid, with its text, if and only if it is no longer than the limit. |
| UnicoreFramer.HexRoundTrip | gnss_protocols/src/unicore_framer.cpp:35-54 | Reading the digits a number is printed with gives the number back. |
| UnicoreFramer.RecordLineBytes | gnss_protocols/src/unicore_framer.cpp:134-165 | The bytes of a sealed line: hash, text, star, eight digits, carriage return and line feed. |
| UnicoreFramer.NameEndsAtSeparator | gnss_protocols/src/unicore_framer.cpp:121-132 | A name ends at the first comma, semicolon, star or space, or with the text. |
| UnicoreFramer.UnicoreFrameFramer.PushByte | gnss_protocols/src/unicore_framer.cpp:64-93 | The line machine agrees with the pure framer function; sync bytes inside a record do not restart it. |
| UnicoreFramer.UnicoreFrameFramer.BuildFrame | gnss_protocols/src/unicore_framer.cpp:112-166 | The record: payload without line ending, name, checksum. |
| UnicoreFramer.UnicoreFrameFramer.Finalize | gnss_protocols/src/unicore_framer.cpp:95-104 | Reports a truncation exactly when bytes were left. |
| UnicoreFramer.ReportsAreDisjointSlices | gnss_protocols/src/unicore_framer.cpp:64-119 | Over any input the records are slices of the stream, in order and without overlap. |
| NmeaChecksum.TrimLineEnding | gnss_protocols/src/nmea_checksum.cpp:22-30 | Where the trailing carriage returns and line feeds begin. |
| NmeaChecksum.ComputeNmeaChecksum | gnss_protocols/src/nmea_checksum.cpp:34-42 | The xor over the payload. |
| NmeaChecksum.SingleChangeDetected | gnss_protocols/src/nmea_checksum.cpp:34-42 | Changing one byte always changes the checksum. |
| NmeaChecksum.ChecksumOfParts | gnss_protocols/src/nmea_checksum.cpp:34-42 | Nothing counts zero, one character counts itself, and parts add up by exclusive or. |
| NmeaChecksum.HexNibbleIs | gnss_protocols/src/nmea_checksum.cpp:11-19 | The hexadecimal digits in order, in either case. |
| NmeaFramer.NmeaSentenceFramer.PushByte | gnss_protocols/src/nmea_framer.cpp:31-67 | The line machine agrees with the pure framer function; a leader always starts a new sentence. |
| NmeaFramer.NmeaSentenceFramer.Finalize | gnss_protocols/src/nmea_framer.cpp:69-78 | Reports a truncation exactly when bytes were left. |
| NmeaFramer.LineComesBackIffItFits | gnss_protocols/src/nmea_framer.cpp:31-67 | Whatever the framer held, a line is reported exactly once as the sentence it spells if it fits the limit, and not at all otherwise. |
| NmeaFramer.ValidIffSealed | gnss_protocols/src/nmea_framer.cpp:86-122 | A line with a checksum mark is valid exactly when the two characters after the mark are hexadecimal digits of either case that spell the exclusive or of everything between leader and mark; otherwise it is invalid. |
| NmeaFramer.MissingWithoutMark | gnss_protocols/src/nmea_framer.cpp:86-122 | A line without a checksum mark is neither valid nor invalid. |
| NmeaFramer.ReportsAreDisjointSlices | gnss_protocols/src/nmea_framer.cpp:31-67 | Over any input the sentences are slices of the stream, in order and without overlap. |
| UbloxSession.ProbeAtOffset | gnss_driver/src/ublox_session.cpp:41-69 | Pushing bytes until the framer answers, or finalizing it. |
| UbloxSession.ProbeStable | gnss_driver/src/ublox_session.cpp:41-69 | An answer reached before the bytes ran out does not change when more bytes follow. |
| UbloxSession.StepProgress | gnss_driver/src/ublox_session.cpp:223-406 | Every step of the scan advances inside the buffer, except the one that keeps the tail; when finalizing no tail is kept. |
| UbloxSession.StepStable | gnss_driver/src/ublox_session.cpp:223-406 | A step that does not keep the tail is the same step when more bytes follow. |
| UbloxSession.DrainAppend | gnss_driver/src/ublox_session.cpp:164-181 | Bytes that arrive while the buffer is being drained can as well arrive afterwards. |
| UbloxSession.FeedJoin | gnss_driver/src/ublox_session.cpp:164-181 | Feeding two reads is feeding them joined. |
| UbloxSession.ChunkInvariance | gnss_driver/src/ublox_session.cpp:164-181 | However a stream is cut into reads, the session ends with the same leftover buffer, counters and records routed in the same order. |
| UbloxSession.FinishEmpties | gnss_driver/src/ublox_session.cpp:195-198 | Finalizing leaves the buffer empty. |
| UbloxSession.DrainBuilt | gnss_driver/src/ublox_session.cpp:312-358 | A buffer of built frames is drained into exactly those frames, in order, and counted. |
| UbloxSession.BuiltFramesAreRouted | gnss_driver/src/ublox_session.cpp:164-181 | Built UBX frames, cut into reads in any way, are all routed, in order, and leave nothing behind. |
| UbloxSession.RestartRescansLastByte | gnss_driver/src/ublox_session.cpp:312-358 | After a repeated sync byte the scan advances by the record size, so the last byte of the record is scanned again. |
| UbloxSession.FinishCountsTheTail | gnss_driver/src/ublox_session.cpp:195-198 | After any reads from an empty buffer, finalizing leaves runtime, bytes, NMEA, UBX and RTCM counters as they were, empties the buffer, and adds exactly one malformed frame if and only if the buffer was not empty. |
| UbloxSession.KeptTailIsDropped | gnss_driver/src/ublox_session.cpp:336-342 | The tail that a read keeps is dropped whole, as one malformed frame, when finalizing. |
| UbloxMixed.MixedStreamIsRouted | gnss_driver/src/ublox_session.cpp:145-181 | Whole UBX, RTCM and NMEA records with bytes between them that start none, in reads of any size: each is counted and, if valid, routed once, in order and with the time of its first byte, and nothing is left behind. |
| UbloxMixed.LoneSyncByte | gnss_driver/src/ublox_session.cpp:344-358 | A first UBX sync byte followed by neither sync byte is passed over silently. |
| UbloxMixed.BadPreamble | gnss_driver/src/ublox_session.cpp:360-406 | An RTCM preamble followed by a byte above 3, another preamble excepted, is one malformed frame. |
| UbloxMixed.OversizeUbx | gnss_driver/src/ublox_session.cpp:312-358 | A UBX header that declares more than the limit is one malformed frame, and one byte is passed. |
| UbloxMixed.OversizeRtcm | gnss_driver/src/ublox_session.cpp:360-406 | The same for an RTCM header. |
| UbloxMixed.OverlongNmea | gnss_driver/src/ublox_session.cpp:264-310 | A leader followed by as many bytes as the limit without leader or line feed is one malformed sentence. |
| UbloxSlices.StepIsExactIffWhole | gnss_driver/src/ublox_session.cpp:266-406 | A record step never moves past what it probed, and moves past all of it exactly when the bytes say that the record starts where the probe did: second sync byte or length byte in place and nothing recovered from inside, or no second leader before the line feed. |
| UbloxSlices.UbxProbe | gnss_driver/src/ublox_session.cpp:41-69 | What probing a UBX frame answers, by its declared size alone: the report once the whole frame is there and fits, and no record otherwise. |
| UbloxSlices.RtcmProbe | gnss_driver/src/ublox_session.cpp:41-69 | The same for an RTCM frame. |
| UbloxSlices.NmeaProbe | gnss_driver/src/ublox_session.cpp:41-69 | A sentence ends at the first line feed, and it is everything probed exactly when no leader came in between. |
| UbloxSlices.NothingRescannedIffRecordsWhole | gnss_driver/src/ublox_session.cpp:223-264 | Over a whole scan no byte probed for a record is scanned again if and only if every record found starts where its probe did. |
| UbloxSlices.PlacesAreSlices | gnss_driver/src/ublox_session.cpp:223-406 | Everything a scan finds is a slice of the stream with its own time, found in scan order; all records start where their probes did exactly when the condition on the bytes holds at every step. |
| UbloxSlices.PlacesOverlapIff | gnss_driver/src/ublox_session.cpp:223-406 | The slices are disjoint exactly when no later record starts among the bytes of one that does not start where its probe did; so they are if every record does. |
| UbloxSlices.DrainRoutesPlaces | gnss_driver/src/ublox_session.cpp:223-406 | What a scan routes and counts is what it finds: each place once, in order. |
| UbloxSlices.RoutedSlices | gnss_driver/src/ublox_session.cpp:145-181 | However a stream is cut into reads, the session routes the valid ones of the slices that one scan of the whole finds; they are disjoint exactly under the same condition. |
| UbloxSlices.RecoveredFrameIsRoutedTwice | gnss_driver/src/ublox_session.cpp:312-358 | A frame recovered at an offset of at least its own size is routed once as recovered and once more when the scan gets to it. |
| UbloxSlices.NestedFrameIsRoutedTwice | gnss_driver/src/ublox_session.cpp:312-358 | Eighteen concrete bytes, an outer frame with a wrong checksum around a valid one, for which that happens. |
| UbloxSession.UbloxSession.FeedBytes | gnss_driver/src/ublox_session.cpp:164-181 | The method on the mutable buffer is the feed function. |
| UbloxSession.UbloxSession.Finalize | gnss_driver/src/ublox_session.cpp:195-198 | The method drains everything. |
| UbloxSession.UbloxSession.Reset | gnss_driver/src/ublox_session.cpp:200-206 | Back to a fresh session. |
| UbloxSession.UbloxSession.ProcessBufferedData | gnss_driver/src/ublox_session.cpp:223-262 | The offset loop and the final erase drain the buffer. |
| UbloxSession.UbloxSession.ConsumeAtOffset | gnss_driver/src/ublox_session.cpp:231-252 | The dispatch on the byte at the offset. |
| UbloxSession.UbloxSession.ConsumeNmeaAtOffset | gnss_driver/src/ublox_session.cpp:264-310 | One NMEA step: counters, routing, next offset. |
| UbloxSession.UbloxSession.ConsumeUbxAtOffset | gnss_driver/src/ublox_session.cpp:312-358 | One UBX step. |
| UbloxSession.UbloxSession.ConsumeRtcmAtOffset | gnss_driver/src/ublox_session.cpp:360-406 | One RTCM step. |
| NmeaSession.FeedJoin | gnss_driver/src/nmea_session.cpp:119-133 | Feeding two reads is feeding them joined. |
| NmeaSession.SessionFollowsFramer | gnss_driver/src/nmea_session.cpp:119-202 | One read counts its bytes and every sentence the framer reported, routes the valid ones in order, and counts the others and the lines given up as malformed. |
| NmeaSession.FinishCountsWhatIsHeld | gnss_driver/src/nmea_session.cpp:147-150 | Finalizing drops what is held and counts it as one malformed sentence, and nothing else. |
| NmeaSession.NmeaSession.FeedBytes | gnss_driver/src/nmea_session.cpp:119-133 | The loop over a real framer object is the feed function. |
| NmeaSession.NmeaSession.HandleFramerResult | gnss_driver/src/nmea_session.cpp:175-202 | Counters and routing of one framer answer. |
| NmeaSession.NmeaSession.Finalize | gnss_driver/src/nmea_session.cpp:147-150 | Finishes the framer and counts a truncation. |
| NmeaSession.NmeaSession.Reset | gnss_driver/src/nmea_session.cpp:152-158 | Back to a fresh session. |
| StreamDetector.DetectWithFramer | gnss_driver/src/stream_detector.cpp:39-64 | The first accepted record with the bytes pushed for it and its length, or none. |
| StreamDetector.Detect | gnss_driver/src/stream_detector.cpp:85-137 | The five framers asked in order, the earliest candidate kept. |
| StreamDetector.FoundIffAccepted | gnss_driver/src/stream_detector.cpp:39-64 | A framer finds something exactly when one of the records of its whole run is accepted. |
| StreamDetector.FirstAcceptedAppend | gnss_driver/src/stream_detector.cpp:39-64 | What is found stays found when bytes are appended, and what is found later needs the later bytes. |
| StreamDetector.DetectedIsEarliest | gnss_driver/src/stream_detector.cpp:85-137 | The answer is the earliest accepted record over all five framers, the first asked among equals, and unknown exactly if there is none. |
| StreamDetector.PrefixStable | gnss_driver/src/stream_detector.cpp:85-137 | Once a protocol is named, appending any bytes leaves protocol, consumed count and frame length unchanged. |
| StreamDetector.FoundLater | gnss_driver/src/stream_detector.cpp:85-137 | A protocol named only after more bytes came is named on a record that ends in those bytes. |
| StreamDetector.KnownIffSomeFramerAccepts | gnss_driver/src/stream_detector.cpp:85-137 | The answer is unknown if and only if none of the five runs holds an accepted record. |
| StreamDetector.BuiltFrameIsDetected | gnss_driver/src/stream_detector.cpp:101-106 | A built UBX frame at the front is never left undetected, and detection needs no more than it. |
| DetectorAnswers.UbxAnswer | gnss_driver/src/stream_detector.cpp:101-106 | A built UBX frame of up to 4096 bytes without bytes that start another record is detected as UBX, at its last byte. |
| DetectorAnswers.RtcmAnswer | gnss_driver/src/stream_detector.cpp:108-113 | The same for any RTCM frame the standard allows. |
| DetectorAnswers.BinaryAnswer | gnss_driver/src/stream_detector.cpp:124-134 | The same for a Unicore binary frame of up to 65536 bytes. |
| DetectorAnswers.NmeaAcceptedIff | gnss_driver/src/stream_detector.cpp:93-98 | The test of a sentence: its text does not start with a comma and its checksum matches or is missing. |
| DetectorAnswers.NmeaAnswer | gnss_driver/src/stream_detector.cpp:93-99 | A line of up to 512 bytes is detected as NMEA, at its last byte, exactly when it passes that test; a longer one is not detected. |
| DetectorAnswers.AsciiAnswer | gnss_driver/src/stream_detector.cpp:115-122 | A line of up to 2048 bytes that starts with a hash is detected as Unicore text exactly when its checksum is valid, its name is a verified one and its parser accepts it. |
| ReceiverSession.DetectVendorCandidate | gnss_driver/src/receiver_session.cpp:42-66 | The vendor loop finds the first accepted record. |
| ReceiverSession.ReplayIsFeed | gnss_driver/src/receiver_session.cpp:261-273 | Replaying the buffer byte by byte leaves the u-blox and the NMEA child as one call with all the bytes would. |
| ReceiverSession.SelectionIsLocked | gnss_driver/src/receiver_session.cpp:98-127 | Over any reads and ends of input a selected kind stays, and no switch is ever counted. |
| ReceiverSession.ChildSeesOneSuffix | gnss_driver/src/receiver_session.cpp:98-127 | After any reads either the last bytes up to the limit are buffered and all children are fresh, or there is the one read that selected, and the one child is as a fresh session fed the last bytes up to the limit (or all) of what came before that read, and every byte from that read on. |
| ReceiverSession.BuiltSessionFeedsOneSuffix | gnss_driver/src/receiver_session.cpp:91-127 | The same from a session as built; with a configured kind its child is fed the whole stream. |
| ReceiverSession.EndFinishesOneSuffix | gnss_driver/src/receiver_session.cpp:141-170 | At the end of input a selected child is finished; otherwise a last choice on the buffer feeds the end of the stream to the chosen child and finishes it, or nothing is kept. |
| ReceiverSession.SelectFeedsSuffix | gnss_driver/src/receiver_session.cpp:261-284 | The selecting call itself. |
| ReceiverAnswers.FirstRead | gnss_driver/src/receiver_session.cpp:98-127 | The first read of a session that detects selects what is chosen on that read and feeds it to the child, or keeps its end. |
| ReceiverAnswers.UbxSelects | gnss_driver/src/receiver_session.cpp:300-326 | A UBX frame selects the u-blox session, which is fed exactly that frame. |
| ReceiverAnswers.UnicoreSelects | gnss_driver/src/receiver_session.cpp:300-326 | A Unicore binary frame selects the Unicore session, which is fed its bytes one by one. |
| ReceiverAnswers.RtcmSelectsNothing | gnss_driver/src/receiver_session.cpp:300-380 | An RTCM frame selects no session; its end stays buffered. |
| ReceiverAnswers.NmeaSelectsIfAllowed | gnss_driver/src/receiver_session.cpp:300-380 | A line that the detector takes for NMEA selects the NMEA session if and only if that is allowed. |
| ReceiverSession.ReceiverSession.FeedBytes | gnss_driver/src/receiver_session.cpp:98-127 | The method on the mutable fields is the feed function. |
| ReceiverSession.ReceiverSession.TrySelectSessionFromPendingBytes | gnss_driver/src/receiver_session.cpp:300-380 | A verified vendor record decides; failing that, one kind of vendor record without the other; failing both, NMEA if allowed. |
| ReceiverSession.ReceiverSession.RouteBufferedBytesToSelectedSession | gnss_driver/src/receiver_session.cpp:261-273 | The replay loop. |
| ReceiverSession.ReceiverSession.RouteToSelectedSession | gnss_driver/src/receiver_session.cpp:239-259 | Feeds the selected child and no other. |
| ReceiverSession.ReceiverSession.AppendPendingBytes | gnss_driver/src/receiver_session.cpp:275-284 | The buffer grows by the read, each byte with its time. |
| ReceiverSession.ReceiverSession.TrimPendingBytesIfNeeded | gnss_driver/src/receiver_session.cpp:286-298 | Keeps the last bytes up to the limit. |
| ReceiverSession.ReceiverSession.SelectSession | gnss_driver/src/receiver_session.cpp:382-395 | Selects once; a different later choice would only be counted. |
| ReceiverSession.ReceiverSession.Finalize | gnss_driver/src/receiver_session.cpp:141-170 | The method is the finish function. |
| ReceiverSession.ReceiverSession.Reset | gnss_driver/src/receiver_session.cpp:172-180 | Back to a fresh session, with the configured selection. |
| ReceiverCuts.VerifiedChoiceStays | gnss_driver/src/receiver_session.cpp:300-326 | A choice made on a verified record never disagrees with the choice on the whole stream. |
| ReceiverCuts.CutChangesTheVendor | gnss_driver/src/receiver_session.cpp:300-380 | A concrete stream that selects Unicore when read in two parts and u-blox when read at once. |
| ReceiverCuts.CutChangesNmeaToUblox | gnss_driver/src/receiver_session.cpp:300-380 | A concrete stream without any Unicore byte that selects generic NMEA when read in two parts and u-blox when read at once. |
| ReceiverCuts.SelectionDependsOnCutIff | gnss_driver/src/receiver_session.cpp:300-380 | For a stream that fits the detection buffer the selected kind depends on how it was cut exactly when one of four guards holds of where the first detected, the first valid UBX and the first Unicore record end. |
| ReceiverCuts.CutsAgreeIffWindowsAgree | gnss_driver/src/receiver_session.cpp:245-380 | For every stream, however long, the selected kind does not depend on the cut if and only if nothing that some reads make the session look at leads to another choice and none misses the choice; what is chosen there is told by where the first records end. |
| ReceiverCuts.ChosenByEnds | gnss_driver/src/receiver_session.cpp:300-380 | What is chosen on any prefix follows from those positions alone. |
| ReceiverCuts.ChoicesAgreeIff | gnss_driver/src/receiver_session.cpp:300-380 | The guards are exact: some prefix is chosen differently from the whole if and only if one of them holds. |
| ReceiverCommand.ReceiverCommandDispatcher.Dispatch | gnss_driver/src/receiver_command_dispatcher.cpp:50-114 | Whatever the sink does, the result is one a dispatch may give, the wire grows by exactly the counted prefix of the payload, and the counters agree. |
| ReceiverCommand.DispatcherAccounts | gnss_driver/src/receiver_command_dispatcher.cpp:50-114 | Over any dispatches the byte counter is the length of the wire and the outcome counters add up to the attempts. |
| ReceiverCommand.BuiltCommandIdentity | gnss_driver/src/ubx_command_response_mapper.cpp:40-64 | A command that carries a built UBX frame is identified by the class and id of its message. |
| TransactionEngine.ReceiverCommandTransactionEngine.StartTransaction | gnss_driver/src/receiver_command_transaction_engine.cpp:43-98 | Refusals, dispatch, failure with quarantine after a partial write, and immediate completion. |
| TransactionEngine.ReceiverCommandTransactionEngine.ApplyResponse | gnss_driver/src/receiver_command_transaction_engine.cpp:100-161 | A reply is accepted only in flight, of an applicable kind and matching target, and then completes the transaction. |
| TransactionEngine.ReceiverCommandTransactionEngine.MarkTimeout | gnss_driver/src/receiver_command_transaction_engine.cpp:163-182 | A transaction in flight times out and quarantines the session. |
| TransactionEngine.ReceiverCommandTransactionEngine.CheckTimeout | gnss_driver/src/receiver_command_transaction_engine.cpp:184-206 | The same once its deadline has passed. |
| TransactionEngine.ReceiverCommandTransactionEngine.RetryPending | gnss_driver/src/receiver_command_transaction_engine.cpp:208-247 | A retry dispatches again where one is available. |
| TransactionEngine.ReceiverCommandTransactionEngine.Reset | gnss_driver/src/receiver_command_transaction_engine.cpp:249-267 | Quarantines a transaction in flight, clears anything else, and never leaves quarantine. |
| CommandRuns.RunsAreOrderly | gnss_driver/src/receiver_command_transaction_engine.cpp:43-267 | In every run: outside quarantine nothing partial is on the wire and the only reply under way is that of the command in flight. |
| CommandRuns.AcceptedRepliesAreAttributed | gnss_driver/src/receiver_command_transaction_engine.cpp:100-161 | If the receiver sends at most one reply for each completely written command that asks for one, every accepted reply was caused by the command it completes, timeouts and resets included. |
| CommandRuns.SecondReplyCanBeMisattributed | gnss_driver/src/receiver_command_transaction_engine.cpp:327-348 | The limit of one reply is needed: a duplicate reply can complete the next command. |
| CommandRuns.WireIsWholePayloadsThenOnePrefix | gnss_driver/src/receiver_command_transaction_engine.cpp:43-98 | The wire is the whole payloads of the dispatched commands in order and at most one prefix of the last, and such a prefix means quarantine. |
| CommandRuns.QuarantineIsFinal | gnss_driver/src/receiver_command_transaction_engine.cpp:301-308 | In quarantine no event dispatches, accepts a reply or leaves quarantine. |
| CommandRuns.QuarantineLasts | gnss_driver/src/receiver_command_transaction_engine.cpp:249-267 | Nothing is written after quarantine, over any further events. |
| CommandRuns.RetryNeverDispatches | gnss_driver/src/receiver_command_transaction_engine.cpp:208-247 | No reachable engine dispatches from a retry. |
| CommandRuns.OneDispatchForEachStart | gnss_driver/src/receiver_command_transaction_engine.cpp:43-98 | Every dispatch belongs to its own start, in the order of the calls. |
| CommandReplies.IdentityIsAddress | gnss_driver/src/ubx_command_response_mapper.cpp:40-64 | A command has an identity exactly when its bytes are one UBX frame of that class and id, whatever its checksum. |
| CommandReplies.ReplyCompletesIff | gnss_driver/src/receiver_command_transaction_engine.cpp:100-161 | A reply completes the command in flight if and only if it is an answer and, where targets are verified and it names one, the bytes of the command are a frame with that class and id, or no frame. |
| CommandReplies.BuiltFrameReply | gnss_driver/src/receiver_command_transaction_engine.cpp:327-348 | With a built frame in flight a reply that names a target completes it if and only if the target is the class and id of the message; one without a target always does. |
| CommandReplies.RunReplyCompletesIff | gnss_driver/src/receiver_command_transaction_engine.cpp:100-161 | The same in every run: the command in flight is the last one dispatched, and the reply that arrives completes it under exactly that condition. |
| CommandReplies.ReplyOutcome | gnss_driver/src/receiver_command_transaction_engine.cpp:100-161 | What a reply leaves behind: the transaction completed, acknowledged or rejected, or nothing but one more unmatched reply. |
| CommandReplies.RefusedIff | gnss_driver/src/receiver_command_dispatcher.cpp:50-114 | What a dispatch refuses, and that a refused one writes nothing and a sent one everything. |
| CommandReplies.OnlyApprovedReachTheWire | gnss_driver/src/receiver_command_dispatcher.cpp:50-114 | In every run whatever put bytes on the wire was for the session only or had been confirmed. |
| CommandReplies.SentAtLastDispatch | gnss_driver/src/receiver_command_transaction_engine.cpp:82-84 | In every run the time kept for the command in flight is that of the last start that dispatched. |
| CommandReplies.TimesOutAtItsDeadline | gnss_driver/src/receiver_command_transaction_engine.cpp:22-33 | In every run a timeout check quarantines the session exactly when the command was sent at a known time that lies its timeout or more, in nanoseconds, before now; otherwise it changes nothing. |
| CommandReplies.CountersAddUp | gnss_driver/src/receiver_command_transaction_engine.cpp:43-267 | In every run each command created was dispatched or failed to be, each dispatched one was acknowledged, rejected, timed out or is in flight, and quarantine was entered at most once. |
| ConfigApplication.ReceiverConfigApplication.Start | gnss_driver/src/receiver_config_application.cpp:27-54 | Loads the list, clears the last run and steps. |
| ConfigApplication.ReceiverConfigApplication.Step | gnss_driver/src/receiver_config_application.cpp:56-115 | Starts the next command, skips on immediate completion, fails or continues. |
| ConfigApplication.ReceiverConfigApplication.ApplyResponse | gnss_driver/src/receiver_config_application.cpp:117-157 | An accepted reply completes the command in hand. |
| ConfigApplication.ReceiverConfigApplication.MarkTimeout | gnss_driver/src/receiver_config_application.cpp:158-162 | Acts on whatever the engine times out. |
| ConfigApplication.ReceiverConfigApplication.CheckTimeout | gnss_driver/src/receiver_config_application.cpp:164-168 | The same with a deadline. |
| ConfigApplication.ReceiverConfigApplication.CompleteCurrentCommand | gnss_driver/src/receiver_config_application.cpp:224-290 | Counts, and advances, completes or fails the run. |
| ConfigRuns.RunsAreSound | gnss_driver/src/receiver_config_application.cpp:27-325 | The invariant of every run, stale timeouts included: list order, outcomes, an orderly engine, and agreeing counters unless a stale timeout was charged. |
| ConfigRuns.CommandsGoOutInOrder | gnss_driver/src/receiver_config_application.cpp:56-115 | In every run commands reach the wire in list order, each at most once. |
| ConfigRuns.CompletedMeansAcknowledged | gnss_driver/src/receiver_config_application.cpp:224-290 | In every run that completes without continuing on errors every required command was acknowledged. |
| ConfigCauses.AcknowledgementsAreCaused | gnss_driver/src/receiver_config_application.cpp:56-157 | In every run each acknowledgement on record goes back to a dispatch of that very list entry in the current run, which put the whole command on the wire. |
| ConfigCauses.AcceptedReplyIsToItsEntry | gnss_driver/src/receiver_config_application.cpp:117-146 | An accepted reply, positive or not, was caused by the dispatch of the list entry it finishes. |
| ConfigCauses.CompletedMeansCaused | gnss_driver/src/receiver_config_application.cpp:56-290 | When a run completes without continuing on errors every required command was dispatched whole and acknowledged because of that dispatch. |
| ConfigRuns.CountersAgreeIffNotAstray | gnss_driver/src/receiver_config_application.cpp:224-290 | In every run the counters agree with the record exactly when the current list was not charged with the timeout of an earlier command. |
| ConfigRuns.ResetThenMarkTimeoutStrays | gnss_driver/src/receiver_config_application.cpp:158-172 | A waiting command, a reset and a marked timeout: a list without commands then counts a failed one. |
| ConfigRuns.AstrayStays | gnss_driver/src/receiver_config_application.cpp:158-325 | Nothing but a reset or a new start changes the counters of such a run. |
| ConfigRuns.TimeoutAlwaysFails | gnss_driver/src/receiver_config_application.cpp:302-325 | A timeout that takes effect always ends in failure. |
| ConfigRuns.MarkTimeoutCountsIffNotStale | gnss_driver/src/receiver_config_application.cpp:158-162 | Marking a timeout keeps the accounting exactly when the engine slot is not a stale one left by a reset. |
| ConfigRuns.RemainingDecreases | gnss_driver/src/receiver_config_application.cpp:56-157 | What is left to do never grows and shrinks with every step and every finished command. |
| ConfigReplies.PositiveAnswer | gnss_driver/src/receiver_config_application.cpp:224-290 | A positive answer completes the command waited for and moves one command on. |
| ConfigReplies.NegativeAnswer | gnss_driver/src/receiver_config_application.cpp:224-290 | A negative answer moves on if and only if errors are passed over in general or by the command itself, and otherwise fails the run there; it is counted by that policy. |
| ConfigReplies.TimedOutAnswer | gnss_driver/src/receiver_config_application.cpp:302-325 | A timeout fails the run at its command, whatever may be passed over. |
| ConfigReplies.NoAnswer | gnss_driver/src/receiver_config_application.cpp:117-157 | A reply that is no answer leaves the run where it is. |
| UbxCfgBuilder.BuildValsetLayerMask | gnss_protocols/src/ubx_cfg_builder.cpp:124-145 | The mask has a bit for each layer that can be written, however often it is listed. |
| UbxCfgBuilder.BuildUbxCfgValsetFrame | gnss_protocols/src/ubx_cfg_builder.cpp:275-310 | Refuses a list that is too long, an empty layer set and a value that does not match its key, in this order; otherwise, for an empty list too, builds payload and frame. |
| UbxCfgBuilder.ReadBack | gnss_protocols/src/ubx_cfg_builder.cpp:52-99 | A value written in little-endian bytes reads back modulo its width. |
| UbxCfgBuilder.DecodeAll | gnss_protocols/src/ubx_cfg_builder.cpp:81-99 | Decoding by the size codes in the keys alone returns every key and raw value in order. |
| UbxCfgBuilder.ValsetRoundTrip | gnss_protocols/src/ubx_cfg_builder.cpp:275-310 | The frame of an accepted request, framed byte by byte and decoded by its keys, gives back the layer mask, the transaction and every key and value in order. |
| UbxCfgBuilder.EveryValsetFits | gnss_protocols/src/ubx_cfg_builder.cpp:275-310 | No accepted request makes a frame of more than 524 bytes. |
| UbxCfgBuilder.PayloadDeterminesRequest | gnss_protocols/src/ubx_cfg_builder.cpp:275-310 | Equal payloads come from requests for the same layers, keys and values. |
| UbxCfgBuilder.SignedSurvives | gnss_protocols/src/ubx_cfg_builder.cpp:81-99 | A signed value survives its unsigned encoding. |
| UbxCfgWire.MaskBits | gnss_protocols/src/ubx_cfg_builder.cpp:101-122 | Bit 0 of the mask is RAM, bit 1 battery-backed RAM, bit 2 flash, and the default layer has none. |
| UbxCfgWire.MatchesIffStorage | gnss_protocols/src/ubx_cfg_builder.cpp:41-65 | A value matches its key exactly when bits 28 to 30 of the key announce its width; it is written in that many bits, or one byte for a single bit. |
| UbxCfgWire.AcceptedIff | gnss_protocols/src/ubx_cfg_builder.cpp:275-310 | The tests of the builder together: at most 64 items, a layer that can be written, and every value as wide as its key announces. |
| UbxCfgWire.FrameStarts | gnss_protocols/src/ubx_cfg_builder.cpp:155-172 | Sync bytes, class 06, id 8A and length, then version 1, mask, transaction and a zero. |
| UbxCfgWire.TransactionCodes | gnss_protocols/src/ubx_cfg_builder.cpp:275-310 | The transaction byte: none 0, start 1, ongoing 2, apply 3. |
| UbxCfgWire.FourBytes | gnss_protocols/src/ubx_cfg_builder.cpp:67-79 | The little-endian bytes of a number. |
| UbxCfgWire.BaudRequest | gnss_protocols/src/ubx_cfg_builder.cpp:275-310 | One request written out byte by byte: UART1 at 921600 baud for RAM and battery-backed RAM. |
| RtcmBits.ShiftedBit | gnss_protocols/src/rtcm_parser.cpp:40-47 | Shifting a payload byte and masking picks exactly the addressed bit of the payload. |
| RtcmBits.ReadRtcmUnsignedBits | gnss_protocols/src/rtcm_parser.cpp:24-50 | Fails exactly for a width outside 1..64 or past the end; otherwise the number in those bits. |
| RtcmBits.JoinedRead | gnss_protocols/src/rtcm_parser.cpp:24-50 | Reading a+b bits is reading a bits, then b bits, and writing them side by side; it succeeds exactly when the second read does. |
| RtcmBits.ReadRtcmSignedBits | gnss_protocols/src/rtcm_parser.cpp:52-75 | Sign extension in 64 bits is two's complement. |
| RtcmBits.TwosComplementFacts | gnss_protocols/src/rtcm_parser.cpp:65-74 | Range of a two's-complement field and its relation to the unsigned one. |
| RtcmBits.CountSetBits | gnss_protocols/src/rtcm_parser.cpp:77-86 | The loop counts the ones of a number. |
| RtcmBits.PopCountOfValue | gnss_protocols/src/rtcm_parser.cpp:77-86 | Counting the ones of a number that was read is counting the set bits it was read from. |
| RtcmBits.CountSetBitsInRange | gnss_protocols/src/rtcm_parser.cpp:88-111 | Counts the set bits of a range, or fails past the end. |
| RtcmBits.BitReader.Unsigned | gnss_protocols/src/rtcm_parser.cpp:252-259 | The cursor moves exactly over a successful read. |
| RtcmBits.BitReader.Signed | gnss_protocols/src/rtcm_parser.cpp:260-267 | The same for signed reads. |
| RtcmParser.KindsAreDisjoint | gnss_protocols/src/rtcm_parser.cpp:161-217 | The message kinds never overlap, and MSM types lie in 1071..1137 with variants 1..7. |
| RtcmParser.TypeIsFirstTwelveBits | gnss_protocols/src/rtcm_parser.cpp:140-149 | The two ways of finding the message type agree. |
| RtcmParser.ParseRtcmBaseStationArp | gnss_protocols/src/rtcm_parser.cpp:238-321 | The reads in order through the cursor. |
| RtcmParser.ReadCommonFields | gnss_protocols/src/rtcm_parser.cpp:270-317 | The thirteen reads that both message types share leave the cursor behind the common part. |
| RtcmParser.ArpAcceptedIffLongEnough | gnss_protocols/src/rtcm_parser.cpp:238-321 | A valid 1005 or 1006 frame is accepted exactly when it has 152 or 168 bits, so the guard makes every later read succeed, and its fields are the bits at their fixed places. |
| RtcmParser.ParseRtcmMsmSummary | gnss_protocols/src/rtcm_parser.cpp:487-575 | The header reads, the mask product test, the cell count and the body test in order. |
| RtcmParser.ReadHeaderFields | gnss_protocols/src/rtcm_parser.cpp:500-530 | The header reads leave the cursor at the cell mask. |
| RtcmParser.MsmAcceptedIffItFits | gnss_protocols/src/rtcm_parser.cpp:487-575 | A valid MSM frame is accepted exactly when the mask product is at most 64 and header, mask and body fit; the counts are those of its own bits and there are at most satellites times signals cells. |
| RtcmParser.KnownVariantHasBody | gnss_protocols/src/rtcm_parser.cpp:113-136 | Every MSM type has a body size, at most 36 bits for a satellite and 80 for a cell. |
| RtcmParser.ConstellationRanges | gnss_protocols/src/rtcm_parser.cpp:176-202 | Seven message types for each of seven constellations, by literal ranges. |
| RtcmParser.BodyIsSumOfFields | gnss_protocols/src/rtcm_parser.cpp:113-136 | The tabulated body size is the sum of the fields that each satellite and each cell carries in that variant. |
| RtcmFields.ByteParts | gnss_protocols/src/rtcm_parser.cpp:24-50 | Fields inside one byte as quotients and remainders of it. |
| RtcmFields.Signed38Field | gnss_protocols/src/rtcm_parser.cpp:52-75 | A 38-bit field from bit 2 of a byte on, as a number made of that byte and the four behind it. |
| RtcmFields.CommonFieldsByBytes | gnss_protocols/src/rtcm_parser.cpp:270-317 | Every field of a station position as a number made of bytes. |
| RtcmFields.ArpIsItsBytes | gnss_protocols/src/rtcm_parser.cpp:238-321 | A valid 1005 or 1006 frame is accepted exactly from 19 or 21 bytes on, and every field of it is a stated function of its bytes, lengths in ten-thousandths of a metre; no bit reader in the statement. |
| RtcmFields.SampleSays | gnss_protocols/src/rtcm_parser.cpp:238-321 | The sample frame, framed and parsed, is station 2003 at (1114104.5999, -4850729.7108, 3975521.4643) metres. |
| TimestampWindow.AppendTimestamp | gnss_protocols/src/rtcm_correction_monitor.cpp:34-53 | Insertion and pruning behind the latest timestamp. |
| TimestampWindow.CountTimestampsInWindow | gnss_protocols/src/rtcm_correction_monitor.cpp:55-65 | The distance of the two bounds is the number of timestamps in the window. |
| TimestampWindow.ComputeRateHz | gnss_protocols/src/rtcm_correction_monitor.cpp:67-86 | No rate for an empty set or a window outside the retention; otherwise count over seconds. |
| TimestampWindow.RetainedFacts | gnss_protocols/src/rtcm_correction_monitor.cpp:34-53 | The retained set is sorted and always holds the latest timestamp. |
| TimestampWindow.RetainedCount | gnss_protocols/src/rtcm_correction_monitor.cpp:34-53 | For out-of-order arrivals too, the retained set has in every window exactly the timestamps of the whole history that are no older than the latest minus the retention. |
| TimestampWindow.RetainedMultiset | gnss_protocols/src/rtcm_correction_monitor.cpp:34-53 | The same as multisets. The latest is the maximum of the history, whatever the order of arrival. |
| TimestampWindow.WindowAgreesWithHistory | gnss_protocols/src/rtcm_correction_monitor.cpp:55-65 | A window inside the retained range has the same count as the unpruned history. |
| TimestampWindow.WindowAgreesIff | gnss_protocols/src/rtcm_correction_monitor.cpp:55-65 | For any window the counts agree exactly when it holds nothing of the history older than the retained range. |
| CorrectionMonitor.RtcmCorrectionMonitor.ObserveFrame | gnss_protocols/src/rtcm_correction_monitor.cpp:436-626 | Decoding, ownership, counting and recording in the order of the source. |
| CorrectionMonitor.RtcmCorrectionMonitor.ObserveInvalidFrame | gnss_protocols/src/rtcm_correction_monitor.cpp:641-647 | Counts an invalid frame. |
| CorrectionMonitor.RtcmCorrectionMonitor.ResetDynamicState | gnss_protocols/src/rtcm_correction_monitor.cpp:324-434 | Keeps only decoded, owned station metadata and its counters. |
| CorrectionMonitor.RtcmCorrectionMonitor.Reset | gnss_protocols/src/rtcm_correction_monitor.cpp:278-322 | Back to the initial state. |
| CorrectionMonitor.RtcmCorrectionMonitor.PrepareStationOwnership | gnss_protocols/src/rtcm_correction_monitor.cpp:1161-1189 | Resets on a change of owner or on unowned records of another station, and takes ownership. |
| CorrectionMonitor.RtcmCorrectionMonitor.RecordDecodedMessage | gnss_protocols/src/rtcm_correction_monitor.cpp:533-619 | Decode counters and records; a record of another station is counted but not kept. |
| CorrectionMonitor.RtcmCorrectionMonitor.RecordValidFrameMessage | gnss_protocols/src/rtcm_correction_monitor.cpp:1100-1143 | Counters by message type and constellation. |
| CorrectionMonitor.RtcmCorrectionMonitor.RecordSemanticMessage | gnss_protocols/src/rtcm_correction_monitor.cpp:1145-1159 | Counters of accepted messages. |
| CorrectionMonitor.RtcmCorrectionMonitor.HasRequiredCorrectionMessages | gnss_protocols/src/rtcm_correction_monitor.cpp:918-1012 | The loops over the requirements decide the predicate that states them all. |
| CorrectionRuns.RecordsShareTheOwner | gnss_protocols/src/rtcm_correction_monitor.cpp:436-626 | In every run all decoded records held under an owner carry that owner's station, and without an owner there is no position, descriptor or evidence. |
| CorrectionRuns.RunEvidence | gnss_protocols/src/rtcm_correction_monitor.cpp:436-626 | In every run the semantic counters are the tally of a subsequence of the observed frames, all decoded to the owner's station. |
| CorrectionRuns.RequirementsComeFromOneStation | gnss_protocols/src/rtcm_correction_monitor.cpp:918-1012 | Whenever the requirements are satisfied, there is one station such that observed frames of that station show every one of them. Each of those frames was observed in the run. |
| CorrectionRuns.AcceptedIffStation | gnss_protocols/src/rtcm_correction_monitor.cpp:499-536 | A frame counts as evidence exactly when its station is known. |
| CorrectionRuns.StaticTally | gnss_protocols/src/rtcm_correction_monitor.cpp:324-434 | Keeping the static counters is tallying the static frames. |
| CorrectionRuns.CountersReachBack | gnss_protocols/src/rtcm_correction_monitor.cpp:436-626 | Total, valid and invalid counters and all four kinds of arrival windows are those of the events since the last restart. |
| CorrectionRuns.SinceIsTheLastRestart | gnss_protocols/src/rtcm_correction_monitor.cpp:324-434 | That position is the start of the run, just behind a reset, or a frame that changed the owner, and nothing from there on resets or changes the owner again. |
| CorrectionRuns.RateSeesRecentHistory | gnss_protocols/src/rtcm_correction_monitor.cpp:1058-1098 | The windows of all frames, of valid frames, of each message type and of each constellation count as the unpruned arrivals since the last restart would. |
| CorrectionRuns.HoldsTheLastMinute | gnss_protocols/src/rtcm_correction_monitor.cpp:34-53 | Each window holds exactly the times since the last restart that are at most sixty seconds older than the latest of them, each as often as it arrived. |
| CorrectionRequirements.SatisfiedIff | gnss_protocols/src/rtcm_correction_monitor.cpp:918-1012 | In every run the requirements are satisfied if and only if a valid frame came since the last restart and the frames of the owner that no reset dropped meet each of them, where a frame is current when it is no later than now and one of its kind is at most the window older. |
| CorrectionRequirements.RequiredIffMet | gnss_protocols/src/rtcm_correction_monitor.cpp:918-1012 | The same for any state whose counters tally some frames. |
| CorrectionRequirements.TallySummarises | gnss_protocols/src/rtcm_correction_monitor.cpp:1145-1159 | A counter of a message type or constellation exists exactly when such a frame was seen, and carries the latest known time of one. |
| CorrectionRequirements.ActiveIffCurrent | gnss_protocols/src/rtcm_correction_monitor.cpp:105-128 | The activity test on a counter is exactly the condition on the times of the frames. |
| CorrectionRequirements.OneStationsFrames | gnss_protocols/src/rtcm_correction_monitor.cpp:436-626 | If every frame is from one station, the evidence is every frame, and that station owns it. |
| GgaSentence.FormatFixedTrimmed | gnss_ntrip/src/gga_sentence_builder.cpp:30-52 | Fixed-point text with trailing zeros and a bare point removed. |
| GgaSentence.FormatCoordinate | gnss_ntrip/src/gga_sentence_builder.cpp:54-101 | Degrees and minutes with the carry at sixty minutes; refuses exactly what is out of range. |
| GgaSentence.CarryStaysInRange | gnss_ntrip/src/gga_sentence_builder.cpp:68-87 | Inside the range the carry never leads past the last degree. |
| GgaRoundTrip.HdopReads | gnss_ntrip/src/gga_sentence_builder.cpp:111-119 | The printed HDOP reads back within 0.005, and as absent when it was missing or negative. |
| GgaRoundTrip.AltitudeReads | gnss_ntrip/src/gga_sentence_builder.cpp:121-129 | The printed altitude reads back within 0.0005, and as absent when it was missing. |
| GgaSentence.FormatUtcTime | gnss_ntrip/src/gga_sentence_builder.cpp:131-166 | Time with the carries at sixty seconds, sixty minutes and 24 hours. |
| GgaRoundTrip.QualityTable | gnss_ntrip/src/gga_sentence_builder.cpp:197-226 | Which states get which quality: fixed beats float, both beat dead reckoning, and no fix beats all. |
| GgaRoundTrip.QualityPrintsAgainIff | gnss_protocols/src/nmea_parser.cpp:1158-1198 | A quality that was printed, parsed and taken up as runtime state prints as itself again exactly unless it is the estimated one, which becomes a plain fix. |
| GgaSentence.BuildNmeaGgaSentence | gnss_ntrip/src/gga_sentence_builder.cpp:228-276 | The refusals in order, and the fifteen fields. |
| NmeaParser.TokenizeCsv | gnss_protocols/src/nmea_parser.cpp:26-63 | The fields between the commas, or failure if there are too many. |
| CNumber.PlainDouble | gnss_protocols/src/nmea_parser.cpp:65-83 | Text of digits and points only is read as its decimal value: blanks, signs, exponents, hexadecimal numbers and zero bytes play no part in it. |
| CNumber.MinusInFront | gnss_protocols/src/nmea_parser.cpp:65-83 | A minus sign in front of a number negates what is read. |
| CNumber.PlainUnsigned | gnss_protocols/src/nmea_parser.cpp:85-104 | Digits are read as the number they spell if it fits 32 bits. |
| NmeaParser.ParseNmeaGga | gnss_protocols/src/nmea_parser.cpp:617-698 | The record filled field by field, or the refusal. |
| NmeaParser.FillRecord | gnss_protocols/src/nmea_parser.cpp:633-697 | Acceptance and value of every field. |
| GgaRoundTrip.ReadsPrinted | gnss_protocols/src/nmea_parser.cpp:65-83 | A trimmed fixed-point number reads back as its rounded steps with the sign of the value. |
| GgaRoundTrip.PrintedIsClose | gnss_ntrip/src/gga_sentence_builder.cpp:30-52 | Printing moves a number by at most half a step. |
| GgaRoundTrip.TimeComesBack | gnss_ntrip/src/gga_sentence_builder.cpp:131-166 | A time comes back as its nearest hundredth of a second modulo 24 hours, both carries included. |
| GgaRoundTrip.CoordinateComesBack | gnss_protocols/src/nmea_parser.cpp:548-581 | A coordinate in range comes back in range with its sign, at most 1/12,000,000 degree away. |
| GgaRoundTrip.BuiltIffPrintable | gnss_ntrip/src/gga_sentence_builder.cpp:228-276 | The builder refuses exactly missing or out-of-range coordinates and times. |
| GgaRoundTrip.SplitAdd | gnss_protocols/src/nmea_parser.cpp:26-63 | One more field after a comma is one more field when the text is cut. |
| GgaRoundTrip.SentenceReads | gnss_protocols/src/nmea_framer.cpp:86-122 | The framed sentence carries the printed payload and a valid checksum. |
| GgaRoundTrip.SentenceIsAccepted | gnss_protocols/src/nmea_parser.cpp:617-698 | The parser accepts what the builder printed. |
| GgaRoundTrip.GgaRoundTrips | gnss_ntrip/src/gga_sentence_builder.cpp:228-276 | A built sentence fed to a framer in any state is reported once and parsed with the same quality and satellite count and every other value within its rounding, if it fits the limit; if not, nothing is reported. |
| GgaWritten.LatitudeReads | gnss_protocols/src/nmea_parser.cpp:583-598 | A latitude field followed by the byte 4E is that many degrees north, positive; followed by 53 it is south, negative; sixty minutes or more, more than 90 degrees and any other letter are refused. |
| GgaWritten.LongitudeReads | gnss_protocols/src/nmea_parser.cpp:600-615 | The same for 45, east, and 57, west, up to 180 degrees. |
| GgaWritten.TimeReads | gnss_protocols/src/nmea_parser.cpp:184-216 | Two digits of hours, two of minutes, and seconds, as the numbers they spell, or refused. |
| GgaWritten.NumberReads | gnss_protocols/src/nmea_parser.cpp:65-83 | A plain decimal number, with or without a minus sign, is the value its digits spell. |
| GgaWritten.RecordIsMeaning | gnss_protocols/src/nmea_parser.cpp:633-697 | The record of well written fields is exactly what they say, or the refusal of what means nothing. |
| GgaWritten.SentenceMeans | gnss_protocols/src/nmea_parser.cpp:617-698 | A line of well written fields parses to exactly what it says if its two check digits match and it means a time, a position and a known quality; otherwise it is invalid. |
| GgaWritten.SampleMeans | gnss_protocols/src/nmea_parser.cpp:617-698 | GPGGA,123519,4807.038,N,01131.000,E,1,08,0.9,545.4,M,... says 12:35:19, latitude +(48 + 7.038/60), longitude +(11 + 31/60), altitude 545.4. |
| GgaWritten.BuiltLine | gnss_ntrip/src/gga_sentence_builder.cpp:228-276 | A built sentence is a dollar, its fifteen fields joined by commas, a star and the two upper-case digits of their checksum, carriage return and line feed. |
| GgaWritten.BuiltLetters | gnss_ntrip/src/gga_sentence_builder.cpp:78-101 | The bytes of its fixed fields: the id of the talker, 4E or 53 and 45 or 57 by the sign of the coordinate, one digit of quality, 4D, and four empty fields. |
| GgaWritten.BuiltShapes | gnss_ntrip/src/gga_sentence_builder.cpp:54-166 | Six digits of time, a point and two more; two or three digits of degrees, two of minutes, a point and five more. |
| GgaWritten.SplitJoins | gnss_protocols/src/nmea_parser.cpp:26-63 | Cutting a text at its commas and joining the pieces gives the text. |
| GgaWritten.JoinedSplits | gnss_protocols/src/nmea_parser.cpp:26-63 | Joining fields without commas and cutting gives the fields. |
| GgaLength.SentenceLength | gnss_ntrip/src/gga_sentence_builder.cpp:228-276 | A built sentence has 59 characters besides the satellite count, the HDOP and the altitude. |
| GgaLength.ModerateSentenceIsShort | gnss_ntrip/src/gga_sentence_builder.cpp:103-129 | With HDOP below 10^h and altitude below 10^a, as printed, a sentence has at most 72 + h + a characters. |
| GgaLength.ModerateRoundTrips | gnss_ntrip/src/gga_sentence_builder.cpp:228-276 | Whatever is printable and moderate is built, framed exactly once and read back by every framer whose limit is at least that bound. |
| RtcmCaster.QueueFacts | gnss_ntrip/src/local_rtcm_caster.cpp:65-82 | Queueing appends to what is unsent, keeps both bounds, and refuses exactly when the limit would be passed. |
| RtcmCaster.SendFacts | gnss_ntrip/src/local_rtcm_caster.cpp:249-266 | Sending moves bytes from unsent to sent and loses none. |
| RtcmCaster.ClientsGetTheirStream | gnss_ntrip/src/local_rtcm_caster.cpp:182-272 | In every run the bytes sent to a live client and the bytes still buffered for it are together the banner, the two caches at the poll that answered it, and every frame published since that poll; the buffered bytes stay within the limit and the storage below limit plus max(4096, limit). |
| RtcmCaster.AnsweredInThatPoll | gnss_ntrip/src/local_rtcm_caster.cpp:212-272 | The poll that a client is tagged with is exactly the event before which its connection had not been answered and after which it always has. |
| RtcmCaster.SerialsAscend | gnss_ntrip/src/local_rtcm_caster.cpp:200-272 | Connections keep the order in which they were accepted, and no two share a number. |
| RtcmCaster.CachesAreOfTheCurrentSource | gnss_ntrip/src/local_rtcm_caster.cpp:160-197 | In every run a cache holds nothing or a frame published under the source that is active now. |
| CasterAnswers.AnswerToRequest | gnss_ntrip/src/local_rtcm_caster.cpp:212-248 | What a request gets: dropped past 2048 bytes, waited for without a line end, rejected unless it starts with GET, the mountpoint and a space, dropped as slow if greeting and caches do not fit, and otherwise exactly those bytes first. |
| CasterAnswers.StartsIff | gnss_ntrip/src/local_rtcm_caster.cpp:99-136 | Starting succeeds exactly with a mountpoint that is more than slashes, a buffer of at least 15 bytes and a listener; the mountpoint is the requested one without leading slashes. |
| CasterAnswers.ServedFrames | gnss_ntrip/src/local_rtcm_caster.cpp:182-198 | In every run the counter of served frames counts exactly the valid frames published while a source was active. |
| RtcmCaster.LocalRtcmCaster.Start | gnss_ntrip/src/local_rtcm_caster.cpp:99-136 | Normalises the mountpoint, refuses an empty one or a buffer smaller than the banner. |
| RtcmCaster.LocalRtcmCaster.Stop | gnss_ntrip/src/local_rtcm_caster.cpp:137-150 | Drops clients, source and caches. |
| RtcmCaster.LocalRtcmCaster.ActivateSource | gnss_ntrip/src/local_rtcm_caster.cpp:160-171 | Accepts a new incarnation and clears the caches. |
| RtcmCaster.LocalRtcmCaster.EndSource | gnss_ntrip/src/local_rtcm_caster.cpp:172-176 | Ends the source and clears the caches; the clients keep what they are owed. |
| RtcmCaster.LocalRtcmCaster.PublishFrame | gnss_ntrip/src/local_rtcm_caster.cpp:182-198 | Caches, offers the frame to every answered client, disconnects the slow ones. |
| RtcmCaster.LocalRtcmCaster.Poll | gnss_ntrip/src/local_rtcm_caster.cpp:199-273 | Accepts, answers, sends and drops closed clients. |
| RtcmCaster.LocalRtcmCaster.PollOne | gnss_ntrip/src/local_rtcm_caster.cpp:212-267 | One client in one poll. |
| MavlinkRtcm.MavlinkRtcmEncoder.Encode | gnss_mavros/src/mavlink_rtcm_encoder.cpp:9-60 | Rejects empty and too large frames without taking a number; otherwise the fragments, and the next number. |
| MavlinkRtcm.SplitFrame | gnss_mavros/src/mavlink_rtcm_encoder.cpp:38-57 | The fragment loop. |
| MavlinkRtcm.FragmentBounds | gnss_mavros/src/mavlink_rtcm_encoder.cpp:9-60 | At most four messages, none empty or longer than 180 bytes, and no more than needed. |
| MavlinkRtcm.EveryFrameComesBack | gnss_mavros/src/mavlink_rtcm_encoder.cpp:9-60 | Shuffling all messages of up to 32 consecutively encoded frames, grouping by the five sequence bits and ordering by the two id bits returns each frame exactly. |
| MavlinkRtcm.OrderDoesNotMatter | gnss_mavros/src/mavlink_rtcm_encoder.cpp:38-57 | As long as at most one message matches, what is gathered does not depend on the order of arrival. |
| MavlinkRtcm.ThirtyThreeFramesCollide | gnss_mavros/src/mavlink_rtcm_encoder.cpp:25-26 | With a thirty-third frame the first group holds two frames and no longer gives the first one. |
| MavlinkRtcm.EncodeAll | gnss_mavros/src/mavlink_rtcm_encoder.cpp:9-60 | Over any calls the messages sent are those of the accepted frames in a row: rejected frames take no number. |
| MavlinkRtcm.MessageBytes | gnss_mavros/src/mavlink_rtcm_encoder.cpp:25-57 | The i-th message bit by bit: five bits of the frame number, its own number and the mark of a fragmented frame; 180 bytes of the frame or what is left of it, and zeros. |
| MavlinkRtcm.EncodableSizes | gnss_mavros/src/mavlink_rtcm_encoder.cpp:9-24 | What is encoded: one byte to 720, in as many messages as it takes at 180 each. |
| ReconnectPolicy.OnFailure | gnss_ntrip/src/ntrip_reconnect_policy.cpp:89-114 | Schedules, or reports exhaustion. |
| ReconnectPolicy.OnSuccess | gnss_ntrip/src/ntrip_reconnect_policy.cpp:116-129 | Resets the back-off, or only clears what is scheduled. |
| ReconnectPolicy.ResetsAreResets | gnss_ntrip/src/ntrip_reconnect_policy.cpp:116-129 | A success that resets leaves a state from which the run guarantees start again. |
| ReconnectPolicy.GrowsBy | gnss_ntrip/src/ntrip_reconnect_policy.cpp:36-47 | Scaling by at least one and rounding up never shrinks a delay. |
| ReconnectPolicy.DelaysNeverDecrease | gnss_ntrip/src/ntrip_reconnect_policy.cpp:28-47 | From a reset, without another, delays never decrease and never exceed the maximum. |
| ReconnectPolicy.DelayGrows | gnss_ntrip/src/ntrip_reconnect_policy.cpp:28-47 | From a reset the k-th failure in a row waits at least the first delay times the multiplier to the power k - 1, or the maximum. |
| ReconnectPolicy.DelayIsGeometric | gnss_ntrip/src/ntrip_reconnect_policy.cpp:28-47 | With a whole multiplier the delays are exactly that geometric sequence, capped. |
| ReconnectPolicy.AttemptsAreBounded | gnss_ntrip/src/ntrip_reconnect_policy.cpp:89-114 | From a reset, without another, every failure schedules an attempt until the maximum is used up, and none does after that. |
| ReconnectPolicy.Unbounded | gnss_ntrip/src/ntrip_reconnect_policy.cpp:138-142 | Without a maximum every failure schedules; a disabled policy never does. |
| ReconnectPolicy.NextAttemptIsNotEarlier | gnss_ntrip/src/ntrip_reconnect_policy.cpp:48-66 | The next attempt is exactly the delay after the failure, or the end of time if that is sooner. |

## Left out

- TryParseDouble: values are exact, so a number beyond the range of a double is accepted where `strtod` reports a range error.
- TryParseUnsigned: an `unsigned long` has 64 bits.
- GgaRoundTrips: numbers are exact reals, so the rounding of binary floating point and the values that are not finite are not modelled.
- SelectionDependsOnCutIff: the closed form is for streams that fit the detection buffer; `CutsAgreeIffWindowsAgree` has no such bound, but asks which positions can be reached without a choice.
- ChildSeesOneSuffix: for the Unicore child it says that the chunks it was fed join to the suffix, because that session is not modelled.
- AcceptedRepliesAreAttributed: assumes at most one reply for each command that arrived whole; `SecondReplyCanBeMisattributed` shows that the assumption is needed.
- MixedStreamIsRouted: for whole records with bytes between them that start none; damaged and nested records are in `RoutedSlices` and the lemmas beside it.
- UbxAnswer: here and in the other answers of the detector nothing in the input may start a record of another protocol; `DetectedIsEarliest` has no such condition.
- QueueAll: a client refused at the handshake loses what was queued for it at once, where the source keeps it until the client is removed at the end of the same poll.
- SelectSession: only the selection and its counters; the child metrics copied after each call are not modelled.
- Counters and transaction numbers are unbounded, except the attempt counter of the back-off and the sequence counter of the fragmenter.
- `ObserveMessage` records evidence without station ownership, so it is not part of the ownership runs; the health summary, ages and semantic observations of the correction monitor are not modelled.
- Antenna descriptors (1007, 1008) and GLONASS biases (1230) are decoded by arbitrary functions.
- Field-by-field decoding of UBX messages and of Unicore text is reduced to accepted or rejected.
- NMEA sentences other than GGA.
- Error texts and the creation and completion times of transactions.
- VALGET and the rate, baud-rate and constellation wrappers of the configuration builder.
- The Unicore session, the NTRIP client, transports, ROS nodes, configuration planning and the caster orchestrator.
