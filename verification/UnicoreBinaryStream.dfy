/**
 What the Unicore binary framer reports over whole streams: frames built field by field, with every
 number little-endian, come back with those fields.
 */
module UnicoreBinaryStream {
  import opened Bits
  import opened Framing
  import opened UnicoreBinaryFramer
  import UnicoreCrc32

  type uint16 = n: nat | n < 0x1_0000
  type uint32 = n: nat | n < 0x1_0000_0000

  /** The header fields that are neither sync bytes nor the payload length. */
  datatype Header = Header(
    cpuIdle: byte, messageId: uint16, timeRef: byte, timeStatus: byte, weekNumber: uint16,
    millisecondsOfWeek: uint32, headerVersion: uint32, reserved: byte, leapSeconds: byte, delayMs: uint16)

  function Two(n: nat): (bytes: seq<byte>)
    ensures |bytes| == 2
  {
    [n % 0x100, n / 0x100 % 0x100]
  }

  function FourOf(n: nat): (bytes: seq<byte>)
    ensures |bytes| == 4
  {
    [n % 0x100, n / 0x100 % 0x100, n / 0x1_0000 % 0x100, n / 0x100_0000 % 0x100]
  }

  function HeaderBytes(h: Header, n: nat): (bytes: seq<byte>)
    ensures |bytes| == 24
  {
    [0xAA, 0x44, 0xB5, h.cpuIdle] + Two(h.messageId) + Two(n) + [h.timeRef, h.timeStatus] + Two(h.weekNumber)
    + FourOf(h.millisecondsOfWeek) + FourOf(h.headerVersion) + [h.reserved, h.leapSeconds] + Two(h.delayMs)
  }

  function BodyOf(h: Header, payload: seq<byte>): (body: seq<byte>)
    ensures |body| == 24 + |payload|
  {
    HeaderBytes(h, |payload|) + payload
  }

  function TrailerOf(body: seq<byte>): (trailer: seq<byte>)
    ensures |trailer| == 4
  {
    FourOf(UnicoreCrc32.Number(UnicoreCrc32.Crc(body)))
  }

  /** A binary frame: sync bytes, header, payload, CRC. */
  function BuildUnicoreBinaryFrame(h: Header, payload: seq<byte>): (frame: seq<byte>)
    ensures |frame| == |payload| + 28
  {
    BodyOf(h, payload) + TrailerOf(BodyOf(h, payload))
  }

  lemma TwoReads(n: nat)
    requires n < 0x1_0000
    ensures LittleEndian16(Two(n)[0], Two(n)[1]) == n
  {
  }

  lemma FourReads(n: nat)
    requires n < 0x1_0000_0000
    ensures UnicoreCrc32.ReadLittleEndian32(FourOf(n)) == n
  {
    var a, b, c := n / 0x100, n / 0x1_0000, n / 0x100_0000;
    assert n == 0x100 * a + n % 0x100 && a == 0x100 * b + a % 0x100 && b == 0x100 * c + b % 0x100;
    assert c % 0x100 == c;
  }

  lemma TrailerIsAccepted(body: seq<byte>)
    ensures UnicoreCrc32.Accepted(body, TrailerOf(body))
  {
    var crc := UnicoreCrc32.Crc(body);
    Pow2Values();
    assert UnicoreCrc32.Number(crc) < 0x1_0000_0000;
    hide UnicoreCrc32.Crc, UnicoreCrc32.Number, FourOf, UnicoreCrc32.ReadLittleEndian32;
    FourReads(UnicoreCrc32.Number(crc));
  }

  /** The fields at their places in the header. */
  lemma HeaderFields(h: Header, n: nat)
    ensures var b := HeaderBytes(h, n);
            && b[0] == 0xAA && b[1] == 0x44 && b[2] == 0xB5 && b[3] == h.cpuIdle
            && b[4..6] == Two(h.messageId) && b[6..8] == Two(n) && b[8] == h.timeRef && b[9] == h.timeStatus
            && b[10..12] == Two(h.weekNumber) && b[12..16] == FourOf(h.millisecondsOfWeek)
            && b[16..20] == FourOf(h.headerVersion) && b[20] == h.reserved && b[21] == h.leapSeconds
            && b[22..24] == Two(h.delayMs)
  {
    hide Two, FourOf;
  }

  /** A message: the header fields it sets and its payload. */
  datatype Message = Message(header: Header, payload: seq<byte>)

  function Build(m: Message): (frame: seq<byte>)
    ensures |frame| == |m.payload| + 28
  {
    BuildUnicoreBinaryFrame(m.header, m.payload)
  }

  /** The messages a framer with limit `max` can carry: 16-bit length, and the frame fits. */
  predicate Carries(max: nat, m: Message) {
    |m.payload| < 0x1_0000 && |m.payload| + 28 <= max
  }

  lemma CarriedFits(max: nat, m: Message)
    requires Carries(max, m)
    ensures |m.payload| < 0x1_0000 && |Build(m)| <= max
  {
  }

  /** The built frame is the header, then payload and trailer. */
  lemma BuiltParts(m: Message)
    ensures var b, n := Build(m), |m.payload|;
            && b[..24] == HeaderBytes(m.header, n) && b[24..24 + n] == m.payload
            && b[..24 + n] == BodyOf(m.header, m.payload) && b[24 + n..] == TrailerOf(BodyOf(m.header, m.payload))
  {
    hide HeaderBytes, TrailerOf;
    var body := BodyOf(m.header, m.payload);
    assert body[..24] == HeaderBytes(m.header, |m.payload|);
    assert Build(m)[..24] == body[..24] && Build(m)[24..24 + |m.payload|] == body[24..];
  }

  lemma SyncAndSize(m: Message)
    requires |m.payload| < 0x1_0000
    ensures var b := Build(m);
            b[0] == SYNC1 && b[1] == SYNC2 && b[2] == SYNC3 && DeclaredSize(b, 0) == |b|
  {
    BuiltParts(m);
    var b, n := Build(m), |m.payload|;
    hide Build, HeaderBytes, Two;
    HeaderFields(m.header, n);
    TwoReads(n);
    assert b[6] == b[..24][6] == b[..24][6..8][0] && b[7] == b[..24][7] == b[..24][6..8][1];
  }

  lemma BuiltCrcMatches(m: Message)
    ensures CrcMatches(Build(m))
  {
    hide Build, BodyOf, TrailerOf, UnicoreCrc32.Accepted;
    BuiltParts(m);
    TrailerIsAccepted(BodyOf(m.header, m.payload));
  }

  /** The report says what the message was, field by field. */
  predicate Reports(f: UnicoreBinaryFrame, m: Message) {
    && f.status == Valid && f.reported == f.computed
    && f.rawBytes == Build(m) && f.payload == m.payload && f.payloadLength == |m.payload|
    && f.cpuIdle == m.header.cpuIdle && f.messageId == m.header.messageId
    && f.timeRef == m.header.timeRef && f.timeStatus == m.header.timeStatus
    && f.weekNumber == m.header.weekNumber && f.millisecondsOfWeek == m.header.millisecondsOfWeek
    && f.headerVersion == m.header.headerVersion && f.reserved == m.header.reserved
    && f.leapSeconds == m.header.leapSeconds && f.delayMs == m.header.delayMs
  }

  lemma PairRead(c: seq<byte>, at: nat, n: nat)
    requires n < 0x1_0000 && at + 2 <= |c| && c[at..at + 2] == Two(n)
    ensures LittleEndian16(c[at], c[at + 1]) == n
  {
    TwoReads(n);
    assert c[at] == c[at..at + 2][0] && c[at + 1] == c[at..at + 2][1];
  }

  /** The header of a frame, read number by number. */
  lemma HeaderReads(h: Header, n: nat)
    requires n < 0x1_0000
    ensures var c := HeaderBytes(h, n);
            && LittleEndian16(c[4], c[5]) == h.messageId && LittleEndian16(c[6], c[7]) == n
            && LittleEndian16(c[10], c[11]) == h.weekNumber && LittleEndian16(c[22], c[23]) == h.delayMs
            && Four(c, 12) == h.millisecondsOfWeek && Four(c, 16) == h.headerVersion
  {
    var c := HeaderBytes(h, n);
    hide HeaderBytes, Two, FourOf, LittleEndian16, UnicoreCrc32.ReadLittleEndian32;
    HeaderFields(h, n);
    PairRead(c, 4, h.messageId);
    PairRead(c, 6, n);
    PairRead(c, 10, h.weekNumber);
    PairRead(c, 22, h.delayMs);
    FourReads(h.millisecondsOfWeek);
    FourReads(h.headerVersion);
  }

  /** Where the record's fields are read. */
  lemma FieldsOf(raw: seq<byte>, ts: Timestamp)
    requires |raw| >= 28
    ensures var f := FrameOf(raw, ts);
            && f.cpuIdle == raw[3] && f.messageId == LittleEndian16(raw[4], raw[5])
            && f.payloadLength == LittleEndian16(raw[6], raw[7]) && f.timeRef == raw[8] && f.timeStatus == raw[9]
            && f.weekNumber == LittleEndian16(raw[10], raw[11]) && f.millisecondsOfWeek == Four(raw, 12)
            && f.headerVersion == Four(raw, 16) && f.reserved == raw[20] && f.leapSeconds == raw[21]
            && f.delayMs == LittleEndian16(raw[22], raw[23]) && f.payload == raw[24..|raw| - 4]
            && (f.status == Valid ==> f.reported == f.computed)
  {
    hide LittleEndian16, Four, UnicoreCrc32.Crc, UnicoreCrc32.Number;
  }

  /** Every field of the record is read from its place in the header. */
  lemma FieldsRead(m: Message, ts: Timestamp)
    requires |m.payload| < 0x1_0000
    ensures var f, h := FrameOf(Build(m), ts), m.header;
            && f.cpuIdle == h.cpuIdle && f.messageId == h.messageId && f.payloadLength == |m.payload|
            && f.timeRef == h.timeRef && f.timeStatus == h.timeStatus && f.weekNumber == h.weekNumber
            && f.millisecondsOfWeek == h.millisecondsOfWeek && f.headerVersion == h.headerVersion
            && f.reserved == h.reserved && f.leapSeconds == h.leapSeconds && f.delayMs == h.delayMs
            && f.payload == m.payload && (f.status == Valid ==> f.reported == f.computed)
  {
    hide *;
    var b, c := Build(m), HeaderBytes(m.header, |m.payload|);
    BuiltParts(m);
    HeaderFields(m.header, |m.payload|);
    HeaderReads(m.header, |m.payload|);
    FieldsOf(b, ts);
    FourOfPrefix(b, c, 12);
    FourOfPrefix(b, c, 16);
    assert forall i :: 0 <= i < 24 ==> b[i] == c[i];
  }

  lemma FourOfPrefix(b: seq<byte>, c: seq<byte>, at: nat)
    requires at + 4 <= |c| <= |b| && b[..|c|] == c
    ensures Four(b, at) == Four(c, at)
  {
    assert b[at..at + 4] == c[at..at + 4];
  }

  lemma BuiltFrameReports(m: Message, ts: Timestamp)
    requires |m.payload| < 0x1_0000
    ensures Reports(FrameOf(Build(m), ts), m)
  {
    hide Build, FrameOf;
    FieldsRead(m, ts);
    BuiltCrcMatches(m);
  }

  lemma FilledReport(max: nat, m: Message, grown: Pending)
    requires |m.payload| < 0x1_0000 && Values(grown) == Build(m)
    ensures |grown| >= 28 && Report(max, grown) == RecordReady(FrameOf(Build(m), grown[0].ts))
  {
    hide FrameOf, Build, FirstValidFrame, CrcMatches;
    BuiltCrcMatches(m);
  }

  /** A byte that fits the frame being collected. */
  lemma PushGrows(max: nat, held: Pending, s: Stamped, frame: seq<byte>)
    requires 28 <= |frame| <= max && |held| < |frame| && frame[0] == SYNC1 && frame[1] == SYNC2 && frame[2] == SYNC3
    requires DeclaredSize(frame, 0) == |frame| && Values(held + [s]) == frame[..|held| + 1]
    ensures Push(max, held, s) == if |held| + 1 < |frame| then (held + [s], NeedMoreData)
                                  else ([], Report(max, held + [s]))
  {
    hide Report;
    var k, grown := |held|, held + [s];
    assert s.value == Values(grown)[k] == frame[k];
    assert held == [] ==> grown == [s];
    if k + 1 >= HEADER_SIZE {
      assert DeclaredSize(Values(grown), 0) == |frame|;
    }
  }

  /** A proper part of a built frame is held; its last byte completes the report. */
  lemma PushBuiltByte(max: nat, m: Message, input: seq<Stamped>, k: nat)
    requires Carries(max, m) && Values(input) == Build(m) && k < |input|
    ensures Push(max, input[..k], input[k])
         == if k + 1 < |input| then (input[..k + 1], NeedMoreData)
            else ([], RecordReady(FrameOf(Build(m), input[0].ts)))
  {
    hide FrameOf, Build, Report, Push, DeclaredSize;
    SyncAndSize(m);
    var b, grown := Build(m), input[..k + 1];
    assert input[..k] + [input[k]] == grown && Values(grown) == b[..k + 1];
    PushGrows(max, input[..k], input[k], b);
    if k + 1 == |input| {
      assert grown == input;
      FilledReport(max, m, grown);
    }
  }

  lemma HoldsPrefix(max: nat, m: Message, input: seq<Stamped>, k: nat)
    requires Carries(max, m) && Values(input) == Build(m) && k < |input|
    ensures Run(FramerFor(max), [], input[..k]) == (input[..k], [])
  {
    hide FrameOf, Build, Run;
    forall j | 0 <= j < k ensures FramerFor(max)(input[..j], input[j]) == (input[..j + 1], NeedMoreData) {
      PushBuiltByte(max, m, input, j);
    }
    RunHoldsAll(FramerFor(max), input, k);
  }

  /** One built frame, fed byte by byte to an idle framer, is reported once and leaves it idle. */
  lemma OneBuiltFrame(max: nat, m: Message, input: seq<Stamped>)
    requires Carries(max, m) && Values(input) == Build(m)
    ensures Run(FramerFor(max), [], input) == ([], [FrameOf(Build(m), input[0].ts)])
  {
    hide FrameOf, Build, Run;
    var n := |input| - 1;
    HoldsPrefix(max, m, input, n);
    PushBuiltByte(max, m, input, n);
    RunCompletes(FramerFor(max), [], input, FrameOf(Build(m), input[0].ts));
  }

  function Wire(messages: seq<Message>): seq<byte> {
    if messages == [] then [] else Build(messages[0]) + Wire(messages[1..])
  }

  lemma WireFirst(messages: seq<Message>)
    requires messages != []
    ensures Wire(messages) == Build(messages[0]) + Wire(messages[1..])
  {
    hide Build;
  }

  /** The reports say, in order, what the messages were. */
  predicate AllReport(frames: seq<UnicoreBinaryFrame>, messages: seq<Message>) {
    |frames| == |messages| && forall i :: 0 <= i < |frames| ==> Reports(frames[i], messages[i])
  }

  lemma AllReportFirst(f: UnicoreBinaryFrame, frames: seq<UnicoreBinaryFrame>, messages: seq<Message>)
    requires messages != [] && Reports(f, messages[0]) && AllReport(frames, messages[1..])
    ensures AllReport([f] + frames, messages)
  {
    hide Reports;
  }

  /** A concatenation of built frames comes back as exactly those messages, in order. */
  lemma {:induction false} BuiltFramesComeBack(max: nat, messages: seq<Message>, input: seq<Stamped>)
    requires forall i :: 0 <= i < |messages| ==> Carries(max, messages[i])
    requires Values(input) == Wire(messages)
    ensures var (held, frames) := Run(FramerFor(max), [], input);
            held == [] && AllReport(frames, messages)
    decreases |messages|
  {
    if messages != [] {
      hide *;
      WireFirst(messages);
      var m, n := messages[0], |Build(messages[0])|;
      var first, rest := input[..n], input[n..];
      ValuesSplit(input, n);
      CarriedFits(max, m);
      OneBuiltFrame(max, m, first);
      BuiltFrameReports(m, first[0].ts);
      BuiltFramesComeBack(max, messages[1..], rest);
      assert input == first + rest;
      var f := FrameOf(Build(m), first[0].ts);
      RunOneThen(FramerFor(max), first, rest, f);
      AllReportFirst(f, Run(FramerFor(max), [], rest).1, messages);
    } else {
      hide Build, FrameOf, Push;
      assert input == [];
    }
  }

  lemma ReportIsCarried(max: nat, held: Pending, s: Stamped)
    requires Holds(max, held) && Push(max, held, s).1.RecordReady?
    ensures var f := Push(max, held, s).1.record;
            |f.payload| < 0x1_0000 && |f.payload| + 28 == |f.rawBytes| <= max
  {
    hide CrcMatches;
    PushHolds(max, held, s);
    var bytes := Values(held + [s]);
    var (from, to) := ReportedSlice(max, bytes);
    assert to - from == DeclaredSize(bytes, from);
  }

  /** No report carries a payload of 2^16 bytes or more, or is longer than the limit. */
  lemma {:induction false} ReportsAreCarried(max: nat, held: Pending, input: seq<Stamped>)
    requires Holds(max, held)
    ensures forall f :: f in Run(FramerFor(max), held, input).1 ==>
              |f.payload| < 0x1_0000 && |f.payload| + 28 == |f.rawBytes| <= max
    decreases |input|
  {
    hide Push, Holds;
    if input != [] {
      PushHolds(max, held, input[0]);
      if Push(max, held, input[0]).1.RecordReady? {
        ReportIsCarried(max, held, input[0]);
      }
      ReportsAreCarried(max, Push(max, held, input[0]).0, input[1..]);
    }
  }

  /** A message comes back from the framer if and only if its length fits 16 bits and the limit. */
  lemma ComesBackIffCarried(max: nat, m: Message, input: seq<Stamped>)
    requires Values(input) == Build(m)
    ensures var (held, frames) := Run(FramerFor(max), [], input);
            held == [] && |frames| == 1 && Reports(frames[0], m) <==> Carries(max, m)
  {
    if Carries(max, m) {
      OneBuiltFrame(max, m, input);
      BuiltFrameReports(m, input[0].ts);
    }
    hide FrameOf, Build;
    var frames := Run(FramerFor(max), [], input).1;
    ReportsAreCarried(max, [], input);
    assert |frames| == 1 ==> frames[0] in frames;
  }

  lemma TwoIsUnique(low: byte, high: byte)
    ensures Two(LittleEndian16(low, high)) == [low, high]
  {
  }

  lemma FourIsUnique(bytes: seq<byte>)
    requires |bytes| == 4
    ensures UnicoreCrc32.ReadLittleEndian32(bytes) < 0x1_0000_0000
    ensures FourOf(UnicoreCrc32.ReadLittleEndian32(bytes)) == bytes
  {
    var a, b, c, d := bytes[0], bytes[1], bytes[2], bytes[3];
    var n := UnicoreCrc32.ReadLittleEndian32(bytes);
    assert n / 0x100_0000 == d && n / 0x1_0000 == c + 0x100 * d as nat;
    assert n / 0x100 == b + 0x100 * (c + 0x100 * d as nat);
  }

  /** The header fields a frame's bytes hold. */
  function HeaderOf(raw: seq<byte>): Header
    requires |raw| >= 28
  {
    FourIsUnique(raw[12..16]);
    FourIsUnique(raw[16..20]);
    Header(raw[3], LittleEndian16(raw[4], raw[5]), raw[8], raw[9], LittleEndian16(raw[10], raw[11]),
           Four(raw, 12), Four(raw, 16), raw[20], raw[21], LittleEndian16(raw[22], raw[23]))
  }

  lemma HeaderIsBuilt(raw: seq<byte>)
    requires |raw| >= 28 && raw[0] == SYNC1 && raw[1] == SYNC2 && raw[2] == SYNC3
    ensures HeaderBytes(HeaderOf(raw), LittleEndian16(raw[6], raw[7])) == raw[..24]
  {
    TwoIsUnique(raw[4], raw[5]);
    TwoIsUnique(raw[6], raw[7]);
    TwoIsUnique(raw[10], raw[11]);
    TwoIsUnique(raw[22], raw[23]);
    FourIsUnique(raw[12..16]);
    FourIsUnique(raw[16..20]);
    hide Two, FourOf, LittleEndian16, UnicoreCrc32.ReadLittleEndian32;
    assert raw[..24] == raw[..4] + [raw[4], raw[5]] + [raw[6], raw[7]] + [raw[8], raw[9]] + [raw[10], raw[11]]
                        + raw[12..16] + raw[16..20] + [raw[20], raw[21]] + [raw[22], raw[23]];
  }

  lemma TrailerIsUnique(body: seq<byte>, trailer: seq<byte>)
    requires |trailer| == 4 && UnicoreCrc32.Accepted(body, trailer)
    ensures trailer == TrailerOf(body)
  {
    hide UnicoreCrc32.Crc, UnicoreCrc32.Number, FourOf, UnicoreCrc32.ReadLittleEndian32;
    FourIsUnique(trailer);
  }

  /** A slice that passes every test of the framer is what the builder writes for its fields. */
  lemma ValidFrameIsBuilt(raw: seq<byte>)
    requires |raw| >= 28 && raw[0] == SYNC1 && raw[1] == SYNC2 && raw[2] == SYNC3
    requires DeclaredSize(raw, 0) == |raw| && CrcMatches(raw)
    ensures raw == Build(Message(HeaderOf(raw), raw[24..|raw| - 4]))
  {
    hide TrailerOf, UnicoreCrc32.Accepted, HeaderBytes, HeaderOf, LittleEndian16;
    HeaderIsBuilt(raw);
    var n, payload := |raw| - 4, raw[24..|raw| - 4];
    assert |payload| == LittleEndian16(raw[6], raw[7]);
    TrailerIsUnique(raw[..n], raw[n..]);
    assert raw[..n] == raw[..24] + payload;
    assert raw == raw[..n] + raw[n..];
  }

  /** Every report is exactly what the builder writes for the fields and the payload it reports. */
  lemma ReportIsBuilt(max: nat, held: Pending, s: Stamped)
    requires Holds(max, held) && Push(max, held, s).1.RecordReady?
    ensures var f := Push(max, held, s).1.record;
            && |f.rawBytes| >= 28 && f.rawBytes == Build(Message(HeaderOf(f.rawBytes), f.payload))
            && Reports(f, Message(HeaderOf(f.rawBytes), f.payload))
  {
    hide Build, CrcMatches, Push, ReportedSlice, Holds, UnicoreCrc32.Crc, UnicoreCrc32.Number, FrameOf, Report,
         HeaderOf, DeclaredSize, Reports;
    ReportedHeader(max, held, s);
    var bytes := Values(held + [s]);
    var (from, to) := ReportedSlice(max, bytes);
    var raw := bytes[from..to];
    assert raw[0] == bytes[from] && raw[1] == bytes[from + 1] && raw[2] == bytes[from + 2];
    SliceSize(bytes, from, to);
    ValidFrameIsBuilt(raw);
    FieldsOf(raw, (held + [s])[from].ts);
    BuiltFrameReports(Message(HeaderOf(raw), raw[24..|raw| - 4]), (held + [s])[from].ts);
  }

  lemma SliceSize(bytes: seq<byte>, from: nat, to: nat)
    requires from + 28 <= to <= |bytes|
    ensures DeclaredSize(bytes[from..to], 0) == DeclaredSize(bytes, from)
  {
  }

  /** Where a report starts, its header passes the framer's tests. */
  lemma ReportedHeader(max: nat, held: Pending, s: Stamped)
    requires Holds(max, held) && Push(max, held, s).1.RecordReady?
    ensures var bytes := Values(held + [s]);
            |bytes| >= 28 &&
            var (from, to) := ReportedSlice(max, bytes);
            && 0 <= from && from + 28 <= to <= |bytes| && to - from < 0x1_0000 + 28
            && Push(max, held, s).1.record == FrameOf(bytes[from..to], (held + [s])[from].ts)
            && bytes[from] == SYNC1 && bytes[from + 1] == SYNC2 && bytes[from + 2] == SYNC3
            && DeclaredSize(bytes, from) == to - from <= max
            && CrcMatches(bytes[from..to])
  {
    hide CrcMatches, FrameOf;
    PushHolds(max, held, s);
    var bytes := Values(held + [s]);
    assert bytes[0] == SYNC1 && bytes[1] == SYNC2 && bytes[2] == SYNC3;
    assert bytes[0..|bytes|] == bytes;
  }
}
