/**
 What the UBX framer reports over whole streams: which slices, when a report is a frame the builder
 would have written, and that built frames come back.
 */
module UbxStream {
  import opened Bits
  import opened Framing
  import opened UbxChecksum
  import opened UbxFramer
  import S = FrameSlices

  function FramerFor(max: nat): Framer<UbxFrame> {
    (held, s) => Push(max, held, s)
  }

  /** Where a report lies in a full buffer, its bytes and its time. */
  function Placing(max: nat): S.Shape<UbxFrame> {
    S.Shape(grown => if |grown| >= HEADER_SIZE + CHECKSUM_SIZE then ReportedSlice(max, Values(grown)) else (0, |grown|),
            (f: UbxFrame) => f.rawBytes, (f: UbxFrame) => f.ts)
  }

  lemma PushSlices(max: nat)
    ensures S.Slicing(FramerFor(max), Placing(max))
  {
    hide ReportedSlice, FrameOf;
  }

  /**
   Over any input the reports are slices of the stream, in order and without overlap, whatever was
   skipped, restarted or recovered in between.
   */
  lemma ReportsAreDisjointSlices(max: nat, done: seq<Stamped>, held: Pending, input: seq<Stamped>)
    requires IsSuffix(held, done)
    ensures S.DisjointSlices(done + input, Placing(max), S.Locate(FramerFor(max), Placing(max), held, |done|, input),
                             |done| - |held|)
  {
    PushSlices(max);
    S.RecordsAreDisjointSlices(FramerFor(max), Placing(max), done, held, input);
  }

  /** A slice that passes every test of the framer is what the builder writes for its three fields. */
  lemma ValidFrameIsBuilt(raw: seq<byte>, ts: Timestamp)
    requires |raw| >= HEADER_SIZE + CHECKSUM_SIZE && raw[0] == SYNC1 && raw[1] == SYNC2
    requires DeclaredSize(raw, 0) == |raw| && ChecksumMatches(raw)
    ensures var f := FrameOf(raw, ts);
            raw == BuildUbxFrame(Message(f.classId, f.messageId, f.payload))
  {
    var n := |raw|;
    var f := FrameOf(raw, ts);
    var body := [f.classId, f.messageId, |f.payload| % 256, |f.payload| / 256 % 256] + f.payload;
    assert |f.payload| == LittleEndian16(raw[4], raw[5]);
    assert raw[2..n - 2] == body;
    assert raw == [SYNC1, SYNC2] + raw[2..n - 2] + [raw[n - 2], raw[n - 1]];
  }

  /** A report marked valid is exactly what the builder writes for its class, id and payload. */
  lemma ValidReportIsBuilt(max: nat, held: Pending, s: Stamped)
    requires Holds(max, held) && Push(max, held, s).1.RecordReady?
    requires Push(max, held, s).1.record.status == Valid
    ensures var f := Push(max, held, s).1.record;
            f.rawBytes == BuildUbxFrame(Message(f.classId, f.messageId, f.payload)) && |f.rawBytes| <= max
  {
    PushHolds(max, held, s);
    var grown := held + [s];
    var bytes := Values(grown);
    var (from, to) := ReportedSlice(max, bytes);
    var raw := bytes[from..to];
    assert raw == Push(max, held, s).1.record.rawBytes;
    assert bytes[..2][0] == SYNC1 && bytes[..2][1] == SYNC2;
    assert bytes[0..|bytes|] == bytes;
    assert ChecksumMatches(raw);
    assert ChecksumMatches(bytes) || FirstValidFrame(max, bytes, 1).Some?;
    ValidFrameIsBuilt(raw, grown[from].ts);
  }

  /**
   When the frame that fills the buffer fails its checksum, the report is the complete valid frame
   of least offset inside it, and the failed frame itself only if there is none.
   */
  lemma RecoveryReportsLeastOffset(max: nat, held: Pending, s: Stamped)
    requires Holds(max, held) && Push(max, held, s).1.RecordReady?
    requires !ChecksumMatches(Values(held + [s]))
    ensures var bytes, f := Values(held + [s]), Push(max, held, s).1.record;
            match FirstValidFrame(max, bytes, 1)
            case Some(k) => f == FrameOf(bytes[k..k + DeclaredSize(bytes, k)], (held + [s])[k].ts)
                            && f.status == Valid
            case None => f.rawBytes == bytes && f.status == Invalid
  {
    hide FrameOf, FirstValidFrame, Push, Holds, Report, ReportedSlice, ChecksumMatches;
    PushHolds(max, held, s);
    ReportCases(max, held + [s]);
  }

  /** ... which is the one of least offset. */
  lemma FirstIsLeast(max: nat, bytes: seq<byte>, k: nat)
    requires 1 <= k && ValidFrameAt(max, bytes, k)
    ensures FirstValidFrame(max, bytes, 1).Some? && 1 <= FirstValidFrame(max, bytes, 1).value <= k
    ensures ValidFrameAt(max, bytes, FirstValidFrame(max, bytes, 1).value)
  {
    hide ValidFrameAt;
  }

  /** The messages a framer with limit `max` can carry: 16-bit length, and the frame fits. */
  predicate Carries(max: nat, m: Message) {
    |m.payload| < 0x1_0000 && HEADER_SIZE + |m.payload| + CHECKSUM_SIZE <= max
  }

  lemma BuiltFrameFacts(m: Message)
    requires |m.payload| < 0x1_0000
    ensures var b := BuildUbxFrame(m);
            && b[0] == SYNC1 && b[1] == SYNC2 && DeclaredSize(b, 0) == |b| && ChecksumMatches(b)
            && b[2] == m.classId && b[3] == m.messageId && b[6..|b| - 2] == m.payload
  {
    var b, n := BuildUbxFrame(m), |m.payload|;
    var body := [m.classId, m.messageId, n % 256, n / 256 % 256] + m.payload;
    assert b[2..|b| - 2] == body;
    assert LittleEndian16(b[4], b[5]) == n;
  }

  /** A proper part of a built frame is held; its last byte completes the report. */
  lemma PushBuiltByte(max: nat, m: Message, input: seq<Stamped>, k: nat)
    requires Carries(max, m) && Values(input) == BuildUbxFrame(m) && k < |input|
    ensures Push(max, input[..k], input[k])
         == if k + 1 < |input| then (input[..k + 1], NeedMoreData)
            else ([], RecordReady(FrameOf(BuildUbxFrame(m), input[0].ts)))
  {
    BuiltFrameFacts(m);
    var b, grown := BuildUbxFrame(m), input[..k + 1];
    assert input[..k] + [input[k]] == grown;
    assert Values(grown) == b[..k + 1];
    if k == 0 {
      assert grown == [input[0]];
    }
    if k + 1 >= HEADER_SIZE {
      assert DeclaredSize(Values(grown), 0) == |b|;
    }
    if k + 1 == |input| {
      assert b[..k + 1] == b && b[0..|b|] == b;
      assert Report(max, grown) == FrameOf(b, input[0].ts);
    }
  }

  lemma {:induction false} HoldsPrefix(max: nat, m: Message, input: seq<Stamped>, k: nat)
    requires Carries(max, m) && Values(input) == BuildUbxFrame(m) && k < |input|
    ensures Run(FramerFor(max), [], input[..k]) == (input[..k], [])
  {
    if k > 0 {
      HoldsPrefix(max, m, input, k - 1);
      PushBuiltByte(max, m, input, k - 1);
      RunSnoc(FramerFor(max), [], input, k - 1);
    }
  }

  /** One built frame, fed byte by byte to an idle framer, is reported once and leaves it idle. */
  lemma OneBuiltFrame(max: nat, m: Message, input: seq<Stamped>)
    requires Carries(max, m) && Values(input) == BuildUbxFrame(m)
    ensures Run(FramerFor(max), [], input) == ([], [FrameOf(BuildUbxFrame(m), input[0].ts)])
  {
    var n := |input| - 1;
    HoldsPrefix(max, m, input, n);
    PushBuiltByte(max, m, input, n);
    RunSnoc(FramerFor(max), [], input, n);
    assert input[..n + 1] == input;
    var f := FrameOf(BuildUbxFrame(m), input[0].ts);
    assert [] + [f] == [f];
  }

  function Wire(messages: seq<Message>): seq<byte> {
    if messages == [] then [] else BuildUbxFrame(messages[0]) + Wire(messages[1..])
  }

  /** The report says what the message was. */
  predicate Reports(f: UbxFrame, m: Message) {
    && f.status == Valid && f.rawBytes == BuildUbxFrame(m)
    && Message(f.classId, f.messageId, f.payload) == m
  }

  lemma BuiltFrameReports(m: Message, ts: Timestamp)
    requires |m.payload| < 0x1_0000
    ensures Reports(FrameOf(BuildUbxFrame(m), ts), m)
  {
    BuiltFrameFacts(m);
  }

  /** A concatenation of built frames comes back as exactly those messages, in order. */
  lemma {:induction false} BuiltFramesComeBack(max: nat, messages: seq<Message>, input: seq<Stamped>)
    requires forall i :: 0 <= i < |messages| ==> Carries(max, messages[i])
    requires Values(input) == Wire(messages)
    ensures var (held, frames) := Run(FramerFor(max), [], input);
            && held == [] && |frames| == |messages|
            && forall i :: 0 <= i < |frames| ==> Reports(frames[i], messages[i])
    decreases |messages|
  {
    if messages != [] {
      var m, n := messages[0], |BuildUbxFrame(messages[0])|;
      var first, rest := input[..n], input[n..];
      assert Values(first) == Values(input)[..n] == BuildUbxFrame(m);
      assert Values(rest) == Values(input)[n..] == Wire(messages[1..]);
      OneBuiltFrame(max, m, first);
      BuiltFramesComeBack(max, messages[1..], rest);
      assert input == first + rest;
      RunConcat(FramerFor(max), [], first, rest);
      BuiltFrameFacts(m);
    } else {
      assert input == [];
    }
  }

  lemma ReportIsCarried(max: nat, held: Pending, s: Stamped)
    requires Holds(max, held) && Push(max, held, s).1.RecordReady?
    ensures var f := Push(max, held, s).1.record;
            |f.payload| < 0x1_0000 && |f.rawBytes| <= max
  {
    PushHolds(max, held, s);
    var bytes := Values(held + [s]);
    var (from, to) := ReportedSlice(max, bytes);
    assert to - from == DeclaredSize(bytes, from);
  }

  /** No report carries a payload of 2^16 bytes or more, or is longer than the limit. */
  lemma {:induction false} ReportsAreCarried(max: nat, held: Pending, input: seq<Stamped>)
    requires Holds(max, held)
    ensures forall f :: f in Run(FramerFor(max), held, input).1 ==>
              |f.payload| < 0x1_0000 && |f.rawBytes| <= max
    decreases |input|
  {
    if input != [] {
      PushHolds(max, held, input[0]);
      if Push(max, held, input[0]).1.RecordReady? {
        ReportIsCarried(max, held, input[0]);
      }
      ReportsAreCarried(max, Push(max, held, input[0]).0, input[1..]);
    }
  }

  /** A message comes back from the framer if and only if its length fits 16 bits and the limit. */
  lemma ComesBackIffCarried(max: nat, m: Message, input: seq<Stamped>)
    requires Values(input) == BuildUbxFrame(m)
    ensures var (held, frames) := Run(FramerFor(max), [], input);
            held == [] && |frames| == 1 && Reports(frames[0], m) <==> Carries(max, m)
  {
    if Carries(max, m) {
      OneBuiltFrame(max, m, input);
      BuiltFrameFacts(m);
    }
    var frames := Run(FramerFor(max), [], input).1;
    ReportsAreCarried(max, [], input);
    assert |frames| == 1 ==> frames[0] in frames;
  }

  /** An empty message and the frame it makes. */
  const PING := Message(1, 1, [])

  const PING_FRAME: seq<byte> := [0xB5, 0x62, 1, 1, 0, 0, 2, 7]

  lemma PingBytes()
    ensures BuildUbxFrame(PING) == PING_FRAME
  {
    var data: seq<byte> := [1, 1, 0, 0];
    assert data[..3][..2] == [1, 1] && data[..3][..2][..1] == [1] && data[..3] == [1, 1, 0];
    assert [1 as byte][..0] == [] && [1 as byte, 1][..1] == [1];
    assert Fletcher([1]) == Checksum(1, 1);
    assert Fletcher([1, 1]) == Checksum(2, 3);
    assert Fletcher([1, 1, 0]) == Checksum(2, 5);
    assert Fletcher(data) == Checksum(2, 7);
    assert [1, 1, 0, 0] + PING.payload == data;
  }
}
