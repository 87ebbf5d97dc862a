/**
 What the RTCM framer reports over whole streams: RTCM 3 transport frames, built as the standard lays
 them out, come back.
 */
module RtcmStream {
  import opened Bits
  import opened Framing
  import opened RtcmFramer
  import RtcmCrc24q
  import RtcmSample

  /** A 24-bit number as three bytes, most significant first. */
  function ThreeBytes(n: nat): (bytes: seq<byte>)
    requires n < 0x100_0000
    ensures |bytes| == 3
  {
    [n / 0x1_0000, n / 0x100 % 0x100, n % 0x100]
  }

  /** The CRC-24Q of a byte string as the three bytes of a trailer. */
  function TrailerOf(body: seq<byte>): (trailer: seq<byte>)
    ensures |trailer| == 3
  {
    ThreeBytes(RtcmCrc24q.Number(RtcmCrc24q.Crc(body)))
  }

  lemma TrailerIsAccepted(body: seq<byte>)
    ensures RtcmCrc24q.Accepted(body, TrailerOf(body))
  {
    hide RtcmCrc24q.Crc, RtcmCrc24q.Number;
    var n := RtcmCrc24q.Number(RtcmCrc24q.Crc(body));
    assert n == 0x1_0000 * (n / 0x1_0000) + 0x100 * (n / 0x100 % 0x100) + n % 0x100;
  }

  /** What the CRC covers: preamble, length and payload. */
  function BodyOf(payload: seq<byte>): (body: seq<byte>)
    ensures |body| == 3 + |payload|
  {
    [0xD3, |payload| / 256 % 256, |payload| % 256] + payload
  }

  /** A transport frame: preamble, length, payload, CRC. */
  function BuildRtcmFrame(payload: seq<byte>): (frame: seq<byte>)
    ensures |frame| == |payload| + 6
  {
    BodyOf(payload) + TrailerOf(BodyOf(payload))
  }

  /** The payloads a framer with limit `max` can carry: the length field has ten bits, and the frame fits. */
  predicate Carries(max: nat, payload: seq<byte>) {
    |payload| < 1024 && |payload| + 6 <= max
  }

  lemma BuiltHeader(payload: seq<byte>)
    requires |payload| < 1024
    ensures var b := BuildRtcmFrame(payload);
            b[0] == PREAMBLE && b[1] < 4 && DeclaredSize(b, 0) == |b|
  {
    hide TrailerOf;
    var b, n := BuildRtcmFrame(payload), |payload|;
    assert b[1] == n / 256 && b[2] == n % 256;
    assert n == 0x100 * (n / 256) + n % 256;
  }

  lemma BuiltFrameFacts(payload: seq<byte>)
    requires |payload| < 1024
    ensures var b := BuildRtcmFrame(payload);
            && b[0] == PREAMBLE && b[1] < 4 && DeclaredSize(b, 0) == |b| && CrcMatches(b)
            && b[3..|b| - 3] == payload
  {
    BuiltHeader(payload);
    var b, body := BuildRtcmFrame(payload), BodyOf(payload);
    TrailerIsAccepted(body);
    hide RtcmCrc24q.Accepted, TrailerOf, DeclaredSize;
    assert b[..|b| - 3] == body && b[|b| - 3..] == TrailerOf(body);
    assert body[3..] == payload && b[3..|b| - 3] == body[3..];
  }

  /** The report says what the frame was. */
  predicate Reports(f: RtcmFrame, payload: seq<byte>) {
    && f.status == Valid && f.reported == f.computed
    && f.rawBytes == BuildRtcmFrame(payload) && f.payload == payload
    && (|payload| >= 2 ==> f.messageType == payload[0] as nat * 16 + payload[1] / 16)
  }

  lemma BuiltFrameReports(payload: seq<byte>, ts: Timestamp)
    requires |payload| < 1024
    ensures Reports(FrameOf(BuildRtcmFrame(payload), ts), payload)
  {
    BuiltFrameFacts(payload);
    hide RtcmCrc24q.Crc, RtcmCrc24q.Number, BuildRtcmFrame;
  }

  lemma FilledReport(max: nat, payload: seq<byte>, grown: Pending)
    requires |payload| < 1024 && Values(grown) == BuildRtcmFrame(payload)
    ensures |grown| >= 6 && Report(max, grown) == FrameOf(BuildRtcmFrame(payload), grown[0].ts)
  {
    hide FrameOf, BuildRtcmFrame, Report, FirstValidFrame, CrcMatches;
    BuiltFrameFacts(payload);
    ReportCases(max, grown);
  }

  /** A proper part of a built frame is held; its last byte completes the report. */
  lemma PushBuiltByte(max: nat, payload: seq<byte>, input: seq<Stamped>, k: nat)
    requires Carries(max, payload) && Values(input) == BuildRtcmFrame(payload) && k < |input|
    ensures Push(max, input[..k], input[k])
         == if k + 1 < |input| then (input[..k + 1], NeedMoreData)
            else ([], RecordReady(FrameOf(BuildRtcmFrame(payload), input[0].ts)))
  {
    hide FrameOf, BuildRtcmFrame, Report, Push, CrcMatches, DeclaredSize;
    BuiltFrameFacts(payload);
    var b, grown := BuildRtcmFrame(payload), input[..k + 1];
    assert input[..k] + [input[k]] == grown && Values(grown) == b[..k + 1];
    PushGrows(max, input[..k], input[k], b);
    if k + 1 == |input| {
      assert grown == input;
      FilledReport(max, payload, grown);
    }
  }

  lemma CarriedFits(max: nat, payload: seq<byte>)
    requires Carries(max, payload)
    ensures |payload| < 1024 && |BuildRtcmFrame(payload)| <= max
  {
  }

  /** A byte that fits the frame being collected. */
  lemma PushGrows(max: nat, held: Pending, s: Stamped, frame: seq<byte>)
    requires 6 <= |frame| <= max && |held| < |frame| && frame[0] == PREAMBLE && frame[1] < 4
    requires DeclaredSize(frame, 0) == |frame| && Values(held + [s]) == frame[..|held| + 1]
    ensures Push(max, held, s) == if |held| + 1 < |frame| then (held + [s], NeedMoreData)
                                  else ([], RecordReady(Report(max, held + [s])))
  {
    hide Report;
    var k, grown := |held|, held + [s];
    assert s.value == Values(grown)[k] == frame[k];
    assert held == [] ==> grown == [s];
    if k + 1 >= HEADER_SIZE {
      assert DeclaredSize(Values(grown), 0) == |frame|;
    }
  }

  lemma HoldsPrefix(max: nat, payload: seq<byte>, input: seq<Stamped>, k: nat)
    requires Carries(max, payload) && Values(input) == BuildRtcmFrame(payload) && k < |input|
    ensures Run(FramerFor(max), [], input[..k]) == (input[..k], [])
  {
    hide FrameOf, BuildRtcmFrame, Run;
    forall j | 0 <= j < k ensures FramerFor(max)(input[..j], input[j]) == (input[..j + 1], NeedMoreData) {
      PushBuiltByte(max, payload, input, j);
    }
    RunHoldsAll(FramerFor(max), input, k);
  }

  /** One built frame, fed byte by byte to an idle framer, is reported once and leaves it idle. */
  lemma OneBuiltFrame(max: nat, payload: seq<byte>, input: seq<Stamped>)
    requires Carries(max, payload) && Values(input) == BuildRtcmFrame(payload)
    ensures Run(FramerFor(max), [], input) == ([], [FrameOf(BuildRtcmFrame(payload), input[0].ts)])
  {
    hide FrameOf, BuildRtcmFrame, Run;
    var n := |input| - 1;
    HoldsPrefix(max, payload, input, n);
    PushBuiltByte(max, payload, input, n);
    RunCompletes(FramerFor(max), [], input, FrameOf(BuildRtcmFrame(payload), input[0].ts));
  }

  function Wire(payloads: seq<seq<byte>>): seq<byte> {
    if payloads == [] then [] else BuildRtcmFrame(payloads[0]) + Wire(payloads[1..])
  }

  lemma WireFirst(payloads: seq<seq<byte>>)
    requires payloads != []
    ensures Wire(payloads) == BuildRtcmFrame(payloads[0]) + Wire(payloads[1..])
  {
    hide BuildRtcmFrame;
  }

  /** The reports say, in order, what the frames were. */
  predicate AllReport(frames: seq<RtcmFrame>, payloads: seq<seq<byte>>) {
    |frames| == |payloads| && forall i :: 0 <= i < |frames| ==> Reports(frames[i], payloads[i])
  }

  lemma AllReportFirst(f: RtcmFrame, frames: seq<RtcmFrame>, payloads: seq<seq<byte>>)
    requires payloads != [] && Reports(f, payloads[0]) && AllReport(frames, payloads[1..])
    ensures AllReport([f] + frames, payloads)
  {
    hide Reports;
  }

  /** A concatenation of built frames comes back as exactly those payloads, in order. */
  lemma {:induction false} BuiltFramesComeBack(max: nat, payloads: seq<seq<byte>>, input: seq<Stamped>)
    requires forall i :: 0 <= i < |payloads| ==> Carries(max, payloads[i])
    requires Values(input) == Wire(payloads)
    ensures var (held, frames) := Run(FramerFor(max), [], input);
            held == [] && AllReport(frames, payloads)
    decreases |payloads|
  {
    if payloads != [] {
      hide *;
      WireFirst(payloads);
      var p, n := payloads[0], |BuildRtcmFrame(payloads[0])|;
      var first, rest := input[..n], input[n..];
      ValuesSplit(input, n);
      CarriedFits(max, p);
      OneBuiltFrame(max, p, first);
      BuiltFrameReports(p, first[0].ts);
      BuiltFramesComeBack(max, payloads[1..], rest);
      assert input == first + rest;
      var f := FrameOf(BuildRtcmFrame(p), first[0].ts);
      RunOneThen(FramerFor(max), first, rest, f);
      AllReportFirst(f, Run(FramerFor(max), [], rest).1, payloads);
    } else {
      hide BuildRtcmFrame, FrameOf, Push;
      assert input == [];
    }
  }

  lemma ReportIsCarried(max: nat, held: Pending, s: Stamped)
    requires Holds(max, held) && Push(max, held, s).1.RecordReady?
    ensures var f := Push(max, held, s).1.record;
            |f.payload| < 1024 && |f.payload| + 6 == |f.rawBytes| <= max
  {
    hide CrcMatches;
    PushHolds(max, held, s);
    var bytes := Values(held + [s]);
    var (from, to) := ReportedSlice(max, bytes);
    assert to - from == DeclaredSize(bytes, from);
  }

  /** No report carries a payload of 1024 bytes or more, or is longer than the limit. */
  lemma {:induction false} ReportsAreCarried(max: nat, held: Pending, input: seq<Stamped>)
    requires Holds(max, held)
    ensures forall f :: f in Run(FramerFor(max), held, input).1 ==>
              |f.payload| < 1024 && |f.payload| + 6 == |f.rawBytes| <= max
    decreases |input|
  {
    hide Push, Holds;
    if input != [] {
      PushHolds(max, held, input[0]);
      if Push(max, held, input[0]).1.RecordReady? {
        ReportIsCarried(max, held, input[0]);
      }
      ReportsAreCarried(max, Push(max, held, input[0]).0, input[1..]);
    }
  }

  /** A payload comes back from the framer if and only if its length fits ten bits and the limit. */
  lemma ComesBackIffCarried(max: nat, payload: seq<byte>, input: seq<Stamped>)
    requires Values(input) == BuildRtcmFrame(payload)
    ensures var (held, frames) := Run(FramerFor(max), [], input);
            held == [] && |frames| == 1 && Reports(frames[0], payload) <==> Carries(max, payload)
  {
    if Carries(max, payload) {
      OneBuiltFrame(max, payload, input);
      BuiltFrameReports(payload, input[0].ts);
    }
    hide FrameOf, BuildRtcmFrame;
    var frames := Run(FramerFor(max), [], input).1;
    ReportsAreCarried(max, [], input);
    assert |frames| == 1 ==> frames[0] in frames;
  }

  lemma ThreeIsUnique(trailer: seq<byte>)
    requires |trailer| == 3
    ensures RtcmCrc24q.ReadTrailer(trailer) < 0x100_0000
    ensures ThreeBytes(RtcmCrc24q.ReadTrailer(trailer)) == trailer
  {
    var a, b, c := trailer[0], trailer[1], trailer[2];
    var n := RtcmCrc24q.ReadTrailer(trailer);
    assert n / 0x100 == b + 0x100 * a as nat && n / 0x1_0000 == a;
  }

  lemma TrailerIsUnique(body: seq<byte>, trailer: seq<byte>)
    requires |trailer| == 3 && RtcmCrc24q.Accepted(body, trailer)
    ensures trailer == TrailerOf(body)
  {
    hide RtcmCrc24q.Crc, RtcmCrc24q.Number, RtcmCrc24q.ReadTrailer, ThreeBytes;
    ThreeIsUnique(trailer);
  }

  /** A slice that passes every test of the framer is what the builder writes for its payload. */
  lemma ValidFrameIsBuilt(raw: seq<byte>)
    requires |raw| >= 6 && raw[0] == PREAMBLE && raw[1] < 4 && DeclaredSize(raw, 0) == |raw| && CrcMatches(raw)
    ensures raw == BuildRtcmFrame(raw[3..|raw| - 3])
  {
    hide TrailerOf, RtcmCrc24q.Accepted;
    var n, payload := |raw| - 3, raw[3..|raw| - 3];
    TrailerIsUnique(raw[..n], raw[n..]);
    assert |payload| == 0x100 * raw[1] as nat + raw[2];
    assert raw[..n] == BodyOf(payload);
    assert raw == raw[..n] + raw[n..];
  }

  /** Where a report starts, its header passes the framer's tests. */
  lemma ReportedHeader(max: nat, held: Pending, s: Stamped)
    requires Holds(max, held) && Push(max, held, s).1.RecordReady?
    ensures var bytes := Values(held + [s]);
            var (from, to) := ReportedSlice(max, bytes);
            && Push(max, held, s).1.record == FrameOf(bytes[from..to], (held + [s])[from].ts)
            && bytes[from] == PREAMBLE && bytes[from + 1] < 4 && DeclaredSize(bytes, from) == to - from <= max
  {
    hide CrcMatches, FrameOf;
    PushHolds(max, held, s);
    var bytes := Values(held + [s]);
    assert bytes[0] == PREAMBLE && bytes[1] < 4;
  }

  /** A report marked valid is exactly what the builder writes for its payload. */
  lemma ValidReportIsBuilt(max: nat, held: Pending, s: Stamped)
    requires Holds(max, held) && Push(max, held, s).1.RecordReady?
    requires Push(max, held, s).1.record.status == Valid
    ensures var f := Push(max, held, s).1.record;
            f.rawBytes == BuildRtcmFrame(f.payload) && |f.rawBytes| <= max
  {
    hide BuildRtcmFrame, CrcMatches, Push, ReportedSlice, Holds, RtcmCrc24q.Crc, RtcmCrc24q.Number;
    ReportedHeader(max, held, s);
    var bytes := Values(held + [s]);
    var (from, to) := ReportedSlice(max, bytes);
    var raw := bytes[from..to];
    assert raw[1] == bytes[from + 1] && raw[2] == bytes[from + 2];
    ValidFrameIsBuilt(raw);
  }

  /** The payload of the sample frame. */
  const SAMPLE_PAYLOAD := RtcmSample.BODY[3..]

  lemma SampleIsBuilt()
    ensures BuildRtcmFrame(SAMPLE_PAYLOAD) == RtcmSample.BODY + RtcmSample.TRAILER
    ensures |SAMPLE_PAYLOAD| == 19 && SAMPLE_PAYLOAD[0] == 0x3E && SAMPLE_PAYLOAD[1] == 0xD7
  {
    RtcmSample.SampleIsAccepted();
    hide RtcmCrc24q.Crc, RtcmCrc24q.Number;
    assert [0xD3, 0, 19] + SAMPLE_PAYLOAD == RtcmSample.BODY;
  }

  /** The 25 bytes of the sample frame are what the builder writes, and come back as message 1005. */
  lemma SampleComesBack(max: nat, input: seq<Stamped>)
    requires max >= 25 && Values(input) == RtcmSample.BODY + RtcmSample.TRAILER
    ensures var (held, frames) := Run(FramerFor(max), [], input);
            && held == [] && |frames| == 1
            && frames[0].status == Valid && frames[0].payload == SAMPLE_PAYLOAD && frames[0].messageType == 1005
  {
    SampleIsBuilt();
    hide SAMPLE_PAYLOAD, FrameOf, BuildRtcmFrame, Run, RtcmSample.BODY, RtcmSample.TRAILER;
    OneBuiltFrame(max, SAMPLE_PAYLOAD, input);
    BuiltFrameReports(SAMPLE_PAYLOAD, input[0].ts);
  }
}
