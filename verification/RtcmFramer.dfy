/** The RTCM 3 framer, `gnss_protocols/src/rtcm_framer.cpp`. */
module RtcmFramer {
  import opened Bits
  import opened Framing
  import RtcmCrc24q
  import S = FrameSlices

  const PREAMBLE: byte := 0xD3
  const HEADER_SIZE := 3
  const CRC_SIZE := 3

  datatype RtcmFrame = RtcmFrame(
    ts: Timestamp, messageType: nat, payload: seq<byte>, rawBytes: seq<byte>,
    reported: nat, computed: nat, status: ChecksumStatus)

  /** The first twelve bits of a payload, if it has them. */
  function ExtractRtcmMessageType(payload: seq<byte>): (t: Option<nat>)
    ensures t.Some? ==> t.value < 4096
  {
    if |payload| < 2 then None else Some(payload[0] as nat * 16 + payload[1] / 16)
  }

  /** The frame size that the header starting at `at` declares; the length field has ten bits. */
  function DeclaredSize(bytes: seq<byte>, at: nat): nat
    requires at + HEADER_SIZE <= |bytes|
  {
    HEADER_SIZE + (bytes[at + 1] % 4 as nat * 0x100 + bytes[at + 2]) + CRC_SIZE
  }

  predicate CrcMatches(raw: seq<byte>)
    requires |raw| >= HEADER_SIZE + CRC_SIZE
  {
    RtcmCrc24q.Accepted(raw[..|raw| - CRC_SIZE], raw[|raw| - CRC_SIZE..])
  }

  /** The framer's test is the residue test over the whole frame, trailer included. */
  lemma CrcMatchesIffZeroResidue(raw: seq<byte>)
    requires |raw| >= HEADER_SIZE + CRC_SIZE
    ensures CrcMatches(raw) <==> AllZero(RtcmCrc24q.Crc(raw))
  {
    var n := |raw| - CRC_SIZE;
    assert raw == raw[..n] + raw[n..];
    RtcmCrc24q.AcceptedIffZeroResidue(raw[..n], raw[n..]);
  }

  function FrameOf(raw: seq<byte>, ts: Timestamp): (f: RtcmFrame)
    requires |raw| >= HEADER_SIZE + CRC_SIZE
    ensures f.rawBytes == raw && f.ts == ts
    ensures f.status == if CrcMatches(raw) then Valid else Invalid
  {
    var n := |raw| - CRC_SIZE;
    var payload := raw[HEADER_SIZE..n];
    var messageType := match ExtractRtcmMessageType(payload) case Some(t) => t case None => 0;
    RtcmFrame(ts, messageType, payload, raw,
              RtcmCrc24q.ReadTrailer(raw[n..]), RtcmCrc24q.Number(RtcmCrc24q.Crc(raw[..n])),
              if CrcMatches(raw) then Valid else Invalid)
  }

  predicate ValidFrameAt(max: nat, bytes: seq<byte>, k: nat) {
    && k + HEADER_SIZE + CRC_SIZE <= |bytes|
    && bytes[k] == PREAMBLE && bytes[k + 1] < 4
    && DeclaredSize(bytes, k) <= max
    && DeclaredSize(bytes, k) <= |bytes| - k
    && CrcMatches(bytes[k..k + DeclaredSize(bytes, k)])
  }

  /** The least offset, not below `from`, of a complete valid frame. */
  function FirstValidFrame(max: nat, bytes: seq<byte>, from: nat): (k: Option<nat>)
    ensures k.Some? ==> from <= k.value && ValidFrameAt(max, bytes, k.value)
                        && k.value + HEADER_SIZE + CRC_SIZE <= k.value + DeclaredSize(bytes, k.value) <= |bytes|
    ensures k.Some? ==> forall j :: from <= j < k.value ==> !ValidFrameAt(max, bytes, j)
    ensures k == None ==> forall j :: from <= j ==> !ValidFrameAt(max, bytes, j)
    decreases |bytes| - from
  {
    if from + HEADER_SIZE + CRC_SIZE > |bytes| then None
    else if ValidFrameAt(max, bytes, from) then Some(from)
    else FirstValidFrame(max, bytes, from + 1)
  }

  function ReportedSlice(max: nat, bytes: seq<byte>): (slice: (nat, nat))
    requires |bytes| >= HEADER_SIZE + CRC_SIZE
    ensures slice.0 < slice.1 <= |bytes| && slice.1 - slice.0 >= HEADER_SIZE + CRC_SIZE
  {
    if CrcMatches(bytes) then (0, |bytes|)
    else match FirstValidFrame(max, bytes, 1)
      case Some(k) => (k, k + DeclaredSize(bytes, k))
      case None => (0, |bytes|)
  }

  function Report(max: nat, held: Pending): RtcmFrame
    requires |held| >= HEADER_SIZE + CRC_SIZE
  {
    var (from, to) := ReportedSlice(max, Values(held));
    FrameOf(Values(held)[from..to], held[from].ts)
  }

  lemma ReportCases(max: nat, held: Pending)
    requires |held| >= HEADER_SIZE + CRC_SIZE
    ensures var b := Values(held);
            Report(max, held) ==
              if CrcMatches(b) then FrameOf(b, held[0].ts)
              else match FirstValidFrame(max, b, 1)
                case Some(k) => FrameOf(b[k..k + DeclaredSize(b, k)], held[k].ts)
                case None => FrameOf(b, held[0].ts)
  {
    hide CrcMatches, FirstValidFrame, FrameOf, DeclaredSize;
    assert Values(held)[0..|held|] == Values(held);
  }

  /** The framer as a function of the bytes it holds. */
  function Push(max: nat, held: Pending, s: Stamped): (Pending, ParserResult<RtcmFrame>) {
    if held == [] then
      if s.value == PREAMBLE then ([s], NeedMoreData) else ([], Skipped)
    else if |held| == 1 && s.value >= 4 then
      if s.value == PREAMBLE then ([s], NeedMoreData) else ([], InvalidData)
    else
      var grown := held + [s];
      if |grown| == HEADER_SIZE && DeclaredSize(Values(grown), 0) > max then ([], Overflow)
      else if |grown| > max then ([], Overflow)
      else if |grown| < HEADER_SIZE || |grown| < DeclaredSize(Values(grown), 0) then (grown, NeedMoreData)
      else ([], RecordReady(Report(max, grown)))
  }

  predicate Holds(max: nat, held: Pending) {
    && (|held| >= 1 ==> held[0].value == PREAMBLE)
    && (|held| >= 2 ==> held[1].value < 4)
    && (|held| >= HEADER_SIZE ==> |held| < DeclaredSize(Values(held), 0) <= max)
  }

  lemma PushHolds(max: nat, held: Pending, s: Stamped)
    requires Holds(max, held)
    ensures Holds(max, Push(max, held, s).0)
    ensures Push(max, held, s).1.RecordReady? ==>
              && |held| + 1 == DeclaredSize(Values(held + [s]), 0) <= max
              && Push(max, held, s).1.record == Report(max, held + [s])
  {
    var grown := held + [s];
    if |grown| > HEADER_SIZE {
      assert Values(grown)[1] == Values(held)[1] && Values(grown)[2] == Values(held)[2];
    }
  }

  function FramerFor(max: nat): Framer<RtcmFrame> {
    (held, s) => Push(max, held, s)
  }

  /** Where a report lies in a full buffer, its bytes and its time. */
  function Placing(max: nat): S.Shape<RtcmFrame> {
    S.Shape(grown => if |grown| >= HEADER_SIZE + CRC_SIZE then ReportedSlice(max, Values(grown)) else (0, |grown|),
            (f: RtcmFrame) => f.rawBytes, (f: RtcmFrame) => f.ts)
  }

  lemma PushSlices(max: nat)
    ensures S.Slicing(FramerFor(max), Placing(max))
  {
    hide ReportedSlice, FrameOf;
  }

  /** Over any input the reports are slices of the stream, in order and without overlap. */
  lemma ReportsAreDisjointSlices(max: nat, done: seq<Stamped>, held: Pending, input: seq<Stamped>)
    requires IsSuffix(held, done)
    ensures S.DisjointSlices(done + input, Placing(max), S.Locate(FramerFor(max), Placing(max), held, |done|, input),
                             |done| - |held|)
  {
    PushSlices(max);
    S.RecordsAreDisjointSlices(FramerFor(max), Placing(max), done, held, input);
  }

  class RtcmFrameFramer {
    const maxFrameLength: nat
    var buffer: seq<byte>
    var byteTimestamps: seq<Timestamp>
    var frameTimestamp: Timestamp
    var expectedFrameSize: nat

    ghost function Held(): Pending
      reads this
      requires |buffer| == |byteTimestamps|
    {
      Zip(buffer, byteTimestamps)
    }

    ghost predicate Valid()
      reads this
    {
      && |buffer| == |byteTimestamps|
      && Holds(maxFrameLength, Held())
      && (buffer != [] ==> frameTimestamp == byteTimestamps[0])
      && expectedFrameSize == (if |buffer| < HEADER_SIZE then 0 else DeclaredSize(buffer, 0))
    }

    constructor (maxFrameLength: nat)
      ensures Valid() && Held() == [] && this.maxFrameLength == maxFrameLength
    {
      this.maxFrameLength := maxFrameLength;
      buffer, byteTimestamps, frameTimestamp, expectedFrameSize := [], [], None, 0;
    }

    method Reset()
      modifies this
      ensures Valid() && Held() == []
    {
      buffer, byteTimestamps, frameTimestamp, expectedFrameSize := [], [], None, 0;
    }

    method PushByte(value: byte, ts: Timestamp) returns (result: ParserResult<RtcmFrame>)
      requires Valid()
      modifies this
      ensures Valid()
      ensures (Held(), result) == Push(maxFrameLength, old(Held()), Stamped(value, ts))
    {
      hide FrameOf, FirstValidFrame, ReportedSlice, Report, CrcMatches;
      if buffer == [] {
        result := StartFrame(value, ts);
      } else if |buffer| == 1 && value >= 4 {
        if value == PREAMBLE {
          buffer, byteTimestamps := [value], [ts];
          frameTimestamp, expectedFrameSize := ts, 0;
          assert Held() == [Stamped(value, ts)];
          return NeedMoreData;
        }
        Reset();
        return InvalidData;
      } else {
        result := ContinueFrame(value, ts);
      }
    }

    /** `PushByte` once the byte after the preamble can start a header. */
    method ContinueFrame(value: byte, ts: Timestamp) returns (result: ParserResult<RtcmFrame>)
      requires Valid() && |buffer| >= 1 && (|buffer| == 1 ==> value < 4)
      modifies this
      ensures Valid()
      ensures (Held(), result) == Push(maxFrameLength, old(Held()), Stamped(value, ts))
    {
      hide FrameOf, FirstValidFrame, ReportedSlice, Report, CrcMatches;
      PushHolds(maxFrameLength, Held(), Stamped(value, ts));
      AppendByte(value, ts);
      if |buffer| == HEADER_SIZE {
        expectedFrameSize := HEADER_SIZE + (buffer[1] % 4 as nat * 0x100 + buffer[2]) + CRC_SIZE;
        if expectedFrameSize > maxFrameLength {
          Reset();
          return Overflow;
        }
      }
      if buffer != [] && |buffer| > maxFrameLength {
        Reset();
        return Overflow;
      }
      if expectedFrameSize == 0 || |buffer| < expectedFrameSize {
        return NeedMoreData;
      }
      result := ReportFrame();
      Reset();
    }

    /** The tail of `PushByte`: the frame that fills the buffer or, failing its CRC, one inside it. */
    method ReportFrame() returns (result: ParserResult<RtcmFrame>)
      requires |buffer| == |byteTimestamps| && |buffer| >= HEADER_SIZE + CRC_SIZE
      requires frameTimestamp == byteTimestamps[0]
      ensures result == RecordReady(Report(maxFrameLength, Held()))
    {
      hide FrameOf, ReportedSlice, Report, ValidFrameAt, CrcMatches, FirstValidFrame;
      var frame := FrameOf(buffer, frameTimestamp);
      ZipValues(buffer, byteTimestamps);
      ReportCases(maxFrameLength, Held());
      if frame.status != ChecksumStatus.Valid {
        var recovered := FindEmbeddedValidFrame();
        return RecordReady(if recovered.Some? then recovered.value else frame);
      }
      return RecordReady(frame);
    }

    method StartFrame(value: byte, ts: Timestamp) returns (result: ParserResult<RtcmFrame>)
      requires Valid() && buffer == []
      modifies this
      ensures Valid()
      ensures (Held(), result) == Push(maxFrameLength, [], Stamped(value, ts))
    {
      if value != PREAMBLE {
        return Skipped;
      }
      AppendByte(value, ts);
      assert Held() == [Stamped(value, ts)];
      frameTimestamp, expectedFrameSize := ts, 0;
      return NeedMoreData;
    }

    method AppendByte(value: byte, ts: Timestamp)
      requires |buffer| == |byteTimestamps|
      modifies `buffer, `byteTimestamps
      ensures buffer == old(buffer) + [value] && byteTimestamps == old(byteTimestamps) + [ts]
      ensures Held() == old(Held()) + [Stamped(value, ts)]
      ensures Values(Held()) == buffer
    {
      buffer, byteTimestamps := buffer + [value], byteTimestamps + [ts];
      ZipValues(buffer, byteTimestamps);
    }

    method FindEmbeddedValidFrame() returns (found: Option<RtcmFrame>)
      requires |buffer| == |byteTimestamps|
      ensures match FirstValidFrame(maxFrameLength, buffer, 1)
              case Some(k) =>
                found == Some(FrameOf(buffer[k..k + DeclaredSize(buffer, k)], byteTimestamps[k]))
              case None => found == None
    {
      hide FrameOf, CrcMatches;
      var offset := 1;
      while offset + HEADER_SIZE + CRC_SIZE <= |buffer|
        invariant 1 <= offset
        invariant FirstValidFrame(maxFrameLength, buffer, 1) == FirstValidFrame(maxFrameLength, buffer, offset)
        decreases |buffer| - offset
      {
        if buffer[offset] == PREAMBLE && buffer[offset + 1] < 4 {
          var size := HEADER_SIZE + (buffer[offset + 1] % 4 as nat * 0x100 + buffer[offset + 2]) + CRC_SIZE;
          if !(size > maxFrameLength || size > |buffer| - offset) {
            var candidate := FrameOf(buffer[offset..offset + size], byteTimestamps[offset]);
            if candidate.status == ChecksumStatus.Valid {
              return Some(candidate);
            }
          }
        }
        offset := offset + 1;
      }
      return None;
    }

    method Finalize() returns (result: ParserResult<RtcmFrame>)
      requires Valid()
      modifies this
      ensures Valid() && Held() == []
      ensures result == Framing.Finalize(old(Held()))
    {
      if buffer == [] {
        return Idle;
      }
      Reset();
      return Truncated;
    }
  }
}
