/**
 The UBX framer, `gnss_protocols/src/ubx_framer.cpp`, and the frame builder the configuration
 commands use, `BuildUbxFrame` of `gnss_protocols/src/ubx_cfg_builder.cpp`.
 */
module UbxFramer {
  import opened Bits
  import opened Framing
  import opened UbxChecksum

  const SYNC1: byte := 0xB5
  const SYNC2: byte := 0x62
  const HEADER_SIZE := 6
  const CHECKSUM_SIZE := 2

  datatype UbxFrame = UbxFrame(
    ts: Timestamp, classId: byte, messageId: byte, payload: seq<byte>, rawBytes: seq<byte>,
    reported: Checksum, computed: Checksum, status: ChecksumStatus)

  datatype Message = Message(classId: byte, messageId: byte, payload: seq<byte>)

  function BuildUbxFrame(m: Message): (frame: seq<byte>)
    ensures |frame| == HEADER_SIZE + |m.payload| + CHECKSUM_SIZE
  {
    var n := |m.payload|;
    var body := [m.classId, m.messageId, n % 256, n / 256 % 256] + m.payload;
    var sums := Fletcher(body);
    [SYNC1, SYNC2] + body + [sums.a, sums.b]
  }

  /** The frame size that the header starting at `at` declares. */
  function DeclaredSize(bytes: seq<byte>, at: nat): nat
    requires at + HEADER_SIZE <= |bytes|
  {
    HEADER_SIZE + LittleEndian16(bytes[at + 4], bytes[at + 5]) + CHECKSUM_SIZE
  }

  /** The two trailing bytes are the checksum of everything between the sync bytes and them. */
  predicate ChecksumMatches(raw: seq<byte>)
    requires |raw| >= HEADER_SIZE + CHECKSUM_SIZE
  {
    Fletcher(raw[2..|raw| - 2]) == Checksum(raw[|raw| - 2], raw[|raw| - 1])
  }

  /** The frame record for a slice of the buffer. */
  function FrameOf(raw: seq<byte>, ts: Timestamp): (f: UbxFrame)
    requires |raw| >= HEADER_SIZE + CHECKSUM_SIZE
    ensures f.rawBytes == raw && f.ts == ts && |f.payload| == |raw| - HEADER_SIZE - CHECKSUM_SIZE
    ensures f.status == if ChecksumMatches(raw) then Valid else Invalid
  {
    var n := |raw|;
    var reported := Checksum(raw[n - 2], raw[n - 1]);
    var computed := Fletcher(raw[2..n - 2]);
    UbxFrame(ts, raw[2], raw[3], raw[6..n - 2], raw, reported, computed,
             if reported == computed then Valid else Invalid)
  }

  /** A complete frame with a matching checksum lies at offset `k`. */
  predicate ValidFrameAt(max: nat, bytes: seq<byte>, k: nat) {
    && k + HEADER_SIZE + CHECKSUM_SIZE <= |bytes|
    && bytes[k] == SYNC1 && bytes[k + 1] == SYNC2
    && DeclaredSize(bytes, k) <= max
    && DeclaredSize(bytes, k) <= |bytes| - k
    && ChecksumMatches(bytes[k..k + DeclaredSize(bytes, k)])
  }

  /** The least offset, not below `from`, of a complete valid frame. */
  function FirstValidFrame(max: nat, bytes: seq<byte>, from: nat): (k: Option<nat>)
    ensures k.Some? ==> from <= k.value && ValidFrameAt(max, bytes, k.value)
                        && k.value + HEADER_SIZE + CHECKSUM_SIZE <= k.value + DeclaredSize(bytes, k.value) <= |bytes|
    ensures k.Some? ==> forall j :: from <= j < k.value ==> !ValidFrameAt(max, bytes, j)
    ensures k == None ==> forall j :: from <= j ==> !ValidFrameAt(max, bytes, j)
    decreases |bytes| - from
  {
    if from + HEADER_SIZE + CHECKSUM_SIZE > |bytes| then None
    else if ValidFrameAt(max, bytes, from) then Some(from)
    else FirstValidFrame(max, bytes, from + 1)
  }

  /** Where, in a buffer holding one whole frame, the frame to report starts and how long it is. */
  function ReportedSlice(max: nat, bytes: seq<byte>): (slice: (nat, nat))
    requires |bytes| >= HEADER_SIZE + CHECKSUM_SIZE
    ensures slice.0 < slice.1 <= |bytes| && slice.1 - slice.0 >= HEADER_SIZE + CHECKSUM_SIZE
  {
    if ChecksumMatches(bytes) then (0, |bytes|)
    else match FirstValidFrame(max, bytes, 1)
      case Some(k) => (k, k + DeclaredSize(bytes, k))
      case None => (0, |bytes|)
  }

  function Report(max: nat, held: Pending): UbxFrame
    requires |held| >= HEADER_SIZE + CHECKSUM_SIZE
  {
    var (from, to) := ReportedSlice(max, Values(held));
    FrameOf(Values(held)[from..to], held[from].ts)
  }

  lemma ReportCases(max: nat, held: Pending)
    requires |held| >= HEADER_SIZE + CHECKSUM_SIZE
    ensures var b := Values(held);
            Report(max, held) ==
              if ChecksumMatches(b) then FrameOf(b, held[0].ts)
              else match FirstValidFrame(max, b, 1)
                case Some(k) => FrameOf(b[k..k + DeclaredSize(b, k)], held[k].ts)
                case None => FrameOf(b, held[0].ts)
  {
    assert Values(held)[0..|held|] == Values(held);
  }

  /** The framer as a function of the bytes it holds. */
  function Push(max: nat, held: Pending, s: Stamped): (Pending, ParserResult<UbxFrame>) {
    if held == [] then
      if s.value == SYNC1 then ([s], NeedMoreData) else ([], Skipped)
    else if |held| == 1 then
      if s.value == SYNC2 then (held + [s], NeedMoreData)
      else if s.value == SYNC1 then ([s], NeedMoreData)
      else ([], Skipped)
    else
      var grown := held + [s];
      if |grown| == HEADER_SIZE && DeclaredSize(Values(grown), 0) > max then ([], Overflow)
      else if |grown| > max then ([], Overflow)
      else if |grown| < HEADER_SIZE || |grown| < DeclaredSize(Values(grown), 0) then (grown, NeedMoreData)
      else ([], RecordReady(Report(max, grown)))
  }

  /** What holds of the bytes a framer holds between two calls. */
  predicate Holds(max: nat, held: Pending) {
    && (|held| >= 1 ==> held[0].value == SYNC1)
    && (|held| >= 2 ==> held[1].value == SYNC2)
    && (|held| >= HEADER_SIZE ==> |held| < DeclaredSize(Values(held), 0) <= max)
  }

  lemma PushHolds(max: nat, held: Pending, s: Stamped)
    requires Holds(max, held)
    ensures Holds(max, Push(max, held, s).0)
    ensures Push(max, held, s).1.RecordReady? ==>
              && |held| + 1 == DeclaredSize(Values(held + [s]), 0) <= max
              && Values(held + [s])[..2] == [SYNC1, SYNC2]
              && Push(max, held, s).1.record == Report(max, held + [s])
    ensures Push(max, held, s).0 == [] || IsSuffix(Push(max, held, s).0, held + [s])
  {
    var grown := held + [s];
    if |grown| > HEADER_SIZE {
      assert Values(grown)[4] == Values(held)[4] && Values(grown)[5] == Values(held)[5];
    }
  }

  class UbxFrameFramer {
    const maxFrameLength: nat
    var buffer: seq<byte>
    var byteTimestamps: seq<Timestamp>
    var frameTimestamp: Timestamp
    var expectedFrameSize: nat

    /** The bytes held, each with its own read time. */
    ghost function Held(): Pending
      reads this
      requires |buffer| == |byteTimestamps|
    {
      Zip(buffer, byteTimestamps)
    }

    ghost predicate Valid()
      reads this
    {
      && |buffer| == |byteTimestamps|
      && Holds(maxFrameLength, Held())
      && (buffer != [] ==> frameTimestamp == byteTimestamps[0])
      && expectedFrameSize == (if |buffer| < HEADER_SIZE then 0 else DeclaredSize(buffer, 0))
    }

    constructor (maxFrameLength: nat)
      ensures Valid() && Held() == [] && this.maxFrameLength == maxFrameLength
    {
      this.maxFrameLength := maxFrameLength;
      buffer, byteTimestamps, frameTimestamp, expectedFrameSize := [], [], None, 0;
    }

    method Reset()
      modifies this
      ensures Valid() && Held() == []
    {
      buffer, byteTimestamps, frameTimestamp, expectedFrameSize := [], [], None, 0;
    }

    method PushByte(value: byte, ts: Timestamp) returns (result: ParserResult<UbxFrame>)
      requires Valid()
      modifies this
      ensures Valid()
      ensures (Held(), result) == Push(maxFrameLength, old(Held()), Stamped(value, ts))
    {
      hide FrameOf, FirstValidFrame, ReportedSlice, Report, ChecksumMatches;
      if buffer == [] {
        result := StartSync(value, ts);
      } else if |buffer| == 1 {
        if value == SYNC2 {
          AppendByte(value, ts);
          return NeedMoreData;
        }
        if value == SYNC1 {
          buffer, byteTimestamps, frameTimestamp := [value], [ts], ts;
          assert Held() == [Stamped(value, ts)];
          return NeedMoreData;
        }
        Reset();
        return Skipped;
      } else {
        result := ContinueFrame(value, ts);
      }
    }

    /** `PushByte` once both sync bytes are held. */
    method ContinueFrame(value: byte, ts: Timestamp) returns (result: ParserResult<UbxFrame>)
      requires Valid() && |buffer| >= 2
      modifies this
      ensures Valid()
      ensures (Held(), result) == Push(maxFrameLength, old(Held()), Stamped(value, ts))
    {
      hide FrameOf, FirstValidFrame, ReportedSlice, Report, ChecksumMatches;
      PushHolds(maxFrameLength, Held(), Stamped(value, ts));
      AppendByte(value, ts);
      if |buffer| == HEADER_SIZE {
        expectedFrameSize := HEADER_SIZE + LittleEndian16(buffer[4], buffer[5]) + CHECKSUM_SIZE;
        if expectedFrameSize > maxFrameLength {
          Reset();
          return Overflow;
        }
      }
      if buffer != [] && |buffer| > maxFrameLength {
        Reset();
        return Overflow;
      }
      if expectedFrameSize == 0 || |buffer| < expectedFrameSize {
        return NeedMoreData;
      }
      result := ReportFrame();
      Reset();
    }

    /** The tail of `PushByte`: the frame that fills the buffer or, failing its checksum, one inside it. */
    method ReportFrame() returns (result: ParserResult<UbxFrame>)
      requires |buffer| == |byteTimestamps| && |buffer| >= HEADER_SIZE + CHECKSUM_SIZE
      requires frameTimestamp == byteTimestamps[0]
      ensures result == RecordReady(Report(maxFrameLength, Held()))
    {
      hide FrameOf, ReportedSlice, Report, ValidFrameAt, ChecksumMatches, FirstValidFrame;
      var frame := FrameOf(buffer, frameTimestamp);
      ZipValues(buffer, byteTimestamps);
      ReportCases(maxFrameLength, Held());
      if frame.status != ChecksumStatus.Valid {
        var recovered := FindEmbeddedValidFrame();
        return RecordReady(if recovered.Some? then recovered.value else frame);
      }
      return RecordReady(frame);
    }

    method StartSync(value: byte, ts: Timestamp) returns (result: ParserResult<UbxFrame>)
      requires Valid() && buffer == []
      modifies this
      ensures Valid()
      ensures (Held(), result) == Push(maxFrameLength, [], Stamped(value, ts))
    {
      if value != SYNC1 {
        return Skipped;
      }
      AppendByte(value, ts);
      assert Held() == [Stamped(value, ts)];
      frameTimestamp, expectedFrameSize := ts, 0;
      return NeedMoreData;
    }

    method AppendByte(value: byte, ts: Timestamp)
      requires |buffer| == |byteTimestamps|
      modifies `buffer, `byteTimestamps
      ensures buffer == old(buffer) + [value] && byteTimestamps == old(byteTimestamps) + [ts]
      ensures Held() == old(Held()) + [Stamped(value, ts)]
      ensures Values(Held()) == buffer
    {
      buffer, byteTimestamps := buffer + [value], byteTimestamps + [ts];
      ZipValues(buffer, byteTimestamps);
    }

    method FindEmbeddedValidFrame() returns (found: Option<UbxFrame>)
      requires |buffer| == |byteTimestamps|
      ensures match FirstValidFrame(maxFrameLength, buffer, 1)
              case Some(k) =>
                found == Some(FrameOf(buffer[k..k + DeclaredSize(buffer, k)], byteTimestamps[k]))
              case None => found == None
    {
      hide FrameOf, ChecksumMatches;
      var offset := 1;
      while offset + HEADER_SIZE + CHECKSUM_SIZE <= |buffer|
        invariant 1 <= offset
        invariant FirstValidFrame(maxFrameLength, buffer, 1) == FirstValidFrame(maxFrameLength, buffer, offset)
        decreases |buffer| - offset
      {
        if buffer[offset] == SYNC1 && buffer[offset + 1] == SYNC2 {
          var size := HEADER_SIZE + LittleEndian16(buffer[offset + 4], buffer[offset + 5]) + CHECKSUM_SIZE;
          if !(size > maxFrameLength || size > |buffer| - offset) {
            var candidate := FrameOf(buffer[offset..offset + size], byteTimestamps[offset]);
            if candidate.status == ChecksumStatus.Valid {
              return Some(candidate);
            }
          }
        }
        offset := offset + 1;
      }
      return None;
    }

    method Finalize() returns (result: ParserResult<UbxFrame>)
      requires Valid()
      modifies this
      ensures Valid() && Held() == []
      ensures result == Framing.Finalize(old(Held()))
    {
      if buffer == [] {
        return Idle;
      }
      Reset();
      return Truncated;
    }
  }
}
