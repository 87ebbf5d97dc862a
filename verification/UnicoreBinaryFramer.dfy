/** The Unicore binary framer, `gnss_protocols/src/unicore_binary_framer.cpp`. */
module UnicoreBinaryFramer {
  import opened Bits
  import opened Framing
  import UnicoreCrc32
  import S = FrameSlices

  const SYNC1: byte := 0xAA
  const SYNC2: byte := 0x44
  const SYNC3: byte := 0xB5
  const HEADER_SIZE := 24
  const CRC_SIZE := 4

  datatype UnicoreBinaryFrame = UnicoreBinaryFrame(
    ts: Timestamp, cpuIdle: byte, messageId: nat, payloadLength: nat, timeRef: byte, timeStatus: byte,
    weekNumber: nat, millisecondsOfWeek: nat, headerVersion: nat, reserved: byte, leapSeconds: byte,
    delayMs: nat, payload: seq<byte>, rawBytes: seq<byte>, reported: nat, computed: nat,
    status: ChecksumStatus)

  /** The frame size that the header starting at `at` declares. */
  function DeclaredSize(bytes: seq<byte>, at: nat): nat
    requires at + HEADER_SIZE <= |bytes|
  {
    HEADER_SIZE + LittleEndian16(bytes[at + 6], bytes[at + 7]) + CRC_SIZE
  }

  predicate CrcMatches(raw: seq<byte>)
    requires |raw| >= HEADER_SIZE + CRC_SIZE
  {
    UnicoreCrc32.Accepted(raw[..|raw| - CRC_SIZE], raw[|raw| - CRC_SIZE..])
  }

  /** The framer's test is the residue test over the whole frame, trailer included. */
  lemma CrcMatchesIffZeroResidue(raw: seq<byte>)
    requires |raw| >= HEADER_SIZE + CRC_SIZE
    ensures CrcMatches(raw) <==> AllZero(UnicoreCrc32.Crc(raw))
  {
    var n := |raw| - CRC_SIZE;
    assert raw == raw[..n] + raw[n..];
    UnicoreCrc32.AcceptedIffZeroResidue(raw[..n], raw[n..]);
  }

  function Four(bytes: seq<byte>, at: nat): nat
    requires at + 4 <= |bytes|
  {
    UnicoreCrc32.ReadLittleEndian32(bytes[at..at + 4])
  }

  /** The frame record for a slice of the buffer. */
  function FrameOf(raw: seq<byte>, ts: Timestamp): (f: UnicoreBinaryFrame)
    requires |raw| >= HEADER_SIZE + CRC_SIZE
    ensures f.rawBytes == raw && f.ts == ts
    ensures f.status == if CrcMatches(raw) then Valid else Invalid
  {
    var n := |raw| - CRC_SIZE;
    UnicoreBinaryFrame(
      ts, raw[3], LittleEndian16(raw[4], raw[5]), LittleEndian16(raw[6], raw[7]), raw[8], raw[9],
      LittleEndian16(raw[10], raw[11]), Four(raw, 12), Four(raw, 16), raw[20], raw[21],
      LittleEndian16(raw[22], raw[23]), raw[HEADER_SIZE..n], raw,
      UnicoreCrc32.ReadLittleEndian32(raw[n..]), UnicoreCrc32.Number(UnicoreCrc32.Crc(raw[..n])),
      if CrcMatches(raw) then Valid else Invalid)
  }

  /** A complete frame with a matching CRC lies at offset `k`. */
  predicate ValidFrameAt(max: nat, bytes: seq<byte>, k: nat) {
    && k + HEADER_SIZE + CRC_SIZE <= |bytes|
    && bytes[k] == SYNC1 && bytes[k + 1] == SYNC2 && bytes[k + 2] == SYNC3
    && DeclaredSize(bytes, k) <= max
    && DeclaredSize(bytes, k) <= |bytes| - k
    && CrcMatches(bytes[k..k + DeclaredSize(bytes, k)])
  }

  /** The least offset, not below `from`, of a complete valid frame. */
  function FirstValidFrame(max: nat, bytes: seq<byte>, from: nat): (k: Option<nat>)
    ensures k.Some? ==> from <= k.value && ValidFrameAt(max, bytes, k.value)
                        && k.value + HEADER_SIZE + CRC_SIZE <= k.value + DeclaredSize(bytes, k.value) <= |bytes|
    ensures k.Some? ==> forall j :: from <= j < k.value ==> !ValidFrameAt(max, bytes, j)
    ensures k == None ==> forall j :: from <= j ==> !ValidFrameAt(max, bytes, j)
    decreases |bytes| - from
  {
    if from + HEADER_SIZE + CRC_SIZE > |bytes| then None
    else if ValidFrameAt(max, bytes, from) then Some(from)
    else FirstValidFrame(max, bytes, from + 1)
  }

  /** What a full buffer is answered with: unlike the other two framers, never a frame that fails its CRC. */
  function Report(max: nat, held: Pending): ParserResult<UnicoreBinaryFrame>
    requires |held| >= HEADER_SIZE + CRC_SIZE
  {
    var bytes := Values(held);
    if CrcMatches(bytes) then RecordReady(FrameOf(bytes, held[0].ts))
    else match FirstValidFrame(max, bytes, 1)
      case Some(k) => RecordReady(FrameOf(bytes[k..k + DeclaredSize(bytes, k)], held[k].ts))
      case None => InvalidData
  }

  /** The framer as a function of the bytes it holds. */
  function Push(max: nat, held: Pending, s: Stamped): (Pending, ParserResult<UnicoreBinaryFrame>) {
    if held == [] then
      if s.value == SYNC1 then ([s], NeedMoreData) else ([], Skipped)
    else if |held| <= 2 then
      if s.value == (if |held| == 1 then SYNC2 else SYNC3) then (held + [s], NeedMoreData)
      else if s.value == SYNC1 then ([s], NeedMoreData)
      else ([], Skipped)
    else
      var grown := held + [s];
      if |grown| == HEADER_SIZE && DeclaredSize(Values(grown), 0) > max then ([], Overflow)
      else if |grown| > max then ([], Overflow)
      else if |grown| < HEADER_SIZE || |grown| < DeclaredSize(Values(grown), 0) then (grown, NeedMoreData)
      else ([], Report(max, grown))
  }

  /** What holds of the bytes a framer holds between two calls. */
  predicate Holds(max: nat, held: Pending) {
    && (|held| >= 1 ==> held[0].value == SYNC1)
    && (|held| >= 2 ==> held[1].value == SYNC2)
    && (|held| >= 3 ==> held[2].value == SYNC3)
    && (|held| >= HEADER_SIZE ==> |held| < DeclaredSize(Values(held), 0) <= max)
  }

  lemma PushHolds(max: nat, held: Pending, s: Stamped)
    requires Holds(max, held)
    ensures Holds(max, Push(max, held, s).0)
    ensures Push(max, held, s).1.RecordReady? ==>
              && |held| + 1 == DeclaredSize(Values(held + [s]), 0) <= max
              && Push(max, held, s).1 == Report(max, held + [s])
  {
    hide Report;
    var grown := held + [s];
    if |grown| > HEADER_SIZE {
      assert Values(grown)[6] == Values(held)[6] && Values(grown)[7] == Values(held)[7];
    }
  }

  function FramerFor(max: nat): Framer<UnicoreBinaryFrame> {
    (held, s) => Push(max, held, s)
  }

  /** Where a report lies in a full buffer. */
  function ReportedSlice(max: nat, bytes: seq<byte>): (nat, nat)
    requires |bytes| >= HEADER_SIZE + CRC_SIZE
  {
    if CrcMatches(bytes) then (0, |bytes|)
    else match FirstValidFrame(max, bytes, 1)
      case Some(k) => (k, k + DeclaredSize(bytes, k))
      case None => (0, |bytes|)
  }

  function Placing(max: nat): S.Shape<UnicoreBinaryFrame> {
    S.Shape(grown => if |grown| >= HEADER_SIZE + CRC_SIZE then ReportedSlice(max, Values(grown)) else (0, |grown|),
            (f: UnicoreBinaryFrame) => f.rawBytes, (f: UnicoreBinaryFrame) => f.ts)
  }

  lemma ReportSlices(max: nat, grown: Pending)
    requires |grown| >= HEADER_SIZE + CRC_SIZE && Report(max, grown).RecordReady?
    ensures var (from, to) := ReportedSlice(max, Values(grown));
            && from < to <= |grown|
            && Report(max, grown).record.rawBytes == Values(grown)[from..to]
            && Report(max, grown).record.ts == grown[from].ts
  {
    hide FrameOf, CrcMatches, FirstValidFrame;
    assert Values(grown)[0..|grown|] == Values(grown);
  }

  /** A byte is held with what was held, held alone, or ends what was held. */
  lemma PushCases(max: nat, held: Pending, s: Stamped)
    ensures var (next, result) := Push(max, held, s);
            && (next == [] || next == [s] || next == held + [s])
            && (result.RecordReady? ==>
                  next == [] && |held + [s]| >= HEADER_SIZE + CRC_SIZE && result == Report(max, held + [s]))
  {
    hide Report;
  }

  lemma PushSlicesAt(max: nat, held: Pending, s: Stamped)
    ensures S.SlicesAt(FramerFor(max), Placing(max), held, s)
  {
    hide Report, ReportedSlice, Push;
    PushCases(max, held, s);
    var grown := held + [s];
    assert grown[|grown|..] == [] && grown[|held|..] == [s] && grown[0..] == grown;
    if Push(max, held, s).1.RecordReady? {
      ReportSlices(max, grown);
    }
  }

  lemma PushSlices(max: nat)
    ensures S.Slicing(FramerFor(max), Placing(max))
  {
    hide S.SlicesAt;
    forall held: Pending, s: Stamped ensures S.SlicesAt(FramerFor(max), Placing(max), held, s) {
      PushSlicesAt(max, held, s);
    }
  }

  /** Over any input the reports are slices of the stream, in order and without overlap. */
  lemma ReportsAreDisjointSlices(max: nat, done: seq<Stamped>, held: Pending, input: seq<Stamped>)
    requires IsSuffix(held, done)
    ensures S.DisjointSlices(done + input, Placing(max), S.Locate(FramerFor(max), Placing(max), held, |done|, input),
                             |done| - |held|)
  {
    PushSlices(max);
    S.RecordsAreDisjointSlices(FramerFor(max), Placing(max), done, held, input);
  }

  lemma ReportIsSound(max: nat, held: Pending)
    requires |held| >= HEADER_SIZE + CRC_SIZE && Report(max, held).RecordReady?
    ensures var f := Report(max, held).record;
            && f.status == Valid
            && f.rawBytes in Slices(Values(held))
            && AllZero(UnicoreCrc32.Crc(f.rawBytes))
  {
    hide FrameOf, CrcMatches, UnicoreCrc32.Crc;
    var bytes := Values(held);
    if CrcMatches(bytes) {
      CrcMatchesIffZeroResidue(bytes);
      assert bytes == bytes[0..|bytes|];
    } else {
      var k := FirstValidFrame(max, bytes, 1).value;
      CrcMatchesIffZeroResidue(bytes[k..k + DeclaredSize(bytes, k)]);
    }
  }

  /** The contiguous parts of a byte string. */
  ghost function Slices(bytes: seq<byte>): iset<seq<byte>> {
    iset i, j | 0 <= i <= j <= |bytes| :: bytes[i..j]
  }

  /** Over any input, whatever is reported leaves a zero CRC residue: no damaged frame gets through. */
  lemma {:induction false} ReportsLeaveZeroResidue(max: nat, held: Pending, input: seq<Stamped>)
    requires Holds(max, held)
    ensures forall f :: f in Run(FramerFor(max), held, input).1 ==>
              f.status == Valid && AllZero(UnicoreCrc32.Crc(f.rawBytes))
    decreases |input|
  {
    hide Report, UnicoreCrc32.Crc;
    if input != [] {
      PushHolds(max, held, input[0]);
      if Push(max, held, input[0]).1.RecordReady? {
        ReportIsSound(max, held + [input[0]]);
      }
      ReportsLeaveZeroResidue(max, Push(max, held, input[0]).0, input[1..]);
    }
  }

  /** The trailer read and the CRC computed for one candidate frame. */
  method TrailerMatches(raw: seq<byte>) returns (valid: bool)
    requires |raw| >= HEADER_SIZE + CRC_SIZE
    ensures valid <==> CrcMatches(raw)
  {
    hide UnicoreCrc32.Crc, UnicoreCrc32.Number;
    var n := |raw| - CRC_SIZE;
    var expected := UnicoreCrc32.ReadLittleEndian32(raw[n..]);
    valid := UnicoreCrc32.ValidateUnicoreBinaryCrc32(raw[..n], expected);
  }

  class UnicoreBinaryFrameFramer {
    const maxFrameLength: nat
    var buffer: seq<byte>
    var byteTimestamps: seq<Timestamp>
    var frameTimestamp: Timestamp
    var expectedFrameSize: nat

    /** The bytes held, each with its own read time. */
    ghost function Held(): Pending
      reads this
      requires |buffer| == |byteTimestamps|
    {
      Zip(buffer, byteTimestamps)
    }

    ghost predicate Valid()
      reads this
    {
      && |buffer| == |byteTimestamps|
      && Holds(maxFrameLength, Held())
      && (buffer != [] ==> frameTimestamp == byteTimestamps[0])
      && expectedFrameSize == (if |buffer| < HEADER_SIZE then 0 else DeclaredSize(buffer, 0))
    }

    constructor (maxFrameLength: nat)
      ensures Valid() && Held() == [] && this.maxFrameLength == maxFrameLength
    {
      this.maxFrameLength := maxFrameLength;
      buffer, byteTimestamps, frameTimestamp, expectedFrameSize := [], [], None, 0;
    }

    method Reset()
      modifies this
      ensures Valid() && Held() == []
    {
      buffer, byteTimestamps, frameTimestamp, expectedFrameSize := [], [], None, 0;
    }

    method PushByte(value: byte, ts: Timestamp) returns (result: ParserResult<UnicoreBinaryFrame>)
      requires Valid()
      modifies this
      ensures Valid()
      ensures (Held(), result) == Push(maxFrameLength, old(Held()), Stamped(value, ts))
    {
      hide FrameOf, FirstValidFrame, Report, CrcMatches;
      if buffer == [] {
        result := StartSync(value, ts);
      } else if |buffer| == 1 {
        result := ContinueSync(value, ts, SYNC2);
      } else if |buffer| == 2 {
        result := ContinueSync(value, ts, SYNC3);
      } else {
        result := ContinueFrame(value, ts);
      }
    }

    method StartSync(value: byte, ts: Timestamp) returns (result: ParserResult<UnicoreBinaryFrame>)
      requires Valid() && buffer == []
      modifies this
      ensures Valid()
      ensures (Held(), result) == Push(maxFrameLength, [], Stamped(value, ts))
    {
      if value != SYNC1 {
        return Skipped;
      }
      AppendByte(value, ts);
      assert Held() == [Stamped(value, ts)];
      frameTimestamp, expectedFrameSize := ts, 0;
      return NeedMoreData;
    }

    /** `PushByte` while the second or the third sync byte is expected. */
    method ContinueSync(value: byte, ts: Timestamp, expected: byte) returns (result: ParserResult<UnicoreBinaryFrame>)
      requires Valid() && 1 <= |buffer| <= 2 && expected == (if |buffer| == 1 then SYNC2 else SYNC3)
      modifies this
      ensures Valid()
      ensures (Held(), result) == Push(maxFrameLength, old(Held()), Stamped(value, ts))
    {
      if value == expected {
        AppendByte(value, ts);
        return NeedMoreData;
      }
      if value == SYNC1 {
        buffer, byteTimestamps, frameTimestamp, expectedFrameSize := [value], [ts], ts, 0;
        assert Held() == [Stamped(value, ts)];
        return NeedMoreData;
      }
      Reset();
      return Skipped;
    }

    /** `PushByte` once all three sync bytes are held. */
    method ContinueFrame(value: byte, ts: Timestamp) returns (result: ParserResult<UnicoreBinaryFrame>)
      requires Valid() && |buffer| >= 3
      modifies this
      ensures Valid()
      ensures (Held(), result) == Push(maxFrameLength, old(Held()), Stamped(value, ts))
    {
      hide FrameOf, FirstValidFrame, Report, CrcMatches;
      PushHolds(maxFrameLength, Held(), Stamped(value, ts));
      AppendByte(value, ts);
      if |buffer| == HEADER_SIZE {
        expectedFrameSize := HEADER_SIZE + LittleEndian16(buffer[6], buffer[7]) + CRC_SIZE;
        if expectedFrameSize > maxFrameLength {
          Reset();
          return Overflow;
        }
      }
      if buffer != [] && |buffer| > maxFrameLength {
        Reset();
        return Overflow;
      }
      if expectedFrameSize == 0 || |buffer| < expectedFrameSize {
        return NeedMoreData;
      }
      result := ReportFrame();
      Reset();
    }

    /** The tail of `PushByte`: the frame that fills the buffer or, failing its CRC, one inside it. */
    method ReportFrame() returns (result: ParserResult<UnicoreBinaryFrame>)
      requires |buffer| == |byteTimestamps| && |buffer| >= HEADER_SIZE + CRC_SIZE
      requires frameTimestamp == byteTimestamps[0]
      ensures result == Report(maxFrameLength, Held())
    {
      hide FrameOf, ValidFrameAt, FirstValidFrame, CrcMatches;
      ZipValues(buffer, byteTimestamps);
      var valid := TrailerMatches(buffer);
      if !valid {
        var recovered := FindEmbeddedValidFrame();
        return if recovered.Some? then RecordReady(recovered.value) else InvalidData;
      }
      return RecordReady(FrameOf(buffer, frameTimestamp));
    }

    method AppendByte(value: byte, ts: Timestamp)
      requires |buffer| == |byteTimestamps|
      modifies `buffer, `byteTimestamps
      ensures buffer == old(buffer) + [value] && byteTimestamps == old(byteTimestamps) + [ts]
      ensures Held() == old(Held()) + [Stamped(value, ts)]
      ensures Values(Held()) == buffer
    {
      buffer, byteTimestamps := buffer + [value], byteTimestamps + [ts];
      ZipValues(buffer, byteTimestamps);
    }

    method FindEmbeddedValidFrame() returns (found: Option<UnicoreBinaryFrame>)
      requires |buffer| == |byteTimestamps|
      ensures match FirstValidFrame(maxFrameLength, buffer, 1)
              case Some(k) =>
                found == Some(FrameOf(buffer[k..k + DeclaredSize(buffer, k)], byteTimestamps[k]))
              case None => found == None
    {
      hide FrameOf, CrcMatches;
      var offset := 1;
      while offset + HEADER_SIZE + CRC_SIZE <= |buffer|
        invariant 1 <= offset
        invariant FirstValidFrame(maxFrameLength, buffer, 1) == FirstValidFrame(maxFrameLength, buffer, offset)
        decreases |buffer| - offset
      {
        if buffer[offset] == SYNC1 && buffer[offset + 1] == SYNC2 && buffer[offset + 2] == SYNC3 {
          var size := HEADER_SIZE + LittleEndian16(buffer[offset + 6], buffer[offset + 7]) + CRC_SIZE;
          if !(size > maxFrameLength || size > |buffer| - offset) {
            var valid := TrailerMatches(buffer[offset..offset + size]);
            if valid {
              return Some(FrameOf(buffer[offset..offset + size], byteTimestamps[offset]));
            }
          }
        }
        offset := offset + 1;
      }
      return None;
    }

    method Finalize() returns (result: ParserResult<UnicoreBinaryFrame>)
      requires Valid()
      modifies this
      ensures Valid() && Held() == []
      ensures result == Framing.Finalize(old(Held()))
    {
      if buffer == [] {
        return Idle;
      }
      Reset();
      return Truncated;
    }
  }
}
