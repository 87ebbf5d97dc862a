/**
 Message classification, the station position (1005, 1006) and the MSM header of
 `gnss_protocols/src/rtcm_parser.cpp`.
 */
module RtcmParser {
  import opened Bits
  import opened Framing
  import opened RtcmFramer
  import opened RtcmBits

  // ----- Classification --------------------------------------------------------------------

  /** The message type of a frame whose CRC matched. */
  function MessageType(frame: RtcmFrame): (t: Option<nat>)
    ensures t.Some? ==> |frame.payload| >= 2 && t.value < 4096
  {
    if frame.status != Valid then None else ExtractRtcmMessageType(frame.payload)
  }

  predicate IsStationArp(t: nat) {
    t == 1005 || t == 1006
  }

  predicate IsAntennaDescriptor(t: nat) {
    t == 1007 || t == 1008
  }

  predicate IsGlonassBias(t: nat) {
    t == 1230
  }

  datatype Constellation = Gps | Glonass | Galileo | Sbas | Qzss | BeiDou | NavIc

  predicate IsMsmVariant(t: nat) {
    1 <= t % 10 <= 7
  }

  /** The constellation of an MSM message type; `None` stands for the source's unknown. */
  function MsmConstellation(t: nat): Option<Constellation> {
    if !IsMsmVariant(t) then None
    else match t / 10
      case 107 => Some(Gps)
      case 108 => Some(Glonass)
      case 109 => Some(Galileo)
      case 110 => Some(Sbas)
      case 111 => Some(Qzss)
      case 112 => Some(BeiDou)
      case 113 => Some(NavIc)
      case _ => None
  }

  predicate IsMsm(t: nat) {
    MsmConstellation(t).Some?
  }

  function MsmVariant(t: nat): nat {
    if IsMsmVariant(t) then t % 10 else 0
  }

  /** The four kinds of message the correction monitor tells apart never overlap. */
  lemma KindsAreDisjoint(t: nat)
    ensures IsMsm(t) ==> 1071 <= t <= 1137 && 1 <= MsmVariant(t) <= 7
    ensures IsMsm(t) ==> !IsStationArp(t) && !IsAntennaDescriptor(t) && !IsGlonassBias(t)
    ensures !(IsStationArp(t) && (IsAntennaDescriptor(t) || IsGlonassBias(t)))
    ensures !(IsAntennaDescriptor(t) && IsGlonassBias(t))
  {
  }

  /** Both ways of finding the message type agree: it is the first twelve bits of the payload. */
  lemma TypeIsFirstTwelveBits(payload: seq<byte>)
    requires |payload| >= 2
    ensures ReadUnsigned(payload, 0, 12) == ExtractRtcmMessageType(payload)
  {
    TwelveBits(payload);
    hide PayloadBits, ValueOf;
  }

  lemma TwelveBits(payload: seq<byte>)
    requires |payload| >= 2
    ensures ValueOf(PayloadBits(payload)[0..0 + 12]) == payload[0] as nat * 16 + payload[1] / 16
  {
    assert Pow2(4) == 16;
    hide *;
    JoinedBits(PayloadBits(payload), 0, 8, 4);
    FirstByte(payload);
    SecondNibble(payload);
    TopNibble(payload[1]);
    ValueOfByte(payload[0]);
  }

  lemma FirstByte(payload: seq<byte>)
    requires |payload| >= 1
    ensures PayloadBits(payload)[0..0 + 8] == BitsMsb(payload[0])
  {
    hide PayloadBits, BitsMsb;
    forall j | 0 <= j < 8 ensures PayloadBits(payload)[0..0 + 8][j] == BitsMsb(payload[0])[j] {
      ExpandAt(payload, 0, j);
    }
  }

  lemma SecondNibble(payload: seq<byte>)
    requires |payload| >= 2
    ensures PayloadBits(payload)[0 + 8..0 + 8 + 4] == BitsMsb(payload[1])[..4]
  {
    hide PayloadBits, BitsMsb;
    forall j | 0 <= j < 4 ensures PayloadBits(payload)[8..12][j] == BitsMsb(payload[1])[..4][j] {
      ExpandAt(payload, 1, j);
    }
  }

  lemma {:induction false} TopBits(n: nat, width: nat, cut: nat)
    ensures BitsOf(n, width + cut)[..width] == BitsOf(n / Pow2(cut), width)
  {
    if cut > 0 {
      TopBits(n / 2, width, cut - 1);
      HalfThenDivide(n, Pow2(cut - 1));
    }
  }

  lemma TopNibble(b: byte)
    ensures ValueOf(BitsMsb(b)[..4]) == b / 16
  {
    assert Pow2(4) == 16;
    TopBits(b, 4, 4);
    ValueOfBitsOf(b / 16, 4);
  }

  // ----- Station position, 1005 and 1006 ---------------------------------------------------

  const BITS_1005 := 152
  const BITS_1006 := 168

  datatype StationArp = StationArp(
    messageType: nat, stationId: nat, itrfYear: nat, gps: bool, glonass: bool, galileo: bool,
    referenceStation: bool, x: real, y: real, z: real, antennaHeight: Option<real>,
    singleOscillator: bool, quarterCycle: nat)

  function Metres(n: int): real {
    n as real * 0.0001
  }

  /** The thirteen common fields as the code reads them, if every one that it tests was read. */
  function ReadStationArp(p: seq<byte>): Option<StationArp> {
    var (t, id, year) := (ReadUnsigned(p, 0, 12), ReadUnsigned(p, 12, 12), ReadUnsigned(p, 24, 6));
    var (gps, glonass, galileo) := (ReadUnsigned(p, 30, 1), ReadUnsigned(p, 31, 1), ReadUnsigned(p, 32, 1));
    var (reference, x, oscillator) := (ReadUnsigned(p, 33, 1), ReadSigned(p, 34, 38), ReadUnsigned(p, 72, 1));
    var (y, quarter, z) := (ReadSigned(p, 74, 38), ReadUnsigned(p, 112, 2), ReadSigned(p, 114, 38));
    if t == None || id == None || year == None || gps == None || glonass == None || galileo == None
       || reference == None || x == None || oscillator == None || y == None || quarter == None || z == None
    then None
    else Some(StationArp(
                t.value, id.value, year.value, gps.value != 0, glonass.value != 0, galileo.value != 0,
                reference.value != 0, Metres(x.value), Metres(y.value), Metres(z.value), None,
                oscillator.value != 0, quarter.value))
  }

  function ParseStationArp(frame: RtcmFrame): Option<StationArp> {
    var t := MessageType(frame);
    if t == None || !IsStationArp(t.value) then None
    else if 8 * |frame.payload| < (if t.value == 1006 then BITS_1006 else BITS_1005) then None
    else
      var common := ReadStationArp(frame.payload);
      if common == None || t.value == 1005 then common
      else match ReadUnsigned(frame.payload, 152, 16)
        case Some(height) => Some(common.value.(antennaHeight := Some(Metres(height))))
        case None => None
  }

  method ParseRtcmBaseStationArp(frame: RtcmFrame) returns (record: Option<StationArp>)
    ensures record == ParseStationArp(frame)
  {
    hide ReadUnsigned, ReadSigned;
    var messageType := MessageType(frame);
    if messageType == None || !IsStationArp(messageType.value) {
      return None;
    }
    var required := if messageType.value == 1006 then BITS_1006 else BITS_1005;
    if 8 * |frame.payload| < required {
      return None;
    }
    var reader := new BitReader(frame.payload);
    record := ReadCommonFields(reader);
    if record == None {
      return;
    }
    if messageType.value == 1006 {
      var height := reader.Unsigned(16);
      if height == None {
        return None;
      }
      record := Some(record.value.(antennaHeight := Some(Metres(height.value))));
    }
  }

  /** The part of `ParseRtcmBaseStationArp` that both message types share. */
  method ReadCommonFields(reader: BitReader) returns (record: Option<StationArp>)
    requires reader.offset == 0 && 8 * |reader.payload| >= BITS_1005
    modifies reader
    ensures record == ReadStationArp(reader.payload) && reader.offset == BITS_1005
  {
    hide ReadUnsigned, ReadSigned, Metres, Pow2, PayloadBits;
    var parsedType := reader.Unsigned(12);
    var stationId := reader.Unsigned(12);
    var itrfYear := reader.Unsigned(6);
    var gps := reader.Unsigned(1);
    var glonass := reader.Unsigned(1);
    var galileo := reader.Unsigned(1);
    var reference := reader.Unsigned(1);
    var x := reader.Signed(38);
    var oscillator := reader.Unsigned(1);
    var reservedB := reader.Unsigned(1);
    var y := reader.Signed(38);
    var quarterCycle := reader.Unsigned(2);
    var z := reader.Signed(38);
    record :=
      if parsedType == None || stationId == None || itrfYear == None || gps == None || glonass == None
         || galileo == None || reference == None || x == None || oscillator == None || y == None
         || quarterCycle == None || z == None
      then None
      else Some(StationArp(
        parsedType.value, stationId.value, itrfYear.value, gps.value != 0, glonass.value != 0,
        galileo.value != 0, reference.value != 0, Metres(x.value), Metres(y.value), Metres(z.value), None,
        oscillator.value != 0, quarterCycle.value));
  }

  /** The value of a field that the length guard puts inside the payload. */
  function Field(p: seq<byte>, offset: nat, count: nat): nat
    requires offset + count <= 8 * |p|
  {
    ValueOf(PayloadBits(p)[offset..offset + count])
  }

  function SignedField(p: seq<byte>, offset: nat, count: nat): int
    requires count > 0 && offset + count <= 8 * |p|
  {
    TwosComplement(PayloadBits(p)[offset..offset + count])
  }

  /**
   The length guard makes every later read succeed: a valid 1005 or 1006 frame is accepted exactly
   when it has 152 or 168 bits, and its fields are the bits at their fixed places.
   */
  lemma ArpAcceptedIffLongEnough(frame: RtcmFrame)
    requires MessageType(frame).Some? && IsStationArp(MessageType(frame).value)
    ensures var t, p, r := MessageType(frame).value, frame.payload, ParseStationArp(frame);
            && (r.Some? <==> 8 * |p| >= (if t == 1006 then BITS_1006 else BITS_1005))
            && (r.Some? ==>
                && r.value.messageType == t
                && r.value.stationId == Field(p, 12, 12) < 4096
                && r.value.x == Metres(SignedField(p, 34, 38))
                && r.value.y == Metres(SignedField(p, 74, 38))
                && r.value.z == Metres(SignedField(p, 114, 38))
                && r.value.antennaHeight == if t == 1006 then Some(Metres(Field(p, 152, 16))) else None)
  {
    TypeIsFirstTwelveBits(frame.payload);
    assert Pow2(12) == 4096 by { Pow2Add(8, 4); Pow2Values(); assert Pow2(4) == 16; }
    hide PayloadBits, ValueOf, TwosComplement, Metres, ExtractRtcmMessageType, Pow2;
  }

  // ----- The MSM header --------------------------------------------------------------------

  const MSM_HEADER_BITS := 169
  const MSM_MAXIMUM_MASK := 64

  datatype MsmSummary = MsmSummary(
    messageType: nat, stationId: nat, constellation: Option<Constellation>, variant: nat,
    multipleMessage: bool, issueOfDataStation: nat, sessionTransmissionTime: nat, clockSteering: nat,
    externalClock: nat, divergenceFree: bool, smoothingInterval: nat,
    satelliteCount: nat, signalCount: nat, cellCount: nat)

  function ComputeRtcmMsmBodyBits(variant: nat, satellites: nat, cells: nat): Option<nat> {
    match variant
    case 1 => Some(satellites * 10 + cells * 15)
    case 2 => Some(satellites * 10 + cells * 27)
    case 3 => Some(satellites * 10 + cells * 42)
    case 4 => Some(satellites * 18 + cells * 48)
    case 5 => Some(satellites * 36 + cells * 63)
    case 6 => Some(satellites * 18 + cells * 65)
    case 7 => Some(satellites * 36 + cells * 80)
    case _ => None
  }

  /** The fields in front of the cell mask and the two masks, before anything is counted. */
  datatype MsmHeader = MsmHeader(
    messageType: nat, stationId: nat, multipleMessage: bool, issueOfDataStation: nat,
    sessionTransmissionTime: nat, clockSteering: nat, externalClock: nat, divergenceFree: bool,
    smoothingInterval: nat, satelliteMask: nat, signalMask: nat)

  function ReadMsmHeader(p: seq<byte>): Option<MsmHeader> {
    var (t, id, multiple) := (ReadUnsigned(p, 0, 12), ReadUnsigned(p, 12, 12), ReadUnsigned(p, 54, 1));
    var (issue, session, steering) := (ReadUnsigned(p, 55, 3), ReadUnsigned(p, 58, 7), ReadUnsigned(p, 65, 2));
    var (clock, free, smoothing) := (ReadUnsigned(p, 67, 2), ReadUnsigned(p, 69, 1), ReadUnsigned(p, 70, 3));
    var (satellites, signals) := (ReadUnsigned(p, 73, 64), ReadUnsigned(p, 137, 32));
    if t == None || id == None || multiple == None || issue == None || session == None || steering == None
       || clock == None || free == None || smoothing == None || satellites == None || signals == None
    then None
    else Some(MsmHeader(t.value, id.value, multiple.value != 0, issue.value, session.value, steering.value,
                        clock.value, free.value != 0, smoothing.value, satellites.value, signals.value))
  }

  function SummaryOf(h: MsmHeader, cells: nat): MsmSummary {
    MsmSummary(h.messageType, h.stationId, MsmConstellation(h.messageType), MsmVariant(h.messageType),
               h.multipleMessage, h.issueOfDataStation, h.sessionTransmissionTime, h.clockSteering,
               h.externalClock, h.divergenceFree, h.smoothingInterval,
               PopCount(h.satelliteMask), PopCount(h.signalMask), cells)
  }

  function ParseMsmSummary(frame: RtcmFrame): Option<MsmSummary> {
    hide ReadMsmHeader, PopCount, OnesInRange, ComputeRtcmMsmBodyBits, SummaryOf, MessageType;
    var (t, p) := (MessageType(frame), frame.payload);
    if t == None || !IsMsm(t.value) || 8 * |p| < MSM_HEADER_BITS then None
    else match ReadMsmHeader(p)
      case None => None
      case Some(h) =>
        var maskBits := PopCount(h.satelliteMask) * PopCount(h.signalMask);
        if maskBits > MSM_MAXIMUM_MASK then None
        else match OnesInRange(p, MSM_HEADER_BITS, maskBits)
          case None => None
          case Some(cells) =>
            var body := ComputeRtcmMsmBodyBits(MsmVariant(h.messageType), PopCount(h.satelliteMask), cells);
            if body == None || MSM_HEADER_BITS + maskBits + body.value > 8 * |p| then None
            else Some(SummaryOf(h, cells))
  }

  method ParseRtcmMsmSummary(frame: RtcmFrame) returns (record: Option<MsmSummary>)
    ensures record == ParseMsmSummary(frame)
  {
    hide ReadUnsigned, ReadMsmHeader, PopCount, OnesInRange, ComputeRtcmMsmBodyBits;
    var messageType := MessageType(frame);
    if messageType == None || !IsMsm(messageType.value) {
      return None;
    }
    if 8 * |frame.payload| < MSM_HEADER_BITS {
      return None;
    }
    var reader := new BitReader(frame.payload);
    var header := ReadHeaderFields(reader);
    if header == None {
      return None;
    }
    var h := header.value;
    var satelliteCount := CountSetBits(h.satelliteMask);
    var signalCount := CountSetBits(h.signalMask);
    var cellMaskBits := satelliteCount * signalCount;
    if cellMaskBits > MSM_MAXIMUM_MASK {
      return None;
    }
    var cellCount := CountSetBitsInRange(frame.payload, reader.offset, cellMaskBits);
    if cellCount == None {
      return None;
    }
    var body := ComputeRtcmMsmBodyBits(MsmVariant(h.messageType), satelliteCount, cellCount.value);
    if body == None || reader.offset + cellMaskBits + body.value > 8 * |frame.payload| {
      return None;
    }
    record := Some(SummaryOf(h, cellCount.value));
  }

  /** The header reads of `ParseRtcmMsmSummary`. */
  method ReadHeaderFields(reader: BitReader) returns (header: Option<MsmHeader>)
    requires reader.offset == 0 && 8 * |reader.payload| >= MSM_HEADER_BITS
    modifies reader
    ensures header == ReadMsmHeader(reader.payload) && reader.offset == MSM_HEADER_BITS
  {
    hide ReadUnsigned, Pow2, PayloadBits;
    var parsedType := reader.Unsigned(12);
    var stationId := reader.Unsigned(12);
    var epochTime := reader.Unsigned(30);
    var multiple := reader.Unsigned(1);
    assert reader.offset == 55;
    var issue := reader.Unsigned(3);
    var session := reader.Unsigned(7);
    var steering := reader.Unsigned(2);
    var clock := reader.Unsigned(2);
    var free := reader.Unsigned(1);
    var smoothing := reader.Unsigned(3);
    assert reader.offset == 73;
    var satellites := reader.Unsigned(64);
    var signals := reader.Unsigned(32);
    assert reader.offset == MSM_HEADER_BITS;
    header :=
      if parsedType == None || stationId == None || multiple == None || issue == None || session == None
         || steering == None || clock == None || free == None || smoothing == None || satellites == None
         || signals == None
      then None
      else Some(MsmHeader(parsedType.value, stationId.value, multiple.value != 0, issue.value, session.value,
                          steering.value, clock.value, free.value != 0, smoothing.value, satellites.value,
                          signals.value));
  }

  /** The bits that say which satellites, which signals and which cells are present. */
  function Satellites(p: seq<byte>): nat
    requires 8 * |p| >= MSM_HEADER_BITS
  {
    Ones(PayloadBits(p)[73..137])
  }

  function Signals(p: seq<byte>): nat
    requires 8 * |p| >= MSM_HEADER_BITS
  {
    Ones(PayloadBits(p)[137..169])
  }

  function Cells(p: seq<byte>, maskBits: nat): nat
    requires MSM_HEADER_BITS + maskBits <= 8 * |p|
  {
    Ones(PayloadBits(p)[169..169 + maskBits])
  }

  /** The mask product is at most 64, and the header, the cell mask and the body fit the payload. */
  predicate MsmFits(t: nat, p: seq<byte>) {
    && 8 * |p| >= MSM_HEADER_BITS
    && var maskBits := Satellites(p) * Signals(p);
       && maskBits <= MSM_MAXIMUM_MASK
       && MSM_HEADER_BITS + maskBits <= 8 * |p|
       && var body := ComputeRtcmMsmBodyBits(MsmVariant(t), Satellites(p), Cells(p, maskBits));
          body.Some? && MSM_HEADER_BITS + maskBits + body.value <= 8 * |p|
  }

  lemma MsmHeaderFields(p: seq<byte>)
    requires 8 * |p| >= MSM_HEADER_BITS
    ensures ReadMsmHeader(p).Some?
    ensures var h := ReadMsmHeader(p).value;
            && Some(h.messageType) == ExtractRtcmMessageType(p)
            && h.stationId == Field(p, 12, 12)
            && PopCount(h.satelliteMask) == Satellites(p) && PopCount(h.signalMask) == Signals(p)
  {
    TypeIsFirstTwelveBits(p);
    PopCountOfValue(PayloadBits(p)[73..137]);
    PopCountOfValue(PayloadBits(p)[137..169]);
    hide PayloadBits, ValueOf, PopCount, Ones, ExtractRtcmMessageType, Pow2;
  }

  /**
   A valid MSM frame is accepted exactly when it fits, and then it has no more cells than satellites
   times signals; the type, the station and the counts are those of its own bits.
   */
  lemma MsmAcceptedIffItFits(frame: RtcmFrame)
    requires MessageType(frame).Some? && IsMsm(MessageType(frame).value)
    ensures var t, p, r := MessageType(frame).value, frame.payload, ParseMsmSummary(frame);
            && (r.Some? <==> MsmFits(t, p))
            && (r.Some? ==>
                && r.value.messageType == t && r.value.constellation == MsmConstellation(t)
                && r.value.stationId == Field(p, 12, 12)
                && r.value.satelliteCount == Satellites(p) && r.value.signalCount == Signals(p)
                && r.value.cellCount == Cells(p, Satellites(p) * Signals(p))
                && r.value.cellCount <= r.value.satelliteCount * r.value.signalCount)
  {
    var p := frame.payload;
    if 8 * |p| >= MSM_HEADER_BITS {
      MsmHeaderFields(p);
    }
    hide PayloadBits, ReadMsmHeader, PopCount, Ones, ExtractRtcmMessageType, ComputeRtcmMsmBodyBits;
  }

  /** Only the length and the masks decide: a known message type always has a body size. */
  lemma KnownVariantHasBody(t: nat, satellites: nat, cells: nat)
    requires IsMsm(t)
    ensures ComputeRtcmMsmBodyBits(MsmVariant(t), satellites, cells).Some?
    ensures ComputeRtcmMsmBodyBits(MsmVariant(t), satellites, cells).value <= 36 * satellites + 80 * cells
  {
  }

  // ----- Tables ----------------------------------------------------------------------------

  /** Seven message types for each of seven constellations, the last digit saying how much they carry. */
  lemma ConstellationRanges(t: nat)
    ensures MsmConstellation(t) ==
              if 1071 <= t <= 1077 then Some(Gps) else if 1081 <= t <= 1087 then Some(Glonass)
              else if 1091 <= t <= 1097 then Some(Galileo) else if 1101 <= t <= 1107 then Some(Sbas)
              else if 1111 <= t <= 1117 then Some(Qzss) else if 1121 <= t <= 1127 then Some(BeiDou)
              else if 1131 <= t <= 1137 then Some(NavIc) else None
  {
    assert t == 10 * (t / 10) + t % 10;
  }

  /**
   What one satellite takes in an MSM of this variant: whole milliseconds of range from variant 4 on,
   extended information and a rough rate in variants 5 and 7, and always the range modulo 1 ms.
   */
  function SatelliteBits(variant: nat): nat {
    (if variant >= 4 then 8 else 0) + (if variant == 5 || variant == 7 then 4 else 0) + 10
    + (if variant == 5 || variant == 7 then 14 else 0)
  }

  /**
   What one cell takes: a fine range except in variant 2; phase range, lock time and half-cycle indicator
   from 2 on; signal strength from 4 on; a fine rate in 5 and 7. Variants 6 and 7 have the wide forms.
   */
  function CellBits(variant: nat): nat {
    var wide := variant >= 6;
    (if variant == 2 then 0 else if wide then 20 else 15)
    + (if variant == 1 then 0 else (if wide then 24 else 22) + (if wide then 10 else 4) + 1)
    + (if variant < 4 then 0 else if wide then 10 else 6)
    + (if variant == 5 || variant == 7 then 15 else 0)
  }

  /** The body size the code tabulates is the sum of the fields each satellite and each cell carries. */
  lemma BodyIsSumOfFields(variant: nat, satellites: nat, cells: nat)
    ensures ComputeRtcmMsmBodyBits(variant, satellites, cells)
         == if 1 <= variant <= 7 then Some(satellites * SatelliteBits(variant) + cells * CellBits(variant)) else None
  {
  }
}
