/**
 The GGA sentence builder, `gnss_ntrip/src/gga_sentence_builder.cpp`. Floating-point numbers are exact
 reals, so they are always finite.
 */
module GgaSentence {
  import opened Bits
  import opened DecimalText
  import opened NmeaChecksum
  import opened NmeaParser

  type UInt16 = n: int | 0 <= n <= 0xFFFF

  // ----- Rounding --------------------------------------------------------------------------

  /** `std::round` and `std::llround` of a number that is not negative. */
  function RoundHalfUp(x: real): (n: nat)
    requires x >= 0.0
    ensures n as real - x <= 0.5 && x - n as real < 0.5
  {
    (x + 0.5).Floor
  }

  /** The rounding of `std::fixed`: ties go to the even neighbour. */
  function RoundHalfEven(x: real): (n: nat)
    requires x >= 0.0
    ensures x - n as real <= 0.5 && n as real - x <= 0.5
  {
    var below := x.Floor;
    var rest := x - below as real;
    if rest < 0.5 || (rest == 0.5 && below % 2 == 0) then below else below + 1
  }

  lemma RoundWhole(n: nat)
    ensures RoundHalfEven(n as real) == n && RoundHalfUp(n as real) == n
  {
  }

  function Magnitude(x: real): (m: real)
    ensures m >= 0.0
  {
    if x < 0.0 then -x else x
  }

  function Steps(value: real, precision: nat): nat {
    RoundHalfEven(Magnitude(value) * Pow10(precision) as real)
  }

  /** `std::fixed` with `std::setprecision`. */
  function FormatFixed(value: real, precision: nat): seq<byte> {
    (if value < 0.0 then [MINUS] else []) + Fixed(Steps(value, precision), precision)
  }

  function TrimZeros(text: seq<byte>): (t: seq<byte>)
    ensures |t| <= |text| && t == text[..|t|]
  {
    if text != [] && text[|text| - 1] == ZERO then TrimZeros(text[..|text| - 1]) else text
  }

  function TrimPoint(text: seq<byte>): seq<byte> {
    if text != [] && text[|text| - 1] == POINT then text[..|text| - 1] else text
  }

  function Trimmed(text: seq<byte>): seq<byte> {
    if Find(text, POINT) == None then text
    else
      var short := TrimPoint(TrimZeros(text));
      if short == [] then [ZERO] else short
  }

  method FormatFixedTrimmed(value: real, precision: nat) returns (text: seq<byte>)
    ensures text == Trimmed(FormatFixed(value, precision))
  {
    text := FormatFixed(value, precision);
    hide FormatFixed, Find;
    if Find(text, POINT) == None {
      return;
    }
    ghost var full := text;
    while text != [] && text[|text| - 1] == ZERO
      invariant TrimZeros(text) == TrimZeros(full)
      decreases |text|
    {
      text := text[..|text| - 1];
    }
    if text != [] && text[|text| - 1] == POINT {
      text := text[..|text| - 1];
    }
    if text == [] {
      text := [ZERO];
    }
  }

  // ----- Fields ----------------------------------------------------------------------------

  datatype FormattedCoordinate = FormattedCoordinate(value: seq<byte>, hemisphere: byte)

  function DegreeDigits(latitude: bool): nat {
    if latitude then 2 else 3
  }

  function MaxDegrees(latitude: bool): nat {
    if latitude then 90 else 180
  }

  /** Whole degrees and hundred-thousandths of a minute, the minutes not yet carried. */
  function Parts(absolute: real): (nat, nat)
    requires absolute >= 0.0
  {
    var degrees := absolute.Floor;
    (degrees, RoundHalfUp((absolute - degrees as real) * 60.0 * 100000.0))
  }

  function Carried(parts: (nat, nat)): (nat, nat) {
    if parts.1 >= 6_000_000 then (parts.0 + 1, 0) else parts
  }

  /** The digits of a coordinate, with a zero in front of minutes below ten. */
  function CoordinateText(degrees: nat, steps: nat, latitude: bool): seq<byte> {
    AtLeast(degrees, DegreeDigits(latitude)) + (if steps < 1_000_000 then [ZERO] else []) + Fixed(steps, 5)
  }

  function HemisphereOf(coordinate: real, latitude: bool): byte {
    if coordinate < 0.0 then (if latitude then SOUTH else WEST) else (if latitude then NORTH else EAST)
  }

  predicate CoordinateInRange(coordinate: real, latitude: bool) {
    -(MaxDegrees(latitude) as real) <= coordinate <= MaxDegrees(latitude) as real
  }

  function Coordinate(coordinate: real, latitude: bool): Option<FormattedCoordinate> {
    if !CoordinateInRange(coordinate, latitude) then None
    else
      var (degrees, steps) := Carried(Parts(Magnitude(coordinate)));
      Some(FormattedCoordinate(CoordinateText(degrees, steps, latitude), HemisphereOf(coordinate, latitude)))
  }

  /** Inside the range the carry never leads past the last degree. */
  lemma CarryStaysInRange(coordinate: real, latitude: bool)
    requires CoordinateInRange(coordinate, latitude)
    ensures var (degrees, steps) := Carried(Parts(Magnitude(coordinate)));
            && degrees <= MaxDegrees(latitude) && steps < 6_000_000
            && (degrees == MaxDegrees(latitude) ==> steps == 0)
  {
    var absolute := Magnitude(coordinate);
    if absolute.Floor == MaxDegrees(latitude) {
      assert absolute - absolute.Floor as real == 0.0;
      RoundWhole(0);
    }
  }

  /** Dividing by the step and printing with five decimals gives the steps back. */
  lemma MinutesPrintExactly(steps: nat)
    ensures FormatFixed(steps as real / 100000.0, 5) == Fixed(steps, 5)
  {
    var minutes := steps as real / 100000.0;
    StepsOfMinutes(steps, minutes);
    hide Fixed, Steps;
    assert [] + Fixed(steps, 5) == Fixed(steps, 5);
  }

  lemma StepsOfMinutes(steps: nat, minutes: real)
    requires minutes == steps as real / 100000.0
    ensures minutes >= 0.0 && Steps(minutes, 5) == steps
  {
    assert Pow10(5) == 100000;
    assert minutes * 100000.0 == steps as real;
    RoundWhole(steps);
    hide RoundHalfEven, Pow10;
  }

  method FormatCoordinate(coordinate: real, latitude: bool) returns (result: Option<FormattedCoordinate>)
    ensures result == Coordinate(coordinate, latitude)
  {
    hide FormatFixed, Fixed, AtLeast;
    var maxAbs := MaxDegrees(latitude) as real;
    if coordinate < -maxAbs || coordinate > maxAbs {
      return None;
    }
    var absolute := Magnitude(coordinate);
    var degrees := absolute.Floor;
    var minutes := (absolute - degrees as real) * 60.0;
    ghost var steps := RoundHalfUp(minutes * 100000.0);
    minutes := RoundHalfUp(minutes * 100000.0) as real / 100000.0;
    if minutes >= 60.0 {
      minutes, degrees := 0.0, degrees + 1;
      steps := 0;
    }
    assert (degrees, steps) == Carried(Parts(absolute)) && minutes == steps as real / 100000.0;
    CarryStaysInRange(coordinate, latitude);
    // The carry stays in range, so the code's two tests for a degree past the last one are never true.
    var text := AtLeast(degrees, DegreeDigits(latitude)) + FormatFixed(minutes, 5);
    MinutesPrintExactly(steps);
    ShortDegrees(degrees, latitude);
    if minutes < 10.0 {
      var at := DegreeDigits(latitude);
      assert text[..at] == AtLeast(degrees, at) && text[at..] == Fixed(steps, 5);
      text := text[..at] + [ZERO] + text[at..];
    } else {
      assert text == AtLeast(degrees, DegreeDigits(latitude)) + [] + Fixed(steps, 5);
    }
    return Some(FormattedCoordinate(text, HemisphereOf(coordinate, latitude)));
  }

  lemma ShortDegrees(degrees: nat, latitude: bool)
    requires degrees <= MaxDegrees(latitude)
    ensures |AtLeast(degrees, DegreeDigits(latitude))| == DegreeDigits(latitude)
  {
    assert Pow10(2) == 100 && Pow10(3) == 1000;
    PlainIsShort(degrees, DegreeDigits(latitude));
  }

  function FormatSatelliteCount(satellites: Option<UInt16>): seq<byte> {
    AtLeast(if satellites.Some? then satellites.value else 0, 2)
  }

  function HdopText(hdop: Option<real>): seq<byte> {
    if hdop == None || hdop.value < 0.0 then [] else Trimmed(FormatFixed(hdop.value, 2))
  }

  function AltitudeText(altitude: Option<real>): seq<byte> {
    if altitude == None then [] else Trimmed(FormatFixed(altitude.value, 3))
  }

  method FormatHdop(hdop: Option<real>) returns (text: seq<byte>)
    ensures text == HdopText(hdop)
  {
    if hdop == None || hdop.value < 0.0 {
      return [];
    }
    text := FormatFixedTrimmed(hdop.value, 2);
  }

  method FormatAltitude(altitude: Option<real>) returns (text: seq<byte>)
    ensures text == AltitudeText(altitude)
  {
    if altitude == None {
      return [];
    }
    text := FormatFixedTrimmed(altitude.value, 3);
  }

  predicate TimeInRange(t: UtcTime) {
    t.hour <= 23 && t.minute <= 59 && 0.0 <= t.second < 60.0
  }

  /** Hours, minutes and hundredths of a second, carried. */
  function CarriedTime(t: UtcTime): (nat, nat, nat)
    requires TimeInRange(t)
  {
    var hundredths := RoundHalfUp(t.second * 100.0);
    if hundredths < 6000 then (t.hour, t.minute, hundredths)
    else if t.minute + 1 < 60 then (t.hour, t.minute + 1, 0)
    else ((t.hour + 1) % 24, 0, 0)
  }

  function TimeText(hour: nat, minute: nat, hundredths: nat): seq<byte> {
    AtLeast(hour, 2) + AtLeast(minute, 2) + AtLeast(hundredths / 100, 2) + [POINT] + AtLeast(hundredths % 100, 2)
  }

  function Time(t: Option<UtcTime>): Option<seq<byte>> {
    if t == None then Some(TimeText(0, 0, 0))
    else if !TimeInRange(t.value) then None
    else
      var (hour, minute, hundredths) := CarriedTime(t.value);
      Some(TimeText(hour, minute, hundredths))
  }

  method FormatUtcTime(t: Option<UtcTime>) returns (text: Option<seq<byte>>)
    ensures text == Time(t)
  {
    if t == None {
      MidnightText();
      return Some([ZERO, ZERO, ZERO, ZERO, ZERO, ZERO, POINT, ZERO, ZERO]);
    }
    hide AtLeast;
    var time := t.value;
    if time.hour > 23 || time.minute > 59 || time.second < 0.0 || time.second >= 60.0 {
      return None;
    }
    var hour, minute := time.hour, time.minute;
    var hundredths := RoundHalfUp(time.second * 100.0);
    if hundredths >= 6000 {
      hundredths := 0;
      minute := minute + 1;
      if minute >= 60 {
        minute := 0;
        hour := (hour + 1) % 24;
      }
    }
    var whole, fraction := hundredths / 100, hundredths % 100;
    return Some(AtLeast(hour, 2) + AtLeast(minute, 2) + AtLeast(whole, 2) + [POINT] + AtLeast(fraction, 2));
  }

  lemma MidnightText()
    ensures TimeText(0, 0, 0) == [ZERO, ZERO, ZERO, ZERO, ZERO, ZERO, POINT, ZERO, ZERO]
  {
    assert AtLeast(0, 2) == [ZERO, ZERO];
  }

  // ----- The sentence ----------------------------------------------------------------------

  datatype FixType = UnknownFix | NoFix | Fix | RtkFloat | RtkFixed | DeadReckoning | TwoD | ThreeD | Dgps

  datatype RtkMode = UnknownMode | NoRtk | FloatMode | FixedMode

  datatype Talker = Gp | Gn

  datatype RuntimeState = RuntimeState(
    fixValid: bool, fixType: FixType, rtkMode: Option<RtkMode>, latitude: Option<real>, longitude: Option<real>,
    satellitesUsed: Option<UInt16>, hdop: Option<real>, altitude: Option<real>)

  datatype BuildError = MissingLatitude | MissingLongitude | InvalidLatitude | InvalidLongitude | InvalidUtcTime

  datatype BuildResult = Built(fixQuality: nat, sentence: seq<byte>) | Refused(fixQuality: nat, error: BuildError)

  function MapRuntimeStateToGgaFixQuality(state: RuntimeState): (q: nat)
    ensures q <= 8
  {
    if !state.fixValid || state.fixType == NoFix then 0
    else if state.fixType == RtkFixed || state.rtkMode == Some(FixedMode) then 4
    else if state.fixType == RtkFloat || state.rtkMode == Some(FloatMode) then 5
    else if state.fixType == DeadReckoning then 6
    else 1
  }

  function SentenceIdForTalker(talker: Talker): (id: seq<byte>)
    ensures |id| == 5
  {
    match talker
    case Gn => [0x47, 0x4E, 0x47, 0x47, 0x41]
    case Gp => [0x47, 0x50, 0x47, 0x47, 0x41]
  }

  function Add(payload: seq<byte>, field: seq<byte>): seq<byte> {
    payload + [COMMA] + field
  }

  /** The first eight fields, up to the satellite count. */
  function Position(talker: Talker, time: seq<byte>, latitude: FormattedCoordinate, longitude: FormattedCoordinate,
                    quality: nat, satellites: seq<byte>): seq<byte> {
    Add(Add(Add(Add(Add(Add(Add(SentenceIdForTalker(talker), time), latitude.value), [latitude.hemisphere]),
                    longitude.value), [longitude.hemisphere]), AtLeast(quality, 1)), satellites)
  }

  /** The other seven: HDOP, altitude and its unit, and four that stay empty. */
  function Tail(payload: seq<byte>, hdop: seq<byte>, altitude: seq<byte>): seq<byte> {
    Add(Add(Add(Add(Add(Add(Add(payload, hdop), altitude), [METRES]), []), []), []), [])
  }

  function UpperHex(n: nat): byte
    requires n < 16
  {
    if n < 10 then 0x30 + n else 0x41 + n - 10
  }

  function Sentence(payload: seq<byte>): (sentence: seq<byte>)
    ensures |sentence| == |payload| + 6
  {
    var checksum := Checksum(payload);
    [DOLLAR] + payload + [STAR, UpperHex(checksum / 16), UpperHex(checksum % 16), CR, LF]
  }

  function PayloadFor(state: RuntimeState, talker: Talker, time: seq<byte>, latitude: FormattedCoordinate,
                      longitude: FormattedCoordinate): seq<byte> {
    Tail(Position(talker, time, latitude, longitude, MapRuntimeStateToGgaFixQuality(state),
                  FormatSatelliteCount(state.satellitesUsed)),
         HdopText(state.hdop), AltitudeText(state.altitude))
  }

  function Build(state: RuntimeState, talker: Talker, utcTime: Option<UtcTime>): BuildResult {
    var quality := MapRuntimeStateToGgaFixQuality(state);
    if state.latitude == None then Refused(quality, MissingLatitude)
    else if state.longitude == None then Refused(quality, MissingLongitude)
    else
      var (latitude, longitude) := (Coordinate(state.latitude.value, true), Coordinate(state.longitude.value, false));
      var time := Time(utcTime);
      if latitude == None then Refused(quality, InvalidLatitude)
      else if longitude == None then Refused(quality, InvalidLongitude)
      else if time == None then Refused(quality, InvalidUtcTime)
      else Built(quality, Sentence(PayloadFor(state, talker, time.value, latitude.value, longitude.value)))
  }

  method BuildSentenceFromPayload(payload: seq<byte>) returns (sentence: seq<byte>)
    ensures sentence == Sentence(payload)
  {
    var checksum := ComputeNmeaChecksum(payload);
    sentence := [DOLLAR] + payload + [STAR];
    sentence := sentence + [UpperHex(checksum / 16), UpperHex(checksum % 16)];
    sentence := sentence + [CR, LF];
  }

  method BuildNmeaGgaSentence(state: RuntimeState, talker: Talker, utcTime: Option<UtcTime>) returns (result: BuildResult)
    ensures result == Build(state, talker, utcTime)
  {
    hide Coordinate, Time, HdopText, AltitudeText, Sentence, FormatSatelliteCount;
    var quality := MapRuntimeStateToGgaFixQuality(state);
    if state.latitude == None {
      return Refused(quality, MissingLatitude);
    }
    if state.longitude == None {
      return Refused(quality, MissingLongitude);
    }
    var latitude := FormatCoordinate(state.latitude.value, true);
    if latitude == None {
      return Refused(quality, InvalidLatitude);
    }
    var longitude := FormatCoordinate(state.longitude.value, false);
    if longitude == None {
      return Refused(quality, InvalidLongitude);
    }
    var time := FormatUtcTime(utcTime);
    if time == None {
      return Refused(quality, InvalidUtcTime);
    }
    var hdop := FormatHdop(state.hdop);
    var altitude := FormatAltitude(state.altitude);
    var payload := PrintPayload(talker, time.value, latitude.value, longitude.value, quality,
                                FormatSatelliteCount(state.satellitesUsed), hdop, altitude);
    var sentence := BuildSentenceFromPayload(payload);
    return Built(quality, sentence);
  }

  /** The stream expression of `BuildNmeaGgaSentence`. */
  method PrintPayload(talker: Talker, time: seq<byte>, latitude: FormattedCoordinate, longitude: FormattedCoordinate,
                      quality: nat, satellites: seq<byte>, hdop: seq<byte>, altitude: seq<byte>)
    returns (payload: seq<byte>)
    ensures payload == Tail(Position(talker, time, latitude, longitude, quality, satellites), hdop, altitude)
  {
    payload := SentenceIdForTalker(talker) + [COMMA] + time + [COMMA] + latitude.value;
    payload := payload + [COMMA] + [latitude.hemisphere] + [COMMA] + longitude.value;
    payload := payload + [COMMA] + [longitude.hemisphere] + [COMMA] + AtLeast(quality, 1);
    payload := payload + [COMMA] + satellites + [COMMA] + hdop;
    payload := payload + [COMMA] + altitude;
    EmptyTail(payload);
    payload := payload + [COMMA, METRES, COMMA, COMMA, COMMA, COMMA];
  }

  lemma EmptyTail(payload: seq<byte>)
    ensures payload + [COMMA, METRES, COMMA, COMMA, COMMA, COMMA]
         == Add(Add(Add(Add(Add(payload, [METRES]), []), []), []), [])
  {
  }
}
