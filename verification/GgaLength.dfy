/**
 How long a GGA sentence is, so that a caller can tell before building it that it fits a framer: the
 position and the time always take the same space, and the rest is bounded by the magnitude of what is
 printed.
 */
module GgaLength {
  import opened Bits
  import opened Framing
  import opened DecimalText
  import opened NmeaChecksum
  import opened NmeaParser
  import opened GgaSentence
  import opened GgaRoundTrip
  import F = NmeaFramer

  // ----- Fields of one length ----------------------------------------------------------------

  lemma TimeLength(t: Option<UtcTime>)
    requires Time(t).Some?
    ensures |Time(t).value| == 9
  {
    if t == None {
      MidnightText();
    } else {
      CarryIsModular(t.value);
      var (hour, minute, hundredths) := CarriedTime(t.value);
      TwoPlaces(hour);
      TwoPlaces(minute);
      TwoPlaces(hundredths / 100);
      TwoPlaces(hundredths % 100);
      hide AtLeast, CarriedTime;
    }
  }

  lemma CoordinateLength(coordinate: real, latitude: bool)
    requires Coordinate(coordinate, latitude).Some?
    ensures |Coordinate(coordinate, latitude).value.value| == DegreeDigits(latitude) + 8
  {
    CarryStaysInRange(coordinate, latitude);
    var (degrees, steps) := Carried(Parts(Magnitude(coordinate)));
    hide AtLeast, CoordinateText, Carried, Parts, MinutesText;
    CoordinateForm(degrees, steps, latitude);
    ReadsDegrees(degrees, latitude);
    var front, fraction := MinutesParts(steps);
  }

  lemma QualityLength(state: RuntimeState)
    ensures |AtLeast(MapRuntimeStateToGgaFixQuality(state), 1)| == 1
  {
  }

  lemma PayloadLength(state: RuntimeState, talker: Talker, time: seq<byte>, latitude: FormattedCoordinate,
                      longitude: FormattedCoordinate)
    ensures |PayloadFor(state, talker, time, latitude, longitude)|
         == 23 + |time| + |latitude.value| + |longitude.value| + |FormatSatelliteCount(state.satellitesUsed)|
            + |HdopText(state.hdop)| + |AltitudeText(state.altitude)|
  {
    QualityLength(state);
    hide AtLeast, HdopText, AltitudeText, FormatSatelliteCount, MapRuntimeStateToGgaFixQuality;
  }

  /** Fifty-nine characters, and the satellite count, the HDOP and the altitude. */
  lemma SentenceLength(state: RuntimeState, talker: Talker, utcTime: Option<UtcTime>)
    requires Build(state, talker, utcTime).Built?
    ensures |Build(state, talker, utcTime).sentence|
         == 59 + |FormatSatelliteCount(state.satellitesUsed)| + |HdopText(state.hdop)| + |AltitudeText(state.altitude)|
  {
    hide Coordinate, Time, PayloadFor, FormatSatelliteCount, HdopText, AltitudeText, MapRuntimeStateToGgaFixQuality;
    TimeLength(utcTime);
    CoordinateLength(state.latitude.value, true);
    CoordinateLength(state.longitude.value, false);
    PayloadLength(state, talker, Time(utcTime).value, Coordinate(state.latitude.value, true).value,
                  Coordinate(state.longitude.value, false).value);
  }

  // ----- Fields bounded by what they print -----------------------------------------------------

  lemma SatellitesLength(satellites: Option<UInt16>)
    ensures |FormatSatelliteCount(satellites)| <= 5
  {
    var n := if satellites.Some? then satellites.value else 0;
    assert Pow10(5) == 100000;
    PlainIsShort(n, 5);
  }

  lemma MultiplyOrder(a: nat, b: nat, p: nat)
    requires a <= b
    ensures a * p <= b * p
  {
  }

  lemma LessFactor(q: nat, t: nat, p: nat)
    requires q * p < t * p
    ensures q < t
  {
    if q >= t {
      MultiplyOrder(t, q, p);
    }
  }

  /** A number that is rounded from less than a power of ten has no more digits in front of the point. */
  lemma WholeBelow(mantissa: nat, t: nat, p: nat)
    requires p > 0 && t > 0 && mantissa <= (t - 1) * p
    ensures Quotient(mantissa, p) < t
  {
    var q, r := Quotient(mantissa, p), Remainder(mantissa, p);
    hide Quotient, Remainder;
    assert (t - 1) * p == t * p - p;
    LessFactor(q, t, p);
  }

  lemma RoundsBelow(x: real, n: nat)
    requires 0.0 <= x <= n as real
    ensures RoundHalfEven(x) <= n
  {
  }

  lemma RealOrder(a: real, b: real, p: real)
    requires 0.0 <= a <= b && p >= 0.0
    ensures 0.0 <= a * p <= b * p
  {
    assert (b - a) * p >= 0.0;
    assert (b - a) * p == b * p - a * p;
  }

  lemma WholeProduct(n: nat, p: nat)
    ensures n as real * p as real == (n * p) as real
  {
  }

  lemma StepsBelow(value: real, precision: nat, n: nat)
    requires Magnitude(value) <= n as real
    ensures Steps(value, precision) <= n * Pow10(precision)
  {
    var m, p := Magnitude(value), Pow10(precision);
    hide Magnitude, Pow10, RoundHalfEven;
    RealOrder(m, n as real, p as real);
    WholeProduct(n, p);
    RoundsBelow(m * p as real, n * p);
  }

  lemma FixedLength(mantissa: nat, scale: nat, digits: nat)
    requires digits >= 1 && scale >= 1 && mantissa <= (Pow10(digits) - 1) * Pow10(scale)
    ensures 1 <= |Fixed(mantissa, scale)| <= digits + 1 + scale
  {
    WholeBelow(mantissa, Pow10(digits), Pow10(scale));
    PlainIsShort(Quotient(mantissa, Pow10(scale)), digits);
    hide Quotient, Remainder, Plain, Padded, Pow10;
  }

  lemma TrimmedLengthBound(text: seq<byte>)
    requires text != []
    ensures |Trimmed(text)| <= |text|
  {
    hide Find;
  }

  /** Trimming only shortens: a sign, the digits in front of the point, the point and those behind it. */
  lemma NumberLength(value: real, precision: nat, digits: nat)
    requires digits >= 1 && precision >= 1 && Magnitude(value) <= (Pow10(digits) - 1) as real
    ensures |Trimmed(FormatFixed(value, precision))| <= (if value < 0.0 then 1 else 0) + digits + 1 + precision
  {
    hide *;
    StepsBelow(value, precision, Pow10(digits) - 1);
    FixedLength(Steps(value, precision), precision, digits);
    SignLength(value, precision);
    TrimmedLengthBound(FormatFixed(value, precision));
  }

  lemma SignLength(value: real, precision: nat)
    ensures |FormatFixed(value, precision)|
         == (if value < 0.0 then 1 else 0) + |Fixed(Steps(value, precision), precision)|
  {
    hide Fixed, Steps;
  }

  /** HDOP and altitude are below these powers of ten, one step off, as far as they are printed. */
  predicate Moderate(state: RuntimeState, hdopDigits: nat, altitudeDigits: nat) {
    && hdopDigits >= 1 && altitudeDigits >= 1
    && (HdopShown(state.hdop) ==> state.hdop.value <= (Pow10(hdopDigits) - 1) as real)
    && (state.altitude.Some? ==> Magnitude(state.altitude.value) <= (Pow10(altitudeDigits) - 1) as real)
  }

  lemma HdopLength(hdop: Option<real>, digits: nat)
    requires digits >= 1 && (HdopShown(hdop) ==> hdop.value <= (Pow10(digits) - 1) as real)
    ensures |HdopText(hdop)| <= digits + 3
  {
    if HdopShown(hdop) {
      NumberLength(hdop.value, 2, digits);
      hide Trimmed, FormatFixed, Pow10;
    }
  }

  lemma AltitudeLength(altitude: Option<real>, digits: nat)
    requires digits >= 1 && (altitude.Some? ==> Magnitude(altitude.value) <= (Pow10(digits) - 1) as real)
    ensures |AltitudeText(altitude)| <= digits + 5
  {
    if altitude.Some? {
      NumberLength(altitude.value, 3, digits);
      hide Trimmed, FormatFixed, Pow10;
    }
  }

  /** A bound that a caller knows before building. */
  lemma ModerateSentenceIsShort(
      state: RuntimeState, talker: Talker, utcTime: Option<UtcTime>, hdopDigits: nat, altitudeDigits: nat)
    requires Build(state, talker, utcTime).Built? && Moderate(state, hdopDigits, altitudeDigits)
    ensures |Build(state, talker, utcTime).sentence| <= 72 + hdopDigits + altitudeDigits
  {
    hide Build, FormatSatelliteCount, HdopText, AltitudeText, Pow10;
    SentenceLength(state, talker, utcTime);
    SatellitesLength(state.satellitesUsed);
    HdopLength(state.hdop, hdopDigits);
    AltitudeLength(state.altitude, altitudeDigits);
  }

  /**
   Whatever is printable and moderate is built, framed exactly once and read back, by every framer whose
   limit is at least that bound: nothing depends on the printed text any more.
   */
  lemma ModerateRoundTrips(state: RuntimeState, talker: Talker, utcTime: Option<UtcTime>, hdopDigits: nat,
                           altitudeDigits: nat, max: nat, held: Pending, input: seq<Stamped>)
    requires Printable(state, utcTime) && Moderate(state, hdopDigits, altitudeDigits)
    requires max >= 72 + hdopDigits + altitudeDigits
    ensures Build(state, talker, utcTime).Built?
    ensures Values(input) == Build(state, talker, utcTime).sentence ==>
              var (left, sentences) := Run(F.FramerFor(max), held, input);
              && left == [] && |sentences| == 1
              && ParseGga(sentences[0]).RecordReady?
              && ReadBack(state, utcTime, ParseGga(sentences[0]).record)
  {
    hide *;
    BuiltIffPrintable(state, talker, utcTime);
    if Values(input) == Build(state, talker, utcTime).sentence {
      ModerateSentenceIsShort(state, talker, utcTime, hdopDigits, altitudeDigits);
      GgaRoundTrips(state, talker, utcTime, max, held, input);
    }
  }
}
