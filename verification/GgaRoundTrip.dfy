/**
 Printing a position as a GGA sentence and reading it back through the framer and the parser: what
 comes back, and how far it can be from what was printed.
 */
module GgaRoundTrip {
  import opened Bits
  import opened Framing
  import opened CNumber
  import opened DecimalText
  import opened NmeaChecksum
  import opened NmeaParser
  import opened GgaSentence
  import F = NmeaFramer

  // ----- Numbers ---------------------------------------------------------------------------

  lemma {:induction false} NotInDigits(digits: seq<byte>, c: byte)
    requires AllDigits(digits) && !IsDigit(c)
    ensures c !in digits
  {
  }

  /** A whole part, a point and a fraction are read as their digits, scaled. */
  lemma ReadsDecimal(whole: seq<byte>, fraction: seq<byte>)
    requires AllDigits(whole) && AllDigits(fraction) && whole != []
    ensures AllDigits(whole + fraction)
    ensures DecimalValue(whole + [POINT] + fraction) == Some(Scaled(Number(whole + fraction), |fraction|))
    ensures TryParseDouble(whole + [POINT] + fraction) == DecimalValue(whole + [POINT] + fraction)
  {
    var text := whole + [POINT] + fraction;
    NotInDigits(whole, POINT);
    FindFirst(whole, POINT, fraction);
    assert text[..|whole|] == whole && text[|whole| + 1..] == fraction;
    assert IsPlain(text);
    PlainDouble(text);
    hide Number, Scaled, Find, TryParseDouble;
  }

  lemma ReadsWhole(whole: seq<byte>)
    requires AllDigits(whole) && whole != []
    ensures DecimalValue(whole) == Some(Scaled(Number(whole), 0)) && TryParseDouble(whole) == DecimalValue(whole)
  {
    NotInDigits(whole, POINT);
    PlainDouble(whole);
    hide Number, Scaled, TryParseDouble;
  }

  /** A text that starts with a digit and reads as this many steps of 10^-scale. */
  predicate ReadsAs(text: seq<byte>, mantissa: nat, scale: nat) {
    && text != [] && IsDigit(text[0])
    && DecimalValue(text) == Some(Scaled(mantissa, scale)) && TryParseDouble(text) == DecimalValue(text)
  }

  lemma WithoutFraction(whole: seq<byte>)
    requires AllDigits(whole) && whole != []
    ensures TrimPoint(TrimZeros(whole + [POINT] + [])) == whole && whole + [] == whole
    ensures ReadsAs(whole, Number(whole), 0)
  {
    var text := whole + [POINT] + [];
    assert text[|text| - 1] == POINT && text[..|text| - 1] == whole;
    ReadsWhole(whole);
  }

  lemma OneZeroLess(whole: seq<byte>, front: seq<byte>)
    ensures TrimZeros(whole + [POINT] + (front + [ZERO])) == TrimZeros(whole + [POINT] + front)
  {
    var text := whole + [POINT] + (front + [ZERO]);
    assert text[|text| - 1] == ZERO && text[..|text| - 1] == whole + [POINT] + front;
  }

  lemma TrimUnchanged(text: seq<byte>)
    requires text != [] && text[|text| - 1] != ZERO && text[|text| - 1] != POINT
    ensures TrimPoint(TrimZeros(text)) == text
  {
  }

  lemma IsReading(text: seq<byte>, mantissa: nat, scale: nat)
    requires text != [] && IsDigit(text[0])
    requires DecimalValue(text) == Some(Scaled(mantissa, scale)) && TryParseDouble(text) == DecimalValue(text)
    ensures ReadsAs(text, mantissa, scale)
  {
  }

  lemma NothingToTrim(whole: seq<byte>, fraction: seq<byte>)
    requires AllDigits(whole) && whole != [] && AllDigits(fraction) && fraction != []
    requires fraction[|fraction| - 1] != ZERO
    ensures AllDigits(whole + fraction)
    ensures TrimPoint(TrimZeros(whole + [POINT] + fraction)) == whole + [POINT] + fraction
    ensures ReadsAs(whole + [POINT] + fraction, Number(whole + fraction), |fraction|)
  {
    var text := whole + [POINT] + fraction;
    assert IsDigit(whole[0]) && IsDigit(fraction[|fraction| - 1]) && !IsDigit(POINT);
    assert text[|text| - 1] == fraction[|fraction| - 1] && text[0] == whole[0];
    hide *;
    ReadsDecimal(whole, fraction);
    TrimUnchanged(text);
    IsReading(text, Number(whole + fraction), |fraction|);
  }

  lemma ZeroAppended(whole: seq<byte>, front: seq<byte>)
    requires AllDigits(whole) && AllDigits(front)
    ensures AllDigits(whole + front) && AllDigits(whole + (front + [ZERO]))
    ensures Scaled(Number(whole + (front + [ZERO])), |front| + 1) == Scaled(Number(whole + front), |front|)
  {
    AppendDigit(whole + front, ZERO);
    assert whole + (front + [ZERO]) == (whole + front) + [ZERO];
    ScaledTrim(Number(whole + front), |front|);
    hide Scaled, Number;
  }

  lemma ZeroTrimmed(whole: seq<byte>, front: seq<byte>)
    requires AllDigits(whole) && AllDigits(front) && AllDigits(whole + front) && AllDigits(whole + (front + [ZERO]))
    requires ReadsAs(TrimPoint(TrimZeros(whole + [POINT] + front)), Number(whole + front), |front|)
    ensures ReadsAs(TrimPoint(TrimZeros(whole + [POINT] + (front + [ZERO]))), Number(whole + (front + [ZERO])), |front| + 1)
  {
    hide *;
    OneZeroLess(whole, front);
    ZeroAppended(whole, front);
    SameReading(TrimPoint(TrimZeros(whole + [POINT] + front)), Number(whole + front), |front|,
                Number(whole + (front + [ZERO])));
  }

  /** Trimming a number that has a point changes its text, not its value. */
  lemma {:induction false} ReadsTrimmed(whole: seq<byte>, fraction: seq<byte>)
    requires AllDigits(whole) && AllDigits(fraction) && whole != []
    ensures AllDigits(whole + fraction)
    ensures ReadsAs(TrimPoint(TrimZeros(whole + [POINT] + fraction)), Number(whole + fraction), |fraction|)
    decreases |fraction|
  {
    if fraction == [] {
      WithoutFraction(whole);
    } else {
      var n := |fraction| - 1;
      var front := fraction[..n];
      hide TrimZeros, TrimPoint, ReadsAs, Scaled, Number;
      if fraction[n] == ZERO {
        assert fraction == front + [ZERO];
        ReadsTrimmed(whole, front);
        ZeroTrimmed(whole, front);
      } else {
        NothingToTrim(whole, fraction);
      }
    }
  }

  lemma SameReading(text: seq<byte>, mantissa: nat, scale: nat, mantissa': nat)
    requires ReadsAs(text, mantissa, scale) && Scaled(mantissa', scale + 1) == Scaled(mantissa, scale)
    ensures ReadsAs(text, mantissa', scale + 1)
  {
    hide DecimalValue, TryParseDouble, Scaled;
  }

  lemma {:induction false} TrimAfterMinus(text: seq<byte>)
    requires text != [] && TrimZeros(text) != []
    ensures TrimZeros([MINUS] + text) == [MINUS] + TrimZeros(text)
  {
    var signed := [MINUS] + text;
    assert signed[|signed| - 1] == text[|text| - 1];
    if text[|text| - 1] == ZERO {
      assert signed[..|signed| - 1] == [MINUS] + text[..|text| - 1];
      TrimAfterMinus(text[..|text| - 1]);
    }
  }

  lemma PointAfterSign(whole: seq<byte>, fraction: seq<byte>)
    requires AllDigits(whole)
    ensures Find([MINUS] + (whole + [POINT] + fraction), POINT).Some?
  {
    NotInDigits(whole, POINT);
    assert [MINUS] + (whole + [POINT] + fraction) == ([MINUS] + whole) + [POINT] + fraction;
    FindFirst([MINUS] + whole, POINT, fraction);
  }

  lemma TrimPointAfterSign(z: seq<byte>)
    requires z != []
    ensures TrimPoint([MINUS] + z) == [MINUS] + TrimPoint(z)
  {
    assert ([MINUS] + z)[|z|] == z[|z| - 1];
    assert ([MINUS] + z)[..|z|] == [MINUS] + z[..|z| - 1];
  }

  lemma SignedTrim(text: seq<byte>, whole: seq<byte>, fraction: seq<byte>)
    requires text == whole + [POINT] + fraction && AllDigits(whole)
    requires TrimPoint(TrimZeros(text)) != [] && IsDigit(TrimPoint(TrimZeros(text))[0])
    ensures var t := Trimmed([MINUS] + text);
            t != [] && t[0] == MINUS && t[1..] == TrimPoint(TrimZeros(text))
  {
    assert TrimZeros(text) != [] && text != [];
    TrimAfterMinus(text);
    PointAfterSign(whole, fraction);
    TrimPointAfterSign(TrimZeros(text));
    hide TrimZeros, TrimPoint, Find;
  }

  lemma UnsignedTrim(text: seq<byte>, whole: seq<byte>, fraction: seq<byte>)
    requires text == whole + [POINT] + fraction && AllDigits(whole)
    requires TrimPoint(TrimZeros(text)) != []
    ensures Trimmed(text) == TrimPoint(TrimZeros(text))
  {
    NotInDigits(whole, POINT);
    FindFirst(whole, POINT, fraction);
    hide TrimZeros, TrimPoint;
  }

  lemma FixedParts(mantissa: nat, precision: nat) returns (whole: seq<byte>, fraction: seq<byte>)
    requires precision > 0
    ensures Fixed(mantissa, precision) == whole + [POINT] + fraction
    ensures whole == Plain(Quotient(mantissa, Pow10(precision)))
    ensures AllDigits(whole) && whole != [] && AllDigits(fraction) && |fraction| == precision
    ensures AllDigits(whole + fraction) && Number(whole + fraction) == mantissa
  {
    var p := Pow10(precision);
    whole, fraction := Plain(Quotient(mantissa, p)), Padded(Remainder(mantissa, p), precision);
    NumberOfFixed(mantissa, precision);
    hide Plain, Padded, Number, Quotient, Remainder, Pow10;
  }

  lemma SignedReading(text: seq<byte>, body: seq<byte>, v: real)
    requires text != [] && text[0] == MINUS && text[1..] == body && body != [] && IsDigit(body[0])
    requires TryParseDouble(body) == Some(v)
    ensures TryParseDouble(text) == Some(-v)
  {
    hide TryParseDouble;
    MinusInFront(text, body);
  }

  /** A trimmed fixed-point number reads back as the printed steps with the sign of the value. */
  lemma ReadsPrinted(value: real, precision: nat)
    requires precision > 0
    ensures var text, printed := Trimmed(FormatFixed(value, precision)), Scaled(Steps(value, precision), precision);
            && text != []
            && TryParseDouble(text) == Some(if value < 0.0 then -printed else printed)
  {
    hide *;
    var mantissa := Steps(value, precision);
    var whole, fraction := FixedParts(mantissa, precision);
    var text := Fixed(mantissa, precision);
    ReadsTrimmed(whole, fraction);
    FormatSign(value, precision);
    ReadingParts(TrimPoint(TrimZeros(text)), mantissa, precision);
    if value < 0.0 {
      SignedTrim(text, whole, fraction);
      SignedReading(Trimmed([MINUS] + text), TrimPoint(TrimZeros(text)), Scaled(mantissa, precision));
    } else {
      UnsignedTrim(text, whole, fraction);
    }
  }

  lemma FormatSign(value: real, precision: nat)
    ensures var text := Fixed(Steps(value, precision), precision);
            FormatFixed(value, precision) == if value < 0.0 then [MINUS] + text else text
  {
    hide Fixed, Steps;
    var text := Fixed(Steps(value, precision), precision);
    assert [] + text == text;
  }

  lemma ReadingParts(text: seq<byte>, mantissa: nat, scale: nat)
    requires ReadsAs(text, mantissa, scale)
    ensures text != [] && IsDigit(text[0])
    ensures DecimalValue(text) == Some(Scaled(mantissa, scale)) && TryParseDouble(text) == DecimalValue(text)
  {
  }

  /** Printing moves a number by at most half a step. */
  lemma PrintedIsClose(value: real, precision: nat)
    ensures var d := Scaled(Steps(value, precision), precision) - Magnitude(value);
            -0.5 <= d * Pow10(precision) as real <= 0.5
  {
    StepsAreClose(value, precision);
    ScaledIs(Steps(value, precision), precision);
    hide *;
    var p, m, x := Pow10(precision) as real, Steps(value, precision) as real, Magnitude(value);
    Undo(m, p);
    Spread(m / p, x, p);
  }

  lemma StepsAreClose(value: real, precision: nat)
    ensures var exact := Magnitude(value) * Pow10(precision) as real;
            -0.5 <= Steps(value, precision) as real - exact <= 0.5
  {
    hide RoundHalfEven, Magnitude, Pow10;
  }

  lemma ScaledIs(mantissa: nat, scale: nat)
    ensures Scaled(mantissa, scale) == mantissa as real / Pow10(scale) as real
  {
  }

  lemma Spread(q: real, x: real, p: real)
    ensures (q - x) * p == q * p - x * p
  {
  }

  lemma Undo(m: real, p: real)
    requires p > 0.0
    ensures m / p * p == m
  {
  }

  // ----- Times -----------------------------------------------------------------------------

  lemma TwoPlaces(n: nat)
    requires n < 100
    ensures |AtLeast(n, 2)| == 2
  {
    assert Pow10(2) == 100;
    PlainIsShort(n, 2);
  }

  lemma TwoDigits(n: nat)
    requires n < 100
    ensures |AtLeast(n, 2)| == 2 && TryParseUnsigned(AtLeast(n, 2)) == Some(n)
  {
    TwoPlaces(n);
    NumberOfAtLeast(n, 2);
    PlainUnsigned(AtLeast(n, 2));
    hide TryParseUnsigned;
  }

  /** Hundredths of a second since midnight. */
  function Hundredths(t: UtcTime): real {
    t.hour as real * 360000.0 + t.minute as real * 6000.0 + t.second * 100.0
  }

  lemma ReadsTime(hour: nat, minute: nat, hundredths: nat)
    requires hour < 24 && minute < 60 && hundredths < 6000
    ensures ParseOptionalUtcTime(TimeText(hour, minute, hundredths))
         == Present(UtcTime(hour, minute, Scaled(hundredths, 2)))
  {
    hide *;
    var h, m, s, c := AtLeast(hour, 2), AtLeast(minute, 2), AtLeast(hundredths / 100, 2), AtLeast(hundredths % 100, 2);
    TwoDigits(hour);
    TwoDigits(minute);
    ReadsSeconds(hundredths);
    ScaledBelow(hundredths);
    TimePieces(hour, minute, hundredths);
    ParseTimePieces(TimeText(hour, minute, hundredths), h, m, s + [POINT] + c, hour, minute, Scaled(hundredths, 2));
  }

  lemma ReadsSeconds(hundredths: nat)
    requires hundredths < 6000
    ensures TryParseDouble(AtLeast(hundredths / 100, 2) + [POINT] + AtLeast(hundredths % 100, 2)) == Some(Scaled(hundredths, 2))
  {
    var s, c := AtLeast(hundredths / 100, 2), AtLeast(hundredths % 100, 2);
    TwoPlaces(hundredths % 100);
    NumberOfAtLeast(hundredths / 100, 2);
    NumberOfAtLeast(hundredths % 100, 2);
    assert Pow10(2) == 100;
    hide *;
    NumberConcat(s, c);
    ReadsParts(s, c, hundredths);
  }

  lemma ReadsParts(whole: seq<byte>, fraction: seq<byte>, steps: nat)
    requires AllDigits(whole) && AllDigits(fraction) && whole != []
    requires AllDigits(whole + fraction) && Number(whole + fraction) == steps
    ensures TryParseDouble(whole + [POINT] + fraction) == Some(Scaled(steps, |fraction|))
  {
    hide *;
    ReadsDecimal(whole, fraction);
  }

  lemma ScaledBelow(hundredths: nat)
    requires hundredths < 6000
    ensures 0.0 <= Scaled(hundredths, 2) < 60.0 && Scaled(hundredths, 2) * 100.0 == hundredths as real
  {
    assert Pow10(2) == 100;
  }

  lemma TimePieces(hour: nat, minute: nat, hundredths: nat)
    ensures TimeText(hour, minute, hundredths)
         == AtLeast(hour, 2) + AtLeast(minute, 2) + (AtLeast(hundredths / 100, 2) + [POINT] + AtLeast(hundredths % 100, 2))
  {
    hide AtLeast;
  }

  lemma ParseTimePieces(text: seq<byte>, h: seq<byte>, m: seq<byte>, s: seq<byte>, hour: nat, minute: nat, second: real)
    requires text == h + m + s && |h| == 2 && |m| == 2 && |s| >= 2
    requires TryParseUnsigned(h) == Some(hour) && TryParseUnsigned(m) == Some(minute) && TryParseDouble(s) == Some(second)
    requires hour < 24 && minute < 60 && 0.0 <= second < 60.0
    ensures ParseOptionalUtcTime(text) == Present(UtcTime(hour, minute, second))
  {
    hide TryParseUnsigned, TryParseDouble;
    assert text[..2] == h && text[2..4] == m && text[4..] == s;
  }

  /**
   A time comes back as its nearest hundredth of a second, modulo 24 hours: both carries, at sixty
   seconds and at sixty minutes, included. No time is printed as midnight.
   */
  lemma TimeComesBack(t: Option<UtcTime>)
    requires t.Some? ==> TimeInRange(t.value)
    ensures Time(t).Some?
    ensures var read := ParseOptionalUtcTime(Time(t).value);
            && read.Present?
            && Hundredths(read.value)
               == (if t == None then 0
                   else (t.value.hour * 360000 + t.value.minute * 6000 + RoundHalfUp(t.value.second * 100.0)) % 8_640_000) as real
  {
    hide ParseOptionalUtcTime, TimeText, Scaled, CarriedTime, RoundHalfUp;
    if t == None {
      ReadsTime(0, 0, 0);
      ScaledBelow(0);
    } else {
      var (hour, minute, hundredths) := CarriedTime(t.value);
      CarryIsModular(t.value);
      ReadsTime(hour, minute, hundredths);
      ScaledBelow(hundredths);
    }
  }

  lemma CarryIsModular(t: UtcTime)
    requires TimeInRange(t)
    ensures var (hour, minute, hundredths) := CarriedTime(t);
            && hour < 24 && minute < 60 && hundredths < 6000
            && hour * 360000 + minute * 6000 + hundredths
               == (t.hour * 360000 + t.minute * 6000 + RoundHalfUp(t.second * 100.0)) % 8_640_000
  {
  }

  // ----- Coordinates -----------------------------------------------------------------------

  /** The text of the minutes: two whole digits and five behind the point. */
  function MinutesText(steps: nat): seq<byte> {
    (if steps < 1_000_000 then [ZERO] else []) + Fixed(steps, 5)
  }

  lemma WholeMinutes(minutes: nat)
    requires minutes < 60
    ensures |Plain(minutes)| == if minutes < 10 then 1 else 2
  {
  }

  lemma ZeroInFront(whole: seq<byte>, fraction: seq<byte>)
    requires AllDigits(whole) && AllDigits(fraction)
    ensures AllDigits([ZERO] + whole) && AllDigits(whole + fraction) && AllDigits([ZERO] + whole + fraction)
    ensures Number([ZERO] + whole + fraction) == Number(whole + fraction)
  {
    LeadingZeros(1, whole + fraction);
    assert seq(1, i => ZERO) + (whole + fraction) == [ZERO] + whole + fraction;
  }

  lemma WholeOfMinutes(steps: nat, whole: seq<byte>)
    requires steps < 6_000_000 && whole == Plain(Quotient(steps, Pow10(5)))
    ensures |whole| == if steps < 1_000_000 then 1 else 2
  {
    assert Pow10(5) == 100000;
    hide Plain;
    WholeMinutes(steps / 100000);
  }

  /** The digits before the point, which are always two, and those behind it. */
  lemma MinutesParts(steps: nat) returns (front: seq<byte>, fraction: seq<byte>)
    requires steps < 6_000_000
    ensures MinutesText(steps) == front + [POINT] + fraction
    ensures AllDigits(front) && |front| == 2 && AllDigits(fraction) && |fraction| == 5
    ensures AllDigits(front + fraction) && Number(front + fraction) == steps
  {
    hide *;
    var whole;
    whole, fraction := FixedParts(steps, 5);
    WholeOfMinutes(steps, whole);
    ZeroInFront(whole, fraction);
    MinutesForm(steps, Fixed(steps, 5));
    if steps < 1_000_000 {
      front := [ZERO] + whole;
      assert front + [POINT] + fraction == [ZERO] + (whole + [POINT] + fraction);
    } else {
      front := whole;
    }
  }

  lemma MinutesForm(steps: nat, text: seq<byte>)
    requires text == Fixed(steps, 5)
    ensures MinutesText(steps) == if steps < 1_000_000 then [ZERO] + text else text
  {
    hide Fixed;
    assert [] + text == text;
  }

  lemma ReadsMinutes(steps: nat)
    requires steps < 6_000_000
    ensures TryParseDouble(MinutesText(steps)) == Some(steps as real / 100000.0)
    ensures Find(MinutesText(steps), POINT) == Some(2) && MinutesText(steps) != []
  {
    hide *;
    var front, fraction := MinutesParts(steps);
    ReadsParts(front, fraction, steps);
    ScaledFive(steps);
    PointAfter(front, fraction);
  }

  lemma PointAfter(front: seq<byte>, rest: seq<byte>)
    requires AllDigits(front)
    ensures Find(front + [POINT] + rest, POINT) == Some(|front|)
  {
    NotInDigits(front, POINT);
    FindFirst(front, POINT, rest);
  }

  lemma ScaledFive(steps: nat)
    ensures Scaled(steps, 5) == steps as real / 100000.0
  {
    assert Pow10(5) == 100000;
  }

  lemma ReadsDegrees(degrees: nat, latitude: bool)
    requires degrees <= MaxDegrees(latitude)
    ensures var width := DegreeDigits(latitude);
            |AtLeast(degrees, width)| == width && TryParseUnsigned(AtLeast(degrees, width)) == Some(degrees)
  {
    ShortDegrees(degrees, latitude);
    NumberOfAtLeast(degrees, DegreeDigits(latitude));
    PlainUnsigned(AtLeast(degrees, DegreeDigits(latitude)));
    hide TryParseUnsigned;
  }

  lemma ReadsCoordinateText(degrees: nat, steps: nat, latitude: bool)
    requires degrees <= MaxDegrees(latitude) && steps < 6_000_000
    ensures CoordinateText(degrees, steps, latitude) != []
    ensures ParseNmeaDegreesMinutes(CoordinateText(degrees, steps, latitude), DegreeDigits(latitude))
         == Some(degrees as real + steps as real / 100000.0 / 60.0)
  {
    hide *;
    var width := DegreeDigits(latitude);
    var head := AtLeast(degrees, width);
    var front, fraction := MinutesParts(steps);
    ReadsDegrees(degrees, latitude);
    CoordinateForm(degrees, steps, latitude);
    ReadsMinutes(steps);
    assert head + (front + [POINT] + fraction) == (head + front) + [POINT] + fraction;
    assert AllDigits(head + front) by { DigitsConcat(head, front); }
    PointAfter(head + front, fraction);
    MinutesInRange(steps);
    ParsePieces(head, MinutesText(steps), width, degrees, steps as real / 100000.0);
  }

  lemma DigitsConcat(a: seq<byte>, b: seq<byte>)
    requires AllDigits(a) && AllDigits(b)
    ensures AllDigits(a + b)
  {
  }

  lemma MinutesInRange(steps: nat)
    requires steps < 6_000_000
    ensures 0.0 <= steps as real / 100000.0 < 60.0
  {
  }

  lemma CoordinateForm(degrees: nat, steps: nat, latitude: bool)
    ensures CoordinateText(degrees, steps, latitude) == AtLeast(degrees, DegreeDigits(latitude)) + MinutesText(steps)
  {
    hide AtLeast, Fixed;
  }

  lemma ParsePieces(head: seq<byte>, tail: seq<byte>, width: nat, degrees: nat, minutes: real)
    requires |head| == width && tail != []
    requires TryParseUnsigned(head) == Some(degrees) && TryParseDouble(tail) == Some(minutes) && 0.0 <= minutes < 60.0
    requires Find(head + tail, POINT) == Some(width + 2)
    ensures ParseNmeaDegreesMinutes(head + tail, width) == Some(degrees as real + minutes / 60.0)
  {
    hide TryParseUnsigned, TryParseDouble, Find;
    assert (head + tail)[..width] == head && (head + tail)[width..] == tail;
  }

  /** A whole number of degrees and of hundred-thousandths of a minute is within half of one of the latter. */
  lemma PartsAreClose(absolute: real)
    requires absolute >= 0.0
    ensures var (degrees, steps) := Carried(Parts(absolute));
            -1.0 / 12_000_000.0 <= degrees as real + steps as real / 100000.0 / 60.0 - absolute <= 1.0 / 12_000_000.0
  {
    var (degrees, steps) := Parts(absolute);
    var exact := (absolute - degrees as real) * 60.0 * 100000.0;
    assert exact <= 6_000_000.0;
    assert steps <= 6_000_000;
    assert degrees as real + exact / 100000.0 / 60.0 == absolute;
  }

  function Positive(latitude: bool): byte {
    if latitude then NORTH else EAST
  }

  function Negative(latitude: bool): byte {
    if latitude then SOUTH else WEST
  }

  /**
   Every coordinate inside its range is printed, is read back inside the range with the same sign, and
   is at most 1/12,000,000 of a degree away from what was printed.
   */
  lemma CoordinateComesBack(coordinate: real, latitude: bool)
    requires CoordinateInRange(coordinate, latitude)
    ensures Coordinate(coordinate, latitude).Some?
    ensures var f := Coordinate(coordinate, latitude).value;
            var read := ParseOptionalCoordinate(
                          f.value, [f.hemisphere], DegreeDigits(latitude), Positive(latitude), Negative(latitude));
            && read.Present? && InRange(read, MaxDegrees(latitude) as real)
            && -1.0 / 12_000_000.0 <= read.value - coordinate <= 1.0 / 12_000_000.0
            && (coordinate < 0.0 ==> read.value <= 0.0) && (coordinate >= 0.0 ==> read.value >= 0.0)
  {
    hide *;
    PrintsCoordinate(coordinate, latitude);
    CarriedBounds(coordinate, latitude);
    var v := CarriedValue(Magnitude(coordinate));
    var text := Coordinate(coordinate, latitude).value.value;
    ReadsHemisphere(text, coordinate, latitude, v);
    SignedBounds(coordinate, latitude, v);
  }

  /** The printed number of degrees. */
  function CarriedValue(absolute: real): real
    requires absolute >= 0.0
  {
    var (degrees, steps) := Carried(Parts(absolute));
    degrees as real + steps as real / 100000.0 / 60.0
  }

  lemma PrintsCoordinate(coordinate: real, latitude: bool)
    requires CoordinateInRange(coordinate, latitude)
    ensures Coordinate(coordinate, latitude).Some?
    ensures var f := Coordinate(coordinate, latitude).value;
            && f.hemisphere == HemisphereOf(coordinate, latitude) && f.value != []
            && ParseNmeaDegreesMinutes(f.value, DegreeDigits(latitude)) == Some(CarriedValue(Magnitude(coordinate)))
  {
    hide *;
    var (degrees, steps) := Carried(Parts(Magnitude(coordinate)));
    CarryStaysInRange(coordinate, latitude);
    ReadsCoordinateText(degrees, steps, latitude);
    CoordinateFields(coordinate, latitude, degrees, steps);
    CarriedValueIs(Magnitude(coordinate), degrees, steps);
  }

  lemma CarriedValueIs(absolute: real, degrees: nat, steps: nat)
    requires absolute >= 0.0 && (degrees, steps) == Carried(Parts(absolute))
    ensures CarriedValue(absolute) == degrees as real + steps as real / 100000.0 / 60.0
  {
    hide Carried, Parts;
  }

  lemma CoordinateFields(coordinate: real, latitude: bool, degrees: nat, steps: nat)
    requires CoordinateInRange(coordinate, latitude) && (degrees, steps) == Carried(Parts(Magnitude(coordinate)))
    ensures Coordinate(coordinate, latitude)
         == Some(FormattedCoordinate(CoordinateText(degrees, steps, latitude), HemisphereOf(coordinate, latitude)))
  {
    hide Carried, Parts, CoordinateText, HemisphereOf, Magnitude, CoordinateInRange;
  }

  lemma CarriedBounds(coordinate: real, latitude: bool)
    requires CoordinateInRange(coordinate, latitude)
    ensures var v := CarriedValue(Magnitude(coordinate));
            && 0.0 <= v <= MaxDegrees(latitude) as real
            && -1.0 / 12_000_000.0 <= v - Magnitude(coordinate) <= 1.0 / 12_000_000.0
  {
    CarryStaysInRange(coordinate, latitude);
    PartsAreClose(Magnitude(coordinate));
    hide Parts, Carried, CoordinateInRange;
  }

  lemma SignedBounds(coordinate: real, latitude: bool, v: real)
    requires 0.0 <= v <= MaxDegrees(latitude) as real
    requires -1.0 / 12_000_000.0 <= v - Magnitude(coordinate) <= 1.0 / 12_000_000.0
    ensures var read := if coordinate < 0.0 then -v else v;
            && InRange(Present(read), MaxDegrees(latitude) as real)
            && -1.0 / 12_000_000.0 <= read - coordinate <= 1.0 / 12_000_000.0
            && (coordinate < 0.0 ==> read <= 0.0) && (coordinate >= 0.0 ==> read >= 0.0)
  {
  }

  lemma ReadsHemisphere(text: seq<byte>, coordinate: real, latitude: bool, v: real)
    requires text != [] && ParseNmeaDegreesMinutes(text, DegreeDigits(latitude)) == Some(v)
    ensures ParseOptionalCoordinate(text, [HemisphereOf(coordinate, latitude)], DegreeDigits(latitude),
                                    Positive(latitude), Negative(latitude))
         == Present(if coordinate < 0.0 then -v else v)
  {
    hide ParseNmeaDegreesMinutes;
  }

  // ----- Fields and sentences --------------------------------------------------------------

  /** The characters a field is printed with: none of them separates fields or ends a sentence. */
  predicate IsFieldChar(c: byte) {
    IsDigit(c) || c == POINT || c == MINUS || 0x41 <= c <= 0x5A
  }

  predicate IsField(s: seq<byte>) {
    forall i :: 0 <= i < |s| ==> IsFieldChar(s[i])
  }

  /** Fields and the commas between them. */
  predicate IsPayload(s: seq<byte>) {
    forall i :: 0 <= i < |s| ==> IsFieldChar(s[i]) || s[i] == COMMA
  }

  lemma DigitsAreField(s: seq<byte>)
    requires AllDigits(s)
    ensures IsField(s)
  {
  }

  lemma FieldPrefix(a: seq<byte>, b: seq<byte>)
    requires IsField(a) && |b| <= |a| && b == a[..|b|]
    ensures IsField(b)
  {
  }

  lemma AddIsPayload(p: seq<byte>, f: seq<byte>)
    requires IsPayload(p) && IsField(f)
    ensures IsPayload(Add(p, f))
  {
  }

  lemma {:induction false} NoSeparator(f: seq<byte>, c: byte)
    requires IsPayload(f) && (c == COMMA ==> IsField(f)) && !IsFieldChar(c)
    ensures Find(f, c) == None
  {
    if f != [] {
      assert IsFieldChar(f[0]) || f[0] == COMMA;
      NoSeparator(f[1..], c);
    }
  }

  lemma NoComma(f: seq<byte>)
    requires IsField(f)
    ensures Find(f, COMMA) == None && Split(f) == [f]
  {
    NoSeparator(f, COMMA);
  }

  lemma SplitAddNone(p: seq<byte>, f: seq<byte>)
    requires IsField(f) && Find(p, COMMA) == None
    ensures Split(Add(p, f)) == Split(p) + [f]
  {
    NoComma(f);
    NoneMeansAbsent(p);
    FindFirst(p, COMMA, f);
    hide Find;
    assert Add(p, f)[..|p|] == p && Add(p, f)[|p| + 1..] == f;
  }

  lemma AddSlices(p: seq<byte>, f: seq<byte>, k: nat)
    requires k < |p| && p[k] == COMMA && COMMA !in p[..k]
    ensures Find(Add(p, f), COMMA) == Some(k) && k < |Add(p, f)|
    ensures Add(p, f)[..k] == p[..k] && Add(p, f)[k + 1..] == Add(p[k + 1..], f)
  {
    FindFirst(p[..k], COMMA, p[k + 1..] + [COMMA] + f);
    hide Find;
    assert Add(p, f) == p[..k] + [COMMA] + (p[k + 1..] + [COMMA] + f);
  }

  lemma SplitAddSome(p: seq<byte>, f: seq<byte>, k: nat)
    requires Find(p, COMMA) == Some(k) && k < |p|
    requires Split(Add(p[k + 1..], f)) == Split(p[k + 1..]) + [f]
    ensures Split(Add(p, f)) == Split(p) + [f]
  {
    hide *;
    FoundAt(p, k);
    AddSlices(p, f, k);
    SplitCases(Add(p, f));
    SplitCases(p);
    assert ([p[..k]] + Split(p[k + 1..])) + [f] == [p[..k]] + (Split(p[k + 1..]) + [f]);
  }

  /** One more field after a comma is one more field when the text is cut. */
  lemma {:induction false} SplitAdd(p: seq<byte>, f: seq<byte>)
    requires IsField(f)
    ensures Split(Add(p, f)) == Split(p) + [f]
    decreases |p|
  {
    match Find(p, COMMA)
    case None => SplitAddNone(p, f);
    case Some(k) =>
      hide *;
      FoundAt(p, k);
      SplitAdd(p[k + 1..], f);
      SplitAddSome(p, f, k);
  }

  lemma NoneMeansAbsent(p: seq<byte>)
    requires Find(p, COMMA) == None
    ensures COMMA !in p
  {
  }

  lemma FoundAt(p: seq<byte>, k: nat)
    requires Find(p, COMMA) == Some(k)
    ensures k < |p| && p[k] == COMMA && COMMA !in p[..k]
  {
  }

  lemma PositionFields(talker: Talker, time: seq<byte>, latitude: FormattedCoordinate, longitude: FormattedCoordinate,
                       quality: seq<byte>, q: nat, satellites: seq<byte>)
    requires IsField(time) && IsField(latitude.value) && IsField([latitude.hemisphere]) && IsField(longitude.value)
    requires IsField([longitude.hemisphere]) && IsField(quality) && IsField(satellites) && quality == AtLeast(q, 1)
    ensures Split(Position(talker, time, latitude, longitude, q, satellites))
         == [SentenceIdForTalker(talker), time, latitude.value, [latitude.hemisphere], longitude.value,
             [longitude.hemisphere], quality, satellites]
    ensures IsPayload(Position(talker, time, latitude, longitude, q, satellites))
  {
    hide Split, Add, AtLeast, IsField, IsPayload;
    var id := SentenceIdForTalker(talker);
    IdIsField(talker);
    NoComma(id);
    var p1 := Added(id, time);
    var p2 := Added(p1, latitude.value);
    var p3 := Added(p2, [latitude.hemisphere]);
    var p4 := Added(p3, longitude.value);
    var p5 := Added(p4, [longitude.hemisphere]);
    var p6 := Added(p5, quality);
    var p7 := Added(p6, satellites);
    assert p7 == Position(talker, time, latitude, longitude, q, satellites);
  }

  /** One step of building a payload. */
  lemma Added(p: seq<byte>, f: seq<byte>) returns (r: seq<byte>)
    requires IsPayload(p) && IsField(f)
    ensures r == Add(p, f) && IsPayload(r) && Split(r) == Split(p) + [f]
  {
    r := Add(p, f);
    AddIsPayload(p, f);
    SplitAdd(p, f);
  }

  lemma IdIsField(talker: Talker)
    ensures IsField(SentenceIdForTalker(talker)) && IsPayload(SentenceIdForTalker(talker))
  {
  }

  lemma TailFields(p: seq<byte>, hdop: seq<byte>, altitude: seq<byte>)
    requires IsPayload(p) && IsField(hdop) && IsField(altitude)
    ensures Split(Tail(p, hdop, altitude)) == Split(p) + [hdop, altitude, [METRES], [], [], [], []]
    ensures IsPayload(Tail(p, hdop, altitude))
  {
    LetterIsField(METRES);
    assert IsField([]);
    hide Split, Add, IsField, IsPayload;
    var p1 := Added(p, hdop);
    var p2 := Added(p1, altitude);
    var p3 := Added(p2, [METRES]);
    var p4 := Added(p3, []);
    var p5 := Added(p4, []);
    var p6 := Added(p5, []);
    var p7 := Added(p6, []);
    assert p7 == Tail(p, hdop, altitude);
    hide *;
    Seven(Split(p), hdop, altitude, [METRES], [], [], [], []);
  }

  lemma Seven<T>(s: seq<T>, a: T, b: T, c: T, d: T, e: T, f: T, g: T)
    ensures s + [a] + [b] + [c] + [d] + [e] + [f] + [g] == s + [a, b, c, d, e, f, g]
  {
  }

  lemma LetterIsField(c: byte)
    requires 0x41 <= c <= 0x5A
    ensures IsField([c])
  {
  }

  // ----- The framed sentence ---------------------------------------------------------------

  lemma HexReadsBack(n: byte)
    ensures TryParseHexByte([UpperHex(n / 16), UpperHex(n % 16)]) == Some(n)
    ensures HexNibble(UpperHex(n % 16)).Some?
  {
  }

  lemma HexIsNoSeparator(n: nat)
    requires n < 16
    ensures IsFieldChar(UpperHex(n))
  {
  }

  /** A built sentence is one line, with no second leader or line feed inside. */
  lemma SentenceIsLine(payload: seq<byte>)
    requires IsPayload(payload)
    ensures F.IsLine(Sentence(payload)) && |Sentence(payload)| == |payload| + 6
  {
    hide Checksum;
    var c := Checksum(payload);
    HexIsNoSeparator(c / 16);
    HexIsNoSeparator(c % 16);
    var line := Sentence(payload);
    forall i | 1 <= i < |line| - 1 ensures !IsLeader(line[i]) && line[i] != LF {
      if i <= |payload| {
        assert line[i] == payload[i - 1];
      }
    }
  }

  lemma SentenceTrims(payload: seq<byte>)
    ensures var raw := Sentence(payload);
            && TrimmedLength(raw) == |raw| - 2
            && TrimmedLength(raw[..|raw| - 2]) == |raw| - 2
  {
    hide Checksum;
    var c := Checksum(payload);
    HexIsNoSeparator(c % 16);
    var raw := Sentence(payload);
    assert raw[|raw| - 1] == LF && raw[|raw| - 2] == CR && raw[|raw| - 3] == UpperHex(c % 16);
    assert raw[..|raw| - 2][|raw| - 3] == UpperHex(c % 16);
  }

  lemma SentenceStar(payload: seq<byte>)
    requires IsPayload(payload)
    ensures var raw := Sentence(payload); var line := raw[..|raw| - 2];
            && Find(line, STAR) == Some(|payload| + 1)
            && line[0] == DOLLAR && line[1..|payload| + 1] == payload
            && line[|payload| + 2..|payload| + 4]
               == [UpperHex(Checksum(payload) / 16), UpperHex(Checksum(payload) % 16)]
  {
    hide Checksum;
    var raw := Sentence(payload);
    var line := raw[..|raw| - 2];
    var hex := [UpperHex(Checksum(payload) / 16), UpperHex(Checksum(payload) % 16)];
    assert line == ([DOLLAR] + payload) + [STAR] + hex;
    StarAbsent(payload);
    hide Find;
    FindFirst([DOLLAR] + payload, STAR, hex);
  }

  lemma StarAbsent(payload: seq<byte>)
    requires IsPayload(payload)
    ensures STAR !in [DOLLAR] + payload
  {
  }

  /** Its checksum matches and its payload is what was printed. */
  lemma SentenceReads(payload: seq<byte>, ts: Timestamp)
    requires IsPayload(payload)
    ensures var s := F.SentenceOf(Sentence(payload), ts);
            && s.payloadText == payload && s.validation.status == Valid
            && (s.talker, s.sentenceType) == F.HeaderOf(payload)
  {
    var raw := Sentence(payload);
    SentenceTrims(payload);
    SentenceStar(payload);
    HexReadsBack(Checksum(payload));
    hide Checksum, Find, TrimmedLength, TryParseHexByte, F.HeaderOf, Sentence;
    var line := raw[..|raw| - 2];
    assert ValidateNmeaChecksum(line).status == Valid;
  }

  lemma HeaderReads(talker: Talker, rest: seq<byte>)
    ensures F.HeaderOf(SentenceIdForTalker(talker) + [COMMA] + rest)
         == (SentenceIdForTalker(talker)[..2], GGA)
  {
    var id := SentenceIdForTalker(talker);
    assert COMMA !in id;
    FindFirst(id, COMMA, rest);
    assert (id + [COMMA] + rest)[..5] == id;
    assert id[2..] == GGA;
    hide Find;
  }

  // ----- The whole round trip --------------------------------------------------------------

  lemma FixedIsField(value: real, precision: nat)
    ensures IsField(FormatFixed(value, precision))
  {
    hide Steps, Plain, Padded, Quotient, Remainder, Pow10;
  }

  lemma TrimmedIsField(text: seq<byte>)
    requires IsField(text)
    ensures IsField(Trimmed(text))
  {
    hide Find;
    FieldPrefix(text, TrimZeros(text));
  }

  predicate Close(read: Option<real>, value: real, bound: real) {
    read.Some? && -bound <= read.value - value <= bound
  }

  lemma PrintedReads(value: real, precision: nat, bound: real)
    requires precision > 0 && bound * Pow10(precision) as real == 0.5
    ensures var text := Trimmed(FormatFixed(value, precision));
            IsField(text) && ParseOptionalDouble(text).Present? && Close(Some(ParseOptionalDouble(text).value), value, bound)
  {
    hide *;
    ReadsPrinted(value, precision);
    PrintedIsClose(value, precision);
    FixedIsField(value, precision);
    TrimmedIsField(FormatFixed(value, precision));
    var printed, p := Scaled(Steps(value, precision), precision), Pow10(precision) as real;
    Divided(printed - Magnitude(value), p, bound);
    SignedIsClose(Trimmed(FormatFixed(value, precision)), value, printed, bound);
  }

  lemma SignedIsClose(text: seq<byte>, value: real, printed: real, bound: real)
    requires text != [] && TryParseDouble(text) == Some(if value < 0.0 then -printed else printed)
    requires -bound <= printed - Magnitude(value) <= bound
    ensures ParseOptionalDouble(text).Present? && Close(Some(ParseOptionalDouble(text).value), value, bound)
  {
    hide TryParseDouble;
  }

  lemma MulStrict(a: real, b: real, p: real)
    requires a < b && p > 0.0
    ensures a * p < b * p
  {
    assert (b - a) * p > 0.0;
    assert (b - a) * p == b * p - a * p;
  }

  lemma Divided(d: real, p: real, bound: real)
    requires p > 0.0 && bound * p == 0.5 && -0.5 <= d * p <= 0.5
    ensures -bound <= d <= bound
  {
    var low := -bound;
    assert low * p == -0.5;
    if bound < d {
      MulStrict(bound, d, p);
    }
    if d < low {
      MulStrict(d, low, p);
    }
  }

  predicate HdopShown(hdop: Option<real>) {
    hdop.Some? && hdop.value >= 0.0
  }

  lemma HdopReads(hdop: Option<real>)
    ensures var read := ParseOptionalDouble(HdopText(hdop));
            && IsField(HdopText(hdop)) && !read.Bad?
            && (if HdopShown(hdop) then Close(Value(read), hdop.value, 0.005) else read.Absent?)
  {
    if HdopShown(hdop) {
      assert Pow10(2) == 100;
      PrintedReads(hdop.value, 2, 0.005);
      hide Trimmed, FormatFixed, ParseOptionalDouble, IsField;
    }
  }

  lemma AltitudeReads(altitude: Option<real>)
    ensures var read := ParseOptionalDouble(AltitudeText(altitude));
            && IsField(AltitudeText(altitude)) && !read.Bad?
            && (if altitude.Some? then Close(Value(read), altitude.value, 0.0005) else read.Absent?)
  {
    if altitude.Some? {
      assert Pow10(3) == 1000;
      PrintedReads(altitude.value, 3, 0.0005);
      hide Trimmed, FormatFixed, ParseOptionalDouble, IsField;
    }
  }

  lemma NumberFieldReads(n: nat, width: nat)
    requires n <= UINT32_MAX
    ensures IsField(AtLeast(n, width)) && AtLeast(n, width) != [] && TryParseUnsigned(AtLeast(n, width)) == Some(n)
  {
    NumberOfAtLeast(n, width);
    DigitsAreField(AtLeast(n, width));
    PlainUnsigned(AtLeast(n, width));
    hide AtLeast, Number, IsField, TryParseUnsigned;
  }

  lemma TimeIsField(hour: nat, minute: nat, hundredths: nat)
    ensures IsField(TimeText(hour, minute, hundredths))
  {
    hide AtLeast;
  }

  lemma CoordinateIsField(degrees: nat, steps: nat, latitude: bool)
    ensures IsField(CoordinateText(degrees, steps, latitude))
  {
    hide AtLeast, Plain, Padded, Quotient, Remainder, Pow10;
  }

  lemma CoordinateFieldsAreFields(coordinate: real, latitude: bool)
    requires Coordinate(coordinate, latitude).Some?
    ensures var f := Coordinate(coordinate, latitude).value; IsField(f.value) && IsField([f.hemisphere])
  {
    var (degrees, steps) := Carried(Parts(Magnitude(coordinate)));
    CoordinateIsField(degrees, steps, latitude);
    hide Carried, Parts, CoordinateText;
  }

  lemma PrintedTimeIsField(t: Option<UtcTime>)
    requires Time(t).Some?
    ensures IsField(Time(t).value)
  {
    TimeIsField(0, 0, 0);
    if t.Some? && TimeInRange(t.value) {
      var (hour, minute, hundredths) := CarriedTime(t.value);
      TimeIsField(hour, minute, hundredths);
    }
    hide TimeText, CarriedTime, IsField;
  }

  /** The nearest hundredth of a second since midnight, modulo 24 hours; midnight if no time was given. */
  function NearestHundredth(t: Option<UtcTime>): nat
    requires t.Some? ==> TimeInRange(t.value)
  {
    if t == None then 0
    else (t.value.hour * 360000 + t.value.minute * 6000 + RoundHalfUp(t.value.second * 100.0)) % 8_640_000
  }

  /** What the builder accepts: both coordinates present and in range, and a time in range if there is one. */
  predicate Printable(state: RuntimeState, utcTime: Option<UtcTime>) {
    && state.latitude.Some? && CoordinateInRange(state.latitude.value, true)
    && state.longitude.Some? && CoordinateInRange(state.longitude.value, false)
    && (utcTime.Some? ==> TimeInRange(utcTime.value))
  }

  /** The builder refuses nothing else. */
  lemma BuiltIffPrintable(state: RuntimeState, talker: Talker, utcTime: Option<UtcTime>)
    ensures Build(state, talker, utcTime).Built? <==> Printable(state, utcTime)
    ensures Build(state, talker, utcTime).fixQuality == MapRuntimeStateToGgaFixQuality(state)
  {
    hide PayloadFor, Sentence, TimeText, CarriedTime, CoordinateText, Carried, Parts;
  }

  /** What a record that was read back has in common with the state it was printed from. */
  predicate ReadBack(state: RuntimeState, utcTime: Option<UtcTime>, r: GgaRecord)
    requires Printable(state, utcTime)
  {
    && r.fixQuality == MapRuntimeStateToGgaFixQuality(state) && r.fixValid == (r.fixQuality != 0)
    && r.satellitesUsed == Some(if state.satellitesUsed.Some? then state.satellitesUsed.value else 0)
    && Close(r.latitude, state.latitude.value, 1.0 / 12_000_000.0)
    && Close(r.longitude, state.longitude.value, 1.0 / 12_000_000.0)
    && r.utcTime.Some? && Hundredths(r.utcTime.value) == NearestHundredth(utcTime) as real
    && (if HdopShown(state.hdop) then Close(r.hdop, state.hdop.value, 0.005) else r.hdop == None)
    && (if state.altitude.Some? then Close(r.altitude, state.altitude.value, 0.0005) else r.altitude == None)
  }

  /** The printed fields. */
  function FieldsFor(state: RuntimeState, talker: Talker, time: seq<byte>, latitude: FormattedCoordinate,
                     longitude: FormattedCoordinate): (fields: seq<seq<byte>>)
    ensures |fields| == 15
  {
    [SentenceIdForTalker(talker), time, latitude.value, [latitude.hemisphere], longitude.value,
     [longitude.hemisphere], AtLeast(MapRuntimeStateToGgaFixQuality(state), 1),
     FormatSatelliteCount(state.satellitesUsed)]
    + [HdopText(state.hdop), AltitudeText(state.altitude), [METRES], [], [], [], []]
  }

  lemma PayloadSplits(state: RuntimeState, talker: Talker, utcTime: Option<UtcTime>)
    requires Printable(state, utcTime)
    requires Coordinate(state.latitude.value, true).Some? && Coordinate(state.longitude.value, false).Some?
    requires Time(utcTime).Some?
    ensures var (time, lat, lon) := (Time(utcTime).value, Coordinate(state.latitude.value, true).value,
                                     Coordinate(state.longitude.value, false).value);
            && Split(PayloadFor(state, talker, time, lat, lon)) == FieldsFor(state, talker, time, lat, lon)
            && IsPayload(PayloadFor(state, talker, time, lat, lon))
  {
    var (time, lat, lon) := (Time(utcTime).value, Coordinate(state.latitude.value, true).value,
                             Coordinate(state.longitude.value, false).value);
    PrintedTimeIsField(utcTime);
    CoordinateFieldsAreFields(state.latitude.value, true);
    CoordinateFieldsAreFields(state.longitude.value, false);
    var q := MapRuntimeStateToGgaFixQuality(state);
    NumberFieldReads(q, 1);
    NumberFieldReads(if state.satellitesUsed.Some? then state.satellitesUsed.value else 0, 2);
    HdopReads(state.hdop);
    AltitudeReads(state.altitude);
    hide Split, Time, Coordinate, AtLeast, HdopText, AltitudeText, IsField, IsPayload, Position, Tail,
      ParseOptionalDouble, TryParseUnsigned, MapRuntimeStateToGgaFixQuality, CoordinateInRange, TimeInRange;
    PositionFields(talker, time, lat, lon, AtLeast(q, 1), q, FormatSatelliteCount(state.satellitesUsed));
    TailFields(Position(talker, time, lat, lon, q, FormatSatelliteCount(state.satellitesUsed)),
               HdopText(state.hdop), AltitudeText(state.altitude));
  }

  /** Every printed field is read back. */
  lemma FieldsRead(state: RuntimeState, talker: Talker, utcTime: Option<UtcTime>, ts: Timestamp)
    requires Printable(state, utcTime)
    requires Coordinate(state.latitude.value, true).Some? && Coordinate(state.longitude.value, false).Some?
    requires Time(utcTime).Some?
    ensures var fields := FieldsFor(state, talker, Time(utcTime).value, Coordinate(state.latitude.value, true).value,
                                    Coordinate(state.longitude.value, false).value);
            RecordOf(fields, ts).Some? && ReadBack(state, utcTime, RecordOf(fields, ts).value)
  {
    hide *;
    PrintableParts(state, utcTime);
    TimeComesBack(utcTime);
    CoordinateComesBack(state.latitude.value, true);
    CoordinateComesBack(state.longitude.value, false);
    HdopReads(state.hdop);
    AltitudeReads(state.altitude);
    QualityReads(MapRuntimeStateToGgaFixQuality(state));
    SatellitesRead(state.satellitesUsed);
    var (time, lat, lon) := (Time(utcTime).value, Coordinate(state.latitude.value, true).value,
                             Coordinate(state.longitude.value, false).value);
    var fields := FieldsFor(state, talker, time, lat, lon);
    FieldsInOrder(state, talker, time, lat, lon);
    LatitudeParameters();
    var o := Readings(
      ParseOptionalUtcTime(time),
      ParseOptionalCoordinate(lat.value, [lat.hemisphere], 2, NORTH, SOUTH),
      ParseOptionalCoordinate(lon.value, [lon.hemisphere], 3, EAST, WEST),
      MapRuntimeStateToGgaFixQuality(state),
      if state.satellitesUsed.Some? then state.satellitesUsed.value else 0,
      ParseOptionalDouble(HdopText(state.hdop)), ParseOptionalDouble(AltitudeText(state.altitude)));
    RecordFromReadings(fields, ts, o);
    ReadingsAreBack(state, utcTime, ts, o);
  }

  /** What the field parsers return for the ten fields that carry something. */
  datatype Readings = Readings(
    time: Optional<UtcTime>, latitude: Optional<real>, longitude: Optional<real>, quality: nat, satellites: nat,
    hdop: Optional<real>, altitude: Optional<real>)

  function RecordWith(o: Readings, ts: Timestamp): GgaRecord {
    GgaRecord(ts, Value(o.time), Value(o.latitude), Value(o.longitude), Value(o.altitude), o.quality,
              o.quality != 0, Some(o.satellites), Value(o.hdop))
  }

  lemma PrintableParts(state: RuntimeState, utcTime: Option<UtcTime>)
    requires Printable(state, utcTime)
    ensures state.latitude.Some? && CoordinateInRange(state.latitude.value, true)
    ensures state.longitude.Some? && CoordinateInRange(state.longitude.value, false)
    ensures utcTime.Some? ==> TimeInRange(utcTime.value)
  {
    hide CoordinateInRange, TimeInRange;
  }

  lemma LatitudeParameters()
    ensures DegreeDigits(true) == 2 && DegreeDigits(false) == 3
    ensures Positive(true) == NORTH && Negative(true) == SOUTH && Positive(false) == EAST && Negative(false) == WEST
    ensures MaxDegrees(true) as real == 90.0 && MaxDegrees(false) as real == 180.0
  {
  }

  lemma FieldsInOrder(state: RuntimeState, talker: Talker, time: seq<byte>, lat: FormattedCoordinate, lon: FormattedCoordinate)
    ensures var f := FieldsFor(state, talker, time, lat, lon);
            && f[1] == time && f[2] == lat.value && f[3] == [lat.hemisphere] && f[4] == lon.value
            && f[5] == [lon.hemisphere] && f[6] == AtLeast(MapRuntimeStateToGgaFixQuality(state), 1)
            && f[7] == FormatSatelliteCount(state.satellitesUsed) && f[8] == HdopText(state.hdop)
            && f[9] == AltitudeText(state.altitude) && f[10] == [METRES]
  {
    hide AtLeast, MapRuntimeStateToGgaFixQuality, FormatSatelliteCount, HdopText, AltitudeText;
  }

  lemma RecordFromReadings(fields: seq<seq<byte>>, ts: Timestamp, o: Readings)
    requires |fields| == 15 && fields[10] == [METRES]
    requires o.time == ParseOptionalUtcTime(fields[1])
    requires o.latitude == ParseOptionalCoordinate(fields[2], fields[3], 2, NORTH, SOUTH)
    requires o.longitude == ParseOptionalCoordinate(fields[4], fields[5], 3, EAST, WEST)
    requires ParseGgaFixQuality(fields[6]) == Some(o.quality)
    requires ParseOptionalUnsigned16(fields[7]) == Present(o.satellites)
    requires o.hdop == ParseOptionalDouble(fields[8]) && o.altitude == ParseOptionalDouble(fields[9])
    requires !o.time.Bad? && !o.latitude.Bad? && !o.longitude.Bad? && !o.hdop.Bad? && !o.altitude.Bad?
    requires InRange(o.latitude, 90.0) && InRange(o.longitude, 180.0)
    ensures RecordOf(fields, ts) == Some(RecordWith(o, ts))
  {
    hide ParseOptionalUtcTime, ParseOptionalCoordinate, ParseGgaFixQuality, ParseOptionalUnsigned16,
      ParseOptionalDouble, InRange;
  }

  lemma ReadingsAreBack(state: RuntimeState, utcTime: Option<UtcTime>, ts: Timestamp, o: Readings)
    requires Printable(state, utcTime) && state.latitude.Some? && state.longitude.Some?
    requires utcTime.Some? ==> TimeInRange(utcTime.value)
    requires o.quality == MapRuntimeStateToGgaFixQuality(state)
    requires o.satellites == if state.satellitesUsed.Some? then state.satellitesUsed.value else 0
    requires o.time.Present? && o.latitude.Present? && o.longitude.Present?
    requires Hundredths(o.time.value)
          == (if utcTime == None then 0
              else (utcTime.value.hour * 360000 + utcTime.value.minute * 6000
                    + RoundHalfUp(utcTime.value.second * 100.0)) % 8_640_000) as real
    requires -1.0 / 12_000_000.0 <= o.latitude.value - state.latitude.value <= 1.0 / 12_000_000.0
    requires -1.0 / 12_000_000.0 <= o.longitude.value - state.longitude.value <= 1.0 / 12_000_000.0
    requires if HdopShown(state.hdop) then Close(Value(o.hdop), state.hdop.value, 0.005) else o.hdop.Absent?
    requires if state.altitude.Some? then Close(Value(o.altitude), state.altitude.value, 0.0005) else o.altitude.Absent?
    ensures ReadBack(state, utcTime, RecordWith(o, ts))
  {
    hide MapRuntimeStateToGgaFixQuality, Hundredths, RoundHalfUp, HdopShown, CoordinateInRange;
  }

  lemma QualityReads(q: nat)
    requires q <= 8
    ensures ParseGgaFixQuality(AtLeast(q, 1)) == Some(q)
  {
    NumberFieldReads(q, 1);
    hide AtLeast, TryParseUnsigned;
  }

  lemma SatellitesRead(satellites: Option<UInt16>)
    ensures ParseOptionalUnsigned16(FormatSatelliteCount(satellites))
         == Present(if satellites.Some? then satellites.value else 0)
  {
    NumberFieldReads(if satellites.Some? then satellites.value else 0, 2);
    hide AtLeast, TryParseUnsigned;
  }

  /** The payload starts with the sentence id and a comma. */
  lemma StartsWithId(state: RuntimeState, talker: Talker, time: seq<byte>, latitude: FormattedCoordinate,
                     longitude: FormattedCoordinate) returns (rest: seq<byte>)
    ensures PayloadFor(state, talker, time, latitude, longitude) == SentenceIdForTalker(talker) + [COMMA] + rest
  {
    hide AtLeast, HdopText, AltitudeText, FormatSatelliteCount, MapRuntimeStateToGgaFixQuality, SentenceIdForTalker;
    var id, whole := SentenceIdForTalker(talker), PayloadFor(state, talker, time, latitude, longitude);
    rest := whole[6..];
    assert whole[..5] == id && whole[5] == COMMA;
  }

  /** The parser accepts what the builder printed. */
  lemma SentenceIsAccepted(state: RuntimeState, talker: Talker, utcTime: Option<UtcTime>, ts: Timestamp)
    requires Build(state, talker, utcTime).Built?
    ensures Printable(state, utcTime)
    ensures var sentence := Build(state, talker, utcTime).sentence;
            && F.IsLine(sentence)
            && ParseGga(F.SentenceOf(sentence, ts)).RecordReady?
            && ReadBack(state, utcTime, ParseGga(F.SentenceOf(sentence, ts)).record)
            && ParseGga(F.SentenceOf(sentence, ts)).record.ts == ts
  {
    hide *;
    BuiltIffPrintable(state, talker, utcTime);
    var payload := BuiltPayload(state, talker, utcTime);
    SentenceIsLine(payload);
    SentenceReads(payload, ts);
    AcceptedParts(state, talker, utcTime, ts, payload);
  }

  /** The payload inside a built sentence. */
  lemma BuiltPayload(state: RuntimeState, talker: Talker, utcTime: Option<UtcTime>) returns (payload: seq<byte>)
    requires Build(state, talker, utcTime).Built? && Printable(state, utcTime)
    ensures Build(state, talker, utcTime).sentence == Sentence(payload)
    ensures state.latitude.Some? && Coordinate(state.latitude.value, true).Some?
    ensures state.longitude.Some? && Coordinate(state.longitude.value, false).Some? && Time(utcTime).Some?
    ensures Split(payload) == FieldsFor(state, talker, Time(utcTime).value, Coordinate(state.latitude.value, true).value,
                                        Coordinate(state.longitude.value, false).value)
    ensures IsPayload(payload) && F.HeaderOf(payload) == (SentenceIdForTalker(talker)[..2], GGA)
  {
    hide Sentence, PayloadFor, Coordinate, Time, FieldsFor, IsPayload, Split, F.HeaderOf, CoordinateInRange, TimeInRange;
    var (time, lat, lon) := (Time(utcTime).value, Coordinate(state.latitude.value, true).value,
                             Coordinate(state.longitude.value, false).value);
    payload := PayloadFor(state, talker, time, lat, lon);
    PayloadSplits(state, talker, utcTime);
    var rest := StartsWithId(state, talker, time, lat, lon);
    HeaderReads(talker, rest);
  }

  lemma AcceptedParts(state: RuntimeState, talker: Talker, utcTime: Option<UtcTime>, ts: Timestamp, payload: seq<byte>)
    requires Printable(state, utcTime)
    requires state.latitude.Some? && Coordinate(state.latitude.value, true).Some?
    requires state.longitude.Some? && Coordinate(state.longitude.value, false).Some? && Time(utcTime).Some?
    requires Split(payload) == FieldsFor(state, talker, Time(utcTime).value, Coordinate(state.latitude.value, true).value,
                                         Coordinate(state.longitude.value, false).value)
    requires var s := F.SentenceOf(Sentence(payload), ts);
             s.payloadText == payload && s.validation.status == Valid && s.sentenceType == GGA && s.ts == ts
    ensures var r := ParseGga(F.SentenceOf(Sentence(payload), ts));
            r.RecordReady? && ReadBack(state, utcTime, r.record) && r.record.ts == ts
  {
    hide *;
    FieldsRead(state, talker, utcTime, ts);
    RecordKeepsStamp(Split(payload), ts);
    ParsedRecord(F.SentenceOf(Sentence(payload), ts));
  }

  lemma ParsedRecord(s: F.NmeaSentence)
    requires s.sentenceType == GGA && s.validation.status == Valid && |Split(s.payloadText)| == 15
    requires RecordOf(Split(s.payloadText), s.ts).Some?
    ensures ParseGga(s) == RecordReady(RecordOf(Split(s.payloadText), s.ts).value)
  {
    hide Split, RecordOf;
  }

  lemma RecordKeepsStamp(fields: seq<seq<byte>>, ts: Timestamp)
    requires |fields| >= 7
    ensures RecordOf(fields, ts).Some? ==> RecordOf(fields, ts).value.ts == ts
  {
    hide ParseOptionalUtcTime, ParseOptionalCoordinate, ParseGgaFixQuality, ParseOptionalUnsigned16, ParseOptionalDouble;
  }

  /**
   The round trip: a built sentence, fed byte by byte to a framer that may hold anything, is reported
   exactly once and accepted by the parser with the same quality and satellite count and everything
   else within its rounding, if it fits the framer's limit; if it does not, nothing is reported.
   */
  lemma GgaRoundTrips(state: RuntimeState, talker: Talker, utcTime: Option<UtcTime>, max: nat, held: Pending, input: seq<Stamped>)
    requires Build(state, talker, utcTime).Built? && Values(input) == Build(state, talker, utcTime).sentence
    ensures Printable(state, utcTime)
    ensures var (left, sentences) := Run(F.FramerFor(max), held, input);
            if |input| > max then sentences == []
            else
              && left == [] && |sentences| == 1
              && ParseGga(sentences[0]).RecordReady?
              && ReadBack(state, utcTime, ParseGga(sentences[0]).record)
              && ParseGga(sentences[0]).record.ts == input[0].ts
  {
    hide *;
    var sentence := Build(state, talker, utcTime).sentence;
    SentenceIsAccepted(state, talker, utcTime, None);
    LineIsNotEmpty(sentence);
    SentenceIsAccepted(state, talker, utcTime, input[0].ts);
    F.LineComesBackIffItFits(max, held, input);
  }

  lemma LineIsNotEmpty(line: seq<byte>)
    requires F.IsLine(line)
    ensures line != []
  {
  }

  // ----- Fix quality ---------------------------------------------------------------------------

  function FixTypeOf(quality: nat): FixType {
    if quality == 0 then NoFix
    else if quality == 2 then Dgps
    else if quality == 4 then RtkFixed
    else if quality == 5 then RtkFloat
    else Fix
  }

  function RtkModeOf(quality: nat): RtkMode {
    if quality == 4 then FixedMode else if quality == 5 then FloatMode else NoRtk
  }

  /** The runtime state that a parsed record stands for; without a fix it has no position. */
  function ToRuntimeState(r: GgaRecord): RuntimeState
    requires r.satellitesUsed.Some? ==> r.satellitesUsed.value <= 0xFFFF
  {
    RuntimeState(
      r.fixValid, FixTypeOf(r.fixQuality), Some(RtkModeOf(r.fixQuality)),
      if r.fixValid then r.latitude else None, if r.fixValid then r.longitude else None,
      match r.satellitesUsed case Some(n) => Some(n) case None => None,
      r.hdop, if r.fixValid then r.altitude else None)
  }

  /** Which states get which quality: fixed beats float, both beat dead reckoning, and no fix beats all. */
  lemma QualityTable(state: RuntimeState)
    ensures var q, fix := MapRuntimeStateToGgaFixQuality(state), state.fixValid && state.fixType != NoFix;
            && (q == 0 <==> !fix)
            && (q == 4 <==> fix && (state.fixType == RtkFixed || state.rtkMode == Some(FixedMode)))
            && (q == 5 <==> fix && q != 4 && (state.fixType == RtkFloat || state.rtkMode == Some(FloatMode)))
            && (q == 6 <==> fix && state.fixType == DeadReckoning
                            && state.rtkMode != Some(FixedMode) && state.rtkMode != Some(FloatMode))
            && q in {0, 1, 4, 5, 6}
  {
  }

  /**
   A quality that was printed, parsed and taken up as runtime state prints as itself again, except that an
   estimated position becomes a plain fix.
   */
  lemma QualityPrintsAgainIff(state: RuntimeState, r: GgaRecord)
    requires r.fixQuality == MapRuntimeStateToGgaFixQuality(state) && r.fixValid == (r.fixQuality != 0)
    requires r.satellitesUsed.Some? ==> r.satellitesUsed.value <= 0xFFFF
    ensures MapRuntimeStateToGgaFixQuality(ToRuntimeState(r)) == r.fixQuality <==> r.fixQuality != 6
    ensures r.fixQuality == 6 ==> MapRuntimeStateToGgaFixQuality(ToRuntimeState(r)) == 1
  {
    QualityTable(state);
  }
}
