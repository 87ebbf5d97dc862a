/**
 GGA sentences as they are written, byte by byte: what each field reads as, letter by letter and digit
 by digit, and which bytes the builder writes.
 */
module GgaWritten {
  import opened Bits
  import opened Framing
  import opened CNumber
  import opened DecimalText
  import opened NmeaChecksum
  import opened NmeaParser
  import opened GgaSentence
  import opened GgaRoundTrip
  import F = NmeaFramer

  // ----- Texts -----------------------------------------------------------------------------

  /** Fields with a comma (2C) between any two. */
  function Joined(fields: seq<seq<byte>>): seq<byte>
    requires fields != []
  {
    if |fields| == 1 then fields[0] else Joined(fields[..|fields| - 1]) + [0x2C] + fields[|fields| - 1]
  }

  lemma {:induction false} JoinedSplits(fields: seq<seq<byte>>)
    requires fields != [] && forall f :: f in fields ==> IsField(f)
    ensures Split(Joined(fields)) == fields
  {
    var n := |fields| - 1;
    assert fields[n] in fields;
    if n == 0 {
      NoComma(fields[0]);
      assert fields == [fields[0]];
    } else {
      assert Joined(fields) == Add(Joined(fields[..n]), fields[n]);
      hide *;
      JoinedSplits(fields[..n]);
      SplitAdd(Joined(fields[..n]), fields[n]);
      assert fields == fields[..n] + [fields[n]];
    }
  }

  lemma {:induction false} JoinedFront(first: seq<byte>, fields: seq<seq<byte>>)
    requires fields != []
    ensures Joined([first] + fields) == first + [0x2C] + Joined(fields)
    decreases |fields|
  {
    var n := |fields| - 1;
    assert ([first] + fields)[..n + 1] == [first] + fields[..n];
    if n == 0 {
      assert [first] + fields[..0] == [first];
    } else {
      JoinedFront(first, fields[..n]);
      var front, last := Joined(fields[..n]), fields[n];
      assert (first + [0x2C] + front) + [0x2C] + last == first + [0x2C] + (front + [0x2C] + last);
    }
  }

  /** Cutting a text at its commas and joining the pieces gives the text. */
  lemma {:induction false} SplitJoins(text: seq<byte>)
    ensures Joined(Split(text)) == text
    decreases |text|
  {
    SplitCases(text);
    match Find(text, COMMA) {
      case None =>
      case Some(k) =>
        var rest := text[k + 1..];
        assert text == text[..k] + [0x2C] + rest;
        hide Split, Find, Joined;
        SplitJoins(rest);
        JoinedFront(text[..k], Split(rest));
    }
  }

  /** A number as it is written: digits and, perhaps, a point (2E) with more digits. */
  datatype Decimal = Decimal(whole: seq<byte>, fraction: Option<seq<byte>>)

  predicate IsDecimal(d: Decimal) {
    d.whole != [] && AllDigits(d.whole) && (d.fraction.Some? ==> AllDigits(d.fraction.value))
  }

  function Written(d: Decimal): seq<byte> {
    match d.fraction
    case None => d.whole
    case Some(f) => d.whole + [0x2E] + f
  }

  function Worth(d: Decimal): (v: real)
    requires IsDecimal(d)
    ensures v >= 0.0
  {
    match d.fraction
    case None => Number(d.whole) as real
    case Some(f) =>
      DigitsConcat(d.whole, f);
      Number(d.whole + f) as real / Pow10(|f|) as real
  }

  lemma DecimalReads(d: Decimal)
    requires IsDecimal(d)
    ensures Written(d) != [] && IsDigit(Written(d)[0]) && TryParseDouble(Written(d)) == Some(Worth(d))
  {
    hide Number, TryParseDouble, DecimalValue;
    match d.fraction {
      case None => ReadsWhole(d.whole);
      case Some(f) => ReadsDecimal(d.whole, f);
    }
  }

  /** With a minus sign (2D) in front. */
  lemma NegativeReads(d: Decimal)
    requires IsDecimal(d)
    ensures TryParseDouble([0x2D] + Written(d)) == Some(-Worth(d))
  {
    assert MINUS == 0x2D;
    hide *;
    DecimalReads(d);
    var body, text := Written(d), [0x2D] + Written(d);
    assert text[0] == 0x2D && text[1..] == body;
    MinusInFront(text, body);
  }

  // ----- Coordinates -----------------------------------------------------------------------

  /** Degrees, then minutes of at least two digits. */
  predicate IsAngle(degrees: seq<byte>, minutes: Decimal, width: nat) {
    && |degrees| == width && AllDigits(degrees) && IsDecimal(minutes) && |minutes.whole| == 2
  }

  function Angle(degrees: seq<byte>, minutes: Decimal): (v: real)
    requires AllDigits(degrees) && IsDecimal(minutes)
    ensures v >= 0.0
  {
    Number(degrees) as real + Worth(minutes) / 60.0
  }

  lemma PointFollows(degrees: seq<byte>, minutes: Decimal)
    requires AllDigits(degrees) && IsDecimal(minutes) && |minutes.whole| == 2
    ensures Find(degrees + Written(minutes), POINT)
         == if minutes.fraction == None then None else Some(|degrees| + 2)
  {
    hide Find, Number, DecimalValue, Worth;
    var front := degrees + minutes.whole;
    DigitsConcat(degrees, minutes.whole);
    NotInDigits(front, POINT);
    match minutes.fraction {
      case None => assert degrees + Written(minutes) == front;
      case Some(f) =>
        PointInside(degrees, minutes.whole, f);
        FindFirst(front, POINT, f);
    }
  }

  lemma PointInside(a: seq<byte>, b: seq<byte>, f: seq<byte>)
    ensures a + (b + [0x2E] + f) == (a + b) + [POINT] + f
  {
  }

  lemma AnglePieces(head: seq<byte>, tail: seq<byte>, width: nat, degrees: nat, minutes: real)
    requires |head| == width && |tail| >= 2 && TryParseUnsigned(head) == Some(degrees)
    requires TryParseDouble(tail) == Some(minutes) && 0.0 <= minutes
    requires Find(head + tail, POINT) == None || Find(head + tail, POINT) == Some(width + 2)
    ensures ParseNmeaDegreesMinutes(head + tail, width)
         == if minutes >= 60.0 then None else Some(degrees as real + minutes / 60.0)
  {
    hide TryParseUnsigned, TryParseDouble, Find;
    assert (head + tail)[..width] == head && (head + tail)[width..] == tail;
  }

  lemma AngleParts(degrees: seq<byte>, minutes: Decimal, width: nat)
    requires IsAngle(degrees, minutes, width)
    ensures |degrees| == width && AllDigits(degrees) && IsDecimal(minutes) && |minutes.whole| == 2
    ensures |Written(minutes)| >= 2
    ensures Angle(degrees, minutes) == Number(degrees) as real + Worth(minutes) / 60.0
  {
    hide Worth, Number;
  }

  /** The value of an angle is read, or refused for sixty minutes or more. */
  lemma AngleReads(degrees: seq<byte>, minutes: Decimal, width: nat)
    requires IsAngle(degrees, minutes, width) && 1 <= width <= 3
    ensures AllDigits(degrees) && IsDecimal(minutes)
    ensures ParseNmeaDegreesMinutes(degrees + Written(minutes), width)
         == if Worth(minutes) >= 60.0 then None else Some(Angle(degrees, minutes))
  {
    hide *;
    AngleParts(degrees, minutes, width);
    AngleFields(degrees, minutes);
    AnglePieces(degrees, Written(minutes), width, Number(degrees), Worth(minutes));
  }

  lemma AngleFields(degrees: seq<byte>, minutes: Decimal)
    requires AllDigits(degrees) && 1 <= |degrees| <= 3 && IsDecimal(minutes) && |minutes.whole| == 2
    ensures TryParseUnsigned(degrees) == Some(Number(degrees))
    ensures TryParseDouble(Written(minutes)) == Some(Worth(minutes))
    ensures var at := Find(degrees + Written(minutes), POINT);
            at == None || at == Some(|degrees| + 2)
  {
    hide *;
    ReadsSmall(degrees);
    DecimalReads(minutes);
    PointFollows(degrees, minutes);
  }

  lemma SmallNumber(digits: seq<byte>)
    requires AllDigits(digits) && |digits| <= 5
    ensures Number(digits) < Pow10(|digits|) <= 100000
  {
    NumberBelow(digits);
    assert Pow10(0) == 1 && Pow10(1) == 10 && Pow10(2) == 100 && Pow10(3) == 1000 && Pow10(4) == 10000;
    assert Pow10(5) == 100000;
  }

  lemma ReadsSmall(digits: seq<byte>)
    requires AllDigits(digits) && 1 <= |digits| <= 5
    ensures TryParseUnsigned(digits) == Some(Number(digits))
  {
    SmallNumber(digits);
    PlainUnsigned(digits);
    hide Number, TryParseUnsigned;
  }

  lemma {:induction false} NumberBelow(digits: seq<byte>)
    requires AllDigits(digits)
    ensures Number(digits) < Pow10(|digits|)
  {
    if digits != [] {
      NumberBelow(digits[..|digits| - 1]);
    }
  }

  /**
   A latitude field followed by the letter N (4E) is that many degrees north, by S (53) south; with any
   other letter, or with sixty minutes, it is refused.
   */
  lemma LatitudeReads(degrees: seq<byte>, minutes: Decimal, letter: byte)
    requires IsAngle(degrees, minutes, 2)
    ensures ParseOptionalCoordinate(degrees + Written(minutes), [letter], 2, NORTH, SOUTH)
         == if Worth(minutes) >= 60.0 then Bad
            else if letter == 0x4E then Present(Angle(degrees, minutes))
            else if letter == 0x53 then Present(-Angle(degrees, minutes))
            else Bad
  {
    hide ParseNmeaDegreesMinutes, Angle, Worth, Written;
    AngleReads(degrees, minutes, 2);
    AngleParts(degrees, minutes, 2);
  }

  /** A longitude field followed by the letter E (45) is that many degrees east, by W (57) west. */
  lemma LongitudeReads(degrees: seq<byte>, minutes: Decimal, letter: byte)
    requires IsAngle(degrees, minutes, 3)
    ensures ParseOptionalCoordinate(degrees + Written(minutes), [letter], 3, EAST, WEST)
         == if Worth(minutes) >= 60.0 then Bad
            else if letter == 0x45 then Present(Angle(degrees, minutes))
            else if letter == 0x57 then Present(-Angle(degrees, minutes))
            else Bad
  {
    hide ParseNmeaDegreesMinutes, Angle, Worth, Written;
    AngleReads(degrees, minutes, 3);
    AngleParts(degrees, minutes, 3);
  }

  // ----- The other fields ------------------------------------------------------------------

  /** Two digits of hours, two of minutes, and seconds of at least two. */
  lemma TimeReads(hour: seq<byte>, minute: seq<byte>, second: Decimal)
    requires |hour| == |minute| == |second.whole| == 2 && AllDigits(hour) && AllDigits(minute) && IsDecimal(second)
    ensures ParseOptionalUtcTime(hour + minute + Written(second))
         == if Number(hour) > 23 || Number(minute) > 59 || Worth(second) >= 61.0 then Bad
            else Present(UtcTime(Number(hour), Number(minute), Worth(second)))
  {
    hide *;
    ReadsSmall(hour);
    ReadsSmall(minute);
    DecimalReads(second);
    WrittenIsLong(second);
    TimeFields(hour, minute, Written(second), Number(hour), Number(minute), Worth(second));
  }

  lemma WrittenIsLong(d: Decimal)
    ensures |Written(d)| >= |d.whole|
  {
  }

  lemma TimeFields(h: seq<byte>, m: seq<byte>, s: seq<byte>, hour: nat, minute: nat, second: real)
    requires |h| == |m| == 2 && |s| >= 2 && 0.0 <= second
    requires TryParseUnsigned(h) == Some(hour) && TryParseUnsigned(m) == Some(minute) && TryParseDouble(s) == Some(second)
    ensures ParseOptionalUtcTime(h + m + s)
         == if hour > 23 || minute > 59 || second >= 61.0 then Bad else Present(UtcTime(hour, minute, second))
  {
    hide TryParseUnsigned, TryParseDouble;
    var text := h + m + s;
    assert text[..2] == h && text[2..4] == m && text[4..] == s;
  }

  lemma UnsignedReads(digits: seq<byte>)
    requires AllDigits(digits) && 1 <= |digits| <= 5
    ensures ParseOptionalUnsigned16(digits) == if Number(digits) > 65535 then Bad else Present(Number(digits))
    ensures ParseGgaFixQuality(digits) == if Number(digits) > 8 then None else Some(Number(digits))
  {
    hide Number, TryParseUnsigned;
    ReadsSmall(digits);
  }

  lemma NumberReads(negative: bool, d: Decimal)
    requires IsDecimal(d)
    ensures ParseOptionalDouble((if negative then [0x2D] else []) + Written(d))
         == Present(if negative then -Worth(d) else Worth(d))
  {
    hide Worth, TryParseDouble, Written;
    DecimalReads(d);
    NegativeReads(d);
    assert [] + Written(d) == Written(d);
  }

  // ----- A whole sentence ------------------------------------------------------------------

  /** The pieces a GGA sentence is written from. */
  datatype Text = Text(
    talker: seq<byte>, hour: seq<byte>, minute: seq<byte>, second: Decimal,
    latDegrees: seq<byte>, latMinutes: Decimal, northSouth: byte,
    lonDegrees: seq<byte>, lonMinutes: Decimal, eastWest: byte,
    quality: seq<byte>, satellites: seq<byte>, hdop: Decimal, below: bool, altitude: Decimal, rest: seq<seq<byte>>)

  predicate WellWritten(t: Text) {
    && |t.talker| == 2 && IsField(t.talker) && IsFieldChar(t.northSouth) && IsFieldChar(t.eastWest)
    && |t.hour| == |t.minute| == |t.second.whole| == 2 && AllDigits(t.hour) && AllDigits(t.minute)
    && IsDecimal(t.second) && IsAngle(t.latDegrees, t.latMinutes, 2) && IsAngle(t.lonDegrees, t.lonMinutes, 3)
    && AllDigits(t.quality) && 1 <= |t.quality| <= 5 && AllDigits(t.satellites) && 1 <= |t.satellites| <= 5
    && IsDecimal(t.hdop) && IsDecimal(t.altitude)
    && |t.rest| <= 5 && forall f :: f in t.rest ==> IsField(f)
  }

  /** The fields: the id ends in GGA, and the altitude is in metres (4D). */
  function Fields(t: Text): (fields: seq<seq<byte>>)
    ensures |fields| == 11 + |t.rest|
  {
    [t.talker + [0x47, 0x47, 0x41], t.hour + t.minute + Written(t.second),
     t.latDegrees + Written(t.latMinutes), [t.northSouth], t.lonDegrees + Written(t.lonMinutes), [t.eastWest],
     t.quality, t.satellites]
    + [Written(t.hdop), (if t.below then [0x2D] else []) + Written(t.altitude), [0x4D]] + t.rest
  }

  /** The numbers a receiver can mean: a time of day, a position on the globe, a known quality, 16 bits of satellites. */
  predicate Meaningful(t: Text)
    requires WellWritten(t)
  {
    && Number(t.hour) <= 23 && Number(t.minute) <= 59 && Worth(t.second) < 61.0
    && t.northSouth in [0x4E, 0x53] && Worth(t.latMinutes) < 60.0 && Angle(t.latDegrees, t.latMinutes) <= 90.0
    && t.eastWest in [0x45, 0x57] && Worth(t.lonMinutes) < 60.0 && Angle(t.lonDegrees, t.lonMinutes) <= 180.0
    && Number(t.quality) <= 8 && Number(t.satellites) <= 65535
  }

  /** What it says: north and east positive, south and west negative. */
  function Meaning(t: Text, ts: Timestamp): GgaRecord
    requires WellWritten(t)
  {
    var (lat, lon, alt) := (Angle(t.latDegrees, t.latMinutes), Angle(t.lonDegrees, t.lonMinutes), Worth(t.altitude));
    GgaRecord(ts, Some(UtcTime(Number(t.hour), Number(t.minute), Worth(t.second))),
              Some(if t.northSouth == 0x4E then lat else -lat), Some(if t.eastWest == 0x45 then lon else -lon),
              Some(if t.below then -alt else alt), Number(t.quality), Number(t.quality) != 0,
              Some(Number(t.satellites)), Some(Worth(t.hdop)))
  }

  lemma FieldsInPlace(t: Text)
    ensures var f := Fields(t);
            && f[1] == t.hour + t.minute + Written(t.second)
            && f[2] == t.latDegrees + Written(t.latMinutes) && f[3] == [t.northSouth]
            && f[4] == t.lonDegrees + Written(t.lonMinutes) && f[5] == [t.eastWest]
            && f[6] == t.quality && f[7] == t.satellites && f[8] == Written(t.hdop)
            && f[9] == (if t.below then [0x2D] else []) + Written(t.altitude) && f[10] == [0x4D]
  {
    hide Written;
  }

  /** What the parsers of the single fields make of a text. */
  lemma Readings(t: Text)
    requires WellWritten(t)
    ensures var f := Fields(t);
            && ParseOptionalUtcTime(f[1])
               == (if Number(t.hour) > 23 || Number(t.minute) > 59 || Worth(t.second) >= 61.0 then Bad
                   else Present(UtcTime(Number(t.hour), Number(t.minute), Worth(t.second))))
            && ParseOptionalUnsigned16(f[7]) == (if Number(t.satellites) > 65535 then Bad else Present(Number(t.satellites)))
            && ParseGgaFixQuality(f[6]) == (if Number(t.quality) > 8 then None else Some(Number(t.quality)))
            && ParseOptionalDouble(f[8]) == Present(Worth(t.hdop))
            && ParseOptionalDouble(f[9]) == Present(if t.below then -Worth(t.altitude) else Worth(t.altitude))
  {
    hide Number, Worth, Written, Fields, IsField, ParseOptionalUtcTime, ParseOptionalUnsigned16, ParseGgaFixQuality,
      ParseOptionalDouble, IsAngle;
    FieldsInPlace(t);
    TimeReads(t.hour, t.minute, t.second);
    UnsignedReads(t.quality);
    UnsignedReads(t.satellites);
    NumberReads(false, t.hdop);
    assert [] + Written(t.hdop) == Written(t.hdop);
    NumberReads(t.below, t.altitude);
  }

  lemma RecordCases(fields: seq<seq<byte>>, ts: Timestamp, time: Optional<UtcTime>, latitude: Optional<real>,
                    longitude: Optional<real>, quality: Option<nat>, satellites: Optional<nat>, hdop: real, altitude: real)
    requires |fields| >= 11 && fields[10] == [0x4D]
    requires time == ParseOptionalUtcTime(fields[1])
    requires latitude == ParseOptionalCoordinate(fields[2], fields[3], 2, NORTH, SOUTH)
    requires longitude == ParseOptionalCoordinate(fields[4], fields[5], 3, EAST, WEST)
    requires quality == ParseGgaFixQuality(fields[6]) && satellites == ParseOptionalUnsigned16(fields[7])
    requires Present(hdop) == ParseOptionalDouble(fields[8]) && Present(altitude) == ParseOptionalDouble(fields[9])
    ensures RecordOf(fields, ts)
         == if time.Bad? || latitude.Bad? || !InRange(latitude, 90.0) || longitude.Bad? || !InRange(longitude, 180.0)
               || quality == None || satellites.Bad? then None
            else Some(GgaRecord(ts, Value(time), Value(latitude), Value(longitude), Some(altitude), quality.value,
                                quality.value != 0, Value(satellites), Some(hdop)))
  {
    hide ParseOptionalUtcTime, ParseOptionalCoordinate, ParseGgaFixQuality, ParseOptionalUnsigned16,
      ParseOptionalDouble, InRange;
  }

  function LatitudeOf(t: Text): Optional<real>
    requires WellWritten(t)
  {
    ParseOptionalCoordinate(t.latDegrees + Written(t.latMinutes), [t.northSouth], 2, NORTH, SOUTH)
  }

  function LongitudeOf(t: Text): Optional<real>
    requires WellWritten(t)
  {
    ParseOptionalCoordinate(t.lonDegrees + Written(t.lonMinutes), [t.eastWest], 3, EAST, WEST)
  }

  lemma WellWrittenAngles(t: Text)
    requires WellWritten(t)
    ensures IsAngle(t.latDegrees, t.latMinutes, 2) && IsAngle(t.lonDegrees, t.lonMinutes, 3)
    ensures AllDigits(t.latDegrees) && IsDecimal(t.latMinutes) && AllDigits(t.lonDegrees) && IsDecimal(t.lonMinutes)
  {
    hide IsField;
  }

  lemma CoordinatesRead(t: Text)
    requires WellWritten(t) && AllDigits(t.latDegrees) && IsDecimal(t.latMinutes)
    requires AllDigits(t.lonDegrees) && IsDecimal(t.lonMinutes)
    ensures var lat := Angle(t.latDegrees, t.latMinutes);
            if Worth(t.latMinutes) >= 60.0 || t.northSouth !in [0x4E, 0x53] || lat > 90.0
            then LatitudeOf(t).Bad? || !InRange(LatitudeOf(t), 90.0)
            else LatitudeOf(t) == Present(if t.northSouth == 0x4E then lat else -lat) && InRange(LatitudeOf(t), 90.0)
    ensures var lon := Angle(t.lonDegrees, t.lonMinutes);
            if Worth(t.lonMinutes) >= 60.0 || t.eastWest !in [0x45, 0x57] || lon > 180.0
            then LongitudeOf(t).Bad? || !InRange(LongitudeOf(t), 180.0)
            else LongitudeOf(t) == Present(if t.eastWest == 0x45 then lon else -lon) && InRange(LongitudeOf(t), 180.0)
  {
    hide WellWritten, IsAngle, Angle, Worth, ParseOptionalCoordinate, Written;
    WellWrittenAngles(t);
    LatitudeReads(t.latDegrees, t.latMinutes, t.northSouth);
    LongitudeReads(t.lonDegrees, t.lonMinutes, t.eastWest);
  }

  /** The parser reads a well written sentence as what it says, or refuses it if that means nothing. */
  lemma RecordIsMeaning(t: Text, ts: Timestamp)
    requires WellWritten(t)
    ensures RecordOf(Fields(t), ts) == if Meaningful(t) then Some(Meaning(t, ts)) else None
  {
    hide IsAngle, IsDecimal, Angle, Worth, ParseOptionalCoordinate, Written, ParseOptionalUtcTime, ParseGgaFixQuality,
      ParseOptionalUnsigned16, ParseOptionalDouble, RecordOf, Fields, Number, InRange, IsField, IsFieldChar, AllDigits;
    WellWrittenAngles(t);
    CoordinatesRead(t);
    Readings(t);
    FieldsInPlace(t);
    var f := Fields(t);
    RecordCases(f, ts, ParseOptionalUtcTime(f[1]), LatitudeOf(t), LongitudeOf(t), ParseGgaFixQuality(f[6]),
                ParseOptionalUnsigned16(f[7]), Worth(t.hdop), if t.below then -Worth(t.altitude) else Worth(t.altitude));
  }

  // ----- From bytes to a record, and from a state to bytes -----------------------------------

  /** A line: dollar, payload, star, two characters, carriage return and line feed. */
  function Line(payload: seq<byte>, high: byte, low: byte): (line: seq<byte>)
    ensures line != []
  {
    [0x24] + payload + [0x2A, high, low] + [0x0D, 0x0A]
  }

  lemma {:induction false} JoinedIsPayload(fields: seq<seq<byte>>)
    requires fields != [] && forall f :: f in fields ==> IsField(f)
    ensures IsPayload(Joined(fields))
  {
    var n := |fields| - 1;
    assert fields[n] in fields;
    if n > 0 {
      JoinedIsPayload(fields[..n]);
      assert Joined(fields) == Add(Joined(fields[..n]), fields[n]);
      hide *;
      AddIsPayload(Joined(fields[..n]), fields[n]);
    }
  }

  lemma DecimalIsField(d: Decimal)
    requires IsDecimal(d)
    ensures IsField(Written(d))
  {
  }

  lemma FieldConcat(a: seq<byte>, b: seq<byte>)
    requires IsField(a) && IsField(b)
    ensures IsField(a + b)
  {
  }

  lemma WellWrittenParts(t: Text)
    requires WellWritten(t)
    ensures IsDecimal(t.second) && IsDecimal(t.latMinutes) && IsDecimal(t.lonMinutes) && IsDecimal(t.hdop)
    ensures IsDecimal(t.altitude) && IsField(t.talker) && IsField([t.northSouth]) && IsField([t.eastWest])
    ensures IsField(t.hour) && IsField(t.minute) && IsField(t.latDegrees) && IsField(t.lonDegrees)
    ensures IsField(t.quality) && IsField(t.satellites) && forall f :: f in t.rest ==> IsField(f)
  {
    hide IsDecimal;
  }

  lemma FieldsAreFields(t: Text)
    requires WellWritten(t)
    ensures forall f :: f in Fields(t) ==> IsField(f)
  {
    hide WellWritten, Written, IsDecimal;
    WellWrittenParts(t);
    DecimalIsField(t.second);
    DecimalIsField(t.latMinutes);
    DecimalIsField(t.lonMinutes);
    DecimalIsField(t.hdop);
    DecimalIsField(t.altitude);
    assert IsField([0x47, 0x47, 0x41]) && IsField([0x4D]) && IsField([0x2D]) && IsField([]);
    hide IsField;
    FieldConcat(t.talker, [0x47, 0x47, 0x41]);
    FieldConcat(t.hour, t.minute);
    FieldConcat(t.hour + t.minute, Written(t.second));
    FieldConcat(t.latDegrees, Written(t.latMinutes));
    FieldConcat(t.lonDegrees, Written(t.lonMinutes));
    FieldConcat(if t.below then [0x2D] else [], Written(t.altitude));
  }

  lemma HeaderIsGga(t: Text)
    requires WellWritten(t)
    ensures F.HeaderOf(Joined(Fields(t))).1 == GGA
  {
    var fields := Fields(t);
    FieldsAreFields(t);
    assert fields[0] in fields && fields == [fields[0]] + fields[1..];
    JoinedFront(fields[0], fields[1..]);
    var id, rest := fields[0], Joined(fields[1..]);
    hide Joined, Fields, Written;
    assert Joined(fields) == id + [COMMA] + rest;
    NoComma(id);
    assert COMMA !in id;
    FindFirst(id, COMMA, rest);
    assert (id + [COMMA] + rest)[..|id|] == id;
    assert id == t.talker + GGA;
  }

  /**
   A line with well written fields and a matching checksum parses to exactly what it says; one that
   means nothing, or whose checksum does not match, is invalid.
   */
  lemma SentenceMeans(t: Text, high: byte, low: byte, ts: Timestamp)
    requires WellWritten(t) && low !in [0x0D, 0x0A]
    ensures var payload := Joined(Fields(t));
            var sealed := HexNibble(high).Some? && HexNibble(low).Some?
                          && 16 * HexNibble(high).value + HexNibble(low).value == Checksum(payload);
            ParseGga(F.SentenceOf(Line(payload, high, low), ts))
              == if sealed && Meaningful(t) then RecordReady(Meaning(t, ts)) else InvalidData
  {
    hide WellWritten, Fields, IsField, IsPayload, Checksum, HexNibble, RecordOf, Meaningful, Meaning, F.HeaderOf, Split, Joined;
    var payload := Joined(Fields(t));
    FieldsAreFields(t);
    JoinedSplits(Fields(t));
    JoinedIsPayload(Fields(t));
    PayloadHasNoStar(payload);
    F.ValidIffSealed(0x24, payload, high, low, ts);
    HeaderIsGga(t);
    RecordIsMeaning(t, ts);
    FewFields(t);
    SentenceHeader(payload, high, low, ts);
  }

  lemma FewFields(t: Text)
    requires WellWritten(t)
    ensures 11 <= |Fields(t)| <= MAX_FIELDS
  {
    hide IsField, IsDecimal, IsAngle;
  }

  lemma PayloadHasNoStar(payload: seq<byte>)
    requires IsPayload(payload)
    ensures 0x2A !in payload
  {
  }

  lemma SentenceHeader(payload: seq<byte>, high: byte, low: byte, ts: Timestamp)
    requires 0x2A !in payload && low !in [0x0D, 0x0A]
    ensures var s := F.SentenceOf(Line(payload, high, low), ts);
            s.sentenceType == F.HeaderOf(payload).1 && s.ts == ts
  {
    hide F.HeaderOf, Checksum, HexNibble;
    F.ValidIffSealed(0x24, payload, high, low, ts);
  }

  /** `GPGGA,123519,4807.038,N,01131.000,E,1,08,0.9,545.4,M,46.9,M,,` */
  const SAMPLE := Text(
    [0x47, 0x50], [0x31, 0x32], [0x33, 0x35], Decimal([0x31, 0x39], None),
    [0x34, 0x38], Decimal([0x30, 0x37], Some([0x30, 0x33, 0x38])), 0x4E,
    [0x30, 0x31, 0x31], Decimal([0x33, 0x31], Some([0x30, 0x30, 0x30])), 0x45,
    [0x31], [0x30, 0x38], Decimal([0x30], Some([0x39])), false, Decimal([0x35, 0x34, 0x35], Some([0x34])),
    [[0x34, 0x36, 0x2E, 0x39], [0x4D], [], []])

  lemma {:induction false} SpelledNumber(digits: seq<byte>, n: nat, last: byte)
    requires AllDigits(digits) && Number(digits) == n && IsDigit(last)
    ensures AllDigits(digits + [last]) && Number(digits + [last]) == 10 * n + (last - 0x30)
  {
    AppendDigit(digits, last);
  }

  lemma Spells07038()
    ensures AllDigits([0x30, 0x37, 0x30, 0x33, 0x38]) && Number([0x30, 0x37, 0x30, 0x33, 0x38]) == 7038
  {
    hide Number;
    assert AllDigits([]) && Number([]) == 0 by { EmptyIsZero(); }
    assert [] + [0x30] == [0x30];
    SpelledNumber([], 0, 0x30);
    assert [0x30] + [0x37] == [0x30, 0x37];
    SpelledNumber([0x30], 0, 0x37);
    assert [0x30, 0x37] + [0x30] == [0x30, 0x37, 0x30];
    SpelledNumber([0x30, 0x37], 7, 0x30);
    assert [0x30, 0x37, 0x30] + [0x33] == [0x30, 0x37, 0x30, 0x33];
    SpelledNumber([0x30, 0x37, 0x30], 70, 0x33);
    assert [0x30, 0x37, 0x30, 0x33] + [0x38] == [0x30, 0x37, 0x30, 0x33, 0x38];
    SpelledNumber([0x30, 0x37, 0x30, 0x33], 703, 0x38);
  }

  lemma Spells31000()
    ensures AllDigits([0x33, 0x31, 0x30, 0x30, 0x30]) && Number([0x33, 0x31, 0x30, 0x30, 0x30]) == 31000
  {
    hide Number;
    assert AllDigits([]) && Number([]) == 0 by { EmptyIsZero(); }
    assert [] + [0x33] == [0x33];
    SpelledNumber([], 0, 0x33);
    assert [0x33] + [0x31] == [0x33, 0x31];
    SpelledNumber([0x33], 3, 0x31);
    assert [0x33, 0x31] + [0x30] == [0x33, 0x31, 0x30];
    SpelledNumber([0x33, 0x31], 31, 0x30);
    assert [0x33, 0x31, 0x30] + [0x30] == [0x33, 0x31, 0x30, 0x30];
    SpelledNumber([0x33, 0x31, 0x30], 310, 0x30);
    assert [0x33, 0x31, 0x30, 0x30] + [0x30] == [0x33, 0x31, 0x30, 0x30, 0x30];
    SpelledNumber([0x33, 0x31, 0x30, 0x30], 3100, 0x30);
  }

  lemma Spells5454()
    ensures AllDigits([0x35, 0x34, 0x35, 0x34]) && Number([0x35, 0x34, 0x35, 0x34]) == 5454
  {
    hide Number;
    assert AllDigits([]) && Number([]) == 0 by { EmptyIsZero(); }
    assert [] + [0x35] == [0x35];
    SpelledNumber([], 0, 0x35);
    assert [0x35] + [0x34] == [0x35, 0x34];
    SpelledNumber([0x35], 5, 0x34);
    assert [0x35, 0x34] + [0x35] == [0x35, 0x34, 0x35];
    SpelledNumber([0x35, 0x34], 54, 0x35);
    assert [0x35, 0x34, 0x35] + [0x34] == [0x35, 0x34, 0x35, 0x34];
    SpelledNumber([0x35, 0x34, 0x35], 545, 0x34);
  }

  lemma Spells011()
    ensures AllDigits([0x30, 0x31, 0x31]) && Number([0x30, 0x31, 0x31]) == 11
  {
    hide Number;
    assert AllDigits([]) && Number([]) == 0 by { EmptyIsZero(); }
    assert [] + [0x30] == [0x30];
    SpelledNumber([], 0, 0x30);
    assert [0x30] + [0x31] == [0x30, 0x31];
    SpelledNumber([0x30], 0, 0x31);
    assert [0x30, 0x31] + [0x31] == [0x30, 0x31, 0x31];
    SpelledNumber([0x30, 0x31], 1, 0x31);
  }

  lemma EmptyIsZero()
    ensures AllDigits([]) && Number([]) == 0
  {
  }

  lemma SpellsOne(a: byte)
    requires IsDigit(a)
    ensures Number([a]) == a - 0x30
  {
    EmptyIsZero();
    hide Number;
    assert [] + [a] == [a];
    SpelledNumber([], 0, a);
  }

  lemma SpellsTwo(a: byte, b: byte)
    requires IsDigit(a) && IsDigit(b)
    ensures Number([a, b]) == 10 * (a - 0x30) + (b - 0x30)
  {
    hide Number;
    SpellsOne(a);
    assert [a] + [b] == [a, b];
    SpelledNumber([a], a - 0x30, b);
  }

  lemma SampleIsWellWritten()
    ensures WellWritten(SAMPLE)
  {
    assert IsField([0x34, 0x36, 0x2E, 0x39]) && IsField([0x4D]) && IsField([]);
    forall f | f in SAMPLE.rest ensures IsField(f) {
      assert f == SAMPLE.rest[0] || f == SAMPLE.rest[1] || f == [];
    }
    hide IsField;
    assert IsField(SAMPLE.talker) by { TalkerIsField(); }
  }

  lemma TalkerIsField()
    ensures IsField([0x47, 0x50])
  {
  }

  lemma SampleNumbers()
    ensures IsDecimal(SAMPLE.latMinutes) && Worth(SAMPLE.latMinutes) == 7.038
    ensures IsDecimal(SAMPLE.lonMinutes) && Worth(SAMPLE.lonMinutes) == 31.0
    ensures IsDecimal(SAMPLE.altitude) && Worth(SAMPLE.altitude) == 545.4
    ensures IsDecimal(SAMPLE.hdop) && Worth(SAMPLE.hdop) == 0.9
    ensures IsDecimal(SAMPLE.second) && Worth(SAMPLE.second) == 19.0
  {
    assert Pow10(0) == 1 && Pow10(1) == 10 && Pow10(2) == 100 && Pow10(3) == 1000;
    Spells07038();
    Spells31000();
    Spells5454();
    SpellsTwo(0x30, 0x39);
    SpellsTwo(0x31, 0x39);
    hide Number, Pow10;
    assert [0x30, 0x37] + [0x30, 0x33, 0x38] == [0x30, 0x37, 0x30, 0x33, 0x38];
    assert [0x33, 0x31] + [0x30, 0x30, 0x30] == [0x33, 0x31, 0x30, 0x30, 0x30];
    assert [0x35, 0x34, 0x35] + [0x34] == [0x35, 0x34, 0x35, 0x34];
    assert [0x30] + [0x39] == [0x30, 0x39];
  }

  /** The sample says 12:35:19, 48 degrees 7.038 minutes north, 11 degrees 31 minutes east, 545.4 metres. */
  lemma SampleMeans(ts: Timestamp)
    ensures WellWritten(SAMPLE) && Meaningful(SAMPLE)
    ensures Meaning(SAMPLE, ts)
         == GgaRecord(ts, Some(UtcTime(12, 35, 19.0)), Some(48.0 + 7.038 / 60.0), Some(11.0 + 31.0 / 60.0),
                      Some(545.4), 1, true, Some(8), Some(0.9))
  {
    SampleIsWellWritten();
    SampleNumbers();
    SpellsTwo(0x31, 0x32);
    SpellsTwo(0x33, 0x35);
    SpellsTwo(0x34, 0x38);
    SpellsTwo(0x30, 0x38);
    SpellsOne(0x31);
    Spells011();
    hide Number, Worth, WellWritten;
  }

  /** The fields a built sentence joins. */
  function BuiltFields(state: RuntimeState, talker: Talker, utcTime: Option<UtcTime>): (fields: seq<seq<byte>>)
    requires Build(state, talker, utcTime).Built?
    ensures |fields| == 15
  {
    FieldsFor(state, talker, Time(utcTime).value, Coordinate(state.latitude.value, true).value,
              Coordinate(state.longitude.value, false).value)
  }

  const DIGITS := "0123456789ABCDEF"

  lemma HexDigitsSeal(n: byte)
    ensures HexNibble(UpperHex(n / 16)) == Some(n / 16) && HexNibble(UpperHex(n % 16)) == Some(n % 16)
    ensures UpperHex(n / 16) as char == DIGITS[n / 16] && UpperHex(n % 16) as char == DIGITS[n % 16]
    ensures 16 * (n / 16) + n % 16 == n
  {
  }

  /** A built sentence is its fields, joined, between a dollar and a checksum that matches. */
  lemma BuiltLine(state: RuntimeState, talker: Talker, utcTime: Option<UtcTime>) returns (high: byte, low: byte)
    requires Build(state, talker, utcTime).Built?
    ensures var payload := Joined(BuiltFields(state, talker, utcTime));
            && Build(state, talker, utcTime).sentence == Line(payload, high, low)
            && HexNibble(high).Some? && HexNibble(low).Some?
            && 16 * HexNibble(high).value + HexNibble(low).value == Checksum(payload)
            && high as char == DIGITS[Checksum(payload) / 16] && low as char == DIGITS[Checksum(payload) % 16]
  {
    hide PayloadFor, Coordinate, Time, FieldsFor, IsPayload, Split, F.HeaderOf, CoordinateInRange, TimeInRange, Joined,
      Checksum, UpperHex, HexNibble;
    BuiltIffPrintable(state, talker, utcTime);
    var payload := BuiltPayload(state, talker, utcTime);
    SplitJoins(payload);
    HexDigitsSeal(Checksum(payload));
    high, low := UpperHex(Checksum(payload) / 16), UpperHex(Checksum(payload) % 16);
    SentenceSpelled(payload, high, low);
  }

  lemma SentenceSpelled(payload: seq<byte>, high: byte, low: byte)
    requires high == UpperHex(Checksum(payload) / 16) && low == UpperHex(Checksum(payload) % 16)
    ensures Sentence(payload) == Line(payload, high, low)
  {
    hide Checksum, UpperHex;
  }

  /**
   The bytes of the fixed fields: the id for the talker, N (4E) or S (53) and E (45) or W (57) by the sign
   of the coordinate, metres (4D), and four empty fields at the end.
   */
  lemma BuiltLetters(state: RuntimeState, talker: Talker, utcTime: Option<UtcTime>)
    requires Build(state, talker, utcTime).Built?
    ensures state.latitude.Some? && state.longitude.Some?
    ensures var f := BuiltFields(state, talker, utcTime);
            && f[0] == (if talker == Gn then [0x47, 0x4E, 0x47, 0x47, 0x41] else [0x47, 0x50, 0x47, 0x47, 0x41])
            && f[3] == [if state.latitude.value < 0.0 then 0x53 else 0x4E]
            && f[5] == [if state.longitude.value < 0.0 then 0x57 else 0x45]
            && f[6] == [0x30 + MapRuntimeStateToGgaFixQuality(state)]
            && f[10] == [0x4D] && f[11] == f[12] == f[13] == f[14] == []
  {
    hide Time, CoordinateText, Carried, Parts, HdopText, AltitudeText, FormatSatelliteCount, PayloadFor, Sentence,
      CoordinateInRange, Magnitude, MapRuntimeStateToGgaFixQuality;
    OneDigitQuality(MapRuntimeStateToGgaFixQuality(state));
  }

  lemma OneDigitQuality(q: nat)
    requires q <= 8
    ensures AtLeast(q, 1) == [0x30 + q]
  {
  }

  /** Two digits of degrees (three of longitude), two of minutes, a point (2E) and five more. */
  predicate IsPlace(text: seq<byte>, width: nat) {
    && |text| == width + 8 && text[width + 2] == 0x2E
    && forall i :: 0 <= i < |text| && i != width + 2 ==> IsDigit(text[i])
  }

  lemma CoordinateIsPlace(coordinate: real, latitude: bool)
    requires Coordinate(coordinate, latitude).Some?
    ensures IsPlace(Coordinate(coordinate, latitude).value.value, DegreeDigits(latitude))
  {
    CarryStaysInRange(coordinate, latitude);
    var (degrees, steps) := Carried(Parts(Magnitude(coordinate)));
    hide AtLeast, CoordinateText, Carried, Parts, MinutesText;
    CoordinateForm(degrees, steps, latitude);
    ReadsDegrees(degrees, latitude);
    var front, fraction := MinutesParts(steps);
    assert AllDigits(AtLeast(degrees, DegreeDigits(latitude)));
  }

  /** Six digits of time, a point and two more; and the two places. */
  lemma BuiltShapes(state: RuntimeState, talker: Talker, utcTime: Option<UtcTime>)
    requires Build(state, talker, utcTime).Built?
    ensures var f := BuiltFields(state, talker, utcTime);
            && |f[1]| == 9 && f[1][6] == 0x2E
            && IsPlace(f[2], 2) && IsPlace(f[4], 3)
  {
    hide IsPlace, Time, HdopText, AltitudeText, FormatSatelliteCount, PayloadFor, Sentence, Coordinate,
      MapRuntimeStateToGgaFixQuality;
    CoordinateIsPlace(state.latitude.value, true);
    CoordinateIsPlace(state.longitude.value, false);
    TimeShape(utcTime);
  }

  lemma TimeShape(t: Option<UtcTime>)
    requires Time(t).Some?
    ensures |Time(t).value| == 9 && Time(t).value[6] == 0x2E
  {
    if t == None {
      MidnightText();
    } else {
      CarryIsModular(t.value);
      var (hour, minute, hundredths) := CarriedTime(t.value);
      TwoPlaces(hour);
      TwoPlaces(minute);
      TwoPlaces(hundredths / 100);
      TwoPlaces(hundredths % 100);
      hide AtLeast, CarriedTime;
    }
  }
}
