/**
 The field parsers and the GGA parser of `gnss_protocols/src/nmea_parser.cpp`. Floating-point numbers
 are exact reals.
 */
module NmeaParser {
  import opened Bits
  import opened Framing
  import opened CNumber
  import opened DecimalText
  import opened NmeaChecksum
  import opened NmeaFramer

  // ----- Fields ----------------------------------------------------------------------------

  /** A text cut at every comma. */
  function Split(text: seq<byte>): (fields: seq<seq<byte>>)
    ensures |fields| >= 1
    decreases |text|
  {
    match Find(text, COMMA)
    case None => [text]
    case Some(k) => [text[..k]] + Split(text[k + 1..])
  }

  /** The fields between the commas, unless there are more than `max`. */
  method TokenizeCsv(text: seq<byte>, max: nat) returns (result: Option<seq<seq<byte>>>)
    requires max > 0
    ensures result == if |Split(text)| <= max then Some(Split(text)) else None
  {
    hide Split, Find;
    var fields: seq<seq<byte>> := [];
    var start := 0;
    assert text[0..] == text && [] + Split(text) == Split(text);
    while start <= |text|
      invariant start <= |text| && |fields| <= max
      invariant Split(text) == fields + Split(text[start..])
      decreases |text| - start
    {
      if |fields| >= max {
        return None;
      }
      ghost var rest := text[start..];
      SplitCases(rest);
      var comma := Find(text[start..], COMMA);
      if comma == None {
        return Some(fields + [text[start..]]);
      }
      var end := start + comma.value;
      assert rest[..comma.value] == text[start..end];
      assert rest[comma.value + 1..] == text[end + 1..];
      assert fields + ([text[start..end]] + Split(text[end + 1..])) == (fields + [text[start..end]]) + Split(text[end + 1..]);
      fields := fields + [text[start..end]];
      start := end + 1;
      if start == |text| {
        SplitCases(text[start..]);
        assert text[start..] == [];
        if |fields| >= max {
          return None;
        }
        return Some(fields + [[]]);
      }
    }
    assert false;
  }

  lemma SplitCases(text: seq<byte>)
    ensures match Find(text, COMMA)
            case None => Split(text) == [text]
            case Some(k) => Split(text) == [text[..k]] + Split(text[k + 1..])
    ensures text == [] ==> Split(text) == [[]]
  {
  }

  datatype Optional<+T> = Absent | Present(value: T) | Bad

  function ParseOptionalDouble(text: seq<byte>): Optional<real> {
    if text == [] then Absent
    else match TryParseDouble(text) case Some(v) => Present(v) case None => Bad
  }

  function ParseOptionalUnsigned16(text: seq<byte>): Optional<nat> {
    if text == [] then Absent
    else match TryParseUnsigned(text)
      case Some(n) => if n > 0xFFFF then Bad else Present(n)
      case None => Bad
  }

  datatype UtcTime = UtcTime(hour: nat, minute: nat, second: real)

  function ParseOptionalUtcTime(text: seq<byte>): Optional<UtcTime> {
    if text == [] then Absent
    else if |text| < 6 then Bad
    else
      var (hour, minute, second) := (TryParseUnsigned(text[..2]), TryParseUnsigned(text[2..4]), TryParseDouble(text[4..]));
      if hour == None || minute == None || second == None then Bad
      else if hour.value > 23 || minute.value > 59 || second.value < 0.0 || second.value >= 61.0 then Bad
      else Present(UtcTime(hour.value, minute.value, second.value))
  }

  /** Degrees and minutes: `width` digits of degrees, at least two digits of minutes, and a fraction. */
  function ParseNmeaDegreesMinutes(field: seq<byte>, width: nat): Option<real> {
    var before := match Find(field, POINT) case Some(k) => k case None => |field|;
    if field == [] || before < width + 2 then None
    else
      var (degrees, minutes) := (TryParseUnsigned(field[..width]), TryParseDouble(field[width..]));
      if degrees == None || minutes == None || minutes.value < 0.0 || minutes.value >= 60.0 then None
      else Some(degrees.value as real + minutes.value / 60.0)
  }

  function ParseOptionalCoordinate(
      value: seq<byte>, hemisphere: seq<byte>, width: nat, positive: byte, negative: byte): Optional<real>
  {
    if value == [] && hemisphere == [] then Absent
    else if value == [] || |hemisphere| != 1 then Bad
    else match ParseNmeaDegreesMinutes(value, width)
      case None => Bad
      case Some(v) =>
        if hemisphere[0] == negative then Present(-v)
        else if hemisphere[0] == positive then Present(v)
        else Bad
  }

  // ----- GGA -------------------------------------------------------------------------------

  const GGA: seq<byte> := [0x47, 0x47, 0x41]
  const MAX_FIELDS := 16
  const NORTH: byte := 0x4E
  const SOUTH: byte := 0x53
  const EAST: byte := 0x45
  const WEST: byte := 0x57
  const METRES: byte := 0x4D

  datatype GgaRecord = GgaRecord(
    ts: Timestamp, utcTime: Option<UtcTime>, latitude: Option<real>, longitude: Option<real>,
    altitude: Option<real>, fixQuality: nat, fixValid: bool, satellitesUsed: Option<nat>, hdop: Option<real>)

  function Value<T>(o: Optional<T>): Option<T> {
    if o.Present? then Some(o.value) else None
  }

  predicate InRange(coordinate: Optional<real>, limit: real) {
    coordinate.Present? ==> -limit <= coordinate.value <= limit
  }

  function ParseGgaFixQuality(text: seq<byte>): Option<nat> {
    match TryParseUnsigned(text)
    case Some(q) => if q > 8 then None else Some(q)
    case None => None
  }

  function FieldAt(fields: seq<seq<byte>>, i: nat): seq<byte> {
    if i < |fields| then fields[i] else []
  }

  /** The record that a list of at least seven fields spells. */
  function RecordOf(fields: seq<seq<byte>>, ts: Timestamp): Option<GgaRecord>
    requires |fields| >= 7
  {
    var time := ParseOptionalUtcTime(fields[1]);
    var latitude := ParseOptionalCoordinate(fields[2], fields[3], 2, NORTH, SOUTH);
    var longitude := ParseOptionalCoordinate(fields[4], fields[5], 3, EAST, WEST);
    var quality := ParseGgaFixQuality(fields[6]);
    var satellites := ParseOptionalUnsigned16(FieldAt(fields, 7));
    var hdop := ParseOptionalDouble(FieldAt(fields, 8));
    var altitude := ParseOptionalDouble(FieldAt(fields, 9));
    var unit := FieldAt(fields, 10);
    if time.Bad? || latitude.Bad? || !InRange(latitude, 90.0) || longitude.Bad? || !InRange(longitude, 180.0)
       || quality == None || satellites.Bad? || hdop.Bad? || altitude.Bad?
       || (altitude.Present? && unit != [] && unit != [METRES])
    then None
    else Some(GgaRecord(ts, Value(time), Value(latitude), Value(longitude), Value(altitude),
                        quality.value, quality.value != 0, Value(satellites), Value(hdop)))
  }

  function ParseGga(sentence: NmeaSentence): ParserResult<GgaRecord> {
    if sentence.sentenceType != GGA then Skipped
    else if sentence.validation.status != Valid then InvalidData
    else
      var fields := Split(sentence.payloadText);
      if |fields| > MAX_FIELDS || |fields| < 7 then InvalidData
      else match RecordOf(fields, sentence.ts)
        case Some(record) => RecordReady(record)
        case None => InvalidData
  }

  method ParseNmeaGga(sentence: NmeaSentence) returns (result: ParserResult<GgaRecord>)
    ensures result == ParseGga(sentence)
  {
    hide Split, ParseOptionalUtcTime, ParseOptionalCoordinate, ParseGgaFixQuality, ParseOptionalUnsigned16, ParseOptionalDouble;
    if sentence.sentenceType != GGA {
      return Skipped;
    }
    if sentence.validation.status != Valid {
      return InvalidData;
    }
    var tokens := TokenizeCsv(sentence.payloadText, MAX_FIELDS);
    if tokens == None || |tokens.value| < 7 {
      return InvalidData;
    }
    var record := FillRecord(tokens.value, sentence.ts);
    return if record == None then InvalidData else RecordReady(record.value);
  }

  /** The body of `ParseNmeaGga` that fills the record field by field. */
  method FillRecord(fields: seq<seq<byte>>, ts: Timestamp) returns (result: Option<GgaRecord>)
    requires |fields| >= 7
    ensures result == RecordOf(fields, ts)
  {
    hide ParseOptionalUtcTime, ParseOptionalCoordinate, ParseGgaFixQuality, ParseOptionalUnsigned16, ParseOptionalDouble;
    var record := GgaRecord(ts, None, None, None, None, 0, false, None, None);
    var time := ParseOptionalUtcTime(fields[1]);
    if time.Bad? {
      return None;
    }
    record := record.(utcTime := Value(time));
    var latitude := ParseOptionalCoordinate(fields[2], fields[3], 2, NORTH, SOUTH);
    if latitude.Bad? || (latitude.Present? && (latitude.value < -90.0 || latitude.value > 90.0)) {
      return None;
    }
    record := record.(latitude := Value(latitude));
    var longitude := ParseOptionalCoordinate(fields[4], fields[5], 3, EAST, WEST);
    if longitude.Bad? || (longitude.Present? && (longitude.value < -180.0 || longitude.value > 180.0)) {
      return None;
    }
    record := record.(longitude := Value(longitude));
    var quality := ParseGgaFixQuality(fields[6]);
    if quality == None {
      return None;
    }
    record := record.(fixQuality := quality.value, fixValid := quality.value != 0);
    result := FillOptionalTail(fields, record);
  }

  /** The fields that older receivers leave out. */
  method FillOptionalTail(fields: seq<seq<byte>>, filled: GgaRecord) returns (result: Option<GgaRecord>)
    requires |fields| >= 7 && filled.satellitesUsed == None && filled.hdop == None && filled.altitude == None
    ensures var (satellites, hdop, altitude) :=
              (ParseOptionalUnsigned16(FieldAt(fields, 7)), ParseOptionalDouble(FieldAt(fields, 8)),
               ParseOptionalDouble(FieldAt(fields, 9)));
            var unit := FieldAt(fields, 10);
            result == if satellites.Bad? || hdop.Bad? || altitude.Bad?
                         || (altitude.Present? && unit != [] && unit != [METRES])
                      then None
                      else Some(filled.(satellitesUsed := Value(satellites), hdop := Value(hdop),
                                        altitude := Value(altitude)))
  {
    MissingFields();
    hide ParseOptionalUnsigned16, ParseOptionalDouble;
    var record := filled;
    if |fields| > 7 {
      var satellites := ParseOptionalUnsigned16(fields[7]);
      if satellites.Bad? {
        return None;
      }
      record := record.(satellitesUsed := Value(satellites));
    }
    if |fields| > 8 {
      var hdop := ParseOptionalDouble(fields[8]);
      if hdop.Bad? {
        return None;
      }
      record := record.(hdop := Value(hdop));
    }
    if |fields| > 9 {
      var altitude := ParseOptionalDouble(fields[9]);
      if altitude.Bad? {
        return None;
      }
      record := record.(altitude := Value(altitude));
      if altitude.Present? && |fields| > 10 && fields[10] != [] && fields[10] != [METRES] {
        return None;
      }
    }
    return Some(record);
  }

  lemma MissingFields()
    ensures ParseOptionalUnsigned16([]).Absent? && ParseOptionalDouble([]).Absent?
  {
  }
}
