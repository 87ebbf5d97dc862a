/** The NMEA sentence framer, `gnss_protocols/src/nmea_framer.cpp`. */
module NmeaFramer {
  import opened Bits
  import opened Framing
  import opened NmeaChecksum
  import S = FrameSlices

  datatype NmeaSentence = NmeaSentence(
    ts: Timestamp, leader: byte, talker: seq<byte>, sentenceType: seq<byte>, payloadText: seq<byte>,
    rawBytes: seq<byte>, validation: Validation)

  /** The text between the leader and the checksum mark, or the end of the line if there is none. */
  function PayloadOf(line: seq<byte>): seq<byte> {
    var end := match Find(line, STAR) case Some(k) => k case None => |line|;
    if end > 1 then line[1..end] else []
  }

  /** The talker and the sentence type that a payload's first field spells. */
  function HeaderOf(payload: seq<byte>): (seq<byte>, seq<byte>) {
    var header := match Find(payload, COMMA) case Some(k) => payload[..k] case None => payload;
    if |header| >= 5 then (header[..2], header[2..]) else ([], header)
  }

  function SentenceOf(raw: seq<byte>, ts: Timestamp): (sentence: NmeaSentence)
    requires raw != []
    ensures sentence.rawBytes == raw && sentence.ts == ts
  {
    var line := raw[..TrimmedLength(raw)];
    var payload := PayloadOf(line);
    var (talker, sentenceType) := HeaderOf(payload);
    NmeaSentence(ts, raw[0], talker, sentenceType, payload, raw, ValidateNmeaChecksum(line))
  }

  /** The framer as a function of the bytes it holds: a leader always starts a new sentence. */
  function Push(max: nat, held: Pending, s: Stamped): (Pending, ParserResult<NmeaSentence>) {
    if IsLeader(s.value) then ([s], NeedMoreData)
    else if held == [] then ([], Skipped)
    else
      var grown := held + [s];
      if |grown| > max then ([], Overflow)
      else if s.value != LF then (grown, NeedMoreData)
      else ([], RecordReady(SentenceOf(Values(grown), grown[0].ts)))
  }

  class NmeaSentenceFramer {
    const maxFrameLength: nat
    var buffer: seq<byte>
    var frameTimestamp: Timestamp
    ghost var held: Pending

    ghost predicate Valid()
      reads this
    {
      buffer == Values(held) && (held != [] ==> frameTimestamp == held[0].ts)
    }

    constructor (maxFrameLength: nat)
      ensures Valid() && held == [] && this.maxFrameLength == maxFrameLength
    {
      this.maxFrameLength := maxFrameLength;
      buffer, frameTimestamp, held := [], None, [];
    }

    method Reset()
      modifies this
      ensures Valid() && held == []
    {
      buffer, frameTimestamp, held := [], None, [];
    }

    method PushByte(value: byte, ts: Timestamp) returns (result: ParserResult<NmeaSentence>)
      requires Valid()
      modifies this
      ensures Valid()
      ensures (held, result) == Push(maxFrameLength, old(held), Stamped(value, ts))
    {
      hide SentenceOf;
      if buffer == [] {
        if value != DOLLAR && value != BANG {
          return Skipped;
        }
        buffer, frameTimestamp := buffer + [value], ts;
        held := [Stamped(value, ts)];
        return NeedMoreData;
      }
      if value == DOLLAR || value == BANG {
        buffer, frameTimestamp := [value], ts;
        held := [Stamped(value, ts)];
        return NeedMoreData;
      }
      buffer := buffer + [value];
      held := held + [Stamped(value, ts)];
      assert buffer == Values(held) && frameTimestamp == held[0].ts;
      if |buffer| > maxFrameLength {
        Reset();
        return Overflow;
      }
      if value != LF {
        return NeedMoreData;
      }
      var sentence := SentenceOf(buffer, frameTimestamp);
      Reset();
      return RecordReady(sentence);
    }

    method Finalize() returns (result: ParserResult<NmeaSentence>)
      requires Valid()
      modifies this
      ensures Valid() && held == []
      ensures result == Framing.Finalize(old(held))
    {
      if buffer == [] {
        return Idle;
      }
      Reset();
      return Truncated;
    }
  }

  function FramerFor(max: nat): Framer<NmeaSentence> {
    (held, s) => Push(max, held, s)
  }

  /** A record is everything held when it is reported. */
  function Placing(): S.Shape<NmeaSentence> {
    S.Shape(grown => (0, |grown|), (f: NmeaSentence) => f.rawBytes, (f: NmeaSentence) => f.ts)
  }

  lemma PushSlices(max: nat)
    ensures S.Slicing(FramerFor(max), Placing())
  {
    hide SentenceOf;
    forall held: Pending, s: Stamped ensures S.SlicesAt(FramerFor(max), Placing(), held, s) {
      var grown := held + [s];
      assert Values(grown)[0..|grown|] == Values(grown);
    }
  }

  /** Over any input the records are slices of the stream, in order and without overlap. */
  lemma ReportsAreDisjointSlices(max: nat, done: seq<Stamped>, held: Pending, input: seq<Stamped>)
    requires IsSuffix(held, done)
    ensures S.DisjointSlices(done + input, Placing(), S.Locate(FramerFor(max), Placing(), held, |done|, input),
                             |done| - |held|)
  {
    PushSlices(max);
    S.RecordsAreDisjointSlices(FramerFor(max), Placing(), done, held, input);
  }

  /** A line with one leader, at its start, and one line feed, at its end. */
  predicate IsLine(line: seq<byte>) {
    && |line| >= 2 && IsLeader(line[0]) && line[|line| - 1] == LF
    && forall i :: 1 <= i < |line| - 1 ==> !IsLeader(line[i]) && line[i] != LF
  }

  lemma {:induction false} HoldsLine(max: nat, held: Pending, input: seq<Stamped>, k: nat)
    requires IsLine(Values(input)) && 1 <= k < |input| && k <= max
    ensures Run(FramerFor(max), held, input[..k]) == (input[..k], [])
  {
    if k == 1 {
      assert input[..1] == [input[0]];
      assert IsLeader(Values(input)[0]);
      RunOne(FramerFor(max), held, input[0]);
    } else {
      HoldsLine(max, held, input, k - 1);
      RunSnoc(FramerFor(max), held, input, k - 1);
      assert input[..k - 1] + [input[k - 1]] == input[..k];
      assert !IsLeader(Values(input)[k - 1]);
    }
  }

  /**
   Whatever the framer held before, a line fed byte by byte is reported exactly once, as the
   sentence it spells, if and only if it is no longer than the limit.
   */
  lemma LineComesBackIffItFits(max: nat, held: Pending, input: seq<Stamped>)
    requires IsLine(Values(input))
    ensures |input| <= max ==>
              Run(FramerFor(max), held, input) == ([], [SentenceOf(Values(input), input[0].ts)])
    ensures |input| > max ==> Run(FramerFor(max), held, input).1 == []
  {
    hide SentenceOf;
    var n := |input| - 1;
    if |input| <= max {
      HoldsLine(max, held, input, n);
      RunSnoc(FramerFor(max), held, input, n);
      assert input[..n] + [input[n]] == input == input[..n + 1];
      var f := SentenceOf(Values(input), input[0].ts);
      assert [] + [f] == [f];
    } else {
      NothingReported(max, held, input, if max >= 1 then max else 1);
    }
  }

  /** Past the limit the framer is empty and skips the rest of the line. */
  lemma {:induction false} NothingReported(max: nat, held: Pending, input: seq<Stamped>, k: nat)
    requires IsLine(Values(input)) && 1 <= k < |input| && max <= k && k <= max + 1
    requires max >= 1 ==> k == max
    ensures Run(FramerFor(max), held, input).1 == []
  {
    var push := FramerFor(max);
    assert IsLeader(Values(input)[0]) && Values(input)[|input| - 1] == LF;
    forall i | 1 <= i < |input| ensures !IsLeader(input[i].value) {
      assert Values(input)[i] == input[i].value;
    }
    hide *;
    assert input == input[..k] + input[k..];
    RunConcat(push, held, input[..k], input[k..]);
    if max >= 1 {
      HoldsLine(max, held, input, k);
      SkipsRest(max, input[..k], input[k..]);
    } else {
      assert input[..1] == [input[0]];
      LeaderStarts(max, held, input[0]);
      RunOne(push, held, input[0]);
      SkipsRest(max, [input[0]], input[1..]);
    }
  }

  lemma LeaderStarts(max: nat, held: Pending, s: Stamped)
    requires IsLeader(s.value)
    ensures FramerFor(max)(held, s) == ([s], NeedMoreData)
  {
  }

  lemma {:induction false} SkipsRest(max: nat, held: Pending, rest: seq<Stamped>)
    requires held == [] || |held| >= max
    requires forall i :: 0 <= i < |rest| ==> !IsLeader(rest[i].value)
    ensures Run(FramerFor(max), held, rest).1 == []
    decreases |rest|
  {
    if rest != [] {
      assert Push(max, held, rest[0]).0 == [] && !Push(max, held, rest[0]).1.RecordReady?;
      SkipsRest(max, [], rest[1..]);
    }
  }

  lemma SealedParts(leader: byte, payload: seq<byte>, high: byte, low: byte)
    requires leader in [0x24, 0x21] && 0x2A !in payload
    ensures var line := [leader] + payload + [0x2A, high, low];
            && Find(line, STAR) == Some(|payload| + 1) && PayloadOf(line) == payload
            && line[|payload| + 2..|payload| + 4] == [high, low] && line[1..|payload| + 1] == payload
  {
    var line, front := [leader] + payload + [0x2A, high, low], [leader] + payload;
    assert line == front + [STAR] + [high, low];
    assert STAR !in front;
    hide Find;
    FindFirst(front, STAR, [high, low]);
  }

  lemma SealedValidation(leader: byte, payload: seq<byte>, high: byte, low: byte)
    requires leader in [0x24, 0x21] && 0x2A !in payload && low !in [0x0D, 0x0A]
    ensures ValidateNmeaChecksum([leader] + payload + [0x2A, high, low]).status
         == (if HexNibble(high).Some? && HexNibble(low).Some?
                && 16 * HexNibble(high).value + HexNibble(low).value == Checksum(payload)
             then Valid else Invalid)
  {
    var line := [leader] + payload + [0x2A, high, low];
    SealedParts(leader, payload, high, low);
    assert TrimmedLength(line) == |line|;
    hide Checksum, HexNibble, Find, TrimmedLength, PayloadOf;
  }

  lemma SealedTrims(line: seq<byte>)
    requires line != [] && line[|line| - 1] !in [0x0D, 0x0A]
    ensures var raw := line + [0x0D, 0x0A]; raw[..TrimmedLength(raw)] == line
  {
    var raw := line + [0x0D, 0x0A];
    assert raw[|raw| - 2..] == [0x0D, 0x0A] && raw[|raw| - 3] == line[|line| - 1];
    TrimsOneEnding(raw);
  }

  /**
   A line with a checksum mark is valid exactly when the two characters after the mark are hexadecimal
   digits, of either case, that spell the exclusive or of everything between the leader and the mark.
   */
  lemma ValidIffSealed(leader: byte, payload: seq<byte>, high: byte, low: byte, ts: Timestamp)
    requires leader in [0x24, 0x21] && 0x2A !in payload && low !in [0x0D, 0x0A]
    ensures var s := SentenceOf([leader] + payload + [0x2A, high, low] + [0x0D, 0x0A], ts);
            && s.payloadText == payload && s.leader == leader
            && s.validation.status == (if HexNibble(high).Some? && HexNibble(low).Some?
                                          && 16 * HexNibble(high).value + HexNibble(low).value == Checksum(payload)
                                       then Valid else Invalid)
  {
    hide Checksum, HexNibble, Find, TrimmedLength, PayloadOf, HeaderOf, ValidateNmeaChecksum;
    SealedTrims([leader] + payload + [0x2A, high, low]);
    SealedParts(leader, payload, high, low);
    SealedValidation(leader, payload, high, low);
  }

  /** A line without a checksum mark is neither valid nor invalid. */
  lemma MissingWithoutMark(leader: byte, payload: seq<byte>, ts: Timestamp)
    requires leader in [0x24, 0x21] && 0x2A !in payload
    requires payload != [] ==> payload[|payload| - 1] !in [0x0D, 0x0A]
    ensures var s := SentenceOf([leader] + payload + [0x0D, 0x0A], ts);
            s.payloadText == payload && s.leader == leader && s.validation.status == Missing
  {
    var line := [leader] + payload;
    SealedTrims(line);
    assert STAR !in line;
    assert Find(line, STAR) == None;
    hide Find, TrimmedLength, HeaderOf;
    assert line[1..] == payload && line[0] == leader;
    assert PayloadOf(line) == payload;
    assert ValidateNmeaChecksum(line).status == Missing;
    hide PayloadOf, ValidateNmeaChecksum;
  }
}
