/**
 What the detector answers for one record of each protocol: the record's protocol and length, as soon as
 its last byte is read, provided nothing in it can start a record of another protocol.
 */
module DetectorAnswers {
  import opened Bits
  import opened Framing
  import opened StreamDetector
  import Nmea = NmeaFramer
  import NmeaChecksum
  import Ubx = UbxFramer
  import UbxStream
  import Rtcm = RtcmFramer
  import RtcmStream
  import UnicoreFramer
  import Binary = UnicoreBinaryFramer
  import UnicoreBinaryStream

  // ----- One framer ------------------------------------------------------------------------

  lemma {:induction false} FoundIsRecord<R>(push: Framer<R>, accept: R -> bool, held: Pending, input: seq<Stamped>)
    ensures FirstAccepted(push, accept, held, input).Some? ==>
              FirstAccepted(push, accept, held, input).value.1 in Run(push, held, input).1
    decreases |input|
  {
    if input != [] {
      FoundIsRecord(push, accept, push(held, input[0]).0, input[1..]);
    }
  }

  /** A run whose only record comes with the last byte. */
  ghost predicate EndsWith<R(!new)>(push: Framer<R>, input: seq<Stamped>, record: R) {
    input != [] && Run(push, [], input).1 == [record] && Run(push, [], input[..|input| - 1]).1 == []
  }

  lemma FoundAtTheEnd<R(!new)>(push: Framer<R>, accept: R -> bool, input: seq<Stamped>, record: R)
    requires EndsWith(push, input, record)
    ensures FirstAccepted(push, accept, [], input) == if accept(record) then Some((|input|, record)) else None
  {
    hide FirstAccepted, Run;
    var front, last := input[..|input| - 1], input[|input| - 1..];
    assert input == front + last;
    FoundIffAccepted(push, accept, [], input);
    FoundIffAccepted(push, accept, [], front);
    FirstAcceptedAppend(push, accept, [], front, last);
    FoundIsRecord(push, accept, [], input);
    assert record in Run(push, [], input).1;
  }

  predicate FreeOf(input: seq<Stamped>, starts: seq<byte>) {
    forall i :: 0 <= i < |input| ==> input[i].value !in starts
  }

  /** A framer that starts on none of these bytes finds nothing. */
  lemma {:induction false} NothingStarts<R>(push: Framer<R>, accept: R -> bool, starts: seq<byte>, input: seq<Stamped>)
    requires FreeOf(input, starts)
    requires forall s: Stamped :: s.value !in starts ==> push([], s) == ([], Skipped)
    ensures FirstAccepted(push, accept, [], input) == None
    decreases |input|
  {
    if input != [] {
      assert push([], input[0]) == ([], Skipped);
      NothingStarts(push, accept, starts, input[1..]);
    }
  }

  /** Records that start with another sync byte than the hash are not accepted. */
  lemma {:induction false} NoHashNoRecord(max: nat, parses: UnicoreParser, held: Pending, input: seq<Stamped>)
    requires FreeOf(held, [0x23]) && FreeOf(input, [0x23])
    ensures FirstAccepted(UnicoreFramer.FramerFor(max), VerifiedBy(parses), held, input) == None
    decreases |input|
  {
    hide UnicoreFramer.FrameOf;
    if input != [] {
      var (next, result) := UnicoreFramer.Push(max, held, input[0]);
      assert FreeOf(next, [0x23]);
      if result.RecordReady? {
        assert Values(held + [input[0]])[0] == (held + [input[0]])[0].value;
      }
      NoHashNoRecord(max, parses, next, input[1..]);
    }
  }

  // ----- All five --------------------------------------------------------------------------

  lemma NmeaQuiet(input: seq<Stamped>)
    requires FreeOf(input, [0x24, 0x21])
    ensures NmeaCandidate(input) == None
  {
    NothingStarts(Nmea.FramerFor(NMEA_LIMIT), AcceptsNmea, [0x24, 0x21], input);
    hide FirstAccepted;
  }

  lemma UbxQuiet(input: seq<Stamped>)
    requires FreeOf(input, [0xB5])
    ensures UbxCandidate(input) == None
  {
    NothingStarts(UbxStream.FramerFor(UBX_LIMIT), AcceptsUbx, [0xB5], input);
    hide FirstAccepted;
  }

  lemma RtcmQuiet(input: seq<Stamped>)
    requires FreeOf(input, [0xD3])
    ensures RtcmCandidate(input) == None
  {
    NothingStarts(RtcmPush, AcceptsRtcm, [0xD3], input);
    hide FirstAccepted;
  }

  lemma AsciiQuiet(parses: UnicoreParser, input: seq<Stamped>)
    requires FreeOf(input, [0x23])
    ensures UnicoreAsciiCandidate(parses, input) == None
  {
    NoHashNoRecord(UNICORE_LIMIT, parses, [], input);
    hide FirstAccepted;
  }

  lemma BinaryQuiet(input: seq<Stamped>)
    requires FreeOf(input, [0xAA])
    ensures UnicoreBinaryCandidate(input) == None
  {
    NothingStarts(Binary.FramerFor(UNICORE_BINARY_LIMIT), AcceptsUnicoreBinary, [0xAA], input);
    hide FirstAccepted;
  }

  /** Every framer that cannot start on the input finds nothing in it. */
  lemma QuietWhereFree(parses: UnicoreParser, input: seq<Stamped>)
    ensures FreeOf(input, [0x24, 0x21]) ==> Candidates(parses, input)[0] == None
    ensures FreeOf(input, [0xB5]) ==> Candidates(parses, input)[1] == None
    ensures FreeOf(input, [0xD3]) ==> Candidates(parses, input)[2] == None
    ensures FreeOf(input, [0x23]) ==> Candidates(parses, input)[3] == None
    ensures FreeOf(input, [0xAA]) ==> Candidates(parses, input)[4] == None
  {
    hide FreeOf, NmeaCandidate, UbxCandidate, RtcmCandidate, UnicoreAsciiCandidate, UnicoreBinaryCandidate;
    if FreeOf(input, [0x24, 0x21]) {
      NmeaQuiet(input);
    }
    if FreeOf(input, [0xB5]) {
      UbxQuiet(input);
    }
    if FreeOf(input, [0xD3]) {
      RtcmQuiet(input);
    }
    if FreeOf(input, [0x23]) {
      AsciiQuiet(parses, input);
    }
    if FreeOf(input, [0xAA]) {
      BinaryQuiet(input);
    }
  }

  lemma FreeOfSome(input: seq<Stamped>, starts: seq<byte>, some: seq<byte>)
    requires FreeOf(input, starts) && forall b :: b in some ==> b in starts
    ensures FreeOf(input, some)
  {
  }

  /** With nothing in the input that starts one of the other four, the answer is what the fifth finds. */
  lemma AnswerOfOne(parses: UnicoreParser, input: seq<Stamped>, k: nat)
    requires k < 5
    requires k != 0 ==> FreeOf(input, [0x24, 0x21])
    requires k != 1 ==> FreeOf(input, [0xB5])
    requires k != 2 ==> FreeOf(input, [0xD3])
    requires k != 3 ==> FreeOf(input, [0x23])
    requires k != 4 ==> FreeOf(input, [0xAA])
    ensures var found := Candidates(parses, input)[k];
            Detected(parses, input) == if found == None then NOTHING else found.value
  {
    hide FreeOf, Best, Candidates;
    QuietWhereFree(parses, input);
    OnlyCandidate(Candidates(parses, input), k);
  }

  lemma CandidateAtTheEnd<R(!new)>(
      push: Framer<R>, accept: R -> bool, size: R -> nat, protocol: Protocol, input: seq<Stamped>, record: R)
    requires EndsWith(push, input, record) && size(record) == |input|
    ensures CandidateOf(FirstAccepted(push, accept, [], input), size, protocol)
         == if accept(record) then Some(Detection(protocol, |input|, |input|)) else None
  {
    hide FirstAccepted, EndsWith;
    FoundAtTheEnd(push, accept, input, record);
  }

  lemma CandidateAt(parses: UnicoreParser, input: seq<Stamped>, k: nat)
    requires k < 5
    ensures Candidates(parses, input)[k] == match k
              case 0 => NmeaCandidate(input)
              case 1 => UbxCandidate(input)
              case 2 => RtcmCandidate(input)
              case 3 => UnicoreAsciiCandidate(parses, input)
              case _ => UnicoreBinaryCandidate(input)
  {
    hide NmeaCandidate, UbxCandidate, RtcmCandidate, UnicoreAsciiCandidate, UnicoreBinaryCandidate;
  }

  /** If the other four candidates are missing, the answer is the one left. */
  lemma OnlyCandidate(c: seq<Option<Detection>>, k: nat)
    requires |c| == 5 && k < 5 && forall j :: 0 <= j < 5 && j != k ==> c[j] == None
    ensures Best(c) == if c[k] == None then NOTHING else c[k].value
  {
    BestOfFive(c[0], c[1], c[2], c[3], c[4]);
    assert c == [c[0], c[1], c[2], c[3], c[4]];
    hide Best;
  }

  /** A built UBX frame of up to 4096 bytes is detected as such, at its last byte. */
  lemma UbxAnswer(parses: UnicoreParser, m: Ubx.Message, input: seq<Stamped>)
    requires |m.payload| < 0x1_0000 && |m.payload| + 8 <= 4096
    requires Values(input) == Ubx.BuildUbxFrame(m) && FreeOf(input, [0x24, 0x21, 0xD3, 0x23, 0xAA])
    ensures Detected(parses, input) == Detection(Ubx, |input|, |input|)
  {
    UbxAtTheEnd(m, input);
    hide FreeOf, Candidates, Detected, Ubx.BuildUbxFrame, UbxCandidate;
    FreeOfSome(input, [0x24, 0x21, 0xD3, 0x23, 0xAA], [0x24, 0x21]);
    FreeOfSome(input, [0x24, 0x21, 0xD3, 0x23, 0xAA], [0xD3]);
    FreeOfSome(input, [0x24, 0x21, 0xD3, 0x23, 0xAA], [0x23]);
    FreeOfSome(input, [0x24, 0x21, 0xD3, 0x23, 0xAA], [0xAA]);
    AnswerOfOne(parses, input, 1);
    CandidateAt(parses, input, 1);
  }

  lemma UbxAtTheEnd(m: Ubx.Message, input: seq<Stamped>)
    requires UbxStream.Carries(UBX_LIMIT, m) && Values(input) == Ubx.BuildUbxFrame(m)
    ensures UbxCandidate(input) == Some(Detection(Ubx, |input|, |input|))
  {
    var f, n := Ubx.FrameOf(Ubx.BuildUbxFrame(m), input[0].ts), |input| - 1;
    UbxStream.OneBuiltFrame(UBX_LIMIT, m, input);
    UbxStream.HoldsPrefix(UBX_LIMIT, m, input, n);
    UbxStream.BuiltFrameReports(m, input[0].ts);
    hide FirstAccepted, Run, Ubx.BuildUbxFrame, Ubx.FrameOf;
    FoundAtTheEnd(UbxStream.FramerFor(UBX_LIMIT), AcceptsUbx, input, f);
  }

  /** Any RTCM frame the standard allows is detected as such, at its last byte. */
  lemma RtcmAnswer(parses: UnicoreParser, payload: seq<byte>, input: seq<Stamped>)
    requires |payload| < 1024 && Values(input) == RtcmStream.BuildRtcmFrame(payload)
    requires FreeOf(input, [0x24, 0x21, 0xB5, 0x23, 0xAA])
    ensures Detected(parses, input) == Detection(Rtcm3, |input|, |input|)
  {
    RtcmAtTheEnd(payload, input);
    hide FreeOf, Candidates, Detected, RtcmStream.BuildRtcmFrame, RtcmCandidate;
    FreeOfSome(input, [0x24, 0x21, 0xB5, 0x23, 0xAA], [0x24, 0x21]);
    FreeOfSome(input, [0x24, 0x21, 0xB5, 0x23, 0xAA], [0xB5]);
    FreeOfSome(input, [0x24, 0x21, 0xB5, 0x23, 0xAA], [0x23]);
    FreeOfSome(input, [0x24, 0x21, 0xB5, 0x23, 0xAA], [0xAA]);
    AnswerOfOne(parses, input, 2);
    CandidateAt(parses, input, 2);
  }

  lemma RtcmAtTheEnd(payload: seq<byte>, input: seq<Stamped>)
    requires RtcmStream.Carries(RTCM_LIMIT, payload) && Values(input) == RtcmStream.BuildRtcmFrame(payload)
    ensures RtcmCandidate(input) == Some(Detection(Rtcm3, |input|, |input|))
  {
    var f, n := Rtcm.FrameOf(RtcmStream.BuildRtcmFrame(payload), input[0].ts), |input| - 1;
    RtcmStream.OneBuiltFrame(RTCM_LIMIT, payload, input);
    RtcmStream.HoldsPrefix(RTCM_LIMIT, payload, input, n);
    RtcmStream.BuiltFrameReports(payload, input[0].ts);
    hide FirstAccepted, RtcmStream.BuildRtcmFrame, Rtcm.FrameOf, Rtcm.Push;
    SamePushes(input);
    SamePushes(input[..n]);
    hide Run;
    FoundAtTheEnd(RtcmPush, AcceptsRtcm, input, f);
  }

  /** The detector's framer is the RTCM framer with its limit. */
  lemma {:induction false} SamePushesFrom(held: Pending, input: seq<Stamped>)
    ensures Run(RtcmPush, held, input) == Run(Rtcm.FramerFor(RTCM_LIMIT), held, input)
    decreases |input|
  {
    hide Rtcm.Push;
    if input != [] {
      SamePushesFrom(RtcmPush(held, input[0]).0, input[1..]);
    }
  }

  lemma SamePushes(input: seq<Stamped>)
    ensures Run(RtcmPush, [], input) == Run(Rtcm.FramerFor(RTCM_LIMIT), [], input)
  {
    SamePushesFrom([], input);
  }

  /** A built Unicore binary frame of up to 65536 bytes is detected as such, at its last byte. */
  lemma BinaryAnswer(parses: UnicoreParser, m: UnicoreBinaryStream.Message, input: seq<Stamped>)
    requires |m.payload| + 28 <= 65536
    requires Values(input) == UnicoreBinaryStream.Build(m) && FreeOf(input, [0x24, 0x21, 0xB5, 0xD3, 0x23])
    ensures Detected(parses, input) == Detection(UnicoreBinary, |input|, |input|)
  {
    BinaryAtTheEnd(m, input);
    hide FreeOf, Candidates, Detected, UnicoreBinaryStream.Build, UnicoreBinaryCandidate;
    FreeOfSome(input, [0x24, 0x21, 0xB5, 0xD3, 0x23], [0x24, 0x21]);
    FreeOfSome(input, [0x24, 0x21, 0xB5, 0xD3, 0x23], [0xB5]);
    FreeOfSome(input, [0x24, 0x21, 0xB5, 0xD3, 0x23], [0xD3]);
    FreeOfSome(input, [0x24, 0x21, 0xB5, 0xD3, 0x23], [0x23]);
    AnswerOfOne(parses, input, 4);
    CandidateAt(parses, input, 4);
  }

  lemma BinaryIsAccepted(m: UnicoreBinaryStream.Message, ts: Timestamp)
    requires UnicoreBinaryStream.Carries(UNICORE_BINARY_LIMIT, m)
    ensures var f := Binary.FrameOf(UnicoreBinaryStream.Build(m), ts);
            AcceptsUnicoreBinary(f) && UnicoreBinarySize(f) == |UnicoreBinaryStream.Build(m)|
  {
    UnicoreBinaryStream.BuiltCrcMatches(m);
    hide Binary.CrcMatches, UnicoreBinaryStream.Build;
  }

  lemma BinaryAtTheEnd(m: UnicoreBinaryStream.Message, input: seq<Stamped>)
    requires UnicoreBinaryStream.Carries(UNICORE_BINARY_LIMIT, m) && Values(input) == UnicoreBinaryStream.Build(m)
    ensures UnicoreBinaryCandidate(input) == Some(Detection(UnicoreBinary, |input|, |input|))
  {
    hide FirstAccepted, CandidateOf, Run, UnicoreBinaryStream.Build, Binary.FrameOf, AcceptsUnicoreBinary,
      UnicoreBinarySize, UnicoreBinaryStream.Carries, Binary.FramerFor;
    var f, n := Binary.FrameOf(UnicoreBinaryStream.Build(m), input[0].ts), |input| - 1;
    UnicoreBinaryStream.OneBuiltFrame(UNICORE_BINARY_LIMIT, m, input);
    UnicoreBinaryStream.HoldsPrefix(UNICORE_BINARY_LIMIT, m, input, n);
    BinaryIsAccepted(m, input[0].ts);
    CandidateAtTheEnd(Binary.FramerFor(UNICORE_BINARY_LIMIT), AcceptsUnicoreBinary, UnicoreBinarySize, UnicoreBinary,
                      input, f);
  }

  // ----- NMEA ------------------------------------------------------------------------------

  /** The detector's test of a sentence, on the sentence's text. */
  lemma NmeaAcceptedIff(raw: seq<byte>, ts: Timestamp)
    requires raw != []
    ensures var s := Nmea.SentenceOf(raw, ts);
            AcceptsNmea(s) <==> s.payloadText != [] && s.payloadText[0] != 0x2C && s.validation.status in {Valid, Missing}
  {
    var s := Nmea.SentenceOf(raw, ts);
    TypeIsThere(s.payloadText);
    StatusOf(raw[..NmeaChecksum.TrimmedLength(raw)]);
    hide NmeaChecksum.ValidateNmeaChecksum, Nmea.HeaderOf, Nmea.PayloadOf, NmeaChecksum.TrimmedLength;
  }

  lemma StatusOf(line: seq<byte>)
    ensures NmeaChecksum.ValidateNmeaChecksum(line).status in {Valid, Missing, Invalid}
  {
    hide NmeaChecksum.Checksum, NmeaChecksum.Find, NmeaChecksum.TryParseHexByte, NmeaChecksum.TrimmedLength;
  }

  lemma TypeIsThere(payload: seq<byte>)
    ensures Nmea.HeaderOf(payload).1 != [] <==> payload != [] && payload[0] != 0x2C
  {
  }

  /**
   A line of up to 512 bytes is detected as NMEA, at its last byte, exactly when its text does not start
   with a comma and its checksum matches or is missing; a longer one is not detected.
   */
  lemma NmeaAnswer(parses: UnicoreParser, input: seq<Stamped>)
    requires Nmea.IsLine(Values(input)) && FreeOf(input, [0xB5, 0xD3, 0x23, 0xAA])
    ensures var s := Nmea.SentenceOf(Values(input), input[0].ts);
            Detected(parses, input)
              == if |input| <= 512 && s.payloadText != [] && s.payloadText[0] != 0x2C && s.validation.status in {Valid, Missing}
                 then Detection(Protocol.Nmea, |input|, |input|) else NOTHING
  {
    assert |Values(input)| >= 2;
    hide FreeOf, Candidates, Detected, Nmea.SentenceOf, Nmea.IsLine, NmeaCandidate, AcceptsNmea;
    FreeOfSome(input, [0xB5, 0xD3, 0x23, 0xAA], [0xB5]);
    FreeOfSome(input, [0xB5, 0xD3, 0x23, 0xAA], [0xD3]);
    FreeOfSome(input, [0xB5, 0xD3, 0x23, 0xAA], [0x23]);
    FreeOfSome(input, [0xB5, 0xD3, 0x23, 0xAA], [0xAA]);
    NmeaCandidateOfLine(input);
    NmeaAcceptedIff(Values(input), input[0].ts);
    AnswerOfOne(parses, input, 0);
    CandidateAt(parses, input, 0);
  }

  lemma NmeaCandidateOfLine(input: seq<Stamped>)
    requires Nmea.IsLine(Values(input))
    ensures NmeaCandidate(input)
         == if |input| <= 512 && AcceptsNmea(Nmea.SentenceOf(Values(input), input[0].ts))
            then Some(Detection(Protocol.Nmea, |input|, |input|)) else None
  {
    hide FirstAccepted, Run, Nmea.SentenceOf, AcceptsNmea;
    var s, n := Nmea.SentenceOf(Values(input), input[0].ts), |input| - 1;
    Nmea.LineComesBackIffItFits(NMEA_LIMIT, [], input);
    if |input| <= 512 {
      Nmea.HoldsLine(NMEA_LIMIT, [], input, n);
      FoundAtTheEnd(Nmea.FramerFor(NMEA_LIMIT), AcceptsNmea, input, s);
    } else {
      FoundIffAccepted(Nmea.FramerFor(NMEA_LIMIT), AcceptsNmea, [], input);
    }
  }

  // ----- Unicore ASCII -----------------------------------------------------------------------

  /**
   A line of up to 2048 bytes that starts with a hash is detected as Unicore ASCII, at its last byte, exactly
   when its checksum is valid, its name is one that is verified and its parser accepts it.
   */
  lemma AsciiAnswer(parses: UnicoreParser, input: seq<Stamped>)
    requires UnicoreFramer.IsLine(Values(input)) && input[0].value == 0x23 && |input| <= 2048
    requires FreeOf(input, [0x24, 0x21, 0xB5, 0xD3, 0xAA])
    ensures var f := UnicoreFramer.FrameOf(Values(input), input[0].ts);
            Detected(parses, input)
              == if f.check.status == Valid && parses(f)
                    && exists i :: 0 <= i < |VERIFIED_NAMES| && f.messageName == Ascii(VERIFIED_NAMES[i])
                 then Detection(UnicoreAscii, |input|, |input|) else NOTHING
  {
    AsciiCandidateOfLine(parses, input);
    VerifiedIff(parses, UnicoreFramer.FrameOf(Values(input), input[0].ts));
    assert UnicoreFramer.FrameOf(Values(input), input[0].ts).syncChar == 0x23;
    hide FreeOf, Candidates, Detected, UnicoreFramer.FrameOf, UnicoreFramer.IsLine, UnicoreAsciiCandidate,
      IsVerifiedUnicoreAsciiRecord;
    FreeOfSome(input, [0x24, 0x21, 0xB5, 0xD3, 0xAA], [0x24, 0x21]);
    FreeOfSome(input, [0x24, 0x21, 0xB5, 0xD3, 0xAA], [0xB5]);
    FreeOfSome(input, [0x24, 0x21, 0xB5, 0xD3, 0xAA], [0xD3]);
    FreeOfSome(input, [0x24, 0x21, 0xB5, 0xD3, 0xAA], [0xAA]);
    AnswerOfOne(parses, input, 3);
    CandidateAt(parses, input, 3);
  }

  lemma VerifiedIff(parses: UnicoreParser, f: UnicoreFramer.UnicoreFrame)
    ensures IsVerifiedUnicoreAsciiRecord(parses, f) <==>
              f.syncChar == 0x23 && f.check.status == Valid && parses(f)
              && exists i :: 0 <= i < |VERIFIED_NAMES| && f.messageName == Ascii(VERIFIED_NAMES[i])
  {
    hide VERIFIED_NAMES;
  }

  lemma AsciiCandidateOfLine(parses: UnicoreParser, input: seq<Stamped>)
    requires UnicoreFramer.IsLine(Values(input)) && |input| <= UNICORE_LIMIT
    ensures UnicoreAsciiCandidate(parses, input)
         == if IsVerifiedUnicoreAsciiRecord(parses, UnicoreFramer.FrameOf(Values(input), input[0].ts))
            then Some(Detection(UnicoreAscii, |input|, |input|)) else None
  {
    hide FirstAccepted, Run, UnicoreFramer.FrameOf, IsVerifiedUnicoreAsciiRecord;
    UnicoreFramer.LineComesBack(UNICORE_LIMIT, input);
    UnicoreFramer.HoldsLine(UNICORE_LIMIT, input, |input| - 1);
    CandidateAtTheEnd(UnicoreFramer.FramerFor(UNICORE_LIMIT), VerifiedBy(parses), UnicoreSize, UnicoreAscii, input,
                      UnicoreFramer.FrameOf(Values(input), input[0].ts));
  }
}
