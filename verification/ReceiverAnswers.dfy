/**
 What a receiver session with automatic detection makes of one record of each protocol, with nothing in it
 that can start a record of another: which session is selected, and what that session is fed.
 */
module ReceiverAnswers {
  import opened Bits
  import opened Framing
  import opened StreamDetector
  import opened DetectorAnswers
  import opened ReceiverSession
  import U = UbloxSession
  import N = NmeaSession
  import Nmea = NmeaFramer
  import Ubx = UbxFramer
  import UbxStream
  import RtcmStream
  import UnicoreFramer
  import UnicoreBinaryFramer
  import UnicoreBinaryStream

  /** The bytes as the detector looks at them. */
  function Unstamped(input: seq<Stamped>): (bare: seq<Stamped>)
    ensures |bare| == |input| && Values(bare) == Values(input)
    ensures forall i :: 0 <= i < |input| ==> bare[i] == Stamped(input[i].value, None)
  {
    StampAll(Values(input), None)
  }

  lemma UnstampedFree(input: seq<Stamped>, starts: seq<byte>)
    requires FreeOf(input, starts)
    ensures FreeOf(Unstamped(input), starts)
  {
  }

  // ----- Vendors that are not seen -----------------------------------------------------------

  lemma NoUbxSeen(config: Config, input: seq<Stamped>)
    requires FreeOf(input, [0xB5])
    ensures !UbxSeen(config, input)
  {
    NothingStarts(UbxStream.FramerFor(config.ublox.maxUbx), AcceptsUbx, [0xB5], input);
    hide FirstAccepted;
  }

  /** The text records that would be taken for Unicore start with a hash (23) or a percent sign (25). */
  lemma {:induction false} NoUnicoreText(max: nat, held: Pending, input: seq<Stamped>)
    requires FreeOf(held, [0x23, 0x25]) && FreeOf(input, [0x23, 0x25])
    requires held != [] ==> held[0].value == 0x24
    ensures FirstAccepted(UnicoreFramer.FramerFor(max), SupportedUnicore, held, input) == None
    decreases |input|
  {
    hide UnicoreFramer.FrameOf;
    if input != [] {
      var (next, result) := UnicoreFramer.Push(max, held, input[0]);
      if result.RecordReady? {
        assert Values(held + [input[0]])[0] == (held + [input[0]])[0].value;
      }
      NoUnicoreText(max, next, input[1..]);
    }
  }

  lemma NoUnicoreSeen(config: Config, input: seq<Stamped>)
    requires FreeOf(input, [0x23, 0x25, 0xAA])
    ensures !UnicoreSeen(config, input)
  {
    FreeOfSome(input, [0x23, 0x25, 0xAA], [0x23, 0x25]);
    FreeOfSome(input, [0x23, 0x25, 0xAA], [0xAA]);
    NoUnicoreText(config.unicoreMax, [], input);
    NothingStarts(UnicoreBinaryFramer.FramerFor(config.unicoreBinaryMax), AcceptsUnicoreBinary, [0xAA], input);
    hide FirstAccepted;
  }

  // ----- The first read ----------------------------------------------------------------------

  /** The first read of a session that detects: it selects what is chosen on that read, or keeps its end. */
  lemma FirstRead<A, B, C>(e: Setup<A, B, C>, input: seq<Stamped>)
    requires e.config.kind == None && input != []
    ensures var t, choice := Feed(e, Fresh(e), input), Choose(e.config, e.parses, input);
            && t.selected == choice && t.bytesSeen == |input| && t.switches == 0
            && (choice == None ==> t.pending == Last(input, e.config.maxPending) && FreshChildren(e, t, None))
            && (choice == Some(Ublox) ==>
                  t.ublox == U.Feed(e.config.ublox, e.ubloxRoute, U.Fresh(e.ublox0), input)
                  && t.pending == [] && FreshChildren(e, t, Some(Ublox)))
            && (choice == Some(Kind.Nmea) ==>
                  t.nmea == N.Feed(e.config.nmeaMax, e.nmeaRoute, N.Fresh(e.nmea0), input)
                  && t.pending == [] && FreshChildren(e, t, Some(Kind.Nmea)))
            && (choice == Some(Unicore) ==>
                  t.unicore == UnicoreAfter(e.unicoreFeed, e.unicore0, Singles(input))
                  && t.pending == [] && FreshChildren(e, t, Some(Unicore)))
  {
    hide Choose, U.Feed, N.Feed, Replay, Select;
    assert [] + input == input;
    var grown := Fresh(e).(bytesSeen := |input|, pending := input);
    assert Feed(e, Fresh(e), input) ==
        match Choose(e.config, e.parses, input)
        case Some(kind) => Select(e, grown, kind)
        case None => grown.(pending := Last(input, e.config.maxPending));
    var choice := Choose(e.config, e.parses, input);
    if choice.Some? {
      SelectOnAll(e, grown, choice.value);
    }
  }

  /** Selecting with everything read so far still buffered feeds all of it to the selected child. */
  lemma SelectOnAll<A, B, C>(e: Setup<A, B, C>, s: State<A, B, C>, kind: Kind)
    requires s.selected == None && FreshChildren(e, s, None)
    ensures var t := Select(e, s, kind);
            && t.selected == Some(kind) && t.bytesSeen == s.bytesSeen && t.switches == s.switches && t.pending == []
            && FreshChildren(e, t, Some(kind))
            && (kind == Ublox ==> t.ublox == U.Feed(e.config.ublox, e.ubloxRoute, U.Fresh(e.ublox0), s.pending))
            && (kind == Kind.Nmea ==> t.nmea == N.Feed(e.config.nmeaMax, e.nmeaRoute, N.Fresh(e.nmea0), s.pending))
            && (kind == Unicore ==> t.unicore == UnicoreAfter(e.unicoreFeed, e.unicore0, Singles(s.pending)))
  {
    hide U.Feed, N.Feed, Replay;
    ReplayIsFeed(e, s.(selected := Some(kind)), s.pending);
  }

  /** A UBX frame selects the u-blox session, which is fed exactly that frame. */
  lemma UbxSelects<A, B, C>(e: Setup<A, B, C>, m: Ubx.Message, input: seq<Stamped>)
    requires e.config.kind == None
    requires |m.payload| < 0x1_0000 && |m.payload| + 8 <= 4096
    requires Values(input) == Ubx.BuildUbxFrame(m) && FreeOf(input, [0x24, 0x21, 0xD3, 0x23, 0xAA])
    ensures var t := Feed(e, Fresh(e), input);
            && t.selected == Some(Ublox) && t.pending == [] && FreshChildren(e, t, Some(Ublox))
            && t.ublox == U.Feed(e.config.ublox, e.ubloxRoute, U.Fresh(e.ublox0), input)
  {
    UbxStream.BuiltFrameFacts(m);
    hide *;
    UnstampedFree(input, [0x24, 0x21, 0xD3, 0x23, 0xAA]);
    UbxAnswer(e.parses, m, Unstamped(input));
    assert |Values(input)| > 0;
    ChosenByDetector(e.config, e.parses, input);
    FirstRead(e, input);
  }

  /** Where the detector names a vendor, that decides. */
  lemma ChosenByDetector(config: Config, parses: UnicoreParser, pending: seq<Stamped>)
    requires pending != []
    ensures var p := Detected(parses, Unstamped(pending)).protocol;
            && (p == Protocol.Ubx ==> Choose(config, parses, pending) == Some(Ublox))
            && (p in {UnicoreAscii, UnicoreBinary} ==> Choose(config, parses, pending) == Some(Unicore))
  {
    hide Detected, UbxSeen, UnicoreSeen;
  }

  /** Where it names none and no vendor is seen, only NMEA is left, and only if it is allowed. */
  lemma ChosenWithoutVendor(config: Config, parses: UnicoreParser, pending: seq<Stamped>)
    requires pending != [] && !UbxSeen(config, pending) && !UnicoreSeen(config, pending)
    requires Detected(parses, Unstamped(pending)).protocol in {Unknown, Protocol.Nmea, Rtcm3}
    ensures Choose(config, parses, pending)
         == if config.allowGenericNmea && Detected(parses, Unstamped(pending)).protocol == Protocol.Nmea
            then Some(Kind.Nmea) else None
  {
    hide Detected, UbxSeen, UnicoreSeen;
  }

  /** A Unicore binary frame selects the Unicore session, which is fed its bytes one by one. */
  lemma UnicoreSelects<A, B, C>(e: Setup<A, B, C>, m: UnicoreBinaryStream.Message, input: seq<Stamped>)
    requires e.config.kind == None && |m.payload| + 28 <= 65536
    requires Values(input) == UnicoreBinaryStream.Build(m) && FreeOf(input, [0x24, 0x21, 0xB5, 0xD3, 0x23])
    ensures var t := Feed(e, Fresh(e), input);
            && t.selected == Some(Unicore) && t.pending == [] && FreshChildren(e, t, Some(Unicore))
            && t.unicore == UnicoreAfter(e.unicoreFeed, e.unicore0, Singles(input))
  {
    hide *;
    UnstampedFree(input, [0x24, 0x21, 0xB5, 0xD3, 0x23]);
    BinaryAnswer(e.parses, m, Unstamped(input));
    assert |Values(input)| > 0;
    ChosenByDetector(e.config, e.parses, input);
    FirstRead(e, input);
  }

  /** An RTCM frame says nothing about the vendor: no session is selected, and the end of it stays buffered. */
  lemma RtcmSelectsNothing<A, B, C>(e: Setup<A, B, C>, payload: seq<byte>, input: seq<Stamped>)
    requires e.config.kind == None && |payload| < 1024
    requires Values(input) == RtcmStream.BuildRtcmFrame(payload)
    requires FreeOf(input, [0x24, 0x21, 0xB5, 0x23, 0x25, 0xAA])
    ensures var t := Feed(e, Fresh(e), input);
            t.selected == None && t.pending == Last(input, e.config.maxPending) && FreshChildren(e, t, None)
  {
    FreeOfSome(input, [0x24, 0x21, 0xB5, 0x23, 0x25, 0xAA], [0x24, 0x21, 0xB5, 0x23, 0xAA]);
    FreeOfSome(input, [0x24, 0x21, 0xB5, 0x23, 0x25, 0xAA], [0x23, 0x25, 0xAA]);
    FreeOfSome(input, [0x24, 0x21, 0xB5, 0x23, 0x25, 0xAA], [0xB5]);
    hide *;
    UnstampedFree(input, [0x24, 0x21, 0xB5, 0x23, 0xAA]);
    RtcmAnswer(e.parses, payload, Unstamped(input));
    NoUbxSeen(e.config, input);
    NoUnicoreSeen(e.config, input);
    assert |Values(input)| > 0;
    ChosenWithoutVendor(e.config, e.parses, input);
    FirstRead(e, input);
  }

  /** An NMEA line whose checksum is not wrong selects the NMEA session if and only if that is allowed. */
  lemma NmeaSelectsIfAllowed<A, B, C>(e: Setup<A, B, C>, input: seq<Stamped>)
    requires e.config.kind == None
    requires Nmea.IsLine(Values(input)) && |input| <= 512 && FreeOf(input, [0xB5, 0xD3, 0x23, 0x25, 0xAA])
    requires var s := Nmea.SentenceOf(Values(input), None);
             s.payloadText != [] && s.payloadText[0] != 0x2C && s.validation.status in {Valid, Missing}
    ensures var t := Feed(e, Fresh(e), input);
            && t.selected == (if e.config.allowGenericNmea then Some(Kind.Nmea) else None)
            && (e.config.allowGenericNmea ==> t.nmea == N.Feed(e.config.nmeaMax, e.nmeaRoute, N.Fresh(e.nmea0), input))
            && (!e.config.allowGenericNmea ==> t.pending == Last(input, e.config.maxPending))
  {
    FreeOfSome(input, [0xB5, 0xD3, 0x23, 0x25, 0xAA], [0xB5, 0xD3, 0x23, 0xAA]);
    FreeOfSome(input, [0xB5, 0xD3, 0x23, 0x25, 0xAA], [0x23, 0x25, 0xAA]);
    FreeOfSome(input, [0xB5, 0xD3, 0x23, 0x25, 0xAA], [0xB5]);
    assert |Values(input)| >= 2;
    hide *;
    UnstampedFree(input, [0xB5, 0xD3, 0x23, 0xAA]);
    NmeaAnswer(e.parses, Unstamped(input));
    NoUbxSeen(e.config, input);
    NoUnicoreSeen(e.config, input);
    ChosenWithoutVendor(e.config, e.parses, input);
    FirstRead(e, input);
  }
}
