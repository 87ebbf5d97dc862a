/** Protocol detection, `gnss_driver/src/stream_detector.cpp` and `unicore_ascii_validation.hpp`. */
module StreamDetector {
  import opened Bits
  import opened Framing
  import Nmea = NmeaFramer
  import Ubx = UbxFramer
  import UbxStream
  import Rtcm = RtcmFramer
  import UnicoreFramer
  import UnicoreBinaryFramer

  datatype Protocol = Unknown | Nmea | Ubx | Rtcm3 | UnicoreAscii | UnicoreBinary

  /** What one framer found, and what the detector answers. */
  datatype Detection = Detection(protocol: Protocol, bytesConsumed: nat, frameLength: nat)

  // ----- One framer ------------------------------------------------------------------------

  /** The first record to accept, with the number of bytes pushed when it was completed. */
  function FirstAccepted<R>(push: Framer<R>, accept: R -> bool, held: Pending, input: seq<Stamped>): (found: Option<(nat, R)>)
    ensures found.Some? ==> 1 <= found.value.0 <= |input| && accept(found.value.1)
    decreases |input|
  {
    if input == [] then None
    else
      var (next, result) := push(held, input[0]);
      if result.RecordReady? && accept(result.record) then Some((1, result.record))
      else match FirstAccepted(push, accept, next, input[1..])
        case Some(rest) => Some((rest.0 + 1, rest.1))
        case None => None
  }

  /** A framer finds something exactly when one of the records of its run is accepted. */
  lemma {:induction false} FoundIffAccepted<R>(push: Framer<R>, accept: R -> bool, held: Pending, input: seq<Stamped>)
    ensures FirstAccepted(push, accept, held, input).Some?
       <==> exists r :: r in Run(push, held, input).1 && accept(r)
    decreases |input|
  {
    if input != [] {
      var (next, result) := push(held, input[0]);
      FoundIffAccepted(push, accept, next, input[1..]);
      var rest := Run(push, next, input[1..]).1;
      var all := Run(push, held, input).1;
      assert all == (if result.RecordReady? then [result.record] else []) + rest;
      assert forall r :: r in all <==> r in rest || (result.RecordReady? && r == result.record);
    }
  }

  /** What is found stays found, and what comes later is found later. */
  lemma {:induction false} FirstAcceptedAppend<R>(push: Framer<R>, accept: R -> bool, held: Pending,
                                                  a: seq<Stamped>, b: seq<Stamped>)
    ensures FirstAccepted(push, accept, held, a).Some? ==>
              FirstAccepted(push, accept, held, a + b) == FirstAccepted(push, accept, held, a)
    ensures FirstAccepted(push, accept, held, a) == None ==>
              match FirstAccepted(push, accept, held, a + b)
              case Some(found) => found.0 > |a|
              case None => true
    decreases |a|
  {
    if a == [] {
      assert a + b == b;
    } else {
      assert (a + b)[0] == a[0] && (a + b)[1..] == a[1..] + b;
      FirstAcceptedAppend(push, accept, push(held, a[0]).0, a[1..], b);
    }
  }

  function CandidateOf<R>(found: Option<(nat, R)>, size: R -> nat, protocol: Protocol): Option<Detection> {
    match found
    case Some(f) => Some(Detection(protocol, f.0, size(f.1)))
    case None => None
  }

  method DetectWithFramer<R>(push: Framer<R>, accept: R -> bool, size: R -> nat, data: seq<byte>, protocol: Protocol)
    returns (candidate: Option<Detection>)
    ensures candidate == CandidateOf(FirstAccepted(push, accept, [], StampAll(data, None)), size, protocol)
  {
    var held: Pending := [];
    ghost var input := StampAll(data, None);
    for index := 0 to |data|
      invariant var rest := FirstAccepted(push, accept, held, input[index..]);
                FirstAccepted(push, accept, [], input)
                == match rest
                   case Some(found) => Some((found.0 + index, found.1))
                   case None => None
    {
      var (next, result) := push(held, Stamped(data[index], None));
      assert input[index..][0] == Stamped(data[index], None) && input[index..][1..] == input[index + 1..];
      held := next;
      if result.RecordReady? && accept(result.record) {
        return Some(Detection(protocol, index + 1, size(result.record)));
      }
    }
    return None;
  }

  // ----- The five framers ------------------------------------------------------------------

  predicate AcceptsNmea(s: Nmea.NmeaSentence) {
    s.sentenceType != [] && s.validation.status != Invalid
  }

  predicate AcceptsUbx(f: Ubx.UbxFrame) {
    f.status == Valid
  }

  predicate AcceptsRtcm(f: Rtcm.RtcmFrame) {
    f.status == Valid
  }

  predicate AcceptsUnicoreBinary(f: UnicoreBinaryFramer.UnicoreBinaryFrame) {
    f.status == Valid
  }

  function Ascii(s: string): (bytes: seq<byte>)
    ensures |bytes| == |s|
  {
    seq(|s|, i requires 0 <= i < |s| => s[i] as int % 0x100)
  }

  /** The record names whose text the detector parses before it accepts a record. */
  const VERIFIED_NAMES: seq<string> := [
    "PVTSLNA", "BESTNAVA", "RTKSTATUSA", "RTCMSTATUSA", "BESTSATA", "SATSINFOA", "JAMSTATUSA",
    "FREQJAMSTATUSA", "HWSTATUSA", "AGCA"]

  /** A record parser of the Unicore ASCII family, as far as the detector looks: accepted or not. */
  type UnicoreParser = UnicoreFramer.UnicoreFrame -> bool

  predicate IsVerifiedUnicoreAsciiRecord(parses: UnicoreParser, f: UnicoreFramer.UnicoreFrame) {
    && f.syncChar == UnicoreFramer.HASH && f.check.status == Valid
    && (exists i :: 0 <= i < |VERIFIED_NAMES| && f.messageName == Ascii(VERIFIED_NAMES[i]))
    && parses(f)
  }

  const NMEA_LIMIT := 512
  const UBX_LIMIT := 4096
  const RTCM_LIMIT := 1029
  const UNICORE_LIMIT := 2048
  const UNICORE_BINARY_LIMIT := 65536

  function NmeaCandidate(input: seq<Stamped>): Option<Detection> {
    CandidateOf(FirstAccepted(Nmea.FramerFor(NMEA_LIMIT), AcceptsNmea, [], input), NmeaSize, Protocol.Nmea)
  }

  function UbxCandidate(input: seq<Stamped>): Option<Detection> {
    CandidateOf(FirstAccepted(UbxStream.FramerFor(UBX_LIMIT), AcceptsUbx, [], input), UbxSize, Protocol.Ubx)
  }

  function RtcmCandidate(input: seq<Stamped>): Option<Detection> {
    CandidateOf(FirstAccepted(RtcmPush, AcceptsRtcm, [], input), RtcmSize, Rtcm3)
  }

  function UnicoreAsciiCandidate(parses: UnicoreParser, input: seq<Stamped>): Option<Detection> {
    CandidateOf(FirstAccepted(UnicoreFramer.FramerFor(UNICORE_LIMIT), VerifiedBy(parses), [], input),
                UnicoreSize, UnicoreAscii)
  }

  function UnicoreBinaryCandidate(input: seq<Stamped>): Option<Detection> {
    CandidateOf(FirstAccepted(UnicoreBinaryFramer.FramerFor(UNICORE_BINARY_LIMIT), AcceptsUnicoreBinary, [], input),
                UnicoreBinarySize, UnicoreBinary)
  }

  function RtcmPush(held: Pending, s: Stamped): (Pending, ParserResult<Rtcm.RtcmFrame>) {
    Rtcm.Push(RTCM_LIMIT, held, s)
  }

  function VerifiedBy(parses: UnicoreParser): UnicoreFramer.UnicoreFrame -> bool {
    f => IsVerifiedUnicoreAsciiRecord(parses, f)
  }

  function NmeaSize(s: Nmea.NmeaSentence): nat { |s.rawBytes| }

  function UbxSize(f: Ubx.UbxFrame): nat { |f.rawBytes| }

  function RtcmSize(f: Rtcm.RtcmFrame): nat { |f.rawBytes| }

  function UnicoreSize(f: UnicoreFramer.UnicoreFrame): nat { |f.rawBytes| }

  function UnicoreBinarySize(f: UnicoreBinaryFramer.UnicoreBinaryFrame): nat { |f.rawBytes| }

  /** What the five framers find, in the order in which the detector asks them. */
  function Candidates(parses: UnicoreParser, input: seq<Stamped>): (c: seq<Option<Detection>>)
    ensures |c| == 5
  {
    [NmeaCandidate(input), UbxCandidate(input), RtcmCandidate(input),
     UnicoreAsciiCandidate(parses, input), UnicoreBinaryCandidate(input)]
  }

  const NOTHING := Detection(Unknown, 0, 0)

  function SelectEarlier(candidate: Option<Detection>, best: Detection): Detection {
    match candidate
    case None => best
    case Some(c) => if best.protocol == Unknown || c.bytesConsumed < best.bytesConsumed then c else best
  }

  function Best(candidates: seq<Option<Detection>>): Detection {
    if candidates == [] then NOTHING
    else SelectEarlier(candidates[|candidates| - 1], Best(candidates[..|candidates| - 1]))
  }

  function Detected(parses: UnicoreParser, input: seq<Stamped>): Detection {
    Best(Candidates(parses, input))
  }

  method MaybeSelectEarlierCandidate(candidate: Option<Detection>, best: Detection) returns (result: Detection)
    ensures result == SelectEarlier(candidate, best)
  {
    result := best;
    if candidate == None {
      return;
    }
    if best.protocol == Unknown || candidate.value.bytesConsumed < best.bytesConsumed {
      result := candidate.value;
    }
  }

  method Detect(parses: UnicoreParser, data: seq<byte>) returns (best: Detection)
    ensures best == Detected(parses, StampAll(data, None))
  {
    hide FirstAccepted;
    ghost var input := StampAll(data, None);
    best := NOTHING;
    if data == [] {
      NothingInNothing(parses);
      assert input == [];
      return;
    }
    var nmea := DetectWithFramer(Nmea.FramerFor(NMEA_LIMIT), AcceptsNmea, NmeaSize, data, Protocol.Nmea);
    best := MaybeSelectEarlierCandidate(nmea, best);
    var ubx := DetectWithFramer(UbxStream.FramerFor(UBX_LIMIT), AcceptsUbx, UbxSize, data, Protocol.Ubx);
    best := MaybeSelectEarlierCandidate(ubx, best);
    var rtcm := DetectWithFramer(RtcmPush, AcceptsRtcm, RtcmSize, data, Rtcm3);
    best := MaybeSelectEarlierCandidate(rtcm, best);
    var ascii := DetectWithFramer(
      UnicoreFramer.FramerFor(UNICORE_LIMIT), VerifiedBy(parses), UnicoreSize, data, UnicoreAscii);
    best := MaybeSelectEarlierCandidate(ascii, best);
    var binary := DetectWithFramer(
      UnicoreBinaryFramer.FramerFor(UNICORE_BINARY_LIMIT), AcceptsUnicoreBinary, UnicoreBinarySize, data, UnicoreBinary);
    best := MaybeSelectEarlierCandidate(binary, best);
    assert Candidates(parses, input) == [nmea, ubx, rtcm, ascii, binary];
    BestOfFive(nmea, ubx, rtcm, ascii, binary);
  }

  lemma NothingInNothing(parses: UnicoreParser)
    ensures Detected(parses, []) == NOTHING
  {
    BestOfFive(None, None, None, None, None);
  }

  lemma BestOfFive(a: Option<Detection>, b: Option<Detection>, c: Option<Detection>, d: Option<Detection>, e: Option<Detection>)
    ensures Best([a, b, c, d, e])
         == SelectEarlier(e, SelectEarlier(d, SelectEarlier(c, SelectEarlier(b, SelectEarlier(a, NOTHING)))))
  {
    hide SelectEarlier;
    assert [a][..0] == [] && Best([a]) == SelectEarlier(a, NOTHING);
    assert [a, b][..1] == [a] && Best([a, b]) == SelectEarlier(b, Best([a]));
    assert [a, b, c][..2] == [a, b] && Best([a, b, c]) == SelectEarlier(c, Best([a, b]));
    assert [a, b, c, d][..3] == [a, b, c] && Best([a, b, c, d]) == SelectEarlier(d, Best([a, b, c]));
    assert [a, b, c, d, e][..4] == [a, b, c, d];
  }

  // ----- What the answer means -------------------------------------------------------------

  /** `best` is the candidate at `i`: it ended first, and before every candidate asked earlier. */
  predicate Wins(candidates: seq<Option<Detection>>, i: nat, best: Detection) {
    && i < |candidates| && candidates[i] == Some(best)
    && forall j :: 0 <= j < |candidates| && candidates[j].Some? ==>
         best.bytesConsumed <= candidates[j].value.bytesConsumed
         && (j < i ==> best.bytesConsumed < candidates[j].value.bytesConsumed)
  }

  predicate Named(candidates: seq<Option<Detection>>) {
    forall i :: 0 <= i < |candidates| && candidates[i].Some? ==> candidates[i].value.protocol != Unknown
  }

  predicate AllNone(candidates: seq<Option<Detection>>) {
    forall i :: 0 <= i < |candidates| ==> candidates[i] == None
  }

  ghost predicate HasWinner(candidates: seq<Option<Detection>>, best: Detection) {
    exists i: nat :: Wins(candidates, i, best)
  }

  /** The answer is unknown only if no framer accepts anything, and is the winner otherwise. */
  lemma {:induction false} BestWins(candidates: seq<Option<Detection>>)
    requires Named(candidates)
    ensures Best(candidates).protocol == Unknown <==> AllNone(candidates)
    ensures AllNone(candidates) ==> Best(candidates) == NOTHING
    ensures !AllNone(candidates) ==> HasWinner(candidates, Best(candidates))
  {
    if candidates != [] {
      var n := |candidates| - 1;
      BestWins(candidates[..n]);
      WinnerStep(candidates, candidates[..n], n);
    }
  }

  lemma WinnerStep(candidates: seq<Option<Detection>>, before: seq<Option<Detection>>, n: nat)
    requires candidates != [] && n == |candidates| - 1 && before == candidates[..n] && Named(candidates)
    requires Best(before).protocol == Unknown <==> AllNone(before)
    requires AllNone(before) ==> Best(before) == NOTHING
    requires !AllNone(before) ==> HasWinner(before, Best(before))
    ensures var best := SelectEarlier(candidates[n], Best(before));
            && (best.protocol == Unknown <==> AllNone(candidates))
            && (AllNone(candidates) ==> best == NOTHING)
            && (!AllNone(candidates) ==> HasWinner(candidates, best))
  {
    hide Best;
    assert candidates[n].Some? ==> candidates[n].value.protocol != Unknown;
    assert AllNone(candidates) <==> AllNone(before) && candidates[n] == None;
    var best := SelectEarlier(candidates[n], Best(before));
    if AllNone(before) {
      assert candidates[n].Some? ==> Wins(candidates, n, best);
    } else {
      var i: nat :| Wins(before, i, Best(before));
      assert before[i] == candidates[i];
      assert Wins(candidates, if best == Best(before) then i else n, best);
    }
  }

  predicate Extends(before: Option<Detection>, after: Option<Detection>, end: nat) {
    match before
    case Some(c) => after == before && 1 <= c.bytesConsumed <= end
    case None => after == None || after.value.bytesConsumed > end
  }

  predicate AllExtend(before: seq<Option<Detection>>, after: seq<Option<Detection>>, end: nat)
    requires |before| == |after|
  {
    forall j :: 0 <= j < |before| ==> Extends(before[j], after[j], end)
  }

  /** Candidates that ended already decide who wins, whatever else turns up later. */
  lemma WinnerStays(before: seq<Option<Detection>>, after: seq<Option<Detection>>, end: nat, best: Detection, best': Detection)
    requires |before| == |after| && AllExtend(before, after, end)
    requires HasWinner(before, best) && HasWinner(after, best')
    ensures best == best' && best.bytesConsumed <= end && !AllNone(after)
  {
    var i: nat :| Wins(before, i, best);
    var k: nat :| Wins(after, k, best');
    assert Extends(before[i], after[i], end) && Extends(before[k], after[k], end);
  }

  /** A winner after none had ended ends later than that. */
  lemma WinnerIsLater(before: seq<Option<Detection>>, after: seq<Option<Detection>>, end: nat, best: Detection)
    requires |before| == |after| && AllExtend(before, after, end)
    requires AllNone(before) && HasWinner(after, best)
    ensures best.bytesConsumed > end
  {
    var k: nat :| Wins(after, k, best);
    assert Extends(before[k], after[k], end);
  }

  lemma CandidateExtends<R>(push: Framer<R>, accept: R -> bool, size: R -> nat, protocol: Protocol,
                            a: seq<Stamped>, b: seq<Stamped>)
    requires protocol != Unknown
    ensures var before := CandidateOf(FirstAccepted(push, accept, [], a), size, protocol);
            var after := CandidateOf(FirstAccepted(push, accept, [], a + b), size, protocol);
            Extends(before, after, |a|) && (before.Some? ==> before.value.protocol != Unknown)
  {
    FirstAcceptedAppend(push, accept, [], a, b);
    hide FirstAccepted;
  }

  lemma CandidatesExtend(parses: UnicoreParser, a: seq<Stamped>, b: seq<Stamped>)
    ensures AllExtend(Candidates(parses, a), Candidates(parses, a + b), |a|)
    ensures Named(Candidates(parses, a))
  {
    hide FirstAccepted, CandidateOf, Extends;
    CandidateExtends(Nmea.FramerFor(NMEA_LIMIT), AcceptsNmea, NmeaSize, Protocol.Nmea, a, b);
    CandidateExtends(UbxStream.FramerFor(UBX_LIMIT), AcceptsUbx, UbxSize, Protocol.Ubx, a, b);
    CandidateExtends(RtcmPush, AcceptsRtcm, RtcmSize, Rtcm3, a, b);
    CandidateExtends(UnicoreFramer.FramerFor(UNICORE_LIMIT), VerifiedBy(parses), UnicoreSize, UnicoreAscii, a, b);
    CandidateExtends(UnicoreBinaryFramer.FramerFor(UNICORE_BINARY_LIMIT), AcceptsUnicoreBinary, UnicoreBinarySize,
                     UnicoreBinary, a, b);
  }

  /**
   The answer is the earliest accepted record over all five framers, the first asked among equals,
   and unknown exactly if there is none.
   */
  lemma DetectedIsEarliest(parses: UnicoreParser, input: seq<Stamped>)
    ensures var candidates, best := Candidates(parses, input), Detected(parses, input);
            if AllNone(candidates) then best == NOTHING
            else best.protocol != Unknown && HasWinner(candidates, best)
  {
    CandidatesExtend(parses, input, []);
    hide Candidates;
    BestWins(Candidates(parses, input));
  }

  /** Once a protocol is named, appending any bytes leaves the whole answer unchanged. */
  lemma PrefixStable(parses: UnicoreParser, a: seq<Stamped>, b: seq<Stamped>)
    requires Detected(parses, a).protocol != Unknown
    ensures Detected(parses, a + b) == Detected(parses, a)
    ensures Detected(parses, a).bytesConsumed <= |a|
  {
    hide *;
    CandidatesExtend(parses, a, b);
    DetectedIsEarliest(parses, a);
    DetectedIsEarliest(parses, a + b);
    NothingIsUnknown();
    SomethingStays(Candidates(parses, a), Candidates(parses, a + b), |a|);
    WinnerStays(Candidates(parses, a), Candidates(parses, a + b), |a|, Detected(parses, a), Detected(parses, a + b));
  }

  lemma NothingIsUnknown()
    ensures NOTHING.protocol == Unknown
  {
  }

  lemma SomethingStays(before: seq<Option<Detection>>, after: seq<Option<Detection>>, end: nat)
    requires |before| == |after| && AllExtend(before, after, end) && !AllNone(before)
    ensures !AllNone(after)
  {
    var i :| 0 <= i < |before| && before[i] != None;
    assert Extends(before[i], after[i], end);
  }

  /** A protocol that is named only after more bytes came is named on a record that ends in those. */
  lemma FoundLater(parses: UnicoreParser, a: seq<Stamped>, b: seq<Stamped>)
    requires Detected(parses, a).protocol == Unknown && Detected(parses, a + b).protocol != Unknown
    ensures |a| < Detected(parses, a + b).bytesConsumed <= |a + b|
  {
    hide *;
    CandidatesExtend(parses, a, b);
    DetectedIsEarliest(parses, a);
    DetectedIsEarliest(parses, a + b);
    NothingIsUnknown();
    WinnerIsLater(Candidates(parses, a), Candidates(parses, a + b), |a|, Detected(parses, a + b));
    PrefixStable(parses, a + b, []);
  }

  ghost predicate Accepts<R(!new)>(push: Framer<R>, accept: R -> bool, input: seq<Stamped>) {
    exists r :: r in Run(push, [], input).1 && accept(r)
  }

  /** One of the five framers, fed the whole input, reports a record that its test accepts. */
  ghost predicate SomeFramerAccepts(parses: UnicoreParser, input: seq<Stamped>) {
    || Accepts(Nmea.FramerFor(NMEA_LIMIT), AcceptsNmea, input)
    || Accepts(UbxStream.FramerFor(UBX_LIMIT), AcceptsUbx, input)
    || Accepts(RtcmPush, AcceptsRtcm, input)
    || Accepts(UnicoreFramer.FramerFor(UNICORE_LIMIT), VerifiedBy(parses), input)
    || Accepts(UnicoreBinaryFramer.FramerFor(UNICORE_BINARY_LIMIT), AcceptsUnicoreBinary, input)
  }

  lemma CandidateIffAccepted<R(!new)>(push: Framer<R>, accept: R -> bool, size: R -> nat, protocol: Protocol, input: seq<Stamped>)
    ensures CandidateOf(FirstAccepted(push, accept, [], input), size, protocol).Some?
       <==> Accepts(push, accept, input)
  {
    FoundIffAccepted(push, accept, [], input);
    hide FirstAccepted, Run;
  }

  /** The answer is unknown only if none of the five framers accepts anything in the whole input. */
  lemma KnownIffSomeFramerAccepts(parses: UnicoreParser, input: seq<Stamped>)
    ensures Detected(parses, input).protocol != Unknown <==> SomeFramerAccepts(parses, input)
  {
    DetectedIsEarliest(parses, input);
    CandidateIffAccepted(Nmea.FramerFor(NMEA_LIMIT), AcceptsNmea, NmeaSize, Protocol.Nmea, input);
    CandidateIffAccepted(UbxStream.FramerFor(UBX_LIMIT), AcceptsUbx, UbxSize, Protocol.Ubx, input);
    CandidateIffAccepted(RtcmPush, AcceptsRtcm, RtcmSize, Rtcm3, input);
    CandidateIffAccepted(UnicoreFramer.FramerFor(UNICORE_LIMIT), VerifiedBy(parses), UnicoreSize, UnicoreAscii, input);
    CandidateIffAccepted(UnicoreBinaryFramer.FramerFor(UNICORE_BINARY_LIMIT), AcceptsUnicoreBinary,
                         UnicoreBinarySize, UnicoreBinary, input);
    SomeOfFive(parses, input);
    NothingIsUnknown();
    hide FirstAccepted, CandidateOf, Candidates, Detected, Accepts, AllNone, HasWinner;
  }

  lemma SomeOfFive(parses: UnicoreParser, input: seq<Stamped>)
    ensures !AllNone(Candidates(parses, input)) <==>
            || CandidateOf(FirstAccepted(Nmea.FramerFor(NMEA_LIMIT), AcceptsNmea, [], input), NmeaSize, Protocol.Nmea).Some?
            || CandidateOf(FirstAccepted(UbxStream.FramerFor(UBX_LIMIT), AcceptsUbx, [], input), UbxSize, Protocol.Ubx).Some?
            || CandidateOf(FirstAccepted(RtcmPush, AcceptsRtcm, [], input), RtcmSize, Rtcm3).Some?
            || CandidateOf(FirstAccepted(UnicoreFramer.FramerFor(UNICORE_LIMIT), VerifiedBy(parses), [], input),
                           UnicoreSize, UnicoreAscii).Some?
            || CandidateOf(FirstAccepted(UnicoreBinaryFramer.FramerFor(UNICORE_BINARY_LIMIT), AcceptsUnicoreBinary, [], input),
                           UnicoreBinarySize, UnicoreBinary).Some?
  {
    hide FirstAccepted, CandidateOf;
    var c := Candidates(parses, input);
    assert AllNone(c) <==> c[0] == None && c[1] == None && c[2] == None && c[3] == None && c[4] == None;
  }

  /** A frame written by the command builder is never left undetected. */
  lemma BuiltFrameIsDetected(parses: UnicoreParser, m: Ubx.Message, input: seq<Stamped>, more: seq<Stamped>)
    requires UbxStream.Carries(UBX_LIMIT, m) && Values(input) == Ubx.BuildUbxFrame(m)
    ensures Detected(parses, input + more).protocol != Unknown
    ensures Detected(parses, input + more).bytesConsumed <= |input|
  {
    assert |input| == |Ubx.BuildUbxFrame(m)| > 0;
    hide *;
    UbxStream.OneBuiltFrame(UBX_LIMIT, m, input);
    var f := Ubx.FrameOf(Ubx.BuildUbxFrame(m), input[0].ts);
    assert AcceptsUbx(f) && Run(UbxStream.FramerFor(UBX_LIMIT), [], input).1 == [f] by {
      CarriedFrameIsAccepted(m, input[0].ts);
    }
    UbxAccepts(parses, input, f);
    KnownIffSomeFramerAccepts(parses, input);
    PrefixStable(parses, input, more);
  }

  lemma CarriedFrameIsAccepted(m: Ubx.Message, ts: Timestamp)
    requires UbxStream.Carries(UBX_LIMIT, m)
    ensures AcceptsUbx(Ubx.FrameOf(Ubx.BuildUbxFrame(m), ts))
  {
    UbxStream.BuiltFrameReports(m, ts);
    hide Ubx.FrameOf, Ubx.BuildUbxFrame;
  }

  lemma UbxAccepts(parses: UnicoreParser, input: seq<Stamped>, f: Ubx.UbxFrame)
    requires Run(UbxStream.FramerFor(UBX_LIMIT), [], input).1 == [f] && AcceptsUbx(f)
    ensures SomeFramerAccepts(parses, input)
  {
    hide Run;
    assert f in Run(UbxStream.FramerFor(UBX_LIMIT), [], input).1;
  }
}
