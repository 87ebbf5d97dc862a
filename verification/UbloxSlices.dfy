/**
 Which bytes of the stream the records of a u-blox session are. Every record is a slice of the stream,
 but the scan moves by the size of the record and not by the bytes probed, so a slice can be scanned
 again; it is not exactly when the record is everything that was probed.
 */
module UbloxSlices {
  import opened Bits
  import opened Framing
  import opened UbloxSession
  import S = FrameSlices
  import Nmea = NmeaFramer
  import NmeaChecksum
  import Ubx = UbxFramer
  import UbxChecksum
  import UbxStream
  import Rtcm = RtcmFramer

  // ----- What a probe answers, by the bytes ------------------------------------------------

  lemma {:induction false} UbxProbe(max: nat, bytes: seq<Stamped>, k: nat)
    requires 2 <= k <= |bytes| && bytes[0].value == Ubx.SYNC1 && bytes[1].value == Ubx.SYNC2
    requires Ubx.Holds(max, bytes[..k])
    ensures var probe := ProbeFrom(UbxPush(max), bytes[..k], bytes[k..]);
            if |bytes| >= Ubx.HEADER_SIZE && Ubx.DeclaredSize(Values(bytes), 0) <= max
               && Ubx.DeclaredSize(Values(bytes), 0) <= |bytes|
            then var n := Ubx.DeclaredSize(Values(bytes), 0);
                 n >= k && probe == Probe(RecordReady(Ubx.Report(max, bytes[..n])), n - k)
            else !probe.result.RecordReady?
    decreases |bytes| - k
  {
    hide Ubx.Report;
    if k >= Ubx.HEADER_SIZE {
      assert Ubx.DeclaredSize(Values(bytes[..k]), 0) == Ubx.DeclaredSize(Values(bytes), 0);
    }
    if k < |bytes| {
      var grown := bytes[..k] + [bytes[k]];
      assert grown == bytes[..k + 1] && bytes[k..][0] == bytes[k] && bytes[k..][1..] == bytes[k + 1..];
      assert |grown| >= Ubx.HEADER_SIZE ==> Ubx.DeclaredSize(Values(grown), 0) == Ubx.DeclaredSize(Values(bytes), 0);
      Ubx.PushHolds(max, bytes[..k], bytes[k]);
      if Ubx.Push(max, bytes[..k], bytes[k]).1.NeedMoreData? {
        UbxProbe(max, bytes, k + 1);
      }
    }
  }

  /** One more byte of a frame whose first two bytes are in place. */
  lemma RtcmPushNext(max: nat, bytes: seq<Stamped>, k: nat)
    requires 2 <= k < |bytes| && bytes[0].value == Rtcm.PREAMBLE && bytes[1].value < 4
    requires Rtcm.Holds(max, bytes[..k])
    ensures var (next, result) := Rtcm.Push(max, bytes[..k], bytes[k]);
            && (result.NeedMoreData? || result.Overflow? || result.RecordReady?)
            && (result.NeedMoreData? ==> next == bytes[..k + 1] && Rtcm.Holds(max, bytes[..k + 1]))
            && (result.Overflow? && k + 1 >= Rtcm.HEADER_SIZE ==> Rtcm.DeclaredSize(Values(bytes), 0) > max)
            && (result.Overflow? && k + 1 < Rtcm.HEADER_SIZE ==> max < Rtcm.HEADER_SIZE)
            && (result.RecordReady? ==>
                  k + 1 >= Rtcm.HEADER_SIZE && k + 1 == Rtcm.DeclaredSize(Values(bytes), 0) <= max
                  && result == RecordReady(Rtcm.Report(max, bytes[..k + 1])))
  {
    hide Rtcm.Report;
    var grown := bytes[..k] + [bytes[k]];
    assert grown == bytes[..k + 1];
    assert |grown| >= Rtcm.HEADER_SIZE ==> Rtcm.DeclaredSize(Values(grown), 0) == Rtcm.DeclaredSize(Values(bytes), 0);
    Rtcm.PushHolds(max, bytes[..k], bytes[k]);
  }

  lemma RtcmHoldsPart(max: nat, bytes: seq<Stamped>, k: nat)
    requires 2 <= k <= |bytes| && Rtcm.Holds(max, bytes[..k])
    ensures |bytes| >= Rtcm.HEADER_SIZE ==>
              && Rtcm.DeclaredSize(Values(bytes), 0) >= 6
              && (k >= Rtcm.HEADER_SIZE ==> k < Rtcm.DeclaredSize(Values(bytes), 0) <= max)
  {
    assert k >= Rtcm.HEADER_SIZE ==> Rtcm.DeclaredSize(Values(bytes[..k]), 0) == Rtcm.DeclaredSize(Values(bytes), 0);
  }

  lemma {:induction false} RtcmProbe(max: nat, bytes: seq<Stamped>, k: nat)
    requires 2 <= k <= |bytes| && bytes[0].value == Rtcm.PREAMBLE && bytes[1].value < 4
    requires Rtcm.Holds(max, bytes[..k])
    ensures var probe := ProbeFrom(RtcmPush(max), bytes[..k], bytes[k..]);
            if |bytes| >= Rtcm.HEADER_SIZE && Rtcm.DeclaredSize(Values(bytes), 0) <= max
               && Rtcm.DeclaredSize(Values(bytes), 0) <= |bytes|
            then var n := Rtcm.DeclaredSize(Values(bytes), 0);
                 n >= k && probe == Probe(RecordReady(Rtcm.Report(max, bytes[..n])), n - k)
            else !probe.result.RecordReady?
    decreases |bytes| - k
  {
    RtcmHoldsPart(max, bytes, k);
    hide Rtcm.Report, Rtcm.Push, Rtcm.DeclaredSize, Rtcm.Holds;
    if k < |bytes| {
      RtcmPushNext(max, bytes, k);
      assert bytes[k..][0] == bytes[k] && bytes[k..][1..] == bytes[k + 1..];
      if Rtcm.Push(max, bytes[..k], bytes[k]).1.NeedMoreData? {
        RtcmProbe(max, bytes, k + 1);
      }
    }
  }

  predicate NoLeader(text: seq<byte>) {
    forall i :: 0 <= i < |text| ==> !NmeaChecksum.IsLeader(text[i])
  }

  /** A sentence ends at the first line feed and starts at the last leader before it. */
  lemma {:induction false} NmeaProbe(max: nat, held: Pending, bytes: seq<Stamped>)
    requires held != [] && ProbeFrom(NmeaPush(max), held, bytes).result.RecordReady?
    ensures var probe, end := ProbeFrom(NmeaPush(max), held, bytes), NmeaChecksum.Find(Values(bytes), NmeaChecksum.LF);
            && end.Some? && probe.consumed == end.value + 1
            && NmeaSize(probe.result.record) <= |held| + probe.consumed
            && (NmeaSize(probe.result.record) == |held| + probe.consumed <==> NoLeader(Values(bytes)[..end.value]))
    decreases |bytes|
  {
    hide Nmea.SentenceOf;
    var values := Values(bytes);
    assert Values(bytes[1..]) == values[1..];
    if bytes[0].value != NmeaChecksum.LF {
      NmeaProbe(max, Nmea.Push(max, held, bytes[0]).0, bytes[1..]);
      var end := NmeaChecksum.Find(values[1..], NmeaChecksum.LF).value;
      LeaderFirst(values, end);
    }
  }

  lemma LeaderFirst(text: seq<byte>, end: nat)
    requires end + 1 < |text|
    ensures NoLeader(text[..end + 1]) <==> !NmeaChecksum.IsLeader(text[0]) && NoLeader(text[1..][..end])
  {
    assert text[..end + 1] == [text[0]] + text[1..][..end];
    if NoLeader(text[..end + 1]) {
      assert !NmeaChecksum.IsLeader(text[..end + 1][0]);
      assert forall i :: 0 <= i < end ==> text[1..][..end][i] == text[..end + 1][i + 1];
    }
  }

  // ----- When the scan moves past everything that was probed --------------------------------

  /** How many bytes the step at the front of `bytes` pushes into a framer, or skips. */
  function Probed(config: Config, bytes: seq<Stamped>): (n: nat)
    requires bytes != []
    ensures n <= |bytes|
  {
    var first := bytes[0].value;
    if NmeaChecksum.IsLeader(first) then ProbeFrom(NmeaPush(config.maxNmea), [], bytes).consumed
    else if first == Ubx.SYNC1 then ProbeFrom(UbxPush(config.maxUbx), [], bytes).consumed
    else if first == Rtcm.PREAMBLE then ProbeFrom(RtcmPush(config.maxRtcm), [], bytes).consumed
    else 1
  }

  /** The step at the front of `bytes` finds a record, valid or not. */
  predicate Finds(config: Config, bytes: seq<Stamped>)
    requires bytes != []
  {
    var first := bytes[0].value;
    if NmeaChecksum.IsLeader(first) then ProbeFrom(NmeaPush(config.maxNmea), [], bytes).result.RecordReady?
    else if first == Ubx.SYNC1 then ProbeFrom(UbxPush(config.maxUbx), [], bytes).result.RecordReady?
    else if first == Rtcm.PREAMBLE then ProbeFrom(RtcmPush(config.maxRtcm), [], bytes).result.RecordReady?
    else false
  }

  /** The second sync byte follows the first at once, and no other frame is recovered from this one. */
  predicate WholeUbx(max: nat, bytes: seq<byte>) {
    && |bytes| >= Ubx.HEADER_SIZE && bytes[1] == Ubx.SYNC2
    && Ubx.DeclaredSize(bytes, 0) <= |bytes|
    && var frame := bytes[..Ubx.DeclaredSize(bytes, 0)];
       Ubx.ChecksumMatches(frame) || Ubx.FirstValidFrame(max, frame, 1) == None
  }

  predicate WholeRtcm(max: nat, bytes: seq<byte>) {
    && |bytes| >= Rtcm.HEADER_SIZE && bytes[1] < 4
    && Rtcm.DeclaredSize(bytes, 0) <= |bytes|
    && var frame := bytes[..Rtcm.DeclaredSize(bytes, 0)];
       Rtcm.CrcMatches(frame) || Rtcm.FirstValidFrame(max, frame, 1) == None
  }

  /** No second leader comes before the line feed. */
  predicate WholeNmea(bytes: seq<byte>)
    requires bytes != []
  {
    match NmeaChecksum.Find(bytes[1..], NmeaChecksum.LF)
    case Some(end) => NoLeader(bytes[1..][..end])
    case None => false
  }

  /** What a caller can tell from the bytes: the record found here starts with the first of them. */
  predicate Whole(config: Config, bytes: seq<Stamped>)
    requires bytes != []
  {
    var values := Values(bytes);
    if NmeaChecksum.IsLeader(values[0]) then WholeNmea(values)
    else if values[0] == Ubx.SYNC1 then WholeUbx(config.maxUbx, values)
    else WholeRtcm(config.maxRtcm, values)
  }

  /** A second first byte restarts the framer, and the record then starts later than the probe did. */
  lemma RestartIsShort<R(!new)>(push: Framer<R>, size: R -> nat, bytes: seq<Stamped>)
    requires Dependable(push, size) && |bytes| >= 2
    requires push([], bytes[0]) == ([bytes[0]], NeedMoreData) && push([bytes[0]], bytes[1]) == ([bytes[1]], NeedMoreData)
    requires ProbeFrom(push, [], bytes).result.RecordReady?
    ensures var probe := ProbeFrom(push, [], bytes); size(probe.result.record) < probe.consumed
  {
    assert bytes[1..][1..] == bytes[2..] && bytes[1..][0] == bytes[1];
    ProbeFacts(push, size, [bytes[1]], bytes[2..]);
  }

  /** A record needs a second byte that the framer holds on to. */
  lemma SecondByte<R>(push: Framer<R>, bytes: seq<Stamped>)
    requires bytes != [] && push([], bytes[0]) == ([bytes[0]], NeedMoreData)
    requires ProbeFrom(push, [], bytes).result.RecordReady?
    requires |bytes| >= 2 ==> !push([bytes[0]], bytes[1]).1.RecordReady? && !push([bytes[0]], bytes[1]).1.Idle?
    ensures |bytes| >= 2 && push([bytes[0]], bytes[1]).1.NeedMoreData?
    ensures var rest := ProbeFrom(push, push([bytes[0]], bytes[1]).0, bytes[2..]);
            ProbeFrom(push, [], bytes) == Probe(rest.result, rest.consumed + 2)
  {
    assert |bytes| >= 2;
    assert bytes[1..][1..] == bytes[2..] && bytes[1..][0] == bytes[1];
  }

  /** A frame that follows its first two bytes at once is reported when all of it has been pushed. */
  lemma UbxProbeStart(max: nat, bytes: seq<Stamped>)
    requires |bytes| >= 2 && bytes[0].value == Ubx.SYNC1 && bytes[1].value == Ubx.SYNC2
    requires ProbeFrom(UbxPush(max), [], bytes).result.RecordReady?
          || (|bytes| >= Ubx.HEADER_SIZE && Ubx.DeclaredSize(Values(bytes), 0) <= max
              && Ubx.DeclaredSize(Values(bytes), 0) <= |bytes|)
    ensures |bytes| >= Ubx.HEADER_SIZE && Ubx.DeclaredSize(Values(bytes), 0) <= |bytes|
    ensures var n := Ubx.DeclaredSize(Values(bytes), 0);
            ProbeFrom(UbxPush(max), [], bytes) == Probe(RecordReady(Ubx.Report(max, bytes[..n])), n)
  {
    hide Ubx.Report, ProbeFrom;
    assert [bytes[0]] + [bytes[1]] == bytes[..2];
    UbxFirstTwo(max, bytes);
    UbxProbe(max, bytes, 2);
  }

  lemma UbxFirstTwo(max: nat, bytes: seq<Stamped>)
    requires |bytes| >= 2 && bytes[0].value == Ubx.SYNC1 && bytes[1].value == Ubx.SYNC2
    requires ProbeFrom(UbxPush(max), [], bytes).result.RecordReady? || max >= 2
    ensures var rest := ProbeFrom(UbxPush(max), bytes[..2], bytes[2..]);
            ProbeFrom(UbxPush(max), [], bytes) == Probe(rest.result, rest.consumed + 2)
  {
    assert [bytes[0]] + [bytes[1]] == bytes[..2] && bytes[1..][1..] == bytes[2..] && bytes[1..][0] == bytes[1];
    var push := UbxPush(max);
    assert push([], bytes[0]) == ([bytes[0]], NeedMoreData);
    assert push([bytes[0]], bytes[1]) == (bytes[..2], NeedMoreData);
  }

  lemma UbxReportSize(max: nat, frame: seq<Stamped>)
    requires |frame| >= Ubx.HEADER_SIZE + Ubx.CHECKSUM_SIZE
    ensures var n := UbxSize(Ubx.Report(max, frame));
            && n <= |frame|
            && (n == |frame| <==>
                  Ubx.ChecksumMatches(Values(frame)) || Ubx.FirstValidFrame(max, Values(frame), 1) == None)
  {
    hide Ubx.Report, Ubx.ChecksumMatches, Ubx.FirstValidFrame, Ubx.FrameOf;
    Ubx.ReportCases(max, frame);
  }

  lemma UbxStepExact(max: nat, bytes: seq<Stamped>)
    requires bytes != [] && bytes[0].value == Ubx.SYNC1 && ProbeFrom(UbxPush(max), [], bytes).result.RecordReady?
    ensures var probe := ProbeFrom(UbxPush(max), [], bytes);
            && UbxSize(probe.result.record) <= probe.consumed
            && (UbxSize(probe.result.record) == probe.consumed <==> WholeUbx(max, Values(bytes)))
  {
    hide Ubx.Report, Ubx.ChecksumMatches, Ubx.FirstValidFrame, Ubx.FrameOf, ProbeFrom;
    var push := UbxPush(max);
    SecondByte(push, bytes);
    if bytes[1].value == Ubx.SYNC2 {
      UbxProbeStart(max, bytes);
      var n := Ubx.DeclaredSize(Values(bytes), 0);
      assert Values(bytes[..n]) == Values(bytes)[..n];
      UbxReportSize(max, bytes[..n]);
    } else {
      UbxDependable(max);
      hide Dependable;
      RestartIsShort(push, UbxSize, bytes);
    }
  }

  /** A frame that follows its first two bytes at once is reported when all of it has been pushed. */
  lemma RtcmProbeStart(max: nat, bytes: seq<Stamped>)
    requires |bytes| >= 2 && bytes[0].value == Rtcm.PREAMBLE && bytes[1].value < 4
    requires ProbeFrom(RtcmPush(max), [], bytes).result.RecordReady?
          || (|bytes| >= Rtcm.HEADER_SIZE && Rtcm.DeclaredSize(Values(bytes), 0) <= max
              && Rtcm.DeclaredSize(Values(bytes), 0) <= |bytes|)
    ensures |bytes| >= Rtcm.HEADER_SIZE && Rtcm.DeclaredSize(Values(bytes), 0) <= |bytes|
    ensures var n := Rtcm.DeclaredSize(Values(bytes), 0);
            ProbeFrom(RtcmPush(max), [], bytes) == Probe(RecordReady(Rtcm.Report(max, bytes[..n])), n)
  {
    hide Rtcm.Report, ProbeFrom;
    assert [bytes[0]] + [bytes[1]] == bytes[..2];
    RtcmFirstTwo(max, bytes);
    RtcmProbe(max, bytes, 2);
  }

  lemma RtcmFirstTwo(max: nat, bytes: seq<Stamped>)
    requires |bytes| >= 2 && bytes[0].value == Rtcm.PREAMBLE && bytes[1].value < 4
    requires ProbeFrom(RtcmPush(max), [], bytes).result.RecordReady? || max >= 2
    ensures var rest := ProbeFrom(RtcmPush(max), bytes[..2], bytes[2..]);
            ProbeFrom(RtcmPush(max), [], bytes) == Probe(rest.result, rest.consumed + 2)
  {
    assert [bytes[0]] + [bytes[1]] == bytes[..2] && bytes[1..][1..] == bytes[2..] && bytes[1..][0] == bytes[1];
    var push := RtcmPush(max);
    assert push([], bytes[0]) == ([bytes[0]], NeedMoreData);
    assert push([bytes[0]], bytes[1]) == (bytes[..2], NeedMoreData);
  }

  lemma RtcmReportSize(max: nat, frame: seq<Stamped>)
    requires |frame| >= Rtcm.HEADER_SIZE + Rtcm.CRC_SIZE
    ensures var n := RtcmSize(Rtcm.Report(max, frame));
            && n <= |frame|
            && (n == |frame| <==>
                  Rtcm.CrcMatches(Values(frame)) || Rtcm.FirstValidFrame(max, Values(frame), 1) == None)
  {
    hide Rtcm.Report, Rtcm.CrcMatches, Rtcm.FirstValidFrame, Rtcm.FrameOf;
    Rtcm.ReportCases(max, frame);
  }

  lemma RtcmStepExact(max: nat, bytes: seq<Stamped>)
    requires bytes != [] && bytes[0].value == Rtcm.PREAMBLE && ProbeFrom(RtcmPush(max), [], bytes).result.RecordReady?
    ensures var probe := ProbeFrom(RtcmPush(max), [], bytes);
            && RtcmSize(probe.result.record) <= probe.consumed
            && (RtcmSize(probe.result.record) == probe.consumed <==> WholeRtcm(max, Values(bytes)))
  {
    hide Rtcm.Report, Rtcm.CrcMatches, Rtcm.FirstValidFrame, Rtcm.FrameOf, ProbeFrom;
    var push := RtcmPush(max);
    SecondByte(push, bytes);
    if bytes[1].value < 4 {
      RtcmProbeStart(max, bytes);
      var n := Rtcm.DeclaredSize(Values(bytes), 0);
      assert Values(bytes[..n]) == Values(bytes)[..n];
      RtcmReportSize(max, bytes[..n]);
    } else {
      RtcmDependable(max);
      hide Dependable;
      RestartIsShort(push, RtcmSize, bytes);
    }
  }

  lemma NmeaStepExact(max: nat, bytes: seq<Stamped>)
    requires bytes != [] && NmeaChecksum.IsLeader(bytes[0].value)
    requires ProbeFrom(NmeaPush(max), [], bytes).result.RecordReady?
    ensures var probe := ProbeFrom(NmeaPush(max), [], bytes);
            && NmeaSize(probe.result.record) <= probe.consumed
            && (NmeaSize(probe.result.record) == probe.consumed <==> WholeNmea(Values(bytes)))
  {
    var push := NmeaPush(max);
    assert push([], bytes[0]) == ([bytes[0]], NeedMoreData);
    NmeaProbe(max, [bytes[0]], bytes[1..]);
    assert Values(bytes[1..]) == Values(bytes)[1..];
  }

  /**
   A record step never moves past what it probed, and it moves past all of it exactly when the bytes
   say that the record starts where the probe did.
   */
  lemma StepIsExactIffWhole(config: Config, bytes: seq<Stamped>, finalizing: bool)
    requires bytes != [] && Finds(config, bytes)
    ensures var step := ScanStep(config, bytes, finalizing);
            && !step.keepTail && step.next <= Probed(config, bytes)
            && (step.next == Probed(config, bytes) <==> Whole(config, bytes))
  {
    hide ProbeFrom, WholeNmea, WholeUbx, WholeRtcm;
    var first := bytes[0].value;
    if NmeaChecksum.IsLeader(first) {
      NmeaStepExact(config.maxNmea, bytes);
    } else if first == Ubx.SYNC1 {
      UbxStepExact(config.maxUbx, bytes);
    } else {
      RtcmStepExact(config.maxRtcm, bytes);
    }
  }

  // ----- The slices a session routes --------------------------------------------------------

  /**
   A record found by the scan: whether it was valid and so routed, where in the stream it lies, whether it
   starts where its probe did, and where the scan goes on.
   */
  datatype Place = Place(record: Routed, valid: bool, start: int, end: int, whole: bool, next: int)

  function RawOf(r: Routed): seq<byte> {
    match r
    case RoutedNmea(sentence) => sentence.rawBytes
    case RoutedUbx(frame) => frame.rawBytes
    case RoutedRtcm(frame) => frame.rawBytes
  }

  function TimeOf(r: Routed): Timestamp {
    match r
    case RoutedNmea(sentence) => sentence.ts
    case RoutedUbx(frame) => frame.ts
    case RoutedRtcm(frame) => frame.ts
  }

  function TagNmea(found: seq<S.Located<Nmea.NmeaSentence>>, whole: bool, at: nat): seq<Place> {
    seq(|found|, i requires 0 <= i < |found| =>
      Place(RoutedNmea(found[i].record), found[i].record.validation.status == Valid, found[i].start, found[i].end,
            whole, at + found[i].end - found[i].start))
  }

  function TagUbx(found: seq<S.Located<Ubx.UbxFrame>>, whole: bool, at: nat): seq<Place> {
    seq(|found|, i requires 0 <= i < |found| =>
      Place(RoutedUbx(found[i].record), found[i].record.status == Valid, found[i].start, found[i].end,
            whole, at + found[i].end - found[i].start))
  }

  function TagRtcm(found: seq<S.Located<Rtcm.RtcmFrame>>, whole: bool, at: nat): seq<Place> {
    seq(|found|, i requires 0 <= i < |found| =>
      Place(RoutedRtcm(found[i].record), found[i].record.status == Valid, found[i].start, found[i].end,
            whole, at + found[i].end - found[i].start))
  }

  /** What the step at the front of `bytes`, `at` bytes into the stream, finds. */
  function PlacesHere(config: Config, bytes: seq<Stamped>, at: nat): seq<Place>
    requires bytes != []
  {
    var first, probed := bytes[0].value, bytes[..Probed(config, bytes)];
    if NmeaChecksum.IsLeader(first) then
      TagNmea(S.Locate(NmeaPush(config.maxNmea), Nmea.Placing(), [], at, probed), Whole(config, bytes), at)
    else if first == Ubx.SYNC1 then
      TagUbx(S.Locate(UbxPush(config.maxUbx), UbxStream.Placing(config.maxUbx), [], at, probed), Whole(config, bytes), at)
    else if first == Rtcm.PREAMBLE then
      TagRtcm(S.Locate(RtcmPush(config.maxRtcm), Rtcm.Placing(config.maxRtcm), [], at, probed), Whole(config, bytes), at)
    else []
  }

  /** Everything the scan of `bytes` finds, in the order in which it is found. */
  function Places(config: Config, bytes: seq<Stamped>, at: nat, finalizing: bool): seq<Place>
    decreases |bytes|
  {
    if bytes == [] || ScanStep(config, bytes, finalizing).keepTail then []
    else
      StepProgress(config, bytes, finalizing);
      var n := ScanStep(config, bytes, finalizing).next;
      PlacesHere(config, bytes, at) + Places(config, bytes[n..], at + n, finalizing)
  }

  ghost predicate IsSlice(stream: seq<Stamped>, p: Place) {
    && 0 <= p.start < p.end <= |stream|
    && RawOf(p.record) == Values(stream)[p.start..p.end]
    && TimeOf(p.record) == stream[p.start].ts
  }

  lemma {:induction false} ProbeLocates<R>(
      push: Framer<R>, shape: S.Shape<R>, held: Pending, seen: nat, bytes: seq<Stamped>)
    ensures var probe := ProbeFrom(push, held, bytes);
            var found := S.Locate(push, shape, held, seen, bytes[..probe.consumed]);
            if probe.result.RecordReady? then |found| == 1 && found[0].record == probe.result.record else found == []
    decreases |bytes|
  {
    if bytes != [] {
      var (next, result) := push(held, bytes[0]);
      var n := ProbeFrom(push, held, bytes).consumed;
      assert bytes[..n][0] == bytes[0] && bytes[..n][1..] == bytes[1..][..n - 1];
      if result.NeedMoreData? || result.Idle? {
        ProbeLocates(push, shape, next, seen + 1, bytes[1..]);
      }
    }
  }

  /** A record a probe finds is a slice of what was probed. */
  lemma ProbeIsSlice<R(!new)>(push: Framer<R>, shape: S.Shape<R>, done: seq<Stamped>, bytes: seq<Stamped>)
    requires S.Slicing(push, shape)
    ensures var probe := ProbeFrom(push, [], bytes);
            var found := S.Locate(push, shape, [], |done|, bytes[..probe.consumed]);
            if probe.result.RecordReady? then
              && |found| == 1 && found[0].record == probe.result.record
              && S.IsSlice(done + bytes, shape, found[0])
              && |done| <= found[0].start && found[0].end <= |done| + probe.consumed
            else found == []
  {
    hide ProbeFrom, S.Slicing, S.Locate;
    var n := ProbeFrom(push, [], bytes).consumed;
    ProbeLocates(push, shape, [], |done|, bytes);
    S.RecordsAreDisjointSlices(push, shape, done, [], bytes[..n]);
    assert done + bytes == (done + bytes[..n]) + bytes[n..];
    var found := S.Locate(push, shape, [], |done|, bytes[..n]);
    if |found| == 1 {
      assert S.IsSlice(done + bytes[..n], shape, found[0]);
      assert Values(done + bytes)[found[0].start..found[0].end] == Values(done + bytes[..n])[found[0].start..found[0].end];
    }
  }

  /** What one step finds, counts and routes, and how far it moves. */
  ghost predicate StepTells(config: Config, done: seq<Stamped>, bytes: seq<Stamped>, step: Step)
    requires bytes != []
  {
    var here := PlacesHere(config, bytes, |done|);
    if Finds(config, bytes) then
      && |here| == 1 && IsSlice(done + bytes, here[0])
      && |done| <= here[0].start && here[0].end <= |done| + Probed(config, bytes)
      && step.next == here[0].end - here[0].start && !step.keepTail
      && here[0].next == |done| + step.next && here[0].whole == Whole(config, bytes)
      && step.routed == (if here[0].valid then Some(here[0].record) else None)
      && step.nmeaSeen + step.ubxSeen + step.rtcmSeen == 1
    else here == [] && step.routed == None && step.nmeaSeen + step.ubxSeen + step.rtcmSeen == 0
  }

  lemma StepFacts(config: Config, done: seq<Stamped>, bytes: seq<Stamped>, finalizing: bool)
    requires bytes != []
    ensures StepTells(config, done, bytes, ScanStep(config, bytes, finalizing))
  {
    hide ProbeFrom, S.Locate, S.Slicing, Whole;
    var first := bytes[0].value;
    if NmeaChecksum.IsLeader(first) {
      Nmea.PushSlices(config.maxNmea);
      ProbeIsSlice(NmeaPush(config.maxNmea), Nmea.Placing(), done, bytes);
    } else if first == Ubx.SYNC1 {
      UbxStream.PushSlices(config.maxUbx);
      ProbeIsSlice(UbxPush(config.maxUbx), UbxStream.Placing(config.maxUbx), done, bytes);
    } else if first == Rtcm.PREAMBLE {
      Rtcm.PushSlices(config.maxRtcm);
      ProbeIsSlice(RtcmPush(config.maxRtcm), Rtcm.Placing(config.maxRtcm), done, bytes);
    }
  }

  function RouteAll<T>(route: Route<T>, runtime: T, places: seq<Place>): T
    decreases |places|
  {
    if places == [] then runtime
    else RouteAll(route, if places[0].valid then route(runtime, places[0].record) else runtime, places[1..])
  }

  lemma RouteAllPrepend<T>(route: Route<T>, runtime: T, here: seq<Place>, rest: seq<Place>)
    requires |here| <= 1
    ensures RouteAll(route, runtime, here + rest) == RouteAll(route, RouteAll(route, runtime, here), rest)
  {
    assert here == [] ==> here + rest == rest;
    assert here != [] ==> (here + rest)[0] == here[0] && (here + rest)[1..] == rest && here[1..] == [];
  }

  /** Records counted, valid or not. */
  function Records(m: Metrics): nat {
    m.nmeaSeen + m.ubxSeen + m.rtcmSeen
  }

  lemma AdvanceRoutes<T>(config: Config, route: Route<T>, s: Session<T>, at: nat, finalizing: bool)
    requires s.buffer != [] && !ScanStep(config, s.buffer, finalizing).keepTail
    ensures var here, t := PlacesHere(config, s.buffer, at), Advance(config, route, s, finalizing);
            && |here| <= 1 && t.runtime == RouteAll(route, s.runtime, here)
            && Records(t.metrics) == Records(s.metrics) + |here|
  {
    var done := seq(at, i => s.buffer[0]);
    StepFacts(config, done, s.buffer, finalizing);
    hide ScanStep, PlacesHere, Finds, IsSlice, Probed, Whole;
    var here := PlacesHere(config, s.buffer, at);
    assert here != [] ==> here[1..] == [];
  }

  lemma PlacesStep(config: Config, bytes: seq<Stamped>, at: nat, finalizing: bool)
    requires bytes != [] && !ScanStep(config, bytes, finalizing).keepTail
    ensures var n := ScanStep(config, bytes, finalizing).next;
            && 1 <= n <= |bytes|
            && Places(config, bytes, at, finalizing)
               == PlacesHere(config, bytes, at) + Places(config, bytes[n..], at + n, finalizing)
  {
    hide ScanStep, PlacesHere;
    StepProgress(config, bytes, finalizing);
  }

  lemma WholeStep(config: Config, bytes: seq<Stamped>, finalizing: bool)
    requires bytes != [] && !ScanStep(config, bytes, finalizing).keepTail
    ensures var n := ScanStep(config, bytes, finalizing).next;
            && 1 <= n <= |bytes|
            && (RecordsWhole(config, bytes, finalizing)
                <==> (Finds(config, bytes) ==> Whole(config, bytes)) && RecordsWhole(config, bytes[n..], finalizing))
  {
    hide ScanStep, Finds, Whole;
    StepProgress(config, bytes, finalizing);
  }

  lemma PlacesEnd(config: Config, bytes: seq<Stamped>, at: nat, finalizing: bool)
    requires bytes == [] || ScanStep(config, bytes, finalizing).keepTail
    ensures Places(config, bytes, at, finalizing) == []
  {
    hide ScanStep, PlacesHere;
  }

  /** What a scan routes and counts is what it finds: each place once, in order. */
  lemma {:induction false} DrainRoutesPlaces<T>(config: Config, route: Route<T>, s: Session<T>, at: nat, finalizing: bool)
    ensures var r, places := Drain(config, route, s, finalizing), Places(config, s.buffer, at, finalizing);
            r.runtime == RouteAll(route, s.runtime, places) && Records(r.metrics) == Records(s.metrics) + |places|
    decreases |s.buffer|
  {
    hide ScanStep, PlacesHere, Finds, Places, Records, Whole, RecordsWhole;
    if s.buffer == [] || ScanStep(config, s.buffer, finalizing).keepTail {
      PlacesEnd(config, s.buffer, at, finalizing);
    } else {
      PlacesStep(config, s.buffer, at, finalizing);
      AdvanceRoutes(config, route, s, at, finalizing);
      var n := ScanStep(config, s.buffer, finalizing).next;
      DrainRoutesPlaces(config, route, Advance(config, route, s, finalizing), at + n, finalizing);
      RouteAllPrepend(route, s.runtime, PlacesHere(config, s.buffer, at),
                      Places(config, s.buffer[n..], at + n, finalizing));
    }
  }

  // ----- When they are disjoint --------------------------------------------------------------

  /** Every record the scan finds starts where its probe did. */
  predicate RecordsWhole(config: Config, bytes: seq<Stamped>, finalizing: bool)
    decreases |bytes|
  {
    bytes == [] || ScanStep(config, bytes, finalizing).keepTail
    || (StepProgress(config, bytes, finalizing);
        && (Finds(config, bytes) ==> Whole(config, bytes))
        && RecordsWhole(config, bytes[ScanStep(config, bytes, finalizing).next..], finalizing))
  }

  /** No byte that was probed for a record is probed or skipped again. */
  predicate NothingRescanned(config: Config, bytes: seq<Stamped>, finalizing: bool)
    decreases |bytes|
  {
    bytes == [] || ScanStep(config, bytes, finalizing).keepTail
    || (StepProgress(config, bytes, finalizing);
        && (Finds(config, bytes) ==> ScanStep(config, bytes, finalizing).next == Probed(config, bytes))
        && NothingRescanned(config, bytes[ScanStep(config, bytes, finalizing).next..], finalizing))
  }

  lemma {:induction false} NothingRescannedIffRecordsWhole(config: Config, bytes: seq<Stamped>, finalizing: bool)
    ensures NothingRescanned(config, bytes, finalizing) <==> RecordsWhole(config, bytes, finalizing)
    decreases |bytes|
  {
    if bytes != [] && !ScanStep(config, bytes, finalizing).keepTail {
      StepProgress(config, bytes, finalizing);
      if Finds(config, bytes) {
        StepIsExactIffWhole(config, bytes, finalizing);
      }
      hide ScanStep, Finds, Whole, Probed;
      NothingRescannedIffRecordsWhole(config, bytes[ScanStep(config, bytes, finalizing).next..], finalizing);
    }
  }

  ghost predicate AllSlices(stream: seq<Stamped>, places: seq<Place>, from: int) {
    forall i :: 0 <= i < |places| ==> IsSlice(stream, places[i]) && from <= places[i].start
  }

  predicate Disjoint(places: seq<Place>) {
    forall i, j :: 0 <= i < j < |places| ==> places[i].end <= places[j].start
  }

  predicate AllWhole(places: seq<Place>) {
    forall i :: 0 <= i < |places| ==> places[i].whole
  }

  /** No place starts before the scan has got there, and a record that is whole ends where the scan goes on. */
  predicate InScanOrder(places: seq<Place>) {
    && (forall i, j :: 0 <= i < j < |places| ==> places[i].next <= places[j].start)
    && (forall i :: 0 <= i < |places| && places[i].whole ==> places[i].end <= places[i].next)
  }

  /** A later record starts among the bytes of one that is not whole, behind the position where the scan went on. */
  predicate Overlap(places: seq<Place>) {
    exists i, j :: 0 <= i < j < |places|
                   && !places[i].whole && places[i].next <= places[j].start < places[i].end
  }

  lemma OverlapIffNotDisjoint(places: seq<Place>)
    requires InScanOrder(places)
    ensures Overlap(places) <==> !Disjoint(places)
    ensures AllWhole(places) ==> Disjoint(places)
  {
    if !Disjoint(places) {
      var i, j :| 0 <= i < j < |places| && places[i].end > places[j].start;
      assert places[i].next <= places[j].start;
    }
  }

  lemma PrependedAt(here: seq<Place>, rest: seq<Place>)
    requires |here| <= 1
    ensures forall i :: 0 <= i < |here + rest| ==> (here + rest)[i] == if i < |here| then here[0] else rest[i - |here|]
  {
  }

  lemma OrderPrepend(here: seq<Place>, rest: seq<Place>, at: int)
    requires |here| <= 1 && InScanOrder(rest) && forall i :: 0 <= i < |rest| ==> at <= rest[i].start
    requires here != [] ==> here[0].next == at && (here[0].whole ==> here[0].end <= at)
    ensures InScanOrder(here + rest)
  {
    PrependedAt(here, rest);
    var all, n := here + rest, |here|;
    forall i, j | 0 <= i < j < |all| ensures all[i].next <= all[j].start {
      assert all[j] == rest[j - n];
      assert i >= n ==> all[i] == rest[i - n];
    }
    forall i | 0 <= i < |all| && all[i].whole ensures all[i].end <= all[i].next {
      assert i >= n ==> all[i] == rest[i - n];
    }
  }

  lemma WholePrepend(here: seq<Place>, rest: seq<Place>)
    requires |here| <= 1
    ensures AllWhole(here + rest) <==> (here != [] ==> here[0].whole) && AllWhole(rest)
  {
    PrependedAt(here, rest);
    assert here != [] ==> (here + rest)[0] == here[0];
    assert forall i :: 0 <= i < |rest| ==> rest[i] == (here + rest)[i + |here|];
  }

  lemma PlacesPrepend(stream: seq<Stamped>, here: seq<Place>, rest: seq<Place>, from: int, at: int)
    requires |here| <= 1 && from <= at && AllSlices(stream, rest, at) && InScanOrder(rest)
    requires here != [] ==>
               && IsSlice(stream, here[0]) && from <= here[0].start
               && here[0].next == at && (here[0].whole ==> here[0].end <= at)
    ensures AllSlices(stream, here + rest, from) && InScanOrder(here + rest)
    ensures AllWhole(here + rest) <==> (here != [] ==> here[0].whole) && AllWhole(rest)
  {
    hide IsSlice, InScanOrder, AllWhole;
    PrependedAt(here, rest);
    OrderPrepend(here, rest, at);
    WholePrepend(here, rest);
  }

  /** Everything found is a slice of the stream, found in the order of the scan. */
  lemma {:induction false} PlacesAreSlices(config: Config, done: seq<Stamped>, bytes: seq<Stamped>, finalizing: bool)
    ensures var places := Places(config, bytes, |done|, finalizing);
            && AllSlices(done + bytes, places, |done|) && InScanOrder(places)
            && (RecordsWhole(config, bytes, finalizing) <==> AllWhole(places))
    decreases |bytes|
  {
    hide *;
    if bytes == [] || ScanStep(config, bytes, finalizing).keepTail {
      PlacesEnd(config, bytes, |done|, finalizing);
      NoPlaces(config, done + bytes, |done|, bytes, finalizing);
    } else {
      var n := ScanStep(config, bytes, finalizing).next;
      PlacesStep(config, bytes, |done|, finalizing);
      WholeStep(config, bytes, finalizing);
      HereFits(config, done, bytes, finalizing);
      PlacesAreSlices(config, done + bytes[..n], bytes[n..], finalizing);
      assert done + bytes[..n] + bytes[n..] == done + bytes;
      PlacesPrepend(done + bytes, PlacesHere(config, bytes, |done|),
                    Places(config, bytes[n..], |done| + n, finalizing), |done|, |done| + n);
    }
  }

  lemma NoPlaces(config: Config, stream: seq<Stamped>, from: int, bytes: seq<Stamped>, finalizing: bool)
    requires bytes == [] || ScanStep(config, bytes, finalizing).keepTail
    ensures AllSlices(stream, [], from) && InScanOrder([]) && AllWhole([]) && RecordsWhole(config, bytes, finalizing)
  {
    hide ScanStep;
  }

  /** What is found here, and that it ends where the scan goes on if it starts where its probe did. */
  lemma HereFits(config: Config, done: seq<Stamped>, bytes: seq<Stamped>, finalizing: bool)
    requires bytes != [] && !ScanStep(config, bytes, finalizing).keepTail
    ensures var here, n := PlacesHere(config, bytes, |done|), ScanStep(config, bytes, finalizing).next;
            && |here| <= 1 && (Finds(config, bytes) <==> here != [])
            && (here != [] ==>
                  && IsSlice(done + bytes, here[0]) && |done| <= here[0].start
                  && here[0].whole == Whole(config, bytes) && here[0].next == |done| + n
                  && (here[0].whole ==> here[0].end <= |done| + n))
  {
    StepFacts(config, done, bytes, finalizing);
    hide ScanStep, PlacesHere, Finds, IsSlice, Whole, Probed;
    if Finds(config, bytes) {
      StepIsExactIffWhole(config, bytes, finalizing);
    }
  }

  /**
   Everything found overlaps exactly when a later record starts among the bytes of one that does not
   start where its probe did; if all records do, nothing overlaps.
   */
  lemma PlacesOverlapIff(config: Config, done: seq<Stamped>, bytes: seq<Stamped>, finalizing: bool)
    ensures var places := Places(config, bytes, |done|, finalizing);
            && (Disjoint(places) <==> !Overlap(places))
            && (RecordsWhole(config, bytes, finalizing) ==> Disjoint(places))
  {
    hide *;
    PlacesAreSlices(config, done, bytes, finalizing);
    OverlapIffNotDisjoint(Places(config, bytes, |done|, finalizing));
  }

  /**
   However the stream is cut into reads, the session routes the valid ones of the slices that one scan
   of the whole stream finds, in order. They are disjoint exactly when no later record starts among the
   bytes of one that does not start where its probe did.
   */
  lemma RoutedSlices<T>(config: Config, route: Route<T>, s: Session<T>, chunks: seq<seq<Stamped>>)
    requires s.buffer == []
    ensures var stream := Flatten(chunks);
            var places := Places(config, stream, 0, false);
            && FeedChunks(config, route, s, chunks).runtime == RouteAll(route, s.runtime, places)
            && AllSlices(stream, places, 0)
            && (Disjoint(places) <==> !Overlap(places))
            && (RecordsWhole(config, stream, false) ==> Disjoint(places))
  {
    var stream := Flatten(chunks);
    hide Drain, Places, RecordsWhole, IsSlice, Disjoint, Overlap, AllWhole, InScanOrder;
    ChunkInvariance(config, route, s, chunks);
    assert [] + stream == stream;
    PlacesAreSlices(config, [], stream, false);
    PlacesOverlapIff(config, [], stream, false);
    if stream == [] {
      assert Places(config, stream, 0, false) == [] by { NothingPlaced(config); }
    } else {
      DrainRoutesPlaces(config, route, CountMore(Extend(s, stream), |stream|), 0, false);
    }
  }

  lemma NothingPlaced(config: Config)
    ensures Places(config, [], 0, false) == []
  {
  }

  // ----- A frame that is routed twice --------------------------------------------------------

  /** Bytes at which no record starts. */
  predicate StartsNothing(bytes: seq<byte>) {
    forall i :: 0 <= i < |bytes| ==>
      !NmeaChecksum.IsLeader(bytes[i]) && bytes[i] != Ubx.SYNC1 && bytes[i] != Rtcm.PREAMBLE
  }

  lemma DrainStep<T>(config: Config, route: Route<T>, s: Session<T>)
    requires s.buffer != [] && !ScanStep(config, s.buffer, false).keepTail
    ensures Drain(config, route, s, false) == Drain(config, route, Advance(config, route, s, false), false)
  {
    hide ScanStep, Advance;
  }

  lemma {:induction false} SkipsWhatStartsNothing<T>(config: Config, route: Route<T>, s: Session<T>, n: nat)
    requires n <= |s.buffer| && StartsNothing(Values(s.buffer)[..n])
    ensures Drain(config, route, s, false) == Drain(config, route, s.(buffer := s.buffer[n..]), false)
    decreases n
  {
    if n > 0 {
      var values := Values(s.buffer);
      assert values[..n][0] == s.buffer[0].value;
      assert ScanStep(config, s.buffer, false) == Step(1, false, 0, 0, 0, 0, None);
      var t := Advance(config, route, s, false);
      assert t == s.(buffer := s.buffer[1..]) && s.buffer[1..][n - 1..] == s.buffer[n..];
      assert Values(t.buffer)[..n - 1] == values[..n][1..];
      assert StartsNothing(values[..n][1..]) by {
        assert forall i :: 0 <= i < n - 1 ==> values[..n][1..][i] == values[..n][i + 1];
      }
      hide ScanStep, StartsNothing;
      SkipsWhatStartsNothing(config, route, t, n - 1);
      DrainStep(config, route, s);
    } else {
      assert s.buffer[0..] == s.buffer;
    }
  }

  /** `bytes` is one whole frame with a wrong checksum, and a frame of `m` is recovered from offset `k` of it. */
  predicate Recovers(max: nat, bytes: seq<byte>, k: nat, m: Ubx.Message) {
    var n := |Ubx.BuildUbxFrame(m)|;
    && |bytes| >= Ubx.HEADER_SIZE + Ubx.CHECKSUM_SIZE && bytes[0] == Ubx.SYNC1 && bytes[1] == Ubx.SYNC2
    && Ubx.DeclaredSize(bytes, 0) == |bytes| <= max
    && !Ubx.ChecksumMatches(bytes) && Ubx.FirstValidFrame(max, bytes, 1) == Some(k)
    && UbxStream.Carries(max, m) && k + n <= |bytes| && bytes[k..k + n] == Ubx.BuildUbxFrame(m)
  }

  lemma RecoveredReport(max: nat, held: Pending, k: nat, m: Ubx.Message)
    requires Recovers(max, Values(held), k, m)
    ensures Ubx.Report(max, held) == Ubx.FrameOf(Ubx.BuildUbxFrame(m), held[k].ts)
  {
    hide *;
    RecoveredLies(max, Values(held), k, m);
    BuiltIsValidAt(max, Values(held), k, m);
    Ubx.ReportCases(max, held);
  }

  /** A built frame inside other bytes is a valid frame there. */
  lemma BuiltIsValidAt(max: nat, bytes: seq<byte>, k: nat, m: Ubx.Message)
    requires var n := |Ubx.BuildUbxFrame(m)|;
             UbxStream.Carries(max, m) && k + n <= |bytes| && bytes[k..k + n] == Ubx.BuildUbxFrame(m)
    ensures Ubx.ValidFrameAt(max, bytes, k) && Ubx.DeclaredSize(bytes, k) == |Ubx.BuildUbxFrame(m)|
  {
    UbxStream.BuiltFrameFacts(m);
    var frame, n := Ubx.BuildUbxFrame(m), |Ubx.BuildUbxFrame(m)|;
    hide Ubx.BuildUbxFrame, Ubx.ChecksumMatches;
    assert bytes[k..k + n][0] == bytes[k] && bytes[k..k + n][1] == bytes[k + 1];
    assert bytes[k..k + n][4] == bytes[k + 4] && bytes[k..k + n][5] == bytes[k + 5];
  }

  lemma ScanStepUbx(config: Config, bytes: seq<Stamped>, frame: Ubx.UbxFrame)
    requires bytes != [] && bytes[0].value == Ubx.SYNC1 && frame.status == Valid
    requires ProbeFrom(UbxPush(config.maxUbx), [], bytes).result == RecordReady(frame)
    ensures ScanStep(config, bytes, false) == Step(|frame.rawBytes|, false, 0, 1, 0, 0, Some(RoutedUbx(frame)))
  {
    hide ProbeFrom;
  }

  lemma RecoversWhole(max: nat, stream: seq<Stamped>, k: nat, m: Ubx.Message)
    requires Recovers(max, Values(stream), k, m)
    ensures stream != [] && stream[0].value == Ubx.SYNC1 && k < |stream| && UbxStream.Carries(max, m)
    ensures ProbeFrom(UbxPush(max), [], stream).result == RecordReady(Ubx.Report(max, stream))
  {
    hide Ubx.BuildUbxFrame, Ubx.FirstValidFrame, Ubx.ChecksumMatches, Ubx.Report, ProbeFrom;
    assert stream[..|stream|] == stream;
    UbxProbeStart(max, stream);
  }

  /** The step at the front of such bytes moves on by the size of the recovered frame only. */
  lemma RecoveryStep(config: Config, stream: seq<Stamped>, k: nat, m: Ubx.Message)
    requires Recovers(config.maxUbx, Values(stream), k, m)
    ensures stream != [] && k < |stream|
    ensures var frame := Ubx.BuildUbxFrame(m);
            ScanStep(config, stream, false)
            == Step(|frame|, false, 0, 1, 0, 0, Some(RoutedUbx(Ubx.FrameOf(frame, stream[k].ts))))
  {
    hide *;
    RecoversWhole(config.maxUbx, stream, k, m);
    RecoveredReport(config.maxUbx, stream, k, m);
    BuiltIsReported(config.maxUbx, m, stream[k].ts);
    ScanStepUbx(config, stream, Ubx.FrameOf(Ubx.BuildUbxFrame(m), stream[k].ts));
  }

  lemma BuiltIsReported(max: nat, m: Ubx.Message, ts: Timestamp)
    requires UbxStream.Carries(max, m)
    ensures var f := Ubx.FrameOf(Ubx.BuildUbxFrame(m), ts); f.status == Valid && f.rawBytes == Ubx.BuildUbxFrame(m)
  {
    UbxStream.BuiltFrameReports(m, ts);
    hide Ubx.FrameOf, Ubx.BuildUbxFrame;
  }

  lemma AdvanceUbx<T>(config: Config, route: Route<T>, s: Session<T>, n: nat, frame: Routed)
    requires s.buffer != [] && ScanStep(config, s.buffer, false) == Step(n, false, 0, 1, 0, 0, Some(frame))
    ensures n <= |s.buffer|
    ensures Advance(config, route, s, false)
         == Session(s.buffer[n..], s.metrics.(ubxSeen := s.metrics.ubxSeen + 1), route(s.runtime, frame))
  {
    StepProgress(config, s.buffer, false);
    hide ScanStep;
  }

  /**
   A frame recovered at an offset of at least its own size is still ahead of the scan: it is routed once
   as recovered from the outer frame, and once more when the scan gets to it.
   */
  lemma RecoveredFrameIsRoutedTwice<T>(
      config: Config, route: Route<T>, s: Session<T>, stream: seq<Stamped>, k: nat, m: Ubx.Message)
    requires s.buffer == [] && Recovers(config.maxUbx, Values(stream), k, m)
    requires var n := |Ubx.BuildUbxFrame(m)|;
             n <= k && StartsNothing(Values(stream)[n..k]) && StartsNothing(Values(stream)[k + n..])
    ensures var frame := RoutedUbx(Ubx.FrameOf(Ubx.BuildUbxFrame(m), stream[k].ts));
            Feed(config, route, s, stream)
            == s.(metrics := s.metrics.(bytesSeen := s.metrics.bytesSeen + |stream|, ubxSeen := s.metrics.ubxSeen + 2),
                  runtime := route(route(s.runtime, frame), frame))
  {
    var b, n := Values(stream), |Ubx.BuildUbxFrame(m)|;
    hide *;
    RecoveryStep(config, stream, k, m);
    var frame := RoutedUbx(Ubx.FrameOf(Ubx.BuildUbxFrame(m), stream[k].ts));
    var metrics := s.metrics.(bytesSeen := s.metrics.bytesSeen + |stream|);
    RecoveredLies(config.maxUbx, b, k, m);
    FeedDrains(config, route, s, stream);
    var s0 := Session(stream, metrics, s.runtime);
    AdvanceUbx(config, route, s0, n, frame);
    DrainStep(config, route, s0);
    var s1 := Session(stream[n..], metrics.(ubxSeen := s.metrics.ubxSeen + 1), route(s.runtime, frame));
    assert Values(s1.buffer)[..k - n] == b[n..k] && s1.buffer[k - n..] == stream[k..];
    SkipsWhatStartsNothing(config, route, s1, k - n);
    assert Values(stream[k..])[..n] == b[k..k + n] && Values(stream[k..])[n..] == b[k + n..];
    BuiltAndNothingElse(config, route, s1.(buffer := stream[k..]), m);
  }

  /** A built frame, and then nothing. */
  lemma BuiltAndNothingElse<T>(config: Config, route: Route<T>, s: Session<T>, m: Ubx.Message)
    requires UbxStream.Carries(config.maxUbx, m) && |Ubx.BuildUbxFrame(m)| <= |s.buffer|
    requires var n := |Ubx.BuildUbxFrame(m)|;
             Values(s.buffer)[..n] == Ubx.BuildUbxFrame(m) && StartsNothing(Values(s.buffer)[n..])
    ensures Drain(config, route, s, false)
         == Session([], s.metrics.(ubxSeen := s.metrics.ubxSeen + 1),
                    route(s.runtime, RoutedUbx(Ubx.FrameOf(Ubx.BuildUbxFrame(m), s.buffer[0].ts))))
  {
    hide *;
    var n := |Ubx.BuildUbxFrame(m)|;
    assert Values(s.buffer[..n]) == Values(s.buffer)[..n];
    AdvanceBuilt(config, route, s, m, n);
    DrainStep(config, route, s);
    var t := Advance(config, route, s, false);
    assert Values(t.buffer)[..|t.buffer|] == Values(s.buffer)[n..] && t.buffer[|t.buffer|..] == [];
    SkipsWhatStartsNothing(config, route, t, |t.buffer|);
    NothingToDrain(config, route, t.(buffer := []));
  }

  lemma RecoveredLies(max: nat, bytes: seq<byte>, k: nat, m: Ubx.Message)
    requires Recovers(max, bytes, k, m)
    ensures var n := |Ubx.BuildUbxFrame(m)|;
            0 < n && k + n <= |bytes| && bytes[k..k + n] == Ubx.BuildUbxFrame(m) && UbxStream.Carries(max, m)
    ensures |bytes| >= Ubx.HEADER_SIZE + Ubx.CHECKSUM_SIZE
    ensures !Ubx.ChecksumMatches(bytes) && Ubx.FirstValidFrame(max, bytes, 1) == Some(k)
  {
    hide Ubx.FirstValidFrame, Ubx.ChecksumMatches;
  }

  lemma FeedDrains<T>(config: Config, route: Route<T>, s: Session<T>, stream: seq<Stamped>)
    requires s.buffer == [] && stream != []
    ensures Feed(config, route, s, stream)
         == Drain(config, route, Session(stream, s.metrics.(bytesSeen := s.metrics.bytesSeen + |stream|), s.runtime), false)
  {
    hide Drain;
    assert [] + stream == stream;
  }

  lemma NothingToDrain<T>(config: Config, route: Route<T>, s: Session<T>)
    requires s.buffer == []
    ensures Drain(config, route, s, false) == s
  {
  }

  /** A frame of ten payload bytes with a wrong checksum, the last eight of which are a valid frame. */
  const NESTED: seq<byte> := [0xB5, 0x62, 1, 1, 10, 0, 0, 0, 0xB5, 0x62, 1, 1, 0, 0, 2, 7, 0, 0]

  /** The checked bytes of the outer frame do not add up to the checksum it carries. */
  lemma NestedSum(data: seq<byte>)
    requires data == [1, 1, 10, 0, 0, 0, 0xB5, 0x62, 1, 1, 0, 0, 2, 7]
    ensures UbxChecksum.Sum(data) == 302
  {
    var head, tail: seq<byte> := [1, 1, 10, 0, 0, 0, 0xB5], [0x62, 1, 1, 0, 0, 2, 7];
    assert data == head + tail;
    UbxChecksum.SumConcat(head, tail);
    SumOfSeven(head);
    SumOfSeven(tail);
    hide UbxChecksum.Sum;
  }

  lemma SumOfSeven(d: seq<byte>)
    requires |d| == 7
    ensures UbxChecksum.Sum(d) == d[0] as nat + d[1] + d[2] + d[3] + d[4] + d[5] + d[6]
  {
    hide UbxChecksum.Sum;
    UbxChecksum.SumPrefix(d, 0);
    UbxChecksum.SumPrefix(d, 1);
    UbxChecksum.SumPrefix(d, 2);
    UbxChecksum.SumPrefix(d, 3);
    UbxChecksum.SumPrefix(d, 4);
    UbxChecksum.SumPrefix(d, 5);
    UbxChecksum.SumPrefix(d, 6);
    UbxChecksum.SumConcat([], []);
    assert d[..0] == [] && d[..7] == d && [] + [] == d[..0];
  }

  lemma ZerosStartNothing(bytes: seq<byte>)
    requires forall i :: 0 <= i < |bytes| ==> bytes[i] == 0
    ensures StartsNothing(bytes)
  {
  }

  lemma NestedBytes(b: seq<byte>)
    requires b == NESTED
    ensures |b| == 18
    ensures b[0] == 0xB5 && b[1] == 0x62 && b[2] == 1 && b[3] == 1 && b[4] == 10 && b[5] == 0 && b[6] == 0 && b[7] == 0
    ensures b[8] == 0xB5 && b[9] == 0x62 && b[10] == 1 && b[11] == 1 && b[12] == 0 && b[13] == 0 && b[14] == 2 && b[15] == 7
    ensures b[16] == 0 && b[17] == 0
  {
  }

  lemma NestedFacts(b: seq<byte>)
    requires b == NESTED
    ensures |b| == 18 && b[0] == Ubx.SYNC1 && b[1] == Ubx.SYNC2 && Ubx.DeclaredSize(b, 0) == 18
    ensures b[16] == 0 && b[17] == 0
    ensures b[2..16] == [1, 1, 10, 0, 0, 0, 0xB5, 0x62, 1, 1, 0, 0, 2, 7]
    ensures b[8..16] == UbxStream.PING_FRAME && b[8] == Ubx.SYNC1 && b[9] == Ubx.SYNC2 && Ubx.DeclaredSize(b, 8) == 8
    ensures forall i :: 1 <= i < 8 ==> b[i] != Ubx.SYNC1
    ensures StartsNothing(b[8..8]) && StartsNothing(b[16..])
  {
    hide StartsNothing;
    NestedBytes(b);
    assert b[2..16] == [1, 1, 10, 0, 0, 0, 0xB5, 0x62, 1, 1, 0, 0, 2, 7];
    assert b[8..16] == UbxStream.PING_FRAME;
    assert b[16..] == [0, 0] && b[8..8] == [];
    ZerosStartNothing([0, 0]);
    ZerosStartNothing([]);
  }

  /** The outer frame fails its checksum, and the frame recovered from it starts at its ninth byte. */
  lemma NestedRecovers(max: nat, b: seq<byte>)
    requires max >= 18 && b == NESTED
    ensures Recovers(max, b, 8, UbxStream.PING) && |Ubx.BuildUbxFrame(UbxStream.PING)| == 8
    ensures StartsNothing(b[8..8]) && StartsNothing(b[16..])
  {
    hide *;
    NestedFacts(b);
    NestedFails(b);
    UbxStream.PingBytes();
    PingIsCarried(max);
    BuiltIsValidAt(max, b, 8, UbxStream.PING);
    OnlySyncIsFirst(max, b, 8);
    PartsRecover(max, b, 8, UbxStream.PING);
  }

  lemma PartsRecover(max: nat, b: seq<byte>, k: nat, m: Ubx.Message)
    requires |b| >= Ubx.HEADER_SIZE + Ubx.CHECKSUM_SIZE && b[0] == Ubx.SYNC1 && b[1] == Ubx.SYNC2
    requires Ubx.DeclaredSize(b, 0) == |b| <= max && !Ubx.ChecksumMatches(b) && Ubx.FirstValidFrame(max, b, 1) == Some(k)
    requires UbxStream.Carries(max, m) && k + |Ubx.BuildUbxFrame(m)| <= |b|
    requires b[k..k + |Ubx.BuildUbxFrame(m)|] == Ubx.BuildUbxFrame(m)
    ensures Recovers(max, b, k, m)
  {
    hide Ubx.BuildUbxFrame, Ubx.FirstValidFrame, Ubx.ChecksumMatches, UbxStream.Carries;
  }

  lemma NestedFails(b: seq<byte>)
    requires b == NESTED
    ensures |b| == 18 && !Ubx.ChecksumMatches(b)
  {
    hide *;
    NestedFacts(b);
    NestedSum(b[2..16]);
    WrongSum(b);
  }

  lemma WrongSum(b: seq<byte>)
    requires |b| == 18 && b[16] == 0 && UbxChecksum.Sum(b[2..16]) == 302
    ensures !Ubx.ChecksumMatches(b)
  {
    UbxChecksum.FletcherClosedForm(b[2..16]);
    hide UbxChecksum.Fletcher, UbxChecksum.Sum;
  }

  lemma PingIsCarried(max: nat)
    requires max >= 8
    ensures UbxStream.Carries(max, UbxStream.PING)
  {
  }

  lemma OnlySyncIsFirst(max: nat, b: seq<byte>, k: nat)
    requires 1 <= k && Ubx.ValidFrameAt(max, b, k) && forall i :: 1 <= i < k && i < |b| ==> b[i] != Ubx.SYNC1
    ensures Ubx.FirstValidFrame(max, b, 1) == Some(k)
  {
    hide Ubx.ChecksumMatches, Ubx.FirstValidFrame;
    UbxStream.FirstIsLeast(max, b, k);
  }

  /** The same for eighteen bytes: the eight of the inner frame are routed twice. */
  lemma NestedFrameIsRoutedTwice<T>(config: Config, route: Route<T>, s: Session<T>, stream: seq<Stamped>)
    requires config.maxUbx >= 18 && s.buffer == [] && Values(stream) == NESTED
    ensures var frame, r := RoutedUbx(Ubx.FrameOf(UbxStream.PING_FRAME, stream[8].ts)), Feed(config, route, s, stream);
            && r.buffer == [] && r.metrics.ubxSeen == s.metrics.ubxSeen + 2
            && r.metrics.malformed == s.metrics.malformed
            && r.runtime == route(route(s.runtime, frame), frame)
  {
    hide Recovers, StartsNothing, Feed, Ubx.BuildUbxFrame, Ubx.FrameOf;
    NestedRecovers(config.maxUbx, Values(stream));
    UbxStream.PingBytes();
    RecoveredFrameIsRoutedTwice(config, route, s, stream, 8, UbxStream.PING);
  }
}
