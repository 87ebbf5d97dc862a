/**
 The mixed-stream u-blox session, `gnss_driver/src/ublox_session.cpp`: the retained buffer is probed
 again from its first sync byte on every feed. What happens to a routed record (parsing, the runtime
 aggregator, the freshness tracker and the counters they keep) is one deterministic function `route`
 on a state of any type.
 */
module UbloxSession {
  import opened Bits
  import opened Framing
  import Nmea = NmeaFramer
  import NmeaChecksum
  import Ubx = UbxFramer
  import UbxStream
  import Rtcm = RtcmFramer

  datatype Config = Config(maxNmea: nat, maxUbx: nat, maxRtcm: nat)

  datatype Routed =
    | RoutedNmea(sentence: Nmea.NmeaSentence)
    | RoutedUbx(ubx: Ubx.UbxFrame)
    | RoutedRtcm(rtcm: Rtcm.RtcmFrame)

  datatype Metrics = Metrics(bytesSeen: nat, nmeaSeen: nat, ubxSeen: nat, rtcmSeen: nat, malformed: nat)

  /** Everything a session holds besides its configuration. */
  datatype Session<T> = Session(buffer: seq<Stamped>, metrics: Metrics, runtime: T)

  type Route<!T> = (T, Routed) -> T

  // ----- Probing ---------------------------------------------------------------------------

  datatype Probe<+R> = Probe(result: ParserResult<R>, consumed: nat)

  /** Pushing bytes until the framer answers, or finalizing it when the bytes run out. */
  function ProbeFrom<R>(push: Framer<R>, held: Pending, bytes: seq<Stamped>): (probe: Probe<R>)
    ensures probe.consumed <= |bytes|
    decreases |bytes|
  {
    if bytes == [] then Probe(Framing.Finalize(held), 0)
    else
      var (next, result) := push(held, bytes[0]);
      if result.NeedMoreData? || result.Idle? then
        var rest := ProbeFrom(push, next, bytes[1..]);
        Probe(rest.result, rest.consumed + 1)
      else Probe(result, 1)
  }

  method ProbeAtOffset<R>(push: Framer<R>, bytes: seq<Stamped>, start: nat) returns (probe: Probe<R>)
    requires start <= |bytes|
    ensures probe == ProbeFrom(push, [], bytes[start..])
  {
    var held: Pending := [];
    var index := start;
    while index < |bytes|
      invariant start <= index <= |bytes|
      invariant var rest := ProbeFrom(push, held, bytes[index..]);
                ProbeFrom(push, [], bytes[start..]) == Probe(rest.result, rest.consumed + (index - start))
    {
      var (next, result) := push(held, bytes[index]);
      held := next;
      if !(result.NeedMoreData? || result.Idle?) {
        return Probe(result, index - start + 1);
      }
      index := index + 1;
    }
    return Probe(Framing.Finalize(held), |bytes| - start);
  }

  /**
   What the session relies on in a framer: it only asks for more data while it holds some, only
   finalizing makes it report a truncation, and a record is no longer than the bytes it came from.
   */
  ghost predicate Dependable<R(!new)>(push: Framer<R>, size: R -> nat) {
    forall held: Pending, s: Stamped :: DependableAt(push, size, held, s)
  }

  predicate DependableAt<R>(push: Framer<R>, size: R -> nat, held: Pending, s: Stamped) {
    var (next, result) := push(held, s);
    && !result.Truncated? && !result.Idle?
    && (result.NeedMoreData? ==> next != [] && |next| <= |held| + 1)
    && (result.RecordReady? ==> 1 <= size(result.record) <= |held| + 1)
  }

  lemma {:induction false} ProbeFacts<R(!new)>(push: Framer<R>, size: R -> nat, held: Pending, bytes: seq<Stamped>)
    requires Dependable(push, size) && (bytes != [] || held != [])
    ensures var probe := ProbeFrom(push, held, bytes);
            && !probe.result.Idle? && !probe.result.NeedMoreData?
            && (probe.result.RecordReady? ==> 1 <= size(probe.result.record) <= |held| + probe.consumed)
    decreases |bytes|
  {
    if bytes != [] {
      assert DependableAt(push, size, held, bytes[0]);
      var (next, result) := push(held, bytes[0]);
      if result.NeedMoreData? {
        ProbeFacts(push, size, next, bytes[1..]);
      }
    }
  }

  /** An answer reached before the bytes ran out does not change when more bytes follow. */
  lemma {:induction false} ProbeStable<R(!new)>(push: Framer<R>, size: R -> nat, held: Pending, a: seq<Stamped>, b: seq<Stamped>)
    requires Dependable(push, size) && (a != [] || held != [])
    requires !ProbeFrom(push, held, a).result.Truncated?
    ensures ProbeFrom(push, held, a + b) == ProbeFrom(push, held, a)
    decreases |a|
  {
    if a != [] {
      assert DependableAt(push, size, held, a[0]);
      assert (a + b)[0] == a[0] && (a + b)[1..] == a[1..] + b;
      var (next, result) := push(held, a[0]);
      if result.NeedMoreData? {
        ProbeStable(push, size, next, a[1..], b);
      }
    }
  }

  function NmeaPush(max: nat): Framer<Nmea.NmeaSentence> {
    Nmea.FramerFor(max)
  }

  function UbxPush(max: nat): Framer<Ubx.UbxFrame> {
    UbxStream.FramerFor(max)
  }

  function RtcmPush(max: nat): Framer<Rtcm.RtcmFrame> {
    Rtcm.FramerFor(max)
  }

  function NmeaSize(s: Nmea.NmeaSentence): nat { |s.rawBytes| }

  function UbxSize(f: Ubx.UbxFrame): nat { |f.rawBytes| }

  function RtcmSize(f: Rtcm.RtcmFrame): nat { |f.rawBytes| }

  lemma NmeaDependable(max: nat)
    ensures Dependable(NmeaPush(max), NmeaSize)
  {
    hide Nmea.SentenceOf;
  }

  lemma UbxDependable(max: nat)
    ensures Dependable(UbxPush(max), UbxSize)
  {
    hide Ubx.FrameOf, Ubx.ReportedSlice;
  }

  lemma RtcmDependable(max: nat)
    ensures Dependable(RtcmPush(max), RtcmSize)
  {
    hide Rtcm.FrameOf, Rtcm.ReportedSlice;
  }

  // ----- One step at the front of the buffer -----------------------------------------------

  /** How far the scan moves, whether it stops there, and what it counted and routed. */
  datatype Step = Step(
    next: nat, keepTail: bool, nmeaSeen: nat, ubxSeen: nat, rtcmSeen: nat, malformed: nat, routed: Option<Routed>)

  function Seen(nmea: nat, ubx: nat, rtcm: nat, size: nat, valid: bool, record: Routed): Step {
    Step(size, false, nmea, ubx, rtcm, if valid then 0 else 1, if valid then Some(record) else None)
  }

  /** The answers other than a record are treated alike for all three protocols. */
  function NoRecord<R>(result: ParserResult<R>, finalizing: bool, available: nat): Step {
    if result.Truncated? then
      if finalizing then Step(available, false, 0, 0, 0, 1, None) else Step(0, true, 0, 0, 0, 0, None)
    else Step(1, false, 0, 0, 0, if result.InvalidData? || result.Overflow? then 1 else 0, None)
  }

  function NmeaStep(max: nat, bytes: seq<Stamped>, finalizing: bool): Step {
    var result := ProbeFrom(NmeaPush(max), [], bytes).result;
    if result.RecordReady? then
      Seen(1, 0, 0, NmeaSize(result.record), result.record.validation.status == Valid, RoutedNmea(result.record))
    else NoRecord(result, finalizing, |bytes|)
  }

  function UbxStep(max: nat, bytes: seq<Stamped>, finalizing: bool): Step {
    var result := ProbeFrom(UbxPush(max), [], bytes).result;
    if result.RecordReady? then
      Seen(0, 1, 0, UbxSize(result.record), result.record.status == Valid, RoutedUbx(result.record))
    else NoRecord(result, finalizing, |bytes|)
  }

  function RtcmStep(max: nat, bytes: seq<Stamped>, finalizing: bool): Step {
    var result := ProbeFrom(RtcmPush(max), [], bytes).result;
    if result.RecordReady? then
      Seen(0, 0, 1, RtcmSize(result.record), result.record.status == Valid, RoutedRtcm(result.record))
    else NoRecord(result, finalizing, |bytes|)
  }

  /** The step at the front of `bytes`, chosen by its first byte. */
  function ScanStep(config: Config, bytes: seq<Stamped>, finalizing: bool): Step
    requires bytes != []
  {
    var first := bytes[0].value;
    if NmeaChecksum.IsLeader(first) then NmeaStep(config.maxNmea, bytes, finalizing)
    else if first == Ubx.SYNC1 then UbxStep(config.maxUbx, bytes, finalizing)
    else if first == Rtcm.PREAMBLE then RtcmStep(config.maxRtcm, bytes, finalizing)
    else Step(1, false, 0, 0, 0, 0, None)
  }

  /** Every step makes progress inside the buffer, except the one that keeps the tail. */
  lemma StepProgress(config: Config, bytes: seq<Stamped>, finalizing: bool)
    requires bytes != []
    ensures var step := ScanStep(config, bytes, finalizing);
            && (step.keepTail ==> !finalizing && step == Step(0, true, 0, 0, 0, 0, None))
            && (!step.keepTail ==> 1 <= step.next <= |bytes|)
  {
    NmeaDependable(config.maxNmea);
    UbxDependable(config.maxUbx);
    RtcmDependable(config.maxRtcm);
    hide ProbeFrom, Dependable, Nmea.Push, Ubx.Push, Rtcm.Push;
    ProbeFacts(NmeaPush(config.maxNmea), NmeaSize, [], bytes);
    ProbeFacts(UbxPush(config.maxUbx), UbxSize, [], bytes);
    ProbeFacts(RtcmPush(config.maxRtcm), RtcmSize, [], bytes);
  }

  /** A step that does not keep the tail is the same step when more bytes follow. */
  lemma StepStable(config: Config, a: seq<Stamped>, b: seq<Stamped>)
    requires a != [] && !ScanStep(config, a, false).keepTail
    ensures ScanStep(config, a + b, false) == ScanStep(config, a, false)
  {
    NmeaDependable(config.maxNmea);
    UbxDependable(config.maxUbx);
    RtcmDependable(config.maxRtcm);
    hide ProbeFrom, Dependable, Nmea.Push, Ubx.Push, Rtcm.Push;
    assert (a + b)[0] == a[0];
    var first := a[0].value;
    if NmeaChecksum.IsLeader(first) {
      ProbeStable(NmeaPush(config.maxNmea), NmeaSize, [], a, b);
    } else if first == Ubx.SYNC1 {
      ProbeStable(UbxPush(config.maxUbx), UbxSize, [], a, b);
    } else if first == Rtcm.PREAMBLE {
      ProbeStable(RtcmPush(config.maxRtcm), RtcmSize, [], a, b);
    }
  }

  // ----- Draining the buffer and feeding the session ---------------------------------------

  function Apply<T>(route: Route<T>, s: Session<T>, step: Step): Session<T> {
    s.(metrics := Metrics(s.metrics.bytesSeen, s.metrics.nmeaSeen + step.nmeaSeen,
                          s.metrics.ubxSeen + step.ubxSeen, s.metrics.rtcmSeen + step.rtcmSeen,
                          s.metrics.malformed + step.malformed),
       runtime := if step.routed.Some? then route(s.runtime, step.routed.value) else s.runtime)
  }

  /** The session after a step that does not keep the tail. */
  function Advance<T>(config: Config, route: Route<T>, s: Session<T>, finalizing: bool): (r: Session<T>)
    requires s.buffer != [] && !ScanStep(config, s.buffer, finalizing).keepTail
    ensures |r.buffer| < |s.buffer|
  {
    StepProgress(config, s.buffer, finalizing);
    var step := ScanStep(config, s.buffer, finalizing);
    Apply(route, s, step).(buffer := s.buffer[step.next..])
  }

  /** Steps from the front of the buffer until it is empty or a step keeps the tail. */
  function Drain<T>(config: Config, route: Route<T>, s: Session<T>, finalizing: bool): Session<T>
    decreases |s.buffer|
  {
    if s.buffer == [] || ScanStep(config, s.buffer, finalizing).keepTail then s
    else Drain(config, route, Advance(config, route, s, finalizing), finalizing)
  }

  function Extend<T>(s: Session<T>, more: seq<Stamped>): Session<T> {
    s.(buffer := s.buffer + more)
  }

  function CountMore<T>(s: Session<T>, n: nat): Session<T> {
    s.(metrics := s.metrics.(bytesSeen := s.metrics.bytesSeen + n))
  }

  /** `FeedBytes`: nothing happens for an empty read. */
  function Feed<T>(config: Config, route: Route<T>, s: Session<T>, chunk: seq<Stamped>): Session<T> {
    if chunk == [] then s
    else Drain(config, route, CountMore(Extend(s, chunk), |chunk|), false)
  }

  function Finish<T>(config: Config, route: Route<T>, s: Session<T>): Session<T> {
    Drain(config, route, s, true)
  }

  function Fresh<T>(initial: T): Session<T> {
    Session([], Metrics(0, 0, 0, 0, 0), initial)
  }

  lemma AdvanceExtend<T>(config: Config, route: Route<T>, s: Session<T>, more: seq<Stamped>)
    requires s.buffer != [] && !ScanStep(config, s.buffer, false).keepTail
    ensures !ScanStep(config, s.buffer + more, false).keepTail
    ensures Advance(config, route, Extend(s, more), false) == Extend(Advance(config, route, s, false), more)
  {
    StepProgress(config, s.buffer, false);
    StepStable(config, s.buffer, more);
    hide ScanStep;
    var step := ScanStep(config, s.buffer, false);
    assert (s.buffer + more)[step.next..] == s.buffer[step.next..] + more;
  }

  /** Bytes that arrive while the buffer is being drained can as well arrive afterwards. */
  lemma {:induction false} DrainAppend<T>(config: Config, route: Route<T>, s: Session<T>, more: seq<Stamped>)
    ensures Drain(config, route, Extend(s, more), false)
         == Drain(config, route, Extend(Drain(config, route, s, false), more), false)
    decreases |s.buffer|
  {
    hide ScanStep, Advance;
    if s.buffer != [] && !ScanStep(config, s.buffer, false).keepTail {
      AdvanceExtend(config, route, s, more);
      DrainAppend(config, route, Advance(config, route, s, false), more);
    }
  }

  lemma AdvanceCount<T>(config: Config, route: Route<T>, s: Session<T>, n: nat)
    requires s.buffer != [] && !ScanStep(config, s.buffer, false).keepTail
    ensures Advance(config, route, CountMore(s, n), false) == CountMore(Advance(config, route, s, false), n)
  {
    hide ScanStep;
  }

  /** The scan neither reads nor changes the number of bytes seen. */
  lemma {:induction false} DrainCount<T>(config: Config, route: Route<T>, s: Session<T>, n: nat)
    ensures Drain(config, route, CountMore(s, n), false) == CountMore(Drain(config, route, s, false), n)
    decreases |s.buffer|
  {
    hide ScanStep, Advance;
    if s.buffer != [] && !ScanStep(config, s.buffer, false).keepTail {
      AdvanceCount(config, route, s, n);
      DrainCount(config, route, Advance(config, route, s, false), n);
    }
  }

  /** Feeding two chunks one after the other is feeding them joined. */
  lemma FeedJoin<T>(config: Config, route: Route<T>, s: Session<T>, a: seq<Stamped>, b: seq<Stamped>)
    ensures Feed(config, route, Feed(config, route, s, a), b) == Feed(config, route, s, a + b)
  {
    hide Drain;
    if a == [] {
      assert a + b == b;
    } else if b == [] {
      assert a + b == a;
    } else {
      var first := CountMore(Extend(s, a), |a|);
      DrainCount(config, route, Extend(Drain(config, route, first, false), b), |b|);
      DrainAppend(config, route, first, b);
      DrainCount(config, route, Extend(first, b), |b|);
      assert (s.buffer + a) + b == s.buffer + (a + b);
    }
  }

  function Flatten(chunks: seq<seq<Stamped>>): seq<Stamped> {
    if chunks == [] then [] else chunks[0] + Flatten(chunks[1..])
  }

  function FeedChunks<T>(config: Config, route: Route<T>, s: Session<T>, chunks: seq<seq<Stamped>>): Session<T>
    decreases |chunks|
  {
    if chunks == [] then s else FeedChunks(config, route, Feed(config, route, s, chunks[0]), chunks[1..])
  }

  /**
   Chunk invariance: however a stream is cut into reads, the session ends with the same leftover
   buffer, the same counters and the same records routed in the same order as after one read.
   */
  lemma {:induction false} ChunkInvariance<T>(config: Config, route: Route<T>, s: Session<T>, chunks: seq<seq<Stamped>>)
    ensures FeedChunks(config, route, s, chunks) == Feed(config, route, s, Flatten(chunks))
    decreases |chunks|
  {
    if chunks != [] {
      ChunkInvariance(config, route, Feed(config, route, s, chunks[0]), chunks[1..]);
      FeedJoin(config, route, s, chunks[0], Flatten(chunks[1..]));
    }
  }

  /** Finalizing leaves nothing in the buffer. */
  lemma {:induction false} FinishEmpties<T>(config: Config, route: Route<T>, s: Session<T>)
    ensures Finish(config, route, s).buffer == []
    decreases |s.buffer|
  {
    if s.buffer != [] {
      StepProgress(config, s.buffer, true);
      hide ScanStep, Advance;
      FinishEmpties(config, route, Advance(config, route, s, true));
    }
  }

  /** The step that keeps a tail while reading drops it whole, as one malformed frame, when finalizing. */
  lemma KeptTailIsDropped(config: Config, bytes: seq<Stamped>)
    requires bytes != [] && ScanStep(config, bytes, false).keepTail
    ensures ScanStep(config, bytes, true) == Step(|bytes|, false, 0, 0, 0, 1, None)
  {
    hide ProbeFrom;
  }

  /** A scan stops only at the end of the buffer or in front of a tail it keeps. */
  lemma {:induction false} DrainRests<T>(config: Config, route: Route<T>, s: Session<T>)
    ensures var r := Drain(config, route, s, false);
            r.buffer == [] || ScanStep(config, r.buffer, false).keepTail
    decreases |s.buffer|
  {
    hide ScanStep, Advance;
    if s.buffer != [] && !ScanStep(config, s.buffer, false).keepTail {
      DrainRests(config, route, Advance(config, route, s, false));
    }
  }

  /** What finalizing does to a session at rest. */
  lemma FinishAtRest<T>(config: Config, route: Route<T>, s: Session<T>)
    requires s.buffer == [] || ScanStep(config, s.buffer, false).keepTail
    ensures var dropped := if s.buffer == [] then 0 else 1;
            Finish(config, route, s)
              == Session([], s.metrics.(malformed := s.metrics.malformed + dropped), s.runtime)
  {
    if s.buffer != [] {
      KeptTailIsDropped(config, s.buffer);
      hide ScanStep;
      var r := Advance(config, route, s, true);
      assert s.buffer[|s.buffer|..] == [];
      assert Drain(config, route, r, true) == r;
    }
  }

  /**
   After any reads, finalizing routes nothing and counts nothing seen: it empties the buffer and
   counts one malformed frame if and only if bytes had been left in it.
   */
  lemma FinishCountsTheTail<T>(config: Config, route: Route<T>, s: Session<T>, chunks: seq<seq<Stamped>>)
    requires s.buffer == []
    ensures var r := FeedChunks(config, route, s, chunks);
            var f := Finish(config, route, r);
            && f.buffer == [] && f.runtime == r.runtime
            && f.metrics.bytesSeen == r.metrics.bytesSeen && f.metrics.nmeaSeen == r.metrics.nmeaSeen
            && f.metrics.ubxSeen == r.metrics.ubxSeen && f.metrics.rtcmSeen == r.metrics.rtcmSeen
            && f.metrics.malformed == r.metrics.malformed + (if r.buffer == [] then 0 else 1)
  {
    hide Drain, ScanStep, Finish;
    ChunkInvariance(config, route, s, chunks);
    var stream := Flatten(chunks);
    DrainRests(config, route, CountMore(Extend(s, stream), |stream|));
    FinishAtRest(config, route, FeedChunks(config, route, s, chunks));
  }

  // ----- Built frames are routed ------------------------------------------------------------

  lemma {:induction false} ProbeBuilt(max: nat, m: Ubx.Message, input: seq<Stamped>, rest: seq<Stamped>, k: nat)
    requires UbxStream.Carries(max, m) && Values(input) == Ubx.BuildUbxFrame(m) && k < |input|
    ensures ProbeFrom(UbxPush(max), input[..k], input[k..] + rest)
         == Probe(RecordReady(Ubx.FrameOf(Ubx.BuildUbxFrame(m), input[0].ts)), |input| - k)
    decreases |input| - k
  {
    UbxStream.PushBuiltByte(max, m, input, k);
    hide Ubx.Push, Ubx.FrameOf, Ubx.BuildUbxFrame, UbxStream.Carries;
    var bytes := input[k..] + rest;
    assert bytes[0] == input[k] && bytes[1..] == input[k + 1..] + rest;
    if k + 1 < |input| {
      ProbeBuilt(max, m, input, rest, k + 1);
    }
  }

  /** A built frame at the front of the buffer is consumed whole and routed. */
  lemma AdvanceBuilt<T>(config: Config, route: Route<T>, s: Session<T>, m: Ubx.Message, n: nat)
    requires UbxStream.Carries(config.maxUbx, m) && n <= |s.buffer|
    requires Values(s.buffer[..n]) == Ubx.BuildUbxFrame(m)
    ensures !ScanStep(config, s.buffer, false).keepTail
    ensures Advance(config, route, s, false)
         == Session(s.buffer[n..], s.metrics.(ubxSeen := s.metrics.ubxSeen + 1),
                    route(s.runtime, RoutedUbx(Ubx.FrameOf(Ubx.BuildUbxFrame(m), s.buffer[0].ts))))
  {
    var frame, rest := s.buffer[..n], s.buffer[n..];
    ProbeBuilt(config.maxUbx, m, frame, rest, 0);
    UbxStream.BuiltFrameFacts(m);
    assert Values(frame)[0] == Ubx.SYNC1;
    hide ProbeFrom, Ubx.FrameOf, Ubx.BuildUbxFrame, Ubx.ChecksumMatches, Ubx.DeclaredSize;
    assert frame[..0] == [] && frame[0..] + rest == s.buffer;
  }

  function RouteBuilt<T>(route: Route<T>, runtime: T, messages: seq<Ubx.Message>, input: seq<Stamped>): T
    requires Values(input) == UbxStream.Wire(messages)
    decreases |messages|
  {
    if messages == [] then runtime
    else
      var frame := Ubx.BuildUbxFrame(messages[0]);
      assert Values(input[|frame|..]) == Values(input)[|frame|..] == UbxStream.Wire(messages[1..]);
      RouteBuilt(route, route(runtime, RoutedUbx(Ubx.FrameOf(frame, input[0].ts))), messages[1..], input[|frame|..])
  }

  /**
   Built frames, in reads of any size, are each routed once, in order and intact; nothing is
   counted malformed and nothing stays behind.
   */
  lemma {:induction false} DrainBuilt<T>(config: Config, route: Route<T>, s: Session<T>, messages: seq<Ubx.Message>)
    requires forall i :: 0 <= i < |messages| ==> UbxStream.Carries(config.maxUbx, messages[i])
    requires Values(s.buffer) == UbxStream.Wire(messages)
    ensures Drain(config, route, s, false)
         == Session([], s.metrics.(ubxSeen := s.metrics.ubxSeen + |messages|),
                    RouteBuilt(route, s.runtime, messages, s.buffer))
    decreases |messages|
  {
    if messages != [] {
      var n := |Ubx.BuildUbxFrame(messages[0])|;
      assert Values(s.buffer[..n]) == Values(s.buffer)[..n] == Ubx.BuildUbxFrame(messages[0]);
      assert Values(s.buffer[n..]) == Values(s.buffer)[n..] == UbxStream.Wire(messages[1..]);
      AdvanceBuilt(config, route, s, messages[0], n);
      hide ScanStep, Advance, Ubx.BuildUbxFrame, Ubx.FrameOf, UbxStream.Carries;
      DrainBuilt(config, route, Advance(config, route, s, false), messages[1..]);
    } else {
      assert s.buffer == [];
    }
  }

  lemma BuiltFramesAreRouted<T>(
      config: Config, route: Route<T>, s: Session<T>, messages: seq<Ubx.Message>, chunks: seq<seq<Stamped>>)
    requires forall i :: 0 <= i < |messages| ==> UbxStream.Carries(config.maxUbx, messages[i])
    requires s.buffer == [] && messages != [] && Values(Flatten(chunks)) == UbxStream.Wire(messages)
    ensures var r := FeedChunks(config, route, s, chunks);
            && r.buffer == [] && r.metrics.malformed == s.metrics.malformed
            && r.metrics.ubxSeen == s.metrics.ubxSeen + |messages|
            && r.runtime == RouteBuilt(route, s.runtime, messages, Flatten(chunks))
  {
    hide Drain;
    var stream := Flatten(chunks);
    ChunkInvariance(config, route, s, chunks);
    assert UbxStream.Wire(messages) != [];
    assert [] + stream == stream;
    DrainBuilt(config, route, CountMore(Extend(s, stream), |stream|), messages);
  }

  lemma TwoSyncBytes(max: nat, a: Stamped, b: Stamped)
    requires a.value == Ubx.SYNC1 && b.value == Ubx.SYNC1
    ensures UbxPush(max)([], a) == ([a], NeedMoreData) && UbxPush(max)([a], b) == ([b], NeedMoreData)
  {
    hide Ubx.Report;
  }

  lemma ProbeTwoMore<R>(push: Framer<R>, bytes: seq<Stamped>, held: Pending)
    requires |bytes| >= 2 && push([], bytes[0]).1.NeedMoreData?
    requires push(push([], bytes[0]).0, bytes[1]) == (held, NeedMoreData)
    ensures var rest := ProbeFrom(push, held, bytes[2..]);
            ProbeFrom(push, [], bytes) == Probe(rest.result, rest.consumed + 2)
  {
    assert bytes[1..][0] == bytes[1] && bytes[1..][1..] == bytes[2..];
  }

  lemma ProbeAfterRestart(max: nat, m: Ubx.Message, frame: seq<Stamped>, rest: seq<Stamped>, b: seq<Stamped>)
    requires UbxStream.Carries(max, m) && Values(frame) == Ubx.BuildUbxFrame(m)
    requires b == [Stamped(Ubx.SYNC1, None)] + frame + rest
    ensures ProbeFrom(UbxPush(max), [], b)
         == Probe(RecordReady(Ubx.FrameOf(Ubx.BuildUbxFrame(m), frame[0].ts)), |frame| + 1)
  {
    ProbeBuilt(max, m, frame, rest, 1);
    UbxStream.BuiltFrameFacts(m);
    assert Values(frame)[0] == Ubx.SYNC1;
    hide Ubx.FrameOf, Ubx.BuildUbxFrame, Ubx.ChecksumMatches, Ubx.DeclaredSize, Ubx.Push, ProbeFrom, UbxStream.Carries;
    assert b[1] == frame[0] && b[2..] == frame[1..] + rest && frame[..1] == [frame[0]];
    TwoSyncBytes(max, b[0], b[1]);
    ProbeTwoMore(UbxPush(max), b, [frame[0]]);
  }

  /**
   The scan moves by the size of the record, not by the bytes probed. After a repeated sync byte the
   record starts one byte late, so its own last byte stays in the buffer and is scanned again.
   */
  lemma RestartRescansLastByte<T>(
      config: Config, route: Route<T>, s: Session<T>, m: Ubx.Message, frame: seq<Stamped>, rest: seq<Stamped>)
    requires UbxStream.Carries(config.maxUbx, m) && Values(frame) == Ubx.BuildUbxFrame(m)
    requires s.buffer == [Stamped(Ubx.SYNC1, None)] + frame + rest
    ensures !ScanStep(config, s.buffer, false).keepTail
    ensures Advance(config, route, s, false)
         == Session([frame[|frame| - 1]] + rest, s.metrics.(ubxSeen := s.metrics.ubxSeen + 1),
                    route(s.runtime, RoutedUbx(Ubx.FrameOf(Ubx.BuildUbxFrame(m), frame[0].ts))))
  {
    var b, n := s.buffer, |frame|;
    ProbeAfterRestart(config.maxUbx, m, frame, rest, b);
    hide ProbeFrom, Ubx.FrameOf, Ubx.BuildUbxFrame, Ubx.Push;
    assert ScanStep(config, b, false) == UbxStep(config.maxUbx, b, false);
    assert b[n..] == [frame[n - 1]] + rest;
  }

  // ----- The session object ----------------------------------------------------------------

  class UbloxSession<T> {
    const config: Config
    const route: Route<T>
    const initial: T
    var buffer: seq<Stamped>
    var metrics: Metrics
    var runtime: T

    ghost function State(): Session<T>
      reads this
    {
      Session(buffer, metrics, runtime)
    }

    constructor (config: Config, route: Route<T>, initial: T)
      ensures State() == Fresh(initial)
      ensures this.config == config && this.route == route && this.initial == initial
    {
      this.config, this.route, this.initial := config, route, initial;
      buffer, metrics, runtime := [], Metrics(0, 0, 0, 0, 0), initial;
    }

    method FeedBytes(data: seq<byte>, ts: Timestamp)
      modifies this
      ensures State() == Feed(config, route, old(State()), StampAll(data, ts))
    {
      if data == [] {
        return;
      }
      hide Drain;
      metrics := metrics.(bytesSeen := metrics.bytesSeen + |data|);
      buffer := buffer + StampAll(data, ts);
      ProcessBufferedData(false);
    }

    method Finalize()
      modifies this
      ensures State() == Finish(config, route, old(State()))
      ensures buffer == []
    {
      FinishEmpties(config, route, State());
      ProcessBufferedData(true);
    }

    method Reset()
      modifies this
      ensures State() == Fresh(initial)
    {
      buffer, metrics, runtime := [], Metrics(0, 0, 0, 0, 0), initial;
    }

    method ProcessBufferedData(finalizing: bool)
      modifies this
      ensures State() == Drain(config, route, old(State()), finalizing)
    {
      hide ScanStep;
      var offset := 0;
      while offset < |buffer|
        invariant 0 <= offset <= |buffer| && buffer == old(buffer)
        invariant Drain(config, route, Session(buffer[offset..], metrics, runtime), finalizing)
               == Drain(config, route, old(State()), finalizing)
      {
        ghost var here := Session(buffer[offset..], metrics, runtime);
        StepProgress(config, buffer[offset..], finalizing);
        var nextOffset, keepTail := ConsumeAtOffset(offset, finalizing);
        offset := nextOffset;
        if keepTail {
          break;
        }
        assert buffer[offset..] == here.buffer[ScanStep(config, here.buffer, finalizing).next..];
        assert Session(buffer[offset..], metrics, runtime) == Advance(config, route, here, finalizing);
      }
      if offset > 0 {
        buffer := buffer[offset..];
      }
    }

    /** The dispatch on the byte at `start`; a byte that starts no protocol is skipped. */
    method ConsumeAtOffset(start: nat, finalizing: bool) returns (nextOffset: nat, keepTail: bool)
      requires start < |buffer|
      modifies `metrics, `runtime
      ensures var step := ScanStep(config, buffer[start..], finalizing);
              && nextOffset == start + step.next && keepTail == step.keepTail
              && State() == Apply(route, old(State()), step)
    {
      hide ProbeFrom;
      var first := buffer[start].value;
      if first == NmeaChecksum.DOLLAR || first == NmeaChecksum.BANG {
        nextOffset, keepTail := ConsumeNmeaAtOffset(start, finalizing);
      } else if first == Ubx.SYNC1 {
        nextOffset, keepTail := ConsumeUbxAtOffset(start, finalizing);
      } else if first == Rtcm.PREAMBLE {
        nextOffset, keepTail := ConsumeRtcmAtOffset(start, finalizing);
      } else {
        return start + 1, false;
      }
    }

    method ConsumeNmeaAtOffset(start: nat, finalizing: bool) returns (nextOffset: nat, keepTail: bool)
      requires start < |buffer|
      modifies `metrics, `runtime
      ensures var step := NmeaStep(config.maxNmea, buffer[start..], finalizing);
              && nextOffset == start + step.next && keepTail == step.keepTail
              && State() == Apply(route, old(State()), step)
    {
      hide ProbeFrom;
      var probe := ProbeAtOffset(NmeaPush(config.maxNmea), buffer, start);
      if probe.result.RecordReady? {
        var sentence := probe.result.record;
        metrics := metrics.(nmeaSeen := metrics.nmeaSeen + 1);
        if sentence.validation.status != Valid {
          metrics := metrics.(malformed := metrics.malformed + 1);
        } else {
          runtime := route(runtime, RoutedNmea(sentence));
        }
        return start + |sentence.rawBytes|, false;
      }
      nextOffset, keepTail := ConsumeNoRecord(probe.result, start, finalizing);
    }

    method ConsumeUbxAtOffset(start: nat, finalizing: bool) returns (nextOffset: nat, keepTail: bool)
      requires start < |buffer|
      modifies `metrics, `runtime
      ensures var step := UbxStep(config.maxUbx, buffer[start..], finalizing);
              && nextOffset == start + step.next && keepTail == step.keepTail
              && State() == Apply(route, old(State()), step)
    {
      hide ProbeFrom;
      var probe := ProbeAtOffset(UbxPush(config.maxUbx), buffer, start);
      if probe.result.RecordReady? {
        var frame := probe.result.record;
        metrics := metrics.(ubxSeen := metrics.ubxSeen + 1);
        if frame.status != Valid {
          metrics := metrics.(malformed := metrics.malformed + 1);
        } else {
          runtime := route(runtime, RoutedUbx(frame));
        }
        return start + |frame.rawBytes|, false;
      }
      nextOffset, keepTail := ConsumeNoRecord(probe.result, start, finalizing);
    }

    method ConsumeRtcmAtOffset(start: nat, finalizing: bool) returns (nextOffset: nat, keepTail: bool)
      requires start < |buffer|
      modifies `metrics, `runtime
      ensures var step := RtcmStep(config.maxRtcm, buffer[start..], finalizing);
              && nextOffset == start + step.next && keepTail == step.keepTail
              && State() == Apply(route, old(State()), step)
    {
      hide ProbeFrom;
      var probe := ProbeAtOffset(RtcmPush(config.maxRtcm), buffer, start);
      if probe.result.RecordReady? {
        var frame := probe.result.record;
        metrics := metrics.(rtcmSeen := metrics.rtcmSeen + 1);
        if frame.status != Valid {
          metrics := metrics.(malformed := metrics.malformed + 1);
        } else {
          runtime := route(runtime, RoutedRtcm(frame));
        }
        return start + |frame.rawBytes|, false;
      }
      nextOffset, keepTail := ConsumeNoRecord(probe.result, start, finalizing);
    }

    /** The end the three `Consume...AtOffset` methods share. */
    method ConsumeNoRecord<R>(result: ParserResult<R>, start: nat, finalizing: bool)
      returns (nextOffset: nat, keepTail: bool)
      requires start < |buffer| && !result.RecordReady?
      modifies `metrics
      ensures var step := NoRecord(result, finalizing, |buffer| - start);
              && nextOffset == start + step.next && keepTail == step.keepTail
              && State() == Apply(route, old(State()), step)
    {
      if result.Truncated? {
        if finalizing {
          metrics := metrics.(malformed := metrics.malformed + 1);
          return |buffer|, false;
        }
        return start, true;
      }
      if result.InvalidData? || result.Overflow? {
        metrics := metrics.(malformed := metrics.malformed + 1);
      }
      return start + 1, false;
    }
  }
}
