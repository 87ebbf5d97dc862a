/**
 Whole records of all three protocols in one stream, with bytes between them that start none: the
 u-blox session routes each once, in order and intact, whatever reads the stream arrives in.
 */
module UbloxMixed {
  import opened Bits
  import opened Framing
  import opened UbloxSession
  import Nmea = NmeaFramer
  import Ubx = UbxFramer
  import UbxStream
  import Rtcm = RtcmFramer
  import RtcmStream

  /** A piece of the stream: a UBX message, an RTCM payload, an NMEA line, or a byte that starts nothing. */
  datatype Piece = UbxPiece(m: Ubx.Message) | RtcmPiece(payload: seq<byte>) | NmeaPiece(line: seq<byte>) | NoisePiece(b: byte)

  function BytesOf(p: Piece): (bytes: seq<byte>) {
    match p
    case UbxPiece(m) => Ubx.BuildUbxFrame(m)
    case RtcmPiece(payload) => RtcmStream.BuildRtcmFrame(payload)
    case NmeaPiece(line) => line
    case NoisePiece(b) => [b]
  }

  /** The pieces a session is made for: within its limits, and noise that is no leader and no sync byte. */
  predicate Fits(config: Config, p: Piece) {
    match p
    case UbxPiece(m) => |m.payload| < 0x1_0000 && |m.payload| + 8 <= config.maxUbx
    case RtcmPiece(payload) => |payload| < 1024 && |payload| + 6 <= config.maxRtcm
    case NmeaPiece(line) => Nmea.IsLine(line) && |line| <= config.maxNmea
    case NoisePiece(b) => b !in [0x24, 0x21, 0xB5, 0xD3]
  }

  function StreamOf(pieces: seq<Piece>): seq<byte> {
    if pieces == [] then [] else BytesOf(pieces[0]) + StreamOf(pieces[1..])
  }

  /** What a piece does to a session: one record seen and, if it is valid, routed; noise does nothing. */
  function Effect<T>(route: Route<T>, s: Session<T>, p: Piece, ts: Timestamp): Session<T> {
    match p
    case UbxPiece(m) =>
      s.(metrics := s.metrics.(ubxSeen := s.metrics.ubxSeen + 1),
         runtime := route(s.runtime, RoutedUbx(Ubx.FrameOf(Ubx.BuildUbxFrame(m), ts))))
    case RtcmPiece(payload) =>
      s.(metrics := s.metrics.(rtcmSeen := s.metrics.rtcmSeen + 1),
         runtime := route(s.runtime, RoutedRtcm(Rtcm.FrameOf(RtcmStream.BuildRtcmFrame(payload), ts))))
    case NmeaPiece(line) =>
      if line == [] then s
      else
        var sentence := Nmea.SentenceOf(line, ts);
        var seen := s.metrics.(nmeaSeen := s.metrics.nmeaSeen + 1);
        if sentence.validation.status == Valid
        then s.(metrics := seen, runtime := route(s.runtime, RoutedNmea(sentence)))
        else s.(metrics := seen.(malformed := seen.malformed + 1))
    case NoisePiece(_) => s
  }

  // ----- Probing one piece -------------------------------------------------------------------

  /** A framer that collects these bytes one by one and reports them with the last. */
  ghost predicate Collects<R(!new)>(push: Framer<R>, input: seq<Stamped>, record: R) {
    && input != []
    && (forall k :: 0 <= k < |input| - 1 ==> push(input[..k], input[k]) == (input[..k + 1], NeedMoreData))
    && push(input[..|input| - 1], input[|input| - 1]) == ([], RecordReady(record))
  }

  lemma {:induction false} ProbeCollected<R(!new)>(push: Framer<R>, input: seq<Stamped>, rest: seq<Stamped>, record: R, k: nat)
    requires Collects(push, input, record) && k < |input|
    ensures ProbeFrom(push, input[..k], input[k..] + rest) == Probe(RecordReady(record), |input| - k)
    decreases |input| - k
  {
    var bytes := input[k..] + rest;
    assert bytes[0] == input[k] && bytes[1..] == input[k + 1..] + rest;
    if k + 1 < |input| {
      ProbeCollected(push, input, rest, record, k + 1);
    }
  }

  lemma ProbeWhole<R(!new)>(push: Framer<R>, input: seq<Stamped>, rest: seq<Stamped>, record: R)
    requires Collects(push, input, record)
    ensures ProbeFrom(push, [], input + rest).result == RecordReady(record)
  {
    ProbeCollected(push, input, rest, record, 0);
    assert input[..0] == [] && input[0..] + rest == input + rest;
    hide ProbeFrom, Collects;
  }

  lemma UbxCollects(max: nat, m: Ubx.Message, input: seq<Stamped>)
    requires UbxStream.Carries(max, m) && Values(input) == Ubx.BuildUbxFrame(m)
    ensures Collects(UbxPush(max), input, Ubx.FrameOf(Ubx.BuildUbxFrame(m), input[0].ts))
  {
    assert input != [] by { UbxStream.BuiltFrameFacts(m); }
    hide Ubx.BuildUbxFrame, Ubx.FrameOf, Ubx.Push;
    var push, n := UbxPush(max), |input| - 1;
    forall k | 0 <= k < n ensures push(input[..k], input[k]) == (input[..k + 1], NeedMoreData) {
      UbxStream.PushBuiltByte(max, m, input, k);
    }
    UbxStream.PushBuiltByte(max, m, input, n);
  }

  lemma RtcmCollects(max: nat, payload: seq<byte>, input: seq<Stamped>)
    requires RtcmStream.Carries(max, payload) && Values(input) == RtcmStream.BuildRtcmFrame(payload)
    ensures Collects(RtcmPush(max), input, Rtcm.FrameOf(RtcmStream.BuildRtcmFrame(payload), input[0].ts))
  {
    hide RtcmStream.BuildRtcmFrame, Rtcm.FrameOf, Rtcm.Push;
    var push, n := RtcmPush(max), |input| - 1;
    forall k | 0 <= k < n ensures push(input[..k], input[k]) == (input[..k + 1], NeedMoreData) {
      RtcmStream.PushBuiltByte(max, payload, input, k);
    }
    RtcmStream.PushBuiltByte(max, payload, input, n);
  }

  lemma PushLineByte(max: nat, input: seq<Stamped>, k: nat)
    requires Nmea.IsLine(Values(input)) && |input| <= max && k < |input|
    ensures Nmea.Push(max, input[..k], input[k])
         == if k + 1 < |input| then (input[..k + 1], NeedMoreData)
            else ([], RecordReady(Nmea.SentenceOf(Values(input), input[0].ts)))
  {
    hide Nmea.SentenceOf;
    assert Values(input)[k] == input[k].value;
    assert input[..k] + [input[k]] == input[..k + 1];
    if k + 1 == |input| {
      assert input[..k + 1] == input;
    }
    if k == 0 {
      assert input[..1] == [input[0]];
    }
  }

  lemma NmeaCollects(max: nat, input: seq<Stamped>)
    requires Nmea.IsLine(Values(input)) && |input| <= max
    ensures Collects(NmeaPush(max), input, Nmea.SentenceOf(Values(input), input[0].ts))
  {
    assert |Values(input)| >= 2;
    hide Nmea.SentenceOf, Nmea.Push, Nmea.IsLine;
    var push, n := NmeaPush(max), |input| - 1;
    forall k | 0 <= k < n ensures push(input[..k], input[k]) == (input[..k + 1], NeedMoreData) {
      PushLineByte(max, input, k);
    }
    PushLineByte(max, input, n);
  }

  // ----- One piece at the front of the buffer --------------------------------------------------

  lemma StepOfUbx(config: Config, m: Ubx.Message, input: seq<Stamped>, rest: seq<Stamped>)
    requires Fits(config, UbxPiece(m)) && Values(input) == Ubx.BuildUbxFrame(m)
    ensures ScanStep(config, input + rest, false)
         == Step(|input|, false, 0, 1, 0, 0, Some(RoutedUbx(Ubx.FrameOf(Ubx.BuildUbxFrame(m), input[0].ts))))
  {
    UbxStream.BuiltFrameFacts(m);
    UbxStream.BuiltFrameReports(m, input[0].ts);
    assert Values(input)[0] == Ubx.SYNC1 && (input + rest)[0] == input[0];
    hide Ubx.BuildUbxFrame, Ubx.FrameOf, ProbeFrom, Ubx.Push, Collects, Ubx.ChecksumMatches, Ubx.DeclaredSize;
    UbxCollects(config.maxUbx, m, input);
    ProbeWhole(UbxPush(config.maxUbx), input, rest, Ubx.FrameOf(Ubx.BuildUbxFrame(m), input[0].ts));
  }

  lemma StepOfRtcm(config: Config, payload: seq<byte>, input: seq<Stamped>, rest: seq<Stamped>)
    requires Fits(config, RtcmPiece(payload)) && Values(input) == RtcmStream.BuildRtcmFrame(payload)
    ensures ScanStep(config, input + rest, false)
         == Step(|input|, false, 0, 0, 1, 0,
                 Some(RoutedRtcm(Rtcm.FrameOf(RtcmStream.BuildRtcmFrame(payload), input[0].ts))))
  {
    RtcmStream.BuiltHeader(payload);
    RtcmStream.BuiltFrameReports(payload, input[0].ts);
    assert Values(input)[0] == Rtcm.PREAMBLE && (input + rest)[0] == input[0];
    hide RtcmStream.BuildRtcmFrame, Rtcm.FrameOf, ProbeFrom, Rtcm.Push, Collects, Rtcm.DeclaredSize;
    RtcmCollects(config.maxRtcm, payload, input);
    ProbeWhole(RtcmPush(config.maxRtcm), input, rest, Rtcm.FrameOf(RtcmStream.BuildRtcmFrame(payload), input[0].ts));
  }

  lemma StepOfNmea(config: Config, input: seq<Stamped>, rest: seq<Stamped>)
    requires Fits(config, NmeaPiece(Values(input)))
    ensures var sentence := Nmea.SentenceOf(Values(input), input[0].ts);
            var valid := sentence.validation.status == Valid;
            ScanStep(config, input + rest, false)
              == Step(|input|, false, 1, 0, 0, if valid then 0 else 1, if valid then Some(RoutedNmea(sentence)) else None)
  {
    assert Values(input)[0] == input[0].value == (input + rest)[0].value;
    hide Nmea.SentenceOf, ProbeFrom, Nmea.Push, Collects;
    NmeaCollects(config.maxNmea, input);
    ProbeWhole(NmeaPush(config.maxNmea), input, rest, Nmea.SentenceOf(Values(input), input[0].ts));
  }

  lemma StepOfNoise(config: Config, b: Stamped, rest: seq<Stamped>)
    requires Fits(config, NoisePiece(b.value))
    ensures ScanStep(config, [b] + rest, false) == Step(1, false, 0, 0, 0, 0, None)
  {
  }

  lemma PieceIsNotEmpty(config: Config, p: Piece)
    requires Fits(config, p)
    ensures BytesOf(p) != []
  {
    hide Ubx.BuildUbxFrame, RtcmStream.BuildRtcmFrame;
    if p.UbxPiece? {
      UbxStream.BuiltFrameFacts(p.m);
    }
  }

  /** A piece at the front of the buffer is consumed whole, with its own effect. */
  lemma AdvancePiece<T>(config: Config, route: Route<T>, s: Session<T>, p: Piece, n: nat)
    requires Fits(config, p) && 1 <= n <= |s.buffer| && Values(s.buffer[..n]) == BytesOf(p)
    ensures !ScanStep(config, s.buffer, false).keepTail
    ensures Advance(config, route, s, false)
         == Effect(route, s, p, s.buffer[0].ts).(buffer := s.buffer[n..])
  {
    hide ScanStep, Ubx.BuildUbxFrame, RtcmStream.BuildRtcmFrame, Ubx.FrameOf, Rtcm.FrameOf, Nmea.SentenceOf, Nmea.IsLine;
    var front, rest := s.buffer[..n], s.buffer[n..];
    assert front + rest == s.buffer && front[0] == s.buffer[0];
    match p {
      case UbxPiece(m) => StepOfUbx(config, m, front, rest);
      case RtcmPiece(payload) => StepOfRtcm(config, payload, front, rest);
      case NmeaPiece(line) => StepOfNmea(config, front, rest);
      case NoisePiece(b) =>
        assert front == [front[0]] && Values(front)[0] == b;
        StepOfNoise(config, front[0], rest);
    }
  }

  // ----- Whole streams -----------------------------------------------------------------------

  /** The effects of all the pieces, each with the time of its first byte. */
  function Effects<T>(route: Route<T>, s: Session<T>, pieces: seq<Piece>, input: seq<Stamped>): Session<T>
    requires Values(input) == StreamOf(pieces)
    decreases |pieces|
  {
    if pieces == [] then s
    else
      var n := |BytesOf(pieces[0])|;
      ValuesSplit(input, n);
      var t := if n == 0 then s else Effect(route, s, pieces[0], input[0].ts);
      Effects(route, t, pieces[1..], input[n..])
  }

  lemma EffectKeepsBuffer<T>(route: Route<T>, s: Session<T>, p: Piece, ts: Timestamp, buffer: seq<Stamped>)
    ensures Effect(route, s.(buffer := buffer), p, ts) == Effect(route, s, p, ts).(buffer := buffer)
    ensures Effect(route, s, p, ts).buffer == s.buffer
  {
    hide Ubx.BuildUbxFrame, RtcmStream.BuildRtcmFrame, Ubx.FrameOf, Rtcm.FrameOf, Nmea.SentenceOf;
  }

  lemma {:induction false} EffectsKeepBuffer<T>(
      route: Route<T>, s: Session<T>, pieces: seq<Piece>, input: seq<Stamped>, buffer: seq<Stamped>)
    requires Values(input) == StreamOf(pieces)
    ensures Effects(route, s.(buffer := buffer), pieces, input) == Effects(route, s, pieces, input).(buffer := buffer)
    decreases |pieces|
  {
    hide Effect, BytesOf;
    if pieces != [] {
      var n := |BytesOf(pieces[0])|;
      ValuesSplit(input, n);
      if n > 0 {
        EffectKeepsBuffer(route, s, pieces[0], input[0].ts, buffer);
      }
      var t := if n == 0 then s else Effect(route, s, pieces[0], input[0].ts);
      EffectsKeepBuffer(route, t, pieces[1..], input[n..], buffer);
    }
  }

  /** Draining a buffer of whole pieces leaves nothing and has exactly their effects. */
  lemma {:induction false} DrainPieces<T>(config: Config, route: Route<T>, s: Session<T>, pieces: seq<Piece>)
    requires forall i :: 0 <= i < |pieces| ==> Fits(config, pieces[i])
    requires Values(s.buffer) == StreamOf(pieces)
    ensures Drain(config, route, s, false) == Effects(route, s, pieces, s.buffer).(buffer := [])
    decreases |pieces|
  {
    hide ScanStep, Advance, Effect, BytesOf, Fits;
    if pieces == [] {
      assert s.buffer == [];
    } else {
      var p, n := pieces[0], |BytesOf(pieces[0])|;
      ValuesSplit(s.buffer, n);
      PieceIsNotEmpty(config, p);
      AdvancePiece(config, route, s, p, n);
      var t, ts := Advance(config, route, s, false), s.buffer[0].ts;
      DrainPieces(config, route, t, pieces[1..]);
      EffectsKeepBuffer(route, Effect(route, s, p, ts), pieces[1..], s.buffer[n..], s.buffer[n..]);
    }
  }

  /**
   A stream of whole UBX, RTCM and NMEA records with noise between them, in reads of any size, leaves
   nothing in the buffer, and the session with exactly the effect of each record, in order.
   */
  lemma MixedStreamIsRouted<T>(
      config: Config, route: Route<T>, s: Session<T>, pieces: seq<Piece>, chunks: seq<seq<Stamped>>)
    requires forall i :: 0 <= i < |pieces| ==> Fits(config, pieces[i])
    requires s.buffer == [] && Values(Flatten(chunks)) == StreamOf(pieces)
    ensures FeedChunks(config, route, s, chunks)
         == CountMore(Effects(route, s, pieces, Flatten(chunks)), |Flatten(chunks)|)
  {
    hide *;
    var stream := Flatten(chunks);
    ChunkInvariance(config, route, s, chunks);
    FeedFromEmpty(config, route, s, stream);
    EffectsKeepBuffer(route, s, pieces, stream, []);
    if stream == [] {
      assert Values(stream) == [];
      NothingInNoBytes(config, pieces);
      NoEffects(route, s, stream);
    } else {
      CountAside(s.(buffer := stream), |stream|, stream);
      DrainPieces(config, route, CountMore(s.(buffer := stream), |stream|), pieces);
      EffectsCount(route, s.(buffer := stream), pieces, stream, |stream|);
      EffectsKeepBuffer(route, s, pieces, stream, stream);
      CountAside(Effects(route, s, pieces, stream).(buffer := stream), |stream|, []);
    }
  }

  lemma FeedFromEmpty<T>(config: Config, route: Route<T>, s: Session<T>, stream: seq<Stamped>)
    requires s.buffer == []
    ensures s.(buffer := []) == s
    ensures Feed(config, route, s, stream)
         == if stream == [] then s else Drain(config, route, CountMore(s.(buffer := stream), |stream|), false)
  {
    hide Drain;
    assert [] + stream == stream;
  }

  lemma CountAside<T>(s: Session<T>, n: nat, buffer: seq<Stamped>)
    ensures CountMore(s, n).(buffer := buffer) == CountMore(s.(buffer := buffer), n)
    ensures CountMore(s, n).buffer == s.buffer
    ensures CountMore(s, 0) == s
  {
  }

  lemma NoEffects<T>(route: Route<T>, s: Session<T>, input: seq<Stamped>)
    requires input == []
    ensures Values(input) == StreamOf([]) && Effects(route, s, [], input) == s
    ensures CountMore(s, 0) == s
  {
  }

  lemma NothingInNoBytes(config: Config, pieces: seq<Piece>)
    requires forall i :: 0 <= i < |pieces| ==> Fits(config, pieces[i])
    requires StreamOf(pieces) == []
    ensures pieces == []
  {
    if pieces != [] {
      PieceIsNotEmpty(config, pieces[0]);
    }
  }

  lemma {:induction false} EffectsCount<T>(route: Route<T>, s: Session<T>, pieces: seq<Piece>, input: seq<Stamped>, n: nat)
    requires Values(input) == StreamOf(pieces)
    ensures Effects(route, CountMore(s, n), pieces, input) == CountMore(Effects(route, s, pieces, input), n)
    decreases |pieces|
  {
    hide Effect, BytesOf;
    if pieces != [] {
      var k := |BytesOf(pieces[0])|;
      ValuesSplit(input, k);
      if k > 0 {
        EffectCounts(route, s, pieces[0], input[0].ts, n);
      }
      var t := if k == 0 then s else Effect(route, s, pieces[0], input[0].ts);
      EffectsCount(route, t, pieces[1..], input[k..], n);
    }
  }

  lemma EffectCounts<T>(route: Route<T>, s: Session<T>, p: Piece, ts: Timestamp, n: nat)
    ensures Effect(route, CountMore(s, n), p, ts) == CountMore(Effect(route, s, p, ts), n)
  {
    hide Ubx.BuildUbxFrame, RtcmStream.BuildRtcmFrame, Ubx.FrameOf, Rtcm.FrameOf, Nmea.SentenceOf;
  }

  // ----- What is not a record ----------------------------------------------------------------

  /** A framer that holds the first `k` bytes and answers something else than a record to the next. */
  lemma {:induction false} ProbeUntil<R>(push: Framer<R>, bytes: seq<Stamped>, k: nat, result: ParserResult<R>, j: nat)
    requires j <= k < |bytes| && !result.NeedMoreData? && !result.Idle?
    requires forall i :: 0 <= i < k ==> push(bytes[..i], bytes[i]) == (bytes[..i + 1], NeedMoreData)
    requires push(bytes[..k], bytes[k]) == ([], result)
    ensures ProbeFrom(push, bytes[..j], bytes[j..]).result == result
    decreases k - j
  {
    assert bytes[j..][0] == bytes[j] && bytes[j..][1..] == bytes[j + 1..];
    if j < k {
      ProbeUntil(push, bytes, k, result, j + 1);
    }
  }

  lemma ProbeAnswer<R>(push: Framer<R>, bytes: seq<Stamped>, k: nat, result: ParserResult<R>)
    requires k < |bytes| && !result.NeedMoreData? && !result.Idle?
    requires forall i :: 0 <= i < k ==> push(bytes[..i], bytes[i]) == (bytes[..i + 1], NeedMoreData)
    requires push(bytes[..k], bytes[k]) == ([], result)
    ensures ProbeFrom(push, [], bytes).result == result
  {
    ProbeUntil(push, bytes, k, result, 0);
    assert bytes[..0] == [] && bytes[0..] == bytes;
  }

  /** The session one byte further on, with `malformed` more counted. */
  function PastOne<T>(s: Session<T>, malformed: nat): Session<T>
    requires s.buffer != []
  {
    s.(buffer := s.buffer[1..], metrics := s.metrics.(malformed := s.metrics.malformed + malformed))
  }

  lemma AdvanceOnSkip<T>(config: Config, route: Route<T>, s: Session<T>, malformed: nat)
    requires s.buffer != [] && ScanStep(config, s.buffer, false) == Step(1, false, 0, 0, 0, malformed, None)
    ensures Advance(config, route, s, false) == PastOne(s, malformed)
  {
    hide ScanStep;
  }

  /** A first UBX sync byte that is followed by neither sync byte is passed over silently. */
  lemma LoneSyncByte<T>(config: Config, route: Route<T>, s: Session<T>)
    requires |s.buffer| >= 2 && s.buffer[0].value == 0xB5 && s.buffer[1].value !in [0x62, 0xB5]
    ensures !ScanStep(config, s.buffer, false).keepTail && Advance(config, route, s, false) == PastOne(s, 0)
  {
    var b := s.buffer;
    assert b[..0] == [] && b[..1] == [b[0]];
    hide Ubx.Report;
    ProbeAnswer(UbxPush(config.maxUbx), b, 1, Skipped);
    hide ProbeFrom, Ubx.Push;
    AdvanceOnSkip(config, route, s, 0);
  }

  /** An RTCM preamble followed by a byte above 3, another preamble excepted, is one malformed frame. */
  lemma BadPreamble<T>(config: Config, route: Route<T>, s: Session<T>)
    requires |s.buffer| >= 2 && s.buffer[0].value == 0xD3 && s.buffer[1].value > 3 && s.buffer[1].value != 0xD3
    ensures !ScanStep(config, s.buffer, false).keepTail && Advance(config, route, s, false) == PastOne(s, 1)
  {
    var b := s.buffer;
    assert b[..0] == [] && b[..1] == [b[0]];
    hide Rtcm.Report;
    ProbeAnswer(RtcmPush(config.maxRtcm), b, 1, InvalidData);
    hide ProbeFrom, Rtcm.Push;
    AdvanceOnSkip(config, route, s, 1);
  }

  lemma UbxPrefixHeld(max: nat, b: seq<Stamped>, k: nat, i: nat)
    requires i < k < |b| && k <= 5 && b[0].value == 0xB5 && b[1].value == 0x62 && (k <= max || k == 2)
    ensures Ubx.Push(max, b[..i], b[i]) == (b[..i + 1], NeedMoreData)
  {
    hide Ubx.Report;
    assert b[..i] + [b[i]] == b[..i + 1];
    assert i == 0 ==> b[..1] == [b[0]];
  }

  /** A UBX header that declares a frame longer than the limit is one malformed frame, and one byte is passed. */
  lemma OversizeUbx<T>(config: Config, route: Route<T>, s: Session<T>)
    requires |s.buffer| >= 6 && s.buffer[0].value == 0xB5 && s.buffer[1].value == 0x62
    requires 8 + s.buffer[4].value as nat + 256 * s.buffer[5].value as nat > config.maxUbx
    ensures !ScanStep(config, s.buffer, false).keepTail && Advance(config, route, s, false) == PastOne(s, 1)
  {
    var b, max := s.buffer, config.maxUbx;
    var k := if max >= 6 then 5 else if max >= 2 then max else 2;
    forall i | 0 <= i < k ensures UbxPush(max)(b[..i], b[i]) == (b[..i + 1], NeedMoreData) {
      UbxPrefixHeld(max, b, k, i);
    }
    UbxOverflows(max, b, k);
    hide Ubx.Push;
    ProbeAnswer(UbxPush(max), b, k, Overflow);
    hide ProbeFrom;
    AdvanceOnSkip(config, route, s, 1);
  }

  lemma UbxOverflows(max: nat, b: seq<Stamped>, k: nat)
    requires |b| >= 6 && 8 + b[4].value as nat + 256 * b[5].value as nat > max
    requires k == if max >= 6 then 5 else if max >= 2 then max else 2
    ensures Ubx.Push(max, b[..k], b[k]) == ([], Overflow)
  {
    hide Ubx.Report;
    assert b[..k] + [b[k]] == b[..k + 1];
    if k == 5 {
      assert Values(b[..6])[4] == b[4].value && Values(b[..6])[5] == b[5].value;
    }
  }

  /** An RTCM header that declares a frame longer than the limit is one malformed frame, and one byte is passed. */
  lemma OversizeRtcm<T>(config: Config, route: Route<T>, s: Session<T>)
    requires |s.buffer| >= 3 && s.buffer[0].value == 0xD3 && s.buffer[1].value <= 3
    requires 6 + 256 * s.buffer[1].value as nat + s.buffer[2].value as nat > config.maxRtcm
    ensures !ScanStep(config, s.buffer, false).keepTail && Advance(config, route, s, false) == PastOne(s, 1)
  {
    var b, max := s.buffer, config.maxRtcm;
    var k := if max >= 2 then 2 else 1;
    forall i | 0 <= i < k ensures RtcmPush(max)(b[..i], b[i]) == (b[..i + 1], NeedMoreData) {
      RtcmPrefixHeld(max, b, k, i);
    }
    RtcmOverflows(max, b, k);
    hide Rtcm.Push;
    ProbeAnswer(RtcmPush(max), b, k, Overflow);
    hide ProbeFrom;
    AdvanceOnSkip(config, route, s, 1);
  }

  lemma RtcmPrefixHeld(max: nat, b: seq<Stamped>, k: nat, i: nat)
    requires i < k < |b| && k <= 2 && b[0].value == 0xD3 && b[1].value <= 3 && (k <= max || k == 1)
    ensures Rtcm.Push(max, b[..i], b[i]) == (b[..i + 1], NeedMoreData)
  {
    hide Rtcm.Report;
    assert b[..i] + [b[i]] == b[..i + 1];
    assert i == 0 ==> b[..1] == [b[0]];
  }

  lemma RtcmOverflows(max: nat, b: seq<Stamped>, k: nat)
    requires |b| >= 3 && b[1].value <= 3 && 6 + 256 * b[1].value as nat + b[2].value as nat > max
    requires k == if max >= 2 then 2 else 1
    ensures Rtcm.Push(max, b[..k], b[k]) == ([], Overflow)
  {
    hide Rtcm.Report;
    assert b[..k] + [b[k]] == b[..k + 1];
    if k == 2 {
      assert Values(b[..3])[1] == b[1].value && Values(b[..3])[2] == b[2].value;
    }
  }

  /** An NMEA leader followed by as many bytes as the limit, none of them a leader or a line feed, is malformed. */
  lemma OverlongNmea<T>(config: Config, route: Route<T>, s: Session<T>)
    requires config.maxNmea >= 1 && |s.buffer| > config.maxNmea && s.buffer[0].value in [0x24, 0x21]
    requires forall i :: 1 <= i <= config.maxNmea ==> s.buffer[i].value !in [0x24, 0x21, 0x0A]
    ensures !ScanStep(config, s.buffer, false).keepTail && Advance(config, route, s, false) == PastOne(s, 1)
  {
    var b, max := s.buffer, config.maxNmea;
    forall i | 0 <= i < max ensures NmeaPush(max)(b[..i], b[i]) == (b[..i + 1], NeedMoreData) {
      assert b[..i] + [b[i]] == b[..i + 1];
      assert i == 0 ==> b[..1] == [b[0]];
    }
    assert b[..max] + [b[max]] == b[..max + 1];
    hide Nmea.SentenceOf;
    assert NmeaPush(max)(b[..max], b[max]) == ([], Overflow);
    hide Nmea.Push;
    ProbeAnswer(NmeaPush(max), b, max, Overflow);
    hide ProbeFrom;
    AdvanceOnSkip(config, route, s, 1);
  }
}
