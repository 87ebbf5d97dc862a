/**
 The RTCM correction monitor, `gnss_protocols/src/rtcm_correction_monitor.cpp`. The four message
 decoders are parameters: whatever they accept and whatever station they report, the monitor must not
 mix two stations.
 */
module CorrectionMonitor {
  import opened Bits
  import opened Framing
  import opened RtcmFramer
  import opened RtcmParser
  import W = TimestampWindow

  const RETENTION := 60_000_000_000

  datatype AntennaDescriptor = AntennaDescriptor(
    messageType: nat, stationId: nat, descriptor: seq<byte>, setupId: nat, serial: Option<seq<byte>>)

  datatype GlonassBias = GlonassBias(messageType: nat, stationId: nat, signalMask: nat, biases: seq<real>, valid: bool)

  datatype Decoders = Decoders(
    arp: RtcmFrame -> Option<StationArp>, antenna: RtcmFrame -> Option<AntennaDescriptor>,
    bias: RtcmFrame -> Option<GlonassBias>, msm: RtcmFrame -> Option<MsmSummary>)

  datatype Activity = Activity(count: nat, lastSeen: Timestamp)

  datatype Decoding<R> = Decoding(last: Option<R>, lastDecoded: Timestamp, success: nat, failure: nat, malformed: nat)

  datatype Seen = Seen(arp1005: bool, arp1006: bool, antenna1007: bool, antenna1008: bool, bias1230: bool)

  /** Frame counters and the pruned arrival times of all and of valid frames. */
  datatype Frames = Frames(
    total: nat, valid: nat, invalid: nat, last: Timestamp, firstValid: Timestamp,
    totalStamps: seq<int>, validStamps: seq<int>)

  /** What was seen by message type, decoded or not. */
  datatype Flow = Flow(
    messages: map<nat, Activity>, constellations: map<Constellation, Activity>,
    messageStamps: map<nat, seq<int>>, constellationStamps: map<Constellation, seq<int>>,
    seen: Seen, biasSeen: Timestamp, msmSeen: Timestamp)

  /** The decoded records held, with the counters of their decoders. */
  datatype Records = Records(
    arp: Decoding<StationArp>, antenna: Decoding<AntennaDescriptor>, bias: Decoding<GlonassBias>,
    msm: Decoding<MsmSummary>, summaries: map<nat, Decoding<MsmSummary>>)

  /** What the decoders accepted: the only source of satisfied requirements. */
  datatype Semantic = Semantic(messages: map<nat, Activity>, constellations: map<Constellation, Activity>)

  datatype State = State(frames: Frames, flow: Flow, records: Records, semantic: Semantic, stationId: Option<nat>)

  function Undecoded<R>(): Decoding<R> {
    Decoding(None, None, 0, 0, 0)
  }

  const UNSEEN := Seen(false, false, false, false, false)
  const NO_FRAMES := Frames(0, 0, 0, None, None, [], [])
  const NO_FLOW := Flow(map[], map[], map[], map[], UNSEEN, None, None)
  const NO_RECORDS := Records(Undecoded(), Undecoded(), Undecoded(), Undecoded(), map[])
  const NO_SEMANTIC := Semantic(map[], map[])
  const INITIAL := State(NO_FRAMES, NO_FLOW, NO_RECORDS, NO_SEMANTIC, None)

  // ----- One observation -------------------------------------------------------------------

  function UpdateLatest(candidate: Timestamp, current: Timestamp): Timestamp {
    if candidate == None then current
    else if current == None || candidate.value >= current.value then candidate
    else current
  }

  function Bump<K>(m: map<K, Activity>, k: K, ts: Timestamp): map<K, Activity> {
    var a := if k in m then m[k] else Activity(0, None);
    m[k := Activity(a.count + 1, UpdateLatest(ts, a.lastSeen))]
  }

  function BumpStamps<K>(m: map<K, seq<int>>, k: K, ts: Timestamp): map<K, seq<int>> {
    m[k := W.Append(RETENTION, if k in m then m[k] else [], ts)]
  }

  /** What the decoders make of a frame of type `t`: at most one of the four applies. */
  datatype Decoded = Decoded(
    arp: Option<StationArp>, antenna: Option<AntennaDescriptor>, bias: Option<GlonassBias>, msm: Option<MsmSummary>)

  function Decode(d: Decoders, t: nat, frame: RtcmFrame): Decoded {
    Decoded(if IsStationArp(t) then d.arp(frame) else None,
            if IsAntennaDescriptor(t) then d.antenna(frame) else None,
            if IsGlonassBias(t) then d.bias(frame) else None,
            if IsMsm(t) then d.msm(frame) else None)
  }

  predicate MsmObserved(r: Decoded) {
    r.msm.Some? && r.msm.value.cellCount > 0
  }

  predicate Accepts(t: nat, r: Decoded) {
    if IsStationArp(t) then r.arp.Some?
    else if IsAntennaDescriptor(t) then r.antenna.Some?
    else if IsGlonassBias(t) then r.bias.Some? && r.bias.value.valid
    else IsMsm(t) && MsmObserved(r)
  }

  function DecodedStation(r: Decoded): Option<nat> {
    if r.arp.Some? then Some(r.arp.value.stationId)
    else if r.antenna.Some? then Some(r.antenna.value.stationId)
    else if r.bias.Some? && r.bias.value.valid then Some(r.bias.value.stationId)
    else if MsmObserved(r) then Some(r.msm.value.stationId)
    else None
  }

  /** Some MSM message type holds a summary of another station. */
  predicate SummaryFromOther(summaries: map<nat, Decoding<MsmSummary>>, id: nat) {
    exists t :: t in summaries && summaries[t].last.Some? && summaries[t].last.value.stationId != id
  }

  /** Decoded state without an owner that is not this station's. */
  predicate UnownedFromOther(r: Records, id: nat) {
    || (r.bias.last.Some? && r.bias.last.value.stationId != id)
    || (r.antenna.last.Some? && r.antenna.last.value.stationId != id)
    || SummaryFromOther(r.summaries, id)
  }

  predicate ChangesOwner(s: State, id: nat) {
    if s.stationId.Some? then s.stationId.value != id else UnownedFromOther(s.records, id)
  }

  function PrepareOwnership(s: State, id: nat): State {
    (if ChangesOwner(s, id) then INITIAL else s).(stationId := Some(id))
  }

  function CountFrame(f: Frames, ts: Timestamp): Frames {
    f.(total := f.total + 1, last := UpdateLatest(ts, f.last),
       totalStamps := W.Append(RETENTION, f.totalStamps, ts))
  }

  function CountInvalid(f: Frames, ts: Timestamp): Frames {
    CountFrame(f, ts).(invalid := f.invalid + 1)
  }

  function CountValid(f: Frames, ts: Timestamp): Frames {
    f.(firstValid := if f.firstValid == None then ts else f.firstValid,
       valid := f.valid + 1, validStamps := W.Append(RETENTION, f.validStamps, ts))
  }

  function Succeed<R>(d: Decoding<R>, r: R, ts: Timestamp): Decoding<R> {
    Decoding(Some(r), UpdateLatest(ts, d.lastDecoded), d.success + 1, d.failure, d.malformed)
  }

  /** A record of another station is counted as decoded but not kept. */
  function SucceedElsewhere<R>(d: Decoding<R>): Decoding<R> {
    d.(success := d.success + 1)
  }

  function Fail<R>(d: Decoding<R>): Decoding<R> {
    d.(failure := d.failure + 1, malformed := d.malformed + 1)
  }

  predicate Foreign(owner: Option<nat>, id: nat) {
    owner.Some? && owner.value != id
  }

  function RecordBias(d: Decoding<GlonassBias>, owner: Option<nat>, bias: Option<GlonassBias>, ts: Timestamp)
    : Decoding<GlonassBias>
  {
    match bias
    case None => Fail(d)
    case Some(r) => if Foreign(owner, r.stationId) then SucceedElsewhere(d) else Succeed(d, r, ts)
  }

  function RecordMsm(d: Decoding<MsmSummary>, owner: Option<nat>, msm: Option<MsmSummary>, ts: Timestamp): Decoding<MsmSummary> {
    match msm
    case None => Fail(d)
    case Some(r) => if Foreign(owner, r.stationId) then SucceedElsewhere(d) else Succeed(d, r, ts)
  }

  function SummaryStats(summaries: map<nat, Decoding<MsmSummary>>, t: nat): Decoding<MsmSummary> {
    if t in summaries then summaries[t] else Undecoded()
  }

  /** An MSM summary is kept both for its message type and as the latest of all. */
  function RecordDecoded(s: Records, owner: Option<nat>, t: nat, r: Decoded, ts: Timestamp): Records {
    if IsStationArp(t) then
      s.(arp := if r.arp.Some? then Succeed(s.arp, r.arp.value, ts) else Fail(s.arp))
    else if IsAntennaDescriptor(t) then
      s.(antenna := if r.antenna.Some? then Succeed(s.antenna, r.antenna.value, ts) else Fail(s.antenna))
    else if IsGlonassBias(t) then s.(bias := RecordBias(s.bias, owner, r.bias, ts))
    else if IsMsm(t) then
      s.(summaries := s.summaries[t := RecordMsm(SummaryStats(s.summaries, t), owner, r.msm, ts)],
         msm := RecordMsm(s.msm, owner, r.msm, ts))
    else s
  }

  function SeenAfter(s: Seen, t: nat): Seen {
    Seen(s.arp1005 || t == 1005, s.arp1006 || t == 1006, s.antenna1007 || t == 1007,
         s.antenna1008 || t == 1008, s.bias1230 || t == 1230)
  }

  function RecordFlow(f: Flow, t: nat, ts: Timestamp): Flow {
    var counted := f.(
      messages := Bump(f.messages, t, ts), messageStamps := BumpStamps(f.messageStamps, t, ts),
      seen := SeenAfter(f.seen, t),
      biasSeen := if IsGlonassBias(t) then UpdateLatest(ts, f.biasSeen) else f.biasSeen);
    match MsmConstellation(t)
    case None => counted
    case Some(c) =>
      counted.(constellations := Bump(f.constellations, c, ts),
               constellationStamps := BumpStamps(f.constellationStamps, c, ts),
               msmSeen := UpdateLatest(ts, f.msmSeen))
  }

  function RecordSemantic(s: Semantic, t: nat, ts: Timestamp): Semantic {
    Semantic(
      Bump(s.messages, t, ts),
      match MsmConstellation(t)
      case None => s.constellations
      case Some(c) => Bump(s.constellations, c, ts))
  }

  /** A frame of known type: ownership is resolved before anything of the frame is recorded. */
  function ObserveKnown(s: State, t: nat, r: Decoded, ts: Timestamp): State {
    var owned := match DecodedStation(r) case Some(id) => PrepareOwnership(s, id) case None => s;
    State(CountValid(CountFrame(owned.frames, ts), ts),
          RecordFlow(owned.flow, t, ts),
          RecordDecoded(owned.records, owned.stationId, t, r, ts),
          if Accepts(t, r) then RecordSemantic(owned.semantic, t, ts) else owned.semantic,
          owned.stationId)
  }

  function ObserveInvalid(s: State, ts: Timestamp): State {
    s.(frames := CountInvalid(s.frames, ts))
  }

  function Observe(d: Decoders, s: State, frame: RtcmFrame): State {
    match MessageType(frame)
    case None => ObserveInvalid(s, frame.ts)
    case Some(t) => ObserveKnown(s, t, Decode(d, t, frame), frame.ts)
  }

  // ----- Resets ----------------------------------------------------------------------------

  predicate IsStatic(t: nat) {
    1005 <= t <= 1008
  }

  function KeepStatic<V>(m: map<nat, V>): map<nat, V> {
    map t | t in m && IsStatic(t) :: m[t]
  }

  function Kept<R>(d: Decoding<R>): Decoding<R> {
    Decoding(d.last, d.lastDecoded, d.success, 0, 0)
  }

  /** Only station metadata that was decoded, and so has an owner, survives a change of transport. */
  function ResetDynamic(s: State): State {
    if s.stationId == None || (s.records.arp.last == None && s.records.antenna.last == None) then INITIAL
    else State(
      NO_FRAMES,
      NO_FLOW.(messages := KeepStatic(s.flow.messages), seen := s.flow.seen.(bias1230 := false)),
      NO_RECORDS.(arp := Kept(s.records.arp), antenna := Kept(s.records.antenna)),
      NO_SEMANTIC.(messages := KeepStatic(s.semantic.messages)),
      s.stationId)
  }

  // ----- Requirements ----------------------------------------------------------------------

  /** `None` in the list of constellations stands for the source's unknown constellation. */
  datatype Options = Options(
    now: Timestamp, messageTypes: seq<nat>, constellations: seq<Option<Constellation>>, window: int,
    requireAnyMsm: bool, requireBasePosition: bool, requireGlonassBias: bool)

  function WindowStart(o: Options): Timestamp {
    if o.now == None || o.window <= 0 then None else Some(o.now.value - o.window)
  }

  /** Not before the start and not after the end, as far as the two are known. */
  predicate Within(ts: Timestamp, start: Timestamp, end: Timestamp) {
    && (end.Some? && ts.Some? ==> ts.value <= end.value)
    && (start.Some? ==> ts.Some? && ts.value >= start.value)
  }

  predicate Active(a: Activity, o: Options) {
    a.count > 0 && Within(a.lastSeen, WindowStart(o), o.now)
  }

  predicate HasMessageType(s: State, t: nat, o: Options) {
    t in s.semantic.messages
    && if t == 1005 || t == 1006 then s.semantic.messages[t].count > 0 else Active(s.semantic.messages[t], o)
  }

  predicate HasConstellation(s: State, c: Option<Constellation>, o: Options) {
    c.Some? && c.value in s.semantic.constellations && Active(s.semantic.constellations[c.value], o)
  }

  predicate HasAnyMsm(s: State, o: Options) {
    exists c :: c in s.semantic.constellations && Active(s.semantic.constellations[c], o)
  }

  predicate HasBasePosition(s: State) {
    || (1005 in s.semantic.messages && s.semantic.messages[1005].count > 0)
    || (1006 in s.semantic.messages && s.semantic.messages[1006].count > 0)
  }

  predicate HasRequired(s: State, o: Options) {
    && s.frames.valid != 0 && s.semantic.messages != map[]
    && (forall i :: 0 <= i < |o.messageTypes| ==> HasMessageType(s, o.messageTypes[i], o))
    && (forall i :: 0 <= i < |o.constellations| ==> HasConstellation(s, o.constellations[i], o))
    && (o.requireAnyMsm ==> HasAnyMsm(s, o))
    && (o.requireBasePosition ==> HasBasePosition(s))
    && (o.requireGlonassBias ==> HasMessageType(s, 1230, o))
  }

  // ----- The monitor object ----------------------------------------------------------------

  class RtcmCorrectionMonitor {
    const decoders: Decoders
    var frames: Frames
    var flow: Flow
    var records: Records
    var semantic: Semantic
    var stationId: Option<nat>

    ghost function Value(): State
      reads this
    {
      State(frames, flow, records, semantic, stationId)
    }

    constructor (decoders: Decoders)
      ensures this.decoders == decoders && Value() == INITIAL
    {
      this.decoders := decoders;
      frames, flow, records, semantic, stationId := NO_FRAMES, NO_FLOW, NO_RECORDS, NO_SEMANTIC, None;
    }

    method Reset()
      modifies this
      ensures Value() == INITIAL
    {
      frames, flow, records, semantic, stationId := NO_FRAMES, NO_FLOW, NO_RECORDS, NO_SEMANTIC, None;
    }

    method ResetDynamicState()
      modifies this
      ensures Value() == ResetDynamic(old(Value()))
    {
      if stationId == None || (records.arp.last == None && records.antenna.last == None) {
        Reset();
        return;
      }
      var retainedStation, retainedSeen := stationId, flow.seen;
      var retainedArp, retainedAntenna := records.arp, records.antenna;
      var retainedMessages := RetainStatic(flow.messages);
      var retainedSemantic := RetainStatic(semantic.messages);
      Reset();
      stationId := retainedStation;
      flow := flow.(seen := retainedSeen.(bias1230 := false), messages := retainedMessages);
      records := records.(
        arp := Decoding(retainedArp.last, retainedArp.lastDecoded, retainedArp.success, 0, 0),
        antenna := Decoding(retainedAntenna.last, retainedAntenna.lastDecoded, retainedAntenna.success, 0, 0));
      semantic := semantic.(messages := retainedSemantic);
    }

    method ObserveInvalidFrame(ts: Timestamp)
      modifies this
      ensures Value() == ObserveInvalid(old(Value()), ts)
    {
      CountArrival(ts);
      frames := frames.(invalid := frames.invalid + 1);
    }

    /** What every observation starts with. */
    method CountArrival(ts: Timestamp)
      modifies `frames
      ensures frames == CountFrame(old(frames), ts)
    {
      var stamps := W.AppendTimestamp(RETENTION, ts, frames.totalStamps);
      frames := frames.(total := frames.total + 1, last := UpdateLatest(ts, frames.last), totalStamps := stamps);
    }

    method ObserveFrame(frame: RtcmFrame)
      modifies this
      ensures Value() == Observe(decoders, old(Value()), frame)
    {
      hide PrepareOwnership, RecordDecoded, RecordFlow, RecordSemantic, CountFrame, CountValid, Decode, Accepts,
        MessageType, DecodedStation;
      var messageType := MessageType(frame);
      if messageType == None {
        ObserveInvalidFrame(frame.ts);
        return;
      }
      var t := messageType.value;
      var decoded := Decode(decoders, t, frame);
      var station := DecodedStation(decoded);
      if station.Some? {
        PrepareStationOwnership(station.value);
      }
      CountArrival(frame.ts);
      RecordDecodedMessage(t, decoded, frame.ts);
      RecordValidFrameMessage(t, frame.ts);
      if Accepts(t, decoded) {
        RecordSemanticMessage(t, frame.ts);
      }
    }

    method PrepareStationOwnership(id: nat)
      modifies this
      ensures Value() == PrepareOwnership(old(Value()), id)
    {
      var unownedFromOther := false;
      if stationId == None {
        unownedFromOther := records.bias.last.Some? && records.bias.last.value.stationId != id;
        unownedFromOther := unownedFromOther
        || (records.antenna.last.Some? && records.antenna.last.value.stationId != id);
        var other := SummaryOfOtherStation(records.summaries, id);
        unownedFromOther := unownedFromOther || other;
      }
      if (stationId.Some? && stationId.value != id) || unownedFromOther {
        Reset();
      }
      stationId := Some(id);
    }

    /** The message-specific part of `ObserveFrame`. */
    method RecordDecodedMessage(t: nat, decoded: Decoded, ts: Timestamp)
      modifies `records
      ensures records == RecordDecoded(old(records), stationId, t, decoded, ts)
    {
      hide UpdateLatest, MsmConstellation;
      if IsStationArp(t) {
        records := records.(
          arp := if decoded.arp.Some? then Succeed(records.arp, decoded.arp.value, ts) else Fail(records.arp));
      } else if IsAntennaDescriptor(t) {
        records := records.(
          antenna := if decoded.antenna.Some? then Succeed(records.antenna, decoded.antenna.value, ts)
                     else Fail(records.antenna));
      } else if IsGlonassBias(t) {
        if decoded.bias == None {
          records := records.(bias := Fail(records.bias));
        } else if stationId == None || stationId.value == decoded.bias.value.stationId {
          records := records.(bias := Succeed(records.bias, decoded.bias.value, ts));
        } else {
          records := records.(bias := records.bias.(success := records.bias.success + 1));
        }
      } else if IsMsm(t) {
        RecordMsmSummary(t, decoded.msm, ts);
      }
    }

    method RecordMsmSummary(t: nat, summary: Option<MsmSummary>, ts: Timestamp)
      modifies `records
      ensures records == old(records).(
                summaries :=
                  old(records).summaries[t := RecordMsm(SummaryStats(old(records).summaries, t), stationId, summary, ts)],
                msm := RecordMsm(old(records).msm, stationId, summary, ts))
    {
      hide UpdateLatest;
      var stats, all := if t in records.summaries then records.summaries[t] else Undecoded(), records.msm;
      if summary == None {
        stats, all := Fail(stats), Fail(all);
      } else if stationId == None || stationId.value == summary.value.stationId {
        stats, all := Succeed(stats, summary.value, ts), Succeed(all, summary.value, ts);
      } else {
        stats, all := stats.(success := stats.success + 1), all.(success := all.success + 1);
      }
      records := records.(summaries := records.summaries[t := stats], msm := all);
    }

    method RecordValidFrameMessage(t: nat, ts: Timestamp)
      modifies `frames, `flow
      ensures frames == CountValid(old(frames), ts) && flow == RecordFlow(old(flow), t, ts)
    {
      hide RecordFlow, W.Append;
      if frames.firstValid == None && ts.Some? {
        frames := frames.(firstValid := ts);
      }
      var stamps := W.AppendTimestamp(RETENTION, ts, frames.validStamps);
      frames := frames.(valid := frames.valid + 1, validStamps := stamps);
      RecordFlowOf(t, ts);
    }

    /** The counters `RecordValidFrameMessage` keeps by message type. */
    method RecordFlowOf(t: nat, ts: Timestamp)
      modifies `flow
      ensures flow == RecordFlow(old(flow), t, ts)
    {
      hide UpdateLatest, MsmConstellation, Bump, BumpStamps, SeenAfter;
      flow := flow.(messages := Bump(flow.messages, t, ts), messageStamps := BumpStamps(flow.messageStamps, t, ts));
      MarkSeen(t);
      if IsGlonassBias(t) {
        flow := flow.(biasSeen := UpdateLatest(ts, flow.biasSeen));
      }
      var constellation := MsmConstellation(t);
      if constellation.Some? {
        var c := constellation.value;
        flow := flow.(constellations := Bump(flow.constellations, c, ts),
                      constellationStamps := BumpStamps(flow.constellationStamps, c, ts),
                      msmSeen := UpdateLatest(ts, flow.msmSeen));
      }
    }

    method MarkSeen(t: nat)
      modifies `flow
      ensures flow == old(flow).(seen := SeenAfter(old(flow).seen, t))
    {
      var seen := flow.seen;
      if IsStationArp(t) {
        seen := seen.(arp1005 := seen.arp1005 || t == 1005, arp1006 := seen.arp1006 || t == 1006);
      }
      if IsAntennaDescriptor(t) {
        seen := seen.(antenna1007 := seen.antenna1007 || t == 1007, antenna1008 := seen.antenna1008 || t == 1008);
      }
      if IsGlonassBias(t) {
        seen := seen.(bias1230 := true);
      }
      flow := flow.(seen := seen);
    }

    method RecordSemanticMessage(t: nat, ts: Timestamp)
      modifies `semantic
      ensures semantic == RecordSemantic(old(semantic), t, ts)
    {
      hide UpdateLatest, MsmConstellation, Bump;
      semantic := semantic.(messages := Bump(semantic.messages, t, ts));
      var constellation := MsmConstellation(t);
      if constellation.Some? {
        semantic := semantic.(constellations := Bump(semantic.constellations, constellation.value, ts));
      }
    }

    method HasRequiredCorrectionMessages(o: Options) returns (satisfied: bool)
      ensures satisfied <==> HasRequired(Value(), o)
    {
      hide HasMessageType, HasConstellation, HasAnyMsm;
      if frames.valid == 0 || semantic.messages == map[] {
        return false;
      }
      var types := HasTypes(o);
      if !types {
        return false;
      }
      var kinds := HasConstellations(o);
      if !kinds {
        return false;
      }
      if o.requireAnyMsm {
        var recent := HasRecentMsm(o);
        if !recent {
          return false;
        }
      }
      if o.requireBasePosition
         && !((1005 in semantic.messages && semantic.messages[1005].count > 0)
              || (1006 in semantic.messages && semantic.messages[1006].count > 0)) {
        return false;
      }
      if o.requireGlonassBias {
        var has := HasType(1230, o);
        if !has {
          return false;
        }
      }
      return true;
    }

    method HasTypes(o: Options) returns (all: bool)
      ensures all <==> forall i :: 0 <= i < |o.messageTypes| ==> HasMessageType(Value(), o.messageTypes[i], o)
    {
      hide HasMessageType;
      for i := 0 to |o.messageTypes|
        invariant forall j :: 0 <= j < i ==> HasMessageType(Value(), o.messageTypes[j], o)
      {
        var has := HasType(o.messageTypes[i], o);
        if !has {
          return false;
        }
      }
      return true;
    }

    method HasConstellations(o: Options) returns (all: bool)
      ensures all <==> forall i :: 0 <= i < |o.constellations| ==> HasConstellation(Value(), o.constellations[i], o)
    {
      hide Active;
      for i := 0 to |o.constellations|
        invariant forall j :: 0 <= j < i ==> HasConstellation(Value(), o.constellations[j], o)
      {
        var c := o.constellations[i];
        if !(c.Some? && c.value in semantic.constellations && Active(semantic.constellations[c.value], o)) {
          return false;
        }
      }
      return true;
    }

    method HasRecentMsm(o: Options) returns (recent: bool)
      ensures recent <==> HasAnyMsm(Value(), o)
    {
      recent := AnyActive(semantic.constellations, o);
    }

    method HasType(t: nat, o: Options) returns (has: bool)
      ensures has <==> HasMessageType(Value(), t, o)
    {
      if t !in semantic.messages {
        return false;
      }
      if t == 1005 || t == 1006 {
        return semantic.messages[t].count > 0;
      }
      return Active(semantic.messages[t], o);
    }
  }

  /** The loop of `PrepareStationOwnership` over the MSM summaries, in any order. */
  method SummaryOfOtherStation(summaries: map<nat, Decoding<MsmSummary>>, id: nat) returns (found: bool)
    ensures found <==> SummaryFromOther(summaries, id)
  {
    var left := summaries.Keys;
    while left != {}
      invariant left <= summaries.Keys
      invariant forall t :: t in summaries && t !in left ==>
                  summaries[t].last.Some? ==> summaries[t].last.value.stationId == id
      decreases |left|
    {
      var t :| t in left;
      if summaries[t].last.Some? && summaries[t].last.value.stationId != id {
        return true;
      }
      left := left - {t};
    }
    return false;
  }

  /** The loop of `HasRequiredCorrectionMessages` over the constellations, in any order. */
  method AnyActive(constellations: map<Constellation, Activity>, o: Options) returns (found: bool)
    ensures found <==> exists c :: c in constellations && Active(constellations[c], o)
  {
    var left := constellations.Keys;
    while left != {}
      invariant left <= constellations.Keys
      invariant forall c :: c in constellations && c !in left ==> !Active(constellations[c], o)
      decreases |left|
    {
      var c :| c in left;
      if Active(constellations[c], o) {
        return true;
      }
      left := left - {c};
    }
    return false;
  }

  /** The four static message types, looked up one by one. */
  method RetainStatic<V>(m: map<nat, V>) returns (kept: map<nat, V>)
    ensures kept == KeepStatic(m)
  {
    kept := map[];
    for t := 1005 to 1009
      invariant kept == map k | k in m && 1005 <= k < t :: m[k]
    {
      if t in m {
        kept := kept[t := m[t]];
      }
    }
  }
}
