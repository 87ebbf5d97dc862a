/**
 The correction monitor over whole runs of observations and resets: everything it holds under an owner
 is that station's, satisfied requirements are attested by frames of one station, and its rates see
 the frames since the last reset.
 */
module CorrectionRuns {
  import opened Bits
  import opened Framing
  import opened RtcmFramer
  import opened RtcmParser
  import opened CorrectionMonitor
  import W = TimestampWindow

  datatype Event = Frame(frame: RtcmFrame) | InvalidFrame(ts: Timestamp) | Clear | ClearDynamic

  function Step(d: Decoders, s: State, event: Event): State {
    match event
    case Frame(frame) => Observe(d, s, frame)
    case InvalidFrame(ts) => ObserveInvalid(s, ts)
    case Clear => INITIAL
    case ClearDynamic => ResetDynamic(s)
  }

  /** The state after a list of events, in order. */
  function Run(d: Decoders, events: seq<Event>): State {
    if events == [] then INITIAL
    else Step(d, Run(d, events[..|events| - 1]), events[|events| - 1])
  }

  // ----- Decoded records belong to the owner -----------------------------------------------

  predicate From(station: nat, id: Option<nat>) {
    id.Some? ==> id.value == station
  }

  function ArpStation(r: Records): Option<nat> {
    if r.arp.last.Some? then Some(r.arp.last.value.stationId) else None
  }

  function AntennaStation(r: Records): Option<nat> {
    if r.antenna.last.Some? then Some(r.antenna.last.value.stationId) else None
  }

  function BiasStation(r: Records): Option<nat> {
    if r.bias.last.Some? then Some(r.bias.last.value.stationId) else None
  }

  function MsmStation(d: Decoding<MsmSummary>): Option<nat> {
    if d.last.Some? then Some(d.last.value.stationId) else None
  }

  /** Every decoded record held is the station's. */
  predicate AllFrom(r: Records, station: nat) {
    && From(station, ArpStation(r)) && From(station, AntennaStation(r)) && From(station, BiasStation(r))
    && From(station, MsmStation(r.msm))
    && forall t :: t in r.summaries ==> From(station, MsmStation(r.summaries[t]))
  }

  /** The latest summary of all is also the latest of its own message type. */
  ghost predicate LatestIsListed(r: Records) {
    r.msm.last.Some? ==> exists t :: t in r.summaries && r.summaries[t].last == r.msm.last
  }

  /** What holds of every reachable state. */
  ghost predicate Owned(s: State) {
    && LatestIsListed(s.records)
    && match s.stationId
       case None => s.records.arp.last == None && s.records.antenna.last == None && s.semantic == NO_SEMANTIC
       case Some(station) => AllFrom(s.records, station)
  }

  /** Taking ownership leaves only records of the new owner, and no evidence of another. */
  lemma PrepareOwned(s: State, id: nat)
    requires Owned(s)
    ensures var t := PrepareOwnership(s, id);
            && t.stationId == Some(id) && AllFrom(t.records, id) && LatestIsListed(t.records)
            && (if s.stationId == Some(id) then t.semantic == s.semantic else t.semantic == NO_SEMANTIC)
  {
    if !ChangesOwner(s, id) && s.stationId == None {
      var r := s.records;
      assert forall t :: t in r.summaries ==> From(id, MsmStation(r.summaries[t]));
      if r.msm.last.Some? {
        var t :| t in r.summaries && r.summaries[t].last == r.msm.last;
      }
    }
  }

  /** A record that decides about ownership, or is not kept, cannot break it. */
  lemma RecordKeepsOwner(r: Records, owner: nat, t: nat, decoded: Decoded, ts: Timestamp)
    requires decoded.arp.Some? ==> IsStationArp(t)
    requires decoded.antenna.Some? ==> IsAntennaDescriptor(t)
    requires AllFrom(r, owner)
    requires DecodedStation(decoded).Some? ==> DecodedStation(decoded) == Some(owner)
    ensures AllFrom(RecordDecoded(r, Some(owner), t, decoded, ts), owner)
  {
    hide UpdateLatest, MsmConstellation;
  }

  lemma RecordKeepsListed(r: Records, owner: Option<nat>, t: nat, decoded: Decoded, ts: Timestamp)
    requires LatestIsListed(r)
    ensures LatestIsListed(RecordDecoded(r, owner, t, decoded, ts))
  {
    hide UpdateLatest, MsmConstellation;
    var after := RecordDecoded(r, owner, t, decoded, ts);
    if r.msm.last.Some? {
      var u :| u in r.summaries && r.summaries[u].last == r.msm.last;
      assert u in after.summaries;
    }
    assert IsMsm(t) && !IsStationArp(t) && !IsAntennaDescriptor(t) && !IsGlonassBias(t) ==> t in after.summaries;
  }

  /** The station of a frame is known exactly when the frame counts as evidence. */
  lemma AcceptedIffStation(d: Decoders, t: nat, frame: RtcmFrame)
    ensures var r := Decode(d, t, frame); Accepts(t, r) <==> DecodedStation(r).Some?
  {
    KindsAreDisjoint(t);
    hide MsmConstellation;
  }

  // ----- Evidence --------------------------------------------------------------------------

  function TypeOf(frame: RtcmFrame): nat {
    match MessageType(frame) case Some(t) => t case None => 0
  }

  /** A valid frame whose decoder accepted it and read this station from it. */
  predicate Attests(d: Decoders, frame: RtcmFrame, station: nat) {
    && MessageType(frame).Some?
    && var r := Decode(d, TypeOf(frame), frame);
       Accepts(TypeOf(frame), r) && DecodedStation(r) == Some(station)
  }

  /** What the semantic counters are after exactly these frames. */
  function Tally(evidence: seq<RtcmFrame>): Semantic {
    if evidence == [] then NO_SEMANTIC
    else
      var last := evidence[|evidence| - 1];
      RecordSemantic(Tally(evidence[..|evidence| - 1]), TypeOf(last), last.ts)
  }

  predicate AllAttest(d: Decoders, evidence: seq<RtcmFrame>, station: Option<nat>) {
    forall i :: 0 <= i < |evidence| ==> station.Some? && Attests(d, evidence[i], station.value)
  }

  /**
   What an event makes of the evidence: another owner's frame or a reset drops it, a change of transport
   keeps the static frames.
   */
  function EvidenceStep(d: Decoders, s: State, before: seq<RtcmFrame>, event: Event): seq<RtcmFrame> {
    match event
    case Clear => []
    case ClearDynamic =>
      if s.stationId == None || (s.records.arp.last == None && s.records.antenna.last == None) then []
      else StaticOnly(before)
    case InvalidFrame(_) => before
    case Frame(frame) =>
      match StationOf(d, frame)
      case None => before
      case Some(id) => (if s.stationId == Some(id) then before else []) + [frame]
  }

  /** The station a frame decodes to. */
  function StationOf(d: Decoders, frame: RtcmFrame): Option<nat> {
    match MessageType(frame)
    case None => None
    case Some(t) => DecodedStation(Decode(d, t, frame))
  }

  /** The frames of a run that decode to its owner and have not been dropped since. */
  function EvidenceOf(d: Decoders, events: seq<Event>): seq<RtcmFrame> {
    if events == [] then []
    else
      var n := |events| - 1;
      EvidenceStep(d, Run(d, events[..n]), EvidenceOf(d, events[..n]), events[n])
  }

  /** The frames of a run, in order. */
  function FramesOf(events: seq<Event>): seq<RtcmFrame> {
    if events == [] then []
    else
      var last := events[|events| - 1];
      FramesOf(events[..|events| - 1]) + (if last.Frame? then [last.frame] else [])
  }

  /** `a` is `b` with some elements left out. */
  predicate Subsequence<T(==)>(a: seq<T>, b: seq<T>) {
    a == []
    || (b != []
        && var (a', b') := (a[..|a| - 1], b[..|b| - 1]);
           (a[|a| - 1] == b[|b| - 1] && Subsequence(a', b')) || Subsequence(a, b'))
  }

  lemma SubsequenceGrows<T>(a: seq<T>, b: seq<T>, x: T)
    requires Subsequence(a, b)
    ensures Subsequence(a, b + [x]) && Subsequence(a + [x], b + [x])
  {
    assert (a + [x])[..|a|] == a && (b + [x])[..|b|] == b;
  }

  lemma {:induction false} SubsequenceOf<T>(a: seq<T>, b: seq<T>, i: nat)
    requires Subsequence(a, b) && i < |a|
    ensures a[i] in b
    decreases |b|
  {
    var a', b' := a[..|a| - 1], b[..|b| - 1];
    if a[|a| - 1] == b[|b| - 1] && Subsequence(a', b') {
      if i < |a'| {
        SubsequenceOf(a', b', i);
      }
    } else {
      SubsequenceOf(a, b', i);
    }
  }

  /** The evidence that survives a change of transport. */
  function StaticOnly(evidence: seq<RtcmFrame>): seq<RtcmFrame> {
    if evidence == [] then []
    else
      var last := evidence[|evidence| - 1];
      StaticOnly(evidence[..|evidence| - 1]) + (if IsStatic(TypeOf(last)) then [last] else [])
  }

  lemma {:induction false} StaticSubsequence(a: seq<RtcmFrame>, b: seq<RtcmFrame>)
    requires Subsequence(a, b)
    ensures Subsequence(StaticOnly(a), b)
    decreases |b|
  {
    hide TypeOf;
    if a != [] {
      var a', b', x := a[..|a| - 1], b[..|b| - 1], b[|b| - 1];
      assert b == b' + [x];
      if a[|a| - 1] == x && Subsequence(a', b') {
        StaticSubsequence(a', b');
        SubsequenceGrows(StaticOnly(a'), b', x);
        assert StaticOnly(a') + [] == StaticOnly(a');
      } else {
        StaticSubsequence(a, b');
        SubsequenceGrows(StaticOnly(a), b', x);
      }
    }
  }

  lemma {:induction false} StaticAttests(d: Decoders, evidence: seq<RtcmFrame>, station: Option<nat>)
    requires AllAttest(d, evidence, station)
    ensures AllAttest(d, StaticOnly(evidence), station)
  {
    hide Attests, TypeOf;
    if evidence != [] {
      var front := evidence[..|evidence| - 1];
      forall i | 0 <= i < |front| ensures station.Some? && Attests(d, front[i], station.value) {
        assert front[i] == evidence[i];
      }
      StaticAttests(d, front, station);
    }
  }

  lemma BumpStatic(m: map<nat, Activity>, t: nat, ts: Timestamp)
    ensures KeepStatic(Bump(m, t, ts)) == if IsStatic(t) then Bump(KeepStatic(m), t, ts) else KeepStatic(m)
  {
    hide UpdateLatest;
  }

  /** Keeping the static counters is tallying the static frames. */
  lemma {:induction false} StaticTally(evidence: seq<RtcmFrame>)
    ensures Tally(StaticOnly(evidence)) == NO_SEMANTIC.(messages := KeepStatic(Tally(evidence).messages))
  {
    if evidence != [] {
      var n := |evidence| - 1;
      StaticTally(evidence[..n]);
      var t, ts := TypeOf(evidence[n]), evidence[n].ts;
      var before, kept := Tally(evidence[..n]).messages, StaticOnly(evidence[..n]);
      BumpStatic(before, t, ts);
      hide TypeOf, Bump, KeepStatic;
      if IsStatic(t) {
        assert MsmConstellation(t) == None;
        assert (kept + [evidence[n]])[..|kept|] == kept;
      } else {
        assert kept + [] == kept;
      }
    } else {
      assert KeepStatic(NO_SEMANTIC.messages) == map[];
    }
  }

  /** The semantic counters are the tally of these frames of the run, all of the owner's. */
  ghost predicate Evidence(d: Decoders, s: State, seen: seq<RtcmFrame>, evidence: seq<RtcmFrame>) {
    && Subsequence(evidence, seen)
    && AllAttest(d, evidence, s.stationId)
    && s.semantic == Tally(evidence)
  }

  /** One frame: its own station's evidence is kept and extended, another station's is dropped. */
  lemma ObserveEvidence(d: Decoders, s: State, seen: seq<RtcmFrame>, evidence: seq<RtcmFrame>, frame: RtcmFrame)
    returns (after: seq<RtcmFrame>)
    requires Owned(s) && Evidence(d, s, seen, evidence)
    ensures after == EvidenceStep(d, s, evidence, Frame(frame))
    ensures Owned(Observe(d, s, frame))
    ensures Evidence(d, Observe(d, s, frame), seen + [frame], after)
  {
    if MessageType(frame) == None {
      after := evidence;
      SubsequenceGrows(evidence, seen, frame);
      InvalidKeeps(d, s, seen + [frame], evidence, frame.ts);
    } else {
      var t := MessageType(frame).value;
      var r := Decode(d, t, frame);
      AcceptedIffStation(d, t, frame);
      if DecodedStation(r) == None {
        after := evidence;
        SubsequenceGrows(evidence, seen, frame);
        UnattributedKeeps(d, s, seen + [frame], evidence, t, r, frame);
      } else {
        var id := DecodedStation(r).value;
        PrepareOwned(s, id);
        var base := if s.stationId == Some(id) then evidence else [];
        after := base + [frame];
        SubsequenceGrows(base, seen, frame);
        AttributedExtends(d, s, seen + [frame], base, t, r, frame, id);
      }
    }
  }

  lemma InvalidKeeps(d: Decoders, s: State, seen: seq<RtcmFrame>, evidence: seq<RtcmFrame>, ts: Timestamp)
    requires Owned(s) && Evidence(d, s, seen, evidence)
    ensures Owned(ObserveInvalid(s, ts)) && Evidence(d, ObserveInvalid(s, ts), seen, evidence)
  {
    hide CountInvalid, Tally, AllAttest, Subsequence, AllFrom, LatestIsListed;
  }

  lemma UnattributedKeeps(
      d: Decoders, s: State, seen: seq<RtcmFrame>, evidence: seq<RtcmFrame>, t: nat, r: Decoded, frame: RtcmFrame)
    requires Owned(s) && Evidence(d, s, seen, evidence)
    requires MessageType(frame) == Some(t) && r == Decode(d, t, frame)
    requires DecodedStation(r) == None && !Accepts(t, r)
    ensures Owned(Observe(d, s, frame)) && Evidence(d, Observe(d, s, frame), seen, evidence)
  {
    if s.stationId.Some? {
      RecordKeepsOwner(s.records, s.stationId.value, t, r, frame.ts);
    }
    RecordKeepsListed(s.records, s.stationId, t, r, frame.ts);
    UnownedStaysBare(s.records, s.stationId, t, r, frame.ts);
    hide RecordDecoded, Tally, AllAttest, Subsequence, AllFrom, LatestIsListed, Decode, Accepts, DecodedStation,
      MessageType, CountFrame, CountValid, RecordFlow;
  }

  lemma UnownedStaysBare(r: Records, owner: Option<nat>, t: nat, decoded: Decoded, ts: Timestamp)
    requires DecodedStation(decoded) == None
    ensures var after := RecordDecoded(r, owner, t, decoded, ts);
            after.arp.last == r.arp.last && after.antenna.last == r.antenna.last
  {
    hide MsmConstellation, UpdateLatest;
  }

  lemma AttributedExtends(
      d: Decoders, s: State, seen: seq<RtcmFrame>, base: seq<RtcmFrame>, t: nat, r: Decoded, frame: RtcmFrame, id: nat)
    requires MessageType(frame) == Some(t) && r == Decode(d, t, frame)
    requires DecodedStation(r) == Some(id) && Accepts(t, r)
    requires var p := PrepareOwnership(s, id);
             p.stationId == Some(id) && AllFrom(p.records, id) && LatestIsListed(p.records) && p.semantic == Tally(base)
    requires Subsequence(base + [frame], seen) && AllAttest(d, base, Some(id))
    ensures Owned(Observe(d, s, frame)) && Evidence(d, Observe(d, s, frame), seen, base + [frame])
  {
    var p := PrepareOwnership(s, id);
    RecordKeepsOwner(p.records, id, t, r, frame.ts);
    RecordKeepsListed(p.records, Some(id), t, r, frame.ts);
    assert (base + [frame])[..|base|] == base;
    assert TypeOf(frame) == t && Attests(d, frame, id);
    hide RecordDecoded, Subsequence, AllFrom, LatestIsListed, Decode, Accepts, DecodedStation, RecordSemantic,
      MessageType, CountFrame, CountValid, RecordFlow, PrepareOwnership, Attests, TypeOf;
    assert Tally(base + [frame]) == RecordSemantic(Tally(base), TypeOf(frame), frame.ts);
  }

  lemma ResetDynamicEvidence(d: Decoders, s: State, seen: seq<RtcmFrame>, evidence: seq<RtcmFrame>)
    returns (after: seq<RtcmFrame>)
    requires Owned(s) && Evidence(d, s, seen, evidence)
    ensures after == EvidenceStep(d, s, evidence, ClearDynamic)
    ensures Owned(ResetDynamic(s)) && Evidence(d, ResetDynamic(s), seen, after)
  {
    if s.stationId == None || (s.records.arp.last == None && s.records.antenna.last == None) {
      after := [];
    } else {
      after := StaticOnly(evidence);
      StaticSubsequence(evidence, seen);
      StaticAttests(d, evidence, s.stationId);
      StaticTally(evidence);
      hide Tally, AllAttest, Subsequence, StaticOnly, KeepStatic;
    }
  }

  /** The frames seen once this event is over. */
  function SeenAfterEvent(seen: seq<RtcmFrame>, event: Event): seq<RtcmFrame> {
    if event.Frame? then seen + [event.frame] else seen
  }

  lemma StepEvidence(d: Decoders, s: State, seen: seq<RtcmFrame>, before: seq<RtcmFrame>, event: Event)
    returns (after: seq<RtcmFrame>)
    requires Owned(s) && Evidence(d, s, seen, before)
    ensures after == EvidenceStep(d, s, before, event)
    ensures Owned(Step(d, s, event)) && Evidence(d, Step(d, s, event), SeenAfterEvent(seen, event), after)
  {
    hide Observe, ObserveInvalid, ResetDynamic, Owned, Evidence;
    match event {
      case Frame(frame) => after := ObserveEvidence(d, s, seen, before, frame);
      case InvalidFrame(ts) =>
        after := before;
        InvalidKeeps(d, s, seen, before, ts);
      case Clear =>
        after := [];
        InitialEvidence(d, seen);
      case ClearDynamic => after := ResetDynamicEvidence(d, s, seen, before);
    }
  }

  lemma RunLast(d: Decoders, events: seq<Event>)
    requires events != []
    ensures var n := |events| - 1;
            && Run(d, events) == Step(d, Run(d, events[..n]), events[n])
            && FramesOf(events) == SeenAfterEvent(FramesOf(events[..n]), events[n])
  {
    var before := FramesOf(events[..|events| - 1]);
    assert before + [] == before;
    hide Step;
  }

  /** Every reachable state is owned by at most one station, and its counters are that station's frames. */
  lemma {:induction false} RunEvidence(d: Decoders, events: seq<Event>) returns (evidence: seq<RtcmFrame>)
    ensures evidence == EvidenceOf(d, events)
    ensures Owned(Run(d, events)) && Evidence(d, Run(d, events), FramesOf(events), evidence)
    decreases |events|
  {
    if events == [] {
      evidence := [];
    } else {
      var n := |events| - 1;
      assert EvidenceOf(d, events) == EvidenceStep(d, Run(d, events[..n]), EvidenceOf(d, events[..n]), events[n]);
      hide *;
      RunLast(d, events);
      var before := RunEvidence(d, events[..n]);
      evidence := StepEvidence(d, Run(d, events[..n]), FramesOf(events[..n]), before, events[n]);
    }
  }

  lemma InitialEvidence(d: Decoders, seen: seq<RtcmFrame>)
    ensures Owned(INITIAL) && Evidence(d, INITIAL, seen, [])
  {
  }

  /** In every run, all decoded records held under an owner carry that owner's station. */
  lemma RecordsShareTheOwner(d: Decoders, events: seq<Event>)
    ensures var s := Run(d, events);
            s.stationId.Some? ==> AllFrom(s.records, s.stationId.value)
    ensures var s := Run(d, events);
            s.stationId == None ==> s.records.arp.last == None && s.records.antenna.last == None && s.semantic == NO_SEMANTIC
  {
    var evidence := RunEvidence(d, events);
    hide Run;
  }

  // ----- What a satisfied requirement means ------------------------------------------------

  lemma {:induction false} TallyMessages(evidence: seq<RtcmFrame>, t: nat)
    requires t in Tally(evidence).messages
    ensures exists i :: 0 <= i < |evidence| && TypeOf(evidence[i]) == t
                        && evidence[i].ts == Tally(evidence).messages[t].lastSeen
  {
    var n := |evidence| - 1;
    var before := Tally(evidence[..n]).messages;
    hide TypeOf, MsmConstellation;
    if t in before {
      TallyMessages(evidence[..n], t);
      var i :| 0 <= i < n && TypeOf(evidence[..n][i]) == t && evidence[..n][i].ts == before[t].lastSeen;
      assert evidence[i] == evidence[..n][i];
    }
    assert evidence[n] == evidence[|evidence| - 1];
  }

  lemma {:induction false} TallyConstellations(evidence: seq<RtcmFrame>, c: Constellation)
    requires c in Tally(evidence).constellations
    ensures exists i :: 0 <= i < |evidence| && MsmConstellation(TypeOf(evidence[i])) == Some(c)
                        && evidence[i].ts == Tally(evidence).constellations[c].lastSeen
  {
    var n := |evidence| - 1;
    var before := Tally(evidence[..n]).constellations;
    hide TypeOf, MsmConstellation;
    if c in before {
      TallyConstellations(evidence[..n], c);
      var i :| 0 <= i < n && MsmConstellation(TypeOf(evidence[..n][i])) == Some(c) && evidence[..n][i].ts == before[c].lastSeen;
      assert evidence[i] == evidence[..n][i];
    }
    assert evidence[n] == evidence[|evidence| - 1];
  }

  /** Some frame of the evidence is of this type, and recent enough if the type must be recent. */
  ghost predicate Shown(evidence: seq<RtcmFrame>, t: nat, o: Options) {
    exists i :: 0 <= i < |evidence| && TypeOf(evidence[i]) == t
                && (t == 1005 || t == 1006 || Within(evidence[i].ts, WindowStart(o), o.now))
  }

  ghost predicate ShownConstellation(evidence: seq<RtcmFrame>, c: Constellation, o: Options) {
    exists i :: 0 <= i < |evidence| && MsmConstellation(TypeOf(evidence[i])) == Some(c)
                && Within(evidence[i].ts, WindowStart(o), o.now)
  }

  /** All the requirements are shown by one list of frames. */
  ghost predicate AllShown(evidence: seq<RtcmFrame>, o: Options) {
    && evidence != []
    && (forall i :: 0 <= i < |o.messageTypes| ==> Shown(evidence, o.messageTypes[i], o))
    && (forall i :: 0 <= i < |o.constellations| ==>
          o.constellations[i].Some? && ShownConstellation(evidence, o.constellations[i].value, o))
    && (o.requireAnyMsm ==> exists c :: ShownConstellation(evidence, c, o))
    && (o.requireBasePosition ==> Shown(evidence, 1005, o) || Shown(evidence, 1006, o))
    && (o.requireGlonassBias ==> Shown(evidence, 1230, o))
  }

  lemma TypeIsShown(s: State, evidence: seq<RtcmFrame>, t: nat, o: Options)
    requires s.semantic == Tally(evidence) && HasMessageType(s, t, o)
    ensures Shown(evidence, t, o)
  {
    TallyMessages(evidence, t);
    hide TypeOf, WindowStart, Tally;
  }

  lemma ConstellationIsShown(s: State, evidence: seq<RtcmFrame>, c: Constellation, o: Options)
    requires s.semantic == Tally(evidence)
    requires c in s.semantic.constellations && Active(s.semantic.constellations[c], o)
    ensures ShownConstellation(evidence, c, o)
  {
    TallyConstellations(evidence, c);
    hide TypeOf, WindowStart, MsmConstellation, Tally;
  }

  lemma RequiredIsShown(s: State, evidence: seq<RtcmFrame>, o: Options)
    requires s.semantic == Tally(evidence) && HasRequired(s, o)
    ensures AllShown(evidence, o)
  {
    hide HasMessageType, Shown, ShownConstellation, Active, WindowStart;
    forall i | 0 <= i < |o.messageTypes| ensures Shown(evidence, o.messageTypes[i], o) {
      TypeIsShown(s, evidence, o.messageTypes[i], o);
    }
    forall i | 0 <= i < |o.constellations|
      ensures o.constellations[i].Some? && ShownConstellation(evidence, o.constellations[i].value, o) {
      assert HasConstellation(s, o.constellations[i], o);
      ConstellationIsShown(s, evidence, o.constellations[i].value, o);
    }
    if o.requireAnyMsm {
      var c :| c in s.semantic.constellations && Active(s.semantic.constellations[c], o);
      ConstellationIsShown(s, evidence, c, o);
    }
    if o.requireBasePosition {
      var t := if 1005 in s.semantic.messages && s.semantic.messages[1005].count > 0 then 1005 else 1006;
      BaseIsShown(s, evidence, t, o);
    }
    if o.requireGlonassBias {
      TypeIsShown(s, evidence, 1230, o);
    }
  }

  lemma BaseIsShown(s: State, evidence: seq<RtcmFrame>, t: nat, o: Options)
    requires s.semantic == Tally(evidence) && (t == 1005 || t == 1006) && t in s.semantic.messages
    ensures Shown(evidence, t, o)
  {
    TallyMessages(evidence, t);
    hide TypeOf, Tally;
  }

  /**
   Satisfied requirements never mix two stations: in every run, when they are satisfied there is one
   station such that frames of the run that decode to that station show every one of them.
   */
  lemma RequirementsComeFromOneStation(d: Decoders, events: seq<Event>, o: Options)
    requires HasRequired(Run(d, events), o)
    ensures exists station, evidence ::
              Run(d, events).stationId == Some(station)
              && Subsequence(evidence, FramesOf(events)) && AllAttest(d, evidence, Some(station)) && AllShown(evidence, o)
              && forall i :: 0 <= i < |evidence| ==> evidence[i] in FramesOf(events)
  {
    var s := Run(d, events);
    var evidence := RunEvidence(d, events);
    hide Run, HasRequired, AllShown, Tally, Subsequence, FramesOf;
    RequiredIsShown(s, evidence, o);
    assert evidence != [] by { ShownIsNotEmpty(evidence, o); }
    assert AllAttest(d, evidence, s.stationId);
    assert Attests(d, evidence[0], s.stationId.value);
    forall i | 0 <= i < |evidence| ensures evidence[i] in FramesOf(events) {
      SubsequenceOf(evidence, FramesOf(events), i);
    }
  }

  lemma ShownIsNotEmpty(evidence: seq<RtcmFrame>, o: Options)
    requires AllShown(evidence, o)
    ensures evidence != []
  {
  }

  // ----- Counters and rates ----------------------------------------------------------------

  /** The arrival times the monitor keeps: of all frames, of valid ones, by message type, by constellation. */
  datatype Window = AllFrames | ValidFrames | OfType(t: nat) | OfConstellation(c: Constellation)

  function Stamps(s: State, w: Window): seq<int> {
    match w
    case AllFrames => s.frames.totalStamps
    case ValidFrames => s.frames.validStamps
    case OfType(t) => if t in s.flow.messageStamps then s.flow.messageStamps[t] else []
    case OfConstellation(c) => if c in s.flow.constellationStamps then s.flow.constellationStamps[c] else []
  }

  /** The event is an arrival that this window counts. */
  predicate Counts(w: Window, event: Event) {
    match event
    case Clear => false
    case ClearDynamic => false
    case InvalidFrame(_) => w == AllFrames
    case Frame(frame) =>
      match w
      case AllFrames => true
      case ValidFrames => MessageType(frame).Some?
      case OfType(t) => MessageType(frame) == Some(t)
      case OfConstellation(c) => MessageType(frame).Some? && MsmConstellation(MessageType(frame).value) == Some(c)
  }

  function TimeOf(event: Event): Timestamp {
    match event
    case Frame(frame) => frame.ts
    case InvalidFrame(ts) => ts
    case _ => None
  }

  function Arrivals(w: Window, events: seq<Event>): seq<Timestamp> {
    if events == [] then []
    else
      var last := events[|events| - 1];
      Arrivals(w, events[..|events| - 1]) + (if Counts(w, last) then [TimeOf(last)] else [])
  }

  /** Counters and arrival times are those of exactly these events. */
  ghost predicate Recent(s: State, events: seq<Event>) {
    && s.frames.total == |Arrivals(AllFrames, events)| == s.frames.valid + s.frames.invalid
    && s.frames.valid == |Arrivals(ValidFrames, events)|
    && forall w :: Stamps(s, w) == W.AppendAll(RETENTION, Arrivals(w, events))
  }

  /** The event forgets what was counted before it: a reset, or a frame that changes the owner. */
  predicate Restarts(d: Decoders, s: State, event: Event) {
    match event
    case Clear => true
    case ClearDynamic => true
    case InvalidFrame(_) => false
    case Frame(frame) =>
      && MessageType(frame).Some?
      && var id := DecodedStation(Decode(d, MessageType(frame).value, frame));
         id.Some? && ChangesOwner(s, id.value)
  }

  /** The position from which the events of a run are counted. */
  function Since(d: Decoders, events: seq<Event>): (n: nat)
    ensures n <= |events|
  {
    if events == [] then 0
    else
      var k := |events| - 1;
      if events[k].Clear? || events[k].ClearDynamic? then k + 1
      else if Restarts(d, Run(d, events[..k]), events[k]) then k
      else Since(d, events[..k])
  }

  /**
   It is the start of the run, or just behind a reset, or at a frame that changed the owner; and nothing
   from there on is a reset or changes the owner again.
   */
  lemma {:induction false} SinceIsTheLastRestart(d: Decoders, events: seq<Event>)
    ensures var n := Since(d, events);
            && (|| n == 0 || events[n - 1].Clear? || events[n - 1].ClearDynamic?
                || (n < |events| && events[n].Frame? && Restarts(d, Run(d, events[..n]), events[n])))
            && forall k :: n <= k < |events| ==>
                 && !events[k].Clear? && !events[k].ClearDynamic?
                 && (k > n ==> !Restarts(d, Run(d, events[..k]), events[k]))
    decreases |events|
  {
    hide Run, Restarts;
    if events != [] {
      var front := events[..|events| - 1];
      SinceIsTheLastRestart(d, front);
      InvalidDoesNotRestart(d, Run(d, front), events[|events| - 1]);
      assert forall k :: 0 <= k <= |front| ==> front[..k] == events[..k];
    }
  }

  lemma InvalidDoesNotRestart(d: Decoders, s: State, event: Event)
    ensures event.InvalidFrame? ==> !Restarts(d, s, event)
  {
  }

  lemma ArrivalsStep(w: Window, events: seq<Event>, event: Event)
    ensures Arrivals(w, events + [event]) == Arrivals(w, events) + if Counts(w, event) then [TimeOf(event)] else []
  {
    hide Counts, TimeOf;
    assert (events + [event])[..|events|] == events;
  }

  /** What an arrival does to each window, starting from what is left of the counters. */
  lemma StampsStep(base: State, t: State, w: Window, event: Event)
    requires event.Frame? || event.InvalidFrame?
    requires Counted(base, t, event)
    ensures Stamps(t, w) == if Counts(w, event) then W.Append(RETENTION, Stamps(base, w), TimeOf(event)) else Stamps(base, w)
  {
    hide W.Append, UpdateLatest, MessageType, MsmConstellation, Bump, SeenAfter;
  }

  /** The counters of `t` are those of `base` with this arrival counted. */
  predicate Counted(base: State, t: State, event: Event) {
    var ts := TimeOf(event);
    if event.Frame? && MessageType(event.frame).Some? then
      && t.frames == CountValid(CountFrame(base.frames, ts), ts)
      && t.flow == RecordFlow(base.flow, MessageType(event.frame).value, ts)
    else t.frames == CountInvalid(base.frames, ts) && t.flow == base.flow
  }

  lemma RecentStep(base: State, t: State, events: seq<Event>, event: Event)
    requires event.Frame? || event.InvalidFrame?
    requires Recent(base, events) && Counted(base, t, event)
    ensures Recent(t, events + [event])
  {
    hide Stamps, Arrivals, W.Append, UpdateLatest, RecordFlow, MessageType, TimeOf;
    forall w ensures Stamps(t, w) == W.AppendAll(RETENTION, Arrivals(w, events + [event])) {
      StampsStep(base, t, w, event);
      ArrivalsStep(w, events, event);
      var arrivals := Arrivals(w, events);
      assert (arrivals + [TimeOf(event)])[..|arrivals|] == arrivals;
      assert arrivals + [] == arrivals;
    }
    ArrivalsStep(AllFrames, events, event);
    ArrivalsStep(ValidFrames, events, event);
  }

  lemma NothingRecent(s: State)
    requires s.frames == NO_FRAMES && s.flow.messageStamps == map[] && s.flow.constellationStamps == map[]
    ensures Recent(s, [])
  {
    forall w ensures Stamps(s, w) == W.AppendAll(RETENTION, Arrivals(w, [])) {
      assert Arrivals(w, []) == [];
    }
  }

  lemma ResetForgets(s: State)
    ensures Recent(ResetDynamic(s), []) && Recent(INITIAL, [])
  {
    NothingRecent(ResetDynamic(s));
    NothingRecent(INITIAL);
  }

  /** An arrival is counted on what there was, or on nothing if it restarts. */
  lemma ArrivalCounts(d: Decoders, s: State, event: Event)
    requires event.Frame? || event.InvalidFrame?
    ensures Counted(if Restarts(d, s, event) then INITIAL else s, Step(d, s, event), event)
  {
    hide RecordFlow, RecordDecoded, CountFrame, CountInvalid, Decode, DecodedStation, MessageType, Accepts, ChangesOwner;
    hide CountValid, RecordSemantic;
  }

  /** The counters and the arrival times of a run are those of the events since the last restart. */
  lemma {:induction false} CountersReachBack(d: Decoders, events: seq<Event>)
    ensures Recent(Run(d, events), events[Since(d, events)..])
    decreases |events|
  {
    if events == [] {
      ResetForgets(INITIAL);
    } else {
      hide *;
      var k := |events| - 1;
      RunLast(d, events);
      CountersReachBack(d, events[..k]);
      StepReachesBack(d, events, k);
    }
  }

  lemma SinceStep(d: Decoders, events: seq<Event>)
    requires events != []
    ensures var k := |events| - 1;
            Since(d, events) == if events[k].Clear? || events[k].ClearDynamic? then k + 1
                                else if Restarts(d, Run(d, events[..k]), events[k]) then k
                                else Since(d, events[..k])
  {
    hide Run, Restarts;
  }

  lemma StepReachesBack(d: Decoders, events: seq<Event>, k: nat)
    requires events != [] && k == |events| - 1
    requires Recent(Run(d, events[..k]), events[..k][Since(d, events[..k])..])
    ensures Recent(Step(d, Run(d, events[..k]), events[k]), events[Since(d, events)..])
  {
    hide *;
    var s, event := Run(d, events[..k]), events[k];
    SinceStep(d, events);
    if event.Clear? || event.ClearDynamic? {
      ResetForgets(s);
      ResetSteps(d, s, event);
      assert events[k + 1..] == [];
    } else {
      ArrivalCounts(d, s, event);
      if Restarts(d, s, event) {
        ResetForgets(s);
        RecentStep(INITIAL, Step(d, s, event), [], event);
        assert [] + [event] == events[k..];
      } else {
        var n := Since(d, events[..k]);
        RecentStep(s, Step(d, s, event), events[..k][n..], event);
        assert events[..k][n..] + [event] == events[n..];
      }
    }
  }

  lemma ResetSteps(d: Decoders, s: State, event: Event)
    requires event.Clear? || event.ClearDynamic?
    ensures Step(d, s, event) == if event.Clear? then INITIAL else ResetDynamic(s)
  {
    hide ResetDynamic;
  }

  /**
   In every run, each window the monitor keeps shows what the unpruned list of its arrivals since the last
   restart would show, for every interval that starts inside the retained minute.
   */
  lemma RateSeesRecentHistory(d: Decoders, events: seq<Event>, w: Window, from: int, to: int)
    requires W.In64Bits(Arrivals(w, events))
    ensures var s, history := Run(d, events), W.History(Arrivals(w, events[Since(d, events)..]));
            history != [] && from >= W.Latest(history) - 60_000_000_000 ==>
              W.Count(Stamps(s, w), from, to) == W.Count(history, from, to)
  {
    CountersReachBack(d, events);
    var recent := Arrivals(w, events[Since(d, events)..]);
    ArrivalsSuffix(w, events, Since(d, events));
    hide Run, Since, Stamps, Arrivals, W.Count, W.Latest, W.History, W.AppendAll;
    if W.History(recent) != [] && from >= W.Latest(W.History(recent)) - RETENTION {
      W.WindowAgreesWithHistory(RETENTION, recent, from, to);
    }
  }

  /**
   Each window holds exactly the times since the last restart that are at most sixty seconds, in
   nanoseconds, older than the latest of them, each as often as it arrived.
   */
  lemma HoldsTheLastMinute(d: Decoders, events: seq<Event>, w: Window, x: int)
    requires W.In64Bits(Arrivals(w, events))
    ensures var held, history := Stamps(Run(d, events), w), W.History(Arrivals(w, events[Since(d, events)..]));
            if history == [] then held == []
            else multiset(held)[x] == if W.Latest(history) - x <= 60_000_000_000 then multiset(history)[x] else 0
  {
    CountersReachBack(d, events);
    var recent := Arrivals(w, events[Since(d, events)..]);
    ArrivalsSuffix(w, events, Since(d, events));
    hide Run, Since, Stamps, Arrivals, W.Count, W.Latest, W.History, W.AppendAll;
    if W.History(recent) != [] {
      W.RetainedMultiset(RETENTION, recent, x);
    } else {
      W.RetainedFacts(RETENTION, recent);
      W.NothingRetained(W.AppendAll(RETENTION, recent), W.History(recent));
    }
  }

  lemma {:induction false} ArrivalsConcat(w: Window, a: seq<Event>, b: seq<Event>)
    ensures Arrivals(w, a + b) == Arrivals(w, a) + Arrivals(w, b)
  {
    hide Counts, TimeOf;
    if b == [] {
      assert a + b == a;
    } else {
      var n := |b| - 1;
      assert (a + b)[..|a| + n] == a + b[..n];
      ArrivalsConcat(w, a, b[..n]);
    }
  }

  lemma ArrivalsSuffix(w: Window, events: seq<Event>, n: nat)
    requires n <= |events| && W.In64Bits(Arrivals(w, events))
    ensures W.In64Bits(Arrivals(w, events[n..]))
  {
    ArrivalsConcat(w, events[..n], events[n..]);
    assert events[..n] + events[n..] == events;
    hide Arrivals;
    var a, b := Arrivals(w, events[..n]), Arrivals(w, events[n..]);
    assert forall i :: 0 <= i < |b| ==> b[i] == (a + b)[|a| + i];
  }
}
