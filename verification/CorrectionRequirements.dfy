/**
 When exactly the correction requirements are satisfied, in terms of the frames of a run alone: the
 window is counted out on the frames' own times, not on what the monitor keeps about them.
 */
module CorrectionRequirements {
  import opened Bits
  import opened RtcmFramer
  import opened RtcmParser
  import opened CorrectionMonitor
  import opened CorrectionRuns

  /** The frames of one message type, or of one constellation. */
  datatype Kind = Type(t: nat) | System(c: Constellation)

  predicate Is(k: Kind, frame: RtcmFrame) {
    match k
    case Type(t) => TypeOf(frame) == t
    case System(c) => MsmConstellation(TypeOf(frame)) == Some(c)
  }

  ghost predicate Heard(evidence: seq<RtcmFrame>, k: Kind) {
    exists i :: 0 <= i < |evidence| && Is(k, evidence[i])
  }

  /** If the time is known, no frame of the kind is later than it ... */
  ghost predicate NoneLater(evidence: seq<RtcmFrame>, k: Kind, o: Options) {
    forall i :: 0 <= i < |evidence| && Is(k, evidence[i]) ==>
      (o.now.Some? && evidence[i].ts.Some? ==> evidence[i].ts.value <= o.now.value)
  }

  /** ... and if there also is a window, one of them is at most the window older. */
  ghost predicate OneRecent(evidence: seq<RtcmFrame>, k: Kind, o: Options) {
    o.now.Some? && o.window > 0 ==>
      exists i :: 0 <= i < |evidence| && Is(k, evidence[i])
                  && evidence[i].ts.Some? && o.now.value - evidence[i].ts.value <= o.window
  }

  ghost predicate Current(evidence: seq<RtcmFrame>, k: Kind, o: Options) {
    Heard(evidence, k) && NoneLater(evidence, k, o) && OneRecent(evidence, k, o)
  }

  /** A station position does not age. */
  ghost predicate TypeMet(evidence: seq<RtcmFrame>, t: nat, o: Options) {
    if t in [1005, 1006] then Heard(evidence, Type(t)) else Current(evidence, Type(t), o)
  }

  /** Every requirement, on the evidence. */
  ghost predicate Met(evidence: seq<RtcmFrame>, o: Options) {
    && (forall i :: 0 <= i < |o.messageTypes| ==> TypeMet(evidence, o.messageTypes[i], o))
    && (forall i :: 0 <= i < |o.constellations| ==>
          o.constellations[i].Some? && Current(evidence, System(o.constellations[i].value), o))
    && (o.requireAnyMsm ==> exists c :: Current(evidence, System(c), o))
    && (o.requireBasePosition ==> Heard(evidence, Type(1005)) || Heard(evidence, Type(1006)))
    && (o.requireGlonassBias ==> Current(evidence, Type(1230), o))
  }

  // ----- What the tally keeps of a kind ------------------------------------------------------

  function Entry(s: Semantic, k: Kind): Option<Activity> {
    match k
    case Type(t) => if t in s.messages then Some(s.messages[t]) else None
    case System(c) => if c in s.constellations then Some(s.constellations[c]) else None
  }

  lemma EntryStep(s: Semantic, frame: RtcmFrame, k: Kind)
    ensures var before, after := Entry(s, k), Entry(RecordSemantic(s, TypeOf(frame), frame.ts), k);
            after == if !Is(k, frame) then before
                     else if before == None then Some(Activity(1, UpdateLatest(frame.ts, None)))
                     else Some(Activity(before.value.count + 1, UpdateLatest(frame.ts, before.value.lastSeen)))
  {
    hide TypeOf, MsmConstellation, UpdateLatest;
  }

  /** The entry of a kind is there if it was heard, and carries its latest known time. */
  ghost predicate Summarises(entry: Option<Activity>, evidence: seq<RtcmFrame>, k: Kind) {
    && (entry.Some? <==> Heard(evidence, k))
    && (entry.Some? ==>
          && entry.value.count > 0
          && (forall i :: 0 <= i < |evidence| && Is(k, evidence[i]) && evidence[i].ts.Some? ==>
                entry.value.lastSeen.Some? && evidence[i].ts.value <= entry.value.lastSeen.value)
          && (entry.value.lastSeen.Some? ==>
                exists i :: 0 <= i < |evidence| && Is(k, evidence[i]) && evidence[i].ts == entry.value.lastSeen))
  }

  lemma {:induction false} TallySummarises(evidence: seq<RtcmFrame>, k: Kind)
    ensures Summarises(Entry(Tally(evidence), k), evidence, k)
  {
    if evidence != [] {
      var n := |evidence| - 1;
      TallySummarises(evidence[..n], k);
      EntryStep(Tally(evidence[..n]), evidence[n], k);
      SummaryGrows(Entry(Tally(evidence[..n]), k), Entry(Tally(evidence), k), evidence[..n], evidence[n], k);
      assert evidence == evidence[..n] + [evidence[n]];
    }
  }

  lemma SummaryGrows(before: Option<Activity>, after: Option<Activity>, front: seq<RtcmFrame>, frame: RtcmFrame, k: Kind)
    requires Summarises(before, front, k)
    requires after == if !Is(k, frame) then before
                      else if before == None then Some(Activity(1, UpdateLatest(frame.ts, None)))
                      else Some(Activity(before.value.count + 1, UpdateLatest(frame.ts, before.value.lastSeen)))
    ensures Summarises(after, front + [frame], k)
  {
    hide Is;
    var all := front + [frame];
    assert all[|front|] == frame && forall i :: 0 <= i < |front| ==> all[i] == front[i];
    if before.Some? && before.value.lastSeen.Some? {
      var i :| 0 <= i < |front| && Is(k, front[i]) && front[i].ts == before.value.lastSeen;
      assert all[i] == front[i];
    }
    if Heard(front, k) {
      var i :| 0 <= i < |front| && Is(k, front[i]);
      assert all[i] == front[i];
    }
    if Is(k, frame) {
      assert Is(k, all[|front|]);
    }
  }

  /** A kind is active, as the monitor tests it, exactly when its frames are current. */
  lemma ActiveIffCurrent(entry: Option<Activity>, evidence: seq<RtcmFrame>, k: Kind, o: Options)
    requires Summarises(entry, evidence, k)
    ensures entry.Some? && Active(entry.value, o) <==> Current(evidence, k, o)
  {
    hide Is;
    if entry.Some? {
      var latest := entry.value.lastSeen;
      if latest.Some? {
        var i :| 0 <= i < |evidence| && Is(k, evidence[i]) && evidence[i].ts == latest;
        assert NoneLater(evidence, k, o) <==> (o.now.Some? ==> latest.value <= o.now.value);
        assert OneRecent(evidence, k, o) <==> (o.now.Some? && o.window > 0 ==> o.now.value - latest.value <= o.window);
      } else {
        assert NoneLater(evidence, k, o);
        assert OneRecent(evidence, k, o) <==> !(o.now.Some? && o.window > 0);
      }
    }
  }

  lemma TypeMetIff(s: State, evidence: seq<RtcmFrame>, t: nat, o: Options)
    requires s.semantic == Tally(evidence)
    ensures HasMessageType(s, t, o) <==> TypeMet(evidence, t, o)
  {
    hide Tally, Summarises, Current, Heard, Active;
    TallySummarises(evidence, Type(t));
    ActiveIffCurrent(Entry(s.semantic, Type(t)), evidence, Type(t), o);
    SummaryCounts(Entry(s.semantic, Type(t)), evidence, Type(t));
  }

  lemma SummaryCounts(entry: Option<Activity>, evidence: seq<RtcmFrame>, k: Kind)
    requires Summarises(entry, evidence, k)
    ensures entry.Some? <==> Heard(evidence, k)
    ensures entry.Some? ==> entry.value.count > 0
  {
    hide Is, Heard;
  }

  lemma SystemMetIff(s: State, evidence: seq<RtcmFrame>, c: Constellation, o: Options)
    requires s.semantic == Tally(evidence)
    ensures HasConstellation(s, Some(c), o) <==> Current(evidence, System(c), o)
  {
    hide Tally, Summarises, Current, Active;
    TallySummarises(evidence, System(c));
    ActiveIffCurrent(Entry(s.semantic, System(c)), evidence, System(c), o);
  }

  lemma BaseMetIff(s: State, evidence: seq<RtcmFrame>)
    requires s.semantic == Tally(evidence)
    ensures HasBasePosition(s) <==> Heard(evidence, Type(1005)) || Heard(evidence, Type(1006))
  {
    hide Tally, Summarises, Heard;
    TallySummarises(evidence, Type(1005));
    TallySummarises(evidence, Type(1006));
    SummaryCounts(Entry(s.semantic, Type(1005)), evidence, Type(1005));
    SummaryCounts(Entry(s.semantic, Type(1006)), evidence, Type(1006));
  }

  lemma AnyMsmIff(s: State, o: Options)
    ensures HasAnyMsm(s, o) <==> exists c :: HasConstellation(s, Some(c), o)
  {
    hide Active;
    if HasAnyMsm(s, o) {
      var c :| c in s.semantic.constellations && Active(s.semantic.constellations[c], o);
      assert HasConstellation(s, Some(c), o);
    }
  }

  lemma NoConstellation(s: State, o: Options)
    ensures !HasConstellation(s, None, o)
  {
  }

  lemma EvidenceIsKept(evidence: seq<RtcmFrame>)
    ensures Tally(evidence).messages != map[] <==> evidence != []
  {
    if evidence != [] {
      TallySummarises(evidence, Type(TypeOf(evidence[|evidence| - 1])));
      assert Is(Type(TypeOf(evidence[|evidence| - 1])), evidence[|evidence| - 1]);
      hide Tally, TypeOf;
    }
  }

  lemma SystemsMetIff(s: State, evidence: seq<RtcmFrame>, c: Option<Constellation>, o: Options)
    requires s.semantic == Tally(evidence)
    ensures HasConstellation(s, c, o) <==> c.Some? && Current(evidence, System(c.value), o)
  {
    hide Tally, Current, Active, HasConstellation;
    match c {
      case None => NoConstellation(s, o);
      case Some(x) => SystemMetIff(s, evidence, x, o);
    }
  }

  lemma AnyMsmMetIff(s: State, evidence: seq<RtcmFrame>, o: Options)
    requires s.semantic == Tally(evidence)
    ensures HasAnyMsm(s, o) <==> exists c :: Current(evidence, System(c), o)
  {
    hide Tally, HasConstellation, HasAnyMsm, Current;
    AnyMsmIff(s, o);
    forall c ensures HasConstellation(s, Some(c), o) <==> Current(evidence, System(c), o) {
      SystemMetIff(s, evidence, c, o);
    }
  }

  lemma RequiredIffMet(s: State, evidence: seq<RtcmFrame>, o: Options)
    requires s.semantic == Tally(evidence)
    ensures HasRequired(s, o) <==> s.frames.valid != 0 && evidence != [] && Met(evidence, o)
  {
    hide Tally, HasMessageType, TypeMet, HasConstellation, HasAnyMsm, HasBasePosition, Heard, Active, Current;
    EvidenceIsKept(evidence);
    forall t ensures HasMessageType(s, t, o) <==> TypeMet(evidence, t, o) {
      TypeMetIff(s, evidence, t, o);
    }
    forall c ensures HasConstellation(s, c, o) <==> c.Some? && Current(evidence, System(c.value), o) {
      SystemsMetIff(s, evidence, c, o);
    }
    AnyMsmMetIff(s, evidence, o);
    BaseMetIff(s, evidence);
    BiasAges(evidence, o);
  }

  lemma BiasAges(evidence: seq<RtcmFrame>, o: Options)
    ensures TypeMet(evidence, 1230, o) <==> Current(evidence, Type(1230), o)
  {
    hide Current;
  }

  /**
   In every run the requirements are satisfied if and only if a valid frame came since the last restart
   and the frames that decode to the owner, as far as no reset dropped them, meet every one of them.
   */
  lemma SatisfiedIff(d: Decoders, events: seq<Event>, o: Options)
    ensures HasRequired(Run(d, events), o) <==>
              && Arrivals(ValidFrames, events[Since(d, events)..]) != []
              && EvidenceOf(d, events) != [] && Met(EvidenceOf(d, events), o)
    ensures AllAttest(d, EvidenceOf(d, events), Run(d, events).stationId)
    ensures Subsequence(EvidenceOf(d, events), FramesOf(events))
  {
    hide HasRequired, Met, Run, Since, EvidenceOf, Arrivals, Stamps, FramesOf, AllAttest, Subsequence, Tally, Owned;
    var evidence := RunEvidence(d, events);
    CountersReachBack(d, events);
    RequiredIffMet(Run(d, events), evidence, o);
  }

  // ----- The evidence of a run ---------------------------------------------------------------

  lemma {:induction false} OneStationsFrames(d: Decoders, events: seq<Event>, station: nat)
    requires events != [] && forall i :: 0 <= i < |events| ==>
               events[i].Frame? && StationOf(d, events[i].frame) == Some(station)
    ensures EvidenceOf(d, events) == FramesOf(events) && Run(d, events).stationId == Some(station)
  {
    var n := |events| - 1;
    hide PrepareOwnership, CountFrame, CountValid, RecordFlow, RecordDecoded, RecordSemantic, Decode, DecodedStation,
      MessageType, Accepts;
    TakesOwnership(d, Run(d, events[..n]), events[n].frame, station);
    if n > 0 {
      OneStationsFrames(d, events[..n], station);
    }
  }

  lemma TakesOwnership(d: Decoders, s: State, frame: RtcmFrame, station: nat)
    requires StationOf(d, frame) == Some(station)
    ensures Observe(d, s, frame).stationId == Some(station)
  {
    hide CountFrame, CountValid, RecordFlow, RecordDecoded, RecordSemantic, Decode, DecodedStation, MessageType, Accepts;
  }
}
