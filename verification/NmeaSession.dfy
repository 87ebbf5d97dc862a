/**
 The NMEA-only session, `gnss_driver/src/nmea_session.cpp`. What happens to a valid sentence (parsing,
 the runtime aggregator and the counters they keep) is one deterministic function `route` on a state
 of any type.
 */
module NmeaSession {
  import opened Bits
  import opened Framing
  import opened NmeaFramer

  datatype Metrics = Metrics(bytesSeen: nat, sentencesSeen: nat, malformed: nat)

  datatype Session<N> = Session(held: Pending, metrics: Metrics, runtime: N)

  type Route<!N> = (N, NmeaSentence) -> N

  /** What the session does with one answer of its framer. */
  function Handle<N>(route: Route<N>, s: Session<N>, result: ParserResult<NmeaSentence>): Session<N> {
    match result
    case RecordReady(sentence) =>
      var seen := s.metrics.(sentencesSeen := s.metrics.sentencesSeen + 1);
      if sentence.validation.status != Valid then s.(metrics := seen.(malformed := seen.malformed + 1))
      else s.(metrics := seen, runtime := route(s.runtime, sentence))
    case Overflow | Truncated | InvalidData => s.(metrics := s.metrics.(malformed := s.metrics.malformed + 1))
    case Idle | NeedMoreData | Skipped => s
  }

  function FeedByte<N>(max: nat, route: Route<N>, s: Session<N>, b: Stamped): Session<N> {
    var (held, result) := Push(max, s.held, b);
    Handle(route, s.(held := held), result)
  }

  function FeedAll<N>(max: nat, route: Route<N>, s: Session<N>, input: seq<Stamped>): Session<N>
    decreases |input|
  {
    if input == [] then s else FeedAll(max, route, FeedByte(max, route, s, input[0]), input[1..])
  }

  function CountMore<N>(s: Session<N>, n: nat): Session<N> {
    s.(metrics := s.metrics.(bytesSeen := s.metrics.bytesSeen + n))
  }

  function Feed<N>(max: nat, route: Route<N>, s: Session<N>, chunk: seq<Stamped>): Session<N> {
    FeedAll(max, route, CountMore(s, |chunk|), chunk)
  }

  function Finish<N>(route: Route<N>, s: Session<N>): Session<N> {
    Handle(route, s.(held := []), Framing.Finalize(s.held))
  }

  function Fresh<N>(initial: N): Session<N> {
    Session([], Metrics(0, 0, 0), initial)
  }

  lemma {:induction false} FeedAllConcat<N>(max: nat, route: Route<N>, s: Session<N>, a: seq<Stamped>, b: seq<Stamped>)
    ensures FeedAll(max, route, s, a + b) == FeedAll(max, route, FeedAll(max, route, s, a), b)
    decreases |a|
  {
    hide FeedByte;
    if a == [] {
      assert a + b == b;
    } else {
      assert (a + b)[0] == a[0] && (a + b)[1..] == a[1..] + b;
      FeedAllConcat(max, route, FeedByte(max, route, s, a[0]), a[1..], b);
    }
  }

  lemma CountByte<N>(max: nat, route: Route<N>, s: Session<N>, b: Stamped, n: nat)
    ensures FeedByte(max, route, CountMore(s, n), b) == CountMore(FeedByte(max, route, s, b), n)
  {
    hide Push;
  }

  lemma {:induction false} CountAll<N>(max: nat, route: Route<N>, s: Session<N>, input: seq<Stamped>, n: nat)
    ensures FeedAll(max, route, CountMore(s, n), input) == CountMore(FeedAll(max, route, s, input), n)
    decreases |input|
  {
    hide FeedByte, CountMore;
    if input != [] {
      CountByte(max, route, s, input[0], n);
      CountAll(max, route, FeedByte(max, route, s, input[0]), input[1..], n);
    }
  }

  /** Feeding two chunks one after the other is feeding them joined. */
  lemma FeedJoin<N>(max: nat, route: Route<N>, s: Session<N>, a: seq<Stamped>, b: seq<Stamped>)
    ensures Feed(max, route, Feed(max, route, s, a), b) == Feed(max, route, s, a + b)
  {
    FeedAllConcat(max, route, CountMore(s, |a| + |b|), a, b);
    CountAll(max, route, CountMore(s, |a|), a, |b|);
  }

  // ----- The session follows its framer ------------------------------------------------------

  /** The valid sentences of a list, routed in order. */
  function RouteAll<N>(route: Route<N>, runtime: N, sentences: seq<NmeaSentence>): N
    decreases |sentences|
  {
    if sentences == [] then runtime
    else RouteAll(route, if sentences[0].validation.status == Valid then route(runtime, sentences[0]) else runtime,
                  sentences[1..])
  }

  function NotValid(sentences: seq<NmeaSentence>): nat {
    if sentences == [] then 0
    else (if sentences[0].validation.status == Valid then 0 else 1) + NotValid(sentences[1..])
  }

  /** The bytes at which the framer gave a line up because it grew past the limit. */
  function GivenUp(max: nat, held: Pending, input: seq<Stamped>): nat
    decreases |input|
  {
    if input == [] then 0
    else (if Push(max, held, input[0]).1.Overflow? then 1 else 0) + GivenUp(max, Push(max, held, input[0]).0, input[1..])
  }

  lemma ByteFollows<N>(max: nat, route: Route<N>, s: Session<N>, b: Stamped)
    ensures var (next, result) := Push(max, s.held, b);
            var r := FeedByte(max, route, s, b);
            var reported := if result.RecordReady? then [result.record] else [];
            && r.held == next && r.metrics.bytesSeen == s.metrics.bytesSeen
            && r.metrics.sentencesSeen == s.metrics.sentencesSeen + |reported|
            && r.metrics.malformed == s.metrics.malformed + NotValid(reported) + (if result.Overflow? then 1 else 0)
            && r.runtime == RouteAll(route, s.runtime, reported)
  {
    hide SentenceOf;
    var (next, result) := Push(max, s.held, b);
    if result.RecordReady? {
      assert [result.record][1..] == [];
    }
  }

  lemma {:induction false} ListsAdd<N>(route: Route<N>, runtime: N, a: seq<NmeaSentence>, b: seq<NmeaSentence>)
    ensures RouteAll(route, runtime, a + b) == RouteAll(route, RouteAll(route, runtime, a), b)
    ensures NotValid(a + b) == NotValid(a) + NotValid(b)
    decreases |a|
  {
    if a == [] {
      assert a + b == b;
    } else {
      assert (a + b)[0] == a[0] && (a + b)[1..] == a[1..] + b;
      ListsAdd(route, if a[0].validation.status == Valid then route(runtime, a[0]) else runtime, a[1..], b);
    }
  }

  lemma {:induction false} AllFollows<N>(max: nat, route: Route<N>, s: Session<N>, input: seq<Stamped>)
    ensures var (held, sentences) := Run(FramerFor(max), s.held, input);
            var r := FeedAll(max, route, s, input);
            && r.held == held && r.metrics.bytesSeen == s.metrics.bytesSeen
            && r.metrics.sentencesSeen == s.metrics.sentencesSeen + |sentences|
            && r.metrics.malformed == s.metrics.malformed + NotValid(sentences) + GivenUp(max, s.held, input)
            && r.runtime == RouteAll(route, s.runtime, sentences)
    decreases |input|
  {
    hide Push, FeedByte;
    if input != [] {
      var (next, result) := Push(max, s.held, input[0]);
      ByteFollows(max, route, s, input[0]);
      var t := FeedByte(max, route, s, input[0]);
      AllFollows(max, route, t, input[1..]);
      var reported := if result.RecordReady? then [result.record] else [];
      ListsAdd(route, s.runtime, reported, Run(FramerFor(max), next, input[1..]).1);
    }
  }

  /**
   After one read the session has counted its bytes and every sentence its framer reported, routed the
   valid ones in order, and counted as malformed the others and the lines that were given up.
   */
  lemma SessionFollowsFramer<N>(max: nat, route: Route<N>, s: Session<N>, input: seq<Stamped>)
    ensures var (held, sentences) := Run(FramerFor(max), s.held, input);
            Feed(max, route, s, input)
              == Session(held,
                         Metrics(s.metrics.bytesSeen + |input|, s.metrics.sentencesSeen + |sentences|,
                                 s.metrics.malformed + NotValid(sentences) + GivenUp(max, s.held, input)),
                         RouteAll(route, s.runtime, sentences))
  {
    AllFollows(max, route, CountMore(s, |input|), input);
    hide Run, FeedAll;
  }

  /** Finalizing drops what is held and counts it as one malformed sentence, and nothing else. */
  lemma FinishCountsWhatIsHeld<N>(route: Route<N>, s: Session<N>)
    ensures Finish(route, s)
         == Session([], s.metrics.(malformed := s.metrics.malformed + (if s.held == [] then 0 else 1)), s.runtime)
  {
  }

  class NmeaSession<N> {
    const max: nat
    const route: Route<N>
    const initial: N
    const framer: NmeaSentenceFramer
    var metrics: Metrics
    var runtime: N

    ghost predicate Valid()
      reads this, framer
    {
      framer.maxFrameLength == max && framer.Valid()
    }

    ghost function State(): Session<N>
      reads this, framer
    {
      Session(framer.held, metrics, runtime)
    }

    constructor (max: nat, route: Route<N>, initial: N)
      ensures Valid() && fresh(framer) && State() == Fresh(initial)
      ensures this.max == max && this.route == route && this.initial == initial
    {
      var sentenceFramer := new NmeaSentenceFramer(max);
      framer := sentenceFramer;
      this.max, this.route, this.initial := max, route, initial;
      metrics, runtime := Metrics(0, 0, 0), initial;
    }

    method FeedBytes(data: seq<byte>, ts: Timestamp)
      requires Valid()
      modifies this, framer
      ensures Valid()
      ensures State() == Feed(max, route, old(State()), StampAll(data, ts))
    {
      hide Push, Handle;
      ghost var input := StampAll(data, ts);
      metrics := metrics.(bytesSeen := metrics.bytesSeen + |data|);
      for index := 0 to |data|
        invariant Valid()
        invariant FeedAll(max, route, State(), input[index..]) == Feed(max, route, old(State()), input)
      {
        ghost var before := State();
        assert input[index..][0] == Stamped(data[index], ts) && input[index..][1..] == input[index + 1..];
        var result := framer.PushByte(data[index], ts);
        HandleFramerResult(result);
        assert State() == FeedByte(max, route, before, Stamped(data[index], ts));
      }
    }

    method HandleFramerResult(result: ParserResult<NmeaSentence>)
      modifies `metrics, `runtime
      ensures State() == Handle(route, old(State()), result)
    {
      match result {
        case RecordReady(sentence) =>
          metrics := metrics.(sentencesSeen := metrics.sentencesSeen + 1);
          if sentence.validation.status != ChecksumStatus.Valid {
            metrics := metrics.(malformed := metrics.malformed + 1);
            return;
          }
          runtime := route(runtime, sentence);
        case Overflow | Truncated | InvalidData =>
          metrics := metrics.(malformed := metrics.malformed + 1);
        case Idle | NeedMoreData | Skipped =>
      }
    }

    method Finalize()
      requires Valid()
      modifies this, framer
      ensures Valid()
      ensures State() == Finish(route, old(State()))
    {
      var result := framer.Finalize();
      HandleFramerResult(result);
    }

    method Reset()
      requires Valid()
      modifies this, framer
      ensures Valid()
      ensures State() == Fresh(initial)
    {
      framer.Reset();
      metrics, runtime := Metrics(0, 0, 0), initial;
    }
  }
}
