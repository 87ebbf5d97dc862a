/**
 The receiver session, `gnss_driver/src/receiver_session.cpp`: bytes are buffered until a vendor is
 recognised, then replayed byte by byte into the session of that vendor. The Unicore session is an
 uninterpreted deterministic step over the chunks it is fed.
 */
module ReceiverSession {
  import opened Bits
  import opened Framing
  import opened StreamDetector
  import U = UbloxSession
  import N = NmeaSession
  import NmeaChecksum
  import UbxStream
  import UnicoreFramer
  import UnicoreBinaryFramer

  datatype Kind = Ublox | Unicore | Nmea

  /** `kind` is `None` for automatic detection. */
  datatype Config = Config(
    kind: Option<Kind>, maxPending: nat, allowGenericNmea: bool,
    nmeaMax: nat, ublox: U.Config, unicoreMax: nat, unicoreBinaryMax: nat)

  /** What is fixed for one session: its configuration and the uninterpreted parts of its children. */
  datatype Setup<!A, !B, !C> = Setup(
    config: Config, parses: UnicoreParser, ubloxRoute: U.Route<A>, nmeaRoute: N.Route<B>,
    unicoreFeed: (C, seq<Stamped>) -> C, unicoreFinish: C -> C, ublox0: A, nmea0: B, unicore0: C)

  /** Everything that changes. */
  datatype State<A, B, C> = State(
    selected: Option<Kind>, bytesSeen: nat, switches: nat, pending: seq<Stamped>,
    ublox: U.Session<A>, nmea: N.Session<B>, unicore: C)

  // ----- Choosing a vendor -----------------------------------------------------------------

  predicate SupportedUnicore(f: UnicoreFramer.UnicoreFrame) {
    f.syncChar != NmeaChecksum.DOLLAR && f.messageName != []
  }

  predicate UbxSeen(config: Config, pending: seq<Stamped>) {
    FirstAccepted(UbxStream.FramerFor(config.ublox.maxUbx), AcceptsUbx, [], pending).Some?
  }

  predicate UnicoreSeen(config: Config, pending: seq<Stamped>) {
    || FirstAccepted(UnicoreFramer.FramerFor(config.unicoreMax), SupportedUnicore, [], pending).Some?
    || FirstAccepted(UnicoreBinaryFramer.FramerFor(config.unicoreBinaryMax), AcceptsUnicoreBinary, [], pending).Some?
  }

  /** The detector looks at the bytes only, without their read times. */
  function Earliest(parses: UnicoreParser, pending: seq<Stamped>): Protocol {
    Detected(parses, StampAll(Values(pending), None)).protocol
  }

  /** A verified vendor record decides; failing that, one kind of vendor record and not the other. */
  function Choose(config: Config, parses: UnicoreParser, pending: seq<Stamped>): Option<Kind> {
    if pending == [] then None
    else
      var earliest := Earliest(parses, pending);
      if earliest == Protocol.Ubx then Some(Ublox)
      else if earliest == UnicoreAscii || earliest == UnicoreBinary then Some(Unicore)
      else
        var ubx, unicore := UbxSeen(config, pending), UnicoreSeen(config, pending);
        if ubx == unicore then
          if config.allowGenericNmea && earliest == Protocol.Nmea && !ubx then Some(Kind.Nmea) else None
        else if ubx then Some(Ublox)
        else Some(Unicore)
  }

  // ----- The session as a function ---------------------------------------------------------

  function Last<T>(s: seq<T>, n: nat): (l: seq<T>)
    ensures |l| == (if |s| <= n then |s| else n) && IsSuffix(l, s)
  {
    if |s| <= n then s else s[|s| - n..]
  }

  function RouteTo<A, B, C>(e: Setup<A, B, C>, s: State<A, B, C>, chunk: seq<Stamped>): State<A, B, C> {
    match s.selected
    case Some(Ublox) => s.(ublox := U.Feed(e.config.ublox, e.ubloxRoute, s.ublox, chunk))
    case Some(Unicore) => s.(unicore := e.unicoreFeed(s.unicore, chunk))
    case Some(Nmea) => s.(nmea := N.Feed(e.config.nmeaMax, e.nmeaRoute, s.nmea, chunk))
    case None => s
  }

  /** The buffered bytes, one by one. */
  function Replay<A, B, C>(e: Setup<A, B, C>, s: State<A, B, C>, bytes: seq<Stamped>): State<A, B, C>
    decreases |bytes|
  {
    if bytes == [] then s else Replay(e, RouteTo(e, s, [bytes[0]]), bytes[1..])
  }

  function Select<A, B, C>(e: Setup<A, B, C>, s: State<A, B, C>, kind: Kind): State<A, B, C> {
    Replay(e, s.(selected := Some(kind)), s.pending).(pending := [])
  }

  function Feed<A, B, C>(e: Setup<A, B, C>, s: State<A, B, C>, chunk: seq<Stamped>): State<A, B, C> {
    if chunk == [] then s
    else
      var counted := s.(bytesSeen := s.bytesSeen + |chunk|);
      if s.selected.Some? then RouteTo(e, counted, chunk)
      else
        var grown := counted.(pending := s.pending + chunk);
        match Choose(e.config, e.parses, grown.pending)
        case Some(kind) => Select(e, grown, kind)
        case None => grown.(pending := Last(grown.pending, e.config.maxPending))
  }

  function FinishChild<A, B, C>(e: Setup<A, B, C>, s: State<A, B, C>): State<A, B, C> {
    match s.selected
    case Some(Ublox) => s.(ublox := U.Finish(e.config.ublox, e.ubloxRoute, s.ublox))
    case Some(Unicore) => s.(unicore := e.unicoreFinish(s.unicore))
    case Some(Nmea) => s.(nmea := N.Finish(e.nmeaRoute, s.nmea))
    case None => s.(pending := [])
  }

  /** `Finalize` tries once more to choose, on what is still buffered. */
  function Finish<A, B, C>(e: Setup<A, B, C>, s: State<A, B, C>): State<A, B, C> {
    if s.selected.Some? then FinishChild(e, s)
    else match Choose(e.config, e.parses, s.pending)
      case Some(kind) => FinishChild(e, Select(e, s, kind))
      case None => FinishChild(e, s)
  }

  function Fresh<A, B, C>(e: Setup<A, B, C>): State<A, B, C> {
    State(e.config.kind, 0, 0, [], U.Fresh(e.ublox0), N.Fresh(e.nmea0), e.unicore0)
  }

  function FeedChunks<A, B, C>(e: Setup<A, B, C>, s: State<A, B, C>, chunks: seq<seq<Stamped>>): State<A, B, C>
    decreases |chunks|
  {
    if chunks == [] then s else FeedChunks(e, Feed(e, s, chunks[0]), chunks[1..])
  }

  // ----- Replaying is feeding --------------------------------------------------------------

  /** The Unicore session after a list of chunks. */
  function UnicoreAfter<C>(feed: (C, seq<Stamped>) -> C, c: C, chunks: seq<seq<Stamped>>): C
    decreases |chunks|
  {
    if chunks == [] then c else UnicoreAfter(feed, feed(c, chunks[0]), chunks[1..])
  }

  function Singles(bytes: seq<Stamped>): (chunks: seq<seq<Stamped>>)
    ensures |chunks| == |bytes|
  {
    seq(|bytes|, i requires 0 <= i < |bytes| => [bytes[i]])
  }

  /** Replaying byte by byte leaves each child as one call with all the bytes would. */
  lemma {:induction false} ReplayIsFeed<A, B, C>(e: Setup<A, B, C>, s: State<A, B, C>, bytes: seq<Stamped>)
    ensures s.selected == Some(Ublox) ==>
              Replay(e, s, bytes) == s.(ublox := U.Feed(e.config.ublox, e.ubloxRoute, s.ublox, bytes))
    ensures s.selected == Some(Kind.Nmea) ==>
              Replay(e, s, bytes) == s.(nmea := N.Feed(e.config.nmeaMax, e.nmeaRoute, s.nmea, bytes))
    ensures s.selected == Some(Unicore) ==>
              Replay(e, s, bytes) == s.(unicore := UnicoreAfter(e.unicoreFeed, s.unicore, Singles(bytes)))
    decreases |bytes|
  {
    if bytes == [] {
      assert N.Feed(e.config.nmeaMax, e.nmeaRoute, s.nmea, bytes) == s.nmea;
    } else {
      ReplayIsFeed(e, RouteTo(e, s, [bytes[0]]), bytes[1..]);
      hide U.Feed, N.Feed;
      assert [bytes[0]] + bytes[1..] == bytes;
      U.FeedJoin(e.config.ublox, e.ubloxRoute, s.ublox, [bytes[0]], bytes[1..]);
      N.FeedJoin(e.config.nmeaMax, e.nmeaRoute, s.nmea, [bytes[0]], bytes[1..]);
      assert Singles(bytes)[1..] == Singles(bytes[1..]);
    }
  }

  // ----- The selection is locked -----------------------------------------------------------

  datatype Event = Read(chunk: seq<Stamped>) | End

  function Step<A, B, C>(e: Setup<A, B, C>, s: State<A, B, C>, event: Event): State<A, B, C> {
    match event
    case Read(chunk) => Feed(e, s, chunk)
    case End => Finish(e, s)
  }

  function RunEvents<A, B, C>(e: Setup<A, B, C>, s: State<A, B, C>, events: seq<Event>): State<A, B, C>
    decreases |events|
  {
    if events == [] then s else RunEvents(e, Step(e, s, events[0]), events[1..])
  }

  lemma {:induction false} ReplayKeeps<A, B, C>(e: Setup<A, B, C>, s: State<A, B, C>, bytes: seq<Stamped>)
    ensures Replay(e, s, bytes).selected == s.selected && Replay(e, s, bytes).switches == s.switches
    decreases |bytes|
  {
    hide U.Feed, N.Feed;
    if bytes != [] {
      ReplayKeeps(e, RouteTo(e, s, [bytes[0]]), bytes[1..]);
    }
  }

  lemma SelectKeeps<A, B, C>(e: Setup<A, B, C>, s: State<A, B, C>, kind: Kind)
    ensures var t := Select(e, s, kind);
            t.selected == Some(kind) && t.switches == s.switches && t.pending == []
  {
    ReplayKeeps(e, s.(selected := Some(kind)), s.pending);
  }

  lemma StepKeeps<A, B, C>(e: Setup<A, B, C>, s: State<A, B, C>, event: Event)
    requires s.selected.Some? ==> s.pending == []
    ensures var t := Step(e, s, event);
            && t.switches == s.switches
            && (t.selected.Some? ==> t.pending == [])
            && (s.selected.Some? ==> t.selected == s.selected)
  {
    hide U.Feed, N.Feed, U.Finish, N.Finish, Choose, Select;
    match event {
      case Read(chunk) =>
        var grown := s.(bytesSeen := s.bytesSeen + |chunk|, pending := s.pending + chunk);
        var choice := Choose(e.config, e.parses, grown.pending);
        if choice.Some? {
          SelectKeeps(e, grown, choice.value);
        }
      case End =>
        var choice := Choose(e.config, e.parses, s.pending);
        if choice.Some? {
          SelectKeeps(e, s, choice.value);
        }
    }
  }

  /** Whatever is read and whenever input ends, a selected kind stays, and no switch is ever counted. */
  lemma {:induction false} SelectionIsLocked<A, B, C>(e: Setup<A, B, C>, s: State<A, B, C>, events: seq<Event>)
    requires s.selected.Some? ==> s.pending == []
    ensures var t := RunEvents(e, s, events);
            && t.switches == s.switches
            && (t.selected.Some? ==> t.pending == [])
            && (s.selected.Some? ==> t.selected == s.selected)
    decreases |events|
  {
    hide Step;
    if events != [] {
      StepKeeps(e, s, events[0]);
      SelectionIsLocked(e, Step(e, s, events[0]), events[1..]);
    }
  }

  // ----- The child sees one contiguous suffix ----------------------------------------------

  /** Every child but the selected one is as built. */
  predicate FreshChildren<A(==), B(==), C(==)>(e: Setup<A, B, C>, s: State<A, B, C>, but: Option<Kind>) {
    && (but != Some(Ublox) ==> s.ublox == U.Fresh(e.ublox0))
    && (but != Some(Kind.Nmea) ==> s.nmea == N.Fresh(e.nmea0))
    && (but != Some(Unicore) ==> s.unicore == e.unicore0)
  }

  /**
   What the selected child was fed: the last `maxPending` of the bytes read before the call that
   selected it (or all of them), and every byte from that call on.
   */
  ghost predicate FedSuffix<A, B, C>(e: Setup<A, B, C>, s: State<A, B, C>, before: seq<Stamped>, after: seq<Stamped>) {
    var suffix := Last(before, e.config.maxPending) + after;
    match s.selected
    case Some(Ublox) => s.ublox == U.Feed(e.config.ublox, e.ubloxRoute, U.Fresh(e.ublox0), suffix)
    case Some(Nmea) => s.nmea == N.Feed(e.config.nmeaMax, e.nmeaRoute, N.Fresh(e.nmea0), suffix)
    case Some(Unicore) =>
      exists chunks :: U.Flatten(chunks) == suffix && s.unicore == UnicoreAfter(e.unicoreFeed, e.unicore0, chunks)
    case None => false
  }

  /** No kind is selected: no child has been fed, and the last bytes of the stream are buffered. */
  predicate Buffering<A(==), B(==), C(==)>(e: Setup<A, B, C>, s: State<A, B, C>, stream: seq<Stamped>) {
    s.selected == None && FreshChildren(e, s, None) && s.pending == Last(stream, e.config.maxPending)
  }

  /** A kind is selected, its child has been fed one suffix, and no other child has been fed. */
  ghost predicate SeesSuffix<A, B, C>(e: Setup<A, B, C>, s: State<A, B, C>, before: seq<Stamped>, after: seq<Stamped>) {
    s.selected.Some? && s.pending == [] && FreshChildren(e, s, s.selected) && FedSuffix(e, s, before, after)
  }

  /** Read number `k` is the one that selects. */
  predicate SelectsAt<A, B, C>(e: Setup<A, B, C>, s: State<A, B, C>, chunks: seq<seq<Stamped>>, k: nat) {
    && k < |chunks|
    && FeedChunks(e, s, chunks[..k]).selected == None && FeedChunks(e, s, chunks[..k + 1]).selected.Some?
  }

  lemma LastAppend<T>(s: seq<T>, t: seq<T>, n: nat)
    ensures Last(Last(s, n) + t, n) == Last(s + t, n)
  {
    var cut := |s| - |Last(s, n)|;
    assert Last(s, n) + t == (s + t)[cut..];
    if |Last(s, n) + t| > n {
      assert (s + t)[cut..][|s + t| - cut - n..] == (s + t)[|s + t| - n..];
    }
  }

  lemma {:induction false} UnicoreAfterConcat<C>(feed: (C, seq<Stamped>) -> C, c: C, a: seq<seq<Stamped>>, b: seq<seq<Stamped>>)
    ensures UnicoreAfter(feed, c, a + b) == UnicoreAfter(feed, UnicoreAfter(feed, c, a), b)
    ensures U.Flatten(a + b) == U.Flatten(a) + U.Flatten(b)
    decreases |a|
  {
    if a == [] {
      assert a + b == b;
    } else {
      assert (a + b)[0] == a[0] && (a + b)[1..] == a[1..] + b;
      UnicoreAfterConcat(feed, feed(c, a[0]), a[1..], b);
    }
  }

  lemma {:induction false} FlattenSingles(bytes: seq<Stamped>)
    ensures U.Flatten(Singles(bytes)) == bytes
  {
    if bytes != [] {
      assert Singles(bytes)[1..] == Singles(bytes[1..]);
      FlattenSingles(bytes[1..]);
    }
  }

  /** The call that selects. */
  lemma SelectFeedsSuffix<A, B, C>(e: Setup<A, B, C>, s: State<A, B, C>, before: seq<Stamped>, after: seq<Stamped>, kind: Kind)
    requires s.selected == None && FreshChildren(e, s, None)
    requires s.pending == Last(before, e.config.maxPending) + after
    ensures var t := Select(e, s, kind);
            && t.selected == Some(kind) && t.pending == []
            && FreshChildren(e, t, t.selected) && FedSuffix(e, t, before, after)
  {
    ReplayIsFeed(e, s.(selected := Some(kind)), s.pending);
    FlattenSingles(s.pending);
    hide U.Feed, N.Feed, Replay;
    if kind == Unicore {
      var t := Select(e, s, kind);
      assert t.unicore == UnicoreAfter(e.unicoreFeed, e.unicore0, Singles(s.pending));
    }
  }

  /** A later call. */
  lemma RouteFeedsSuffix<A, B, C>(e: Setup<A, B, C>, s: State<A, B, C>,
                                  before: seq<Stamped>, after: seq<Stamped>, chunk: seq<Stamped>)
    requires s.selected.Some? && FreshChildren(e, s, s.selected) && FedSuffix(e, s, before, after)
    ensures var t := RouteTo(e, s, chunk);
            && t.selected == s.selected && t.pending == s.pending
            && FreshChildren(e, t, t.selected) && FedSuffix(e, t, before, after + chunk)
  {
    var suffix := Last(before, e.config.maxPending) + after;
    assert suffix + chunk == Last(before, e.config.maxPending) + (after + chunk);
    hide U.Feed, N.Feed, Last;
    match s.selected {
      case Some(Ublox) => U.FeedJoin(e.config.ublox, e.ubloxRoute, U.Fresh(e.ublox0), suffix, chunk);
      case Some(Nmea) => N.FeedJoin(e.config.nmeaMax, e.nmeaRoute, N.Fresh(e.nmea0), suffix, chunk);
      case Some(Unicore) =>
        var chunks :| U.Flatten(chunks) == suffix && s.unicore == UnicoreAfter(e.unicoreFeed, e.unicore0, chunks);
        UnicoreAfterConcat(e.unicoreFeed, e.unicore0, chunks, [chunk]);
        assert U.Flatten([chunk]) == chunk + [] == chunk;
        assert UnicoreAfter(e.unicoreFeed, s.unicore, [chunk]) == e.unicoreFeed(s.unicore, chunk);
    }
  }

  lemma SameChild<A, B, C>(e: Setup<A, B, C>, s: State<A, B, C>, t: State<A, B, C>, before: seq<Stamped>, after: seq<Stamped>)
    requires FedSuffix(e, s, before, after) && FreshChildren(e, s, s.selected)
    requires t.selected == s.selected && t.ublox == s.ublox && t.nmea == s.nmea && t.unicore == s.unicore
    ensures FedSuffix(e, t, before, after) && FreshChildren(e, t, t.selected)
  {
    hide U.Feed, N.Feed;
  }

  /** A read after the selection goes to the child. */
  lemma SeesMore<A, B, C>(e: Setup<A, B, C>, s: State<A, B, C>, before: seq<Stamped>, after: seq<Stamped>, chunk: seq<Stamped>)
    requires SeesSuffix(e, s, before, after)
    ensures SeesSuffix(e, Feed(e, s, chunk), before, after + chunk)
  {
    hide FedSuffix, RouteTo, Select, Choose;
    if chunk == [] {
      assert after + chunk == after;
    } else {
      var counted := s.(bytesSeen := s.bytesSeen + |chunk|);
      SameChild(e, s, counted, before, after);
      RouteFeedsSuffix(e, counted, before, after, chunk);
    }
  }

  lemma {:induction false} SeesTheRest<A, B, C>(
      e: Setup<A, B, C>, s: State<A, B, C>, before: seq<Stamped>, after: seq<Stamped>, chunks: seq<seq<Stamped>>)
    requires SeesSuffix(e, s, before, after)
    ensures SeesSuffix(e, FeedChunks(e, s, chunks), before, after + U.Flatten(chunks))
    decreases |chunks|
  {
    hide Feed, SeesSuffix;
    if chunks == [] {
      assert after + [] == after;
    } else {
      SeesMore(e, s, before, after, chunks[0]);
      SeesTheRest(e, Feed(e, s, chunks[0]), before, after + chunks[0], chunks[1..]);
      assert (after + chunks[0]) + U.Flatten(chunks[1..]) == after + U.Flatten(chunks);
    }
  }

  /** A read before the selection is buffered, or selects and replays the buffer. */
  lemma BufferingStep<A, B, C>(e: Setup<A, B, C>, s: State<A, B, C>, stream: seq<Stamped>, chunk: seq<Stamped>)
    requires Buffering(e, s, stream)
    ensures var t := Feed(e, s, chunk);
            if t.selected == None then Buffering(e, t, stream + chunk) else SeesSuffix(e, t, stream, chunk)
  {
    hide FedSuffix, RouteTo, Select, Choose, Last;
    if chunk == [] {
      assert stream + chunk == stream;
    } else {
      var grown := s.(bytesSeen := s.bytesSeen + |chunk|, pending := s.pending + chunk);
      var choice := Choose(e.config, e.parses, grown.pending);
      if choice.Some? {
        SelectFeedsSuffix(e, grown, stream, chunk, choice.value);
      } else {
        LastAppend(stream, chunk, e.config.maxPending);
      }
    }
  }

  lemma FeedChunksFirst<A, B, C>(e: Setup<A, B, C>, s: State<A, B, C>, chunks: seq<seq<Stamped>>, k: nat)
    requires k < |chunks|
    ensures FeedChunks(e, s, chunks[..k + 1]) == FeedChunks(e, Feed(e, s, chunks[0]), chunks[1..][..k])
    ensures U.Flatten(chunks[..k + 1]) == chunks[0] + U.Flatten(chunks[1..][..k])
    ensures chunks[k + 1..] == chunks[1..][k..]
  {
    hide Feed;
    assert chunks[..k + 1][0] == chunks[0] && chunks[..k + 1][1..] == chunks[1..][..k];
  }

  /**
   From a session that buffers the end of `stream`, after any reads: either it still buffers, now the end
   of the longer stream; or there is the one read that selected, and the selected child is in the state
   of a fresh session fed, in one call, the last `maxPending` of the bytes that came before that read (or
   all of them) and every byte from that read on. Every other child is as built.
   */
  lemma {:induction false} ChildSeesOneSuffix<A, B, C>(e: Setup<A, B, C>, s: State<A, B, C>,
                                                       stream: seq<Stamped>, chunks: seq<seq<Stamped>>) returns (k: nat)
    requires Buffering(e, s, stream)
    ensures var t := FeedChunks(e, s, chunks);
            if t.selected == None then Buffering(e, t, stream + U.Flatten(chunks))
            else SelectsAt(e, s, chunks, k)
                 && SeesSuffix(e, t, stream + U.Flatten(chunks[..k]), U.Flatten(chunks[k..]))
    decreases |chunks|
  {
    hide Feed, SeesSuffix, Buffering;
    k := 0;
    if chunks == [] {
      assert stream + U.Flatten(chunks) == stream;
      BufferingFacts(e, s, stream);
    } else {
      var t := Feed(e, s, chunks[0]);
      assert FeedChunks(e, s, chunks) == FeedChunks(e, t, chunks[1..]);
      BufferingStep(e, s, stream, chunks[0]);
      BufferingFacts(e, s, stream);
      if t.selected.Some? {
        SeesTheRest(e, t, stream, chunks[0], chunks[1..]);
        ReadsKeepSelection(e, t, chunks[1..]);
        FeedChunksFirst(e, s, chunks, 0);
        assert chunks[..0] == [] && chunks[0..] == chunks && stream + [] == stream && chunks[1..][..0] == [];
        assert U.Flatten(chunks[..0]) == [];
        assert chunks[0] + U.Flatten(chunks[1..]) == U.Flatten(chunks);
      } else {
        var m := ChildSeesOneSuffix(e, t, stream + chunks[0], chunks[1..]);
        assert U.Flatten(chunks) == chunks[0] + U.Flatten(chunks[1..]);
        assert (stream + chunks[0]) + U.Flatten(chunks[1..]) == stream + U.Flatten(chunks);
        if FeedChunks(e, s, chunks).selected.Some? {
          k := m + 1;
          FeedChunksFirst(e, s, chunks, m);
          FeedChunksFirst(e, s, chunks, m + 1);
          assert (stream + chunks[0]) + U.Flatten(chunks[1..][..m]) == stream + U.Flatten(chunks[..m + 1]);
        }
      }
    }
  }

  lemma BufferingFacts<A, B, C>(e: Setup<A, B, C>, s: State<A, B, C>, stream: seq<Stamped>)
    requires Buffering(e, s, stream)
    ensures s.selected == None
  {
  }

  lemma FreshBuffers<A, B, C>(e: Setup<A, B, C>)
    requires e.config.kind == None
    ensures Buffering(e, Fresh(e), [])
  {
  }

  lemma FreshSees<A, B, C>(e: Setup<A, B, C>)
    requires e.config.kind.Some?
    ensures SeesSuffix(e, Fresh(e), [], [])
  {
    var none: seq<Stamped> := [];
    assert Last(none, e.config.maxPending) + none == none;
    assert N.Feed(e.config.nmeaMax, e.nmeaRoute, N.Fresh(e.nmea0), none) == N.Fresh(e.nmea0);
    if e.config.kind == Some(Unicore) {
      var chunks: seq<seq<Stamped>> := [];
      assert U.Flatten(chunks) == Last(none, e.config.maxPending) + none;
      assert Fresh(e).unicore == UnicoreAfter(e.unicoreFeed, e.unicore0, chunks);
    }
  }

  /**
   A session as built, after any reads. With a configured kind, that child has been fed the whole stream.
   With automatic detection, either the end of the stream is buffered, or the selected child has been fed
   the last `maxPending` of the bytes before the read that selected and everything from that read on.
   */
  lemma BuiltSessionFeedsOneSuffix<A, B, C>(e: Setup<A, B, C>, chunks: seq<seq<Stamped>>) returns (k: nat)
    ensures var t := FeedChunks(e, Fresh(e), chunks);
            if e.config.kind.Some? then t.selected == e.config.kind && SeesSuffix(e, t, [], U.Flatten(chunks))
            else if t.selected == None then Buffering(e, t, U.Flatten(chunks))
            else SelectsAt(e, Fresh(e), chunks, k) && SeesSuffix(e, t, U.Flatten(chunks[..k]), U.Flatten(chunks[k..]))
  {
    hide Feed, SeesSuffix, Buffering, FeedChunks;
    k := 0;
    if e.config.kind.Some? {
      FreshSees(e);
      SeesTheRest(e, Fresh(e), [], [], chunks);
      ReadsKeepSelection(e, Fresh(e), chunks);
      assert [] + U.Flatten(chunks) == U.Flatten(chunks);
    } else {
      FreshBuffers(e);
      k := ChildSeesOneSuffix(e, Fresh(e), [], chunks);
      assert [] + U.Flatten(chunks) == U.Flatten(chunks);
      if k <= |chunks| {
        assert [] + U.Flatten(chunks[..k]) == U.Flatten(chunks[..k]);
      }
    }
  }

  lemma {:induction false} ReadsKeepSelection<A, B, C>(e: Setup<A, B, C>, s: State<A, B, C>, chunks: seq<seq<Stamped>>)
    requires s.selected.Some?
    ensures FeedChunks(e, s, chunks).selected == s.selected
    decreases |chunks|
  {
    hide U.Feed, N.Feed, Choose, Select;
    if chunks != [] {
      ReadsKeepSelection(e, Feed(e, s, chunks[0]), chunks[1..]);
    }
  }

  /**
   The end of input. A selected child is finished. Otherwise there is a last choice on the buffered bytes:
   if it names a kind, that child is fed the buffer, the end of the stream, and finished; if not, nothing
   is kept, and reading starts afresh.
   */
  lemma EndFinishesOneSuffix<A, B, C>(e: Setup<A, B, C>, s: State<A, B, C>, stream: seq<Stamped>)
    requires s.selected.Some? || Buffering(e, s, stream)
    ensures s.selected.Some? ==> Finish(e, s) == FinishChild(e, s)
    ensures s.selected == None ==>
              match Choose(e.config, e.parses, Last(stream, e.config.maxPending))
              case None => Buffering(e, Finish(e, s), [])
              case Some(kind) =>
                var fed := Select(e, s, kind);
                && Finish(e, s) == FinishChild(e, fed)
                && fed.selected == Some(kind) && SeesSuffix(e, fed, stream, [])
  {
    hide FedSuffix, Select, Choose, Last, U.Finish, N.Finish;
    if s.selected == None && Choose(e.config, e.parses, s.pending).Some? {
      var kind := Choose(e.config, e.parses, s.pending).value;
      var last := Last(stream, e.config.maxPending);
      assert last + [] == last;
      SelectFeedsSuffix(e, s, stream, [], kind);
    }
  }

  // ----- The session object ----------------------------------------------------------------

  /** The loop that `TrySelectSessionFromPendingBytes` runs over the buffer for each vendor framer. */
  method DetectVendorCandidate<R>(push: Framer<R>, accept: R -> bool, bytes: seq<Stamped>) returns (consumed: Option<nat>)
    ensures match FirstAccepted(push, accept, [], bytes)
            case Some(found) => consumed == Some(found.0)
            case None => consumed == None
  {
    var held: Pending := [];
    for index := 0 to |bytes|
      invariant FirstAccepted(push, accept, [], bytes)
             == match FirstAccepted(push, accept, held, bytes[index..])
                case Some(found) => Some((found.0 + index, found.1))
                case None => None
    {
      var (next, result) := push(held, bytes[index]);
      assert bytes[index..][1..] == bytes[index + 1..];
      held := next;
      if result.RecordReady? && accept(result.record) {
        return Some(index + 1);
      }
    }
    return None;
  }

  class ReceiverSession<A, B, C> {
    const setup: Setup<A, B, C>
    var bytesSeen: nat
    var selectedKind: Option<Kind>
    var selectionLocked: bool
    var sessionsSwitched: nat
    var pending: seq<Stamped>
    var ublox: U.Session<A>
    var nmea: N.Session<B>
    var unicore: C

    ghost predicate Valid()
      reads this
    {
      selectionLocked == selectedKind.Some?
    }

    ghost function Value(): State<A, B, C>
      reads this
    {
      State(selectedKind, bytesSeen, sessionsSwitched, pending, ublox, nmea, unicore)
    }

    constructor (setup: Setup<A, B, C>)
      ensures Valid() && this.setup == setup && Value() == Fresh(setup)
    {
      this.setup := setup;
      bytesSeen, sessionsSwitched, pending := 0, 0, [];
      ublox, nmea, unicore := U.Fresh(setup.ublox0), N.Fresh(setup.nmea0), setup.unicore0;
      selectedKind, selectionLocked := setup.config.kind, setup.config.kind.Some?;
    }

    method FeedBytes(data: seq<byte>, ts: Timestamp)
      requires Valid()
      modifies this
      ensures Valid()
      ensures Value() == Feed(setup, old(Value()), StampAll(data, ts))
    {
      hide Choose, Replay;
      if data == [] {
        return;
      }
      bytesSeen := bytesSeen + |data|;
      if selectedKind.Some? {
        RouteToSelectedSession(StampAll(data, ts));
        return;
      }
      AppendPendingBytes(data, ts);
      TrySelectSessionFromPendingBytes();
      if selectedKind.Some? {
        RouteBufferedBytesToSelectedSession();
      } else {
        TrimPendingBytesIfNeeded();
      }
    }

    method AppendPendingBytes(data: seq<byte>, ts: Timestamp)
      modifies `pending
      ensures pending == old(pending) + StampAll(data, ts)
    {
      for index := 0 to |data|
        invariant pending == old(pending) + StampAll(data, ts)[..index]
      {
        pending := pending + [Stamped(data[index], ts)];
      }
      assert StampAll(data, ts)[..|data|] == StampAll(data, ts);
    }

    method TrimPendingBytesIfNeeded()
      modifies `pending
      ensures pending == Last(old(pending), setup.config.maxPending)
    {
      if |pending| <= setup.config.maxPending {
        return;
      }
      var drop := |pending| - setup.config.maxPending;
      pending := pending[drop..];
    }

    method RouteToSelectedSession(chunk: seq<Stamped>)
      modifies `ublox, `nmea, `unicore
      ensures Value() == RouteTo(setup, old(Value()), chunk)
    {
      hide U.Feed, N.Feed;
      if selectedKind == Some(Ublox) {
        ublox := U.Feed(setup.config.ublox, setup.ubloxRoute, ublox, chunk);
        return;
      }
      if selectedKind == Some(Unicore) {
        unicore := setup.unicoreFeed(unicore, chunk);
        return;
      }
      if selectedKind == Some(Kind.Nmea) {
        nmea := N.Feed(setup.config.nmeaMax, setup.nmeaRoute, nmea, chunk);
      }
    }

    method RouteBufferedBytesToSelectedSession()
      requires selectedKind.Some?
      modifies `pending, `ublox, `nmea, `unicore
      ensures Value() == Replay(setup, old(Value()), old(pending)).(pending := [])
    {
      hide RouteTo;
      for index := 0 to |pending|
        invariant pending == old(pending) && selectedKind == old(selectedKind)
        invariant Replay(setup, Value(), pending[index..]) == Replay(setup, old(Value()), old(pending))
      {
        assert pending[index..][0] == pending[index] && pending[index..][1..] == pending[index + 1..];
        RouteToSelectedSession([pending[index]]);
      }
      assert pending[|pending|..] == [];
      pending := [];
    }

    method TrySelectSessionFromPendingBytes()
      requires Valid()
      modifies this
      ensures Valid()
      ensures Value() == old(Value()).(selected :=
                if old(selectedKind).Some? then old(selectedKind) else Choose(setup.config, setup.parses, old(pending)))
    {
      hide FirstAccepted, Detected;
      if selectedKind.Some? || pending == [] {
        return;
      }
      var detection := Detect(setup.parses, Values(pending));
      var earliest := detection.protocol;
      if earliest == Protocol.Ubx {
        SelectSession(Ublox);
        return;
      }
      if earliest == UnicoreAscii {
        SelectSession(Unicore);
        return;
      }
      if earliest == UnicoreBinary {
        SelectSession(Unicore);
        return;
      }
      var ubx := DetectVendorCandidate(UbxStream.FramerFor(setup.config.ublox.maxUbx), AcceptsUbx, pending);
      var ascii := DetectVendorCandidate(UnicoreFramer.FramerFor(setup.config.unicoreMax), SupportedUnicore, pending);
      var binary := DetectVendorCandidate(
        UnicoreBinaryFramer.FramerFor(setup.config.unicoreBinaryMax), AcceptsUnicoreBinary, pending);
      var hasUnicore := ascii.Some? || binary.Some?;
      if ubx.Some? == hasUnicore {
        if setup.config.allowGenericNmea && earliest == Protocol.Nmea && !ubx.Some? && !hasUnicore {
          SelectSession(Kind.Nmea);
        }
        return;
      }
      if ubx.Some? {
        SelectSession(Ublox);
        return;
      }
      SelectSession(Unicore);
    }

    method SelectSession(kind: Kind)
      requires Valid()
      modifies this
      ensures Valid()
      ensures var before := old(Value());
              Value() == if before.selected == None then before.(selected := Some(kind))
                         else if before.selected != Some(kind) then before.(switches := before.switches + 1)
                         else before
    {
      if selectedKind.Some? {
        if selectedKind.value != kind {
          sessionsSwitched := sessionsSwitched + 1;
        }
        return;
      }
      selectedKind, selectionLocked := Some(kind), true;
    }

    method Finalize()
      requires Valid()
      modifies this
      ensures Valid()
      ensures Value() == Finish(setup, old(Value()))
    {
      hide Choose, Replay, U.Finish, N.Finish;
      if selectedKind == None {
        TrySelectSessionFromPendingBytes();
        if selectedKind.Some? {
          RouteBufferedBytesToSelectedSession();
        }
      }
      if selectedKind == Some(Ublox) {
        ublox := U.Finish(setup.config.ublox, setup.ubloxRoute, ublox);
      } else if selectedKind == Some(Unicore) {
        unicore := setup.unicoreFinish(unicore);
      } else if selectedKind == Some(Kind.Nmea) {
        nmea := N.Finish(setup.nmeaRoute, nmea);
      } else {
        pending := [];
      }
    }

    method Reset()
      modifies this
      ensures Valid() && Value() == Fresh(setup)
    {
      bytesSeen, sessionsSwitched, pending := 0, 0, [];
      ublox, nmea, unicore := U.Fresh(setup.ublox0), N.Fresh(setup.nmea0), setup.unicore0;
      selectedKind, selectionLocked := setup.config.kind, setup.config.kind.Some?;
    }
  }
}
