/**
 Whether the kind a receiver session selects depends on how the stream was cut into reads: it can, and
 where the first records of each kind end, in the stream or in what is left of it, says exactly when.
 */
module ReceiverCuts {
  import opened Bits
  import opened Framing
  import opened StreamDetector
  import opened ReceiverSession
  import U = UbloxSession
  import Nmea = NmeaFramer
  import NmeaChecksum
  import Ubx = UbxFramer
  import UbxStream
  import Rtcm = RtcmFramer
  import UnicoreFramer
  import UnicoreBinaryFramer

  /** A verified record cannot disagree: what the detector names on a prefix it names on the whole. */
  lemma VerifiedChoiceStays(config: Config, parses: UnicoreParser, stream: seq<Stamped>, n: nat)
    requires n <= |stream|
    requires Earliest(parses, stream[..n]) in {Protocol.Ubx, UnicoreAscii, UnicoreBinary}
    ensures Choose(config, parses, stream[..n]) == Choose(config, parses, stream)
  {
    hide Detected;
    var a, all := StampAll(Values(stream[..n]), None), StampAll(Values(stream), None);
    assert all == a + all[n..];
    PrefixStable(parses, a, all[n..]);
    if n == 0 {
      assert a == [];
      NothingInNothing(parses);
      assert false;
    }
  }

  // ----- Where the records end decides -----------------------------------------------------

  /**
   Where the first record of each kind ends in a stream of `size` bytes, or a position beyond the
   stream if there is none: what the detector names, a valid UBX frame under the session's own limit,
   and a record that looks like Unicore.
   */
  datatype Ends = Ends(protocol: Protocol, detected: nat, ubx: nat, unicore: nat, size: nat)

  function EndOf<R>(push: Framer<R>, accept: R -> bool, stream: seq<Stamped>): (end: nat)
    ensures 1 <= end <= |stream| + 1
  {
    match FirstAccepted(push, accept, [], stream)
    case Some(found) => found.0
    case None => |stream| + 1
  }

  function Earlier(a: nat, b: nat): nat {
    if a < b then a else b
  }

  function UbxEnd(config: Config, stream: seq<Stamped>): nat {
    EndOf(UbxStream.FramerFor(config.ublox.maxUbx), AcceptsUbx, stream)
  }

  function UnicoreEnd(config: Config, stream: seq<Stamped>): nat {
    Earlier(EndOf(UnicoreFramer.FramerFor(config.unicoreMax), SupportedUnicore, stream),
            EndOf(UnicoreBinaryFramer.FramerFor(config.unicoreBinaryMax), AcceptsUnicoreBinary, stream))
  }

  function EndsOf(config: Config, parses: UnicoreParser, stream: seq<Stamped>): Ends {
    var detected := Detected(parses, StampAll(Values(stream), None));
    Ends(detected.protocol, if detected.protocol == Unknown then |stream| + 1 else detected.bytesConsumed,
         UbxEnd(config, stream), UnicoreEnd(config, stream), |stream|)
  }

  /**
   The guards of the branches that go wrong. A verified record decides unless a record of the other
   vendor ends before it and before any of its own vendor. Otherwise the cut matters if both vendors
   occur and do not end together, or if generic NMEA is taken before the first vendor record ends.
   */
  predicate CutMatters(allowGenericNmea: bool, p: Ends) {
    if p.protocol == Protocol.Ubx then p.unicore < p.detected && p.unicore < p.ubx
    else if p.protocol == UnicoreAscii || p.protocol == UnicoreBinary then p.ubx < p.detected && p.ubx < p.unicore
    else
      var first := Earlier(p.ubx, p.unicore);
      || (p.ubx <= p.size && p.unicore <= p.size && p.ubx != p.unicore)
      || (allowGenericNmea && p.protocol == Protocol.Nmea && p.detected < first && first <= p.size)
  }

  /** What is chosen on the first `n` bytes, by the positions alone. */
  function ChosenAt(allowGenericNmea: bool, p: Ends, n: nat): Option<Kind> {
    if p.detected <= n && p.protocol == Protocol.Ubx then Some(Ublox)
    else if p.detected <= n && (p.protocol == UnicoreAscii || p.protocol == UnicoreBinary) then Some(Unicore)
    else if p.ubx <= n && p.unicore > n then Some(Ublox)
    else if p.unicore <= n && p.ubx > n then Some(Unicore)
    else if allowGenericNmea && p.protocol == Protocol.Nmea && p.detected <= n && p.ubx > n then Some(Kind.Nmea)
    else None
  }

  /** A record is found in a prefix exactly when it ends there. */
  lemma EndOfPrefix<R>(push: Framer<R>, accept: R -> bool, stream: seq<Stamped>, n: nat)
    requires n <= |stream|
    ensures FirstAccepted(push, accept, [], stream[..n]).Some? <==> EndOf(push, accept, stream) <= n
  {
    assert stream == stream[..n] + stream[n..];
    FirstAcceptedAppend(push, accept, [], stream[..n], stream[n..]);
    hide FirstAccepted;
  }

  /** The detector names on a prefix what it names on the whole, if that ends there, and nothing otherwise. */
  lemma DetectedPrefix(parses: UnicoreParser, stream: seq<Stamped>, n: nat)
    requires n <= |stream|
    ensures var whole := Detected(parses, StampAll(Values(stream), None));
            Earliest(parses, stream[..n])
            == if whole.protocol != Unknown && whole.bytesConsumed <= n then whole.protocol else Unknown
  {
    hide Detected;
    var a, all := StampAll(Values(stream[..n]), None), StampAll(Values(stream), None);
    assert all == a + all[n..];
    if Detected(parses, a).protocol != Unknown {
      PrefixStable(parses, a, all[n..]);
    } else if Detected(parses, all).protocol != Unknown {
      FoundLater(parses, a, all[n..]);
    }
  }

  lemma DetectedEnd(parses: UnicoreParser, stream: seq<Stamped>)
    ensures var whole := Detected(parses, StampAll(Values(stream), None));
            whole.protocol != Unknown ==> 1 <= whole.bytesConsumed <= |stream|
  {
    hide Detected;
    DetectedPrefix(parses, stream, |stream|);
    assert stream[..|stream|] == stream;
    DetectedPrefix(parses, stream, 0);
    assert StampAll(Values(stream[..0]), None) == [];
    NothingInNothing(parses);
  }

  lemma SeenByEnds(config: Config, stream: seq<Stamped>, n: nat)
    requires n <= |stream|
    ensures UbxSeen(config, stream[..n]) <==> UbxEnd(config, stream) <= n
    ensures UnicoreSeen(config, stream[..n]) <==> UnicoreEnd(config, stream) <= n
    ensures UbxEnd(config, stream) >= 1 && UnicoreEnd(config, stream) >= 1
  {
    hide FirstAccepted, EndOf;
    EndOfPrefix(UbxStream.FramerFor(config.ublox.maxUbx), AcceptsUbx, stream, n);
    EndOfPrefix(UnicoreFramer.FramerFor(config.unicoreMax), SupportedUnicore, stream, n);
    EndOfPrefix(UnicoreBinaryFramer.FramerFor(config.unicoreBinaryMax), AcceptsUnicoreBinary, stream, n);
  }

  lemma ChosenByEnds(config: Config, parses: UnicoreParser, stream: seq<Stamped>, n: nat)
    requires n <= |stream|
    ensures Choose(config, parses, stream[..n]) == ChosenAt(config.allowGenericNmea, EndsOf(config, parses, stream), n)
  {
    hide Detected, FirstAccepted, Earliest, UbxSeen, UnicoreSeen, UbxEnd, UnicoreEnd;
    DetectedPrefix(parses, stream, n);
    DetectedEnd(parses, stream);
    SeenByEnds(config, stream, n);
  }

  /** What positions can be: all within the stream, or just beyond it. */
  predicate Plausible(p: Ends) {
    && 1 <= p.detected && 1 <= p.ubx <= p.size + 1 && 1 <= p.unicore <= p.size + 1
    && (if p.protocol == Unknown then p.detected == p.size + 1 else p.detected <= p.size)
  }

  lemma EndsArePlausible(config: Config, parses: UnicoreParser, stream: seq<Stamped>)
    ensures Plausible(EndsOf(config, parses, stream))
  {
    DetectedEnd(parses, stream);
    hide Detected, FirstAccepted;
  }

  predicate ChoicesAgree(allowGenericNmea: bool, p: Ends) {
    forall n :: 0 <= n <= p.size ==>
      ChosenAt(allowGenericNmea, p, n) == None || ChosenAt(allowGenericNmea, p, n) == ChosenAt(allowGenericNmea, p, p.size)
  }

  /** The guards are exact. */
  lemma ChoicesAgreeIff(allow: bool, p: Ends)
    requires Plausible(p)
    ensures ChoicesAgree(allow, p) <==> !CutMatters(allow, p)
  {
    if CutMatters(allow, p) {
      var first := Earlier(p.ubx, p.unicore);
      var both := p.ubx <= p.size && p.unicore <= p.size && p.ubx != p.unicore;
      var n := if p.protocol in {Protocol.Ubx, UnicoreAscii, UnicoreBinary} || both then first else p.detected;
      assert ChosenAt(allow, p, n) != None && ChosenAt(allow, p, n) != ChosenAt(allow, p, p.size);
    }
  }

  // ----- Exactly when the cut does not matter ----------------------------------------------

  /** However `stream` is cut into reads, the kind selected is the one selected after a single read. */
  ghost predicate CutsAgree<A(!new), B(!new), C(!new)>(e: Setup<A, B, C>, s: State<A, B, C>, stream: seq<Stamped>) {
    forall chunks :: U.Flatten(chunks) == stream ==> FeedChunks(e, s, chunks).selected == Feed(e, s, stream).selected
  }

  /** What the session looks at when the bytes from `j` to `n` are read after those before `j` had decided nothing. */
  function Window(max: nat, stream: seq<Stamped>, j: nat, n: nat): seq<Stamped>
    requires j <= n <= |stream|
  {
    Last(stream[..j], max) + stream[j..n]
  }

  /** What is chosen there, by where the first records of each kind end in it. */
  function WindowChoice(config: Config, parses: UnicoreParser, stream: seq<Stamped>, j: nat, n: nat): Option<Kind>
    requires j <= n <= |stream|
  {
    var window := Window(config.maxPending, stream, j, n);
    ChosenAt(config.allowGenericNmea, EndsOf(config, parses, window), |window|)
  }

  lemma WindowChoiceIsChoice(config: Config, parses: UnicoreParser, stream: seq<Stamped>, j: nat, n: nat)
    requires j <= n <= |stream|
    ensures WindowChoice(config, parses, stream, j, n) == Choose(config, parses, Window(config.maxPending, stream, j, n))
  {
    hide Choose, ChosenAt, EndsOf, Window;
    var window := Window(config.maxPending, stream, j, n);
    ChosenByEnds(config, parses, window, |window|);
    assert window[..|window|] == window;
  }

  /** Some way of reading the first `k` bytes decides nothing. */
  predicate Reached(config: Config, parses: UnicoreParser, stream: seq<Stamped>, k: nat)
    requires k <= |stream|
    decreases k
  {
    k == 0 || exists j :: 0 <= j < k && Reached(config, parses, stream, j)
                          && WindowChoice(config, parses, stream, j, k) == None
  }

  /**
   Nothing that can be looked at leads to a choice other than the one the whole leads to, and if that is
   a choice, no way of reading the whole misses it.
   */
  predicate WindowsAgree(config: Config, parses: UnicoreParser, stream: seq<Stamped>) {
    var whole := WindowChoice(config, parses, stream, 0, |stream|);
    && (forall j, n :: 0 <= j < n <= |stream| && Reached(config, parses, stream, j) ==>
          WindowChoice(config, parses, stream, j, n) == None || WindowChoice(config, parses, stream, j, n) == whole)
    && (Reached(config, parses, stream, |stream|) ==> whole == None)
  }

  /** A session that has been reading `before` and has not chosen. */
  ghost predicate Undecided<A, B, C>(e: Setup<A, B, C>, s: State<A, B, C>, before: seq<Stamped>) {
    s.selected == None && s.pending == Last(before, e.config.maxPending)
  }

  lemma FeedUndecided<A, B, C>(e: Setup<A, B, C>, s: State<A, B, C>, before: seq<Stamped>, chunk: seq<Stamped>)
    requires Undecided(e, s, before) && chunk != []
    ensures var t := Feed(e, s, chunk);
            && t.selected == Choose(e.config, e.parses, Last(before, e.config.maxPending) + chunk)
            && (t.selected == None ==> Undecided(e, t, before + chunk))
  {
    LastAppend(before, chunk, e.config.maxPending);
    hide Choose, Select, Last;
    var grown := s.(bytesSeen := s.bytesSeen + |chunk|, pending := s.pending + chunk);
    var choice := Choose(e.config, e.parses, grown.pending);
    if choice.Some? {
      SelectKeeps(e, grown, choice.value);
    }
  }

  /** One read from position `k` to `n`. */
  lemma ReadWindow<A, B, C>(e: Setup<A, B, C>, s: State<A, B, C>, stream: seq<Stamped>, k: nat, n: nat)
    requires k < n <= |stream| && Undecided(e, s, stream[..k])
    ensures var t := Feed(e, s, stream[k..n]);
            && t.selected == WindowChoice(e.config, e.parses, stream, k, n)
            && (t.selected == None ==> Undecided(e, t, stream[..n]))
  {
    hide Feed, Choose, WindowChoice, Undecided;
    FeedUndecided(e, s, stream[..k], stream[k..n]);
    WindowChoiceIsChoice(e.config, e.parses, stream, k, n);
    assert stream[..k] + stream[k..n] == stream[..n];
  }

  lemma ReachedNext(config: Config, parses: UnicoreParser, stream: seq<Stamped>, j: nat, k: nat)
    requires j < k <= |stream| && Reached(config, parses, stream, j)
    requires WindowChoice(config, parses, stream, j, k) == None
    ensures Reached(config, parses, stream, k)
  {
    hide WindowChoice;
  }

  lemma WindowsAgreeAt(config: Config, parses: UnicoreParser, stream: seq<Stamped>, j: nat, n: nat)
    requires WindowsAgree(config, parses, stream) && j <= n <= |stream| && Reached(config, parses, stream, j)
    ensures var whole := WindowChoice(config, parses, stream, 0, |stream|);
            && (j < n ==> WindowChoice(config, parses, stream, j, n) == None
                          || WindowChoice(config, parses, stream, j, n) == whole)
            && (j == |stream| ==> whole == None)
  {
    hide WindowChoice, Reached;
  }

  /** If the windows agree, any way of reading the rest selects what the whole leads to. */
  lemma {:induction false} AgreeingWindows<A, B, C>(
      e: Setup<A, B, C>, s: State<A, B, C>, stream: seq<Stamped>, k: nat, chunks: seq<seq<Stamped>>)
    requires k <= |stream| && Undecided(e, s, stream[..k]) && stream[k..] == U.Flatten(chunks)
    requires Reached(e.config, e.parses, stream, k) && WindowsAgree(e.config, e.parses, stream)
    ensures FeedChunks(e, s, chunks).selected == WindowChoice(e.config, e.parses, stream, 0, |stream|)
    decreases |chunks|
  {
    hide Feed, WindowChoice, Reached, WindowsAgree;
    if chunks == [] {
      assert k == |stream|;
      WindowsAgreeAt(e.config, e.parses, stream, k, k);
    } else if chunks[0] == [] {
      FeedNothing(e, s);
      assert chunks[0] + U.Flatten(chunks[1..]) == U.Flatten(chunks[1..]);
      AgreeingWindows(e, s, stream, k, chunks[1..]);
    } else {
      var n := k + |chunks[0]|;
      assert stream[k..] == chunks[0] + U.Flatten(chunks[1..]);
      assert stream[k..n] == stream[k..][..|chunks[0]|] == chunks[0];
      assert stream[n..] == stream[k..][|chunks[0]|..] == U.Flatten(chunks[1..]);
      ReadWindow(e, s, stream, k, n);
      WindowsAgreeAt(e.config, e.parses, stream, k, n);
      var t := Feed(e, s, chunks[0]);
      if t.selected.Some? {
        ReadsKeepSelection(e, t, chunks[1..]);
      } else {
        ReachedNext(e.config, e.parses, stream, k, n);
        AgreeingWindows(e, t, stream, n, chunks[1..]);
      }
    }
  }

  lemma FeedNothing<A, B, C>(e: Setup<A, B, C>, s: State<A, B, C>)
    ensures Feed(e, s, []) == s
  {
  }

  lemma {:induction false} FeedChunksConcat<A, B, C>(
      e: Setup<A, B, C>, s: State<A, B, C>, a: seq<seq<Stamped>>, b: seq<seq<Stamped>>)
    ensures FeedChunks(e, s, a + b) == FeedChunks(e, FeedChunks(e, s, a), b)
    ensures U.Flatten(a + b) == U.Flatten(a) + U.Flatten(b)
    decreases |a|
  {
    hide Feed;
    if a == [] {
      assert a + b == b;
    } else {
      assert (a + b)[0] == a[0] && (a + b)[1..] == a[1..] + b;
      FeedChunksConcat(e, Feed(e, s, a[0]), a[1..], b);
    }
  }

  lemma OneChunk<A, B, C>(e: Setup<A, B, C>, s: State<A, B, C>, chunk: seq<Stamped>)
    ensures FeedChunks(e, s, [chunk]) == Feed(e, s, chunk) && U.Flatten([chunk]) == chunk
  {
    hide Feed;
    assert [chunk][1..] == [] && chunk + [] == chunk;
  }

  /** Reads that end at `k`, and one more from there to `n`. */
  lemma OneMoreRead<A, B, C>(
      e: Setup<A, B, C>, s: State<A, B, C>, stream: seq<Stamped>, cut: seq<seq<Stamped>>, k: nat, n: nat)
    requires k <= n <= |stream| && U.Flatten(cut) == stream[..k]
    ensures U.Flatten(cut + [stream[k..n]]) == stream[..n]
    ensures FeedChunks(e, s, cut + [stream[k..n]]) == Feed(e, FeedChunks(e, s, cut), stream[k..n])
  {
    hide Feed;
    FeedChunksConcat(e, s, cut, [stream[k..n]]);
    OneChunk(e, FeedChunks(e, s, cut), stream[k..n]);
    assert stream[..k] + stream[k..n] == stream[..n];
  }

  /** A position that is reached is reached by some reads. */
  lemma {:induction false} ReachedByReads<A, B, C>(e: Setup<A, B, C>, s: State<A, B, C>, stream: seq<Stamped>, k: nat)
    returns (cut: seq<seq<Stamped>>)
    requires s.selected == None && s.pending == [] && k <= |stream| && Reached(e.config, e.parses, stream, k)
    ensures U.Flatten(cut) == stream[..k] && Undecided(e, FeedChunks(e, s, cut), stream[..k])
    decreases k
  {
    hide Feed, WindowChoice, FeedChunks;
    if k == 0 {
      cut := [];
      NoReads(e, s, stream);
    } else {
      var j :| 0 <= j < k && Reached(e.config, e.parses, stream, j) && WindowChoice(e.config, e.parses, stream, j, k) == None;
      var before := ReachedByReads(e, s, stream, j);
      ReadWindow(e, FeedChunks(e, s, before), stream, j, k);
      OneMoreRead(e, s, stream, before, j, k);
      cut := before + [stream[j..k]];
    }
  }

  lemma NoReads<A, B, C>(e: Setup<A, B, C>, s: State<A, B, C>, stream: seq<Stamped>)
    requires s.selected == None && s.pending == []
    ensures U.Flatten([]) == stream[..0] && Undecided(e, FeedChunks(e, s, []), stream[..0])
  {
  }

  lemma CutsAgreeAt<A(!new), B(!new), C(!new)>(
      e: Setup<A, B, C>, s: State<A, B, C>, stream: seq<Stamped>, chunks: seq<seq<Stamped>>)
    requires CutsAgree(e, s, stream) && U.Flatten(chunks) == stream
    ensures FeedChunks(e, s, chunks).selected == Feed(e, s, stream).selected
  {
    hide Feed;
  }

  lemma WholeChoice<A, B, C>(e: Setup<A, B, C>, s: State<A, B, C>, stream: seq<Stamped>)
    requires s.selected == None && s.pending == []
    ensures Feed(e, s, stream).selected == Choose(e.config, e.parses, stream)
    ensures Feed(e, s, stream).selected == WindowChoice(e.config, e.parses, stream, 0, |stream|)
  {
    var none: seq<Stamped> := [];
    assert Last(none, e.config.maxPending) + stream == stream && stream[..0] == none && stream[0..] == stream;
    assert Window(e.config.maxPending, stream, 0, |stream|) == stream;
    WindowChoiceIsChoice(e.config, e.parses, stream, 0, |stream|);
    hide WindowChoice;
    if stream == [] {
      ChooseNothing(e.config, e.parses);
      FeedNothing(e, s);
    } else {
      FeedUndecided(e, s, none, stream);
      hide Feed, Choose;
    }
  }

  lemma ChooseNothing(config: Config, parses: UnicoreParser)
    ensures Choose(config, parses, []) == None
  {
  }

  /** If the cuts agree, no window that some reads lead to disagrees. */
  lemma AgreeingCuts<A(!new), B(!new), C(!new)>(
      e: Setup<A, B, C>, s: State<A, B, C>, stream: seq<Stamped>, j: nat, n: nat)
    requires s.selected == None && s.pending == [] && CutsAgree(e, s, stream)
    requires j < n <= |stream| && Reached(e.config, e.parses, stream, j)
    ensures var choice := WindowChoice(e.config, e.parses, stream, j, n);
            choice == None || choice == WindowChoice(e.config, e.parses, stream, 0, |stream|)
  {
    hide Feed, WindowChoice, Reached, CutsAgree, FeedChunks, Undecided;
    var before := ReachedByReads(e, s, stream, j);
    var cut := before + [stream[j..n]];
    OneMoreRead(e, s, stream, before, j, n);
    ReadWindow(e, FeedChunks(e, s, before), stream, j, n);
    OneMoreRead(e, s, stream, cut, n, |stream|);
    assert stream[..|stream|] == stream;
    CutsAgreeAt(e, s, stream, cut + [stream[n..|stream|]]);
    WholeChoice(e, s, stream);
    if FeedChunks(e, s, cut).selected.Some? {
      OneChunk(e, FeedChunks(e, s, cut), stream[n..|stream|]);
      ReadsKeepSelection(e, FeedChunks(e, s, cut), [stream[n..|stream|]]);
    }
  }

  lemma AgreeingEnd<A(!new), B(!new), C(!new)>(e: Setup<A, B, C>, s: State<A, B, C>, stream: seq<Stamped>)
    requires s.selected == None && s.pending == [] && CutsAgree(e, s, stream)
    requires Reached(e.config, e.parses, stream, |stream|)
    ensures WindowChoice(e.config, e.parses, stream, 0, |stream|) == None
  {
    hide Feed, WindowChoice, Reached, CutsAgree, FeedChunks;
    var cut := ReachedByReads(e, s, stream, |stream|);
    assert stream[..|stream|] == stream;
    CutsAgreeAt(e, s, stream, cut);
    WholeChoice(e, s, stream);
  }

  lemma CutsAgreeUnfolds<A(!new), B(!new), C(!new)>(e: Setup<A, B, C>, s: State<A, B, C>, stream: seq<Stamped>)
    requires forall chunks :: U.Flatten(chunks) == stream ==> FeedChunks(e, s, chunks).selected == Feed(e, s, stream).selected
    ensures CutsAgree(e, s, stream)
  {
    hide Feed;
  }

  lemma WindowsAgreeUnfolds(config: Config, parses: UnicoreParser, stream: seq<Stamped>)
    requires var whole := WindowChoice(config, parses, stream, 0, |stream|);
             forall j, n :: 0 <= j < n <= |stream| && Reached(config, parses, stream, j) ==>
               WindowChoice(config, parses, stream, j, n) == None || WindowChoice(config, parses, stream, j, n) == whole
    requires Reached(config, parses, stream, |stream|) ==> WindowChoice(config, parses, stream, 0, |stream|) == None
    ensures WindowsAgree(config, parses, stream)
  {
    hide WindowChoice, Reached;
  }

  /**
   For every stream, however long: the kind selected does not depend on the cut if and only if nothing
   that some reads would make the session look at leads to another choice, and none misses the choice.
   What is chosen there is told by where the first records of each kind end.
   */
  lemma CutsAgreeIffWindowsAgree<A(!new), B(!new), C(!new)>(e: Setup<A, B, C>, s: State<A, B, C>, stream: seq<Stamped>)
    requires s.selected == None && s.pending == []
    ensures CutsAgree(e, s, stream) <==> WindowsAgree(e.config, e.parses, stream)
  {
    hide Feed, WindowChoice, CutsAgree, WindowsAgree, FeedChunks;
    WholeChoice(e, s, stream);
    if WindowsAgree(e.config, e.parses, stream) {
      NoReads(e, s, stream);
      forall chunks | U.Flatten(chunks) == stream
        ensures FeedChunks(e, s, chunks).selected == Feed(e, s, stream).selected {
        assert stream[0..] == stream;
        NothingRead(e, s);
        AgreeingWindows(e, s, stream, 0, chunks);
      }
      CutsAgreeUnfolds(e, s, stream);
    }
    if CutsAgree(e, s, stream) {
      forall j, n | 0 <= j < n <= |stream| && Reached(e.config, e.parses, stream, j)
        ensures WindowChoice(e.config, e.parses, stream, j, n) == None
             || WindowChoice(e.config, e.parses, stream, j, n) == WindowChoice(e.config, e.parses, stream, 0, |stream|) {
        AgreeingCuts(e, s, stream, j, n);
      }
      if Reached(e.config, e.parses, stream, |stream|) {
        AgreeingEnd(e, s, stream);
      }
      WindowsAgreeUnfolds(e.config, e.parses, stream);
    }
  }

  lemma NothingRead<A, B, C>(e: Setup<A, B, C>, s: State<A, B, C>)
    ensures FeedChunks(e, s, []) == s
  {
  }

  // ----- Streams that fit the detection buffer -----------------------------------------------

  lemma ShortWindow(config: Config, parses: UnicoreParser, stream: seq<Stamped>, j: nat, n: nat)
    requires j <= n <= |stream| <= config.maxPending
    ensures WindowChoice(config, parses, stream, j, n)
         == ChosenAt(config.allowGenericNmea, EndsOf(config, parses, stream), n)
  {
    hide *;
    WindowChoiceIsChoice(config, parses, stream, j, n);
    ChosenByEnds(config, parses, stream, n);
    WindowIsPrefix(config.maxPending, stream, j, n);
  }

  lemma WindowIsPrefix(max: nat, stream: seq<Stamped>, j: nat, n: nat)
    requires j <= n <= |stream| <= max
    ensures Window(max, stream, j, n) == stream[..n]
  {
    assert stream[..j] + stream[j..n] == stream[..n];
  }

  /** The whole is only read without a choice if there is none to make. */
  lemma ShortEnd(config: Config, parses: UnicoreParser, stream: seq<Stamped>)
    requires |stream| <= config.maxPending && Reached(config, parses, stream, |stream|)
    ensures WindowChoice(config, parses, stream, 0, |stream|) == None
  {
    hide WindowChoice, EndsOf, ChosenAt;
    ShortWindow(config, parses, stream, 0, |stream|);
    if stream == [] {
      EndsArePlausible(config, parses, stream);
      NothingChosenAtStart(config.allowGenericNmea, EndsOf(config, parses, stream));
    } else {
      var j :| 0 <= j < |stream| && Reached(config, parses, stream, j)
               && WindowChoice(config, parses, stream, j, |stream|) == None;
      ShortWindow(config, parses, stream, j, |stream|);
    }
  }

  lemma ChoicesAgreeAt(allow: bool, p: Ends, n: nat)
    requires ChoicesAgree(allow, p) && n <= p.size
    ensures ChosenAt(allow, p, n) == None || ChosenAt(allow, p, n) == ChosenAt(allow, p, p.size)
  {
    hide ChosenAt;
  }

  lemma ChoicesAgreeUnfolds(allow: bool, p: Ends)
    requires forall n :: 0 <= n <= p.size ==>
               ChosenAt(allow, p, n) == None || ChosenAt(allow, p, n) == ChosenAt(allow, p, p.size)
    ensures ChoicesAgree(allow, p)
  {
    hide ChosenAt;
  }

  lemma ReachedAtStart(config: Config, parses: UnicoreParser, stream: seq<Stamped>)
    ensures Reached(config, parses, stream, 0)
  {
  }

  /** Every prefix is then a window, and the first read can be any of them. */
  lemma ShortWindowsAgree(config: Config, parses: UnicoreParser, stream: seq<Stamped>)
    requires |stream| <= config.maxPending
    ensures WindowsAgree(config, parses, stream)
       <==> ChoicesAgree(config.allowGenericNmea, EndsOf(config, parses, stream))
  {
    hide *;
    var p, allow := EndsOf(config, parses, stream), config.allowGenericNmea;
    EndsSize(config, parses, stream);
    EndsArePlausible(config, parses, stream);
    ShortWindow(config, parses, stream, 0, |stream|);
    if ChoicesAgree(allow, p) {
      forall j, n | 0 <= j < n <= |stream| && Reached(config, parses, stream, j)
        ensures WindowChoice(config, parses, stream, j, n) == None
             || WindowChoice(config, parses, stream, j, n) == WindowChoice(config, parses, stream, 0, |stream|) {
        ShortWindow(config, parses, stream, j, n);
        ChoicesAgreeAt(allow, p, n);
      }
      if Reached(config, parses, stream, |stream|) {
        ShortEnd(config, parses, stream);
      }
      WindowsAgreeUnfolds(config, parses, stream);
    }
    if WindowsAgree(config, parses, stream) {
      forall n | 0 <= n <= p.size
        ensures ChosenAt(allow, p, n) == None || ChosenAt(allow, p, n) == ChosenAt(allow, p, p.size) {
        NothingChosenAtStart(allow, p);
        ReachedAtStart(config, parses, stream);
        ShortWindow(config, parses, stream, 0, n);
        WindowsAgreeAt(config, parses, stream, 0, n);
      }
      ChoicesAgreeUnfolds(allow, p);
    }
  }

  lemma EndsSize(config: Config, parses: UnicoreParser, stream: seq<Stamped>)
    ensures EndsOf(config, parses, stream).size == |stream|
  {
    hide Detected, FirstAccepted;
  }

  lemma NothingChosenAtStart(allow: bool, p: Ends)
    requires Plausible(p)
    ensures ChosenAt(allow, p, 0) == None
  {
  }

  /**
   For a stream that fits the detection buffer, the kind selected depends on the cut exactly when one of
   the guards holds of where the first records of each kind end.
   */
  lemma SelectionDependsOnCutIff<A(!new), B(!new), C(!new)>(
      e: Setup<A, B, C>, s: State<A, B, C>, stream: seq<Stamped>)
    requires s.selected == None && s.pending == [] && |stream| <= e.config.maxPending
    ensures CutsAgree(e, s, stream)
       <==> !CutMatters(e.config.allowGenericNmea, EndsOf(e.config, e.parses, stream))
  {
    hide *;
    CutsAgreeIffWindowsAgree(e, s, stream);
    ShortWindowsAgree(e.config, e.parses, stream);
    EndsArePlausible(e.config, e.parses, stream);
    ChoicesAgreeIff(e.config.allowGenericNmea, EndsOf(e.config, e.parses, stream));
  }

  // ----- A stream for which it does matter -------------------------------------------------

  /** Bytes that start nothing are passed over. */
  lemma {:induction false} PassedOver<R>(push: Framer<R>, accept: R -> bool, a: seq<Stamped>, b: seq<Stamped>)
    requires forall i :: 0 <= i < |a| ==> push([], a[i]) == ([], ParserResult<R>.Skipped)
    ensures FirstAccepted(push, accept, [], a + b).Some? <==> FirstAccepted(push, accept, [], b).Some?
    decreases |a|
  {
    if a == [] {
      assert a + b == b;
    } else {
      assert (a + b)[0] == a[0] && (a + b)[1..] == a[1..] + b;
      assert push([], a[0]) == ([], ParserResult<R>.Skipped);
      PassedOver(push, accept, a[1..], b);
    }
  }

  lemma NothingStarts<R>(push: Framer<R>, accept: R -> bool, a: seq<Stamped>)
    requires forall i :: 0 <= i < |a| ==> push([], a[i]) == ([], ParserResult<R>.Skipped)
    ensures FirstAccepted(push, accept, [], a) == None
  {
    PassedOver(push, accept, a, []);
    assert a + [] == a;
  }

  /** "#A" and a line feed: a Unicore record without a checksum. */
  const LINE: seq<byte> := [0x23, 0x41, 0x0A]

  function LineFrame(ts: Timestamp): UnicoreFramer.UnicoreFrame {
    UnicoreFramer.FrameOf(LINE, ts)
  }

  lemma LineFacts(ts: Timestamp)
    ensures LineFrame(ts).messageName == [0x41] && LineFrame(ts).syncChar == 0x23
    ensures LineFrame(ts).check.status == Missing
  {
    assert LINE[..2] == [0x23, 0x41];
    assert NmeaChecksum.TrimmedLength(LINE) == 2;
    assert LINE[1..2] == [0x41];
    assert UnicoreFramer.NameOf([0x41]) == [0x41];
    assert NmeaChecksum.STAR !in [0x41 as byte];
  }

  /** The record is complete after three bytes and leaves the framer idle. */
  lemma LineIsFramed(max: nat, accept: UnicoreFramer.UnicoreFrame -> bool, line: seq<Stamped>, rest: seq<Stamped>)
    requires max >= 3 && Values(line) == LINE
    ensures var f := LineFrame(line[0].ts);
            FirstAccepted(UnicoreFramer.FramerFor(max), accept, [], line + rest).Some?
            <==> accept(f) || FirstAccepted(UnicoreFramer.FramerFor(max), accept, [], rest).Some?
  {
    var push := UnicoreFramer.FramerFor(max);
    var s0, s1, s2 := line[0], line[1], line[2];
    LineAnswers(max, line);
    hide UnicoreFramer.FrameOf, UnicoreFramer.Push;
    var in2 := [s2] + rest;
    var in1 := [s1] + in2;
    assert line + rest == [s0] + in1;
    assert in2[1..] == rest && in1[1..] == in2 && ([s0] + in1)[1..] == in1;
    hide FirstAccepted, LineFrame;
    OneMoreHeld(push, accept, [], [s0] + in1, [s0]);
    OneMoreHeld(push, accept, [s0], in1, [s0, s1]);
    OneRecord(push, accept, [s0, s1], in2, LineFrame(s0.ts));
  }

  lemma LineAnswers(max: nat, line: seq<Stamped>)
    requires max >= 3 && Values(line) == LINE
    ensures var push := UnicoreFramer.FramerFor(max);
            && push([], line[0]) == ([line[0]], NeedMoreData)
            && push([line[0]], line[1]) == ([line[0], line[1]], NeedMoreData)
            && push([line[0], line[1]], line[2]) == ([], RecordReady(LineFrame(line[0].ts)))
  {
    hide UnicoreFramer.FrameOf;
    assert line[0].value == LINE[0] && line[1].value == LINE[1] && line[2].value == LINE[2];
    assert |line| == 3 && [line[0]] + [line[1]] == [line[0], line[1]];
    var grown := [line[0], line[1]] + [line[2]];
    assert Values(grown) == LINE && grown[0] == line[0];
    assert UnicoreFramer.Push(max, [line[0], line[1]], line[2]).1
        == RecordReady(UnicoreFramer.FrameOf(Values(grown), grown[0].ts));
  }

  lemma OneMoreHeld<R>(push: Framer<R>, accept: R -> bool, held: Pending, input: seq<Stamped>, next: Pending)
    requires input != [] && push(held, input[0]) == (next, NeedMoreData)
    ensures FirstAccepted(push, accept, held, input).Some? <==> FirstAccepted(push, accept, next, input[1..]).Some?
  {
  }

  lemma OneRecord<R>(push: Framer<R>, accept: R -> bool, held: Pending, input: seq<Stamped>, record: R)
    requires input != [] && push(held, input[0]) == ([], RecordReady(record))
    ensures FirstAccepted(push, accept, held, input).Some?
       <==> accept(record) || FirstAccepted(push, accept, [], input[1..]).Some?
  {
  }

  /** Bytes with which no record of any of the other four protocols starts. */
  predicate StartsNothingElse(c: byte) {
    !NmeaChecksum.IsLeader(c) && c != Rtcm.PREAMBLE && c != UnicoreBinaryFramer.SYNC1
  }

  lemma OthersFindNothing(parses: UnicoreParser, input: seq<Stamped>)
    requires forall i :: 0 <= i < |input| ==> StartsNothingElse(input[i].value)
    ensures var c := Candidates(parses, input); c[0] == None && c[2] == None && c[4] == None
  {
    NothingStarts(Nmea.FramerFor(NMEA_LIMIT), AcceptsNmea, input);
    NothingStarts(RtcmPush, AcceptsRtcm, input);
    NothingStarts(UnicoreBinaryFramer.FramerFor(UNICORE_BINARY_LIMIT), AcceptsUnicoreBinary, input);
    hide FirstAccepted;
  }

  lemma NoUbxInLine(max: nat, line: seq<Stamped>)
    requires Values(line) == LINE
    ensures forall i :: 0 <= i < |line| ==> UbxStream.FramerFor(max)([], line[i]) == ([], ParserResult<Ubx.UbxFrame>.Skipped)
    ensures forall i :: 0 <= i < |line| ==> StartsNothingElse(line[i].value)
  {
    assert forall i :: 0 <= i < |line| ==> line[i].value == LINE[i];
  }

  lemma NoUnicoreInFrame(max: nat, frame: seq<Stamped>)
    requires Values(frame) == UbxStream.PING_FRAME
    ensures forall i :: 0 <= i < |frame| ==>
              UnicoreFramer.FramerFor(max)([], frame[i]) == ([], ParserResult<UnicoreFramer.UnicoreFrame>.Skipped)
    ensures forall i :: 0 <= i < |frame| ==> StartsNothingElse(frame[i].value)
  {
    assert forall i :: 0 <= i < |frame| ==> frame[i].value == UbxStream.PING_FRAME[i];
  }

  lemma UnverifiedLine(parses: UnicoreParser, line: seq<Stamped>, rest: seq<Stamped>)
    requires Values(line) == LINE
    requires forall i :: 0 <= i < |rest| ==>
               UnicoreFramer.FramerFor(UNICORE_LIMIT)([], rest[i]) == ([], ParserResult<UnicoreFramer.UnicoreFrame>.Skipped)
    ensures Candidates(parses, line + rest)[3] == None
  {
    LineIsFramed(UNICORE_LIMIT, VerifiedBy(parses), line, rest);
    LineFacts(line[0].ts);
    NothingStarts(UnicoreFramer.FramerFor(UNICORE_LIMIT), VerifiedBy(parses), rest);
    hide FirstAccepted, LineFrame;
  }

  lemma LineIsUnknown(parses: UnicoreParser, line: seq<Stamped>)
    requires Values(line) == LINE
    ensures Detected(parses, line).protocol == Unknown
  {
    assert line + [] == line;
    NoUbxInLine(UBX_LIMIT, line);
    OthersFindNothing(parses, line);
    UnverifiedLine(parses, line, []);
    NothingStarts(UbxStream.FramerFor(UBX_LIMIT), AcceptsUbx, line);
    hide FirstAccepted, Best, Detected, UnicoreAsciiCandidate;
    assert Candidates(parses, line)[1] == None;
    DetectedIsEarliest(parses, line);
  }

  lemma LineLooksLikeUnicore(config: Config, line: seq<Stamped>)
    requires Values(line) == LINE && config.unicoreMax >= 3
    ensures UnicoreSeen(config, line) && !UbxSeen(config, line)
  {
    assert line + [] == line;
    NoUbxInLine(config.ublox.maxUbx, line);
    NothingStarts(UbxStream.FramerFor(config.ublox.maxUbx), AcceptsUbx, line);
    LineIsFramed(config.unicoreMax, SupportedUnicore, line, []);
    LineFacts(line[0].ts);
    hide FirstAccepted, LineFrame;
  }

  /** On the line alone only the test that skips checksums finds a vendor: Unicore. */
  lemma LineMeansUnicore(config: Config, parses: UnicoreParser, line: seq<Stamped>)
    requires Values(line) == LINE && config.unicoreMax >= 3
    ensures Choose(config, parses, line) == Some(Unicore)
  {
    assert Values(StampAll(Values(line), None)) == LINE && line != [];
    LineIsUnknown(parses, StampAll(Values(line), None));
    LineLooksLikeUnicore(config, line);
    hide Detected, UnicoreSeen, UbxSeen;
  }

  /** Behind bytes that start no UBX frame. */
  lemma PingIsFound(max: nat, before: seq<Stamped>, frame: seq<Stamped>)
    requires max >= 8 && Values(frame) == Ubx.BuildUbxFrame(UbxStream.PING)
    requires forall i :: 0 <= i < |before| ==>
               UbxStream.FramerFor(max)([], before[i]) == ([], ParserResult<Ubx.UbxFrame>.Skipped)
    ensures FirstAccepted(UbxStream.FramerFor(max), AcceptsUbx, [], before + frame).Some?
  {
    hide *;
    PassedOver(UbxStream.FramerFor(max), AcceptsUbx, before, frame);
    PingIsCarried(max);
    UbxStream.OneBuiltFrame(max, UbxStream.PING, frame);
    FrameIsNotEmpty(frame);
    var f := Ubx.FrameOf(Ubx.BuildUbxFrame(UbxStream.PING), frame[0].ts);
    PingIsAccepted(frame[0].ts);
    FoundIffAccepted(UbxStream.FramerFor(max), AcceptsUbx, [], frame);
    assert f in Run(UbxStream.FramerFor(max), [], frame).1;
  }

  lemma PingIsAccepted(ts: Timestamp)
    ensures AcceptsUbx(Ubx.FrameOf(Ubx.BuildUbxFrame(UbxStream.PING), ts))
  {
    PingIsCarried(UBX_LIMIT);
    CarriedFrameIsAccepted(UbxStream.PING, ts);
  }

  lemma FrameIsNotEmpty(frame: seq<Stamped>)
    requires Values(frame) == Ubx.BuildUbxFrame(UbxStream.PING)
    ensures frame != []
  {
  }

  lemma PingIsCarried(max: nat)
    requires max >= 8
    ensures UbxStream.Carries(max, UbxStream.PING)
  {
  }

  /** On the line and the frame together the detector names the frame first: u-blox. */
  lemma LineAndFrameMeanUblox(config: Config, parses: UnicoreParser, line: seq<Stamped>, frame: seq<Stamped>)
    requires Values(line) == LINE && Values(frame) == Ubx.BuildUbxFrame(UbxStream.PING)
    ensures Choose(config, parses, line + frame) == Some(Ublox)
  {
    UbxStream.PingBytes();
    var a, b := StampAll(Values(line), None), StampAll(Values(frame), None);
    var all := StampAll(Values(line + frame), None);
    assert all == a + b && Values(a) == LINE && Values(b) == UbxStream.PING_FRAME;
    NoUbxInLine(UBX_LIMIT, a);
    PingIsFound(UBX_LIMIT, a, b);
    NoUnicoreInFrame(UNICORE_LIMIT, b);
    OthersFindNothing(parses, all);
    UnverifiedLine(parses, a, b);
    OnlyUbx(parses, all);
    hide FirstAccepted, Detected;
  }

  lemma OnlyUbx(parses: UnicoreParser, input: seq<Stamped>)
    requires FirstAccepted(UbxStream.FramerFor(UBX_LIMIT), AcceptsUbx, [], input).Some?
    requires var c := Candidates(parses, input); c[0] == None && c[2] == None && c[3] == None && c[4] == None
    ensures Detected(parses, input).protocol == Protocol.Ubx
  {
    hide FirstAccepted, Best, Detected, NmeaCandidate, RtcmCandidate, UnicoreAsciiCandidate, UnicoreBinaryCandidate;
    var c := Candidates(parses, input);
    assert c[1].Some? && c[1].value.protocol == Protocol.Ubx;
    DetectedIsEarliest(parses, input);
    var i: nat :| Wins(c, i, Detected(parses, input));
  }

  /**
   The selection can depend on the cut: a Unicore-looking line without a checksum followed by a valid
   UBX frame selects Unicore when read in two parts and u-blox when read at once.
   */
  lemma CutChangesTheVendor<A, B, C>(e: Setup<A, B, C>, s: State<A, B, C>, line: seq<Stamped>, frame: seq<Stamped>)
    requires s.selected == None && s.pending == []
    requires Values(line) == LINE && Values(frame) == Ubx.BuildUbxFrame(UbxStream.PING)
    requires e.config.unicoreMax >= 3
    ensures FeedChunks(e, s, [line, frame]).selected == Some(Unicore)
    ensures FeedChunks(e, s, [line + frame]).selected == Some(Ublox)
  {
    hide *;
    LineMeansUnicore(e.config, e.parses, line);
    LineAndFrameMeanUblox(e.config, e.parses, line, frame);
    TwoReadsOrOne(e, s, line, frame);
  }

  // ----- Another, without any Unicore byte ---------------------------------------------------

  /** "$GPGGA" and a line feed: a sentence without a checksum. */
  const SENTENCE: seq<byte> := [0x24, 0x47, 0x50, 0x47, 0x47, 0x41, 0x0A]

  lemma SentenceIsLine()
    ensures Nmea.IsLine(SENTENCE) && UnicoreFramer.IsLine(SENTENCE) && SENTENCE[0] == NmeaChecksum.DOLLAR
  {
  }

  lemma SentencePayload()
    ensures SENTENCE[..NmeaChecksum.TrimmedLength(SENTENCE)] == SENTENCE[..6]
    ensures Nmea.PayloadOf(SENTENCE[..6]) == [0x47, 0x50, 0x47, 0x47, 0x41]
    ensures NmeaChecksum.STAR !in SENTENCE[..6]
  {
    var line: seq<byte> := [0x24, 0x47, 0x50, 0x47, 0x47, 0x41];
    assert SENTENCE[..6] == line && line[1..] == [0x47, 0x50, 0x47, 0x47, 0x41];
    assert NmeaChecksum.TrimmedLength(SENTENCE) == 6;
    hide NmeaChecksum.Find;
    assert NmeaChecksum.Find(line, NmeaChecksum.STAR) == None;
  }

  lemma SentenceFacts(ts: Timestamp)
    ensures AcceptsNmea(Nmea.SentenceOf(SENTENCE, ts))
  {
    SentencePayload();
    var payload: seq<byte> := [0x47, 0x50, 0x47, 0x47, 0x41];
    hide NmeaChecksum.Find, NmeaChecksum.TrimmedLength, NmeaChecksum.Checksum, NmeaChecksum.TryParseHexByte, Nmea.PayloadOf;
    assert NmeaChecksum.Find(payload, NmeaChecksum.COMMA) == None;
    assert NmeaChecksum.Find(SENTENCE[..6], NmeaChecksum.STAR) == None;
    assert NmeaChecksum.ValidateNmeaChecksum(SENTENCE[..6]).status == Missing;
    assert payload[2..] != [];
  }

  /** A stream that starts with a line framed whole: the line's record, and whatever comes after it. */
  lemma FramedFirst<R>(push: Framer<R>, accept: R -> bool, a: seq<Stamped>, b: seq<Stamped>, record: R)
    requires Run(push, [], a) == ([], [record])
    ensures FirstAccepted(push, accept, [], a + b).Some?
       <==> accept(record) || FirstAccepted(push, accept, [], b).Some?
  {
    FoundIffAccepted(push, accept, [], a + b);
    FoundIffAccepted(push, accept, [], b);
    RunConcat(push, [], a, b);
    hide Run, FirstAccepted;
    var rest := Run(push, [], b).1;
    assert forall r :: r in [record] + rest <==> r == record || r in rest;
    if accept(record) {
      assert record in [record] + rest;
    }
  }

  /** The detector names the sentence, which ends before anything else does. */
  lemma SentenceIsDetected(parses: UnicoreParser, line: seq<Stamped>)
    requires Values(line) == SENTENCE
    ensures Detected(parses, line).protocol == Protocol.Nmea
  {
    SentenceIsLine();
    SentenceFacts(line[0].ts);
    hide Nmea.SentenceOf, UnicoreFramer.FrameOf, Detected, FirstAccepted, Run;
    assert line + [] == line;
    Nmea.LineComesBackIffItFits(NMEA_LIMIT, [], line);
    FramedFirst(Nmea.FramerFor(NMEA_LIMIT), AcceptsNmea, line, [], Nmea.SentenceOf(SENTENCE, line[0].ts));
    UnicoreFramer.LineComesBack(UNICORE_LIMIT, line);
    FramedFirst(UnicoreFramer.FramerFor(UNICORE_LIMIT), VerifiedBy(parses), line, [],
                UnicoreFramer.FrameOf(SENTENCE, line[0].ts));
    NothingElseInSentence(line);
    NoUbxWithoutSync(UBX_LIMIT, line);
    NoRtcmWithoutPreamble(line);
    NoBinaryWithoutSync(UNICORE_BINARY_LIMIT, line);
    NothingStarts(UnicoreFramer.FramerFor(UNICORE_LIMIT), VerifiedBy(parses), []);
    OnlyNmea(parses, line);
  }

  lemma NoUbxWithoutSync(max: nat, input: seq<Stamped>)
    requires forall i :: 0 <= i < |input| ==> input[i].value != Ubx.SYNC1
    ensures forall i :: 0 <= i < |input| ==>
              UbxStream.FramerFor(max)([], input[i]) == ([], ParserResult<Ubx.UbxFrame>.Skipped)
    ensures FirstAccepted(UbxStream.FramerFor(max), AcceptsUbx, [], input) == None
  {
    NothingStarts(UbxStream.FramerFor(max), AcceptsUbx, input);
    hide FirstAccepted;
  }

  lemma NoRtcmWithoutPreamble(input: seq<Stamped>)
    requires forall i :: 0 <= i < |input| ==> input[i].value != Rtcm.PREAMBLE
    ensures FirstAccepted(RtcmPush, AcceptsRtcm, [], input) == None
  {
    NothingStarts(RtcmPush, AcceptsRtcm, input);
    hide FirstAccepted;
  }

  lemma NoBinaryWithoutSync(max: nat, input: seq<Stamped>)
    requires forall i :: 0 <= i < |input| ==> input[i].value != UnicoreBinaryFramer.SYNC1
    ensures forall i :: 0 <= i < |input| ==>
              UnicoreBinaryFramer.FramerFor(max)([], input[i])
              == ([], ParserResult<UnicoreBinaryFramer.UnicoreBinaryFrame>.Skipped)
    ensures FirstAccepted(UnicoreBinaryFramer.FramerFor(max), AcceptsUnicoreBinary, [], input) == None
  {
    NothingStarts(UnicoreBinaryFramer.FramerFor(max), AcceptsUnicoreBinary, input);
    hide FirstAccepted;
  }

  lemma NothingElseInSentence(line: seq<Stamped>)
    requires Values(line) == SENTENCE
    ensures forall i :: 0 <= i < |line| ==>
              line[i].value != Ubx.SYNC1 && line[i].value != Rtcm.PREAMBLE && line[i].value != UnicoreBinaryFramer.SYNC1
  {
    assert forall i :: 0 <= i < |line| ==> line[i].value == SENTENCE[i];
  }

  lemma OnlyNmea(parses: UnicoreParser, input: seq<Stamped>)
    requires FirstAccepted(Nmea.FramerFor(NMEA_LIMIT), AcceptsNmea, [], input).Some?
    requires FirstAccepted(UbxStream.FramerFor(UBX_LIMIT), AcceptsUbx, [], input) == None
    requires FirstAccepted(RtcmPush, AcceptsRtcm, [], input) == None
    requires FirstAccepted(UnicoreFramer.FramerFor(UNICORE_LIMIT), VerifiedBy(parses), [], input) == None
    requires FirstAccepted(UnicoreBinaryFramer.FramerFor(UNICORE_BINARY_LIMIT), AcceptsUnicoreBinary, [], input) == None
    ensures Detected(parses, input).protocol == Protocol.Nmea
  {
    hide FirstAccepted, Best, Detected;
    var c := Candidates(parses, input);
    assert c[0].Some? && c[0].value.protocol == Protocol.Nmea;
    assert c[1] == None && c[2] == None && c[3] == None && c[4] == None;
    DetectedIsEarliest(parses, input);
    var i: nat :| Wins(c, i, Detected(parses, input));
  }

  lemma UnicoreNotSeen(config: Config, line: seq<Stamped>, rest: seq<Stamped>)
    requires Values(line) == SENTENCE && config.unicoreMax >= 7
    requires rest == [] || Values(rest) == UbxStream.PING_FRAME
    ensures !UnicoreSeen(config, line + rest)
  {
    if rest != [] {
      NoUnicoreInFrame(config.unicoreMax, rest);
    }
    SentenceIsLine();
    NothingElseInSentence(line);
    NoBinaryWithoutSync(config.unicoreBinaryMax, line);
    hide FirstAccepted, Run, UnicoreFramer.FrameOf;
    UnicoreFramer.LineComesBack(config.unicoreMax, line);
    FramedFirst(UnicoreFramer.FramerFor(config.unicoreMax), SupportedUnicore, line, rest,
                UnicoreFramer.FrameOf(SENTENCE, line[0].ts));
    NothingStarts(UnicoreFramer.FramerFor(config.unicoreMax), SupportedUnicore, rest);
    PassedOver(UnicoreBinaryFramer.FramerFor(config.unicoreBinaryMax), AcceptsUnicoreBinary, line, rest);
    NothingStarts(UnicoreBinaryFramer.FramerFor(config.unicoreBinaryMax), AcceptsUnicoreBinary, rest);
  }

  /** The sentence alone means generic NMEA. */
  lemma SentenceMeansNmea(config: Config, parses: UnicoreParser, line: seq<Stamped>)
    requires Values(line) == SENTENCE && config.unicoreMax >= 7 && config.allowGenericNmea
    ensures Choose(config, parses, line) == Some(Kind.Nmea)
  {
    var bare := StampAll(Values(line), None);
    assert Values(bare) == SENTENCE && line + [] == line && line != [];
    SentenceIsDetected(parses, bare);
    UnicoreNotSeen(config, line, []);
    NothingElseInSentence(line);
    NoUbxWithoutSync(config.ublox.maxUbx, line);
    hide Detected, UnicoreSeen, FirstAccepted;
  }

  /** With a valid UBX frame behind it, it means u-blox, although the sentence is what is detected first. */
  lemma SentenceAndFrameMeanUblox(config: Config, parses: UnicoreParser, line: seq<Stamped>, frame: seq<Stamped>)
    requires Values(line) == SENTENCE && Values(frame) == Ubx.BuildUbxFrame(UbxStream.PING)
    requires config.ublox.maxUbx >= 8 && config.unicoreMax >= 7
    ensures Choose(config, parses, line + frame) == Some(Ublox)
  {
    UbxStream.PingBytes();
    var a, all := StampAll(Values(line), None), StampAll(Values(line + frame), None);
    assert Values(a) == SENTENCE && all == a + all[|a|..] && line + frame != [];
    SentenceIsDetected(parses, a);
    PrefixStable(parses, a, all[|a|..]);
    UnicoreNotSeen(config, line, frame);
    NothingElseInSentence(line);
    NoUbxWithoutSync(config.ublox.maxUbx, line);
    PingIsFound(config.ublox.maxUbx, line, frame);
    hide Detected, UnicoreSeen, FirstAccepted, Ubx.BuildUbxFrame;
  }

  /**
   The selection can depend on the cut without any Unicore byte: a sentence followed by a valid UBX
   frame selects generic NMEA when read in two parts, where that is allowed, and u-blox when read at once.
   */
  lemma CutChangesNmeaToUblox<A, B, C>(e: Setup<A, B, C>, s: State<A, B, C>, line: seq<Stamped>, frame: seq<Stamped>)
    requires s.selected == None && s.pending == [] && e.config.allowGenericNmea
    requires Values(line) == SENTENCE && Values(frame) == Ubx.BuildUbxFrame(UbxStream.PING)
    requires e.config.ublox.maxUbx >= 8 && e.config.unicoreMax >= 7
    ensures FeedChunks(e, s, [line, frame]).selected == Some(Kind.Nmea)
    ensures FeedChunks(e, s, [line + frame]).selected == Some(Ublox)
  {
    hide *;
    SentenceMeansNmea(e.config, e.parses, line);
    SentenceAndFrameMeanUblox(e.config, e.parses, line, frame);
    TwoReadsOrOne(e, s, line, frame);
  }

  /** A kind chosen on the first of two reads stays; one read of everything chooses on everything. */
  lemma TwoReadsOrOne<A, B, C>(e: Setup<A, B, C>, s: State<A, B, C>, a: seq<Stamped>, b: seq<Stamped>)
    requires s.selected == None && s.pending == []
    requires Choose(e.config, e.parses, a).Some?
    ensures FeedChunks(e, s, [a, b]).selected == Choose(e.config, e.parses, a)
    ensures FeedChunks(e, s, [a + b]).selected == Choose(e.config, e.parses, a + b)
  {
    hide Choose, Feed;
    WholeChoice(e, s, a);
    WholeChoice(e, s, a + b);
    assert [a, b][1..] == [b] && [a + b][1..] == [];
    ReadsKeepSelection(e, Feed(e, s, a), [b]);
  }
}
