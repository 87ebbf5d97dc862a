/**
 The local RTCM caster, `gnss_ntrip/src/local_rtcm_caster.cpp`. Socket calls are replaced by their
 results, which are parameters; `sent` records what a client's socket has taken.
 */
module RtcmCaster {
  import opened Bits
  import opened Framing
  import opened RtcmFramer

  const SLASH: byte := 0x2F
  const SPACE: byte := 0x20
  const REQUEST_LIMIT := 2048
  const COMPACT_THRESHOLD := 4096

  /** "ICY 200 OK" and two line ends. */
  const BANNER: seq<byte> := [0x49, 0x43, 0x59, 0x20, 0x32, 0x30, 0x30, 0x20, 0x4F, 0x4B, 0x0D, 0x0A, 0x0D, 0x0A]

  /** `sizeof(kIcyResponse)`, its terminating zero included. */
  const SMALLEST_BUFFER := 15

  datatype Source = Source(id: seq<byte>, incarnation: nat)

  datatype Client = Client(live: bool, request: seq<byte>, pending: seq<byte>, offset: nat, ready: bool, sent: seq<byte>)

  datatype Metrics = Metrics(accepted: nat, rejected: nat, slow: nat, served: nat)

  datatype State = State(
    running: bool, mountpoint: seq<byte>, limit: nat, source: Option<Source>, previous: Option<Source>,
    cached1005: seq<byte>, cached1006: seq<byte>, clients: seq<Client>, metrics: Metrics)

  datatype RecvResult = Received(bytes: seq<byte>) | Closed | NothingYet

  datatype SendResult = Took(count: nat) | TryAgain | Broken

  /** What the two socket calls for one client return in one poll. */
  datatype Io = Io(recv: RecvResult, send: SendResult)

  const INITIAL := State(false, [], 0, None, None, [], [], [], Metrics(0, 0, 0, 0))

  // ----- One client ------------------------------------------------------------------------

  function Unsent(c: Client): seq<byte> {
    if c.offset <= |c.pending| then c.pending[c.offset..] else []
  }

  /** The buffer before appending: emptied, or cut in front once much of it has been sent. */
  function Compacted(c: Client): Client {
    if c.offset == |c.pending| then c.(pending := [], offset := 0)
    else if c.offset >= COMPACT_THRESHOLD && c.offset * 2 >= |c.pending| && c.offset <= |c.pending|
    then c.(pending := c.pending[c.offset..], offset := 0)
    else c
  }

  /** `None` when the client would fall behind by more than the limit. */
  function Queue(limit: nat, c: Client, bytes: seq<byte>): Option<Client> {
    if |bytes| > limit - (|c.pending| - c.offset) then None
    else
      var compacted := Compacted(c);
      Some(compacted.(pending := compacted.pending + bytes))
  }

  /** Three pieces, or none of them kept. */
  function QueueAll(limit: nat, c: Client, a: seq<byte>, b: seq<byte>, d: seq<byte>): Option<Client> {
    match Queue(limit, c, a)
    case None => None
    case Some(c1) =>
      match Queue(limit, c1, b)
      case None => None
      case Some(c2) => Queue(limit, c2, d)
  }

  predicate HasLineEnd(request: seq<byte>) {
    exists i :: 0 <= i < |request| - 1 && request[i] == 0x0D && request[i + 1] == 0x0A
  }

  /** "GET /", the mountpoint and a space. */
  function Expected(mountpoint: seq<byte>): seq<byte> {
    [0x47, 0x45, 0x54, 0x20, SLASH] + mountpoint + [SPACE]
  }

  predicate Asks(request: seq<byte>, mountpoint: seq<byte>) {
    Expected(mountpoint) <= request
  }

  function Count(m: Metrics, accepted: nat, rejected: nat, slow: nat): Metrics {
    m.(accepted := m.accepted + accepted, rejected := m.rejected + rejected, slow := m.slow + slow)
  }

  /** A client that has not been answered yet. */
  function Handshake(s: State, c: Client, recv: RecvResult): (Client, Metrics) {
    var asked := if recv.Received? then c.(request := c.request + recv.bytes) else c;
    if recv.Closed? || |asked.request| > REQUEST_LIMIT then (asked.(live := false), s.metrics)
    else if !HasLineEnd(asked.request) then (asked, s.metrics)
    else if !Asks(asked.request, s.mountpoint) then (asked.(live := false), Count(s.metrics, 0, 1, 0))
    else match QueueAll(s.limit, asked, BANNER, s.cached1005, s.cached1006)
      case None => (asked.(live := false), Count(s.metrics, 0, 0, 1))
      case Some(queued) => (queued.(ready := true), Count(s.metrics, 1, 0, 0))
  }

  /** The socket takes a first part of what is unsent, all of it at most. */
  function SendSome(c: Client, send: SendResult): Client {
    if c.offset >= |c.pending| then c
    else match send
      case Took(count) =>
        if count == 0 then c
        else
          var n := if count < |c.pending| - c.offset then count else |c.pending| - c.offset;
          var after := c.(sent := c.sent + c.pending[c.offset..c.offset + n], offset := c.offset + n);
          if after.offset == |c.pending| then after.(pending := [], offset := 0) else after
      case TryAgain => c
      case Broken => c.(live := false)
  }

  function PollClient(s: State, c: Client, io: Io): (Client, Metrics) {
    if !c.live then (c, s.metrics)
    else
      var (answered, metrics) := if c.ready then (c, s.metrics) else Handshake(s, c, io.recv);
      (if answered.live then SendSome(answered, io.send) else answered, metrics)
  }

  // ----- The caster ------------------------------------------------------------------------

  function StripSlashes(m: seq<byte>): seq<byte> {
    if m != [] && m[0] == SLASH then StripSlashes(m[1..]) else m
  }

  function Stopped(s: State): State {
    s.(running := false, source := None, cached1005 := [], cached1006 := [], clients := [])
  }

  function Started(s: State, mountpoint: seq<byte>, limit: nat, listening: bool): State {
    if StripSlashes(mountpoint) == [] || limit < SMALLEST_BUFFER || !listening then Stopped(s)
    else Stopped(s).(running := true, mountpoint := StripSlashes(mountpoint), limit := limit)
  }

  predicate MayActivate(s: State, source: Source) {
    s.running && source.id != [] && source.incarnation != 0 && s.previous != Some(source)
  }

  function Activated(s: State, source: Source): State {
    if !MayActivate(s, source) then s
    else s.(source := Some(source), previous := Some(source), cached1005 := [], cached1006 := [])
  }

  function SourceEnded(s: State): State {
    s.(source := None, cached1005 := [], cached1006 := [])
  }

  predicate Publishable(s: State, frame: RtcmFrame) {
    s.source.Some? && frame.status == Valid && frame.rawBytes != []
  }

  /** One client's share of a published frame. */
  function Offer(limit: nat, c: Client, bytes: seq<byte>): Client {
    if !c.live || !c.ready then c
    else match Queue(limit, c, bytes)
      case Some(queued) => queued
      case None => c.(live := false)
  }

  function OfferAll(limit: nat, clients: seq<Client>, bytes: seq<byte>): (after: seq<Client>)
    ensures |after| == |clients|
    ensures forall i :: 0 <= i < |clients| ==> after[i] == Offer(limit, clients[i], bytes)
  {
    seq(|clients|, i requires 0 <= i < |clients| => Offer(limit, clients[i], bytes))
  }

  function Refused(limit: nat, clients: seq<Client>, bytes: seq<byte>): nat {
    if clients == [] then 0
    else
      var last := clients[|clients| - 1];
      Refused(limit, clients[..|clients| - 1], bytes)
      + (if last.live && last.ready && Queue(limit, last, bytes) == None then 1 else 0)
  }

  function Published(s: State, frame: RtcmFrame): State {
    if !Publishable(s, frame) then s
    else s.(cached1005 := if frame.messageType == 1005 then frame.rawBytes else s.cached1005,
            cached1006 := if frame.messageType == 1006 then frame.rawBytes else s.cached1006,
            clients := OfferAll(s.limit, s.clients, frame.rawBytes),
            metrics := s.metrics.(slow := s.metrics.slow + Refused(s.limit, s.clients, frame.rawBytes),
                                  served := s.metrics.served + 1))
  }

  const NEW_CLIENT := Client(true, [], [], 0, false, [])

  /** New connections behind the ones there are. */
  function Accepting(clients: seq<Client>, count: nat): (all: seq<Client>)
    ensures |all| == |clients| + count
  {
    clients + seq(count, i => NEW_CLIENT)
  }

  function IoFor(io: seq<Io>, i: nat): Io {
    if i < |io| then io[i] else Io(NothingYet, TryAgain)
  }

  /** The clients up to `n`, each polled once, in order. */
  function PollFirst(s: State, io: seq<Io>, n: nat): State
    requires n <= |s.clients|
    ensures |PollFirst(s, io, n).clients| == |s.clients|
  {
    if n == 0 then s
    else
      var before := PollFirst(s, io, n - 1);
      var (client, metrics) := PollClient(before, before.clients[n - 1], IoFor(io, n - 1));
      before.(clients := before.clients[n - 1 := client], metrics := metrics)
  }

  /** Closed connections leave the list. */
  function LiveOnly(clients: seq<Client>): seq<Client> {
    if clients == [] then []
    else
      var last := clients[|clients| - 1];
      LiveOnly(clients[..|clients| - 1]) + (if last.live then [last] else [])
  }

  function Polled(s: State, accepts: nat, io: seq<Io>): State {
    if !s.running then s
    else
      var grown := s.(clients := Accepting(s.clients, accepts));
      var polled := PollFirst(grown, io, |grown.clients|);
      polled.(clients := LiveOnly(polled.clients))
  }

  // ----- The caster object -----------------------------------------------------------------

  class LocalRtcmCaster {
    var running: bool
    var mountpoint: seq<byte>
    var limit: nat
    var source: Option<Source>
    var previous: Option<Source>
    var cached1005: seq<byte>
    var cached1006: seq<byte>
    var clients: seq<Client>
    var metrics: Metrics

    ghost function Value(): State
      reads this
    {
      State(running, mountpoint, limit, source, previous, cached1005, cached1006, clients, metrics)
    }

    constructor ()
      ensures Value() == INITIAL
    {
      running, mountpoint, limit, source, previous := false, [], 0, None, None;
      cached1005, cached1006, clients, metrics := [], [], [], Metrics(0, 0, 0, 0);
    }

    method Stop()
      modifies this
      ensures Value() == Stopped(old(Value()))
    {
      clients := [];
      running := false;
      source := None;
      ClearCaches();
    }

    method ClearCaches()
      modifies `cached1005, `cached1006
      ensures cached1005 == [] && cached1006 == []
    {
      cached1005, cached1006 := [], [];
    }

    /** `listening` is whether the socket calls that open the listener all succeed. */
    method Start(requested: seq<byte>, bufferBytes: nat, listening: bool) returns (ok: bool)
      modifies this
      ensures Value() == Started(old(Value()), requested, bufferBytes, listening)
      ensures ok == running
    {
      Stop();
      var normalized := NormalizeMountpoint(requested);
      if normalized == [] || bufferBytes < SMALLEST_BUFFER {
        return false;
      }
      if !listening {
        return false;
      }
      mountpoint, limit, running := normalized, bufferBytes, true;
      return true;
    }

    method ActivateSource(requested: Source) returns (ok: bool)
      modifies this
      ensures Value() == Activated(old(Value()), requested)
      ensures ok == MayActivate(old(Value()), requested)
    {
      if !running || requested.id == [] || requested.incarnation == 0
         || (previous.Some? && previous.value.id == requested.id && previous.value.incarnation == requested.incarnation) {
        return false;
      }
      ClearCaches();
      source := Some(requested);
      previous := source;
      return true;
    }

    method EndSource()
      modifies this
      ensures Value() == SourceEnded(old(Value()))
    {
      source := None;
      ClearCaches();
    }

    method PublishFrame(frame: RtcmFrame) returns (ok: bool)
      modifies this
      ensures Value() == Published(old(Value()), frame)
      ensures ok == Publishable(old(Value()), frame)
    {
      hide Queue;
      if source == None || frame.status != ChecksumStatus.Valid || frame.rawBytes == [] {
        return false;
      }
      if frame.messageType == 1005 {
        cached1005 := frame.rawBytes;
      }
      if frame.messageType == 1006 {
        cached1006 := frame.rawBytes;
      }
      OfferToClients(frame.rawBytes);
      metrics := metrics.(served := metrics.served + 1);
      return true;
    }

    /** The loop of `PublishFrame`. */
    method OfferToClients(bytes: seq<byte>)
      modifies `clients, `metrics
      ensures clients == OfferAll(limit, old(clients), bytes)
      ensures metrics == old(metrics).(slow := old(metrics.slow) + Refused(limit, old(clients), bytes))
    {
      hide Queue;
      ghost var before := clients;
      for i := 0 to |clients|
        invariant |clients| == |before|
        invariant forall j :: 0 <= j < i ==> clients[j] == Offer(limit, before[j], bytes)
        invariant forall j :: i <= j < |before| ==> clients[j] == before[j]
        invariant metrics == old(metrics).(slow := old(metrics.slow) + Refused(limit, before[..i], bytes))
      {
        assert before[..i + 1][..i] == before[..i];
        if clients[i].live && clients[i].ready {
          var queued := Queue(limit, clients[i], bytes);
          if queued == None {
            metrics := metrics.(slow := metrics.slow + 1);
            clients := clients[i := clients[i].(live := false)];
          } else {
            clients := clients[i := queued.value];
          }
        }
      }
      assert before[..|before|] == before;
    }

    /** `accepts` connections are waiting, and the socket calls for the clients return `io`. */
    method Poll(accepts: nat, io: seq<Io>)
      modifies this
      ensures Value() == Polled(old(Value()), accepts, io)
    {
      hide PollClient;
      if !running {
        return;
      }
      clients := Accepting(clients, accepts);
      ghost var grown := Value();
      for i := 0 to |clients|
        invariant |clients| == |grown.clients| && Value() == PollFirst(grown, io, i)
      {
        PollOne(i, IoFor(io, i));
      }
      clients := RemoveClosed(clients);
    }

    /** The body of the loop of `Poll`. */
    method PollOne(i: nat, io: Io)
      requires i < |clients|
      modifies `clients, `metrics
      ensures var (client, counted) := PollClient(old(Value()), old(clients)[i], io);
              clients == old(clients)[i := client] && metrics == counted
    {
      hide Queue, QueueAll, HasLineEnd, Asks;
      var client := clients[i];
      if !client.live {
        return;
      }
      if !client.ready {
        if io.recv.Received? {
          client := client.(request := client.request + io.recv.bytes);
        }
        if io.recv.Closed? || |client.request| > REQUEST_LIMIT {
          clients := clients[i := client.(live := false)];
          return;
        }
        var lineEnd := FindLineEnd(client.request);
        if lineEnd {
          if !Asks(client.request, mountpoint) {
            metrics := metrics.(rejected := metrics.rejected + 1);
            clients := clients[i := client.(live := false)];
            return;
          }
          var queued := QueueAll(limit, client, BANNER, cached1005, cached1006);
          if queued == None {
            metrics := metrics.(slow := metrics.slow + 1);
            clients := clients[i := client.(live := false)];
            return;
          }
          client := queued.value.(ready := true);
          metrics := metrics.(accepted := metrics.accepted + 1);
        }
      }
      if client.live && client.offset < |client.pending| {
        client := SendSome(client, io.send);
      }
      clients := clients[i := client];
    }
  }

  method NormalizeMountpoint(value: seq<byte>) returns (stripped: seq<byte>)
    ensures stripped == StripSlashes(value)
  {
    stripped := value;
    while stripped != [] && stripped[0] == SLASH
      invariant StripSlashes(stripped) == StripSlashes(value)
      decreases |stripped|
    {
      stripped := stripped[1..];
    }
  }

  method FindLineEnd(request: seq<byte>) returns (found: bool)
    ensures found <==> HasLineEnd(request)
  {
    var i := 0;
    while i + 1 < |request|
      invariant forall j :: 0 <= j < i && j < |request| - 1 ==> !(request[j] == 0x0D && request[j + 1] == 0x0A)
    {
      if request[i] == 0x0D && request[i + 1] == 0x0A {
        return true;
      }
      i := i + 1;
    }
    return false;
  }

  method RemoveClosed(clients: seq<Client>) returns (left: seq<Client>)
    ensures left == LiveOnly(clients)
  {
    left := [];
    for i := 0 to |clients|
      invariant left == LiveOnly(clients[..i])
    {
      assert clients[..i + 1][..i] == clients[..i];
      if clients[i].live {
        left := left + [clients[i]];
      }
    }
    assert clients[..|clients|] == clients;
  }

  // ----- Whole runs ------------------------------------------------------------------------

  datatype Event =
    | StartUp(mountpoint: seq<byte>, limit: nat, listening: bool) | ShutDown
    | Activate(source: Source) | End | Publish(frame: RtcmFrame) | Poll(accepts: nat, io: seq<Io>)

  function Step(s: State, event: Event): State {
    match event
    case StartUp(mountpoint, limit, listening) => Started(s, mountpoint, limit, listening)
    case ShutDown => Stopped(s)
    case Activate(source) => Activated(s, source)
    case End => SourceEnded(s)
    case Publish(frame) => Published(s, frame)
    case Poll(accepts, io) => Polled(s, accepts, io)
  }

  function Run(events: seq<Event>): State {
    if events == [] then INITIAL else Step(Run(events[..|events| - 1]), events[|events| - 1])
  }

  /** The bytes of the frames that the events from `from` on published. */
  function PublishedSince(events: seq<Event>, from: nat): seq<byte> {
    if |events| <= from then []
    else
      var before, last := events[..|events| - 1], events[|events| - 1];
      PublishedSince(before, from)
      + (if last.Publish? && Publishable(Run(before), last.frame) then last.frame.rawBytes else [])
  }

  /** What a client that is answered by event number `j` is to be sent: banner, caches, later frames. */
  function Stream(events: seq<Event>, j: nat): seq<byte>
    requires j <= |events|
  {
    BANNER + Run(events[..j]).cached1005 + Run(events[..j]).cached1006 + PublishedSince(events, j)
  }

  /** A connection's number in the order of acceptance, and the event that answered it, if one has. */
  datatype Tag = Tag(serial: nat, answered: Option<nat>)

  /** The connections accepted over the whole run. */
  function Connections(events: seq<Event>): nat {
    if events == [] then 0
    else
      var before, last := events[..|events| - 1], events[|events| - 1];
      Connections(before) + (if last.Poll? && Run(before).running then last.accepts else 0)
  }

  function NewTags(next: nat, count: nat): (tags: seq<Tag>)
    ensures |tags| == count && forall i :: 0 <= i < count ==> tags[i] == Tag(next + i, None)
  {
    seq(count, i requires 0 <= i => Tag(next + i, None))
  }

  /** A client that became ready was answered now. */
  function Retagged(before: seq<Client>, after: seq<Client>, tags: seq<Tag>, now: nat): (r: seq<Tag>)
    requires |before| == |after| == |tags|
    ensures |r| == |tags|
    ensures forall i :: 0 <= i < |r| ==>
              r[i] == if after[i].ready && !before[i].ready then tags[i].(answered := Some(now)) else tags[i]
  {
    seq(|tags|, i requires 0 <= i < |tags| && |before| == |after| == |tags| =>
      if after[i].ready && !before[i].ready then tags[i].(answered := Some(now)) else tags[i])
  }

  /** The tags of the clients that `LiveOnly` keeps. */
  function TagsOfLive(clients: seq<Client>, tags: seq<Tag>): (r: seq<Tag>)
    requires |clients| == |tags|
    ensures |r| == |LiveOnly(clients)|
  {
    if clients == [] then []
    else
      var n := |clients| - 1;
      TagsOfLive(clients[..n], tags[..n]) + (if clients[n].live then [tags[n]] else [])
  }

  /** The state just before the clients of a poll are looked at. */
  function Grown(s: State, accepts: nat): State {
    s.(clients := Accepting(s.clients, accepts))
  }

  function TagsAfter(s: State, tags: seq<Tag>, next: nat, event: Event, now: nat): (r: seq<Tag>)
    requires |tags| == |s.clients|
    ensures |r| == |Step(s, event).clients|
  {
    match event
    case StartUp(_, _, _) => []
    case ShutDown => []
    case Poll(accepts, io) =>
      if !s.running then tags
      else
        var grown := Grown(s, accepts);
        var polled := PollFirst(grown, io, |grown.clients|);
        TagsOfLive(polled.clients, Retagged(grown.clients, polled.clients, tags + NewTags(next, accepts), now))
    case _ => tags
  }

  /** The tags of the clients there are after a run, in the order of the clients. */
  function Tags(events: seq<Event>): (r: seq<Tag>)
    ensures |r| == |Run(events).clients|
  {
    if events == [] then []
    else
      var n := |events| - 1;
      TagsAfter(Run(events[..n]), Tags(events[..n]), Connections(events[..n]), events[n], n)
  }

  function Max(a: nat, b: nat): nat {
    if a > b then a else b
  }

  predicate Bounded(limit: nat, c: Client) {
    c.offset <= |c.pending| && |Unsent(c)| <= limit && |c.pending| < limit + Max(COMPACT_THRESHOLD, limit)
  }

  /** A client that was answered has been sent, or is still to be sent, exactly what it is owed. */
  predicate Sound(limit: nat, owed: seq<byte>, c: Client) {
    c.live ==>
      && Bounded(limit, c)
      && if c.ready then c.sent + Unsent(c) == owed else c.pending == [] && c.sent == []
  }

  lemma CompactedFacts(limit: nat, c: Client)
    requires Bounded(limit, c)
    ensures var d := Compacted(c);
            && Unsent(d) == Unsent(c) && d.offset <= |d.pending|
            && d.offset < Max(COMPACT_THRESHOLD, limit) && d.sent == c.sent && d.live == c.live && d.ready == c.ready
  {
  }

  /** Queueing appends to what is unsent and keeps the bounds; it refuses exactly when the limit would be passed. */
  lemma QueueFacts(limit: nat, c: Client, bytes: seq<byte>)
    requires Bounded(limit, c)
    ensures Queue(limit, c, bytes).Some? <==> |Unsent(c)| + |bytes| <= limit
    ensures Queue(limit, c, bytes).Some? ==>
              var d := Queue(limit, c, bytes).value;
              && Bounded(limit, d) && Unsent(d) == Unsent(c) + bytes
              && d.sent == c.sent && d.live == c.live && d.ready == c.ready
  {
    CompactedFacts(limit, c);
    hide Compacted;
    var d := Compacted(c);
    assert (d.pending + bytes)[d.offset..] == d.pending[d.offset..] + bytes;
  }

  lemma SendFacts(limit: nat, c: Client, send: SendResult)
    requires Bounded(limit, c)
    ensures var d := SendSome(c, send);
            && Bounded(limit, d) && d.sent + Unsent(d) == c.sent + Unsent(c) && d.ready == c.ready
            && (c.pending == [] ==> d.pending == [] && d.sent == c.sent)
  {
    var d := SendSome(c, send);
    if c.offset < |c.pending| && send.Took? && send.count > 0 {
      var n := if send.count < |c.pending| - c.offset then send.count else |c.pending| - c.offset;
      var taken, rest := c.pending[c.offset..c.offset + n], c.pending[c.offset + n..];
      assert c.pending[c.offset..] == taken + rest;
      Regrouped(c.sent, taken, rest);
    }
  }

  lemma Regrouped(a: seq<byte>, b: seq<byte>, c: seq<byte>)
    ensures (a + b) + c == a + (b + c) && a + [] == a
  {
  }

  lemma HandshakeSound(s: State, owed: seq<byte>, c: Client, recv: RecvResult)
    requires Sound(s.limit, owed, c) && c.live && !c.ready
    requires owed == BANNER + s.cached1005 + s.cached1006
    ensures Sound(s.limit, owed, Handshake(s, c, recv).0)
  {
    var asked := if recv.Received? then c.(request := c.request + recv.bytes) else c;
    QueueFacts(s.limit, asked, BANNER);
    var q1 := Queue(s.limit, asked, BANNER);
    if q1.Some? {
      QueueFacts(s.limit, q1.value, s.cached1005);
      var q2 := Queue(s.limit, q1.value, s.cached1005);
      if q2.Some? {
        QueueFacts(s.limit, q2.value, s.cached1006);
        ThreeParts(asked, s.cached1005, s.cached1006);
      }
    }
    hide Queue, Bounded, HasLineEnd, Asks, Unsent;
  }

  lemma ThreeParts(c: Client, a: seq<byte>, b: seq<byte>)
    requires c.pending == [] && c.sent == []
    ensures c.sent + (((Unsent(c) + BANNER) + a) + b) == BANNER + a + b
  {
  }

  /** One client in one poll: a poll that answers it owes it the banner and the caches of that moment. */
  lemma PollSound(s: State, owed: seq<byte>, c: Client, io: Io)
    requires Sound(s.limit, owed, c) && (!c.ready ==> owed == BANNER + s.cached1005 + s.cached1006)
    ensures Sound(s.limit, owed, PollClient(s, c, io).0)
    ensures c.ready ==> PollClient(s, c, io).0.ready
  {
    if c.live {
      if !c.ready {
        HandshakeSound(s, owed, c, io.recv);
      }
      var answered := if c.ready then c else Handshake(s, c, io.recv).0;
      hide Handshake, Bounded, Unsent, SendSome;
      if answered.live {
        SendFacts(s.limit, answered, io.send);
      }
    }
  }

  lemma OfferSound(limit: nat, owed: seq<byte>, c: Client, bytes: seq<byte>)
    requires Sound(limit, owed, c)
    ensures Sound(limit, owed + bytes, Offer(limit, c, bytes)) && Offer(limit, c, bytes).ready == c.ready
  {
    if c.live && c.ready {
      QueueFacts(limit, c, bytes);
      assert c.sent + (Unsent(c) + bytes) == (c.sent + Unsent(c)) + bytes;
      hide Queue, Bounded, Unsent;
    }
    if Queue(limit, c, bytes).Some? {
      hide Bounded, Unsent;
    }
  }

  /** After a poll's loop, client `i` is what its own turn made of it. */
  lemma {:induction false} PollFirstEach(s: State, io: seq<Io>, n: nat, i: nat)
    requires i < n <= |s.clients|
    ensures PollFirst(s, io, n).clients[i] == PollClient(PollFirst(s, io, i), s.clients[i], IoFor(io, i)).0
  {
    hide PollClient;
    if i + 1 < n {
      PollFirstEach(s, io, n - 1, i);
    } else {
      PollFirstRest(s, io, i, i);
    }
  }

  lemma {:induction false} PollFirstRest(s: State, io: seq<Io>, n: nat, i: nat)
    requires n <= i < |s.clients|
    ensures PollFirst(s, io, n).clients[i] == s.clients[i]
  {
    hide PollClient;
    if n > 0 {
      PollFirstRest(s, io, n - 1, i);
    }
  }

  lemma {:induction false} PollFirstKeeps(s: State, io: seq<Io>, n: nat)
    requires n <= |s.clients|
    ensures var t := PollFirst(s, io, n);
            && t.limit == s.limit && t.cached1005 == s.cached1005 && t.cached1006 == s.cached1006
            && t.source == s.source && t.running == s.running && t.previous == s.previous
  {
    hide PollClient;
    if n > 0 {
      PollFirstKeeps(s, io, n - 1);
    }
  }

  /** Where a client that is kept stood before the closed ones left. */
  lemma {:induction false} LiveOrigin(clients: seq<Client>, tags: seq<Tag>, i: nat) returns (q: nat)
    requires |clients| == |tags| && i < |LiveOnly(clients)|
    ensures q < |clients| && LiveOnly(clients)[i] == clients[q] && TagsOfLive(clients, tags)[i] == tags[q]
  {
    var n := |clients| - 1;
    if i < |LiveOnly(clients[..n])| {
      q := LiveOrigin(clients[..n], tags[..n], i);
    } else {
      q := n;
    }
  }

  // ----- What one event does to one client ---------------------------------------------------

  /** What an event publishes, if it does. */
  function PublishedBy(s: State, event: Event): seq<byte> {
    if event.Publish? && Publishable(s, event.frame) then event.frame.rawBytes else []
  }

  lemma PublishedStep(events: seq<Event>, last: Event, j: nat)
    requires j <= |events|
    ensures PublishedSince(events + [last], j) == PublishedSince(events, j) + PublishedBy(Run(events), last)
  {
    var all := events + [last];
    hide Run, Publishable;
    assert all[..|all| - 1] == events && all[|all| - 1] == last;
  }

  lemma StreamParts(events: seq<Event>, j: nat)
    requires j <= |events|
    ensures Stream(events, j)
         == BANNER + Run(events[..j]).cached1005 + Run(events[..j]).cached1006 + PublishedSince(events, j)
  {
    hide Run, PublishedSince;
  }

  /** One more event makes every stream longer by what it publishes. */
  lemma StreamStep(events: seq<Event>, last: Event, j: nat)
    requires j <= |events|
    ensures Stream(events + [last], j) == Stream(events, j) + PublishedBy(Run(events), last)
  {
    hide *;
    var all := events + [last];
    PublishedStep(events, last, j);
    StreamParts(all, j);
    StreamParts(events, j);
    assert all[..j] == events[..j];
    var head := BANNER + Run(events[..j]).cached1005 + Run(events[..j]).cached1006;
    var more := PublishedBy(Run(events), last);
    assert head + (PublishedSince(events, j) + more) == head + PublishedSince(events, j) + more;
  }

  /** The stream of a client that a poll answers starts with the caches of that moment. */
  lemma StreamStarts(events: seq<Event>, last: Event)
    requires last.Poll?
    ensures Stream(events + [last], |events|) == BANNER + Run(events).cached1005 + Run(events).cached1006
  {
    StreamStep(events, last, |events|);
    StreamParts(events, |events|);
    assert events[..|events|] == events && PublishedSince(events, |events|) == [];
    hide Run;
    var head := BANNER + Run(events).cached1005 + Run(events).cached1006;
    assert head + [] == head;
  }

  /** What holds of a client and its tag after a run. */
  predicate Told(events: seq<Event>, limit: nat, c: Client, t: Tag) {
    && (c.ready <==> t.answered.Some?)
    && (t.answered.Some? ==> t.answered.value < |events| && events[t.answered.value].Poll?)
    && Sound(limit, if t.answered.Some? then Stream(events, t.answered.value) else [], c)
  }

  lemma UnansweredIsSound(limit: nat, a: seq<byte>, b: seq<byte>, c: Client)
    requires Sound(limit, a, c) && !c.ready
    ensures Sound(limit, b, c)
  {
    hide Bounded;
  }

  /** A client that an event leaves alone. */
  lemma LeftAlone(events: seq<Event>, last: Event, limit: nat, c: Client, t: Tag)
    requires Told(events, limit, c, t) && PublishedBy(Run(events), last) == []
    ensures Told(events + [last], limit, c, t)
  {
    hide Sound, Stream, Run;
    if t.answered.Some? {
      StreamStep(events, last, t.answered.value);
      assert Stream(events, t.answered.value) + [] == Stream(events, t.answered.value);
    }
  }

  /** A client that is offered a published frame. */
  lemma Offered(events: seq<Event>, last: Event, limit: nat, c: Client, t: Tag)
    requires Told(events, limit, c, t) && last.Publish? && Publishable(Run(events), last.frame)
    ensures Told(events + [last], limit, Offer(limit, c, last.frame.rawBytes), t)
  {
    hide Sound, Stream, Run, Offer, Publishable;
    var owed := if t.answered.Some? then Stream(events, t.answered.value) else [];
    OfferSound(limit, owed, c, last.frame.rawBytes);
    if t.answered.Some? {
      StreamStep(events, last, t.answered.value);
    } else {
      UnansweredIsSound(limit, owed + last.frame.rawBytes, [], Offer(limit, c, last.frame.rawBytes));
    }
  }

  /** A client that a poll looks at, in a state whose limit and caches are those after the run. */
  lemma LookedAt(events: seq<Event>, last: Event, s: State, c: Client, t: Tag, io: Io)
    requires Told(events, s.limit, c, t) && last.Poll?
    requires s.cached1005 == Run(events).cached1005 && s.cached1006 == Run(events).cached1006
    ensures var d := PollClient(s, c, io).0;
            Told(events + [last], s.limit, d, if d.ready && !c.ready then t.(answered := Some(|events|)) else t)
  {
    hide Sound, Stream, Run, PollClient;
    StreamStarts(events, last);
    if t.answered.Some? {
      StreamStep(events, last, t.answered.value);
      assert Stream(events, t.answered.value) + [] == Stream(events, t.answered.value);
      PollSound(s, Stream(events, t.answered.value), c, io);
    } else {
      var owed := BANNER + s.cached1005 + s.cached1006;
      UnansweredIsSound(s.limit, [], owed, c);
      PollSound(s, owed, c, io);
      if !PollClient(s, c, io).0.ready {
        UnansweredIsSound(s.limit, owed, [], PollClient(s, c, io).0);
      }
    }
  }

  lemma NewIsTold(events: seq<Event>, limit: nat, serial: nat)
    ensures Told(events, limit, NEW_CLIENT, Tag(serial, None))
  {
  }

  ghost predicate AllTold(events: seq<Event>, limit: nat, clients: seq<Client>, tags: seq<Tag>) {
    |clients| == |tags| && forall i :: 0 <= i < |clients| ==> Told(events, limit, clients[i], tags[i])
  }

  lemma GrownIsTold(events: seq<Event>, s: State, tags: seq<Tag>, next: nat, accepts: nat)
    requires AllTold(events, s.limit, s.clients, tags)
    ensures AllTold(events, s.limit, Grown(s, accepts).clients, tags + NewTags(next, accepts))
  {
    hide Told;
    var clients, all := Grown(s, accepts).clients, tags + NewTags(next, accepts);
    forall i | 0 <= i < |clients| ensures Told(events, s.limit, clients[i], all[i]) {
      if i < |tags| {
        assert clients[i] == s.clients[i] && all[i] == tags[i];
      } else {
        assert clients[i] == NEW_CLIENT && all[i] == Tag(next + (i - |tags|), None);
        NewIsTold(events, s.limit, next + (i - |tags|));
      }
    }
  }

  lemma PolledIsTold(events: seq<Event>, last: Event, s: State, tags: seq<Tag>)
    requires last.Poll? && AllTold(events, s.limit, s.clients, tags)
    requires s.cached1005 == Run(events).cached1005 && s.cached1006 == Run(events).cached1006
    ensures var polled := PollFirst(s, last.io, |s.clients|).clients;
            AllTold(events + [last], s.limit, polled, Retagged(s.clients, polled, tags, |events|))
  {
    hide Told, PollFirst, PollClient, Run;
    var polled := PollFirst(s, last.io, |s.clients|).clients;
    forall i | 0 <= i < |polled|
      ensures Told(events + [last], s.limit, polled[i], Retagged(s.clients, polled, tags, |events|)[i]) {
      PollFirstEach(s, last.io, |s.clients|, i);
      PollFirstKeeps(s, last.io, i);
      LookedAt(events, last, PollFirst(s, last.io, i), s.clients[i], tags[i], IoFor(last.io, i));
    }
  }

  lemma LiveAreTold(events: seq<Event>, limit: nat, clients: seq<Client>, tags: seq<Tag>)
    requires AllTold(events, limit, clients, tags)
    ensures AllTold(events, limit, LiveOnly(clients), TagsOfLive(clients, tags))
  {
    hide Told, LiveOnly, TagsOfLive;
    forall i | 0 <= i < |LiveOnly(clients)|
      ensures Told(events, limit, LiveOnly(clients)[i], TagsOfLive(clients, tags)[i]) {
      var q := LiveOrigin(clients, tags, i);
    }
  }

  lemma PollStepIsTold(events: seq<Event>, last: Event, s: State, tags: seq<Tag>, next: nat)
    requires last.Poll? && s == Run(events) && s.running
    requires |tags| == |s.clients| && AllTold(events, s.limit, s.clients, tags)
    ensures var t := Step(s, last);
            AllTold(events + [last], t.limit, t.clients, TagsAfter(s, tags, next, last, |events|))
  {
    hide AllTold, Run, PollFirst, LiveOnly, TagsOfLive, Retagged, NewTags;
    var grown := Grown(s, last.accepts);
    GrownIsTold(events, s, tags, next, last.accepts);
    PollFirstKeeps(grown, last.io, |grown.clients|);
    GrownTagCount(s, tags, next, last.accepts);
    PolledIsTold(events, last, grown, tags + NewTags(next, last.accepts));
    var polled := PollFirst(grown, last.io, |grown.clients|).clients;
    LiveAreTold(events + [last], s.limit, polled,
                Retagged(grown.clients, polled, tags + NewTags(next, last.accepts), |events|));
  }

  lemma GrownTagCount(s: State, tags: seq<Tag>, next: nat, accepts: nat)
    requires |tags| == |s.clients|
    ensures |tags + NewTags(next, accepts)| == |Grown(s, accepts).clients|
  {
  }

  lemma StepIsTold(events: seq<Event>, last: Event, s: State, tags: seq<Tag>, next: nat)
    requires s == Run(events) && AllTold(events, s.limit, s.clients, tags)
    ensures var t := Step(s, last);
            AllTold(events + [last], t.limit, t.clients, TagsAfter(s, tags, next, last, |events|))
  {
    if last.Poll? && s.running {
      PollStepIsTold(events, last, s, tags, next);
    } else {
      OtherStep(s, tags, next, last, |events|);
      var t := Step(s, last);
      var offered := last.Publish? && Publishable(s, last.frame);
      hide Run, Told, Offer, Publishable, Step, TagsAfter, PublishedBy;
      forall i | 0 <= i < |t.clients| ensures Told(events + [last], t.limit, t.clients[i], tags[i]) {
        assert Told(events, s.limit, s.clients[i], tags[i]);
        if offered {
          Offered(events, last, s.limit, s.clients[i], tags[i]);
        } else {
          LeftAlone(events, last, s.limit, s.clients[i], tags[i]);
        }
      }
    }
  }

  /** What an event that is no poll does to the clients that stay. */
  lemma OtherStep(s: State, tags: seq<Tag>, next: nat, last: Event, now: nat)
    requires |tags| == |s.clients| && !(last.Poll? && s.running)
    ensures var t := Step(s, last);
            var offered := last.Publish? && Publishable(s, last.frame);
            && (t.clients != [] ==>
                  t.limit == s.limit && |t.clients| == |s.clients| && TagsAfter(s, tags, next, last, now) == tags)
            && (!offered ==> PublishedBy(s, last) == [])
            && |t.clients| <= |s.clients|
            && forall i :: 0 <= i < |t.clients| ==>
                 t.clients[i] == if offered then Offer(s.limit, s.clients[i], last.frame.rawBytes) else s.clients[i]
  {
    hide Offer, Queue, PollFirst;
  }

  lemma {:induction false} RunIsTold(events: seq<Event>)
    ensures AllTold(events, Run(events).limit, Run(events).clients, Tags(events))
  {
    if events != [] {
      var n := |events| - 1;
      RunIsTold(events[..n]);
      hide AllTold, Step, TagsAfter;
      StepIsTold(events[..n], events[n], Run(events[..n]), Tags(events[..n]), Connections(events[..n]));
      assert events[..n] + [events[n]] == events;
    }
  }

  /**
   In every run, for each live client: if it was answered, the bytes its socket took and the bytes still
   buffered are together the banner, the two caches when it was answered, and every frame published
   since that very poll; if not, nothing was sent or buffered. The buffered bytes stay within the limit,
   and the storage below limit plus max(4096, limit).
   */
  lemma ClientsGetTheirStream(events: seq<Event>, i: nat)
    requires i < |Run(events).clients| && Run(events).clients[i].live
    ensures var c, limit, answered := Run(events).clients[i], Run(events).limit, Tags(events)[i].answered;
            && |Unsent(c)| <= limit && |c.pending| < limit + Max(4096, limit)
            && (c.ready <==> answered.Some?)
            && if answered == None then c.pending == [] && c.sent == []
               else && answered.value < |events| && events[answered.value].Poll?
                    && c.sent + Unsent(c) == Stream(events, answered.value)
  {
    RunIsTold(events);
    hide Run, Unsent, Stream, Tags;
    assert Told(events, Run(events).limit, Run(events).clients[i], Tags(events)[i]);
  }

  // ----- The answering poll is the one that made the client ready ------------------------------

  /** The connection with this number is there and has been answered. */
  ghost predicate ReadyIn(events: seq<Event>, serial: nat) {
    exists p :: 0 <= p < |Tags(events)| && Tags(events)[p].serial == serial && Run(events).clients[p].ready
  }

  /** The clients an event finds, those it accepts included, and their tags. */
  function ClientsBefore(s: State, event: Event): seq<Client> {
    if event.Poll? && s.running then Grown(s, event.accepts).clients else s.clients
  }

  function TagsBefore(s: State, tags: seq<Tag>, next: nat, event: Event): (r: seq<Tag>)
    requires |tags| == |s.clients|
    ensures |r| == |ClientsBefore(s, event)|
  {
    if event.Poll? && s.running then tags + NewTags(next, event.accepts) else tags
  }

  /** Where a client stood before the event, and what the event did to its tag. */
  lemma Came(s: State, tags: seq<Tag>, next: nat, event: Event, now: nat, i: nat) returns (q: nat)
    requires |tags| == |s.clients| && i < |Step(s, event).clients|
    ensures q < |ClientsBefore(s, event)|
    ensures var c, d := ClientsBefore(s, event)[q], Step(s, event).clients[i];
            var t := TagsBefore(s, tags, next, event)[q];
            && (c.ready ==> d.ready)
            && TagsAfter(s, tags, next, event, now)[i]
               == if d.ready && !c.ready then t.(answered := Some(now)) else t
  {
    if event.Poll? && s.running {
      var grown := Grown(s, event.accepts);
      var all := tags + NewTags(next, event.accepts);
      var polled := PollFirst(grown, event.io, |grown.clients|).clients;
      hide PollFirst, PollClient, LiveOnly, TagsOfLive;
      q := LiveOrigin(polled, Retagged(grown.clients, polled, all, now), i);
      PollFirstEach(grown, event.io, |grown.clients|, q);
      PollKeepsReady(PollFirst(grown, event.io, q), grown.clients[q], IoFor(event.io, q));
    } else {
      hide Queue;
      q := i;
    }
  }

  lemma PollKeepsReady(s: State, c: Client, io: Io)
    ensures c.ready ==> PollClient(s, c, io).0.ready
  {
  }

  predicate Ascending(tags: seq<Tag>, next: nat) {
    && (forall i, j :: 0 <= i < j < |tags| ==> tags[i].serial < tags[j].serial)
    && (forall i :: 0 <= i < |tags| ==> tags[i].serial < next)
  }

  lemma {:induction false} LiveAscend(clients: seq<Client>, tags: seq<Tag>, next: nat)
    requires |clients| == |tags| && Ascending(tags, next)
    ensures Ascending(TagsOfLive(clients, tags), next)
  {
    if clients != [] {
      var n := |clients| - 1;
      assert Ascending(tags[..n], tags[n].serial);
      LiveAscend(clients[..n], tags[..n], tags[n].serial);
    }
  }

  lemma StepAscends(s: State, tags: seq<Tag>, next: nat, event: Event, now: nat)
    requires |tags| == |s.clients| && Ascending(tags, next)
    ensures Ascending(TagsAfter(s, tags, next, event, now),
                      next + if event.Poll? && s.running then event.accepts else 0)
  {
    if event.Poll? && s.running {
      var grown := Grown(s, event.accepts);
      var polled := PollFirst(grown, event.io, |grown.clients|).clients;
      var all := Retagged(grown.clients, polled, tags + NewTags(next, event.accepts), now);
      hide PollFirst, LiveOnly, TagsOfLive;
      LiveAscend(polled, all, next + event.accepts);
    }
  }

  /** Connections keep the order in which they were accepted, and no two have the same number. */
  lemma {:induction false} SerialsAscend(events: seq<Event>)
    ensures Ascending(Tags(events), Connections(events))
  {
    if events != [] {
      var n := |events| - 1;
      SerialsAscend(events[..n]);
      hide TagsAfter, Step, Ascending;
      StepAscends(Run(events[..n]), Tags(events[..n]), Connections(events[..n]), events[n], n);
    } else {
      assert Tags(events) == [];
    }
  }

  /** A client that became ready just now was not ready before, under its number. */
  lemma NotReadyBefore(events: seq<Event>, event: Event, q: nat)
    requires var s := Run(events);
             && q < |ClientsBefore(s, event)| && !ClientsBefore(s, event)[q].ready
    ensures !ReadyIn(events, TagsBefore(Run(events), Tags(events), Connections(events), event)[q].serial)
  {
    SerialsAscend(events);
    hide Run, Tags, Connections;
  }

  lemma RunStep(events: seq<Event>)
    requires events != []
    ensures var n := |events| - 1;
            && Run(events) == Step(Run(events[..n]), events[n])
            && Tags(events) == TagsAfter(Run(events[..n]), Tags(events[..n]), Connections(events[..n]), events[n], n)
  {
    hide Step, TagsAfter;
  }

  lemma FoundReady(events: seq<Event>, p: nat)
    requires p < |Run(events).clients| && Run(events).clients[p].ready
    ensures ReadyIn(events, Tags(events)[p].serial)
  {
    hide Run, Tags;
  }

  /**
   The event that a client's tag names is exactly the one before which its connection had not been
   answered, and after which it always has.
   */
  lemma {:induction false} AnsweredInThatPoll(events: seq<Event>, i: nat)
    requires i < |Run(events).clients| && Run(events).clients[i].ready
    ensures Tags(events)[i].answered.Some?
    ensures var serial, j := Tags(events)[i].serial, Tags(events)[i].answered.value;
            && j < |events| && !ReadyIn(events[..j], serial)
            && forall k :: j < k <= |events| ==> ReadyIn(events[..k], serial)
    decreases |events|
  {
    hide *;
    ReadyAfterSomething(events);
    var n := |events| - 1;
    var front := events[..n];
    RunStep(events);
    var q := Came(Run(front), Tags(front), Connections(front), events[n], n, i);
    FoundReady(events, i);
    assert events[..|events|] == events;
    if ClientsBefore(Run(front), events[n])[q].ready {
      ReadyWasThere(Run(front), Tags(front), Connections(front), events[n], q);
      AnsweredInThatPoll(front, q);
      var j := Tags(front)[q].answered.value;
      assert front[..j] == events[..j];
      forall k | j < k <= |events| ensures ReadyIn(events[..k], Tags(events)[i].serial) {
        if k <= n {
          assert front[..k] == events[..k];
        }
      }
    } else {
      NotReadyBefore(front, events[n], q);
    }
  }

  lemma ReadyAfterSomething(events: seq<Event>)
    ensures events == [] ==> Run(events).clients == []
  {
  }

  /** New connections are not ready, so a ready client was in the list already. */
  lemma ReadyWasThere(s: State, tags: seq<Tag>, next: nat, event: Event, q: nat)
    requires |tags| == |s.clients| && q < |ClientsBefore(s, event)| && ClientsBefore(s, event)[q].ready
    ensures q < |s.clients| && ClientsBefore(s, event)[q] == s.clients[q]
    ensures TagsBefore(s, tags, next, event)[q] == tags[q]
  {
  }

  // ----- Caches ----------------------------------------------------------------------------

  /** Event number `j` published these bytes as this message type, under the source that is still active. */
  ghost predicate CachedBy(events: seq<Event>, j: nat, messageType: nat, bytes: seq<byte>) {
    && j < |events| && events[j].Publish?
    && events[j].frame.messageType == messageType && events[j].frame.rawBytes == bytes
    && Publishable(Run(events[..j]), events[j].frame)
    && forall k :: j <= k <= |events| ==> Run(events[..k]).source == Run(events).source
  }

  ghost predicate CacheSound(events: seq<Event>, messageType: nat, bytes: seq<byte>) {
    bytes != [] ==> Run(events).source.Some? && exists j :: CachedBy(events, j, messageType, bytes)
  }

  lemma CachedStays(events: seq<Event>, last: Event, j: nat, messageType: nat, bytes: seq<byte>)
    requires CachedBy(events, j, messageType, bytes) && Run(events + [last]).source == Run(events).source
    ensures CachedBy(events + [last], j, messageType, bytes)
  {
    var all := events + [last];
    hide Run, Publishable;
    assert all[..j] == events[..j] && all[j] == events[j] && all[..|all|] == all;
    forall k | j <= k <= |all| ensures Run(all[..k]).source == Run(all).source {
      if k <= |events| {
        assert all[..k] == events[..k];
      }
    }
  }

  lemma CachedNow(events: seq<Event>, last: Event)
    requires last.Publish? && Publishable(Run(events), last.frame)
    requires Run(events + [last]).source == Run(events).source
    ensures CachedBy(events + [last], |events|, last.frame.messageType, last.frame.rawBytes)
  {
    var all := events + [last];
    hide Run, Publishable;
    assert all[..|events|] == events && all[|events|] == last && all[..|all|] == all;
  }

  lemma PollKeepsSource(s: State, accepts: nat, io: seq<Io>)
    ensures var t := Polled(s, accepts, io);
            t.source == s.source && t.cached1005 == s.cached1005 && t.cached1006 == s.cached1006
  {
    if s.running {
      var grown := s.(clients := Accepting(s.clients, accepts));
      PollFirstKeeps(grown, io, |grown.clients|);
      hide PollFirst, Accepting, LiveOnly;
    }
  }

  /** Each step leaves the caches and the source alone, clears the caches, or caches what it published. */
  lemma StepCaches(s: State, event: Event)
    ensures var t := Step(s, event);
            || (t.cached1005 == [] && t.cached1006 == [])
            || (t.source == s.source
                && (t.cached1005 == s.cached1005
                    || (event.Publish? && Publishable(s, event.frame) && event.frame.messageType == 1005
                        && t.cached1005 == event.frame.rawBytes))
                && (t.cached1006 == s.cached1006
                    || (event.Publish? && Publishable(s, event.frame) && event.frame.messageType == 1006
                        && t.cached1006 == event.frame.rawBytes)))
  {
    if event.Poll? {
      PollKeepsSource(s, event.accepts, event.io);
    }
    hide Polled, OfferAll, Refused;
  }

  lemma CacheStep(events: seq<Event>, last: Event, messageType: nat, before: seq<byte>, after: seq<byte>)
    requires CacheSound(events, messageType, before)
    requires || after == []
             || (Run(events + [last]).source == Run(events).source
                 && (after == before
                     || (last.Publish? && Publishable(Run(events), last.frame)
                         && last.frame.messageType == messageType && after == last.frame.rawBytes)))
    ensures CacheSound(events + [last], messageType, after)
  {
    hide Run, CachedBy;
    if after != [] {
      if after == before {
        var j :| CachedBy(events, j, messageType, before);
        CachedStays(events, last, j, messageType, before);
      } else {
        CachedNow(events, last);
      }
    }
  }

  /** In every run, a cache holds nothing, or a frame published under the source that is active now. */
  lemma {:induction false} CachesAreOfTheCurrentSource(events: seq<Event>)
    ensures CacheSound(events, 1005, Run(events).cached1005) && CacheSound(events, 1006, Run(events).cached1006)
  {
    if events != [] {
      var front, last := events[..|events| - 1], events[|events| - 1];
      CachesAreOfTheCurrentSource(front);
      StepCaches(Run(front), last);
      assert front + [last] == events;
      var s, t := Run(front), Run(events);
      assert t == Step(s, last);
      hide Run, Step, CacheSound, Publishable;
      CacheStep(front, last, 1005, s.cached1005, t.cached1005);
      CacheStep(front, last, 1006, s.cached1006, t.cached1006);
    }
  }
}
