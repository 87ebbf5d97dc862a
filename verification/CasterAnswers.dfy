/**
 What the caster answers to a request, byte by byte: which requests are accepted, refused or waited for,
 what an accepted client is sent first, and how a mountpoint is spelled.
 */
module CasterAnswers {
  import opened Bits
  import Framing
  import opened RtcmCaster

  /** `ICY 200 OK`, carriage return and line feed, twice. */
  function Greeting(): (g: seq<byte>)
    ensures |g| == 14
  {
    [0x49, 0x43, 0x59, 0x20, 0x32, 0x30, 0x30, 0x20, 0x4F, 0x4B] + [0x0D, 0x0A] + [0x0D, 0x0A]
  }

  /** A carriage return directly followed by a line feed. */
  ghost predicate HasCrLf(request: seq<byte>) {
    exists before: seq<byte>, after: seq<byte> :: before + [0x0D, 0x0A] + after == request
  }

  /** `GET /`, the mountpoint and a space, at the very start. */
  predicate AsksFor(request: seq<byte>, mountpoint: seq<byte>) {
    var n := |mountpoint|;
    && |request| >= n + 6 && request[..5] == [0x47, 0x45, 0x54, 0x20, 0x2F]
    && request[5..5 + n] == mountpoint && request[5 + n] == 0x20
  }

  lemma LineEndIsCrLf(request: seq<byte>)
    ensures HasLineEnd(request) <==> HasCrLf(request)
  {
    if HasLineEnd(request) {
      var i :| 0 <= i < |request| - 1 && request[i] == 0x0D && request[i + 1] == 0x0A;
      assert request[..i] + [0x0D, 0x0A] + request[i + 2..] == request;
    }
    if HasCrLf(request) {
      var before: seq<byte>, after: seq<byte> :| before + [0x0D, 0x0A] + after == request;
      assert request[|before|] == 0x0D && request[|before| + 1] == 0x0A;
    }
  }

  lemma AsksIsAsksFor(request: seq<byte>, mountpoint: seq<byte>)
    ensures Asks(request, mountpoint) <==> AsksFor(request, mountpoint)
  {
    var n, e := |mountpoint|, Expected(mountpoint);
    assert |e| == n + 6 && e[..5] == [0x47, 0x45, 0x54, 0x20, 0x2F] && e[5..5 + n] == mountpoint && e[5 + n] == 0x20;
    if Asks(request, mountpoint) {
      assert request[..n + 6] == e;
      assert request[..5] == request[..n + 6][..5] && request[5..5 + n] == request[..n + 6][5..5 + n];
    }
    if AsksFor(request, mountpoint) {
      var head := request[..n + 6];
      assert head == request[..5] + request[5..5 + n] + [request[5 + n]];
      assert e == [0x47, 0x45, 0x54, 0x20, 0x2F] + mountpoint + [0x20];
    }
  }

  /** Three pieces queued for a client that has nothing buffered. */
  lemma QueueFromEmpty(limit: nat, c: Client, a: seq<byte>, b: seq<byte>, d: seq<byte>)
    requires c.pending == [] && c.offset == 0
    ensures QueueAll(limit, c, a, b, d)
         == if |a| + |b| + |d| > limit then None else Some(c.(pending := a + b + d))
  {
    hide QueueAll, Queue;
    QueueSteps(limit, c, a, b, d);
    QueueOne(limit, c, a);
    QueueOne(limit, c.(pending := a), b);
    QueueOne(limit, c.(pending := a + b), d);
    assert [] + a == a;
  }

  lemma QueueSteps(limit: nat, c: Client, a: seq<byte>, b: seq<byte>, d: seq<byte>)
    ensures QueueAll(limit, c, a, b, d)
         == match Queue(limit, c, a)
            case None => None
            case Some(c1) => match Queue(limit, c1, b) case None => None case Some(c2) => Queue(limit, c2, d)
  {
    hide Queue;
  }

  lemma QueueOne(limit: nat, c: Client, bytes: seq<byte>)
    requires c.offset == 0
    ensures Queue(limit, c, bytes)
         == if |c.pending| + |bytes| > limit then None else Some(c.(pending := c.pending + bytes))
  {
    if c.pending == [] {
      assert c.(pending := [], offset := 0) == c;
    }
  }

  /**
   The answer to a client that has sent `request` in all: dropped past 2048 bytes, waited for without a
   line end, rejected if it does not ask for the mountpoint, dropped as slow if its buffer cannot hold the
   greeting and both caches, and otherwise accepted with exactly those as the first bytes for it.
   */
  lemma AnswerToRequest(s: State, c: Client, bytes: seq<byte>)
    requires c.live && !c.ready && c.pending == [] && c.offset == 0
    ensures var request := c.request + bytes;
            var first := Greeting() + s.cached1005 + s.cached1006;
            var (answered, metrics) := PollClient(s, c, Io(Received(bytes), TryAgain));
            if |request| > 2048 then !answered.live && metrics == s.metrics
            else if !HasCrLf(request) then answered == c.(request := request) && metrics == s.metrics
            else if !AsksFor(request, s.mountpoint) then
              !answered.live && metrics == s.metrics.(rejected := s.metrics.rejected + 1)
            else if |first| > s.limit then !answered.live && metrics == s.metrics.(slow := s.metrics.slow + 1)
            else
              && answered == c.(request := request, ready := true, pending := first)
              && metrics == s.metrics.(accepted := s.metrics.accepted + 1)
  {
    var request := c.request + bytes;
    LineEndIsCrLf(request);
    AsksIsAsksFor(request, s.mountpoint);
    QueueFromEmpty(s.limit, c.(request := request), BANNER, s.cached1005, s.cached1006);
    assert BANNER == Greeting();
    hide HasLineEnd, HasCrLf, Asks, AsksFor, QueueAll, BANNER, Greeting;
  }

  // ----- The mountpoint ----------------------------------------------------------------------

  lemma {:induction false} SlashesInFront(m: seq<byte>) returns (k: nat)
    ensures k <= |m| && StripSlashes(m) == m[k..]
    ensures (forall i :: 0 <= i < k ==> m[i] == 0x2F) && (k < |m| ==> m[k] != 0x2F)
  {
    if m != [] && m[0] == SLASH {
      k := SlashesInFront(m[1..]);
      assert m[1..][k..] == m[k + 1..];
      k := k + 1;
    } else {
      k := 0;
    }
  }

  /** Starting succeeds with a mountpoint that is more than slashes, 15 bytes of buffer and a listener. */
  lemma StartsIff(s: State, requested: seq<byte>, limit: nat, listening: bool)
    ensures var t := Started(s, requested, limit, listening);
            && (t.running <==> (exists i :: 0 <= i < |requested| && requested[i] != 0x2F) && limit >= 15 && listening)
            && (t.running ==> t.limit == limit && t.mountpoint != [] && t.mountpoint[0] != 0x2F
                              && |t.mountpoint| <= |requested| && t.mountpoint == requested[|requested| - |t.mountpoint|..]
                              && forall i :: 0 <= i < |requested| - |t.mountpoint| ==> requested[i] == 0x2F)
            && t.clients == [] && t.source == None && t.cached1005 == t.cached1006 == []
  {
    var k := SlashesInFront(requested);
    hide StripSlashes;
    if k < |requested| {
      assert requested[k] != 0x2F && requested[k..][0] == requested[k];
    }
  }

  // ----- Served frames -----------------------------------------------------------------------

  /** How many frames a run published. */
  function PublishedCount(events: seq<Event>): nat {
    if events == [] then 0
    else
      var before, last := events[..|events| - 1], events[|events| - 1];
      PublishedCount(before)
      + (if last.Publish? && Run(before).source.Some? && last.frame.status == Framing.Valid && last.frame.rawBytes != [] then 1
         else 0)
  }

  lemma {:induction false} ServedKept(s: State, io: seq<Io>, n: nat)
    requires n <= |s.clients|
    ensures PollFirst(s, io, n).metrics.served == s.metrics.served
  {
    if n > 0 {
      ServedKept(s, io, n - 1);
      OneServedKept(PollFirst(s, io, n - 1), PollFirst(s, io, n - 1).clients[n - 1], IoFor(io, n - 1));
      hide PollClient;
    }
  }

  lemma OneServedKept(s: State, c: Client, io: Io)
    ensures PollClient(s, c, io).1.served == s.metrics.served
  {
    hide QueueAll, HasLineEnd, Asks, SendSome;
  }

  /** The counter of served frames counts exactly the valid frames published while a source was active. */
  lemma {:induction false} ServedFrames(events: seq<Event>)
    ensures Run(events).metrics.served == PublishedCount(events)
  {
    if events != [] {
      var before, last := events[..|events| - 1], events[|events| - 1];
      ServedFrames(before);
      hide PollFirst, Queue, LiveOnly, StripSlashes, Refused;
      var s := Run(before);
      if last.Poll? && s.running {
        ServedKept(Grown(s, last.accepts), last.io, |Grown(s, last.accepts).clients|);
      }
    }
  }
}
