/**
 Which reply completes which command, when a command times out, and what the counters add up to, over
 whole runs of the transaction engine. A command's address is read off its bytes, not off the engine.
 */
module CommandReplies {
  import opened Bits
  import opened ReceiverCommand
  import opened TransactionEngine
  import opened CommandRuns
  import Ubx = UbxFramer

  /** The command is one UBX frame of this class and id, with any two bytes for a checksum. */
  ghost predicate Addresses(c: Command, id: MessageIdentity) {
    exists body: seq<byte>, a: byte, b: byte :: IsFrame(c, id, body, a, b)
  }

  predicate IsFrame(c: Command, id: MessageIdentity, body: seq<byte>, a: byte, b: byte) {
    && |body| < 0x1_0000
    && c.payload == Binary([0xB5, 0x62, id.classId, id.messageId, |body| % 256, |body| / 256] + body + [a, b])
  }

  lemma IdentityIsAddress(c: Command, id: MessageIdentity)
    ensures TryGetUbxCommandMessageIdentity(c) == Some(id) <==> Addresses(c, id)
  {
    if TryGetUbxCommandMessageIdentity(c) == Some(id) {
      var bytes := c.payload.bytes;
      var n := |bytes|;
      var body := bytes[6..n - 2];
      assert |body| == bytes[4] + 0x100 * bytes[5] as nat;
      assert bytes == [0xB5, 0x62, id.classId, id.messageId, |body| % 256, |body| / 256] + body + [bytes[n - 2], bytes[n - 1]];
      assert IsFrame(c, id, body, bytes[n - 2], bytes[n - 1]);
    }
    if Addresses(c, id) {
      var body: seq<byte>, a: byte, b: byte :| IsFrame(c, id, body, a, b);
      assert |body| == |body| % 256 + 0x100 * (|body| / 256);
    }
  }

  lemma OneAddress(c: Command, id: MessageIdentity, other: MessageIdentity)
    requires Addresses(c, id)
    ensures Addresses(c, other) <==> other == id
  {
    hide Addresses;
    IdentityIsAddress(c, id);
    IdentityIsAddress(c, other);
  }

  /** Replies that can complete a command at all. */
  predicate IsAnswer(kind: ResponseKind) {
    kind in [Ack, Nak, TextOk, TextError]
  }

  /**
   A reply completes the command in flight if and only if it is an answer and, where targets are
   verified and the reply names one, the command addresses that target or addresses nothing.
   */
  lemma ReplyCompletesIff(config: Config, e: Engine, kind: ResponseKind, target: Option<MessageIdentity>)
    requires !e.indeterminate && e.current.Some? && e.current.value.state == InFlight
    ensures var c := e.current.value.command;
            Respond(config, e, kind, target).1.matched <==>
              IsAnswer(kind) && (config.verifyMetadata && target.Some? ==>
                                   Addresses(c, target.value) || forall id :: !Addresses(c, id))
  {
    var c := e.current.value.command;
    hide Addresses, TryGetUbxCommandMessageIdentity;
    forall id ensures TryGetUbxCommandMessageIdentity(c) == Some(id) <==> Addresses(c, id) {
      IdentityIsAddress(c, id);
    }
  }

  lemma BuiltAddresses(c: Command, m: Ubx.Message)
    requires c.payload == Binary(Ubx.BuildUbxFrame(m)) && |m.payload| < 0x1_0000
    ensures Addresses(c, MessageIdentity(m.classId, m.messageId))
  {
    BuiltCommandIdentity(c, m);
    hide TryGetUbxCommandMessageIdentity, Ubx.BuildUbxFrame;
    IdentityIsAddress(c, MessageIdentity(m.classId, m.messageId));
  }

  /** With a built frame in flight the target must be exactly its class and id. */
  lemma BuiltFrameReply(config: Config, e: Engine, m: Ubx.Message, kind: ResponseKind, target: Option<MessageIdentity>)
    requires !e.indeterminate && e.current.Some? && e.current.value.state == InFlight
    requires e.current.value.command.payload == Binary(Ubx.BuildUbxFrame(m)) && |m.payload| < 0x1_0000
    ensures Respond(config, e, kind, target).1.matched <==>
              IsAnswer(kind) && (!config.verifyMetadata || target == None
                                 || target == Some(MessageIdentity(m.classId, m.messageId)))
  {
    var c, id := e.current.value.command, MessageIdentity(m.classId, m.messageId);
    BuiltAddresses(c, m);
    hide Addresses, Ubx.BuildUbxFrame, Respond;
    ReplyCompletesIff(config, e, kind, target);
    if target.Some? {
      OneAddress(c, id, target.value);
    }
  }

  /** What a reply leaves behind. */
  lemma ReplyOutcome(config: Config, e: Engine, kind: ResponseKind, target: Option<MessageIdentity>)
    requires !e.indeterminate && e.current.Some? && e.current.value.state == InFlight
    ensures var (next, result) := Respond(config, e, kind, target);
            if result.matched then
              && next.current == None && next.completed.Some? && next.completed.value.id == e.current.value.id
              && next.completed.value.command == e.current.value.command
              && next.completed.value.state == (if kind in [Ack, TextOk] then Acknowledged else Rejected)
              && next.completed.value.response == kind
              && result.status == (if kind in [Ack, TextOk] then StepAcknowledged else StepRejected)
            else
              && next == e.(metrics := e.metrics.(unmatched := e.metrics.unmatched + 1))
              && result.status == ResponseUnmatched
  {
  }

  /**
   In every run, outside quarantine: when a reply arrives, the command in flight is the last one
   dispatched, and if it carries a built frame the reply completes it exactly when it is an answer
   that names no target or, with targets verified, the frame's own class and id.
   */
  lemma RunReplyCompletesIff(config: Config, events: seq<Event>, reply: Event, m: Ubx.Message)
    requires PossibleRun(config, START, events + [reply]) && reply.ReplyEvent?
    requires !Run(config, START, events).engine.indeterminate
    requires var before := Run(config, START, events);
             before.dispatches != [] &&
             before.dispatches[|before.dispatches| - 1].command.payload == Binary(Ubx.BuildUbxFrame(m))
    requires |m.payload| < 0x1_0000
    ensures var before := Run(config, START, events);
            var (after, matched) := Next(config, before, reply);
            && (matched <==> IsAnswer(reply.kind) && (!config.verifyMetadata || reply.target == None
                                                      || reply.target == Some(MessageIdentity(m.classId, m.messageId))))
            && before.engine.current.Some?
            && after.engine.current == (if matched then None else before.engine.current)
            && (matched ==> after.engine.completed.Some? && after.engine.completed.value.command.payload
                                                            == Binary(Ubx.BuildUbxFrame(m)))
  {
    RunOneMore(config, events, reply);
    RunsAreOrderly(config, events);
    hide Run, PossibleRun, AllPossible, Respond, Ubx.BuildUbxFrame;
    var e := Run(config, START, events).engine;
    BuiltFrameReply(config, e, m, reply.kind, reply.target);
    ReplyOutcome(config, e, reply.kind, reply.target);
  }

  // ----- Approval --------------------------------------------------------------------------

  /** What a dispatch refuses: unknown or empty commands, and unconfirmed ones that outlast the session. */
  lemma RefusedIff(allowEmpty: bool, c: Command, r: DispatchResult)
    requires PossibleDispatch(allowEmpty, c, r)
    ensures var unconfirmed := c.safety in [Persistent, FactoryReset] && !c.confirmed;
            && (r.status == RejectedSafety <==> c.kind != UnknownKind && unconfirmed)
            && (r.status == RejectedInvalid <==>
                  c.kind == UnknownKind || (!unconfirmed && PayloadBytes(c) == [] && !allowEmpty))
            && (r.status in [RejectedSafety, RejectedInvalid] ==> Accepted(c, r) == [])
            && (r.status == Sent ==> Accepted(c, r) == PayloadBytes(c))
  {
  }

  /** In every run, whatever put bytes on the wire was for this session only or had been confirmed. */
  lemma OnlyApprovedReachTheWire(config: Config, events: seq<Event>, i: nat)
    requires PossibleRun(config, START, events) && i < |Run(config, START, events).dispatches|
    requires var d := Run(config, START, events).dispatches[i];
             Accepted(d.command, d.result) != []
    ensures var c := Run(config, START, events).dispatches[i].command;
            c.kind != UnknownKind && (c.safety in [Persistent, FactoryReset] ==> c.confirmed)
  {
    RunsAreOrderly(config, events);
    hide Run, PossibleRun;
    var d := Run(config, START, events).dispatches[i];
    RefusedIff(config.allowEmpty, d.command, d.result);
  }

  // ----- Deadlines -------------------------------------------------------------------------

  /** When the last command that was dispatched was dispatched. */
  function LastDispatchTime(config: Config, events: seq<Event>): Time {
    if events == [] then None
    else
      var n := |events| - 1;
      var e := events[n];
      if e.StartEvent? && WillDispatch(Run(config, START, events[..n]).engine) then e.ts
      else LastDispatchTime(config, events[..n])
  }

  lemma SentAtStep(config: Config, w: World, e: Event, ts: Time)
    requires !WillRetry(w.engine)
    requires w.engine.current.Some? ==> w.engine.current.value.sentAt == ts
    ensures var next := Next(config, w, e).0.engine;
            next.current.Some? ==>
              next.current.value.sentAt == if e.StartEvent? && WillDispatch(w.engine) then e.ts else ts
  {
  }

  lemma {:induction false} SentAtLastDispatch(config: Config, events: seq<Event>)
    requires PossibleRun(config, START, events)
    ensures var e := Run(config, START, events).engine;
            e.current.Some? ==> e.current.value.sentAt == LastDispatchTime(config, events)
  {
    if events != [] {
      var n := |events| - 1;
      SentAtLastDispatch(config, events[..n]);
      RetryNeverDispatches(config, events[..n]);
      hide Next;
      SentAtStep(config, Run(config, START, events[..n]), events[n], LastDispatchTime(config, events[..n]));
    }
  }

  /**
   In every run, a timeout check with a command in flight puts the session in quarantine exactly when
   the command was sent at a known time that lies its timeout or more, in nanoseconds, before `now`.
   */
  lemma TimesOutAtItsDeadline(config: Config, events: seq<Event>, now: int)
    requires PossibleRun(config, START, events)
    requires var e := Run(config, START, events).engine;
             !e.indeterminate && e.current.Some?
    ensures var before := Run(config, START, events).engine;
            var after := Next(config, Run(config, START, events), CheckTimeoutEvent(now)).0.engine;
            var sent := LastDispatchTime(config, events);
            && before.current.value.state == InFlight
            && (after.indeterminate <==> sent.Some? && now - sent.value >= 1_000_000 * before.current.value.command.timeoutMs)
            && (!after.indeterminate ==> after == before)
            && (after.indeterminate ==> after.current.Some? && after.current.value.state == TimedOut
                                        && after.metrics.timedOut == before.metrics.timedOut + 1)
  {
    RunsAreOrderly(config, events);
    SentAtLastDispatch(config, events);
    hide Run, PossibleRun, AllPossible, LastDispatchTime;
  }

  // ----- Counters --------------------------------------------------------------------------

  /** What the counters of an engine add up to. */
  predicate Accounted(e: Engine) {
    var m := e.metrics;
    && e.nextId == m.created + 1
    && m.created == m.dispatched + m.dispatchFailures
    && m.dispatched == m.acknowledged + m.rejected + m.timedOut
                       + (if e.current.Some? && e.current.value.state == InFlight then 1 else 0)
    && m.rejected <= m.accepted <= m.acknowledged + m.rejected
    && m.quarantined == (if e.indeterminate then 1 else 0)
    && m.timedOut == (if e.current.Some? && e.current.value.state == TimedOut then 1 else 0)
  }

  lemma AccountedStep(config: Config, w: World, e: Event)
    requires Accounted(w.engine) && !WillRetry(w.engine)
    requires w.engine.current.Some? ==> w.engine.current.value.state in [InFlight, TimedOut]
    requires w.engine.current.Some? && w.engine.current.value.state == TimedOut ==> w.engine.indeterminate
    ensures var next := Next(config, w, e).0.engine;
            && Accounted(next)
            && (next.current.Some? ==> next.current.value.state in [InFlight, TimedOut])
            && (next.current.Some? && next.current.value.state == TimedOut ==> next.indeterminate)
  {
    hide MatchesTarget;
  }

  /**
   In every run: each command created was dispatched or failed to be, each dispatched one was
   acknowledged, rejected, timed out or is still in flight, and quarantine was entered at most once.
   */
  lemma {:induction false} CountersAddUp(config: Config, events: seq<Event>)
    requires PossibleRun(config, START, events)
    ensures var e := Run(config, START, events).engine;
            && Accounted(e)
            && (e.current.Some? ==> e.current.value.state in [InFlight, TimedOut])
            && (e.current.Some? && e.current.value.state == TimedOut ==> e.indeterminate)
  {
    if events != [] {
      var n := |events| - 1;
      CountersAddUp(config, events[..n]);
      RetryNeverDispatches(config, events[..n]);
      hide Next, Accounted;
      AccountedStep(config, Run(config, START, events[..n]), events[n]);
    }
  }
}
