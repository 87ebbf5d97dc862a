/**
 Runs of the transaction engine against a sink that may accept any part of a write and a receiver
 that answers with any delay: what reaches the wire, and whose answer completes a command.
 */
module CommandRuns {
  import opened Bits
  import opened ReceiverCommand
  import opened TransactionEngine

  /**
   What can happen to an engine. A dispatch carries the dispatcher's answer; a reply names the
   dispatch that caused it.
   */
  datatype Event =
    | StartEvent(command: Command, ts: Time, answer: DispatchResult)
    | ReplyEvent(cause: nat, kind: ResponseKind, target: Option<MessageIdentity>)
    | MarkTimeoutEvent
    | CheckTimeoutEvent(now: int)
    | RetryEvent(ts: Time, answer: DispatchResult)
    | ResetEvent

  /** The engine, every dispatch so far, and the dispatches whose reply is still under way. */
  datatype World = World(engine: Engine, dispatches: seq<Dispatch>, awaited: set<nat>)

  const START := World(IDLE, [], {})

  /** The receiver answers a command at most once, and only one that arrived whole and asks for it. */
  predicate AsksForReply(d: Dispatch) {
    d.command.expected != NoResponse && d.result.bytesWritten == |PayloadBytes(d.command)|
    && (d.result.status == Sent || d.result.status == WriteError)
  }

  predicate Possible(config: Config, w: World, e: Event) {
    match e
    case StartEvent(command, _, answer) =>
      WillDispatch(w.engine) ==> PossibleDispatch(config.allowEmpty, command, answer)
    case ReplyEvent(cause, _, _) => cause in w.awaited
    case RetryEvent(_, answer) =>
      WillRetry(w.engine) ==> PossibleDispatch(config.allowEmpty, w.engine.current.value.command, answer)
    case _ => true
  }

  function Record(w: World, engine: Engine, d: Dispatch): World {
    World(engine, w.dispatches + [d], if AsksForReply(d) then w.awaited + {|w.dispatches|} else w.awaited)
  }

  /** The step an event takes; `matched` says that the engine accepted a reply. */
  function Next(config: Config, w: World, e: Event): (World, bool) {
    match e
    case StartEvent(command, ts, answer) =>
      var next := Start(w.engine, command, ts, answer).0;
      (if WillDispatch(w.engine) then Record(w, next, Dispatch(command, answer)) else w.(engine := next), false)
    case ReplyEvent(cause, kind, target) =>
      var (next, result) := Respond(config, w.engine, kind, target);
      (World(next, w.dispatches, w.awaited - {cause}), result.matched)
    case MarkTimeoutEvent => (w.(engine := Expire(w.engine).0), false)
    case CheckTimeoutEvent(now) => (w.(engine := Check(w.engine, now).0), false)
    case RetryEvent(ts, answer) =>
      var next := Retry(w.engine, ts, answer).0;
      (if WillRetry(w.engine) then Record(w, next, Dispatch(w.engine.current.value.command, answer))
       else w.(engine := next), false)
    case ResetEvent => (w.(engine := ResetEngine(w.engine)), false)
  }

  function Run(config: Config, w: World, events: seq<Event>): World {
    if events == [] then w
    else Next(config, Run(config, w, events[..|events| - 1]), events[|events| - 1]).0
  }

  ghost predicate PossibleRun(config: Config, w: World, events: seq<Event>) {
    events == [] ||
    (var n := |events| - 1;
     PossibleRun(config, w, events[..n]) && Possible(config, Run(config, w, events[..n]), events[n]))
  }

  // ----- The invariant ---------------------------------------------------------------------

  predicate IsPartial(d: Dispatch) {
    d.result.status != Sent && d.result.bytesWritten > 0
  }

  predicate AllPossible(allowEmpty: bool, dispatches: seq<Dispatch>) {
    forall i :: 0 <= i < |dispatches| ==>
      PossibleDispatch(allowEmpty, dispatches[i].command, dispatches[i].result)
  }

  /**
   Outside quarantine nothing partial is on the wire, and the only reply under way, if any, is that
   of the last dispatch, whose command is the one in flight.
   */
  predicate Orderly(config: Config, w: World) {
    && AllPossible(config.allowEmpty, w.dispatches)
    && (forall i :: 0 <= i < |w.dispatches| - 1 ==> !IsPartial(w.dispatches[i]))
    && (!w.engine.indeterminate ==>
          && (w.dispatches != [] ==> !IsPartial(w.dispatches[|w.dispatches| - 1]))
          && (w.engine.current == None ==> w.awaited == {})
          && (w.engine.current.Some? ==>
                && w.engine.current.value.state == InFlight
                && w.dispatches != []
                && (var last := w.dispatches[|w.dispatches| - 1];
                    && w.awaited <= {|w.dispatches| - 1}
                    && last.result.status == Sent
                    && last.command == w.engine.current.value.command
                    && last.command.expected != NoResponse)))
  }

  lemma OrderlyStep(config: Config, w: World, e: Event)
    requires Orderly(config, w) && Possible(config, w, e)
    ensures Orderly(config, Next(config, w, e).0)
  {
    var r := Next(config, w, e).0;
    assert |r.dispatches| > |w.dispatches| ==> r.dispatches[..|w.dispatches|] == w.dispatches;
  }

  lemma {:induction false} RunsAreOrderly(config: Config, events: seq<Event>)
    requires PossibleRun(config, START, events)
    ensures Orderly(config, Run(config, START, events))
  {
    if events != [] {
      var n := |events| - 1;
      RunsAreOrderly(config, events[..n]);
      OrderlyStep(config, Run(config, START, events[..n]), events[n]);
    }
  }

  // ----- Response attribution --------------------------------------------------------------

  /**
   In every run, a reply the engine accepts was caused by the last dispatch, which was written whole
   and carried the very command the engine completes with it. Timeouts and resets are no exception.
   */
  lemma AcceptedRepliesAreAttributed(config: Config, events: seq<Event>, reply: Event)
    requires PossibleRun(config, START, events + [reply]) && reply.ReplyEvent?
    requires Next(config, Run(config, START, events), reply).1
    ensures var before := Run(config, START, events);
            var after := Next(config, before, reply).0;
            && before.dispatches != []
            && reply.cause == |before.dispatches| - 1
            && before.dispatches[reply.cause].result.status == Sent
            && before.engine.current.Some?
            && before.engine.current.value.command == before.dispatches[reply.cause].command
            && after.engine.current == None && after.engine.completed.Some?
            && after.engine.completed.value.id == before.engine.current.value.id
            && after.engine.completed.value.state == (if IsPositive(reply.kind) then Acknowledged else Rejected)
  {
    RunOneMore(config, events, reply);
    RunsAreOrderly(config, events);
    hide Run, PossibleRun, AllPossible;
  }

  function SentWhole(c: Command): Event {
    StartEvent(c, None, DispatchResult(Sent, |PayloadBytes(c)|))
  }

  /** The limit of one reply for each command is needed: a second copy can complete the next one. */
  lemma SecondReplyCanBeMisattributed(config: Config, first: Command, second: Command)
    requires first.kind != UnknownKind && HasSafeDispatchApproval(first) && PayloadBytes(first) != []
    requires second.kind != UnknownKind && HasSafeDispatchApproval(second) && PayloadBytes(second) != []
    requires first.expected != NoResponse && second.expected != NoResponse
    ensures var events := [SentWhole(first), ReplyEvent(0, Ack, None), SentWhole(second)];
            && PossibleRun(config, START, events)
            && Next(config, Run(config, START, events), ReplyEvent(0, Ack, None)).1
            && !Possible(config, Run(config, START, events), ReplyEvent(0, Ack, None))
            && Run(config, START, events).engine.current.value.command == second
  {
    var e1, e2, e3 := SentWhole(first), ReplyEvent(0, Ack, None), SentWhole(second);
    RunOneMore(config, [], e1);
    RunOneMore(config, [e1], e2);
    RunOneMore(config, [e1, e2], e3);
    assert [] + [e1] == [e1] && [e1] + [e2] == [e1, e2] && [e1, e2] + [e3] == [e1, e2, e3];
    var w1 := Next(config, START, e1).0;
    var w2 := Next(config, w1, e2).0;
    assert w1.awaited == {0} && w2.awaited == {} && Next(config, w2, e3).0.awaited == {1};
  }

  lemma RunOneMore(config: Config, events: seq<Event>, e: Event)
    ensures Run(config, START, events + [e]) == Next(config, Run(config, START, events), e).0
    ensures PossibleRun(config, START, events + [e])
       <==> PossibleRun(config, START, events) && Possible(config, Run(config, START, events), e)
  {
    assert (events + [e])[..|events|] == events;
  }

  // ----- The wire --------------------------------------------------------------------------

  /** The payloads of the dispatches that succeeded, in order. */
  function WholePayloads(dispatches: seq<Dispatch>): seq<byte> {
    if dispatches == [] then []
    else
      var last := dispatches[|dispatches| - 1];
      WholePayloads(dispatches[..|dispatches| - 1]) + (if last.result.status == Sent then PayloadBytes(last.command) else [])
  }

  lemma {:induction false} OnlyWholePayloads(allowEmpty: bool, dispatches: seq<Dispatch>)
    requires AllPossible(allowEmpty, dispatches)
    requires forall i :: 0 <= i < |dispatches| ==> !IsPartial(dispatches[i])
    ensures WireOf(dispatches) == WholePayloads(dispatches)
  {
    if dispatches != [] {
      var n := |dispatches| - 1;
      OnlyWholePayloads(allowEmpty, dispatches[..n]);
      assert PossibleDispatch(allowEmpty, dispatches[n].command, dispatches[n].result);
      assert !IsPartial(dispatches[n]);
    }
  }

  lemma OnlyLastIsPartial(allowEmpty: bool, dispatches: seq<Dispatch>) returns (tail: seq<byte>)
    requires AllPossible(allowEmpty, dispatches)
    requires forall i :: 0 <= i < |dispatches| - 1 ==> !IsPartial(dispatches[i])
    ensures WireOf(dispatches) == WholePayloads(dispatches) + tail
    ensures tail != [] ==> dispatches != [] && IsPartial(dispatches[|dispatches| - 1])
                           && tail <= PayloadBytes(dispatches[|dispatches| - 1].command)
  {
    tail := [];
    if dispatches == [] || !IsPartial(dispatches[|dispatches| - 1]) {
      OnlyWholePayloads(allowEmpty, dispatches);
      assert WholePayloads(dispatches) + [] == WholePayloads(dispatches);
    } else {
      var n := |dispatches| - 1;
      OnlyWholePayloads(allowEmpty, dispatches[..n]);
      tail := Accepted(dispatches[n].command, dispatches[n].result);
      assert WholePayloads(dispatches) == WholePayloads(dispatches[..n]) + [];
      assert WholePayloads(dispatches) == WholePayloads(dispatches[..n]);
    }
  }

  /**
   At most once: the wire is the payloads of the commands dispatched so far, each whole and in order,
   followed by at most one proper or whole prefix of the last one, and such a prefix means quarantine.
   */
  lemma WireIsWholePayloadsThenOnePrefix(config: Config, events: seq<Event>) returns (tail: seq<byte>)
    requires PossibleRun(config, START, events)
    ensures var w := Run(config, START, events);
            && WireOf(w.dispatches) == WholePayloads(w.dispatches) + tail
            && (tail != [] ==>
                  && w.engine.indeterminate && w.dispatches != []
                  && var last := w.dispatches[|w.dispatches| - 1];
                     last.result.status != Sent && tail <= PayloadBytes(last.command))
  {
    RunsAreOrderly(config, events);
    hide Run, PossibleRun, WireOf, WholePayloads, AllPossible;
    tail := OnlyLastIsPartial(config.allowEmpty, Run(config, START, events).dispatches);
  }

  /** Quarantine is never left, nothing is dispatched in it and no reply is accepted in it. */
  lemma QuarantineIsFinal(config: Config, w: World, e: Event)
    requires w.engine.indeterminate
    ensures var (next, matched) := Next(config, w, e);
            next.engine.indeterminate && next.dispatches == w.dispatches && !matched
  {
  }

  lemma {:induction false} QuarantineLasts(config: Config, events: seq<Event>, more: seq<Event>)
    requires Run(config, START, events).engine.indeterminate
    ensures Run(config, START, events + more).engine.indeterminate
    ensures Run(config, START, events + more).dispatches == Run(config, START, events).dispatches
  {
    if more == [] {
      assert events + more == events;
    } else {
      var n := |more| - 1;
      QuarantineLasts(config, events, more[..n]);
      hide Next;
      assert (events + more)[..|events| + n] == events + more[..n];
      QuarantineIsFinal(config, Run(config, START, events + more[..n]), more[n]);
    }
  }

  /** No reachable engine dispatches from `RetryPending`: what could be retried is in quarantine. */
  lemma RetryNeverDispatches(config: Config, events: seq<Event>)
    requires PossibleRun(config, START, events)
    ensures !WillRetry(Run(config, START, events).engine)
  {
    RunsAreOrderly(config, events);
  }

  /** Every dispatch belongs to its own `StartTransaction`, in the order of the calls. */
  function Starts(config: Config, w: World, events: seq<Event>): seq<Command> {
    if events == [] then []
    else
      var n := |events| - 1;
      var e := events[n];
      Starts(config, w, events[..n]) +
      if e.StartEvent? && WillDispatch(Run(config, w, events[..n]).engine) then [e.command] else []
  }

  lemma {:induction false} OneDispatchForEachStart(config: Config, events: seq<Event>)
    requires PossibleRun(config, START, events)
    ensures var commands := Starts(config, START, events);
            var dispatches := Run(config, START, events).dispatches;
            && |dispatches| == |commands|
            && forall i :: 0 <= i < |commands| ==> dispatches[i].command == commands[i]
  {
    if events != [] {
      var n := |events| - 1;
      OneDispatchForEachStart(config, events[..n]);
      RetryNeverDispatches(config, events[..n]);
    }
  }
}
