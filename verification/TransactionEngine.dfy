/** The stop-and-wait transaction engine, `gnss_driver/src/receiver_command_transaction_engine.cpp`. */
module TransactionEngine {
  import opened Bits
  import opened ReceiverCommand

  type Time = Option<int>

  datatype ResponseKind = NoKind | Ack | Nak | TextOk | TextError | Timeout

  datatype TransactionState = Pending | InFlight | Acknowledged | Rejected | TimedOut | Failed

  datatype Transaction = Transaction(
    id: nat, command: Command, state: TransactionState, response: ResponseKind, attempts: nat, sentAt: Time)
  {
    predicate CanRetry() {
      (state == TimedOut || state == Failed) && 0 < attempts <= command.maxRetries
    }

    predicate HasTimedOutAt(now: int) {
      sentAt.Some? && now >= sentAt.value + command.timeoutMs * 1_000_000
    }

    function MarkSent(ts: Time): Transaction {
      this.(state := InFlight, attempts := attempts + 1, sentAt := ts, response := NoKind)
    }
  }

  datatype StepStatus =
    | Dispatched | Busy | DispatchFailed | StepAcknowledged | StepRejected | ResponseUnmatched | StepTimedOut
    | RetryDispatched | RetryUnavailable | NoCurrentTransaction | NotTimedOut | SessionIndeterminate

  datatype StepResult = StepResult(status: StepStatus, matched: bool, dispatch: Option<DispatchResult>)

  datatype Metrics = Metrics(
    created: nat, dispatched: nat, accepted: nat, unmatched: nat, acknowledged: nat, rejected: nat,
    timedOut: nat, dispatchFailures: nat, quarantined: nat)

  const NO_METRICS := Metrics(0, 0, 0, 0, 0, 0, 0, 0, 0)

  datatype Config = Config(allowEmpty: bool, verifyMetadata: bool)

  datatype Engine = Engine(
    current: Option<Transaction>, completed: Option<Transaction>, indeterminate: bool, nextId: nat, metrics: Metrics)

  const IDLE := Engine(None, None, false, 1, NO_METRICS)

  function Just(status: StepStatus): StepResult {
    StepResult(status, false, None)
  }

  function Quarantine(e: Engine): Engine {
    if e.indeterminate then e
    else e.(indeterminate := true, metrics := e.metrics.(quarantined := e.metrics.quarantined + 1))
  }

  /** Whether `StartTransaction` reaches the dispatcher. */
  predicate WillDispatch(e: Engine) {
    !e.indeterminate && e.current == None
  }

  /** `StartTransaction`; `r` is the dispatcher's answer and matters only if it is asked. */
  function Start(e: Engine, c: Command, ts: Time, r: DispatchResult): (Engine, StepResult) {
    if e.indeterminate then (e, Just(SessionIndeterminate))
    else if e.current.Some? then (e, Just(Busy))
    else
      var t := Transaction(e.nextId, c, Pending, NoKind, 0, None);
      var m := e.metrics.(created := e.metrics.created + 1);
      var e1 := e.(nextId := e.nextId + 1, metrics := m);
      if r.status != Sent then
        var failed := e1.(completed := Some(t.(state := Failed)));
        var kept := if r.bytesWritten > 0 then Quarantine(failed) else failed;
        (kept.(metrics := kept.metrics.(dispatchFailures := m.dispatchFailures + 1)),
         StepResult(DispatchFailed, false, Some(r)))
      else
        var sent := t.MarkSent(ts);
        var m1 := m.(dispatched := m.dispatched + 1);
        if c.expected == NoResponse then
          (e1.(completed := Some(sent.(state := Acknowledged, response := Ack)),
               metrics := m1.(acknowledged := m1.acknowledged + 1)),
           StepResult(StepAcknowledged, false, Some(r)))
        else (e1.(current := Some(sent), metrics := m1), StepResult(Dispatched, false, Some(r)))
  }

  predicate CanApply(kind: ResponseKind) {
    kind == Ack || kind == Nak || kind == TextOk || kind == TextError
  }

  predicate IsPositive(kind: ResponseKind) {
    kind == Ack || kind == TextOk
  }

  /** A response target is compared only when both sides can be identified. */
  predicate MatchesTarget(config: Config, c: Command, target: Option<MessageIdentity>) {
    || !config.verifyMetadata || target == None
    || TryGetUbxCommandMessageIdentity(c) == None
    || TryGetUbxCommandMessageIdentity(c) == target
  }

  function Unmatched(e: Engine): (Engine, StepResult) {
    (e.(metrics := e.metrics.(unmatched := e.metrics.unmatched + 1)), Just(ResponseUnmatched))
  }

  function Respond(config: Config, e: Engine, kind: ResponseKind, target: Option<MessageIdentity>): (Engine, StepResult) {
    if e.indeterminate || e.current == None || e.current.value.state != InFlight || !CanApply(kind)
       || !MatchesTarget(config, e.current.value.command, target) then Unmatched(e)
    else
      var m := e.metrics.(accepted := e.metrics.accepted + 1);
      var t := e.current.value;
      if IsPositive(kind) then
        (e.(current := None, completed := Some(t.(state := Acknowledged, response := kind)),
            metrics := m.(acknowledged := m.acknowledged + 1)),
         StepResult(StepAcknowledged, true, None))
      else
        (e.(current := None, completed := Some(t.(state := Rejected, response := kind)),
            metrics := m.(rejected := m.rejected + 1)),
         StepResult(StepRejected, true, None))
  }

  function Expire(e: Engine): (Engine, StepResult) {
    if e.current == None then (e, Just(NoCurrentTransaction))
    else if e.current.value.state != InFlight then (e, Just(NotTimedOut))
    else
      (Quarantine(e.(current := Some(e.current.value.(state := TimedOut, response := Timeout)),
                     metrics := e.metrics.(timedOut := e.metrics.timedOut + 1))),
       Just(StepTimedOut))
  }

  function Check(e: Engine, now: int): (Engine, StepResult) {
    if e.indeterminate then (e, Just(SessionIndeterminate))
    else if e.current == None then (e, Just(NoCurrentTransaction))
    else if e.current.value.state != InFlight || !e.current.value.HasTimedOutAt(now) then (e, Just(NotTimedOut))
    else Expire(e)
  }

  predicate WillRetry(e: Engine) {
    !e.indeterminate && e.current.Some? && e.current.value.CanRetry()
  }

  function Retry(e: Engine, ts: Time, r: DispatchResult): (Engine, StepResult) {
    if e.indeterminate then (e, Just(SessionIndeterminate))
    else if e.current == None then (e, Just(NoCurrentTransaction))
    else if !e.current.value.CanRetry() then (e, Just(RetryUnavailable))
    else
      var t := e.current.value.(state := Pending, response := NoKind, sentAt := None);
      if r.status != Sent then
        (e.(current := Some(t.(state := Failed)),
            metrics := e.metrics.(dispatchFailures := e.metrics.dispatchFailures + 1)),
         StepResult(DispatchFailed, false, Some(r)))
      else
        (e.(current := Some(t.MarkSent(ts)), metrics := e.metrics.(dispatched := e.metrics.dispatched + 1)),
         StepResult(RetryDispatched, false, Some(r)))
  }

  function ResetEngine(e: Engine): Engine {
    if e.indeterminate then e
    else if e.current.Some? && e.current.value.state == InFlight then Quarantine(e)
    else IDLE
  }

  class ReceiverCommandTransactionEngine {
    const dispatcher: ReceiverCommandDispatcher
    const config: Config
    var currentTransaction: Option<Transaction>
    var completedTransaction: Option<Transaction>
    var sessionIndeterminate: bool
    var nextTransactionId: nat
    var metrics: Metrics

    ghost function State(): Engine
      reads this
    {
      Engine(currentTransaction, completedTransaction, sessionIndeterminate, nextTransactionId, metrics)
    }

    ghost predicate Valid() {
      dispatcher.allowEmpty == config.allowEmpty
    }

    constructor (sink: ByteSink, config: Config)
      ensures Valid() && State() == IDLE
      ensures this.config == config && dispatcher.sink == sink && fresh(dispatcher)
    {
      dispatcher := new ReceiverCommandDispatcher(sink, config.allowEmpty);
      this.config := config;
      currentTransaction, completedTransaction, sessionIndeterminate := None, None, false;
      nextTransactionId, metrics := 1, NO_METRICS;
    }

    method StartTransaction(c: Command, ts: Time) returns (result: StepResult)
      requires Valid()
      modifies this, dispatcher, dispatcher.sink
      ensures result.dispatch.Some? <==> WillDispatch(old(State()))
      ensures var r := if result.dispatch.Some? then result.dispatch.value else DispatchResult(RejectedInvalid, 0);
              && (State(), result) == Start(old(State()), c, ts, r)
              && (result.dispatch.Some? ==>
                    && PossibleDispatch(config.allowEmpty, c, r)
                    && dispatcher.sink.wire == old(dispatcher.sink.wire) + Accepted(c, r))
              && (result.dispatch == None ==> dispatcher.sink.wire == old(dispatcher.sink.wire))
    {
      if sessionIndeterminate {
        return Just(SessionIndeterminate);
      }
      if currentTransaction.Some? {
        return Just(Busy);
      }
      var transaction := Transaction(nextTransactionId, c, Pending, NoKind, 0, None);
      nextTransactionId := nextTransactionId + 1;
      metrics := metrics.(created := metrics.created + 1);
      var r := dispatcher.Dispatch(c);
      if r.status != Sent {
        completedTransaction := Some(transaction.(state := Failed));
        if r.bytesWritten > 0 {
          QuarantineSession();
        }
        metrics := metrics.(dispatchFailures := metrics.dispatchFailures + 1);
        return StepResult(DispatchFailed, false, Some(r));
      }
      transaction := transaction.MarkSent(ts);
      currentTransaction := Some(transaction);
      metrics := metrics.(dispatched := metrics.dispatched + 1);
      if c.expected == NoResponse {
        completedTransaction := Some(transaction.(state := Acknowledged, response := Ack));
        currentTransaction := None;
        metrics := metrics.(acknowledged := metrics.acknowledged + 1);
        return StepResult(StepAcknowledged, false, Some(r));
      }
      return StepResult(Dispatched, false, Some(r));
    }

    method ApplyResponse(kind: ResponseKind, target: Option<MessageIdentity>) returns (result: StepResult)
      modifies this
      ensures (State(), result) == Respond(config, old(State()), kind, target)
    {
      if sessionIndeterminate || currentTransaction == None || currentTransaction.value.state != InFlight
         || !CanApply(kind) || !MatchesTarget(config, currentTransaction.value.command, target)
      {
        metrics := metrics.(unmatched := metrics.unmatched + 1);
        return Just(ResponseUnmatched);
      }
      metrics := metrics.(accepted := metrics.accepted + 1);
      var transaction := currentTransaction.value;
      currentTransaction := None;
      if IsPositive(kind) {
        completedTransaction := Some(transaction.(state := Acknowledged, response := kind));
        metrics := metrics.(acknowledged := metrics.acknowledged + 1);
        return StepResult(StepAcknowledged, true, None);
      }
      completedTransaction := Some(transaction.(state := Rejected, response := kind));
      metrics := metrics.(rejected := metrics.rejected + 1);
      return StepResult(StepRejected, true, None);
    }

    method MarkTimeout() returns (result: StepResult)
      modifies this
      ensures (State(), result) == Expire(old(State()))
    {
      if currentTransaction == None {
        return Just(NoCurrentTransaction);
      }
      if currentTransaction.value.state != InFlight {
        return Just(NotTimedOut);
      }
      currentTransaction := Some(currentTransaction.value.(state := TimedOut, response := Timeout));
      metrics := metrics.(timedOut := metrics.timedOut + 1);
      QuarantineSession();
      return Just(StepTimedOut);
    }

    method CheckTimeout(now: int) returns (result: StepResult)
      modifies this
      ensures (State(), result) == Check(old(State()), now)
    {
      if sessionIndeterminate {
        return Just(SessionIndeterminate);
      }
      if currentTransaction == None {
        return Just(NoCurrentTransaction);
      }
      if currentTransaction.value.state != InFlight || !currentTransaction.value.HasTimedOutAt(now) {
        return Just(NotTimedOut);
      }
      result := MarkTimeout();
    }

    method RetryPending(ts: Time) returns (result: StepResult)
      requires Valid()
      modifies this, dispatcher, dispatcher.sink
      ensures result.dispatch.Some? <==> WillRetry(old(State()))
      ensures var r := if result.dispatch.Some? then result.dispatch.value else DispatchResult(RejectedInvalid, 0);
              && (State(), result) == Retry(old(State()), ts, r)
              && (result.dispatch.Some? ==>
                    && PossibleDispatch(config.allowEmpty, old(State()).current.value.command, r)
                    && dispatcher.sink.wire
                       == old(dispatcher.sink.wire) + Accepted(old(State()).current.value.command, r))
              && (result.dispatch == None ==> dispatcher.sink.wire == old(dispatcher.sink.wire))
    {
      if sessionIndeterminate {
        return Just(SessionIndeterminate);
      }
      if currentTransaction == None {
        return Just(NoCurrentTransaction);
      }
      if !currentTransaction.value.CanRetry() {
        return Just(RetryUnavailable);
      }
      var transaction := currentTransaction.value.(state := Pending, response := NoKind, sentAt := None);
      var r := dispatcher.Dispatch(transaction.command);
      if r.status != Sent {
        currentTransaction := Some(transaction.(state := Failed));
        metrics := metrics.(dispatchFailures := metrics.dispatchFailures + 1);
        return StepResult(DispatchFailed, false, Some(r));
      }
      currentTransaction := Some(transaction.MarkSent(ts));
      metrics := metrics.(dispatched := metrics.dispatched + 1);
      return StepResult(RetryDispatched, false, Some(r));
    }

    method Reset()
      modifies this, dispatcher
      ensures State() == ResetEngine(old(State()))
    {
      if sessionIndeterminate {
        return;
      }
      if currentTransaction.Some? && currentTransaction.value.state == InFlight {
        QuarantineSession();
        return;
      }
      dispatcher.ResetMetrics();
      metrics, currentTransaction, completedTransaction := NO_METRICS, None, None;
      sessionIndeterminate, nextTransactionId := false, 1;
    }

    method QuarantineSession()
      modifies `sessionIndeterminate, `metrics
      ensures State() == Quarantine(old(State()))
    {
      if !sessionIndeterminate {
        sessionIndeterminate := true;
        metrics := metrics.(quarantined := metrics.quarantined + 1);
      }
    }
  }
}
