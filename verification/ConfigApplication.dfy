/** Applying a list of configuration commands, `gnss_driver/src/receiver_config_application.cpp`. */
module ConfigApplication {
  import opened Bits
  import opened ReceiverCommand
  import Eng = TransactionEngine

  datatype RunState = Idle | Running | Waiting | Completed | RunFailed

  datatype Metrics = Metrics(
    total: nat, started: nat, completed: nat, failed: nat, requiredFailed: nat, optionalFailed: nat,
    responsesApplied: nat, timeouts: nat)

  const NO_METRICS := Metrics(0, 0, 0, 0, 0, 0, 0, 0)

  datatype Config = Config(engine: Eng.Config, continueOnError: bool)

  datatype App = App(engine: Eng.Engine, state: RunState, commands: seq<Command>, index: nat, metrics: Metrics)

  function ResetRun(a: App): App {
    App(Eng.ResetEngine(a.engine), Idle, [], 0, NO_METRICS)
  }

  /** Whether a failure of the current command may be passed over. */
  predicate MayContinue(config: Config, a: App) {
    config.continueOnError || (a.index < |a.commands| && !IsRequired(a.commands[a.index]))
  }

  /** `CompleteCurrentCommand`: count the outcome, then move on, complete the run or fail it. */
  function Complete(config: Config, a: App, succeeded: bool, allowContinuation: bool): App {
    var required := a.index >= |a.commands| || IsRequired(a.commands[a.index]);
    var m :=
      if succeeded then a.metrics.(completed := a.metrics.completed + 1)
      else if required then
        a.metrics.(failed := a.metrics.failed + 1, requiredFailed := a.metrics.requiredFailed + 1)
      else a.metrics.(failed := a.metrics.failed + 1, optionalFailed := a.metrics.optionalFailed + 1);
    if !a.engine.indeterminate && (succeeded || (allowContinuation && MayContinue(config, a))) then
      a.(metrics := m, index := a.index + 1,
         state := if a.index + 1 < |a.commands| then Running else Completed)
    else a.(metrics := m, state := RunFailed)
  }

  /** Whether `Step` hands the current command to the engine. */
  predicate WillStart(a: App) {
    a.state == Running && a.index < |a.commands|
  }

  function StepRun(config: Config, a: App, ts: Eng.Time, r: DispatchResult): App {
    if a.state != Running then a
    else if a.index >= |a.commands| then a.(state := Completed)
    else
      var (engine, result) := Eng.Start(a.engine, a.commands[a.index], ts, r);
      var b := a.(engine := engine, metrics := a.metrics.(started := a.metrics.started + 1));
      if result.status == Eng.StepAcknowledged then Complete(config, b, true, true)
      else if result.status != Eng.Dispatched then Complete(config, b, false, true)
      else b.(state := Waiting)
  }

  predicate IsActive(a: App) {
    a.state == Running || a.state == Waiting
  }

  /** A new run with its commands loaded, before its first step. */
  function Load(a: App, commands: seq<Command>): App {
    ResetRun(a).(commands := commands, metrics := NO_METRICS.(total := |commands|),
                 state := if commands == [] then Completed else Running)
  }

  function StartRun(config: Config, a: App, commands: seq<Command>, ts: Eng.Time, r: DispatchResult): App {
    if IsActive(a) then a else StepRun(config, Load(a, commands), ts, r)
  }

  function ApplyReply(config: Config, a: App, kind: Eng.ResponseKind, target: Option<MessageIdentity>): App {
    var (engine, result) := Eng.Respond(config.engine, a.engine, kind, target);
    var b := a.(engine := engine);
    if result.status != Eng.StepAcknowledged && result.status != Eng.StepRejected then b
    else
      Complete(config, b.(metrics := b.metrics.(responsesApplied := b.metrics.responsesApplied + 1)),
               result.status == Eng.StepAcknowledged, true)
  }

  function HandleTimeout(config: Config, a: App, step: (Eng.Engine, Eng.StepResult)): App {
    var b := a.(engine := step.0);
    if step.1.status != Eng.StepTimedOut then b
    else Complete(config, b.(metrics := b.metrics.(timeouts := b.metrics.timeouts + 1)), false, false)
  }

  class ReceiverConfigApplication {
    const engine: Eng.ReceiverCommandTransactionEngine
    const config: Config
    var state: RunState
    var commands: seq<Command>
    var currentIndex: nat
    var metrics: Metrics

    ghost function State(): App
      reads this, engine
    {
      App(engine.State(), state, commands, currentIndex, metrics)
    }

    ghost predicate Valid() {
      engine.Valid() && engine.config == config.engine
    }

    constructor (sink: ByteSink, config: Config)
      ensures Valid() && State() == App(Eng.IDLE, Idle, [], 0, NO_METRICS)
      ensures this.config == config && engine.dispatcher.sink == sink
      ensures fresh(engine) && fresh(engine.dispatcher)
    {
      engine := new Eng.ReceiverCommandTransactionEngine(sink, config.engine);
      this.config := config;
      state, commands, currentIndex, metrics := Idle, [], 0, NO_METRICS;
    }

    /** Starting a run; the result is what the dispatcher answered, if it was asked. */
    method Start(newCommands: seq<Command>, ts: Eng.Time) returns (asked: Option<DispatchResult>)
      requires Valid()
      modifies this, engine, engine.dispatcher, engine.dispatcher.sink
      ensures var r := if asked.Some? then asked.value else DispatchResult(RejectedInvalid, 0);
              State() == StartRun(config, old(State()), newCommands, ts, r)
      ensures asked.Some? ==>
                && newCommands != []
                && PossibleDispatch(config.engine.allowEmpty, newCommands[0], asked.value)
                && engine.dispatcher.sink.wire
                   == old(engine.dispatcher.sink.wire) + Accepted(newCommands[0], asked.value)
      ensures asked == None ==> engine.dispatcher.sink.wire == old(engine.dispatcher.sink.wire)
    {
      hide Eng.Start, Complete, PossibleDispatch;
      if state == Running || state == Waiting {
        return None;
      }
      ResetRunState();
      commands := newCommands;
      metrics := metrics.(total := |commands|);
      if commands == [] {
        state := Completed;
        return None;
      }
      state := Running;
      assert State() == Load(old(State()), newCommands);
      asked := Step(ts);
    }

    method Step(ts: Eng.Time) returns (asked: Option<DispatchResult>)
      requires Valid()
      modifies this, engine, engine.dispatcher, engine.dispatcher.sink
      ensures var r := if asked.Some? then asked.value else DispatchResult(RejectedInvalid, 0);
              State() == StepRun(config, old(State()), ts, r)
      ensures asked.Some? ==>
                && WillStart(old(State()))
                && (var c := old(State()).commands[old(State()).index];
                    && PossibleDispatch(config.engine.allowEmpty, c, asked.value)
                    && engine.dispatcher.sink.wire == old(engine.dispatcher.sink.wire) + Accepted(c, asked.value))
      ensures asked == None ==> engine.dispatcher.sink.wire == old(engine.dispatcher.sink.wire)
    {
      hide Eng.Start, Complete, PossibleDispatch;
      if state == Idle || state == Waiting || state == Completed || state == RunFailed {
        return None;
      }
      if currentIndex >= |commands| {
        state := Completed;
        return None;
      }
      var result := engine.StartTransaction(commands[currentIndex], ts);
      asked := result.dispatch;
      metrics := metrics.(started := metrics.started + 1);
      if result.status == Eng.StepAcknowledged {
        CompleteCurrentCommand(true, true);
      } else if result.status != Eng.Dispatched {
        CompleteCurrentCommand(false, true);
      } else {
        state := Waiting;
      }
    }

    method ApplyResponse(kind: Eng.ResponseKind, target: Option<MessageIdentity>)
      requires Valid()
      modifies this, engine
      ensures State() == ApplyReply(config, old(State()), kind, target)
    {
      hide Complete;
      var result := engine.ApplyResponse(kind, target);
      if result.status != Eng.StepAcknowledged && result.status != Eng.StepRejected {
        return;
      }
      metrics := metrics.(responsesApplied := metrics.responsesApplied + 1);
      CompleteCurrentCommand(result.status == Eng.StepAcknowledged, true);
    }

    method MarkTimeout()
      requires Valid()
      modifies this, engine
      ensures State() == HandleTimeout(config, old(State()), Eng.Expire(old(State()).engine))
    {
      hide Complete, Eng.Expire;
      var result := engine.MarkTimeout();
      HandleTimeoutResult(result);
    }

    method CheckTimeout(now: int)
      requires Valid()
      modifies this, engine
      ensures State() == HandleTimeout(config, old(State()), Eng.Check(old(State()).engine, now))
    {
      hide Complete, Eng.Check;
      var result := engine.CheckTimeout(now);
      HandleTimeoutResult(result);
    }

    method Reset()
      modifies this, engine, engine.dispatcher
      ensures State() == ResetRun(old(State()))
    {
      ResetRunState();
    }

    method HandleTimeoutResult(result: Eng.StepResult)
      modifies this
      ensures State() == HandleTimeout(config, old(State()), (old(State()).engine, result))
    {
      hide Complete;
      if result.status != Eng.StepTimedOut {
        return;
      }
      metrics := metrics.(timeouts := metrics.timeouts + 1);
      CompleteCurrentCommand(false, false);
    }

    method CompleteCurrentCommand(succeeded: bool, allowContinuation: bool)
      modifies this
      ensures State() == Complete(config, old(State()), succeeded, allowContinuation)
    {
      var required := currentIndex >= |commands| || IsRequired(commands[currentIndex]);
      if succeeded {
        metrics := metrics.(completed := metrics.completed + 1);
      } else {
        metrics := metrics.(failed := metrics.failed + 1);
        if required {
          metrics := metrics.(requiredFailed := metrics.requiredFailed + 1);
        } else {
          metrics := metrics.(optionalFailed := metrics.optionalFailed + 1);
        }
      }
      var shouldContinue :=
        !engine.sessionIndeterminate &&
        (succeeded || (allowContinuation &&
                       (config.continueOnError || (currentIndex < |commands| && !IsRequired(commands[currentIndex])))));
      var hasMore := currentIndex + 1 < |commands|;
      if shouldContinue {
        currentIndex := currentIndex + 1;
        state := if hasMore then Running else Completed;
      } else {
        state := RunFailed;
      }
    }

    method ResetRunState()
      modifies this, engine, engine.dispatcher
      ensures State() == ResetRun(old(State()))
    {
      engine.Reset();
      metrics, commands, state, currentIndex := NO_METRICS, [], Idle, 0;
    }
  }
}
