/**
 Runs of the configuration application over the same sink and receiver as `CommandRuns`: the order in
 which commands reach the wire, what a completed run has achieved, and the counters.
 */
module ConfigRuns {
  import opened Bits
  import opened ReceiverCommand
  import Eng = TransactionEngine
  import opened ConfigApplication
  import CR = CommandRuns

  datatype Event =
    | StartEvent(commands: seq<Command>, ts: Eng.Time, answer: DispatchResult)
    | StepEvent(ts: Eng.Time, answer: DispatchResult)
    | ReplyEvent(cause: nat, kind: Eng.ResponseKind, target: Option<MessageIdentity>)
    | MarkTimeoutEvent
    | CheckTimeoutEvent(now: int)
    | ResetEvent

  /**
   The application and the dispatches of its engine, with two records of the current run: which
   commands were dispatched, by position in the list, and how each finished command ended (the
   engine's acknowledged transaction, or nothing for a failure). `astray` says that the current run has
   been charged with the timeout of a command of an earlier one.
   */
  datatype World = World(
    app: App, dispatches: seq<Dispatch>, awaited: set<nat>,
    base: nat, sent: seq<nat>, outcomes: seq<Option<Eng.Transaction>>, astray: bool)

  const START := World(App(Eng.IDLE, Idle, [], 0, NO_METRICS), [], {}, 0, [], [], false)

  function EngineWorld(w: World): CR.World {
    CR.World(w.app.engine, w.dispatches, w.awaited)
  }

  function FinishedMore(a: App, b: App): bool {
    b.metrics.completed + b.metrics.failed > a.metrics.completed + a.metrics.failed
  }

  /** Records what a step from `w` to application state `b` finished. */
  function NoteOutcome(w: World, b: App): World {
    if !FinishedMore(w.app, b) then w.(app := b)
    else
      w.(app := b,
         outcomes := w.outcomes + [if b.metrics.completed > w.app.metrics.completed then b.engine.completed else None])
  }

  /** Records a dispatch of the current command, if the engine makes one. */
  function NoteDispatch(w: World, r: DispatchResult): World {
    if WillStart(w.app) && Eng.WillDispatch(w.app.engine) then
      var d := Dispatch(w.app.commands[w.app.index], r);
      w.(dispatches := w.dispatches + [d],
         awaited := if CR.AsksForReply(d) then w.awaited + {|w.dispatches|} else w.awaited,
         sent := w.sent + [w.app.index])
    else w
  }

  function AfterStep(config: Config, w: World, ts: Eng.Time, r: DispatchResult): World {
    NoteOutcome(NoteDispatch(w, r), StepRun(config, w.app, ts, r))
  }

  function Loaded(w: World, commands: seq<Command>): World {
    World(Load(w.app, commands), w.dispatches, w.awaited, |w.dispatches|, [], [], false)
  }

  function Next(config: Config, w: World, e: Event): World {
    match e
    case StartEvent(commands, ts, answer) =>
      if IsActive(w.app) then w else AfterStep(config, Loaded(w, commands), ts, answer)
    case StepEvent(ts, answer) => AfterStep(config, w, ts, answer)
    case ReplyEvent(cause, kind, target) =>
      NoteOutcome(w.(awaited := w.awaited - {cause}), ApplyReply(config, w.app, kind, target))
    case MarkTimeoutEvent =>
      NoteOutcome(w.(astray := w.astray || StaleSlot(w.app)), HandleTimeout(config, w.app, Eng.Expire(w.app.engine)))
    case CheckTimeoutEvent(now) => NoteOutcome(w, HandleTimeout(config, w.app, Eng.Check(w.app.engine, now)))
    case ResetEvent => World(ResetRun(w.app), w.dispatches, w.awaited, |w.dispatches|, [], [], false)
  }

  predicate StepPossible(config: Config, w: World, r: DispatchResult) {
    WillStart(w.app) && Eng.WillDispatch(w.app.engine) ==>
      PossibleDispatch(config.engine.allowEmpty, w.app.commands[w.app.index], r)
  }

  /** A sent transaction is in the engine's slot although the application is not waiting for it. */
  predicate StaleSlot(a: App) {
    a.state != Waiting && a.engine.current.Some? && a.engine.current.value.state == Eng.InFlight
  }

  predicate Possible(config: Config, w: World, e: Event) {
    match e
    case StartEvent(commands, _, answer) =>
      !IsActive(w.app) ==> StepPossible(config, Loaded(w, commands), answer)
    case StepEvent(_, answer) => StepPossible(config, w, answer)
    case ReplyEvent(cause, _, _) => cause in w.awaited
    case _ => true
  }

  function Run(config: Config, w: World, events: seq<Event>): World {
    if events == [] then w
    else Next(config, Run(config, w, events[..|events| - 1]), events[|events| - 1])
  }

  ghost predicate PossibleRun(config: Config, w: World, events: seq<Event>) {
    events == [] ||
    (var n := |events| - 1;
     PossibleRun(config, w, events[..n]) && Possible(config, Run(config, w, events[..n]), events[n]))
  }

  // ----- The invariant ---------------------------------------------------------------------

  /** The counters agree with the record of the run. */
  predicate Accounts(a: App, finished: nat) {
    && a.metrics.total == |a.commands|
    && a.metrics.completed + a.metrics.failed == finished
    && a.metrics.failed == a.metrics.requiredFailed + a.metrics.optionalFailed
    && finished == a.index + (if a.state == RunFailed then 1 else 0)
    && a.metrics.started == finished + (if a.state == Waiting then 1 else 0)
  }

  predicate StateFits(a: App) {
    && a.index <= |a.commands|
    && (a.state == Completed ==> a.index == |a.commands|)
    && (IsActive(a) || a.state == RunFailed ==> a.index < |a.commands|)
    && (a.state == Waiting ==>
          && !a.engine.indeterminate && a.engine.current.Some?
          && a.engine.current.value.state == Eng.InFlight
          && a.engine.current.value.command == a.commands[a.index])
    && (a.state != Waiting && a.engine.current.Some? ==> a.engine.indeterminate)
  }

  /** The dispatches of the current run are of list positions in ascending order, each once. */
  predicate InOrder(w: World) {
    && w.base + |w.sent| == |w.dispatches|
    && (forall i, j :: 0 <= i < j < |w.sent| ==> w.sent[i] < w.sent[j])
    && (forall i :: 0 <= i < |w.sent| ==>
          && w.sent[i] < w.app.metrics.started && w.sent[i] < |w.app.commands|
          && w.dispatches[w.base + i].command == w.app.commands[w.sent[i]])
  }

  /** Finished commands ended acknowledged, or the configuration lets the run pass them over. */
  predicate OutcomesFit(config: Config, w: World) {
    && |w.outcomes| <= |w.app.commands|
    && (forall i :: 0 <= i < |w.outcomes| && w.outcomes[i].Some? ==>
          w.outcomes[i].value.state == Eng.Acknowledged && w.outcomes[i].value.command == w.app.commands[i])
    && (forall i :: 0 <= i < |w.outcomes| && i < w.app.index && w.outcomes[i] == None ==>
          config.continueOnError || !IsRequired(w.app.commands[i]))
  }

  predicate Fits(config: Config, w: World) {
    && StateFits(w.app)
    && Accounts(w.app, |w.outcomes|)
    && InOrder(w)
    && OutcomesFit(config, w)
  }

  /** A run that was charged with an earlier command's timeout has failed, and its counters are off. */
  predicate Astray(w: World) {
    && w.app.state == RunFailed && w.app.engine.indeterminate && !StaleSlot(w.app)
    && InOrder(w) && !Accounts(w.app, |w.outcomes|)
  }

  predicate Sound(config: Config, w: World) {
    CR.Orderly(config.engine, EngineWorld(w)) && if w.astray then Astray(w) else Fits(config, w)
  }

  // ----- The engine under the application is an engine of `CommandRuns` ---------------------

  lemma StepOrderly(config: Config, w: World, ts: Eng.Time, r: DispatchResult)
    requires CR.Orderly(config.engine, EngineWorld(w)) && StepPossible(config, w, r)
    ensures CR.Orderly(config.engine, EngineWorld(AfterStep(config, w, ts, r)))
  {
    hide CR.Orderly, Eng.Start, PossibleDispatch;
    if WillStart(w.app) {
      var e := CR.StartEvent(w.app.commands[w.app.index], ts, r);
      CR.OrderlyStep(config.engine, EngineWorld(w), e);
      assert CR.Next(config.engine, EngineWorld(w), e).0 == EngineWorld(AfterStep(config, w, ts, r));
    } else {
      assert EngineWorld(AfterStep(config, w, ts, r)) == EngineWorld(w);
    }
  }

  lemma ResetOrderly(config: Config, w: World)
    requires CR.Orderly(config.engine, EngineWorld(w))
    ensures CR.Orderly(config.engine, EngineWorld(w).(engine := Eng.ResetEngine(w.app.engine)))
  {
    CR.OrderlyStep(config.engine, EngineWorld(w), CR.ResetEvent);
  }

  lemma NextOrderly(config: Config, w: World, e: Event)
    requires CR.Orderly(config.engine, EngineWorld(w)) && Possible(config, w, e)
    ensures CR.Orderly(config.engine, EngineWorld(Next(config, w, e)))
  {
    hide CR.Orderly, Eng.Expire, Eng.Check, Eng.Respond, Eng.ResetEngine, AfterStep, StepPossible;
    match e {
      case StartEvent(commands, ts, answer) =>
        if !IsActive(w.app) {
          ResetOrderly(config, w);
          StepOrderly(config, Loaded(w, commands), ts, answer);
        }
      case StepEvent(ts, answer) => StepOrderly(config, w, ts, answer);
      case ReplyEvent(cause, kind, target) =>
        CR.OrderlyStep(config.engine, EngineWorld(w), CR.ReplyEvent(cause, kind, target));
      case MarkTimeoutEvent => CR.OrderlyStep(config.engine, EngineWorld(w), CR.MarkTimeoutEvent);
      case CheckTimeoutEvent(now) => CR.OrderlyStep(config.engine, EngineWorld(w), CR.CheckTimeoutEvent(now));
      case ResetEvent => ResetOrderly(config, w);
    }
  }

  // ----- One command finishing -------------------------------------------------------------

  /** The current command has been started and the engine is through with it. */
  predicate Finishing(a: App) {
    && a.index < |a.commands| && IsActive(a)
    && a.metrics.total == |a.commands|
    && a.metrics.completed + a.metrics.failed == a.index
    && a.metrics.failed == a.metrics.requiredFailed + a.metrics.optionalFailed
    && a.metrics.started == a.index + 1
    && (a.engine.indeterminate || a.engine.current == None)
  }

  lemma CompleteFits(config: Config, a: App, succeeded: bool, allow: bool)
    requires Finishing(a) && (succeeded ==> !a.engine.indeterminate)
    ensures var b := Complete(config, a, succeeded, allow);
            && StateFits(b) && Accounts(b, a.index + 1) && FinishedMore(a, b)
            && b.engine == a.engine && b.commands == a.commands
            && b.metrics.started == a.metrics.started
            && (b.metrics.completed > a.metrics.completed <==> succeeded)
            && (!succeeded && b.index > a.index ==> config.continueOnError || !IsRequired(a.commands[a.index]))
            && (!succeeded && !allow ==> b.state == RunFailed)
  {
  }

  /** Everything but the application's own fields is as it was before the command finished. */
  lemma FinishSound(config: Config, w: World, a: App, succeeded: bool, allow: bool)
    requires OutcomesFit(config, w) && InOrder(w.(app := a))
    requires Finishing(a) && |w.outcomes| == a.index
    requires a.commands == w.app.commands && a.index == w.app.index
    requires a.metrics.completed == w.app.metrics.completed && a.metrics.failed == w.app.metrics.failed
    requires succeeded ==> !a.engine.indeterminate && a.engine.completed.Some?
                           && a.engine.completed.value.state == Eng.Acknowledged
                           && a.engine.completed.value.command == a.commands[a.index]
    ensures var r := NoteOutcome(w, Complete(config, a, succeeded, allow));
            Fits(config, r)
  {
    CompleteFits(config, a, succeeded, allow);
    hide Complete, StateFits, Accounts, Finishing;
    var r := NoteOutcome(w, Complete(config, a, succeeded, allow));
    assert r.outcomes[..|w.outcomes|] == w.outcomes;
    assert InOrder(r) by {
      assert InOrder(w.(app := a));
    }
  }

  /** What `StartTransaction` answers, as far as the application looks. */
  lemma StartFacts(e: Eng.Engine, c: Command, ts: Eng.Time, r: DispatchResult)
    ensures var (next, result) := Eng.Start(e, c, ts, r);
            && (result.status == Eng.Dispatched ==>
                  && Eng.WillDispatch(e) && !next.indeterminate && next.current.Some?
                  && next.current.value.state == Eng.InFlight && next.current.value.command == c)
            && (result.status == Eng.StepAcknowledged ==>
                  && Eng.WillDispatch(e) && !next.indeterminate && next.current == None && next.completed.Some?
                  && next.completed.value.state == Eng.Acknowledged && next.completed.value.command == c)
            && (result.status != Eng.Dispatched && (e.current == None || e.indeterminate) ==>
                  next.indeterminate || next.current == None)
  {
  }

  /** The application after its engine answered, before the outcome is acted on. */
  function Answered(a: App, ts: Eng.Time, r: DispatchResult): App
    requires a.index < |a.commands|
  {
    a.(engine := Eng.Start(a.engine, a.commands[a.index], ts, r).0,
       metrics := a.metrics.(started := a.metrics.started + 1))
  }

  lemma DispatchInOrder(config: Config, w: World, ts: Eng.Time, r: DispatchResult)
    requires InOrder(w) && Accounts(w.app, |w.outcomes|) && OutcomesFit(config, w) && WillStart(w.app)
    ensures var v := NoteDispatch(w, r);
            && InOrder(v.(app := Answered(w.app, ts, r))) && OutcomesFit(config, v)
            && v.app == w.app && v.outcomes == w.outcomes
  {
    hide Eng.Start;
    assert NoteDispatch(w, r).dispatches[..|w.dispatches|] == w.dispatches;
  }

  lemma StepFits(config: Config, w: World, ts: Eng.Time, r: DispatchResult)
    requires Fits(config, w) && WillStart(w.app)
    ensures Fits(config, AfterStep(config, w, ts, r))
  {
    var a := w.app;
    StartFacts(a.engine, a.commands[a.index], ts, r);
    DispatchInOrder(config, w, ts, r);
    hide Eng.Start, Complete, InOrder, OutcomesFit, NoteDispatch;
    var result := Eng.Start(a.engine, a.commands[a.index], ts, r).1;
    var b, v := Answered(a, ts, r), NoteDispatch(w, r);
    if result.status == Eng.StepAcknowledged {
      FinishSound(config, v, b, true, true);
    } else if result.status != Eng.Dispatched {
      FinishSound(config, v, b, false, true);
    } else {
      WaitingFits(config, v, b.(state := Waiting));
    }
  }

  lemma WaitingFits(config: Config, v: World, b: App)
    requires OutcomesFit(config, v) && InOrder(v.(app := b.(state := Running))) && b.state == Waiting
    requires b.commands == v.app.commands && b.index == v.app.index
    ensures OutcomesFit(config, v.(app := b)) && InOrder(v.(app := b))
  {
  }

  lemma StepSound(config: Config, w: World, ts: Eng.Time, r: DispatchResult)
    requires Sound(config, w) && StepPossible(config, w, r)
    ensures Sound(config, AfterStep(config, w, ts, r))
  {
    StepOrderly(config, w, ts, r);
    hide CR.Orderly, PossibleDispatch, InOrder, OutcomesFit, Accounts;
    if WillStart(w.app) {
      StepFits(config, w, ts, r);
    } else {
      assert NoteDispatch(w, r) == w && AfterStep(config, w, ts, r) == w;
    }
  }

  lemma LoadedSound(config: Config, w: World, commands: seq<Command>)
    requires Sound(config, w)
    ensures Sound(config, Loaded(w, commands)) && !Loaded(w, commands).astray
  {
    ResetOrderly(config, w);
    hide CR.Orderly;
  }

  /** Counting a reply or a timeout touches nothing the run's records depend on. */
  lemma CountingKeepsOrder(w: World, a: App)
    requires InOrder(w) && a.commands == w.app.commands && a.metrics.started == w.app.metrics.started
    ensures InOrder(w.(app := a))
  {
  }

  lemma RespondFacts(config: Eng.Config, e: Eng.Engine, kind: Eng.ResponseKind, target: Option<MessageIdentity>)
    ensures var (next, result) := Eng.Respond(config, e, kind, target);
            if result.status == Eng.StepAcknowledged || result.status == Eng.StepRejected then
              && !e.indeterminate && e.current.Some? && e.current.value.state == Eng.InFlight
              && !next.indeterminate && next.current == None && next.completed.Some?
              && next.completed.value.command == e.current.value.command
              && (result.status == Eng.StepAcknowledged ==> next.completed.value.state == Eng.Acknowledged)
            else next.current == e.current && next.indeterminate == e.indeterminate
  {
  }

  lemma ReplyFits(config: Config, w: World, kind: Eng.ResponseKind, target: Option<MessageIdentity>)
    requires Fits(config, w)
    ensures Fits(config, NoteOutcome(w, ApplyReply(config, w.app, kind, target)))
  {
    var a := w.app;
    RespondFacts(config.engine, a.engine, kind, target);
    hide Eng.Respond, Complete, InOrder, OutcomesFit;
    var (engine, result) := Eng.Respond(config.engine, a.engine, kind, target);
    var b := a.(engine := engine, metrics := a.metrics.(responsesApplied := a.metrics.responsesApplied + 1));
    CountingKeepsOrder(w, b);
    CountingKeepsOrder(w, a.(engine := engine));
    if result.status == Eng.StepAcknowledged || result.status == Eng.StepRejected {
      FinishSound(config, w, b, result.status == Eng.StepAcknowledged, true);
    } else {
      OutcomesKept(config, w, a.(engine := engine));
    }
  }

  lemma OutcomesKept(config: Config, w: World, a: App)
    requires OutcomesFit(config, w) && a.commands == w.app.commands && a.index == w.app.index
    ensures OutcomesFit(config, w.(app := a))
  {
  }

  /** A stale timeout fails the run, is counted without a command having been started, and leaves no slot. */
  lemma StaleTimeoutStrays(config: Config, w: World)
    requires Fits(config, w) && StaleSlot(w.app)
    ensures Astray(NoteOutcome(w.(astray := true), HandleTimeout(config, w.app, Eng.Expire(w.app.engine))))
  {
    var a := w.app;
    var b := a.(engine := Eng.Expire(a.engine).0, metrics := a.metrics.(timeouts := a.metrics.timeouts + 1));
    CountingKeepsOrder(w, Complete(config, b, false, false));
    hide InOrder, OutcomesFit;
    OrderIgnoresOutcomes(w.(app := Complete(config, b, false, false)), w.outcomes + [None], true);
  }

  lemma OrderIgnoresOutcomes(w: World, outcomes: seq<Option<Eng.Transaction>>, astray: bool)
    requires InOrder(w)
    ensures InOrder(w.(outcomes := outcomes, astray := astray))
  {
  }

  /** Nothing but a reset or a new start changes anything for a run that went astray. */
  lemma AstrayStays(config: Config, w: World, e: Event)
    requires Astray(w) && w.astray && !e.StartEvent? && !e.ResetEvent?
    ensures var r := Next(config, w, e);
            r.astray && Astray(r) && r.outcomes == w.outcomes && r.app.metrics == w.app.metrics
  {
    hide InOrder;
    var r := Next(config, w, e);
    assert r.dispatches == w.dispatches && r.base == w.base && r.sent == w.sent && r.app.commands == w.app.commands;
    SameOrder(w, r);
  }

  lemma SameOrder(w: World, r: World)
    requires InOrder(w) && r.dispatches == w.dispatches && r.base == w.base && r.sent == w.sent
    requires r.app.commands == w.app.commands && r.app.metrics.started == w.app.metrics.started
    ensures InOrder(r)
  {
  }

  lemma TimeoutFits(config: Config, w: World, step: (Eng.Engine, Eng.StepResult))
    requires Fits(config, w)
    requires step.1.status == Eng.StepTimedOut ==> w.app.state == Waiting && step.0.indeterminate
    requires step.1.status != Eng.StepTimedOut ==> step.0 == w.app.engine
    ensures Fits(config, NoteOutcome(w, HandleTimeout(config, w.app, step)))
  {
    hide Complete, InOrder, OutcomesFit;
    var a := w.app;
    var b := a.(engine := step.0, metrics := a.metrics.(timeouts := a.metrics.timeouts + 1));
    if step.1.status == Eng.StepTimedOut {
      CountingKeepsOrder(w, b);
      FinishSound(config, w, b, false, false);
    }
  }

  lemma AwaitedIsFree(config: Config, w: World, awaited: set<nat>)
    requires Fits(config, w)
    ensures Fits(config, w.(awaited := awaited))
  {
  }

  /** Outside a stale slot only a waiting application times out, and then the engine is in quarantine. */
  lemma ExpireFacts(a: App)
    requires StateFits(a)
    ensures Eng.Expire(a.engine).1.status == Eng.StepTimedOut ==>
              (a.state == Waiting || StaleSlot(a)) && Eng.Expire(a.engine).0.indeterminate
    ensures Eng.Expire(a.engine).1.status != Eng.StepTimedOut ==> Eng.Expire(a.engine).0 == a.engine
    ensures forall now :: Eng.Check(a.engine, now).1.status == Eng.StepTimedOut ==>
              a.state == Waiting && Eng.Check(a.engine, now).0.indeterminate
    ensures forall now :: Eng.Check(a.engine, now).1.status != Eng.StepTimedOut ==>
              Eng.Check(a.engine, now).0 == a.engine
  {
  }

  lemma FitsNext(config: Config, w: World, e: Event)
    requires Sound(config, w) && !w.astray && !e.StartEvent? && !e.StepEvent? && !e.ResetEvent?
    ensures var r := Next(config, w, e); if r.astray then Astray(r) else Fits(config, r)
  {
    hide CR.Orderly, InOrder, OutcomesFit, Accounts, Astray, Eng.Expire, Eng.Check, HandleTimeout, ApplyReply;
    match e {
      case ReplyEvent(cause, kind, target) =>
        ReplyFits(config, w.(awaited := w.awaited - {cause}), kind, target) by {
          AwaitedIsFree(config, w, w.awaited - {cause});
        }
      case MarkTimeoutEvent =>
        if StaleSlot(w.app) {
          StaleTimeoutStrays(config, w);
        } else {
          ExpireFacts(w.app);
          TimeoutFits(config, w, Eng.Expire(w.app.engine));
        }
      case CheckTimeoutEvent(now) =>
        ExpireFacts(w.app);
        TimeoutFits(config, w, Eng.Check(w.app.engine, now));
    }
  }

  lemma NextSound(config: Config, w: World, e: Event)
    requires Sound(config, w) && Possible(config, w, e)
    ensures Sound(config, Next(config, w, e))
  {
    hide CR.Orderly, Fits, Astray, AfterStep, HandleTimeout, ApplyReply;
    match e {
      case StartEvent(commands, ts, answer) =>
        if !IsActive(w.app) {
          LoadedSound(config, w, commands);
          StepSound(config, Loaded(w, commands), ts, answer);
        }
      case StepEvent(ts, answer) => StepSound(config, w, ts, answer);
      case ResetEvent => ResetSound(config, w);
      case _ =>
        NextOrderly(config, w, e);
        if w.astray {
          AstrayStays(config, w, e);
        } else {
          FitsNext(config, w, e);
        }
    }
  }

  lemma ResetFits(config: Config, w: World)
    ensures Fits(config, Next(config, w, ResetEvent)) && !Next(config, w, ResetEvent).astray
  {
  }

  lemma ResetSound(config: Config, w: World)
    requires Sound(config, w)
    ensures Sound(config, Next(config, w, ResetEvent))
  {
    ResetOrderly(config, w);
    ResetFits(config, w);
    hide CR.Orderly, Fits, Astray, Eng.ResetEngine;
  }

  lemma {:induction false} RunsAreSound(config: Config, events: seq<Event>)
    requires PossibleRun(config, START, events)
    ensures Sound(config, Run(config, START, events))
  {
    if events != [] {
      var n := |events| - 1;
      RunsAreSound(config, events[..n]);
      NextSound(config, Run(config, START, events[..n]), events[n]);
    }
  }

  // ----- What runs guarantee ---------------------------------------------------------------

  /** In every run the current list reaches the wire in list order, each command at most once. */
  lemma CommandsGoOutInOrder(config: Config, events: seq<Event>)
    requires PossibleRun(config, START, events)
    ensures InOrder(Run(config, START, events))
  {
    RunsAreSound(config, events);
  }

  /** A run that completes without `continue_on_error` has every required command acknowledged. */
  lemma CompletedMeansAcknowledged(config: Config, events: seq<Event>)
    requires PossibleRun(config, START, events) && !config.continueOnError
    requires Run(config, START, events).app.state == Completed
    ensures var w := Run(config, START, events);
            && |w.outcomes| == |w.app.commands|
            && forall i :: 0 <= i < |w.app.commands| && w.app.commands[i].policy == AbortOnFailure ==>
                 && w.outcomes[i].Some? && w.outcomes[i].value.state == Eng.Acknowledged
                 && w.outcomes[i].value.command == w.app.commands[i]
  {
    RunsAreSound(config, events);
    hide Run, PossibleRun, CR.Orderly;
  }

  /**
   In every run the counters agree with the record, and no more commands are finished than there are,
   exactly when the current list was not charged with the timeout of an earlier command.
   */
  lemma CountersAgreeIffNotAstray(config: Config, events: seq<Event>)
    requires PossibleRun(config, START, events)
    ensures var w := Run(config, START, events);
            Accounts(w.app, |w.outcomes|) && |w.outcomes| <= w.app.metrics.total <==> !w.astray
  {
    RunsAreSound(config, events);
    hide Run, PossibleRun, CR.Orderly;
  }

  lemma OneMore(config: Config, w: World, events: seq<Event>, e: Event)
    requires PossibleRun(config, w, events) && Possible(config, Run(config, w, events), e)
    ensures PossibleRun(config, w, events + [e])
    ensures Run(config, w, events + [e]) == Next(config, Run(config, w, events), e)
  {
    hide Next, Possible;
    assert (events + [e])[..|events|] == events;
  }

  lemma StartedAndWaiting(config: Config, c: Command, ts: Eng.Time, answer: DispatchResult)
    requires PossibleDispatch(config.engine.allowEmpty, c, answer) && answer.status == Sent && c.expected != NoResponse
    ensures Possible(config, START, StartEvent([c], ts, answer))
    ensures var a := Next(config, START, StartEvent([c], ts, answer)).app;
            && a.engine.current.Some? && a.engine.current.value.state == Eng.InFlight && !a.engine.indeterminate
  {
    hide PossibleDispatch;
  }

  /**
   Such a run exists: a command that waits for its reply, a reset, and `MarkTimeout`. A list without
   commands then has a failed one.
   */
  lemma ResetThenMarkTimeoutStrays(config: Config, c: Command, ts: Eng.Time, answer: DispatchResult)
    requires PossibleDispatch(config.engine.allowEmpty, c, answer) && answer.status == Sent && c.expected != NoResponse
    ensures var events := [StartEvent([c], ts, answer)] + [ResetEvent] + [MarkTimeoutEvent];
            var w := Run(config, START, events);
            && PossibleRun(config, START, events) && w.astray
            && w.app.commands == [] && w.app.metrics.total == 0 && w.app.metrics.started == 0
            && w.app.metrics.failed == 1 && w.app.state == RunFailed && !Accounts(w.app, |w.outcomes|)
  {
    var start := StartEvent([c], ts, answer);
    StartedAndWaiting(config, c, ts, answer);
    hide Run, PossibleRun, AfterStep, PossibleDispatch;
    NothingRun(config);
    OneMore(config, START, [], start);
    assert [] + [start] == [start];
    OneMore(config, START, [start], ResetEvent);
    OneMore(config, START, [start] + [ResetEvent], MarkTimeoutEvent);
  }

  lemma NothingRun(config: Config)
    ensures PossibleRun(config, START, []) && Run(config, START, []) == START
  {
  }

  /** A timeout that takes effect always fails the run, whatever the policy of the command. */
  lemma TimeoutAlwaysFails(config: Config, a: App, now: int)
    ensures Eng.Expire(a.engine).1.status == Eng.StepTimedOut ==>
              HandleTimeout(config, a, Eng.Expire(a.engine)).state == RunFailed
    ensures Eng.Check(a.engine, now).1.status == Eng.StepTimedOut ==>
              HandleTimeout(config, a, Eng.Check(a.engine, now)).state == RunFailed
  {
  }

  /**
   `MarkTimeout` does not ask whether the application is waiting. In a sound world whose counters agree
   they still do afterwards exactly when the engine's slot is not a stale one left by a reset.
   */
  lemma MarkTimeoutCountsIffNotStale(config: Config, w: World)
    requires Sound(config, w) && Accounts(w.app, |w.outcomes|)
    ensures var r := NoteOutcome(w, HandleTimeout(config, w.app, Eng.Expire(w.app.engine)));
            Accounts(r.app, |r.outcomes|) <==> !StaleSlot(w.app)
  {
    hide CR.Orderly, InOrder, OutcomesFit;
  }

  /** What is left to do; it is zero once a run has ended. */
  function Remaining(a: App): nat {
    if IsActive(a) && a.index <= |a.commands| then
      2 * (|a.commands| - a.index) + (if a.state == Running then 1 else 0)
    else 0
  }

  lemma CompleteLeavesLess(config: Config, a: App, succeeded: bool, allow: bool)
    requires a.index < |a.commands|
    ensures Remaining(Complete(config, a, succeeded, allow)) < 2 * (|a.commands| - a.index)
    ensures FinishedMore(a, Complete(config, a, succeeded, allow))
  {
  }

  lemma StepLeavesLess(config: Config, a: App, ts: Eng.Time, r: DispatchResult)
    requires WillStart(a)
    ensures Remaining(StepRun(config, a, ts, r)) < Remaining(a)
  {
    hide Eng.Start, Complete;
    var b := Answered(a, ts, r);
    CompleteLeavesLess(config, b, true, true);
    CompleteLeavesLess(config, b, false, true);
  }

  /** A reply or a timeout either leaves the application's own state alone or finishes the current command. */
  lemma ReactionLeavesLess(config: Config, a: App, b: App)
    requires IsActive(a) && a.index < |a.commands|
    requires || (b.state == a.state && b.index == a.index && b.commands == a.commands
                 && b.metrics.completed == a.metrics.completed && b.metrics.failed == a.metrics.failed)
             || (exists c: App, succeeded, allow ::
                   c.index == a.index && c.commands == a.commands && b == Complete(config, c, succeeded, allow))
    ensures Remaining(b) <= Remaining(a) && (FinishedMore(a, b) ==> Remaining(b) < Remaining(a))
  {
    hide Complete;
    if !(b.state == a.state && b.index == a.index && b.commands == a.commands
         && b.metrics.completed == a.metrics.completed && b.metrics.failed == a.metrics.failed) {
      var c: App, succeeded, allow :|
        c.index == a.index && c.commands == a.commands && b == Complete(config, c, succeeded, allow);
      CompleteLeavesLess(config, c, succeeded, allow);
    }
  }

  lemma ReplyReacts(config: Config, a: App, kind: Eng.ResponseKind, target: Option<MessageIdentity>)
    requires IsActive(a) && a.index < |a.commands|
    ensures var b := ApplyReply(config, a, kind, target);
            Remaining(b) <= Remaining(a) && (FinishedMore(a, b) ==> Remaining(b) < Remaining(a))
  {
    hide Eng.Respond, Complete, Remaining, FinishedMore;
    var (engine, result) := Eng.Respond(config.engine, a.engine, kind, target);
    var c := a.(engine := engine, metrics := a.metrics.(responsesApplied := a.metrics.responsesApplied + 1));
    assert result.status == Eng.StepAcknowledged || result.status == Eng.StepRejected ==>
        ApplyReply(config, a, kind, target) == Complete(config, c, result.status == Eng.StepAcknowledged, true);
    ReactionLeavesLess(config, a, ApplyReply(config, a, kind, target));
  }

  lemma TimeoutReacts(config: Config, a: App, step: (Eng.Engine, Eng.StepResult))
    requires IsActive(a) && a.index < |a.commands|
    ensures var b := HandleTimeout(config, a, step);
            Remaining(b) <= Remaining(a) && (FinishedMore(a, b) ==> Remaining(b) < Remaining(a))
  {
    hide Complete, Remaining, FinishedMore;
    var c := a.(engine := step.0, metrics := a.metrics.(timeouts := a.metrics.timeouts + 1));
    assert step.1.status == Eng.StepTimedOut ==> HandleTimeout(config, a, step) == Complete(config, c, false, false);
    ReactionLeavesLess(config, a, HandleTimeout(config, a, step));
  }

  /** Every step of a running application and everything a waiting one reacts to leaves less to do. */
  lemma RemainingDecreases(config: Config, w: World, e: Event)
    requires Sound(config, w) && Possible(config, w, e) && IsActive(w.app)
    ensures Remaining(Next(config, w, e).app) <= Remaining(w.app)
    ensures w.app.state == Running && e.StepEvent? ==> Remaining(Next(config, w, e).app) < Remaining(w.app)
    ensures FinishedMore(w.app, Next(config, w, e).app) ==> Remaining(Next(config, w, e).app) < Remaining(w.app)
  {
    hide CR.Orderly, InOrder, OutcomesFit, Accounts, Eng.Start, Eng.Respond, Eng.Expire, Eng.Check, Eng.ResetEngine;
    hide StepRun, ApplyReply, HandleTimeout, Complete;
    match e {
      case StartEvent(_, _, _) =>
      case StepEvent(ts, answer) =>
        if w.app.state == Running {
          StepLeavesLess(config, w.app, ts, answer);
        } else {
          NoStepWhileWaiting(config, w.app, ts, answer);
        }
      case ReplyEvent(cause, kind, target) => ReplyReacts(config, w.app, kind, target);
      case MarkTimeoutEvent => TimeoutReacts(config, w.app, Eng.Expire(w.app.engine));
      case CheckTimeoutEvent(now) => TimeoutReacts(config, w.app, Eng.Check(w.app.engine, now));
      case ResetEvent =>
    }
  }

  lemma NoStepWhileWaiting(config: Config, a: App, ts: Eng.Time, r: DispatchResult)
    requires a.state == Waiting
    ensures StepRun(config, a, ts, r) == a
  {
  }
}
