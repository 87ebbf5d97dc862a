/**
 What acknowledged each command of a configuration list: in every run, the dispatch of that very list
 entry, through its own reply where it asks for one.
 */
module ConfigCauses {
  import opened Bits
  import opened ReceiverCommand
  import Eng = TransactionEngine
  import opened ConfigApplication
  import CR = CommandRuns
  import opened ConfigRuns

  /** The event starts another record of a run. */
  predicate Renews(w: World, e: Event) {
    e.ResetEvent? || (e.StartEvent? && !IsActive(w.app))
  }

  /** The dispatch that is behind what an event finishes: the one replied to, or else the latest. */
  function CauseOf(v: World, e: Event): nat {
    if e.ReplyEvent? then e.cause else if v.dispatches == [] then 0 else |v.dispatches| - 1
  }

  function CausesAfter(config: Config, w: World, causes: seq<nat>, e: Event): seq<nat> {
    var v, kept := Next(config, w, e), if Renews(w, e) then [] else causes;
    if |v.outcomes| > |kept| then kept + [CauseOf(v, e)] else kept
  }

  /** For each outcome recorded by the run, the dispatch behind it. */
  function Causes(config: Config, events: seq<Event>): seq<nat> {
    if events == [] then []
    else
      var n := |events| - 1;
      CausesAfter(config, Run(config, START, events[..n]), Causes(config, events[..n]), events[n])
  }

  /** Dispatch number `c` was of list entry `i` in the current run, and it went out whole. */
  predicate Sends(w: World, c: nat, i: nat) {
    && w.base <= c < |w.dispatches| && c - w.base < |w.sent| && w.sent[c - w.base] == i
    && w.dispatches[c].result.status == Sent
  }

  /** What holds of the recorded causes, and that a waiting application waits for its latest dispatch. */
  predicate Told(w: World, causes: seq<nat>) {
    && |causes| == |w.outcomes|
    && (w.app.state == Waiting ==> w.sent != [] && w.sent[|w.sent| - 1] == w.app.index)
    && (forall i :: 0 <= i < |causes| && w.outcomes[i].Some? ==> Sends(w, causes[i], i))
  }

  lemma SendsStays(w: World, v: World, c: nat, i: nat)
    requires Sends(w, c, i) && v.base == w.base && w.sent <= v.sent && w.dispatches <= v.dispatches
    ensures Sends(v, c, i)
  {
  }

  /** Old causes stay, and a new one is told of if it brought an acknowledgement. */
  lemma ToldGrows(w: World, v: World, causes: seq<nat>, more: seq<nat>)
    requires Told(w, causes) && v.base == w.base && w.sent <= v.sent && w.dispatches <= v.dispatches
    requires w.outcomes <= v.outcomes && |v.outcomes| == |w.outcomes| + |more| && |more| <= 1
    requires more != [] && v.outcomes[|w.outcomes|].Some? ==> Sends(v, more[0], |w.outcomes|)
    requires v.app.state == Waiting ==> v.sent != [] && v.sent[|v.sent| - 1] == v.app.index
    ensures Told(v, causes + more)
  {
    var all := causes + more;
    hide Sends;
    forall i | 0 <= i < |all| && v.outcomes[i].Some? ensures Sends(v, all[i], i) {
      if i < |causes| {
        assert w.outcomes[i] == v.outcomes[i];
        SendsStays(w, v, causes[i], i);
      }
    }
  }

  /** Recording what a step to application state `b` finished, with the dispatch behind it. */
  lemma OutcomeTold(w: World, u: World, causes: seq<nat>, b: App, cause: nat)
    requires Told(w, causes) && u.base == w.base && w.sent <= u.sent && w.dispatches <= u.dispatches
    requires u.outcomes == w.outcomes
    requires b.state == Waiting ==> u.sent != [] && u.sent[|u.sent| - 1] == b.index
    requires FinishedMore(u.app, b) && b.metrics.completed > u.app.metrics.completed ==> Sends(u, cause, |w.outcomes|)
    ensures var v := NoteOutcome(u, b);
            && (|v.outcomes| > |causes| <==> FinishedMore(u.app, b)) && v.dispatches == u.dispatches
            && Told(v, if FinishedMore(u.app, b) then causes + [cause] else causes)
  {
    var v, more := NoteOutcome(u, b), if FinishedMore(u.app, b) then [cause] else [];
    assert causes + [] == causes;
    ToldLengths(w, causes);
    hide Told, FinishedMore;
    if more != [] && v.outcomes[|w.outcomes|].Some? {
      SendsStays(u, v, cause, |w.outcomes|);
    }
    ToldGrows(w, v, causes, more);
  }

  // ----- One event -----------------------------------------------------------------------------

  lemma CompleteFacts(config: Config, a: App, succeeded: bool, allow: bool)
    ensures var b := Complete(config, a, succeeded, allow);
            && b.state != Waiting && FinishedMore(a, b)
            && (b.metrics.completed > a.metrics.completed <==> succeeded)
            && b.engine == a.engine && b.index >= a.index
  {
  }

  lemma SentIfDone(e: Eng.Engine, c: Command, ts: Eng.Time, r: DispatchResult)
    ensures var result := Eng.Start(e, c, ts, r).1;
            result.status == Eng.Dispatched || result.status == Eng.StepAcknowledged ==>
              Eng.WillDispatch(e) && r.status == Sent
  {
  }

  lemma StepTold(config: Config, w: World, causes: seq<nat>, ts: Eng.Time, r: DispatchResult)
    requires Fits(config, w) && Told(w, causes)
    ensures var v := AfterStep(config, w, ts, r);
            Told(v, if |v.outcomes| > |causes| then causes + [if v.dispatches == [] then 0 else |v.dispatches| - 1] else causes)
  {
    var a, u, b := w.app, NoteDispatch(w, r), StepRun(config, w.app, ts, r);
    var cause := if u.dispatches == [] then 0 else |u.dispatches| - 1;
    if WillStart(a) {
      DispatchedLast(w, r);
      StartedFacts(config, a, ts, r);
    }
    hide StepRun, Told, OutcomesFit, InOrder;
    if !WillStart(a) {
      NotStarted(config, w, causes, ts, r);
    }
    OutcomeTold(w, u, causes, b, cause);
  }

  lemma StartedFacts(config: Config, a: App, ts: Eng.Time, r: DispatchResult)
    requires WillStart(a)
    ensures var b := StepRun(config, a, ts, r);
            && (b.state == Waiting ==> b.index == a.index && Eng.WillDispatch(a.engine))
            && (b.metrics.completed > a.metrics.completed ==> Eng.WillDispatch(a.engine) && r.status == Sent)
  {
    SentIfDone(a.engine, a.commands[a.index], ts, r);
    var b := Answered(a, ts, r);
    CompleteFacts(config, b, true, true);
    CompleteFacts(config, b, false, true);
    hide Eng.Start, Complete;
  }

  lemma NotStarted(config: Config, w: World, causes: seq<nat>, ts: Eng.Time, r: DispatchResult)
    requires !WillStart(w.app) && Told(w, causes)
    ensures var b := StepRun(config, w.app, ts, r);
            && NoteDispatch(w, r) == w && !FinishedMore(w.app, b) && (b.state == Waiting ==> b == w.app)
            && (w.app.state == Waiting ==> w.sent != [] && w.sent[|w.sent| - 1] == w.app.index)
  {
  }

  lemma ToldLengths(w: World, causes: seq<nat>)
    requires Told(w, causes)
    ensures |causes| == |w.outcomes|
  {
  }

  /** A dispatch that is made is the last one, and of the current entry. */
  lemma DispatchedLast(w: World, r: DispatchResult)
    requires InOrder(w) && WillStart(w.app)
    ensures var v := NoteDispatch(w, r);
            && v.base == w.base && w.sent <= v.sent && w.dispatches <= v.dispatches && v.outcomes == w.outcomes
            && (Eng.WillDispatch(w.app.engine) ==>
                  && v.sent != [] && v.sent[|v.sent| - 1] == w.app.index && v.dispatches != []
                  && (r.status == Sent ==> Sends(v, |v.dispatches| - 1, w.app.index)))
  {
  }

  /** An accepted reply is to the latest dispatch, which went out whole. */
  lemma ReplyIsToTheLatest(config: Config, w: World, cause: nat, kind: Eng.ResponseKind, target: Option<MessageIdentity>)
    requires CR.Orderly(config.engine, EngineWorld(w)) && StateFits(w.app) && cause in w.awaited
    requires var status := Eng.Respond(config.engine, w.app.engine, kind, target).1.status;
             status == Eng.StepAcknowledged || status == Eng.StepRejected
    ensures w.app.state == Waiting && w.dispatches != [] && cause == |w.dispatches| - 1
    ensures w.dispatches[cause].result.status == Sent
  {
    RespondFacts(config.engine, w.app.engine, kind, target);
    hide Eng.Respond;
  }

  /** An accepted reply, positive or not, was caused by the dispatch of the entry it finishes. */
  lemma AcceptedReplyIsToItsEntry(
      config: Config, w: World, causes: seq<nat>, cause: nat, kind: Eng.ResponseKind, target: Option<MessageIdentity>)
    requires Sound(config, w) && Told(w, causes) && cause in w.awaited
    requires FinishedMore(w.app, Next(config, w, ReplyEvent(cause, kind, target)).app)
    ensures Sends(w, cause, w.app.index) && w.app.index < |w.app.commands|
    ensures w.dispatches[cause].command == w.app.commands[w.app.index] && w.app.index == |w.outcomes|
  {
    if w.astray {
      AstrayStays(config, w, ReplyEvent(cause, kind, target));
      assert false;
    }
    ReplyIsToTheLatest(config, w, cause, kind, target);
    hide CR.Orderly, Eng.Respond, Complete, OutcomesFit;
  }

  lemma ReplyTold(
      config: Config, w: World, causes: seq<nat>, cause: nat, kind: Eng.ResponseKind, target: Option<MessageIdentity>)
    requires Sound(config, w) && !w.astray && Told(w, causes) && cause in w.awaited
    ensures Told(Next(config, w, ReplyEvent(cause, kind, target)),
                 CausesAfter(config, w, causes, ReplyEvent(cause, kind, target)))
  {
    hide Sound, ApplyReply, Told, Sends;
    var e := ReplyEvent(cause, kind, target);
    var u := w.(awaited := w.awaited - {cause});
    var b := ApplyReply(config, w.app, kind, target);
    RepliedFacts(config, w.app, kind, target);
    assert FinishedMore(w.app, Next(config, w, e).app) <==> FinishedMore(u.app, b);
    if FinishedMore(w.app, b) {
      AcceptedReplyIsToItsEntry(config, w, causes, cause, kind, target);
      SendsStays(w, u, cause, |w.outcomes|);
    }
    WaitsForLast(w, causes);
    OutcomeTold(w, u, causes, b, cause);
  }

  lemma WaitsForLast(w: World, causes: seq<nat>)
    requires Told(w, causes)
    ensures |causes| == |w.outcomes|
    ensures w.app.state == Waiting ==> w.sent != [] && w.sent[|w.sent| - 1] == w.app.index
  {
  }

  lemma RepliedFacts(config: Config, a: App, kind: Eng.ResponseKind, target: Option<MessageIdentity>)
    ensures var b := ApplyReply(config, a, kind, target);
            b.state == Waiting ==> a.state == Waiting && b.index == a.index
  {
    var (engine, result) := Eng.Respond(config.engine, a.engine, kind, target);
    var b := a.(engine := engine, metrics := a.metrics.(responsesApplied := a.metrics.responsesApplied + 1));
    CompleteFacts(config, b, result.status == Eng.StepAcknowledged, true);
    hide Eng.Respond, Complete;
  }

  lemma TimeoutTold(config: Config, w: World, causes: seq<nat>, e: Event)
    requires Told(w, causes) && (e.MarkTimeoutEvent? || e.CheckTimeoutEvent?)
    ensures Told(Next(config, w, e), CausesAfter(config, w, causes, e))
  {
    var step := if e.MarkTimeoutEvent? then Eng.Expire(w.app.engine) else Eng.Check(w.app.engine, e.now);
    var u := if e.MarkTimeoutEvent? then w.(astray := w.astray || StaleSlot(w.app)) else w;
    var b := HandleTimeout(config, w.app, step);
    TimedOutFacts(config, w.app, step);
    hide Eng.Expire, Eng.Check, HandleTimeout, Sends;
    OutcomeTold(w, u, causes, b, CauseOf(u, e));
  }

  lemma TimedOutFacts(config: Config, a: App, step: (Eng.Engine, Eng.StepResult))
    ensures var b := HandleTimeout(config, a, step);
            && b.metrics.completed == a.metrics.completed
            && (b.state == Waiting ==> a.state == Waiting && b.index == a.index)
  {
  }

  lemma NothingTold(w: World)
    requires w.outcomes == [] && w.app.state != Waiting
    ensures Told(w, [])
  {
  }

  lemma NextTold(config: Config, w: World, causes: seq<nat>, e: Event)
    requires Sound(config, w) && Possible(config, w, e) && Told(w, causes)
    ensures Told(Next(config, w, e), CausesAfter(config, w, causes, e))
  {
    match e {
      case StartEvent(commands, ts, answer) =>
        if !IsActive(w.app) {
          LoadedSound(config, w, commands);
          NothingTold(Loaded(w, commands));
          hide Told, Fits, CR.Orderly, AfterStep;
          StepTold(config, Loaded(w, commands), [], ts, answer);
        } else {
          hide CR.Orderly, Fits;
        }
      case StepEvent(ts, answer) =>
        if w.astray {
          AstrayTold(config, w, causes, e);
        } else {
          hide CR.Orderly, AfterStep;
          StepTold(config, w, causes, ts, answer);
        }
      case ReplyEvent(cause, kind, target) =>
        if w.astray {
          AstrayTold(config, w, causes, e);
        } else {
          ReplyTold(config, w, causes, cause, kind, target);
        }
      case ResetEvent => NothingTold(Next(config, w, e));
      case _ => TimeoutTold(config, w, causes, e);
    }
  }

  lemma AstrayTold(config: Config, w: World, causes: seq<nat>, e: Event)
    requires Astray(w) && w.astray && Told(w, causes) && (e.StepEvent? || e.ReplyEvent?)
    ensures Told(Next(config, w, e), CausesAfter(config, w, causes, e))
  {
    AstrayStays(config, w, e);
    hide InOrder, Accounts;
    var v := Next(config, w, e);
    assert causes + [] == causes;
    ToldGrows(w, v, causes, []);
  }

  // ----- Every run -----------------------------------------------------------------------------

  lemma {:induction false} CausesAreTold(config: Config, events: seq<Event>)
    requires PossibleRun(config, START, events)
    ensures Told(Run(config, START, events), Causes(config, events))
  {
    if events != [] {
      var n := |events| - 1;
      CausesAreTold(config, events[..n]);
      RunsAreSound(config, events[..n]);
      hide Sound, Told, CausesAfter, Next, Possible;
      NextTold(config, Run(config, START, events[..n]), Causes(config, events[..n]), events[n]);
    }
  }

  /**
   In every run, each acknowledgement on record goes back to a dispatch of that very list entry in the
   current run, which put the whole command on the wire.
   */
  lemma AcknowledgementsAreCaused(config: Config, events: seq<Event>, i: nat)
    requires PossibleRun(config, START, events)
    requires var w := Run(config, START, events); i < |w.outcomes| && w.outcomes[i].Some?
    ensures var w, causes := Run(config, START, events), Causes(config, events);
            && |causes| == |w.outcomes| && Sends(w, causes[i], i)
            && i < |w.app.commands| && w.dispatches[causes[i]].command == w.app.commands[i]
  {
    CausesAreTold(config, events);
    CommandsGoOutInOrder(config, events);
    hide Run, PossibleRun, Causes;
  }

  /**
   A run that completes without `continue_on_error`: every required command was dispatched whole, and
   acknowledged because of that dispatch.
   */
  lemma CompletedMeansCaused(config: Config, events: seq<Event>)
    requires PossibleRun(config, START, events) && !config.continueOnError
    requires Run(config, START, events).app.state == Completed
    ensures var w, causes := Run(config, START, events), Causes(config, events);
            && |causes| == |w.outcomes| == |w.app.commands|
            && forall i :: 0 <= i < |w.app.commands| && w.app.commands[i].policy == AbortOnFailure ==>
                 && w.outcomes[i].Some? && w.outcomes[i].value.state == Eng.Acknowledged
                 && Sends(w, causes[i], i) && w.dispatches[causes[i]].command == w.app.commands[i]
  {
    CompletedMeansAcknowledged(config, events);
    CausesAreTold(config, events);
    CommandsGoOutInOrder(config, events);
    hide Run, PossibleRun, Causes;
  }
}
