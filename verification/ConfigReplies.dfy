/**
 What the answer to one command does to the application's run: a positive one moves on, a negative one
 moves on only if failures may be passed over, and a timeout always fails the run.
 */
module ConfigReplies {
  import opened Bits
  import opened ReceiverCommand
  import Eng = TransactionEngine
  import opened ConfigApplication

  /** The application waits for the answer to the command at its index. */
  predicate WaitsFor(a: App) {
    && a.state == Waiting && a.index < |a.commands| && !a.engine.indeterminate && a.engine.current.Some?
    && a.engine.current.value.state == Eng.InFlight && a.engine.current.value.command == a.commands[a.index]
  }

  /** The run one command further on. */
  predicate MovedOn(a: App, b: App) {
    b.index == a.index + 1 && b.state == (if a.index + 1 < |a.commands| then Running else Completed)
  }

  /** A positive answer without a target completes the command and moves on. */
  lemma PositiveAnswer(config: Config, a: App, kind: Eng.ResponseKind)
    requires WaitsFor(a) && kind in [Eng.Ack, Eng.TextOk]
    ensures var b := ApplyReply(config, a, kind, None);
            && MovedOn(a, b) && b.commands == a.commands && b.engine.current == None
            && b.metrics == a.metrics.(completed := a.metrics.completed + 1,
                                       responsesApplied := a.metrics.responsesApplied + 1)
  {
  }

  /**
   A negative answer moves on if and only if errors are passed over in general or the command's own policy
   is to continue; otherwise the run has failed at this command. It is counted by that policy.
   */
  lemma NegativeAnswer(config: Config, a: App, kind: Eng.ResponseKind)
    requires WaitsFor(a) && kind in [Eng.Nak, Eng.TextError]
    ensures var b := ApplyReply(config, a, kind, None);
            var goesOn := config.continueOnError || a.commands[a.index].policy == ContinueOnFailure;
            && (if goesOn then MovedOn(a, b) else b.index == a.index && b.state == RunFailed)
            && b.commands == a.commands && b.engine.current == None
            && b.metrics.failed == a.metrics.failed + 1 && b.metrics.completed == a.metrics.completed
            && b.metrics.responsesApplied == a.metrics.responsesApplied + 1
            && (if a.commands[a.index].policy == AbortOnFailure
                then b.metrics.requiredFailed == a.metrics.requiredFailed + 1
                     && b.metrics.optionalFailed == a.metrics.optionalFailed
                else b.metrics.optionalFailed == a.metrics.optionalFailed + 1
                     && b.metrics.requiredFailed == a.metrics.requiredFailed)
  {
  }

  /** A timeout fails the run at this command, whatever may be passed over, and ends the session. */
  lemma TimedOutAnswer(config: Config, a: App)
    requires WaitsFor(a)
    ensures var b := HandleTimeout(config, a, Eng.Expire(a.engine));
            && b.index == a.index && b.state == RunFailed && b.engine.indeterminate
            && b.metrics.failed == a.metrics.failed + 1 && b.metrics.timeouts == a.metrics.timeouts + 1
  {
  }

  /** A reply that is no answer leaves the run where it is. */
  lemma NoAnswer(config: Config, a: App, kind: Eng.ResponseKind, target: Option<MessageIdentity>)
    requires WaitsFor(a) && kind in [Eng.NoKind, Eng.Timeout]
    ensures var b := ApplyReply(config, a, kind, target);
            b == a.(engine := b.engine) && b.engine.current == a.engine.current
  {
  }
}
