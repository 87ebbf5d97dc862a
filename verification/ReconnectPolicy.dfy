/**
 The NTRIP back-off, `gnss_ntrip/src/ntrip_reconnect_policy.cpp`. The multiplier is an exact real;
 counters, delays and times have the widths of the source.
 */
module ReconnectPolicy {
  import opened Bits

  const UINT32_END := 0x1_0000_0000
  const INT64_MAX := 0x7FFF_FFFF_FFFF_FFFF
  const NANOSECONDS_PER_MILLISECOND := 1_000_000

  type UInt32 = n: int | 0 <= n < 0x1_0000_0000
  type Time = t: int | -0x8000_0000_0000_0000 <= t <= 0x7FFF_FFFF_FFFF_FFFF

  datatype Policy = Policy(
    enabled: bool, initialDelay: UInt32, maxDelay: UInt32, multiplier: real,
    maxAttempts: Option<UInt32>, resetAfterSuccess: bool)

  datatype State = State(
    attemptCount: UInt32, nextAttempt: Option<Time>, lastFailure: Option<Time>, lastSuccess: Option<Time>,
    currentDelay: UInt32, exhausted: bool)

  datatype Decision = Decision(
    scheduled: bool, canAttempt: bool, shouldReconnect: bool, attemptCount: UInt32, currentDelay: UInt32,
    exhausted: bool, nextAttempt: Option<Time>)

  const RESET := State(0, None, None, None, 0, false)

  function ClampDelay(policy: Policy, delay: nat): UInt32 {
    if delay < policy.maxDelay then delay else policy.maxDelay
  }

  function Ceiling(x: real): int {
    -((-x).Floor)
  }

  /** The first delay, or the last one times the multiplier (at least one), rounded up and capped. */
  function NextDelay(policy: Policy, state: State): UInt32 {
    if state.currentDelay == 0 then ClampDelay(policy, policy.initialDelay)
    else
      var multiplier := if policy.multiplier < 1.0 then 1.0 else policy.multiplier;
      GrowsBy(state.currentDelay, multiplier);
      var scaled := Ceiling(state.currentDelay as real * multiplier);
      ClampDelay(policy, if scaled > UINT32_END - 1 then UINT32_END - 1 else scaled)
  }

  lemma GrowsBy(delay: nat, multiplier: real)
    requires multiplier >= 1.0
    ensures Ceiling(delay as real * multiplier) >= delay
  {
    assert delay as real * (multiplier - 1.0) >= 0.0;
    assert delay as real * multiplier == delay as real * (multiplier - 1.0) + delay as real;
  }

  function ComputeNextAttemptTime(now: Time, delay: UInt32): Time {
    if delay == 0 then now
    else if now >= INT64_MAX - delay * NANOSECONDS_PER_MILLISECOND then INT64_MAX
    else now + delay * NANOSECONDS_PER_MILLISECOND
  }

  predicate CanAttempt(policy: Policy, state: State) {
    policy.enabled && !state.exhausted
    && (policy.maxAttempts == None || state.attemptCount < policy.maxAttempts.value)
  }

  predicate ShouldReconnect(policy: Policy, state: State, now: Time) {
    policy.enabled && state.nextAttempt.Some? && now >= state.nextAttempt.value
  }

  predicate UsedUp(policy: Policy, attempts: int) {
    policy.maxAttempts.Some? && attempts >= policy.maxAttempts.value
  }

  function DecisionFor(policy: Policy, state: State, scheduled: bool, now: Time): Decision {
    Decision(scheduled, CanAttempt(policy, state), ShouldReconnect(policy, state, now), state.attemptCount,
             state.currentDelay, state.exhausted, state.nextAttempt)
  }

  predicate Schedules(policy: Policy, state: State) {
    CanAttempt(policy, state)
  }

  function AfterFailure(policy: Policy, state: State, now: Time): State {
    var seen := state.(lastFailure := Some(now));
    if !policy.enabled then seen.(exhausted := false, nextAttempt := None)
    else if !CanAttempt(policy, seen) then
      seen.(exhausted := UsedUp(policy, seen.attemptCount), nextAttempt := None)
    else
      var delay, attempts := NextDelay(policy, seen), (seen.attemptCount + 1) % UINT32_END;
      seen.(currentDelay := delay, attemptCount := attempts, exhausted := UsedUp(policy, attempts),
            nextAttempt := Some(ComputeNextAttemptTime(now, delay)))
  }

  function AfterSuccess(policy: Policy, state: State, now: Time): State {
    if policy.resetAfterSuccess then RESET.(lastSuccess := Some(now))
    else state.(lastSuccess := Some(now), exhausted := false, nextAttempt := None)
  }

  // ----- The state object ------------------------------------------------------------------

  class NtripReconnectState {
    var attemptCount: UInt32
    var nextAttempt: Option<Time>
    var lastFailure: Option<Time>
    var lastSuccess: Option<Time>
    var currentDelay: UInt32
    var exhausted: bool

    ghost function Value(): State
      reads this
    {
      State(attemptCount, nextAttempt, lastFailure, lastSuccess, currentDelay, exhausted)
    }

    constructor ()
      ensures Value() == RESET
    {
      attemptCount, nextAttempt, lastFailure, lastSuccess, currentDelay, exhausted := 0, None, None, None, 0, false;
    }

    method Reset()
      modifies this
      ensures Value() == RESET
    {
      attemptCount, nextAttempt, lastFailure, lastSuccess, currentDelay, exhausted := 0, None, None, None, 0, false;
    }

    /** The fields as one value, for the policy's questions. */
    function Snapshot(): (s: State)
      reads this
      ensures s == Value()
    {
      State(attemptCount, nextAttempt, lastFailure, lastSuccess, currentDelay, exhausted)
    }
  }

  method OnFailure(policy: Policy, state: NtripReconnectState, now: Time) returns (decision: Decision)
    modifies state
    ensures state.Value() == AfterFailure(policy, old(state.Value()), now)
    ensures decision == DecisionFor(policy, state.Value(), Schedules(policy, old(state.Value())), now)
  {
    state.lastFailure := Some(now);
    if !policy.enabled {
      state.exhausted := false;
      state.nextAttempt := None;
      return DecisionFor(policy, state.Snapshot(), false, now);
    }
    if !CanAttempt(policy, state.Snapshot()) {
      state.exhausted := policy.maxAttempts.Some? && state.attemptCount >= policy.maxAttempts.value;
      state.nextAttempt := None;
      return DecisionFor(policy, state.Snapshot(), false, now);
    }
    state.currentDelay := NextDelay(policy, state.Snapshot());
    state.attemptCount := (state.attemptCount + 1) % UINT32_END;
    state.exhausted := policy.maxAttempts.Some? && state.attemptCount >= policy.maxAttempts.value;
    state.nextAttempt := Some(ComputeNextAttemptTime(now, state.currentDelay));
    return DecisionFor(policy, state.Snapshot(), true, now);
  }

  method OnSuccess(policy: Policy, state: NtripReconnectState, now: Time)
    modifies state
    ensures state.Value() == AfterSuccess(policy, old(state.Value()), now)
  {
    if policy.resetAfterSuccess {
      state.Reset();
      state.lastSuccess := Some(now);
      return;
    }
    state.lastSuccess := Some(now);
    state.exhausted := false;
    state.nextAttempt := None;
  }

  // ----- Whole runs ------------------------------------------------------------------------

  datatype Event = Failure(now: Time) | Success(now: Time)

  function Step(policy: Policy, state: State, event: Event): State {
    match event
    case Failure(now) => AfterFailure(policy, state, now)
    case Success(now) => AfterSuccess(policy, state, now)
  }

  /** The state after a list of events, from `start` on. */
  function Run(policy: Policy, start: State, events: seq<Event>): State {
    if events == [] then start
    else Step(policy, Run(policy, start, events[..|events| - 1]), events[|events| - 1])
  }

  /** How many of the failures scheduled another attempt. */
  function Scheduled(policy: Policy, start: State, events: seq<Event>): nat {
    if events == [] then 0
    else
      var n := |events| - 1;
      Scheduled(policy, start, events[..n])
      + (if events[n].Failure? && Schedules(policy, Run(policy, start, events[..n])) then 1 else 0)
  }

  function Failures(events: seq<Event>): nat {
    if events == [] then 0
    else Failures(events[..|events| - 1]) + (if events[|events| - 1].Failure? then 1 else 0)
  }

  /** No event of the list resets the back-off. */
  predicate NoReset(policy: Policy, events: seq<Event>) {
    policy.resetAfterSuccess ==> forall i :: 0 <= i < |events| ==> events[i].Failure?
  }

  /** What one policy keeps in every state it reaches from a reset. */
  predicate Kept(policy: Policy, state: State) {
    && state.currentDelay <= policy.maxDelay
    && (policy.maxAttempts.Some? ==>
          && state.attemptCount <= policy.maxAttempts.value
          && (state.exhausted ==> state.attemptCount == policy.maxAttempts.value))
    && (policy.maxAttempts == None ==> !state.exhausted)
  }

  lemma StepKeeps(policy: Policy, state: State, event: Event)
    requires Kept(policy, state)
    ensures Kept(policy, Step(policy, state, event))
    ensures NoReset(policy, [event]) ==> Step(policy, state, event).currentDelay >= state.currentDelay
  {
    if event.Failure? && state.currentDelay != 0 {
      var multiplier := if policy.multiplier < 1.0 then 1.0 else policy.multiplier;
      GrowsBy(state.currentDelay, multiplier);
    }
    assert event == [event][0];
    hide Ceiling;
  }

  lemma {:induction false} RunKeeps(policy: Policy, start: State, events: seq<Event>)
    requires Kept(policy, start)
    ensures Kept(policy, Run(policy, start, events))
  {
    if events != [] {
      RunKeeps(policy, start, events[..|events| - 1]);
      StepKeeps(policy, Run(policy, start, events[..|events| - 1]), events[|events| - 1]);
    }
  }

  /** As built, or as a success left it that resets the back-off. */
  predicate IsReset(state: State) {
    state.attemptCount == 0 && state.currentDelay == 0 && !state.exhausted && state.nextAttempt == None
  }

  lemma ResetsAreResets(policy: Policy, state: State, now: Time)
    ensures IsReset(RESET)
    ensures policy.resetAfterSuccess ==> IsReset(AfterSuccess(policy, state, now))
  {
  }

  /** From a reset, the delay never exceeds the maximum, and without another reset it never decreases. */
  lemma {:induction false} DelaysNeverDecrease(policy: Policy, start: State, before: seq<Event>, after: seq<Event>)
    requires IsReset(start) && NoReset(policy, after)
    ensures Run(policy, start, before).currentDelay
         <= Run(policy, start, before + after).currentDelay
         <= policy.maxDelay
    decreases |after|
  {
    hide Step, Kept;
    RunKeeps(policy, start, before) by { ResetIsKept(policy, start); }
    if after == [] {
      assert before + after == before;
      KeptDelay(policy, Run(policy, start, before));
    } else {
      var n := |after| - 1;
      var earlier, last := before + after[..n], after[n];
      assert (before + after)[..|before| + n] == earlier && (before + after)[|before| + n] == last;
      DelaysNeverDecrease(policy, start, before, after[..n]);
      ResetIsKept(policy, start);
      RunKeeps(policy, start, earlier);
      StepKeeps(policy, Run(policy, start, earlier), last);
      KeptDelay(policy, Step(policy, Run(policy, start, earlier), last));
    }
  }

  lemma ResetIsKept(policy: Policy, start: State)
    requires IsReset(start)
    ensures Kept(policy, start)
  {
  }

  lemma KeptDelay(policy: Policy, state: State)
    requires Kept(policy, state)
    ensures state.currentDelay <= policy.maxDelay
  {
  }

  /** One event under a bounded policy: a failure schedules, and is counted, as long as there are attempts left. */
  lemma CountStep(policy: Policy, state: State, event: Event)
    requires Kept(policy, state) && policy.enabled && policy.maxAttempts.Some? && NoReset(policy, [event])
    ensures var counted := event.Failure? && state.attemptCount < policy.maxAttempts.value;
            && Step(policy, state, event).attemptCount == state.attemptCount + (if counted then 1 else 0)
            && (event.Failure? ==> (Schedules(policy, state) <==> counted))
  {
    hide NextDelay, ComputeNextAttemptTime;
    assert event == [event][0];
  }

  lemma ScheduledStep(policy: Policy, start: State, events: seq<Event>)
    requires events != []
    ensures var n := |events| - 1;
            var s := Run(policy, start, events[..n]);
            && Run(policy, start, events) == Step(policy, s, events[n])
            && Scheduled(policy, start, events)
               == Scheduled(policy, start, events[..n]) + (if events[n].Failure? && Schedules(policy, s) then 1 else 0)
            && Failures(events) == Failures(events[..n]) + (if events[n].Failure? then 1 else 0)
            && (NoReset(policy, events) ==> NoReset(policy, events[..n]) && NoReset(policy, [events[n]]))
  {
    hide Step, Schedules;
  }

  lemma {:induction false} CountsFailures(policy: Policy, start: State, events: seq<Event>)
    requires IsReset(start) && policy.enabled && policy.maxAttempts.Some? && NoReset(policy, events)
    ensures Scheduled(policy, start, events) == Run(policy, start, events).attemptCount
    ensures Run(policy, start, events).attemptCount
         == if Failures(events) < policy.maxAttempts.value then Failures(events) else policy.maxAttempts.value
    ensures Kept(policy, Run(policy, start, events))
  {
    if events == [] {
      ResetIsKept(policy, start);
    } else {
      hide *;
      var n := |events| - 1;
      ScheduledStep(policy, start, events);
      CountsFailures(policy, start, events[..n]);
      StepKeeps(policy, Run(policy, start, events[..n]), events[n]);
      CountStep(policy, Run(policy, start, events[..n]), events[n]);
    }
  }

  /**
   From a reset under an enabled policy, until the next reset: every failure schedules an attempt
   until `maxAttempts` of them have, and none does after that.
   */
  lemma AttemptsAreBounded(policy: Policy, start: State, events: seq<Event>)
    requires IsReset(start) && policy.enabled && policy.maxAttempts.Some? && NoReset(policy, events)
    ensures var m := policy.maxAttempts.value;
            && Scheduled(policy, start, events) == (if Failures(events) < m then Failures(events) else m)
            && (Schedules(policy, Run(policy, start, events)) <==> Failures(events) < m)
  {
    CountsFailures(policy, start, events);
    var s := Run(policy, start, events);
    assert s.exhausted ==> s.attemptCount == policy.maxAttempts.value;
    hide Run, Scheduled;
  }

  /** A policy without a bound always schedules, and a disabled one never. */
  lemma {:induction false} Unbounded(policy: Policy, start: State, events: seq<Event>)
    requires IsReset(start)
    ensures policy.enabled && policy.maxAttempts == None ==> Scheduled(policy, start, events) == Failures(events)
    ensures !policy.enabled ==> Scheduled(policy, start, events) == 0
  {
    if events != [] {
      var n := |events| - 1;
      Unbounded(policy, start, events[..n]);
      ResetIsKept(policy, start);
      RunKeeps(policy, start, events[..n]);
      hide Run;
    }
  }

  /** A scheduled attempt is exactly the delay after the failure, or the end of time if that is sooner. */
  lemma NextAttemptIsNotEarlier(policy: Policy, state: State, now: Time)
    requires Schedules(policy, state)
    ensures var after := AfterFailure(policy, state, now);
            && after.nextAttempt.Some?
            && now <= after.nextAttempt.value
            && after.nextAttempt.value
               == (if now + after.currentDelay * 1_000_000 < 0x7FFF_FFFF_FFFF_FFFF
                   then now + after.currentDelay * 1_000_000 else 0x7FFF_FFFF_FFFF_FFFF)
            && forall later: Time :: ShouldReconnect(policy, after, later) <==> later >= after.nextAttempt.value
  {
    hide NextDelay;
  }

  // ----- How fast the delay grows ------------------------------------------------------------

  function Least(a: real, b: real): real {
    if a < b then a else b
  }

  function Factor(policy: Policy): (m: real)
    ensures m >= 1.0
  {
    if policy.multiplier < 1.0 then 1.0 else policy.multiplier
  }

  function PowerOf(m: real, k: nat): real {
    if k == 0 then 1.0 else PowerOf(m, k - 1) * m
  }

  /** The k-th delay if nothing were rounded or capped: the first one times the factor, k - 1 times. */
  function Ideal(policy: Policy, k: nat): (x: real)
    requires k >= 1
  {
    policy.initialDelay as real * PowerOf(Factor(policy), k - 1)
  }

  function Grown(policy: Policy, x: real): real {
    x * Factor(policy)
  }

  lemma IdealStep(policy: Policy, k: nat)
    requires k >= 1
    ensures Ideal(policy, k + 1) == Grown(policy, Ideal(policy, k))
    ensures Ideal(policy, 1) == policy.initialDelay as real
  {
    var a, b, m := policy.initialDelay as real, PowerOf(Factor(policy), k - 1), Factor(policy);
    assert PowerOf(m, k) == b * m;
    Regroup(a, b, m);
    assert PowerOf(m, 0) == 1.0;
  }

  lemma Regroup(a: real, b: real, m: real)
    ensures a * (b * m) == (a * b) * m
  {
  }

  lemma NotNegative(a: real, m: real)
    requires a >= 0.0 && m >= 1.0
    ensures a * m >= a
  {
    assert a * (m - 1.0) >= 0.0;
  }

  lemma Larger(a: real, b: real, m: real)
    requires a <= b && m >= 1.0
    ensures a * m <= b * m
  {
  }

  /** One more delay: the last one times the factor, rounded up to a whole millisecond, and capped. */
  lemma NextDelayBounds(policy: Policy, state: State)
    requires state.currentDelay > 0
    ensures var exact, next := Grown(policy, state.currentDelay as real), NextDelay(policy, state);
            && Least(policy.maxDelay as real, exact) <= next as real <= policy.maxDelay as real
            && (next < policy.maxDelay ==> (next as real) < exact + 1.0)
  {
    var exact := state.currentDelay as real * Factor(policy);
    GrowsBy(state.currentDelay, Factor(policy));
    assert exact <= Ceiling(exact) as real < exact + 1.0;
  }

  /** Whole numbers are not rounded. */
  lemma NextDelayExact(policy: Policy, state: State, factor: nat)
    requires state.currentDelay > 0 && Factor(policy) == factor as real
    ensures var exact := state.currentDelay * factor;
            NextDelay(policy, state) == if exact < policy.maxDelay then exact else policy.maxDelay
  {
    GrowsBy(state.currentDelay, Factor(policy));
    WholeProduct(state.currentDelay, factor);
  }

  lemma WholeProduct(a: nat, b: nat)
    ensures a as real * b as real == (a * b) as real && Ceiling((a * b) as real) == a * b
  {
  }

  predicate AllFailures(events: seq<Event>) {
    forall e :: e in events ==> e.Failure?
  }

  lemma {:induction false} AllCounted(events: seq<Event>)
    requires AllFailures(events)
    ensures Failures(events) == |events|
  {
    if events != [] {
      var n := |events| - 1;
      assert events[n] in events && forall e :: e in events[..n] ==> e in events;
      AllCounted(events[..n]);
    }
  }

  /** As long as attempts are left, each failure in a row moves to the next delay. */
  lemma FailureMovesOn(policy: Policy, start: State, events: seq<Event>)
    requires IsReset(start) && policy.enabled && events != [] && AllFailures(events)
    requires policy.maxAttempts.Some? ==> |events| <= policy.maxAttempts.value
    ensures var before := Run(policy, start, events[..|events| - 1]);
            Run(policy, start, events).currentDelay == NextDelay(policy, before)
  {
    var n := |events| - 1;
    var front := events[..n];
    assert events[n] in events && forall e :: e in front ==> e in events;
    AllCounted(front);
    ResetIsKept(policy, start);
    RunKeeps(policy, start, front);
    if policy.maxAttempts.Some? {
      assert NoReset(policy, front);
      CountsFailures(policy, start, front);
    }
    MovesOn(policy, Run(policy, start, front), events[n].now);
    hide *;
    ScheduledStep(policy, start, events);
    FailureStep(policy, Run(policy, start, front), events[n]);
  }

  lemma FailureStep(policy: Policy, state: State, event: Event)
    requires event.Failure?
    ensures Step(policy, state, event) == AfterFailure(policy, state, event.now)
  {
    hide AfterFailure;
  }

  lemma MovesOn(policy: Policy, state: State, now: Time)
    requires policy.enabled && Kept(policy, state)
    requires policy.maxAttempts.Some? ==> state.attemptCount < policy.maxAttempts.value
    ensures AfterFailure(policy, state, now).currentDelay == NextDelay(policy, state)
  {
    hide ComputeNextAttemptTime;
    assert NextDelay(policy, state.(lastFailure := Some(now))) == NextDelay(policy, state);
    hide NextDelay;
  }

  lemma NotPositive(x: real, m: real)
    requires x <= 0.0 && m >= 1.0
    ensures x * m <= 0.0
  {
  }

  lemma GrownUp(policy: Policy, x: real)
    requires x >= 0.0
    ensures Grown(policy, x) >= x
  {
    hide Factor;
    NotNegative(x, Factor(policy));
  }

  lemma GrownDown(policy: Policy, x: real)
    requires x <= 0.0
    ensures Grown(policy, x) <= 0.0
  {
    hide Factor;
    NotPositive(x, Factor(policy));
  }

  lemma GrownKeepsOrder(policy: Policy, x: real, y: real)
    requires x <= y
    ensures Grown(policy, x) <= Grown(policy, y)
  {
    hide Factor;
    Larger(x, y, Factor(policy));
  }

  lemma GrowthStep(policy: Policy, state: State, x: real)
    requires state.currentDelay as real >= Least(policy.maxDelay as real, x)
    ensures NextDelay(policy, state) as real >= Least(policy.maxDelay as real, Grown(policy, x))
  {
    hide NextDelay, Factor, Grown;
    var d := state.currentDelay as real;
    GrownUp(policy, d);
    if x <= 0.0 {
      GrownDown(policy, x);
    }
    if x <= d {
      GrownKeepsOrder(policy, x, d);
    }
    if state.currentDelay > 0 {
      NextDelayBounds(policy, state);
    }
  }

  lemma FirstDelay(policy: Policy, start: State)
    requires IsReset(start)
    ensures NextDelay(policy, start) as real == Least(policy.maxDelay as real, Ideal(policy, 1))
  {
    IdealStep(policy, 1);
    hide Ideal;
  }

  /**
   From a reset, the k-th failure in a row waits at least the first delay times the factor to the power
   k - 1, or the maximum: so the delay does grow, and as fast as the multiplier says.
   */
  lemma {:induction false} DelayGrows(policy: Policy, start: State, events: seq<Event>)
    requires IsReset(start) && policy.enabled && events != [] && AllFailures(events)
    requires policy.maxAttempts.Some? ==> |events| <= policy.maxAttempts.value
    ensures Run(policy, start, events).currentDelay as real >= Least(policy.maxDelay as real, Ideal(policy, |events|))
    decreases |events|
  {
    var n := |events| - 1;
    FailureMovesOn(policy, start, events);
    var front := events[..n];
    assert n == 0 ==> Run(policy, start, front) == start;
    assert AllFailures(front) by { FewerFailures(events, n); }
    hide *;
    if n == 0 {
      FirstDelay(policy, start);
    } else {
      DelayGrows(policy, start, front);
      IdealStep(policy, n);
      GrowthStep(policy, Run(policy, start, front), Ideal(policy, n));
    }
  }

  lemma FewerFailures(events: seq<Event>, n: nat)
    requires AllFailures(events) && n <= |events|
    ensures AllFailures(events[..n])
  {
    assert forall e :: e in events[..n] ==> e in events;
  }

  function NatPower(m: nat, k: nat): nat {
    if k == 0 then 1 else NatPower(m, k - 1) * m
  }

  /** The k-th delay for a whole first delay and factor. */
  function Geometric(first: nat, factor: nat, k: nat): nat
    requires k >= 1
  {
    first * NatPower(factor, k - 1)
  }

  lemma GeometricStep(first: nat, factor: nat, k: nat)
    requires k >= 1
    ensures Geometric(first, factor, k + 1) == Geometric(first, factor, k) * factor
    ensures Geometric(first, factor, 1) == first
  {
    var b := NatPower(factor, k - 1);
    assert NatPower(factor, k) == b * factor && NatPower(factor, 0) == 1;
    assert first * (b * factor) == (first * b) * factor;
  }

  lemma GeometricGrows(x: nat, factor: nat)
    requires factor >= 1
    ensures x * factor >= x
  {
  }

  lemma ExactStep(policy: Policy, state: State, factor: nat, x: nat)
    requires Factor(policy) == factor as real
    requires state.currentDelay == if x < policy.maxDelay then x else policy.maxDelay
    requires x == 0 ==> policy.initialDelay == 0
    ensures NextDelay(policy, state) == if x * factor < policy.maxDelay then x * factor else policy.maxDelay
  {
    if state.currentDelay > 0 {
      NextDelayExact(policy, state, factor);
      hide NextDelay, Factor;
      GeometricGrows(x, factor);
      GeometricGrows(state.currentDelay, factor);
    } else {
      hide Factor;
      if x == 0 {
        assert x * factor == 0;
      } else {
        assert policy.maxDelay == 0;
        GeometricGrows(x, factor);
      }
    }
  }

  /** With a whole multiplier the delays are exactly the geometric sequence, capped. */
  lemma {:induction false} DelayIsGeometric(policy: Policy, start: State, events: seq<Event>, factor: nat)
    requires IsReset(start) && policy.enabled && events != [] && AllFailures(events)
    requires policy.maxAttempts.Some? ==> |events| <= policy.maxAttempts.value
    requires factor >= 1 && policy.multiplier == factor as real
    ensures var ideal := Geometric(policy.initialDelay, factor, |events|);
            Run(policy, start, events).currentDelay == if ideal < policy.maxDelay then ideal else policy.maxDelay
    decreases |events|
  {
    var n := |events| - 1;
    FailureMovesOn(policy, start, events);
    var front := events[..n];
    assert n == 0 ==> Run(policy, start, front) == start;
    assert AllFailures(front) by { FewerFailures(events, n); }
    assert Factor(policy) == factor as real;
    FirstIsClamped(policy, start);
    hide *;
    GeometricStep(policy.initialDelay, factor, if n >= 1 then n else 1);
    if n > 0 {
      DelayIsGeometric(policy, start, front, factor);
      GeometricVanishes(policy.initialDelay, factor, n);
      ExactStep(policy, Run(policy, start, front), factor, Geometric(policy.initialDelay, factor, n));
    }
  }

  lemma FirstIsClamped(policy: Policy, start: State)
    requires IsReset(start)
    ensures NextDelay(policy, start)
         == if policy.initialDelay < policy.maxDelay then policy.initialDelay else policy.maxDelay
  {
  }

  lemma {:induction false} GeometricVanishes(first: nat, factor: nat, k: nat)
    requires k >= 1 && factor >= 1
    ensures Geometric(first, factor, k) == 0 ==> first == 0
  {
    GeometricStep(first, factor, if k > 1 then k - 1 else 1);
    if k > 1 {
      GeometricVanishes(first, factor, k - 1);
      GeometricGrows(Geometric(first, factor, k - 1), factor);
    }
    hide Geometric;
  }
}
