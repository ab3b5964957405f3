// The provider circuit breaker: a timed state machine shared by cloned adapters, and the serial use of it.

module Circuit {
  import opened Options
  import opened Texts

  datatype Config = Config(threshold: nat, cooldown: nat)

  /** What `CircuitBreaker::new` can build: a failure threshold that is a nonzero u32. */
  predicate ValidConfig(c: Config) {
    1 <= c.threshold <= U32_MAX
  }

  datatype State = State(failures: nat, openedAt: Option<nat>)

  const CLOSED := State(0, None)

  datatype Event = Permit(now: nat) | Success | Failure(now: nat)

  /** `Instant::elapsed` never goes below zero. */
  function Elapsed(since: nat, now: nat): nat {
    if now < since then 0 else now - since
  }

  predicate Admits(c: Config, s: State, now: nat) {
    s.openedAt.None? || Elapsed(s.openedAt.value, now) >= c.cooldown
  }

  function Step(c: Config, s: State, e: Event): State {
    match e
    case Permit(now) => if s.openedAt.Some? && Admits(c, s, now) then CLOSED else s
    case Success => CLOSED
    case Failure(now) =>
      var failures := if s.failures == U32_MAX then U32_MAX else s.failures + 1;
      State(failures, if failures >= c.threshold then Some(now) else s.openedAt)
  }

  function Run(c: Config, s: State, events: seq<Event>): State
    decreases |events|
  {
    if events == [] then s else Run(c, Step(c, s, events[0]), events[1..])
  }

  class CircuitBreaker {
    const threshold: nat
    const cooldown: nat
    var consecutiveFailures: nat
    var openedAt: Option<nat>

    ghost predicate Valid()
      reads this
    {
      ValidConfig(Limits()) && consecutiveFailures <= U32_MAX
    }

    ghost function Limits(): Config {
      Config(threshold, cooldown)
    }

    ghost function Current(): State
      reads this
    {
      State(consecutiveFailures, openedAt)
    }

    constructor (threshold: nat, cooldown: nat)
      requires threshold <= U32_MAX
      ensures Valid() && Current() == CLOSED
      ensures this.threshold == (if threshold == 0 then 1 else threshold) && this.cooldown == cooldown
    {
      this.threshold := if threshold < 1 then 1 else threshold;
      this.cooldown := cooldown;
      consecutiveFailures, openedAt := 0, None;
    }

    method PermitCall(now: nat) returns (admitted: bool)
      requires Valid()
      modifies this
      ensures Valid() && admitted == Admits(Limits(), old(Current()), now)
      ensures Current() == Step(Limits(), old(Current()), Permit(now))
    {
      if openedAt.Some? {
        if Elapsed(openedAt.value, now) < cooldown {
          return false;
        }
        openedAt := None;
        consecutiveFailures := 0;
      }
      return true;
    }

    method RecordSuccess()
      requires Valid()
      modifies this
      ensures Valid() && Current() == Step(Limits(), old(Current()), Success)
    {
      consecutiveFailures, openedAt := 0, None;
    }

    method RecordFailure(now: nat)
      requires Valid()
      modifies this
      ensures Valid() && Current() == Step(Limits(), old(Current()), Failure(now))
    {
      consecutiveFailures := if consecutiveFailures == U32_MAX then U32_MAX else consecutiveFailures + 1;
      if consecutiveFailures >= threshold {
        openedAt := Some(now);
      }
    }
  }

  // ---------- any interleaving of the three operations ----------

  /** Open exactly when the failure count has reached the threshold. */
  predicate Consistent(c: Config, s: State) {
    s.failures <= U32_MAX && (s.openedAt.Some? <==> s.failures >= c.threshold)
  }

  /** The time of the last failure recorded, if any. */
  function LastFailure(events: seq<Event>): Option<nat> {
    if events == [] then None
    else
      var e := events[|events| - 1];
      if e.Failure? then Some(e.now) else LastFailure(events[..|events| - 1])
  }

  lemma {:induction false} RunSnoc(c: Config, s: State, events: seq<Event>, e: Event)
    ensures Run(c, s, events + [e]) == Step(c, Run(c, s, events), e)
    decreases |events|
  {
    if events == [] {
      assert events + [e] == [e] && [e][1..] == [];
    } else {
      assert (events + [e])[1..] == events[1..] + [e];
      RunSnoc(c, Step(c, s, events[0]), events[1..], e);
    }
  }

  /** In every state that any interleaving of the operations reaches, whatever the clock readings, the
      circuit is open exactly when the count has reached the threshold, and then since the last failure. */
  lemma {:induction false} OpenExactlyAtThreshold(c: Config, events: seq<Event>)
    requires ValidConfig(c)
    ensures var s := Run(c, CLOSED, events);
      && Consistent(c, s)
      && (s.openedAt.Some? ==> s.openedAt == LastFailure(events))
  {
    if events != [] {
      var n := |events| - 1;
      OpenExactlyAtThreshold(c, events[..n]);
      RunSnoc(c, CLOSED, events[..n], events[n]);
      assert events == events[..n] + [events[n]];
    }
  }

  /** Failures since the last success, or since the last call that was let in as a probe of an open circuit. */
  function FailuresSince(c: Config, events: seq<Event>): nat
    decreases |events|
  {
    if events == [] then 0
    else
      var before, e := events[..|events| - 1], events[|events| - 1];
      match e
      case Success => 0
      case Failure(_) => FailuresSince(c, before) + 1
      case Permit(now) =>
        var s := Run(c, CLOSED, before);
        if s.openedAt.Some? && Elapsed(s.openedAt.value, now) >= c.cooldown then 0 else FailuresSince(c, before)
  }

  /** Under any interleaving the count is the number of those failures, as far as 32 bits go. */
  lemma {:induction false} CountIsFailuresSince(c: Config, events: seq<Event>)
    ensures Run(c, CLOSED, events).failures == if FailuresSince(c, events) > U32_MAX then U32_MAX else FailuresSince(c, events)
    decreases |events|
  {
    if events != [] {
      var n := |events| - 1;
      CountIsFailuresSince(c, events[..n]);
      RunSnoc(c, CLOSED, events[..n], events[n]);
      assert events == events[..n] + [events[n]];
    }
  }

  /** A call is turned away exactly when the threshold is reached and the last failure is less than a
      cooldown ago. */
  lemma RejectedExactly(c: Config, events: seq<Event>, now: nat)
    requires ValidConfig(c)
    ensures var s := Run(c, CLOSED, events);
      !Admits(c, s, now) <==>
        s.failures >= c.threshold && LastFailure(events).Some? && Elapsed(LastFailure(events).value, now) < c.cooldown
  {
    OpenExactlyAtThreshold(c, events);
  }

  // ---------- the serial protocol ----------

  /** One operation of a managed process: when it asks, when it ends and how. */
  datatype Call = Call(permitAt: nat, outcomeAt: nat, succeeded: bool)

  function Outcome(call: Call): Event {
    if call.succeeded then Success else Failure(call.outcomeAt)
  }

  function Perform(c: Config, s: State, call: Call): State {
    if Admits(c, s, call.permitAt) then Step(c, Step(c, s, Permit(call.permitAt)), Outcome(call)) else s
  }

  class ManagedProcess {
    const circuit: CircuitBreaker

    constructor (threshold: nat, cooldown: nat)
      requires threshold <= U32_MAX
      ensures circuit.Valid() && fresh(circuit) && circuit.Current() == CLOSED
      ensures circuit.threshold == (if threshold == 0 then 1 else threshold) && circuit.cooldown == cooldown
    {
      circuit := new CircuitBreaker(threshold, cooldown);
    }

    /** `call.outcomeAt` and `call.succeeded` stand for what the process does once it is started. */
    method RunOperation(call: Call) returns (result: Option<bool>)
      requires circuit.Valid()
      modifies circuit
      ensures circuit.Valid()
      ensures circuit.Current() == Perform(circuit.Limits(), old(circuit.Current()), call)
      ensures result == if Admits(circuit.Limits(), old(circuit.Current()), call.permitAt) then Some(call.succeeded) else None
    {
      var admitted := circuit.PermitCall(call.permitAt);
      if !admitted {
        return None;
      }
      if call.succeeded {
        circuit.RecordSuccess();
      } else {
        circuit.RecordFailure(call.outcomeAt);
      }
      return Some(call.succeeded);
    }
  }
}
