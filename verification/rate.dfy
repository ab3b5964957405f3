// How many calls the provider circuit breaker lets in while nothing succeeds: with many callers in parallel,
// and as the special case of one at a time.

module CallRate {
  import opened Options
  import opened Texts
  import opened Circuit

  // ---------- arithmetic of rounds ----------

  lemma QuotientAtLeast(a: nat, d: nat, q: nat)
    requires d > 0 && q * d <= a
    ensures q <= a / d
  {
    var r := a / d;
    assert a < d * r + d == (r + 1) * d;
    if r + 1 <= q {
      MultiplyMonotone(d, r + 1, q);
    }
  }

  lemma MultiplyMonotone(t: nat, x: int, y: int)
    requires x <= y
    ensures t * x <= t * y
  {
  }

  lemma Distribute(t: nat, x: int)
    ensures t * (x + 1) == t * x + t
  {
  }

  /** A number of calls for every whole cooldown. */
  function Rounds(perRound: nat, cooldown: nat, elapsed: nat): nat
    requires cooldown > 0
  {
    perRound * (elapsed / cooldown)
  }

  lemma RoundsMonotone(perRound: nat, cooldown: nat, a: nat, b: nat)
    requires cooldown > 0 && a <= b
    ensures Rounds(perRound, cooldown, a) <= Rounds(perRound, cooldown, b)
  {
    QuotientAtLeast(b, cooldown, a / cooldown);
    MultiplyMonotone(perRound, a / cooldown, b / cooldown);
  }

  lemma RoundsLater(perRound: nat, cooldown: nat, last: nat, from: nat, since: nat)
    requires cooldown > 0 && since + cooldown <= from <= last
    ensures Rounds(perRound, cooldown, last - from) + perRound <= Rounds(perRound, cooldown, last - since)
  {
    var q := (last - from) / cooldown;
    Distribute(cooldown, q);
    QuotientAtLeast(last - since, cooldown, q + 1);
    MultiplyMonotone(perRound, q + 1, (last - since) / cooldown);
    Distribute(perRound, q);
  }

  // ---------- callers in parallel ----------

  /** The circuit together with the number of admitted calls whose outcome is still to come. */
  datatype Traffic = Traffic(circuit: State, inFlight: nat)

  const IDLE := Traffic(CLOSED, 0)

  predicate LetsIn(c: Config, t: Traffic, e: Event) {
    e.Permit? && Admits(c, t.circuit, e.now)
  }

  /** At most n calls are in flight at a time, and only a call in flight has an outcome. */
  predicate Possible(c: Config, n: nat, t: Traffic, e: Event) {
    if e.Permit? then LetsIn(c, t, e) ==> t.inFlight < n else t.inFlight > 0
  }

  function Move(c: Config, t: Traffic, e: Event): Traffic {
    Traffic(Step(c, t.circuit, e),
            if LetsIn(c, t, e) then t.inFlight + 1
            else if e.Permit? || t.inFlight == 0 then t.inFlight
            else t.inFlight - 1)
  }

  predicate IsRun(c: Config, n: nat, t: Traffic, events: seq<Event>)
    decreases |events|
  {
    events == [] || (Possible(c, n, t, events[0]) && IsRun(c, n, Move(c, t, events[0]), events[1..]))
  }

  function After(c: Config, t: Traffic, events: seq<Event>): Traffic
    decreases |events|
  {
    if events == [] then t else After(c, Move(c, t, events[0]), events[1..])
  }

  /** When the calls are let in. */
  function AdmittedAt(c: Config, t: Traffic, events: seq<Event>): seq<nat>
    decreases |events|
  {
    if events == [] then []
    else
      var rest := AdmittedAt(c, Move(c, t, events[0]), events[1..]);
      if LetsIn(c, t, events[0]) then [events[0].now] + rest else rest
  }

  /** No outcome is a success, and the clock does not go back. */
  predicate Failing(events: seq<Event>) {
    && (forall i | 0 <= i < |events| :: !events[i].Success?)
    && (forall i, j | 0 <= i < j < |events| :: events[i].now <= events[j].now)
  }

  lemma FailingTail(events: seq<Event>)
    requires Failing(events) && events != []
    ensures Failing(events[1..]) && !events[0].Success?
    ensures forall e | e in events[1..] :: !e.Success? && events[0].now <= e.now
  {
    var rest := events[1..];
    assert forall i | 0 <= i < |rest| :: rest[i] == events[i + 1];
  }

  /** All outcomes are failures, and all times are in order and not before an instant. */
  predicate FailingWithin(events: seq<Event>, from: nat) {
    Failing(events) && forall e | e in events :: !e.Success? && from <= e.now
  }

  predicate IsTraffic(c: Config, n: nat, t: Traffic) {
    Consistent(c, t.circuit) && t.inFlight <= n
  }

  lemma MoveIsTraffic(c: Config, n: nat, t: Traffic, e: Event)
    requires ValidConfig(c) && IsTraffic(c, n, t) && Possible(c, n, t, e)
    ensures IsTraffic(c, n, Move(c, t, e))
  {
  }

  lemma {:induction false} RunIsTraffic(c: Config, n: nat, t: Traffic, before: seq<Event>, events: seq<Event>)
    requires ValidConfig(c) && IsTraffic(c, n, t) && IsRun(c, n, t, before + events)
    ensures IsTraffic(c, n, After(c, t, before)) && IsRun(c, n, After(c, t, before), events)
    decreases |before|
  {
    hide Possible, Move, IsTraffic;
    if before == [] {
      assert before + events == events;
    } else {
      MoveIsTraffic(c, n, t, before[0]);
      assert (before + events)[1..] == before[1..] + events;
      RunIsTraffic(c, n, Move(c, t, before[0]), before[1..], events);
    }
  }

  /** How many calls a period in which the circuit is closed can let in when n may be in flight: all but the last
      failure of the period can have been replaced, and n - 1 are still out when it opens. */
  function PerRound(c: Config, n: nat): nat
    requires ValidConfig(c)
  {
    c.threshold + n - 1
  }

  /** How many more calls can be let in until the one at `last`: what is left of the period and a full one for
      each cooldown after `from`, or only the later periods when the circuit is open. */
  function Allowance(c: Config, n: nat, t: Traffic, from: nat, last: nat): int
    requires ValidConfig(c) && c.cooldown > 0
  {
    match t.circuit.openedAt
    case None =>
      if from <= last then PerRound(c, n) - t.circuit.failures - t.inFlight + Rounds(PerRound(c, n), c.cooldown, last - from)
      else 0
    case Some(since) => if since <= last then Rounds(PerRound(c, n), c.cooldown, last - since) else 0
  }

  predicate OpenedBefore(t: Traffic, now: nat) {
    t.circuit.openedAt.Some? ==> t.circuit.openedAt.value <= now
  }

  lemma AllowanceStep(c: Config, n: nat, t: Traffic, e: Event, from: nat, last: nat, more: nat)
    requires ValidConfig(c) && c.cooldown > 0 && IsTraffic(c, n, t) && Possible(c, n, t, e)
    requires !e.Success? && from <= e.now && OpenedBefore(t, from)
    requires if more == 0 then LetsIn(c, t, e) && last == e.now
             else e.now <= last && more <= Allowance(c, n, Move(c, t, e), e.now, last)
    ensures (if LetsIn(c, t, e) then 1 else 0) + more <= Allowance(c, n, t, from, last)
  {
    hide Rounds;
    var k := PerRound(c, n);
    RoundsMonotone(k, c.cooldown, last - e.now, last - from);
    if t.circuit.openedAt.Some? {
      var since := t.circuit.openedAt.value;
      RoundsMonotone(k, c.cooldown, last - e.now, last - since);
      if LetsIn(c, t, e) {
        RoundsLater(k, c.cooldown, last, e.now, since);
      }
    }
  }

  lemma {:induction false} WithinAllowance(c: Config, n: nat, t: Traffic, events: seq<Event>, from: nat)
    requires ValidConfig(c) && c.cooldown > 0 && IsTraffic(c, n, t) && IsRun(c, n, t, events)
    requires Failing(events) && (forall e | e in events :: !e.Success? && from <= e.now) && OpenedBefore(t, from)
    requires AdmittedAt(c, t, events) != []
    ensures var a := AdmittedAt(c, t, events); var last := a[|a| - 1];
      |a| <= Allowance(c, n, t, from, last) && from <= last
    decreases |events|
  {
    hide Allowance, Failing, IsTraffic, Possible;
    var e, rest := events[0], events[1..];
    var next := Move(c, t, e);
    var a, a' := AdmittedAt(c, t, events), AdmittedAt(c, next, rest);
    assert e in events;
    MoveIsTraffic(c, n, t, e);
    FailingTail(events);
    if a' != [] {
      MoveOpensNow(c, t, e, from);
      WithinAllowance(c, n, next, rest, e.now);
      assert a[|a| - 1] == a'[|a'| - 1];
    }
    AllowanceStep(c, n, t, e, from, a[|a| - 1], |a'|);
  }

  lemma MoveOpensNow(c: Config, t: Traffic, e: Event, from: nat)
    requires !e.Success? && from <= e.now && OpenedBefore(t, from)
    ensures OpenedBefore(Move(c, t, e), e.now)
  {
  }

  /** The times are at most so many for each cooldown begun between the first and the last. */
  predicate WithinRate(perRound: nat, cooldown: nat, times: seq<nat>)
    requires cooldown > 0
  {
    times != [] ==>
      var first, last := times[0], times[|times| - 1];
      first <= last && |times| <= perRound * ((last - first) / cooldown + 1)
  }

  lemma {:induction false} ParallelRateFrom(c: Config, n: nat, t: Traffic, events: seq<Event>)
    requires ValidConfig(c) && c.cooldown > 0 && IsTraffic(c, n, t) && IsRun(c, n, t, events) && Failing(events)
    ensures WithinRate(PerRound(c, n), c.cooldown, AdmittedAt(c, t, events))
    decreases |events|
  {
    hide Failing, IsTraffic, Possible, Move, WithinRate;
    if events != [] {
      var e, rest := events[0], events[1..];
      MoveIsTraffic(c, n, t, e);
      FailingTail(events);
      if LetsIn(c, t, e) {
        FirstLetIn(c, n, t, e, rest);
      } else {
        ParallelRateFrom(c, n, Move(c, t, e), rest);
      }
    } else {
      assert WithinRate(PerRound(c, n), c.cooldown, []) by { NoTimes(PerRound(c, n), c.cooldown); }
    }
  }

  lemma NoTimes(perRound: nat, cooldown: nat)
    requires cooldown > 0
    ensures WithinRate(perRound, cooldown, [])
  {
  }

  /** From the first call let in, the circuit is closed and the allowance begins to count. */
  lemma FirstLetIn(c: Config, n: nat, t: Traffic, e: Event, rest: seq<Event>)
    requires ValidConfig(c) && c.cooldown > 0 && IsTraffic(c, n, t) && Possible(c, n, t, e) && LetsIn(c, t, e)
    requires IsRun(c, n, Move(c, t, e), rest) && Failing(rest) && forall x | x in rest :: !x.Success? && e.now <= x.now
    ensures WithinRate(PerRound(c, n), c.cooldown, [e.now] + AdmittedAt(c, Move(c, t, e), rest))
  {
    var next, k := Move(c, t, e), PerRound(c, n);
    var a' := AdmittedAt(c, next, rest);
    var a := [e.now] + a';
    var last := a[|a| - 1];
    assert next.circuit.openedAt.None? && next.inFlight >= 1;
    hide IsRun, Failing, AdmittedAt, Move;
    if a' != [] {
      MoveIsTraffic(c, n, t, e);
      WithinAllowance(c, n, next, rest, e.now);
      assert last == a'[|a'| - 1];
    }
    Distribute(k, (last - e.now) / c.cooldown);
    assert |a| <= k + Rounds(k, c.cooldown, last - e.now);
  }

  /** The rate bound: with at most n calls in flight, while no call succeeds, at most threshold + n - 1 calls are
      let in for each cooldown begun between the first and the last of them, after any earlier run. */
  lemma ParallelRateBound(c: Config, n: nat, before: seq<Event>, events: seq<Event>)
    requires ValidConfig(c) && c.cooldown > 0 && n > 0
    requires IsRun(c, n, IDLE, before + events) && Failing(events)
    ensures var times := AdmittedAt(c, After(c, IDLE, before), events);
      times != [] ==>
        var first, last := times[0], times[|times| - 1];
        first <= last && |times| <= (c.threshold + n - 1) * ((last - first) / c.cooldown + 1)
  {
    hide IsRun, Failing, AdmittedAt;
    RunIsTraffic(c, n, IDLE, before, events);
    ParallelRateFrom(c, n, After(c, IDLE, before), events);
  }

  // ---------- one call at a time ----------

  /** One call after the other, by a clock that never goes back. */
  predicate Serial(calls: seq<Call>) {
    && (forall i | 0 <= i < |calls| :: calls[i].permitAt <= calls[i].outcomeAt)
    && (forall i, j | 0 <= i < j < |calls| :: calls[i].outcomeAt <= calls[j].permitAt)
  }

  /** The calls that are let through, in order. */
  function Admitted(c: Config, s: State, calls: seq<Call>): (r: seq<Call>)
    ensures |r| <= |calls|
    ensures forall call | call in r :: call in calls
    decreases |calls|
  {
    if calls == [] then []
    else
      var rest := Admitted(c, Perform(c, s, calls[0]), calls[1..]);
      if Admits(c, s, calls[0].permitAt) then [calls[0]] + rest else rest
  }

  lemma AdmittedCons(c: Config, s: State, calls: seq<Call>)
    requires calls != []
    ensures var call, rest := calls[0], calls[1..];
      Admitted(c, s, calls) ==
        if Admits(c, s, call.permitAt) then [call] + Admitted(c, Perform(c, s, call), rest) else Admitted(c, s, rest)
  {
  }

  predicate AllFail(calls: seq<Call>) {
    forall call | call in calls :: !call.succeeded
  }

  lemma SerialTail(calls: seq<Call>)
    requires Serial(calls) && calls != []
    ensures Serial(calls[1..]) && calls[0].permitAt <= calls[0].outcomeAt
    ensures forall call | call in calls[1..] :: calls[0].outcomeAt <= call.permitAt && calls[0].permitAt <= call.permitAt
  {
    var rest := calls[1..];
    assert forall i | 0 <= i < |rest| :: rest[i] == calls[i + 1];
  }

  /** What a serial run does to the circuit, event by event. */
  function EventsOf(c: Config, s: State, calls: seq<Call>): seq<Event>
    decreases |calls|
  {
    if calls == [] then []
    else if Admits(c, s, calls[0].permitAt)
    then [Permit(calls[0].permitAt), Outcome(calls[0])] + EventsOf(c, Perform(c, s, calls[0]), calls[1..])
    else [Permit(calls[0].permitAt)] + EventsOf(c, s, calls[1..])
  }

  function PermitTimes(calls: seq<Call>): (r: seq<nat>)
    ensures |r| == |calls|
  {
    seq(|calls|, i requires 0 <= i < |calls| => calls[i].permitAt)
  }

  lemma RunCons(c: Config, n: nat, t: Traffic, e: Event, rest: seq<Event>)
    ensures IsRun(c, n, t, [e] + rest) <==> Possible(c, n, t, e) && IsRun(c, n, Move(c, t, e), rest)
    ensures AdmittedAt(c, t, [e] + rest) ==
      (if LetsIn(c, t, e) then [e.now] + AdmittedAt(c, Move(c, t, e), rest) else AdmittedAt(c, Move(c, t, e), rest))
  {
    assert ([e] + rest)[1..] == rest;
  }

  lemma FailingCons(e: Event, rest: seq<Event>, from: nat)
    requires !e.Success? && from <= e.now && FailingWithin(rest, e.now)
    ensures FailingWithin([e] + rest, from)
  {
  }

  /** One call let in and failed, then the rest. */
  lemma FailedCall(c: Config, s: State, call: Call, rest: seq<Event>, from: nat)
    requires Admits(c, s, call.permitAt) && !call.succeeded && from <= call.permitAt <= call.outcomeAt
    requires IsRun(c, 1, Traffic(Perform(c, s, call), 0), rest) && FailingWithin(rest, call.outcomeAt)
    ensures var events := [Permit(call.permitAt), Outcome(call)] + rest;
      && IsRun(c, 1, Traffic(s, 0), events) && FailingWithin(events, from)
      && AdmittedAt(c, Traffic(s, 0), events) == [call.permitAt] + AdmittedAt(c, Traffic(Perform(c, s, call), 0), rest)
  {
    hide IsRun, AdmittedAt, FailingWithin;
    var permit, failure := Permit(call.permitAt), Failure(call.outcomeAt);
    var t := Traffic(s, 0);
    assert [permit, failure] + rest == [permit] + ([failure] + rest);
    RunCons(c, 1, Move(c, t, permit), failure, rest);
    RunCons(c, 1, t, permit, [failure] + rest);
    FailingCons(failure, rest, call.permitAt);
    FailingCons(permit, [failure] + rest, from);
  }

  lemma RejectedCall(c: Config, s: State, now: nat, rest: seq<Event>, from: nat)
    requires !Admits(c, s, now) && IsRun(c, 1, Traffic(s, 0), rest) && from <= now && FailingWithin(rest, now)
    ensures var events := [Permit(now)] + rest;
      && IsRun(c, 1, Traffic(s, 0), events) && FailingWithin(events, from)
      && AdmittedAt(c, Traffic(s, 0), events) == AdmittedAt(c, Traffic(s, 0), rest)
  {
    hide IsRun, AdmittedAt, FailingWithin;
    RunCons(c, 1, Traffic(s, 0), Permit(now), rest);
    FailingCons(Permit(now), rest, from);
  }

  lemma AllFailCons(call: Call, rest: seq<Call>)
    requires AllFail([call] + rest)
    ensures !call.succeeded && AllFail(rest)
    ensures PermitTimes([call] + rest) == [call.permitAt] + PermitTimes(rest)
  {
    var calls := [call] + rest;
    assert calls[0] == call && call in calls;
    assert forall x | x in rest :: x in calls;
  }

  lemma EventsStep(c: Config, s: State, calls: seq<Call>)
    requires calls != []
    ensures EventsOf(c, s, calls) ==
      if Admits(c, s, calls[0].permitAt)
      then [Permit(calls[0].permitAt), Outcome(calls[0])] + EventsOf(c, Perform(c, s, calls[0]), calls[1..])
      else [Permit(calls[0].permitAt)] + EventsOf(c, s, calls[1..])
  {
  }

  /** A serial run is a run with at most one call in flight. */
  lemma {:induction false} SerialIsRun(c: Config, s: State, calls: seq<Call>, from: nat)
    requires Serial(calls) && AllFail(Admitted(c, s, calls)) && forall call | call in calls :: from <= call.permitAt
    ensures var events := EventsOf(c, s, calls);
      && IsRun(c, 1, Traffic(s, 0), events) && FailingWithin(events, from)
      && AdmittedAt(c, Traffic(s, 0), events) == PermitTimes(Admitted(c, s, calls))
    decreases |calls|
  {
    if calls != [] {
      hide IsRun, AdmittedAt, FailingWithin, Perform, Admits, Serial, Admitted, AllFail, PermitTimes, EventsOf, Outcome;
      var call, rest := calls[0], calls[1..];
      assert call in calls;
      SerialTail(calls);
      AdmittedCons(c, s, calls);
      EventsStep(c, s, calls);
      if Admits(c, s, call.permitAt) {
        var next := Perform(c, s, call);
        AllFailCons(call, Admitted(c, next, rest));
        SerialIsRun(c, next, rest, call.outcomeAt);
        FailedCall(c, s, call, EventsOf(c, next, rest), from);
      } else {
        SerialIsRun(c, s, rest, call.permitAt);
        RejectedCall(c, s, call.permitAt, EventsOf(c, s, rest), from);
      }
    } else {
      assert PermitTimes([]) == [];
    }
  }

  /** The serial rate bound: from any reachable state, when the calls let through in a serial run all fail, there
      are at most `threshold` of them for each started cooldown between the first and the last. */
  lemma RateBound(c: Config, events: seq<Event>, calls: seq<Call>)
    requires ValidConfig(c) && c.cooldown > 0 && Serial(calls)
    requires var a := Admitted(c, Run(c, CLOSED, events), calls); AllFail(a) && a != []
    ensures var a := Admitted(c, Run(c, CLOSED, events), calls);
      && a[0].permitAt <= a[|a| - 1].permitAt
      && |a| <= c.threshold * ((a[|a| - 1].permitAt - a[0].permitAt) / c.cooldown + 1)
  {
    var s := Run(c, CLOSED, events);
    OpenExactlyAtThreshold(c, events);
    hide Run, Serial, Admitted, AllFail, WithinRate;
    SerialRateFrom(c, s, calls);
    PermitRate(c, Admitted(c, s, calls));
  }

  lemma SerialRateFrom(c: Config, s: State, calls: seq<Call>)
    requires ValidConfig(c) && c.cooldown > 0 && Consistent(c, s) && Serial(calls) && AllFail(Admitted(c, s, calls))
    ensures WithinRate(PerRound(c, 1), c.cooldown, PermitTimes(Admitted(c, s, calls)))
  {
    hide Serial, Failing, IsRun, Admitted, AdmittedAt, AllFail, WithinRate;
    SerialIsRun(c, s, calls, 0);
    ParallelRateFrom(c, 1, Traffic(s, 0), EventsOf(c, s, calls));
  }

  lemma PermitRate(c: Config, a: seq<Call>)
    requires ValidConfig(c) && c.cooldown > 0 && a != [] && WithinRate(PerRound(c, 1), c.cooldown, PermitTimes(a))
    ensures a[0].permitAt <= a[|a| - 1].permitAt
    ensures |a| <= c.threshold * ((a[|a| - 1].permitAt - a[0].permitAt) / c.cooldown + 1)
  {
  }

  // ---------- the bound is reached ----------

  /** Calls that all ask at the same instant and fail at once. */
  function Burst(n: nat, now: nat): (r: seq<Call>)
    ensures |r| == n
    ensures forall call | call in r :: call == Call(now, now, false)
  {
    if n == 0 then [] else [Call(now, now, false)] + Burst(n - 1, now)
  }

  /** Bursts of `threshold` calls, a cooldown apart. */
  function Bursts(c: Config, rounds: nat, now: nat): seq<Call> {
    if rounds == 0 then [] else Burst(c.threshold, now) + Bursts(c, rounds - 1, now + c.cooldown)
  }

  lemma {:induction false} BurstIsAdmitted(c: Config, failures: nat, n: nat, now: nat, rest: seq<Call>)
    requires ValidConfig(c) && failures + n == c.threshold && n > 0
    ensures Admitted(c, State(failures, None), Burst(n, now) + rest) ==
      Burst(n, now) + Admitted(c, State(c.threshold, Some(now)), rest)
    decreases n
  {
    var call := Call(now, now, false);
    var calls := Burst(n, now) + rest;
    var s := State(failures, None);
    assert calls[0] == call && calls[1..] == Burst(n - 1, now) + rest;
    AdmittedCons(c, s, calls);
    if n > 1 {
      assert Perform(c, s, call) == State(failures + 1, None);
      BurstIsAdmitted(c, failures + 1, n - 1, now, rest);
      ConcatAssoc([call], Burst(n - 1, now), Admitted(c, State(c.threshold, Some(now)), rest));
    } else {
      assert Burst(0, now) + rest == rest;
    }
  }

  /** An open circuit past its cooldown admits like a closed one. */
  lemma BurstFromOpen(c: Config, s: State, now: nat, later: seq<Call>)
    requires ValidConfig(c) && (s == CLOSED || (s.openedAt.Some? && s.openedAt.value + c.cooldown <= now))
    ensures Admitted(c, s, Burst(c.threshold, now) + later) == Admitted(c, CLOSED, Burst(c.threshold, now) + later)
  {
    var calls := Burst(c.threshold, now) + later;
    assert calls[0] == Burst(c.threshold, now)[0];
    hide Admitted, Burst;
    AdmittedCons(c, s, calls);
    AdmittedCons(c, CLOSED, calls);
  }

  lemma {:induction false} BurstsAreAdmitted(c: Config, s: State, rounds: nat, now: nat)
    requires ValidConfig(c) && (s == CLOSED || (s.openedAt.Some? && s.openedAt.value + c.cooldown <= now))
    ensures Admitted(c, s, Bursts(c, rounds, now)) == Bursts(c, rounds, now)
    decreases rounds
  {
    if rounds > 0 {
      hide Admitted, Burst;
      var later := Bursts(c, rounds - 1, now + c.cooldown);
      BurstIsAdmitted(c, 0, c.threshold, now, later);
      BurstFromOpen(c, s, now, later);
      BurstsAreAdmitted(c, State(c.threshold, Some(now)), rounds - 1, now + c.cooldown);
    }
  }

  lemma {:induction false} BurstsAreSerial(c: Config, rounds: nat, now: nat)
    ensures var calls := Bursts(c, rounds, now);
      && Serial(calls) && AllFail(calls)
      && (forall call | call in calls :: now <= call.permitAt == call.outcomeAt)
    decreases rounds
  {
    if rounds > 0 {
      hide Serial, AllFail;
      BurstsAreSerial(c, rounds - 1, now + c.cooldown);
      JoinSerial(Burst(c.threshold, now), Bursts(c, rounds - 1, now + c.cooldown), now);
    }
  }

  lemma {:induction false} BurstsShape(c: Config, rounds: nat, now: nat)
    ensures var calls := Bursts(c, rounds, now);
      && |calls| == c.threshold * rounds
      && (calls != [] ==> calls[0].permitAt == now && calls[|calls| - 1].permitAt == now + c.cooldown * (rounds - 1))
    decreases rounds
  {
    if rounds > 0 {
      BurstsShape(c, rounds - 1, now + c.cooldown);
      Distribute(c.threshold, rounds - 1);
      BurstEnds(c, rounds, now);
    }
  }

  lemma JoinSerial(first: seq<Call>, later: seq<Call>, now: nat)
    requires forall call | call in first :: call == Call(now, now, false)
    requires Serial(later) && AllFail(later) && forall call | call in later :: now <= call.permitAt == call.outcomeAt
    ensures Serial(first + later) && AllFail(first + later)
    ensures forall call | call in first + later :: now <= call.permitAt == call.outcomeAt
  {
    var calls := first + later;
    forall i | 0 <= i < |calls|
      ensures now <= calls[i].permitAt == calls[i].outcomeAt && (i < |first| ==> calls[i].outcomeAt == now)
    {
      assert calls[i] in if i < |first| then first else later;
    }
    forall i, j | 0 <= i < j < |calls| ensures calls[i].outcomeAt <= calls[j].permitAt {
      if i >= |first| {
        assert calls[i] == later[i - |first|] && calls[j] == later[j - |first|];
      }
    }
  }

  lemma BurstEnds(c: Config, rounds: nat, now: nat)
    requires rounds > 0
    requires var later := Bursts(c, rounds - 1, now + c.cooldown);
      && |later| == c.threshold * (rounds - 1)
      && (later != [] ==> later[|later| - 1].permitAt == now + c.cooldown + c.cooldown * (rounds - 2))
    ensures var calls := Bursts(c, rounds, now);
      calls != [] ==> calls[0].permitAt == now && calls[|calls| - 1].permitAt == now + c.cooldown * (rounds - 1)
  {
    var first, later := Burst(c.threshold, now), Bursts(c, rounds - 1, now + c.cooldown);
    var calls := first + later;
    if calls != [] {
      assert c.threshold == 0 ==> c.threshold * (rounds - 1) == 0;
      assert calls[0] == first[0] && first[0] in first;
      if rounds == 1 {
        assert calls[|calls| - 1] == first[|first| - 1] && first[|first| - 1] in first;
      } else {
        MultiplyMonotone(c.threshold, 1, rounds - 1);
        Distribute(c.cooldown, rounds - 2);
      }
    }
  }

  /** No smaller bound holds: for every configuration and number of rounds a serial run of failing calls,
      all let through, meets the rate bound exactly. */
  lemma BoundIsReached(c: Config, rounds: nat)
    requires ValidConfig(c) && c.cooldown > 0 && rounds > 0
    ensures var calls := Bursts(c, rounds, 0);
      && Serial(calls) && AllFail(calls) && calls != []
      && Admitted(c, CLOSED, calls) == calls
      && (calls[|calls| - 1].permitAt - calls[0].permitAt) / c.cooldown + 1 == rounds
      && |calls| == c.threshold * rounds
  {
    hide Serial, AllFail, Admitted, Bursts;
    BurstsAreSerial(c, rounds, 0);
    BurstsShape(c, rounds, 0);
    BurstsAreAdmitted(c, CLOSED, rounds, 0);
    ProductIsPositive(c.threshold, rounds);
    ExactQuotient(c.cooldown, rounds - 1);
  }

  lemma ProductIsPositive(a: nat, b: nat)
    requires a > 0 && b > 0
    ensures a * b > 0
  {
  }

  lemma ProductGrows(d: nat, q: int, r: int)
    requires d > 0 && q < r
    ensures d * q < d * r
  {
    MultiplyMonotone(d, q + 1, r);
    Distribute(d, q);
  }

  lemma ExactQuotient(d: nat, q: nat)
    requires d > 0
    ensures d * q / d == q
  {
    var r := d * q / d;
    QuotientAtLeast(d * q, d, q);
    if q < r {
      ProductGrows(d, q, r);
    }
  }

  // ---------- the bound in parallel is reached ----------

  /** Several callers at one instant: n calls are let in; all but one of the failures that the circuit endures are
      each followed by a new call; then all n that are out fail. */
  function Permits(k: nat, now: nat): seq<Event> {
    if k == 0 then [] else [Permit(now)] + Permits(k - 1, now)
  }

  function Replacements(k: nat, now: nat): seq<Event> {
    if k == 0 then [] else [Failure(now)] + ([Permit(now)] + Replacements(k - 1, now))
  }

  function Failures(k: nat, now: nat): seq<Event> {
    if k == 0 then [] else [Failure(now)] + Failures(k - 1, now)
  }

  function Rush(c: Config, n: nat, now: nat): seq<Event>
    requires ValidConfig(c)
  {
    Permits(n, now) + (Replacements(c.threshold - 1, now) + Failures(n, now))
  }

  /** Rushes a cooldown apart. */
  function Rushes(c: Config, n: nat, rounds: nat, now: nat): seq<Event>
    requires ValidConfig(c)
  {
    if rounds == 0 then [] else Rush(c, n, now) + Rushes(c, n, rounds - 1, now + c.cooldown)
  }

  lemma AfterCons(c: Config, t: Traffic, e: Event, rest: seq<Event>)
    ensures After(c, t, [e] + rest) == After(c, Move(c, t, e), rest)
  {
    assert ([e] + rest)[1..] == rest;
  }

  lemma {:induction false} RunConcat(c: Config, n: nat, t: Traffic, a: seq<Event>, b: seq<Event>)
    requires IsRun(c, n, t, a) && IsRun(c, n, After(c, t, a), b)
    ensures IsRun(c, n, t, a + b) && After(c, t, a + b) == After(c, After(c, t, a), b)
    ensures AdmittedAt(c, t, a + b) == AdmittedAt(c, t, a) + AdmittedAt(c, After(c, t, a), b)
    decreases |a|
  {
    hide Possible, Move, LetsIn;
    if a == [] {
      assert a + b == b;
    } else {
      assert (a + b)[1..] == a[1..] + b;
      RunConcat(c, n, Move(c, t, a[0]), a[1..], b);
    }
  }

  /** k times the same instant. */
  predicate AllAt(times: seq<nat>, k: nat, now: nat) {
    |times| == k && forall x | x in times :: x == now
  }

  /** Nothing has failed since the circuit closed, or it is open and its cooldown is over. */
  predicate Ready(c: Config, s: State, now: nat) {
    s == CLOSED || (s.openedAt.Some? && s.openedAt.value + c.cooldown <= now)
  }

  lemma {:induction false} PermitsRun(c: Config, n: nat, t: Traffic, k: nat, now: nat)
    requires Ready(c, t.circuit, now) && t.inFlight + k <= n && k > 0
    ensures IsRun(c, n, t, Permits(k, now)) && After(c, t, Permits(k, now)) == Traffic(CLOSED, t.inFlight + k)
    ensures AllAt(AdmittedAt(c, t, Permits(k, now)), k, now)
    decreases k
  {
    var next := Move(c, t, Permit(now));
    var rest := Permits(k - 1, now);
    assert next == Traffic(CLOSED, t.inFlight + 1);
    AfterCons(c, t, Permit(now), rest);
    RunCons(c, n, t, Permit(now), rest);
    if k > 1 {
      PermitsRun(c, n, next, k - 1, now);
    }
  }

  lemma {:induction false} ReplacementsRun(c: Config, n: nat, failures: nat, k: nat, now: nat)
    requires ValidConfig(c) && failures + k < c.threshold && n > 0
    ensures var t := Traffic(State(failures, None), n); var events := Replacements(k, now);
      && IsRun(c, n, t, events) && After(c, t, events) == Traffic(State(failures + k, None), n)
      && AllAt(AdmittedAt(c, t, events), k, now)
    decreases k
  {
    if k > 0 {
      var t, fewer := Traffic(State(failures, None), n), Traffic(State(failures + 1, None), n - 1);
      var rest := Replacements(k - 1, now);
      ReplacementsRun(c, n, failures + 1, k - 1, now);
      hide IsRun, After, AdmittedAt, Replacements;
      AfterCons(c, fewer, Permit(now), rest);
      RunCons(c, n, fewer, Permit(now), rest);
      AfterCons(c, t, Failure(now), [Permit(now)] + rest);
      RunCons(c, n, t, Failure(now), [Permit(now)] + rest);
      assert Replacements(k, now) == [Failure(now)] + ([Permit(now)] + rest) by { ReplacementsStep(k, now); }
    }
  }

  lemma ReplacementsStep(k: nat, now: nat)
    requires k > 0
    ensures Replacements(k, now) == [Failure(now)] + ([Permit(now)] + Replacements(k - 1, now))
  {
  }

  lemma {:induction false} FailuresRun(c: Config, n: nat, t: Traffic, now: nat)
    requires ValidConfig(c) && c.threshold - 1 <= t.circuit.failures <= U32_MAX && t.inFlight > 0
    ensures var events := Failures(t.inFlight, now); var end := After(c, t, events);
      && IsRun(c, n, t, events) && AdmittedAt(c, t, events) == []
      && end.inFlight == 0 && end.circuit.openedAt == Some(now)
    decreases t.inFlight
  {
    var next := Move(c, t, Failure(now));
    var rest := Failures(t.inFlight - 1, now);
    AfterCons(c, t, Failure(now), rest);
    RunCons(c, n, t, Failure(now), rest);
    if t.inFlight > 1 {
      FailuresRun(c, n, next, now);
    }
  }

  lemma RushRun(c: Config, n: nat, t: Traffic, now: nat)
    requires ValidConfig(c) && n > 0 && t.inFlight == 0 && Ready(c, t.circuit, now)
    ensures var events := Rush(c, n, now); var end := After(c, t, events);
      && IsRun(c, n, t, events) && AllAt(AdmittedAt(c, t, events), PerRound(c, n), now)
      && end.inFlight == 0 && end.circuit.openedAt == Some(now)
  {
    hide IsRun, After, AdmittedAt, Permits, Replacements, Failures, Possible, Move;
    var a, b, d := Permits(n, now), Replacements(c.threshold - 1, now), Failures(n, now);
    var full, worn := Traffic(CLOSED, n), Traffic(State(c.threshold - 1, None), n);
    PermitsRun(c, n, t, n, now);
    ReplacementsRun(c, n, 0, c.threshold - 1, now);
    FailuresRun(c, n, worn, now);
    RunConcat(c, n, full, b, d);
    RunConcat(c, n, t, a, b + d);
  }

  lemma {:induction false} RushesRun(c: Config, n: nat, t: Traffic, rounds: nat, now: nat)
    requires ValidConfig(c) && n > 0 && t.inFlight == 0 && Ready(c, t.circuit, now)
    ensures var events := Rushes(c, n, rounds, now); var times := AdmittedAt(c, t, events);
      && IsRun(c, n, t, events) && |times| == PerRound(c, n) * rounds
      && (rounds > 0 ==> times != [] && times[0] == now && times[|times| - 1] == now + c.cooldown * (rounds - 1))
    decreases rounds
  {
    hide IsRun, After, AdmittedAt, Rush, Possible, Move;
    if rounds > 0 {
      var first, later := Rush(c, n, now), Rushes(c, n, rounds - 1, now + c.cooldown);
      RushRun(c, n, t, now);
      RushesRun(c, n, After(c, t, first), rounds - 1, now + c.cooldown);
      RunConcat(c, n, t, first, later);
      JoinTimes(c, PerRound(c, n), AdmittedAt(c, t, first), AdmittedAt(c, After(c, t, first), later), rounds, now);
    } else {
      NothingAdmitted(c, n, t);
    }
  }

  lemma NothingAdmitted(c: Config, n: nat, t: Traffic)
    ensures IsRun(c, n, t, []) && AdmittedAt(c, t, []) == []
  {
  }

  lemma JoinTimes(c: Config, k: nat, first: seq<nat>, later: seq<nat>, rounds: nat, now: nat)
    requires k > 0 && rounds > 0 && AllAt(first, k, now) && |later| == k * (rounds - 1)
    requires rounds > 1 ==> later != [] && later[|later| - 1] == now + c.cooldown + c.cooldown * (rounds - 2)
    ensures var times := first + later;
      |times| == k * rounds && times != [] && times[0] == now && times[|times| - 1] == now + c.cooldown * (rounds - 1)
  {
    var times := first + later;
    Distribute(k, rounds - 1);
    assert first[0] in first && first[|first| - 1] in first;
    if rounds > 1 {
      Distribute(c.cooldown, rounds - 2);
      assert times[|times| - 1] == later[|later| - 1];
    } else {
      assert times == first;
    }
  }

  lemma FailingConcat(a: seq<Event>, b: seq<Event>, now: nat)
    requires (forall e | e in a :: !e.Success? && e.now == now) && FailingWithin(b, now)
    ensures FailingWithin(a + b, now)
  {
    var events := a + b;
    forall i | 0 <= i < |events| ensures !events[i].Success? && now <= events[i].now && (i < |a| ==> events[i].now == now) {
      assert events[i] in if i < |a| then a else b;
    }
    forall i, j | 0 <= i < j < |events| ensures events[i].now <= events[j].now {
      if i >= |a| {
        assert events[i] == b[i - |a|] && events[j] == b[j - |a|];
      }
    }
  }

  lemma PartsFail(k: nat, now: nat)
    ensures forall e | e in Permits(k, now) :: e == Permit(now)
    ensures forall e | e in Replacements(k, now) :: e == Permit(now) || e == Failure(now)
    ensures forall e | e in Failures(k, now) :: e == Failure(now)
  {
  }

  lemma RushFails(c: Config, n: nat, now: nat)
    requires ValidConfig(c)
    ensures forall e | e in Rush(c, n, now) :: !e.Success? && e.now == now
  {
    hide Permits, Replacements, Failures;
    PartsFail(n, now);
    PartsFail(c.threshold - 1, now);
  }

  lemma FailingSince(events: seq<Event>, from: nat, now: nat)
    requires FailingWithin(events, now) && from <= now
    ensures FailingWithin(events, from)
  {
    hide Failing;
  }

  lemma {:induction false} RushesFail(c: Config, n: nat, rounds: nat, now: nat)
    requires ValidConfig(c)
    ensures FailingWithin(Rushes(c, n, rounds, now), now)
    decreases rounds
  {
    if rounds > 0 {
      hide Rush, FailingWithin;
      var later := Rushes(c, n, rounds - 1, now + c.cooldown);
      RushesFail(c, n, rounds - 1, now + c.cooldown);
      FailingSince(later, now, now + c.cooldown);
      RushFails(c, n, now);
      FailingConcat(Rush(c, n, now), later, now);
    }
  }

  /** No smaller bound holds for callers in parallel either: for every configuration, number of callers and number
      of rounds some run without success meets it exactly. */
  lemma ParallelBoundIsReached(c: Config, n: nat, rounds: nat)
    requires ValidConfig(c) && c.cooldown > 0 && n > 0 && rounds > 0
    ensures var events := Rushes(c, n, rounds, 0); var times := AdmittedAt(c, IDLE, events);
      && IsRun(c, n, IDLE, events) && Failing(events) && times != []
      && (times[|times| - 1] - times[0]) / c.cooldown + 1 == rounds
      && |times| == (c.threshold + n - 1) * rounds
  {
    hide IsRun, AdmittedAt, Rushes, Failing;
    RushesRun(c, n, IDLE, rounds, 0);
    RushesFail(c, n, rounds, 0);
    ExactQuotient(c.cooldown, rounds - 1);
  }
}
