// What a deadline does to a request's cancellation flag, over whole runs of the service graph.

module Deadlines {
  import opened Options
  import RequestGate
  import opened Dispatch

  type Tid = RequestGate.Tid

  // ---------- what raises a flag ----------

  /** The deadline is not ahead of the clock. */
  predicate IsDue(req: Request, now: Option<int>) {
    req.deadline.Some? && now.Some? && req.deadline.value <= now.value
  }

  /** The deadline is still ahead. */
  predicate IsAhead(req: Request, now: Option<int>) {
    req.deadline.Some? && now.Some? && now.value < req.deadline.value
  }

  /** A cancel whose id leads to the token, a clock reading at or past the deadline of the token's request, or the
      token's own timer. */
  predicate Causes(g: Graph, e: Event, k: Token) {
    match e
    case Cancel(id) => id in g.cancellations && g.cancellations[id] == k
    case Clock(t, now) => In(g, t) && g.phase[t].Registered? && g.phase[t].token == k && IsDue(g.phase[t].req, now)
    case Fire(token) => token == k
    case _ => false
  }

  /** A clock reading before the deadline starts the timer of the token. */
  predicate Arms(g: Graph, e: Event, k: Token) {
    e.Clock? && In(g, e.t) && g.phase[e.t].Registered? && g.phase[e.t].token == k && IsAhead(g.phase[e.t].req, e.now)
  }

  /** The token that a clock event, or the drop of a guard, is about. */
  lemma OwnToken(g: Graph, t: Tid)
    requires Ok(g) && t in g.phase && InFlight(g.phase[t])
    ensures g.phase[t].token < |g.flags|
  {
    hide RequestGate.Inv, ThreadsOk, TimersOk;
    FlightsDomain(g.phase, t);
    hide FlightsOk, EntriesOk, Flights;
  }

  /** One event raises exactly the flags it is a cause for; a new flag starts lowered. */
  lemma FlagRisesExactly(g: Graph, e: Event, k: Token)
    requires Ok(g) && CanStep(g, e)
    ensures var g' := Step(g, e);
      && |g.flags| <= |g'.flags| && (Causes(g, e, k) ==> k < |g.flags|)
      && (k < |g'.flags| ==> (g'.flags[k] <==> (k < |g.flags| && g.flags[k]) || Causes(g, e, k)))
  {
    hide RequestGate.Apply, RequestGate.Enabled, RequestGate.Inv, FlightsOk, Flights, ThreadsOk;
    if e.Clock? {
      OwnToken(g, e.t);
    }
  }

  /** A timer is running after an event only if it was before, or the event armed it; firing ends it. */
  lemma TimerStartsExactly(g: Graph, e: Event, k: Token)
    requires Ok(g) && CanStep(g, e)
    ensures var g' := Step(g, e);
      && (k in g'.timers ==> k in g.timers || Arms(g, e, k))
      && (Arms(g, e, k) ==> k in g'.timers)
      && (e == Fire(k) ==> k in g.timers && k !in g'.timers)
  {
    hide RequestGate.Apply, RequestGate.Enabled, RequestGate.Inv, GraphRegistryOk, ThreadsOk, TimersOk;
  }

  // ---------- over a run ----------

  /** The state before event i of a run, or the last one. */
  function StateAt(g: Graph, events: seq<Event>, i: nat): Graph
    requires i <= |events| && Run(g, events).Some?
    decreases |events|
  {
    if i == 0 then g else StateAt(Step(g, events[0]), events[1..], i - 1)
  }

  lemma {:induction false} StatesOk(g: Graph, events: seq<Event>, i: nat)
    requires i <= |events| && Run(g, events).Some? && Ok(g)
    ensures Ok(StateAt(g, events, i)) && (i < |events| ==> CanStep(StateAt(g, events, i), events[i]))
    ensures Run(StateAt(g, events, i), events[i..]) == Run(g, events)
    decreases |events|
  {
    hide Ok, Step, CanStep;
    if i == 0 {
      assert events[0..] == events;
    } else {
      StepOk(g, events[0]);
      StatesOk(Step(g, events[0]), events[1..], i - 1);
      assert events[1..][i - 1..] == events[i..];
    }
  }

  /** Event i of the run is a cause for the flag. */
  predicate CausedAt(g: Graph, events: seq<Event>, i: nat, k: Token)
    requires Run(g, events).Some?
  {
    i < |events| && Causes(StateAt(g, events, i), events[i], k)
  }

  predicate ArmedAt(g: Graph, events: seq<Event>, i: nat, k: Token)
    requires Run(g, events).Some?
  {
    i < |events| && Arms(StateAt(g, events, i), events[i], k)
  }

  lemma {:induction false} RaisedExactly(g: Graph, events: seq<Event>, k: Token)
    requires Ok(g) && Run(g, events).Some? && k < |Run(g, events).value.flags|
    ensures Run(g, events).value.flags[k] <==> (k < |g.flags| && g.flags[k]) || exists i: nat :: CausedAt(g, events, i, k)
    decreases |events|
  {
    hide Ok, Step, CanStep, Causes;
    if events != [] {
      var g' := Step(g, events[0]);
      StepOk(g, events[0]);
      FlagRisesExactly(g, events[0], k);
      RaisedExactly(g', events[1..], k);
      if i: nat :| CausedAt(g', events[1..], i, k) {
        assert CausedAt(g, events, i + 1, k);
      }
      if i: nat :| CausedAt(g, events, i, k) {
        if i > 0 {
          assert CausedAt(g', events[1..], i - 1, k);
        } else {
          FlagsNeverFall(g', events[1..]);
        }
      }
      if Causes(g, events[0], k) {
        assert CausedAt(g, events, 0, k);
      }
      FlagsGrow(g, events[0]);
    }
  }

  lemma FlagsGrow(g: Graph, e: Event)
    requires Ok(g) && CanStep(g, e)
    ensures |g.flags| <= |Step(g, e).flags|
  {
    FlagRisesExactly(g, e, 0);
  }

  lemma {:induction false} TimerWasArmed(g: Graph, events: seq<Event>, i: nat, k: Token)
    requires Ok(g) && Run(g, events).Some? && i < |events| && events[i] == Fire(k)
    ensures k in g.timers || exists j: nat | j < i :: ArmedAt(g, events, j, k)
    decreases |events|
  {
    hide Ok, Step, CanStep, Arms;
    TimerStartsExactly(g, events[0], k);
    if i > 0 {
      var g' := Step(g, events[0]);
      StepOk(g, events[0]);
      TimerWasArmed(g', events[1..], i - 1, k);
      if j: nat :| j < i - 1 && ArmedAt(g', events[1..], j, k) {
        assert ArmedAt(g, events, j + 1, k);
      }
      if Arms(g, events[0], k) {
        assert ArmedAt(g, events, 0, k);
      }
    }
  }

  // ---------- whose flag it is ----------

  /** If any request in flight carries the token, it is this one of this thread. */
  predicate OnlyOwner(g: Graph, t: Tid, req: Request, k: Token) {
    k < |g.flags| &&
    forall u | u in g.phase && InFlight(g.phase[u]) && g.phase[u].token == k :: u == t && g.phase[u].req == req
  }

  /** An event never hands a token that is already given out to another request. */
  lemma OwnerStep(g: Graph, e: Event, t: Tid, req: Request, k: Token)
    requires Ok(g) && CanStep(g, e) && OnlyOwner(g, t, req, k)
    ensures OnlyOwner(Step(g, e), t, req, k)
  {
    FlagsGrow(g, e);
    if e.Gate? {
      OwnPhaseOf(g, e.action);
    }
    hide Ok, RequestGate.Apply, RequestGate.Enabled, GatePhase;
  }

  lemma OwnPhaseOf(g: Graph, a: RequestGate.Action)
    requires Ok(g) && CanStep(g, Gate(a))
    ensures InFlight(GatePhase(g, a)) ==> GatePhase(g, a) == g.phase[a.t]
  {
    RequestGate.OwnStep(g.gate, a);
    OwnPhaseOk(g, a);
  }

  lemma {:induction false} OwnerStays(g: Graph, events: seq<Event>, t: Tid, req: Request, k: Token)
    requires Ok(g) && Run(g, events).Some? && OnlyOwner(g, t, req, k)
    ensures OnlyOwner(Run(g, events).value, t, req, k)
    decreases |events|
  {
    hide Ok, Step, CanStep, OnlyOwner;
    if events != [] {
      StepOk(g, events[0]);
      OwnerStep(g, events[0], t, req, k);
      OwnerStays(Step(g, events[0]), events[1..], t, req, k);
    }
  }

  /** No two requests in flight share a token. */
  predicate OneEach(g: Graph) {
    forall t, u | t in g.phase && u in g.phase && InFlight(g.phase[t]) && InFlight(g.phase[u])
      && g.phase[t].token == g.phase[u].token :: t == u
  }

  lemma OneEachGate(g: Graph, a: RequestGate.Action)
    requires Ok(g) && CanStep(g, Gate(a)) && OneEach(g)
    ensures OneEach(Step(g, Gate(a)))
  {
    OwnPhaseOf(g, a);
    hide Ok, RequestGate.Apply, RequestGate.Enabled, GatePhase;
  }

  lemma OneEachRegister(g: Graph, t: Tid)
    requires Ok(g) && CanStep(g, Register(t)) && OneEach(g)
    ensures OneEach(Step(g, Register(t)))
  {
    forall u | u in g.phase && InFlight(g.phase[u]) ensures g.phase[u].token < |g.flags| {
      OwnToken(g, u);
    }
    hide Ok;
  }

  /** Any other event at most moves a request on or out of flight. */
  lemma TokensKept(g: Graph, e: Event)
    requires CanStep(g, e) && !e.Gate? && !e.Register?
    ensures var g' := Step(g, e);
      forall u | u in g'.phase && InFlight(g'.phase[u]) ::
        u in g.phase && InFlight(g.phase[u]) && g'.phase[u].token == g.phase[u].token
  {
    hide RequestGate.Apply, RequestGate.Enabled;
  }

  lemma OneEachStep(g: Graph, e: Event)
    requires Ok(g) && CanStep(g, e) && OneEach(g)
    ensures OneEach(Step(g, e))
  {
    hide Ok, Step, CanStep, InFlight;
    if e.Gate? {
      OneEachGate(g, e.action);
    } else if e.Register? {
      OneEachRegister(g, e.t);
    } else {
      TokensKept(g, e);
    }
  }

  lemma {:induction false} OneEachAt(g: Graph, events: seq<Event>, i: nat)
    requires Ok(g) && OneEach(g) && Run(g, events).Some? && i <= |events|
    ensures OneEach(StateAt(g, events, i))
    decreases |events|
  {
    hide Ok, Step, CanStep, OneEach;
    if i > 0 {
      StepOk(g, events[0]);
      OneEachStep(g, events[0]);
      OneEachAt(Step(g, events[0]), events[1..], i - 1);
    }
  }

  /** A request in flight at the end that some thread carried the token of earlier is that thread's. */
  lemma SameOwner(g: Graph, events: seq<Event>, i: nat, u: Tid, t: Tid)
    requires Ok(g) && OneEach(g) && Run(g, events).Some? && i <= |events|
    requires var s := StateAt(g, events, i); u in s.phase && InFlight(s.phase[u])
    requires var end := Run(g, events).value;
      t in end.phase && InFlight(end.phase[t]) && end.phase[t].token == StateAt(g, events, i).phase[u].token
    ensures u == t && StateAt(g, events, i).phase[u].req == Run(g, events).value.phase[t].req
  {
    var s := StateAt(g, events, i);
    StatesOk(g, events, i);
    OneEachAt(g, events, i);
    OwnToken(s, u);
    hide Ok;
    assert OnlyOwner(s, u, s.phase[u].req, s.phase[u].token);
    OwnerStays(s, events[i..], u, s.phase[u].req, s.phase[u].token);
  }

  // ---------- the promises ----------

  /** The cause, told of the request that owns the flag. */
  predicate IsCauseFor(g: Graph, e: Event, t: Tid, req: Request, k: Token) {
    match e
    case Cancel(id) => id in g.cancellations && g.cancellations[id] == k
    case Clock(u, now) => u == t && In(g, t) && g.phase[t] == Registered(req, k) && IsDue(req, now)
    case Fire(token) => token == k
    case _ => false
  }

  predicate StartsTimer(g: Graph, e: Event, t: Tid, req: Request, k: Token) {
    e.Clock? && e.t == t && In(g, t) && g.phase[t] == Registered(req, k) && IsAhead(req, e.now)
  }

  lemma NoneInFlight(g: Graph)
    requires Initial(g)
    ensures OneEach(g)
  {
  }

  lemma CauseIsOwn(g: Graph, events: seq<Event>, i: nat, t: Tid)
    requires Ok(g) && OneEach(g) && Run(g, events).Some? && i < |events|
    requires var end := Run(g, events).value; t in end.phase && InFlight(end.phase[t])
    ensures var p := Run(g, events).value.phase[t]; var s := StateAt(g, events, i);
      Causes(s, events[i], p.token) <==> IsCauseFor(s, events[i], t, p.req, p.token)
  {
    hide Ok, Run, StateAt, OneEach;
    var s, k := StateAt(g, events, i), Run(g, events).value.phase[t].token;
    if events[i].Clock? && In(s, events[i].t) && s.phase[events[i].t].Registered? && s.phase[events[i].t].token == k {
      SameOwner(g, events, i, events[i].t, t);
    }
  }

  lemma TimerIsOwn(g: Graph, events: seq<Event>, j: nat, t: Tid)
    requires Ok(g) && OneEach(g) && Run(g, events).Some? && j < |events|
    requires var end := Run(g, events).value; t in end.phase && InFlight(end.phase[t])
    requires Arms(StateAt(g, events, j), events[j], Run(g, events).value.phase[t].token)
    ensures var p := Run(g, events).value.phase[t]; StartsTimer(StateAt(g, events, j), events[j], t, p.req, p.token)
  {
    hide Ok, Run, StateAt, OneEach;
    SameOwner(g, events, j, events[j].t, t);
  }

  /** The flag of a request in flight is raised exactly when, somewhere in the run, a cancel led to its token, its
      own clock reading was at or past its deadline, or its own timer fired; and a timer fires only after a clock
      reading of that request before its deadline. */
  lemma FlagIsRaisedExactly(g0: Graph, events: seq<Event>, t: Tid)
    requires Initial(g0) && Run(g0, events).Some?
    requires var end := Run(g0, events).value; t in end.phase && InFlight(end.phase[t])
    ensures var end := Run(g0, events).value; var p := end.phase[t];
      && p.token < |end.flags|
      && (end.flags[p.token] <==>
            exists i: nat | i < |events| :: IsCauseFor(StateAt(g0, events, i), events[i], t, p.req, p.token))
      && (forall i: nat | i < |events| && events[i] == Fire(p.token) ::
            exists j: nat | j < i :: StartsTimer(StateAt(g0, events, j), events[j], t, p.req, p.token))
  {
    var end := Run(g0, events).value;
    var p := end.phase[t];
    var k := p.token;
    InitialOk(g0);
    RunOk(g0, events);
    OwnToken(end, t);
    RaisedExactly(g0, events, k);
    hide Ok, Run, StateAt, CanStep, OneEach, InFlight, Causes, IsCauseFor, StartsTimer, Arms;
    NoneInFlight(g0);
    forall i: nat | i < |events| ensures CausedAt(g0, events, i, k) <==> IsCauseFor(StateAt(g0, events, i), events[i], t, p.req, k) {
      CauseIsOwn(g0, events, i, t);
    }
    forall i: nat | i < |events| && events[i] == Fire(k)
      ensures exists j: nat | j < i :: StartsTimer(StateAt(g0, events, j), events[j], t, p.req, k)
    {
      TimerWasArmed(g0, events, i, k);
      var j: nat :| j < i && ArmedAt(g0, events, j, k);
      TimerIsOwn(g0, events, j, t);
    }
    if end.flags[k] {
      var i: nat :| CausedAt(g0, events, i, k);
      assert IsCauseFor(StateAt(g0, events, i), events[i], t, p.req, k);
    }
  }

  /** What the clock decides: a request without a deadline never looks, one whose clock fails is not handled, and any
      other goes on to its handler; its flag is then raised, and stays so, if the deadline has come. */
  lemma ClockDecides(g: Graph, t: Tid, now: Option<int>, events: seq<Event>)
    requires Reachable(g) && CanStep(g, Clock(t, now)) && Run(Step(g, Clock(t, now)), events).Some?
    ensures var p := g.phase[t]; var g' := Step(g, Clock(t, now)); var end := Run(g', events).value;
      && g'.phase[t] == (if p.req.deadline.Some? && now.None? then Finished else Ready(p.req, p.token))
      && p.token < |end.flags|
      && (IsDue(p.req, now) ==> end.flags[p.token] && p.token !in g'.timers)
      && (!IsDue(p.req, now) ==> g'.flags == g.flags)
  {
    hide Ok, Run, Reachable;
    ReachableOk(g);
    OwnToken(g, t);
    FlagsNeverFall(Step(g, Clock(t, now)), events);
    NoTimerYet(g, t);
  }

  /** A request that has not looked at the clock has no timer. */
  predicate TimersBelongToReady(g: Graph) {
    forall t | t in g.phase && g.phase[t].Registered? :: g.phase[t].token !in g.timers
  }

  lemma {:induction false} NoTimerInRun(g: Graph, events: seq<Event>)
    requires Ok(g) && OneEach(g) && TimersBelongToReady(g) && Run(g, events).Some?
    ensures TimersBelongToReady(Run(g, events).value)
    decreases |events|
  {
    hide Ok, Step, CanStep, OneEach, TimersBelongToReady;
    if events != [] {
      StepOk(g, events[0]);
      OneEachStep(g, events[0]);
      NoTimerStep(g, events[0]);
      NoTimerInRun(Step(g, events[0]), events[1..]);
    }
  }

  lemma NoTimerStep(g: Graph, e: Event)
    requires Ok(g) && OneEach(g) && TimersBelongToReady(g) && CanStep(g, e)
    ensures TimersBelongToReady(Step(g, e))
  {
    if e.Gate? {
      OwnPhaseOf(g, e.action);
    }
    assert TimersOk(g);
    hide Ok, RequestGate.Apply, RequestGate.Enabled, GatePhase;
  }

  lemma NoTimerYet(g: Graph, t: Tid)
    requires Reachable(g) && t in g.phase && g.phase[t].Registered?
    ensures g.phase[t].token !in g.timers
  {
    var g0: Graph, events: seq<Event> :| Initial(g0) && Run(g0, events) == Some(g);
    InitialOk(g0);
    NoTimerInRun(g0, events);
  }

  /** Dropping the guard of a request ends its timer for good, unless it had already run out. */
  lemma DroppedTimerStaysOff(g: Graph, t: Tid, events: seq<Event>)
    requires Reachable(g) && CanStep(g, DropGuard(t, false)) && Run(Step(g, DropGuard(t, false)), events).Some?
    ensures g.phase[t].token !in Run(Step(g, DropGuard(t, false)), events).value.timers
  {
    hide Ok, Run, Reachable, Step;
    ReachableOneEach(g);
    OffAfterDrop(g, t);
    StepOk(g, DropGuard(t, false));
    TimerStaysOff(Step(g, DropGuard(t, false)), events, g.phase[t].token);
  }

  lemma ReachableOneEach(g: Graph)
    requires Reachable(g)
    ensures Ok(g) && OneEach(g)
  {
    var g0: Graph, events: seq<Event> :| Initial(g0) && Run(g0, events) == Some(g);
    InitialOk(g0);
    hide Ok, Run, Step;
    OneEachAt(g0, events, |events|);
    StatesOk(g0, events, |events|);
    EndOfRun(g0, events);
  }

  lemma OffAfterDrop(g: Graph, t: Tid)
    requires Ok(g) && OneEach(g) && CanStep(g, DropGuard(t, false))
    ensures IsOff(Step(g, DropGuard(t, false)), g.phase[t].token)
  {
    OwnToken(g, t);
    hide Ok;
  }

  lemma EndOfRun(g: Graph, events: seq<Event>)
    requires Run(g, events).Some? && Run(StateAt(g, events, |events|), events[|events|..]) == Run(g, events)
    ensures Run(g, events) == Some(StateAt(g, events, |events|))
  {
    assert events[|events|..] == [];
  }

  /** The token's timer is off and nobody can arm it any more. */
  predicate IsOff(g: Graph, k: Token) {
    && k < |g.flags| && k !in g.timers
    && forall u | u in g.phase && g.phase[u].Registered? :: g.phase[u].token != k
  }

  lemma OffStep(g: Graph, e: Event, k: Token)
    requires Ok(g) && CanStep(g, e) && IsOff(g, k)
    ensures IsOff(Step(g, e), k)
  {
    FlagsGrow(g, e);
    if e.Gate? {
      OwnPhaseOf(g, e.action);
    }
    hide Ok, RequestGate.Apply, RequestGate.Enabled, GatePhase;
  }

  lemma {:induction false} TimerStaysOff(g: Graph, events: seq<Event>, k: Token)
    requires Ok(g) && IsOff(g, k) && Run(g, events).Some?
    ensures k !in Run(g, events).value.timers
    decreases |events|
  {
    hide Ok, Step, CanStep;
    if events != [] {
      StepOk(g, events[0]);
      OffStep(g, events[0], k);
      hide IsOff;
      TimerStaysOff(Step(g, events[0]), events[1..], k);
    }
  }

  /** A registration is refused exactly when a request with the same id is in flight or a clock error has left its
      entry behind; otherwise the request goes on with a token of its own, not cancelled. */
  lemma DuplicateIsRefusedExactly(g: Graph, t: Tid)
    requires Reachable(g) && CanStep(g, Register(t))
    ensures var req := g.phase[t].req; var g' := Step(g, Register(t));
      && (g'.phase[t] == Finished <==> req.id in g.stale || HasRegistrant(Flights(g.phase), req.id))
      && (g'.phase[t] != Finished ==>
            g'.phase[t] == Registered(req, |g.flags|) && |g.flags| < |g'.flags| && !g'.flags[|g.flags|])
  {
    CancelResultExactly(g, g.phase[t].req.id);
  }
}
