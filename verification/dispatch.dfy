// ServiceGraph.dispatch, cancel and the deadline timers, on top of the admission gate.

module Dispatch {
  import opened Options
  import opened RequestGate

  type RequestId = string
  type Token = nat

  /** `deadline` is in Unix milliseconds, as carried by the request. */
  datatype Request = Request(id: RequestId, deadline: Option<int>)

  /** What a thread that owns a permit is doing. */
  datatype Phase =
    | NoCall
    | Waiting(req: Request)                  // inside `enter`
    | Admitted(req: Request)                 // permit granted
    | Registered(req: Request, token: Token) // its token is in the map, deadline not looked at
    | Ready(req: Request, token: Token)      // about to call the handler
    | Handling(req: Request, token: Token)   // the handler runs
    | Handled(req: Request, token: Token)    // handler returned, deadline guard still held
    | Leaving(req: Request, token: Token)    // guard dropped, map entry still present
    | Finished                               // result decided, permit about to be dropped

  /** `displaced` and `stale` are histories: tokens whose map entry a later duplicate overwrote,
      and ids whose entry a clock error left behind. */
  datatype Graph = Graph(
    gate: State,
    phase: map<Tid, Phase>,
    cancellations: map<RequestId, Token>,
    flags: seq<bool>,
    timers: set<Token>,
    displaced: set<Token>,
    stale: set<RequestId>)

  datatype Event =
    | Call(t: Tid, req: Request)
    | Gate(action: Action)
    | Register(t: Tid)
    | Clock(t: Tid, now: Option<int>)
    | Start(t: Tid)
    | Return(t: Tid)
    | DropGuard(t: Tid, timedOut: bool)
    | Remove(t: Tid)
    | Fire(token: Token)
    | Cancel(id: RequestId)

  predicate In(g: Graph, t: Tid) {
    t in g.phase
  }

  predicate CanStep(g: Graph, e: Event) {
    match e
    case Call(t, _) => In(g, t) && g.phase[t].NoCall? && Enabled(g.gate, Lock(t))
    case Gate(a) =>
      && In(g, a.t) && Enabled(g.gate, a) && !a.Lock?
      && (a.LockDrop? ==> g.phase[a.t].Finished?)
      && (a.Reload? || a.Admit? ==> g.phase[a.t].Waiting?)
    case Register(t) => In(g, t) && g.phase[t].Admitted?
    case Clock(t, _) => In(g, t) && g.phase[t].Registered?
    case Start(t) => In(g, t) && g.phase[t].Ready?
    case Return(t) => In(g, t) && g.phase[t].Handling?
    case DropGuard(t, late) => In(g, t) && g.phase[t].Handled? && (late ==> g.phase[t].token in g.timers)
    case Remove(t) => In(g, t) && g.phase[t].Leaving?
    case Fire(token) => token in g.timers && token < |g.flags|
    case Cancel(id) => id in g.cancellations ==> g.cancellations[id] < |g.flags|
  }

  function GatePhase(g: Graph, a: Action): Phase
    requires CanStep(g, Gate(a))
  {
    if a.Reload? && g.gate.shut then Finished
    else if a.Admit? then Admitted(g.phase[a.t].req)
    else if a.Release? || a.Leave? then NoCall
    else g.phase[a.t]
  }

  function Step(g: Graph, e: Event): Graph
    requires CanStep(g, e)
  {
    match e
    case Call(t, req) =>
      g.(gate := Apply(g.gate, Lock(t)), phase := g.phase[t := Waiting(req)])
    case Gate(a) =>
      g.(gate := Apply(g.gate, a), phase := g.phase[a.t := GatePhase(g, a)])
    case Register(t) =>
      var req := g.phase[t].req;
      var token := |g.flags|;
      var g' := g.(flags := g.flags + [false], cancellations := g.cancellations[req.id := token]);
      if req.id in g.cancellations
      then g'.(phase := g.phase[t := Finished], displaced := g.displaced + {g.cancellations[req.id]})
      else g'.(phase := g.phase[t := Registered(req, token)])
    case Clock(t, now) =>
      var Registered(req, token) := g.phase[t];
      var ready := g.(phase := g.phase[t := Ready(req, token)]);
      if req.deadline.None? then ready
      else if now.None? then g.(phase := g.phase[t := Finished], stale := g.stale + {req.id})
      else if req.deadline.value <= now.value then ready.(flags := Raise(g.flags, token))
      else ready.(timers := g.timers + {token})
    case Start(t) => g.(phase := g.phase[t := Handling(g.phase[t].req, g.phase[t].token)])
    case Return(t) => g.(phase := g.phase[t := Handled(g.phase[t].req, g.phase[t].token)])
    case DropGuard(t, late) =>
      var token := g.phase[t].token;
      g.(phase := g.phase[t := Leaving(g.phase[t].req, token)],
         timers := if late then g.timers else g.timers - {token})
    case Remove(t) =>
      g.(phase := g.phase[t := Finished], cancellations := g.cancellations - {g.phase[t].req.id})
    case Fire(token) => g.(flags := Raise(g.flags, token), timers := g.timers - {token})
    case Cancel(id) =>
      if id in g.cancellations then g.(flags := Raise(g.flags, g.cancellations[id])) else g
  }

  function Raise(flags: seq<bool>, token: Token): seq<bool> {
    if token < |flags| then flags[token := true] else flags
  }

  /** The boolean that `cancel` returns. */
  predicate CancelResult(g: Graph, id: RequestId) {
    id in g.cancellations
  }

  function Run(g: Graph, events: seq<Event>): Option<Graph>
    decreases |events|
  {
    if events == [] then Some(g)
    else if CanStep(g, events[0]) then Run(Step(g, events[0]), events[1..])
    else None
  }

  predicate Initial(g: Graph) {
    && RequestGate.Initial(g.gate)
    && g.phase.Keys == g.gate.pc.Keys
    && (forall t | t in g.phase :: g.phase[t].NoCall?)
    && g.cancellations == map[] && g.flags == [] && g.timers == {} && g.displaced == {} && g.stale == {}
  }

  ghost predicate Reachable(g: Graph) {
    exists g0: Graph, events: seq<Event> :: Initial(g0) && Run(g0, events) == Some(g)
  }

  // ---------- the invariant ----------

  /** The thread put its own entry into the map and has not removed it yet. */
  predicate InFlight(p: Phase) {
    p.Registered? || p.Ready? || p.Handling? || p.Handled? || p.Leaving?
  }

  predicate PhaseMatchesGate(p: Phase, pc: Pc) {
    match p
    case NoCall => pc.Outside? || pc.AtNotifyAll?
    case Waiting(_) => pc.AtLoop? || pc.AtWait? || pc.Asleep? || pc.Woken? || pc.AtExit? || pc.AtAdmit?
    case Finished => pc.Inside? || pc.AtDrop? || pc.AtNotify? || pc.AtRelease? || pc.Refused?
    case _ => pc.Inside?
  }

  predicate ThreadsOk(g: Graph) {
    && g.phase.Keys == g.gate.pc.Keys
    && forall t | t in g.phase :: PhaseMatchesGate(g.phase[t], g.gate.pc[t])
  }

  datatype Flight = Flight(id: RequestId, token: Token)

  /** The requests in flight, by thread. */
  function Flights(phase: map<Tid, Phase>): map<Tid, Flight> {
    map t | t in phase && InFlight(phase[t]) :: Flight(phase[t].req.id, phase[t].token)
  }

  lemma FlightsUpdate(phase: map<Tid, Phase>, t: Tid, p: Phase)
    ensures Flights(phase[t := p]) ==
      if InFlight(p) then Flights(phase)[t := Flight(p.req.id, p.token)] else Flights(phase) - {t}
  {
  }

  /** Some in-flight thread registered `id`. */
  ghost predicate HasRegistrant(f: map<Tid, Flight>, id: RequestId) {
    exists t :: t in f && f[t].id == id
  }

  ghost predicate FlightsOk(f: map<Tid, Flight>, c: map<RequestId, Token>, displaced: set<Token>, stale: set<RequestId>) {
    && (forall t | t in f :: f[t].id in c && f[t].id !in stale)
    && (forall t, u | t in f && u in f && t != u :: f[t].id != f[u].id)
    && (forall t | t in f && f[t].id in c :: c[f[t].id] == f[t].token <==> f[t].token !in displaced)
    && (forall t, id | t in f && id in c && id != f[t].id :: c[id] != f[t].token)
  }

  ghost predicate EntriesOk(f: map<Tid, Flight>, c: map<RequestId, Token>, displaced: set<Token>, stale: set<RequestId>) {
    && (forall id | id in c :: id in stale || HasRegistrant(f, id))
    && (forall id | id in stale :: id in c)
    && (forall i, j | i in c && j in c && i != j :: c[i] != c[j])
    && (forall id | id in c :: c[id] !in displaced)
  }

  ghost predicate TokensOk(f: map<Tid, Flight>, c: map<RequestId, Token>, displaced: set<Token>, n: nat) {
    && (forall t | t in f :: f[t].token < n)
    && (forall id | id in c :: c[id] < n)
    && (forall k | k in displaced :: k < n)
  }

  ghost predicate RegistryOk(f: map<Tid, Flight>, c: map<RequestId, Token>, displaced: set<Token>,
                             stale: set<RequestId>, n: nat) {
    FlightsOk(f, c, displaced, stale) && EntriesOk(f, c, displaced, stale) && TokensOk(f, c, displaced, n)
  }

  ghost predicate TimersOk(g: Graph) {
    forall k | k in g.timers :: k < |g.flags|
  }

  ghost predicate GraphRegistryOk(g: Graph) {
    RegistryOk(Flights(g.phase), g.cancellations, g.displaced, g.stale, |g.flags|)
  }

  ghost predicate Ok(g: Graph) {
    && Inv(g.gate) && ThreadsOk(g) && TimersOk(g)
    && GraphRegistryOk(g)
  }

  lemma InitialOk(g: Graph)
    requires Initial(g)
    ensures Ok(g)
  {
    InitialInv(g.gate);
    assert Flights(g.phase) == map[];
  }

  lemma OwnPhaseOk(g: Graph, a: Action)
    requires ThreadsOk(g) && CanStep(g, Gate(a)) && a.t in Apply(g.gate, a).pc
    ensures PhaseMatchesGate(GatePhase(g, a), Apply(g.gate, a).pc[a.t])
    ensures InFlight(GatePhase(g, a)) <==> InFlight(g.phase[a.t])
    ensures InFlight(g.phase[a.t]) ==> GatePhase(g, a) == g.phase[a.t]
  {
    OwnStep(g.gate, a);
    assert PhaseMatchesGate(g.phase[a.t], g.gate.pc[a.t]);
  }

  lemma GateThreadsOk(g: Graph, a: Action)
    requires ThreadsOk(g) && CanStep(g, Gate(a))
    ensures ThreadsOk(Step(g, Gate(a)))
  {
    OthersStep(g.gate, a);
    OwnPhaseOk(g, a);
    hide Apply, GatePhase, Enabled, PhaseMatchesGate, InFlight, CanStep;
    OtherPhasesOk(g.phase, g.gate.pc, Apply(g.gate, a).pc, a.t, GatePhase(g, a));
  }

  /** A step of the gate alone moves no request in or out of flight. */
  lemma GateFlights(g: Graph, a: Action)
    requires ThreadsOk(g) && CanStep(g, Gate(a)) && a.t in Apply(g.gate, a).pc
    ensures Flights(Step(g, Gate(a)).phase) == Flights(g.phase)
  {
    OwnPhaseOk(g, a);
    hide Apply, GatePhase, Enabled, PhaseMatchesGate;
    FlightsUpdate(g.phase, a.t, GatePhase(g, a));
    FlightsDomain(g.phase, a.t);
    hide Flights;
  }

  lemma GateEventOk(g: Graph, a: Action)
    requires Inv(g.gate) && ThreadsOk(g) && CanStep(g, Gate(a))
    ensures Inv(Step(g, Gate(a)).gate) && ThreadsOk(Step(g, Gate(a)))
    ensures Flights(Step(g, Gate(a)).phase) == Flights(g.phase)
  {
    hide Apply, GatePhase, Enabled, PhaseMatchesGate, Inv, Flights, ThreadsOk;
    StepInv(g.gate, a);
    GateThreadsOk(g, a);
    OwnStep(g.gate, a);
    GateFlights(g, a);
  }

  lemma FlightsDomain(phase: map<Tid, Phase>, t: Tid)
    ensures t in Flights(phase) <==> t in phase && InFlight(phase[t])
    ensures t in Flights(phase) ==> Flights(phase)[t] == Flight(phase[t].req.id, phase[t].token)
  {
  }

  lemma OtherPhasesOk(phase: map<Tid, Phase>, pc: map<Tid, Pc>, pc': map<Tid, Pc>, t: Tid, p: Phase)
    requires phase.Keys == pc.Keys == pc'.Keys && t in phase
    requires forall u | u in phase :: PhaseMatchesGate(phase[u], pc[u])
    requires forall u | u in pc && u != t :: pc'[u] == pc[u] || (pc[u].Asleep? && pc'[u].Woken?)
    requires PhaseMatchesGate(p, pc'[t])
    ensures forall u | u in phase[t := p] :: PhaseMatchesGate(phase[t := p][u], pc'[u])
  {
    forall u | u in phase && u != t ensures PhaseMatchesGate(phase[u], pc'[u]) {
      assert PhaseMatchesGate(phase[u], pc[u]);
    }
  }

  lemma CallOk(g: Graph, t: Tid, req: Request)
    requires Inv(g.gate) && ThreadsOk(g) && CanStep(g, Call(t, req))
    ensures Inv(Step(g, Call(t, req)).gate) && ThreadsOk(Step(g, Call(t, req)))
  {
    StepInv(g.gate, Lock(t));
    OwnStep(g.gate, Lock(t));
    OthersStep(g.gate, Lock(t));
    hide Apply, Inv, Enabled;
    OtherPhasesOk(g.phase, g.gate.pc, Apply(g.gate, Lock(t)).pc, t, Waiting(req));
  }

  /** Events that neither touch the gate nor start a call move one thread along while it owns its permit. */
  lemma PhaseEventOk(g: Graph, e: Event)
    requires ThreadsOk(g) && CanStep(g, e) && !e.Gate? && !e.Call?
    ensures Step(g, e).gate == g.gate && ThreadsOk(Step(g, e))
  {
    hide Inv, Apply, Enabled;
    if !e.Fire? && !e.Cancel? {
      assert PhaseMatchesGate(g.phase[e.t], g.gate.pc[e.t]);
      assert g.gate.pc[e.t].Inside?;
    }
  }

  lemma TimersStepOk(g: Graph, e: Event)
    requires TimersOk(g) && CanStep(g, e)
    requires e.Clock? ==> g.phase[e.t].token < |g.flags|
    ensures TimersOk(Step(g, e))
  {
    hide Apply, Enabled;
    match e {
      case Gate(_) =>
      case Clock(t, now) =>
      case _ =>
    }
  }

  /** What one event does to the requests in flight. */
  lemma FlightsStep(g: Graph, e: Event)
    requires ThreadsOk(g) && CanStep(g, e) && !e.Gate?
    ensures var f := Flights(Step(g, e).phase);
      match e
      case Register(t) =>
        f == if g.phase[t].req.id in g.cancellations then Flights(g.phase)
             else Flights(g.phase)[t := Flight(g.phase[t].req.id, |g.flags|)]
      case Clock(t, now) =>
        f == if g.phase[t].req.deadline.Some? && now.None? then Flights(g.phase) - {t} else Flights(g.phase)
      case Remove(t) => f == Flights(g.phase) - {t}
      case _ => f == Flights(g.phase)
  {
    if !e.Fire? && !e.Cancel? {
      FlightsUpdate(g.phase, e.t, Step(g, e).phase[e.t]);
    }
  }

  lemma RegisterFresh(f: map<Tid, Flight>, c: map<RequestId, Token>, d: set<Token>, s: set<RequestId>, n: nat,
                      t: Tid, id: RequestId)
    requires RegistryOk(f, c, d, s, n) && t !in f && id !in c
    ensures RegistryOk(f[t := Flight(id, n)], c[id := n], d, s, n + 1)
  {
    FreshEntry(f, c, d, s, n, t, id);
    assert FlightsOk(f[t := Flight(id, n)], c[id := n], d, s) by {
      hide EntriesOk;
    }
    assert TokensOk(f[t := Flight(id, n)], c[id := n], d, n + 1) by {
      hide EntriesOk, FlightsOk;
    }
  }

  lemma FreshEntry(f: map<Tid, Flight>, c: map<RequestId, Token>, d: set<Token>, s: set<RequestId>, n: nat,
                   t: Tid, id: RequestId)
    requires EntriesOk(f, c, d, s) && TokensOk(f, c, d, n) && t !in f && id !in c
    ensures EntriesOk(f[t := Flight(id, n)], c[id := n], d, s)
  {
    var f' := f[t := Flight(id, n)];
    forall i | i in c[id := n] ensures i in s || HasRegistrant(f', i) {
      if i == id {
        assert t in f' && f'[t].id == id;
      } else if i !in s {
        var u :| u in f && f[u].id == i;
        assert u in f' && f'[u].id == i;
      }
    }
  }

  lemma RegisterDuplicate(f: map<Tid, Flight>, c: map<RequestId, Token>, d: set<Token>, s: set<RequestId>, n: nat,
                          id: RequestId)
    requires RegistryOk(f, c, d, s, n) && id in c
    ensures RegistryOk(f, c[id := n], d + {c[id]}, s, n + 1)
  {
    var c', d' := c[id := n], d + {c[id]};
    assert EntriesOk(f, c', d', s) by {
      hide FlightsOk, TokensOk;
    }
    assert FlightsOk(f, c', d', s) by {
      hide EntriesOk;
    }
    assert TokensOk(f, c', d', n + 1) by {
      hide EntriesOk, FlightsOk;
    }
  }

  lemma LeaveStale(f: map<Tid, Flight>, c: map<RequestId, Token>, d: set<Token>, s: set<RequestId>, n: nat, t: Tid)
    requires RegistryOk(f, c, d, s, n) && t in f
    ensures RegistryOk(f - {t}, c, d, s + {f[t].id}, n)
  {
    forall i | i in c && i !in s + {f[t].id} ensures HasRegistrant(f - {t}, i) {
      var u :| u in f && f[u].id == i;
      assert u in f - {t} && (f - {t})[u].id == i;
    }
  }

  lemma Unregister(f: map<Tid, Flight>, c: map<RequestId, Token>, d: set<Token>, s: set<RequestId>, n: nat, t: Tid)
    requires RegistryOk(f, c, d, s, n) && t in f
    ensures RegistryOk(f - {t}, c - {f[t].id}, d, s, n)
  {
    forall i | i in c - {f[t].id} && i !in s ensures HasRegistrant(f - {t}, i) {
      var u :| u in f && f[u].id == i;
      assert u in f - {t} && (f - {t})[u].id == i;
    }
  }

  lemma RegisterEventOk(g: Graph, t: Tid)
    requires Ok(g) && CanStep(g, Register(t))
    ensures GraphRegistryOk(Step(g, Register(t)))
  {
    var f, id := Flights(g.phase), g.phase[t].req.id;
    FlightsStep(g, Register(t));
    hide Inv, Flights, FlightsOk, EntriesOk, TokensOk;
    if id in g.cancellations {
      RegisterDuplicate(f, g.cancellations, g.displaced, g.stale, |g.flags|, id);
    } else {
      assert t !in f by { assert !InFlight(g.phase[t]); FlightsDomain(g.phase, t); }
      RegisterFresh(f, g.cancellations, g.displaced, g.stale, |g.flags|, t, id);
    }
  }

  lemma ClockEventOk(g: Graph, t: Tid, now: Option<int>)
    requires Ok(g) && CanStep(g, Clock(t, now))
    ensures GraphRegistryOk(Step(g, Clock(t, now)))
  {
    FlightsStep(g, Clock(t, now));
    FlightsDomain(g.phase, t);
    hide Inv, Flights, FlightsOk, EntriesOk, TokensOk;
    if g.phase[t].req.deadline.Some? && now.None? {
      LeaveStale(Flights(g.phase), g.cancellations, g.displaced, g.stale, |g.flags|, t);
    }
  }

  lemma RemoveEventOk(g: Graph, t: Tid)
    requires Ok(g) && CanStep(g, Remove(t))
    ensures GraphRegistryOk(Step(g, Remove(t)))
  {
    FlightsStep(g, Remove(t));
    FlightsDomain(g.phase, t);
    hide Inv, Flights, FlightsOk, EntriesOk, TokensOk;
    Unregister(Flights(g.phase), g.cancellations, g.displaced, g.stale, |g.flags|, t);
  }

  lemma QuietEventOk(g: Graph, e: Event)
    requires Ok(g) && CanStep(g, e) && !e.Register? && !e.Clock? && !e.Remove?
    ensures GraphRegistryOk(Step(g, e))
  {
    if e.Gate? {
      GateEventOk(g, e.action);
    } else {
      FlightsStep(g, e);
    }
    hide Inv, Apply, Enabled, Flights, FlightsOk, EntriesOk, TokensOk;
  }

  lemma StepOk(g: Graph, e: Event)
    requires Ok(g) && CanStep(g, e)
    ensures Ok(Step(g, e))
  {
    if e.Clock? {
      FlightsDomain(g.phase, e.t);
    }
    TimersStepOk(g, e);
    hide Inv, Apply, Enabled, Flights, ThreadsOk, TimersOk, RegistryOk;
    match e {
      case Gate(a) => GateEventOk(g, a); QuietEventOk(g, e);
      case Call(t, req) => CallOk(g, t, req); QuietEventOk(g, e);
      case Register(t) => PhaseEventOk(g, e); RegisterEventOk(g, t);
      case Clock(t, now) => PhaseEventOk(g, e); ClockEventOk(g, t, now);
      case Remove(t) => PhaseEventOk(g, e); RemoveEventOk(g, t);
      case _ => PhaseEventOk(g, e); QuietEventOk(g, e);
    }
  }

  lemma {:induction false} RunOk(g: Graph, events: seq<Event>)
    requires Ok(g) && Run(g, events).Some?
    ensures Ok(Run(g, events).value)
    decreases |events|
  {
    if events != [] {
      StepOk(g, events[0]);
      RunOk(Step(g, events[0]), events[1..]);
    }
  }

  lemma ReachableOk(g: Graph)
    requires Reachable(g)
    ensures Ok(g)
  {
    var g0: Graph, events: seq<Event> :| Initial(g0) && Run(g0, events) == Some(g);
    InitialOk(g0);
    RunOk(g0, events);
  }

  // ---------- exclusion ----------

  function Handlers(g: Graph): set<Tid> {
    set t | t in g.phase && g.phase[t].Handling?
  }

  lemma SubsetSize<T>(a: set<T>, b: set<T>)
    requires a <= b
    ensures |a| <= |b|
  {
    assert b == a + (b - a);
  }

  /** Two handlers for one request id never run at once, and at most `maximum` run at all. */
  lemma HandlersAreExclusive(g: Graph)
    requires Reachable(g)
    ensures forall t, u | t in Handlers(g) && u in Handlers(g) && g.phase[t].req.id == g.phase[u].req.id :: t == u
    ensures |Handlers(g)| <= g.gate.maximum
  {
    ReachableOk(g);
    assert Handlers(g) <= Permits(g.gate);
    forall t | t in Handlers(g) ensures t in Flights(g.phase) && Flights(g.phase)[t].id == g.phase[t].req.id {}
    SubsetSize(Handlers(g), Permits(g.gate));
  }

  /** A raised cancellation flag stays raised for ever. */
  lemma {:induction false} FlagsNeverFall(g: Graph, events: seq<Event>)
    requires Run(g, events).Some?
    ensures var g' := Run(g, events).value;
      |g.flags| <= |g'.flags| && forall k | 0 <= k < |g.flags| && g.flags[k] :: g'.flags[k]
    decreases |events|
  {
    if events != [] {
      FlagsNeverFall(Step(g, events[0]), events[1..]);
    }
  }

  // ---------- cancel ----------

  /** `cancel(id)` answers true exactly while a request with that id is in flight or a clock error
      has left its entry behind. */
  lemma CancelResultExactly(g: Graph, id: RequestId)
    requires Reachable(g)
    ensures CancelResult(g, id) <==> id in g.stale || HasRegistrant(Flights(g.phase), id)
  {
    ReachableOk(g);
  }

  /** `cancel` of a request in flight raises that request's own flag if and only if no rejected
      duplicate has overwritten its entry; no other in-flight request is ever touched. */
  lemma CancelReachesExactly(g: Graph, t: Tid)
    requires Reachable(g) && t in g.phase && InFlight(g.phase[t])
    ensures g.phase[t].token < |g.flags|
    ensures CanStep(g, Cancel(g.phase[t].req.id))
    ensures var g' := Step(g, Cancel(g.phase[t].req.id)); var token := g.phase[t].token;
      && (token !in g.displaced ==> g'.flags == g.flags[token := true])
      && (token in g.displaced ==> g'.flags[token] == g.flags[token])
      && (forall u | u in g.phase && u != t && InFlight(g.phase[u]) ::
            g.phase[u].token < |g.flags| == |g'.flags| && g'.flags[g.phase[u].token] == g.flags[g.phase[u].token])
  {
    ReachableOk(g);
    var f := Flights(g.phase);
    assert t in f && f[t] == Flight(g.phase[t].req.id, g.phase[t].token);
    forall u | u in g.phase && InFlight(g.phase[u])
      ensures u in f && f[u] == Flight(g.phase[u].req.id, g.phase[u].token) {}
  }

  /** `cancel` of any id, in flight, stale or unknown, touches no request in flight under another id. */
  lemma CancelTouchesNoOther(g: Graph, id: RequestId)
    requires Reachable(g)
    ensures CanStep(g, Cancel(id))
    ensures var g' := Step(g, Cancel(id));
      forall u | u in g.phase && InFlight(g.phase[u]) && g.phase[u].req.id != id ::
        g.phase[u].token < |g.flags| == |g'.flags| && g'.flags[g.phase[u].token] == g.flags[g.phase[u].token]
  {
    ReachableOk(g);
    var f := Flights(g.phase);
    forall u | u in g.phase && InFlight(g.phase[u])
      ensures u in f && f[u] == Flight(g.phase[u].req.id, g.phase[u].token) {}
  }

  /** A registration that finds another in-flight request with the same id. */
  ghost predicate CollidesInFlight(g: Graph, e: Event) {
    e.Register? && In(g, e.t) && g.phase[e.t].Admitted? && HasRegistrant(Flights(g.phase), g.phase[e.t].req.id)
  }

  ghost predicate DistinctInFlight(g: Graph, events: seq<Event>)
    decreases |events|
  {
    events == [] ||
    (CanStep(g, events[0]) && !CollidesInFlight(g, events[0]) && DistinctInFlight(Step(g, events[0]), events[1..]))
  }

  ghost predicate NoneDisplaced(g: Graph) {
    forall t | t in Flights(g.phase) :: Flights(g.phase)[t].token !in g.displaced
  }

  lemma DistinctStepDisplacesNobody(g: Graph, e: Event)
    requires Ok(g) && NoneDisplaced(g) && CanStep(g, e) && !CollidesInFlight(g, e)
    ensures NoneDisplaced(Step(g, e))
  {
    if e.Gate? {
      GateEventOk(g, e.action);
    } else {
      FlightsStep(g, e);
      if e.Register? {
        var id := g.phase[e.t].req.id;
        forall t | t in Flights(g.phase) ensures id in g.cancellations ==> Flights(g.phase)[t].token != g.cancellations[id] {
          assert Flights(g.phase)[t].id != id;
        }
      }
    }
  }

  lemma {:induction false} DistinctRunDisplacesNobody(g: Graph, events: seq<Event>)
    requires Ok(g) && NoneDisplaced(g) && DistinctInFlight(g, events) && Run(g, events).Some?
    ensures NoneDisplaced(Run(g, events).value)
    decreases |events|
  {
    if events != [] {
      StepOk(g, events[0]);
      DistinctStepDisplacesNobody(g, events[0]);
      DistinctRunDisplacesNobody(Step(g, events[0]), events[1..]);
    }
  }

  /** In a run whose in-flight ids are distinct, `cancel` always raises exactly the flag of the
      request in flight under that id. */
  lemma CancelIsPreciseInDistinctRuns(g0: Graph, events: seq<Event>, t: Tid)
    requires Initial(g0) && DistinctInFlight(g0, events) && Run(g0, events).Some?
    requires var g := Run(g0, events).value; t in g.phase && InFlight(g.phase[t])
    ensures var g := Run(g0, events).value; var p := g.phase[t];
      && CancelResult(g, p.req.id)
      && p.token < |g.flags|
      && CanStep(g, Cancel(p.req.id))
      && Step(g, Cancel(p.req.id)).flags == g.flags[p.token := true]
  {
    var g := Run(g0, events).value;
    InitialOk(g0);
    DistinctRunDisplacesNobody(g0, events);
    assert Reachable(g);
    CancelReachesExactly(g, t);
    CancelResultExactly(g, g.phase[t].req.id);
    assert t in Flights(g.phase) && Flights(g.phase)[t].id == g.phase[t].req.id;
  }

  lemma {:induction false} HistoryGrows(g: Graph, events: seq<Event>)
    requires Run(g, events).Some?
    ensures var end := Run(g, events).value;
      g.displaced <= end.displaced && g.stale <= end.stale && |g.flags| <= |end.flags|
    decreases |events|
  {
    if events != [] {
      HistoryGrows(Step(g, events[0]), events[1..]);
    }
  }

  /** A token that a duplicate overwrote never comes back into the map: in every later state no id leads to it,
      and no `cancel` changes its flag. */
  lemma DisplacedForEver(g: Graph, events: seq<Event>, id: RequestId)
    requires Reachable(g) && Run(g, events).Some?
    ensures var end := Run(g, events).value;
      && (id in end.cancellations ==> end.cancellations[id] !in g.displaced)
      && CanStep(end, Cancel(id))
      && forall token | token in g.displaced && token < |end.flags| ::
           token < |Step(end, Cancel(id)).flags| && Step(end, Cancel(id)).flags[token] == end.flags[token]
  {
    ReachableOk(g);
    RunOk(g, events);
    HistoryGrows(g, events);
  }

  /** After a clock error the id is refused as a duplicate in every later state of every run. */
  lemma StaleIdIsRefusedForEver(g: Graph, events: seq<Event>, t: Tid)
    requires Reachable(g) && Run(g, events).Some?
    requires var g' := Run(g, events).value; CanStep(g', Register(t)) && g'.phase[t].req.id in g.stale
    ensures var g' := Run(g, events).value; Step(g', Register(t)).phase[t].Finished?
  {
    ReachableOk(g);
    RunOk(g, events);
    HistoryGrows(g, events);
  }

  /** One rejected duplicate is enough to cut `cancel` off from the running request. */
  lemma DuplicateRedirectsCancel(g: Graph, t: Tid, u: Tid)
    requires Reachable(g) && t in g.phase && g.phase[t].Handling?
    requires CanStep(g, Register(u)) && g.phase[u].req.id == g.phase[t].req.id
    requires g.phase[t].token < |g.flags|
    ensures var g' := Step(g, Register(u)); var id := g.phase[t].req.id;
      && g'.phase[u].Finished? && g'.phase[t] == g.phase[t]
      && CanStep(g', Cancel(id)) && CancelResult(g', id)
      && Step(g', Cancel(id)).flags[g.phase[t].token] == g.flags[g.phase[t].token]
  {
    ReachableOk(g);
    assert t in Flights(g.phase) && Flights(g.phase)[t].id == g.phase[t].req.id;
  }

  /** Such a state exists: thread 0 handles `id` with its flag down, thread 1 was admitted with the same id. */
  lemma DuplicateWitness(id: RequestId) returns (g: Graph)
    ensures Reachable(g) && g.phase.Keys == {0, 1} && |g.flags| == 1 && !g.flags[0]
    ensures g.phase[0] == Handling(Request(id, None), 0)
    ensures g.phase[1] == Admitted(Request(id, None))
  {
    g := HandlerWitness(id);
    g := AdmitCaller(g, 1, Request(id, None));
  }

  lemma HandlerWitness(id: RequestId) returns (g: Graph)
    ensures Reachable(g) && g.phase == map[0 := Handling(Request(id, None), 0), 1 := NoCall] && g.flags == [false]
    ensures g.gate == State(2, 1, false, false, Option<Tid>.None, map[0 := Inside, 1 := Outside])
  {
    var r := Request(id, None);
    var g0 := Graph(State(2, 0, false, false, Option<Tid>.None, map[0 := Outside, 1 := Outside]),
                    map[0 := NoCall, 1 := NoCall], map[], [], {}, {}, {});
    assert Run(g0, []) == Some(g0);
    var g1 := AdmitCaller(g0, 0, r);
    g := StartHandler(g1, 0, r);
    assert g.phase == map[0 := Handling(r, 0), 1 := NoCall];
    assert g.gate.pc == map[0 := Inside, 1 := Outside];
  }

  /** A fresh request without a deadline reaches its handler. */
  lemma StartHandler(g: Graph, t: Tid, req: Request) returns (g': Graph)
    requires Reachable(g) && t in g.phase && g.phase[t] == Admitted(req)
    requires req.id !in g.cancellations && req.deadline.None?
    ensures Reachable(g')
    ensures g' == g.(phase := g.phase[t := Handling(req, |g.flags|)], flags := g.flags + [false],
                     cancellations := g.cancellations[req.id := |g.flags|])
  {
    hide Apply, Enabled;
    g' := Extend(g, Register(t));
    assert g'.phase == g.phase[t := Registered(req, |g.flags|)];
    g' := Extend(g', Clock(t, None));
    assert g'.phase == g.phase[t := Ready(req, |g.flags|)];
    g' := Extend(g', Start(t));
    assert g'.phase == g.phase[t := Handling(req, |g.flags|)];
  }

  /** An uncontended `enter`. */
  lemma AdmitCaller(g: Graph, t: Tid, req: Request) returns (g': Graph)
    requires Reachable(g) && CanStep(g, Call(t, req)) && g.gate.active < g.gate.maximum && !g.gate.shut
    ensures Reachable(g')
    ensures g' == g.(gate := g.gate.(active := g.gate.active + 1, pc := g.gate.pc[t := Inside]),
                     phase := g.phase[t := Admitted(req)])
  {
    hide Reachable, Run;
    g' := Extend(g, Call(t, req));
    g' := Extend(g', Gate(Check(t)));
    assert g'.gate.pc == g.gate.pc[t := AtExit(false)];
    g' := Extend(g', Gate(Reload(t)));
    assert g'.gate.pc == g.gate.pc[t := AtAdmit(false)];
    g' := Extend(g', Gate(Admit(t)));
    assert g'.gate.pc == g.gate.pc[t := Inside];
    assert g'.phase == g.phase[t := Admitted(req)];
  }

  lemma {:induction false} RunSnoc(g: Graph, events: seq<Event>, e: Event)
    requires Run(g, events).Some? && CanStep(Run(g, events).value, e)
    ensures Run(g, events + [e]) == Some(Step(Run(g, events).value, e))
    decreases |events|
  {
    if events == [] {
      assert Run(Step(g, e), []) == Some(Step(g, e));
      assert ([] + [e])[1..] == [];
    } else {
      assert (events + [e])[1..] == events[1..] + [e];
      RunSnoc(Step(g, events[0]), events[1..], e);
    }
  }

  lemma Extend(g: Graph, e: Event) returns (g': Graph)
    requires Reachable(g) && CanStep(g, e)
    ensures g' == Step(g, e) && Reachable(g')
  {
    g' := Step(g, e);
    var g0: Graph, events: seq<Event> :| Initial(g0) && Run(g0, events) == Some(g);
    RunSnoc(g0, events, e);
  }
}
