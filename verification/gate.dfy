// The daemon's admission gate: a mutex-guarded counter, a condition variable and an atomic
// shutdown flag, as a step system over any number of threads.

module RequestGate {
  import opened Options

  type Tid = nat

  /** Where a thread stands in `enter`, in the permit's destructor or in `begin_shutdown`. */
  datatype Pc =
    | Outside
    | AtLoop(woken: bool)  // holds the mutex, about to evaluate the loop condition
    | AtWait               // holds the mutex, the condition was true, not yet asleep
    | Asleep               // blocked in the condition variable, mutex released
    | Woken                // notified or spuriously woken, has not yet rechecked
    | AtExit(woken: bool)  // holds the mutex, left the loop, about to reload the flag
    | AtAdmit(woken: bool) // holds the mutex, the reload read false, about to count its permit
    | Inside               // owns a permit
    | AtDrop               // holds the mutex, about to give the permit back
    | AtNotify             // holds the mutex, counter decremented, nobody notified yet
    | AtRelease            // holds the mutex, notification sent
    | Refused              // `enter` returned ShuttingDown
    | AtNotifyAll          // stored the shutdown flag, notification still to come

  /** `notified` records that some `notify_all` has happened after a store of the flag. */
  datatype State = State(
    maximum: nat,
    active: nat,
    shut: bool,
    notified: bool,
    mutex: Option<Tid>,
    pc: map<Tid, Pc>)

  datatype Action =
    | Lock(t: Tid)
    | Check(t: Tid)
    | Sleep(t: Tid)
    | Spurious(t: Tid)
    | Relock(t: Tid)
    | Reload(t: Tid)
    | Admit(t: Tid)
    | LockDrop(t: Tid)
    | Decrement(t: Tid)
    | NotifyOne(t: Tid, chosen: Option<Tid>)
    | Release(t: Tid)
    | Leave(t: Tid)
    | Store(t: Tid)
    | NotifyAll(t: Tid)

  predicate At(s: State, t: Tid, p: Pc) {
    t in s.pc && s.pc[t] == p
  }

  predicate Holds(p: Pc) {
    p.AtLoop? || p.AtWait? || p.AtExit? || p.AtAdmit? || p.AtDrop? || p.AtNotify? || p.AtRelease?
  }

  predicate Sleeping(s: State, t: Tid) {
    At(s, t, Asleep)
  }

  predicate NobodySleeps(s: State) {
    forall t | t in s.pc :: s.pc[t] != Asleep
  }

  predicate Enabled(s: State, a: Action) {
    a.t in s.pc &&
    match a
    case Lock(t) => s.pc[t].Outside? && s.mutex.None?
    case Check(t) => s.pc[t].AtLoop?
    case Sleep(t) => s.pc[t].AtWait?
    case Spurious(t) => s.pc[t].Asleep?
    case Relock(t) => s.pc[t].Woken? && s.mutex.None?
    case Reload(t) => s.pc[t].AtExit?
    case Admit(t) => s.pc[t].AtAdmit?
    case LockDrop(t) => s.pc[t].Inside? && s.mutex.None?
    case Decrement(t) => s.pc[t].AtDrop?
    case NotifyOne(t, chosen) =>
      && s.pc[t].AtNotify?
      && (match chosen
          case None => NobodySleeps(s)
          case Some(u) => Sleeping(s, u))
    case Release(t) => s.pc[t].AtRelease?
    case Leave(t) => s.pc[t].Refused?
    case Store(t) => s.pc[t].Outside?
    case NotifyAll(t) => s.pc[t].AtNotifyAll?
  }

  function WakeAll(pc: map<Tid, Pc>): map<Tid, Pc> {
    map t | t in pc :: if pc[t].Asleep? then Woken else pc[t]
  }

  function Apply(s: State, a: Action): State
    requires Enabled(s, a)
  {
    match a
    case Lock(t) => s.(mutex := Some(t), pc := s.pc[t := AtLoop(false)])
    case Check(t) =>
      if s.active >= s.maximum && !s.shut then s.(pc := s.pc[t := AtWait])
      else s.(pc := s.pc[t := AtExit(s.pc[t].woken)])
    case Sleep(t) => s.(mutex := None, pc := s.pc[t := Asleep])
    case Spurious(t) => s.(pc := s.pc[t := Woken])
    case Relock(t) => s.(mutex := Some(t), pc := s.pc[t := AtLoop(true)])
    case Reload(t) =>
      if s.shut then s.(mutex := None, pc := s.pc[t := Refused])
      else s.(pc := s.pc[t := AtAdmit(s.pc[t].woken)])
    case Admit(t) => s.(mutex := None, active := s.active + 1, pc := s.pc[t := Inside])
    case LockDrop(t) => s.(mutex := Some(t), pc := s.pc[t := AtDrop])
    case Decrement(t) =>
      s.(active := if s.active == 0 then 0 else s.active - 1, pc := s.pc[t := AtNotify])
    case NotifyOne(t, chosen) =>
      var pc := if chosen.Some? then s.pc[chosen.value := Woken] else s.pc;
      s.(pc := pc[t := AtRelease])
    case Release(t) => s.(mutex := None, pc := s.pc[t := Outside])
    case Leave(t) => s.(pc := s.pc[t := Outside])
    case Store(t) => s.(shut := true, pc := s.pc[t := AtNotifyAll])
    case NotifyAll(t) => s.(notified := true, pc := WakeAll(s.pc)[t := Outside])
  }

  /** The state after a whole run, or None when some action was not possible. */
  function Run(s: State, actions: seq<Action>): Option<State>
    decreases |actions|
  {
    if actions == [] then Some(s)
    else if Enabled(s, actions[0]) then Run(Apply(s, actions[0]), actions[1..])
    else None
  }

  predicate Initial(s: State) {
    && s.maximum >= 1 && s.active == 0 && !s.shut && !s.notified && s.mutex.None?
    && forall t | t in s.pc :: s.pc[t].Outside?
  }

  ghost predicate Reachable(s: State) {
    exists s0: State, actions: seq<Action> :: Initial(s0) && Run(s0, actions) == Some(s)
  }

  // ---------- the inductive invariant ----------

  function Permits(s: State): set<Tid> {
    set t | t in s.pc && (s.pc[t].Inside? || s.pc[t].AtDrop?)
  }

  function WokenThreads(s: State): set<Tid> {
    set t | t in s.pc && s.pc[t].Woken?
  }

  /** A wakeup that the mutex owner still carries: it is about to notify, or it was itself woken. */
  function Pending(s: State): nat {
    match s.mutex
    case None => 0
    case Some(t) =>
      if t in s.pc && (s.pc[t].AtNotify? || s.pc[t] == AtLoop(true) || s.pc[t] == AtExit(true)
                        || s.pc[t] == AtAdmit(true)) then 1
      else 0
  }

  predicate MutexOk(s: State) {
    && (forall t | t in s.pc :: Holds(s.pc[t]) <==> s.mutex == Some(t))
    && (s.mutex.Some? ==> s.mutex.value in s.pc)
  }

  predicate LocalOk(s: State) {
    forall t | t in s.pc ::
      && (s.pc[t].AtWait? ==> s.active >= s.maximum)
      && (s.pc[t].AtExit? && !s.shut ==> s.active < s.maximum)
      && (s.pc[t].AtAdmit? ==> s.active < s.maximum)
      && (s.pc[t].AtNotifyAll? ==> s.shut)
  }

  predicate WakeupOk(s: State) {
    !s.shut && !NobodySleeps(s) ==> s.active + |WokenThreads(s)| + Pending(s) >= s.maximum
  }

  predicate OwnerNotifies(s: State) {
    s.mutex.Some? && At(s, s.mutex.value, AtNotify)
  }

  predicate StopsSoon(s: State, t: Tid) {
    t in s.pc && (s.pc[t].Asleep? || s.pc[t].AtWait?)
  }

  ghost predicate DrainOk(s: State) {
    && (s.notified ==> s.shut)
    && (s.notified ==> forall t, u | StopsSoon(s, t) && StopsSoon(s, u) :: t == u)
    && (s.notified && !NobodySleeps(s) ==> s.active >= s.maximum || (OwnerNotifies(s) && s.active + 1 >= s.maximum))
  }

  ghost predicate Inv(s: State) {
    && s.maximum >= 1
    && s.active == |Permits(s)| <= s.maximum
    && MutexOk(s) && LocalOk(s) && WakeupOk(s) && DrainOk(s)
  }

  lemma InitialInv(s: State)
    requires Initial(s)
    ensures Inv(s)
  {
    assert Permits(s) == {};
  }

  /** How one step moves the set of permits. */
  lemma PermitsStep(s: State, a: Action)
    requires Enabled(s, a) && MutexOk(s)
    ensures var s' := Apply(s, a);
      Permits(s') ==
        if a.Admit? then Permits(s) + {a.t}
        else if a.Decrement? then Permits(s) - {a.t}
        else Permits(s)
    ensures a.Admit? ==> a.t !in Permits(s)
    ensures a.Decrement? ==> a.t in Permits(s)
  {
    var s' := Apply(s, a);
    var expected := if a.Admit? then Permits(s) + {a.t}
                    else if a.Decrement? then Permits(s) - {a.t}
                    else Permits(s);
    forall t ensures t in Permits(s') <==> t in expected {}
  }

  /** How one step moves the set of woken threads; shutdown's notification is the exception. */
  lemma WokenStep(s: State, a: Action)
    requires Enabled(s, a) && !a.NotifyAll?
    ensures var s' := Apply(s, a);
      WokenThreads(s') ==
        match a
        case Spurious(t) => WokenThreads(s) + {t}
        case NotifyOne(_, Some(u)) => WokenThreads(s) + {u}
        case Relock(t) => WokenThreads(s) - {t}
        case _ => WokenThreads(s)
  {
    var s' := Apply(s, a);
    var expected := match a
                    case Spurious(t) => WokenThreads(s) + {t}
                    case NotifyOne(_, Some(u)) => WokenThreads(s) + {u}
                    case Relock(t) => WokenThreads(s) - {t}
                    case _ => WokenThreads(s);
    forall t ensures t in WokenThreads(s') <==> t in expected {}
  }

  /** A step moves its own thread; any other thread can at most be woken by it. */
  lemma OthersStep(s: State, a: Action)
    requires Enabled(s, a)
    ensures Apply(s, a).pc.Keys == s.pc.Keys
    ensures forall u | u in s.pc && u != a.t ::
      Apply(s, a).pc[u] == s.pc[u] || (s.pc[u].Asleep? && Apply(s, a).pc[u].Woken?)
  {
  }

  lemma OwnStep(s: State, a: Action)
    requires Enabled(s, a)
    ensures a.t in Apply(s, a).pc
    ensures var p := Apply(s, a).pc[a.t];
      match a
      case Lock(_) => p == AtLoop(false)
      case Check(_) => p.AtWait? || p.AtExit?
      case Sleep(_) => p == Asleep
      case Spurious(_) => p == Woken
      case Relock(_) => p == AtLoop(true)
      case Reload(_) => if s.shut then p == Refused else p.AtAdmit?
      case Admit(_) => p == Inside
      case LockDrop(_) => p == AtDrop
      case Decrement(_) => p == AtNotify
      case NotifyOne(_, _) => p == AtRelease
      case Store(_) => p == AtNotifyAll
      case _ => p == Outside
  {
  }

  lemma MutexStep(s: State, a: Action)
    requires MutexOk(s) && Enabled(s, a)
    ensures MutexOk(Apply(s, a))
  {
  }

  lemma LocalStep(s: State, a: Action)
    requires Inv(s) && Enabled(s, a)
    ensures LocalOk(Apply(s, a))
  {
    hide WakeupOk, DrainOk;
    if a.Decrement? {
      assert forall t | t in s.pc && t != a.t :: !Holds(s.pc[t]);
    }
  }

  /** How one step moves the wakeup carried by the mutex owner. */
  lemma PendingStep(s: State, a: Action)
    requires MutexOk(s) && Enabled(s, a)
    ensures var p := Pending(Apply(s, a));
      match a
      case Lock(_) => Pending(s) == 0 && p == 0
      case Check(_) => p == if s.active >= s.maximum && !s.shut then 0 else Pending(s)
      case Relock(_) => Pending(s) == 0 && p == 1
      case Reload(_) => p == if s.shut then 0 else Pending(s)
      case Admit(_) => Pending(s) <= 1 && p == 0
      case LockDrop(_) => Pending(s) == 0 && p == 0
      case Decrement(_) => Pending(s) == 0 && p == 1
      case NotifyOne(_, _) => Pending(s) == 1 && p == 0
      case Sleep(_) => p == 0
      case Release(_) => Pending(s) == 0 && p == 0
      case NotifyAll(_) => true
      case _ => p == Pending(s)
  {
  }

  lemma SleepersStep(s: State, a: Action)
    requires Enabled(s, a) && !a.Sleep?
    ensures NobodySleeps(s) ==> NobodySleeps(Apply(s, a))
    ensures a.NotifyAll? ==> NobodySleeps(Apply(s, a))
  {
  }

  lemma WakeupStep(s: State, a: Action)
    requires Inv(s) && Enabled(s, a)
    ensures WakeupOk(Apply(s, a))
  {
    var s' := Apply(s, a);
    if !s'.shut && !NobodySleeps(s') {
      if a.Sleep? {
        assert s.pc[a.t].AtWait?;
      } else {
        SleepersStep(s, a);
        PendingStep(s, a);
        WokenStep(s, a);
        WokenMembers(s, a);
        hide Pending, WokenThreads, NobodySleeps, MutexOk, LocalOk, DrainOk, Permits;
        match a {
          case NotifyOne(_, Some(u)) =>
          case Relock(t) =>
          case _ =>
        }
      }
    }
  }

  lemma WokenMembers(s: State, a: Action)
    requires Enabled(s, a)
    ensures a.Spurious? ==> a.t !in WokenThreads(s)
    ensures a.Relock? ==> a.t in WokenThreads(s)
    ensures a.NotifyOne? && a.chosen.Some? ==> a.chosen.value !in WokenThreads(s)
    ensures a.NotifyOne? && a.chosen.None? ==> NobodySleeps(s)
  {
  }

  /** Once shutdown has notified, nobody new is about to sleep. */
  lemma StopsStep(s: State, a: Action, t: Tid)
    requires MutexOk(s) && Enabled(s, a) && Apply(s, a).notified && StopsSoon(Apply(s, a), t) && (s.notified ==> s.shut)
    ensures if s.notified && !a.NotifyAll? then StopsSoon(s, t) else s.mutex == Some(t)
  {
  }

  lemma OneStops(s: State, a: Action, t: Tid, u: Tid)
    requires MutexOk(s) && DrainOk(s) && Enabled(s, a) && Apply(s, a).notified
    requires StopsSoon(Apply(s, a), t) && StopsSoon(Apply(s, a), u)
    ensures t == u
  {
    hide MutexOk, Enabled, Apply, StopsSoon;
    StopsStep(s, a, t);
    StopsStep(s, a, u);
  }

  /** What one step of another kind than sleeping does to the reason why somebody may still sleep. */
  lemma DrainReason(s: State, a: Action)
    requires Inv(s) && Enabled(s, a) && !a.NotifyOne? && !a.Sleep?
    requires s.active >= s.maximum || (OwnerNotifies(s) && s.active + 1 >= s.maximum)
    ensures var s' := Apply(s, a); s'.active >= s'.maximum || (OwnerNotifies(s') && s'.active + 1 >= s'.maximum)
  {
    hide WakeupOk, DrainOk, LocalOk, Permits;
  }

  lemma SleeperBefore(s: State, a: Action, t: Tid)
    requires Enabled(s, a) && Sleeping(Apply(s, a), t) && !(a.Sleep? && a.t == t)
    ensures Sleeping(s, t) && !a.NotifyAll? && !(a.NotifyOne? && a.chosen == Some(t)) && !(a.NotifyOne? && a.chosen.None?)
  {
  }

  lemma DrainStep(s: State, a: Action)
    requires Inv(s) && Enabled(s, a)
    ensures DrainOk(Apply(s, a))
  {
    var s' := Apply(s, a);
    assert s'.notified ==> s'.shut;
    forall t, u | s'.notified && StopsSoon(s', t) && StopsSoon(s', u) ensures t == u {
      OneStops(s, a, t, u);
    }
    if a.NotifyOne? && s.notified {
      LastIsNotified(s, a);
    }
    if s'.notified && !NobodySleeps(s') {
      if a.Sleep? {
        assert s'.active >= s'.maximum;
      } else {
        hide Apply, MutexOk, LocalOk, WakeupOk, Enabled, Permits, OwnerNotifies;
        var t :| t in s'.pc && s'.pc[t] == Asleep;
        SleeperBefore(s, a, t);
        NotifiedBefore(s, a);
        DrainReason(s, a);
      }
    }
  }

  lemma LastIsNotified(s: State, a: Action)
    requires DrainOk(s) && s.notified && Enabled(s, a) && a.NotifyOne?
    ensures NobodySleeps(Apply(s, a))
  {
    forall t | t in s.pc && s.pc[t].Asleep? ensures a.chosen == Some(t) {
      assert StopsSoon(s, t) && StopsSoon(s, a.chosen.value);
    }
  }

  lemma NotifiedBefore(s: State, a: Action)
    requires Enabled(s, a) && !a.NotifyAll?
    ensures Apply(s, a).notified == s.notified
  {
  }

  /** Every step of every thread keeps the invariant. */
  lemma StepInv(s: State, a: Action)
    requires Inv(s) && Enabled(s, a)
    ensures Inv(Apply(s, a))
  {
    MutexStep(s, a);
    LocalStep(s, a);
    WakeupStep(s, a);
    DrainStep(s, a);
    PermitsStep(s, a);
    hide MutexOk, LocalOk, WakeupOk, DrainOk;
  }

  lemma {:induction false} RunInv(s: State, actions: seq<Action>)
    requires Inv(s) && Run(s, actions).Some?
    ensures Inv(Run(s, actions).value)
    decreases |actions|
  {
    if actions != [] {
      StepInv(s, actions[0]);
      RunInv(Apply(s, actions[0]), actions[1..]);
    }
  }

  lemma ReachableInv(s: State)
    requires Reachable(s)
    ensures Inv(s)
  {
    var s0: State, actions: seq<Action> :| Initial(s0) && Run(s0, actions) == Some(s);
    InitialInv(s0);
    RunInv(s0, actions);
  }

  // ---------- what the gate promises ----------

  /** The counter is the number of live permits and never exceeds the bound. */
  lemma ActiveCountsPermits(s: State)
    requires Reachable(s)
    ensures s.active == |Permits(s)| <= s.maximum
  {
    ReachableInv(s);
  }

  /** No lost wakeup: whenever the mutex is free, a sleeper implies that every slot is taken or
      promised to a thread that was woken and has not yet rechecked. */
  lemma NoLostWakeup(s: State)
    requires Reachable(s) && !s.shut
    requires exists t :: Sleeping(s, t)
    ensures s.active + |WokenThreads(s)| + Pending(s) >= s.maximum
    ensures s.mutex.None? ==> s.active + |WokenThreads(s)| >= s.maximum
  {
    ReachableInv(s);
  }

  /** A free slot never coexists with only sleepers: some woken thread can take it in four steps. */
  lemma FreeSlotIsTakeable(s: State) returns (t: Tid)
    requires Reachable(s) && !s.shut && s.mutex.None?
    requires exists u :: Sleeping(s, u)
    requires s.active < s.maximum
    ensures At(s, t, Woken)
    ensures var r := Run(s, [Relock(t), Check(t), Reload(t), Admit(t)]);
      r.Some? && At(r.value, t, Inside) && r.value.active == s.active + 1
  {
    NoLostWakeup(s);
    assert WokenThreads(s) != {};
    t :| t in WokenThreads(s);
    var s1 := Apply(s, Relock(t));
    assert [Relock(t), Check(t), Reload(t), Admit(t)][1..] == [Check(t), Reload(t), Admit(t)];
    SlotIsTaken(s1, t);
  }

  /** The owner of the mutex takes a free slot in three steps. */
  lemma SlotIsTaken(s: State, t: Tid)
    requires t in s.pc && s.pc[t].AtLoop? && !s.shut && s.active < s.maximum
    ensures var r := Run(s, [Check(t), Reload(t), Admit(t)]);
      r.Some? && At(r.value, t, Inside) && r.value.active == s.active + 1
  {
    var s1 := Apply(s, Check(t));
    var s2 := Apply(s1, Reload(t));
    var s3 := Apply(s2, Admit(t));
    assert [Check(t), Reload(t), Admit(t)][1..] == [Reload(t), Admit(t)];
    assert [Reload(t), Admit(t)][1..] == [Admit(t)];
    assert Run(s2, [Admit(t)]) == Run(s3, []);
  }

  /** When nobody is on the way in or out, sleepers exist only because the gate is full. */
  lemma QuiescentSleepersMeanFull(s: State)
    requires Reachable(s) && !s.shut
    requires forall t | t in s.pc :: s.pc[t].Outside? || s.pc[t].Inside? || s.pc[t].Asleep?
    requires exists t :: Sleeping(s, t)
    ensures |set t | t in s.pc && s.pc[t].Inside?| == s.maximum
  {
    ReachableInv(s);
    assert WokenThreads(s) == {};
    assert (set t | t in s.pc && s.pc[t].Inside?) == Permits(s);
  }

  /** Threads whose reload read the flag as false and that have not counted their permit yet. */
  function Admitting(s: State): set<Tid> {
    set t | t in s.pc && s.pc[t].AtAdmit?
  }

  lemma AdmittingStep(s: State, a: Action)
    requires Enabled(s, a)
    ensures var s' := Apply(s, a);
      Admitting(s') ==
        if a.Reload? && !s.shut then Admitting(s) + {a.t}
        else if a.Admit? then Admitting(s) - {a.t}
        else Admitting(s)
    ensures a.Admit? ==> a.t in Admitting(s)
  {
    var s' := Apply(s, a);
    var expected := if a.Reload? && !s.shut then Admitting(s) + {a.t}
                    else if a.Admit? then Admitting(s) - {a.t}
                    else Admitting(s);
    forall t ensures t in Admitting(s') <==> t in expected {}
  }

  lemma {:induction false} RunAfterStore(s: State, actions: seq<Action>)
    requires Inv(s) && s.shut && Run(s, actions).Some?
    ensures var end := Run(s, actions).value; end.shut && Permits(end) + Admitting(end) <= Permits(s) + Admitting(s)
    decreases |actions|
  {
    hide Inv, Permits, Admitting, Enabled, Apply;
    if actions != [] {
      ShutStays(s, actions[0]);
      StepInv(s, actions[0]);
      PermitsStep(s, actions[0]);
      AdmittingStep(s, actions[0]);
      RunAfterStore(Apply(s, actions[0]), actions[1..]);
    }
  }

  lemma ShutStays(s: State, a: Action)
    requires Inv(s) && s.shut && Enabled(s, a)
    ensures Apply(s, a).shut && MutexOk(s)
  {
  }

  /** Once the flag is stored, nobody comes to a permit whose reload did not come before the store. That is at
      most one thread, the owner of the mutex, and only until it has let the mutex go. */
  lemma NoPermitAfterStore(s: State, actions: seq<Action>)
    requires Reachable(s) && s.shut && Run(s, actions).Some?
    ensures var end := Run(s, actions).value; end.shut && Permits(end) <= Permits(s) + Admitting(s)
    ensures forall t | t in Admitting(s) :: s.mutex == Some(t)
    ensures s.mutex.None? ==> Permits(Run(s, actions).value) <= Permits(s)
  {
    ReachableInv(s);
    RunAfterStore(s, actions);
    AdmittingOwns(s);
  }

  lemma AdmittingOwns(s: State)
    requires Inv(s)
    ensures forall t | t in Admitting(s) :: s.mutex == Some(t)
    ensures s.mutex.None? ==> Admitting(s) == {}
  {
  }

  /** The store takes no mutex, so that one permit can follow it. */
  lemma PermitCanFollowStore() returns (s: State)
    ensures Reachable(s) && s.shut && Permits(s) == {}
    ensures Enabled(s, Admit(0)) && Permits(Apply(s, Admit(0))) == {0}
  {
    hide Run, Permits;
    var s0 := State(1, 0, false, false, Option<Tid>.None, map[0 := Outside, 1 := Outside]);
    s := State(1, 0, true, false, Some(0), map[0 := AtAdmit(false), 1 := AtNotifyAll]);
    OvertakingRun(s0, s);
    assert Initial(s0);
    OneIsAdmitted(s);
  }

  lemma OvertakingRun(s0: State, s: State)
    requires s0 == State(1, 0, false, false, Option<Tid>.None, map[0 := Outside, 1 := Outside])
    requires s == State(1, 0, true, false, Some(0), map[0 := AtAdmit(false), 1 := AtNotifyAll])
    ensures Run(s0, [Lock(0), Check(0), Reload(0), Store(1)]) == Some(s)
  {
    hide Run;
    var s1 := s0.(mutex := Some(0), pc := map[0 := AtLoop(false), 1 := Outside]);
    var s2 := s1.(pc := map[0 := AtExit(false), 1 := Outside]);
    var s3 := s2.(pc := map[0 := AtAdmit(false), 1 := Outside]);
    RunCons(s3, Store(1), [], s);
    assert [Store(1)] + [] == [Store(1)];
    RunCons(s2, Reload(0), [Store(1)], s3);
    assert [Reload(0)] + [Store(1)] == [Reload(0), Store(1)];
    RunCons(s1, Check(0), [Reload(0), Store(1)], s2);
    assert [Check(0)] + [Reload(0), Store(1)] == [Check(0), Reload(0), Store(1)];
    RunCons(s0, Lock(0), [Check(0), Reload(0), Store(1)], s1);
    assert [Lock(0)] + [Check(0), Reload(0), Store(1)] == [Lock(0), Check(0), Reload(0), Store(1)];
    RunNothing(s);
  }

  lemma OneIsAdmitted(s: State)
    requires s.pc == map[0 := AtAdmit(false), 1 := AtNotifyAll]
    ensures Permits(s) == {} && Enabled(s, Admit(0)) && Permits(Apply(s, Admit(0))) == {0}
  {
  }

  lemma RunNothing(s: State)
    ensures Run(s, []) == Some(s)
  {
  }

  lemma RunCons(s: State, a: Action, rest: seq<Action>, next: State)
    requires Enabled(s, a) && Apply(s, a) == next
    ensures Run(s, [a] + rest) == Run(next, rest)
  {
    assert ([a] + rest)[1..] == rest;
  }

  /** The thread is inside `enter` and its reload has not read the flag as false, or `enter` has just refused it. */
  predicate InEnter(p: Pc) {
    p.AtLoop? || p.AtWait? || p.Asleep? || p.Woken? || p.AtExit? || p.Refused?
  }

  /** Steps of its own that a thread inside `enter` is away from its refusal once the flag is stored. */
  function StepsToRefusal(p: Pc): nat {
    match p
    case AtWait => 4
    case Asleep => 3
    case Woken => 3
    case AtLoop(_) => 2
    case AtExit(_) => 1
    case _ => 0
  }

  /** How many steps the thread takes itself; a spurious wakeup is not one. */
  function OwnSteps(actions: seq<Action>, t: Tid): nat {
    if actions == [] then 0
    else (if actions[0].t == t && !actions[0].Spurious? then 1 else 0) + OwnSteps(actions[1..], t)
  }

  lemma EnterStep(s: State, t: Tid, a: Action)
    requires s.shut && t in s.pc && InEnter(s.pc[t]) && Enabled(s, a) && a != Leave(t)
    ensures var s' := Apply(s, a);
      && s'.shut && t in s'.pc && InEnter(s'.pc[t])
      && StepsToRefusal(s'.pc[t]) + (if a.t == t && !a.Spurious? then 1 else 0) == StepsToRefusal(s.pc[t])
  {
  }

  /** Every `enter` in progress when the flag is stored, unless its reload came before, and every one that
      begins later, only ever moves towards its refusal: each step of its own brings it one nearer, no other
      step takes it away, and so it is refused once it has taken as many as it was away. */
  lemma {:induction false} EnterAfterStoreIsRefused(s: State, t: Tid, actions: seq<Action>)
    requires s.shut && t in s.pc && InEnter(s.pc[t])
    requires Run(s, actions).Some? && forall a | a in actions :: a != Leave(t)
    ensures var end := Run(s, actions).value;
      && t in end.pc && InEnter(end.pc[t])
      && StepsToRefusal(end.pc[t]) + OwnSteps(actions, t) == StepsToRefusal(s.pc[t])
      && (OwnSteps(actions, t) == StepsToRefusal(s.pc[t]) <==> end.pc[t].Refused?)
    decreases |actions|
  {
    if actions != [] {
      assert actions[0] in actions;
      EnterStep(s, t, actions[0]);
      forall a | a in actions[1..] ensures a != Leave(t) {
        assert a in actions;
      }
      EnterAfterStoreIsRefused(Apply(s, actions[0]), t, actions[1..]);
    }
  }

  /** A thread that acquires the mutex after the store is refused in two steps, which nothing can hold up. */
  lemma OwnerIsRefusedAtOnce(s: State, t: Tid)
    requires s.shut && t in s.pc && s.pc[t].AtLoop?
    ensures var r := Run(s, [Check(t), Reload(t)]); r.Some? && At(r.value, t, Refused)
  {
    assert [Check(t), Reload(t)][1..] == [Reload(t)];
    var s1 := Apply(s, Check(t));
    assert Run(s1, [Reload(t)]) == Run(Apply(s1, Reload(t)), []);
  }

  /** After the shutdown notification at most one thread sleeps, and only while the gate is full
      or the mutex owner is about to notify it. */
  lemma ShutdownLeavesOneSleeper(s: State, t: Tid)
    requires Reachable(s) && s.notified && Sleeping(s, t)
    ensures forall u | Sleeping(s, u) :: u == t
    ensures s.active >= s.maximum >= 1 || OwnerNotifies(s)
    ensures s.mutex.None? ==> s.active == s.maximum
  {
    ReachableInv(s);
    assert StopsSoon(s, t);
    forall u | Sleeping(s, u) ensures u == t {
      assert StopsSoon(s, u);
    }
  }

  /** The next permit to be dropped wakes that thread, and then nobody sleeps. */
  lemma NextDropWakesLastSleeper(s: State, t: Tid, u: Tid, chosen: Option<Tid>)
    requires Reachable(s) && s.notified && Sleeping(s, t)
    requires Enabled(s, NotifyOne(u, chosen))
    ensures chosen == Some(t)
    ensures NobodySleeps(Apply(s, NotifyOne(u, chosen)))
  {
    ShutdownLeavesOneSleeper(s, t);
    var s' := Apply(s, NotifyOne(u, chosen));
    forall v | v in s'.pc ensures s'.pc[v] != Asleep {
      if s'.pc[v] == Asleep {
        assert Sleeping(s, v);
      }
    }
  }

  /** All permits returned and the mutex free: the gate is drained. */
  lemma DrainedGateHasNoSleeper(s: State)
    requires Reachable(s) && s.notified && Permits(s) == {} && s.mutex.None?
    ensures NobodySleeps(s)
  {
    ReachableInv(s);
  }
}
