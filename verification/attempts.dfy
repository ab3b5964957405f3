// The two attempts of a load: what a failure says about the file, and which instant a success or a skip answers for.

module LoadAttempts {
  import opened Options
  import opened LineSplitting
  import opened TextCache

  // ---------- changes of a file ----------

  /** The path holds something else at the next instant. */
  predicate Differs(h: seq<Disk>, path: Path, k: nat) {
    && k + 1 < |h|
    && !(path in h[k] && path in h[k + 1] && h[k][path] == h[k + 1][path])
    && (path in h[k] || path in h[k + 1])
  }

  predicate ChangedIn(h: seq<Disk>, path: Path, from: nat, upto: nat) {
    upto < |h| && exists k | from <= k < upto :: Differs(h, path, k)
  }

  predicate ChangedTwice(h: seq<Disk>, path: Path, from: nat, upto: nat) {
    upto < |h| && exists j, k | from <= j < k < upto :: Differs(h, path, j) && Differs(h, path, k)
  }

  predicate AbsentIn(h: seq<Disk>, path: Path, from: nat, upto: nat) {
    upto < |h| && exists k | from <= k <= upto :: path !in h[k]
  }

  /** Looks that disagree mean a change in between. */
  lemma {:induction false} LooksDisagree(h: seq<Disk>, path: Path, i: nat, j: nat)
    requires i <= j < |h| && Metadata(h[i], path) != Metadata(h[j], path)
    ensures ChangedIn(h, path, i, j)
    decreases j - i
  {
    if Metadata(h[i], path) == Metadata(h[i + 1], path) {
      LooksDisagree(h, path, i + 1, j);
    } else {
      assert Differs(h, path, i);
    }
  }

  lemma TwoChanges(h: seq<Disk>, path: Path, from: nat, mid: nat, upto: nat)
    requires from <= mid <= upto && ChangedIn(h, path, from, mid) && ChangedIn(h, path, mid, upto)
    ensures ChangedTwice(h, path, from, upto)
  {
    hide Differs;
    var j :| from <= j < mid && Differs(h, path, j);
    var k :| mid <= k < upto && Differs(h, path, k);
  }

  lemma LaterChange(h: seq<Disk>, path: Path, from: nat, mid: nat, upto: nat)
    requires mid <= upto < |h| && ChangedIn(h, path, from, mid)
    ensures ChangedIn(h, path, from, upto)
  {
    hide Differs;
  }

  lemma ChangesExtend(h: seq<Disk>, h': seq<Disk>, path: Path, from: nat, upto: nat)
    requires h <= h'
    ensures ChangedIn(h, path, from, upto) ==> ChangedIn(h', path, from, upto)
    ensures ChangedTwice(h, path, from, upto) ==> ChangedTwice(h', path, from, upto)
    ensures AbsentIn(h, path, from, upto) ==> AbsentIn(h', path, from, upto)
  {
    assert forall k | 0 <= k < |h| :: h'[k] == h[k];
    forall k: nat | Differs(h, path, k) ensures Differs(h', path, k) {
    }
    if ChangedTwice(h, path, from, upto) {
      var j, k :| from <= j < k < upto && Differs(h, path, j) && Differs(h, path, k);
      assert Differs(h', path, j) && Differs(h', path, k);
    }
  }

  // ---------- why a call fails ----------

  /** A second attempt means that the file changed before it; a failure that it changed twice, or was away. */
  predicate FailureOk(h: seq<Disk>, th: Thread) {
    match th
    case Idle => true
    case ToStore(_, _, _, _) => true
    case Finished(path, began, ended, outcome) =>
      outcome == Skipped(Unreadable) ==> AbsentIn(h, path, began, ended) || ChangedTwice(h, path, began, ended)
    case ToLook(path, began, attempt) => attempt == 0 || (h != [] && ChangedIn(h, path, began, |h| - 1))
    case _ => th.attempt == 0 || ChangedIn(h, th.path, th.began, th.at)
  }

  lemma FailureExtends(c: Config, h: seq<Disk>, d: Disk, th: Thread)
    requires h != [] && FailureOk(h, th)
    ensures FailureOk(h + [d], th)
  {
    hide ChangedIn, ChangedTwice, AbsentIn;
    match th {
      case Idle =>
      case ToStore(_, _, _, _) =>
      case Finished(path, began, ended, _) => ChangesExtend(h, h + [d], path, began, ended);
      case ToLook(path, began, attempt) =>
        ChangesExtend(h, h + [d], path, began, |h| - 1);
        if attempt != 0 {
          LaterChange(h + [d], path, began, |h| - 1, |h|);
        }
      case _ => ChangesExtend(h, h + [d], th.path, th.began, th.at);
    }
  }

  /** The second of two looks that disagree. */
  lemma Disagreement(c: Config, s: State, th: Thread)
    requires s.history != [] && (th.ToLookAgain? || th.ToConfirm?) && ThreadOk(c, s.history, th) && FailureOk(s.history, th)
    requires Metadata(Present(s), th.path) != Some(th.before)
    ensures FailureOk(s.history, Retry(s, th))
  {
    hide ChangedIn, ChangedTwice, AbsentIn, TextOf, Unchanged;
    LooksDisagree(s.history, th.path, th.at, Now(s));
    if th.attempt == 0 {
      EarlierStart(s.history, th.path, th.began, th.at, Now(s));
    } else {
      TwoChanges(s.history, th.path, th.began, th.at, Now(s));
    }
  }

  lemma EarlierStart(h: seq<Disk>, path: Path, from: nat, mid: nat, upto: nat)
    requires from <= mid && ChangedIn(h, path, mid, upto)
    ensures ChangedIn(h, path, from, upto)
  {
    hide Differs;
  }

  lemma FailureStep(c: Config, s: State, e: Event)
    requires Inv(c, s) && Enabled(c, s, e) && !e.Change? && !e.Begin? && FailureOk(s.history, s.threads[e.t])
    requires e.EndRead? ==> e.bytes.Some?
    ensures FailureOk(s.history, Advance(c, s, e))
  {
    hide Inv, TextOf, EntryFor, Unchanged, IsFreshStamp, ChangedIn, ChangedTwice, CanRead;
    var th := s.threads[e.t];
    InvThread(c, s, e.t);
    if (e.LookAgain? || e.Confirm?) && Metadata(Present(s), th.path) != Some(th.before) {
      Disagreement(c, s, th);
    }
  }

  /** Every read of the thread gives bytes. */
  predicate ReadsWork(events: seq<Event>, t: nat) {
    forall k | 0 <= k < |events| :: events[k].EndRead? && events[k].t == t ==> events[k].bytes.Some?
  }

  lemma ApplyThread(c: Config, s: State, e: Event, t: nat)
    requires Possible(c, s, e) && t < |s.threads|
    ensures var s' := Apply(c, s, e);
      && |s'.threads| == |s.threads| && s'.history != []
      && (IsStepOf(e, t) ==> s'.history == s.history && s'.threads[t] == Advance(c, s, e))
      && (!IsStepOf(e, t) ==> s'.threads[t] == s.threads[t])
      && (e.Change? ==> s'.history == s.history + [Put(Present(s), e.path, e.file)])
      && (!e.Change? ==> s'.history == s.history)
  {
    hide Advance, Put;
  }

  lemma {:induction false} FailureRun(c: Config, s: State, events: seq<Event>, t: nat)
    requires Inv(c, s) && IsRun(c, s, events) && NoNewCall(events, t) && ReadsWork(events, t)
    requires t < |s.threads| && FailureOk(s.history, s.threads[t])
    ensures var end := Run(c, s, events); t < |end.threads| && FailureOk(end.history, end.threads[t])
    decreases |events|
  {
    hide Inv, Apply, Possible, Advance, FailureOk, IsFreshChange;
    if events != [] {
      var e := events[0];
      assert !(IsStepOf(e, t) && e.Begin?) && (e.EndRead? && e.t == t ==> e.bytes.Some?);
      StepKeepsInv(c, s, e);
      ApplyThread(c, s, e, t);
      if e.Change? {
        FailureExtends(c, s.history, Put(Present(s), e.path, e.file), s.threads[t]);
      } else if e.t == t {
        FailureStep(c, s, e);
      }
      FailureRun(c, Apply(c, s, e), events[1..], t);
    }
  }

  /** A call, all of whose reads gave bytes, reports a file as unreadable only when the file was away at some instant
      of the call or changed at least twice during it: one change is made good by the second attempt. */
  lemma UnreadableHasCause(c: Config, start: State, before: seq<Event>, events: seq<Event>, t: nat)
    requires Initial(start) && IsRun(c, start, before)
    requires var call := Run(c, start, before); t < |call.threads| && call.threads[t].ToLook? && call.threads[t].attempt == 0
    requires IsRun(c, Run(c, start, before), events) && NoNewCall(events, t) && ReadsWork(events, t)
    ensures var end := Run(c, Run(c, start, before), events);
      && t < |end.threads|
      && (end.threads[t].Finished? && end.threads[t].outcome == Skipped(Unreadable) ==>
            var th := end.threads[t];
            AbsentIn(end.history, th.path, th.began, th.ended) || ChangedTwice(end.history, th.path, th.began, th.ended))
  {
    hide Inv, Run, IsRun, NoNewCall, ReadsWork;
    InitialInv(c, start);
    RunKeepsInv(c, start, before);
    FailureRun(c, Run(c, start, before), events, t);
  }

  // ---------- which instant is answered for ----------

  lemma {:induction false} QuietRun(c: Config, s: State, events: seq<Event>, t: nat, since: nat)
    requires Inv(c, s) && IsRun(c, s, events) && NoNewCall(events, t)
    requires t < |s.threads| && since < |s.history| && QuietSince(c, s.history, s.threads[t], since)
    ensures var end := Run(c, s, events); t < |end.threads| && since < |end.history| && QuietSince(c, end.history, end.threads[t], since)
    decreases |events|
  {
    hide Inv, Apply, Possible, Advance, QuietSince, IsFreshChange;
    if events != [] {
      var e := events[0];
      assert !(IsStepOf(e, t) && e.Begin?);
      StepKeepsInv(c, s, e);
      ApplyThread(c, s, e, t);
      if e.Change? {
        InvThread(c, s, t);
        QuietExtends(c, s.history, Put(Present(s), e.path, e.file), s.threads[t], since);
      } else if e.t == t {
        QuietAdvance(c, s, e, since);
      }
      QuietRun(c, Apply(c, s, e), events[1..], t, since);
    }
  }

  /** An attempt, the first or the second, whose file stays as it is from an instant before the attempt looks at it
      to the end of the call gives the one right answer for that instant. */
  lemma QuietAttemptIsExact(c: Config, start: State, before: seq<Event>, events: seq<Event>, t: nat)
    requires Initial(start) && IsRun(c, start, before)
    requires var s := Run(c, start, before); t < |s.threads| && s.threads[t].ToLook? && s.history != []
    requires IsRun(c, Run(c, start, before), events) && NoNewCall(events, t)
    ensures var s := Run(c, start, before); var end := Run(c, s, events);
      && t < |end.threads| && Now(s) < |end.history|
      && (end.threads[t].Finished? && Unchanged(end.history, end.threads[t].path, Now(s), end.threads[t].ended) ==>
            Answers(c, end.history[Now(s)], end.threads[t].path, end.threads[t].outcome))
  {
    hide Inv, Run, IsRun, NoNewCall, Unchanged, Answers;
    InitialInv(c, start);
    RunKeepsInv(c, start, before);
    var s := Run(c, start, before);
    QuietRun(c, s, events, t, Now(s));
  }

  // ---------- the answer, spelled out ----------

  /** What the right answer is: a file that is away is unreadable, one above the cap too large, one with a zero byte
      or not decodable binary, and any other is its redacted text under its own length and time. */
  lemma AnswersMean(c: Config, disk: Disk, path: Path, outcome: Outcome)
    requires Answers(c, disk, path, outcome)
    ensures outcome == Skipped(Unreadable) <==> path !in disk
    ensures outcome == Skipped(TooLarge) <==> path in disk && |disk[path].bytes| > c.maxBytes
    ensures outcome == Skipped(Binary) <==>
      path in disk && |disk[path].bytes| <= c.maxBytes && (0 in disk[path].bytes || c.decode(disk[path].bytes).None?)
    ensures outcome.Loaded? ==>
      && outcome.entry.content == c.redact(c.decode(disk[path].bytes).value).content
      && outcome.entry.redactions == c.redact(c.decode(disk[path].bytes).value).redactions
      && outcome.entry.stamp == Stamp(|disk[path].bytes|, disk[path].modified)
  {
  }
}
