// Why the cache needs fresh stamps: exactly when a changed file is answered by what it held before.

module StaleStamps {
  import opened Options
  import opened LineSplitting
  import opened Redactor
  import opened TextCache

  /** A run in which changes of one path may reuse stamps. */
  predicate IsRunBut(c: Config, s: State, events: seq<Event>, path: Path): (r: bool)
    ensures r ==> CanRun(c, s, events)
    decreases |events|
  {
    events == [] ||
    (Possible(c, s, events[0]) && (!IsChangeOf(events[0], path) ==> IsFreshChange(s, events[0]))
     && IsRunBut(c, Apply(c, s, events[0]), events[1..], path))
  }

  predicate IsChangeOf(e: Event, path: Path) {
    e.Change? && e.path == path
  }

  predicate NeverChanges(events: seq<Event>, path: Path) {
    forall k | 0 <= k < |events| :: !IsChangeOf(events[k], path)
  }

  /** The path gets a new file once, at one place of the run. */
  predicate ChangesOnce(events: seq<Event>, path: Path, g: File, m: nat) {
    && m < |events| && events[m] == Change(path, Some(g))
    && NeverChanges(events[..m], path) && NeverChanges(events[m + 1..], path)
  }

  predicate IsReadable(c: Config, f: File) {
    |f.bytes| <= c.maxBytes && TextOf(c, f.bytes).Some?
  }

  /** The entry carries the redaction of the file's text. */
  predicate Carries(c: Config, entry: Entry, f: File)
    requires IsReadable(c, f)
  {
    var r := c.redact(TextOf(c, f.bytes).value);
    entry.content == r.content && entry.redactions == r.redactions
  }

  /** From a start where the path holds f, a run that changes it to g, after which a call that began under g
      succeeds with the redaction of f and not that of g. */
  ghost predicate AnswersStale(c: Config, path: Path, f: File, g: File, start: State, events: seq<Event>, m: nat, t: nat)
    requires IsReadable(c, f) && IsReadable(c, g)
  {
    && Initial(start) && AllAre(start.history, path, f)
    && IsRunBut(c, start, events, path) && ChangesOnce(events, path, g, m)
    && SucceededUnder(Run(c, start, events), path, g, t)
    && var entry := Run(c, start, events).threads[t].outcome.entry;
       Carries(c, entry, f) && !Carries(c, entry, g)
  }

  /** The thread's last call was for the path, began when it held g, and succeeded. */
  predicate SucceededUnder(s: State, path: Path, g: File, t: nat) {
    && t < |s.threads| && s.threads[t].Finished? && s.threads[t].path == path && s.threads[t].outcome.Loaded?
    && s.threads[t].began < |s.history| && HasFile(s.history[s.threads[t].began], path, g)
  }

  predicate HasFile(disk: Disk, path: Path, f: File) {
    path in disk && disk[path] == f
  }

  predicate AllAre(h: seq<Disk>, path: Path, f: File) {
    forall k | 0 <= k < |h| :: HasFile(h[k], path, f)
  }

  /** The path held f for the first n instants and g since. */
  predicate Switched(h: seq<Disk>, path: Path, f: File, g: File, n: nat) {
    n < |h| && forall k | 0 <= k < |h| :: HasFile(h[k], path, if k < n then f else g)
  }

  // ---------- different stamps ----------

  lemma HistoryAfter(c: Config, s: State, e: Event, path: Path)
    requires Possible(c, s, e) && !IsChangeOf(e, path)
    ensures var h := Apply(c, s, e).history;
      h == s.history || (|h| == |s.history| + 1 && h[..|s.history|] == s.history
        && forall f :: HasFile(s.history[|s.history| - 1], path, f) ==> HasFile(h[|s.history|], path, f))
  {
    hide Advance;
  }

  lemma {:induction false} RunAfterSwitch(c: Config, s: State, events: seq<Event>, path: Path, f: File, g: File, n: nat)
    requires IsRunBut(c, s, events, path) && NeverChanges(events, path) && Switched(s.history, path, f, g, n)
    ensures IsRun(c, s, events) && Switched(Run(c, s, events).history, path, f, g, n)
    decreases |events|
  {
    hide Apply, Possible, HasFile, IsFreshChange;
    if events != [] {
      var s' := Apply(c, s, events[0]);
      HistoryAfter(c, s, events[0], path);
      SwitchedLater(s.history, s'.history, path, f, g, n);
      assert NeverChanges(events[1..], path);
      RunAfterSwitch(c, s', events[1..], path, f, g, n);
    }
  }

  lemma SwitchedLater(h: seq<Disk>, h': seq<Disk>, path: Path, f: File, g: File, n: nat)
    requires Switched(h, path, f, g, n)
    requires h' == h || (|h'| == |h| + 1 && h'[..|h|] == h
      && forall x :: HasFile(h[|h| - 1], path, x) ==> HasFile(h'[|h|], path, x))
    ensures Switched(h', path, f, g, n)
  {
    hide HasFile;
    assert HasFile(h[|h| - 1], path, g);
    if h' != h {
      assert forall k | 0 <= k < |h| :: h'[k] == h'[..|h|][k];
    }
  }

  lemma AllAreLater(h: seq<Disk>, h': seq<Disk>, path: Path, f: File)
    requires h != [] && AllAre(h, path, f)
    requires h' == h || (|h'| == |h| + 1 && h'[..|h|] == h
      && forall x :: HasFile(h[|h| - 1], path, x) ==> HasFile(h'[|h|], path, x))
    ensures AllAre(h', path, f)
  {
    hide HasFile;
    if h' != h {
      assert forall k | 0 <= k < |h| :: h'[k] == h'[..|h|][k];
    }
  }

  /** When the two files have different stamps, the change is fresh and so is the whole run. */
  lemma {:induction false} RunIsFresh(c: Config, s: State, events: seq<Event>, path: Path, f: File, g: File, m: nat) returns (n: nat)
    requires StampOf(f) != StampOf(g) && s.history != [] && AllAre(s.history, path, f)
    requires IsRunBut(c, s, events, path) && ChangesOnce(events, path, g, m)
    ensures IsRun(c, s, events) && Switched(Run(c, s, events).history, path, f, g, n)
    decreases |events|
  {
    var s' := Apply(c, s, events[0]);
    if m == 0 {
      n := |s.history|;
      SwitchNow(s, path, f, g);
      assert events[1..] == events[m + 1..];
      RunAfterSwitch(c, s', events[1..], path, f, g, n);
    } else {
      hide Apply, Possible, HasFile, AllAre;
      assert events[0] == events[..m][0];
      HistoryAfter(c, s, events[0], path);
      AllAreLater(s.history, s'.history, path, f);
      assert events[1..][..m - 1] == events[..m][1..] && events[1..][m..] == events[m + 1..];
      n := RunIsFresh(c, s', events[1..], path, f, g, m - 1);
    }
  }

  lemma SwitchNow(s: State, path: Path, f: File, g: File)
    requires s.history != [] && AllAre(s.history, path, f)
    ensures StampOf(f) != StampOf(g) ==> IsFreshStamp(s.history, path, StampOf(g))
    ensures Switched(s.history + [Put(Present(s), path, Some(g))], path, f, g, |s.history|)
  {
    forall k | 0 <= k < |s.history| ensures HasFile(s.history[k], path, f) {
    }
  }

  /** With different stamps, a success of a call that began after the change is the redaction of the new file. */
  lemma LoadedIsCurrent(c: Config, path: Path, f: File, g: File, start: State, events: seq<Event>, m: nat, t: nat)
    requires IsReadable(c, g) && StampOf(f) != StampOf(g)
    requires Initial(start) && AllAre(start.history, path, f)
    requires IsRunBut(c, start, events, path) && ChangesOnce(events, path, g, m)
    requires SucceededUnder(Run(c, start, events), path, g, t)
    ensures Carries(c, Run(c, start, events).threads[t].outcome.entry, g)
  {
    var n := RunIsFresh(c, start, events, path, f, g, m);
    var s := Run(c, start, events);
    var th := s.threads[t];
    hide IsRun, IsRunBut, Run, CanRun, Initial, ChangesOnce, AllAre, TextOf;
    LoadedDuringTheCall(c, start, events, t);
    var at :| th.began <= at <= th.ended < |s.history| && IsRedactionAt(c, s.history, th.path, at, th.outcome.entry);
    assert HasFile(s.history[th.began], path, if th.began < n then f else g);
    assert HasFile(s.history[at], path, if at < n then f else g);
  }

  // ---------- equal stamps ----------

  lemma ConsRun(c: Config, s: State, e: Event, rest: seq<Event>, path: Path)
    requires Possible(c, s, e) && (!IsChangeOf(e, path) ==> IsFreshChange(s, e))
    requires IsRunBut(c, Apply(c, s, e), rest, path)
    ensures IsRunBut(c, s, [e] + rest, path) && Run(c, s, [e] + rest) == Run(c, Apply(c, s, e), rest)
  {
    hide Apply, Possible, IsFreshChange;
    var events := [e] + rest;
    assert events[0] == e && events[1..] == rest;
  }

  /** The file at rest with an entry in the cache: the state after a first load. */
  function AfterLoad(path: Path, f: File, entry: Entry): State {
    State([map[path := f]], map[path := entry], [Finished(path, 0, 0, Outcome.Loaded(entry, false))])
  }

  function Start(path: Path, f: File): State {
    State([map[path := f]], map[], [Idle])
  }

  function LoadEvents(path: Path, f: File): seq<Event> {
    [Begin(0, path)] + ([Look(0)] + ([Find(0)] + ([StartRead(0)] + ReadEvents(f))))
  }

  function ReadEvents(f: File): seq<Event> {
    [EndRead(0, Some(f.bytes))] + ([LookAgain(0)] + ([Confirm(0)] + ([Store(0)] + [])))
  }

  function StaleEvents(path: Path, g: File): seq<Event> {
    [Change(path, Some(g))] + ([Begin(0, path)] + ([Look(0)] + ([Find(0)] + [])))
  }

  /** The second half of the first load. */
  lemma ReadRun(c: Config, path: Path, f: File)
    requires IsReadable(c, f)
    ensures var entry := EntryFor(c, StampOf(f), TextOf(c, f.bytes).value);
      var s := State([map[path := f]], map[], [Reading(path, 0, 0, 0, StampOf(f), 0)]);
      IsRunBut(c, s, ReadEvents(f), path) && Run(c, s, ReadEvents(f)) == AfterLoad(path, f, entry)
  {
    hide TextOf, EntryFor, IsRunBut, Run, CanRun;
    var h, stamp, raw := [map[path := f]], StampOf(f), TextOf(c, f.bytes).value;
    var entry := EntryFor(c, stamp, raw);
    var s0 := State(h, map[], [Reading(path, 0, 0, 0, stamp, 0)]);
    var s1 := State(h, map[], [ToLookAgain(path, 0, 0, 0, stamp, 0, 0, raw)]);
    var s2 := State(h, map[], [ToConfirm(path, 0, 0, 0, stamp, raw)]);
    var s3 := State(h, map[], [ToStore(path, 0, 0, entry)]);
    var s4 := AfterLoad(path, f, entry);
    assert Apply(c, s0, EndRead(0, Some(f.bytes))) == s1;
    assert Apply(c, s1, LookAgain(0)) == s2;
    assert Apply(c, s2, Confirm(0)) == s3;
    assert Apply(c, s3, Store(0)) == s4;
    NoEvents(c, s4, path);
    ConsRun(c, s3, Store(0), [], path);
    ConsRun(c, s2, Confirm(0), [Store(0)] + [], path);
    ConsRun(c, s1, LookAgain(0), [Confirm(0)] + ([Store(0)] + []), path);
    ConsRun(c, s0, EndRead(0, Some(f.bytes)), [LookAgain(0)] + ([Confirm(0)] + ([Store(0)] + [])), path);
  }

  lemma NoEvents(c: Config, s: State, path: Path)
    ensures IsRunBut(c, s, [], path) && Run(c, s, []) == s
  {
  }

  lemma LoadRun(c: Config, path: Path, f: File)
    requires IsReadable(c, f)
    ensures var entry := EntryFor(c, StampOf(f), TextOf(c, f.bytes).value);
      var s := Start(path, f);
      IsRunBut(c, s, LoadEvents(path, f), path) && Run(c, s, LoadEvents(path, f)) == AfterLoad(path, f, entry)
  {
    hide TextOf, EntryFor, IsRunBut, Run, CanRun, ReadEvents;
    var h, stamp, rest := [map[path := f]], StampOf(f), ReadEvents(f);
    var s0 := Start(path, f);
    var s1 := State(h, map[], [ToLook(path, 0, 0)]);
    var s2 := State(h, map[], [ToFind(path, 0, 0, 0, stamp)]);
    var s3 := State(h, map[], [ToRead(path, 0, 0, 0, stamp)]);
    var s4 := State(h, map[], [Reading(path, 0, 0, 0, stamp, 0)]);
    assert Apply(c, s0, Begin(0, path)) == s1;
    assert Apply(c, s1, Look(0)) == s2;
    assert Apply(c, s2, Find(0)) == s3;
    assert Apply(c, s3, StartRead(0)) == s4;
    ReadRun(c, path, f);
    ConsRun(c, s3, StartRead(0), rest, path);
    ConsRun(c, s2, Find(0), [StartRead(0)] + rest, path);
    ConsRun(c, s1, Look(0), [Find(0)] + ([StartRead(0)] + rest), path);
    ConsRun(c, s0, Begin(0, path), [Look(0)] + ([Find(0)] + ([StartRead(0)] + rest)), path);
  }

  /** The file is replaced by one with the same stamp, and a later call finds the old entry. */
  lemma StaleRun(c: Config, path: Path, f: File, g: File, entry: Entry)
    requires IsReadable(c, f) && StampOf(f) == StampOf(g) == entry.stamp
    ensures var s := AfterLoad(path, f, entry);
      IsRunBut(c, s, StaleEvents(path, g), path)
      && Run(c, s, StaleEvents(path, g)) ==
           State([map[path := f], map[path := g]], map[path := entry], [Finished(path, 1, 1, Outcome.Loaded(entry, true))])
  {
    hide TextOf, IsRunBut, Run, CanRun;
    var h, cache, stamp := [map[path := f], map[path := g]], map[path := entry], StampOf(g);
    var s0 := AfterLoad(path, f, entry);
    var s1 := State(h, cache, [Finished(path, 0, 0, Outcome.Loaded(entry, false))]);
    var s2 := State(h, cache, [ToLook(path, 1, 0)]);
    var s3 := State(h, cache, [ToFind(path, 1, 0, 1, stamp)]);
    var s4 := State(h, cache, [Finished(path, 1, 1, Outcome.Loaded(entry, true))]);
    assert map[path := f][path := g] == map[path := g];
    assert Apply(c, s0, Change(path, Some(g))) == s1;
    assert Apply(c, s1, Begin(0, path)) == s2;
    assert Apply(c, s2, Look(0)) == s3;
    assert Apply(c, s3, Find(0)) == s4;
    NoEvents(c, s4, path);
    ConsRun(c, s3, Find(0), [], path);
    ConsRun(c, s2, Look(0), [Find(0)] + [], path);
    ConsRun(c, s1, Begin(0, path), [Look(0)] + ([Find(0)] + []), path);
    ConsRun(c, s0, Change(path, Some(g)), [Begin(0, path)] + ([Look(0)] + ([Find(0)] + [])), path);
  }

  lemma {:induction false} RunAppend(c: Config, s: State, a: seq<Event>, b: seq<Event>, path: Path)
    requires IsRunBut(c, s, a, path) && IsRunBut(c, Run(c, s, a), b, path)
    ensures IsRunBut(c, s, a + b, path) && Run(c, s, a + b) == Run(c, Run(c, s, a), b)
    decreases |a|
  {
    hide Apply, Possible, IsFreshChange;
    if a == [] {
      assert a + b == b;
    } else {
      assert (a + b)[1..] == a[1..] + b;
      RunAppend(c, Apply(c, s, a[0]), a[1..], b, path);
    }
  }

  lemma StaleWitness(c: Config, path: Path, f: File, g: File)
    requires IsReadable(c, f) && IsReadable(c, g) && StampOf(f) == StampOf(g)
    requires c.redact(TextOf(c, f.bytes).value) != c.redact(TextOf(c, g.bytes).value)
    ensures AnswersStale(c, path, f, g, Start(path, f), LoadEvents(path, f) + StaleEvents(path, g), 8, 0)
  {
    var entry := EntryFor(c, StampOf(f), TextOf(c, f.bytes).value);
    LoadRun(c, path, f);
    StaleRun(c, path, f, g, entry);
    OneChange(path, f, g);
    hide IsRunBut, Run, CanRun, LoadEvents, StaleEvents, TextOf, ChangesOnce;
    RunAppend(c, Start(path, f), LoadEvents(path, f), StaleEvents(path, g), path);
    assert Carries(c, entry, f) && !Carries(c, entry, g);
  }

  lemma OneChange(path: Path, f: File, g: File)
    ensures ChangesOnce(LoadEvents(path, f) + StaleEvents(path, g), path, g, 8)
  {
    var a, b := LoadEvents(path, f), StaleEvents(path, g);
    assert |a| == 8 && (a + b)[..8] == a && (a + b)[9..] == b[1..];
  }

  /** Some run answers a later call with what the file held before the change, and not with what it holds, if
      and only if the two files bear the same stamp and their texts redact differently. */
  lemma StaleExactly(c: Config, path: Path, f: File, g: File)
    requires IsReadable(c, f) && IsReadable(c, g)
    ensures (exists start: State, events: seq<Event>, m: nat, t: nat :: AnswersStale(c, path, f, g, start, events, m, t)) <==>
      StampOf(f) == StampOf(g) && c.redact(TextOf(c, f.bytes).value) != c.redact(TextOf(c, g.bytes).value)
  {
    if start: State, events: seq<Event>, m: nat, t: nat :| AnswersStale(c, path, f, g, start, events, m, t) {
      if StampOf(f) != StampOf(g) {
        LoadedIsCurrent(c, path, f, g, start, events, m, t);
      }
    }
    if StampOf(f) == StampOf(g) && c.redact(TextOf(c, f.bytes).value) != c.redact(TextOf(c, g.bytes).value) {
      StaleWitness(c, path, f, g);
    }
  }
}
