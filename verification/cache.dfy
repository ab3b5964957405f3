// The repository provider's text cache, used by many threads while the files change under it.

module TextCache {
  import opened Options
  import opened LineSplitting
  import opened Redactor

  type Path = string

  datatype File = File(bytes: Bytes, modified: Option<nat>)

  /** The files that can be read at one instant. */
  type Disk = map<Path, File>

  datatype Stamp = Stamp(length: nat, modified: Option<nat>)

  function StampOf(f: File): Stamp {
    Stamp(|f.bytes|, f.modified)
  }

  /** A size cap, the strict UTF-8 decoder and the redaction policy in use. */
  datatype Config = Config(maxBytes: nat, decode: Bytes -> Option<string>, redact: string -> Redaction)

  datatype Entry = Entry(stamp: Stamp, content: string, redactions: nat)

  datatype Skip = Unreadable | TooLarge | Binary

  datatype Outcome = Loaded(entry: Entry, hit: bool) | Skipped(why: Skip)

  /** Text, unless there is a zero byte or the bytes are not UTF-8. */
  function TextOf(c: Config, bytes: Bytes): Option<string> {
    if 0 in bytes then None else c.decode(bytes)
  }

  function EntryFor(c: Config, stamp: Stamp, text: string): Entry {
    Entry(stamp, c.redact(text).content, c.redact(text).redactions)
  }

  /** Where a thread is in `load_text`. `began` is the instant of the call and `at` that of the first look
      at the file's metadata in the current attempt. */
  datatype Thread =
    | Idle
    | ToLook(path: Path, began: nat, attempt: nat)
    | ToFind(path: Path, began: nat, attempt: nat, at: nat, before: Stamp)
    | ToRead(path: Path, began: nat, attempt: nat, at: nat, before: Stamp)
    | Reading(path: Path, began: nat, attempt: nat, at: nat, before: Stamp, from: nat)
    | ToLookAgain(path: Path, began: nat, attempt: nat, at: nat, before: Stamp, from: nat, upto: nat, raw: string)
    | ToConfirm(path: Path, began: nat, attempt: nat, at: nat, before: Stamp, raw: string)
    | ToStore(path: Path, began: nat, at: nat, entry: Entry)
    | Finished(path: Path, began: nat, ended: nat, outcome: Outcome)

  /** All disks so far, the shared cache, and the threads. The last disk is the present one. */
  datatype State = State(history: seq<Disk>, cache: map<Path, Entry>, threads: seq<Thread>)

  datatype Event =
    | Change(path: Path, file: Option<File>)
    | Begin(t: nat, path: Path)
    | Look(t: nat)
    | Find(t: nat)
    | StartRead(t: nat)
    | EndRead(t: nat, bytes: Option<Bytes>)
    | LookAgain(t: nat)
    | Confirm(t: nat)
    | Store(t: nat)

  function Now(s: State): nat
    requires s.history != []
  {
    |s.history| - 1
  }

  /** The metadata of a path, if it can be read. */
  function Metadata(disk: Disk, path: Path): Option<Stamp> {
    if path in disk then Some(StampOf(disk[path])) else None
  }

  function Present(s: State): Disk
    requires s.history != []
  {
    s.history[Now(s)]
  }

  /** The path holds the same file, or stays absent, from one instant to another. */
  predicate Unchanged(history: seq<Disk>, path: Path, from: nat, upto: nat) {
    from <= upto < |history| && forall k | from <= k <= upto ::
      if path in history[from] then path in history[k] && history[k][path] == history[from][path] else path !in history[k]
  }

  /** A change gives the file a stamp that it never had. */
  predicate IsFreshStamp(history: seq<Disk>, path: Path, stamp: Stamp) {
    forall k | 0 <= k < |history| && path in history[k] :: StampOf(history[k][path]) != stamp
  }

  predicate IsFreshChange(s: State, e: Event) {
    e.Change? && e.file.Some? ==> IsFreshStamp(s.history, e.path, StampOf(e.file.value))
  }

  predicate Enabled(c: Config, s: State, e: Event) {
    Possible(c, s, e) && IsFreshChange(s, e)
  }

  /** What can happen at all, if a change may also reuse a stamp. */
  predicate Possible(c: Config, s: State, e: Event) {
    && s.history != []
    && (!e.Change? ==> e.t < |s.threads|)
    && match e
       case Change(path, file) => true
       case Begin(t, path) => s.threads[t].Idle? || s.threads[t].Finished?
       case Look(t) => s.threads[t].ToLook?
       case Find(t) => s.threads[t].ToFind?
       case StartRead(t) => s.threads[t].ToRead?
       case EndRead(t, bytes) => s.threads[t].Reading? && CanRead(s.history, s.threads[t].path, s.threads[t].from, Now(s), bytes)
       case LookAgain(t) => s.threads[t].ToLookAgain?
       case Confirm(t) => s.threads[t].ToConfirm?
       case Store(t) => s.threads[t].ToStore?
  }

  function BytesOf(disk: Disk, path: Path): Option<Bytes> {
    if path in disk then Some(disk[path].bytes) else None
  }

  /** A read during which the file does not change gives its bytes; any other may give anything. */
  predicate CanRead(h: seq<Disk>, path: Path, from: nat, upto: nat, bytes: Option<Bytes>) {
    Unchanged(h, path, from, upto) ==> bytes == BytesOf(h[from], path)
  }

  function Finish(s: State, th: Thread, outcome: Outcome): Thread
    requires s.history != [] && !th.Idle?
  {
    Finished(th.path, th.began, Now(s), outcome)
  }

  /** A second attempt, or none. */
  function Retry(s: State, th: Thread): Thread
    requires s.history != [] && (th.ToLookAgain? || th.ToConfirm?)
  {
    if th.attempt == 0 then ToLook(th.path, th.began, 1) else Finish(s, th, Skipped(Unreadable))
  }

  /** What a thread's own step makes of it. */
  function Advance(c: Config, s: State, e: Event): Thread
    requires Possible(c, s, e) && !e.Change?
  {
    var th := s.threads[e.t];
    match e
    case Begin(_, path) => ToLook(path, Now(s), 0)
    case Look(_) =>
      (match Metadata(Present(s), th.path)
       case None => Finish(s, th, Skipped(Unreadable))
       case Some(before) =>
         if before.length > c.maxBytes then Finish(s, th, Skipped(TooLarge))
         else ToFind(th.path, th.began, th.attempt, Now(s), before))
    case Find(_) =>
      if th.path in s.cache && s.cache[th.path].stamp == th.before then Finish(s, th, Loaded(s.cache[th.path], true))
      else ToRead(th.path, th.began, th.attempt, th.at, th.before)
    case StartRead(_) => Reading(th.path, th.began, th.attempt, th.at, th.before, Now(s))
    case EndRead(_, bytes) =>
      (match bytes
       case None => Finish(s, th, Skipped(Unreadable))
       case Some(b) =>
         match TextOf(c, b)
         case None => Finish(s, th, Skipped(Binary))
         case Some(raw) => ToLookAgain(th.path, th.began, th.attempt, th.at, th.before, th.from, Now(s), raw))
    case LookAgain(_) =>
      (match Metadata(Present(s), th.path)
       case None => Finish(s, th, Skipped(Unreadable))
       case Some(after) =>
         if th.before != after then Retry(s, th)
         else ToConfirm(th.path, th.began, th.attempt, th.at, after, th.raw))
    case Confirm(_) =>
      (match Metadata(Present(s), th.path)
       case None => Finish(s, th, Skipped(Unreadable))
       case Some(final) =>
         if th.before != final then Retry(s, th)
         else ToStore(th.path, th.began, th.at, EntryFor(c, final, th.raw)))
    case Store(_) => Finish(s, th, Loaded(th.entry, false))
  }

  function Put(disk: Disk, path: Path, file: Option<File>): Disk {
    if file.Some? then disk[path := file.value] else disk - {path}
  }

  function Apply(c: Config, s: State, e: Event): State
    requires Possible(c, s, e)
  {
    if e.Change? then s.(history := s.history + [Put(Present(s), e.path, e.file)])
    else
      var th := s.threads[e.t];
      State(s.history,
            if e.Store? then s.cache[th.path := th.entry] else s.cache,
            s.threads[e.t := Advance(c, s, e)])
  }

  // ---------- runs ----------

  /** Any disk to begin with, an empty cache and idle threads. */
  predicate Initial(s: State) {
    |s.history| == 1 && s.cache == map[] && forall t | 0 <= t < |s.threads| :: s.threads[t].Idle?
  }

  predicate CanRun(c: Config, s: State, events: seq<Event>)
    decreases |events|
  {
    events == [] || (Possible(c, s, events[0]) && CanRun(c, Apply(c, s, events[0]), events[1..]))
  }

  /** A run in which every change of a file gives it a fresh stamp. */
  predicate IsRun(c: Config, s: State, events: seq<Event>): (r: bool)
    ensures r ==> CanRun(c, s, events)
    decreases |events|
  {
    events == [] || (Enabled(c, s, events[0]) && IsRun(c, Apply(c, s, events[0]), events[1..]))
  }

  function Run(c: Config, s: State, events: seq<Event>): State
    requires CanRun(c, s, events)
    decreases |events|
  {
    if events == [] then s else Run(c, Apply(c, s, events[0]), events[1..])
  }

  // ---------- the invariant ----------

  /** The entry is the redaction of what the path held at an instant. */
  predicate IsRedactionAt(c: Config, history: seq<Disk>, path: Path, at: nat, entry: Entry) {
    && at < |history| && path in history[at]
    && entry.stamp == StampOf(history[at][path])
    && TextOf(c, history[at][path].bytes).Some?
    && entry == EntryFor(c, entry.stamp, TextOf(c, history[at][path].bytes).value)
  }

  /** Files with equal stamps are one file that did not change in between. */
  predicate StampsIdentify(history: seq<Disk>) {
    forall path: Path, i, j | 0 <= i <= j < |history| && path in history[i] && path in history[j]
      && StampOf(history[i][path]) == StampOf(history[j][path]) :: Unchanged(history, path, i, j)
  }

  predicate HasStamp(history: seq<Disk>, path: Path, at: nat, stamp: Stamp) {
    at < |history| && path in history[at] && StampOf(history[at][path]) == stamp
  }

  predicate ThreadOk(c: Config, history: seq<Disk>, th: Thread) {
    match th
    case Idle => true
    case ToLook(path, began, attempt) => began < |history| && attempt <= 1
    case ToFind(path, began, attempt, at, before) =>
      began <= at && attempt <= 1 && HasStamp(history, path, at, before)
    case ToRead(path, began, attempt, at, before) =>
      began <= at && attempt <= 1 && HasStamp(history, path, at, before)
    case Reading(path, began, attempt, at, before, from) =>
      began <= at <= from < |history| && attempt <= 1 && HasStamp(history, path, at, before)
    case ToLookAgain(path, began, attempt, at, before, from, upto, raw) =>
      && began <= at <= from <= upto < |history| && attempt <= 1 && HasStamp(history, path, at, before)
      && (Unchanged(history, path, from, upto) && path in history[from] ==>
            TextOf(c, history[from][path].bytes) == Some(raw))
    case ToConfirm(path, began, attempt, at, before, raw) =>
      && began <= at && attempt <= 1 && HasStamp(history, path, at, before)
      && TextOf(c, history[at][path].bytes) == Some(raw)
    case ToStore(path, began, at, entry) => began <= at < |history| && IsRedactionAt(c, history, path, at, entry)
    case Finished(path, began, ended, outcome) =>
      && began <= ended < |history|
      && (outcome.Loaded? ==> exists at | began <= at <= ended :: IsRedactionAt(c, history, path, at, outcome.entry))
  }

  predicate EntryOk(c: Config, history: seq<Disk>, path: Path, entry: Entry) {
    exists at | 0 <= at < |history| :: IsRedactionAt(c, history, path, at, entry)
  }

  predicate Inv(c: Config, s: State) {
    && s.history != []
    && StampsIdentify(s.history)
    && (forall path | path in s.cache :: EntryOk(c, s.history, path, s.cache[path]))
    && (forall t | 0 <= t < |s.threads| :: ThreadOk(c, s.history, s.threads[t]))
  }

  // ---------- the environment ----------

  lemma UnchangedExtends(h: seq<Disk>, d: Disk, path: Path, from: nat, upto: nat)
    requires upto < |h|
    ensures Unchanged(h + [d], path, from, upto) <==> Unchanged(h, path, from, upto)
  {
    assert forall k | 0 <= k < |h| :: (h + [d])[k] == h[k];
  }

  lemma RedactionExtends(c: Config, h: seq<Disk>, d: Disk, path: Path, at: nat, entry: Entry)
    requires IsRedactionAt(c, h, path, at, entry)
    ensures IsRedactionAt(c, h + [d], path, at, entry)
  {
  }

  lemma ThreadExtends(c: Config, h: seq<Disk>, d: Disk, th: Thread)
    requires ThreadOk(c, h, th)
    ensures ThreadOk(c, h + [d], th)
  {
    hide Unchanged, TextOf, IsRedactionAt;
    var h' := h + [d];
    assert forall k | 0 <= k < |h| :: h'[k] == h[k];
    if th.ToLookAgain? {
      UnchangedExtends(h, d, th.path, th.from, th.upto);
    } else if th.ToStore? {
      RedactionExtends(c, h, d, th.path, th.at, th.entry);
    } else if th.Finished? && th.outcome.Loaded? {
      var at :| th.began <= at <= th.ended && IsRedactionAt(c, h, th.path, at, th.outcome.entry);
      RedactionExtends(c, h, d, th.path, at, th.outcome.entry);
    }
  }

  lemma EntryExtends(c: Config, h: seq<Disk>, d: Disk, path: Path, entry: Entry)
    requires EntryOk(c, h, path, entry)
    ensures EntryOk(c, h + [d], path, entry)
  {
    hide IsRedactionAt;
    var at :| 0 <= at < |h| && IsRedactionAt(c, h, path, at, entry);
    RedactionExtends(c, h, d, path, at, entry);
  }

  lemma UnchangedNext(h: seq<Disk>, d: Disk, path: Path, from: nat)
    requires h != [] && Unchanged(h, path, from, |h| - 1)
    requires if path in h[|h| - 1] then path in d && d[path] == h[|h| - 1][path] else path !in d
    ensures Unchanged(h + [d], path, from, |h|)
  {
    var h' := h + [d];
    assert forall k | 0 <= k < |h| :: h'[k] == h[k];
    assert h'[|h|] == d;
    assert Unchanged(h, path, from, |h| - 1);
  }

  /** A fresh stamp keeps stamps identifying files. */
  lemma ChangeKeepsStamps(h: seq<Disk>, path: Path, file: Option<File>)
    requires h != [] && StampsIdentify(h)
    requires file.Some? ==> IsFreshStamp(h, path, StampOf(file.value))
    ensures StampsIdentify(h + [Put(h[|h| - 1], path, file)])
  {
    var d := Put(h[|h| - 1], path, file);
    var h' := h + [d];
    hide StampsIdentify, Unchanged;
    forall q: Path, i, j | 0 <= i <= j < |h'| && q in h'[i] && q in h'[j] && StampOf(h'[i][q]) == StampOf(h'[j][q])
      ensures Unchanged(h', q, i, j)
    {
      PairUnchanged(h, path, file, q, i, j);
    }
    FromPairs(h');
  }

  lemma FromPairs(h: seq<Disk>)
    requires forall q: Path, i, j | 0 <= i <= j < |h| && q in h[i] && q in h[j]
      && StampOf(h[i][q]) == StampOf(h[j][q]) :: Unchanged(h, q, i, j)
    ensures StampsIdentify(h)
  {
    hide Unchanged;
  }

  lemma SameStampUnchanged(h: seq<Disk>, q: Path, i: nat, j: nat)
    requires StampsIdentify(h) && i <= j < |h| && q in h[i] && q in h[j] && StampOf(h[i][q]) == StampOf(h[j][q])
    ensures Unchanged(h, q, i, j)
  {
    hide Unchanged;
  }

  lemma PairUnchanged(h: seq<Disk>, path: Path, file: Option<File>, q: Path, i: nat, j: nat)
    requires h != [] && StampsIdentify(h)
    requires file.Some? ==> IsFreshStamp(h, path, StampOf(file.value))
    requires var h' := h + [Put(h[|h| - 1], path, file)];
      i <= j < |h'| && q in h'[i] && q in h'[j] && StampOf(h'[i][q]) == StampOf(h'[j][q])
    ensures Unchanged(h + [Put(h[|h| - 1], path, file)], q, i, j)
  {
    var d := Put(h[|h| - 1], path, file);
    var h' := h + [d];
    hide StampsIdentify, Unchanged;
    if j < |h| {
      assert h'[i] == h[i] && h'[j] == h[j];
      SameStampUnchanged(h, q, i, j);
      UnchangedExtends(h, d, q, i, j);
    } else if i < |h| {
      assert h'[i] == h[i] && h'[j] == d;
      assert q != path;
      assert q in h[|h| - 1] && d[q] == h[|h| - 1][q];
      SameStampUnchanged(h, q, i, |h| - 1);
      UnchangedNext(h, d, q, i);
    } else {
      UnchangedAtOnce(h', q, i);
    }
  }

  lemma UnchangedAtOnce(h: seq<Disk>, q: Path, i: nat)
    requires i < |h|
    ensures Unchanged(h, q, i, i)
  {
  }

  lemma ChangeKeepsInv(c: Config, s: State, e: Event)
    requires Inv(c, s) && Enabled(c, s, e) && e.Change?
    ensures Inv(c, Apply(c, s, e))
  {
    hide StampsIdentify, ThreadOk, EntryOk, Put, IsFreshStamp;
    var d := Put(Present(s), e.path, e.file);
    ChangeKeepsStamps(s.history, e.path, e.file);
    forall path | path in s.cache ensures EntryOk(c, s.history + [d], path, s.cache[path]) {
      EntryExtends(c, s.history, d, path, s.cache[path]);
    }
    forall t | 0 <= t < |s.threads| ensures ThreadOk(c, s.history + [d], s.threads[t]) {
      ThreadExtends(c, s.history, d, s.threads[t]);
    }
  }

  // ---------- the threads' own steps ----------

  lemma UnchangedPart(h: seq<Disk>, path: Path, i: nat, j: nat, from: nat, upto: nat)
    requires Unchanged(h, path, i, j) && i <= from <= upto <= j
    ensures Unchanged(h, path, from, upto)
    ensures path in h[i] <==> path in h[from]
    ensures path in h[i] ==> h[from][path] == h[i][path]
  {
    assert if path in h[i] then path in h[from] && h[from][path] == h[i][path] else path !in h[from];
    forall k | from <= k <= upto
      ensures if path in h[from] then path in h[k] && h[k][path] == h[from][path] else path !in h[k]
    {
      assert if path in h[i] then path in h[k] && h[k][path] == h[i][path] else path !in h[k];
    }
  }

  /** An entry is the redaction of the file at every instant with its stamp, not only at one. */
  lemma EntryAtStamp(c: Config, h: seq<Disk>, path: Path, entry: Entry, at: nat)
    requires StampsIdentify(h) && EntryOk(c, h, path, entry) && HasStamp(h, path, at, entry.stamp)
    ensures IsRedactionAt(c, h, path, at, entry)
  {
    hide StampsIdentify, TextOf, EntryFor, Unchanged;
    var was :| 0 <= was < |h| && IsRedactionAt(c, h, path, was, entry);
    var i, j := if was <= at then was else at, if was <= at then at else was;
    SameStampUnchanged(h, path, i, j);
    UnchangedPart(h, path, i, j, j, j);
  }

  /** A read between two looks that agree saw the file of the first look. */
  lemma ReadBetweenLooks(c: Config, h: seq<Disk>, path: Path, at: nat, from: nat, upto: nat, again: nat, raw: string)
    requires StampsIdentify(h) && at <= from <= upto <= again < |h|
    requires path in h[at] && path in h[again] && StampOf(h[again][path]) == StampOf(h[at][path])
    requires Unchanged(h, path, from, upto) && path in h[from] ==> TextOf(c, h[from][path].bytes) == Some(raw)
    ensures TextOf(c, h[at][path].bytes) == Some(raw)
  {
    hide StampsIdentify, TextOf, Unchanged;
    SameStampUnchanged(h, path, at, again);
    UnchangedPart(h, path, at, again, from, upto);
  }

  lemma ReadIsExact(c: Config, s: State, th: Thread)
    requires s.history != [] && StampsIdentify(s.history) && th.ToLookAgain? && ThreadOk(c, s.history, th)
    requires Metadata(Present(s), th.path) == Some(th.before)
    ensures TextOf(c, s.history[th.at][th.path].bytes) == Some(th.raw)
  {
    hide StampsIdentify, TextOf, Unchanged;
    ReadBetweenLooks(c, s.history, th.path, th.at, th.from, th.upto, Now(s), th.raw);
  }

  lemma FoundIsRedaction(c: Config, s: State, th: Thread)
    requires Inv(c, s) && th.ToFind? && ThreadOk(c, s.history, th)
    requires th.path in s.cache && s.cache[th.path].stamp == th.before
    ensures IsRedactionAt(c, s.history, th.path, th.at, s.cache[th.path])
  {
    hide StampsIdentify, EntryOk, TextOf, EntryFor;
    assert EntryOk(c, s.history, th.path, s.cache[th.path]);
    EntryAtStamp(c, s.history, th.path, s.cache[th.path], th.at);
  }

  lemma AdvanceOk(c: Config, s: State, e: Event)
    requires Inv(c, s) && Enabled(c, s, e) && !e.Change?
    ensures ThreadOk(c, s.history, Advance(c, s, e))
  {
    hide StampsIdentify, EntryOk, TextOf, EntryFor, Unchanged, IsFreshStamp, Inv;
    var th := s.threads[e.t];
    InvThread(c, s, e.t);
    match e {
      case Find(_) =>
        if th.path in s.cache && s.cache[th.path].stamp == th.before {
          FoundIsRedaction(c, s, th);
        }
      case EndRead(_, bytes) => ReadGives(c, s, th, bytes);
      case LookAgain(_) =>
        if Metadata(Present(s), th.path) == Some(th.before) {
          InvStamps(c, s);
          ReadIsExact(c, s, th);
        }
      case Confirm(_) => ConfirmedEntry(c, s, th);
      case _ =>
    }
  }

  lemma InvThread(c: Config, s: State, t: nat)
    requires Inv(c, s) && t < |s.threads|
    ensures ThreadOk(c, s.history, s.threads[t]) && s.history != []
  {
    hide StampsIdentify, EntryOk, ThreadOk;
  }

  lemma InvStamps(c: Config, s: State)
    requires Inv(c, s)
    ensures StampsIdentify(s.history)
  {
    hide StampsIdentify, EntryOk, ThreadOk;
  }

  lemma ReadGives(c: Config, s: State, th: Thread, bytes: Option<Bytes>)
    requires s.history != [] && th.Reading? && ThreadOk(c, s.history, th) && CanRead(s.history, th.path, th.from, Now(s), bytes)
    ensures bytes.Some? && TextOf(c, bytes.value).Some? ==>
      (Unchanged(s.history, th.path, th.from, Now(s)) && th.path in s.history[th.from] ==>
         TextOf(c, s.history[th.from][th.path].bytes) == TextOf(c, bytes.value))
  {
    hide TextOf, Unchanged;
  }

  lemma ConfirmedEntry(c: Config, s: State, th: Thread)
    requires s.history != [] && th.ToConfirm? && ThreadOk(c, s.history, th)
    ensures IsRedactionAt(c, s.history, th.path, th.at, EntryFor(c, th.before, th.raw))
  {
    hide TextOf;
  }

  lemma OwnStepKeepsInv(c: Config, s: State, e: Event)
    requires Inv(c, s) && Enabled(c, s, e) && !e.Change?
    ensures Inv(c, Apply(c, s, e))
  {
    AdvanceOk(c, s, e);
    var th := s.threads[e.t];
    assert ThreadOk(c, s.history, th);
    if e.Store? {
      StoredOk(c, s.history, th);
    }
    hide StampsIdentify, EntryOk, ThreadOk, Advance, Enabled;
  }

  lemma StoredOk(c: Config, h: seq<Disk>, th: Thread)
    requires th.ToStore? && ThreadOk(c, h, th)
    ensures EntryOk(c, h, th.path, th.entry)
  {
    assert IsRedactionAt(c, h, th.path, th.at, th.entry);
  }

  lemma {:induction false} RunKeepsInv(c: Config, s: State, events: seq<Event>)
    requires IsRun(c, s, events) && Inv(c, s)
    ensures Inv(c, Run(c, s, events))
    decreases |events|
  {
    hide Inv, Apply, Enabled;
    if events != [] {
      StepKeepsInv(c, s, events[0]);
      RunKeepsInv(c, Apply(c, s, events[0]), events[1..]);
    }
  }

  lemma StepKeepsInv(c: Config, s: State, e: Event)
    requires Inv(c, s) && Enabled(c, s, e)
    ensures Inv(c, Apply(c, s, e))
  {
    hide Inv, Apply, Enabled;
    if e.Change? {
      ChangeKeepsInv(c, s, e);
    } else {
      OwnStepKeepsInv(c, s, e);
    }
  }

  lemma InitialInv(c: Config, s: State)
    requires Initial(s)
    ensures Inv(c, s)
  {
    forall q: Path, i, j | 0 <= i <= j < |s.history| && q in s.history[i] && q in s.history[j]
      && StampOf(s.history[i][q]) == StampOf(s.history[j][q])
      ensures Unchanged(s.history, q, i, j)
    {
      UnchangedAtOnce(s.history, q, i);
    }
  }

  // ---------- what the cache promises ----------

  /** After any run, each entry is the redaction of some content its path held, and of whatever the path
      holds at any instant, past or present, at which it bears the entry's stamp. */
  lemma EntriesMatchTheirStamps(c: Config, start: State, events: seq<Event>, path: Path)
    requires Initial(start) && IsRun(c, start, events) && path in Run(c, start, events).cache
    ensures var s := Run(c, start, events); var entry := s.cache[path];
      && EntryOk(c, s.history, path, entry)
      && forall at | 0 <= at < |s.history| && HasStamp(s.history, path, at, entry.stamp) ::
           IsRedactionAt(c, s.history, path, at, entry)
  {
    var s := Run(c, start, events);
    InitialInv(c, start);
    RunKeepsInv(c, start, events);
    hide StampsIdentify, EntryOk, IsRedactionAt, HasStamp, Run, IsRun;
    var entry := s.cache[path];
    forall at | 0 <= at < |s.history| && HasStamp(s.history, path, at, entry.stamp)
      ensures IsRedactionAt(c, s.history, path, at, entry)
    {
      EntryAtStamp(c, s.history, path, entry, at);
    }
  }

  /** After any run, every call that succeeded, from the cache or from the file, returned the redaction of
      what the file held at some instant during the call. */
  lemma LoadedDuringTheCall(c: Config, start: State, events: seq<Event>, t: nat)
    requires Initial(start) && IsRun(c, start, events) && t < |Run(c, start, events).threads|
    requires var th := Run(c, start, events).threads[t]; th.Finished? && th.outcome.Loaded?
    ensures var s := Run(c, start, events); var th := s.threads[t];
      exists at | th.began <= at <= th.ended < |s.history| :: IsRedactionAt(c, s.history, th.path, at, th.outcome.entry)
  {
    InitialInv(c, start);
    RunKeepsInv(c, start, events);
    var s := Run(c, start, events);
    hide StampsIdentify, EntryOk, IsRedactionAt, Run, IsRun;
    assert ThreadOk(c, s.history, s.threads[t]);
  }

  // ---------- a call is short, whatever the others do ----------

  /** Own steps that a call can still take: seven in an attempt, of which a retry gives back all but the last. */
  function StepsLeft(th: Thread): nat {
    match th
    case Idle => 0
    case ToLook(_, _, attempt) => 7 + Again(attempt)
    case ToFind(_, _, attempt, _, _) => 6 + Again(attempt)
    case ToRead(_, _, attempt, _, _) => 5 + Again(attempt)
    case Reading(_, _, attempt, _, _, _) => 4 + Again(attempt)
    case ToLookAgain(_, _, attempt, _, _, _, _, _) => 3 + Again(attempt)
    case ToConfirm(_, _, attempt, _, _, _) => 2 + Again(attempt)
    case ToStore(_, _, _, _) => 1
    case Finished(_, _, _, _) => 0
  }

  function Again(attempt: nat): nat {
    if attempt == 0 then 6 else 0
  }

  /** Reads of the file that a call can still start. */
  function ReadsLeft(th: Thread): nat {
    match th
    case ToLook(_, _, attempt) => if attempt == 0 then 2 else 1
    case ToFind(_, _, attempt, _, _) => if attempt == 0 then 2 else 1
    case ToRead(_, _, attempt, _, _) => if attempt == 0 then 2 else 1
    case Reading(_, _, attempt, _, _, _) => if attempt == 0 then 1 else 0
    case ToLookAgain(_, _, attempt, _, _, _, _, _) => if attempt == 0 then 1 else 0
    case ToConfirm(_, _, attempt, _, _, _) => if attempt == 0 then 1 else 0
    case _ => 0
  }

  predicate IsStepOf(e: Event, t: nat) {
    !e.Change? && e.t == t
  }

  function StepsOf(events: seq<Event>, t: nat): nat {
    if events == [] then 0 else (if IsStepOf(events[0], t) then 1 else 0) + StepsOf(events[1..], t)
  }

  function ReadsOf(events: seq<Event>, t: nat): nat {
    if events == [] then 0
    else (if IsStepOf(events[0], t) && events[0].StartRead? then 1 else 0) + ReadsOf(events[1..], t)
  }

  predicate NoNewCall(events: seq<Event>, t: nat) {
    forall k | 0 <= k < |events| :: !(IsStepOf(events[k], t) && events[k].Begin?)
  }

  lemma StepSpends(c: Config, s: State, e: Event, t: nat)
    requires Enabled(c, s, e) && t < |s.threads| && !(IsStepOf(e, t) && e.Begin?)
    ensures |Apply(c, s, e).threads| == |s.threads|
    ensures var before, after := s.threads[t], Apply(c, s, e).threads[t];
      && StepsLeft(after) + (if IsStepOf(e, t) then 1 else 0) <= StepsLeft(before)
      && ReadsLeft(after) + (if IsStepOf(e, t) && e.StartRead? then 1 else 0) <= ReadsLeft(before)
  {
    hide TextOf, EntryFor, Metadata, IsFreshStamp, CanRead, Put;
  }

  lemma {:induction false} RunSpends(c: Config, s: State, events: seq<Event>, t: nat)
    requires IsRun(c, s, events) && t < |s.threads| && NoNewCall(events, t)
    ensures t < |Run(c, s, events).threads|
    ensures StepsLeft(Run(c, s, events).threads[t]) + StepsOf(events, t) <= StepsLeft(s.threads[t])
    ensures ReadsLeft(Run(c, s, events).threads[t]) + ReadsOf(events, t) <= ReadsLeft(s.threads[t])
    decreases |events|
  {
    hide Apply, Enabled, StepsLeft, ReadsLeft;
    if events != [] {
      assert !(IsStepOf(events[0], t) && events[0].Begin?);
      StepSpends(c, s, events[0], t);
      RunSpends(c, Apply(c, s, events[0]), events[1..], t);
    }
  }

  /** A call makes at most two attempts: two reads and thirteen steps of its own in all, and it can always
      take its next step, whatever the files and the other threads do. */
  lemma CallIsBounded(c: Config, s: State, events: seq<Event>, t: nat)
    requires t < |s.threads| && IsRun(c, s, events) && NoNewCall(events, t)
    requires s.threads[t].ToLook? && s.threads[t].attempt == 0
    ensures ReadsOf(events, t) <= 2 && StepsOf(events, t) <= 13
    ensures var end := Run(c, s, events); t < |end.threads| && (StepsOf(events, t) == 13 ==> StepsLeft(end.threads[t]) == 0)
  {
    hide IsRun, Run;
    RunSpends(c, s, events, t);
  }

  lemma NeverStuck(c: Config, s: State, t: nat) returns (e: Event)
    requires Inv(c, s) && t < |s.threads| && StepsLeft(s.threads[t]) > 0
    ensures Enabled(c, s, e) && IsStepOf(e, t) && !e.Begin?
  {
    hide StampsIdentify, EntryOk, Unchanged;
    var th := s.threads[t];
    assert ThreadOk(c, s.history, th);
    match th {
      case ToLook(_, _, _) => e := Look(t);
      case ToFind(_, _, _, _, _) => e := Find(t);
      case ToRead(_, _, _, _, _) => e := StartRead(t);
      case Reading(path, _, _, _, _, from) =>
        e := EndRead(t, BytesOf(s.history[from], path));
      case ToLookAgain(_, _, _, _, _, _, _, _) => e := LookAgain(t);
      case ToConfirm(_, _, _, _, _, _) => e := Confirm(t);
      case ToStore(_, _, _, _) => e := Store(t);
    }
  }

  // ---------- a quiet file ----------

  /** What a call must answer about a file that stays as it is. */
  predicate Answers(c: Config, disk: Disk, path: Path, outcome: Outcome) {
    if path !in disk then outcome == Skipped(Unreadable)
    else
      var file := disk[path];
      if |file.bytes| > c.maxBytes then outcome == Skipped(TooLarge)
      else match TextOf(c, file.bytes)
        case None => outcome == Skipped(Binary)
        case Some(text) => outcome.Loaded? && outcome.entry == EntryFor(c, StampOf(file), text)
  }

  /** As long as the file of a call stays as it was at an instant at which an attempt had yet to look at it, the
      call is on its way to the right answer for that instant. */
  predicate QuietSince(c: Config, h: seq<Disk>, th: Thread, since: nat) {
    if th.Idle? || since >= |h| then true
    else if th.Finished? then Unchanged(h, th.path, since, th.ended) ==> Answers(c, h[since], th.path, th.outcome)
    else Unchanged(h, th.path, since, |h| - 1) ==>
      (!th.ToLook? ==> since <= th.at && th.path in h[since] && |h[since][th.path].bytes| <= c.maxBytes)
  }

  predicate QuietOk(c: Config, h: seq<Disk>, th: Thread) {
    th.Idle? || QuietSince(c, h, th, th.began)
  }

  predicate AllQuietOk(c: Config, s: State) {
    forall t | 0 <= t < |s.threads| :: QuietOk(c, s.history, s.threads[t])
  }

  lemma ShorterUnchanged(h: seq<Disk>, d: Disk, path: Path, from: nat)
    requires from < |h| && Unchanged(h + [d], path, from, |h|)
    ensures Unchanged(h, path, from, |h| - 1)
  {
    UnchangedPart(h + [d], path, from, |h|, from, |h| - 1);
    UnchangedExtends(h, d, path, from, |h| - 1);
  }

  lemma QuietExtends(c: Config, h: seq<Disk>, d: Disk, th: Thread, since: nat)
    requires since < |h| && ThreadOk(c, h, th) && QuietSince(c, h, th, since)
    ensures QuietSince(c, h + [d], th, since)
  {
    hide Unchanged, TextOf, IsRedactionAt, Answers;
    var h' := h + [d];
    assert |h'| - 1 == |h| && forall k | 0 <= k < |h| :: h'[k] == h[k];
    if th.Finished? {
      UnchangedExtends(h, d, th.path, since, th.ended);
    } else if !th.Idle? && Unchanged(h + [d], th.path, since, |h|) {
      ShorterUnchanged(h, d, th.path, since);
    }
  }

  /** While the file stays as it is, metadata reads agree with the beginning. */
  lemma QuietMetadata(s: State, path: Path, since: nat)
    requires s.history != [] && Unchanged(s.history, path, since, Now(s))
    ensures var disk := s.history[since]; Metadata(Present(s), path) == if path in disk then Some(StampOf(disk[path])) else None
  {
    UnchangedPart(s.history, path, since, Now(s), Now(s), Now(s));
  }

  lemma QuietAt(h: seq<Disk>, path: Path, since: nat, at: nat, upto: nat)
    requires Unchanged(h, path, since, upto) && since <= at <= upto
    ensures path in h[since] <==> path in h[at]
    ensures path in h[since] ==> h[at][path] == h[since][path]
  {
    UnchangedPart(h, path, since, upto, at, at);
  }

  lemma RedactionAnswers(c: Config, h: seq<Disk>, path: Path, since: nat, at: nat, upto: nat, entry: Entry, hit: bool)
    requires Unchanged(h, path, since, upto) && since <= at <= upto && IsRedactionAt(c, h, path, at, entry)
    requires path in h[since] && |h[since][path].bytes| <= c.maxBytes
    ensures Answers(c, h[since], path, Loaded(entry, hit))
  {
    hide Unchanged;
    QuietAt(h, path, since, at, upto);
  }

  lemma QuietAdvance(c: Config, s: State, e: Event, since: nat)
    requires Inv(c, s) && Enabled(c, s, e) && !e.Change? && !e.Begin?
    requires QuietSince(c, s.history, s.threads[e.t], since)
    ensures QuietSince(c, s.history, Advance(c, s, e), since)
  {
    hide StampsIdentify, EntryOk, TextOf, EntryFor, Unchanged, IsFreshStamp, Inv, Answers, IsRedactionAt;
    var th := s.threads[e.t];
    InvThread(c, s, e.t);
    if since < |s.history| && Unchanged(s.history, th.path, since, Now(s)) {
      QuietMetadata(s, th.path, since);
      match e {
        case Look(_) => QuietLook(c, s, th, since);
        case Find(_) => QuietFind(c, s, th, since);
        case EndRead(_, bytes) => QuietRead(c, s, th, bytes, since);
        case LookAgain(_) => QuietAt(s.history, th.path, since, th.at, Now(s));
        case Confirm(_) => QuietAt(s.history, th.path, since, th.at, Now(s));
        case Store(_) => RedactionAnswers(c, s.history, th.path, since, th.at, Now(s), th.entry, false);
        case _ =>
      }
    }
  }

  lemma QuietThread(c: Config, s: State, t: nat)
    requires AllQuietOk(c, s) && t < |s.threads|
    ensures QuietOk(c, s.history, s.threads[t])
  {
    hide QuietOk;
  }

  lemma QuietLook(c: Config, s: State, th: Thread, since: nat)
    requires s.history != [] && th.ToLook? && Unchanged(s.history, th.path, since, Now(s))
    ensures var disk := s.history[since];
      && (th.path !in disk ==> Answers(c, disk, th.path, Skipped(Unreadable)))
      && (th.path in disk && |disk[th.path].bytes| > c.maxBytes ==> Answers(c, disk, th.path, Skipped(TooLarge)))
  {
    hide Unchanged, TextOf;
  }

  lemma QuietFind(c: Config, s: State, th: Thread, since: nat)
    requires Inv(c, s) && th.ToFind? && ThreadOk(c, s.history, th) && QuietSince(c, s.history, th, since)
    requires Unchanged(s.history, th.path, since, Now(s))
    ensures th.path in s.cache && s.cache[th.path].stamp == th.before ==>
      Answers(c, s.history[since], th.path, Loaded(s.cache[th.path], true))
  {
    if th.path in s.cache && s.cache[th.path].stamp == th.before {
      FoundIsRedaction(c, s, th);
      hide Unchanged, Inv, IsRedactionAt, Answers;
      RedactionAnswers(c, s.history, th.path, since, th.at, Now(s), s.cache[th.path], true);
    }
  }

  lemma QuietRead(c: Config, s: State, th: Thread, bytes: Option<Bytes>, since: nat)
    requires s.history != [] && th.Reading? && ThreadOk(c, s.history, th) && QuietSince(c, s.history, th, since)
    requires Unchanged(s.history, th.path, since, Now(s)) && CanRead(s.history, th.path, th.from, Now(s), bytes)
    ensures bytes.Some?
    ensures TextOf(c, bytes.value).None? ==> Answers(c, s.history[since], th.path, Skipped(Binary))
  {
    UnchangedPart(s.history, th.path, since, Now(s), th.from, Now(s));
    hide Unchanged, TextOf;
  }

  lemma QuietKept(c: Config, s: State, e: Event)
    requires Inv(c, s) && AllQuietOk(c, s) && Enabled(c, s, e)
    ensures AllQuietOk(c, Apply(c, s, e))
  {
    if e.Change? {
      hide StampsIdentify, EntryOk, QuietSince, IsFreshStamp, Put;
      var d := Put(Present(s), e.path, e.file);
      forall t | 0 <= t < |s.threads| ensures QuietOk(c, s.history + [d], s.threads[t]) {
        InvThread(c, s, t);
        if !s.threads[t].Idle? {
          QuietExtends(c, s.history, d, s.threads[t], s.threads[t].began);
        }
      }
    } else {
      QuietOwn(c, s, e);
      hide StampsIdentify, EntryOk, ThreadOk, QuietOk, Advance, Enabled, Inv;
    }
  }

  lemma QuietOwn(c: Config, s: State, e: Event)
    requires Inv(c, s) && AllQuietOk(c, s) && Enabled(c, s, e) && !e.Change?
    ensures QuietOk(c, s.history, Advance(c, s, e))
  {
    QuietThread(c, s, e.t);
    if !e.Begin? {
      hide Inv, AllQuietOk, QuietSince, IsFreshStamp;
      QuietAdvance(c, s, e, s.threads[e.t].began);
      KeepsBegan(c, s, e);
    }
  }

  lemma KeepsBegan(c: Config, s: State, e: Event)
    requires Possible(c, s, e) && !e.Change? && !e.Begin?
    ensures var th, th' := s.threads[e.t], Advance(c, s, e); !th.Idle? && !th'.Idle? && th'.began == th.began && th'.path == th.path
  {
    hide TextOf, EntryFor, Metadata, CanRead;
  }

  lemma {:induction false} RunKeepsQuiet(c: Config, s: State, events: seq<Event>)
    requires IsRun(c, s, events) && Inv(c, s) && AllQuietOk(c, s)
    ensures AllQuietOk(c, Run(c, s, events))
    decreases |events|
  {
    hide Inv, AllQuietOk, Apply, Enabled;
    if events != [] {
      StepKeepsInv(c, s, events[0]);
      QuietKept(c, s, events[0]);
      RunKeepsQuiet(c, Apply(c, s, events[0]), events[1..]);
    }
  }

  /** After any run, a finished call whose file stayed as it is for the length of the call gave the one right
      answer: unreadable, too large or binary exactly when the file is, and its redacted text otherwise. */
  lemma QuietCallIsExact(c: Config, start: State, events: seq<Event>, t: nat)
    requires Initial(start) && IsRun(c, start, events) && t < |Run(c, start, events).threads|
    requires var s := Run(c, start, events); var th := s.threads[t];
      th.Finished? && Unchanged(s.history, th.path, th.began, th.ended)
    ensures var s := Run(c, start, events); var th := s.threads[t];
      th.began < |s.history| && Answers(c, s.history[th.began], th.path, th.outcome)
  {
    InitialInv(c, start);
    RunKeepsInv(c, start, events);
    RunKeepsQuiet(c, start, events);
    var s := Run(c, start, events);
    hide StampsIdentify, EntryOk, Run, IsRun, Unchanged, Answers;
    assert QuietOk(c, s.history, s.threads[t]);
    assert ThreadOk(c, s.history, s.threads[t]);
  }
}
