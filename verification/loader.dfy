// `load_text` as one thread runs it: two attempts over a shared cache and files that others change
// between any two of its steps.

module TextLoader {
  import opened Options
  import opened LineSplitting
  import opened TextCache
  import opened LoadAttempts

  /** What others may do: give a path a new file, or store an entry that another thread's load produced. */
  datatype Move = Alter(path: Path, file: Option<File>) | Deposit(path: Path, entry: Entry)

  predicate IsAllowed(c: Config, history: seq<Disk>, m: Move) {
    match m
    case Alter(path, file) => file.Some? ==> IsFreshStamp(history, path, StampOf(file.value))
    case Deposit(path, entry) => EntryOk(c, history, path, entry)
  }

  class Provider {
    const config: Config
    /** Bytes that a read returns when the file changes under it, by the instant at which it ends. */
    const torn: nat -> Option<Bytes>
    var history: seq<Disk>
    var cache: map<Path, Entry>
    /** The moves of the others, a batch for each time they get to run. */
    var script: seq<seq<Move>>

    ghost predicate Valid()
      reads this
    {
      && history != [] && StampsIdentify(history)
      && forall path | path in cache :: EntryOk(config, history, path, cache[path])
    }

    /** Every read gives some bytes, even one during which the file changes. */
    ghost predicate ReadsGiveBytes() {
      forall n: nat :: torn(n).Some?
    }

    constructor (config: Config, torn: nat -> Option<Bytes>, disk: Disk, script: seq<seq<Move>>)
      ensures Valid() && this.config == config && history == [disk] && cache == map[]
    {
      this.config, this.torn := config, torn;
      this.history, this.cache, this.script := [disk], map[], script;
      new;
      OneDisk(disk);
    }

    method MakeMove(m: Move)
      requires Valid()
      modifies this`history, this`cache
      ensures Valid() && old(history) <= history
    {
      if IsAllowed(config, history, m) {
        match m {
          case Alter(path, file) =>
            var d := Put(history[|history| - 1], path, file);
            ChangeKeepsStamps(history, path, file);
            forall q | q in cache ensures EntryOk(config, history + [d], q, cache[q]) {
              EntryExtends(config, history, d, q, cache[q]);
            }
            hide StampsIdentify, EntryOk, Put, IsFreshStamp;
            history := history + [d];
          case Deposit(path, entry) =>
            hide StampsIdentify, EntryOk;
            cache := cache[path := entry];
        }
      }
    }

    /** The others run for a while. */
    method Interfere()
      requires Valid()
      modifies this
      ensures Valid() && old(history) <= history
    {
      if script != [] {
        var moves := script[0];
        script := script[1..];
        hide StampsIdentify, EntryOk;
        for k := 0 to |moves|
          invariant Valid() && old(history) <= history
        {
          MakeMove(moves[k]);
        }
      }
    }

    /** Metadata as it is when the call gets to it. */
    method Look(path: Path) returns (stamp: Option<Stamp>)
      requires Valid()
      modifies this
      ensures Valid() && old(history) <= history && stamp == Metadata(history[|history| - 1], path)
    {
      hide StampsIdentify, EntryOk;
      Interfere();
      stamp := Metadata(history[|history| - 1], path);
    }

    /** A read takes time. */
    method ReadFile(path: Path) returns (bytes: Option<Bytes>, ghost from: nat)
      requires Valid()
      modifies this
      ensures Valid() && old(history) <= history && |old(history)| - 1 <= from < |history|
      ensures CanRead(history, path, from, |history| - 1, bytes)
      ensures bytes.None? && ReadsGiveBytes() ==> path !in history[from]
    {
      hide StampsIdentify, EntryOk;
      Interfere();
      var start := |history| - 1;
      Interfere();
      from := start;
      bytes := if Unchanged(history, path, start, |history| - 1) then BytesOf(history[start], path) else torn(|history| - 1);
    }

    /** The end of a turn: two more looks at the metadata around the redaction of the text that was read between the
        instants `from` and `upto`. */
    method LookTwice(path: Path, before: Stamp, raw: string, ghost began: nat, ghost at: nat, ghost from: nat, ghost upto: nat)
      returns (outcome: Option<Outcome>)
      requires Valid() && began <= at <= from <= upto < |history|
      requires HasStamp(history, path, at, before) && before.length <= config.maxBytes
      requires Unchanged(history, path, from, upto) && path in history[from] ==> TextOf(config, history[from][path].bytes) == Some(raw)
      modifies this
      ensures Valid() && old(history) <= history
      ensures outcome.Some? && outcome.value.Loaded? ==> IsRedactionAt(config, history, path, at, outcome.value.entry)
      ensures outcome.Some? && outcome.value.Loaded? ==>
        !outcome.value.hit && path in cache && cache[path] == outcome.value.entry
      ensures Unchanged(history, path, began, |history| - 1) ==>
        outcome.Some? && Answers(config, history[began], path, outcome.value)
      ensures outcome.None? ==> ChangedIn(history, path, at, |history| - 1)
      ensures outcome == Some(Skipped(Unreadable)) ==> AbsentIn(history, path, at, |history| - 1)
    {
      hide StampsIdentify, EntryOk, Unchanged, TextOf, IsRedactionAt, Answers, ChangedIn, AbsentIn;
      ghost var started := history;
      var after := Look(path);
      LookAnswers(config, history, path, began);
      LooksAgree(history, path, began, at);
      LookChanged(started, history, path, at, before, after);
      if after.None? {
        return Some(Skipped(Unreadable));
      }
      if after.value != before {
        return None;
      }
      UnchangedPrefix(started, history, path, from, upto);
      ReadBetweenLooks(config, history, path, at, from, upto, |history| - 1, raw);
      ghost var seen := history;
      var final := Look(path);
      LookAnswers(config, history, path, began);
      LooksAgree(history, path, began, at);
      PrefixTransitive(started, seen, history);
      LookChanged(started, history, path, at, before, final);
      if final.None? {
        return Some(Skipped(Unreadable));
      }
      if after != final {
        return None;
      }
      var entry := EntryFor(config, final.value, raw);
      Interfere();
      NewEntry(config, history, path, at, raw);
      LoadAnswers(config, history, path, began, at, entry, false);
      cache := cache[path := entry];
      return Some(Loaded(entry, false));
    }

    /** The rest of a turn, when the cache has no entry for the stamp seen at the instant `at`. */
    method ReadUncached(path: Path, before: Stamp, ghost began: nat, ghost at: nat) returns (outcome: Option<Outcome>)
      requires Valid() && began <= at < |history|
      requires HasStamp(history, path, at, before) && before.length <= config.maxBytes
      modifies this
      ensures Valid() && old(history) <= history
      ensures outcome.Some? && outcome.value.Loaded? ==> IsRedactionAt(config, history, path, at, outcome.value.entry)
      ensures outcome.Some? && outcome.value.Loaded? ==>
        !outcome.value.hit && path in cache && cache[path] == outcome.value.entry
      ensures Unchanged(history, path, began, |history| - 1) ==>
        outcome.Some? && Answers(config, history[began], path, outcome.value)
      ensures outcome.None? ==> ChangedIn(history, path, at, |history| - 1)
      ensures outcome == Some(Skipped(Unreadable)) && ReadsGiveBytes() ==> AbsentIn(history, path, at, |history| - 1)
    {
      hide StampsIdentify, EntryOk, Unchanged, TextOf, IsRedactionAt, Answers, ChangedIn, AbsentIn, ReadsGiveBytes;
      var bytes, from := ReadFile(path);
      ReadAnswers(config, history, path, began, at, from, bytes);
      AbsentAt(history, path, at, from, |history| - 1);
      if bytes.None? {
        return Some(Skipped(Unreadable));
      }
      var raw := TextOf(config, bytes.value);
      if raw.None? {
        return Some(Skipped(Binary));
      }
      outcome := LookTwice(path, before, raw.value, began, at, from, |history| - 1);
    }

    /** One turn of the loop; None when two looks at the metadata disagreed. */
    method Attempt(path: Path) returns (outcome: Option<Outcome>)
      requires Valid()
      modifies this
      ensures Valid() && old(history) <= history
      ensures outcome.Some? && outcome.value.Loaded? ==>
        exists at | |old(history)| - 1 <= at < |history| :: IsRedactionAt(config, history, path, at, outcome.value.entry)
      ensures outcome.Some? && outcome.value.Loaded? ==> path in cache && cache[path] == outcome.value.entry
      ensures Unchanged(history, path, |old(history)| - 1, |history| - 1) ==>
        outcome.Some? && Answers(config, history[|old(history)| - 1], path, outcome.value)
      ensures outcome.None? ==> ChangedIn(history, path, |old(history)| - 1, |history| - 1)
      ensures outcome == Some(Skipped(Unreadable)) && ReadsGiveBytes() ==> AbsentIn(history, path, |old(history)| - 1, |history| - 1)
    {
      hide StampsIdentify, EntryOk, Unchanged, TextOf, IsRedactionAt, Answers, ChangedIn, ReadsGiveBytes;
      ghost var began := |history| - 1;
      var before := Look(path);
      LookAnswers(config, history, path, began);
      if before.None? {
        return Some(Skipped(Unreadable));
      }
      if before.value.length > config.maxBytes {
        return Some(Skipped(TooLarge));
      }
      ghost var at := |history| - 1;
      Interfere();
      if path in cache && cache[path].stamp == before.value {
        EntryAtStamp(config, history, path, cache[path], at);
        LoadAnswers(config, history, path, began, at, cache[path], true);
        return Some(Loaded(cache[path], true));
      }
      outcome := ReadUncached(path, before.value, began, at);
      if outcome.None? {
        EarlierStart(history, path, began, at, |history| - 1);
      }
    }

    /** Every success, cached or not, is the redaction of what the file held at an instant of the call. When the file
        stayed as it is since the last attempt began, the outcome is the one that its content calls for; and when all
        reads gave bytes, a file is reported as unreadable only if it was away or changed at least twice. */
    method LoadText(path: Path) returns (outcome: Outcome, ghost last: nat)
      requires Valid()
      modifies this
      ensures Valid() && old(history) <= history
      ensures outcome.Loaded? ==>
        exists at | |old(history)| - 1 <= at < |history| :: IsRedactionAt(config, history, path, at, outcome.entry)
      ensures outcome.Loaded? ==> path in cache && cache[path] == outcome.entry
      ensures |old(history)| - 1 <= last < |history|
      ensures Unchanged(history, path, last, |history| - 1) ==> Answers(config, history[last], path, outcome)
      ensures Unchanged(history, path, |old(history)| - 1, |history| - 1) ==> last == |old(history)| - 1
      ensures outcome == Skipped(Unreadable) && ReadsGiveBytes() ==>
        AbsentIn(history, path, |old(history)| - 1, |history| - 1) || ChangedTwice(history, path, |old(history)| - 1, |history| - 1)
    {
      hide StampsIdentify, EntryOk, Unchanged, IsRedactionAt, Answers, ChangedIn, ChangedTwice, AbsentIn, ReadsGiveBytes;
      ghost var began := |history| - 1;
      last := began;
      for attempt := 0 to 2
        invariant Valid() && old(history) <= history && began <= last < |history|
        invariant attempt == 0 ==> history == old(history) && last == began
        invariant attempt == 1 ==> ChangedIn(history, path, began, |history| - 1)
        invariant attempt == 2 ==> ChangedTwice(history, path, began, |history| - 1) && !Unchanged(history, path, last, |history| - 1)
        invariant attempt > 0 ==> !Unchanged(history, path, began, |history| - 1)
      {
        ghost var h := history;
        last := |history| - 1;
        var answer := Attempt(path);
        if attempt > 0 {
          StillChanged(h, history, path, began);
          ChangesExtend(h, history, path, began, last);
        }
        if answer.Some? {
          AbsentEarlier(history, path, began, last, |history| - 1);
          return answer.value, last;
        }
        if attempt > 0 {
          TwoChanges(history, path, began, last, |history| - 1);
        }
      }
      return Skipped(Unreadable), last;
    }
  }

  lemma PrefixTransitive(a: seq<Disk>, b: seq<Disk>, c: seq<Disk>)
    requires a <= b <= c
    ensures a <= c
  {
  }

  lemma AbsentAt(h: seq<Disk>, path: Path, from: nat, k: nat, upto: nat)
    requires from <= k <= upto < |h|
    ensures path !in h[k] ==> AbsentIn(h, path, from, upto)
  {
  }

  lemma AbsentEarlier(h: seq<Disk>, path: Path, began: nat, last: nat, upto: nat)
    requires began <= last
    ensures AbsentIn(h, path, last, upto) ==> AbsentIn(h, path, began, upto)
  {
  }

  /** A look that differs from the one at an earlier instant. */
  lemma LookChanged(started: seq<Disk>, h: seq<Disk>, path: Path, at: nat, before: Stamp, now: Option<Stamp>)
    requires started <= h && at < |started| && HasStamp(started, path, at, before) && now == Metadata(h[|h| - 1], path)
    ensures now.Some? && now.value != before ==> ChangedIn(h, path, at, |h| - 1)
    ensures now.None? ==> AbsentIn(h, path, at, |h| - 1)
  {
    assert h[at] == started[at];
    if now != Some(before) {
      LooksDisagree(h, path, at, |h| - 1);
    }
  }

  lemma UnchangedPrefix(h: seq<Disk>, h': seq<Disk>, path: Path, from: nat, upto: nat)
    requires h <= h' && upto < |h|
    ensures Unchanged(h', path, from, upto) <==> Unchanged(h, path, from, upto)
  {
    assert forall k | 0 <= k < |h| :: h'[k] == h[k];
  }

  lemma StillChanged(h: seq<Disk>, h': seq<Disk>, path: Path, began: nat)
    requires began < |h| && h <= h' && !Unchanged(h, path, began, |h| - 1)
    ensures !Unchanged(h', path, began, |h'| - 1)
  {
    UnchangedPrefix(h, h', path, began, |h| - 1);
    if Unchanged(h', path, began, |h'| - 1) {
      UnchangedPart(h', path, began, |h'| - 1, began, |h| - 1);
    }
  }

  lemma LookAnswers(c: Config, h: seq<Disk>, path: Path, began: nat)
    requires began < |h|
    ensures Unchanged(h, path, began, |h| - 1) ==> match Metadata(h[|h| - 1], path)
      case None => Answers(c, h[began], path, Skipped(Unreadable))
      case Some(stamp) => path in h[began] && (stamp.length > c.maxBytes ==> Answers(c, h[began], path, Skipped(TooLarge)))
  {
    hide TextOf;
    if Unchanged(h, path, began, |h| - 1) {
      hide Unchanged;
      QuietAt(h, path, began, |h| - 1, |h| - 1);
    }
  }

  lemma LooksAgree(h: seq<Disk>, path: Path, began: nat, at: nat)
    requires began <= at < |h|
    ensures Unchanged(h, path, began, |h| - 1) ==> Metadata(h[|h| - 1], path) == Metadata(h[at], path)
  {
    if Unchanged(h, path, began, |h| - 1) {
      hide Unchanged;
      QuietAt(h, path, began, |h| - 1, |h| - 1);
      QuietAt(h, path, began, at, |h| - 1);
    }
  }

  lemma ReadAnswers(c: Config, h: seq<Disk>, path: Path, began: nat, at: nat, from: nat, bytes: Option<Bytes>)
    requires began <= at <= from < |h| && path in h[at] && |h[at][path].bytes| <= c.maxBytes
    requires CanRead(h, path, from, |h| - 1, bytes)
    ensures Unchanged(h, path, began, |h| - 1) ==>
      bytes.Some? && (TextOf(c, bytes.value).None? ==> Answers(c, h[began], path, Skipped(Binary)))
  {
    hide TextOf;
    if Unchanged(h, path, began, |h| - 1) {
      hide Unchanged;
      QuietAt(h, path, began, at, |h| - 1);
      UnchangedPart(h, path, began, |h| - 1, from, |h| - 1);
    }
  }

  lemma LoadAnswers(c: Config, h: seq<Disk>, path: Path, began: nat, at: nat, entry: Entry, hit: bool)
    requires began <= at < |h| && IsRedactionAt(c, h, path, at, entry) && |h[at][path].bytes| <= c.maxBytes
    ensures Unchanged(h, path, began, |h| - 1) ==> Answers(c, h[began], path, Loaded(entry, hit))
  {
    if Unchanged(h, path, began, |h| - 1) {
      hide Unchanged;
      QuietAt(h, path, began, at, |h| - 1);
      RedactionAnswers(c, h, path, began, at, |h| - 1, entry, hit);
    }
  }

  lemma NewEntry(c: Config, h: seq<Disk>, path: Path, at: nat, raw: string)
    requires at < |h| && path in h[at] && TextOf(c, h[at][path].bytes) == Some(raw)
    ensures var entry := EntryFor(c, StampOf(h[at][path]), raw);
      IsRedactionAt(c, h, path, at, entry) && EntryOk(c, h, path, entry)
  {
    hide TextOf;
  }

  lemma OneDisk(disk: Disk)
    ensures StampsIdentify([disk])
  {
    forall path: Path, i, j | 0 <= i <= j < 1 && path in [disk][i] && path in [disk][j] ensures Unchanged([disk], path, i, j) {
      UnchangedAtOnce([disk], path, i);
    }
  }
}
