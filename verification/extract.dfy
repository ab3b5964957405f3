// The extractive compressor: rank important lines and their surroundings, pack them greedily under
// a budget, and report the kept and the omitted ranges.

module Extractive {
  import opened Options
  import opened Texts
  import opened LineSplitting
  import Ordering

  // ---------- which lines are wanted, and how much ----------

  predicate StartsWith(s: string, p: string) {
    p <= s
  }

  predicate Matches(lower: string, terms: seq<string>) {
    exists t | t in terms :: t != "" && Contains(lower, Lower(t))
  }

  predicate Diagnostic(lower: string) {
    Contains(lower, "error") || Contains(lower, "warning") || Contains(lower, "panicked") ||
    Contains(lower, "assertion failed")
  }

  predicate Definition(trimmed: string) {
    StartsWith(trimmed, "class ") || StartsWith(trimmed, "def ") || StartsWith(trimmed, "fn ") ||
    StartsWith(trimmed, "function ") || StartsWith(trimmed, "interface ") || StartsWith(trimmed, "pub fn ") ||
    StartsWith(trimmed, "struct ")
  }

  /** The class of an important line (0 matched or diagnostic, 1 definition, 2 heading), or None. */
  function Class(line: Bytes, terms: seq<string>): (c: Option<nat>)
    ensures c.Some? ==> c.value <= 2
  {
    var trimmed := TrimStart(AsciiText(line));
    var lower := Lower(trimmed);
    if Matches(lower, terms) || Diagnostic(lower) then Some(0)
    else if Definition(trimmed) then Some(1)
    else if StartsWith(trimmed, "#") then Some(2)
    else None
  }

  function Classes(lines: seq<Bytes>, terms: seq<string>): (r: seq<Option<nat>>)
    ensures |r| == |lines|
    ensures forall i | 0 <= i < |r| :: r[i].Some? ==> r[i].value <= 2
  {
    seq(|lines|, i requires 0 <= i < |lines| => Class(lines[i], terms))
  }

  predicate Near(i: int, j: int, distance: nat) {
    i - j <= distance && j - i <= distance
  }

  /** Line i lies within the distance of an important line before `bound`. */
  predicate Surrounds(classes: seq<Option<nat>>, bound: nat, i: int, distance: nat) {
    exists j | 0 <= j < bound && j < |classes| :: classes[j].Some? && Near(i, j, distance)
  }

  /** The meaning of the priority map when the lines before `bound` have been looked at. */
  function Priority(classes: seq<Option<nat>>, bound: nat, i: nat, distance: nat): Option<nat>
    requires i < |classes|
  {
    if i < bound && classes[i].Some? then classes[i]
    else if Surrounds(classes, bound, i, distance) then Some(3)
    else None
  }

  ghost predicate IsPriorityMap(wanted: map<nat, nat>, classes: seq<Option<nat>>, bound: nat, distance: nat) {
    && (forall i | i in wanted :: i < |classes|)
    && (forall i | 0 <= i < |classes| ::
          if i in wanted then Priority(classes, bound, i, distance) == Some(wanted[i])
          else Priority(classes, bound, i, distance) == None)
  }

  /** The map equals its declarative meaning: an important line has its own class, any other line
      within the distance of an important one has 3, and no other line is present. */
  method WantedLines(lines: seq<Bytes>, terms: seq<string>, distance: nat) returns (wanted: map<nat, nat>)
    ensures IsPriorityMap(wanted, Classes(lines, terms), |lines|, distance)
  {
    hide IsPriorityMap, Class;
    ghost var classes := Classes(lines, terms);
    wanted := map[];
    NothingWanted(classes, distance);
    for index := 0 to |lines|
      invariant IsPriorityMap(wanted, classes, index, distance)
    {
      var kind := Class(lines[index], terms);
      if kind.Some? {
        var priority := kind.value;
        ghost var before := wanted;
        NotYetLookedAt(wanted, classes, index, distance);
        wanted := wanted[index := if index in wanted && wanted[index] < priority then wanted[index] else priority];
        var start := if index >= distance then index - distance else 0;
        var end := if index + distance < |lines| then index + distance else |lines| - 1;
        ghost var own := wanted;
        for context := start to end + 1
          invariant forall i :: i in wanted <==> i in own || start <= i < context
          invariant forall i | i in wanted :: wanted[i] == if i in own then own[i] else 3
        {
          if context !in wanted {
            wanted := wanted[context := 3];
          }
        }
        OneMoreImportant(before, own, wanted, classes, index, distance, start, end);
      } else {
        SameSurroundings(wanted, classes, index, distance);
      }
    }
  }

  lemma NothingWanted(classes: seq<Option<nat>>, distance: nat)
    ensures IsPriorityMap(map[], classes, 0, distance)
  {
  }

  lemma NotYetLookedAt(wanted: map<nat, nat>, classes: seq<Option<nat>>, index: nat, distance: nat)
    requires IsPriorityMap(wanted, classes, index, distance) && index < |classes|
    ensures index in wanted ==> wanted[index] == 3
  {
  }

  lemma SameSurroundings(wanted: map<nat, nat>, classes: seq<Option<nat>>, bound: nat, distance: nat)
    requires bound < |classes| && classes[bound].None?
    requires IsPriorityMap(wanted, classes, bound, distance)
    ensures IsPriorityMap(wanted, classes, bound + 1, distance)
  {
    forall i: nat | i < |classes|
      ensures Surrounds(classes, bound + 1, i, distance) == Surrounds(classes, bound, i, distance)
    {
      if Surrounds(classes, bound + 1, i, distance) {
        var j :| 0 <= j < bound + 1 && classes[j].Some? && Near(i, j, distance);
        assert j < bound;
      }
    }
  }

  lemma MoreSurroundings(classes: seq<Option<nat>>, bound: nat, i: int, distance: nat)
    requires bound < |classes| && classes[bound].Some?
    ensures Surrounds(classes, bound + 1, i, distance) <==> Surrounds(classes, bound, i, distance) || Near(i, bound, distance)
  {
    if Surrounds(classes, bound + 1, i, distance) {
      var j :| 0 <= j < bound + 1 && classes[j].Some? && Near(i, j, distance);
      assert j == bound || j < bound;
    }
  }

  lemma OneMoreImportant(before: map<nat, nat>, own: map<nat, nat>, after: map<nat, nat>,
                         classes: seq<Option<nat>>, index: nat, distance: nat, start: int, end: int)
    requires index < |classes| && classes[index].Some? && classes[index].value <= 2
    requires IsPriorityMap(before, classes, index, distance)
    requires own == before[index := classes[index].value]
    requires start == (if index >= distance then index - distance else 0)
    requires end == (if index + distance < |classes| then index + distance else |classes| - 1)
    requires forall i :: i in after <==> i in own || start <= i < end + 1
    requires forall i | i in after :: after[i] == if i in own then own[i] else 3
    ensures IsPriorityMap(after, classes, index + 1, distance)
  {
    forall i: nat | i < |classes|
      ensures if i in after then Priority(classes, index + 1, i, distance) == Some(after[i])
              else Priority(classes, index + 1, i, distance) == None
    {
      MoreSurroundings(classes, index, i, distance);
    }
  }

  // ---------- greedy packing in rank order ----------

  /** A wanted line: its index and its priority. */
  type Entry = (nat, nat)

  function ByPriority(): (Entry, Entry) -> bool {
    (a: Entry, b: Entry) => a.1 < b.1 || (a.1 == b.1 && a.0 <= b.0)
  }

  /** The entries of the ordered map, by ascending index. */
  function Entries(wanted: map<nat, nat>, n: nat): seq<Entry> {
    if n == 0 then []
    else Entries(wanted, n - 1) + (if n - 1 in wanted then [(n - 1, wanted[n - 1])] else [])
  }

  function Ranked(wanted: map<nat, nat>, n: nat): seq<Entry> {
    Ordering.Sort(Entries(wanted, n), ByPriority())
  }

  function Cost(line: Bytes): nat {
    SaturatingAdd(|line|, 4)
  }

  /** Cost of the selected lines with an index below n. */
  function Used(lines: seq<Bytes>, selected: set<nat>, n: nat): nat
    requires n <= |lines|
  {
    if n == 0 then 0
    else Used(lines, selected, n - 1) + (if n - 1 in selected then Cost(lines[n - 1]) else 0)
  }

  /** Greedy selection: a line is kept exactly when it fits after the kept lines ranked before it. */
  ghost predicate IsGreedy(selected: set<nat>, ranked: seq<Entry>, lines: seq<Bytes>, limit: nat) {
    && (forall i | i in selected :: i < |lines| && exists k :: 0 <= k < |ranked| && ranked[k].0 == i)
    && (forall k | 0 <= k < |ranked| && ranked[k].0 < |lines| ::
          ranked[k].0 in selected <==>
            Used(lines, selected * RankedBefore(ranked, k), |lines|) + Cost(lines[ranked[k].0]) <= limit)
  }

  function RankedBefore(ranked: seq<Entry>, k: nat): set<nat>
    requires k <= |ranked|
  {
    set j | 0 <= j < k :: ranked[j].0
  }

  method PackLines(lines: seq<Bytes>, ranked: seq<Entry>, limit: nat) returns (selected: set<nat>, used: nat)
    requires limit <= U32_MAX
    requires forall k | 0 <= k < |ranked| :: ranked[k].0 < |lines|
    requires forall j, k | 0 <= j < k < |ranked| :: ranked[j].0 != ranked[k].0
    ensures IsGreedy(selected, ranked, lines, limit)
    ensures used == Used(lines, selected, |lines|) <= limit
  {
    selected, used := {}, 0;
    UsedNothing(lines, |lines|);
    for k := 0 to |ranked|
      invariant selected <= RankedBefore(ranked, k)
      invariant used == Used(lines, selected, |lines|) <= limit
      invariant forall j | 0 <= j < k :: ranked[j].0 in selected <==>
            Used(lines, selected * RankedBefore(ranked, j), |lines|) + Cost(lines[ranked[j].0]) <= limit
    {
      var index := ranked[k].0;
      var cost := Cost(lines[index]);
      assert index !in selected;
      assert selected * RankedBefore(ranked, k) == selected;
      ghost var before := selected;
      if SaturatingAdd(used, cost) <= limit {
        UsedOneMore(lines, selected, index, |lines|);
        selected := selected + {index};
        used := used + cost;
      }
      forall j | 0 <= j <= k ensures selected * RankedBefore(ranked, j) == before * RankedBefore(ranked, j) {
        assert index !in RankedBefore(ranked, j);
      }
      assert RankedBefore(ranked, k + 1) == RankedBefore(ranked, k) + {index};
    }
  }

  lemma UsedNothing(lines: seq<Bytes>, n: nat)
    requires n <= |lines|
    ensures Used(lines, {}, n) == 0
  {
  }

  lemma {:induction false} UsedOneMore(lines: seq<Bytes>, selected: set<nat>, index: nat, n: nat)
    requires n <= |lines| && index !in selected && index < |lines|
    ensures Used(lines, selected + {index}, n) ==
      Used(lines, selected, n) + (if index < n then Cost(lines[index]) else 0)
  {
    if n > 0 {
      UsedOneMore(lines, selected, index, n - 1);
    }
  }

  // ---------- ranges ----------

  type Run = (nat, nat)

  predicate InRun(i: nat, run: Run) {
    run.0 <= i <= run.1
  }

  predicate Covered(runs: seq<Run>, i: nat) {
    exists k | 0 <= k < |runs| :: InRun(i, runs[k])
  }

  /** Maximal runs of consecutive members of a set, in ascending order. */
  ghost predicate AreRuns(runs: seq<Run>, s: set<nat>) {
    && (forall k | 0 <= k < |runs| :: runs[k].0 <= runs[k].1)
    && (forall j, k | 0 <= j < k < |runs| :: runs[j].1 + 1 < runs[k].0)
    && (forall i: nat :: i in s <==> Covered(runs, i))
  }

  function Members(selected: set<nat>, n: nat): seq<nat> {
    if n == 0 then [] else Members(selected, n - 1) + (if n - 1 in selected then [n - 1] else [])
  }

  lemma {:induction false} MembersAscend(selected: set<nat>, n: nat)
    ensures forall i :: i in Members(selected, n) <==> i in selected && i < n
    ensures forall j, k | 0 <= j < k < |Members(selected, n)| :: Members(selected, n)[j] < Members(selected, n)[k]
  {
    if n > 0 {
      MembersAscend(selected, n - 1);
      var m := Members(selected, n - 1);
      forall j | 0 <= j < |m| ensures m[j] < n - 1 {
        assert m[j] in m;
      }
    }
  }

  function SetOf(s: seq<nat>): set<nat> {
    set i | i in s
  }

  lemma SetOfSnoc(s: seq<nat>, x: nat)
    ensures SetOf(s + [x]) == SetOf(s) + {x}
  {
  }

  method Ranges(indices: seq<nat>) returns (output: seq<Run>)
    requires forall j, k | 0 <= j < k < |indices| :: indices[j] < indices[k]
    ensures AreRuns(output, SetOf(indices))
  {
    hide AreRuns;
    output := [];
    NoRuns();
    assert SetOf(indices[..0]) == {};
    for n := 0 to |indices|
      invariant AreRuns(output, SetOf(indices[..n]))
      invariant n == 0 <==> output == []
      invariant n > 0 ==> output[|output| - 1].1 == indices[n - 1]
    {
      var index := indices[n];
      ghost var was := output;
      assert indices[..n + 1] == indices[..n] + [index];
      if output != [] && index == output[|output| - 1].1 + 1 {
        output := output[|output| - 1 := (output[|output| - 1].0, index)];
        ExtendLast(was, SetOf(indices[..n]), index);
      } else {
        output := output + [(index, index)];
        StartRun(was, SetOf(indices[..n]), index);
      }
      SetOfSnoc(indices[..n], index);
    }
    assert indices[..|indices|] == indices;
  }

  lemma NoRuns()
    ensures AreRuns([], {})
  {
  }

  lemma ExtendLast(runs: seq<Run>, s: set<nat>, index: nat)
    requires AreRuns(runs, s) && runs != [] && index == runs[|runs| - 1].1 + 1
    ensures AreRuns(runs[|runs| - 1 := (runs[|runs| - 1].0, index)], s + {index})
  {
    var last := |runs| - 1;
    var runs' := runs[last := (runs[last].0, index)];
    forall i: nat ensures i in s + {index} <==> Covered(runs', i) {
      if Covered(runs, i) {
        var k :| 0 <= k < |runs| && InRun(i, runs[k]);
        assert InRun(i, runs'[k]);
      }
      if i == index {
        assert InRun(i, runs'[last]);
      } else if Covered(runs', i) {
        var k :| 0 <= k < |runs'| && InRun(i, runs'[k]);
        assert InRun(i, runs[k]);
      }
    }
  }

  lemma StartRun(runs: seq<Run>, s: set<nat>, index: nat)
    requires AreRuns(runs, s) && (runs != [] ==> runs[|runs| - 1].1 + 1 < index)
    ensures AreRuns(runs + [(index, index)], s + {index})
  {
    var runs' := runs + [(index, index)];
    forall i: nat ensures i in s + {index} <==> Covered(runs', i) {
      if Covered(runs, i) {
        var k :| 0 <= k < |runs| && InRun(i, runs[k]);
        assert InRun(i, runs'[k]);
      }
      if i == index {
        assert InRun(i, runs'[|runs|]);
      } else if Covered(runs', i) {
        var k :| 0 <= k < |runs'| && InRun(i, runs'[k]);
        assert InRun(i, runs[k]);
      }
    }
  }

  /** The runs of a set are determined by it. */
  lemma {:induction false} RunsUnique(a: seq<Run>, b: seq<Run>, s: set<nat>)
    requires AreRuns(a, s) && AreRuns(b, s)
    ensures a == b
    decreases |a|
  {
    if a == [] || b == [] {
      NoRunNoMember(a, s);
      NoRunNoMember(b, s);
    } else {
      FirstRun(a, b, s);
      FirstRun(b, a, s);
      DropRun(a, s);
      DropRun(b, s);
      RunsUnique(a[1..], b[1..], Without(s, a[0]));
      assert a == [a[0]] + a[1..] && b == [b[0]] + b[1..];
    }
  }

  function Without(s: set<nat>, run: Run): set<nat> {
    set i | i in s && !InRun(i, run)
  }

  lemma NoRunNoMember(a: seq<Run>, s: set<nat>)
    requires AreRuns(a, s)
    ensures a == [] <==> s == {}
  {
    if a != [] {
      assert InRun(a[0].0, a[0]);
      assert Covered(a, a[0].0);
    } else {
      assert forall i: nat :: !Covered(a, i);
    }
  }

  lemma FirstRun(a: seq<Run>, b: seq<Run>, s: set<nat>)
    requires AreRuns(a, s) && AreRuns(b, s) && a != [] && b != []
    ensures a[0].0 >= b[0].0
    ensures a[0].0 == b[0].0 ==> a[0].1 <= b[0].1
  {
    assert InRun(a[0].0, a[0]) && Covered(a, a[0].0);
    assert Covered(b, a[0].0);
    var gap := b[0].1 + 1;
    assert !Covered(b, gap);
    assert InRun(gap, a[0]) ==> Covered(a, gap);
  }

  lemma DropRun(a: seq<Run>, s: set<nat>)
    requires AreRuns(a, s) && a != []
    ensures AreRuns(a[1..], Without(s, a[0]))
  {
    forall i: nat ensures i in Without(s, a[0]) <==> Covered(a[1..], i) {
      if Covered(a[1..], i) {
        var k :| 0 <= k < |a[1..]| && InRun(i, a[1..][k]);
        assert InRun(i, a[k + 1]);
      }
      if i in Without(s, a[0]) {
        var k :| 0 <= k < |a| && InRun(i, a[k]);
        assert InRun(i, a[1..][k - 1]);
      }
    }
  }

  // ---------- the whole compressor ----------

  /** Line numbers are one-based and saturate at the largest u32. */
  datatype Passage = Passage(startLine: nat, endLine: nat, content: Bytes)
  datatype OmittedRange = OmittedRange(startLine: nat, endLine: nat)
  datatype Compressed = Compressed(passages: seq<Passage>, omitted: seq<OmittedRange>, usedTokens: nat)

  function LineNumber(index: nat): nat {
    if index + 1 > U32_MAX then U32_MAX else index + 1
  }

  function PassageOf(lines: seq<Bytes>, run: Run): Passage
    requires run.0 <= run.1 < |lines|
  {
    Passage(LineNumber(run.0), LineNumber(run.1), Join(lines[run.0..run.1 + 1]))
  }

  function OmittedOf(run: Run): OmittedRange {
    OmittedRange(LineNumber(run.0), LineNumber(run.1))
  }

  function Complement(selected: set<nat>, n: nat): set<nat> {
    set i: nat | i < n && i !in selected
  }

  /** The result describes a selection: its passages are the maximal runs of the selected lines with
      their verbatim text, its omitted ranges the maximal runs of all other lines. */
  ghost predicate Describes(c: Compressed, lines: seq<Bytes>, selected: set<nat>, kept: seq<Run>, left: seq<Run>) {
    && (forall i | i in selected :: i < |lines|)
    && AreRuns(kept, selected) && AreRuns(left, Complement(selected, |lines|))
    && |c.passages| == |kept| && |c.omitted| == |left|
    && (forall k | 0 <= k < |kept| :: kept[k].0 <= kept[k].1 < |lines| && c.passages[k] == PassageOf(lines, kept[k]))
    && (forall k | 0 <= k < |left| :: c.omitted[k] == OmittedOf(left[k]))
    && c.usedTokens == Used(lines, selected, |lines|)
  }

  /** From the text of a source to its passages. */
  method CompressContext(content: Bytes, terms: seq<string>, distance: nat, limit: nat)
    returns (c: Compressed, ghost selected: set<nat>, ghost kept: seq<Run>, ghost left: seq<Run>, ghost wanted: map<nat, nat>)
    requires limit <= U32_MAX
    ensures var lines := AllLines(content);
      && IsPriorityMap(wanted, Classes(lines, terms), |lines|, distance)
      && IsGreedy(selected, Ranked(wanted, |lines|), lines, limit)
      && Describes(c, lines, selected, kept, left)
    ensures c.usedTokens <= limit
  {
    var lines := AllLines(content);
    hide AllLines, AreRuns, Members, SetOf, IsGreedy, IsPriorityMap, Used, Ranked, Complement, PassageOf, OmittedOf;
    var priorities := WantedLines(lines, terms, distance);
    wanted := priorities;
    RankedKeys(priorities, |lines|);
    var chosen, used := PackLines(lines, Ranked(priorities, |lines|), limit);
    selected := chosen;
    GreedyInRange(chosen, Ranked(priorities, |lines|), lines, limit);
    AllMembers(chosen, |lines|);
    var runs := Ranges(Members(chosen, |lines|));
    kept := runs;
    var others := Complement(chosen, |lines|);
    ComplementInRange(chosen, |lines|);
    AllMembers(others, |lines|);
    var gaps := Ranges(Members(others, |lines|));
    left := gaps;
    RunsBounded(runs, chosen, |lines|);
    var passages := seq(|runs|, k requires 0 <= k < |runs| => PassageOf(lines, runs[k]));
    var omitted := seq(|gaps|, k requires 0 <= k < |gaps| => OmittedOf(gaps[k]));
    c := Compressed(passages, omitted, used);
  }

  lemma GreedyInRange(selected: set<nat>, ranked: seq<Entry>, lines: seq<Bytes>, limit: nat)
    requires IsGreedy(selected, ranked, lines, limit)
    ensures forall i | i in selected :: i < |lines|
  {
  }

  lemma ComplementInRange(selected: set<nat>, n: nat)
    ensures forall i | i in Complement(selected, n) :: i < n
  {
  }

  /** Iterating over a set of indices in ascending order visits exactly its members. */
  lemma AllMembers(selected: set<nat>, n: nat)
    requires forall i | i in selected :: i < n
    ensures SetOf(Members(selected, n)) == selected
    ensures forall j, k | 0 <= j < k < |Members(selected, n)| :: Members(selected, n)[j] < Members(selected, n)[k]
  {
    MembersAscend(selected, n);
  }

  lemma RunsBounded(runs: seq<Run>, s: set<nat>, n: nat)
    requires AreRuns(runs, s) && forall i | i in s :: i < n
    ensures forall k | 0 <= k < |runs| :: runs[k].0 <= runs[k].1 < n
  {
    forall k | 0 <= k < |runs| ensures runs[k].1 < n {
      assert InRun(runs[k].1, runs[k]) && Covered(runs, runs[k].1);
    }
  }

  lemma {:induction false} EntriesAscend(wanted: map<nat, nat>, n: nat)
    ensures forall e :: e in Entries(wanted, n) <==> e.0 < n && e.0 in wanted && wanted[e.0] == e.1
    ensures forall j, k | 0 <= j < k < |Entries(wanted, n)| :: Entries(wanted, n)[j].0 < Entries(wanted, n)[k].0
  {
    if n > 0 {
      EntriesAscend(wanted, n - 1);
      var m := Entries(wanted, n - 1);
      forall j | 0 <= j < |m| ensures m[j].0 < n - 1 {
        assert m[j] in m;
      }
    }
  }

  /** The ranking lists every wanted line once, by priority and then by position. */
  lemma RankedKeys(wanted: map<nat, nat>, n: nat)
    ensures var r := Ranked(wanted, n);
      && (forall e :: e in r <==> e.0 < n && e.0 in wanted && wanted[e.0] == e.1)
      && (forall j, k | 0 <= j < k < |r| :: r[j].1 < r[k].1 || (r[j].1 == r[k].1 && r[j].0 < r[k].0))
      && (forall k | 0 <= k < |r| :: r[k].0 < n)
      && (forall j, k | 0 <= j < k < |r| :: r[j].0 != r[k].0)
  {
    var tie := (a: Entry, b: Entry) => a.0 < b.0;
    EntriesAscend(wanted, n);
    hide Entries, Ordering.Sort;
    Ordering.SortMembers(Entries(wanted, n), ByPriority());
    Ordering.SortChain(Entries(wanted, n), ByPriority(), tie);
    var r := Ranked(wanted, n);
    forall j, k | 0 <= j < k < |r| ensures r[j].1 < r[k].1 || (r[j].1 == r[k].1 && r[j].0 < r[k].0) {
      assert Ordering.Before(r[j], r[k], ByPriority(), tie);
    }
    DistinctKeys(r, wanted);
  }

  lemma DistinctKeys(r: seq<Entry>, wanted: map<nat, nat>)
    requires forall e | e in r :: e.0 in wanted && wanted[e.0] == e.1
    requires forall j, k | 0 <= j < k < |r| :: r[j].1 < r[k].1 || (r[j].1 == r[k].1 && r[j].0 < r[k].0)
    ensures forall j, k | 0 <= j < k < |r| :: r[j].0 != r[k].0
  {
    forall j, k | 0 <= j < k < |r| ensures r[j].0 != r[k].0 {
      assert r[j] in r && r[k] in r;
    }
  }

  /** Passages and omitted ranges tile the source: every line lies in exactly one of them. */
  lemma TilesEveryLine(c: Compressed, lines: seq<Bytes>, selected: set<nat>, kept: seq<Run>, left: seq<Run>, i: nat)
    requires Describes(c, lines, selected, kept, left) && i < |lines|
    ensures Covered(kept, i) <==> !Covered(left, i)
    ensures forall j, k | 0 <= j < k < |kept| :: !(InRun(i, kept[j]) && InRun(i, kept[k]))
    ensures forall j, k | 0 <= j < k < |left| :: !(InRun(i, left[j]) && InRun(i, left[k]))
  {
    assert i in selected || i in Complement(selected, |lines|);
  }

  /** With fewer than 2^32 lines the printed line numbers are the runs themselves. */
  lemma LineNumbersAreExact(c: Compressed, lines: seq<Bytes>, selected: set<nat>, kept: seq<Run>, left: seq<Run>)
    requires Describes(c, lines, selected, kept, left) && |lines| <= U32_MAX
    ensures forall k | 0 <= k < |kept| ::
      && c.passages[k].startLine == kept[k].0 + 1 && c.passages[k].endLine == kept[k].1 + 1
      && c.passages[k].content == Join(lines[kept[k].0..kept[k].1 + 1])
    ensures forall k | 0 <= k < |left| ::
      c.omitted[k].startLine == left[k].0 + 1 && c.omitted[k].endLine == left[k].1 + 1
  {
    RunsBounded(kept, selected, |lines|);
    RunsBounded(left, Complement(selected, |lines|), |lines|);
  }

  // ---------- which lines are wanted, and what a selection costs ----------

  /** A line is wanted exactly when some important line is at most `distance` lines away; an important line keeps its own
      class as its priority, and any other wanted line has the last one, 3. */
  lemma WantedExactly(wanted: map<nat, nat>, classes: seq<Option<nat>>, distance: nat, i: nat)
    requires IsPriorityMap(wanted, classes, |classes|, distance)
    ensures i in wanted <==>
      i < |classes| && exists j: nat :: j < |classes| && classes[j].Some? && (if i <= j then j - i else i - j) <= distance
    ensures i in wanted ==> wanted[i] == if classes[i].Some? then classes[i].value else 3
  {
    if i < |classes| {
      if classes[i].Some? {
        assert (if i <= i then i - i else i - i) <= distance;
      }
      if Surrounds(classes, |classes|, i, distance) {
        var j: int :| 0 <= j < |classes| && classes[j].Some? && Near(i, j, distance);
        var n: nat := j;
        assert classes[n].Some? && (if i <= n then n - i else i - n) <= distance;
      }
      if j: nat :| j < |classes| && classes[j].Some? && (if i <= j then j - i else i - j) <= distance {
        assert Near(i, j, distance);
      }
    }
  }

  /** Bytes of the selected lines with an index below n. */
  function BytesOfSelected(lines: seq<Bytes>, selected: set<nat>, n: nat): nat
    requires n <= |lines|
  {
    if n == 0 then 0
    else BytesOfSelected(lines, selected, n - 1) + (if n - 1 in selected then |lines[n - 1]| else 0)
  }

  /** A selection uses its bytes and four for each of its lines. */
  lemma {:induction false} UsedIsBytesAndBreaks(lines: seq<Bytes>, selected: set<nat>, n: nat)
    requires n <= |lines| && forall i | 0 <= i < |lines| :: |lines[i]| + 4 <= U64_MAX
    ensures Used(lines, selected, n) == BytesOfSelected(lines, selected, n) + 4 * |set i | i in selected && i < n|
    decreases n
  {
    if n > 0 {
      UsedIsBytesAndBreaks(lines, selected, n - 1);
      var before, now := set i | i in selected && i < n - 1, set i | i in selected && i < n;
      if n - 1 in selected {
        assert now == before + {n - 1};
      } else {
        assert now == before;
      }
    } else {
      assert (set i | i in selected && i < 0) == {};
    }
  }

  // ---------- the budget covers the passages ----------

  lemma {:induction false} JoinLength(lines: seq<Bytes>, a: nat, b: nat)
    requires a < b <= |lines| && forall i | 0 <= i < |lines| :: |lines[i]| + 4 <= U64_MAX
    ensures |Join(lines[a..b])| + 4 <= RunCost(lines, a, b)
    decreases b - a
  {
    var s := lines[a..b];
    assert s[0] == lines[a];
    if b - a > 1 {
      assert s[1..] == lines[a + 1..b];
      JoinLength(lines, a + 1, b);
    }
  }

  function RunCost(lines: seq<Bytes>, a: nat, b: nat): nat
    requires a <= b <= |lines|
    decreases b - a
  {
    if a == b then 0 else Cost(lines[a]) + RunCost(lines, a + 1, b)
  }

  lemma {:induction false} UsedOfRun(lines: seq<Bytes>, selected: set<nat>, a: nat, b: nat)
    requires a <= b <= |lines| && forall i: nat | a <= i < b :: i in selected
    ensures Used(lines, selected, b) == Used(lines, selected, a) + RunCost(lines, a, b)
    decreases b - a
  {
    if a < b {
      UsedOfRun(lines, selected, a + 1, b);
    }
  }

  lemma {:induction false} UsedMonotone(lines: seq<Bytes>, selected: set<nat>, a: nat, b: nat)
    requires a <= b <= |lines|
    ensures Used(lines, selected, a) <= Used(lines, selected, b)
    decreases b - a
  {
    if a < b {
      UsedMonotone(lines, selected, a, b - 1);
    }
  }

  /** Length of the first m passages, four bytes of separator each included. */
  function PassageBytes(passages: seq<Passage>, m: nat): nat
    requires m <= |passages|
  {
    if m == 0 then 0 else PassageBytes(passages, m - 1) + |passages[m - 1].content| + 4
  }

  lemma RunFits(lines: seq<Bytes>, selected: set<nat>, run: Run, before: nat)
    requires before <= run.0 <= run.1 < |lines| && forall i: nat | InRun(i, run) :: i in selected
    requires forall i | 0 <= i < |lines| :: |lines[i]| + 4 <= U64_MAX
    ensures Used(lines, selected, before) + |PassageOf(lines, run).content| + 4 <= Used(lines, selected, run.1 + 1)
  {
    UsedMonotone(lines, selected, before, run.0);
    assert forall i: nat | run.0 <= i < run.1 + 1 :: InRun(i, run);
    UsedOfRun(lines, selected, run.0, run.1 + 1);
    JoinLength(lines, run.0, run.1 + 1);
  }

  /** Use of the lines up to the end of the m-th run. */
  function UsedThrough(lines: seq<Bytes>, selected: set<nat>, kept: seq<Run>, m: nat): nat
    requires m <= |kept| && (m > 0 ==> kept[m - 1].1 < |lines|)
  {
    Used(lines, selected, if m == 0 then 0 else kept[m - 1].1 + 1)
  }

  lemma PassageFits(c: Compressed, lines: seq<Bytes>, selected: set<nat>, kept: seq<Run>, left: seq<Run>, m: nat)
    requires Describes(c, lines, selected, kept, left) && m < |kept|
    requires forall i | 0 <= i < |lines| :: |lines[i]| + 4 <= U64_MAX
    ensures UsedThrough(lines, selected, kept, m) + |c.passages[m].content| + 4 <= UsedThrough(lines, selected, kept, m + 1)
  {
    hide AreRuns, PassageOf, OmittedOf, Used, Complement;
    RunMembers(kept, selected, m);
    var before := if m == 0 then 0 else kept[m - 1].1 + 1;
    assert c.passages[m] == PassageOf(lines, kept[m]) && kept[m].0 <= kept[m].1 < |lines|;
    RunFits(lines, selected, kept[m], before);
  }

  lemma {:induction false} PassagesFitPrefix(c: Compressed, lines: seq<Bytes>, selected: set<nat>, kept: seq<Run>,
                                             left: seq<Run>, m: nat)
    requires Describes(c, lines, selected, kept, left) && m <= |kept|
    requires forall i | 0 <= i < |lines| :: |lines[i]| + 4 <= U64_MAX
    ensures PassageBytes(c.passages, m) <= UsedThrough(lines, selected, kept, m)
  {
    hide UsedThrough;
    if m > 0 {
      PassagesFitPrefix(c, lines, selected, kept, left, m - 1);
      PassageFits(c, lines, selected, kept, left, m - 1);
    }
  }

  lemma RunMembers(runs: seq<Run>, s: set<nat>, k: nat)
    requires AreRuns(runs, s) && k < |runs|
    ensures forall i: nat | InRun(i, runs[k]) :: i in s
    ensures k > 0 ==> runs[k - 1].1 + 1 < runs[k].0
  {
    forall i: nat | InRun(i, runs[k]) ensures i in s {
      assert Covered(runs, i);
    }
  }

  /** Total passage length plus four bytes per passage never exceeds the reported use, and the reported
      use never exceeds the budget. */
  lemma PassagesFitBudget(c: Compressed, lines: seq<Bytes>, selected: set<nat>, kept: seq<Run>, left: seq<Run>)
    requires Describes(c, lines, selected, kept, left)
    requires forall i | 0 <= i < |lines| :: |lines[i]| + 4 <= U64_MAX
    ensures PassageBytes(c.passages, |c.passages|) <= c.usedTokens
  {
    hide Used, PassageOf, AreRuns, PassageBytes, OmittedOf;
    PassagesFitPrefix(c, lines, selected, kept, left, |kept|);
    UsedMonotone(lines, selected, if kept == [] then 0 else kept[|kept| - 1].1 + 1, |lines|);
  }
}
