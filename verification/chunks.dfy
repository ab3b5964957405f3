// Line-range chunks of a large source, each with a handle from which it can be fetched again.

module Chunks {
  import opened Options
  import opened Texts
  import opened LineSplitting
  import opened Handles

  /** A repository file, or a span of its lines. */
  datatype Candidate = Candidate(id: string, span: Option<Span>, content: Bytes)

  const MAX_ID: nat := 1024

  predicate ValidId(id: string) {
    id != "" && |id| <= MAX_ID && forall c | c in id :: 32 <= c as int < 127
  }

  function SkipTake(lines: seq<Bytes>, skip: nat, count: nat): seq<Bytes> {
    if skip >= |lines| then []
    else if skip + count >= |lines| then lines[skip..]
    else lines[skip..skip + count]
  }

  /** The candidate for a span of lines; None for an invalid span, for empty content and for a handle
      that is too long. */
  function SymbolCandidate(source: Candidate, span: Span): Option<Candidate> {
    if span.startLine == 0 || span.endLine < span.startLine then None
    else
      var lines := SkipTake(AllLines(source.content), span.startLine - 1, span.endLine - span.startLine + 1);
      var content := Join(lines);
      var id := source.id + SpanSuffix(span);
      if content == [] || !ValidId(id) then None else Some(Candidate(id, Some(span), content))
  }

  // ---------- grouping lines ----------

  /** Bytes a line adds to its group: a line break is counted unless it is the last line of the source. */
  function Weight(lines: seq<Bytes>, i: nat): nat
    requires i < |lines|
  {
    |lines[i]| + if i + 1 < |lines| then 1 else 0
  }

  /** End of the group that starts at `start` and has reached `end` with the given weight. */
  function Grow(lines: seq<Bytes>, start: nat, end: nat, bytes: nat, max: nat): (r: nat)
    requires start <= end <= |lines|
    ensures end <= r <= |lines| && (end == start < |lines| ==> r > start)
    decreases |lines| - end
  {
    if end == |lines| then end
    else
      var additional := Weight(lines, end);
      if end > start && bytes + additional > max then end
      else if bytes + additional >= max then end + 1
      else Grow(lines, start, end + 1, bytes + additional, max)
  }

  /** Half-open ranges of line indices. */
  type Group = (nat, nat)

  function Groups(lines: seq<Bytes>, start: nat, max: nat): seq<Group>
    requires start <= |lines|
    decreases |lines| - start
  {
    if start == |lines| then []
    else
      var end := Grow(lines, start, start, 0, max);
      [(start, end)] + Groups(lines, end, max)
  }

  function SpanOf(group: Group): Span {
    Span(Saturate(group.0 + 1), Saturate(group.1))
  }

  function Saturate(n: nat): nat {
    if n > U32_MAX then U32_MAX else n
  }

  function Kept(source: Candidate, groups: seq<Group>): seq<Candidate> {
    if groups == [] then []
    else
      var rest := Kept(source, groups[1..]);
      match SymbolCandidate(source, SpanOf(groups[0]))
      case None => rest
      case Some(chunk) => [chunk] + rest
  }

  function Chunked(source: Candidate, max: nat): seq<Candidate> {
    if |source.content| <= max then [source]
    else
      var chunks := Kept(source, Groups(AllLines(source.content), 0, max));
      if chunks == [] then [source] else chunks
  }

  method ChunkCandidate(source: Candidate, maxChunkBytes: nat) returns (result: seq<Candidate>)
    ensures result == Chunked(source, maxChunkBytes)
  {
    hide AllLines, SymbolCandidate, Weight, Kept, Groups, Grow, Saturate;
    if |source.content| <= maxChunkBytes {
      return [source];
    }
    var lines := AllLines(source.content);
    var chunks: seq<Candidate> := [];
    var start := 0;
    while start < |lines|
      invariant start <= |lines|
      invariant chunks + Kept(source, Groups(lines, start, maxChunkBytes)) == Kept(source, Groups(lines, 0, maxChunkBytes))
    {
      var end := FillGroup(lines, start, maxChunkBytes);
      GroupsStep(lines, start, maxChunkBytes);
      var span := Span(Saturate(start + 1), Saturate(end));
      var chunk := SymbolCandidate(source, span);
      KeptStep(source, (start, end), Groups(lines, end, maxChunkBytes), chunks);
      if chunk.Some? {
        chunks := chunks + [chunk.value];
      }
      start := end;
    }
    NothingKept(source, lines, maxChunkBytes);
    assert chunks + [] == chunks;
    result := if chunks == [] then [source] else chunks;
  }

  /** The inner loop: how far the group that starts here reaches. */
  method FillGroup(lines: seq<Bytes>, start: nat, maxChunkBytes: nat) returns (end: nat)
    requires start < |lines|
    ensures end == Grow(lines, start, start, 0, maxChunkBytes)
  {
    hide Grow, Weight;
    end := start;
    var bytes: nat := 0;
    while end < |lines|
      invariant start <= end <= |lines|
      invariant Grow(lines, start, start, 0, maxChunkBytes) == Grow(lines, start, end, bytes, maxChunkBytes)
    {
      GrowStep(lines, start, end, bytes, maxChunkBytes);
      var additional := Weight(lines, end);
      if end > start && bytes + additional > maxChunkBytes {
        return;
      }
      bytes := bytes + additional;
      end := end + 1;
      if bytes >= maxChunkBytes {
        return;
      }
    }
    GrowEnd(lines, start, bytes, maxChunkBytes);
  }

  lemma GrowEnd(lines: seq<Bytes>, start: nat, bytes: nat, max: nat)
    requires start <= |lines|
    ensures Grow(lines, start, |lines|, bytes, max) == |lines|
  {
  }

  lemma GrowStep(lines: seq<Bytes>, start: nat, end: nat, bytes: nat, max: nat)
    requires start <= end < |lines|
    ensures var additional := Weight(lines, end);
      Grow(lines, start, end, bytes, max) ==
        if end > start && bytes + additional > max then end
        else if bytes + additional >= max then end + 1
        else Grow(lines, start, end + 1, bytes + additional, max)
  {
  }

  lemma GroupsStep(lines: seq<Bytes>, start: nat, max: nat)
    requires start < |lines|
    ensures var end := Grow(lines, start, start, 0, max);
      Groups(lines, start, max) == [(start, end)] + Groups(lines, end, max)
  {
  }

  lemma NothingKept(source: Candidate, lines: seq<Bytes>, max: nat)
    ensures Kept(source, Groups(lines, |lines|, max)) == []
  {
  }

  lemma KeptStep(source: Candidate, group: Group, groups: seq<Group>, done: seq<Candidate>)
    ensures var chunk := SymbolCandidate(source, SpanOf(group));
      done + Kept(source, [group] + groups) ==
        (if chunk.Some? then done + [chunk.value] else done) + Kept(source, groups)
  {
    assert ([group] + groups)[1..] == groups;
    match SymbolCandidate(source, SpanOf(group))
    case None =>
    case Some(chunk) => ConcatAssoc(done, [chunk], Kept(source, groups));
  }

  // ---------- the groups tile the source ----------

  function TotalWeight(lines: seq<Bytes>, a: nat, b: nat): nat
    requires a <= b <= |lines|
    decreases b - a
  {
    if a == b then 0 else TotalWeight(lines, a, b - 1) + Weight(lines, b - 1)
  }

  /** A group of several lines stays within the bound. */
  lemma {:induction false} GrowFits(lines: seq<Bytes>, start: nat, end: nat, bytes: nat, max: nat)
    requires start <= end <= |lines| && bytes == TotalWeight(lines, start, end)
    requires end > start + 1 ==> bytes <= max
    ensures var r := Grow(lines, start, end, bytes, max); r > start + 1 ==> TotalWeight(lines, start, r) <= max
    decreases |lines| - end
  {
    if end < |lines| {
      var additional := Weight(lines, end);
      assert TotalWeight(lines, start, end + 1) == bytes + additional;
      if !(end > start && bytes + additional > max) && bytes + additional < max {
        GrowFits(lines, start, end + 1, bytes + additional, max);
      }
    }
  }

  ghost predicate AreGroups(groups: seq<Group>, lines: seq<Bytes>, start: nat, max: nat) {
    && (groups == [] <==> start == |lines|)
    && (groups != [] ==> groups[0].0 == start && groups[|groups| - 1].1 == |lines|)
    && (forall k | 0 <= k < |groups| :: start <= groups[k].0 < groups[k].1 <= |lines|)
    && (forall k | 0 <= k < |groups| - 1 :: groups[k].1 == groups[k + 1].0)
    && (forall k | 0 <= k < |groups| :: groups[k].1 > groups[k].0 + 1 ==>
          TotalWeight(lines, groups[k].0, groups[k].1) <= max)
  }

  lemma {:induction false} GroupsTile(lines: seq<Bytes>, start: nat, max: nat)
    requires start <= |lines|
    ensures AreGroups(Groups(lines, start, max), lines, start, max)
    decreases |lines| - start
  {
    if start < |lines| {
      var end := Grow(lines, start, start, 0, max);
      GrowFits(lines, start, start, 0, max);
      GroupsTile(lines, end, max);
      ConsGroup(Groups(lines, end, max), lines, start, end, max);
    }
  }

  lemma ConsGroup(rest: seq<Group>, lines: seq<Bytes>, start: nat, end: nat, max: nat)
    requires start < end <= |lines| && AreGroups(rest, lines, end, max)
    requires end > start + 1 ==> TotalWeight(lines, start, end) <= max
    ensures AreGroups([(start, end)] + rest, lines, start, max)
  {
    hide TotalWeight;
    var groups := [(start, end)] + rest;
    forall k | 0 <= k < |groups| - 1 ensures groups[k].1 == groups[k + 1].0 {
      if k > 0 {
        assert groups[k] == rest[k - 1] && groups[k + 1] == rest[k];
      }
    }
    assert rest != [] ==> groups[|groups| - 1] == rest[|rest| - 1];
  }

  lemma GroupsTail(groups: seq<Group>, lines: seq<Bytes>, start: nat, max: nat)
    requires AreGroups(groups, lines, start, max) && groups != []
    ensures AreGroups(groups[1..], lines, groups[0].1, max)
  {
    hide TotalWeight;
    var rest := groups[1..];
    assert rest != [] ==> rest[0] == groups[1] && rest[|rest| - 1] == groups[|groups| - 1];
    forall k | 0 <= k < |rest| ensures groups[0].1 <= rest[k].0 {
      OrderedGroups(groups, lines, start, max, 0, k + 1);
    }
  }

  lemma {:induction false} OrderedGroups(groups: seq<Group>, lines: seq<Bytes>, start: nat, max: nat, j: nat, k: nat)
    requires AreGroups(groups, lines, start, max) && j < k < |groups|
    ensures groups[j].1 <= groups[k].0
    decreases k - j
  {
    if j + 1 < k {
      OrderedGroups(groups, lines, start, max, j, k - 1);
    }
  }

  // ---------- what a group becomes ----------

  lemma {:induction false} JoinEmpty(lines: seq<Bytes>)
    ensures Join(lines) == [] <==> lines == [] || lines == [[]]
  {
  }

  lemma {:induction false} JoinWeight(lines: seq<Bytes>, a: nat, b: nat)
    requires a < b <= |lines|
    ensures |Join(lines[a..b])| <= TotalWeight(lines, a, b)
    ensures b == |lines| ==> |Join(lines[a..b])| == TotalWeight(lines, a, b)
    ensures b < |lines| ==> |Join(lines[a..b])| + 1 == TotalWeight(lines, a, b)
    decreases b - a
  {
    var s := lines[a..b];
    TotalFront(lines, a, b);
    assert s[0] == lines[a];
    if b - a > 1 {
      assert s[1..] == lines[a + 1..b];
      JoinWeight(lines, a + 1, b);
    }
  }

  lemma {:induction false} TotalFront(lines: seq<Bytes>, a: nat, b: nat)
    requires a < b <= |lines|
    ensures TotalWeight(lines, a, b) == Weight(lines, a) + TotalWeight(lines, a + 1, b)
    decreases b - a
  {
    if b - a > 1 {
      TotalFront(lines, a, b - 1);
    }
  }

  lemma {:induction false} DecimalLength(m: nat, n: nat)
    requires m <= n
    ensures |Decimal(m)| <= |Decimal(n)|
    decreases n
  {
    if n >= 10 {
      if m >= 10 {
        DecimalLength(m / 10, n / 10);
      }
    }
  }

  /** What the repository hands to the chunker: a valid source id, and line numbers that are 32-bit. */
  predicate IsSource(source: Candidate) {
    ValidId(source.id) && |AllLines(source.content)| <= U32_MAX
  }

  /** The handle of a group's chunk is not too long for a source id. */
  predicate HandleFits(source: Candidate, group: Group) {
    |source.id + SpanSuffix(SpanOf(group))| <= MAX_ID
  }

  lemma SuffixIsValid(id: string, span: Span)
    requires ValidId(id)
    ensures ValidId(id + SpanSuffix(span)) <==> |id + SpanSuffix(span)| <= MAX_ID
  {
    var a, b := Decimal(span.startLine), Decimal(span.endLine);
    assert forall c | c in a || c in b :: IsDigit(c);
    assert forall c | c in OPEN || c in MIDDLE :: 32 <= c as int < 127;
  }

  /** The content of a group of lines. */
  function GroupContent(source: Candidate, group: Group): Bytes
    requires group.0 <= group.1 <= |AllLines(source.content)|
  {
    Join(AllLines(source.content)[group.0..group.1])
  }

  predicate IsBlankLine(source: Candidate, group: Group)
    requires group.0 < group.1 <= |AllLines(source.content)|
  {
    group.1 == group.0 + 1 && AllLines(source.content)[group.0] == []
  }

  predicate IsChunkOf(chunk: Candidate, source: Candidate, group: Group)
    requires group.0 <= group.1 <= |AllLines(source.content)|
  {
    chunk == Candidate(source.id + SpanSuffix(SpanOf(group)), Some(SpanOf(group)), GroupContent(source, group))
  }

  /** A group is dropped exactly when it is one blank line or its handle is too long; otherwise it becomes a
      chunk with its text. */
  lemma GroupBecomesChunk(source: Candidate, group: Group)
    requires IsSource(source) && group.0 < group.1 <= |AllLines(source.content)|
    ensures var chunk := SymbolCandidate(source, SpanOf(group));
      && (chunk.None? <==> IsBlankLine(source, group) || !HandleFits(source, group))
      && (chunk.Some? ==> IsChunkOf(chunk.value, source, group))
  {
    var lines := AllLines(source.content);
    SuffixIsValid(source.id, SpanOf(group));
    hide AllLines, SpanSuffix, ValidId;
    assert SkipTake(lines, group.0, group.1 - group.0) == lines[group.0..group.1];
    JoinEmpty(lines[group.0..group.1]);
    assert lines[group.0..group.1] == [[]] <==> group.1 == group.0 + 1 && lines[group.0] == [];
  }

  lemma {:induction false} KeptMembers(source: Candidate, groups: seq<Group>)
    ensures forall c :: c in Kept(source, groups) <==>
      exists g :: g in groups && SymbolCandidate(source, SpanOf(g)) == Some(c)
  {
    hide SymbolCandidate;
    if groups != [] {
      KeptMembers(source, groups[1..]);
      assert groups == [groups[0]] + groups[1..];
    }
  }

  /** Chunk spans increase and do not overlap. */
  predicate Increasing(chunks: seq<Candidate>) {
    && (forall c | c in chunks :: c.span.Some?)
    && (forall j, k | 0 <= j < k < |chunks| :: chunks[j].span.value.endLine < chunks[k].span.value.startLine)
  }

  lemma {:induction false} KeptIncreasing(source: Candidate, groups: seq<Group>, start: nat, max: nat)
    requires IsSource(source) && AreGroups(groups, AllLines(source.content), start, max)
    ensures Increasing(Kept(source, groups))
    ensures forall c | c in Kept(source, groups) :: c.span.value.startLine > start
    decreases |groups|
  {
    if groups != [] {
      GroupsTail(groups, AllLines(source.content), start, max);
      hide AllLines, SpanSuffix, ValidId, AreGroups, SymbolCandidate, GroupContent, HandleFits;
      KeptIncreasing(source, groups[1..], groups[0].1, max);
      FirstGroup(groups, AllLines(source.content), start, max);
      GroupBecomesChunk(source, groups[0]);
      FirstChunk(SymbolCandidate(source, SpanOf(groups[0])), Kept(source, groups[1..]), groups[0]);
    }
  }

  lemma FirstGroup(groups: seq<Group>, lines: seq<Bytes>, start: nat, max: nat)
    requires AreGroups(groups, lines, start, max) && groups != []
    ensures groups[0].0 == start < groups[0].1 <= |lines|
  {
  }

  lemma FirstChunk(first: Option<Candidate>, rest: seq<Candidate>, group: Group)
    requires group.0 < group.1 <= U32_MAX
    requires first.Some? ==> first.value.span == Some(SpanOf(group))
    requires Increasing(rest) && forall c | c in rest :: c.span.value.startLine > group.1
    ensures var all := if first.Some? then [first.value] + rest else rest;
      Increasing(all) && forall c | c in all :: c.span.value.startLine > group.0
  {
  }

  // ---------- the promises ----------

  /** The groups of a source, and what becomes of them. */
  function GroupsOf(source: Candidate, max: nat): seq<Group> {
    Groups(AllLines(source.content), 0, max)
  }

  function ChunksOf(source: Candidate, max: nat): seq<Candidate> {
    Kept(source, GroupsOf(source, max))
  }

  /** The source was too large and was cut into at least one chunk. */
  predicate IsCut(source: Candidate, max: nat) {
    |source.content| > max && ChunksOf(source, max) != []
  }

  lemma GroupsOfTile(source: Candidate, max: nat)
    ensures AreGroups(GroupsOf(source, max), AllLines(source.content), 0, max)
    ensures forall g | g in GroupsOf(source, max) :: g.0 < g.1 <= |AllLines(source.content)|
  {
    GroupsTile(AllLines(source.content), 0, max);
  }

  lemma ChunkedIsKept(source: Candidate, max: nat)
    ensures Chunked(source, max) == if IsCut(source, max) then ChunksOf(source, max) else [source]
  {
    hide AllLines, Kept, Groups;
  }

  /** Spans increase and are disjoint. */
  lemma ChunksIncrease(source: Candidate, max: nat)
    requires IsSource(source)
    ensures Increasing(ChunksOf(source, max))
  {
    GroupsOfTile(source, max);
    KeptIncreasing(source, GroupsOf(source, max), 0, max);
  }

  predicate InSpan(i: nat, chunk: Candidate) {
    chunk.span.Some? && chunk.span.value.startLine <= i + 1 <= chunk.span.value.endLine
  }

  /** The line lies in a chunk, and in no other. */
  predicate InOneChunk(i: nat, chunks: seq<Candidate>) {
    && (exists c | c in chunks :: InSpan(i, c))
    && (forall j, k | 0 <= j < k < |chunks| :: !(InSpan(i, chunks[j]) && InSpan(i, chunks[k])))
  }

  lemma InOnlyOne(i: nat, chunks: seq<Candidate>, chunk: Candidate)
    requires Increasing(chunks) && chunk in chunks && InSpan(i, chunk)
    ensures InOneChunk(i, chunks)
  {
  }

  /** Index of the group that a line belongs to. */
  function GroupIndex(groups: seq<Group>, i: nat): (k: nat)
    ensures k <= |groups|
  {
    if groups == [] || i < groups[0].1 then 0 else 1 + GroupIndex(groups[1..], i)
  }

  lemma {:induction false} GroupIndexHolds(groups: seq<Group>, lines: seq<Bytes>, start: nat, max: nat, i: nat)
    requires AreGroups(groups, lines, start, max) && start <= i < |lines|
    ensures var k := GroupIndex(groups, i); k < |groups| && groups[k].0 <= i < groups[k].1
    decreases |groups|
  {
    if i >= groups[0].1 {
      GroupsTail(groups, lines, start, max);
      GroupIndexHolds(groups[1..], lines, groups[0].1, max, i);
    }
  }

  /** The group that line i of a source is put into. */
  function GroupWith(source: Candidate, max: nat, i: nat): Group
    requires i < |AllLines(source.content)|
  {
    var groups := GroupsOf(source, max);
    GroupsOfTile(source, max);
    GroupIndexHolds(groups, AllLines(source.content), 0, max, i);
    groups[GroupIndex(groups, i)]
  }

  lemma GroupWithHolds(source: Candidate, max: nat, i: nat)
    requires i < |AllLines(source.content)|
    ensures var g := GroupWith(source, max, i);
      g in GroupsOf(source, max) && g.0 <= i < g.1 <= |AllLines(source.content)|
  {
    hide AllLines, Groups;
    GroupsOfTile(source, max);
    GroupIndexHolds(GroupsOf(source, max), AllLines(source.content), 0, max, i);
  }

  lemma {:induction false} OnlyGroup(groups: seq<Group>, lines: seq<Bytes>, max: nat, i: nat, g: Group, h: Group)
    requires AreGroups(groups, lines, 0, max) && g in groups && h in groups
    requires g.0 <= i < g.1 && h.0 <= i < h.1
    ensures g == h
  {
    var j :| 0 <= j < |groups| && groups[j] == g;
    var k :| 0 <= k < |groups| && groups[k] == h;
    if j < k {
      OrderedGroups(groups, lines, 0, max, j, k);
    } else if k < j {
      OrderedGroups(groups, lines, 0, max, k, j);
    }
  }

  lemma SpanIsExact(source: Candidate, g: Group)
    requires IsSource(source) && g.0 < g.1 <= |AllLines(source.content)|
    ensures SpanOf(g) == Span(g.0 + 1, g.1) && IsSpan(SpanOf(g))
  {
    hide AllLines, ValidId;
  }

  /** The group behind a chunk. */
  lemma GroupOfChunk(source: Candidate, max: nat, chunk: Candidate) returns (g: Group)
    requires IsSource(source) && chunk in ChunksOf(source, max)
    ensures g in GroupsOf(source, max) && g.0 < g.1 <= |AllLines(source.content)|
    ensures IsChunkOf(chunk, source, g) && HandleFits(source, g) && !IsBlankLine(source, g)
    ensures SymbolCandidate(source, SpanOf(g)) == Some(chunk)
  {
    hide AllLines, SpanSuffix, ValidId, SymbolCandidate, Groups, Kept, AreGroups, HandleFits, IsChunkOf;
    KeptMembers(source, GroupsOf(source, max));
    g :| g in GroupsOf(source, max) && SymbolCandidate(source, SpanOf(g)) == Some(chunk);
    GroupsOfTile(source, max);
    GroupBecomesChunk(source, g);
  }

  /** A source is cut exactly when it is too large and some group, other than one blank line, has a handle
      that fits. Otherwise it is returned whole, however large it is. */
  lemma CutExactly(source: Candidate, max: nat)
    requires IsSource(source)
    ensures IsCut(source, max) <==>
      && |source.content| > max
      && exists g | g in GroupsOf(source, max) :: g.0 < g.1 <= |AllLines(source.content)| && !IsBlankLine(source, g) && HandleFits(source, g)
  {
    hide AllLines, SpanSuffix, ValidId, SymbolCandidate, Groups, Kept, AreGroups, HandleFits, IsBlankLine, IsChunkOf;
    KeptMembers(source, GroupsOf(source, max));
    if ChunksOf(source, max) != [] {
      var g := GroupOfChunk(source, max, ChunksOf(source, max)[0]);
    }
    if g :| g in GroupsOf(source, max) && g.0 < g.1 <= |AllLines(source.content)| && !IsBlankLine(source, g) && HandleFits(source, g) {
      GroupBecomesChunk(source, g);
      assert SymbolCandidate(source, SpanOf(g)).value in ChunksOf(source, max);
    }
  }

  /** Some chunk has the line exactly when the handle of the line's group fits. */
  lemma LineIsKeptExactly(source: Candidate, max: nat, i: nat)
    requires IsSource(source) && i < |AllLines(source.content)| && AllLines(source.content)[i] != []
    ensures (exists c | c in ChunksOf(source, max) :: InSpan(i, c)) <==> HandleFits(source, GroupWith(source, max, i))
  {
    hide AllLines, SpanSuffix, ValidId, SymbolCandidate, Groups, GroupsOf, Kept, ChunksOf, AreGroups, HandleFits, GroupWith;
    var g := GroupWith(source, max, i);
    GroupWithHolds(source, max, i);
    GroupBecomesChunk(source, g);
    SpanIsExact(source, g);
    if HandleFits(source, g) {
      ChunkOfGroup(source, max, g);
      assert InSpan(i, SymbolCandidate(source, SpanOf(g)).value);
    }
    if c :| c in ChunksOf(source, max) && InSpan(i, c) {
      var h := GroupOfChunk(source, max, c);
      SpanIsExact(source, h);
      GroupsOfTile(source, max);
      OnlyGroup(GroupsOf(source, max), AllLines(source.content), max, i, g, h);
    }
  }

  lemma ChunkOfGroup(source: Candidate, max: nat, g: Group)
    requires g in GroupsOf(source, max) && SymbolCandidate(source, SpanOf(g)).Some?
    ensures SymbolCandidate(source, SpanOf(g)).value in ChunksOf(source, max)
  {
    hide AllLines, SymbolCandidate, Groups, Kept, GroupsOf;
    KeptMembers(source, GroupsOf(source, max));
  }

  /** Of a source that is too large, a non-empty line lies in exactly one of the chunks returned if and only if
      the handle of its group fits; otherwise no chunk has it. */
  lemma EveryLineIsChunked(source: Candidate, max: nat, i: nat)
    requires IsSource(source) && |source.content| > max
    requires i < |AllLines(source.content)| && AllLines(source.content)[i] != []
    ensures HandleFits(source, GroupWith(source, max, i)) <==> IsCut(source, max) && InOneChunk(i, Chunked(source, max))
    ensures !HandleFits(source, GroupWith(source, max, i)) ==> forall c | c in ChunksOf(source, max) :: !InSpan(i, c)
  {
    hide AllLines, Groups, GroupsOf, Kept, ChunksOf, Chunked, IsSource, HandleFits, GroupWith, Increasing, InSpan;
    LineIsKeptExactly(source, max, i);
    ChunkedIsKept(source, max);
    ChunksIncrease(source, max);
    if c :| c in ChunksOf(source, max) && InSpan(i, c) {
      InOnlyOne(i, ChunksOf(source, max), c);
    }
  }

  // ---------- which lines are lost ----------

  lemma SuffixGrows(a: Span, b: Span)
    requires a.startLine <= b.startLine && a.endLine <= b.endLine
    ensures |SpanSuffix(a)| <= |SpanSuffix(b)|
  {
    DecimalLength(a.startLine, b.startLine);
    DecimalLength(a.endLine, b.endLine);
  }

  /** Handles grow with the line numbers: when the handle of a group fits, so do those of all earlier groups. */
  lemma EarlierHandlesFit(source: Candidate, max: nat, i: nat, j: nat)
    requires i <= j < |AllLines(source.content)| && HandleFits(source, GroupWith(source, max, j))
    ensures HandleFits(source, GroupWith(source, max, i))
  {
    hide AllLines, SpanSuffix, Groups, GroupsOf, AreGroups, GroupWith;
    var g, h := GroupWith(source, max, i), GroupWith(source, max, j);
    GroupWithHolds(source, max, i);
    GroupWithHolds(source, max, j);
    GroupsOfTile(source, max);
    InOrder(GroupsOf(source, max), AllLines(source.content), max, g, h, i, j);
    SuffixGrows(SpanOf(g), SpanOf(h));
  }

  lemma InOrder(groups: seq<Group>, lines: seq<Bytes>, max: nat, g: Group, h: Group, i: nat, j: nat)
    requires AreGroups(groups, lines, 0, max) && g in groups && h in groups && i <= j
    requires g.0 <= i < g.1 && h.0 <= j < h.1
    ensures g.0 <= h.0 && g.1 <= h.1
  {
    var m :| 0 <= m < |groups| && groups[m] == g;
    var n :| 0 <= n < |groups| && groups[n] == h;
    if m < n {
      OrderedGroups(groups, lines, 0, max, m, n);
    } else if n < m {
      OrderedGroups(groups, lines, 0, max, n, m);
    }
  }

  /** The non-empty lines that no chunk has, of a source that is not returned whole. */
  predicate IsLost(source: Candidate, max: nat, i: nat) {
    && IsCut(source, max)
    && i < |AllLines(source.content)| && AllLines(source.content)[i] != []
    && forall c | c in ChunksOf(source, max) :: !InSpan(i, c)
  }

  lemma LostExactly(source: Candidate, max: nat, i: nat)
    requires IsSource(source) && i < |AllLines(source.content)| && AllLines(source.content)[i] != []
    ensures IsLost(source, max, i) <==> IsCut(source, max) && !HandleFits(source, GroupWith(source, max, i))
  {
    hide AllLines, ChunksOf, IsCut, HandleFits, GroupWith, InSpan, IsSource;
    LineIsKeptExactly(source, max, i);
  }

  /** The lost lines are a tail of the source: after a lost line every non-empty line is lost. */
  lemma LossesAreATail(source: Candidate, max: nat, i: nat, j: nat)
    requires IsSource(source) && IsLost(source, max, i)
    requires i <= j < |AllLines(source.content)| && AllLines(source.content)[j] != []
    ensures IsLost(source, max, j)
  {
    hide AllLines, ChunksOf, IsCut, HandleFits, GroupWith, InSpan, IsSource;
    LostExactly(source, max, i);
    LostExactly(source, max, j);
    if HandleFits(source, GroupWith(source, max, j)) {
      EarlierHandlesFit(source, max, i, j);
    }
  }

  /** So nothing is lost exactly when the source is returned whole or the handle of its last non-empty line's
      group fits. */
  lemma NothingIsLostExactly(source: Candidate, max: nat, last: nat)
    requires IsSource(source) && last < |AllLines(source.content)| && AllLines(source.content)[last] != []
    requires forall j | last < j < |AllLines(source.content)| :: AllLines(source.content)[j] == []
    ensures (forall i: nat :: !IsLost(source, max, i)) <==> !IsCut(source, max) || HandleFits(source, GroupWith(source, max, last))
  {
    hide AllLines, ChunksOf, IsCut, HandleFits, GroupWith, InSpan, IsSource;
    LostExactly(source, max, last);
    forall i: nat ensures IsLost(source, max, i) ==> IsLost(source, max, last) {
      if IsLost(source, max, i) {
        LossesAreATail(source, max, i, last);
      }
    }
  }

  /** Nothing is lost when the longest handle that the source can have fits. */
  lemma ShortIdLosesNothing(source: Candidate, max: nat, i: nat)
    requires IsSource(source) && |source.id + SpanSuffix(Span(|AllLines(source.content)|, |AllLines(source.content)|))| <= MAX_ID
    ensures !IsLost(source, max, i)
  {
    hide AllLines, SpanSuffix, GroupWith, InSpan, ChunksOf;
    if i < |AllLines(source.content)| && AllLines(source.content)[i] != [] {
      var g := GroupWith(source, max, i);
      GroupWithHolds(source, max, i);
      SpanIsExact(source, g);
      SuffixGrows(SpanOf(g), Span(|AllLines(source.content)|, |AllLines(source.content)|));
      LineIsKeptExactly(source, max, i);
    }
  }

  /** A source id of 1,019 bytes or more is never cut: the shortest suffix has six. */
  lemma LongIdIsNeverCut(source: Candidate, max: nat)
    requires IsSource(source) && |source.id| > MAX_ID - 6
    ensures !IsCut(source, max) && Chunked(source, max) == [source]
  {
    hide AllLines, IsBlankLine, Decimal, Groups, Kept;
    CutExactly(source, max);
    ChunkedIsKept(source, max);
  }

  /** n lines of one letter. */
  function Letters(n: nat): Bytes {
    if n == 0 then [] else [97, NEWLINE] + Letters(n - 1)
  }

  lemma {:induction false} LinesOfLetters(n: nat)
    ensures |Letters(n)| == 2 * n
    ensures |AllLines(Letters(n))| == n && forall line | line in AllLines(Letters(n)) :: line == [97]
    decreases n
  {
    hide AllLines, Chop;
    if n > 0 {
      LinesOfLetters(n - 1);
      var text := Letters(n);
      assert text[1] == NEWLINE && text[..1] == [97] && text[2..] == Letters(n - 1);
      assert text[1..][0] == NEWLINE;
      assert LineEnd(text) == 1 + LineEnd(text[1..]) == 1;
      AllLinesFirst(text);
      ChopKeeps([97]);
    } else {
      AllLinesLast([]);
    }
  }

  lemma ChopKeeps(line: Bytes)
    requires RETURN !in line
    ensures Chop(line) == line
  {
  }

  lemma {:induction false} LinesAlone(lines: seq<Bytes>, start: nat, i: nat)
    requires start <= i < |lines| && forall line | line in lines :: line != []
    ensures (i, i + 1) in Groups(lines, start, 1)
    decreases i - start
  {
    assert lines[start] in lines;
    GroupsStep(lines, start, 1);
    if start < i {
      LinesAlone(lines, start + 1, i);
    }
  }

  lemma AloneIsGroup(source: Candidate, i: nat)
    requires i < |AllLines(source.content)| && forall line | line in AllLines(source.content) :: line != []
    ensures GroupWith(source, 1, i) == (i, i + 1)
  {
    hide AllLines, Groups, GroupWith, AreGroups;
    LinesAlone(AllLines(source.content), 0, i);
    GroupWithHolds(source, 1, i);
    GroupsOfTile(source, 1);
    OnlyGroup(GroupsOf(source, 1), AllLines(source.content), 1, i, GroupWith(source, 1, i), (i, i + 1));
  }

  /** It happens: under any source id of 1,018 bytes, ten one-letter lines are cut into nine chunks, and the
      tenth line is in none of them. */
  lemma TenthLineIsLost(id: string)
    requires ValidId(id) && |id| == MAX_ID - 6
    ensures var source := Candidate(id, None, Letters(10));
      IsCut(source, 1) && IsLost(source, 1, 9) && forall i: nat | i < 9 :: InOneChunk(i, Chunked(source, 1))
  {
    hide AllLines, Letters, Chunked, GroupWith, InSpan, InOneChunk, ChunksOf, ValidId;
    var source := Candidate(id, None, Letters(10));
    LinesOfLetters(10);
    forall i | 0 <= i < 10
      ensures HandleFits(source, GroupWith(source, 1, i)) <==> i < 9
      ensures AllLines(source.content)[i] != []
      ensures i < 9 ==> IsCut(source, 1) && InOneChunk(i, Chunked(source, 1))
    {
      assert AllLines(source.content)[i] in AllLines(source.content);
      AloneIsGroup(source, i);
      assert SpanOf((i, i + 1)) == Span(i + 1, i + 1);
      assert |Decimal(i + 1)| == if i < 9 then 1 else 2;
      EveryLineIsChunked(source, 1, i);
    }
    assert !HandleFits(source, GroupWith(source, 1, 9));
    LostExactly(source, 1, 9);
    assert HandleFits(source, GroupWith(source, 1, 0));
  }

  // ---------- what a chunk holds ----------

  /** Each chunk's content is within the bound unless it is a single line. */
  lemma ChunksFit(source: Candidate, max: nat, chunk: Candidate)
    requires IsSource(source) && chunk in ChunksOf(source, max)
    ensures chunk.span.Some?
    ensures |chunk.content| <= max || chunk.span.value.startLine == chunk.span.value.endLine
  {
    hide AllLines, SpanSuffix, ValidId, SymbolCandidate, HandleFits, Kept, Groups;
    var g := GroupOfChunk(source, max, chunk);
    GroupsOfTile(source, max);
    var groups := GroupsOf(source, max);
    var k :| 0 <= k < |groups| && groups[k] == g;
    JoinWeight(AllLines(source.content), g.0, g.1);
  }

  /** Fetching a chunk: its handle resolves to the path of the source and the chunk's span, and that span of
      the unchanged source is the chunk. */
  lemma ChunkCanBeFetched(source: Candidate, max: nat, chunk: Candidate, parts: seq<Bytes>, utf8: Bytes -> bool)
    requires IsRelative(parts) && utf8(Joined(parts)) && source.id == Handle(parts, None)
    requires IsSource(source) && chunk in ChunksOf(source, max)
    ensures chunk.span.Some?
    ensures Target(chunk.id, utf8) == Ok((parts, chunk.span))
    ensures SymbolCandidate(source, chunk.span.value) == Some(chunk)
  {
    hide AllLines, ChunksOf, SymbolCandidate, Target, Encoded, SpanSuffix, Joined, HandleFits, GroupContent;
    var g := GroupOfChunk(source, max, chunk);
    SpanIsExact(source, g);
    HandleRoundTrip(parts, Some(SpanOf(g)), utf8);
    ConcatAssoc(PREFIX, Encoded(Joined(parts)), SpanSuffix(SpanOf(g)));
    assert Encoded(Joined(parts)) + "" == Encoded(Joined(parts));
  }

  /** A group ends only at the end of the source, when it has reached the bound, or when the next line would take it
      over the bound. */
  predicate IsFull(lines: seq<Bytes>, g: Group, max: nat)
    requires g.0 <= g.1 <= |lines|
  {
    g.1 == |lines| || TotalWeight(lines, g.0, g.1) >= max || TotalWeight(lines, g.0, g.1 + 1) > max
  }

  lemma {:induction false} GrowFills(lines: seq<Bytes>, start: nat, end: nat, bytes: nat, max: nat)
    requires start <= end <= |lines| && bytes == TotalWeight(lines, start, end)
    ensures IsFull(lines, (start, Grow(lines, start, end, bytes, max)), max)
    decreases |lines| - end
  {
    if end < |lines| {
      var additional := Weight(lines, end);
      assert TotalWeight(lines, start, end + 1) == bytes + additional;
      if !(end > start && bytes + additional > max) && bytes + additional < max {
        GrowFills(lines, start, end + 1, bytes + additional, max);
      }
    }
  }

  lemma {:induction false} GroupsAreFull(lines: seq<Bytes>, start: nat, max: nat)
    requires start <= |lines|
    ensures forall g | g in Groups(lines, start, max) :: g.0 <= g.1 <= |lines| && IsFull(lines, g, max)
    decreases |lines| - start
  {
    hide Grow, IsFull;
    if start < |lines| {
      var end := Grow(lines, start, start, 0, max);
      assert TotalWeight(lines, start, start) == 0;
      GrowFills(lines, start, start, 0, max);
      GroupsStep(lines, start, max);
      GroupsAreFull(lines, end, max);
    }
  }

  /** Chunks are as large as they can be: the bytes of a group and of the line after it do not fit together, unless
      the group had reached the bound by itself. */
  lemma GroupsAreMaximal(source: Candidate, max: nat, g: Group)
    requires g in GroupsOf(source, max)
    ensures g.0 < g.1 <= |AllLines(source.content)| && IsFull(AllLines(source.content), g, max)
  {
    hide AllLines, Groups, IsFull;
    GroupsOfTile(source, max);
    GroupsAreFull(AllLines(source.content), 0, max);
  }

  // ---------- spans that reach beyond the source ----------

  /** A span that begins beyond the last line yields nothing; one that ends beyond it yields the lines up to the last,
      under a handle that still names the span asked for. */
  lemma SpanIsClipped(source: Candidate, span: Span)
    requires ValidId(source.id) && IsSpan(span)
    ensures var lines := AllLines(source.content); var r := SymbolCandidate(source, span);
      if span.startLine > |lines| then r == None
      else
        var text := Join(lines[span.startLine - 1..if span.endLine <= |lines| then span.endLine else |lines|]);
        var id := source.id + SpanSuffix(span);
        r == if text == [] || |id| > MAX_ID then None else Some(Candidate(id, Some(span), text))
  {
    hide AllLines, SpanSuffix, ValidId;
    NothingJoined();
    SuffixIsValid(source.id, span);
    var lines := AllLines(source.content);
    if span.startLine <= |lines| <= span.endLine {
      assert lines[span.startLine - 1..|lines|] == lines[span.startLine - 1..];
    }
  }

  lemma NothingJoined()
    ensures Join([]) == []
  {
  }
}
