// Bounded capture of a stream of unknown length, and what it leaves of the evidence when the
// captured bytes are fed to the terminal compressor.

module Capture {
  import opened Options
  import opened Texts
  import opened LineSplitting
  import opened Terminal

  /** One call of `read`: some bytes (none means end of file) or an I/O error. */
  datatype Read = Data(bytes: Bytes) | Failed

  /** Everything the reader delivers before end of file; None when an error comes first. */
  function Input(source: seq<Read>): Option<Bytes> {
    if source == [] || source[0] == Data([]) then Some([])
    else if source[0].Failed? then None
    else match Input(source[1..])
      case None => None
      case Some(rest) => Some(source[0].bytes + rest)
  }

  datatype CapturedStream = CapturedStream(head: Bytes, tail: Bytes, totalBytes: nat, truncated: bool)

  function HeadCap(cap: nat): nat {
    (cap + 1) / 2
  }

  function TailCap(cap: nat): nat {
    cap / 2
  }

  function LastBytes(bytes: Bytes, limit: nat): Bytes {
    if |bytes| <= limit then bytes else bytes[|bytes| - limit..]
  }

  function FirstBytes(bytes: Bytes, limit: nat): (r: Bytes)
    ensures |r| == if |bytes| <= limit then |bytes| else limit
  {
    if |bytes| <= limit then bytes else bytes[..limit]
  }

  /** The whole input when it fits, else exactly its first ceil(cap/2) and last floor(cap/2) bytes. */
  predicate IsCapture(c: CapturedStream, input: Bytes, cap: nat) {
    && c.totalBytes == (if |input| > U64_MAX then U64_MAX else |input|)
    && c.truncated == (|input| > cap)
    && (|input| <= cap ==> c.head == input && c.tail == [])
    && (|input| > cap ==> c.head == input[..HeadCap(cap)] && c.tail == input[|input| - TailCap(cap)..])
  }

  /** The two parts share the cap, and the head has the odd byte. */
  lemma HalvesShareCap(cap: nat)
    ensures HeadCap(cap) + TailCap(cap) == cap && TailCap(cap) <= HeadCap(cap) <= TailCap(cap) + 1
  {
  }

  lemma HeadStep(seen: Bytes, byte: Byte, headCap: nat, tailCap: nat)
    ensures |seen| < headCap ==>
      FirstBytes(seen + [byte], headCap) == FirstBytes(seen, headCap) + [byte] &&
      Later(seen + [byte], headCap) == [] == Later(seen, headCap)
    ensures |seen| >= headCap ==>
      FirstBytes(seen + [byte], headCap) == FirstBytes(seen, headCap) &&
      Later(seen + [byte], headCap) == Later(seen, headCap) + [byte]
  {
    assert |seen| == headCap ==> seen[..headCap] == seen && (seen + [byte])[..headCap] == seen;
  }

  /** What comes after the head. */
  function Later(bytes: Bytes, headCap: nat): Bytes {
    if |bytes| <= headCap then [] else bytes[headCap..]
  }

  lemma TailStep(later: Bytes, byte: Byte, tailCap: nat)
    ensures |LastBytes(later, tailCap)| <= tailCap
    ensures var tail := LastBytes(later, tailCap);
      LastBytes(later + [byte], tailCap) ==
        if tailCap == 0 then [] else (if |tail| == tailCap then tail[1..] else tail) + [byte]
  {
  }

  /** A cap of 2^64 - 1 bytes is excluded: reserving half of it already aborts the program. */
  method ReadBounded(source: seq<Read>, cap: nat) returns (captured: Option<CapturedStream>)
    requires cap < U64_MAX
    ensures captured.None? <==> Input(source).None?
    ensures captured.Some? ==> IsCapture(captured.value, Input(source).value, cap)
  {
    hide Input, FirstBytes, LastBytes, Later, HeadCap, TailCap;
    var headCap, tailCap := HeadCap(cap), TailCap(cap);
    EmptyCapture(source, headCap, tailCap);
    var head: Bytes, tail: Bytes := [], [];
    var totalBytes := 0;
    var next := 0;
    ghost var seen: Bytes := [];
    while next < |source| && source[next] != Data([])
      invariant next <= |source|
      invariant Input(source) == Prepend(seen, Input(source[next..]))
      invariant head == FirstBytes(seen, headCap) && tail == LastBytes(Later(seen, headCap), tailCap)
      invariant totalBytes == if |seen| > U64_MAX then U64_MAX else |seen|
    {
      ReadStep(source, next);
      if source[next].Failed? {
        return None;
      }
      var buffer := source[next].bytes;
      totalBytes := SaturatingAdd(totalBytes, |buffer|);
      ghost var before := seen;
      for i := 0 to |buffer|
        invariant seen == before + buffer[..i]
        invariant head == FirstBytes(seen, headCap) && tail == LastBytes(Later(seen, headCap), tailCap)
      {
        var byte := buffer[i];
        HeadStep(seen, byte, headCap, tailCap);
        TailStep(Later(seen, headCap), byte, tailCap);
        if |head| < headCap {
          head := head + [byte];
        } else if tailCap > 0 {
          if |tail| == tailCap {
            tail := tail[1..];
          }
          tail := tail + [byte];
        }
        assert buffer[..i + 1] == buffer[..i] + [byte];
        seen := seen + [byte];
      }
      assert buffer[..|buffer|] == buffer;
      PrependMore(before, buffer, Input(source[next + 1..]));
      next := next + 1;
    }
    ReadEnd(source, next);
    assert seen + [] == seen;
    var truncated := totalBytes > cap;
    CaptureIsExact(seen, cap);
    if !truncated {
      head := head + tail;
      tail := [];
    }
    captured := Some(CapturedStream(head, tail, totalBytes, truncated));
  }

  lemma EmptyCapture(source: seq<Read>, headCap: nat, tailCap: nat)
    ensures Input(source) == Prepend([], Input(source[0..]))
    ensures FirstBytes([], headCap) == [] == LastBytes(Later([], headCap), tailCap)
  {
    assert source[0..] == source;
    match Input(source)
    case None =>
    case Some(rest) => assert [] + rest == rest;
  }

  lemma ReadStep(source: seq<Read>, next: nat)
    requires next < |source| && source[next] != Data([])
    ensures source[next].Failed? ==> Input(source[next..]).None?
    ensures source[next].Data? ==> Input(source[next..]) == Prepend(source[next].bytes, Input(source[next + 1..]))
  {
    assert source[next..][1..] == source[next + 1..];
  }

  lemma ReadEnd(source: seq<Read>, next: nat)
    requires next <= |source| && (next == |source| || source[next] == Data([]))
    ensures Input(source[next..]) == Some([])
  {
  }

  function Prepend(seen: Bytes, rest: Option<Bytes>): Option<Bytes> {
    if rest.None? then None else Some(seen + rest.value)
  }

  lemma PrependMore(seen: Bytes, buffer: Bytes, rest: Option<Bytes>)
    ensures Prepend(seen, Prepend(buffer, rest)) == Prepend(seen + buffer, rest)
  {
    if rest.Some? {
      ConcatAssoc(seen, buffer, rest.value);
    }
  }

  lemma CaptureIsExact(seen: Bytes, cap: nat)
    ensures var head, tail := FirstBytes(seen, HeadCap(cap)), LastBytes(Later(seen, HeadCap(cap)), TailCap(cap));
      && (|seen| <= cap ==> head + tail == seen)
      && (|seen| > cap ==> head == seen[..HeadCap(cap)] && tail == seen[|seen| - TailCap(cap)..])
  {
    assert HeadCap(cap) + TailCap(cap) == cap;
    var h := HeadCap(cap);
    if h < |seen| {
      assert seen == seen[..h] + seen[h..];
      if |seen| > cap {
        assert seen[h..][|seen| - h - TailCap(cap)..] == seen[|seen| - TailCap(cap)..];
      }
    }
  }

  // ---------- what the compressor is given ----------

  // In two pieces, because the verifier looks into short literals much faster.
  const MARKER_TEXT := "...[output " + "truncated]..."

  function Ascii(s: string): Bytes {
    seq(|s|, i requires 0 <= i < |s| => ByteOf(s[i]))
  }

  function MarkerLine(): (m: Bytes)
    ensures NEWLINE !in m && m != [] && m[|m| - 1] != RETURN
    ensures AsciiText(m) == MARKER_TEXT
  {
    var m := Ascii(MARKER_TEXT);
    assert MARKER_TEXT[|MARKER_TEXT| - 1] == '.';
    assert AsciiText(m) == MARKER_TEXT;
    m
  }

  function RetainedBytes(c: CapturedStream): Bytes {
    if !c.truncated then c.head
    else c.head + ([NEWLINE] + MarkerLine() + [NEWLINE]) + c.tail
  }

  lemma LineThenRest(line: Bytes, rest: Bytes)
    requires NEWLINE !in line
    ensures Complete(line + [NEWLINE] + rest) == [Chop(line)] + Complete(rest)
    ensures Rest(line + [NEWLINE] + rest) == Rest(rest)
  {
    var s := line + [NEWLINE] + rest;
    assert s[..|line|] == line && s[|line| + 1..] == rest;
    LineEndIs(s, |line|);
    FirstLine(s);
  }

  lemma LineEndIs(s: Bytes, n: nat)
    requires n < |s| && s[n] == NEWLINE && NEWLINE !in s[..n]
    ensures LineEnd(s) == n && NEWLINE in s
  {
    var e := LineEnd(s);
    assert forall k | 0 <= k < n :: s[k] == s[..n][k];
    assert forall k | 0 <= k < e :: s[k] == s[..e][k];
  }

  /** The lines of a truncated capture: those of the head, the line the cut went through, the marker
      line, and those of the tail. */
  lemma TruncatedLines(c: CapturedStream)
    requires c.truncated
    ensures Complete(RetainedBytes(c)) ==
      Complete(c.head) + ([Chop(Rest(c.head))] + ([MarkerLine()] + Complete(c.tail)))
    ensures Rest(RetainedBytes(c)) == Rest(c.tail)
  {
    hide Complete, Rest, MarkerLine;
    var m, h := MarkerLine(), Rest(c.head);
    var suffix := m + [NEWLINE] + c.tail;
    assert RetainedBytes(c) == c.head + ([NEWLINE] + suffix);
    SplitConcat(c.head, [NEWLINE] + suffix);
    assert h + ([NEWLINE] + suffix) == h + [NEWLINE] + suffix;
    LineThenRest(h, suffix);
    LineThenRest(m, c.tail);
  }

  // ---------- evidence from capture to summary ----------

  /** How often a decoded line occurs in a list of raw lines. */
  function Occurrences(lines: seq<Bytes>, decode: Bytes -> string, line: string): nat {
    multiset(Decoded(lines, decode))[line]
  }

  lemma OccurrencesConcat(a: seq<Bytes>, b: seq<Bytes>, decode: Bytes -> string, line: string)
    ensures Occurrences(a + b, decode, line) == Occurrences(a, decode, line) + Occurrences(b, decode, line)
  {
    DecodedConcat(a, b, decode);
  }

  /** Capturing both streams and compressing them. */
  method CaptureAndCompress(stdoutReads: seq<Read>, stderrReads: seq<Read>, cap: nat, firstLimit: nat, tailLimit: nat,
                            decode: Bytes -> string, actionable: string -> bool)
    returns (r: Option<(CapturedStream, CapturedStream, Summary)>)
    requires cap < U64_MAX
    ensures r.None? <==> Input(stdoutReads).None? || Input(stderrReads).None?
    ensures r.Some? ==>
      && IsCapture(r.value.0, Input(stdoutReads).value, cap) && IsCapture(r.value.1, Input(stderrReads).value, cap)
      && IsSummary(r.value.2, Recorded(RetainedBytes(r.value.0), RetainedBytes(r.value.1), decode),
                   firstLimit, tailLimit, actionable)
  {
    var out := ReadBounded(stdoutReads, cap);
    var err := ReadBounded(stderrReads, cap);
    if out.None? || err.None? {
      return None;
    }
    var summary := CompressTerminal(RetainedBytes(out.value), RetainedBytes(err.value), firstLimit, tailLimit,
                                    decode, actionable);
    r := Some((out.value, err.value, summary));
  }

  lemma EvidenceOfRetained(out: Bytes, err: Bytes, decode: Bytes -> string, actionable: string -> bool,
                           evidence: map<string, nat>, line: string)
    requires IsTally(evidence, Recorded(out, err, decode), actionable)
    ensures var total := Occurrences(AllLines(out), decode, line) + Occurrences(AllLines(err), decode, line);
      && (line in evidence <==> actionable(line) && total > 0)
      && (line in evidence ==> evidence[line] == total)
  {
    var chunks: seq<Chunk> := [(Stdout, out), (Stderr, err)];
    TwoChunks(out, err, decode);
    EvidenceCountsBothStreams(chunks, decode, actionable, evidence, line);
  }

  lemma TwoChunks(out: Bytes, err: Bytes, decode: Bytes -> string)
    ensures var chunks: seq<Chunk> := [(Stdout, out), (Stderr, err)];
      && Sent(chunks, Stdout) == out && Sent(chunks, Stderr) == err
      && Flushed(PushAll(chunks, decode), decode) == Recorded(out, err, decode)
  {
    hide Push, Flushed, Sent;
    SentInTwo(out, err);
    var first: seq<Chunk> := [(Stdout, out)];
    var chunks: seq<Chunk> := [(Stdout, out), (Stderr, err)];
    assert chunks[..1] == first && first[..0] == [];
    assert PushAll(first, decode) == Push(START, Stdout, out, decode);
  }

  lemma SentInTwo(out: Bytes, err: Bytes)
    ensures var chunks: seq<Chunk> := [(Stdout, out), (Stderr, err)];
      Sent(chunks, Stdout) == out && Sent(chunks, Stderr) == err
  {
    var none: Bytes := [];
    var nothing: seq<Chunk> := [];
    SentSnoc(nothing, Stdout, out);
    assert nothing + [(Stdout, out)] == [(Stdout, out)];
    assert none + out == out && none + none == none;
    SentSnoc([(Stdout, out)], Stderr, err);
    assert [(Stdout, out)] + [(Stderr, err)] == [(Stdout, out), (Stderr, err)];
    assert out + none == out && none + err == err;
  }

  lemma SentSnoc(chunks: seq<Chunk>, stream: Stream, bytes: Bytes)
    ensures Sent([], Stdout) == Sent([], Stderr) == []
    ensures forall other :: Sent(chunks + [(stream, bytes)], other) == Sent(chunks, other) + (if other == stream then bytes else [])
  {
    assert (chunks + [(stream, bytes)])[..|chunks|] == chunks;
  }

  /** Untruncated output loses no actionable line: every count is the number of occurrences in what
      the process wrote on the two streams. */
  lemma UntruncatedEvidenceIsExact(out: Bytes, err: Bytes, cap: nat, co: CapturedStream, ce: CapturedStream,
                                   decode: Bytes -> string, actionable: string -> bool,
                                   evidence: map<string, nat>, line: string)
    requires IsCapture(co, out, cap) && IsCapture(ce, err, cap) && |out| <= cap && |err| <= cap
    requires IsTally(evidence, Recorded(RetainedBytes(co), RetainedBytes(ce), decode), actionable)
    ensures var total := Occurrences(AllLines(out), decode, line) + Occurrences(AllLines(err), decode, line);
      && (line in evidence <==> actionable(line) && total > 0)
      && (line in evidence ==> evidence[line] == total)
  {
    EvidenceOfRetained(out, err, decode, actionable, evidence, line);
  }

  /** What one captured stream contributes to the count of a line. */
  function Contribution(input: Bytes, cap: nat, decode: Bytes -> string, line: string): nat {
    if |input| <= cap then Occurrences(AllLines(input), decode, line)
    else
      var head, tail := input[..HeadCap(cap)], input[|input| - TailCap(cap)..];
      Occurrences(Complete(head), decode, line) + Occurrences([Chop(Rest(head))], decode, line)
        + Occurrences(AllLines(tail), decode, line)
  }

  lemma ContributionOfCapture(input: Bytes, cap: nat, c: CapturedStream, decode: Bytes -> string, line: string)
    requires IsCapture(c, input, cap) && decode(MarkerLine()) != line
    ensures Occurrences(AllLines(RetainedBytes(c)), decode, line) == Contribution(input, cap, decode, line)
  {
    if |input| > cap {
      hide Complete, Rest, MarkerLine, RetainedBytes, Occurrences, Chop, AllLines;
      TruncatedLines(c);
      OccurrencesOfOther(MarkerLine(), decode, line);
      AllLinesUnfold(RetainedBytes(c));
      AllLinesUnfold(c.tail);
      FiveParts(Complete(c.head), [Chop(Rest(c.head))], [MarkerLine()], Complete(c.tail), LastLine(c.tail), decode, line);
    }
  }

  lemma AllLinesUnfold(bytes: Bytes)
    ensures AllLines(bytes) == Complete(bytes) + LastLine(bytes)
  {
  }

  lemma FiveParts(a: seq<Bytes>, b: seq<Bytes>, c: seq<Bytes>, d: seq<Bytes>, e: seq<Bytes>,
                  decode: Bytes -> string, line: string)
    ensures Occurrences((a + (b + (c + d))) + e, decode, line) ==
      Occurrences(a, decode, line) + Occurrences(b, decode, line) + Occurrences(c, decode, line)
        + Occurrences(d + e, decode, line)
  {
    hide Occurrences;
    OccurrencesConcat(a + (b + (c + d)), e, decode, line);
    OccurrencesConcat(a, b + (c + d), decode, line);
    OccurrencesConcat(b, c + d, decode, line);
    OccurrencesConcat(c, d, decode, line);
    OccurrencesConcat(d, e, decode, line);
  }

  lemma OccurrencesOfOther(raw: Bytes, decode: Bytes -> string, line: string)
    requires decode(raw) != line
    ensures Occurrences([raw], decode, line) == 0
  {
    DecodedOne(raw, decode);
  }

  /** With or without truncation, the marker line adds no evidence and each count is exactly what the
      retained parts of the two streams contribute. */
  lemma EvidenceIsExact(out: Bytes, err: Bytes, cap: nat, co: CapturedStream, ce: CapturedStream,
                        decode: Bytes -> string, actionable: string -> bool,
                        evidence: map<string, nat>, line: string)
    requires IsCapture(co, out, cap) && IsCapture(ce, err, cap)
    requires IsTally(evidence, Recorded(RetainedBytes(co), RetainedBytes(ce), decode), actionable)
    requires !actionable(decode(MarkerLine()))
    ensures var total := Contribution(out, cap, decode, line) + Contribution(err, cap, decode, line);
      && (line in evidence <==> actionable(line) && total > 0)
      && (line in evidence ==> evidence[line] == total)
  {
    EvidenceOfRetained(RetainedBytes(co), RetainedBytes(ce), decode, actionable, evidence, line);
    if actionable(line) {
      ContributionOfCapture(out, cap, co, decode, line);
      ContributionOfCapture(err, cap, ce, decode, line);
    }
  }

  // ---------- the evidence test ----------

  /** Index of the last colon, or -1. */
  function LastColon(line: string): (i: int)
    ensures -1 <= i < |line|
    ensures i >= 0 ==> line[i] == ':'
  {
    if line == "" then -1
    else if line[|line| - 1] == ':' then |line| - 1
    else LastColon(line[..|line| - 1])
  }

  /** `path:line` references: the text after the last colon is a number and the text before it
      contains a path separator. */
  predicate HasFileLineReference(line: string) {
    var i := LastColon(line);
    i >= 0 && ParseU32(Trim(line[i + 1..])).Some? && ('/' in line[..i] || '\\' in line[..i])
  }

  predicate IsActionable(line: string) {
    var lower := Lower(line);
    Contains(lower, "error") || Contains(lower, "warning") || Contains(lower, "failed") ||
    Contains(lower, "failure") || Contains(lower, "panicked") || Contains(lower, "assert") ||
    HasFileLineReference(line)
  }

  lemma OccurrenceChars(s: string, p: string, i: nat)
    ensures OccursAt(s, p, i) ==> forall k | 0 <= k < |p| :: s[i + k] == p[k]
  {
    if OccursAt(s, p, i) {
      var o := s[i..i + |p|];
      assert forall k | 0 <= k < |p| :: s[i + k] == o[k];
    }
  }

  lemma MissingChar(s: string, p: string, k: nat)
    requires k < |p| && p[k] !in s
    ensures !Contains(s, p)
  {
    forall i | 0 <= i <= |s| ensures !OccursAt(s, p, i) {
      OccurrenceChars(s, p, i);
    }
  }

  /** The omission marker is not an evidence line. */
  lemma MarkerIsNotEvidence()
    ensures !IsActionable(AsciiText(MarkerLine()))
  {
    var m := MARKER_TEXT;
    MarkerAlphabet();
    MissingChar(m, "warning", 0);
    MissingChar(m, "failed", 0);
    MissingChar(m, "failure", 0);
    MissingChar(m, "panicked", 3);
    MissingChar(m, "assert", 2);
    NoDoubleR();
  }

  lemma MarkerAlphabet()
    ensures Lower(MARKER_TEXT) == MARKER_TEXT
    ensures 'w' !in MARKER_TEXT && 'f' !in MARKER_TEXT && 'i' !in MARKER_TEXT && 's' !in MARKER_TEXT && ':' !in MARKER_TEXT
  {
  }

  lemma NoDoubleR()
    ensures !Contains(MARKER_TEXT, "error")
  {
    SingleR(MARKER_TEXT, 12);
  }

  lemma SingleR(m: string, only: nat)
    requires forall i | 0 <= i < |m| :: m[i] == 'r' ==> i == only
    ensures !Contains(m, "error")
  {
    assert "error"[1] == 'r' && "error"[2] == 'r';
    forall i | 0 <= i <= |m| ensures !OccursAt(m, "error", i) {
      OccurrenceChars(m, "error", i);
    }
  }

  // ---------- what truncation leaves ----------

  /** The lines that certainly reach the compressor: all of an untruncated stream, and those that end inside
      the head of a truncated one. */
  function HeadLines(input: Bytes, cap: nat): seq<Bytes> {
    if |input| <= cap then AllLines(input) else Complete(input[..HeadCap(cap)])
  }

  lemma HeadLinesArePrefix(input: Bytes, cap: nat)
    ensures HeadLines(input, cap) <= AllLines(input)
  {
    if |input| > cap {
      hide Complete;
      var head := input[..HeadCap(cap)];
      assert input == head + input[HeadCap(cap)..];
      SplitConcat(head, input[HeadCap(cap)..]);
    }
  }

  /** An actionable line that ends inside a head, or anywhere in an untruncated stream, is in the evidence, with
      at least its occurrences there; and those lines are the first lines of what the process wrote. */
  lemma HeadLinesSurvive(out: Bytes, err: Bytes, cap: nat, co: CapturedStream, ce: CapturedStream,
                         decode: Bytes -> string, evidence: map<string, nat>, line: string)
    requires IsCapture(co, out, cap) && IsCapture(ce, err, cap)
    requires IsTally(evidence, Recorded(RetainedBytes(co), RetainedBytes(ce), decode), IsActionable)
    requires decode(MarkerLine()) == AsciiText(MarkerLine())
    ensures HeadLines(out, cap) <= AllLines(out) && HeadLines(err, cap) <= AllLines(err)
    ensures var least := Occurrences(HeadLines(out, cap), decode, line) + Occurrences(HeadLines(err, cap), decode, line);
      IsActionable(line) && least > 0 ==> line in evidence && evidence[line] >= least
  {
    hide *;
    MarkerIsNotEvidence();
    EvidenceIsExact(out, err, cap, co, ce, decode, IsActionable, evidence, line);
    HeadLinesArePrefix(out, cap);
    HeadLinesArePrefix(err, cap);
    HeadContributes(out, cap, decode, line);
    HeadContributes(err, cap, decode, line);
  }

  lemma HeadContributes(input: Bytes, cap: nat, decode: Bytes -> string, line: string)
    ensures Occurrences(HeadLines(input, cap), decode, line) <= Contribution(input, cap, decode, line)
  {
    hide Occurrences, Complete, AllLines;
  }
}
