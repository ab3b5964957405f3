// The streaming terminal compressor: lines are split out of two byte streams, the first ones and a
// ring of the last ones are kept, and actionable lines are counted.

module Terminal {
  import opened Options
  import opened Texts
  import opened LineSplitting

  // ---------- what is retained of the recorded lines ----------

  function FirstOf(log: seq<string>, limit: nat): seq<string> {
    if |log| <= limit then log else log[..limit]
  }

  function LastOf(log: seq<string>, limit: nat): seq<string> {
    if |log| <= limit then log else log[|log| - limit..]
  }

  function TailOf(log: seq<string>, firstLimit: nat, tailLimit: nat): seq<string> {
    if |log| <= firstLimit then [] else LastOf(log[firstLimit..], tailLimit)
  }

  /** Evidence is the multiplicity of every actionable recorded line, and nothing else. */
  ghost predicate IsTally(evidence: map<string, nat>, log: seq<string>, actionable: string -> bool) {
    && (forall l | l in evidence :: l in log && actionable(l) && evidence[l] == multiset(log)[l])
    && (forall l | l in log && actionable(l) :: l in evidence)
  }

  lemma TallyUnique(e1: map<string, nat>, e2: map<string, nat>, log: seq<string>, actionable: string -> bool)
    requires IsTally(e1, log, actionable) && IsTally(e2, log, actionable)
    ensures e1 == e2
  {
  }

  lemma RingStep(log: seq<string>, line: string, firstLimit: nat, tailLimit: nat)
    requires |log| >= firstLimit
    ensures FirstOf(log + [line], firstLimit) == FirstOf(log, firstLimit)
    ensures var tail := TailOf(log, firstLimit, tailLimit);
      && |tail| <= tailLimit
      && TailOf(log + [line], firstLimit, tailLimit) ==
           if tailLimit == 0 then tail
           else (if |tail| == tailLimit then tail[1..] else tail) + [line]
  {
    assert (log + [line])[firstLimit..] == log[firstLimit..] + [line];
    assert |log| == firstLimit ==> log[..firstLimit] == log && log[firstLimit..] == [];
  }

  datatype Summary = Summary(firstLines: seq<string>, tailLines: seq<string>, evidence: map<string, nat>)

  ghost predicate IsSummary(s: Summary, log: seq<string>, firstLimit: nat, tailLimit: nat, actionable: string -> bool) {
    && s.firstLines == FirstOf(log, firstLimit)
    && s.tailLines == TailOf(log, firstLimit, tailLimit)
    && IsTally(s.evidence, log, actionable)
  }

  // ---------- the compressor ----------

  datatype Stream = Stdout | Stderr

  /** The abstract state: all lines recorded so far and the two unfinished lines. */
  datatype View = View(log: seq<string>, stdout: Bytes, stderr: Bytes)

  const START := View([], [], [])

  function Decoded(lines: seq<Bytes>, decode: Bytes -> string): (r: seq<string>)
    ensures |r| == |lines|
  {
    seq(|lines|, i requires 0 <= i < |lines| => decode(lines[i]))
  }

  function Partial(v: View, stream: Stream): Bytes {
    if stream.Stdout? then v.stdout else v.stderr
  }

  function Push(v: View, stream: Stream, chunk: Bytes, decode: Bytes -> string): View {
    var bytes := Partial(v, stream) + chunk;
    var log := v.log + Decoded(Complete(bytes), decode);
    if stream.Stdout? then View(log, Rest(bytes), v.stderr) else View(log, v.stdout, Rest(bytes))
  }

  /** The unfinished lines are recorded at the very end, standard output first. */
  function Flushed(v: View, decode: Bytes -> string): seq<string> {
    v.log + (if v.stdout != [] then [decode(v.stdout)] else [])
          + (if v.stderr != [] then [decode(v.stderr)] else [])
  }

  /** `decode` is the lossy UTF-8 decoder, `actionable` the test for evidence lines. */
  class Compressor {
    const firstLimit: nat
    const tailLimit: nat
    const decode: Bytes -> string
    const actionable: string -> bool

    var firstLines: seq<string>
    var tailLines: seq<string>
    var evidence: map<string, nat>
    var stdoutPartial: Bytes
    var stderrPartial: Bytes
    ghost var log: seq<string>

    ghost predicate Valid()
      reads this
    {
      && firstLines == FirstOf(log, firstLimit)
      && tailLines == TailOf(log, firstLimit, tailLimit)
      && IsTally(evidence, log, actionable)
    }

    ghost function Abstract(): View
      reads this
    {
      View(log, stdoutPartial, stderrPartial)
    }

    constructor (firstLimit: nat, tailLimit: nat, decode: Bytes -> string, actionable: string -> bool)
      ensures Valid() && Abstract() == START
      ensures this.firstLimit == firstLimit && this.tailLimit == tailLimit
      ensures this.decode == decode && this.actionable == actionable
    {
      this.firstLimit, this.tailLimit := firstLimit, tailLimit;
      this.decode, this.actionable := decode, actionable;
      firstLines, tailLines, evidence := [], [], map[];
      stdoutPartial, stderrPartial := [], [];
      log := [];
    }

    method RecordLine(line: string)
      requires Valid()
      modifies this`firstLines, this`tailLines, this`evidence, this`log
      ensures Valid() && log == old(log) + [line]
    {
      if |firstLines| < firstLimit {
        firstLines := firstLines + [line];
      } else {
        RingStep(log, line, firstLimit, tailLimit);
        if tailLimit > 0 {
          if |tailLines| == tailLimit {
            tailLines := tailLines[1..];
          }
          tailLines := tailLines + [line];
        }
      }
      if actionable(line) {
        evidence := evidence[line := (if line in evidence then evidence[line] else 0) + 1];
      }
      log := log + [line];
    }

    method PushChunk(partial: Bytes, chunk: Bytes) returns (rest: Bytes)
      requires Valid()
      modifies this`firstLines, this`tailLines, this`evidence, this`log
      ensures Valid() && log == old(log) + Decoded(Complete(partial + chunk), decode)
      ensures rest == Rest(partial + chunk)
    {
      hide Complete, Rest, Decoded, Chop, Valid;
      rest := partial + chunk;
      ghost var done: seq<Bytes> := [];
      assert Decoded(done, decode) == [];
      while NEWLINE in rest
        invariant Valid()
        invariant log == old(log) + Decoded(done, decode)
        invariant done + Complete(rest) == Complete(partial + chunk)
        invariant Rest(rest) == Rest(partial + chunk)
        decreases |rest|
      {
        FirstLine(rest);
        var i := LineEnd(rest);
        var line := Chop(rest[..i]);
        RecordLine(decode(line));
        DecodedConcat(done, [line], decode);
        DecodedOne(line, decode);
        ConcatAssoc(done, [line], Complete(rest[i + 1..]));
        ConcatAssoc(old(log), Decoded(done, decode), [decode(line)]);
        done := done + [line];
        rest := rest[i + 1..];
      }
      NoBreakMeansNoLine(rest);
      assert done + [] == done;
    }

    method PushStdout(chunk: Bytes)
      requires Valid()
      modifies this
      ensures Valid() && Abstract() == Push(old(Abstract()), Stdout, chunk, decode)
    {
      var partial := stdoutPartial;
      stdoutPartial := [];
      partial := PushChunk(partial, chunk);
      stdoutPartial := partial;
    }

    method PushStderr(chunk: Bytes)
      requires Valid()
      modifies this
      ensures Valid() && Abstract() == Push(old(Abstract()), Stderr, chunk, decode)
    {
      var partial := stderrPartial;
      stderrPartial := [];
      partial := PushChunk(partial, chunk);
      stderrPartial := partial;
    }

    method Finish() returns (summary: Summary)
      requires Valid()
      modifies this
      ensures IsSummary(summary, Flushed(old(Abstract()), decode), firstLimit, tailLimit, actionable)
    {
      ghost var out := if stdoutPartial != [] then [decode(stdoutPartial)] else [];
      if stdoutPartial != [] {
        RecordLine(decode(stdoutPartial));
      }
      assert log == old(log) + out;
      ghost var err := if stderrPartial != [] then [decode(stderrPartial)] else [];
      if stderrPartial != [] {
        RecordLine(decode(stderrPartial));
      }
      assert log == old(log) + out + err;
      summary := Summary(firstLines, tailLines, evidence);
    }
  }

  /** The one-shot form. The recorded order is: complete standard output lines, complete standard
      error lines, then the two unterminated lines. */
  method CompressTerminal(stdout: Bytes, stderr: Bytes, firstLimit: nat, tailLimit: nat,
                          decode: Bytes -> string, actionable: string -> bool) returns (summary: Summary)
    ensures IsSummary(summary, Recorded(stdout, stderr, decode), firstLimit, tailLimit, actionable)
  {
    hide Push, Flushed, IsSummary, IsTally;
    var compressor := new Compressor(firstLimit, tailLimit, decode, actionable);
    compressor.PushStdout(stdout);
    compressor.PushStderr(stderr);
    summary := compressor.Finish();
  }

  function Recorded(stdout: Bytes, stderr: Bytes, decode: Bytes -> string): seq<string> {
    Flushed(Push(Push(START, Stdout, stdout, decode), Stderr, stderr, decode), decode)
  }

  // ---------- the order of the recorded lines, and which of them are kept ----------

  /** The recording order of the one-shot form: the terminated lines of standard output, those of standard error, then
      the unterminated line of standard output, if any, and last that of standard error. */
  lemma RecordedOrder(stdout: Bytes, stderr: Bytes, decode: Bytes -> string)
    ensures Recorded(stdout, stderr, decode) ==
      Decoded(Complete(stdout) + Complete(stderr) + LastLine(stdout) + LastLine(stderr), decode)
  {
    var none: Bytes := [];
    assert none + stdout == stdout && none + stderr == stderr;
    var logged: seq<string> := [];
    assert logged + Decoded(Complete(stdout), decode) == Decoded(Complete(stdout), decode);
    hide Complete, Rest;
    DecodedConcat(Complete(stdout), Complete(stderr), decode);
    DecodedConcat(Complete(stdout) + Complete(stderr), LastLine(stdout), decode);
    DecodedConcat(Complete(stdout) + Complete(stderr) + LastLine(stdout), LastLine(stderr), decode);
    DecodedLast(stdout, decode);
    DecodedLast(stderr, decode);
  }

  lemma DecodedLast(bytes: Bytes, decode: Bytes -> string)
    ensures Decoded(LastLine(bytes), decode) == if Rest(bytes) != [] then [decode(Rest(bytes))] else []
  {
    hide Rest;
    DecodedOne(Rest(bytes), decode);
  }

  /** A summary shows a beginning and an end of the recorded lines: as many of the first as allowed, and of the others as
      many of the last as allowed. */
  lemma KeptLines(log: seq<string>, firstLimit: nat, tailLimit: nat)
    ensures var first, tail := FirstOf(log, firstLimit), TailOf(log, firstLimit, tailLimit);
      && first <= log && tail == log[|log| - |tail|..]
      && (|first| == firstLimit || |first| == |log|)
      && |first| + |tail| <= |log| && |tail| <= tailLimit
      && (|tail| == tailLimit || |first| + |tail| == |log|)
  {
  }

  // ---------- chunk independence ----------

  /** Two chunks pushed one after the other on one stream leave the same state as their concatenation. */
  lemma ChunkIndependence(v: View, stream: Stream, a: Bytes, b: Bytes, decode: Bytes -> string)
    ensures Push(Push(v, stream, a, decode), stream, b, decode) == Push(v, stream, a + b, decode)
  {
    hide Complete, Rest, Decoded;
    var p := Partial(v, stream);
    ConcatAssoc(p, a, b);
    SplitConcat(p + a, b);
    var first, second := Complete(p + a), Complete(Rest(p + a) + b);
    DecodedConcat(first, second, decode);
    ConcatAssoc(v.log, Decoded(first, decode), Decoded(second, decode));
  }

  /** Everything a compressor stores is the same in both. */
  ghost predicate SameFields(x: Compressor, y: Compressor)
    reads x, y
  {
    && x.firstLines == y.firstLines && x.tailLines == y.tailLines && x.evidence == y.evidence
    && x.stdoutPartial == y.stdoutPartial && x.stderrPartial == y.stderrPartial
  }

  ghost predicate SameSettings(x: Compressor, y: Compressor) {
    x.firstLimit == y.firstLimit && x.tailLimit == y.tailLimit && x.actionable == y.actionable && x.decode == y.decode
  }

  /** The abstract state determines every field: head list, tail ring, evidence and unfinished lines. */
  lemma StateDeterminesFields(x: Compressor, y: Compressor)
    requires x.Valid() && y.Valid() && SameSettings(x, y) && x.Abstract() == y.Abstract()
    ensures SameFields(x, y)
  {
    hide IsTally;
    TallyUnique(x.evidence, y.evidence, x.log, x.actionable);
  }

  /** Of two compressors in the same state, one given a and then b and the other their concatenation end with
      equal fields. */
  method PushInParts(x: Compressor, y: Compressor, stream: Stream, a: Bytes, b: Bytes)
    requires x != y && x.Valid() && y.Valid() && SameSettings(x, y) && x.Abstract() == y.Abstract()
    modifies x, y
    ensures x.Valid() && y.Valid() && SameFields(x, y)
  {
    hide Push, IsTally;
    ghost var v := x.Abstract();
    if stream == Stdout {
      x.PushStdout(a);
      x.PushStdout(b);
      y.PushStdout(a + b);
    } else {
      x.PushStderr(a);
      x.PushStderr(b);
      y.PushStderr(a + b);
    }
    ChunkIndependence(v, stream, a, b, x.decode);
    StateDeterminesFields(x, y);
  }

  lemma DecodedConcat(a: seq<Bytes>, b: seq<Bytes>, decode: Bytes -> string)
    ensures Decoded(a + b, decode) == Decoded(a, decode) + Decoded(b, decode)
  {
  }

  // ---------- evidence does not depend on the interleaving ----------

  type Chunk = (Stream, Bytes)

  function PushAll(chunks: seq<Chunk>, decode: Bytes -> string): View {
    if chunks == [] then START
    else
      var last := chunks[|chunks| - 1];
      Push(PushAll(chunks[..|chunks| - 1], decode), last.0, last.1, decode)
  }

  /** All bytes pushed on one stream. */
  function Sent(chunks: seq<Chunk>, stream: Stream): Bytes {
    if chunks == [] then []
    else
      var last := chunks[|chunks| - 1];
      Sent(chunks[..|chunks| - 1], stream) + (if last.0 == stream then last.1 else [])
  }

  ghost predicate Splits(v: View, out: Bytes, err: Bytes, decode: Bytes -> string) {
    && v.stdout == Rest(out) && v.stderr == Rest(err)
    && multiset(v.log) == multiset(Decoded(Complete(out), decode)) + multiset(Decoded(Complete(err), decode))
  }

  lemma PushSplits(v: View, out: Bytes, err: Bytes, stream: Stream, chunk: Bytes, decode: Bytes -> string)
    requires Splits(v, out, err, decode)
    ensures Splits(Push(v, stream, chunk, decode),
                   if stream.Stdout? then out + chunk else out,
                   if stream.Stderr? then err + chunk else err, decode)
  {
    hide Complete, Rest, Decoded;
    var sent := if stream.Stdout? then out else err;
    SplitConcat(sent, chunk);
    DecodedConcat(Complete(sent), Complete(Rest(sent) + chunk), decode);
  }

  lemma {:induction false} PushAllSplits(chunks: seq<Chunk>, decode: Bytes -> string)
    ensures Splits(PushAll(chunks, decode), Sent(chunks, Stdout), Sent(chunks, Stderr), decode)
    decreases |chunks|
  {
    if chunks != [] {
      var before, last := chunks[..|chunks| - 1], chunks[|chunks| - 1];
      PushAllSplits(before, decode);
      PushSplits(PushAll(before, decode), Sent(before, Stdout), Sent(before, Stderr), last.0, last.1, decode);
      assert Sent(before, Stdout) + [] == Sent(before, Stdout);
      assert Sent(before, Stderr) + [] == Sent(before, Stderr);
    }
  }

  lemma DecodedOne(line: Bytes, decode: Bytes -> string)
    ensures Decoded([line], decode) == [decode(line)] && Decoded([], decode) == []
  {
  }

  lemma FlushedAsMultiset(v: View, decode: Bytes -> string)
    ensures multiset(Flushed(v, decode)) ==
      multiset(v.log) + multiset(Decoded(if v.stdout != [] then [v.stdout] else [], decode))
                      + multiset(Decoded(if v.stderr != [] then [v.stderr] else [], decode))
  {
    DecodedOne(v.stdout, decode);
    DecodedOne(v.stderr, decode);
    hide Decoded;
  }

  /** For any interleaving of chunks the recorded lines are, as a bag, the lines of the two streams. */
  lemma RecordedLinesAreConserved(chunks: seq<Chunk>, decode: Bytes -> string)
    ensures multiset(Flushed(PushAll(chunks, decode), decode)) ==
      multiset(Decoded(AllLines(Sent(chunks, Stdout)), decode)) + multiset(Decoded(AllLines(Sent(chunks, Stderr)), decode))
  {
    hide Complete, Rest, Decoded, PushAll, Sent, Flushed;
    var v := PushAll(chunks, decode);
    var out, err := Sent(chunks, Stdout), Sent(chunks, Stderr);
    PushAllSplits(chunks, decode);
    FlushedAsMultiset(v, decode);
    DecodedConcat(Complete(out), LastLine(out), decode);
    DecodedConcat(Complete(err), LastLine(err), decode);
  }

  /** So each actionable line's count is its number of occurrences across both streams, whatever the
      interleaving, and no other line is counted. */
  lemma EvidenceCountsBothStreams(chunks: seq<Chunk>, decode: Bytes -> string, actionable: string -> bool,
                                  evidence: map<string, nat>, line: string)
    requires IsTally(evidence, Flushed(PushAll(chunks, decode), decode), actionable)
    ensures var total := multiset(Decoded(AllLines(Sent(chunks, Stdout)), decode))[line]
                       + multiset(Decoded(AllLines(Sent(chunks, Stderr)), decode))[line];
      && (line in evidence <==> actionable(line) && total > 0)
      && (line in evidence ==> evidence[line] == total)
  {
    RecordedLinesAreConserved(chunks, decode);
    var log := Flushed(PushAll(chunks, decode), decode);
    assert line in log <==> multiset(log)[line] > 0;
  }
}
