// The built-in redactor for credential assignments.

module Redactor {
  import opened Options
  import opened Texts

  datatype Redaction = Redaction(content: string, redactions: nat)

  /** Pieces that each end with a line break, except perhaps the last. */
  function Segments(s: string): (r: seq<string>)
    ensures s == "" <==> r == []
    ensures forall p | p in r :: p != ""
  {
    if s == "" then []
    else
      var n := SegmentLength(s);
      [s[..n]] + Segments(s[n..])
  }

  /** Length up to and including the first line break. */
  function SegmentLength(s: string): (n: nat)
    requires s != ""
    ensures 0 < n <= |s|
    ensures '\n' !in s[..n - 1]
    ensures s[n - 1] == '\n' || n == |s|
  {
    if s[0] == '\n' || |s| == 1 then 1
    else
      var n := 1 + SegmentLength(s[1..]);
      assert s[..n - 1] == [s[0]] + s[1..][..n - 2];
      n
  }

  /** Index of the first '=' or ':', or the length. */
  function Separator(line: string): (i: nat)
    ensures i <= |line|
    ensures i < |line| ==> line[i] == '=' || line[i] == ':'
    ensures '=' !in line[..i] && ':' !in line[..i]
  {
    if line == "" || line[0] == '=' || line[0] == ':' then 0
    else
      var i := 1 + Separator(line[1..]);
      assert line[..i] == [line[0]] + line[1..][..i - 1];
      i
  }

  predicate IsAlphanumeric(c: char) {
    'a' <= c <= 'z' || 'A' <= c <= 'Z' || '0' <= c <= '9'
  }

  /** ASCII letters and digits, in lower case. */
  function Normalised(key: string): string {
    if key == "" then ""
    else (if IsAlphanumeric(key[0]) then [LowerChar(key[0])] else []) + Normalised(key[1..])
  }

  predicate IsSensitiveKey(key: string) {
    EndsWith(key, "password") || EndsWith(key, "secret") || EndsWith(key, "token") ||
    EndsWith(key, "apikey") || EndsWith(key, "accesstoken") || EndsWith(key, "privatekey")
  }

  /** A line whose first separator follows a sensitive key and precedes a non-blank value. */
  predicate IsSensitive(line: string) {
    var i := Separator(line);
    i < |line| && IsSensitiveKey(Normalised(line[..i])) && Trim(line[i + 1..]) != ""
  }

  const MASK := "[REDACTED]"

  predicate StartsWithQuote(value: string) {
    value != "" && (value[0] == '"' || value[0] == '\'')
  }

  /** What replaces a value: the mask, quoted when the value was, with the trailing comma kept. */
  function Masked(value: string): string {
    MaskedBy(value, MASK)
  }

  function MaskedBy(value: string, mask: string): string {
    if StartsWithQuote(value) then " " + Quoted(mask, EndsWith(value, ",")) else mask
  }

  function Quoted(mask: string, comma: bool): string {
    "\"" + mask + "\"" + (if comma then "," else "")
  }

  function RedactLine(line: string): string {
    if IsSensitive(line) then
      var i := Separator(line);
      line[..i + 1] + Masked(Trim(line[i + 1..]))
    else line
  }

  function LineOf(segment: string): string {
    if segment != "" && segment[|segment| - 1] == '\n' then segment[..|segment| - 1] else segment
  }

  function BreakOf(segment: string): string {
    if segment != "" && segment[|segment| - 1] == '\n' then "\n" else ""
  }

  function RedactSegment(segment: string): string {
    RedactLine(LineOf(segment)) + BreakOf(segment)
  }

  function RedactSegments(segments: seq<string>): Redaction {
    if segments == [] then Redaction("", 0)
    else
      var rest := RedactSegments(segments[1..]);
      Redaction(RedactSegment(segments[0]) + rest.content,
                (if IsSensitive(LineOf(segments[0])) then 1 else 0) + rest.redactions)
  }

  function Redacted(content: string): Redaction {
    RedactSegments(Segments(content))
  }

  method RedactAssignments(content: string) returns (r: Redaction)
    ensures r == Redacted(content)
  {
    var segments := Segments(content);
    hide Segments, RedactSegments, RedactSegment, IsSensitive, IsSensitiveKey, Normalised, Trim, Masked, Separator, LineOf, BreakOf;
    assert segments[0..] == segments;
    var output := "";
    var redactions := 0;
    for n := 0 to |segments|
      invariant output + RedactSegments(segments[n..]).content == RedactSegments(segments).content
      invariant redactions + RedactSegments(segments[n..]).redactions == RedactSegments(segments).redactions
    {
      RedactStep(segments, n, output);
      var line, newline := LineOf(segments[n]), BreakOf(segments[n]);
      var separator := Separator(line);
      ghost var was := output;
      if separator < |line| && IsSensitiveKey(Normalised(line[..separator])) && Trim(line[separator + 1..]) != "" {
        var value := Trim(line[separator + 1..]);
        output := output + line[..separator + 1] + Masked(value) + newline;
        redactions := redactions + 1;
        JoinPieces(was, line[..separator + 1], Masked(value), newline);
      } else {
        output := output + line + newline;
        ConcatAssoc(was, line, newline);
      }
      SegmentOutput(segments[n]);
    }
    NothingLeft(segments, output);
    r := Redaction(output, redactions);
  }

  /** What one turn of the loop appends and counts. */
  lemma SegmentOutput(segment: string)
    ensures var line := LineOf(segment); var i := Separator(line);
      var hit := i < |line| && IsSensitiveKey(Normalised(line[..i])) && Trim(line[i + 1..]) != "";
      && (IsSensitive(line) <==> hit)
      && RedactSegment(segment) ==
           if hit then (line[..i + 1] + Masked(Trim(line[i + 1..]))) + BreakOf(segment) else line + BreakOf(segment)
  {
  }

  lemma NothingLeft(segments: seq<string>, done: string)
    ensures done + RedactSegments(segments[|segments|..]).content == done
    ensures RedactSegments(segments[|segments|..]).redactions == 0
  {
  }

  lemma JoinPieces(a: string, b: string, c: string, d: string)
    ensures a + b + c + d == a + ((b + c) + d)
  {
  }

  lemma RedactStep(segments: seq<string>, n: nat, done: string)
    requires n < |segments|
    ensures var rest := RedactSegments(segments[n + 1..]); var now := RedactSegments(segments[n..]);
      && done + now.content == done + RedactSegment(segments[n]) + rest.content
      && now.redactions == (if IsSensitive(LineOf(segments[n])) then 1 else 0) + rest.redactions
  {
    assert segments[n..][1..] == segments[n + 1..];
    ConcatAssoc(done, RedactSegment(segments[n]), RedactSegments(segments[n + 1..]).content);
  }

  // ---------- one line ----------

  lemma {:induction false} SeparatorAfterKey(key: string, rest: string)
    requires '=' !in key && ':' !in key && rest != "" && (rest[0] == '=' || rest[0] == ':')
    ensures Separator(key + rest) == |key|
  {
    if key != "" {
      assert (key + rest)[1..] == key[1..] + rest;
      SeparatorAfterKey(key[1..], rest);
    } else {
      assert key + rest == rest;
    }
  }

  predicate Tight(s: string) {
    s != "" && !IsWhite(s[0]) && !IsWhite(s[|s| - 1])
  }

  lemma TrimTight(s: string)
    requires Tight(s)
    ensures Trim(s) == s && Trim(" " + s) == s
  {
    hide Trim, IsWhite;
    TrimAll(s);
    TrimAfterBlank(s);
  }

  lemma TrimAll(s: string)
    requires Tight(s)
    ensures TrimEnd(s) == s && TrimStart(s) == s && Trim(s) == s
  {
    hide IsWhite;
  }

  lemma TrimAfterBlank(s: string)
    requires Tight(s)
    ensures Trim(" " + s) == s
  {
    TrimAll(s);
    var t := " " + s;
    assert t[0] == ' ' && IsWhite(' ');
    assert t[|t| - 1] == s[|s| - 1];
    hide IsWhite;
    assert TrimEnd(t) == t;
    assert t[1..] == s;
    assert TrimStart(t) == TrimStart(s);
  }

  /** A masked value is masked to itself and contains no line break. */
  lemma MaskedAgain(value: string)
    ensures Trim(Masked(value)) != "" && Masked(Trim(Masked(value))) == Masked(value)
    ensures '\n' !in Masked(value)
  {
    assert Tight(MASK) && '\n' !in MASK && !StartsWithQuote(MASK);
    MaskedByAgain(value, MASK);
  }

  lemma MaskedByAgain(value: string, mask: string)
    requires Tight(mask) && '\n' !in mask && !StartsWithQuote(mask)
    ensures Trim(MaskedBy(value, mask)) != "" && MaskedBy(Trim(MaskedBy(value, mask)), mask) == MaskedBy(value, mask)
    ensures '\n' !in MaskedBy(value, mask)
  {
    hide Trim, IsWhite;
    TrimTight(mask);
    QuotedIsTight(mask, EndsWith(value, ","));
    TrimTight(Quoted(mask, EndsWith(value, ",")));
  }

  lemma QuotedIsTight(mask: string, comma: bool)
    requires '\n' !in mask
    ensures var body := Quoted(mask, comma);
      Tight(body) && StartsWithQuote(body) && (EndsWith(body, ",") <==> comma) && '\n' !in body
  {
    var body := Quoted(mask, comma);
    assert body[0] == '"';
    assert body[|body| - 1] == if comma then ',' else '"';
    assert body[|body| - 1..] == [body[|body| - 1]];
  }

  predicate IsHead(key: string, separator: char) {
    '=' !in key && ':' !in key && (separator == '=' || separator == ':')
  }

  /** How a line made of a key, a separator and a value is read. */
  lemma LineParts(key: string, separator: char, value: string)
    requires IsHead(key, separator)
    ensures var line := key + [separator] + value; var hit := IsSensitiveKey(Normalised(key)) && Trim(value) != "";
      && Separator(line) == |key|
      && IsSensitive(line) == hit
      && RedactLine(line) == if hit then key + [separator] + Masked(Trim(value)) else line
  {
    hide Masked, Normalised, IsSensitiveKey, Trim, Separator;
    var line := key + [separator] + value;
    ConcatAssoc(key, [separator], value);
    SeparatorAfterKey(key, [separator] + value);
    assert line[..|key|] == key && line[|key| + 1..] == value && line[..|key| + 1] == key + [separator];
  }

  /** A sensitive line is a sensitive key, a separator and a non-blank value. */
  lemma SensitiveParts(line: string) returns (key: string, separator: char, value: string)
    requires IsSensitive(line)
    ensures line == key + [separator] + value && IsHead(key, separator)
    ensures IsSensitiveKey(Normalised(key)) && Trim(value) != ""
  {
    hide Normalised, IsSensitiveKey, Trim, Separator;
    var i := Separator(line);
    key, separator, value := line[..i], line[i], line[i + 1..];
    assert line == key + [separator] + value;
  }

  lemma RedactPartsAgain(key: string, separator: char, value: string)
    requires IsHead(key, separator) && IsSensitiveKey(Normalised(key)) && Trim(value) != ""
    ensures var line := key + [separator] + value; var r := RedactLine(line);
      && IsSensitive(line) && IsSensitive(r) && RedactLine(r) == r && r != ""
      && ('\n' !in line ==> '\n' !in r)
  {
    hide Masked, Normalised, IsSensitiveKey, Trim, Separator, IsSensitive, RedactLine, IsHead;
    var masked := Masked(Trim(value));
    LineParts(key, separator, value);
    MaskedAgain(Trim(value));
    LineParts(key, separator, masked);
    NoBreakIn(key, separator, value, masked);
  }

  lemma NoBreakIn(key: string, separator: char, value: string, masked: string)
    requires '\n' !in masked
    ensures '\n' !in key + [separator] + value ==> '\n' !in key + [separator] + masked
  {
    var a, b := key + [separator] + value, key + [separator] + masked;
    if '\n' !in a {
      forall k | 0 <= k < |b| ensures b[k] != '\n' {
        assert if k <= |key| then b[k] == a[k] && a[k] in a else b[k] == masked[k - |key| - 1];
      }
    }
  }

  /** Redacting a line twice is redacting it once, and keeps it a line. */
  lemma RedactLineAgain(line: string)
    ensures IsSensitive(RedactLine(line)) == IsSensitive(line)
    ensures RedactLine(RedactLine(line)) == RedactLine(line)
    ensures line != "" ==> RedactLine(line) != ""
    ensures '\n' !in line ==> '\n' !in RedactLine(line)
  {
    hide IsSensitive, RedactLine, IsHead, IsSensitiveKey, Normalised, Trim;
    if IsSensitive(line) {
      var key, separator, value := SensitiveParts(line);
      RedactPartsAgain(key, separator, value);
    } else {
      PlainLine(line);
    }
  }

  lemma PlainLine(line: string)
    ensures !IsSensitive(line) ==> RedactLine(line) == line
  {
    hide IsSensitive;
  }

  // ---------- segments of the output ----------

  predicate IsTerminated(segment: string) {
    segment != "" && segment[|segment| - 1] == '\n' && '\n' !in segment[..|segment| - 1]
  }

  /** Every piece but the last ends with its only line break; the last is not empty. */
  predicate AreSegments(list: seq<string>) {
    forall k | 0 <= k < |list| :: IsTerminated(list[k]) || (k == |list| - 1 && list[k] != "" && '\n' !in list[k])
  }

  function Concat(list: seq<string>): string {
    if list == [] then "" else list[0] + Concat(list[1..])
  }

  lemma FirstSegment(s: string)
    requires s != ""
    ensures var n := SegmentLength(s); var first := s[..n];
      first != "" && (IsTerminated(first) || (n == |s| && '\n' !in first))
  {
    var n := SegmentLength(s);
    var first := s[..n];
    hide SegmentLength;
    assert first[..n - 1] == s[..n - 1];
    if s[n - 1] != '\n' {
      assert first == s[..n - 1] + [s[n - 1]];
    }
  }

  lemma ConsSegments(first: string, rest: seq<string>)
    requires AreSegments(rest)
    requires first != "" && (IsTerminated(first) || (rest == [] && '\n' !in first))
    ensures AreSegments([first] + rest)
  {
    hide IsTerminated;
    var list := [first] + rest;
    forall k | 0 <= k < |list|
      ensures IsTerminated(list[k]) || (k == |list| - 1 && list[k] != "" && '\n' !in list[k])
    {
      if k > 0 {
        assert list[k] == rest[k - 1];
      } else {
        assert list[0] == first;
      }
    }
  }

  lemma {:induction false} SegmentsAre(s: string)
    ensures AreSegments(Segments(s)) && Concat(Segments(s)) == s
    decreases |s|
  {
    hide SegmentLength, IsTerminated, AreSegments, Segments, Concat;
    SegmentsUnfold(s);
    if s == "" {
      NoSegments();
    } else {
      var n := SegmentLength(s);
      SegmentsAre(s[n..]);
      FirstSegment(s);
      ConsSegments(s[..n], Segments(s[n..]));
      ConcatUnfold(s[..n], Segments(s[n..]));
      assert s == s[..n] + s[n..];
    }
  }

  lemma SegmentsUnfold(s: string)
    ensures s == "" ==> Segments(s) == []
    ensures s != "" ==> Segments(s) == [s[..SegmentLength(s)]] + Segments(s[SegmentLength(s)..])
  {
    hide SegmentLength;
  }

  lemma ConcatUnfold(first: string, rest: seq<string>)
    ensures Concat([first] + rest) == first + Concat(rest)
  {
    assert ([first] + rest)[1..] == rest;
  }

  lemma NoSegments()
    ensures AreSegments([]) && Concat([]) == ""
  {
  }

  lemma {:induction false} LengthOfTerminated(segment: string, rest: string)
    requires IsTerminated(segment)
    ensures SegmentLength(segment + rest) == |segment|
    decreases |segment|
  {
    var s := segment + rest;
    if |segment| > 1 {
      assert segment[0] == segment[..|segment| - 1][0];
      assert segment[1..][..|segment| - 2] == segment[..|segment| - 1][1..];
      assert s[1..] == segment[1..] + rest;
      LengthOfTerminated(segment[1..], rest);
    }
  }

  lemma {:induction false} LengthOfLine(line: string)
    requires line != "" && '\n' !in line
    ensures SegmentLength(line) == |line|
  {
    if |line| > 1 {
      LengthOfLine(line[1..]);
    }
  }

  /** A list of segments is recovered from its concatenation. */
  lemma {:induction false} SegmentsOfConcat(list: seq<string>)
    requires AreSegments(list)
    ensures Segments(Concat(list)) == list
  {
    hide SegmentLength, IsTerminated;
    if list != [] {
      var rest := Concat(list[1..]);
      SegmentsOfConcat(list[1..]);
      if IsTerminated(list[0]) {
        LengthOfTerminated(list[0], rest);
      } else {
        LengthOfLine(list[0]);
        assert list[1..] == [] && list[0] + "" == list[0];
      }
      var s := list[0] + rest;
      assert s[..|list[0]|] == list[0] && s[|list[0]|..] == rest;
      assert list == [list[0]] + list[1..];
    }
  }

  function RedactedList(segments: seq<string>): (r: seq<string>)
    ensures |r| == |segments|
  {
    seq(|segments|, k requires 0 <= k < |segments| => RedactSegment(segments[k]))
  }

  lemma {:induction false} RedactSegmentsConcat(segments: seq<string>)
    ensures RedactSegments(segments).content == Concat(RedactedList(segments))
  {
    if segments != [] {
      RedactSegmentsConcat(segments[1..]);
      assert RedactedList(segments)[1..] == RedactedList(segments[1..]);
    }
  }

  lemma LineOfSegment(line: string, newline: string)
    requires '\n' !in line && (newline == "" || newline == "\n")
    ensures LineOf(line + newline) == line && BreakOf(line + newline) == newline
  {
    var s := line + newline;
    assert newline == "\n" ==> s[|s| - 1] == '\n' && s[..|s| - 1] == line;
    assert newline == "" ==> s == line;
  }

  /** A redacted segment is a segment of the same kind, and redacting it again changes nothing. */
  lemma RedactSegmentAgain(segment: string)
    requires IsTerminated(segment) || (segment != "" && '\n' !in segment)
    ensures IsTerminated(RedactSegment(segment)) <==> IsTerminated(segment)
    ensures RedactSegment(segment) != ""
    ensures !IsTerminated(segment) ==> '\n' !in RedactSegment(segment)
    ensures RedactSegment(RedactSegment(segment)) == RedactSegment(segment)
    ensures IsSensitive(LineOf(RedactSegment(segment))) == IsSensitive(LineOf(segment))
  {
    var line, newline := LineOf(segment), BreakOf(segment);
    var redacted := RedactLine(line);
    hide RedactLine, IsSensitive;
    RedactLineAgain(line);
    LineOfSegment(redacted, newline);
    var r := redacted + newline;
    assert newline == "\n" ==> r[..|r| - 1] == redacted && r[|r| - 1] == '\n';
    assert newline == "" ==> r == redacted;
  }

  lemma RedactedListIsSegments(segments: seq<string>)
    requires AreSegments(segments)
    ensures AreSegments(RedactedList(segments))
  {
    forall k | 0 <= k < |segments|
      ensures var r := RedactedList(segments)[k]; IsTerminated(r) || (k == |segments| - 1 && r != "" && '\n' !in r)
    {
      RedactSegmentAgain(segments[k]);
    }
  }

  // ---------- the promises ----------

  /** The output has the input's lines: each segment of the output is the redaction of the segment at the
      same place, so every line break and every line that is not sensitive is kept. */
  lemma RedactionIsLinewise(content: string)
    ensures var segments := Segments(content); var out := Segments(Redacted(content).content);
      && out == RedactedList(segments)
      && |out| == |segments|
      && (forall k | 0 <= k < |segments| :: BreakOf(out[k]) == BreakOf(segments[k]))
      && (forall k | 0 <= k < |segments| && !IsSensitive(LineOf(segments[k])) :: out[k] == segments[k])
  {
    var segments := Segments(content);
    SegmentsAre(content);
    hide Segments, IsSensitive;
    RedactSegmentsConcat(segments);
    RedactedListIsSegments(segments);
    SegmentsOfConcat(RedactedList(segments));
    forall k | 0 <= k < |segments|
      ensures BreakOf(RedactedList(segments)[k]) == BreakOf(segments[k])
      ensures !IsSensitive(LineOf(segments[k])) ==> RedactedList(segments)[k] == segments[k]
    {
      SegmentKeepsBreak(segments[k]);
    }
  }

  lemma BreakOfSegment(segment: string)
    requires IsTerminated(segment) || (segment != "" && '\n' !in segment)
    ensures BreakOf(segment) == if IsTerminated(segment) then "\n" else ""
    ensures LineOf(segment) + BreakOf(segment) == segment
  {
    assert segment[|segment| - 1] in segment;
  }

  lemma SegmentKeepsBreak(segment: string)
    requires IsTerminated(segment) || (segment != "" && '\n' !in segment)
    ensures BreakOf(RedactSegment(segment)) == BreakOf(segment)
    ensures !IsSensitive(LineOf(segment)) ==> RedactSegment(segment) == segment
  {
    hide IsSensitive, BreakOf, LineOf, IsTerminated;
    RedactSegmentAgain(segment);
    BreakOfSegment(segment);
    BreakOfSegment(RedactSegment(segment));
  }

  lemma SegmentsTail(segments: seq<string>)
    requires AreSegments(segments) && segments != []
    ensures AreSegments(segments[1..])
    ensures IsTerminated(segments[0]) || (segments[0] != "" && '\n' !in segments[0])
  {
    var rest := segments[1..];
    assert forall k | 0 <= k < |rest| :: rest[k] == segments[k + 1];
  }

  lemma {:induction false} RedactListAgain(segments: seq<string>)
    requires AreSegments(segments)
    ensures RedactSegments(RedactedList(segments)) == RedactSegments(segments)
  {
    hide RedactSegment, IsSensitive, LineOf, IsTerminated;
    if segments != [] {
      SegmentsTail(segments);
      RedactSegmentAgain(segments[0]);
      RedactListAgain(segments[1..]);
      assert RedactedList(segments)[1..] == RedactedList(segments[1..]);
    }
  }

  /** Redaction is idempotent, in its text and in its count. */
  lemma RedactionIsIdempotent(content: string)
    ensures Redacted(Redacted(content).content) == Redacted(content)
  {
    SegmentsAre(content);
    RedactionIsLinewise(content);
    RedactListAgain(Segments(content));
  }

  lemma {:induction false} RedactAppend(a: seq<string>, b: seq<string>)
    ensures RedactSegments(a + b).content == RedactSegments(a).content + RedactSegments(b).content
    ensures RedactSegments(a + b).redactions == RedactSegments(a).redactions + RedactSegments(b).redactions
  {
    hide RedactSegment, IsSensitive, LineOf;
    if a == [] {
      assert a + b == b;
      assert "" + RedactSegments(b).content == RedactSegments(b).content;
    } else {
      RedactAppend(a[1..], b);
      assert (a + b)[1..] == a[1..] + b && (a + b)[0] == a[0];
      ConcatAssoc(RedactSegment(a[0]), RedactSegments(a[1..]).content, RedactSegments(b).content);
    }
  }

  /** Text that ends with a line break, or nothing. */
  predicate EndsLine(s: string) {
    s == "" || s[|s| - 1] == '\n'
  }

  lemma {:induction false} SegmentsAppend(a: string, b: string)
    requires EndsLine(a)
    ensures Segments(a + b) == Segments(a) + Segments(b)
    decreases |a|
  {
    hide SegmentLength, Segments;
    SegmentsUnfold(a);
    SegmentsUnfold(a + b);
    if a == "" {
      assert a + b == b;
    } else {
      var n := SegmentLength(a);
      var s := a + b;
      FirstOfEnding(a, b);
      assert s[..n] == a[..n] && s[n..] == a[n..] + b;
      SegmentsAppend(a[n..], b);
      ConcatAssoc([a[..n]], Segments(a[n..]), Segments(b));
    }
  }

  lemma FirstOfEnding(a: string, b: string)
    requires a != "" && EndsLine(a)
    ensures SegmentLength(a + b) == SegmentLength(a) && EndsLine(a[SegmentLength(a)..])
  {
    hide SegmentLength;
    var n := SegmentLength(a);
    assert a[n - 1] == '\n';
    assert a[..n][..n - 1] == a[..n - 1];
    LengthOfTerminated(a[..n], a[n..] + b);
    assert a + b == a[..n] + (a[n..] + b);
  }

  /** A line in its context: what precedes ends a line, what follows begins one. */
  lemma RedactInContext(before: string, line: string, after: string)
    requires EndsLine(before) && line != "" && '\n' !in line && (after == "" || after[0] == '\n')
    ensures var rest := Redacted(if after == "" then "" else after[1..]);
      var r := Redacted(before + line + after);
      && r.content == Redacted(before).content + (RedactLine(line) + (if after == "" then "" else "\n") + rest.content)
      && r.redactions == Redacted(before).redactions + (if IsSensitive(line) then 1 else 0) + rest.redactions
  {
    hide IsSensitive, RedactLine;
    var newline := if after == "" then "" else "\n";
    var tail := if after == "" then "" else after[1..];
    var segment := line + newline;
    assert before + line + after == before + (segment + tail);
    SegmentsAppend(before, segment + tail);
    OneSegment(line, newline, tail);
    LineOfSegment(line, newline);
    RedactAppend(Segments(before), [segment] + Segments(tail));
    assert ([segment] + Segments(tail))[1..] == Segments(tail);
  }

  lemma OneSegment(line: string, newline: string, tail: string)
    requires line != "" && '\n' !in line && (newline == "\n" || (newline == "" && tail == ""))
    ensures Segments((line + newline) + tail) == [line + newline] + Segments(tail)
  {
    var segment := line + newline;
    if newline == "\n" {
      assert segment[..|segment| - 1] == line;
      LengthOfTerminated(segment, tail);
    } else {
      assert segment == line && segment + tail == line;
      LengthOfLine(line);
    }
    assert (segment + tail)[..|segment|] == segment && (segment + tail)[|segment|..] == tail;
  }

  /** Two values look alike to the redactor: both quoted with the same trailing comma, or both unquoted. */
  predicate SameShape(v: string, w: string) {
    && StartsWithQuote(Trim(v)) == StartsWithQuote(Trim(w))
    && (StartsWithQuote(Trim(v)) ==> EndsWith(Trim(v), ",") == EndsWith(Trim(w), ","))
  }

  predicate IsSensitiveHead(key: string, separator: char) {
    IsHead(key, separator) && '\n' !in key && IsSensitiveKey(Normalised(key))
  }

  lemma SensitiveValue(key: string, separator: char, value: string)
    requires IsSensitiveHead(key, separator) && Trim(value) != "" && '\n' !in value
    ensures var line := key + [separator] + value;
      IsSensitive(line) && '\n' !in line && RedactLine(line) == key + [separator] + Masked(Trim(value))
  {
    hide Masked, Normalised, IsSensitiveKey, Trim, IsSensitive, RedactLine;
    LineParts(key, separator, value);
  }

  /** The output and the count do not depend on a sensitive value: replacing it by another non-blank value
      of the same shape gives an identical result, and only the shape shows. */
  lemma SensitiveValueIsHidden(before: string, key: string, separator: char, v: string, w: string, after: string)
    requires EndsLine(before) && (after == "" || after[0] == '\n') && IsSensitiveHead(key, separator)
    requires Trim(v) != "" && '\n' !in v && Trim(w) != "" && '\n' !in w
    ensures var r := Redacted(before + (key + [separator] + v) + after);
      var r' := Redacted(before + (key + [separator] + w) + after);
      && r.redactions == r'.redactions
      && (r == r' <==> SameShape(v, w))
  {
    SensitiveValue(key, separator, v);
    SensitiveValue(key, separator, w);
    RedactInContext(before, key + [separator] + v, after);
    RedactInContext(before, key + [separator] + w, after);
    MasksDiffer(v, w);
    hide Masked, Normalised, IsSensitiveKey, Trim, RedactLine, IsSensitive, Redacted, SameShape;
    var head := Redacted(before).content;
    var tail := (if after == "" then "" else "\n") + Redacted(if after == "" then "" else after[1..]).content;
    MiddleDecides(head + (key + [separator]), Masked(Trim(v)), Masked(Trim(w)), tail);
    JoinFive(head, key + [separator], Masked(Trim(v)), if after == "" then "" else "\n",
             Redacted(if after == "" then "" else after[1..]).content);
    JoinFive(head, key + [separator], Masked(Trim(w)), if after == "" then "" else "\n",
             Redacted(if after == "" then "" else after[1..]).content);
  }

  lemma JoinFive(a: string, b: string, c: string, d: string, e: string)
    ensures a + ((b + c) + d + e) == (a + b) + c + (d + e)
  {
  }

  lemma MiddleDecides(a: string, m: string, n: string, b: string)
    ensures a + m + b == a + n + b <==> m == n
  {
    var s, t := a + m + b, a + n + b;
    if s == t {
      assert |m| == |n|;
      assert m == s[|a|..|a| + |m|] == n;
    }
  }

  lemma MasksDiffer(v: string, w: string)
    ensures Masked(Trim(v)) == Masked(Trim(w)) <==> SameShape(v, w)
  {
    hide Trim, EndsWith;
    var v', w' := Trim(v), Trim(w);
    assert |Quoted(MASK, true)| == 13 && |Quoted(MASK, false)| == 12 && |MASK| == 10;
    assert |Masked(v')| == if StartsWithQuote(v') then (if EndsWith(v', ",") then 14 else 13) else 10;
    assert |Masked(w')| == if StartsWithQuote(w') then (if EndsWith(w', ",") then 14 else 13) else 10;
  }
}
