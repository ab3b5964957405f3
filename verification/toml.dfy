// The TOML half of the agent-config editor: the plausibility scanner and the marker-based
// insert and remove of one owned fragment.

module TomlFragment {
  import opened Options
  import opened Texts
  import opened AgentConfig

  // ---------- the scanner as a specification ----------

  datatype Quote = NoQuote | Basic | Literal

  /** The local variables of the scanner between two characters. */
  datatype Scan = Scan(depth: int, quote: Quote, triple: bool, escaped: bool, comment: bool)

  const START_STATE := Scan(0, NoQuote, false, false, false)

  function Mark(quote: Quote): char {
    if quote.Basic? then '"' else '\''
  }

  /** Three equal characters start at index i. */
  predicate TripleAt(s: string, i: nat, c: char) {
    i + 2 < |s| && s[i] == c && s[i + 1] == c && s[i + 2] == c
  }

  /** One turn of the scanner's loop: the next index and variables, or None for a rejection. */
  function Turn(s: string, i: nat, v: Scan): (r: Option<(nat, Scan)>)
    requires i < |s|
    ensures r.Some? ==> i < r.value.0 <= |s|
  {
    var c := s[i];
    if v.comment then Some((i + 1, if c == '\n' then v.(comment := false) else v))
    else if v.quote.NoQuote? && c == '#' then Some((i + 1, v.(comment := true)))
    else if !v.quote.NoQuote? then
      if v.quote.Basic? && !v.triple && c == '\\' && !v.escaped then Some((i + 1, v.(escaped := true)))
      else if c == Mark(v.quote) && !v.escaped then
        if v.triple && TripleAt(s, i, c) then Some((i + 3, v.(quote := NoQuote, triple := false, escaped := false)))
        else if !v.triple then Some((i + 1, v.(quote := NoQuote, escaped := false)))
        else Some((i + 1, v.(escaped := false)))
      else if !v.triple && c == '\n' then None
      else Some((i + 1, v.(escaped := false)))
    else if c == '"' || c == '\'' then
      var entered := v.(quote := if c == '"' then Basic else Literal, triple := TripleAt(s, i, c));
      Some((if TripleAt(s, i, c) then i + 3 else i + 1, entered))
    else if c == '[' then Some((i + 1, v.(depth := v.depth + 1)))
    else if c == ']' then (if v.depth - 1 < 0 then None else Some((i + 1, v.(depth := v.depth - 1))))
    else Some((i + 1, v))
  }

  /** The variables at the end of the text, or None when the scanner rejects on the way. */
  function ScanFrom(s: string, i: nat, v: Scan): Option<Scan>
    requires i <= |s|
    decreases |s| - i
  {
    if i == |s| then Some(v)
    else match Turn(s, i, v)
      case None => None
      case Some((j, w)) => ScanFrom(s, j, w)
  }

  predicate Accepting(r: Option<Scan>) {
    r.Some? && r.value.quote.NoQuote? && r.value.depth == 0
  }

  predicate Plausible(s: string) {
    '\0' !in s && Accepting(ScanFrom(s, 0, START_STATE))
  }

  /** The scanner as the program runs it. */
  method IsPlausibleToml(source: string) returns (plausible: bool)
    ensures plausible == Plausible(source)
  {
    if '\0' in source { return false; }
    var squareDepth := 0;
    var quote := NoQuote;
    var triple, escaped, comment := false, false, false;
    var index := 0;
    while index < |source|
      invariant index <= |source|
      invariant ScanFrom(source, 0, START_STATE)
             == ScanFrom(source, index, Scan(squareDepth, quote, triple, escaped, comment))
    {
      var character := source[index];
      if comment {
        if character == '\n' { comment := false; }
        index := index + 1;
        continue;
      }
      if quote == NoQuote && character == '#' {
        comment := true;
        index := index + 1;
        continue;
      }
      var marker := if quote == Basic then '"' else '\'';
      if quote != NoQuote {
        if quote == Basic && !triple && character == '\\' && !escaped {
          escaped := true;
          index := index + 1;
          continue;
        }
        if character == marker && !escaped {
          if triple && TripleAt(source, index, marker) {
            quote := NoQuote;
            triple := false;
            index := index + 2;
          } else if !triple {
            quote := NoQuote;
          }
        } else if !triple && character == '\n' {
          return false;
        }
        escaped := false;
        index := index + 1;
        continue;
      }
      if character == '"' || character == '\'' {
        quote := if character == '"' then Basic else Literal;
        triple := TripleAt(source, index, character);
        if triple { index := index + 2; }
      } else if character == '[' {
        squareDepth := squareDepth + 1;
      } else if character == ']' {
        squareDepth := squareDepth - 1;
        if squareDepth < 0 { return false; }
      }
      index := index + 1;
    }
    return quote == NoQuote && squareDepth == 0;
  }

  // ---------- composition, in spite of the lookahead ----------

  predicate StartsWithQuote(s: string) {
    s != "" && (s[0] == '"' || s[0] == '\'')
  }

  predicate EndsWithQuote(s: string) {
    s != "" && (s[|s| - 1] == '"' || s[|s| - 1] == '\'')
  }

  /** No run of quote characters crosses the boundary between a and b. */
  predicate Separable(a: string, b: string) {
    !EndsWithQuote(a) || !StartsWithQuote(b)
  }

  lemma TurnIgnoresWhatFollows(a: string, b: string, i: nat, v: Scan)
    requires i < |a| && Separable(a, b)
    ensures Turn(a + b, i, v) == Turn(a, i, v)
  {
    var s := a + b;
    assert s[i] == a[i];
    if i + 1 < |a| { assert s[i + 1] == a[i + 1]; }
    if i + 2 < |a| { assert s[i + 2] == a[i + 2]; }
    if i + 2 < |s| && i + 2 >= |a| {
      assert s[|a|] == b[0] && s[|a| - 1] == a[|a| - 1];
    }
  }

  /** Scanning a text and then another is scanning their concatenation, as long as no run of quotes
      crosses the boundary. */
  lemma {:induction false} ScanPrefix(a: string, b: string, i: nat, v: Scan)
    requires i <= |a| && Separable(a, b)
    ensures ScanFrom(a + b, i, v) ==
      match ScanFrom(a, i, v) case None => None case Some(w) => ScanFrom(a + b, |a|, w)
    decreases |a| - i
  {
    if i < |a| {
      TurnIgnoresWhatFollows(a, b, i, v);
      match Turn(a, i, v)
      case None =>
      case Some((j, w)) => ScanPrefix(a, b, j, w);
    }
  }

  lemma {:induction false} ScanShift(a: string, b: string, i: nat, v: Scan)
    requires i <= |b|
    ensures ScanFrom(a + b, |a| + i, v) == ScanFrom(b, i, v)
    decreases |b| - i
  {
    if i < |b| {
      var s := a + b;
      forall k | 0 <= k < |b| ensures s[|a| + k] == b[k] {}
      match Turn(b, i, v)
      case None => assert Turn(s, |a| + i, v).None?;
      case Some((j, w)) =>
        assert Turn(s, |a| + i, v) == Some((|a| + j, w));
        ScanShift(a, b, j, w);
    }
  }

  function Then(r: Option<Scan>, b: string): Option<Scan> {
    match r case None => None case Some(w) => ScanFrom(b, 0, w)
  }

  lemma ScanConcat(a: string, b: string, v: Scan)
    requires Separable(a, b)
    ensures ScanFrom(a + b, 0, v) == Then(ScanFrom(a, 0, v), b)
  {
    ScanPrefix(a, b, 0, v);
    match ScanFrom(a, 0, v)
    case None =>
    case Some(w) => ScanShift(a, b, 0, w);
  }

  // ---------- trimming ----------

  /** ECMAScript white space and line terminators. */
  predicate IsSpace(c: char) {
    c == '\t' || c == '\n' || c == '\U{B}' || c == '\U{C}' || c == '\r' || c == ' ' || c == '\U{A0}' ||
    c == '\U{1680}' || '\U{2000}' <= c <= '\U{200A}' || c == '\U{2028}' || c == '\U{2029}' ||
    c == '\U{202F}' || c == '\U{205F}' || c == '\U{3000}' || c == '\U{FEFF}'
  }

  predicate Blank(s: string) {
    forall c | c in s :: IsSpace(c)
  }

  function TrimEnd(s: string): (r: string)
    ensures r <= s && Blank(s[|r|..])
    ensures r != "" ==> !IsSpace(r[|r| - 1])
  {
    if s != "" && IsSpace(s[|s| - 1]) then TrimEnd(s[..|s| - 1]) else s
  }

  function TrimStart(s: string): (r: string)
    ensures |r| <= |s| && r == s[|s| - |r|..] && Blank(s[..|s| - |r|])
    ensures r != "" ==> !IsSpace(r[0])
  {
    if s != "" && IsSpace(s[0]) then TrimStart(s[1..]) else s
  }

  function Trim(s: string): string {
    TrimStart(TrimEnd(s))
  }

  /** Blank text leaves a scanner outside quotes outside quotes, and never closes a quote. */
  lemma {:induction false} ScanBlank(s: string, i: nat, v: Scan)
    requires i <= |s| && Blank(s)
    ensures v.quote.NoQuote? ==>
      var r := ScanFrom(s, i, v);
      r.Some? && r.value == v.(comment := r.value.comment) && (r.value.comment ==> v.comment)
    ensures !v.quote.NoQuote? && !v.comment ==>
      var r := ScanFrom(s, i, v); r.Some? ==> !r.value.quote.NoQuote?
    decreases |s| - i
  {
    if i < |s| {
      assert s[i] in s;
      match Turn(s, i, v)
      case None =>
      case Some((j, w)) => ScanBlank(s, j, w);
    }
  }

  /** A comment is never open inside a quote. */
  predicate Sane(v: Scan) {
    !v.quote.NoQuote? ==> !v.comment
  }

  lemma {:induction false} ScanSane(s: string, i: nat, v: Scan)
    requires i <= |s| && Sane(v)
    ensures ScanFrom(s, i, v).Some? ==> Sane(ScanFrom(s, i, v).value)
    decreases |s| - i
  {
    if i < |s| {
      match Turn(s, i, v)
      case None =>
      case Some((j, w)) => ScanSane(s, j, w);
    }
  }

  lemma BlankNotQuote(s: string)
    requires Blank(s)
    ensures !StartsWithQuote(s) && !EndsWithQuote(s) && '\0' !in s
  {
    if s != "" { assert s[0] in s && s[|s| - 1] in s; }
    assert !IsSpace('\0');
  }

  /** Trailing white space does not change the verdict, from any sane starting point outside quotes. */
  lemma AcceptTrimEnd(s: string, v: Scan)
    requires Sane(v)
    ensures Accepting(ScanFrom(TrimEnd(s), 0, v)) <==> Accepting(ScanFrom(s, 0, v))
  {
    var t := TrimEnd(s);
    var b := s[|t|..];
    assert s == t + b;
    BlankNotQuote(b);
    ScanConcat(t, b, v);
    ScanSane(t, 0, v);
    match ScanFrom(t, 0, v)
    case None =>
    case Some(w) => ScanBlank(b, 0, w);
  }

  /** Nor does leading white space when the scanner starts outside quotes and comments. */
  lemma AcceptTrimStart(s: string, v: Scan)
    requires v.quote.NoQuote? && !v.comment
    ensures ScanFrom(TrimStart(s), 0, v) == ScanFrom(s, 0, v)
  {
    var t := TrimStart(s);
    var b := s[..|s| - |t|];
    assert s == b + t;
    BlankNotQuote(b);
    ScanConcat(b, t, v);
    ScanBlank(b, 0, v);
  }

  lemma NulInMiddle(a: string, m: string, b: string)
    requires '\0' !in a && '\0' !in b
    ensures '\0' in a + m + b <==> '\0' in m
  {
  }

  lemma TrimKeepsNul(s: string)
    ensures '\0' in Trim(s) <==> '\0' in s
  {
    hide TrimEnd, TrimStart, Blank;
    var e := TrimEnd(s);
    var t := TrimStart(e);
    var lead, trail := e[..|e| - |t|], s[|e|..];
    BlankNotQuote(trail);
    BlankNotQuote(lead);
    NulInMiddle(lead, t, trail);
    assert s == e + trail;
    assert e == lead + t;
  }

  /** Trimming a fragment does not change whether it is plausible. */
  lemma PlausibleTrim(s: string)
    ensures Plausible(Trim(s)) <==> Plausible(s)
  {
    TrimKeepsNul(s);
    AcceptTrimEnd(s, START_STATE);
    AcceptTrimStart(TrimEnd(s), START_STATE);
  }

  // ---------- mutateToml ----------

  // In pieces, because the verifier looks into short literals much faster.
  const OWNER := "token-shrinker: " + "owned adapter " + "fragment"
  const START := "# >>> " + OWNER + " >>>"
  const END := "# <<< " + OWNER + " <<<"

  datatype Result = Ok(text: Option<string>) | Err(error: Error)

  function Block(fragment: string): string {
    START + "\n" + Trim(fragment) + "\n" + END
  }

  /** `before` is None when the file does not exist; so is the result when it stays absent. */
  function MutateToml(before: Option<string>, fragment: string, action: Action): Result {
    Mutate(before, Block(fragment), Installed(SourceOf(before), fragment), action, START, END)
  }

  function SourceOf(before: Option<string>): string {
    if before.Some? then before.value else ""
  }

  /** The branches of the editor, for a given block, installed text and pair of markers. */
  function Mutate(before: Option<string>, block: string, installed: string, action: Action,
                  startMark: string, endMark: string): Result {
    var source := SourceOf(before);
    if !Plausible(source) || Contains(source, startMark) != Contains(source, endMark) then Err(MalformedConfig)
    else
      var start := IndexOf(source, startMark);
      var end := IndexOf(source, endMark);
      if start >= 0 && end < start then Err(MalformedConfig)
      else if action.Install? then
        if start >= 0 then
          if source[start..end + |endMark|] != block then Err(OwnershipConflict) else Ok(Some(source))
        else Ok(Some(installed))
      else if start < 0 then Ok(before)
      else Ok(Some(Joined(TrimEnd(source[..start]), TrimStart(source[end + |endMark|..]))))
  }

  /** The source with trailing white space replaced by one blank line, or nothing for a blank source. */
  function Head(source: string): string {
    TrimEnd(source) + (if Trim(source) != "" then "\n\n" else "")
  }

  function Installed(source: string, fragment: string): string {
    Head(source) + Block(fragment) + "\n"
  }

  function Joined(prefix: string, suffix: string): string {
    if prefix == "" && suffix == "" then ""
    else prefix + (if prefix != "" && suffix != "" then "\n\n" else "") + suffix + "\n"
  }

  predicate MarkerFree(s: string) {
    !Contains(s, START) && !Contains(s, END)
  }

  // ---------- the installed text is scanned again ----------

  /** Outside quotes the scanner's flags are at rest. */
  predicate Tidy(v: Scan) {
    v.quote.NoQuote? ==> !v.triple && !v.escaped
  }

  lemma {:induction false} ScanTidy(s: string, i: nat, v: Scan)
    requires i <= |s| && Tidy(v)
    ensures ScanFrom(s, i, v).Some? ==> Tidy(ScanFrom(s, i, v).value)
    decreases |s| - i
  {
    if i < |s| {
      match Turn(s, i, v)
      case None =>
      case Some((j, w)) => ScanTidy(s, j, w);
    }
  }

  lemma {:induction false} ScanComment(s: string, i: nat, v: Scan)
    requires i <= |s| && v.comment && '\n' !in s
    ensures ScanFrom(s, i, v) == Some(v)
    decreases |s| - i
  {
    if i < |s| {
      ScanComment(s, i + 1, v);
    }
  }

  /** A comment line leaves a scanner that is outside quotes where it was. */
  lemma {:induction false} ScanCommentLine(s: string, v: Scan)
    requires s != "" && s[0] == '#' && '\n' !in s && v.quote.NoQuote? && !v.comment
    ensures ScanFrom(s + "\n", 0, v) == Some(v)
  {
    ScanComment(s, 1, v.(comment := true));
    ScanConcat(s, "\n", v);
    assert ScanFrom("\n", 0, v.(comment := true)) == Some(v);
  }

  lemma {:induction false} QuoteStaysOpen(s: string, i: nat, v: Scan)
    requires i <= |s| && !v.quote.NoQuote? && !v.comment && '"' !in s && '\'' !in s
    ensures !Accepting(ScanFrom(s, i, v))
    decreases |s| - i
  {
    if i < |s| {
      assert s[i] in s;
      match Turn(s, i, v)
      case None =>
      case Some((j, w)) => QuoteStaysOpen(s, j, w);
    }
  }

  /** The text before the block brings the scanner back to its initial state. */
  lemma ScanHead(source: string)
    requires Plausible(source)
    ensures ScanFrom(Head(source), 0, START_STATE) == Some(START_STATE)
  {
    var t := TrimEnd(source);
    AcceptTrimEnd(source, START_STATE);
    if Trim(source) != "" {
      ScanTidy(t, 0, START_STATE);
      ScanConcat(t, "\n\n", START_STATE);
      var w := ScanFrom(t, 0, START_STATE).value;
      var w' := w.(comment := false);
      assert Turn("\n\n", 0, w) == Some((1, w'));
      assert Turn("\n\n", 1, w') == Some((2, w'));
      assert ScanFrom("\n\n", 0, w) == ScanFrom("\n\n", 1, w') == ScanFrom("\n\n", 2, w');
    } else if t != "" {
      TrimStartKeepsLast(t);
    }
  }

  lemma TrimStartKeepsLast(s: string)
    requires s != "" && !IsSpace(s[|s| - 1])
    ensures TrimStart(s) != ""
  {
    assert s[|s| - 1] in s;
    assert s[..|s|] == s;
  }

  const TAIL := "\n" + END + "\n"

  predicate CleanLine(s: string) {
    '\n' !in s && '\0' !in s && '"' !in s && '\'' !in s
  }

  lemma CleanConcat(a: string, b: string, c: string)
    requires CleanLine(a) && CleanLine(b) && CleanLine(c)
    ensures CleanLine(a + b + c)
  {
  }

  lemma OwnerClean()
    ensures CleanLine(OWNER)
  {
    assert CleanLine("token-shrinker: ");
    assert CleanLine("owned adapter ");
    assert CleanLine("fragment");
    CleanConcat("token-shrinker: ", "owned adapter ", "fragment");
  }

  lemma MarkersClean()
    ensures CleanLine(START) && CleanLine(END)
  {
    OwnerClean();
    assert CleanLine("# >>> ") && CleanLine("# <<< ") && CleanLine(" >>>") && CleanLine(" <<<");
    hide CleanLine;
    CleanConcat("# >>> ", OWNER, " >>>");
    CleanConcat("# <<< ", OWNER, " <<<");
  }

  lemma MarkerLines()
    ensures |START| == |END| && START != END && |TAIL| == |END| + 2
    ensures START[0] == END[0] == '#'
    ensures '\n' !in START && '\n' !in END && '\0' !in START && '\0' !in END
    ensures '"' !in TAIL && '\'' !in TAIL
  {
    MarkersClean();
    assert START[2] == '>' && END[2] == '<';
  }

  /** Scanning the closing marker line accepts exactly when the fragment was accepted. */
  lemma ScanTail(v: Scan)
    requires Sane(v)
    ensures Accepting(ScanFrom(TAIL, 0, v)) <==> v.quote.NoQuote? && v.depth == 0
  {
    MarkerLines();
    if v.quote.NoQuote? {
      var w := v.(comment := false);
      assert TAIL == "\n" + (END + "\n");
      ScanConcat("\n", END + "\n", v);
      assert ScanFrom("\n", 0, v) == Some(w);
      ScanCommentLine(END, w);
    } else {
      QuoteStaysOpen(TAIL, 0, v);
    }
  }

  lemma InstalledShape(source: string, fragment: string)
    ensures Installed(source, fragment) == Head(source) + ((START + "\n") + (Trim(fragment) + TAIL))
  {
    Reassociate(Head(source), START, "\n", Trim(fragment), END);
  }

  lemma Reassociate(head: string, start: string, nl: string, f: string, end: string)
    ensures head + (start + nl + f + nl + end) + nl == head + ((start + nl) + (f + (nl + end + nl)))
  {
  }

  lemma ScanBlock(f: string)
    ensures Accepting(ScanFrom((START + "\n") + (f + TAIL), 0, START_STATE))
       <==> Accepting(ScanFrom(f, 0, START_STATE))
  {
    MarkerLines();
    ScanCommentLine(START, START_STATE);
    ScanConcat(START + "\n", f + TAIL, START_STATE);
    ScanConcat(f, TAIL, START_STATE);
    ScanSane(f, 0, START_STATE);
    match ScanFrom(f, 0, START_STATE) {
      case None =>
      case Some(v) => ScanTail(v);
    }
  }

  lemma NulInConcat(a: string, b: string)
    ensures '\0' in a + b <==> '\0' in a || '\0' in b
  {
  }

  lemma NulInInstalled(source: string, fragment: string)
    requires '\0' !in source
    ensures '\0' in Installed(source, fragment) <==> '\0' in Trim(fragment)
  {
    MarkerLines();
    InstalledShape(source, fragment);
    hide TrimEnd, Installed, Trim, Blank;
    var f := Trim(fragment);
    NulInConcat(Head(source), (START + "\n") + (f + TAIL));
    NulInConcat(START + "\n", f + TAIL);
    NulInConcat(f, TAIL);
    assert '\0' !in TAIL && '\0' !in START + "\n";
    assert forall c | c in TrimEnd(source) :: c in source;
    assert '\0' !in Head(source);
  }

  /** The installed text passes the scanner exactly when the fragment does. */
  lemma InstalledIsPlausible(source: string, fragment: string)
    requires Plausible(source)
    ensures Plausible(Installed(source, fragment)) <==> Plausible(fragment)
  {
    hide ScanFrom, Trim, Installed, Head;
    var rest := (START + "\n") + (Trim(fragment) + TAIL);
    InstalledShape(source, fragment);
    ScanHead(source);
    assert !StartsWithQuote(rest) by {
      MarkerLines();
      assert rest[0] == START[0];
    }
    ScanConcat(Head(source), rest, START_STATE);
    ScanBlock(Trim(fragment));
    PlausibleTrim(fragment);
    NulInInstalled(source, fragment);
  }

  // ---------- where the markers are ----------

  function Line(x: string, rest: string): string {
    x + "\n" + rest
  }

  /** The three lines an install adds, for any pair of marker lines. */
  function Lines(start: string, f: string, end: string): string {
    Line(start, Line(f, Line(end, "")))
  }

  predicate MarkerPair(start: string, end: string) {
    start != "" && |start| == |end| && start != end && '\n' !in start && '\n' !in end
  }

  /** A text without line breaks occurs in a text only inside one of its lines. */
  lemma OccurrenceInLine(x: string, y: string, p: string, i: nat)
    requires p != "" && '\n' !in p && OccursAt(Line(x, y), p, i)
    ensures OccursAt(x, p, i) || (i > |x| && OccursAt(y, p, i - |x| - 1))
  {
    var s := Line(x, y);
    forall k | i <= k < i + |p| ensures s[k] in p {
      assert s[k] == s[i..i + |p|][k - i];
    }
    assert s[|x|] == '\n';
    if i + |p| <= |x| {
      assert s[i..i + |p|] == x[i..i + |p|];
    } else {
      assert s[i..i + |p|] == y[i - |x| - 1..i - |x| - 1 + |p|];
    }
  }

  lemma SliceOfSlice(s: string, lo: nat, hi: nat, i: nat, j: nat)
    requires lo <= hi <= |s| && i <= j <= hi - lo
    ensures s[lo..hi][i..j] == s[lo + i..lo + j]
  {
    var a, b := s[lo..hi][i..j], s[lo + i..lo + j];
    assert |a| == |b|;
    forall k | 0 <= k < |a| ensures a[k] == b[k] {}
  }

  lemma MiddleSlice(a: string, m: string, b: string)
    ensures var s := a + m + b; s[|a|..|a| + |m|] == m && s[..|a|] == a && s[|a| + |m|..] == b
  {
  }

  lemma AbsentFromPart(s: string, lo: nat, hi: nat, p: string, i: nat)
    requires lo <= hi <= |s| && !Contains(s, p)
    ensures !OccursAt(s[lo..hi], p, i)
  {
    if OccursAt(s[lo..hi], p, i) {
      SliceOfSlice(s, lo, hi, i, i + |p|);
      assert OccursAt(s, p, lo + i);
    }
  }

  lemma AbsentFromTrimmed(s: string, p: string, i: nat)
    requires !Contains(s, p)
    ensures !OccursAt(TrimEnd(s), p, i) && !OccursAt(Trim(s), p, i)
  {
    hide TrimEnd, TrimStart, Blank, OccursAt, Contains;
    var e := TrimEnd(s);
    var f := TrimStart(e);
    assert e == s[0..|e|];
    assert f == s[|e| - |f|..|e|];
    AbsentFromPart(s, 0, |e|, p, i);
    AbsentFromPart(s, |e| - |f|, |e|, p, i);
  }

  /** Inside the block each marker occurs once. */
  lemma OccurrenceInBlock(start: string, f: string, end: string, p: string, i: nat)
    requires MarkerPair(start, end) && (p == start || p == end)
    requires forall k: nat :: !OccursAt(f, p, k)
    requires OccursAt(Lines(start, f, end), p, i)
    ensures i == if p == start then 0 else |start| + |f| + 2
  {
    BlockUnfold(start, f, end);
    hide OccursAt, Line, Lines;
    OccurrenceInLine(start, Line(f, Line(end, "")), p, i);
    if i > |start| && OccursAt(Line(f, Line(end, "")), p, i - |start| - 1) {
      var j := i - |start| - 1;
      OccurrenceInLine(f, Line(end, ""), p, j);
      OccurrenceInLine(end, "", p, j - |f| - 1);
      OccurrenceTooShort(p, end, j - |f| - 1);
    }
    OccurrenceTooShort(p, start, i);
  }

  lemma BlockUnfold(start: string, f: string, end: string)
    ensures Lines(start, f, end) == Line(start, Line(f, Line(end, "")))
  {
  }

  /** A text as long as the one it occurs in is that text; nothing non-empty occurs in the empty text. */
  lemma OccurrenceTooShort(p: string, s: string, i: nat)
    requires p != ""
    ensures OccursAt(s, p, i) && |p| == |s| ==> i == 0 && p == s
    ensures forall k: nat :: !OccursAt("", p, k)
  {
  }

  lemma OccurrenceAfterGap(t: string, y: string, p: string, i: nat)
    requires p != "" && '\n' !in p && !OccursAt(t, p, i) && OccursAt(Line(t, Line("", y)), p, i)
    ensures i >= |t| + 2 && OccursAt(y, p, i - |t| - 2)
  {
    OccurrenceInLine(t, Line("", y), p, i);
    OccurrenceInLine("", y, p, i - |t| - 1);
  }

  lemma OccurrenceAfterHead(source: string, y: string, p: string, i: nat)
    requires p != "" && '\n' !in p && !Contains(source, p) && OccursAt(Head(source) + y, p, i)
    ensures i >= |Head(source)| && OccursAt(y, p, i - |Head(source)|)
  {
    var t := TrimEnd(source);
    if Trim(source) != "" {
      assert Head(source) + y == Line(t, Line("", y));
      AbsentFromTrimmed(source, p, i);
      OccurrenceAfterGap(t, y, p, i);
    } else {
      BlankHead(source);
      assert Head(source) + y == y;
    }
  }

  lemma BlankHead(source: string)
    requires Trim(source) == ""
    ensures Head(source) == "" && TrimEnd(source) == ""
  {
    hide TrimEnd, TrimStart, Blank, IsSpace;
    var t := TrimEnd(source);
    if t != "" {
      TrimStartKeepsLast(t);
    }
    assert t == "";
  }

  lemma BlockSlices(head: string, start: string, f: string, end: string)
    ensures var text := head + Lines(start, f, end); var h := |head|; var e := h + |start| + |f| + 2;
      && |text| == e + |end| + 1
      && text[h..h + |start|] == start && text[e..e + |end|] == end
      && text[h..e + |end|] == start + "\n" + f + "\n" + end
      && text[..h] == head && text[e + |end|..] == "\n"
  {
    BlockShapes(head, start, f, end);
    hide Lines;
    MiddleSlice(head, start, "\n" + f + "\n" + end + "\n");
    MiddleSlice(head + start + "\n" + f + "\n", end, "\n");
    MiddleSlice(head, start + "\n" + f + "\n" + end, "\n");
  }

  lemma BlockShapes(head: string, start: string, f: string, end: string)
    ensures head + Lines(start, f, end) == head + start + ("\n" + f + "\n" + end + "\n")
    ensures head + Lines(start, f, end) == (head + start + "\n" + f + "\n") + end + "\n"
    ensures head + Lines(start, f, end) == head + (start + "\n" + f + "\n" + end) + "\n"
  {
  }

  /** The first start marker is the block's own, whatever the fragment contains. */
  lemma StartPosition(source: string, start: string, f: string, end: string, text: string)
    requires MarkerPair(start, end) && !Contains(source, start) && text == Head(source) + Lines(start, f, end)
    ensures IndexOf(text, start) == |Head(source)|
  {
    hide Head, Lines;
    BlockSlices(Head(source), start, f, end);
    forall i: nat | OccursAt(text, start, i) ensures i >= |Head(source)| {
      OccurrenceAfterHead(source, Lines(start, f, end), start, i);
    }
    assert OccursAt(text, start, |Head(source)|);
  }

  /** The first end marker is the block's own when the fragment contains none. */
  lemma EndPosition(source: string, start: string, f: string, end: string, text: string)
    requires MarkerPair(start, end) && !Contains(source, end) && text == Head(source) + Lines(start, f, end)
    requires forall k: nat :: !OccursAt(f, end, k)
    ensures IndexOf(text, end) == |Head(source)| + |start| + |f| + 2
  {
    hide Head, Lines;
    BlockSlices(Head(source), start, f, end);
    var h := |Head(source)|;
    forall i: nat | OccursAt(text, end, i) ensures i == h + |start| + |f| + 2 {
      OccurrenceAfterHead(source, Lines(start, f, end), end, i);
      OccurrenceInBlock(start, f, end, end, i - h);
    }
    assert OccursAt(text, end, h + |start| + |f| + 2);
  }

  lemma InnerEnd(head: string, start: string, f: string, end: string, text: string, k: nat)
    requires text == head + Lines(start, f, end) && OccursAt(f, end, k)
    ensures OccursAt(text, end, |head| + |start| + 1 + k)
  {
    hide Lines;
    FragmentSlice(head, start, f, end);
    SliceOfSlice(text, |head| + |start| + 1, |head| + |start| + 1 + |f|, k, k + |end|);
  }

  lemma StartNotEnd(head: string, start: string, f: string, end: string, text: string)
    requires MarkerPair(start, end) && text == head + Lines(start, f, end)
    ensures !OccursAt(text, end, |head|)
  {
    BlockSlices(head, start, f, end);
    hide Lines;
  }

  /** An end marker inside the fragment comes first, and lies wholly before the block's own. */
  lemma EndInFragment(source: string, start: string, f: string, end: string, text: string, k: nat)
    requires MarkerPair(start, end) && !Contains(source, end) && text == Head(source) + Lines(start, f, end)
    requires OccursAt(f, end, k) && k + |end| <= |f|
    ensures var h := |Head(source)|; h < IndexOf(text, end) && IndexOf(text, end) + |end| < h + |start| + |f| + 2
  {
    hide Head, Lines, OccursAt, Contains;
    var h, e := |Head(source)|, IndexOf(text, end);
    InnerEnd(Head(source), start, f, end, text, k);
    StartNotEnd(Head(source), start, f, end, text);
    OccursWithin(text, end, h + |start| + 1 + k);
    OccurrenceAfterHead(source, Lines(start, f, end), end, e);
  }

  lemma FragmentSlice(head: string, start: string, f: string, end: string)
    ensures var text := head + Lines(start, f, end); var i := |head| + |start| + 1;
      i + |f| <= |text| && text[i..i + |f|] == f
  {
    BlockShapes(head, start, f, end);
    hide Lines;
    assert head + Lines(start, f, end) == (head + start + "\n") + f + ("\n" + end + "\n");
    MiddleSlice(head + start + "\n", f, "\n" + end + "\n");
  }

  lemma OccursInTrimEnd(s: string, p: string, i: nat)
    requires p != "" && !IsSpace(p[0]) && !IsSpace(p[|p| - 1]) && OccursAt(s, p, i)
    ensures OccursAt(TrimEnd(s), p, i)
  {
    hide TrimEnd, Blank, IsSpace;
    var e := TrimEnd(s);
    assert s[|e|..|s|] == s[|e|..] && s[0..|e|] == e;
    BlankHasNoMark(s, |e|, |s|, i + |p| - 1, p, i);
    SliceOfSlice(s, 0, |e|, i, i + |p|);
  }

  lemma OccursInTrimStart(s: string, p: string, i: nat)
    requires p != "" && !IsSpace(p[0]) && !IsSpace(p[|p| - 1]) && OccursAt(s, p, i)
    ensures var gap := |s| - |TrimStart(s)|; i >= gap && OccursAt(TrimStart(s), p, i - gap)
  {
    hide TrimStart, Blank, IsSpace;
    var gap := |s| - |TrimStart(s)|;
    assert s[0..gap] == s[..gap];
    BlankHasNoMark(s, 0, gap, i, p, i);
    SliceOfSlice(s, gap, |s|, i - gap, i - gap + |p|);
  }

  /** Trimming a fragment neither hides nor makes an end marker. */
  lemma MarkerSurvivesTrim(s: string, p: string)
    requires p != "" && !IsSpace(p[0]) && !IsSpace(p[|p| - 1])
    ensures Contains(Trim(s), p) <==> Contains(s, p)
  {
    hide TrimEnd, TrimStart, OccursAt;
    if i: nat :| i <= |s| && OccursAt(s, p, i) {
      OccursInTrimEnd(s, p, i);
      OccursInTrimStart(TrimEnd(s), p, i);
      var j := i - (|TrimEnd(s)| - |Trim(s)|);
      OccursWithin(Trim(s), p, j);
    } else {
      if j: nat :| j <= |Trim(s)| && OccursAt(Trim(s), p, j) {
        AbsentFromTrimmed(s, p, j);
      }
    }
  }

  lemma OccursWithin(s: string, p: string, i: nat)
    requires OccursAt(s, p, i)
    ensures i + |p| <= |s| && Contains(s, p)
  {
  }

  /** The first and the last character of an occurrence are not in a blank stretch. */
  lemma BlankHasNoMark(s: string, lo: nat, hi: nat, k: nat, p: string, i: nat)
    requires p != "" && !IsSpace(p[0]) && !IsSpace(p[|p| - 1]) && OccursAt(s, p, i)
    requires lo <= hi <= |s| && Blank(s[lo..hi]) && (k == i || k == i + |p| - 1)
    ensures !(lo <= k < hi)
  {
    assert s[k] == s[i..i + |p|][k - i];
    forall x | lo <= x < hi ensures IsSpace(s[x]) {
      assert s[lo..hi][x - lo] in s[lo..hi];
    }
  }

  /** A text that ends in a marked block, after a source without markers. */
  predicate Marked(source: string, start: string, f: string, end: string, text: string) {
    && MarkerPair(start, end) && !IsSpace(end[0]) && !IsSpace(end[|end| - 1])
    && !Contains(source, start) && !Contains(source, end)
    && text == Head(source) + Lines(start, f, end)
  }

  /** Where the markers are when the fragment has no end marker. */
  lemma OwnEnd(source: string, start: string, f: string, end: string, text: string)
    requires Marked(source, start, f, end, text) && !Contains(f, end)
    ensures var h, e := |Head(source)|, IndexOf(text, end);
      && IndexOf(text, start) == h < e && e + |end| + 1 == |text|
      && text[h..e + |end|] == start + "\n" + f + "\n" + end
      && text[..h] == Head(source) && text[e + |end|..] == "\n"
  {
    hide Head, Lines, OccursAt, IsSpace, IndexOf;
    StartPosition(source, start, f, end, text);
    forall k: nat ensures !OccursAt(f, end, k) {
      if OccursAt(f, end, k) {
        OccursWithin(f, end, k);
      }
    }
    EndPosition(source, start, f, end, text);
    BlockSlices(Head(source), start, f, end);
  }

  /** And where they are when it has one: the text between them is shorter than the block, and more than
      white space follows. */
  lemma EarlyEnd(source: string, start: string, f: string, end: string, text: string)
    requires Marked(source, start, f, end, text) && Contains(f, end)
    ensures var h, e := |Head(source)|, IndexOf(text, end);
      && IndexOf(text, start) == h < e && e + |end| <= |text|
      && e + |end| - h < |start| + |f| + |end| + 2
      && text[..h] == Head(source) && TrimStart(text[e + |end|..]) != ""
  {
    hide Head, Lines, OccursAt, IsSpace, IndexOf, Contains, TrimStart;
    StartPosition(source, start, f, end, text);
    var k := SomeOccurrence(f, end);
    EndInFragment(source, start, f, end, text, k);
    BlockSlices(Head(source), start, f, end);
    NotBlankAfter(text, end, IndexOf(text, end) + |end|, |Head(source)| + |start| + |f| + 2);
  }

  lemma SomeOccurrence(s: string, p: string) returns (k: nat)
    requires Contains(s, p)
    ensures OccursAt(s, p, k) && k + |p| <= |s|
  {
    k :| k <= |s| && OccursAt(s, p, k);
  }

  lemma NotBlankAfter(text: string, end: string, from: nat, own: nat)
    requires end != "" && !IsSpace(end[0]) && from <= own && own + |end| <= |text| && text[own..own + |end|] == end
    ensures TrimStart(text[from..]) != ""
  {
    hide TrimStart, IsSpace;
    var rest := text[from..];
    assert rest[own - from] == text[own] == end[0];
    assert rest[own - from] in rest;
    assert rest[..|rest|] == rest;
  }

  /** An installed text is marked, and its trimmed fragment has an end marker exactly when the fragment has. */
  lemma InstalledIsMarked(source: string, fragment: string)
    requires MarkerFree(source)
    ensures Marked(source, START, Trim(fragment), END, Installed(source, fragment))
    ensures Contains(Trim(fragment), END) <==> Contains(fragment, END)
    ensures Block(fragment) == START + "\n" + Trim(fragment) + "\n" + END
  {
    hide Trim, Head, Contains, Lines, IsSpace;
    MarkerLines();
    MarkerEnds();
    InstalledLines(Head(source), START, Trim(fragment), END);
    MarkerSurvivesTrim(fragment, END);
  }

  lemma MarkerEnds()
    ensures !IsSpace(END[0]) && !IsSpace(END[|END| - 1])
  {
    MarkerLines();
    var tail := " <<<";
    assert END[|END| - 1] == tail[3];
  }

  lemma InstalledLines(head: string, start: string, f: string, end: string)
    ensures head + (start + "\n" + f + "\n" + end) + "\n" == head + Lines(start, f, end)
  {
  }

  // ---------- the promises ----------

  /** A first install succeeds and writes the block after the source. */
  lemma InstallSucceeds(before: Option<string>, fragment: string)
    requires Plausible(SourceOf(before)) && MarkerFree(SourceOf(before))
    ensures MutateToml(before, fragment, Install) == Ok(Some(Installed(SourceOf(before), fragment)))
  {
  }

  /** After a first install, installing again returns the text unchanged exactly when the fragment is
      plausible and has no end marker. An implausible fragment leaves a file that the editor no longer
      accepts, one with an end marker a file whose fragment looks modified. */
  lemma ReinstallIsIdentity(before: Option<string>, fragment: string)
    requires MarkerFree(SourceOf(before)) && MutateToml(before, fragment, Install).Ok?
    ensures var first := MutateToml(before, fragment, Install);
      && first.text.Some?
      && MutateToml(first.text, fragment, Install) ==
           if !Plausible(fragment) then Err(MalformedConfig)
           else if Contains(fragment, END) then Err(OwnershipConflict)
           else first
  {
    hide Plausible, Installed, Contains, Mutate, MarkerFree, Marked, Block, Trim;
    var source := SourceOf(before);
    var text := Installed(source, fragment);
    InstallAccepted(before, fragment);
    InstallSucceeds(before, fragment);
    InstalledIsMarked(source, fragment);
    InstalledIsPlausible(source, fragment);
    if !Plausible(fragment) {
      InstallRefused(text, fragment);
    } else if Contains(fragment, END) {
      AgainOnEarlyEnd(source, START, Trim(fragment), END, text, Block(fragment), Installed(text, fragment));
    } else {
      AgainOnOwnBlock(source, START, Trim(fragment), END, text, Block(fragment), Installed(text, fragment));
    }
  }

  lemma InstallRefused(text: string, fragment: string)
    ensures !Plausible(text) ==> MutateToml(Some(text), fragment, Install) == Err(MalformedConfig)
  {
    hide Plausible, Contains;
  }

  /** The editor run again on a marked text whose fragment has no end marker. */
  lemma AgainOnOwnBlock(source: string, start: string, f: string, end: string, text: string, block: string, installed: string)
    requires Marked(source, start, f, end, text) && !Contains(f, end) && Plausible(text)
    requires block == start + "\n" + f + "\n" + end
    ensures Mutate(Some(text), block, installed, Install, start, end) == Ok(Some(text))
    ensures Mutate(Some(text), block, installed, Uninstall, start, end) == Ok(Some(Normalised(source)))
  {
    hide Plausible, Head, Lines, OccursAt, IsSpace, IndexOf, Contains, TrimStart, TrimEnd, Joined, Normalised, Marked;
    OwnEnd(source, start, f, end, text);
    TrimEndOfHead(source);
    JoinedAlone(source);
    UninstallCutsBlock(text, block, installed, start, end);
  }

  /** And on one whose fragment has an end marker. */
  lemma AgainOnEarlyEnd(source: string, start: string, f: string, end: string, text: string, block: string, installed: string)
    requires Marked(source, start, f, end, text) && Contains(f, end) && Plausible(text)
    requires block == start + "\n" + f + "\n" + end
    ensures Mutate(Some(text), block, installed, Install, start, end) == Err(OwnershipConflict)
    ensures Mutate(Some(text), block, installed, Uninstall, start, end) != Ok(Some(Normalised(source)))
  {
    hide Plausible, Head, Lines, OccursAt, IsSpace, IndexOf, Contains, TrimStart, TrimEnd, Joined, Normalised, Marked;
    EarlyEnd(source, start, f, end, text);
    TrimEndOfHead(source);
    UninstallCutsBlock(text, block, installed, start, end);
    JoinedWithRest(source, TrimStart(text[IndexOf(text, end) + |end|..]));
  }

  /** Both failures happen: an open bracket is implausible, and the end marker itself is a comment line. */
  lemma ReinstallFails()
    ensures var first := MutateToml(None, "[", Install);
      first.Ok? && MutateToml(first.text, "[", Install) == Err(MalformedConfig)
    ensures var first := MutateToml(None, END, Install);
      first.Ok? && MutateToml(first.text, END, Install) == Err(OwnershipConflict)
  {
    EmptySource();
    BracketIsOpen();
    EndIsPlausible();
    hide Plausible, Installed, Block;
    InstallSucceeds(None, "[");
    InstallSucceeds(None, END);
    ReinstallIsIdentity(None, "[");
    ReinstallIsIdentity(None, END);
  }

  lemma EmptySource()
    ensures Plausible("") && MarkerFree("")
  {
    MarkerLines();
    OccurrenceTooShort(START, "", 0);
    OccurrenceTooShort(END, "", 0);
  }

  lemma BracketIsOpen()
    ensures !Plausible("[")
  {
    assert Turn("[", 0, START_STATE) == Some((1, START_STATE.(depth := 1)));
  }

  lemma EndIsPlausible()
    ensures Plausible(END) && Contains(END, END)
  {
    MarkerLines();
    ScanComment(END, 1, START_STATE.(comment := true));
    assert OccursAt(END, END, 0);
  }

  /** The source with its trailing white space normalised: one line break, or empty when blank. */
  function Normalised(source: string): string {
    if Trim(source) == "" then "" else TrimEnd(source) + "\n"
  }

  lemma TrimEndSnoc(s: string, c: char)
    requires IsSpace(c)
    ensures TrimEnd(s + [c]) == TrimEnd(s)
  {
    assert (s + [c])[..|s|] == s;
  }

  lemma TrimEndBreaks(t: string)
    ensures TrimEnd(t + "\n") == TrimEnd(t) && TrimEnd(t + "\n\n") == TrimEnd(t)
  {
    TrimEndSnoc(t, '\n');
    TrimEndSnoc(t + ['\n'], '\n');
    assert t + "\n\n" == t + ['\n'] + ['\n'];
    assert t + "\n" == t + ['\n'];
  }

  lemma {:induction false} TrimEndIdempotent(s: string)
    ensures TrimEnd(TrimEnd(s)) == TrimEnd(s)
  {
  }

  lemma TrimEndOfHead(source: string)
    ensures TrimEnd(Head(source)) == TrimEnd(source)
    ensures TrimEnd(Normalised(source)) == TrimEnd(source)
  {
    var t := TrimEnd(source);
    TrimEndIdempotent(source);
    if Trim(source) == "" {
      BlankHead(source);
    } else {
      TrimEndBreaks(t);
    }
  }

  /** What uninstall does to any accepted text that carries an ordered pair of markers. */
  lemma UninstallCutsBlock(text: string, block: string, installed: string, startMark: string, endMark: string)
    requires Plausible(text) && 0 <= IndexOf(text, startMark) <= IndexOf(text, endMark)
    ensures Mutate(Some(text), block, installed, Uninstall, startMark, endMark) ==
      Ok(Some(Joined(TrimEnd(text[..IndexOf(text, startMark)]),
                     TrimStart(text[IndexOf(text, endMark) + |endMark|..]))))
  {
    hide TrimEnd, TrimStart, Joined, Plausible, OccursAt, Contains;
  }

  lemma JoinedAlone(source: string)
    ensures Joined(TrimEnd(source), TrimStart("\n")) == Normalised(source)
  {
    assert TrimStart("\n") == "" by {
      assert TrimStart("") == "";
    }
    var t := TrimEnd(source);
    if Trim(source) == "" {
      BlankHead(source);
    } else {
      assert |t| >= |Trim(source)| > 0;
      JoinedWithNothing(t);
    }
  }

  lemma JoinedWithNothing(t: string)
    requires t != ""
    ensures Joined(t, "") == t + "\n"
  {
    assert t + "" + "" == t;
  }

  /** Uninstalling what was installed gives the source back with its trailing white space normalised exactly
      when the fragment is plausible and has no end marker. */
  lemma UninstallAfterInstall(before: Option<string>, fragment: string)
    requires MarkerFree(SourceOf(before)) && MutateToml(before, fragment, Install).Ok?
    ensures var first := MutateToml(before, fragment, Install);
      && first.text.Some?
      && (MutateToml(first.text, fragment, Uninstall) == Ok(Some(Normalised(SourceOf(before)))) <==>
            Plausible(fragment) && !Contains(fragment, END))
  {
    hide Plausible, Installed, Contains, Normalised, Mutate, MarkerFree, Marked, Block, Trim;
    var source := SourceOf(before);
    var text := Installed(source, fragment);
    InstallAccepted(before, fragment);
    InstallSucceeds(before, fragment);
    InstalledIsMarked(source, fragment);
    InstalledIsPlausible(source, fragment);
    if !Plausible(fragment) {
      UninstallRefused(text, fragment);
    } else if Contains(fragment, END) {
      AgainOnEarlyEnd(source, START, Trim(fragment), END, text, Block(fragment), Installed(text, fragment));
    } else {
      AgainOnOwnBlock(source, START, Trim(fragment), END, text, Block(fragment), Installed(text, fragment));
    }
  }

  lemma InstallAccepted(before: Option<string>, fragment: string)
    ensures MutateToml(before, fragment, Install).Ok? ==> Plausible(SourceOf(before))
  {
    hide Plausible, Installed, Contains, Block;
  }

  lemma UninstallRefused(text: string, fragment: string)
    ensures !Plausible(text) ==> MutateToml(Some(text), fragment, Uninstall) == Err(MalformedConfig)
  {
    hide Plausible, Contains;
  }

  lemma JoinedWithRest(source: string, rest: string)
    requires rest != ""
    ensures Joined(TrimEnd(source), rest) != Normalised(source)
  {
    var t := TrimEnd(source);
    if Trim(source) == "" {
      BlankHead(source);
    } else {
      assert |Joined(t, rest)| > |t + "\n"|;
    }
  }

  /** A full cycle can be repeated: the uninstalled file is accepted, free of markers, and installing
      into it gives the same text again. */
  lemma CycleIsStable(source: string, fragment: string)
    requires Plausible(source) && MarkerFree(source)
    ensures var clean := Normalised(source);
      Plausible(clean) && MarkerFree(clean) && Installed(clean, fragment) == Installed(source, fragment)
  {
    var clean := Normalised(source);
    TrimEndOfHead(source);
    AcceptTrimEnd(clean, START_STATE);
    AcceptTrimEnd(source, START_STATE);
    assert '\0' !in TrimEnd(source) by {
      assert forall c | c in TrimEnd(source) :: c in source;
    }
    MarkerLines();
    AbsentFromNormalised(source, START);
    AbsentFromNormalised(source, END);
    assert Trim(clean) == Trim(source);
    assert Head(clean) == Head(source);
  }

  lemma AbsentFromNormalised(source: string, p: string)
    requires !Contains(source, p) && p != "" && '\n' !in p
    ensures !Contains(Normalised(source), p)
  {
    if i: nat :| OccursAt(Normalised(source), p, i) {
      if Trim(source) != "" {
        assert Normalised(source) == Line(TrimEnd(source), "");
        OccurrenceInLine(TrimEnd(source), "", p, i);
        AbsentFromTrimmed(source, p, i);
      }
    }
  }
}
