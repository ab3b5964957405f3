// Which lines the two compressors single out, told by the words in them.

module LineKinds {
  import opened Options
  import opened Texts
  import opened LineSplitting
  import Extractive
  import Capture

  // ---------- a word in any letter case ----------

  predicate SpelledAt(text: string, word: string, i: nat) {
    i + |word| <= |text| && forall k | 0 <= k < |word| :: SameLetter(text[i + k], word[k])
  }

  /** The word occurs in the text, in any letter case. */
  predicate Mentions(text: string, word: string) {
    exists i | 0 <= i <= |text| :: SpelledAt(text, word, i)
  }

  lemma MentionsIsContains(text: string, word: string)
    ensures Mentions(text, word) <==> Contains(Lower(text), Lower(word))
  {
    var t, w := Lower(text), Lower(word);
    forall i: nat ensures SpelledAt(text, word, i) <==> OccursAt(t, w, i) {
      SpelledIsOccurs(text, word, i);
    }
    hide SpelledAt, OccursAt, Lower;
    if i: nat :| i <= |text| && SpelledAt(text, word, i) {
      assert OccursAt(t, w, i);
    }
    if i: nat :| i <= |t| && OccursAt(t, w, i) {
      assert SpelledAt(text, word, i);
    }
  }

  lemma SpelledIsOccurs(text: string, word: string, i: nat)
    ensures SpelledAt(text, word, i) <==> OccursAt(Lower(text), Lower(word), i)
  {
    var t, w := Lower(text), Lower(word);
    if i + |word| <= |text| {
      forall k | 0 <= k < |word| ensures SameLetter(text[i + k], word[k]) <==> t[i..i + |w|][k] == w[k] {
        SameLetterIsLower(text[i + k], word[k]);
      }
    }
  }

  /** A word that is written in lower case. */
  lemma MentionsLower(text: string, word: string)
    requires Lower(word) == word
    ensures Mentions(text, word) <==> Contains(Lower(text), word)
  {
    MentionsIsContains(text, word);
  }

  predicate MentionsAny(text: string, words: seq<string>) {
    exists w | w in words :: Mentions(text, w)
  }

  // ---------- important lines of a source ----------

  const DIAGNOSTICS := ["error", "warning", "panicked", "assertion failed"]
  const DEFINITIONS := ["class ", "def ", "fn ", "function ", "interface ", "pub fn ", "struct "]

  /** A query term or a diagnostic word, in any letter case. */
  predicate IsSought(text: string, terms: seq<string>) {
    (exists t | t in terms :: t != "" && Mentions(text, t)) || MentionsAny(text, DIAGNOSTICS)
  }

  predicate IsDefinition(text: string) {
    exists w | w in DEFINITIONS :: w <= text
  }

  lemma MatchesExactly(text: string, terms: seq<string>)
    ensures Extractive.Matches(Lower(text), terms) <==> exists t | t in terms :: t != "" && Mentions(text, t)
  {
    forall t | t in terms ensures Mentions(text, t) <==> Contains(Lower(text), Lower(t)) {
      MentionsIsContains(text, t);
    }
    hide Mentions, Contains;
  }

  lemma DiagnosticExactly(text: string)
    ensures Extractive.Diagnostic(Lower(text)) <==> MentionsAny(text, DIAGNOSTICS)
  {
    DiagnosticsAreLower();
    MentionsLower(text, "error");
    MentionsLower(text, "warning");
    MentionsLower(text, "panicked");
    MentionsLower(text, "assertion failed");
    hide Mentions, Contains, Lower;
    assert DIAGNOSTICS[0] == "error" && DIAGNOSTICS[1] == "warning" && DIAGNOSTICS[2] == "panicked";
    assert DIAGNOSTICS[3] == "assertion failed";
  }

  lemma DiagnosticsAreLower()
    ensures Lower("error") == "error" && Lower("warning") == "warning" && Lower("panicked") == "panicked"
    ensures Lower("assertion failed") == "assertion failed"
  {
  }

  lemma DefinitionExactly(text: string)
    ensures Extractive.Definition(text) <==> IsDefinition(text)
  {
    var all := DEFINITIONS;
    assert |all| == 7 && all[0] == "class " && all[1] == "def " && all[2] == "fn " && all[3] == "function ";
    assert all[4] == "interface " && all[5] == "pub fn " && all[6] == "struct ";
    assert all[0] in all && all[1] in all && all[2] in all && all[3] in all && all[4] in all && all[5] in all && all[6] in all;
    if w :| w in all && w <= text {
      var k :| 0 <= k < 7 && all[k] == w;
    }
  }

  /** The class of a line by its text without leading white space: 0 when it mentions a term or a diagnostic word, else
      1 when it begins with a definition keyword, else 2 when it begins with '#'; any other line is not important. */
  lemma ClassExactly(line: Bytes, terms: seq<string>)
    ensures var text := TrimStart(AsciiText(line)); var kind := Extractive.Class(line, terms);
      && (kind == Some(0) <==> IsSought(text, terms))
      && (kind == Some(1) <==> !IsSought(text, terms) && IsDefinition(text))
      && (kind == Some(2) <==> !IsSought(text, terms) && !IsDefinition(text) && text != "" && text[0] == '#')
  {
    var text := TrimStart(AsciiText(line));
    hide Mentions, MentionsAny, Contains, Extractive.Matches, Extractive.Diagnostic, Extractive.Definition, IsDefinition, TrimStart, AsciiText;
    MatchesExactly(text, terms);
    DiagnosticExactly(text);
    DefinitionExactly(text);
    assert "#" <= text <==> text != "" && text[0] == '#';
  }

  // ---------- evidence lines of program output ----------

  const EVIDENCE := ["error", "warning", "failed", "failure", "panicked", "assert"]

  lemma {:induction false} LastColonExactly(line: string)
    ensures forall k | Capture.LastColon(line) < k < |line| :: line[k] != ':'
    decreases |line|
  {
    if line != "" && line[|line| - 1] != ':' {
      var shorter := line[..|line| - 1];
      LastColonExactly(shorter);
      assert Capture.LastColon(line) == Capture.LastColon(shorter);
      hide Capture.LastColon;
      assert forall k | 0 <= k < |shorter| :: shorter[k] == line[k];
    }
  }

  /** What a reference is made of. */
  predicate AreParts(line: string, path: string, number: string) {
    line == path + ":" + number && ':' !in number && ParseU32(Trim(number)).Some? && ('/' in path || '\\' in path)
  }

  /** `path:number`, where the path has a separator; white space around the number is allowed. */
  ghost predicate IsReference(line: string) {
    exists path, number :: AreParts(line, path, number)
  }

  lemma PartsAreReference(line: string, path: string, number: string)
    requires AreParts(line, path, number)
    ensures Capture.HasFileLineReference(line)
  {
    hide ParseU32, Trim, Capture.LastColon;
    ColonIs(line, path, number);
  }

  lemma ReferenceHasParts(line: string)
    requires Capture.HasFileLineReference(line)
    ensures var i := Capture.LastColon(line); i >= 0 && AreParts(line, line[..i], line[i + 1..])
  {
    hide ParseU32, Trim, Capture.LastColon;
    var i := Capture.LastColon(line);
    LastColonExactly(line);
    assert line == line[..i] + ":" + line[i + 1..];
  }

  lemma ReferenceExactly(line: string)
    ensures Capture.HasFileLineReference(line) <==> IsReference(line)
  {
    hide AreParts, Capture.HasFileLineReference;
    if Capture.HasFileLineReference(line) {
      ReferenceHasParts(line);
    }
    if path, number :| AreParts(line, path, number) {
      PartsAreReference(line, path, number);
    }
  }

  lemma ColonIs(line: string, path: string, number: string)
    requires line == path + ":" + number && ':' !in number
    ensures Capture.LastColon(line) == |path| && line[..|path|] == path && line[|path| + 1..] == number
  {
    var i := Capture.LastColon(line);
    LastColonExactly(line);
    assert line[|path|] == ':' && line[|path| + 1..] == number && line[..|path|] == path;
    assert i >= 0;
    forall k | |path| < k < |line| ensures line[k] != ':' {
      assert line[k] == number[k - |path| - 1];
    }
  }

  /** A line is evidence exactly when it mentions one of six words in any letter case, or is a file reference. */
  lemma ActionableExactly(line: string)
    ensures Capture.IsActionable(line) <==> MentionsAny(line, EVIDENCE) || IsReference(line)
  {
    ReferenceExactly(line);
    EvidenceIsLower();
    MentionsLower(line, "error");
    MentionsLower(line, "warning");
    MentionsLower(line, "failed");
    MentionsLower(line, "failure");
    MentionsLower(line, "panicked");
    MentionsLower(line, "assert");
    hide Mentions, Contains, Lower, IsReference, Capture.HasFileLineReference;
    assert EVIDENCE[0] == "error" && EVIDENCE[1] == "warning" && EVIDENCE[2] == "failed" && EVIDENCE[3] == "failure";
    assert EVIDENCE[4] == "panicked" && EVIDENCE[5] == "assert";
  }

  lemma EvidenceIsLower()
    ensures Lower("error") == "error" && Lower("warning") == "warning" && Lower("failed") == "failed"
    ensures Lower("failure") == "failure" && Lower("panicked") == "panicked" && Lower("assert") == "assert"
  {
  }
}
