// What the TOML editor does to files in every state: with and without the block, with the user's own text around
// it, and with markers that do not fit together.

module TomlEdits {
  import opened Options
  import Texts
  import opened AgentConfig
  import opened TomlFragment

  // ---------- files without the block ----------

  /** Uninstalling from a file that does not hold the block gives the file back as it was, or leaves it absent. */
  lemma UninstallUntouched(before: Option<string>, fragment: string)
    requires Plausible(SourceOf(before)) && MarkerFree(SourceOf(before))
    ensures MutateToml(before, fragment, Uninstall) == Ok(before)
  {
    hide Plausible, Block, Installed;
  }

  /** A first install writes the block's three lines after the source, one blank line below what is not white space in
      it, and on their own when there is nothing. */
  lemma FirstInstall(before: Option<string>, fragment: string)
    requires Plausible(SourceOf(before)) && MarkerFree(SourceOf(before))
    ensures var s := SourceOf(before); var block := START + "\n" + Trim(fragment) + "\n" + END + "\n";
      MutateToml(before, fragment, Install) == Ok(Some(if Blank(s) then block else TrimEnd(s) + "\n\n" + block))
  {
    hide Plausible, MarkerFree, Installed, MutateToml, TrimEnd, TrimStart, Blank, Block, Trim, START, END;
    InstallSucceeds(before, fragment);
    BlockIs(fragment);
    InstalledIs(SourceOf(before), fragment, Block(fragment) + "\n");
  }

  lemma InstalledIs(s: string, fragment: string, block: string)
    requires block == Block(fragment) + "\n"
    ensures Installed(s, fragment) == if Blank(s) then block else TrimEnd(s) + "\n\n" + block
  {
    hide *;
    BlankEnds(s);
    BlankTrim(s);
    HeadAndBlock(s, fragment);
    if Blank(s) {
      ConcatThree("", Block(fragment), "\n");
      assert "" + block == block;
    } else {
      ConcatThree(TrimEnd(s) + "\n\n", Block(fragment), "\n");
    }
  }

  lemma HeadAndBlock(s: string, fragment: string)
    ensures Installed(s, fragment) == (if Trim(s) == "" then TrimEnd(s) else TrimEnd(s) + "\n\n") + Block(fragment) + "\n"
  {
    hide Trim, TrimEnd, Block;
    assert TrimEnd(s) + "" == TrimEnd(s);
  }

  lemma ConcatThree(a: string, b: string, c: string)
    ensures a + b + c == a + (b + c)
  {
  }

  lemma BlankTrim(s: string)
    ensures Trim(s) == "" <==> Blank(s)
  {
    hide TrimEnd, TrimStart, Blank;
    BlankEnds(s);
    BlankEnds(TrimEnd(s));
    if TrimEnd(s) != "" {
      LastIsNotBlank(TrimEnd(s));
    }
  }

  lemma LastIsNotBlank(t: string)
    requires t != "" && !IsSpace(t[|t| - 1])
    ensures !Blank(t)
  {
    assert t[|t| - 1] in t;
  }

  // ---------- text written after the block ----------

  lemma IndexOfExtends(a: string, b: string, p: string)
    requires Texts.Contains(a, p)
    ensures Texts.IndexOf(a + b, p) == Texts.IndexOf(a, p)
  {
    var i := Texts.IndexOf(a, p);
    assert (a + b)[i..i + |p|] == a[i..i + |p|];
    assert Texts.OccursAt(a + b, p, i);
    forall k: nat | k < i ensures !Texts.OccursAt(a + b, p, k) {
      assert (a + b)[k..k + |p|] == a[k..k + |p|];
      assert Texts.OccursAt(a + b, p, k) ==> Texts.OccursAt(a, p, k);
    }
    hide Texts.OccursAt;
    assert Texts.Contains(a + b, p);
  }

  /** An installed text brings the scanner back to its start, so that what follows is scanned on its own. */
  lemma ScanAfterInstalled(source: string, fragment: string, rest: string)
    requires Plausible(source) && Plausible(fragment)
    ensures Plausible(Installed(source, fragment) + rest) <==> Plausible(rest)
  {
    hide Installed, ScanFrom;
    InstalledIsPlausible(source, fragment);
    var text := Installed(source, fragment);
    var body := InstalledBody(source, fragment);
    assert text == body + "\n";
    EndOfLine(body);
    ScanConcat(text, rest, START_STATE);
  }

  lemma InstalledBody(source: string, fragment: string) returns (body: string)
    ensures Installed(source, fragment) == body + "\n"
  {
    body := Head(source) + Block(fragment);
  }

  /** After an accepted text that ends in a line break nothing is open. */
  lemma EndOfLine(body: string)
    requires Accepting(ScanFrom(body + "\n", 0, START_STATE))
    ensures ScanFrom(body + "\n", 0, START_STATE) == Some(START_STATE)
  {
    ScanConcat(body, "\n", START_STATE);
    ScanTidy(body, 0, START_STATE);
    var v := ScanFrom(body, 0, START_STATE).value;
    assert Turn("\n", 0, v).Some?;
    assert ScanFrom("\n", 0, v) == Some(Turn("\n", 0, v).value.1);
  }

  /** Text that the user wrote after the block survives an uninstall, and so does the text before it: both without
      the white space around the block, with one blank line between them. */
  lemma UserTextSurvives(source: string, fragment: string, rest: string, other: string)
    requires Plausible(source) && MarkerFree(source) && Plausible(fragment) && !Texts.Contains(fragment, END) && Plausible(rest)
    ensures var left := MutateToml(Some(Installed(source, fragment) + rest), other, Uninstall);
      var a, b := TrimEnd(source), TrimStart(rest);
      && (!Blank(source) && !Blank(rest) ==> left == Ok(Some(a + "\n\n" + b + "\n")))
      && (!Blank(source) && Blank(rest) ==> left == Ok(Some(a + "\n")))
      && (Blank(source) && !Blank(rest) ==> left == Ok(Some(b + "\n")))
      && (Blank(source) && Blank(rest) ==> left == Ok(Some("")))
  {
    var text := Installed(source, fragment);
    hide Plausible, Installed, Texts.Contains, MarkerFree, Marked, Block, Trim, TrimEnd, TrimStart, Texts.IndexOf, Joined, Texts.OccursAt, Head;
    InstalledIsMarked(source, fragment);
    ScanAfterInstalled(source, fragment, rest);
    CutBefore(source, START, Trim(fragment), END, text, rest, Block(other), Installed(text + rest, other));
    AfterBreak(rest);
    BlankEnds(source);
    BlankEnds(rest);
    JoinedParts(TrimEnd(source), TrimStart(rest));
  }

  /** The uninstall, for a given pair of markers. */
  lemma CutBefore(source: string, start: string, f: string, end: string, text: string, rest: string, block: string, installed: string)
    requires Marked(source, start, f, end, text) && !Texts.Contains(f, end) && Plausible(text + rest)
    ensures Mutate(Some(text + rest), block, installed, Uninstall, start, end) ==
      Ok(Some(Joined(TrimEnd(source), TrimStart("\n" + rest))))
  {
    hide Plausible, Head, Lines, Texts.OccursAt, IsSpace, Texts.IndexOf, Texts.Contains, TrimStart, TrimEnd, Joined, Marked, Mutate;
    OwnEnd(source, start, f, end, text);
    TrimEndOfHead(source);
    IndexOfExtends(text, rest, start);
    IndexOfExtends(text, rest, end);
    Parts(text, rest, |Head(source)|, Texts.IndexOf(text, end) + |end|);
    CutAt(text + rest, Head(source), "\n" + rest, block, installed, start, end);
  }

  lemma CutAt(whole: string, head: string, tail: string, block: string, installed: string, start: string, end: string)
    requires Plausible(whole) && 0 <= Texts.IndexOf(whole, start) <= Texts.IndexOf(whole, end)
    requires whole[..Texts.IndexOf(whole, start)] == head
    requires Texts.IndexOf(whole, end) + |end| <= |whole| && whole[Texts.IndexOf(whole, end) + |end|..] == tail
    ensures Mutate(Some(whole), block, installed, Uninstall, start, end) == Ok(Some(Joined(TrimEnd(head), TrimStart(tail))))
  {
    hide Plausible, Texts.OccursAt, Texts.IndexOf, Texts.Contains, TrimStart, TrimEnd, Joined, Mutate;
    UninstallCutsBlock(whole, block, installed, start, end);
  }

  lemma Parts(text: string, rest: string, h: nat, e: nat)
    requires h <= |text| && e <= |text|
    ensures (text + rest)[..h] == text[..h] && (text + rest)[e..] == text[e..] + rest
  {
  }

  lemma AfterBreak(rest: string)
    ensures TrimStart("\n" + rest) == TrimStart(rest)
  {
    assert ("\n" + rest)[1..] == rest;
  }

  lemma BlankEnds(s: string)
    ensures Blank(s) <==> TrimEnd(s) == ""
    ensures Blank(s) <==> TrimStart(s) == ""
  {
    BlankEnd(s);
    BlankStart(s);
  }

  lemma BlankEnd(s: string)
    ensures Blank(s) <==> TrimEnd(s) == ""
  {
    hide IsSpace, TrimEnd;
    var t := TrimEnd(s);
    assert s == t + s[|t|..];
    if t != "" {
      assert t[|t| - 1] in s;
    }
  }

  lemma BlankStart(s: string)
    ensures Blank(s) <==> TrimStart(s) == ""
  {
    hide IsSpace, TrimStart;
    var u := TrimStart(s);
    assert s == s[..|s| - |u|] + u;
    if u != "" {
      assert u[0] in s;
    }
  }

  lemma JoinedParts(a: string, b: string)
    ensures a != "" && b != "" ==> Joined(a, b) == a + "\n\n" + b + "\n"
    ensures a != "" && b == "" ==> Joined(a, b) == a + "\n"
    ensures a == "" && b != "" ==> Joined(a, b) == b + "\n"
    ensures a == "" && b == "" ==> Joined(a, b) == ""
  {
    assert a + "" + b + "\n" == a + b + "\n";
    if b == "" {
      assert a + b == a;
    }
    if a == "" {
      assert a + b == b;
    }
  }

  // ---------- another fragment ----------

  /** Over an installed block another fragment is refused as a conflict, unless the two differ in surrounding white
      space only. */
  lemma OtherFragmentIsRefused(before: Option<string>, fragment: string, other: string)
    requires MarkerFree(SourceOf(before)) && MutateToml(before, fragment, Install).Ok?
    requires Plausible(fragment) && !Texts.Contains(fragment, END)
    ensures var first := MutateToml(before, fragment, Install);
      MutateToml(first.text, other, Install) == if Trim(other) == Trim(fragment) then first else Err(OwnershipConflict)
  {
    hide Plausible, Installed, Texts.Contains, Mutate, MarkerFree, Marked, Block, Trim;
    var source := SourceOf(before);
    var text := Installed(source, fragment);
    InstallAccepted(before, fragment);
    InstallSucceeds(before, fragment);
    InstalledIsMarked(source, fragment);
    InstalledIsMarked(source, other);
    InstalledIsPlausible(source, fragment);
    AgainstBlock(source, START, Trim(fragment), END, text, Trim(other), Block(other), Installed(text, other));
  }

  lemma AgainstBlock(source: string, start: string, f: string, end: string, text: string, other: string, block: string, installed: string)
    requires Marked(source, start, f, end, text) && !Texts.Contains(f, end) && Plausible(text)
    requires block == start + "\n" + other + "\n" + end
    ensures Mutate(Some(text), block, installed, Install, start, end) == if other == f then Ok(Some(text)) else Err(OwnershipConflict)
  {
    hide Plausible, Head, Lines, Texts.OccursAt, IsSpace, Texts.IndexOf, Texts.Contains, Marked;
    OwnEnd(source, start, f, end, text);
    SameBlock(start, f, other, end);
  }

  lemma SameBlock(start: string, f: string, other: string, end: string)
    ensures start + "\n" + f + "\n" + end == start + "\n" + other + "\n" + end <==> f == other
  {
    var x, y := start + "\n" + f + "\n" + end, start + "\n" + other + "\n" + end;
    if x == y {
      assert |f| == |other|;
      forall k | 0 <= k < |f| ensures f[k] == other[k] {
        assert x[|start| + 1 + k] == f[k] && y[|start| + 1 + k] == other[k];
      }
    }
  }

  // ---------- when an edit is refused ----------

  /** A file is refused as malformed exactly when the scanner rejects it, only one of the markers is there, or the
      first end marker comes before the first start marker; the action does not matter. */
  lemma MalformedExactly(before: Option<string>, fragment: string, action: Action)
    ensures var s := SourceOf(before);
      MutateToml(before, fragment, action) == Err(MalformedConfig) <==>
        || !Plausible(s)
        || (Texts.Contains(s, START) && !Texts.Contains(s, END))
        || (Texts.Contains(s, END) && !Texts.Contains(s, START))
        || (Texts.Contains(s, START) && Texts.Contains(s, END) && Texts.IndexOf(s, END) < Texts.IndexOf(s, START))
  {
    hide Plausible, Block, Installed;
  }

  /** A file is refused as modified exactly when it is well formed, something is to be installed, and the text from
      its start marker to its end marker is not the block. */
  lemma ConflictExactly(before: Option<string>, fragment: string, action: Action)
    ensures var s := SourceOf(before);
      MutateToml(before, fragment, action) == Err(OwnershipConflict) <==>
        && Plausible(s) && action.Install? && Texts.Contains(s, START) && Texts.Contains(s, END)
        && Texts.IndexOf(s, START) <= Texts.IndexOf(s, END)
        && s[Texts.IndexOf(s, START)..Texts.IndexOf(s, END) + |END|] != START + "\n" + Trim(fragment) + "\n" + END
  {
    hide Plausible, Installed, Mutate, Texts.IndexOf, Texts.Contains, Trim;
    ConflictOf(before, Block(fragment), Installed(SourceOf(before), fragment), action, START, END);
    BlockIs(fragment);
  }

  lemma BlockIs(fragment: string)
    ensures Block(fragment) == START + "\n" + Trim(fragment) + "\n" + END
  {
    hide Trim;
  }

  lemma ConflictOf(before: Option<string>, block: string, installed: string, action: Action, start: string, end: string)
    ensures var s := SourceOf(before);
      Mutate(before, block, installed, action, start, end) == Err(OwnershipConflict) <==>
        && Plausible(s) && action.Install? && Texts.Contains(s, start) && Texts.Contains(s, end)
        && Texts.IndexOf(s, start) <= Texts.IndexOf(s, end)
        && s[Texts.IndexOf(s, start)..Texts.IndexOf(s, end) + |end|] != block
  {
    hide Plausible, Texts.Contains;
  }
}
