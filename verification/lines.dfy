// Splitting bytes into lines, as the streaming compressor and `str::lines` both do.

module LineSplitting {
  import opened Texts
  type Byte = b: int | 0 <= b < 256
  type Bytes = seq<Byte>

  const NEWLINE: Byte := 10
  const RETURN: Byte := 13

  // ---------- splitting a stream into lines ----------

  /** Index of the first line break, or the length. */
  function LineEnd(bytes: Bytes): (i: nat)
    ensures i <= |bytes| && NEWLINE !in bytes[..i]
    ensures i < |bytes| ==> bytes[i] == NEWLINE
    ensures NEWLINE in bytes ==> i < |bytes|
  {
    if bytes == [] || bytes[0] == NEWLINE then 0
    else
      var i := 1 + LineEnd(bytes[1..]);
      assert bytes[..i] == [bytes[0]] + bytes[1..][..i - 1];
      i
  }

  /** One carriage return before the line break belongs to the break. */
  function Chop(line: Bytes): Bytes {
    if line != [] && line[|line| - 1] == RETURN then line[..|line| - 1] else line
  }

  /** The terminated lines of a stream. */
  function Complete(bytes: Bytes): seq<Bytes> {
    var i := LineEnd(bytes);
    if i == |bytes| then [] else [Chop(bytes[..i])] + Complete(bytes[i + 1..])
  }

  /** What follows the last line break. */
  function Rest(bytes: Bytes): (r: Bytes)
    ensures NEWLINE !in r
  {
    var i := LineEnd(bytes);
    if i == |bytes| then
      assert bytes[..i] == bytes;
      bytes
    else Rest(bytes[i + 1..])
  }

  /** The unterminated last line, if any. */
  function LastLine(bytes: Bytes): seq<Bytes> {
    if Rest(bytes) != [] then [Rest(bytes)] else []
  }

  /** Every line of a finished text, as `str::lines` gives them; an unterminated last line keeps its
      carriage return. */
  function AllLines(bytes: Bytes): seq<Bytes> {
    Complete(bytes) + LastLine(bytes)
  }

  lemma LineEndOfConcat(a: Bytes, b: Bytes)
    ensures LineEnd(a) < |a| ==> LineEnd(a + b) == LineEnd(a)
    ensures NEWLINE !in a ==> LineEnd(a) == |a|
  {
    if a != [] {
      assert (a + b)[1..] == a[1..] + b;
      LineEndOfConcat(a[1..], b);
      assert NEWLINE !in a ==> NEWLINE !in a[1..];
    }
  }

  lemma FirstLine(a: Bytes)
    requires NEWLINE in a
    ensures var i := LineEnd(a);
      Complete(a) == [Chop(a[..i])] + Complete(a[i + 1..]) && Rest(a) == Rest(a[i + 1..])
  {
    hide Chop, LineEnd, Complete, Rest;
    var i := LineEnd(a);
    CompleteIs(a, i);
    RestIs(a, i);
  }

  lemma CompleteIs(a: Bytes, i: nat)
    requires i == LineEnd(a) < |a|
    ensures Complete(a) == [Chop(a[..i])] + Complete(a[i + 1..])
  {
    hide Chop, LineEnd;
  }

  lemma RestIs(a: Bytes, i: nat)
    requires i == LineEnd(a) < |a|
    ensures Rest(a) == Rest(a[i + 1..])
  {
    hide Chop, LineEnd;
  }

  lemma NoBreakMeansNoLine(a: Bytes)
    requires NEWLINE !in a
    ensures Complete(a) == [] && Rest(a) == a
  {
    LineEndOfConcat(a, []);
  }

  /** A stream cut anywhere, inside a line or between the two bytes of a line break, gives the same
      lines when the unfinished part is carried over. */
  lemma {:induction false} SplitConcat(a: Bytes, b: Bytes)
    ensures Complete(a + b) == Complete(a) + Complete(Rest(a) + b)
    ensures Rest(a + b) == Rest(Rest(a) + b)
    decreases |a|
  {
    hide Chop, LineEnd, Complete, Rest;
    if NEWLINE in a {
      var i, s := LineEnd(a), a + b;
      var line, tail := Chop(a[..i]), a[i + 1..];
      LineEndOfConcat(a, b);
      assert s[..i] == a[..i];
      assert s[i + 1..] == tail + b;
      FirstLine(a);
      FirstLine(s);
      SplitConcat(tail, b);
      ConcatAssoc([line], Complete(tail), Complete(Rest(tail) + b));
    } else {
      NoBreakMeansNoLine(a);
    }
  }

  /** Lines joined by line breaks. */
  function Join(lines: seq<Bytes>): Bytes {
    if lines == [] then []
    else if |lines| == 1 then lines[0]
    else lines[0] + [NEWLINE] + Join(lines[1..])
  }

  // ---------- what joining the lines again loses ----------

  function FinalBreak(bytes: Bytes): Bytes {
    if bytes != [] && bytes[|bytes| - 1] == NEWLINE then [NEWLINE] else []
  }

  /** A carriage return stands right before a line break. */
  predicate HasReturnBreak(bytes: Bytes) {
    exists i | 0 <= i < |bytes| - 1 :: bytes[i] == RETURN && bytes[i + 1] == NEWLINE
  }

  /** The text without the carriage return, if any, right before each line break. */
  function Strip(bytes: Bytes): (r: Bytes)
    ensures |r| <= |bytes|
  {
    if bytes == [] then []
    else if |bytes| > 1 && bytes[0] == RETURN && bytes[1] == NEWLINE then Strip(bytes[1..])
    else [bytes[0]] + Strip(bytes[1..])
  }

  lemma AllLinesFirst(bytes: Bytes)
    requires NEWLINE in bytes
    ensures var i := LineEnd(bytes); AllLines(bytes) == [Chop(bytes[..i])] + AllLines(bytes[i + 1..])
  {
    hide Chop, LineEnd;
    FirstLine(bytes);
    var i := LineEnd(bytes);
    ConcatAssoc([Chop(bytes[..i])], Complete(bytes[i + 1..]), LastLine(bytes[i + 1..]));
  }

  lemma AllLinesLast(bytes: Bytes)
    requires NEWLINE !in bytes
    ensures AllLines(bytes) == (if bytes == [] then [] else [bytes]) && FinalBreak(bytes) == []
  {
    NoBreakMeansNoLine(bytes);
    LineEndOfConcat(bytes, []);
    assert bytes != [] ==> bytes[|bytes| - 1] in bytes;
  }

  lemma NoLinesOnlyOfNothing(bytes: Bytes)
    ensures AllLines(bytes) == [] <==> bytes == []
  {
    hide Chop, LineEnd;
    if NEWLINE in bytes {
      AllLinesFirst(bytes);
    } else {
      AllLinesLast(bytes);
    }
  }

  lemma JoinCons(line: Bytes, rest: seq<Bytes>)
    ensures Join([line] + rest) == if rest == [] then line else line + [NEWLINE] + Join(rest)
  {
    assert ([line] + rest)[1..] == rest;
  }

  /** The lines of a text joined again, with the final line break the text has. */
  function Rejoined(bytes: Bytes): Bytes {
    Join(AllLines(bytes)) + FinalBreak(bytes)
  }

  lemma FinalBreakStep(head: Bytes, tail: Bytes)
    ensures FinalBreak(head + [NEWLINE] + tail) == if tail == [] then [NEWLINE] else FinalBreak(tail)
  {
    var whole := head + [NEWLINE] + tail;
    assert tail != [] ==> whole[|whole| - 1] == tail[|tail| - 1];
  }

  lemma RejoinedFirst(bytes: Bytes)
    requires NEWLINE in bytes
    ensures var i := LineEnd(bytes); Rejoined(bytes) == Chop(bytes[..i]) + [NEWLINE] + Rejoined(bytes[i + 1..])
  {
    hide LineEnd, Chop, AllLines, Join, FinalBreak;
    var i := LineEnd(bytes);
    var line, tail := Chop(bytes[..i]), bytes[i + 1..];
    AllLinesFirst(bytes);
    NoLinesOnlyOfNothing(tail);
    JoinCons(line, AllLines(tail));
    assert bytes == bytes[..i] + [NEWLINE] + tail;
    FinalBreakStep(bytes[..i], tail);
    if tail == [] {
      RejoinedLast(tail);
    } else {
      ConcatAssoc(line + [NEWLINE], Join(AllLines(tail)), FinalBreak(tail));
    }
  }

  lemma RejoinedLast(bytes: Bytes)
    requires NEWLINE !in bytes
    ensures Rejoined(bytes) == bytes
  {
    AllLinesLast(bytes);
  }

  lemma StripCons(c: Byte, rest: Bytes)
    ensures Strip([c] + rest) == if rest != [] && c == RETURN && rest[0] == NEWLINE then Strip(rest) else [c] + Strip(rest)
  {
    assert ([c] + rest)[1..] == rest;
  }

  lemma ChopCons(c: Byte, rest: Bytes)
    ensures Chop([c] + rest) == if rest == [] && c == RETURN then [] else [c] + Chop(rest)
  {
    var line := [c] + rest;
    assert rest != [] ==> line[..|line| - 1] == [c] + rest[..|rest| - 1];
  }

  lemma {:induction false} StripLine(head: Bytes, tail: Bytes)
    requires NEWLINE !in head
    ensures Strip(head + ([NEWLINE] + tail)) == Chop(head) + ([NEWLINE] + Strip(tail))
    decreases |head|
  {
    var text := head + ([NEWLINE] + tail);
    if head == [] {
      assert Chop(head) == head;
      hide Strip, Chop;
      assert text == [NEWLINE] + tail;
      StripCons(NEWLINE, tail);
    } else {
      hide Strip, Chop;
      var c, rest := head[0], head[1..];
      var after := rest + ([NEWLINE] + tail);
      assert text == [c] + after && head == [c] + rest;
      assert after[0] == if rest == [] then NEWLINE else rest[0];
      StripLine(rest, tail);
      StripCons(c, after);
      ChopCons(c, rest);
      ConcatAssoc([c], Chop(rest), [NEWLINE] + Strip(tail));
      if rest == [] && c == RETURN {
        ChopNothing();
      }
    }
  }

  lemma ChopNothing()
    ensures Chop([]) == []
  {
  }

  lemma {:induction false} StripNothing(bytes: Bytes)
    requires NEWLINE !in bytes
    ensures Strip(bytes) == bytes
    decreases |bytes|
  {
    if bytes != [] {
      assert |bytes| > 1 ==> bytes[1] in bytes;
      StripNothing(bytes[1..]);
    }
  }

  /** Joining the lines again gives the text without the carriage returns right before line breaks. */
  lemma {:induction false} RejoinedIsStripped(bytes: Bytes)
    ensures Rejoined(bytes) == Strip(bytes)
    decreases |bytes|
  {
    hide LineEnd, Chop, Rejoined, Strip;
    if NEWLINE in bytes {
      var i := LineEnd(bytes);
      var head, tail := bytes[..i], bytes[i + 1..];
      RejoinedFirst(bytes);
      RejoinedIsStripped(tail);
      StripLine(head, tail);
      assert bytes == head + ([NEWLINE] + tail);
      ConcatAssoc(Chop(head), [NEWLINE], Strip(tail));
    } else {
      RejoinedLast(bytes);
      StripNothing(bytes);
    }
  }

  lemma {:induction false} StripIsIdentityExactly(bytes: Bytes)
    ensures Strip(bytes) == bytes <==> !HasReturnBreak(bytes)
    decreases |bytes|
  {
    if bytes != [] {
      StripIsIdentityExactly(bytes[1..]);
      HasReturnBreakFirst(bytes);
      if |bytes| > 1 && bytes[0] == RETURN && bytes[1] == NEWLINE {
        assert |Strip(bytes)| < |bytes|;
      } else {
        assert Strip(bytes)[1..] == Strip(bytes[1..]);
      }
    }
  }

  lemma HasReturnBreakFirst(bytes: Bytes)
    requires bytes != []
    ensures HasReturnBreak(bytes) <==>
      (|bytes| > 1 && bytes[0] == RETURN && bytes[1] == NEWLINE) || HasReturnBreak(bytes[1..])
  {
    var rest := bytes[1..];
    if i :| 0 <= i < |bytes| - 1 && bytes[i] == RETURN && bytes[i + 1] == NEWLINE {
      assert i > 0 ==> rest[i - 1] == RETURN && rest[i - 1 + 1] == NEWLINE;
    }
    if i :| 0 <= i < |rest| - 1 && rest[i] == RETURN && rest[i + 1] == NEWLINE {
      assert bytes[i + 1] == RETURN && bytes[i + 1 + 1] == NEWLINE;
    }
  }

  /** The lines of a text, joined again, are the text without the carriage return right before each line break,
      and so the text itself exactly when there is none. */
  lemma JoinedLinesExactly(bytes: Bytes)
    ensures Rejoined(bytes) == Strip(bytes)
    ensures Rejoined(bytes) == bytes <==> !HasReturnBreak(bytes)
  {
    hide *;
    RejoinedIsStripped(bytes);
    StripIsIdentityExactly(bytes);
  }

  /** The byte of an ASCII character. */
  function ByteOf(c: char): Byte {
    c as int % 256
  }

  /** The decoder on ASCII bytes. */
  function AsciiText(bytes: Bytes): string {
    seq(|bytes|, i requires 0 <= i < |bytes| => bytes[i] as char)
  }
}
