// Which texts the TOML scanner accepts, told without the scanner: as sequences of items with balanced brackets.

module TomlGrammar {
  import opened Options
  import opened Texts
  import opened TomlFragment

  /** A character of a quoted text on one line, or an escape in a basic one. */
  datatype Unit = Char(c: char) | Escaped(c: char)

  datatype Item =
    | Plain(c: char)
    | Open
    | Close
    | Comment(text: string)               // from '#' up to, not including, the line break
    | Short(quote: Quote, units: seq<Unit>) // between single quote characters, on one line
    | Long(quote: Quote, body: string)      // between triple quote characters

  // ---------- the grammar ----------

  predicate IsUnit(quote: Quote, u: Unit) {
    match u
    case Char(c) => c != Mark(quote) && c != '\n' && (quote.Basic? ==> c != '\\')
    case Escaped(c) => quote.Basic? && c != '\n'
  }

  function UnitText(u: Unit): string {
    match u case Char(c) => [c] case Escaped(c) => ['\\', c]
  }

  function UnitsText(units: seq<Unit>): string {
    if units == [] then "" else UnitText(units[0]) + UnitsText(units[1..])
  }

  function Thrice(quote: Quote): string {
    [Mark(quote), Mark(quote), Mark(quote)]
  }

  /** The body ends at the first three quote characters in a row. */
  predicate EndsFirst(quote: Quote, body: string) {
    forall k | 0 <= k < |body| :: !TripleAt(body + Thrice(quote), k, Mark(quote))
  }

  predicate IsItem(item: Item) {
    match item
    case Plain(c) => c !in "#\"'[]"
    case Open => true
    case Close => true
    case Comment(text) => '\n' !in text
    case Short(quote, units) => !quote.NoQuote? && forall u | u in units :: IsUnit(quote, u)
    case Long(quote, body) => !quote.NoQuote? && EndsFirst(quote, body)
  }

  function Text(item: Item): string {
    match item
    case Plain(c) => [c]
    case Open => "["
    case Close => "]"
    case Comment(text) => "#" + text
    case Short(quote, units) => [Mark(quote)] + (UnitsText(units) + [Mark(quote)])
    case Long(quote, body) => Thrice(quote) + (body + Thrice(quote))
  }

  /** A comment reaches to the end of its line, and two quote characters are an empty text only if no third follows. */
  predicate MayPrecede(item: Item, rest: string) {
    match item
    case Comment(_) => rest == "" || rest[0] == '\n'
    case Short(quote, units) => units == [] ==> rest == "" || rest[0] != Mark(quote)
    case _ => true
  }

  function Render(items: seq<Item>): string {
    if items == [] then "" else Text(items[0]) + Render(items[1..])
  }

  predicate AreItems(items: seq<Item>) {
    items == [] || (IsItem(items[0]) && MayPrecede(items[0], Render(items[1..])) && AreItems(items[1..]))
  }

  /** The bracket depth after the items, or None when a bracket closes that was not open. */
  function Depth(items: seq<Item>, depth: nat): Option<nat> {
    if items == [] then Some(depth)
    else match items[0]
      case Open => Depth(items[1..], depth + 1)
      case Close => if depth == 0 then None else Depth(items[1..], depth - 1)
      case _ => Depth(items[1..], depth)
  }

  ghost predicate IsToml(s: string) {
    exists items :: AreItems(items) && Render(items) == s && Depth(items, 0) == Some(0)
  }

  // ---------- scanning an item ----------

  /** The scanner outside quotes and comments, at a depth. */
  function Top(depth: nat): Scan {
    Scan(depth, NoQuote, false, false, false)
  }

  function Inside(quote: Quote, triple: bool, depth: nat): Scan {
    Scan(depth, quote, triple, false, false)
  }

  predicate IsAt(s: string, i: nat, part: string) {
    i + |part| <= |s| && forall k | 0 <= k < |part| :: s[i + k] == part[k]
  }

  lemma IsAtConcat(s: string, i: nat, a: string, b: string)
    ensures IsAt(s, i, a + b) <==> IsAt(s, i, a) && IsAt(s, i + |a|, b)
  {
    if IsAt(s, i, a + b) {
      assert forall k | 0 <= k < |a| :: (a + b)[k] == a[k];
      forall k | 0 <= k < |b| ensures s[i + |a| + k] == b[k] {
        assert (a + b)[|a| + k] == b[k];
      }
    }
  }

  lemma {:induction false} ScanShort(s: string, i: nat, quote: Quote, units: seq<Unit>, depth: nat)
    requires !quote.NoQuote? && (forall u | u in units :: IsUnit(quote, u)) && IsAt(s, i, UnitsText(units) + [Mark(quote)])
    ensures i + |UnitsText(units)| + 1 <= |s|
    ensures ScanFrom(s, i, Inside(quote, false, depth)) == ScanFrom(s, i + |UnitsText(units)| + 1, Top(depth))
    decreases |units|
  {
    hide ScanFrom, IsAt, IsUnit, UnitText, UnitsText;
    IsAtConcat(s, i, UnitsText(units), [Mark(quote)]);
    UnfoldUnits(units);
    if units == [] {
      CloseShort(s, i, quote, depth);
    } else {
      var u, rest := units[0], units[1..];
      assert u in units && forall x | x in rest :: x in units;
      var n := |UnitText(u)|;
      IsAtConcat(s, i, UnitText(u), UnitsText(rest));
      IsAtConcat(s, i + n, UnitsText(rest), [Mark(quote)]);
      OverUnit(s, i, quote, u, depth);
      ScanShort(s, i + n, quote, rest, depth);
    }
  }

  lemma UnfoldUnits(units: seq<Unit>)
    ensures UnitsText(units) == if units == [] then "" else UnitText(units[0]) + UnitsText(units[1..])
  {
  }

  lemma CloseShort(s: string, i: nat, quote: Quote, depth: nat)
    requires !quote.NoQuote? && IsAt(s, i, [Mark(quote)])
    ensures i < |s| && ScanFrom(s, i, Inside(quote, false, depth)) == ScanFrom(s, i + 1, Top(depth))
  {
    assert s[i + 0] == [Mark(quote)][0];
    assert Turn(s, i, Inside(quote, false, depth)) == Some((i + 1, Top(depth)));
  }

  /** One character or one escape inside a quoted text. */
  lemma OverUnit(s: string, i: nat, quote: Quote, u: Unit, depth: nat)
    requires !quote.NoQuote? && IsUnit(quote, u) && IsAt(s, i, UnitText(u))
    ensures i + |UnitText(u)| <= |s|
    ensures ScanFrom(s, i, Inside(quote, false, depth)) == ScanFrom(s, i + |UnitText(u)|, Inside(quote, false, depth))
  {
    var v := Inside(quote, false, depth);
    assert s[i] == UnitText(u)[0];
    match u {
      case Char(c) =>
        assert Turn(s, i, v) == Some((i + 1, v));
      case Escaped(c) =>
        assert s[i + 1] == UnitText(u)[1];
        assert Turn(s, i, v) == Some((i + 1, v.(escaped := true)));
        assert Turn(s, i + 1, v.(escaped := true)) == Some((i + 2, v));
        assert ScanFrom(s, i + 1, v.(escaped := true)) == ScanFrom(s, i + 2, v);
    }
  }

  lemma {:induction false} ScanLong(s: string, i: nat, close: nat, quote: Quote, depth: nat)
    requires !quote.NoQuote? && i <= close && TripleAt(s, close, Mark(quote))
    requires forall k | i <= k < close :: !TripleAt(s, k, Mark(quote))
    ensures ScanFrom(s, i, Inside(quote, true, depth)) == ScanFrom(s, close + 3, Top(depth))
    decreases close - i
  {
    var v := Inside(quote, true, depth);
    if i == close {
      assert Turn(s, i, v) == Some((i + 3, Top(depth)));
    } else {
      assert Turn(s, i, v) == Some((i + 1, v));
      ScanLong(s, i + 1, close, quote, depth);
    }
  }

  lemma {:induction false} ScanCommentTo(s: string, i: nat, end: nat, v: Scan)
    requires v.comment && i <= end <= |s| && '\n' !in s[i..end]
    ensures ScanFrom(s, i, v) == ScanFrom(s, end, v)
    decreases end - i
  {
    if i < end {
      assert s[i] == s[i..end][0];
      assert s[i + 1..end] == s[i..end][1..];
      ScanCommentTo(s, i + 1, end, v);
    }
  }

  /** At the end of a line it does not matter whether a comment is open. */
  lemma CommentEnds(s: string, i: nat, depth: nat)
    requires i <= |s| && (i < |s| ==> s[i] == '\n')
    ensures Accepting(ScanFrom(s, i, Top(depth).(comment := true))) <==> Accepting(ScanFrom(s, i, Top(depth)))
  {
    if i < |s| {
      assert Turn(s, i, Top(depth).(comment := true)) == Some((i + 1, Top(depth)));
      assert Turn(s, i, Top(depth)) == Some((i + 1, Top(depth)));
    }
  }

  lemma SuffixOf(s: string, i: nat, v: Scan)
    requires i <= |s|
    ensures ScanFrom(s, i, v) == ScanFrom(s[i..], 0, v)
  {
    ScanShift(s[..i], s[i..], 0, v);
    assert s[..i] + s[i..] == s;
  }

  /** What an item does to the depth; None for a bracket that closes nothing. */
  function DepthAfter(item: Item, depth: nat): Option<nat> {
    match item
    case Open => Some(depth + 1)
    case Close => if depth == 0 then None else Some(depth - 1)
    case _ => Some(depth)
  }

  /** Scanning an item and what may follow it is scanning what follows, at the new depth. */
  lemma ScanItem(item: Item, rest: string, depth: nat)
    requires IsItem(item) && MayPrecede(item, rest)
    ensures Accepting(ScanFrom(Text(item) + rest, 0, Top(depth))) <==>
      DepthAfter(item, depth).Some? && Accepting(ScanFrom(rest, 0, Top(DepthAfter(item, depth).value)))
  {
    var s := Text(item) + rest;
    assert s[|Text(item)|..] == rest;
    hide ScanFrom;
    match item {
      case Comment(text) => OverComment(s, text, depth);
      case Short(quote, units) => OverShort(s, quote, units, rest, depth);
      case Long(quote, body) => OverLong(s, quote, body, rest, depth);
      case _ => OverOne(s, item, depth);
    }
    if DepthAfter(item, depth).Some? {
      SuffixOf(s, |Text(item)|, Top(DepthAfter(item, depth).value));
    }
  }

  lemma OverOne(s: string, item: Item, depth: nat)
    requires IsItem(item) && (item.Plain? || item.Open? || item.Close?) && s != "" && Text(item) == [s[0]]
    ensures Accepting(ScanFrom(s, 0, Top(depth))) <==>
      DepthAfter(item, depth).Some? && Accepting(ScanFrom(s, 1, Top(DepthAfter(item, depth).value)))
  {
    assert item.Plain? ==> s[0] == item.c;
  }

  lemma OverComment(s: string, text: string, depth: nat)
    requires "#" + text <= s && '\n' !in text && (|text| + 1 == |s| || s[|text| + 1] == '\n')
    ensures Accepting(ScanFrom(s, 0, Top(depth))) <==> Accepting(ScanFrom(s, |text| + 1, Top(depth)))
  {
    var n := |text| + 1;
    assert s[0] == ("#" + text)[0];
    assert s[1..n] == ("#" + text)[1..] == text;
    assert Turn(s, 0, Top(depth)) == Some((1, Top(depth).(comment := true)));
    ScanCommentTo(s, 1, n, Top(depth).(comment := true));
    CommentEnds(s, n, depth);
  }

  lemma OverShort(s: string, quote: Quote, units: seq<Unit>, rest: string, depth: nat)
    requires IsItem(Short(quote, units)) && MayPrecede(Short(quote, units), rest) && s == Text(Short(quote, units)) + rest
    ensures ScanFrom(s, 0, Top(depth)) == ScanFrom(s, |Text(Short(quote, units))|, Top(depth))
  {
    hide ScanFrom, UnitsText, IsItem, MayPrecede;
    ShortShape(s, quote, units, rest);
    EnterShort(s, quote, depth);
    ShortUnits(quote, units);
    ScanShort(s, 1, quote, units, depth);
  }

  lemma ShortUnits(quote: Quote, units: seq<Unit>)
    requires IsItem(Short(quote, units))
    ensures !quote.NoQuote? && forall u | u in units :: IsUnit(quote, u)
  {
  }

  lemma EnterShort(s: string, quote: Quote, depth: nat)
    requires s != "" && !quote.NoQuote? && s[0] == Mark(quote) && !TripleAt(s, 0, Mark(quote))
    ensures ScanFrom(s, 0, Top(depth)) == ScanFrom(s, 1, Inside(quote, false, depth))
  {
    assert Turn(s, 0, Top(depth)) == Some((1, Inside(quote, false, depth)));
  }

  lemma ShortShape(s: string, quote: Quote, units: seq<Unit>, rest: string)
    requires IsItem(Short(quote, units)) && MayPrecede(Short(quote, units), rest) && s == Text(Short(quote, units)) + rest
    ensures !quote.NoQuote? && s != "" && s[0] == Mark(quote) && !TripleAt(s, 0, Mark(quote))
    ensures IsAt(s, 1, UnitsText(units) + [Mark(quote)])
  {
    var q := Mark(quote);
    var inner := UnitsText(units) + [q];
    assert forall k | 0 <= k < |inner| :: s[1 + k] == inner[k];
    if units == [] {
      assert |s| > 2 ==> s[2] == rest[0];
    } else {
      assert units[0] in units;
      FirstUnit(quote, units);
      assert s[1 + 0] == inner[0] == UnitsText(units)[0];
    }
  }

  lemma FirstUnit(quote: Quote, units: seq<Unit>)
    requires units != [] && !quote.NoQuote? && IsUnit(quote, units[0])
    ensures UnitsText(units) != "" && UnitsText(units)[0] != Mark(quote)
  {
  }

  lemma OverLong(s: string, quote: Quote, body: string, rest: string, depth: nat)
    requires IsItem(Long(quote, body)) && s == Text(Long(quote, body)) + rest
    ensures ScanFrom(s, 0, Top(depth)) == ScanFrom(s, |Text(Long(quote, body))|, Top(depth))
  {
    var q, t := Mark(quote), body + Thrice(quote);
    assert forall k | 0 <= k < |t| :: s[3 + k] == t[k];
    assert s[0] == s[1] == s[2] == q;
    assert Turn(s, 0, Top(depth)) == Some((3, Inside(quote, true, depth)));
    forall k | 3 <= k < |body| + 3 ensures !TripleAt(s, k, q) {
      assert !TripleAt(t, k - 3, q);
      assert s[k] == t[k - 3] && s[k + 1] == t[k - 2] && s[k + 2] == t[k - 1];
    }
    assert t[|body|] == t[|body| + 1] == t[|body| + 2] == q;
    ScanLong(s, 3, |body| + 3, quote, depth);
  }

  lemma {:induction false} ItemsAccepted(items: seq<Item>, depth: nat)
    requires AreItems(items)
    ensures Accepting(ScanFrom(Render(items), 0, Top(depth))) <==> Depth(items, depth) == Some(0)
    decreases |items|
  {
    hide ScanFrom, Text, IsItem, MayPrecede;
    if items == [] {
      NothingToScan(depth);
    } else {
      ScanItem(items[0], Render(items[1..]), depth);
      if DepthAfter(items[0], depth).Some? {
        ItemsAccepted(items[1..], DepthAfter(items[0], depth).value);
      }
    }
  }

  lemma NothingToScan(depth: nat)
    ensures ScanFrom("", 0, Top(depth)) == Some(Top(depth))
  {
  }

  // ---------- finding the items of an accepted text ----------

  /** Inside a quoted text on one line, an accepted scan comes to the closing quote. */
  lemma {:induction false} FindUnits(s: string, i: nat, quote: Quote, depth: nat) returns (units: seq<Unit>)
    requires i <= |s| && !quote.NoQuote? && Accepting(ScanFrom(s, i, Inside(quote, false, depth)))
    ensures (forall u | u in units :: IsUnit(quote, u)) && IsAt(s, i, UnitsText(units) + [Mark(quote)])
    decreases |s| - i
  {
    var v := Inside(quote, false, depth);
    assert i < |s|;
    if s[i] == Mark(quote) {
      units := [];
      assert UnitsText([]) + [Mark(quote)] == [Mark(quote)];
    } else {
      var u := FirstUnitAt(s, i, quote, depth);
      OverUnit(s, i, quote, u, depth);
      var n := |UnitText(u)|;
      var rest := FindUnits(s, i + n, quote, depth);
      units := [u] + rest;
      assert UnitsText(units) + [Mark(quote)] == UnitText(u) + (UnitsText(rest) + [Mark(quote)]) by {
        assert units[1..] == rest;
      }
      IsAtConcat(s, i, UnitText(u), UnitsText(rest) + [Mark(quote)]);
    }
  }

  lemma FirstUnitAt(s: string, i: nat, quote: Quote, depth: nat) returns (u: Unit)
    requires i < |s| && !quote.NoQuote? && s[i] != Mark(quote) && Accepting(ScanFrom(s, i, Inside(quote, false, depth)))
    ensures IsUnit(quote, u) && IsAt(s, i, UnitText(u))
  {
    var v := Inside(quote, false, depth);
    if quote.Basic? && s[i] == '\\' {
      var w := v.(escaped := true);
      assert Turn(s, i, v) == Some((i + 1, w));
      assert Accepting(ScanFrom(s, i + 1, w));
      assert i + 1 < |s|;
      assert Turn(s, i + 1, w).Some?;
      u := Escaped(s[i + 1]);
    } else {
      assert Turn(s, i, v).Some?;
      u := Char(s[i]);
    }
  }

  /** Inside a triple-quoted text it comes to three quote characters. */
  lemma {:induction false} FindClose(s: string, i: nat, quote: Quote, depth: nat) returns (close: nat)
    requires i <= |s| && !quote.NoQuote? && Accepting(ScanFrom(s, i, Inside(quote, true, depth)))
    ensures i <= close && TripleAt(s, close, Mark(quote)) && forall k | i <= k < close :: !TripleAt(s, k, Mark(quote))
    decreases |s| - i
  {
    var v := Inside(quote, true, depth);
    assert i < |s|;
    if TripleAt(s, i, Mark(quote)) {
      close := i;
    } else {
      assert Turn(s, i, v) == Some((i + 1, v));
      close := FindClose(s, i + 1, quote, depth);
    }
  }

  lemma {:induction false} LineLength(s: string, i: nat) returns (end: nat)
    requires i <= |s|
    ensures i <= end <= |s| && '\n' !in s[i..end] && (end < |s| ==> s[end] == '\n')
    decreases |s| - i
  {
    if i == |s| || s[i] == '\n' {
      end := i;
    } else {
      end := LineLength(s, i + 1);
      assert s[i..end] == [s[i]] + s[i + 1..end];
    }
  }

  /** The first item of an accepted text. */
  lemma FirstItem(s: string, depth: nat) returns (item: Item)
    requires s != "" && Accepting(ScanFrom(s, 0, Top(depth)))
    ensures IsItem(item) && Text(item) <= s && Text(item) != "" && MayPrecede(item, s[|Text(item)|..])
  {
    var c := s[0];
    if c == '#' {
      var end := LineLength(s, 1);
      item := Comment(s[1..end]);
      assert Text(item) == s[..end];
    } else if c == '[' {
      item := Open;
    } else if c == ']' {
      item := Close;
    } else if c == '"' || c == '\'' {
      item := QuotedItem(s, if c == '"' then Basic else Literal, depth);
    } else {
      item := Plain(c);
    }
  }

  lemma QuotedItem(s: string, quote: Quote, depth: nat) returns (item: Item)
    requires s != "" && !quote.NoQuote? && s[0] == Mark(quote) && Accepting(ScanFrom(s, 0, Top(depth)))
    ensures IsItem(item) && Text(item) <= s && Text(item) != "" && MayPrecede(item, s[|Text(item)|..])
  {
    var q := Mark(quote);
    if TripleAt(s, 0, q) {
      assert Turn(s, 0, Top(depth)) == Some((3, Inside(quote, true, depth)));
      var close := FindClose(s, 3, quote, depth);
      hide ScanFrom;
      item := LongItem(s, quote, close);
    } else {
      assert Turn(s, 0, Top(depth)) == Some((1, Inside(quote, false, depth)));
      var units := FindUnits(s, 1, quote, depth);
      hide ScanFrom;
      item := Short(quote, units);
      var inner := UnitsText(units) + [q];
      assert s[1..1 + |inner|] == inner;
      assert Text(item) == s[..1 + |inner|];
      if units == [] {
        assert s[1] == inner[0] == q;
      }
    }
  }

  lemma LongItem(s: string, quote: Quote, close: nat) returns (item: Item)
    requires !quote.NoQuote? && 3 <= close && TripleAt(s, 0, Mark(quote)) && TripleAt(s, close, Mark(quote))
    requires forall k | 3 <= k < close :: !TripleAt(s, k, Mark(quote))
    ensures IsItem(item) && Text(item) <= s && item.Long? && Text(item) != ""
  {
    var q, body := Mark(quote), s[3..close];
    item := Long(quote, body);
    var t := body + Thrice(quote);
    assert t == s[3..close + 3];
    forall k | 0 <= k < |body| ensures !TripleAt(t, k, q) {
      assert !TripleAt(s, k + 3, q);
      assert t[k] == s[k + 3] && t[k + 1] == s[k + 4] && t[k + 2] == s[k + 5];
    }
    assert s[..3] == Thrice(quote);
    assert Text(item) == s[..close + 3];
  }

  lemma {:induction false} AcceptedHasItems(s: string, depth: nat) returns (items: seq<Item>)
    requires Accepting(ScanFrom(s, 0, Top(depth)))
    ensures AreItems(items) && Render(items) == s
    decreases |s|
  {
    if s == "" {
      items := [];
    } else {
      hide ScanFrom, Text, IsItem, MayPrecede;
      var item := FirstItem(s, depth);
      var rest := s[|Text(item)|..];
      assert s == Text(item) + rest;
      ScanItem(item, rest, depth);
      var more := AcceptedHasItems(rest, DepthAfter(item, depth).value);
      items := [item] + more;
      assert items[1..] == more;
    }
  }

  /** The scanner accepts exactly the texts without a zero character that are made of plain characters, comments,
      quoted texts and balanced brackets. */
  lemma PlausibleExactly(s: string)
    ensures Plausible(s) <==> '\0' !in s && IsToml(s)
  {
    hide ScanFrom, AreItems, Render, Depth;
    assert Top(0) == START_STATE;
    if Accepting(ScanFrom(s, 0, START_STATE)) {
      var items := AcceptedHasItems(s, 0);
      ItemsAccepted(items, 0);
    }
    if items :| AreItems(items) && Render(items) == s && Depth(items, 0) == Some(0) {
      ItemsAccepted(items, 0);
    }
  }
}
