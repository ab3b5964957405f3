// Source handles: percent-encoded relative paths with an optional line span.

module Handles {
  import opened Options
  import opened Texts
  import opened LineSplitting

  datatype Error = InvalidSourceHandle | InvalidEncodedPath
  datatype Result<+T> = Ok(value: T) | Err(error: Error)

  const SLASH: Byte := 47
  const DOT: Byte := 46

  // ---------- percent encoding ----------

  predicate IsPlain(b: Byte) {
    48 <= b <= 57 || 65 <= b <= 90 || 97 <= b <= 122 || b == SLASH || b == DOT || b == 95 || b == 45
  }

  function HexChar(d: nat): (c: char)
    requires d < 16
    ensures c != '#'
    ensures HexValue(c) == Some(d)
  {
    if d < 10 then '0' + d as char else 'A' + (d - 10) as char
  }

  /** Decoding also accepts lower-case digits. */
  function HexValue(c: char): (d: Option<nat>)
    ensures d.Some? ==> d.value < 16
  {
    if '0' <= c <= '9' then Some(c as int - '0' as int)
    else if 'a' <= c <= 'f' then Some(c as int - 'a' as int + 10)
    else if 'A' <= c <= 'F' then Some(c as int - 'A' as int + 10)
    else None
  }

  function Escape(b: Byte): string {
    if IsPlain(b) then [b as char] else ['%', HexChar(b / 16), HexChar(b % 16)]
  }

  function Encoded(path: Bytes): string {
    if path == [] then "" else Escape(path[0]) + Encoded(path[1..])
  }

  method EncodePath(path: Bytes) returns (encoded: string)
    ensures encoded == Encoded(path)
  {
    hide Encoded, IsPlain, HexChar;
    encoded := "";
    assert path[0..] == path && "" + Encoded(path) == Encoded(path);
    for i := 0 to |path|
      invariant encoded + Encoded(path[i..]) == Encoded(path)
    {
      EncodeStep(path, i, encoded);
      var byte := path[i];
      if IsPlain(byte) {
        encoded := encoded + [byte as char];
      } else {
        ghost var was := encoded;
        encoded := encoded + ['%'];
        encoded := encoded + [HexChar(byte / 16)];
        encoded := encoded + [HexChar(byte % 16)];
        assert encoded == was + ['%', HexChar(byte / 16), HexChar(byte % 16)];
      }
    }
    EncodeEnd(path, encoded);
  }

  lemma EncodeStep(path: Bytes, i: nat, done: string)
    requires i < |path|
    ensures done + Encoded(path[i..]) == done + Escape(path[i]) + Encoded(path[i + 1..])
  {
    assert path[i..][1..] == path[i + 1..];
    ConcatAssoc(done, Escape(path[i]), Encoded(path[i + 1..]));
  }

  lemma EncodeEnd(path: Bytes, done: string)
    ensures done + Encoded(path[|path|..]) == done
  {
  }

  function Unescaped(s: string): Option<Bytes>
    decreases |s|
  {
    if s == "" then Some([])
    else if s[0] == '%' then
      if |s| <= 2 then None
      else
        var high, low := HexValue(s[1]), HexValue(s[2]);
        if high.None? || low.None? then None
        else Cons(high.value * 16 + low.value, Unescaped(s[3..]))
    else
      Cons(ByteOf(s[0]), Unescaped(s[1..]))
  }

  function Cons(b: Byte, rest: Option<Bytes>): Option<Bytes> {
    if rest.None? then None else Some([b] + rest.value)
  }

  function Append(done: Bytes, rest: Option<Bytes>): Option<Bytes> {
    if rest.None? then None else Some(done + rest.value)
  }

  /** The parts between slashes; at least one, possibly empty. */
  function Split(bytes: Bytes): (parts: seq<Bytes>)
    ensures parts != []
  {
    if bytes == [] then [[]]
    else
      var rest := Split(bytes[1..]);
      if bytes[0] == SLASH then [[]] + rest else [[bytes[0]] + rest[0]] + rest[1..]
  }

  predicate IsComponent(part: Bytes) {
    part != [] && part != [DOT] && part != [DOT, DOT]
  }

  /** Path components, or an error; `utf8` is the validity test of the standard library. */
  function Decoded(encoded: string, utf8: Bytes -> bool): Result<seq<Bytes>>
  {
    match Unescaped(encoded)
    case None => Err(InvalidEncodedPath)
    case Some(bytes) =>
      if !utf8(bytes) || exists p | p in Split(bytes) :: !IsComponent(p) then Err(InvalidEncodedPath)
      else Ok(Split(bytes))
  }

  method DecodeRelativePath(encoded: string, utf8: Bytes -> bool) returns (r: Result<seq<Bytes>>)
    ensures r == Decoded(encoded, utf8)
  {
    hide Unescaped, HexValue, Split;
    var decoded: Bytes := [];
    var index := 0;
    assert encoded[0..] == encoded;
    AppendNothing(Unescaped(encoded));
    while index < |encoded|
      invariant index <= |encoded|
      invariant Unescaped(encoded) == Append(decoded, Unescaped(encoded[index..]))
    {
      UnescapeStep(encoded, index, decoded);
      if encoded[index] == '%' {
        if index + 2 >= |encoded| {
          return Err(InvalidEncodedPath);
        }
        var high := HexValue(encoded[index + 1]);
        if high.None? {
          return Err(InvalidEncodedPath);
        }
        var low := HexValue(encoded[index + 2]);
        if low.None? {
          return Err(InvalidEncodedPath);
        }
        decoded := decoded + [high.value * 16 + low.value];
        index := index + 3;
      } else {
        decoded := decoded + [ByteOf(encoded[index])];
        index := index + 1;
      }
    }
    NothingLeft(encoded, index);
    assert decoded + [] == decoded;
    if !utf8(decoded) {
      return Err(InvalidEncodedPath);
    }
    var parts := Split(decoded);
    var path: seq<Bytes> := [];
    for i := 0 to |parts|
      invariant path == parts[..i]
      invariant forall p | p in path :: IsComponent(p)
    {
      if !IsComponent(parts[i]) {
        return Err(InvalidEncodedPath);
      }
      path := path + [parts[i]];
    }
    assert parts[..|parts|] == parts;
    r := Ok(path);
  }

  /** A percent sign with two hexadecimal digits starts at index i. */
  predicate EscapeAt(s: string, i: nat) {
    i + 2 < |s| && s[i] == '%' && HexValue(s[i + 1]).Some? && HexValue(s[i + 2]).Some?
  }

  lemma UnescapeStep(s: string, i: nat, done: Bytes)
    requires i < |s|
    ensures var now := Append(done, Unescaped(s[i..]));
      if EscapeAt(s, i) then
        now == Append(done + [HexValue(s[i + 1]).value * 16 + HexValue(s[i + 2]).value], Unescaped(s[i + 3..]))
      else if s[i] == '%' then now == None
      else now == Append(done + [ByteOf(s[i])], Unescaped(s[i + 1..]))
  {
    var t := s[i..];
    if s[i] != '%' {
      assert t[1..] == s[i + 1..];
      AppendCons(done, ByteOf(s[i]), Unescaped(t[1..]));
    } else if EscapeAt(s, i) {
      assert t[3..] == s[i + 3..];
      AppendCons(done, HexValue(s[i + 1]).value * 16 + HexValue(s[i + 2]).value, Unescaped(t[3..]));
    }
  }

  lemma AppendNothing(rest: Option<Bytes>)
    ensures Append([], rest) == rest
  {
    if rest.Some? {
      assert [] + rest.value == rest.value;
    }
  }

  lemma NothingLeft(s: string, i: nat)
    requires i == |s|
    ensures Unescaped(s[i..]) == Some([])
  {
  }

  lemma AppendCons(done: Bytes, b: Byte, rest: Option<Bytes>)
    ensures Append(done, Cons(b, rest)) == Append(done + [b], rest)
  {
    if rest.Some? {
      ConcatAssoc(done, [b], rest.value);
    }
  }

  // ---------- round trip ----------

  predicate IsAscii(s: string) {
    forall c | c in s :: c as int < 128
  }

  lemma {:induction false} EncodedIsSafe(path: Bytes)
    ensures IsAscii(Encoded(path)) && '#' !in Encoded(path)
  {
    if path != [] {
      EncodedIsSafe(path[1..]);
      forall c | c in Escape(path[0]) ensures c as int < 128 && c != '#' {}
    }
  }

  /** Unescaping an encoded path gives its bytes back. */
  lemma {:induction false} UnescapeEncoded(path: Bytes)
    ensures Unescaped(Encoded(path)) == Some(path)
  {
    hide Unescaped, Encoded;
    if path != [] {
      UnescapeEncoded(path[1..]);
      EncodedCons(path);
      UnescapeOne(path[0], Encoded(path[1..]));
      assert path == [path[0]] + path[1..];
    } else {
      UnescapeNothing();
    }
  }

  lemma EncodedCons(path: Bytes)
    requires path != []
    ensures Encoded(path) == Escape(path[0]) + Encoded(path[1..])
  {
  }

  lemma UnescapeNothing()
    ensures Encoded([]) == "" && Unescaped("") == Some([])
  {
  }

  lemma UnescapeOne(b: Byte, rest: string)
    ensures Unescaped(Escape(b) + rest) == Cons(b, Unescaped(rest))
  {
    var s := Escape(b) + rest;
    if IsPlain(b) {
      assert s[0] == b as char && s[0] != '%' && s[1..] == rest;
    } else {
      assert s[0] == '%' && s[1] == HexChar(b / 16) && s[2] == HexChar(b % 16) && s[3..] == rest;
    }
  }

  /** Components joined by slashes, as a relative path prints. */
  function Joined(parts: seq<Bytes>): Bytes
    requires parts != []
  {
    if |parts| == 1 then parts[0] else parts[0] + [SLASH] + Joined(parts[1..])
  }

  lemma {:induction false} SplitPart(part: Bytes)
    requires SLASH !in part
    ensures Split(part) == [part]
  {
    if part != [] {
      assert SLASH !in part[1..];
      SplitPart(part[1..]);
      assert part == [part[0]] + part[1..];
    }
  }

  lemma {:induction false} SplitAtSlash(part: Bytes, rest: Bytes)
    requires SLASH !in part
    ensures Split(part + [SLASH] + rest) == [part] + Split(rest)
  {
    var s := part + [SLASH] + rest;
    if part == [] {
      assert s[1..] == rest;
    } else {
      assert SLASH !in part[1..];
      assert s[1..] == part[1..] + [SLASH] + rest;
      SplitAtSlash(part[1..], rest);
      assert part == [part[0]] + part[1..];
    }
  }

  lemma {:induction false} SplitJoined(parts: seq<Bytes>)
    requires parts != [] && forall p | p in parts :: SLASH !in p
    ensures Split(Joined(parts)) == parts
    decreases |parts|
  {
    assert parts[0] in parts;
    if |parts| == 1 {
      SplitPart(parts[0]);
    } else {
      assert forall p | p in parts[1..] :: p in parts;
      SplitAtSlash(parts[0], Joined(parts[1..]));
      SplitJoined(parts[1..]);
    }
  }

  /** A relative path: at least one component, none of them empty, "." or "..", no slash inside. */
  predicate IsRelative(parts: seq<Bytes>) {
    parts != [] && forall p | p in parts :: IsComponent(p) && SLASH !in p
  }

  /** Decoding the encoding of a relative path gives its components back. */
  lemma PathRoundTrip(parts: seq<Bytes>, utf8: Bytes -> bool)
    requires IsRelative(parts) && utf8(Joined(parts))
    ensures Decoded(Encoded(Joined(parts)), utf8) == Ok(parts)
  {
    UnescapeEncoded(Joined(parts));
    SplitJoined(parts);
  }

  lemma JoinedFront(first: Bytes, rest: seq<Bytes>, b: Byte)
    ensures Joined([[b] + first] + rest) == [b] + Joined([first] + rest)
  {
    assert ([[b] + first] + rest)[1..] == rest && ([first] + rest)[1..] == rest;
    if rest != [] {
      assert ([b] + first) + [SLASH] + Joined(rest) == [b] + (first + [SLASH] + Joined(rest));
    }
  }

  /** Splitting loses nothing, and no part has a slash. */
  lemma {:induction false} SplitShape(bytes: Bytes)
    ensures Joined(Split(bytes)) == bytes && forall p | p in Split(bytes) :: SLASH !in p
  {
    if bytes != [] {
      hide Joined, Split;
      SplitShape(bytes[1..]);
      SplitStep(bytes);
      var rest := Split(bytes[1..]);
      assert rest == [rest[0]] + rest[1..];
      assert bytes == [bytes[0]] + bytes[1..];
      if bytes[0] == SLASH {
        JoinedEmptyFirst(rest);
      } else {
        JoinedFront(rest[0], rest[1..], bytes[0]);
        assert rest[0] in rest;
      }
    }
  }

  lemma SplitStep(bytes: Bytes)
    requires bytes != []
    ensures var rest := Split(bytes[1..]);
      Split(bytes) == if bytes[0] == SLASH then [[]] + rest else [[bytes[0]] + rest[0]] + rest[1..]
  {
  }

  lemma JoinedEmptyFirst(rest: seq<Bytes>)
    requires rest != []
    ensures Joined([[]] + rest) == [SLASH] + Joined(rest)
  {
    assert ([[]] + rest)[1..] == rest;
  }

  /** Decoding succeeds exactly on the escaped forms of relative paths: whatever the text, a decoded path
      has no empty, "." or ".." component and none with a slash. */
  lemma DecodedExactly(encoded: string, utf8: Bytes -> bool, parts: seq<Bytes>)
    ensures Decoded(encoded, utf8) == Ok(parts) <==>
      IsRelative(parts) && Unescaped(encoded) == Some(Joined(parts)) && utf8(Joined(parts))
  {
    hide Unescaped, Joined, Split;
    match Unescaped(encoded) {
      case Some(bytes) => SplitShape(bytes);
      case None =>
    }
    if IsRelative(parts) {
      SplitJoined(parts);
    }
  }

  // ---------- line spans ----------

  datatype Span = Span(startLine: nat, endLine: nat)

  predicate IsSpan(span: Span) {
    1 <= span.startLine <= span.endLine <= U32_MAX
  }

  /** Last occurrence, or -1. */
  function LastIndexOf(s: string, p: string, bound: nat): (r: int)
    ensures r >= 0 ==> OccursAt(s, p, r) && r < bound
    ensures forall k: nat | k < bound && OccursAt(s, p, k) :: k <= r
    ensures r >= -1
  {
    if bound == 0 then -1
    else if OccursAt(s, p, bound - 1) then bound - 1
    else LastIndexOf(s, p, bound - 1)
  }

  const OPEN := "#L"
  const MIDDLE := "-L"

  function SpanSuffix(span: Span): string {
    OPEN + (Decimal(span.startLine) + MIDDLE + Decimal(span.endLine))
  }

  /** The encoded path and the span of a handle body. */
  function ParseSuffix(encoded: string): Result<(string, Option<Span>)> {
    var at := LastIndexOf(encoded, OPEN, |encoded|);
    if at < 0 then Ok((encoded, None))
    else
      var range := encoded[at + 2..];
      var dash := IndexOf(range, MIDDLE);
      if dash < 0 then Err(InvalidSourceHandle)
      else
        var start, end := ParseU32(range[..dash]), ParseU32(range[dash + 2..]);
        if start.None? || end.None? then Err(InvalidSourceHandle)
        else if start.value == 0 || end.value < start.value then Err(InvalidSourceHandle)
        else Ok((encoded[..at], Some(Span(start.value, end.value))))
  }

  lemma FirstChar(s: string, p: string, i: nat)
    ensures OccursAt(s, p, i) && p != "" ==> i < |s| && s[i] == p[0]
  {
    if OccursAt(s, p, i) && p != "" {
      assert s[i] == s[i..i + |p|][0];
    }
  }

  lemma ParseRange(start: nat, end: nat)
    requires start <= U32_MAX && end <= U32_MAX
    ensures var range := Decimal(start) + MIDDLE + Decimal(end); var dash := IndexOf(range, MIDDLE);
      && dash == |Decimal(start)|
      && ParseU32(range[..dash]) == Some(start) && ParseU32(range[dash + 2..]) == Some(end)
  {
    var a, b := Decimal(start), Decimal(end);
    var range := a + MIDDLE + b;
    assert OccursAt(range, MIDDLE, |a|);
    forall k: nat | k < |a| ensures !OccursAt(range, MIDDLE, k) {
      FirstChar(range, MIDDLE, k);
      assert range[k] == a[k] && a[k] in a;
    }
    assert range[..|a|] == a && range[|a| + 2..] == b;
    ParsePrinted(start);
    ParsePrinted(end);
  }

  /** Parsing what was printed gives exactly the path and the span. */
  lemma SuffixRoundTrip(encoded: string, span: Span)
    requires '#' !in encoded && IsSpan(span)
    ensures ParseSuffix(encoded + SpanSuffix(span)) == Ok((encoded, Some(span)))
  {
    hide Decimal, IndexOf, ParseU32, LastIndexOf;
    var range := Decimal(span.startLine) + MIDDLE + Decimal(span.endLine);
    var s := encoded + SpanSuffix(span);
    NoHashInRange(span);
    LastHash(encoded, range);
    assert s == encoded + OPEN + range;
    assert s[|encoded| + 2..] == range && s[..|encoded|] == encoded;
    ParseRange(span.startLine, span.endLine);
  }

  lemma LastHash(encoded: string, range: string)
    requires '#' !in range
    ensures var s := encoded + OPEN + range; LastIndexOf(s, OPEN, |s|) == |encoded|
  {
    var s, n := encoded + OPEN + range, |encoded|;
    assert OccursAt(s, OPEN, n);
    forall k | n + 2 <= k < |s| ensures s[k] in range {
      assert s[k] == range[k - n - 2];
    }
    forall k: nat | OccursAt(s, OPEN, k) ensures k <= n {
      FirstChar(s, OPEN, k);
      assert s[n + 1] == 'L';
    }
  }

  lemma NoHashInRange(span: Span)
    ensures '#' !in Decimal(span.startLine) + MIDDLE + Decimal(span.endLine)
    ensures IsAscii(Decimal(span.startLine) + MIDDLE + Decimal(span.endLine))
  {
    assert forall c | IsDigit(c) :: c != '#';
  }

  lemma PlainSuffix(encoded: string)
    requires '#' !in encoded
    ensures ParseSuffix(encoded) == Ok((encoded, None))
  {
    forall k: nat ensures !OccursAt(encoded, OPEN, k) {
      FirstChar(encoded, OPEN, k);
    }
  }

  // ---------- whole handles ----------

  const PREFIX := "repo:"

  /** The handle of a repository file, or of a span of its lines. */
  function Handle(parts: seq<Bytes>, span: Option<Span>): string
    requires parts != []
  {
    PREFIX + (Encoded(Joined(parts)) + (if span.Some? then SpanSuffix(span.value) else ""))
  }

  /** What `fetch` reads off a handle before it touches the file system. */
  function Target(handle: string, utf8: Bytes -> bool): Result<(seq<Bytes>, Option<Span>)>
  {
    if !(PREFIX <= handle) then Err(InvalidSourceHandle)
    else match ParseSuffix(handle[5..])
      case Err(e) => Err(e)
      case Ok((encoded, span)) =>
        match Decoded(encoded, utf8)
          case Err(e) => Err(e)
          case Ok(parts) => Ok((parts, span))
  }

  /** Every handle of a relative path and a valid span resolves to exactly that path and span. */
  lemma HandleRoundTrip(parts: seq<Bytes>, span: Option<Span>, utf8: Bytes -> bool)
    requires IsRelative(parts) && utf8(Joined(parts)) && (span.Some? ==> IsSpan(span.value))
    ensures IsAscii(Handle(parts, span))
    ensures Target(Handle(parts, span), utf8) == Ok((parts, span))
  {
    var encoded := Encoded(Joined(parts));
    var suffix := if span.Some? then SpanSuffix(span.value) else "";
    EncodedIsSafe(Joined(parts));
    PathRoundTrip(parts, utf8);
    SuffixIsAscii(span);
    if span.Some? {
      SuffixRoundTrip(encoded, span.value);
    } else {
      PlainSuffix(encoded);
      assert encoded + "" == encoded;
    }
    hide Encoded, Joined, SpanSuffix, ParseSuffix, Decoded;
    assert Handle(parts, span)[5..] == encoded + suffix;
    assert IsAscii(PREFIX);
  }

  lemma SuffixIsAscii(span: Option<Span>)
    ensures IsAscii(if span.Some? then SpanSuffix(span.value) else "")
  {
    if span.Some? {
      NoHashInRange(span.value);
      assert IsAscii(OPEN);
    }
  }

  /** Distinct paths or spans have distinct handles. */
  lemma HandlesAreDistinct(parts: seq<Bytes>, span: Option<Span>, parts': seq<Bytes>, span': Option<Span>)
    requires IsRelative(parts) && (span.Some? ==> IsSpan(span.value))
    requires IsRelative(parts') && (span'.Some? ==> IsSpan(span'.value))
    requires Handle(parts, span) == Handle(parts', span')
    ensures parts == parts' && span == span'
  {
    var any := (b: Bytes) => true;
    HandleRoundTrip(parts, span, any);
    HandleRoundTrip(parts', span', any);
  }

  // ---------- which forms are written and read ----------

  const UPPER_HEX := "0123456789ABCDEF"
  const LOWER_HEX := "0123456789abcdef"

  /** ASCII letters and digits, '/', '.', '_' and '-' are written as they are; any other byte as '%' and two
      upper-case hexadecimal digits. */
  lemma EscapeExactly(b: Byte)
    ensures var c := b as char;
      Encoded([b]) ==
        if 'a' <= c <= 'z' || 'A' <= c <= 'Z' || '0' <= c <= '9' || c == '/' || c == '.' || c == '_' || c == '-' then [c]
        else ['%', UPPER_HEX[b / 16], UPPER_HEX[b % 16]]
  {
    assert [b][1..] == [];
    assert Encoded([b]) == Escape(b) + Encoded([]) == Escape(b);
    UpperDigit(b / 16);
    UpperDigit(b % 16);
  }

  lemma UpperDigit(d: nat)
    requires d < 16
    ensures HexChar(d) == UPPER_HEX[d]
  {
  }

  /** The bytes of a path are accepted, once escaped, exactly when they are text and no part between two slashes is
      empty, a single dot or two dots; the parts are then what the path consists of. */
  lemma EscapedPathExactly(path: Bytes, utf8: Bytes -> bool)
    ensures Decoded(Encoded(path), utf8) ==
      if utf8(path) && [] !in Split(path) && [46] !in Split(path) && [46, 46] !in Split(path) then Ok(Split(path))
      else Err(InvalidEncodedPath)
  {
    hide Unescaped, Encoded, Split;
    UnescapeEncoded(path);
  }

  /** Digits are read in either case, and nothing else is a digit. */
  lemma HexValueExactly(c: char, d: nat)
    ensures HexValue(c) == Some(d) <==> d < 16 && (c == UPPER_HEX[d] || c == LOWER_HEX[d])
  {
    if d < 16 {
      assert UPPER_HEX[d] == if d < 10 then '0' + d as char else 'A' + (d - 10) as char;
      assert LOWER_HEX[d] == if d < 10 then '0' + d as char else 'a' + (d - 10) as char;
    }
  }

  /** An escape in either case is read as the byte it writes, wherever it stands. */
  lemma EscapeIsRead(high: char, low: char, x: nat, y: nat, rest: string)
    requires x < 16 && y < 16 && (high == UPPER_HEX[x] || high == LOWER_HEX[x]) && (low == UPPER_HEX[y] || low == LOWER_HEX[y])
    ensures Unescaped(['%', high, low] + rest) == Cons(x * 16 + y, Unescaped(rest))
  {
    HexValueExactly(high, x);
    HexValueExactly(low, y);
    var s := ['%', high, low] + rest;
    assert s[3..] == rest;
  }

  /** After a text that can be read, a percent sign without two digits after it makes the whole invalid. */
  lemma {:induction false} BrokenEscapeIsRejected(before: string, after: string)
    requires Unescaped(before).Some?
    requires |after| < 2 || HexValue(after[0]).None? || HexValue(after[1]).None?
    ensures Unescaped(before + ("%" + after)) == None
    decreases |before|
  {
    var s := before + ("%" + after);
    if before == "" {
      assert s == "%" + after;
      assert |after| >= 2 ==> s[1] == after[0] && s[2] == after[1];
    } else if before[0] == '%' {
      assert s[..3] == before[..3];
      assert s[3..] == before[3..] + ("%" + after);
      BrokenEscapeIsRejected(before[3..], after);
    } else {
      assert s[0] == before[0] && s[1..] == before[1..] + ("%" + after);
      BrokenEscapeIsRejected(before[1..], after);
    }
  }

  /** Any other character stands for itself. */
  lemma PlainIsRead(c: char, rest: string)
    requires c != '%'
    ensures Unescaped([c] + rest) == Cons(ByteOf(c), Unescaped(rest))
  {
    assert ([c] + rest)[1..] == rest;
  }

  lemma {:induction false} DecimalAbove(n: nat)
    requires n > U32_MAX
    ensures ParseU32(Decimal(n)) == None
  {
    DigitsValueOfDecimal(n);
    assert Decimal(n)[0] in Decimal(n);
  }

  /** A printed span is accepted exactly when it is one: from a first line of at least 1 to a last line that is not
      before it and fits 32 bits. */
  lemma PrintedSpanExactly(encoded: string, first: nat, last: nat)
    requires '#' !in encoded
    ensures ParseSuffix(encoded + SpanSuffix(Span(first, last))) ==
      if 1 <= first <= last <= U32_MAX then Ok((encoded, Some(Span(first, last)))) else Err(InvalidSourceHandle)
  {
    hide Decimal, IndexOf, ParseU32, LastIndexOf;
    var range := Decimal(first) + MIDDLE + Decimal(last);
    var s := encoded + SpanSuffix(Span(first, last));
    RangeWithoutHash(first, last);
    LastHash(encoded, range);
    assert s == encoded + OPEN + range;
    assert s[|encoded| + 2..] == range && s[..|encoded|] == encoded;
    SplitRange(first, last);
    ParsedDecimal(first);
    ParsedDecimal(last);
  }

  lemma ParsedDecimal(n: nat)
    ensures ParseU32(Decimal(n)) == if n <= U32_MAX then Some(n) else None
  {
    if n <= U32_MAX {
      ParsePrinted(n);
    } else {
      DecimalAbove(n);
    }
  }

  lemma RangeWithoutHash(first: nat, last: nat)
    ensures '#' !in Decimal(first) + MIDDLE + Decimal(last)
  {
    assert forall c | c in Decimal(first) || c in Decimal(last) :: IsDigit(c);
  }

  lemma SplitRange(first: nat, last: nat)
    ensures var range := Decimal(first) + MIDDLE + Decimal(last); var dash := IndexOf(range, MIDDLE);
      dash == |Decimal(first)| && range[..dash] == Decimal(first) && range[dash + 2..] == Decimal(last)
  {
    var a, b := Decimal(first), Decimal(last);
    var range := a + MIDDLE + b;
    assert OccursAt(range, MIDDLE, |a|);
    forall k: nat | k < |a| ensures !OccursAt(range, MIDDLE, k) {
      FirstChar(range, MIDDLE, k);
      assert range[k] == a[k] && a[k] in a;
    }
    assert range[..|a|] == a && range[|a| + 2..] == b;
  }

  /** A suffix with a first line but no last line is rejected. */
  lemma HalfSpanIsRejected(encoded: string, first: nat)
    requires '#' !in encoded
    ensures ParseSuffix(encoded + OPEN + Decimal(first)) == Err(InvalidSourceHandle)
  {
    hide Decimal, ParseU32, LastIndexOf;
    var range := Decimal(first);
    var s := encoded + OPEN + range;
    assert forall c | c in range :: IsDigit(c);
    LastHash(encoded, range);
    assert s[|encoded| + 2..] == range;
    forall k: nat ensures !OccursAt(range, MIDDLE, k) {
      FirstChar(range, MIDDLE, k);
      assert k < |range| ==> range[k] in range;
    }
  }
}
