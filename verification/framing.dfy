// The bytes that a context bundle feeds to its hasher.

module HashFraming {
  import opened Texts
  import opened LineSplitting

  /** What of an item the bundle hash covers. The lengths are a machine's: they fit 64 bits. */
  datatype HashedItem = HashedItem(sourceId: Bytes, contentHash: Bytes, score: nat, tokens: nat)

  predicate IsHashable(item: HashedItem) {
    |item.sourceId| <= U64_MAX && |item.contentHash| <= U64_MAX && item.score <= U32_MAX && item.tokens <= U64_MAX
  }

  predicate AreHashable(items: seq<HashedItem>) {
    forall k | 0 <= k < |items| :: IsHashable(items[k])
  }

  /** `to_be_bytes`: the last `width` digits to base 256. */
  function BigEndian(n: nat, width: nat): (r: Bytes)
    ensures |r| == width
  {
    if width == 0 then [] else BigEndian(n / 256, width - 1) + [n % 256]
  }

  function FromBigEndian(bytes: Bytes): nat {
    if bytes == [] then 0 else FromBigEndian(bytes[..|bytes| - 1]) * 256 + bytes[|bytes| - 1]
  }

  function Power256(width: nat): nat {
    if width == 0 then 1 else 256 * Power256(width - 1)
  }

  function Framed(value: Bytes): Bytes {
    BigEndian(if |value| > U64_MAX then U64_MAX else |value|, 8) + value
  }

  function Frame(item: HashedItem): Bytes {
    Framed(item.sourceId) + Framed(item.contentHash) + BigEndian(item.score, 4) + BigEndian(item.tokens, 8)
  }

  /** The whole input of the hasher. */
  function Frames(items: seq<HashedItem>): Bytes {
    if items == [] then [] else Frame(items[0]) + Frames(items[1..])
  }

  /** An incremental hasher, known by what it has been fed. */
  class Hasher {
    var fed: Bytes

    constructor ()
      ensures fed == []
    {
      fed := [];
    }

    method Update(bytes: Bytes)
      modifies this
      ensures fed == old(fed) + bytes
    {
      fed := fed + bytes;
    }

    method UpdateFramed(value: Bytes)
      modifies this
      ensures fed == old(fed) + Framed(value)
    {
      var length := if |value| > U64_MAX then U64_MAX else |value|;
      Update(BigEndian(length, 8));
      Update(value);
      ConcatAssoc(old(fed), BigEndian(length, 8), value);
    }
  }

  function HexDigit(n: nat): char
    requires n < 16
  {
    if n < 10 then '0' + n as char else 'a' + (n - 10) as char
  }

  function Hex(digest: Bytes): (r: string)
    ensures |r| == 2 * |digest|
  {
    if digest == [] then "" else [HexDigit(digest[0] / 16), HexDigit(digest[0] % 16)] + Hex(digest[1..])
  }

  /** `sha` is the digest, of which nothing is known here. */
  method HashBundle(items: seq<HashedItem>, sha: Bytes -> Bytes) returns (hash: string)
    ensures hash == Hex(sha(Frames(items)))
  {
    var hasher := new Hasher();
    assert items[0..] == items;
    for n := 0 to |items|
      invariant hasher.fed + Frames(items[n..]) == Frames(items)
      invariant fresh(hasher)
    {
      ghost var was := hasher.fed;
      var item := items[n];
      hasher.UpdateFramed(item.sourceId);
      hasher.UpdateFramed(item.contentHash);
      hasher.Update(BigEndian(item.score, 4));
      hasher.Update(BigEndian(item.tokens, 8));
      JoinFrame(was, item);
      assert items[n..][1..] == items[n + 1..];
      ConcatAssoc(was, Frame(item), Frames(items[n + 1..]));
    }
    assert Frames(items[|items|..]) == [];
    assert hasher.fed + [] == hasher.fed;
    hash := Hex(sha(hasher.fed));
  }

  lemma JoinFrame(was: Bytes, item: HashedItem)
    ensures was + Framed(item.sourceId) + Framed(item.contentHash) + BigEndian(item.score, 4) + BigEndian(item.tokens, 8)
         == was + Frame(item)
  {
    hide Framed, BigEndian;
  }

  // ---------- the layout, byte by byte ----------

  /** The most significant byte comes first: appending a digit to a number appends its byte. */
  lemma LowByteIsLast(n: nat, digit: Byte, width: nat)
    requires width > 0
    ensures BigEndian(n * 256 + digit, width) == BigEndian(n, width - 1) + [digit]
  {
    assert (n * 256 + digit) / 256 == n && (n * 256 + digit) % 256 == digit;
  }

  /** Where the parts of a frame are: eight bytes of length and the source id, eight bytes of length and the content
      hash, four bytes of score, eight bytes of tokens. */
  lemma FrameLayout(item: HashedItem)
    requires IsHashable(item)
    ensures var f, m, n := Frame(item), |item.sourceId|, |item.contentHash|;
      && |f| == m + n + 28
      && f[..8] == BigEndian(m, 8) && f[8..8 + m] == item.sourceId
      && f[8 + m..16 + m] == BigEndian(n, 8) && f[16 + m..16 + m + n] == item.contentHash
      && f[16 + m + n..20 + m + n] == BigEndian(item.score, 4) && f[20 + m + n..] == BigEndian(item.tokens, 8)
  {
    hide BigEndian;
    SixParts(BigEndian(|item.sourceId|, 8), item.sourceId, BigEndian(|item.contentHash|, 8), item.contentHash,
             BigEndian(item.score, 4), BigEndian(item.tokens, 8));
  }

  lemma SixParts(a: Bytes, b: Bytes, c: Bytes, d: Bytes, e: Bytes, f: Bytes)
    ensures var s := (a + b) + (c + d) + e + f; var i, j, k, l, m := |a|, |a| + |b|, |a| + |b| + |c|, |a| + |b| + |c| + |d|, |a| + |b| + |c| + |d| + |e|;
      |s| == m + |f| && s[..i] == a && s[i..j] == b && s[j..k] == c && s[k..l] == d && s[l..m] == e && s[m..] == f
  {
  }

  /** A digest of 32 bytes is written as 64 lower-case hexadecimal characters, high half first. */
  lemma {:induction false} HexDigits(digest: Bytes, i: nat)
    requires i < |digest|
    ensures var r := Hex(digest); var digits := "0123456789abcdef";
      |r| == 2 * |digest| && r[2 * i] == digits[digest[i] / 16] && r[2 * i + 1] == digits[digest[i] % 16]
    decreases |digest|
  {
    if i == 0 {
      DigitIs(digest[0] / 16);
      DigitIs(digest[0] % 16);
    } else {
      HexDigits(digest[1..], i - 1);
    }
  }

  lemma DigitIs(n: nat)
    requires n < 16
    ensures HexDigit(n) == "0123456789abcdef"[n]
  {
  }

  // ---------- the framing is injective ----------

  lemma {:induction false} BigEndianValue(n: nat, width: nat)
    requires n < Power256(width)
    ensures FromBigEndian(BigEndian(n, width)) == n
  {
    if width > 0 {
      BigEndianValue(n / 256, width - 1);
      assert BigEndian(n, width)[..width - 1] == BigEndian(n / 256, width - 1);
    }
  }

  lemma Widths()
    ensures Power256(4) == U32_MAX + 1 && Power256(8) == U64_MAX + 1
  {
    assert Power256(1) == 256 && Power256(2) == 0x1_0000 && Power256(3) == 0x100_0000 && Power256(4) == 0x1_0000_0000;
    assert Power256(5) == 0x100_0000_0000 && Power256(6) == 0x1_0000_0000_0000;
    assert Power256(7) == 0x100_0000_0000_0000;
  }

  /** Equal-length heads of equal streams are equal, and so is what follows. */
  lemma SplitAt(a: Bytes, x: Bytes, b: Bytes, y: Bytes)
    requires |a| == |b| && a + x <= b + y
    ensures a == b && x <= y
  {
    assert a == (a + x)[..|a|] == (b + y)[..|a|] == b;
    assert x == (a + x)[|a|..] && y == (b + y)[|a|..];
    assert x == (b + y)[..|a + x|][|a|..];
  }

  lemma NumberFirst(m: nat, x: Bytes, n: nat, y: Bytes, width: nat)
    requires m < Power256(width) && n < Power256(width)
    requires BigEndian(m, width) + x <= BigEndian(n, width) + y
    ensures m == n && x <= y
  {
    SplitAt(BigEndian(m, width), x, BigEndian(n, width), y);
    BigEndianValue(m, width);
    BigEndianValue(n, width);
  }

  lemma FramedFirst(v: Bytes, x: Bytes, w: Bytes, y: Bytes)
    requires |v| <= U64_MAX && |w| <= U64_MAX && Framed(v) + x <= Framed(w) + y
    ensures v == w && x <= y
  {
    hide BigEndian, Power256;
    Widths();
    ConcatAssoc(BigEndian(|v|, 8), v, x);
    ConcatAssoc(BigEndian(|w|, 8), w, y);
    NumberFirst(|v|, v + x, |w|, w + y, 8);
    SplitAt(v, x, w, y);
  }

  lemma JoinRest(a: Bytes, b: Bytes, c: Bytes, d: Bytes, x: Bytes)
    ensures (a + b + c + d) + x == a + (b + (c + (d + x)))
  {
  }

  /** A frame can be read off the front of a stream in only one way. */
  lemma FrameFirst(a: HashedItem, x: Bytes, b: HashedItem, y: Bytes)
    requires IsHashable(a) && IsHashable(b) && Frame(a) + x <= Frame(b) + y
    ensures a == b && x <= y
  {
    hide BigEndian, Power256, Framed;
    Widths();
    var scoreA, tokensA := BigEndian(a.score, 4), BigEndian(a.tokens, 8);
    var scoreB, tokensB := BigEndian(b.score, 4), BigEndian(b.tokens, 8);
    JoinRest(Framed(a.sourceId), Framed(a.contentHash), scoreA, tokensA, x);
    JoinRest(Framed(b.sourceId), Framed(b.contentHash), scoreB, tokensB, y);
    FramedFirst(a.sourceId, Framed(a.contentHash) + (scoreA + (tokensA + x)),
                b.sourceId, Framed(b.contentHash) + (scoreB + (tokensB + y)));
    FramedFirst(a.contentHash, scoreA + (tokensA + x), b.contentHash, scoreB + (tokensB + y));
    NumberFirst(a.score, tokensA + x, b.score, tokensB + y, 4);
    NumberFirst(a.tokens, x, b.tokens, y, 8);
  }

  lemma FrameIsNotEmpty(item: HashedItem)
    ensures |Frame(item)| >= 28
  {
  }

  lemma {:induction false} FramesAppend(a: seq<HashedItem>, b: seq<HashedItem>)
    ensures Frames(a + b) == Frames(a) + Frames(b)
  {
    hide Frame;
    if a == [] {
      assert a + b == b;
    } else {
      assert (a + b)[1..] == a[1..] + b;
      FramesAppend(a[1..], b);
      ConcatAssoc(Frame(a[0]), Frames(a[1..]), Frames(b));
    }
  }

  lemma {:induction false} PrefixOfFrames(a: seq<HashedItem>, b: seq<HashedItem>)
    requires AreHashable(a) && AreHashable(b) && Frames(a) <= Frames(b)
    ensures a <= b
  {
    hide Frame;
    if a != [] {
      FrameIsNotEmpty(a[0]);
      if b != [] {
        FrameFirst(a[0], Frames(a[1..]), b[0], Frames(b[1..]));
        PrefixOfFrames(a[1..], b[1..]);
        assert a == [a[0]] + a[1..] && b == [b[0]] + b[1..];
      }
    }
  }

  /** The framing loses nothing and records no count, yet the bytes of one bundle begin with the bytes of
      another exactly when its items begin with the other's items. */
  lemma FramesPrefixExactly(a: seq<HashedItem>, b: seq<HashedItem>)
    requires AreHashable(a) && AreHashable(b)
    ensures Frames(a) <= Frames(b) <==> a <= b
  {
    if Frames(a) <= Frames(b) {
      PrefixOfFrames(a, b);
    }
    if a <= b {
      FramesAppend(a, b[|a|..]);
      assert b == a + b[|a|..];
    }
  }

  /** Two bundles feed the hasher the same bytes only if their items agree in all that is hashed. */
  lemma FramesInjective(a: seq<HashedItem>, b: seq<HashedItem>)
    requires AreHashable(a) && AreHashable(b)
    ensures Frames(a) == Frames(b) <==> a == b
  {
    FramesPrefixExactly(a, b);
    FramesPrefixExactly(b, a);
  }

  lemma {:induction false} HexInjective(a: Bytes, b: Bytes)
    requires Hex(a) == Hex(b)
    ensures a == b
  {
    if a != [] && b != [] {
      var s, t := Hex(a), Hex(b);
      assert s[0] == HexDigit(a[0] / 16) && s[1] == HexDigit(a[0] % 16) && s[2..] == Hex(a[1..]);
      assert t[0] == HexDigit(b[0] / 16) && t[1] == HexDigit(b[0] % 16) && t[2..] == Hex(b[1..]);
      HexInjective(a[1..], b[1..]);
      assert a[0] == b[0];
      assert a == [a[0]] + a[1..] && b == [b[0]] + b[1..];
    }
  }

  /** Bundles with the same hash have the same items, unless the digest itself collides on two inputs. */
  lemma EqualHashesMeanEqualItems(a: seq<HashedItem>, b: seq<HashedItem>, sha: Bytes -> Bytes)
    requires AreHashable(a) && AreHashable(b)
    requires Hex(sha(Frames(a))) == Hex(sha(Frames(b)))
    ensures a == b || (Frames(a) != Frames(b) && sha(Frames(a)) == sha(Frames(b)))
  {
    FramesInjective(a, b);
    HexInjective(sha(Frames(a)), sha(Frames(b)));
  }
}
