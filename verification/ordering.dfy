// The standard library's stable sort, by a comparison, and what makes its result unique.

module Ordering {

  function Insert<T>(x: T, s: seq<T>, leq: (T, T) -> bool): seq<T> {
    if s == [] || leq(x, s[0]) then [x] + s else [s[0]] + Insert(x, s[1..], leq)
  }

  /** Equal elements keep their order. */
  function Sort<T>(s: seq<T>, leq: (T, T) -> bool): seq<T> {
    if s == [] then [] else Insert(s[0], Sort(s[1..], leq), leq)
  }

  ghost predicate TotalPreorder<T(!new)>(leq: (T, T) -> bool) {
    && (forall x, y :: leq(x, y) || leq(y, x))
    && (forall x, y, z :: leq(x, y) && leq(y, z) ==> leq(x, z))
  }

  ghost predicate StrictOrder<T(!new)>(lt: (T, T) -> bool) {
    && (forall x, y :: lt(x, y) ==> !lt(y, x))
    && (forall x, y, z :: lt(x, y) && lt(y, z) ==> lt(x, z))
  }

  /** x comes before y: smaller, or equal and first by the tie breaker. */
  predicate Before<T>(x: T, y: T, leq: (T, T) -> bool, tie: (T, T) -> bool) {
    leq(x, y) && (!leq(y, x) || tie(x, y))
  }

  ghost predicate Chain<T>(s: seq<T>, leq: (T, T) -> bool, tie: (T, T) -> bool) {
    forall i, j | 0 <= i < j < |s| :: Before(s[i], s[j], leq, tie)
  }

  ghost predicate Ascending<T>(s: seq<T>, lt: (T, T) -> bool) {
    forall i, j | 0 <= i < j < |s| :: lt(s[i], s[j])
  }

  lemma {:induction false} InsertMembers<T>(x: T, s: seq<T>, leq: (T, T) -> bool)
    ensures multiset(Insert(x, s, leq)) == multiset(s) + multiset{x}
    ensures |Insert(x, s, leq)| == |s| + 1
    ensures forall y :: y in Insert(x, s, leq) <==> y == x || y in s
  {
    if s != [] && !leq(x, s[0]) {
      InsertMembers(x, s[1..], leq);
      assert s == [s[0]] + s[1..];
    }
  }

  lemma {:induction false} SortMembers<T>(s: seq<T>, leq: (T, T) -> bool)
    ensures multiset(Sort(s, leq)) == multiset(s) && |Sort(s, leq)| == |s|
    ensures forall y :: y in Sort(s, leq) <==> y in s
  {
    if s != [] {
      SortMembers(s[1..], leq);
      InsertMembers(s[0], Sort(s[1..], leq), leq);
      assert s == [s[0]] + s[1..];
    }
  }

  lemma {:induction false} InsertChain<T(!new)>(x: T, s: seq<T>, leq: (T, T) -> bool, tie: (T, T) -> bool)
    requires TotalPreorder(leq) && Chain(s, leq, tie) && forall y | y in s :: tie(x, y)
    ensures Chain(Insert(x, s, leq), leq, tie)
  {
    var r := Insert(x, s, leq);
    if s != [] && !leq(x, s[0]) {
      var t := Insert(x, s[1..], leq);
      InsertChain(x, s[1..], leq, tie);
      InsertMembers(x, s[1..], leq);
      forall j | 0 < j < |r| ensures Before(r[0], r[j], leq, tie) {
        assert r[j] == t[j - 1] && t[j - 1] in t;
        if r[j] != x {
          var k :| 0 <= k < |s[1..]| && s[1..][k] == r[j];
          assert r[j] == s[k + 1];
        }
      }
      assert forall i, j | 0 < i < j < |r| :: r[i] == t[i - 1] && r[j] == t[j - 1];
    } else if s != [] {
      forall j | 0 < j < |r| ensures Before(r[0], r[j], leq, tie) {
        assert r[j] == s[j - 1];
        assert j > 1 ==> leq(s[0], s[j - 1]);
      }
    }
  }

  /** Sorting a list that already ascends by the tie breaker gives a chain: ordered by the comparison,
      and by the tie breaker among equals. */
  lemma {:induction false} SortChain<T(!new)>(s: seq<T>, leq: (T, T) -> bool, tie: (T, T) -> bool)
    requires TotalPreorder(leq) && Ascending(s, tie)
    ensures Chain(Sort(s, leq), leq, tie)
  {
    if s != [] {
      SortChain(s[1..], leq, tie);
      SortMembers(s[1..], leq);
      forall y | y in Sort(s[1..], leq) ensures tie(s[0], y) {
        var k :| 0 <= k < |s[1..]| && s[1..][k] == y;
        assert y == s[k + 1];
      }
      InsertChain(s[0], Sort(s[1..], leq), leq, tie);
    }
  }

  /** A chain is determined by its members. */
  lemma {:induction false} ChainUnique<T(!new)>(s: seq<T>, t: seq<T>, leq: (T, T) -> bool, tie: (T, T) -> bool)
    requires StrictOrder(tie) && Chain(s, leq, tie) && Chain(t, leq, tie)
    requires forall y :: y in s <==> y in t
    ensures s == t
  {
    assert s != [] ==> s[0] in s;
    assert t != [] ==> t[0] in t;
    if s != [] && t != [] {
      var x, y := s[0], t[0];
      ChainHead(s, y, leq, tie);
      ChainHead(t, x, leq, tie);
      ChainTail(s, leq, tie);
      ChainTail(t, leq, tie);
      TailMembers(s);
      TailMembers(t);
      ChainUnique(s[1..], t[1..], leq, tie);
      assert s == [x] + s[1..] && t == [y] + t[1..];
    }
  }

  lemma ChainHead<T(!new)>(s: seq<T>, y: T, leq: (T, T) -> bool, tie: (T, T) -> bool)
    requires Chain(s, leq, tie) && y in s
    ensures y == s[0] || Before(s[0], y, leq, tie)
  {
  }

  lemma ChainTail<T(!new)>(s: seq<T>, leq: (T, T) -> bool, tie: (T, T) -> bool)
    requires s != [] && StrictOrder(tie) && Chain(s, leq, tie)
    ensures Chain(s[1..], leq, tie) && s[0] !in s[1..]
  {
    forall k | 0 <= k < |s| - 1 ensures s[1..][k] != s[0] {
      assert Before(s[0], s[k + 1], leq, tie);
    }
  }

  lemma TailMembers<T>(s: seq<T>)
    requires s != [] && s[0] !in s[1..]
    ensures forall z :: z in s[1..] <==> z in s && z != s[0]
  {
    assert s == [s[0]] + s[1..];
  }

  // ---------- permutations ----------

  function Mapped<T, U>(f: T -> U, s: seq<T>): (r: seq<U>)
    ensures |r| == |s|
  {
    seq(|s|, k requires 0 <= k < |s| => f(s[k]))
  }

  lemma MappedAppend<T, U>(f: T -> U, a: seq<T>, b: seq<T>)
    ensures Mapped(f, a + b) == Mapped(f, a) + Mapped(f, b)
  {
  }

  function Without<T>(s: seq<T>, j: nat): (r: seq<T>)
    requires j < |s|
    ensures |r| == |s| - 1
  {
    s[..j] + s[j + 1..]
  }

  lemma Remove<T>(s: seq<T>, j: nat)
    requires j < |s|
    ensures multiset(s) == multiset(Without(s, j)) + multiset{s[j]}
    ensures multiset(Without(s, j)) == multiset(s) - multiset{s[j]}
  {
    assert s == s[..j] + ([s[j]] + s[j + 1..]);
  }

  lemma MappedWithout<T, U>(f: T -> U, s: seq<T>, j: nat)
    requires j < |s|
    ensures Mapped(f, Without(s, j)) == Without(Mapped(f, s), j) && Mapped(f, s)[j] == f(s[j])
  {
  }

  /** The images of a permutation are a permutation of the images. */
  lemma {:induction false} MapPermutation<T, U>(f: T -> U, a: seq<T>, b: seq<T>)
    requires multiset(a) == multiset(b)
    ensures multiset(Mapped(f, a)) == multiset(Mapped(f, b))
    decreases |a|
  {
    hide Mapped, Without;
    assert |a| == |multiset(a)| == |b|;
    if a != [] {
      assert a[0] in multiset(a);
      var j :| 0 <= j < |b| && b[j] == a[0];
      Remove(a, 0);
      Remove(b, j);
      MapPermutation(f, Without(a, 0), Without(b, j));
      MappedWithout(f, a, 0);
      MappedWithout(f, b, j);
      Remove(Mapped(f, a), 0);
      Remove(Mapped(f, b), j);
    } else {
      assert Mapped(f, a) == Mapped(f, b);
    }
  }

  /** Distinct places with equal elements count twice. */
  lemma CountTwice<T>(s: seq<T>, i: nat, j: nat)
    requires i < j < |s| && s[i] == s[j]
    ensures multiset(s)[s[i]] >= 2
  {
    Remove(s, j);
    assert Without(s, j)[i] == s[i];
  }
}
