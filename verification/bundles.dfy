// What a context bundle promises: determinism, conservation, the budget, and rebuilding.

module ContextBundles {
  import opened Texts
  import opened Relevance
  import opened GreedyPacking
  import opened ContextPacker
  import Ordering
  import LineSplitting
  import HashFraming

  // ---------- the winner of a content hash ----------

  /** No earlier or later candidate of its class beats it, and it beats all earlier ones. */
  predicate Beats(cs: seq<Candidate>, n: nat, k: nat)
    requires k < n <= |cs|
  {
    forall j | 0 <= j < n && cs[j].contentHash == cs[k].contentHash ::
      !Better(cs[j], cs[k]) && (j < k ==> Better(cs[k], cs[j]))
  }

  lemma BetterThrough(c: Candidate, d: Candidate, e: Candidate)
    requires Better(c, d) && !Better(e, d)
    ensures Better(c, e) && !Better(e, c)
  {
    hide Better;
    BetterTotal(c, d);
    BetterTotal(c, e);
    if !Better(c, e) {
      BetterTransitive(d, e, c);
    }
  }

  /** k is the first of the best of the class h among the first n. */
  predicate IsClassWinner(cs: seq<Candidate>, n: nat, h: string, k: nat)
    requires n <= |cs|
  {
    k < n && cs[k].contentHash == h && Beats(cs, n, k)
  }

  lemma {:induction false} WinnerBeats(cs: seq<Candidate>, n: nat, h: string)
    requires n <= |cs| && h in Winners(cs, n)
    ensures IsClassWinner(cs, n, h, Winners(cs, n)[h])
  {
    hide Winners, Better, AreWinners, IsClassWinner, NextWinner;
    if n == 0 {
      NoWinners(cs);
    } else {
      WinnersNext(cs, n - 1);
      if h in Winners(cs, n - 1) {
        WinnerBeats(cs, n - 1, h);
      }
      BeatsNext(cs, n - 1, h);
    }
  }

  lemma BeatsNext(cs: seq<Candidate>, n: nat, h: string)
    requires n < |cs| && h in NextWinner(cs, n, Winners(cs, n))
    requires h in Winners(cs, n) ==> IsClassWinner(cs, n, h, Winners(cs, n)[h])
    ensures IsClassWinner(cs, n + 1, h, NextWinner(cs, n, Winners(cs, n))[h])
  {
    hide Winners, Better, AreWinners;
    var c, w := cs[n], Winners(cs, n);
    BetterTotal(c, c);
    forall j | 0 <= j < n ensures cs[j].contentHash in w {
      HasWinner(cs, n, j);
    }
    if h in w {
      var k := w[h];
      if h == c.contentHash && Better(c, cs[k]) {
        forall j | 0 <= j < n && cs[j].contentHash == h ensures Better(c, cs[j]) && !Better(cs[j], c) {
          BetterThrough(c, cs[k], cs[j]);
        }
      }
    }
  }

  lemma HasWinner(cs: seq<Candidate>, n: nat, k: nat)
    requires k < n <= |cs|
    ensures cs[k].contentHash in Winners(cs, n)
  {
    hide Winners;
  }

  /** Every candidate's class has exactly one kept index, and it beats the class. */
  lemma KeptIndex(cs: seq<Candidate>, k: nat)
    requires k < |cs|
    ensures cs[k].contentHash in WinnersOf(cs)
    ensures var best := WinnersOf(cs)[cs[k].contentHash];
      best < |cs| && cs[best].contentHash == cs[k].contentHash && IsKept(cs, best) && Beats(cs, |cs|, best)
  {
    hide Winners, Beats, AreWinners;
    HasWinner(cs, |cs|, k);
    WinnerBeats(cs, |cs|, cs[k].contentHash);
  }

  lemma {:induction false} KeptFrom(cs: seq<Candidate>, n: nat, c: Candidate) returns (k: nat)
    requires n <= |cs| && c in Kept(cs, n)
    ensures k < n && IsKept(cs, k) && cs[k] == c
  {
    hide WinnersOf;
    assert n > 0;
    if IsKept(cs, n - 1) && cs[n - 1] == c {
      k := n - 1;
    } else {
      k := KeptFrom(cs, n - 1, c);
    }
  }

  lemma {:induction false} KeptHas(cs: seq<Candidate>, n: nat, k: nat)
    requires k < n <= |cs| && IsKept(cs, k)
    ensures cs[k] in Kept(cs, n)
  {
    hide WinnersOf;
    if k < n - 1 {
      KeptHas(cs, n - 1, k);
    }
  }

  /** One element for each content hash. */
  predicate OnePerHash(s: seq<Candidate>) {
    && (forall c, d | c in s && d in s && c.contentHash == d.contentHash :: c == d)
    && (forall c | c in s :: multiset(s)[c] == 1)
  }

  lemma {:induction false} KeptOnePerHash(cs: seq<Candidate>, n: nat)
    requires n <= |cs|
    ensures OnePerHash(Kept(cs, n))
  {
    hide IsKept, WinnersOf, OnePerHash;
    if n == 0 {
      NothingTwice();
    } else {
      KeptOnePerHash(cs, n - 1);
      if IsKept(cs, n - 1) {
        var before := Kept(cs, n - 1);
        forall c | c in before ensures c.contentHash != cs[n - 1].contentHash {
          var k := KeptFrom(cs, n - 1, c);
          KeptDiffer(cs, k, n - 1);
        }
        OneMore(before, cs[n - 1]);
      }
    }
  }

  lemma NothingTwice()
    ensures OnePerHash([])
  {
  }

  lemma KeptDiffer(cs: seq<Candidate>, i: nat, j: nat)
    requires i < j < |cs| && IsKept(cs, i) && IsKept(cs, j)
    ensures cs[i].contentHash != cs[j].contentHash
  {
    hide WinnersOf;
  }

  lemma OneMore(s: seq<Candidate>, c: Candidate)
    requires OnePerHash(s) && forall d | d in s :: d.contentHash != c.contentHash
    ensures OnePerHash(s + [c])
  {
    var t := s + [c];
    assert c !in s;
    forall d | d in t ensures multiset(t)[d] == 1 {
      assert d in s || d == c;
    }
  }

  /** What is kept is the best of its class. */
  lemma KeptIsBest(cs: seq<Candidate>, c: Candidate)
    requires c in Kept(cs, |cs|)
    ensures IsBest(c, cs)
  {
    hide Better, Kept;
    var k := KeptFrom(cs, |cs|, c);
    KeptIndex(cs, k);
    hide WinnersOf, AreWinners;
    assert Beats(cs, |cs|, k);
    forall d | d in cs && d.contentHash == c.contentHash ensures !Better(d, c) {
      var j :| 0 <= j < |cs| && cs[j] == d;
    }
  }

  /** No content hash has two different best candidates. */
  ghost predicate UniqueBests(cs: seq<Candidate>) {
    forall c, d | IsBest(c, cs) && IsBest(d, cs) && c.contentHash == d.contentHash :: c == d
  }

  predicate DistinctIds(cs: seq<Candidate>) {
    forall i, j | 0 <= i < j < |cs| :: cs[i].sourceId != cs[j].sourceId
  }

  lemma DistinctIdsSuffice(cs: seq<Candidate>)
    requires DistinctIds(cs)
    ensures UniqueBests(cs)
  {
    forall c, d | IsBest(c, cs) && IsBest(d, cs) && c.contentHash == d.contentHash ensures c == d {
      BetterTotal(c, d);
      var i :| 0 <= i < |cs| && cs[i] == c;
      var j :| 0 <= j < |cs| && cs[j] == d;
    }
  }

  /** The best candidate of a class that some candidate belongs to is kept. */
  lemma KeptOfClass(cs: seq<Candidate>, c: Candidate) returns (best: Candidate)
    requires c in cs
    ensures best in Kept(cs, |cs|) && best.contentHash == c.contentHash
  {
    hide Better, Kept, IsKept, WinnersOf, AreWinners;
    var i :| 0 <= i < |cs| && cs[i] == c;
    KeptIndex(cs, i);
    var k := WinnersOf(cs)[c.contentHash];
    KeptHas(cs, |cs|, k);
    best := cs[k];
  }

  /** The kept candidates are exactly the best of their classes. */
  lemma KeptExactly(cs: seq<Candidate>, c: Candidate)
    requires UniqueBests(cs)
    ensures c in Kept(cs, |cs|) <==> IsBest(c, cs)
  {
    hide Better, Kept;
    if c in Kept(cs, |cs|) {
      KeptIsBest(cs, c);
    }
    if IsBest(c, cs) {
      var best := KeptOfClass(cs, c);
      KeptIsBest(cs, best);
    }
  }

  // ---------- ranking ----------

  function Always(): (Candidate, Candidate) -> bool {
    (c: Candidate, d: Candidate) => true
  }

  lemma SortedByHash(s: seq<Candidate>)
    requires OnePerHash(s)
    ensures Ordering.Ascending(Ordering.Sort(s, ByHash()), StrictlyByHash())
  {
    hide Less;
    var t := Ordering.Sort(s, ByHash());
    HashIsPreorder();
    Ordering.SortChain(s, ByHash(), Always());
    Ordering.SortMembers(s, ByHash());
    forall i, j | 0 <= i < j < |t| ensures StrictlyByHash()(t[i], t[j]) {
      assert Ordering.Before(t[i], t[j], ByHash(), Always());
      LessTotal(t[i].contentHash, t[j].contentHash);
      DifferentHashes(s, t, i, j);
    }
  }

  lemma DifferentHashes(s: seq<Candidate>, t: seq<Candidate>, i: nat, j: nat)
    requires OnePerHash(s) && multiset(t) == multiset(s) && i < j < |t|
    ensures t[i].contentHash != t[j].contentHash
  {
    assert t[i] in multiset(t) && t[j] in multiset(t);
    assert t[i] in s && t[j] in s;
    if t[i] == t[j] {
      Ordering.CountTwice(t, i, j);
    }
  }

  ghost predicate IsRanking(s: seq<Candidate>) {
    Ordering.Chain(s, ByRank(), StrictlyByHash())
  }

  /** The ranking holds what is kept, better before worse, and by content hash where source ids tie. */
  lemma RankedIsRanking(cs: seq<Candidate>)
    ensures IsRanking(Ranked(cs)) && OnePerHash(Ranked(cs))
    ensures multiset(Ranked(cs)) == multiset(Kept(cs, |cs|))
    ensures forall c :: c in Ranked(cs) <==> c in Kept(cs, |cs|)
  {
    var kept := Kept(cs, |cs|);
    var byHash := Ordering.Sort(kept, ByHash());
    KeptOnePerHash(cs, |cs|);
    hide Kept, OnePerHash;
    SortedByHash(kept);
    RankIsPreorder();
    Ordering.SortMembers(kept, ByHash());
    Ordering.SortMembers(byHash, ByRank());
    Ordering.SortChain(byHash, ByRank(), StrictlyByHash());
    OnePerHashPermuted(kept, Ranked(cs));
  }

  /** A ranking goes by higher score, then by smaller source id, then by smaller content hash. */
  predicate RanksBefore(c: Candidate, d: Candidate) {
    || Score(c.signals) > Score(d.signals)
    || (Score(c.signals) == Score(d.signals) && Less(c.sourceId, d.sourceId))
    || (Score(c.signals) == Score(d.signals) && c.sourceId == d.sourceId && Less(c.contentHash, d.contentHash))
  }

  lemma RankingOrder(s: seq<Candidate>, i: nat, j: nat)
    requires IsRanking(s) && i < j < |s|
    ensures RanksBefore(s[i], s[j])
  {
    assert Ordering.Before(s[i], s[j], ByRank(), StrictlyByHash());
    hide Score, Less;
    BetterTotal(s[i], s[j]);
  }

  /** In every ranking the higher score comes first. */
  lemma HigherScoreRanksFirst(cs: seq<Candidate>, i: nat, j: nat)
    requires i < |Ranked(cs)| && j < |Ranked(cs)| && Score(Ranked(cs)[i].signals) > Score(Ranked(cs)[j].signals)
    ensures i < j
  {
    hide Ranked, Score, IsRanking;
    RankedIsRanking(cs);
    if j < i {
      RankingOrder(Ranked(cs), j, i);
    }
  }

  /** So of two ranked candidates whose signals differ only in a path match instead of a diagnostic, the path match
      comes first. */
  lemma PathRanksBeforeDiagnostic(cs: seq<Candidate>, i: nat, j: nat)
    requires i < |Ranked(cs)| && j < |Ranked(cs)|
    requires var s, t := Ranked(cs)[i].signals, Ranked(cs)[j].signals;
      s.pathMatch && !s.diagnostic && t == s.(pathMatch := false, diagnostic := true)
    ensures i < j
  {
    hide Ranked;
    HigherScoreRanksFirst(cs, i, j);
  }

  lemma OnePerHashPermuted(s: seq<Candidate>, t: seq<Candidate>)
    requires OnePerHash(s) && multiset(s) == multiset(t)
    ensures OnePerHash(t)
  {
    forall c | c in t ensures c in s {
      assert c in multiset(t);
    }
  }

  lemma RankingUnique(s: seq<Candidate>, t: seq<Candidate>)
    requires IsRanking(s) && IsRanking(t) && forall c :: c in s <==> c in t
    ensures s == t
  {
    HashIsPreorder();
    Ordering.ChainUnique(s, t, ByRank(), StrictlyByHash());
  }

  // ---------- determinism ----------

  lemma SameBest(cs: seq<Candidate>, cs': seq<Candidate>)
    requires multiset(cs) == multiset(cs')
    ensures (UniqueBests(cs) ==> UniqueBests(cs')) && forall c :: IsBest(c, cs) <==> IsBest(c, cs')
  {
    hide Better, Tied;
    SameMembers(cs, cs');
  }

  lemma SameMembers<T>(s: seq<T>, t: seq<T>)
    requires multiset(s) == multiset(t)
    ensures (forall c :: c in s <==> c in t) && |s| == |t|
  {
    forall c: T ensures c in s <==> c in t {
      assert c in multiset(s) <==> c in multiset(t);
    }
    assert |s| == |multiset(s)| && |t| == |multiset(t)|;
  }

  lemma SameRanking(cs: seq<Candidate>, cs': seq<Candidate>)
    requires multiset(cs) == multiset(cs') && UniqueBests(cs)
    ensures Ranked(cs) == Ranked(cs')
  {
    hide Ranked, IsRanking, OnePerHash, UniqueBests, IsBest, Kept;
    SameBest(cs, cs');
    RankedIsRanking(cs);
    RankedIsRanking(cs');
    forall c: Candidate ensures c in Ranked(cs) <==> c in Ranked(cs') {
      KeptExactly(cs, c);
      KeptExactly(cs', c);
    }
    RankingUnique(Ranked(cs), Ranked(cs'));
  }

  /** A best candidate that comes first is the one kept of its class. */
  lemma FirstBestIsRanked(cs: seq<Candidate>)
    requires cs != [] && IsBest(cs[0], cs)
    ensures cs[0] in Ranked(cs)
    ensures forall d | d in Ranked(cs) && d.contentHash == cs[0].contentHash :: d == cs[0]
  {
    hide Better, Kept, IsKept, WinnersOf, AreWinners, Ranked, IsRanking;
    KeptIndex(cs, 0);
    var k := WinnersOf(cs)[cs[0].contentHash];
    assert cs[k] in cs;
    KeptHas(cs, |cs|, k);
    RankedIsRanking(cs);
  }

  function ToFront(cs: seq<Candidate>, i: nat): (r: seq<Candidate>)
    requires i < |cs|
    ensures r != [] && r[0] == cs[i]
  {
    [cs[i]] + Ordering.Without(cs, i)
  }

  lemma ToFrontPermutes(cs: seq<Candidate>, i: nat)
    requires i < |cs|
    ensures multiset(ToFront(cs, i)) == multiset(cs)
  {
    hide Ordering.Without;
    Ordering.Remove(cs, i);
  }

  ghost predicate RankedAlike(cs: seq<Candidate>) {
    forall cs': seq<Candidate> | multiset(cs') == multiset(cs) :: Ranked(cs') == Ranked(cs)
  }

  /** The ranking does not depend on the order of the candidates exactly when no content hash has two
      different best candidates. */
  lemma RankingIsDeterministicExactly(cs: seq<Candidate>)
    ensures RankedAlike(cs) <==> UniqueBests(cs)
  {
    hide Ranked, IsBest;
    if UniqueBests(cs) {
      forall cs': seq<Candidate> | multiset(cs') == multiset(cs) ensures Ranked(cs') == Ranked(cs) {
        SameRanking(cs, cs');
      }
    }
    if c, d :| IsBest(c, cs) && IsBest(d, cs) && c.contentHash == d.contentHash && c != d {
      TwoRankings(cs, c, d);
    }
  }

  /** Two different best candidates of one class: moving either to the front gives a different ranking. */
  lemma TwoRankings(cs: seq<Candidate>, c: Candidate, d: Candidate)
    requires IsBest(c, cs) && IsBest(d, cs) && c.contentHash == d.contentHash && c != d
    ensures !RankedAlike(cs)
  {
    hide Ranked, Better, ToFront, Kept;
    var i :| 0 <= i < |cs| && cs[i] == c;
    var j :| 0 <= j < |cs| && cs[j] == d;
    var x, y := ToFront(cs, i), ToFront(cs, j);
    ToFrontPermutes(cs, i);
    ToFrontPermutes(cs, j);
    SameBest(cs, x);
    SameBest(cs, y);
    FirstBestIsRanked(x);
    FirstBestIsRanked(y);
    assert Ranked(x) != Ranked(y);
  }

  /** It happens with real candidates: the same source with the same content, ranked 800 for an exact match
      or for eight matching terms. */
  lemma TiesDependOnOrder(sourceId: string, contentHash: string, content: string)
    ensures var c := Candidate(sourceId, contentHash, content, Signals(true, 0, false, false, 0));
      var d := Candidate(sourceId, contentHash, content, Signals(false, 8, false, false, 0));
      !RankedAlike([c, d])
  {
    var c := Candidate(sourceId, contentHash, content, Signals(true, 0, false, false, 0));
    var d := Candidate(sourceId, contentHash, content, Signals(false, 8, false, false, 0));
    BetterTotal(c, d);
    BetterTotal(c, c);
    assert c in [c, d] && d in [c, d];
    TwoRankings([c, d], c, d);
  }

  lemma KeptIdsAgree(cs: seq<Candidate>, cs': seq<Candidate>, h: string)
    requires multiset(cs) == multiset(cs') && UniqueBests(cs) && h in KeptIds(cs)
    ensures h in KeptIds(cs') && KeptIds(cs')[h] == KeptIds(cs)[h]
  {
    hide Winners, Kept, Better, IsBest, UniqueBests, Ranked, IsRanking;
    SameBest(cs, cs');
    SameMembers(cs, cs');
    WinnerAt(cs, |cs|, h);
    var k := WinnersOf(cs)[h];
    assert cs[k] in cs;
    var j :| 0 <= j < |cs'| && cs'[j] == cs[k];
    KeptIndex(cs', j);
    var k' := WinnersOf(cs')[h];
    hide WinnersOf;
    KeptHas(cs, |cs|, k);
    KeptHas(cs', |cs'|, k');
    KeptExactly(cs, cs[k]);
    KeptExactly(cs', cs[k]);
    KeptOnePerHash(cs', |cs'|);
  }

  lemma KeptIdsAreDeterministic(cs: seq<Candidate>, cs': seq<Candidate>)
    requires multiset(cs) == multiset(cs') && UniqueBests(cs)
    ensures KeptIds(cs) == KeptIds(cs')
  {
    SameBest(cs, cs');
    hide KeptIds, UniqueBests, IsBest;
    forall h | h in KeptIds(cs) ensures h in KeptIds(cs') && KeptIds(cs')[h] == KeptIds(cs)[h] {
      KeptIdsAgree(cs, cs', h);
    }
    forall h | h in KeptIds(cs') ensures h in KeptIds(cs) {
      KeptIdsAgree(cs', cs, h);
    }
  }

  lemma {:induction false} KeptOrDropped(cs: seq<Candidate>, n: nat)
    requires n <= |cs|
    ensures multiset(Kept(cs, n)) + multiset(Dropped(cs, n)) == multiset(cs[..n])
    ensures |Kept(cs, n)| + |Dropped(cs, n)| == n
  {
    hide IsKept, Kept, Dropped;
    KeptStep(cs, n);
    if n > 0 {
      KeptOrDropped(cs, n - 1);
      LastOf(cs, n);
      Snoc(Kept(cs, n - 1), cs[n - 1]);
      Snoc(Dropped(cs, n - 1), cs[n - 1]);
    }
  }

  lemma KeptStep(cs: seq<Candidate>, n: nat)
    requires n <= |cs|
    ensures n == 0 ==> Kept(cs, n) == [] && Dropped(cs, n) == []
    ensures n > 0 ==> var c := cs[n - 1];
      if IsKept(cs, n - 1) then Kept(cs, n) == Kept(cs, n - 1) + [c] && Dropped(cs, n) == Dropped(cs, n - 1)
      else Kept(cs, n) == Kept(cs, n - 1) && Dropped(cs, n) == Dropped(cs, n - 1) + [c]
  {
    hide IsKept;
  }

  lemma Snoc<T>(s: seq<T>, x: T)
    ensures multiset(s + [x]) == multiset(s) + multiset{x} && |s + [x]| == |s| + 1
  {
  }

  lemma LastOf<T>(s: seq<T>, n: nat)
    requires 0 < n <= |s|
    ensures multiset(s[..n]) == multiset(s[..n - 1]) + multiset{s[n - 1]}
  {
    assert s[..n] == s[..n - 1] + [s[n - 1]];
  }

  /** Every candidate is ranked or dropped as a duplicate, once. */
  lemma RankedOrDropped(cs: seq<Candidate>)
    ensures multiset(Ranked(cs)) + multiset(Dropped(cs, |cs|)) == multiset(cs)
    ensures |Ranked(cs)| + |Dropped(cs, |cs|)| == |cs|
  {
    hide Ranked, Kept, Dropped, IsRanking, OnePerHash;
    RankedIsRanking(cs);
    KeptOrDropped(cs, |cs|);
    SameMembers(Ranked(cs), Kept(cs, |cs|));
    assert cs[..|cs|] == cs;
  }

  lemma DuplicatesPermute(ids: map<string, string>, a: seq<Candidate>, b: seq<Candidate>)
    requires multiset(a) == multiset(b)
    ensures multiset(Duplicates(ids, a)) == multiset(Duplicates(ids, b)) && |a| == |b|
  {
    var f := (c: Candidate) => DuplicateOf(ids, c);
    Ordering.MapPermutation(f, a, b);
    assert Duplicates(ids, a) == Ordering.Mapped(f, a) && Duplicates(ids, b) == Ordering.Mapped(f, b);
    SameMembers(a, b);
  }

  /** Permuting the candidates permutes the omissions and changes nothing else: not the items nor their
      order, the count used, the hash or the trace. */
  lemma BundleIsDeterministic(cs: seq<Candidate>, cs': seq<Candidate>, limit: nat, count: string -> U64,
                              sha: LineSplitting.Bytes -> LineSplitting.Bytes)
    requires multiset(cs) == multiset(cs') && UniqueBests(cs)
    ensures var b, b' := Built(cs, limit, count, sha), Built(cs', limit, count, sha);
      && b.items == b'.items && b.used == b'.used && b.bundleHash == b'.bundleHash && b.trace == b'.trace
      && multiset(b.omissions) == multiset(b'.omissions)
  {
    hide Ranked, KeptIds, Dropped, Duplicates, UniqueBests, Assembled;
    SameRanking(cs, cs');
    KeptIdsAreDeterministic(cs, cs');
    RankedOrDropped(cs);
    RankedOrDropped(cs');
    assert multiset(Dropped(cs, |cs|)) == multiset(cs) - multiset(Ranked(cs));
    assert multiset(Dropped(cs', |cs'|)) == multiset(cs') - multiset(Ranked(cs'));
    DuplicatesPermute(KeptIds(cs), Dropped(cs, |cs|), Dropped(cs', |cs'|));
    SameMembers(cs, cs');
    AssembledPermutes(|cs|, Ranked(cs), Duplicates(KeptIds(cs), Dropped(cs, |cs|)),
                      Duplicates(KeptIds(cs'), Dropped(cs', |cs'|)), limit, count, sha);
  }

  lemma AssembledPermutes(n: nat, ranked: seq<Candidate>, dups: seq<Omission>, dups': seq<Omission>, limit: nat,
                          count: string -> U64, sha: LineSplitting.Bytes -> LineSplitting.Bytes)
    requires multiset(dups) == multiset(dups') && |dups| == |dups'|
    ensures var b, b' := Assembled(n, ranked, dups, limit, count, sha), Assembled(n, ranked, dups', limit, count, sha);
      && b.items == b'.items && b.used == b'.used && b.bundleHash == b'.bundleHash && b.trace == b'.trace
      && multiset(b.omissions) == multiset(b'.omissions)
  {
    hide OverBudget, Packed, Excess, Items, Used, AsU64, Hashed, CostsOf;
  }

  // ---------- what an item is ----------

  function PackedOf(cs: seq<Candidate>, limit: nat, count: string -> U64): seq<Candidate> {
    Packed(Ranked(cs), limit, count, |Ranked(cs)|)
  }

  lemma PackedAreRanked(ranked: seq<Candidate>, limit: nat, count: string -> U64, n: nat)
    requires n <= |ranked|
    ensures forall c | c in Packed(ranked, limit, count, n) :: c in ranked
  {
    hide Taken, CostsOf, Ascends;
    var at := Taken(CostsOf(ranked, count), limit, n);
    forall c | c in Pick(ranked, at) ensures c in ranked {
      var k :| 0 <= k < |at| && Pick(ranked, at)[k] == c;
      assert c == ranked[at[k]];
    }
  }

  /** Every other candidate with its content hash ranks behind it. */
  predicate IsUniqueBest(c: Candidate, cs: seq<Candidate>) {
    c in cs && forall d | d in cs && d.contentHash == c.contentHash :: d == c || Better(c, d)
  }

  /** Each item is the item of the unique best candidate of its content hash. */
  lemma ItemsAreUniqueBest(cs: seq<Candidate>, limit: nat, count: string -> U64, sha: LineSplitting.Bytes -> LineSplitting.Bytes)
    requires UniqueBests(cs)
    ensures var items, packed := Built(cs, limit, count, sha).items, PackedOf(cs, limit, count);
      && |items| == |packed|
      && forall k | 0 <= k < |packed| :: items[k] == ItemOf(packed[k], count) && IsUniqueBest(packed[k], cs)
  {
    hide Ranked, Packed, Better, ItemOf, Kept, IsRanking, OnePerHash, Duplicates, OverBudget, IsUniqueBest, UniqueBests;
    var packed := PackedOf(cs, limit, count);
    PackedAreRanked(Ranked(cs), limit, count, |Ranked(cs)|);
    RankedIsRanking(cs);
    forall k | 0 <= k < |packed| ensures IsUniqueBest(packed[k], cs) {
      assert packed[k] in packed;
      BestIsUnique(cs, packed[k]);
    }
  }

  lemma BestIsUnique(cs: seq<Candidate>, c: Candidate)
    requires UniqueBests(cs) && c in Kept(cs, |cs|)
    ensures IsUniqueBest(c, cs)
  {
    hide Better, Kept;
    KeptIsBest(cs, c);
    forall d | d in cs && d.contentHash == c.contentHash ensures d == c || Better(c, d) {
      BetterTotal(c, d);
      if !Better(c, d) {
        TiedIsBest(cs, c, d);
      }
    }
  }

  /** What a best candidate of the class does not beat is best too. */
  lemma TiedIsBest(cs: seq<Candidate>, c: Candidate, d: Candidate)
    requires IsBest(c, cs) && d in cs && d.contentHash == c.contentHash && !Better(c, d)
    ensures IsBest(d, cs)
  {
    hide Better;
    forall e | e in cs && e.contentHash == d.contentHash ensures !Better(e, d) {
      BetterTransitive(d, c, e);
    }
  }

  lemma {:induction false} DroppedFrom(cs: seq<Candidate>, n: nat, c: Candidate) returns (k: nat)
    requires n <= |cs| && c in Dropped(cs, n)
    ensures k < n && cs[k] == c
  {
    hide IsKept;
    assert n > 0;
    if cs[n - 1] == c {
      k := n - 1;
    } else {
      k := DroppedFrom(cs, n - 1, c);
    }
  }

  /** A candidate dropped as a duplicate is reported with the id of a ranked candidate that has its content
      hash and that it does not rank before. */
  lemma DuplicateNamesTheKept(cs: seq<Candidate>, c: Candidate) returns (d: Candidate)
    requires c in Dropped(cs, |cs|)
    ensures d in Ranked(cs) && d.contentHash == c.contentHash && !Better(c, d)
    ensures DuplicateOf(KeptIds(cs), c) == Omission(c.sourceId, Duplicate(d.sourceId))
  {
    hide Better, Kept, Ranked, IsRanking, OnePerHash, Winners, Dropped, KeptIds;
    var k := DroppedFrom(cs, |cs|, c);
    KeptIndex(cs, k);
    KeptIdOf(cs, k);
    var best := WinnersOf(cs)[c.contentHash];
    d := cs[best];
    KeptHas(cs, |cs|, best);
    RankedIsRanking(cs);
  }

  // ---------- conservation ----------

  lemma {:induction false} PackedOrExcess(ranked: seq<Candidate>, limit: nat, count: string -> U64, n: nat)
    requires n <= |ranked|
    ensures multiset(Packed(ranked, limit, count, n)) + multiset(Excess(ranked, limit, count, n)) == multiset(ranked[..n])
    ensures |Packed(ranked, limit, count, n)| + |Excess(ranked, limit, count, n)| == n
  {
    hide Packed, Excess, Fits, CostsOf;
    if n == 0 {
      NothingPacked(ranked, limit, count);
    } else {
      PackedOrExcess(ranked, limit, count, n - 1);
      LastOf(ranked, n);
      PackedNext(ranked, limit, count, n - 1);
      Snoc(Packed(ranked, limit, count, n - 1), ranked[n - 1]);
      Snoc(Excess(ranked, limit, count, n - 1), ranked[n - 1]);
    }
  }

  lemma PackedNext(ranked: seq<Candidate>, limit: nat, count: string -> U64, n: nat)
    requires n < |ranked|
    ensures var packed, excess := Packed(ranked, limit, count, n), Excess(ranked, limit, count, n);
      var fits := Fits(CostsOf(ranked, count), limit, n);
      && Packed(ranked, limit, count, n + 1) == (if fits then packed + [ranked[n]] else packed)
      && Excess(ranked, limit, count, n + 1) == (if fits then excess else excess + [ranked[n]])
  {
    hide Taken, Left, Used, Fits, Ascends, CostsOf, Pick;
    var costs := CostsOf(ranked, count);
    NextIndex(costs, limit, n);
    PickOneMore(ranked, Taken(costs, limit, n), n);
    PickOneMore(ranked, Left(costs, limit, n), n);
  }

  lemma PickOneMore(cs: seq<Candidate>, at: seq<nat>, n: nat)
    requires n < |cs| && InRange(at, n)
    ensures Pick(cs, at + [n]) == Pick(cs, at) + [cs[n]]
  {
  }

  function ItemId(i: Item): string {
    i.sourceId
  }

  function OmissionId(o: Omission): string {
    o.sourceId
  }

  function CandidateId(c: Candidate): string {
    c.sourceId
  }

  /** Items and omissions partition the candidates: every candidate's source id appears once, and the
      counts of the trace add up. */
  lemma EveryCandidateOnce(cs: seq<Candidate>, limit: nat, count: string -> U64, sha: LineSplitting.Bytes -> LineSplitting.Bytes)
    ensures var b := Built(cs, limit, count, sha);
      && multiset(Ordering.Mapped(ItemId, b.items)) + multiset(Ordering.Mapped(OmissionId, b.omissions))
           == multiset(Ordering.Mapped(CandidateId, cs))
      && |b.items| + |b.omissions| == |cs|
      && (|cs| <= U64_MAX ==>
            && b.trace.candidates == |cs| && b.trace.included == |b.items|
            && b.trace.duplicates + b.trace.overBudget == |b.omissions|
            && b.trace.candidates == b.trace.included + b.trace.duplicates + b.trace.overBudget)
  {
    hide Ranked, KeptIds, Dropped, Packed, Excess, Items, Duplicates, OverBudget, Used, Hashed;
    var ranked, dropped := Ranked(cs), Dropped(cs, |cs|);
    var packed, excess := Packed(ranked, limit, count, |ranked|), Excess(ranked, limit, count, |ranked|);
    RankedOrDropped(cs);
    PackedOrExcess(ranked, limit, count, |ranked|);
    assert ranked[..|ranked|] == ranked;
    Ordering.MapPermutation(CandidateId, cs, packed + (excess + dropped));
    Ordering.MappedAppend(CandidateId, packed, excess + dropped);
    Ordering.MappedAppend(CandidateId, excess, dropped);
    Ordering.MappedAppend(OmissionId, Duplicates(KeptIds(cs), dropped), OverBudget(excess));
    IdsKept(packed, excess, dropped, count, KeptIds(cs));
  }

  lemma IdsKept(packed: seq<Candidate>, excess: seq<Candidate>, dropped: seq<Candidate>, count: string -> U64, ids: map<string, string>)
    ensures Ordering.Mapped(ItemId, Items(packed, count)) == Ordering.Mapped(CandidateId, packed)
    ensures Ordering.Mapped(OmissionId, OverBudget(excess)) == Ordering.Mapped(CandidateId, excess)
    ensures Ordering.Mapped(OmissionId, Duplicates(ids, dropped)) == Ordering.Mapped(CandidateId, dropped)
  {
    forall k | 0 <= k < |packed| ensures Ordering.Mapped(ItemId, Items(packed, count))[k] == CandidateId(packed[k]) {
      assert ItemId(Items(packed, count)[k]) == CandidateId(packed[k]);
    }
    forall k | 0 <= k < |excess| ensures Ordering.Mapped(OmissionId, OverBudget(excess))[k] == CandidateId(excess[k]) {
      assert OmissionId(OverBudget(excess)[k]) == CandidateId(excess[k]);
    }
    forall k | 0 <= k < |dropped|
      ensures Ordering.Mapped(OmissionId, Duplicates(ids, dropped))[k] == CandidateId(dropped[k])
    {
      assert OmissionId(Duplicates(ids, dropped)[k]) == CandidateId(dropped[k]);
    }
  }

  // ---------- the budget ----------

  function TokensOf(items: seq<Item>): nat {
    if items == [] then 0 else TokensOf(items[..|items| - 1]) + items[|items| - 1].tokens
  }

  lemma {:induction false} UsedIsTokens(ranked: seq<Candidate>, limit: nat, count: string -> U64, n: nat)
    requires n <= |ranked|
    ensures Used(CostsOf(ranked, count), limit, n) == TokensOf(Items(Packed(ranked, limit, count, n), count)) <= limit
  {
    hide CostsOf, Packed, Excess, Items, OverBudget, Used, TokensOf, ItemOf;
    TakenTotal(CostsOf(ranked, count), limit, n);
    if n == 0 {
      PackNothing(ranked, limit, count);
      NoTokens();
    } else {
      UsedIsTokens(ranked, limit, count, n - 1);
      PackNext(ranked, limit, count, n - 1);
      MoreTokens(Items(Packed(ranked, limit, count, n - 1), count), ItemOf(ranked[n - 1], count));
      ItemTokens(ranked[n - 1], count);
    }
  }

  lemma NoTokens()
    ensures TokensOf([]) == 0
  {
  }

  lemma ItemTokens(c: Candidate, count: string -> U64)
    ensures ItemOf(c, count).tokens == count(c.content)
  {
  }

  lemma MoreTokens(items: seq<Item>, item: Item)
    ensures TokensOf(items + [item]) == TokensOf(items) + item.tokens
  {
    assert (items + [item])[..|items|] == items;
  }

  /** The count used is the exact sum over the items and within the budget, so it never overflows. A
      ranked candidate goes over the budget exactly when it does not fit after the items ranked above it. */
  lemma BudgetIsKept(cs: seq<Candidate>, limit: nat, count: string -> U64, sha: LineSplitting.Bytes -> LineSplitting.Bytes)
    ensures var b := Built(cs, limit, count, sha); b.used == TokensOf(b.items) == b.trace.usedTokens <= limit
    ensures var ranked := Ranked(cs);
      forall n | 0 <= n < |ranked| :: n in Left(CostsOf(ranked, count), limit, |ranked|) <==>
        TokensOf(Items(Packed(ranked, limit, count, n), count)) + count(ranked[n].content) > limit
  {
    hide Ranked, Packed, Items, Duplicates, OverBudget, Used, Taken, Left, TokensOf;
    var ranked := Ranked(cs);
    var costs := CostsOf(ranked, count);
    UsedIsTokens(ranked, limit, count, |ranked|);
    TakenOrLeft(costs, limit, |ranked|);
    forall n | 0 <= n < |ranked|
      ensures n in Left(costs, limit, |ranked|) <==>
        TokensOf(Items(Packed(ranked, limit, count, n), count)) + count(ranked[n].content) > limit
    {
      UsedIsTokens(ranked, limit, count, n);
      TakenMember(costs, limit, n, |ranked|);
    }
  }

  /** The packing loop makes the selection that `select_within_budget` makes on the ranked contents: any
      greedy selection of them gives the items. */
  lemma PackingIsSelection(cs: seq<Candidate>, limit: nat, count: string -> U64, sha: LineSplitting.Bytes -> LineSplitting.Bytes, selected: seq<nat>)
    requires IsGreedy(Costs(Contents(Ranked(cs)), count), limit, selected)
    ensures Built(cs, limit, count, sha).items == Items(Pick(Ranked(cs), selected), count)
  {
    hide Ranked, Items, Pick, Duplicates, OverBudget, Used, Taken, Left;
    GreedyIsUnique(CostsOf(Ranked(cs), count), limit, selected);
  }

  // ---------- rebuilding ----------

  lemma PickedRanking(ranked: seq<Candidate>, at: seq<nat>)
    requires IsRanking(ranked) && AreIndices(at, |ranked|)
    ensures IsRanking(Pick(ranked, at))
  {
    var s := Pick(ranked, at);
    forall i, j | 0 <= i < j < |s| ensures Ordering.Before(s[i], s[j], ByRank(), StrictlyByHash()) {
      assert at[i] < at[j];
      assert s[i] == ranked[at[i]] && s[j] == ranked[at[j]];
    }
  }

  lemma PickedOnePerHash(ranked: seq<Candidate>, at: seq<nat>)
    requires OnePerHash(ranked) && AreIndices(at, |ranked|)
    ensures forall i, j | 0 <= i < j < |at| :: Pick(ranked, at)[i].contentHash != Pick(ranked, at)[j].contentHash
  {
    forall i, j | 0 <= i < j < |at| ensures Pick(ranked, at)[i].contentHash != Pick(ranked, at)[j].contentHash {
      assert at[i] < at[j];
      DifferentHashes(ranked, ranked, at[i], at[j]);
    }
  }

  /** Candidates with distinct content hashes are all kept. */
  lemma {:induction false} AllKept(cs: seq<Candidate>, n: nat)
    requires n <= |cs| && forall i, j | 0 <= i < j < |cs| :: cs[i].contentHash != cs[j].contentHash
    ensures Kept(cs, n) == cs[..n] && Dropped(cs, n) == []
  {
    hide IsKept, WinnersOf;
    if n > 0 {
      AllKept(cs, n - 1);
      KeptWhenAlone(cs, n - 1);
      assert cs[..n] == cs[..n - 1] + [cs[n - 1]];
    }
  }

  lemma KeptWhenAlone(cs: seq<Candidate>, k: nat)
    requires k < |cs| && forall i, j | 0 <= i < j < |cs| :: cs[i].contentHash != cs[j].contentHash
    ensures IsKept(cs, k)
  {
    hide WinnersOf, Beats;
    KeptIndex(cs, k);
    assert WinnersOf(cs)[cs[k].contentHash] == k;
  }

  /** Ranking what is already ranked, with one candidate for each hash, changes nothing. */
  lemma RankedAgain(s: seq<Candidate>)
    requires IsRanking(s) && forall i, j | 0 <= i < j < |s| :: s[i].contentHash != s[j].contentHash
    ensures Ranked(s) == s && Dropped(s, |s|) == []
  {
    hide Ranked, IsRanking;
    AllKept(s, |s|);
    assert s[..|s|] == s;
    RankedIsRanking(s);
    RankingUnique(Ranked(s), s);
  }

  lemma {:induction false} EverythingFits(s: seq<Candidate>, limit: nat, count: string -> U64, n: nat)
    requires n <= |s| && TokensOf(Items(s, count)) <= limit
    ensures Packed(s, limit, count, n) == s[..n] && Excess(s, limit, count, n) == []
  {
    hide Taken, Left, Packed, Excess, Used, TokensOf, Items, CostsOf;
    if n == 0 {
      PackNothing(s, limit, count);
      NothingPacked(s, limit, count);
    } else {
      EverythingFits(s, limit, count, n - 1);
      PackedNext(s, limit, count, n - 1);
      UsedIsTokens(s, limit, count, n - 1);
      TokensUpTo(s, count, n);
      FitsExactly(s, limit, count, n - 1);
      assert s[..n] == s[..n - 1] + [s[n - 1]];
    }
  }

  lemma NothingPacked(s: seq<Candidate>, limit: nat, count: string -> U64)
    ensures Packed(s, limit, count, 0) == [] && Excess(s, limit, count, 0) == []
  {
    hide CostsOf;
    NothingYet(CostsOf(s, count), limit);
  }

  lemma FitsExactly(s: seq<Candidate>, limit: nat, count: string -> U64, n: nat)
    requires n < |s|
    ensures Fits(CostsOf(s, count), limit, n) <==> Used(CostsOf(s, count), limit, n) + count(s[n].content) <= limit
  {
    hide Used;
  }

  lemma {:induction false} TokensUpTo(s: seq<Candidate>, count: string -> U64, n: nat)
    requires 0 < n <= |s|
    ensures TokensOf(Items(s[..n - 1], count)) + count(s[n - 1].content) <= TokensOf(Items(s, count))
    decreases |s|
  {
    hide TokensOf, Items;
    var m := |s| - 1;
    ItemsSnoc(s, count);
    MoreTokens(Items(s[..m], count), ItemOf(s[m], count));
    if n < |s| {
      TokensUpTo(s[..m], count, n);
      assert s[..m][..n - 1] == s[..n - 1] && s[..m][n - 1] == s[n - 1];
    }
  }

  lemma ItemsSnoc(s: seq<Candidate>, count: string -> U64)
    requires s != []
    ensures Items(s, count) == Items(s[..|s| - 1], count) + [ItemOf(s[|s| - 1], count)]
  {
    hide ItemOf;
    var n := |s| - 1;
    assert |Items(s[..n], count)| == n;
    forall i | 0 <= i < n ensures Items(s, count)[i] == Items(s[..n], count)[i] {
      assert s[..n][i] == s[i];
    }
  }

  /** An item carries its candidate's id, hash and content unchanged, its score and the parts of it, and what the
      counter says of the content. */
  lemma ItemsCarryCandidates(cs: seq<Candidate>, limit: nat, count: string -> U64, sha: LineSplitting.Bytes -> LineSplitting.Bytes, k: nat)
    requires k < |PackedOf(cs, limit, count)|
    ensures k < |Built(cs, limit, count, sha).items|
    ensures var item, c := Built(cs, limit, count, sha).items[k], PackedOf(cs, limit, count)[k];
      && c in cs
      && item.sourceId == c.sourceId && item.contentHash == c.contentHash && item.content == c.content
      && item.score == Score(c.signals) == TotalValue(item.breakdown) && item.tokens == count(c.content)
  {
    hide Ranked, Packed, Score, Breakdown, TotalValue, Kept, IsRanking, OnePerHash, Duplicates, OverBudget;
    var packed := PackedOf(cs, limit, count);
    assert packed[k] in packed;
    PackedAreCandidates(cs, limit, count);
    BreakdownAddsUp(packed[k].signals);
  }

  /** The items of a bundle are in rank order. */
  lemma ItemsAreInRankOrder(cs: seq<Candidate>, limit: nat, count: string -> U64, sha: LineSplitting.Bytes -> LineSplitting.Bytes,
                            i: nat, j: nat)
    requires i < j < |Built(cs, limit, count, sha).items|
    ensures var x, y := Built(cs, limit, count, sha).items[i], Built(cs, limit, count, sha).items[j];
      || x.score > y.score
      || (x.score == y.score && Less(x.sourceId, y.sourceId))
      || (x.score == y.score && x.sourceId == y.sourceId && Less(x.contentHash, y.contentHash))
  {
    hide Ranked, IsRanking, Duplicates, OverBudget, Used, Taken, CostsOf, Score, Breakdown, Less, AreIndices, Pick;
    var ranked := Ranked(cs);
    RankedIsRanking(cs);
    PickedRanking(ranked, Taken(CostsOf(ranked, count), limit, |ranked|));
    RankingOrder(PackedOf(cs, limit, count), i, j);
  }

  /** Building a bundle from the candidates behind a bundle's items gives the same items, and omits nothing. */
  lemma RebuildIsIdentity(cs: seq<Candidate>, limit: nat, count: string -> U64, sha: LineSplitting.Bytes -> LineSplitting.Bytes)
    ensures var b, again := Built(cs, limit, count, sha), Built(PackedOf(cs, limit, count), limit, count, sha);
      again.items == b.items && again.omissions == [] && again.used == b.used && again.bundleHash == b.bundleHash
  {
    hide Ranked, IsRanking, OnePerHash, Items, Duplicates, OverBudget, Used, Taken, Left, TokensOf, Dropped, CostsOf;
    var ranked := Ranked(cs);
    var at := Taken(CostsOf(ranked, count), limit, |ranked|);
    var packed := PackedOf(cs, limit, count);
    RankedIsRanking(cs);
    PickedRanking(ranked, at);
    PickedOnePerHash(ranked, at);
    RankedAgain(packed);
    UsedIsTokens(ranked, limit, count, |ranked|);
    EverythingFits(packed, limit, count, |packed|);
    UsedIsTokens(packed, limit, count, |packed|);
    assert packed[..|packed|] == packed;
  }

  // ---------- the bundle hash ----------

  /** What the constructors of source ids and content hashes admit. */
  predicate IsAdmissible(c: Candidate) {
    && 0 < |c.sourceId| <= 1024 && (forall x | x in c.sourceId :: ' ' <= x <= '~')
    && |c.contentHash| == 64 && (forall x | x in c.contentHash :: '0' <= x <= '9' || 'a' <= x <= 'f')
  }

  predicate AreAdmissible(cs: seq<Candidate>) {
    forall c | c in cs :: IsAdmissible(c)
  }

  lemma PackedAreCandidates(cs: seq<Candidate>, limit: nat, count: string -> U64)
    ensures forall c | c in PackedOf(cs, limit, count) :: c in cs
  {
    hide Ranked, Packed, Kept, IsRanking, OnePerHash;
    PackedAreRanked(Ranked(cs), limit, count, |Ranked(cs)|);
    RankedIsRanking(cs);
    forall c | c in PackedOf(cs, limit, count) ensures c in cs {
      KeptIsBest(cs, c);
    }
  }

  lemma ItemsAreHashable(packed: seq<Candidate>, count: string -> U64)
    requires AreAdmissible(packed)
    ensures HashFraming.AreHashable(Hashed(Items(packed, count)))
  {
    hide Score, Breakdown, TotalValue;
    forall k | 0 <= k < |packed| ensures HashFraming.IsHashable(Hashed(Items(packed, count))[k]) {
      assert packed[k] in packed;
      BreakdownAddsUp(packed[k].signals);
    }
  }

  lemma AsciiBytesInjective(s: string, t: string)
    requires (forall x | x in s :: ' ' <= x <= '~') && (forall x | x in t :: ' ' <= x <= '~')
    requires AsciiBytes(s) == AsciiBytes(t)
    ensures s == t
  {
    assert |AsciiBytes(s)| == |AsciiBytes(t)|;
    forall k | 0 <= k < |s| ensures s[k] == t[k] {
      assert s[k] in s && t[k] in t;
      assert AsciiBytes(s)[k] == AsciiBytes(t)[k];
    }
  }

  /** The items agree in everything that is hashed. */
  predicate SameHashed(items: seq<Item>, items': seq<Item>) {
    |items| == |items'| && forall k | 0 <= k < |items| ::
      && items[k].sourceId == items'[k].sourceId && items[k].contentHash == items'[k].contentHash
      && items[k].score == items'[k].score && items[k].tokens == items'[k].tokens
  }

  lemma SameFramesSameHashed(packed: seq<Candidate>, packed': seq<Candidate>, count: string -> U64, count': string -> U64)
    requires AreAdmissible(packed) && AreAdmissible(packed')
    requires Hashed(Items(packed, count)) == Hashed(Items(packed', count'))
    ensures SameHashed(Items(packed, count), Items(packed', count'))
  {
    hide Score, Breakdown, AsciiBytes;
    var h, h' := Hashed(Items(packed, count)), Hashed(Items(packed', count'));
    assert |h| == |packed| && |h'| == |packed'|;
    forall k | 0 <= k < |packed|
      ensures packed[k].sourceId == packed'[k].sourceId && packed[k].contentHash == packed'[k].contentHash
      ensures Score(packed[k].signals) == Score(packed'[k].signals) && count(packed[k].content) == count'(packed'[k].content)
    {
      assert packed[k] in packed && packed'[k] in packed';
      assert h[k] == h'[k];
      AdmissibleAscii(packed[k]);
      AdmissibleAscii(packed'[k]);
      AsciiBytesInjective(packed[k].sourceId, packed'[k].sourceId);
      AsciiBytesInjective(packed[k].contentHash, packed'[k].contentHash);
    }
  }

  lemma AdmissibleAscii(c: Candidate)
    requires IsAdmissible(c)
    ensures forall x | x in c.sourceId :: ' ' <= x <= '~'
    ensures forall x | x in c.contentHash :: ' ' <= x <= '~'
  {
  }

  /** Two bundles with the same hash have items that agree in source id, content hash, score and token count,
      unless the digest itself collides on two different inputs. */
  lemma EqualBundleHashes(cs: seq<Candidate>, cs': seq<Candidate>, limit: nat, limit': nat, count: string -> U64,
                          count': string -> U64, sha: LineSplitting.Bytes -> LineSplitting.Bytes)
    requires AreAdmissible(cs) && AreAdmissible(cs')
    requires Built(cs, limit, count, sha).bundleHash == Built(cs', limit', count', sha).bundleHash
    ensures var items, items' := Built(cs, limit, count, sha).items, Built(cs', limit', count', sha).items;
      || SameHashed(items, items')
      || (HashFraming.Frames(Hashed(items)) != HashFraming.Frames(Hashed(items'))
          && sha(HashFraming.Frames(Hashed(items))) == sha(HashFraming.Frames(Hashed(items'))))
  {
    hide Ranked, Packed, Items, Hashed, HashFraming.Frames, HashFraming.Hex, HashFraming.AreHashable, Duplicates, OverBudget, Used,
         IsAdmissible, SameHashed;
    var packed, packed' := PackedOf(cs, limit, count), PackedOf(cs', limit', count');
    PackedAreCandidates(cs, limit, count);
    PackedAreCandidates(cs', limit', count');
    ItemsAreHashable(packed, count);
    ItemsAreHashable(packed', count');
    var h, h' := Hashed(Items(packed, count)), Hashed(Items(packed', count'));
    HashFraming.EqualHashesMeanEqualItems(h, h', sha);
    if h == h' {
      SameFramesSameHashed(packed, packed', count, count');
    }
  }
}
