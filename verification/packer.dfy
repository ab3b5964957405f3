// Building a context bundle: deduplicate by content hash, rank, pack under a token budget.

module ContextPacker {
  import opened Texts
  import opened Relevance
  import opened GreedyPacking
  import Ordering
  import LineSplitting
  import HashFraming

  datatype Item = Item(sourceId: string, contentHash: string, content: string, score: nat,
                       breakdown: seq<Component>, tokens: nat)

  datatype Reason = Duplicate(keptSourceId: string) | BudgetExceeded

  datatype Omission = Omission(sourceId: string, reason: Reason)

  datatype Trace = Trace(candidates: nat, duplicates: nat, included: nat, overBudget: nat, usedTokens: nat)

  datatype Bundle = Bundle(items: seq<Item>, omissions: seq<Omission>, used: nat, bundleHash: string, trace: Trace)

  // ---------- what is kept of each content hash ----------

  /** The best candidate so far for each content hash, by index. */
  function Winners(cs: seq<Candidate>, n: nat): (w: map<string, nat>)
    requires n <= |cs|
    ensures AreWinners(cs, n, w)
  {
    if n == 0 then map[]
    else NextWinner(cs, n - 1, Winners(cs, n - 1))
  }

  /** Each hash seen so far has a candidate that carries it. */
  predicate AreWinners(cs: seq<Candidate>, n: nat, w: map<string, nat>)
    requires n <= |cs|
  {
    && (forall h | h in w :: w[h] < n && cs[w[h]].contentHash == h)
    && (forall k | 0 <= k < n :: cs[k].contentHash in w)
  }

  function NextWinner(cs: seq<Candidate>, index: nat, w: map<string, nat>): (r: map<string, nat>)
    requires index < |cs| && AreWinners(cs, index, w)
    ensures AreWinners(cs, index + 1, r)
  {
    var h := cs[index].contentHash;
    if h !in w || Better(cs[index], cs[w[h]]) then w[h := index] else w
  }

  /** No candidate with the same content hash ranks before it. */
  predicate IsBest(c: Candidate, cs: seq<Candidate>) {
    c in cs && forall d | d in cs && d.contentHash == c.contentHash :: !Better(d, c)
  }

  function WinnersOf(cs: seq<Candidate>): map<string, nat> {
    Winners(cs, |cs|)
  }

  predicate IsKept(cs: seq<Candidate>, k: nat)
    requires k < |cs|
  {
    WinnersOf(cs)[cs[k].contentHash] == k
  }

  function Kept(cs: seq<Candidate>, n: nat): seq<Candidate>
    requires n <= |cs|
  {
    if n == 0 then [] else if IsKept(cs, n - 1) then Kept(cs, n - 1) + [cs[n - 1]] else Kept(cs, n - 1)
  }

  function Dropped(cs: seq<Candidate>, n: nat): seq<Candidate>
    requires n <= |cs|
  {
    if n == 0 then [] else if IsKept(cs, n - 1) then Dropped(cs, n - 1) else Dropped(cs, n - 1) + [cs[n - 1]]
  }

  /** Which source stands for a content hash. */
  function KeptIds(cs: seq<Candidate>): map<string, string> {
    var w := WinnersOf(cs);
    map h | h in w :: cs[w[h]].sourceId
  }

  function DuplicateOf(ids: map<string, string>, c: Candidate): Omission {
    Omission(c.sourceId, Duplicate(if c.contentHash in ids then ids[c.contentHash] else ""))
  }

  function Duplicates(ids: map<string, string>, dropped: seq<Candidate>): (r: seq<Omission>)
    ensures |r| == |dropped|
  {
    seq(|dropped|, k requires 0 <= k < |dropped| => DuplicateOf(ids, dropped[k]))
  }

  /** The map's values in the order of its keys, then stably sorted by rank. */
  function Ranked(cs: seq<Candidate>): seq<Candidate> {
    Ordering.Sort(Ordering.Sort(Kept(cs, |cs|), ByHash()), ByRank())
  }

  // ---------- packing ----------

  function Contents(cs: seq<Candidate>): (r: seq<string>)
    ensures |r| == |cs|
  {
    seq(|cs|, k requires 0 <= k < |cs| => cs[k].content)
  }

  function CostsOf(cs: seq<Candidate>, count: string -> U64): (r: seq<nat>)
    ensures |r| == |cs|
  {
    Costs(Contents(cs), count)
  }

  function ItemOf(c: Candidate, count: string -> U64): Item {
    Item(c.sourceId, c.contentHash, c.content, Score(c.signals), Breakdown(c.signals), count(c.content))
  }

  /** The candidates at some places. */
  function Pick(cs: seq<Candidate>, at: seq<nat>): (r: seq<Candidate>)
    requires InRange(at, |cs|)
    ensures |r| == |at|
  {
    seq(|at|, k requires 0 <= k < |at| => cs[at[k]])
  }

  function Items(cs: seq<Candidate>, count: string -> U64): (r: seq<Item>)
    ensures |r| == |cs|
  {
    seq(|cs|, k requires 0 <= k < |cs| => ItemOf(cs[k], count))
  }

  function OverBudget(cs: seq<Candidate>): (r: seq<Omission>)
    ensures |r| == |cs|
  {
    seq(|cs|, k requires 0 <= k < |cs| => Omission(cs[k].sourceId, BudgetExceeded))
  }

  /** What the packing loop takes of the first n ranked candidates, and what it leaves. */
  function Packed(ranked: seq<Candidate>, limit: nat, count: string -> U64, n: nat): seq<Candidate>
    requires n <= |ranked|
  {
    Pick(ranked, Taken(CostsOf(ranked, count), limit, n))
  }

  function Excess(ranked: seq<Candidate>, limit: nat, count: string -> U64, n: nat): seq<Candidate>
    requires n <= |ranked|
  {
    Pick(ranked, Left(CostsOf(ranked, count), limit, n))
  }

  function AsciiBytes(s: string): LineSplitting.Bytes {
    seq(|s|, k requires 0 <= k < |s| => LineSplitting.ByteOf(s[k]))
  }

  function Hashed(items: seq<Item>): (r: seq<HashFraming.HashedItem>)
    ensures |r| == |items|
  {
    seq(|items|, k requires 0 <= k < |items| =>
      HashFraming.HashedItem(AsciiBytes(items[k].sourceId), AsciiBytes(items[k].contentHash), items[k].score, items[k].tokens))
  }

  function AsU64(n: nat): nat {
    if n > U64_MAX then U64_MAX else n
  }

  /** The bundle of n candidates, once they are ranked and their duplicates are listed. */
  function Assembled(n: nat, ranked: seq<Candidate>, duplicates: seq<Omission>, limit: nat, count: string -> U64,
                     sha: LineSplitting.Bytes -> LineSplitting.Bytes): Bundle
  {
    var items := Items(Packed(ranked, limit, count, |ranked|), count);
    var omissions := duplicates + OverBudget(Excess(ranked, limit, count, |ranked|));
    var used := Used(CostsOf(ranked, count), limit, |ranked|);
    Bundle(items, omissions, used, HashFraming.Hex(sha(HashFraming.Frames(Hashed(items)))),
           Trace(AsU64(n), AsU64(|duplicates|), AsU64(|items|), SaturatingSub(AsU64(|omissions|), AsU64(|duplicates|)), used))
  }

  function SaturatingSub(a: nat, b: nat): nat {
    if a < b then 0 else a - b
  }

  function Built(cs: seq<Candidate>, limit: nat, count: string -> U64, sha: LineSplitting.Bytes -> LineSplitting.Bytes): Bundle {
    Assembled(|cs|, Ranked(cs), Duplicates(KeptIds(cs), Dropped(cs, |cs|)), limit, count, sha)
  }

  lemma NoWinners(cs: seq<Candidate>)
    ensures Winners(cs, 0) == map[]
  {
  }

  lemma WinnersNext(cs: seq<Candidate>, n: nat)
    requires n < |cs|
    ensures Winners(cs, n + 1) == NextWinner(cs, n, Winners(cs, n))
  {
    hide AreWinners, NextWinner;
  }

  lemma WinnerAt(cs: seq<Candidate>, n: nat, h: string)
    requires n <= |cs| && h in Winners(cs, n)
    ensures Winners(cs, n)[h] < n && cs[Winners(cs, n)[h]].contentHash == h
  {
    hide Winners;
  }

  method FindWinners(cs: seq<Candidate>) returns (winners: map<string, nat>)
    ensures winners == WinnersOf(cs)
  {
    hide Better, AreWinners, Winners;
    assert Winners(cs, 0) == map[] by { NoWinners(cs); }
    winners := map[];
    for index := 0 to |cs|
      invariant winners == Winners(cs, index)
    {
      var c := cs[index];
      WinnersNext(cs, index);
      if c.contentHash in winners {
        WinnerAt(cs, index, c.contentHash);
        var current := cs[winners[c.contentHash]];
        if Better(c, current) {
          winners := winners[c.contentHash := index];
        }
      } else {
        winners := winners[c.contentHash := index];
      }
    }
  }

  method CollectDuplicates(cs: seq<Candidate>, winners: map<string, nat>) returns (omissions: seq<Omission>)
    requires winners == WinnersOf(cs)
    ensures omissions == Duplicates(KeptIds(cs), Dropped(cs, |cs|))
  {
    hide KeptIds, WinnersOf;
    omissions := [];
    ghost var ids := KeptIds(cs);
    for index := 0 to |cs|
      invariant omissions == Duplicates(ids, Dropped(cs, index))
    {
      KeptIdOf(cs, index);
      var kept := winners[cs[index].contentHash];
      if kept != index {
        DuplicatesNext(ids, Dropped(cs, index), cs[index]);
        omissions := omissions + [Omission(cs[index].sourceId, Duplicate(cs[kept].sourceId))];
      }
    }
  }

  method PackRanked(ranked: seq<Candidate>, limit: nat, count: string -> U64, earlier: seq<Omission>)
    returns (items: seq<Item>, omissions: seq<Omission>, used: nat)
    requires limit <= U32_MAX
    ensures items == Items(Packed(ranked, limit, count, |ranked|), count)
    ensures omissions == earlier + OverBudget(Excess(ranked, limit, count, |ranked|))
    ensures used == Used(CostsOf(ranked, count), limit, |ranked|) <= limit
  {
    hide Packed, Excess, Items, OverBudget, Used, ItemOf, CostsOf;
    ghost var costs := CostsOf(ranked, count);
    used, items, omissions := 0, [], earlier;
    PackNothing(ranked, limit, count);
    for n := 0 to |ranked|
      invariant items == Items(Packed(ranked, limit, count, n), count)
      invariant omissions == earlier + OverBudget(Excess(ranked, limit, count, n))
      invariant used == Used(costs, limit, n) <= limit
    {
      var tokens := count(ranked[n].content);
      PackNext(ranked, limit, count, n);
      if SaturatingAdd(used, tokens) > limit {
        ConcatAssoc(earlier, OverBudget(Excess(ranked, limit, count, n)), [Omission(ranked[n].sourceId, BudgetExceeded)]);
        omissions := omissions + [Omission(ranked[n].sourceId, BudgetExceeded)];
      } else {
        used := used + tokens;
        items := items + [ItemOf(ranked[n], count)];
      }
    }
  }

  lemma PackNothing(ranked: seq<Candidate>, limit: nat, count: string -> U64)
    ensures Items(Packed(ranked, limit, count, 0), count) == [] && OverBudget(Excess(ranked, limit, count, 0)) == []
    ensures Used(CostsOf(ranked, count), limit, 0) == 0
  {
    hide Used, CostsOf, Taken, Left;
    NothingYet(CostsOf(ranked, count), limit);
  }

  /** One turn of the packing loop. */
  lemma PackNext(ranked: seq<Candidate>, limit: nat, count: string -> U64, n: nat)
    requires n < |ranked|
    ensures var costs, tokens := CostsOf(ranked, count), count(ranked[n].content);
      var items, next := Items(Packed(ranked, limit, count, n), count), Items(Packed(ranked, limit, count, n + 1), count);
      var over, nextOver := OverBudget(Excess(ranked, limit, count, n)), OverBudget(Excess(ranked, limit, count, n + 1));
      && (Used(costs, limit, n) + tokens <= limit ==>
            Used(costs, limit, n + 1) == Used(costs, limit, n) + tokens && next == items + [ItemOf(ranked[n], count)]
            && nextOver == over)
      && (Used(costs, limit, n) + tokens > limit ==>
            Used(costs, limit, n + 1) == Used(costs, limit, n) && next == items
            && nextOver == over + [Omission(ranked[n].sourceId, BudgetExceeded)])
  {
    hide Used, Taken, Left, Items, OverBudget, Pick, Ascends, Fits, ItemOf;
    var costs := CostsOf(ranked, count);
    NextIndex(costs, limit, n);
    PickNext(ranked, Left(costs, limit, n), n, count);
    PickNext(ranked, Taken(costs, limit, n), n, count);
  }

  method BuildContext(cs: seq<Candidate>, limit: nat, count: string -> U64, sha: LineSplitting.Bytes -> LineSplitting.Bytes)
    returns (b: Bundle)
    requires limit <= U32_MAX
    ensures b == Built(cs, limit, count, sha)
  {
    hide Packed, Excess, KeptIds, Dropped, Duplicates, Ranked, Items, OverBudget, Used;
    var winners := FindWinners(cs);
    var omissions := CollectDuplicates(cs, winners);
    var duplicates := AsU64(|omissions|);
    var ranked := Ranked(cs);
    var items, used;
    items, omissions, used := PackRanked(ranked, limit, count, omissions);
    var all := AsU64(|omissions|);
    var hash := HashFraming.HashBundle(Hashed(items), sha);
    b := Bundle(items, omissions, used, hash,
                Trace(AsU64(|cs|), duplicates, AsU64(|items|), SaturatingSub(all, duplicates), used));
  }

  lemma KeptIdOf(cs: seq<Candidate>, k: nat)
    requires k < |cs|
    ensures var h := cs[k].contentHash;
      && h in WinnersOf(cs) && WinnersOf(cs)[h] < |cs|
      && h in KeptIds(cs) && KeptIds(cs)[h] == cs[WinnersOf(cs)[h]].sourceId
  {
  }

  lemma DuplicatesNext(ids: map<string, string>, dropped: seq<Candidate>, c: Candidate)
    ensures Duplicates(ids, dropped + [c]) == Duplicates(ids, dropped) + [DuplicateOf(ids, c)]
  {
  }

  lemma PickNext(cs: seq<Candidate>, at: seq<nat>, n: nat, count: string -> U64)
    requires n < |cs| && InRange(at, n)
    ensures Items(Pick(cs, at + [n]), count) == Items(Pick(cs, at), count) + [ItemOf(cs[n], count)]
    ensures OverBudget(Pick(cs, at + [n])) == OverBudget(Pick(cs, at)) + [Omission(cs[n].sourceId, BudgetExceeded)]
  {
  }
}
