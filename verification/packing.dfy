// Greedy selection under a token budget, in the order given.

module GreedyPacking {
  import opened Texts

  type U64 = n: int | 0 <= n <= U64_MAX

  /** Indices that fit, indices that do not, and the total of the first. */
  datatype Selection = Selection(selected: seq<nat>, omitted: seq<nat>, used: nat)

  predicate InRange(s: seq<nat>, n: nat) {
    forall k | 0 <= k < |s| :: s[k] < n
  }

  predicate Ascends(s: seq<nat>) {
    forall j, k | 0 <= j < k < |s| :: s[j] < s[k]
  }

  /** Indices below n, in order. */
  predicate AreIndices(s: seq<nat>, n: nat) {
    InRange(s, n) && Ascends(s)
  }

  function Total(costs: seq<nat>, s: seq<nat>): nat
    requires InRange(s, |costs|)
  {
    if s == [] then 0 else Total(costs, s[..|s| - 1]) + costs[s[|s| - 1]]
  }

  /** The indices below n that the greedy rule takes. */
  function Taken(costs: seq<nat>, limit: nat, n: nat): (r: seq<nat>)
    requires n <= |costs|
    ensures AreIndices(r, n)
  {
    if n == 0 then []
    else
      var before := Taken(costs, limit, n - 1);
      if Total(costs, before) + costs[n - 1] <= limit then before + [n - 1] else before
  }

  /** The cost of what the greedy rule takes below n. */
  function Used(costs: seq<nat>, limit: nat, n: nat): nat
    requires n <= |costs|
  {
    Total(costs, Taken(costs, limit, n))
  }

  /** Whether i fits after what is taken before it. */
  predicate Fits(costs: seq<nat>, limit: nat, i: nat)
    requires i < |costs|
  {
    Used(costs, limit, i) + costs[i] <= limit
  }

  /** The indices below n that it leaves. */
  function Left(costs: seq<nat>, limit: nat, n: nat): (r: seq<nat>)
    requires n <= |costs|
    ensures AreIndices(r, n)
  {
    if n == 0 then []
    else
      var before := Left(costs, limit, n - 1);
      if Fits(costs, limit, n - 1) then before else before + [n - 1]
  }

  function Costs(contents: seq<string>, count: string -> U64): (r: seq<nat>)
    ensures |r| == |contents|
  {
    seq(|contents|, k requires 0 <= k < |contents| => count(contents[k]))
  }

  /** A selection is greedy when an index is in it exactly if its cost fits after the selected costs before it. */
  ghost predicate IsGreedy(costs: seq<nat>, limit: nat, selected: seq<nat>) {
    && AreIndices(selected, |costs|)
    && forall i | 0 <= i < |costs| :: i in selected <==> Total(costs, Below(selected, i)) + costs[i] <= limit
  }

  /** The members below i. */
  function Below(s: seq<nat>, i: nat): (r: seq<nat>)
    ensures r <= s
    ensures forall k | 0 <= k < |r| :: r[k] < i
  {
    if s == [] || s[0] >= i then []
    else
      assert s == [s[0]] + s[1..];
      [s[0]] + Below(s[1..], i)
  }

  method SelectWithinBudget(candidates: seq<string>, limit: nat, count: string -> U64) returns (r: Selection)
    requires limit <= U32_MAX
    ensures var costs := Costs(candidates, count);
      && IsGreedy(costs, limit, r.selected)
      && AreIndices(r.omitted, |costs|)
      && (forall i | 0 <= i < |costs| :: i in r.omitted <==> i !in r.selected)
      && r.used == Total(costs, r.selected) <= limit
    ensures var costs := Costs(candidates, count);
      r.selected == Taken(costs, limit, |costs|) && r.omitted == Left(costs, limit, |costs|)
  {
    hide Taken, Left, Total, Used, IsGreedy;
    ghost var costs := Costs(candidates, count);
    NothingYet(costs, limit);
    var used := 0;
    var selected, omitted := [], [];
    for index := 0 to |candidates|
      invariant selected == Taken(costs, limit, index) && omitted == Left(costs, limit, index)
      invariant used == Used(costs, limit, index) <= limit
    {
      var tokens := count(candidates[index]);
      NextIndex(costs, limit, index);
      if SaturatingAdd(used, tokens) <= limit {
        used := used + tokens;
        selected := selected + [index];
      } else {
        omitted := omitted + [index];
      }
    }
    TakenIsGreedy(costs, limit);
    TakenOrLeft(costs, limit, |costs|);
    UsedIsTotal(costs, limit, |costs|);
    r := Selection(selected, omitted, used);
  }

  lemma TotalOfAppend(costs: seq<nat>, s: seq<nat>, i: nat)
    requires InRange(s, |costs|) && i < |costs|
    ensures Total(costs, s + [i]) == Total(costs, s) + costs[i]
  {
    assert (s + [i])[..|s|] == s;
  }

  lemma UsedIsTotal(costs: seq<nat>, limit: nat, n: nat)
    requires n <= |costs|
    ensures Used(costs, limit, n) == Total(costs, Taken(costs, limit, n))
  {
  }

  lemma NothingYet(costs: seq<nat>, limit: nat)
    ensures Taken(costs, limit, 0) == [] && Left(costs, limit, 0) == [] && Used(costs, limit, 0) == 0
  {
  }

  lemma NextIndex(costs: seq<nat>, limit: nat, i: nat)
    requires i < |costs|
    ensures var before, now := Taken(costs, limit, i), Taken(costs, limit, i + 1);
      && now == (if Fits(costs, limit, i) then before + [i] else before)
      && Used(costs, limit, i + 1) == Used(costs, limit, i) + (if Fits(costs, limit, i) then costs[i] else 0)
      && (Fits(costs, limit, i) <==> Used(costs, limit, i) + costs[i] <= limit)
    ensures Left(costs, limit, i + 1) == if Fits(costs, limit, i) then Left(costs, limit, i) else Left(costs, limit, i) + [i]
  {
    hide Total;
    TotalOfAppend(costs, Taken(costs, limit, i), i);
  }

  lemma {:induction false} TakenTotal(costs: seq<nat>, limit: nat, n: nat)
    requires n <= |costs|
    ensures Used(costs, limit, n) <= limit
  {
    hide Taken, Used, Fits, AreIndices;
    if n == 0 {
      NothingYet(costs, limit);
    } else {
      TakenTotal(costs, limit, n - 1);
      NextIndex(costs, limit, n - 1);
    }
  }

  lemma {:induction false} TakenOrLeft(costs: seq<nat>, limit: nat, n: nat)
    requires n <= |costs|
    ensures forall i | 0 <= i < n :: i in Left(costs, limit, n) <==> i !in Taken(costs, limit, n)
    ensures |Left(costs, limit, n)| + |Taken(costs, limit, n)| == n
  {
    hide Taken, Left, Used, Fits;
    if n == 0 {
      NothingYet(costs, limit);
    } else {
      TakenOrLeft(costs, limit, n - 1);
      NextIndex(costs, limit, n - 1);
    }
  }

  lemma {:induction false} BelowAppend(s: seq<nat>, j: nat, i: nat)
    requires i <= j
    ensures Below(s + [j], i) == Below(s, i)
  {
    if s == [] {
      assert s + [j] == [j];
    } else {
      assert (s + [j])[1..] == s[1..] + [j];
      BelowAppend(s[1..], j, i);
    }
  }

  lemma {:induction false} BelowAll(s: seq<nat>, i: nat)
    requires forall k | 0 <= k < |s| :: s[k] < i
    ensures Below(s, i) == s
  {
    if s != [] {
      BelowAll(s[1..], i);
    }
  }

  /** What was taken of the first i is what is in the whole selection below i. */
  lemma {:induction false} TakenBelow(costs: seq<nat>, limit: nat, i: nat, n: nat)
    requires i <= n <= |costs|
    ensures Below(Taken(costs, limit, n), i) == Taken(costs, limit, i)
    decreases n
  {
    hide Taken, Used, Fits, Below, AreIndices;
    if i < n {
      TakenBelow(costs, limit, i, n - 1);
      NextIndex(costs, limit, n - 1);
      BelowAppend(Taken(costs, limit, n - 1), n - 1, i);
    } else {
      BelowItself(costs, limit, n);
    }
  }

  lemma BelowItself(costs: seq<nat>, limit: nat, n: nat)
    requires n <= |costs|
    ensures Below(Taken(costs, limit, n), n) == Taken(costs, limit, n)
  {
    hide Taken, Below;
    BelowAll(Taken(costs, limit, n), n);
  }

  lemma OnlyBelow(costs: seq<nat>, limit: nat, i: nat)
    requires i <= |costs|
    ensures i !in Taken(costs, limit, i)
  {
    hide Taken, Ascends;
  }

  lemma {:induction false} TakenMember(costs: seq<nat>, limit: nat, i: nat, n: nat)
    requires i < n <= |costs|
    ensures i in Taken(costs, limit, n) <==> Used(costs, limit, i) + costs[i] <= limit
    decreases n
  {
    hide Taken, Used, Ascends, InRange, Fits;
    NextIndex(costs, limit, n - 1);
    FitsMeans(costs, limit, i);
    if i < n - 1 {
      TakenMember(costs, limit, i, n - 1);
    } else {
      OnlyBelow(costs, limit, i);
    }
  }

  lemma TakenIsGreedy(costs: seq<nat>, limit: nat)
    ensures IsGreedy(costs, limit, Taken(costs, limit, |costs|))
  {
    forall i | 0 <= i < |costs|
      ensures i in Taken(costs, limit, |costs|) <==>
        Total(costs, Below(Taken(costs, limit, |costs|), i)) + costs[i] <= limit
    {
      TakenBelow(costs, limit, i, |costs|);
      TakenMember(costs, limit, i, |costs|);
    }
  }

  lemma BelowZero(s: seq<nat>)
    ensures Below(s, 0) == []
  {
  }

  lemma IndicesTail(s: seq<nat>, n: nat)
    requires AreIndices(s, n) && s != []
    ensures AreIndices(s[1..], n) && forall k | 0 <= k < |s[1..]| :: s[0] < s[1..][k]
  {
  }

  lemma {:induction false} BelowNext(s: seq<nat>, i: nat, n: nat)
    requires AreIndices(s, n)
    ensures Below(s, i + 1) == if i in s then Below(s, i) + [i] else Below(s, i)
  {
    hide AreIndices;
    if s != [] {
      IndicesTail(s, n);
      assert s == [s[0]] + s[1..];
      if s[0] < i {
        BelowNext(s[1..], i, n);
      } else {
        assert s[1..] != [] ==> s[0] < s[1..][0];
        assert s[0] == i ==> Below(s[1..], i + 1) == [];
      }
    }
  }

  lemma {:induction false} GreedyBelow(costs: seq<nat>, limit: nat, selected: seq<nat>, i: nat)
    requires IsGreedy(costs, limit, selected) && i <= |costs|
    ensures Below(selected, i) == Taken(costs, limit, i)
  {
    if i == 0 {
      NothingYet(costs, limit);
      BelowZero(selected);
    } else {
      GreedyBelow(costs, limit, selected, i - 1);
      GreedyAt(costs, limit, selected, i - 1);
      hide Taken, Used, Total, Below, AreIndices, Fits;
      NextIndex(costs, limit, i - 1);
      BelowNext(selected, i - 1, |costs|);
    }
  }

  lemma GreedyAt(costs: seq<nat>, limit: nat, selected: seq<nat>, i: nat)
    requires IsGreedy(costs, limit, selected) && i < |costs| && Below(selected, i) == Taken(costs, limit, i)
    ensures i in selected <==> Fits(costs, limit, i)
    ensures AreIndices(selected, |costs|)
  {
    hide Taken, Below;
  }

  /** The greedy rule determines the selection. */
  lemma GreedyIsUnique(costs: seq<nat>, limit: nat, selected: seq<nat>)
    ensures IsGreedy(costs, limit, selected) <==> selected == Taken(costs, limit, |costs|)
  {
    TakenIsGreedy(costs, limit);
    if IsGreedy(costs, limit, selected) {
      GreedyBelow(costs, limit, selected, |costs|);
      BelowAll(selected, |costs|);
    }
  }

  function Sum(costs: seq<nat>): nat {
    if costs == [] then 0 else Sum(costs[..|costs| - 1]) + costs[|costs| - 1]
  }

  lemma {:induction false} TakenIsAll(costs: seq<nat>, limit: nat, n: nat)
    requires n <= |costs|
    ensures Sum(costs[..n]) <= limit ==> Left(costs, limit, n) == [] && Used(costs, limit, n) == Sum(costs[..n])
    ensures Left(costs, limit, n) == [] ==> Used(costs, limit, n) == Sum(costs[..n]) <= limit
  {
    hide Taken, Left, Used, Fits;
    if n > 0 {
      assert costs[..n][..n - 1] == costs[..n - 1];
      TakenIsAll(costs, limit, n - 1);
      NextIndex(costs, limit, n - 1);
    } else {
      NothingYet(costs, limit);
      assert costs[..0] == [];
    }
  }

  /** Nothing is left out exactly when everything fits together. */
  lemma NothingLeftExactly(costs: seq<nat>, limit: nat)
    ensures Left(costs, limit, |costs|) == [] <==> Sum(costs) <= limit
  {
    assert costs[..|costs|] == costs;
    TakenIsAll(costs, limit, |costs|);
  }

  // ---------- a larger budget ----------

  /** A larger budget never uses less: once the two selections part, the larger one has passed the
      smaller budget. */
  lemma {:induction false} UsedIsMonotone(costs: seq<nat>, limit: nat, larger: nat, n: nat)
    requires limit <= larger && n <= |costs|
    ensures Taken(costs, limit, n) == Taken(costs, larger, n) || Used(costs, larger, n) > limit
    ensures Used(costs, limit, n) <= Used(costs, larger, n)
  {
    hide Taken, Used, Fits, Total, AreIndices;
    TakenTotal(costs, limit, n);
    SameTakenSameUsed(costs, limit, larger, n);
    if n == 0 {
      NothingYet(costs, limit);
      NothingYet(costs, larger);
    } else {
      UsedIsMonotone(costs, limit, larger, n - 1);
      PartingWays(costs, limit, larger, n - 1);
    }
  }

  lemma SameTakenSameUsed(costs: seq<nat>, limit: nat, larger: nat, n: nat)
    requires n <= |costs|
    ensures Taken(costs, limit, n) == Taken(costs, larger, n) ==> Used(costs, limit, n) == Used(costs, larger, n)
  {
    hide Taken, Total;
  }

  lemma PartingWays(costs: seq<nat>, limit: nat, larger: nat, i: nat)
    requires limit <= larger && i < |costs|
    requires Taken(costs, limit, i) == Taken(costs, larger, i) || Used(costs, larger, i) > limit
    ensures Taken(costs, limit, i + 1) == Taken(costs, larger, i + 1) || Used(costs, larger, i + 1) > limit
  {
    hide Taken, Used, Fits, Total, AreIndices;
    SameTakenSameUsed(costs, limit, larger, i);
    NextIndex(costs, limit, i);
    NextIndex(costs, larger, i);
  }

  // ---------- what a larger budget may lose ----------

  /** No budget up to the ceiling loses what a smaller one kept. */
  ghost predicate KeepsSelection(costs: seq<nat>, ceiling: nat) {
    forall limit: nat, larger: nat | limit <= larger <= ceiling ::
      IsWithin(Taken(costs, limit, |costs|), Taken(costs, larger, |costs|))
  }

  predicate IsWithin(s: seq<nat>, t: seq<nat>) {
    forall i | i in s :: i in t
  }

  /** What the ceiling takes is never followed by something cheaper that is not free. */
  predicate NoneCheaperAfter(costs: seq<nat>, ceiling: nat) {
    forall i, j | 0 <= i < j < |costs| && i in Taken(costs, ceiling, |costs|) :: costs[j] == 0 || costs[i] <= costs[j]
  }

  lemma {:induction false} UsedGrows(costs: seq<nat>, limit: nat, i: nat, n: nat)
    requires i <= n <= |costs|
    ensures Used(costs, limit, i) <= Used(costs, limit, n)
    decreases n
  {
    hide Used, Taken, Fits, Ascends, InRange;
    if i < n {
      NextIndex(costs, limit, n - 1);
      UsedGrows(costs, limit, i, n - 1);
    }
  }

  /** Where two selections first part: the larger budget takes what the smaller one leaves. */
  lemma {:induction false} FirstParting(costs: seq<nat>, limit: nat, larger: nat, n: nat) returns (i: nat)
    requires limit <= larger && n <= |costs| && Taken(costs, limit, n) != Taken(costs, larger, n)
    ensures i < n && Used(costs, limit, i) == Used(costs, larger, i)
    ensures !Fits(costs, limit, i) && Fits(costs, larger, i)
    decreases n
  {
    hide Used, Taken, Fits, Ascends, InRange;
    if n == 0 {
      NothingYet(costs, limit);
      NothingYet(costs, larger);
    } else if Taken(costs, limit, n - 1) == Taken(costs, larger, n - 1) {
      SameTakenSameUsed(costs, limit, larger, n - 1);
      NextIndex(costs, limit, n - 1);
      NextIndex(costs, larger, n - 1);
      i := n - 1;
    } else {
      i := FirstParting(costs, limit, larger, n - 1);
    }
  }

  lemma TakenIfFits(costs: seq<nat>, limit: nat, i: nat)
    requires i < |costs|
    ensures i in Taken(costs, limit, |costs|) <==> Fits(costs, limit, i)
  {
    hide Used, Taken, Ascends, InRange;
    TakenMember(costs, limit, i, |costs|);
  }

  /** What a larger budget loses, it loses to an earlier and dearer index. */
  lemma LostToDearer(costs: seq<nat>, limit: nat, larger: nat, x: nat) returns (i: nat)
    requires limit <= larger && x < |costs| && Fits(costs, limit, x) && !Fits(costs, larger, x)
    ensures i < x && Fits(costs, larger, i) && 0 < costs[x] < costs[i]
  {
    TakenTotal(costs, larger, x);
    if Taken(costs, limit, x) == Taken(costs, larger, x) {
      SameTakenSameUsed(costs, limit, larger, x);
    }
    i := FirstParting(costs, limit, larger, x);
    hide Used, Taken, Ascends, InRange;
    UsedGrows(costs, limit, i, x);
  }

  /** A budget between what is used before i and the ceiling takes the same of the first i. */
  lemma {:induction false} SameBefore(costs: seq<nat>, limit: nat, ceiling: nat, i: nat, n: nat)
    requires n <= i <= |costs| && Used(costs, ceiling, i) <= limit <= ceiling
    ensures Taken(costs, limit, n) == Taken(costs, ceiling, n) && Used(costs, limit, n) == Used(costs, ceiling, n)
    decreases n
  {
    hide Used, Taken, Fits, Ascends, InRange;
    if n == 0 {
      NothingYet(costs, limit);
      NothingYet(costs, ceiling);
    } else {
      SameBefore(costs, limit, ceiling, i, n - 1);
      NextIndex(costs, limit, n - 1);
      NextIndex(costs, ceiling, n - 1);
      UsedGrows(costs, ceiling, n, i);
    }
  }

  /** A budget one short of i uses nothing more as long as nothing cheaper comes. */
  lemma {:induction false} NothingBetween(costs: seq<nat>, limit: nat, i: nat, n: nat)
    requires i < n <= |costs| && limit + 1 == Used(costs, limit, i) + costs[i]
    requires forall k | i < k < n :: costs[k] == 0 || costs[i] <= costs[k]
    ensures Used(costs, limit, n) == Used(costs, limit, i)
    decreases n
  {
    hide Used, Taken, Fits, Ascends, InRange;
    NextIndex(costs, limit, n - 1);
    if n > i + 1 {
      NothingBetween(costs, limit, i, n - 1);
    }
  }

  lemma FitsMeans(costs: seq<nat>, limit: nat, i: nat)
    requires i < |costs|
    ensures Fits(costs, limit, i) <==> Used(costs, limit, i) + costs[i] <= limit
  {
    hide Used;
  }

  /** A taken index with something cheaper behind it: the budget that it just fills loses what one less keeps. */
  lemma LosesBehind(costs: seq<nat>, ceiling: nat, i: nat, j: nat) returns (larger: nat, lost: nat)
    requires i < j < |costs| && Fits(costs, ceiling, i) && 0 < costs[j] < costs[i]
    ensures 0 < larger <= ceiling && lost < |costs|
    ensures Fits(costs, larger - 1, lost) && !Fits(costs, larger, lost)
    decreases j
  {
    hide Used, Taken, Fits, Ascends, InRange;
    if k :| i < k < j && 0 < costs[k] < costs[i] {
      larger, lost := LosesBehind(costs, ceiling, i, k);
    } else {
      var used := Used(costs, ceiling, i);
      FitsMeans(costs, ceiling, i);
      FitsMeans(costs, used + costs[i] - 1, j);
      FitsMeans(costs, used + costs[i], j);
      larger, lost := used + costs[i], j;
      SameBefore(costs, larger, ceiling, i, i);
      SameBefore(costs, larger - 1, ceiling, i, i);
      NothingBetween(costs, larger - 1, i, j);
      UsedGrows(costs, larger, i + 1, j);
      NextIndex(costs, larger, i);
    }
  }

  /** Up to any ceiling, a larger budget never loses what a smaller one kept exactly when nothing that the
      ceiling takes is followed by something cheaper that is not free. */
  lemma SelectionIsMonotoneExactly(costs: seq<nat>, ceiling: nat)
    ensures KeepsSelection(costs, ceiling) <==> NoneCheaperAfter(costs, ceiling)
  {
    if NoneCheaperAfter(costs, ceiling) {
      forall limit: nat, larger: nat, x | limit <= larger <= ceiling && x in Taken(costs, limit, |costs|)
        ensures x in Taken(costs, larger, |costs|)
      {
        NotLost(costs, ceiling, limit, larger, x);
      }
    }
    if i, j :| 0 <= i < j < |costs| && i in Taken(costs, ceiling, |costs|) && 0 < costs[j] < costs[i] {
      TakenIfFits(costs, ceiling, i);
      var larger, lost := LosesBehind(costs, ceiling, i, j);
      TakenIfFits(costs, larger - 1, lost);
      TakenIfFits(costs, larger, lost);
      assert !IsWithin(Taken(costs, larger - 1, |costs|), Taken(costs, larger, |costs|));
    }
  }

  lemma NotLost(costs: seq<nat>, ceiling: nat, limit: nat, larger: nat, x: nat)
    requires NoneCheaperAfter(costs, ceiling) && limit <= larger <= ceiling && x in Taken(costs, limit, |costs|)
    ensures x in Taken(costs, larger, |costs|)
  {
    TakenIfFits(costs, limit, x);
    TakenIfFits(costs, larger, x);
    if !Fits(costs, larger, x) {
      var i := LostToDearer(costs, limit, larger, x);
      TakenIfFits(costs, ceiling, i);
      if !Fits(costs, ceiling, i) {
        var i' := LostToDearer(costs, larger, ceiling, i);
        TakenIfFits(costs, ceiling, i');
      }
    }
  }

  /** Over all budgets: exactly when the costs never fall, free ones aside. */
  lemma SelectionIsMonotoneForAllBudgets(costs: seq<nat>)
    ensures (forall ceiling: nat :: KeepsSelection(costs, ceiling)) <==>
      forall i, j | 0 <= i < j < |costs| :: costs[j] == 0 || costs[i] <= costs[j]
  {
    if forall i, j | 0 <= i < j < |costs| :: costs[j] == 0 || costs[i] <= costs[j] {
      forall ceiling: nat ensures KeepsSelection(costs, ceiling) {
        SelectionIsMonotoneExactly(costs, ceiling);
      }
    }
    if forall ceiling: nat :: KeepsSelection(costs, ceiling) {
      SelectionIsMonotoneExactly(costs, Sum(costs));
      NothingLeftExactly(costs, Sum(costs));
      TakenOrLeft(costs, Sum(costs), |costs|);
    }
  }
}
