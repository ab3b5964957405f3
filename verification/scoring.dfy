// Relevance scores and the order in which context candidates are ranked.

module Relevance {
  import opened Texts
  import Ordering
  import opened LineSplitting

  datatype Signals = Signals(exactMatch: bool, termMatches: Byte, pathMatch: bool, diagnostic: bool, freshness: Byte)

  datatype Kind = ExactMatch | QueryCoverage | PathMatch | DiagnosticPriority | Freshness

  datatype Component = Component(kind: Kind, value: nat)

  function Score(s: Signals): nat {
    (if s.exactMatch then 800 else 0) + s.termMatches * 100 + (if s.pathMatch then 4000 else 0)
    + (if s.diagnostic then 1000 else 0) + s.freshness
  }

  function Optional(present: bool, c: Component): seq<Component> {
    if present then [c] else []
  }

  function Breakdown(s: Signals): seq<Component> {
    Optional(s.exactMatch, Component(ExactMatch, 800)) +
    Optional(s.termMatches > 0, Component(QueryCoverage, s.termMatches * 100)) +
    Optional(s.pathMatch, Component(PathMatch, 4000)) +
    Optional(s.diagnostic, Component(DiagnosticPriority, 1000)) +
    Optional(s.freshness > 0, Component(Freshness, s.freshness))
  }

  function TotalValue(parts: seq<Component>): nat {
    if parts == [] then 0 else parts[0].value + TotalValue(parts[1..])
  }

  lemma {:induction false} TotalAppend(a: seq<Component>, b: seq<Component>)
    ensures TotalValue(a + b) == TotalValue(a) + TotalValue(b)
  {
    if a == [] {
      assert a + b == b;
    } else {
      assert (a + b)[1..] == a[1..] + b;
      TotalAppend(a[1..], b);
    }
  }

  lemma OptionalValue(present: bool, c: Component)
    ensures TotalValue(Optional(present, c)) == if present then c.value else 0
    ensures (present ==> c.value > 0) ==> AllPositive(Optional(present, c))
  {
  }

  predicate AllPositive(parts: seq<Component>) {
    forall c | c in parts :: c.value > 0
  }

  lemma FiveParts(a: seq<Component>, b: seq<Component>, c: seq<Component>, d: seq<Component>, e: seq<Component>)
    ensures TotalValue(a + b + c + d + e) == TotalValue(a) + TotalValue(b) + TotalValue(c) + TotalValue(d) + TotalValue(e)
    ensures AllPositive(a) && AllPositive(b) && AllPositive(c) && AllPositive(d) && AllPositive(e)
      ==> AllPositive(a + b + c + d + e)
  {
    hide TotalValue;
    TotalAppend(a + b + c + d, e);
    TotalAppend(a + b + c, d);
    TotalAppend(a + b, c);
    TotalAppend(a, b);
  }

  /** The breakdown adds up to the score, has no zero part, and the 32-bit sum cannot overflow. */
  lemma BreakdownAddsUp(s: Signals)
    ensures TotalValue(Breakdown(s)) == Score(s) <= U32_MAX
    ensures forall c | c in Breakdown(s) :: c.value > 0
  {
    hide TotalValue, Optional;
    var exact, terms := Component(ExactMatch, 800), Component(QueryCoverage, s.termMatches * 100);
    var path, diagnostic := Component(PathMatch, 4000), Component(DiagnosticPriority, 1000);
    var recent := Component(Freshness, s.freshness);
    OptionalValue(s.exactMatch, exact);
    OptionalValue(s.termMatches > 0, terms);
    OptionalValue(s.pathMatch, path);
    OptionalValue(s.diagnostic, diagnostic);
    OptionalValue(s.freshness > 0, recent);
    FiveParts(Optional(s.exactMatch, exact), Optional(s.termMatches > 0, terms), Optional(s.pathMatch, path),
              Optional(s.diagnostic, diagnostic), Optional(s.freshness > 0, recent));
  }

  // ---------- what a signal is worth ----------

  const NO_SIGNALS := Signals(false, 0, false, false, 0)

  /** Without signals a candidate scores nothing. From any signals on, a unit of freshness adds one; a matching term is
      worth a hundred of those, an exact match eight terms, a diagnostic ten and a path match forty. */
  lemma SignalsWeigh(s: Signals)
    requires s.termMatches < 255 && s.freshness < 255
    ensures Score(NO_SIGNALS) == 0
    ensures Score(s.(freshness := s.freshness + 1)) - Score(s) == 1
    ensures var term := Score(s.(termMatches := s.termMatches + 1)) - Score(s);
      && term == 100 * (Score(s.(freshness := s.freshness + 1)) - Score(s))
      && Score(s.(exactMatch := true)) - Score(s.(exactMatch := false)) == 8 * term
      && Score(s.(diagnostic := true)) - Score(s.(diagnostic := false)) == 10 * term
      && Score(s.(pathMatch := true)) - Score(s.(pathMatch := false)) == 40 * term
  {
  }

  /** A named path outweighs everything else that a candidate without one can have exactly as long as that candidate
      has at most nineteen matching terms. */
  lemma PathOutweighsExactly(terms: Byte)
    ensures (forall s: Signals, t: Signals | s.pathMatch && !t.pathMatch && t.termMatches == terms :: Score(s) > Score(t)) <==>
      terms <= 19
  {
    var s, t := NO_SIGNALS.(pathMatch := true), Signals(true, terms, false, true, 255);
    assert terms > 19 ==> Score(s) < Score(t);
  }

  /** The signals without one kind of evidence. */
  function Without(s: Signals, kind: Kind): Signals {
    match kind
    case ExactMatch => s.(exactMatch := false)
    case QueryCoverage => s.(termMatches := 0)
    case PathMatch => s.(pathMatch := false)
    case DiagnosticPriority => s.(diagnostic := false)
    case Freshness => s.(freshness := 0)
  }

  /** Each part of the breakdown is what the score would lose without that kind of evidence; a kind has a part exactly
      when the score would lose something, and no kind has two. */
  lemma PartsAreLosses(s: Signals)
    ensures forall c | c in Breakdown(s) :: c.value == Score(s) - Score(Without(s, c.kind))
    ensures forall kind :: Score(Without(s, kind)) < Score(s) <==> exists c | c in Breakdown(s) :: c.kind == kind
    ensures forall i, j | 0 <= i < j < |Breakdown(s)| :: Breakdown(s)[i].kind != Breakdown(s)[j].kind
  {
    hide Breakdown;
    BreakdownMembers(s);
    BreakdownKinds(s);
    forall kind: Kind ensures Score(Without(s, kind)) < Score(s) <==> exists c | c in Breakdown(s) :: c.kind == kind {
      PartOf(s, kind);
    }
  }

  lemma PartOf(s: Signals, kind: Kind)
    ensures Score(Without(s, kind)) < Score(s) <==> exists c | c in Breakdown(s) :: c.kind == kind
  {
    hide Breakdown;
    BreakdownMembers(s);
    if Score(Without(s, kind)) < Score(s) {
      assert Component(kind, Score(s) - Score(Without(s, kind))) in Breakdown(s);
    }
  }

  lemma BreakdownMembers(s: Signals)
    ensures forall c :: c in Breakdown(s) <==>
      || (s.exactMatch && c == Component(ExactMatch, 800))
      || (s.termMatches > 0 && c == Component(QueryCoverage, s.termMatches * 100))
      || (s.pathMatch && c == Component(PathMatch, 4000))
      || (s.diagnostic && c == Component(DiagnosticPriority, 1000))
      || (s.freshness > 0 && c == Component(Freshness, s.freshness))
  {
  }

  function Place(kind: Kind): nat {
    match kind case ExactMatch => 0 case QueryCoverage => 1 case PathMatch => 2 case DiagnosticPriority => 3 case Freshness => 4
  }

  predicate InPlace(parts: seq<Component>, from: nat, upto: nat) {
    && (forall c | c in parts :: from <= Place(c.kind) < upto)
    && (forall i, j | 0 <= i < j < |parts| :: Place(parts[i].kind) < Place(parts[j].kind))
  }

  lemma PlacesConcat(a: seq<Component>, b: seq<Component>, from: nat, mid: nat, upto: nat)
    requires from <= mid <= upto && InPlace(a, from, mid) && InPlace(b, mid, upto)
    ensures InPlace(a + b, from, upto)
  {
    forall i, j | 0 <= i < j < |a + b| ensures Place((a + b)[i].kind) < Place((a + b)[j].kind) {
      if i < |a| <= j {
        assert (a + b)[i] in a && (a + b)[j] in b;
      }
    }
  }

  lemma OptionalInPlace(present: bool, c: Component)
    ensures InPlace(Optional(present, c), Place(c.kind), Place(c.kind) + 1)
  {
  }

  /** The parts come in the order of the kinds. */
  lemma BreakdownKinds(s: Signals)
    ensures InPlace(Breakdown(s), 0, 5)
  {
    var a, b := Optional(s.exactMatch, Component(ExactMatch, 800)), Optional(s.termMatches > 0, Component(QueryCoverage, s.termMatches * 100));
    var c, d := Optional(s.pathMatch, Component(PathMatch, 4000)), Optional(s.diagnostic, Component(DiagnosticPriority, 1000));
    var e := Optional(s.freshness > 0, Component(Freshness, s.freshness));
    hide InPlace, Optional;
    OptionalInPlace(s.exactMatch, Component(ExactMatch, 800));
    OptionalInPlace(s.termMatches > 0, Component(QueryCoverage, s.termMatches * 100));
    OptionalInPlace(s.pathMatch, Component(PathMatch, 4000));
    OptionalInPlace(s.diagnostic, Component(DiagnosticPriority, 1000));
    OptionalInPlace(s.freshness > 0, Component(Freshness, s.freshness));
    PlacesConcat(a, b, 0, 1, 2);
    PlacesConcat(a + b, c, 0, 2, 3);
    PlacesConcat(a + b + c, d, 0, 3, 4);
    PlacesConcat(a + b + c + d, e, 0, 4, 5);
  }

  // ---------- the order of strings ----------

  /** The order of `str`: by code point, a proper prefix first. */
  predicate Less(a: string, b: string) {
    b != "" && (a == "" || a[0] < b[0] || (a[0] == b[0] && Less(a[1..], b[1..])))
  }

  lemma {:induction false} LessTotal(a: string, b: string)
    ensures a == b || Less(a, b) || Less(b, a)
    ensures !(Less(a, b) && Less(b, a)) && (a == b ==> !Less(a, b))
  {
    if a != "" && b != "" {
      LessTotal(a[1..], b[1..]);
      assert a == [a[0]] + a[1..] && b == [b[0]] + b[1..];
    }
  }

  /** One string is before another exactly when it is a proper part of its beginning, or has the smaller character
      where they first differ. */
  lemma {:induction false} LessExactly(a: string, b: string)
    ensures Less(a, b) <==> exists k: nat | k <= |a| && k < |b| :: a[..k] == b[..k] && (k == |a| || a[k] < b[k])
  {
    if a != "" && b != "" && a[0] == b[0] {
      LessExactly(a[1..], b[1..]);
      if k: nat :| k <= |a[1..]| && k < |b[1..]| && a[1..][..k] == b[1..][..k] && (k == |a[1..]| || a[1..][k] < b[1..][k]) {
        assert a[..k + 1] == [a[0]] + a[1..][..k] && b[..k + 1] == [b[0]] + b[1..][..k];
      }
      if k: nat :| k <= |a| && k < |b| && a[..k] == b[..k] && (k == |a| || a[k] < b[k]) {
        assert k > 0;
        assert a[1..][..k - 1] == a[..k][1..] && b[1..][..k - 1] == b[..k][1..];
      }
    } else if a == "" {
      assert a[..0] == b[..0] == "";
    } else if b != "" {
      assert a[..0] == b[..0] == "";
      forall k: nat | 0 < k <= |a| && k < |b| ensures a[..k] != b[..k] {
        assert a[..k][0] != b[..k][0];
      }
    }
  }

  lemma {:induction false} LessTransitive(a: string, b: string, c: string)
    requires Less(a, b) && Less(b, c)
    ensures Less(a, c)
  {
    if a != "" && a[0] == b[0] && b[0] == c[0] {
      LessTransitive(a[1..], b[1..], c[1..]);
    }
  }

  // ---------- candidates ----------

  datatype Candidate = Candidate(sourceId: string, contentHash: string, content: string, signals: Signals)

  /** Ranks strictly before: higher score, or equal score and smaller source id. */
  predicate Better(c: Candidate, d: Candidate) {
    Score(c.signals) > Score(d.signals) || (Score(c.signals) == Score(d.signals) && Less(c.sourceId, d.sourceId))
  }

  /** Neither ranks before the other. */
  predicate Tied(c: Candidate, d: Candidate) {
    Score(c.signals) == Score(d.signals) && c.sourceId == d.sourceId
  }

  lemma BetterTotal(c: Candidate, d: Candidate)
    ensures Better(c, d) || Better(d, c) || Tied(c, d)
    ensures !(Better(c, d) && Better(d, c)) && (Tied(c, d) ==> !Better(c, d))
  {
    hide Score;
    LessTotal(c.sourceId, d.sourceId);
  }

  lemma BetterTransitive(c: Candidate, d: Candidate, e: Candidate)
    requires !Better(d, c) && !Better(e, d)
    ensures !Better(e, c)
  {
    hide Score, Less;
    BetterTotal(c, d);
    BetterTotal(d, e);
    BetterTotal(c, e);
    if Better(c, d) && Better(d, e) && Less(c.sourceId, d.sourceId) && Less(d.sourceId, e.sourceId) {
      LessTransitive(c.sourceId, d.sourceId, e.sourceId);
    }
  }

  function ByRank(): (Candidate, Candidate) -> bool {
    (c: Candidate, d: Candidate) => !Better(d, c)
  }

  function ByHash(): (Candidate, Candidate) -> bool {
    (c: Candidate, d: Candidate) => !Less(d.contentHash, c.contentHash)
  }

  function StrictlyByHash(): (Candidate, Candidate) -> bool {
    (c: Candidate, d: Candidate) => Less(c.contentHash, d.contentHash)
  }

  lemma RankIsPreorder()
    ensures Ordering.TotalPreorder(ByRank())
  {
    hide Better;
    forall c: Candidate, d: Candidate ensures ByRank()(c, d) || ByRank()(d, c) {
      BetterTotal(c, d);
    }
    forall c: Candidate, d: Candidate, e: Candidate | ByRank()(c, d) && ByRank()(d, e) ensures ByRank()(c, e) {
      BetterTransitive(c, d, e);
    }
  }

  lemma HashIsPreorder()
    ensures Ordering.TotalPreorder(ByHash()) && Ordering.StrictOrder(StrictlyByHash())
  {
    hide Less;
    forall c: Candidate, d: Candidate
      ensures ByHash()(c, d) || ByHash()(d, c)
      ensures StrictlyByHash()(c, d) ==> !StrictlyByHash()(d, c)
    {
      LessTotal(c.contentHash, d.contentHash);
    }
    forall c: Candidate, d: Candidate, e: Candidate | ByHash()(c, d) && ByHash()(d, e) ensures ByHash()(c, e) {
      NotLessTransitive(c.contentHash, d.contentHash, e.contentHash);
    }
    forall c: Candidate, d: Candidate, e: Candidate | StrictlyByHash()(c, d) && StrictlyByHash()(d, e)
      ensures StrictlyByHash()(c, e)
    {
      LessTransitive(c.contentHash, d.contentHash, e.contentHash);
    }
  }

  lemma NotLessTransitive(a: string, b: string, c: string)
    requires !Less(b, a) && !Less(c, b)
    ensures !Less(c, a)
  {
    hide Less;
    LessTotal(a, b);
    LessTotal(b, c);
    LessTotal(a, c);
    if Less(a, b) && Less(b, c) {
      LessTransitive(a, b, c);
    }
  }
}
