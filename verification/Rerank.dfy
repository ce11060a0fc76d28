/** `rerank` of `recommendation_rules.py`: freshness and diversity re-ranking of an
    eligible candidate list. */
module Rerank {
  import opened Sorting
  import opened TopK

  datatype Item = Item(id: string)
  datatype Category = Uncategorised | Category(name: string)

  datatype RuleSet = RuleSet(diversityEnabled: bool, maxPerCategory: int, freshnessEnabled: bool, freshnessWeight: real)

  /** The optional upstream relevance signal. */
  datatype Upstream = NoScores | Scores(of: map<Item, real>)

  const MAX_FRESHNESS_WEIGHT := 0.3

  // ---- the candidates ------------------------------------------------------------

  /** `[c for c in dict.fromkeys(candidates) if c in meta]`. */
  function Eligible(candidates: seq<Item>, meta: map<Item, Category>, n: nat): (r: seq<Item>)
    requires n <= |candidates|
    ensures |r| <= n
  {
    if n == 0 then []
    else
      var r := Eligible(candidates, meta, n - 1);
      if candidates[n - 1] in meta && candidates[n - 1] !in r then r + [candidates[n - 1]] else r
  }

  lemma {:induction false} EligibleSpec(candidates: seq<Item>, meta: map<Item, Category>, n: nat)
    requires n <= |candidates|
    ensures Distinct(Eligible(candidates, meta, n))
    ensures forall c :: c in Eligible(candidates, meta, n) <==> c in candidates[..n] && c in meta
  {
    if n > 0 {
      EligibleSpec(candidates, meta, n - 1);
      assert candidates[..n] == candidates[..n - 1] + [candidates[n - 1]];
    }
  }

  /** `a` occurs before the first occurrence of `b`. */
  ghost predicate OccursBefore(candidates: seq<Item>, a: Item, b: Item) {
    exists k :: 0 <= k < |candidates| && candidates[k] == a && b !in candidates[..k + 1]
  }

  /** The eligible candidates keep the order of their first occurrences. */
  lemma {:induction false} EligibleOrder(candidates: seq<Item>, meta: map<Item, Category>, n: nat, i: nat, j: nat)
    requires n <= |candidates| && i < j < |Eligible(candidates, meta, n)|
    ensures OccursBefore(candidates, Eligible(candidates, meta, n)[i], Eligible(candidates, meta, n)[j])
  {
    var before := Eligible(candidates, meta, n - 1);
    if j < |before| {
      EligibleOrder(candidates, meta, n - 1, i, j);
    } else {
      EligibleSpec(candidates, meta, n - 1);
      assert before[i] in before;
      var k :| 0 <= k < n - 1 && candidates[..n - 1][k] == before[i];
      var c := candidates[n - 1];
      assert candidates[..k + 1] <= candidates[..n - 1];
      assert c !in candidates[..k + 1];
      assert candidates[k] == before[i];
    }
  }

  /** Neighbouring candidates share a tie group when their upstream scores are equal. */
  predicate TiedAt(ids: seq<Item>, scores: Upstream, k: nat)
    requires 0 < k < |ids|
  {
    scores.Scores? &&
    (if ids[k] in scores.of then ids[k - 1] in scores.of && scores.of[ids[k - 1]] == scores.of[ids[k]]
     else ids[k - 1] !in scores.of)
  }

  /** The index of the first candidate of k's tie group. */
  function GroupStart(ids: seq<Item>, scores: Upstream, k: nat): (r: nat)
    requires k < |ids|
    ensures r <= k
  {
    if k == 0 || !TiedAt(ids, scores, k) then k else GroupStart(ids, scores, k - 1)
  }

  /** A group starts where the run of equal neighbours around `k` starts; a candidate the
      upstream does not score ties with a neighbour it does not score either. */
  lemma {:induction false} GroupStartMeans(ids: seq<Item>, scores: Upstream, k: nat, start: nat)
    requires k < |ids| && start == GroupStart(ids, scores, k)
    ensures start <= k && (start > 0 ==> !EqualScores(scores, ids[start - 1], ids[start]))
    ensures forall i :: start < i <= k ==> EqualScores(scores, ids[i - 1], ids[i])
  {
    if k > 0 && TiedAt(ids, scores, k) { GroupStartMeans(ids, scores, k - 1, start); }
  }

  ghost predicate EqualScores(scores: Upstream, a: Item, b: Item) {
    && scores.Scores? && (a in scores.of <==> b in scores.of)
    && (a in scores.of && b in scores.of ==> scores.of[a] == scores.of[b])
  }

  lemma {:induction false} GroupStartGrows(ids: seq<Item>, scores: Upstream, j: nat, k: nat)
    requires j <= k < |ids|
    ensures GroupStart(ids, scores, j) <= GroupStart(ids, scores, k)
  {
    if j < k { GroupStartGrows(ids, scores, j, k - 1); }
  }

  /** Two candidates share a group exactly when every neighbouring pair between them
      is tied. */
  lemma {:induction false} TieGroupIs(ids: seq<Item>, scores: Upstream, j: nat, k: nat)
    requires j <= k < |ids|
    ensures GroupStart(ids, scores, j) == GroupStart(ids, scores, k) <==>
      forall i :: j < i <= k ==> TiedAt(ids, scores, i)
  {
    hide TiedAt;
    if j < k {
      TieGroupIs(ids, scores, j, k - 1);
      GroupStartGrows(ids, scores, j, k - 1);
    }
  }

  // ---- the freshness score -----------------------------------------------------------

  /** The configured weight, clamped to [0, 0.3]; zero when freshness is off. */
  function Weight(rules: RuleSet): (w: real)
    ensures 0.0 <= w <= 0.3
    ensures w > 0.0 <==> rules.freshnessEnabled && rules.freshnessWeight > 0.0
    ensures rules.freshnessEnabled && 0.0 <= rules.freshnessWeight <= 0.3 ==> w == rules.freshnessWeight
    ensures rules.freshnessEnabled && rules.freshnessWeight > 0.3 ==> w == 0.3
  {
    if !rules.freshnessEnabled || rules.freshnessWeight < 0.0 then 0.0
    else if rules.freshnessWeight > MAX_FRESHNESS_WEIGHT then MAX_FRESHNESS_WEIGHT
    else rules.freshnessWeight
  }

  /** The score of a candidate whose group starts at `start`; `f` is its freshness. */
  function ScoreOf(w: real, n: nat, start: nat, f: real): real
    requires n > 0
  {
    var relevance := 1.0 - start as real / n as real;
    if w == 0.0 then relevance else (1.0 - w) * relevance + w * f
  }

  function ScoreList(ids: seq<Item>, starts: seq<nat>, w: real, recency: Item -> real, k: nat): (r: seq<Score>)
    requires k <= |ids| == |starts|
    ensures |r| == k
    ensures forall i {:trigger r[i]} :: 0 <= i < k ==> r[i] == Finite(ScoreOf(w, |ids|, starts[i], recency(ids[i])))
  {
    if k == 0 then []
    else ScoreList(ids, starts, w, recency, k - 1) + [Finite(ScoreOf(w, |ids|, starts[k - 1], recency(ids[k - 1])))]
  }

  function Starts(ids: seq<Item>, scores: Upstream, k: nat): (r: seq<nat>)
    requires k <= |ids|
    ensures |r| == k
    ensures forall i {:trigger r[i]} :: 0 <= i < k ==> r[i] == GroupStart(ids, scores, i)
  {
    if k == 0 then [] else Starts(ids, scores, k - 1) + [GroupStart(ids, scores, k - 1)]
  }

  /** The re-ranked order as a list of original indices: position p holds order[p]. */
  function NewOrder(ids: seq<Item>, scores: Upstream, w: real, recency: Item -> real): seq<nat> {
    Ranked(ScoreList(ids, Starts(ids, scores, |ids|), w, recency, |ids|), UpTo(|ids|))
  }

  ghost predicate Freshness(recency: Item -> real) { forall x :: 0.0 <= recency(x) <= 1.0 }

  /** `d` positions are fewer than n*w/(1-w). */
  predicate InBand(d: int, n: nat, w: real) { d as real * (1.0 - w) < n as real * w }

  /** A candidate passes another only within the band of the freshness weight:
      the tie groups it overtakes start less than n*w/(1-w) above its own. */
  lemma {:induction false} OnlyWithinBand(w: real, n: nat, si: nat, fi: real, sj: nat, fj: real)
    requires n > 0 && 0.0 <= w < 1.0 && 0.0 <= fi <= 1.0 && 0.0 <= fj <= 1.0
    requires ScoreOf(w, n, si, fi) > ScoreOf(w, n, sj, fj)
    requires sj <= si
    ensures w > 0.0 && InBand(si - sj, n, w)
  {
    var m, a, b := n as real, si as real / n as real, sj as real / n as real;
    Relevance(n, sj, si);
    Narrow(w, a, b, fi, fj);
    Widen(w, m, a, b, si as real, sj as real);
  }

  /** What the score comparison says once freshness is bounded. */
  lemma Narrow(w: real, a: real, b: real, fi: real, fj: real)
    requires 0.0 <= w < 1.0 && a >= b && 0.0 <= fi <= 1.0 && 0.0 <= fj <= 1.0
    requires (if w == 0.0 then 1.0 - a else (1.0 - w) * (1.0 - a) + w * fi) >
             (if w == 0.0 then 1.0 - b else (1.0 - w) * (1.0 - b) + w * fj)
    ensures w > 0.0 && (1.0 - w) * (a - b) < w
  {
    if w > 0.0 {
      NonNegative(w, 1.0 - (fi - fj));
      Expand(w, a, b, fi, fj);
    }
  }

  lemma Widen(w: real, m: real, a: real, b: real, si: real, sj: real)
    requires m > 0.0 && a == si / m && b == sj / m && (1.0 - w) * (a - b) < w
    ensures (si - sj) * (1.0 - w) < m * w
  {
    assert a * m == si && b * m == sj;
    Scale((1.0 - w) * (a - b), w, m);
    Regroup(w, m, a, b);
  }

  lemma Regroup(w: real, m: real, a: real, b: real)
    ensures (1.0 - w) * (a - b) * m == (a * m - b * m) * (1.0 - w)
  {
  }

  lemma Scale(x: real, y: real, m: real)
    requires x < y && m > 0.0
    ensures x * m < y * m
  {
  }

  lemma Expand(w: real, a: real, b: real, fi: real, fj: real)
    requires (1.0 - w) * (1.0 - a) + w * fi > (1.0 - w) * (1.0 - b) + w * fj
    ensures (1.0 - w) * (a - b) < w * (fi - fj)
  {
  }

  lemma ScoresAt(ids: seq<Item>, scores: Upstream, w: real, recency: Item -> real, list: seq<Score>, i: nat)
    requires i < |ids| && list == ScoreList(ids, Starts(ids, scores, |ids|), w, recency, |ids|)
    ensures ScoreAt(list, i) == Finite(ScoreOf(w, |ids|, GroupStart(ids, scores, i), recency(ids[i])))
  {
  }

  /** `i` was behind `j` and is now ahead: only within the band. */
  lemma Overtakes(ids: seq<Item>, scores: Upstream, w: real, recency: Item -> real, list: seq<Score>, i: nat, j: nat)
    requires 0.0 <= w < 1.0 && Freshness(recency) && j < i < |ids|
    requires list == ScoreList(ids, Starts(ids, scores, |ids|), w, recency, |ids|) && Ahead(list, i, j)
    ensures w > 0.0 && InBand(GroupStart(ids, scores, i) - GroupStart(ids, scores, j), |ids|, w)
  {
    hide InBand, ScoreOf, ScoreList, GroupStart, Starts;
    ScoresAt(ids, scores, w, recency, list, i);
    ScoresAt(ids, scores, w, recency, list, j);
    GroupStartGrows(ids, scores, j, i);
    OnlyWithinBand(w, |ids|, GroupStart(ids, scores, i), recency(ids[i]), GroupStart(ids, scores, j), recency(ids[j]));
  }

  /** Inside a tie group freshness alone decides, whatever the positive weight, and
      equally fresh candidates keep their order. */
  lemma FreshnessBreaksTies(ids: seq<Item>, scores: Upstream, w: real, recency: Item -> real, list: seq<Score>,
                            i: nat, j: nat)
    requires 0.0 < w < 1.0 && i < |ids| && j < |ids| && i != j
    requires GroupStart(ids, scores, i) == GroupStart(ids, scores, j)
    requires list == ScoreList(ids, Starts(ids, scores, |ids|), w, recency, |ids|)
    ensures Ahead(list, i, j) <==> recency(ids[i]) > recency(ids[j]) || (recency(ids[i]) == recency(ids[j]) && i < j)
  {
    ScoresAt(ids, scores, w, recency, list, i);
    ScoresAt(ids, scores, w, recency, list, j);
    hide ScoreList, Starts, GroupStart, ScoreOf;
    FresherScoresHigher(w, |ids|, GroupStart(ids, scores, i), recency(ids[i]), recency(ids[j]));
    FresherScoresHigher(w, |ids|, GroupStart(ids, scores, i), recency(ids[j]), recency(ids[i]));
  }

  lemma FresherScoresHigher(w: real, n: nat, start: nat, f: real, g: real)
    requires 0.0 < w < 1.0 && n > 0
    ensures f > g ==> ScoreOf(w, n, start, f) > ScoreOf(w, n, start, g)
  {
    if f > g { Scale(g, f, w); }
  }

  // ---- displacement --------------------------------------------------------------------

  /** Moving from index `i` to a lower position means passing one at or beyond it:
      by counting, some entry ahead of `i` came from index `p` or later. */
  lemma MovedDown(order: seq<nat>, p: nat) returns (q: nat)
    requires Distinct(order) && p < |order| && order[p] < p
    ensures q < p && order[q] >= p
  {
    if forall q :: 0 <= q < p ==> order[q] < p {
      UpToSpec(p);
      NotMore(order[..p + 1], UpTo(p));
    }
    q :| q < p && order[q] >= p;
  }

  lemma MovedUp(order: seq<nat>, p: nat) returns (q: nat)
    requires Distinct(order) && p < |order| && p < order[p] < |order|
    requires forall i: nat :: i < |order| ==> i in order
    ensures p < q < |order| && order[q] <= p
  {
    if forall q :: p < q < |order| ==> order[q] > p {
      UpToSpec(p + 1);
      forall i | i in UpTo(p + 1) ensures i in order[..p] {
        assert i in order;
        var k: nat :| k < |order| && order[k] == i;
      }
      DistinctUpTo(p + 1);
      NotMore(UpTo(p + 1), order[..p]);
    }
    q :| p < q < |order| && order[q] <= p;
  }

  lemma DistinctUpTo(n: nat)
    ensures Distinct(UpTo(n))
  {
    UpToSpec(n);
  }

  lemma {:induction false} OrderSpec(ids: seq<Item>, scores: Upstream, w: real, recency: Item -> real,
                                     order: seq<nat>, list: seq<Score>)
    requires order == NewOrder(ids, scores, w, recency)
    requires list == ScoreList(ids, Starts(ids, scores, |ids|), w, recency, |ids|)
    ensures |order| == |ids| && Distinct(order) && InOrder(list, order)
    ensures forall i: nat :: i in order <==> i < |ids|
  {
    UpToSpec(|ids|);
    RankedSpec(list, UpTo(|ids|));
    hide Ranked, UpTo, ScoreList, Starts;
    forall p, q | 0 <= p < q < |order| ensures order[p] != order[q] { assert Ahead(list, order[p], order[q]); }
  }

  /** The new order, written out: descending (1 - w) * (1 - start / n) + w * freshness,
      equal scores in the old order. */
  lemma {:induction false} OrderMeans(ids: seq<Item>, scores: Upstream, w: real, recency: Item -> real,
                                      order: seq<nat>, p: nat, q: nat, a: real, b: real)
    requires order == NewOrder(ids, scores, w, recency) && p < q < |order| && |order| == |ids|
    requires order[p] < |ids| && order[q] < |ids|
    requires var n := |ids| as real;
      && a == (1.0 - w) * (1.0 - GroupStart(ids, scores, order[p]) as real / n) + w * recency(ids[order[p]])
      && b == (1.0 - w) * (1.0 - GroupStart(ids, scores, order[q]) as real / n) + w * recency(ids[order[q]])
    ensures a > b || (a == b && order[p] < order[q])
  {
    hide *;
    var list := ScoreList(ids, Starts(ids, scores, |ids|), w, recency, |ids|);
    OrderSpec(ids, scores, w, recency, order, list);
    ScoresAt(ids, scores, w, recency, list, order[p]);
    ScoresAt(ids, scores, w, recency, list, order[q]);
    ScoreOfIs(w, |ids|, GroupStart(ids, scores, order[p]), recency(ids[order[p]]));
    ScoreOfIs(w, |ids|, GroupStart(ids, scores, order[q]), recency(ids[order[q]]));
    InOrderAt(list, order, p, q, a, b);
  }

  lemma InOrderAt(list: seq<Score>, order: seq<nat>, p: nat, q: nat, a: real, b: real)
    requires InOrder(list, order) && p < q < |order|
    requires ScoreAt(list, order[p]) == Finite(a) && ScoreAt(list, order[q]) == Finite(b)
    ensures a > b || (a == b && order[p] < order[q])
  {
    assert Ahead(list, order[p], order[q]);
  }

  lemma ScoreOfIs(w: real, n: nat, start: nat, f: real)
    requires n > 0
    ensures ScoreOf(w, n, start, f) == (1.0 - w) * (1.0 - start as real / n as real) + w * f
  {
  }

  /** Untied candidates start their own groups. */
  ghost predicate Untied(ids: seq<Item>, scores: Upstream) {
    forall k :: 0 < k < |ids| ==> !TiedAt(ids, scores, k)
  }

  function Distance(order: seq<nat>, p: nat): nat
    requires p < |order|
  {
    if order[p] < p then p - order[p] else order[p] - p
  }

  /** Without upstream ties no candidate moves n*w/(1-w) or more positions. */
  lemma {:induction false} DisplacementBound(ids: seq<Item>, scores: Upstream, w: real, recency: Item -> real,
                                             order: seq<nat>, p: nat)
    requires 0.0 <= w < 1.0 && Freshness(recency) && Untied(ids, scores)
    requires order == NewOrder(ids, scores, w, recency) && p < |order|
    ensures order[p] == p || InBand(Distance(order, p), |ids|, w)
  {
    hide *;
    var list := ScoreList(ids, Starts(ids, scores, |ids|), w, recency, |ids|);
    OrderSpec(ids, scores, w, recency, order, list);
    assert order[p] in order;
    if order[p] < p {
      var q := MovedDown(order, p);
      assert order[q] in order;
      PairMoved(ids, scores, w, recency, order, list, p, q);
      Shorter(p - order[p], order[q] - order[p], w, |ids|);
    } else if p < order[p] {
      var q := MovedUp(order, p);
      assert order[q] in order;
      PairMoved(ids, scores, w, recency, order, list, q, p);
      Shorter(order[p] - p, order[p] - order[q], w, |ids|);
    }
    DistanceIs(order, p);
  }

  lemma DistanceIs(order: seq<nat>, p: nat)
    requires p < |order|
    ensures Distance(order, p) == if order[p] < p then p - order[p] else order[p] - p
  {
  }

  /** Of two entries in the new order, the one ahead came from further down only
      within the band. */
  lemma PairMoved(ids: seq<Item>, scores: Upstream, w: real, recency: Item -> real, order: seq<nat>, list: seq<Score>,
                  p: nat, q: nat)
    requires 0.0 <= w < 1.0 && Freshness(recency) && Untied(ids, scores)
    requires list == ScoreList(ids, Starts(ids, scores, |ids|), w, recency, |ids|) && InOrder(list, order)
    requires p < |order| && q < p && order[p] < order[q] < |ids|
    ensures InBand(order[q] - order[p], |ids|, w)
  {
    hide ScoreList, Starts, Ahead, Freshness, InBand, GroupStart;
    assert Ahead(list, order[q], order[p]);
    Overtakes(ids, scores, w, recency, list, order[q], order[p]);
    OwnGroups(ids, scores, order[q], order[p]);
  }

  lemma OwnGroups(ids: seq<Item>, scores: Upstream, i: nat, j: nat)
    requires Untied(ids, scores) && i < |ids| && j < |ids|
    ensures GroupStart(ids, scores, i) == i && GroupStart(ids, scores, j) == j
  {
  }

  lemma NonNegative(x: real, y: real)
    requires x >= 0.0 && y >= 0.0
    ensures x * y >= 0.0
  {
  }

  lemma Shorter(a: int, b: int, w: real, n: nat)
    requires a <= b && 0.0 <= w < 1.0 && InBand(b, n, w)
    ensures InBand(a, n, w)
  {
    var d := b as real - a as real;
    NonNegative(d, 1.0 - w);
    assert b as real * (1.0 - w) == a as real * (1.0 - w) + d * (1.0 - w);
  }

  /** At the 0.3 cap: at most 3n/7 positions, whatever weight was configured. */
  lemma {:induction false} DisplacementAtCap(ids: seq<Item>, scores: Upstream, rules: RuleSet, recency: Item -> real,
                                             order: seq<nat>, p: nat)
    requires Freshness(recency) && Untied(ids, scores)
    requires order == NewOrder(ids, scores, Weight(rules), recency) && p < |order|
    ensures 7 * Distance(order, p) <= 3 * |ids|
  {
    DisplacementBound(ids, scores, Weight(rules), recency, order, p);
    if order[p] != p { BandAtCap(Distance(order, p), |ids|, Weight(rules)); }
  }

  lemma BandAtCap(d: nat, n: nat, w: real)
    requires 0.0 <= w <= 0.3 && InBand(d, n, w)
    ensures 7 * d <= 3 * n
  {
    NonNegative(d as real, 0.3 - w);
    NonNegative(n as real, 0.3 - w);
    assert d as real * 0.7 <= d as real * (1.0 - w) < n as real * w <= n as real * 0.3;
  }

  /** Weight zero keeps the order exactly, tied scores included. */
  lemma {:induction false} ZeroWeightKeepsOrder(ids: seq<Item>, scores: Upstream, recency: Item -> real)
    ensures NewOrder(ids, scores, 0.0, recency) == UpTo(|ids|)
  {
    var list := ScoreList(ids, Starts(ids, scores, |ids|), 0.0, recency, |ids|);
    var all := UpTo(|ids|);
    UpToSpec(|ids|);
    hide ScoreList, Starts, UpTo, GroupStart;
    forall p, q | 0 <= p < q < |all| ensures Ahead(list, all[p], all[q]) {
      assert all[p] in all && all[q] in all && all[p] < all[q];
      ZeroAhead(ids, scores, recency, list, all[p], all[q]);
    }
    RankedUnique(list, all, all);
  }

  lemma ZeroAhead(ids: seq<Item>, scores: Upstream, recency: Item -> real, list: seq<Score>, i: nat, j: nat)
    requires i < j < |ids| && list == ScoreList(ids, Starts(ids, scores, |ids|), 0.0, recency, |ids|)
    ensures Ahead(list, i, j)
  {
    ScoresAt(ids, scores, 0.0, recency, list, i);
    ScoresAt(ids, scores, 0.0, recency, list, j);
    GroupStartGrows(ids, scores, i, j);
    Relevance(|ids|, GroupStart(ids, scores, i), GroupStart(ids, scores, j));
  }

  lemma Relevance(n: nat, a: nat, b: nat)
    requires n > 0 && a <= b
    ensures a as real / n as real <= b as real / n as real
  {
  }

  // ---- the diversity cap -----------------------------------------------------------------

  function CategoryOf(meta: map<Item, Category>, x: Item): Category {
    if x in meta then meta[x] else Uncategorised
  }

  /** How many of the first `n` items have category `c`. */
  function Size(s: seq<Item>, meta: map<Item, Category>, c: Category, n: nat): nat
    requires n <= |s|
  {
    if n == 0 then 0 else Size(s, meta, c, n - 1) + if CategoryOf(meta, s[n - 1]) == c then 1 else 0
  }

  /** Kept by the capped pass: uncategorised, or fewer than `cap` of its category
      came before it. */
  predicate WithinCap(s: seq<Item>, meta: map<Item, Category>, cap: nat, k: nat)
    requires k < |s|
  {
    var c := CategoryOf(meta, s[k]);
    c == Uncategorised || Size(s, meta, c, k) < cap
  }

  function Kept(s: seq<Item>, meta: map<Item, Category>, cap: nat, n: nat): seq<Item>
    requires n <= |s|
  {
    if n == 0 then [] else Kept(s, meta, cap, n - 1) + if WithinCap(s, meta, cap, n - 1) then [s[n - 1]] else []
  }

  function Deferred(s: seq<Item>, meta: map<Item, Category>, cap: nat, n: nat): seq<Item>
    requires n <= |s|
  {
    if n == 0 then [] else Deferred(s, meta, cap, n - 1) + if WithinCap(s, meta, cap, n - 1) then [] else [s[n - 1]]
  }

  lemma KeptStep(s: seq<Item>, meta: map<Item, Category>, cap: nat, n: nat)
    requires 0 < n <= |s|
    ensures var a, b, x := Kept(s, meta, cap, n - 1), Deferred(s, meta, cap, n - 1), s[n - 1];
      && Kept(s, meta, cap, n) == (if WithinCap(s, meta, cap, n - 1) then a + [x] else a)
      && Deferred(s, meta, cap, n) == (if WithinCap(s, meta, cap, n - 1) then b else b + [x])
      && (Kept(s, meta, cap, n) + Deferred(s, meta, cap, n) == a + [x] + b ||
          Kept(s, meta, cap, n) + Deferred(s, meta, cap, n) == a + b + [x])
  {
    hide WithinCap;
    var a, b, x := Kept(s, meta, cap, n - 1), Deferred(s, meta, cap, n - 1), s[n - 1];
    assert a + [] == a && b + [] == b;
    assert a + (b + [x]) == a + b + [x];
  }

  lemma {:induction false} KeptAndDeferred(s: seq<Item>, meta: map<Item, Category>, cap: nat, n: nat)
    requires n <= |s|
    ensures |Kept(s, meta, cap, n)| + |Deferred(s, meta, cap, n)| == n
    ensures forall x :: x in Kept(s, meta, cap, n) + Deferred(s, meta, cap, n) <==> x in s[..n]
    ensures Distinct(s) ==> Distinct(Kept(s, meta, cap, n) + Deferred(s, meta, cap, n))
  {
    hide WithinCap;
    if n > 0 {
      KeptAndDeferred(s, meta, cap, n - 1);
      assert s[..n] == s[..n - 1] + [s[n - 1]];
      var a, b := Kept(s, meta, cap, n - 1), Deferred(s, meta, cap, n - 1);
      KeptStep(s, meta, cap, n);
      if Distinct(s) { AddedDistinct(a, b, s[n - 1]); }
    }
  }

  lemma AddedDistinct(a: seq<Item>, b: seq<Item>, x: Item)
    requires Distinct(a + b)
    ensures x !in a + b ==> Distinct(a + [x] + b) && Distinct(a + b + [x])
  {
    var s := a + b;
    if x !in s {
      var t := a + [x] + b;
      forall i, j | 0 <= i < j < |t| ensures t[i] != t[j] {
        assert i != |a| ==> t[i] == s[if i < |a| then i else i - 1];
        assert j != |a| ==> t[j] == s[if j < |a| then j else j - 1];
      }
    }
  }

  lemma {:induction false} KeptPrefix(s: seq<Item>, meta: map<Item, Category>, cap: nat, k: nat, n: nat)
    requires k <= n <= |s|
    ensures |Kept(s, meta, cap, k)| <= |Kept(s, meta, cap, n)|
    ensures Kept(s, meta, cap, n)[..|Kept(s, meta, cap, k)|] == Kept(s, meta, cap, k)
  {
    if k < n { KeptPrefix(s, meta, cap, k, n - 1); }
  }

  /** The greedy result: the capped pass, then the deferred items, cut to `topN`. */
  function Diverse(s: seq<Item>, meta: map<Item, Category>, cap: nat, topN: nat): (r: seq<Item>)
  {
    KeptAndDeferred(s, meta, cap, |s|);
    (Kept(s, meta, cap, |s|) + Deferred(s, meta, cap, |s|))[..Smaller(topN, |s|)]
  }

  function Count(counts: map<Category, nat>, c: Category): nat { if c in counts then counts[c] else 0 }

  /** The counters count what was kept of every category among the first `k` items. */
  ghost predicate Counted(counts: map<Category, nat>, s: seq<Item>, meta: map<Item, Category>, cap: nat, k: nat)
    requires k <= |s|
  {
    forall c :: c != Uncategorised ==> Count(counts, c) == Smaller(Size(s, meta, c, k), cap)
  }

  lemma CountedNone(s: seq<Item>, meta: map<Item, Category>, cap: nat)
    ensures Counted(map[], s, meta, cap, 0)
  {
  }

  lemma {:induction false} CountedStep(counts: map<Category, nat>, s: seq<Item>, meta: map<Item, Category>, cap: nat,
                                       k: nat)
    requires k < |s| && Counted(counts, s, meta, cap, k)
    ensures var c := CategoryOf(meta, s[k]);
      && (WithinCap(s, meta, cap, k) <==> c == Uncategorised || Count(counts, c) < cap)
      && (c == Uncategorised || Count(counts, c) >= cap ==> Counted(counts, s, meta, cap, k + 1))
      && (c != Uncategorised && Count(counts, c) < cap ==>
            Counted(counts[c := Count(counts, c) + 1], s, meta, cap, k + 1))
  {
    hide Size, CategoryOf, Smaller, WithinCap;
    var c := CategoryOf(meta, s[k]);
    if c == Uncategorised || Count(counts, c) >= cap {
      forall d | d != Uncategorised ensures Count(counts, d) == Smaller(Size(s, meta, d, k + 1), cap) {
        SizeStep(s, meta, d, k + 1);
        CapRule(s, meta, cap, k, d);
      }
    } else {
      var next := counts[c := Count(counts, c) + 1];
      forall d | d != Uncategorised ensures Count(next, d) == Smaller(Size(s, meta, d, k + 1), cap) {
        SizeStep(s, meta, d, k + 1);
        CapRule(s, meta, cap, k, d);
      }
    }
    CapRule(s, meta, cap, k, if c == Uncategorised then Category("") else c);
  }

  /** The diversity loop, with its early exit. */
  method Diversify(s: seq<Item>, meta: map<Item, Category>, cap: nat, topN: nat) returns (r: seq<Item>)
    requires cap >= 1
    ensures r == Diverse(s, meta, cap, topN)
  {
    hide *;
    var picked: seq<Item>, deferred: seq<Item>, counts: map<Category, nat> := [], [], map[];
    NothingKept(s, meta, cap);
    CountedNone(s, meta, cap);
    for k := 0 to |s|
      invariant picked == Kept(s, meta, cap, k) && deferred == Deferred(s, meta, cap, k)
      invariant Counted(counts, s, meta, cap, k)
      invariant |picked| < topN || topN == 0
    {
      var category := CategoryOf(meta, s[k]);
      KeptStep(s, meta, cap, k + 1);
      CountedStep(counts, s, meta, cap, k);
      if category == Uncategorised || Count(counts, category) < cap {
        picked := picked + [s[k]];
        if category != Uncategorised { counts := counts[category := Count(counts, category) + 1]; }
        if |picked| == topN {
          FullEarly(s, meta, cap, k + 1, topN);
          return picked;
        }
      } else {
        deferred := deferred + [s[k]];
      }
    }
    DiverseIs(s, meta, cap, topN);
    r := (picked + deferred)[..Smaller(topN, |s|)];
  }

  lemma NothingKept(s: seq<Item>, meta: map<Item, Category>, cap: nat)
    ensures Kept(s, meta, cap, 0) == [] == Deferred(s, meta, cap, 0)
  {
  }

  lemma DiverseIs(s: seq<Item>, meta: map<Item, Category>, cap: nat, topN: nat)
    ensures Smaller(topN, |s|) <= |Kept(s, meta, cap, |s|) + Deferred(s, meta, cap, |s|)|
    ensures Diverse(s, meta, cap, topN) ==
      (Kept(s, meta, cap, |s|) + Deferred(s, meta, cap, |s|))[..Smaller(topN, |s|)]
  {
    KeptAndDeferred(s, meta, cap, |s|);
    hide Kept, Deferred;
  }

  /** Once `topN` items are kept, the rest of the list does not matter. */
  lemma FullEarly(s: seq<Item>, meta: map<Item, Category>, cap: nat, k: nat, topN: nat)
    requires k <= |s| && |Kept(s, meta, cap, k)| == topN
    ensures Diverse(s, meta, cap, topN) == Kept(s, meta, cap, k)
  {
    DiverseIs(s, meta, cap, topN);
    KeptPrefix(s, meta, cap, k, |s|);
    KeptAndDeferred(s, meta, cap, |s|);
    hide Kept, Deferred, Diverse;
  }

  /** Duplicate-free, with exactly min(topN, distinct eligible) items, all eligible. */
  lemma DiverseSize(s: seq<Item>, meta: map<Item, Category>, cap: nat, topN: nat)
    requires Distinct(s)
    ensures |Diverse(s, meta, cap, topN)| == Smaller(topN, |s|)
    ensures Distinct(Diverse(s, meta, cap, topN))
    ensures forall x :: x in Diverse(s, meta, cap, topN) ==> x in s
  {
    KeptAndDeferred(s, meta, cap, |s|);
    assert s[..|s|] == s;
    hide Kept, Deferred;
  }

  // ---- which items, and in which order ------------------------------------------------------

  /** The places before `n` that hold an item of category `c`. */
  ghost function PlacesOf(s: seq<Item>, meta: map<Item, Category>, c: Category, n: nat): set<nat>
    requires n <= |s|
  {
    set j: nat | j < n && CategoryOf(meta, s[j]) == c
  }

  lemma {:induction false} SizeCounts(s: seq<Item>, meta: map<Item, Category>, c: Category, n: nat)
    requires n <= |s|
    ensures Size(s, meta, c, n) == |PlacesOf(s, meta, c, n)|
  {
    if n > 0 {
      SizeCounts(s, meta, c, n - 1);
      var before := PlacesOf(s, meta, c, n - 1);
      hide CategoryOf;
      if CategoryOf(meta, s[n - 1]) == c {
        assert PlacesOf(s, meta, c, n) == before + {n - 1};
      } else {
        assert PlacesOf(s, meta, c, n) == before;
      }
    }
  }

  /** The i-th item has a category, and at least `cap` of it came before. */
  ghost predicate OverCap(s: seq<Item>, meta: map<Item, Category>, cap: nat, i: nat)
    requires i < |s|
  {
    && s[i] in meta && meta[s[i]].Category?
    && |set j: nat | j < i && s[j] in meta && meta[s[j]] == meta[s[i]]| >= cap
  }

  lemma OverCapIs(s: seq<Item>, meta: map<Item, Category>, cap: nat, i: nat)
    requires i < |s|
    ensures OverCap(s, meta, cap, i) <==> !WithinCap(s, meta, cap, i)
  {
    SizeCounts(s, meta, CategoryOf(meta, s[i]), i);
    if s[i] in meta && meta[s[i]].Category? {
      assert PlacesOf(s, meta, meta[s[i]], i) ==
        set j: nat | j < i && s[j] in meta && meta[s[j]] == meta[s[i]];
    }
    hide Size;
  }

  /** Where the i-th item stands once all are placed. */
  ghost function Place(s: seq<Item>, meta: map<Item, Category>, cap: nat, i: nat): nat
    requires i < |s|
  {
    if WithinCap(s, meta, cap, i) then |Kept(s, meta, cap, i)|
    else |Kept(s, meta, cap, |s|)| + |Deferred(s, meta, cap, i)|
  }

  lemma {:induction false} DeferredPrefix(s: seq<Item>, meta: map<Item, Category>, cap: nat, k: nat, n: nat)
    requires k <= n <= |s|
    ensures |Deferred(s, meta, cap, k)| <= |Deferred(s, meta, cap, n)|
    ensures Deferred(s, meta, cap, n)[..|Deferred(s, meta, cap, k)|] == Deferred(s, meta, cap, k)
  {
    if k < n { DeferredPrefix(s, meta, cap, k, n - 1); }
  }

  lemma {:induction false} Placed(s: seq<Item>, meta: map<Item, Category>, cap: nat, i: nat)
    requires i < |s|
    ensures var all := Kept(s, meta, cap, |s|) + Deferred(s, meta, cap, |s|);
      Place(s, meta, cap, i) < |all| && all[Place(s, meta, cap, i)] == s[i]
  {
    KeptStep(s, meta, cap, i + 1);
    KeptPrefix(s, meta, cap, i + 1, |s|);
    DeferredPrefix(s, meta, cap, i + 1, |s|);
    hide Kept, Deferred, WithinCap;
    var kept, rest := Kept(s, meta, cap, |s|), Deferred(s, meta, cap, |s|);
    if WithinCap(s, meta, cap, i) {
      assert kept[..|Kept(s, meta, cap, i + 1)|][|Kept(s, meta, cap, i)|] == s[i];
    } else {
      assert rest[..|Deferred(s, meta, cap, i + 1)|][|Deferred(s, meta, cap, i)|] == s[i];
    }
  }

  lemma {:induction false} PlacesInOrder(s: seq<Item>, meta: map<Item, Category>, cap: nat, i: nat, j: nat)
    requires i < |s| && j < |s|
    requires (WithinCap(s, meta, cap, i) && !WithinCap(s, meta, cap, j)) ||
             ((WithinCap(s, meta, cap, i) <==> WithinCap(s, meta, cap, j)) && i < j)
    ensures Place(s, meta, cap, i) < Place(s, meta, cap, j)
  {
    KeptStep(s, meta, cap, i + 1);
    KeptPrefix(s, meta, cap, i + 1, |s|);
    if i < j {
      KeptPrefix(s, meta, cap, i + 1, j);
      DeferredPrefix(s, meta, cap, i + 1, j);
    }
    hide Kept, Deferred, WithinCap;
  }

  /** The items below the cap come first, then those over it, each in their old order,
      and nothing is left out before something later in that order is taken: if `j` is in
      the result, so is every `i` before it, and further to the front. */
  lemma {:induction false} DiverseMeans(s: seq<Item>, meta: map<Item, Category>, cap: nat, topN: nat, i: nat, j: nat,
                                        q: nat) returns (p: nat)
    requires Distinct(s) && i < |s| && j < |s|
    requires q < |Diverse(s, meta, cap, topN)| && Diverse(s, meta, cap, topN)[q] == s[j]
    requires (!OverCap(s, meta, cap, i) && OverCap(s, meta, cap, j)) ||
             ((OverCap(s, meta, cap, i) <==> OverCap(s, meta, cap, j)) && i < j)
    ensures p < q && Diverse(s, meta, cap, topN)[p] == s[i]
  {
    OverCapIs(s, meta, cap, i);
    OverCapIs(s, meta, cap, j);
    PlacesInOrder(s, meta, cap, i, j);
    Placed(s, meta, cap, i);
    Placed(s, meta, cap, j);
    DiverseIs(s, meta, cap, topN);
    KeptAndDeferred(s, meta, cap, |s|);
    hide Kept, Deferred, WithinCap, OverCap, Place, Diverse;
    p := Place(s, meta, cap, i);
  }

  // ---- how many the capped pass keeps -------------------------------------------------------

  /** The sum of min(cap, size) over the listed categories. */
  function CappedSum(cats: seq<Category>, s: seq<Item>, meta: map<Item, Category>, cap: nat, n: nat): nat
    requires n <= |s|
  {
    if cats == [] then 0
    else Smaller(Size(s, meta, cats[0], n), cap) + CappedSum(cats[1..], s, meta, cap, n)
  }

  lemma {:induction false} CappedSumStep(cats: seq<Category>, s: seq<Item>, meta: map<Item, Category>, cap: nat, n: nat)
    requires Distinct(cats) && n < |s|
    ensures CappedSum(cats, s, meta, cap, n + 1) == CappedSum(cats, s, meta, cap, n) +
      if CategoryOf(meta, s[n]) in cats && Size(s, meta, CategoryOf(meta, s[n]), n) < cap then 1 else 0
  {
    if cats != [] {
      assert cats == [cats[0]] + cats[1..];
      CappedSumStep(cats[1..], s, meta, cap, n);
    }
  }

  /** The capped pass keeps the uncategorised items and min(cap, size) of each category. */
  lemma {:induction false} KeptCount(cats: seq<Category>, s: seq<Item>, meta: map<Item, Category>, cap: nat, n: nat)
    requires Distinct(cats) && Uncategorised !in cats && n <= |s|
    requires forall x :: x in s && CategoryOf(meta, x) != Uncategorised ==> CategoryOf(meta, x) in cats
    ensures |Kept(s, meta, cap, n)| == Size(s, meta, Uncategorised, n) + CappedSum(cats, s, meta, cap, n)
  {
    if n > 0 {
      KeptCount(cats, s, meta, cap, n - 1);
      CappedSumStep(cats, s, meta, cap, n - 1);
      assert s[n - 1] in s;
    } else {
      CappedSumNone(cats, s, meta, cap);
    }
  }

  lemma {:induction false} CappedSumNone(cats: seq<Category>, s: seq<Item>, meta: map<Item, Category>, cap: nat)
    ensures CappedSum(cats, s, meta, cap, 0) == 0
  {
    if cats != [] { CappedSumNone(cats[1..], s, meta, cap); }
  }

  // ---- when the cap is exceeded ---------------------------------------------------------------

  lemma {:induction false} SizeAppend(a: seq<Item>, b: seq<Item>, meta: map<Item, Category>, c: Category, n: nat)
    requires n <= |b|
    ensures Size(a + b, meta, c, |a| + n) == Size(a, meta, c, |a|) + Size(b, meta, c, n)
  {
    if n == 0 { SizePrefix(a, b, meta, c, |a|); } else { SizeAppend(a, b, meta, c, n - 1); }
  }

  lemma {:induction false} SizePrefix(a: seq<Item>, b: seq<Item>, meta: map<Item, Category>, c: Category, n: nat)
    requires n <= |a|
    ensures Size(a + b, meta, c, n) == Size(a, meta, c, n)
  {
    if n > 0 { SizePrefix(a, b, meta, c, n - 1); }
  }

  lemma {:induction false} KeptOfCategory(s: seq<Item>, meta: map<Item, Category>, cap: nat, c: Category, n: nat)
    requires n <= |s| && c != Uncategorised
    ensures Size(Kept(s, meta, cap, n), meta, c, |Kept(s, meta, cap, n)|) == Smaller(Size(s, meta, c, n), cap)
  {
    hide *;
    if n == 0 {
      NothingKept(s, meta, cap);
      SizeStep([], meta, c, 0);
      SizeStep(s, meta, c, 0);
      SmallerOfZero(cap);
    } else {
      KeptOfCategory(s, meta, cap, c, n - 1);
      KeptStep(s, meta, cap, n);
      SizeStep(s, meta, c, n);
      AddedSize(Kept(s, meta, cap, n - 1), s[n - 1], meta, c);
      CapRule(s, meta, cap, n - 1, c);
    }
  }

  lemma SmallerOfZero(cap: nat)
    ensures Smaller(0, cap) == 0
  {
  }

  lemma SizeStep(s: seq<Item>, meta: map<Item, Category>, c: Category, n: nat)
    requires n <= |s|
    ensures Size(s, meta, c, n) == if n == 0 then 0
      else Size(s, meta, c, n - 1) + if CategoryOf(meta, s[n - 1]) == c then 1 else 0
  {
  }

  lemma AddedSize(a: seq<Item>, x: Item, meta: map<Item, Category>, c: Category)
    ensures Size(a + [x], meta, c, |a| + 1) == Size(a, meta, c, |a|) + if CategoryOf(meta, x) == c then 1 else 0
  {
    SizePrefix(a, [x], meta, c, |a|);
  }

  /** For an item of category `c`, the cap counts those of `c` before it. */
  lemma CapRule(s: seq<Item>, meta: map<Item, Category>, cap: nat, k: nat, c: Category)
    requires k < |s| && c != Uncategorised
    ensures CategoryOf(meta, s[k]) == c ==> (WithinCap(s, meta, cap, k) <==> Size(s, meta, c, k) < cap)
    ensures CategoryOf(meta, s[k]) == Uncategorised ==> WithinCap(s, meta, cap, k)
    ensures Smaller(Size(s, meta, c, k), cap) == if Size(s, meta, c, k) < cap then Size(s, meta, c, k) else cap
    ensures Smaller(Size(s, meta, c, k) + 1, cap) == if Size(s, meta, c, k) < cap then Size(s, meta, c, k) + 1 else cap
  {
    hide Size, CategoryOf;
  }

  lemma {:induction false} FirstDeferred(s: seq<Item>, meta: map<Item, Category>, cap: nat, n: nat)
    requires n <= |s| && |Deferred(s, meta, cap, n)| > 0
    ensures var c := CategoryOf(meta, Deferred(s, meta, cap, n)[0]);
      c != Uncategorised && Size(s, meta, c, n) > cap
  {
    if |Deferred(s, meta, cap, n - 1)| > 0 { FirstDeferred(s, meta, cap, n - 1); }
  }

  ghost predicate Exceeds(r: seq<Item>, meta: map<Item, Category>, cap: nat) {
    exists c :: c != Uncategorised && Size(r, meta, c, |r|) > cap
  }

  /** Some category exceeds the cap exactly when the capped pass came up short. */
  lemma {:induction false} ExceedsExactlyWhenShort(s: seq<Item>, meta: map<Item, Category>, cap: nat, topN: nat)
    ensures Exceeds(Diverse(s, meta, cap, topN), meta, cap) <==> |Kept(s, meta, cap, |s|)| < Smaller(topN, |s|)
  {
    KeptAndDeferred(s, meta, cap, |s|);
    var kept, rest, m := Kept(s, meta, cap, |s|), Deferred(s, meta, cap, |s|), Smaller(topN, |s|);
    hide Kept, Deferred, Size, Exceeds;
    if |kept| < m {
      assert Diverse(s, meta, cap, topN) == kept + rest[..m - |kept|];
      ShortExceeds(s, meta, cap, m - |kept|);
    } else {
      assert Diverse(s, meta, cap, topN) == kept[..m];
      PrefixWithin(s, meta, cap, m);
    }
  }

  lemma {:induction false} ShortExceeds(s: seq<Item>, meta: map<Item, Category>, cap: nat, more: nat)
    requires 0 < more <= |Deferred(s, meta, cap, |s|)|
    ensures Exceeds(Kept(s, meta, cap, |s|) + Deferred(s, meta, cap, |s|)[..more], meta, cap)
  {
    var kept, added := Kept(s, meta, cap, |s|), Deferred(s, meta, cap, |s|)[..more];
    FirstDeferred(s, meta, cap, |s|);
    hide Kept, Deferred, CategoryOf;
    var c := CategoryOf(meta, added[0]);
    KeptOfCategory(s, meta, cap, c, |s|);
    SizeAppend(kept, added, meta, c, |added|);
    SizeFirst(added, meta, c, |added|);
    hide Size;
    assert |kept + added| == |kept| + |added|;
    assert Size(kept + added, meta, c, |kept + added|) > cap;
  }

  lemma {:induction false} PrefixWithin(s: seq<Item>, meta: map<Item, Category>, cap: nat, m: nat)
    requires m <= |Kept(s, meta, cap, |s|)|
    ensures !Exceeds(Kept(s, meta, cap, |s|)[..m], meta, cap)
  {
    var kept := Kept(s, meta, cap, |s|);
    var r, left := kept[..m], kept[m..];
    assert kept == r + left;
    forall c | c != Uncategorised ensures Size(r, meta, c, |r|) <= cap {
      KeptOfCategory(s, meta, cap, c, |s|);
      hide Kept, Size;
      SizeAppend(r, left, meta, c, |left|);
    }
  }

  lemma {:induction false} SizeFirst(s: seq<Item>, meta: map<Item, Category>, c: Category, n: nat)
    requires 0 < n <= |s| && CategoryOf(meta, s[0]) == c
    ensures Size(s, meta, c, n) >= 1
  {
    if n > 1 { SizeFirst(s, meta, c, n - 1); }
  }

  // ---- the whole method -----------------------------------------------------------------------

  function Pick(ids: seq<Item>, order: seq<nat>, n: nat): (r: seq<Item>)
    requires n <= |order| && forall p :: 0 <= p < |order| ==> order[p] < |ids|
    ensures |r| == n
    ensures forall p {:trigger r[p]} :: 0 <= p < n ==> r[p] == ids[order[p]]
  {
    if n == 0 then [] else Pick(ids, order, n - 1) + [ids[order[n - 1]]]
  }

  /** The candidates in their new order, before the cut and the diversity cap. */
  ghost function Reordered(ids: seq<Item>, scores: Upstream, w: real, recency: Item -> real): seq<Item> {
    var order := NewOrder(ids, scores, w, recency);
    OrderSpec(ids, scores, w, recency, order, ScoreList(ids, Starts(ids, scores, |ids|), w, recency, |ids|));
    assert forall p :: 0 <= p < |order| ==> order[p] in order;
    Pick(ids, order, |order|)
  }

  lemma {:induction false} ReorderedSpec(ids: seq<Item>, scores: Upstream, w: real, recency: Item -> real)
    requires Distinct(ids)
    ensures |Reordered(ids, scores, w, recency)| == |ids| && Distinct(Reordered(ids, scores, w, recency))
    ensures forall x :: x in Reordered(ids, scores, w, recency) <==> x in ids
  {
    var order, r := NewOrder(ids, scores, w, recency), Reordered(ids, scores, w, recency);
    OrderSpec(ids, scores, w, recency, order, ScoreList(ids, Starts(ids, scores, |ids|), w, recency, |ids|));
    hide NewOrder, ScoreList, Starts;
    forall p | 0 <= p < |order| ensures order[p] < |ids| { assert order[p] in order; }
    forall x | x in ids ensures x in r {
      var i: nat :| i < |ids| && ids[i] == x;
      assert i in order;
      var p: nat :| p < |order| && order[p] == i;
      assert r[p] == x;
    }
  }

  /** The tie-group loop. */
  method TieGroups(ids: seq<Item>, scores: Upstream) returns (starts: seq<nat>)
    ensures starts == Starts(ids, scores, |ids|)
  {
    starts := [];
    var groupStart := 0;
    for index := 0 to |ids|
      invariant starts == Starts(ids, scores, index)
      invariant index > 0 ==> groupStart == GroupStart(ids, scores, index - 1)
    {
      if index == 0 || !TiedAt(ids, scores, index) { groupStart := index; }
      starts := starts + [groupStart];
    }
  }

  /** `rerank`. */
  method RerankItems(candidates: seq<Item>, meta: map<Item, Category>, rules: RuleSet, topN: nat, scores: Upstream,
                     recency: Item -> real) returns (r: seq<Item>)
    ensures var ids := Eligible(candidates, meta, |candidates|);
      var ordered := Reordered(ids, scores, Weight(rules), recency);
      && |ordered| == |ids|
      && (!rules.diversityEnabled ==> r == ordered[..Smaller(topN, |ids|)])
      && (rules.diversityEnabled && rules.maxPerCategory >= 1 ==>
            r == Diverse(ordered, meta, rules.maxPerCategory, topN))
      && (rules.diversityEnabled && rules.maxPerCategory < 1 ==> r == Diverse(ordered, meta, 1, topN))
  {
    hide *;
    var ids := Eligible(candidates, meta, |candidates|);
    EligibleSpec(candidates, meta, |candidates|);
    var weight := Weight(rules);
    ReorderedSpec(ids, scores, weight, recency);
    var cap: nat := Larger(rules.maxPerCategory, 1);
    LargerIs(rules.maxPerCategory);
    if ids == [] {
      EmptyDiverse(Reordered(ids, scores, weight, recency), meta, cap, topN);
      return [];
    }
    var starts := TieGroups(ids, scores);
    var scored: seq<Score> := [];
    for index := 0 to |ids|
      invariant scored == ScoreList(ids, starts, weight, recency, index)
    {
      scored := scored + [Finite(ScoreOf(weight, |ids|, starts[index], recency(ids[index])))];
    }
    var order := Ranked(scored, UpTo(|ids|));
    ReorderedIs(ids, scores, weight, recency, order);
    var ordered := Pick(ids, order, |order|);
    if !rules.diversityEnabled { return ordered[..Smaller(topN, |ids|)]; }
    r := Diversify(ordered, meta, cap, topN);
  }

  lemma ReorderedIs(ids: seq<Item>, scores: Upstream, w: real, recency: Item -> real, order: seq<nat>)
    requires order == Ranked(ScoreList(ids, Starts(ids, scores, |ids|), w, recency, |ids|), UpTo(|ids|))
    ensures forall p :: 0 <= p < |order| ==> order[p] < |ids|
    ensures Reordered(ids, scores, w, recency) == Pick(ids, order, |order|)
  {
    OrderSpec(ids, scores, w, recency, order, ScoreList(ids, Starts(ids, scores, |ids|), w, recency, |ids|));
    hide Ranked, ScoreList, Starts;
    forall p | 0 <= p < |order| ensures order[p] < |ids| { assert order[p] in order; }
  }

  lemma LargerIs(configured: int)
    ensures Larger(configured, 1) == if configured < 1 then 1 else configured
  {
  }

  lemma EmptyDiverse(s: seq<Item>, meta: map<Item, Category>, cap: nat, topN: nat)
    requires s == []
    ensures Diverse(s, meta, cap, topN) == [] && s[..Smaller(topN, |s|)] == []
  {
  }
}
