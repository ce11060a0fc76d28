/** The two top-k selections: `fast_top_k` of `serving/pipeline.py`, built on a
    partition, and `top_k` of `dgsr/serving.py`, a full sort. */
module TopK {
  import opened Sorting

  /** A floating-point score; only its class matters when it is not finite. */
  datatype Score = Finite(value: real) | PosInf | NegInf | NaN

  function ScoreAt(scores: seq<Score>, i: nat): Score { if i < |scores| then scores[i] else NaN }

  /** Where `lexsort` puts a negated score: NaN goes last. */
  function Class(s: Score): nat {
    match s
    case PosInf => 0
    case Finite(_) => 1
    case NegInf => 2
    case NaN => 3
  }

  /** `lexsort((index, -scores))`: score descending, then index ascending. */
  predicate Precedes(a: Score, i: nat, b: Score, j: nat) {
    || Class(a) < Class(b)
    || (a.Finite? && b.Finite? && a.value > b.value)
    || (Class(a) == Class(b) && (a.Finite? && b.Finite? ==> a.value == b.value) && i < j)
  }

  predicate Ahead(scores: seq<Score>, i: nat, j: nat) {
    Precedes(ScoreAt(scores, i), i, ScoreAt(scores, j), j)
  }

  function ByScore(scores: seq<Score>): (nat, nat) -> bool {
    (i: nat, j: nat) => Ahead(scores, i, j)
  }

  /** The sort both selections use. */
  function Ranked(scores: seq<Score>, s: seq<nat>): seq<nat> { Sort<nat>(ByScore(scores), s) }

  ghost predicate InOrder(scores: seq<Score>, s: seq<nat>) {
    forall p, q :: 0 <= p < q < |s| ==> Ahead(scores, s[p], s[q])
  }

  ghost predicate SameEntries(a: seq<nat>, b: seq<nat>) {
    forall i :: i in a <==> i in b
  }

  lemma {:induction false} RankedSpec(scores: seq<Score>, s: seq<nat>)
    requires Ascending(s)
    ensures |Ranked(scores, s)| == |s| && SameEntries(Ranked(scores, s), s) && InOrder(scores, Ranked(scores, s))
  {
    var less: (nat, nat) -> bool := ByScore(scores);
    SortSorted<nat>(less, s);
    var r := Sort<nat>(less, s);
    SameMembers<nat>(r, s);
    hide Sort, Precedes;
    forall p, q | 0 <= p < q < |r| ensures Ahead(scores, r[p], r[q]) { assert less(r[p], r[q]); }
  }

  lemma {:induction false} RankedUnique(scores: seq<Score>, s: seq<nat>, r: seq<nat>)
    requires Ascending(s) && SameEntries(r, s) && InOrder(scores, r)
    ensures r == Ranked(scores, s)
  {
    var less: (nat, nat) -> bool := ByScore(scores);
    assert Order(less);
    RankedSpec(scores, s);
    hide Ranked, Precedes, Ahead;
    SortedUnique<nat>(less, r, Ranked(scores, s));
  }

  /** `flatnonzero(isfinite(scores))`. */
  function FiniteIndices(scores: seq<Score>, n: nat): (r: seq<nat>)
    requires n <= |scores|
    ensures forall j {:trigger r[j]} :: 0 <= j < |r| ==> r[j] < n
  {
    if n == 0 then [] else FiniteIndices(scores, n - 1) + if scores[n - 1].Finite? then [n - 1] else []
  }

  lemma {:induction false} FiniteSpec(scores: seq<Score>, n: nat)
    requires n <= |scores|
    ensures Ascending(FiniteIndices(scores, n)) && |FiniteIndices(scores, n)| <= n
    ensures forall i: nat :: i in FiniteIndices(scores, n) <==> i < n && scores[i].Finite?
  {
    if n > 0 { FiniteSpec(scores, n - 1); }
  }

  predicate AtLeast(s: Score, threshold: real) { s.Finite? && s.value >= threshold }

  /** `flatnonzero(finite & (scores >= threshold))`. */
  function Pool(scores: seq<Score>, threshold: real, n: nat): (r: seq<nat>)
    requires n <= |scores|
    ensures forall j {:trigger r[j]} :: 0 <= j < |r| ==> r[j] < n
  {
    if n == 0 then [] else Pool(scores, threshold, n - 1) + if AtLeast(scores[n - 1], threshold) then [n - 1] else []
  }

  lemma {:induction false} PoolSpec(scores: seq<Score>, threshold: real, n: nat)
    requires n <= |scores|
    ensures Ascending(Pool(scores, threshold, n)) && |Pool(scores, threshold, n)| <= n
    ensures forall i: nat :: i in Pool(scores, threshold, n) <==> i < n && AtLeast(scores[i], threshold)
  {
    hide AtLeast;
    if n > 0 { PoolSpec(scores, threshold, n - 1); }
  }

  function FiniteCount(scores: seq<Score>): nat { |FiniteIndices(scores, |scores|)| }

  /** The first `k` finite scores by (score descending, index ascending). */
  ghost function Best(scores: seq<Score>, k: int): seq<nat> {
    FiniteSpec(scores, |scores|);
    RankedSpec(scores, FiniteIndices(scores, |scores|));
    if Smaller(k, FiniteCount(scores)) <= 0 then []
    else Ranked(scores, FiniteIndices(scores, |scores|))[..Smaller(k, FiniteCount(scores))]
  }

  // ---- sorting a list whose parts are already apart ----------------------------------

  ghost predicate AllAhead(scores: seq<Score>, a: seq<nat>, b: seq<nat>) {
    forall i, j :: i in a && j in b ==> Ahead(scores, i, j)
  }

  /** If everything in `a` precedes everything in `b`, sorting both together is
      sorting them one after the other. */
  lemma {:induction false} RankedApart(scores: seq<Score>, whole: seq<nat>, a: seq<nat>, b: seq<nat>)
    requires Ascending(whole) && Ascending(a) && Ascending(b) && AllAhead(scores, a, b)
    requires forall i :: i in whole <==> i in a || i in b
    ensures Ranked(scores, whole) == Ranked(scores, a) + Ranked(scores, b)
  {
    hide *;
    RankedSpec(scores, a);
    RankedSpec(scores, b);
    var x, y := Ranked(scores, a), Ranked(scores, b);
    JoinedInOrder(scores, whole, a, b, x, y);
    RankedUnique(scores, whole, x + y);
  }

  lemma JoinedInOrder(scores: seq<Score>, whole: seq<nat>, a: seq<nat>, b: seq<nat>, x: seq<nat>, y: seq<nat>)
    requires SameEntries(x, a) && SameEntries(y, b) && InOrder(scores, x) && InOrder(scores, y)
    requires AllAhead(scores, a, b) && forall i :: i in whole <==> i in a || i in b
    ensures SameEntries(x + y, whole) && InOrder(scores, x + y)
  {
    hide Ahead;
    var r := x + y;
    forall p, q | 0 <= p < q < |r| ensures Ahead(scores, r[p], r[q]) {
      if p < |x| <= q { assert x[p] in x && y[q - |x|] in y; }
    }
  }

  /** The front of a sorted list is the sort of the entries ahead of the others. */
  lemma {:induction false} RankedFront(scores: seq<Score>, whole: seq<nat>, front: seq<nat>)
    requires Ascending(whole) && Ascending(front) && forall i :: i in front ==> i in whole
    requires forall i, j :: i in front && j in whole && j !in front ==> Ahead(scores, i, j)
    ensures |Ranked(scores, front)| == |front| <= |Ranked(scores, whole)|
    ensures Ranked(scores, whole)[..|front|] == Ranked(scores, front)
  {
    var rest := Asc(set j | j in whole && j !in front);
    assert AllAhead(scores, front, rest);
    RankedSpec(scores, front);
    RankedApart(scores, whole, front, rest);
  }

  // ---- fast_top_k ----------------------------------------------------------------------

  /** `where(finite, scores, -inf)`, compared. */
  predicate MaskedAtLeast(a: Score, b: Score) {
    !b.Finite? || (a.Finite? && a.value >= b.value)
  }

  /** What `argpartition(-masked, kth)` promises: a permutation whose entry `kth` has
      nothing smaller after it and nothing larger before it. */
  ghost predicate ArgPartition(scores: seq<Score>, kth: nat, part: seq<nat>) {
    && |part| == |scores| && kth < |part| && Distinct(part)
    && (forall p :: 0 <= p < |part| ==> part[p] < |scores|)
    && (forall i: nat :: i < |scores| ==> i in part)
    && (forall p, q :: 0 <= p <= kth <= q < |part| ==> MaskedAtLeast(scores[part[p]], scores[part[q]]))
  }

  /** A non-finite candidate would leave all finite scores in front of it. */
  lemma FiniteInFront(scores: seq<Score>, kth: nat, part: seq<nat>, c: nat, i: nat)
    requires ArgPartition(scores, kth, part) && c <= kth && !scores[part[c]].Finite?
    requires i < |scores| && scores[i].Finite?
    ensures i in part[..c] + part[c + 1..kth + 1]
  {
    assert i in part;
    var p: nat :| p < |part| && part[p] == i;
    var others := part[..c] + part[c + 1..kth + 1];
    hide Distinct;
    assert MaskedAtLeast(scores[part[c]], scores[i]) || p < kth;
    assert p != c && p < kth;
    assert others[if p < c then p else p - 1] == i;
  }

  /** No candidate is non-finite: there are enough finite scores to fill the front. */
  lemma CandidatesFinite(scores: seq<Score>, k: nat, part: seq<nat>, c: nat)
    requires 0 < k <= FiniteCount(scores) && ArgPartition(scores, k - 1, part) && c < k
    ensures part[c] < |scores| && scores[part[c]].Finite?
  {
    var finite := FiniteIndices(scores, |scores|);
    FiniteSpec(scores, |scores|);
    hide FiniteIndices;
    if !scores[part[c]].Finite? {
      var others := part[..c] + part[c + 1..k];
      forall i | i in finite ensures i in others { FiniteInFront(scores, k - 1, part, c, i); }
      NotMore(finite, others);
    }
  }

  /** `scores[candidates].min()`. */
  function LowestOf(scores: seq<Score>, candidates: seq<nat>, n: nat): (m: real)
    requires 0 < n <= |candidates| && AllFinite(scores, candidates)
    ensures forall c :: 0 <= c < n ==> m <= scores[candidates[c]].value
  {
    if n == 1 then scores[candidates[0]].value
    else
      var m := LowestOf(scores, candidates, n - 1);
      if scores[candidates[n - 1]].value < m then scores[candidates[n - 1]].value else m
  }

  predicate AllFinite(scores: seq<Score>, candidates: seq<nat>) {
    forall c :: 0 <= c < |candidates| ==> candidates[c] < |scores| && scores[candidates[c]].Finite?
  }

  /** The finite scores at or above any threshold are the front of all finite ones. */
  lemma {:induction false} PoolIsFront(scores: seq<Score>, threshold: real)
    ensures var pool := Pool(scores, threshold, |scores|);
      && |pool| == |Ranked(scores, pool)| <= |Ranked(scores, FiniteIndices(scores, |scores|))|
      && Ranked(scores, FiniteIndices(scores, |scores|))[..|pool|] == Ranked(scores, pool)
  {
    var finite, pool := FiniteIndices(scores, |scores|), Pool(scores, threshold, |scores|);
    FiniteSpec(scores, |scores|);
    PoolSpec(scores, threshold, |scores|);
    hide Pool, FiniteIndices, Ranked;
    RankedFront(scores, finite, pool);
  }

  /** The threshold leaves at least the `k` candidates in the pool. */
  lemma PoolLargeEnough(scores: seq<Score>, candidates: seq<nat>, k: nat)
    requires 0 < k == |candidates| && Distinct(candidates) && AllFinite(scores, candidates)
    ensures |Pool(scores, LowestOf(scores, candidates, k), |scores|)| >= k
  {
    PoolSpec(scores, LowestOf(scores, candidates, k), |scores|);
    hide Pool, LowestOf;
    NotMore(candidates, Pool(scores, LowestOf(scores, candidates, k), |scores|));
  }

  /** When every score is needed, every score is finite. */
  lemma {:induction false} EveryFinite(scores: seq<Score>)
    requires FiniteCount(scores) == |scores|
    ensures AllFinite(scores, UpTo(|scores|)) && Distinct(UpTo(|scores|)) && |UpTo(|scores|)| == |scores|
  {
    var finite, all := FiniteIndices(scores, |scores|), UpTo(|scores|);
    FiniteSpec(scores, |scores|);
    UpToSpec(|scores|);
    hide FiniteIndices, UpTo;
    forall i: nat | i < |scores| ensures i in finite {
      if i !in finite { NotMore(finite + [i], all); }
    }
    forall c | 0 <= c < |all| ensures all[c] < |scores| { assert all[c] in all; }
  }

  lemma {:induction false} FirstOfPool(scores: seq<Score>, candidates: seq<nat>, k0: int, k: nat)
    requires 0 < k == Smaller(k0, FiniteCount(scores)) && |candidates| == k && Distinct(candidates)
    requires AllFinite(scores, candidates)
    ensures var pool := Pool(scores, LowestOf(scores, candidates, k), |scores|);
      |Ranked(scores, pool)| >= k && Ranked(scores, pool)[..k] == Best(scores, k0)
  {
    var pool := Pool(scores, LowestOf(scores, candidates, k), |scores|);
    PoolLargeEnough(scores, candidates, k);
    PoolIsFront(scores, LowestOf(scores, candidates, k));
    hide Pool, FiniteIndices, Ranked, LowestOf, AllFinite;
    assert Ranked(scores, pool)[..k] == Ranked(scores, FiniteIndices(scores, |scores|))[..k];
  }

  /** `fast_top_k`; `part` is whatever partition the library returns. */
  method FastTopK(scores: seq<Score>, k0: int, part: seq<nat>) returns (r: seq<nat>)
    requires 0 < Smaller(k0, FiniteCount(scores)) < |scores| ==>
      ArgPartition(scores, Smaller(k0, FiniteCount(scores)) - 1, part)
    ensures r == Best(scores, k0)
  {
    var k := Smaller(k0, FiniteCount(scores));
    if k <= 0 { return []; }
    var candidates;
    FiniteSpec(scores, |scores|);
    if k < |scores| {
      forall c | 0 <= c < k ensures part[c] < |scores| && scores[part[c]].Finite? {
        CandidatesFinite(scores, k, part, c);
      }
      candidates := part[..k];
    } else {
      EveryFinite(scores);
      candidates := UpTo(|scores|);
    }
    hide Pool, Best, ArgPartition, FiniteIndices, UpTo, Ranked, LowestOf;
    FirstOfPool(scores, candidates, k0, k);
    var threshold := LowestOf(scores, candidates, k);
    var pool := Pool(scores, threshold, |scores|);
    r := Ranked(scores, pool)[..k];
  }

  // ---- top_k -----------------------------------------------------------------------------

  /** `top_k`: the full sort, cut at the number of finite scores. */
  function FullTopK(scores: seq<Score>, k: int): seq<nat> {
    var count := Smaller(k, FiniteCount(scores));
    FiniteSpec(scores, |scores|);
    UpToSpec(|scores|);
    RankedSpec(scores, UpTo(|scores|));
    if count <= 0 then [] else Ranked(scores, UpTo(|scores|))[..count]
  }

  /** Without a positive infinity the full sort starts with the finite scores. */
  lemma {:induction false} FiniteFirst(scores: seq<Score>)
    requires forall i :: 0 <= i < |scores| ==> scores[i] != PosInf
    ensures FiniteCount(scores) <= |Ranked(scores, UpTo(|scores|))|
    ensures Ranked(scores, UpTo(|scores|))[..FiniteCount(scores)] == Ranked(scores, FiniteIndices(scores, |scores|))
  {
    FiniteSpec(scores, |scores|);
    UpToSpec(|scores|);
    hide UpTo, FiniteIndices, Ranked;
    RankedFront(scores, UpTo(|scores|), FiniteIndices(scores, |scores|));
  }

  /** With one, the full sort starts with an infinite score. */
  lemma {:induction false} InfiniteFirst(scores: seq<Score>, e: nat)
    requires e < |scores| && scores[e] == PosInf
    ensures var order := Ranked(scores, UpTo(|scores|));
      |order| > 0 && order[0] < |scores| && scores[order[0]] == PosInf
  {
    UpToSpec(|scores|);
    RankedSpec(scores, UpTo(|scores|));
    var order := Ranked(scores, UpTo(|scores|));
    hide UpTo, Ranked;
    assert e in order && order[0] in order;
    var p: nat :| p < |order| && order[p] == e;
    assert p == 0 || Ahead(scores, order[0], order[p]);
  }

  /** The two selections agree exactly when no score is +inf, or nothing is asked for. */
  lemma AgreeExactly(scores: seq<Score>, k: int)
    ensures FullTopK(scores, k) == Best(scores, k) <==>
      (forall i :: 0 <= i < |scores| ==> scores[i] != PosInf) || Smaller(k, FiniteCount(scores)) <= 0
  {
    hide FiniteIndices, UpTo, Ranked, Ahead, InOrder;
    if Smaller(k, FiniteCount(scores)) > 0 {
      if e: nat :| e < |scores| && scores[e] == PosInf {
        InfiniteFirst(scores, e);
        FiniteSpec(scores, |scores|);
        RankedSpec(scores, FiniteIndices(scores, |scores|));
        assert Best(scores, k)[0] in Ranked(scores, FiniteIndices(scores, |scores|));
      } else {
        FiniteFirst(scores);
      }
    }
  }

  /** One infinite score is enough: the full sort returns it, the partition skips it. */
  lemma {:induction false} InfinityDiffers()
    ensures FullTopK([PosInf, Finite(1.0)], 1) == [0]
    ensures Best([PosInf, Finite(1.0)], 1) == [1]
  {
    var scores := [PosInf, Finite(1.0)];
    assert FiniteIndices(scores, 1) == [];
    assert FiniteIndices(scores, 2) == [1];
    BestSpec(scores, 1, Best(scores, 1));
    InfiniteFirst(scores, 0);
    hide Ranked, UpTo, InOrder, Ahead, FiniteIndices, Best;
    var best := Best(scores, 1);
    assert best[0] in best;
  }

  /** What `Best` is, without naming a sort: finite, in order, and nothing better left out. */
  lemma {:induction false} BestSpec(scores: seq<Score>, k: int, best: seq<nat>)
    requires best == Best(scores, k)
    ensures |best| == (if k <= 0 then 0 else Smaller(k, FiniteCount(scores)))
    ensures InOrder(scores, best)
    ensures forall i :: i in best ==> i < |scores| && scores[i].Finite?
    ensures forall i: nat, j :: i < |scores| && scores[i].Finite? && i !in best && j in best ==> Ahead(scores, j, i)
  {
    FiniteSpec(scores, |scores|);
    RankedSpec(scores, FiniteIndices(scores, |scores|));
    var ranked := Ranked(scores, FiniteIndices(scores, |scores|));
    hide FiniteIndices, Ranked, Ahead;
    forall i | i in best ensures i in ranked {}
    hide InOrder, Best;
    forall i: nat, j | i < |scores| && scores[i].Finite? && i !in best && j in best ensures Ahead(scores, j, i) {
      assert i in ranked;
      LeftOut(scores, ranked, best, i, j);
    }
  }

  lemma LeftOut(scores: seq<Score>, ranked: seq<nat>, front: seq<nat>, i: nat, j: nat)
    requires InOrder(scores, ranked) && front <= ranked && i in ranked && i !in front && j in front
    ensures Ahead(scores, j, i)
  {
    hide Ahead;
    var p: nat :| p < |ranked| && ranked[p] == i;
    var q: nat :| q < |front| && front[q] == j;
    forall m | 0 <= m < |front| ensures ranked[m] != i { assert front[m] in front; }
  }

  /** The same, score by score: at most `k` indices of finite scores, by descending score
      and then ascending index, with no better finite score left out. */
  lemma {:induction false} BestMeans(scores: seq<Score>, k: int, best: seq<nat>, finite: set<nat>)
    requires best == Best(scores, k) && finite == set i: nat | i < |scores| && scores[i].Finite?
    ensures |best| == if k <= 0 then 0 else if k < |finite| then k else |finite|
    ensures forall i :: i in best ==> i in finite
    ensures forall p, q :: 0 <= p < q < |best| ==> Higher(scores, best[p], best[q])
    ensures forall i, j :: i in finite && i !in best && j in best ==> Higher(scores, j, i)
  {
    BestSpec(scores, k, best);
    FiniteSize(scores, finite);
    hide Best, FiniteIndices;
    forall p, q | 0 <= p < q < |best| ensures Higher(scores, best[p], best[q]) {
      assert best[p] in best && best[q] in best;
      assert Ahead(scores, best[p], best[q]);
    }
    forall i, j | i in finite && i !in best && j in best ensures Higher(scores, j, i) {
      assert Ahead(scores, j, i);
    }
  }

  /** A higher finite score, or the same at a smaller index. */
  ghost predicate Higher(scores: seq<Score>, i: nat, j: nat) {
    && i < |scores| && j < |scores| && scores[i].Finite? && scores[j].Finite?
    && (scores[i].value > scores[j].value || (scores[i].value == scores[j].value && i < j))
  }

  lemma {:induction false} FiniteSize(scores: seq<Score>, finite: set<nat>)
    requires finite == set i: nat | i < |scores| && scores[i].Finite?
    ensures FiniteCount(scores) == |finite|
  {
    FiniteSpec(scores, |scores|);
    var listed := FiniteIndices(scores, |scores|);
    hide FiniteIndices;
    assert SetOf(listed) == finite;
    DistinctSize(listed);
  }

  /** `top_k` asks for as many, but takes them from all scores: infinite ones first, then
      finite ones by descending score, equal ones by ascending index. */
  lemma {:induction false} FullMeans(scores: seq<Score>, k: int, full: seq<nat>, finite: set<nat>)
    requires full == FullTopK(scores, k) && finite == set i: nat | i < |scores| && scores[i].Finite?
    ensures |full| == if k <= 0 then 0 else if k < |finite| then k else |finite|
    ensures forall i :: i in full ==> i < |scores|
    ensures forall i: nat, j :: i < |scores| && i !in full && j in full ==> SortsFirst(scores, j, i)
    ensures forall p, q :: 0 <= p < q < |full| ==> SortsFirst(scores, full[p], full[q])
  {
    FiniteSize(scores, finite);
    UpToSpec(|scores|);
    RankedSpec(scores, UpTo(|scores|));
    var ranked := Ranked(scores, UpTo(|scores|));
    hide FiniteIndices, UpTo, Ranked, FullTopK, Ahead;
    FullIs(scores, k, full, ranked);
    forall i | i in full ensures i < |scores| { assert i in ranked; }
    forall p, q | 0 <= p < q < |full| ensures SortsFirst(scores, full[p], full[q]) {
      assert full[p] in full && full[q] in full;
      AheadSorts(scores, full[p], full[q]);
    }
    forall i: nat, j | i < |scores| && i !in full && j in full ensures SortsFirst(scores, j, i) {
      assert i in ranked;
      LeftOut(scores, ranked, full, i, j);
      AheadSorts(scores, j, i);
    }
  }

  lemma FullIs(scores: seq<Score>, k: int, full: seq<nat>, ranked: seq<nat>)
    requires full == FullTopK(scores, k) && ranked == Ranked(scores, UpTo(|scores|)) && |ranked| == |scores|
    ensures FiniteCount(scores) <= |scores|
    ensures full <= ranked
    ensures |full| == if Smaller(k, FiniteCount(scores)) <= 0 then 0 else Smaller(k, FiniteCount(scores))
  {
    FiniteSpec(scores, |scores|);
    hide FiniteIndices, UpTo, Ranked;
  }

  /** Descending score, plus infinity first and minus infinity and NaN last, then
      ascending index. */
  ghost predicate SortsFirst(scores: seq<Score>, i: nat, j: nat) {
    i < |scores| && j < |scores| &&
    match (scores[i], scores[j])
    case (PosInf, PosInf) => i < j
    case (PosInf, _) => true
    case (Finite(v), Finite(w)) => v > w || (v == w && i < j)
    case (Finite(_), NegInf) => true
    case (NegInf, NegInf) => i < j
    case (NaN, NaN) => i < j
    case (_, NaN) => true
    case _ => false
  }

  lemma AheadSorts(scores: seq<Score>, i: nat, j: nat)
    requires i < |scores| && j < |scores| && Ahead(scores, i, j)
    ensures SortsFirst(scores, i, j)
  {
  }
}
