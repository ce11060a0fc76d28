/** `mmr_order` of `serving/ranking.py`: Maximal Marginal Relevance over a
    relevance-ordered pool. Cosine similarity is an arbitrary function. */
module Mmr {
  import opened Sorting
  import opened TopK

  datatype Id = Id(text: string)
  datatype Candidate = Candidate(id: Id, final: real)
  datatype Vector<V> = NoVector | Vector(v: V)

  // ---- similarity -------------------------------------------------------------

  function VectorOf<V>(vectors: map<Id, Vector<V>>, c: Candidate): Vector<V> {
    if c.id in vectors then vectors[c.id] else NoVector
  }

  /** Items without a vector have zero similarity to everything. */
  function Sim<V>(pool: seq<Candidate>, vectors: map<Id, Vector<V>>, cosine: (V, V) -> real, i: nat, j: nat): real
    requires i < |pool| && j < |pool|
  {
    var a, b := VectorOf(vectors, pool[i]), VectorOf(vectors, pool[j]);
    if a.Vector? && b.Vector? then cosine(a.v, b.v) else 0.0
  }

  function Max(a: real, b: real): real { if a < b then b else a }

  ghost predicate InPool(pool: seq<Candidate>, picks: seq<nat>) { forall t :: 0 <= t < |picks| ==> picks[t] < |pool| }

  /** From scratch: the largest of 0 and the similarities to the first `n` picks. */
  function MaxSim<V>(pool: seq<Candidate>, vectors: map<Id, Vector<V>>, cosine: (V, V) -> real, picks: seq<nat>,
                     n: nat, i: nat): real
    requires n <= |picks| && i < |pool| && InPool(pool, picks)
  {
    if n == 0 then 0.0
    else Max(MaxSim(pool, vectors, cosine, picks, n - 1, i), Sim(pool, vectors, cosine, i, picks[n - 1]))
  }

  function Blend(diversity: real, relevance: real, similarity: real): real {
    (1.0 - diversity) * relevance - diversity * similarity
  }

  /** The MMR score of candidate `i` once the first `n` picks are made. */
  function MmrScore<V>(pool: seq<Candidate>, vectors: map<Id, Vector<V>>, cosine: (V, V) -> real, diversity: real,
                       picks: seq<nat>, n: nat, i: nat): real
    requires n <= |picks| && i < |pool| && InPool(pool, picks)
  {
    Blend(diversity, pool[i].final, MaxSim(pool, vectors, cosine, picks, n, i))
  }

  /** The n-th pick is new and the earliest maximiser among the candidates left. */
  ghost predicate GreedyPick<V>(pool: seq<Candidate>, vectors: map<Id, Vector<V>>, cosine: (V, V) -> real,
                                diversity: real, picks: seq<nat>, n: nat)
    requires n < |picks| && InPool(pool, picks)
  {
    && picks[n] !in picks[..n]
    && forall i: nat | i < |pool| && i !in picks[..n] ::
         var mine := MmrScore(pool, vectors, cosine, diversity, picks, n, picks[n]);
         var other := MmrScore(pool, vectors, cosine, diversity, picks, n, i);
         mine > other || (mine == other && picks[n] <= i)
  }

  ghost predicate Greedy<V>(pool: seq<Candidate>, vectors: map<Id, Vector<V>>, cosine: (V, V) -> real,
                            diversity: real, picks: seq<nat>)
  {
    InPool(pool, picks) && forall n :: 0 <= n < |picks| ==> GreedyPick(pool, vectors, cosine, diversity, picks, n)
  }

  /** The cosine of candidate `i` and an earlier pick that has a vector too. */
  ghost predicate SimilarTo<V>(pool: seq<Candidate>, vectors: map<Id, Vector<V>>, cosine: (V, V) -> real, i: nat,
                               j: nat, x: real)
    requires i < |pool| && j < |pool|
  {
    && pool[i].id in vectors && vectors[pool[i].id].Vector? && pool[j].id in vectors && vectors[pool[j].id].Vector?
    && x == cosine(vectors[pool[i].id].v, vectors[pool[j].id].v)
  }

  /** `m` is the largest of 0 and the cosines to the first `n` picks. */
  ghost predicate LargestSimilarity<V>(pool: seq<Candidate>, vectors: map<Id, Vector<V>>, cosine: (V, V) -> real,
                                       picks: seq<nat>, n: nat, i: nat, m: real)
    requires n <= |picks| && i < |pool| && InPool(pool, picks)
  {
    && m >= 0.0
    && (forall t, x :: 0 <= t < n && SimilarTo(pool, vectors, cosine, i, picks[t], x) ==> x <= m)
    && (m == 0.0 || exists t :: 0 <= t < n && SimilarTo(pool, vectors, cosine, i, picks[t], m))
  }

  lemma {:induction false} MaxSimMeans<V>(pool: seq<Candidate>, vectors: map<Id, Vector<V>>, cosine: (V, V) -> real,
                                          picks: seq<nat>, n: nat, i: nat)
    requires n <= |picks| && i < |pool| && InPool(pool, picks)
    ensures LargestSimilarity(pool, vectors, cosine, picks, n, i, MaxSim(pool, vectors, cosine, picks, n, i))
  {
    if n > 0 {
      MaxSimMeans(pool, vectors, cosine, picks, n - 1, i);
      var before, x := MaxSim(pool, vectors, cosine, picks, n - 1, i), Sim(pool, vectors, cosine, i, picks[n - 1]);
      assert MaxSim(pool, vectors, cosine, picks, n, i) == if before < x then x else before;
      assert SimilarTo(pool, vectors, cosine, i, picks[n - 1], x) || x == 0.0;
    }
  }

  lemma OneLargest<V>(pool: seq<Candidate>, vectors: map<Id, Vector<V>>, cosine: (V, V) -> real, picks: seq<nat>,
                      n: nat, i: nat, a: real, b: real)
    requires n <= |picks| && i < |pool| && InPool(pool, picks)
    requires LargestSimilarity(pool, vectors, cosine, picks, n, i, a)
    requires LargestSimilarity(pool, vectors, cosine, picks, n, i, b)
    ensures a == b
  {
    hide SimilarTo;
  }

  /** A greedy pick, written out: among the candidates left it has the largest
      (1 - d) * relevance - d * (largest similarity to the picks so far), and comes first
      among those. */
  lemma GreedyMeans<V>(pool: seq<Candidate>, vectors: map<Id, Vector<V>>, cosine: (V, V) -> real, d: real,
                       picks: seq<nat>, n: nat, i: nat, mine: real, other: real)
    requires Greedy(pool, vectors, cosine, d, picks) && n < |picks| && i < |pool| && i !in picks[..n]
    requires picks[n] < |pool| && LargestSimilarity(pool, vectors, cosine, picks, n, picks[n], mine)
    requires LargestSimilarity(pool, vectors, cosine, picks, n, i, other)
    ensures picks[n] !in picks[..n]
    ensures var a, b := (1.0 - d) * pool[picks[n]].final - d * mine, (1.0 - d) * pool[i].final - d * other;
      a > b || (a == b && picks[n] <= i)
  {
    MaxSimMeans(pool, vectors, cosine, picks, n, picks[n]);
    MaxSimMeans(pool, vectors, cosine, picks, n, i);
    OneLargest(pool, vectors, cosine, picks, n, picks[n], mine, MaxSim(pool, vectors, cosine, picks, n, picks[n]));
    OneLargest(pool, vectors, cosine, picks, n, i, other, MaxSim(pool, vectors, cosine, picks, n, i));
    hide MaxSim, LargestSimilarity;
    assert GreedyPick(pool, vectors, cosine, d, picks, n);
  }

  lemma {:induction false} MaxSimPrefix<V>(pool: seq<Candidate>, vectors: map<Id, Vector<V>>, cosine: (V, V) -> real,
                                           a: seq<nat>, b: seq<nat>, n: nat, i: nat)
    requires n <= |a| && n <= |b| && a[..n] == b[..n] && i < |pool| && InPool(pool, a) && InPool(pool, b)
    ensures MaxSim(pool, vectors, cosine, a, n, i) == MaxSim(pool, vectors, cosine, b, n, i)
  {
    if n > 0 {
      assert a[..n - 1] == a[..n][..n - 1] && b[..n - 1] == b[..n][..n - 1];
      assert a[n - 1] == a[..n][n - 1] && b[n - 1] == b[..n][n - 1];
      MaxSimPrefix(pool, vectors, cosine, a, b, n - 1, i);
    }
  }

  lemma GreedyPrefix<V>(pool: seq<Candidate>, vectors: map<Id, Vector<V>>, cosine: (V, V) -> real, diversity: real,
                        a: seq<nat>, b: seq<nat>, n: nat)
    requires n < |a| && n < |b| && a[..n + 1] == b[..n + 1] && InPool(pool, a) && InPool(pool, b)
    requires GreedyPick(pool, vectors, cosine, diversity, a, n)
    ensures GreedyPick(pool, vectors, cosine, diversity, b, n)
  {
    assert a[..n] == a[..n + 1][..n] && b[..n] == b[..n + 1][..n];
    assert a[n] == a[..n + 1][n] && b[n] == b[..n + 1][n];
    forall i: nat | i < |pool|
      ensures MmrScore(pool, vectors, cosine, diversity, a, n, i) == MmrScore(pool, vectors, cosine, diversity, b, n, i)
    {
      MaxSimPrefix(pool, vectors, cosine, a, b, n, i);
    }
  }

  /** Greedy picks of one length are unique: the definition leaves no choice. */
  lemma {:induction false} GreedyUnique<V>(pool: seq<Candidate>, vectors: map<Id, Vector<V>>, cosine: (V, V) -> real,
                                           diversity: real, a: seq<nat>, b: seq<nat>, n: nat)
    requires Greedy(pool, vectors, cosine, diversity, a) && Greedy(pool, vectors, cosine, diversity, b)
    requires n <= |a| && n <= |b|
    ensures a[..n] == b[..n]
  {
    if n > 0 {
      GreedyUnique(pool, vectors, cosine, diversity, a, b, n - 1);
      assert GreedyPick(pool, vectors, cosine, diversity, a, n - 1);
      assert GreedyPick(pool, vectors, cosine, diversity, b, n - 1);
      hide GreedyPick;
      SamePick(pool, vectors, cosine, diversity, a, b, n - 1);
      assert a[..n] == a[..n - 1] + [a[n - 1]] && b[..n] == b[..n - 1] + [b[n - 1]];
    }
  }

  lemma SamePick<V>(pool: seq<Candidate>, vectors: map<Id, Vector<V>>, cosine: (V, V) -> real, diversity: real,
                    a: seq<nat>, b: seq<nat>, n: nat)
    requires n < |a| && n < |b| && a[..n] == b[..n] && InPool(pool, a) && InPool(pool, b)
    requires GreedyPick(pool, vectors, cosine, diversity, a, n) && GreedyPick(pool, vectors, cosine, diversity, b, n)
    ensures a[n] == b[n]
  {
    MaxSimPrefix(pool, vectors, cosine, a, b, n, a[n]);
    MaxSimPrefix(pool, vectors, cosine, a, b, n, b[n]);
    hide MaxSim, Blend;
    var p := MmrScore(pool, vectors, cosine, diversity, a, n, a[n]);
    var q := MmrScore(pool, vectors, cosine, diversity, a, n, b[n]);
    assert p > q || (p == q && a[n] <= b[n]);
    assert q > p || (q == p && b[n] <= a[n]);
  }

  lemma GreedyDistinct<V>(pool: seq<Candidate>, vectors: map<Id, Vector<V>>, cosine: (V, V) -> real, diversity: real,
                          picks: seq<nat>)
    requires Greedy(pool, vectors, cosine, diversity, picks)
    ensures Distinct(picks)
  {
    forall i, j | 0 <= i < j < |picks| ensures picks[i] != picks[j] {
      assert GreedyPick(pool, vectors, cosine, diversity, picks, j);
      assert picks[i] == picks[..j][i];
    }
  }

  // ---- the incremental computation ---------------------------------------------

  predicate Exceeds(a: Score, b: Score) {
    a.Finite? && (b.NegInf? || (b.Finite? && a.value > b.value))
  }

  /** `argmax`: the first of the largest entries. */
  function ArgMax(scores: seq<Score>, n: nat): (k: nat)
    requires 0 < n <= |scores| && forall i :: 0 <= i < |scores| ==> scores[i].Finite? || scores[i].NegInf?
    ensures k < n
    ensures forall i :: 0 <= i < k ==> Exceeds(scores[k], scores[i])
    ensures forall i :: k < i < n ==> !Exceeds(scores[i], scores[k])
  {
    if n == 1 then 0
    else
      var k := ArgMax(scores, n - 1);
      if Exceeds(scores[n - 1], scores[k]) then n - 1 else k
  }

  /** The incrementally kept similarities agree with those computed from scratch. */
  ghost predicate Kept<V>(pool: seq<Candidate>, vectors: map<Id, Vector<V>>, cosine: (V, V) -> real, picks: seq<nat>,
                          maxSim: seq<real>, available: seq<bool>)
  {
    && |maxSim| == |available| == |pool| && InPool(pool, picks)
    && (forall i :: 0 <= i < |pool| ==> maxSim[i] == MaxSim(pool, vectors, cosine, picks, |picks|, i))
    && (forall i: nat :: i < |pool| ==> available[i] == (i !in picks))
  }

  /** `score = (1 - d) * relevance - d * max_sim; score[~available] = -inf`. */
  function Masked(pool: seq<Candidate>, diversity: real, maxSim: seq<real>, available: seq<bool>, n: nat)
    : (r: seq<Score>)
    requires n <= |pool| == |maxSim| == |available|
    ensures |r| == n
    ensures forall i {:trigger r[i]} :: 0 <= i < n ==>
      r[i] == if available[i] then Finite(Blend(diversity, pool[i].final, maxSim[i])) else NegInf
  {
    if n == 0 then []
    else Masked(pool, diversity, maxSim, available, n - 1)
           + [if available[n - 1] then Finite(Blend(diversity, pool[n - 1].final, maxSim[n - 1])) else NegInf]
  }

  /** `maximum(max_sim, unit @ unit[best])`. */
  function Raised<V>(pool: seq<Candidate>, vectors: map<Id, Vector<V>>, cosine: (V, V) -> real, maxSim: seq<real>,
                     best: nat, n: nat): (r: seq<real>)
    requires n <= |pool| == |maxSim| && best < |pool|
    ensures |r| == n
    ensures forall i {:trigger r[i]} :: 0 <= i < n ==> r[i] == Max(maxSim[i], Sim(pool, vectors, cosine, i, best))
  {
    if n == 0 then []
    else Raised(pool, vectors, cosine, maxSim, best, n - 1)
           + [Max(maxSim[n - 1], Sim(pool, vectors, cosine, n - 1, best))]
  }

  lemma {:induction false} KeptStep<V>(pool: seq<Candidate>, vectors: map<Id, Vector<V>>, cosine: (V, V) -> real,
                                       picks: seq<nat>, maxSim: seq<real>, available: seq<bool>, best: nat)
    requires Kept(pool, vectors, cosine, picks, maxSim, available) && best < |pool|
    ensures Kept(pool, vectors, cosine, picks + [best], Raised(pool, vectors, cosine, maxSim, best, |pool|),
                 available[best := false])
  {
    hide Sim;
    forall i: nat | i < |pool|
      ensures MaxSim(pool, vectors, cosine, picks + [best], |picks|, i)
        == MaxSim(pool, vectors, cosine, picks, |picks|, i)
    {
      assert (picks + [best])[..|picks|] == picks[..|picks|];
      MaxSimPrefix(pool, vectors, cosine, picks + [best], picks, |picks|, i);
    }
  }

  lemma SomeLeft(pool: seq<Candidate>, picks: seq<nat>)
    requires InPool(pool, picks) && |picks| < |pool|
    ensures exists i: nat :: i < |pool| && i !in picks
  {
    if forall i: nat :: i < |pool| ==> i in picks {
      UpToSpec(|pool|);
      assert Distinct(UpTo(|pool|));
      NotMore(UpTo(|pool|), picks);
    }
  }

  /** The argmax of the masked scores is the greedy pick. */
  lemma {:induction false} BestIsGreedy<V>(pool: seq<Candidate>, vectors: map<Id, Vector<V>>, cosine: (V, V) -> real,
                                           diversity: real, picks: seq<nat>, maxSim: seq<real>, available: seq<bool>,
                                           best: nat, scores: seq<Score>)
    requires Kept(pool, vectors, cosine, picks, maxSim, available) && |picks| < |pool|
    requires scores == Masked(pool, diversity, maxSim, available, |pool|) && best == ArgMax(scores, |pool|)
    ensures InPool(pool, picks + [best])
    ensures GreedyPick(pool, vectors, cosine, diversity, picks + [best], |picks|)
  {
    var next := picks + [best];
    SomeLeft(pool, picks);
    var left: nat :| left < |pool| && left !in picks;
    assert scores[left].Finite?;
    assert best == left || best < left || Exceeds(scores[best], scores[left]);
    assert scores[best].Finite?;
    assert next[..|picks|] == picks;
    hide MaxSim, ArgMax, Sim, Blend;
    forall i: nat | i < |pool|
      ensures MmrScore(pool, vectors, cosine, diversity, next, |picks|, i) ==
        Blend(diversity, pool[i].final, maxSim[i])
    {
      assert next[..|picks|] == picks[..|picks|];
      MaxSimPrefix(pool, vectors, cosine, next, picks, |picks|, i);
    }
    forall i: nat | i < |pool| && i !in picks
      ensures Exceeds(scores[best], scores[i]) || (scores[best] == scores[i] && best <= i)
    {
      assert scores[i].Finite?;
    }
  }

  lemma GreedyExtends<V>(pool: seq<Candidate>, vectors: map<Id, Vector<V>>, cosine: (V, V) -> real, diversity: real,
                         picks: seq<nat>, best: nat)
    requires Greedy(pool, vectors, cosine, diversity, picks) && InPool(pool, picks + [best])
    requires GreedyPick(pool, vectors, cosine, diversity, picks + [best], |picks|)
    ensures Greedy(pool, vectors, cosine, diversity, picks + [best])
  {
    var next := picks + [best];
    hide GreedyPick;
    forall n | 0 <= n < |picks| ensures GreedyPick(pool, vectors, cosine, diversity, next, n) {
      assert next[..n + 1] == picks[..n + 1];
      GreedyPrefix(pool, vectors, cosine, diversity, picks, next, n);
    }
  }

  // ---- the method --------------------------------------------------------------

  function PickAll(pool: seq<Candidate>, picks: seq<nat>, n: nat): (r: seq<Candidate>)
    requires n <= |picks| && forall t :: 0 <= t < |picks| ==> picks[t] < |pool|
    ensures |r| == n
    ensures forall t {:trigger r[t]} :: 0 <= t < n ==> r[t] == pool[picks[t]]
  {
    if n == 0 then [] else PickAll(pool, picks, n - 1) + [pool[picks[n - 1]]]
  }

  predicate NoVectors<V>(vectors: map<Id, Vector<V>>) { forall id :: id in vectors ==> vectors[id].NoVector? }

  predicate Shortcut<V>(pool: seq<Candidate>, vectors: map<Id, Vector<V>>, diversity: real) {
    diversity <= 0.0 || |pool| <= 1 || NoVectors(vectors)
  }

  /** The loop: maintain `max_sim`, pick the argmax, repeat. */
  method GreedyLoop<V>(pool: seq<Candidate>, vectors: map<Id, Vector<V>>, cosine: (V, V) -> real, diversity: real,
                       count: nat) returns (picks: seq<nat>)
    requires count <= |pool|
    ensures |picks| == count && Greedy(pool, vectors, cosine, diversity, picks)
  {
    hide GreedyPick, MaxSim, ArgMax;
    picks := [];
    var maxSim: seq<real>, available: seq<bool> := seq(|pool|, _ => 0.0), seq(|pool|, _ => true);
    NothingPicked(pool, vectors, cosine, maxSim, available);
    for n := 0 to count
      invariant |picks| == n && Greedy(pool, vectors, cosine, diversity, picks)
      invariant Kept(pool, vectors, cosine, picks, maxSim, available)
    {
      hide Greedy, Kept, InPool;
      SizesKept(pool, vectors, cosine, picks, maxSim, available);
      var scores := Masked(pool, diversity, maxSim, available, |pool|);
      var best := ArgMax(scores, |pool|);
      BestIsGreedy(pool, vectors, cosine, diversity, picks, maxSim, available, best, scores);
      GreedyExtends(pool, vectors, cosine, diversity, picks, best);
      KeptStep(pool, vectors, cosine, picks, maxSim, available, best);
      picks := picks + [best];
      available := available[best := false];
      maxSim := Raised(pool, vectors, cosine, maxSim, best, |pool|);
    }
  }

  lemma SizesKept<V>(pool: seq<Candidate>, vectors: map<Id, Vector<V>>, cosine: (V, V) -> real, picks: seq<nat>,
                     maxSim: seq<real>, available: seq<bool>)
    requires Kept(pool, vectors, cosine, picks, maxSim, available)
    ensures |maxSim| == |available| == |pool|
  {
  }

  lemma NothingPicked<V>(pool: seq<Candidate>, vectors: map<Id, Vector<V>>, cosine: (V, V) -> real, maxSim: seq<real>,
                         available: seq<bool>)
    requires |maxSim| == |available| == |pool|
    requires forall i :: 0 <= i < |pool| ==> maxSim[i] == 0.0 && available[i]
    ensures Kept(pool, vectors, cosine, [], maxSim, available)
  {
  }

  /** `mmr_order`: the relevance prefix when there is nothing to diversify, otherwise
      the greedy picks; min(limit, n) items either way. */
  method MmrOrder<V>(pool: seq<Candidate>, vectors: map<Id, Vector<V>>, cosine: (V, V) -> real, diversity: real,
                     limit: nat) returns (r: seq<Candidate>, ghost picks: seq<nat>)
    ensures |picks| == Smaller(limit, |pool|) && InPool(pool, picks) && Distinct(picks)
    ensures r == PickAll(pool, picks, |picks|)
    ensures diversity <= 0.0 || |pool| <= 1 || (forall id :: id in vectors ==> vectors[id].NoVector?) ==>
      r == pool[..Smaller(limit, |pool|)]
    ensures 0.0 < diversity <= 1.0 && |pool| > 1 && (exists id :: id in vectors && vectors[id].Vector?) ==>
      Greedy(pool, vectors, cosine, diversity, picks)
    ensures diversity > 1.0 && |pool| > 1 && (exists id :: id in vectors && vectors[id].Vector?) ==>
      Greedy(pool, vectors, cosine, 1.0, picks)
  {
    var count := Smaller(limit, |pool|);
    UpToSpec(count);
    if Shortcut(pool, vectors, diversity) {
      picks := UpTo(count);
      PrefixPicks(pool, count);
      return pool[..count], picks;
    }
    var clamped := if diversity > 1.0 then 1.0 else diversity;
    var chosen := GreedyLoop(pool, vectors, cosine, clamped, count);
    GreedyDistinct(pool, vectors, cosine, clamped, chosen);
    r, picks := PickAll(pool, chosen, |chosen|), chosen;
  }

  lemma PrefixPicks(pool: seq<Candidate>, count: nat)
    requires count <= |pool|
    ensures InPool(pool, UpTo(count)) && Distinct(UpTo(count)) && |UpTo(count)| == count
    ensures PickAll(pool, UpTo(count), count) == pool[..count]
  {
    UpToEntries(count);
    UpToSpec(count);
  }

  lemma {:induction false} UpToEntries(n: nat)
    ensures |UpTo(n)| == n && forall i :: 0 <= i < n ==> UpTo(n)[i] == i
  {
    if n > 0 { UpToEntries(n - 1); }
  }

  // ---- the shortcut is the greedy answer --------------------------------------------

  ghost predicate RelevanceOrdered(pool: seq<Candidate>) {
    forall i, j :: 0 <= i < j < |pool| ==> pool[i].final >= pool[j].final
  }

  lemma {:induction false} NoVectorsNoSim<V>(pool: seq<Candidate>, vectors: map<Id, Vector<V>>,
                                             cosine: (V, V) -> real, picks: seq<nat>, n: nat, i: nat)
    requires n <= |picks| && i < |pool| && InPool(pool, picks) && NoVectors(vectors)
    ensures MaxSim(pool, vectors, cosine, picks, n, i) == 0.0
  {
    if n > 0 { NoVectorsNoSim(pool, vectors, cosine, picks, n - 1, i); }
  }

  /** On a relevance-ordered pool the relevance prefix is what the greedy rule picks
      at diversity 0, and at any diversity when no item has a vector. */
  lemma {:induction false} ShortcutIsGreedy<V>(pool: seq<Candidate>, vectors: map<Id, Vector<V>>,
                                               cosine: (V, V) -> real, diversity: real, count: nat)
    requires RelevanceOrdered(pool) && count <= |pool|
    requires diversity == 0.0 || (NoVectors(vectors) && 0.0 <= diversity <= 1.0)
    ensures Greedy(pool, vectors, cosine, diversity, UpTo(count))
  {
    var picks := UpTo(count);
    PrefixPicks(pool, count);
    UpToEntries(count);
    hide UpTo, MaxSim, Sim, MmrScore, RelevanceOrdered, NoVectors;
    forall n | 0 <= n < count ensures GreedyPick(pool, vectors, cosine, diversity, picks, n) {
      forall x: nat | x < n ensures x in picks[..n] { assert picks[..n][x] == x; }
      forall i: nat | i < |pool| && i !in picks[..n]
        ensures MmrScore(pool, vectors, cosine, diversity, picks, n, n)
          >= MmrScore(pool, vectors, cosine, diversity, picks, n, i)
        ensures i >= n
      {
        EarlierIsBetter(pool, vectors, cosine, diversity, picks, n, i);
      }
    }
  }

  lemma EarlierIsBetter<V>(pool: seq<Candidate>, vectors: map<Id, Vector<V>>, cosine: (V, V) -> real, diversity: real,
                           picks: seq<nat>, n: nat, i: nat)
    requires RelevanceOrdered(pool) && InPool(pool, picks) && n < |picks| && n <= i < |pool|
    requires diversity == 0.0 || (NoVectors(vectors) && 0.0 <= diversity <= 1.0)
    ensures MmrScore(pool, vectors, cosine, diversity, picks, n, n)
      >= MmrScore(pool, vectors, cosine, diversity, picks, n, i)
  {
    if diversity != 0.0 {
      NoVectorsNoSim(pool, vectors, cosine, picks, n, n);
      NoVectorsNoSim(pool, vectors, cosine, picks, n, i);
    }
    hide MaxSim, Sim, NoVectors, InPool;
    Dominates(1.0 - diversity, pool[n].final, pool[i].final);
  }

  lemma Dominates(w: real, a: real, b: real)
    requires w >= 0.0 && a >= b
    ensures w * a >= w * b
  {
  }
}
