/** The step schedule of `ChronologicalGRU.forward` in `dgsr/model.py`. The
    recurrence itself is an arbitrary function of the old state and the source. */
module GruSchedule {
  import opened Sorting
  import opened Messaging

  /** One destination's own edges, oldest first. */
  function Own(edges: seq<Edge>, d: nat): seq<Edge> { Inbound(edges, d, |edges|) }

  /** The recurrence run over the first `n` of one destination's edges. */
  function Fold<H>(zero: H, step: (H, nat) -> H, own: seq<Edge>, n: nat): H
    requires n <= |own|
  {
    if n == 0 then zero else step(Fold(zero, step, own, n - 1), own[n - 1].src)
  }

  /** The state of a destination that has consumed at most `n` of its edges. */
  function StateAfter<H>(zero: H, step: (H, nat) -> H, own: seq<Edge>, n: nat): H {
    Fold(zero, step, own, if n < |own| then n else |own|)
  }

  /** A step that appends its source shows what the recurrence reads: every source of
      the destination's edges, once, oldest first. */
  lemma {:induction false} FoldReads(own: seq<Edge>, n: nat)
    requires n <= |own|
    ensures var read := Fold<seq<nat>>([], (h, src) => h + [src], own, n);
      |read| == n && forall k :: 0 <= k < n ==> read[k] == own[k].src
  {
    if n > 0 { FoldReads(own, n - 1); }
  }

  function Ranks(edges: seq<Edge>, n: nat): (r: seq<nat>)
    requires n <= |edges|
    ensures |r| == n
    ensures forall k {:trigger r[k]} :: 0 <= k < n ==> r[k] == edges[k].position
  {
    if n == 0 then [] else Ranks(edges, n - 1) + [edges[n - 1].position]
  }

  function MaxKey(keys: seq<nat>, n: nat): (m: nat)
    requires n <= |keys|
    ensures forall k :: 0 <= k < n ==> keys[k] <= m
  {
    if n == 0 then 0 else var m := MaxKey(keys, n - 1); if keys[n - 1] > m then keys[n - 1] else m
  }

  /** `bincount(keys)`: how often each value up to the largest occurs. */
  function BinCount(keys: seq<nat>, n: nat): (r: seq<nat>)
    ensures |r| == n
    ensures forall p {:trigger r[p]} :: 0 <= p < n ==> r[p] == |Positions(keys, p, |keys|)|
  {
    if n == 0 then [] else BinCount(keys, n - 1) + [|Positions(keys, n - 1, |keys|)|]
  }

  // ---- the slices of the sorted order --------------------------------------

  /** `cursor` separates the keys below `p` from the others. */
  ghost predicate SplitAt(order: seq<Keyed>, cursor: nat, p: nat) {
    && cursor <= |order|
    && (forall q :: 0 <= q < cursor ==> order[q].key < p)
    && (forall q :: cursor <= q < |order| ==> order[q].key >= p)
  }

  function RunEnd(order: seq<Keyed>, cursor: nat, p: nat): (end: nat)
    requires cursor <= |order|
    ensures cursor <= end <= |order|
    ensures forall q :: cursor <= q < end ==> order[q].key == p
    ensures end < |order| ==> order[end].key != p
    decreases |order| - cursor
  {
    if cursor < |order| && order[cursor].key == p then RunEnd(order, cursor + 1, p) else cursor
  }

  lemma {:induction false} RunEndSplits(keys: seq<nat>, order: seq<Keyed>, cursor: nat, p: nat)
    requires IsStableArgsort(keys, order) && SplitAt(order, cursor, p)
    ensures SplitAt(order, RunEnd(order, cursor, p), p + 1)
  {
    var end := RunEnd(order, cursor, p);
    forall q | end <= q < |order| ensures order[q].key >= p + 1 {
      assert end < q ==> KeyedBefore(order[end], order[q]);
    }
  }

  /** The slice taken at step `p` holds exactly the edges of rank `p`, in edge order. */
  lemma {:induction false} SliceIsRank(keys: seq<nat>, order: seq<Keyed>, cursor: nat, p: nat, count: nat)
    requires IsStableArgsort(keys, order) && SplitAt(order, cursor, p)
    requires count == |Positions(keys, p, |keys|)|
    ensures SplitAt(order, cursor + count, p + 1)
    ensures Indices(order, cursor, cursor + count) == Positions(keys, p, |keys|)
  {
    var end := RunEnd(order, cursor, p);
    RunEndSplits(keys, order, cursor, p);
    if cursor < end {
      GroupIsPositions(keys, order, cursor, end);
    } else {
      forall k | 0 <= k < |keys| ensures keys[k] != p {
        assert Keyed(keys[k], k) in order;
        var q :| 0 <= q < |order| && order[q] == Keyed(keys[k], k);
      }
      NoPositions(keys, p, |keys|);
    }
  }

  // ---- one edge per destination in a slice -----------------------------------

  lemma {:induction false} InboundPick(edges: seq<Edge>, d: nat, n: nat, e: nat)
    requires e < n <= |edges| && edges[e].dst == d
    ensures |Inbound(edges, d, e)| < |Inbound(edges, d, n)|
    ensures Inbound(edges, d, n)[|Inbound(edges, d, e)|] == edges[e]
  {
    if e < n - 1 { InboundPick(edges, d, n - 1, e); }
  }

  lemma {:induction false} InboundFind(edges: seq<Edge>, d: nat, n: nat, p: nat) returns (e: nat)
    requires n <= |edges| && p < |Inbound(edges, d, n)|
    ensures e < n && edges[e].dst == d && |Inbound(edges, d, e)| == p
  {
    if p < |Inbound(edges, d, n - 1)| { e := InboundFind(edges, d, n - 1, p); } else { e := n - 1; }
  }

  /** The edge of rank `p` is its destination's p-th own edge. */
  lemma RankedEdge(edges: seq<Edge>, e: nat)
    requires WellRanked(edges) && e < |edges|
    ensures edges[e].position < |Own(edges, edges[e].dst)|
    ensures Own(edges, edges[e].dst)[edges[e].position] == edges[e]
  {
    assert Ranked(edges, e);
    InboundPick(edges, edges[e].dst, |edges|, e);
  }

  /** Two edges of one rank never share a destination. */
  lemma RankDistinct(edges: seq<Edge>, e: nat, f: nat)
    requires WellRanked(edges) && e < f < |edges| && edges[e].dst == edges[f].dst
    ensures edges[e].position < edges[f].position
  {
    assert Ranked(edges, e) && Ranked(edges, f);
    InboundPick(edges, edges[e].dst, f, e);
  }

  function Targets(edges: seq<Edge>, idx: seq<nat>, n: nat): (r: seq<nat>)
    requires n <= |idx| && forall j :: 0 <= j < |idx| ==> idx[j] < |edges|
    ensures |r| == n
    ensures forall j {:trigger r[j]} :: 0 <= j < n ==> r[j] == edges[idx[j]].dst
  {
    if n == 0 then [] else Targets(edges, idx, n - 1) + [edges[idx[n - 1]].dst]
  }

  /** No slice contains a destination twice, and it contains every destination that
      still has an edge to consume. */
  lemma {:induction false} SliceDestinations(edges: seq<Edge>, p: nat, idx: seq<nat>, dst: seq<nat>)
    requires WellRanked(edges) && idx == Positions(Ranks(edges, |edges|), p, |edges|)
    requires dst == Targets(edges, idx, |idx|)
    ensures Distinct(dst)
    ensures forall j :: 0 <= j < |idx| ==> p < |Own(edges, dst[j])| && Own(edges, dst[j])[p] == edges[idx[j]]
    ensures forall d: nat :: p < |Own(edges, d)| ==> d in dst
  {
    PositionsSpec(Ranks(edges, |edges|), p, |edges|);
    hide Positions;
    forall j | 0 <= j < |idx|
      ensures edges[idx[j]].position == p && p < |Own(edges, dst[j])| && Own(edges, dst[j])[p] == edges[idx[j]]
    {
      assert idx[j] in idx;
      RankedEdge(edges, idx[j]);
    }
    forall i, j | 0 <= i < j < |dst| ensures dst[i] != dst[j] {
      if dst[i] == dst[j] { RankDistinct(edges, idx[i], idx[j]); }
    }
    forall d: nat | p < |Own(edges, d)| ensures d in dst {
      var e := InboundFind(edges, d, |edges|, p);
      assert Ranked(edges, e);
      assert e in idx;
      var j :| 0 <= j < |idx| && idx[j] == e;
      assert dst[j] == d;
    }
  }

  // ---- one batched step --------------------------------------------------------

  /** The new states of a slice, all computed from the states before the step. */
  function NewStates<H>(step: (H, nat) -> H, h: seq<H>, edges: seq<Edge>, idx: seq<nat>, n: nat): (r: seq<H>)
    requires n <= |idx| && forall j :: 0 <= j < |idx| ==> idx[j] < |edges| && edges[idx[j]].dst < |h|
    ensures |r| == n
    ensures forall j {:trigger r[j]} :: 0 <= j < n ==> r[j] == step(h[edges[idx[j]].dst], edges[idx[j]].src)
  {
    if n == 0 then []
    else NewStates(step, h, edges, idx, n - 1) + [step(h[edges[idx[n - 1]].dst], edges[idx[n - 1]].src)]
  }

  /** `h.index_copy(0, at, rows)`. */
  function IndexCopy<H>(h: seq<H>, at: seq<nat>, rows: seq<H>, n: nat): (r: seq<H>)
    requires n <= |at| == |rows| && forall j :: 0 <= j < |at| ==> at[j] < |h|
    ensures |r| == |h|
  {
    if n == 0 then h else IndexCopy(h, at, rows, n - 1)[at[n - 1] := rows[n - 1]]
  }

  lemma {:induction false} IndexCopySpec<H>(h: seq<H>, at: seq<nat>, rows: seq<H>, n: nat)
    requires n <= |at| == |rows| && forall j :: 0 <= j < |at| ==> at[j] < |h|
    requires Distinct(at)
    ensures forall j :: 0 <= j < n ==> IndexCopy(h, at, rows, n)[at[j]] == rows[j]
    ensures forall d :: 0 <= d < |h| && d !in at ==> IndexCopy(h, at, rows, n)[d] == h[d]
  {
    if n > 0 { IndexCopySpec(h, at, rows, n - 1); }
  }

  /** Every destination has consumed its edges of rank below `n`. */
  ghost predicate Consumed<H(!new)>(zero: H, step: (H, nat) -> H, edges: seq<Edge>, h: seq<H>, n: nat) {
    forall d :: 0 <= d < |h| ==> h[d] == StateAfter(zero, step, Own(edges, d), n)
  }

  lemma NextState<H>(zero: H, step: (H, nat) -> H, own: seq<Edge>, p: nat)
    ensures StateAfter(zero, step, own, p + 1) ==
      if p < |own| then step(StateAfter(zero, step, own, p), own[p].src) else StateAfter(zero, step, own, p)
  {
  }

  lemma {:induction false} StepConsumes<H(!new)>(zero: H, step: (H, nat) -> H, edges: seq<Edge>, h: seq<H>, p: nat,
                                                 idx: seq<nat>, dst: seq<nat>)
    requires WellRanked(edges) && idx == Positions(Ranks(edges, |edges|), p, |edges|)
    requires dst == Targets(edges, idx, |idx|)
    requires forall e :: 0 <= e < |edges| ==> edges[e].dst < |h|
    requires Consumed(zero, step, edges, h, p)
    ensures Consumed(zero, step, edges, IndexCopy(h, dst, NewStates(step, h, edges, idx, |idx|), |dst|), p + 1)
  {
    SliceDestinations(edges, p, idx, dst);
    var rows := NewStates(step, h, edges, idx, |idx|);
    IndexCopySpec(h, dst, rows, |dst|);
    var next := IndexCopy(h, dst, rows, |dst|);
    hide Positions, Own, IndexCopy, Distinct, WellRanked, Ranks, Targets, NewStates, StateAfter;
    forall d: nat | d < |next| ensures next[d] == StateAfter(zero, step, Own(edges, d), p + 1) {
      NextState(zero, step, Own(edges, d), p);
      if d in dst {
        var j :| 0 <= j < |dst| && dst[j] == d;
        assert next[d] == rows[j] == step(h[d], edges[idx[j]].src);
      }
    }
  }

  function Zeros<H>(zero: H, n: nat): (r: seq<H>)
    ensures |r| == n && forall d :: 0 <= d < n ==> r[d] == zero
  {
    if n == 0 then [] else Zeros(zero, n - 1) + [zero]
  }

  lemma NothingConsumed<H(!new)>(zero: H, step: (H, nat) -> H, edges: seq<Edge>, h: seq<H>)
    requires forall d :: 0 <= d < |h| ==> h[d] == zero
    ensures Consumed(zero, step, edges, h, 0)
  {
  }

  /** One batched step: the slice of rank `p`, gathered, advanced and written back. */
  method StepSlice<H(!new)>(zero: H, step: (H, nat) -> H, edges: seq<Edge>, h0: seq<H>, p: nat, idx: seq<nat>)
    returns (h: seq<H>)
    requires WellRanked(edges) && idx == Positions(Ranks(edges, |edges|), p, |edges|)
    requires forall e :: 0 <= e < |edges| ==> edges[e].dst < |h0|
    requires Consumed(zero, step, edges, h0, p)
    ensures |h| == |h0| && Consumed(zero, step, edges, h, p + 1)
  {
    hide Positions, WellRanked, Own, IndexCopy, Consumed, Ranks;
    var dst := Targets(edges, idx, |idx|);
    StepConsumes(zero, step, edges, h0, p, idx, dst);
    h := IndexCopy(h0, dst, NewStates(step, h0, edges, idx, |idx|), |dst|);
  }

  lemma StartSplit(order: seq<Keyed>)
    ensures SplitAt(order, 0, 0)
  {
  }

  lemma SplitFits(order: seq<Keyed>, cursor: nat, p: nat)
    requires SplitAt(order, cursor, p)
    ensures cursor <= |order|
  {
  }

  /** `forward`: one pass over the ranks, each step advancing all destinations that
      still have an edge of that rank. Each destination ends with the left fold of
      the recurrence over its own edges, oldest to newest. */
  method Forward<H(!new)>(zero: H, step: (H, nat) -> H, edges: seq<Edge>, size: nat) returns (h: seq<H>)
    requires WellRanked(edges) && forall e :: 0 <= e < |edges| ==> edges[e].dst < size
    ensures |h| == size
    ensures forall d :: 0 <= d < size ==> h[d] == Fold(zero, step, Own(edges, d), |Own(edges, d)|)
  {
    h := Zeros(zero, size);
    if edges == [] { return; }
    hide *;
    NothingConsumed(zero, step, edges, h);
    var keys := Ranks(edges, |edges|);
    var order := StableArgsort(keys);
    var stepCounts := BinCount(keys, MaxKey(keys, |keys|) + 1);
    var cursor := 0;
    StartSplit(order);
    for p := 0 to |stepCounts|
      invariant |h| == size && Consumed(zero, step, edges, h, p)
      invariant SplitAt(order, cursor, p)
    {
      SliceIsRank(keys, order, cursor, p, stepCounts[p]);
      SplitFits(order, cursor + stepCounts[p], p + 1);
      var idx := Indices(order, cursor, cursor + stepCounts[p]);
      h := StepSlice(zero, step, edges, h, p, idx);
      cursor := cursor + stepCounts[p];
    }
    AllDone(zero, step, edges, h, keys, |stepCounts|);
  }

  lemma AllDone<H(!new)>(zero: H, step: (H, nat) -> H, edges: seq<Edge>, h: seq<H>, keys: seq<nat>, n: nat)
    requires WellRanked(edges) && keys == Ranks(edges, |edges|) && n == MaxKey(keys, |keys|) + 1
    requires Consumed(zero, step, edges, h, n)
    ensures forall d :: 0 <= d < |h| ==> h[d] == Fold(zero, step, Own(edges, d), |Own(edges, d)|)
  {
    hide Own, MaxKey, WellRanked;
    forall d | 0 <= d < |h| ensures h[d] == Fold(zero, step, Own(edges, d), |Own(edges, d)|) {
      AllConsumed(edges, keys, d);
    }
  }

  lemma AllConsumed(edges: seq<Edge>, keys: seq<nat>, d: nat)
    requires WellRanked(edges) && keys == Ranks(edges, |edges|)
    ensures |Own(edges, d)| <= MaxKey(keys, |keys|) + 1
  {
    if |Own(edges, d)| > 0 {
      var e := InboundFind(edges, d, |edges|, |Own(edges, d)| - 1);
      assert Ranked(edges, e) && keys[e] == edges[e].position;
    }
  }

  function FoldArrows<H>(zero: H, step: (H, nat) -> H, chosen: seq<Arrow>, n: nat): H
    requires n <= |chosen|
  {
    if n == 0 then zero else step(FoldArrows(zero, step, chosen, n - 1), chosen[n - 1].src)
  }

  /** Messages built by either construction meet the schedule's demand, and the fold
      then runs over exactly what each destination kept, oldest to newest. */
  lemma MessagesFold<H>(zero: H, step: (H, nat) -> H, kept: seq<seq<Arrow>>, d: nat)
    requires d < |kept|
    ensures WellRanked(Messages(kept).edges)
    ensures var own := Own(Messages(kept).edges, d);
      Fold(zero, step, own, |own|) == FoldArrows(zero, step, kept[d], |kept[d]|)
  {
    BlocksWellRanked(kept, |kept|);
    BlocksInbound(kept, |kept|, d);
    BlockFold(zero, step, d, kept[d], |kept[d]|);
  }

  lemma {:induction false} BlockFold<H>(zero: H, step: (H, nat) -> H, d: nat, chosen: seq<Arrow>, n: nat)
    requires n <= |chosen|
    ensures Fold(zero, step, Block(d, chosen, |chosen|), n) == FoldArrows(zero, step, chosen, n)
  {
    if n > 0 { BlockFold(zero, step, d, chosen, n - 1); }
  }
}
