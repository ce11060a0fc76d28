/** `collate_graphs` of `dgsr/graph.py`: batching as a disjoint union of samples. */
module Collate {
  import opened Sorting
  import opened Messaging
  import opened Sampler
  import opened SampleShape
  import opened VirtualRoot
  import opened VirtualShape
  import opened TemporalGraph
  import opened Reach
  import opened Splits
  import GruSchedule

  datatype BatchRow = BatchRow(sample: GraphSample, example: Example)

  datatype GraphBatch = GraphBatch(users: seq<nat>, items: seq<nat>, toUsers: MessageEdges, toItems: MessageEdges,
                                   roots: seq<nat>, targets: seq<nat>)

  datatype Collation = EmptyList | Batched(batch: GraphBatch, examples: seq<Example>)

  // ---- offsets ---------------------------------------------------------------

  /** The first `n` sizes added up: where the n-th sample's nodes start. */
  function Offset(sizes: seq<nat>, n: nat): nat
    requires n <= |sizes|
  {
    if n == 0 then 0 else Offset(sizes, n - 1) + sizes[n - 1]
  }

  function Offsets(sizes: seq<nat>, n: nat): (r: seq<nat>)
    requires n <= |sizes|
    ensures |r| == n
    ensures forall k {:trigger r[k]} :: 0 <= k < n ==> r[k] == Offset(sizes, k)
  {
    if n == 0 then [] else Offsets(sizes, n - 1) + [Offset(sizes, n - 1)]
  }

  lemma {:induction false} OffsetGrows(sizes: seq<nat>, j: nat, k: nat)
    requires j <= k <= |sizes|
    ensures Offset(sizes, j) <= Offset(sizes, k)
    ensures j < k ==> Offset(sizes, j) + sizes[j] <= Offset(sizes, k)
  {
    if j < k { OffsetGrows(sizes, j, k - 1); }
  }

  // ---- one direction of messages -----------------------------------------------

  function Shifted(e: Edge, so: nat, dof: nat): Edge { e.(src := e.src + so, dst := e.dst + dof) }

  function ShiftEdges(edges: seq<Edge>, so: nat, dof: nat, n: nat): (r: seq<Edge>)
    requires n <= |edges|
    ensures |r| == n
    ensures forall k {:trigger r[k]} :: 0 <= k < n ==> r[k] == Shifted(edges[k], so, dof)
  {
    if n == 0 then [] else ShiftEdges(edges, so, dof, n - 1) + [Shifted(edges[n - 1], so, dof)]
  }

  /** `where(value >= 0, value + so, value)`. */
  function ShiftLast(last: seq<int>, so: nat, n: nat): (r: seq<int>)
    requires n <= |last|
    ensures |r| == n
    ensures forall k {:trigger r[k]} :: 0 <= k < n ==> r[k] == if last[k] >= 0 then last[k] + so else last[k]
  {
    if n == 0 then [] else ShiftLast(last, so, n - 1) + [if last[n - 1] >= 0 then last[n - 1] + so else last[n - 1]]
  }

  function Shift(m: MessageEdges, so: nat, dof: nat): MessageEdges {
    MessageEdges(ShiftEdges(m.edges, so, dof, |m.edges|), m.counts, ShiftLast(m.lastSrc, so, |m.lastSrc|))
  }

  function Append(a: MessageEdges, b: MessageEdges): MessageEdges {
    MessageEdges(a.edges + b.edges, a.counts + b.counts, a.lastSrc + b.lastSrc)
  }

  /** The first `n` parts, each shifted past the nodes of the parts before it. */
  function Joined(parts: seq<MessageEdges>, srcSizes: seq<nat>, dstSizes: seq<nat>, n: nat): MessageEdges
    requires n <= |parts| == |srcSizes| == |dstSizes|
  {
    if n == 0 then MessageEdges([], [], [])
    else Append(Joined(parts, srcSizes, dstSizes, n - 1),
                Shift(parts[n - 1], Offset(srcSizes, n - 1), Offset(dstSizes, n - 1)))
  }

  /** `cat_messages`. */
  method CatMessages(parts: seq<MessageEdges>, srcOffsets: seq<nat>, dstOffsets: seq<nat>, ghost srcSizes: seq<nat>,
                     ghost dstSizes: seq<nat>) returns (r: MessageEdges)
    requires |parts| == |srcSizes| == |dstSizes|
    requires srcOffsets == Offsets(srcSizes, |parts|) && dstOffsets == Offsets(dstSizes, |parts|)
    ensures r == Joined(parts, srcSizes, dstSizes, |parts|)
  {
    var edges: seq<Edge>, counts: seq<nat>, last: seq<int> := [], [], [];
    for k := 0 to |parts|
      invariant MessageEdges(edges, counts, last) == Joined(parts, srcSizes, dstSizes, k)
    {
      var so, dof := srcOffsets[k], dstOffsets[k];
      edges := edges + ShiftEdges(parts[k].edges, so, dof, |parts[k].edges|);
      counts := counts + parts[k].counts;
      last := last + ShiftLast(parts[k].lastSrc, so, |parts[k].lastSrc|);
    }
    r := MessageEdges(edges, counts, last);
  }

  // ---- taking the union apart again ---------------------------------------------

  /** One direction of a sample: `sources` nodes sending to `destinations` nodes. */
  ghost predicate Fits(m: MessageEdges, sources: nat, destinations: nat) {
    && |m.counts| == |m.lastSrc| == destinations
    && InRange(m.edges, sources, destinations)
    && forall d :: 0 <= d < destinations ==> -1 <= m.lastSrc[d] < sources
  }

  ghost predicate AllFit(parts: seq<MessageEdges>, srcSizes: seq<nat>, dstSizes: seq<nat>) {
    && |parts| == |srcSizes| == |dstSizes|
    && forall k :: 0 <= k < |parts| ==> Fits(parts[k], srcSizes[k], dstSizes[k])
  }

  /** The edges whose destination lies in `[lo, hi)`. */
  function Between(edges: seq<Edge>, lo: nat, hi: nat, n: nat): seq<Edge>
    requires n <= |edges|
  {
    if n == 0 then []
    else Between(edges, lo, hi, n - 1) + if lo <= edges[n - 1].dst < hi then [edges[n - 1]] else []
  }

  lemma {:induction false} BetweenPrefix(a: seq<Edge>, b: seq<Edge>, lo: nat, hi: nat, n: nat)
    requires n <= |a|
    ensures Between(a + b, lo, hi, n) == Between(a, lo, hi, n)
  {
    if n > 0 { BetweenPrefix(a, b, lo, hi, n - 1); }
  }

  lemma {:induction false} BetweenConcat(a: seq<Edge>, b: seq<Edge>, lo: nat, hi: nat, n: nat)
    requires n <= |b|
    ensures Between(a + b, lo, hi, |a| + n) == Between(a, lo, hi, |a|) + Between(b, lo, hi, n)
  {
    if n == 0 { BetweenPrefix(a, b, lo, hi, |a|); } else { BetweenConcat(a, b, lo, hi, n - 1); }
  }

  lemma {:induction false} BetweenAll(edges: seq<Edge>, lo: nat, hi: nat, n: nat)
    requires n <= |edges| && forall k :: 0 <= k < |edges| ==> lo <= edges[k].dst < hi
    ensures Between(edges, lo, hi, n) == edges[..n]
  {
    if n > 0 { BetweenAll(edges, lo, hi, n - 1); }
  }

  lemma {:induction false} BetweenNone(edges: seq<Edge>, lo: nat, hi: nat, n: nat)
    requires n <= |edges| && forall k :: 0 <= k < |edges| ==> edges[k].dst < lo || hi <= edges[k].dst
    ensures Between(edges, lo, hi, n) == []
  {
    if n > 0 { BetweenNone(edges, lo, hi, n - 1); }
  }

  lemma ShiftedRange(m: MessageEdges, sources: nat, destinations: nat, so: nat, dof: nat)
    requires Fits(m, sources, destinations)
    ensures forall k :: 0 <= k < |m.edges| ==>
      && so <= Shift(m, so, dof).edges[k].src < so + sources
      && dof <= Shift(m, so, dof).edges[k].dst < dof + destinations
  {
  }

  lemma EdgesAppend(parts: seq<MessageEdges>, srcSizes: seq<nat>, dstSizes: seq<nat>, n: nat, a: seq<Edge>,
                    b: seq<Edge>)
    requires |parts| == |srcSizes| == |dstSizes| && 0 < n <= |parts|
    requires a == Joined(parts, srcSizes, dstSizes, n - 1).edges
    requires b == Shift(parts[n - 1], Offset(srcSizes, n - 1), Offset(dstSizes, n - 1)).edges
    ensures Joined(parts, srcSizes, dstSizes, n).edges == a + b
  {
  }

  lemma {:induction false} BetweenAppend(a: seq<Edge>, b: seq<Edge>, lo: nat, hi: nat, j: seq<Edge>)
    requires j == a + b
    ensures Between(j, lo, hi, |j|) == Between(a, lo, hi, |a|) + Between(b, lo, hi, |b|)
  {
    hide Between;
    BetweenConcat(a, b, lo, hi, |b|);
    assert |j| == |a| + |b|;
  }

  /** The union's edges into the r-th sample's destinations are that sample's edges. */
  lemma {:induction false} JoinedBetween(parts: seq<MessageEdges>, srcSizes: seq<nat>, dstSizes: seq<nat>, n: nat,
                                         r: nat, lo: nat, hi: nat, j: seq<Edge>)
    requires |parts| == |srcSizes| == |dstSizes|
    requires AllFit(parts, srcSizes, dstSizes) && n <= |parts| && r < |parts|
    requires lo == Offset(dstSizes, r) && hi == Offset(dstSizes, r + 1)
    requires j == Joined(parts, srcSizes, dstSizes, n).edges
    ensures Between(j, lo, hi, |j|) ==
      if r < n then Shift(parts[r], Offset(srcSizes, r), Offset(dstSizes, r)).edges else []
  {
    if n > 0 {
      hide *;
      var a := Joined(parts, srcSizes, dstSizes, n - 1).edges;
      var b := Shift(parts[n - 1], Offset(srcSizes, n - 1), Offset(dstSizes, n - 1)).edges;
      JoinedBetween(parts, srcSizes, dstSizes, n - 1, r, lo, hi, a);
      EdgesAppend(parts, srcSizes, dstSizes, n, a, b);
      LastBetween(parts, srcSizes, dstSizes, n, r, b);
      BetweenAppend(a, b, lo, hi, j);
      if r == n - 1 { EmptyEnds(b); } else { EmptyEnds(Between(a, lo, hi, |a|)); }
    }
  }

  lemma {:induction false} LastBetween(parts: seq<MessageEdges>, srcSizes: seq<nat>, dstSizes: seq<nat>, n: nat,
                                       r: nat, b: seq<Edge>)
    requires AllFit(parts, srcSizes, dstSizes) && 0 < n <= |parts| && r < |parts|
    requires b == Shift(parts[n - 1], Offset(srcSizes, n - 1), Offset(dstSizes, n - 1)).edges
    ensures Between(b, Offset(dstSizes, r), Offset(dstSizes, r + 1), |b|) == if r == n - 1 then b else []
  {
    var lo, hi := Offset(dstSizes, r), Offset(dstSizes, r + 1);
    ShiftedRange(parts[n - 1], srcSizes[n - 1], dstSizes[n - 1], Offset(srcSizes, n - 1), Offset(dstSizes, n - 1));
    hide Offset, Between;
    if r == n - 1 {
      OffsetGrows(dstSizes, r, r + 1);
      assert hi == lo + dstSizes[r] by { OffsetNext(dstSizes, r); }
      BetweenAll(b, lo, hi, |b|);
      assert b[..|b|] == b;
    } else {
      OffsetNext(dstSizes, n - 1);
      if r < n - 1 { OffsetGrows(dstSizes, r + 1, n - 1); } else { OffsetGrows(dstSizes, n, r); }
      BetweenNone(b, lo, hi, |b|);
    }
  }

  lemma OffsetNext(sizes: seq<nat>, k: nat)
    requires k < |sizes|
    ensures Offset(sizes, k + 1) == Offset(sizes, k) + sizes[k]
  {
  }

  lemma {:induction false} JoinedNodes(parts: seq<MessageEdges>, srcSizes: seq<nat>, dstSizes: seq<nat>, n: nat)
    requires AllFit(parts, srcSizes, dstSizes) && n <= |parts|
    ensures var j := Joined(parts, srcSizes, dstSizes, n);
      && |j.counts| == |j.lastSrc| == Offset(dstSizes, n)
      && forall e :: 0 <= e < |j.edges| ==> j.edges[e].dst < Offset(dstSizes, n)
  {
    if n > 0 {
      JoinedNodes(parts, srcSizes, dstSizes, n - 1);
      ShiftedRange(parts[n - 1], srcSizes[n - 1], dstSizes[n - 1], Offset(srcSizes, n - 1), Offset(dstSizes, n - 1));
    }
  }

  lemma SliceOfAppend<T>(a: seq<T>, b: seq<T>, lo: nat, hi: nat)
    requires lo <= hi
    ensures hi <= |a| ==> (a + b)[lo..hi] == a[lo..hi]
    ensures lo == |a| && hi == |a| + |b| ==> (a + b)[lo..hi] == b
  {
  }

  /** Counts and last sources of the r-th sample sit at its destination offset. */
  lemma {:induction false} JoinedColumns(parts: seq<MessageEdges>, srcSizes: seq<nat>, dstSizes: seq<nat>, n: nat,
                                         r: nat, lo: nat, hi: nat)
    requires |parts| == |srcSizes| == |dstSizes|
    requires AllFit(parts, srcSizes, dstSizes) && r < n <= |parts|
    requires lo == Offset(dstSizes, r) && hi == Offset(dstSizes, r + 1)
    ensures var j := Joined(parts, srcSizes, dstSizes, n);
      && lo <= hi <= |j.counts| == |j.lastSrc|
      && j.counts[lo..hi] == parts[r].counts
      && j.lastSrc[lo..hi] == ShiftLast(parts[r].lastSrc, Offset(srcSizes, r), |parts[r].lastSrc|)
  {
    hide *;
    var a := Joined(parts, srcSizes, dstSizes, n - 1);
    var b := Shift(parts[n - 1], Offset(srcSizes, n - 1), Offset(dstSizes, n - 1));
    ColumnsAppend(parts, srcSizes, dstSizes, n, a, b);
    OffsetNext(dstSizes, r);
    OffsetGrows(dstSizes, r, n - 1);
    SliceOfAppend(a.counts, b.counts, lo, hi);
    SliceOfAppend(a.lastSrc, b.lastSrc, lo, hi);
    if r < n - 1 { JoinedColumns(parts, srcSizes, dstSizes, n - 1, r, lo, hi); }
  }

  lemma {:induction false} ColumnsAppend(parts: seq<MessageEdges>, srcSizes: seq<nat>, dstSizes: seq<nat>, n: nat,
                                         a: MessageEdges, b: MessageEdges)
    requires |parts| == |srcSizes| == |dstSizes|
    requires AllFit(parts, srcSizes, dstSizes) && 0 < n <= |parts|
    requires a == Joined(parts, srcSizes, dstSizes, n - 1)
    requires b == Shift(parts[n - 1], Offset(srcSizes, n - 1), Offset(dstSizes, n - 1))
    ensures Joined(parts, srcSizes, dstSizes, n).counts == a.counts + b.counts
    ensures Joined(parts, srcSizes, dstSizes, n).lastSrc == a.lastSrc + b.lastSrc
    ensures |a.counts| == |a.lastSrc| == Offset(dstSizes, n - 1) && |b.counts| == |b.lastSrc| == dstSizes[n - 1]
    ensures b.counts == parts[n - 1].counts
    ensures b.lastSrc == ShiftLast(parts[n - 1].lastSrc, Offset(srcSizes, n - 1), |parts[n - 1].lastSrc|)
  {
    JoinedNodes(parts, srcSizes, dstSizes, n - 1);
    assert Fits(parts[n - 1], srcSizes[n - 1], dstSizes[n - 1]);
    hide AllFit, Fits, Offset, ShiftEdges, ShiftLast;
  }

  function UnshiftEdges(edges: seq<Edge>, so: nat, dof: nat, n: nat): (r: seq<Edge>)
    requires n <= |edges| && forall k :: 0 <= k < |edges| ==> so <= edges[k].src && dof <= edges[k].dst
    ensures |r| == n
    ensures forall k {:trigger r[k]} :: 0 <= k < n ==>
      r[k] == edges[k].(src := edges[k].src - so, dst := edges[k].dst - dof)
  {
    if n == 0 then []
    else UnshiftEdges(edges, so, dof, n - 1)
           + [edges[n - 1].(src := edges[n - 1].src - so, dst := edges[n - 1].dst - dof)]
  }

  function UnshiftLast(last: seq<int>, so: nat, n: nat): (r: seq<int>)
    requires n <= |last|
    ensures |r| == n
    ensures forall k {:trigger r[k]} :: 0 <= k < n ==> r[k] == if last[k] >= 0 then last[k] - so else last[k]
  {
    if n == 0 then [] else UnshiftLast(last, so, n - 1) + [if last[n - 1] >= 0 then last[n - 1] - so else last[n - 1]]
  }

  /** The part of a batch between two offsets, moved back to local indices. */
  ghost predicate IsPart(batch: MessageEdges, so: nat, lo: nat, hi: nat, part: MessageEdges) {
    var edges := Between(batch.edges, lo, hi, |batch.edges|);
    && lo <= hi <= |batch.counts| == |batch.lastSrc|
    && (forall k :: 0 <= k < |edges| ==> so <= edges[k].src && lo <= edges[k].dst)
    && part == MessageEdges(UnshiftEdges(edges, so, lo, |edges|), batch.counts[lo..hi],
                            UnshiftLast(batch.lastSrc[lo..hi], so, hi - lo))
  }

  lemma {:induction false} UnshiftShift(m: MessageEdges, sources: nat, destinations: nat, so: nat, dof: nat)
    requires Fits(m, sources, destinations)
    ensures var edges := Shift(m, so, dof).edges;
      && (forall k :: 0 <= k < |edges| ==> so <= edges[k].src && dof <= edges[k].dst)
      && UnshiftEdges(edges, so, dof, |edges|) == m.edges
    ensures UnshiftLast(ShiftLast(m.lastSrc, so, |m.lastSrc|), so, |m.lastSrc|) == m.lastSrc
  {
    var edges := Shift(m, so, dof).edges;
    assert UnshiftEdges(edges, so, dof, |edges|) == m.edges;
    assert UnshiftLast(ShiftLast(m.lastSrc, so, |m.lastSrc|), so, |m.lastSrc|) == m.lastSrc;
  }

  lemma PartSizes(parts: seq<MessageEdges>, srcSizes: seq<nat>, dstSizes: seq<nat>, r: nat)
    requires AllFit(parts, srcSizes, dstSizes) && r < |parts|
    ensures Fits(parts[r], srcSizes[r], dstSizes[r]) && |parts[r].lastSrc| == dstSizes[r]
    ensures Offset(dstSizes, r + 1) == Offset(dstSizes, r) + dstSizes[r]
  {
  }

  lemma {:induction false} PartIs(batch: MessageEdges, so: nat, lo: nat, hi: nat, part: MessageEdges,
                                  edges: seq<Edge>, last: seq<int>)
    requires edges == Between(batch.edges, lo, hi, |batch.edges|)
    requires lo <= hi <= |batch.counts| == |batch.lastSrc| && last == batch.lastSrc[lo..hi]
    requires forall k :: 0 <= k < |edges| ==> so <= edges[k].src && lo <= edges[k].dst
    requires UnshiftEdges(edges, so, lo, |edges|) == part.edges
    requires batch.counts[lo..hi] == part.counts && UnshiftLast(last, so, |last|) == part.lastSrc
    ensures IsPart(batch, so, lo, hi, part)
  {
    hide Between, UnshiftEdges, UnshiftLast;
  }

  /** Cutting the union at the r-th sample's offsets gives that sample's messages
      back, `-1` last sources included. */
  lemma SplitRecovers(parts: seq<MessageEdges>, srcSizes: seq<nat>, dstSizes: seq<nat>, r: nat)
    requires |parts| == |srcSizes| == |dstSizes|
    requires AllFit(parts, srcSizes, dstSizes) && r < |parts|
    ensures IsPart(Joined(parts, srcSizes, dstSizes, |parts|), Offset(srcSizes, r),
                   Offset(dstSizes, r), Offset(dstSizes, r + 1), parts[r])
  {
    hide *;
    var so, lo, hi := Offset(srcSizes, r), Offset(dstSizes, r), Offset(dstSizes, r + 1);
    var batch := Joined(parts, srcSizes, dstSizes, |parts|);
    JoinedBetween(parts, srcSizes, dstSizes, |parts|, r, lo, hi, batch.edges);
    JoinedColumns(parts, srcSizes, dstSizes, |parts|, r, lo, hi);
    PartSizes(parts, srcSizes, dstSizes, r);
    UnshiftShift(parts[r], srcSizes[r], dstSizes[r], so, lo);
    PartIs(batch, so, lo, hi, parts[r], Shift(parts[r], so, lo).edges, batch.lastSrc[lo..hi]);
  }

  /** Both ends of an edge of the union lie in the same sample. */
  lemma {:induction false} NoEdgeJoinsSamples(parts: seq<MessageEdges>, srcSizes: seq<nat>, dstSizes: seq<nat>,
                                              n: nat, e: nat)
    requires AllFit(parts, srcSizes, dstSizes) && n <= |parts|
    requires e < |Joined(parts, srcSizes, dstSizes, n).edges|
    ensures var edge := Joined(parts, srcSizes, dstSizes, n).edges[e];
      exists r :: 0 <= r < n
        && Offset(srcSizes, r) <= edge.src < Offset(srcSizes, r + 1)
        && Offset(dstSizes, r) <= edge.dst < Offset(dstSizes, r + 1)
  {
    if n > 0 {
      var a := Joined(parts, srcSizes, dstSizes, n - 1).edges;
      assert Joined(parts, srcSizes, dstSizes, n).edges ==
        a + Shift(parts[n - 1], Offset(srcSizes, n - 1), Offset(dstSizes, n - 1)).edges;
      hide Joined, Offset, Shift;
      if e < |a| {
        NoEdgeJoinsSamples(parts, srcSizes, dstSizes, n - 1, e);
      } else {
        LastSampleEdge(parts, srcSizes, dstSizes, n - 1, e - |a|);
      }
    }
  }

  lemma LastSampleEdge(parts: seq<MessageEdges>, srcSizes: seq<nat>, dstSizes: seq<nat>, r: nat, e: nat)
    requires AllFit(parts, srcSizes, dstSizes) && r < |parts|
    requires e < |Shift(parts[r], Offset(srcSizes, r), Offset(dstSizes, r)).edges|
    ensures var edge := Shift(parts[r], Offset(srcSizes, r), Offset(dstSizes, r)).edges[e];
      && Offset(srcSizes, r) <= edge.src < Offset(srcSizes, r + 1)
      && Offset(dstSizes, r) <= edge.dst < Offset(dstSizes, r + 1)
  {
    ShiftedRange(parts[r], srcSizes[r], dstSizes[r], Offset(srcSizes, r), Offset(dstSizes, r));
    OffsetNext(srcSizes, r);
    OffsetNext(dstSizes, r);
    hide Offset;
  }

  // ---- recurrences over a batch ---------------------------------------------------

  lemma {:induction false} InboundShift(edges: seq<Edge>, so: nat, dof: nat, d: nat, n: nat)
    requires n <= |edges|
    ensures Inbound(ShiftEdges(edges, so, dof, |edges|), dof + d, n) ==
      ShiftEdges(Inbound(edges, d, n), so, dof, |Inbound(edges, d, n)|)
  {
    if n > 0 { InboundShift(edges, so, dof, d, n - 1); }
  }

  lemma {:induction false} InboundNone(edges: seq<Edge>, d: nat, n: nat)
    requires n <= |edges| && forall e :: 0 <= e < |edges| ==> edges[e].dst != d
    ensures Inbound(edges, d, n) == []
  {
    if n > 0 { InboundNone(edges, d, n - 1); }
  }

  lemma OwnOfFirst(a: seq<Edge>, b: seq<Edge>, at: nat)
    requires forall e :: 0 <= e < |b| ==> b[e].dst != at
    ensures GruSchedule.Own(a + b, at) == GruSchedule.Own(a, at)
  {
    InboundConcat(a, b, at, |b|);
    InboundNone(b, at, |b|);
    hide Inbound;
    EmptyEnds(GruSchedule.Own(a, at));
  }

  lemma OwnOfSecond(a: seq<Edge>, b: seq<Edge>, at: nat)
    requires forall e :: 0 <= e < |a| ==> a[e].dst != at
    ensures GruSchedule.Own(a + b, at) == GruSchedule.Own(b, at)
  {
    InboundConcat(a, b, at, |b|);
    InboundNone(a, at, |a|);
    hide Inbound;
    EmptyEnds(GruSchedule.Own(b, at));
  }

  /** A destination receives in the batch what it receives in its own sample. */
  lemma {:induction false} BatchOwn(parts: seq<MessageEdges>, srcSizes: seq<nat>, dstSizes: seq<nat>, n: nat, r: nat,
                                    d: nat)
    requires |parts| == |srcSizes| == |dstSizes|
    requires AllFit(parts, srcSizes, dstSizes) && r < n <= |parts| && d < dstSizes[r]
    ensures GruSchedule.Own(Joined(parts, srcSizes, dstSizes, n).edges, Offset(dstSizes, r) + d) ==
      ShiftEdges(GruSchedule.Own(parts[r].edges, d), Offset(srcSizes, r), Offset(dstSizes, r),
                 |GruSchedule.Own(parts[r].edges, d)|)
  {
    hide *;
    var at := Offset(dstSizes, r) + d;
    var a := Joined(parts, srcSizes, dstSizes, n - 1).edges;
    var b := Shift(parts[n - 1], Offset(srcSizes, n - 1), Offset(dstSizes, n - 1)).edges;
    LastApart(parts, srcSizes, dstSizes, n, a, b);
    if r < n - 1 {
      BatchOwn(parts, srcSizes, dstSizes, n - 1, r, d);
      OffsetGrows(dstSizes, r, n - 1);
      OwnOfFirst(a, b, at);
    } else {
      OwnOfSecond(a, b, at);
      OwnShift(parts[r], Offset(srcSizes, r), Offset(dstSizes, r), d);
    }
  }

  /** The n-th part's edges follow those of the earlier parts and go to later nodes. */
  lemma {:induction false} LastApart(parts: seq<MessageEdges>, srcSizes: seq<nat>, dstSizes: seq<nat>, n: nat,
                                     a: seq<Edge>, b: seq<Edge>)
    requires AllFit(parts, srcSizes, dstSizes) && 0 < n <= |parts|
    requires |parts| == |srcSizes| == |dstSizes|
    requires a == Joined(parts, srcSizes, dstSizes, n - 1).edges
    requires b == Shift(parts[n - 1], Offset(srcSizes, n - 1), Offset(dstSizes, n - 1)).edges
    ensures Joined(parts, srcSizes, dstSizes, n).edges == a + b
    ensures forall e :: 0 <= e < |a| ==> a[e].dst < Offset(dstSizes, n - 1)
    ensures forall e :: 0 <= e < |b| ==> Offset(dstSizes, n - 1) <= b[e].dst
  {
    JoinedNodes(parts, srcSizes, dstSizes, n - 1);
    ShiftedRange(parts[n - 1], srcSizes[n - 1], dstSizes[n - 1], Offset(srcSizes, n - 1), Offset(dstSizes, n - 1));
  }

  lemma OwnShift(m: MessageEdges, so: nat, dof: nat, d: nat)
    ensures GruSchedule.Own(Shift(m, so, dof).edges, dof + d) ==
      ShiftEdges(GruSchedule.Own(m.edges, d), so, dof, |GruSchedule.Own(m.edges, d)|)
  {
    InboundShift(m.edges, so, dof, d, |m.edges|);
  }

  lemma {:induction false} ShiftedRanked(edges: seq<Edge>, so: nat, dof: nat)
    requires WellRanked(edges)
    ensures WellRanked(ShiftEdges(edges, so, dof, |edges|))
  {
    var b := ShiftEdges(edges, so, dof, |edges|);
    forall e | 0 <= e < |b| ensures Ranked(b, e) {
      assert Ranked(edges, e);
      InboundShift(edges, so, dof, edges[e].dst, e);
    }
  }

  lemma AppendRanked(a: seq<Edge>, b: seq<Edge>, dof: nat)
    requires WellRanked(a) && WellRanked(b)
    requires forall e :: 0 <= e < |a| ==> a[e].dst < dof
    requires forall e :: 0 <= e < |b| ==> dof <= b[e].dst
    ensures WellRanked(a + b)
  {
    var all := a + b;
    hide Inbound;
    forall e | 0 <= e < |all| ensures Ranked(all, e) {
      if e < |a| {
        assert Ranked(a, e);
        InboundPrefix(a, b, all[e].dst, e);
      } else {
        assert Ranked(b, e - |a|);
        InboundConcat(a, b, all[e].dst, e - |a|);
        InboundNone(a, all[e].dst, |a|);
      }
    }
  }

  /** A batch is well ranked whenever its samples are, so one schedule serves them all. */
  lemma {:induction false} BatchRanked(parts: seq<MessageEdges>, srcSizes: seq<nat>, dstSizes: seq<nat>, n: nat)
    requires AllFit(parts, srcSizes, dstSizes) && n <= |parts|
    requires forall k :: 0 <= k < |parts| ==> WellRanked(parts[k].edges)
    ensures WellRanked(Joined(parts, srcSizes, dstSizes, n).edges)
  {
    if n > 0 {
      BatchRanked(parts, srcSizes, dstSizes, n - 1);
      JoinedNodes(parts, srcSizes, dstSizes, n - 1);
      var so, dof := Offset(srcSizes, n - 1), Offset(dstSizes, n - 1);
      ShiftedRange(parts[n - 1], srcSizes[n - 1], dstSizes[n - 1], so, dof);
      ShiftedRanked(parts[n - 1].edges, so, dof);
      AppendRanked(Joined(parts, srcSizes, dstSizes, n - 1).edges, Shift(parts[n - 1], so, dof).edges, dof);
    }
  }

  lemma {:induction false} ShiftedFold<H>(zero: H, batchStep: (H, nat) -> H, rowStep: (H, nat) -> H, own: seq<Edge>,
                                          so: nat, dof: nat, sources: nat, n: nat)
    requires n <= |own| && forall k :: 0 <= k < |own| ==> own[k].src < sources
    requires forall h, s: nat :: s < sources ==> batchStep(h, so + s) == rowStep(h, s)
    ensures GruSchedule.Fold(zero, batchStep, ShiftEdges(own, so, dof, |own|), n)
      == GruSchedule.Fold(zero, rowStep, own, n)
  {
    if n > 0 { ShiftedFold(zero, batchStep, rowStep, own, so, dof, sources, n - 1); }
  }

  lemma {:induction false} InboundInRange(edges: seq<Edge>, d: nat, n: nat, sources: nat, destinations: nat)
    requires n <= |edges| && InRange(edges, sources, destinations)
    ensures forall k :: 0 <= k < |Inbound(edges, d, n)| ==> Inbound(edges, d, n)[k].src < sources
  {
    if n > 0 { InboundInRange(edges, d, n - 1, sources, destinations); }
  }

  /** Running the recurrence over a batch gives each node the state it gets when its
      sample is run alone: batching changes nothing but the indices. */
  lemma {:induction false} BatchStates<H(!new)>(zero: H, batchStep: (H, nat) -> H, rowStep: (H, nat) -> H,
                                                parts: seq<MessageEdges>, srcSizes: seq<nat>, dstSizes: seq<nat>,
                                                r: nat, d: nat)
    requires AllFit(parts, srcSizes, dstSizes) && r < |parts| && d < dstSizes[r]
    requires forall h, s: nat :: s < srcSizes[r] ==> batchStep(h, Offset(srcSizes, r) + s) == rowStep(h, s)
    ensures var inBatch := GruSchedule.Own(Joined(parts, srcSizes, dstSizes, |parts|).edges, Offset(dstSizes, r) + d);
      GruSchedule.Fold(zero, batchStep, inBatch, |inBatch|)
        == GruSchedule.Fold(zero, rowStep, GruSchedule.Own(parts[r].edges, d), |GruSchedule.Own(parts[r].edges, d)|)
  {
    BatchOwn(parts, srcSizes, dstSizes, |parts|, r, d);
    var own := GruSchedule.Own(parts[r].edges, d);
    InboundInRange(parts[r].edges, d, |parts[r].edges|, srcSizes[r], dstSizes[r]);
    ShiftedFold(zero, batchStep, rowStep, own, Offset(srcSizes, r), Offset(dstSizes, r), srcSizes[r], |own|);
  }

  // ---- the whole batch ----------------------------------------------------------

  function UserSizes(rows: seq<BatchRow>, n: nat): (r: seq<nat>)
    requires n <= |rows|
    ensures |r| == n
    ensures forall k {:trigger r[k]} :: 0 <= k < n ==> r[k] == |rows[k].sample.users|
  {
    if n == 0 then [] else UserSizes(rows, n - 1) + [|rows[n - 1].sample.users|]
  }

  function ItemSizes(rows: seq<BatchRow>, n: nat): (r: seq<nat>)
    requires n <= |rows|
    ensures |r| == n
    ensures forall k {:trigger r[k]} :: 0 <= k < n ==> r[k] == |rows[k].sample.items|
  {
    if n == 0 then [] else ItemSizes(rows, n - 1) + [|rows[n - 1].sample.items|]
  }

  function ToUsers(rows: seq<BatchRow>, n: nat): (r: seq<MessageEdges>)
    requires n <= |rows|
    ensures |r| == n
    ensures forall k {:trigger r[k]} :: 0 <= k < n ==> r[k] == rows[k].sample.toUsers
  {
    if n == 0 then [] else ToUsers(rows, n - 1) + [rows[n - 1].sample.toUsers]
  }

  function ToItems(rows: seq<BatchRow>, n: nat): (r: seq<MessageEdges>)
    requires n <= |rows|
    ensures |r| == n
    ensures forall k {:trigger r[k]} :: 0 <= k < n ==> r[k] == rows[k].sample.toItems
  {
    if n == 0 then [] else ToItems(rows, n - 1) + [rows[n - 1].sample.toItems]
  }

  function Users(rows: seq<BatchRow>, n: nat): seq<nat>
    requires n <= |rows|
  {
    if n == 0 then [] else Users(rows, n - 1) + rows[n - 1].sample.users
  }

  function Items(rows: seq<BatchRow>, n: nat): seq<nat>
    requires n <= |rows|
  {
    if n == 0 then [] else Items(rows, n - 1) + rows[n - 1].sample.items
  }

  function Roots(rows: seq<BatchRow>, n: nat): (r: seq<nat>)
    requires n <= |rows|
    ensures |r| == n
    ensures forall k {:trigger r[k]} :: 0 <= k < n ==> r[k] == rows[k].sample.root + Offset(UserSizes(rows, |rows|), k)
  {
    if n == 0 then [] else Roots(rows, n - 1) + [rows[n - 1].sample.root + Offset(UserSizes(rows, |rows|), n - 1)]
  }

  function Examples(rows: seq<BatchRow>, n: nat): (r: seq<Example>)
    requires n <= |rows|
    ensures |r| == n
    ensures forall k {:trigger r[k]} :: 0 <= k < n ==> r[k] == rows[k].example
  {
    if n == 0 then [] else Examples(rows, n - 1) + [rows[n - 1].example]
  }

  function Targets(rows: seq<BatchRow>, n: nat): (r: seq<nat>)
    requires n <= |rows|
    ensures |r| == n
    ensures forall k {:trigger r[k]} :: 0 <= k < n ==> r[k] == rows[k].example.target
  {
    if n == 0 then [] else Targets(rows, n - 1) + [rows[n - 1].example.target]
  }

  function BatchOf(rows: seq<BatchRow>): GraphBatch {
    var n := |rows|;
    GraphBatch(Users(rows, n), Items(rows, n),
               Joined(ToUsers(rows, n), ItemSizes(rows, n), UserSizes(rows, n), n),
               Joined(ToItems(rows, n), UserSizes(rows, n), ItemSizes(rows, n), n),
               Roots(rows, n), Targets(rows, n))
  }

  /** `collate_graphs`. */
  method CollateGraphs(rows: seq<BatchRow>) returns (r: Collation)
    ensures rows == [] <==> r.EmptyList?
    ensures r.Batched? ==> r.batch == BatchOf(rows) && r.examples == Examples(rows, |rows|)
  {
    if rows == [] { return EmptyList; }
    var userOffsets: seq<nat>, itemOffsets: seq<nat>, nu: nat, ni: nat := [], [], 0, 0;
    ghost var us, its := UserSizes(rows, |rows|), ItemSizes(rows, |rows|);
    for k := 0 to |rows|
      invariant userOffsets == Offsets(us, k) && itemOffsets == Offsets(its, k)
      invariant nu == Offset(us, k) && ni == Offset(its, k)
    {
      userOffsets := userOffsets + [nu];
      itemOffsets := itemOffsets + [ni];
      nu := nu + |rows[k].sample.users|;
      ni := ni + |rows[k].sample.items|;
    }
    hide Joined, Offset;
    var toUsers := CatMessages(ToUsers(rows, |rows|), itemOffsets, userOffsets, its, us);
    var toItems := CatMessages(ToItems(rows, |rows|), userOffsets, itemOffsets, us, its);
    var roots: seq<nat> := [];
    for k := 0 to |rows|
      invariant roots == Roots(rows, k)
    {
      roots := roots + [rows[k].sample.root + userOffsets[k]];
    }
    r := Batched(GraphBatch(Users(rows, |rows|), Items(rows, |rows|), toUsers, toItems, roots, Targets(rows, |rows|)),
                 Examples(rows, |rows|));
  }

  /** A sample whose two directions agree with its node lists. */
  ghost predicate WellFormed(s: GraphSample) {
    && Fits(s.toUsers, |s.items|, |s.users|) && Fits(s.toItems, |s.users|, |s.items|)
    && s.root < |s.users|
  }

  lemma ShapeFits(s: GraphSample)
    requires WellShaped(s.toUsers, |s.items|, |s.users|) && WellShaped(s.toItems, |s.users|, |s.items|)
    requires s.root < |s.users|
    ensures WellFormed(s) && WellRanked(s.toUsers.edges) && WellRanked(s.toItems.edges)
  {
    hide WellRanked, InRange;
  }

  /** Every sample the sampler returns can be batched and scheduled. */
  lemma {:induction false} SampledFits(g: Graph, cfg: Config, user: nat, cutoff: int, s: GraphSample)
    requires g.Valid() && cfg.Valid() && Expected(g, cfg, user, cutoff) == Sampled(s)
    ensures WellFormed(s) && WellRanked(s.toUsers.edges) && WellRanked(s.toItems.edges)
  {
    hide *;
    SampleWellFormed(g, cfg, user, cutoff, s);
    ShapeFits(s);
  }

  /** So can every virtual sample of a non-empty history. */
  lemma {:induction false} VirtualFits(g: Graph, cfg: Config, cutoff: int, history: seq<HistoryEvent>, root: Root,
                                       v: GraphSample)
    requires g.Valid() && history != [] && VirtualExpected(g, cfg, cutoff, history, root) == Sampled(v)
    ensures WellFormed(v) && WellRanked(v.toUsers.edges) && WellRanked(v.toItems.edges)
  {
    hide *;
    VirtualWellFormed(g, cfg, cutoff, history, root, v);
    ShapeFits(v);
  }

  /** A slice of a concatenation lies in the part that holds its bounds. */
  lemma AppendedSlice(a: seq<nat>, b: seq<nat>, lo: nat, hi: nat)
    requires lo <= hi
    ensures hi <= |a| ==> (a + b)[lo..hi] == a[lo..hi]
    ensures lo == |a| && hi == |a| + |b| ==> (a + b)[lo..hi] == b
  {
  }

  lemma {:induction false} UsersSlice(rows: seq<BatchRow>, n: nat, r: nat)
    requires n <= |rows| && r < |rows|
    ensures |Users(rows, n)| == Offset(UserSizes(rows, |rows|), n)
    ensures r < n ==> Offset(UserSizes(rows, |rows|), r + 1) <= |Users(rows, n)|
    ensures r < n ==> Users(rows, n)[Offset(UserSizes(rows, |rows|), r)..Offset(UserSizes(rows, |rows|), r + 1)]
                        == rows[r].sample.users
  {
    var sizes := UserSizes(rows, |rows|);
    if n > 0 {
      UsersSlice(rows, n - 1, r);
      OffsetNext(sizes, n - 1);
      OffsetNext(sizes, r);
      hide Offset, UserSizes;
      AppendedSlice(Users(rows, n - 1), rows[n - 1].sample.users, Offset(sizes, r), Offset(sizes, r + 1));
    }
  }

  lemma {:induction false} ItemsSlice(rows: seq<BatchRow>, n: nat, r: nat)
    requires n <= |rows| && r < |rows|
    ensures |Items(rows, n)| == Offset(ItemSizes(rows, |rows|), n)
    ensures r < n ==> Offset(ItemSizes(rows, |rows|), r + 1) <= |Items(rows, n)|
    ensures r < n ==> Items(rows, n)[Offset(ItemSizes(rows, |rows|), r)..Offset(ItemSizes(rows, |rows|), r + 1)]
                        == rows[r].sample.items
  {
    var sizes := ItemSizes(rows, |rows|);
    if n > 0 {
      ItemsSlice(rows, n - 1, r);
      OffsetNext(sizes, n - 1);
      OffsetNext(sizes, r);
      hide Offset, ItemSizes;
      AppendedSlice(Items(rows, n - 1), rows[n - 1].sample.items, Offset(sizes, r), Offset(sizes, r + 1));
    }
  }

  lemma {:induction false} RowsFit(rows: seq<BatchRow>)
    requires forall k :: 0 <= k < |rows| ==> WellFormed(rows[k].sample)
    ensures AllFit(ToUsers(rows, |rows|), ItemSizes(rows, |rows|), UserSizes(rows, |rows|))
    ensures AllFit(ToItems(rows, |rows|), UserSizes(rows, |rows|), ItemSizes(rows, |rows|))
  {
    hide Fits;
    forall k | 0 <= k < |rows|
      ensures Fits(rows[k].sample.toUsers, |rows[k].sample.items|, |rows[k].sample.users|)
      ensures Fits(rows[k].sample.toItems, |rows[k].sample.users|, |rows[k].sample.items|)
    {
      assert WellFormed(rows[k].sample);
    }
  }

  /** Splitting a batch by its user and item offsets recovers every sample. */
  lemma {:induction false} BatchSplits(rows: seq<BatchRow>, r: nat, b: GraphBatch, u: nat, u': nat, i: nat, i': nat)
    requires r < |rows| && b == BatchOf(rows)
    requires forall k :: 0 <= k < |rows| ==> WellFormed(rows[k].sample)
    requires u == Offset(UserSizes(rows, |rows|), r) && u' == Offset(UserSizes(rows, |rows|), r + 1)
    requires i == Offset(ItemSizes(rows, |rows|), r) && i' == Offset(ItemSizes(rows, |rows|), r + 1)
    ensures u <= u' <= |b.users| && b.users[u..u'] == rows[r].sample.users
    ensures i <= i' <= |b.items| && b.items[i..i'] == rows[r].sample.items
    ensures IsPart(b.toUsers, i, u, u', rows[r].sample.toUsers)
    ensures IsPart(b.toItems, u, i, i', rows[r].sample.toItems)
    ensures u <= b.roots[r] < u' && b.roots[r] - u == rows[r].sample.root
    ensures b.targets[r] == rows[r].example.target
  {
    RowsFit(rows);
    UsersSlice(rows, |rows|, r);
    ItemsSlice(rows, |rows|, r);
    SplitRecovers(ToUsers(rows, |rows|), ItemSizes(rows, |rows|), UserSizes(rows, |rows|), r);
    SplitRecovers(ToItems(rows, |rows|), UserSizes(rows, |rows|), ItemSizes(rows, |rows|), r);
    OffsetNext(UserSizes(rows, |rows|), r);
    OffsetNext(ItemSizes(rows, |rows|), r);
    assert WellFormed(rows[r].sample);
    hide Joined, IsPart, AllFit, Offset, Users, Items, Fits;
  }
}
