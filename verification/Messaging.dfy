/** Incoming messages of a bipartite subgraph, built two ways: from nested lists per destination
    (`messages` of `dgsr/graph.py`) and from one flat edge table (`_messages` of `dgsr/serving.py`). */
module Messaging {
  import opened Sorting

  /** One edge as its destination sees it; `event` is -1 for a supplied root event. */
  datatype Arrow = Arrow(src: nat, event: int)

  /** The parallel tensors src, dst, relative, position and events as one record. */
  datatype Edge = Edge(src: nat, dst: nat, relative: nat, position: nat, event: int)

  datatype MessageEdges = MessageEdges(edges: seq<Edge>, counts: seq<nat>, lastSrc: seq<int>)

  /** The first `n` messages one destination receives, oldest to newest. */
  function Block(dst: nat, chosen: seq<Arrow>, n: nat): (r: seq<Edge>)
    requires n <= |chosen|
    ensures |r| == n
    ensures forall k {:trigger r[k]} :: 0 <= k < n ==>
      r[k] == Edge(chosen[k].src, dst, |chosen| - 1 - k, k, chosen[k].event)
  {
    if n == 0 then []
    else Block(dst, chosen, n - 1) + [Edge(chosen[n - 1].src, dst, |chosen| - n, n - 1, chosen[n - 1].event)]
  }

  function Blocks(kept: seq<seq<Arrow>>, n: nat): seq<Edge>
    requires n <= |kept|
  {
    if n == 0 then [] else Blocks(kept, n - 1) + Block(n - 1, kept[n - 1], |kept[n - 1]|)
  }

  function Newest(chosen: seq<Arrow>): int {
    if chosen == [] then -1 else chosen[|chosen| - 1].src
  }

  function Counts(kept: seq<seq<Arrow>>, n: nat): (r: seq<nat>)
    requires n <= |kept|
    ensures |r| == n
    ensures forall d {:trigger r[d]} :: 0 <= d < n ==> r[d] == |kept[d]|
  {
    if n == 0 then [] else Counts(kept, n - 1) + [|kept[n - 1]|]
  }

  function Latest(kept: seq<seq<Arrow>>, n: nat): (r: seq<int>)
    requires n <= |kept|
    ensures |r| == n
    ensures forall d {:trigger r[d]} :: 0 <= d < n ==> r[d] == Newest(kept[d])
  {
    if n == 0 then [] else Latest(kept, n - 1) + [Newest(kept[n - 1])]
  }

  /** The messages of all destinations; `kept[d]` are those destination d keeps. */
  function Messages(kept: seq<seq<Arrow>>): MessageEdges {
    MessageEdges(Blocks(kept, |kept|), Counts(kept, |kept|), Latest(kept, |kept|))
  }

  // ---- reading messages back -------------------------------------------

  /** The edges of one destination among the first `n`, in the order they are stored. */
  function Inbound(edges: seq<Edge>, d: nat, n: nat): (r: seq<Edge>)
    requires n <= |edges|
    ensures |r| <= n
  {
    if n == 0 then []
    else Inbound(edges, d, n - 1) + if edges[n - 1].dst == d then [edges[n - 1]] else []
  }

  lemma {:induction false} InboundPrefix(a: seq<Edge>, b: seq<Edge>, d: nat, n: nat)
    requires n <= |a|
    ensures Inbound(a + b, d, n) == Inbound(a, d, n)
  {
    if n > 0 { InboundPrefix(a, b, d, n - 1); }
  }

  lemma {:induction false} InboundConcat(a: seq<Edge>, b: seq<Edge>, d: nat, n: nat)
    requires n <= |b|
    ensures Inbound(a + b, d, |a| + n) == Inbound(a, d, |a|) + Inbound(b, d, n)
  {
    if n == 0 { InboundPrefix(a, b, d, |a|); } else { InboundConcat(a, b, d, n - 1); }
  }

  lemma {:induction false} InboundUniform(edges: seq<Edge>, dst: nat, d: nat, n: nat)
    requires n <= |edges|
    requires forall k :: 0 <= k < |edges| ==> edges[k].dst == dst
    ensures Inbound(edges, d, n) == if dst == d then edges[..n] else []
  {
    if n > 0 { InboundUniform(edges, dst, d, n - 1); }
  }

  lemma InboundAppend(before: seq<Edge>, block: seq<Edge>, dst: nat, d: nat)
    requires forall k :: 0 <= k < |block| ==> block[k].dst == dst
    ensures Inbound(before + block, d, |before + block|) ==
      Inbound(before, d, |before|) + if dst == d then block else []
  {
    InboundConcat(before, block, d, |block|);
    InboundUniform(block, dst, d, |block|);
    assert block[..|block|] == block;
  }

  lemma {:induction false} BlocksInbound(kept: seq<seq<Arrow>>, n: nat, d: nat)
    requires n <= |kept|
    ensures Inbound(Blocks(kept, n), d, |Blocks(kept, n)|) == if d < n then Block(d, kept[d], |kept[d]|) else []
  {
    if n > 0 {
      BlocksInbound(kept, n - 1, d);
      InboundAppend(Blocks(kept, n - 1), Block(n - 1, kept[n - 1], |kept[n - 1]|), n - 1, d);
    }
  }

  /** Per destination: its own edges, oldest first, ranked from both ends; the
      count and last source agree with them; nothing kept gives (0, -1). */
  lemma MessagesPerDestination(kept: seq<seq<Arrow>>, d: nat, m: MessageEdges, own: seq<Edge>)
    requires d < |kept| && m == Messages(kept)
    requires own == Inbound(m.edges, d, |m.edges|)
    ensures own == Block(d, kept[d], |kept[d]|)
    ensures m.counts[d] == |own|
    ensures m.lastSrc[d] == if own == [] then -1 else own[|own| - 1].src
    ensures forall k :: 0 <= k < |own| ==>
      own[k].position == k && own[k].relative + own[k].position == |own| - 1
  {
    BlocksInbound(kept, |kept|, d);
  }

  /** Every edge is ranked by the number of earlier edges of its destination. */
  ghost predicate WellRanked(edges: seq<Edge>) {
    forall e :: 0 <= e < |edges| ==> Ranked(edges, e)
  }

  ghost predicate Ranked(edges: seq<Edge>, e: nat)
    requires e < |edges|
  {
    edges[e].position == |Inbound(edges, edges[e].dst, e)|
  }

  ghost predicate InRange(edges: seq<Edge>, sources: nat, destinations: nat) {
    forall e :: 0 <= e < |edges| ==> edges[e].src < sources && edges[e].dst < destinations
  }

  lemma {:induction false} AppendBlockRanked(before: seq<Edge>, block: seq<Edge>, d: nat)
    requires WellRanked(before) && Inbound(before, d, |before|) == []
    requires forall k :: 0 <= k < |block| ==> block[k].dst == d && block[k].position == k
    ensures WellRanked(before + block)
  {
    var all := before + block;
    forall e | 0 <= e < |all| ensures Ranked(all, e) {
      if e < |before| {
        assert Ranked(before, e);
        InboundPrefix(before, block, all[e].dst, e);
      } else {
        InboundConcat(before, block, d, e - |before|);
        InboundUniform(block, d, d, e - |before|);
      }
    }
  }

  lemma {:induction false} BlocksWellRanked(kept: seq<seq<Arrow>>, n: nat)
    requires n <= |kept|
    ensures WellRanked(Blocks(kept, n))
  {
    if n > 0 {
      BlocksWellRanked(kept, n - 1);
      BlocksInbound(kept, n - 1, n - 1);
      hide Inbound, WellRanked;
      var before, block := Blocks(kept, n - 1), Block(n - 1, kept[n - 1], |kept[n - 1]|);
      AppendBlockRanked(before, block, n - 1);
      assert Blocks(kept, n) == before + block;
    }
  }

  lemma {:induction false} BlocksInRange(kept: seq<seq<Arrow>>, n: nat, sources: nat)
    requires n <= |kept|
    requires forall d, k :: 0 <= d < |kept| && 0 <= k < |kept[d]| ==> kept[d][k].src < sources
    ensures InRange(Blocks(kept, n), sources, n)
  {
    if n > 0 { BlocksInRange(kept, n - 1, sources); }
  }

  // ---- the nested construction -------------------------------------------

  ghost predicate Maps(ids: seq<nat>, opposite: seq<nat>, mapping: map<nat, nat>) {
    forall k :: 0 <= k < |ids| ==> ids[k] < |opposite| && opposite[ids[k]] in mapping
  }

  /** The first `n` listed events as arrows from their opposite nodes. */
  function Arrows(ids: seq<nat>, opposite: seq<nat>, mapping: map<nat, nat>, n: nat): (r: seq<Arrow>)
    requires Maps(ids, opposite, mapping) && n <= |ids|
    ensures |r| == n
    ensures forall k {:trigger r[k]} :: 0 <= k < n ==> r[k] == Arrow(mapping[opposite[ids[k]]], ids[k])
  {
    if n == 0 then []
    else Arrows(ids, opposite, mapping, n - 1) + [Arrow(mapping[opposite[ids[n - 1]]], ids[n - 1])]
  }

  /** What one destination keeps of its event list: the newest `limit`. */
  function KeptOfList(ids: seq<nat>, opposite: seq<nat>, mapping: map<nat, nat>, limit: nat): (r: seq<Arrow>)
    requires Maps(Last<nat>(ids, limit), opposite, mapping)
  {
    Arrows(Last<nat>(ids, limit), opposite, mapping, |Last<nat>(ids, limit)|)
  }

  ghost predicate AllMapped(incident: seq<seq<nat>>, opposite: seq<nat>, mapping: map<nat, nat>, limit: nat) {
    forall d :: 0 <= d < |incident| ==> Maps(Last<nat>(incident[d], limit), opposite, mapping)
  }

  /** What each of the first `n` destinations keeps. */
  function KeptArrows(incident: seq<seq<nat>>, opposite: seq<nat>, mapping: map<nat, nat>, limit: nat, n: nat)
    : (r: seq<seq<Arrow>>)
    requires n <= |incident| && AllMapped(incident, opposite, mapping, limit)
    ensures |r| == n
  {
    if n == 0 then []
    else
      KeptArrows(incident, opposite, mapping, limit, n - 1) + [KeptOfList(incident[n - 1], opposite, mapping, limit)]
  }

  lemma {:induction false} KeptArrowsAt(incident: seq<seq<nat>>, opposite: seq<nat>, mapping: map<nat, nat>,
                                        limit: nat, n: nat, d: nat)
    requires n <= |incident| && AllMapped(incident, opposite, mapping, limit) && d < n
    ensures KeptArrows(incident, opposite, mapping, limit, n)[d] == KeptOfList(incident[d], opposite, mapping, limit)
  {
    hide Last, Maps, KeptOfList;
    if d < n - 1 { KeptArrowsAt(incident, opposite, mapping, limit, n - 1, d); }
  }

  /** The inner loop of `messages`: rank one destination's chosen events. */
  method RankChosen(dest: nat, chosen: seq<nat>, opposite: seq<nat>, mapping: map<nat, nat>)
    returns (edges: seq<Edge>)
    requires Maps(chosen, opposite, mapping)
    ensures edges == Block(dest, Arrows(chosen, opposite, mapping, |chosen|), |chosen|)
  {
    edges := [];
    for rank := 0 to |chosen|
      invariant edges == Block(dest, Arrows(chosen, opposite, mapping, |chosen|), rank)
    {
      var eid := chosen[rank];
      edges := edges + [Edge(mapping[opposite[eid]], dest, |chosen| - rank - 1, rank, eid)];
    }
  }

  lemma KeptAt(incident: seq<seq<nat>>, opposite: seq<nat>, mapping: map<nat, nat>, limit: nat, d: nat)
    requires AllMapped(incident, opposite, mapping, limit) && d < |incident|
    ensures Maps(Last<nat>(incident[d], limit), opposite, mapping)
    ensures KeptOfList(incident[d], opposite, mapping, limit) ==
      Arrows(Last<nat>(incident[d], limit), opposite, mapping, |Last<nat>(incident[d], limit)|)
  {
    hide Last, Maps, Arrows;
  }

  /** `messages`: nested loops over each destination's chronological event list. */
  method NestedMessages(incident: seq<seq<nat>>, opposite: seq<nat>, mapping: map<nat, nat>, limit: nat)
    returns (r: MessageEdges)
    requires AllMapped(incident, opposite, mapping, limit)
    ensures r == Messages(KeptArrows(incident, opposite, mapping, limit, |incident|))
  {
    hide Last, Arrows, Block, KeptOfList, AllMapped, KeptArrows;
    ghost var kept := KeptArrows(incident, opposite, mapping, limit, |incident|);
    var edges: seq<Edge>, counts: seq<nat>, latest: seq<int> := [], [], [];
    for dest := 0 to |incident|
      invariant edges == Blocks(kept, dest)
      invariant counts == Counts(kept, dest)
      invariant latest == Latest(kept, dest)
    {
      KeptAt(incident, opposite, mapping, limit, dest);
      KeptArrowsAt(incident, opposite, mapping, limit, |incident|, dest);
      var chosen := Last<nat>(incident[dest], limit);
      var count := |chosen|;
      counts := counts + [count];
      latest := latest + [if count > 0 then mapping[opposite[chosen[count - 1]]] else -1];
      var ranked := RankChosen(dest, chosen, opposite, mapping);
      edges := edges + ranked;
    }
    r := MessageEdges(edges, counts, latest);
  }

  // ---- the flat construction -----------------------------------------------

  /** The table positions holding `key`, in table order. */
  function Positions(keys: seq<nat>, key: nat, n: nat): (r: seq<nat>)
    requires n <= |keys|
    ensures forall j {:trigger r[j]} :: 0 <= j < |r| ==> r[j] < n
  {
    if n == 0 then []
    else
      var r := Positions(keys, key, n - 1);
      if keys[n - 1] == key then r + [n - 1] else r
  }

  lemma {:induction false} PositionsSpec(keys: seq<nat>, key: nat, n: nat)
    requires n <= |keys|
    ensures Ascending(Positions(keys, key, n))
    ensures forall k: nat :: k in Positions(keys, key, n) <==> k < n && keys[k] == key
  {
    if n > 0 { PositionsSpec(keys, key, n - 1); }
  }

  function Gather(src: seq<nat>, events: seq<int>, at: seq<nat>, n: nat): (r: seq<Arrow>)
    requires |src| == |events| && n <= |at|
    requires forall j :: 0 <= j < |at| ==> at[j] < |src|
    ensures |r| == n
    ensures forall j {:trigger r[j]} :: 0 <= j < n ==> r[j] == Arrow(src[at[j]], events[at[j]])
  {
    if n == 0 then []
    else Gather(src, events, at, n - 1) + [Arrow(src[at[n - 1]], events[at[n - 1]])]
  }

  /** The newest `limit` rows of one destination. */
  function KeptOf(dst: seq<nat>, src: seq<nat>, events: seq<int>, d: nat, limit: nat): seq<Arrow>
    requires |dst| == |src| == |events|
  {
    var at := Last<nat>(Positions(dst, d, |dst|), limit);
    Gather(src, events, at, |at|)
  }

  /** What the first `n` destinations keep of an edge table: each its newest `limit` rows. */
  function KeptRows(dst: seq<nat>, src: seq<nat>, events: seq<int>, n: nat, limit: nat): (r: seq<seq<Arrow>>)
    requires |dst| == |src| == |events|
    ensures |r| == n
  {
    if n == 0 then []
    else KeptRows(dst, src, events, n - 1, limit) + [KeptOf(dst, src, events, n - 1, limit)]
  }

  lemma {:induction false} KeptRowsAt(dst: seq<nat>, src: seq<nat>, events: seq<int>, n: nat, limit: nat, d: nat)
    requires |dst| == |src| == |events| && d < n
    ensures KeptRows(dst, src, events, n, limit)[d] == KeptOf(dst, src, events, d, limit)
  {
    hide KeptOf;
    if d < n - 1 { KeptRowsAt(dst, src, events, n - 1, limit, d); }
  }

  lemma KeptRowsAre(dst: seq<nat>, src: seq<nat>, events: seq<int>, n: nat, limit: nat)
    requires |dst| == |src| == |events|
    ensures forall d :: 0 <= d < n ==>
      KeptRows(dst, src, events, n, limit)[d] == KeptOf(dst, src, events, d, limit)
  {
    hide KeptOf, KeptRows;
    forall d | 0 <= d < n ensures KeptRows(dst, src, events, n, limit)[d] == KeptOf(dst, src, events, d, limit) {
      KeptRowsAt(dst, src, events, n, limit, d);
    }
  }

  datatype Keyed = Keyed(key: nat, index: nat)

  predicate KeyedBefore(a: Keyed, b: Keyed) {
    a.key < b.key || (a.key == b.key && a.index < b.index)
  }

  function Tagged(keys: seq<nat>, n: nat): (r: seq<Keyed>)
    requires n <= |keys|
    ensures |r| == n
    ensures forall k {:trigger r[k]} :: 0 <= k < n ==> r[k] == Keyed(keys[k], k)
  {
    if n == 0 then [] else Tagged(keys, n - 1) + [Keyed(keys[n - 1], n - 1)]
  }

  /** What `argsort(keys, kind="stable")` returns, each index paired with its key:
      every index once, ordered by key and then by index. */
  ghost predicate IsStableArgsort(keys: seq<nat>, order: seq<Keyed>) {
    && |order| == |keys|
    && (forall p :: 0 <= p < |order| ==> order[p].index < |keys| && keys[order[p].index] == order[p].key)
    && (forall p, q :: 0 <= p < q < |order| ==> KeyedBefore(order[p], order[q]))
    && (forall k {:trigger Keyed(keys[k], k)} :: 0 <= k < |keys| ==> Keyed(keys[k], k) in order)
  }

  function StableArgsort(keys: seq<nat>): (order: seq<Keyed>)
    ensures IsStableArgsort(keys, order)
  {
    StableArgsortSpec(keys);
    Sort(KeyedBefore, Tagged(keys, |keys|))
  }

  lemma {:induction false} StableArgsortSpec(keys: seq<nat>)
    ensures IsStableArgsort(keys, Sort(KeyedBefore, Tagged(keys, |keys|)))
  {
    var t, r := Tagged(keys, |keys|), Sort(KeyedBefore, Tagged(keys, |keys|));
    assert Separates(KeyedBefore, t) by {
      forall i, j | 0 <= i < j < |t| ensures KeyedBefore(t[i], t[j]) || KeyedBefore(t[j], t[i]) {}
    }
    SortSorted(KeyedBefore, t);
    SameMembers(r, t);
    forall p | 0 <= p < |r| ensures r[p].index < |keys| && keys[r[p].index] == r[p].key {
      assert r[p] in t;
    }
    forall k | 0 <= k < |keys| ensures Keyed(keys[k], k) in r {
      assert t[k] in t;
    }
  }

  /** `flatnonzero(diff(keys)) + 1`: where a new group starts. */
  function Boundaries(order: seq<Keyed>, n: nat): (r: seq<nat>)
    requires n <= |order|
    ensures forall j {:trigger r[j]} :: 0 <= j < |r| ==> 0 < r[j] < n
  {
    if n <= 1 then []
    else
      var r := Boundaries(order, n - 1);
      if order[n - 2].key != order[n - 1].key then r + [n - 1] else r
  }

  lemma {:induction false} BoundariesSpec(order: seq<Keyed>, n: nat)
    requires n <= |order|
    ensures Ascending(Boundaries(order, n))
    ensures forall k: nat :: k in Boundaries(order, n) <==> 0 < k < n && order[k - 1].key != order[k].key
  {
    if n > 1 { BoundariesSpec(order, n - 1); }
  }

  lemma {:induction false} SameGroup(order: seq<Keyed>, start: nat, p: nat)
    requires start <= p < |order|
    requires forall k :: start < k <= p ==> order[k - 1].key == order[k].key
    ensures order[p].key == order[start].key
  {
    if start < p { SameGroup(order, start, p - 1); }
  }

  /** The table indices in `order[start..end]`. */
  function Indices(order: seq<Keyed>, start: nat, end: nat): (r: seq<nat>)
    requires start <= end <= |order|
    ensures |r| == end - start
    ensures forall k {:trigger r[k]} :: 0 <= k < end - start ==> r[k] == order[start + k].index
  {
    if start == end then [] else Indices(order, start, end - 1) + [order[end - 1].index]
  }

  /** A maximal run of one key, `order[start..end]`, in the sorted table. */
  ghost predicate MaximalRun(order: seq<Keyed>, start: nat, end: nat) {
    && start < end <= |order|
    && (forall p :: start <= p < end ==> order[p].key == order[start].key)
    && (start > 0 ==> order[start - 1].key != order[start].key)
    && (end < |order| ==> order[end].key != order[start].key)
  }

  lemma {:induction false} RunHoldsKey(keys: seq<nat>, order: seq<Keyed>, start: nat, end: nat, p: nat)
    requires IsStableArgsort(keys, order) && MaximalRun(order, start, end)
    requires p < |order| && order[p].key == order[start].key
    ensures start <= p < end
  {
    if start > 0 {
      assert KeyedBefore(order[start - 1], order[start]);
      forall q | 0 <= q < start ensures order[q].key < order[start].key {
        assert q < start - 1 ==> KeyedBefore(order[q], order[start - 1]);
      }
    }
    if end < |order| {
      assert KeyedBefore(order[start], order[end]);
      forall q | end <= q < |order| ensures order[start].key < order[q].key {
        assert end < q ==> KeyedBefore(order[end], order[q]);
      }
    }
  }

  /** Such a run holds exactly that key's table positions, still in table order. */
  lemma {:induction false} GroupIsPositions(keys: seq<nat>, order: seq<Keyed>, start: nat, end: nat)
    requires IsStableArgsort(keys, order) && MaximalRun(order, start, end)
    ensures Indices(order, start, end) == Positions(keys, order[start].key, |keys|)
  {
    var key := order[start].key;
    PositionsSpec(keys, key, |keys|);
    var a, b := Indices(order, start, end), Positions(keys, key, |keys|);
    assert forall j :: 0 <= j < |a| ==> a[j] == order[start + j].index;
    forall k: nat | k in a ensures k in b {
      var j :| 0 <= j < |a| && a[j] == k;
      assert order[start + j].key == key;
    }
    forall k: nat | k in b ensures k in a {
      assert Keyed(keys[k], k) in order;
      var p :| 0 <= p < |order| && order[p] == Keyed(keys[k], k);
      RunHoldsKey(keys, order, start, end, p);
      assert a[p - start] == k;
    }
    forall i, j | 0 <= i < j < |a| ensures a[i] < a[j] {
      assert KeyedBefore(order[start + i], order[start + j]);
    }
    AscendingUnique(a, b);
  }

  lemma {:induction false} EmptyDestinations(kept: seq<seq<Arrow>>, from: nat, to: nat)
    requires from <= to <= |kept|
    requires forall d :: from <= d < to ==> kept[d] == []
    ensures Blocks(kept, to) == Blocks(kept, from)
  {
    if from < to { EmptyDestinations(kept, from, to - 1); }
  }

  /** `starts` and `ends` of the groups, cut at the boundaries. */
  function Starts(order: seq<Keyed>): seq<nat> { [0] + Boundaries(order, |order|) }

  function Ends(order: seq<Keyed>): seq<nat> { Boundaries(order, |order|) + [|order|] }

  /** Each group is one maximal run, and the groups tile the table. */
  lemma {:induction false} GroupRun(order: seq<Keyed>, g: nat)
    requires order != [] && g < |Starts(order)|
    ensures |Ends(order)| == |Starts(order)|
    ensures MaximalRun(order, Starts(order)[g], Ends(order)[g])
    ensures g + 1 < |Starts(order)| <==> Ends(order)[g] < |order|
    ensures g + 1 < |Starts(order)| ==> Starts(order)[g + 1] == Ends(order)[g]
  {
    BoundariesSpec(order, |order|);
    var cuts := Boundaries(order, |order|);
    var start, end := Starts(order)[g], Ends(order)[g];
    assert g > 0 ==> start == cuts[g - 1] && start in cuts;
    assert g < |cuts| ==> end == cuts[g] && end in cuts;
    forall j | 0 <= j < |cuts| ensures cuts[j] <= start || end <= cuts[j] {
      assert j >= g ==> j == g || cuts[g] < cuts[j];
      assert j < g ==> j == g - 1 || cuts[j] < cuts[g - 1];
    }
    forall k: nat | start < k < end ensures order[k - 1].key == order[k].key {
      assert k !in cuts;
    }
    forall p | start <= p < end ensures order[p].key == order[start].key {
      SameGroup(order, start, p);
    }
    if end < |order| { assert order[end - 1].key == order[start].key; }
  }

  /** The destination of group `g`, or `size` past the last group. */
  function GroupKey(order: seq<Keyed>, g: nat, size: nat): nat
    requires order != [] && g <= |Starts(order)|
  {
    if g < |Starts(order)| then order[Starts(order)[g]].key else size
  }

  lemma {:induction false} NoPositions(keys: seq<nat>, d: nat, n: nat)
    requires n <= |keys|
    requires forall k :: 0 <= k < |keys| ==> keys[k] != d
    ensures Positions(keys, d, n) == []
  {
    if n > 0 { NoPositions(keys, d, n - 1); }
  }

  /** No table row falls strictly between two neighbouring sorted keys. */
  lemma GapEmpty(keys: seq<nat>, order: seq<Keyed>, end: nat, d: nat)
    requires IsStableArgsort(keys, order) && end <= |order|
    requires end > 0 ==> order[end - 1].key < d
    requires end < |order| ==> d < order[end].key
    ensures Positions(keys, d, |keys|) == []
  {
    forall p | 0 <= p < |order| ensures order[p].key != d {
      assert p < end - 1 ==> KeyedBefore(order[p], order[end - 1]);
      assert end < p ==> KeyedBefore(order[end], order[p]);
    }
    forall k | 0 <= k < |keys| ensures keys[k] != d {
      assert Keyed(keys[k], k) in order;
    }
    NoPositions(keys, d, |keys|);
  }

  /** Between group `g` and the next one, destinations keep nothing. */
  lemma GapKept(dst: seq<nat>, src: seq<nat>, events: seq<int>, order: seq<Keyed>, g: nat, size: nat, limit: nat,
                d: nat)
    requires |dst| == |src| == |events| && IsStableArgsort(dst, order)
    requires order != [] && g < |Starts(order)|
    requires order[Starts(order)[g]].key < d < GroupKey(order, g + 1, size)
    ensures KeptOf(dst, src, events, d, limit) == []
  {
    GroupRun(order, g);
    var end := Ends(order)[g];
    assert order[end - 1].key == order[Starts(order)[g]].key;
    GapEmpty(dst, order, end, d);
  }

  lemma {:induction false} GroupKept(dst: seq<nat>, src: seq<nat>, events: seq<int>, order: seq<Keyed>, g: nat,
                                     limit: nat)
    requires |dst| == |src| == |events| && IsStableArgsort(dst, order)
    requires order != [] && g < |Starts(order)|
    ensures |Ends(order)| == |Starts(order)|
    ensures Starts(order)[g] < Ends(order)[g] <= |order|
    ensures var chosen := Last<nat>(Indices(order, Starts(order)[g], Ends(order)[g]), limit);
      && chosen != []
      && (forall j :: 0 <= j < |chosen| ==> chosen[j] < |src|)
      && Gather(src, events, chosen, |chosen|) == KeptOf(dst, src, events, order[Starts(order)[g]].key, limit)
  {
    GroupRun(order, g);
    GroupIsPositions(dst, order, Starts(order)[g], Ends(order)[g]);
  }

  lemma NextGroup(keys: seq<nat>, order: seq<Keyed>, g: nat, size: nat)
    requires IsStableArgsort(keys, order) && order != [] && g < |Starts(order)|
    requires forall k :: 0 <= k < |keys| ==> keys[k] < size
    ensures order[Starts(order)[g]].key < GroupKey(order, g + 1, size) <= size
  {
    GroupRun(order, g);
    var start, end := Starts(order)[g], Ends(order)[g];
    if end < |order| { assert KeyedBefore(order[start], order[end]); }
  }

  /** One group of the loop below: its rows are what its destination keeps, and
      the destinations before the `next` group's keep nothing. */
  lemma {:induction false} GroupStep(dst: seq<nat>, src: seq<nat>, events: seq<int>, order: seq<Keyed>, g: nat,
                                     size: nat, limit: nat, kept: seq<seq<Arrow>>, dest: nat, next: nat)
    requires |dst| == |src| == |events| && IsStableArgsort(dst, order)
    requires forall k :: 0 <= k < |dst| ==> dst[k] < size
    requires order != [] && g < |Starts(order)|
    requires kept == KeptRows(dst, src, events, size, limit)
    requires dest == GroupKey(order, g, size) && next == GroupKey(order, g + 1, size)
    ensures dest < next <= size
    ensures kept[dest] == KeptOf(dst, src, events, dest, limit)
    ensures Blocks(kept, next) == Blocks(kept, dest) + Block(dest, kept[dest], |kept[dest]|)
    ensures forall d :: dest < d < next ==> kept[d] == []
  {
    hide IsStableArgsort, KeptOf, KeptRows;
    KeptRowsAre(dst, src, events, size, limit);
    NextGroup(dst, order, g, size);
    forall d | dest < d < next ensures kept[d] == [] {
      GapKept(dst, src, events, order, g, size, limit, d);
    }
    EmptyDestinations(kept, dest + 1, next);
  }

  lemma NothingBefore(dst: seq<nat>, src: seq<nat>, events: seq<int>, order: seq<Keyed>, size: nat, limit: nat, n: nat)
    requires |dst| == |src| == |events| && IsStableArgsort(dst, order)
    requires n <= size && (order != [] ==> n <= order[0].key)
    ensures forall d :: 0 <= d < n ==> KeptRows(dst, src, events, size, limit)[d] == []
    ensures Blocks(KeptRows(dst, src, events, size, limit), n) == []
  {
    var kept := KeptRows(dst, src, events, size, limit);
    KeptRowsAre(dst, src, events, size, limit);
    hide KeptRows;
    forall d | 0 <= d < n ensures kept[d] == [] {
      GapEmpty(dst, order, 0, d);
    }
    EmptyDestinations(kept, 0, n);
  }

  /** The rows of one group, as the destination's own arrows. */
  method GroupRows(dst: seq<nat>, src: seq<nat>, events: seq<int>, grouping: seq<Keyed>, g: nat, limit: nat)
    returns (rows: seq<Arrow>)
    requires |dst| == |src| == |events| && IsStableArgsort(dst, grouping)
    requires grouping != [] && g < |Starts(grouping)|
    ensures rows != []
    ensures rows == KeptOf(dst, src, events, grouping[Starts(grouping)[g]].key, limit)
  {
    hide *;
    GroupKept(dst, src, events, grouping, g, limit);
    var chosen := Last<nat>(Indices(grouping, Starts(grouping)[g], Ends(grouping)[g]), limit);
    rows := Gather(src, events, chosen, |chosen|);
  }

  /** `_messages`: one stable argsort, group boundaries, the last `limit` of each group. */
  method FlatMessages(dst: seq<nat>, src: seq<nat>, events: seq<int>, size: nat, limit: nat) returns (r: MessageEdges)
    requires |dst| == |src| == |events|
    requires forall k :: 0 <= k < |dst| ==> dst[k] < size
    ensures r == Messages(KeptRows(dst, src, events, size, limit))
  {
    hide *;
    ghost var kept := KeptRows(dst, src, events, size, limit);
    var edges: seq<Edge> := [];
    var counts: seq<nat> := seq(size, _ => 0);
    var latest: seq<int> := seq(size, _ => -1);
    var grouping := StableArgsort(dst);
    ArgsortSize(dst, grouping);
    ghost var done := size;
    NewestIs([]);
    if |dst| > 0 {
      var groups := |Starts(grouping)|;
      FirstAndLastGroup(dst, grouping, size);
      done := GroupKey(grouping, 0, size);
      NothingBefore(dst, src, events, grouping, size, limit, done);
      for g := 0 to groups
        invariant |counts| == |latest| == size
        invariant done == GroupKey(grouping, g, size) && done <= size
        invariant edges == Blocks(kept, done)
        invariant forall d :: 0 <= d < done ==> counts[d] == |kept[d]| && latest[d] == Newest(kept[d])
        invariant forall d :: done <= d < size ==> counts[d] == 0 && latest[d] == -1
      {
        GroupKeyIs(grouping, g, size);
        var dest := grouping[Starts(grouping)[g]].key;
        ghost var next := GroupKey(grouping, g + 1, size);
        GroupStep(dst, src, events, grouping, g, size, limit, kept, dest, next);
        var rows := GroupRows(dst, src, events, grouping, g, limit);
        NewestIs(rows);
        counts := counts[dest := |rows|];
        latest := latest[dest := rows[|rows| - 1].src];
        edges := edges + Block(dest, rows, |rows|);
        done := next;
      }
    } else {
      NothingBefore(dst, src, events, grouping, size, limit, size);
    }
    assert counts == Counts(kept, size);
    assert latest == Latest(kept, size);
    r := MessageEdges(edges, counts, latest);
    MessagesAre(kept);
  }

  lemma NewestIs(chosen: seq<Arrow>)
    ensures Newest(chosen) == if chosen == [] then -1 else chosen[|chosen| - 1].src
  {
  }

  lemma MessagesAre(kept: seq<seq<Arrow>>)
    ensures Messages(kept) == MessageEdges(Blocks(kept, |kept|), Counts(kept, |kept|), Latest(kept, |kept|))
  {
  }

  lemma ArgsortSize(keys: seq<nat>, order: seq<Keyed>)
    requires IsStableArgsort(keys, order)
    ensures |order| == |keys|
  {
  }

  lemma FirstAndLastGroup(keys: seq<nat>, order: seq<Keyed>, size: nat)
    requires IsStableArgsort(keys, order) && order != []
    requires forall k :: 0 <= k < |keys| ==> keys[k] < size
    ensures |Starts(order)| > 0 && GroupKey(order, 0, size) == order[0].key <= size
    ensures GroupKey(order, |Starts(order)|, size) == size
  {
  }

  lemma GroupKeyIs(order: seq<Keyed>, g: nat, size: nat)
    requires order != [] && g < |Starts(order)|
    ensures Starts(order)[g] < |order| && GroupKey(order, g, size) == order[Starts(order)[g]].key
  {
  }

  // ---- the two constructions agree ------------------------------------------

  /** The nested list of destination `d`: events appended in table order. */
  function Listed(eids: seq<nat>, dst: seq<nat>, d: nat, n: nat): (r: seq<nat>)
    requires n <= |eids| == |dst|
  {
    if n == 0 then []
    else Listed(eids, dst, d, n - 1) + if dst[n - 1] == d then [eids[n - 1]] else []
  }

  lemma {:induction false} ListedPositions(eids: seq<nat>, dst: seq<nat>, d: nat, n: nat)
    requires n <= |eids| == |dst|
    ensures |Listed(eids, dst, d, n)| == |Positions(dst, d, n)|
    ensures forall j :: 0 <= j < |Positions(dst, d, n)| ==>
      Listed(eids, dst, d, n)[j] == eids[Positions(dst, d, n)[j]]
  {
    if n > 0 { ListedPositions(eids, dst, d, n - 1); }
  }

  lemma {:induction false} SameKept(eids: seq<nat>, dst: seq<nat>, src: seq<nat>, opposite: seq<nat>,
                                    mapping: map<nat, nat>, limit: nat, d: nat, ids: seq<nat>)
    requires |eids| == |dst| == |src|
    requires forall k :: 0 <= k < |eids| ==>
      eids[k] < |opposite| && opposite[eids[k]] in mapping && src[k] == mapping[opposite[eids[k]]]
    requires ids == Listed(eids, dst, d, |dst|)
    ensures Maps(Last(ids, limit), opposite, mapping)
    ensures KeptOf(dst, src, eids, d, limit) == KeptOfList(ids, opposite, mapping, limit)
  {
    hide Last, Listed;
    ListedPositions(eids, dst, d, |dst|);
    var at := Positions(dst, d, |dst|);
    var rows, chosen := Last(at, limit), Last(ids, limit);
    forall j | 0 <= j < |chosen|
      ensures rows[j] < |dst| && chosen[j] == eids[rows[j]]
    {
      LastEntry(ids, limit, j);
      LastEntry(at, limit, j);
    }
    assert Gather(src, eids, rows, |rows|) == Arrows(chosen, opposite, mapping, |chosen|);
  }

  /** For every edge table, grouping it flat and nesting it per destination give
      the same messages, destinations without edges included. */
  lemma {:induction false} FlatIsNested(eids: seq<nat>, dst: seq<nat>, src: seq<nat>, opposite: seq<nat>,
                                        mapping: map<nat, nat>, limit: nat, incident: seq<seq<nat>>)
    requires |eids| == |dst| == |src|
    requires forall k :: 0 <= k < |eids| ==>
      eids[k] < |opposite| && opposite[eids[k]] in mapping && src[k] == mapping[opposite[eids[k]]]
    requires forall d :: 0 <= d < |incident| ==> incident[d] == Listed(eids, dst, d, |dst|)
    ensures AllMapped(incident, opposite, mapping, limit)
    ensures Messages(KeptRows(dst, src, eids, |incident|, limit)) ==
      Messages(KeptArrows(incident, opposite, mapping, limit, |incident|))
  {
    forall d | 0 <= d < |incident|
      ensures Maps(Last(incident[d], limit), opposite, mapping)
      ensures KeptOf(dst, src, eids, d, limit) == KeptOfList(incident[d], opposite, mapping, limit)
    {
      SameKept(eids, dst, src, opposite, mapping, limit, d, incident[d]);
    }
    hide KeptOf, KeptOfList, Last, Maps, Listed, KeptArrows;
    hide KeptRows;
    var flat := KeptRows(dst, src, eids, |incident|, limit);
    var nested := KeptArrows(incident, opposite, mapping, limit, |incident|);
    forall d | 0 <= d < |incident| ensures flat[d] == nested[d] {
      KeptRowsAt(dst, src, eids, |incident|, limit, d);
      KeptArrowsAt(incident, opposite, mapping, limit, |incident|, d);
    }
    assert flat == nested;
  }
}
