/** What holds of every sample: visible edges only, no isolated node, local indices
    in range, ranks below `position_capacity`. */
module SampleShape {
  import opened Sorting
  import opened TemporalGraph
  import opened Reach
  import opened Induced
  import opened Messaging
  import opened Sampler

  // ---- no sampled node is isolated ------------------------------------------

  ghost predicate HasEdge(g: Graph, cutoff: int, nodes: Nodes, side: Side, node: nat)
    requires g.Valid()
  {
    exists e :: e in EdgeSet(g, cutoff, nodes) && g.log.Column(side)[e] == node
  }

  ghost predicate Connected(g: Graph, cutoff: int, nodes: Nodes)
    requires g.Valid()
  {
    && (forall u :: u in nodes.users ==> HasEdge(g, cutoff, nodes, User, u))
    && (forall i :: i in nodes.items ==> HasEdge(g, cutoff, nodes, Item, i))
  }

  /** A node found by a lookup has the event that found it as an induced edge. */
  lemma {:induction false} FoundHasEdge(g: Graph, cfg: Config, cutoff: int, side: Side, from: set<nat>, nodes: Nodes,
                                        w: nat)
    requires g.Valid() && w in Across(g, cfg, side, cutoff, from)
    requires from <= (if side.User? then nodes.users else nodes.items)
    requires w in (if side.User? then nodes.items else nodes.users)
    ensures HasEdge(g, cutoff, nodes, side.Other(), w)
  {
    var v :| v in from && w in Neighbors(g, cfg, side, cutoff, v);
    RecentIsNewest(g, side, v, cutoff, cfg.Limit(side));
    var e :| e in g.Recent(side, v, cutoff, cfg.Limit(side)) && g.log.Column(side.Other())[e] == w;
    assert e in EdgeSet(g, cutoff, nodes);
  }

  lemma GrowKeepsEdge(g: Graph, cutoff: int, a: Nodes, b: Nodes, side: Side, node: nat)
    requires g.Valid() && a.users <= b.users && a.items <= b.items
    requires HasEdge(g, cutoff, a, side, node)
    ensures HasEdge(g, cutoff, b, side, node)
  {
    var e :| e in EdgeSet(g, cutoff, a) && g.log.Column(side)[e] == node;
    assert e in EdgeSet(g, cutoff, b);
  }

  lemma RoundConnected(g: Graph, cfg: Config, cutoff: int, s: Nodes)
    requires g.Valid() && Connected(g, cutoff, s)
    ensures Connected(g, cutoff, Round(g, cfg, cutoff, {}, s))
  {
    hide Across, HasEdge;
    var t := Round(g, cfg, cutoff, {}, s);
    forall u | u in t.users ensures HasEdge(g, cutoff, t, User, u) {
      if u in s.users { GrowKeepsEdge(g, cutoff, s, t, User, u); }
      else { FoundHasEdge(g, cfg, cutoff, Item, s.items, t, u); }
    }
    forall i | i in t.items ensures HasEdge(g, cutoff, t, Item, i) {
      if i in s.items { GrowKeepsEdge(g, cutoff, s, t, Item, i); }
      else { FoundHasEdge(g, cfg, cutoff, User, t.users, t, i); }
    }
  }

  lemma {:induction false} StartConnected(g: Graph, cfg: Config, user: nat, cutoff: int)
    requires g.Valid() && g.Recent(User, user, cutoff, cfg.recentItems) != []
    ensures Connected(g, cutoff, Start(g, cfg, user, cutoff))
  {
    var s := Start(g, cfg, user, cutoff);
    RecentIsNewest(g, User, user, cutoff, cfg.recentItems);
    var events := g.Recent(User, user, cutoff, cfg.recentItems);
    hide Before, Across, Last;
    forall e | e in events ensures e in EdgeSet(g, cutoff, s) {}
    hide EdgeSet;
    assert events[0] in events;
    assert g.log.Column(User)[events[0]] == user;
    forall i | i in s.items ensures HasEdge(g, cutoff, s, Item, i) {
      var e :| e in events && g.log.items[e] == i;
      assert g.log.Column(Item)[e] == i;
    }
  }

  lemma {:induction false} RoundsConnected(g: Graph, cfg: Config, user: nat, cutoff: int, n: nat)
    requires g.Valid() && g.Recent(User, user, cutoff, cfg.recentItems) != []
    ensures Connected(g, cutoff, Rounds(g, cfg, cutoff, {}, Start(g, cfg, user, cutoff), n))
  {
    hide Connected, Start, Round;
    if n == 0 {
      StartConnected(g, cfg, user, cutoff);
    } else {
      RoundsConnected(g, cfg, user, cutoff, n - 1);
      RoundConnected(g, cfg, cutoff, Rounds(g, cfg, cutoff, {}, Start(g, cfg, user, cutoff), n - 1));
    }
  }

  // ---- position capacity -------------------------------------------------------

  /** `len(by_user[node])` or `len(by_item[node])` over the whole log. */
  ghost function Degree(log: Log, side: Side, node: nat): nat
    requires log.Valid()
  {
    |set e: nat | e < |log.users| && log.Column(side)[e] == node|
  }

  /** The largest degree among the nodes of the first `n` events. */
  ghost function MaxDegree(log: Log, side: Side, n: nat): (m: nat)
    requires log.Valid() && n <= |log.users|
    ensures forall e :: 0 <= e < n ==> Degree(log, side, log.Column(side)[e]) <= m
  {
    if n == 0 then 0
    else
      var m, d := MaxDegree(log, side, n - 1), Degree(log, side, log.Column(side)[n - 1]);
      if m < d then d else m
  }

  /** `position_capacity`. */
  ghost function PositionCapacity(log: Log, cfg: Config): nat
    requires log.Valid()
  {
    var userMax := Smaller(cfg.recentItems, MaxDegree(log, User, |log.users|));
    var itemDegree := MaxDegree(log, Item, |log.users|);
    var itemMax := if cfg.itemNeighborLimit != 0 then Smaller(itemDegree, cfg.itemNeighborLimit) else itemDegree;
    if userMax < 1 && itemMax < 1 then 1 else if userMax < itemMax then itemMax else userMax
  }

  /** Some event's node has the largest degree. */
  lemma {:induction false} MaxDegreeFound(log: Log, side: Side, n: nat) returns (e: nat)
    requires log.Valid() && 0 < n <= |log.users|
    ensures e < n && Degree(log, side, log.Column(side)[e]) == MaxDegree(log, side, n)
  {
    hide Degree;
    if n == 1 || MaxDegree(log, side, n) != MaxDegree(log, side, n - 1) {
      e := n - 1;
    } else {
      e := MaxDegreeFound(log, side, n - 1);
    }
  }

  /** The capacity is the least number, from 1 on, that no user's degree cut to
      `recent_items` and no item's degree cut to a nonzero `item_neighbor_limit` exceeds. */
  lemma {:induction false} CapacityIsLeast(log: Log, cfg: Config, c: nat)
    requires log.Valid() && cfg.Valid()
    ensures PositionCapacity(log, cfg) <= c <==>
      && c >= 1
      && (forall e: nat :: e < |log.users| ==> Degree(log, User, log.users[e]) <= c || cfg.recentItems <= c)
      && (forall e: nat :: e < |log.users| ==>
            Degree(log, Item, log.items[e]) <= c || 0 < cfg.itemNeighborLimit <= c)
  {
    var n := |log.users|;
    if n > 0 {
      var u := MaxDegreeFound(log, User, n);
      var i := MaxDegreeFound(log, Item, n);
      hide Degree, MaxDegree;
      assert Degree(log, User, log.users[u]) == MaxDegree(log, User, n);
      assert Degree(log, Item, log.items[i]) == MaxDegree(log, Item, n);
      forall e: nat | e < n
        ensures Degree(log, User, log.users[e]) <= MaxDegree(log, User, n)
        ensures Degree(log, Item, log.items[e]) <= MaxDegree(log, Item, n)
      {
        assert log.Column(User)[e] == log.users[e] && log.Column(Item)[e] == log.items[e];
      }
    }
  }

  lemma {:induction false} AtWithinDegree(g: Graph, cutoff: int, nodes: Nodes, side: Side, node: nat)
    requires g.Valid()
    ensures |At(g, cutoff, nodes, side, node)| <= MaxDegree(g.log, side, |g.log.users|)
  {
    var ids := At(g, cutoff, nodes, side, node);
    if ids != [] {
      var all := set e: nat | e < |g.log.users| && g.log.Column(side)[e] == node;
      assert ids[0] in ids;
      assert Degree(g.log, side, node) <= MaxDegree(g.log, side, |g.log.users|);
      hide MaxDegree;
      SortDistinct(ids);
      SubsetSize(SetOf(ids), all);
      assert |all| == Degree(g.log, side, node);
    }
  }

  // ---- the shape of one side's messages -----------------------------------------

  /** One side of a sample, `sources` nodes sending to `destinations` nodes. */
  ghost predicate WellShaped(m: MessageEdges, sources: nat, destinations: nat) {
    && |m.counts| == |m.lastSrc| == destinations
    && InRange(m.edges, sources, destinations)
    && WellRanked(m.edges)
    && (forall d :: 0 <= d < destinations ==> m.counts[d] >= 1 && 0 <= m.lastSrc[d] < sources)
  }

  /** Every rank indexes an embedding table of `capacity` rows. */
  ghost predicate RanksBelow(edges: seq<Edge>, capacity: nat) {
    forall e :: 0 <= e < |edges| ==> edges[e].position < capacity && edges[e].relative < capacity
  }

  /** The ranks fit exactly when no destination keeps more than `capacity` edges. */
  lemma {:induction false} RanksBelowIff(kept: seq<seq<Arrow>>, n: nat, capacity: nat)
    requires n <= |kept|
    ensures RanksBelow(Blocks(kept, n), capacity) <==> forall d :: 0 <= d < n ==> |kept[d]| <= capacity
  {
    if n > 0 {
      RanksBelowIff(kept, n - 1, capacity);
      var before, block := Blocks(kept, n - 1), Block(n - 1, kept[n - 1], |kept[n - 1]|);
      hide Blocks;
      assert Blocks(kept, n) == before + block by { BlocksStep(kept, n); }
      RanksBelowBoth(before, block, capacity);
      if |block| > 0 { assert block[0].relative == |kept[n - 1]| - 1; }
    }
  }

  lemma BlocksStep(kept: seq<seq<Arrow>>, n: nat)
    requires 0 < n <= |kept|
    ensures Blocks(kept, n) == Blocks(kept, n - 1) + Block(n - 1, kept[n - 1], |kept[n - 1]|)
  {
  }

  lemma RanksBelowBoth(a: seq<Edge>, b: seq<Edge>, capacity: nat)
    ensures RanksBelow(a + b, capacity) <==> RanksBelow(a, capacity) && RanksBelow(b, capacity)
  {
    forall e | 0 <= e < |b| ensures (a + b)[|a| + e] == b[e] {}
    forall e | 0 <= e < |a| ensures (a + b)[e] == a[e] {}
  }

  /** What one destination keeps: something, from known sources. */
  ghost predicate KeptWell(chosen: seq<Arrow>, sources: nat) {
    chosen != [] && forall k :: 0 <= k < |chosen| ==> chosen[k].src < sources
  }

  lemma {:induction false} MessagesShaped(kept: seq<seq<Arrow>>, sources: nat)
    requires forall d :: 0 <= d < |kept| ==> KeptWell(kept[d], sources)
    ensures WellShaped(Messages(kept), sources, |kept|)
  {
    forall d | 0 <= d < |kept| ensures |kept[d]| >= 1 && 0 <= Newest(kept[d]) < sources {
      assert KeptWell(kept[d], sources);
    }
    forall d, k | 0 <= d < |kept| && 0 <= k < |kept[d]| ensures kept[d][k].src < sources {
      assert KeptWell(kept[d], sources);
    }
    BlocksInRange(kept, |kept|, sources);
    BlocksWellRanked(kept, |kept|);
    hide Blocks, WellRanked, InRange, KeptWell;
  }

  lemma {:induction false} MessagesBelow(kept: seq<seq<Arrow>>, capacity: nat)
    ensures var m := Messages(kept);
      RanksBelow(m.edges, capacity) <==> forall d :: 0 <= d < |m.counts| ==> m.counts[d] <= capacity
  {
    RanksBelowIff(kept, |kept|, capacity);
    MessagesAre(kept);
    hide Blocks, RanksBelow, Messages;
    var counts := Counts(kept, |kept|);
    assert forall d :: 0 <= d < |kept| ==> |kept[d]| == counts[d];
  }

  lemma KeptSources(ids: seq<nat>, opposite: seq<nat>, mapping: map<nat, nat>, limit: nat, sources: nat)
    requires Maps(Last(ids, limit), opposite, mapping) && ids != []
    requires forall v :: v in mapping ==> mapping[v] < sources
    ensures |KeptOfList(ids, opposite, mapping, limit)| == |Last(ids, limit)|
    ensures KeptWell(KeptOfList(ids, opposite, mapping, limit), sources)
  {
  }

  lemma CapacityCovers(log: Log, cfg: Config, side: Side, ids: seq<nat>)
    requires log.Valid() && cfg.Valid() && |ids| <= MaxDegree(log, side, |log.users|)
    ensures |Last(ids, cfg.Limit(side))| <= PositionCapacity(log, cfg)
  {
    hide MaxDegree;
  }

  lemma {:induction false} KeptShaped(g: Graph, cfg: Config, cutoff: int, nodes: Nodes, side: Side, node: nat,
                                      ids: seq<nat>, opposite: seq<nat>, mapping: map<nat, nat>, limit: nat)
    requires g.Valid() && cfg.Valid() && HasEdge(g, cutoff, nodes, side, node)
    requires ids == At(g, cutoff, nodes, side, node) && mapping == Local(Asc(Opposite(nodes, side)))
    requires limit == cfg.Limit(side) && Maps(Last(ids, limit), opposite, mapping)
    ensures KeptWell(KeptOfList(ids, opposite, mapping, limit), |Opposite(nodes, side)|)
    ensures |KeptOfList(ids, opposite, mapping, limit)| <= PositionCapacity(g.log, cfg)
  {
    hide *;
    ValidLog(g);
    LocalBounds(Opposite(nodes, side), mapping);
    SomeEdge(g, cutoff, nodes, side, node);
    AtWithinDegree(g, cutoff, nodes, side, node);
    CapacityCovers(g.log, cfg, side, ids);
    KeptSources(ids, opposite, mapping, limit, |Opposite(nodes, side)|);
  }

  lemma LocalBounds(nodes: set<nat>, mapping: map<nat, nat>)
    requires mapping == Local(Asc(nodes))
    ensures forall v :: v in mapping ==> mapping[v] < |nodes|
  {
    hide Local, Asc;
  }

  lemma SomeEdge(g: Graph, cutoff: int, nodes: Nodes, side: Side, node: nat)
    requires g.Valid() && HasEdge(g, cutoff, nodes, side, node)
    ensures At(g, cutoff, nodes, side, node) != []
  {
    var e :| e in EdgeSet(g, cutoff, nodes) && g.log.Column(side)[e] == node;
    hide EdgeSet;
    assert e in At(g, cutoff, nodes, side, node);
  }

  lemma {:induction false} EachShaped(g: Graph, cfg: Config, cutoff: int, nodes: Nodes, side: Side, order: seq<nat>,
                                      mapping: map<nat, nat>, lists: seq<seq<nat>>)
    requires g.Valid() && cfg.Valid()
    requires forall d :: 0 <= d < |order| ==> HasEdge(g, cutoff, nodes, side, order[d])
    requires mapping == Local(Asc(Opposite(nodes, side)))
    requires lists == Lists(g, cutoff, nodes, side, order, |order|)
    requires AllMapped(lists, g.log.Column(side.Other()), mapping, cfg.Limit(side))
    ensures var m := Messages(KeptArrows(lists, g.log.Column(side.Other()), mapping, cfg.Limit(side), |order|));
      WellShaped(m, |Opposite(nodes, side)|, |order|) && RanksBelow(m.edges, PositionCapacity(g.log, cfg))
  {
    hide HasEdge, At, KeptOfList, KeptArrows, PositionCapacity, Opposite, Local, Asc, Messages, WellShaped, Last,
         KeptWell, RanksBelow, Maps;
    var kept: seq<seq<Arrow>> := KeptArrows(lists, g.log.Column(side.Other()), mapping, cfg.Limit(side), |order|);
    forall d | 0 <= d < |order|
      ensures KeptWell(kept[d], |Opposite(nodes, side)|) && |kept[d]| <= PositionCapacity(g.log, cfg)
    {
      KeptArrowsAt(lists, g.log.Column(side.Other()), mapping, cfg.Limit(side), |order|, d);
      KeptShaped(g, cfg, cutoff, nodes, side, order[d], lists[d], g.log.Column(side.Other()), mapping,
                 cfg.Limit(side));
    }
    MessagesShaped(kept, |Opposite(nodes, side)|);
    RanksBelowIff(kept, |kept|, PositionCapacity(g.log, cfg));
    MessagesAre(kept);
  }

  lemma {:induction false} ReceivedShaped(g: Graph, cfg: Config, cutoff: int, nodes: Nodes, side: Side)
    requires g.Valid() && cfg.Valid() && Connected(g, cutoff, nodes)
    ensures WellShaped(Received(g, cfg, cutoff, nodes, side), |Opposite(nodes, side)|,
                       |Opposite(nodes, side.Other())|)
    ensures RanksBelow(Received(g, cfg, cutoff, nodes, side).edges, PositionCapacity(g.log, cfg))
  {
    var order := Asc(if side.User? then nodes.users else nodes.items);
    assert |order| == |Opposite(nodes, side.Other())|;
    forall d | 0 <= d < |order| ensures HasEdge(g, cutoff, nodes, side, order[d]) {
      assert order[d] in order;
    }
    hide HasEdge, At, PositionCapacity, AllMapped, Opposite, Connected, Messages, WellShaped, RanksBelow, Local, Asc;
    ListsMapped(g, cutoff, nodes, side, order, cfg.Limit(side));
    EachShaped(g, cfg, cutoff, nodes, side, order, Local(Asc(Opposite(nodes, side))),
               Lists(g, cutoff, nodes, side, order, |order|));
  }

  /** Every sample is well formed. */
  lemma {:induction false} SampleWellFormed(g: Graph, cfg: Config, user: nat, cutoff: int, s: GraphSample)
    requires g.Valid() && cfg.Valid()
    requires Expected(g, cfg, user, cutoff) == Sampled(s)
    ensures forall e :: e in s.inducedEvents ==>
      g.Visible(e, cutoff) && g.log.users[e] in s.users && g.log.items[e] in s.items
    ensures s.root < |s.users| && s.users[s.root] == user
    ensures WellShaped(s.toUsers, |s.items|, |s.users|) && RanksBelow(s.toUsers.edges, PositionCapacity(g.log, cfg))
    ensures WellShaped(s.toItems, |s.users|, |s.items|) && RanksBelow(s.toItems.edges, PositionCapacity(g.log, cfg))
  {
    hide *;
    var nodes := Reached(g, cfg, user, cutoff);
    ExpectedSample(g, cfg, user, cutoff, s);
    ReachedConnected(g, cfg, user, cutoff);
    SampleParts(g, cfg, nodes, user, cutoff, s);
    ReceivedShaped(g, cfg, cutoff, nodes, User);
    ReceivedShaped(g, cfg, cutoff, nodes, Item);
    InducedVisible(g, cutoff, nodes);
  }

  lemma ReachedConnected(g: Graph, cfg: Config, user: nat, cutoff: int)
    requires g.Valid() && g.Recent(User, user, cutoff, cfg.recentItems) != []
    ensures Connected(g, cutoff, Reached(g, cfg, user, cutoff))
  {
    RoundsConnected(g, cfg, user, cutoff, cfg.samplingOrder + 1);
    hide Rounds, Connected, Before, Start;
  }

  lemma InducedVisible(g: Graph, cutoff: int, nodes: Nodes)
    requires g.Valid()
    ensures forall e :: e in Asc(EdgeSet(g, cutoff, nodes)) ==>
      g.Visible(e, cutoff) && g.log.users[e] in Asc(nodes.users) && g.log.items[e] in Asc(nodes.items)
  {
    hide Asc;
  }
}
