/** What a sample contains and when there is none, read off the log, the visibility mask and the limits. */
module SampleContents {
  import opened Sorting
  import opened TemporalGraph
  import opened Reach
  import opened Induced
  import opened Messaging
  import opened Sampler
  import opened SampleShape
  import opened VirtualRoot

  // ---- refusals --------------------------------------------------------------------

  /** Sampling is refused for a user without visible events, then for too many nodes,
      then for too many induced edges (a limit of 0 refuses nothing), and not otherwise. */
  lemma {:induction false} SampleOutcomes(g: Graph, cfg: Config, user: nat, cutoff: int, nodes: Nodes, some: bool)
    requires g.Valid() && nodes == Reached(g, cfg, user, cutoff)
    requires some <==> exists e: nat :: e < |g.allowed| && g.allowed[e] && e <= cutoff && g.log.users[e] == user
    ensures Expected(g, cfg, user, cutoff) == Refused(NoHistory) <==> !some
    ensures Expected(g, cfg, user, cutoff) == Refused(NodeLimit) <==>
      some && cfg.maxSampleNodes != 0 && |nodes.users| + |nodes.items| > cfg.maxSampleNodes
    ensures Expected(g, cfg, user, cutoff) == Refused(EdgeLimit) <==>
      && some && !(cfg.maxSampleNodes != 0 && |nodes.users| + |nodes.items| > cfg.maxSampleNodes)
      && cfg.maxSampleEdges != 0 && |EdgeSet(g, cutoff, nodes)| > cfg.maxSampleEdges
  {
    hide *;
    SomeEvent(g, cfg, user, cutoff, some);
    ExpectedCases(g, cfg, user, cutoff, nodes, g.Recent(User, user, cutoff, cfg.recentItems));
  }

  lemma ExpectedCases(g: Graph, cfg: Config, user: nat, cutoff: int, nodes: Nodes, recent: seq<nat>)
    requires g.Valid() && nodes == Reached(g, cfg, user, cutoff)
    requires recent == g.Recent(User, user, cutoff, cfg.recentItems)
    ensures Expected(g, cfg, user, cutoff) == Refused(NoHistory) <==> recent == []
    ensures Expected(g, cfg, user, cutoff) == Refused(NodeLimit) <==>
      recent != [] && cfg.maxSampleNodes != 0 && |nodes.users| + |nodes.items| > cfg.maxSampleNodes
    ensures Expected(g, cfg, user, cutoff) == Refused(EdgeLimit) <==>
      && recent != [] && !(cfg.maxSampleNodes != 0 && |nodes.users| + |nodes.items| > cfg.maxSampleNodes)
      && cfg.maxSampleEdges != 0 && |EdgeSet(g, cutoff, nodes)| > cfg.maxSampleEdges
  {
    hide Reached, EdgeSet, SampleOf, Graph.Recent;
    RootReached(g, cfg, user, cutoff);
  }

  lemma SomeEvent(g: Graph, cfg: Config, user: nat, cutoff: int, some: bool)
    requires g.Valid()
    requires some <==> exists e: nat :: e < |g.allowed| && g.allowed[e] && e <= cutoff && g.log.users[e] == user
    ensures some <==> g.Recent(User, user, cutoff, cfg.recentItems) != []
  {
    RecentIsNewest(g, User, user, cutoff, cfg.recentItems);
    var all := g.Recent(User, user, cutoff, 0);
    hide Before;
    if all != [] { assert all[0] in all; }
    assert |Last<nat>(all, cfg.recentItems)| == 0 <==> all == [];
  }

  /** Encoding a history is refused for too many nodes, then for too many edges, the
      whole history counted, and not otherwise. */
  lemma {:induction false} VirtualOutcomes(g: Graph, cfg: Config, cutoff: int, history: seq<HistoryEvent>, root: Root,
                                           nodes: Nodes)
    requires g.Valid() && nodes == VirtualReached(g, cfg, cutoff, history, root)
    ensures VirtualExpected(g, cfg, cutoff, history, root) == Refused(NodeLimit) <==>
      cfg.maxSampleNodes != 0 && |nodes.users| + |nodes.items| > cfg.maxSampleNodes
    ensures VirtualExpected(g, cfg, cutoff, history, root) == Refused(EdgeLimit) <==>
      && !(cfg.maxSampleNodes != 0 && |nodes.users| + |nodes.items| > cfg.maxSampleNodes)
      && cfg.maxSampleEdges != 0 && |EdgeSet(g, cutoff, nodes)| + |history| > cfg.maxSampleEdges
    ensures VirtualExpected(g, cfg, cutoff, history, root) != Refused(NoHistory)
  {
    hide VirtualReached, EdgeSet, VirtualSample;
  }

  // ---- contents ----------------------------------------------------------------------

  /** A sample's events are exactly the visible ones up to the cutoff between its nodes. */
  lemma {:induction false} SampleEvents(g: Graph, cfg: Config, user: nat, cutoff: int, s: GraphSample, e: nat)
    requires g.Valid() && Expected(g, cfg, user, cutoff) == Sampled(s)
    ensures |g.log.users| == |g.log.items| == |g.allowed|
    ensures e in s.inducedEvents <==>
      && e < |g.allowed| && g.allowed[e] && e <= cutoff
      && g.log.users[e] in s.users && g.log.items[e] in s.items
    ensures Ascending(s.inducedEvents) && Ascending(s.users) && Ascending(s.items)
  {
    hide *;
    var nodes := Reached(g, cfg, user, cutoff);
    ExpectedSample(g, cfg, user, cutoff, s);
    SampleParts(g, cfg, nodes, user, cutoff, s);
    EdgeMeans(g, cutoff, nodes, e);
  }

  lemma EdgeMeans(g: Graph, cutoff: int, nodes: Nodes, e: nat)
    requires g.Valid()
    ensures e in EdgeSet(g, cutoff, nodes) <==>
      && e < |g.allowed| && g.allowed[e] && e <= cutoff
      && g.log.users[e] in nodes.users && g.log.items[e] in nodes.items
    ensures |g.log.users| == |g.log.items| == |g.allowed|
  {
  }

  /** One destination's messages are its newest induced events, oldest first: the newest
      `recent_items` of a user, the newest `item_neighbor_limit` (0: all) of an item. Each
      names its event, its source is the event's other end, and the two ranks count the
      kept events before and after it. */
  lemma {:induction false} SampleMessages(g: Graph, cfg: Config, user: nat, cutoff: int, s: GraphSample, side: Side,
                                          d: nat, m: MessageEdges, own: seq<Edge>, ids: seq<nat>)
    requires g.Valid() && Expected(g, cfg, user, cutoff) == Sampled(s)
    requires m == (if side.User? then s.toUsers else s.toItems)
    requires d < if side.User? then |s.users| else |s.items|
    requires own == Inbound(m.edges, d, |m.edges|)
    requires ids == if side.User?
      then Last(At(g, cutoff, Reached(g, cfg, user, cutoff), User, s.users[d]), cfg.recentItems)
      else Last(At(g, cutoff, Reached(g, cfg, user, cutoff), Item, s.items[d]), cfg.itemNeighborLimit)
    ensures |own| == |ids|
    ensures forall k :: 0 <= k < |own| ==> MessageOf(g.log, s, side, d, own, ids, k)
    ensures d < |m.counts| == |m.lastSrc| && m.counts[d] == |own|
    ensures m.lastSrc[d] == if own == [] then -1 else own[|own| - 1].src
  {
    hide *;
    var nodes := Reached(g, cfg, user, cutoff);
    ExpectedSample(g, cfg, user, cutoff, s);
    SampleParts(g, cfg, nodes, user, cutoff, s);
    SidesAre(nodes, s);
    ReceivedAt(g, cfg, cutoff, nodes, side, d, m, own, ids);
    forall k | 0 <= k < |own| ensures MessageOf(g.log, s, side, d, own, ids, k) {
      MessageIs(g, cutoff, nodes, s, side, d, own, ids, k);
    }
  }

  ghost predicate MessageOf(log: Log, s: GraphSample, side: Side, d: nat, own: seq<Edge>, ids: seq<nat>, k: nat) {
    && k < |own| == |ids| && ids[k] < |log.users| && ids[k] < |log.items|
    && own[k].dst == d && own[k].event == ids[k]
    && own[k].position == k && own[k].relative == |ids| - 1 - k
    && (side.User? ==> own[k].src < |s.items| && s.items[own[k].src] == log.items[ids[k]])
    && (side.Item? ==> own[k].src < |s.users| && s.users[own[k].src] == log.users[ids[k]])
  }

  lemma SidesAre(nodes: Nodes, s: GraphSample)
    requires s.users == Asc(nodes.users) && s.items == Asc(nodes.items)
    ensures s.users == Asc(Opposite(nodes, Item)) && s.items == Asc(Opposite(nodes, User))
  {
    hide Asc;
  }

  /** What the nested construction hands to destination `d`. */
  lemma {:induction false} ReceivedAt(g: Graph, cfg: Config, cutoff: int, nodes: Nodes, side: Side, d: nat,
                                      m: MessageEdges, own: seq<Edge>, ids: seq<nat>)
    requires g.Valid() && m == Received(g, cfg, cutoff, nodes, side)
    requires d < |Asc(Opposite(nodes, side.Other()))| && own == Inbound(m.edges, d, |m.edges|)
    requires ids == Last(At(g, cutoff, nodes, side, Asc(Opposite(nodes, side.Other()))[d]),
                         if side.User? then cfg.recentItems else cfg.itemNeighborLimit)
    ensures Maps(ids, g.log.Column(side.Other()), Local(Asc(Opposite(nodes, side))))
    ensures var chosen := Arrows(ids, g.log.Column(side.Other()), Local(Asc(Opposite(nodes, side))), |ids|);
      own == Block(d, chosen, |chosen|)
    ensures d < |m.counts| == |m.lastSrc| && m.counts[d] == |own|
    ensures m.lastSrc[d] == if own == [] then -1 else own[|own| - 1].src
  {
    var order, limit := Asc(Opposite(nodes, side.Other())), cfg.Limit(side);
    var mapping := Local(Asc(Opposite(nodes, side)));
    ListsMapped(g, cutoff, nodes, side, order, limit);
    var lists := Lists(g, cutoff, nodes, side, order, |order|);
    hide At, Asc, Local, Lists, Messages, Last, Maps, KeptArrows, Arrows, Block, Inbound, AllMapped;
    var kept := KeptArrows(lists, g.log.Column(side.Other()), mapping, limit, |order|);
    assert m == Messages(kept);
    KeptArrowsAt(lists, g.log.Column(side.Other()), mapping, limit, |order|, d);
    KeptAt(lists, g.log.Column(side.Other()), mapping, limit, d);
    MessagesPerDestination(kept, d, m, own);
    MessagesAre(kept);
  }

  lemma {:induction false} MessageIs(g: Graph, cutoff: int, nodes: Nodes, s: GraphSample, side: Side, d: nat,
                                     own: seq<Edge>, ids: seq<nat>, k: nat)
    requires g.Valid() && s.users == Asc(Opposite(nodes, Item)) && s.items == Asc(Opposite(nodes, User))
    requires Maps(ids, g.log.Column(side.Other()), Local(Asc(Opposite(nodes, side))))
    requires var chosen := Arrows(ids, g.log.Column(side.Other()), Local(Asc(Opposite(nodes, side))), |ids|);
      own == Block(d, chosen, |chosen|)
    requires k < |own|
    ensures MessageOf(g.log, s, side, d, own, ids, k)
  {
    hide Asc, Local, Opposite, Arrows, Block;
  }
}
