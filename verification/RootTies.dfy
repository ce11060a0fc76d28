/** Two small logs on either side of the condition of `VirtualRefinesOrdinary`: a tie
    that an item keeps changes the messages, and one beyond the limit does not. */
module RootTies {
  import opened Sorting
  import opened TemporalGraph
  import opened Reach
  import opened Induced
  import opened Messaging
  import opened Sampler
  import opened VirtualRoot
  import opened RootTable
  import opened RootRefinement

  /** The root's newest items are reached, and so are the users they lead to. */
  lemma {:induction false} StartReached(g: Graph, cfg: Config, user: nat, cutoff: int, i: nat, w: nat)
    requires g.Valid() && i in Start(g, cfg, user, cutoff).items && w in Neighbors(g, cfg, Item, cutoff, i)
    ensures user in Reached(g, cfg, user, cutoff).users && w in Reached(g, cfg, user, cutoff).users
    ensures i in Reached(g, cfg, user, cutoff).items
  {
    hide Rounds, Neighbors, EndPoints;
    var start := Start(g, cfg, user, cutoff);
    FirstRounds(g, cfg, cutoff, start);
    RoundsGrow(g, cfg, cutoff, {}, start, 0, cfg.samplingOrder + 1);
    RoundsGrow(g, cfg, cutoff, {}, start, 1, cfg.samplingOrder + 1);
  }

  lemma FirstRounds(g: Graph, cfg: Config, cutoff: int, start: Nodes)
    requires g.Valid()
    ensures Rounds(g, cfg, cutoff, {}, start, 0) == start
    ensures Rounds(g, cfg, cutoff, {}, start, 1) == Round(g, cfg, cutoff, {}, start)
  {
    hide Round;
  }

  /** Events 0 and 1, of users 0 and 1, on one item at one time. */
  function TiedLog(): Graph {
    Graph(Log([0, 1], [0, 0], [5, 5]), [true, true])
  }

  lemma {:induction false} OneEvent(g: Graph, cutoff: int)
    requires g.Valid() && g.Visible(0, cutoff) && g.log.users[0] == 0
    requires forall e: nat :: 0 < e < |g.log.users| ==> g.log.users[e] != 0
    ensures g.Recent(User, 0, cutoff, 0) == [0]
  {
    RecentIsNewest(g, User, 0, cutoff, 0);
    var events := g.Recent(User, 0, cutoff, 0);
    hide Before;
    forall e: nat ensures e in events <==> e in [0] {}
    AscendingUnique(events, [0]);
  }

  /** Two events are enough to tell the samples apart. Both succeed, but the newest
      message of the item comes from user 1 in one and from the root in the other. */
  lemma {:induction false} KeptTieDiffers(cfg: Config)
    requires cfg.Valid() && cfg.itemNeighborLimit == 0 && cfg.maxSampleNodes == 0 && cfg.maxSampleEdges == 0
    ensures TiedLog().Valid() && OwnHistory(TiedLog(), 1, 0, [HistoryEvent(0, 5)])
    ensures Expected(TiedLog(), cfg, 0, 1).Sampled?
    ensures VirtualExpected(TiedLog(), cfg, 1, [HistoryEvent(0, 5)], Known(0)).Sampled?
    ensures 0 in Reached(TiedLog(), cfg, 0, 1).users
    ensures var s := Expected(TiedLog(), cfg, 0, 1).sample;
      var v := VirtualExpected(TiedLog(), cfg, 1, [HistoryEvent(0, 5)], Known(0)).sample;
      && !SameMessages(TiedLog(), Reached(TiedLog(), cfg, 0, 1), 0, s, v, false)
      && exists k :: NewestFrom(s, k, 0, 1) && NewestFrom(v, k, 0, 0)
  {
    hide *;
    var g, history := TiedLog(), [HistoryEvent(0, 5)];
    BothSucceed(cfg, g, history);
    var s, v := Expected(g, cfg, 0, 1).sample, VirtualExpected(g, cfg, 1, history, Known(0)).sample;
    var nodes := Reached(g, cfg, 0, 1);
    VirtualRefinesOrdinary(g, cfg, 1, 0, history, s, v, nodes, false);
    TieIsKept(g, cfg, nodes);
    BothReached(g, cfg, nodes);
    var t := SamplesEncode(g, cfg, 1, 0, history, s, v, nodes);
    var k := SourcesDiffer(t, cfg, s, v);
  }

  lemma {:induction false} BothSucceed(cfg: Config, g: Graph, history: seq<HistoryEvent>)
    requires cfg.Valid() && cfg.maxSampleNodes == 0 && cfg.maxSampleEdges == 0
    requires g == TiedLog() && history == [HistoryEvent(0, 5)]
    ensures g.Valid() && OwnHistory(g, 1, 0, history)
    ensures Expected(g, cfg, 0, 1).Sampled? && VirtualExpected(g, cfg, 1, history, Known(0)).Sampled?
  {
    OneEvent(g, 1);
    hide Before, Expected, VirtualExpected;
    BothSample(g, cfg, 1, 0, history);
  }

  /** The k-th item of a sample is `item`, and its newest message comes from `user`. */
  ghost predicate NewestFrom(sample: GraphSample, k: nat, item: nat, user: nat) {
    && k < |sample.items| && sample.items[k] == item && k < |sample.toItems.lastSrc|
    && 0 <= sample.toItems.lastSrc[k] < |sample.users|
    && sample.users[sample.toItems.lastSrc[k]] == user
  }

  lemma {:induction false} SourcesDiffer(t: Encoding, cfg: Config, s: GraphSample, v: GraphSample) returns (k: nat)
    requires t.Valid() && t.g == TiedLog() && t.cutoff == 1 && t.user == 0 && t.nodes.items >= {0}
    requires t.nodes.users >= {0, 1}
    requires RootMoved(s, v, 0) && s.root == RootIndex(t.nodes, 0)
    requires s.users == Asc(t.nodes.users) && s.items == Asc(t.nodes.items)
    requires s.toItems == Received(t.g, cfg, 1, t.nodes, Item)
    requires v.toItems == Messages(KeptVirtual(t.rows, Item, |SideOf(t.nodes, Item)|, cfg.Limit(Item)))
    ensures NewestFrom(s, k, 0, 1) && NewestFrom(v, k, 0, 0)
  {
    hide *;
    EncodingParts(t);
    assert 0 in s.items;
    k :| 0 <= k < |s.items| && s.items[k] == 0;
    TwoLines(t);
    NewestSources(t, cfg, 0, k, v.toItems, s.toItems);
    OrdinarySource(t, s, k);
    VirtualSource(t, s, v, k);
  }

  lemma {:induction false} TwoLines(t: Encoding)
    requires t.Valid() && t.g == TiedLog() && t.cutoff == 1 && t.user == 0
    requires 0 in t.nodes.items && 0 in t.nodes.users && 1 in t.nodes.users
    ensures t.Events(Item, 0) == [0, 1] && t.Filed(Item, 0) == [1, 0]
  {
    hide *;
    EncodingParts(t);
    ItemSide(t.nodes, 0);
    FiledRearranges(t, Item, 0);
    var a := t.Filed(Item, 0);
    TwoEvents(t);
    RearrangesSame(a, [0, 1]);
    var i := PlaceOf(a, [0, 1], 1);
    var j := PlaceOf(a, [0, 1], 0);
    TieComesFirst(t, 0, i, j);
  }

  lemma {:induction false} TwoEvents(t: Encoding)
    requires t.g.Valid() && t.g == TiedLog() && t.cutoff == 1 && t.user == 0
    requires 0 in t.nodes.items && 0 in t.nodes.users && 1 in t.nodes.users
    ensures t.Events(Item, 0) == [0, 1] && t.g.log.Valid() && Tie(t.g.log, 0, 1, 0)
  {
    TiedEdges(t.g, t.nodes);
    hide EdgeSet, Asc, Log.Valid, Graph.Valid, Tie;
    var b := t.Events(Item, 0);
    assert t.g.log.Column(Item) == [0, 0];
    forall e: nat ensures e in b <==> e in [0, 1] {}
    hide Encoding.Events, At;
    AscendingUnique(b, [0, 1]);
  }

  lemma TiedEdges(g: Graph, nodes: Nodes)
    requires g == TiedLog() && 0 in nodes.items && 0 in nodes.users && 1 in nodes.users
    ensures g.Valid() && g.log.Valid() && EdgeSet(g, 1, nodes) == {0, 1} && Tie(g.log, 0, 1, 0)
  {
    assert g.Visible(0, 1) && g.Visible(1, 1);
  }

  lemma OrdinarySource(t: Encoding, s: GraphSample, k: nat)
    requires t.g == TiedLog() && s.users == Asc(t.nodes.users) && k < |s.items| && s.items[k] == 0
    requires k < |s.toItems.lastSrc| && s.toItems.lastSrc[k] >= 0 && From(t, Item, 1, s.toItems.lastSrc[k])
    ensures NewestFrom(s, k, 0, 1)
  {
    hide Asc;
  }

  lemma VirtualSource(t: Encoding, s: GraphSample, v: GraphSample, k: nat)
    requires t.g == TiedLog() && t.user == 0 && 0 in t.nodes.users && s.users == Asc(t.nodes.users)
    requires RootMoved(s, v, 0) && s.root == RootIndex(t.nodes, 0) && k < |s.items| && s.items[k] == 0
    requires k < |v.toItems.lastSrc|
    requires exists src: nat :: From(t, Item, 0, src) && v.toItems.lastSrc[k] == Relabel(t.nodes, 0, Item, src)
    ensures NewestFrom(v, k, 0, 0)
  {
    hide Asc, Without;
  }

  lemma {:induction false} TieIsKept(g: Graph, cfg: Config, nodes: Nodes)
    requires g == TiedLog() && g.Valid() && nodes == Reached(g, cfg, 0, 1)
    requires cfg.Valid() && cfg.itemNeighborLimit == 0
    ensures !NoRetainedTies(g, cfg, 1, nodes, 0)
  {
    BothReached(g, cfg, nodes);
    hide Before, Reached, At;
    assert g.Visible(0, 1) && g.Visible(1, 1);
    assert 0 in EdgeSet(g, 1, nodes) && 1 in EdgeSet(g, 1, nodes);
    assert g.log.Column(Item)[1] == 0;
    assert 1 in At(g, 1, nodes, Item, 0);
    assert Tie(g.log, 0, 1, 0);
    assert !NoTies(g, 1, nodes, 0, 0, 0);
  }

  lemma {:induction false} BothReached(g: Graph, cfg: Config, nodes: Nodes)
    requires g == TiedLog() && g.Valid() && nodes == Reached(g, cfg, 0, 1)
    requires cfg.Valid() && cfg.itemNeighborLimit == 0
    ensures 0 in nodes.users && 1 in nodes.users && 0 in nodes.items
  {
    OneEvent(g, 1);
    RecentIsNewest(g, User, 0, 1, cfg.recentItems);
    assert g.Recent(User, 0, 1, cfg.recentItems) == [0];
    assert 0 in Start(g, cfg, 0, 1).items;
    RecentIsNewest(g, Item, 0, 1, 0);
    assert g.Visible(1, 1) && g.log.Column(Item)[1] == 0;
    hide Before, Reached, Start;
    assert 1 in g.Recent(Item, 0, 1, cfg.Limit(Item));
    StartReached(g, cfg, 0, 1, 0, 1);
  }

  /** The same tie, and a newer event of user 1 on the item. */
  function LongerLog(): Graph {
    Graph(Log([0, 1, 1], [0, 0, 0], [5, 5, 6]), [true, true, true])
  }

  /** An item that keeps one event keeps the newest, so the tie is harmless although
      the log has one. */
  lemma {:induction false} DroppedTieIsHarmless(cfg: Config)
    requires cfg.Valid() && cfg.itemNeighborLimit == 1 && cfg.maxSampleNodes == 0 && cfg.maxSampleEdges == 0
    ensures LongerLog().Valid() && !NoVisibleTies(LongerLog(), 2, 0)
    ensures OwnHistory(LongerLog(), 2, 0, [HistoryEvent(0, 5)])
    ensures Expected(LongerLog(), cfg, 0, 2).Sampled?
    ensures VirtualExpected(LongerLog(), cfg, 2, [HistoryEvent(0, 5)], Known(0)).Sampled?
    ensures 0 in Reached(LongerLog(), cfg, 0, 2).users
    ensures SameMessages(LongerLog(), Reached(LongerLog(), cfg, 0, 2), 0, Expected(LongerLog(), cfg, 0, 2).sample,
                         VirtualExpected(LongerLog(), cfg, 2, [HistoryEvent(0, 5)], Known(0)).sample, true)
  {
    var g, history := LongerLog(), [HistoryEvent(0, 5)];
    OneEvent(g, 2);
    assert OwnHistory(g, 2, 0, history);
    assert g.Visible(0, 2) && g.Visible(1, 2) && Tie(g.log, 0, 1, 0);
    BothSample(g, cfg, 2, 0, history);
    var s, v := Expected(g, cfg, 0, 2).sample, VirtualExpected(g, cfg, 2, history, Known(0)).sample;
    var nodes := Reached(g, cfg, 0, 2);
    hide Expected, VirtualExpected, Reached, SameMessages, NoRetainedTies, OwnHistory, RootMoved;
    VirtualRefinesOrdinary(g, cfg, 2, 0, history, s, v, nodes, true);
    TieIsDropped(g, cfg, nodes);
  }

  lemma {:induction false} TieIsDropped(g: Graph, cfg: Config, nodes: Nodes)
    requires g == LongerLog() && g.Valid() && cfg.itemNeighborLimit == 1
    ensures NoRetainedTies(g, cfg, 2, nodes, 0)
  {
    forall i, e, r | i in nodes.items && e in Last(At(g, 2, nodes, Item, i), 1) && r in EdgeSet(g, 2, nodes)
      ensures !Tie(g.log, 0, e, r)
    {
      if e == 1 { NewerKept(g, nodes, i); }
    }
  }

  lemma {:induction false} NewerKept(g: Graph, nodes: Nodes, i: nat)
    requires g == LongerLog() && g.Valid()
    ensures 1 !in Last(At(g, 2, nodes, Item, i), 1)
  {
    var b := At(g, 2, nodes, Item, i);
    if 1 in b {
      assert g.Visible(2, 2);
      assert 2 in EdgeSet(g, 2, nodes);
      assert 2 in b;
      hide At, EdgeSet;
      InLast(b, 1, 2);
      InLast(b, 1, 1);
      var k :| 0 <= k < |b| && b[k] == 2;
      var j :| 0 <= j < |b| && b[j] == 1;
    } else {
      LastAscending(b, 1);
    }
  }
}
