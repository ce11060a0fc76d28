/** The shape of every virtual sample: no isolated node, local indices in range. How
    many edges a destination keeps is the matter of VirtualCounts. */
module VirtualShape {
  import opened Sorting
  import opened TemporalGraph
  import opened Reach
  import opened Induced
  import opened Messaging
  import opened Sampler
  import opened SampleShape
  import opened VirtualRoot

  // ---- no node is isolated ------------------------------------------------------

  /** Every user has an induced edge; every item has one or is in the history. */
  ghost predicate Attached(g: Graph, cutoff: int, nodes: Nodes, history: seq<HistoryEvent>)
    requires g.Valid()
  {
    && (forall u :: u in nodes.users ==> HasEdge(g, cutoff, nodes, User, u))
    && (forall i :: i in nodes.items ==> HasEdge(g, cutoff, nodes, Item, i) || i in HistoryItems(history, |history|))
  }

  lemma {:induction false} RoundAttached(g: Graph, cfg: Config, cutoff: int, skip: set<nat>, s: Nodes,
                                         history: seq<HistoryEvent>)
    requires g.Valid() && Attached(g, cutoff, s, history)
    ensures Attached(g, cutoff, Round(g, cfg, cutoff, skip, s), history)
  {
    hide Across, HasEdge, HistoryItems;
    var t := Round(g, cfg, cutoff, skip, s);
    forall u | u in t.users ensures HasEdge(g, cutoff, t, User, u) {
      if u in s.users { GrowKeepsEdge(g, cutoff, s, t, User, u); }
      else { FoundHasEdge(g, cfg, cutoff, Item, s.items, t, u); }
    }
    forall i | i in t.items ensures HasEdge(g, cutoff, t, Item, i) || i in HistoryItems(history, |history|) {
      if i !in s.items {
        FoundHasEdge(g, cfg, cutoff, User, t.users, t, i);
      } else if HasEdge(g, cutoff, s, Item, i) {
        GrowKeepsEdge(g, cutoff, s, t, Item, i);
      }
    }
  }

  lemma {:induction false} RoundsAttached(g: Graph, cfg: Config, cutoff: int, skip: set<nat>, s: Nodes,
                                          history: seq<HistoryEvent>, n: nat)
    requires g.Valid() && Attached(g, cutoff, s, history)
    ensures Attached(g, cutoff, Rounds(g, cfg, cutoff, skip, s, n), history)
  {
    hide Attached, Round;
    if n > 0 {
      RoundsAttached(g, cfg, cutoff, skip, s, history, n - 1);
      RoundAttached(g, cfg, cutoff, skip, Rounds(g, cfg, cutoff, skip, s, n - 1), history);
    }
  }

  lemma {:induction false} ReachedAttached(g: Graph, cfg: Config, cutoff: int, history: seq<HistoryEvent>, root: Root)
    requires g.Valid()
    ensures Attached(g, cutoff, VirtualReached(g, cfg, cutoff, history, root), history)
  {
    var newest := Last(history, cfg.recentItems);
    var start := Nodes({}, HistoryItems(newest, |newest|));
    hide Last, HistoryItems, Rounds, HasEdge;
    forall i | i in start.items ensures i in HistoryItems(history, |history|) {
      HistoryItemsAre(newest, |newest|, i);
      var k :| 0 <= k < |newest| && newest[k].item == i;
      LastEntry(history, cfg.recentItems, k);
      HistoryItemsAre(history, |history|, i);
    }
    RoundsAttached(g, cfg, cutoff, Skip(root), start, history, cfg.samplingOrder + 1);
  }

  /** The newest history item is always sampled. */
  lemma {:induction false} NewestReached(g: Graph, cfg: Config, cutoff: int, history: seq<HistoryEvent>, root: Root)
    requires g.Valid() && history != []
    ensures history[|history| - 1].item in VirtualReached(g, cfg, cutoff, history, root).items
  {
    var newest := Last(history, cfg.recentItems);
    LastEntry(history, cfg.recentItems, |newest| - 1);
    HistoryItemsAre(newest, |newest|, history[|history| - 1].item);
    RoundsGrow(g, cfg, cutoff, Skip(root), Nodes({}, HistoryItems(newest, |newest|)), 0, cfg.samplingOrder + 1);
    hide Last, HistoryItems, Round;
  }

  // ---- every node has a line of the table -----------------------------------------

  lemma {:induction false} RootEventOf(history: seq<HistoryEvent>, items: set<nat>, n: nat, k: nat) returns (j: nat)
    requires k < n <= |history| && history[k].item in items
    ensures j < |RootEvents(history, items, n)| && RootEvents(history, items, n)[j] == history[k]
  {
    if k == n - 1 { j := |RootEvents(history, items, n - 1)|; } else { j := RootEventOf(history, items, n - 1, k); }
  }

  lemma {:induction false} EdgeLine(g: Graph, cutoff: int, nodes: Nodes, history: seq<HistoryEvent>, table: seq<Row>,
                                    e: nat) returns (k: nat)
    requires g.Valid() && table == Table(g, cutoff, nodes, history) && e in EdgeSet(g, cutoff, nodes)
    requires g.log.Valid() && e < |g.log.users|
    ensures k < |table| && table[k] == RealRow(g.log, Local(Asc(nodes.users)), Local(Asc(nodes.items)), e)
  {
    hide *;
    var eids := InOrder(g, cutoff, nodes.items, Asc(nodes.users), |nodes.users|);
    InOrderIsEdgeSet(g, cutoff, nodes);
    assert e in SetOf(eids);
    k :| 0 <= k < |eids| && eids[k] == e;
    TableLine(g, cutoff, nodes, history, table, eids, RootEvents(history, nodes.items, |history|), k);
  }

  lemma {:induction false} RootLine(g: Graph, cutoff: int, nodes: Nodes, history: seq<HistoryEvent>, table: seq<Row>,
                                    j: nat) returns (k: nat)
    requires g.Valid() && table == Table(g, cutoff, nodes, history)
    requires j < |RootEvents(history, nodes.items, |history|)|
    ensures k < |table| && table[k].user == |nodes.users|
    ensures table[k].item == Pick(Local(Asc(nodes.items)), RootEvents(history, nodes.items, |history|)[j].item)
  {
    hide Table, InOrder, RootEvents, Asc, Local, Pick;
    var eids := InOrder(g, cutoff, nodes.items, Asc(nodes.users), |nodes.users|);
    k := |eids| + j;
    TableLine(g, cutoff, nodes, history, table, eids, RootEvents(history, nodes.items, |history|), k);
  }

  lemma EdgeOf(g: Graph, cutoff: int, nodes: Nodes, side: Side, node: nat) returns (e: nat)
    requires g.Valid() && HasEdge(g, cutoff, nodes, side, node)
    ensures e in EdgeSet(g, cutoff, nodes) && g.log.Valid() && e < |g.log.users|
    ensures node == if side.User? then g.log.users[e] else g.log.items[e]
  {
    e :| e in EdgeSet(g, cutoff, nodes) && g.log.Column(side)[e] == node;
  }

  lemma RealEnds(log: Log, users: seq<nat>, items: seq<nat>, e: nat, d: nat)
    requires log.Valid() && e < |log.users| && Ascending(users) && Ascending(items)
    ensures d < |users| && log.users[e] == users[d] ==> RealRow(log, Local(users), Local(items), e).user == d
    ensures d < |items| && log.items[e] == items[d] ==> RealRow(log, Local(users), Local(items), e).item == d
  {
    if d < |users| { LocalIndex(users, d); }
    if d < |items| { LocalIndex(items, d); }
    hide Local;
  }

  /** The node with local index `d`, the root included, occurs in the table. */
  lemma {:induction false} NodeLine(g: Graph, cutoff: int, nodes: Nodes, history: seq<HistoryEvent>, table: seq<Row>,
                                    side: Side, d: nat) returns (k: nat)
    requires g.Valid() && table == Table(g, cutoff, nodes, history) && Attached(g, cutoff, nodes, history)
    requires history != [] && history[|history| - 1].item in nodes.items
    requires d < if side.User? then |nodes.users| + 1 else |nodes.items|
    ensures k < |table| && d == if side.User? then table[k].user else table[k].item
  {
    hide Table, EdgeSet, HasEdge, HistoryItems, RootEvents, RealRow, Pick, Local;
    var users, items := Asc(nodes.users), Asc(nodes.items);
    if side.User? && d == |users| {
      var j := RootEventOf(history, nodes.items, |history|, |history| - 1);
      k := RootLine(g, cutoff, nodes, history, table, j);
    } else {
      var node := if side.User? then users[d] else items[d];
      assert node in (if side.User? then users else items);
      if HasEdge(g, cutoff, nodes, side, node) {
        var e := EdgeOf(g, cutoff, nodes, side, node);
        k := EdgeLine(g, cutoff, nodes, history, table, e);
        RealEnds(g.log, users, items, e, d);
      } else {
        HistoryItemsAre(history, |history|, node);
        var h :| 0 <= h < |history| && history[h].item == node;
        var j := RootEventOf(history, nodes.items, |history|, h);
        k := RootLine(g, cutoff, nodes, history, table, j);
        LocalPick(items, d);
      }
    }
  }

  lemma LocalPick(s: seq<nat>, d: nat)
    requires Ascending(s) && d < |s|
    ensures Pick(Local(s), s[d]) == d
  {
    LocalIndex(s, d);
  }

  // ---- the shape ---------------------------------------------------------------------

  lemma {:induction false} KeptOfWell(dst: seq<nat>, src: seq<nat>, events: seq<int>, d: nat, limit: nat,
                                      sources: nat, p: nat)
    requires |dst| == |src| == |events| && forall k :: 0 <= k < |src| ==> src[k] < sources
    requires p < |dst| && dst[p] == d
    ensures KeptWell(KeptOf(dst, src, events, d, limit), sources)
  {
    PositionsSpec(dst, d, |dst|);
    hide Positions, Last;
    assert p in Positions(dst, d, |dst|);
    var at := Last(Positions(dst, d, |dst|), limit);
    forall j | 0 <= j < |at| ensures at[j] < |src| { LastEntry(Positions(dst, d, |dst|), limit, j); }
  }

  /** The line of a node in the sorted table. */
  lemma {:induction false} SortedNode(g: Graph, cutoff: int, nodes: Nodes, history: seq<HistoryEvent>, rows: seq<Row>,
                                      side: Side, d: nat) returns (p: nat)
    requires g.Valid() && Attached(g, cutoff, nodes, history)
    requires history != [] && history[|history| - 1].item in nodes.items
    requires rows == Sort(RowBefore, Table(g, cutoff, nodes, history))
    requires d < if side.User? then |nodes.users| + 1 else |nodes.items|
    ensures p < |rows| && Column(rows, side, |rows|)[p] == d
  {
    hide *;
    var table := Table(g, cutoff, nodes, history);
    SortedMembers(table);
    var k := NodeLine(g, cutoff, nodes, history, table, side, d);
    assert table[k] in rows;
    p :| 0 <= p < |rows| && rows[p] == table[k];
  }

  lemma {:induction false} SortedSources(g: Graph, cutoff: int, nodes: Nodes, history: seq<HistoryEvent>,
                                         rows: seq<Row>, side: Side, sources: nat)
    requires g.Valid() && rows == Sort(RowBefore, Table(g, cutoff, nodes, history))
    requires sources == if side.User? then |nodes.items| else |nodes.users| + 1
    ensures forall k :: 0 <= k < |rows| ==> Column(rows, side.Other(), |rows|)[k] < sources
  {
    SortedInRange(g, cutoff, nodes, history, rows);
    hide Sort, Table, RowBefore, Column;
  }

  lemma {:induction false} SideShaped(g: Graph, cutoff: int, nodes: Nodes, history: seq<HistoryEvent>, rows: seq<Row>,
                                      side: Side, limit: nat, sources: nat, size: nat)
    requires g.Valid() && Attached(g, cutoff, nodes, history)
    requires history != [] && history[|history| - 1].item in nodes.items
    requires rows == Sort(RowBefore, Table(g, cutoff, nodes, history))
    requires size == if side.User? then |nodes.users| + 1 else |nodes.items|
    requires sources == if side.User? then |nodes.items| else |nodes.users| + 1
    ensures WellShaped(Messages(KeptVirtual(rows, side, size, limit)), sources, size)
  {
    hide *;
    SortedSources(g, cutoff, nodes, history, rows, side, sources);
    KeptVirtualIs(rows, side, size, limit);
    var kept := KeptVirtual(rows, side, size, limit);
    forall d | 0 <= d < size ensures KeptWell(kept[d], sources) {
      var p := SortedNode(g, cutoff, nodes, history, rows, side, d);
      KeptOfWell(Column(rows, side, |rows|), Column(rows, side.Other(), |rows|), EventColumn(rows, |rows|), d, limit,
                 sources, p);
    }
    MessagesShaped(kept, sources);
  }

  /** Every virtual sample is well formed. */
  lemma {:induction false} VirtualWellFormed(g: Graph, cfg: Config, cutoff: int, history: seq<HistoryEvent>,
                                             root: Root, v: GraphSample)
    requires g.Valid() && history != [] && VirtualExpected(g, cfg, cutoff, history, root) == Sampled(v)
    ensures forall e :: e in v.inducedEvents ==>
      g.Visible(e, cutoff) && g.log.users[e] in v.users && g.log.items[e] in v.items
    ensures v.root == |v.users| - 1
    ensures WellShaped(v.toUsers, |v.items|, |v.users|) && WellShaped(v.toItems, |v.users|, |v.items|)
  {
    hide *;
    var nodes := VirtualReached(g, cfg, cutoff, history, root);
    var rows := Sort(RowBefore, Table(g, cutoff, nodes, history));
    VirtualParts(g, cfg, cutoff, history, root, v, nodes, rows);
    ReachedAttached(g, cfg, cutoff, history, root);
    NewestReached(g, cfg, cutoff, history, root);
    SideShaped(g, cutoff, nodes, history, rows, User, cfg.recentItems, |nodes.items|, |nodes.users| + 1);
    SideShaped(g, cutoff, nodes, history, rows, Item, cfg.itemNeighborLimit, |nodes.users| + 1, |nodes.items|);
    InducedVisible(g, cutoff, nodes);
    assert forall x :: x in Asc(nodes.users) ==> x in v.users;
  }
}
