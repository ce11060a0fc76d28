/** `_sample_virtual` of `dgsr/serving.py`.

    Algorithm 1 for a root whose own edges are supplied as a history instead of
    being read from the graph. */
module VirtualRoot {
  import opened Sorting
  import opened TemporalGraph
  import opened Reach
  import opened Induced
  import opened Messaging
  import opened Sampler

  datatype HistoryEvent = HistoryEvent(item: nat, time: int)
  datatype Root = Unknown | Known(user: nat)

  /** One line of the edge table; `event` is -1 for a root event. */
  datatype Row = Row(time: int, key: nat, user: nat, item: nat, event: int)

  /** `lexsort((edge_key, edge_time))`. */
  predicate RowBefore(a: Row, b: Row) {
    a.time < b.time || (a.time == b.time && a.key < b.key)
  }

  function HistoryItems(history: seq<HistoryEvent>, n: nat): set<nat>
    requires n <= |history|
  {
    if n == 0 then {} else HistoryItems(history, n - 1) + {history[n - 1].item}
  }

  lemma {:induction false} HistoryItemsAre(history: seq<HistoryEvent>, n: nat, i: nat)
    requires n <= |history|
    ensures i in HistoryItems(history, n) <==> exists k :: 0 <= k < n && history[k].item == i
  {
    if n > 0 { HistoryItemsAre(history, n - 1, i); }
  }

  function Skip(root: Root): set<nat> { if root.Known? then {root.user} else {} }

  /** The nodes a virtual root reaches; the root itself is not among the users. */
  ghost function VirtualReached(g: Graph, cfg: Config, cutoff: int, history: seq<HistoryEvent>, root: Root): Nodes
    requires g.Valid()
  {
    var newest := Last(history, cfg.recentItems);
    Rounds(g, cfg, cutoff, Skip(root), Nodes({}, HistoryItems(newest, |newest|)), cfg.samplingOrder + 1)
  }

  function Pick(m: map<nat, nat>, x: nat): nat { if x in m then m[x] else 0 }

  function RealRow(log: Log, users: map<nat, nat>, items: map<nat, nat>, e: nat): Row
    requires log.Valid() && e < |log.users|
  {
    Row(log.times[e], e, Pick(users, log.users[e]), Pick(items, log.items[e]), e)
  }

  /** The induced real edges, in the order they were concatenated. */
  function RealRows(log: Log, users: map<nat, nat>, items: map<nat, nat>, eids: seq<nat>, n: nat): (r: seq<Row>)
    requires log.Valid() && n <= |eids| && forall k :: 0 <= k < |eids| ==> eids[k] < |log.users|
    ensures |r| == n
    ensures forall k {:trigger r[k]} :: 0 <= k < n ==> r[k] == RealRow(log, users, items, eids[k])
  {
    if n == 0 then [] else RealRows(log, users, items, eids, n - 1) + [RealRow(log, users, items, eids[n - 1])]
  }

  /** `[event for event in history if event.item in item_local]`. */
  function RootEvents(history: seq<HistoryEvent>, items: set<nat>, n: nat): seq<HistoryEvent>
    requires n <= |history|
  {
    if n == 0 then []
    else RootEvents(history, items, n - 1) + if history[n - 1].item in items then [history[n - 1]] else []
  }

  function RootRow(events: seq<HistoryEvent>, base: nat, rootLocal: nat, items: map<nat, nat>, k: nat): Row
    requires k < |events|
  {
    Row(events[k].time, base + k, rootLocal, Pick(items, events[k].item), -1)
  }

  /** The root's edges; their keys sort after every real event of the same time. */
  function RootRows(events: seq<HistoryEvent>, base: nat, rootLocal: nat, items: map<nat, nat>, n: nat): (r: seq<Row>)
    requires n <= |events|
    ensures |r| == n
    ensures forall k {:trigger r[k]} :: 0 <= k < n ==> r[k] == RootRow(events, base, rootLocal, items, k)
  {
    if n == 0 then []
    else RootRows(events, base, rootLocal, items, n - 1) + [RootRow(events, base, rootLocal, items, n - 1)]
  }

  function Table(g: Graph, cutoff: int, nodes: Nodes, history: seq<HistoryEvent>): seq<Row>
    requires g.Valid()
  {
    var users, items := Asc(nodes.users), Asc(nodes.items);
    var eids := InOrder(g, cutoff, nodes.items, users, |users|);
    var events := RootEvents(history, nodes.items, |history|);
    RealRows(g.log, Local(users), Local(items), eids, |eids|)
      + RootRows(events, |g.log.users| + 1, |users|, Local(items), |events|)
  }

  function Column(rows: seq<Row>, side: Side, n: nat): (r: seq<nat>)
    requires n <= |rows|
    ensures |r| == n
    ensures forall k {:trigger r[k]} :: 0 <= k < n ==> r[k] == if side.User? then rows[k].user else rows[k].item
  {
    if n == 0 then [] else Column(rows, side, n - 1) + [if side.User? then rows[n - 1].user else rows[n - 1].item]
  }

  function EventColumn(rows: seq<Row>, n: nat): (r: seq<int>)
    requires n <= |rows|
    ensures |r| == n
    ensures forall k {:trigger r[k]} :: 0 <= k < n ==> r[k] == rows[k].event
  {
    if n == 0 then [] else EventColumn(rows, n - 1) + [rows[n - 1].event]
  }

  /** What each destination of one side keeps of the sorted table. */
  function KeptVirtual(rows: seq<Row>, side: Side, size: nat, limit: nat): seq<seq<Arrow>> {
    KeptRows(Column(rows, side, |rows|), Column(rows, side.Other(), |rows|), EventColumn(rows, |rows|), size, limit)
  }

  lemma KeptVirtualIs(rows: seq<Row>, side: Side, size: nat, limit: nat)
    ensures |KeptVirtual(rows, side, size, limit)| == size
    ensures forall d :: 0 <= d < size ==>
      KeptVirtual(rows, side, size, limit)[d] ==
        KeptOf(Column(rows, side, |rows|), Column(rows, side.Other(), |rows|), EventColumn(rows, |rows|), d, limit)
  {
    KeptRowsAre(Column(rows, side, |rows|), Column(rows, side.Other(), |rows|), EventColumn(rows, |rows|), size, limit);
    hide KeptOf, KeptRows;
  }

  ghost function VirtualSample(g: Graph, cfg: Config, cutoff: int, nodes: Nodes, history: seq<HistoryEvent>,
                               root: Root): GraphSample
    requires g.Valid()
  {
    var rows := Sort(RowBefore, Table(g, cutoff, nodes, history));
    GraphSample(Asc(nodes.users) + [if root.Known? then root.user else 0], Asc(nodes.items),
                Messages(KeptVirtual(rows, User, |nodes.users| + 1, cfg.recentItems)),
                Messages(KeptVirtual(rows, Item, |nodes.items|, cfg.itemNeighborLimit)),
                |nodes.users|, cutoff, Asc(EdgeSet(g, cutoff, nodes)))
  }

  /** What encoding a supplied history samples. */
  ghost function VirtualExpected(g: Graph, cfg: Config, cutoff: int, history: seq<HistoryEvent>, root: Root): Outcome
    requires g.Valid()
  {
    var nodes := VirtualReached(g, cfg, cutoff, history, root);
    if TooManyNodes(cfg, nodes.users, nodes.items) then Refused(NodeLimit)
    else if TooManyEdges(cfg, |EdgeSet(g, cutoff, nodes)| + |history|) then Refused(EdgeLimit)
    else Sampled(VirtualSample(g, cfg, cutoff, nodes, history, root))
  }

  /** The parts of a virtual sample. */
  lemma {:induction false} VirtualParts(g: Graph, cfg: Config, cutoff: int, history: seq<HistoryEvent>, root: Root,
                                        v: GraphSample, nodes: Nodes, rows: seq<Row>)
    requires g.Valid() && VirtualExpected(g, cfg, cutoff, history, root) == Sampled(v)
    requires nodes == VirtualReached(g, cfg, cutoff, history, root)
    requires rows == Sort(RowBefore, Table(g, cutoff, nodes, history))
    ensures v.users == Asc(nodes.users) + [if root.Known? then root.user else 0] && v.items == Asc(nodes.items)
    ensures v.root == |nodes.users| && v.cutoff == cutoff && v.inducedEvents == Asc(EdgeSet(g, cutoff, nodes))
    ensures v.toUsers == Messages(KeptVirtual(rows, User, |nodes.users| + 1, cfg.recentItems))
    ensures v.toItems == Messages(KeptVirtual(rows, Item, |nodes.items|, cfg.itemNeighborLimit))
  {
    hide VirtualReached, TooManyNodes, TooManyEdges, EdgeSet, Sort, Table, Asc, KeptVirtual, Messages;
  }

  // ---- the local indices in the table ---------------------------------------

  lemma SortedMembers(table: seq<Row>)
    ensures |Sort(RowBefore, table)| == |table|
    ensures forall r :: r in Sort(RowBefore, table) <==> r in table
  {
    SameMembers(Sort(RowBefore, table), table);
  }

  lemma RealRowInRange(log: Log, users: seq<nat>, items: seq<nat>, e: nat)
    requires log.Valid() && e < |log.users| && log.users[e] in users && log.items[e] in items
    ensures RealRow(log, Local(users), Local(items), e).user < |users|
    ensures RealRow(log, Local(users), Local(items), e).item < |items|
  {
  }

  lemma RootRowInRange(events: seq<HistoryEvent>, base: nat, rootLocal: nat, items: seq<nat>, k: nat)
    requires k < |events| && events[k].item in items
    ensures RootRow(events, base, rootLocal, Local(items), k).item < |items|
    ensures RootRow(events, base, rootLocal, Local(items), k).user == rootLocal
  {
  }

  /** The unsorted table, line by line: first the other users' edges, then the root's. */
  lemma {:induction false} TableLine(g: Graph, cutoff: int, v: Nodes, history: seq<HistoryEvent>, table: seq<Row>,
                                     eids: seq<nat>, events: seq<HistoryEvent>, k: nat)
    requires g.Valid() && table == Table(g, cutoff, v, history)
    requires eids == InOrder(g, cutoff, v.items, Asc(v.users), |v.users|)
    requires events == RootEvents(history, v.items, |history|)
    ensures |table| == |eids| + |events|
    ensures k < |eids| ==> table[k] == RealRow(g.log, Local(Asc(v.users)), Local(Asc(v.items)), eids[k])
    ensures |eids| <= k < |table| ==>
      table[k] == RootRow(events, |g.log.users| + 1, |v.users|, Local(Asc(v.items)), k - |eids|)
  {
    hide InOrder, RootEvents, Asc, Local, RealRow, RootRow;
  }

  lemma {:induction false} TableInRange(g: Graph, cutoff: int, nodes: Nodes, history: seq<HistoryEvent>, k: nat)
    requires g.Valid() && k < |Table(g, cutoff, nodes, history)|
    ensures Table(g, cutoff, nodes, history)[k].user <= |nodes.users|
    ensures Table(g, cutoff, nodes, history)[k].item < |nodes.items|
  {
    assert g.log.Valid();
    hide *;
    var users, items := Asc(nodes.users), Asc(nodes.items);
    var eids := InOrder(g, cutoff, nodes.items, users, |users|);
    var events := RootEvents(history, nodes.items, |history|);
    InOrderNodes(g, cutoff, nodes, eids);
    RootEventsOn(history, nodes.items, |history|);
    TableLine(g, cutoff, nodes, history, Table(g, cutoff, nodes, history), eids, events, k);
    if k < |eids| {
      RealRowInRange(g.log, users, items, eids[k]);
    } else {
      RootRowInRange(events, |g.log.users| + 1, |users|, items, k - |eids|);
    }
  }

  lemma {:induction false} RootEventsOn(history: seq<HistoryEvent>, items: set<nat>, n: nat)
    requires n <= |history|
    ensures forall k :: 0 <= k < |RootEvents(history, items, n)| ==> RootEvents(history, items, n)[k].item in items
    ensures |RootEvents(history, items, n)| <= n
  {
    if n > 0 { RootEventsOn(history, items, n - 1); }
  }

  lemma {:induction false} SortedInRange(g: Graph, cutoff: int, nodes: Nodes, history: seq<HistoryEvent>,
                                         rows: seq<Row>)
    requires g.Valid() && rows == Sort(RowBefore, Table(g, cutoff, nodes, history))
    ensures forall k :: 0 <= k < |rows| ==> rows[k].user < |nodes.users| + 1 && rows[k].item < |nodes.items|
  {
    var table := Table(g, cutoff, nodes, history);
    SortedMembers(table);
    hide Sort;
    forall k | 0 <= k < |rows| ensures rows[k].user < |nodes.users| + 1 && rows[k].item < |nodes.items| {
      assert rows[k] in table;
      var j :| 0 <= j < |table| && table[j] == rows[k];
      TableInRange(g, cutoff, nodes, history, j);
    }
  }

  lemma {:induction false} TableKeys(g: Graph, cutoff: int, v: Nodes, history: seq<HistoryEvent>, table: seq<Row>,
                                     i: nat, j: nat)
    requires g.Valid() && table == Table(g, cutoff, v, history) && i < j < |table|
    ensures table[i].key != table[j].key
  {
    var eids := InOrder(g, cutoff, v.items, Asc(v.users), |v.users|);
    var events := RootEvents(history, v.items, |history|);
    TableLine(g, cutoff, v, history, table, eids, events, i);
    TableLine(g, cutoff, v, history, table, eids, events, j);
    InOrderSpec(g, cutoff, v.items, Asc(v.users), |v.users|);
    hide InOrder, Table, RootEvents, Asc, Local, Pick;
    assert i < |eids| ==> eids[i] < |g.log.users|;
  }

  /** Keys never repeat, so the sort has no ties. */
  lemma {:induction false} TableSorts(g: Graph, cutoff: int, nodes: Nodes, history: seq<HistoryEvent>, table: seq<Row>)
    requires g.Valid() && table == Table(g, cutoff, nodes, history)
    ensures Sorted(RowBefore, Sort(RowBefore, table))
    ensures forall i, j :: 0 <= i < j < |table| ==> table[i].key != table[j].key
  {
    hide Table, Sort;
    forall i: nat, j: nat | i < j < |table|
      ensures table[i].key != table[j].key && (RowBefore(table[i], table[j]) || RowBefore(table[j], table[i]))
    {
      TableKeys(g, cutoff, nodes, history, table, i, j);
    }
    SortSorted(RowBefore, table);
  }

  lemma {:induction false} VirtualSampleIs(g: Graph, cfg: Config, cutoff: int, nodes: Nodes,
                                           history: seq<HistoryEvent>, root: Root, rows: seq<Row>)
    requires g.Valid() && rows == Sort(RowBefore, Table(g, cutoff, nodes, history))
    ensures VirtualSample(g, cfg, cutoff, nodes, history, root) ==
      GraphSample(Asc(nodes.users) + [if root.Known? then root.user else 0], Asc(nodes.items),
                  Messages(KeptRows(Column(rows, User, |rows|), Column(rows, Item, |rows|), EventColumn(rows, |rows|),
                                    |nodes.users| + 1, cfg.recentItems)),
                  Messages(KeptRows(Column(rows, Item, |rows|), Column(rows, User, |rows|), EventColumn(rows, |rows|),
                                    |nodes.items|, cfg.itemNeighborLimit)),
                  |nodes.users|, cutoff, Asc(EdgeSet(g, cutoff, nodes)))
  {
    hide EdgeSet, Sort, Table, Asc, KeptRows, Messages, Column, EventColumn;
  }

  /** The second half of `_sample_virtual`: edge table, sort, both groupings. */
  method BuildVirtual(g: Graph, cfg: Config, cutoff: int, nodes: Nodes, history: seq<HistoryEvent>, root: Root,
                      eids: seq<nat>) returns (sample: GraphSample)
    requires g.Valid()
    requires eids == InOrder(g, cutoff, nodes.items, Asc(nodes.users), |nodes.users|)
    ensures sample == VirtualSample(g, cfg, cutoff, nodes, history, root)
  {
    ghost var table := Sort(RowBefore, Table(g, cutoff, nodes, history));
    VirtualSampleIs(g, cfg, cutoff, nodes, history, root, table);
    hide *;
    InOrderIsEdgeSet(g, cutoff, nodes);
    var orderedUsers, orderedItems := Asc(nodes.users), Asc(nodes.items);
    var rootLocal := |orderedUsers|;
    var rows := Sort(RowBefore, Table(g, cutoff, nodes, history));
    SortedInRange(g, cutoff, nodes, history, rows);
    var dstUser, dstItem, events := Column(rows, User, |rows|), Column(rows, Item, |rows|), EventColumn(rows, |rows|);
    var toUsers := FlatMessages(dstUser, dstItem, events, rootLocal + 1, cfg.recentItems);
    var toItems := FlatMessages(dstItem, dstUser, events, |orderedItems|, cfg.itemNeighborLimit);
    var rootGlobal := if root.Known? then root.user else 0;
    sample := GraphSample(orderedUsers + [rootGlobal], orderedItems, toUsers, toItems, rootLocal, cutoff,
                          Sort(Below, eids));
  }

  /** The node expansion of `_sample_virtual`. */
  method ExpandVirtual(g: Graph, cfg: Config, cutoff: int, history: seq<HistoryEvent>, root: Root)
    returns (ok: bool, nodes: Nodes)
    requires g.Valid()
    ensures var reached := VirtualReached(g, cfg, cutoff, history, root);
      ok == !TooManyNodes(cfg, reached.users, reached.items) && (ok ==> nodes == reached)
  {
    hide Rounds, Across, TooManyNodes, Last, HistoryItems, Skip;
    var newest := Last(history, cfg.recentItems);
    var items0 := HistoryItems(newest, |newest|);
    AcrossFew(g, cfg, User, cutoff, 0);
    var users, items;
    ok, users, items := Expand(g, cfg, cutoff, Skip(root), {}, items0);
    nodes := Nodes(users, items);
  }

  lemma {:induction false} VirtualCases(g: Graph, cfg: Config, cutoff: int, history: seq<HistoryEvent>, root: Root,
                                        nodes: Nodes)
    requires g.Valid() && nodes == VirtualReached(g, cfg, cutoff, history, root)
    ensures TooManyNodes(cfg, nodes.users, nodes.items) ==>
      VirtualExpected(g, cfg, cutoff, history, root) == Refused(NodeLimit)
    ensures !TooManyNodes(cfg, nodes.users, nodes.items) &&
            TooManyEdges(cfg, |EdgeSet(g, cutoff, nodes)| + |history|) ==>
      VirtualExpected(g, cfg, cutoff, history, root) == Refused(EdgeLimit)
    ensures !TooManyNodes(cfg, nodes.users, nodes.items) &&
            !TooManyEdges(cfg, |EdgeSet(g, cutoff, nodes)| + |history|) ==>
      VirtualExpected(g, cfg, cutoff, history, root) == Sampled(VirtualSample(g, cfg, cutoff, nodes, history, root))
  {
    hide VirtualReached, TooManyNodes, TooManyEdges, EdgeSet, VirtualSample;
  }

  /** `_sample_virtual`. */
  method SampleVirtual(g: Graph, cfg: Config, cutoff: int, history: seq<HistoryEvent>, root: Root) returns (r: Outcome)
    requires g.Valid()
    ensures r == VirtualExpected(g, cfg, cutoff, history, root)
  {
    ghost var reached := VirtualReached(g, cfg, cutoff, history, root);
    VirtualCases(g, cfg, cutoff, history, root, reached);
    hide *;
    var ok, nodes := ExpandVirtual(g, cfg, cutoff, history, root);
    if !ok { return Refused(NodeLimit); }
    var orderedUsers := Asc(nodes.users);
    var eids := InOrder(g, cutoff, nodes.items, orderedUsers, |orderedUsers|);
    InOrderIsEdgeSet(g, cutoff, nodes);
    if TooManyEdges(cfg, |eids| + |history|) { return Refused(EdgeLimit); }
    var sample := BuildVirtual(g, cfg, cutoff, nodes, history, root, eids);
    r := Sampled(sample);
  }
}
