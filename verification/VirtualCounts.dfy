/** How many edges each destination of a virtual sample keeps, from the log, the
    history and the limits alone, and so exactly when its ranks index an embedding
    table of `position_capacity` rows. That capacity looks at the training log alone,
    where the root's history is not counted. */
module VirtualCounts {
  import opened Sorting
  import opened TemporalGraph
  import opened Reach
  import opened Induced
  import opened Messaging
  import opened Sampler
  import opened SampleShape
  import opened VirtualRoot
  import opened VirtualShape

  /** What a limit (0: none) leaves of `n` edges. */
  function Cut(n: nat, limit: nat): nat { if limit == 0 || n <= limit then n else limit }

  /** How many of the first `n` history events are on one item. */
  function Mentions(history: seq<HistoryEvent>, item: nat, n: nat): nat
    requires n <= |history|
  {
    if n == 0 then 0 else Mentions(history, item, n - 1) + if history[n - 1].item == item then 1 else 0
  }

  ghost function RootSize(history: seq<HistoryEvent>, items: set<nat>): nat {
    |RootEvents(history, items, |history|)|
  }

  // ---- sorting the table does not change how often a node occurs -----------------

  /** The lines of one node. */
  function Occurrences(rows: seq<Row>, side: Side, d: nat): seq<nat> {
    Positions(Column(rows, side, |rows|), d, |rows|)
  }

  lemma {:induction false} OccurrencesAre(rows: seq<Row>, side: Side, d: nat)
    ensures Ascending(Occurrences(rows, side, d))
    ensures forall p: nat :: p in Occurrences(rows, side, d) <==>
      p < |rows| && (if side.User? then rows[p].user else rows[p].item) == d
  {
    PositionsSpec(Column(rows, side, |rows|), d, |rows|);
    hide Positions;
  }

  /** Where the lines at `at` are in another arrangement. */
  lemma {:induction false} WhenceLines(table: seq<Row>, rows: seq<Row>, at: seq<nat>, n: nat) returns (from: seq<nat>)
    requires n <= |at| && (forall j :: 0 <= j < |at| ==> at[j] < |rows|) && forall r :: r in rows ==> r in table
    ensures |from| == n
    ensures forall j :: 0 <= j < n ==> from[j] < |table| && table[from[j]] == rows[at[j]]
  {
    if n == 0 {
      from := [];
    } else {
      from := WhenceLines(table, rows, at, n - 1);
      assert rows[at[n - 1]] in rows;
      var k: nat :| k < |table| && table[k] == rows[at[n - 1]];
      from := from + [k];
    }
  }

  ghost predicate NoRepeats(s: seq<Row>) { forall i, j :: 0 <= i < j < |s| ==> s[i] != s[j] }

  lemma {:induction false} OccursAtMost(a: seq<Row>, b: seq<Row>, side: Side, d: nat)
    requires NoRepeats(a) && forall r :: r in a ==> r in b
    ensures |Occurrences(a, side, d)| <= |Occurrences(b, side, d)|
  {
    OccurrencesAre(a, side, d);
    OccurrencesAre(b, side, d);
    var at := Occurrences(a, side, d);
    hide Occurrences;
    forall j | 0 <= j < |at| ensures at[j] < |a| { assert at[j] in at; }
    var there := WhenceLines(b, a, at, |at|);
    forall j | 0 <= j < |there| ensures there[j] in Occurrences(b, side, d) { assert at[j] in at; }
    assert Distinct(there) by {
      forall i, j | 0 <= i < j < |there| ensures there[i] != there[j] { assert a[at[i]] != a[at[j]]; }
    }
    NotMore(there, Occurrences(b, side, d));
  }

  lemma {:induction false} LinesDiffer(g: Graph, cutoff: int, nodes: Nodes, history: seq<HistoryEvent>,
                                       table: seq<Row>, rows: seq<Row>)
    requires g.Valid() && table == Table(g, cutoff, nodes, history) && rows == Sort(RowBefore, table)
    ensures NoRepeats(table) && NoRepeats(rows)
  {
    TableSorts(g, cutoff, nodes, history, table);
    hide Table, Sort;
    forall i, j | 0 <= i < j < |rows| ensures rows[i] != rows[j] { assert RowBefore(rows[i], rows[j]); }
  }

  lemma {:induction false} SortKeepsOccurrences(g: Graph, cutoff: int, nodes: Nodes, history: seq<HistoryEvent>,
                                                table: seq<Row>, rows: seq<Row>, side: Side, d: nat)
    requires g.Valid() && table == Table(g, cutoff, nodes, history) && rows == Sort(RowBefore, table)
    ensures |Occurrences(rows, side, d)| == |Occurrences(table, side, d)|
  {
    hide *;
    SortedMembers(table);
    LinesDiffer(g, cutoff, nodes, history, table, rows);
    OccursAtMost(table, rows, side, d);
    OccursAtMost(rows, table, side, d);
  }

  // ---- how often a node occurs in the unsorted table -------------------------------

  lemma {:induction false} RealOccur(column: seq<nat>, owners: seq<nat>, ids: seq<nat>, node: nat, d: nat, n: nat)
    requires n <= |ids| <= |column| && InLog(ids, |owners|)
    requires forall k :: 0 <= k < |ids| ==> (column[k] == d <==> owners[ids[k]] == node)
    ensures |Positions(column, d, n)| == |OfNode(owners, ids, node, n)|
  {
    if n > 0 { RealOccur(column, owners, ids, node, d, n - 1); }
  }

  lemma {:induction false} RootOccur(column: seq<nat>, first: nat, events: seq<HistoryEvent>, item: nat, d: nat, n: nat)
    requires n <= |events| && first + |events| <= |column|
    requires forall k :: 0 <= k < |events| ==> (column[first + k] == d <==> events[k].item == item)
    ensures |Positions(column, d, first + n)| == |Positions(column, d, first)| + Mentions(events, item, n)
  {
    if n > 0 { RootOccur(column, first, events, item, d, n - 1); }
  }

  lemma {:induction false} NoneOccur(column: seq<nat>, d: nat, first: nat, n: nat)
    requires first <= n <= |column| && forall k :: first <= k < n ==> column[k] != d
    ensures |Positions(column, d, n)| == |Positions(column, d, first)|
  {
    if first < n { NoneOccur(column, d, first, n - 1); }
  }

  lemma {:induction false} AllOccur(column: seq<nat>, d: nat, first: nat, n: nat)
    requires first <= n <= |column| && forall k :: first <= k < n ==> column[k] == d
    ensures |Positions(column, d, n)| == |Positions(column, d, first)| + n - first
  {
    if first < n { AllOccur(column, d, first, n - 1); }
  }

  lemma {:induction false} MentionsPrefix(a: seq<HistoryEvent>, b: seq<HistoryEvent>, item: nat, n: nat)
    requires n <= |a|
    ensures Mentions(a + b, item, n) == Mentions(a, item, n)
  {
    if n > 0 { MentionsPrefix(a, b, item, n - 1); }
  }

  /** The root's edges on a sampled item are all its history events there. */
  lemma {:induction false} MentionsKept(history: seq<HistoryEvent>, items: set<nat>, item: nat, n: nat)
    requires n <= |history| && item in items
    ensures Mentions(RootEvents(history, items, n), item, |RootEvents(history, items, n)|) == Mentions(history, item, n)
  {
    if n > 0 {
      MentionsKept(history, items, item, n - 1);
      var before, x := RootEvents(history, items, n - 1), history[n - 1];
      MentionsPrefix(before, [x], item, |before|);
      if x.item in items {
        assert RootEvents(history, items, n) == before + [x];
        assert (before + [x])[|before|] == x;
      } else {
        assert RootEvents(history, items, n) == before;
      }
    }
  }

  /** A listed node is picked by its own index only. */
  lemma {:induction false} PickIs(s: seq<nat>, x: nat, d: nat)
    requires Ascending(s) && x in s && d < |s|
    ensures Pick(Local(s), x) == d <==> x == s[d]
  {
    LocalIndex(s, d);
    hide Local;
  }

  /** The ends of the k-th line of the unsorted table, real edges first. */
  lemma {:induction false} RealEnd(g: Graph, cutoff: int, nodes: Nodes, history: seq<HistoryEvent>, table: seq<Row>,
                                   eids: seq<nat>, k: nat)
    requires g.Valid() && table == Table(g, cutoff, nodes, history)
    requires eids == InOrder(g, cutoff, nodes.items, Asc(nodes.users), |nodes.users|) && k < |eids|
    ensures k < |table| && table[k].user < |nodes.users|
    ensures eids[k] < |g.log.users| && eids[k] < |g.log.items|
    ensures forall d :: 0 <= d < |nodes.users| ==>
      (table[k].user == d <==> g.log.users[eids[k]] == Asc(nodes.users)[d])
    ensures forall d :: 0 <= d < |nodes.items| ==>
      (table[k].item == d <==> g.log.items[eids[k]] == Asc(nodes.items)[d])
  {
    hide Table, InOrder, RootEvents, Asc, Local, Pick;
    TableLine(g, cutoff, nodes, history, table, eids, RootEvents(history, nodes.items, |history|), k);
    InOrderNodes(g, cutoff, nodes, eids);
    var users, items := Asc(nodes.users), Asc(nodes.items);
    RealRowInRange(g.log, users, items, eids[k]);
    forall d: nat | d < |nodes.users| ensures table[k].user == d <==> g.log.users[eids[k]] == users[d] {
      PickIs(users, g.log.users[eids[k]], d);
    }
    forall d: nat | d < |nodes.items| ensures table[k].item == d <==> g.log.items[eids[k]] == items[d] {
      PickIs(items, g.log.items[eids[k]], d);
    }
  }

  lemma {:induction false} RootEnd(g: Graph, cutoff: int, nodes: Nodes, history: seq<HistoryEvent>, table: seq<Row>,
                                   eids: seq<nat>, events: seq<HistoryEvent>, j: nat)
    requires g.Valid() && table == Table(g, cutoff, nodes, history)
    requires eids == InOrder(g, cutoff, nodes.items, Asc(nodes.users), |nodes.users|)
    requires events == RootEvents(history, nodes.items, |history|) && j < |events|
    ensures |eids| + j < |table| && table[|eids| + j].user == |nodes.users|
    ensures forall d :: 0 <= d < |nodes.items| ==>
      (table[|eids| + j].item == d <==> events[j].item == Asc(nodes.items)[d])
  {
    hide Table, InOrder, RootEvents, Asc, Local, Pick;
    TableLine(g, cutoff, nodes, history, table, eids, events, |eids| + j);
    RootEventsOn(history, nodes.items, |history|);
    var items := Asc(nodes.items);
    forall d: nat | d < |nodes.items| ensures table[|eids| + j].item == d <==> events[j].item == items[d] {
      PickIs(items, events[j].item, d);
    }
  }

  lemma TableSize(g: Graph, cutoff: int, nodes: Nodes, history: seq<HistoryEvent>, table: seq<Row>)
    requires g.Valid() && table == Table(g, cutoff, nodes, history)
    ensures |table| ==
      |InOrder(g, cutoff, nodes.items, Asc(nodes.users), |nodes.users|)| + RootSize(history, nodes.items)
  {
    hide InOrder, RootEvents, Asc, Local, RealRow, RootRow;
  }

  /** An item occurs once for each induced event and each history event on it. */
  lemma {:induction false} ItemOccurs(g: Graph, cutoff: int, nodes: Nodes, history: seq<HistoryEvent>,
                                      table: seq<Row>, d: nat)
    requires g.Valid() && table == Table(g, cutoff, nodes, history) && d < |nodes.items|
    ensures |Occurrences(table, Item, d)| ==
      |At(g, cutoff, nodes, Item, Asc(nodes.items)[d])| + Mentions(history, Asc(nodes.items)[d], |history|)
  {
    hide Table, InOrder, RootEvents, Asc, OfNode, Positions, At, Mentions;
    var node := Asc(nodes.items)[d];
    var column := Column(table, Item, |table|);
    var eids := InOrder(g, cutoff, nodes.items, Asc(nodes.users), |nodes.users|);
    var events := RootEvents(history, nodes.items, |history|);
    TableSize(g, cutoff, nodes, history, table);
    ItemListSize(g, cutoff, nodes, node, eids);
    forall k: nat | k < |eids| ensures column[k] == d <==> g.log.items[eids[k]] == node {
      RealEnd(g, cutoff, nodes, history, table, eids, k);
    }
    RealOccur(column, g.log.items, eids, node, d, |eids|);
    forall j: nat | j < |events| ensures column[|eids| + j] == d <==> events[j].item == node {
      RootEnd(g, cutoff, nodes, history, table, eids, events, j);
    }
    RootOccur(column, |eids|, events, node, d, |events|);
    assert node in Asc(nodes.items);
    MentionsKept(history, nodes.items, node, |history|);
  }

  lemma {:induction false} ItemListSize(g: Graph, cutoff: int, nodes: Nodes, node: nat, eids: seq<nat>)
    requires g.Valid() && eids == InOrder(g, cutoff, nodes.items, Asc(nodes.users), |nodes.users|)
    ensures InLog(eids, |g.log.items|)
    ensures |OfNode(g.log.items, eids, node, |eids|)| == |At(g, cutoff, nodes, Item, node)|
  {
    hide *;
    ItemIncidentIsAt(g, cutoff, nodes, node);
    var listed := OfNode(g.log.items, eids, node, |eids|);
    SameMembers(Sort(Below, listed), listed);
  }

  /** A sampled user occurs once for each of its induced events. */
  lemma {:induction false} UserOccurs(g: Graph, cutoff: int, nodes: Nodes, history: seq<HistoryEvent>,
                                      table: seq<Row>, d: nat)
    requires g.Valid() && table == Table(g, cutoff, nodes, history) && d < |nodes.users|
    ensures |Occurrences(table, User, d)| == |At(g, cutoff, nodes, User, Asc(nodes.users)[d])|
  {
    hide Table, InOrder, RootEvents, Asc, OfNode, Positions, At, Mentions;
    var node := Asc(nodes.users)[d];
    var column := Column(table, User, |table|);
    var eids := InOrder(g, cutoff, nodes.items, Asc(nodes.users), |nodes.users|);
    var events := RootEvents(history, nodes.items, |history|);
    TableSize(g, cutoff, nodes, history, table);
    UserIncidentIsAt(g, cutoff, nodes, d);
    forall k: nat | k < |eids| ensures column[k] == d <==> g.log.users[eids[k]] == node {
      RealEnd(g, cutoff, nodes, history, table, eids, k);
    }
    RealOccur(column, g.log.users, eids, node, d, |eids|);
    forall k: nat | |eids| <= k < |table| ensures column[k] != d {
      RootEnd(g, cutoff, nodes, history, table, eids, events, k - |eids|);
    }
    NoneOccur(column, d, |eids|, |table|);
  }

  /** The root occurs once for each history event on a sampled item. */
  lemma {:induction false} RootOccurs(g: Graph, cutoff: int, nodes: Nodes, history: seq<HistoryEvent>, table: seq<Row>)
    requires g.Valid() && table == Table(g, cutoff, nodes, history)
    ensures |Occurrences(table, User, |nodes.users|)| == RootSize(history, nodes.items)
  {
    hide Table, InOrder, RootEvents, Asc, OfNode, Positions, At, Mentions;
    var d := |nodes.users|;
    var column := Column(table, User, |table|);
    var eids := InOrder(g, cutoff, nodes.items, Asc(nodes.users), |nodes.users|);
    var events := RootEvents(history, nodes.items, |history|);
    TableSize(g, cutoff, nodes, history, table);
    forall k: nat | k < |eids| ensures column[k] != d { RealEnd(g, cutoff, nodes, history, table, eids, k); }
    NoneOccur(column, d, 0, |eids|);
    forall k: nat | |eids| <= k < |table| ensures column[k] == d {
      RootEnd(g, cutoff, nodes, history, table, eids, events, k - |eids|);
    }
    AllOccur(column, d, |eids|, |table|);
    NoPositionsYet(column, d);
  }

  lemma NoPositionsYet(column: seq<nat>, d: nat)
    ensures Positions(column, d, 0) == []
  {
  }

  // ---- what every destination keeps --------------------------------------------------

  lemma {:induction false} KeptCount(rows: seq<Row>, side: Side, size: nat, limit: nat, d: nat)
    requires d < size
    ensures var m := Messages(KeptVirtual(rows, side, size, limit));
      |m.counts| == size && m.counts[d] == Cut(|Occurrences(rows, side, d)|, limit)
  {
    KeptVirtualIs(rows, side, size, limit);
    MessagesAre(KeptVirtual(rows, side, size, limit));
    hide KeptVirtual, Positions, Column, EventColumn, Blocks, Latest, Messages;
  }

  lemma {:induction false} SideCount(g: Graph, cutoff: int, nodes: Nodes, history: seq<HistoryEvent>, table: seq<Row>,
                                     rows: seq<Row>, side: Side, size: nat, limit: nat, d: nat)
    requires g.Valid() && table == Table(g, cutoff, nodes, history) && rows == Sort(RowBefore, table) && d < size
    ensures var m := Messages(KeptVirtual(rows, side, size, limit));
      |m.counts| == size && m.counts[d] == Cut(|Occurrences(table, side, d)|, limit)
  {
    hide *;
    SortKeepsOccurrences(g, cutoff, nodes, history, table, rows, side, d);
    KeptCount(rows, side, size, limit, d);
  }

  /** An item of a virtual sample keeps its induced events and the history's, cut to the
      item limit; a sampled user its induced events and the root its history on sampled
      items, cut to `recent_items`. */
  lemma {:induction false} ExactCounts(g: Graph, cfg: Config, cutoff: int, history: seq<HistoryEvent>, root: Root,
                                       v: GraphSample, nodes: Nodes)
    requires g.Valid() && VirtualExpected(g, cfg, cutoff, history, root) == Sampled(v)
    requires nodes == VirtualReached(g, cfg, cutoff, history, root)
    ensures |v.items| == |v.toItems.counts| == |nodes.items|
    ensures |v.users| == |v.toUsers.counts| == |nodes.users| + 1 && v.root == |nodes.users|
    ensures forall d :: 0 <= d < |nodes.items| ==>
      v.toItems.counts[d] == ItemCount(g, cfg, cutoff, history, nodes, v.items[d])
    ensures forall d :: 0 <= d < |nodes.users| ==>
      v.toUsers.counts[d] == Cut(|At(g, cutoff, nodes, User, v.users[d])|, cfg.recentItems)
    ensures v.toUsers.counts[v.root] == Cut(RootSize(history, nodes.items), cfg.recentItems)
  {
    hide *;
    var table := Table(g, cutoff, nodes, history);
    var rows := Sort(RowBefore, table);
    VirtualParts(g, cfg, cutoff, history, root, v, nodes, rows);
    forall d: nat | d < |nodes.items|
      ensures |v.toItems.counts| == |nodes.items|
      ensures v.toItems.counts[d] == ItemCount(g, cfg, cutoff, history, nodes, v.items[d])
    {
      SideCount(g, cutoff, nodes, history, table, rows, Item, |nodes.items|, cfg.itemNeighborLimit, d);
      ItemOccurs(g, cutoff, nodes, history, table, d);
      ItemCountIs(g, cfg, cutoff, history, nodes, v.items[d]);
    }
    SizeOf(rows, Item, |nodes.items|, cfg.itemNeighborLimit);
    SideCount(g, cutoff, nodes, history, table, rows, User, |nodes.users| + 1, cfg.recentItems, |nodes.users|);
    RootOccurs(g, cutoff, nodes, history, table);
    forall d: nat | d < |nodes.users|
      ensures v.toUsers.counts[d] == Cut(|At(g, cutoff, nodes, User, v.users[d])|, cfg.recentItems)
    {
      SideCount(g, cutoff, nodes, history, table, rows, User, |nodes.users| + 1, cfg.recentItems, d);
      UserOccurs(g, cutoff, nodes, history, table, d);
    }
  }

  /** What an item keeps: its induced events and its mentions in the history. */
  ghost function ItemCount(g: Graph, cfg: Config, cutoff: int, history: seq<HistoryEvent>, nodes: Nodes, i: nat): nat
    requires g.Valid()
  {
    Cut(|At(g, cutoff, nodes, Item, i)| + Mentions(history, i, |history|), cfg.itemNeighborLimit)
  }

  lemma ItemCountIs(g: Graph, cfg: Config, cutoff: int, history: seq<HistoryEvent>, nodes: Nodes, i: nat)
    requires g.Valid()
    ensures ItemCount(g, cfg, cutoff, history, nodes, i) ==
      Cut(|At(g, cutoff, nodes, Item, i)| + Mentions(history, i, |history|), cfg.itemNeighborLimit)
  {
  }

  lemma SizeOf(rows: seq<Row>, side: Side, size: nat, limit: nat)
    ensures |Messages(KeptVirtual(rows, side, size, limit)).counts| == size
  {
    KeptVirtualIs(rows, side, size, limit);
    MessagesAre(KeptVirtual(rows, side, size, limit));
    hide KeptVirtual, Blocks, Latest, Messages;
  }

  // ---- when the ranks fit -----------------------------------------------------------------

  /** Both directions of a virtual sample are built from what its destinations keep. */
  lemma {:induction false} RanksBelowCounts(g: Graph, cfg: Config, cutoff: int, history: seq<HistoryEvent>,
                                            root: Root, v: GraphSample, capacity: nat)
    requires g.Valid() && VirtualExpected(g, cfg, cutoff, history, root) == Sampled(v)
    ensures RanksBelow(v.toUsers.edges, capacity) <==>
      forall d :: 0 <= d < |v.toUsers.counts| ==> v.toUsers.counts[d] <= capacity
    ensures RanksBelow(v.toItems.edges, capacity) <==>
      forall d :: 0 <= d < |v.toItems.counts| ==> v.toItems.counts[d] <= capacity
  {
    hide *;
    var nodes := VirtualReached(g, cfg, cutoff, history, root);
    var rows := Sort(RowBefore, Table(g, cutoff, nodes, history));
    VirtualParts(g, cfg, cutoff, history, root, v, nodes, rows);
    MessagesBelow(KeptVirtual(rows, User, |nodes.users| + 1, cfg.recentItems), capacity);
    MessagesBelow(KeptVirtual(rows, Item, |nodes.items|, cfg.itemNeighborLimit), capacity);
  }

  /** No sampled item keeps more than `capacity` edges. */
  ghost predicate ItemsFit(g: Graph, cfg: Config, cutoff: int, history: seq<HistoryEvent>, nodes: Nodes, capacity: nat)
    requires g.Valid()
  {
    forall i :: i in nodes.items ==> ItemCount(g, cfg, cutoff, history, nodes, i) <= capacity
  }

  ghost predicate RootFits(cfg: Config, history: seq<HistoryEvent>, nodes: Nodes, capacity: nat) {
    Cut(RootSize(history, nodes.items), cfg.recentItems) <= capacity
  }

  lemma ItemsFitListed(g: Graph, cfg: Config, cutoff: int, history: seq<HistoryEvent>, nodes: Nodes, capacity: nat,
                       order: seq<nat>, counts: seq<nat>)
    requires g.Valid() && |order| == |counts| && (forall i :: i in order <==> i in nodes.items)
    requires forall d :: 0 <= d < |order| ==> counts[d] == ItemCount(g, cfg, cutoff, history, nodes, order[d])
    ensures (forall d :: 0 <= d < |counts| ==> counts[d] <= capacity)
      <==> ItemsFit(g, cfg, cutoff, history, nodes, capacity)
  {
    hide ItemCount;
    if forall d :: 0 <= d < |counts| ==> counts[d] <= capacity {
      forall i | i in nodes.items ensures ItemCount(g, cfg, cutoff, history, nodes, i) <= capacity {
        assert i in order;
        var d :| 0 <= d < |order| && order[d] == i;
        assert counts[d] <= capacity;
      }
    } else {
      var d :| 0 <= d < |counts| && counts[d] > capacity;
      assert order[d] in order;
    }
  }

  /** The items' ranks fit if and only if no sampled item has too many induced and
      history events, cut to the item limit. */
  lemma {:induction false} ItemRanksIff(g: Graph, cfg: Config, cutoff: int, history: seq<HistoryEvent>, root: Root,
                                        v: GraphSample, nodes: Nodes, capacity: nat)
    requires g.Valid() && VirtualExpected(g, cfg, cutoff, history, root) == Sampled(v)
    requires nodes == VirtualReached(g, cfg, cutoff, history, root)
    ensures RanksBelow(v.toItems.edges, capacity) <==> ItemsFit(g, cfg, cutoff, history, nodes, capacity)
  {
    hide *;
    RanksBelowCounts(g, cfg, cutoff, history, root, v, capacity);
    ExactCounts(g, cfg, cutoff, history, root, v, nodes);
    VirtualParts(g, cfg, cutoff, history, root, v, nodes, Sort(RowBefore, Table(g, cutoff, nodes, history)));
    ItemsFitListed(g, cfg, cutoff, history, nodes, capacity, v.items, v.toItems.counts);
  }

  /** A sampled user's edges are training events, so `position_capacity` covers them. */
  lemma {:induction false} UserCovered(g: Graph, cfg: Config, cutoff: int, nodes: Nodes, u: nat)
    requires g.Valid() && cfg.Valid() && g.log.Valid()
    ensures Cut(|At(g, cutoff, nodes, User, u)|, cfg.recentItems) <= PositionCapacity(g.log, cfg)
  {
    AtWithinDegree(g, cutoff, nodes, User, u);
    CapacityCovers(g.log, cfg, User, At(g, cutoff, nodes, User, u));
    hide At, PositionCapacity, MaxDegree;
  }

  /** The users' ranks index a table of `position_capacity` rows if and only if the
      root's history on sampled items does, cut to `recent_items`. */
  lemma {:induction false} UserRanksIff(g: Graph, cfg: Config, cutoff: int, history: seq<HistoryEvent>, root: Root,
                                        v: GraphSample, nodes: Nodes)
    requires g.Valid() && cfg.Valid() && g.log.Valid()
    requires VirtualExpected(g, cfg, cutoff, history, root) == Sampled(v)
    requires nodes == VirtualReached(g, cfg, cutoff, history, root)
    ensures RanksBelow(v.toUsers.edges, PositionCapacity(g.log, cfg)) <==>
      RootFits(cfg, history, nodes, PositionCapacity(g.log, cfg))
  {
    hide *;
    var capacity := PositionCapacity(g.log, cfg);
    RanksBelowCounts(g, cfg, cutoff, history, root, v, capacity);
    ExactCounts(g, cfg, cutoff, history, root, v, nodes);
    RootFitsIs(cfg, history, nodes, capacity);
    forall d: nat | d < |nodes.users| ensures v.toUsers.counts[d] <= capacity {
      UserCovered(g, cfg, cutoff, nodes, v.users[d]);
    }
  }

  lemma RootFitsIs(cfg: Config, history: seq<HistoryEvent>, nodes: Nodes, capacity: nat)
    ensures RootFits(cfg, history, nodes, capacity) <==>
      Cut(RootSize(history, nodes.items), cfg.recentItems) <= capacity
  {
  }

  /** Limits within the capacity are enough, whatever the history. */
  lemma {:induction false} LimitsSuffice(g: Graph, cfg: Config, cutoff: int, history: seq<HistoryEvent>, root: Root,
                                         v: GraphSample, capacity: nat)
    requires g.Valid() && cfg.Valid() && VirtualExpected(g, cfg, cutoff, history, root) == Sampled(v)
    requires cfg.recentItems <= capacity && 0 < cfg.itemNeighborLimit <= capacity
    ensures RanksBelow(v.toUsers.edges, capacity) && RanksBelow(v.toItems.edges, capacity)
  {
    hide VirtualExpected, VirtualReached, At, Mentions, RanksBelow;
    RanksBelowCounts(g, cfg, cutoff, history, root, v, capacity);
    ExactCounts(g, cfg, cutoff, history, root, v, VirtualReached(g, cfg, cutoff, history, root));
  }

  // ---- the training log does not bound it -----------------------------------------------

  /** One event, so no training node has a second. */
  function SingleLog(): Graph {
    Graph(Log([0], [0], [5]), [true])
  }

  lemma {:induction false} SingleCapacity(cfg: Config)
    requires cfg.Valid()
    ensures SingleLog().log.Valid() && PositionCapacity(SingleLog().log, cfg) == 1
  {
    var log := SingleLog().log;
    forall side: Side ensures MaxDegree(log, side, 1) == 1 {
      assert (set e: nat | e < |log.users| && log.Column(side)[e] == log.Column(side)[0]) == {0};
      assert MaxDegree(log, side, 0) == 0;
    }
  }

  /** A history of two events on the log's item makes the root keep two edges, but
      `position_capacity` is one. */
  lemma {:induction false} CapacityExceeded(cfg: Config)
    requires cfg.recentItems >= 2 && cfg.maxSampleNodes == 0 && cfg.maxSampleEdges == 0
    ensures SingleLog().Valid()
    ensures var r := VirtualExpected(SingleLog(), cfg, 0, [HistoryEvent(0, 5), HistoryEvent(0, 6)], Unknown);
      r.Sampled? && !RanksBelow(r.sample.toUsers.edges, PositionCapacity(SingleLog().log, cfg))
  {
    var g, history := SingleLog(), [HistoryEvent(0, 5), HistoryEvent(0, 6)];
    assert g.Valid() && cfg.Valid();
    hide *;
    var v, nodes := VirtualExpected(g, cfg, 0, history, Unknown).sample, VirtualReached(g, cfg, 0, history, Unknown);
    SingleCapacity(cfg);
    NothingRefused(g, cfg, 0, history, Unknown);
    NewestReached(g, cfg, 0, history, Unknown);
    BothReached(history, nodes.items);
    RootFitsIs(cfg, history, nodes, 1);
    CutTwo(cfg.recentItems);
    UserRanksIff(g, cfg, 0, history, Unknown, v, nodes);
  }

  lemma CutTwo(limit: nat)
    requires limit >= 2
    ensures Cut(2, limit) == 2
  {
  }

  lemma NothingRefused(g: Graph, cfg: Config, cutoff: int, history: seq<HistoryEvent>, root: Root)
    requires g.Valid() && cfg.maxSampleNodes == 0 && cfg.maxSampleEdges == 0
    ensures VirtualExpected(g, cfg, cutoff, history, root).Sampled?
  {
    hide VirtualReached, EdgeSet, VirtualSample;
  }

  lemma BothReached(history: seq<HistoryEvent>, items: set<nat>)
    requires history == [HistoryEvent(0, 5), HistoryEvent(0, 6)] && 0 in items
    ensures RootSize(history, items) == 2
  {
    assert RootEvents(history, items, 0) == [];
    assert RootEvents(history, items, 1) == [history[0]];
  }
}
