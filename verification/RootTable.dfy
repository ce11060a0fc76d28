/** The nodes and the sorted edge table of a virtual root that is handed a graph
    user's own visible history.

    The root reaches the nodes that ordinary sampling reaches, itself apart, and the
    table lists the induced events of the ordinary sample, each once. */
module RootTable {
  import opened Sorting
  import opened TemporalGraph
  import opened Reach
  import opened Induced
  import opened Messaging
  import opened Sampler
  import opened VirtualRoot

  /** The history is the user's visible events up to the cutoff, oldest first. */
  ghost predicate OwnHistory(g: Graph, cutoff: int, user: nat, history: seq<HistoryEvent>)
    requires g.Valid()
  {
    var events := g.Recent(User, user, cutoff, 0);
    && |history| == |events|
    && forall k :: 0 <= k < |events| ==>
         history[k] == HistoryEvent(g.log.items[events[k]], g.log.times[events[k]])
  }

  // ---- the same nodes ---------------------------------------------------------

  lemma {:induction false} SameStart(g: Graph, cfg: Config, cutoff: int, user: nat, history: seq<HistoryEvent>)
    requires g.Valid() && OwnHistory(g, cutoff, user, history)
    ensures var newest := Last(history, cfg.recentItems);
      HistoryItems(newest, |newest|) == Start(g, cfg, user, cutoff).items
  {
    var newest, events := Last(history, cfg.recentItems), g.Recent(User, user, cutoff, 0);
    var recent := g.Recent(User, user, cutoff, cfg.recentItems);
    RecentIsNewest(g, User, user, cutoff, cfg.recentItems);
    hide Before, Last, HistoryItems, EndPoints;
    forall k | 0 <= k < |newest| ensures newest[k].item == g.log.items[recent[k]] {
      LastEntry(history, cfg.recentItems, k);
      LastEntry(events, cfg.recentItems, k);
    }
    NewestItems(g, newest, recent);
  }

  lemma NewestItems(g: Graph, newest: seq<HistoryEvent>, recent: seq<nat>)
    requires g.Valid() && |newest| == |recent| && forall k :: 0 <= k < |recent| ==> recent[k] < |g.allowed|
    requires forall k :: 0 <= k < |newest| ==> newest[k].item == g.log.items[recent[k]]
    ensures HistoryItems(newest, |newest|) == EndPoints(g, User, recent)
  {
    var a, b := HistoryItems(newest, |newest|), EndPoints(g, User, recent);
    hide HistoryItems;
    forall i ensures i in a <==> i in b {
      HistoryItemsAre(newest, |newest|, i);
      if i in a {
        var k :| 0 <= k < |newest| && newest[k].item == i;
        assert recent[k] in recent;
      }
      if i in b {
        var e :| e in recent && g.log.items[e] == i;
        var k :| 0 <= k < |recent| && recent[k] == e;
        assert newest[k].item == i;
      }
    }
  }

  lemma {:induction false} RoundWithRoot(g: Graph, cfg: Config, cutoff: int, user: nat, v: Nodes)
    requires g.Valid() && user !in v.users && Neighbors(g, cfg, User, cutoff, user) <= v.items
    ensures var w := Round(g, cfg, cutoff, {user}, v);
      && Round(g, cfg, cutoff, {}, Nodes(v.users + {user}, v.items)) == Nodes(w.users + {user}, w.items)
      && user !in w.users && v.items <= w.items
  {
    var w := Round(g, cfg, cutoff, {user}, v);
    AcrossUnion(g, cfg, User, cutoff, w.users, {user});
    AcrossFew(g, cfg, User, cutoff, user);
    var s := Nodes(v.users + {user}, v.items);
    hide Across, Neighbors;
    assert s.users + (Across(g, cfg, Item, cutoff, s.items) - {}) == w.users + {user};
    assert s.items + Across(g, cfg, User, cutoff, w.users + {user}) == w.items;
  }

  lemma {:induction false} RoundsWithRoot(g: Graph, cfg: Config, cutoff: int, user: nat, items: set<nat>, n: nat)
    requires g.Valid() && Neighbors(g, cfg, User, cutoff, user) <= items
    ensures var v := Rounds(g, cfg, cutoff, {user}, Nodes({}, items), n);
      && Rounds(g, cfg, cutoff, {}, Nodes({user}, items), n) == Nodes(v.users + {user}, v.items)
      && user !in v.users && items <= v.items
  {
    hide Round, Neighbors;
    if n > 0 {
      RoundsWithRoot(g, cfg, cutoff, user, items, n - 1);
      RoundWithRoot(g, cfg, cutoff, user, Rounds(g, cfg, cutoff, {user}, Nodes({}, items), n - 1));
    } else {
      assert {} + {user} == {user};
    }
  }

  /** The virtual root reaches the same items, and the same users other than itself. */
  lemma {:induction false} SameNodes(g: Graph, cfg: Config, cutoff: int, user: nat, history: seq<HistoryEvent>)
    requires g.Valid() && OwnHistory(g, cutoff, user, history)
    ensures var v := VirtualReached(g, cfg, cutoff, history, Known(user));
      Reached(g, cfg, user, cutoff) == Nodes(v.users + {user}, v.items) && user !in v.users
  {
    SameStart(g, cfg, cutoff, user, history);
    var items := Start(g, cfg, user, cutoff).items;
    hide Rounds, HistoryItems;
    RoundsWithRoot(g, cfg, cutoff, user, items, cfg.samplingOrder + 1);
  }

  // ---- the sorted edge table traces the induced events --------------------------

  /** The root moved to the last local index; the users after it move up by one. */
  function Moved(root: nat, size: nat, k: nat): nat
    requires root < size
  {
    if k < root then k else if k == root then size - 1 else k - 1
  }

  // Other users' events keep their own numbers as keys; the root's own get keys beyond
  // the log. `Traced` and `Traces` record which line belongs to which event.

  /** The virtual local index of a user. */
  ghost function Label(others: seq<nat>, user: nat, w: nat): nat {
    if w == user then |others| else Pick(Local(others), w)
  }

  /** `row` is the edge-table line of event `e`; `own` lists the root's own edges. */
  ghost predicate Traced(log: Log, user: nat, others: seq<nat>, items: seq<nat>, own: seq<nat>, row: Row, e: nat)
    requires log.Valid()
  {
    && e < |log.users|
    && row.time == log.times[e]
    && row.item == Pick(Local(items), log.items[e])
    && row.user == Label(others, user, log.users[e])
    && row.event == (if log.users[e] == user then -1 else e)
    && (log.users[e] != user ==> row.key == e)
    && (log.users[e] == user ==>
          exists k :: 0 <= k < |own| && own[k] == e && row.key == |log.users| + 1 + k)
  }

  /** The sorted table lists the induced events, each once, by (time, key). */
  ghost predicate Traces(g: Graph, cutoff: int, nodes: Nodes, user: nat, own: seq<nat>, rows: seq<Row>, eids: seq<nat>)
    requires g.Valid()
  {
    && |eids| == |rows| && Sorted(RowBefore, rows) && Ascending(own)
    && (forall p :: 0 <= p < |rows| ==>
          Traced(g.log, user, Asc(nodes.users - {user}), Asc(nodes.items), own, rows[p], eids[p]))
    && (forall p :: 0 <= p < |rows| ==> eids[p] in EdgeSet(g, cutoff, nodes))
    && (forall e :: e in EdgeSet(g, cutoff, nodes) ==> e in eids)
  }

  /** Another user's event ties with a later-placed root event: same item, same
      time, but a larger event id. */
  ghost predicate Tie(log: Log, user: nat, e: nat, r: nat)
    requires log.Valid()
  {
    && r < e < |log.users|
    && log.users[r] == user && log.users[e] != user
    && log.items[r] == log.items[e] && log.times[r] == log.times[e]
  }

  /** Two table lines are in event order unless they tie. */
  lemma RowOrder(log: Log, user: nat, others: seq<nat>, items: seq<nat>, own: seq<nat>, a: Row, b: Row, e: nat, f: nat)
    requires log.Valid() && Ascending(own) && RowBefore(a, b)
    requires Traced(log, user, others, items, own, a, e) && Traced(log, user, others, items, own, b, f)
    requires log.users[e] == log.users[f] || (log.items[e] == log.items[f] && !Tie(log, user, e, f))
    ensures e < f
  {
    hide Label, Pick, Local;
  }

  // ---- the table really traces them ---------------------------------------------

  lemma {:induction false} RootEventsAre(g: Graph, events: seq<nat>, history: seq<HistoryEvent>, items: set<nat>,
                                         n: nat)
    requires g.Valid() && n <= |events| == |history|
    requires forall k :: 0 <= k < |events| ==>
      events[k] < |g.allowed| && history[k] == HistoryEvent(g.log.items[events[k]], g.log.times[events[k]])
    ensures |RootEvents(history, items, n)| == |Keep(g, events, items, n)|
    ensures forall k :: 0 <= k < |Keep(g, events, items, n)| ==>
      RootEvents(history, items, n)[k] ==
        HistoryEvent(g.log.items[Keep(g, events, items, n)[k]], g.log.times[Keep(g, events, items, n)[k]])
  {
    if n > 0 { RootEventsAre(g, events, history, items, n - 1); }
  }

  /** The event behind a table line. */
  ghost function Origin(row: Row, base: nat, own: seq<nat>): nat {
    if row.event >= 0 then row.event
    else if base <= row.key < base + |own| then own[row.key - base]
    else 0
  }

  ghost function Origins(rows: seq<Row>, base: nat, own: seq<nat>, n: nat): (r: seq<nat>)
    requires n <= |rows|
    ensures |r| == n
    ensures forall k {:trigger r[k]} :: 0 <= k < n ==> r[k] == Origin(rows[k], base, own)
  {
    if n == 0 then [] else Origins(rows, base, own, n - 1) + [Origin(rows[n - 1], base, own)]
  }

  lemma RealTraced(log: Log, user: nat, others: seq<nat>, items: seq<nat>, own: seq<nat>, e: nat)
    requires log.Valid() && e < |log.users| && log.users[e] != user
    ensures Traced(log, user, others, items, own, RealRow(log, Local(others), Local(items), e), e)
    ensures Origin(RealRow(log, Local(others), Local(items), e), |log.users| + 1, own) == e
  {
    hide Pick, Local;
  }

  lemma RootTraced(log: Log, user: nat, others: seq<nat>, items: seq<nat>, own: seq<nat>, events: seq<HistoryEvent>,
                   j: nat)
    requires log.Valid() && |events| == |own| && j < |own| && own[j] < |log.users| && log.users[own[j]] == user
    requires events[j] == HistoryEvent(log.items[own[j]], log.times[own[j]])
    ensures var row := RootRow(events, |log.users| + 1, |others|, Local(items), j);
      Traced(log, user, others, items, own, row, own[j]) && Origin(row, |log.users| + 1, own) == own[j]
  {
    hide Pick, Local;
  }

  ghost predicate OwnEvents(g: Graph, own: seq<nat>, events: seq<HistoryEvent>)
    requires g.Valid()
  {
    && |events| == |own|
    && forall k :: 0 <= k < |own| ==>
         own[k] < |g.log.users| && events[k] == HistoryEvent(g.log.items[own[k]], g.log.times[own[k]])
  }

  lemma {:induction false} OwnEventsAre(g: Graph, cutoff: int, user: nat, items: set<nat>, history: seq<HistoryEvent>)
    requires g.Valid() && OwnHistory(g, cutoff, user, history)
    ensures OwnEvents(g, UserEdges(g, cutoff, items, user), RootEvents(history, items, |history|))
  {
    var mine := g.Recent(User, user, cutoff, 0);
    RootEventsAre(g, mine, history, items, |mine|);
    hide Before, RootEvents, Keep;
  }

  /** The real edges of the table are induced events of other users. */
  lemma {:induction false} RealInduced(g: Graph, cutoff: int, user: nat, nodes: Nodes, k: nat)
    requires g.Valid()
    ensures var v := Nodes(nodes.users - {user}, nodes.items);
      var eids := InOrder(g, cutoff, v.items, Asc(v.users), |v.users|);
      k < |eids| ==> eids[k] in EdgeSet(g, cutoff, nodes) && g.log.users[eids[k]] != user
  {
    var v := Nodes(nodes.users - {user}, nodes.items);
    var eids := InOrder(g, cutoff, v.items, Asc(v.users), |v.users|);
    InOrderIsEdgeSet(g, cutoff, v);
    hide InOrder, Sort, Asc;
    if k < |eids| { assert eids[k] in SetOf(eids); }
  }

  lemma OwnInduced(g: Graph, cutoff: int, user: nat, nodes: Nodes, own: seq<nat>, j: nat)
    requires g.Valid() && user in nodes.users && own == UserEdges(g, cutoff, nodes.items, user) && j < |own|
    ensures own[j] in EdgeSet(g, cutoff, nodes) && g.log.users[own[j]] == user
  {
    UserEdgesSpec(g, cutoff, nodes.items, user);
    hide UserEdges;
    assert own[j] in own;
  }

  lemma EdgeInLog(g: Graph, cutoff: int, nodes: Nodes, e: nat)
    requires g.Valid() && e in EdgeSet(g, cutoff, nodes)
    ensures e < |g.log.users|
  {
  }

  lemma {:induction false} TableTraced(g: Graph, cutoff: int, user: nat, nodes: Nodes, history: seq<HistoryEvent>,
                                       own: seq<nat>, table: seq<Row>, k: nat)
    requires g.Valid() && OwnHistory(g, cutoff, user, history) && user in nodes.users
    requires own == UserEdges(g, cutoff, nodes.items, user)
    requires table == Table(g, cutoff, Nodes(nodes.users - {user}, nodes.items), history) && k < |table|
    ensures Origin(table[k], |g.log.users| + 1, own) in EdgeSet(g, cutoff, nodes)
    ensures Traced(g.log, user, Asc(nodes.users - {user}), Asc(nodes.items), own, table[k],
                   Origin(table[k], |g.log.users| + 1, own))
  {
    hide *;
    ValidLog(g);
    var v := Nodes(nodes.users - {user}, nodes.items);
    var eids := InOrder(g, cutoff, v.items, Asc(v.users), |v.users|);
    var events := RootEvents(history, v.items, |history|);
    TableLine(g, cutoff, v, history, table, eids, events, k);
    if k < |eids| {
      RealTracedAt(g, cutoff, user, nodes, own, eids, k);
    } else {
      OwnTracedAt(g, cutoff, user, nodes, history, own, events, k - |eids|);
    }
  }

  lemma {:induction false} RealTracedAt(g: Graph, cutoff: int, user: nat, nodes: Nodes, own: seq<nat>, eids: seq<nat>,
                                        k: nat)
    requires g.Valid() && g.log.Valid() && k < |eids|
    requires eids == InOrder(g, cutoff, nodes.items, Asc(nodes.users - {user}), |nodes.users - {user}|)
    ensures eids[k] in EdgeSet(g, cutoff, nodes) && eids[k] < |g.log.users|
    ensures var row := RealRow(g.log, Local(Asc(nodes.users - {user})), Local(Asc(nodes.items)), eids[k]);
      && Origin(row, |g.log.users| + 1, own) == eids[k]
      && Traced(g.log, user, Asc(nodes.users - {user}), Asc(nodes.items), own, row, eids[k])
  {
    hide *;
    RealInduced(g, cutoff, user, nodes, k);
    EdgeInLog(g, cutoff, nodes, eids[k]);
    RealTraced(g.log, user, Asc(nodes.users - {user}), Asc(nodes.items), own, eids[k]);
  }

  lemma {:induction false} OwnTracedAt(g: Graph, cutoff: int, user: nat, nodes: Nodes, history: seq<HistoryEvent>,
                                       own: seq<nat>, events: seq<HistoryEvent>, j: nat)
    requires g.Valid() && g.log.Valid() && OwnHistory(g, cutoff, user, history) && user in nodes.users
    requires own == UserEdges(g, cutoff, nodes.items, user)
    requires events == RootEvents(history, nodes.items, |history|) && j < |events|
    ensures j < |own| && own[j] in EdgeSet(g, cutoff, nodes)
    ensures var row := RootRow(events, |g.log.users| + 1, |nodes.users - {user}|, Local(Asc(nodes.items)), j);
      && Origin(row, |g.log.users| + 1, own) == own[j]
      && Traced(g.log, user, Asc(nodes.users - {user}), Asc(nodes.items), own, row, own[j])
  {
    hide *;
    OwnEventsAre(g, cutoff, user, nodes.items, history);
    OwnCounts(g, own, events, j);
    OwnInduced(g, cutoff, user, nodes, own, j);
    RootTraced(g.log, user, Asc(nodes.users - {user}), Asc(nodes.items), own, events, j);
  }

  lemma OwnCounts(g: Graph, own: seq<nat>, events: seq<HistoryEvent>, j: nat)
    requires g.Valid() && OwnEvents(g, own, events) && j < |events|
    ensures |events| == |own|
    ensures own[j] < |g.log.users| && events[j] == HistoryEvent(g.log.items[own[j]], g.log.times[own[j]])
  {
  }

  lemma OwnIndex(g: Graph, cutoff: int, user: nat, nodes: Nodes, own: seq<nat>, e: nat) returns (j: nat)
    requires g.Valid() && own == UserEdges(g, cutoff, nodes.items, user)
    requires e in EdgeSet(g, cutoff, nodes) && g.log.users[e] == user
    ensures j < |own| && own[j] == e
  {
    UserEdgesSpec(g, cutoff, nodes.items, user);
    hide UserEdges;
    assert e in own;
    j :| j < |own| && own[j] == e;
  }

  lemma {:induction false} RealIndex(g: Graph, cutoff: int, user: nat, nodes: Nodes, v: Nodes, eids: seq<nat>, e: nat)
    returns (k: nat)
    requires g.Valid() && v == Nodes(nodes.users - {user}, nodes.items)
    requires eids == InOrder(g, cutoff, v.items, Asc(v.users), |v.users|)
    requires e in EdgeSet(g, cutoff, nodes) && g.log.users[e] != user
    ensures k < |eids| && eids[k] == e
  {
    InOrderIsEdgeSet(g, cutoff, v);
    hide InOrder, Sort, Asc;
    assert e in SetOf(eids);
    k :| k < |eids| && eids[k] == e;
  }

  lemma {:induction false} CoversOwn(g: Graph, cutoff: int, user: nat, nodes: Nodes, history: seq<HistoryEvent>,
                                     own: seq<nat>, table: seq<Row>, v: Nodes, e: nat) returns (k: nat)
    requires g.Valid() && g.log.Valid() && OwnHistory(g, cutoff, user, history)
    requires own == UserEdges(g, cutoff, nodes.items, user) && v == Nodes(nodes.users - {user}, nodes.items)
    requires table == Table(g, cutoff, v, history)
    requires e in EdgeSet(g, cutoff, nodes) && e < |g.log.users| && g.log.users[e] == user
    ensures k < |table| && Origin(table[k], |g.log.users| + 1, own) == e
  {
    hide *;
    var eids := InOrder(g, cutoff, v.items, Asc(v.users), |v.users|);
    var events := RootEvents(history, v.items, |history|);
    var j := OwnIndex(g, cutoff, user, nodes, own, e);
    OwnEventsAre(g, cutoff, user, v.items, history);
    OwnCount(g, own, events);
    OwnCounts(g, own, events, j);
    k := |eids| + j;
    TableLine(g, cutoff, v, history, table, eids, events, k);
    RootTraced(g.log, user, Asc(v.users), Asc(v.items), own, events, j);
  }

  lemma {:induction false} CoversReal(g: Graph, cutoff: int, user: nat, nodes: Nodes, history: seq<HistoryEvent>,
                                      own: seq<nat>, table: seq<Row>, v: Nodes, e: nat) returns (k: nat)
    requires g.Valid() && g.log.Valid() && v == Nodes(nodes.users - {user}, nodes.items)
    requires table == Table(g, cutoff, v, history)
    requires e in EdgeSet(g, cutoff, nodes) && e < |g.log.users| && g.log.users[e] != user
    ensures k < |table| && Origin(table[k], |g.log.users| + 1, own) == e
  {
    hide *;
    var eids := InOrder(g, cutoff, v.items, Asc(v.users), |v.users|);
    var events := RootEvents(history, v.items, |history|);
    k := RealIndex(g, cutoff, user, nodes, v, eids, e);
    TableLine(g, cutoff, v, history, table, eids, events, k);
    RealTraced(g.log, user, Asc(v.users), Asc(v.items), own, e);
  }

  /** Every induced event appears in the table. */
  lemma {:induction false} TableCovers(g: Graph, cutoff: int, user: nat, nodes: Nodes, history: seq<HistoryEvent>,
                                       own: seq<nat>, table: seq<Row>, v: Nodes, e: nat) returns (k: nat)
    requires g.Valid() && OwnHistory(g, cutoff, user, history)
    requires own == UserEdges(g, cutoff, nodes.items, user) && v == Nodes(nodes.users - {user}, nodes.items)
    requires table == Table(g, cutoff, v, history)
    requires e in EdgeSet(g, cutoff, nodes)
    ensures k < |table| && Origin(table[k], |g.log.users| + 1, own) == e
  {
    EdgeInLog(g, cutoff, nodes, e);
    hide *;
    ValidLog(g);
    if g.log.users[e] == user {
      k := CoversOwn(g, cutoff, user, nodes, history, own, table, v, e);
    } else {
      k := CoversReal(g, cutoff, user, nodes, history, own, table, v, e);
    }
  }

  lemma OwnCount(g: Graph, own: seq<nat>, events: seq<HistoryEvent>)
    requires g.Valid() && OwnEvents(g, own, events)
    ensures |events| == |own|
  {
  }

  lemma {:induction false} TracesIntro(g: Graph, cutoff: int, nodes: Nodes, user: nat, own: seq<nat>, rows: seq<Row>,
                                       eids: seq<nat>)
    requires g.Valid() && |eids| == |rows| && Sorted(RowBefore, rows) && Ascending(own)
    requires forall p :: 0 <= p < |rows| ==>
      Traced(g.log, user, Asc(nodes.users - {user}), Asc(nodes.items), own, rows[p], eids[p])
    requires forall p :: 0 <= p < |rows| ==> eids[p] in EdgeSet(g, cutoff, nodes)
    requires forall e :: e in EdgeSet(g, cutoff, nodes) ==> e in eids
    ensures Traces(g, cutoff, nodes, user, own, rows, eids)
  {
    hide Traced, EdgeSet, Sorted, Ascending, Asc;
  }

  lemma {:induction false} SortedTraced(g: Graph, cutoff: int, user: nat, nodes: Nodes, history: seq<HistoryEvent>,
                                        own: seq<nat>, table: seq<Row>, row: Row)
    requires g.Valid() && OwnHistory(g, cutoff, user, history) && user in nodes.users
    requires own == UserEdges(g, cutoff, nodes.items, user)
    requires table == Table(g, cutoff, Nodes(nodes.users - {user}, nodes.items), history) && row in table
    ensures Origin(row, |g.log.users| + 1, own) in EdgeSet(g, cutoff, nodes)
    ensures Traced(g.log, user, Asc(nodes.users - {user}), Asc(nodes.items), own, row,
                   Origin(row, |g.log.users| + 1, own))
  {
    hide *;
    var k :| 0 <= k < |table| && table[k] == row;
    TableTraced(g, cutoff, user, nodes, history, own, table, k);
  }

  lemma {:induction false} SortedCovers(g: Graph, cutoff: int, user: nat, nodes: Nodes, history: seq<HistoryEvent>,
                                        own: seq<nat>, table: seq<Row>, rows: seq<Row>, eids: seq<nat>, v: Nodes,
                                        e: nat)
    requires g.Valid() && OwnHistory(g, cutoff, user, history)
    requires own == UserEdges(g, cutoff, nodes.items, user) && v == Nodes(nodes.users - {user}, nodes.items)
    requires table == Table(g, cutoff, v, history) && e in EdgeSet(g, cutoff, nodes)
    requires rows == Sort(RowBefore, table) && eids == Origins(rows, |g.log.users| + 1, own, |rows|)
    ensures e in eids
  {
    hide *;
    SortedMembers(table);
    var k := TableCovers(g, cutoff, user, nodes, history, own, table, v, e);
    assert table[k] in rows;
    var p :| 0 <= p < |rows| && rows[p] == table[k];
    assert eids[p] == e;
  }

  /** The sorted table traces the induced events of the ordinary sample. */
  lemma {:induction false} SortedTraces(g: Graph, cutoff: int, user: nat, nodes: Nodes, history: seq<HistoryEvent>,
                                        own: seq<nat>, v: Nodes, rows: seq<Row>, eids: seq<nat>)
    requires g.Valid() && OwnHistory(g, cutoff, user, history) && user in nodes.users
    requires own == UserEdges(g, cutoff, nodes.items, user) && v == Nodes(nodes.users - {user}, nodes.items)
    requires rows == Sort(RowBefore, Table(g, cutoff, v, history))
    requires eids == Origins(rows, |g.log.users| + 1, own, |rows|)
    ensures Traces(g, cutoff, nodes, user, own, rows, eids)
  {
    hide *;
    ValidLog(g);
    var table := Table(g, cutoff, v, history);
    SortedMembers(table);
    UserEdgesSpec(g, cutoff, nodes.items, user);
    TableSorts(g, cutoff, v, history, table);
    forall p | 0 <= p < |rows|
      ensures eids[p] in EdgeSet(g, cutoff, nodes)
      ensures Traced(g.log, user, Asc(nodes.users - {user}), Asc(nodes.items), own, rows[p], eids[p])
    {
      assert rows[p] in rows;
      SortedTraced(g, cutoff, user, nodes, history, own, table, rows[p]);
    }
    forall e | e in EdgeSet(g, cutoff, nodes) ensures e in eids {
      SortedCovers(g, cutoff, user, nodes, history, own, table, rows, eids, v, e);
    }
    TracesIntro(g, cutoff, nodes, user, own, rows, eids);
  }
}
