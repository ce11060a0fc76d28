/** Virtual-root sampling refines ordinary sampling.

    Handed a graph user's own visible history, `_sample_virtual` gives the sample
    `sample` gives, with the root moved to the last local index: the same items, the
    same users, and at every destination the same messages in the same order, exactly
    when no event that an item keeps ties with an earlier event of the root. */
module RootRefinement {
  import opened Sorting
  import opened TemporalGraph
  import opened Reach
  import opened Induced
  import opened Messaging
  import opened Sampler
  import opened VirtualRoot
  import opened RootTable

  // ---- two arrangements of the same events ------------------------------------------

  /** `a` lists the entries of the ascending `b`, each once, in some order. */
  ghost predicate Rearranges(a: seq<nat>, b: seq<nat>) {
    Distinct(a) && Ascending(b) && forall x :: x in a <==> x in b
  }

  lemma RearrangesIntro(a: seq<nat>, b: seq<nat>)
    requires Ascending(b) && forall x :: x in a <==> x in b
    requires forall i, j :: 0 <= i < j < |a| ==> a[i] != a[j]
    ensures Rearranges(a, b)
  {
  }

  lemma RearrangesSame(a: seq<nat>, b: seq<nat>)
    requires Rearranges(a, b)
    ensures forall x :: x in a <==> x in b
  {
  }

  lemma RearrangedSize(a: seq<nat>, b: seq<nat>)
    requires Rearranges(a, b)
    ensures |a| == |b|
  {
    assert Distinct(b);
    NotMore(a, b);
    NotMore(b, a);
  }

  lemma {:induction false} RearrangedFront(a: seq<nat>, b: seq<nat>)
    requires Rearranges(a, b) && |a| == |b| > 0 && a[|a| - 1] == b[|b| - 1]
    ensures Rearranges(a[..|a| - 1], b[..|b| - 1])
  {
    var n := |b| - 1;
    forall x ensures x in a[..n] <==> x in b[..n] {
      assert x in a <==> x in a[..n] || x == a[n];
      assert x in b <==> x in b[..n] || x == b[n];
    }
  }

  /** If no entry of the last `n` of `b` comes before a smaller one in `a`, then the
      two end in the same `n` entries. */
  lemma {:induction false} SuffixKept(a: seq<nat>, b: seq<nat>, n: nat)
    requires Rearranges(a, b) && n <= |a| == |b|
    requires forall i, j | 0 <= i < j < |a| && a[j] < a[i] && n > 0 :: a[i] < b[|b| - n]
    ensures forall k :: |b| - n <= k < |b| ==> a[k] == b[k]
  {
    if n > 0 {
      var m := |b| - 1;
      assert b[m] in a && a[m] in b;
      var i :| 0 <= i < |a| && a[i] == b[m];
      assert i == m;
      RearrangedFront(a, b);
      SuffixKept(a[..m], b[..m], n - 1);
    }
  }

  /** An entry that comes before a smaller one, and after no larger one, comes earlier
      than the ascending order puts it. */
  lemma {:induction false} MovesForward(a: seq<nat>, b: seq<nat>, p: nat, j: nat, q: nat)
    requires Rearranges(a, b) && p < j < |a| == |b| && q < |b| && a[p] == b[q]
    requires a[j] < a[p] && forall i :: 0 <= i < p ==> a[i] < a[p]
    ensures p < q
  {
    var behind := b[q + 1..] + [a[j]];
    forall x | x in behind ensures x in a[p + 1..] {
      if x == a[j] {
        assert a[p + 1..][j - p - 1] == x;
      } else {
        assert x in b && x in a && x > b[q];
        var i :| 0 <= i < |a| && a[i] == x;
        assert a[p + 1..][i - p - 1] == x;
      }
    }
    NotMore(behind, a[p + 1..]);
  }

  /** Not every entry from place `q` on can be above the ascending order's entry there. */
  lemma {:induction false} NotAllAbove(a: seq<nat>, b: seq<nat>, q: nat) returns (k: nat)
    requires Rearranges(a, b) && q < |a| == |b|
    ensures q <= k < |a| && a[k] <= b[q]
  {
    if forall i :: q <= i < |a| ==> a[i] > b[q] {
      forall x | x in a[q..] ensures x in b[q + 1..] {
        assert x in a && x in b && x > b[q];
        var i :| 0 <= i < |b| && b[i] == x;
        assert b[q + 1..][i - q - 1] == x;
      }
      NotMore(a[q..], b[q + 1..]);
    }
    k :| q <= k < |a| && a[k] <= b[q];
  }

  // ---- the table and the events behind it -------------------------------------------

  /** The virtual local index of a node of either side. */
  ghost function LocalOf(nodes: Nodes, user: nat, side: Side, w: nat): nat {
    if side.User? then Label(Asc(nodes.users - {user}), user, w) else Pick(Local(Asc(nodes.items)), w)
  }

  ghost function SideOf(nodes: Nodes, side: Side): set<nat> {
    if side.User? then nodes.users else nodes.items
  }

  lemma {:induction false} LocalInjective(nodes: Nodes, user: nat, side: Side, a: nat, b: nat)
    requires a in SideOf(nodes, side) && b in SideOf(nodes, side)
    requires LocalOf(nodes, user, side, a) == LocalOf(nodes, user, side, b)
    ensures a == b
  {
    hide Asc;
  }

  lemma RowLocal(g: Graph, cutoff: int, nodes: Nodes, user: nat, own: seq<nat>, row: Row, e: nat, side: Side)
    requires g.Valid() && e in EdgeSet(g, cutoff, nodes)
    requires Traced(g.log, user, Asc(nodes.users - {user}), Asc(nodes.items), own, row, e)
    ensures e < |g.log.Column(side)|
    ensures (if side.User? then row.user else row.item) == LocalOf(nodes, user, side, g.log.Column(side)[e])
    ensures g.log.Column(side)[e] in SideOf(nodes, side)
  {
    hide Label, Pick, Local, Asc;
  }

  /** The events behind the table lines `at`. */
  ghost function Through(eids: seq<nat>, at: seq<nat>, n: nat): (r: seq<nat>)
    requires n <= |at| && forall j :: 0 <= j < |at| ==> at[j] < |eids|
    ensures |r| == n
    ensures forall j {:trigger r[j]} :: 0 <= j < n ==> r[j] == eids[at[j]]
  {
    if n == 0 then [] else Through(eids, at, n - 1) + [eids[at[n - 1]]]
  }

  /** The sorted edge table `rows` of a root's own history, beside the nodes of the
      ordinary sample; `eids[p]` is the event behind line p. */
  datatype Encoding = Encoding(g: Graph, cutoff: int, nodes: Nodes, user: nat, own: seq<nat>, rows: seq<Row>,
                               eids: seq<nat>)
  {
    ghost predicate Valid() {
      g.Valid() && user in nodes.users && |eids| == |rows| && Traces(g, cutoff, nodes, user, own, rows, eids)
    }

    ghost predicate Edge(e: nat)
      requires g.Valid()
    {
      e in EdgeSet(g, cutoff, nodes)
    }

    /** The table lines filed under a node, in table order. */
    ghost function Lines(side: Side, node: nat): (r: seq<nat>)
      ensures forall j {:trigger r[j]} :: 0 <= j < |r| ==> r[j] < |rows|
    {
      Positions(Column(rows, side, |rows|), LocalOf(nodes, user, side, node), |rows|)
    }

    /** The events behind them. */
    ghost function Filed(side: Side, node: nat): (r: seq<nat>)
      requires |eids| == |rows|
    {
      Through(eids, Lines(side, node), |Lines(side, node)|)
    }

    /** The node's induced events, in event order. */
    ghost function Events(side: Side, node: nat): (r: seq<nat>)
      requires g.Valid()
    {
      At(g, cutoff, nodes, side, node)
    }
  }

  // The edge table orders a root event after every real event of the same time, while
  // the graph orders it by its own number. A later-numbered event of another user on the
  // same item and at the same time therefore changes places with it.

  /** No event that an item keeps belongs to another user and ties with an earlier
      event of the root. */
  ghost predicate NoTies(g: Graph, cutoff: int, nodes: Nodes, user: nat, item: nat, limit: nat)
    requires g.Valid()
  {
    forall e, r | e in Last(At(g, cutoff, nodes, Item, item), limit) && r in EdgeSet(g, cutoff, nodes) ::
      !Tie(g.log, user, e, r)
  }

  lemma {:induction false} LineAt(t: Encoding, side: Side, node: nat, p: nat)
    requires t.Valid() && node in SideOf(t.nodes, side) && p < |t.rows|
    ensures t.Edge(t.eids[p]) && t.eids[p] < |t.g.log.Column(side)|
    ensures Column(t.rows, side, |t.rows|)[p] == LocalOf(t.nodes, t.user, side, node) <==>
      t.g.log.Column(side)[t.eids[p]] == node
  {
    hide Traced, LocalOf, EdgeSet, SideOf, Asc, Sorted;
    RowLocal(t.g, t.cutoff, t.nodes, t.user, t.own, t.rows[p], t.eids[p], side);
    if Column(t.rows, side, |t.rows|)[p] == LocalOf(t.nodes, t.user, side, node) {
      LocalInjective(t.nodes, t.user, side, t.g.log.Column(side)[t.eids[p]], node);
    }
  }

  /** Two lines of one node are in event order unless their events tie. */
  lemma {:induction false} LineOrder(t: Encoding, side: Side, p: nat, q: nat)
    requires t.Valid() && p < q < |t.rows|
    requires t.eids[p] < |t.g.log.Column(side)| && t.eids[q] < |t.g.log.Column(side)|
    requires t.g.log.Column(side)[t.eids[p]] == t.g.log.Column(side)[t.eids[q]]
    ensures t.eids[p] < t.eids[q] || (side.Item? && Tie(t.g.log, t.user, t.eids[p], t.eids[q]))
  {
    assert RowBefore(t.rows[p], t.rows[q]);
    hide Traced, EdgeSet, Asc, RowBefore, Tie;
    if !(side.Item? && Tie(t.g.log, t.user, t.eids[p], t.eids[q])) {
      RowOrder(t.g.log, t.user, Asc(t.nodes.users - {t.user}), Asc(t.nodes.items), t.own, t.rows[p], t.rows[q],
               t.eids[p], t.eids[q]);
    }
  }

  lemma EncodingParts(t: Encoding)
    requires t.Valid()
    ensures t.g.Valid() && t.g.log.Valid() && t.user in t.nodes.users && |t.eids| == |t.rows|
  {
    hide Traces;
  }

  lemma ItemSide(nodes: Nodes, node: nat)
    ensures node in SideOf(nodes, Item) <==> node in nodes.items
  {
  }

  lemma EventAt(t: Encoding, side: Side, node: nat, e: nat)
    requires t.g.Valid() && t.Edge(e) && e < |t.g.log.Column(side)|
    ensures e in t.Events(side, node) <==> t.g.log.Column(side)[e] == node
  {
  }

  lemma EventIs(t: Encoding, side: Side, node: nat, e: nat)
    requires t.g.Valid() && e in t.Events(side, node)
    ensures t.Edge(e) && e < |t.g.log.Column(side)| && t.g.log.Column(side)[e] == node
  {
  }

  lemma EventsAscend(t: Encoding, side: Side, node: nat)
    requires t.g.Valid()
    ensures Ascending(t.Events(side, node))
  {
  }

  /** Every induced event has a line. */
  lemma LineOfEvent(t: Encoding, e: nat) returns (p: nat)
    requires t.Valid() && t.Edge(e)
    ensures p < |t.eids| && t.eids[p] == e
  {
    hide EdgeSet, Traced, Asc, Sorted;
    p :| p < |t.eids| && t.eids[p] == e;
  }

  lemma {:induction false} FiledInside(t: Encoding, side: Side, node: nat, j: nat)
    requires t.Valid() && node in SideOf(t.nodes, side) && j < |t.Lines(side, node)|
    ensures |t.Filed(side, node)| == |t.Lines(side, node)|
    ensures t.Lines(side, node)[j] < |t.eids| && t.Filed(side, node)[j] == t.eids[t.Lines(side, node)[j]]
    ensures t.Filed(side, node)[j] in t.Events(side, node)
  {
    hide Through, LocalOf, SideOf, Column, Traces, Positions, At, EdgeSet;
    var at := t.Lines(side, node);
    PositionsSpec(Column(t.rows, side, |t.rows|), LocalOf(t.nodes, t.user, side, node), |t.rows|);
    assert at[j] in at;
    LineAt(t, side, node, at[j]);
    EventAt(t, side, node, t.eids[at[j]]);
  }

  lemma {:induction false} FiledCovers(t: Encoding, side: Side, node: nat, e: nat) returns (j: nat)
    requires t.Valid() && node in SideOf(t.nodes, side) && e in t.Events(side, node)
    ensures j < |t.Filed(side, node)| && t.Filed(side, node)[j] == e
  {
    hide Through, LocalOf, SideOf, Column, Traces, Positions, At, EdgeSet;
    EventIs(t, side, node, e);
    var p := LineOfEvent(t, e);
    LineAt(t, side, node, p);
    PositionsSpec(Column(t.rows, side, |t.rows|), LocalOf(t.nodes, t.user, side, node), |t.rows|);
    assert p in t.Lines(side, node);
    j :| 0 <= j < |t.Lines(side, node)| && t.Lines(side, node)[j] == p;
  }

  lemma {:induction false} FiledPair(t: Encoding, side: Side, node: nat, i: nat, j: nat)
    requires t.Valid() && node in SideOf(t.nodes, side) && i < j < |t.Filed(side, node)|
    ensures t.Filed(side, node)[i] in t.Events(side, node) && t.Filed(side, node)[j] in t.Events(side, node)
    ensures t.Filed(side, node)[i] < t.Filed(side, node)[j] ||
      (side.Item? && Tie(t.g.log, t.user, t.Filed(side, node)[i], t.Filed(side, node)[j]))
  {
    hide *;
    EncodingParts(t);
    var at := t.Lines(side, node);
    LinesAscend(t, side, node);
    FiledInside(t, side, node, i);
    FiledInside(t, side, node, j);
    EventIs(t, side, node, t.eids[at[i]]);
    EventIs(t, side, node, t.eids[at[j]]);
    LineOrder(t, side, at[i], at[j]);
  }

  lemma LinesAscend(t: Encoding, side: Side, node: nat)
    requires |t.eids| == |t.rows|
    ensures |t.Filed(side, node)| == |t.Lines(side, node)|
    ensures forall i, j :: 0 <= i < j < |t.Lines(side, node)| ==>
      t.Lines(side, node)[i] < t.Lines(side, node)[j] < |t.rows|
  {
    PositionsSpec(Column(t.rows, side, |t.rows|), LocalOf(t.nodes, t.user, side, node), |t.rows|);
    hide Positions, LocalOf, Column, Through;
  }

  /** A tied event of another user comes before the root's earlier one. */
  lemma {:induction false} TieComesFirst(t: Encoding, node: nat, i: nat, j: nat)
    requires t.Valid() && node in t.nodes.items
    requires i < |t.Filed(Item, node)| && j < |t.Filed(Item, node)|
    requires Tie(t.g.log, t.user, t.Filed(Item, node)[i], t.Filed(Item, node)[j])
    ensures i < j
  {
    hide *;
    EncodingParts(t);
    ItemSide(t.nodes, node);
    var at := t.Lines(Item, node);
    LinesAscend(t, Item, node);
    FiledInside(t, Item, node, i);
    FiledInside(t, Item, node, j);
    TiedLines(t, at[i], at[j]);
  }

  lemma TiedLines(t: Encoding, p: nat, q: nat)
    requires t.Valid() && p < |t.rows| && q < |t.rows| && Tie(t.g.log, t.user, t.eids[p], t.eids[q])
    ensures p < q
  {
    hide Traced, EdgeSet, Asc, RowBefore;
    TieReorders(t.g.log, t.user, Asc(t.nodes.users - {t.user}), Asc(t.nodes.items), t.own, t.rows[q], t.rows[p],
                t.eids[p], t.eids[q]);
    SortedBefore(t.rows, p, q);
  }

  /** In the table, a tied event of another user precedes the root's earlier one. */
  lemma TieReorders(log: Log, user: nat, others: seq<nat>, items: seq<nat>, own: seq<nat>, a: Row, b: Row, e: nat,
                    r: nat)
    requires log.Valid() && Tie(log, user, e, r)
    requires Traced(log, user, others, items, own, a, r) && Traced(log, user, others, items, own, b, e)
    ensures RowBefore(b, a) && !RowBefore(a, b)
  {
    hide Label, Pick, Local;
  }

  lemma SortedBefore(rows: seq<Row>, p: nat, q: nat)
    requires Sorted(RowBefore, rows) && p < |rows| && q < |rows| && RowBefore(rows[p], rows[q])
    ensures p < q
  {
  }

  lemma TieAbove(log: Log, user: nat, e: nat, r: nat)
    requires log.Valid()
    ensures Tie(log, user, e, r) ==> r < e < |log.users| && log.users[e] != user
  {
  }

  /** The lines filed under a node are its induced events in some order. */
  lemma {:induction false} FiledRearranges(t: Encoding, side: Side, node: nat)
    requires t.Valid() && node in SideOf(t.nodes, side)
    ensures Rearranges(t.Filed(side, node), t.Events(side, node))
    ensures |t.Filed(side, node)| == |t.Events(side, node)|
  {
    hide *;
    EncodingParts(t);
    var a, b := t.Filed(side, node), t.Events(side, node);
    LinesAscend(t, side, node);
    EventsAscend(t, side, node);
    forall e: nat ensures e in a <==> e in b {
      if e in a {
        var j: nat :| j < |a| && a[j] == e;
        FiledInside(t, side, node, j);
      }
      if e in b { var j := FiledCovers(t, side, node, e); }
    }
    forall i: nat, j: nat | i < j < |a| ensures a[i] != a[j] {
      FiledPair(t, side, node, i, j);
      TieAbove(t.g.log, t.user, a[i], a[j]);
    }
    RearrangesIntro(a, b);
    RearrangedSize(a, b);
  }

  // ---- the condition on ties is exact -----------------------------------------------

  lemma {:induction false} NotKept(t: Encoding, node: nat, limit: nat, e: nat, r: nat)
    requires t.g.Valid() && NoTies(t.g, t.cutoff, t.nodes, t.user, node, limit)
    requires r in t.Events(Item, node) && Tie(t.g.log, t.user, e, r)
    ensures e !in Last(t.Events(Item, node), limit)
  {
    EventIs(t, Item, node, r);
    hide At, EdgeSet, Tie, Last;
  }

  /** Where no kept event ties, an item's newest lines are its newest events, oldest
      first; a user's always are. */
  lemma {:induction false} KeptInOrder(t: Encoding, side: Side, node: nat, limit: nat)
    requires t.Valid() && node in SideOf(t.nodes, side)
    requires side.Item? ==> NoTies(t.g, t.cutoff, t.nodes, t.user, node, limit)
    ensures Last(t.Filed(side, node), limit) == Last(t.Events(side, node), limit)
  {
    hide *;
    EncodingParts(t);
    FiledRearranges(t, side, node);
    EventsAscend(t, side, node);
    var a, b := t.Filed(side, node), t.Events(side, node);
    var n := |Last(b, limit)|;
    forall i: nat, j: nat | i < j < |a| && a[j] < a[i] && n > 0 ensures a[i] < b[|b| - n] {
      FiledPair(t, side, node, i, j);
      NotKept(t, node, limit, a[i], a[j]);
      InLast(b, limit, a[i]);
    }
    SuffixKept(a, b, n);
    forall k: nat | k < n ensures Last(a, limit)[k] == Last(b, limit)[k] {
      LastEntry(a, limit, k);
      LastEntry(b, limit, k);
    }
  }

  /** The last event of another user among the first `n`, of the time of the p-th. */
  lemma {:induction false} LastOfGroup(log: Log, user: nat, b: seq<nat>, p: nat, n: nat) returns (q: nat)
    requires log.Valid() && p < n <= |b| && (forall k :: 0 <= k < |b| ==> b[k] < |log.users|)
    requires log.users[b[p]] != user
    ensures p <= q < n && log.users[b[q]] != user && log.times[b[q]] == log.times[b[p]]
    ensures forall k :: q < k < n && log.users[b[k]] != user ==> log.times[b[k]] != log.times[b[p]]
  {
    if log.users[b[n - 1]] != user && log.times[b[n - 1]] == log.times[b[p]] {
      q := n - 1;
    } else {
      q := LastOfGroup(log, user, b, p, n - 1);
    }
  }

  /** Where the event order puts the last other user's event of a tied group, the table
      has an event of the root. */
  lemma {:induction false} RootTakesPlace(t: Encoding, node: nat, p: nat, r: nat) returns (q: nat)
    requires t.Valid() && node in t.nodes.items && t.Edge(r) && p < |t.Events(Item, node)|
    requires Tie(t.g.log, t.user, t.Events(Item, node)[p], r)
    ensures p <= q < |t.Events(Item, node)| == |t.Filed(Item, node)|
    ensures InUsers(t, t.Events(Item, node)[q]) && InUsers(t, t.Filed(Item, node)[q])
    ensures t.g.log.users[t.Events(Item, node)[q]] != t.user && t.g.log.users[t.Filed(Item, node)[q]] == t.user
  {
    hide *;
    EncodingParts(t);
    ItemSide(t.nodes, node);
    FiledRearranges(t, Item, node);
    var a, b := t.Filed(Item, node), t.Events(Item, node);
    TieAbove(t.g.log, t.user, b[p], r);
    EventsInLog(t, node);
    q := LastOfGroup(t.g.log, t.user, b, p, |b|);
    var f := b[q];
    EventsAscend(t, Item, node);
    InOrderAt(b, p, q);
    TieOfGroup(t, node, b[p], f, r);
    TiedAtNode(t, node, f, r);
    RearrangesSame(a, b);
    var i := PlaceOf(a, b, f);
    var j := PlaceOf(a, b, r);
    TieComesFirst(t, node, i, j);
    forall m: nat | m < i ensures a[m] < a[i] {
      FiledPair(t, Item, node, m, i);
      TieParts(t.g.log, t.user, a[m], a[i]);
    }
    TieAbove(t.g.log, t.user, f, r);
    MovesForward(a, b, i, j, q);
    RootFollows(t, node, i, q);
  }

  ghost predicate InUsers(t: Encoding, e: nat) { e < |t.g.log.users| }

  lemma EventsInLog(t: Encoding, node: nat)
    requires t.Valid() && node in t.nodes.items
    ensures forall k :: 0 <= k < |t.Events(Item, node)| ==> t.Events(Item, node)[k] < |t.g.log.users|
    ensures forall k :: 0 <= k < |t.Events(Item, node)| ==> InUsers(t, t.Events(Item, node)[k])
    ensures forall k :: 0 <= k < |t.Filed(Item, node)| ==> InUsers(t, t.Filed(Item, node)[k])
    ensures |t.g.log.users| == |t.g.log.items| == |t.g.log.times|
  {
    ItemSide(t.nodes, node);
    FiledRearranges(t, Item, node);
    var a, b := t.Filed(Item, node), t.Events(Item, node);
    hide Traces, Encoding.Filed, Encoding.Events, EdgeSet;
    forall k | 0 <= k < |b| ensures b[k] < |t.g.log.users| {
      assert b[k] in b;
      EventIs(t, Item, node, b[k]);
    }
    forall k | 0 <= k < |a| ensures InUsers(t, a[k]) {
      assert a[k] in a && a[k] in b;
      EventIs(t, Item, node, a[k]);
    }
  }

  lemma InOrderAt(b: seq<nat>, p: nat, q: nat)
    requires Ascending(b) && p <= q < |b|
    ensures b[p] <= b[q]
  {
  }

  lemma PlaceOf(a: seq<nat>, b: seq<nat>, x: nat) returns (i: nat)
    requires (forall y :: y in a <==> y in b) && x in b
    ensures i < |a| && a[i] == x
  {
    i :| 0 <= i < |a| && a[i] == x;
  }

  lemma TieOfGroup(t: Encoding, node: nat, e: nat, f: nat, r: nat)
    requires t.g.Valid() && e in t.Events(Item, node) && f in t.Events(Item, node) && Tie(t.g.log, t.user, e, r)
    requires e <= f < |t.g.log.users| == |t.g.log.times| && e < |t.g.log.times|
    requires t.g.log.users[f] != t.user && t.g.log.times[f] == t.g.log.times[e]
    ensures Tie(t.g.log, t.user, f, r)
  {
    EventIs(t, Item, node, e);
    EventIs(t, Item, node, f);
    hide Encoding.Events;
  }

  /** The place the last event of the group has left is a root event's. */
  lemma {:induction false} RootFollows(t: Encoding, node: nat, i: nat, q: nat)
    requires t.Valid() && node in t.nodes.items && i < q < |t.Events(Item, node)| == |t.Filed(Item, node)|
    requires t.Filed(Item, node)[i] == t.Events(Item, node)[q]
    requires forall k :: 0 <= k < |t.Events(Item, node)| ==> t.Events(Item, node)[k] < |t.g.log.users|
    requires |t.g.log.users| == |t.g.log.times|
    requires forall k | q < k < |t.Events(Item, node)| && t.g.log.users[t.Events(Item, node)[k]] != t.user ::
      t.g.log.times[t.Events(Item, node)[k]] != t.g.log.times[t.Events(Item, node)[q]]
    requires t.g.log.users[t.Events(Item, node)[q]] != t.user
    ensures t.Filed(Item, node)[q] < |t.g.log.users|
    ensures t.g.log.users[t.Filed(Item, node)[q]] == t.user
  {
    hide *;
    EncodingParts(t);
    ItemSide(t.nodes, node);
    FiledRearranges(t, Item, node);
    EventsAscend(t, Item, node);
    var a, b := t.Filed(Item, node), t.Events(Item, node);
    var k := NotAllAbove(a, b, q);
    FiledPair(t, Item, node, i, k);
    FiledPair(t, Item, node, i, q);
    TieParts(t.g.log, t.user, a[i], a[k]);
    TieParts(t.g.log, t.user, a[i], a[q]);
    RearrangesSame(a, b);
    var m := PlaceOf(b, a, a[q]);
    if q < k {
      FiledPair(t, Item, node, q, k);
      TieParts(t.g.log, t.user, a[q], a[k]);
      PlaceAbove(b, q, m);
    }
  }

  lemma PlaceAbove(b: seq<nat>, q: nat, m: nat)
    requires Ascending(b) && q < |b| && m < |b|
    ensures b[q] < b[m] <==> q < m
  {
  }

  lemma TieParts(log: Log, user: nat, e: nat, r: nat)
    requires log.Valid()
    ensures Tie(log, user, e, r) ==>
      && r < e < |log.users| == |log.times| && log.users[r] == user && log.users[e] != user
      && log.times[r] == log.times[e]
  {
  }

  lemma TiedAtNode(t: Encoding, node: nat, e: nat, r: nat)
    requires t.g.Valid() && e in t.Events(Item, node) && t.Edge(r) && Tie(t.g.log, t.user, e, r)
    ensures r in t.Events(Item, node)
  {
    EventIs(t, Item, node, e);
    EventAt(t, Item, node, r);
  }

  /** The lines an item keeps are the events it keeps, oldest first, if and only if
      none of those ties with an earlier event of the root. */
  lemma {:induction false} OrderIffNoTies(t: Encoding, node: nat, limit: nat)
    requires t.Valid() && node in t.nodes.items
    ensures Last(t.Filed(Item, node), limit) == Last(t.Events(Item, node), limit) <==>
      NoTies(t.g, t.cutoff, t.nodes, t.user, node, limit)
  {
    hide *;
    EncodingParts(t);
    ItemSide(t.nodes, node);
    if NoTies(t.g, t.cutoff, t.nodes, t.user, node, limit) {
      KeptInOrder(t, Item, node, limit);
    } else {
      var k, r := KeptTie(t, node, limit);
      var q := RootTakesKept(t, node, limit, k, r);
    }
  }

  /** Among the events kept from a tied one on, one of another user stands where the
      table has a root event. */
  lemma {:induction false} RootTakesKept(t: Encoding, node: nat, limit: nat, k: nat, r: nat) returns (q: nat)
    requires t.Valid() && node in t.nodes.items && k < |Last(t.Events(Item, node), limit)| && t.Edge(r)
    requires Tie(t.g.log, t.user, Last(t.Events(Item, node), limit)[k], r)
    ensures q < |Last(t.Events(Item, node), limit)| == |Last(t.Filed(Item, node), limit)|
    ensures InUsers(t, Last(t.Events(Item, node), limit)[q]) && InUsers(t, Last(t.Filed(Item, node), limit)[q])
    ensures t.g.log.users[Last(t.Events(Item, node), limit)[q]] != t.user
    ensures t.g.log.users[Last(t.Filed(Item, node), limit)[q]] == t.user
  {
    hide *;
    EncodingParts(t);
    ItemSide(t.nodes, node);
    FiledRearranges(t, Item, node);
    var a, b := t.Filed(Item, node), t.Events(Item, node);
    LastEntry(b, limit, k);
    LastSizes(a, b, limit);
    var first := |b| - |Last(b, limit)|;
    var place := RootTakesPlace(t, node, first + k, r);
    q := place - first;
    LastEntry(a, limit, q);
    LastEntry(b, limit, q);
  }

  lemma LastSizes(a: seq<nat>, b: seq<nat>, limit: nat)
    requires |a| == |b|
    ensures |Last(a, limit)| == |Last(b, limit)|
  {
  }

  lemma {:induction false} KeptTie(t: Encoding, node: nat, limit: nat) returns (k: nat, r: nat)
    requires t.g.Valid() && !NoTies(t.g, t.cutoff, t.nodes, t.user, node, limit)
    ensures k < |Last(t.Events(Item, node), limit)| && t.Edge(r)
    ensures Tie(t.g.log, t.user, Last(t.Events(Item, node), limit)[k], r)
  {
    hide Last, At, EdgeSet, Tie;
    var e: nat;
    e, r :| e in Last(t.Events(Item, node), limit) && r in EdgeSet(t.g, t.cutoff, t.nodes) &&
            Tie(t.g.log, t.user, e, r);
    k :| 0 <= k < |Last(t.Events(Item, node), limit)| && Last(t.Events(Item, node), limit)[k] == e;
  }

  // ---- moving the root to the last local index ----------------------------------------

  lemma {:induction false} OthersAre(users: set<nat>, user: nat)
    requires user in users
    ensures Asc(users - {user}) == Without(Asc(users), Local(Asc(users))[user])
  {
    var all := Asc(users);
    var root := Local(all)[user];
    var a := Asc(users - {user});
    hide Asc, Local, Without;
    WithoutAscending(all, root);
    AscendingUnique(a, Without(all, root));
  }

  /** The virtual label of a user is its ordinary index after the root was moved. */
  lemma {:induction false} LabelIsMoved(users: set<nat>, user: nat, w: nat)
    requires user in users && w in users
    ensures Local(Asc(users))[w] < |users| && Local(Asc(users))[user] < |users|
    ensures Label(Asc(users - {user}), user, w) == Moved(Local(Asc(users))[user], |users|, Local(Asc(users))[w])
  {
    OthersAre(users, user);
    var all, others := Asc(users), Asc(users - {user});
    hide Asc, Local, Without;
    assert |others| == |all| - 1;
    if w != user { MovedIndex(all, Local(all)[user], Local(all)[w], others, Local(others)[w]); }
  }

  /** Taking one entry out of an ascending list moves the later ones down by one. */
  lemma MovedIndex(all: seq<nat>, root: nat, k: nat, others: seq<nat>, j: nat)
    requires Ascending(all) && root < |all| && k < |all| && all[k] != all[root]
    requires others == Without(all, root) && j < |others| && others[j] == all[k]
    ensures j == Moved(root, |all|, k)
  {
    hide Without;
    AscendingInjective(all, if j < root then j else j + 1, k);
  }

  ghost function RootIndex(nodes: Nodes, user: nat): (k: nat)
    requires user in nodes.users
    ensures k < |nodes.users|
  {
    Local(Asc(nodes.users))[user]
  }

  /** How a source index changes: items keep theirs, users make room for the root. */
  ghost function Relabel(nodes: Nodes, user: nat, side: Side, src: nat): nat
    requires user in nodes.users
  {
    if side.User? then src else Moved(RootIndex(nodes, user), |nodes.users|, src)
  }

  lemma SourceRelabels(nodes: Nodes, user: nat, side: Side, w: nat)
    requires user in nodes.users && w in SideOf(nodes, side.Other())
    ensures w in Local(Asc(Opposite(nodes, side)))
    ensures LocalOf(nodes, user, side.Other(), w) == Relabel(nodes, user, side, Local(Asc(Opposite(nodes, side)))[w])
  {
    if side.Item? { LabelIsMoved(nodes.users, user, w); }
    hide Asc, Label, Moved;
  }

  lemma {:induction false} LineOf(t: Encoding, side: Side, p: nat)
    requires t.Valid() && p < |t.rows|
    ensures var e := t.eids[p];
      && e < |t.g.log.users| && e < |t.g.log.Column(side.Other())|
      && t.g.log.Column(side.Other())[e] in Local(Asc(Opposite(t.nodes, side)))
      && Column(t.rows, side.Other(), |t.rows|)[p] ==
           Relabel(t.nodes, t.user, side, Local(Asc(Opposite(t.nodes, side)))[t.g.log.Column(side.Other())[e]])
      && EventColumn(t.rows, |t.rows|)[p] == if t.g.log.users[e] == t.user then -1 else e
  {
    var e := t.eids[p];
    assert Traced(t.g.log, t.user, Asc(t.nodes.users - {t.user}), Asc(t.nodes.items), t.own, t.rows[p], e);
    assert e in EdgeSet(t.g, t.cutoff, t.nodes);
    hide Traces, LocalOf, EdgeSet, SideOf, Asc, Relabel, Local, Label, Pick, Opposite;
    RowLocal(t.g, t.cutoff, t.nodes, t.user, t.own, t.rows[p], e, side.Other());
    SourceRelabels(t.nodes, t.user, side, t.g.log.Column(side.Other())[e]);
  }

  /** What a virtual destination keeps, against what the ordinary one keeps: the same
      sources in the same order up to the root's move. With `audit` the event column,
      which no layer reads, is compared too; root events are anonymous there. */
  ghost predicate SameKeeping(log: Log, nodes: Nodes, user: nat, side: Side, audit: bool, virtual: seq<Arrow>,
                              ordinary: seq<Arrow>)
    requires user in nodes.users
  {
    && |virtual| == |ordinary|
    && forall k :: 0 <= k < |ordinary| ==> SameArrow(log, nodes, user, side, audit, virtual[k], ordinary[k])
  }

  ghost predicate SameArrow(log: Log, nodes: Nodes, user: nat, side: Side, audit: bool, virtual: Arrow, ordinary: Arrow)
    requires user in nodes.users
  {
    && virtual.src == Relabel(nodes, user, side, ordinary.src)
    && (audit ==> SameEvent(log, user, virtual.event, ordinary.event))
  }

  ghost predicate SameEvent(log: Log, user: nat, virtual: int, ordinary: int) {
    0 <= ordinary < |log.users| && virtual == if log.users[ordinary] == user then -1 else ordinary
  }

  /** What a destination of the virtual sample keeps, and the ordinary one's. */
  ghost predicate BothKept(t: Encoding, side: Side, node: nat, limit: nat, virtual: seq<Arrow>, ordinary: seq<Arrow>)
    requires t.Valid()
  {
    && Maps(Last(t.Events(side, node), limit), t.g.log.Column(side.Other()), Local(Asc(Opposite(t.nodes, side))))
    && virtual == KeptOf(Column(t.rows, side, |t.rows|), Column(t.rows, side.Other(), |t.rows|),
                         EventColumn(t.rows, |t.rows|), LocalOf(t.nodes, t.user, side, node), limit)
    && ordinary == KeptOfList(t.Events(side, node), t.g.log.Column(side.Other()),
                              Local(Asc(Opposite(t.nodes, side))), limit)
  }

  lemma {:induction false} KeptSizes(t: Encoding, side: Side, node: nat, limit: nat, virtual: seq<Arrow>,
                                     ordinary: seq<Arrow>)
    requires t.Valid() && node in SideOf(t.nodes, side) && BothKept(t, side, node, limit, virtual, ordinary)
    ensures |virtual| == |ordinary| == |Last(t.Filed(side, node), limit)| == |Last(t.Events(side, node), limit)|
  {
    FiledRearranges(t, side, node);
    LinesAscend(t, side, node);
    hide Traces, LocalOf, SideOf, Asc, Local, Opposite, At, Positions, Through, Maps, Column, EventColumn;
  }

  /** The k-th virtual arrow comes from the k-th kept line. */
  lemma {:induction false} VirtualArrow(t: Encoding, side: Side, node: nat, limit: nat, virtual: seq<Arrow>,
                                        ordinary: seq<Arrow>, k: nat) returns (p: nat)
    requires t.Valid() && node in SideOf(t.nodes, side) && BothKept(t, side, node, limit, virtual, ordinary)
    requires k < |virtual| == |Last(t.Filed(side, node), limit)|
    ensures p < |t.rows| && t.eids[p] == Last(t.Filed(side, node), limit)[k]
    ensures virtual[k] == Arrow(Column(t.rows, side.Other(), |t.rows|)[p], EventColumn(t.rows, |t.rows|)[p])
  {
    hide Traces, LocalOf, SideOf, Asc, Local, Opposite, At, Positions, Maps, Last, Through;
    var at := t.Lines(side, node);
    LinesAscend(t, side, node);
    LastEntry(at, limit, k);
    LastEntry(t.Filed(side, node), limit, k);
    p := Last(at, limit)[k];
  }

  lemma OrdinaryArrow(t: Encoding, side: Side, node: nat, limit: nat, virtual: seq<Arrow>, ordinary: seq<Arrow>, k: nat)
    requires t.Valid() && BothKept(t, side, node, limit, virtual, ordinary) && k < |ordinary|
    ensures k < |Last(t.Events(side, node), limit)|
    ensures var e := Last(t.Events(side, node), limit)[k];
      && e < |t.g.log.Column(side.Other())|
      && t.g.log.Column(side.Other())[e] in Local(Asc(Opposite(t.nodes, side)))
      && ordinary[k] == Arrow(Local(Asc(Opposite(t.nodes, side)))[t.g.log.Column(side.Other())[e]], e)
  {
    hide Traces, Asc, Local, Opposite, At, KeptOf, Last, Column, EventColumn, LocalOf;
  }

  /** Their k-th arrows come from the k-th lines and events kept: the sources are those
      events' opposite nodes, and a virtual arrow of the root is anonymous. */
  lemma {:induction false} KeptArrow(t: Encoding, side: Side, node: nat, limit: nat, virtual: seq<Arrow>,
                                     ordinary: seq<Arrow>, k: nat)
    requires t.Valid() && node in SideOf(t.nodes, side) && BothKept(t, side, node, limit, virtual, ordinary)
    requires k < |virtual| == |ordinary| == |Last(t.Filed(side, node), limit)| == |Last(t.Events(side, node), limit)|
    ensures From(t, side, Last(t.Events(side, node), limit)[k], ordinary[k].src)
    ensures ordinary[k].event == Last(t.Events(side, node), limit)[k]
    ensures exists src: nat :: From(t, side, Last(t.Filed(side, node), limit)[k], src) &&
                               virtual[k].src == Relabel(t.nodes, t.user, side, src)
    ensures SameEvent(t.g.log, t.user, virtual[k].event, Last(t.Filed(side, node), limit)[k])
  {
    hide BothKept, Last, LocalOf, SideOf, Traces, Relabel, Encoding.Events, Encoding.Filed, Column, EventColumn, Local;
    var p := VirtualArrow(t, side, node, limit, virtual, ordinary, k);
    OrdinaryArrow(t, side, node, limit, virtual, ordinary, k);
    LineOf(t, side, p);
    var e := Last(t.Filed(side, node), limit)[k];
    assert From(t, side, e, Local(Asc(Opposite(t.nodes, side)))[t.g.log.Column(side.Other())[e]]);
  }

  /** `src` is the ordinary local index of the event's opposite node. */
  ghost predicate From(t: Encoding, side: Side, e: nat, src: nat) {
    && e < |t.g.log.Column(side.Other())|
    && t.g.log.Column(side.Other())[e] in Local(Asc(Opposite(t.nodes, side)))
    && src == Local(Asc(Opposite(t.nodes, side)))[t.g.log.Column(side.Other())[e]]
  }

  /** A destination keeps the same in both samples if and only if no event it keeps
      ties; a user always does. */
  lemma {:induction false} KeptIffNoTies(t: Encoding, side: Side, audit: bool, node: nat, limit: nat,
                                         virtual: seq<Arrow>, ordinary: seq<Arrow>)
    requires t.Valid() && node in SideOf(t.nodes, side) && BothKept(t, side, node, limit, virtual, ordinary)
    ensures SameKeeping(t.g.log, t.nodes, t.user, side, audit, virtual, ordinary) <==>
      (side.Item? ==> NoTies(t.g, t.cutoff, t.nodes, t.user, node, limit))
  {
    KeptSizes(t, side, node, limit, virtual, ordinary);
    hide BothKept, Encoding.Events, Encoding.Filed, NoTies, Traces, SameEvent, Last, Opposite, Tie, Relabel;
    if side.Item? && !NoTies(t.g, t.cutoff, t.nodes, t.user, node, limit) {
      TieShows(t, audit, node, limit, virtual, ordinary);
    } else {
      KeptInOrder(t, side, node, limit);
      forall k: nat | k < |ordinary|
        ensures SameArrow(t.g.log, t.nodes, t.user, side, audit, virtual[k], ordinary[k])
      {
        KeptArrow(t, side, node, limit, virtual, ordinary, k);
      }
    }
  }

  /** A kept tie gives some message another source. */
  lemma {:induction false} TieShows(t: Encoding, audit: bool, node: nat, limit: nat, virtual: seq<Arrow>,
                                    ordinary: seq<Arrow>)
    requires t.Valid() && node in SideOf(t.nodes, Item) && BothKept(t, Item, node, limit, virtual, ordinary)
    requires !NoTies(t.g, t.cutoff, t.nodes, t.user, node, limit)
    ensures !SameKeeping(t.g.log, t.nodes, t.user, Item, audit, virtual, ordinary)
  {
    hide *;
    EncodingParts(t);
    ItemSide(t.nodes, node);
    var k, r := KeptTie(t, node, limit);
    KeptSizes(t, Item, node, limit, virtual, ordinary);
    var q := RootTakesKept(t, node, limit, k, r);
    KeptArrow(t, Item, node, limit, virtual, ordinary, q);
    OtherSource(t, audit, virtual, ordinary, q, Last(t.Filed(Item, node), limit)[q],
                Last(t.Events(Item, node), limit)[q]);
  }

  /** Messages from the root and from another user have different sources. */
  lemma {:induction false} OtherSource(t: Encoding, audit: bool, virtual: seq<Arrow>, ordinary: seq<Arrow>, k: nat,
                                       e: nat, f: nat)
    requires t.g.log.Valid() && t.user in t.nodes.users && k < |virtual| == |ordinary|
    requires InUsers(t, e) && InUsers(t, f) && t.g.log.users[e] == t.user && t.g.log.users[f] != t.user
    requires From(t, Item, f, ordinary[k].src)
    requires exists src: nat :: From(t, Item, e, src) && virtual[k].src == Relabel(t.nodes, t.user, Item, src)
    ensures virtual[k].src != Relabel(t.nodes, t.user, Item, ordinary[k].src)
    ensures !SameKeeping(t.g.log, t.nodes, t.user, Item, audit, virtual, ordinary)
  {
    var src: nat :| From(t, Item, e, src) && virtual[k].src == Relabel(t.nodes, t.user, Item, src);
    var order := Asc(t.nodes.users);
    assert order[src] == t.user && order[ordinary[k].src] == t.g.log.users[f];
    hide Local, Asc, RootIndex;
    assert virtual[k].src != Relabel(t.nodes, t.user, Item, ordinary[k].src);
    assert SameKeeping(t.g.log, t.nodes, t.user, Item, audit, virtual, ordinary) ==>
      SameArrow(t.g.log, t.nodes, t.user, Item, audit, virtual[k], ordinary[k]);
  }

  // ---- the theorem ------------------------------------------------------------------

  /** The same message: `virtual` at destination `dv` and `ordinary` at `ds`. */
  ghost predicate SameEdge(log: Log, nodes: Nodes, user: nat, side: Side, audit: bool, virtual: Edge, dv: nat,
                           ordinary: Edge, ds: nat)
    requires user in nodes.users
  {
    && ordinary.dst == ds && virtual.dst == dv
    && virtual.src == Relabel(nodes, user, side, ordinary.src)
    && virtual.relative == ordinary.relative && virtual.position == ordinary.position
    && (audit ==> SameEvent(log, user, virtual.event, ordinary.event))
  }

  /** A destination's messages in the virtual sample against those in the ordinary
      one: same order and ranks, sources equal up to moving the root. */
  ghost predicate SameInbound(log: Log, nodes: Nodes, user: nat, side: Side, audit: bool, virtual: MessageEdges,
                              dv: nat, ordinary: MessageEdges, ds: nat)
    requires user in nodes.users
  {
    var a, b := Inbound(ordinary.edges, ds, |ordinary.edges|), Inbound(virtual.edges, dv, |virtual.edges|);
    && dv < |virtual.counts| == |virtual.lastSrc| && ds < |ordinary.counts| == |ordinary.lastSrc|
    && virtual.counts[dv] == ordinary.counts[ds] == |a| == |b|
    && virtual.lastSrc[dv] ==
         (if ordinary.lastSrc[ds] < 0 then -1 else Relabel(nodes, user, side, ordinary.lastSrc[ds]))
    && forall k :: 0 <= k < |a| ==> SameEdge(log, nodes, user, side, audit, b[k], dv, a[k], ds)
  }

  lemma {:induction false} BlockSame(log: Log, nodes: Nodes, user: nat, side: Side, audit: bool, virtual: seq<Arrow>,
                                     dv: nat, ordinary: seq<Arrow>, ds: nat)
    requires user in nodes.users && SameKeeping(log, nodes, user, side, audit, virtual, ordinary)
    ensures |virtual| == |ordinary|
    ensures Newest(virtual) == if Newest(ordinary) < 0 then -1 else Relabel(nodes, user, side, Newest(ordinary))
    ensures forall k {:trigger SameEdge(log, nodes, user, side, audit, Block(dv, virtual, |virtual|)[k], dv,
                                        Block(ds, ordinary, |ordinary|)[k], ds)} :: 0 <= k < |ordinary| ==>
      SameEdge(log, nodes, user, side, audit, Block(dv, virtual, |virtual|)[k], dv,
               Block(ds, ordinary, |ordinary|)[k], ds)
  {
    hide Relabel, Block;
    forall k | 0 <= k < |ordinary|
      ensures SameEdge(log, nodes, user, side, audit, Block(dv, virtual, |virtual|)[k], dv,
                       Block(ds, ordinary, |ordinary|)[k], ds)
    {
      assert SameArrow(log, nodes, user, side, audit, virtual[k], ordinary[k]);
    }
    if |ordinary| > 0 {
      assert SameArrow(log, nodes, user, side, audit, virtual[|virtual| - 1], ordinary[|ordinary| - 1]);
    }
  }

  lemma {:induction false} InboundShows(log: Log, nodes: Nodes, user: nat, side: Side, audit: bool,
                                        virtual: seq<Arrow>, dv: nat, ordinary: seq<Arrow>, ds: nat)
    requires user in nodes.users && |virtual| == |ordinary|
    requires forall k :: 0 <= k < |ordinary| ==>
      SameEdge(log, nodes, user, side, audit, Block(dv, virtual, |virtual|)[k], dv,
               Block(ds, ordinary, |ordinary|)[k], ds)
    ensures SameKeeping(log, nodes, user, side, audit, virtual, ordinary)
  {
    hide Relabel, Block;
    forall k | 0 <= k < |ordinary| ensures SameArrow(log, nodes, user, side, audit, virtual[k], ordinary[k]) {
      assert SameEdge(log, nodes, user, side, audit, Block(dv, virtual, |virtual|)[k], dv,
                      Block(ds, ordinary, |ordinary|)[k], ds);
    }
  }

  /** Destinations receive the same messages if and only if they keep the same. */
  lemma {:induction false} InboundSame(log: Log, nodes: Nodes, user: nat, side: Side, audit: bool,
                                       kv: seq<seq<Arrow>>, dv: nat, ks: seq<seq<Arrow>>, ds: nat)
    requires user in nodes.users && dv < |kv| && ds < |ks|
    ensures SameInbound(log, nodes, user, side, audit, Messages(kv), dv, Messages(ks), ds) <==>
      SameKeeping(log, nodes, user, side, audit, kv[dv], ks[ds])
  {
    hide Blocks, Inbound, Relabel, SameEdge, SameKeeping, Block, Newest;
    BlocksInbound(kv, |kv|, dv);
    BlocksInbound(ks, |ks|, ds);
    if SameKeeping(log, nodes, user, side, audit, kv[dv], ks[ds]) {
      BlockSame(log, nodes, user, side, audit, kv[dv], dv, ks[ds], ds);
    }
    if SameInbound(log, nodes, user, side, audit, Messages(kv), dv, Messages(ks), ds) {
      InboundShows(log, nodes, user, side, audit, kv[dv], dv, ks[ds], ds);
    }
  }

  /** What each destination of the ordinary sample keeps. */
  ghost function KeptOrdinary(g: Graph, cfg: Config, cutoff: int, nodes: Nodes, side: Side): seq<seq<Arrow>>
    requires g.Valid()
  {
    var order := Asc(SideOf(nodes, side));
    ListsMapped(g, cutoff, nodes, side, order, cfg.Limit(side));
    KeptArrows(Lists(g, cutoff, nodes, side, order, |order|), g.log.Column(side.Other()),
               Local(Asc(Opposite(nodes, side))), cfg.Limit(side), |order|)
  }

  lemma ReceivedIs(g: Graph, cfg: Config, cutoff: int, nodes: Nodes, side: Side)
    requires g.Valid()
    ensures Received(g, cfg, cutoff, nodes, side) == Messages(KeptOrdinary(g, cfg, cutoff, nodes, side))
  {
    hide Lists, KeptArrows, Messages, Local, Asc, AllMapped, At;
  }

  /** What the two samples' constructions hand to one destination. */
  lemma {:induction false} DestinationKept(t: Encoding, cfg: Config, side: Side, node: nat, kv: seq<seq<Arrow>>,
                                           ks: seq<seq<Arrow>>, dv: nat, ds: nat)
    requires t.Valid() && node in SideOf(t.nodes, side)
    requires kv == KeptVirtual(t.rows, side, |SideOf(t.nodes, side)|, cfg.Limit(side))
    requires dv == LocalOf(t.nodes, t.user, side, node) < |kv|
    requires node in Local(Asc(SideOf(t.nodes, side))) && ds == Local(Asc(SideOf(t.nodes, side)))[node]
    requires ks == KeptOrdinary(t.g, cfg, t.cutoff, t.nodes, side)
    ensures ds < |ks| && BothKept(t, side, node, cfg.Limit(side), kv[dv], ks[ds])
  {
    hide *;
    EncodingParts(t);
    KeptVirtualIs(t.rows, side, |SideOf(t.nodes, side)|, cfg.Limit(side));
    KeptOrdinaryAt(t.g, cfg, t.cutoff, t.nodes, side, ds);
    BothKeptIs(t, side, node, cfg.Limit(side), kv[dv], ks[ds]);
  }

  lemma {:induction false} KeptOrdinaryAt(g: Graph, cfg: Config, cutoff: int, nodes: Nodes, side: Side, d: nat)
    requires g.Valid() && d < |Asc(SideOf(nodes, side))|
    ensures |KeptOrdinary(g, cfg, cutoff, nodes, side)| == |Asc(SideOf(nodes, side))|
    ensures var ids := At(g, cutoff, nodes, side, Asc(SideOf(nodes, side))[d]);
      && Maps(Last(ids, cfg.Limit(side)), g.log.Column(side.Other()), Local(Asc(Opposite(nodes, side))))
      && KeptOrdinary(g, cfg, cutoff, nodes, side)[d] ==
           KeptOfList(ids, g.log.Column(side.Other()), Local(Asc(Opposite(nodes, side))), cfg.Limit(side))
  {
    var order := Asc(SideOf(nodes, side));
    var lists := Lists(g, cutoff, nodes, side, order, |order|);
    ListsMapped(g, cutoff, nodes, side, order, cfg.Limit(side));
    hide SideOf, Asc, Opposite, At, KeptOfList, KeptArrows, Lists, Maps, Last, Local;
    KeptArrowsAt(lists, g.log.Column(side.Other()), Local(Asc(Opposite(nodes, side))), cfg.Limit(side), |order|, d);
  }

  lemma BothKeptIs(t: Encoding, side: Side, node: nat, limit: nat, virtual: seq<Arrow>, ordinary: seq<Arrow>)
    requires t.Valid()
    requires Maps(Last(At(t.g, t.cutoff, t.nodes, side, node), limit), t.g.log.Column(side.Other()),
                  Local(Asc(Opposite(t.nodes, side))))
    requires virtual == KeptOf(Column(t.rows, side, |t.rows|), Column(t.rows, side.Other(), |t.rows|),
                               EventColumn(t.rows, |t.rows|), LocalOf(t.nodes, t.user, side, node), limit)
    requires ordinary == KeptOfList(At(t.g, t.cutoff, t.nodes, side, node), t.g.log.Column(side.Other()),
                                    Local(Asc(Opposite(t.nodes, side))), limit)
    ensures BothKept(t, side, node, limit, virtual, ordinary)
  {
    hide Traces, LocalOf, Asc, Opposite, At, KeptOf, KeptOfList, Maps, Last, Local, Column, EventColumn;
  }

  /** One destination has the same messages in both samples if and only if no event
      it keeps ties. */
  lemma {:induction false} SideSame(t: Encoding, cfg: Config, side: Side, audit: bool, node: nat, kv: seq<seq<Arrow>>)
    requires t.Valid() && node in SideOf(t.nodes, side)
    requires kv == KeptVirtual(t.rows, side, |SideOf(t.nodes, side)|, cfg.Limit(side))
    ensures node in Local(Asc(SideOf(t.nodes, side)))
    ensures SameAt(t.g, t.nodes, t.user, side, audit, Messages(kv), Received(t.g, cfg, t.cutoff, t.nodes, side),
                   node) <==>
      (side.Item? ==> NoTies(t.g, t.cutoff, t.nodes, t.user, node, cfg.Limit(side)))
  {
    hide *;
    EncodingParts(t);
    ReceivedIs(t.g, cfg, t.cutoff, t.nodes, side);
    ListedNode(t.nodes, t.user, side, node);
    KeptVirtualIs(t.rows, side, |SideOf(t.nodes, side)|, cfg.Limit(side));
    var ks := KeptOrdinary(t.g, cfg, t.cutoff, t.nodes, side);
    var dv, ds := LocalOf(t.nodes, t.user, side, node), Local(Asc(SideOf(t.nodes, side)))[node];
    DestinationKept(t, cfg, side, node, kv, ks, dv, ds);
    KeptIffNoTies(t, side, audit, node, cfg.Limit(side), kv[dv], ks[ds]);
    InboundSame(t.g.log, t.nodes, t.user, side, audit, kv, dv, ks, ds);
    SameAtIs(t.g, t.nodes, t.user, side, audit, Messages(kv), Messages(ks), node);
  }

  lemma ListedNode(nodes: Nodes, user: nat, side: Side, node: nat)
    requires user in nodes.users && node in SideOf(nodes, side)
    ensures node in Local(Asc(SideOf(nodes, side)))
    ensures LocalOf(nodes, user, side, node) < |SideOf(nodes, side)|
  {
    LocalInside(nodes, user, side, node);
    hide LocalOf, Local, Asc;
  }

  lemma SameAtIs(g: Graph, nodes: Nodes, user: nat, side: Side, audit: bool, virtual: MessageEdges,
                 ordinary: MessageEdges, node: nat)
    requires user in nodes.users && node in Local(Asc(SideOf(nodes, side)))
    ensures SameAt(g, nodes, user, side, audit, virtual, ordinary, node) <==>
      SameInbound(g.log, nodes, user, side, audit, virtual, LocalOf(nodes, user, side, node), ordinary,
                  Local(Asc(SideOf(nodes, side)))[node])
  {
    hide SameInbound, LocalOf, Local, Asc;
  }

  /** An item's last sources come from its newest event and its newest line. */
  lemma {:induction false} NewestSources(t: Encoding, cfg: Config, node: nat, k: nat, virtual: MessageEdges,
                                         ordinary: MessageEdges)
    requires t.Valid() && k < |t.nodes.items| && node == Asc(t.nodes.items)[k] && node in t.nodes.items
    requires t.Events(Item, node) != [] && |t.Filed(Item, node)| == |t.Events(Item, node)|
    requires virtual == Messages(KeptVirtual(t.rows, Item, |SideOf(t.nodes, Item)|, cfg.Limit(Item)))
    requires ordinary == Received(t.g, cfg, t.cutoff, t.nodes, Item)
    ensures k < |ordinary.lastSrc| && k < |virtual.lastSrc| && ordinary.lastSrc[k] >= 0
    ensures From(t, Item, t.Events(Item, node)[|t.Events(Item, node)| - 1], ordinary.lastSrc[k])
    ensures exists src: nat :: From(t, Item, t.Filed(Item, node)[|t.Filed(Item, node)| - 1], src) &&
                               virtual.lastSrc[k] == Relabel(t.nodes, t.user, Item, src)
  {
    hide *;
    EncodingParts(t);
    ItemIndex(t.nodes, t.user, node, k);
    ReceivedIs(t.g, cfg, t.cutoff, t.nodes, Item);
    KeptVirtualIs(t.rows, Item, |SideOf(t.nodes, Item)|, cfg.Limit(Item));
    var limit := cfg.Limit(Item);
    var kv := KeptVirtual(t.rows, Item, |SideOf(t.nodes, Item)|, limit);
    var ks := KeptOrdinary(t.g, cfg, t.cutoff, t.nodes, Item);
    DestinationKept(t, cfg, Item, node, kv, ks, k, k);
    KeptSizes(t, Item, node, limit, kv[k], ks[k]);
    LastSome(t.Events(Item, node), limit);
    LastSome(t.Filed(Item, node), limit);
    KeptArrow(t, Item, node, limit, kv[k], ks[k], |ks[k]| - 1);
    MessagesNewest(kv, k);
    MessagesNewest(ks, k);
  }

  lemma ItemIndex(nodes: Nodes, user: nat, node: nat, k: nat)
    requires user in nodes.users && k < |nodes.items| && node == Asc(nodes.items)[k]
    ensures node in SideOf(nodes, Item) && node in Local(Asc(SideOf(nodes, Item)))
    ensures LocalOf(nodes, user, Item, node) == k == Local(Asc(SideOf(nodes, Item)))[node]
    ensures k < |SideOf(nodes, Item)|
  {
    assert node in Asc(nodes.items);
    LocalIndex(Asc(nodes.items), k);
    hide Asc, Local;
  }

  lemma LastSome(s: seq<nat>, limit: nat)
    requires s != []
    ensures Last(s, limit) != [] && Last(s, limit)[|Last(s, limit)| - 1] == s[|s| - 1]
  {
    LastEntry(s, limit, |Last(s, limit)| - 1);
  }

  lemma MessagesNewest(kept: seq<seq<Arrow>>, d: nat)
    requires d < |kept| && kept[d] != []
    ensures d < |Messages(kept).lastSrc| && Messages(kept).lastSrc[d] == kept[d][|kept[d]| - 1].src
  {
    hide Blocks, Counts;
  }

  ghost predicate SameAt(g: Graph, nodes: Nodes, user: nat, side: Side, audit: bool, virtual: MessageEdges,
                         ordinary: MessageEdges, node: nat)
    requires user in nodes.users && node in Local(Asc(SideOf(nodes, side)))
  {
    SameInbound(g.log, nodes, user, side, audit, virtual, LocalOf(nodes, user, side, node),
                ordinary, Local(Asc(SideOf(nodes, side)))[node])
  }

  lemma {:induction false} LocalInside(nodes: Nodes, user: nat, side: Side, node: nat)
    requires user in nodes.users && node in SideOf(nodes, side)
    ensures LocalOf(nodes, user, side, node) < |SideOf(nodes, side)|
  {
    if side.User? { LabelIsMoved(nodes.users, user, node); }
    hide Asc, Label;
  }

  /** Message by message, with the ordinary sample's root moved to the last local
      index and the users after it moved up by one. */
  ghost predicate SameMessages(g: Graph, nodes: Nodes, user: nat, s: GraphSample, v: GraphSample, audit: bool)
    requires g.Valid() && user in nodes.users
  {
    && (forall k :: 0 <= k < |s.items| ==> SameInbound(g.log, nodes, user, Item, audit, v.toItems, k, s.toItems, k))
    && (forall k :: 0 <= k < |s.users| && s.root < |s.users| ==>
          SameInbound(g.log, nodes, user, User, audit, v.toUsers, Moved(s.root, |s.users|, k), s.toUsers, k))
  }

  /** `v` is `s` with the root moved to the last local index. */
  ghost predicate RootMoved(s: GraphSample, v: GraphSample, user: nat) {
    && s.root < |s.users| && s.users[s.root] == user
    && v.root == |s.users| - 1
    && v.users == Without(s.users, s.root) + [user]
    && v.items == s.items && v.cutoff == s.cutoff
  }

  lemma OneLess(nodes: Nodes, user: nat, cfg: Config)
    requires user in nodes.users
    ensures cfg.Limit(User) == cfg.recentItems && cfg.Limit(Item) == cfg.itemNeighborLimit
    ensures |nodes.users - {user}| + 1 == |nodes.users| == |SideOf(nodes, User)|
    ensures |nodes.items| == |SideOf(nodes, Item)|
  {
  }

  lemma {:induction false} NodesMoved(nodes: Nodes, user: nat, s: GraphSample, v: GraphSample)
    requires user in nodes.users
    requires s.users == Asc(nodes.users) && s.items == Asc(nodes.items) && s.cutoff == v.cutoff
    requires s.root == Local(Asc(nodes.users))[user]
    requires v.users == Asc(nodes.users - {user}) + [user] && v.items == Asc(nodes.items)
    requires v.root == |nodes.users| - 1
    ensures RootMoved(s, v, user) && s.root == RootIndex(nodes, user)
  {
    OthersAre(nodes.users, user);
    hide Asc, Local, Without;
  }

  lemma {:induction false} ItemAt(g: Graph, nodes: Nodes, user: nat, audit: bool, virtual: MessageEdges,
                                  ordinary: MessageEdges, k: nat) returns (node: nat)
    requires g.Valid() && user in nodes.users && k < |nodes.items|
    ensures node in SideOf(nodes, Item) && node == Asc(nodes.items)[k]
    ensures node in Local(Asc(SideOf(nodes, Item))) && Local(Asc(nodes.items))[node] == k
    ensures SameAt(g, nodes, user, Item, audit, virtual, ordinary, node) <==>
      SameInbound(g.log, nodes, user, Item, audit, virtual, k, ordinary, k)
  {
    node := Asc(nodes.items)[k];
    assert node in Asc(nodes.items);
    LocalIndex(Asc(nodes.items), k);
    hide Asc, SameInbound, Local;
  }

  lemma {:induction false} UserAt(g: Graph, nodes: Nodes, user: nat, audit: bool, virtual: MessageEdges,
                                  ordinary: MessageEdges, k: nat) returns (node: nat)
    requires g.Valid() && user in nodes.users && k < |nodes.users|
    ensures node in SideOf(nodes, User) && node in Local(Asc(SideOf(nodes, User)))
    ensures SameAt(g, nodes, user, User, audit, virtual, ordinary, node) <==>
      SameInbound(g.log, nodes, user, User, audit, virtual, Moved(RootIndex(nodes, user), |nodes.users|, k), ordinary,
                  k)
  {
    node := Asc(nodes.users)[k];
    assert node in Asc(nodes.users);
    LocalIndex(Asc(nodes.users), k);
    LabelIsMoved(nodes.users, user, node);
    hide Asc, SameInbound, Local, Label, Moved;
  }

  /** The table of the root's own history traces the ordinary sample's events. */
  lemma {:induction false} TableEncodes(g: Graph, cutoff: int, nodes: Nodes, user: nat, history: seq<HistoryEvent>,
                                        others: Nodes, rows: seq<Row>) returns (t: Encoding)
    requires g.Valid() && user in nodes.users && OwnHistory(g, cutoff, user, history)
    requires others == Nodes(nodes.users - {user}, nodes.items)
    requires rows == Sort(RowBefore, Table(g, cutoff, others, history))
    ensures t.Valid() && t.g == g && t.cutoff == cutoff && t.nodes == nodes && t.user == user && t.rows == rows
  {
    hide Table, Sort, Traces, OwnHistory, UserEdges, Origins;
    var own := UserEdges(g, cutoff, nodes.items, user);
    var eids := Origins(rows, |g.log.users| + 1, own, |rows|);
    SortedTraces(g, cutoff, user, nodes, history, own, others, rows, eids);
    t := Encoding(g, cutoff, nodes, user, own, rows, eids);
  }

  /** The two samples carry the same messages if and only if no kept event ties. */
  lemma {:induction false} MessagesSame(t: Encoding, cfg: Config, s: GraphSample, v: GraphSample, audit: bool)
    requires t.Valid()
    requires |s.users| == |t.nodes.users| && |s.items| == |t.nodes.items| && s.root == RootIndex(t.nodes, t.user)
    requires s.toUsers == Received(t.g, cfg, t.cutoff, t.nodes, User)
    requires s.toItems == Received(t.g, cfg, t.cutoff, t.nodes, Item)
    requires v.toUsers == Messages(KeptVirtual(t.rows, User, |SideOf(t.nodes, User)|, cfg.Limit(User)))
    requires v.toItems == Messages(KeptVirtual(t.rows, Item, |SideOf(t.nodes, Item)|, cfg.Limit(Item)))
    ensures SameMessages(t.g, t.nodes, t.user, s, v, audit) <==> NoRetainedTies(t.g, cfg, t.cutoff, t.nodes, t.user)
  {
    hide Traces, SameInbound, SameAt, RootIndex, Moved, Received, Messages, KeptVirtual, SideOf, NoTies, Asc, Local;
    var kv := KeptVirtual(t.rows, Item, |SideOf(t.nodes, Item)|, cfg.Limit(Item));
    forall k: nat | k < |s.users|
      ensures SameInbound(t.g.log, t.nodes, t.user, User, audit, v.toUsers, Moved(s.root, |s.users|, k), s.toUsers, k)
    {
      var node := UserAt(t.g, t.nodes, t.user, audit, v.toUsers, s.toUsers, k);
      SideSame(t, cfg, User, audit, node, KeptVirtual(t.rows, User, |SideOf(t.nodes, User)|, cfg.Limit(User)));
    }
    forall k: nat | k < |s.items|
      ensures SameInbound(t.g.log, t.nodes, t.user, Item, audit, v.toItems, k, s.toItems, k) <==>
        NoTies(t.g, t.cutoff, t.nodes, t.user, Asc(t.nodes.items)[k], cfg.itemNeighborLimit)
    {
      var node := ItemAt(t.g, t.nodes, t.user, audit, v.toItems, s.toItems, k);
      SideSame(t, cfg, Item, audit, node, kv);
    }
    ItemTies(t.g, cfg, t.cutoff, t.nodes, t.user, Asc(t.nodes.items));
  }

  /** Every item that keeps an event keeps none that ties with an earlier event of the
      root. */
  ghost predicate NoRetainedTies(g: Graph, cfg: Config, cutoff: int, nodes: Nodes, user: nat)
    requires g.Valid()
  {
    forall i :: i in nodes.items ==> NoTies(g, cutoff, nodes, user, i, cfg.itemNeighborLimit)
  }

  lemma ItemTies(g: Graph, cfg: Config, cutoff: int, nodes: Nodes, user: nat, order: seq<nat>)
    requires g.Valid() && forall i :: i in order <==> i in nodes.items
    ensures NoRetainedTies(g, cfg, cutoff, nodes, user) <==>
      forall k :: 0 <= k < |order| ==> NoTies(g, cutoff, nodes, user, order[k], cfg.itemNeighborLimit)
  {
    hide NoTies;
    forall k | 0 <= k < |order| ensures order[k] in nodes.items { assert order[k] in order; }
  }

  lemma {:induction false} OthersReached(g: Graph, cfg: Config, cutoff: int, user: nat, history: seq<HistoryEvent>,
                                         nodes: Nodes)
    requires g.Valid() && OwnHistory(g, cutoff, user, history) && nodes == Reached(g, cfg, user, cutoff)
    ensures VirtualReached(g, cfg, cutoff, history, Known(user)) == Nodes(nodes.users - {user}, nodes.items)
  {
    SameNodes(g, cfg, cutoff, user, history);
    hide Reached, VirtualReached;
    var v := VirtualReached(g, cfg, cutoff, history, Known(user));
    assert v.users + {user} - {user} == v.users;
  }

  /** The two samples of a known user and its own history, seen on one table. */
  lemma {:induction false} SamplesEncode(g: Graph, cfg: Config, cutoff: int, user: nat, history: seq<HistoryEvent>,
                                         s: GraphSample, v: GraphSample, nodes: Nodes) returns (t: Encoding)
    requires g.Valid() && OwnHistory(g, cutoff, user, history)
    requires nodes == Reached(g, cfg, user, cutoff)
    requires Expected(g, cfg, user, cutoff) == Sampled(s)
    requires VirtualExpected(g, cfg, cutoff, history, Known(user)) == Sampled(v)
    ensures t.Valid() && t.g == g && t.cutoff == cutoff && t.nodes == nodes && t.user == user
    ensures user in nodes.users && RootMoved(s, v, user) && s.root == RootIndex(nodes, user)
    ensures s.users == Asc(nodes.users) && s.items == Asc(nodes.items)
    ensures s.toUsers == Received(g, cfg, cutoff, nodes, User) && s.toItems == Received(g, cfg, cutoff, nodes, Item)
    ensures v.toUsers == Messages(KeptVirtual(t.rows, User, |SideOf(nodes, User)|, cfg.Limit(User)))
    ensures v.toItems == Messages(KeptVirtual(t.rows, Item, |SideOf(nodes, Item)|, cfg.Limit(Item)))
  {
    hide *;
    ExpectedSample(g, cfg, user, cutoff, s);
    OthersReached(g, cfg, cutoff, user, history, nodes);
    var others := Nodes(nodes.users - {user}, nodes.items);
    var rows := Sort(RowBefore, Table(g, cutoff, others, history));
    SampleParts(g, cfg, nodes, user, cutoff, s);
    OneLess(nodes, user, cfg);
    VirtualParts(g, cfg, cutoff, history, Known(user), v, others, rows);
    NodesMoved(nodes, user, s, v);
    t := TableEncodes(g, cutoff, nodes, user, history, others, rows);
  }

  /** Handed a known user's whole visible history, the virtual root samples the nodes
      the user would, and the messages the user would if and only if no item keeps an
      event of another user that ties with an earlier one of the root. Comparing the
      audit column as well makes no difference. */
  lemma {:induction false} VirtualRefinesOrdinary(g: Graph, cfg: Config, cutoff: int, user: nat,
                                                  history: seq<HistoryEvent>, s: GraphSample, v: GraphSample,
                                                  nodes: Nodes, audit: bool)
    requires g.Valid() && OwnHistory(g, cutoff, user, history)
    requires nodes == Reached(g, cfg, user, cutoff)
    requires Expected(g, cfg, user, cutoff) == Sampled(s)
    requires VirtualExpected(g, cfg, cutoff, history, Known(user)) == Sampled(v)
    ensures RootMoved(s, v, user) && user in nodes.users
    ensures SameMessages(g, nodes, user, s, v, audit) <==> NoRetainedTies(g, cfg, cutoff, nodes, user)
  {
    hide *;
    var t := SamplesEncode(g, cfg, cutoff, user, history, s, v, nodes);
    MessagesSame(t, cfg, s, v, audit);
  }

  /** No visible event of another user ties with an earlier visible one of the root. */
  ghost predicate NoVisibleTies(g: Graph, cutoff: int, user: nat)
    requires g.Valid()
  {
    forall e: nat, r: nat | g.Visible(e, cutoff) && g.Visible(r, cutoff) :: !Tie(g.log, user, e, r)
  }

  /** A log without ties is enough, whatever is reached and whatever the limits. */
  lemma UntiedRefines(g: Graph, cfg: Config, cutoff: int, nodes: Nodes, user: nat)
    requires g.Valid() && NoVisibleTies(g, cutoff, user)
    ensures NoRetainedTies(g, cfg, cutoff, nodes, user)
  {
    hide Tie;
    forall i, e, r | i in nodes.items && e in Last(At(g, cutoff, nodes, Item, i), cfg.itemNeighborLimit) &&
                     r in EdgeSet(g, cutoff, nodes)
      ensures !Tie(g.log, user, e, r)
    {
      LastAscending(At(g, cutoff, nodes, Item, i), cfg.itemNeighborLimit);
    }
  }

  /** Without size limits both kinds of sampling succeed on a non-empty history, so
      the theorem above applies. */
  lemma BothSample(g: Graph, cfg: Config, cutoff: int, user: nat, history: seq<HistoryEvent>)
    requires g.Valid() && cfg.Valid() && OwnHistory(g, cutoff, user, history) && history != []
    requires cfg.maxSampleNodes == 0 && cfg.maxSampleEdges == 0
    ensures Expected(g, cfg, user, cutoff).Sampled?
    ensures VirtualExpected(g, cfg, cutoff, history, Known(user)).Sampled?
  {
    RecentIsNewest(g, User, user, cutoff, cfg.recentItems);
    hide Before, Last, Reached, VirtualReached, EdgeSet, SampleOf, VirtualSample;
    assert |Last<nat>(g.Recent(User, user, cutoff, 0), cfg.recentItems)| > 0;
  }
}
