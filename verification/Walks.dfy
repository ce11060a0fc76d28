/** What sampling reaches, told without the expansion: the nodes at the end of short walks that alternate
    between items and users along lookups of the newest events. */
module Walks {
  import opened Sorting
  import opened TemporalGraph
  import opened Reach
  import opened Induced
  import opened Sampler
  import opened VirtualRoot

  // ---- one lookup ----------------------------------------------------------------

  /** `e` is visible up to the cutoff on this node, and (unless `limit` is 0) fewer than
      `limit` later events of the node are. */
  ghost predicate AmongNewest(g: Graph, side: Side, node: nat, cutoff: int, limit: nat, e: nat)
    requires g.Valid()
  {
    && e < |g.allowed| && g.allowed[e] && e <= cutoff
    && (if side.User? then g.log.users[e] == node else g.log.items[e] == node)
    && (limit == 0 || |LaterEvents(g, side, node, cutoff, e)| < limit)
  }

  ghost function LaterEvents(g: Graph, side: Side, node: nat, cutoff: int, e: nat): set<nat>
    requires g.Valid()
  {
    set f: nat | e < f < |g.allowed| && g.allowed[f] && f <= cutoff
                 && (if side.User? then g.log.users[f] == node else g.log.items[f] == node)
  }

  lemma {:induction false} LaterIs(g: Graph, side: Side, node: nat, cutoff: int, k: nat)
    requires g.Valid() && k < |g.Recent(side, node, cutoff, 0)|
    ensures var all := g.Recent(side, node, cutoff, 0);
      |LaterEvents(g, side, node, cutoff, all[k])| == |all| - 1 - k
  {
    var all := g.Recent(side, node, cutoff, 0);
    RecentIsNewest(g, side, node, cutoff, 0);
    hide Graph.Recent;
    PlaceCounts(all, k);
    assert LaterEvents(g, side, node, cutoff, all[k]) == set x | x in all && x > all[k];
  }

  /** A lookup returns exactly the newest `limit` visible events of the node. */
  lemma {:induction false} LookupMeans(g: Graph, side: Side, node: nat, cutoff: int, limit: nat, e: nat)
    requires g.Valid()
    ensures e in g.Recent(side, node, cutoff, limit) <==> AmongNewest(g, side, node, cutoff, limit, e)
  {
    var all := g.Recent(side, node, cutoff, 0);
    RecentIsNewest(g, side, node, cutoff, limit);
    hide Before;
    if e in all {
      var k :| 0 <= k < |all| && all[k] == e;
      LaterIs(g, side, node, cutoff, k);
      hide LaterEvents;
      InLast(all, limit, e);
      LastLength(all, limit);
      OrderedPlaces(all, k, |all| - |Last(all, limit)|);
    }
  }

  lemma LastLength(s: seq<nat>, limit: nat)
    requires s != []
    ensures 0 < |Last(s, limit)| <= |s|
    ensures |Last(s, limit)| == if limit == 0 || |s| <= limit then |s| else limit
  {
  }

  lemma OrderedPlaces(s: seq<nat>, i: nat, j: nat)
    requires Ascending(s) && i < |s| && j < |s|
    ensures s[i] >= s[j] <==> i >= j
  {
  }

  /** The other end of one of the newest events of an item. */
  ghost predicate ItemLeadsTo(g: Graph, cfg: Config, cutoff: int, item: nat, user: nat)
    requires g.Valid()
  {
    exists e: nat :: AmongNewest(g, Item, item, cutoff, cfg.itemNeighborLimit, e) && g.log.users[e] == user
  }

  /** The other end of one of the newest events of a user. */
  ghost predicate UserLeadsTo(g: Graph, cfg: Config, cutoff: int, user: nat, item: nat)
    requires g.Valid()
  {
    exists e: nat :: AmongNewest(g, User, user, cutoff, cfg.recentItems, e) && g.log.items[e] == item
  }

  /** One expansion finds exactly the other ends of the newest events of the nodes it is
      given: `item_neighbor_limit` events of an item, `recent_items` of a user. */
  lemma {:induction false} AcrossMeans(g: Graph, cfg: Config, cutoff: int, nodes: set<nat>, w: nat)
    requires g.Valid()
    ensures w in Across(g, cfg, Item, cutoff, nodes) <==> exists v :: v in nodes && ItemLeadsTo(g, cfg, cutoff, v, w)
    ensures w in Across(g, cfg, User, cutoff, nodes) <==> exists v :: v in nodes && UserLeadsTo(g, cfg, cutoff, v, w)
  {
    forall v ensures w in Neighbors(g, cfg, Item, cutoff, v) <==> ItemLeadsTo(g, cfg, cutoff, v, w) {
      NeighborMeans(g, cfg, Item, cutoff, v, w);
    }
    forall v ensures w in Neighbors(g, cfg, User, cutoff, v) <==> UserLeadsTo(g, cfg, cutoff, v, w) {
      NeighborMeans(g, cfg, User, cutoff, v, w);
    }
    hide Neighbors, ItemLeadsTo, UserLeadsTo;
  }

  lemma {:induction false} NeighborMeans(g: Graph, cfg: Config, side: Side, cutoff: int, v: nat, w: nat)
    requires g.Valid()
    ensures w in Neighbors(g, cfg, side, cutoff, v) <==>
      if side.User? then UserLeadsTo(g, cfg, cutoff, v, w) else ItemLeadsTo(g, cfg, cutoff, v, w)
  {
    var limit := if side.User? then cfg.recentItems else cfg.itemNeighborLimit;
    forall e: nat ensures e in g.Recent(side, v, cutoff, limit) <==> AmongNewest(g, side, v, cutoff, limit, e) {
      LookupMeans(g, side, v, cutoff, limit, e);
    }
    hide Before, LaterEvents;
  }

  // ---- walks -----------------------------------------------------------------------

  /** Items at the even places and users at the odd ones, each led to by the one before;
      no user of `skip`. */
  ghost predicate Walk(g: Graph, cfg: Config, cutoff: int, skip: set<nat>, path: seq<nat>)
    requires g.Valid()
  {
    && path != []
    && forall k :: 0 < k < |path| ==> WalkStep(g, cfg, cutoff, skip, path, k)
  }

  ghost predicate WalkStep(g: Graph, cfg: Config, cutoff: int, skip: set<nat>, path: seq<nat>, k: nat)
    requires g.Valid() && 0 < k < |path|
  {
    if k % 2 == 1 then ItemLeadsTo(g, cfg, cutoff, path[k - 1], path[k]) && path[k] !in skip
    else UserLeadsTo(g, cfg, cutoff, path[k - 1], path[k])
  }

  /** A walk from one of `items` to `node` in at most `most` nodes. */
  ghost predicate WalkTo(g: Graph, cfg: Config, cutoff: int, skip: set<nat>, items: set<nat>, side: Side, node: nat,
                         most: nat, path: seq<nat>)
    requires g.Valid()
  {
    && Walk(g, cfg, cutoff, skip, path) && path[0] in items && path[|path| - 1] == node
    && |path| <= most && (|path| % 2 == if side.User? then 0 else 1)
  }

  ghost predicate WalkEnds(g: Graph, cfg: Config, cutoff: int, skip: set<nat>, items: set<nat>, side: Side, node: nat,
                           most: nat)
    requires g.Valid()
  {
    exists path :: WalkTo(g, cfg, cutoff, skip, items, side, node, most, path)
  }

  lemma {:induction false} WalkGrows(g: Graph, cfg: Config, cutoff: int, skip: set<nat>, items: set<nat>, side: Side,
                                     v: nat, w: nat, most: nat, path: seq<nat>)
    requires g.Valid() && WalkTo(g, cfg, cutoff, skip, items, side, v, most, path)
    requires if side.User? then UserLeadsTo(g, cfg, cutoff, v, w)
             else ItemLeadsTo(g, cfg, cutoff, v, w) && w !in skip
    ensures WalkTo(g, cfg, cutoff, skip, items, side.Other(), w, most + 1, path + [w])
  {
    hide ItemLeadsTo, UserLeadsTo;
    var next := path + [w];
    forall k | 0 < k < |next| ensures WalkStep(g, cfg, cutoff, skip, next, k) {
      if k < |path| { assert WalkStep(g, cfg, cutoff, skip, path, k); }
    }
  }

  lemma {:induction false} WalkFront(g: Graph, cfg: Config, cutoff: int, skip: set<nat>, items: set<nat>, side: Side,
                                     w: nat, most: nat, path: seq<nat>)
    requires g.Valid() && WalkTo(g, cfg, cutoff, skip, items, side.Other(), w, most, path) && |path| > 1
    ensures var front := path[..|path| - 1];
      && WalkTo(g, cfg, cutoff, skip, items, side, front[|front| - 1], most - 1, front)
      && (if side.User? then UserLeadsTo(g, cfg, cutoff, front[|front| - 1], w)
          else ItemLeadsTo(g, cfg, cutoff, front[|front| - 1], w) && w !in skip)
  {
    hide ItemLeadsTo, UserLeadsTo;
    var front := path[..|path| - 1];
    assert WalkStep(g, cfg, cutoff, skip, path, |path| - 1);
    forall k | 0 < k < |front| ensures WalkStep(g, cfg, cutoff, skip, front, k) {
      assert WalkStep(g, cfg, cutoff, skip, path, k);
    }
  }

  lemma RoundMeans(g: Graph, cfg: Config, cutoff: int, skip: set<nat>, s: Nodes, w: nat)
    requires g.Valid()
    ensures var t := Round(g, cfg, cutoff, skip, s);
      && (w in t.users <==>
            w in s.users || (w !in skip && exists v :: v in s.items && ItemLeadsTo(g, cfg, cutoff, v, w)))
      && (w in t.items <==> w in s.items || exists v :: v in t.users && UserLeadsTo(g, cfg, cutoff, v, w))
  {
    var t := Round(g, cfg, cutoff, skip, s);
    AcrossMeans(g, cfg, cutoff, s.items, w);
    AcrossMeans(g, cfg, cutoff, t.users, w);
    hide Across, ItemLeadsTo, UserLeadsTo;
  }

  /** The end of a walk is reached once there were enough rounds. */
  lemma {:induction false} WalkReached(g: Graph, cfg: Config, cutoff: int, skip: set<nat>, s: Nodes, side: Side,
                                       w: nat, n: nat, path: seq<nat>)
    requires g.Valid()
    requires WalkTo(g, cfg, cutoff, skip, s.items, side, w, if side.User? then 2 * n else 2 * n + 1, path)
    ensures var t := Rounds(g, cfg, cutoff, skip, s, n);
      if side.User? then w in t.users else w in t.items
    decreases |path|
  {
    hide Round, ItemLeadsTo, UserLeadsTo, WalkStep;
    var t := Rounds(g, cfg, cutoff, skip, s, n);
    if |path| == 1 {
      RoundsGrow(g, cfg, cutoff, skip, s, 0, n);
    } else {
      assert side.Other().Other() == side;
      WalkFront(g, cfg, cutoff, skip, s.items, side.Other(), w, if side.User? then 2 * n else 2 * n + 1, path);
      var front := path[..|path| - 1];
      RoundMeans(g, cfg, cutoff, skip, Rounds(g, cfg, cutoff, skip, s, n - 1), w);
      if side.User? {
        WalkReached(g, cfg, cutoff, skip, s, Item, front[|front| - 1], n - 1, front);
      } else {
        WalkReached(g, cfg, cutoff, skip, s, User, front[|front| - 1], n, front);
      }
    }
  }

  /** Whatever the rounds reach is the end of a walk. */
  lemma {:induction false} ReachedByWalk(g: Graph, cfg: Config, cutoff: int, skip: set<nat>, s: Nodes, side: Side,
                                         w: nat, n: nat) returns (path: seq<nat>)
    requires g.Valid() && forall u, i :: u in s.users && UserLeadsTo(g, cfg, cutoff, u, i) ==> i in s.items
    requires var t := Rounds(g, cfg, cutoff, skip, s, n);
      if side.User? then w in t.users && w !in s.users else w in t.items
    ensures WalkTo(g, cfg, cutoff, skip, s.items, side, w, if side.User? then 2 * n else 2 * n + 1, path)
    decreases n, side.Item?
  {
    hide Round, ItemLeadsTo, UserLeadsTo;
    if side.Item? && w in s.items {
      path := [w];
    } else {
      assert n > 0;
      var before := Rounds(g, cfg, cutoff, skip, s, n - 1);
      RoundMeans(g, cfg, cutoff, skip, before, w);
      if w in (if side.User? then before.users else before.items) {
        path := ReachedByWalk(g, cfg, cutoff, skip, s, side, w, n - 1);
      } else if side.User? {
        var v :| v in before.items && ItemLeadsTo(g, cfg, cutoff, v, w);
        var front := ReachedByWalk(g, cfg, cutoff, skip, s, Item, v, n - 1);
        WalkGrows(g, cfg, cutoff, skip, s.items, Item, v, w, 2 * n - 1, front);
        path := front + [w];
      } else {
        var t := Rounds(g, cfg, cutoff, skip, s, n);
        var v :| v in t.users && UserLeadsTo(g, cfg, cutoff, v, w);
        var front := ReachedByWalk(g, cfg, cutoff, skip, s, User, v, n);
        WalkGrows(g, cfg, cutoff, skip, s.items, User, v, w, 2 * n, front);
        path := front + [w];
      }
    }
  }

  // ---- what the two kinds of sampling reach -----------------------------------------------

  lemma {:induction false} StartMeans(g: Graph, cfg: Config, user: nat, cutoff: int)
    requires g.Valid()
    ensures forall i :: i in Start(g, cfg, user, cutoff).items <==> UserLeadsTo(g, cfg, cutoff, user, i)
  {
    forall i ensures i in Start(g, cfg, user, cutoff).items <==> UserLeadsTo(g, cfg, cutoff, user, i) {
      NeighborMeans(g, cfg, User, cutoff, user, i);
    }
  }

  /** Ordinary sampling reaches the user, and besides exactly what walks from the items
      of its newest events reach: users in at most 2 * (sampling_order + 1) nodes, items
      in at most one more. */
  lemma {:induction false} ReachedMeans(g: Graph, cfg: Config, user: nat, cutoff: int, items: set<nat>, w: nat)
    requires g.Valid() && forall i :: i in items <==> UserLeadsTo(g, cfg, cutoff, user, i)
    ensures w in Reached(g, cfg, user, cutoff).users <==>
      w == user || WalkEnds(g, cfg, cutoff, {}, items, User, w, 2 * cfg.samplingOrder + 2)
    ensures w in Reached(g, cfg, user, cutoff).items <==>
      WalkEnds(g, cfg, cutoff, {}, items, Item, w, 2 * cfg.samplingOrder + 3)
  {
    hide *;
    var s, n := Start(g, cfg, user, cutoff), cfg.samplingOrder + 1;
    StartMeans(g, cfg, user, cutoff);
    ReachedIs(g, cfg, user, cutoff, s, n);
    assert s.items == items;
    RoundsMean(g, cfg, cutoff, {}, s, w, n);
  }

  lemma ReachedIs(g: Graph, cfg: Config, user: nat, cutoff: int, s: Nodes, n: nat)
    requires g.Valid() && s == Start(g, cfg, user, cutoff) && n == cfg.samplingOrder + 1
    ensures Reached(g, cfg, user, cutoff) == Rounds(g, cfg, cutoff, {}, s, n)
    ensures s.users == {user} && user in Rounds(g, cfg, cutoff, {}, s, n).users
  {
    hide *;
    ReachedRounds(g, cfg, user, cutoff);
    StartUsers(g, cfg, user, cutoff);
    RoundsGrow(g, cfg, cutoff, {}, s, 0, n);
    NoRounds(g, cfg, cutoff, s);
  }

  lemma ReachedRounds(g: Graph, cfg: Config, user: nat, cutoff: int)
    requires g.Valid()
    ensures Reached(g, cfg, user, cutoff) ==
      Rounds(g, cfg, cutoff, {}, Start(g, cfg, user, cutoff), cfg.samplingOrder + 1)
  {
    hide Rounds, Start;
  }

  lemma StartUsers(g: Graph, cfg: Config, user: nat, cutoff: int)
    requires g.Valid()
    ensures Start(g, cfg, user, cutoff).users == {user}
  {
    hide Graph.Recent, EndPoints;
  }

  lemma NoRounds(g: Graph, cfg: Config, cutoff: int, s: Nodes)
    requires g.Valid()
    ensures Rounds(g, cfg, cutoff, {}, s, 0) == s
  {
  }

  lemma {:induction false} RoundsMean(g: Graph, cfg: Config, cutoff: int, skip: set<nat>, s: Nodes, w: nat, n: nat)
    requires g.Valid() && forall u, i :: u in s.users && UserLeadsTo(g, cfg, cutoff, u, i) ==> i in s.items
    ensures var t := Rounds(g, cfg, cutoff, skip, s, n);
      && (w in t.users && w !in s.users ==> WalkEnds(g, cfg, cutoff, skip, s.items, User, w, 2 * n))
      && (w in t.users <== WalkEnds(g, cfg, cutoff, skip, s.items, User, w, 2 * n))
      && (w in t.items <==> WalkEnds(g, cfg, cutoff, skip, s.items, Item, w, 2 * n + 1))
  {
    hide Rounds, UserLeadsTo, WalkTo;
    var t := Rounds(g, cfg, cutoff, skip, s, n);
    if w in t.users && w !in s.users { var path := ReachedByWalk(g, cfg, cutoff, skip, s, User, w, n); }
    if w in t.items { var path := ReachedByWalk(g, cfg, cutoff, skip, s, Item, w, n); }
    if WalkEnds(g, cfg, cutoff, skip, s.items, User, w, 2 * n) {
      var most := 2 * n;
      var path :| WalkTo(g, cfg, cutoff, skip, s.items, User, w, most, path);
      WalkReached(g, cfg, cutoff, skip, s, User, w, n, path);
    }
    if WalkEnds(g, cfg, cutoff, skip, s.items, Item, w, 2 * n + 1) {
      var most := 2 * n + 1;
      var path :| WalkTo(g, cfg, cutoff, skip, s.items, Item, w, most, path);
      WalkReached(g, cfg, cutoff, skip, s, Item, w, n, path);
    }
  }

  /** One of the newest `recent_items` history events (all, if that is 0) is on `i`. */
  ghost predicate NewestMention(cfg: Config, history: seq<HistoryEvent>, i: nat) {
    exists k :: 0 <= k < |history| && history[k].item == i && (cfg.recentItems == 0 || |history| - k <= cfg.recentItems)
  }

  /** A virtual root reaches exactly what walks from the items of its newest history
      events reach that avoid the user it stands for, if any. */
  lemma {:induction false} VirtualReachedMeans(g: Graph, cfg: Config, cutoff: int, history: seq<HistoryEvent>,
                                               root: Root, items: set<nat>, avoided: set<nat>, w: nat)
    requires g.Valid() && forall i :: i in items <==> NewestMention(cfg, history, i)
    requires forall u :: u in avoided <==> root.Known? && u == root.user
    ensures w in VirtualReached(g, cfg, cutoff, history, root).users <==>
      WalkEnds(g, cfg, cutoff, avoided, items, User, w, 2 * cfg.samplingOrder + 2)
    ensures w in VirtualReached(g, cfg, cutoff, history, root).items <==>
      WalkEnds(g, cfg, cutoff, avoided, items, Item, w, 2 * cfg.samplingOrder + 3)
  {
    hide *;
    var newest, n := Last(history, cfg.recentItems), cfg.samplingOrder + 1;
    var s := Nodes({}, HistoryItems(newest, |newest|));
    MentionsAre(cfg, history, items, newest);
    SkipIs(root, avoided);
    VirtualReachedIs(g, cfg, cutoff, history, root, s, n);
    RoundsMean(g, cfg, cutoff, avoided, s, w, n);
  }

  lemma SkipIs(root: Root, avoided: set<nat>)
    requires forall u :: u in avoided <==> root.Known? && u == root.user
    ensures avoided == Skip(root)
  {
  }

  lemma VirtualReachedIs(g: Graph, cfg: Config, cutoff: int, history: seq<HistoryEvent>, root: Root, s: Nodes, n: nat)
    requires g.Valid() && n == cfg.samplingOrder + 1
    requires var newest := Last(history, cfg.recentItems); s == Nodes({}, HistoryItems(newest, |newest|))
    ensures VirtualReached(g, cfg, cutoff, history, root) == Rounds(g, cfg, cutoff, Skip(root), s, n)
  {
    hide Rounds, Last, HistoryItems, Skip;
  }

  lemma {:induction false} MentionsAre(cfg: Config, history: seq<HistoryEvent>, items: set<nat>,
                                       newest: seq<HistoryEvent>)
    requires forall i :: i in items <==> NewestMention(cfg, history, i)
    requires newest == Last(history, cfg.recentItems)
    ensures HistoryItems(newest, |newest|) == items
  {
    hide HistoryItems, Last;
    forall i ensures i in HistoryItems(newest, |newest|) <==> i in items {
      HistoryItemsAre(newest, |newest|, i);
      MentionedNewest(cfg, history, newest, i);
    }
  }

  lemma {:induction false} MentionedNewest(cfg: Config, history: seq<HistoryEvent>, newest: seq<HistoryEvent>, i: nat)
    requires newest == Last(history, cfg.recentItems)
    ensures NewestMention(cfg, history, i) <==> exists k :: 0 <= k < |newest| && newest[k].item == i
  {
    hide Last;
    LastSize(history, cfg.recentItems);
    if NewestMention(cfg, history, i) {
      var k :| 0 <= k < |history| && history[k].item == i &&
               (cfg.recentItems == 0 || |history| - k <= cfg.recentItems);
      AmongLast(cfg, history, newest, k);
    }
    if k :| 0 <= k < |newest| && newest[k].item == i {
      LastEntry(history, cfg.recentItems, k);
      NewestAt(cfg, history, newest, k);
    }
  }

  lemma LastSize(history: seq<HistoryEvent>, limit: nat)
    ensures |Last(history, limit)| == if limit == 0 || |history| <= limit then |history| else limit
  {
  }

  lemma AmongLast(cfg: Config, history: seq<HistoryEvent>, newest: seq<HistoryEvent>, k: nat)
    requires newest == Last(history, cfg.recentItems) && k < |history|
    requires cfg.recentItems == 0 || |history| - k <= cfg.recentItems
    requires |newest| == if cfg.recentItems == 0 || |history| <= cfg.recentItems then |history| else cfg.recentItems
    ensures exists j :: 0 <= j < |newest| && newest[j].item == history[k].item
  {
    hide Last;
    var j := k - (|history| - |newest|);
    LastEntry(history, cfg.recentItems, j);
    assert newest[j].item == history[k].item;
  }

  lemma NewestAt(cfg: Config, history: seq<HistoryEvent>, newest: seq<HistoryEvent>, k: nat)
    requires k < |newest| <= |history| && newest[k] == history[|history| - |newest| + k]
    requires |newest| == if cfg.recentItems == 0 || |history| <= cfg.recentItems then |history| else cfg.recentItems
    ensures NewestMention(cfg, history, newest[k].item)
  {
    var at := |history| - |newest| + k;
    assert history[at].item == newest[k].item;
  }
}
