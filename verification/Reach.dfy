/** The alternating node expansion of Algorithm 1, shared by `TemporalSampler.sample` and `_sample_virtual`: the
    frontier form the program runs, and the naive operator that re-expands every node found so far. */
module Reach {
  import opened Sorting
  import opened TemporalGraph

  /** The sampler's settings; `Valid` is what `Config.validate` enforces on them. */
  datatype Config = Config(recentItems: nat, samplingOrder: nat, itemNeighborLimit: nat,
                           maxSampleNodes: nat, maxSampleEdges: nat, graphCacheSize: nat) {
    ghost predicate Valid() { recentItems >= 1 }

    function Limit(side: Side): nat { if side.User? then recentItems else itemNeighborLimit }
  }

  datatype Nodes = Nodes(users: set<nat>, items: set<nat>)

  /** The opposite end points of some events. */
  function EndPoints(g: Graph, side: Side, events: seq<nat>): (r: set<nat>)
    requires g.Valid() && forall k :: 0 <= k < |events| ==> events[k] < |g.allowed|
  {
    set e | e in events :: g.log.Column(side.Other())[e]
  }

  function Neighbors(g: Graph, cfg: Config, side: Side, cutoff: int, node: nat): set<nat>
    requires g.Valid()
  {
    EndPoints(g, side, g.Recent(side, node, cutoff, cfg.Limit(side)))
  }

  /** Every node reachable by one lookup from some node of the set. */
  ghost function Across(g: Graph, cfg: Config, side: Side, cutoff: int, nodes: set<nat>): set<nat>
    requires g.Valid()
  {
    set v, w | v in nodes && w in Neighbors(g, cfg, side, cutoff, v) :: w
  }

  lemma AcrossUnion(g: Graph, cfg: Config, side: Side, cutoff: int, a: set<nat>, b: set<nat>)
    requires g.Valid()
    ensures Across(g, cfg, side, cutoff, a + b) ==
      Across(g, cfg, side, cutoff, a) + Across(g, cfg, side, cutoff, b)
  {
  }

  lemma {:induction false} AcrossFew(g: Graph, cfg: Config, side: Side, cutoff: int, v: nat)
    requires g.Valid()
    ensures Across(g, cfg, side, cutoff, {}) == {}
    ensures Across(g, cfg, side, cutoff, {v}) == Neighbors(g, cfg, side, cutoff, v)
  {
  }

  /** One round of the naive operator: users of all items, then items of all users. */
  ghost function Round(g: Graph, cfg: Config, cutoff: int, skip: set<nat>, s: Nodes): Nodes
    requires g.Valid()
  {
    var users := s.users + (Across(g, cfg, Item, cutoff, s.items) - skip);
    Nodes(users, s.items + Across(g, cfg, User, cutoff, users))
  }

  ghost function Rounds(g: Graph, cfg: Config, cutoff: int, skip: set<nat>, s: Nodes, n: nat): Nodes
    requires g.Valid()
  {
    if n == 0 then s else Round(g, cfg, cutoff, skip, Rounds(g, cfg, cutoff, skip, s, n - 1))
  }

  lemma {:induction false} RoundsFixed(g: Graph, cfg: Config, cutoff: int, skip: set<nat>, s: Nodes, k: nat, n: nat)
    requires g.Valid() && k <= n
    requires Round(g, cfg, cutoff, skip, Rounds(g, cfg, cutoff, skip, s, k)) == Rounds(g, cfg, cutoff, skip, s, k)
    ensures Rounds(g, cfg, cutoff, skip, s, n) == Rounds(g, cfg, cutoff, skip, s, k)
  {
    hide Round;
    if k < n { RoundsFixed(g, cfg, cutoff, skip, s, k, n - 1); }
  }

  lemma {:induction false} RoundsGrow(g: Graph, cfg: Config, cutoff: int, skip: set<nat>, s: Nodes, k: nat, n: nat)
    requires g.Valid() && k <= n
    ensures Rounds(g, cfg, cutoff, skip, s, k).users <= Rounds(g, cfg, cutoff, skip, s, n).users
    ensures Rounds(g, cfg, cutoff, skip, s, k).items <= Rounds(g, cfg, cutoff, skip, s, n).items
  {
    hide Across;
    if k < n { RoundsGrow(g, cfg, cutoff, skip, s, k, n - 1); }
  }

  /** `_check_nodes`. */
  predicate TooManyNodes(cfg: Config, users: set<nat>, items: set<nat>) {
    cfg.maxSampleNodes != 0 && |users| + |items| > cfg.maxSampleNodes
  }

  lemma TooManyGrows(cfg: Config, a: Nodes, b: Nodes)
    requires a.users <= b.users && a.items <= b.items
    requires TooManyNodes(cfg, a.users, a.items)
    ensures TooManyNodes(cfg, b.users, b.items)
  {
    SubsetSize(a.users, b.users);
    SubsetSize(a.items, b.items);
  }

  /** `for v in sorted(nodes): found.update(...)`. */
  method Collect(g: Graph, cfg: Config, side: Side, cutoff: int, nodes: set<nat>) returns (found: set<nat>)
    requires g.Valid()
    ensures found == Across(g, cfg, side, cutoff, nodes)
  {
    hide Across, EndPoints;
    found := {};
    var order := Asc(nodes);
    ghost var done: set<nat> := {};
    AcrossFew(g, cfg, side, cutoff, 0);
    for k := 0 to |order|
      invariant forall x :: x in done <==> x in order[..k]
      invariant found == Across(g, cfg, side, cutoff, done)
    {
      var v := order[k];
      AcrossUnion(g, cfg, side, cutoff, done, {v});
      AcrossFew(g, cfg, side, cutoff, v);
      found := found + EndPoints(g, side, g.Recent(side, v, cutoff, cfg.Limit(side)));
      done := done + {v};
    }
    assert done == nodes by { assert order[..|order|] == order; }
  }

  /** What is known between rounds: only the frontier can still contribute. */
  ghost predicate Covered(g: Graph, cfg: Config, cutoff: int, skip: set<nat>, s: Nodes, frontier: set<nat>)
    requires g.Valid()
  {
    && frontier <= s.items
    && Across(g, cfg, Item, cutoff, s.items - frontier) <= s.users + skip
    && Across(g, cfg, User, cutoff, s.users) <= s.items
  }

  /** Expanding the frontier alone gives the same users, and then the same items,
      as re-expanding everything. */
  lemma {:induction false} FrontierRound(g: Graph, cfg: Config, cutoff: int, skip: set<nat>, s: Nodes,
                                         frontier: set<nat>, newUsers: set<nat>, newItems: set<nat>)
    requires g.Valid() && Covered(g, cfg, cutoff, skip, s, frontier)
    requires newUsers == Across(g, cfg, Item, cutoff, frontier) - s.users - skip
    requires newItems == Across(g, cfg, User, cutoff, newUsers) - s.items
    ensures Round(g, cfg, cutoff, skip, s) == Nodes(s.users + newUsers, s.items + newItems)
    ensures Covered(g, cfg, cutoff, skip, Nodes(s.users + newUsers, s.items + newItems), newItems)
  {
    AcrossUnion(g, cfg, Item, cutoff, s.items - frontier, frontier);
    assert s.items - frontier + frontier == s.items;
    AcrossUnion(g, cfg, User, cutoff, s.users, newUsers);
    assert s.items + newItems - newItems == s.items;
    hide Across;
    assert s.users + (Across(g, cfg, Item, cutoff, s.items) - skip) == s.users + newUsers;
  }

  lemma {:induction false} EmptyFrontierFixed(g: Graph, cfg: Config, cutoff: int, skip: set<nat>, s: Nodes)
    requires g.Valid() && Covered(g, cfg, cutoff, skip, s, {})
    ensures Round(g, cfg, cutoff, skip, s) == s
  {
    assert s.items - {} == s.items;
    hide Across;
    assert s.users + (Across(g, cfg, Item, cutoff, s.items) - skip) == s.users;
  }

  /** The expansion loop with its early exits: it reaches exactly the nodes of
      `samplingOrder + 1` naive rounds, and is refused exactly when those are too many. */
  method Expand(g: Graph, cfg: Config, cutoff: int, skip: set<nat>, users0: set<nat>, items0: set<nat>)
    returns (ok: bool, users: set<nat>, items: set<nat>)
    requires g.Valid()
    requires Across(g, cfg, User, cutoff, users0) <= items0
    ensures var reached := Rounds(g, cfg, cutoff, skip, Nodes(users0, items0), cfg.samplingOrder + 1);
      && ok == !TooManyNodes(cfg, reached.users, reached.items)
      && (ok ==> Nodes(users, items) == reached)
  {
    hide Across, TooManyNodes;
    ghost var start := Nodes(users0, items0);
    ghost var last := cfg.samplingOrder + 1;
    ghost var reached := Rounds(g, cfg, cutoff, skip, start, last);
    users, items := users0, items0;
    var frontier := items0;
    assert Covered(g, cfg, cutoff, skip, start, frontier) by { NothingLeft(g, cfg, cutoff, items0); }
    ok := !TooManyNodes(cfg, users, items);
    if !ok {
      RoundsGrow(g, cfg, cutoff, skip, start, 0, last);
      TooManyGrows(cfg, start, reached);
      return;
    }
    for j := 0 to cfg.samplingOrder + 1
      invariant Nodes(users, items) == Rounds(g, cfg, cutoff, skip, start, j)
      invariant Covered(g, cfg, cutoff, skip, Nodes(users, items), frontier)
      invariant ok && !TooManyNodes(cfg, users, items)
    {
      ghost var s := Nodes(users, items);
      var newUsers := Collect(g, cfg, Item, cutoff, frontier);
      newUsers := newUsers - users - skip;
      ghost var allNew := Across(g, cfg, User, cutoff, newUsers) - items;
      FrontierRound(g, cfg, cutoff, skip, s, frontier, newUsers, allNew);
      if newUsers == {} {
        AcrossFew(g, cfg, User, cutoff, 0);
        assert users + newUsers == users && items + allNew == items;
        RoundsFixed(g, cfg, cutoff, skip, start, j, last);
        return;
      }
      users := users + newUsers;
      ok := !TooManyNodes(cfg, users, items);
      if !ok {
        RoundsGrow(g, cfg, cutoff, skip, start, j + 1, last);
        TooManyGrows(cfg, Nodes(users, items), reached);
        return;
      }
      var newItems := Collect(g, cfg, User, cutoff, newUsers);
      newItems := newItems - items;
      if newItems == {} {
        assert items + allNew == items;
        EmptyFrontierFixed(g, cfg, cutoff, skip, Nodes(users, items));
        RoundsFixed(g, cfg, cutoff, skip, start, j + 1, last);
        return;
      }
      items := items + newItems;
      ok := !TooManyNodes(cfg, users, items);
      if !ok {
        RoundsGrow(g, cfg, cutoff, skip, start, j + 1, last);
        TooManyGrows(cfg, Nodes(users, items), reached);
        return;
      }
      frontier := newItems;
    }
  }

  lemma NothingLeft(g: Graph, cfg: Config, cutoff: int, items: set<nat>)
    requires g.Valid()
    ensures Across(g, cfg, Item, cutoff, items - items) == {}
  {
  }

}
