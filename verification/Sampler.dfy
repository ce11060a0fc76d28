/** `TemporalSampler` of `dgsr/graph.py`: what one sample is, and the caching sampler. */
module Sampler {
  import opened Sorting
  import opened TemporalGraph
  import opened Reach
  import opened Induced
  import opened Messaging

  datatype GraphSample = GraphSample(users: seq<nat>, items: seq<nat>, toUsers: MessageEdges, toItems: MessageEdges,
                                     root: nat, cutoff: int, inducedEvents: seq<nat>)

  datatype Reason = NoHistory | NodeLimit | EdgeLimit
  datatype Outcome = Sampled(sample: GraphSample) | Refused(reason: Reason)

  // ---- what a sample is ----------------------------------------------------

  /** The root and the items of its newest interactions. */
  ghost function Start(g: Graph, cfg: Config, user: nat, cutoff: int): Nodes
    requires g.Valid()
  {
    Nodes({user}, EndPoints(g, User, g.Recent(User, user, cutoff, cfg.recentItems)))
  }

  ghost function Reached(g: Graph, cfg: Config, user: nat, cutoff: int): Nodes
    requires g.Valid()
  {
    Rounds(g, cfg, cutoff, {}, Start(g, cfg, user, cutoff), cfg.samplingOrder + 1)
  }

  /** The incident event lists of the first `n` listed nodes. */
  ghost function Lists(g: Graph, cutoff: int, nodes: Nodes, side: Side, order: seq<nat>, n: nat): (r: seq<seq<nat>>)
    requires g.Valid() && n <= |order|
    ensures |r| == n
    ensures forall k {:trigger r[k]} :: 0 <= k < n ==> r[k] == At(g, cutoff, nodes, side, order[k])
  {
    if n == 0 then []
    else Lists(g, cutoff, nodes, side, order, n - 1) + [At(g, cutoff, nodes, side, order[n - 1])]
  }

  ghost function Opposite(nodes: Nodes, side: Side): set<nat> {
    if side.User? then nodes.items else nodes.users
  }

  lemma {:induction false} AtMapped(g: Graph, cutoff: int, nodes: Nodes, side: Side, node: nat, limit: nat)
    requires g.Valid()
    ensures Maps(Last(At(g, cutoff, nodes, side, node), limit), g.log.Column(side.Other()),
                 Local(Asc(Opposite(nodes, side))))
  {
    var ids := At(g, cutoff, nodes, side, node);
    LastAscending(ids, limit);
    hide At, Last, Local, Asc;
    var chosen := Last(ids, limit);
    forall k | 0 <= k < |chosen|
      ensures chosen[k] < |g.log.Column(side.Other())|
      ensures g.log.Column(side.Other())[chosen[k]] in Local(Asc(Opposite(nodes, side)))
    {
      assert chosen[k] in chosen;
    }
  }

  lemma ListsMapped(g: Graph, cutoff: int, nodes: Nodes, side: Side, order: seq<nat>, limit: nat)
    requires g.Valid()
    ensures AllMapped(Lists(g, cutoff, nodes, side, order, |order|), g.log.Column(side.Other()),
                      Local(Asc(Opposite(nodes, side))), limit)
  {
    hide At, Last, Local, Asc, Maps, Opposite;
    forall d | 0 <= d < |order|
      ensures Maps(Last(Lists(g, cutoff, nodes, side, order, |order|)[d], limit), g.log.Column(side.Other()),
                   Local(Asc(Opposite(nodes, side))))
    {
      AtMapped(g, cutoff, nodes, side, order[d], limit);
    }
  }

  /** The messages received on one side of the sample. */
  ghost function Received(g: Graph, cfg: Config, cutoff: int, nodes: Nodes, side: Side): MessageEdges
    requires g.Valid()
  {
    var order := Asc(if side.User? then nodes.users else nodes.items);
    ListsMapped(g, cutoff, nodes, side, order, cfg.Limit(side));
    Messages(KeptArrows(Lists(g, cutoff, nodes, side, order, |order|), g.log.Column(side.Other()),
                        Local(Asc(Opposite(nodes, side))), cfg.Limit(side), |order|))
  }

  ghost function SampleOf(g: Graph, cfg: Config, nodes: Nodes, user: nat, cutoff: int): GraphSample
    requires g.Valid() && user in nodes.users
  {
    GraphSample(Asc(nodes.users), Asc(nodes.items),
                Received(g, cfg, cutoff, nodes, User), Received(g, cfg, cutoff, nodes, Item),
                Local(Asc(nodes.users))[user], cutoff, Asc(EdgeSet(g, cutoff, nodes)))
  }

  predicate TooManyEdges(cfg: Config, n: nat) {
    cfg.maxSampleEdges != 0 && n > cfg.maxSampleEdges
  }

  lemma RootReached(g: Graph, cfg: Config, user: nat, cutoff: int)
    requires g.Valid()
    ensures user in Reached(g, cfg, user, cutoff).users
  {
    RoundsGrow(g, cfg, cutoff, {}, Start(g, cfg, user, cutoff), 0, cfg.samplingOrder + 1);
  }

  /** What sampling (user, cutoff) returns, whatever was sampled before. */
  ghost function Expected(g: Graph, cfg: Config, user: nat, cutoff: int): Outcome
    requires g.Valid()
  {
    var nodes := Reached(g, cfg, user, cutoff);
    RootReached(g, cfg, user, cutoff);
    if g.Recent(User, user, cutoff, cfg.recentItems) == [] then Refused(NoHistory)
    else if TooManyNodes(cfg, nodes.users, nodes.items) then Refused(NodeLimit)
    else if TooManyEdges(cfg, |EdgeSet(g, cutoff, nodes)|) then Refused(EdgeLimit)
    else Sampled(SampleOf(g, cfg, nodes, user, cutoff))
  }

  lemma {:induction false} ExpectedSample(g: Graph, cfg: Config, user: nat, cutoff: int, s: GraphSample)
    requires g.Valid() && Expected(g, cfg, user, cutoff) == Sampled(s)
    ensures g.Recent(User, user, cutoff, cfg.recentItems) != []
    ensures user in Reached(g, cfg, user, cutoff).users
    ensures s == SampleOf(g, cfg, Reached(g, cfg, user, cutoff), user, cutoff)
  {
    hide SampleOf, Reached, EdgeSet, TooManyNodes, TooManyEdges;
    RootReached(g, cfg, user, cutoff);
  }

  /** The parts of a sample. */
  lemma {:induction false} SampleParts(g: Graph, cfg: Config, nodes: Nodes, user: nat, cutoff: int, s: GraphSample)
    requires g.Valid() && user in nodes.users && s == SampleOf(g, cfg, nodes, user, cutoff)
    ensures s.users == Asc(nodes.users) && s.items == Asc(nodes.items)
    ensures s.root == Local(Asc(nodes.users))[user] < |s.users| && s.users[s.root] == user
    ensures s.cutoff == cutoff && s.inducedEvents == Asc(EdgeSet(g, cutoff, nodes))
    ensures s.toUsers == Received(g, cfg, cutoff, nodes, User) && s.toItems == Received(g, cfg, cutoff, nodes, Item)
    ensures |s.users| == |Opposite(nodes, Item)| && |s.items| == |Opposite(nodes, User)|
    ensures User.Other() == Item && Item.Other() == User
  {
    hide Asc, Local, EdgeSet, Received;
  }

  // ---- collecting the edges -----------------------------------------------

  /** The incident lists after the edges in `induced` were appended. */
  ghost predicate Filed(column: seq<nat>, order: seq<nat>, induced: seq<nat>, incident: seq<seq<nat>>)
    requires InLog(induced, |column|)
  {
    && |incident| == |order|
    && forall k :: 0 <= k < |order| ==> incident[k] == OfNode(column, induced, order[k], |induced|)
  }

  lemma FileOne(column: seq<nat>, order: seq<nat>, induced: seq<nat>, incident: seq<seq<nat>>, e: nat, k: nat)
    requires InLog(induced, |column|) && e < |column|
    requires Filed(column, order, induced, incident) && Ascending(order)
    requires k < |order| && order[k] == column[e]
    ensures InLog(induced + [e], |column|)
    ensures Filed(column, order, induced + [e], incident[k := incident[k] + [e]])
  {
    forall j | 0 <= j < |order|
      ensures OfNode(column, induced + [e], order[j], |induced| + 1) ==
        incident[j] + if j == k then [e] else []
    {
      OfNodeAppend(column, induced, e, order[j]);
      assert j != k ==> order[j] != order[k];
    }
  }

  /** The edges collected so far and the incident lists they were filed in. */
  datatype Collected = Collected(induced: seq<nat>, userIncident: seq<seq<nat>>, itemIncident: seq<seq<nat>>) {
    ghost predicate Files(log: Log, users: seq<nat>, items: seq<nat>) {
      && |userIncident| == |users| && |itemIncident| == |items|
      && InLog(induced, |log.users|) && InLog(induced, |log.items|)
      && Filed(log.users, users, induced, userIncident)
      && Filed(log.items, items, induced, itemIncident)
    }
  }

  lemma FileBoth(log: Log, users: seq<nat>, items: seq<nat>, c: Collected, e: nat, u: nat, i: nat)
    requires c.Files(log, users, items) && Ascending(users) && Ascending(items)
    requires e < |log.users| && e < |log.items|
    requires u < |users| && i < |items| && users[u] == log.users[e] && items[i] == log.items[e]
    ensures Collected(c.induced + [e], c.userIncident[u := c.userIncident[u] + [e]],
                      c.itemIncident[i := c.itemIncident[i] + [e]]).Files(log, users, items)
  {
    hide Filed, InLog, Ascending;
    FileOne(log.users, users, c.induced, c.userIncident, e, u);
    FileOne(log.items, items, c.induced, c.itemIncident, e, i);
  }

  lemma FilesNothing(log: Log, users: seq<nat>, items: seq<nat>, c: Collected)
    requires c.induced == [] && |c.userIncident| == |users| && |c.itemIncident| == |items|
    requires forall k :: 0 <= k < |users| ==> c.userIncident[k] == []
    requires forall k :: 0 <= k < |items| ==> c.itemIncident[k] == []
    ensures c.Files(log, users, items)
  {
  }

  /** The inner loop: one user's visible events, skipping those on unsampled items. */
  method CollectUser(g: Graph, cfg: Config, items: seq<nat>, users: seq<nat>, k: nat, events: seq<nat>, c0: Collected)
    returns (ok: bool, c: Collected)
    requires g.Valid() && k < |users| && Ascending(users) && Ascending(items)
    requires c0.Files(g.log, users, items)
    requires forall j :: 0 <= j < |events| ==> events[j] < |g.allowed| && g.log.users[events[j]] == users[k]
    requires !TooManyEdges(cfg, |c0.induced|)
    ensures c.Files(g.log, users, items)
    ensures ok ==> c.induced == c0.induced + Keep(g, events, SetOf(items), |events|)
    ensures ok == !TooManyEdges(cfg, |c.induced|)
    ensures !ok ==> exists n: nat :: n <= |events| && c.induced == c0.induced + Keep(g, events, SetOf(items), n)
  {
    hide Local, Keep, TooManyEdges, SetOf, Collected.Files, Ascending;
    var itemLocal := Local(items);
    c, ok := c0, true;
    KeepNone(g, events, SetOf(items));
    FilesLengths(g.log, users, items, c);
    for j := 0 to |events|
      invariant ok && c.Files(g.log, users, items)
      invariant c.induced == c0.induced + Keep(g, events, SetOf(items), j)
      invariant !TooManyEdges(cfg, |c.induced|)
    {
      var eid := events[j];
      var i := g.log.items[eid];
      KeepStep(g, events, SetOf(items), j);
      if i in itemLocal {
        FilesLengths(g.log, users, items, c);
        var l := itemLocal[i];
        FileBoth(g.log, users, items, c, eid, k, l);
        c := Collected(c.induced + [eid], c.userIncident[k := c.userIncident[k] + [eid]],
                       c.itemIncident[l := c.itemIncident[l] + [eid]]);
        if TooManyEdges(cfg, |c.induced|) {
          ok := false;
          return;
        }
      }
    }
  }

  lemma FilesLengths(log: Log, users: seq<nat>, items: seq<nat>, c: Collected)
    requires c.Files(log, users, items)
    ensures |c.userIncident| == |users| && |c.itemIncident| == |items|
  {
  }

  /** The double loop over sampled users and their events. `ok` is false exactly
      when the edge limit was exceeded on the way. */
  method CollectEdges(g: Graph, cfg: Config, cutoff: int, nodes: Nodes) returns (ok: bool, c: Collected)
    requires g.Valid()
    ensures ok == !TooManyEdges(cfg, |EdgeSet(g, cutoff, nodes)|)
    ensures c.Files(g.log, Asc(nodes.users), Asc(nodes.items))
    ensures ok ==> c.induced == InOrder(g, cutoff, nodes.items, Asc(nodes.users), |nodes.users|)
  {
    hide *;
    var users, items := Asc(nodes.users), Asc(nodes.items);
    assert SetOf(items) == nodes.items;
    ghost var all := InOrder(g, cutoff, nodes.items, users, |users|);
    InOrderIsEdgeSet(g, cutoff, nodes);
    InOrderNone(g, cutoff, nodes.items, users);
    NoEdgesFit(cfg);
    c := Collected([], seq(|users|, _ => []), seq(|items|, _ => []));
    FilesNothing(g.log, users, items, c);
    ok := true;
    for k := 0 to |users|
      invariant ok && c.Files(g.log, users, items)
      invariant c.induced == InOrder(g, cutoff, nodes.items, users, k)
      invariant !TooManyEdges(cfg, |c.induced|)
    {
      var events := g.Recent(User, users[k], cutoff, 0);
      RecentOfUser(g, users[k], cutoff);
      ok, c := CollectUser(g, cfg, items, users, k, events, c);
      if !ok {
        ghost var n: nat :| n <= |events| &&
          c.induced == InOrder(g, cutoff, nodes.items, users, k) + Keep(g, events, nodes.items, n);
        PartialUser(g, cutoff, nodes.items, users, k, events, n);
        MoreEdges(cfg, |c.induced|, |all|);
        return;
      }
      PartialUser(g, cutoff, nodes.items, users, k, events, |events|);
    }
  }

  lemma RecentOfUser(g: Graph, u: nat, cutoff: int)
    requires g.Valid()
    ensures |g.log.users| == |g.allowed|
    ensures var events := g.Recent(User, u, cutoff, 0);
      forall j :: 0 <= j < |events| ==> events[j] < |g.allowed| && g.log.users[events[j]] == u
  {
    RecentIsNewest(g, User, u, cutoff, 0);
    var events := g.Recent(User, u, cutoff, 0);
    hide Before;
    forall j | 0 <= j < |events| ensures g.log.users[events[j]] == u { assert events[j] in events; }
  }

  lemma NoEdgesFit(cfg: Config)
    ensures !TooManyEdges(cfg, 0)
  {
  }

  lemma MoreEdges(cfg: Config, m: nat, n: nat)
    requires m <= n && TooManyEdges(cfg, m)
    ensures TooManyEdges(cfg, n)
  {
  }

  // ---- from the filed edges to the sample --------------------------------

  lemma UserListIs(g: Graph, cutoff: int, nodes: Nodes, c: Collected, k: nat)
    requires g.Valid() && c.Files(g.log, Asc(nodes.users), Asc(nodes.items))
    requires c.induced == InOrder(g, cutoff, nodes.items, Asc(nodes.users), |nodes.users|)
    requires k < |nodes.users|
    ensures |c.userIncident| == |nodes.users|
    ensures c.userIncident[k] == At(g, cutoff, nodes, User, Asc(nodes.users)[k])
  {
    hide At, OfNode, InOrder, InLog, Asc;
    UserIncidentIsAt(g, cutoff, nodes, k);
  }

  lemma UserListsAre(g: Graph, cutoff: int, nodes: Nodes, c: Collected)
    requires g.Valid() && c.Files(g.log, Asc(nodes.users), Asc(nodes.items))
    requires c.induced == InOrder(g, cutoff, nodes.items, Asc(nodes.users), |nodes.users|)
    ensures c.userIncident == Lists(g, cutoff, nodes, User, Asc(nodes.users), |nodes.users|)
  {
    hide At, Lists, InOrder, Asc, Collected.Files;
    FilesLengths(g.log, Asc(nodes.users), Asc(nodes.items), c);
    var lists := Lists(g, cutoff, nodes, User, Asc(nodes.users), |nodes.users|);
    forall k | 0 <= k < |nodes.users| ensures c.userIncident[k] == lists[k] {
      UserListIs(g, cutoff, nodes, c, k);
    }
    assert c.userIncident == lists;
  }

  lemma {:induction false} ItemListIs(g: Graph, cutoff: int, nodes: Nodes, c: Collected, k: nat)
    requires g.Valid() && c.Files(g.log, Asc(nodes.users), Asc(nodes.items))
    requires c.induced == InOrder(g, cutoff, nodes.items, Asc(nodes.users), |nodes.users|)
    requires k < |nodes.items|
    ensures |c.itemIncident| == |nodes.items|
    ensures Sort(Below, c.itemIncident[k]) == At(g, cutoff, nodes, Item, Asc(nodes.items)[k])
  {
    hide At, OfNode, InOrder, InLog, Asc, Sort;
    ItemIncidentIsAt(g, cutoff, nodes, Asc(nodes.items)[k]);
  }

  /** `for events in item_incident: events.sort()`. */
  method SortItems(g: Graph, cutoff: int, nodes: Nodes, c: Collected) returns (sorted: seq<seq<nat>>)
    requires g.Valid() && c.Files(g.log, Asc(nodes.users), Asc(nodes.items))
    requires c.induced == InOrder(g, cutoff, nodes.items, Asc(nodes.users), |nodes.users|)
    ensures sorted == Lists(g, cutoff, nodes, Item, Asc(nodes.items), |nodes.items|)
  {
    hide At, InOrder, Collected.Files, Sort, Asc;
    FilesLengths(g.log, Asc(nodes.users), Asc(nodes.items), c);
    sorted := [];
    for k := 0 to |c.itemIncident|
      invariant sorted == Lists(g, cutoff, nodes, Item, Asc(nodes.items), k)
    {
      ItemListIs(g, cutoff, nodes, c, k);
      sorted := sorted + [Sort(Below, c.itemIncident[k])];
    }
  }

  /** Sorts the item lists and ranks the messages of both directions into a sample. */
  method BuildSample(g: Graph, cfg: Config, nodes: Nodes, user: nat, cutoff: int, c: Collected)
    returns (sample: GraphSample)
    requires g.Valid() && user in nodes.users
    requires c.Files(g.log, Asc(nodes.users), Asc(nodes.items))
    requires c.induced == InOrder(g, cutoff, nodes.items, Asc(nodes.users), |nodes.users|)
    ensures sample == SampleOf(g, cfg, nodes, user, cutoff)
  {
    hide At, Lists, InOrder, Collected.Files, Sort, Asc, Local, EdgeSet, AllMapped, Messages;
    var users, items := Asc(nodes.users), Asc(nodes.items);
    var userLocal, itemLocal := Local(users), Local(items);
    InOrderIsEdgeSet(g, cutoff, nodes);
    UserListsAre(g, cutoff, nodes, c);
    var itemIncident := SortItems(g, cutoff, nodes, c);
    ListsMapped(g, cutoff, nodes, User, users, cfg.recentItems);
    ListsMapped(g, cutoff, nodes, Item, items, cfg.itemNeighborLimit);
    var toUsers := NestedMessages(c.userIncident, g.log.items, itemLocal, cfg.recentItems);
    var toItems := NestedMessages(itemIncident, g.log.users, userLocal, cfg.itemNeighborLimit);
    sample := GraphSample(users, items, toUsers, toItems, userLocal[user], cutoff, Sort(Below, c.induced));
  }

  // ---- the caching sampler ---------------------------------------------------

  datatype Key = Key(user: nat, cutoff: int)
  datatype Entry = Entry(key: Key, sample: GraphSample)

  /** The position of a key in the ordered dictionary, or its length. */
  function Slot(cache: seq<Entry>, key: Key, n: nat): (k: nat)
    requires n <= |cache|
    ensures k <= n
    ensures k < n ==> cache[k].key == key
    ensures forall j :: 0 <= j < k ==> cache[j].key != key
  {
    if n == 0 then 0
    else
      var k := Slot(cache, key, n - 1);
      if k < n - 1 || cache[n - 1].key == key then k else n
  }

  function KeysOf(cache: seq<Entry>, n: nat): (r: seq<Key>)
    requires n <= |cache|
    ensures |r| == n
    ensures forall k {:trigger r[k]} :: 0 <= k < n ==> r[k] == cache[k].key
  {
    if n == 0 then [] else KeysOf(cache, n - 1) + [cache[n - 1].key]
  }

  function Keys(cache: seq<Entry>): seq<Key> { KeysOf(cache, |cache|) }

  ghost predicate Right(g: Graph, cfg: Config, e: Entry)
    requires g.Valid()
  {
    Expected(g, cfg, e.key.user, e.key.cutoff) == Sampled(e.sample)
  }

  /** Every stored sample is what sampling its key returns. */
  ghost predicate AllRight(g: Graph, cfg: Config, cache: seq<Entry>)
    requires g.Valid()
  {
    forall k :: 0 <= k < |cache| ==> Right(g, cfg, cache[k])
  }

  /** `move_to_end`. */
  function Touched(cache: seq<Entry>, k: nat): (r: seq<Entry>)
    requires k < |cache|
    ensures |r| == |cache|
    ensures forall i {:trigger r[i]} :: 0 <= i < |r| ==>
      r[i] == cache[if i < k then i else if i < |cache| - 1 then i + 1 else k]
  {
    cache[..k] + cache[k + 1..] + [cache[k]]
  }

  /** The cache after one request, as a function of the cache before it. */
  function After(cache: seq<Entry>, capacity: nat, key: Key, r: Outcome): seq<Entry> {
    var k := Slot(cache, key, |cache|);
    if k < |cache| then Touched(cache, k)
    else if r.Sampled? && capacity != 0 then Last<Entry>(cache + [Entry(key, r.sample)], capacity)
    else cache
  }

  lemma {:induction false} TouchedRight(g: Graph, cfg: Config, cache: seq<Entry>, k: nat)
    requires g.Valid() && AllRight(g, cfg, cache) && k < |cache|
    ensures AllRight(g, cfg, Touched(cache, k))
  {
    hide Right, Touched;
  }

  lemma {:induction false} StoredRight(g: Graph, cfg: Config, cache: seq<Entry>, capacity: nat, e: Entry)
    requires g.Valid() && AllRight(g, cfg, cache) && Right(g, cfg, e)
    ensures AllRight(g, cfg, Last<Entry>(cache + [e], capacity))
  {
    var kept := Last<Entry>(cache + [e], capacity);
    hide Right, Last;
    forall k | 0 <= k < |kept| ensures Right(g, cfg, kept[k]) { LastEntry<Entry>(cache + [e], capacity, k); }
  }

  lemma {:induction false} AfterRight(g: Graph, cfg: Config, cache: seq<Entry>, key: Key, r: Outcome)
    requires g.Valid() && AllRight(g, cfg, cache) && r == Expected(g, cfg, key.user, key.cutoff)
    ensures AllRight(g, cfg, After(cache, cfg.graphCacheSize, key, r))
  {
    var k := Slot(cache, key, |cache|);
    hide Expected, Slot, AllRight, Touched, Last;
    if k < |cache| {
      TouchedRight(g, cfg, cache, k);
    } else if r.Sampled? {
      StoredRight(g, cfg, cache, cfg.graphCacheSize, Entry(key, r.sample));
    }
  }

  // ---- the cache keeps the most recently used keys ---------------------------------

  function Dropped(s: seq<Key>, x: Key): seq<Key> {
    if x in s then var k := IndexOf(s, x); s[..k] + s[k + 1..] else s
  }

  /** The keys used so far, each once, in the order of their last use. */
  function Recency(used: seq<Key>, n: nat): seq<Key>
    requires n <= |used|
  {
    if n == 0 then [] else Dropped(Recency(used, n - 1), used[n - 1]) + [used[n - 1]]
  }

  lemma DroppedDistinct(s: seq<Key>, x: Key)
    requires Distinct(s)
    ensures Distinct(Dropped(s, x) + [x])
  {
    if x in s {
      var k := IndexOf(s, x);
      var r := s[..k] + s[k + 1..] + [x];
      forall i, j | 0 <= i < j < |r| ensures r[i] != r[j] {
        assert r[i] == s[if i < k then i else i + 1];
        assert r[j] == s[if j < k then j else if j < |s| - 1 then j + 1 else k];
      }
    }
  }

  lemma {:induction false} RecencyDistinct(used: seq<Key>, n: nat)
    requires n <= |used|
    ensures Distinct(Recency(used, n))
  {
    if n > 0 {
      RecencyDistinct(used, n - 1);
      DroppedDistinct(Recency(used, n - 1), used[n - 1]);
    }
  }

  /** Among the first `n` uses, `b` was used after the last use of `a`. */
  ghost predicate UsedAfter(used: seq<Key>, n: nat, a: Key, b: Key)
    requires n <= |used|
  {
    exists p :: 0 <= p < n && used[p] == b && forall q :: p <= q < n ==> used[q] != a
  }

  /** The recency list holds the used keys, each once, and of two keys the one used
      later comes later. */
  lemma {:induction false} RecencyMeans(used: seq<Key>, n: nat)
    requires n <= |used|
    ensures Distinct(Recency(used, n))
    ensures forall x :: x in Recency(used, n) <==> x in used[..n]
    ensures forall i, j :: 0 <= i < j < |Recency(used, n)| ==>
      UsedAfter(used, n, Recency(used, n)[i], Recency(used, n)[j])
  {
    if n > 0 {
      RecencyMeans(used, n - 1);
      var before, x := Recency(used, n - 1), used[n - 1];
      assert Recency(used, n) == Dropped(before, x) + [x];
      assert used[..n] == used[..n - 1] + [x];
      DroppedMembers(before, x);
      DroppedDistinct(before, x);
      hide *;
      var r := Dropped(before, x) + [x];
      forall i: nat, j: nat | i < j < |r| ensures UsedAfter(used, n, r[i], r[j]) {
        assert r[i] in Dropped(before, x);
        if j == |r| - 1 {
          UsedNow(used, n, r[i]);
        } else {
          var i', j' := DroppedPair(before, x, i, j);
          UsedStill(used, n, r[i], r[j]);
        }
      }
    }
  }

  lemma UsedNow(used: seq<Key>, n: nat, a: Key)
    requires 0 < n <= |used| && used[n - 1] != a
    ensures UsedAfter(used, n, a, used[n - 1])
  {
  }

  lemma UsedStill(used: seq<Key>, n: nat, a: Key, b: Key)
    requires 0 < n <= |used| && used[n - 1] != a && UsedAfter(used, n - 1, a, b)
    ensures UsedAfter(used, n, a, b)
  {
  }

  lemma DroppedPair(s: seq<Key>, x: Key, i: nat, j: nat) returns (i': nat, j': nat)
    requires i < j < |Dropped(s, x)|
    ensures i' < j' < |s| && s[i'] == Dropped(s, x)[i] && s[j'] == Dropped(s, x)[j]
  {
    if x in s {
      var k := IndexOf(s, x);
      i', j' := if i < k then i else i + 1, if j < k then j else j + 1;
    } else {
      i', j' := i, j;
    }
  }

  lemma DroppedMembers(s: seq<Key>, x: Key)
    requires Distinct(s)
    ensures forall y :: y in Dropped(s, x) <==> y in s && y != x
  {
    var r := Dropped(s, x);
    if x in s {
      var k := IndexOf(s, x);
      forall i | 0 <= i < |r| ensures r[i] in s && r[i] != x { assert r[i] == s[if i < k then i else i + 1]; }
      forall y | y in s && y != x ensures y in r {
        var j :| 0 <= j < |s| && s[j] == y;
        assert r[if j < k then j else j - 1] == y;
      }
    }
  }

  lemma {:induction false} RecencyPrefix(used: seq<Key>, x: Key, n: nat)
    requires n <= |used|
    ensures Recency(used + [x], n) == Recency(used, n)
  {
    hide Dropped;
    if n > 0 { RecencyPrefix(used, x, n - 1); }
  }

  lemma LastIs<T>(s: seq<T>, limit: nat)
    ensures Last<T>(s, limit) == s[|s| - |Last<T>(s, limit)|..]
  {
  }

  /** Only the end of a list matters to its last entries. */
  lemma LastOfAppend<T>(a: seq<T>, b: seq<T>, limit: nat)
    requires limit > 0 && (|b| >= limit || a == [])
    ensures Last<T>(a + b, limit) == Last<T>(b, limit)
  {
    var m := |Last<T>(b, limit)|;
    LastIs(a + b, limit);
    LastIs(b, limit);
    assert |Last<T>(a + b, limit)| == m;
    hide Last;
    SliceTail(a, b, m);
  }

  lemma SliceTail<T>(a: seq<T>, b: seq<T>, m: nat)
    requires m <= |b|
    ensures (a + b)[|a + b| - m..] == b[|b| - m..]
  {
  }

  lemma NotInBoth(a: seq<Key>, b: seq<Key>, x: Key)
    requires Distinct(a + b) && x in b
    ensures x !in a
  {
    var k :| 0 <= k < |b| && b[k] == x;
    forall i | 0 <= i < |a| ensures a[i] != x {
      assert (a + b)[i] == a[i] && (a + b)[|a| + k] == x;
    }
  }

  lemma IndexIs(s: seq<Key>, x: Key, k: nat)
    requires Distinct(s) && k < |s| && s[k] == x
    ensures x in s && IndexOf(s, x) == k
  {
    assert s[IndexOf(s, x)] == x;
    hide IndexOf;
  }

  lemma {:induction false} DroppedAppend(a: seq<Key>, b: seq<Key>, x: Key)
    requires Distinct(a + b)
    ensures Dropped(a + b, x) == Dropped(a, x) + Dropped(b, x)
  {
    var s := a + b;
    hide IndexOf, Distinct;
    if x in b {
      NotInBoth(a, b, x);
      IndexIs(s, x, |a| + IndexOf(b, x));
      assert Dropped(s, x) == a + Dropped(b, x);
    } else if x in a {
      IndexIs(s, x, IndexOf(a, x));
      assert Dropped(s, x) == Dropped(a, x) + b;
    }
  }

  /** One more use, seen on the kept keys alone: a key already kept. */
  lemma UseHit(front: seq<Key>, kept: seq<Key>, capacity: nat, x: Key)
    requires Distinct(front + kept) && x in kept && |kept| <= capacity && (front == [] || |kept| == capacity)
    ensures Last<Key>(Dropped(front + kept, x) + [x], capacity) == Dropped(kept, x) + [x]
  {
    hide Last, Distinct, IndexOf;
    DroppedAppend(front, kept, x);
    NotInBoth(front, kept, x);
    DroppedSize(kept, x);
    DroppedSize(front, x);
    var tail := Dropped(kept, x) + [x];
    hide Dropped;
    assert front + Dropped(kept, x) + [x] == front + tail;
    LastOfAppend<Key>(front, tail, capacity);
    WholeIsLast<Key>(tail, capacity);
  }

  /** A key not kept. */
  lemma UseMiss(front: seq<Key>, kept: seq<Key>, capacity: nat, x: Key)
    requires Distinct(front + kept) && x !in kept && capacity > 0 && (front == [] || |kept| == capacity)
    ensures Last<Key>(Dropped(front + kept, x) + [x], capacity) == Last<Key>(kept + [x], capacity)
  {
    hide Last, Distinct, IndexOf;
    DroppedAppend(front, kept, x);
    DroppedSize(kept, x);
    var tail, before := kept + [x], Dropped(front, x);
    assert front == [] ==> before == [];
    hide Dropped;
    assert before + kept + [x] == before + tail;
    LastOfAppend<Key>(before, tail, capacity);
  }

  lemma KeptSplits(all: seq<Key>, kept: seq<Key>, capacity: nat) returns (front: seq<Key>)
    requires capacity > 0 && kept == Last<Key>(all, capacity)
    ensures all == front + kept && |kept| <= capacity && (front == [] || |kept| == capacity)
  {
    LastIs<Key>(all, capacity);
    front := all[..|all| - |kept|];
  }

  lemma WholeIsLast<T>(s: seq<T>, limit: nat)
    requires |s| <= limit
    ensures Last<T>(s, limit) == s
  {
  }

  lemma DroppedSize(s: seq<Key>, x: Key)
    ensures |Dropped(s, x)| == if x in s then |s| - 1 else |s|
    ensures x !in s ==> Dropped(s, x) == s
  {
  }

  /** The cache lists exactly the `capacity` most recently used keys. */
  ghost predicate MostRecent(cache: seq<Entry>, capacity: nat, used: seq<Key>) {
    if capacity == 0 then cache == [] else Keys(cache) == Last<Key>(Recency(used, |used|), capacity)
  }

  lemma KeysTouched(cache: seq<Entry>, k: nat)
    requires k < |cache| && Distinct(Keys(cache))
    ensures Keys(cache)[k] == cache[k].key && cache[k].key in Keys(cache)
    ensures Keys(Touched(cache, k)) == Dropped(Keys(cache), cache[k].key) + [cache[k].key]
  {
    hide Touched, KeysOf, IndexOf;
    IndexIs(Keys(cache), cache[k].key, k);
  }

  lemma KeysStored(cache: seq<Entry>, e: Entry, capacity: nat)
    ensures Keys(Last<Entry>(cache + [e], capacity)) == Last<Key>(Keys(cache) + [e.key], capacity)
  {
    hide KeysOf;
    LastIs(cache + [e], capacity);
    LastIs(Keys(cache) + [e.key], capacity);
    hide Last;
  }

  lemma SlotSpec(cache: seq<Entry>, key: Key)
    ensures key in Keys(cache) <==> Slot(cache, key, |cache|) < |cache|
  {
    hide Slot, KeysOf;
    var k := Slot(cache, key, |cache|);
    if k < |cache| { assert Keys(cache)[k] == key; }
  }

  lemma DistinctKept(all: seq<Key>, capacity: nat)
    requires Distinct(all)
    ensures Distinct(Last<Key>(all, capacity))
  {
    LastIs(all, capacity);
    hide Last;
  }

  lemma RecencyStep(used: seq<Key>, key: Key)
    ensures Distinct(Recency(used, |used|))
    ensures Recency(used + [key], |used| + 1) == Dropped(Recency(used, |used|), key) + [key]
  {
    RecencyDistinct(used, |used|);
    RecencyPrefix(used, key, |used|);
    hide Dropped, Distinct;
  }

  /** One more use changes the kept keys as it changes the order of last use: the used
      key goes last, and a new one may push the oldest out. */
  lemma {:induction false} UseKept(all: seq<Key>, kept: seq<Key>, capacity: nat, key: Key)
    requires capacity > 0 && Distinct(all) && kept == Last<Key>(all, capacity)
    ensures Distinct(kept)
    ensures key in kept ==> Last<Key>(Dropped(all, key) + [key], capacity) == Dropped(kept, key) + [key]
    ensures key !in kept ==> Last<Key>(Dropped(all, key) + [key], capacity) == Last<Key>(kept + [key], capacity)
  {
    hide *;
    DistinctKept(all, capacity);
    var front := KeptSplits(all, kept, capacity);
    if key in kept { UseHit(front, kept, capacity, key); } else { UseMiss(front, kept, capacity, key); }
  }

  lemma MostRecentIs(cache: seq<Entry>, capacity: nat, used: seq<Key>)
    requires capacity > 0
    ensures MostRecent(cache, capacity, used) <==> Keys(cache) == Last<Key>(Recency(used, |used|), capacity)
  {
    hide Last, Recency, KeysOf;
  }

  lemma {:induction false} HitRecent(cache: seq<Entry>, capacity: nat, used: seq<Key>, key: Key, k: nat)
    requires capacity > 0 && MostRecent(cache, capacity, used)
    requires k == Slot(cache, key, |cache|) < |cache|
    ensures MostRecent(Touched(cache, k), capacity, used + [key])
  {
    hide *;
    RecencyStep(used, key);
    MostRecentIs(cache, capacity, used);
    MostRecentIs(Touched(cache, k), capacity, used + [key]);
    UseKept(Recency(used, |used|), Keys(cache), capacity, key);
    KeysTouched(cache, k);
  }

  lemma {:induction false} MissRecent(cache: seq<Entry>, capacity: nat, used: seq<Key>, e: Entry)
    requires capacity > 0 && MostRecent(cache, capacity, used) && Slot(cache, e.key, |cache|) == |cache|
    ensures MostRecent(Last<Entry>(cache + [e], capacity), capacity, used + [e.key])
  {
    hide *;
    RecencyStep(used, e.key);
    MostRecentIs(cache, capacity, used);
    MostRecentIs(Last<Entry>(cache + [e], capacity), capacity, used + [e.key]);
    UseKept(Recency(used, |used|), Keys(cache), capacity, e.key);
    SlotSpec(cache, e.key);
    KeysStored(cache, e, capacity);
  }

  lemma NoCache(cache: seq<Entry>, used: seq<Key>, key: Key, r: Outcome)
    requires MostRecent(cache, 0, used)
    ensures MostRecent(After(cache, 0, key, r), 0, used + [key])
  {
  }

  /** A request for a key that can be sampled makes it the most recent one. */
  lemma {:induction false} AfterMostRecent(cache: seq<Entry>, capacity: nat, used: seq<Key>, key: Key, r: Outcome)
    requires MostRecent(cache, capacity, used) && r.Sampled?
    ensures MostRecent(After(cache, capacity, key, r), capacity, used + [key])
  {
    hide Slot, MostRecent, Last, Touched;
    if capacity == 0 {
      NoCache(cache, used, key, r);
    } else if Slot(cache, key, |cache|) < |cache| {
      HitRecent(cache, capacity, used, key, Slot(cache, key, |cache|));
    } else {
      MissRecent(cache, capacity, used, Entry(key, r.sample));
    }
  }

  lemma {:induction false} HitExpected(g: Graph, cfg: Config, cache: seq<Entry>, key: Key)
    requires g.Valid() && AllRight(g, cfg, cache) && Slot(cache, key, |cache|) < |cache|
    ensures Expected(g, cfg, key.user, key.cutoff) == Sampled(cache[Slot(cache, key, |cache|)].sample)
  {
    assert Right(g, cfg, cache[Slot(cache, key, |cache|)]);
    hide Expected;
  }

  class TemporalSampler {
    const graph: Graph
    const cfg: Config
    /** The OrderedDict, least recently used entry first. */
    var cache: seq<Entry>
    /** The keys sampled successfully so far. */
    ghost var used: seq<Key>

    /** Every cached sample is right, and the cache lists exactly the
        `graphCacheSize` most recently used keys. */
    ghost predicate Valid()
      reads this
    {
      && graph.Valid() && AllRight(graph, cfg, cache)
      && MostRecent(cache, cfg.graphCacheSize, used)
    }

    constructor (graph: Graph, cfg: Config)
      requires graph.Valid()
      ensures Valid() && this.graph == graph && this.cfg == cfg && cache == [] && used == []
    {
      this.graph := graph;
      this.cfg := cfg;
      this.cache := [];
      this.used := [];
    }

    /** Sampling without looking at the cache. */
    method Compute(user: nat, cutoff: int) returns (r: Outcome)
      requires graph.Valid()
      ensures r == Expected(graph, cfg, user, cutoff)
    {
      hide Rounds, Across, SampleOf, EdgeSet, TooManyEdges, TooManyNodes, InOrder, Collected.Files;
      var rootEvents := graph.Recent(User, user, cutoff, cfg.recentItems);
      RootReached(graph, cfg, user, cutoff);
      if rootEvents == [] { return Refused(NoHistory); }
      var items0 := EndPoints(graph, User, rootEvents);
      AcrossFew(graph, cfg, User, cutoff, user);
      var ok, users, items := Expand(graph, cfg, cutoff, {}, {user}, items0);
      if !ok { return Refused(NodeLimit); }
      var nodes := Nodes(users, items);
      var fits, c := CollectEdges(graph, cfg, cutoff, nodes);
      if !fits { return Refused(EdgeLimit); }
      var sample := BuildSample(graph, cfg, nodes, user, cutoff, c);
      r := Sampled(sample);
    }

    /** Store a new entry, then evict the oldest ones. */
    method Store(e: Entry)
      requires cfg.graphCacheSize != 0
      modifies this`cache
      ensures cache == Last<Entry>(old(cache) + [e], cfg.graphCacheSize)
    {
      hide Last;
      cache := cache + [e];
      ghost var grown := cache;
      while |cache| > cfg.graphCacheSize
        invariant |cache| <= |grown| && cache == grown[|grown| - |cache|..]
        invariant |cache| == |grown| || |cache| >= cfg.graphCacheSize
      {
        cache := cache[1..];
      }
      LastIs<Entry>(grown, cfg.graphCacheSize);
    }

    /** `move_to_end`. */
    method MoveToEnd(k: nat)
      requires k < |cache|
      modifies this`cache
      ensures cache == Touched(old(cache), k)
    {
      var hit := cache[k];
      cache := cache[..k] + cache[k + 1..] + [hit];
    }

    /** `sample`: a hit moves the entry to the end and returns it; a miss computes,
        stores and evicts the oldest entries. Either way the result is the same. */
    method Sample(user: nat, cutoff: int) returns (r: Outcome)
      requires Valid()
      modifies this`cache, this`used
      ensures Valid()
      ensures r == Expected(graph, cfg, user, cutoff)
      ensures used == if r.Sampled? then old(used) + [Key(user, cutoff)] else old(used)
      ensures cache == After(old(cache), cfg.graphCacheSize, Key(user, cutoff), r)
    {
      hide Expected, AllRight, MostRecent, Slot, Last, Touched;
      var key := Key(user, cutoff);
      ghost var cache0, used0 := cache, used;
      var k := Slot(cache, key, |cache|);
      if k < |cache| {
        HitExpected(graph, cfg, cache, key);
        r := Sampled(cache[k].sample);
        MoveToEnd(k);
      } else {
        r := Compute(user, cutoff);
        if r.Sampled? && cfg.graphCacheSize != 0 { Store(Entry(key, r.sample)); }
      }
      AfterRight(graph, cfg, cache0, key, r);
      if r.Sampled? {
        AfterMostRecent(cache0, cfg.graphCacheSize, used0, key, r);
        used := used + [key];
      }
    }
  }

  /** The cache never holds more than `graphCacheSize` entries, and no key twice. */
  lemma CacheBounded(cache: seq<Entry>, capacity: nat, used: seq<Key>)
    requires MostRecent(cache, capacity, used)
    ensures |cache| <= capacity && Distinct(Keys(cache))
  {
    if capacity > 0 {
      RecencyDistinct(used, |used|);
      DistinctKept(Recency(used, |used|), capacity);
    }
  }
}
