/** The timestamp-filtered node-induced bipartite multigraph of a sample, and the
    loops that collect its edges. */
module Induced {
  import opened Sorting
  import opened TemporalGraph
  import opened Reach

  /** Every visible event up to the cutoff between two sampled nodes. */
  ghost function EdgeSet(g: Graph, cutoff: int, nodes: Nodes): set<nat>
    requires g.Valid()
  {
    set e: nat | e < |g.allowed| && g.Visible(e, cutoff)
                 && g.log.users[e] in nodes.users && g.log.items[e] in nodes.items
  }

  /** The induced edges of one node, oldest first. */
  ghost function At(g: Graph, cutoff: int, nodes: Nodes, side: Side, node: nat): (r: seq<nat>)
    requires g.Valid()
    ensures Ascending(r)
    ensures forall e :: e in r <==> e in EdgeSet(g, cutoff, nodes) && g.log.Column(side)[e] == node
  {
    Asc(set e | e in EdgeSet(g, cutoff, nodes) && g.log.Column(side)[e] == node)
  }

  /** `[e for e in events[:n] if items[e] in items]`. */
  function Keep(g: Graph, events: seq<nat>, items: set<nat>, n: nat): (r: seq<nat>)
    requires g.Valid() && n <= |events| && forall k :: 0 <= k < |events| ==> events[k] < |g.allowed|
    ensures forall k {:trigger r[k]} :: 0 <= k < |r| ==> r[k] < |g.allowed|
  {
    if n == 0 then []
    else Keep(g, events, items, n - 1) + if g.log.items[events[n - 1]] in items then [events[n - 1]] else []
  }

  /** One user's visible events on sampled items. */
  function UserEdges(g: Graph, cutoff: int, items: set<nat>, u: nat): seq<nat>
    requires g.Valid()
  {
    var events := g.Recent(User, u, cutoff, 0);
    Keep(g, events, items, |events|)
  }

  /** The induced edges in the order the program meets them: user by user. */
  function InOrder(g: Graph, cutoff: int, items: set<nat>, users: seq<nat>, n: nat): (r: seq<nat>)
    requires g.Valid() && n <= |users|
    ensures forall k {:trigger r[k]} :: 0 <= k < |r| ==> r[k] < |g.allowed|
  {
    if n == 0 then [] else InOrder(g, cutoff, items, users, n - 1) + UserEdges(g, cutoff, items, users[n - 1])
  }

  lemma {:induction false} KeepSpec(g: Graph, events: seq<nat>, items: set<nat>, n: nat)
    requires g.Valid() && n <= |events| && forall k :: 0 <= k < |events| ==> events[k] < |g.allowed|
    requires Ascending(events)
    ensures Ascending(Keep(g, events, items, n))
    ensures forall e: nat :: e in Keep(g, events, items, n) <==> e in events[..n] && g.log.items[e] in items
  {
    if n > 0 {
      KeepSpec(g, events, items, n - 1);
      assert events[..n] == events[..n - 1] + [events[n - 1]];
      var r := Keep(g, events, items, n - 1);
      forall k | 0 <= k < |r| ensures r[k] < events[n - 1] {
        assert r[k] in events[..n - 1];
      }
    }
  }

  lemma UserEdgesSpec(g: Graph, cutoff: int, items: set<nat>, u: nat)
    requires g.Valid()
    ensures Ascending(UserEdges(g, cutoff, items, u))
    ensures forall e: nat :: e in UserEdges(g, cutoff, items, u) <==>
      g.Visible(e, cutoff) && g.log.users[e] == u && g.log.items[e] in items
  {
    RecentIsNewest(g, User, u, cutoff, 0);
    var events := g.Recent(User, u, cutoff, 0);
    KeepSpec(g, events, items, |events|);
    assert events[..|events|] == events;
  }

  lemma {:induction false} InOrderSpec(g: Graph, cutoff: int, items: set<nat>, users: seq<nat>, n: nat)
    requires g.Valid() && n <= |users| && Ascending(users)
    ensures Distinct(InOrder(g, cutoff, items, users, n))
    ensures forall e: nat :: e in InOrder(g, cutoff, items, users, n) <==>
      g.Visible(e, cutoff) && g.log.users[e] in users[..n] && g.log.items[e] in items
  {
    if n > 0 {
      InOrderSpec(g, cutoff, items, users, n - 1);
      UserEdgesSpec(g, cutoff, items, users[n - 1]);
      assert users[..n] == users[..n - 1] + [users[n - 1]];
      var a, b := InOrder(g, cutoff, items, users, n - 1), UserEdges(g, cutoff, items, users[n - 1]);
      InOrderStep(g, cutoff, items, users, n);
      AscendingDistinct(b);
      LastApart(users, n);
      hide UserEdges, InOrder, Ascending, Distinct;
      forall i, j | 0 <= i < |a| && 0 <= j < |b| ensures a[i] != b[j] {
        assert a[i] in a && b[j] in b;
      }
      DistinctConcat(a, b);
    }
  }

  lemma AscendingDistinct(s: seq<nat>)
    requires Ascending(s)
    ensures Distinct(s)
  {
  }

  lemma LastApart(s: seq<nat>, n: nat)
    requires Ascending(s) && 0 < n <= |s|
    ensures s[n - 1] !in s[..n - 1]
  {
  }

  lemma InOrderStep(g: Graph, cutoff: int, items: set<nat>, users: seq<nat>, n: nat)
    requires g.Valid() && 0 < n <= |users|
    ensures InOrder(g, cutoff, items, users, n) ==
      InOrder(g, cutoff, items, users, n - 1) + UserEdges(g, cutoff, items, users[n - 1])
  {
  }

  lemma InOrderNone(g: Graph, cutoff: int, items: set<nat>, users: seq<nat>)
    requires g.Valid()
    ensures InOrder(g, cutoff, items, users, 0) == []
  {
  }

  lemma KeepNone(g: Graph, events: seq<nat>, items: set<nat>)
    requires g.Valid() && forall k :: 0 <= k < |events| ==> events[k] < |g.allowed|
    ensures Keep(g, events, items, 0) == []
  {
  }

  lemma KeepStep(g: Graph, events: seq<nat>, items: set<nat>, n: nat)
    requires g.Valid() && n < |events| && forall k :: 0 <= k < |events| ==> events[k] < |g.allowed|
    ensures Keep(g, events, items, n + 1) ==
      Keep(g, events, items, n) + if g.log.items[events[n]] in items then [events[n]] else []
  {
  }

  lemma DistinctConcat<T>(a: seq<T>, b: seq<T>)
    requires Distinct(a) && Distinct(b)
    requires forall i, j :: 0 <= i < |a| && 0 <= j < |b| ==> a[i] != b[j]
    ensures Distinct(a + b)
  {
  }

  /** Sorting the collected edges gives the induced edge set, each edge once. */
  lemma {:induction false} InOrderIsEdgeSet(g: Graph, cutoff: int, nodes: Nodes)
    requires g.Valid()
    ensures var users := Asc(nodes.users);
      var all := InOrder(g, cutoff, nodes.items, users, |users|);
      && SetOf(all) == EdgeSet(g, cutoff, nodes)
      && Sort(Below, all) == Asc(EdgeSet(g, cutoff, nodes))
      && |all| == |EdgeSet(g, cutoff, nodes)|
  {
    var users := Asc(nodes.users);
    var all := InOrder(g, cutoff, nodes.items, users, |users|);
    InOrderSpec(g, cutoff, nodes.items, users, |users|);
    assert users[..|users|] == users;
    hide InOrder, Sort, Asc, SetOf;
    assert SetOf(all) == EdgeSet(g, cutoff, nodes);
    SortDistinct(all);
  }

  lemma {:induction false} InOrderNodes(g: Graph, cutoff: int, nodes: Nodes, all: seq<nat>)
    requires g.Valid() && all == InOrder(g, cutoff, nodes.items, Asc(nodes.users), |nodes.users|)
    ensures forall j :: 0 <= j < |all| ==>
      all[j] < |g.allowed| && g.log.users[all[j]] in nodes.users && g.log.items[all[j]] in nodes.items
  {
    InOrderIsEdgeSet(g, cutoff, nodes);
    hide InOrder;
    forall j | 0 <= j < |all|
      ensures all[j] < |g.allowed| && g.log.users[all[j]] in nodes.users && g.log.items[all[j]] in nodes.items
    {
      assert all[j] in SetOf(all);
    }
  }

  lemma {:induction false} InOrderGrows(g: Graph, cutoff: int, items: set<nat>, users: seq<nat>, k: nat, n: nat)
    requires g.Valid() && k <= n <= |users|
    ensures |InOrder(g, cutoff, items, users, k)| <= |InOrder(g, cutoff, items, users, n)|
  {
    hide UserEdges;
    if k < n { InOrderGrows(g, cutoff, items, users, k, n - 1); }
  }

  lemma {:induction false} KeepGrows(g: Graph, events: seq<nat>, items: set<nat>, k: nat, n: nat)
    requires g.Valid() && k <= n <= |events| && forall k :: 0 <= k < |events| ==> events[k] < |g.allowed|
    ensures |Keep(g, events, items, k)| <= |Keep(g, events, items, n)|
  {
    if k < n { KeepGrows(g, events, items, k, n - 1); }
  }

  /** Part of a user's edges never exceeds the whole, and all of them complete the user. */
  lemma PartialUser(g: Graph, cutoff: int, items: set<nat>, users: seq<nat>, k: nat, events: seq<nat>, n: nat)
    requires g.Valid() && k < |users| && events == g.Recent(User, users[k], cutoff, 0) && n <= |events|
    ensures |InOrder(g, cutoff, items, users, k) + Keep(g, events, items, n)|
      <= |InOrder(g, cutoff, items, users, |users|)|
    ensures n == |events| ==>
      InOrder(g, cutoff, items, users, k) + Keep(g, events, items, n) == InOrder(g, cutoff, items, users, k + 1)
  {
    InOrderStep(g, cutoff, items, users, k + 1);
    KeepGrows(g, events, items, n, |events|);
    InOrderGrows(g, cutoff, items, users, k + 1, |users|);
    hide InOrder, Keep;
    assert UserEdges(g, cutoff, items, users[k]) == Keep(g, events, items, |events|);
  }

  ghost predicate InLog(events: seq<nat>, n: nat) {
    forall k :: 0 <= k < |events| ==> events[k] < n
  }

  ghost predicate Owned(column: seq<nat>, events: seq<nat>, node: nat) {
    forall k :: 0 <= k < |events| ==> events[k] < |column| && column[events[k]] == node
  }

  lemma OwnedInLog(column: seq<nat>, events: seq<nat>, node: nat)
    requires Owned(column, events, node)
    ensures InLog(events, |column|)
  {
  }

  /** The first `n` listed events of one node, in list order. */
  ghost function OfNode(column: seq<nat>, events: seq<nat>, node: nat, n: nat): (r: seq<nat>)
    requires n <= |events| && InLog(events, |column|)
  {
    if n == 0 then []
    else OfNode(column, events, node, n - 1) + if column[events[n - 1]] == node then [events[n - 1]] else []
  }

  lemma {:induction false} OfNodePrefix(column: seq<nat>, a: seq<nat>, b: seq<nat>, node: nat, n: nat)
    requires n <= |a| && InLog(a, |column|) && InLog(a + b, |column|)
    ensures OfNode(column, a + b, node, n) == OfNode(column, a, node, n)
  {
    if n > 0 { OfNodePrefix(column, a, b, node, n - 1); }
  }

  lemma OfNodeAppend(column: seq<nat>, events: seq<nat>, e: nat, node: nat)
    requires e < |column| && InLog(events, |column|)
    ensures InLog(events + [e], |column|)
    ensures OfNode(column, events + [e], node, |events| + 1) ==
      OfNode(column, events, node, |events|) + if column[e] == node then [e] else []
  {
    OfNodePrefix(column, events, [e], node, |events|);
  }

  lemma {:induction false} OfNodeSpec(column: seq<nat>, events: seq<nat>, node: nat, n: nat)
    requires n <= |events| && InLog(events, |column|)
    requires Distinct(events)
    ensures Distinct(OfNode(column, events, node, n))
    ensures forall e :: e in OfNode(column, events, node, n) <==> e in events[..n] && column[e] == node
  {
    if n > 0 {
      OfNodeSpec(column, events, node, n - 1);
      assert events[..n] == events[..n - 1] + [events[n - 1]];
      var r := OfNode(column, events, node, n - 1);
      forall k | 0 <= k < |r| ensures r[k] != events[n - 1] {
        assert r[k] in events[..n - 1];
        var i :| 0 <= i < n - 1 && events[i] == r[k];
      }
    }
  }

  lemma {:induction false} OfNodeConcat(column: seq<nat>, a: seq<nat>, b: seq<nat>, node: nat, n: nat)
    requires n <= |b| && InLog(a, |column|) && InLog(b, |column|) && InLog(a + b, |column|)
    ensures OfNode(column, a + b, node, |a| + n) == OfNode(column, a, node, |a|) + OfNode(column, b, node, n)
  {
    if n == 0 {
      OfNodePrefix(column, a, b, node, |a|);
    } else {
      OfNodeConcat(column, a, b, node, n - 1);
    }
  }

  lemma {:induction false} OfNodeUniform(column: seq<nat>, events: seq<nat>, owner: nat, node: nat, n: nat)
    requires n <= |events| && InLog(events, |column|) && Owned(column, events, owner)
    ensures OfNode(column, events, node, n) == if node == owner then events[..n] else []
  {
    if n > 0 { OfNodeUniform(column, events, owner, node, n - 1); }
  }

  lemma OfNodeBlock(column: seq<nat>, a: seq<nat>, b: seq<nat>, owner: nat, node: nat)
    requires InLog(a, |column|) && InLog(b, |column|) && InLog(a + b, |column|) && Owned(column, b, owner)
    ensures OfNode(column, a + b, node, |a + b|) ==
      OfNode(column, a, node, |a|) + if node == owner then b else []
  {
    hide InLog, Owned, OfNode;
    OfNodeConcat(column, a, b, node, |b|);
    OfNodeUniform(column, b, owner, node, |b|);
    assert b[..|b|] == b;
  }

  lemma OfNodeInLog(g: Graph, cutoff: int, items: set<nat>, users: seq<nat>, n: nat)
    requires g.Valid() && n <= |users|
    ensures InLog(InOrder(g, cutoff, items, users, n), |g.log.users|)
    ensures InLog(InOrder(g, cutoff, items, users, n), |g.log.items|)
  {
    hide InOrder;
  }

  lemma UserEdgesOwned(g: Graph, cutoff: int, items: set<nat>, u: nat)
    requires g.Valid()
    ensures Owned(g.log.users, UserEdges(g, cutoff, items, u), u)
  {
    UserEdgesSpec(g, cutoff, items, u);
    var b := UserEdges(g, cutoff, items, u);
    hide UserEdges;
    forall j | 0 <= j < |b| ensures b[j] < |g.log.users| && g.log.users[b[j]] == u { assert b[j] in b; }
  }

  /** A user's incident list is that user's own edges, still oldest first. */
  lemma {:induction false} UserListed(g: Graph, cutoff: int, items: set<nat>, users: seq<nat>, n: nat, k: nat)
    requires g.Valid() && n <= |users| && Ascending(users) && k < |users|
    ensures InLog(InOrder(g, cutoff, items, users, n), |g.log.users|)
    ensures OfNode(g.log.users, InOrder(g, cutoff, items, users, n), users[k], |InOrder(g, cutoff, items, users, n)|) ==
      if k < n then UserEdges(g, cutoff, items, users[k]) else []
  {
    hide *;
    OfNodeInLog(g, cutoff, items, users, n);
    if n == 0 {
      InOrderNone(g, cutoff, items, users);
      NothingListed(g.log.users, users[k]);
    } else {
      UserListed(g, cutoff, items, users, n - 1, k);
      UserEdgesOwned(g, cutoff, items, users[n - 1]);
      InOrderStep(g, cutoff, items, users, n);
      var a, b := InOrder(g, cutoff, items, users, n - 1), UserEdges(g, cutoff, items, users[n - 1]);
      if k < n - 1 {
        ListedBefore(g.log.users, a, b, users, n, k);
      } else if k == n - 1 {
        ListedNow(g.log.users, a, b, users[k]);
      } else {
        NotYetListed(g.log.users, a, b, users, n, k);
      }
    }
  }

  lemma NothingListed(column: seq<nat>, node: nat)
    ensures InLog([], |column|) && OfNode(column, [], node, 0) == []
  {
  }

  /** A block of another user adds nothing to a user listed before. */
  lemma ListedBefore(column: seq<nat>, a: seq<nat>, b: seq<nat>, users: seq<nat>, n: nat, k: nat)
    requires InLog(a, |column|) && InLog(a + b, |column|)
    requires Ascending(users) && k < n - 1 < |users| && Owned(column, b, users[n - 1])
    ensures OfNode(column, a + b, users[k], |a + b|) == OfNode(column, a, users[k], |a|)
  {
    OtherBlock(column, a, b, users[n - 1], users[k]);
  }

  lemma OtherBlock(column: seq<nat>, a: seq<nat>, b: seq<nat>, owner: nat, node: nat)
    requires InLog(a, |column|) && InLog(a + b, |column|) && Owned(column, b, owner) && owner != node
    ensures OfNode(column, a + b, node, |a + b|) == OfNode(column, a, node, |a|)
  {
    hide *;
    OwnedInLog(column, b, owner);
    OfNodeBlock(column, a, b, owner, node);
    EmptyEnds(OfNode(column, a, node, |a|));
  }

  /** A user's own block is all that is listed for it. */
  lemma ListedNow(column: seq<nat>, a: seq<nat>, b: seq<nat>, owner: nat)
    requires InLog(a, |column|) && InLog(a + b, |column|) && Owned(column, b, owner)
    requires OfNode(column, a, owner, |a|) == []
    ensures OfNode(column, a + b, owner, |a + b|) == b
  {
    hide *;
    OwnedInLog(column, b, owner);
    OfNodeBlock(column, a, b, owner, owner);
    EmptyEnds(b);
  }

  lemma NotYetListed(column: seq<nat>, a: seq<nat>, b: seq<nat>, users: seq<nat>, n: nat, k: nat)
    requires InLog(a, |column|) && InLog(a + b, |column|)
    requires Ascending(users) && 0 < n <= k < |users| && Owned(column, b, users[n - 1])
    requires OfNode(column, a, users[k], |a|) == []
    ensures OfNode(column, a + b, users[k], |a + b|) == []
  {
    OtherBlock(column, a, b, users[n - 1], users[k]);
  }

  lemma {:induction false} UserIncidentIsAt(g: Graph, cutoff: int, nodes: Nodes, k: nat)
    requires g.Valid() && k < |Asc(nodes.users)|
    ensures var users := Asc(nodes.users);
      var all := InOrder(g, cutoff, nodes.items, users, |users|);
      && InLog(all, |g.log.users|)
      && OfNode(g.log.users, all, users[k], |all|) == At(g, cutoff, nodes, User, users[k])
  {
    var users := Asc(nodes.users);
    UserListed(g, cutoff, nodes.items, users, |users|, k);
    UserEdgesSpec(g, cutoff, nodes.items, users[k]);
    assert users[k] in users;
    var a, b := UserEdges(g, cutoff, nodes.items, users[k]), At(g, cutoff, nodes, User, users[k]);
    hide UserEdges, At, OfNode, InOrder;
    AscendingUnique(a, b);
  }

  lemma {:induction false} ItemIncidentIsAt(g: Graph, cutoff: int, nodes: Nodes, i: nat)
    requires g.Valid()
    ensures var users := Asc(nodes.users);
      var all := InOrder(g, cutoff, nodes.items, users, |users|);
      && InLog(all, |g.log.items|)
      && Sort(Below, OfNode(g.log.items, all, i, |all|)) == At(g, cutoff, nodes, Item, i)
  {
    var users := Asc(nodes.users);
    var all := InOrder(g, cutoff, nodes.items, users, |users|);
    InOrderSpec(g, cutoff, nodes.items, users, |users|);
    InOrderIsEdgeSet(g, cutoff, nodes);
    OfNodeInLog(g, cutoff, nodes.items, users, |users|);
    OfNodeSpec(g.log.items, all, i, |all|);
    assert all[..|all|] == all;
    var listed := OfNode(g.log.items, all, i, |all|);
    SortDistinct(listed);
    var a, b := Asc(SetOf(listed)), At(g, cutoff, nodes, Item, i);
    hide At, OfNode, InOrder, Sort, Asc, EdgeSet;
    AscendingUnique(a, b);
  }
}
