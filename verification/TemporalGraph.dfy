/** The interaction log with events numbered 0..n-1 in (time, row) order, its per-node indexes, and the visibility
    view that every sampler reads (`dgsr/data.py`, class TemporalGraph of `dgsr/graph.py`). */
module TemporalGraph {
  import opened Sorting

  datatype Side = User | Item {
    function Other(): Side { if User? then Item else User }
  }

  datatype Log = Log(users: seq<nat>, items: seq<nat>, times: seq<int>) {
    ghost predicate Valid() {
      && |users| == |items| == |times|
      && (forall i, j :: 0 <= i <= j < |times| ==> times[i] <= times[j])
    }

    function Column(side: Side): seq<nat> { if side.User? then users else items }
  }

  datatype Graph = Graph(log: Log, allowed: seq<bool>) {
    ghost predicate Valid() {
      log.Valid() && |allowed| == |log.users|
    }

    /** `by_user[node]` or `by_item[node]`, restricted to the allowed events. */
    function EventsAt(side: Side, node: nat): seq<nat>
      requires Valid()
    {
      Incident(log.Column(side), allowed, node, |allowed|)
    }

    /** `user_events` / `item_events`. */
    function Recent(side: Side, node: nat, cutoff: int, limit: nat): (r: seq<nat>)
      requires Valid()
      ensures forall k {:trigger r[k]} :: 0 <= k < |r| ==> r[k] < |allowed|
    {
      Before(EventsAt(side, node), cutoff, limit)
    }

    ghost predicate Visible(e: nat, cutoff: int)
      requires Valid()
    {
      e < |allowed| && e <= cutoff && allowed[e]
    }
  }

  lemma ValidLog(g: Graph)
    requires g.Valid()
    ensures g.log.Valid()
  {
  }

  /** The allowed events below `n` of one node, oldest first. */
  function Incident(column: seq<nat>, allowed: seq<bool>, node: nat, n: nat): (r: seq<nat>)
    requires n <= |column| == |allowed|
    ensures forall k {:trigger r[k]} :: 0 <= k < |r| ==> r[k] < n
  {
    if n == 0 then []
    else
      var r := Incident(column, allowed, node, n - 1);
      if column[n - 1] == node && allowed[n - 1] then r + [n - 1] else r
  }

  lemma {:induction false} IncidentSpec(column: seq<nat>, allowed: seq<bool>, node: nat, n: nat)
    requires n <= |column| == |allowed|
    ensures Ascending(Incident(column, allowed, node, n))
    ensures forall e: nat :: e in Incident(column, allowed, node, n) <==>
      e < n && column[e] == node && allowed[e]
  {
    if n > 0 { IncidentSpec(column, allowed, node, n - 1); }
  }

  /** `numpy.searchsorted(events, cutoff, side="right")` on ascending events. */
  function SearchRight(events: seq<nat>, cutoff: int, n: nat): (end: nat)
    requires n <= |events|
    ensures end <= n
    ensures forall k :: end <= k < n ==> cutoff < events[k]
    ensures end > 0 ==> events[end - 1] <= cutoff
  {
    if n == 0 || events[n - 1] <= cutoff then n else SearchRight(events, cutoff, n - 1)
  }

  /** `_before`: `events[max(0, end - limit) if limit else 0 : end]`. */
  function Before(events: seq<nat>, cutoff: int, limit: nat): seq<nat> {
    var end := SearchRight(events, cutoff, |events|);
    Range(events, if limit == 0 || end < limit then 0 else end - limit, end)
  }

  lemma {:induction false} BeforeAll(events: seq<nat>, cutoff: int)
    requires Ascending(events)
    ensures Ascending(Before(events, cutoff, 0))
    ensures forall e: nat :: e in Before(events, cutoff, 0) <==> e in events && e <= cutoff
  {
    var end := SearchRight(events, cutoff, |events|);
    var r := Before(events, cutoff, 0);
    forall e: nat | e in events && e <= cutoff ensures e in r {
      var k :| 0 <= k < |events| && events[k] == e;
      assert r[k] == e;
    }
    forall k | 0 <= k < |r| ensures r[k] in events && r[k] <= cutoff {
      assert k < end - 1 ==> events[k] < events[end - 1];
    }
  }

  lemma BeforeLast(events: seq<nat>, cutoff: int, limit: nat)
    ensures Before(events, cutoff, limit) == Last(Before(events, cutoff, 0), limit)
  {
  }

  lemma LastAscending(s: seq<nat>, limit: nat)
    requires Ascending(s)
    ensures Ascending(Last(s, limit))
    ensures forall e :: e in Last(s, limit) ==> e in s
  {
    var r := Last(s, limit);
    forall k | 0 <= k < |r| ensures r[k] in s {
      LastEntry(s, limit, k);
    }
    forall i, j | 0 <= i < j < |r| ensures r[i] < r[j] {
      LastEntry(s, limit, i);
      LastEntry(s, limit, j);
    }
  }

  /** One lookup returns the newest `limit` (0: all) visible events of the node
      up to the cutoff, oldest first. */
  lemma RecentIsNewest(g: Graph, side: Side, node: nat, cutoff: int, limit: nat)
    requires g.Valid()
    ensures forall e: nat :: e in g.Recent(side, node, cutoff, 0) <==>
      g.Visible(e, cutoff) && g.log.Column(side)[e] == node
    ensures Ascending(g.Recent(side, node, cutoff, 0))
    ensures g.Recent(side, node, cutoff, limit) == Last(g.Recent(side, node, cutoff, 0), limit)
    ensures Ascending(g.Recent(side, node, cutoff, limit))
    ensures forall e: nat :: e in g.Recent(side, node, cutoff, limit) ==> e in g.Recent(side, node, cutoff, 0)
  {
    IncidentSpec(g.log.Column(side), g.allowed, node, |g.allowed|);
    var events := g.EventsAt(side, node);
    BeforeAll(events, cutoff);
    BeforeLast(events, cutoff, limit);
    LastAscending(Before(events, cutoff, 0), limit);
  }

  /** `_index`: one pass over a column, appending each event to its node's list. */
  method Index(column: seq<nat>, n: nat) returns (result: seq<seq<nat>>)
    requires forall e :: 0 <= e < |column| ==> column[e] < n
    ensures |result| == n
    ensures forall v :: 0 <= v < n ==>
      result[v] == Incident(column, seq(|column|, _ => true), v, |column|)
  {
    ghost var all := seq(|column|, _ => true);
    result := seq(n, _ => []);
    for e := 0 to |column|
      invariant |result| == n
      invariant forall v :: 0 <= v < n ==> result[v] == Incident(column, all, v, e)
    {
      var node := column[e];
      result := result[node := result[node] + [e]];
    }
  }
}
