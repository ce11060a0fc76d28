/** What the splits contain, read off the log and the configured fractions: which events get which role, which
    examples a list holds and which events each split's graph shows. */
module SplitContents {
  import opened Sorting
  import opened TemporalGraph
  import opened Splits

  // ---- examples --------------------------------------------------------------------

  /** The user's event list, seen as a set. */
  lemma {:induction false} EventsOfUser(d: Data, u: nat)
    requires d.Valid() && u < |d.byUser|
    ensures |d.byUser[u]| == |set e: nat | e < |d.log.users| && d.log.users[e] == u|
  {
    assert d.Indexed(u);
    var all := set e: nat | e < |d.log.users| && d.log.users[e] == u;
    assert all == SetOf(d.byUser[u]);
    DistinctSize(d.byUser[u]);
  }

  /** A pair of a user's neighbouring events is an example of the later one's role, and
      nothing else is; leave-two-out takes only users with four events or more. */
  lemma {:induction false} ExampleMeans(d: Data, cfg: SplitConfig, role: nat, x: Example)
    requires d.Valid()
    ensures x in ExamplesOf(d, cfg, role) <==>
      && x.cutoff < x.targetEvent < |d.log.users| == |d.log.items| == |d.log.times|
      && d.log.users[x.targetEvent] == x.user && d.log.users[x.cutoff] == x.user
      && x.target == d.log.items[x.targetEvent]
      && (forall e :: x.cutoff < e < x.targetEvent ==> d.log.users[e] != x.user)
      && (cfg.plan.LeaveTwoOut? ==> |set e: nat | e < |d.log.users| && d.log.users[e] == x.user| >= 4)
      && x.user < |d.byUser| && RoleOf(d, cfg, x.targetEvent) == role
  {
    ExamplesAre(d, cfg, role);
    if x.user < |d.byUser| { EventsOfUser(d, x.user); }
    hide ExamplesOf, RoleOf;
    if Exemplifies(d, cfg, role, x) {
      ExampleIsPair(d, cfg, role, x);
    }
    if && x.cutoff < x.targetEvent < |d.log.users| == |d.log.items| == |d.log.times|
       && d.log.users[x.targetEvent] == x.user && d.log.users[x.cutoff] == x.user
       && x.target == d.log.items[x.targetEvent]
       && (forall e :: x.cutoff < e < x.targetEvent ==> d.log.users[e] != x.user)
       && x.user < |d.byUser| && RoleOf(d, cfg, x.targetEvent) == role && Supervised(d, cfg, x.user)
    {
      PairIsExample(d, cfg, role, x);
    }
  }

  lemma {:induction false} ExampleIsPair(d: Data, cfg: SplitConfig, role: nat, x: Example)
    requires d.Valid() && Exemplifies(d, cfg, role, x)
    ensures x.cutoff < x.targetEvent < |d.log.users| == |d.log.items|
    ensures d.log.users[x.targetEvent] == x.user && d.log.users[x.cutoff] == x.user
    ensures x.target == d.log.items[x.targetEvent]
    ensures forall e :: x.cutoff < e < x.targetEvent ==> d.log.users[e] != x.user
    ensures x.user < |d.byUser| && RoleOf(d, cfg, x.targetEvent) == role && Supervised(d, cfg, x.user)
  {
    hide RoleOf;
    var p: nat :| IsExample(d, cfg, role, x, p);
    assert d.Indexed(x.user);
    var events := d.byUser[x.user];
    d.Entry(x.user, p - 1);
    forall q | 0 <= q < |events| ensures events[q] <= x.cutoff || events[q] >= x.targetEvent {}
  }

  lemma {:induction false} PairIsExample(d: Data, cfg: SplitConfig, role: nat, x: Example)
    requires d.Valid() && x.cutoff < x.targetEvent < |d.log.users| == |d.log.items|
    requires d.log.users[x.targetEvent] == x.user && d.log.users[x.cutoff] == x.user
    requires x.target == d.log.items[x.targetEvent]
    requires forall e :: x.cutoff < e < x.targetEvent ==> d.log.users[e] != x.user
    requires x.user < |d.byUser| && Supervised(d, cfg, x.user) && RoleOf(d, cfg, x.targetEvent) == role
    ensures Exemplifies(d, cfg, role, x)
  {
    hide RoleOf, Supervised;
    assert d.Indexed(x.user);
    var events := d.byUser[x.user];
    assert x.targetEvent in events && x.cutoff in events;
    var p: nat :| p < |events| && events[p] == x.targetEvent;
    var q: nat :| q < |events| && events[q] == x.cutoff;
    assert q < p;
    d.Entry(x.user, p - 1);
    assert events[p - 1] <= x.cutoff;
    assert q == p - 1;
    assert IsExample(d, cfg, role, x, p);
  }

  // ---- roles -------------------------------------------------------------------------

  /** Leave-two-out: with four events or more, a user's newest event is a test target and
      the one before it a validation target; every other event is training. */
  lemma {:induction false} LeaveTwoOutRole(d: Data, cfg: SplitConfig, e: nat, own: nat, later: nat)
    requires d.Valid() && cfg.plan.LeaveTwoOut? && e < |d.log.users| && e < |d.log.times|
    requires own == |set f: nat | f < |d.log.users| && d.log.users[f] == d.log.users[e]|
    requires later == |set f: nat | e < f < |d.log.users| && d.log.users[f] == d.log.users[e]|
    ensures RoleOf(d, cfg, e) == if own >= 4 && later == 0 then 2 else if own >= 4 && later == 1 then 1 else 0
  {
    var u := d.log.users[e];
    EventsOfUser(d, u);
    assert d.Indexed(u);
    var events := d.byUser[u];
    assert e in events;
    var p: nat :| p < |events| && events[p] == e;
    PlaceCounts(events, p);
    assert (set f: nat | e < f < |d.log.users| && d.log.users[f] == u) == set x | x in events && x > events[p];
    LastPlaces(events, p);
  }

  lemma LastPlaces(s: seq<nat>, p: nat)
    requires Ascending(s) && p < |s|
    ensures s[p] == s[|s| - 1] <==> p == |s| - 1
    ensures |s| >= 2 ==> (s[p] == s[|s| - 2] <==> p == |s| - 2)
  {
  }

  lemma {:induction false} UniqueCovers(times: seq<int>, n: nat)
    requires n <= |times|
    ensures forall k :: 0 <= k < n ==> times[k] in Unique(times, n)
    ensures forall t :: t in Unique(times, n) ==> t in times[..n]
  {
    if n > 0 {
      UniqueCovers(times, n - 1);
      var r := Unique(times, n - 1);
      if r != [] { assert r[|r| - 1] in r; }
      assert times[..n] == times[..n - 1] + [times[n - 1]];
      assert times[n - 1] in Unique(times, n);
    }
  }

  lemma {:induction false} PlaceInTime(s: seq<int>, k: nat, all: set<int>)
    requires Ascending(s) && k < |s| && forall t: int :: t in all <==> t in s
    ensures |all| == |s| && |set t | t in all && t < s[k]| == k
  {
    TimesSize(s, |s|);
    assert s[..|s|] == s;
    forall t ensures t in all <==> t in TimesOf(s, |s|) { assert t in all <==> t in s; }
    SameSets(all, TimesOf(s, |s|));
    var front := set t | t in all && t < s[k];
    forall t ensures t in front <==> t in s[..k] {
      if t in front {
        var j :| 0 <= j < |s| && s[j] == t;
        assert s[..k][j] == t;
      }
      if t in s[..k] {
        var j :| 0 <= j < k && s[..k][j] == t;
        assert s[j] == t && s[j] < s[k];
      }
    }
    SameSets(front, TimesOf(s, k));
    TimesSize(s, k);
  }

  lemma SameSets<T>(a: set<T>, b: set<T>)
    requires forall t :: t in a <==> t in b
    ensures a == b
  {
  }

  function TimesOf(s: seq<int>, n: nat): set<int>
    requires n <= |s|
  {
    set t | t in s[..n]
  }

  lemma {:induction false} TimesSize(s: seq<int>, n: nat)
    requires Ascending(s) && n <= |s|
    ensures |TimesOf(s, n)| == n
  {
    if n > 0 {
      TimesSize(s, n - 1);
      TimesStep(s, n);
      hide TimesOf;
    }
  }

  lemma TimesStep(s: seq<int>, n: nat)
    requires Ascending(s) && 0 < n <= |s|
    ensures TimesOf(s, n) == TimesOf(s, n - 1) + {s[n - 1]} && s[n - 1] !in TimesOf(s, n - 1)
  {
    assert s[..n] == s[..n - 1] + [s[n - 1]];
    var front := s[..n - 1];
    forall k | 0 <= k < n - 1 ensures front[k] != s[n - 1] { assert s[k] < s[n - 1]; }
    assert s[n - 1] !in front;
  }

  /** The two cuts: the fractions of the distinct times, rounded down, moved only as far
      as needed to leave every interval at least one. */
  lemma CutsAre(cfg: SplitConfig, n: nat, want: int, until: int)
    requires n >= 3 && want == (n as real * cfg.trainFraction).Floor
    requires until == (n as real * (cfg.trainFraction + cfg.validationFraction)).Floor
    ensures 1 <= want <= n - 2 ==> TrainCut(cfg, n) == want
    ensures want < 1 ==> TrainCut(cfg, n) == 1
    ensures want > n - 2 ==> TrainCut(cfg, n) == n - 2
    ensures TrainCut(cfg, n) < until < n ==> ValidationCut(cfg, n) == until
    ensures until <= TrainCut(cfg, n) ==> ValidationCut(cfg, n) == TrainCut(cfg, n) + 1
    ensures until >= n ==> ValidationCut(cfg, n) == n - 1
  {
  }

  /** Global time: an event's role is decided by how many distinct times come before its
      own, against the two cuts; fewer than three distinct times cannot be split. */
  lemma {:induction false} GlobalTimeRole(d: Data, cfg: SplitConfig, e: nat, all: set<int>, earlier: nat)
    requires d.Valid() && cfg.plan.GlobalTime? && e < |d.log.users| && e < |d.log.times|
    requires all == set t | t in d.log.times
    requires earlier == |set t | t in all && t < d.log.times[e]|
    ensures Splittable(d, cfg) <==> |all| >= 3
    ensures |all| >= 3 ==>
      RoleOf(d, cfg, e) ==
        if earlier < TrainCut(cfg, |all|) then 0 else if earlier < ValidationCut(cfg, |all|) then 1 else 2
  {
    hide *;
    var times := Unique(d.log.times, |d.log.times|);
    RoleByTime(d, cfg, e, times);
    var k := PlaceOfTime(d, e, all, times);
    if |times| >= 3 {
      InTimeOrder(times, k, TrainCut(cfg, |times|) - 1);
      InTimeOrder(times, k, ValidationCut(cfg, |times|) - 1);
    }
  }

  /** The event's time among the distinct times, as many of which come before it. */
  lemma {:induction false} PlaceOfTime(d: Data, e: nat, all: set<int>, times: seq<int>) returns (k: nat)
    requires d.Valid() && e < |d.log.times| && all == set t | t in d.log.times
    requires times == Unique(d.log.times, |d.log.times|)
    ensures Ascending(times) && |all| == |times|
    ensures k < |times| && times[k] == d.log.times[e] && |set t | t in all && t < d.log.times[e]| == k
  {
    var n := |d.log.times|;
    UniqueAscends(d.log.times, n);
    UniqueCovers(d.log.times, n);
    hide Unique, Data.Indexed;
    assert d.log.times[..n] == d.log.times;
    assert d.log.times[e] in times;
    k :| k < |times| && times[k] == d.log.times[e];
    PlaceInTime(times, k, all);
  }

  lemma RoleByTime(d: Data, cfg: SplitConfig, e: nat, times: seq<int>)
    requires d.Valid() && cfg.plan.GlobalTime? && e < |d.log.users| && e < |d.log.times|
    requires times == Unique(d.log.times, |d.log.times|)
    ensures Splittable(d, cfg) <==> |times| >= 3
    ensures |times| >= 3 ==>
      && 0 < TrainCut(cfg, |times|) < ValidationCut(cfg, |times|) < |times|
      && RoleOf(d, cfg, e) ==
           if d.log.times[e] > times[ValidationCut(cfg, |times|) - 1] then 2
           else if d.log.times[e] > times[TrainCut(cfg, |times|) - 1] then 1 else 0
  {
    if |times| >= 3 { CutsInside(cfg, |times|); }
    hide Unique, TrainCut, ValidationCut;
  }

  lemma InTimeOrder(s: seq<int>, i: nat, j: nat)
    requires Ascending(s) && i < |s| && j < |s|
    ensures s[i] > s[j] <==> i > j
  {
  }

  // ---- graphs ------------------------------------------------------------------------

  /** Inference, and every split without `split_safe`, shows all events; otherwise a split
      shows the roles up to its latest, and an unknown split name is refused. */
  lemma AllowedMeans(cfg: SplitConfig, roles: seq<nat>, split: SplitName)
    ensures AllowedEvents(cfg, roles, split).UnknownSplit? <==> split.Other? && cfg.splitSafe
    ensures AllowedEvents(cfg, roles, split).Mask? ==>
      var allowed := AllowedEvents(cfg, roles, split).allowed;
      && |allowed| == |roles|
      && forall e :: 0 <= e < |roles| ==>
           (allowed[e] <==>
              || split.Inference? || !cfg.splitSafe
              || (split.Train? && roles[e] == 0)
              || (split.Validation? && (roles[e] == 0 || (cfg.plan.GlobalTime? && roles[e] == 1)))
              || (split.Test? && (roles[e] <= 1 || (cfg.plan.GlobalTime? && roles[e] == 2))))
  {
  }
}
