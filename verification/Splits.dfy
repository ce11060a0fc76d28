/** `InteractionData.make_splits` and `allowed_events` of `dgsr/data.py`: which events
    are training, validation and test targets, and which a split's graph may show. */
module Splits {
  import opened Sorting
  import opened TemporalGraph

  /** `cutoff` is the last observed event; the target is the user's next event. */
  datatype Example = Example(user: nat, cutoff: nat, target: nat, targetEvent: nat)

  datatype Plan = LeaveTwoOut | GlobalTime | NoSplit

  /** Validated fractions are positive, so Python's `int` is the floor here. */
  datatype SplitConfig = SplitConfig(plan: Plan, trainFraction: real, validationFraction: real, splitSafe: bool)

  /** The log with its per-user index. */
  datatype Data = Data(log: Log, byUser: seq<seq<nat>>) {
    ghost predicate Valid() {
      && log.Valid()
      && (forall e :: 0 <= e < |log.users| ==> log.users[e] < |byUser|)
      && (forall u :: 0 <= u < |byUser| ==> Indexed(u))
    }

    ghost predicate Indexed(u: nat)
      requires u < |byUser|
    {
      && Ascending(byUser[u])
      && forall e: nat :: e in byUser[u] <==> e < |log.users| && log.users[e] == u
    }

    lemma Entry(u: nat, p: nat)
      requires Valid() && u < |byUser| && p < |byUser[u]|
      ensures byUser[u][p] < |log.users| && log.users[byUser[u][p]] == u && log.users[byUser[u][p]] < |byUser|
    {
      assert Indexed(u) && byUser[u][p] in byUser[u];
    }
  }

  // ---- the split points in time ------------------------------------------------

  /** `numpy.unique` of non-decreasing times. */
  function Unique(times: seq<int>, n: nat): (r: seq<int>)
    requires n <= |times|
  {
    if n == 0 then []
    else
      var r := Unique(times, n - 1);
      if r == [] || r[|r| - 1] != times[n - 1] then r + [times[n - 1]] else r
  }

  lemma {:induction false} UniqueAscends(times: seq<int>, n: nat)
    requires n <= |times| && forall i, j :: 0 <= i <= j < |times| ==> times[i] <= times[j]
    ensures Ascending(Unique(times, n))
    ensures n > 0 ==> var r := Unique(times, n); |r| > 0 && r[|r| - 1] == times[n - 1]
  {
    if n > 0 { UniqueAscends(times, n - 1); }
  }

  lemma {:induction false} UniqueOccurs(times: seq<int>, n: nat, k: nat) returns (e: nat)
    requires n <= |times| && k < |Unique(times, n)|
    ensures e < n && times[e] == Unique(times, n)[k]
  {
    if k < |Unique(times, n - 1)| { e := UniqueOccurs(times, n - 1, k); } else { e := n - 1; }
  }

  function TrainCut(cfg: SplitConfig, n: nat): int {
    Smaller(Larger(1, (n as real * cfg.trainFraction).Floor), n - 2)
  }

  function ValidationCut(cfg: SplitConfig, n: nat): int {
    Smaller(Larger(TrainCut(cfg, n) + 1, (n as real * (cfg.trainFraction + cfg.validationFraction)).Floor), n - 1)
  }

  lemma CutsInside(cfg: SplitConfig, n: nat)
    requires n >= 3
    ensures 1 <= TrainCut(cfg, n) < ValidationCut(cfg, n) < n
  {
  }

  predicate Splittable(d: Data, cfg: SplitConfig) {
    cfg.plan.GlobalTime? ==> |Unique(d.log.times, |d.log.times|)| >= 3
  }

  /** 0 for training, 1 for validation, 2 for test. */
  function RoleOf(d: Data, cfg: SplitConfig, e: nat): (role: nat)
    requires e < |d.log.users| && e < |d.log.times| && d.log.users[e] < |d.byUser|
    ensures role <= 2
  {
    match cfg.plan
    case NoSplit => 0
    case LeaveTwoOut =>
      var events := d.byUser[d.log.users[e]];
      if |events| < 4 then 0
      else if e == events[|events| - 1] then 2
      else if e == events[|events| - 2] then 1
      else 0
    case GlobalTime =>
      var times := Unique(d.log.times, |d.log.times|);
      if |times| < 3 then 0
      else if d.log.times[e] > times[ValidationCut(cfg, |times|) - 1] then 2
      else if d.log.times[e] > times[TrainCut(cfg, |times|) - 1] then 1
      else 0
  }

  predicate Supervised(d: Data, cfg: SplitConfig, u: nat)
    requires u < |d.byUser|
  {
    cfg.plan.LeaveTwoOut? ==> |d.byUser[u]| >= 4
  }

  // ---- the examples ---------------------------------------------------------------

  function ExampleAt(d: Data, u: nat, p: nat): Example
    requires d.log.Valid() && u < |d.byUser| && 0 < p < |d.byUser[u]| && d.byUser[u][p] < |d.log.users|
  {
    Example(u, d.byUser[u][p - 1], d.log.items[d.byUser[u][p]], d.byUser[u][p])
  }

  /** One user's examples with targets of one role, oldest first. */
  ghost function UserExamples(d: Data, cfg: SplitConfig, u: nat, role: nat, n: nat): seq<Example>
    requires d.Valid() && u < |d.byUser| && n <= |d.byUser[u]|
  {
    if n <= 1 then []
    else
      d.Entry(u, n - 1);
      UserExamples(d, cfg, u, role, n - 1)
        + if RoleOf(d, cfg, d.byUser[u][n - 1]) == role then [ExampleAt(d, u, n - 1)] else []
  }

  ghost function AllExamples(d: Data, cfg: SplitConfig, role: nat, k: nat): seq<Example>
    requires d.Valid() && k <= |d.byUser|
  {
    if k == 0 then []
    else AllExamples(d, cfg, role, k - 1)
           + if Supervised(d, cfg, k - 1) then UserExamples(d, cfg, k - 1, role, |d.byUser[k - 1]|) else []
  }

  /** `x` asks for the p-th event of its user from the events before it. */
  ghost predicate IsExample(d: Data, cfg: SplitConfig, role: nat, x: Example, p: nat)
    requires d.Valid()
  {
    && x.user < |d.byUser| && Supervised(d, cfg, x.user) && 0 < p < |d.byUser[x.user]|
    && d.byUser[x.user][p] < |d.log.users| && d.log.users[d.byUser[x.user][p]] == x.user
    && x == ExampleAt(d, x.user, p) && RoleOf(d, cfg, x.targetEvent) == role
  }

  predicate ByTarget(a: Example, b: Example) { a.targetEvent < b.targetEvent }

  ghost predicate ExampleBefore(d: Data, cfg: SplitConfig, role: nat, x: Example, n: nat)
    requires d.Valid()
  {
    exists p: nat :: p < n && IsExample(d, cfg, role, x, p)
  }

  lemma NextExample(d: Data, cfg: SplitConfig, u: nat, role: nat, n: nat, x: Example)
    requires d.Valid() && u < |d.byUser| && 0 < n < |d.byUser[u]| && Supervised(d, cfg, u)
    requires d.byUser[u][n] < |d.log.users| && d.log.users[d.byUser[u][n]] == u
    ensures x.user == u && ExampleBefore(d, cfg, role, x, n + 1) <==>
      (x.user == u && ExampleBefore(d, cfg, role, x, n)) ||
      (x == ExampleAt(d, u, n) && RoleOf(d, cfg, d.byUser[u][n]) == role)
  {
    hide RoleOf, Supervised;
    if x == ExampleAt(d, u, n) && RoleOf(d, cfg, d.byUser[u][n]) == role { assert IsExample(d, cfg, role, x, n); }
    if x.user == u && ExampleBefore(d, cfg, role, x, n + 1) {
      var p: nat :| p < n + 1 && IsExample(d, cfg, role, x, p);
    }
  }

  lemma EarlierTarget(d: Data, cfg: SplitConfig, u: nat, role: nat, n: nat, x: Example)
    requires d.Valid() && u < |d.byUser| && n < |d.byUser[u]| && x.user == u && ExampleBefore(d, cfg, role, x, n)
    ensures x.targetEvent < d.byUser[u][n]
  {
    hide RoleOf, Supervised;
    var p: nat :| p < n && IsExample(d, cfg, role, x, p);
    assert d.Indexed(u);
  }

  /** A user's example list is ascending in the target and holds just its examples. */
  lemma {:induction false} UserExamplesSpec(d: Data, cfg: SplitConfig, u: nat, role: nat, n: nat)
    requires d.Valid() && u < |d.byUser| && n <= |d.byUser[u]| && Supervised(d, cfg, u)
    ensures Sorted(ByTarget, UserExamples(d, cfg, u, role, n))
    ensures forall x: Example :: x in UserExamples(d, cfg, u, role, n) <==>
      x.user == u && ExampleBefore(d, cfg, role, x, n)
  {
    hide RoleOf, Supervised, Data.Indexed;
    if n > 1 {
      UserExamplesSpec(d, cfg, u, role, n - 1);
      d.Entry(u, n - 1);
      hide Data.Valid, ExampleBefore, ExampleAt;
      var before := UserExamples(d, cfg, u, role, n - 1);
      forall x: Example
        ensures x in UserExamples(d, cfg, u, role, n) <==> x.user == u && ExampleBefore(d, cfg, role, x, n)
      {
        NextExample(d, cfg, u, role, n - 1, x);
      }
      forall k | 0 <= k < |before| ensures before[k].targetEvent < d.byUser[u][n - 1] {
        assert before[k] in before;
        EarlierTarget(d, cfg, u, role, n - 1, before[k]);
      }
      assert ExampleAt(d, u, n - 1).targetEvent == d.byUser[u][n - 1] by { ExampleTarget(d, u, n - 1); }
    } else {
      forall x: Example ensures !ExampleBefore(d, cfg, role, x, n) { hide Data.Valid; }
    }
  }

  lemma ExampleTarget(d: Data, u: nat, p: nat)
    requires d.log.Valid() && u < |d.byUser| && 0 < p < |d.byUser[u]| && d.byUser[u][p] < |d.log.users|
    ensures ExampleAt(d, u, p).targetEvent == d.byUser[u][p]
  {
  }

  ghost predicate Exemplifies(d: Data, cfg: SplitConfig, role: nat, x: Example)
    requires d.Valid()
  {
    exists p: nat :: IsExample(d, cfg, role, x, p)
  }

  lemma ExampleSomewhere(d: Data, cfg: SplitConfig, role: nat, x: Example)
    requires d.Valid() && x.user < |d.byUser|
    ensures Exemplifies(d, cfg, role, x) <==> ExampleBefore(d, cfg, role, x, |d.byUser[x.user]|)
  {
    hide RoleOf, Supervised, Data.Valid, ExampleAt;
  }

  lemma UserMembers(d: Data, cfg: SplitConfig, u: nat, role: nat)
    requires d.Valid() && u < |d.byUser| && Supervised(d, cfg, u)
    ensures Sorted(ByTarget, UserExamples(d, cfg, u, role, |d.byUser[u]|))
    ensures forall x: Example :: x in UserExamples(d, cfg, u, role, |d.byUser[u]|) <==>
      x.user == u && Exemplifies(d, cfg, role, x)
  {
    UserExamplesSpec(d, cfg, u, role, |d.byUser[u]|);
    hide RoleOf, UserExamples, Exemplifies, ExampleBefore, Data.Valid, Sorted;
    forall x: Example | x.user == u
      ensures ExampleBefore(d, cfg, role, x, |d.byUser[u]|) <==> Exemplifies(d, cfg, role, x)
    {
      ExampleSomewhere(d, cfg, role, x);
    }
  }

  /** Different users' examples have different targets. */
  lemma TargetsDiffer(d: Data, cfg: SplitConfig, role: nat, x: Example, y: Example)
    requires d.Valid() && Exemplifies(d, cfg, role, x) && Exemplifies(d, cfg, role, y) && x.user != y.user
    ensures x.targetEvent != y.targetEvent
  {
    hide RoleOf;
  }

  lemma {:induction false} AllExamplesSpec(d: Data, cfg: SplitConfig, role: nat, k: nat)
    requires d.Valid() && k <= |d.byUser|
    ensures Separates(ByTarget, AllExamples(d, cfg, role, k))
    ensures forall x: Example :: x in AllExamples(d, cfg, role, k) <==> x.user < k && Exemplifies(d, cfg, role, x)
  {
    hide Exemplifies, UserExamples;
    if k > 0 {
      AllExamplesSpec(d, cfg, role, k - 1);
      if Supervised(d, cfg, k - 1) {
        UserMembers(d, cfg, k - 1, role);
        var a, b := AllExamples(d, cfg, role, k - 1), UserExamples(d, cfg, k - 1, role, |d.byUser[k - 1]|);
        var all := a + b;
        assert AllExamples(d, cfg, role, k) == all;
        forall i, j | 0 <= i < j < |all| ensures ByTarget(all[i], all[j]) || ByTarget(all[j], all[i]) {
          if i < |a| <= j {
            assert all[i] in a && all[j] in b;
            TargetsDiffer(d, cfg, role, all[i], all[j]);
          }
        }
      } else {
        forall x: Example | x.user == k - 1 ensures !Exemplifies(d, cfg, role, x) { Unsupervised(d, cfg, role, x); }
      }
    }
  }

  lemma Unsupervised(d: Data, cfg: SplitConfig, role: nat, x: Example)
    requires d.Valid() && x.user < |d.byUser| && !Supervised(d, cfg, x.user)
    ensures !Exemplifies(d, cfg, role, x)
  {
    hide RoleOf;
  }

  /** What `make_splits` leaves in one of the three example lists. */
  ghost function ExamplesOf(d: Data, cfg: SplitConfig, role: nat): seq<Example>
    requires d.Valid()
  {
    Sort(ByTarget, AllExamples(d, cfg, role, |d.byUser|))
  }

  /** Each list holds exactly the examples of its role, in target order. */
  lemma {:induction false} ExamplesAre(d: Data, cfg: SplitConfig, role: nat)
    requires d.Valid()
    ensures Sorted(ByTarget, ExamplesOf(d, cfg, role))
    ensures forall x :: x in ExamplesOf(d, cfg, role) <==> Exemplifies(d, cfg, role, x)
  {
    AllExamplesSpec(d, cfg, role, |d.byUser|);
    SortSorted(ByTarget, AllExamples(d, cfg, role, |d.byUser|));
    SameMembers(ExamplesOf(d, cfg, role), AllExamples(d, cfg, role, |d.byUser|));
    hide RoleOf, AllExamples, Sort;
    assert forall x: Example :: Exemplifies(d, cfg, role, x) ==> x.user < |d.byUser|;
  }

  // ---- the split methods ------------------------------------------------------------

  /** `roles[times > trainEnd] = 1; roles[times > validationEnd] = 2`. */
  function TimeRoles(times: seq<int>, trainEnd: int, validationEnd: int, n: nat): (r: seq<nat>)
    requires n <= |times|
    ensures |r| == n
    ensures forall e {:trigger r[e]} :: 0 <= e < n ==>
      r[e] == if times[e] > validationEnd then 2 else if times[e] > trainEnd then 1 else 0
  {
    if n == 0 then []
    else TimeRoles(times, trainEnd, validationEnd, n - 1)
           + [if times[n - 1] > validationEnd then 2 else if times[n - 1] > trainEnd then 1 else 0]
  }

  function NoRoles(n: nat): (r: seq<nat>)
    ensures |r| == n && forall e :: 0 <= e < n ==> r[e] == 0
  {
    if n == 0 then [] else NoRoles(n - 1) + [0]
  }

  /** The inner loop: one user's examples, filed by the role of their target. */
  method FileUser(d: Data, cfg: SplitConfig, roles: seq<nat>, u: nat, files0: seq<seq<Example>>)
    returns (files: seq<seq<Example>>)
    requires d.Valid() && u < |d.byUser| && |files0| == 3 && |roles| == |d.log.users|
    requires forall e :: 0 <= e < |roles| && d.log.users[e] == u ==> roles[e] == RoleOf(d, cfg, e)
    ensures |files| == 3
    ensures forall r :: 0 <= r < 3 ==> files[r] == files0[r] + UserExamples(d, cfg, u, r, |d.byUser[u]|)
  {
    hide RoleOf;
    var events := d.byUser[u];
    files := files0;
    var position := 1;
    while position < |events|
      invariant |files| == 3 && 1 <= position
      invariant position <= |events| || (events == [] && position == 1)
      invariant forall r :: 0 <= r < 3 ==>
        files[r] == files0[r] + UserExamples(d, cfg, u, r, if position <= |events| then position else 0)
    {
      d.Entry(u, position);
      var eid := events[position];
      var role := roles[eid];
      files := files[role := files[role] + [Example(u, events[position - 1], d.log.items[eid], eid)]];
      position := position + 1;
    }
  }

  /** Roles once the first `k` users were handled. */
  ghost predicate RolesUpTo(d: Data, cfg: SplitConfig, roles: seq<nat>, k: nat)
    requires d.Valid()
  {
    && |roles| == |d.log.users|
    && forall e :: 0 <= e < |roles| ==>
         roles[e] == if cfg.plan.LeaveTwoOut? && d.log.users[e] >= k then 0 else RoleOf(d, cfg, e)
  }

  lemma {:induction false} HoldOut(d: Data, cfg: SplitConfig, roles: seq<nat>, k: nat, next: seq<nat>)
    requires d.Valid() && k < |d.byUser| && cfg.plan.LeaveTwoOut? && RolesUpTo(d, cfg, roles, k)
    requires var events := d.byUser[k];
      if |events| < 4 then next == roles
      else events[|events| - 2] < |roles| && events[|events| - 1] < |roles| &&
           next == roles[events[|events| - 2] := 1][events[|events| - 1] := 2]
    ensures RolesUpTo(d, cfg, next, k + 1)
  {
    var events := d.byUser[k];
    assert d.Indexed(k);
    if |events| >= 4 {
      d.Entry(k, |events| - 1);
      d.Entry(k, |events| - 2);
      assert events[|events| - 2] < events[|events| - 1];
    }
  }

  class InteractionData {
    const data: Data
    var roles: seq<nat>
    /** The train, validation and test example lists. */
    var examples: seq<seq<Example>>

    constructor (log: Log, users: nat)
      requires log.Valid() && forall e :: 0 <= e < |log.users| ==> log.users[e] < users
      ensures data.Valid() && data.log == log && |data.byUser| == users
      ensures roles == NoRoles(|log.users|) && examples == [[], [], []]
    {
      var byUser := Index(log.users, users);
      forall u | 0 <= u < users ensures Data(log, byUser).Indexed(u) {
        IncidentSpec(log.users, seq(|log.users|, _ => true), u, |log.users|);
      }
      data := Data(log, byUser);
      roles := NoRoles(|log.users|);
      examples := [[], [], []];
    }

    /** `make_splits`; `ok` is false where it raises for too few distinct times. */
    method MakeSplits(cfg: SplitConfig) returns (ok: bool)
      requires data.Valid()
      modifies this`roles, this`examples
      ensures ok == Splittable(data, cfg)
      ensures |roles| == |data.log.users| && |examples| == 3
      ensures forall e :: 0 <= e < |roles| ==> roles[e] == if ok then RoleOf(data, cfg, e) else 0
      ensures forall r :: 0 <= r < 3 ==> examples[r] == if ok then ExamplesOf(data, cfg, r) else []
    {
      examples := [[], [], []];
      roles := NoRoles(|data.log.users|);
      hide Unique, TrainCut, ValidationCut, UserExamples, AllExamples, Sort, Data.Indexed;
      if cfg.plan.GlobalTime? {
        var unique := Unique(data.log.times, |data.log.times|);
        if |unique| < 3 { return false; }
        CutsInside(cfg, |unique|);
        var a, b := TrainCut(cfg, |unique|), ValidationCut(cfg, |unique|);
        roles := TimeRoles(data.log.times, unique[a - 1], unique[b - 1], |data.log.times|);
      }
      FileAll(cfg);
      examples := [Sort(ByTarget, examples[0]), Sort(ByTarget, examples[1]), Sort(ByTarget, examples[2])];
      ok := true;
    }

    /** The loop over all users. */
    method FileAll(cfg: SplitConfig)
      requires data.Valid() && RolesUpTo(data, cfg, roles, 0) && examples == [[], [], []]
      modifies this`roles, this`examples
      ensures RolesUpTo(data, cfg, roles, |data.byUser|)
      ensures |examples| == 3
      ensures forall r :: 0 <= r < 3 ==> examples[r] == AllExamples(data, cfg, r, |data.byUser|)
    {
      hide RoleOf, UserExamples;
      for u := 0 to |data.byUser|
        invariant RolesUpTo(data, cfg, roles, u) && |examples| == 3
        invariant forall r :: 0 <= r < 3 ==> examples[r] == AllExamples(data, cfg, r, u)
      {
        var events := data.byUser[u];
        ghost var before := roles;
        if cfg.plan.LeaveTwoOut? {
          if |events| < 4 {
            HoldOut(data, cfg, before, u, roles);
            continue;
          }
          data.Entry(u, |events| - 2);
          data.Entry(u, |events| - 1);
          roles := roles[events[|events| - 2] := 1];
          roles := roles[events[|events| - 1] := 2];
          HoldOut(data, cfg, before, u, roles);
        }
        examples := FileUser(data, cfg, roles, u, examples);
      }
    }
  }

  // ---- leave-two-out counts -----------------------------------------------------------

  /** The examples of one user, in list order. */
  function OfUser(xs: seq<Example>, u: nat, n: nat): (r: seq<Example>)
    requires n <= |xs|
    ensures forall k {:trigger r[k]} :: 0 <= k < |r| ==> r[k].user == u && r[k] in xs
  {
    if n == 0 then [] else OfUser(xs, u, n - 1) + if xs[n - 1].user == u then [xs[n - 1]] else []
  }

  lemma {:induction false} OfUserSpec(xs: seq<Example>, u: nat, n: nat)
    requires n <= |xs| && Sorted(ByTarget, xs)
    ensures Sorted(ByTarget, OfUser(xs, u, n))
    ensures forall x: Example :: x in OfUser(xs, u, n) <==> x in xs[..n] && x.user == u
  {
    if n > 0 {
      OfUserSpec(xs, u, n - 1);
      assert xs[..n] == xs[..n - 1] + [xs[n - 1]];
      var before := OfUser(xs, u, n - 1);
      forall k | 0 <= k < |before| ensures ByTarget(before[k], xs[n - 1]) {
        assert before[k] in xs[..n - 1];
      }
    }
  }

  lemma {:induction false} OfUserNone(xs: seq<Example>, u: nat, n: nat)
    requires n <= |xs| && forall k :: 0 <= k < |xs| ==> xs[k].user != u
    ensures OfUser(xs, u, n) == []
  {
    if n > 0 { OfUserNone(xs, u, n - 1); }
  }

  /** A user's part of a split's list is its own examples, in its own order. */
  lemma {:induction false} UserPart(d: Data, cfg: SplitConfig, role: nat, u: nat)
    requires d.Valid() && u < |d.byUser| && Supervised(d, cfg, u)
    ensures var xs := ExamplesOf(d, cfg, role);
      OfUser(xs, u, |xs|) == UserExamples(d, cfg, u, role, |d.byUser[u]|)
  {
    ExamplesAre(d, cfg, role);
    UserMembers(d, cfg, u, role);
    var xs := ExamplesOf(d, cfg, role);
    OfUserSpec(xs, u, |xs|);
    assert xs[..|xs|] == xs;
    hide ExamplesOf, OfUser, UserExamples, Exemplifies, Supervised, Data.Valid;
    SortedUnique(ByTarget, OfUser(xs, u, |xs|), UserExamples(d, cfg, u, role, |d.byUser[u]|));
  }

  lemma HeldOutRole(d: Data, cfg: SplitConfig, u: nat, p: nat)
    requires d.Valid() && u < |d.byUser| && p < |d.byUser[u]| && cfg.plan.LeaveTwoOut? && |d.byUser[u]| >= 4
    requires d.byUser[u][p] < |d.log.users| && d.log.users[d.byUser[u][p]] == u
    ensures RoleOf(d, cfg, d.byUser[u][p]) ==
      if p < |d.byUser[u]| - 2 then 0 else if p == |d.byUser[u]| - 2 then 1 else 2
  {
    assert d.Indexed(u);
    var events := d.byUser[u];
    AscendingInjectiveAt(events, p);
  }

  lemma AscendingInjectiveAt(s: seq<nat>, p: nat)
    requires Ascending(s) && p < |s| && |s| >= 2
    ensures s[p] == s[|s| - 1] <==> p == |s| - 1
    ensures s[p] == s[|s| - 2] <==> p == |s| - 2
  {
  }

  lemma {:induction false} HeldOutCounts(d: Data, cfg: SplitConfig, u: nat, n: nat)
    requires d.Valid() && u < |d.byUser| && n <= |d.byUser[u]| && cfg.plan.LeaveTwoOut? && |d.byUser[u]| >= 4
    ensures var size := |d.byUser[u]|;
      && |UserExamples(d, cfg, u, 0, n)| == (if n == 0 then 0 else if n <= size - 2 then n - 1 else size - 3)
      && |UserExamples(d, cfg, u, 1, n)| == (if n <= size - 2 then 0 else 1)
      && |UserExamples(d, cfg, u, 2, n)| == (if n <= size - 1 then 0 else 1)
  {
    if n > 1 {
      HeldOutCounts(d, cfg, u, n - 1);
      d.Entry(u, n - 1);
      HeldOutRole(d, cfg, u, n - 1);
      hide RoleOf, ExampleAt, Data.Valid, Data.Indexed;
    }
  }

  /** Leave-two-out: a user with L >= 4 events yields L - 3 training, one validation
      and one test example; a shorter one is context only. */
  lemma {:induction false} LeaveTwoOutCounts(d: Data, cfg: SplitConfig, u: nat, role: nat)
    requires d.Valid() && u < |d.byUser| && cfg.plan.LeaveTwoOut? && role <= 2
    ensures var xs, size := ExamplesOf(d, cfg, role), |d.byUser[u]|;
      |OfUser(xs, u, |xs|)| == if size < 4 then 0 else if role == 0 then size - 3 else 1
  {
    if |d.byUser[u]| < 4 {
      ContextOnly(d, cfg, u, role);
    } else {
      UserPart(d, cfg, role, u);
      HeldOutCounts(d, cfg, u, |d.byUser[u]|);
      hide ExamplesOf, OfUser, UserExamples, Data.Valid;
    }
  }

  lemma ContextOnly(d: Data, cfg: SplitConfig, u: nat, role: nat)
    requires d.Valid() && u < |d.byUser| && !Supervised(d, cfg, u)
    ensures OfUser(ExamplesOf(d, cfg, role), u, |ExamplesOf(d, cfg, role)|) == []
  {
    ExamplesAre(d, cfg, role);
    var xs := ExamplesOf(d, cfg, role);
    hide ExamplesOf, RoleOf, Exemplifies, Data.Valid, Supervised;
    forall k | 0 <= k < |xs| ensures xs[k].user != u {
      assert xs[k] in xs;
      if xs[k].user == u { Unsupervised(d, cfg, role, xs[k]); }
    }
    OfUserNone(xs, u, |xs|);
  }

  // ---- global-time intervals -----------------------------------------------------------

  /** All three global-time intervals contain an event. */
  lemma {:induction false} IntervalsNonEmpty(d: Data, cfg: SplitConfig, role: nat) returns (e: nat)
    requires d.Valid() && cfg.plan.GlobalTime? && Splittable(d, cfg) && role <= 2
    ensures e < |d.log.users| && RoleOf(d, cfg, e) == role
  {
    var n := |d.log.times|;
    var times := Unique(d.log.times, n);
    UniqueAscends(d.log.times, n);
    CutsInside(cfg, |times|);
    var a, b := TrainCut(cfg, |times|), ValidationCut(cfg, |times|);
    var k := if role == 0 then 0 else if role == 1 then a else b;
    e := UniqueOccurs(d.log.times, n, k);
    hide Unique, TrainCut, ValidationCut;
    assert times[a - 1] < times[a] <= times[b - 1] < times[b];
    assert times[0] <= times[a - 1];
  }

  // ---- what a split's graph may show ------------------------------------------------------

  datatype SplitName = Train | Validation | Test | Inference | Other

  datatype Mask = Mask(allowed: seq<bool>) | UnknownSplit

  /** `roles <= bound`. */
  function AtMost(roles: seq<nat>, bound: nat, n: nat): (r: seq<bool>)
    requires n <= |roles|
    ensures |r| == n
    ensures forall e {:trigger r[e]} :: 0 <= e < n ==> r[e] == (roles[e] <= bound)
  {
    if n == 0 then [] else AtMost(roles, bound, n - 1) + [roles[n - 1] <= bound]
  }

  function Everything(n: nat): (r: seq<bool>)
    ensures |r| == n && forall e {:trigger r[e]} :: 0 <= e < n ==> r[e]
  {
    if n == 0 then [] else Everything(n - 1) + [true]
  }

  /** `allowed_events`. */
  function AllowedEvents(cfg: SplitConfig, roles: seq<nat>, split: SplitName): Mask {
    if split.Inference? || !cfg.splitSafe then Mask(Everything(|roles|))
    else match split
      case Train => Mask(AtMost(roles, 0, |roles|))
      case Validation => Mask(AtMost(roles, if cfg.plan.GlobalTime? then 1 else 0, |roles|))
      case Test => Mask(AtMost(roles, if cfg.plan.GlobalTime? then 2 else 1, |roles|))
      case _ => UnknownSplit
  }

  function NameOf(role: nat): SplitName { if role == 0 then Train else if role == 1 then Validation else Test }

  /** The graph that the examples of one role are sampled from. */
  ghost predicate SplitGraph(d: Data, cfg: SplitConfig, roles: seq<nat>, role: nat, g: Graph)
    requires d.Valid()
  {
    && |roles| == |d.log.users|
    && (forall e :: 0 <= e < |roles| ==> roles[e] == RoleOf(d, cfg, e))
    && AllowedEvents(cfg, roles, NameOf(role)) == Mask(g.allowed) && g.log == d.log
  }

  /** The event before a target never has a later role. */
  lemma {:induction false} EarlierRole(d: Data, cfg: SplitConfig, u: nat, p: nat)
    requires d.Valid() && u < |d.byUser| && 0 < p < |d.byUser[u]|
    ensures forall q :: 0 <= q < |d.byUser[u]| ==> d.byUser[u][q] < |d.log.users| && d.log.users[d.byUser[u][q]] == u
    ensures RoleOf(d, cfg, d.byUser[u][p - 1]) <= RoleOf(d, cfg, d.byUser[u][p])
    ensures cfg.plan.LeaveTwoOut? && RoleOf(d, cfg, d.byUser[u][p]) > 0 ==>
      RoleOf(d, cfg, d.byUser[u][p - 1]) < RoleOf(d, cfg, d.byUser[u][p])
  {
    forall q: nat | q < |d.byUser[u]| ensures d.byUser[u][q] < |d.log.users| && d.log.users[d.byUser[u][q]] == u {
      d.Entry(u, q);
    }
    assert d.Indexed(u);
    var events := d.byUser[u];
    assert events[p - 1] < events[p];
    if cfg.plan.GlobalTime? {
      assert d.log.times[events[p - 1]] <= d.log.times[events[p]];
      var times := Unique(d.log.times, |d.log.times|);
      if |times| >= 3 {
        CutsInside(cfg, |times|);
        UniqueAscends(d.log.times, |d.log.times|);
        hide Unique, TrainCut, ValidationCut;
      }
    }
  }

  /** The cutoff event is visible in the graph its example is sampled from. */
  lemma {:induction false} CutoffVisible(d: Data, cfg: SplitConfig, roles: seq<nat>, role: nat, g: Graph, x: Example)
    requires d.Valid() && role <= 2 && SplitGraph(d, cfg, roles, role, g) && Exemplifies(d, cfg, role, x)
    ensures g.Valid() && g.Visible(x.cutoff, x.cutoff) && d.log.users[x.cutoff] == x.user
    ensures x.cutoff < x.targetEvent < |g.allowed| && d.log.users[x.targetEvent] == x.user
  {
    hide RoleOf;
    var p: nat :| IsExample(d, cfg, role, x, p);
    EarlierRole(d, cfg, x.user, p);
    assert d.Indexed(x.user);
    assert d.byUser[x.user][p - 1] < d.byUser[x.user][p];
    assert cfg.plan.NoSplit? ==> RoleOf(d, cfg, x.targetEvent) == 0 by { NoSplitRole(d, cfg, x.targetEvent); }
  }

  lemma NoSplitRole(d: Data, cfg: SplitConfig, e: nat)
    requires e < |d.log.users| && e < |d.log.times| && d.log.users[e] < |d.byUser|
    ensures cfg.plan.NoSplit? ==> RoleOf(d, cfg, e) == 0
  {
  }

  /** Every example is asked from a prefix: its cutoff is the user's newest event the
      sampler can see, and the target is not visible. */
  lemma {:induction false} PrefixOnly(d: Data, cfg: SplitConfig, roles: seq<nat>, role: nat, g: Graph, x: Example)
    requires d.Valid() && role <= 2 && SplitGraph(d, cfg, roles, role, g) && x in ExamplesOf(d, cfg, role)
    ensures g.Valid() && g.Recent(User, x.user, x.cutoff, 1) == [x.cutoff]
    ensures !g.Visible(x.targetEvent, x.cutoff)
    ensures forall e: nat :: e in g.Recent(User, x.user, x.cutoff, 0) ==> e < x.targetEvent
  {
    ExamplesAre(d, cfg, role);
    CutoffVisible(d, cfg, roles, role, g, x);
    RecentIsNewest(g, User, x.user, x.cutoff, 0);
    RecentIsNewest(g, User, x.user, x.cutoff, 1);
    hide SplitGraph, Exemplifies, ExamplesOf, Before, Last, Data.Valid;
    var all, one := g.Recent(User, x.user, x.cutoff, 0), g.Recent(User, x.user, x.cutoff, 1);
    assert x.cutoff in all;
    NewestIs(all, x.cutoff);
    LastEntry<nat>(all, 1, 0);
    assert one == [x.cutoff];
  }

  /** Under `split_safe` and leave-two-out, a held-out example's cutoff is the newest
      event of its user in the whole graph: nothing after it is visible at any cutoff. */
  lemma {:induction false} NothingAfterCutoff(d: Data, cfg: SplitConfig, roles: seq<nat>, role: nat, g: Graph,
                                              x: Example, e: nat)
    requires d.Valid() && cfg.splitSafe && cfg.plan.LeaveTwoOut? && 1 <= role <= 2
    requires SplitGraph(d, cfg, roles, role, g) && x in ExamplesOf(d, cfg, role)
    requires e < |g.allowed| && g.allowed[e] && d.log.users[e] == x.user
    ensures e <= x.cutoff
  {
    ExamplesAre(d, cfg, role);
    assert e < |d.log.users| && RoleOf(d, cfg, e) < role by { VisibleRole(d, cfg, roles, role, g, e); }
    hide ExamplesOf, RoleOf, SplitGraph, Data.Valid;
    var p: nat :| IsExample(d, cfg, role, x, p);
    hide IsExample;
    var q := HeldOutPlace(d, cfg, x.user, role, p, e);
    assert d.Indexed(x.user);
    assert d.byUser[x.user][q] <= d.byUser[x.user][p - 1];
  }

  lemma VisibleRole(d: Data, cfg: SplitConfig, roles: seq<nat>, role: nat, g: Graph, e: nat)
    requires d.Valid() && cfg.splitSafe && cfg.plan.LeaveTwoOut? && 1 <= role <= 2
    requires SplitGraph(d, cfg, roles, role, g) && e < |g.allowed| && g.allowed[e]
    ensures e < |d.log.users| && RoleOf(d, cfg, e) < role
  {
    hide RoleOf;
  }

  /** A visible event of the user lies before the held-out one at `p`. */
  lemma {:induction false} HeldOutPlace(d: Data, cfg: SplitConfig, u: nat, role: nat, p: nat, e: nat) returns (q: nat)
    requires d.Valid() && cfg.plan.LeaveTwoOut? && 1 <= role <= 2 && u < |d.byUser| && p < |d.byUser[u]|
    requires d.byUser[u][p] < |d.log.users| && d.log.users[d.byUser[u][p]] == u
    requires RoleOf(d, cfg, d.byUser[u][p]) == role
    requires e < |d.log.users| && d.log.users[e] == u && RoleOf(d, cfg, e) < role
    ensures q < p && d.byUser[u][q] == e
  {
    assert d.Indexed(u);
    assert |d.byUser[u]| >= 4;
    q :| 0 <= q < |d.byUser[u]| && d.byUser[u][q] == e;
    HeldOutRole(d, cfg, u, p);
    HeldOutRole(d, cfg, u, q);
  }

  lemma NewestIs(all: seq<nat>, e: nat)
    requires Ascending(all) && e in all && forall f :: f in all ==> f <= e
    ensures |Last<nat>(all, 1)| == 1 && all[|all| - 1] == e
  {
    var k :| 0 <= k < |all| && all[k] == e;
    assert all[|all| - 1] in all;
    assert all[k] <= all[|all| - 1];
  }

  /** Under `split_safe` no held-out target is in the training graph and no test
      target is in the validation graph, not even later than the cutoff. */
  lemma {:induction false} HeldOutTargets(d: Data, cfg: SplitConfig, roles: seq<nat>, g: Graph, graphRole: nat,
                                          role: nat, x: Example)
    requires d.Valid() && cfg.splitSafe && graphRole < role <= 2
    requires SplitGraph(d, cfg, roles, graphRole, g) && x in ExamplesOf(d, cfg, role)
    ensures x.targetEvent < |g.allowed| && !g.allowed[x.targetEvent]
  {
    ExamplesAre(d, cfg, role);
    hide RoleOf, ExamplesOf;
    var p: nat :| IsExample(d, cfg, role, x, p);
  }

  /** The training graph hides every held-out target exactly when the policy is
      `split_safe` or nothing was held out. */
  lemma {:induction false} HiddenExactlyWhenSafe(d: Data, cfg: SplitConfig, roles: seq<nat>, g: Graph)
    requires d.Valid() && SplitGraph(d, cfg, roles, 0, g)
    ensures (forall x :: x in ExamplesOf(d, cfg, 1) + ExamplesOf(d, cfg, 2) ==>
               x.targetEvent < |g.allowed| && !g.allowed[x.targetEvent])
      <==> cfg.splitSafe || ExamplesOf(d, cfg, 1) + ExamplesOf(d, cfg, 2) == []
  {
    var held := ExamplesOf(d, cfg, 1) + ExamplesOf(d, cfg, 2);
    if cfg.splitSafe {
      forall x | x in held ensures x.targetEvent < |g.allowed| && !g.allowed[x.targetEvent] {
        if x in ExamplesOf(d, cfg, 1) { HeldOutTargets(d, cfg, roles, g, 0, 1, x); }
        else { HeldOutTargets(d, cfg, roles, g, 0, 2, x); }
      }
    } else if held != [] {
      assert held[0] in held;
    }
  }
}
