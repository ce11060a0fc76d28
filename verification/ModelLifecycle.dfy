/** Activation, rollback and archiving of one tenant's model versions (`models_reg/service.py`), each one step under
    the lifecycle lock; `now` is read before that lock is taken, so stamps need not follow lock order. */
module ModelLifecycle {

  datatype VersionStatus = Eligible | Active | Retired | Archived
  datatype Stamp = Never | At(time: int)
  datatype Version = Version(status: VersionStatus, activated: Stamp, created: int)

  datatype Choice = None | Some(version: nat)
  datatype Health = Available | Degraded
  datatype Deployment = Missing | Deployment(desired: nat, active: Choice, health: Health, at: int)

  /** `previous` is the version that was active immediately before the current one. */
  datatype State = State(versions: seq<Version>, deployment: Deployment, previous: Choice)

  datatype Action =
    | Register(created: int)
    | Activate(version: nat, rollback: bool, ready: bool, now: int)
    | Archive(version: nat)

  // ---- lookups ---------------------------------------------------------------------

  /** The active version among the first `n`. */
  function ActiveOf(versions: seq<Version>, n: nat): (c: Choice)
    requires n <= |versions|
    ensures c.Some? ==> c.version < n && versions[c.version].status.Active?
    ensures c.None? ==> forall k :: 0 <= k < n ==> !versions[k].status.Active?
  {
    if n == 0 then None
    else if versions[n - 1].status.Active? then Some(n - 1)
    else ActiveOf(versions, n - 1)
  }

  /** `ORDER BY activated_at DESC NULLS LAST, created_at DESC`. */
  predicate Newer(a: Version, b: Version) {
    || (a.activated.At? && b.activated.Never?)
    || (a.activated.At? && b.activated.At? && a.activated.time > b.activated.time)
    || (a.activated == b.activated && a.created > b.created)
  }

  /** The retired version the query above returns first. */
  function RollbackTarget(versions: seq<Version>, n: nat): (c: Choice)
    requires n <= |versions|
    ensures c.Some? ==> c.version < n && versions[c.version].status.Retired?
    ensures c.None? ==> forall k :: 0 <= k < n ==> !versions[k].status.Retired?
    ensures c.Some? ==>
      forall k :: 0 <= k < n && versions[k].status.Retired? ==> !Newer(versions[k], versions[c.version])
  {
    if n == 0 then None
    else
      var best := RollbackTarget(versions, n - 1);
      if versions[n - 1].status.Retired? && (best.None? || Newer(versions[n - 1], versions[best.version]))
      then Some(n - 1)
      else best
  }

  // ---- the operations ----------------------------------------------------------------

  /** Every active version among the first `n` retired. */
  function RetireActive(versions: seq<Version>, n: nat): (r: seq<Version>)
    requires n <= |versions|
    ensures |r| == n
    ensures forall k {:trigger r[k]} :: 0 <= k < n ==>
      r[k] == if versions[k].status.Active? then versions[k].(status := Retired) else versions[k]
  {
    if n == 0 then []
    else RetireActive(versions, n - 1)
           + [if versions[n - 1].status.Active? then versions[n - 1].(status := Retired) else versions[n - 1]]
  }

  /** The two early answers of `activate_model_version`: no such version, nothing to
      do, or not in the required status. */
  predicate Refused(versions: seq<Version>, k: nat, rollback: bool) {
    k >= |versions| || versions[k].status != (if rollback then Retired else Eligible)
  }

  predicate Protected(versions: seq<Version>, k: nat)
    requires k < |versions|
  {
    && versions[k].status.Retired?
    && ActiveOf(versions, |versions|).Some? && RollbackTarget(versions, |versions|) == Some(k)
  }

  predicate ArchiveRefused(versions: seq<Version>, k: nat) {
    k >= |versions| || versions[k].status.Active? || Protected(versions, k)
  }

  function Promote(versions: seq<Version>, k: nat, now: int): seq<Version>
    requires k < |versions|
  {
    var retired := RetireActive(versions, |versions|);
    retired[k := retired[k].(status := Active, activated := At(now))]
  }

  function Next(s: State, a: Action): State {
    match a
    case Register(created) => s.(versions := s.versions + [Version(Eligible, Never, created)])
    case Activate(k, rollback, ready, now) =>
      var active := ActiveOf(s.versions, |s.versions|);
      if Refused(s.versions, k, rollback) then s
      else if !ready then s.(deployment := Deployment(k, active, Degraded, now))
      else State(Promote(s.versions, k, now), Deployment(k, Some(k), Available, now), active)
    case Archive(k) =>
      if ArchiveRefused(s.versions, k) then s
      else s.(versions := s.versions[k := s.versions[k].(status := Archived)])
  }

  function Run(s: State, actions: seq<Action>, n: nat): State
    requires n <= |actions|
  {
    if n == 0 then s else Next(Run(s, actions, n - 1), actions[n - 1])
  }

  function Initial(): State { State([], Missing, None) }

  // ---- what every run keeps -------------------------------------------------------------

  ghost predicate OneActive(versions: seq<Version>) {
    forall j, k :: 0 <= j < k < |versions| ==> !(versions[j].status.Active? && versions[k].status.Active?)
  }

  /** The deployment names the active version, and an available one serves what was
      asked for. */
  ghost predicate Named(s: State) {
    && (s.deployment.Missing? ==> ActiveOf(s.versions, |s.versions|).None?)
    && (s.deployment.Deployment? ==>
          && s.deployment.active == ActiveOf(s.versions, |s.versions|)
          && s.deployment.desired < |s.versions|
          && (s.deployment.health.Available? ==> s.deployment.active == Some(s.deployment.desired)))
  }

  ghost predicate Inv(s: State) { OneActive(s.versions) && Named(s) }

  lemma {:induction false} ActiveIs(versions: seq<Version>, n: nat, k: nat)
    requires n <= |versions| && k < n && versions[k].status.Active?
    requires forall j :: 0 <= j < n && j != k ==> !versions[j].status.Active?
    ensures ActiveOf(versions, n) == Some(k)
  {
    if n - 1 > k { ActiveIs(versions, n - 1, k); }
  }

  /** The lookup depends only on which versions are active. */
  lemma {:induction false} SameActive(a: seq<Version>, b: seq<Version>, n: nat)
    requires n <= |a| && n <= |b| && forall k :: 0 <= k < n ==> (a[k].status.Active? <==> b[k].status.Active?)
    ensures ActiveOf(a, n) == ActiveOf(b, n)
  {
    if n > 0 { SameActive(a, b, n - 1); }
  }

  lemma PromoteKeepsInv(s: State, k: nat, now: int, t: State)
    requires Inv(s) && k < |s.versions|
    requires t == State(Promote(s.versions, k, now), Deployment(k, Some(k), Available, now),
                        ActiveOf(s.versions, |s.versions|))
    ensures Inv(t)
  {
    hide RetireActive, ActiveOf;
    ActiveIs(t.versions, |t.versions|, k);
  }

  lemma {:induction false} StepKeepsInv(s: State, a: Action)
    requires Inv(s)
    ensures Inv(Next(s, a))
  {
    var t := Next(s, a);
    match a {
      case Register(created) =>
        SameActive(s.versions, t.versions, |s.versions|);
      case Activate(k, rollback, ready, now) =>
        if !Refused(s.versions, k, rollback) && ready { PromoteKeepsInv(s, k, now, t); }
      case Archive(k) =>
        SameActive(s.versions, t.versions, |s.versions|);
    }
  }

  /** Over every run, in any stamp order: at most one version is active and the
      deployment names it. */
  lemma {:induction false} RunKeepsInv(actions: seq<Action>, n: nat)
    requires n <= |actions|
    ensures Inv(Run(Initial(), actions, n))
  {
    hide Next;
    if n > 0 {
      RunKeepsInv(actions, n - 1);
      hide Inv;
      StepKeepsInv(Run(Initial(), actions, n - 1), actions[n - 1]);
    }
  }

  /** Archived is final, and once some version is active some version stays active. */
  lemma {:induction false} StepMovesForward(s: State, a: Action, k: nat)
    requires k < |s.versions|
    ensures k < |Next(s, a).versions|
    ensures s.versions[k].status.Archived? ==> Next(s, a).versions[k] == s.versions[k]
    ensures s.versions[k].status.Active? ==>
      Next(s, a).versions[k].status.Active? || Next(s, a).versions[k].status.Retired?
    ensures Next(s, a).versions[k].created == s.versions[k].created
  {
    hide ActiveOf, RollbackTarget;
  }

  lemma {:induction false} ArchivedIsFinal(s: State, actions: seq<Action>, n: nat, k: nat)
    requires n <= |actions| && k < |s.versions| && s.versions[k].status.Archived?
    ensures k < |Run(s, actions, n).versions| && Run(s, actions, n).versions[k] == s.versions[k]
  {
    hide Next;
    if n > 0 {
      ArchivedIsFinal(s, actions, n - 1, k);
      StepMovesForward(Run(s, actions, n - 1), actions[n - 1], k);
    }
  }

  /** A successful activation promotes one version, from eligible or, as a rollback,
      from retired; it retires the one that was active and touches no other. */
  lemma SuccessfulActivation(s: State, k: nat, rollback: bool, now: int, t: State)
    requires Inv(s) && !Refused(s.versions, k, rollback) && t == Next(s, Activate(k, rollback, true, now))
    ensures k < |t.versions| == |s.versions|
    ensures s.versions[k].status == if rollback then Retired else Eligible
    ensures t.versions[k] == s.versions[k].(status := Active, activated := At(now))
    ensures forall j :: 0 <= j < |s.versions| && j != k ==>
      t.versions[j] == if s.versions[j].status.Active? then s.versions[j].(status := Retired) else s.versions[j]
    ensures t.previous == ActiveOf(s.versions, |s.versions|)
    ensures ActiveOf(t.versions, |t.versions|) == Some(k) && t.deployment == Deployment(k, Some(k), Available, now)
  {
    PromoteKeepsInv(s, k, now, t);
    hide RetireActive, ActiveOf, Named, OneActive;
    ActiveIs(t.versions, |t.versions|, k);
  }

  /** A failed activation leaves the versions alone; the deployment records what was
      wanted, keeps what was active and is degraded. */
  lemma FailedActivationRecords(s: State, k: nat, rollback: bool, now: int, t: State)
    requires k < |s.versions| && s.versions[k].status == (if rollback then Retired else Eligible)
    requires t == Next(s, Activate(k, rollback, false, now))
    ensures t.versions == s.versions && t.previous == s.previous
    ensures t.deployment.Deployment? && t.deployment.desired == k && t.deployment.at == now
    ensures t.deployment.health == Degraded
    ensures t.deployment.active.Some? ==>
      t.deployment.active.version < |s.versions| && s.versions[t.deployment.active.version].status == Active
    ensures t.deployment.active.None? ==> forall j :: 0 <= j < |s.versions| ==> s.versions[j].status != Active
  {
    hide RetireActive;
  }

  /** Activating a version that is not in the required status changes nothing. */
  lemma RefusedActivation(s: State, k: nat, rollback: bool, ready: bool, now: int)
    requires k >= |s.versions| || s.versions[k].status != (if rollback then Retired else Eligible)
    ensures Next(s, Activate(k, rollback, ready, now)) == s
  {
  }

  /** A registered version is eligible, was never activated and changes no other. */
  lemma RegisterRecords(s: State, created: int)
    ensures var t := Next(s, Register(created));
      && t.versions == s.versions + [Version(Eligible, Never, created)]
      && t.deployment == s.deployment && t.previous == s.previous
  {
  }

  /** Before the other retired version in the rollback order: activated later, or at all,
      then created later, then earlier in the table. */
  ghost predicate ComesFirst(a: Version, i: nat, b: Version, j: nat) {
    match (a.activated, b.activated)
    case (At(_), Never) => true
    case (Never, At(_)) => false
    case (At(x), At(y)) => x > y || (x == y && (a.created > b.created || (a.created == b.created && i < j)))
    case (Never, Never) => a.created > b.created || (a.created == b.created && i < j)
  }

  /** Archiving marks one version archived and changes nothing else. It is refused for an
      unknown version, the active one, and, while some version is active, the retired one
      that comes first; for no other. */
  lemma {:induction false} ArchiveMeans(s: State, k: nat, t: State)
    requires t == Next(s, Archive(k))
    ensures
      (k >= |s.versions| || s.versions[k].status == Active ||
       (s.versions[k].status == Retired && (exists a :: 0 <= a < |s.versions| && s.versions[a].status == Active) &&
        (forall j :: 0 <= j < |s.versions| && j != k && s.versions[j].status == Retired ==>
           ComesFirst(s.versions[k], k, s.versions[j], j)))) <==> ArchiveRefused(s.versions, k)
    ensures ArchiveRefused(s.versions, k) ==> t == s
    ensures !ArchiveRefused(s.versions, k) ==>
      t == State(s.versions[k := Version(Archived, s.versions[k].activated, s.versions[k].created)], s.deployment,
                 s.previous)
  {
    if k < |s.versions| {
      TargetIsFirst(s.versions, |s.versions|, k);
      hide RollbackTarget, ActiveOf;
      forall j | 0 <= j < |s.versions| && j != k
        ensures ComesFirst(s.versions[k], k, s.versions[j], j) <==>
          if j < k then Newer(s.versions[k], s.versions[j]) else !Newer(s.versions[j], s.versions[k])
      {
      }
      hide ComesFirst, Newer;
    }
  }

  predicate Failing(a: Action) { a.Activate? && !a.ready }

  /** The first `n` actions without the activations whose validation failed. */
  ghost function Succeeding(actions: seq<Action>, n: nat): seq<Action>
    requires n <= |actions|
  {
    if n == 0 then []
    else Succeeding(actions, n - 1) + if Failing(actions[n - 1]) then [] else [actions[n - 1]]
  }

  lemma {:induction false} RunPrefix(s: State, a: seq<Action>, b: seq<Action>, n: nat)
    requires n <= |a|
    ensures Run(s, a + b, n) == Run(s, a, n)
  {
    hide Next;
    if n > 0 { RunPrefix(s, a, b, n - 1); }
  }

  /** What is actually deployed. */
  function Serving(s: State): Choice { if s.deployment.Missing? then None else s.deployment.active }

  /** Versions and their history do not depend on the deployment row. */
  lemma {:induction false} SameVersions(s: State, t: State, a: Action)
    requires s.versions == t.versions && s.previous == t.previous
    ensures Next(s, a).versions == (if Failing(a) then s.versions else Next(t, a).versions)
    ensures Next(s, a).previous == (if Failing(a) then s.previous else Next(t, a).previous)
  {
    hide ActiveOf, RollbackTarget, Promote;
  }

  /** Failed activations leave no trace: deleting them from a run changes no version,
      no rollback target and nothing that is served. */
  lemma {:induction false} FailedActivations(actions: seq<Action>, n: nat)
    requires n <= |actions|
    ensures var s := Run(Initial(), actions, n);
      var t := Run(Initial(), Succeeding(actions, n), |Succeeding(actions, n)|);
      s.versions == t.versions && s.previous == t.previous && Serving(s) == Serving(t)
  {
    hide Next, ActiveOf, OneActive;
    if n > 0 {
      FailedActivations(actions, n - 1);
      var a, kept := actions[n - 1], Succeeding(actions, n - 1);
      SameVersions(Run(Initial(), actions, n - 1), Run(Initial(), kept, |kept|), a);
      RunPrefix(Initial(), kept, [a], |kept|);
      assert Run(Initial(), kept + [a], |kept| + 1) == Next(Run(Initial(), kept, |kept|), a);
      if Failing(a) {
        assert Succeeding(actions, n) == kept;
      } else {
        assert Succeeding(actions, n) == kept + [a];
      }
    }
    RunKeepsInv(actions, n);
    RunKeepsInv(Succeeding(actions, n), |Succeeding(actions, n)|);
  }

  // ---- the rollback target -----------------------------------------------------------------

  /** Every stamp so far is older than `now`. */
  ghost predicate AllBefore(versions: seq<Version>, now: int) {
    forall k :: 0 <= k < |versions| && versions[k].activated.At? ==> versions[k].activated.time < now
  }

  /** Activations carry strictly increasing stamps, in lock order. */
  ghost predicate StampsIncrease(s: State, actions: seq<Action>) {
    forall n :: 0 <= n < |actions| ==> StampedInOrder(Run(s, actions, n), actions[n])
  }

  ghost predicate StampedInOrder(s: State, a: Action) { a.Activate? ==> AllBefore(s.versions, a.now) }

  /** The active version is the newest stamped; the one before it is the newest of
      the rest; active and retired versions carry stamps. */
  ghost predicate Guarded(s: State) {
    && (forall k :: 0 <= k < |s.versions| && (s.versions[k].status.Active? || s.versions[k].status.Retired?) ==>
          s.versions[k].activated.At?)
    && (forall j, k | 0 <= j < |s.versions| && 0 <= k < |s.versions| ::
          s.versions[j].status.Active? && s.versions[k].status.Retired? ==> Newer(s.versions[j], s.versions[k]))
    && (s.previous.Some? ==> GuardedPrevious(s.versions, s.previous.version))
    && (s.previous.Some? ==> ActiveOf(s.versions, |s.versions|).Some?)
  }

  ghost predicate GuardedPrevious(versions: seq<Version>, p: nat) {
    && p < |versions| && versions[p].status.Retired?
    && forall k :: 0 <= k < |versions| && k != p && versions[k].status.Retired? ==> Newer(versions[p], versions[k])
  }

  lemma {:induction false} TargetIsNewest(versions: seq<Version>, n: nat, p: nat)
    requires n <= |versions| && p < n && versions[p].status.Retired?
    requires forall k :: 0 <= k < n && k != p && versions[k].status.Retired? ==> Newer(versions[p], versions[k])
    ensures RollbackTarget(versions, n) == Some(p)
  {
    var c := RollbackTarget(versions, n);
    assert !Newer(versions[p], versions[c.version]);
  }

  lemma {:induction false} PromoteKeepsGuard(s: State, k: nat, now: int, t: State)
    requires Inv(s) && Guarded(s) && k < |s.versions| && AllBefore(s.versions, now)
    requires s.versions[k].status.Eligible? || s.versions[k].status.Retired?
    requires t == State(Promote(s.versions, k, now), Deployment(k, Some(k), Available, now),
                        ActiveOf(s.versions, |s.versions|))
    ensures Guarded(t)
  {
    hide RetireActive, ActiveOf, Named;
    ActiveIs(t.versions, |t.versions|, k);
    if t.previous.Some? {
      var p := t.previous.version;
      forall j | 0 <= j < |t.versions| && j != p && t.versions[j].status.Retired?
        ensures Newer(t.versions[p], t.versions[j])
      {
        assert !s.versions[j].status.Active?;
      }
    }
  }

  lemma {:induction false} ArchiveKeepsGuard(s: State, k: nat, t: State)
    requires Inv(s) && Guarded(s) && !ArchiveRefused(s.versions, k)
    requires t == s.(versions := s.versions[k := s.versions[k].(status := Archived)])
    ensures Guarded(t)
  {
    SameActive(s.versions, t.versions, |s.versions|);
    if s.previous.Some? { TargetIsNewest(s.versions, |s.versions|, s.previous.version); }
    hide RollbackTarget, ActiveOf, Named;
  }

  lemma {:induction false} StepKeepsGuard(s: State, a: Action)
    requires Inv(s) && Guarded(s) && StampedInOrder(s, a)
    ensures Guarded(Next(s, a))
  {
    var t := Next(s, a);
    match a {
      case Register(created) =>
        SameActive(s.versions, t.versions, |s.versions|);
      case Activate(k, rollback, ready, now) =>
        if !Refused(s.versions, k, rollback) && ready { PromoteKeepsGuard(s, k, now, t); }
      case Archive(k) =>
        if !ArchiveRefused(s.versions, k) { ArchiveKeepsGuard(s, k, t); }
    }
  }

  lemma {:induction false} RunKeepsGuard(actions: seq<Action>, n: nat)
    requires n <= |actions| && StampsIncrease(Initial(), actions)
    ensures Guarded(Run(Initial(), actions, n))
  {
    hide Next, Inv, StampedInOrder;
    if n > 0 {
      RunKeepsGuard(actions, n - 1);
      RunKeepsInv(actions, n - 1);
      hide Guarded;
      assert StampedInOrder(Run(Initial(), actions, n - 1), actions[n - 1]);
      StepKeepsGuard(Run(Initial(), actions, n - 1), actions[n - 1]);
    }
  }

  /** With increasing stamps, after every run the version active before the current
      one is retired and archive refuses to remove it. */
  lemma {:induction false} RollbackTargetIsKept(actions: seq<Action>, s: State)
    requires StampsIncrease(Initial(), actions) && s == Run(Initial(), actions, |actions|) && s.previous.Some?
    ensures s.previous.version < |s.versions| && s.versions[s.previous.version].status.Retired?
    ensures Next(s, Archive(s.previous.version)) == s
  {
    RunKeepsGuard(actions, |actions|);
    hide Run, StampsIncrease;
    TargetIsNewest(s.versions, |s.versions|, s.previous.version);
  }

  /** Whatever the stamps: archive refuses a retired version exactly when some version
      is active and no retired version sorts before it in the rollback order. */
  lemma RefusedExactlyWhenNewest(versions: seq<Version>, p: nat)
    requires p < |versions| && versions[p].status.Retired?
    requires forall k :: 0 <= k < |versions| && k != p && versions[k].status.Retired? ==>
      Newer(versions[p], versions[k]) || Newer(versions[k], versions[p])
    ensures ArchiveRefused(versions, p) <==>
      && (exists k :: 0 <= k < |versions| && versions[k].status.Active?)
      && (forall k :: 0 <= k < |versions| && versions[k].status.Retired? ==> !Newer(versions[k], versions[p]))
  {
    if forall k :: 0 <= k < |versions| && versions[k].status.Retired? ==> !Newer(versions[k], versions[p]) {
      TargetIsNewest(versions, |versions|, p);
    }
    hide ActiveOf;
  }

  // ---- how long a superseded version stays protected ----------------------------------------

  /** `p` comes first among the retired versions in the rollback order, ties in the
      order of the table. */
  ghost predicate FirstRetired(versions: seq<Version>, n: nat, p: nat)
    requires n <= |versions|
  {
    && p < n && versions[p].status.Retired?
    && (forall j :: 0 <= j < p && versions[j].status.Retired? ==> Newer(versions[p], versions[j]))
    && (forall j :: p < j < n && versions[j].status.Retired? ==> !Newer(versions[j], versions[p]))
  }

  lemma {:induction false} TargetIsFirst(versions: seq<Version>, n: nat, p: nat)
    requires n <= |versions|
    ensures RollbackTarget(versions, n) == Some(p) <==> FirstRetired(versions, n, p)
  {
    if n > 0 {
      TargetIsFirst(versions, n - 1, p);
      var best := RollbackTarget(versions, n - 1);
      if best.Some? { TargetIsFirst(versions, n - 1, best.version); }
    }
  }

  /** An activation that goes through. */
  predicate Promotes(s: State, a: Action) { a.Activate? && a.ready && !Refused(s.versions, a.version, a.rollback) }

  ghost predicate NoPromotion(s: State, actions: seq<Action>) {
    forall n :: 0 <= n < |actions| ==> !Promotes(Run(s, actions, n), actions[n])
  }

  lemma {:induction false} StepKeepsProtection(s: State, a: Action, p: nat)
    requires p < |s.versions| && Protected(s.versions, p) && !Promotes(s, a)
    ensures p < |Next(s, a).versions| && Protected(Next(s, a).versions, p)
    ensures Next(s, a).versions[p] == s.versions[p]
  {
    var t := Next(s, a);
    TargetIsFirst(s.versions, |s.versions|, p);
    TargetIsFirst(t.versions, |t.versions|, p);
    SameActive(s.versions, t.versions, |s.versions|);
    hide RollbackTarget, Newer;
  }

  lemma {:induction false} ProtectionLasts(s: State, actions: seq<Action>, n: nat, p: nat)
    requires p < |s.versions| && Protected(s.versions, p) && NoPromotion(s, actions) && n <= |actions|
    ensures p < |Run(s, actions, n).versions| && Protected(Run(s, actions, n).versions, p)
  {
    hide Next, Protected, Promotes;
    if n > 0 {
      ProtectionLasts(s, actions, n - 1, p);
      StepKeepsProtection(Run(s, actions, n - 1), actions[n - 1], p);
    }
  }

  /** Whatever happens until the next successful activation, archive refuses the
      superseded version. */
  ghost predicate RefusedUntilNext(t: State, p: nat) {
    forall actions: seq<Action>, n: nat | NoPromotion(t, actions) && n <= |actions| ::
      ArchiveRefused(Run(t, actions, n).versions, p)
  }

  /** A superseded version stays protected until the next activation if and only if it
      comes first among the retired in the rollback order, its own stamp included. */
  lemma {:induction false} SupersededIsKeptIff(s: State, k: nat, rollback: bool, now: int, p: nat, t: State)
    requires Inv(s) && !Refused(s.versions, k, rollback) && t == Next(s, Activate(k, rollback, true, now))
    requires t.previous == Some(p)
    ensures p < |t.versions| && t.versions[p].status.Retired? && t.versions[p].activated == s.versions[p].activated
    ensures RefusedUntilNext(t, p) <==> FirstRetired(t.versions, |t.versions|, p)
  {
    SuccessfulActivation(s, k, rollback, now, t);
    TargetIsFirst(t.versions, |t.versions|, p);
    hide Next, RollbackTarget, ActiveOf, Promote, Newer, FirstRetired;
    if Protected(t.versions, p) {
      forall actions: seq<Action>, n: nat | NoPromotion(t, actions) && n <= |actions|
        ensures ArchiveRefused(Run(t, actions, n).versions, p)
      {
        ProtectionLasts(t, actions, n, p);
      }
    } else {
      assert NoPromotion(t, []) && Run(t, [], 0) == t;
      assert !ArchiveRefused(Run(t, [], 0).versions, p);
    }
  }

  /** Stamps out of lock order leave the previous version unprotected: the second of
      three activations read its clock first, and its version can then be archived. */
  lemma {:induction false} OutOfOrderStampsLoseIt()
    ensures var actions := [Register(1), Register(2), Register(3), Activate(0, false, true, 10),
                            Activate(1, false, true, 5), Activate(2, false, true, 20)];
      var s := Run(Initial(), actions, 6);
      && s.previous == Some(1) && |s.versions| == 3 && s.versions[1].status.Retired?
      && !ArchiveRefused(s.versions, 1)
      && Next(s, Archive(1)).versions[1].status.Archived?
  {
    var actions := [Register(1), Register(2), Register(3), Activate(0, false, true, 10),
                    Activate(1, false, true, 5), Activate(2, false, true, 20)];
    var v0, v1, v2 := Version(Eligible, Never, 1), Version(Eligible, Never, 2), Version(Eligible, Never, 3);
    var a0, r0 := Version(Active, At(10), 1), Version(Retired, At(10), 1);
    var a1, r1 := Version(Active, At(5), 2), Version(Retired, At(5), 2);
    var a2 := Version(Active, At(20), 3);
    var s3 := State([v0, v1, v2], Missing, None);
    var s4 := State([a0, v1, v2], Deployment(0, Some(0), Available, 10), None);
    var s5 := State([r0, a1, v2], Deployment(1, Some(1), Available, 5), Some(0));
    var s6 := State([r0, r1, a2], Deployment(2, Some(2), Available, 20), Some(1));
    assert Run(Initial(), actions, 3) == s3 by {
      assert Run(Initial(), actions, 1) == State([v0], Missing, None);
      assert Run(Initial(), actions, 2) == State([v0, v1], Missing, None);
    }
    NoneActive(s3.versions);
    FirstActivation(s3, s4);
    NextActivation(s4, s5, 0, 1, 5);
    NextActivation(s5, s6, 1, 2, 20);
    hide Next, ActiveOf;
    assert Run(Initial(), actions, 4) == Next(s3, actions[3]);
    assert Run(Initial(), actions, 5) == Next(s4, actions[4]);
    assert Run(Initial(), actions, 6) == Next(s5, actions[5]);
    UnprotectedPrevious(s6);
  }

  lemma FirstActivation(s: State, t: State)
    requires |s.versions| == |t.versions| == 3 && s.versions[0].status.Eligible?
    requires ActiveOf(s.versions, 3) == None && t.previous == None
    requires t.deployment == Deployment(0, Some(0), Available, 10)
    requires t.versions == s.versions[0 := s.versions[0].(status := Active, activated := At(10))]
    ensures Next(s, Activate(0, false, true, 10)) == t
  {
    hide ActiveOf;
    assert Promote(s.versions, 0, 10) == t.versions;
  }

  lemma {:induction false} NextActivation(s: State, t: State, was: nat, k: nat, now: int)
    requires |s.versions| == |t.versions| == 3 && was < 3 && k < 3 && k != was && s.versions[k].status.Eligible?
    requires s.versions[was].status.Active? && forall j :: 0 <= j < 3 && j != was ==> !s.versions[j].status.Active?
    requires t.deployment == Deployment(k, Some(k), Available, now) && t.previous == Some(was)
    requires t.versions == s.versions[was := s.versions[was].(status := Retired)]
                             [k := s.versions[k].(status := Active, activated := At(now))]
    ensures Next(s, Activate(k, false, true, now)) == t
  {
    ActiveIs(s.versions, 3, was);
    hide ActiveOf;
    assert Promote(s.versions, k, now) == t.versions;
  }

  lemma UnprotectedPrevious(s: State)
    requires |s.versions| == 3 && s.versions[0].status.Retired? && s.versions[1].status.Retired?
    requires s.versions[2].status.Active?
    requires Newer(s.versions[0], s.versions[1])
    ensures !ArchiveRefused(s.versions, 1) && Next(s, Archive(1)).versions[1].status.Archived?
  {
    TargetIsNewest(s.versions, 3, 0);
    hide RollbackTarget, ActiveOf;
  }

  lemma NoneActive(versions: seq<Version>)
    requires forall k :: 0 <= k < |versions| ==> !versions[k].status.Active?
    ensures ActiveOf(versions, |versions|) == None
  {
  }

  // ---- the service -----------------------------------------------------------------------------

  datatype Answer = Done | Already | NotFound | NotEligible | NotReady | Conflict | ProtectedTarget

  class Registry {
    var versions: seq<Version>
    var deployment: Deployment
    ghost var previous: Choice

    ghost function Abs(): State
      reads this
    {
      State(versions, deployment, previous)
    }

    ghost predicate Valid()
      reads this
    {
      Inv(Abs())
    }

    constructor ()
      ensures Valid() && Abs() == Initial()
    {
      versions := [];
      deployment := Missing;
      previous := None;
    }

    method RegisterModelVersion(created: int)
      requires Valid()
      modifies this
      ensures Valid() && Abs() == Next(old(Abs()), Register(created))
    {
      StepKeepsInv(Abs(), Register(created));
      hide Inv;
      versions := versions + [Version(Eligible, Never, created)];
    }

    /** `activate_model_version` and, with `rollback`, `rollback_model`; `ready` is the
        verdict of the readiness validation. */
    method ActivateModelVersion(k: nat, rollback: bool, ready: bool, now: int) returns (answer: Answer)
      requires Valid()
      modifies this
      ensures Valid() && Abs() == Next(old(Abs()), Activate(k, rollback, ready, now))
      ensures answer.NotFound? <==> k >= |old(versions)|
      ensures answer.Already? <==> k < |old(versions)| && old(versions)[k].status.Active? && !rollback
      ensures answer.NotEligible? <==>
        (k < |old(versions)| && Refused(old(versions), k, rollback) && (old(versions)[k].status.Active? ==> rollback))
      ensures answer.NotReady? <==> !Refused(old(versions), k, rollback) && !ready
      ensures answer.Done? <==> !Refused(old(versions), k, rollback) && ready
    {
      StepKeepsInv(Abs(), Activate(k, rollback, ready, now));
      hide Inv, ActiveOf;
      if k >= |versions| { return NotFound; }
      if versions[k].status.Active? && !rollback { return Already; }
      if versions[k].status != (if rollback then Retired else Eligible) { return NotEligible; }
      var previousActive := ActiveOf(versions, |versions|);
      if !ready {
        SetDeployment(k, previousActive, Degraded, now);
        return NotReady;
      }
      versions := RetireActive(versions, |versions|);
      versions := versions[k := versions[k].(status := Active, activated := At(now))];
      previous := previousActive;
      SetDeployment(k, Some(k), Available, now);
      answer := Done;
    }

    /** `_set_deployment`. */
    method SetDeployment(desired: nat, active: Choice, health: Health, now: int)
      modifies this`deployment
      ensures deployment == Deployment(desired, active, health, now)
    {
      deployment := Deployment(desired, active, health, now);
    }

    /** `archive_model_version`. */
    method ArchiveModelVersion(k: nat) returns (answer: Answer)
      requires Valid()
      modifies this
      ensures Valid() && Abs() == Next(old(Abs()), Archive(k))
      ensures answer.NotFound? <==> k >= |old(versions)|
      ensures answer.Conflict? <==> k < |old(versions)| && old(versions)[k].status.Active?
      ensures answer.Done? <==> !ArchiveRefused(old(versions), k)
      ensures answer.ProtectedTarget? <==> k < |old(versions)| && Protected(old(versions), k)
    {
      StepKeepsInv(Abs(), Archive(k));
      hide Inv, ActiveOf, RollbackTarget;
      if k >= |versions| { return NotFound; }
      if versions[k].status.Active? { return Conflict; }
      if versions[k].status.Retired? {
        var active := ActiveOf(versions, |versions|);
        var kept := RollbackTarget(versions, |versions|);
        if active.Some? && kept == Some(k) { return ProtectedTarget; }
      }
      versions := versions[k := versions[k].(status := Archived)];
      answer := Done;
    }
  }
}
