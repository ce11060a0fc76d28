/** The durable training queue: submission and cancellation (`models_reg/service.py`), the claim function of migration
    0017 and the worker's transactions (`dgsr/worker.py`), each one step; rows are numbered in creation order. */
module TrainingQueue {
  import opened Sorting

  datatype Status = Queued | Running | Succeeded | Failed | Cancelled

  datatype Stage = Waiting | Preparing | InPhase(name: string) | RequeuedOnShutdown | RetryScheduled
                 | Completed | StageFailed | StageCancelled

  datatype Heartbeat = Never | At(time: int)

  datatype Job = Job(tenant: nat, status: Status, stage: Stage, attempts: nat, progress: nat,
                     cancelRequested: bool, heartbeat: Heartbeat)

  datatype Worker = Idle | Working(job: nat)

  /** `claims` and `handBacks` count, per job, how often it was claimed and how often
      a shutdown handed it back. */
  datatype State = State(jobs: seq<Job>, worker: Worker, claims: seq<nat>, handBacks: seq<nat>)

  /** Why a run of a job ended without success. */
  datatype Cause = CancelledByTenant | ShuttingDown | Transient | Deterministic

  datatype Action =
    | Submit(tenant: nat, admitted: bool)
    | Cancel(job: nat)
    | Claim(now: int, active: set<nat>)
    | Pulse(stage: Stage, percent: nat, now: int)
    | Succeed
    | Fail(cause: Cause)
    | Crash

  const MAX_ATTEMPTS := 2
  const STALE_SECONDS := 300

  predicate Terminal(s: Status) { s.Succeeded? || s.Failed? || s.Cancelled? }

  predicate Busy(jobs: seq<Job>, tenant: nat) {
    exists j :: 0 <= j < |jobs| && jobs[j].tenant == tenant && !Terminal(jobs[j].status)
  }

  function NewJob(tenant: nat): Job { Job(tenant, Queued, Waiting, 0, 0, false, Never) }

  // ---- claiming ------------------------------------------------------------------

  /** A running job whose heartbeat is more than five minutes old. */
  predicate Stale(j: Job, now: int) {
    j.status.Running? && j.heartbeat.At? && j.heartbeat.time < now - STALE_SECONDS
  }

  /** The first UPDATE: back to the queue while attempts remain, otherwise failed. */
  function Requeued(j: Job, now: int): Job {
    if Stale(j, now) then j.(status := if j.attempts < MAX_ATTEMPTS then Queued else Failed) else j
  }

  function RequeueStale(jobs: seq<Job>, now: int, n: nat): (r: seq<Job>)
    requires n <= |jobs|
    ensures |r| == n
    ensures forall k {:trigger r[k]} :: 0 <= k < n ==> r[k] == Requeued(jobs[k], now)
  {
    if n == 0 then [] else RequeueStale(jobs, now, n - 1) + [Requeued(jobs[n - 1], now)]
  }

  predicate Claimable(j: Job, active: set<nat>) { j.status.Queued? && j.tenant in active }

  /** The oldest queued job of an active tenant, or the number of jobs. */
  function Oldest(jobs: seq<Job>, active: set<nat>, from: nat): (k: nat)
    requires from <= |jobs|
    ensures from <= k <= |jobs|
    ensures k < |jobs| ==> Claimable(jobs[k], active)
    ensures forall j :: from <= j < k ==> !Claimable(jobs[j], active)
    decreases |jobs| - from
  {
    if from == |jobs| || Claimable(jobs[from], active) then from else Oldest(jobs, active, from + 1)
  }

  /** The second UPDATE. */
  function Claimed(j: Job, now: int): Job {
    j.(status := Running, stage := Preparing, heartbeat := At(now), attempts := j.attempts + 1)
  }

  // ---- the worker's transactions ----------------------------------------------------

  /** `max(0, attempts - 1)`. */
  function GivenBack(attempts: nat): nat { if attempts > 0 then attempts - 1 else 0 }

  /** `finish_failed_job`. */
  function Finished(j: Job, cause: Cause): Job {
    if cause.ShuttingDown? then
      j.(status := Queued, stage := RequeuedOnShutdown, attempts := GivenBack(j.attempts), heartbeat := Never)
    else if cause.Transient? && j.attempts < MAX_ATTEMPTS then
      j.(status := Queued, stage := RetryScheduled, heartbeat := Never)
    else if cause.CancelledByTenant? then j.(status := Cancelled, stage := StageCancelled)
    else j.(status := Failed, stage := StageFailed)
  }

  function Update(s: State, k: nat, j: Job): State
    requires k < |s.jobs|
  {
    s.(jobs := s.jobs[k := j])
  }

  predicate Shaped(s: State) {
    |s.claims| == |s.handBacks| == |s.jobs| && (s.worker.Working? ==> s.worker.job < |s.jobs|)
  }

  /** One transaction. A step whose guard fails changes nothing. */
  function Next(s: State, a: Action): State
    requires Shaped(s)
  {
    match a
    case Submit(tenant, admitted) =>
      if Busy(s.jobs, tenant) || !admitted then s
      else s.(jobs := s.jobs + [NewJob(tenant)], claims := s.claims + [0], handBacks := s.handBacks + [0])
    case Cancel(k) =>
      if k >= |s.jobs| || Terminal(s.jobs[k].status) then s
      else if s.jobs[k].status.Queued? then
        Update(s, k, s.jobs[k].(cancelRequested := true, status := Cancelled, stage := StageCancelled))
      else Update(s, k, s.jobs[k].(cancelRequested := true))
    case Claim(now, active) =>
      if s.worker.Working? then s
      else
        var jobs := RequeueStale(s.jobs, now, |s.jobs|);
        var k := Oldest(jobs, active, 0);
        if k == |jobs| then s.(jobs := jobs)
        else s.(jobs := jobs[k := Claimed(jobs[k], now)], worker := Working(k),
                claims := s.claims[k := s.claims[k] + 1])
    case Pulse(stage, percent, now) =>
      if s.worker.Idle? || s.jobs[s.worker.job].cancelRequested || percent > 100 then s
      else
        var j := s.jobs[s.worker.job];
        Update(s, s.worker.job, j.(stage := stage, progress := Larger(j.progress, percent), heartbeat := At(now)))
    case Succeed =>
      if s.worker.Idle? || s.jobs[s.worker.job].cancelRequested then s
      else Update(s, s.worker.job, s.jobs[s.worker.job].(status := Succeeded, stage := Completed, progress := 100))
             .(worker := Idle)
    case Fail(cause) =>
      if s.worker.Idle? || (cause.CancelledByTenant? && !s.jobs[s.worker.job].cancelRequested) then s
      else
        var k := s.worker.job;
        var t := Update(s, k, Finished(s.jobs[k], cause)).(worker := Idle);
        if cause.ShuttingDown? then t.(handBacks := t.handBacks[k := t.handBacks[k] + 1]) else t
    case Crash => s.(worker := Idle)
  }

  function Initial(): State { State([], Idle, [], []) }

  // ---- the invariant ------------------------------------------------------------------

  /** One job's row against its history. */
  ghost predicate JobOk(j: Job, claims: nat, handBacks: nat) {
    && (j.status.Queued? ==> j.attempts <= 1)
    && (j.status.Running? ==> 1 <= j.attempts && j.heartbeat.At?)
    && j.attempts <= MAX_ATTEMPTS
    && claims == j.attempts + handBacks
    && j.progress <= 100
    && (j.status.Succeeded? ==> !j.cancelRequested && j.progress == 100)
  }

  ghost predicate AllOk(s: State)
    requires Shaped(s)
  {
    forall k :: 0 <= k < |s.jobs| ==> JobOk(s.jobs[k], s.claims[k], s.handBacks[k])
  }

  /** A tenant has at most one queued or running job. */
  ghost predicate OnePerTenant(jobs: seq<Job>) {
    forall j, k :: 0 <= j < k < |jobs| && !Terminal(jobs[j].status) && !Terminal(jobs[k].status) ==>
      jobs[j].tenant != jobs[k].tenant
  }

  ghost predicate Inv(s: State) {
    && Shaped(s) && AllOk(s) && OnePerTenant(s.jobs)
    && (s.worker.Working? ==> s.jobs[s.worker.job].status.Running?)
  }

  /** Every job keeps its tenant and stays ended once ended. */
  ghost predicate KeepsEnded(a: seq<Job>, b: seq<Job>) {
    && |b| == |a|
    && forall k :: 0 <= k < |a| ==> b[k].tenant == a[k].tenant && (Terminal(a[k].status) ==> Terminal(b[k].status))
  }

  lemma KeepsOnePerTenant(a: seq<Job>, b: seq<Job>)
    requires OnePerTenant(a) && KeepsEnded(a, b)
    ensures OnePerTenant(b)
  {
  }

  lemma {:induction false} ClaimKeepsInv(s: State, now: int, active: set<nat>)
    requires Inv(s)
    ensures Inv(Next(s, Claim(now, active)))
  {
    var t := Next(s, Claim(now, active));
    hide RequeueStale, Oldest;
    KeepsOnePerTenant(s.jobs, t.jobs);
  }

  lemma {:induction false} SubmitKeepsInv(s: State, tenant: nat, admitted: bool)
    requires Inv(s)
    ensures Inv(Next(s, Submit(tenant, admitted)))
  {
  }

  /** The actions that rewrite one row. */
  lemma {:induction false} RowKeepsInv(s: State, a: Action)
    requires Inv(s) && !a.Submit? && !a.Claim?
    ensures Inv(Next(s, a))
  {
    var t := Next(s, a);
    RowKeepsOk(s, a);
    assert KeepsEnded(s.jobs, t.jobs) by { hide JobOk, Busy, Oldest, RequeueStale; }
    hide JobOk, AllOk, Busy, Oldest, RequeueStale;
    KeepsOnePerTenant(s.jobs, t.jobs);
  }

  lemma {:induction false} RowKeepsOk(s: State, a: Action)
    requires Inv(s) && !a.Submit? && !a.Claim?
    ensures AllOk(Next(s, a))
  {
    hide Busy, Oldest, RequeueStale;
    if s.worker.Working? { assert JobOk(s.jobs[s.worker.job], s.claims[s.worker.job], s.handBacks[s.worker.job]); }
  }

  lemma {:induction false} StepKeepsInv(s: State, a: Action)
    requires Inv(s)
    ensures Inv(Next(s, a))
  {
    assert Shaped(s);
    hide Inv, Next;
    match a {
      case Submit(tenant, admitted) => SubmitKeepsInv(s, tenant, admitted);
      case Claim(now, active) => ClaimKeepsInv(s, now, active);
      case _ => RowKeepsInv(s, a);
    }
  }

  function Run(s: State, actions: seq<Action>, n: nat): (t: State)
    requires Shaped(s) && n <= |actions|
    ensures Shaped(t)
  {
    if n == 0 then s
    else
      ShapedNext(Run(s, actions, n - 1), actions[n - 1]);
      Next(Run(s, actions, n - 1), actions[n - 1])
  }

  lemma {:induction false} ShapedNext(s: State, a: Action)
    requires Shaped(s)
    ensures Shaped(Next(s, a))
  {
    hide RequeueStale, Oldest, Busy;
  }

  /** Over every run: queued jobs have at most one attempt and running ones one or two,
      claims are attempts plus shutdown hand-backs, and a tenant has one open job. */
  lemma {:induction false} RunKeepsInv(s: State, actions: seq<Action>, n: nat)
    requires Inv(s) && n <= |actions|
    ensures Inv(Run(s, actions, n))
  {
    assert Shaped(s);
    hide Inv, Next;
    if n > 0 {
      RunKeepsInv(s, actions, n - 1);
      StepKeepsInv(Run(s, actions, n - 1), actions[n - 1]);
    }
  }

  lemma InitialInv()
    ensures Inv(Initial())
  {
  }

  // ---- what each step records ------------------------------------------------------------

  /** A submission that is admitted appends a queued, unclaimed job if every job of the
      tenant has ended; otherwise nothing changes. */
  lemma SubmitRecords(s: State, tenant: nat, admitted: bool)
    requires Shaped(s)
    ensures var t := Next(s, Submit(tenant, admitted));
      if admitted && forall j :: 0 <= j < |s.jobs| && s.jobs[j].tenant == tenant ==>
                       s.jobs[j].status == Succeeded || s.jobs[j].status == Failed || s.jobs[j].status == Cancelled
      then t == State(s.jobs + [Job(tenant, Queued, Waiting, 0, 0, false, Never)], s.worker, s.claims + [0],
                      s.handBacks + [0])
      else t == s
  {
  }

  /** One row of `s` rewritten, the worker and the counters as given. */
  ghost predicate Rewritten(s: State, t: State, k: nat, j: Job, worker: Worker) {
    && k < |s.jobs| && |t.jobs| == |s.jobs| && t.jobs[k] == j
    && (forall i :: 0 <= i < |s.jobs| && i != k ==> t.jobs[i] == s.jobs[i])
    && t.worker == worker
  }

  /** Cancelling ends a queued job, asks a running one to stop, and leaves an ended one. */
  lemma CancelRecords(s: State, k: nat, t: State)
    requires Shaped(s) && k < |s.jobs| && t == Next(s, Cancel(k))
    ensures s.jobs[k].status == Queued ==>
      Rewritten(s, t, k, s.jobs[k].(cancelRequested := true, status := Cancelled, stage := StageCancelled), s.worker)
    ensures s.jobs[k].status == Running ==> Rewritten(s, t, k, s.jobs[k].(cancelRequested := true), s.worker)
    ensures s.jobs[k].status != Queued && s.jobs[k].status != Running ==> t == s
    ensures t.claims == s.claims && t.handBacks == s.handBacks
  {
  }

  /** A running job whose heartbeat is more than 300 seconds old goes back to the queue, or
      has failed if it was claimed twice already; any other job is left alone. */
  ghost predicate Revived(a: Job, b: Job, now: int) {
    if a.status == Running && a.heartbeat.At? && now - a.heartbeat.time > 300
    then b == a.(status := if a.attempts < 2 then Queued else Failed)
    else b == a
  }

  /** A claim revives every stale job and then takes the oldest queued job of an active
      tenant, if there is one: running, preparing, alive now, claimed once more. */
  lemma {:induction false} ClaimRecords(s: State, now: int, active: set<nat>, t: State)
    requires Shaped(s) && s.worker == Idle && t == Next(s, Claim(now, active))
    ensures |t.jobs| == |s.jobs| && t.handBacks == s.handBacks
    ensures t.worker == Idle ==> t.claims == s.claims && forall j :: 0 <= j < |s.jobs| ==>
      Revived(s.jobs[j], t.jobs[j], now) && !(t.jobs[j].status == Queued && t.jobs[j].tenant in active)
    ensures t.worker != Idle ==>
      && (exists before :: TakesOldest(s, t, now, active, t.worker.job, before))
      && t.claims == s.claims[t.worker.job := s.claims[t.worker.job] + 1]
  {
    var jobs := RequeueStale(s.jobs, now, |s.jobs|);
    var k := Oldest(jobs, active, 0);
    hide RequeueStale, Oldest;
    if k < |jobs| { assert TakesOldest(s, t, now, active, k, jobs[k]); }
  }

  /** The worker took job `k`, whose row was `before` once stale jobs were revived. */
  ghost predicate TakesOldest(s: State, t: State, now: int, active: set<nat>, k: nat, before: Job) {
    && k < |s.jobs| == |t.jobs| == |s.claims| && t.worker == Working(k)
    && Revived(s.jobs[k], before, now) && before.status == Queued && before.tenant in active
    && t.jobs[k] == before.(status := Running, stage := Preparing, heartbeat := At(now),
                            attempts := before.attempts + 1)
    && (forall j :: 0 <= j < |s.jobs| && j != k ==> Revived(s.jobs[j], t.jobs[j], now))
    && (forall j :: 0 <= j < k ==> !(t.jobs[j].status == Queued && t.jobs[j].tenant in active))
  }

  /** A busy worker claims nothing. */
  lemma BusyClaimsNothing(s: State, now: int, active: set<nat>)
    requires Shaped(s) && s.worker.Working?
    ensures Next(s, Claim(now, active)) == s
  {
  }

  /** A pulse of a job nobody cancelled records its stage and heartbeat, and its progress
      unless that was further on. */
  lemma PulseRecords(s: State, k: nat, stage: Stage, percent: nat, now: int)
    requires Shaped(s) && s.worker == Working(k) && !s.jobs[k].cancelRequested && percent <= 100
    ensures var t, j := Next(s, Pulse(stage, percent, now)), s.jobs[k];
      && Rewritten(s, t, k, j.(stage := stage, heartbeat := At(now),
                               progress := if percent > j.progress then percent else j.progress), s.worker)
      && t.claims == s.claims && t.handBacks == s.handBacks
  {
  }

  /** Success of a job nobody cancelled is recorded as success, and frees the worker. */
  lemma SuccessRecords(s: State, k: nat)
    requires Shaped(s) && s.worker == Working(k) && !s.jobs[k].cancelRequested
    ensures var t := Next(s, Succeed);
      && Rewritten(s, t, k, s.jobs[k].(status := Succeeded, stage := Completed, progress := 100), Idle)
      && t.claims == s.claims && t.handBacks == s.handBacks
  {
  }

  /** A cancel request stops a job from reporting progress or success. */
  lemma CancelledIsBlocked(s: State, k: nat, stage: Stage, percent: nat, now: int)
    requires Shaped(s) && s.worker == Working(k) && s.jobs[k].cancelRequested
    ensures Next(s, Pulse(stage, percent, now)) == s && Next(s, Succeed) == s
  {
  }

  /** The ways a run ends without success: a shutdown gives the claim back, a transient
      failure is retried once, a requested cancellation is final, and so is the rest. */
  lemma FailureRecords(s: State, k: nat, cause: Cause, t: State)
    requires Shaped(s) && s.worker == Working(k) && t == Next(s, Fail(cause))
    requires cause == CancelledByTenant ==> s.jobs[k].cancelRequested
    ensures cause == ShuttingDown ==>
      && Rewritten(s, t, k, s.jobs[k].(status := Queued, stage := RequeuedOnShutdown, heartbeat := Never,
                                       attempts := if s.jobs[k].attempts > 0 then s.jobs[k].attempts - 1 else 0), Idle)
      && t.handBacks == s.handBacks[k := s.handBacks[k] + 1]
    ensures cause == Transient && s.jobs[k].attempts < 2 ==>
      Rewritten(s, t, k, s.jobs[k].(status := Queued, stage := RetryScheduled, heartbeat := Never), Idle)
    ensures cause == CancelledByTenant ==>
      Rewritten(s, t, k, s.jobs[k].(status := Cancelled, stage := StageCancelled), Idle)
    ensures cause == Deterministic || (cause == Transient && s.jobs[k].attempts >= 2) ==>
      Rewritten(s, t, k, s.jobs[k].(status := Failed, stage := StageFailed), Idle)
    ensures t.claims == s.claims && (cause != ShuttingDown ==> t.handBacks == s.handBacks)
  {
  }

  /** A worker that dies changes no row; its job stays running until it is stale. */
  lemma CrashRecords(s: State)
    requires Shaped(s)
    ensures Next(s, Crash) == State(s.jobs, Idle, s.claims, s.handBacks)
  {
  }

  // ---- what never changes ---------------------------------------------------------------

  /** One job from one state to a later one. */
  ghost predicate Later(a: Job, b: Job) {
    && a.tenant == b.tenant
    && (Terminal(a.status) ==> b == a)
    && (a.cancelRequested ==> b.cancelRequested)
    && a.progress <= b.progress
  }

  lemma {:induction false} StepMovesForward(s: State, a: Action, k: nat)
    requires Inv(s) && k < |s.jobs|
    ensures k < |Next(s, a).jobs| && Later(s.jobs[k], Next(s, a).jobs[k])
  {
    hide RequeueStale, Oldest, Busy;
    assert JobOk(s.jobs[k], s.claims[k], s.handBacks[k]);
  }

  /** Terminal rows never change, cancel requests stay recorded and progress never
      goes back, over every run. */
  lemma {:induction false} RunMovesForward(s: State, actions: seq<Action>, n: nat, k: nat)
    requires Inv(s) && n <= |actions| && k < |s.jobs|
    ensures k < |Run(s, actions, n).jobs| && Later(s.jobs[k], Run(s, actions, n).jobs[k])
  {
    assert Shaped(s);
    hide Inv, Next;
    if n > 0 {
      RunMovesForward(s, actions, n - 1, k);
      RunKeepsInv(s, actions, n - 1);
      StepMovesForward(Run(s, actions, n - 1), actions[n - 1], k);
    }
  }

  /** A job with a recorded cancel request never succeeds. */
  lemma {:induction false} CancelledNeverSucceeds(s: State, actions: seq<Action>, k: nat)
    requires Inv(s) && k < |s.jobs| && s.jobs[k].cancelRequested
    ensures k < |Run(s, actions, |actions|).jobs| && !Run(s, actions, |actions|).jobs[k].status.Succeeded?
  {
    RunMovesForward(s, actions, |actions|, k);
    RunKeepsInv(s, actions, |actions|);
    var t := Run(s, actions, |actions|);
    hide Run, Inv, Later;
    OkAt(t, k);
    LaterParts(s.jobs[k], t.jobs[k]);
  }

  lemma OkAt(s: State, k: nat)
    requires Inv(s) && k < |s.jobs|
    ensures Shaped(s) && JobOk(s.jobs[k], s.claims[k], s.handBacks[k])
  {
  }

  lemma LaterParts(a: Job, b: Job)
    requires Later(a, b)
    ensures a.cancelRequested ==> b.cancelRequested
  {
  }

  /** A job is claimed at most twice, not counting claims given back at shutdown. */
  lemma {:induction false} ClaimBudget(actions: seq<Action>, k: nat)
    requires k < |Run(Initial(), actions, |actions|).jobs|
    ensures var s := Run(Initial(), actions, |actions|); s.claims[k] <= MAX_ATTEMPTS + s.handBacks[k]
  {
    InitialInv();
    RunKeepsInv(Initial(), actions, |actions|);
    OkAt(Run(Initial(), actions, |actions|), k);
  }

  /** No claim overtakes an older claimable job. */
  lemma {:induction false} ClaimsInOrder(s: State, now: int, active: set<nat>, j: nat)
    requires Inv(s) && s.worker.Idle? && j < |s.jobs| && Claimable(s.jobs[j], active)
    ensures var t := Next(s, Claim(now, active)); t.worker.Working? && t.worker.job <= j
  {
    hide OnePerTenant, AllOk;
    assert Requeued(s.jobs[j], now) == s.jobs[j] == RequeueStale(s.jobs, now, |s.jobs|)[j];
  }

  /** A job abandoned by a dead worker is never lost: the next claim ends it if its
      attempts are used up, and otherwise makes it claimable again. */
  lemma {:induction false} AbandonedIsRecovered(s: State, now: int, active: set<nat>, k: nat)
    requires Inv(s) && s.worker.Idle? && k < |s.jobs| && Stale(s.jobs[k], now)
    ensures var t := Next(s, Claim(now, active));
      && |t.jobs| == |s.jobs|
      && (s.jobs[k].attempts == MAX_ATTEMPTS ==> t.jobs[k].status.Failed?)
      && (s.jobs[k].attempts < MAX_ATTEMPTS ==> t.jobs[k].status.Queued? || t.worker == Working(k))
  {
    hide OnePerTenant;
    assert JobOk(s.jobs[k], s.claims[k], s.handBacks[k]);
    assert RequeueStale(s.jobs, now, |s.jobs|)[k] == Requeued(s.jobs[k], now);
  }

  /** A cancel request ends a queued job at once, and from then on a running one can
      neither report progress nor succeed. */
  lemma CancelTakesEffect(s: State, k: nat, t: State)
    requires Inv(s) && k < |s.jobs| && !Terminal(s.jobs[k].status) && t == Next(s, Cancel(k))
    ensures |t.jobs| == |s.jobs| && t.jobs[k].cancelRequested
    ensures s.jobs[k].status.Queued? ==> t.jobs[k].status.Cancelled?
    ensures s.worker == Working(k) ==>
      && Next(t, Succeed) == t
      && (forall stage, percent, now :: Next(t, Pulse(stage, percent, now)) == t)
      && Next(t, Fail(CancelledByTenant)).jobs[k].status.Cancelled?
  {
    hide AllOk, OnePerTenant, Busy;
  }

  /** How a run ends a job: a deterministic failure ends it, a transient one ends it
      exactly on its second claim that was not handed back, and a shutdown gives the
      claim back, so that the next one starts from the same count. */
  lemma RunOutcomes(s: State, cause: Cause, k: nat, t: State)
    requires Inv(s) && s.worker == Working(k) && t == Next(s, Fail(cause)) && !cause.CancelledByTenant?
    ensures t.worker.Idle? && |t.jobs| == |s.jobs|
    ensures Terminal(t.jobs[k].status) <==>
      cause.Deterministic? || (cause.Transient? && s.claims[k] - s.handBacks[k] == MAX_ATTEMPTS)
    ensures Terminal(t.jobs[k].status) ==> t.jobs[k].status.Failed?
    ensures cause.ShuttingDown? ==> Claimed(t.jobs[k], 0).attempts == s.jobs[k].attempts
  {
    OkAt(s, k);
    hide AllOk, OnePerTenant, Busy;
  }

  // ---- the service and the worker ----------------------------------------------------------

  class Queue {
    var jobs: seq<Job>
    var worker: Worker
    ghost var claims: seq<nat>
    ghost var handBacks: seq<nat>

    ghost function Abs(): State
      reads this
    {
      State(jobs, worker, claims, handBacks)
    }

    ghost predicate Valid()
      reads this
    {
      Inv(Abs())
    }

    constructor ()
      ensures Valid() && Abs() == Initial()
    {
      jobs := [];
      worker := Idle;
      claims := [];
      handBacks := [];
    }

    /** `create_training_job` in train mode: `admitted` stands for the capacity,
        snapshot and cooldown checks. */
    method CreateTrainingJob(tenant: nat, admitted: bool) returns (ok: bool)
      requires Valid()
      modifies this
      ensures Valid() && Abs() == Next(old(Abs()), Submit(tenant, admitted))
      ensures ok == (admitted && !Busy(old(jobs), tenant))
    {
      StepKeepsInv(Abs(), Submit(tenant, admitted));
      hide Inv, Busy;
      ok := admitted && !Busy(jobs, tenant);
      if ok {
        jobs := jobs + [NewJob(tenant)];
        claims := claims + [0];
        handBacks := handBacks + [0];
      }
    }

    /** `cancel_training`. */
    method CancelTraining(k: nat) returns (ok: bool)
      requires Valid()
      modifies this
      ensures Valid() && Abs() == Next(old(Abs()), Cancel(k))
      ensures ok == (k < |old(jobs)| && !Terminal(old(jobs)[k].status))
    {
      StepKeepsInv(Abs(), Cancel(k));
      hide Inv;
      if k >= |jobs| || Terminal(jobs[k].status) { return false; }
      var job := jobs[k];
      job := job.(cancelRequested := true);
      if job.status.Queued? { job := job.(status := Cancelled, stage := StageCancelled); }
      jobs := jobs[k := job];
      ok := true;
    }

    /** `claim_training_job`: requeue what a dead worker left, then take the oldest. */
    method ClaimTrainingJob(now: int, active: set<nat>) returns (found: bool)
      requires Valid() && worker.Idle?
      modifies this
      ensures Valid() && Abs() == Next(old(Abs()), Claim(now, active))
      ensures found == worker.Working?
    {
      StepKeepsInv(Abs(), Claim(now, active));
      assert Shaped(Abs());
      hide Inv;
      jobs := RequeueStale(jobs, now, |jobs|);
      var k := Oldest(jobs, active, 0);
      found := k < |jobs|;
      if found {
        jobs := jobs[k := Claimed(jobs[k], now)];
        worker := Working(k);
        claims := claims[k := claims[k] + 1];
      }
    }

    /** `progress`; `cancelled` where it raises. */
    method Progress(stage: Stage, percent: nat, now: int) returns (cancelled: bool)
      requires Valid() && worker.Working? && percent <= 100
      modifies this
      ensures Valid() && Abs() == Next(old(Abs()), Pulse(stage, percent, now))
      ensures cancelled == old(jobs)[old(worker).job].cancelRequested
    {
      StepKeepsInv(Abs(), Pulse(stage, percent, now));
      assert Shaped(Abs());
      hide Inv;
      var job := jobs[worker.job];
      if job.cancelRequested { return true; }
      jobs := jobs[worker.job := job.(stage := stage, progress := Larger(job.progress, percent), heartbeat := At(now))];
      cancelled := false;
    }

    /** The transaction that ends `train_job`; `cancelled` where it raises. */
    method RecordSuccess() returns (cancelled: bool)
      requires Valid() && worker.Working?
      modifies this
      ensures Valid() && Abs() == Next(old(Abs()), Succeed)
      ensures cancelled == old(jobs)[old(worker).job].cancelRequested
    {
      StepKeepsInv(Abs(), Succeed);
      assert Shaped(Abs());
      hide Inv;
      var job := jobs[worker.job];
      if job.cancelRequested { return true; }
      jobs := jobs[worker.job := job.(status := Succeeded, stage := Completed, progress := 100)];
      worker := Idle;
      cancelled := false;
    }

    /** `finish_failed_job`; the tenant's cancellation is only raised once recorded. */
    method FinishFailedJob(cause: Cause) returns (status: Status)
      requires Valid() && worker.Working?
      requires cause.CancelledByTenant? ==> jobs[worker.job].cancelRequested
      modifies this
      ensures Valid() && Abs() == Next(old(Abs()), Fail(cause))
      ensures jobs[old(worker).job].status == status
    {
      StepKeepsInv(Abs(), Fail(cause));
      assert Shaped(Abs());
      hide Inv;
      var k := worker.job;
      var job := jobs[k];
      if cause.ShuttingDown? {
        job := job.(status := Queued, stage := RequeuedOnShutdown, attempts := GivenBack(job.attempts),
                    heartbeat := Never);
        handBacks := handBacks[k := handBacks[k] + 1];
      } else if cause.Transient? && job.attempts < MAX_ATTEMPTS {
        job := job.(status := Queued, stage := RetryScheduled, heartbeat := Never);
      } else if cause.CancelledByTenant? {
        job := job.(status := Cancelled, stage := StageCancelled);
      } else {
        job := job.(status := Failed, stage := StageFailed);
      }
      jobs := jobs[k := job];
      worker := Idle;
      status := job.status;
    }
  }
}
