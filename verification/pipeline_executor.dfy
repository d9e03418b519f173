/** The shared counters of `pipeline_executor.py`: each critical section as a method on the
    module's globals, and every interleaving of callers, workers, init and shutdown. */
module PipelineExecutor {
  import opened Options
  import opened Sizes

  type PoolId = nat
  type JobId = nat

  /** The module globals. */
  datatype Counters = Counters(
    executor: Option<PoolId>,
    maxWorkers: nat,
    active: nat,
    queued: nat,
    saturatedSince: Option<real>)

  // ----- critical sections on values -----------------------------------------------------

  predicate Saturated(c: Counters) {
    c.maxWorkers > 0 && c.active >= c.maxWorkers && c.queued > 0
  }

  function Refreshed(c: Counters, now: real): Counters {
    if Saturated(c) then
      if c.saturatedSince.None? then c.(saturatedSince := Some(now)) else c
    else c.(saturatedSince := None)
  }

  function Less(n: nat): nat {
    if n > 0 then n - 1 else 0
  }

  /** `max_workers <= 0` makes the pool constructor raise after `_max_workers` was set. */
  function Inited(c: Counters, maxWorkers: int, pool: PoolId): Counters {
    if c.executor.Some? then c
    else if maxWorkers <= 0 then c.(maxWorkers := 0)
    else c.(maxWorkers := maxWorkers, executor := Some(pool))
  }

  const STOPPED := Counters(None, 0, 0, 0, None)

  function Reserved(c: Counters, now: real): Counters {
    Refreshed(c.(queued := c.queued + 1), now)
  }

  function RolledBack(c: Counters, now: real): Counters {
    Refreshed(c.(queued := Less(c.queued)), now)
  }

  function Started(c: Counters, now: real): Counters {
    Refreshed(c.(queued := Less(c.queued), active := c.active + 1), now)
  }

  function Ended(c: Counters, now: real): Counters {
    Refreshed(c.(active := Less(c.active)), now)
  }

  // ----- critical sections on the globals ---------------------------------------------------

  class Globals {
    var executor: Option<PoolId>
    var maxWorkers: nat
    var activeWorkers: nat
    var queuedJobs: nat
    var saturatedSince: Option<real>

    function View(): Counters
      reads this
    {
      Counters(executor, maxWorkers, activeWorkers, queuedJobs, saturatedSince)
    }

    predicate SameLimits(before: Counters)
      reads this
    {
      executor == before.executor && maxWorkers == before.maxWorkers
    }

    /** All workers busy and someone waiting: the stamp stays, or is the clock; else there is none. */
    predicate StampFollows(since: Option<real>, now: real)
      reads this
    {
      saturatedSince ==
        if maxWorkers > 0 && activeWorkers >= maxWorkers && queuedJobs > 0 then
          (if since.Some? then since else Some(now))
        else None
    }

    constructor ()
      ensures View() == STOPPED
    {
      executor, maxWorkers, activeWorkers, queuedJobs, saturatedSince := None, 0, 0, 0, None;
    }

    /** `init_pipeline_executor`; `pool` is the identity of the pool it may create. */
    method Init(n: int, pool: PoolId) returns (raised: bool)
      modifies this
      ensures View() == Inited(old(View()), n, pool)
      ensures raised <==> old(executor).None? && n <= 0
      ensures activeWorkers == old(activeWorkers) && queuedJobs == old(queuedJobs) && saturatedSince == old(saturatedSince)
      ensures old(executor).Some? ==> executor == old(executor) && maxWorkers == old(maxWorkers)
      ensures old(executor).None? ==> executor == (if n > 0 then Some(pool) else None) && maxWorkers == (if n > 0 then n else 0)
    {
      if executor.Some? {
        return false;
      }
      maxWorkers := if n > 0 then n else 0;
      if n <= 0 {
        return true;
      }
      executor := Some(pool);
      return false;
    }

    /** The locked part of `shutdown_pipeline_executor`; returns the pool to stop. */
    method Shutdown() returns (pool: Option<PoolId>)
      modifies this
      ensures View() == STOPPED && pool == old(executor)
      ensures executor.None? && maxWorkers == 0 && activeWorkers == 0 && queuedJobs == 0 && saturatedSince.None?
    {
      pool := executor;
      executor, maxWorkers, activeWorkers, queuedJobs, saturatedSince := None, 0, 0, 0, None;
    }

    method RefreshSaturationLocked(now: real)
      modifies this
      ensures View() == Refreshed(old(View()), now)
      ensures SameLimits(old(View())) && activeWorkers == old(activeWorkers) && queuedJobs == old(queuedJobs)
      ensures StampFollows(old(saturatedSince), now)
    {
      if maxWorkers > 0 && activeWorkers >= maxWorkers && queuedJobs > 0 {
        if saturatedSince.None? {
          saturatedSince := Some(now);
        }
      } else {
        saturatedSince := None;
      }
    }

    /** `submit_pipeline_job` before it hands the job to the pool. */
    method Reserve(now: real)
      modifies this
      ensures View() == Reserved(old(View()), now)
      ensures SameLimits(old(View())) && activeWorkers == old(activeWorkers) && queuedJobs == old(queuedJobs) + 1
      ensures StampFollows(old(saturatedSince), now)
    {
      queuedJobs := queuedJobs + 1;
      RefreshSaturationLocked(now);
    }

    /** `submit_pipeline_job` after the pool refused the job. */
    method Rollback(now: real)
      modifies this
      ensures View() == RolledBack(old(View()), now)
      ensures SameLimits(old(View())) && activeWorkers == old(activeWorkers)
      ensures queuedJobs == if old(queuedJobs) > 0 then old(queuedJobs) - 1 else 0
      ensures StampFollows(old(saturatedSince), now)
    {
      queuedJobs := if queuedJobs - 1 > 0 then queuedJobs - 1 else 0;
      RefreshSaturationLocked(now);
    }

    /** `_run_tracked_job` before the job's function. */
    method Start(now: real)
      modifies this
      ensures View() == Started(old(View()), now)
      ensures SameLimits(old(View())) && activeWorkers == old(activeWorkers) + 1
      ensures queuedJobs == if old(queuedJobs) > 0 then old(queuedJobs) - 1 else 0
      ensures StampFollows(old(saturatedSince), now)
    {
      queuedJobs := if queuedJobs - 1 > 0 then queuedJobs - 1 else 0;
      activeWorkers := activeWorkers + 1;
      RefreshSaturationLocked(now);
    }

    /** `_run_tracked_job` after the job's function, whether it returned or raised. */
    method End(now: real)
      modifies this
      ensures View() == Ended(old(View()), now)
      ensures SameLimits(old(View())) && queuedJobs == old(queuedJobs)
      ensures activeWorkers == if old(activeWorkers) > 0 then old(activeWorkers) - 1 else 0
      ensures StampFollows(old(saturatedSince), now)
    {
      activeWorkers := if activeWorkers - 1 > 0 then activeWorkers - 1 else 0;
      RefreshSaturationLocked(now);
    }
  }

  // ----- all interleavings --------------------------------------------------------------------

  /** Where a job is. `Arrived`: its caller has read `_executor` without the lock. `Refused`: the
      pool raised and the caller has not yet rolled back. */
  datatype Phase = Arrived | Waiting | Refused | Pooled | Running | Done | Failed

  datatype Job = Job(pool: PoolId, phase: Phase)

  /** The globals and what is truly going on; `workers` is each pool's thread limit. */
  datatype System = System(c: Counters, jobs: map<JobId, Job>, workers: map<PoolId, nat>)

  datatype Action =
    | Init(n: int, pool: PoolId)
    | Shutdown
    | Arrive(job: JobId)
    | Reserve(job: JobId, now: real)
    | Enqueue(job: JobId)
    | Refuse(job: JobId)
    | Rollback(job: JobId, now: real)
    | Start(job: JobId, now: real)
    | End(job: JobId, now: real)

  function InPhase(s: System, phases: set<Phase>): set<JobId> {
    set j | j in s.jobs && s.jobs[j].phase in phases
  }

  function Pending(s: System): set<JobId> { InPhase(s, {Waiting, Refused, Pooled}) }

  function Busy(s: System): set<JobId> { InPhase(s, {Running}) }

  function BusyIn(s: System, pool: PoolId): set<JobId> {
    set j | j in Busy(s) && s.jobs[j].pool == pool
  }

  predicate At(s: System, j: JobId, p: Phase) {
    j in s.jobs && s.jobs[j].phase == p
  }

  function Moved(s: System, j: JobId, p: Phase, c: Counters): System
    requires j in s.jobs
  {
    s.(c := c, jobs := s.jobs[j := s.jobs[j].(phase := p)])
  }

  const IDLE := System(STOPPED, map[], map[])

  predicate Enabled(s: System, a: Action) {
    match a
    case Init(_, pool) => pool !in s.workers
    case Shutdown => true
    case Arrive(j) => j !in s.jobs && s.c.executor.Some?
    case Reserve(j, _) => At(s, j, Arrived)
    case Enqueue(j) => At(s, j, Waiting)
    case Refuse(j) => At(s, j, Waiting)
    case Rollback(j, _) => At(s, j, Refused)
    case Start(j, _) =>
      At(s, j, Pooled) && s.jobs[j].pool in s.workers && |BusyIn(s, s.jobs[j].pool)| < s.workers[s.jobs[j].pool]
    case End(j, _) => At(s, j, Running)
  }

  function Next(s: System, a: Action): System
    requires Enabled(s, a)
  {
    match a
    case Init(n, pool) =>
      s.(c := Inited(s.c, n, pool), workers := if s.c.executor.None? && n > 0 then s.workers[pool := n] else s.workers)
    case Shutdown => s.(c := STOPPED)
    case Arrive(j) => s.(jobs := s.jobs[j := Job(s.c.executor.value, Arrived)])
    case Reserve(j, now) => Moved(s, j, Waiting, Reserved(s.c, now))
    case Enqueue(j) => Moved(s, j, Pooled, s.c)
    case Refuse(j) => Moved(s, j, Refused, s.c)
    case Rollback(j, now) => Moved(s, j, Failed, RolledBack(s.c, now))
    case Start(j, now) => Moved(s, j, Running, Started(s.c, now))
    case End(j, now) => Moved(s, j, Done, Ended(s.c, now))
  }

  // ----- counters against jobs -------------------------------------------------------------------

  /** How far the counters lie below the truth. */
  function ActiveDeficit(s: System): int { |Busy(s)| - s.c.active }

  function QueueDeficit(s: System): int { |Pending(s)| - s.c.queued }

  predicate Exact(s: System) { ActiveDeficit(s) == 0 && QueueDeficit(s) == 0 }

  predicate Drained(s: System) { Busy(s) == {} && Pending(s) == {} }

  /** Whether an action hits the `max(0, ...)` of one of its decrements. */
  predicate Clamps(s: System, a: Action) {
    ((a.Start? || a.Rollback?) && s.c.queued == 0) || (a.End? && s.c.active == 0)
  }

  lemma MovedCount(s: System, j: JobId, p: Phase, c: Counters, phases: set<Phase>)
    requires j in s.jobs
    ensures |InPhase(Moved(s, j, p, c), phases)|
         == |InPhase(s, phases)| - (if s.jobs[j].phase in phases then 1 else 0) + if p in phases then 1 else 0
  {
    var t := Moved(s, j, p, c);
    assert InPhase(t, phases) == (InPhase(s, phases) - {j}) + if p in phases then {j} else {};
  }

  lemma UnmovedCount(s: System, a: Action, phases: set<Phase>)
    requires Enabled(s, a) && (a.Init? || a.Shutdown? || a.Arrive?) && Arrived !in phases
    ensures InPhase(Next(s, a), phases) == InPhase(s, phases)
  {
  }

  lemma CountsMove(s: System, a: Action)
    requires Enabled(s, a)
    ensures |Busy(Next(s, a))| == |Busy(s)| + (if a.Start? then 1 else if a.End? then -1 else 0)
    ensures |Pending(Next(s, a))| == |Pending(s)| + (if a.Reserve? then 1 else if a.Start? || a.Rollback? then -1 else 0)
  {
    hide InPhase, Moved, Reserved, RolledBack, Started, Ended, Inited;
    if a.Init? || a.Shutdown? || a.Arrive? {
      UnmovedCount(s, a, {Running});
      UnmovedCount(s, a, {Waiting, Refused, Pooled});
    } else {
      var c := Next(s, a).c;
      MovedCount(s, a.job, PhaseAfter(a), c, {Running});
      MovedCount(s, a.job, PhaseAfter(a), c, {Waiting, Refused, Pooled});
      NextMoves(s, a);
    }
  }

  function PhaseAfter(a: Action): Phase {
    match a
    case Reserve(_, _) => Waiting
    case Enqueue(_) => Pooled
    case Refuse(_) => Refused
    case Rollback(_, _) => Failed
    case Start(_, _) => Running
    case End(_, _) => Done
    case _ => Arrived
  }

  lemma NextMoves(s: System, a: Action)
    requires Enabled(s, a) && !(a.Init? || a.Shutdown? || a.Arrive?)
    ensures a.job in s.jobs && Next(s, a) == Moved(s, a.job, PhaseAfter(a), Next(s, a).c)
  {
  }

  /** Only shutdown opens a gap between a counter and the truth; only a clamp closes one. */
  lemma DeficitMoves(s: System, a: Action)
    requires Enabled(s, a)
    ensures var t := Next(s, a);
              && ActiveDeficit(t) == (if a.Shutdown? then |Busy(s)| else ActiveDeficit(s) - if a.End? && Clamps(s, a) then 1 else 0)
              && QueueDeficit(t) == (if a.Shutdown? then |Pending(s)|
                                     else QueueDeficit(s) - if !a.End? && Clamps(s, a) then 1 else 0)
  {
    hide Busy, Pending, Saturated;
    CountsMove(s, a);
  }

  /** Counters never exceed the truth. */
  predicate Bounded(s: System) { ActiveDeficit(s) >= 0 && QueueDeficit(s) >= 0 }

  lemma BoundedKept(s: System, a: Action)
    requires Enabled(s, a) && Bounded(s)
    ensures Bounded(Next(s, a))
  {
    hide Busy, Pending, Next;
    DeficitMoves(s, a);
    if a.End? {
      assert a.job in Busy(s) by { InPhaseSets(s, a.job); }
    } else if a.Start? || a.Rollback? {
      assert a.job in Pending(s) by { InPhaseSets(s, a.job); }
    }
  }

  lemma InPhaseSets(s: System, j: JobId)
    ensures j in Busy(s) <==> At(s, j, Running)
    ensures j in Pending(s) <==> At(s, j, Waiting) || At(s, j, Refused) || At(s, j, Pooled)
  {
  }

  /** With exact counters no decrement is clamped, and every step but shutdown keeps them exact;
      a shutdown keeps them exact only if nothing is pending or running. */
  lemma ExactKept(s: System, a: Action)
    requires Enabled(s, a) && Exact(s)
    ensures !Clamps(s, a)
    ensures Exact(Next(s, a)) <==> a.Shutdown? ==> Drained(s)
  {
    hide Busy, Pending, Next;
    DeficitMoves(s, a);
    if a.End? {
      assert a.job in Busy(s) by { InPhaseSets(s, a.job); }
    } else if a.Start? || a.Rollback? {
      assert a.job in Pending(s) by { InPhaseSets(s, a.job); }
    }
  }

  // ----- runs ----------------------------------------------------------------------------------------

  /** `states[i]` is the system before `actions[i]`; a run starts idle. */
  predicate IsRun(states: seq<System>, actions: seq<Action>) {
    && |states| == |actions| + 1 && states[0] == IDLE
    && forall i | 0 <= i < |actions| :: Enabled(states[i], actions[i]) && states[i + 1] == Next(states[i], actions[i])
  }

  predicate NoShutdown(actions: seq<Action>, i: nat, k: nat)
    requires k <= |actions|
  {
    forall m | i <= m < k :: !actions[m].Shutdown?
  }

  lemma {:induction false} AlwaysBounded(states: seq<System>, actions: seq<Action>, k: nat)
    requires IsRun(states, actions) && k < |states|
    ensures Bounded(states[k])
  {
    hide Next, Enabled, Busy, Pending;
    if k == 0 {
      assert Busy(IDLE) == {} && Pending(IDLE) == {} by { IdleIsDrained(); }
    } else {
      AlwaysBounded(states, actions, k - 1);
      BoundedKept(states[k - 1], actions[k - 1]);
    }
  }

  lemma IdleIsDrained()
    ensures Drained(IDLE) && Exact(IDLE)
  {
    assert Busy(IDLE) == {} && Pending(IDLE) == {};
  }

  lemma DrainedIsExact(s: System)
    requires Bounded(s) && Drained(s)
    ensures Exact(s)
  {
  }

  /** Counters are exact from any drained moment until the next shutdown; in particular, from
      the start of the process until the first one. */
  lemma {:induction false} ExactSinceDrained(states: seq<System>, actions: seq<Action>, i: nat, k: nat)
    requires IsRun(states, actions) && i <= k < |states|
    requires Drained(states[i]) && NoShutdown(actions, i, k)
    ensures Exact(states[k])
    ensures forall m | i <= m < k :: !Clamps(states[m], actions[m])
    decreases k
  {
    hide Next, Enabled, Drained, Exact;
    if i == k {
      AlwaysBounded(states, actions, k);
      DrainedIsExact(states[k]);
    } else {
      ExactSinceDrained(states, actions, i, k - 1);
      ExactKept(states[k - 1], actions[k - 1]);
    }
  }

  // ----- saturation --------------------------------------------------------------------------------------

  predicate StampIffSaturated(c: Counters) {
    c.saturatedSince.Some? <==> Saturated(c)
  }

  /** The stamp is only ever set on a saturated state, and no pool means no limit. */
  predicate StampSound(s: System) {
    && (s.c.saturatedSince.Some? ==> Saturated(s.c))
    && (s.c.executor.None? ==> s.c.maxWorkers == 0)
  }

  /** Every step leaves the stamp in line with the counters, except an init that opens a pool
      already outnumbered by jobs left over from before a shutdown. */
  lemma StampKept(s: System, a: Action)
    requires Enabled(s, a) && StampSound(s)
    ensures StampSound(Next(s, a))
    ensures StampIffSaturated(s.c) ==>
              (StampIffSaturated(Next(s, a).c) <==>
               !(a.Init? && s.c.executor.None? && 0 < a.n <= s.c.active && s.c.queued > 0))
  {
    hide Busy, Pending;
  }

  /** No `Init` comes after a `Shutdown`. */
  predicate SinglePool(actions: seq<Action>) {
    forall i, j | 0 <= i < j < |actions| :: actions[i].Shutdown? ==> !actions[j].Init?
  }

  /** Before the pool exists there are no jobs; while it does, it is every job's pool. */
  predicate OnePool(s: System) {
    && (forall j | j in s.jobs :: s.c.executor == Some(s.jobs[j].pool))
    && (s.c.executor.None? ==> s.c == STOPPED)
    && (s.c.executor.Some? ==> s.c.executor.value in s.workers && s.workers[s.c.executor.value] == s.c.maxWorkers)
  }

  predicate WithinLimits(s: System) {
    forall p | p in s.workers :: |BusyIn(s, p)| <= s.workers[p]
  }

  lemma OnePoolKept(s: System, a: Action)
    requires Enabled(s, a) && OnePool(s) && !a.Shutdown?
    ensures OnePool(Next(s, a))
  {
    hide BusyIn, Busy, Pending;
  }

  lemma BusyInMoves(s: System, a: Action, p: PoolId)
    requires Enabled(s, a)
    ensures var t := Next(s, a);
              if a.Start? && s.jobs[a.job].pool == p then BusyIn(t, p) == BusyIn(s, p) + {a.job}
              else BusyIn(t, p) <= BusyIn(s, p)
  {
    hide Inited, Reserved, RolledBack, Started, Ended;
  }

  lemma LimitsKept(s: System, a: Action)
    requires Enabled(s, a) && WithinLimits(s) && (a.Init? ==> BusyIn(s, a.pool) == {})
    ensures WithinLimits(Next(s, a))
  {
    hide BusyIn, Inited, Reserved, RolledBack, Started, Ended;
    var t := Next(s, a);
    forall p | p in t.workers ensures |BusyIn(t, p)| <= t.workers[p] {
      BusyInMoves(s, a, p);
      if !(a.Start? && s.jobs[a.job].pool == p) {
        SubsetSize(BusyIn(t, p), BusyIn(s, p));
      }
    }
  }

  lemma {:induction false} RunKeepsOnePool(states: seq<System>, actions: seq<Action>, k: nat)
    requires IsRun(states, actions) && k < |states| && NoShutdown(actions, 0, k)
    ensures OnePool(states[k]) && WithinLimits(states[k]) && StampSound(states[k]) && StampIffSaturated(states[k].c)
  {
    if k > 0 {
      hide Next, OnePool, StampIffSaturated, WithinLimits, Enabled;
      RunKeepsOnePool(states, actions, k - 1);
      var s, a := states[k - 1], actions[k - 1];
      OnePoolKept(s, a);
      StampKept(s, a);
      if a.Init? {
        NewPoolIsIdle(s, a);
      }
      LimitsKept(s, a);
    }
  }

  lemma NewPoolIsIdle(s: System, a: Action)
    requires Enabled(s, a) && OnePool(s) && a.Init?
    ensures BusyIn(s, a.pool) == {}
    ensures s.c.executor.None? ==> s.c.active == 0
  {
  }

  /** While the first pool is open, the workers in use never exceed its limit. */
  lemma ActiveWithinLimit(states: seq<System>, actions: seq<Action>, k: nat)
    requires IsRun(states, actions) && k < |states| && NoShutdown(actions, 0, k)
    ensures states[k].c.active <= states[k].c.maxWorkers
  {
    var s := states[k];
    RunKeepsOnePool(states, actions, k);
    AlwaysBounded(states, actions, k);
    if s.c.executor.Some? {
      assert Busy(s) == BusyIn(s, s.c.executor.value);
    }
  }

  lemma {:induction false} StoppedStaysStopped(states: seq<System>, actions: seq<Action>, m: nat, k: nat)
    requires IsRun(states, actions) && SinglePool(actions) && m < k < |states| && actions[m].Shutdown?
    ensures var c := states[k].c;
              c.executor.None? && c.maxWorkers == 0 && c.saturatedSince.None?
    decreases k
  {
    hide Busy, BusyIn, Pending;
    if k > m + 1 {
      StoppedStaysStopped(states, actions, m, k - 1);
    }
  }

  /** With one pool per process, the stamp says "saturated" after every step and only then. */
  lemma StampAlwaysRight(states: seq<System>, actions: seq<Action>, k: nat)
    requires IsRun(states, actions) && SinglePool(actions) && k < |states|
    ensures var c := states[k].c;
              c.saturatedSince.Some? <==> c.maxWorkers > 0 && c.active >= c.maxWorkers && c.queued > 0
  {
    hide IsRun, OnePool, WithinLimits;
    assert |states| == |actions| + 1 by { RunLength(states, actions); }
    if NoShutdown(actions, 0, k) {
      RunKeepsOnePool(states, actions, k);
    } else {
      var m :| 0 <= m < k && actions[m].Shutdown?;
      StoppedStaysStopped(states, actions, m, k);
    }
  }

  lemma RunLength(states: seq<System>, actions: seq<Action>)
    requires IsRun(states, actions)
    ensures |states| == |actions| + 1
  {
  }

  function Clock(a: Action): Option<real> {
    if a.Reserve? || a.Rollback? || a.Start? || a.End? then Some(a.now) else None
  }

  /** The stamp is the clock reading of a step that found no stamp, since which every state was
      saturated: the step that began the current unbroken stretch. */
  ghost predicate StampedAt(states: seq<System>, actions: seq<Action>, i: nat, k: nat)
    requires k < |states| == |actions| + 1
  {
    && i < k && Clock(actions[i]) == states[k].c.saturatedSince
    && states[i].c.saturatedSince.None?
    && forall m | i < m <= k :: Saturated(states[m].c)
  }

  lemma StampMoves(s: System, a: Action)
    requires Enabled(s, a) && StampSound(s)
    ensures var since := Next(s, a).c.saturatedSince;
              since.Some? ==> Saturated(Next(s, a).c) &&
                              if s.c.saturatedSince.Some? then since == s.c.saturatedSince else since == Clock(a)
  {
    hide BusyIn;
  }

  lemma {:induction false} StampIsStartOfStretch(states: seq<System>, actions: seq<Action>, k: nat)
    requires IsRun(states, actions) && k < |states|
    ensures StampSound(states[k])
    ensures states[k].c.saturatedSince.Some? ==> exists i :: StampedAt(states, actions, i, k)
  {
    if k > 0 {
      hide Next, Enabled, StampSound, Saturated, Clock;
      var s, a := states[k - 1], actions[k - 1];
      StampIsStartOfStretch(states, actions, k - 1);
      StampKept(s, a);
      StampMoves(s, a);
      if states[k].c.saturatedSince.Some? {
        if s.c.saturatedSince.Some? {
          var i :| StampedAt(states, actions, i, k - 1);
          assert StampedAt(states, actions, i, k);
        } else {
          assert StampedAt(states, actions, k - 1, k);
        }
      }
    }
  }

  /** A caller and a running job from before a shutdown. */
  lemma LeftoverJobs() returns (states: seq<System>, actions: seq<Action>)
    ensures IsRun(states, actions)
    ensures states[|actions|] == System(STOPPED, map[1 := Job(0, Pooled), 2 := Job(0, Arrived)], map[0 := 1])
  {
    var up := Counters(Some(0), 1, 0, 0, None);
    var one := up.(queued := 1);
    var limits: map<PoolId, nat> := map[0 := 1];
    actions := [Init(1, 0), Arrive(1), Reserve(1, 0.0), Enqueue(1), Arrive(2), Shutdown];
    states := [IDLE, System(up, map[], limits), System(up, map[1 := Job(0, Arrived)], limits),
               System(one, map[1 := Job(0, Waiting)], limits), System(one, map[1 := Job(0, Pooled)], limits),
               System(one, map[1 := Job(0, Pooled), 2 := Job(0, Arrived)], limits),
               System(STOPPED, map[1 := Job(0, Pooled), 2 := Job(0, Arrived)], limits)];
  }

  lemma ExtendRun(states: seq<System>, actions: seq<Action>, a: Action)
    requires IsRun(states, actions) && Enabled(states[|actions|], a)
    ensures IsRun(states + [Next(states[|actions|], a)], actions + [a])
  {
    hide Enabled, Next;
    var ss, aa := states + [Next(states[|actions|], a)], actions + [a];
    forall i | 0 <= i < |aa| ensures Enabled(ss[i], aa[i]) && ss[i + 1] == Next(ss[i], aa[i]) {
      if i < |actions| {
        assert ss[i] == states[i] && aa[i] == actions[i] && ss[i + 1] == states[i + 1];
      }
    }
  }

  /** Re-initialising over jobs left from before a shutdown can miss a saturation. */
  lemma ReinitCanMissSaturation() returns (states: seq<System>, actions: seq<Action>)
    ensures IsRun(states, actions)
    ensures var c := states[|actions|].c;
              Saturated(c) && c.saturatedSince.None?
  {
    hide IsRun;
    states, actions := LeftoverJobs();
    RunLength(states, actions);
    var left := states[|actions|];
    assert BusyIn(left, 0) == {};
    var started := Next(left, Start(1, 1.0));
    ExtendRun(states, actions, Start(1, 1.0));
    var reserved := Next(started, Reserve(2, 2.0));
    ExtendRun(states + [started], actions + [Start(1, 1.0)], Reserve(2, 2.0));
    ExtendRun(states + [started] + [reserved], actions + [Start(1, 1.0)] + [Reserve(2, 2.0)], Init(1, 1));
    states := states + [started] + [reserved] + [Next(reserved, Init(1, 1))];
    actions := actions + [Start(1, 1.0)] + [Reserve(2, 2.0)] + [Init(1, 1)];
  }
}
