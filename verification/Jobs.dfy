/** The job table and what threads do to it, one atomic step at a time: submission, settlement,
    cancellation, cleanup retry and waiting (crates/xuanling-harness-bridge/src/jobs.rs,
    supervisor.rs). */
module Jobs {
  import opened Wrappers

  type JobId = nat
  type ThreadId = nat
  type Request = string

  datatype Reason = User | Deadline | Shutdown

  /** A final result, its cleanup apart from the rest. */
  datatype Final = Final(outcome: string, confirmed: bool)

  datatype Phase = Accepted | Running | Finished(result: Final)

  /** A job. `version` is the value in its watch channel; `settled` and `released` count successful
      settlements and slot releases. */
  datatype Job = Job(request: Request, phase: Phase, reason: Option<Reason>, contained: bool, version: nat,
                     settled: nat, released: nat)

  datatype Entry = Entry(fingerprint: string, job: JobId)

  datatype Why = RequestConflict | JobContextLost | Busy | MemoryCapacity | FreezeFailed | CleanupUnconfirmed

  /** Who settles or releases: a canceller whose cleanup was confirmed, the supervisor itself, or the
      guard that a supervisor drops at its end. */
  datatype Role = Canceller | Own | Guard

  /** What a thread does next. `Returned` is the supervisor after its call of settle, before it notes
      that in the guard; `Exit` is the drop of the guard, with the guard's note. */
  datatype Pc =
    | SubmitCheck(request: Request, fingerprint: string)
    | SubmitAdmit(request: Request, fingerprint: string)
    | Submitted(request: Request, fingerprint: string, job: JobId, reused: bool)
    | Refused(why: Why)
    | Supervise(job: JobId)
    | SettlePhase(job: JobId, result: Final, role: Role)
    | SettleBump(job: JobId, result: Final, role: Role)
    | Release(job: JobId, result: Final, role: Role)
    | Subtract(job: JobId, result: Final, role: Role)
    | Returned(job: JobId)
    | Exit(job: JobId, settled: bool)
    | Ended(job: JobId)
    | Answered(job: JobId, result: Final)
    | CancelCheck(job: JobId)
    | CancelRequest(job: JobId, reason: Reason)
    | CancelReason(job: JobId, reason: Reason)
    | ConfirmCleanup(job: JobId, result: Final)
    | StoreCleanup(job: JobId, result: Final)
    | WaitSubscribe(job: JobId)
    | WaitCheck(job: JobId, seen: nat)
    | WaitPark(job: JobId, seen: nat)
    | TimedOut(job: JobId)
    | StillPending(job: JobId)

  datatype Config = Config(maxActive: nat, maxRetained: nat)

  datatype State = State(jobs: map<JobId, Job>, requests: map<Request, Entry>, active: nat, threads: map<ThreadId, Pc>)

  const INITIAL: State := State(map[], map[], 0, map[])

  function Goes(s: State, t: ThreadId, pc: Pc): State
  {
    s.(threads := s.threads[t := pc])
  }

  /** existing_request: the job of a request id already in use. */
  function Existing(s: State, request: Request, fingerprint: string): Result<Option<JobId>, Why>
  {
    if request !in s.requests then Ok(None)
    else if s.requests[request].fingerprint != fingerprint then Err(RequestConflict)
    else if s.requests[request].job !in s.jobs then Err(JobContextLost)
    else Ok(Some(s.requests[request].job))
  }

  function Capacity(c: Config, s: State): Option<Why>
  {
    if s.active >= c.maxActive then Some(Busy) else if |s.jobs| >= c.maxRetained then Some(MemoryCapacity) else None
  }

  /** saturating_sub. */
  function Minus(n: nat): nat
  {
    if n == 0 then 0 else n - 1
  }

  /** The checks at the head of submit, twice under the lock; the second time they admit. */
  ghost predicate SubmitStep(c: Config, s: State, t: ThreadId, pc: Pc, s': State)
    requires pc.SubmitCheck? || pc.SubmitAdmit?
  {
    var found := Existing(s, pc.request, pc.fingerprint);
    if found.Err? then s' == Goes(s, t, Refused(found.error))
    else if found.value.Some? then s' == Goes(s, t, Submitted(pc.request, pc.fingerprint, found.value.value, true))
    else if Capacity(c, s).Some? then s' == Goes(s, t, Refused(Capacity(c, s).value))
    else if pc.SubmitCheck? then
      s' == Goes(s, t, SubmitAdmit(pc.request, pc.fingerprint)) || s' == Goes(s, t, Refused(FreezeFailed))
    else exists j :: Admits(s, t, pc, j, s')
  }

  ghost predicate Admits(s: State, t: ThreadId, pc: Pc, j: JobId, s': State)
    requires pc.SubmitAdmit?
  {
    j !in s.jobs &&
    s' == Goes(s, t, Submitted(pc.request, pc.fingerprint, j, false)).(
            jobs := s.jobs[j := Job(pc.request, Accepted, None, false, 0, 0, 0)],
            requests := s.requests[pc.request := Entry(pc.fingerprint, j)],
            active := s.active + 1)
  }

  const GUARD_RESULT: Final := Final("supervisor ended without a terminal result", false)

  /** The first reason stays. */
  function WithReason(job: Job, reason: Reason): Job
  {
    if job.reason.Some? then job else job.(reason := Some(reason))
  }

  /** Where a thread is once its settlement or release is done. */
  function Done(j: JobId, result: Final, role: Role): Pc
  {
    match role
    case Canceller => Answered(j, result)
    case Own => Returned(j)
    case Guard => Ended(j)
  }

  /** Steps that touch one job: the job a and the thread at pc become b and pc2. */
  ghost predicate JobStep(a: Job, pc: Pc, b: Job, pc2: Pc)
  {
    match pc
    case Supervise(j) => SuperviseStep(a, j, b, pc2)
    case SettlePhase(j, result, role) =>
      if a.phase.Finished? then b == a && pc2 == if role.Own? then Returned(j) else Ended(j)
      else b == a.(phase := Finished(result), settled := a.settled + 1) && pc2 == SettleBump(j, result, role)
    case SettleBump(j, result, role) =>
      b == a.(version := a.version + 1) &&
      pc2 == if result.confirmed then Release(j, result, role) else Done(j, result, role)
    case Release(j, result, role) =>
      if a.released > 0 then b == a && pc2 == Done(j, result, role)
      else b == a.(released := a.released + 1) && pc2 == Subtract(j, result, role)
    case Returned(j) => b == a && (pc2 == Exit(j, true) || pc2 == Exit(j, false))
    case Exit(j, settled) => b == a && pc2 == if settled then Ended(j) else SettlePhase(j, GUARD_RESULT, Guard)
    case CancelCheck(j) =>
      b == a &&
      pc2 == if !a.phase.Finished? then CancelRequest(j, User)
             else if a.phase.result.confirmed then Answered(j, a.phase.result)
             else ConfirmCleanup(j, a.phase.result)
    case CancelRequest(j, reason) =>
      b == a && pc2 == if a.phase.Finished? then WaitSubscribe(j) else CancelReason(j, reason)
    case CancelReason(j, reason) => b == WithReason(a, reason) && pc2 == WaitSubscribe(j)
    case ConfirmCleanup(j, result) =>
      b == a &&
      (pc2 == Refused(CleanupUnconfirmed) || (a.contained && pc2 == StoreCleanup(j, result.(confirmed := true))))
    case StoreCleanup(j, result) =>
      b == (if a.phase.Finished? then a.(phase := Finished(a.phase.result.(confirmed := true))) else a) &&
      pc2 == Release(j, result, Canceller)
    case WaitSubscribe(j) => b == a && pc2 == WaitCheck(j, a.version)
    case WaitCheck(j, seen) =>
      b == a &&
      if a.phase.Finished? then pc2 == Answered(j, a.phase.result) else pc2 == WaitPark(j, seen) || pc2 == TimedOut(j)
    case WaitPark(j, seen) => b == a && ((a.version != seen && pc2 == WaitCheck(j, a.version)) || pc2 == TimedOut(j))
    case TimedOut(j) =>
      b == a && (pc2 == Refused(CleanupUnconfirmed) ||
                 pc2 == if a.phase.Finished? then Answered(j, a.phase.result) else StillPending(j))
    case _ => false
  }

  /** The supervisor may start the job, attach its containment, note a reason to stop, and settle
      with a result of its own. It may also exit at any point, with nothing noted in the guard. */
  ghost predicate SuperviseStep(a: Job, j: JobId, b: Job, pc2: Pc)
  {
    (pc2 == Supervise(j) && ((a.phase.Accepted? && b == a.(phase := Running)) || b == a.(contained := true) ||
                             (exists reason :: b == WithReason(a, reason)))) ||
    (b == a && pc2.SettlePhase? && pc2.job == j && pc2.role == Own) ||
    (b == a && pc2 == Exit(j, false))
  }

  predicate OnJob(pc: Pc)
  {
    !pc.SubmitCheck? && !pc.SubmitAdmit? && !pc.Refused?
  }

  /** One atomic step of thread t. */
  ghost predicate ThreadStep(c: Config, s: State, t: ThreadId, s': State)
  {
    t in s.threads &&
    var pc := s.threads[t];
    if pc.SubmitCheck? || pc.SubmitAdmit? then SubmitStep(c, s, t, pc, s')
    else if pc.Subtract? then s' == Goes(s, t, Done(pc.job, pc.result, pc.role)).(active := Minus(s.active))
    else OnJob(pc) && OnJobStep(s, t, pc.job, s')
  }

  ghost predicate OnJobStep(s: State, t: ThreadId, j: JobId, s': State)
    requires t in s.threads
  {
    j in s.jobs && j in s'.jobs && t in s'.threads && JobStep(s.jobs[j], s.threads[t], s'.jobs[j], s'.threads[t]) &&
    s' == s.(jobs := s.jobs[j := s'.jobs[j]], threads := s.threads[t := s'.threads[t]])
  }

  /** A new thread: a call, or a supervisor for a job. */
  ghost predicate Spawn(s: State, t: ThreadId, pc: Pc, s': State)
  {
    t !in s.threads && s' == Goes(s, t, pc) &&
    (pc.SubmitCheck? ||
     ((pc.Supervise? || pc.CancelCheck? || pc.CancelRequest? || pc.WaitSubscribe?) && pc.job in s.jobs))
  }

  ghost predicate Next(c: Config, s: State, s': State)
  {
    (exists t :: ThreadStep(c, s, t, s')) || (exists t, pc :: Spawn(s, t, pc, s'))
  }

  // ---- one job ------------------------------------------------------------------------

  /** A job is settled at most once, which is when it finishes; its slot is released at most once,
      and only when it has finished with confirmed cleanup. */
  predicate JobOk(job: Job)
  {
    job.settled == (if job.phase.Finished? then 1 else 0) && job.released <= 1 &&
    (job.released == 1 ==> job.phase.Finished? && job.phase.result.confirmed)
  }

  /** The stored result, but for cleanup that may have been confirmed since. */
  predicate Stored(job: Job, r: Final)
  {
    job.phase.Finished? && job.phase.result.outcome == r.outcome && (r.confirmed ==> job.phase.result.confirmed)
  }

  /** What a thread knows of its job. */
  predicate Knows(job: Job, pc: Pc)
  {
    match pc
    case Submitted(request, _, _, _) => job.request == request
    case SettlePhase(_, _, role) => !role.Canceller?
    case SettleBump(_, r, role) => Stored(job, r) && !role.Canceller?
    case Release(_, r, _) => Stored(job, r) && r.confirmed
    case Subtract(_, r, _) => Stored(job, r) && r.confirmed
    case Returned(_) => job.phase.Finished?
    case Exit(_, settled) => settled ==> job.phase.Finished?
    case Ended(_) => job.phase.Finished?
    case Answered(_, r) => Stored(job, r)
    case ConfirmCleanup(_, r) => Stored(job, r)
    case StoreCleanup(_, r) => Stored(job, r.(confirmed := false)) && r.confirmed
    case WaitCheck(_, seen) => seen <= job.version
    case WaitPark(_, seen) => seen <= job.version
    case _ => true
  }

  /** What happens to a job over time: identity and first reason stay, a result once there stays
      but for cleanup becoming confirmed, and the counters only grow. */
  ghost predicate JobEvolves(a: Job, b: Job)
  {
    a.request == b.request && a.version <= b.version && a.settled <= b.settled && a.released <= b.released &&
    (a.reason.Some? ==> b.reason == a.reason) && (a.contained ==> b.contained) &&
    (a.phase.Finished? ==> b.phase.Finished? && b.phase.result.outcome == a.phase.result.outcome &&
                           (a.phase.result.confirmed ==> b.phase.result.confirmed))
  }

  lemma JobStepKeeps(a: Job, pc: Pc, b: Job, pc2: Pc)
    requires JobOk(a) && Knows(a, pc) && JobStep(a, pc, b, pc2)
    ensures JobEvolves(a, b) && JobOk(b) && Knows(b, pc2)
  {
  }

  lemma JobStepMoves(a: Job, pc: Pc, b: Job, pc2: Pc)
    requires JobOk(a) && Knows(a, pc) && JobStep(a, pc, b, pc2)
    ensures !pc2.Submitted? && (pc2.Refused? || (OnJob(pc2) && pc2.job == pc.job))
    ensures pc2.Refused? ==> !pc2.why.JobContextLost?
    ensures pc2.Subtract? <==> b.released != a.released
    ensures pc2.Subtract? ==> a.released == 0 && b.released == 1
  {
  }

  lemma KnowledgeLasts(a: Job, b: Job, pc: Pc)
    requires Knows(a, pc) && JobEvolves(a, b)
    ensures Knows(b, pc)
  {
  }

  // ---- what every step keeps ----------------------------------------------------------

  function Unreleased(s: State): set<JobId>
  {
    set j | j in s.jobs && s.jobs[j].released == 0
  }

  function Subtracting(s: State): set<ThreadId>
  {
    set t | t in s.threads && s.threads[t].Subtract?
  }

  /** The counter is the jobs that still hold a slot plus the releases claimed but not subtracted. */
  predicate Counts(c: Config, s: State)
  {
    s.active == |Unreleased(s)| + |Subtracting(s)| && s.active <= c.maxActive && |s.jobs| <= c.maxRetained
  }

  ghost predicate JobsOk(s: State)
  {
    forall j | j in s.jobs :: JobOk(s.jobs[j])
  }

  /** Every job is found under its request id, and every request id leads to its job: one job for
      each request id, always reachable. */
  ghost predicate RequestsOk(s: State)
  {
    (forall j | j in s.jobs :: s.jobs[j].request in s.requests && s.requests[s.jobs[j].request].job == j) &&
    (forall r | r in s.requests :: s.requests[r].job in s.jobs && s.jobs[s.requests[r].job].request == r)
  }

  ghost predicate PcOk(s: State, pc: Pc)
  {
    (OnJob(pc) ==> pc.job in s.jobs && Knows(s.jobs[pc.job], pc)) &&
    (pc.Submitted? ==> pc.request in s.requests && s.requests[pc.request] == Entry(pc.fingerprint, pc.job)) &&
    (pc.Refused? ==> !pc.why.JobContextLost?)
  }

  ghost predicate ThreadsOk(s: State)
  {
    forall t | t in s.threads :: PcOk(s, s.threads[t])
  }

  /** The settling thread still has its version bump pending. */
  ghost predicate BumpPending(s: State, j: JobId)
  {
    exists t :: t in s.threads && s.threads[t].SettleBump? && s.threads[t].job == j
  }

  /** A parked waiter has something coming: its version is stale, its job is unfinished, or the
      bump is pending. */
  ghost predicate WaitersOk(s: State)
  {
    forall t | t in s.threads && s.threads[t].WaitPark? && s.threads[t].job in s.jobs ::
      WakesUp(s, s.threads[t].job, s.threads[t].seen)
  }

  ghost predicate WakesUp(s: State, j: JobId, seen: nat)
    requires j in s.jobs
  {
    s.jobs[j].version != seen || !s.jobs[j].phase.Finished? || BumpPending(s, j)
  }

  ghost predicate Inv(c: Config, s: State)
  {
    Counts(c, s) && JobsOk(s) && RequestsOk(s) && ThreadsOk(s) && WaitersOk(s)
  }

  ghost predicate Evolves(s: State, s': State)
  {
    (forall j | j in s.jobs :: j in s'.jobs && JobEvolves(s.jobs[j], s'.jobs[j])) &&
    (forall r | r in s.requests :: r in s'.requests && s'.requests[r] == s.requests[r])
  }

  lemma PcStaysOk(s: State, s': State, pc: Pc)
    requires PcOk(s, pc) && Evolves(s, s')
    ensures PcOk(s', pc)
  {
    hide Knows, JobEvolves;
    if OnJob(pc) {
      KnowledgeLasts(s.jobs[pc.job], s'.jobs[pc.job], pc);
    }
  }

  // A step on one job.

  lemma OnJobKeeps(s: State, t: ThreadId, j: JobId, s': State)
    requires JobsOk(s) && ThreadsOk(s) && t in s.threads && OnJob(s.threads[t]) && s.threads[t].job == j &&
             OnJobStep(s, t, j, s')
    ensures JobsOk(s') && ThreadsOk(s') && Evolves(s, s')
    ensures JobEvolves(s.jobs[j], s'.jobs[j])
  {
    hide JobStep, Knows, JobOk, JobEvolves;
    assert PcOk(s, s.threads[t]);
    JobStepKeeps(s.jobs[j], s.threads[t], s'.jobs[j], s'.threads[t]);
    JobStepMoves(s.jobs[j], s.threads[t], s'.jobs[j], s'.threads[t]);
    assert Evolves(s, s') by { SameEvolves(s, s', j); }
    forall u | u in s'.threads ensures PcOk(s', s'.threads[u]) {
      if u != t {
        assert PcOk(s, s.threads[u]);
        PcStaysOk(s, s', s.threads[u]);
      }
    }
  }

  lemma SameEvolves(s: State, s': State, j: JobId)
    requires j in s.jobs && j in s'.jobs && JobEvolves(s.jobs[j], s'.jobs[j]) && s'.jobs == s.jobs[j := s'.jobs[j]] &&
             s'.requests == s.requests
    ensures Evolves(s, s')
  {
  }

  lemma OnJobKeepsRequests(s: State, t: ThreadId, j: JobId, s': State)
    requires RequestsOk(s) && t in s.threads && OnJobStep(s, t, j, s') && JobEvolves(s.jobs[j], s'.jobs[j])
    ensures RequestsOk(s')
  {
    hide JobStep;
  }

  /** The waiters: a parked one on a job that finishes now has the bump pending, and the bump makes
      it stale. */
  lemma OnJobKeepsWaiters(s: State, t: ThreadId, j: JobId, s': State)
    requires ThreadsOk(s) && WaitersOk(s) && t in s.threads && OnJob(s.threads[t]) && s.threads[t].job == j &&
             OnJobStep(s, t, j, s')
    requires JobEvolves(s.jobs[j], s'.jobs[j])
    ensures WaitersOk(s')
  {
    hide JobStep, JobEvolves;
    forall u | u in s'.threads && s'.threads[u].WaitPark? && s'.threads[u].job in s'.jobs
      ensures WakesUp(s', s'.threads[u].job, s'.threads[u].seen)
    {
      var i, seen := s'.threads[u].job, s'.threads[u].seen;
      if u == t {
        ParkStep(s.jobs[j], s.threads[t], s'.jobs[j], s'.threads[t]);
      } else {
        assert PcOk(s, s.threads[u]) && WakesUp(s, i, seen);
        WaiterStaysOk(s, t, j, s', u);
      }
    }
  }

  lemma ParkStep(a: Job, pc: Pc, b: Job, pc2: Pc)
    requires JobStep(a, pc, b, pc2) && pc2.WaitPark?
    ensures pc.WaitCheck? && pc2.job == pc.job && !b.phase.Finished?
  {
  }

  lemma WaiterStaysOk(s: State, t: ThreadId, j: JobId, s': State, u: ThreadId)
    requires t in s.threads && OnJob(s.threads[t]) && s.threads[t].job == j && OnJobStep(s, t, j, s')
    requires u in s.threads && u != t && s.threads[u].WaitPark? && s.threads[u].job in s.jobs
    requires s.threads[u].seen <= s.jobs[s.threads[u].job].version && WakesUp(s, s.threads[u].job, s.threads[u].seen)
    ensures WakesUp(s', s.threads[u].job, s.threads[u].seen)
  {
    hide JobStep;
    var i, seen := s.threads[u].job, s.threads[u].seen;
    VersionStep(s.jobs[j], s.threads[t], s'.jobs[j], s'.threads[t]);
    if BumpPending(s, i) {
      var b :| b in s.threads && s.threads[b].SettleBump? && s.threads[b].job == i;
      if b != t {
        assert s'.threads[b] == s.threads[b];
        assert BumpPending(s', i);
      }
    }
    if s'.threads[t].SettleBump? && s'.threads[t].job == i {
      assert BumpPending(s', i);
    }
  }

  /** Only the bump changes the version, by one; only settling finishes a job, and it leaves the
      bump pending. */
  lemma VersionStep(a: Job, pc: Pc, b: Job, pc2: Pc)
    requires JobStep(a, pc, b, pc2)
    ensures b.version == if pc.SettleBump? then a.version + 1 else a.version
    ensures b.phase.Finished? && !a.phase.Finished? ==> pc2.SettleBump? && OnJob(pc) && pc2.job == pc.job
  {
  }

  lemma OnJobKeepsCounts(c: Config, s: State, t: ThreadId, j: JobId, s': State)
    requires Counts(c, s) && JobsOk(s) && ThreadsOk(s) && t in s.threads && OnJob(s.threads[t]) &&
             !s.threads[t].Subtract?
    requires s.threads[t].job == j && OnJobStep(s, t, j, s')
    ensures Counts(c, s')
  {
    hide JobStep, JobOk, Knows, Counts;
    assert PcOk(s, s.threads[t]) && JobOk(s.jobs[j]);
    JobStepMoves(s.jobs[j], s.threads[t], s'.jobs[j], s'.threads[t]);
    CountsFollow(c, s, t, j, s');
  }

  lemma CountsFollow(c: Config, s: State, t: ThreadId, j: JobId, s': State)
    requires Counts(c, s) && t in s.threads && !s.threads[t].Subtract? && j in s.jobs && j in s'.jobs && t in s'.threads
    requires s' == s.(jobs := s.jobs[j := s'.jobs[j]], threads := s.threads[t := s'.threads[t]])
    requires if s'.threads[t].Subtract? then s.jobs[j].released == 0 && s'.jobs[j].released == 1
             else s'.jobs[j].released == s.jobs[j].released
    ensures Counts(c, s')
  {
    assert s'.jobs.Keys == s.jobs.Keys;
    if s'.threads[t].Subtract? {
      assert Unreleased(s') == Unreleased(s) - {j} && j in Unreleased(s);
      assert Subtracting(s') == Subtracting(s) + {t} && t !in Subtracting(s);
    } else {
      assert Unreleased(s') == Unreleased(s);
      assert Subtracting(s') == Subtracting(s);
    }
    assert |s'.jobs| == |s'.jobs.Keys| && |s.jobs| == |s.jobs.Keys|;
  }

  // A step that only moves a thread, admits a job, or subtracts.

  lemma MovingKeeps(c: Config, s: State, t: ThreadId, pc: Pc, s': State)
    requires Inv(c, s) && s' == Goes(s, t, pc) && PcOk(s, pc) && !pc.WaitPark?
    requires !pc.Subtract? && !pc.SettleBump? &&
             (t in s.threads ==> !s.threads[t].Subtract? && !s.threads[t].SettleBump?)
    ensures Inv(c, s') && Evolves(s, s')
  {
    hide Knows, JobOk;
    assert Unreleased(s') == Unreleased(s) && Subtracting(s') == Subtracting(s);
    MovingKeepsWaiters(s, t, pc, s');
    forall u | u in s'.threads ensures PcOk(s', s'.threads[u]) {
      PcStaysOk(s, s', s'.threads[u]);
    }
  }

  lemma MovingKeepsWaiters(s: State, t: ThreadId, pc: Pc, s': State)
    requires WaitersOk(s) && s'.threads == s.threads[t := pc] && !pc.WaitPark? &&
             (t in s.threads ==> !s.threads[t].SettleBump?)
    requires forall j | j in s'.jobs :: if j in s.jobs then s'.jobs[j] == s.jobs[j] else !s'.jobs[j].phase.Finished?
    ensures WaitersOk(s')
  {
    forall j | j in s.jobs && BumpPending(s, j) ensures BumpPending(s', j) {
      var b :| b in s.threads && s.threads[b].SettleBump? && s.threads[b].job == j;
      assert s'.threads[b] == s.threads[b];
    }
  }

  lemma AdmittingKeeps(c: Config, s: State, t: ThreadId, pc: Pc, j: JobId, s': State)
    requires Inv(c, s) && t in s.threads && s.threads[t] == pc && pc.SubmitAdmit? && Admits(s, t, pc, j, s')
    requires pc.request !in s.requests && Capacity(c, s).None?
    ensures Inv(c, s') && Evolves(s, s')
  {
    hide Knows, JobOk, JobEvolves, RequestsOk, WaitersOk, Counts;
    AdmittingEvolves(s, t, pc, j, s');
    AdmittingKeepsCounts(c, s, t, pc, j, s');
    AdmittingKeepsRequests(s, t, pc, j, s');
    MovingKeepsWaiters(s, t, s'.threads[t], s');
    assert PcOk(s', s'.threads[t]) && JobOk(s'.jobs[j]) by { NewJobIsOk(s, t, pc, j, s'); }
    forall u | u in s'.threads ensures PcOk(s', s'.threads[u]) {
      if u != t { PcStaysOk(s, s', s.threads[u]); }
    }
  }

  lemma NewJobIsOk(s: State, t: ThreadId, pc: Pc, j: JobId, s': State)
    requires pc.SubmitAdmit? && Admits(s, t, pc, j, s')
    ensures PcOk(s', s'.threads[t]) && JobOk(s'.jobs[j])
  {
  }

  lemma AdmittingEvolves(s: State, t: ThreadId, pc: Pc, j: JobId, s': State)
    requires pc.SubmitAdmit? && Admits(s, t, pc, j, s') && pc.request !in s.requests
    ensures Evolves(s, s')
  {
  }

  lemma AdmittingKeepsCounts(c: Config, s: State, t: ThreadId, pc: Pc, j: JobId, s': State)
    requires Counts(c, s) && t in s.threads && s.threads[t] == pc && pc.SubmitAdmit? && Admits(s, t, pc, j, s') &&
             Capacity(c, s).None?
    ensures Counts(c, s')
  {
    assert Unreleased(s') == Unreleased(s) + {j} && Subtracting(s') == Subtracting(s);
    assert s'.jobs.Keys == s.jobs.Keys + {j};
    assert |s'.jobs| == |s'.jobs.Keys| && |s.jobs| == |s.jobs.Keys|;
  }

  lemma AdmittingKeepsRequests(s: State, t: ThreadId, pc: Pc, j: JobId, s': State)
    requires RequestsOk(s) && pc.SubmitAdmit? && Admits(s, t, pc, j, s') && pc.request !in s.requests
    ensures RequestsOk(s')
  {
  }

  /** A claimed release is still counted when its thread subtracts: the counter never saturates. */
  lemma SubtractingKeeps(c: Config, s: State, t: ThreadId, s': State)
    requires Inv(c, s) && t in s.threads && s.threads[t].Subtract?
    requires s' ==
               Goes(s, t, Done(s.threads[t].job, s.threads[t].result, s.threads[t].role)).(active := Minus(s.active))
    ensures Inv(c, s') && Evolves(s, s') && s.active > 0 && s'.active == s.active - 1
  {
    assert t in Subtracting(s);
    assert Unreleased(s') == Unreleased(s) && Subtracting(s') == Subtracting(s) - {t};
    MovingKeepsWaiters(s, t, s'.threads[t], s');
    assert PcOk(s, s.threads[t]);
    forall u | u in s'.threads ensures PcOk(s', s'.threads[u]) {
      if u != t { PcStaysOk(s, s', s.threads[u]); }
    }
  }

  lemma SubmitKeeps(c: Config, s: State, t: ThreadId, pc: Pc, s': State)
    requires Inv(c, s) && t in s.threads && s.threads[t] == pc && (pc.SubmitCheck? || pc.SubmitAdmit?) &&
             SubmitStep(c, s, t, pc, s')
    ensures Inv(c, s') && Evolves(s, s')
  {
    hide Counts, JobsOk, ThreadsOk, WaitersOk, Knows, Admits, Capacity, Evolves;
    CapacityIsNoLoss(c, s);
    ExistingIsOk(s, pc.request, pc.fingerprint);
    var found := Existing(s, pc.request, pc.fingerprint);
    if found.Ok? && found.value.None? && Capacity(c, s).None? && pc.SubmitAdmit? {
      var j :| Admits(s, t, pc, j, s');
      AdmittingKeeps(c, s, t, pc, j, s');
    } else {
      GoesThere(s, t, s');
      MovingKeeps(c, s, t, s'.threads[t], s');
    }
  }

  lemma ExistingIsOk(s: State, request: Request, fingerprint: string)
    requires RequestsOk(s)
    ensures var found := Existing(s, request, fingerprint);
            (found.Err? ==> PcOk(s, Refused(found.error))) &&
            (found.Ok? && found.value.Some? ==> PcOk(s, Submitted(request, fingerprint, found.value.value, true)))
  {
  }

  lemma CapacityIsNoLoss(c: Config, s: State)
    ensures Capacity(c, s).Some? ==> !Capacity(c, s).value.JobContextLost?
  {
  }

  lemma GoesThere(s: State, t: ThreadId, s': State)
    requires t in s'.threads
    ensures forall pc | s' == Goes(s, t, pc) :: s'.threads[t] == pc
  {
  }

  lemma OnJobKeepsInv(c: Config, s: State, t: ThreadId, j: JobId, s': State)
    requires Inv(c, s) && t in s.threads && OnJob(s.threads[t]) && !s.threads[t].Subtract? && s.threads[t].job == j &&
             OnJobStep(s, t, j, s')
    ensures Inv(c, s') && Evolves(s, s')
  {
    hide Counts, JobsOk, RequestsOk, ThreadsOk, WaitersOk, Evolves, JobEvolves, JobStep;
    OnJobKeeps(s, t, j, s');
    OnJobKeepsRequests(s, t, j, s');
    OnJobKeepsWaiters(s, t, j, s');
    OnJobKeepsCounts(c, s, t, j, s');
  }

  lemma NextKeepsInv(c: Config, s: State, s': State)
    requires Inv(c, s) && Next(c, s, s')
    ensures Inv(c, s') && Evolves(s, s')
  {
    hide Inv, SubmitStep, OnJobStep, Evolves, PcOk;
    if t :| ThreadStep(c, s, t, s') {
      var pc := s.threads[t];
      if pc.SubmitCheck? || pc.SubmitAdmit? {
        SubmitKeeps(c, s, t, pc, s');
      } else if pc.Subtract? {
        SubtractingKeeps(c, s, t, s');
      } else {
        OnJobKeepsInv(c, s, t, pc.job, s');
      }
    } else {
      var t, pc :| Spawn(s, t, pc, s');
      SpawnedIsOk(s, t, pc, s');
      MovingKeeps(c, s, t, pc, s');
    }
  }

  lemma SpawnedIsOk(s: State, t: ThreadId, pc: Pc, s': State)
    requires Spawn(s, t, pc, s')
    ensures PcOk(s, pc)
  {
  }

  // ---- whole runs ---------------------------------------------------------------------

  /** Any number of threads and jobs, interleaved in any way. */
  ghost predicate Run(c: Config, states: seq<State>)
  {
    states != [] && states[0] == INITIAL &&
    forall i, next | 0 <= i < |states| - 1 && next == i + 1 :: Next(c, states[i], states[next])
  }

  lemma InitialIsOk(c: Config)
    ensures Inv(c, INITIAL)
  {
  }

  lemma {:induction false} RunKeepsInv(c: Config, states: seq<State>, i: nat)
    requires Run(c, states) && i < |states|
    ensures Inv(c, states[i])
  {
    hide Inv, Next, Evolves;
    if i == 0 {
      InitialIsOk(c);
    } else {
      var k := i - 1;
      RunKeepsInv(c, states, k);
      assert Next(c, states[k], states[i]);
      NextKeepsInv(c, states[k], states[i]);
    }
  }

  /** In every state of every run the active counter is the slots held plus the releases under way,
      and stays within the limit; whenever a thread is about to subtract, there is something to
      subtract. */
  lemma ActiveIsExact(c: Config, states: seq<State>, i: nat)
    requires Run(c, states) && i < |states|
    ensures var s := states[i];
            s.active == |Unreleased(s)| + |Subtracting(s)| && s.active <= c.maxActive &&
            (forall t | t in s.threads && s.threads[t].Subtract? :: s.active > 0)
  {
    RunKeepsInv(c, states, i);
    hide JobsOk, RequestsOk, ThreadsOk, WaitersOk;
    var s := states[i];
    forall t | t in s.threads && s.threads[t].Subtract? ensures s.active > 0 {
      assert t in Subtracting(s);
    }
  }

  /** A slot is released at most once, and only after a final result with confirmed cleanup; a job
      is settled once, when it finishes. */
  lemma ReleasedOnceAfterCleanup(c: Config, states: seq<State>, i: nat, j: JobId)
    requires Run(c, states) && i < |states| && j in states[i].jobs
    ensures JobOk(states[i].jobs[j])
  {
    RunKeepsInv(c, states, i);
  }

  /** However submissions of a request id race, all that are answered get the same job, with the
      same payload, and it is in the table. */
  lemma OneJobPerRequest(c: Config, states: seq<State>, i: nat, t: ThreadId, u: ThreadId)
    requires Run(c, states) && i < |states|
    requires t in states[i].threads && u in states[i].threads && states[i].threads[t].Submitted? &&
             states[i].threads[u].Submitted?
    requires states[i].threads[t].request == states[i].threads[u].request
    ensures states[i].threads[t].job == states[i].threads[u].job &&
            states[i].threads[t].fingerprint == states[i].threads[u].fingerprint
    ensures states[i].threads[t].job in states[i].jobs
    ensures forall j, k | j in states[i].jobs && k in states[i].jobs && states[i].jobs[j].request ==
              states[i].jobs[k].request :: j == k
  {
    RunKeepsInv(c, states, i);
    hide Counts, JobsOk, WaitersOk, Knows;
    assert PcOk(states[i], states[i].threads[t]) && PcOk(states[i], states[i].threads[u]);
  }

  /** Nobody sleeps for good: a waiter parked on a finished job is stale, so its channel has woken
      it, unless the settling thread still has its bump to do. */
  lemma NoLostWakeup(c: Config, states: seq<State>, i: nat, t: ThreadId)
    requires Run(c, states) && i < |states| && t in states[i].threads && states[i].threads[t].WaitPark?
    ensures var s, j := states[i], states[i].threads[t].job;
            j in s.jobs && (s.jobs[j].phase.Finished? ==> s.jobs[j].version != s.threads[t].seen || BumpPending(s, j))
  {
    RunKeepsInv(c, states, i);
    hide Counts, JobsOk, RequestsOk, Knows;
    assert PcOk(states[i], states[i].threads[t]);
  }

  /** From one moment of a run to any later one. */
  lemma {:induction false} JobsEvolve(c: Config, states: seq<State>, i: nat, k: nat, j: JobId)
    requires Run(c, states) && i <= k < |states| && j in states[i].jobs
    ensures j in states[k].jobs && JobEvolves(states[i].jobs[j], states[k].jobs[j])
    decreases k
  {
    hide Inv, Next;
    if i < k {
      var m := k - 1;
      JobsEvolve(c, states, i, m, j);
      RunKeepsInv(c, states, m);
      assert Next(c, states[m], states[k]);
      NextKeepsInv(c, states[m], states[k]);
      assert JobEvolves(states[m].jobs[j], states[k].jobs[j]);
    }
  }

  /** Whatever a waiter or canceller was told, at any time, is the result stored from then on, but
      for cleanup confirmed since. */
  lemma AnswersAgree(c: Config, states: seq<State>, i: nat, k: nat, t: ThreadId)
    requires Run(c, states) && i <= k < |states| && t in states[i].threads && states[i].threads[t].Answered?
    ensures var a := states[i].threads[t]; a.job in states[k].jobs && Stored(states[k].jobs[a.job], a.result)
  {
    RunKeepsInv(c, states, i);
    hide Counts, JobsOk, RequestsOk, WaitersOk;
    var a := states[i].threads[t];
    assert PcOk(states[i], a);
    JobsEvolve(c, states, i, k, a.job);
    KnowledgeLasts(states[i].jobs[a.job], states[k].jobs[a.job], a);
  }

  lemma OnlyOneMoves(c: Config, s: State, u: ThreadId, s': State, t: ThreadId)
    requires ThreadStep(c, s, u, s') && t in s.threads && t != u
    ensures t in s'.threads && s'.threads[t] == s.threads[t]
  {
    hide JobStep, Existing, Capacity;
  }

  /** A supervisor's thread, from its start to the end of its guard. */
  predicate Supervising(pc: Pc, j: JobId)
  {
    (pc.Supervise? || pc.Returned? || pc.Exit? || pc.Ended? ||
     ((pc.SettlePhase? || pc.SettleBump? || pc.Release? || pc.Subtract?) && !pc.role.Canceller?)) && pc.job == j
  }

  lemma SupervisorMoves(c: Config, s: State, s': State, t: ThreadId, j: JobId)
    requires Next(c, s, s') && t in s.threads && Supervising(s.threads[t], j)
    ensures t in s'.threads && Supervising(s'.threads[t], j)
    ensures s.threads[t].Ended? ==> s'.threads[t].Ended?
  {
    hide SubmitStep;
    if u :| ThreadStep(c, s, u, s') {
      if u != t {
        OnlyOneMoves(c, s, u, s', t);
      }
    }
  }

  /** A supervisor may return, fail or be dropped at any point: its thread stays with its job until
      the guard has ended, and wherever settling has returned or the guard has ended the job is
      finished. In particular none ends and leaves its job unfinished. */
  lemma {:induction false} SupervisorSettles(c: Config, states: seq<State>, i: nat, k: nat, t: ThreadId, j: JobId)
    requires Run(c, states) && i <= k < |states|
    requires t in states[i].threads && states[i].threads[t] == Supervise(j) && j in states[i].jobs
    ensures t in states[k].threads && j in states[k].jobs && Supervising(states[k].threads[t], j)
    ensures var pc := states[k].threads[t];
            pc.Supervise? || pc.SettlePhase? || pc == Exit(j, false) || states[k].jobs[j].phase.Finished?
    decreases k
  {
    if i < k {
      hide Inv, Next, Evolves;
      var m := k - 1;
      SupervisorSettles(c, states, i, m, t, j);
      assert Next(c, states[m], states[k]);
      SupervisorMoves(c, states[m], states[k], t, j);
      JobsEvolve(c, states, i, k, j);
    }
    ThreadKnows(c, states, k, t);
  }

  lemma ThreadKnows(c: Config, states: seq<State>, k: nat, t: ThreadId)
    requires Run(c, states) && k < |states| && t in states[k].threads
    ensures PcOk(states[k], states[k].threads[t])
  {
    hide Counts, JobsOk, RequestsOk, WaitersOk, PcOk, Next;
    RunKeepsInv(c, states, k);
  }
}
