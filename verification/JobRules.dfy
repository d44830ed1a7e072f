/** What callers and jobs come to over a run of the job table (crates/xuanling-harness-bridge/src/jobs.rs). */
module JobRules {
  import opened Wrappers
  import opened Jobs

  // ---- the step that a thread takes -----------------------------------------------------

  lemma MoveIsOnJob(c: Config, s: State, s': State, t: ThreadId, j: JobId)
    requires Next(c, s, s') && t in s.threads && t in s'.threads && s'.threads[t] != s.threads[t]
    requires OnJob(s.threads[t]) && !s.threads[t].Subtract? && s.threads[t].job == j && j in s.jobs
    ensures j in s'.jobs && JobStep(s.jobs[j], s.threads[t], s'.jobs[j], s'.threads[t])
  {
    hide JobStep, SubmitStep;
    if u :| ThreadStep(c, s, u, s') {
      if u != t { OnlyOneMoves(c, s, u, s', t); }
    }
  }

  lemma ThreadsStay(c: Config, s: State, s': State, t: ThreadId)
    requires Next(c, s, s') && t in s.threads
    ensures t in s'.threads
  {
    hide JobStep;
    if u :| ThreadStep(c, s, u, s') {
      if u != t { OnlyOneMoves(c, s, u, s', t); }
    }
  }

  lemma StateIsOk(c: Config, states: seq<State>, i: nat, t: ThreadId)
    requires Run(c, states) && i < |states| && t in states[i].threads
    ensures PcOk(states[i], states[i].threads[t])
    ensures OnJob(states[i].threads[t]) ==>
              states[i].threads[t].job in states[i].jobs && JobOk(states[i].jobs[states[i].threads[t].job])
  {
    hide Counts, RequestsOk, WaitersOk, PcOk, Next, JobOk;
    RunKeepsInv(c, states, i);
    assert PcOk(states[i], states[i].threads[t]);
    if OnJob(states[i].threads[t]) { PcIsOnJob(states[i], states[i].threads[t]); }
  }

  lemma PcIsOnJob(s: State, pc: Pc)
    requires PcOk(s, pc) && OnJob(pc)
    ensures pc.job in s.jobs
  {
  }

  // ---- cancellation -----------------------------------------------------------------------

  /** Once a canceller has got past recording its reason, the job has a reason for the rest of the run: the
      one it had before, or else this one. */
  lemma ReasonIsRecorded(c: Config, states: seq<State>, i: nat, next: nat, k: nat, t: ThreadId, j: JobId, r: Reason)
    requires Run(c, states) && next == i + 1 && next <= k < |states|
    requires t in states[i].threads && states[i].threads[t] == CancelReason(j, r)
    requires t in states[next].threads && states[next].threads[t] != CancelReason(j, r)
    ensures j in states[i].jobs && j in states[k].jobs
    ensures states[k].jobs[j].reason ==
              Some(if states[i].jobs[j].reason.Some? then states[i].jobs[j].reason.value else r)
  {
    hide Next, JobStep;
    StateIsOk(c, states, i, t);
    assert Next(c, states[i], states[next]);
    MoveIsOnJob(c, states[i], states[next], t, j);
    ReasonStep(states[i].jobs[j], j, r, states[next].jobs[j], states[next].threads[t]);
    JobsEvolve(c, states, next, k, j);
  }

  lemma ReasonStep(a: Job, j: JobId, r: Reason, b: Job, pc2: Pc)
    requires JobStep(a, CancelReason(j, r), b, pc2)
    ensures b.reason == Some(if a.reason.Some? then a.reason.value else r)
  {
  }

  /** A cancel call of j under way or over. */
  predicate Cancelling(pc: Pc, j: JobId)
  {
    pc.Refused? ||
    ((pc.CancelCheck? || pc.CancelRequest? || pc.CancelReason? || Waits(pc) || pc.Answered? || pc.ConfirmCleanup? ||
      pc.StoreCleanup? || ((pc.Release? || pc.Subtract?) && pc.role.Canceller?)) && pc.job == j)
  }

  predicate Waits(pc: Pc)
  {
    pc.WaitSubscribe? || pc.WaitCheck? || pc.WaitPark? || pc.TimedOut? || pc.StillPending?
  }

  predicate Stopped(job: Job)
  {
    job.phase.Finished? || job.reason.Some?
  }

  /** Whatever a cancel call meets, where it waits for the job, or has given up waiting, the job has finished
      or has a reason to stop. */
  lemma {:induction false} CancelLeavesReason(c: Config, states: seq<State>, i: nat, k: nat, t: ThreadId, j: JobId)
    requires Run(c, states) && i <= k < |states|
    requires t in states[i].threads && states[i].threads[t] == CancelCheck(j)
    ensures t in states[k].threads && j in states[k].jobs && Cancelling(states[k].threads[t], j)
    ensures Waits(states[k].threads[t]) ==> states[k].jobs[j].phase.Finished? || states[k].jobs[j].reason.Some?
    decreases k
  {
    hide Next, Inv, JobStep, PcOk, JobOk, JobEvolves;
    StateIsOk(c, states, i, t);
    if i < k {
      var m := k - 1;
      CancelLeavesReason(c, states, i, m, t, j);
      assert Next(c, states[m], states[k]);
      ThreadsStay(c, states[m], states[k], t);
      JobsEvolve(c, states, m, k, j);
      var pc, pc2 := states[m].threads[t], states[k].threads[t];
      if pc2 == pc {
        StoppedStays(states[m].jobs[j], states[k].jobs[j]);
      } else if pc.Refused? || pc.Subtract? {
        RefusedOrSubtract(c, states[m], states[k], t);
      } else {
        MoveIsOnJob(c, states[m], states[k], t, j);
        CancelStep(states[m].jobs[j], pc, states[k].jobs[j], pc2, j);
      }
    }
  }

  lemma StoppedStays(a: Job, b: Job)
    requires JobEvolves(a, b)
    ensures Stopped(a) ==> Stopped(b)
  {
  }

  lemma CancelStep(a: Job, pc: Pc, b: Job, pc2: Pc, j: JobId)
    requires Cancelling(pc, j) && !pc.Refused? && (Waits(pc) ==> Stopped(a)) && JobStep(a, pc, b, pc2)
    ensures Cancelling(pc2, j) && (Waits(pc2) ==> Stopped(b))
  {
  }

  lemma RefusedOrSubtract(c: Config, s: State, s': State, t: ThreadId)
    requires Next(c, s, s') && t in s.threads && t in s'.threads && s'.threads[t] != s.threads[t]
    requires s.threads[t].Refused? || s.threads[t].Subtract?
    ensures s.threads[t].Subtract? &&
            s'.threads[t] == Done(s.threads[t].job, s.threads[t].result, s.threads[t].role)
  {
    if u :| ThreadStep(c, s, u, s') {
      if u != t { OnlyOneMoves(c, s, u, s', t); }
    }
  }

  // ---- results and slots ------------------------------------------------------------------

  /** The first settlement stores its result as it is; a later one changes nothing. */
  lemma ResultIsStored(c: Config, states: seq<State>, i: nat, next: nat, t: ThreadId, j: JobId, r: Final, role: Role)
    requires Run(c, states) && next == i + 1 && next < |states|
    requires t in states[i].threads && states[i].threads[t] == SettlePhase(j, r, role)
    requires t in states[next].threads && states[next].threads[t] != SettlePhase(j, r, role)
    ensures j in states[i].jobs && j in states[next].jobs && states[next].jobs[j].phase.Finished?
    ensures states[next].jobs[j].phase ==
              if states[i].jobs[j].phase.Finished? then states[i].jobs[j].phase else Finished(r)
  {
    hide Next, JobStep;
    StateIsOk(c, states, i, t);
    assert Next(c, states[i], states[next]);
    MoveIsOnJob(c, states[i], states[next], t, j);
    SettleStep(states[i].jobs[j], j, r, role, states[next].jobs[j], states[next].threads[t]);
  }

  lemma SettleStep(a: Job, j: JobId, r: Final, role: Role, b: Job, pc2: Pc)
    requires JobStep(a, SettlePhase(j, r, role), b, pc2)
    ensures b.phase == if a.phase.Finished? then a.phase else Finished(r)
  {
  }

  /** A thread is on its way to release the slot of j: it has the bump of a confirmed result to do, or it
      is about to claim the release. */
  ghost predicate ReleasePending(s: State, j: JobId)
  {
    exists t :: t in s.threads && Releases(s.threads[t], j)
  }

  predicate Releases(pc: Pc, j: JobId)
  {
    (pc.SettleBump? && pc.job == j && pc.result.confirmed) || (pc.Release? && pc.job == j)
  }

  predicate Holds(job: Job)
  {
    job.phase.Finished? && job.phase.result.confirmed && job.released == 0
  }

  ghost predicate SlotsOk(s: State)
  {
    forall j | j in s.jobs && Holds(s.jobs[j]) :: ReleasePending(s, j)
  }

  lemma HolderStep(a: Job, pc: Pc, b: Job, pc2: Pc, j: JobId)
    requires OnJob(pc) && pc.job == j && JobOk(a) && Knows(a, pc) && JobStep(a, pc, b, pc2) && Holds(b)
    ensures Releases(pc2, j) || (Holds(a) && !Releases(pc, j))
  {
  }

  lemma PendingStays(s: State, s': State, t: ThreadId, j: JobId)
    requires ReleasePending(s, j) && t in s.threads && t in s'.threads && !Releases(s.threads[t], j)
    requires s'.threads == s.threads[t := s'.threads[t]]
    ensures ReleasePending(s', j)
  {
    var u :| u in s.threads && Releases(s.threads[u], j);
    assert u != t && s'.threads[u] == s.threads[u];
  }

  lemma NewThreadKeepsPending(s: State, s': State, t: ThreadId, j: JobId)
    requires ReleasePending(s, j) && t !in s.threads && t in s'.threads && s'.threads == s.threads[t := s'.threads[t]]
    ensures ReleasePending(s', j)
  {
    var u :| u in s.threads && Releases(s.threads[u], j);
    assert s'.threads[u] == s.threads[u];
  }

  lemma OnJobKeepsSlots(s: State, t: ThreadId, s': State)
    requires SlotsOk(s) && JobsOk(s) && ThreadsOk(s) && t in s.threads && OnJob(s.threads[t]) &&
             OnJobStep(s, t, s.threads[t].job, s')
    ensures SlotsOk(s')
  {
    hide JobStep, Knows, JobOk, Holds, Releases, ReleasePending;
    var i := s.threads[t].job;
    assert PcOk(s, s.threads[t]) && JobOk(s.jobs[i]);
    forall j | j in s'.jobs && Holds(s'.jobs[j]) ensures ReleasePending(s', j) {
      if j == i {
        HolderStep(s.jobs[i], s.threads[t], s'.jobs[i], s'.threads[t], i);
        if Releases(s'.threads[t], j) { IsPending(s', t, j); } else { PendingStays(s, s', t, j); }
      } else {
        OtherJob(s.threads[t], j);
        PendingStays(s, s', t, j);
      }
    }
  }

  lemma IsPending(s: State, t: ThreadId, j: JobId)
    requires t in s.threads && Releases(s.threads[t], j)
    ensures ReleasePending(s, j)
  {
  }

  lemma OtherJob(pc: Pc, j: JobId)
    requires OnJob(pc) && pc.job != j
    ensures !Releases(pc, j)
  {
  }

  lemma SubmitStepMoves(c: Config, s: State, t: ThreadId, pc: Pc, s': State)
    requires (pc.SubmitCheck? || pc.SubmitAdmit?) && SubmitStep(c, s, t, pc, s')
    ensures t in s'.threads && s'.threads == s.threads[t := s'.threads[t]]
    ensures forall j | j in s'.jobs && Holds(s'.jobs[j]) :: j in s.jobs && s.jobs[j] == s'.jobs[j]
  {
  }

  lemma NextKeepsSlots(c: Config, s: State, s': State)
    requires Inv(c, s) && SlotsOk(s) && Next(c, s, s')
    ensures SlotsOk(s')
  {
    hide Counts, JobsOk, RequestsOk, ThreadsOk, WaitersOk, JobStep, SubmitStep, Holds, OnJobStep, ReleasePending;
    if t :| ThreadStep(c, s, t, s') {
      var pc := s.threads[t];
      if pc.SubmitCheck? || pc.SubmitAdmit? {
        SubmitStepMoves(c, s, t, pc, s');
        forall j | j in s'.jobs && Holds(s'.jobs[j]) ensures ReleasePending(s', j) {
          PendingStays(s, s', t, j);
        }
      } else if pc.Subtract? {
        forall j | j in s'.jobs && Holds(s'.jobs[j]) ensures ReleasePending(s', j) {
          PendingStays(s, s', t, j);
        }
      } else {
        OnJobKeepsSlots(s, t, s');
      }
    } else {
      var t, pc :| Spawn(s, t, pc, s');
      forall j | j in s'.jobs && Holds(s'.jobs[j]) ensures ReleasePending(s', j) {
        NewThreadKeepsPending(s, s', t, j);
      }
    }
  }

  /** No slot is lost: in every state of every run a job that has finished with confirmed cleanup has had its
      slot released, or a thread is on its way to it. */
  lemma {:induction false} NoSlotIsLost(c: Config, states: seq<State>, i: nat)
    requires Run(c, states) && i < |states|
    ensures forall j | j in states[i].jobs && states[i].jobs[j].phase.Finished? &&
                       states[i].jobs[j].phase.result.confirmed && !ReleasePending(states[i], j) ::
              states[i].jobs[j].released == 1
    ensures SlotsOk(states[i])
  {
    hide Next, Inv;
    if i > 0 {
      var k := i - 1;
      NoSlotIsLost(c, states, k);
      RunKeepsInv(c, states, k);
      assert Next(c, states[k], states[i]);
      NextKeepsSlots(c, states[k], states[i]);
    }
    AllReleased(c, states, i);
  }

  lemma AllReleased(c: Config, states: seq<State>, i: nat)
    requires Run(c, states) && i < |states| && SlotsOk(states[i])
    ensures forall j | j in states[i].jobs && states[i].jobs[j].phase.Finished? &&
                       states[i].jobs[j].phase.result.confirmed && !ReleasePending(states[i], j) ::
              states[i].jobs[j].released == 1
  {
    hide Next, RequestsOk, ThreadsOk, WaitersOk, ReleasePending;
    RunKeepsInv(c, states, i);
    var s := states[i];
    forall j | j in s.jobs && s.jobs[j].phase.Finished? && s.jobs[j].phase.result.confirmed && !ReleasePending(s, j)
      ensures s.jobs[j].released == 1
    {
      assert JobOk(s.jobs[j]) && !Holds(s.jobs[j]);
    }
  }

  // ---- callers ------------------------------------------------------------------------------

  /** A call that finds its job finished waits for nothing and ends in the answer. */
  lemma {:induction false} FinishedIsAnswered(c: Config, states: seq<State>, i: nat, k: nat, t: ThreadId, j: JobId)
    requires Run(c, states) && i <= k < |states| && t in states[i].threads && j in states[i].jobs
    requires states[i].threads[t] == WaitSubscribe(j) && states[i].jobs[j].phase.Finished?
    ensures t in states[k].threads && j in states[k].jobs && states[k].jobs[j].phase.Finished?
    ensures var pc := states[k].threads[t]; (pc.WaitSubscribe? || pc.WaitCheck? || pc.Answered?) && pc.job == j
    decreases k
  {
    hide Next, Inv, JobStep;
    if i < k {
      var m := k - 1;
      FinishedIsAnswered(c, states, i, m, t, j);
      assert Next(c, states[m], states[k]);
      ThreadsStay(c, states[m], states[k], t);
      JobsEvolve(c, states, i, k, j);
      if states[k].threads[t] != states[m].threads[t] {
        MoveIsOnJob(c, states[m], states[k], t, j);
        AnswerStep(states[m].jobs[j], states[m].threads[t], states[k].jobs[j], states[k].threads[t], j);
      }
    }
  }

  lemma AnswerStep(a: Job, pc: Pc, b: Job, pc2: Pc, j: JobId)
    requires a.phase.Finished? && (pc.WaitSubscribe? || pc.WaitCheck? || pc.Answered?) && pc.job == j
    requires JobStep(a, pc, b, pc2)
    ensures (pc2.WaitCheck? || pc2 == Answered(j, a.phase.result)) && pc2.job == j
  {
  }

  /** A cancel call whose cleanup was confirmed stores that, sees to the slot, and ends in the confirmed result. */
  lemma {:induction false} ConfirmedIsAnswered(c: Config, states: seq<State>, i: nat, k: nat, t: ThreadId, j: JobId,
                                               r: Final)
    requires Run(c, states) && i <= k < |states| && t in states[i].threads
    requires states[i].threads[t] == StoreCleanup(j, r)
    ensures t in states[k].threads && j in states[k].jobs
    ensures states[k].threads[t] in
              {StoreCleanup(j, r), Release(j, r, Canceller), Subtract(j, r, Canceller), Answered(j, r)}
    ensures states[k].threads[t] != StoreCleanup(j, r) ==>
              states[k].jobs[j].phase.Finished? && states[k].jobs[j].phase.result.confirmed
    decreases k
  {
    hide Next, Inv, JobStep, JobOk;
    StateIsOk(c, states, i, t);
    if i < k {
      var m := k - 1;
      ConfirmedIsAnswered(c, states, i, m, t, j, r);
      assert Next(c, states[m], states[k]);
      ThreadsStay(c, states[m], states[k], t);
      JobsEvolve(c, states, m, k, j);
      var pc, pc2 := states[m].threads[t], states[k].threads[t];
      if pc2 != pc {
        if pc.Subtract? {
          RefusedOrSubtract(c, states[m], states[k], t);
        } else {
          MoveIsOnJob(c, states[m], states[k], t, j);
          ConfirmedStep(states[m].jobs[j], pc, states[k].jobs[j], pc2, j, r);
          StateIsOk(c, states, k, t);
        }
      }
    }
  }

  lemma ConfirmedStep(a: Job, pc: Pc, b: Job, pc2: Pc, j: JobId, r: Final)
    requires JobStep(a, pc, b, pc2) && pc in {StoreCleanup(j, r), Release(j, r, Canceller), Answered(j, r)}
    ensures pc2 in {Release(j, r, Canceller), Subtract(j, r, Canceller), Answered(j, r)}
  {
  }

  /** What a submission is answered once it is past its freeze. */
  lemma SubmitAnswer(c: Config, s: State, t: ThreadId, request: Request, fingerprint: string, s': State)
    requires Inv(c, s) && t in s.threads && s.threads[t] == SubmitAdmit(request, fingerprint) && ThreadStep(c, s, t, s')
    ensures t in s'.threads
    ensures request in s.requests && s.requests[request].fingerprint == fingerprint ==>
              s'.threads[t] == Submitted(request, fingerprint, s.requests[request].job, true)
    ensures request in s.requests && s.requests[request].fingerprint != fingerprint ==>
              s'.threads[t] == Refused(RequestConflict)
    ensures request !in s.requests && s.active >= c.maxActive ==> s'.threads[t] == Refused(Busy)
    ensures request !in s.requests && s.active < c.maxActive && |s.jobs| >= c.maxRetained ==>
              s'.threads[t] == Refused(MemoryCapacity)
    ensures request !in s.requests && s.active < c.maxActive && |s.jobs| < c.maxRetained ==>
              s'.threads[t].Submitted? && !s'.threads[t].reused &&
              Admitted(s, request, fingerprint, s'.threads[t].job, s')
    ensures !(s'.threads[t].Submitted? && !s'.threads[t].reused) ==>
              s'.jobs == s.jobs && s'.requests == s.requests && s'.active == s.active
  {
    hide Inv, Admits, Existing, Capacity, Admitted;
    var pc := s.threads[t];
    assert SubmitStep(c, s, t, pc, s');
    RequestKnown(c, s, request, fingerprint);
    CapacityRaw(c, s);
    if j :| request !in s.requests && Admits(s, t, pc, j, s') { AdmitsRaw(s, t, pc, j, s'); }
  }

  lemma RequestKnown(c: Config, s: State, request: Request, fingerprint: string)
    requires Inv(c, s)
    ensures Existing(s, request, fingerprint) ==
              if request !in s.requests then Ok(None)
              else if s.requests[request].fingerprint == fingerprint then Ok(Some(s.requests[request].job))
              else Err(RequestConflict)
  {
    hide Counts, JobsOk, ThreadsOk, WaitersOk;
  }

  lemma CapacityRaw(c: Config, s: State)
    ensures s.active >= c.maxActive ==> Capacity(c, s) == Some(Busy)
    ensures s.active < c.maxActive && |s.jobs| >= c.maxRetained ==> Capacity(c, s) == Some(MemoryCapacity)
    ensures s.active < c.maxActive && |s.jobs| < c.maxRetained ==> Capacity(c, s) == None
  {
  }

  lemma AdmitsRaw(s: State, t: ThreadId, pc: Pc, j: JobId, s': State)
    requires pc.SubmitAdmit? && Admits(s, t, pc, j, s') && pc.request !in s.requests
    ensures t in s'.threads && s'.threads[t] == Submitted(pc.request, pc.fingerprint, j, false)
    ensures Admitted(s, pc.request, pc.fingerprint, j, s')
  {
  }

  /** The job is new, holds a slot, waits to be started, and is found under its request. */
  ghost predicate Admitted(s: State, request: Request, fingerprint: string, j: JobId, s': State)
  {
    j !in s.jobs && j in s'.jobs && s'.jobs.Keys == s.jobs.Keys + {j} &&
    (forall k | k in s.jobs :: s'.jobs[k] == s.jobs[k]) &&
    s'.jobs[j].request == request && s'.jobs[j].phase.Accepted? && s'.jobs[j].reason.None? &&
    s'.jobs[j].released == 0 && s'.jobs[j].settled == 0 && s'.active == s.active + 1 &&
    request in s'.requests && s'.requests[request].job == j && s'.requests[request].fingerprint == fingerprint &&
    s'.requests.Keys == s.requests.Keys + {request} && forall r | r in s.requests :: s'.requests[r] == s.requests[r]
  }

  // ---- what can go on -------------------------------------------------------------------------

  predicate AtItsEnd(pc: Pc)
  {
    pc.Submitted? || pc.Refused? || pc.Answered? || pc.Ended? || pc.StillPending?
  }

  /** The job and the thread after a step that is possible. */
  lemma SomeStep(a: Job, pc: Pc, result: Final) returns (b: Job, pc2: Pc)
    requires OnJob(pc) && !AtItsEnd(pc) && !pc.Subtract?
    ensures JobStep(a, pc, b, pc2) && pc2 != pc
    ensures pc.Supervise? ==> b == a && pc2 == SettlePhase(pc.job, result, Own)
    ensures pc.WaitPark? && a.version != pc.seen ==> b == a && pc2 == WaitCheck(pc.job, a.version)
    ensures pc.ConfirmCleanup? && a.contained ==> pc2 == StoreCleanup(pc.job, pc.result.(confirmed := true))
  {
    b := a;
    match pc
    case Supervise(j) => pc2 := SettlePhase(j, result, Own);
    case SettlePhase(j, r, role) =>
      if a.phase.Finished? { pc2 := if role.Own? then Returned(j) else Ended(j); } else {
        b := a.(phase := Finished(r), settled := a.settled + 1);
        pc2 := SettleBump(j, r, role);
      }
    case SettleBump(j, r, role) =>
      b := a.(version := a.version + 1);
      pc2 := if r.confirmed then Release(j, r, role) else Done(j, r, role);
    case Release(j, r, role) =>
      if a.released > 0 { pc2 := Done(j, r, role); } else {
        b := a.(released := a.released + 1);
        pc2 := Subtract(j, r, role);
      }
    case Returned(j) => pc2 := Exit(j, true);
    case Exit(j, settled) => pc2 := if settled then Ended(j) else SettlePhase(j, GUARD_RESULT, Guard);
    case CancelCheck(j) =>
      pc2 := if !a.phase.Finished? then CancelRequest(j, User)
             else if a.phase.result.confirmed then Answered(j, a.phase.result)
             else ConfirmCleanup(j, a.phase.result);
    case CancelRequest(j, reason) => pc2 := if a.phase.Finished? then WaitSubscribe(j) else CancelReason(j, reason);
    case CancelReason(j, reason) =>
      b := WithReason(a, reason);
      pc2 := WaitSubscribe(j);
    case ConfirmCleanup(j, r) =>
      pc2 := if a.contained then StoreCleanup(j, r.(confirmed := true)) else Refused(CleanupUnconfirmed);
    case StoreCleanup(j, r) =>
      b := if a.phase.Finished? then a.(phase := Finished(a.phase.result.(confirmed := true))) else a;
      pc2 := Release(j, r, Canceller);
    case WaitSubscribe(j) => pc2 := WaitCheck(j, a.version);
    case WaitCheck(j, seen) => pc2 := if a.phase.Finished? then Answered(j, a.phase.result) else WaitPark(j, seen);
    case WaitPark(j, seen) => pc2 := if a.version != seen then WaitCheck(j, a.version) else TimedOut(j);
    case TimedOut(j) => pc2 := if a.phase.Finished? then Answered(j, a.phase.result) else StillPending(j);
  }

  lemma FreshJob(jobs: map<JobId, Job>) returns (j: JobId)
    ensures j !in jobs
  {
    j := 0;
    var todo := jobs.Keys;
    while todo != {}
      invariant forall k | k in jobs && k !in todo :: k < j
      decreases todo
    {
      var k :| k in todo;
      todo := todo - {k};
      j := if k < j then j else k + 1;
    }
  }

  ghost predicate CanMove(c: Config, s: State, t: ThreadId, pc2: Pc)
    requires t in s.threads
  {
    exists s' :: ThreadStep(c, s, t, s') && t in s'.threads && s'.threads[t] == pc2
  }

  lemma MovesBy(c: Config, s: State, t: ThreadId, s': State)
    requires t in s.threads && ThreadStep(c, s, t, s') && t in s'.threads
    ensures CanMove(c, s, t, s'.threads[t])
  {
  }

  /** Nobody is ever stuck: in every state of every run each thread that is not at its end can take a step, whatever
      the others do; a supervisor can settle with any result, a stale waiter can look again, and cleanup of a
      contained job can be confirmed. */
  lemma NoThreadIsStuck(c: Config, states: seq<State>, i: nat, t: ThreadId, result: Final) returns (pc2: Pc)
    requires Run(c, states) && i < |states| && t in states[i].threads && !AtItsEnd(states[i].threads[t])
    ensures CanMove(c, states[i], t, pc2) && pc2 != states[i].threads[t]
    ensures var s, pc := states[i], states[i].threads[t];
            (pc.Supervise? ==> pc2 == SettlePhase(pc.job, result, Own)) &&
            (pc.WaitPark? ==> pc.job in s.jobs && (s.jobs[pc.job].version != pc.seen ==> pc2.WaitCheck?)) &&
            (pc.ConfirmCleanup? ==> pc.job in s.jobs && (s.jobs[pc.job].contained ==> pc2.StoreCleanup?))
  {
    hide Run, Next, JobStep, PcOk, JobOk, CanMove, SubmitStep;
    var s := states[i];
    var pc := s.threads[t];
    StateIsOk(c, states, i, t);
    if pc.SubmitCheck? || pc.SubmitAdmit? {
      var s' := SubmitMoves(c, s, t, pc);
      MovesBy(c, s, t, s');
      pc2 := s'.threads[t];
    } else if pc.Subtract? {
      var s' := Goes(s, t, Done(pc.job, pc.result, pc.role)).(active := Minus(s.active));
      MovesBy(c, s, t, s');
      pc2 := s'.threads[t];
    } else {
      var b;
      b, pc2 := SomeStep(s.jobs[pc.job], pc, result);
      var s' := s.(jobs := s.jobs[pc.job := b], threads := s.threads[t := pc2]);
      MovesBy(c, s, t, s');
    }
  }

  lemma SubmitMoves(c: Config, s: State, t: ThreadId, pc: Pc) returns (s': State)
    requires t in s.threads && s.threads[t] == pc && (pc.SubmitCheck? || pc.SubmitAdmit?)
    ensures SubmitStep(c, s, t, pc, s') && t in s'.threads && s'.threads[t] != pc
  {
    hide Existing, Capacity;
    var found := Existing(s, pc.request, pc.fingerprint);
    if found.Err? {
      s' := Goes(s, t, Refused(found.error));
    } else if found.value.Some? {
      s' := Goes(s, t, Submitted(pc.request, pc.fingerprint, found.value.value, true));
    } else if Capacity(c, s).Some? {
      s' := Goes(s, t, Refused(Capacity(c, s).value));
    } else if pc.SubmitCheck? {
      s' := Goes(s, t, SubmitAdmit(pc.request, pc.fingerprint));
    } else {
      var j := FreshJob(s.jobs);
      s' := Goes(s, t, Submitted(pc.request, pc.fingerprint, j, false)).(
        jobs := s.jobs[j := Job(pc.request, Accepted, None, false, 0, 0, 0)],
        requests := s.requests[pc.request := Entry(pc.fingerprint, j)],
        active := s.active + 1);
      assert Admits(s, t, pc, j, s');
    }
  }
}
