/** Batch edits: all targets are read, checked and planned before the first write, and a failure
    puts the earlier writes back (crates/xuanling-toolkit/src/fs/edit_batch.rs). */
module EditBatch {
  import opened Wrappers
  import opened Disk
  import opened EditPlan
  import opened ChangeSet
  import opened ChangeRegistry

  datatype BatchFile = BatchFile(path: Path, expected: Sha, edits: seq<Edit>)

  datatype Request = Request(files: seq<BatchFile>, dryRun: bool, reversible: bool)

  datatype Prepared = Prepared(path: Path, before: Content, after: Content, replacements: nat)

  datatype BatchError =
    | InvalidInput
    | Cancelled
    | ReadFailed(index: nat)
    | DuplicateTarget(index: nat)
    | PreimageMismatch(index: nat)
    | InvalidUtf8(index: nat)
    | CannotPlan(index: nat, why: PlanError)
    | ApplyFailed
    | ApplyConflict
    | RecoveryFailed(paths: seq<FinalState>)

  datatype Batch = Batch(files: seq<Prepared>, replacements: nat, change: Option<Id>)

  predicate Valid(req: Request)
  {
    req.files != [] && !(req.dryRun && req.reversible) &&
    forall i | 0 <= i < |req.files| :: req.files[i].edits != [] && Plannable(req.files[i].edits)
  }

  predicate Plannable(edits: seq<Edit>)
  {
    forall k | 0 <= k < |edits| :: edits[k].find != []
  }

  /** What the batch has planned for one file. */
  ghost predicate Planned(f: BatchFile, p: Prepared)
  {
    p.path == f.path && f.expected == Sha256(p.before) && p.before.Text? && Plannable(f.edits) &&
    var plan := PlanOf(p.before.text, f.edits);
    plan.Ok? && p.after == Text(plan.value.text) && p.replacements == Sum(plan.value.replaced)
  }

  ghost predicate AllPlanned(fs: seq<BatchFile>, ps: seq<Prepared>)
  {
    |ps| == |fs| && (forall i | 0 <= i < |ps| :: Planned(fs[i], ps[i])) && DistinctTargets(ps)
  }

  predicate DistinctTargets(ps: seq<Prepared>)
  {
    forall i, j | 0 <= i < j < |ps| :: ps[i].path != ps[j].path
  }

  predicate TargetedBy(ps: seq<Prepared>, p: Path)
  {
    exists i :: 0 <= i < |ps| && ps[i].path == p
  }

  /** Files as they were when the plan was made. */
  ghost predicate Captured(files: Files, ps: seq<Prepared>)
  {
    forall i | 0 <= i < |ps| :: ps[i].path in files && files[ps[i].path] == ps[i].before
  }

  /** The first n files hold their planned bytes and everything else is as it was. */
  ghost predicate Applied(before: Files, now: Files, ps: seq<Prepared>, n: nat)
    requires n <= |ps|
  {
    now.Keys == before.Keys &&
    (forall i | 0 <= i < n :: ps[i].path in now && now[ps[i].path] == ps[i].after) &&
    (forall p | p in before && !TargetedBy(ps[..n], p) :: now[p] == before[p])
  }

  /** The file at place n can be planned: it is read, is not a target already, is the expected text, and
      its edits have a plan. */
  predicate FileFits(files: Files, fs: seq<BatchFile>, n: nat)
  {
    n < |fs| && fs[n].path in files && (forall i | 0 <= i < n :: fs[i].path != fs[n].path) &&
    Sha256(files[fs[n].path]) == fs[n].expected && files[fs[n].path].Text? &&
    Plannable(fs[n].edits) && PlanOf(files[fs[n].path].text, fs[n].edits).Ok?
  }

  predicate AllFit(files: Files, fs: seq<BatchFile>)
  {
    forall n | 0 <= n < |fs| :: FileFits(files, fs, n)
  }

  /** No file, nothing to keep of a dry run, a file without edits, or an edit that looks for nothing. */
  predicate IllFormed(req: Request)
  {
    req.files == [] || (req.dryRun && req.reversible) ||
    exists i :: 0 <= i < |req.files| && LooksForNothing(req.files[i])
  }

  predicate LooksForNothing(f: BatchFile)
  {
    f.edits == [] || exists k :: 0 <= k < |f.edits| && |f.edits[k].find| == 0
  }

  lemma InvalidExactlyWhen(req: Request)
    ensures !Valid(req) <==> IllFormed(req)
  {
    forall i | 0 <= i < |req.files|
      ensures LooksForNothing(req.files[i]) <==> (req.files[i].edits == [] || !Plannable(req.files[i].edits))
    {
    }
  }

  lemma ReasonIsNoFit(files: Files, fs: seq<BatchFile>, e: BatchError)
    requires TrueReason(files, fs, e)
    ensures !AllFit(files, fs)
  {
    var n := match e
      case ReadFailed(n) => n
      case DuplicateTarget(n) => n
      case PreimageMismatch(n) => n
      case InvalidUtf8(n) => n
      case CannotPlan(n, _) => n;
    assert !FileFits(files, fs, n);
  }

  /** The error is true of the first file that does not fit. */
  predicate TrueReason(files: Files, fs: seq<BatchFile>, e: BatchError)
  {
    match e
    case ReadFailed(n) => FirstToFail(files, fs, n) && fs[n].path !in files
    case DuplicateTarget(n) =>
      FirstToFail(files, fs, n) && fs[n].path in files && exists i :: 0 <= i < n && fs[i].path == fs[n].path
    case PreimageMismatch(n) =>
      FirstToFail(files, fs, n) && fs[n].path in files && Sha256(files[fs[n].path]) != fs[n].expected
    case InvalidUtf8(n) => FirstToFail(files, fs, n) && fs[n].path in files && !files[fs[n].path].Text?
    case CannotPlan(n, why) =>
      FirstToFail(files, fs, n) && fs[n].path in files && files[fs[n].path].Text? && Plannable(fs[n].edits) &&
      PlanOf(files[fs[n].path].text, fs[n].edits) == Err(why)
    case _ => false
  }

  predicate FirstToFail(files: Files, fs: seq<BatchFile>, n: nat)
  {
    n < |fs| && forall i | 0 <= i < n :: FileFits(files, fs, i)
  }

  /** Reading, checking and planning; nothing is written. */
  method Prepare(disk: Volume, req: Request) returns (r: Result<seq<Prepared>, BatchError>)
    requires disk.Valid() && Valid(req)
    modifies disk`files, disk`epoch, disk`looked
    ensures disk.Valid() && disk.log == old(disk.log)
    ensures disk.quiet ==> disk.files == old(disk.files)
    ensures r.Ok? ==> AllPlanned(req.files, r.value) && (disk.quiet ==> Captured(disk.files, r.value))
    ensures r.Err? ==> !r.error.RecoveryFailed? && !r.error.InvalidInput?
    ensures disk.quiet && disk.reliable && r.Err? && !r.error.Cancelled? ==>
              TrueReason(old(disk.files), req.files, r.error)
    ensures disk.quiet && disk.reliable && r.Ok? ==> AllFit(old(disk.files), req.files)
  {
    hide Volume.Valid, PlanOf, Sum;
    var ps: seq<Prepared> := [];
    for n := 0 to |req.files|
      invariant disk.Valid() && disk.log == old(disk.log)
      invariant disk.quiet ==> disk.files == old(disk.files) && Captured(disk.files, ps)
      invariant AllPlanned(req.files[..n], ps)
      invariant disk.quiet && disk.reliable ==> forall i | 0 <= i < n :: FileFits(old(disk.files), req.files, i)
    {
      if * {
        return Err(Cancelled);
      }
      var f := req.files[n];
      assert Plannable(f.edits);
      var read := disk.Read(f.path);
      if read.Err? {
        return Err(ReadFailed(n));
      }
      if exists i :: 0 <= i < |ps| && ps[i].path == f.path {
        return Err(DuplicateTarget(n));
      }
      if Sha256(read.value) != f.expected {
        return Err(PreimageMismatch(n));
      }
      if !read.value.Text? {
        return Err(InvalidUtf8(n));
      }
      var plan, total := PlanEdits(read.value.text, f.edits);
      if plan.Err? {
        return Err(CannotPlan(n, plan.error));
      }
      ps := ps + [Prepared(f.path, read.value, Text(plan.value.text), total)];
    }
    assert req.files[..|req.files|] == req.files;
    r := Ok(ps);
  }

  ghost predicate OwnRecovery(e: Event, p: Prepared)
  {
    e.path == p.path && e.written == Some(p.before) && e.seen == Some(p.after)
  }

  ghost predicate OnlyOwnRecovery(log: seq<Event>, start: nat, ps: seq<Prepared>)
  {
    forall k | start <= k < |log| :: exists i :: 0 <= i < |ps| && OwnRecovery(log[k], ps[i])
  }

  method ClassifyPrepared(disk: Volume, ps: seq<Prepared>) returns (states: seq<FinalState>)
    requires disk.Valid()
    modifies disk`files, disk`epoch, disk`looked
    ensures disk.Valid() && disk.log == old(disk.log) && |states| == |ps|
    ensures disk.quiet ==> disk.files == old(disk.files) && AllTrue(disk.files, ps, states)
  {
    states := [];
    for n := 0 to |ps|
      invariant disk.Valid() && disk.log == old(disk.log) && |states| == n
      invariant disk.quiet ==> disk.files == old(disk.files)
      invariant disk.quiet ==> AllTrue(disk.files, ps[..n], states)
    {
      var s := Classify(disk, ps[n].path, Sha256(ps[n].before), Sha256(ps[n].after));
      states := states + [s];
    }
    assert ps[..|ps|] == ps;
  }

  /** What is reported of each path is so. */
  ghost predicate AllTrue(files: Files, ps: seq<Prepared>, states: seq<FinalState>)
  {
    |states| == |ps| &&
    forall i | 0 <= i < |ps| :: TrueState(files, ps[i].path, Sha256(ps[i].before), Sha256(ps[i].after), states[i])
  }

  /** Every target holds its old or its planned bytes, and everything else is as it was. */
  ghost predicate InFlight(before: Files, now: Files, ps: seq<Prepared>)
  {
    now.Keys == before.Keys &&
    (forall i | 0 <= i < |ps| ::
       ps[i].path in now && (now[ps[i].path] == ps[i].before || now[ps[i].path] == ps[i].after)) &&
    (forall p | p in before && !TargetedBy(ps, p) :: now[p] == before[p])
  }

  lemma AppliedIsInFlight(before: Files, now: Files, ps: seq<Prepared>, n: nat)
    requires n <= |ps| && Captured(before, ps) && Applied(before, now, ps, n) && DistinctTargets(ps)
    ensures InFlight(before, now, ps)
  {
  }

  lemma OneInFlight(before: Files, now: Files, ps: seq<Prepared>, i: nat)
    requires i < |ps| && InFlight(before, now, ps) && DistinctTargets(ps)
    ensures InFlight(before, now[ps[i].path := ps[i].before], ps)
  {
  }

  lemma AllRestored(before: Files, now: Files, ps: seq<Prepared>, n: nat, states: seq<FinalState>)
    requires n <= |ps| && Captured(before, ps) && InFlight(before, now, ps) && AllTrue(now, ps, states)
    requires forall i | n <= i < |ps| :: now[ps[i].path] == ps[i].before
    requires forall i | 0 <= i < n :: states[i].Restored?
    ensures now == before
  {
  }

  lemma RecoveryLogged(log: seq<Event>, next: seq<Event>, start: nat, ps: seq<Prepared>, i: nat)
    requires start <= |log| && OnlyOwnRecovery(log, start, ps) && i < |ps|
    requires |next| == |log| + 1 && next[..|log|] == log && OwnRecovery(next[|log|], ps[i])
    ensures OnlyOwnRecovery(next, start, ps)
  {
  }

  /** recover_after_failure: put the applied files back, last first, wherever they still hold what
      was written, then say what every path holds. */
  method RecoverAfterFailure(disk: Volume, ps: seq<Prepared>, applied: nat, failure: BatchError, ghost start: Files)
    returns (error: BatchError)
    requires disk.Valid() && applied <= |ps| && DistinctTargets(ps) && !failure.RecoveryFailed?
    requires disk.quiet ==> Captured(start, ps) && Applied(start, disk.files, ps, applied)
    modifies disk
    ensures disk.Valid()
    ensures error == failure || error.RecoveryFailed?
    ensures disk.quiet && !error.RecoveryFailed? ==> disk.files == start
    ensures disk.quiet && error.RecoveryFailed? ==>
              InFlight(start, disk.files, ps) && AllTrue(disk.files, ps, error.paths)
    ensures error.RecoveryFailed? ==> |error.paths| == |ps| && exists i :: 0 <= i < applied && !error.paths[i].Restored?
    ensures |disk.log| >= |old(disk.log)| && disk.log[..|old(disk.log)|] == old(disk.log) &&
            OnlyOwnRecovery(disk.log, |old(disk.log)|, ps)
  {
    hide Volume.Valid, Applied, InFlight, Captured, AllTrue, OnlyOwnRecovery, DistinctTargets;
    if disk.quiet {
      AppliedIsInFlight(start, disk.files, ps, applied);
      LaterUntouched(start, disk.files, ps, applied);
    }
    NoRecoveryYet(disk.log, ps);
    var n := applied;
    while n > 0
      invariant 0 <= n <= applied && disk.Valid()
      invariant disk.quiet ==> InFlight(start, disk.files, ps)
      invariant disk.quiet ==>
                  forall i | applied <= i < |ps| :: ps[i].path in disk.files && disk.files[ps[i].path] == ps[i].before
      invariant |disk.log| >= |old(disk.log)| && disk.log[..|old(disk.log)|] == old(disk.log)
      invariant OnlyOwnRecovery(disk.log, |old(disk.log)|, ps)
    {
      n := n - 1;
      var p := ps[n];
      var read := disk.Read(p.path);
      if read.Err? {
        continue;
      }
      if Sha256(read.value) != Sha256(p.after) {
        continue;
      }
      ghost var log, files := disk.log, disk.files;
      var ok := disk.AtomicWrite(p.path, p.before);
      if ok {
        RecoveryLogged(log, disk.log, |old(disk.log)|, ps, n);
        if disk.quiet {
          OneInFlight(start, files, ps, n);
          LaterKept(files, ps, n);
        }
      }
    }
    var paths := ClassifyPrepared(disk, ps);
    if forall i | 0 <= i < applied :: paths[i].Restored? {
      if disk.quiet { AllRestored(start, disk.files, ps, applied, paths); }
      return failure;
    }
    error := BatchError.RecoveryFailed(paths);
  }

  lemma NoRecoveryYet(log: seq<Event>, ps: seq<Prepared>)
    ensures OnlyOwnRecovery(log, |log|, ps)
  {
  }

  lemma LaterKept(files: Files, ps: seq<Prepared>, n: nat)
    requires n < |ps| && DistinctTargets(ps)
    ensures forall i | n < i < |ps| && ps[i].path in files ::
              files[ps[n].path := ps[n].before][ps[i].path] == files[ps[i].path]
  {
  }

  lemma LaterUntouched(before: Files, now: Files, ps: seq<Prepared>, n: nat)
    requires n <= |ps| && DistinctTargets(ps) && Captured(before, ps) && Applied(before, now, ps, n)
    ensures forall i | n <= i < |ps| :: ps[i].path in now && now[ps[i].path] == ps[i].before
  {
  }

  lemma OneMoreApplied(before: Files, now: Files, ps: seq<Prepared>, n: nat)
    requires n < |ps| && DistinctTargets(ps) && Captured(before, ps) && Applied(before, now, ps, n)
    ensures Applied(before, now[ps[n].path := ps[n].after], ps, n + 1)
  {
    var more, less := ps[..n + 1], ps[..n];
    assert more == less + [ps[n]];
    forall p | p in before && !TargetedBy(more, p) ensures p != ps[n].path && !TargetedBy(less, p) {
      assert more[n].path != p;
      assert forall i | 0 <= i < n :: less[i] == more[i];
    }
  }

  function GroupOf(ps: seq<Prepared>): seq<(Path, Content, Sha)>
  {
    seq(|ps|, i requires 0 <= i < |ps| => (ps[i].path, ps[i].before, Sha256(ps[i].after)))
  }

  /** An applied batch is an edit of its members. */
  lemma BatchIsEdit(before: Files, now: Files, ps: seq<Prepared>)
    requires DistinctTargets(ps) && Captured(before, ps) && Applied(before, now, ps, |ps|)
    ensures Edited(before, now, MembersOf(GroupOf(ps)))
  {
    var ms := MembersOf(GroupOf(ps));
    assert ps[..|ps|] == ps;
    forall p | p in before && !Touches(ms, p) ensures now[p] == before[p] {
      assert forall i | 0 <= i < |ps| :: ms[i].path == ps[i].path;
    }
  }

  lemma GroupIsDistinct(ps: seq<Prepared>)
    requires DistinctTargets(ps)
    ensures DistinctPaths(MembersOf(GroupOf(ps)))
  {
  }

  ghost function TotalOf(ps: seq<Prepared>): nat
  {
    if ps == [] then 0 else TotalOf(ps[..|ps| - 1]) + ps[|ps| - 1].replacements
  }

  ghost predicate OwnApply(e: Event, p: Prepared)
  {
    e.path == p.path && e.seen == Some(p.before) && e.written == Some(p.after)
  }

  /** After `from`, the log is the planned writes of the first n files, each over the bytes it was
      planned from. */
  ghost predicate AppliedFirst(log: seq<Event>, from: nat, ps: seq<Prepared>, n: nat)
    requires n <= |ps|
  {
    |log| == from + n && forall k | from <= k < |log| :: OwnApply(log[k], ps[k - from])
  }

  /** Everything this call wrote: planned writes, then recovery of its own bytes. */
  ghost predicate OnlyRecovered(req: Request, before: seq<Event>, after: seq<Event>)
  {
    exists ps: seq<Prepared>, mid: seq<Event>, n: nat :: Recovered(req, before, mid, after, ps, n)
  }

  ghost predicate Recovered(req: Request, before: seq<Event>, mid: seq<Event>, after: seq<Event>, ps: seq<Prepared>,
                            n: nat)
  {
    n <= |ps| && (n > 0 ==> AllPlanned(req.files, ps)) &&
    |mid| >= |before| && mid[..|before|] == before && AppliedFirst(mid, |before|, ps, n) &&
    |after| >= |mid| && after[..|mid|] == mid && OnlyOwnRecovery(after, |mid|, ps)
  }

  lemma NothingApplied(req: Request, log: seq<Event>)
    ensures OnlyRecovered(req, log, log)
  {
    assert Recovered(req, log, log, log, [], 0);
  }

  lemma FirstOfNone(log: seq<Event>, ps: seq<Prepared>)
    ensures AppliedFirst(log, |log|, ps, 0)
  {
  }

  lemma NoneApplied(files: Files, ps: seq<Prepared>)
    ensures Applied(files, files, ps, 0)
  {
  }

  lemma OneMoreFirst(log: seq<Event>, next: seq<Event>, from: nat, ps: seq<Prepared>, n: nat)
    requires n < |ps| && AppliedFirst(log, from, ps, n) && |next| == |log| + 1 && next[..|log|] == log &&
             OwnApply(next[|log|], ps[n])
    ensures AppliedFirst(next, from, ps, n + 1)
  {
  }

  /** The write phase: write the files in order, each only if it still holds what was planned from;
      on the first failure, recover. `log` is what had been logged when recovery began. */
  method Apply(disk: Volume, ps: seq<Prepared>)
    returns (r: Result<(), BatchError>, ghost log: seq<Event>, ghost written: nat)
    requires disk.Valid() && DistinctTargets(ps) && (disk.quiet ==> Captured(disk.files, ps))
    modifies disk
    ensures disk.Valid() && written <= |ps| && |log| >= |old(disk.log)| && log[..|old(disk.log)|] == old(disk.log)
    ensures AppliedFirst(log, |old(disk.log)|, ps, written) && |disk.log| >= |log| && disk.log[..|log|] == log
    ensures r.Ok? ==>
              written == |ps| && disk.log == log && (disk.quiet ==> Applied(old(disk.files), disk.files, ps, |ps|))
    ensures r.Err? ==> OnlyOwnRecovery(disk.log, |log|, ps)
    ensures r.Err? && disk.quiet && !r.error.RecoveryFailed? ==> disk.files == old(disk.files)
    ensures r.Err? && disk.quiet && r.error.RecoveryFailed? ==>
              InFlight(old(disk.files), disk.files, ps) && AllTrue(disk.files, ps, r.error.paths)
    ensures r.Err? && r.error.RecoveryFailed? ==> exists i :: 0 <= i < |r.error.paths| && !r.error.paths[i].Restored?
    ensures disk.quiet && disk.reliable ==> r.Ok?
    ensures r.Err? ==> !r.error.InvalidInput?
  {
    hide Volume.Valid, Applied, InFlight, Captured, AllTrue, OnlyOwnRecovery, AppliedFirst, DistinctTargets;
    ghost var start := disk.files;
    log, written := disk.log, 0;
    FirstOfNone(log, ps);
    NoneApplied(start, ps);
    for n := 0 to |ps|
      invariant disk.Valid() && written == n && log == disk.log
      invariant disk.quiet ==> Applied(start, disk.files, ps, n)
      invariant |log| >= |old(disk.log)| && log[..|old(disk.log)|] == old(disk.log)
      invariant AppliedFirst(log, |old(disk.log)|, ps, n)
    {
      var p := ps[n];
      if disk.quiet { LaterUntouched(start, disk.files, ps, n); }
      var current := disk.Read(p.path);
      if current.Err? {
        var error := RecoverAfterFailure(disk, ps, n, ApplyFailed, start);
        return Err(error), log, written;
      }
      if Sha256(current.value) != Sha256(p.before) {
        var error := RecoverAfterFailure(disk, ps, n, ApplyConflict, start);
        return Err(error), log, written;
      }
      ghost var files := disk.files;
      var ok := disk.AtomicWrite(p.path, p.after);
      if !ok {
        var error := RecoverAfterFailure(disk, ps, n, ApplyFailed, start);
        return Err(error), log, written;
      }
      OneMoreFirst(log, disk.log, |old(disk.log)|, ps, n);
      log, written := disk.log, n + 1;
      if disk.quiet { OneMoreApplied(start, files, ps, n); }
    }
    r := Ok(());
  }

  method SumReplacements(ps: seq<Prepared>) returns (total: nat)
    ensures total == TotalOf(ps)
  {
    total := 0;
    for n := 0 to |ps|
      invariant total == TotalOf(ps[..n])
    {
      assert ps[..n + 1][..n] == ps[..n];
      total := total + ps[n].replacements;
    }
    assert ps[..|ps|] == ps;
  }

  /** fs_edit_batch. With no other writer: success means every target holds its planned bytes, any
      error but recovery-failed means nothing changed, and recovery-failed says truly what each
      path holds. With other writers, recovery only overwrites bytes it has seen to be its own. */
  method FsEditBatch(disk: Volume, registry: Registry, req: Request) returns (r: Result<Batch, BatchError>)
    requires disk.Valid() && registry.Valid()
    modifies disk, registry
    ensures disk.Valid() && registry.Valid()
    ensures r == Err(InvalidInput) <==> IllFormed(req)
    ensures disk.quiet && disk.reliable && !IllFormed(req) && AllFit(old(disk.files), req.files) ==>
              r.Ok? || r == Err(Cancelled)
    ensures disk.quiet && disk.reliable && r.Err? && r.error != InvalidInput && r.error != Cancelled ==>
              TrueReason(old(disk.files), req.files, r.error)
    ensures disk.quiet && disk.reliable && r.Ok? ==> AllFit(old(disk.files), req.files)
    ensures r.Ok? ==>
              Valid(req) && AllPlanned(req.files, r.value.files) && r.value.replacements == TotalOf(r.value.files)
    ensures r.Ok? && disk.quiet ==>
              Captured(old(disk.files), r.value.files) &&
              Applied(old(disk.files), disk.files, r.value.files, if req.dryRun then 0 else |r.value.files|)
    ensures r.Err? && disk.quiet && !r.error.RecoveryFailed? ==> disk.files == old(disk.files)
    ensures r.Err? && disk.quiet && r.error.RecoveryFailed? ==>
              exists ps: seq<Prepared> ::
                AllPlanned(req.files, ps) && InFlight(old(disk.files), disk.files, ps) &&
                AllTrue(disk.files, ps, r.error.paths)
    ensures r.Err? && r.error.RecoveryFailed? ==> exists i :: 0 <= i < |r.error.paths| && !r.error.paths[i].Restored?
    ensures r.Err? && r.error.RecoveryFailed? ==> !disk.quiet || !disk.reliable
    ensures |disk.log| >= |old(disk.log)|
    ensures r.Ok? && !req.dryRun ==> AppliedFirst(disk.log, |old(disk.log)|, r.value.files, |r.value.files|)
    ensures r.Err? ==> OnlyRecovered(req, old(disk.log), disk.log)
    ensures r.Err? || !req.reversible ==> registry.sets == old(registry.sets)
    ensures r.Ok? && req.reversible ==>
              r.value.change.Some? && r.value.change.value !in old(registry.sets) &&
              var applied := Change(MembersOf(GroupOf(r.value.files)), AppliedAwaitingCompletion);
              registry.sets == old(registry.sets)[r.value.change.value := applied] &&
              (disk.quiet ==> Edited(old(disk.files), disk.files, MembersOf(GroupOf(r.value.files))))
  {
    hide Volume.Valid, Applied, InFlight, Captured, AllTrue, OnlyOwnRecovery, AllPlanned, Edited, GroupOf,
         AppliedFirst, DistinctTargets, Recovered, Valid;
    NothingApplied(req, disk.log);
    InvalidExactlyWhen(req);
    if !Valid(req) {
      return Err(InvalidInput);
    }
    if * {
      return Err(Cancelled);
    }
    var prepared := Prepare(disk, req);
    if prepared.Err? {
      if TrueReason(old(disk.files), req.files, prepared.error) {
        ReasonIsNoFit(old(disk.files), req.files, prepared.error);
      }
      return Err(prepared.error);
    }
    var ps := prepared.value;
    PlannedAreDistinct(req.files, ps);
    var total := SumReplacements(ps);
    NoneApplied(disk.files, ps);
    if req.dryRun {
      NeverBoth(req);
      return Ok(Batch(ps, total, None));
    }
    if * {
      return Err(Cancelled);
    }
    ghost var start := disk.files;
    var outcome, log, written := Apply(disk, ps);
    if outcome.Err? {
      Recovers(req, old(disk.log), log, disk.log, ps, written);
      assert Recovered(req, old(disk.log), log, disk.log, ps, written);
      return Err(outcome.error);
    }
    if disk.quiet { BatchIsEdit(start, disk.files, ps); }
    var change: Option<Id> := None;
    if req.reversible {
      GroupIsDistinct(ps);
      var id := registry.RegisterAppliedGroup(GroupOf(ps));
      change := Some(id);
    }
    r := Ok(Batch(ps, total, change));
  }

  lemma PlannedAreDistinct(fs: seq<BatchFile>, ps: seq<Prepared>)
    requires AllPlanned(fs, ps)
    ensures DistinctTargets(ps)
  {
  }

  lemma NeverBoth(req: Request)
    requires Valid(req) && req.dryRun
    ensures !req.reversible
  {
  }

  lemma Recovers(req: Request, before: seq<Event>, mid: seq<Event>, after: seq<Event>, ps: seq<Prepared>, n: nat)
    requires n <= |ps| && AllPlanned(req.files, ps) && |mid| >= |before| && mid[..|before|] == before &&
             AppliedFirst(mid, |before|, ps, n)
    requires |after| >= |mid| && after[..|mid|] == mid && OnlyOwnRecovery(after, |mid|, ps)
    ensures Recovered(req, before, mid, after, ps, n)
  {
  }
}
