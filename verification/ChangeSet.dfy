/** Applied changes that can be committed or rolled back
    (crates/xuanling-toolkit/src/fs/change.rs). */
module ChangeSet {
  import opened Wrappers
  import opened Disk

  datatype State = AppliedAwaitingCompletion | Committed | RolledBack | RollbackConflict | RecoveryFailed

  datatype Member = Member(path: Path, before: Content, beforeHash: Sha, afterHash: Sha)

  datatype Change = Change(members: seq<Member>, state: State)

  datatype FinalState = Restored | StillApplied | ChangedExternally | Absent | Unknown

  datatype Failure =
    | NotFound
    | Conflict
    | Denied
    | IoFailed
    | RecoveryIncomplete(paths: seq<FinalState>)

  /** The paths a capability lets the caller write; None is unrestricted. */
  type Capability = Option<set<Path>>

  predicate DistinctPaths(ms: seq<Member>)
  {
    forall i, j | 0 <= i < j < |ms| :: ms[i].path != ms[j].path
  }

  predicate WellFormed(c: Change)
  {
    DistinctPaths(c.members) &&
    forall i | 0 <= i < |c.members| :: c.members[i].beforeHash == Sha256(c.members[i].before)
  }

  predicate Touches(ms: seq<Member>, p: Path)
  {
    exists i :: 0 <= i < |ms| && ms[i].path == p
  }

  predicate Holds(files: Files, path: Path, hash: Sha)
  {
    path in files && Sha256(files[path]) == hash
  }

  /** The change was made between these two states: it captured what was there, and changed its
      members and nothing else. */
  ghost predicate Edited(a: Files, b: Files, ms: seq<Member>)
  {
    DistinctPaths(ms) && OthersKept(a, b, ms) &&
    forall i | 0 <= i < |ms| ::
      ms[i].path in a && a[ms[i].path] == ms[i].before && Holds(b, ms[i].path, ms[i].afterHash)
  }

  /** Every member has its old bytes again, and nothing else changed. */
  ghost predicate PutBack(a: Files, b: Files, ms: seq<Member>)
  {
    OthersKept(a, b, ms) && forall i | 0 <= i < |ms| :: ms[i].path in b && b[ms[i].path] == ms[i].before
  }

  ghost predicate OthersKept(a: Files, b: Files, ms: seq<Member>)
  {
    a.Keys == b.Keys && forall p | p in a && !Touches(ms, p) :: b[p] == a[p]
  }

  lemma PutBackUndoes(a: Files, b: Files, c: Files, ms: seq<Member>)
    requires Edited(a, b, ms) && PutBack(b, c, ms)
    ensures c == a
  {
  }

  /** Rolling back any sequence of changes, newest first, finds every member as it left it and
      ends with the files there were before the first. */
  lemma {:induction false} ReverseRollbackRestores(states: seq<Files>, groups: seq<seq<Member>>, back: seq<Files>)
    requires |states| == |back| == |groups| + 1 && back[0] == states[|groups|]
    requires forall i, next | 0 <= i < |groups| && next == i + 1 :: Edited(states[i], states[next], groups[i])
    requires forall j, next, g | 0 <= j < |groups| && next == j + 1 && g == |groups| - next ::
               PutBack(back[j], back[next], groups[g])
    ensures back[|groups|] == states[0]
    ensures forall j, g, i | 0 <= j < |groups| && g == |groups| - 1 - j && 0 <= i < |groups[g]| ::
              Holds(back[j], groups[g][i].path, groups[g][i].afterHash)
    decreases |groups|
  {
    if groups != [] {
      var n := |groups| - 1;
      var next := n + 1;
      assert Edited(states[n], states[next], groups[n]);
      var one := 1;
      assert PutBack(back[0], back[one], groups[n]);
      PutBackUndoes(states[n], states[next], back[1], groups[n]);
      var earlier, rest := groups[..n], back[1..];
      forall j, after, g | 0 <= j < n && after == j + 1 && g == n - after
        ensures PutBack(rest[j], rest[after], earlier[g])
      {
        var from, to := j + 1, j + 2;
        assert PutBack(back[from], back[to], groups[g]);
      }
      ReverseRollbackRestores(states[..next], earlier, rest);
      forall j, g, i | 0 <= j < |groups| && g == |groups| - 1 - j && 0 <= i < |groups[g]|
        ensures Holds(back[j], groups[g][i].path, groups[g][i].afterHash)
      {
        if j > 0 {
          var k := j - 1;
          assert rest[k] == back[j] && earlier[g] == groups[g];
        }
      }
    }
  }

  // ---- one rollback -------------------------------------------------------------------

  predicate Rollbackable(s: State)
  {
    s.AppliedAwaitingCompletion? || s.RecoveryFailed?
  }

  /** What a rollback may do to the entry it took: leave it, or give it a final or retryable state. */
  ghost predicate RollbackStep(c: Change, d: Change)
  {
    d == c || (Rollbackable(c.state) && d.members == c.members &&
               (d.state.RolledBack? || d.state.RollbackConflict? || (d.state.RecoveryFailed? && |c.members| > 1)))
  }

  /** A first rollback wants every member as the change left it; a retry also takes members that
      were put back before. */
  ghost predicate Ready(files: Files, c: Change)
  {
    forall i | 0 <= i < |c.members| :: MemberReady(files, c.members[i], c.state.RecoveryFailed?)
  }

  ghost predicate MemberReady(files: Files, m: Member, retrying: bool)
  {
    Holds(files, m.path, m.afterHash) || (retrying && Holds(files, m.path, m.beforeHash))
  }

  /** Every member's file has the bytes the change wrote. */
  predicate AllStillApplied(files: Files, ms: seq<Member>)
  {
    forall i | 0 <= i < |ms| :: ms[i].path in files && Sha256(files[ms[i].path]) == ms[i].afterHash
  }

  /** Every member's file has the bytes the change wrote, or those it replaced. */
  predicate AllWrittenOrRestored(files: Files, ms: seq<Member>)
  {
    forall i | 0 <= i < |ms| :: ms[i].path in files && Sha256(files[ms[i].path]) in {ms[i].afterHash, ms[i].beforeHash}
  }

  /** What a rollback wants to find, first and again. */
  lemma ReadyExactlyWhen(files: Files, c: Change)
    ensures c.state.RecoveryFailed? ==> (Ready(files, c) <==> AllWrittenOrRestored(files, c.members))
    ensures !c.state.RecoveryFailed? ==> (Ready(files, c) <==> AllStillApplied(files, c.members))
  {
    forall i | 0 <= i < |c.members| ensures MemberReady(files, c.members[i], c.state.RecoveryFailed?) <==>
                                            c.members[i].path in files &&
                                            (Sha256(files[c.members[i].path]) == c.members[i].afterHash ||
                                             (c.state.RecoveryFailed? &&
                                              Sha256(files[c.members[i].path]) == c.members[i].beforeHash)) {
    }
  }

  ghost predicate TrueState(files: Files, path: Path, beforeHash: Sha, afterHash: Sha, s: FinalState)
  {
    match s
    case Restored => Holds(files, path, beforeHash)
    case StillApplied => Holds(files, path, afterHash) && !Holds(files, path, beforeHash)
    case ChangedExternally => path in files && !Holds(files, path, beforeHash) && !Holds(files, path, afterHash)
    case Absent => path !in files
    case Unknown => true
  }

  /** Each state there is to tell, told exactly when it holds. */
  lemma StateIsTold(files: Files, path: Path, before: Sha, after: Sha, s: FinalState)
    requires TrueState(files, path, before, after, s) && !s.Unknown?
    ensures s.Absent? <==> path !in files
    ensures s.Restored? <==> path in files && Sha256(files[path]) == before
    ensures s.StillApplied? <==> path in files && Sha256(files[path]) == after && after != before
    ensures s.ChangedExternally? <==> path in files && Sha256(files[path]) !in {before, after}
  {
  }

  method Classify(disk: Volume, path: Path, beforeHash: Sha, afterHash: Sha) returns (s: FinalState)
    requires disk.Valid()
    modifies disk`files, disk`epoch, disk`looked
    ensures disk.Valid() && disk.log == old(disk.log)
    ensures disk.quiet ==> disk.files == old(disk.files)
    ensures TrueState(disk.files, path, beforeHash, afterHash, s) && (disk.reliable ==> !s.Unknown?)
  {
    var read := disk.Read(path);
    match read
    case Ok(bytes) =>
      s :=
        if Sha256(bytes) == beforeHash then Restored
        else if Sha256(bytes) == afterHash then StillApplied else ChangedExternally;
    case Err(Missing) => s := Absent;
    case Err(Failed) => s := Unknown;
  }

  method ClassifyAll(disk: Volume, ms: seq<Member>) returns (states: seq<FinalState>)
    requires disk.Valid()
    modifies disk`files, disk`epoch, disk`looked
    ensures disk.Valid() && disk.log == old(disk.log) && |states| == |ms|
    ensures disk.quiet ==> disk.files == old(disk.files)
    ensures disk.quiet ==>
              forall i | 0 <= i < |ms| ::
                TrueState(disk.files, ms[i].path, ms[i].beforeHash, ms[i].afterHash, states[i])
    ensures disk.reliable ==> Unknown !in states
  {
    states := [];
    for n := 0 to |ms|
      invariant disk.Valid() && disk.log == old(disk.log) && |states| == n
      invariant disk.quiet ==> disk.files == old(disk.files)
      invariant disk.quiet ==>
                  forall i | 0 <= i < n ::
                    TrueState(disk.files, ms[i].path, ms[i].beforeHash, ms[i].afterHash, states[i])
      invariant disk.reliable ==> Unknown !in states
    {
      var s := Classify(disk, ms[n].path, ms[n].beforeHash, ms[n].afterHash);
      states := states + [s];
    }
  }

  /** Everything this process wrote from `start` on put old bytes over bytes it had seen to be its
      own; Lawful says what that means for other writers. */
  ghost predicate OnlyOwnBytes(log: seq<Event>, start: nat, ms: seq<Member>)
  {
    forall k | start <= k < |log| :: exists i :: 0 <= i < |ms| && OwnRestore(log[k], ms[i])
  }

  ghost predicate OwnRestore(e: Event, m: Member)
  {
    e.path == m.path && e.written == Some(m.before) && e.seen.Some? && Sha256(e.seen.value) == m.afterHash
  }

  /** Which members still hold the change, read before anything is written. */
  method FindMembers(disk: Volume, c: Change) returns (r: Result<seq<nat>, ReadError>, conflict: bool)
    requires disk.Valid() && WellFormed(c)
    modifies disk`files, disk`epoch, disk`looked
    ensures disk.Valid() && disk.log == old(disk.log)
    ensures disk.quiet ==> disk.files == old(disk.files)
    ensures conflict ==> r.Ok?
    ensures disk.quiet ==> (conflict ==> !Ready(disk.files, c))
    ensures r.Ok? && !conflict ==>
              Ascends(r.value, |c.members|) && Seen(disk.looked, c, r.value, |r.value|) &&
              (disk.quiet ==> Needed(disk.files, c, r.value, |c.members|))
    ensures disk.reliable ==> r.Ok?
  {
    hide Volume.Valid;
    var needs: seq<nat> := [];
    for n := 0 to |c.members|
      invariant disk.Valid() && disk.log == old(disk.log)
      invariant disk.quiet ==> disk.files == old(disk.files)
      invariant Ascends(needs, n) && Seen(disk.looked, c, needs, |needs|)
      invariant disk.quiet ==> Needed(disk.files, c, needs, n)
    {
      var m := c.members[n];
      var read := disk.Read(m.path);
      if read.Err? && read.error.Missing? {
        return Ok([]), true;
      }
      if read.Err? {
        return Err(read.error), false;
      }
      var hash := Sha256(read.value);
      if hash == m.afterHash {
        needs := needs + [n];
      } else if c.state.RecoveryFailed? && hash == m.beforeHash {
      } else {
        return Ok([]), true;
      }
    }
    r, conflict := Ok(needs), false;
  }

  predicate Ascends(needs: seq<nat>, n: nat)
  {
    (forall k | 0 <= k < |needs| :: needs[k] < n) && forall k, l | 0 <= k < l < |needs| :: needs[k] < needs[l]
  }

  /** The bytes last seen at the first n of these members are the change's own. */
  ghost predicate Seen(looked: map<Path, (Content, nat)>, c: Change, needs: seq<nat>, n: nat)
    requires Ascends(needs, |c.members|) && n <= |needs|
  {
    forall k | 0 <= k < n ::
      c.members[needs[k]].path in looked && Sha256(looked[c.members[needs[k]].path].0) == c.members[needs[k]].afterHash
  }

  ghost predicate Needed(files: Files, c: Change, needs: seq<nat>, n: nat)
    requires n <= |c.members|
  {
    forall i | 0 <= i < n :: if i in needs then Holds(files, c.members[i].path, c.members[i].afterHash)
                             else c.state.RecoveryFailed? && Holds(files, c.members[i].path, c.members[i].beforeHash)
  }

  ghost predicate Among(c: Change, needs: seq<nat>, done: nat, p: Path)
    requires Ascends(needs, |c.members|)
  {
    exists k :: done <= k < |needs| && c.members[needs[k]].path == p
  }

  /** Part of the way through putting back the members at `needs`, last first: those from `done` on
      have their old bytes. */
  ghost predicate Partway(before: Files, now: Files, c: Change, needs: seq<nat>, done: nat)
    requires Ascends(needs, |c.members|) && done <= |needs|
  {
    now.Keys == before.Keys &&
    (forall k | done <= k < |needs| ::
       c.members[needs[k]].path in now && now[c.members[needs[k]].path] == c.members[needs[k]].before) &&
    (forall p | p in before && !Among(c, needs, done, p) :: now[p] == before[p])
  }

  lemma OneMoreBack(before: Files, now: Files, c: Change, needs: seq<nat>, k: nat)
    requires Ascends(needs, |c.members|) && k < |needs| && WellFormed(c)
    requires Partway(before, now, c, needs, k + 1) && c.members[needs[k]].path in before
    ensures Partway(before, now[c.members[needs[k]].path := c.members[needs[k]].before], c, needs, k)
  {
  }

  /** Put back from the end, all needed members give the whole change put back. */
  lemma AllBack(before: Files, now: Files, c: Change, needs: seq<nat>)
    requires WellFormed(c) && Ascends(needs, |c.members|) && Needed(before, c, needs, |c.members|) &&
             Partway(before, now, c, needs, 0)
    ensures PutBack(before, now, c.members)
  {
  }

  /** Stopped part of the way, every member holds either its old bytes or the change. */
  lemma SomeBack(before: Files, now: Files, c: Change, needs: seq<nat>, done: nat)
    requires WellFormed(c) && Ascends(needs, |c.members|) && Needed(before, c, needs, |c.members|)
    requires done <= |needs| && Partway(before, now, c, needs, done)
    ensures Ready(now, c.(state := RecoveryFailed)) && OthersKept(before, now, c.members)
  {
  }

  lemma ReadyWhenNeeded(files: Files, c: Change, needs: seq<nat>)
    requires Needed(files, c, needs, |c.members|)
    ensures Ready(files, c)
  {
  }

  lemma NothingBackYet(files: Files, c: Change, needs: seq<nat>)
    requires Ascends(needs, |c.members|)
    ensures Partway(files, files, c, needs, |needs|)
  {
  }

  lemma {:induction false} AscendsIsShort(needs: seq<nat>, n: nat)
    requires Ascends(needs, n)
    ensures |needs| <= n
    decreases |needs|
  {
    if needs != [] {
      AscendsIsShort(needs[..|needs| - 1], needs[|needs| - 1]);
    }
  }

  lemma OneMemberOneWrite(before: Files, now: Files, c: Change, needs: seq<nat>, k: nat)
    requires |c.members| == 1 && Ascends(needs, 1) && k < |needs| && Partway(before, now, c, needs, k + 1)
    ensures now == before
  {
    AscendsIsShort(needs, 1);
    assert forall p | p in before :: !Among(c, needs, k + 1, p);
  }

  lemma StillSeen(looked: map<Path, (Content, nat)>, next: map<Path, (Content, nat)>, c: Change, needs: seq<nat>,
                  k: nat)
    requires WellFormed(c) && k < |needs| && Ascends(needs, |c.members|) && Seen(looked, c, needs, k + 1)
    requires c.members[needs[k]].path in next &&
             next == looked[c.members[needs[k]].path := next[c.members[needs[k]].path]]
    ensures Seen(next, c, needs, k)
  {
  }

  lemma WasSeen(looked: map<Path, (Content, nat)>, c: Change, needs: seq<nat>, k: nat)
    requires k < |needs| && Ascends(needs, |c.members|) && Seen(looked, c, needs, k + 1)
    ensures needs[k] < |c.members| && c.members[needs[k]].path in looked &&
            Sha256(looked[c.members[needs[k]].path].0) == c.members[needs[k]].afterHash
  {
  }

  lemma IsHeld(before: Files, now: Files, c: Change, needs: seq<nat>, k: nat)
    requires k < |needs| && Ascends(needs, |c.members|) && Needed(before, c, needs, |c.members|)
    ensures needs[k] < |c.members| && c.members[needs[k]].path in before
  {
  }

  lemma NothingLogged(log: seq<Event>, ms: seq<Member>)
    ensures OnlyOwnBytes(log, |log|, ms)
  {
  }

  lemma OwnBytesLogged(log: seq<Event>, next: seq<Event>, start: nat, ms: seq<Member>, index: nat)
    requires start <= |log| && OnlyOwnBytes(log, start, ms) && index < |ms|
    requires |next| == |log| + 1 && next[..|log|] == log && OwnRestore(next[|log|], ms[index])
    ensures OnlyOwnBytes(next, start, ms)
  {
  }

  /** rollback_impl for the entry it took out of the registry: check every member, then put the
      old bytes back, last member first. */
  method RollBackEntry(disk: Volume, c: Change) returns (d: Change, r: Result<State, Failure>)
    requires disk.Valid() && WellFormed(c)
    modifies disk
    ensures disk.Valid() && RollbackStep(c, d) && WellFormed(d)
    ensures r.Ok? ==> r.value == d.state && Rollbackable(c.state) && (d.state.RolledBack? || d.state.RollbackConflict?)
    ensures !Rollbackable(c.state) ==> r.Err? && r.error.Conflict? && d == c && disk.log == old(disk.log)
    ensures r.Ok? && d.state.RollbackConflict? ==> disk.log == old(disk.log)
    ensures |disk.log| >= |old(disk.log)| && disk.log[..|old(disk.log)|] == old(disk.log) &&
            OnlyOwnBytes(disk.log, |old(disk.log)|, c.members)
    ensures disk.quiet && r.Ok? && d.state.RolledBack? ==>
              Ready(old(disk.files), c) && PutBack(old(disk.files), disk.files, c.members)
    ensures disk.quiet && r.Ok? && d.state.RollbackConflict? ==>
              !Ready(old(disk.files), c) && disk.files == old(disk.files)
    ensures disk.quiet && r.Err? && !r.error.RecoveryIncomplete? ==> disk.files == old(disk.files) && d == c
    ensures r.Err? && r.error.RecoveryIncomplete? ==>
              d.state.RecoveryFailed? && |c.members| > 1 && |r.error.paths| == |c.members|
    ensures disk.quiet && r.Err? && r.error.RecoveryIncomplete? ==>
              Ready(disk.files, d) && OthersKept(old(disk.files), disk.files, c.members) &&
              forall i | 0 <= i < |c.members| ::
                TrueState(disk.files, c.members[i].path, c.members[i].beforeHash, c.members[i].afterHash,
                          r.error.paths[i])
    ensures disk.reliable && Rollbackable(c.state) ==> r.Ok?
    ensures r.Err? ==> (r.error.Conflict? <==> c.state in {Committed, RolledBack, RollbackConflict})
    ensures r.Err? ==> !r.error.NotFound? && !r.error.Denied?
    ensures disk.quiet && r.Ok? && c.state.AppliedAwaitingCompletion? ==>
              (r.value == RolledBack <==> AllStillApplied(old(disk.files), c.members))
    ensures disk.quiet && r.Ok? && c.state.RecoveryFailed? ==>
              (r.value == RolledBack <==> AllWrittenOrRestored(old(disk.files), c.members))
  {
    hide Volume.Valid, Ready, PutBack, OthersKept, OnlyOwnBytes, Partway, Needed, Seen, Ascends, TrueState;
    d := c;
    ReadyExactlyWhen(disk.files, c);
    if !Rollbackable(c.state) {
      NothingLogged(disk.log, c.members);
      return d, Err(Conflict);
    }
    var found, conflict := FindMembers(disk, c);
    NothingLogged(disk.log, c.members);
    if found.Err? {
      return d, Err(IoFailed);
    }
    if conflict {
      d := c.(state := RollbackConflict);
      return d, Ok(RollbackConflict);
    }
    var needs := found.value;
    var k := |needs|;
    ghost var start := disk.files;
    NothingBackYet(start, c, needs);
    while k > 0
      invariant 0 <= k <= |needs| && disk.Valid() && Seen(disk.looked, c, needs, k)
      invariant |disk.log| >= |old(disk.log)| && disk.log[..|old(disk.log)|] == old(disk.log)
      invariant OnlyOwnBytes(disk.log, |old(disk.log)|, c.members)
      invariant disk.quiet ==> Partway(start, disk.files, c, needs, k)
    {
      k := k - 1;
      ghost var log, looked := disk.log, disk.looked;
      ghost var files := disk.files;
      WasSeen(looked, c, needs, k);
      var member := c.members[needs[k]];
      var ok := disk.AtomicWrite(member.path, member.before);
      if !ok {
        if disk.quiet {
          SomeBack(start, disk.files, c, needs, k + 1);
        }
        if |c.members| == 1 {
          if disk.quiet { OneMemberOneWrite(start, disk.files, c, needs, k); }
          return d, Err(IoFailed);
        }
        d := c.(state := RecoveryFailed);
        var paths := ClassifyAll(disk, c.members);
        return d, Err(RecoveryIncomplete(paths));
      }
      OwnBytesLogged(log, disk.log, |old(disk.log)|, c.members, needs[k]);
      StillSeen(looked, disk.looked, c, needs, k);
      if disk.quiet {
        IsHeld(start, files, c, needs, k);
        OneMoreBack(start, files, c, needs, k);
      }
    }
    if disk.quiet {
      ReadyWhenNeeded(start, c, needs);
      AllBack(start, disk.files, c, needs);
    }
    d := c.(state := RolledBack);
    r := Ok(RolledBack);
  }
}
