/** Writing several files, all or none: targets may not exist yet, and are removed again when a
    later write fails (crates/xuanling-toolkit/src/fs/change.rs). */
module MultiApply {
  import opened Wrappers
  import opened Disk

  /** A change as it is asked for: `path` is the file its spelling leads to, through parent steps and
      links among its directories. */
  datatype FileChange = FileChange(spelling: string, path: Path, after: Content, expected: Option<Sha>)

  datatype Planned = Planned(spelling: string, path: Path, before: Option<Content>, after: Content)

  datatype Reason = ReadFailed | Changed | RestoreFailed

  datatype MultiError =
    | DuplicateTarget(index: nat)
    | PreimageReadFailed(index: nat)
    | PreimageAbsent(index: nat)
    | PreimageMismatch(index: nat)
    | WriteFailed(index: nat, failures: seq<(nat, Reason)>)

  function At(files: Files, p: Path): Option<Content>
  {
    if p in files then Some(files[p]) else None
  }

  predicate DistinctTargets(ps: seq<Planned>)
  {
    forall i, j | 0 <= i < j < |ps| :: ps[i].path != ps[j].path
  }

  predicate DistinctSpellings(ps: seq<Planned>)
  {
    forall i, j | 0 <= i < j < |ps| :: ps[i].spelling != ps[j].spelling
  }

  /** No two spellings lead to one file. */
  predicate NoAliases(cs: seq<FileChange>)
  {
    forall i, j | 0 <= i < j < |cs| && cs[i].spelling != cs[j].spelling :: cs[i].path != cs[j].path
  }

  predicate Targets(ps: seq<Planned>, p: Path)
  {
    exists i :: 0 <= i < |ps| && ps[i].path == p
  }

  /** The plan of these changes, as the guards allow it. */
  ghost predicate Plans(cs: seq<FileChange>, ps: seq<Planned>)
  {
    |ps| == |cs| && DistinctSpellings(ps) && forall i | 0 <= i < |ps| :: PlansOne(cs[i], ps[i])
  }

  ghost predicate PlansOne(c: FileChange, p: Planned)
  {
    p.spelling == c.spelling && p.path == c.path && p.after == c.after &&
    (c.expected.Some? ==> p.before.Some? && Sha256(p.before.value) == c.expected.value)
  }

  ghost predicate Captured(files: Files, ps: seq<Planned>)
  {
    forall i | 0 <= i < |ps| :: At(files, ps[i].path) == ps[i].before
  }

  ghost predicate OthersSame(before: Files, now: Files, ps: seq<Planned>)
  {
    forall p | !Targets(ps, p) :: At(now, p) == At(before, p)
  }

  /** The first n targets hold their new bytes, the rest what they held. */
  ghost predicate Written(before: Files, now: Files, ps: seq<Planned>, n: nat)
  {
    OthersSame(before, now, ps) &&
    forall i | 0 <= i < |ps| :: At(now, ps[i].path) == if i < n then Some(ps[i].after) else ps[i].before
  }

  /** Some of the first n targets are back as they were, at least those not reported; the rest of
      them still hold their new bytes. */
  ghost predicate Undone(before: Files, now: Files, ps: seq<Planned>, n: nat, from: nat, failures: seq<(nat, Reason)>)
  {
    OthersSame(before, now, ps) &&
    (forall i | 0 <= i < |ps| ::
       At(now, ps[i].path) == ps[i].before || (i < n && At(now, ps[i].path) == Some(ps[i].after))) &&
    (forall i | from <= i < |ps| && !Reported(failures, i) :: At(now, ps[i].path) == ps[i].before) &&
    (forall i | 0 <= i < |ps| && i < from && i < n :: At(now, ps[i].path) == Some(ps[i].after))
  }

  predicate Reported(failures: seq<(nat, Reason)>, i: nat)
  {
    exists k :: 0 <= k < |failures| && failures[k].0 == i
  }

  lemma SameEverywhere(a: Files, b: Files)
    requires forall p :: At(a, p) == At(b, p)
    ensures a == b
  {
    forall p ensures p in a <==> p in b { assert At(a, p) == At(b, p); }
    forall p | p in a ensures a[p] == b[p] { assert At(a, p) == At(b, p); }
  }

  lemma UndoneIsBefore(before: Files, now: Files, ps: seq<Planned>, n: nat)
    requires Captured(before, ps) && Undone(before, now, ps, n, 0, [])
    ensures now == before
  {
    forall p ensures At(now, p) == At(before, p) {
      if Targets(ps, p) {
        var i :| 0 <= i < |ps| && ps[i].path == p;
        assert !Reported([], i);
      }
    }
    SameEverywhere(now, before);
  }

  lemma OneWritten(before: Files, now: Files, ps: seq<Planned>, n: nat)
    requires n < |ps| && DistinctTargets(ps) && Written(before, now, ps, n)
    ensures Written(before, now[ps[n].path := ps[n].after], ps, n + 1)
  {
  }

  lemma OneUndone(before: Files, now: Files, next: Files, ps: seq<Planned>, n: nat, from: nat,
                  failures: seq<(nat, Reason)>)
    requires from < n <= |ps| && DistinctTargets(ps) && Undone(before, now, ps, n, from + 1, failures)
    requires At(next, ps[from].path) == ps[from].before && forall p | p != ps[from].path :: At(next, p) == At(now, p)
    ensures Undone(before, next, ps, n, from, failures)
  {
  }

  lemma OneReported(before: Files, now: Files, ps: seq<Planned>, n: nat, from: nat, failures: seq<(nat, Reason)>,
                    why: Reason)
    requires from < n <= |ps| && Undone(before, now, ps, n, from + 1, failures)
    ensures Undone(before, now, ps, n, from, failures + [(from, why)])
  {
    var more := failures + [(from, why)];
    assert more[|failures|].0 == from;
    forall i | Reported(failures, i) ensures Reported(more, i) {
      var k :| 0 <= k < |failures| && failures[k].0 == i;
      assert more[k].0 == i;
    }
  }

  /** rollback_buffer: last write first, and only where the file still holds it. */
  method RollbackBuffer(disk: Volume, ps: seq<Planned>, n: nat, ghost before: Files)
    returns (failures: seq<(nat, Reason)>)
    requires disk.Valid() && n <= |ps|
    requires disk.quiet && DistinctTargets(ps) ==> Written(before, disk.files, ps, n)
    modifies disk
    ensures disk.Valid() && (disk.quiet && DistinctTargets(ps) ==> Undone(before, disk.files, ps, n, 0, failures))
    ensures |disk.log| >= |old(disk.log)| && disk.log[..|old(disk.log)|] == old(disk.log)
    ensures forall k | |old(disk.log)| <= k < |disk.log| :: OwnUndo(disk.log[k], ps)
  {
    hide Volume.Valid, Undone, Written, DistinctTargets;
    ghost var plain := disk.quiet && DistinctTargets(ps);
    failures := [];
    var k := n;
    if plain { NoneUndone(before, disk.files, ps, n); }
    while k > 0
      invariant 0 <= k <= n && disk.Valid()
      invariant plain ==> Undone(before, disk.files, ps, n, k, failures)
      invariant |disk.log| >= |old(disk.log)| && disk.log[..|old(disk.log)|] == old(disk.log)
      invariant forall j | |old(disk.log)| <= j < |disk.log| :: OwnUndo(disk.log[j], ps)
    {
      k := k - 1;
      var p := ps[k];
      var read := disk.Read(p.path);
      ghost var files, log := disk.files, disk.log;
      if read.Err? {
        if plain { OneReported(before, files, ps, n, k, failures, ReadFailed); }
        failures := failures + [(k, ReadFailed)];
        continue;
      }
      if Sha256(read.value) != Sha256(p.after) {
        if plain { OneReported(before, files, ps, n, k, failures, Changed); }
        failures := failures + [(k, Changed)];
        continue;
      }
      var ok;
      if p.before.Some? {
        ok := disk.AtomicWrite(p.path, p.before.value);
      } else {
        ok := disk.Remove(p.path);
      }
      if ok {
        assert OwnUndo(disk.log[|log|], ps);
        if plain { OneUndone(before, files, disk.files, ps, n, k, failures); }
      } else {
        if plain { OneReported(before, files, ps, n, k, failures, RestoreFailed); }
        failures := failures + [(k, RestoreFailed)];
      }
    }
  }

  ghost predicate OwnUndo(e: Event, ps: seq<Planned>)
  {
    exists i :: 0 <= i < |ps| && e.path == ps[i].path && e.written == ps[i].before && e.seen == Some(ps[i].after)
  }

  lemma NoneUndone(before: Files, now: Files, ps: seq<Planned>, n: nat)
    requires n <= |ps| && Written(before, now, ps, n)
    ensures Undone(before, now, ps, n, n, [])
  {
  }

  predicate DistinctAsked(cs: seq<FileChange>)
  {
    forall i, j | 0 <= i < j < |cs| :: cs[i].spelling != cs[j].spelling
  }

  predicate Unguarded(cs: seq<FileChange>)
  {
    forall i | 0 <= i < |cs| :: cs[i].expected.None?
  }

  /** The n-th change can be planned: its spelling is new, and what is guarded is there and as expected. */
  predicate ChangeFits(files: Files, cs: seq<FileChange>, n: nat)
  {
    n < |cs| && (forall i | 0 <= i < n :: cs[i].spelling != cs[n].spelling) &&
    (cs[n].expected.Some? ==> cs[n].path in files && Sha256(files[cs[n].path]) == cs[n].expected.value)
  }

  predicate AllFit(files: Files, cs: seq<FileChange>)
  {
    forall n | 0 <= n < |cs| :: ChangeFits(files, cs, n)
  }

  /** The error is true of the change it names, the first that does not fit. */
  predicate TrueReason(files: Files, cs: seq<FileChange>, e: MultiError)
  {
    match e
    case DuplicateTarget(n) => n < |cs| && exists i :: 0 <= i < n && cs[i].spelling == cs[n].spelling
    case PreimageAbsent(n) => n < |cs| && cs[n].expected.Some? && cs[n].path !in files
    case PreimageMismatch(n) =>
      n < |cs| && cs[n].expected.Some? && cs[n].path in files && Sha256(files[cs[n].path]) != cs[n].expected.value
    case _ => false
  }

  method Preflight(disk: Volume, cs: seq<FileChange>) returns (r: Result<seq<Planned>, MultiError>)
    requires disk.Valid()
    modifies disk`files, disk`epoch, disk`looked
    ensures disk.Valid() && disk.log == old(disk.log) && (disk.quiet ==> disk.files == old(disk.files))
    ensures r.Ok? ==> Plans(cs, r.value) && (disk.quiet ==> Captured(disk.files, r.value))
    ensures r.Err? ==> !r.error.WriteFailed?
    ensures disk.reliable && DistinctAsked(cs) && Unguarded(cs) ==> r.Ok?
    ensures disk.quiet && disk.reliable ==>
              if r.Ok? then AllFit(old(disk.files), cs)
              else TrueReason(old(disk.files), cs, r.error) && r.error.index < |cs| &&
                   (forall i | 0 <= i < r.error.index :: ChangeFits(old(disk.files), cs, i)) &&
                   !AllFit(old(disk.files), cs)
  {
    hide Volume.Valid;
    var ps: seq<Planned> := [];
    for n := 0 to |cs|
      invariant disk.Valid() && disk.log == old(disk.log) &&
                (disk.quiet ==> disk.files == old(disk.files) && Captured(disk.files, ps))
      invariant Plans(cs[..n], ps)
      invariant disk.quiet && disk.reliable ==> forall i | 0 <= i < n :: ChangeFits(old(disk.files), cs, i)
    {
      assert n < |cs| && (disk.quiet && disk.reliable && !ChangeFits(old(disk.files), cs, n) ==>
                            !AllFit(old(disk.files), cs));
      var c := cs[n];
      if exists i :: 0 <= i < |ps| && ps[i].spelling == c.spelling {
        return Err(DuplicateTarget(n));
      }
      var read := disk.Read(c.path);
      if read.Err? && !read.error.Missing? {
        return Err(PreimageReadFailed(n));
      }
      var before := if read.Ok? then Some(read.value) else None;
      if c.expected.Some? {
        if before.None? {
          return Err(PreimageAbsent(n));
        }
        if Sha256(before.value) != c.expected.value {
          return Err(PreimageMismatch(n));
        }
      }
      ps := ps + [Planned(c.spelling, c.path, before, c.after)];
    }
    assert cs[..|cs|] == cs;
    r := Ok(ps);
  }

  /** The files once all changes have been written in order. */
  function AfterAll(files: Files, cs: seq<FileChange>): Files
  {
    if cs == [] then files else AfterAll(files, cs[..|cs| - 1])[cs[|cs| - 1].path := cs[|cs| - 1].after]
  }

  predicate AllHold(files: Files, cs: seq<FileChange>)
  {
    forall i | 0 <= i < |cs| :: At(files, cs[i].path) == Some(cs[i].after)
  }

  /** Changes of one file, however they are spelled, agree on its bytes. */
  predicate Consistent(cs: seq<FileChange>)
  {
    forall i, j | 0 <= i < |cs| && 0 <= j < |cs| && cs[i].path == cs[j].path :: cs[i].after == cs[j].after
  }

  /** Written in order, every change is in place if and only if no two of them write different bytes to
      one file. */
  lemma {:induction false} AllHoldExactlyWhen(files: Files, cs: seq<FileChange>)
    ensures AllHold(AfterAll(files, cs), cs) <==> Consistent(cs)
    decreases |cs|
  {
    if cs != [] {
      var n := |cs| - 1;
      var less, last := cs[..n], cs[n];
      AllHoldExactlyWhen(files, less);
      var now, next := AfterAll(files, less), AfterAll(files, cs);
      if AllHold(next, cs) {
        forall i | 0 <= i < n && cs[i].path == last.path ensures cs[i].after == last.after {
          assert At(next, cs[i].path) == Some(cs[i].after);
        }
        forall i, j | 0 <= i < n && 0 <= j < n && less[i].path == less[j].path ensures less[i].after == less[j].after {
          assert At(next, cs[i].path) == Some(cs[i].after) && At(next, cs[j].path) == Some(cs[j].after);
        }
        assert Consistent(less);
      }
      if Consistent(cs) {
        assert forall i | 0 <= i < n :: less[i] == cs[i];
        assert Consistent(less);
        forall i | 0 <= i < |cs| ensures At(next, cs[i].path) == Some(cs[i].after) {
          if i < n { assert At(now, less[i].path) == Some(less[i].after); }
        }
      }
    }
  }

  /** apply_multi. With no other writer: success writes every change in order; where no two spellings
      lead to one file every target then holds its bytes and nothing else has changed, a failed write
      whose rollback reports no failure leaves every target as it was, absent ones absent, and
      otherwise exactly the reported targets can still hold their new bytes. */
  method ApplyMulti(disk: Volume, cs: seq<FileChange>) returns (r: Result<(), MultiError>, ghost ps: seq<Planned>)
    requires disk.Valid()
    modifies disk
    ensures disk.Valid()
    ensures r.Ok? && disk.quiet ==> disk.files == AfterAll(old(disk.files), cs)
    ensures r.Ok? && disk.quiet && NoAliases(cs) ==>
              Plans(cs, ps) && Captured(old(disk.files), ps) && Written(old(disk.files), disk.files, ps, |ps|)
    ensures r.Err? && !r.error.WriteFailed? ==>
              disk.log == old(disk.log) && (disk.quiet ==> disk.files == old(disk.files))
    ensures r.Err? && r.error.WriteFailed? && disk.quiet && NoAliases(cs) ==>
              Plans(cs, ps) && Undone(old(disk.files), disk.files, ps, r.error.index, 0, r.error.failures) &&
              (r.error.failures == [] ==> disk.files == old(disk.files))
    ensures disk.reliable ==> r.Ok? || !r.error.WriteFailed?
    ensures disk.reliable && disk.quiet && DistinctAsked(cs) && Unguarded(cs) ==> r.Ok?
    ensures disk.quiet && disk.reliable ==>
              if r.Ok? then AllFit(old(disk.files), cs)
              else TrueReason(old(disk.files), cs, r.error) && r.error.index < |cs| &&
                   (forall i | 0 <= i < r.error.index :: ChangeFits(old(disk.files), cs, i)) &&
                   !AllFit(old(disk.files), cs)
  {
    hide Volume.Valid, Plans, Captured, Written, Undone, DistinctTargets, NoAliases, Unguarded, DistinctAsked, AllFit,
         TrueReason, ChangeFits;
    ps := [];
    var planned := Preflight(disk, cs);
    if planned.Err? {
      return Err(planned.error), ps;
    }
    ps := planned.value;
    var todo := planned.value;
    PlansAreDistinct(cs, ps);
    PlansFollow(cs, ps);
    ghost var start := disk.files;
    ghost var plain := disk.quiet && DistinctTargets(ps);
    if disk.quiet { NoneWritten(start, ps); }
    assert cs[..0] == [];
    for n := 0 to |todo|
      invariant disk.Valid() && (plain ==> Written(start, disk.files, ps, n))
      invariant disk.quiet ==> disk.files == AfterAll(start, cs[..n])
    {
      ghost var files := disk.files;
      var ok := disk.AtomicWrite(todo[n].path, todo[n].after);
      if !ok {
        var failures := RollbackBuffer(disk, todo, n, start);
        if plain && failures == [] {
          UndoneIsBefore(start, disk.files, ps, n);
        }
        return Err(WriteFailed(n, failures)), ps;
      }
      assert cs[..n + 1][..n] == cs[..n];
      if plain { OneWritten(start, files, ps, n); }
    }
    assert cs[..|cs|] == cs;
    r := Ok(());
  }

  lemma PlansFollow(cs: seq<FileChange>, ps: seq<Planned>)
    requires Plans(cs, ps)
    ensures |ps| == |cs| && forall i | 0 <= i < |ps| :: ps[i].path == cs[i].path && ps[i].after == cs[i].after
  {
  }

  lemma PlansAreDistinct(cs: seq<FileChange>, ps: seq<Planned>)
    requires Plans(cs, ps)
    ensures NoAliases(cs) ==> DistinctTargets(ps)
  {
  }

  lemma NoneWritten(files: Files, ps: seq<Planned>)
    requires Captured(files, ps)
    ensures Written(files, files, ps, 0)
  {
  }

  /** It does happen: /d/x/../f and /d/f are two spellings of one file, the call succeeds, and the file
      has only the bytes of the second. */
  method AliasIsOverwritten() returns (ok: bool, files: Files)
    ensures ok && files == map["/d/f" := Text("b")]
    ensures !AllHold(files,
                     [FileChange("/d/x/../f", "/d/f", Text("a"), None), FileChange("/d/f", "/d/f", Text("b"), None)])
  {
    var cs := [FileChange("/d/x/../f", "/d/f", Text("a"), None), FileChange("/d/f", "/d/f", Text("b"), None)];
    var disk := new Volume(map[], true, true);
    ghost var ps;
    var r;
    r, ps := ApplyMulti(disk, cs);
    assert cs[..1] == [cs[0]] && cs[..1][..0] == [];
    assert AfterAll(map[], cs[..1]) == map["/d/f" := Text("a")];
    assert At(disk.files, cs[0].path) != Some(cs[0].after);
    ok, files := r.Ok?, disk.files;
  }
}
