/** The registry of applied changes and its life cycle under concurrent commits and rollbacks
    (crates/xuanling-toolkit/src/fs/change.rs). */
module ChangeRegistry {
  import opened Wrappers
  import opened Disk
  import opened ChangeSet

  type Id = nat

  predicate Permits(ctx: Capability, ms: seq<Member>)
  {
    ctx.Some? ==> forall i | 0 <= i < |ms| :: ms[i].path in ctx.value
  }

  /** The caller is restricted to paths that leave out one of the members. */
  predicate OffLimits(ctx: Capability, ms: seq<Member>)
  {
    ctx.Some? && exists i :: 0 <= i < |ms| && ms[i].path !in ctx.value
  }

  lemma PermitsExactlyWhen(ctx: Capability, ms: seq<Member>)
    ensures Permits(ctx, ms) <==> !OffLimits(ctx, ms)
  {
  }

  function MembersOf(applied: seq<(Path, Content, Sha)>): (ms: seq<Member>)
    ensures |ms| == |applied|
  {
    seq(|applied|,
        i requires 0 <= i < |applied| => Member(applied[i].0, applied[i].1, Sha256(applied[i].1), applied[i].2))
  }

  class Registry {
    var sets: map<Id, Change>
    var next: Id

    ghost predicate Valid()
      reads this
    {
      forall id | id in sets :: id < next && WellFormed(sets[id])
    }

    constructor ()
      ensures Valid() && sets == map[]
    {
      sets, next := map[], 0;
    }

    /** register_applied_group: the group can be committed or rolled back under a new id. */
    method RegisterAppliedGroup(applied: seq<(Path, Content, Sha)>) returns (id: Id)
      requires Valid() && DistinctPaths(MembersOf(applied))
      modifies this
      ensures Valid() && id !in old(sets) &&
              sets == old(sets)[id := Change(MembersOf(applied), AppliedAwaitingCompletion)]
    {
      id := next;
      next := next + 1;
      sets := sets[id := Change(MembersOf(applied), AppliedAwaitingCompletion)];
    }

    method RegisterApplied(path: Path, before: Content, after: Content) returns (id: Id)
      requires Valid()
      modifies this
      ensures Valid() && id !in old(sets)
      ensures sets ==
                old(sets)[id := Change([Member(path, before, Sha256(before), Sha256(after))],
                                       AppliedAwaitingCompletion)]
    {
      assert MembersOf([(path, before, Sha256(after))]) == [Member(path, before, Sha256(before), Sha256(after))];
      id := RegisterAppliedGroup([(path, before, Sha256(after))]);
    }

    method Commit(ctx: Capability, id: Id) returns (r: Result<State, Failure>)
      requires Valid()
      modifies this
      ensures Valid()
      ensures r.Ok? <==>
                id in old(sets) && Permits(ctx, old(sets)[id].members) && old(sets)[id].state.AppliedAwaitingCompletion?
      ensures r == Err(NotFound) <==> id !in old(sets)
      ensures r == Err(Denied) <==> id in old(sets) && OffLimits(ctx, old(sets)[id].members)
      ensures r == Err(Conflict) <==> id in old(sets) && !OffLimits(ctx, old(sets)[id].members) &&
                                      old(sets)[id].state != AppliedAwaitingCompletion
      ensures r.Ok? ==> r.value == Committed && sets == old(sets)[id := old(sets)[id].(state := Committed)]
      ensures r.Err? ==> sets == old(sets)
    {
      if id in sets { PermitsExactlyWhen(ctx, sets[id].members); }
      if id !in sets {
        return Err(NotFound);
      }
      var c := sets[id];
      if !Permits(ctx, c.members) {
        return Err(Denied);
      }
      if !c.state.AppliedAwaitingCompletion? {
        return Err(Conflict);
      }
      sets := sets[id := c.(state := Committed)];
      r := Ok(Committed);
    }

    /** rollback_impl with nobody else at the registry meanwhile: the entry is taken out, rolled
        back and put in again. */
    method Rollback(ctx: Capability, id: Id, disk: Volume) returns (r: Result<State, Failure>)
      requires Valid() && disk.Valid()
      modifies this, disk
      ensures Valid() && disk.Valid()
      ensures r == Err(NotFound) <==> id !in old(sets)
      ensures r == Err(Denied) <==> id in old(sets) && OffLimits(ctx, old(sets)[id].members)
      ensures r == Err(Conflict) <==> id in old(sets) && !OffLimits(ctx, old(sets)[id].members) &&
                                      old(sets)[id].state in {Committed, RolledBack, RollbackConflict}
      ensures r == Err(Conflict) ==>
                sets == old(sets) && disk.log == old(disk.log) && (disk.quiet ==> disk.files == old(disk.files))
      ensures disk.quiet && r.Ok? ==>
                (r.value == RolledBack <==>
                 if old(sets)[id].state.RecoveryFailed? then
                   AllWrittenOrRestored(old(disk.files), old(sets)[id].members)
                 else AllStillApplied(old(disk.files), old(sets)[id].members))
      ensures id !in old(sets) || !Permits(ctx, old(sets)[id].members) ==>
                sets == old(sets) && disk.log == old(disk.log) && disk.files == old(disk.files)
      ensures id in old(sets) ==>
                id in sets && sets == old(sets)[id := sets[id]] && RollbackStep(old(sets)[id], sets[id])
      ensures r.Ok? ==> id in sets && r.value == sets[id].state && (r.value.RolledBack? || r.value.RollbackConflict?)
      ensures disk.quiet && r.Ok? && r.value.RolledBack? ==>
                Ready(old(disk.files), old(sets)[id]) && PutBack(old(disk.files), disk.files, old(sets)[id].members)
      ensures r.Ok? && r.value.RollbackConflict? ==>
                disk.log == old(disk.log) &&
                (disk.quiet ==> !Ready(old(disk.files), old(sets)[id]) && disk.files == old(disk.files))
      ensures disk.quiet && r.Err? && r.error.RecoveryIncomplete? ==>
                sets[id].state.RecoveryFailed? && Ready(disk.files, sets[id])
      ensures disk.quiet && r.Err? && !r.error.RecoveryIncomplete? ==>
                disk.files == old(disk.files) && sets == old(sets)
      ensures disk.reliable && id in old(sets) && Permits(ctx, old(sets)[id].members) &&
              Rollbackable(old(sets)[id].state) ==>
                r.Ok?
    {
      hide Volume.Valid, Ready, PutBack, RollbackStep, OnlyOwnBytes, TrueState, OthersKept, WellFormed, AllStillApplied,
           AllWrittenOrRestored, OffLimits, Permits;
      if id in sets { PermitsExactlyWhen(ctx, sets[id].members); }
      if id !in sets {
        return Err(NotFound);
      }
      var c := sets[id];
      if !Permits(ctx, c.members) {
        Unchanged(c);
        return Err(Denied);
      }
      sets := sets - {id};
      var d;
      d, r := RollBackEntry(disk, c);
      sets := sets[id := d];
      assert sets == old(sets)[id := d];
    }
  }

  lemma Unchanged(c: Change)
    ensures RollbackStep(c, c)
  {
  }

  /** From recovery-failed, with working I/O and nobody else writing, a retry restores every
      member. */
  method Retry(registry: Registry, id: Id, disk: Volume) returns (r: Result<State, Failure>)
    requires registry.Valid() && disk.Valid() && disk.quiet && disk.reliable
    requires id in registry.sets && registry.sets[id].state.RecoveryFailed? && Ready(disk.files, registry.sets[id])
    modifies registry, disk
    ensures r == Ok(RolledBack) && PutBack(old(disk.files), disk.files, old(registry.sets)[id].members)
  {
    hide Volume.Valid, Ready, PutBack, RollbackStep;
    r := registry.Rollback(None, id, disk);
  }

  // ---- life cycle under concurrency ---------------------------------------------------

  /** The registry, and the entry a rollback has taken out of it while it holds the mutation lock. */
  datatype Shared = Shared(sets: map<Id, Change>, held: Option<(Id, Change)>, used: set<Id>)

  datatype Step =
    | Register(id: Id, members: seq<Member>)
    | CommitOne(id: Id)
    | Take(id: Id)
    | PutAgain(outcome: Change)
    | Refused

  ghost predicate Next(s: Shared, step: Step, t: Shared)
  {
    match step
    case Register(id, members) =>
      id !in s.used && t == s.(sets := s.sets[id := Change(members, AppliedAwaitingCompletion)], used := s.used + {id})
    case CommitOne(id) =>
      id in s.sets && s.sets[id].state.AppliedAwaitingCompletion? &&
      t == s.(sets := s.sets[id := s.sets[id].(state := Committed)])
    case Take(id) =>
      s.held.None? && id in s.sets && t == s.(sets := s.sets - {id}, held := Some((id, s.sets[id])))
    case PutAgain(outcome) =>
      s.held.Some? && RollbackStep(s.held.value.1, outcome) &&
      t == s.(sets := s.sets[s.held.value.0 := outcome], held := None)
    case Refused => t == s
  }

  /** Where the change is now, if it was ever registered. */
  function StateOf(s: Shared, id: Id): Option<State>
  {
    if s.held.Some? && s.held.value.0 == id then Some(s.held.value.1.state)
    else if id in s.sets then Some(s.sets[id].state)
    else None
  }

  predicate Final(s: State)
  {
    s.Committed? || s.RolledBack? || s.RollbackConflict?
  }

  ghost predicate Good(s: Shared)
  {
    s.sets.Keys <= s.used && (s.held.Some? ==> s.held.value.0 in s.used && s.held.value.0 !in s.sets)
  }

  ghost predicate History(states: seq<Shared>, steps: seq<Step>)
  {
    |states| == |steps| + 1 && Good(states[0]) &&
    forall i, next | 0 <= i < |steps| && next == i + 1 :: Next(states[i], steps[i], states[next])
  }

  lemma StepKeepsFinal(s: Shared, step: Step, t: Shared, id: Id)
    requires Good(s) && Next(s, step, t)
    ensures Good(t)
    ensures StateOf(s, id).Some? ==> StateOf(t, id).Some?
    ensures StateOf(s, id).Some? && Final(StateOf(s, id).value) ==> StateOf(t, id) == StateOf(s, id)
  {
  }

  /** Committed, rolled back and rollback conflict are final under any interleaving, so a change
      reaches at most one of them. */
  lemma {:induction false} FinalStaysFinal(states: seq<Shared>, steps: seq<Step>, i: nat, j: nat, id: Id)
    requires History(states, steps) && i <= j < |states|
    ensures Good(states[j])
    ensures StateOf(states[i], id).Some? ==> StateOf(states[j], id).Some?
    ensures StateOf(states[i], id).Some? && Final(StateOf(states[i], id).value) ==>
              StateOf(states[j], id) == StateOf(states[i], id)
    decreases j
  {
    hide Next, StateOf, Good;
    if i < j {
      var k := j - 1;
      FinalStaysFinal(states, steps, i, k, id);
      assert Next(states[k], steps[k], states[j]);
      StepKeepsFinal(states[k], steps[k], states[j], id);
    } else if 0 < i {
      var k := i - 1;
      FinalStaysFinal(states, steps, k, k, id);
      assert Next(states[k], steps[k], states[i]);
      StepKeepsFinal(states[k], steps[k], states[i], id);
    }
  }
}
