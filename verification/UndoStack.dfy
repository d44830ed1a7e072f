/** Any list of reversible edits and batches, rolled back newest first, leaves the files as they were
    (crates/xuanling-toolkit/src/fs/write.rs, edit_batch.rs, change.rs). */
module UndoStack {
  import opened Wrappers
  import opened Disk
  import opened ChangeSet
  import opened ChangeRegistry
  import opened EditBatch
  import opened SingleEdit

  datatype Operation = Single(edit: EditRequest) | Group(batch: Request)
  {
    predicate Reversible()
    {
      match this case Single(e) => e.reversible case Group(b) => b.reversible
    }
  }

  /** The change `id` led from the files `a` to the files `b`. */
  ghost predicate Led(sets: map<Id, Change>, id: Id, a: Files, b: Files)
  {
    id in sets && Edited(a, b, sets[id].members)
  }

  /** The first n changes, in order, led through these states. */
  ghost predicate Stacked(sets: map<Id, Change>, ids: seq<Id>, states: seq<Files>)
  {
    |states| == |ids| + 1 && Distinct(ids) &&
    forall i, next | 0 <= i < |ids| && next == i + 1 :: Led(sets, ids[i], states[i], states[next])
  }

  /** The first n changes await completion and the others are rolled back. */
  ghost predicate UndoneFrom(sets: map<Id, Change>, ids: seq<Id>, n: nat)
  {
    (forall i | 0 <= i < |ids| :: ids[i] in sets) &&
    (forall i | 0 <= i < n && i < |ids| :: sets[ids[i]].state.AppliedAwaitingCompletion?) &&
    (forall i | n <= i < |ids| :: sets[ids[i]].state.RolledBack?)
  }

  lemma Push(sets: map<Id, Change>, ids: seq<Id>, states: seq<Files>, id: Id, c: Change, files: Files)
    requires Stacked(sets, ids, states) && UndoneFrom(sets, ids, |ids|) && id !in sets
    requires c.state.AppliedAwaitingCompletion? && Edited(states[|ids|], files, c.members)
    ensures Stacked(sets[id := c], ids + [id], states + [files]) && UndoneFrom(sets[id := c], ids + [id], |ids| + 1)
  {
    hide Edited;
    var more, later, all := ids + [id], states + [files], sets[id := c];
    forall i, next | 0 <= i < |more| && next == i + 1 ensures Led(all, more[i], later[i], later[next]) {
      if i < |ids| { assert Led(sets, ids[i], states[i], states[next]); }
    }
  }

  lemma Pop(sets: map<Id, Change>, ids: seq<Id>, states: seq<Files>, n: nat, c: Change)
    requires n < |ids| && Stacked(sets, ids, states) && UndoneFrom(sets, ids, n + 1)
    requires c.members == sets[ids[n]].members && c.state.RolledBack?
    ensures Stacked(sets[ids[n] := c], ids, states) && UndoneFrom(sets[ids[n] := c], ids, n)
  {
    hide Edited;
    var all := sets[ids[n] := c];
    forall i, next | 0 <= i < |ids| && next == i + 1 ensures Led(all, ids[i], states[i], states[next]) {
      assert Led(sets, ids[i], states[i], states[next]);
    }
  }

  lemma EditedIsReady(a: Files, b: Files, c: Change)
    requires Edited(a, b, c.members)
    ensures Ready(b, c)
  {
  }

  lemma StepKeepsMembers(c: Change, d: Change)
    requires RollbackStep(c, d)
    ensures d.members == c.members
  {
  }

  lemma Newest(sets: map<Id, Change>, ids: seq<Id>, states: seq<Files>, n: nat)
    requires n < |ids| && Stacked(sets, ids, states) && UndoneFrom(sets, ids, n + 1)
    ensures ids[n] in sets && sets[ids[n]].state.AppliedAwaitingCompletion?
    ensures Edited(states[n], states[n + 1], sets[ids[n]].members)
  {
    hide Edited;
    var next := n + 1;
    assert Led(sets, ids[n], states[n], states[next]);
  }

  /** One edit or batch: the change it registered, if it changed anything. */
  method Perform(disk: Volume, registry: Registry, operation: Operation) returns (change: Option<Id>)
    requires disk.Valid() && registry.Valid() && disk.quiet && disk.reliable && operation.Reversible()
    modifies disk, registry
    ensures disk.Valid() && registry.Valid()
    ensures change.None? ==> disk.files == old(disk.files) && registry.sets == old(registry.sets)
    ensures change.Some? ==>
              var id := change.value;
              id !in old(registry.sets) && id in registry.sets &&
              registry.sets == old(registry.sets)[id := registry.sets[id]] &&
              registry.sets[id].state.AppliedAwaitingCompletion? &&
              Edited(old(disk.files), disk.files, registry.sets[id].members)
  {
    hide Volume.Valid, Edited, WellFormed, Verdict, Count;
    hide Applied, InFlight, Captured, AllTrue, AllPlanned, AppliedFirst, OnlyRecovered, Recovered, OnlyOwnRecovery;
    change := None;
    match operation
    case Single(edit) =>
      var r := FsEdit(disk, registry, edit);
      if r.Ok? {
        change := r.value.change;
      }
    case Group(batch) =>
      var r := FsEditBatch(disk, registry, batch);
      if r.Ok? {
        change := r.value.change;
      }
  }

  /** Apply the edits and batches in order, passing over refused ones, then roll back those applied,
      newest first. With working I/O and nobody else writing every rollback succeeds, and the files
      are what they were. `states` are the files after each applied change. */
  method ApplyAndUndo(disk: Volume, registry: Registry, operations: seq<Operation>)
    returns (ids: seq<Id>, ghost states: seq<Files>)
    requires disk.Valid() && registry.Valid() && disk.quiet && disk.reliable
    requires forall k | 0 <= k < |operations| :: operations[k].Reversible()
    modifies disk, registry
    ensures disk.Valid() && registry.Valid()
    ensures disk.files == old(disk.files) && |states| == |ids| + 1 && states[0] == old(disk.files)
    ensures |ids| <= |operations| && Stacked(registry.sets, ids, states) && UndoneFrom(registry.sets, ids, 0)
  {
    hide Volume.Valid, Stacked, UndoneFrom, Edited, PutBack, Ready, RollbackStep, WellFormed;
    ids, states := [], [disk.files];
    Empty(registry.sets, disk.files);
    for k := 0 to |operations|
      invariant disk.Valid() && registry.Valid() && |ids| <= k
      invariant |states| == |ids| + 1 && states[0] == old(disk.files) && states[|ids|] == disk.files
      invariant Stacked(registry.sets, ids, states) && UndoneFrom(registry.sets, ids, |ids|)
    {
      ghost var sets := registry.sets;
      var change := Perform(disk, registry, operations[k]);
      if change.Some? {
        var id := change.value;
        Push(sets, ids, states, id, registry.sets[id], disk.files);
        ids, states := ids + [id], states + [disk.files];
      }
    }
    var n := |ids|;
    while n > 0
      invariant 0 <= n <= |ids| <= |operations| && disk.Valid() && registry.Valid()
      invariant |states| == |ids| + 1 && states[0] == old(disk.files) && states[n] == disk.files
      invariant Stacked(registry.sets, ids, states) && UndoneFrom(registry.sets, ids, n)
    {
      n := n - 1;
      ghost var sets, files := registry.sets, disk.files;
      Newest(sets, ids, states, n);
      EditedIsReady(states[n], files, sets[ids[n]]);
      var r := registry.Rollback(None, ids[n], disk);
      StepKeepsMembers(sets[ids[n]], registry.sets[ids[n]]);
      PutBackUndoes(states[n], files, disk.files, sets[ids[n]].members);
      Pop(sets, ids, states, n, registry.sets[ids[n]]);
    }
  }

  lemma Empty(sets: map<Id, Change>, files: Files)
    ensures Stacked(sets, [], [files]) && UndoneFrom(sets, [], 0)
  {
  }
}
