/** An exact-text edit of one file, reversible on request (crates/xuanling-toolkit/src/fs/write.rs). */
module SingleEdit {
  import opened Wrappers
  import opened Disk
  import opened EditPlan
  import opened ChangeSet
  import opened ChangeRegistry

  datatype EditRequest = EditRequest(path: Path, edit: Edit, expected: Option<Sha>, dryRun: bool, reversible: bool)

  datatype EditError =
    | InvalidInput
    | ReadFailed(why: ReadError)
    | InvalidUtf8
    | PreimageMismatch
    | NoMatch
    | MultipleMatches(count: nat)
    | WriteFailed

  datatype Outcome = Outcome(before: Content, after: Content, replacements: nat, change: Option<Id>)

  /** What the edit makes of the file. */
  function Verdict(content: Content, req: EditRequest): Result<Content, EditError>
    requires req.edit.find != []
  {
    if !content.Text? then Err(InvalidUtf8)
    else if req.expected.Some? && Sha256(content) != req.expected.value then Err(PreimageMismatch)
    else
      var count := |MatchesFrom(content.text, req.edit.find, 0)|;
      if count == 0 then Err(NoMatch)
      else if count > 1 && !req.edit.replaceAll then Err(MultipleMatches(count))
      else Ok(Text(ReplaceFrom(content.text, req.edit.find, req.edit.put, 0)))
  }

  function Count(content: Content, req: EditRequest): nat
    requires req.edit.find != []
  {
    if content.Text? then |MatchesFrom(content.text, req.edit.find, 0)| else 0
  }

  lemma OneFileIsEdited(before: Files, path: Path, after: Content)
    requires path in before
    ensures Edited(before, before[path := after],
                   [Member(path, before[path], Sha256(before[path]), Sha256(after))])
  {
    var ms := [Member(path, before[path], Sha256(before[path]), Sha256(after))];
    assert ms[0].path == path;
  }

  /** fs_edit. A failed edit or a dry run writes nothing; a finished one has replaced the file it read, by
      every match or the only one, and when reversible is registered with the bytes it replaced. With
      working I/O and no other writer the answer is the verdict on the file. */
  method FsEdit(disk: Volume, registry: Registry, req: EditRequest) returns (r: Result<Outcome, EditError>)
    requires disk.Valid() && registry.Valid()
    modifies disk, registry
    ensures disk.Valid() && registry.Valid()
    ensures r.Ok? ==> req.edit.find != [] && Verdict(r.value.before, req) == Ok(r.value.after) &&
                      r.value.replacements == Count(r.value.before, req)
    ensures r.Err? || req.dryRun ==> disk.log == old(disk.log) && (disk.quiet ==> disk.files == old(disk.files))
    ensures r.Ok? && !req.dryRun ==>
              Logged(old(disk.log), disk.log, req.path, Some(r.value.before), Some(r.value.after))
    ensures r.Ok? && disk.quiet ==> req.path in old(disk.files) && old(disk.files)[req.path] == r.value.before
    ensures r.Ok? && disk.quiet && !req.dryRun ==> disk.files == old(disk.files)[req.path := r.value.after]
    ensures r.Err? || req.dryRun || !req.reversible ==> registry.sets == old(registry.sets)
    ensures r.Ok? ==> (r.value.change.Some? <==> req.reversible && !req.dryRun)
    ensures r.Ok? && r.value.change.Some? ==>
              var id := r.value.change.value;
              id !in old(registry.sets) && id in registry.sets &&
              registry.sets == old(registry.sets)[id := registry.sets[id]] &&
              registry.sets[id].state.AppliedAwaitingCompletion? &&
              (disk.quiet ==> Edited(old(disk.files), disk.files, registry.sets[id].members))
    ensures r == Err(InvalidInput) <==> |req.edit.find| == 0
    ensures disk.quiet && disk.reliable && req.edit.find != [] ==>
              if req.path !in old(disk.files) then r == Err(ReadFailed(Missing))
              else if Verdict(old(disk.files)[req.path], req).Err? then
                r == Err(Verdict(old(disk.files)[req.path], req).error)
              else r.Ok?
  {
    hide MatchesFrom, ReplaceFrom, ReplaceFirst, Edited;
    if req.edit.find == [] {
      return Err(InvalidInput);
    }
    var read := disk.Read(req.path);
    if read.Err? {
      return Err(ReadFailed(read.error));
    }
    var original := read.value;
    if !original.Text? {
      return Err(InvalidUtf8);
    }
    if req.expected.Some? && Sha256(original) != req.expected.value {
      return Err(PreimageMismatch);
    }
    var text := original.text;
    var count := |MatchesFrom(text, req.edit.find, 0)|;
    if count == 0 {
      return Err(NoMatch);
    }
    if count > 1 && !req.edit.replaceAll {
      return Err(MultipleMatches(count));
    }
    var updated;
    if req.edit.replaceAll {
      updated := ReplaceFrom(text, req.edit.find, req.edit.put, 0);
    } else {
      OneMatch(text, req.edit.find, req.edit.put);
      updated := ReplaceFirst(text, req.edit.find, req.edit.put);
    }
    var replacements := if req.edit.replaceAll then count else 1;
    if req.dryRun {
      return Ok(Outcome(original, Text(updated), replacements, None));
    }
    ghost var before := disk.files;
    var ok := disk.AtomicWrite(req.path, Text(updated));
    if !ok {
      return Err(WriteFailed);
    }
    var change: Option<Id> := None;
    if req.reversible {
      OneFileIsEdited(before, req.path, Text(updated));
      var id := registry.RegisterApplied(req.path, original, Text(updated));
      change := Some(id);
    }
    r := Ok(Outcome(original, Text(updated), replacements, change));
  }
}
