/** The files a mutating tool works on: any operation may fail, and other writers may act between
    any two steps (crates/xuanling-toolkit/src/fs/mod.rs). */
module Disk {
  import opened Wrappers

  type Path = string

  /** The bytes of a file: the encoding of a text, or bytes that encode no text. */
  datatype Content = Text(text: string) | Raw(bytes: seq<bv8>)

  /** A collision-free digest. */
  datatype Sha = Sha256(content: Content)

  datatype ReadError = Missing | Failed

  type Files = map<Path, Content>

  /** One replacement or removal of a file by this process: what it had last seen there, what was
      there, what is there now, and whether another writer acted since it looked. */
  datatype Event = Event(path: Path, seen: Option<Content>, replaced: Option<Content>, written: Option<Content>,
                         outsideSince: bool)

  /** What a writer overwrites is what it saw, unless somebody else wrote in between. */
  ghost predicate Lawful(log: seq<Event>)
  {
    forall i | 0 <= i < |log| && log[i].seen.Some? && !log[i].outsideSince :: log[i].replaced == log[i].seen
  }

  /** Exactly one event was added. */
  ghost predicate Logged(before: seq<Event>, after: seq<Event>, path: Path, seen: Option<Content>,
                         written: Option<Content>)
  {
    |after| == |before| + 1 && after[..|before|] == before &&
    after[|before|].path == path && after[|before|].seen == seen && after[|before|].written == written
  }

  class Volume {
    var files: Files
    /** Temporary files left behind by failed writes; their random names collide with no target. */
    var leftovers: seq<Content>
    /** No other process writes. */
    const quiet: bool
    /** No operation fails, other than for a missing file. */
    const reliable: bool
    /** How often other processes have written. */
    ghost var epoch: nat
    ghost var looked: map<Path, (Content, nat)>
    ghost var log: seq<Event>

    ghost predicate Valid()
      reads this
    {
      (forall p | p in looked && looked[p].1 == epoch :: p in files && files[p] == looked[p].0) &&
      (forall p | p in looked :: looked[p].1 <= epoch) &&
      Lawful(log)
    }

    constructor (files: Files, quiet: bool, reliable: bool)
      ensures Valid() && this.files == files && this.quiet == quiet && this.reliable == reliable && log == []
    {
      this.files, this.leftovers, this.quiet, this.reliable := files, [], quiet, reliable;
      epoch, looked, log := 0, map[], [];
    }

    /** Other processes may replace, create and remove files here. */
    method Interfere()
      requires Valid()
      modifies `files, `epoch
      ensures Valid() && epoch >= old(epoch)
      ensures epoch == old(epoch) ==> files == old(files)
      ensures quiet ==> epoch == old(epoch)
    {
      if !quiet {
        if * {
          files := *;
          epoch := epoch + 1;
        }
      }
    }

    ghost function SeenAt(path: Path): Option<Content>
      reads this
    {
      if path in looked then Some(looked[path].0) else None
    }

    ghost function Happening(path: Path, written: Option<Content>): Event
      reads this
    {
      Event(path, SeenAt(path), if path in files then Some(files[path]) else None, written,
            path in looked && looked[path].1 < epoch)
    }

    method Read(path: Path) returns (r: Result<Content, ReadError>)
      requires Valid()
      modifies `files, `epoch, `looked
      ensures Valid() && log == old(log) && epoch >= old(epoch)
      ensures quiet ==> files == old(files)
      ensures r.Ok? ==> path in files && files[path] == r.value && looked == old(looked)[path := (r.value, epoch)]
      ensures r.Err? && r.error.Missing? ==> path !in files
      ensures r.Err? ==> looked == old(looked)
      ensures r.Err? && reliable ==> r.error.Missing?
    {
      Interfere();
      if !reliable {
        if * {
          return Err(Failed);
        }
      }
      if path !in files {
        return Err(Missing);
      }
      looked := looked[path := (files[path], epoch)];
      r := Ok(files[path]);
    }

    /** atomic_write_file: write a temporary file beside the target, then rename it over the
        target. A failure never changes the target, though a temporary file can be left behind. */
    method AtomicWrite(target: Path, bytes: Content) returns (ok: bool)
      requires Valid()
      modifies this
      ensures Valid() && epoch >= old(epoch)
      ensures quiet ==> files == if ok then old(files)[target := bytes] else old(files)
      ensures ok ==> target in files && files[target] == bytes && looked == old(looked)[target := (bytes, epoch)]
      ensures ok ==> Logged(old(log), log, target, old(SeenAt(target)), Some(bytes))
      ensures !ok ==> looked == old(looked) && log == old(log)
      ensures reliable ==> ok
    {
      ok := false;
      Interfere();
      if !reliable {
        if * {
          return;
        }
        if * {
          var part: Content := *;
          leftovers := leftovers + [part];
          return;
        }
      }
      var tmp := bytes;
      Interfere();
      if !reliable {
        if * {
          if * {
            leftovers := leftovers + [tmp];
          }
          return;
        }
      }
      ghost var e := Happening(target, Some(tmp));
      files := files[target := tmp];
      looked := looked[target := (bytes, epoch)];
      log := log + [e];
      ok := true;
    }

    method Remove(path: Path) returns (ok: bool)
      requires Valid()
      modifies this
      ensures Valid() && epoch >= old(epoch)
      ensures quiet ==> files == if ok then old(files) - {path} else old(files)
      ensures ok ==> path !in files && looked == old(looked) - {path}
      ensures ok ==> Logged(old(log), log, path, old(SeenAt(path)), None)
      ensures !ok ==> looked == old(looked) && log == old(log)
      ensures reliable && quiet && path in old(files) ==> ok
    {
      Interfere();
      if path !in files {
        return false;
      }
      if !reliable {
        if * {
          return false;
        }
      }
      ghost var e := Happening(path, None);
      files := files - {path};
      looked := looked - {path};
      log := log + [e];
      ok := true;
    }
  }
}
