/** Moving a file or directory tree: the old destination is put aside before the source is
    installed (crates/xuanling-toolkit/src/fs/copy_move_remove.rs). */
module Move {
  import opened Wrappers

  type Name = string

  /** A location: the names from the root. */
  type Loc = seq<Name>

  datatype Node = Dir | File(content: string) | Link(target: string) | Special

  type FS = map<Loc, Node>

  function At(fs: FS, q: Loc): Option<Node>
  {
    if q in fs then Some(fs[q]) else None
  }

  predicate Nested(a: Loc, b: Loc)
  {
    a <= b || b <= a
  }

  /** The tree at p is exactly this one. */
  ghost predicate Has(fs: FS, p: Loc, tree: FS)
  {
    forall r: Loc :: At(fs, p + r) == At(tree, r)
  }

  ghost predicate Gone(fs: FS, p: Loc)
  {
    forall q | p <= q :: q !in fs
  }

  /** Only locations above, at or below root differ. */
  ghost predicate OnlyNear(a: FS, b: FS, root: Loc)
  {
    forall q | !Nested(q, root) :: At(b, q) == At(a, q)
  }

  /** Only this one location can differ. */
  ghost predicate OnlyAt(a: FS, b: FS, slot: Option<Loc>)
  {
    forall q | slot != Some(q) :: At(b, q) == At(a, q)
  }

  /** Only what is at or below root differs. */
  ghost predicate OnlyBelow(a: FS, b: FS, root: Loc)
  {
    forall q | !(root <= q) :: At(b, q) == At(a, q)
  }

  predicate HasParents(fs: FS, p: Loc)
  {
    forall n | 0 <= n < |p| :: p[..n] in fs
  }

  /** Nothing at or below p but directories, files and links. */
  predicate NoSpecial(fs: FS, p: Loc)
  {
    forall q | q in fs && p <= q :: !fs[q].Special?
  }

  predicate InDirectory(fs: FS, p: Loc)
  {
    p != [] && p[..|p| - 1] in fs && fs[p[..|p| - 1]].Dir?
  }

  lemma BelowStaysApart(p: Loc, r: Loc, root: Loc)
    requires !Nested(p, root)
    ensures !Nested(p + r, root)
  {
  }

  lemma TreeSurvives(a: FS, b: FS, root: Loc, p: Loc, tree: FS)
    requires Has(a, p, tree) && OnlyNear(a, b, root) && !Nested(p, root)
    ensures Has(b, p, tree)
  {
  }

  // ---- renaming -----------------------------------------------------------------------

  /** The file system after the entry at a, with all below it, has become the entry at b. */
  function Renamed(fs: FS, a: Loc, b: Loc): FS
  {
    map q | q in RenamedKeys(fs, a, b) ::
      if b <= q && a + q[|b|..] in fs then fs[a + q[|b|..]] else if q in fs then fs[q] else Dir
  }

  function RenamedKeys(fs: FS, a: Loc, b: Loc): set<Loc>
  {
    (set q | q in fs && !(a <= q) && !(b <= q)) + (set q | q in fs && a <= q :: b + q[|a|..])
  }

  lemma RenamedAt(fs: FS, a: Loc, b: Loc, q: Loc)
    requires !Nested(a, b)
    ensures At(Renamed(fs, a, b), q) == if b <= q then At(fs, a + q[|b|..]) else if a <= q then None else At(fs, q)
  {
    if b <= q {
      var s := a + q[|b|..];
      assert b + s[|a|..] == q;
      assert s in fs ==> q in RenamedKeys(fs, a, b);
      if q in RenamedKeys(fs, a, b) {
        var x :| x in fs && a <= x && q == b + x[|a|..];
        assert a + x[|a|..] == x && q[|b|..] == x[|a|..];
      }
    } else {
      assert forall x | x in fs && a <= x :: b <= b + x[|a|..];
      assert q in RenamedKeys(fs, a, b) <==> q in fs && !(a <= q);
    }
  }

  lemma NotBelowBoth(a: Loc, b: Loc, q: Loc)
    requires !Nested(a, b)
    ensures !(a <= q && b <= q)
  {
  }

  lemma RenamedTree(fs: FS, a: Loc, b: Loc, tree: FS)
    requires !Nested(a, b) && Has(fs, a, tree)
    ensures Has(Renamed(fs, a, b), b, tree) && Gone(Renamed(fs, a, b), a)
  {
    var next := Renamed(fs, a, b);
    forall r: Loc ensures At(next, b + r) == At(tree, r) {
      RenamedAt(fs, a, b, b + r);
      assert (b + r)[|b|..] == r;
      assert At(fs, a + r) == At(tree, r);
    }
    forall q | a <= q ensures q !in next {
      RenamedAt(fs, a, b, q);
      NotBelowBoth(a, b, q);
      assert At(next, q) == None;
    }
  }

  lemma RenamedKeepsTree(fs: FS, a: Loc, b: Loc, p: Loc, tree: FS)
    requires !Nested(a, b) && !Nested(p, a) && !Nested(p, b) && Has(fs, p, tree)
    ensures Has(Renamed(fs, a, b), p, tree)
  {
  }

  datatype RenameError = CrossDevice | Other

  class Volume {
    var fs: FS
    /** The places between which a rename would cross devices. */
    const crosses: (Loc, Loc) -> bool
    /** No copy or removal fails for reasons of its own. */
    const reliable: bool
    /** Every state the file system has been in since the volume was opened. */
    ghost var trace: seq<FS>

    constructor (fs: FS, crosses: (Loc, Loc) -> bool, reliable: bool)
      ensures Valid() && this.fs == fs && this.crosses == crosses && this.reliable == reliable && trace == [fs]
    {
      this.fs, this.crosses, this.reliable := fs, crosses, reliable;
      trace := [fs];
    }

    ghost predicate Valid()
      reads this
    {
      trace != [] && trace[|trace| - 1] == fs
    }

    /** The states since the trace had this length all satisfy OnlyNear. */
    ghost predicate Near(start: FS, from: nat, root: Loc)
      reads this
    {
      forall k | from <= k < |trace| :: OnlyNear(start, trace[k], root)
    }

    /** rename(2): all or nothing, at the kernel's discretion; never into itself, into a directory that
        is missing, or over one that is not empty. */
    method Rename(a: Loc, b: Loc) returns (r: Result<(), RenameError>)
      requires Valid()
      modifies this
      ensures Valid()
      ensures r.Err? ==> fs == old(fs) && trace == old(trace)
      ensures r.Ok? ==> a in old(fs) && !Nested(a, b) && fs == Renamed(old(fs), a, b) && trace == old(trace) + [fs]
      ensures r.Err? && r.error.CrossDevice? ==> a in fs && !Nested(a, b)
      ensures r.Ok? || r.error.CrossDevice? ==> InDirectory(old(fs), b)
      ensures a in old(fs) && !Nested(a, b) && InDirectory(old(fs), b) ==> (r == Err(CrossDevice) <==> crosses(a, b))
      ensures reliable && a in old(fs) && !Nested(a, b) && InDirectory(old(fs), b) && !crosses(a, b) ==>
                (b !in old(fs) || (!old(fs)[a].Dir? && !old(fs)[b].Dir?) ==> r.Ok?)
    {
      if a !in fs || Nested(a, b) || !InDirectory(fs, b) {
        return Err(Other);
      }
      if crosses(a, b) {
        return Err(CrossDevice);
      }
      if b in fs && fs[b].Dir? && exists q :: q in fs && b < q {
        return Err(Other);
      }
      if !reliable || (b in fs && (fs[a].Dir? || fs[b].Dir?)) {
        if * {
          return Err(Other);
        }
      }
      fs := Renamed(fs, a, b);
      trace := trace + [fs];
      r := Ok(());
    }

    /** remove_any: what is below goes before what is above, and any step may fail. */
    method RemoveAny(p: Loc) returns (ok: bool)
      requires Valid()
      modifies this
      ensures Valid() && |trace| >= |old(trace)| && trace[..|old(trace)|] == old(trace)
      ensures Near(old(fs), |old(trace)|, p) && OnlyNear(old(fs), fs, p)
      ensures OnlyBelow(old(fs), fs, p) && (ok ==> Gone(fs, p))
      ensures reliable && p in old(fs) ==> ok
    {
      if p !in fs {
        return false;
      }
      var todo := set q | q in fs && p <= q;
      while todo != {}
        invariant Valid() && |trace| >= |old(trace)| && trace[..|old(trace)|] == old(trace)
        invariant Near(old(fs), |old(trace)|, p) && OnlyNear(old(fs), fs, p)
        invariant forall q | q in fs && p <= q :: q in todo
        invariant (forall q | q in todo :: p <= q) && forall q | !(p <= q) :: At(fs, q) == At(old(fs), q)
        decreases todo
      {
        if !reliable {
          if * {
            return false;
          }
        }
        var q := Deepest(todo);
        todo := todo - {q};
        fs := fs - {q};
        trace := trace + [fs];
      }
      ok := true;
    }

    /** The directories above the slot. */
    method MakeParents(b: Loc) returns (ok: bool)
      requires Valid() && Gone(fs, b)
      modifies this
      ensures Valid() && |trace| >= |old(trace)| && trace[..|old(trace)|] == old(trace)
      ensures Near(old(fs), |old(trace)|, b) && OnlyNear(old(fs), fs, b) && Gone(fs, b)
      ensures HasParents(old(fs), b) ==> ok && fs == old(fs)
    {
      for n := 0 to |b|
        invariant Valid() && |trace| >= |old(trace)| && trace[..|old(trace)|] == old(trace)
        invariant Near(old(fs), |old(trace)|, b) && OnlyNear(old(fs), fs, b) && Gone(fs, b)
        invariant HasParents(old(fs), b) ==> fs == old(fs)
      {
        if b[..n] !in fs {
          if * {
            return false;
          }
          fs := fs[b[..n] := Dir];
          trace := trace + [fs];
        }
      }
      ok := true;
    }

    /** Copying a file onto a dangling link: opening the link for writing makes what it leads to, when
        that can be made. */
    method CopyThrough(a: Loc, leads: Option<Loc>) returns (ok: bool)
      requires Valid() && a in fs && leads != Some(a)
      modifies this
      ensures Valid() && |trace| >= |old(trace)| && trace[..|old(trace)|] == old(trace)
      ensures OnlyAt(old(fs), fs, leads) && forall k | |old(trace)| <= k < |trace| :: OnlyAt(old(fs), trace[k], leads)
      ensures ok ==> leads.Some? && fs == old(fs)[leads.value := old(fs)[a]]
      ensures reliable && leads.Some? ==> ok
      ensures leads.None? ==> fs == old(fs)
    {
      if leads.None? {
        return false;
      }
      if !reliable {
        if * {
          return false;
        }
        var part: string := *;
        fs := fs[leads.value := File(part)];
        trace := trace + [fs];
        if * {
          return false;
        }
      }
      fs := fs[leads.value := fs[a]];
      trace := trace + [fs];
      ok := true;
    }

    /** Copy a tree into an empty slot, entry by entry, directories before what is in them. */
    method CopyTree(a: Loc, b: Loc) returns (ok: bool)
      requires Valid() && !Nested(a, b) && Gone(fs, b)
      modifies this
      ensures Valid() && |trace| >= |old(trace)| && trace[..|old(trace)|] == old(trace)
      ensures Near(old(fs), |old(trace)|, b) && OnlyNear(old(fs), fs, b) && OnlyBelow(old(fs), fs, b)
      ensures ok ==> forall tree | Has(old(fs), a, tree) :: Has(fs, b, tree)
      ensures if ok then NoSpecial(old(fs), a) else !reliable || !NoSpecial(old(fs), a)
    {
      hide Copying, OnlyNear, OnlyBelow, Gone;
      ghost var start := fs;
      ghost var length := |trace|;
      var todo := set q | q in fs && a <= q;
      ghost var done: set<Loc> := {};
      NothingCopied(fs, a, b, todo);
      while todo != {}
        invariant Valid() && |trace| >= length && trace[..length] == old(trace)
        invariant Near(start, length, b) && Copying(start, fs, a, b, todo, done)
        decreases todo
      {
        var q := Shallowest(todo);
        ReadsTheSource(start, fs, a, b, todo, done, q);
        var slot := b + q[|a|..];
        if fs[q].Special? {
          CopyingIsNear(start, fs, a, b, todo, done);
          return false;
        }
        if !reliable {
          if * {
            CopyingIsNear(start, fs, a, b, todo, done);
            if * {
              var part: string := *;
              NearWhenBelow(start, fs, b, slot, File(part));
              fs := fs[slot := File(part)];
              trace := trace + [fs];
            }
            return false;
          }
        }
        CopiedOne(start, fs, a, b, todo, done, q);
        todo, done := todo - {q}, done + {q};
        fs := fs[slot := fs[q]];
        trace := trace + [fs];
        CopyingIsNear(start, fs, a, b, todo, done);
      }
      CopyingIsNear(start, fs, a, b, todo, done);
      NoneSpecial(start, fs, a, b, done);
      forall tree | Has(start, a, tree) ensures Has(fs, b, tree) {
        AllCopied(start, fs, a, b, done, tree);
      }
      ok := true;
    }
  }

  /** Part of the way through a copy: exactly the entries done are below b. */
  ghost predicate Copying(start: FS, fs: FS, a: Loc, b: Loc, todo: set<Loc>, done: set<Loc>)
  {
    OnlyBelow(start, fs, b) && todo !! done &&
    (forall q | a <= q :: q in start <==> q in todo || q in done) &&
    (forall q | q in todo || q in done :: a <= q) && (forall q | q in done :: q in start && !start[q].Special?) &&
    (forall r: Loc :: At(fs, b + r) == if a + r in done then At(start, a + r) else None)
  }

  lemma NothingCopied(fs: FS, a: Loc, b: Loc, todo: set<Loc>)
    requires Gone(fs, b) && todo == set q | q in fs && a <= q
    ensures Copying(fs, fs, a, b, todo, {})
  {
  }

  lemma CopyingIsNear(start: FS, fs: FS, a: Loc, b: Loc, todo: set<Loc>, done: set<Loc>)
    requires Copying(start, fs, a, b, todo, done)
    ensures OnlyBelow(start, fs, b) && OnlyNear(start, fs, b)
  {
  }

  lemma NearWhenBelow(start: FS, fs: FS, b: Loc, slot: Loc, n: Node)
    requires OnlyBelow(start, fs, b) && b <= slot
    ensures OnlyBelow(start, fs[slot := n], b) && OnlyNear(start, fs[slot := n], b)
  {
  }

  lemma ReadsTheSource(start: FS, fs: FS, a: Loc, b: Loc, todo: set<Loc>, done: set<Loc>, q: Loc)
    requires Copying(start, fs, a, b, todo, done) && !Nested(a, b) && q in todo
    ensures a <= q && q in fs && q in start && fs[q] == start[q] && b <= b + q[|a|..]
  {
    assert q == a + q[|a|..];
    BelowStaysApart(a, q[|a|..], b);
    assert At(fs, q) == At(start, q);
  }

  lemma CopiedOne(start: FS, fs: FS, a: Loc, b: Loc, todo: set<Loc>, done: set<Loc>, q: Loc)
    requires Copying(start, fs, a, b, todo, done) && a <= q && q in todo && q in fs && q in start &&
             fs[q] == start[q] &&
             !fs[q].Special?
    ensures Copying(start, fs[b + q[|a|..] := fs[q]], a, b, todo - {q}, done + {q})
  {
    var r := q[|a|..];
    var next := fs[b + r := fs[q]];
    forall s: Loc ensures At(next, b + s) == if a + s in done + {q} then At(start, a + s) else None {
      assert (a + s)[|a|..] == s && a + r == q && (b + s)[|b|..] == s && (b + r)[|b|..] == r;
      assert At(fs, b + s) == if a + s in done then At(start, a + s) else None;
    }
  }

  lemma NoneSpecial(start: FS, fs: FS, a: Loc, b: Loc, done: set<Loc>)
    requires Copying(start, fs, a, b, {}, done)
    ensures NoSpecial(start, a)
  {
  }

  lemma AllCopied(start: FS, fs: FS, a: Loc, b: Loc, done: set<Loc>, tree: FS)
    requires Copying(start, fs, a, b, {}, done) && Has(start, a, tree)
    ensures Has(fs, b, tree)
  {
  }

  method Deepest(s: set<Loc>) returns (q: Loc)
    requires s != {}
    ensures q in s && forall x | x in s :: |x| <= |q|
  {
    q :| q in s;
    var rest := s - {q};
    while rest != {}
      invariant q in s && rest <= s && forall x | x in s && x !in rest :: |x| <= |q|
      decreases rest
    {
      var x :| x in rest;
      rest := rest - {x};
      if |x| > |q| {
        q := x;
      }
    }
  }

  method Shallowest(s: set<Loc>) returns (q: Loc)
    requires s != {}
    ensures q in s && forall x | x in s :: |q| <= |x|
  {
    q :| q in s;
    var rest := s - {q};
    while rest != {}
      invariant q in s && rest <= s && forall x | x in s && x !in rest :: |q| <= |x|
      decreases rest
    {
      var x :| x in rest;
      rest := rest - {x};
      if |x| < |q| {
        q := x;
      }
    }
  }

  // ---- the move -----------------------------------------------------------------------

  datatype MoveError = NotFound | Overlap | AlreadyExists | Failed

  /** A finished move, and what it could not clean up. */
  datatype Moved = Moved(copied: bool, sourceLeft: bool, backupLeft: bool)

  /** Every entry is in a directory. */
  ghost predicate Closed(fs: FS)
  {
    forall q, n: nat | q in fs && n < |q| :: q[..n] in fs && fs[q[..n]].Dir?
  }

  /** What canonicalization says of a location whose directory is canonical: an entry that is no
      symbolic link, or a free slot, is where it is; a link is where it leads. A free slot whose
      directory cannot be searched has no canonical form. */
  ghost predicate CanonicalSource(fs: FS, p: Loc, c: Option<Loc>)
  {
    (p !in fs ==> c.None?) && (p in fs && !fs[p].Link? ==> c == Some(p))
  }

  ghost predicate CanonicalTarget(fs: FS, p: Loc, c: Option<Loc>)
  {
    (p !in fs ==> c.None? || c == Some(p)) && (p in fs && !fs[p].Link? ==> c == Some(p))
  }

  /** For anything but symbolic links the overlap check is exact. */
  lemma OverlapCheckIsExact(fs: FS, from: Loc, to: Loc, cf: Option<Loc>, ct: Option<Loc>)
    requires from in fs && !fs[from].Link? && (to in fs ==> !fs[to].Link?)
    requires CanonicalSource(fs, from, cf) && CanonicalTarget(fs, to, ct) && ct.Some?
    ensures Nested(cf.value, ct.value) <==> Nested(from, to)
  {
  }

  /** Without the check: putting the destination aside takes a source inside it along, so that it
      is neither at its place nor at the destination. */
  lemma OverlapLosesSource(fs: FS, from: Loc, to: Loc, backup: Loc)
    requires to < from && from in fs && !Nested(to, backup)
    ensures from !in Renamed(fs, to, backup) && to !in Renamed(fs, to, backup)
  {
  }

  /** The check compares where a link leads, not where it is: a source that is a symbolic link
      inside the destination passes it, and is gone as soon as the destination is put aside. */
  lemma LinkInsideDestinationPasses()
    ensures var fs: FS := map[[] := Dir, ["d"] := Dir, ["d", "l"] := Link("/f"), ["f"] := File("x")];
            Closed(fs) && CanonicalSource(fs, ["d", "l"], Some(["f"])) && CanonicalTarget(fs, ["d"], Some(["d"])) &&
            !Nested(["f"], ["d"]) && Nested(["d", "l"], ["d"]) && ["d", "l"] !in Renamed(fs, ["d"], ["b"])
  {
    var fs: FS := map[[] := Dir, ["d"] := Dir, ["d", "l"] := Link("/f"), ["f"] := File("x")];
    var from: Loc, to: Loc, backup: Loc := ["d", "l"], ["d"], ["b"];
    assert to == from[..1] && to[0][0] != backup[0][0];
    NestedSameLength(to, backup);
    forall q, n: nat | q in fs && n < |q| ensures q[..n] in fs {
      assert q[..0] == [] && (|q| == 2 && n == 1 ==> q[..n] == to);
    }
    OverlapLosesSource(fs, from, to, backup);
  }

  /** Nothing changed but at, below or above these three. */
  ghost predicate Untouched(a: FS, b: FS, from: Loc, to: Loc, backup: Loc)
  {
    forall q | !Nested(q, from) && !Nested(q, to) && !Nested(q, backup) :: At(b, q) == At(a, q)
  }

  /** Nothing changed but that, and what was made where a dangling link led. */
  ghost predicate UntouchedBut(a: FS, b: FS, from: Loc, to: Loc, backup: Loc, leads: Option<Loc>)
  {
    forall q | !Nested(q, from) && !Nested(q, to) && !Nested(q, backup) && leads != Some(q) :: At(b, q) == At(a, q)
  }

  lemma UntouchedIsUntouchedBut(a: FS, b: FS, from: Loc, to: Loc, backup: Loc, leads: Option<Loc>)
    ensures Untouched(a, b, from, to, backup) ==> UntouchedBut(a, b, from, to, backup, leads)
  {
  }

  lemma NearUntouched(a: FS, b: FS, c: FS, root: Loc, from: Loc, to: Loc, backup: Loc)
    requires Untouched(a, b, from, to, backup) && OnlyNear(b, c, root) && root in {from, to, backup}
    ensures Untouched(a, c, from, to, backup)
  {
  }

  lemma SameIsUntouched(fs: FS, from: Loc, to: Loc, backup: Loc)
    ensures Untouched(fs, fs, from, to, backup)
  {
  }

  lemma UntouchedIsTransitive(a: FS, b: FS, c: FS, from: Loc, to: Loc, backup: Loc)
    requires Untouched(a, b, from, to, backup) && Untouched(b, c, from, to, backup)
    ensures Untouched(a, c, from, to, backup)
  {
  }

  lemma RenamedUntouched(a: FS, b: FS, x: Loc, y: Loc, from: Loc, to: Loc, backup: Loc)
    requires Untouched(a, b, from, to, backup) && !Nested(x, y) && x in {from, to, backup} && y in {from, to, backup}
    ensures Untouched(a, Renamed(b, x, y), from, to, backup)
  {
  }

  /** Nothing is lost: the source is in its place, and what was at the destination is there or in
      the backup. */
  ghost predicate Safe(fs: FS, from: Loc, to: Loc, backup: Loc, src: FS, dst: FS)
  {
    Has(fs, from, src) && (Has(fs, to, dst) || Has(fs, backup, dst))
  }

  predicate Apart(from: Loc, to: Loc, backup: Loc)
  {
    !Nested(from, to) && !Nested(from, backup) && !Nested(to, backup)
  }

  lemma PrefixOfSibling(p: Loc, to: Loc, name: Name)
    requires to != [] && p <= BackupOf(to, name) && p != BackupOf(to, name)
    ensures p <= to
  {
  }

  lemma NestedSameLength(a: Loc, b: Loc)
    requires |a| == |b|
    ensures Nested(a, b) <==> a == b
  {
  }

  lemma BackupIsApart(fs: FS, from: Loc, to: Loc, name: Name)
    requires Closed(fs) && from in fs && !Nested(from, to) && BackupOf(to, name) !in fs && BackupOf(to, name) != to
    ensures Apart(from, to, BackupOf(to, name))
  {
    var backup := BackupOf(to, name);
    FreeIsGone(fs, backup);
    if from <= backup {
      PrefixOfSibling(from, to, name);
    }
    NestedSameLength(to, backup);
  }

  /** Putting the old destination aside leaves the source complete exactly when neither entry is
      inside the other: the condition under which a move promises anything. */
  lemma PutAsideKeepsSource(fs: FS, from: Loc, to: Loc, name: Name, src: FS)
    requires Closed(fs) && from in fs && to in fs && to != [] && Has(fs, from, src)
    requires BackupOf(to, name) !in fs && BackupOf(to, name) != to
    ensures Has(Renamed(fs, to, BackupOf(to, name)), from, src) <==> !Nested(from, to)
  {
    hide Closed, Renamed, BackupOf;
    var backup := BackupOf(to, name);
    BackupSameLength(to, name);
    NestedSameLength(to, backup);
    if !Nested(from, to) {
      BackupIsApart(fs, from, to, name);
      RenamedKeepsTree(fs, to, backup, from, src);
    } else {
      var lower := if to <= from then from else to;
      var r := lower[|from|..];
      assert from + r == lower;
      RenamedAt(fs, to, backup, lower);
      NotBelowBoth(to, backup, lower);
      assert At(src, r) == At(fs, lower);
    }
  }

  lemma BackupSameLength(to: Loc, name: Name)
    requires to != []
    ensures |BackupOf(to, name)| == |to|
  {
  }

  lemma FreeIsGone(fs: FS, p: Loc)
    requires Closed(fs) && p !in fs
    ensures Gone(fs, p)
  {
    forall q | p <= q ensures q !in fs {
      var n := |p|;
      assert q[..n] == p;
      assert n < |q| || q == p;
    }
  }

  lemma EmptyTrees(fs: FS, p: Loc, q: Loc, tree: FS)
    requires Gone(fs, p) && Gone(fs, q) && Has(fs, p, tree)
    ensures Has(fs, q, tree)
  {
  }

  /** Up to the install every state is safe; from the install on the source is at the destination. */
  ghost predicate Kept(trace: seq<FS>, start: nat, installed: nat, from: Loc, to: Loc, backup: Loc, src: FS, dst: FS)
  {
    (forall k | start <= k < |trace| && k < installed :: Safe(trace[k], from, to, backup, src, dst)) &&
    (forall k | start <= k < |trace| && installed <= k :: Has(trace[k], to, src))
  }

  /** Whatever happens near the destination, while the old one is in the backup. */
  lemma NearIsSafe(fs: FS, trace: seq<FS>, n: nat, start: nat, from: Loc, to: Loc, backup: Loc, src: FS, dst: FS)
    requires n <= |trace| && Apart(from, to, backup) && Has(fs, from, src) && Has(fs, backup, dst)
    requires Kept(trace[..n], start, n, from, to, backup, src, dst)
    requires forall k | n <= k < |trace| :: OnlyNear(fs, trace[k], to)
    ensures Kept(trace, start, |trace|, from, to, backup, src, dst)
  {
    hide Has, OnlyNear;
    forall k | start <= k < |trace| ensures Safe(trace[k], from, to, backup, src, dst) {
      if k < n {
        assert trace[..n][k] == trace[k];
      } else {
        TreeSurvives(fs, trace[k], to, from, src);
        TreeSurvives(fs, trace[k], to, backup, dst);
      }
    }
  }

  /** Whatever happens near another place leaves what is installed alone. */
  lemma NearKeepsInstalled(fs: FS, trace: seq<FS>, n: nat, start: nat, installed: nat, root: Loc,
                           from: Loc, to: Loc, backup: Loc, src: FS, dst: FS)
    requires n <= |trace| && installed <= n && !Nested(to, root) && Has(fs, to, src)
    requires Kept(trace[..n], start, installed, from, to, backup, src, dst)
    requires forall k | n <= k < |trace| :: OnlyNear(fs, trace[k], root)
    ensures Kept(trace, start, installed, from, to, backup, src, dst)
  {
    hide Has, OnlyNear, Safe;
    forall k | start <= k < |trace| && k < installed ensures Safe(trace[k], from, to, backup, src, dst) {
      assert trace[..n][k] == trace[k];
    }
    forall k | start <= k < |trace| && installed <= k ensures Has(trace[k], to, src) {
      if k < n {
        assert trace[..n][k] == trace[k];
      } else {
        TreeSurvives(fs, trace[k], root, to, src);
      }
    }
  }

  lemma OneMoreState(trace: seq<FS>, next: seq<FS>, start: nat, installed: nat, now: nat, from: Loc, to: Loc,
                     backup: Loc, src: FS, dst: FS)
    requires Kept(trace, start, installed, from, to, backup, src, dst) && |next| == |trace| + 1 &&
             next[..|trace|] == trace
    requires now >= |trace| && installed >= |trace|
    requires if |trace| < now then Safe(next[|trace|], from, to, backup, src, dst) else Has(next[|trace|], to, src)
    ensures Kept(next, start, now, from, to, backup, src, dst)
  {
    hide Safe, Has;
    forall k | start <= k < |next| && k < now ensures Safe(next[k], from, to, backup, src, dst) {
      if k < |trace| { assert next[k] == trace[k]; }
    }
  }

  lemma SourceStays(fs: FS, now: FS, from: Loc, to: Loc)
    requires OnlyBelow(fs, now, to) && !Nested(from, to)
    ensures from in fs <==> from in now
  {
    assert At(now, from) == At(fs, from);
  }

  /** All that was at or below `from` is at `to` instead, in place of what was there, and nothing else changed. */
  ghost predicate Replaced(a: FS, b: FS, from: Loc, to: Loc)
  {
    forall q :: At(b, q) == if to <= q then At(a, from + q[|to|..]) else if from <= q then None else At(a, q)
  }

  lemma RenamedIsReplaced(fs: FS, from: Loc, to: Loc)
    requires !Nested(from, to)
    ensures Replaced(fs, Renamed(fs, from, to), from, to)
  {
    hide Renamed;
    forall q ensures At(Renamed(fs, from, to), q) ==
                     if to <= q then At(fs, from + q[|to|..]) else if from <= q then None else At(fs, q) {
      RenamedAt(fs, from, to, q);
    }
  }

  lemma CopiedIsReplaced(fs: FS, copied: FS, after: FS, from: Loc, to: Loc, src: FS)
    requires !Nested(from, to) && Has(fs, from, src) && Has(copied, to, src) && OnlyBelow(fs, copied, to)
    requires OnlyBelow(copied, after, from) && Gone(after, from)
    ensures Replaced(fs, after, from, to)
  {
    forall q ensures At(after, q) ==
                     if to <= q then At(fs, from + q[|to|..]) else if from <= q then None else At(fs, q) {
      NotBelowBoth(from, to, q);
      if to <= q {
        var r := q[|to|..];
        assert to + r == q;
        assert At(copied, to + r) == At(src, r) && At(fs, from + r) == At(src, r);
      }
    }
  }

  /** fs_move_exdev_install with a free slot: copy into it, then remove the source. The source is never
      removed after an incomplete copy. */
  method InstallInSlot(disk: Volume, from: Loc, to: Loc, backup: Loc, ghost start: nat, ghost src: FS, ghost dst: FS)
    returns (r: Result<Moved, MoveError>, ghost installed: nat)
    requires disk.Valid() && Apart(from, to, backup) && Gone(disk.fs, to) && Has(disk.fs, from, src) &&
             Has(disk.fs, backup, dst)
    requires Kept(disk.trace, start, |disk.trace|, from, to, backup, src, dst)
    modifies disk
    ensures disk.Valid() && |disk.trace| >= |old(disk.trace)| &&
            Kept(disk.trace, start, installed, from, to, backup, src, dst)
    ensures r.Err? ==>
              r.error.Failed? && installed == |disk.trace| && Has(disk.fs, from, src) && Has(disk.fs, backup, dst)
    ensures r.Ok? ==>
              installed <= |disk.trace| && Has(disk.fs, to, src) && Has(disk.fs, backup, dst) &&
              (!r.value.sourceLeft ==> Gone(disk.fs, from))
    ensures r.Ok? ==> r.value.copied && !r.value.backupLeft
    ensures Untouched(old(disk.fs), disk.fs, from, to, backup)
    ensures HasParents(old(disk.fs), to) ==>
              if r.Ok? then (!r.value.sourceLeft ==> Replaced(old(disk.fs), disk.fs, from, to))
              else OnlyBelow(old(disk.fs), disk.fs, to)
    ensures r.Ok? && HasParents(old(disk.fs), to) ==> NoSpecial(old(disk.fs), from)
    ensures HasParents(old(disk.fs), to) && disk.reliable && from in old(disk.fs) && NoSpecial(old(disk.fs), from) ==>
              r == Ok(Moved(true, false, false))
  {
    hide Has, Gone, OnlyNear, OnlyBelow, Kept, Safe, Untouched, NoSpecial, Replaced;
    ghost var fs, n := disk.fs, |disk.trace|;
    SameIsUntouched(fs, from, to, backup);
    installed := n;
    assert disk.trace[..n] == disk.trace;
    var made := disk.MakeParents(to);
    NearUntouched(old(disk.fs), fs, disk.fs, to, from, to, backup);
    NearIsSafe(fs, disk.trace, n, start, from, to, backup, src, dst);
    TreeSurvives(fs, disk.fs, to, from, src);
    TreeSurvives(fs, disk.fs, to, backup, dst);
    installed := |disk.trace|;
    if !made {
      return Err(Failed), installed;
    }
    fs, n := disk.fs, |disk.trace|;
    assert disk.trace[..n] == disk.trace;
    var copied := disk.CopyTree(from, to);
    NearUntouched(old(disk.fs), fs, disk.fs, to, from, to, backup);
    NearIsSafe(fs, disk.trace, n, start, from, to, backup, src, dst);
    TreeSurvives(fs, disk.fs, to, from, src);
    TreeSurvives(fs, disk.fs, to, backup, dst);
    installed := |disk.trace|;
    if !copied {
      return Err(Failed), installed;
    }
    assert Has(disk.fs, to, src);
    SourceStays(fs, disk.fs, from, to);
    fs, n := disk.fs, |disk.trace|;
    assert disk.trace[..n] == disk.trace;
    var removed := disk.RemoveAny(from);
    NearUntouched(old(disk.fs), fs, disk.fs, from, from, to, backup);
    NearKeepsInstalled(fs, disk.trace, n, start, installed, from, from, to, backup, src, dst);
    TreeSurvives(fs, disk.fs, from, to, src);
    TreeSurvives(fs, disk.fs, from, backup, dst);
    r := Ok(Moved(true, !removed, false));
    if removed && HasParents(old(disk.fs), to) { CopiedIsReplaced(old(disk.fs), fs, disk.fs, from, to, src); }
  }

  /** Whether the destination exists, as a test that follows links sees it: only a dangling link is
      there and does not exist. */
  ghost predicate ExistsFollowing(fs: FS, to: Loc, present: bool)
  {
    (to !in fs ==> !present) && (to in fs && !fs[to].Link? ==> present)
  }

  /** What a caller can ask for before a move: the destination is absent to lstat, or exists to a test
      that follows links. Otherwise a dangling link is in the slot. */
  predicate Plain(fs: FS, to: Loc, present: bool)
  {
    to !in fs || present
  }

  /** Where writing to a dangling link leads: a free slot in a directory. It leads nowhere when the
      directory is missing too. */
  ghost predicate Leads(fs: FS, to: Loc, present: bool, leads: Option<Loc>)
  {
    leads.Some? ==>
      !Plain(fs, to, present) && leads.value !in fs && InDirectory(fs, leads.value)
  }

  lemma LeadsApart(fs: FS, to: Loc, present: bool, leads: Option<Loc>, p: Loc)
    requires Closed(fs) && Leads(fs, to, present, leads) && leads.Some? && p in fs && !fs[p].Dir?
    ensures !Nested(p, leads.value)
  {
    var at := leads.value;
    var up := at[..|at| - 1];
    FreeIsGone(fs, at);
    AboveIsDirectory(fs, p, up);
    assert up <= at && !(at <= p);
    assert p <= at ==> p == at || p <= up;
    assert p <= up ==> p == up || p < up;
    assert !(p <= at);
  }

  lemma AboveIsDirectory(fs: FS, p: Loc, q: Loc)
    requires Closed(fs) && q in fs
    ensures p < q ==> p in fs && fs[p].Dir?
  {
    var n := |p|;
    assert p < q ==> q[..n] == p;
  }

  /** The file system after a file was copied onto a dangling link and removed from its place. */
  function WrittenThrough(fs: FS, from: Loc, leads: Loc): FS
    requires from in fs
  {
    fs[leads := fs[from]] - {from}
  }

  /** Then the destination is still the link, and the file is where the link led and nowhere else. */
  lemma WrittenThroughMissesDestination(fs: FS, from: Loc, to: Loc, present: bool, leads: Option<Loc>, src: FS)
    requires Closed(fs) && ExistsFollowing(fs, to, present) && Leads(fs, to, present, leads) && leads.Some?
    requires from in fs && fs[from].File? && Has(fs, from, src)
    ensures var after := WrittenThrough(fs, from, leads.value);
            At(after, to) == At(fs, to) && fs[to].Link? && !Has(after, to, src) &&
            Has(after, leads.value, src) && Gone(after, from)
  {
    var at := leads.value;
    var after := WrittenThrough(fs, from, at);
    LeadsApart(fs, to, present, leads, from);
    FreeIsGone(fs, at);
    NothingBelowFile(fs, from);
    assert from + [] == from && to + [] == to && at + [] == at;
    assert At(fs, from + []) == At(src, []);
    assert At(after, to + []) != At(src, []);
    forall r: Loc ensures At(after, at + r) == At(src, r) {
      assert At(fs, from + r) == At(src, r);
      if r != [] { assert at < at + r && from < from + r; }
    }
    forall q | from <= q ensures q !in after {
      assert q == from || from < q;
      assert q != at;
    }
  }

  lemma NothingBelowFile(fs: FS, p: Loc)
    requires Closed(fs) && p in fs && !fs[p].Dir?
    ensures forall q | p < q :: q !in fs
  {
    forall q | p < q ensures q !in fs {
      if q in fs { AboveIsDirectory(fs, p, q); }
    }
  }

  /** The checks before anything is touched. */
  function Refusal(cf: Option<Loc>, ct: Option<Loc>, present: bool, overwrite: bool): Option<MoveError>
  {
    if cf.None? then Some(NotFound)
    else if ct.None? then Some(Failed)
    else if Nested(cf.value, ct.value) then Some(Overlap)
    else if present && !overwrite then Some(AlreadyExists)
    else None
  }

  /** Without overwrite an entry at the destination is safe exactly when it is no dangling link. */
  lemma OnlyDanglingLinksAreReplaced(fs: FS, to: Loc, cf: Option<Loc>, ct: Option<Loc>, present: bool)
    requires ExistsFollowing(fs, to, present) && cf.Some? && ct.Some? && !Nested(cf.value, ct.value) && to in fs
    ensures Refusal(cf, ct, present, false).None? <==> fs[to].Link? && !present
  {
  }

  /** Such a link passes the checks and is renamed over. */
  lemma DanglingLinkIsReplaced()
    ensures var fs: FS := map[[] := Dir, ["a"] := File("x"), ["l"] := Link("gone")];
            ExistsFollowing(fs, ["l"], false) && Refusal(Some(["a"]), Some(["l"]), false, false) == None &&
            At(Renamed(fs, ["a"], ["l"]), ["l"]) == Some(File("x"))
  {
    var fs: FS := map[[] := Dir, ["a"] := File("x"), ["l"] := Link("gone")];
    var a: Loc, l: Loc := ["a"], ["l"];
    assert a[0][0] != l[0][0] && l[1..] == [] && a + [] == a;
    RenamedAt(fs, a, l, l);
  }

  /** In every state the source is in its place, or its content where the dangling link led. */
  ghost predicate NotLost(trace: seq<FS>, start: nat, from: Loc, leads: Loc, content: Node)
  {
    forall k | start <= k < |trace| :: At(trace[k], from) == Some(content) || At(trace[k], leads) == Some(content)
  }

  /** fs_move_exdev_install when a dangling link is in the slot. A directory cannot be made there, nor a
      link or a special file; but a file is copied to where the link leads, and removed from its place. */
  method InstallThroughLink(disk: Volume, from: Loc, to: Loc, backup: Loc, present: bool, leads: Option<Loc>,
                            ghost start: nat, ghost src: FS, ghost dst: FS)
    returns (r: Result<Moved, MoveError>)
    requires disk.Valid() && Closed(disk.fs) && from in disk.fs && !Nested(from, to)
    requires ExistsFollowing(disk.fs, to, present) && !Plain(disk.fs, to, present) && Leads(disk.fs, to, present, leads)
    requires Has(disk.fs, from, src) && Has(disk.fs, to, dst) && start == |disk.trace|
    modifies disk
    ensures disk.Valid() && |disk.trace| >= start && disk.trace[..start] == old(disk.trace)
    ensures r.Err? ==> r.error.Failed? && Kept(disk.trace, start, |disk.trace|, from, to, backup, src, dst) &&
                       Has(disk.fs, from, src) && Has(disk.fs, to, dst)
    ensures r.Ok? ==> Through(old(disk.fs), disk.fs, from, to, leads, r.value) &&
                      NotLost(disk.trace, start, from, leads.value, old(disk.fs)[from])
    ensures UntouchedBut(old(disk.fs), disk.fs, from, to, backup, leads)
    ensures disk.reliable && old(disk.fs)[from].File? && leads.Some? ==>
              r == Ok(Moved(true, false, false)) && disk.fs == WrittenThrough(old(disk.fs), from, leads.value)
    ensures disk.reliable && r.Err? ==> disk.fs == old(disk.fs)
  {
    hide Has, Gone, Closed, Leads;
    ghost var fs := disk.fs;
    LinkInSlot(fs, to, present);
    if !disk.fs[from].File? {
      return Err(Failed);
    }
    if leads.Some? {
      LeadsApart(fs, to, present, leads, from);
      LeadsApart(fs, to, present, leads, to);
    }
    var copied := disk.CopyThrough(from, leads);
    if !copied {
      LeavesBoth(fs, disk.fs, disk.trace, start, from, to, backup, leads, src, dst);
      return Err(Failed);
    }
    assert forall k | start <= k < |disk.trace| :: At(disk.trace[k], from) == Some(fs[from]);
    ghost var middle, n := disk.fs, |disk.trace|;
    var removed := disk.RemoveAny(from);
    assert forall k | n <= k < |disk.trace| :: OnlyNear(middle, disk.trace[k], from);
    NothingBelow(fs, middle, disk.fs, from, leads.value, removed);
    r := Ok(Moved(true, !removed, false));
  }

  /** What a finished move through a dangling link leaves. */
  ghost predicate Through(before: FS, after: FS, from: Loc, to: Loc, leads: Option<Loc>, moved: Moved)
  {
    moved.copied && !moved.backupLeft && leads.Some? && from in before && before[from].File? &&
    At(after, leads.value) == Some(before[from]) &&
    to in before && before[to].Link? && At(after, to) == At(before, to) &&
    (!moved.sourceLeft ==> Gone(after, from))
  }

  lemma LinkInSlot(fs: FS, to: Loc, present: bool)
    requires ExistsFollowing(fs, to, present) && !Plain(fs, to, present)
    ensures to in fs && fs[to].Link?
  {
  }

  lemma LinkInDirectory(fs: FS, from: Loc, to: Loc)
    requires Closed(fs) && from in fs && to in fs && !Nested(from, to)
    ensures InDirectory(fs, to)
  {
    assert [] <= from;
    AboveIsDirectory(fs, to[..|to| - 1], to);
  }

  /** A copy that failed on its way through the link has changed neither entry. */
  lemma LeavesBoth(fs: FS, now: FS, trace: seq<FS>, start: nat, from: Loc, to: Loc, backup: Loc, leads: Option<Loc>,
                   src: FS, dst: FS)
    requires Has(fs, from, src) && Has(fs, to, dst) && OnlyAt(fs, now, leads)
    requires forall k | start <= k < |trace| :: OnlyAt(fs, trace[k], leads)
    requires leads.Some? ==> !Nested(from, leads.value) && !Nested(to, leads.value)
    ensures Has(now, from, src) && Has(now, to, dst) && Kept(trace, start, |trace|, from, to, backup, src, dst)
  {
    hide Has;
    StaysWhole(fs, now, from, leads, src);
    StaysWhole(fs, now, to, leads, dst);
    forall k | start <= k < |trace| ensures Safe(trace[k], from, to, backup, src, dst) {
      StaysWhole(fs, trace[k], from, leads, src);
      StaysWhole(fs, trace[k], to, leads, dst);
    }
  }

  lemma StaysWhole(fs: FS, now: FS, p: Loc, leads: Option<Loc>, tree: FS)
    requires Has(fs, p, tree) && OnlyAt(fs, now, leads) && (leads.Some? ==> !Nested(p, leads.value))
    ensures Has(now, p, tree)
  {
    forall r: Loc ensures At(now, p + r) == At(tree, r) {
      assert p <= p + r;
      assert At(fs, p + r) == At(tree, r);
    }
  }

  /** A removed file is a single entry. */
  lemma NothingBelow(fs: FS, middle: FS, now: FS, from: Loc, leads: Loc, removed: bool)
    requires Closed(fs) && from in fs && fs[from].File? && middle == fs[leads := fs[from]] && !Nested(from, leads)
    requires removed ==> Gone(now, from) && forall q | !(from <= q) :: At(now, q) == At(middle, q)
    ensures removed ==> now == WrittenThrough(fs, from, leads)
  {
    if removed {
      NothingBelowFile(fs, from);
      var after := WrittenThrough(fs, from, leads);
      forall q ensures At(now, q) == At(after, q) {
        if from <= q {
          assert q != from ==> from < q;
        }
      }
      SameEverywhere(now, after);
    }
  }

  lemma SameEverywhere(a: FS, b: FS)
    requires forall q :: At(a, q) == At(b, q)
    ensures a == b
  {
    forall q ensures q in a <==> q in b { assert At(a, q) == At(b, q); }
    forall q | q in a ensures a[q] == b[q] { assert At(a, q) == At(b, q); }
  }

  /** fs_move. Whenever source and destination are not inside one another as entries: until the
      install succeeds, the source is complete in its place and the old destination complete at the
      destination or in the backup, in every state the file system goes through; a failed move
      leaves it at that. A finished move has the source at the destination if and only if the
      destination was plain or no copy was needed; otherwise a copy went through a dangling link. */
  method FsMove(disk: Volume, from: Loc, to: Loc, overwrite: bool, cf: Option<Loc>, ct: Option<Loc>, present: bool,
                leads: Option<Loc>, name: Name, ghost src: FS, ghost dst: FS)
    returns (r: Result<Moved, MoveError>, ghost installed: nat)
    requires disk.Valid() && Closed(disk.fs) && CanonicalSource(disk.fs, from, cf) && CanonicalTarget(disk.fs, to, ct)
    requires ExistsFollowing(disk.fs, to, present) && Leads(disk.fs, to, present, leads)
    requires BackupOf(to, name) !in disk.fs && BackupOf(to, name) != to
    requires Has(disk.fs, from, src) && Has(disk.fs, to, dst)
    modifies disk
    ensures disk.Valid() && |disk.trace| >= |old(disk.trace)|
    ensures !Nested(from, to) && (Plain(old(disk.fs), to, present) || r.Err? || !r.value.copied) ==>
              Kept(disk.trace, |old(disk.trace)|, installed, from, to, BackupOf(to, name), src, dst)
    ensures !Nested(from, to) && r.Err? ==>
              Safe(disk.fs, from, to, BackupOf(to, name), src, dst) && installed == |disk.trace|
    ensures !Nested(from, to) && r.Ok? ==>
              (Has(disk.fs, to, src) <==> Plain(old(disk.fs), to, present) || !r.value.copied) &&
              (!r.value.sourceLeft ==> Gone(disk.fs, from))
    ensures !Nested(from, to) && r.Ok? && r.value.copied && !Plain(old(disk.fs), to, present) ==>
              Through(old(disk.fs), disk.fs, from, to, leads, r.value) &&
              NotLost(disk.trace, |old(disk.trace)|, from, leads.value, old(disk.fs)[from])
    ensures !Nested(from, to) && r.Ok? && present && !r.value.backupLeft ==> Gone(disk.fs, BackupOf(to, name))
    ensures UntouchedBut(old(disk.fs), disk.fs, from, to, BackupOf(to, name), leads)
    ensures Plain(old(disk.fs), to, present) ==> Untouched(old(disk.fs), disk.fs, from, to, BackupOf(to, name))
    ensures Refusal(cf, ct, present, overwrite).Some? ==>
              r == Err(Refusal(cf, ct, present, overwrite).value) && disk.trace == old(disk.trace)
    ensures cf.None? ==> r == Err(NotFound)
    ensures cf.Some? && ct.None? ==> r == Err(Failed)
    ensures cf.Some? && ct.Some? && (cf.value <= ct.value || ct.value <= cf.value) ==> r == Err(Overlap)
    ensures cf.Some? && ct.Some? && !(cf.value <= ct.value || ct.value <= cf.value) && present && !overwrite ==>
              r == Err(AlreadyExists)
    ensures r == Err(AlreadyExists) || r == Err(Overlap) || r == Err(NotFound) ==> disk.trace == old(disk.trace)
    ensures Refusal(cf, ct, present, overwrite).None? ==> r.Ok? || r.error.Failed?
    ensures r.Ok? && !present ==> InDirectory(old(disk.fs), to)
    ensures Refusal(cf, ct, present, overwrite).None? && Steady(disk, old(disk.fs), from, to, BackupOf(to, name)) &&
            r.Ok? ==>
              Movable(disk, old(disk.fs), from, to, present, leads)
    ensures Refusal(cf, ct, present, overwrite).None? && Steady(disk, old(disk.fs), from, to, BackupOf(to, name)) &&
            r.Err? ==>
              if present then disk.fs == old(disk.fs) else OnlyBelow(old(disk.fs), disk.fs, to)
    ensures Refusal(cf, ct, present, overwrite).None? && Steady(disk, old(disk.fs), from, to, BackupOf(to, name)) &&
            !MayRefuse(disk, old(disk.fs), from, to, present) &&
            Movable(disk, old(disk.fs), from, to, present, leads) ==>
              r == Ok(Moved(disk.crosses(from, to), false, false)) &&
              (Plain(old(disk.fs), to, present) || !disk.crosses(from, to) ==>
                 Replaced(old(disk.fs), disk.fs, from, to))
    ensures Refusal(cf, ct, present, overwrite).None? && WritesThrough(disk, old(disk.fs), from, to, present, leads) ==>
              r == Ok(Moved(true, false, false)) && disk.fs == WrittenThrough(old(disk.fs), from, leads.value)
  {
    hide Has, Gone, OnlyNear, Kept, Safe, Closed, Leads, WrittenThrough, Through, NotLost;
    installed := |disk.trace|;
    ghost var start := |disk.trace|;
    NothingYet(disk.trace, start, from, to, BackupOf(to, name), src, dst);
    BothInPlace(disk.fs, from, to, BackupOf(to, name), src, dst);
    if cf.None? {
      return Err(NotFound), installed;
    }
    if ct.None? {
      return Err(Failed), installed;
    }
    if Nested(cf.value, ct.value) {
      return Err(Overlap), installed;
    }
    if present && !overwrite {
      return Err(AlreadyExists), installed;
    }
    r, installed := Replace(disk, from, to, present, leads, name, src, dst);
  }

  /** Neither entry is in the other, the destination has a directory, the backup is on its device, and nothing
      fails for reasons of its own. */
  ghost predicate Steady(disk: Volume, fs: FS, from: Loc, to: Loc, backup: Loc)
  {
    disk.reliable && !Nested(from, to) && InDirectory(fs, to) && !disk.crosses(to, backup) && !disk.crosses(backup, to)
  }

  /** Within a device anything can be moved. From another one a tree without special files can be moved to a
      plain destination; through a dangling link that leads somewhere, a file. */
  ghost predicate Movable(disk: Volume, fs: FS, from: Loc, to: Loc, present: bool, leads: Option<Loc>)
  {
    from in fs && (disk.crosses(from, to) ==>
                     if Plain(fs, to, present) then NoSpecial(fs, from) else fs[from].File? && leads.Some?)
  }

  /** What systems differ in: renaming a directory over a dangling link. */
  ghost predicate MayRefuse(disk: Volume, fs: FS, from: Loc, to: Loc, present: bool)
  {
    from in fs && !disk.crosses(from, to) && !Plain(fs, to, present) && fs[from].Dir?
  }

  /** A file from another device meets a dangling link that leads to a free slot, and nothing else
      fails. */
  ghost predicate WritesThrough(disk: Volume, fs: FS, from: Loc, to: Loc, present: bool, leads: Option<Loc>)
  {
    disk.reliable && disk.crosses(from, to) && !Nested(from, to) && !Plain(fs, to, present) && leads.Some? &&
    from in fs && fs[from].File?
  }

  /** fs_move_exdev_install, by what the system finds in the slot. */
  method InstallAcrossDevices(disk: Volume, from: Loc, to: Loc, backup: Loc, present: bool, leads: Option<Loc>,
                              ghost start: nat, ghost src: FS, ghost dst: FS)
    returns (r: Result<Moved, MoveError>, ghost installed: nat)
    requires disk.Valid() && from in disk.fs && Apart(from, to, backup) && Has(disk.fs, from, src)
    requires to !in disk.fs ==> Gone(disk.fs, to) && Has(disk.fs, backup, dst)
    requires to in disk.fs ==>
               Closed(disk.fs) && ExistsFollowing(disk.fs, to, present) && !present &&
               Leads(disk.fs, to, present, leads) && Has(disk.fs, to, dst) && start == |disk.trace|
    requires Kept(disk.trace, start, |disk.trace|, from, to, backup, src, dst)
    modifies disk
    ensures disk.Valid() && |disk.trace| >= |old(disk.trace)|
    ensures r.Err? ==> r.error.Failed? && installed == |disk.trace|
    ensures r.Ok? ==> r.value.copied && !r.value.backupLeft && (!r.value.sourceLeft ==> Gone(disk.fs, from))
    ensures to !in old(disk.fs) || r.Err? ==> Kept(disk.trace, start, installed, from, to, backup, src, dst)
    ensures r.Err? ==> Has(disk.fs, from, src)
    ensures to !in old(disk.fs) ==> Has(disk.fs, backup, dst) && Untouched(old(disk.fs), disk.fs, from, to, backup)
    ensures to !in old(disk.fs) && r.Ok? ==> installed <= |disk.trace| && Has(disk.fs, to, src)
    ensures to !in old(disk.fs) && HasParents(old(disk.fs), to) ==>
              if r.Ok? then NoSpecial(old(disk.fs), from) &&
                            (!r.value.sourceLeft ==> Replaced(old(disk.fs), disk.fs, from, to))
              else OnlyBelow(old(disk.fs), disk.fs, to)
    ensures to !in old(disk.fs) && HasParents(old(disk.fs), to) && disk.reliable && NoSpecial(old(disk.fs), from) ==>
              r == Ok(Moved(true, false, false))
    ensures to in old(disk.fs) && disk.reliable && r.Err? ==> disk.fs == old(disk.fs)
    ensures to in old(disk.fs) && r.Ok? ==> old(disk.fs)[from].File? && leads.Some?
    ensures to in old(disk.fs) && r.Err? ==> Has(disk.fs, to, dst)
    ensures to in old(disk.fs) && r.Ok? ==>
              Through(old(disk.fs), disk.fs, from, to, leads, r.value) && !Has(disk.fs, to, src) &&
              NotLost(disk.trace, start, from, leads.value, old(disk.fs)[from])
    ensures UntouchedBut(old(disk.fs), disk.fs, from, to, backup, leads)
    ensures to in old(disk.fs) && disk.reliable && old(disk.fs)[from].File? && leads.Some? ==>
              r == Ok(Moved(true, false, false)) && disk.fs == WrittenThrough(old(disk.fs), from, leads.value)
  {
    hide Has, Gone, OnlyNear, Kept, Safe, Closed, Leads, WrittenThrough, Untouched, UntouchedBut, NotLost, NoSpecial,
         Replaced, OnlyBelow, HasParents;
    if to in disk.fs {
      LinkInSlot(disk.fs, to, present);
      ApartIsNotNested(from, to, backup);
      ghost var before := disk.fs;
      r := InstallThroughLink(disk, from, to, backup, present, leads, start, src, dst);
      installed := |disk.trace|;
      if r.Ok? { LinkIsNotSource(before, disk.fs, from, to, src); }
    } else {
      r, installed := InstallInSlot(disk, from, to, backup, start, src, dst);
      UntouchedIsUntouchedBut(old(disk.fs), disk.fs, from, to, backup, leads);
    }
  }

  lemma ApartIsNotNested(from: Loc, to: Loc, backup: Loc)
    requires Apart(from, to, backup)
    ensures !Nested(from, to) && !Nested(from, backup) && !Nested(to, backup)
    ensures !Nested(to, from) && !Nested(backup, from) && !Nested(backup, to)
  {
  }

  lemma LinkIsNotSource(before: FS, after: FS, from: Loc, to: Loc, src: FS)
    requires Has(before, from, src) && from in before && before[from].File?
    requires to in before && before[to].Link? && At(after, to) == At(before, to)
    ensures !Has(after, to, src)
  {
    assert from + [] == from && to + [] == to;
    assert At(before, from + []) == At(src, []);
    assert At(after, to + []) != At(src, []);
  }

  /** It does happen: a file moved from another device onto a dangling link. The answer is success, but
      the link is still there and the file is where it led. */
  method LinkIsWrittenThrough() returns (answer: Result<Moved, MoveError>, after: FS)
    ensures answer == Ok(Moved(true, false, false))
    ensures after == map[[] := Dir, ["l"] := Link("gone"), ["gone"] := File("x")]
  {
    hide Has, Through, NotLost, Kept, Untouched, UntouchedBut, Safe, Gone;
    var a: Loc, l: Loc, g: Loc := ["a"], ["l"], ["gone"];
    var fs: FS := map[[] := Dir, a := File("x"), l := Link("gone")];
    assert a[0][0] != l[0][0] && g[..0] == [];
    assert Closed(fs) by {
      forall q, n: nat | q in fs && n < |q| ensures q[..n] in fs && fs[q[..n]].Dir? {
        assert q[..n] == [];
      }
    }
    ghost var src: FS, dst: FS := map[[] := File("x")], map[[] := Link("gone")];
    OneEntry(fs, a, src);
    OneEntry(fs, l, dst);
    var disk := new Volume(fs, (x, y) => true, true);
    ghost var installed;
    answer, installed := FsMove(disk, a, l, false, Some(a), Some(l), false, Some(g), "b", src, dst);
    after := disk.fs;
    assert after == WrittenThrough(fs, a, g);
  }

  lemma OneEntry(fs: FS, p: Loc, tree: FS)
    requires Closed(fs) && p in fs && !fs[p].Dir? && tree == map[[] := fs[p]]
    ensures Has(fs, p, tree)
  {
    NothingBelowFile(fs, p);
    assert p + [] == p;
    forall r: Loc ensures At(fs, p + r) == At(tree, r) {
      assert r != [] ==> p < p + r;
    }
  }

  /** Put the old destination aside, install the source, and clean up or put it back. */
  method Replace(disk: Volume, from: Loc, to: Loc, present: bool, leads: Option<Loc>, name: Name, ghost src: FS,
                 ghost dst: FS)
    returns (r: Result<Moved, MoveError>, ghost installed: nat)
    requires ExistsFollowing(disk.fs, to, present) && Leads(disk.fs, to, present, leads)
    requires disk.Valid() && Closed(disk.fs) && from in disk.fs && BackupOf(to, name) !in disk.fs &&
             BackupOf(to, name) != to
    requires Has(disk.fs, from, src) && Has(disk.fs, to, dst)
    modifies disk
    ensures disk.Valid() && |disk.trace| >= |old(disk.trace)|
    ensures !Nested(from, to) && (Plain(old(disk.fs), to, present) || r.Err? || !r.value.copied) ==>
              Kept(disk.trace, |old(disk.trace)|, installed, from, to, BackupOf(to, name), src, dst)
    ensures !Nested(from, to) && r.Err? ==>
              Safe(disk.fs, from, to, BackupOf(to, name), src, dst) && installed == |disk.trace|
    ensures !Nested(from, to) && r.Ok? ==>
              (Has(disk.fs, to, src) <==> Plain(old(disk.fs), to, present) || !r.value.copied) &&
              (!r.value.sourceLeft ==> Gone(disk.fs, from))
    ensures !Nested(from, to) && r.Ok? && r.value.copied && !Plain(old(disk.fs), to, present) ==>
              Through(old(disk.fs), disk.fs, from, to, leads, r.value) &&
              NotLost(disk.trace, |old(disk.trace)|, from, leads.value, old(disk.fs)[from])
    ensures !Nested(from, to) && r.Ok? && present && !r.value.backupLeft ==> Gone(disk.fs, BackupOf(to, name))
    ensures UntouchedBut(old(disk.fs), disk.fs, from, to, BackupOf(to, name), leads)
    ensures Plain(old(disk.fs), to, present) ==> Untouched(old(disk.fs), disk.fs, from, to, BackupOf(to, name))
    ensures r.Err? ==> r.error.Failed?
    ensures r.Ok? && !present ==> InDirectory(old(disk.fs), to)
    ensures Steady(disk, old(disk.fs), from, to, BackupOf(to, name)) && r.Ok? ==>
              Movable(disk, old(disk.fs), from, to, present, leads)
    ensures Steady(disk, old(disk.fs), from, to, BackupOf(to, name)) && r.Err? ==>
              if present then disk.fs == old(disk.fs) else OnlyBelow(old(disk.fs), disk.fs, to)
    ensures Steady(disk, old(disk.fs), from, to, BackupOf(to, name)) &&
            !MayRefuse(disk, old(disk.fs), from, to, present) &&
            Movable(disk, old(disk.fs), from, to, present, leads) ==>
              r == Ok(Moved(disk.crosses(from, to), false, false)) &&
              (Plain(old(disk.fs), to, present) || !disk.crosses(from, to) ==>
                 Replaced(old(disk.fs), disk.fs, from, to))
    ensures WritesThrough(disk, old(disk.fs), from, to, present, leads) ==>
              r == Ok(Moved(true, false, false)) && disk.fs == WrittenThrough(old(disk.fs), from, leads.value)
  {
    hide Has, Gone, OnlyNear, Kept, Safe, Closed, Leads, WrittenThrough, BackupOf, Untouched, UntouchedBut, Through,
         NotLost, ExistsFollowing, Renamed, Nested, Apart, OnlyBelow, Replaced, NoSpecial, HasParents, InDirectory;
    ghost var steady := Steady(disk, disk.fs, from, to, BackupOf(to, name));
    ghost var start := |disk.trace|;
    ghost var apart := !Nested(from, to);
    ghost var plain := Plain(disk.fs, to, present);
    var backup := BackupOf(to, name);
    installed := start;
    NothingYet(disk.trace, start, from, to, backup, src, dst);
    BothInPlace(disk.fs, from, to, backup, src, dst);
    SameIsUntouched(disk.fs, from, to, backup);
    NothingBelowYet(disk.fs, to);
    FreeIsGone(disk.fs, backup);
    if steady { SlotIsReady(disk.fs, from, to, name); }
    PresentIsThere(disk.fs, to, present);
    if apart {
      BackupIsApart(disk.fs, from, to, name);
      ApartIsNotNested(from, to, backup);
    }
    if present {
      var done := PutAside(disk, from, to, backup, apart, steady, src, dst);
      if !done {
        UntouchedIsUntouchedBut(old(disk.fs), disk.fs, from, to, backup, leads);
        return Err(Failed), installed;
      }
      installed := if apart then |disk.trace| else start;
    } else if to !in disk.fs {
      FreeIsGone(disk.fs, to);
      EmptyTrees(disk.fs, to, backup, dst);
    }
    assert apart && plain ==> Has(disk.fs, backup, dst) && Gone(disk.fs, to);
    if apart && plain { GoneIsFree(disk.fs, to); }
    ghost var aside := disk.fs;
    if apart && !plain { LinkInDirectory(aside, from, to); }
    r, installed := Install(disk, from, to, backup, present, leads, start, installed, apart, steady, src, dst);
    ghost var fs := disk.fs;
    if plain {
      UntouchedIsTransitive(old(disk.fs), aside, fs, from, to, backup);
      UntouchedIsUntouchedBut(old(disk.fs), fs, from, to, backup, leads);
    }
    if r.Ok? {
      if present {
        var cleaned := CleanUp(disk, from, to, backup, start, installed, apart, src, dst);
        UntouchedIsTransitive(old(disk.fs), fs, disk.fs, from, to, backup);
        UntouchedIsUntouchedBut(old(disk.fs), disk.fs, from, to, backup, leads);
        if steady && !r.value.sourceLeft && cleaned {
          MovedAll(old(disk.fs), aside, fs, disk.fs, from, to, backup);
        }
        r := Ok(r.value.(backupLeft := !cleaned));
      }
    } else if !present {
      installed := |disk.trace|;
      if apart && plain { InBackup(disk.fs, from, to, backup, src, dst); }
      if apart && !plain { BothInPlace(disk.fs, from, to, backup, src, dst); }
    } else {
      if steady { ReadyToPutBack(aside, fs, to, backup); }
      installed := PutBack(disk, from, to, backup, start, apart, src, dst);
      if steady { MovedBack(old(disk.fs), aside, fs, disk.fs, to, backup); }
      UntouchedIsTransitive(old(disk.fs), fs, disk.fs, from, to, backup);
      UntouchedIsUntouchedBut(old(disk.fs), disk.fs, from, to, backup, leads);
    }
  }

  /** The old destination becomes the backup. */
  method PutAside(disk: Volume, from: Loc, to: Loc, backup: Loc, ghost apart: bool, ghost steady: bool, ghost src: FS,
                  ghost dst: FS)
    returns (ok: bool)
    requires disk.Valid() && Has(disk.fs, from, src) && Has(disk.fs, to, dst) && Gone(disk.fs, backup)
    requires from in disk.fs && to in disk.fs && (apart ==> Apart(from, to, backup))
    requires steady ==> apart && Steady(disk, disk.fs, from, to, backup) && HasParents(disk.fs, to) &&
                        InDirectory(disk.fs, backup)
    modifies disk
    ensures disk.Valid() && |disk.trace| >= |old(disk.trace)|
    ensures !ok ==> disk.fs == old(disk.fs) && disk.trace == old(disk.trace)
    ensures Untouched(old(disk.fs), disk.fs, from, to, backup)
    ensures ok && apart ==> from in disk.fs && backup in disk.fs
    ensures ok && apart ==>
              Has(disk.fs, from, src) && Has(disk.fs, backup, dst) && Gone(disk.fs, to) &&
              Kept(disk.trace, |old(disk.trace)|, |disk.trace|, from, to, backup, src, dst)
    ensures steady ==>
              ok && Replaced(old(disk.fs), disk.fs, to, backup) && HasParents(disk.fs, to) &&
              InDirectory(disk.fs, to) && from in disk.fs && to !in disk.fs && backup in disk.fs &&
              (NoSpecial(disk.fs, from) <==> NoSpecial(old(disk.fs), from)) &&
              (disk.fs[from].Dir? <==> old(disk.fs)[from].Dir?)
  {
    hide Has, Gone, Kept, Safe, Untouched, Replaced, NoSpecial, HasParents, InDirectory, Renamed;
    ghost var fs, trace := disk.fs, disk.trace;
    NothingYet(trace, |trace|, from, to, backup, src, dst);
    BothInPlace(fs, from, to, backup, src, dst);
    GoneIsFree(fs, backup);
    var aside := disk.Rename(to, backup);
    SameIsUntouched(fs, from, to, backup);
    if aside.Err? {
      return false;
    }
    RenamedUntouched(fs, fs, to, backup, from, to, backup);
    if steady {
      RenamedIsReplaced(fs, to, backup);
      AsideIsReady(fs, disk.fs, from, to, backup);
    }
    if apart {
      RenamedTree(fs, to, backup, dst);
      RenamedKeepsTree(fs, to, backup, from, src);
      SamePlace(fs, from, disk.fs, from, src);
      SamePlace(fs, to, disk.fs, backup, dst);
      InBackup(disk.fs, from, to, backup, src, dst);
      OneMoreState(trace, disk.trace, |trace|, |trace|, |disk.trace|, from, to, backup, src, dst);
    }
    ok := true;
  }

  /** The source is renamed into the slot, or copied when that crosses devices. */
  method Install(disk: Volume, from: Loc, to: Loc, backup: Loc, present: bool, leads: Option<Loc>, ghost start: nat,
                 ghost entered: nat, ghost apart: bool, ghost steady: bool, ghost src: FS, ghost dst: FS)
    returns (r: Result<Moved, MoveError>, ghost installed: nat)
    requires disk.Valid() && start <= entered <= |disk.trace|
    requires apart ==> Apart(from, to, backup) && from in disk.fs && Has(disk.fs, from, src) &&
                       entered == |disk.trace| && Kept(disk.trace, start, entered, from, to, backup, src, dst)
    requires apart && to !in disk.fs ==> Gone(disk.fs, to) && Has(disk.fs, backup, dst)
    requires apart && to in disk.fs ==>
               Closed(disk.fs) && ExistsFollowing(disk.fs, to, present) && !present && InDirectory(disk.fs, to) &&
               Leads(disk.fs, to, present, leads) && Has(disk.fs, to, dst) && start == |disk.trace|
    requires apart <==> !Nested(from, to)
    requires steady ==> apart && disk.reliable && HasParents(disk.fs, to) && InDirectory(disk.fs, to)
    modifies disk
    ensures disk.Valid() && |disk.trace| >= |old(disk.trace)|
    ensures r.Err? ==> r.error.Failed?
    ensures r.Ok? ==> !r.value.backupLeft
    ensures r.Ok? && (!apart || to !in old(disk.fs)) ==> installed <= |disk.trace|
    ensures apart && r.Err? ==> installed == |disk.trace| && Has(disk.fs, from, src)
    ensures apart && (to !in old(disk.fs) || r.Err? || !r.value.copied) ==>
              Kept(disk.trace, start, installed, from, to, backup, src, dst)
    ensures apart && to !in old(disk.fs) ==> Has(disk.fs, backup, dst)
    ensures apart && to in old(disk.fs) && r.Err? ==> Has(disk.fs, to, dst)
    ensures apart && r.Ok? ==>
              (Has(disk.fs, to, src) <==> to !in old(disk.fs) || !r.value.copied) &&
              (!r.value.sourceLeft ==> Gone(disk.fs, from))
    ensures apart && r.Ok? && r.value.copied && to in old(disk.fs) ==>
              Through(old(disk.fs), disk.fs, from, to, leads, r.value) &&
              NotLost(disk.trace, start, from, leads.value, old(disk.fs)[from]) &&
              old(disk.fs)[from].File? && leads.Some?
    ensures !apart || to !in old(disk.fs) ==> Untouched(old(disk.fs), disk.fs, from, to, backup)
    ensures UntouchedBut(old(disk.fs), disk.fs, from, to, backup, leads)
    ensures r.Ok? ==> InDirectory(old(disk.fs), to)
    ensures apart && to !in old(disk.fs) ==> (backup in disk.fs <==> backup in old(disk.fs))
    ensures steady && r.Ok? ==> (r.value.copied <==> disk.crosses(from, to))
    ensures steady && r.Ok? && (to !in old(disk.fs) || !r.value.copied) && !r.value.sourceLeft ==>
              Replaced(old(disk.fs), disk.fs, from, to)
    ensures steady && r.Ok? && to !in old(disk.fs) && r.value.copied ==> NoSpecial(old(disk.fs), from)
    ensures steady && r.Err? ==>
              if to in old(disk.fs) then disk.fs == old(disk.fs) else OnlyBelow(old(disk.fs), disk.fs, to)
    ensures steady && !(to in old(disk.fs) && old(disk.fs)[from].Dir?) &&
            (disk.crosses(from, to) ==>
               if to in old(disk.fs) then old(disk.fs)[from].File? && leads.Some?
               else NoSpecial(old(disk.fs), from)) ==>
              r == Ok(Moved(disk.crosses(from, to), false, false))
    ensures apart && disk.reliable && to in old(disk.fs) && old(disk.fs)[from].File? && leads.Some? &&
            disk.crosses(from, to) ==>
              r == Ok(Moved(true, false, false)) && disk.fs == WrittenThrough(old(disk.fs), from, leads.value)
  {
    hide Has, Gone, OnlyNear, Kept, Safe, Closed, Leads, WrittenThrough, Untouched, UntouchedBut, Through, NotLost,
         Renamed, Apart, OnlyBelow, Replaced, NoSpecial, HasParents, InDirectory, Nested;
    ghost var fs, trace := disk.fs, disk.trace;
    installed := entered;
    SameIsUntouched(fs, from, to, backup);
    NothingBelowYet(fs, to);
    if apart { ApartIsNotNested(from, to, backup); }
    if to in fs && apart { LinkInSlot(fs, to, present); }
    var rename := disk.Rename(from, to);
    if rename.Ok? {
      RenamedUntouched(fs, fs, from, to, from, to, backup);
      UntouchedIsUntouchedBut(fs, disk.fs, from, to, backup, leads);
      RenamedIsReplaced(fs, from, to);
      if apart {
        RenamedTree(fs, from, to, src);
        if to !in fs {
          RenamedKeepsTree(fs, from, to, backup, dst);
          SamePlace(fs, backup, disk.fs, backup, dst);
        }
        OneMoreState(trace, disk.trace, start, entered, |trace|, from, to, backup, src, dst);
      }
      return Ok(Moved(false, false, false)), |trace|;
    }
    if rename.error.CrossDevice? {
      r, installed := InstallAcrossDevices(disk, from, to, backup, present, leads, start, src, dst);
      if to !in fs { SamePlace(fs, backup, disk.fs, backup, dst); }
    } else {
      UntouchedIsUntouchedBut(fs, disk.fs, from, to, backup, leads);
      r := Err(Failed);
    }
  }

  /** After the install: the backup goes. */
  method CleanUp(disk: Volume, from: Loc, to: Loc, backup: Loc, ghost start: nat, ghost installed: nat,
                 ghost apart: bool, ghost src: FS, ghost dst: FS)
    returns (ok: bool)
    requires disk.Valid() && installed <= |disk.trace|
    requires apart ==> Apart(from, to, backup) && Has(disk.fs, to, src)
    requires apart ==> Kept(disk.trace, start, installed, from, to, backup, src, dst)
    modifies disk
    ensures disk.Valid() && |disk.trace| >= |old(disk.trace)|
    ensures Untouched(old(disk.fs), disk.fs, from, to, backup) && OnlyBelow(old(disk.fs), disk.fs, backup)
    ensures apart ==>
              Kept(disk.trace, start, installed, from, to, backup, src, dst) && Has(disk.fs, to, src) &&
              (Gone(old(disk.fs), from) ==> Gone(disk.fs, from))
    ensures ok ==> Gone(disk.fs, backup)
    ensures disk.reliable && backup in old(disk.fs) ==> ok
  {
    hide Has, Gone, Kept, Safe, Untouched, OnlyNear, OnlyBelow;
    ghost var fs, trace := disk.fs, disk.trace;
    assert disk.trace[..|trace|] == trace;
    ok := disk.RemoveAny(backup);
    SameIsUntouched(fs, from, to, backup);
    NearUntouched(fs, fs, disk.fs, backup, from, to, backup);
    if apart {
      NearKeepsInstalled(fs, disk.trace, |trace|, start, installed, backup, from, to, backup, src, dst);
      TreeSurvives(fs, disk.fs, backup, to, src);
      if Gone(fs, from) { GoneSurvives(fs, disk.fs, backup, from); }
    }
  }

  lemma SamePlace(a: FS, p: Loc, b: FS, q: Loc, tree: FS)
    requires Has(a, p, tree) && Has(b, q, tree)
    ensures p in a <==> q in b
  {
    assert p + [] == p && q + [] == q;
    assert At(a, p + []) == At(tree, []) && At(b, q + []) == At(tree, []);
  }

  lemma SlotIsReady(fs: FS, from: Loc, to: Loc, name: Name)
    requires Closed(fs) && from in fs && !Nested(from, to) && InDirectory(fs, to)
    ensures HasParents(fs, to) && InDirectory(fs, BackupOf(to, name))
  {
    forall n | 0 <= n < |to| ensures to[..n] in fs {
      var up := to[..|to| - 1];
      assert n < |up| ==> up[..n] == to[..n];
    }
  }

  /** With the old destination aside, the slot is free and its directory and the source are as they were. */
  lemma AsideIsReady(fs: FS, now: FS, from: Loc, to: Loc, backup: Loc)
    requires Apart(from, to, backup) && Replaced(fs, now, to, backup) && Gone(fs, backup)
    requires HasParents(fs, to) && InDirectory(fs, to) && from in fs && to in fs
    ensures HasParents(now, to) && InDirectory(now, to) && from in now && to !in now && backup in now
    ensures NoSpecial(now, from) <==> NoSpecial(fs, from)
    ensures now[from].Dir? <==> fs[from].Dir?
  {
    assert At(now, from) == At(fs, from) && At(now, to) == None;
    assert backup[|backup|..] == [] && to + [] == to;
    assert At(now, backup) == At(fs, to);
    forall n | 0 <= n < |to| ensures At(now, to[..n]) == At(fs, to[..n]) {
      var up := to[..n];
      assert !(to <= up);
      PrefixIsAbove(to, backup, n);
    }
    forall q | from <= q ensures At(now, q) == At(fs, q) {
      BelowStaysApart(from, q[|from|..], to);
      BelowStaysApart(from, q[|from|..], backup);
      assert from + q[|from|..] == q;
    }
    SameSpecials(fs, now, from);
  }

  lemma PrefixIsAbove(to: Loc, p: Loc, n: nat)
    requires n < |to|
    ensures p <= to[..n] ==> p <= to
  {
  }

  lemma SameSpecials(a: FS, b: FS, p: Loc)
    requires forall q | p <= q :: At(b, q) == At(a, q)
    ensures NoSpecial(b, p) <==> NoSpecial(a, p)
  {
    forall q | p <= q ensures q in a <==> q in b { assert At(b, q) == At(a, q); }
    forall q | p <= q && q in a ensures a[q] == b[q] { assert At(b, q) == At(a, q); }
  }

  lemma MovedAll(fs: FS, aside: FS, installed: FS, after: FS, from: Loc, to: Loc, backup: Loc)
    requires Apart(from, to, backup) && Gone(fs, backup) && Replaced(fs, aside, to, backup)
    requires Replaced(aside, installed, from, to) && OnlyBelow(installed, after, backup) && Gone(after, backup)
    ensures Replaced(fs, after, from, to)
  {
    forall q ensures At(after, q) ==
                     if to <= q then At(fs, from + q[|to|..]) else if from <= q then None else At(fs, q) {
      if to <= q {
        assert to + q[|to|..] == q;
        BelowStaysApart(to, q[|to|..], backup);
        BelowStaysApart(from, q[|to|..], to);
        BelowStaysApart(from, q[|to|..], backup);
      } else if from <= q {
        assert from + q[|from|..] == q;
        BelowStaysApart(from, q[|from|..], backup);
      }
    }
  }

  lemma MovedBack(fs: FS, aside: FS, failed: FS, after: FS, to: Loc, backup: Loc)
    requires !Nested(to, backup) && Gone(fs, backup) && Replaced(fs, aside, to, backup)
    requires OnlyBelow(aside, failed, to) && Replaced(failed, after, backup, to)
    ensures after == fs
  {
    forall q ensures At(after, q) == At(fs, q) {
      if to <= q {
        var r := q[|to|..];
        assert to + r == q && (backup + r)[|backup|..] == r;
        BelowStaysApart(backup, r, to);
      }
    }
    SameEverywhere(after, fs);
  }

  lemma PresentIsThere(fs: FS, to: Loc, present: bool)
    requires ExistsFollowing(fs, to, present)
    ensures present ==> to in fs
    ensures !Plain(fs, to, present) ==> to in fs && fs[to].Link?
  {
  }

  lemma GoneIsFree(fs: FS, p: Loc)
    requires Gone(fs, p)
    ensures p !in fs
  {
  }

  /** After a failed install: drop what there is of it, and put the old destination back. */
  method PutBack(disk: Volume, from: Loc, to: Loc, backup: Loc, ghost start: nat, ghost apart: bool, ghost src: FS,
                 ghost dst: FS)
    returns (ghost installed: nat)
    requires disk.Valid()
    requires apart ==> Apart(from, to, backup) && Has(disk.fs, from, src) && Has(disk.fs, backup, dst)
    requires apart ==> Kept(disk.trace, start, |disk.trace|, from, to, backup, src, dst)
    modifies disk
    ensures disk.Valid() && |disk.trace| >= |old(disk.trace)| && installed == |disk.trace|
    ensures apart ==>
              Kept(disk.trace, start, installed, from, to, backup, src, dst) &&
              Safe(disk.fs, from, to, backup, src, dst)
    ensures Untouched(old(disk.fs), disk.fs, from, to, backup)
    ensures apart && disk.reliable && backup in old(disk.fs) && InDirectory(old(disk.fs), to) &&
            !disk.crosses(backup, to) ==>
              Replaced(old(disk.fs), disk.fs, backup, to)
  {
    hide Has, Gone, OnlyNear, OnlyBelow, Kept, Safe, Untouched, Replaced, Renamed, InDirectory;
    ghost var fs, trace := disk.fs, disk.trace;
    NothingBelowYet(fs, to);
    SameIsUntouched(fs, from, to, backup);
    if to in disk.fs {
      assert disk.trace[..|trace|] == trace;
      var _ := disk.RemoveAny(to);
      NearUntouched(old(disk.fs), fs, disk.fs, to, from, to, backup);
      if apart {
        NearIsSafe(fs, disk.trace, |trace|, start, from, to, backup, src, dst);
        TreeSurvives(fs, disk.fs, to, from, src);
        TreeSurvives(fs, disk.fs, to, backup, dst);
      }
    }
    if apart { InBackup(disk.fs, from, to, backup, src, dst); }
    fs, trace := disk.fs, disk.trace;
    if apart { ReadyToPutBack(old(disk.fs), fs, to, backup); }
    var back := disk.Rename(backup, to);
    if apart && back.Ok? {
      RenamedIsReplaced(fs, backup, to);
      ReplacesTheRest(old(disk.fs), fs, disk.fs, to, backup);
    }
    if back.Ok? { RenamedUntouched(old(disk.fs), fs, backup, to, from, to, backup); }
    if apart && back.Ok? {
      RenamedTree(fs, backup, to, dst);
      RenamedKeepsTree(fs, backup, to, from, src);
      BothInPlace(disk.fs, from, to, backup, src, dst);
      OneMoreState(trace, disk.trace, start, |trace|, |disk.trace|, from, to, backup, src, dst);
    }
    installed := |disk.trace|;
  }

  lemma NothingBelowYet(fs: FS, to: Loc)
    ensures OnlyBelow(fs, fs, to)
  {
  }

  lemma ReadyToPutBack(fs: FS, now: FS, to: Loc, backup: Loc)
    requires OnlyBelow(fs, now, to) && !Nested(to, backup)
    ensures backup in now <==> backup in fs
    ensures InDirectory(fs, to) ==> InDirectory(now, to)
  {
    assert At(now, backup) == At(fs, backup);
    if to != [] {
      var up := to[..|to| - 1];
      assert At(now, up) == At(fs, up);
    }
  }

  lemma ReplacesTheRest(fs: FS, now: FS, after: FS, to: Loc, backup: Loc)
    requires OnlyBelow(fs, now, to) && !Nested(to, backup) && Replaced(now, after, backup, to)
    ensures Replaced(fs, after, backup, to)
  {
    forall q ensures At(after, q) ==
                     if to <= q then At(fs, backup + q[|to|..]) else if backup <= q then None else At(fs, q) {
      if to <= q {
        BelowStaysApart(backup, q[|to|..], to);
      }
    }
  }

  lemma InBackup(fs: FS, from: Loc, to: Loc, backup: Loc, src: FS, dst: FS)
    requires Has(fs, from, src) && Has(fs, backup, dst)
    ensures Safe(fs, from, to, backup, src, dst)
  {
  }

  lemma GoneSurvives(a: FS, b: FS, root: Loc, p: Loc)
    requires Gone(a, p) && OnlyNear(a, b, root) && !Nested(p, root)
    ensures Gone(b, p)
  {
    forall q | p <= q ensures q !in b {
      assert q == p + q[|p|..];
      BelowStaysApart(p, q[|p|..], root);
      assert At(b, q) == At(a, q);
    }
  }

  function BackupOf(to: Loc, name: Name): Loc
  {
    if to == [] then [name] else to[..|to| - 1] + [name]
  }

  lemma NothingYet(trace: seq<FS>, start: nat, from: Loc, to: Loc, backup: Loc, src: FS, dst: FS)
    requires start == |trace|
    ensures Kept(trace, start, start, from, to, backup, src, dst)
  {
  }

  lemma BothInPlace(fs: FS, from: Loc, to: Loc, backup: Loc, src: FS, dst: FS)
    requires Has(fs, from, src) && Has(fs, to, dst)
    ensures Safe(fs, from, to, backup, src, dst)
  {
  }
}
