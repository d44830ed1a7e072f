/** A move between two paths that a workspace scope has accepted: the checks of
    crates/xuanling-toolkit/src/capability.rs give fs_move what it needs
    (crates/xuanling-toolkit/src/fs/copy_move_remove.rs). */
module ScopedMove {
  import opened Wrappers
  import opened PathResolution
  import opened Capability
  import opened Workspace
  import M = Move

  /** The two models of one file system agree on what is where. */
  ghost predicate Mirrors(fs: M.FS, t: Tree)
  {
    fs.Keys == t.Keys && forall at | at in t :: (fs[at].Link? <==> t[at].Symlink?) && (fs[at].Dir? <==> t[at].Dir?)
  }

  lemma MirrorIsClosed(fs: M.FS, t: Tree)
    requires WellFormed(t) && Mirrors(fs, t)
    ensures M.Closed(fs)
  {
    hide WellFormed;
    forall q, n: nat | q in fs && n < |q| ensures q[..n] in fs && fs[q[..n]].Dir? {
      AncestorsAreDirectories(t, q, n);
    }
  }

  /** The path goes on past its alias of a root, and without a parent step. */
  predicate BelowAlias(w: World, scope: Scope, access: Access, path: Path)
  {
    var root := LexicalRoot(w, scope.Roots(access), path, false);
    root.Ok? && root.value < |path| && ParentFree(path[root.value..])
  }

  /** The location such a path spells. */
  function Spelled(w: World, scope: Scope, access: Access, path: Path): Location
    requires BelowAlias(w, scope, access, path)
  {
    var n := LexicalRoot(w, scope.Roots(access), path, false).value;
    var root := Canonicalize(w, path[..n]);
    (if root.Ok? then root.value else []) + Names(path[n..])
  }

  /** The last component of the path, in the directory the rest of it leads to, is the entry at `at`. */
  ghost predicate EntryAt(w: World, path: Path, at: Location)
  {
    path != [] && path[|path| - 1].Normal? &&
    var o := w.Resolve(path[..|path| - 1]);
    o.At? ==> at == o.location + [path[|path| - 1].name]
  }

  /** Going down from the first n components, which exist, no entry is a link. */
  ghost predicate NoLinkAfter(w: World, path: Path, n: nat)
  {
    n < |path| && ParentFree(path[n..]) && Canonicalize(w, path[..n]).Ok? &&
    NoLinkBelow(w.tree, Canonicalize(w, path[..n]).value, Names(path[n..]))
  }

  function SpelledFrom(w: World, path: Path, n: nat): Location
    requires n < |path| && ParentFree(path[n..]) && Canonicalize(w, path[..n]).Ok?
  {
    Canonicalize(w, path[..n]).value + Names(path[n..])
  }

  lemma AcceptedIsChecked(w: World, scope: Scope, access: Access, path: Path)
    requires w.Valid() && access.RequiresMutationCheck() && !access.OperatesOnEntry()
    requires Admission(w, scope, access, path).Ok? && BelowAlias(w, scope, access, path)
    ensures var n := LexicalRoot(w, scope.Roots(access), path, false).value;
            NoLinkAfter(w, path, n) && Spelled(w, scope, access, path) == SpelledFrom(w, path, n)
  {
    hide Containment, SymlinkCheck, NoLinkBelow, LexicalRoot, Canonicalize, ClearBelow, Scope.Contains, EntryIsLink;
    SymlinkCheckIsLiteral(w, scope, access, path, false);
  }

  lemma NoLinkInPrefix(t: Tree, base: Location, names: Location, k: nat)
    requires NoLinkBelow(t, base, names) && k <= |names|
    ensures NoLinkBelow(t, base, names[..k])
  {
    forall j | 0 < j <= k && base + names[..k][..j] in t ensures !t[base + names[..k][..j]].Symlink? {
      assert names[..k][..j] == names[..j];
    }
  }

  /** A part of the path, at least to the n-th component, resolves exactly when what it spells exists,
      and then to that. */
  lemma PlainResolves(w: World, path: Path, n: nat, m: nat)
    requires w.Valid() && NoLinkAfter(w, path, n) && n <= m <= |path|
    ensures var at := Canonicalize(w, path[..n]).value + Names(path[n..])[..m - n];
            (Canonicalize(w, path[..m]).Ok? <==> at in w.tree) &&
            (at in w.tree ==> Canonicalize(w, path[..m]) == Ok(at) && w.Resolve(path[..m]).At?) &&
            (w.Resolve(path[..m]).At? ==> w.Resolve(path[..m]).location == at) &&
            (at in w.tree && m > n ==> !w.tree[at].Symlink?)
  {
    hide NoLinkBelow, WellFormed, Walk, Physical;
    var first, second, names := path[..n], path[n..m], Names(path[n..]);
    var root, followed := w.Resolve(first).location, w.Resolve(first).followed;
    assert path[..m] == first + second && second == path[n..][..m - n];
    forall c | c in second ensures c != Parent { assert c in path[n..]; }
    assert Names(second) == names[..m - n];
    NoLinkInPrefix(w.tree, root, names, m - n);
    RootIsPhysical(w.tree);
    WalkThrough(w.tree, [], first, second, w.linkLimit, 0);
    WalkStaysPhysical(w.tree, [], first, w.linkLimit, 0);
    WalkStaysPhysical(w.tree, [], path[..m], w.linkLimit, 0);
    WalkLiterally(w.tree, root, second, w.linkLimit - followed, followed);
    var at := root + names[..m - n];
    LastIsNoLink(w.tree, root, names, m - n);
    if at in w.tree { WalkDown(w.tree, root, second, w.linkLimit - followed, followed); }
    PhysicalExists(w.tree, w.Resolve(path[..m]));
  }

  lemma PhysicalExists(t: Tree, o: Outcome)
    requires Ends(t, o)
    ensures o.At? ==> o.location in t
  {
  }

  lemma LastIsNoLink(t: Tree, base: Location, names: Location, k: nat)
    requires NoLinkBelow(t, base, names) && k <= |names|
    ensures k > 0 && base + names[..k] in t ==> !t[base + names[..k]].Symlink?
    ensures Physical(t, base) && base + names[..k] in t ==> Physical(t, base + names[..k])
  {
    assert base + names[..0] == base;
  }

  lemma WalkDown(t: Tree, base: Location, path: Path, budget: nat, followed: nat)
    requires WellFormed(t) && Physical(t, base) && ParentFree(path) && Physical(t, base + Names(path))
    ensures Walk(t, base, path, budget, followed) == At(base + Names(path), followed)
  {
    hide Walk, WellFormed;
    var at := base + Names(path);
    assert Lift(at) == Lift(base) + path by {
      forall i | 0 <= i < |path| ensures path[i] == Normal(path[i].name) { assert path[i] in path; }
    }
    assert Lift(at) + [] == Lift(at);
    WalkPhysical(t, base, path, budget, followed);
    WalkPhysical(t, at, [], budget, followed);
    NothingToWalk(t, at, budget, followed);
  }

  lemma NothingToWalk(t: Tree, at: Location, budget: nat, followed: nat)
    ensures Walk(t, at, [], budget, followed) == At(at, followed)
  {
  }

  /** The path is the entry it spells, and that is no link. */
  lemma PlainEntry(w: World, path: Path, n: nat)
    requires w.Valid() && NoLinkAfter(w, path, n)
    ensures EntryAt(w, path, SpelledFrom(w, path, n))
    ensures !EntryIsLink(w, path)
  {
    hide WellFormed, Walk, NoLinkBelow, Canonicalize;
    var at, m := SpelledFrom(w, path, n), |path| - 1;
    var names := Names(path[n..]);
    assert path[m] in path[n..] && path[n..][m - n] == path[m];
    assert names[..m - n] + [path[m].name] == names;
    PlainResolves(w, path, n, m);
    PlainResolves(w, path, n, |path|);
    assert path[..|path|] == path && names[..|path| - n] == names;
    assert path == path[..m] + [Normal(path[m].name)];
    var o := w.Resolve(path[..m]);
    if o.At? {
      LstatChild(w, path[..m], o.location, o.followed, path[m].name);
    } else {
      LstatBelowNothing(w, path, m);
    }
  }

  lemma LstatBelowNothing(w: World, path: Path, m: nat)
    requires |path| == m + 1 && path[m].Normal? && !w.Resolve(path[..m]).At?
    ensures Lstat(w, path).Err?
  {
    hide Walk;
  }

  // ---- the paths a move works with ----------------------------------------------------

  /** The path with its longest existing part canonical, looking from the first k components down. */
  function LongestExisting(w: World, path: Path, k: nat): Location
    requires k <= |path|
  {
    var canonical := Canonicalize(w, path[..k]);
    if canonical.Ok? then canonical.value + NormalNames(path[k..])
    else if k == 0 then []
    else LongestExisting(w, path, k - 1)
  }

  function NormalNames(path: Path): Location
  {
    if path == [] then []
    else (if path[0].Normal? then [path[0].name] else []) + NormalNames(path[1..])
  }

  /** resolve_nonexistent: the names without an existing place, after what does exist. */
  method ResolveNonexistent(w: World, path: Path) returns (at: Location)
    requires path != []
    ensures at == LongestExisting(w, path, |path| - 1)
  {
    hide Canonicalize;
    var k := |path| - 1;
    var tail := NormalNames(path[k..]);
    while true
      invariant k < |path| && tail == NormalNames(path[k..])
      invariant LongestExisting(w, path, k) == LongestExisting(w, path, |path| - 1)
      decreases k
    {
      var canonical := Canonicalize(w, path[..k]);
      if canonical.Ok? {
        return canonical.value + tail;
      }
      if k == 0 {
        return [];
      }
      k := k - 1;
      assert path[k..][1..] == path[k + 1..];
      tail := (if path[k].Normal? then [path[k].name] else []) + tail;
    }
  }

  lemma {:induction false} NormalNamesAre(path: Path)
    requires ParentFree(path)
    ensures NormalNames(path) == Names(path)
    decreases |path|
  {
    if path != [] {
      assert path[0] in path && forall c | c in path[1..] :: c in path;
      NormalNamesAre(path[1..]);
      assert Names(path) == [path[0].name] + Names(path[1..]);
    }
  }

  lemma {:induction false} LongestIsSpelled(w: World, path: Path, n: nat, k: nat)
    requires w.Valid() && NoLinkAfter(w, path, n) && n <= k <= |path|
    ensures LongestExisting(w, path, k) == SpelledFrom(w, path, n)
    decreases k
  {
    hide WellFormed, NoLinkBelow, Canonicalize;
    var names := Names(path[n..]);
    if Canonicalize(w, path[..k]).Ok? {
      PlainResolves(w, path, n, k);
      forall c | c in path[k..] ensures c != Parent { assert c in path[n..]; }
      NormalNamesAre(path[k..]);
      assert Names(path[k..]) == names[k - n..];
      assert names[..k - n] + names[k - n..] == names;
    } else {
      LongestIsSpelled(w, path, n, k - 1);
    }
  }

  /** What same_or_nested takes the two ends of a move for. */
  method CanonicalEnds(w: World, from: Path, to: Path) returns (cf: Option<Location>, ct: Option<Location>)
    requires to != []
    ensures cf == SourceEnd(w, from) && ct == TargetEnd(w, to)
  {
    hide Canonicalize;
    var canonical := Canonicalize(w, from);
    cf := if canonical.Ok? then Some(canonical.value) else None;
    canonical := Canonicalize(w, to);
    if canonical.Ok? {
      ct := Some(canonical.value);
    } else if canonical.error.NotFound? {
      var at := ResolveNonexistent(w, to);
      ct := Some(at);
    } else {
      ct := None;
    }
  }

  lemma EndsAreCanonical(w: World, fs: M.FS, path: Path, n: nat)
    requires w.Valid() && Mirrors(fs, w.tree) && NoLinkAfter(w, path, n)
    ensures var at, canonical := SpelledFrom(w, path, n), Canonicalize(w, path);
            M.CanonicalSource(fs, at, if canonical.Ok? then Some(canonical.value) else None) &&
            (canonical.Ok? <==> at in fs) && (at in fs ==> !fs[at].Link?) &&
            (canonical.Ok? ==> canonical.value == at) && LongestExisting(w, path, |path| - 1) == at
  {
    hide WellFormed, NoLinkBelow, Canonicalize;
    PlainResolves(w, path, n, |path|);
    LongestIsSpelled(w, path, n, |path| - 1);
    assert path[..|path|] == path && Names(path[n..])[..|path| - n] == Names(path[n..]);
  }

  // ---- the move -----------------------------------------------------------------------

  datatype ScopedError = NotAdmitted(failure: Failure) | NotMoved(error: M.MoveError)

  /** The tree below a location. */
  ghost function TreeAt(fs: M.FS, p: Location): M.FS
  {
    map q | q in Below(fs, p) :: fs[p + q]
  }

  ghost function Below(fs: M.FS, p: Location): set<Location>
    ensures forall q :: q in Below(fs, p) <==> p + q in fs
  {
    var s := set at | at in fs && p <= at :: at[|p|..];
    assert forall q: Location | p + q in fs :: q in s by {
      forall q: Location | p + q in fs ensures q in s {
        assert p <= p + q && (p + q)[|p|..] == q;
      }
    }
    assert forall q: Location | q in s :: p + q in fs by {
      forall q: Location | q in s ensures p + q in fs {
        var at :| at in fs && p <= at && at[|p|..] == q;
        assert p + q == at;
      }
    }
    s
  }

  lemma HasTreeAt(fs: M.FS, p: Location)
    ensures M.Has(fs, p, TreeAt(fs, p))
  {
  }

  /** The backup's name is used nowhere yet. */
  ghost predicate Fresh(fs: M.FS, to: Path, name: Name)
  {
    (forall at | at in fs :: name !in at) && Normal(name) !in to
  }

  lemma FreshBackup(fs: M.FS, to: Path, at: Location, name: Name)
    requires Fresh(fs, to, name) && at != [] && to != [] && to[|to| - 1] == Normal(at[|at| - 1])
    ensures M.BackupOf(at, name) !in fs && M.BackupOf(at, name) != at
  {
    var backup := M.BackupOf(at, name);
    assert backup[|backup| - 1] == name;
    assert to[|to| - 1] in to;
  }

  ghost predicate Admitted(w: World, scope: Scope, pf: Path, pt: Path)
  {
    Admission(w, scope, Delete, pf).Ok? && Admission(w, scope, Write, pt).Ok?
  }

  function SourceEnd(w: World, path: Path): Option<Location>
  {
    match Canonicalize(w, path) case Ok(at) => Some(at) case Err(_) => None
  }

  function TargetEnd(w: World, path: Path): Option<Location>
    requires path != []
  {
    match Canonicalize(w, path)
    case Ok(at) => Some(at)
    case Err(e) => if e.NotFound? then Some(LongestExisting(w, path, |path| - 1)) else None
  }

  lemma AcceptedEnd(w: World, fs: M.FS, scope: Scope, access: Access, path: Path)
    requires w.Valid() && Mirrors(fs, w.tree) && (access.Delete? || access.Write?)
    requires BelowAlias(w, scope, access, path) && Admission(w, scope, access, path).Ok?
    ensures var at := Spelled(w, scope, access, path);
            path != [] && EntryAt(w, path, at) && !EntryIsLink(w, path) && at != [] &&
            path[|path| - 1] == Normal(at[|at| - 1]) && (at in fs ==> !fs[at].Link?) &&
            (SourceEnd(w, path).Some? <==> at in fs) && (at in fs ==> SourceEnd(w, path) == Some(at)) &&
            (at in fs ==> Canonicalize(w, path).Ok?) && (at !in fs ==> Canonicalize(w, path).Err?) &&
            (TargetEnd(w, path).Some? ==> TargetEnd(w, path) == Some(at)) &&
            (at in fs || M.InDirectory(fs, at) ==> TargetEnd(w, path).Some?)
  {
    hide Admission, EntryAt, EntryIsLink, Mirrors, NoLinkAfter, WellFormed, Canonicalize, LexicalRoot, LongestExisting;
    var n := LexicalRoot(w, scope.Roots(access), path, false).value;
    AcceptedIsChecked(w, scope, access, path);
    PlainEntry(w, path, n);
    EndsAreCanonical(w, fs, path, n);
    var at := Spelled(w, scope, access, path);
    if at !in fs && M.InDirectory(fs, at) {
      FreeSlotIsMissing(w, fs, path, n);
    }
    LastName(w, path, n);
  }

  /** A free slot in a directory is missing, not unreachable. */
  lemma FreeSlotIsMissing(w: World, fs: M.FS, path: Path, n: nat)
    requires w.Valid() && Mirrors(fs, w.tree) && NoLinkAfter(w, path, n)
    requires SpelledFrom(w, path, n) !in fs && M.InDirectory(fs, SpelledFrom(w, path, n))
    ensures Canonicalize(w, path) == Err(NotFound)
  {
    hide WellFormed, Walk, NoLinkBelow, Physical;
    var at, m := SpelledFrom(w, path, n), |path| - 1;
    var names := Names(path[n..]);
    assert path[m] in path[n..] && path[n..][m - n] == path[m];
    assert names[..m - n] + [path[m].name] == names;
    PlainResolves(w, path, n, m);
    var up := Canonicalize(w, path[..n]).value + names[..m - n];
    assert at[..|at| - 1] == up && at == up + [path[m].name];
    assert path == path[..m] + [Normal(path[m].name)];
    var followed := w.Resolve(path[..m]).followed;
    WalkThrough(w.tree, [], path[..m], [Normal(path[m].name)], w.linkLimit, 0);
    StepToMissing(w.tree, up, path[m].name, w.linkLimit - followed, followed);
  }

  lemma StepToMissing(t: Tree, up: Location, name: Name, budget: nat, followed: nat)
    requires up in t && t[up].Dir? && up + [name] !in t
    ensures Walk(t, up, [Normal(name)], budget, followed) == Missing(up + [name], [], followed)
  {
  }

  lemma LastName(w: World, path: Path, n: nat)
    requires NoLinkAfter(w, path, n)
    ensures var at := SpelledFrom(w, path, n); at != [] && path[|path| - 1] == Normal(at[|at| - 1])
  {
    hide Canonicalize, NoLinkBelow;
    var m := |path| - 1;
    assert path[m] in path[n..] && path[n..][m - n] == path[m];
  }

  /** What fs_move asks of its ends. */
  lemma AcceptedEnds(w: World, fs: M.FS, scope: Scope, pf: Path, pt: Path, name: Name)
    requires w.Valid() && Mirrors(fs, w.tree) && Fresh(fs, pt, name)
    requires BelowAlias(w, scope, Delete, pf) && BelowAlias(w, scope, Write, pt) && Admitted(w, scope, pf, pt)
    ensures pt != [] && M.Closed(fs)
    ensures var from, to := Spelled(w, scope, Delete, pf), Spelled(w, scope, Write, pt);
            EntryAt(w, pf, from) && EntryAt(w, pt, to) && !EntryIsLink(w, pf) && !EntryIsLink(w, pt) &&
            M.CanonicalSource(fs, from, SourceEnd(w, pf)) && M.CanonicalTarget(fs, to, TargetEnd(w, pt)) &&
            (SourceEnd(w, pf).Some? ==> SourceEnd(w, pf) == Some(from)) &&
            (TargetEnd(w, pt).Some? ==> TargetEnd(w, pt) == Some(to)) &&
            (SourceEnd(w, pf).Some? <==> from in fs) && (Canonicalize(w, pt).Ok? <==> to in fs) &&
            (to in fs || M.InDirectory(fs, to) ==> TargetEnd(w, pt).Some?) &&
            M.ExistsFollowing(fs, to, Canonicalize(w, pt).Ok?) && M.Plain(fs, to, Canonicalize(w, pt).Ok?) &&
            M.Leads(fs, to, Canonicalize(w, pt).Ok?, None) &&
            M.BackupOf(to, name) !in fs && M.BackupOf(to, name) != to
  {
    hide Admission, EntryAt, EntryIsLink, Mirrors, BelowAlias, Spelled, WellFormed, Canonicalize, SourceEnd, TargetEnd,
         Fresh, M.BackupOf, M.Closed;
    MirrorIsClosed(fs, w.tree);
    AcceptedEnd(w, fs, scope, Delete, pf);
    AcceptedEnd(w, fs, scope, Write, pt);
    FreshBackup(fs, pt, Spelled(w, scope, Write, pt), name);
  }

  /** The volume is reliable, and both the destination and its backup are on one device. */
  ghost predicate NothingFails(disk: M.Volume, fs: M.FS, from: Location, to: Location, name: Name)
  {
    disk.reliable && M.InDirectory(fs, to) && !disk.crosses(to, M.BackupOf(to, name)) &&
    !disk.crosses(M.BackupOf(to, name), to)
  }

  /** fs_move between two paths that a workspace scope accepts, each below an alias of a root and without
      a parent step after it. Then neither end is a link, the overlap check is exact, no copy goes
      through a link, and all that fs_move promises holds without further conditions. */
  method MoveInScope(w: World, scope: Scope, disk: M.Volume, pf: Path, pt: Path, overwrite: bool, name: Name)
    returns (r: Result<M.Moved, ScopedError>, ghost installed: nat)
    requires w.Valid() && disk.Valid() && Mirrors(disk.fs, w.tree) && Fresh(disk.fs, pt, name)
    requires BelowAlias(w, scope, Delete, pf) && BelowAlias(w, scope, Write, pt)
    modifies disk
    ensures disk.Valid() && |disk.trace| >= |old(disk.trace)|
    ensures r.Err? && r.error.NotAdmitted? <==> !Admitted(w, scope, pf, pt)
    ensures r.Err? && r.error.NotAdmitted? ==> disk.trace == old(disk.trace)
    ensures Admitted(w, scope, pf, pt) ==>
              var from, to := Spelled(w, scope, Delete, pf), Spelled(w, scope, Write, pt);
              EntryAt(w, pf, from) && EntryAt(w, pt, to) && !EntryIsLink(w, pf) && !EntryIsLink(w, pt) &&
              (M.Nested(from, to) ==> r.Err? && disk.trace == old(disk.trace)) &&
              (!M.Nested(from, to) ==> r != Err(NotMoved(M.Overlap)))
    ensures Admitted(w, scope, pf, pt) ==>
              var from, to := Spelled(w, scope, Delete, pf), Spelled(w, scope, Write, pt);
              var src, dst := TreeAt(old(disk.fs), from), TreeAt(old(disk.fs), to);
              var backup := M.BackupOf(to, name);
              !M.Nested(from, to) ==>
                M.Kept(disk.trace, |old(disk.trace)|, installed, from, to, backup, src, dst) &&
                M.Untouched(old(disk.fs), disk.fs, from, to, backup) &&
                (r.Err? ==> M.Safe(disk.fs, from, to, backup, src, dst)) &&
                (r.Ok? ==> M.Has(disk.fs, to, src) && (!r.value.sourceLeft ==> M.Gone(disk.fs, from)))
    ensures Admitted(w, scope, pf, pt) ==>
              var from, to := Spelled(w, scope, Delete, pf), Spelled(w, scope, Write, pt);
              var fs := old(disk.fs);
              if from !in fs then r == Err(NotMoved(M.NotFound)) && disk.trace == old(disk.trace)
              else if to !in fs && !M.InDirectory(fs, to) then r.Err? && r.error.NotMoved?
              else if from <= to || to <= from then r == Err(NotMoved(M.Overlap)) && disk.trace == old(disk.trace)
              else if to in fs && !overwrite then
                r == Err(NotMoved(M.AlreadyExists)) && disk.trace == old(disk.trace)
              else NothingFails(disk, fs, from, to, name) ==>
                if disk.crosses(from, to) && !M.NoSpecial(fs, from) then
                  r == Err(NotMoved(M.Failed)) &&
                  if to in fs then disk.fs == fs else M.OnlyBelow(fs, disk.fs, to)
                else r == Ok(M.Moved(disk.crosses(from, to), false, false)) && M.Replaced(fs, disk.fs, from, to)
  {
    hide Admission, BelowAlias, Spelled, EntryAt, EntryIsLink, Mirrors, Fresh, Canonicalize, SourceEnd, TargetEnd,
         WellFormed, TreeAt, M.Has, M.Gone, M.Kept, M.Safe, M.Untouched, M.UntouchedBut, M.Closed, M.Leads, M.Through,
         M.NotLost, M.BackupOf, M.Replaced, M.OnlyBelow, M.NoSpecial, M.InDirectory;
    installed := |disk.trace|;
    var source := Validate(w, scope, pf, Delete);
    if source.Err? {
      return Err(NotAdmitted(source.error)), installed;
    }
    var target := Validate(w, scope, pt, Write);
    if target.Err? {
      return Err(NotAdmitted(target.error)), installed;
    }
    ghost var before := disk.fs;
    AcceptedEnds(w, before, scope, pf, pt, name);
    var cf, ct := CanonicalEnds(w, pf, pt);
    var present := Canonicalize(w, pt).Ok?;
    var from, to := Spelled(w, scope, Delete, pf), Spelled(w, scope, Write, pt);
    HasTreeAt(before, from);
    HasTreeAt(before, to);
    var moved;
    moved, installed := M.FsMove(disk, from, to, overwrite, cf, ct, present, None, name, TreeAt(before, from),
                                 TreeAt(before, to));
    r := match moved case Ok(m) => Ok(m) case Err(e) => Err(NotMoved(e));
  }

  // ---- the alias itself ---------------------------------------------------------------

  function AliasedTree(): Tree
  {
    map[[] := Dir, ["r"] := Dir, ["a"] := Symlink(Target(true, [Normal("r")]))]
  }

  /** The condition is needed: a link that is itself an alias of a root is accepted, since nothing is
      left to look at after it. */
  lemma AliasItselfIsAccepted()
    ensures var w, scope, path := World(AliasedTree(), 40), Scope([["r"]], []), [Normal("a")];
            w.Valid() && Admission(w, scope, Write, path) == Ok(()) && Admission(w, scope, Delete, path) == Ok(()) &&
            EntryIsLink(w, path) && !BelowAlias(w, scope, Write, path)
  {
    hide Canonicalize, Lstat, Walk, WellFormed;
    var w, scope, path := World(AliasedTree(), 40), Scope([["r"]], []), [Normal("a")];
    AliasResolves();
    assert path[..0] == [] && path[..1] == path && path[1..] == [];
    assert scope.Roots(Write) == [["r"]] == scope.Roots(Delete) && scope.Roots(Write)[0] <= ["r"];
    assert RootPrefix(w, ["r"], path, false, 1) == Ok(Some(1));
    assert RootPrefix(w, ["r"], path, false, 0) == Ok(Some(1));
    assert LexicalRoot(w, [["r"]], path, false) == Ok(1);
    assert ComponentCheck(w, path, [], false) == Ok(());
    assert scope.Contains(["r"], Write) && scope.Contains(["r"], Delete);
    assert Containment(w, path) == Ok(["r"]);
  }

  lemma AliasResolves()
    ensures var w := World(AliasedTree(), 40);
            w.Valid() && Canonicalize(w, []) == Ok([]) && Canonicalize(w, [Normal("a")]) == Ok(["r"]) &&
            Lstat(w, [Normal("a")]).Ok? && Lstat(w, [Normal("a")]).value.Symlink?
  {
    var t, w := AliasedTree(), World(AliasedTree(), 40);
    var a, r: Path := [Normal("a")], [Normal("r")];
    assert Up(["r"]) == [] && Up(["a"]) == [] && [] + ["a"] == ["a"] && [] + ["r"] == ["r"];
    assert a[1..] == [] && r + [] == r && r[1..] == [] && a[..0] == [];
    assert Walk(t, [], r, 39, 1) == At(["r"], 1);
    assert w.Resolve(a) == At(["r"], 1) && w.Resolve([]) == At([], 0);
  }
}
