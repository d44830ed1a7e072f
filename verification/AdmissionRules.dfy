/** When a workspace scope admits a path, access by access, said of the two lists of roots and of what
    lstat shows on the way (crates/xuanling-toolkit/src/capability.rs). */
module AdmissionRules {
  import opened Wrappers
  import opened PathResolution
  import opened Capability
  import opened Workspace

  /** The path is proved to lie at this location, below a write root, or below a read root when reading. */
  ghost predicate Inside(w: World, scope: Scope, reading: bool, path: Path)
  {
    var c := Containment(w, path);
    c.Ok? && (BelowSome(scope.writeRoots, c.value) || (reading && BelowSome(scope.readRoots, c.value)))
  }

  lemma InsideIsContained(w: World, scope: Scope, access: Access, path: Path)
    ensures InScope(w, scope, access, path).Ok? <==> Inside(w, scope, access in {Read, ReadEntry}, path)
    ensures InScope(w, scope, access, path).Err? ==>
              InScope(w, scope, access, path).error ==
                if Containment(w, path).Err? then Containment(w, path).error else OutsideWorkspace
  {
    hide Containment, Scope.Contains, BelowSome;
    if Containment(w, path).Ok? { RootsAdmit(scope, access, Containment(w, path).value); }
  }

  /** Reading is accepted exactly for paths proved below any root, a working directory below a write root. */
  lemma ReadAcceptedExactlyWhen(w: World, scope: Scope, path: Path)
    ensures Admission(w, scope, Read, path).Ok? <==> Inside(w, scope, true, path)
    ensures Admission(w, scope, ProcessCwd, path).Ok? <==> Inside(w, scope, false, path)
    ensures forall access | access in {Read, ProcessCwd} && Admission(w, scope, access, path).Err? ::
              Admission(w, scope, access, path).error ==
                if Containment(w, path).Err? then Containment(w, path).error else OutsideWorkspace
  {
    hide Containment, Inside;
    InsideIsContained(w, scope, Read, path);
    InsideIsContained(w, scope, ProcessCwd, path);
  }

  /** Reading an entry takes its directory below a root, and the entry to be a link or below one itself. */
  lemma ReadEntryAcceptedExactlyWhen(w: World, scope: Scope, path: Path)
    ensures Admission(w, scope, ReadEntry, path).Ok? <==>
              path != [] && Inside(w, scope, true, path[..|path| - 1]) &&
              (EntryIsLink(w, path) || Inside(w, scope, true, path))
  {
    hide Containment, Inside, EntryIsLink;
    InsideIsContained(w, scope, ReadEntry, path);
    if path != [] { InsideIsContained(w, scope, ReadEntry, path[..|path| - 1]); }
  }

  // ---- the component check ------------------------------------------------------------

  /** From the first alias of a write root on, every component met lexically is there and no link, up to
      the end or the first that is missing; a last one may be a link when leaves may. */
  ghost predicate ClearFrom(w: World, roots: seq<Location>, path: Path, leaf: bool, k: nat, n: nat)
  {
    FirstAlias(w, roots, path, leaf, k, n) && ClearBelow(w, path[..n], path[n..], leaf)
  }

  ghost predicate Clear(w: World, scope: Scope, path: Path, leaf: bool)
  {
    exists k: nat, n: nat :: ClearFrom(w, scope.writeRoots, path, leaf, k, n)
  }

  /** Looking for the alias meets no failure other than a missing prefix. */
  ghost predicate Searchable(w: World, path: Path)
  {
    forall n | 0 <= n <= |path| :: Canonicalize(w, path[..n]).Ok? || Canonicalize(w, path[..n]) == Err(NotFound)
  }

  lemma FirstAliasIsOne(w: World, roots: seq<Location>, path: Path, leaf: bool, k: nat, n: nat, j: nat, m: nat)
    requires FirstAlias(w, roots, path, leaf, k, n) && FirstAlias(w, roots, path, leaf, j, m)
    ensures k == j && n == m
  {
    hide Canonicalize;
    assert Looked(path, leaf, n) && Looked(path, leaf, m);
  }

  /** The component check of a mutation passes only for a path that is clear from its first alias, and,
      where the search meets no other failure, for every such path. */
  lemma CheckPassesExactlyWhen(w: World, scope: Scope, access: Access, path: Path, leaf: bool)
    requires access in {Write, Delete, DeleteEntry}
    ensures SymlinkCheck(w, scope, access, path, leaf).Ok? ==> Clear(w, scope, path, leaf)
    ensures Searchable(w, path) && Clear(w, scope, path, leaf) ==> SymlinkCheck(w, scope, access, path, leaf).Ok?
  {
    hide Canonicalize, LexicalRoot, ComponentCheck, ClearBelow, FirstAlias;
    var r := LexicalRoot(w, scope.writeRoots, path, leaf);
    LexicalRootMeans(w, scope.writeRoots, path, leaf);
    if r.Ok? {
      var n := r.value;
      var k: nat :| FirstAlias(w, scope.writeRoots, path, leaf, k, n);
      AliasFits(w, scope.writeRoots, path, leaf, k, n);
      ComponentCheckExact(w, path[..n], path[n..], leaf);
      if ClearBelow(w, path[..n], path[n..], leaf) {
        assert ClearFrom(w, scope.writeRoots, path, leaf, k, n);
      }
      if Clear(w, scope, path, leaf) {
        var j: nat, m: nat :| ClearFrom(w, scope.writeRoots, path, leaf, j, m);
        FirstAliasIsOne(w, scope.writeRoots, path, leaf, k, n, j, m);
      }
    } else if Searchable(w, path) && Clear(w, scope, path, leaf) {
      var j: nat, m: nat :| ClearFrom(w, scope.writeRoots, path, leaf, j, m);
      AliasFits(w, scope.writeRoots, path, leaf, j, m);
      NoFailureWhenSearchable(w, path, r.error);
      assert false;
    }
  }

  lemma NoFailureWhenSearchable(w: World, path: Path, e: Failure)
    requires Searchable(w, path)
    ensures forall n :: !FailsAt(w, path, n, e)
  {
    hide Canonicalize;
  }

  lemma AliasFits(w: World, roots: seq<Location>, path: Path, leaf: bool, k: nat, n: nat)
    requires FirstAlias(w, roots, path, leaf, k, n)
    ensures Looked(path, leaf, n) && k < |roots| && Canonicalize(w, path[..n]) == Ok(roots[k])
  {
    hide Canonicalize;
  }

  /** Writing and deleting take the path below a write root and clear of links. */
  lemma MutationAcceptedExactlyWhen(w: World, scope: Scope, access: Access, path: Path)
    requires access in {Write, Delete}
    ensures Admission(w, scope, access, path).Ok? ==> Inside(w, scope, false, path) && Clear(w, scope, path, false)
    ensures Inside(w, scope, false, path) && Clear(w, scope, path, false) && Searchable(w, path) ==>
              Admission(w, scope, access, path).Ok?
    ensures !Inside(w, scope, false, path) ==>
              Admission(w, scope, access, path) ==
                Err(if Containment(w, path).Err? then Containment(w, path).error else OutsideWorkspace)
  {
    hide Containment, Inside, Clear, Searchable, SymlinkCheck;
    InsideIsContained(w, scope, access, path);
    CheckPassesExactlyWhen(w, scope, access, path, false);
  }

  /** Deleting an entry takes its directory below a write root and the way to it clear of links; the entry
      may be a link, or else is below a write root itself. */
  lemma DeleteEntryAcceptedExactlyWhen(w: World, scope: Scope, path: Path)
    ensures Admission(w, scope, DeleteEntry, path).Ok? ==> EntryDeletable(w, scope, path)
    ensures EntryDeletable(w, scope, path) && Searchable(w, path) ==> Admission(w, scope, DeleteEntry, path).Ok?
  {
    hide Containment, Inside, Clear, Searchable, SymlinkCheck, EntryIsLink;
    InsideIsContained(w, scope, DeleteEntry, path);
    CheckPassesExactlyWhen(w, scope, DeleteEntry, path, true);
    CheckPassesExactlyWhen(w, scope, DeleteEntry, path, false);
    if path != [] { InsideIsContained(w, scope, DeleteEntry, path[..|path| - 1]); }
  }

  ghost predicate EntryDeletable(w: World, scope: Scope, path: Path)
  {
    path != [] && Inside(w, scope, false, path[..|path| - 1]) && Clear(w, scope, path, true) &&
    (EntryIsLink(w, path) || (Inside(w, scope, false, path) && Clear(w, scope, path, false)))
  }

  /** A failed component check names its reason: a link that was met, or what lstat failed with. */
  lemma {:induction false} CheckFailsBecause(w: World, current: Path, relative: Path, leaf: bool)
    ensures match ComponentCheck(w, current, relative, leaf)
            case Ok(_) => true
            case Err(e) => SomeFailsWith(w, current, relative, e)
    decreases |relative|
  {
    hide Lstat, NormalCount;
    if relative != [] {
      var next := if relative[0].Parent? then Popped(current) else current + [relative[0]];
      CheckFailsBecause(w, next, relative[1..], leaf);
      assert relative[..1] == [relative[0]] && relative[..1][1..] == [];
      var r := ComponentCheck(w, current, relative, leaf);
      if r.Err? {
        assert relative[0].Normal? ==> Descent(current, relative[..1]) == current + [relative[0]];
        if r == ComponentCheck(w, next, relative[1..], leaf) {
          var i :| 0 <= i < |relative[1..]| && FailsWith(w, next, relative[1..], i, r.error);
          var k := i + 1;
          assert relative[..k + 1][1..] == relative[1..][..i + 1];
          assert FailsWith(w, current, relative, k, r.error);
        } else {
          assert FailsWith(w, current, relative, 0, r.error);
        }
      }
    }
  }

  ghost predicate SomeFailsWith(w: World, current: Path, relative: Path, e: Failure)
  {
    exists i :: 0 <= i < |relative| && FailsWith(w, current, relative, i, e)
  }

  ghost predicate FailsWith(w: World, current: Path, relative: Path, i: nat, e: Failure)
    requires i < |relative|
  {
    var metadata := Lstat(w, Descent(current, relative[..i + 1]));
    relative[i].Normal? &&
    if metadata.Ok? then e == SymlinkEscape && metadata.value.Symlink?
    else e == IoFailure(metadata.error) && metadata.error != NotFound
  }

  /** How the spelling that is looked at moves on: a name is added, a parent step takes the last one. */
  lemma DescentMoves(current: Path, name: Name, rest: Path)
    ensures Descent(current, [Normal(name)] + rest) == Descent(current + [Normal(name)], rest)
    ensures Descent(current + [Normal(name)], [Parent] + rest) == Descent(current, rest)
    ensures Descent([], [Parent] + rest) == Descent([], rest) && Descent(current, []) == current
  {
    var up, down := [Parent] + rest, [Normal(name)] + rest;
    var longer := current + [Normal(name)];
    assert up[1..] == rest && down[1..] == rest && longer[..|longer| - 1] == current;
    assert Popped(longer) == current;
    assert Descent(longer, up) == Descent(current, rest);
  }

  /** No name is left exactly when only parent steps are. */
  lemma {:induction false} NoNameLeft(path: Path)
    ensures NormalCount(path) == 0 <==> forall i | 0 <= i < |path| :: path[i].Parent?
  {
    if path != [] {
      NoNameLeft(path[1..]);
      assert path == [path[0]] + path[1..];
    }
  }

  /** Forty links are too many for the walker, fewer are not. */
  lemma FortyLinks(w: World, path: Path)
    requires w.Valid() && w.Resolve(path).At?
    ensures Intent(w.tree, [], path, 0) ==
            if w.Resolve(path).followed < 40 then Ok(w.Resolve(path).location) else Err(TooManySymbolicLinks)
  {
    hide Walk, Intent, WellFormed, Physical;
    RootIsPhysical(w.tree);
    IntentRefinesResolution(w.tree, [], path, w.linkLimit, 0, 0);
  }
}
