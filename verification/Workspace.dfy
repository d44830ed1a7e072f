/** Admission of a path by a workspace scope (crates/xuanling-toolkit/src/capability.rs). */
module Workspace {
  import opened Wrappers
  import opened PathResolution
  import opened Capability
  import opened Creation

  datatype Access = Read | ReadEntry | Write | Delete | DeleteEntry | ProcessCwd
  {
    predicate RequiresMutationCheck() { Write? || Delete? || DeleteEntry? }
    predicate OperatesOnEntry() { ReadEntry? || DeleteEntry? }
    predicate IsRead() { Read? || ReadEntry? }
  }

  /** Canonical roots: directories named by their physical location. */
  datatype Scope = Scope(writeRoots: seq<Location>, readRoots: seq<Location>)
  {
    function Roots(access: Access): seq<Location>
    {
      if access.IsRead() then writeRoots + readRoots else writeRoots
    }

    predicate Contains(at: Location, access: Access)
    {
      exists k :: 0 <= k < |Roots(access)| && Roots(access)[k] <= at
    }
  }

  /** Below one of these roots, or one of them. */
  predicate BelowSome(roots: seq<Location>, at: Location)
  {
    exists k :: 0 <= k < |roots| && roots[k] <= at
  }

  /** Read access is admitted by both lists of roots, every other by the write roots alone. */
  lemma RootsAdmit(scope: Scope, access: Access, at: Location)
    ensures access in {Read, ReadEntry} ==>
              (scope.Contains(at, access) <==> BelowSome(scope.writeRoots, at) || BelowSome(scope.readRoots, at))
    ensures access in {Write, Delete, DeleteEntry, ProcessCwd} ==>
              (scope.Contains(at, access) <==> BelowSome(scope.writeRoots, at))
  {
    var roots, first := scope.Roots(access), |scope.writeRoots|;
    if scope.Contains(at, access) {
      var k :| 0 <= k < |roots| && roots[k] <= at;
      assert k < first ==> scope.writeRoots[k] <= at;
      assert k >= first ==> scope.readRoots[k - first] <= at;
    }
    if BelowSome(scope.writeRoots, at) {
      var k :| 0 <= k < first && scope.writeRoots[k] <= at;
      assert roots[k] <= at;
    }
    if access in {Read, ReadEntry} && BelowSome(scope.readRoots, at) {
      var k :| 0 <= k < |scope.readRoots| && scope.readRoots[k] <= at;
      assert roots[first + k] <= at;
    }
  }

  /** Where opening the path acts, or writing to it once the directories it lacks are made one by
      one. */
  ghost function Reached(w: World, path: Path): (at: Result<Location, ()>)
  {
    match Create(w.tree, [], path, w.linkLimit)
    case Made(_, at, _) => Ok(at)
    case Stuck => Err(())
  }

  /** Reaching the path is the same as landing on it. */
  lemma ReachedIsLanding(w: World, path: Path)
    requires w.Valid()
    ensures var z := Land(w.tree, [], path, w.linkLimit);
            Reached(w, path) == if z.Some? then Ok(z.value.at) else Err(())
  {
    GrownFromItself(w.tree);
    CreateLands(w.tree, w.tree, [], path, w.linkLimit);
  }

  /** Wherever the walker goes on lexically past a missing component of the path, no parent step
      cancels a link that leads elsewhere. */
  ghost predicate GoesStraight(w: World, path: Path)
  {
    Straight(w.tree, [], path, 0, w.linkLimit)
  }

  /** For a path that creation can reach this is exact: the walker keeps up with creation, through all
      its restarts, if and only if the path goes straight. */
  lemma GoesStraightExactlyWhen(w: World, path: Path)
    requires w.Valid() && Reached(w, path).Ok?
    ensures GoesStraight(w, path) <==> KeepsUp(w.tree, [], path, w.linkLimit, 0, w.linkLimit)
  {
    RootIsPhysical(w.tree);
    hide WellFormed, Physical, Straight, KeepsUp, Reached, Land;
    ReachedIsLanding(w, path);
    KeepsUpExactlyWhen(w.tree, [], path, w.linkLimit, 0, w.linkLimit);
  }

  /** A path that exists, or that has no parent step after its first missing component, does. */
  lemma PlainPathGoesStraight(w: World, path: Path)
    requires w.Valid()
    ensures w.Resolve(path).At? || (w.Resolve(path).Missing? && ParentFree(w.Resolve(path).rest)) ==>
              GoesStraight(w, path)
  {
    RootIsPhysical(w.tree);
    hide WellFormed, Physical, Walk, Straight;
    var o := w.Resolve(path);
    if o.At? || (o.Missing? && ParentFree(o.rest)) {
      NoParentIsStraight(w.tree, [], path, w.linkLimit, 0, 0, w.linkLimit);
    }
  }

  /** The containment proof for one path: its canonical form, or the intent of a missing one. */
  ghost function Containment(w: World, path: Path): Result<Location, Failure>
  {
    var canonical := Canonicalize(w, path);
    if canonical.Ok? then Ok(canonical.value)
    else if canonical.error.NotFound? then Intent(w.tree, [], path, 0)
    else Err(IoFailure(canonical.error))
  }

  /** A containment proof of a straight path speaks about the location the path reaches; a path that
      resolution refuses for another reason than a missing component has none, and reaches nothing. */
  lemma ContainmentIsReached(w: World, path: Path)
    requires w.Valid()
    ensures var c := Containment(w, path);
            (c.Ok? ==> LinkFree(w.tree, c.value)) &&
            (c.Ok? && Reached(w, path).Ok? && GoesStraight(w, path) ==> c.value == Reached(w, path).value) &&
            (w.Resolve(path).At? ==> c == Ok(w.Resolve(path).location) && Reached(w, path) == Ok(c.value)) &&
            (w.Resolve(path).NotDirectory? || w.Resolve(path).TooManyLinks? ==> c.Err? && Reached(w, path).Err?)
  {
    hide WellFormed, Physical, Intent, Walk, LinkFree, Land, Reached, Straight;
    RootIsPhysical(w.tree);
    WalkStaysPhysical(w.tree, [], path, w.linkLimit, 0);
    IntentIsLinkFree(w.tree, [], path, 0);
    LandOfWalk(w.tree, [], path, w.linkLimit, 0);
    ReachedIsLanding(w, path);
    match w.Resolve(path)
    case At(at, n) =>
      PhysicalIsLinkFree(w.tree, at);
    case Missing(at, rest, n) =>
      if GoesStraight(w, path) {
        WalkerFindsCreation(w.tree, [], path, w.linkLimit, 0, w.linkLimit);
      }
    case _ =>
  }

  /** The exact condition, from the first missing component of any path on: the containment proof names,
      component by component, the places creation reaches, if and only if no parent step cancels a
      link that leads elsewhere. (Where the walker starts again it must accept, on a straight path.) */
  lemma ContainmentExactlyWhen(w: World, path: Path)
    requires w.Valid() && w.Resolve(path).Missing? && Reached(w, path).Ok? && ResumesThroughout(w, w.Resolve(path))
    ensures var o := w.Resolve(path);
            o.followed <= w.linkLimit && Containment(w, path) == Assigned(w, o) && Reached(w, path) == Made(w, o) &&
            (AgreeThroughout(w.tree, o.location, o.rest, w.linkLimit - o.followed, o.followed) <==>
               NoDetour(w.tree, o.location, o.rest, w.linkLimit))
  {
    hide *;
    MissingContainment(w, path);
    MissingReached(w, path);
    MissingExactlyWhen(w, w.Resolve(path));
  }

  /** The location the walker assigns once a component turned out to be missing. */
  ghost function Assigned(w: World, o: Outcome): Result<Location, Failure>
    requires o.Missing?
  {
    PastMissing(w.tree, o.location, o.rest, o.followed)
  }

  /** The location reached when that component and all further missing ones are made. */
  ghost function Made(w: World, o: Outcome): Result<Location, ()>
    requires o.Missing? && o.followed <= w.linkLimit
  {
    var z := Land(w.tree, o.location, o.rest, w.linkLimit - o.followed);
    if z.Some? then Ok(z.value.at) else Err(())
  }

  /** Where the walker starts again for a part of what is pending, it accepts, on a straight path. */
  ghost predicate ResumesThroughout(w: World, o: Outcome)
    requires o.Missing?
  {
    forall n | 0 <= n <= |o.rest| :: Resumes(w.tree, o.location, o.rest, o.followed, w.linkLimit, n)
  }

  lemma MissingContainment(w: World, path: Path)
    requires w.Valid() && w.Resolve(path).Missing?
    ensures Containment(w, path) == Assigned(w, w.Resolve(path))
  {
    hide WellFormed, Physical, Intent, Walk, PastMissing;
    RootIsPhysical(w.tree);
    IntentRefinesResolution(w.tree, [], path, w.linkLimit, 0, 0);
  }

  lemma MissingReached(w: World, path: Path)
    requires w.Valid() && w.Resolve(path).Missing?
    ensures var o := w.Resolve(path);
            Ends(w.tree, o) && o.followed <= w.linkLimit && Reached(w, path) == Made(w, o)
  {
    hide WellFormed, Physical, Walk, Land, Reached, Ends;
    RootIsPhysical(w.tree);
    WalkStaysPhysical(w.tree, [], path, w.linkLimit, 0);
    LandOfWalk(w.tree, [], path, w.linkLimit, 0);
    ReachedIsLanding(w, path);
  }

  lemma MissingExactlyWhen(w: World, o: Outcome)
    requires w.Valid() && o.Missing? && Ends(w.tree, o) && o.followed <= w.linkLimit && Made(w, o).Ok?
    requires ResumesThroughout(w, o)
    ensures AgreeThroughout(w.tree, o.location, o.rest, w.linkLimit - o.followed, o.followed) <==>
              NoDetour(w.tree, o.location, o.rest, w.linkLimit)
  {
    hide WellFormed, Physical, Land, NoDetour, Resumes, AgreeThroughout;
    WalkerMatchesCreation(w.tree, o.location, o.rest, w.linkLimit - o.followed, o.followed, w.linkLimit);
  }

  method Contain(w: World, path: Path) returns (r: Result<Location, Failure>)
    requires w.Valid()
    ensures r == Containment(w, path)
  {
    var canonical := Canonicalize(w, path);
    if canonical.Ok? {
      return Ok(canonical.value);
    }
    if canonical.error.NotFound? {
      r := ResolveMissingIntent(w, path, 0);
      return;
    }
    return Err(IoFailure(canonical.error));
  }

  /** `n` components of the path are an alias of a root. */
  ghost predicate IsAlias(w: World, scope: Scope, access: Access, path: Path, n: nat)
  {
    n <= |path| &&
    exists k :: 0 <= k < |scope.Roots(access)| && Canonicalize(w, path[..n]) == Ok(scope.Roots(access)[k])
  }

  /** The lengths of the prefixes looked at. */
  predicate Looked(path: Path, skipFinal: bool, n: nat)
  {
    n <= |path| && !(skipFinal && n == |path|)
  }

  /** The first prefix of at least `n` components whose canonical form is the root. */
  function RootPrefix(w: World, root: Location, path: Path, skipFinal: bool, n: nat): Result<Option<nat>, IoError>
    decreases |path| + 1 - n
  {
    if !Looked(path, skipFinal, n) then Ok(None)
    else
      match Canonicalize(w, path[..n])
      case Ok(at) => if at == root then Ok(Some(n)) else RootPrefix(w, root, path, skipFinal, n + 1)
      case Err(e) => if e.NotFound? then Ok(None) else Err(e)
  }

  /** The first root, in order, that has such a prefix. */
  function LexicalRoot(w: World, roots: seq<Location>, path: Path, skipFinal: bool): Result<nat, Failure>
  {
    if roots == [] then Err(OutsideWorkspace)
    else
      match RootPrefix(w, roots[0], path, skipFinal, 0)
      case Err(e) => Err(IoFailure(e))
      case Ok(Some(n)) => Ok(n)
      case Ok(None) => LexicalRoot(w, roots[1..], path, skipFinal)
  }

  /** Past a prefix that does not exist every longer one is missing too. */
  lemma MissingPrefix(w: World, path: Path, n: nat, m: nat)
    requires n <= m <= |path| && Canonicalize(w, path[..n]) == Err(NotFound)
    ensures Canonicalize(w, path[..m]) == Err(NotFound)
  {
    hide Walk;
    WalkThrough(w.tree, [], path[..n], path[n..m], w.linkLimit, 0);
    assert path[..m] == path[..n] + path[n..m];
  }

  ghost predicate FailsAt(w: World, path: Path, n: nat, e: Failure)
  {
    n <= |path| && e.IoFailure? && e.error != NotFound && Canonicalize(w, path[..n]) == Err(e.error)
  }

  /** The prefixes from n up to m exist and are not this root. */
  ghost predicate NoAliasBetween(w: World, root: Location, path: Path, n: nat, m: nat)
  {
    n <= m <= |path| &&
    forall j | n <= j < m :: Canonicalize(w, path[..j]).Ok? && Canonicalize(w, path[..j]) != Ok(root)
  }

  /** The n-th prefix is the first alias of root k, and no earlier root has any. */
  ghost predicate FirstAlias(w: World, roots: seq<Location>, path: Path, skipFinal: bool, k: nat, n: nat)
  {
    k < |roots| && n <= |path| && (skipFinal ==> n < |path|) && Canonicalize(w, path[..n]) == Ok(roots[k]) &&
    NoAliasBetween(w, roots[k], path, 0, n) &&
    (forall m: nat, j | Looked(path, skipFinal, m) && 0 <= j < k :: Canonicalize(w, path[..m]) != Ok(roots[j]))
  }

  ghost predicate FirstOfSome(w: World, roots: seq<Location>, path: Path, skipFinal: bool, n: nat)
  {
    exists k: nat :: FirstAlias(w, roots, path, skipFinal, k, n)
  }

  lemma {:induction false} RootPrefixMeans(w: World, root: Location, path: Path, skipFinal: bool, n: nat)
    ensures match RootPrefix(w, root, path, skipFinal, n)
            case Ok(Some(m)) =>
              Looked(path, skipFinal, m) && Canonicalize(w, path[..m]) == Ok(root) &&
              NoAliasBetween(w, root, path, n, m)
            case Ok(None) => forall m | n <= m && Looked(path, skipFinal, m) :: Canonicalize(w, path[..m]) != Ok(root)
            case Err(e) => exists m | Looked(path, skipFinal, m) :: FailsAt(w, path, m, IoFailure(e))
    decreases |path| + 1 - n
  {
    hide Canonicalize;
    if Looked(path, skipFinal, n) {
      if Canonicalize(w, path[..n]) == Err(NotFound) {
        forall m | n <= m && Looked(path, skipFinal, m) ensures Canonicalize(w, path[..m]) == Err(NotFound) {
          MissingPrefix(w, path, n, m);
        }
      } else if Canonicalize(w, path[..n]).Ok? {
        RootPrefixMeans(w, root, path, skipFinal, n + 1);
      }
    }
  }

  /** The prefix found is an alias of a root; none is reported only when there is none; and any other
      failure is that of some prefix, whatever the later roots would have given. */
  lemma {:induction false} LexicalRootMeans(w: World, roots: seq<Location>, path: Path, skipFinal: bool)
    ensures match LexicalRoot(w, roots, path, skipFinal)
            case Ok(n) => FirstOfSome(w, roots, path, skipFinal, n)
            case Err(OutsideWorkspace) =>
              forall n: nat, k | Looked(path, skipFinal, n) && 0 <= k < |roots| ::
                Canonicalize(w, path[..n]) != Ok(roots[k])
            case Err(e) =>
              exists n | Looked(path, skipFinal, n) :: FailsAt(w, path, n, e)
    decreases roots
  {
    hide Canonicalize, RootPrefix;
    if roots != [] {
      RootPrefixMeans(w, roots[0], path, skipFinal, 0);
      LexicalRootMeans(w, roots[1..], path, skipFinal);
      LaterRootIsFirst(w, roots, path, skipFinal);
      if LexicalRoot(w, roots, path, skipFinal) == Err(OutsideWorkspace) {
        forall n: nat, k | Looked(path, skipFinal, n) && 0 <= k < |roots|
          ensures Canonicalize(w, path[..n]) != Ok(roots[k])
        {
          if k > 0 { assert roots[1..][k - 1] == roots[k]; }
        }
      }
    }
  }

  lemma LaterRootIsFirst(w: World, roots: seq<Location>, path: Path, skipFinal: bool)
    requires roots != []
    ensures var r := RootPrefix(w, roots[0], path, skipFinal, 0);
            r.Ok? && r.value.Some? ==> FirstAlias(w, roots, path, skipFinal, 0, r.value.value)
    ensures RootPrefix(w, roots[0], path, skipFinal, 0) == Ok(None) ==>
              forall k: nat, n: nat | FirstAlias(w, roots[1..], path, skipFinal, k, n) ::
                FirstAlias(w, roots, path, skipFinal, k + 1, n)
  {
    hide Canonicalize;
    RootPrefixMeans(w, roots[0], path, skipFinal, 0);
    if RootPrefix(w, roots[0], path, skipFinal, 0) == Ok(None) {
      forall k: nat, n: nat | FirstAlias(w, roots[1..], path, skipFinal, k, n)
        ensures FirstAlias(w, roots, path, skipFinal, k + 1, n)
      {
        forall m: nat, j | Looked(path, skipFinal, m) && 0 <= j < k + 1
          ensures Canonicalize(w, path[..m]) != Ok(roots[j])
        {
          if j > 0 { assert roots[1..][j - 1] == roots[j]; }
        }
      }
    }
  }

  /** The first lexical prefix, root by root, whose canonical form is exactly a capability root. */
  method LexicalWorkspaceRoot(w: World, scope: Scope, absolute: Path, access: Access, skipFinal: bool)
    returns (r: Result<nat, Failure>)
    ensures r == LexicalRoot(w, scope.Roots(access), absolute, skipFinal)
    ensures r.Ok? ==> IsAlias(w, scope, access, absolute, r.value) && (skipFinal ==> r.value < |absolute|)
    ensures r == Err(OutsideWorkspace) ==>
              forall n | Looked(absolute, skipFinal, n) :: !IsAlias(w, scope, access, absolute, n)
    ensures r.Err? && r != Err(OutsideWorkspace) ==>
              exists n | Looked(absolute, skipFinal, n) :: FailsAt(w, absolute, n, r.error)
  {
    var roots := scope.Roots(access);
    LexicalRootMeans(w, roots, absolute, skipFinal);
    hide Canonicalize;
    for k := 0 to |roots|
      invariant LexicalRoot(w, roots[k..], absolute, skipFinal) == LexicalRoot(w, roots, absolute, skipFinal)
    {
      assert roots[k..][1..] == roots[k + 1..];
      var n := 0;
      while n <= |absolute| && !(skipFinal && n == |absolute|)
        invariant RootPrefix(w, roots[k], absolute, skipFinal, n) == RootPrefix(w, roots[k], absolute, skipFinal, 0)
      {
        var canonical := Canonicalize(w, absolute[..n]);
        if canonical.Err? {
          if canonical.error.NotFound? {
            break;
          }
          return Err(IoFailure(canonical.error));
        }
        if canonical.value == roots[k] {
          return Ok(n);
        }
        n := n + 1;
      }
    }
    return Err(OutsideWorkspace);
  }

  function NormalCount(path: Path): nat
  {
    if path == [] then 0 else (if path[0].Normal? then 1 else 0) + NormalCount(path[1..])
  }

  /** Going down from `base` by `names`, no existing entry is a link. */
  ghost predicate NoLinkBelow(t: Tree, base: Location, names: Location)
  {
    forall k | 0 < k <= |names| && base + names[..k] in t :: !t[base + names[..k]].Symlink?
  }

  lemma NoLinkBelowChild(t: Tree, base: Location, names: Location)
    requires names != [] && NoLinkBelow(t, base, names)
    ensures NoLinkBelow(t, base + [names[0]], names[1..])
    ensures base + [names[0]] in t ==> !t[base + [names[0]]].Symlink?
  {
    assert base + names[..1] == base + [names[0]];
    forall k | 0 < k <= |names[1..]| && base + [names[0]] + names[1..][..k] in t
      ensures !t[base + [names[0]] + names[1..][..k]].Symlink?
    {
      assert base + [names[0]] + names[1..][..k] == base + names[..k + 1];
    }
  }

  /** Below a directory, resolution of a `..`-free path that meets no link is literal. */
  lemma {:induction false} WalkLiterally(t: Tree, base: Location, path: Path, budget: nat, followed: nat)
    requires WellFormed(t) && Physical(t, base) && ParentFree(path) && NoLinkBelow(t, base, Names(path))
    ensures match Walk(t, base, path, budget, followed)
            case At(at, n) => n == followed && at == base + Names(path)
            case Missing(at, rest, n) => n == followed && ParentFree(rest) && at + Names(rest) == base + Names(path)
            case NotDirectory(_, _, _) => true
            case TooManyLinks(_, _, _) => false
    decreases |path|
  {
    hide NoLinkBelow, WellFormed;
    if path == [] {
      assert base + Names(path) == base;
    } else if t[base].Dir? {
      assert path[0] in path && forall c | c in path[1..] :: c in path;
      var name, rest := path[0].name, path[1..];
      assert Names(path)[1..] == Names(rest);
      var candidate := base + [name];
      assert candidate + Names(rest) == base + Names(path);
      NoLinkBelowChild(t, base, Names(path));
      if candidate in t {
        WalkLiterally(t, candidate, rest, budget, followed);
      }
    }
  }

  ghost function Inner(names: Location, allowLeaf: bool): Location
  {
    if allowLeaf && names != [] then names[..|names| - 1] else names
  }

  /** What a passed symlink check proves: the first `alias` components name a root; every component
      walked over lexically from there exists and is no link, up to the end or the first one that
      does not exist; and when no `..` follows the alias, no existing entry between the root and the
      target is a link. */
  ghost predicate Literal(w: World, scope: Scope, access: Access, absolute: Path, allowLeaf: bool, alias: nat)
  {
    IsAlias(w, scope, access, absolute, alias) &&
    ClearBelow(w, absolute[..alias], absolute[alias..], allowLeaf) &&
    (ParentFree(absolute[alias..]) ==>
       NoLinkBelow(w.tree, Canonicalize(w, absolute[..alias]).value, Inner(Names(absolute[alias..]), allowLeaf)))
  }

  ghost predicate CheckedLiteral(w: World, scope: Scope, access: Access, absolute: Path, allowLeaf: bool)
  {
    exists alias: nat :: Literal(w, scope, access, absolute, allowLeaf, alias)
  }

  /** So far the check has gone literally down from the root. */
  ghost predicate Descended(w: World, root: Location, followed: nat, path: Path, names: Location)
  {
    w.Resolve(path) == At(root + names, followed) && NoLinkBelow(w.tree, root, names)
  }

  lemma NoLinkGrows(t: Tree, base: Location, names: Location, name: Name)
    requires NoLinkBelow(t, base, names)
    ensures base + (names + [name]) in t && !t[base + (names + [name])].Symlink? ==>
              NoLinkBelow(t, base, names + [name])
  {
    if base + (names + [name]) in t && !t[base + (names + [name])].Symlink? {
      forall k | 0 < k <= |names| + 1 && base + (names + [name])[..k] in t
        ensures !t[base + (names + [name])[..k]].Symlink?
      {
        assert (names + [name])[..k] == if k <= |names| then names[..k] else names + [name];
      }
    }
  }

  lemma LstatChild(w: World, path: Path, at: Location, followed: nat, name: Name)
    requires w.Resolve(path) == At(at, followed)
    ensures Lstat(w, path + [Normal(name)]) ==
            if at !in w.tree || !w.tree[at].Dir? then Err(OtherIo)
            else if at + [name] in w.tree then Ok(w.tree[at + [name]]) else Err(NotFound)
  {
    assert (path + [Normal(name)])[..|path|] == path;
    hide Walk;
  }

  lemma ResolveChild(w: World, path: Path, at: Location, followed: nat, name: Name)
    requires w.Resolve(path) == At(at, followed)
    requires at in w.tree && w.tree[at].Dir? && at + [name] in w.tree && !w.tree[at + [name]].Symlink?
    ensures w.Resolve(path + [Normal(name)]) == At(at + [name], followed)
  {
    WalkThrough(w.tree, [], path, [Normal(name)], w.linkLimit, 0);
  }

  lemma DescendOne(w: World, root: Location, followed: nat, path: Path, names: Location, name: Name)
    requires w.Valid() && Descended(w, root, followed, path, names)
    ensures var l, at := Lstat(w, path + [Normal(name)]), root + names + [name];
            (l.Ok? <==> root + names in w.tree && w.tree[root + names].Dir? && at in w.tree) &&
            (l.Ok? ==> l.value == w.tree[at]) &&
            (l.Ok? && !l.value.Symlink? ==> Descended(w, root, followed, path + [Normal(name)], names + [name])) &&
            (l == Err(NotFound) ==> at !in w.tree)
  {
    hide NoLinkBelow, Walk, WellFormed, Lstat, World.Resolve;
    var at := root + names;
    assert at + [name] == root + (names + [name]);
    LstatChild(w, path, at, followed, name);
    NoLinkGrows(w.tree, root, names, name);
    if at in w.tree && w.tree[at].Dir? && at + [name] in w.tree && !w.tree[at + [name]].Symlink? {
      ResolveChild(w, path, at, followed, name);
    }
  }

  lemma NothingBelowMissing(t: Tree, base: Location, names: Location, k: nat)
    requires WellFormed(t) && k < |names| && NoLinkBelow(t, base, names[..k]) && base + names[..k + 1] !in t
    ensures NoLinkBelow(t, base, names)
  {
    hide WellFormed;
    forall j | 0 < j <= |names| && base + names[..j] in t ensures !t[base + names[..j]].Symlink? {
      if j <= k {
        assert names[..k][..j] == names[..j];
      } else {
        MissingHidesBelow(t, base, names, k, j);
      }
    }
  }

  lemma MissingHidesBelow(t: Tree, base: Location, names: Location, k: nat, j: nat)
    requires WellFormed(t) && k < j <= |names| && base + names[..k + 1] !in t
    ensures base + names[..j] !in t
  {
    hide WellFormed;
    var at := base + names[..j];
    if at in t && k + 1 < j {
      assert at[..|base| + k + 1] == base + names[..k + 1];
      AncestorsAreDirectories(t, at, |base| + k + 1);
    }
  }

  /** After i components: no link met among the inner names, and the walk was literal. */
  ghost predicate Checked(w: World, root: Location, followed: nat, current: Path, inner: Location, i: nat)
  {
    NoLinkBelow(w.tree, root, inner[..if i < |inner| then i else |inner|]) &&
    (i <= |inner| ==> Descended(w, root, followed, current, inner[..i]))
  }

  lemma CheckOne(w: World, root: Location, followed: nat, current: Path, inner: Location, i: nat, name: Name)
    requires w.Valid() && Checked(w, root, followed, current, inner, i) && (i < |inner| ==> inner[i] == name)
    ensures var longer := current + [Normal(name)];
            var metadata := Lstat(w, longer);
            (i >= |inner| || (metadata.Ok? && !metadata.value.Symlink?) ==>
               Checked(w, root, followed, longer, inner, i + 1)) &&
            (metadata == Err(NotFound) ==> NoLinkBelow(w.tree, root, inner))
  {
    if i < |inner| {
      hide Lstat, NoLinkBelow, WellFormed;
      DescendOne(w, root, followed, current, inner[..i], name);
      assert inner[..i] + [name] == inner[..i + 1];
      if Lstat(w, current + [Normal(name)]) == Err(NotFound) {
        assert root + inner[..i + 1] == root + inner[..i] + [name];
        NothingBelowMissing(w.tree, root, inner, i);
      }
    } else {
      assert inner[..|inner|] == inner;
    }
  }

  // ---- the component check ------------------------------------------------------------

  function Popped(path: Path): Path
  {
    if path == [] then [] else path[..|path| - 1]
  }

  /** The spelling the check looks at after walking lexically over `relative`. */
  function Descent(current: Path, relative: Path): Path
    decreases |relative|
  {
    if relative == [] then current
    else Descent(if relative[0].Parent? then Popped(current) else current + [relative[0]], relative[1..])
  }

  /** Component `i` exists and is no link, other than a last one that may be. */
  predicate Passed(w: World, current: Path, relative: Path, allowLeaf: bool, i: nat)
  {
    i < |relative| &&
    (relative[i].Normal? ==>
       var metadata := Lstat(w, Descent(current, relative[..i + 1]));
       metadata.Ok? && (metadata.value.Symlink? ==> allowLeaf && NormalCount(relative[i + 1..]) == 0))
  }

  /** The check stops at a component that does not exist, or at the end. */
  predicate StopsAt(w: World, current: Path, relative: Path, stop: nat)
  {
    stop == |relative| ||
    (stop < |relative| && relative[stop].Normal? && Lstat(w, Descent(current, relative[..stop + 1])) == Err(NotFound))
  }

  ghost predicate ClearBelow(w: World, current: Path, relative: Path, allowLeaf: bool)
  {
    exists stop: nat | StopsAt(w, current, relative, stop) ::
      forall i: nat | i < stop :: Passed(w, current, relative, allowLeaf, i)
  }

  /** The verdict on the components from `current` on. */
  function ComponentCheck(w: World, current: Path, relative: Path, allowLeaf: bool): Result<(), Failure>
    decreases |relative|
  {
    if relative == [] then Ok(())
    else if relative[0].Parent? then ComponentCheck(w, Popped(current), relative[1..], allowLeaf)
    else
      var metadata := Lstat(w, current + [relative[0]]);
      if metadata == Err(NotFound) then Ok(())
      else if metadata.Err? then Err(IoFailure(metadata.error))
      else if metadata.value.Symlink? && !(allowLeaf && NormalCount(relative[1..]) == 0) then Err(SymlinkEscape)
      else ComponentCheck(w, current + [relative[0]], relative[1..], allowLeaf)
  }

  lemma PassedShifts(w: World, current: Path, relative: Path, allowLeaf: bool, i: nat)
    requires relative != []
    ensures var next := if relative[0].Parent? then Popped(current) else current + [relative[0]];
            (Passed(w, current, relative, allowLeaf, i + 1) <==> Passed(w, next, relative[1..], allowLeaf, i)) &&
            (StopsAt(w, current, relative, i + 1) <==> StopsAt(w, next, relative[1..], i))
  {
    hide Lstat, NormalCount;
    if i + 1 < |relative| {
      assert relative[..i + 2][1..] == relative[1..][..i + 1];
    }
  }

  lemma FirstPassed(w: World, current: Path, relative: Path, allowLeaf: bool)
    requires relative != []
    ensures relative[0].Parent? ==> Passed(w, current, relative, allowLeaf, 0)
    ensures relative[0].Normal? ==>
              var metadata := Lstat(w, current + [relative[0]]);
              (Passed(w, current, relative, allowLeaf, 0) <==>
                 metadata.Ok? && (metadata.value.Symlink? ==> allowLeaf && NormalCount(relative[1..]) == 0))
    ensures StopsAt(w, current, relative, 0) <==>
              relative[0].Normal? && Lstat(w, current + [relative[0]]) == Err(NotFound)
  {
    hide Lstat, NormalCount;
    var first := relative[..0 + 1];
    assert first == [relative[0]] && first[1..] == [];
    assert relative[0].Normal? ==> Descent(current, first) == current + [relative[0]];
  }

  lemma ClearStep(w: World, current: Path, relative: Path, allowLeaf: bool)
    requires relative != []
    ensures var next := if relative[0].Parent? then Popped(current) else current + [relative[0]];
            ClearBelow(w, current, relative, allowLeaf) <==>
            StopsAt(w, current, relative, 0) ||
            (Passed(w, current, relative, allowLeaf, 0) && ClearBelow(w, next, relative[1..], allowLeaf))
  {
    hide Passed, StopsAt;
    var next := if relative[0].Parent? then Popped(current) else current + [relative[0]];
    if ClearBelow(w, current, relative, allowLeaf) && !StopsAt(w, current, relative, 0) {
      var stop: nat :| StopsAt(w, current, relative, stop) &&
                       forall i: nat | i < stop :: Passed(w, current, relative, allowLeaf, i);
      PassedShifts(w, current, relative, allowLeaf, stop - 1);
      forall i: nat | i < stop - 1 ensures Passed(w, next, relative[1..], allowLeaf, i) {
        PassedShifts(w, current, relative, allowLeaf, i);
        assert Passed(w, current, relative, allowLeaf, i + 1);
      }
    }
    if Passed(w, current, relative, allowLeaf, 0) && ClearBelow(w, next, relative[1..], allowLeaf) {
      var stop: nat :| StopsAt(w, next, relative[1..], stop) &&
                       forall i: nat | i < stop :: Passed(w, next, relative[1..], allowLeaf, i);
      PassedShifts(w, current, relative, allowLeaf, stop);
      assert StopsAt(w, current, relative, stop + 1);
      forall i: nat | i < stop + 1 ensures Passed(w, current, relative, allowLeaf, i) {
        if i > 0 {
          PassedShifts(w, current, relative, allowLeaf, i - 1);
          assert Passed(w, next, relative[1..], allowLeaf, i - 1);
        }
      }
    }
  }

  /** The check passes exactly when every component met lexically, up to the first missing one, is
      there and is no link. */
  lemma {:induction false} ComponentCheckExact(w: World, current: Path, relative: Path, allowLeaf: bool)
    ensures ComponentCheck(w, current, relative, allowLeaf).Ok? <==> ClearBelow(w, current, relative, allowLeaf)
    decreases |relative|
  {
    hide Lstat, Passed, StopsAt, ClearBelow, NormalCount;
    if relative == [] {
      NothingToCheck(w, current, allowLeaf);
    } else {
      ClearStep(w, current, relative, allowLeaf);
      FirstPassed(w, current, relative, allowLeaf);
      ComponentCheckExact(w, if relative[0].Parent? then Popped(current) else current + [relative[0]], relative[1..],
                          allowLeaf);
    }
  }

  lemma NothingToCheck(w: World, current: Path, allowLeaf: bool)
    ensures ClearBelow(w, current, [], allowLeaf)
  {
    assert StopsAt(w, current, [], 0);
  }

  lemma {:induction false} CheckedDown(w: World, root: Location, followed: nat, current: Path, whole: Path,
                                       allowLeaf: bool, i: nat)
    requires w.Valid() && i <= |whole| && ParentFree(whole)
    requires Checked(w, root, followed, current, Inner(Names(whole), allowLeaf), i)
    requires ComponentCheck(w, current, whole[i..], allowLeaf).Ok?
    ensures NoLinkBelow(w.tree, root, Inner(Names(whole), allowLeaf))
    decreases |whole| - i
  {
    hide Lstat, NoLinkBelow, NormalCount, WellFormed, Checked;
    var inner := Inner(Names(whole), allowLeaf);
    if i == |whole| {
      CheckedAll(w, root, followed, current, inner, i);
    } else {
      assert whole[i] in whole && whole[i] == Normal(whole[i].name);
      assert whole[i..][1..] == whole[i + 1..];
      CheckOne(w, root, followed, current, inner, i, whole[i].name);
      var longer := current + [whole[i]];
      if Lstat(w, longer) != Err(NotFound) {
        RestIsNormal(whole, i + 1);
        CheckedDown(w, root, followed, longer, whole, allowLeaf, i + 1);
      }
    }
  }

  lemma RestIsNormal(path: Path, i: nat)
    requires ParentFree(path) && i <= |path|
    ensures NormalCount(path[i..]) == |path| - i
  {
    forall c | c in path[i..] ensures c != Parent { assert c in path; }
    AllNormal(path[i..]);
  }

  function SymlinkCheck(w: World, scope: Scope, access: Access, absolute: Path, allowLeaf: bool): Result<(), Failure>
  {
    var root := LexicalRoot(w, scope.Roots(access), absolute, allowLeaf);
    if root.Err? then Err(root.error)
    else if root.value > |absolute| then Err(OutsideWorkspace)
    else ComponentCheck(w, absolute[..root.value], absolute[root.value..], allowLeaf)
  }

  /** What a passed check proves. */
  lemma SymlinkCheckIsLiteral(w: World, scope: Scope, access: Access, absolute: Path, allowLeaf: bool)
    requires w.Valid() && SymlinkCheck(w, scope, access, absolute, allowLeaf).Ok?
    ensures var root := LexicalRoot(w, scope.Roots(access), absolute, allowLeaf);
            root.Ok? && Literal(w, scope, access, absolute, allowLeaf, root.value)
    ensures CheckedLiteral(w, scope, access, absolute, allowLeaf)
  {
    hide NoLinkBelow, ComponentCheck, Lstat, ClearBelow, LexicalRoot, WellFormed;
    LexicalRootMeans(w, scope.Roots(access), absolute, allowLeaf);
    var n := LexicalRoot(w, scope.Roots(access), absolute, allowLeaf).value;
    var current, relative := absolute[..n], absolute[n..];
    ComponentCheckExact(w, current, relative, allowLeaf);
    if ParentFree(relative) {
      var at := w.Resolve(current);
      StartsChecked(w, current, Inner(Names(relative), allowLeaf));
      assert relative[0..] == relative;
      CheckedDown(w, at.location, at.followed, current, relative, allowLeaf, 0);
    }
    assert Literal(w, scope, access, absolute, allowLeaf, n);
  }

  lemma StartsChecked(w: World, current: Path, inner: Location)
    requires Canonicalize(w, current).Ok?
    ensures Checked(w, w.Resolve(current).location, w.Resolve(current).followed, current, inner, 0)
  {
    var root := w.Resolve(current).location;
    assert root + [] == root && inner[..0] == [];
  }

  method RejectSymlinkComponents(w: World, scope: Scope, absolute: Path, access: Access, allowLeaf: bool)
    returns (r: Result<(), Failure>)
    requires w.Valid()
    ensures r == SymlinkCheck(w, scope, access, absolute, allowLeaf)
    ensures r.Ok? ==> CheckedLiteral(w, scope, access, absolute, allowLeaf)
  {
    if SymlinkCheck(w, scope, access, absolute, allowLeaf).Ok? {
      SymlinkCheckIsLiteral(w, scope, access, absolute, allowLeaf);
    }
    hide Lstat, Canonicalize, LexicalRoot, NormalCount, WellFormed, CheckedLiteral;
    var lexicalRoot := LexicalWorkspaceRoot(w, scope, absolute, access, allowLeaf);
    if lexicalRoot.Err? {
      return Err(lexicalRoot.error);
    }
    var n := lexicalRoot.value;
    var current, relative := absolute[..n], absolute[n..];
    var count, index := NormalCount(relative), 0;
    assert relative[0..] == relative;
    for i := 0 to |relative|
      invariant ComponentCheck(w, current, relative[i..], allowLeaf) ==
                  SymlinkCheck(w, scope, access, absolute, allowLeaf)
      invariant index + NormalCount(relative[i..]) == count
    {
      assert relative[i..][1..] == relative[i + 1..];
      CountOne(relative[i..]);
      match relative[i] {
        case Parent =>
          current := Popped(current);
        case Normal(name) =>
          index := index + 1;
          current := current + [Normal(name)];
          var metadata := Lstat(w, current);
          if metadata.Ok? {
            if metadata.value.Symlink? && !(allowLeaf && index == count) {
              return Err(SymlinkEscape);
            }
          } else if metadata.error.NotFound? {
            return Ok(());
          } else {
            return Err(IoFailure(metadata.error));
          }
      }
    }
    return Ok(());
  }

  lemma CountOne(path: Path)
    requires path != []
    ensures NormalCount(path) == NormalCount(path[1..]) + if path[0].Normal? then 1 else 0
  {
  }

  lemma CheckedAll(w: World, root: Location, followed: nat, current: Path, inner: Location, i: nat)
    requires Checked(w, root, followed, current, inner, i) && |inner| <= i
    ensures NoLinkBelow(w.tree, root, inner)
  {
    assert inner[..|inner|] == inner;
  }

  lemma {:induction false} AllNormal(path: Path)
    requires ParentFree(path)
    ensures NormalCount(path) == |path|
  {
    if path != [] {
      assert path[0] in path && forall c | c in path[1..] :: c in path;
      AllNormal(path[1..]);
    }
  }

  // ---- admission ----------------------------------------------------------------------

  ghost predicate EntryIsLink(w: World, path: Path)
  {
    var metadata := Lstat(w, path);
    metadata.Ok? && metadata.value.Symlink?
  }

  /** The condition can be read off by lstat: a cancelled link that leads elsewhere shows as a link in its
      own spelling. (A directory that itself lies past a missing component of a link's target, and a
      parent step there, would hide it.) */
  lemma DetourIsVisible(w: World, at: Location)
    requires w.Valid() && Detour(w.tree, at, w.linkLimit)
    requires var o := w.Resolve(Lift(Up(at))); o.At? || (o.Missing? && ParentFree(o.rest))
    ensures w.Resolve(Lift(Up(at))).At? && EntryIsLink(w, Lift(at))
  {
    hide WellFormed, Walk, Land;
    RootIsPhysical(w.tree);
    LandOfWalk(w.tree, [], Lift(Up(at)), w.linkLimit, 0);
    WalkStaysPhysical(w.tree, [], Lift(Up(at)), w.linkLimit, 0);
    var o, name := w.Resolve(Lift(Up(at))), at[|at| - 1];
    if o.Missing? {
      LandBelowMissing(w.tree, o.location, o.rest, w.linkLimit - o.followed);
      assert o.location + Names(o.rest) + [name] == o.location + (Names(o.rest) + [name]);
      BelowMissing(w.tree, o.location, Names(o.rest) + [name]);
      assert false;
    }
    var directory := o.location;
    EntryInDirectory(w.tree, directory, name);
    assert Lift(at) == Lift(Up(at)) + [Normal(name)];
    LstatChild(w, Lift(Up(at)), directory, o.followed, name);
  }

  lemma EntryInDirectory(t: Tree, directory: Location, name: Name)
    requires WellFormed(t) && directory + [name] in t
    ensures directory in t && t[directory].Dir?
  {
    assert Up(directory + [name]) == directory;
  }

  lemma {:induction false} BelowMissing(t: Tree, at: Location, names: Location)
    requires WellFormed(t) && at !in t
    ensures at + names !in t
    decreases |names|
  {
    hide WellFormed;
    if names == [] {
      assert at + names == at;
    } else {
      ChildOfMissing(t, at, names[0]);
      BelowMissing(t, at + [names[0]], names[1..]);
      assert at + names == at + [names[0]] + names[1..];
    }
  }

  ghost predicate ContainedProof(w: World, scope: Scope, access: Access, path: Path)
  {
    var c := Containment(w, path);
    c.Ok? && scope.Contains(c.value, access)
  }

  /** The scope's verdict on one containment proof. */
  ghost function InScope(w: World, scope: Scope, access: Access, path: Path): Result<(), Failure>
  {
    var c := Containment(w, path);
    if c.Err? then Err(c.error) else if scope.Contains(c.value, access) then Ok(()) else Err(OutsideWorkspace)
  }

  /** A mutation is also checked component by component. */
  ghost function Mutable(w: World, scope: Scope, access: Access, path: Path, allowLeaf: bool): Result<(), Failure>
  {
    if access.RequiresMutationCheck() then SymlinkCheck(w, scope, access, path, allowLeaf) else Ok(())
  }

  function Then(first: Result<(), Failure>, second: Result<(), Failure>): Result<(), Failure>
  {
    if first.Err? then first else second
  }

  /** The verdict on a path, with the first failure in the order of the checks. */
  ghost function Admission(w: World, scope: Scope, access: Access, path: Path): Result<(), Failure>
  {
    var whole := Then(InScope(w, scope, access, path), Mutable(w, scope, access, path, false));
    if !access.OperatesOnEntry() then whole
    else if path == [] then Err(OutsideWorkspace)
    else
      Then(Then(InScope(w, scope, access, path[..|path| - 1]), Mutable(w, scope, access, path, true)),
           if EntryIsLink(w, path) then Ok(()) else whole)
  }

  /** Admit a path for an access. An entry access proves its parent contained and may stop at a
      link; every other access proves the path itself contained; a mutation besides walks down
      from a lexical alias of a root without meeting a link. */
  method Validate(w: World, scope: Scope, absolute: Path, access: Access) returns (r: Result<Path, Failure>)
    requires w.Valid()
    ensures r == (match Admission(w, scope, access, absolute) case Ok(_) => Ok(absolute) case Err(e) => Err(e))
    ensures r.Ok? && access.OperatesOnEntry() ==>
              absolute != [] && ContainedProof(w, scope, access, absolute[..|absolute| - 1])
    ensures r.Ok? && !(access.OperatesOnEntry() && EntryIsLink(w, absolute)) ==>
              ContainedProof(w, scope, access, absolute)
    ensures r.Ok? && access.RequiresMutationCheck() ==>
              CheckedLiteral(w, scope, access, absolute, access.OperatesOnEntry() && EntryIsLink(w, absolute))
    ensures !access.RequiresMutationCheck() && !access.OperatesOnEntry() ==>
              (r.Ok? <==> ContainedProof(w, scope, access, absolute))
    ensures access.ReadEntry? ==>
              (r.Ok? <==> absolute != [] && ContainedProof(w, scope, access, absolute[..|absolute| - 1]) &&
                          (EntryIsLink(w, absolute) || ContainedProof(w, scope, access, absolute)))
  {
    hide Containment, Lstat, CheckedLiteral, SymlinkCheck, Scope.Contains;
    if access.OperatesOnEntry() {
      if absolute == [] {
        return Err(OutsideWorkspace);
      }
      var containmentParent := Contain(w, absolute[..|absolute| - 1]);
      if containmentParent.Err? {
        return Err(containmentParent.error);
      }
      if !scope.Contains(containmentParent.value, access) {
        return Err(OutsideWorkspace);
      }
      if access.RequiresMutationCheck() {
        var checked := RejectSymlinkComponents(w, scope, absolute, access, true);
        if checked.Err? {
          return Err(checked.error);
        }
      }
      var metadata := Lstat(w, absolute);
      if metadata.Ok? && metadata.value.Symlink? {
        return Ok(absolute);
      }
    }
    var containmentPath := Contain(w, absolute);
    if containmentPath.Err? {
      return Err(containmentPath.error);
    }
    if !scope.Contains(containmentPath.value, access) {
      return Err(OutsideWorkspace);
    }
    if access.RequiresMutationCheck() {
      var checked := RejectSymlinkComponents(w, scope, absolute, access, false);
      if checked.Err? {
        return Err(checked.error);
      }
    }
    return Ok(absolute);
  }

  /** A straight path accepted for an access reaches, when it reaches anything, a location under a
      root that admits the access. */
  lemma AcceptedPathStaysInside(w: World, scope: Scope, access: Access, path: Path)
    requires w.Valid() && ContainedProof(w, scope, access, path)
    ensures !w.Resolve(path).NotDirectory? && !w.Resolve(path).TooManyLinks?
    ensures Reached(w, path).Ok? && GoesStraight(w, path) ==> scope.Contains(Reached(w, path).value, access)
    ensures w.Resolve(path).At? ==> scope.Contains(w.Resolve(path).location, access) && Reached(w, path).Ok?
    ensures w.Resolve(path).At? || ParentFree(w.Resolve(path).rest) ==> GoesStraight(w, path)
    ensures access in {Write, Delete, DeleteEntry, ProcessCwd} && Reached(w, path).Ok? && GoesStraight(w, path) ==>
              BelowSome(scope.writeRoots, Reached(w, path).value)
    ensures access in {Read, ReadEntry} && Reached(w, path).Ok? && GoesStraight(w, path) ==>
              BelowSome(scope.writeRoots, Reached(w, path).value) || BelowSome(scope.readRoots, Reached(w, path).value)
  {
    if Reached(w, path).Ok? { RootsAdmit(scope, access, Reached(w, path).value); }
    hide Containment, Reached, GoesStraight, Scope.Contains, World.Resolve;
    ContainmentIsReached(w, path);
    PlainPathGoesStraight(w, path);
  }

  /** An accepted entry whose parent is straight lives in a directory under such a root, so its slot
      does too. */
  lemma AcceptedEntryStaysInside(w: World, scope: Scope, access: Access, path: Path)
    requires w.Valid() && path != [] && path[|path| - 1].Normal?
    requires ContainedProof(w, scope, access, path[..|path| - 1])
    ensures var parent := Reached(w, path[..|path| - 1]);
            parent.Ok? && GoesStraight(w, path[..|path| - 1]) ==>
              scope.Contains(parent.value + [path[|path| - 1].name], access)
    ensures var parent := Reached(w, path[..|path| - 1]);
            parent.Ok? && GoesStraight(w, path[..|path| - 1]) ==>
              BelowSome(scope.writeRoots, parent.value) ||
              (access in {Read, ReadEntry} && BelowSome(scope.readRoots, parent.value))
  {
    if Reached(w, path[..|path| - 1]).Ok? { RootsAdmit(scope, access, Reached(w, path[..|path| - 1]).value); }
    hide Containment, Reached, GoesStraight;
    ContainmentIsReached(w, path[..|path| - 1]);
    var parent := Reached(w, path[..|path| - 1]);
    if parent.Ok? && GoesStraight(w, path[..|path| - 1]) {
      var k :| 0 <= k < |scope.Roots(access)| && scope.Roots(access)[k] <= parent.value;
      assert scope.Roots(access)[k] <= parent.value + [path[|path| - 1].name];
    }
  }

  /** An accepted mutation below an alias of a root acts exactly where its spelling says: no
      link is followed after the alias. */
  lemma AcceptedMutationIsLiteral(w: World, scope: Scope, access: Access, absolute: Path, alias: nat)
    requires w.Valid() && Literal(w, scope, access, absolute, false, alias) && ParentFree(absolute[alias..])
    ensures var root := Canonicalize(w, absolute[..alias]).value;
            root in scope.Roots(access) &&
            (access in {Write, Delete, DeleteEntry} ==> root in scope.writeRoots) &&
            (Reached(w, absolute).Ok? ==> Reached(w, absolute).value == root + Names(absolute[alias..])) &&
            (w.Resolve(absolute).At? ==> w.Resolve(absolute).followed == w.Resolve(absolute[..alias]).followed)
  {
    hide WellFormed, NoLinkBelow, Walk, Physical, Reached, Land, ClearBelow;
    var first, second := absolute[..alias], absolute[alias..];
    assert first + second == absolute;
    RootIsPhysical(w.tree);
    WalkThrough(w.tree, [], first, second, w.linkLimit, 0);
    WalkStaysPhysical(w.tree, [], first, w.linkLimit, 0);
    var reached := w.Resolve(first);
    WalkLiterally(w.tree, reached.location, second, w.linkLimit - reached.followed, reached.followed);
    ReachedIsLanding(w, absolute);
    LandOfWalk(w.tree, [], absolute, w.linkLimit, 0);
    WalkStaysPhysical(w.tree, [], absolute, w.linkLimit, 0);
    var o := w.Resolve(absolute);
    if o.Missing? {
      LandBelowMissing(w.tree, o.location, o.rest, w.linkLimit - o.followed);
    }
  }

  // ---- a link cancelled after a missing component -------------------------------------

  /** With /w the only root and /w/m missing, /w/m/../l/../x is accepted for writing: the walker proves
      /w/x and the component check stops at /w/m. Once /w/m is made, the path is /o/x. */
  lemma DetourIsAccepted()
    ensures var w, scope, path := World(LinkedTree(), 40), Scope([["w"]], []), DetourPath() + [Normal("x")];
            w.Valid() && Admission(w, scope, Write, path) == Ok(()) &&
            Containment(w, path) == Ok(["w", "x"]) &&
            Reached(w, path) == Ok(["o", "x"]) && !scope.Contains(["o", "x"], Write) && !GoesStraight(w, path)
  {
    hide DetourPath, LinkedTree, Reached, GoesStraight, SymlinkCheck, Containment;
    var w, scope, path := World(LinkedTree(), 40), Scope([["w"]], []), DetourPath() + [Normal("x")];
    DetourContained(w, path);
    DetourPassesCheck(w, scope, path);
    assert scope.Roots(Write) == [["w"]] && scope.Roots(Write)[0] <= ["w", "x"];
    ContainmentIsReached(w, path);
    assert ["w", "x"][0] != ["o", "x"][0];
  }

  lemma DetourContained(w: World, path: Path)
    requires w == World(LinkedTree(), 40) && path == DetourPath() + [Normal("x")]
    ensures w.Valid() && Containment(w, path) == Ok(["w", "x"]) && Reached(w, path) == Ok(["o", "x"])
  {
    hide LinkedTree, DetourPath, Walk, Create, Intent, WellFormed;
    LinkedTreeIsWellFormed();
    DetourMovesCreation();
    DetourResolves([Normal("x")]);
  }

  lemma DetourPassesCheck(w: World, scope: Scope, path: Path)
    requires w == World(LinkedTree(), 40) && scope == Scope([["w"]], []) && path == DetourPath() + [Normal("x")]
    ensures SymlinkCheck(w, scope, Write, path, false) == Ok(())
  {
    hide Walk, WellFormed, Canonicalize, Lstat, NormalCount;
    LinkedTreeIsWellFormed();
    assert Physical(w.tree, []) && Physical(w.tree, ["w"]) by { hide *; PhysicalEnds(); }
    CanonicalizePhysical(w, []);
    CanonicalizePhysical(w, ["w"]);
    assert path[..0] == Lift([]) && path[..1] == Lift(["w"]);
    assert RootPrefix(w, ["w"], path, false, 1) == Ok(Some(1));
    assert RootPrefix(w, ["w"], path, false, 0) == Ok(Some(1));
    assert LexicalRoot(w, [["w"]], path, false) == Ok(1);
    LstatPhysical(w, ["w"], "m");
    assert ["w"] + ["m"] == ["w", "m"];
    assert path[..1] + [path[1..][0]] == Lift(["w"] + ["m"]);
    assert ComponentCheck(w, path[..1], path[1..], false) == Ok(());
  }

  lemma PhysicalEnds()
    ensures Physical(LinkedTree(), []) && Physical(LinkedTree(), ["w"])
  {
  }
}
