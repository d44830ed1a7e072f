/** The workspace capability of crates/xuanling-toolkit/src/capability.rs: a hand-written walker
    that must land where pathname resolution lands, also for paths that do not exist yet. */
module Capability {
  import opened Wrappers
  import opened PathResolution

  const MAX_SYMLINK_DEPTH: nat := 40

  datatype Failure = IoFailure(error: IoError) | TooManySymbolicLinks | OutsideWorkspace | SymlinkEscape

  // ---- lexical normalisation ----------------------------------------------------------

  function Normalize(base: Location, suffix: Path): Location
    decreases suffix
  {
    if suffix == [] then base
    else if suffix[0].Parent? then Normalize(Up(base), suffix[1..])
    else Normalize(base + [suffix[0].name], suffix[1..])
  }

  method NormalizeFrom(base: Location, suffix: Path) returns (normalized: Location)
    ensures normalized == Normalize(base, suffix)
  {
    normalized := base;
    for i := 0 to |suffix|
      invariant Normalize(normalized, suffix[i..]) == Normalize(base, suffix)
    {
      assert suffix[i..][1..] == suffix[i + 1..];
      match suffix[i]
      case Parent => normalized := Up(normalized);
      case Normal(name) => normalized := normalized + [name];
    }
    assert suffix[|suffix|..] == [];
  }

  lemma {:induction false} NormalizeParentFree(base: Location, suffix: Path)
    requires ParentFree(suffix)
    ensures Normalize(base, suffix) == base + Names(suffix)
    decreases suffix
  {
    if suffix != [] {
      assert suffix[0] in suffix && forall c | c in suffix[1..] :: c in suffix;
      NormalizeParentFree(base + [suffix[0].name], suffix[1..]);
      assert Names(suffix) == [suffix[0].name] + Names(suffix[1..]);
    }
  }

  function ParentCount(path: Path): nat
  {
    if path == [] then 0 else (if path[0].Parent? then 1 else 0) + ParentCount(path[1..])
  }

  lemma ParentCountTail(path: Path)
    requires path != []
    ensures ParentCount(path[1..]) <= ParentCount(path)
  {
  }

  lemma {:induction false} ParentCountZero(path: Path)
    ensures ParentCount(path) == 0 <==> ParentFree(path)
  {
    if path != [] {
      ParentCountZero(path[1..]);
      assert path == [path[0]] + path[1..];
    }
  }

  lemma LiftIsParentFree(at: Location)
    ensures ParentCount(Lift(at)) == 0
  {
    ParentCountZero(Lift(at));
  }

  // ---- what the walker computes -------------------------------------------------------

  /** The intended location of a path: resolution continued lexically past the first missing
      component, and restarted when a `..` takes it back out of that component. */
  function Intent(t: Tree, cur: Location, pending: Path, depth: nat): Result<Location, Failure>
    decreases if depth <= MAX_SYMLINK_DEPTH then MAX_SYMLINK_DEPTH - depth else 0, ParentCount(pending), |pending|
  {
    if depth >= MAX_SYMLINK_DEPTH then Err(TooManySymbolicLinks)
    else if pending == [] then Ok(cur)
    else if pending[0].Parent? then Intent(t, Up(cur), pending[1..], depth)
    else if cur !in t || !t[cur].Dir? then Err(IoFailure(OtherIo))
    else
      var candidate, rest := cur + [pending[0].name], pending[1..];
      if candidate !in t then
        var intent := Normalize(candidate, rest);
        if candidate <= intent then Ok(intent)
        else
          CancelledMissing(candidate, rest);
          Intent(t, [], Lift(intent), depth)
      else if t[candidate].Symlink? then
        var target := t[candidate].target;
        Intent(t, if target.absolute then [] else cur, target.components + rest, depth + 1)
      else Intent(t, candidate, rest, depth)
  }

  lemma IntentName(t: Tree, cur: Location, name: Name, rest: Path, depth: nat)
    requires cur in t && t[cur].Dir? && Physical(t, cur + [name])
    ensures Intent(t, cur, [Normal(name)] + rest, depth) == Intent(t, cur + [name], rest, depth)
  {
    assert ([Normal(name)] + rest)[1..] == rest;
  }

  lemma {:induction false} IntentPhysical(t: Tree, at: Location, rest: Path, depth: nat)
    requires WellFormed(t) && Physical(t, at)
    ensures Intent(t, [], Lift(at) + rest, depth) == Intent(t, at, rest, depth)
    decreases |at|
  {
    hide Intent, Lift;
    if at == [] {
      LiftRoot(rest);
    } else {
      var up, name := Up(at), at[|at| - 1];
      LiftLast(at, rest);
      UpIsDirectory(t, at);
      IntentPhysical(t, up, [Normal(name)] + rest, depth);
      IntentName(t, up, name, rest, depth);
    }
  }

  lemma BothStep(t: Tree, cur: Location, pending: Path, budget: nat, followed: nat, depth: nat)
    requires WellFormed(t) && Physical(t, cur) && depth < MAX_SYMLINK_DEPTH
    ensures var next := Step(t, cur, pending);
            next.Continue? ==>
              Physical(t, next.cur) && next.links <= 1 && (next.links == 0 ==> |next.pending| < |pending|) &&
              Intent(t, cur, pending, depth) == Intent(t, next.cur, next.pending, depth + next.links) &&
              Walk(t, cur, pending, budget, followed) ==
                if budget < next.links then TooManyLinks(cur, pending, followed)
                else Walk(t, next.cur, next.pending, budget - next.links, followed + next.links)
  {
    WalkStep(t, cur, pending, budget, followed);
    hide WellFormed, Walk;
  }

  lemma BothStop(t: Tree, cur: Location, pending: Path, budget: nat, followed: nat, depth: nat)
    requires Physical(t, cur) && depth < MAX_SYMLINK_DEPTH && Step(t, cur, pending).Stop?
    ensures match Walk(t, cur, pending, budget, followed)
            case At(at, n) => n == followed && Intent(t, cur, pending, depth) == Ok(at)
            case Missing(at, rest, n) =>
              n == followed && Intent(t, cur, pending, depth) == PastMissing(t, at, rest, depth)
            case NotDirectory(at, rest, n) => n == followed && at == cur && rest == pending && rest != []
            case TooManyLinks(_, _, _) => false
  {
  }

  lemma LimitReached(t: Tree)
    ensures forall at, rest, depth: nat | depth >= MAX_SYMLINK_DEPTH ::
              Intent(t, at, rest, depth) == Err(TooManySymbolicLinks)
    ensures forall at, rest, depth: nat | depth >= MAX_SYMLINK_DEPTH ::
              PastMissing(t, at, rest, depth) == Err(TooManySymbolicLinks)
    ensures forall at, rest, depth: nat | depth >= MAX_SYMLINK_DEPTH && rest != [] ::
              PastFile(t, at, rest, depth) == Err(TooManySymbolicLinks)
  {
  }

  /** How the walker ends once `at` turned out to be missing with `rest` still pending. */
  ghost function PastMissing(t: Tree, at: Location, rest: Path, depth: nat): Result<Location, Failure>
  {
    var intent := Normalize(at, rest);
    if depth >= MAX_SYMLINK_DEPTH then Err(TooManySymbolicLinks)
    else if at <= intent then Ok(intent)
    else Intent(t, [], Lift(intent), depth)
  }

  /** How the walker goes on from a file with `rest` still pending: a name fails there, but a parent
      step goes back up, which resolution refuses. */
  ghost function PastFile(t: Tree, at: Location, rest: Path, depth: nat): Result<Location, Failure>
    requires rest != []
  {
    if depth >= MAX_SYMLINK_DEPTH then Err(TooManySymbolicLinks)
    else if rest[0].Normal? then Err(IoFailure(OtherIo))
    else Intent(t, Up(at), rest[1..], depth)
  }

  /** The walker against pathname resolution, in every case. When resolution succeeds having
      followed k links, the walker gives the same location unless k links are too many for it; past
      a missing component it continues lexically, and restarts when that leads back out; past a file
      it fails, unless a parent step follows; and where resolution gives up on links it goes on to
      its own limit. */
  lemma {:induction false} IntentRefinesResolution(t: Tree, cur: Location, pending: Path, budget: nat, followed: nat,
                                                   depth: nat)
    requires WellFormed(t) && Physical(t, cur) && depth <= MAX_SYMLINK_DEPTH
    ensures match Walk(t, cur, pending, budget, followed)
            case At(at, n) =>
              n >= followed &&
              Intent(t, cur, pending, depth) ==
                if depth + (n - followed) < MAX_SYMLINK_DEPTH then Ok(at) else Err(TooManySymbolicLinks)
            case Missing(at, rest, n) =>
              n >= followed &&
              Intent(t, cur, pending, depth) == PastMissing(t, at, rest, depth + (n - followed))
            case NotDirectory(at, rest, n) =>
              n >= followed && rest != [] &&
              Intent(t, cur, pending, depth) == PastFile(t, at, rest, depth + (n - followed))
            case TooManyLinks(at, rest, n) =>
              n == followed + budget &&
              Intent(t, cur, pending, depth) == Intent(t, at, rest, depth + budget)
    decreases budget, |pending|
  {
    hide Walk, Intent, PastMissing, PastFile, Step, WellFormed, Physical;
    WalkStaysPhysical(t, cur, pending, budget, followed);
    if depth == MAX_SYMLINK_DEPTH {
      LimitReached(t);
      return;
    }
    var next := Step(t, cur, pending);
    if next.Stop? {
      BothStop(t, cur, pending, budget, followed, depth);
      StoppedAtFile(t, cur, pending, depth);
    } else {
      BothStep(t, cur, pending, budget, followed, depth);
      if next.links <= budget {
        IntentRefinesResolution(t, next.cur, next.pending, budget - next.links, followed + next.links,
                                depth + next.links);
      }
    }
  }

  lemma StoppedAtFile(t: Tree, cur: Location, pending: Path, depth: nat)
    ensures pending != [] && (cur !in t || !t[cur].Dir?) ==>
              Intent(t, cur, pending, depth) == PastFile(t, cur, pending, depth)
  {
  }

  /** With a system limit on links of at least the walker's own, the walker gives a location where
      resolution fails for another reason than a missing component exactly when resolution stopped
      at a file, a parent step came next, and the walker succeeds from the file's directory. */
  lemma WalkerGoesPastFiles(w: World, path: Path)
    requires w.Valid() && w.linkLimit >= MAX_SYMLINK_DEPTH
    ensures !w.Resolve(path).At? && !w.Resolve(path).Missing? ==>
              (Intent(w.tree, [], path, 0).Ok? <==>
                 w.Resolve(path).NotDirectory? && w.Resolve(path).rest != [] && w.Resolve(path).rest[0].Parent? &&
                 Intent(w.tree, Up(w.Resolve(path).location), w.Resolve(path).rest[1..], w.Resolve(path).followed).Ok?)
  {
    hide Walk, Physical, WellFormed;
    RootIsPhysical(w.tree);
    IntentRefinesResolution(w.tree, [], path, w.linkLimit, 0, 0);
  }

  /** It does happen: a parent step after a file. */
  lemma ParentOfFile()
    ensures var w := World(map[[] := Dir, ["f"] := File], 40);
            w.Valid() && w.Resolve([Normal("f"), Parent]) == NotDirectory(["f"], [Parent], 0) &&
            Intent(w.tree, [], [Normal("f"), Parent], 0) == Ok([])
  {
    var t: Tree := map[[] := Dir, ["f"] := File];
    var f: Location := ["f"];
    var path := [Normal("f"), Parent];
    assert [] + ["f"] == f && path[1..] == [Parent] && Up(f) == [] && [Parent][1..] == [];
    assert Walk(t, f, [Parent], 40, 0) == NotDirectory(f, [Parent], 0);
    assert Intent(t, [], [], 0) == Ok([]);
    assert Intent(t, f, [Parent], 0) == Ok([]);
  }

  lemma {:induction false} NormalizeKeepsMissing(t: Tree, missing: Location, at: Location)
    requires WellFormed(t) && missing !in t && missing != [] && Physical(t, Up(missing)) && missing <= at
    ensures LinkFree(t, at)
  {
    forall k | 0 <= k <= |at| && at[..k] in t ensures !t[at[..k]].Symlink? {
      if k >= |missing| {
        assert at[..|missing|] == missing;
        assert at[..k][..|missing|] == missing;
        if k > |missing| { AncestorsAreDirectories(t, at[..k], |missing|); }
        assert false;
      } else {
        assert Up(missing)[..k] == at[..k];
        PhysicalIsLinkFree(t, Up(missing));
      }
    }
  }

  /** Whatever the path, a location the walker accepts has no link among its existing prefixes. */
  lemma {:induction false} IntentIsLinkFree(t: Tree, cur: Location, pending: Path, depth: nat)
    requires WellFormed(t) && Physical(t, cur)
    ensures var r := Intent(t, cur, pending, depth); r.Ok? ==> LinkFree(t, r.value)
    decreases if depth <= MAX_SYMLINK_DEPTH then MAX_SYMLINK_DEPTH - depth else 0, ParentCount(pending), |pending|
  {
    UpIsDirectory(t, cur);
    UpIsDirectory(t, []);
    if depth < MAX_SYMLINK_DEPTH {
      if pending == [] {
        PhysicalIsLinkFree(t, cur);
      } else if pending[0].Parent? {
        hide WellFormed, LinkFree;
        IntentIsLinkFree(t, Up(cur), pending[1..], depth);
      } else if t[cur].Dir? {
        hide WellFormed, LinkFree;
        var candidate, rest := cur + [pending[0].name], pending[1..];
        assert Up(candidate) == cur;
        if candidate !in t {
          var intent := Normalize(candidate, rest);
          if candidate <= intent {
            NormalizeKeepsMissing(t, candidate, intent);
          } else {
            CancelledMissing(candidate, rest);
            IntentIsLinkFree(t, [], Lift(intent), depth);
          }
        } else if t[candidate].Symlink? {
          var target := t[candidate].target;
          IntentIsLinkFree(t, if target.absolute then [] else cur, target.components + rest, depth + 1);
        } else {
          IntentIsLinkFree(t, candidate, rest, depth);
        }
      }
    }
  }

  // ---- the walker ---------------------------------------------------------------------

  lemma ExpandLink(t: Tree, parent: Location, target: Target, suffix: Path, depth: nat)
    requires WellFormed(t) && Physical(t, parent)
    ensures var base := if target.absolute then [] else parent;
            Intent(t, [], Lift(base) + target.components + suffix, depth) ==
              Intent(t, base, target.components + suffix, depth)
  {
    UpIsDirectory(t, []);
    var base := if target.absolute then [] else parent;
    assert Lift(base) + target.components + suffix == Lift(base) + (target.components + suffix);
    IntentPhysical(t, base, target.components + suffix, depth);
  }

  lemma CancelledMissing(candidate: Location, suffix: Path)
    requires !(candidate <= Normalize(candidate, suffix))
    ensures ParentCount(Lift(Normalize(candidate, suffix))) < ParentCount(suffix)
  {
    ParentCountZero(suffix);
    if ParentFree(suffix) { NormalizeParentFree(candidate, suffix); }
    LiftIsParentFree(Normalize(candidate, suffix));
  }

  lemma IntentUnfolds(t: Tree, cur: Location, pending: Path, depth: nat)
    requires Physical(t, cur) && pending != [] && depth < MAX_SYMLINK_DEPTH
    ensures pending[0].Parent? ==> Intent(t, cur, pending, depth) == Intent(t, Up(cur), pending[1..], depth)
    ensures pending[0].Normal? && !t[cur].Dir? ==> Intent(t, cur, pending, depth) == Err(IoFailure(OtherIo))
    ensures pending[0].Normal? && t[cur].Dir? && cur + [pending[0].name] !in t ==>
              Intent(t, cur, pending, depth) == PastMissing(t, cur + [pending[0].name], pending[1..], depth)
    ensures pending[0].Normal? && t[cur].Dir? && cur + [pending[0].name] in t ==>
              var candidate := cur + [pending[0].name];
              Intent(t, cur, pending, depth) ==
                if t[candidate].Symlink? then
                  var target := t[candidate].target;
                  Intent(t, if target.absolute then [] else cur, target.components + pending[1..], depth + 1)
                else Intent(t, candidate, pending[1..], depth)
  {
  }

  lemma NothingPending(t: Tree, cur: Location, depth: nat)
    requires depth < MAX_SYMLINK_DEPTH
    ensures Intent(t, cur, [], depth) == Ok(cur)
  {
  }

  lemma RootIsPhysical(t: Tree)
    requires WellFormed(t)
    ensures Physical(t, [])
  {
  }

  /** Resolve the intended location of a missing path. Every link restarts the walk on an
      expanded path, one level deeper; every missing component that `..` cancels restarts it on
      a path without `..`. */
  method ResolveMissingIntent(w: World, absolute: Path, depth: nat) returns (r: Result<Location, Failure>)
    requires w.Valid() && depth <= MAX_SYMLINK_DEPTH
    ensures r == Intent(w.tree, [], absolute, depth)
    decreases MAX_SYMLINK_DEPTH - depth, ParentCount(absolute)
  {
    hide WellFormed, Lstat, Canonicalize, Walk, Normalize, Lift, Intent, ParentCount;
    var t := w.tree;
    if depth >= MAX_SYMLINK_DEPTH {
      LimitReached(t);
      return Err(TooManySymbolicLinks);
    }
    var resolved: Location := [];
    RootIsPhysical(t);
    assert absolute[0..] == absolute;
    for index := 0 to |absolute|
      invariant Physical(t, resolved)
      invariant Intent(t, [], absolute, depth) == Intent(t, resolved, absolute[index..], depth)
      invariant ParentCount(absolute[index..]) <= ParentCount(absolute)
    {
      var suffix := absolute[index + 1..];
      assert absolute[index..][1..] == suffix;
      IntentUnfolds(t, resolved, absolute[index..], depth);
      ParentCountTail(absolute[index..]);
      match absolute[index]
      case Parent =>
        UpIsDirectory(t, resolved);
        resolved := Up(resolved);
      case Normal(name) =>
        var candidate := resolved + [name];
        LstatPhysical(w, resolved, name);
        var metadata := Lstat(w, Lift(candidate));
        if metadata == Err(NotFound) {
          var intent := NormalizeFrom(candidate, suffix);
          if candidate <= intent {
            return Ok(intent);
          }
          CancelledMissing(candidate, suffix);
          r := ResolveMissingIntent(w, Lift(intent), depth);
          return;
        }
        if metadata.Err? {
          return Err(IoFailure(metadata.error));
        }
        if metadata.value.Symlink? {
          var target := metadata.value.target;
          var base: Location := [];
          if !target.absolute {
            CanonicalizePhysical(w, resolved);
            base := Canonicalize(w, Lift(resolved)).value;  // cannot fail on a fixed tree
          }
          ExpandLink(t, resolved, target, suffix, depth + 1);
          r := ResolveMissingIntent(w, Lift(base) + target.components + suffix, depth + 1);
          return;
        }
        CanonicalizePhysical(w, candidate);
        resolved := Canonicalize(w, Lift(candidate)).value;  // cannot fail on a fixed tree
    }
    assert absolute[|absolute|..] == [];
    NothingPending(t, resolved, depth);
    return Ok(resolved);
  }
}
