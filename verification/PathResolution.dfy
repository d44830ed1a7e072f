/** Pathname resolution on a fixed tree of directories, files and symbolic links, as described
    in section 4.13 of IEEE Std 1003.1-2017 (XBD). Paths are absolute; `.` components and
    repeated or trailing separators are already dropped. */
module PathResolution {
  import opened Wrappers

  type Name = string

  datatype Component = Parent | Normal(name: Name)

  type Path = seq<Component>

  /** A location: the names on the way down from the root directory. */
  type Location = seq<Name>

  datatype Target = Target(absolute: bool, components: Path)

  datatype Node = Dir | File | Symlink(target: Target)

  type Tree = map<Location, Node>

  function Up(at: Location): Location
  {
    if at == [] then [] else at[..|at| - 1]
  }

  /** Every entry of a tree lies in a directory. */
  ghost predicate WellFormed(t: Tree)
  {
    [] in t && t[[]].Dir? && forall at | at in t && at != [] :: Up(at) in t && t[Up(at)].Dir?
  }

  lemma UpIsDirectory(t: Tree, at: Location)
    requires WellFormed(t) && at in t
    ensures Up(at) in t && t[Up(at)].Dir?
  {
  }

  /** A location that exists and is not itself a link; its ancestors are then directories. */
  ghost predicate Physical(t: Tree, at: Location)
  {
    at in t && !t[at].Symlink?
  }

  /** No existing prefix of the location is a link. */
  ghost predicate LinkFree(t: Tree, at: Location)
  {
    forall k | 0 <= k <= |at| && at[..k] in t :: !t[at[..k]].Symlink?
  }

  function Lift(at: Location): Path
  {
    seq(|at|, i requires 0 <= i < |at| => Normal(at[i]))
  }

  predicate ParentFree(path: Path)
  {
    Parent !in path
  }

  function Names(path: Path): (at: Location)
    requires ParentFree(path)
    ensures |at| == |path|
  {
    seq(|path|, i requires 0 <= i < |path| => assert path[i] != Parent; path[i].name)
  }

  datatype Outcome =
    | At(location: Location, followed: nat)
    | Missing(location: Location, rest: Path, followed: nat)
    | NotDirectory(location: Location, rest: Path, followed: nat)
    | TooManyLinks(location: Location, rest: Path, followed: nat)

  /** Resolve `pending` from the directory `cur`, following at most `budget` further links.
      `Missing` reports the first component that does not exist and what was still pending; the
      other failures report where resolution stood and what was still pending there. */
  function Walk(t: Tree, cur: Location, pending: Path, budget: nat, followed: nat): Outcome
    decreases budget, |pending|
  {
    if pending == [] then At(cur, followed)
    else if cur !in t || !t[cur].Dir? then NotDirectory(cur, pending, followed)
    else if pending[0].Parent? then Walk(t, Up(cur), pending[1..], budget, followed)
    else
      var candidate, rest := cur + [pending[0].name], pending[1..];
      if candidate !in t then Missing(candidate, rest, followed)
      else if t[candidate].Symlink? then
        if budget == 0 then TooManyLinks(cur, pending, followed)
        else
          var target := t[candidate].target;
          Walk(t, if target.absolute then [] else cur, target.components + rest, budget - 1, followed + 1)
      else Walk(t, candidate, rest, budget, followed)
  }

  /** A tree together with the number of links the system is willing to follow. */
  datatype World = World(tree: Tree, linkLimit: nat)
  {
    ghost predicate Valid()
    {
      WellFormed(tree)
    }

    function Resolve(path: Path): Outcome
    {
      Walk(tree, [], path, linkLimit, 0)
    }
  }

  datatype IoError = NotFound | OtherIo

  /** realpath: the location of an existing file. */
  function Canonicalize(w: World, path: Path): Result<Location, IoError>
  {
    match w.Resolve(path)
    case At(location, _) => Ok(location)
    case Missing(_, _, _) => Err(NotFound)
    case NotDirectory(_, _, _) => Err(OtherIo)
    case TooManyLinks(_, _, _) => Err(OtherIo)
  }

  /** lstat: what the final directory entry is, without following it. */
  function Lstat(w: World, path: Path): Result<Node, IoError>
  {
    if path != [] && path[|path| - 1].Normal? then
      match w.Resolve(path[..|path| - 1])
      case At(parent, _) =>
        if parent !in w.tree || !w.tree[parent].Dir? then Err(OtherIo)
        else
          var entry := parent + [path[|path| - 1].name];
          if entry in w.tree then Ok(w.tree[entry]) else Err(NotFound)
      case Missing(_, _, _) => Err(NotFound)
      case NotDirectory(_, _, _) => Err(OtherIo)
      case TooManyLinks(_, _, _) => Err(OtherIo)
    else
      match w.Resolve(path)
      case At(location, _) => if location in w.tree then Ok(w.tree[location]) else Err(NotFound)
      case Missing(_, _, _) => Err(NotFound)
      case NotDirectory(_, _, _) => Err(OtherIo)
      case TooManyLinks(_, _, _) => Err(OtherIo)
  }

  // ---- facts about walking ------------------------------------------------------------

  lemma {:induction false} AncestorsAreDirectories(t: Tree, at: Location, k: nat)
    requires WellFormed(t) && at in t && k < |at|
    ensures at[..k] in t && t[at[..k]].Dir?
    decreases |at|
  {
    if k + 1 < |at| {
      AncestorsAreDirectories(t, Up(at), k);
      assert Up(at)[..k] == at[..k];
    }
  }

  lemma PhysicalIsLinkFree(t: Tree, at: Location)
    requires WellFormed(t) && Physical(t, at)
    ensures LinkFree(t, at)
  {
    forall k | 0 <= k <= |at| && at[..k] in t ensures !t[at[..k]].Symlink? {
      if k < |at| { AncestorsAreDirectories(t, at, k); } else { assert at[..k] == at; }
    }
  }

  lemma LiftLast(at: Location, rest: Path)
    requires at != []
    ensures Lift(at) + rest == Lift(Up(at)) + ([Normal(at[|at| - 1])] + rest)
    ensures Up(at) + [at[|at| - 1]] == at
  {
  }

  lemma LiftRoot(rest: Path)
    ensures Lift([]) + rest == rest
  {
  }

  lemma WalkName(t: Tree, cur: Location, name: Name, rest: Path, budget: nat, followed: nat)
    requires cur in t && t[cur].Dir? && Physical(t, cur + [name])
    ensures Walk(t, cur, [Normal(name)] + rest, budget, followed) == Walk(t, cur + [name], rest, budget, followed)
  {
    assert ([Normal(name)] + rest)[1..] == rest;
  }

  /** Walking down a physical location lands on it. */
  lemma {:induction false} WalkPhysical(t: Tree, at: Location, rest: Path, budget: nat, followed: nat)
    requires WellFormed(t) && Physical(t, at)
    ensures Walk(t, [], Lift(at) + rest, budget, followed) == Walk(t, at, rest, budget, followed)
    decreases |at|
  {
    hide Walk, Lift;
    if at == [] {
      LiftRoot(rest);
    } else {
      var up, name := Up(at), at[|at| - 1];
      LiftLast(at, rest);
      WalkPhysical(t, up, [Normal(name)] + rest, budget, followed);
      WalkName(t, up, name, rest, budget, followed);
    }
  }

  lemma LstatPhysical(w: World, parent: Location, name: Name)
    requires w.Valid() && Physical(w.tree, parent)
    ensures Lstat(w, Lift(parent + [name])) ==
            if !w.tree[parent].Dir? then Err(OtherIo)
            else if parent + [name] in w.tree then Ok(w.tree[parent + [name]]) else Err(NotFound)
  {
    var path := Lift(parent + [name]);
    assert path[..|path| - 1] == Lift(parent) == Lift(parent) + [];
    WalkPhysical(w.tree, parent, [], w.linkLimit, 0);
  }

  lemma CanonicalizePhysical(w: World, at: Location)
    requires w.Valid() && Physical(w.tree, at)
    ensures Canonicalize(w, Lift(at)) == Ok(at)
  {
    assert Lift(at) == Lift(at) + [];
    WalkPhysical(w.tree, at, [], w.linkLimit, 0);
  }

  /** Resolution of a longer path passes through the resolution of its beginning. */
  lemma {:induction false} WalkThrough(t: Tree, cur: Location, first: Path, second: Path, budget: nat, followed: nat)
    ensures match Walk(t, cur, first, budget, followed)
            case At(at, n) =>
              n - followed <= budget && n >= followed &&
              Walk(t, cur, first + second, budget, followed) == Walk(t, at, second, budget - (n - followed), n)
            case Missing(at, rest, n) => Walk(t, cur, first + second, budget, followed) == Missing(at, rest + second, n)
            case NotDirectory(at, rest, n) =>
              Walk(t, cur, first + second, budget, followed) == NotDirectory(at, rest + second, n)
            case TooManyLinks(at, rest, n) =>
              Walk(t, cur, first + second, budget, followed) == TooManyLinks(at, rest + second, n)
    decreases budget, |first|
  {
    if first == [] {
      assert first + second == second;
    } else if cur in t && t[cur].Dir? {
      assert (first + second)[1..] == first[1..] + second;
      if first[0].Parent? {
        WalkThrough(t, Up(cur), first[1..], second, budget, followed);
      } else {
        var candidate := cur + [first[0].name];
        if candidate in t {
          if t[candidate].Symlink? {
            if budget > 0 {
              var target := t[candidate].target;
              assert target.components + first[1..] + second == target.components + (first[1..] + second);
              WalkThrough(t, if target.absolute then [] else cur, target.components + first[1..], second, budget - 1,
                          followed + 1);
            }
          } else {
            WalkThrough(t, candidate, first[1..], second, budget, followed);
          }
        }
      }
    }
  }

  /** How resolution can end: at a physical location, at a missing child of one, or stopped at one. */
  ghost predicate Ends(t: Tree, o: Outcome)
  {
    match o
    case At(at, _) => Physical(t, at)
    case Missing(at, _, _) => at !in t && at != [] && Physical(t, Up(at)) && t[Up(at)].Dir?
    case NotDirectory(at, rest, _) => Physical(t, at) && !t[at].Dir? && rest != []
    case TooManyLinks(at, rest, _) => Physical(t, at) && t[at].Dir? && rest != []
  }

  /** One step of resolution: where it goes on, or that it stops. */
  datatype Next = Stop | Continue(cur: Location, pending: Path, links: nat)

  ghost function Step(t: Tree, cur: Location, pending: Path): Next
  {
    if pending == [] || cur !in t || !t[cur].Dir? then Stop
    else if pending[0].Parent? then Continue(Up(cur), pending[1..], 0)
    else
      var candidate, rest := cur + [pending[0].name], pending[1..];
      if candidate !in t then Stop
      else if t[candidate].Symlink? then
        var target := t[candidate].target;
        Continue(if target.absolute then [] else cur, target.components + rest, 1)
      else Continue(candidate, rest, 0)
  }

  lemma WalkStep(t: Tree, cur: Location, pending: Path, budget: nat, followed: nat)
    requires WellFormed(t) && Physical(t, cur)
    ensures var next := Step(t, cur, pending);
            next.Continue? ==>
              Physical(t, next.cur) && next.links <= 1 && (next.links == 0 ==> |next.pending| < |pending|) &&
              Walk(t, cur, pending, budget, followed) ==
                if budget < next.links then TooManyLinks(cur, pending, followed)
                else Walk(t, next.cur, next.pending, budget - next.links, followed + next.links)
    ensures var next := Step(t, cur, pending);
            next.Continue? && next.links > 0 ==> t[cur].Dir? && pending != []
  {
    UpIsDirectory(t, cur);
    UpIsDirectory(t, []);
    hide WellFormed;
  }

  lemma WalkStop(t: Tree, cur: Location, pending: Path, budget: nat, followed: nat)
    requires Physical(t, cur) && Step(t, cur, pending).Stop?
    ensures var o := Walk(t, cur, pending, budget, followed);
            Ends(t, o) && o.followed == followed && !o.TooManyLinks?
  {
    if pending != [] && pending[0].Normal? {
      assert Up(cur + [pending[0].name]) == cur;
    }
  }

  /** Resolution ends at a physical location, and stops at a child of one; it follows no more links
      than it may. */
  lemma {:induction false} WalkStaysPhysical(t: Tree, cur: Location, pending: Path, budget: nat, followed: nat)
    requires WellFormed(t) && Physical(t, cur)
    ensures var o := Walk(t, cur, pending, budget, followed);
            Ends(t, o) && followed <= o.followed <= followed + budget &&
            (o.TooManyLinks? ==> o.followed == followed + budget)
    decreases budget, |pending|
  {
    hide Walk, Step, WellFormed;
    var next := Step(t, cur, pending);
    if next.Stop? {
      WalkStop(t, cur, pending, budget, followed);
    } else {
      WalkStep(t, cur, pending, budget, followed);
      if next.links <= budget {
        hide Ends;
        WalkStaysPhysical(t, next.cur, next.pending, budget - next.links, followed + next.links);
      }
    }
  }
}
