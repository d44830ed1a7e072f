/** Which archived symbolic links an extraction restores
    (scripts/maintenance/archive-blueprint-evidence.py). */
module EvidenceLinks {
  import opened Wrappers

  type Name = string

  /** Names below the restore root. */
  type Rel = seq<Name>

  /** A link target cut at its slashes: absolute and empty targets begin with an empty name. */
  type Target = seq<Name>

  datatype Record = File | Directory | Symlink(target: Target)

  type Records = map<Rel, Record>

  predicate Relative(t: Target)
  {
    t != [] && t[0] != ""
  }

  predicate IsLink(records: Records, p: Rel)
  {
    p in records && records[p].Symlink?
  }

  function Unvisited(records: Records, visited: set<Rel>): set<Rel>
  {
    set p | p in records && records[p].Symlink? && p !in visited
  }

  lemma VisitingShrinks(records: Records, visited: set<Rel>, p: Rel)
    requires IsLink(records, p) && p !in visited
    ensures |Unvisited(records, visited + {p})| < |Unvisited(records, visited)|
  {
    assert Unvisited(records, visited + {p}) == Unvisited(records, visited) - {p};
    assert p in Unvisited(records, visited);
  }

  /** From here, the rest of the walk stays inside: it follows every archived link it passes, each
      at most once, and never climbs above the root or leaves by an absolute target. */
  predicate Stays(records: Records, parts: Rel, pending: Target, visited: set<Rel>)
    decreases |Unvisited(records, visited)|, |pending|
  {
    pending == [] ||
    var part, rest := pending[0], pending[1..];
    if part == "" || part == "." then Stays(records, parts, rest, visited)
    else if part == ".." then parts != [] && Stays(records, parts[..|parts| - 1], rest, visited)
    else
      var here := parts + [part];
      if !IsLink(records, here) then Stays(records, here, rest, visited)
      else if here in visited || !Relative(records[here].target) then false
      else
        VisitingShrinks(records, visited, here);
        Stays(records, parts, records[here].target + rest, visited + {here})
  }

  /** link_stays_inside, by a work list of names. The measure is the links not yet visited, then the
      names to do. */
  method LinkStaysInside(path: Rel, target: Target, records: Records) returns (inside: bool)
    requires path != []
    ensures inside <==> Relative(target) && Stays(records, path[..|path| - 1], target, {path})
  {
    if !Relative(target) {
      return false;
    }
    var parts := path[..|path| - 1];
    var pending := target;
    var visited := {path};
    while pending != []
      invariant Stays(records, path[..|path| - 1], target, {path}) == Stays(records, parts, pending, visited)
      decreases |Unvisited(records, visited)|, |pending|
    {
      var part := pending[0];
      pending := pending[1..];
      if part == "" || part == "." {
        continue;
      }
      if part == ".." {
        if parts == [] {
          return false;
        }
        parts := parts[..|parts| - 1];
      } else {
        parts := parts + [part];
        var candidate := parts;
        if candidate in records && records[candidate].Symlink? {
          if candidate in visited || !Relative(records[candidate].target) {
            return false;
          }
          VisitingShrinks(records, visited, candidate);
          visited := visited + {candidate};
          parts := parts[..|parts| - 1];
          pending := records[candidate].target + pending;
        }
      }
    }
    inside := true;
  }

  // ---- what the operating system does -------------------------------------------------

  datatype Node = Plain | Dir | Link(target: Target)

  type Tree = map<Rel, Node>

  /** A tree restored from the archive: its links are archived ones with their archived targets, and
      nothing else takes a link's place. What else there is, and what is missing, is free. */
  ghost predicate Restored(tree: Tree, records: Records)
  {
    (forall p | p in tree && tree[p].Link? :: IsLink(records, p)) &&
    (forall p | p in tree && IsLink(records, p) :: tree[p] == Link(records[p].target))
  }

  /** Resolving these names from this directory of the restored tree, following at most `budget`
      links, leaves the tree: by a parent step at the root or by an absolute target. */
  predicate Escapes(tree: Tree, parts: Rel, pending: Target, budget: nat)
    decreases budget, |pending|
  {
    pending != [] &&
    var part, rest := pending[0], pending[1..];
    if part == "" || part == "." then Escapes(tree, parts, rest, budget)
    else if part == ".." then parts == [] || Escapes(tree, parts[..|parts| - 1], rest, budget)
    else
      var here := parts + [part];
      if here !in tree then false
      else match tree[here]
        case Plain => false
        case Dir => Escapes(tree, here, rest, budget)
        case Link(t) => budget > 0 && (!Relative(t) || Escapes(tree, parts, t + rest, budget - 1))
  }

  /** A walk that stays inside by the archived records never leaves the restored tree, whatever was
      restored and however many links are followed. */
  lemma {:induction false} StaysNeverEscapes(records: Records, tree: Tree, parts: Rel, pending: Target,
                                             visited: set<Rel>, budget: nat)
    requires Restored(tree, records) && Stays(records, parts, pending, visited)
    ensures !Escapes(tree, parts, pending, budget)
    decreases budget, |pending|
  {
    if pending != [] {
      var part, rest := pending[0], pending[1..];
      var here := parts + [part];
      if part == "" || part == "." {
        StaysNeverEscapes(records, tree, parts, rest, visited, budget);
      } else if part == ".." {
        StaysNeverEscapes(records, tree, parts[..|parts| - 1], rest, visited, budget);
      } else if here in tree && tree[here].Dir? {
        StaysNeverEscapes(records, tree, here, rest, visited, budget);
      } else if here in tree && tree[here].Link? && budget > 0 {
        StaysNeverEscapes(records, tree, parts, tree[here].target + rest, visited + {here}, budget - 1);
      }
    }
  }

  /** An accepted link can be followed in the restored tree, with any bound on links, without ever
      leaving it. */
  lemma AcceptedLinkStaysInside(path: Rel, target: Target, records: Records, tree: Tree, budget: nat)
    requires path != [] && Restored(tree, records) && Relative(target) &&
             Stays(records, path[..|path| - 1], target, {path})
    ensures !Escapes(tree, path[..|path| - 1], target, budget)
  {
    StaysNeverEscapes(records, tree, path[..|path| - 1], target, {path}, budget);
  }

  // ---- exactly which links are accepted -----------------------------------------------

  /** The links a walk through the archived records passes, in order; None if it leaves, or has not
      ended after `budget` links. */
  function Follow(records: Records, parts: Rel, pending: Target, budget: nat): Option<seq<Rel>>
    decreases budget, |pending|
  {
    if pending == [] then Some([])
    else
      var part, rest := pending[0], pending[1..];
      if part == "" || part == "." then Follow(records, parts, rest, budget)
      else if part == ".." then if parts == [] then None else Follow(records, parts[..|parts| - 1], rest, budget)
      else
        var here := parts + [part];
        if !IsLink(records, here) then Follow(records, here, rest, budget)
        else if budget == 0 || !Relative(records[here].target) then None
        else
          match Follow(records, parts, records[here].target + rest, budget - 1)
          case None => None
          case Some(links) => Some([here] + links)
  }

  /** The walk ends inside, passing no link twice and none of these. */
  ghost predicate EndsInside(records: Records, parts: Rel, pending: Target, visited: set<Rel>, budget: nat)
  {
    var walk := Follow(records, parts, pending, budget);
    walk.Some? && Distinct(walk.value) && forall link | link in walk.value :: link !in visited
  }

  lemma {:induction false} StaysEndsInside(records: Records, parts: Rel, pending: Target, visited: set<Rel>)
    requires Stays(records, parts, pending, visited)
    ensures EndsInside(records, parts, pending, visited, |Unvisited(records, visited)|)
    decreases |Unvisited(records, visited)|, |pending|
  {
    if pending != [] {
      var part, rest := pending[0], pending[1..];
      var here := parts + [part];
      if part == "" || part == "." {
        StaysEndsInside(records, parts, rest, visited);
      } else if part == ".." {
        StaysEndsInside(records, parts[..|parts| - 1], rest, visited);
      } else if !IsLink(records, here) {
        StaysEndsInside(records, here, rest, visited);
      } else {
        VisitingShrinks(records, visited, here);
        var onward := records[here].target + rest;
        StaysEndsInside(records, parts, onward, visited + {here});
        MoreBudget(records, parts, onward, |Unvisited(records, visited + {here})|, |Unvisited(records, visited)| - 1);
        var links := Follow(records, parts, onward, |Unvisited(records, visited)| - 1).value;
        assert forall link | link in links :: link !in visited + {here};
      }
    }
  }

  lemma {:induction false} MoreBudget(records: Records, parts: Rel, pending: Target, budget: nat, more: nat)
    requires budget <= more && Follow(records, parts, pending, budget).Some?
    ensures Follow(records, parts, pending, more) == Follow(records, parts, pending, budget)
    decreases budget, |pending|
  {
    if pending != [] {
      var part, rest := pending[0], pending[1..];
      var here := parts + [part];
      if part == "" || part == "." {
        MoreBudget(records, parts, rest, budget, more);
      } else if part == ".." {
        MoreBudget(records, parts[..|parts| - 1], rest, budget, more);
      } else if !IsLink(records, here) {
        MoreBudget(records, here, rest, budget, more);
      } else {
        MoreBudget(records, parts, records[here].target + rest, budget - 1, more - 1);
      }
    }
  }

  lemma {:induction false} EndingInsideStays(records: Records, parts: Rel, pending: Target, visited: set<Rel>,
                                             budget: nat)
    requires EndsInside(records, parts, pending, visited, budget)
    ensures Stays(records, parts, pending, visited)
    decreases budget, |pending|
  {
    if pending != [] {
      var part, rest := pending[0], pending[1..];
      var here := parts + [part];
      if part == "" || part == "." {
        EndingInsideStays(records, parts, rest, visited, budget);
      } else if part == ".." {
        EndingInsideStays(records, parts[..|parts| - 1], rest, visited, budget);
      } else if !IsLink(records, here) {
        EndingInsideStays(records, here, rest, visited, budget);
      } else {
        var links := Follow(records, parts, pending, budget).value;
        var later := Follow(records, parts, records[here].target + rest, budget - 1).value;
        assert links == [here] + later;
        DistinctRest(here, later, visited);
        EndingInsideStays(records, parts, records[here].target + rest, visited + {here}, budget - 1);
      }
    }
  }

  lemma DistinctRest(first: Rel, later: seq<Rel>, visited: set<Rel>)
    requires Distinct([first] + later) && forall link | link in [first] + later :: link !in visited
    ensures first !in visited && Distinct(later) && forall link | link in later :: link !in visited + {first}
  {
    var links := [first] + later;
    assert links[0] == first && forall i | 0 <= i < |later| :: later[i] == links[i + 1];
  }

  ghost predicate LinkEndsInside(records: Records, path: Rel, target: Target, budget: nat)
    requires path != []
  {
    EndsInside(records, path[..|path| - 1], target, {path}, budget)
  }

  /** A link is accepted exactly when its target is relative and the walk through the archived
      records ends inside without passing any link twice, itself included. */
  lemma AcceptedExactlyWhen(path: Rel, target: Target, records: Records)
    requires path != []
    ensures Relative(target) && Stays(records, path[..|path| - 1], target, {path}) <==>
            Relative(target) && exists budget: nat :: LinkEndsInside(records, path, target, budget)
  {
    var parts := path[..|path| - 1];
    if Stays(records, parts, target, {path}) {
      StaysEndsInside(records, parts, target, {path});
      assert LinkEndsInside(records, path, target, |Unvisited(records, {path})|);
    }
    if budget: nat :| LinkEndsInside(records, path, target, budget) {
      EndingInsideStays(records, parts, target, {path}, budget);
    }
  }

  /** So a harmless link that passes another one twice is not restored. */
  lemma PassingTwiceIsRefused()
    ensures var records: Records := map[["d"] := Symlink(["e"])];
            !Stays(records, [], ["d", "..", "d"], {["l"]}) && Follow(records, [], ["d", "..", "d"], 2).Some?
  {
    var records: Records := map[["d"] := Symlink(["e"])];
    var t := ["d", "..", "d"];
    var d: Rel, e: Rel := ["d"], ["e"];
    assert [] + ["d"] == d && [] + ["e"] == e;
    assert t[1..] == ["..", "d"] && ["e"] + t[1..] == ["e", "..", "d"];
    assert ["e", "..", "d"][1..] == ["..", "d"] && ["..", "d"][1..] == ["d"] && e[..0] == [];
    assert ["d"][1..] == [] && ["e"] + [] == ["e"];
    assert Follow(records, e, [], 0) == Some([]);
    assert Follow(records, [], ["e"], 0) == Some([]) by { assert ["e"][1..] == []; }
    assert ["e"] + ["d"][1..] == ["e"] && [d] + [] == [d] && IsLink(records, d) && Relative(records[d].target);
    assert Follow(records, [], ["d"], 1) == Some([d]);
    assert Follow(records, e, ["..", "d"], 1) == Some([d]);
    assert Follow(records, [], ["e", "..", "d"], 1) == Some([d]);
    assert !Stays(records, [], ["d"], {["l"], d});
    assert !Stays(records, e, ["..", "d"], {["l"], d});
    assert !Stays(records, [], ["e", "..", "d"], {["l"], d});
    assert {["l"]} + {d} == {["l"], d};
  }

  // ---- extraction ---------------------------------------------------------------------

  /** As validate_inventory leaves them: paths are not empty, and what is above a member, if it is a
      member itself, is a directory. */
  ghost predicate Nestable(records: Records)
  {
    [] !in records && forall p, n: nat | p in records && n < |p| && p[..n] in records :: records[p[..n]].Directory?
  }

  predicate Accepted(records: Records, p: Rel)
    requires p in records && p != []
  {
    records[p].Symlink? && Relative(records[p].target) && Stays(records, p[..|p| - 1], records[p].target, {p})
  }

  /** The members done are restored as they should be; everything else there is a directory. */
  ghost predicate Extracted(tree: Tree, records: Records, done: set<Rel>)
    requires done <= records.Keys && [] !in records
  {
    (forall p | p in done :: RestoredAs(tree, records, p)) &&
    (forall p | p in tree && p !in done :: tree[p].Dir? && (p in records ==> records[p].Directory?))
  }

  ghost predicate RestoredAs(tree: Tree, records: Records, p: Rel)
    requires p in records && p != []
  {
    match records[p]
    case File => p in tree && tree[p].Plain?
    case Directory => p in tree && tree[p].Dir?
    case Symlink(t) => if Accepted(records, p) then p in tree && tree[p] == Link(t) else p !in tree
  }

  /** r is the tree with some missing directories above p made. */
  ghost predicate ParentsMade(tree: Tree, r: Tree, p: Rel)
  {
    (forall q | q in tree :: q in r && r[q] == tree[q]) &&
    (forall q | q in r && q !in tree :: r[q].Dir? && |q| < |p| && q == p[..|q|])
  }

  method MakeParents(tree: Tree, p: Rel) returns (r: Tree)
    ensures ParentsMade(tree, r, p)
  {
    r := tree;
    for n := 0 to |p|
      invariant ParentsMade(tree, r, p)
    {
      if p[..n] !in r {
        r := r[p[..n] := Dir];
      }
    }
  }

  lemma ParentsKeep(tree: Tree, r: Tree, records: Records, done: set<Rel>, p: Rel)
    requires Nestable(records) && done <= records.Keys && Extracted(tree, records, done) && ParentsMade(tree, r, p) &&
             p in records
    ensures Extracted(r, records, done)
  {
    hide Accepted;
    forall q | q in r && q !in tree && q in records ensures records[q].Directory? {
      assert p[..|q|] == q;
    }
  }

  lemma MemberDone(r: Tree, next: Tree, records: Records, done: set<Rel>, p: Rel)
    requires Nestable(records) && done <= records.Keys && p in records && p !in done && Extracted(r, records, done)
    requires match records[p]
             case Directory => next == r[p := Dir]
             case File => next == r[p := Plain]
             case Symlink(t) => next == if Accepted(records, p) then r[p := Link(t)] else r
    ensures Extracted(next, records, done + {p})
  {
    hide Accepted;
  }

  /** Following the restored link at p leads out of the tree. */
  ghost predicate LeadsOut(tree: Tree, p: Rel, budget: nat)
    requires p in tree && tree[p].Link? && p != []
  {
    Escapes(tree, p[..|p| - 1], tree[p].target, budget)
  }

  lemma ExtractedIsContained(tree: Tree, records: Records)
    requires Nestable(records) && Extracted(tree, records, records.Keys)
    ensures Restored(tree, records)
    ensures forall p | p in tree && tree[p].Link? :: p in records && p != [] && Accepted(records, p)
    ensures forall p, budget: nat | p in tree && tree[p].Link? && p != [] :: !LeadsOut(tree, p, budget)
  {
    hide Stays, Escapes;
    forall p, budget: nat | p in tree && tree[p].Link? && p != [] ensures !LeadsOut(tree, p, budget) {
      AcceptedLinkStaysInside(p, tree[p].target, records, tree, budget);
    }
  }

  /** extract: every directory and file member is restored, a link exactly when it is accepted; and
      no restored link leads out of the tree, however many links are followed on the way. */
  method Extract(members: seq<Rel>, records: Records) returns (tree: Tree, skipped: seq<Rel>)
    requires Nestable(records) && (forall p :: p in records <==> p in members)
    requires forall i, j | 0 <= i < j < |members| :: members[i] != members[j]
    ensures forall p | p in records && p != [] :: RestoredAs(tree, records, p)
    ensures forall p | p in records && records[p].File? :: p in tree && tree[p].Plain?
    ensures forall p | p in records && records[p].Directory? :: p in tree && tree[p].Dir?
    ensures forall p | p in tree && p !in records :: tree[p].Dir?
    ensures forall p | p in tree && p in records && records[p].Symlink? :: tree[p] == Link(records[p].target)
    ensures forall p | p in records && p != [] && records[p].Symlink? :: p in tree <==> Accepted(records, p)
    ensures forall p, budget: nat | p in tree && tree[p].Link? && p != [] :: !LeadsOut(tree, p, budget)
    ensures forall p :: p in skipped <==> p in records && records[p].Symlink? && p !in tree
  {
    hide Accepted, Extracted, Nestable, ParentsMade, LeadsOut;
    tree, skipped := map[], [];
    ghost var done: set<Rel> := {};
    NestableHasNoRoot(records);
    NothingExtracted(records);
    for n := 0 to |members|
      invariant done == (set i | 0 <= i < n :: members[i]) && done <= records.Keys
      invariant Extracted(tree, records, done)
      invariant forall p :: p in skipped <==> p in done && records[p].Symlink? && !Accepted(records, p)
    {
      var p := members[n];
      var above := MakeParents(tree, p);
      ParentsKeep(tree, above, records, done, p);
      tree := above;
      match records[p] {
        case Directory => tree := tree[p := Dir];
        case File => tree := tree[p := Plain];
        case Symlink(t) =>
          var inside := LinkStaysInside(p, t, records);
          AcceptedMeans(records, p);
          if inside {
            tree := tree[p := Link(t)];
          } else {
            skipped := skipped + [p];
          }
      }
      MemberDone(above, tree, records, done, p);
      done := done + {p};
    }
    assert done == records.Keys;
    ExtractedIsContained(tree, records);
    ExtractedMembers(tree, records);
    ExtractedOthers(tree, records);
  }

  lemma ExtractedOthers(tree: Tree, records: Records)
    requires [] !in records && Extracted(tree, records, records.Keys)
    ensures forall p | p in tree && p !in records :: tree[p].Dir?
    ensures forall p | p in records && records[p].File? :: p in tree && tree[p].Plain?
    ensures forall p | p in records && records[p].Directory? :: p in tree && tree[p].Dir?
    ensures forall p | p in tree && p in records && records[p].Symlink? :: tree[p] == Link(records[p].target)
    ensures forall p | p in records && p != [] && records[p].Symlink? :: p in tree <==> Accepted(records, p)
  {
    hide Accepted;
    forall p | p in records ensures p != [] && RestoredAs(tree, records, p) {
    }
  }

  lemma NestableHasNoRoot(records: Records)
    requires Nestable(records)
    ensures [] !in records
  {
  }

  lemma NothingExtracted(records: Records)
    requires [] !in records
    ensures Extracted(map[], records, {})
  {
  }

  lemma AcceptedMeans(records: Records, p: Rel)
    requires p in records && p != [] && records[p].Symlink?
    ensures Accepted(records, p) <==>
              Relative(records[p].target) && Stays(records, p[..|p| - 1], records[p].target, {p})
  {
  }

  lemma ExtractedMembers(tree: Tree, records: Records)
    requires [] !in records && Extracted(tree, records, records.Keys)
    ensures forall p | p in records && p != [] :: RestoredAs(tree, records, p)
  {
  }
}
