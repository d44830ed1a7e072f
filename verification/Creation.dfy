/** Where a path that does not exist yet comes to lie once its missing directories are made
    (crates/xuanling-toolkit/src/fs/write.rs), against the place the walker of
    crates/xuanling-toolkit/src/capability.rs assigns to it. */
module Creation {
  import opened Wrappers
  import opened PathResolution
  import opened Capability

  datatype Creation = Made(tree: Tree, at: Location, left: nat) | Stuck

  /** Resolve `pending` from `cur`, making a directory of every component that is missing and going
      on from there, also past `..`. */
  function Create(t: Tree, cur: Location, pending: Path, budget: nat): Creation
    decreases budget, |pending|
  {
    if pending == [] then Made(t, cur, budget)
    else if cur !in t || !t[cur].Dir? then Stuck
    else if pending[0].Parent? then Create(t, Up(cur), pending[1..], budget)
    else
      var candidate, rest := cur + [pending[0].name], pending[1..];
      if candidate !in t then Create(t[candidate := Dir], candidate, rest, budget)
      else if t[candidate].Symlink? then
        if budget == 0 then Stuck
        else
          var target := t[candidate].target;
          Create(t, if target.absolute then [] else cur, target.components + rest, budget - 1)
      else Create(t, candidate, rest, budget)
  }

  datatype Landing = Landing(at: Location, left: nat)

  /** The same place, found without changing the tree: what is missing is walked as a directory. */
  function Land(t: Tree, cur: Location, pending: Path, budget: nat): Option<Landing>
    decreases budget, |pending|
  {
    if pending == [] then Some(Landing(cur, budget))
    else if cur in t && !t[cur].Dir? then None
    else if pending[0].Parent? then Land(t, Up(cur), pending[1..], budget)
    else
      var candidate, rest := cur + [pending[0].name], pending[1..];
      if candidate in t && t[candidate].Symlink? then
        if budget == 0 then None
        else
          var target := t[candidate].target;
          Land(t, if target.absolute then [] else cur, target.components + rest, budget - 1)
      else Land(t, candidate, rest, budget)
  }

  /** `grown` is `t` with directories added. */
  ghost predicate Grown(t: Tree, grown: Tree)
  {
    WellFormed(grown) &&
    (forall at | at in t :: at in grown && grown[at] == t[at]) &&
    (forall at | at in grown && at !in t :: grown[at].Dir?)
  }

  lemma GrowOne(t: Tree, grown: Tree, cur: Location, name: Name)
    requires Grown(t, grown) && cur in grown && grown[cur].Dir? && cur + [name] !in grown
    ensures Grown(t, grown[cur + [name] := Dir])
  {
    var next := grown[cur + [name] := Dir];
    assert Up(cur + [name]) == cur;
    forall at | at in next && at != [] ensures Up(at) in next && next[Up(at)].Dir? {
      if at != cur + [name] { assert at in grown; }
    }
  }

  lemma GrownUp(t: Tree, grown: Tree, cur: Location)
    requires Grown(t, grown) && cur in grown
    ensures [] in grown && Up(cur) in grown
  {
    UpIsDirectory(grown, cur);
  }

  lemma NothingCreated(t: Tree, cur: Location, budget: nat)
    ensures Create(t, cur, [], budget) == Made(t, cur, budget)
  {
  }

  lemma CreateUnfolds(t: Tree, cur: Location, pending: Path, budget: nat)
    requires cur in t && pending != []
    ensures !t[cur].Dir? ==> Create(t, cur, pending, budget) == Stuck
    ensures t[cur].Dir? && pending[0].Parent? ==>
              Create(t, cur, pending, budget) == Create(t, Up(cur), pending[1..], budget)
    ensures t[cur].Dir? && pending[0].Normal? ==>
              var candidate := cur + [pending[0].name];
              Create(t, cur, pending, budget) ==
                if candidate !in t then Create(t[candidate := Dir], candidate, pending[1..], budget)
                else if t[candidate].Symlink? then
                  if budget == 0 then Stuck
                  else
                    var target := t[candidate].target;
                    Create(t, if target.absolute then [] else cur, target.components + pending[1..], budget - 1)
                else Create(t, candidate, pending[1..], budget)
  {
  }

  lemma GrownLandUnfolds(t: Tree, grown: Tree, cur: Location, pending: Path, budget: nat)
    requires Grown(t, grown) && cur in grown && pending != []
    ensures !grown[cur].Dir? ==> Land(t, cur, pending, budget) == None
    ensures grown[cur].Dir? && pending[0].Parent? ==>
              Land(t, cur, pending, budget) == Land(t, Up(cur), pending[1..], budget)
    ensures grown[cur].Dir? && pending[0].Normal? ==>
              var candidate := cur + [pending[0].name];
              Land(t, cur, pending, budget) ==
                if candidate in grown && grown[candidate].Symlink? then
                  if budget == 0 then None
                  else
                    var target := grown[candidate].target;
                    Land(t, if target.absolute then [] else cur, target.components + pending[1..], budget - 1)
                else Land(t, candidate, pending[1..], budget)
  {
    hide WellFormed;
  }

  /** Making the missing directories one by one ends where `Land` says, only adds directories, and
      fails exactly where `Land` does. */
  lemma {:induction false} CreateLands(t: Tree, grown: Tree, cur: Location, pending: Path, budget: nat)
    requires Grown(t, grown) && cur in grown
    ensures match Create(grown, cur, pending, budget)
            case Made(after, at, left) =>
              Grown(t, after) && at in after && Land(t, cur, pending, budget) == Some(Landing(at, left))
            case Stuck => Land(t, cur, pending, budget) == None
    decreases budget, |pending|
  {
    hide Grown, WellFormed, Create, Land;
    if pending == [] {
      NothingCreated(grown, cur, budget);
      NothingLands(t, cur, budget);
    } else {
      GrownUp(t, grown, cur);
      CreateUnfolds(grown, cur, pending, budget);
      GrownLandUnfolds(t, grown, cur, pending, budget);
      if grown[cur].Dir? {
        var rest := pending[1..];
        if pending[0].Parent? {
          CreateLands(t, grown, Up(cur), rest, budget);
        } else {
          var candidate := cur + [pending[0].name];
          if candidate !in grown {
            GrowOne(t, grown, cur, pending[0].name);
            CreateLands(t, grown[candidate := Dir], candidate, rest, budget);
          } else if grown[candidate].Symlink? {
            if budget > 0 {
              var target := grown[candidate].target;
              var base := if target.absolute then [] else cur;
              CreateLands(t, grown, base, target.components + rest, budget - 1);
            }
          } else {
            CreateLands(t, grown, candidate, rest, budget);
          }
        }
      }
    }
  }

  // ---- facts about landing ------------------------------------------------------------

  lemma {:induction false} LandThrough(t: Tree, cur: Location, first: Path, second: Path, budget: nat)
    ensures var z := Land(t, cur, first, budget);
            Land(t, cur, first + second, budget) ==
              if z.None? then None else Land(t, z.value.at, second, z.value.left)
    decreases budget, |first|
  {
    if first == [] {
      assert first + second == second;
    } else if !(cur in t && !t[cur].Dir?) {
      assert (first + second)[1..] == first[1..] + second;
      if first[0].Parent? {
        LandThrough(t, Up(cur), first[1..], second, budget);
      } else {
        var candidate := cur + [first[0].name];
        if candidate in t && t[candidate].Symlink? {
          if budget > 0 {
            var target := t[candidate].target;
            assert target.components + first[1..] + second == target.components + (first[1..] + second);
            LandThrough(t, if target.absolute then [] else cur, target.components + first[1..], second, budget - 1);
          }
        } else {
          LandThrough(t, candidate, first[1..], second, budget);
        }
      }
    }
  }

  lemma {:induction false} LandWithMore(t: Tree, cur: Location, pending: Path, budget: nat, more: nat)
    ensures var z := Land(t, cur, pending, budget);
            z.Some? ==> z.value.left <= budget &&
                        Land(t, cur, pending, budget + more) == Some(Landing(z.value.at, z.value.left + more))
    decreases budget, |pending|
  {
    if pending != [] && !(cur in t && !t[cur].Dir?) {
      if pending[0].Parent? {
        LandWithMore(t, Up(cur), pending[1..], budget, more);
      } else {
        var candidate := cur + [pending[0].name];
        if candidate in t && t[candidate].Symlink? {
          if budget > 0 {
            var target := t[candidate].target;
            LandWithMore(t, if target.absolute then [] else cur, target.components + pending[1..], budget - 1, more);
          }
        } else {
          LandWithMore(t, candidate, pending[1..], budget, more);
        }
      }
    }
  }

  /** Where resolution succeeds creation ends in the same place; where a component is missing
      creation goes on from it; and where resolution fails otherwise creation fails too. */
  lemma {:induction false} LandOfWalk(t: Tree, cur: Location, pending: Path, budget: nat, followed: nat)
    requires WellFormed(t) && Physical(t, cur)
    ensures match Walk(t, cur, pending, budget, followed)
            case At(at, n) =>
              followed <= n <= followed + budget &&
              Land(t, cur, pending, budget) == Some(Landing(at, budget - (n - followed)))
            case Missing(at, rest, n) =>
              followed <= n <= followed + budget &&
              Land(t, cur, pending, budget) == Land(t, at, rest, budget - (n - followed))
            case NotDirectory(_, _, _) => Land(t, cur, pending, budget) == None
            case TooManyLinks(_, _, _) => Land(t, cur, pending, budget) == None
    decreases budget, |pending|
  {
    hide Walk, Land, Step, WellFormed;
    var next := Step(t, cur, pending);
    if next.Stop? {
      LandStop(t, cur, pending, budget, followed);
    } else {
      WalkStep(t, cur, pending, budget, followed);
      LandStep(t, cur, pending, budget);
      if next.links <= budget {
        LandOfWalk(t, next.cur, next.pending, budget - next.links, followed + next.links);
      }
    }
  }

  lemma LandStep(t: Tree, cur: Location, pending: Path, budget: nat)
    requires Physical(t, cur) && Step(t, cur, pending).Continue?
    ensures var next := Step(t, cur, pending);
            Land(t, cur, pending, budget) ==
              if budget < next.links then None else Land(t, next.cur, next.pending, budget - next.links)
  {
  }

  lemma LandStop(t: Tree, cur: Location, pending: Path, budget: nat, followed: nat)
    requires Physical(t, cur) && Step(t, cur, pending).Stop?
    ensures match Walk(t, cur, pending, budget, followed)
            case At(at, n) => n == followed && Land(t, cur, pending, budget) == Some(Landing(at, budget))
            case Missing(at, rest, n) => n == followed && Land(t, cur, pending, budget) == Land(t, at, rest, budget)
            case NotDirectory(_, _, _) => Land(t, cur, pending, budget) == None
            case TooManyLinks(_, _, _) => false
  {
  }

  lemma ChildOfMissing(t: Tree, at: Location, name: Name)
    requires WellFormed(t) && at !in t
    ensures at + [name] !in t
  {
    assert Up(at + [name]) == at;
  }

  /** Below what is missing, names lead where they say. */
  lemma {:induction false} LandBelowMissing(t: Tree, at: Location, rest: Path, budget: nat)
    requires WellFormed(t) && at !in t && ParentFree(rest)
    ensures Land(t, at, rest, budget) == Some(Landing(at + Names(rest), budget))
    decreases |rest|
  {
    hide WellFormed, Land;
    if rest == [] {
      assert at + Names(rest) == at;
      NothingLands(t, at, budget);
    } else {
      var name, below := rest[0].name, rest[1..];
      assert rest[0] in rest && forall c | c in below :: c in rest;
      assert rest == [Normal(name)] + below;
      ChildOfMissing(t, at, name);
      LandName(t, at, name, below, budget);
      LandBelowMissing(t, at + [name], below, budget);
      assert at + Names(rest) == at + [name] + Names(below);
    }
  }

  lemma LandName(t: Tree, cur: Location, name: Name, rest: Path, budget: nat)
    requires (cur in t ==> t[cur].Dir?) && (cur + [name] in t ==> !t[cur + [name]].Symlink?)
    ensures Land(t, cur, [Normal(name)] + rest, budget) == Land(t, cur + [name], rest, budget)
  {
    assert ([Normal(name)] + rest)[1..] == rest;
  }

  lemma {:induction false} LandPhysical(t: Tree, at: Location, rest: Path, budget: nat)
    requires WellFormed(t) && Physical(t, at)
    ensures Land(t, [], Lift(at) + rest, budget) == Land(t, at, rest, budget)
    decreases |at|
  {
    hide Land, Lift;
    if at == [] {
      LiftRoot(rest);
    } else {
      var up, name := Up(at), at[|at| - 1];
      LiftLast(at, rest);
      LandPhysical(t, up, [Normal(name)] + rest, budget);
      LandName(t, up, name, rest, budget);
    }
  }

  /** A location that passes through a missing entry of a physical directory is where it says. */
  lemma LandPastMissing(t: Tree, missing: Location, at: Location, budget: nat)
    requires WellFormed(t) && missing !in t && missing != [] && Physical(t, Up(missing)) && t[Up(missing)].Dir?
    requires missing <= at
    ensures Land(t, [], Lift(at), budget) == Some(Landing(at, budget))
  {
    hide WellFormed, Land;
    var name, below := missing[|missing| - 1], Lift(at[|missing|..]);
    LiftThrough(missing, at);
    LandPhysical(t, Up(missing), [Normal(name)] + below, budget);
    assert Up(missing) + [name] == missing;
    LandName(t, Up(missing), name, below, budget);
    LandBelowMissing(t, missing, below, budget);
    assert Names(below) == at[|missing|..];
    assert missing + at[|missing|..] == at;
  }

  lemma LiftThrough(through: Location, at: Location)
    requires through != [] && through <= at
    ensures Lift(at) == Lift(Up(through)) + ([Normal(through[|through| - 1])] + Lift(at[|through|..]))
  {
  }

  // ---- lexical against physical -------------------------------------------------------

  /** Where creation puts a location read from the root directory. */
  function Where(t: Tree, at: Location, limit: nat): Option<Landing>
  {
    Land(t, [], Lift(at), limit)
  }

  /** The location is an existing link that does not lead to a child of its own directory, so that
      the parent of what it leads to is another directory. */
  predicate Detour(t: Tree, at: Location, limit: nat)
  {
    at != [] &&
    var directory, end := Where(t, Up(at), limit), Where(t, at, limit);
    directory.Some? && end.Some? &&
    var entry := directory.value.at + [at[|at| - 1]];
    entry in t && t[entry].Symlink? && Up(end.value.at) != directory.value.at
  }

  /** Continuing lexically from `at`, no parent step cancels a link that leads elsewhere. */
  ghost predicate NoDetour(t: Tree, at: Location, rest: Path, limit: nat)
  {
    forall i | 0 <= i < |rest| && rest[i].Parent? :: !Detour(t, Normalize(at, rest[..i]), limit)
  }

  function NormalizeStep(at: Location, component: Component): Location
  {
    if component.Parent? then Up(at) else at + [component.name]
  }

  lemma {:induction false} NormalizeOneMore(base: Location, path: Path, i: nat)
    requires i < |path|
    ensures Normalize(base, path[..i + 1]) == NormalizeStep(Normalize(base, path[..i]), path[i])
    decreases i
  {
    var next := path[..i + 1];
    if i == 0 {
      assert next == [path[0]] && next[1..] == [] && path[..0] == [];
    } else {
      var tail := path[1..];
      assert next[1..] == tail[..i] && path[..i][1..] == tail[..i - 1];
      NormalizeOneMore(NormalizeStep(base, path[0]), tail, i - 1);
    }
  }

  /** One more component, from the place both ways have reached. */
  lemma LandOneMore(t: Tree, cur: Location, path: Path, budget: nat, i: nat)
    requires i < |path|
    ensures var z := Land(t, cur, path[..i], budget);
            Land(t, cur, path[..i + 1], budget) ==
              if z.None? then None else Land(t, z.value.at, [path[i]], z.value.left)
  {
    assert path[..i + 1] == path[..i] + [path[i]];
    LandThrough(t, cur, path[..i], [path[i]], budget);
  }

  lemma WhereChild(t: Tree, at: Location, name: Name, limit: nat)
    ensures var z := Where(t, at, limit);
            Where(t, at + [name], limit) == if z.None? then None else Land(t, z.value.at, [Normal(name)], z.value.left)
  {
    assert Lift(at + [name]) == Lift(at) + [Normal(name)];
    LandThrough(t, [], Lift(at), [Normal(name)], limit);
  }

  /** A location that is no link lies in the place of its directory. */
  lemma WherePlain(t: Tree, at: Location, limit: nat)
    requires at != [] && Where(t, at, limit).Some?
    ensures var directory, end := Where(t, Up(at), limit), Where(t, at, limit).value;
            directory.Some? && end.left <= directory.value.left &&
            !(directory.value.at in t && !t[directory.value.at].Dir?) &&
            (!Detour(t, at, limit) <==> Up(end.at) == directory.value.at)
  {
    var name := at[|at| - 1];
    assert Up(at) + [name] == at;
    WhereChild(t, Up(at), name, limit);
    var directory := Where(t, Up(at), limit).value;
    LandWithMore(t, directory.at, [Normal(name)], directory.left, 0);
    var entry := directory.at + [name];
    assert Up(entry) == directory.at;
    assert [Normal(name)][1..] == [];
  }

  lemma StartsTogether(t: Tree, at: Location, budget: nat, limit: nat)
    requires WellFormed(t) && at !in t && at != [] && Physical(t, Up(at)) && t[Up(at)].Dir? && budget <= limit
    ensures Where(t, at, limit) == Some(Landing(at, limit)) && Land(t, at, [], budget) == Some(Landing(at, budget))
  {
    LandPastMissing(t, at, at, limit);
  }

  /** After `n` components the lexical location lies where creation has got to. */
  ghost predicate SamePlace(t: Tree, at: Location, rest: Path, budget: nat, limit: nat, n: nat)
  {
    n <= |rest| &&
    var lexical, made := Where(t, Normalize(at, rest[..n]), limit), Land(t, at, rest[..n], budget);
    lexical.Some? && made.Some? && lexical.value.at == made.value.at
  }

  /** And it has no fewer links left to follow. */
  ghost predicate Together(t: Tree, at: Location, rest: Path, budget: nat, limit: nat, n: nat)
  {
    SamePlace(t, at, rest, budget, limit, n) &&
    Land(t, at, rest[..n], budget).value.left <= Where(t, Normalize(at, rest[..n]), limit).value.left
  }

  lemma NothingFollowed(t: Tree, at: Location, rest: Path, budget: nat, limit: nat)
    requires WellFormed(t) && at !in t && at != [] && Physical(t, Up(at)) && t[Up(at)].Dir? && budget <= limit
    ensures Together(t, at, rest, budget, limit, 0)
  {
    LandPastMissing(t, at, at, limit);
    assert rest[..0] == [];
  }

  lemma ParentStep(t: Tree, cur: Location, budget: nat)
    ensures Land(t, cur, [Parent], budget) == if cur in t && !t[cur].Dir? then None else Some(Landing(Up(cur), budget))
  {
    assert [Parent][1..] == [];
  }

  lemma NameTogether(t: Tree, at: Location, rest: Path, budget: nat, limit: nat, i: nat)
    requires i < |rest| && rest[i].Normal? && Together(t, at, rest, budget, limit, i)
    requires Land(t, at, rest[..i + 1], budget).Some?
    ensures Together(t, at, rest, budget, limit, i + 1)
  {
    hide Land, Normalize;
    NormalizeOneMore(at, rest, i);
    LandOneMore(t, at, rest, budget, i);
    var place := Normalize(at, rest[..i]);
    WhereChild(t, place, rest[i].name, limit);
    var lexical, made := Where(t, place, limit).value, Land(t, at, rest[..i], budget).value;
    LandWithMore(t, made.at, [rest[i]], made.left, lexical.left - made.left);
    assert rest[i] == Normal(rest[i].name);
  }

  lemma ParentTogether(t: Tree, at: Location, rest: Path, budget: nat, limit: nat, i: nat)
    requires i < |rest| && rest[i].Parent? && Together(t, at, rest, budget, limit, i)
    requires Land(t, at, rest[..i + 1], budget).Some?
    ensures Together(t, at, rest, budget, limit, i + 1) <==> !Detour(t, Normalize(at, rest[..i]), limit)
    ensures SamePlace(t, at, rest, budget, limit, i + 1) <==> !Detour(t, Normalize(at, rest[..i]), limit)
  {
    hide Land, Normalize, Detour;
    NormalizeOneMore(at, rest, i);
    LandOneMore(t, at, rest, budget, i);
    var place := Normalize(at, rest[..i]);
    var made := Land(t, at, rest[..i], budget).value;
    ParentStep(t, made.at, made.left);
    if place == [] {
      RootLands(t, limit);
    } else {
      WherePlain(t, place, limit);
    }
  }

  lemma RootLands(t: Tree, limit: nat)
    ensures Where(t, [], limit) == Some(Landing([], limit)) && !Detour(t, [], limit)
  {
    assert Lift([]) == [];
  }

  lemma PrefixLands(t: Tree, at: Location, rest: Path, budget: nat, n: nat)
    requires n <= |rest| && Land(t, at, rest, budget).Some?
    ensures Land(t, at, rest[..n], budget).Some?
  {
    assert rest == rest[..n] + rest[n..];
    LandThrough(t, at, rest[..n], rest[n..], budget);
  }

  lemma {:induction false} StaysTogether(t: Tree, at: Location, rest: Path, budget: nat, limit: nat, n: nat)
    requires WellFormed(t) && at !in t && at != [] && Physical(t, Up(at)) && t[Up(at)].Dir? && budget <= limit
    requires n <= |rest| && Land(t, at, rest, budget).Some? && NoDetour(t, at, rest, limit)
    ensures Together(t, at, rest, budget, limit, n)
    decreases n
  {
    hide WellFormed, Physical, Land, Normalize, Detour, Together;
    if n == 0 {
      NothingFollowed(t, at, rest, budget, limit);
    } else {
      StaysTogether(t, at, rest, budget, limit, n - 1);
      PrefixLands(t, at, rest, budget, n);
      if rest[n - 1].Parent? {
        ParentTogether(t, at, rest, budget, limit, n - 1);
      } else {
        NameTogether(t, at, rest, budget, limit, n - 1);
      }
    }
  }

  /** Up to the first `n` components that all agree, the lexical place keeps its links as well. */
  lemma {:induction false} SamePlacesKeepLinks(t: Tree, at: Location, rest: Path, budget: nat, limit: nat, n: nat)
    requires WellFormed(t) && at !in t && at != [] && Physical(t, Up(at)) && t[Up(at)].Dir? && budget <= limit
    requires n <= |rest| && Land(t, at, rest, budget).Some?
    requires forall k | 0 <= k <= n :: SamePlace(t, at, rest, budget, limit, k)
    ensures Together(t, at, rest, budget, limit, n)
    ensures forall i | 0 <= i < n && rest[i].Parent? :: !Detour(t, Normalize(at, rest[..i]), limit)
    decreases n
  {
    hide WellFormed, Physical, Land, Normalize, Detour, Together, SamePlace;
    if n == 0 {
      NothingFollowed(t, at, rest, budget, limit);
    } else {
      SamePlacesKeepLinks(t, at, rest, budget, limit, n - 1);
      PrefixLands(t, at, rest, budget, n);
      if rest[n - 1].Parent? {
        ParentTogether(t, at, rest, budget, limit, n - 1);
      } else {
        NameTogether(t, at, rest, budget, limit, n - 1);
      }
    }
  }

  /** Going on lexically from a missing component leads, component by component, to the places
      creation leads to exactly when no parent step cancels a link that leads elsewhere. */
  lemma LexicalStepExact(t: Tree, at: Location, rest: Path, budget: nat, limit: nat)
    requires WellFormed(t) && at !in t && at != [] && Physical(t, Up(at)) && t[Up(at)].Dir? && budget <= limit
    requires Land(t, at, rest, budget).Some?
    ensures (forall n | 0 <= n <= |rest| :: SamePlace(t, at, rest, budget, limit, n)) <==> NoDetour(t, at, rest, limit)
  {
    hide WellFormed, Physical, Land, Normalize, Detour, SamePlace;
    if NoDetour(t, at, rest, limit) {
      forall n | 0 <= n <= |rest| ensures SamePlace(t, at, rest, budget, limit, n) {
        StaysTogether(t, at, rest, budget, limit, n);
        WeakenTogether(t, at, rest, budget, limit, n);
      }
    } else if forall n | 0 <= n <= |rest| :: SamePlace(t, at, rest, budget, limit, n) {
      SamePlacesKeepLinks(t, at, rest, budget, limit, |rest|);
    }
  }

  lemma WeakenTogether(t: Tree, at: Location, rest: Path, budget: nat, limit: nat, n: nat)
    requires Together(t, at, rest, budget, limit, n)
    ensures SamePlace(t, at, rest, budget, limit, n)
  {
  }

  // ---- the walker against creation ----------------------------------------------------

  /** Wherever the walker continues lexically on its way along the path, no parent step cancels a
      link that leads elsewhere. The links and missing components looked at are those the walker
      meets. */
  ghost predicate Straight(t: Tree, cur: Location, pending: Path, depth: nat, limit: nat)
    decreases if depth <= MAX_SYMLINK_DEPTH then MAX_SYMLINK_DEPTH - depth else 0, ParentCount(pending), |pending|
  {
    if depth >= MAX_SYMLINK_DEPTH || pending == [] then true
    else if pending[0].Parent? then Straight(t, Up(cur), pending[1..], depth, limit)
    else if cur !in t || !t[cur].Dir? then true
    else
      var candidate, rest := cur + [pending[0].name], pending[1..];
      if candidate !in t then
        NoDetour(t, candidate, rest, limit) &&
        var intent := Normalize(candidate, rest);
        (candidate <= intent ||
         (CancelledMissing(candidate, rest);
          Straight(t, [], Lift(intent), depth, limit)))
      else if t[candidate].Symlink? then
        var target := t[candidate].target;
        Straight(t, if target.absolute then [] else cur, target.components + rest, depth + 1, limit)
      else Straight(t, candidate, rest, depth, limit)
  }

  lemma StraightUnfolds(t: Tree, cur: Location, pending: Path, depth: nat, limit: nat)
    requires Physical(t, cur) && pending != [] && depth < MAX_SYMLINK_DEPTH
    ensures pending[0].Parent? ==>
              Straight(t, cur, pending, depth, limit) == Straight(t, Up(cur), pending[1..], depth, limit)
    ensures pending[0].Normal? && t[cur].Dir? && cur + [pending[0].name] in t ==>
              var candidate := cur + [pending[0].name];
              Straight(t, cur, pending, depth, limit) ==
                if t[candidate].Symlink? then
                  var target := t[candidate].target;
                  Straight(t, if target.absolute then [] else cur, target.components + pending[1..], depth + 1, limit)
                else Straight(t, candidate, pending[1..], depth, limit)
    ensures pending[0].Normal? && t[cur].Dir? && cur + [pending[0].name] !in t ==>
              var candidate := cur + [pending[0].name];
              Straight(t, cur, pending, depth, limit) == PastMissingStraight(t, candidate, pending[1..], depth, limit)
  {
    hide NoDetour;
  }

  ghost predicate PastMissingStraight(t: Tree, at: Location, rest: Path, depth: nat, limit: nat)
  {
    NoDetour(t, at, rest, limit) &&
    (at <= Normalize(at, rest) || Straight(t, [], Lift(Normalize(at, rest)), depth, limit))
  }

  lemma ParentFreeStraight(t: Tree, at: Location, rest: Path, depth: nat, limit: nat)
    requires ParentFree(rest)
    ensures PastMissingStraight(t, at, rest, depth, limit)
  {
    hide Detour;
    NormalizeParentFree(at, rest);
  }

  lemma LandUnfolds(t: Tree, cur: Location, pending: Path, budget: nat)
    requires Physical(t, cur) && pending != []
    ensures !t[cur].Dir? ==> Land(t, cur, pending, budget) == None
    ensures t[cur].Dir? && pending[0].Parent? ==>
              Land(t, cur, pending, budget) == Land(t, Up(cur), pending[1..], budget)
    ensures t[cur].Dir? && pending[0].Normal? ==>
              var candidate := cur + [pending[0].name];
              Land(t, cur, pending, budget) ==
                if candidate in t && t[candidate].Symlink? then
                  if budget == 0 then None
                  else
                    var target := t[candidate].target;
                    Land(t, if target.absolute then [] else cur, target.components + pending[1..], budget - 1)
                else Land(t, candidate, pending[1..], budget)
  {
  }

  /** Past a missing component the walker and creation come to the same place. */
  lemma MissingFindsCreation(t: Tree, at: Location, rest: Path, budget: nat, depth: nat, limit: nat)
    requires WellFormed(t) && at !in t && at != [] && Physical(t, Up(at)) && t[Up(at)].Dir? && budget <= limit
    requires Land(t, at, rest, budget).Some? && NoDetour(t, at, rest, limit) && depth < MAX_SYMLINK_DEPTH
    ensures var intent := Normalize(at, rest);
            Where(t, intent, limit).Some? && Where(t, intent, limit).value.at == Land(t, at, rest, budget).value.at &&
            (at <= intent ==>
               PastMissing(t, at, rest, depth) == Ok(intent) && Land(t, at, rest, budget).value.at == intent) &&
            (!(at <= intent) ==> PastMissing(t, at, rest, depth) == Intent(t, [], Lift(intent), depth))
  {
    hide WellFormed, Physical, Land, Normalize, NoDetour, Intent;
    LexicalPlace(t, at, rest, budget, limit);
    if at <= Normalize(at, rest) {
      LandPastMissing(t, at, Normalize(at, rest), limit);
    }
  }

  lemma NothingIsStraight(t: Tree, cur: Location, pending: Path, depth: nat, limit: nat)
    requires pending == [] || depth >= MAX_SYMLINK_DEPTH
    ensures Straight(t, cur, pending, depth, limit)
  {
  }

  /** On a straight path the location the walker accepts is the one creation reaches. */
  lemma {:induction false} WalkerFindsCreation(t: Tree, cur: Location, pending: Path, budget: nat, depth: nat,
                                               limit: nat)
    requires WellFormed(t) && Physical(t, cur) && budget <= limit && Straight(t, cur, pending, depth, limit)
    ensures Intent(t, cur, pending, depth).Ok? && Land(t, cur, pending, budget).Some? ==>
              Intent(t, cur, pending, depth).value == Land(t, cur, pending, budget).value.at
    decreases if depth <= MAX_SYMLINK_DEPTH then MAX_SYMLINK_DEPTH - depth else 0, ParentCount(pending), |pending|
  {
    UpIsDirectory(t, cur);
    UpIsDirectory(t, []);
    hide WellFormed, NoDetour, Lift, Normalize, Intent, Land, Straight, PastMissing, Where;
    if depth >= MAX_SYMLINK_DEPTH {
      LimitReached(t);
    } else if pending == [] {
      NothingPending(t, cur, depth);
      NothingLands(t, cur, budget);
    } else if Land(t, cur, pending, budget).Some? {
      IntentUnfolds(t, cur, pending, depth);
      LandUnfolds(t, cur, pending, budget);
      StraightUnfolds(t, cur, pending, depth, limit);
      var rest := pending[1..];
      if pending[0].Parent? {
        WalkerFindsCreation(t, Up(cur), rest, budget, depth, limit);
      } else {
        var candidate := cur + [pending[0].name];
        assert Up(candidate) == cur;
        if candidate !in t {
          MissingFindsCreation(t, candidate, rest, budget, depth, limit);
          if !(candidate <= Normalize(candidate, rest)) {
            CancelledMissing(candidate, rest);
            WhereIsLanding(t, Normalize(candidate, rest), limit);
            WalkerFindsCreation(t, [], Lift(Normalize(candidate, rest)), limit, depth, limit);
          }
        } else if t[candidate].Symlink? {
          var target := t[candidate].target;
          var base := if target.absolute then [] else cur;
          WalkerFindsCreation(t, base, target.components + rest, budget - 1, depth + 1, limit);
        } else {
          WalkerFindsCreation(t, candidate, rest, budget, depth, limit);
        }
      }
    }
  }

  lemma NothingLands(t: Tree, cur: Location, budget: nat)
    ensures Land(t, cur, [], budget) == Some(Landing(cur, budget))
  {
  }

  lemma WhereIsLanding(t: Tree, at: Location, limit: nat)
    ensures Where(t, at, limit) == Land(t, [], Lift(at), limit)
  {
  }

  /** Wherever the walker continues lexically on its way, also on the paths it starts again with, the
      place it has got to is the place creation gets to, at every component. */
  ghost predicate KeepsUp(t: Tree, cur: Location, pending: Path, budget: nat, depth: nat, limit: nat)
    decreases if depth <= MAX_SYMLINK_DEPTH then MAX_SYMLINK_DEPTH - depth else 0, ParentCount(pending), |pending|
  {
    if depth >= MAX_SYMLINK_DEPTH || pending == [] then true
    else if pending[0].Parent? then KeepsUp(t, Up(cur), pending[1..], budget, depth, limit)
    else if cur !in t || !t[cur].Dir? then true
    else
      var candidate, rest := cur + [pending[0].name], pending[1..];
      if candidate !in t then
        SamePlaces(t, candidate, rest, budget, limit) &&
        var intent := Normalize(candidate, rest);
        (candidate <= intent ||
         (CancelledMissing(candidate, rest);
          KeepsUp(t, [], Lift(intent), limit, depth, limit)))
      else if t[candidate].Symlink? then
        var target := t[candidate].target;
        budget > 0 &&
        KeepsUp(t, if target.absolute then [] else cur, target.components + rest, budget - 1, depth + 1, limit)
      else KeepsUp(t, candidate, rest, budget, depth, limit)
  }

  ghost predicate SamePlaces(t: Tree, at: Location, rest: Path, budget: nat, limit: nat)
  {
    forall n | 0 <= n <= |rest| :: SamePlace(t, at, rest, budget, limit, n)
  }

  lemma KeepsUpUnfolds(t: Tree, cur: Location, pending: Path, budget: nat, depth: nat, limit: nat)
    requires Physical(t, cur) && pending != [] && depth < MAX_SYMLINK_DEPTH
    ensures pending[0].Parent? ==>
              KeepsUp(t, cur, pending, budget, depth, limit) == KeepsUp(t, Up(cur), pending[1..], budget, depth, limit)
    ensures pending[0].Normal? && t[cur].Dir? && cur + [pending[0].name] in t ==>
              var candidate := cur + [pending[0].name];
              KeepsUp(t, cur, pending, budget, depth, limit) ==
                if t[candidate].Symlink? then
                  var target := t[candidate].target;
                  budget > 0 &&
                  KeepsUp(t, if target.absolute then [] else cur, target.components + pending[1..], budget - 1,
                          depth + 1, limit)
                else KeepsUp(t, candidate, pending[1..], budget, depth, limit)
    ensures pending[0].Normal? && t[cur].Dir? && cur + [pending[0].name] !in t ==>
              var at, rest := cur + [pending[0].name], pending[1..];
              KeepsUp(t, cur, pending, budget, depth, limit) ==
                (SamePlaces(t, at, rest, budget, limit) &&
                 (at <= Normalize(at, rest) || KeepsUp(t, [], Lift(Normalize(at, rest)), limit, depth, limit)))
  {
    hide SamePlaces;
  }

  lemma NothingKeepsUp(t: Tree, cur: Location, pending: Path, budget: nat, depth: nat, limit: nat)
    requires pending == [] || depth >= MAX_SYMLINK_DEPTH
    ensures KeepsUp(t, cur, pending, budget, depth, limit)
  {
  }

  /** For every tree and path that can be created: the walker keeps up with creation, through links,
      missing components and all its restarts, if and only if the path is straight. */
  lemma {:induction false} KeepsUpExactlyWhen(t: Tree, cur: Location, pending: Path, budget: nat, depth: nat,
                                              limit: nat)
    requires WellFormed(t) && Physical(t, cur) && budget <= limit && Land(t, cur, pending, budget).Some?
    ensures KeepsUp(t, cur, pending, budget, depth, limit) <==> Straight(t, cur, pending, depth, limit)
    decreases if depth <= MAX_SYMLINK_DEPTH then MAX_SYMLINK_DEPTH - depth else 0, ParentCount(pending), |pending|
  {
    UpIsDirectory(t, cur);
    UpIsDirectory(t, []);
    hide WellFormed, NoDetour, Lift, Normalize, Land, Straight, KeepsUp, SamePlaces, SamePlace, Where;
    if depth >= MAX_SYMLINK_DEPTH || pending == [] {
      NothingKeepsUp(t, cur, pending, budget, depth, limit);
      NothingIsStraight(t, cur, pending, depth, limit);
    } else {
      LandUnfolds(t, cur, pending, budget);
      StraightUnfolds(t, cur, pending, depth, limit);
      KeepsUpUnfolds(t, cur, pending, budget, depth, limit);
      var rest := pending[1..];
      if pending[0].Parent? {
        KeepsUpExactlyWhen(t, Up(cur), rest, budget, depth, limit);
      } else {
        var candidate := cur + [pending[0].name];
        assert Up(candidate) == cur;
        if candidate !in t {
          LexicalStepExact(t, candidate, rest, budget, limit);
          SamePlacesAre(t, candidate, rest, budget, limit);
          if NoDetour(t, candidate, rest, limit) && !(candidate <= Normalize(candidate, rest)) {
            LexicalPlace(t, candidate, rest, budget, limit);
            CancelledMissing(candidate, rest);
            WhereIsLanding(t, Normalize(candidate, rest), limit);
            KeepsUpExactlyWhen(t, [], Lift(Normalize(candidate, rest)), limit, depth, limit);
          }
        } else if t[candidate].Symlink? {
          var target := t[candidate].target;
          var base := if target.absolute then [] else cur;
          KeepsUpExactlyWhen(t, base, target.components + rest, budget - 1, depth + 1, limit);
        } else {
          KeepsUpExactlyWhen(t, candidate, rest, budget, depth, limit);
        }
      }
    }
  }

  lemma SamePlacesAre(t: Tree, at: Location, rest: Path, budget: nat, limit: nat)
    ensures SamePlaces(t, at, rest, budget, limit) <==>
            forall n | 0 <= n <= |rest| :: SamePlace(t, at, rest, budget, limit, n)
  {
  }

  lemma LexicalPlace(t: Tree, at: Location, rest: Path, budget: nat, limit: nat)
    requires WellFormed(t) && at !in t && at != [] && Physical(t, Up(at)) && t[Up(at)].Dir? && budget <= limit
    requires Land(t, at, rest, budget).Some? && NoDetour(t, at, rest, limit)
    ensures var lexical := Where(t, Normalize(at, rest), limit);
            lexical.Some? && lexical.value.at == Land(t, at, rest, budget).value.at
  {
    hide WellFormed, Physical, Land, Normalize, Detour, NoDetour;
    StaysTogether(t, at, rest, budget, limit, |rest|);
    assert rest[..|rest|] == rest;
  }

  /** The walker goes on from a missing component to the places creation leads to, for each further
      component, exactly when no parent step cancels a link that leads elsewhere: provided that it
      accepts those places and, where it starts again for them, its path is straight. */
  lemma WalkerMatchesCreation(t: Tree, at: Location, rest: Path, budget: nat, depth: nat, limit: nat)
    requires WellFormed(t) && at !in t && at != [] && Physical(t, Up(at)) && t[Up(at)].Dir? && budget <= limit
    requires Land(t, at, rest, budget).Some?
    requires forall n | 0 <= n <= |rest| :: Resumes(t, at, rest, depth, limit, n)
    ensures AgreeThroughout(t, at, rest, budget, depth) <==> NoDetour(t, at, rest, limit)
  {
    hide WellFormed, Physical, Land, NoDetour, SamePlace, Resumes, WalkerAgrees;
    LexicalStepExact(t, at, rest, budget, limit);
    forall n | 0 <= n <= |rest|
      ensures SamePlace(t, at, rest, budget, limit, n) ==> WalkerAgrees(t, at, rest, budget, depth, n)
      ensures WalkerAgrees(t, at, rest, budget, depth, n) ==> SamePlace(t, at, rest, budget, limit, n)
    {
      PrefixLands(t, at, rest, budget, n);
      ResumedPlace(t, at, rest, budget, depth, limit, n);
    }
  }

  /** The walker accepts a place for the first `n` components, on a straight path. */
  ghost predicate Resumes(t: Tree, at: Location, rest: Path, depth: nat, limit: nat, n: nat)
  {
    n <= |rest| && PastMissing(t, at, rest[..n], depth).Ok? &&
    Where(t, Normalize(at, rest[..n]), limit).Some? &&
    Straight(t, [], Lift(Normalize(at, rest[..n])), depth, limit)
  }

  ghost predicate WalkerAgrees(t: Tree, at: Location, rest: Path, budget: nat, depth: nat, n: nat)
  {
    n <= |rest| && Land(t, at, rest[..n], budget).Some? &&
    PastMissing(t, at, rest[..n], depth) == Ok(Land(t, at, rest[..n], budget).value.at)
  }

  ghost predicate AgreeThroughout(t: Tree, at: Location, rest: Path, budget: nat, depth: nat)
  {
    forall n | 0 <= n <= |rest| :: WalkerAgrees(t, at, rest, budget, depth, n)
  }

  lemma ResumedPlace(t: Tree, at: Location, rest: Path, budget: nat, depth: nat, limit: nat, n: nat)
    requires WellFormed(t) && at !in t && at != [] && Physical(t, Up(at)) && t[Up(at)].Dir?
    requires Resumes(t, at, rest, depth, limit, n) && Land(t, at, rest[..n], budget).Some?
    ensures SamePlace(t, at, rest, budget, limit, n) <==> WalkerAgrees(t, at, rest, budget, depth, n)
  {
    RootIsPhysical(t);
    hide WellFormed, Physical, Land, Straight, Intent, Normalize, Lift;
    var intent := Normalize(at, rest[..n]);
    if at <= intent {
      LandPastMissing(t, at, intent, limit);
    } else {
      WalkerFindsCreation(t, [], Lift(intent), limit, depth, limit);
    }
  }

  /** Without a parent step after the first missing component, a path is straight. */
  lemma {:induction false} NoParentIsStraight(t: Tree, cur: Location, pending: Path, budget: nat, followed: nat,
                                              depth: nat, limit: nat)
    requires WellFormed(t) && Physical(t, cur)
    requires var o := Walk(t, cur, pending, budget, followed); o.At? || (o.Missing? && ParentFree(o.rest))
    ensures Straight(t, cur, pending, depth, limit)
    decreases budget, |pending|
  {
    UpIsDirectory(t, cur);
    UpIsDirectory(t, []);
    hide WellFormed, Straight, PastMissingStraight;
    if depth >= MAX_SYMLINK_DEPTH || pending == [] {
      NothingIsStraight(t, cur, pending, depth, limit);
    } else {
      StraightUnfolds(t, cur, pending, depth, limit);
      if pending[0].Parent? {
        NoParentIsStraight(t, Up(cur), pending[1..], budget, followed, depth, limit);
      } else {
        var candidate, rest := cur + [pending[0].name], pending[1..];
        if candidate in t && t[candidate].Symlink? {
          var target := t[candidate].target;
          var base := if target.absolute then [] else cur;
          NoParentIsStraight(t, base, target.components + rest, budget - 1, followed + 1, depth + 1, limit);
        } else if candidate in t {
          NoParentIsStraight(t, candidate, rest, budget, followed, depth, limit);
        } else {
          ParentFreeStraight(t, candidate, rest, depth, limit);
        }
      }
    }
  }

  // ---- a link cancelled after a missing component -------------------------------------

  /** Two directories and a link from the first into the second. */
  function LinkedTree(): Tree
  {
    map[[] := Dir, ["w"] := Dir, ["w", "l"] := Symlink(Target(true, [Normal("o"), Normal("d")])),
        ["o"] := Dir, ["o", "d"] := Dir]
  }

  /** /w/m/../l/.. with /w/m missing. */
  function DetourPath(): Path
  {
    [Normal("w"), Normal("m"), Parent, Normal("l"), Parent]
  }

  lemma LinkedTreeIsWellFormed()
    ensures WellFormed(LinkedTree())
  {
    forall at | at in LinkedTree() && at != [] ensures Up(at) in LinkedTree() && LinkedTree()[Up(at)].Dir? {
      assert at == ["w"] || at == ["w", "l"] || at == ["o"] || at == ["o", "d"];
      assert Up(["w"]) == [] && Up(["w", "l"]) == ["w"] && Up(["o"]) == [] && Up(["o", "d"]) == ["o"];
    }
  }

  lemma DetourResolves(rest: Path)
    ensures Walk(LinkedTree(), [], DetourPath() + rest, 40, 0) ==
              Missing(["w", "m"], [Parent, Normal("l"), Parent] + rest, 0)
  {
    hide Walk;
    var t, tail := LinkedTree(), [Parent, Normal("l"), Parent] + rest;
    assert [] + ["w"] == ["w"] && ["w"] + ["m"] == ["w", "m"];
    assert DetourPath() + rest == [Normal("w")] + ([Normal("m")] + tail);
    WalkName(t, [], "w", [Normal("m")] + tail, 40, 0);
    WalkMissing(t, ["w"], "m", tail, 40, 0);
  }

  lemma WalkMissing(t: Tree, cur: Location, name: Name, rest: Path, budget: nat, followed: nat)
    requires cur in t && t[cur].Dir? && cur + [name] !in t
    ensures Walk(t, cur, [Normal(name)] + rest, budget, followed) == Missing(cur + [name], rest, followed)
  {
    assert ([Normal(name)] + rest)[1..] == rest;
  }

  lemma LandLink(t: Tree, cur: Location, name: Name, rest: Path, budget: nat)
    requires cur in t && t[cur].Dir? && cur + [name] in t && t[cur + [name]].Symlink? && budget > 0
    ensures var target := t[cur + [name]].target;
            Land(t, cur, [Normal(name)] + rest, budget) ==
              Land(t, if target.absolute then [] else cur, target.components + rest, budget - 1)
  {
    assert ([Normal(name)] + rest)[1..] == rest;
  }

  lemma LandParent(t: Tree, cur: Location, rest: Path, budget: nat)
    requires cur in t ==> t[cur].Dir?
    ensures Land(t, cur, [Parent] + rest, budget) == Land(t, Up(cur), rest, budget)
  {
    assert ([Parent] + rest)[1..] == rest;
  }

  lemma LinkLands(rest: Path)
    ensures Land(LinkedTree(), ["w"], [Normal("l"), Parent] + rest, 40) == Land(LinkedTree(), ["o"], rest, 39)
  {
    hide Land;
    var t, more := LinkedTree(), [Parent] + rest;
    assert [Normal("l"), Parent] + rest == [Normal("l")] + more && ["w"] + ["l"] == ["w", "l"];
    LandLink(t, ["w"], "l", more, 40);
    assert [Normal("o"), Normal("d")] + more == [Normal("o")] + ([Normal("d")] + more);
    assert [] + ["o"] == ["o"] && ["o"] + ["d"] == ["o", "d"] && Up(["o", "d"]) == ["o"];
    LandName(t, [], "o", [Normal("d")] + more, 39);
    LandName(t, ["o"], "d", more, 39);
    LandParent(t, ["o", "d"], rest, 39);
  }

  lemma DetourLands(rest: Path)
    ensures Land(LinkedTree(), [], DetourPath() + rest, 40) == Land(LinkedTree(), ["o"], rest, 39)
  {
    hide Land;
    var t, tail := LinkedTree(), [Normal("l"), Parent] + rest;
    assert [] + ["w"] == ["w"] && ["w"] + ["m"] == ["w", "m"] && Up(["w", "m"]) == ["w"];
    assert DetourPath() + rest == [Normal("w")] + ([Normal("m")] + ([Parent] + tail));
    LandName(t, [], "w", [Normal("m")] + ([Parent] + tail), 40);
    LandName(t, ["w"], "m", [Parent] + tail, 40);
    LandParent(t, ["w", "m"], tail, 40);
    LinkLands(rest);
  }

  lemma DetourNormalizes(rest: Path)
    ensures Normalize(["w", "m"], [Parent, Normal("l"), Parent] + rest) == Normalize(["w"], rest)
  {
    var more := [Normal("l"), Parent] + rest;
    assert ([Parent, Normal("l"), Parent] + rest)[1..] == more && more[1..] == [Parent] + rest &&
           ([Parent] + rest)[1..] == rest;
    assert Up(["w", "m"]) == ["w"] && ["w"] + ["l"] == ["w", "l"] && Up(["w", "l"]) == ["w"];
    assert Normalize(["w", "l"], [Parent] + rest) == Normalize(["w"], rest);
    assert Normalize(["w"], more) == Normalize(["w"], rest);
  }

  /** The walker starts again on the lexical remainder of such a path, creation on what is left of it
      in the directory of the link's end. */
  lemma DetourBothWays(rest: Path, intent: Location)
    requires intent == Normalize(["w"], rest) && !(["w", "m"] <= intent)
    ensures Intent(LinkedTree(), [], DetourPath() + rest, 0) == Intent(LinkedTree(), [], Lift(intent), 0)
    ensures var z, made := Land(LinkedTree(), ["o"], rest, 39), Create(LinkedTree(), [], DetourPath() + rest, 40);
            z.Some? ==> made.Made? && made.at == z.value.at
  {
    hide Intent, Walk, Land, Create, Normalize, LinkedTree, DetourPath, Lift, WellFormed;
    LinkedTreeIsWellFormed();
    RootIsPhysical(LinkedTree());
    DetourResolves(rest);
    DetourNormalizes(rest);
    IntentRefinesResolution(LinkedTree(), [], DetourPath() + rest, 40, 0, 0);
    DetourLands(rest);
    GrownFromItself(LinkedTree());
    CreateLands(LinkedTree(), LinkedTree(), [], DetourPath() + rest, 40);
  }

  lemma GrownFromItself(t: Tree)
    requires WellFormed(t)
    ensures Grown(t, t) && [] in t
  {
  }

  /** For /w/m/../l/../x the walker proves /w/x, as it cancels the link lexically; creation makes
      /w/m, follows the link and ends at /o/x. */
  lemma DetourMovesCreation()
    ensures Intent(LinkedTree(), [], DetourPath() + [Normal("x")], 0) == Ok(["w", "x"])
    ensures var made := Create(LinkedTree(), [], DetourPath() + [Normal("x")], 40); made.Made? && made.at == ["o", "x"]
  {
    hide Intent, Create, DetourPath;
    var rest: Path := [Normal("x")];
    var next: Location := ["w", "x"];
    assert ["w"] + ["x"] == next && rest[1..] == [] && ["o"] + ["x"] == ["o", "x"];
    assert Normalize(next, []) == next;
    assert Normalize(["w"], rest) == next;
    assert next[1] == "x";
    DetourBothWays(rest, next);
    StraightDown();
    assert Land(LinkedTree(), ["o"], rest, 39) == Some(Landing(["o", "x"], 39));
  }

  lemma StraightDown()
    ensures Intent(LinkedTree(), [], Lift(["w", "x"]), 0) == Ok(["w", "x"])
  {
    var t, path := LinkedTree(), Lift(["w", "x"]);
    assert [] + ["w"] == ["w"] && ["w"] + ["x"] == ["w", "x"];
    assert path[1..] == [Normal("x")] && [Normal("x")][1..] == [];
    assert Normalize(["w", "x"], []) == ["w", "x"];
    assert Intent(t, ["w"], [Normal("x")], 0) == Ok(["w", "x"]);
  }

  /** A later component can lead both back to one place: /w/m/../l/../../x is /x for the walker and
      for creation. On the way they differ all the same, so the condition is about the way and
      cannot be read off its two ends. */
  lemma DetourCanRejoin()
    ensures !NoDetour(LinkedTree(), ["w", "m"], [Parent, Normal("l"), Parent, Parent, Normal("x")], 40)
    ensures Intent(LinkedTree(), [], DetourPath() + [Parent, Normal("x")], 0) == Ok(["x"])
    ensures var made := Create(LinkedTree(), [], DetourPath() + [Parent, Normal("x")], 40);
            made.Made? && made.at == ["x"]
  {
    hide Intent, Create, DetourPath, NoDetour;
    var rest: Path := [Parent, Normal("x")];
    var next: Location := ["x"];
    assert rest[1..] == [Normal("x")] && [Normal("x")][1..] == [] && Up(["w"]) == [] && Up(["o"]) == [];
    assert [] + ["x"] == next;
    assert Normalize(next, []) == next;
    assert Normalize([], [Normal("x")]) == next;
    DetourBothWays(rest, next);
    StraightToX();
    assert Land(LinkedTree(), [], [Normal("x")], 39) == Some(Landing(next, 39));
    DetourOnTheWay();
  }

  lemma StraightToX()
    ensures Intent(LinkedTree(), [], Lift(["x"]), 0) == Ok(["x"])
  {
    assert [] + ["x"] == ["x"] && Lift(["x"])[1..] == [];
    assert Normalize(["x"], []) == ["x"];
  }

  lemma DetourOnTheWay()
    ensures !NoDetour(LinkedTree(), ["w", "m"], [Parent, Normal("l"), Parent, Parent, Normal("x")], 40)
  {
    hide Detour, LinkedTree;
    DetourOfLink();
    var rest := [Parent, Normal("l"), Parent, Parent, Normal("x")];
    assert rest[..2] == [Parent, Normal("l")] && rest[..2][1..] == [Normal("l")] && [Normal("l")][1..] == [];
    assert Up(["w", "m"]) == ["w"] && ["w"] + ["l"] == ["w", "l"];
    assert Normalize(["w"], [Normal("l")]) == Normalize(["w", "l"], []);
    assert rest[2].Parent? && Normalize(["w", "m"], rest[..2]) == ["w", "l"];
  }

  lemma DetourOfLink()
    ensures Detour(LinkedTree(), ["w", "l"], 40)
  {
    hide Land;
    var t, none := LinkedTree(), [];
    LinkedTreeIsWellFormed();
    assert Up(["w", "l"]) == ["w"] && ["w"] + ["l"] == ["w", "l"];
    assert Lift(["w"]) == Lift(["w"]) + none;
    LandPhysical(t, ["w"], none, 40);
    NothingLands(t, ["w"], 40);
    WhereChild(t, ["w"], "l", 40);
    assert [Normal("l")] == [Normal("l")] + none && [Normal("d")] == [Normal("d")] + none;
    LandLink(t, ["w"], "l", none, 40);
    assert [Normal("o"), Normal("d")] + none == [Normal("o")] + [Normal("d")];
    assert [] + ["o"] == ["o"] && ["o"] + ["d"] == ["o", "d"] && Up(["o", "d"]) == ["o"];
    LandName(t, [], "o", [Normal("d")], 39);
    LandName(t, ["o"], "d", none, 39);
    NothingLands(t, ["o", "d"], 39);
  }
}
