/** Removing archived originals, so that a crash at any point can be resumed
    (scripts/maintenance/archive-blueprint-evidence.py). */
module EvidencePrune {
  import opened Wrappers

  type Name = string

  /** A path below the source root. */
  type Rel = seq<Name>

  /** What identifies an entry: for a directory its type alone, otherwise type, size, hash, mode,
      time and link target. */
  datatype Kind = Directory | Leaf(identity: string)

  type Tree = map<Rel, Kind>

  datatype Manifest = Manifest(selection: seq<Rel>, members: seq<(Rel, Kind)>)

  /** The durable authorization to remove the members of one verified archive. */
  datatype Receipt = Receipt(manifest: Manifest, pruned: bool, removed: seq<Rel>)

  predicate IsMember(m: Manifest, p: Rel)
  {
    exists i :: 0 <= i < |m.members| && m.members[i].0 == p
  }

  predicate Selected(m: Manifest, p: Rel)
  {
    exists i :: 0 <= i < |m.selection| && m.selection[i] <= p
  }

  predicate ValidName(n: Name)
  {
    n != "" && n != "." && n != ".." && '/' !in n
  }

  predicate ValidPath(p: Rel)
  {
    p != [] && forall k | 0 <= k < |p| :: ValidName(p[k])
  }

  predicate DistinctMembers(members: seq<(Rel, Kind)>)
  {
    forall i, j | 0 <= i < j < |members| :: members[i].0 != members[j].0
  }

  predicate SelectionValid(selection: seq<Rel>)
  {
    selection != [] && (forall i | 0 <= i < |selection| :: ValidPath(selection[i])) &&
    forall i, j | 0 <= i < j < |selection| :: selection[i] != selection[j]
  }

  predicate MembersValid(m: Manifest)
  {
    m.members != [] && DistinctMembers(m.members) &&
    forall i | 0 <= i < |m.members| :: ValidPath(m.members[i].0) && Selected(m, m.members[i].0)
  }

  /** A member with another one below it is a directory. */
  predicate NestingValid(members: seq<(Rel, Kind)>)
  {
    forall i, j | 0 <= i < |members| && 0 <= j < |members| && members[i].0 < members[j].0 :: members[i].1.Directory?
  }

  /** What validate_inventory asks for. */
  predicate Valid(m: Manifest)
  {
    SelectionValid(m.selection) && MembersValid(m) && NestingValid(m.members) &&
    forall i | 0 <= i < |m.selection| :: IsMember(m, m.selection[i])
  }

  /** The names of a path below the root: none is empty, a dot or a double dot, or has a slash. */
  predicate PlainPath(p: Rel)
  {
    |p| > 0 && forall n | n in p :: n !in {"", ".", ".."} && forall c | c in n :: c != '/'
  }

  predicate UnderSome(selection: seq<Rel>, p: Rel)
  {
    exists root :: root in selection && root <= p
  }

  /** The inventories that are accepted: some paths are selected and each is a member, all paths are plain, each
      member is at or below a selected path, no path comes twice, and what has a member below it is a directory. */
  ghost predicate GoodInventory(m: Manifest)
  {
    m.selection != [] && (forall root | root in m.selection :: PlainPath(root) && HasMember(m.members, root)) &&
    Distinct(m.selection) &&
    (forall x | x in m.members :: PlainPath(x.0) && UnderSome(m.selection, x.0)) &&
    (forall i, j | 0 <= i < j < |m.members| :: m.members[i].0 != m.members[j].0) &&
    (forall x, y | x in m.members && y in m.members && x.0 < y.0 :: x.1.Directory?)
  }

  predicate HasMember(members: seq<(Rel, Kind)>, p: Rel)
  {
    exists x :: x in members && x.0 == p
  }

  lemma PathExactly(p: Rel)
    ensures ValidPath(p) <==> PlainPath(p)
  {
    if ValidPath(p) {
      forall n | n in p ensures n !in {"", ".", ".."} && forall c | c in n :: c != '/' {
        var k :| 0 <= k < |p| && p[k] == n;
        assert ValidName(p[k]);
      }
    }
    if PlainPath(p) {
      forall k | 0 <= k < |p| ensures ValidName(p[k]) { assert p[k] in p; }
    }
  }

  lemma MemberExactly(m: Manifest, p: Rel)
    ensures IsMember(m, p) <==> HasMember(m.members, p)
  {
    if IsMember(m, p) {
      var i :| 0 <= i < |m.members| && m.members[i].0 == p;
      assert m.members[i] in m.members;
    }
  }

  lemma SelectedExactly(m: Manifest, p: Rel)
    ensures Selected(m, p) <==> UnderSome(m.selection, p)
  {
    if Selected(m, p) {
      var i :| 0 <= i < |m.selection| && m.selection[i] <= p;
      assert m.selection[i] in m.selection;
    }
  }

  lemma InventoryExactlyWhen(m: Manifest)
    ensures Valid(m) <==> GoodInventory(m)
  {
    hide ValidPath, PlainPath, IsMember, HasMember, Selected, UnderSome;
    forall p ensures ValidPath(p) <==> PlainPath(p) { PathExactly(p); }
    forall p ensures IsMember(m, p) <==> HasMember(m.members, p) { MemberExactly(m, p); }
    forall p ensures Selected(m, p) <==> UnderSome(m.selection, p) { SelectedExactly(m, p); }
    if Valid(m) { ValidIsGood(m); }
    if GoodInventory(m) { GoodIsValid(m); }
  }

  lemma ValidIsGood(m: Manifest)
    requires Valid(m)
    requires forall p :: ValidPath(p) <==> PlainPath(p)
    requires forall p :: IsMember(m, p) <==> HasMember(m.members, p)
    requires forall p :: Selected(m, p) <==> UnderSome(m.selection, p)
    ensures GoodInventory(m)
  {
    hide ValidPath, PlainPath, IsMember, HasMember, Selected, UnderSome;
    forall root | root in m.selection ensures PlainPath(root) && HasMember(m.members, root) {
      var i :| 0 <= i < |m.selection| && m.selection[i] == root;
      assert ValidPath(m.selection[i]) && IsMember(m, m.selection[i]);
    }
    forall x | x in m.members ensures PlainPath(x.0) && UnderSome(m.selection, x.0) {
      var i :| 0 <= i < |m.members| && m.members[i] == x;
      assert ValidPath(m.members[i].0);
    }
    forall x, y | x in m.members && y in m.members && x.0 < y.0 ensures x.1.Directory? {
      var i :| 0 <= i < |m.members| && m.members[i] == x;
      var j :| 0 <= j < |m.members| && m.members[j] == y;
      assert m.members[i].0 < m.members[j].0;
    }
  }

  lemma GoodIsValid(m: Manifest)
    requires GoodInventory(m)
    requires forall p :: ValidPath(p) <==> PlainPath(p)
    requires forall p :: IsMember(m, p) <==> HasMember(m.members, p)
    requires forall p :: Selected(m, p) <==> UnderSome(m.selection, p)
    ensures Valid(m)
  {
    hide ValidPath, PlainPath, IsMember, Selected, UnderSome;
    forall i | 0 <= i < |m.selection| ensures ValidPath(m.selection[i]) && IsMember(m, m.selection[i]) {
      assert m.selection[i] in m.selection;
    }
    forall i | 0 <= i < |m.members| ensures ValidPath(m.members[i].0) && Selected(m, m.members[i].0) {
      assert m.members[i] in m.members;
    }
    forall i, j | 0 <= i < |m.members| && 0 <= j < |m.members| && m.members[i].0 < m.members[j].0
      ensures m.members[i].1.Directory?
    {
      assert m.members[i] in m.members && m.members[j] in m.members;
    }
    SomeMember(m);
  }

  lemma SomeMember(m: Manifest)
    requires GoodInventory(m)
    ensures m.members != []
  {
    hide PlainPath, UnderSome;
    assert m.selection[0] in m.selection;
  }

  method CheckMembers(m: Manifest) returns (ok: bool, seen: set<Rel>)
    ensures ok <==> MembersValid(m)
    ensures ok ==> forall p :: p in seen <==> IsMember(m, p)
  {
    hide ValidPath, Selected;
    seen := {};
    for i := 0 to |m.members|
      invariant forall k | 0 <= k < i :: ValidPath(m.members[k].0) && Selected(m, m.members[k].0)
      invariant forall k, l | 0 <= k < l < i :: m.members[k].0 != m.members[l].0
      invariant seen == set k | 0 <= k < i :: m.members[k].0
    {
      var path := m.members[i].0;
      if !ValidPath(path) {
        return false, seen;
      }
      if path in seen || !Selected(m, path) {
        return false, seen;
      }
      seen := seen + {path};
    }
    ok := m.members != [];
  }

  /** validate_inventory. */
  method ValidateInventory(m: Manifest) returns (ok: bool)
    ensures ok <==> Valid(m)
    ensures ok <==> GoodInventory(m)
  {
    hide MembersValid, NestingValid, IsMember, GoodInventory;
    InventoryExactlyWhen(m);
    if m.selection == [] || m.members == [] {
      EmptyIsInvalid(m);
      return false;
    }
    for i := 0 to |m.selection|
      invariant forall k | 0 <= k < i :: ValidPath(m.selection[k])
    {
      if !ValidPath(m.selection[i]) {
        return false;
      }
    }
    if exists i, j :: 0 <= i < j < |m.selection| && m.selection[i] == m.selection[j] {
      return false;
    }
    var seen;
    ok, seen := CheckMembers(m);
    if !ok || !NestingValid(m.members) {
      return false;
    }
    ok := forall i | 0 <= i < |m.selection| :: m.selection[i] in seen;
  }

  lemma EmptyIsInvalid(m: Manifest)
    requires m.selection == [] || m.members == []
    ensures !Valid(m)
  {
  }

  // ---- the sources --------------------------------------------------------------------

  /** Every entry is in a directory. */
  predicate Closed(tree: Tree)
  {
    forall q, n: nat | q in tree && 0 < n < |q| :: q[..n] in tree && tree[q[..n]].Directory?
  }

  /** Nothing but members in the selection. */
  ghost predicate NoUnknown(tree: Tree, m: Manifest)
  {
    forall p | p in tree && Selected(m, p) :: IsMember(m, p)
  }

  ghost predicate PresentMatch(tree: Tree, m: Manifest)
  {
    forall i | 0 <= i < |m.members| && m.members[i].0 in tree :: tree[m.members[i].0] == m.members[i].1
  }

  predicate SomeMissing(tree: Tree, m: Manifest)
  {
    exists i :: 0 <= i < |m.members| && m.members[i].0 !in tree
  }

  /** check_sources: unknown entries, changed members, and members missing without a receipt are
      refused. */
  ghost predicate SourcesOk(tree: Tree, m: Manifest, authorized: bool)
  {
    NoUnknown(tree, m) && PresentMatch(tree, m) && (authorized || !SomeMissing(tree, m))
  }

  /** An entry at or below a selected path that is no member. */
  ghost predicate HasUnknown(tree: Tree, m: Manifest)
  {
    exists p :: p in tree && UnderSome(m.selection, p) && !HasMember(m.members, p)
  }

  lemma UnknownExactly(tree: Tree, m: Manifest)
    ensures HasUnknown(tree, m) <==> !NoUnknown(tree, m)
  {
    hide IsMember, HasMember, Selected, UnderSome;
    forall p ensures IsMember(m, p) <==> HasMember(m.members, p) { MemberExactly(m, p); }
    forall p ensures Selected(m, p) <==> UnderSome(m.selection, p) { SelectedExactly(m, p); }
  }

  datatype Why = NotVerified | InvalidReceipt | UnknownMember | MissingSource | ConcurrentChange

  method CheckSources(tree: Tree, m: Manifest, authorized: bool) returns (why: Option<Why>)
    ensures why.None? <==> SourcesOk(tree, m, authorized)
    ensures why == Some(UnknownMember) <==> HasUnknown(tree, m)
    ensures why == Some(MissingSource) ==> !authorized && exists x :: x in m.members && x.0 !in tree
    ensures why == Some(ConcurrentChange) ==> exists x :: x in m.members && x.0 in tree && tree[x.0] != x.1
    ensures why.None? ==>
              (forall x | x in m.members :: if x.0 in tree then tree[x.0] == x.1 else authorized) &&
              !HasUnknown(tree, m)
    ensures why.Some? ==> why.value in {UnknownMember, MissingSource, ConcurrentChange}
  {
    UnknownExactly(tree, m);
    if exists p :: p in tree && Selected(m, p) && !IsMember(m, p) {
      return Some(UnknownMember);
    }
    for i := 0 to |m.members|
      invariant forall k | 0 <= k < i && m.members[k].0 in tree :: tree[m.members[k].0] == m.members[k].1
      invariant authorized || forall k | 0 <= k < i :: m.members[k].0 in tree
    {
      var (path, kind) := m.members[i];
      assert m.members[i] in m.members;
      if path !in tree {
        if !authorized {
          return Some(MissingSource);
        }
      } else if tree[path] != kind {
        return Some(ConcurrentChange);
      }
    }
    why := None;
  }

  /** Where a run, or the crash of one, may leave things: a run from here can finish the job. Any
      member missing is covered by the durable receipt of this archive. */
  ghost predicate Resumable(tree: Tree, receipt: Option<Receipt>, m: Manifest)
  {
    Closed(tree) && NoUnknown(tree, m) && PresentMatch(tree, m) &&
    (SomeMissing(tree, m) ==> receipt.Some?) && (receipt.Some? ==> receipt.value.manifest == m)
  }

  /** In plain terms: every entry is in a directory, nothing but members is selected, what is there of them is as
      archived, members are missing only under a receipt, and the receipt is for this archive. */
  lemma ResumableExactlyWhen(tree: Tree, receipt: Option<Receipt>, m: Manifest)
    ensures Resumable(tree, receipt, m) <==>
              Closed(tree) && !HasUnknown(tree, m) &&
              (forall x | x in m.members :: if x.0 in tree then tree[x.0] == x.1 else receipt.Some?) &&
              (receipt.Some? ==> receipt.value.manifest == m)
  {
    hide Closed, NoUnknown, HasUnknown;
    UnknownExactly(tree, m);
    if Resumable(tree, receipt, m) {
      forall x | x in m.members ensures if x.0 in tree then tree[x.0] == x.1 else receipt.Some? {
        var i :| 0 <= i < |m.members| && m.members[i] == x;
        assert m.members[i].0 in tree || SomeMissing(tree, m);
      }
    }
    if forall x | x in m.members :: if x.0 in tree then tree[x.0] == x.1 else receipt.Some? {
      forall i | 0 <= i < |m.members| ensures m.members[i] in m.members {}
    }
  }

  // ---- deepest first ------------------------------------------------------------------

  predicate DeepestFirst(s: seq<(Rel, Kind)>)
  {
    forall i, j | 0 <= i < j < |s| :: |s[i].0| >= |s[j].0|
  }

  function InsertDeep(x: (Rel, Kind), s: seq<(Rel, Kind)>): (t: seq<(Rel, Kind)>)
    requires DeepestFirst(s)
    ensures DeepestFirst(t) && forall y :: y in t <==> y in s || y == x
  {
    if s == [] || |x.0| >= |s[0].0| then [x] + s
    else
      var rest := InsertDeep(x, s[1..]);
      assert forall j | 0 <= j < |rest| :: rest[j] in rest;
      [s[0]] + rest
  }

  function SortDeep(s: seq<(Rel, Kind)>): (t: seq<(Rel, Kind)>)
    ensures DeepestFirst(t) && forall y :: y in t <==> y in s
  {
    if s == [] then [] else InsertDeep(s[0], SortDeep(s[1..]))
  }

  // ---- pruning ------------------------------------------------------------------------

  datatype Outcome = Pruned | Crashed | Refused(why: Why)

  /** A removal: what was there, and the receipt on disk at the time. */
  datatype Removal = Removal(path: Rel, kind: Kind, receipt: Option<Receipt>)

  ghost predicate Authorized(e: Removal, m: Manifest)
  {
    (e.path, e.kind) in m.members && e.receipt.Some? && e.receipt.value.manifest == m
  }

  ghost predicate OnlyAuthorized(log: seq<Removal>, from: nat, m: Manifest)
  {
    forall k | from <= k < |log| :: Authorized(log[k], m)
  }

  /** The log has grown by authorized removals only. */
  ghost predicate LogGrew(before: seq<Removal>, after: seq<Removal>, m: Manifest)
  {
    |after| >= |before| && after[..|before|] == before && OnlyAuthorized(after, |before|, m)
  }

  lemma NoneAuthorized(log: seq<Removal>, m: Manifest)
    ensures LogGrew(log, log, m)
  {
  }

  lemma OneMoreAuthorized(before: seq<Removal>, log: seq<Removal>, m: Manifest, e: Removal)
    requires LogGrew(before, log, m) && Authorized(e, m)
    ensures LogGrew(before, log + [e], m)
  {
  }

  class Source {
    var tree: Tree
    var receipt: Option<Receipt>
    /** Nobody else changes the source. */
    const quiet: bool
    /** How often the process may still crash. */
    var crashes: nat
    ghost var log: seq<Removal>

    constructor (tree: Tree, receipt: Option<Receipt>, quiet: bool, crashes: nat)
      ensures this.tree == tree && this.receipt == receipt && this.quiet == quiet && this.crashes == crashes &&
              log == []
    {
      this.tree, this.receipt, this.quiet, this.crashes := tree, receipt, quiet, crashes;
      log := [];
    }

    method Outside()
      modifies `tree
      ensures quiet ==> tree == old(tree)
      ensures Closed(old(tree)) ==> Closed(tree)
    {
      if !quiet {
        var next: Tree := *;
        if Closed(next) {
          tree := next;
        }
      }
    }

    method MayCrash() returns (crashed: bool)
      modifies `crashes
      ensures crashes == old(crashes) - if crashed then 1 else 0
    {
      crashed := *;
      if crashes == 0 {
        crashed := false;
      } else if crashed {
        crashes := crashes - 1;
      }
    }
  }

  /** What one run keeps, with nobody else around: only members that matched are gone, and the next
      run can go on from here. */
  ghost predicate Kept(before: Tree, tree: Tree, m: Manifest)
  {
    (forall p | p in tree :: p in before && tree[p] == before[p]) &&
    (forall p | p in before && p !in tree :: (p, before[p]) in m.members)
  }

  /** The first n members in removal order are gone. */
  ghost predicate GoneUpTo(tree: Tree, order: seq<(Rel, Kind)>, n: nat)
    requires n <= |order|
  {
    forall i | 0 <= i < n :: order[i].0 !in tree
  }

  lemma KeptIsTransitive(a: Tree, b: Tree, c: Tree, m: Manifest)
    requires Kept(a, b, m) && Kept(b, c, m)
    ensures Kept(a, c, m)
  {
  }

  lemma DeeperComesFirst(m: Manifest, order: seq<(Rel, Kind)>, n: nat, q: Rel)
    requires IsMember(m, q) && n < |order| && |q| > |order[n].0| && DeepestFirst(order) &&
             forall y :: y in order <==> y in m.members
    ensures exists k :: 0 <= k < n && order[k].0 == q
  {
    var i :| 0 <= i < |m.members| && m.members[i].0 == q;
    assert m.members[i] in order;
    var k :| 0 <= k < |order| && order[k] == m.members[i];
    assert k < n;
  }

  /** When its turn comes a directory is empty: what is left below it would be a member, deeper, and
      removed before. */
  lemma DirectoryIsEmpty(tree: Tree, receipt: Option<Receipt>, m: Manifest, order: seq<(Rel, Kind)>, n: nat)
    requires Valid(m) && Resumable(tree, receipt, m) && n < |order| && DeepestFirst(order) && GoneUpTo(tree, order, n)
    requires forall y :: y in order <==> y in m.members
    ensures !exists q :: q in tree && order[n].0 < q
  {
    hide Valid, IsMember, Selected, Closed, PresentMatch, SomeMissing;
    assert order[n] in m.members;
    forall q | q in tree ensures !(order[n].0 < q) {
      if order[n].0 < q {
        BelowIsSelected(m, order[n], q);
        DeeperComesFirst(m, order, n, q);
      }
    }
  }

  lemma MemberIsSelected(m: Manifest, member: (Rel, Kind))
    requires Valid(m) && member in m.members
    ensures Selected(m, member.0) && member.0 != []
  {
    hide SelectionValid, NestingValid, IsMember, ValidName;
    var i :| 0 <= i < |m.members| && m.members[i] == member;
    assert ValidPath(m.members[i].0);
  }

  lemma BelowIsSelected(m: Manifest, member: (Rel, Kind), q: Rel)
    requires Valid(m) && member in m.members && member.0 <= q
    ensures Selected(m, q)
  {
    hide Valid;
    MemberIsSelected(m, member);
    var k :| 0 <= k < |m.selection| && m.selection[k] <= member.0;
    assert m.selection[k] <= q;
  }

  lemma LeavesStayClosed(tree: Tree, p: Rel)
    requires Closed(tree) && !exists q :: q in tree && p < q
    ensures Closed(tree - {p})
  {
  }

  /** Removing a matching member with nothing below it keeps a run resumable. */
  lemma RemovalKeeps(tree: Tree, receipt: Option<Receipt>, m: Manifest, p: Rel)
    requires Resumable(tree, receipt, m) && receipt.Some? && !exists q :: q in tree && p < q
    ensures Resumable(tree - {p}, receipt, m)
  {
    hide Closed, Selected, IsMember, SomeMissing;
    LeavesStayClosed(tree, p);
  }

  lemma AboveIsDirectory(tree: Tree, p: Rel, q: Rel)
    requires Closed(tree) && q in tree && p != [] && p < q
    ensures p in tree && tree[p].Directory?
  {
    var n := |p|;
    assert q[..n] == p;
  }

  lemma NothingBelowLeaves(tree: Tree, p: Rel)
    requires Closed(tree) && p != [] && p in tree && tree[p].Leaf?
    ensures !exists q :: q in tree && p < q
  {
    forall q | q in tree ensures !(p < q) {
      if p < q { AboveIsDirectory(tree, p, q); }
    }
  }

  lemma Leaving(tree: Tree, receipt: Option<Receipt>, m: Manifest, x: (Rel, Kind))
    requires x.0 != [] && x.0 in tree && tree[x.0] == x.1 && (x.1.Directory? ==> !exists q :: q in tree && x.0 < q)
    ensures Closed(tree) ==> Closed(tree - {x.0})
    ensures Resumable(tree, receipt, m) && receipt.Some? ==> Resumable(tree - {x.0}, receipt, m)
  {
    hide Closed, NoUnknown, PresentMatch, SomeMissing;
    if Closed(tree) {
      if x.1.Leaf? { NothingBelowLeaves(tree, x.0); }
      LeavesStayClosed(tree, x.0);
      if Resumable(tree, receipt, m) && receipt.Some? { RemovalKeeps(tree, receipt, m, x.0); }
    }
  }

  lemma OneMoreGone(before: Tree, tree: Tree, m: Manifest, order: seq<(Rel, Kind)>, n: nat)
    requires Kept(before, tree, m) && n < |order| && GoneUpTo(tree, order, n) && order[n] in m.members
    requires order[n].0 in tree ==> tree[order[n].0] == order[n].1
    ensures Kept(before, tree - {order[n].0}, m) && GoneUpTo(tree - {order[n].0}, order, n + 1)
  {
  }

  lemma MemberMatches(tree: Tree, receipt: Option<Receipt>, m: Manifest, x: (Rel, Kind))
    requires Resumable(tree, receipt, m) && x in m.members && x.0 in tree
    ensures tree[x.0] == x.1
  {
  }

  /** prune. Whoever else is at work, every removal is of a manifest member that matched, with this
      archive's receipt on disk. With nobody else, from any resumable state a run ends pruned or
      crashed, only removes matching members, stays resumable at every point it can crash, so that a
      directory goes only after all below it, and, if it does not crash, ends with every member
      removed. `archive` is the manifest of the archive that has just verified. */
  method Prune(source: Source, archive: Option<Manifest>) returns (r: Outcome)
    requires archive.Some? ==> Valid(archive.value)
    modifies source
    ensures |source.log| >= |old(source.log)| && source.log[..|old(source.log)|] == old(source.log)
    ensures archive.None? ==>
              r == Refused(NotVerified) && source.log == old(source.log) && source.receipt == old(source.receipt)
    ensures archive.Some? && old(source.receipt).Some? && old(source.receipt).value.manifest != archive.value ==>
              r == Refused(InvalidReceipt) && source.log == old(source.log) && source.receipt == old(source.receipt)
    ensures archive.Some? && (old(source.receipt).Some? ==> old(source.receipt).value.manifest == archive.value) &&
            !SourcesOk(old(source.tree), archive.value, old(source.receipt).Some?) ==>
              r.Refused? && source.log == old(source.log) && source.receipt == old(source.receipt)
    ensures archive.Some? ==> OnlyAuthorized(source.log, |old(source.log)|, archive.value)
    ensures source.receipt == old(source.receipt) ||
            (archive.Some? && source.receipt.Some? && source.receipt.value.manifest == archive.value)
    ensures source.quiet && archive.Some? ==> Kept(old(source.tree), source.tree, archive.value)
    ensures source.quiet && archive.Some? && Resumable(old(source.tree), old(source.receipt), archive.value) ==>
              !r.Refused? && Resumable(source.tree, source.receipt, archive.value)
    ensures archive.Some? && r.Pruned? ==> source.receipt.Some? && source.receipt.value.pruned
    ensures source.quiet && archive.Some? && r.Pruned? ==> AllGone(source.tree, archive.value)
    ensures source.quiet && archive.Some? && r.Pruned? ==>
              RecordsRun(archive.value, old(source.tree), old(source.receipt), source.receipt)
    ensures source.crashes == old(source.crashes) - if r.Crashed? then 1 else 0
    ensures Closed(old(source.tree)) ==> Closed(source.tree)
  {
    hide Valid, Closed, NoUnknown, PresentMatch, SomeMissing, IsMember, Selected, Kept, DeepestFirst;
    if archive.None? {
      return Refused(NotVerified);
    }
    var m := archive.value;
    NothingRemoved(source.tree, m);
    if source.receipt.Some? && source.receipt.value.manifest != m {
      return Refused(InvalidReceipt);
    }
    var why := CheckSources(source.tree, m, source.receipt.Some?);
    if why.Some? {
      ResumableIsOk(source.tree, source.receipt, m);
      return Refused(why.value);
    }
    var removed := if source.receipt.Some? then source.receipt.value.removed else [];
    var crashed := source.MayCrash();
    if crashed {
      return Crashed;
    }
    source.receipt := Some(Receipt(m, false, removed));
    Authorizing(old(source.tree), old(source.receipt), source.receipt, m);
    r, removed := RemoveMembers(source, m, removed);
    if !r.Pruned? {
      return;
    }
    source.Outside();
    crashed := source.MayCrash();
    if crashed {
      return Crashed;
    }
    Authorizing(source.tree, source.receipt, Some(Receipt(m, true, removed)), m);
    source.receipt := Some(Receipt(m, true, removed));
  }

  /** Under the receipt, the members go one by one, deepest first, each checked again. */
  method RemoveMembers(source: Source, m: Manifest, known: seq<Rel>) returns (r: Outcome, removed: seq<Rel>)
    requires Valid(m) && source.receipt.Some? && source.receipt.value.manifest == m
    modifies source`tree, source`crashes, source`log
    ensures LogGrew(old(source.log), source.log, m)
    ensures source.quiet ==> Kept(old(source.tree), source.tree, m)
    ensures source.quiet && Resumable(old(source.tree), source.receipt, m) ==>
              !r.Refused? && Resumable(source.tree, source.receipt, m)
    ensures source.quiet && r.Pruned? ==> AllGone(source.tree, m)
    ensures source.quiet && r.Pruned? ==>
              forall p :: p in removed <==> p in known || (IsMember(m, p) && p in old(source.tree))
    ensures source.crashes == old(source.crashes) - if r.Crashed? then 1 else 0
    ensures Closed(old(source.tree)) ==> Closed(source.tree)
  {
    hide Valid, Closed, Resumable, IsMember, Selected, Kept, DeepestFirst, GoneUpTo, AllGone, Recorded, LogGrew;
    NoneAuthorized(source.log, m);
    removed := known;
    var order := SortDeep(m.members);
    ghost var resumable := Resumable(source.tree, source.receipt, m);
    NothingRemoved(source.tree, m);
    NoneGone(source.tree, order);
    NothingRecorded(source.tree, m, known);
    for n := 0 to |order|
      invariant source.crashes == old(source.crashes)
      invariant LogGrew(old(source.log), source.log, m)
      invariant Closed(old(source.tree)) ==> Closed(source.tree)
      invariant source.quiet ==> Kept(old(source.tree), source.tree, m) && GoneUpTo(source.tree, order, n)
      invariant source.quiet && resumable ==> Resumable(source.tree, source.receipt, m)
      invariant source.quiet ==> Recorded(old(source.tree), source.tree, m, known, removed)
    {
      source.Outside();
      var crashed := source.MayCrash();
      if crashed {
        return Crashed, removed;
      }
      var (path, kind) := order[n];
      assert order[n] in order;
      if path !in source.tree {
        if source.quiet { StillGone(source.tree, order, n); }
        continue;
      }
      if source.quiet && resumable { MemberMatches(source.tree, source.receipt, m, order[n]); }
      if source.tree[path] != kind {
        return Refused(ConcurrentChange), removed;
      }
      if source.quiet && resumable { DirectoryIsEmpty(source.tree, source.receipt, m, order, n); }
      if kind.Directory? && exists q :: q in source.tree && path < q {
        return Refused(UnknownMember), removed;
      }
      if source.quiet {
        OneMoreGone(old(source.tree), source.tree, m, order, n);
        OneMoreRecorded(old(source.tree), source.tree, m, known, removed, path);
      }
      MemberIsSelected(m, order[n]);
      Leaving(source.tree, source.receipt, m, order[n]);
      OneMoreAuthorized(old(source.log), source.log, m, Removal(path, kind, source.receipt));
      source.log := source.log + [Removal(path, kind, source.receipt)];
      source.tree := source.tree - {path};
      if path !in removed {
        removed := removed + [path];
      }
    }
    if source.quiet {
      EveryMemberGone(source.tree, m, order);
      RecordedMembers(old(source.tree), source.tree, m, known, removed);
    }
    r := Pruned;
  }

  /** The list of removals is what was known and what has gone in this run. */
  ghost predicate Recorded(before: Tree, tree: Tree, m: Manifest, known: seq<Rel>, removed: seq<Rel>)
  {
    forall p :: p in removed <==> p in known || (p in before && p !in tree)
  }

  lemma NothingRecorded(tree: Tree, m: Manifest, known: seq<Rel>)
    ensures Recorded(tree, tree, m, known, known)
  {
  }

  lemma OneMoreRecorded(before: Tree, tree: Tree, m: Manifest, known: seq<Rel>, removed: seq<Rel>, p: Rel)
    requires Recorded(before, tree, m, known, removed) && Kept(before, tree, m) && p in tree
    ensures Recorded(before, tree - {p}, m, known, if p in removed then removed else removed + [p])
  {
  }

  lemma RecordedMembers(before: Tree, tree: Tree, m: Manifest, known: seq<Rel>, removed: seq<Rel>)
    requires Recorded(before, tree, m, known, removed) && Kept(before, tree, m) && AllGone(tree, m)
    ensures forall p :: p in removed <==> p in known || (IsMember(m, p) && p in before)
  {
  }

  lemma NoneGone(tree: Tree, order: seq<(Rel, Kind)>)
    ensures GoneUpTo(tree, order, 0)
  {
  }

  lemma StillGone(tree: Tree, order: seq<(Rel, Kind)>, n: nat)
    requires n < |order| && GoneUpTo(tree, order, n) && order[n].0 !in tree
    ensures GoneUpTo(tree, order, n + 1)
  {
  }

  lemma EveryMemberGone(tree: Tree, m: Manifest, order: seq<(Rel, Kind)>)
    requires GoneUpTo(tree, order, |order|) && forall y :: y in order <==> y in m.members
    ensures AllGone(tree, m)
  {
    forall i | 0 <= i < |m.members| ensures m.members[i].0 !in tree {
      assert m.members[i] in order;
      var k :| 0 <= k < |order| && order[k] == m.members[i];
    }
  }

  /** The finished receipt lists what the last one did and the members this run found. Members an
      earlier run removed before it crashed are not in it. */
  ghost predicate RecordsRun(m: Manifest, before: Tree, known: Option<Receipt>, done: Option<Receipt>)
  {
    done.Some? &&
    forall p ::
      p in done.value.removed <==> (known.Some? && p in known.value.removed) || (IsMember(m, p) && p in before)
  }

  ghost predicate AllGone(tree: Tree, m: Manifest)
  {
    forall i | 0 <= i < |m.members| :: m.members[i].0 !in tree
  }

  lemma NothingRemoved(tree: Tree, m: Manifest)
    ensures Kept(tree, tree, m)
  {
  }

  lemma ResumableIsOk(tree: Tree, receipt: Option<Receipt>, m: Manifest)
    ensures Resumable(tree, receipt, m) ==> SourcesOk(tree, m, receipt.Some?)
  {
  }

  lemma Authorizing(tree: Tree, before: Option<Receipt>, after: Option<Receipt>, m: Manifest)
    requires after.Some? && after.value.manifest == m
    ensures Resumable(tree, before, m) ==> Resumable(tree, after, m)
  {
  }

  /** Run again after every crash, with no change from outside: only matching members ever go, every
      member missing is covered by the receipt, and once a run ends every member is gone. One attempt
      more than there are crashes, wherever they come, is enough. */
  method Rerun(source: Source, m: Manifest, attempts: nat) returns (r: Outcome)
    requires Valid(m) && source.quiet && Resumable(source.tree, source.receipt, m)
    modifies source
    ensures !r.Refused? && Resumable(source.tree, source.receipt, m) && Kept(old(source.tree), source.tree, m)
    ensures r.Pruned? ==> AllGone(source.tree, m)
    ensures attempts > old(source.crashes) ==> r.Pruned?
  {
    hide Valid, Resumable, Kept, AllGone, RecordsRun, OnlyAuthorized;
    r := Crashed;
    NothingRemoved(source.tree, m);
    for n := 0 to attempts
      invariant r.Crashed? && Resumable(source.tree, source.receipt, m) && Kept(old(source.tree), source.tree, m)
      invariant source.crashes == old(source.crashes) - n
    {
      ghost var before := source.tree;
      r := Prune(source, Some(m));
      KeptIsTransitive(old(source.tree), before, source.tree, m);
      if r.Pruned? {
        return;
      }
    }
  }
}
