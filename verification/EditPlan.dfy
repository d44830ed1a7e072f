/** Exact-text edits applied one after the other to a working copy
    (crates/xuanling-toolkit/src/fs/edit_batch.rs). */
module EditPlan {
  import opened Wrappers

  predicate At(s: string, find: string, i: nat)
  {
    i + |find| <= |s| && s[i..i + |find|] == find
  }

  /** The first occurrence at or after i. */
  function FindFrom(s: string, find: string, i: nat): (r: Option<nat>)
    requires i <= |s|
    ensures r.Some? ==> i <= r.value && At(s, find, r.value) && r.value + |find| <= |s|
    ensures r.Some? ==> forall k: nat | i <= k < r.value :: !At(s, find, k)
    ensures r.None? ==> forall k: nat | i <= k :: !At(s, find, k)
    decreases |s| - i
  {
    if At(s, find, i) then Some(i) else if i == |s| then None else FindFrom(s, find, i + 1)
  }

  /** Leftmost matches, none overlapping the one before: what the standard library counts and
      replaces. */
  function MatchesFrom(s: string, find: string, i: nat): (m: seq<nat>)
    requires i <= |s| && find != []
    decreases |s| - i
  {
    match FindFrom(s, find, i)
    case None => []
    case Some(j) => [j] + MatchesFrom(s, find, j + |find|)
  }

  function ReplaceFrom(s: string, find: string, put: string, i: nat): string
    requires i <= |s| && find != []
    decreases |s| - i
  {
    match FindFrom(s, find, i)
    case None => s[i..]
    case Some(j) => s[i..j] + put + ReplaceFrom(s, find, put, j + |find|)
  }

  function ReplaceFirst(s: string, find: string, put: string): string
  {
    match FindFrom(s, find, 0)
    case None => s
    case Some(j) => s[..j] + put + s[j + |find|..]
  }

  /** The matches are occurrences in order, apart from each other, and every occurrence starts
      inside one of them. */
  ghost predicate Leftmost(s: string, find: string, i: nat, m: seq<nat>)
  {
    (forall k | 0 <= k < |m| :: i <= m[k] && At(s, find, m[k])) && Apart(m, |find|) &&
    (forall p: nat | i <= p && At(s, find, p) :: Covered(m, |find|, p))
  }

  ghost predicate Apart(m: seq<nat>, width: nat)
  {
    forall k, l | 0 <= k < l < |m| :: m[k] + width <= m[l]
  }

  ghost predicate Covered(m: seq<nat>, width: nat, p: nat)
  {
    exists k :: 0 <= k < |m| && m[k] <= p < m[k] + width
  }

  lemma {:induction false} MatchesAreLeftmost(s: string, find: string, i: nat)
    requires i <= |s| && find != []
    ensures Leftmost(s, find, i, MatchesFrom(s, find, i))
    decreases |s| - i
  {
    hide At, Leftmost;
    match FindFrom(s, find, i)
    case None => NothingIsLeftmost(s, find, i);
    case Some(j) =>
      MatchesAreLeftmost(s, find, j + |find|);
      NextIsLeftmost(s, find, i, j, MatchesFrom(s, find, j + |find|));
  }

  lemma NothingIsLeftmost(s: string, find: string, i: nat)
    requires forall k: nat | i <= k :: !At(s, find, k)
    ensures Leftmost(s, find, i, [])
  {
  }

  lemma NextIsLeftmost(s: string, find: string, i: nat, j: nat, rest: seq<nat>)
    requires i <= j && At(s, find, j) && Leftmost(s, find, j + |find|, rest)
    requires forall k: nat | i <= k < j :: !At(s, find, k)
    ensures Leftmost(s, find, i, [j] + rest)
  {
    hide At, Covered, Apart;
    var m := [j] + rest;
    assert Apart(m, |find|) by { NextIsApart(j, rest, |find|); }
    forall p: nat | i <= p && At(s, find, p) ensures Covered(m, |find|, p) {
      if p >= j + |find| {
        assert Covered(rest, |find|, p);
      }
      NextCovers(j, rest, |find|, p);
    }
    forall k | 0 <= k < |m| ensures i <= m[k] && At(s, find, m[k]) {
      if k > 0 { assert m[k] == rest[k - 1]; }
    }
  }

  lemma NextIsApart(j: nat, rest: seq<nat>, width: nat)
    requires Apart(rest, width) && forall k | 0 <= k < |rest| :: j + width <= rest[k]
    ensures Apart([j] + rest, width)
  {
  }

  lemma NextCovers(j: nat, rest: seq<nat>, width: nat, p: nat)
    ensures j <= p < j + width || Covered(rest, width, p) ==> Covered([j] + rest, width, p)
  {
    var m := [j] + rest;
    assert m[0] == j;
    if k :| 0 <= k < |rest| && rest[k] <= p < rest[k] + width {
      assert m[k + 1] == rest[k];
    }
  }

  /** Putting the old text back where it was gives the text back: nothing outside the matches is
      touched. */
  lemma {:induction false} ReplaceBySame(s: string, find: string, i: nat)
    requires i <= |s| && find != []
    ensures ReplaceFrom(s, find, find, i) == s[i..]
    decreases |s| - i
  {
    match FindFrom(s, find, i)
    case None =>
    case Some(j) =>
      ReplaceBySame(s, find, j + |find|);
      assert s[i..] == s[i..j] + s[j..j + |find|] + s[j + |find|..];
  }

  /** The spots of the given width lie in order within i and n. */
  predicate Fits(m: seq<nat>, width: nat, i: nat, n: nat)
  {
    if m == [] then i <= n else i <= m[0] && Fits(m[1..], width, m[0] + width, n)
  }

  lemma {:induction false} FittingSpotsAreInside(m: seq<nat>, width: nat, i: nat, n: nat)
    requires Fits(m, width, i, n)
    ensures i <= n && (m != [] ==> m[0] + width <= n)
  {
    if m != [] {
      FittingSpotsAreInside(m[1..], width, m[0] + width, n);
    }
  }

  /** The text from i on, with every spot filled with `put`. */
  function Fill(s: string, m: seq<nat>, width: nat, put: string, i: nat): string
    requires Fits(m, width, i, |s|)
  {
    FittingSpotsAreInside(m, width, i, |s|);
    if m == [] then s[i..] else s[i..m[0]] + put + Fill(s, m[1..], width, put, m[0] + width)
  }

  /** Replacing puts the new text exactly where the leftmost matches were and copies the rest. */
  lemma {:induction false} ReplaceFillsMatches(s: string, find: string, put: string, i: nat)
    requires i <= |s| && find != []
    ensures Fits(MatchesFrom(s, find, i), |find|, i, |s|)
    ensures ReplaceFrom(s, find, put, i) == Fill(s, MatchesFrom(s, find, i), |find|, put, i)
    decreases |s| - i
  {
    hide At;
    match FindFrom(s, find, i)
    case None =>
    case Some(j) =>
      ReplaceFillsMatches(s, find, put, j + |find|);
      assert MatchesFrom(s, find, i)[1..] == MatchesFrom(s, find, j + |find|);
  }

  /** No occurrence exactly when the count is 0. */
  lemma NoMatch(s: string, find: string)
    requires find != []
    ensures MatchesFrom(s, find, 0) == [] <==> forall p: nat :: !At(s, find, p)
  {
  }

  /** Some occurrence, and every other one overlaps it. */
  ghost predicate OneCluster(s: string, find: string, first: nat)
  {
    At(s, find, first) && forall p: nat | At(s, find, p) :: first <= p < first + |find|
  }

  /** The count is 1 exactly when there is an occurrence and every other one overlaps the first.
      A replacement is then the same with and without replace_all. */
  lemma OneMatch(s: string, find: string, put: string)
    requires find != []
    ensures |MatchesFrom(s, find, 0)| == 1 <==> exists first: nat :: OneCluster(s, find, first)
    ensures |MatchesFrom(s, find, 0)| == 1 ==> ReplaceFrom(s, find, put, 0) == ReplaceFirst(s, find, put)
  {
    hide At, Leftmost;
    MatchesAreLeftmost(s, find, 0);
    var m := MatchesFrom(s, find, 0);
    if |m| == 1 {
      SingleIsCluster(s, find, m);
    }
    if first: nat :| OneCluster(s, find, first) {
      ClusterIsSingle(s, find, m, first);
    }
  }

  lemma SingleIsCluster(s: string, find: string, m: seq<nat>)
    requires Leftmost(s, find, 0, m) && |m| == 1
    ensures OneCluster(s, find, m[0])
  {
    hide At;
    forall p: nat | At(s, find, p) ensures m[0] <= p < m[0] + |find| {
      assert Covered(m, |find|, p);
    }
  }

  lemma ClusterIsSingle(s: string, find: string, m: seq<nat>, first: nat)
    requires Leftmost(s, find, 0, m) && OneCluster(s, find, first)
    ensures |m| == 1
  {
    hide At;
    assert Covered(m, |find|, first);
    if |m| >= 2 {
      SecondMatchIsOutside(s, find, m, first);
    }
  }

  lemma SecondMatchIsOutside(s: string, find: string, m: seq<nat>, first: nat)
    requires Leftmost(s, find, 0, m) && |m| >= 2 && (forall p: nat | At(s, find, p) :: first <= p)
    ensures At(s, find, m[1]) && m[1] >= first + |find|
  {
    hide At;
    assert At(s, find, m[0]);
  }

  /** A text that does not overlap itself. */
  predicate Unbordered(t: string)
  {
    forall b | 0 < b < |t| :: t[b..] != t[..|t| - b]
  }

  ghost predicate Alone(s: string, find: string, first: nat)
  {
    At(s, find, first) && forall p: nat | At(s, find, p) :: p == first
  }

  lemma OverlapIsBorder(s: string, t: string, p: nat, q: nat)
    requires At(s, t, p) && At(s, t, q) && p <= q < p + |t|
    ensures t[q - p..] == t[..|t| - (q - p)]
  {
  }

  /** For such a text, one match is one occurrence. */
  lemma OneMatchIsUnique(s: string, find: string)
    requires find != [] && Unbordered(find)
    ensures |MatchesFrom(s, find, 0)| == 1 <==> exists first: nat :: Alone(s, find, first)
  {
    hide At, MatchesFrom;
    OneMatch(s, find, find);
    if first: nat :| OneCluster(s, find, first) {
      forall p: nat | At(s, find, p) ensures p == first {
        OverlapIsBorder(s, find, first, p);
      }
      assert Alone(s, find, first);
    }
    if first: nat :| Alone(s, find, first) {
      assert OneCluster(s, find, first);
    }
  }

  /** In general it is not: "aa" occurs twice in "aaa" and is accepted as a single match. */
  lemma OverlappingCountsOnce()
    ensures |MatchesFrom("aaa", "aa", 0)| == 1 && At("aaa", "aa", 0) && At("aaa", "aa", 1)
  {
  }

  // ---- plans --------------------------------------------------------------------------

  datatype Edit = Edit(find: string, put: string, replaceAll: bool)

  datatype PlanError = NoMatchAt(index: nat) | MultipleMatchesAt(index: nat, count: nat)

  datatype Plan = Plan(text: string, replaced: seq<nat>)

  /** Every edit sees what the edits before it left. */
  function PlanOf(original: string, edits: seq<Edit>): Result<Plan, PlanError>
    requires forall i | 0 <= i < |edits| :: edits[i].find != []
  {
    if edits == [] then Ok(Plan(original, []))
    else
      var index := |edits| - 1;
      var e := edits[index];
      match PlanOf(original, edits[..index])
      case Err(error) => Err(error)
      case Ok(p) =>
        var count := |MatchesFrom(p.text, e.find, 0)|;
        if count == 0 then Err(NoMatchAt(index))
        else if count > 1 && !e.replaceAll then Err(MultipleMatchesAt(index, count))
        else Ok(Plan(ReplaceFrom(p.text, e.find, e.put, 0), p.replaced + [count]))
  }

  lemma {:induction false} FailedPlanStaysFailed(original: string, edits: seq<Edit>, n: nat)
    requires n <= |edits| && forall i | 0 <= i < |edits| :: edits[i].find != []
    requires PlanOf(original, edits[..n]).Err?
    ensures PlanOf(original, edits) == PlanOf(original, edits[..n])
    decreases |edits|
  {
    if n == |edits| {
      assert edits[..n] == edits;
    } else {
      var before := edits[..|edits| - 1];
      assert before[..n] == edits[..n];
      FailedPlanStaysFailed(original, before, n);
    }
  }

  /** plan_edits: stops at the first edit without a match, or with several and no replace_all. */
  method PlanEdits(original: string, edits: seq<Edit>) returns (r: Result<Plan, PlanError>, total: nat)
    requires forall i | 0 <= i < |edits| :: edits[i].find != []
    ensures r == PlanOf(original, edits)
    ensures r.Ok? ==> total == Sum(r.value.replaced) && |r.value.replaced| == |edits|
  {
    hide MatchesFrom, ReplaceFrom, ReplaceFirst;
    var text := original;
    var counts: seq<nat> := [];
    total := 0;
    for n := 0 to |edits|
      invariant PlanOf(original, edits[..n]) == Ok(Plan(text, counts))
      invariant total == Sum(counts) && |counts| == n
    {
      var e := edits[n];
      assert edits[..n + 1][..n] == edits[..n];
      var count := |MatchesFrom(text, e.find, 0)|;
      if count == 0 {
        FailedPlanStaysFailed(original, edits, n + 1);
        return Err(NoMatchAt(n)), total;
      }
      if count > 1 && !e.replaceAll {
        FailedPlanStaysFailed(original, edits, n + 1);
        return Err(MultipleMatchesAt(n, count)), total;
      }
      var replaced := if e.replaceAll then count else 1;
      OneMatch(text, e.find, e.put);
      text := if e.replaceAll then ReplaceFrom(text, e.find, e.put, 0) else ReplaceFirst(text, e.find, e.put);
      total := total + replaced;
      assert (counts + [replaced])[..n] == counts;
      counts := counts + [replaced];
    }
    assert edits[..|edits|] == edits;
    r := Ok(Plan(text, counts));
  }

  function Sum(s: seq<nat>): nat
  {
    if s == [] then 0 else Sum(s[..|s| - 1]) + s[|s| - 1]
  }
}
