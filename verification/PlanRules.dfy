/** What a plan of edits is, said of the texts it goes through (crates/xuanling-toolkit/src/fs/edit_batch.rs,
    write.rs). */
module PlanRules {
  import opened Wrappers
  import opened Disk
  import opened EditPlan
  import opened SingleEdit

  /** The spots are the leftmost occurrences, there are some, and filling them gives the next text. */
  ghost predicate FillsAll(s: string, e: Edit, spots: seq<nat>, next: string)
  {
    spots != [] && Leftmost(s, e.find, 0, spots) && Fits(spots, |e.find|, 0, |s|) &&
    next == Fill(s, spots, |e.find|, e.put, 0)
  }

  /** The text to be replaced occurs, with all occurrences in one cluster. */
  ghost predicate OccursOnce(s: string, find: string)
  {
    exists first: nat :: OneCluster(s, find, first)
  }

  ghost predicate Occurs(s: string, find: string)
  {
    exists at: nat :: At(s, find, at)
  }

  /** One edit leads from this text to the next, by this many replacements. */
  ghost predicate StepTo(s: string, e: Edit, next: string, count: nat)
  {
    (e.replaceAll || OccursOnce(s, e.find)) && exists spots :: |spots| == count && FillsAll(s, e, spots, next)
  }

  /** The edits lead through these texts. */
  ghost predicate Chain(original: string, edits: seq<Edit>, texts: seq<string>, counts: seq<nat>)
  {
    |texts| == |edits| + 1 && |counts| == |edits| && texts[0] == original &&
    forall i | 0 <= i < |edits| :: StepsAt(edits, texts, counts, i)
  }

  ghost predicate StepsAt(edits: seq<Edit>, texts: seq<string>, counts: seq<nat>, i: nat)
  {
    i < |edits| && i < |counts| && i + 1 < |texts| && StepTo(texts[i], edits[i], texts[i + 1], counts[i])
  }

  /** The leftmost spots are one list. */
  lemma {:induction false} LeftmostIsMatches(s: string, find: string, i: nat, m: seq<nat>)
    requires i <= |s| && find != [] && Leftmost(s, find, i, m)
    ensures m == MatchesFrom(s, find, i)
    decreases |s| - i
  {
    hide At, Leftmost;
    if m == [] {
      NoSpotNoOccurrence(s, find, i);
    } else {
      FirstSpot(s, find, i, m);
      LeftmostRest(s, find, i, m);
      LeftmostIsMatches(s, find, m[0] + |find|, m[1..]);
      assert m == [m[0]] + m[1..];
    }
  }

  lemma NoSpotNoOccurrence(s: string, find: string, i: nat)
    requires i <= |s| && Leftmost(s, find, i, [])
    ensures FindFrom(s, find, i) == None
  {
    hide At, FindFrom, Covered;
    var found := FindFrom(s, find, i);
    if found.Some? {
      SpotCovers(s, find, i, [], found.value);
    }
  }

  lemma SpotCovers(s: string, find: string, i: nat, m: seq<nat>, p: nat)
    requires Leftmost(s, find, i, m) && i <= p && At(s, find, p)
    ensures exists k: nat :: k < |m| && m[k] <= p < m[k] + |find|
  {
    hide At;
    assert Covered(m, |find|, p);
  }

  lemma SpotsApart(s: string, find: string, i: nat, m: seq<nat>, k: nat)
    requires Leftmost(s, find, i, m) && k < |m|
    ensures i <= m[k] && At(s, find, m[k]) && m[k] + |find| <= |s| && (k > 0 ==> m[0] + |find| <= m[k])
  {
    hide Covered;
  }

  lemma FirstSpot(s: string, find: string, i: nat, m: seq<nat>)
    requires i <= |s| && find != [] && Leftmost(s, find, i, m) && m != []
    ensures FindFrom(s, find, i) == Some(m[0]) && m[0] + |find| <= |s|
  {
    hide At, FindFrom, Leftmost;
    var found := FindFrom(s, find, i);
    SpotsApart(s, find, i, m, 0);
    assert found.Some? && found.value <= m[0];
    SpotCovers(s, find, i, m, found.value);
    var k: nat :| k < |m| && m[k] <= found.value < m[k] + |find|;
    SpotsApart(s, find, i, m, k);
  }

  lemma LeftmostRest(s: string, find: string, i: nat, m: seq<nat>)
    requires find != [] && Leftmost(s, find, i, m) && m != []
    ensures Leftmost(s, find, m[0] + |find|, m[1..])
  {
    hide At, Covered, Apart;
    var rest := m[1..];
    forall k | 0 <= k < |rest| ensures m[0] + |find| <= rest[k] && At(s, find, rest[k]) {
      SpotsApart(s, find, i, m, k + 1);
    }
    RestIsApart(m, |find|);
    forall p: nat | m[0] + |find| <= p && At(s, find, p) ensures Covered(rest, |find|, p) {
      SpotsApart(s, find, i, m, 0);
      SpotCovers(s, find, i, m, p);
      var k: nat :| k < |m| && m[k] <= p < m[k] + |find|;
      RestCovers(m, |find|, k, p);
    }
  }

  lemma RestIsApart(m: seq<nat>, width: nat)
    requires Apart(m, width) && m != []
    ensures Apart(m[1..], width)
  {
  }

  lemma RestCovers(m: seq<nat>, width: nat, k: nat, p: nat)
    requires 0 < k < |m| && m[k] <= p < m[k] + width
    ensures Covered(m[1..], width, p)
  {
    assert m[1..][k - 1] == m[k];
  }

  /** What one edit gives, told by its matches. */
  lemma StepExactly(s: string, e: Edit, next: string, count: nat)
    requires e.find != []
    ensures StepTo(s, e, next, count) <==>
              count == |MatchesFrom(s, e.find, 0)| && count > 0 && (e.replaceAll || count == 1) &&
              next == ReplaceFrom(s, e.find, e.put, 0)
    ensures Occurs(s, e.find) <==> MatchesFrom(s, e.find, 0) != []
    ensures OccursOnce(s, e.find) <==> |MatchesFrom(s, e.find, 0)| == 1
  {
    hide MatchesFrom, ReplaceFrom, Leftmost, OneCluster, At, Fill, Fits;
    var m := MatchesFrom(s, e.find, 0);
    MatchesAreLeftmost(s, e.find, 0);
    ReplaceFillsMatches(s, e.find, e.put, 0);
    OneMatch(s, e.find, e.put);
    EditPlan.NoMatch(s, e.find);
    if m != [] { assert FillsAll(s, e, m, ReplaceFrom(s, e.find, e.put, 0)); }
    if StepTo(s, e, next, count) {
      var spots :| |spots| == count && FillsAll(s, e, spots, next);
      LeftmostIsMatches(s, e.find, 0, spots);
    }
  }

  predicate Named(edits: seq<Edit>)
  {
    forall i | 0 <= i < |edits| :: edits[i].find != []
  }

  lemma {:induction false} ChainIsOne(original: string, edits: seq<Edit>, texts: seq<string>, counts: seq<nat>,
                                      others: seq<string>, amounts: seq<nat>, n: nat)
    requires Named(edits) && Chain(original, edits, texts, counts) && n <= |edits|
    requires Chain(original, edits[..n], others, amounts)
    ensures others[n] == texts[n]
    decreases n
  {
    hide StepTo;
    if n > 0 {
      var k := n - 1;
      assert edits[..n][..k] == edits[..k];
      ChainPrefix(original, edits[..n], others, amounts, k);
      ChainIsOne(original, edits, texts, counts, others[..n], amounts[..k], k);
      assert StepsAt(edits, texts, counts, k) && StepsAt(edits[..n], others, amounts, k);
      StepExactly(texts[k], edits[k], texts[n], counts[k]);
      StepExactly(others[k], edits[k], others[n], amounts[k]);
    }
  }

  lemma ChainPrefix(original: string, edits: seq<Edit>, texts: seq<string>, counts: seq<nat>, n: nat)
    requires Chain(original, edits, texts, counts) && n <= |edits|
    ensures Chain(original, edits[..n], texts[..n + 1], counts[..n])
  {
    hide StepTo;
    var some, part, few := edits[..n], texts[..n + 1], counts[..n];
    forall i | 0 <= i < n ensures StepsAt(some, part, few, i) {
      assert StepsAt(edits, texts, counts, i);
    }
  }

  lemma ChainGrows(original: string, edits: seq<Edit>, texts: seq<string>, counts: seq<nat>, e: Edit, next: string,
                   count: nat)
    requires Chain(original, edits, texts, counts) && StepTo(texts[|edits|], e, next, count)
    ensures Chain(original, edits + [e], texts + [next], counts + [count])
  {
    hide StepTo;
    var more, longer, all := edits + [e], texts + [next], counts + [count];
    forall i | 0 <= i < |more| ensures StepsAt(more, longer, all, i) {
      if i < |edits| { assert StepsAt(edits, texts, counts, i); }
    }
  }

  /** Where a plan stops: at the first edit whose text does not occur in what the edits before it made of
      the original, or occurs in several places while it may not replace all. */
  ghost predicate StopsAt(original: string, edits: seq<Edit>, texts: seq<string>, counts: seq<nat>, why: PlanError)
  {
    why.index < |edits| && Chain(original, edits[..why.index], texts, counts) &&
    var s, e := texts[why.index], edits[why.index];
    match why
    case NoMatchAt(_) => !Occurs(s, e.find)
    case MultipleMatchesAt(_, count) =>
      !e.replaceAll && Occurs(s, e.find) && !OccursOnce(s, e.find) &&
      exists spots :: |spots| == count && Leftmost(s, e.find, 0, spots)
  }

  /** The plan of any edits: the texts it goes through, up to its end or to the edit that stops it. */
  lemma {:induction false} PlanExactly(original: string, edits: seq<Edit>)
    returns (texts: seq<string>, counts: seq<nat>)
    requires Named(edits)
    ensures match PlanOf(original, edits)
            case Ok(p) => Chain(original, edits, texts, counts) && p.text == texts[|edits|] && p.replaced == counts
            case Err(why) => StopsAt(original, edits, texts, counts, why)
    decreases |edits|
  {
    if edits == [] {
      texts, counts := [original], [];
    } else {
      var n := |edits| - 1;
      var e := edits[n];
      texts, counts := PlanExactly(original, edits[..n]);
      var before := PlanOf(original, edits[..n]);
      assert edits[..n] + [e] == edits;
      if before.Ok? {
        hide MatchesFrom, ReplaceFrom, StepTo, Leftmost, Occurs, OccursOnce;
        var s := before.value.text;
        var m, next := MatchesFrom(s, e.find, 0), ReplaceFrom(s, e.find, e.put, 0);
        StepExactly(s, e, next, |m|);
        MatchesAreLeftmost(s, e.find, 0);
        if StepTo(s, e, next, |m|) {
          ChainGrows(original, edits[..n], texts, counts, e, next, |m|);
          texts, counts := texts + [next], counts + [|m|];
        }
      } else {
        StopStays(original, edits, n, texts, counts, before.error);
      }
    }
  }

  lemma StopStays(original: string, edits: seq<Edit>, n: nat, texts: seq<string>, counts: seq<nat>, why: PlanError)
    requires n <= |edits| && StopsAt(original, edits[..n], texts, counts, why)
    ensures StopsAt(original, edits, texts, counts, why)
  {
    hide Chain, Occurs, OccursOnce, Leftmost;
    assert edits[..n][..why.index] == edits[..why.index];
  }

  /** Planning succeeds if and only if the edits lead through some texts. */
  lemma PlannedExactlyWhen(original: string, edits: seq<Edit>)
    requires Named(edits)
    ensures PlanOf(original, edits).Ok? <==> exists texts, counts :: Chain(original, edits, texts, counts)
  {
    hide PlanOf, StepTo;
    var made, amounts := PlanExactly(original, edits);
    var r := PlanOf(original, edits);
    if r.Err? {
      forall texts, counts ensures !Chain(original, edits, texts, counts) {
        StoppedHasNoChain(original, edits, texts, counts, made, amounts, r.error);
      }
    }
  }

  lemma StoppedHasNoChain(original: string, edits: seq<Edit>, texts: seq<string>, counts: seq<nat>,
                          made: seq<string>, amounts: seq<nat>, why: PlanError)
    requires Named(edits) && StopsAt(original, edits, made, amounts, why)
    ensures !Chain(original, edits, texts, counts)
  {
    hide StepTo, Leftmost, Occurs, OccursOnce, MatchesFrom, ReplaceFrom;
    if Chain(original, edits, texts, counts) {
      var i := why.index;
      ChainIsOne(original, edits, texts, counts, made, amounts, i);
      assert StepsAt(edits, texts, counts, i);
      StepExactly(texts[i], edits[i], texts[i + 1], counts[i]);
    }
  }

  /** This many leftmost spots. */
  ghost predicate SpotsNumber(s: string, find: string, count: nat)
  {
    exists spots :: |spots| == count && Leftmost(s, find, 0, spots)
  }

  /** The verdict on a single edit, in the same terms. */
  lemma VerdictExactly(content: Content, req: EditRequest)
    requires req.edit.find != []
    ensures match Verdict(content, req)
            case Ok(after) =>
              content.Text? && after.Text? && (req.expected.Some? ==> Sha256(content) == req.expected.value) &&
              StepTo(content.text, req.edit, after.text, Count(content, req))
            case Err(InvalidUtf8) => !content.Text?
            case Err(PreimageMismatch) => content.Text? && req.expected.Some? && Sha256(content) != req.expected.value
            case Err(NoMatch) => content.Text? && !Occurs(content.text, req.edit.find)
            case Err(MultipleMatches(count)) =>
              content.Text? && !req.edit.replaceAll && Occurs(content.text, req.edit.find) &&
              !OccursOnce(content.text, req.edit.find) && SpotsNumber(content.text, req.edit.find, count)
            case Err(_) => false
  {
    hide MatchesFrom, ReplaceFrom, StepTo, Occurs, OccursOnce, Leftmost;
    if content.Text? {
      MatchesAreLeftmost(content.text, req.edit.find, 0);
      StepExactly(content.text, req.edit, ReplaceFrom(content.text, req.edit.find, req.edit.put, 0),
                  Count(content, req));
    }
  }
}
