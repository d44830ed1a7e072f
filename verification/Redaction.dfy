/** Secret redaction of crates/xuanling-harness-bridge/src/redact.rs. Text is a sequence of
    units; token patterns are functions from a text to the ranges they match. */
module Redaction {
  import opened Overlap
  import opened Whitespace

  type Text = seq<char>

  datatype Range = Range(start: nat, end: nat)

  /** A token pattern, seen only through the ranges it finds. */
  type Pattern = Text -> seq<Range>

  const MASK: Text := "[REDACTED]"

  // ---- the per-position meaning of redaction ----------------------------------------

  ghost predicate OccursAt(text: Text, secret: Text, at: nat)
  {
    at + |secret| <= |text| && text[at..at + |secret|] == secret
  }

  ghost predicate InRange(r: Range, i: int)
  {
    r.start <= i < r.end
  }

  /** Position i lies in some range of the list. */
  ghost predicate CoveredBy(ranges: seq<Range>, i: int)
  {
    exists r :: r in ranges && InRange(r, i)
  }

  /** The text with the positions of `marked` hidden: each maximal marked run prints one mask,
      every other position prints itself. */
  ghost function Render(text: Text, marked: iset<int>, upTo: nat): Text
    requires upTo <= |text|
  {
    if upTo == 0 then [] else Render(text, marked, upTo - 1) + Piece(text, marked, upTo - 1)
  }

  ghost function Piece(text: Text, marked: iset<int>, i: nat): Text
    requires i < |text|
  {
    if i !in marked then [text[i]] else if i == 0 || i - 1 !in marked then MASK else []
  }

  lemma RenderNothing(text: Text, marked: iset<int>)
    ensures Render(text, marked, 0) == []
  {
  }

  lemma {:induction false} RenderPlain(text: Text, marked: iset<int>, from: nat, to: nat)
    requires from <= to <= |text| && forall i | from <= i < to :: i !in marked
    ensures Render(text, marked, to) == Render(text, marked, from) + text[from..to]
  {
    hide MASK;
    if from < to {
      RenderPlain(text, marked, from, to - 1);
      assert text[from..to] == text[from..to - 1] + [text[to - 1]];
    }
  }

  lemma {:induction false} RenderRun(text: Text, marked: iset<int>, from: nat, to: nat)
    requires from < to <= |text| && forall i | from <= i < to :: i in marked
    requires from == 0 || from - 1 !in marked
    ensures Render(text, marked, to) == Render(text, marked, from) + MASK
  {
    if from + 1 < to {
      RenderRun(text, marked, from, to - 1);
    }
  }

  /** Rendering, piece by piece: units that are not marked are printed as they are, and a longest run of
      marked ones prints a single mask. */
  lemma RenderExactly(text: Text, marked: iset<int>, from: nat, to: nat)
    requires from < to <= |text|
    ensures Render(text, marked, 0) == []
    ensures (forall i | from <= i < to :: i !in marked) ==>
              Render(text, marked, to) == Render(text, marked, from) + text[from..to]
    ensures (forall i | from <= i < to :: i in marked) && (from == 0 || from - 1 !in marked) ==>
              Render(text, marked, to) == Render(text, marked, from) + "[REDACTED]"
  {
    hide Render;
    RenderNothing(text, marked);
    if forall i | from <= i < to :: i !in marked {
      assert from !in marked;
      RenderPlain(text, marked, from, to);
    } else if (forall i | from <= i < to :: i in marked) && (from == 0 || from - 1 !in marked) {
      RenderRun(text, marked, from, to);
    }
  }

  // ---- finding and sorting ranges ----------------------------------------------------

  /** The first occurrence of `secret` at or after `offset`. */
  method Find(text: Text, secret: Text, offset: nat) returns (found: bool, at: nat)
    requires offset <= |text|
    ensures found ==> offset <= at && OccursAt(text, secret, at)
    ensures forall i: nat | offset <= i && OccursAt(text, secret, i) :: found && at <= i
  {
    at := offset;
    while at + |secret| <= |text|
      invariant offset <= at <= |text|
      invariant forall i: nat | offset <= i < at :: !OccursAt(text, secret, i)
    {
      if text[at..at + |secret|] == secret {
        return true, at;
      }
      at := at + 1;
    }
    return false, at;
  }

  predicate Before(a: Range, b: Range)
  {
    a.start < b.start || (a.start == b.start && a.end <= b.end)
  }

  ghost predicate SortedRanges(s: seq<Range>)
  {
    forall i, j | 0 <= i < j < |s| :: Before(s[i], s[j])
  }

  function Insert(r: Range, s: seq<Range>): (t: seq<Range>)
    requires SortedRanges(s)
    ensures SortedRanges(t) && |t| == |s| + 1
    ensures forall x :: x in t <==> x in s || x == r
  {
    if s == [] || Before(r, s[0]) then [r] + s
    else
      var rest := Insert(r, s[1..]);
      assert forall j | 0 <= j < |rest| :: rest[j] in s[1..] || rest[j] == r;
      [s[0]] + rest
  }

  function Sort(s: seq<Range>): (t: seq<Range>)
    ensures SortedRanges(t) && |t| == |s|
    ensures forall x :: x in t <==> x in s
  {
    if s == [] then [] else Insert(s[0], Sort(s[1..]))
  }

  // ---- the redactor ------------------------------------------------------------------

  /** All occurrences of one secret, overlapping ones included, are added to the ranges. */
  method AddOccurrences(text: Text, secret: Text, ranges: seq<Range>) returns (all: seq<Range>)
    requires secret != []
    ensures forall r :: r in all <==> r in ranges || (OccursAt(text, secret, r.start) && r.end == r.start + |secret|)
  {
    all := ranges;
    var offset := 0;
    var found, start := Find(text, secret, offset);
    while found
      invariant offset <= |text|
      invariant found ==> offset <= start && OccursAt(text, secret, start)
      invariant forall i: nat | offset <= i && OccursAt(text, secret, i) :: found && start <= i
      invariant forall r :: r in all <==>
          r in ranges || (OccursAt(text, secret, r.start) && r.end == r.start + |secret| && r.start < offset)
      decreases |text| - offset, found
    {
      all := all + [Range(start, start + |secret|)];
      offset := start + 1;
      found, start := Find(text, secret, offset);
    }
  }

  ghost function Cover(ranges: seq<Range>): iset<int>
  {
    iset i: int | CoveredBy(ranges, i)
  }

  lemma RangeCovers(ranges: seq<Range>, r: Range)
    requires r in ranges
    ensures forall i | r.start <= i < r.end :: i in Cover(ranges)
  {
  }

  lemma SortedPair(ranges: seq<Range>, i: nat, j: nat)
    requires SortedRanges(ranges) && i < j < |ranges|
    ensures Before(ranges[i], ranges[j])
  {
  }

  /** Between everything merged so far and the next range of a sorted list nothing is covered. */
  lemma GapIsUncovered(ranges: seq<Range>, k: nat, end: nat)
    requires SortedRanges(ranges) && k < |ranges|
    requires forall q | 0 <= q < k :: ranges[q].end <= end
    ensures forall i | end <= i < ranges[k].start :: i !in Cover(ranges)
  {
    forall i, q | end <= i < ranges[k].start && 0 <= q < |ranges| ensures !InRange(ranges[q], i) {
      assert q > k ==> Before(ranges[k], ranges[q]);
    }
  }

  lemma NothingBeyond(ranges: seq<Range>, end: nat)
    requires forall q | 0 <= q < |ranges| :: ranges[q].end <= end
    ensures forall i | end <= i :: i !in Cover(ranges)
  {
  }

  lemma EmitRun(text: Text, marked: iset<int>, copied: nat, start: nat, end: nat)
    requires copied <= start < end <= |text| && (start == 0 || copied == 0 || copied < start)
    requires (forall i | copied <= i < start :: i !in marked) && forall i | start <= i < end :: i in marked
    ensures Render(text, marked, end) == Render(text, marked, copied) + text[copied..start] + MASK
  {
    RenderPlain(text, marked, copied, start);
    RenderRun(text, marked, start, end);
  }

  ghost predicate WithinText(ranges: seq<Range>, length: nat)
  {
    forall r | r in ranges :: r.start < r.end <= length
  }

  lemma RangeIsWithin(ranges: seq<Range>, k: nat, length: nat)
    requires k < |ranges| && WithinText(ranges, length)
    ensures ranges[k].start < ranges[k].end <= length
  {
  }

  /** Merge sorted ranges and print: one mask for each maximal covered run. */
  method PrintMerged(text: Text, ranges: seq<Range>) returns (output: Text)
    requires ranges != [] && SortedRanges(ranges) && WithinText(ranges, |text|)
    ensures output == Render(text, Cover(ranges), |text|)
  {
    ghost var marked := Cover(ranges);
    output := [];
    var copied: nat := 0;
    RenderNothing(text, marked);
    RangeCovers(ranges, ranges[0]);
    RangeIsWithin(ranges, 0, |text|);
    var start, end := ranges[0].start, ranges[0].end;
    GapIsUncovered(ranges, 0, 0);
    hide Render, SortedRanges, CoveredBy, Cover, WithinText;
    for k := 1 to |ranges|
      invariant copied <= start < end <= |text| && (start == 0 || copied == 0 || copied < start)
      invariant start <= ranges[k - 1].start
      invariant forall q | 0 <= q < k :: ranges[q].end <= end
      invariant forall i | copied <= i < start :: i !in marked
      invariant forall i | start <= i < end :: i in marked
      invariant output == Render(text, marked, copied)
    {
      var next := ranges[k];
      SortedPair(ranges, k - 1, k);
      RangeIsWithin(ranges, k, |text|);
      RangeCovers(ranges, next);
      if next.start <= end {
        end := if end < next.end then next.end else end;
      } else {
        EmitRun(text, marked, copied, start, end);
        output := output + text[copied..start] + MASK;
        GapIsUncovered(ranges, k, end);
        copied, start, end := end, next.start, next.end;
      }
    }
    EmitRun(text, marked, copied, start, end);
    output := output + text[copied..start] + MASK;
    NothingBeyond(ranges, end);
    RenderPlain(text, marked, end, |text|);
    output := output + text[end..];
  }

  datatype Redactor = Redactor(secrets: seq<Text>, patterns: seq<Pattern>)
  {
    /** Secrets are never empty, and patterns match non-empty ranges of their text. */
    ghost predicate Valid()
    {
      (forall k | 0 <= k < |secrets| :: secrets[k] != []) &&
      forall k, text: Text, r | 0 <= k < |patterns| && r in patterns[k](text) :: r.start < r.end <= |text|
    }

    ghost predicate InSecret(text: Text, i: int)
    {
      exists k: nat, at: nat ::
        k < |secrets| && OccursAt(text, secrets[k], at) && InRange(Range(at, at + |secrets[k]|), i)
    }

    ghost predicate InPattern(text: Text, i: int)
    {
      exists k: nat :: k < |patterns| && CoveredBy(patterns[k](text), i)
    }

    /** The positions redaction must hide. */
    ghost function Marked(text: Text, maskedPrefix: nat): iset<int>
    {
      iset i: int | 0 <= i < |text| && (i < maskedPrefix || InSecret(text, i) || InPattern(text, i))
    }

    /** Ranges of the masked prefix, the first `secretCount` secrets and the first
        `patternCount` patterns. */
    ghost predicate Collected(text: Text, maskedPrefix: nat, secretCount: nat, patternCount: nat, r: Range)
      requires secretCount <= |secrets| && patternCount <= |patterns|
    {
      (maskedPrefix > 0 && r == Range(0, maskedPrefix)) ||
      (exists k: nat :: k < secretCount && OccursAt(text, secrets[k], r.start) && r.end == r.start + |secrets[k]|) ||
      (exists k: nat :: k < patternCount && r in patterns[k](text))
    }

    lemma CollectedInBounds(text: Text, maskedPrefix: nat, r: Range)
      requires Valid() && maskedPrefix <= |text|
      requires Collected(text, maskedPrefix, |secrets|, |patterns|, r)
      ensures r.start < r.end <= |text|
    {
    }

    lemma MarkedIsCollected(text: Text, maskedPrefix: nat, i: int) returns (r: Range)
      requires i in Marked(text, maskedPrefix)
      ensures Collected(text, maskedPrefix, |secrets|, |patterns|, r) && InRange(r, i)
    {
      if i < maskedPrefix {
        r := Range(0, maskedPrefix);
      } else if InSecret(text, i) {
        var k: nat, at: nat :| k < |secrets| && OccursAt(text, secrets[k], at) &&
                               InRange(Range(at, at + |secrets[k]|), i);
        r := Range(at, at + |secrets[k]|);
      } else {
        var k: nat :| k < |patterns| && CoveredBy(patterns[k](text), i);
        r :| r in patterns[k](text) && InRange(r, i);
      }
    }

    lemma CollectedIsMarked(text: Text, maskedPrefix: nat, r: Range, i: int)
      requires Valid() && maskedPrefix <= |text|
      requires Collected(text, maskedPrefix, |secrets|, |patterns|, r) && InRange(r, i)
      ensures i in Marked(text, maskedPrefix)
    {
    }

    lemma CollectedRangesMarkTheText(text: Text, maskedPrefix: nat, ranges: seq<Range>)
      requires Valid() && maskedPrefix <= |text|
      requires forall r :: r in ranges <==> Collected(text, maskedPrefix, |secrets|, |patterns|, r)
      ensures Marked(text, maskedPrefix) == Cover(ranges)
      ensures forall r | r in ranges :: r.start < r.end <= |text|
    {
      forall r | r in ranges ensures r.start < r.end <= |text| {
        CollectedInBounds(text, maskedPrefix, r);
      }
      forall i: int ensures i in Marked(text, maskedPrefix) <==> i in Cover(ranges) {
        if i in Marked(text, maskedPrefix) {
          var r := MarkedIsCollected(text, maskedPrefix, i);
          assert r in ranges;
        }
        if CoveredBy(ranges, i) {
          var r :| r in ranges && InRange(r, i);
          CollectedIsMarked(text, maskedPrefix, r, i);
        }
      }
    }

    method CollectRanges(text: Text, maskedPrefix: nat) returns (ranges: seq<Range>)
      requires Valid() && maskedPrefix <= |text|
      ensures forall r :: r in ranges <==> Collected(text, maskedPrefix, |secrets|, |patterns|, r)
    {
      ranges := [];
      if maskedPrefix > 0 {
        ranges := [Range(0, maskedPrefix)];
      }
      for n := 0 to |secrets|
        invariant forall r :: r in ranges <==> Collected(text, maskedPrefix, n, 0, r)
      {
        ranges := AddOccurrences(text, secrets[n], ranges);
      }
      for n := 0 to |patterns|
        invariant forall r :: r in ranges <==> Collected(text, maskedPrefix, |secrets|, n, r)
      {
        ranges := ranges + patterns[n](text);
      }
    }

    /** Merging all masks against the original text prints the per-position form. */
    method RedactWithPrefix(text: Text, maskedPrefix: nat) returns (output: Text, redacted: bool)
      requires Valid() && maskedPrefix <= |text|
      ensures output == Render(text, Marked(text, maskedPrefix), |text|)
      ensures redacted <==> exists i :: i in Marked(text, maskedPrefix)
      ensures !redacted ==> output == text
    {
      hide Marked, Collected, Valid, Render;
      var ranges := CollectRanges(text, maskedPrefix);
      CollectedRangesMarkTheText(text, maskedPrefix, ranges);
      if ranges == [] {
        RenderPlain(text, Marked(text, maskedPrefix), 0, |text|);
        assert Render(text, Marked(text, maskedPrefix), 0) == [] by { RenderNothing(text, Marked(text, maskedPrefix)); }
        return text, false;
      }
      RangeCovers(ranges, ranges[0]);
      assert ranges[0].start in Marked(text, maskedPrefix);
      var sorted := Sort(ranges);
      assert Cover(sorted) == Cover(ranges);
      output := PrintMerged(text, sorted);
      redacted := true;
    }

    // ---- the retained tail of a longer stream --------------------------------------

    /** Longest prefix of the tail that ends some configured secret. */
    ghost function SecretPrefix(tail: Text, count: nat): nat
      requires count <= |secrets|
    {
      if count == 0 then 0
      else
        var shorter, own :=
          SecretPrefix(tail, count - 1), LongestOverlap(secrets[count - 1], tail, |secrets[count - 1]|);
        if shorter < own then own else shorter
    }

    /** What redact_tail hides at the start of a tail whose beginning was discarded. */
    ghost function TailPrefix(tail: Text, clippedStart: bool): (n: nat)
    {
      if !clippedStart then 0
      else
        var bySecret, byPattern := SecretPrefix(tail, |secrets|), if patterns == [] then 0 else LeadingRun(tail, 0);
        if bySecret < byPattern then byPattern else bySecret
    }

    lemma {:induction false} SecretPrefixDominates(tail: Text, count: nat, k: nat, n: nat)
      requires k < count <= |secrets| && Overlaps(secrets[k], tail, n)
      ensures n <= SecretPrefix(tail, count)
    {
      if k == count - 1 {
        LongestOverlapIsLongest(secrets[k], tail, |secrets[k]|, n);
      } else {
        SecretPrefixDominates(tail, count - 1, k, n);
      }
    }

    lemma {:induction false} SecretPrefixFits(tail: Text, count: nat)
      requires count <= |secrets|
      ensures SecretPrefix(tail, count) <= |tail|
    {
      if count > 0 {
        SecretPrefixFits(tail, count - 1);
      }
    }

    lemma TailPrefixFits(tail: Text, clippedStart: bool)
      ensures TailPrefix(tail, clippedStart) <= |tail|
    {
      SecretPrefixFits(tail, |secrets|);
    }

    /** Redact the bounded tail of a stream. */
    method RedactTail(tail: Text, clippedStart: bool) returns (output: Text, redacted: bool)
      requires Valid()
      ensures output == Render(tail, Marked(tail, TailPrefix(tail, clippedStart)), |tail|)
      ensures redacted <==> exists i :: i in Marked(tail, TailPrefix(tail, clippedStart))
    {
      hide Render, Marked, Valid, LongestOverlap, Overlaps;
      var maskedPrefix: nat := 0;
      if clippedStart {
        for n := 0 to |secrets|
          invariant maskedPrefix == SecretPrefix(tail, n)
        {
          var overlap, _ := SuffixPrefixOverlap(secrets[n], tail);
          assert overlap == LongestOverlap(secrets[n], tail, |secrets[n]|) by {
            OverlapIsLongest(secrets[n], tail, overlap);
          }
          maskedPrefix := if maskedPrefix < overlap then overlap else maskedPrefix;
        }
        if patterns != [] {
          var patternPrefix: nat := 0;
          while patternPrefix < |tail| && MayContinuePattern(tail[patternPrefix])
            invariant patternPrefix <= |tail|
            invariant LeadingRun(tail, patternPrefix) == LeadingRun(tail, 0)
          {
            patternPrefix := patternPrefix + 1;
          }
          maskedPrefix := if maskedPrefix < patternPrefix then patternPrefix else maskedPrefix;
        }
      }
      TailPrefixFits(tail, clippedStart);
      output, redacted := RedactWithPrefix(tail, maskedPrefix);
    }

    /** However much of a stream was discarded, every retained position of every occurrence of a
        configured secret is hidden, even when the occurrence began in the discarded part. */
    lemma RetainedSecretIsMarked(stream: Text, dropped: nat, i: nat)
      requires dropped <= i && dropped <= |stream| && InSecret(stream, i)
      ensures i - dropped in Marked(stream[dropped..], TailPrefix(stream[dropped..], dropped > 0))
    {
      var k: nat, at: nat :| k < |secrets| && OccursAt(stream, secrets[k], at) &&
                             InRange(Range(at, at + |secrets[k]|), i);
      var secret, tail := secrets[k], stream[dropped..];
      if dropped <= at {
        assert tail[at - dropped..at - dropped + |secret|] == stream[at..at + |secret|];
        assert OccursAt(tail, secret, at - dropped) &&
               InRange(Range(at - dropped, at - dropped + |secret|), i - dropped);
      } else {
        var n := at + |secret| - dropped;
        assert tail[..n] == stream[at..at + |secret|][|secret| - n..];
        assert Overlaps(secret, tail, n);
        SecretPrefixDominates(tail, |secrets|, k, n);
      }
    }

    /** The position is in the longest retained end of some secret. */
    ghost predicate InSecretEnd(tail: Text, i: int)
    {
      exists k: nat, n: nat :: k < |secrets| && Overlaps(secrets[k], tail, n) && 0 <= i < n
    }

    lemma {:induction false} SecretPrefixIsReached(tail: Text, count: nat) returns (k: nat)
      requires count <= |secrets| && SecretPrefix(tail, count) > 0
      ensures k < count && Overlaps(secrets[k], tail, SecretPrefix(tail, count))
    {
      hide Overlaps, LongestOverlap;
      k := count - 1;
      if SecretPrefix(tail, count) != LongestOverlap(secrets[k], tail, |secrets[k]|) {
        k := SecretPrefixIsReached(tail, count - 1);
      }
    }

    lemma SecretPrefixExactlyWhen(tail: Text, i: nat)
      ensures i < SecretPrefix(tail, |secrets|) <==> InSecretEnd(tail, i)
    {
      hide Overlaps, SecretPrefix;
      if i < SecretPrefix(tail, |secrets|) {
        var k := SecretPrefixIsReached(tail, |secrets|);
      }
      if InSecretEnd(tail, i) {
        var k: nat, n: nat :| k < |secrets| && Overlaps(secrets[k], tail, n) && 0 <= i < n;
        SecretPrefixDominates(tail, |secrets|, k, n);
      }
    }

    /** Exactly what a shown tail hides: occurrences of secrets, what patterns match, and, only when its
        start was cut, an end of a secret at its start and, where there are patterns, everything up to
        the first unit that cannot continue one. */
    lemma HiddenExactlyWhen(tail: Text, clippedStart: bool, i: nat)
      requires i < |tail|
      ensures i in Marked(tail, TailPrefix(tail, clippedStart)) <==>
                InSecret(tail, i) || InPattern(tail, i) ||
                (clippedStart && InSecretEnd(tail, i)) ||
                (clippedStart && patterns != [] && forall j | 0 <= j <= i :: MayContinuePattern(tail[j]))
    {
      hide InSecret, InPattern, InSecretEnd, SecretPrefix, MayContinuePattern;
      SecretPrefixExactlyWhen(tail, i);
      LeadingRunExactlyWhen(tail, 0, i);
    }

    /** A token whose marker was discarded is hidden up to its first clear delimiter: every
        retained position of a range that straddles the cut and is made of pattern units. */
    lemma ClippedTokenIsMarked(stream: Text, dropped: nat, token: Range, i: nat)
      requires patterns != [] && 0 < dropped && token.start <= dropped <= i < token.end <= |stream|
      requires forall j | token.start <= j < token.end :: MayContinuePattern(stream[j])
      ensures i - dropped in Marked(stream[dropped..], TailPrefix(stream[dropped..], true))
    {
      LeadingRunReaches(stream[dropped..], 0, i - dropped);
    }
  }

  /** A prefix of the tail, n units long, ends the secret. */
  ghost predicate Overlaps(secret: Text, tail: Text, n: nat)
  {
    n <= |secret| && n <= |tail| && tail[..n] == secret[|secret| - n..]
  }

  ghost function LongestOverlap(secret: Text, tail: Text, n: nat): (best: nat)
    ensures best <= n && Overlaps(secret, tail, best)
  {
    if n == 0 || Overlaps(secret, tail, n) then n else LongestOverlap(secret, tail, n - 1)
  }

  lemma {:induction false} LongestOverlapIsLongest(secret: Text, tail: Text, n: nat, m: nat)
    requires m <= n && Overlaps(secret, tail, m)
    ensures m <= LongestOverlap(secret, tail, n)
  {
    if n != 0 && !Overlaps(secret, tail, n) {
      LongestOverlapIsLongest(secret, tail, n - 1, m);
    }
  }

  lemma OverlapIsLongest(secret: Text, tail: Text, best: nat)
    requires best <= |secret| && best <= |tail| && tail[..best] == secret[|secret| - best..]
    requires forall k: nat | k <= |secret| && k <= |tail| && tail[..k] == secret[|secret| - k..] :: k <= best
    ensures best == LongestOverlap(secret, tail, |secret|)
  {
    LongestOverlapIsLongest(secret, tail, |secret|, best);
  }

  /** Units that can occur inside a token pattern, and the replacement character. */
  predicate MayContinuePattern(c: char)
  {
    '0' <= c <= '9' || 'a' <= c <= 'z' || 'A' <= c <= 'Z' || IsWhitespace(c) ||
    c in "._~+/-:='\"" || c as int == 0xFFFD
  }

  ghost function LeadingRun(text: Text, from: nat): (n: nat)
    requires from <= |text|
    ensures from <= n <= |text|
    decreases |text| - from
  {
    if from == |text| || !MayContinuePattern(text[from]) then from else LeadingRun(text, from + 1)
  }

  lemma {:induction false} LeadingRunExactlyWhen(text: Text, from: nat, i: nat)
    requires from <= i < |text|
    ensures i < LeadingRun(text, from) <==> forall j | from <= j <= i :: MayContinuePattern(text[j])
    decreases i - from
  {
    hide MayContinuePattern;
    if from < i && MayContinuePattern(text[from]) {
      LeadingRunExactlyWhen(text, from + 1, i);
    }
  }

  lemma {:induction false} LeadingRunReaches(text: Text, from: nat, to: nat)
    requires from <= to < |text| && forall j | from <= j <= to :: MayContinuePattern(text[j])
    ensures to < LeadingRun(text, from)
    decreases |text| - from
  {
    if from < to {
      LeadingRunReaches(text, from + 1, to);
    }
  }
}
