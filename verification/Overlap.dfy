/** Longest prefix of a retained tail that is a suffix of a configured secret, computed
    with a prefix table as in crates/xuanling-harness-bridge/src/redact.rs. */
module Overlap {

  /** The first k elements of p are the k elements of s that end at position i. */
  ghost predicate Match<T>(p: seq<T>, s: seq<T>, i: nat, k: nat)
  {
    k <= |p| && k <= i <= |s| && forall j | 0 <= j < k :: p[j] == s[i - k + j]
  }

  /** k is the length of the longest match of p ending at position i of s. */
  ghost predicate Longest<T>(p: seq<T>, s: seq<T>, i: nat, k: nat)
  {
    Match(p, s, i, k) && forall m: nat :: Match(p, s, i, m) ==> m <= k
  }

  /** Every match at position i that the element x extends has length at most m. */
  ghost predicate Bounds<T>(p: seq<T>, s: seq<T>, i: nat, x: T, m: nat)
  {
    forall k: nat :: Match(p, s, i, k) && k < |p| && p[k] == x ==> k <= m
  }

  /** k is the length of the longest proper border of p[..n]: the longest match of p that
      ends with p[..n] but starts later. */
  ghost predicate LongestBorder<T>(p: seq<T>, n: nat, k: nat)
  {
    1 <= n <= |p| && Longest(p, p[1..], n - 1, k)
  }

  /** The first n entries of a prefix table hold the longest borders. */
  ghost predicate Table<T>(p: seq<T>, table: seq<nat>, n: nat)
  {
    n <= |table| && forall q | 0 <= q < n :: LongestBorder(p, q + 1, table[q])
  }

  /** Inside a longer match, the shorter matches are exactly the borders of its length. */
  lemma ShorterMatchesAreBorders<T>(p: seq<T>, s: seq<T>, i: nat, m: nat, k: nat)
    requires Match(p, s, i, m) && k < m
    ensures Match(p, s, i, k) <==> Match(p, p[1..], m - 1, k)
  {
  }

  /** Falling back from a match that x does not extend to its longest border skips no match
      that x does extend. */
  lemma FallbackSkipsNothing<T>(p: seq<T>, s: seq<T>, i: nat, x: T, m: nat, b: nat)
    requires Match(p, s, i, m) && LongestBorder(p, m, b)
    requires Bounds(p, s, i, x, m) && (m == |p| || p[m] != x)
    ensures b < m && Match(p, s, i, b) && Bounds(p, s, i, x, b)
  {
    ShorterMatchesAreBorders(p, s, i, m, b);
    forall k: nat | Match(p, s, i, k) && k < |p| && p[k] == x ensures k <= b {
      ShorterMatchesAreBorders(p, s, i, m, k);
    }
  }

  /** When no more fallback is needed, one comparison gives the longest match one further. */
  lemma Advance<T>(p: seq<T>, s: seq<T>, i: nat, m: nat)
    requires i < |s| && Match(p, s, i, m) && m < |p| && Bounds(p, s, i, s[i], m)
    requires m == 0 || p[m] == s[i]
    ensures Longest(p, s, i + 1, if p[m] == s[i] then m + 1 else 0)
  {
    var next := i + 1;
    forall k: nat | Match(p, s, next, k) ensures k <= if p[m] == s[i] then m + 1 else 0 {
      if k > 0 {
        assert p[k - 1] == s[next - k + (k - 1)];
        assert Match(p, s, i, k - 1);
      }
    }
  }

  /** The prefix table: entry n-1 is the longest proper border of p[..n]. Each entry is
      reached with amortised constant work: fewer than |p| fallbacks for the whole table. */
  method PrefixTable<T(==)>(p: seq<T>) returns (fallback: seq<nat>, ghost steps: nat)
    requires p != []
    ensures |fallback| == |p| && Table(p, fallback, |p|)
    ensures steps < |p|
  {
    fallback := seq(|p|, _ => 0);
    var matched: nat := 0;
    steps := 0;
    ghost var shifted := p[1..];
    for index := 1 to |p|
      invariant |fallback| == |p| && Table(p, fallback, index)
      invariant Longest(p, shifted, index - 1, matched)
      invariant steps + matched < index
    {
      ghost var i := index - 1;
      while matched > 0 && p[index] != p[matched]
        invariant Match(p, shifted, i, matched)
        invariant Bounds(p, shifted, i, p[index], matched)
        invariant steps + matched < index
      {
        FallbackSkipsNothing(p, shifted, i, p[index], matched, fallback[matched - 1]);
        matched := fallback[matched - 1];
        steps := steps + 1;
      }
      Advance(p, shifted, i, matched);
      if p[index] == p[matched] {
        matched := matched + 1;
      }
      fallback := fallback[index := matched];
    }
  }

  /** Longest prefix of `tail` that is a suffix of `secret`, with a linear number of
      fallback steps. */
  method SuffixPrefixOverlap<T(==)>(secret: seq<T>, tail: seq<T>) returns (matched: nat, ghost steps: nat)
    ensures matched <= |secret| && matched <= |tail|
    ensures tail[..matched] == secret[|secret| - matched..]
    ensures forall k: nat | k <= |secret| && k <= |tail| && tail[..k] == secret[|secret| - k..] :: k <= matched
    ensures steps <= (if |tail| < |secret| then |tail| else |secret|) + |secret|
  {
    var prefix := tail[..if |tail| < |secret| then |tail| else |secret|];
    matched, steps := 0, 0;
    if prefix == [] {
      return;
    }
    var fallback;
    fallback, steps := PrefixTable(prefix);
    ghost var built := steps;
    for i := 0 to |secret|
      invariant Longest(prefix, secret, i, matched)
      invariant steps + matched <= built + i
    {
      var byte := secret[i];
      while matched > 0 && (matched == |prefix| || byte != prefix[matched])
        invariant Match(prefix, secret, i, matched)
        invariant Bounds(prefix, secret, i, byte, matched)
        invariant steps + matched <= built + i
      {
        FallbackSkipsNothing(prefix, secret, i, byte, matched, fallback[matched - 1]);
        matched := fallback[matched - 1];
        steps := steps + 1;
      }
      Advance(prefix, secret, i, matched);
      if byte == prefix[matched] {
        matched := matched + 1;
      }
    }
    forall k: nat | k <= |secret| && k <= |tail| && tail[..k] == secret[|secret| - k..] ensures k <= matched {
      forall j | 0 <= j < k ensures prefix[j] == secret[|secret| - k + j] {
        assert prefix[j] == tail[..k][j];
      }
      assert Match(prefix, secret, |secret|, k);
    }
  }
}
