/** Byte order of text, as both SQLite's ORDER BY and Rust's string sort use it. */
module TextOrder {
  import opened Wrappers

  predicate Less(a: string, b: string)
  {
    b != [] && (a == [] || a[0] < b[0] || (a[0] == b[0] && Less(a[1..], b[1..])))
  }

  lemma {:induction false} LessIsTotal(a: string, b: string)
    ensures Less(a, b) || a == b || Less(b, a)
  {
    if a != [] && b != [] && a[0] == b[0] {
      LessIsTotal(a[1..], b[1..]);
      assert a == [a[0]] + a[1..] && b == [b[0]] + b[1..];
    }
  }

  lemma {:induction false} LessIsAsymmetric(a: string, b: string)
    requires Less(a, b)
    ensures !Less(b, a) && a != b
  {
    if a != [] && a[0] == b[0] {
      LessIsAsymmetric(a[1..], b[1..]);
    }
  }

  lemma {:induction false} LessIsTransitive(a: string, b: string, c: string)
    requires Less(a, b) && Less(b, c)
    ensures Less(a, c)
  {
    if a != [] && a[0] == b[0] == c[0] {
      LessIsTransitive(a[1..], b[1..], c[1..]);
    }
  }

  /** Sorted, without duplicates. */
  predicate Ascending(s: seq<string>)
  {
    forall i, j | 0 <= i < j < |s| :: Less(s[i], s[j])
  }

  /** A strictly ascending list is determined by its elements. */
  lemma {:induction false} AscendingIsUnique(s: seq<string>, t: seq<string>)
    requires Ascending(s) && Ascending(t) && forall x :: x in s <==> x in t
    ensures s == t
  {
    assert (s != [] ==> s[0] in s) && (t != [] ==> t[0] in t);
    if s == [] {
      return;
    }
    AscendingStartsTheSame(s, t);
    forall x ensures x in s[1..] <==> x in t[1..] {
      AscendingRest(s, x);
      AscendingRest(t, x);
    }
    AscendingIsUnique(s[1..], t[1..]);
    assert s == [s[0]] + s[1..] && t == [t[0]] + t[1..];
  }

  lemma AscendingStartsTheSame(s: seq<string>, t: seq<string>)
    requires Ascending(s) && Ascending(t) && s != [] && t != [] && forall x :: x in s <==> x in t
    ensures s[0] == t[0]
  {
    assert s[0] in t && t[0] in s;
    var i :| 0 <= i < |t| && t[i] == s[0];
    var j :| 0 <= j < |s| && s[j] == t[0];
    if i > 0 && j > 0 {
      LessIsAsymmetric(s[0], t[0]);
    }
  }

  lemma AscendingRest(s: seq<string>, x: string)
    requires Ascending(s) && s != []
    ensures x in s[1..] <==> x in s && x != s[0]
  {
    if x in s[1..] {
      var i :| 0 <= i < |s| - 1 && s[1..][i] == x;
      LessIsAsymmetric(s[0], s[i + 1]);
    }
    if x in s && x != s[0] {
      var i :| 0 <= i < |s| && s[i] == x;
      assert s[1..][i - 1] == x;
    }
  }

  function Insert(x: string, s: seq<string>): (t: seq<string>)
    requires Ascending(s) && x !in s
    ensures Ascending(t) && forall y :: y in t <==> y in s || y == x
  {
    if s == [] then [x]
    else if Less(x, s[0]) then
      assert forall j | 0 < j < |s| :: Less(x, s[j]) by {
        forall j | 0 < j < |s| ensures Less(x, s[j]) { LessIsTransitive(x, s[0], s[j]); }
      }
      [x] + s
    else
      LessIsTotal(x, s[0]);
      var rest := Insert(x, s[1..]);
      assert forall j | 0 <= j < |rest| :: Less(s[0], rest[j]) by {
        forall j | 0 <= j < |rest| ensures Less(s[0], rest[j]) { assert rest[j] in rest; }
      }
      [s[0]] + rest
  }

  /** The sorted form of a list without duplicates. */
  function SortDistinct(s: seq<string>): (t: seq<string>)
    requires Distinct(s)
    ensures Ascending(t) && forall y :: y in t <==> y in s
  {
    if s == [] then [] else Insert(s[0], SortDistinct(s[1..]))
  }

  predicate IsLeast(x: string, s: set<string>)
  {
    x in s && forall y | y in s && y != x :: Less(x, y)
  }

  /** The elements of a set in order. */
  function InOrder(s: set<string>): (t: seq<string>)
    ensures Ascending(t) && forall y :: y in t <==> y in s
  {
    if s == {} then []
    else
      LeastExists(s);
      LeastIsUnique(s);
      var x :| IsLeast(x, s);
      Insert(x, InOrder(s - {x}))
  }

  lemma LeastIsUnique(s: set<string>)
    ensures forall x, z | IsLeast(x, s) && IsLeast(z, s) :: x == z
  {
    forall x, z | IsLeast(x, s) && IsLeast(z, s) ensures x == z {
      if x != z { LessIsAsymmetric(x, z); }
    }
  }

  lemma {:induction false} LeastExists(s: set<string>)
    requires s != {}
    ensures exists x :: IsLeast(x, s)
    decreases |s|
  {
    var a :| a in s;
    if s - {a} == {} {
      assert s == {a};
      assert IsLeast(a, s);
    } else {
      LeastExists(s - {a});
      var b :| IsLeast(b, s - {a});
      LessIsTotal(a, b);
      if Less(a, b) {
        forall y | y in s && y != a ensures Less(a, y) { if y != b { LessIsTransitive(a, b, y); } }
        assert IsLeast(a, s);
      } else {
        assert IsLeast(b, s);
      }
    }
  }

  /** Sorting a duplicate-free list and enumerating its set in order are the same. */
  lemma SortedFormsAgree(s: seq<string>, elements: set<string>)
    requires Distinct(s) && forall x :: x in s <==> x in elements
    ensures SortDistinct(s) == InOrder(elements)
  {
    AscendingIsUnique(SortDistinct(s), InOrder(elements));
  }
}
