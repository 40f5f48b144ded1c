/** Python's ordering of strings (code point by code point, a proper prefix
    first) and the sorted(...) of a set of strings. */
module Sorting {

  /** a < b for Python strings. */
  predicate LexLess(a: string, b: string)
    decreases |a|
  {
    if a == [] then b != []
    else if b == [] then false
    else if a[0] == b[0] then LexLess(a[1..], b[1..])
    else a[0] < b[0]
  }

  lemma {:induction false} LexIrreflexive(a: string)
    ensures !LexLess(a, a)
    decreases |a|
  {
    if a != [] { LexIrreflexive(a[1..]); }
  }

  lemma {:induction false} LexTransitive(a: string, b: string, c: string)
    requires LexLess(a, b) && LexLess(b, c)
    ensures LexLess(a, c)
    decreases |a|
  {
    if a != [] && b != [] && c != [] && a[0] == b[0] && b[0] == c[0] {
      LexTransitive(a[1..], b[1..], c[1..]);
    }
  }

  lemma {:induction false} LexTotal(a: string, b: string)
    requires a != b
    ensures LexLess(a, b) || LexLess(b, a)
    decreases |a|
  {
    if a != [] && b != [] && a[0] == b[0] {
      assert a == [a[0]] + a[1..] && b == [b[0]] + b[1..];
      LexTotal(a[1..], b[1..]);
    }
  }

  lemma LexAsymmetric(a: string, b: string)
    requires LexLess(a, b)
    ensures !LexLess(b, a)
  {
    if LexLess(b, a) {
      LexTransitive(a, b, a);
      LexIrreflexive(a);
    }
  }

  /** The elements of a sequence, as a set. */
  function Elems(xs: seq<string>): set<string> {
    set y | y in xs
  }

  lemma ElemsAppend(a: seq<string>, b: seq<string>)
    ensures Elems(a + b) == Elems(a) + Elems(b)
  {
    forall y ensures y in a + b <==> y in a || y in b {
      if y in a + b {
        var i :| 0 <= i < |a + b| && (a + b)[i] == y;
        if i < |a| { assert a[i] == y; } else { assert b[i - |a|] == y; }
      }
      if y in b {
        var i :| 0 <= i < |b| && b[i] == y;
        assert (a + b)[|a| + i] == y;
      }
    }
  }

  lemma ElemsEmpty(xs: seq<string>)
    ensures Elems(xs) == {} <==> xs == []
  {
    if xs != [] { assert xs[0] in Elems(xs); }
  }

  /** Each element is strictly below the next one. */
  predicate StrictlySorted(xs: seq<string>) {
    forall i :: 0 < i < |xs| ==> LexLess(xs[i - 1], xs[i])
  }

  /** Strict sortedness between neighbours orders every pair. */
  lemma {:induction false} SortedPairwise(xs: seq<string>, i: nat, j: nat)
    requires StrictlySorted(xs)
    requires i < j < |xs|
    ensures LexLess(xs[i], xs[j])
    decreases j - i
  {
    if j > i + 1 {
      SortedPairwise(xs, i, j - 1);
      LexTransitive(xs[i], xs[j - 1], xs[j]);
    }
  }

  /** A strictly sorted sequence holds no duplicates. */
  lemma SortedDistinct(xs: seq<string>)
    requires StrictlySorted(xs)
    ensures forall i, j :: 0 <= i < j < |xs| ==> xs[i] != xs[j]
  {
    forall i, j | 0 <= i < j < |xs| ensures xs[i] != xs[j] {
      SortedPairwise(xs, i, j);
      LexIrreflexive(xs[i]);
    }
  }

  /** Inserts x at its place, keeping the sequence strictly sorted. */
  function InsertSorted(xs: seq<string>, x: string): (r: seq<string>)
    requires StrictlySorted(xs)
    ensures StrictlySorted(r)
    ensures Elems(r) == Elems(xs) + {x}
    ensures r != [] && (r[0] == x || (xs != [] && r[0] == xs[0]))
    decreases |xs|
  {
    if xs == [] then [x]
    else if x == xs[0] then xs
    else if LexLess(x, xs[0]) then ElemsAppend([x], xs); [x] + xs
    else
      LexTotal(x, xs[0]);
      ElemsAppend([xs[0]], xs[1..]);
      assert xs == [xs[0]] + xs[1..];
      var r := InsertSorted(xs[1..], x);
      ElemsAppend([xs[0]], r);
      [xs[0]] + r
  }

  /** Inserting every element of xs, left to right, into []. */
  function SortDedup(xs: seq<string>): (r: seq<string>)
    ensures StrictlySorted(r)
    ensures Elems(r) == Elems(xs)
    decreases |xs|
  {
    if xs == [] then []
    else
      ElemsAppend(xs[..|xs| - 1], [xs[|xs| - 1]]);
      assert xs == xs[..|xs| - 1] + [xs[|xs| - 1]];
      InsertSorted(SortDedup(xs[..|xs| - 1]), xs[|xs| - 1])
  }

  /** Two strictly sorted sequences with the same elements are equal. */
  lemma {:induction false} SortedUnique(a: seq<string>, b: seq<string>)
    requires StrictlySorted(a) && StrictlySorted(b)
    requires Elems(a) == Elems(b)
    ensures a == b
    decreases |a|
  {
    if a != [] && b != [] {
      assert a[0] == b[0] by {
        if a[0] != b[0] {
          assert b[0] in Elems(b);
          var i :| 0 <= i < |a| && a[i] == b[0];
          assert a[0] in Elems(a);
          var j :| 0 <= j < |b| && b[j] == a[0];
          assert i > 0 && j > 0;
          SortedPairwise(a, 0, i);
          SortedPairwise(b, 0, j);
          LexAsymmetric(a[0], b[0]);
        }
      }
      SortedDistinct(a);
      SortedDistinct(b);
      assert Elems(a[1..]) == Elems(b[1..]) by {
        forall y ensures y in Elems(a[1..]) <==> y in Elems(b[1..]) {
          if y in a[1..] {
            var i :| 1 <= i < |a| && a[i] == y;
            assert y != a[0];
            assert y in Elems(a);
            var j :| 0 <= j < |b| && b[j] == y;
            assert j != 0;
            assert b[j] == b[1..][j - 1];
          }
          if y in b[1..] {
            var j :| 1 <= j < |b| && b[j] == y;
            assert y != b[0];
            assert y in Elems(b);
            var i :| 0 <= i < |a| && a[i] == y;
            assert i != 0;
            assert a[i] == a[1..][i - 1];
          }
        }
      }
      SortedUnique(a[1..], b[1..]);
      assert a == [a[0]] + a[1..] && b == [b[0]] + b[1..];
    } else {
      ElemsEmpty(a);
      ElemsEmpty(b);
    }
  }

  /** sorted(found) for a set of strings. */
  method SortSet(found: set<string>) returns (r: seq<string>)
    ensures StrictlySorted(r)
    ensures Elems(r) == found
  {
    r := [];
    var rest := found;
    while rest != {}
      invariant StrictlySorted(r)
      invariant Elems(r) + rest == found
      decreases rest
    {
      var x :| x in rest;
      r := InsertSorted(r, x);
      rest := rest - {x};
    }
  }
}
