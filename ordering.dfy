/** The order in which the output tables are sorted: Python's `<` on `str`
    (code point by code point, a proper prefix first), and a method that lists
    a finite set of keys in ascending order, as `sort_values` does for a table
    whose sort keys are all distinct. */
module Ordering {

  /** Python's `a < b` on strings. */
  predicate LexLess(a: string, b: string)
    decreases |a|
  {
    if |a| == 0 then |b| > 0
    else if |b| == 0 then false
    else a[0] < b[0] || (a[0] == b[0] && LexLess(a[1..], b[1..]))
  }

  lemma {:induction false} LexLessIrreflexive(a: string)
    ensures !LexLess(a, a)
    decreases |a|
  {
    if |a| > 0 {
      LexLessIrreflexive(a[1..]);
    }
  }

  lemma {:induction false} LexLessTransitive(a: string, b: string, c: string)
    requires LexLess(a, b) && LexLess(b, c)
    ensures LexLess(a, c)
    decreases |a|
  {
    if |a| > 0 && |b| > 0 && |c| > 0 && a[0] == b[0] && b[0] == c[0] {
      LexLessTransitive(a[1..], b[1..], c[1..]);
    }
  }

  lemma {:induction false} LexLessTotal(a: string, b: string)
    requires a != b
    ensures LexLess(a, b) || LexLess(b, a)
    decreases |a|
  {
    if |a| > 0 && |b| > 0 && a[0] == b[0] {
      assert a == [a[0]] + a[1..] && b == [b[0]] + b[1..];
      LexLessTotal(a[1..], b[1..]);
    }
  }

  /** `less` is irreflexive, transitive and relates any two distinct keys. */
  ghost predicate IsStrictTotalOrder<K(!new)>(less: (K, K) -> bool)
  {
    && (forall a :: !less(a, a))
    && (forall a, b, c :: less(a, b) && less(b, c) ==> less(a, c))
    && (forall a, b :: a != b ==> less(a, b) || less(b, a))
  }

  lemma LexLessIsStrictTotalOrder()
    ensures IsStrictTotalOrder(LexLess)
  {
    forall a: string
      ensures !LexLess(a, a)
    {
      LexLessIrreflexive(a);
    }
    forall a: string, b: string, c: string | LexLess(a, b) && LexLess(b, c)
      ensures LexLess(a, c)
    {
      LexLessTransitive(a, b, c);
    }
    forall a: string, b: string | a != b
      ensures LexLess(a, b) || LexLess(b, a)
    {
      LexLessTotal(a, b);
    }
  }

  /** Strictly ascending: every earlier element is below every later one. */
  predicate SortedBy<K>(s: seq<K>, less: (K, K) -> bool)
  {
    forall i, j :: 0 <= i < j < |s| ==> less(s[i], s[j])
  }

  /** Two strictly ascending sequences with the same elements are equal: the
      order of a sorted table with distinct keys is fully determined. */
  lemma {:induction false} SortedUnique<K(!new)>(a: seq<K>, b: seq<K>, less: (K, K) -> bool)
    requires IsStrictTotalOrder(less)
    requires SortedBy(a, less) && SortedBy(b, less)
    requires forall x :: x in a <==> x in b
    ensures a == b
    decreases |a|
  {
    if |a| == 0 {
      HeadIsElement(b);
    } else {
      assert a[0] in b;
      assert |b| > 0;
      assert b[0] in a;
      var a0, b0 := a[0], b[0];
      var i :| 0 <= i < |a| && a[i] == b0;
      var j :| 0 <= j < |b| && b[j] == a0;
      assert i == 0 || less(a0, b0);
      assert j == 0 || less(b0, a0);
      assert a0 == b0;
      forall x
        ensures x in a[1..] <==> x in b[1..]
      {
        if x in a[1..] {
          var i :| 1 <= i < |a| && a[i] == x;
          assert less(a[0], a[i]);
          assert x in a;
          assert x in b;
          var j :| 0 <= j < |b| && b[j] == x;
          assert j != 0;
          assert b[1..][j - 1] == x;
        }
        if x in b[1..] {
          var j :| 1 <= j < |b| && b[j] == x;
          assert less(b[0], b[j]);
          assert x in b;
          assert x in a;
          var i :| 0 <= i < |a| && a[i] == x;
          assert i != 0;
          assert a[1..][i - 1] == x;
        }
      }
      SortedUnique(a[1..], b[1..], less);
    }
  }

  /** The first element of a non-empty sequence is one of its elements.
      `SortedUnique` calls it in its empty-`a` branch: that branch is only
      reachable with an empty `b`, so an inline `b[0]` there would be checked
      under assumptions that contradict each other. */
  lemma HeadIsElement<K>(s: seq<K>)
    ensures |s| > 0 ==> s[0] in s
  {
  }

  /** Inserts a key that is not yet present at its place in a sorted sequence. */
  method Insert<K(==,!new)>(s: seq<K>, x: K, less: (K, K) -> bool) returns (r: seq<K>)
    requires IsStrictTotalOrder(less)
    requires SortedBy(s, less) && x !in s
    ensures SortedBy(r, less)
    ensures forall y :: y in r <==> y in s || y == x
    ensures |r| == |s| + 1
  {
    var k := 0;
    while k < |s| && less(s[k], x)
      invariant 0 <= k <= |s|
      invariant forall i :: 0 <= i < k ==> less(s[i], x)
    {
      k := k + 1;
    }
    if k < |s| {
      assert s[k] != x;
      assert less(x, s[k]);
    }
    assert forall j :: k <= j < |s| ==> less(x, s[j]) by {
      forall j | k <= j < |s|
        ensures less(x, s[j])
      {
        if j > k {
          assert less(s[k], s[j]);
        }
      }
    }
    r := s[..k] + [x] + s[k..];
    assert forall y :: y in s <==> y in s[..k] || y in s[k..] by {
      assert s == s[..k] + s[k..];
    }
  }

  /** The keys of `keys` in ascending order, each once. */
  method SortSet<K(==,!new)>(keys: set<K>, less: (K, K) -> bool) returns (r: seq<K>)
    requires IsStrictTotalOrder(less)
    ensures SortedBy(r, less)
    ensures forall x :: x in r <==> x in keys
    ensures |r| == |keys|
  {
    r := [];
    var rest := keys;
    while rest != {}
      invariant rest <= keys
      invariant SortedBy(r, less)
      invariant forall x :: x in r <==> x in keys - rest
      invariant |r| == |keys - rest|
      decreases |rest|
    {
      var x :| x in rest;
      r := Insert(r, x, less);
      assert keys - (rest - {x}) == (keys - rest) + {x};
      rest := rest - {x};
    }
  }
}
