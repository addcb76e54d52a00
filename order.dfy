/**
 * Orderings used by the social graph: Python's comparison of strings (lexicographic
 * by code point) and a selection sort of a finite set under a strict total order,
 * which stands for `sorted(...)` wherever the source sorts.
 */
module Order {

  /** Python's `a < b` on `str`: the first differing code point decides, and a
      proper prefix is smaller than the longer string. */
  predicate LexLess(a: string, b: string)
  {
    if |a| == 0 then |b| > 0
    else if |b| == 0 then false
    else if a[0] != b[0] then a[0] < b[0]
    else LexLess(a[1..], b[1..])
  }

  lemma {:induction false} LexIrreflexive(a: string)
    ensures !LexLess(a, a)
  {
    if |a| > 0 {
      LexIrreflexive(a[1..]);
    }
  }

  lemma {:induction false} LexTransitive(a: string, b: string, c: string)
    requires LexLess(a, b) && LexLess(b, c)
    ensures LexLess(a, c)
  {
    if |a| > 0 && |b| > 0 && |c| > 0 && a[0] == b[0] && b[0] == c[0] {
      LexTransitive(a[1..], b[1..], c[1..]);
    }
  }

  /** Distinct strings are always comparable: the order is total. */
  lemma {:induction false} LexTotal(a: string, b: string)
    requires a != b
    ensures LexLess(a, b) || LexLess(b, a)
  {
    if |a| > 0 && |b| > 0 && a[0] == b[0] {
      assert a == [a[0]] + a[1..] && b == [b[0]] + b[1..];
      LexTotal(a[1..], b[1..]);
    }
  }

  lemma {:induction false} LexAsymmetric(a: string, b: string)
    requires LexLess(a, b)
    ensures !LexLess(b, a)
  {
    if |a| > 0 && |b| > 0 && a[0] == b[0] {
      LexAsymmetric(a[1..], b[1..]);
    }
  }

  /** `less` is a strict total order on the elements of `xs`. */
  ghost predicate StrictTotalOn<T(!new)>(less: (T, T) -> bool, xs: set<T>)
  {
    && (forall a :: a in xs ==> !less(a, a))
    && (forall a, b, c :: a in xs && b in xs && c in xs && less(a, b) && less(b, c) ==> less(a, c))
    && (forall a, b :: a in xs && b in xs && a != b ==> less(a, b) || less(b, a))
  }

  /** Python's `<` on strings is a strict total order on any set of strings. */
  lemma LexStrictTotalOn(xs: set<string>)
    ensures StrictTotalOn(LexLess, xs)
  {
    forall a | a in xs ensures !LexLess(a, a) {
      LexIrreflexive(a);
    }
    forall a, b, c | a in xs && b in xs && c in xs && LexLess(a, b) && LexLess(b, c)
      ensures LexLess(a, c)
    {
      LexTransitive(a, b, c);
    }
    forall a, b | a in xs && b in xs && a != b
      ensures LexLess(a, b) || LexLess(b, a)
    {
      LexTotal(a, b);
    }
  }

  predicate NoDuplicates<T(==)>(r: seq<T>)
  {
    forall i, j :: 0 <= i < j < |r| ==> r[i] != r[j]
  }

  /** Appending a sequence of new elements keeps a sequence free of repeats. */
  lemma NoDuplicatesAppend<T>(a: seq<T>, b: seq<T>)
    requires NoDuplicates(a) && NoDuplicates(b)
    requires forall x :: x in a ==> x !in b
    ensures NoDuplicates(a + b)
  {
    forall i, j | 0 <= i < j < |a + b|
      ensures (a + b)[i] != (a + b)[j]
    {
      if j >= |a| && i < |a| {
        assert a[i] in a && (a + b)[j] == b[j - |a|];
      }
    }
  }

  /** `list(xs)` of a Python set: every element once, in an order the model leaves open. */
  method ListOf<T(==)>(xs: set<T>) returns (r: seq<T>)
    ensures forall x :: x in r <==> x in xs
    ensures NoDuplicates(r)
    ensures |r| == |xs|
  {
    r := [];
    var rest := xs;
    while rest != {}
      invariant rest <= xs
      invariant forall x :: x in r <==> x in xs && x !in rest
      invariant NoDuplicates(r)
      invariant |r| + |rest| == |xs|
      decreases rest
    {
      var x :| x in rest;
      r := r + [x];
      rest := rest - {x};
    }
  }

  /** Every element is `less` than every later one (so there are no repeats). */
  ghost predicate SortedBy<T>(less: (T, T) -> bool, r: seq<T>)
  {
    forall i, j :: 0 <= i < j < |r| ==> less(r[i], r[j])
  }

  /** The least element of a non-empty set. */
  method MinOf<T(!new)>(xs: set<T>, less: (T, T) -> bool) returns (m: T)
    requires xs != {}
    requires StrictTotalOn(less, xs)
    ensures m in xs
    ensures forall y :: y in xs && y != m ==> less(m, y)
  {
    m :| m in xs;
    var rest := xs - {m};
    while rest != {}
      invariant rest <= xs && m in xs && m !in rest
      invariant forall y :: y in xs && y !in rest && y != m ==> less(m, y)
      decreases rest
    {
      var y :| y in rest;
      if less(y, m) {
        m := y;
      }
      rest := rest - {y};
    }
  }

  /** `sorted(xs)`: the elements of `xs` in increasing order, each once. */
  method SortBy<T(!new)>(xs: set<T>, less: (T, T) -> bool) returns (r: seq<T>)
    requires StrictTotalOn(less, xs)
    ensures SortedBy(less, r)
    ensures forall x :: x in r <==> x in xs
    ensures |r| == |xs|
  {
    r := [];
    var rest := xs;
    while rest != {}
      invariant rest <= xs
      invariant forall x :: x in r <==> x in xs && x !in rest
      invariant SortedBy(less, r)
      invariant forall i, y :: 0 <= i < |r| && y in rest ==> less(r[i], y)
      invariant |r| + |rest| == |xs|
      decreases rest
    {
      var m := MinOf(rest, less);
      r := r + [m];
      rest := rest - {m};
    }
  }

  /** A strictly sorted sequence is determined by its elements: whatever order the
      source iterates a set in, sorting it gives one answer. */
  lemma {:induction false} SortedUnique<T(!new)>(less: (T, T) -> bool, xs: set<T>, r1: seq<T>, r2: seq<T>)
    requires StrictTotalOn(less, xs)
    requires SortedBy(less, r1) && SortedBy(less, r2)
    requires forall x :: x in r1 <==> x in xs
    requires forall x :: x in r2 <==> x in xs
    ensures r1 == r2
    decreases |r1|
  {
    if r1 != [] {
      assert r1[0] in r2;
    }
    if r2 != [] {
      assert r2[0] in r1;
    }
    if r1 != [] {
      var a, b := r1[0], r2[0];
      assert a in r1 && b in r2;
      assert forall y :: y in xs && y != a ==> less(a, y) by {
        forall y | y in xs && y != a ensures less(a, y) {
          var k :| 0 <= k < |r1| && r1[k] == y;
        }
      }
      assert forall y :: y in xs && y != b ==> less(b, y) by {
        forall y | y in xs && y != b ensures less(b, y) {
          var k :| 0 <= k < |r2| && r2[k] == y;
        }
      }
      assert a == b;
      var rest := xs - {a};
      forall x ensures x in r1[1..] <==> x in rest {
        if x in r1[1..] {
          var k :| 1 <= k < |r1| && r1[k] == x;
          assert less(r1[0], r1[k]);
        }
        if x in rest {
          var k :| 0 <= k < |r1| && r1[k] == x;
        }
      }
      forall x ensures x in r2[1..] <==> x in rest {
        if x in r2[1..] {
          var k :| 1 <= k < |r2| && r2[k] == x;
          assert less(r2[0], r2[k]);
        }
        if x in rest {
          var k :| 0 <= k < |r2| && r2[k] == x;
        }
      }
      SortedUnique(less, rest, r1[1..], r2[1..]);
      assert r1 == [a] + r1[1..] && r2 == [b] + r2[1..];
    }
  }
}
