/** Python's ordering of strings and the `sorted(set(xs))` canonical form.

    Python compares strings code point by code point, a proper prefix coming
    first. `sorted(set(xs))` is therefore the unique strictly increasing list
    holding exactly the elements of `xs`; `SortedSet` computes it by inserting
    each element into a sorted list and skipping duplicates.
 */
module Order {
  import opened Tally

  /** `a <= b` in Python's string order. */
  predicate Le(a: string, b: string)
  {
    |a| == 0 || (|b| > 0 && (a[0] < b[0] || (a[0] == b[0] && Le(a[1..], b[1..]))))
  }

  /** `a < b` in Python's string order. */
  predicate Lt(a: string, b: string)
  {
    Le(a, b) && a != b
  }

  lemma {:induction false} LeTotal(a: string, b: string)
    ensures Le(a, b) || Le(b, a)
  {
    if |a| > 0 && |b| > 0 && a[0] == b[0] {
      LeTotal(a[1..], b[1..]);
    }
  }

  lemma {:induction false} LeAntisymmetric(a: string, b: string)
    requires Le(a, b) && Le(b, a)
    ensures a == b
  {
    if |a| > 0 && |b| > 0 {
      LeAntisymmetric(a[1..], b[1..]);
      assert a == [a[0]] + a[1..] && b == [b[0]] + b[1..];
    }
  }

  lemma {:induction false} LeTransitive(a: string, b: string, c: string)
    requires Le(a, b) && Le(b, c)
    ensures Le(a, c)
  {
    if |a| > 0 && |b| > 0 && |c| > 0 && a[0] == b[0] && b[0] == c[0] {
      LeTransitive(a[1..], b[1..], c[1..]);
    }
  }

  lemma LtTransitive(a: string, b: string, c: string)
    requires Lt(a, b) && Lt(b, c)
    ensures Lt(a, c)
  {
    LeTransitive(a, b, c);
    if a == c {
      LeAntisymmetric(a, b);
    }
  }

  /** The order is strict-total: exactly one of `a < b`, `a == b`, `b < a`. */
  lemma LtTrichotomy(a: string, b: string)
    ensures Lt(a, b) || a == b || Lt(b, a)
    ensures !(Lt(a, b) && Lt(b, a))
  {
    LeTotal(a, b);
    if Lt(a, b) && Lt(b, a) {
      LeAntisymmetric(a, b);
    }
  }

  predicate StrictlySorted(xs: seq<string>)
  {
    forall i, j :: 0 <= i < j < |xs| ==> Lt(xs[i], xs[j])
  }

  function Elems(xs: seq<string>): set<string>
  {
    set x | x in xs
  }

  lemma ElemsEmpty(xs: seq<string>)
    ensures Elems(xs) == {} <==> |xs| == 0
  {
    if |xs| > 0 {
      assert xs[0] in Elems(xs);
    }
  }

  lemma StrictlySortedDistinct(xs: seq<string>)
    requires StrictlySorted(xs)
    ensures Distinct(xs)
  {
  }

  /** Adjacent ordering is enough for a strictly sorted list. */
  lemma {:induction false} AdjacentSorted(xs: seq<string>)
    requires forall i :: 0 <= i < |xs| - 1 ==> Lt(xs[i], xs[i + 1])
    ensures StrictlySorted(xs)
  {
    if |xs| > 1 {
      var n := |xs| - 1;
      AdjacentSorted(xs[..n]);
      forall i, j | 0 <= i < j < |xs|
        ensures Lt(xs[i], xs[j])
      {
        if j < n {
          assert xs[..n][i] == xs[i] && xs[..n][j] == xs[j];
        } else if i < n - 1 {
          assert xs[..n][i] == xs[i] && xs[..n][n - 1] == xs[n - 1];
          LtTransitive(xs[i], xs[n - 1], xs[n]);
        }
      }
    }
  }

  /** Insert `x` into a strictly sorted list, leaving the list unchanged when
      `x` is already present. */
  function Insert(x: string, xs: seq<string>): (r: seq<string>)
    requires StrictlySorted(xs)
    ensures StrictlySorted(r)
    ensures Elems(r) == Elems(xs) + {x}
    ensures |xs| <= |r| <= |xs| + 1
  {
    if |xs| == 0 then [x]
    else if x == xs[0] then xs
    else if Lt(x, xs[0]) then
      assert StrictlySorted([x] + xs) by {
        var ys := [x] + xs;
        forall i, j | 0 <= i < j < |ys|
          ensures Lt(ys[i], ys[j])
        {
          if i == 0 && j > 1 {
            LtTransitive(x, xs[0], xs[j - 1]);
          }
        }
      }
      assert Elems([x] + xs) == Elems(xs) + {x};
      [x] + xs
    else
      LtTrichotomy(x, xs[0]);
      var rest := Insert(x, xs[1..]);
      assert Elems(xs) == {xs[0]} + Elems(xs[1..]) by {
        assert xs == [xs[0]] + xs[1..];
      }
      assert forall y :: y in rest ==> Lt(xs[0], y) by {
        forall y | y in rest
          ensures Lt(xs[0], y)
        {
          assert y in Elems(rest);
        }
      }
      assert StrictlySorted([xs[0]] + rest);
      assert Elems([xs[0]] + rest) == {xs[0]} + Elems(rest);
      [xs[0]] + rest
  }

  /** `sorted(set(xs))`: the distinct elements of `xs` in increasing order. */
  function SortedSet(xs: seq<string>): (r: seq<string>)
    ensures StrictlySorted(r)
    ensures Elems(r) == Elems(xs)
    ensures |r| <= |xs|
  {
    if |xs| == 0 then []
    else
      var r := Insert(xs[|xs| - 1], SortedSet(xs[..|xs| - 1]));
      assert Elems(xs) == Elems(xs[..|xs| - 1]) + {xs[|xs| - 1]} by {
        assert xs == xs[..|xs| - 1] + [xs[|xs| - 1]];
      }
      r
  }

  /** Two strictly sorted lists with the same elements are the same list, so
      `sorted(set(xs))` depends only on the set of elements of `xs`. */
  lemma {:induction false} SortedUnique(xs: seq<string>, ys: seq<string>)
    requires StrictlySorted(xs) && StrictlySorted(ys)
    requires Elems(xs) == Elems(ys)
    ensures xs == ys
  {
    ElemsEmpty(xs);
    ElemsEmpty(ys);
    if |xs| > 0 && |ys| > 0 {
      assert xs[0] in Elems(ys) && ys[0] in Elems(xs);
      if xs[0] != ys[0] {
        var i :| 0 <= i < |ys| && ys[i] == xs[0];
        var j :| 0 <= j < |xs| && xs[j] == ys[0];
        assert Lt(ys[0], xs[0]) && Lt(xs[0], ys[0]);
        LtTrichotomy(xs[0], ys[0]);
      }
      assert Elems(xs[1..]) == Elems(ys[1..]) by {
        assert xs == [xs[0]] + xs[1..] && ys == [ys[0]] + ys[1..];
        forall y | y in xs[1..]
          ensures y in ys[1..]
        {
          var k :| 1 <= k < |xs| && xs[k] == y;
          assert y != xs[0];
          assert y in Elems(ys);
        }
        forall y | y in ys[1..]
          ensures y in xs[1..]
        {
          var k :| 1 <= k < |ys| && ys[k] == y;
          assert y != ys[0];
          assert y in Elems(xs);
        }
      }
      SortedUnique(xs[1..], ys[1..]);
      assert xs == [xs[0]] + xs[1..] && ys == [ys[0]] + ys[1..];
    }
  }

  /** Python's `sorted(set(xs))` does not see the order of `xs`: lists with the
      same elements have the same canonical form. */
  lemma SortedSetIgnoresOrder(xs: seq<string>, ys: seq<string>)
    requires Elems(xs) == Elems(ys)
    ensures SortedSet(xs) == SortedSet(ys)
  {
    SortedUnique(SortedSet(xs), SortedSet(ys));
  }

  /** Sorting an already sorted duplicate-free list changes nothing. */
  lemma SortedSetOfSorted(xs: seq<string>)
    requires StrictlySorted(xs)
    ensures SortedSet(xs) == xs
  {
    SortedUnique(SortedSet(xs), xs);
  }
}
