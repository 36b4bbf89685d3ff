/** Counting, summing and greatest common divisors.

    These are the arithmetic pieces the composition bookkeeping is built from:
    how many sites carry a species, the sum of a list of ratios, the sum of the
    ratios that belong to one key, and the gcd that reduces a composition.
 */
module Tally {

  /** Number of occurrences of `x` in `xs`. */
  function Count<T(==)>(xs: seq<T>, x: T): nat
  {
    if |xs| == 0 then 0
    else Count(xs[..|xs| - 1], x) + (if xs[|xs| - 1] == x then 1 else 0)
  }

  lemma {:induction false} CountPositiveIffPresent<T>(xs: seq<T>, x: T)
    ensures Count(xs, x) > 0 <==> x in xs
  {
    if |xs| > 0 {
      CountPositiveIffPresent(xs[..|xs| - 1], x);
      assert xs == xs[..|xs| - 1] + [xs[|xs| - 1]];
    }
  }

  lemma {:induction false} CountAtMostLength<T>(xs: seq<T>, x: T)
    ensures Count(xs, x) <= |xs|
  {
    if |xs| > 0 {
      CountAtMostLength(xs[..|xs| - 1], x);
    }
  }

  /** Sum of a list of reals, as Python's `sum`. */
  function Sum(xs: seq<real>): real
  {
    if |xs| == 0 then 0.0 else Sum(xs[..|xs| - 1]) + xs[|xs| - 1]
  }

  /** Sum of a list of naturals, as Python's `sum` on integers. */
  function SumNat(xs: seq<nat>): nat
  {
    if |xs| == 0 then 0 else SumNat(xs[..|xs| - 1]) + xs[|xs| - 1]
  }

  /** The naturals of `xs` as reals. */
  function AsReals(xs: seq<nat>): (r: seq<real>)
    ensures |r| == |xs|
    ensures forall k :: 0 <= k < |xs| ==> r[k] == xs[k] as real
  {
    seq(|xs|, k requires 0 <= k < |xs| => xs[k] as real)
  }

  lemma {:induction false} SumOfReals(xs: seq<nat>)
    ensures Sum(AsReals(xs)) == SumNat(xs) as real
  {
    if |xs| > 0 {
      SumOfReals(xs[..|xs| - 1]);
      assert AsReals(xs)[..|xs| - 1] == AsReals(xs[..|xs| - 1]);
    }
  }

  /** Every entry of `xs` divided by `d`. */
  function Scale(xs: seq<real>, d: real): (r: seq<real>)
    requires d != 0.0
    ensures |r| == |xs|
    ensures forall k :: 0 <= k < |xs| ==> r[k] == xs[k] / d
  {
    seq(|xs|, k requires 0 <= k < |xs| => xs[k] / d)
  }

  /** Dividing every term by `d` divides the sum by `d`. */
  lemma {:induction false} SumScale(xs: seq<real>, d: real)
    requires d != 0.0
    ensures Sum(Scale(xs, d)) == Sum(xs) / d
  {
    if |xs| > 0 {
      SumScale(xs[..|xs| - 1], d);
      assert Scale(xs, d)[..|xs| - 1] == Scale(xs[..|xs| - 1], d);
    }
  }

  lemma {:induction false} SumAppend(xs: seq<real>, ys: seq<real>)
    ensures Sum(xs + ys) == Sum(xs) + Sum(ys)
  {
    if |ys| > 0 {
      var zs := xs + ys;
      SumAppend(xs, ys[..|ys| - 1]);
      assert zs[..|zs| - 1] == xs + ys[..|ys| - 1];
      assert zs[|zs| - 1] == ys[|ys| - 1];
      assert Sum(zs) == Sum(zs[..|zs| - 1]) + zs[|zs| - 1];
      assert Sum(ys) == Sum(ys[..|ys| - 1]) + ys[|ys| - 1];
    } else {
      assert xs + ys == xs;
    }
  }

  lemma {:induction false} SumNonNegative(xs: seq<real>)
    requires forall k :: 0 <= k < |xs| ==> xs[k] >= 0.0
    ensures Sum(xs) >= 0.0
  {
    if |xs| > 0 {
      SumNonNegative(xs[..|xs| - 1]);
    }
  }

  /** Sum of the weights `w[j]` whose key `keys[j]` equals `k`: the value a
      Python accumulation `d[key] = d.get(key, 0) + weight` leaves under `k`. */
  function KeySum<T(==)>(keys: seq<T>, w: seq<real>, k: T): real
    requires |keys| == |w|
  {
    if |keys| == 0 then 0.0
    else KeySum(keys[..|keys| - 1], w[..|w| - 1], k) + (if keys[|keys| - 1] == k then w[|w| - 1] else 0.0)
  }

  lemma {:induction false} KeySumPositive<T>(keys: seq<T>, w: seq<real>, k: T)
    requires |keys| == |w|
    requires forall j :: 0 <= j < |w| ==> w[j] > 0.0
    requires k in keys
    ensures KeySum(keys, w, k) > 0.0
  {
    var n := |keys| - 1;
    if keys[n] == k {
      KeySumNonNegative(keys[..n], w[..n], k);
    } else {
      assert k in keys[..n] by {
        var j :| 0 <= j < |keys| && keys[j] == k;
        assert keys[..n][j] == k;
      }
      KeySumPositive(keys[..n], w[..n], k);
    }
  }

  lemma {:induction false} KeySumNonNegative<T>(keys: seq<T>, w: seq<real>, k: T)
    requires |keys| == |w|
    requires forall j :: 0 <= j < |w| ==> w[j] >= 0.0
    ensures KeySum(keys, w, k) >= 0.0
  {
    if |keys| > 0 {
      KeySumNonNegative(keys[..|keys| - 1], w[..|w| - 1], k);
    }
  }

  /** Scaling every weight scales every key sum. */
  lemma {:induction false} KeySumScale<T>(keys: seq<T>, w: seq<real>, d: real, k: T)
    requires |keys| == |w| && d != 0.0
    ensures KeySum(keys, Scale(w, d), k) == KeySum(keys, w, k) / d
  {
    if |keys| > 0 {
      var n := |keys| - 1;
      assert Scale(w, d)[..n] == Scale(w[..n], d);
      KeySumScale(keys[..n], w[..n], d, k);
      var last := if keys[n] == k then w[n] else 0.0;
      assert (if keys[n] == k then Scale(w, d)[n] else 0.0) == last / d;
      AddQuotients(KeySum(keys[..n], w[..n], k), last, d);
    }
  }

  lemma AddQuotients(x: real, y: real, d: real)
    requires d != 0.0
    ensures x / d + y / d == (x + y) / d
  {
  }

  /** A sum of naturals times `g` is the sum of the terms times `g`. */
  lemma {:induction false} SumNatTimes(xs: seq<nat>, ys: seq<nat>, g: nat)
    requires |xs| == |ys|
    requires forall j :: 0 <= j < |xs| ==> xs[j] * g == ys[j]
    ensures SumNat(xs) * g == SumNat(ys)
  {
    if |xs| > 0 {
      var n := |xs| - 1;
      SumNatTimes(xs[..n], ys[..n], g);
      assert (SumNat(xs[..n]) + xs[n]) * g == SumNat(xs[..n]) * g + xs[n] * g;
    }
  }

  /** The key sums taken over a list of keys. */
  function KeySums<T(==)>(keys: seq<T>, w: seq<real>, ks: seq<T>): (r: seq<real>)
    requires |keys| == |w|
    ensures |r| == |ks|
    ensures forall i :: 0 <= i < |ks| ==> r[i] == KeySum(keys, w, ks[i])
  {
    seq(|ks|, i requires 0 <= i < |ks| => KeySum(keys, w, ks[i]))
  }

  predicate Distinct<T(==)>(xs: seq<T>)
  {
    forall i, j :: 0 <= i < j < |xs| ==> xs[i] != xs[j]
  }

  /** Sum over the distinct keys `ks` of the indicator "`x` is this key". */
  lemma {:induction false} IndicatorSum<T>(ks: seq<T>, x: T, v: real)
    requires Distinct(ks)
    ensures Sum(seq(|ks|, i requires 0 <= i < |ks| => if ks[i] == x then v else 0.0))
            == (if x in ks then v else 0.0)
  {
    var f := seq(|ks|, i requires 0 <= i < |ks| => if ks[i] == x then v else 0.0);
    if |ks| > 0 {
      var n := |ks| - 1;
      var g := seq(n, i requires 0 <= i < n => if ks[..n][i] == x then v else 0.0);
      assert f[..n] == g;
      IndicatorSum(ks[..n], x, v);
      if ks[n] == x {
        assert x !in ks[..n];
      } else {
        assert (x in ks) == (x in ks[..n]) by {
          assert ks == ks[..n] + [ks[n]];
        }
      }
    }
  }

  /** Grouping weights by distinct keys that cover every key loses nothing:
      the key sums add up to the total weight. */
  lemma {:induction false} KeySumsPartition<T>(keys: seq<T>, w: seq<real>, ks: seq<T>)
    requires |keys| == |w|
    requires Distinct(ks)
    requires forall j :: 0 <= j < |keys| ==> keys[j] in ks
    ensures Sum(KeySums(keys, w, ks)) == Sum(w)
  {
    if |keys| == 0 {
      ZeroSum(KeySums(keys, w, ks));
    } else {
      var n := |keys| - 1;
      var x := keys[n];
      var prev := KeySums(keys[..n], w[..n], ks);
      var ind := seq(|ks|, i requires 0 <= i < |ks| => if ks[i] == x then w[n] else 0.0);
      KeySumsPartition(keys[..n], w[..n], ks);
      IndicatorSum(ks, x, w[n]);
      SumPointwise(prev, ind, KeySums(keys, w, ks));
      assert w == w[..n] + [w[n]];
    }
  }

  lemma {:induction false} ZeroSum(xs: seq<real>)
    requires forall k :: 0 <= k < |xs| ==> xs[k] == 0.0
    ensures Sum(xs) == 0.0
  {
    if |xs| > 0 {
      ZeroSum(xs[..|xs| - 1]);
    }
  }

  lemma {:induction false} SumPointwise(xs: seq<real>, ys: seq<real>, zs: seq<real>)
    requires |xs| == |ys| == |zs|
    requires forall k :: 0 <= k < |zs| ==> zs[k] == xs[k] + ys[k]
    ensures Sum(zs) == Sum(xs) + Sum(ys)
  {
    if |zs| > 0 {
      var n := |zs| - 1;
      SumPointwise(xs[..n], ys[..n], zs[..n]);
    }
  }

  /** Counting is key-summing with unit weights. */
  lemma {:induction false} CountIsKeySum<T>(xs: seq<T>, x: T)
    ensures KeySum(xs, seq(|xs|, _ => 1.0), x) == Count(xs, x) as real
  {
    if |xs| > 0 {
      var n := |xs| - 1;
      assert seq(|xs|, _ => 1.0)[..n] == seq(n, _ => 1.0);
      CountIsKeySum(xs[..n], x);
    }
  }

  lemma {:induction false} SumOnes(n: nat)
    ensures Sum(seq(n, _ => 1.0)) == n as real
  {
    if n > 0 {
      assert seq(n, _ => 1.0)[..n - 1] == seq(n - 1, _ => 1.0);
      SumOnes(n - 1);
    }
  }

  /** How often each key occurs in `xs`, as a real. */
  function Counts<T(==)>(xs: seq<T>, ks: seq<T>): (r: seq<real>)
    ensures |r| == |ks|
    ensures forall i :: 0 <= i < |ks| ==> r[i] == Count(xs, ks[i]) as real
  {
    seq(|ks|, i requires 0 <= i < |ks| => Count(xs, ks[i]) as real)
  }

  /** Counting the elements of `xs` once per distinct key that covers them
      gives the length of `xs`. */
  lemma CountsPartition<T>(xs: seq<T>, ks: seq<T>)
    requires Distinct(ks)
    requires forall j :: 0 <= j < |xs| ==> xs[j] in ks
    ensures Sum(Counts(xs, ks)) == |xs| as real
  {
    var ones := seq(|xs|, _ => 1.0);
    KeySumsPartition(xs, ones, ks);
    SumOnes(|xs|);
    forall i | 0 <= i < |ks|
      ensures KeySums(xs, ones, ks)[i] == Count(xs, ks[i]) as real
    {
      CountIsKeySum(xs, ks[i]);
    }
    assert KeySums(xs, ones, ks) == Counts(xs, ks);
  }

  // ---------------------------------------------------------------------------
  // Greatest common divisors

  /** Remainder of `a` modulo a positive `b`, by repeated subtraction. */
  function Mod(a: nat, b: nat): (r: nat)
    requires b > 0
    ensures r < b
    decreases a
  {
    if a < b then a else Mod(a - b, b)
  }

  /** Quotient of `a` by a positive `b`, by repeated subtraction. */
  function Div(a: nat, b: nat): nat
    requires b > 0
    decreases a
  {
    if a < b then 0 else 1 + Div(a - b, b)
  }

  lemma {:induction false} DivMod(a: nat, b: nat)
    requires b > 0
    ensures Div(a, b) * b + Mod(a, b) == a
    decreases a
  {
    if a >= b {
      DivMod(a - b, b);
      assert (1 + Div(a - b, b)) * b == b + Div(a - b, b) * b;
    }
  }

  /** `d` divides `n`; zero divides only zero. */
  predicate Divides(d: nat, n: nat)
  {
    if d == 0 then n == 0 else Mod(n, d) == 0
  }

  /** Euclid's algorithm, as `math.gcd` on non-negative integers. */
  function Gcd(a: nat, b: nat): nat
    decreases b
  {
    if b == 0 then a else Gcd(b, Mod(a, b))
  }

  /** Adding a multiple of `d` does not change the remainder modulo `d`. */
  lemma {:induction false} ModAddMultiple(x: nat, m: nat, d: nat)
    requires d > 0 && Mod(m, d) == 0
    ensures Mod(x + m, d) == Mod(x, d)
    decreases m
  {
    if m > 0 {
      ModAddMultiple(x, m - d, d);
    }
  }

  /** Divisibility is unaffected by subtracting a multiple of the divisor's multiple. */
  lemma DividesSub(d: nat, a: nat, m: nat)
    requires d > 0 && Divides(d, m) && m <= a
    ensures Divides(d, a) <==> Divides(d, a - m)
  {
    ModAddMultiple(a - m, m, d);
  }

  /** A common divisor of `b` and `a` is a common divisor of `b` and `a mod b`, and back. */
  lemma {:induction false} DividesMod(d: nat, a: nat, b: nat)
    requires d > 0 && b > 0 && Divides(d, b)
    ensures Divides(d, a) <==> Divides(d, Mod(a, b))
    decreases a
  {
    if a >= b {
      DividesSub(d, a, b);
      DividesMod(d, a - b, b);
    }
  }

  lemma {:induction false} DividesTransitive(a: nat, b: nat, c: nat)
    requires Divides(a, b) && Divides(b, c)
    ensures Divides(a, c)
    decreases c
  {
    if a > 0 && b > 0 && c > 0 {
      DividesTransitive(a, b, c - b);
      DividesSub(a, c, b);
    }
  }

  /** The gcd divides both arguments, and every common divisor divides it. */
  lemma {:induction false} GcdIsGreatestCommonDivisor(a: nat, b: nat)
    ensures Divides(Gcd(a, b), a) && Divides(Gcd(a, b), b)
    ensures forall d: nat :: d > 0 && Divides(d, a) && Divides(d, b) ==> Divides(d, Gcd(a, b))
    ensures Gcd(a, b) == 0 <==> a == 0 && b == 0
    decreases b
  {
    if b > 0 {
      var r := Mod(a, b);
      GcdIsGreatestCommonDivisor(b, r);
      var g := Gcd(b, r);
      assert g > 0;
      DividesMod(g, a, b);
      forall d: nat | d > 0 && Divides(d, a) && Divides(d, b)
        ensures Divides(d, g)
      {
        DividesMod(d, a, b);
      }
    }
  }

  /** Gcd of a list of naturals, folded from the left starting at 0. */
  function GcdAll(xs: seq<nat>): nat
  {
    if |xs| == 0 then 0 else Gcd(GcdAll(xs[..|xs| - 1]), xs[|xs| - 1])
  }

  /** The folded gcd divides every entry, every common divisor of the entries
      divides it, and it is zero only when every entry is zero. */
  lemma {:induction false} GcdAllDividesAll(xs: seq<nat>)
    ensures forall k :: 0 <= k < |xs| ==> Divides(GcdAll(xs), xs[k])
    ensures forall d: nat :: d > 0 && (forall k :: 0 <= k < |xs| ==> Divides(d, xs[k])) ==> Divides(d, GcdAll(xs))
    ensures GcdAll(xs) == 0 <==> forall k :: 0 <= k < |xs| ==> xs[k] == 0
  {
    if |xs| > 0 {
      var n := |xs| - 1;
      var g0 := GcdAll(xs[..n]);
      GcdAllDividesAll(xs[..n]);
      GcdIsGreatestCommonDivisor(g0, xs[n]);
      var g := GcdAll(xs);
      forall k | 0 <= k < n
        ensures Divides(g, xs[k])
      {
        assert xs[..n][k] == xs[k];
        DividesTransitive(g, g0, xs[k]);
      }
      forall d: nat | d > 0 && (forall k :: 0 <= k < |xs| ==> Divides(d, xs[k]))
        ensures Divides(d, g)
      {
        assert forall k :: 0 <= k < n ==> Divides(d, xs[..n][k]);
      }
      if g == 0 {
        forall k | 0 <= k < |xs|
          ensures xs[k] == 0
        {
          if k < n {
            assert xs[..n][k] == xs[k];
          }
        }
      }
      if forall k :: 0 <= k < |xs| ==> xs[k] == 0 {
        assert forall k :: 0 <= k < n ==> xs[..n][k] == 0;
      }
    }
  }
}
