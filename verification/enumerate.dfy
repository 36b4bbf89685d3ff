/** `enumerate_sqs`: every concrete SQS a solution model can make of an
    abstract SQS.

    Each sublattice of the solution model offers its `r`-permutations, `r`
    being the number of abstract symbols on that sublattice; the candidates
    are the cartesian product of these, in `itertools` order; each candidate
    is made concrete and the first candidate of each configuration is kept.
 */
module Enumerate {
  import opened Outcomes
  import opened Tally
  import opened Crystal
  import opened Sqs
  import opened Concretize

  // ---------------------------------------------------------------------------
  // itertools

  /** The entries of the lists, one list after another. */
  function Concat<T>(xss: seq<seq<T>>): seq<T>
  {
    if |xss| == 0 then [] else xss[0] + Concat(xss[1..])
  }

  /** An entry of one of the lists is an entry of their concatenation. */
  lemma {:induction false} ConcatIntro<T>(xss: seq<seq<T>>, i: nat, x: T)
    requires i < |xss| && x in xss[i]
    ensures x in Concat(xss)
  {
    if i > 0 {
      ConcatIntro(xss[1..], i - 1, x);
    }
  }

  /** An entry of the concatenation comes from one of the lists. */
  lemma {:induction false} ConcatElim<T>(xss: seq<seq<T>>, x: T) returns (i: nat)
    requires x in Concat(xss)
    ensures i < |xss| && x in xss[i]
  {
    if x in xss[0] {
      i := 0;
    } else {
      var j := ConcatElim(xss[1..], x);
      i := j + 1;
    }
  }

  lemma ConcatMember<T>(xss: seq<seq<T>>, x: T)
    ensures x in Concat(xss) <==> exists i :: 0 <= i < |xss| && x in xss[i]
  {
    if x in Concat(xss) {
      var i := ConcatElim(xss, x);
    }
    if exists i :: 0 <= i < |xss| && x in xss[i] {
      var i :| 0 <= i < |xss| && x in xss[i];
      ConcatIntro(xss, i, x);
    }
  }

  lemma {:induction false} ConcatLength<T>(xss: seq<seq<T>>, m: nat)
    requires forall i :: 0 <= i < |xss| ==> |xss[i]| == m
    ensures |Concat(xss)| == |xss| * m
  {
    if |xss| > 0 {
      ConcatLength(xss[1..], m);
    }
  }

  /** Every list of `ps` with `x` in front. */
  function Prefixed<T>(x: T, ps: seq<seq<T>>): (r: seq<seq<T>>)
    ensures |r| == |ps|
    ensures forall k :: 0 <= k < |ps| ==> r[k] == [x] + ps[k]
  {
    seq(|ps|, k requires 0 <= k < |ps| => [x] + ps[k])
  }

  lemma PrefixedMember<T>(x: T, ps: seq<seq<T>>, p: seq<T>)
    ensures p in Prefixed(x, ps) <==> |p| > 0 && p[0] == x && p[1..] in ps
  {
    if p in Prefixed(x, ps) {
      var k :| 0 <= k < |ps| && Prefixed(x, ps)[k] == p;
      assert p[1..] == ps[k];
    }
    if |p| > 0 && p[0] == x && p[1..] in ps {
      var k :| 0 <= k < |ps| && ps[k] == p[1..];
      assert Prefixed(x, ps)[k] == p;
    }
  }

  /** `xs` without its entry at position `i`. */
  function Remove<T>(xs: seq<T>, i: nat): (r: seq<T>)
    requires i < |xs|
    ensures |r| == |xs| - 1
  {
    xs[..i] + xs[i + 1..]
  }

  lemma RemoveMultiset<T>(xs: seq<T>, i: nat)
    requires i < |xs|
    ensures multiset(xs) == multiset(Remove(xs, i)) + multiset{xs[i]}
  {
    assert xs == xs[..i] + [xs[i]] + xs[i + 1..];
  }

  /** `itertools.permutations(xs, r)`: the `r`-tuples of entries at distinct
      positions, ordered lexicographically by position. */
  function Permutations<T>(xs: seq<T>, r: nat): seq<seq<T>>
    decreases r, 1
  {
    if r == 0 then [[]] else Concat(Branches(xs, r))
  }

  /** The `r`-permutations starting at each position in turn. */
  function Branches<T>(xs: seq<T>, r: nat): (b: seq<seq<seq<T>>>)
    requires r > 0
    ensures |b| == |xs|
    ensures forall i :: 0 <= i < |xs| ==> b[i] == Prefixed(xs[i], Permutations(Remove(xs, i), r - 1))
    decreases r, 0
  {
    seq(|xs|, i requires 0 <= i < |xs| => Prefixed(xs[i], Permutations(Remove(xs, i), r - 1)))
  }

  lemma MultisetCons<T>(p: seq<T>)
    requires |p| > 0
    ensures multiset(p) == multiset{p[0]} + multiset(p[1..])
  {
    assert p == [p[0]] + p[1..];
  }

  /** Taking the first entry of `p` out of `xs` at a position holding it
      leaves room for the rest of `p`, and conversely. */
  lemma SubMultisetRemove<T>(p: seq<T>, xs: seq<T>, i: nat)
    requires |p| > 0 && i < |xs| && xs[i] == p[0]
    ensures multiset(p) <= multiset(xs) <==> multiset(p[1..]) <= multiset(Remove(xs, i))
  {
    MultisetCons(p);
    RemoveMultiset(xs, i);
    var a := multiset(p[1..]);
    var b := multiset(Remove(xs, i));
    var x := multiset{p[0]};
    if a + x <= b + x {
      forall v
        ensures a[v] <= b[v]
      {
        assert (a + x)[v] <= (b + x)[v];
      }
    }
  }

  /** An `r`-permutation has length `r` and takes no entry more often than
      `xs` holds it. */
  lemma {:induction false} PermutationsSound<T>(xs: seq<T>, r: nat, p: seq<T>)
    requires p in Permutations(xs, r)
    ensures |p| == r && multiset(p) <= multiset(xs)
    decreases r, 1
  {
    if r > 0 {
      var i := ConcatElim(Branches(xs, r), p);
      SoundStep(xs, r, p, i);
    }
  }

  lemma {:induction false} SoundStep<T>(xs: seq<T>, r: nat, p: seq<T>, i: nat)
    requires r > 0 && i < |xs| && p in Branches(xs, r)[i]
    ensures |p| == r && multiset(p) <= multiset(xs)
    decreases r, 0
  {
    var rest := Remove(xs, i);
    var ps := Permutations(rest, r - 1);
    assert p in Prefixed(xs[i], ps);
    PrefixedMember(xs[i], ps, p);
    assert p[1..] in ps;
    PermutationsSound(rest, r - 1, p[1..]);
    assert multiset(p[1..]) <= multiset(rest);
    SubMultisetRemove(p, xs, i);
  }

  /** Every list of length `r` drawn from `xs` without repetition is an
      `r`-permutation. */
  lemma {:induction false} PermutationsComplete<T>(xs: seq<T>, r: nat, p: seq<T>)
    requires |p| == r && multiset(p) <= multiset(xs)
    ensures p in Permutations(xs, r)
    decreases r, 1
  {
    if r > 0 {
      MultisetCons(p);
      assert p[0] in multiset(xs);
      var i :| 0 <= i < |xs| && xs[i] == p[0];
      CompleteStep(xs, r, p, i);
      ConcatIntro(Branches(xs, r), i, p);
    }
  }

  lemma {:induction false} CompleteStep<T>(xs: seq<T>, r: nat, p: seq<T>, i: nat)
    requires r > 0 && |p| == r && multiset(p) <= multiset(xs)
    requires i < |xs| && xs[i] == p[0]
    ensures p in Branches(xs, r)[i]
    decreases r, 0
  {
    var rest := Remove(xs, i);
    SubMultisetRemove(p, xs, i);
    PermutationsComplete(rest, r - 1, p[1..]);
    PrefixedMember(xs[i], Permutations(rest, r - 1), p);
  }

  /** A list is an `r`-permutation of `xs` exactly when it has length `r` and
      takes no entry of `xs` more often than `xs` holds it. */
  lemma PermutationsMember<T>(xs: seq<T>, r: nat, p: seq<T>)
    ensures p in Permutations(xs, r) <==> |p| == r && multiset(p) <= multiset(xs)
  {
    if p in Permutations(xs, r) {
      PermutationsSound(xs, r, p);
    }
    if |p| == r && multiset(p) <= multiset(xs) {
      PermutationsComplete(xs, r, p);
    }
  }

  /** `n * (n - 1) * ... * (n - k + 1)`: the number of ways to arrange `k` of
      `n` distinct positions. It is positive exactly when `k <= n`. */
  function Falling(n: nat, k: nat): (f: nat)
    ensures f > 0 <==> k <= n
  {
    if k == 0 then 1 else if n == 0 then 0 else n * Falling(n - 1, k - 1)
  }

  /** There are `n! / (n - r)!` `r`-permutations of `n` entries, none when
      `r > n`. */
  lemma {:induction false} PermutationsCount<T>(xs: seq<T>, r: nat)
    ensures |Permutations(xs, r)| == Falling(|xs|, r)
    decreases r, 1
  {
    if r > 0 {
      var parts := Branches(xs, r);
      var m := if |xs| == 0 then 0 else Falling(|xs| - 1, r - 1);
      forall i | 0 <= i < |xs|
        ensures |parts[i]| == m
      {
        BranchLength(xs, r, i);
      }
      ConcatLength(parts, m);
      assert |Concat(parts)| == |xs| * m;
    }
  }

  lemma {:induction false} BranchLength<T>(xs: seq<T>, r: nat, i: nat)
    requires r > 0 && i < |xs|
    ensures |Branches(xs, r)[i]| == Falling(|xs| - 1, r - 1)
    decreases r, 0
  {
    var rest := Remove(xs, i);
    var ps := Permutations(rest, r - 1);
    PermutationsCount(rest, r - 1);
    assert |ps| == Falling(|xs| - 1, r - 1) by {
      assert |rest| == |xs| - 1;
    }
    assert Branches(xs, r)[i] == Prefixed(xs[i], ps);
  }

  /** `itertools.product(*rows)`: one entry from every row, the first row
      varying slowest. */
  function Product<T>(rows: seq<seq<T>>): seq<seq<T>>
    decreases |rows|, 1
  {
    if |rows| == 0 then [[]] else Concat(Choices(rows))
  }

  /** The product of the later rows behind each entry of the first. */
  function Choices<T>(rows: seq<seq<T>>): (b: seq<seq<seq<T>>>)
    requires |rows| > 0
    ensures |b| == |rows[0]|
    ensures forall i :: 0 <= i < |rows[0]| ==> b[i] == Prefixed(rows[0][i], Product(rows[1..]))
    decreases |rows|, 0
  {
    seq(|rows[0]|, i requires 0 <= i < |rows[0]| => Prefixed(rows[0][i], Product(rows[1..])))
  }

  /** Takes its `i`-th entry from row `i`, for every row. */
  ghost predicate Drawn<T>(c: seq<T>, rows: seq<seq<T>>)
  {
    |c| == |rows| && forall i :: 0 <= i < |rows| ==> c[i] in rows[i]
  }

  lemma DrawnCons<T>(c: seq<T>, rows: seq<seq<T>>)
    requires |c| > 0 && |rows| > 0
    ensures Drawn(c, rows) <==> c[0] in rows[0] && Drawn(c[1..], rows[1..])
  {
    if c[0] in rows[0] && Drawn(c[1..], rows[1..]) {
      forall k | 1 <= k < |rows|
        ensures c[k] in rows[k]
      {
        assert c[1..][k - 1] in rows[1..][k - 1];
      }
    }
  }

  /** A list is in the product exactly when it takes its `i`-th entry from
      row `i`, for every row. */
  lemma {:induction false} ProductMember<T>(rows: seq<seq<T>>, c: seq<T>)
    ensures c in Product(rows) <==> Drawn(c, rows)
    decreases |rows|
  {
    if |rows| > 0 {
      var tail := Product(rows[1..]);
      if |c| > 0 {
        ProductMember(rows[1..], c[1..]);
        DrawnCons(c, rows);
      }
      ConcatMember(Choices(rows), c);
      if c in Product(rows) {
        var i :| 0 <= i < |Choices(rows)| && c in Choices(rows)[i];
        PrefixedMember(rows[0][i], tail, c);
      }
      if Drawn(c, rows) {
        var i :| 0 <= i < |rows[0]| && rows[0][i] == c[0];
        PrefixedMember(rows[0][i], tail, c);
        assert c in Choices(rows)[i];
      }
    }
  }

  // ---------------------------------------------------------------------------
  // Candidates

  /** The length of every sublattice. */
  function Lengths(rows: seq<seq<string>>): (r: seq<nat>)
    ensures |r| == |rows|
    ensures forall i :: 0 <= i < |rows| ==> r[i] == |rows[i]|
  {
    seq(|rows|, i requires 0 <= i < |rows| => |rows[i]|)
  }

  /** Python's `<` on two lists of numbers: the first differing entry
      decides, and a proper prefix is smaller. */
  function LexLess(a: seq<nat>, b: seq<nat>): bool
  {
    if |a| == 0 then |b| > 0
    else if |b| == 0 then false
    else if a[0] != b[0] then a[0] < b[0]
    else LexLess(a[1..], b[1..])
  }

  /** For lists of the same length, `a < b` holds exactly when they agree up
      to some position where `a` is smaller. */
  lemma {:induction false} LexLessIff(a: seq<nat>, b: seq<nat>)
    requires |a| == |b|
    ensures LexLess(a, b) <==> exists i :: 0 <= i < |a| && a[..i] == b[..i] && a[i] < b[i]
  {
    if |a| > 0 {
      LexLessIff(a[1..], b[1..]);
      if a[0] == b[0] {
        if LexLess(a, b) {
          var i :| 0 <= i < |a| - 1 && a[1..][..i] == b[1..][..i] && a[1..][i] < b[1..][i];
          assert a[..i + 1] == [a[0]] + a[1..][..i];
          assert b[..i + 1] == [b[0]] + b[1..][..i];
        }
        if exists i :: 0 <= i < |a| && a[..i] == b[..i] && a[i] < b[i] {
          var i :| 0 <= i < |a| && a[..i] == b[..i] && a[i] < b[i];
          assert i > 0;
          assert a[1..][..i - 1] == a[..i][1..];
          assert b[1..][..i - 1] == b[..i][1..];
        }
      } else {
        assert a[..0] == b[..0];
        forall i | 0 < i < |a|
          ensures a[..i] != b[..i]
        {
          assert a[..i][0] != b[..i][0];
        }
      }
    }
  }

  /** Some sublattice of the solution model has fewer species than the
      abstract sublattice has symbols. */
  predicate HasShortRow(solution: seq<seq<string>>, a: AbstractSqs)
    requires |solution| == |a.model|
  {
    exists i :: 0 <= i < |solution| && |solution[i]| < |a.model[i]|
  }

  /** The lexicographic check only fires when some sublattice is short. */
  lemma LexCheckImpliesShortRow(a: AbstractSqs, solution: seq<seq<string>>)
    requires |solution| == |a.model|
    requires LexLess(Lengths(solution), Lengths(a.model))
    ensures HasShortRow(solution, a)
  {
    LexLessIff(Lengths(solution), Lengths(a.model));
    var i :| 0 <= i < |solution| && Lengths(solution)[..i] == Lengths(a.model)[..i] && Lengths(solution)[i] < Lengths(a.model)[i];
    assert |solution[i]| < |a.model[i]|;
  }

  /** The candidate concrete models, in `itertools` order. */
  function Candidates(a: AbstractSqs, solution: seq<seq<string>>): seq<seq<seq<string>>>
    requires |solution| == |a.model|
  {
    Product(seq(|solution|, i requires 0 <= i < |solution| => Permutations(solution[i], |a.model[i]|)))
  }

  /** A concrete model is a candidate exactly when each of its sublattices
      has as many entries as the abstract one, taken without repetition from
      the solution model's sublattice. */
  lemma CandidateMember(a: AbstractSqs, solution: seq<seq<string>>, c: seq<seq<string>>)
    requires |solution| == |a.model|
    ensures c in Candidates(a, solution) <==>
            |c| == |solution| &&
            forall i :: 0 <= i < |solution| ==> |c[i]| == |a.model[i]| && multiset(c[i]) <= multiset(solution[i])
  {
    var rows := seq(|solution|, i requires 0 <= i < |solution| => Permutations(solution[i], |a.model[i]|));
    ProductMember(rows, c);
    assert Candidates(a, solution) == Product(rows);
    if |c| == |solution| {
      forall i | 0 <= i < |solution|
        ensures c[i] in rows[i] <==> |c[i]| == |a.model[i]| && multiset(c[i]) <= multiset(solution[i])
      {
        PermutationsMember(solution[i], |a.model[i]|, c[i]);
      }
    }
  }

  /** A candidate fits into every sublattice of the solution model. */
  lemma CandidateHasNoShortRow(a: AbstractSqs, solution: seq<seq<string>>)
    requires |solution| == |a.model| && |Candidates(a, solution)| > 0
    ensures !HasShortRow(solution, a)
  {
    var c := Candidates(a, solution)[0];
    CandidateMember(a, solution, c);
    forall i | 0 <= i < |solution|
      ensures |a.model[i]| <= |solution[i]|
    {
      SubMultisetSize(multiset(c[i]), multiset(solution[i]));
    }
  }

  /** Without a short sublattice, the first entries of every sublattice of
      the solution model make a candidate. */
  lemma NoShortRowHasCandidate(a: AbstractSqs, solution: seq<seq<string>>)
    requires |solution| == |a.model| && !HasShortRow(solution, a)
    ensures |Candidates(a, solution)| > 0
  {
    var c := seq(|solution|, i requires 0 <= i < |solution| => solution[i][..|a.model[i]|]);
    forall i | 0 <= i < |solution|
      ensures multiset(c[i]) <= multiset(solution[i])
    {
      assert solution[i] == c[i] + solution[i][|a.model[i]|..];
    }
    CandidateMember(a, solution, c);
    assert c in Candidates(a, solution);
  }

  /** There is a candidate exactly when no sublattice is short. */
  lemma CandidatesExist(a: AbstractSqs, solution: seq<seq<string>>)
    requires |solution| == |a.model|
    ensures |Candidates(a, solution)| > 0 <==> !HasShortRow(solution, a)
  {
    if |Candidates(a, solution)| > 0 {
      CandidateHasNoShortRow(a, solution);
    }
    if !HasShortRow(solution, a) {
      NoShortRowHasCandidate(a, solution);
    }
  }

  lemma SubMultisetSize<T>(x: multiset<T>, y: multiset<T>)
    requires x <= y
    ensures |x| <= |y|
  {
    assert y == x + (y - x);
  }

  /** Every candidate agrees with the abstract model in shape. */
  lemma CandidatesAgree(a: AbstractSqs, solution: seq<seq<string>>, k: nat)
    requires |solution| == |a.model| && k < |Candidates(a, solution)|
    ensures RowsAgree(a, Candidates(a, solution)[k])
  {
    CandidateMember(a, solution, Candidates(a, solution)[k]);
  }

  // ---------------------------------------------------------------------------
  // Concretizing and deduplicating

  /** `get_concrete_sqs` on every candidate in turn; the first failure is
      raised. */
  function ConcretizeAll(a: AbstractSqs, cs: seq<seq<seq<string>>>): (r: Result<seq<ConcreteSqs>>)
    ensures r.Ok? <==> forall k :: 0 <= k < |cs| ==> GetConcrete(a, cs[k]).Ok?
    ensures r.Ok? ==> |r.value| == |cs| && forall k :: 0 <= k < |cs| ==> r.value[k] == GetConcrete(a, cs[k]).value
    ensures r.Err? ==> exists k :: 0 <= k < |cs| && GetConcrete(a, cs[k]) == Err(r.error)
  {
    AllOk(c => GetConcrete(a, c), cs)
  }

  function Configurations(xs: seq<ConcreteSqs>): (r: seq<seq<seq<string>>>)
    ensures |r| == |xs|
    ensures forall k :: 0 <= k < |xs| ==> r[k] == xs[k].configuration
  {
    seq(|xs|, k requires 0 <= k < |xs| => xs[k].configuration)
  }

  /** No earlier structure has the configuration of structure `k`. */
  predicate FirstOfItsConfiguration(xs: seq<ConcreteSqs>, k: nat)
    requires k < |xs|
  {
    forall j :: 0 <= j < k ==> xs[j].configuration != xs[k].configuration
  }

  /** The structures kept, read as a filter: a structure is kept when no
      structure kept before it has its configuration. */
  function KeepFirsts(xs: seq<ConcreteSqs>): seq<ConcreteSqs>
  {
    if |xs| == 0 then []
    else
      var kept := KeepFirsts(xs[..|xs| - 1]);
      if xs[|xs| - 1].configuration in Configurations(kept) then kept else kept + [xs[|xs| - 1]]
  }

  lemma KeepFirstsStep(xs: seq<ConcreteSqs>)
    requires |xs| > 0
    ensures var kept := KeepFirsts(xs[..|xs| - 1]);
            var last := xs[|xs| - 1];
            KeepFirsts(xs) == if last.configuration in Configurations(kept) then kept else kept + [last]
  {
  }

  /** The kept structures have pairwise different configurations. */
  lemma {:induction false} KeepFirstsDistinct(xs: seq<ConcreteSqs>)
    ensures Distinct(Configurations(KeepFirsts(xs)))
  {
    if |xs| > 0 {
      var kept := KeepFirsts(xs[..|xs| - 1]);
      var last := xs[|xs| - 1];
      KeepFirstsDistinct(xs[..|xs| - 1]);
      if last.configuration !in Configurations(kept) {
        var r := kept + [last];
        assert Configurations(r) == Configurations(kept) + [last.configuration];
      }
    }
  }

  /** Every configuration of the input is the configuration of a kept
      structure. */
  lemma {:induction false} KeepFirstsCovers(xs: seq<ConcreteSqs>, k: nat)
    requires k < |xs|
    ensures xs[k].configuration in Configurations(KeepFirsts(xs))
  {
    var n := |xs| - 1;
    var front := xs[..n];
    var kept := KeepFirsts(front);
    var last := xs[n];
    if k < n {
      KeepFirstsCovers(front, k);
      assert front[k] == xs[k];
    }
    if last.configuration !in Configurations(kept) {
      assert Configurations(kept + [last]) == Configurations(kept) + [last.configuration];
    }
  }

  /** What is kept is exactly the first structure of each configuration. */
  lemma {:induction false} KeepFirstsAreFirsts(xs: seq<ConcreteSqs>, x: ConcreteSqs)
    ensures x in KeepFirsts(xs) <==> exists k :: 0 <= k < |xs| && xs[k] == x && FirstOfItsConfiguration(xs, k)
  {
    if |xs| > 0 {
      var n := |xs| - 1;
      var front := xs[..n];
      var kept := KeepFirsts(front);
      var last := xs[n];
      KeepFirstsAreFirsts(front, x);
      if x in kept {
        var k :| 0 <= k < n && front[k] == x && FirstOfItsConfiguration(front, k);
        assert xs[k] == x && FirstOfItsConfiguration(xs, k);
      }
      if exists k :: 0 <= k < |xs| && xs[k] == x && FirstOfItsConfiguration(xs, k) {
        var k :| 0 <= k < |xs| && xs[k] == x && FirstOfItsConfiguration(xs, k);
        if k < n {
          assert front[k] == x && FirstOfItsConfiguration(front, k);
        } else {
          forall m | 0 <= m < |kept|
            ensures Configurations(kept)[m] != last.configuration
          {
            KeepFirstsAreFirsts(front, kept[m]);
            var j :| 0 <= j < n && front[j] == kept[m] && FirstOfItsConfiguration(front, j);
            assert xs[j] == kept[m];
          }
          assert KeepFirsts(xs) == kept + [last];
        }
      }
      if x == last && last.configuration !in Configurations(kept) {
        forall j | 0 <= j < n
          ensures xs[j].configuration != last.configuration
        {
          KeepFirstsCovers(front, j);
          assert front[j] == xs[j];
        }
        assert FirstOfItsConfiguration(xs, n);
      }
    }
  }

  /** The kept structures have pairwise different configurations, every
      configuration of the input is kept, and what is kept is exactly the
      first structure of each configuration. */
  lemma KeepFirstsFacts(xs: seq<ConcreteSqs>)
    ensures Distinct(Configurations(KeepFirsts(xs)))
    ensures forall k :: 0 <= k < |xs| ==> xs[k].configuration in Configurations(KeepFirsts(xs))
    ensures forall x :: x in KeepFirsts(xs) <==> exists k :: 0 <= k < |xs| && xs[k] == x && FirstOfItsConfiguration(xs, k)
  {
    KeepFirstsDistinct(xs);
    forall k | 0 <= k < |xs|
      ensures xs[k].configuration in Configurations(KeepFirsts(xs))
    {
      KeepFirstsCovers(xs, k);
    }
    forall x
      ensures x in KeepFirsts(xs) <==> exists k :: 0 <= k < |xs| && xs[k] == x && FirstOfItsConfiguration(xs, k)
    {
      KeepFirstsAreFirsts(xs, x);
    }
  }

  /** The de-duplication loop of `enumerate_sqs`: a structure is appended
      unless its configuration was seen before. The occupancy test beside it
      always passes, since the list it looks in holds only itself. */
  method DedupByConfiguration(xs: seq<ConcreteSqs>) returns (result: seq<ConcreteSqs>)
    ensures result == KeepFirsts(xs)
  {
    result := [];
    var seen: seq<seq<seq<string>>> := [];
    var i := 0;
    while i < |xs|
      invariant i <= |xs|
      invariant result == KeepFirsts(xs[..i])
      invariant seen == Configurations(result)
    {
      assert xs[..i + 1][..i] == xs[..i];
      if xs[i].configuration !in seen {
        seen := seen + [xs[i].configuration];
        result := result + [xs[i]];
      }
      i := i + 1;
    }
    assert xs[..i] == xs;
  }

  // ---------------------------------------------------------------------------
  // enumerate_sqs

  /** `enumerate_sqs` (without volume rescaling) as written: a size mismatch
      when the outer lengths differ; when the list of solution lengths is
      lexicographically smaller than the abstract one, `[]` if failures are
      skipped and a lower-order error otherwise; else the first concrete SQS
      of each configuration, in candidate order. */
  function EnumerateSqs(a: AbstractSqs, solution: seq<seq<string>>, skipOnFailure: bool): (r: Result<seq<ConcreteSqs>>)
    ensures |solution| != |a.model| ==> r == Err(SizeMismatch)
    ensures |solution| == |a.model| && LexLess(Lengths(solution), Lengths(a.model)) ==>
              r == (if skipOnFailure then Ok([]) else Err(LowerOrder))
    ensures r.Err? ==> r.error == SizeMismatch || r.error == LowerOrder || r.error == MissingSpecies
  {
    if |solution| != |a.model| then Err(SizeMismatch)
    else if LexLess(Lengths(solution), Lengths(a.model)) then
      if skipOnFailure then Ok([]) else Err(LowerOrder)
    else
      var concrete :- ConcretizeAll(a, Candidates(a, solution));
      Ok(KeepFirsts(concrete))
  }

  /** The lower-order error is never raised in vain: when it is, some
      sublattice of the solution really has too few species. */
  lemma LowerOrderIsShort(a: AbstractSqs, solution: seq<seq<string>>, skipOnFailure: bool)
    requires EnumerateSqs(a, solution, skipOnFailure) == Err(LowerOrder)
    ensures |solution| == |a.model| && HasShortRow(solution, a)
  {
    LexCheckImpliesShortRow(a, solution);
  }

  /** Passing both checks. */
  predicate Accepted(a: AbstractSqs, solution: seq<seq<string>>)
  {
    |solution| == |a.model| && !LexLess(Lengths(solution), Lengths(a.model))
  }

  lemma CandidatesConcretize(a: AbstractSqs, solution: seq<seq<string>>)
    requires |solution| == |a.model|
    ensures AllPresent(a) ==> ConcretizeAll(a, Candidates(a, solution)).Ok?
    ensures !AllPresent(a) && |Candidates(a, solution)| > 0 ==> ConcretizeAll(a, Candidates(a, solution)) == Err(MissingSpecies)
  {
    var cs := Candidates(a, solution);
    forall k | 0 <= k < |cs|
      ensures RowsAgree(a, cs[k])
    {
      CandidatesAgree(a, solution, k);
    }
  }

  /** Past the checks, the enumeration fails exactly when there is a
      candidate and some placeholder is missing from the structure. */
  lemma EnumerateFails(a: AbstractSqs, solution: seq<seq<string>>, skipOnFailure: bool)
    requires Accepted(a, solution)
    ensures EnumerateSqs(a, solution, skipOnFailure).Err? <==> !AllPresent(a) && !HasShortRow(solution, a)
    ensures EnumerateSqs(a, solution, skipOnFailure).Err? ==> EnumerateSqs(a, solution, skipOnFailure).error == MissingSpecies
  {
    CandidatesExist(a, solution);
    CandidatesConcretize(a, solution);
  }

  /** Past the lexicographic check, a sublattice that is still too short
      leaves no candidate, and the result is empty without any error. */
  lemma ShortRowGivesNothing(a: AbstractSqs, solution: seq<seq<string>>, skipOnFailure: bool)
    requires Accepted(a, solution) && HasShortRow(solution, a)
    ensures EnumerateSqs(a, solution, skipOnFailure) == Ok([])
  {
    CandidatesExist(a, solution);
  }

  /** The structures returned have pairwise different configurations; each
      is the concrete SQS of the first candidate with its configuration, and
      every candidate's configuration is among them. */
  lemma EnumerateResult(a: AbstractSqs, solution: seq<seq<string>>, skipOnFailure: bool)
    requires Accepted(a, solution) && EnumerateSqs(a, solution, skipOnFailure).Ok?
    ensures var r := EnumerateSqs(a, solution, skipOnFailure).value;
            Distinct(Configurations(r))
    ensures var r := EnumerateSqs(a, solution, skipOnFailure).value;
            var cs := Candidates(a, solution);
            forall x :: x in r <==> exists k :: 0 <= k < |cs| && x == GetConcrete(a, cs[k]).value &&
                                     forall j :: 0 <= j < k ==> GetConcrete(a, cs[j]).value.configuration != x.configuration
    ensures var r := EnumerateSqs(a, solution, skipOnFailure).value;
            var cs := Candidates(a, solution);
            forall k :: 0 <= k < |cs| ==> GetConcrete(a, cs[k]).value.configuration in Configurations(r)
  {
    var cs := Candidates(a, solution);
    var concrete := ConcretizeAll(a, cs).value;
    KeepFirstsFacts(concrete);
  }

  // ---------------------------------------------------------------------------
  // The lower-order check

  /** `enumerate_sqs` with the lower-order check made sublattice by
      sublattice, as its error message describes it. */
  function EnumerateSqsElementwise(a: AbstractSqs, solution: seq<seq<string>>, skipOnFailure: bool): (r: Result<seq<ConcreteSqs>>)
    ensures |solution| != |a.model| ==> r == Err(SizeMismatch)
    ensures |solution| == |a.model| && HasShortRow(solution, a) ==>
              r == (if skipOnFailure then Ok([]) else Err(LowerOrder))
  {
    if |solution| != |a.model| then Err(SizeMismatch)
    else if HasShortRow(solution, a) then
      if skipOnFailure then Ok([]) else Err(LowerOrder)
    else
      var concrete :- ConcretizeAll(a, Candidates(a, solution));
      Ok(KeepFirsts(concrete))
  }

  /** With the elementwise check, a solution model the check accepts always
      yields at least one structure when every placeholder is present. */
  lemma ElementwiseNeverSilentlyEmpty(a: AbstractSqs, solution: seq<seq<string>>, skipOnFailure: bool)
    requires |solution| == |a.model| && AllPresent(a) && !HasShortRow(solution, a)
    ensures EnumerateSqsElementwise(a, solution, skipOnFailure).Ok?
    ensures |EnumerateSqsElementwise(a, solution, skipOnFailure).value| > 0
  {
    CandidatesExist(a, solution);
    CandidatesConcretize(a, solution);
    var concrete := ConcretizeAll(a, Candidates(a, solution)).value;
    KeepFirstsCovers(concrete, 0);
  }

  /** An abstract SQS with a one-symbol sublattice `a` and a two-symbol
      sublattice `b`. */
  function TwoSublattices(): AbstractSqs
  {
    var v := Vector("0", "0", "0");
    AbstractSqs([Site(v, Placeholder("a", "a")), Site(v, Placeholder("b", "a")), Site(v, Placeholder("b", "b"))],
                [["a"], ["a", "b"]], ["a", "b"])
  }

  /** The solution lengths `[2, 1]` are not lexicographically below `[1, 2]`,
      so the check lets through a second sublattice that is too short; as
      written, the enumeration then returns nothing instead of raising, while
      the elementwise check raises. */
  lemma LexCheckMissesShortRow()
    ensures AllPresent(TwoSublattices())
    ensures EnumerateSqs(TwoSublattices(), [["Al", "Fe"], ["Ni"]], false) == Ok([])
    ensures EnumerateSqsElementwise(TwoSublattices(), [["Al", "Fe"], ["Ni"]], false) == Err(LowerOrder)
  {
    var a := TwoSublattices();
    var solution := [["Al", "Fe"], ["Ni"]];
    var species := SpeciesOf(a.sites);
    assert Width(a) == 2;
    forall i, j | 0 <= i < Width(a) && 0 <= j < |a.model[i]|
      ensures TokenCount(a, i, j) > 0
    {
      assert Token(a, i, j) == species[if i == 0 then 0 else 1 + j];
      CountPositiveIffPresent(species, Token(a, i, j));
    }
    assert Lengths(solution) == [2, 1];
    assert Lengths(a.model) == [1, 2];
    assert !LexLess([2, 1], [1, 2]);
    assert |solution[1]| < |a.model[1]|;
    ShortRowGivesNothing(a, solution, false);
  }
}
