/** The sublattice bookkeeping of a concrete SQS as ESPEI reads it, and its
    re-indexing.

    ESPEI writes a sublattice with a single entry as that entry alone and a
    sublattice with several entries as the list of them. Re-indexing reorders
    the sublattice configuration, occupancies and site ratios together by a
    permutation of the sublattice indices.
 */
module Reindex {
  import opened Outcomes
  import opened Tally
  import opened Sqs

  // ---------------------------------------------------------------------------
  // ESPEI format

  /** One sublattice in ESPEI's format: a lone entry or a list of entries. */
  datatype Entry<T> = One(item: T) | Many(items: seq<T>)

  /** `canonicalize_sublattice`: a one-entry sublattice becomes its entry;
      any other (including an empty one) stays a list. */
  function Canonicalize<T>(sl: seq<T>): (r: Entry<T>)
    ensures r.One? <==> |sl| == 1
    ensures r.One? ==> r.item == sl[0]
    ensures r.Many? ==> r.items == sl
  {
    if |sl| == 1 then One(sl[0]) else Many(sl)
  }

  /** Reading an ESPEI entry back as a list. */
  function Expand<T>(e: Entry<T>): (r: seq<T>)
    ensures e.One? ==> r == [e.item]
    ensures e.Many? ==> r == e.items
  {
    match e
    case One(x) => [x]
    case Many(xs) => xs
  }

  /** Canonicalizing loses nothing: the list is read back unchanged. */
  lemma ExpandCanonicalize<T>(sl: seq<T>)
    ensures Expand(Canonicalize(sl)) == sl
  {
    if |sl| == 1 {
      assert [sl[0]] == sl;
    }
  }

  /** Canonical entries are fixed points: every entry except a one-element
      list is what its expansion canonicalizes to. */
  lemma CanonicalizeExpand<T>(e: Entry<T>)
    ensures Canonicalize(Expand(e)) == e <==> !(e.Many? && |e.items| == 1)
  {
  }

  /** `espei_sublattice_configuration` and `espei_sublattice_occupancies`:
      every sublattice canonicalized, in order. */
  function EspeiRows<T>(rows: seq<seq<T>>): (r: seq<Entry<T>>)
    ensures |r| == |rows|
    ensures forall i :: 0 <= i < |rows| ==> Expand(r[i]) == rows[i]
    ensures forall i :: 0 <= i < |rows| ==> (r[i].One? <==> |rows[i]| == 1)
  {
    assert forall i :: 0 <= i < |rows| ==> Expand(Canonicalize(rows[i])) == rows[i] by {
      forall i | 0 <= i < |rows| {
        ExpandCanonicalize(rows[i]);
      }
    }
    seq(|rows|, i requires 0 <= i < |rows| => Canonicalize(rows[i]))
  }

  /** The ESPEI configuration of `[['Fe', 'Ni'], ['Fe']]` is `[['Fe', 'Ni'], 'Fe']`. */
  lemma EspeiConfigurationExample()
    ensures EspeiRows([["Fe", "Ni"], ["Fe"]]) == [Many(["Fe", "Ni"]), One("Fe")]
  {
    var r := EspeiRows([["Fe", "Ni"], ["Fe"]]);
    assert Expand(r[0]) == ["Fe", "Ni"];
    assert Expand(r[1]) == ["Fe"];
  }

  // ---------------------------------------------------------------------------
  // Re-indexing

  /** `list(range(n))`. */
  function Range(n: nat): (r: seq<nat>)
    ensures |r| == n
    ensures forall k :: 0 <= k < n ==> r[k] == k
  {
    if n == 0 then [] else Range(n - 1) + [n - 1]
  }

  /** `sorted(idx) == list(range(n))`: the indices are a rearrangement of
      `0 .. n-1`, that is, have the same multiset. */
  predicate ValidIndices(idx: seq<nat>, n: nat)
  {
    multiset(idx) == multiset(Range(n))
  }

  /** A sequence has no repeated entry exactly when it holds every value at
      most once. */
  lemma {:induction false} DistinctMultiset<T>(xs: seq<T>)
    ensures Distinct(xs) <==> forall v :: multiset(xs)[v] <= 1
  {
    if |xs| > 0 {
      var n := |xs| - 1;
      var front := xs[..n];
      DistinctMultiset(front);
      assert xs == front + [xs[n]];
      assert multiset(xs) == multiset(front) + multiset{xs[n]};
      if Distinct(xs) {
        assert Distinct(front) by {
          forall i, j | 0 <= i < j < |front|
            ensures front[i] != front[j]
          {
            assert front[i] == xs[i] && front[j] == xs[j];
          }
        }
        assert xs[n] !in front by {
          forall i | 0 <= i < |front|
            ensures front[i] != xs[n]
          {
            assert front[i] == xs[i];
          }
        }
      } else {
        var i, j :| 0 <= i < j < |xs| && xs[i] == xs[j];
        if j < n {
          assert front[i] == front[j];
          var v :| multiset(front)[v] > 1;
          assert multiset(xs)[v] > 1;
        } else {
          assert front[i] == xs[n];
          assert xs[n] in multiset(front);
          assert multiset(xs)[xs[n]] >= 2;
        }
      }
    }
  }

  lemma RangeMembers(n: nat, v: nat)
    ensures v in multiset(Range(n)) <==> v < n
  {
    if v < n {
      assert Range(n)[v] == v;
    }
  }

  lemma {:induction false} SubMultisetOfSameSize<T>(a: multiset<T>, b: multiset<T>)
    requires a <= b && |a| == |b|
    ensures a == b
  {
    var rest := b - a;
    assert b == a + rest;
    assert |rest| == 0;
  }

  /** The indices are a permutation of the sublattice indices exactly when
      there are `n` of them, each below `n`, none repeated. */
  lemma ValidIndicesIff(idx: seq<nat>, n: nat)
    ensures ValidIndices(idx, n) <==>
            |idx| == n && (forall k :: 0 <= k < |idx| ==> idx[k] < n) && Distinct(idx)
  {
    var range := Range(n);
    DistinctMultiset(idx);
    DistinctMultiset(range);
    assert Distinct(range);
    if ValidIndices(idx, n) {
      assert |idx| == |multiset(idx)| == |multiset(range)| == n;
      forall k | 0 <= k < |idx|
        ensures idx[k] < n
      {
        assert idx[k] in multiset(idx);
        RangeMembers(n, idx[k]);
      }
    }
    if |idx| == n && (forall k :: 0 <= k < |idx| ==> idx[k] < n) && Distinct(idx) {
      assert multiset(idx) <= multiset(range) by {
        forall v | v in multiset(idx)
          ensures multiset(idx)[v] <= multiset(range)[v]
        {
          RangeMembers(n, v);
        }
      }
      SubMultisetOfSameSize(multiset(idx), multiset(range));
    }
  }

  /** `[xs[i] for i in idx]`. */
  function Pick<T>(xs: seq<T>, idx: seq<nat>): (r: seq<T>)
    requires forall k :: 0 <= k < |idx| ==> idx[k] < |xs|
    ensures |r| == |idx|
    ensures forall k :: 0 <= k < |idx| ==> r[k] == xs[idx[k]]
  {
    seq(|idx|, k requires 0 <= k < |idx| => xs[idx[k]])
  }

  /** A re-indexed sublattice description. */
  datatype Reindexed = Reindexed(configuration: seq<seq<string>>, occupancies: seq<seq<real>>, siteRatios: seq<nat>)

  predicate AllBelow(idx: seq<nat>, n: nat)
  {
    forall k :: 0 <= k < |idx| ==> idx[k] < n
  }

  /** `SQS.reindex_sublattice`: `ValueError` unless the indices are a
      permutation of the configuration's indices; `IndexError` when the
      occupancies or the site ratios are too short for them; otherwise all
      three reordered so that entry `k` is the old entry `idx[k]`. */
  function ReindexSublattice(idx: seq<nat>, conf: seq<seq<string>>, occ: seq<seq<real>>, ratios: seq<nat>): (r: Result<Reindexed>)
    ensures !ValidIndices(idx, |conf|) ==> r == Err(InvalidIndices)
    ensures ValidIndices(idx, |conf|) && (|occ| < |conf| || |ratios| < |conf|) ==> r == Err(IndexOutOfRange)
    ensures r.Ok? <==> ValidIndices(idx, |conf|) && |occ| >= |conf| && |ratios| >= |conf|
    ensures r.Ok? ==> |idx| == |conf| && AllBelow(idx, |conf|)
    ensures r.Ok? ==> |r.value.configuration| == |r.value.occupancies| == |r.value.siteRatios| == |conf|
    ensures r.Ok? ==> forall k :: 0 <= k < |conf| ==>
              && r.value.configuration[k] == conf[idx[k]]
              && r.value.occupancies[k] == occ[idx[k]]
              && r.value.siteRatios[k] == ratios[idx[k]]
  {
    ValidIndicesIff(idx, |conf|);
    if !ValidIndices(idx, |conf|) then Err(InvalidIndices)
    else if !AllBelow(idx, |occ|) || !AllBelow(idx, |ratios|) then Err(IndexOutOfRange)
    else
      assert |occ| >= |conf| && |ratios| >= |conf| by {
        if |conf| > 0 {
          RangeMembers(|conf|, |conf| - 1);
          assert |conf| - 1 in multiset(idx);
          var k :| 0 <= k < |idx| && idx[k] == |conf| - 1;
        }
      }
      Ok(Reindexed(Pick(conf, idx), Pick(occ, idx), Pick(ratios, idx)))
  }

  /** `SQS.reindex`: the concrete SQS with its sublattice description
      re-indexed and its sites unchanged. */
  function ReindexSqs(s: ConcreteSqs, idx: seq<nat>): (r: Result<ConcreteSqs>)
    ensures r.Ok? <==> ReindexSublattice(idx, s.configuration, s.occupancies, s.siteRatios).Ok?
    ensures r.Err? ==> r.error == ReindexSublattice(idx, s.configuration, s.occupancies, s.siteRatios).error
    ensures r.Ok? ==> r.value.sites == s.sites
    ensures r.Ok? ==> var p := ReindexSublattice(idx, s.configuration, s.occupancies, s.siteRatios).value;
                      r.value.configuration == p.configuration && r.value.occupancies == p.occupancies &&
                      r.value.siteRatios == p.siteRatios
  {
    var p :- ReindexSublattice(idx, s.configuration, s.occupancies, s.siteRatios);
    Ok(ConcreteSqs(s.sites, p.configuration, p.occupancies, p.siteRatios))
  }

  /** The docstring's example: swapping two sublattices. */
  lemma ReindexExample()
    ensures ReindexSublattice([1, 0], [["Al", "Ni"], ["Al"]], [[0.333, 0.666], [1.0]], [3, 1])
         == Ok(Reindexed([["Al"], ["Al", "Ni"]], [[1.0], [0.333, 0.666]], [1, 3]))
  {
    var idx: seq<nat> := [1, 0];
    assert ValidIndices(idx, 2) by {
      assert Range(2) == [0, 1];
    }
    var r := ReindexSublattice(idx, [["Al", "Ni"], ["Al"]], [[0.333, 0.666], [1.0]], [3, 1]);
    assert r.Ok?;
    assert r.value.configuration == [["Al"], ["Al", "Ni"]];
    assert r.value.occupancies == [[1.0], [0.333, 0.666]];
    assert r.value.siteRatios == [1, 3];
  }

  /** Where `k` sits in the index list. */
  function PositionOf(idx: seq<nat>, k: nat): (p: nat)
    requires k in idx
    ensures p < |idx| && idx[p] == k
  {
    if idx[0] == k then 0 else 1 + PositionOf(idx[1..], k)
  }

  /** The permutation undoing `idx`. */
  function Inverse(idx: seq<nat>): (r: seq<nat>)
    requires ValidIndices(idx, |idx|)
    ensures |r| == |idx| && ValidIndices(r, |idx|)
    ensures forall k :: 0 <= k < |idx| ==> r[k] < |idx| && idx[r[k]] == k
  {
    ValidIndicesIff(idx, |idx|);
    assert forall k :: 0 <= k < |idx| ==> k in idx by {
      forall k | 0 <= k < |idx|
        ensures k in idx
      {
        RangeMembers(|idx|, k);
        assert k in multiset(idx);
      }
    }
    var r := seq(|idx|, k requires 0 <= k < |idx| => PositionOf(idx, k));
    assert Distinct(r) by {
      forall i, j | 0 <= i < j < |r|
        ensures r[i] != r[j]
      {
        assert idx[r[i]] == i && idx[r[j]] == j;
      }
    }
    ValidIndicesIff(r, |idx|);
    r
  }

  /** Re-indexing by the inverse permutation undoes a re-indexing. */
  lemma ReindexInverse(idx: seq<nat>, conf: seq<seq<string>>, occ: seq<seq<real>>, ratios: seq<nat>)
    requires ReindexSublattice(idx, conf, occ, ratios).Ok?
    requires |occ| == |conf| && |ratios| == |conf|
    ensures var p := ReindexSublattice(idx, conf, occ, ratios).value;
            var inv := Inverse(idx);
            ReindexSublattice(inv, p.configuration, p.occupancies, p.siteRatios) == Ok(Reindexed(conf, occ, ratios))
  {
    var p := ReindexSublattice(idx, conf, occ, ratios).value;
    ValidIndicesIff(idx, |conf|);
    var inv := Inverse(idx);
    var q := ReindexSublattice(inv, p.configuration, p.occupancies, p.siteRatios);
    assert q.Ok?;
    assert q.value.configuration == conf;
    assert q.value.occupancies == occ;
    assert q.value.siteRatios == ratios;
  }
}
