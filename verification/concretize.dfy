/** Making an abstract SQS concrete, as `AbstractSQS.get_concrete_sqs` does.

    A concrete sublattice model names one element per abstract symbol, row by
    row. Every placeholder `(name, symbol)` of the abstract SQS is replaced by
    the element in the same slot; each sublattice is then described by the
    sorted set of its elements (the configuration), the fraction of the
    sublattice each element takes (the occupancies, computed from the reduced
    site ratios), and the sublattice's total reduced ratio.

    Volume rescaling is not part of this model.
 */
module Concretize {
  import opened Outcomes
  import opened Tally
  import opened Order
  import opened Crystal
  import opened Sqs

  /** Every zipped sublattice of the concrete model has as many slots as the
      abstract one. */
  predicate RowsAgree(a: AbstractSqs, concrete: seq<seq<string>>)
  {
    |concrete| == |a.model| && forall i :: 0 <= i < Width(a) ==> |concrete[i]| == |a.model[i]|
  }

  // ---------------------------------------------------------------------------
  // The replacement dictionary

  /** Assign `keys[j] := Element(values[j])` into `m` for every `j` in order, a
      later assignment overriding an earlier one. */
  function Override(m: map<Species, Species>, keys: seq<Species>, values: seq<string>): map<Species, Species>
    requires |keys| == |values|
  {
    if |keys| == 0 then m
    else Override(m, keys[..|keys| - 1], values[..|values| - 1])[keys[|keys| - 1] := Element(values[|values| - 1])]
  }

  /** A key is bound after the assignments exactly when it was bound before or
      is assigned; a key that is not assigned keeps its value; and when no key
      is assigned twice, each assigned key holds its own value. */
  lemma {:induction false} OverrideFacts(m: map<Species, Species>, keys: seq<Species>, values: seq<string>, x: Species)
    requires |keys| == |values|
    ensures x in Override(m, keys, values) <==> x in m || x in keys
    ensures x !in keys && x in m ==> Override(m, keys, values)[x] == m[x]
    ensures Distinct(keys) ==> forall j :: 0 <= j < |keys| && keys[j] == x ==> Override(m, keys, values)[x] == Element(values[j])
  {
    if |keys| > 0 {
      var n := |keys| - 1;
      OverrideFacts(m, keys[..n], values[..n], x);
      assert keys == keys[..n] + [keys[n]];
      if Distinct(keys) {
        forall j | 0 <= j < |keys| && keys[j] == x
          ensures Override(m, keys, values)[x] == Element(values[j])
        {
          if j < n {
            assert keys[..n][j] == x;
          }
        }
      }
    }
  }

  /** `replacement_dict` after the first `n` zipped sublattices. */
  function ReplacementsUpTo(a: AbstractSqs, concrete: seq<seq<string>>, n: nat): map<Species, Species>
    requires RowsAgree(a, concrete) && n <= Width(a)
  {
    if n == 0 then map[] else Override(ReplacementsUpTo(a, concrete, n - 1), RowTokens(a, n - 1), concrete[n - 1])
  }

  /** `replacement_dict`: every placeholder of the zipped sublattices mapped to
      the element in its slot. */
  function Replacements(a: AbstractSqs, concrete: seq<seq<string>>): map<Species, Species>
    requires RowsAgree(a, concrete)
  {
    ReplacementsUpTo(a, concrete, Width(a))
  }

  lemma {:induction false} DistinctSplit<T>(xs: seq<T>, ys: seq<T>)
    requires Distinct(xs + ys)
    ensures Distinct(xs) && Distinct(ys)
    ensures forall y :: y in ys ==> y !in xs
  {
    var zs := xs + ys;
    assert forall i :: 0 <= i < |xs| ==> zs[i] == xs[i];
    assert forall j :: 0 <= j < |ys| ==> zs[|xs| + j] == ys[j];
    forall y | y in ys
      ensures y !in xs
    {
      var j :| 0 <= j < |ys| && ys[j] == y;
      forall i | 0 <= i < |xs|
        ensures xs[i] != y
      {
        assert zs[i] != zs[|xs| + j];
      }
    }
  }

  lemma {:induction false} TokensPrefix(a: AbstractSqs, n: nat, m: nat)
    requires n <= m <= Width(a)
    ensures TokensUpTo(a, n) <= TokensUpTo(a, m)
    decreases m
  {
    if n < m {
      TokensPrefix(a, n, m - 1);
    }
  }

  lemma {:induction false} TokenInPrefix(a: AbstractSqs, n: nat, i: nat, j: nat)
    requires i < n <= Width(a) && j < |a.model[i]|
    ensures Token(a, i, j) in TokensUpTo(a, n)
  {
    TokensPrefix(a, i + 1, n);
    var row := RowTokens(a, i);
    assert row[j] == Token(a, i, j);
    assert TokensUpTo(a, i + 1) == TokensUpTo(a, i) + row;
    assert TokensUpTo(a, i + 1)[|TokensUpTo(a, i)| + j] == Token(a, i, j);
    assert TokensUpTo(a, n)[|TokensUpTo(a, i)| + j] == Token(a, i, j);
  }

  /** When no placeholder is listed twice, the replacement dictionary sends
      each placeholder to the element in its own slot. */
  lemma {:induction false} ReplacementsExactUpTo(a: AbstractSqs, concrete: seq<seq<string>>, n: nat, i: nat, j: nat)
    requires RowsAgree(a, concrete) && n <= Width(a)
    requires Distinct(TokensUpTo(a, n))
    requires i < n && j < |a.model[i]|
    ensures Token(a, i, j) in ReplacementsUpTo(a, concrete, n)
    ensures ReplacementsUpTo(a, concrete, n)[Token(a, i, j)] == Element(concrete[i][j])
  {
    var before := ReplacementsUpTo(a, concrete, n - 1);
    var row := RowTokens(a, n - 1);
    DistinctSplit(TokensUpTo(a, n - 1), row);
    OverrideFacts(before, row, concrete[n - 1], Token(a, i, j));
    if i < n - 1 {
      ReplacementsExactUpTo(a, concrete, n - 1, i, j);
      TokenInPrefix(a, n - 1, i, j);
    } else {
      assert row[j] == Token(a, i, j);
    }
  }

  /** The replacement dictionary binds exactly the model's placeholders. */
  lemma {:induction false} ReplacementKeysUpTo(a: AbstractSqs, concrete: seq<seq<string>>, n: nat, x: Species)
    requires RowsAgree(a, concrete) && n <= Width(a)
    ensures x in ReplacementsUpTo(a, concrete, n) <==> x in TokensUpTo(a, n)
  {
    if n > 0 {
      ReplacementKeysUpTo(a, concrete, n - 1, x);
      OverrideFacts(ReplacementsUpTo(a, concrete, n - 1), RowTokens(a, n - 1), concrete[n - 1], x);
    }
  }

  // ---------------------------------------------------------------------------
  // Occupancies

  /** Each slot's share of its sublattice: site ratio over the sublattice's
      total ratio. */
  function Fractions(ratios: seq<nat>): (r: seq<real>)
    ensures |r| == |ratios|
  {
    if SumNat(ratios) == 0 then AsReals(ratios) else Scale(AsReals(ratios), SumNat(ratios) as real)
  }

  lemma {:induction false} SumNatPositive(ratios: seq<nat>)
    requires forall j :: 0 <= j < |ratios| ==> ratios[j] > 0
    ensures |ratios| > 0 <==> SumNat(ratios) > 0
  {
    if |ratios| > 0 {
      SumNatPositive(ratios[..|ratios| - 1]);
    }
  }

  /** What the occupancy row of a sublattice needs: one positive ratio per
      slot, and the sorted set of the slots' elements. */
  predicate OccupancyInput(species: seq<string>, ratios: seq<nat>, conf: seq<string>)
  {
    && |species| == |ratios|
    && (forall j :: 0 <= j < |ratios| ==> ratios[j] > 0)
    && StrictlySorted(conf) && Elems(conf) == Elems(species)
  }

  /** The occupancy of each element of a sublattice, over its sorted element
      set: the shares of the slots holding that element, added up. */
  function Occupancy(species: seq<string>, ratios: seq<nat>, conf: seq<string>): (r: seq<real>)
    requires OccupancyInput(species, ratios, conf)
    ensures |r| == |conf|
  {
    KeySums(species, Fractions(ratios), conf)
  }

  lemma ElementsCovered(species: seq<string>, conf: seq<string>)
    requires Elems(conf) == Elems(species)
    ensures forall j :: 0 <= j < |species| ==> species[j] in conf
  {
    forall j | 0 <= j < |species|
      ensures species[j] in conf
    {
      assert species[j] in Elems(species);
    }
  }

  /** The occupancies of a non-empty sublattice sum to one. */
  lemma OccupancySum(species: seq<string>, ratios: seq<nat>, conf: seq<string>)
    requires OccupancyInput(species, ratios, conf) && |species| > 0
    ensures Sum(Occupancy(species, ratios, conf)) == 1.0
  {
    var total := SumNat(ratios);
    var w := AsReals(ratios);
    SumNatPositive(ratios);
    StrictlySortedDistinct(conf);
    ElementsCovered(species, conf);
    KeySumsPartition(species, Fractions(ratios), conf);
    SumScale(w, total as real);
    SumOfReals(ratios);
  }

  /** Each element's occupancy is positive, and is its part of the
      sublattice's total ratio: the occupancy times the total is the sum of
      the ratios of the slots holding the element. */
  lemma OccupancyEntry(species: seq<string>, ratios: seq<nat>, conf: seq<string>, k: nat)
    requires OccupancyInput(species, ratios, conf) && k < |conf|
    ensures Occupancy(species, ratios, conf)[k] > 0.0
    ensures Occupancy(species, ratios, conf)[k] * SumNat(ratios) as real == KeySum(species, AsReals(ratios), conf[k])
  {
    var total := SumNat(ratios);
    var w := AsReals(ratios);
    var fr := Fractions(ratios);
    var x := conf[k];
    assert x in Elems(species);
    SumNatPositive(ratios);
    assert total > 0;
    assert fr == Scale(w, total as real);
    var o := Occupancy(species, ratios, conf)[k];
    assert o == KeySum(species, fr, x);
    assert forall j :: 0 <= j < |fr| ==> fr[j] > 0.0;
    KeySumPositive(species, fr, x);
    KeySumScale(species, w, total as real, x);
    ShareTimesWhole(KeySum(species, w, x), total as real);
  }

  // ---------------------------------------------------------------------------
  // get_concrete_sqs

  /** The sum of the site counts of the placeholders of sublattice `i`. */
  function RowCount(a: AbstractSqs, i: nat): nat
    requires i < Width(a)
  {
    SumNat(seq(|a.model[i]|, j requires 0 <= j < |a.model[i]| => TokenCount(a, i, j)))
  }

  /** Each configuration is the sorted list of the distinct elements of its
      concrete sublattice. */
  predicate Canonical(conf: seq<seq<string>>, concrete: seq<seq<string>>)
  {
    |conf| == |concrete| &&
    forall i :: 0 <= i < |conf| ==> StrictlySorted(conf[i]) && Elems(conf[i]) == Elems(concrete[i])
  }

  /** `sublattice_configuration`: the sorted distinct elements of every
      concrete sublattice. */
  function Configuration(concrete: seq<seq<string>>): (r: seq<seq<string>>)
    ensures Canonical(r, concrete)
  {
    seq(|concrete|, i requires 0 <= i < |concrete| => SortedSet(concrete[i]))
  }

  /** Reduced site ratios are positive. */
  lemma RatiosPositive(a: AbstractSqs, i: nat, j: nat)
    requires SiteRatios(a).Ok? && i < Width(a) && j < |a.model[i]|
    ensures SiteRatios(a).value[i][j] > 0
  {
    assert SiteRatios(a).value[i][j] * CompositionGcd(a.sites) == TokenCount(a, i, j);
  }

  /** `sublattice_occupancies`: for every zipped sublattice, the occupancy of
      each element of its configuration. Each row is positive and sums to one
      when the sublattice is not empty, and each occupancy times the
      sublattice's total reduced ratio is the sum of the reduced ratios of the
      slots holding that element. */
  function Occupancies(a: AbstractSqs, concrete: seq<seq<string>>): (r: seq<seq<real>>)
    requires RowsAgree(a, concrete) && SiteRatios(a).Ok?
    ensures |r| == Width(a)
    ensures forall i :: 0 <= i < Width(a) ==>
              && |r[i]| == |Configuration(concrete)[i]|
              && (|a.model[i]| > 0 ==> Sum(r[i]) == 1.0)
              && forall k :: 0 <= k < |r[i]| ==> r[i][k] > 0.0
    ensures forall i :: 0 <= i < Width(a) ==>
              && OccupancyInput(concrete[i], SiteRatios(a).value[i], Configuration(concrete)[i])
              && r[i] == Occupancy(concrete[i], SiteRatios(a).value[i], Configuration(concrete)[i])
  {
    var ratios := SiteRatios(a).value;
    var conf := Configuration(concrete);
    assert forall i :: 0 <= i < Width(a) ==> OccupancyInput(concrete[i], ratios[i], conf[i]) by {
      forall i, j | 0 <= i < Width(a) && 0 <= j < |a.model[i]|
        ensures ratios[i][j] > 0
      {
        RatiosPositive(a, i, j);
      }
    }
    var r := seq(Width(a), i requires 0 <= i < Width(a) => Occupancy(concrete[i], ratios[i], conf[i]));
    assert forall i :: 0 <= i < Width(a) ==> |a.model[i]| > 0 ==> Sum(r[i]) == 1.0 by {
      forall i | 0 <= i < Width(a) && |a.model[i]| > 0
        ensures Sum(r[i]) == 1.0
      {
        OccupancySum(concrete[i], ratios[i], conf[i]);
      }
    }
    assert forall i, k :: 0 <= i < Width(a) && 0 <= k < |r[i]| ==> r[i][k] > 0.0 by {
      forall i, k | 0 <= i < Width(a) && 0 <= k < |r[i]|
        ensures r[i][k] > 0.0
      {
        OccupancyEntry(concrete[i], ratios[i], conf[i], k);
      }
    }
    r
  }

  /** An occupancy times its sublattice's total reduced ratio is the sum of
      the reduced ratios of the slots holding that element. */
  lemma OccupanciesEntry(a: AbstractSqs, concrete: seq<seq<string>>, i: nat, k: nat)
    requires RowsAgree(a, concrete) && SiteRatios(a).Ok?
    requires i < Width(a) && k < |Configuration(concrete)[i]|
    ensures IsFraction(Occupancies(a, concrete)[i][k],
                       KeySum(concrete[i], AsReals(SiteRatios(a).value[i]), Configuration(concrete)[i][k]),
                       SumNat(SiteRatios(a).value[i]))
  {
    var ratios := SiteRatios(a).value;
    var conf := Configuration(concrete);
    RowEntry(Occupancies(a, concrete)[i], concrete[i], ratios[i], conf[i], k);
  }

  /** `OccupancyEntry` for a row known to be the occupancy of its inputs. */
  lemma RowEntry(row: seq<real>, species: seq<string>, ratios: seq<nat>, conf: seq<string>, k: nat)
    requires OccupancyInput(species, ratios, conf) && k < |conf|
    requires row == Occupancy(species, ratios, conf)
    ensures IsFraction(row[k], KeySum(species, AsReals(ratios), conf[k]), SumNat(ratios))
  {
    OccupancyEntry(species, ratios, conf, k);
  }

  /** `sublattice_site_ratios` of the concrete SQS: the total reduced ratio of
      each zipped sublattice, which times the composition gcd is the number of
      sites its placeholders occupy. */
  function TotalRatios(a: AbstractSqs): (r: seq<nat>)
    requires SiteRatios(a).Ok?
    ensures |r| == Width(a)
    ensures forall i :: 0 <= i < Width(a) ==> r[i] * CompositionGcd(a.sites) == RowCount(a, i)
  {
    var ratios := SiteRatios(a).value;
    var r := seq(Width(a), i requires 0 <= i < Width(a) => SumNat(ratios[i]));
    assert forall i :: 0 <= i < Width(a) ==> r[i] * CompositionGcd(a.sites) == RowCount(a, i) by {
      forall i | 0 <= i < Width(a)
        ensures r[i] * CompositionGcd(a.sites) == RowCount(a, i)
      {
        SumNatTimes(ratios[i], seq(|a.model[i]|, j requires 0 <= j < |a.model[i]| => TokenCount(a, i, j)), CompositionGcd(a.sites));
      }
    }
    r
  }

  lemma ReplacementKeys(a: AbstractSqs, concrete: seq<seq<string>>)
    requires RowsAgree(a, concrete)
    ensures forall x :: x in Replacements(a, concrete) <==> x in Tokens(a)
  {
    forall x
      ensures x in Replacements(a, concrete) <==> x in Tokens(a)
    {
      ReplacementKeysUpTo(a, concrete, Width(a), x);
    }
  }

  /** `get_concrete_sqs` (without volume rescaling). It fails with a size
      mismatch when the outer lengths differ, with `KeyError` when a
      placeholder is absent, and with a size mismatch when a zipped sublattice
      has the wrong number of slots, in that order. Otherwise: the sites keep
      their positions and every site not carrying a placeholder is untouched;
      the configuration is canonical; each occupancy row is positive and sums
      to one, and each occupancy times the sublattice's total reduced ratio is
      the sum of the reduced ratios of the slots holding that element; each
      site ratio times the composition gcd is the number of
      sites the sublattice's placeholders occupy. */
  function GetConcrete(a: AbstractSqs, concrete: seq<seq<string>>): (r: Result<ConcreteSqs>)
    ensures |concrete| != |a.model| ==> r == Err(SizeMismatch)
    ensures |concrete| == |a.model| && !AllPresent(a) ==> r == Err(MissingSpecies)
    ensures |concrete| == |a.model| && AllPresent(a) ==> (r.Ok? <==> RowsAgree(a, concrete))
    ensures r.Err? ==> r.error == SizeMismatch || r.error == MissingSpecies
    ensures r.Ok? ==> |r.value.sites| == |a.sites| && Positions(r.value.sites) == Positions(a.sites)
    ensures r.Ok? ==> forall k :: 0 <= k < |a.sites| && a.sites[k].species !in Tokens(a) ==> r.value.sites[k] == a.sites[k]
    ensures r.Ok? ==> Canonical(r.value.configuration, concrete)
    ensures r.Ok? ==> |r.value.occupancies| == Width(a)
    ensures r.Ok? ==> forall i :: 0 <= i < Width(a) ==>
              && |r.value.occupancies[i]| == |r.value.configuration[i]|
              && (|a.model[i]| > 0 ==> Sum(r.value.occupancies[i]) == 1.0)
              && forall k :: 0 <= k < |r.value.occupancies[i]| ==> r.value.occupancies[i][k] > 0.0
    ensures r.Ok? ==> SiteRatios(a).Ok? && forall i, k :: 0 <= i < Width(a) && 0 <= k < |r.value.occupancies[i]| ==>
              IsFraction(r.value.occupancies[i][k],
                         KeySum(concrete[i], AsReals(SiteRatios(a).value[i]), r.value.configuration[i][k]),
                         SumNat(SiteRatios(a).value[i]))
    ensures r.Ok? ==> |r.value.siteRatios| == Width(a)
    ensures r.Ok? ==> forall i :: 0 <= i < Width(a) ==>
              r.value.siteRatios[i] * CompositionGcd(a.sites) == RowCount(a, i)
  {
    if |concrete| != |a.model| then Err(SizeMismatch)
    else if SiteRatios(a).Err? then Err(MissingSpecies)
    else if !RowsAgree(a, concrete) then Err(SizeMismatch)
    else
      ReplacementKeys(a, concrete);
      var occ := Occupancies(a, concrete);
      assert forall i, k :: 0 <= i < Width(a) && 0 <= k < |occ[i]| ==>
               IsFraction(occ[i][k], KeySum(concrete[i], AsReals(SiteRatios(a).value[i]), Configuration(concrete)[i][k]),
                          SumNat(SiteRatios(a).value[i])) by {
        forall i, k | 0 <= i < Width(a) && 0 <= k < |occ[i]|
          ensures IsFraction(occ[i][k], KeySum(concrete[i], AsReals(SiteRatios(a).value[i]), Configuration(concrete)[i][k]),
                             SumNat(SiteRatios(a).value[i]))
        {
          OccupanciesEntry(a, concrete, i, k);
        }
      }
      Ok(ConcreteSqs(Substitute(a.sites, Replacements(a, concrete)), Configuration(concrete),
                     Occupancies(a, concrete), TotalRatios(a)))
  }

  /** When no placeholder is listed twice, a site carrying the placeholder of
      slot `j` of sublattice `i` carries the element of that slot afterwards. */
  lemma SubstitutionExact(a: AbstractSqs, concrete: seq<seq<string>>, k: nat, i: nat, j: nat)
    requires GetConcrete(a, concrete).Ok? && Distinct(Tokens(a))
    requires k < |a.sites| && i < Width(a) && j < |a.model[i]|
    requires a.sites[k].species == Token(a, i, j)
    ensures GetConcrete(a, concrete).value.sites[k] == Site(a.sites[k].position, Element(concrete[i][j]))
  {
    ReplacementsExactUpTo(a, concrete, Width(a), i, j);
  }

  /** When every site carries a placeholder of the model, no placeholder is
      left in the concrete structure. */
  lemma NoPlaceholderLeft(a: AbstractSqs, concrete: seq<seq<string>>)
    requires GetConcrete(a, concrete).Ok? && Covered(a)
    ensures forall k :: 0 <= k < |a.sites| ==> GetConcrete(a, concrete).value.sites[k].species.Element?
  {
    var m := Replacements(a, concrete);
    forall k | 0 <= k < |a.sites|
      ensures GetConcrete(a, concrete).value.sites[k].species.Element?
    {
      var x := a.sites[k].species;
      ReplacementKeysUpTo(a, concrete, Width(a), x);
      ReplacementValues(a, concrete, Width(a), x);
    }
  }

  lemma {:induction false} ReplacementValues(a: AbstractSqs, concrete: seq<seq<string>>, n: nat, x: Species)
    requires RowsAgree(a, concrete) && n <= Width(a)
    requires x in ReplacementsUpTo(a, concrete, n)
    ensures ReplacementsUpTo(a, concrete, n)[x].Element?
  {
    var before := ReplacementsUpTo(a, concrete, n - 1);
    var row := RowTokens(a, n - 1);
    if x in row {
      OverrideValues(before, row, concrete[n - 1], x);
    } else {
      OverrideFacts(before, row, concrete[n - 1], x);
      ReplacementValues(a, concrete, n - 1, x);
    }
  }

  lemma {:induction false} OverrideValues(m: map<Species, Species>, keys: seq<Species>, values: seq<string>, x: Species)
    requires |keys| == |values| && x in keys
    ensures x in Override(m, keys, values) && Override(m, keys, values)[x].Element?
  {
    var n := |keys| - 1;
    if keys[n] != x {
      assert x in keys[..n] by {
        var j :| 0 <= j < |keys| && keys[j] == x;
        assert keys[..n][j] == x;
      }
      OverrideValues(m, keys[..n], values[..n], x);
    }
  }

  /** The configuration does not see the order of the concrete sublattices:
      two concrete models whose sublattices hold the same elements have the
      same configuration. */
  lemma ConfigurationIgnoresOrder(a: AbstractSqs, c1: seq<seq<string>>, c2: seq<seq<string>>)
    requires GetConcrete(a, c1).Ok? && GetConcrete(a, c2).Ok?
    requires |c1| == |c2| && forall i :: 0 <= i < |c1| ==> Elems(c1[i]) == Elems(c2[i])
    ensures GetConcrete(a, c1).value.configuration == GetConcrete(a, c2).value.configuration
  {
    var x1 := GetConcrete(a, c1).value.configuration;
    var x2 := GetConcrete(a, c2).value.configuration;
    forall i | 0 <= i < |x1|
      ensures x1[i] == x2[i]
    {
      SortedSetIgnoresOrder(c1[i], c2[i]);
    }
  }

  /** The configuration is already canonical: taking the configuration of
      a configuration changes nothing. */
  lemma ConfigurationIdempotent(concrete: seq<seq<string>>)
    ensures Configuration(Configuration(concrete)) == Configuration(concrete)
  {
    var conf := Configuration(concrete);
    forall i | 0 <= i < |conf|
      ensures Configuration(conf)[i] == conf[i]
    {
      SortedSetOfSorted(conf[i]);
    }
  }

  // ---------------------------------------------------------------------------
  // The endmember

  /** An injective choice of a real element for each sublattice name. */
  predicate InjectiveOn(pick: map<string, string>, names: seq<string>)
  {
    (forall i :: 0 <= i < |names| ==> names[i] in pick) &&
    forall i, i' :: 0 <= i < |names| && 0 <= i' < |names| && names[i] != names[i'] ==> pick[names[i]] != pick[names[i']]
  }

  /** The endmember concrete model of `get_endmember_space_group_info`: every
      slot of a sublattice takes the one element chosen for the sublattice's
      name, and sublattices with different names take different elements. */
  function EndmemberModel(a: AbstractSqs, pick: map<string, string>): (r: seq<seq<string>>)
    requires InjectiveOn(pick, a.names)
    ensures |r| == Width(a)
    ensures forall i :: 0 <= i < Width(a) ==> |r[i]| == |a.model[i]|
    ensures forall i, j :: 0 <= i < Width(a) && 0 <= j < |r[i]| ==> r[i][j] == pick[a.names[i]]
    ensures forall i, i', j, j' ::
              (0 <= i < Width(a) && 0 <= i' < Width(a) && a.names[i] != a.names[i'] && 0 <= j < |r[i]| && 0 <= j' < |r[i']|)
              ==> r[i][j] != r[i'][j']
  {
    seq(Width(a), i requires 0 <= i < Width(a) =>
      seq(|a.model[i]|, j requires 0 <= j < |a.model[i]| => pick[a.names[i]]))
  }

  lemma SortedSetOfCopies(xs: seq<string>, e: string)
    requires |xs| > 0 && forall j :: 0 <= j < |xs| ==> xs[j] == e
    ensures SortedSet(xs) == [e]
  {
    assert xs[0] in Elems(xs);
    assert Elems(xs) == {e};
    assert Elems([e]) == {e};
    SortedUnique(SortedSet(xs), [e]);
  }

  /** The endmember is a concrete SQS whose every non-empty sublattice is
      occupied entirely by its chosen element; the outer lengths agree only
      when there are as many names as sublattices. */
  lemma EndmemberConcrete(a: AbstractSqs, pick: map<string, string>)
    requires InjectiveOn(pick, a.names) && AllPresent(a)
    requires |a.names| >= |a.model|
    ensures GetConcrete(a, EndmemberModel(a, pick)).Ok?
    ensures var c := GetConcrete(a, EndmemberModel(a, pick)).value;
            forall i :: 0 <= i < |a.model| && |a.model[i]| > 0 ==>
              c.configuration[i] == [pick[a.names[i]]] && c.occupancies[i] == [1.0]
  {
    var e := EndmemberModel(a, pick);
    var c := GetConcrete(a, e).value;
    forall i | 0 <= i < |a.model| && |a.model[i]| > 0
      ensures c.configuration[i] == [pick[a.names[i]]] && c.occupancies[i] == [1.0]
    {
      SortedSetOfCopies(e[i], pick[a.names[i]]);
      SortedUnique(c.configuration[i], [pick[a.names[i]]]);
      var o := c.occupancies[i];
      assert |o| == 1;
      assert o[..0] == [];
      assert Sum(o) == o[0];
    }
  }
}
