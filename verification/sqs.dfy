/** Abstract and concrete SQS records and the site ratios of an abstract one.

    An abstract SQS is a structure whose sites carry placeholders, together
    with its sublattice model (the abstract symbols on each sublattice, ESPEI
    style, e.g. `[['a', 'b'], ['a']]`) and the sublattice names (`['a', 'c']`).
    The site ratios of a placeholder are read off the structure's composition:
    reduced, as the count divided by the gcd of all species counts, or
    normalized, as the count divided by the number of sites.

    The Python code pairs `sublattice_model` with `_sublattice_names` through
    `zip`, which stops at the shorter list; `Width` is that common length.
 */
module Sqs {
  import opened Outcomes
  import opened Tally
  import opened Crystal

  datatype AbstractSqs = AbstractSqs(sites: seq<Site>, model: seq<seq<string>>, names: seq<string>)

  /** A concrete SQS: its sites and the canonical description of what occupies
      each sublattice, with the fraction each element takes and the total
      multiplicity of each sublattice. */
  datatype ConcreteSqs = ConcreteSqs(
    sites: seq<Site>,
    configuration: seq<seq<string>>,
    occupancies: seq<seq<real>>,
    siteRatios: seq<nat>)

  /** Number of sublattices `zip(sublattice_model, sublattice_names)` visits. */
  function Width(a: AbstractSqs): (w: nat)
    ensures w <= |a.model| && w <= |a.names|
    ensures w == |a.model| || w == |a.names|
  {
    if |a.model| <= |a.names| then |a.model| else |a.names|
  }

  /** The placeholder of symbol `j` on sublattice `i`. */
  function Token(a: AbstractSqs, i: nat, j: nat): Species
    requires i < Width(a) && j < |a.model[i]|
  {
    Placeholder(a.names[i], a.model[i][j])
  }

  /** Amount of a species in the structure's composition. */
  function Amount(sites: seq<Site>, x: Species): nat
  {
    Count(SpeciesOf(sites), x)
  }

  function TokenCount(a: AbstractSqs, i: nat, j: nat): nat
    requires i < Width(a) && j < |a.model[i]|
  {
    Amount(a.sites, Token(a, i, j))
  }

  /** Every placeholder of the zipped sublattices occurs in the structure, so
      that looking it up in the composition does not raise `KeyError`. */
  predicate AllPresent(a: AbstractSqs)
  {
    forall i, j :: 0 <= i < Width(a) && 0 <= j < |a.model[i]| ==> TokenCount(a, i, j) > 0
  }

  /** Lists shaped like the zipped part of the sublattice model. */
  predicate Shaped<T>(rows: seq<seq<T>>, a: AbstractSqs)
  {
    |rows| == Width(a) && forall i :: 0 <= i < |rows| ==> |rows[i]| == |a.model[i]|
  }

  /** The amount of every species present, one entry per site. */
  function SiteAmounts(sites: seq<Site>): (r: seq<nat>)
    ensures |r| == |sites|
    ensures forall k :: 0 <= k < |sites| ==> r[k] == Amount(sites, sites[k].species)
  {
    seq(|sites|, k requires 0 <= k < |sites| => Amount(sites, sites[k].species))
  }

  /** The factor pymatgen's reduced composition divides by: the gcd of the
      amounts of all species. */
  function CompositionGcd(sites: seq<Site>): nat
  {
    GcdAll(SiteAmounts(sites))
  }

  /** The composition gcd divides the amount of every species present, is
      divisible by every common divisor of those amounts, and is positive as
      soon as there is a site. */
  lemma CompositionGcdIsGcd(sites: seq<Site>, x: Species)
    ensures Amount(sites, x) > 0 ==> CompositionGcd(sites) > 0 && Divides(CompositionGcd(sites), Amount(sites, x))
    ensures forall d: nat :: (d > 0 && forall k :: 0 <= k < |sites| ==> Divides(d, Amount(sites, sites[k].species)))
                             ==> Divides(d, CompositionGcd(sites))
  {
    var amounts := SiteAmounts(sites);
    GcdAllDividesAll(amounts);
    if Amount(sites, x) > 0 {
      CountPositiveIffPresent(SpeciesOf(sites), x);
      var k :| 0 <= k < |sites| && SpeciesOf(sites)[k] == x;
      assert amounts[k] == Amount(sites, x);
    }
  }

  /** `sublattice_site_ratios`: the reduced amount of each placeholder. It
      raises `KeyError` exactly when a placeholder is absent; otherwise every
      ratio times the composition gcd is the placeholder's site count. */
  function SiteRatios(a: AbstractSqs): (r: Result<seq<seq<nat>>>)
    ensures r.Err? <==> !AllPresent(a)
    ensures r.Err? ==> r.error == MissingSpecies
    ensures r.Ok? ==> Shaped(r.value, a)
    ensures r.Ok? ==> forall i, j :: 0 <= i < Width(a) && 0 <= j < |a.model[i]| ==>
                        r.value[i][j] * CompositionGcd(a.sites) == TokenCount(a, i, j)
  {
    if !AllPresent(a) then Err(MissingSpecies)
    else
      var g := CompositionGcd(a.sites);
      var rows := seq(Width(a), i requires 0 <= i < Width(a) =>
        seq(|a.model[i]|, j requires 0 <= j < |a.model[i]| => if g == 0 then 0 else Div(TokenCount(a, i, j), g)));
      assert forall i, j :: 0 <= i < Width(a) && 0 <= j < |a.model[i]| ==> rows[i][j] * g == TokenCount(a, i, j) by {
        forall i, j | 0 <= i < Width(a) && 0 <= j < |a.model[i]|
          ensures rows[i][j] * g == TokenCount(a, i, j)
        {
          CompositionGcdIsGcd(a.sites, Token(a, i, j));
          DivMod(TokenCount(a, i, j), g);
        }
      }
      Ok(rows)
  }

  /** Each species' share of the sites. A structure without sites has no
      species to look up, and every share of it is zero. */
  function Shares(sites: seq<Site>, ts: seq<Species>): (r: seq<real>)
    ensures |r| == |ts|
  {
    seq(|ts|, k requires 0 <= k < |ts| => if |sites| == 0 then 0.0 else Amount(sites, ts[k]) as real / |sites| as real)
  }

  lemma SharesAppend(sites: seq<Site>, xs: seq<Species>, ys: seq<Species>)
    ensures Shares(sites, xs + ys) == Shares(sites, xs) + Shares(sites, ys)
  {
  }

  lemma ShareTimesWhole(x: real, n: real)
    requires n > 0.0
    ensures (x / n) * n == x
  {
  }

  /** `o` is the fraction `part / total`: times the total it gives the part. */
  predicate IsFraction(o: real, part: real, total: nat)
  {
    o * total as real == part
  }

  lemma QuotientIsFraction(part: real, total: nat)
    requires total > 0
    ensures IsFraction(part / total as real, part, total)
  {
    ShareTimesWhole(part, total as real);
  }

  /** The placeholders of sublattice `i`, in model order. */
  function RowTokens(a: AbstractSqs, i: nat): (r: seq<Species>)
    requires i < Width(a)
    ensures |r| == |a.model[i]|
    ensures forall j :: 0 <= j < |r| ==> r[j] == Token(a, i, j)
  {
    seq(|a.model[i]|, j requires 0 <= j < |a.model[i]| => Token(a, i, j))
  }

  /** The share of every placeholder, sublattice by sublattice. */
  function ShareRows(a: AbstractSqs): (r: seq<seq<real>>)
    ensures Shaped(r, a)
  {
    seq(Width(a), i requires 0 <= i < Width(a) => Shares(a.sites, RowTokens(a, i)))
  }

  /** `normalized_sublattice_site_ratios`: each placeholder's share of all
      sites. It raises `KeyError` exactly when a placeholder is absent;
      otherwise every ratio times the number of sites is the site count. */
  function NormalizedRatios(a: AbstractSqs): (r: Result<seq<seq<real>>>)
    ensures r.Err? <==> !AllPresent(a)
    ensures r.Err? ==> r.error == MissingSpecies
    ensures r.Ok? ==> Shaped(r.value, a)
    ensures r.Ok? ==> forall i, j :: 0 <= i < Width(a) && 0 <= j < |a.model[i]| ==>
                        r.value[i][j] * |a.sites| as real == TokenCount(a, i, j) as real
  {
    if !AllPresent(a) then Err(MissingSpecies)
    else
      var rows := ShareRows(a);
      assert forall i, j :: 0 <= i < Width(a) && 0 <= j < |a.model[i]| ==>
               rows[i][j] * |a.sites| as real == TokenCount(a, i, j) as real by {
        forall i, j | 0 <= i < Width(a) && 0 <= j < |a.model[i]|
          ensures rows[i][j] * |a.sites| as real == TokenCount(a, i, j) as real
        {
          CountAtMostLength(SpeciesOf(a.sites), Token(a, i, j));
          assert rows[i][j] == TokenCount(a, i, j) as real / |a.sites| as real;
          ShareTimesWhole(TokenCount(a, i, j) as real, |a.sites| as real);
        }
      }
      Ok(rows)
  }

  // ---------------------------------------------------------------------------
  // The normalized ratios partition the sites

  /** The placeholders of the first `n` zipped sublattices, row after row. */
  function TokensUpTo(a: AbstractSqs, n: nat): seq<Species>
    requires n <= Width(a)
  {
    if n == 0 then [] else TokensUpTo(a, n - 1) + RowTokens(a, n - 1)
  }

  /** Every placeholder of the abstract SQS, row after row. */
  function Tokens(a: AbstractSqs): seq<Species>
  {
    TokensUpTo(a, Width(a))
  }

  /** Every site carries one of the model's placeholders. */
  predicate Covered(a: AbstractSqs)
  {
    forall k :: 0 <= k < |a.sites| ==> a.sites[k].species in Tokens(a)
  }

  /** Sum of all entries of a list of lists. */
  function Total(rows: seq<seq<real>>): real
  {
    if |rows| == 0 then 0.0 else Total(rows[..|rows| - 1]) + Sum(rows[|rows| - 1])
  }

  lemma {:induction false} TotalShares(a: AbstractSqs, n: nat)
    requires n <= Width(a)
    ensures Total(ShareRows(a)[..n]) == Sum(Shares(a.sites, TokensUpTo(a, n)))
  {
    if n > 0 {
      var rows := ShareRows(a);
      TotalShares(a, n - 1);
      assert rows[..n][..n - 1] == rows[..n - 1];
      assert rows[..n][n - 1] == Shares(a.sites, RowTokens(a, n - 1));
      var before := TokensUpTo(a, n - 1);
      var row := RowTokens(a, n - 1);
      SharesAppend(a.sites, before, row);
      SumAppend(Shares(a.sites, before), Shares(a.sites, row));
    }
  }

  /** When every site carries one of the model's placeholders and no
      placeholder is listed twice, the normalized site ratios of all
      sublattices add up to one. */
  lemma NormalizedSumToOne(a: AbstractSqs)
    requires |a.sites| > 0
    requires Covered(a) && Distinct(Tokens(a))
    requires NormalizedRatios(a).Ok?
    ensures Total(NormalizedRatios(a).value) == 1.0
  {
    assert NormalizedRatios(a).value == ShareRows(a);
    TotalShares(a, Width(a));
    assert ShareRows(a)[..Width(a)] == ShareRows(a);
    SharesOfCover(a.sites, Tokens(a));
  }

  /** The shares of distinct species that cover every site add up to one. */
  lemma SharesOfCover(sites: seq<Site>, ts: seq<Species>)
    requires |sites| > 0 && Distinct(ts)
    requires forall k :: 0 <= k < |sites| ==> sites[k].species in ts
    ensures Sum(Shares(sites, ts)) == 1.0
  {
    var n := |sites| as real;
    var xs := SpeciesOf(sites);
    assert forall j :: 0 <= j < |xs| ==> xs[j] in ts;
    CountsPartition(xs, ts);
    var counts := Counts(xs, ts);
    var shares := Shares(sites, ts);
    assert forall k :: 0 <= k < |ts| ==> shares[k] == counts[k] / n;
    assert shares == Scale(counts, n);
    SumScale(counts, n);
    assert Sum(counts) == n;
    SelfQuotient(n);
  }

  lemma SelfQuotient(x: real)
    requires x != 0.0
    ensures x / x == 1.0
  {
  }

  // ---------------------------------------------------------------------------
  // Placeholders as strings

  /** The string each site's species is known by: `'X' + name + symbol` for a
      placeholder, the element symbol otherwise. */
  function SpeciesNames(sites: seq<Site>): (r: seq<string>)
    ensures |r| == |sites|
  {
    seq(|sites|, k requires 0 <= k < |sites| =>
      match sites[k].species
      case Placeholder(n, e) => PlaceholderName(n, e)
      case Element(name) => name)
  }

  /** The number of sites whose species name spells the placeholder of slot
      `j` of sublattice `i`, as the Python composition counts it. */
  function NameCount(a: AbstractSqs, i: nat, j: nat): nat
    requires i < Width(a) && j < |a.model[i]|
  {
    Count(SpeciesNames(a.sites), PlaceholderName(a.names[i], a.model[i][j]))
  }

  /** Every placeholder name of the zipped sublattices is spelled by some
      site, so that looking it up in the composition does not raise
      `KeyError`. */
  predicate AllNamed(a: AbstractSqs)
  {
    forall i, j :: 0 <= i < Width(a) && 0 <= j < |a.model[i]| ==> NameCount(a, i, j) > 0
  }

  /** The share of the sites whose name spells one placeholder. */
  function NameShare(a: AbstractSqs, i: nat, j: nat): (x: real)
    requires i < Width(a) && j < |a.model[i]|
    ensures NameCount(a, i, j) > 0 ==> IsFraction(x, NameCount(a, i, j) as real, |a.sites|)
  {
    var c := NameCount(a, i, j);
    CountAtMostLength(SpeciesNames(a.sites), PlaceholderName(a.names[i], a.model[i][j]));
    if |a.sites| == 0 then 0.0
    else
      QuotientIsFraction(c as real, |a.sites|);
      c as real / |a.sites| as real
  }

  /** Each placeholder name's share of the sites, row by row. */
  function NameShares(a: AbstractSqs): (r: seq<seq<real>>)
    ensures Shaped(r, a)
    ensures forall i, j :: 0 <= i < Width(a) && 0 <= j < |a.model[i]| ==> r[i][j] == NameShare(a, i, j)
  {
    seq(Width(a), i requires 0 <= i < Width(a) =>
      seq(|a.model[i]|, j requires 0 <= j < |a.model[i]| => NameShare(a, i, j)))
  }

  /** `normalized_sublattice_site_ratios` with the composition keyed by species
      name, as the Python code looks it up. It raises `KeyError` exactly when
      some placeholder name is spelled by no site; otherwise every ratio times
      the number of sites whose name spells it. */
  function NormalizedRatiosByName(a: AbstractSqs): (r: Result<seq<seq<real>>>)
    ensures r.Err? <==> !AllNamed(a)
    ensures r.Err? ==> r.error == MissingSpecies
    ensures r.Ok? ==> Shaped(r.value, a)
    ensures r.Ok? ==> forall i, j :: 0 <= i < Width(a) && 0 <= j < |a.model[i]| ==>
                        IsFraction(r.value[i][j], NameCount(a, i, j) as real, |a.sites|)
  {
    if !AllNamed(a) then Err(MissingSpecies)
    else
      var rows := NameShares(a);
      assert forall i, j :: 0 <= i < Width(a) && 0 <= j < |a.model[i]| ==>
               IsFraction(rows[i][j], NameCount(a, i, j) as real, |a.sites|) by {
        forall i, j | 0 <= i < Width(a) && 0 <= j < |a.model[i]|
          ensures IsFraction(rows[i][j], NameCount(a, i, j) as real, |a.sites|)
        {
          assert NameCount(a, i, j) > 0;
        }
      }
      Ok(rows)
  }

  /** Occurrences in a two-entry list. */
  lemma CountOfPair<T>(x: T, y: T, z: T)
    ensures Count([x, y], z) == (if x == z then 1 else 0) + (if y == z then 1 else 0)
  {
    assert [x, y][..1] == [x];
    assert [x][..0] == [];
    assert Count([x], z) == Count([x][..0], z) + (if x == z then 1 else 0);
    assert Count([x, y], z) == Count([x, y][..1], z) + (if y == z then 1 else 0);
  }

  /** The abstract SQS read from two sites labelled `a_bc` and `ab_c`. */
  function CollidingSqs(): AbstractSqs
  {
    var v := Vector("0", "0", "0");
    AbstractSqs([Site(v, Placeholder("a", "bc")), Site(v, Placeholder("ab", "c"))], [["bc"], ["c"]], ["a", "ab"])
  }

  /** Sublattice `a` with symbol `bc` and sublattice `ab` with symbol `c` are
      both spelled `Xabc`: keyed by name, the two one-site sublattices each
      claim both sites and the ratios add up to two. */
  lemma NameCollision()
    ensures PlaceholderName("a", "bc") == PlaceholderName("ab", "c")
    ensures NormalizedRatiosByName(CollidingSqs()) == Ok([[1.0], [1.0]])
    ensures Total(NormalizedRatiosByName(CollidingSqs()).value) == 2.0
  {
    var a := CollidingSqs();
    assert PlaceholderName("a", "bc") == "Xabc";
    assert PlaceholderName("ab", "c") == "Xabc";
    var names := SpeciesNames(a.sites);
    assert names[0] == "Xabc" && names[1] == "Xabc";
    assert names == ["Xabc", "Xabc"];
    CountOfPair("Xabc", "Xabc", "Xabc");
    assert PlaceholderName(a.names[0], a.model[0][0]) == "Xabc";
    assert PlaceholderName(a.names[1], a.model[1][0]) == "Xabc";
    var r := NormalizedRatiosByName(a);
    assert r.Ok?;
    assert Width(a) == 2 && |a.model[0]| == 1 && |a.model[1]| == 1;
    assert |r.value| == 2 && |r.value[0]| == 1 && |r.value[1]| == 1;
    assert r.value[0] == [1.0] && r.value[1] == [1.0];
    assert r.value == [[1.0], [1.0]];
    var rows: seq<seq<real>> := [[1.0], [1.0]];
    assert rows[..1] == [[1.0]] && rows[..1][..0] == [];
    assert Sum([1.0]) == 1.0 by {
      assert [1.0][..0] == [];
    }
  }

  /** Keyed by the pair, the same two sublattices hold one half each. */
  lemma NoCollisionByPair()
    ensures NormalizedRatios(CollidingSqs()) == Ok([[0.5], [0.5]])
  {
    var a := CollidingSqs();
    var x0 := Placeholder("a", "bc");
    var x1 := Placeholder("ab", "c");
    assert SpeciesOf(a.sites) == [x0, x1];
    CountOfPair(x0, x1, x0);
    CountOfPair(x0, x1, x1);
    assert Token(a, 0, 0) == x0 && Token(a, 1, 0) == x1;
    assert TokenCount(a, 0, 0) == 1;
    assert TokenCount(a, 1, 0) == 1;
    assert AllPresent(a);
    var r := NormalizedRatios(a).value;
    assert Width(a) == 2 && |a.model[0]| == 1 && |a.model[1]| == 1;
    assert |r| == 2 && |r[0]| == 1 && |r[1]| == 1;
    assert r[0][0] * 2.0 == 1.0 && r[1][0] * 2.0 == 1.0;
    assert r[0] == [0.5] && r[1] == [0.5];
    assert r == [[0.5], [0.5]];
  }
}
