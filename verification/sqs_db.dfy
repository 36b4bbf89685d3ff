/** `lat_in_to_sqs`: an ATAT `lat.in` text read as an abstract SQS.

    Every atom of the text carries one label `name_Symbol`; its site gets the
    placeholder `(name, symbol)` of the lower-cased label. The sublattice names
    are the distinct names in sorted order, and the model row of each name is
    the sorted list of the distinct symbols seen with it.
 */
module SqsDb {
  import opened Outcomes
  import opened Tally
  import opened Order
  import opened Crystal
  import opened LatticeText
  import opened Labels
  import opened Sqs
  import opened Concretize

  // ---------------------------------------------------------------------------
  // Labels

  /** One atom's label as `(sublattice name, symbol)`: more than one word on
      the atom raises first, then a refused renaming, then a label without
      `_`. */
  function ReadLabel(atom: Atom, rename: bool): (r: Result<(string, string)>)
    requires |atom.labels| > 0
    ensures |atom.labels| > 1 ==> r == Err(MultipleLabels)
    ensures |atom.labels| == 1 && !rename ==> r == Err(RenameUnsupported)
    ensures |atom.labels| == 1 && rename ==> r == SplitLabel(atom.labels[0])
  {
    if |atom.labels| > 1 then Err(MultipleLabels)
    else if !rename then Err(RenameUnsupported)
    else SplitLabel(atom.labels[0])
  }

  predicate Labelled(atoms: seq<Atom>)
  {
    forall k :: 0 <= k < |atoms| ==> |atoms[k].labels| > 0
  }

  /** The loop of `lat_in_to_sqs` over the atoms, in order: it stops at the
      first atom whose label cannot be read, with that atom's error. */
  function ReadLabels(atoms: seq<Atom>, rename: bool): (r: Result<seq<(string, string)>>)
    requires Labelled(atoms)
    ensures r.Ok? <==> forall k :: 0 <= k < |atoms| ==> ReadLabel(atoms[k], rename).Ok?
    ensures r.Ok? ==> |r.value| == |atoms| && forall k :: 0 <= k < |atoms| ==> r.value[k] == ReadLabel(atoms[k], rename).value
    ensures r.Err? ==> exists k :: 0 <= k < |atoms| && ReadLabel(atoms[k], rename) == Err(r.error) &&
                                   forall j :: 0 <= j < k ==> ReadLabel(atoms[j], rename).Ok?
  {
    AllOk((atom: Atom) requires |atom.labels| > 0 => ReadLabel(atom, rename), atoms)
  }

  lemma {:induction false} WfAtomsLabelled(atoms: seq<Atom>)
    requires AllWfAtoms(atoms)
    ensures Labelled(atoms)
  {
    if |atoms| > 0 {
      WfAtomsLabelled(atoms[1..]);
      assert forall k :: 1 <= k < |atoms| ==> atoms[k] == atoms[1..][k - 1];
    }
  }

  // ---------------------------------------------------------------------------
  // Sublattice inference

  function Names(pairs: seq<(string, string)>): (r: seq<string>)
    ensures |r| == |pairs|
    ensures forall k :: 0 <= k < |pairs| ==> r[k] == pairs[k].0
  {
    seq(|pairs|, k requires 0 <= k < |pairs| => pairs[k].0)
  }

  /** The symbols seen with sublattice `name`, in order of appearance. */
  function SymbolsWith(pairs: seq<(string, string)>, name: string): (r: seq<string>)
    ensures forall e :: e in r <==> (name, e) in pairs
  {
    if |pairs| == 0 then []
    else
      var rest := SymbolsWith(pairs[1..], name);
      assert forall e :: (name, e) in pairs <==> (name, e) == pairs[0] || (name, e) in pairs[1..] by {
        assert pairs == [pairs[0]] + pairs[1..];
      }
      if pairs[0].0 == name then [pairs[0].1] + rest else rest
  }

  /** The site of every atom: its position and the placeholder of its label. */
  function PlaceholderSites(atoms: seq<Atom>, pairs: seq<(string, string)>): (r: seq<Site>)
    requires |pairs| == |atoms|
    ensures |r| == |atoms|
    ensures forall k :: 0 <= k < |atoms| ==> r[k] == Site(atoms[k].position, Placeholder(pairs[k].0, pairs[k].1))
    ensures forall k :: 0 <= k < |atoms| ==> PlaceholderPair(r[k].species) == pairs[k]
  {
    seq(|atoms|, k requires 0 <= k < |atoms| => Site(atoms[k].position, Placeholder(pairs[k].0, pairs[k].1)))
  }

  /** The abstract SQS of atoms whose labels read as `pairs`. The names are
      strictly increasing and are the names seen; each model row is strictly
      increasing and holds the symbols seen with its name. */
  function Infer(atoms: seq<Atom>, pairs: seq<(string, string)>): (a: AbstractSqs)
    requires |pairs| == |atoms|
    ensures a.sites == PlaceholderSites(atoms, pairs)
    ensures |a.model| == |a.names| && Width(a) == |a.names|
    ensures StrictlySorted(a.names) && Elems(a.names) == Elems(Names(pairs))
    ensures forall i :: 0 <= i < |a.names| ==>
              StrictlySorted(a.model[i]) && forall e :: e in a.model[i] <==> (a.names[i], e) in pairs
  {
    var names := SortedSet(Names(pairs));
    var model := seq(|names|, i requires 0 <= i < |names| => SortedSet(SymbolsWith(pairs, names[i])));
    assert forall i, e :: 0 <= i < |names| ==> (e in model[i] <==> e in Elems(model[i])) by {
      forall i, e | 0 <= i < |names|
        ensures e in model[i] <==> e in Elems(model[i])
      {
      }
    }
    assert forall i, e :: 0 <= i < |names| ==> (e in Elems(SymbolsWith(pairs, names[i])) <==> e in SymbolsWith(pairs, names[i]));
    AbstractSqs(PlaceholderSites(atoms, pairs), model, names)
  }

  /** Some site carries the placeholder `(n, e)`. */
  predicate Seen(sites: seq<Site>, n: string, e: string)
  {
    exists k :: 0 <= k < |sites| && sites[k].species == Placeholder(n, e)
  }

  /** The names and rows of `a` are read off its sites: the names are
      strictly increasing and a name is listed iff some site carries a
      placeholder of it; each row is strictly increasing and holds a symbol
      iff some site carries that placeholder. */
  ghost predicate ReadOffSites(a: AbstractSqs)
  {
    && |a.model| == |a.names|
    && StrictlySorted(a.names)
    && (forall n :: n in a.names <==> exists e :: Seen(a.sites, n, e))
    && forall i :: 0 <= i < |a.names| ==>
         StrictlySorted(a.model[i]) && forall e :: e in a.model[i] <==> Seen(a.sites, a.names[i], e)
  }

  /** A placeholder is seen on the sites iff its label pair was read. */
  lemma SeenIffRead(atoms: seq<Atom>, pairs: seq<(string, string)>, n: string, e: string)
    requires |pairs| == |atoms|
    ensures Seen(PlaceholderSites(atoms, pairs), n, e) <==> (n, e) in pairs
  {
    if (n, e) in pairs {
      var k :| 0 <= k < |pairs| && pairs[k] == (n, e);
      assert PlaceholderSites(atoms, pairs)[k].species == Placeholder(n, e);
    }
  }

  /** A name is among the read names iff some read pair carries it. */
  lemma NamesIffRead(pairs: seq<(string, string)>, n: string)
    ensures n in Elems(Names(pairs)) <==> exists e :: (n, e) in pairs
  {
    assert n in Elems(Names(pairs)) <==> n in Names(pairs);
    if n in Names(pairs) {
      var k :| 0 <= k < |pairs| && Names(pairs)[k] == n;
      assert (n, pairs[k].1) == pairs[k];
    }
    if e :| (n, e) in pairs {
      var k :| 0 <= k < |pairs| && pairs[k] == (n, e);
      assert Names(pairs)[k] == n;
    }
  }

  /** The inferred names and rows are read off the sites. */
  lemma InferSeen(atoms: seq<Atom>, pairs: seq<(string, string)>)
    requires |pairs| == |atoms|
    ensures ReadOffSites(Infer(atoms, pairs))
  {
    var a := Infer(atoms, pairs);
    forall n, e
      ensures Seen(a.sites, n, e) <==> (n, e) in pairs
    {
      SeenIffRead(atoms, pairs, n, e);
    }
    forall n
      ensures n in a.names <==> exists e :: Seen(a.sites, n, e)
    {
      assert n in a.names <==> n in Elems(a.names);
      NamesIffRead(pairs, n);
    }
  }

  // ---------------------------------------------------------------------------
  // lat_in_to_sqs

  /** The atoms of a parsed text read as an abstract SQS: `rename = False`
      always raises, at the first atom; otherwise the first unreadable label
      raises. A read SQS has one site per atom, in order, at the atom's
      position, carrying the placeholder of its label; its sublattice names
      are the sorted names seen on the sites, and the model row of each name
      the sorted symbols seen with it. */
  function ReadAtoms(atoms: seq<Atom>, rename: bool): (r: Result<AbstractSqs>)
    requires |atoms| > 0 && Labelled(atoms)
    ensures !rename ==> r == Err(if |atoms[0].labels| > 1 then MultipleLabels else RenameUnsupported)
    ensures r.Err? ==> r.error in {MultipleLabels, RenameUnsupported, MissingDelimiter}
    ensures r.Ok? ==> |r.value.sites| == |atoms| &&
                      Positions(r.value.sites) == seq(|atoms|, k requires 0 <= k < |atoms| => atoms[k].position)
    ensures r.Ok? ==> forall k :: 0 <= k < |atoms| ==>
                        |atoms[k].labels| == 1 && SplitLabel(atoms[k].labels[0]) == Ok(PlaceholderPair(r.value.sites[k].species))
    ensures r.Ok? ==> ReadOffSites(r.value)
  {
    var pairs :- ReadLabels(atoms, rename);
    var a := Infer(atoms, pairs);
    InferSeen(atoms, pairs);
    Ok(a)
  }

  /** The atoms are read exactly when every label is. */
  lemma ReadAtomsOk(atoms: seq<Atom>, rename: bool)
    requires |atoms| > 0 && Labelled(atoms)
    ensures ReadAtoms(atoms, rename).Ok? <==> forall k :: 0 <= k < |atoms| ==> ReadLabel(atoms[k], rename).Ok?
  {
  }

  /** `lat_in_to_sqs`, without the lattice geometry: a text the grammar
      refuses raises first; a text it accepts has at least one atom, every
      atom with a label, and is read by `ReadAtoms`. */
  function LatInToSqs(text: string, rename: bool): (r: Result<AbstractSqs>)
    ensures Parse(text).None? ==> r == Err(ParseFailure)
    ensures Parse(text).Some? ==> |Parse(text).value.atoms| > 0 && Labelled(Parse(text).value.atoms) &&
                                  r == ReadAtoms(Parse(text).value.atoms, rename)
  {
    match Parse(text)
    case None => Err(ParseFailure)
    case Some(l) =>
      ParseSound(text);
      WfAtomsLabelled(l.atoms);
      ReadAtoms(l.atoms, rename)
  }

  /** The `(name, symbol)` pair of a placeholder. */
  function PlaceholderPair(x: Species): (string, string)
  {
    match x
    case Placeholder(n, e) => (n, e)
    case Element(name) => (name, "")
  }

  // ---------------------------------------------------------------------------
  // What the read SQS satisfies

  /** The texts `lat_in_to_sqs` reads are those with one readable `_` label
      on every atom, and renaming on. */
  lemma LatInToSqsAccepts(text: string, rename: bool)
    requires Parse(text).Some?
    ensures LatInToSqs(text, rename).Ok? <==>
              rename && forall k :: 0 <= k < |Parse(text).value.atoms| ==>
                |Parse(text).value.atoms[k].labels| == 1 && '_' in Parse(text).value.atoms[k].labels[0]
  {
    var atoms := Parse(text).value.atoms;
    ParseSound(text);
    WfAtomsLabelled(atoms);
    ReadAtomsOk(atoms, rename);
    forall k | 0 <= k < |atoms|
      ensures ReadLabel(atoms[k], rename).Ok? <==> rename && |atoms[k].labels| == 1 && '_' in atoms[k].labels[0]
    {
    }
  }

  /** Placeholders of the read SQS, one by one, are `Token`s of its model. */
  lemma InferredToken(atoms: seq<Atom>, pairs: seq<(string, string)>, k: nat)
    requires |pairs| == |atoms| && k < |pairs|
    ensures var a := Infer(atoms, pairs);
            exists i, j :: 0 <= i < Width(a) && 0 <= j < |a.model[i]| && Sqs.Token(a, i, j) == a.sites[k].species
  {
    var a := Infer(atoms, pairs);
    var (n, e) := pairs[k];
    assert Names(pairs)[k] == n;
    assert n in Elems(a.names);
    var i :| 0 <= i < |a.names| && a.names[i] == n;
    assert (n, e) in pairs;
    assert e in a.model[i];
    var j :| 0 <= j < |a.model[i]| && a.model[i][j] == e;
    assert Sqs.Token(a, i, j) == a.sites[k].species;
  }

  /** Every site of the read SQS carries a placeholder of its model. */
  lemma InferredCovered(atoms: seq<Atom>, pairs: seq<(string, string)>)
    requires |pairs| == |atoms|
    ensures Covered(Infer(atoms, pairs))
  {
    var a := Infer(atoms, pairs);
    forall k | 0 <= k < |a.sites|
      ensures a.sites[k].species in Tokens(a)
    {
      InferredToken(atoms, pairs, k);
      var i, j :| 0 <= i < Width(a) && 0 <= j < |a.model[i]| && Sqs.Token(a, i, j) == a.sites[k].species;
      TokenInPrefix(a, Width(a), i, j);
    }
  }

  /** Every placeholder of the read model occurs on some site. */
  lemma InferredAllPresent(atoms: seq<Atom>, pairs: seq<(string, string)>)
    requires |pairs| == |atoms|
    ensures AllPresent(Infer(atoms, pairs))
  {
    var a := Infer(atoms, pairs);
    forall i, j | 0 <= i < Width(a) && 0 <= j < |a.model[i]|
      ensures TokenCount(a, i, j) > 0
    {
      var e := a.model[i][j];
      assert (a.names[i], e) in pairs;
      var k :| 0 <= k < |pairs| && pairs[k] == (a.names[i], e);
      assert SpeciesOf(a.sites)[k] == Sqs.Token(a, i, j);
      CountPositiveIffPresent(SpeciesOf(a.sites), Sqs.Token(a, i, j));
    }
  }

  /** The tokens of the first `n` rows of a model with distinct names and
      duplicate-free rows are pairwise different. */
  lemma {:induction false} DistinctTokensUpTo(a: AbstractSqs, n: nat)
    requires n <= Width(a)
    requires forall i, i' :: 0 <= i < i' < Width(a) ==> a.names[i] != a.names[i']
    requires forall i :: 0 <= i < Width(a) ==> Distinct(a.model[i])
    ensures Distinct(TokensUpTo(a, n))
    ensures forall x :: x in TokensUpTo(a, n) ==> x.Placeholder? && x.sublattice in a.names[..n]
  {
    if n > 0 {
      DistinctTokensUpTo(a, n - 1);
      var before := TokensUpTo(a, n - 1);
      var row := RowTokens(a, n - 1);
      var all := before + row;
      assert forall x :: x in row ==> x.Placeholder? && x.sublattice == a.names[n - 1];
      assert a.names[..n] == a.names[..n - 1] + [a.names[n - 1]];
      forall p, q | 0 <= p < q < |all|
        ensures all[p] != all[q]
      {
        if q < |before| {
        } else if p >= |before| {
          assert all[p] == row[p - |before|] && all[q] == row[q - |before|];
          assert a.model[n - 1][p - |before|] != a.model[n - 1][q - |before|];
        } else {
          assert all[p] in before && all[q] in row;
          assert all[p].sublattice in a.names[..n - 1];
          var i :| 0 <= i < n - 1 && a.names[..n - 1][i] == all[p].sublattice;
          assert a.names[i] != a.names[n - 1];
        }
      }
    }
  }

  /** A read SQS lists every placeholder once and covers every site with one. */
  lemma InferredPartition(atoms: seq<Atom>, pairs: seq<(string, string)>)
    requires |pairs| == |atoms|
    ensures Covered(Infer(atoms, pairs)) && Distinct(Tokens(Infer(atoms, pairs)))
  {
    var a := Infer(atoms, pairs);
    InferredCovered(atoms, pairs);
    forall i | 0 <= i < Width(a)
      ensures Distinct(a.model[i])
    {
      StrictlySortedDistinct(a.model[i]);
    }
    StrictlySortedDistinct(a.names);
    DistinctTokensUpTo(a, Width(a));
  }

  /** The normalized site ratios of any SQS read from a `lat.in` text exist
      and add up to one. */
  lemma ReadSqsNormalized(text: string, rename: bool)
    requires LatInToSqs(text, rename).Ok?
    ensures NormalizedRatios(LatInToSqs(text, rename).value).Ok?
    ensures Total(NormalizedRatios(LatInToSqs(text, rename).value).value) == 1.0
  {
    var l := Parse(text).value;
    ParseAcceptance(text);
    ParseSound(text);
    WfAtomsLabelled(l.atoms);
    var pairs := ReadLabels(l.atoms, rename).value;
    InferredAllPresent(l.atoms, pairs);
    InferredPartition(l.atoms, pairs);
    NormalizedSumToOne(Infer(l.atoms, pairs));
  }

  /** Two strictly increasing lists holding exactly the symbols seen with
      `name` in pair lists with the same members are equal. */
  lemma SameRow(x: seq<string>, y: seq<string>, name: string, pairs: seq<(string, string)>, pairs': seq<(string, string)>)
    requires StrictlySorted(x) && StrictlySorted(y)
    requires forall e :: e in x <==> (name, e) in pairs
    requires forall e :: e in y <==> (name, e) in pairs'
    requires forall p :: p in pairs <==> p in pairs'
    ensures x == y
  {
    assert forall e :: e in Elems(x) <==> e in x;
    assert forall e :: e in Elems(y) <==> e in y;
    assert forall e :: (name, e) in pairs <==> (name, e) in pairs';
    assert Elems(x) == Elems(y);
    SortedUnique(x, y);
  }

  /** Pair lists with the same members have the same names. */
  lemma SameNames(pairs: seq<(string, string)>, pairs': seq<(string, string)>)
    requires forall p :: p in pairs <==> p in pairs'
    ensures Elems(Names(pairs)) == Elems(Names(pairs'))
  {
    forall n | n in Elems(Names(pairs))
      ensures n in Elems(Names(pairs'))
    {
      var k :| 0 <= k < |pairs| && Names(pairs)[k] == n;
      assert pairs[k] in pairs';
      var k' :| 0 <= k' < |pairs'| && pairs'[k'] == pairs[k];
      assert Names(pairs')[k'] == n;
    }
    forall n | n in Elems(Names(pairs'))
      ensures n in Elems(Names(pairs))
    {
      var k :| 0 <= k < |pairs'| && Names(pairs')[k] == n;
      assert pairs'[k] in pairs;
      var k' :| 0 <= k' < |pairs| && pairs[k'] == pairs'[k];
      assert Names(pairs)[k'] == n;
    }
  }

  /** Reading does not depend on the order in which sublattices first appear:
      labels giving the same `(name, symbol)` pairs in any order give the same
      names and model. */
  lemma InferIgnoresOrder(atoms: seq<Atom>, pairs: seq<(string, string)>, atoms': seq<Atom>, pairs': seq<(string, string)>)
    requires |pairs| == |atoms| && |pairs'| == |atoms'|
    requires forall p :: p in pairs <==> p in pairs'
    ensures Infer(atoms, pairs).names == Infer(atoms', pairs').names
    ensures Infer(atoms, pairs).model == Infer(atoms', pairs').model
  {
    var a := Infer(atoms, pairs);
    var b := Infer(atoms', pairs');
    SameNames(pairs, pairs');
    SortedUnique(a.names, b.names);
    forall i | 0 <= i < |a.names|
      ensures a.model[i] == b.model[i]
    {
      SameRow(a.model[i], b.model[i], a.names[i], pairs, pairs');
    }
  }

  /** The pairs read from the labels `a_b`, `c_a`, `a_a`, `a_b`. */
  function ExamplePairs(): seq<(string, string)>
  {
    [("a", "b"), ("c", "a"), ("a", "a"), ("a", "b")]
  }

  lemma PairSorted(x: string, y: string)
    requires Lt(x, y)
    ensures StrictlySorted([x, y])
  {
  }

  lemma ExampleNames(pairs: seq<(string, string)>)
    requires pairs == ExamplePairs()
    ensures Elems(Names(pairs)) == Elems(["a", "c"])
  {
    assert Names(pairs) == ["a", "c", "a", "a"];
  }

  lemma ExampleSymbols(pairs: seq<(string, string)>)
    requires pairs == ExamplePairs()
    ensures forall e :: ("a", e) in pairs <==> e in ["a", "b"]
    ensures forall e :: ("c", e) in pairs <==> e in ["a"]
  {
  }

  lemma ExampleInferredNames(atoms: seq<Atom>, pairs: seq<(string, string)>)
    requires |atoms| == 4 && pairs == ExamplePairs()
    ensures Infer(atoms, pairs).names == ["a", "c"]
  {
    var a := Infer(atoms, pairs);
    assert Lt("a", "c");
    PairSorted("a", "c");
    ExampleNames(pairs);
    SortedUnique(a.names, ["a", "c"]);
  }

  lemma ExampleFirstRow(atoms: seq<Atom>, pairs: seq<(string, string)>)
    requires |atoms| == 4 && pairs == ExamplePairs()
    requires Infer(atoms, pairs).names == ["a", "c"]
    ensures Infer(atoms, pairs).model[0] == ["a", "b"]
  {
    var a := Infer(atoms, pairs);
    assert Lt("a", "b");
    PairSorted("a", "b");
    ExampleSymbols(pairs);
    SameRow(a.model[0], ["a", "b"], "a", pairs, pairs);
  }

  lemma ExampleSecondRow(atoms: seq<Atom>, pairs: seq<(string, string)>)
    requires |atoms| == 4 && pairs == ExamplePairs()
    requires Infer(atoms, pairs).names == ["a", "c"]
    ensures Infer(atoms, pairs).model[1] == ["a"]
  {
    var a := Infer(atoms, pairs);
    assert StrictlySorted(["a"]);
    ExampleSymbols(pairs);
    SameRow(a.model[1], ["a"], "c", pairs, pairs);
  }

  lemma ExampleRows(m: seq<seq<string>>)
    requires |m| == 2 && m[0] == ["a", "b"] && m[1] == ["a"]
    ensures m == [["a", "b"], ["a"]]
  {
  }

  /** The labels `a_b`, `c_a`, `a_a`, `a_b` (the pairs of `ExamplePairs`):
      names `a` and `c`, with symbols `a`, `b` on `a` and `a` on `c`, give the
      sublattice model `[['a', 'b'], ['a']]` with names `['a', 'c']`. */
  lemma InferExample(atoms: seq<Atom>, pairs: seq<(string, string)>)
    requires |atoms| == 4 && pairs == ExamplePairs()
    ensures Infer(atoms, pairs).names == ["a", "c"]
    ensures Infer(atoms, pairs).model == [["a", "b"], ["a"]]
  {
    ExampleInferredNames(atoms, pairs);
    ExampleFirstRow(atoms, pairs);
    ExampleSecondRow(atoms, pairs);
    ExampleRows(Infer(atoms, pairs).model);
  }
}
