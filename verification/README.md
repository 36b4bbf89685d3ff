# prlworkflows SQS core in Dafny

This project models the special quasirandom structure (SQS) core of
prlworkflows.

An abstract SQS is a crystal structure whose sites carry placeholder species.
Each placeholder is named `X<sublattice><symbol>`, for example `Xab` for
symbol `b` on sublattice `a`. The structure comes with an ESPEI-style
sublattice model (`[['a', 'b'], ['a']]`) and the sublattice names
(`['a', 'c']`).

The model covers these operations:

- reading an ATAT `lat.in` text into an abstract SQS (`lat_in_to_sqs`), with
  the pyparsing grammar modelled character by character;
- the reduced and normalized site ratios of an abstract SQS;
- turning an abstract SQS into a concrete one for a given sublattice model
  (`get_concrete_sqs`), with its canonical configuration, occupancies and
  site ratios;
- the endmember model (`get_endmember_space_group_info` up to the symmetry
  analysis);
- the ESPEI-formatted configuration and occupancies;
- re-indexing of sublattices (`reindex_sublattice`, `reindex`);
- the enumeration of every concrete SQS a solution sublattice model allows
  (`enumerate_sqs`): permutations per sublattice, their Cartesian product,
  the lower-order check and deduplication by configuration.

The files are:

| file | contents |
|---|---|
| `outcomes.dfy` | errors, `Result` and `Option`, and `AllOk` (the first failure of a loop that raises) |
| `tally.dfy` | counting, sums, weighted key sums, gcd |
| `order.dfy` | Python's string order, `sorted(set(...))` |
| `crystal.dfy` | sites, species and `replace_species` |
| `number_literal.dfy` | the float regular expression as an automaton, and pyparsing's whitespace |
| `lattice_text.dfy` | the `lat.in` grammar, its parse results and a writer for `lat.in` texts |
| `labels.dfy` | `lower()`, `split('_')` and reading `a_B` labels |
| `sqs.dfy` | the abstract and concrete SQS records and their site ratios |
| `concretize.dfy` | `get_concrete_sqs` and the endmember model |
| `reindex.dfy` | the ESPEI format and re-indexing |
| `enumerate.dfy` | `enumerate_sqs` |
| `sqs_db.dfy` | `lat_in_to_sqs` |

Some modelling choices:

- A placeholder is the pair (sublattice name, symbol), not the joined
  string. See the first finding.
- Ratios and occupancies are exact rationals (`real`), so floating-point
  rounding is not modelled.
- `zip` over `sublattice_model` and `_sublattice_names` stops at the shorter
  list. `Sqs.Width` is that common length.
- Every `raise` becomes an `Err` value of `SqsError`.

## Model

| member | source | states |
|---|---|---|
| Outcomes.AllOk | prlworkflows/sqs.py:319-320 | a loop that raises at the first failing item succeeds iff every item succeeds, then yields each item's result in order; otherwise it yields the error of the first failing item |
| Tally.GcdAllDividesAll | prlworkflows/sqs.py:54 | the gcd of the species counts divides each count, is divisible by every common divisor, and is zero only when all counts are |
| Tally.GcdIsGreatestCommonDivisor | prlworkflows/sqs.py:54 | the gcd of two counts is their greatest common divisor |
| Tally.CountsPartition | prlworkflows/sqs.py:45 | when every element falls under one of several distinct keys, the per-key counts add up to the length of the list |
| Tally.KeySumsPartition | prlworkflows/sqs.py:86 | accumulating weights per key into a dictionary keeps the total weight, for distinct keys covering every entry |
| Order.LeTotal | prlworkflows/sqs.py:106 | Python's string order is total |
| Order.LeAntisymmetric | prlworkflows/sqs.py:106 | Python's string order is antisymmetric |
| Order.LeTransitive | prlworkflows/sqs.py:106 | Python's string order is transitive |
| Order.SortedSet | prlworkflows/sqs.py:106 | `sorted(set(xs))` is strictly increasing and holds exactly the elements of `xs` |
| Order.SortedUnique | prlworkflows/sqs.py:106 | two strictly increasing lists with the same elements are equal, so `sorted(set(...))` is determined by the set |
| Order.SortedSetIgnoresOrder | prlworkflows/sqs.py:106 | `sorted(set(xs))` depends only on which elements `xs` holds |
| Order.SortedSetOfSorted | prlworkflows/sqs.py:106 | `sorted(set(xs))` leaves a strictly increasing list unchanged |
| Crystal.Substitute | prlworkflows/sqs.py:91 | `replace_species` keeps every position, replaces the species found in the dictionary by their images and leaves the others alone |
| NumberLiteral.MatchNumberSound | prlworkflows/sqs_db.py:42 | what the number regex matches is a prefix of the text that is a float literal `[-+]?[0-9]*\.?[0-9]+([eE][-+]?[0-9]+)?` |
| NumberLiteral.MatchNumberComplete | prlworkflows/sqs_db.py:42 | a float literal followed by whitespace or the end of the text is matched in full |
| LatticeText.ScanNumber | prlworkflows/sqs_db.py:42 | a matched number is a float literal and consumes input |
| LatticeText.ScanWord | prlworkflows/sqs_db.py:48 | a matched `Word(alphas + '_')` is a non-empty run of letters and underscores and consumes input |
| LatticeText.DecodeEncode | prlworkflows/sqs_db.py:73-76 | unpacking the parse results of a description gives the description back |
| LatticeText.ParseSound | prlworkflows/sqs_db.py:36-51 | whatever the grammar accepts is read, without failure, into a description whose parse results are exactly what the grammar produced |
| LatticeText.ParseAcceptance | prlworkflows/sqs_db.py:36-51 | the text is read iff the grammar accepts it |
| LatticeText.ParseRender | prlworkflows/sqs_db.py:36-51 | a written `lat.in` text of a well-formed description is read back as that same description |
| Labels.Lower | prlworkflows/sqs_db.py:98 | `lower()` keeps the length and maps each upper-case ASCII letter to its lower-case letter and leaves other characters alone |
| Labels.LowerKeepsUnderscore | prlworkflows/sqs_db.py:98 | lower-casing neither adds nor removes underscores |
| Labels.Split | prlworkflows/sqs_db.py:98 | `split('_')` gives at least one part and no part contains the delimiter |
| Labels.JoinSplit | prlworkflows/sqs_db.py:98 | joining the parts of `split('_')` with `_` gives back the string |
| Labels.SplitJoin | prlworkflows/sqs_db.py:98 | splitting a join of delimiter-free parts gives back the parts |
| Labels.SplitIsSingle | prlworkflows/sqs_db.py:98-103 | `split('_')` yields a single part iff there is no `_`, which is when `atom[1]` raises |
| Labels.SplitLabel | prlworkflows/sqs_db.py:98-103 | a label is read iff it contains `_`; the sublattice and symbol are the lower-cased parts before the first and second `_`, and the rest is ignored |
| Labels.SplitLabelExample | prlworkflows/sqs_db.py:96-103 | the label `aej_Af` reads as sublattice `aej` and symbol `af` |
| Sqs.Width | prlworkflows/sqs.py:45 | `zip` of the model and the names visits as many sublattices as the shorter of the two lists |
| Sqs.CompositionGcdIsGcd | prlworkflows/sqs.py:54 | the reduced composition divides each species count by the greatest common divisor of all counts |
| Sqs.SiteRatios | prlworkflows/sqs.py:48-56 | fails with a missing key iff some placeholder of the model is absent; otherwise shaped like the model, and each reduced ratio times the gcd is the number of sites with that placeholder |
| Sqs.NormalizedRatios | prlworkflows/sqs.py:38-46 | fails iff some placeholder is absent; otherwise each normalized ratio times the number of sites is the number of sites with that placeholder |
| Sqs.SharesOfCover | prlworkflows/sqs.py:45 | when distinct placeholders cover every site, their shares of the sites sum to one |
| Sqs.NormalizedSumToOne | prlworkflows/sqs.py:38-46 | when the model's placeholders are distinct and cover every site, the normalized site ratios sum to one |
| Sqs.NameShare | prlworkflows/sqs.py:45 | when some site's species name spells the joined name `X` + name + symbol, the share times the number of sites is the number of such sites |
| Sqs.NormalizedRatiosByName | prlworkflows/sqs.py:38-46 | looking placeholders up by their joined name `X` + name + symbol raises `KeyError` exactly when some joined name is spelled by no site; otherwise the result is shaped like the model, and each ratio times the number of sites is the number of sites whose name spells that joined name |
| Sqs.NameCollision | prlworkflows/sqs.py:45 | the names for (`a`, `bc`) and (`ab`, `c`) coincide, so two sublattices with one site each get a ratio of 1 each, totalling 2 |
| Sqs.NoCollisionByPair | prlworkflows/sqs.py:45 | keyed by the (sublattice, symbol) pair, the same structure gets ratios 1/2 and 1/2 |
| Concretize.OverrideFacts | prlworkflows/sqs.py:84-85 | writing a sublattice's keys into the replacement dictionary adds exactly those keys, keeps other entries, and for distinct keys stores each key's concrete species |
| Concretize.ReplacementsExactUpTo | prlworkflows/sqs.py:78-85 | when the placeholders are distinct, each placeholder of the model is replaced by the concrete species at the same place of the concrete model |
| Concretize.ReplacementKeysUpTo | prlworkflows/sqs.py:78-85 | the replacement dictionary's keys are exactly the placeholders visited so far |
| Concretize.ReplacementKeys | prlworkflows/sqs.py:78-85 | the replacement dictionary's keys are exactly the model's placeholders |
| Concretize.SumNatPositive | prlworkflows/sqs.py:81 | the total of positive site ratios is positive iff the sublattice is not empty |
| Concretize.OccupancySum | prlworkflows/sqs.py:81-87 | the occupancies of a non-empty sublattice sum to one |
| Concretize.OccupancyEntry | prlworkflows/sqs.py:81-86 | each occupancy is positive, and times the sublattice's total ratio it is the total ratio of that concrete species on the sublattice |
| Concretize.Configuration | prlworkflows/sqs.py:105-106 | each sublattice of the configuration is strictly sorted and holds exactly the species of that concrete sublattice |
| Concretize.RatiosPositive | prlworkflows/sqs.py:54-55 | every reduced site ratio of a present placeholder is positive |
| Concretize.Occupancies | prlworkflows/sqs.py:108 | one occupancy list per sublattice, one entry per configuration species, all positive, summing to one on a non-empty sublattice; the list of each sublattice is the occupancy of its concrete species, reduced ratios and configuration |
| Concretize.RowEntry | prlworkflows/sqs.py:81-87 | each entry of a sublattice's occupancy list, times the sublattice's total reduced ratio, is the total reduced ratio of the slots holding that species |
| Concretize.OccupanciesEntry | prlworkflows/sqs.py:81-108 | occupancy `k` of sublattice `i`, times the sublattice's total reduced ratio, is the total reduced ratio of the slots of `i` holding configuration species `k` |
| Concretize.TotalRatios | prlworkflows/sqs.py:109-111 | each total site ratio times the gcd is the number of sites on that sublattice |
| Concretize.GetConcrete | prlworkflows/sqs.py:58-118 | outer size mismatch first, then a missing placeholder, then an inner size mismatch; on success positions are kept, sites without a placeholder are unchanged, the configuration and site ratios are as stated above, and each occupancy times its sublattice's total reduced ratio is the total reduced ratio of the slots holding that species |
| Concretize.SubstitutionExact | prlworkflows/sqs.py:84-91 | with distinct placeholders, a site holding the placeholder at row `i`, column `j` becomes the concrete species at row `i`, column `j`, at the same position |
| Concretize.NoPlaceholderLeft | prlworkflows/sqs.py:89-91 | when the placeholders cover every site, the concrete SQS holds only elements |
| Concretize.ConfigurationIgnoresOrder | prlworkflows/sqs.py:105-106 | the configuration depends only on which species each concrete sublattice holds, not on their order |
| Concretize.ConfigurationIdempotent | prlworkflows/sqs.py:105-106 | the configuration of a configuration is itself: it is already canonical |
| Concretize.EndmemberModel | prlworkflows/sqs.py:134-141 | every symbol of a sublattice is replaced by that sublattice's chosen element, and different sublattices get different elements |
| Concretize.SortedSetOfCopies | prlworkflows/sqs.py:106 | `sorted(set(...))` of copies of one element is that element alone |
| Concretize.EndmemberConcrete | prlworkflows/sqs.py:134-143 | the endmember model concretizes, and each non-empty sublattice is occupied entirely by its chosen element |
| Reindex.Canonicalize | prlworkflows/sqs.py:198 | a one-entry sublattice becomes its single entry; any other stays a list |
| Reindex.ExpandCanonicalize | prlworkflows/sqs.py:197-199 | the ESPEI form of a sublattice loses nothing: expanding it gives the sublattice back |
| Reindex.CanonicalizeExpand | prlworkflows/sqs.py:197-199 | writing an expanded ESPEI entry back in ESPEI form gives the entry again iff it is not a one-item list |
| Reindex.EspeiRows | prlworkflows/sqs.py:192-208 | one ESPEI entry per sublattice; it expands to the sublattice and is a single entry iff the sublattice has one entry |
| Reindex.EspeiConfigurationExample | prlworkflows/sqs.py:195 | `[['Fe', 'Ni'], ['Fe']]` is written `[['Fe', 'Ni'], 'Fe']` |
| Reindex.Range | prlworkflows/sqs.py:253 | `range(n)` lists `0` to `n - 1` |
| Reindex.DistinctMultiset | prlworkflows/sqs.py:253 | a list has no repetition iff no value occurs in it twice |
| Reindex.ValidIndicesIff | prlworkflows/sqs.py:253 | `sorted(idx) == list(range(n))` holds iff there are `n` indices, each below `n`, none repeated |
| Reindex.Pick | prlworkflows/sqs.py:255-257 | entry `k` of the picked list is the old entry `idx[k]` |
| Reindex.ReindexSublattice | prlworkflows/sqs.py:225-258 | invalid indices raise first; then lists too short to index raise; otherwise all three lists are reordered so that entry `k` is the old entry `idx[k]` |
| Reindex.ReindexExample | prlworkflows/sqs.py:250-251 | re-indexing by `[1, 0]` swaps the two sublattices of the documented example |
| Reindex.ReindexSqs | prlworkflows/sqs.py:261-273 | re-indexing an SQS succeeds or fails as re-indexing its lists does, keeps its sites, and replaces the three lists by their re-indexed versions |
| Reindex.Inverse | prlworkflows/sqs.py:253 | the inverse of a valid index list is valid and undoes it |
| Reindex.ReindexInverse | prlworkflows/sqs.py:253-258 | re-indexing by the inverse permutation restores the original lists |
| Enumerate.ConcatMember | prlworkflows/sqs.py:313 | an item is in the concatenation iff it is in one of the parts |
| Enumerate.ConcatLength | prlworkflows/sqs.py:313 | concatenating parts of equal length `m` gives `m` times as many items |
| Enumerate.PrefixedMember | prlworkflows/sqs.py:310 | prefixing `x` to each list gives exactly the lists that start with `x` followed by one of them |
| Enumerate.RemoveMultiset | prlworkflows/sqs.py:310 | removing entry `i` removes one copy of it |
| Enumerate.PermutationsSound | prlworkflows/sqs.py:310 | each `r`-permutation has length `r` and draws its items without repetition from the list |
| Enumerate.PermutationsComplete | prlworkflows/sqs.py:310 | every list of length `r` drawn without repetition from the list is among its `r`-permutations |
| Enumerate.PermutationsMember | prlworkflows/sqs.py:310 | `itertools.permutations(xs, r)` holds exactly the length-`r` lists drawn without repetition from `xs` |
| Enumerate.Falling | prlworkflows/sqs.py:310 | the falling factorial `n (n-1) ... (n-k+1)` is positive iff `k <= n` |
| Enumerate.PermutationsCount | prlworkflows/sqs.py:310 | there are `n!/(n-r)!` of them, and none when `r > n` |
| Enumerate.ProductMember | prlworkflows/sqs.py:313 | `itertools.product` holds exactly the lists whose `i`-th entry is drawn from the `i`-th row |
| Enumerate.LexLessIff | prlworkflows/sqs.py:304 | Python's list `<` on equal-length lists holds iff the lists agree up to some position and are smaller there |
| Enumerate.LexCheckImpliesShortRow | prlworkflows/sqs.py:304 | when the lower-order check fires, some solution sublattice is indeed too short |
| Enumerate.LowerOrderIsShort | prlworkflows/sqs.py:302-308 | `enumerate_sqs` raises the lower-order error only for a solution of the right outer length with some sublattice too short |
| Enumerate.CandidateMember | prlworkflows/sqs.py:308-313 | the candidate models are exactly those with, per sublattice, as many entries as the abstract sublattice, drawn without repetition from the solution sublattice |
| Enumerate.CandidatesExist | prlworkflows/sqs.py:308-313 | there is a candidate iff no solution sublattice is shorter than its abstract sublattice |
| Enumerate.CandidatesAgree | prlworkflows/sqs.py:79 | every candidate passes the inner size check of `get_concrete_sqs` |
| Enumerate.ConcretizeAll | prlworkflows/sqs.py:319-320 | concretizing all candidates succeeds iff each does, gives their concrete SQS in order, and otherwise reports one candidate's error |
| Enumerate.KeepFirstsDistinct | prlworkflows/sqs.py:316-326 | the kept structures have pairwise different configurations |
| Enumerate.KeepFirstsCovers | prlworkflows/sqs.py:316-326 | every configuration seen is kept |
| Enumerate.KeepFirstsAreFirsts | prlworkflows/sqs.py:316-326 | a structure is kept iff it is the first one with its configuration |
| Enumerate.KeepFirstsFacts | prlworkflows/sqs.py:316-326 | deduplication keeps exactly the first structure of each configuration, and so every configuration once |
| Enumerate.DedupByConfiguration | prlworkflows/sqs.py:316-326 | the dedup loop returns exactly the first structure of each configuration, in order |
| Enumerate.EnumerateSqs | prlworkflows/sqs.py:276-327 | an outer size mismatch raises; when the lexicographic lower-order check fires the result is `[]` or a lower-order error depending on `skip_on_failure`; the only other failure is a missing placeholder |
| Enumerate.CandidatesConcretize | prlworkflows/sqs.py:319-320 | all candidates concretize when every placeholder is present, and otherwise the first one reports the missing placeholder |
| Enumerate.EnumerateFails | prlworkflows/sqs.py:302-326 | past both checks, the enumeration fails iff a placeholder is missing and no solution sublattice is too short, and then reports the missing placeholder |
| Enumerate.ShortRowGivesNothing | prlworkflows/sqs.py:308-326 | past both checks, a solution sublattice that is too short yields an empty result |
| Enumerate.EnumerateResult | prlworkflows/sqs.py:316-326 | a successful enumeration returns, with pairwise different configurations, exactly the concrete SQS of the first candidate of each configuration, and misses no configuration |
| Enumerate.EnumerateSqsElementwise | prlworkflows/sqs.py:304-307 | with the check made sublattice by sublattice, a too-short solution sublattice gives `[]` or a lower-order error depending on `skip_on_failure` |
| Enumerate.ElementwiseNeverSilentlyEmpty | prlworkflows/sqs.py:304-313 | with the elementwise check, an accepted solution model always yields at least one concrete SQS when every placeholder is present |
| Enumerate.LexCheckMissesShortRow | prlworkflows/sqs.py:304 | abstract lengths `[1, 2]` and solution lengths `[2, 1]` pass the check as written and give an empty result, while the elementwise check raises |
| SqsDb.ReadLabel | prlworkflows/sqs_db.py:90-103 | several labels raise first; then `rename = False` raises; otherwise the label is split as `a_B` |
| SqsDb.ReadLabels | prlworkflows/sqs_db.py:90-107 | all labels are read iff each is, in atom order; otherwise the first unreadable one reports its error |
| SqsDb.WfAtomsLabelled | prlworkflows/sqs_db.py:48 | every parsed atom has at least one label |
| SqsDb.Names | prlworkflows/sqs_db.py:104 | the sublattice names read, in atom order |
| SqsDb.SymbolsWith | prlworkflows/sqs_db.py:104 | the symbols collected for a sublattice are exactly those read with its name |
| SqsDb.PlaceholderSites | prlworkflows/sqs_db.py:106-107 | each atom becomes a site at its position carrying the placeholder of its label |
| SqsDb.Infer | prlworkflows/sqs_db.py:104-113 | the names are sorted, distinct and are the names seen; each model row is sorted, distinct and holds exactly the symbols seen with its name |
| SqsDb.ReadAtoms | prlworkflows/sqs_db.py:87-113 | `rename = False` raises at the first atom; errors are only several labels, no renaming or no `_`; a read SQS has one site per atom, in order, at its position, carrying the placeholder its label splits into; its names are sorted, distinct and exactly the sublattice names seen on the sites, and each name's model row is sorted, distinct and holds exactly the symbols seen with that name |
| SqsDb.InferSeen | prlworkflows/sqs_db.py:104-110 | a name is inferred iff some site carries a placeholder of it, and a symbol is in a name's row iff some site carries that placeholder |
| SqsDb.LatInToSqs | prlworkflows/sqs_db.py:53-116 | a text the grammar rejects fails to parse; otherwise the parsed atoms, of which there is at least one and each with a label, are read as above |
| SqsDb.LatInToSqsAccepts | prlworkflows/sqs_db.py:90-103 | a parsed text is read iff renaming is on and every atom has exactly one label, containing `_` |
| SqsDb.InferredToken | prlworkflows/sqs_db.py:102-110 | every site's placeholder appears in the inferred model |
| SqsDb.InferredCovered | prlworkflows/sqs_db.py:102-110 | the inferred placeholders cover every site |
| SqsDb.InferredAllPresent | prlworkflows/sqs_db.py:102-110 | every placeholder of the inferred model occurs on some site |
| SqsDb.DistinctTokensUpTo | prlworkflows/sqs_db.py:109-110 | with distinct names and distinct rows, the placeholders of the model are distinct and belong to the sublattices visited |
| SqsDb.InferredPartition | prlworkflows/sqs_db.py:109-110 | the inferred placeholders are distinct and cover every site |
| SqsDb.ReadSqsNormalized | prlworkflows/sqs_db.py:109-113 | the normalized site ratios of a read SQS exist and sum to one |
| SqsDb.SameNames | prlworkflows/sqs_db.py:104 | two label lists with the same pairs see the same sublattice names |
| SqsDb.SameRow | prlworkflows/sqs_db.py:109 | two sorted rows holding the symbols of the same sublattice, from label lists with the same pairs, are equal |
| SqsDb.InferIgnoresOrder | prlworkflows/sqs_db.py:104-110 | the inferred model and names depend only on which labels occur, not on their order or repetition |
| SqsDb.InferExample | prlworkflows/sqs.py:27-30 | labels `a_b`, `c_a`, `a_a`, `a_b` give the documented model `[['a', 'b'], ['a']]` with names `['a', 'c']` |

## Left out

- Volume scaling in `get_concrete_sqs` (prlworkflows/sqs.py:93-100) is left out. It reads element densities from pymatgen and works in floats. The model's `scale_volume` is always off.
- The space-group analysis is left out: `get_space_group_info` (prlworkflows/sqs.py:144) and the `symmetry` entry of `as_dict` (prlworkflows/sqs.py:152-153) call into pymatgen.
- The lattice geometry in `lat_in_to_sqs` is left out: the coordinate-system matrix, lengths and angles, the dot product and `modify_lattice` (prlworkflows/sqs_db.py:78-85, 114). Positions are kept as the matched number literals.
- Converting number literals to floats (the parse action of prlworkflows/sqs_db.py:42) is not modelled.
- `as_dict` and `from_dict` of both classes are left out. They serialize through pymatgen.
- `SQS.__eq__` is left out. It returns `None`.
- `SQSDatabase`, `structures_from_database`, `espei.py`, `ev_curve_workflow.py` and the utility module are not part of this model.
- The `endmembers` flag of `enumerate_sqs` is never read by the code, so it is not modelled.
- The periodic-table pick of `get_endmember_space_group_info` (prlworkflows/sqs.py:138-139) zips a set with pymatgen's element table. It is modelled as any map from names to elements that is injective on the names.
- pyparsing itself is modelled only as far as the grammar uses it: default whitespace skipping, `LineEnd`, `Regex`, `Word`, `Group`, `Suppress`, `+`, `|` and `OneOrMore`. `LatticeText.Render` is this model's own writer, used to state the round trip. It is not a function of the source.
- `lat_in_to_sqs` builds an `SQS` where an `AbstractSQS` is meant (prlworkflows/sqs_db.py:111-113). `SQS` does not take `sublattice_model` or `sublattice_names`, so it would pass them on to `Structure`. The model returns the abstract SQS the docstring promises.
- The occupancy test of the dedup loop (prlworkflows/sqs.py:323-325) appends the list of occupancies to itself, so it never matches. Deduplication is modelled by configuration only, which is what the code does.
- Concretize.Occupancy: its own contract states only the length. Its meaning is stated by `Concretize.OccupancyEntry` and `Concretize.OccupancySum`.
- `get_concrete_sqs` deep-copies the structure and mutates the copy. The model builds a new value instead.
- Ratios and occupancies are exact rationals (`real`), so floating-point rounding is not modelled. Sums the model proves to be exactly one may differ from one by rounding in Python.
- Reindex.ReindexSublattice: indices are natural numbers, so Python's negative indices cannot be written. The source refuses them anyway: a negative index makes the check at prlworkflows/sqs.py:253 raise `ValueError`.
- SqsDb.LatInToSqs: the model returns Ok for every readable label. pymatgen refuses a `DummySpecie` symbol whose first one or two letters spell an element; a sublattice name starting with `e` gives `Xe…`, which spells xenon. That `ValueError` happens inside pymatgen and is not modelled.

## Findings

| source | as written | input that shows it | evidently intended | confidence | as-written member | corrected member |
|---|---|---|---|---|---|---|
| prlworkflows/sqs.py:45 | placeholder species are looked up by the joined string `'X' + name + symbol` (also built at prlworkflows/sqs.py:84 and prlworkflows/sqs_db.py:106) | sublattice `a` with symbol `bc` and sublattice `ab` with symbol `c` both give `Xabc`; one site each makes the normalized ratios `[[1.0], [1.0]]`, which sum to 2 | a placeholder is identified by its (sublattice, symbol) pair, so the ratios are `[[0.5], [0.5]]` and always sum to one | not executed | Sqs.NameCollision | Sqs.NoCollisionByPair |
| prlworkflows/sqs.py:304 | the lower-order check compares the two lists of sublattice lengths with Python's list `<`, which is lexicographic | abstract model `[['a'], ['a', 'b']]` and solution model `[['Al', 'Fe'], ['Ni']]`: `[2, 1] < [1, 2]` is false, the second sublattice has no 2-permutation, and the enumeration returns `[]` without raising | raise (or skip) when any solution sublattice is shorter than its abstract sublattice, as the error message says | not executed | Enumerate.LexCheckMissesShortRow | Enumerate.ElementwiseNeverSilentlyEmpty |
