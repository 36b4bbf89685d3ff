/** Structures as the SQS code sees them: a sequence of sites, each an opaque
    position and one species.

    The lattice, the numeric value of positions and every geometric operation
    are outside this model; a position is kept as the three number literals it
    was written with, which is all the bookkeeping needs to show that
    substitution leaves positions alone.
 */
module Crystal {

  /** A 3-vector as the three number literals of the lattice text. */
  datatype Vector = Vector(x: string, y: string, z: string)

  /** A species on a site: a placeholder `(sublattice name, abstract symbol)`
      of an abstract SQS, or a real element of a concrete one. */
  datatype Species =
    | Placeholder(sublattice: string, symbol: string)
    | Element(name: string)

  datatype Site = Site(position: Vector, species: Species)

  function SpeciesOf(sites: seq<Site>): (r: seq<Species>)
    ensures |r| == |sites|
    ensures forall k :: 0 <= k < |sites| ==> r[k] == sites[k].species
  {
    seq(|sites|, k requires 0 <= k < |sites| => sites[k].species)
  }

  function Positions(sites: seq<Site>): (r: seq<Vector>)
    ensures |r| == |sites|
    ensures forall k :: 0 <= k < |sites| ==> r[k] == sites[k].position
  {
    seq(|sites|, k requires 0 <= k < |sites| => sites[k].position)
  }

  /** The species name the Python code gives a placeholder: `'X' + name + symbol`. */
  function PlaceholderName(sublattice: string, symbol: string): string
  {
    "X" + sublattice + symbol
  }

  /** pymatgen's `replace_species`: every site whose species is a key of `m`
      takes the mapped species; positions and all other sites stay as they are. */
  function Substitute(sites: seq<Site>, m: map<Species, Species>): (r: seq<Site>)
    ensures |r| == |sites|
    ensures Positions(r) == Positions(sites)
    ensures forall k :: 0 <= k < |sites| && sites[k].species !in m ==> r[k] == sites[k]
    ensures forall k :: 0 <= k < |sites| && sites[k].species in m ==> r[k].species == m[sites[k].species]
  {
    seq(|sites|, k requires 0 <= k < |sites| =>
      if sites[k].species in m then Site(sites[k].position, m[sites[k].species]) else sites[k])
  }
}
