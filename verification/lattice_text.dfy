/** The grammar of ATAT's `lat.in` text, built from pyparsing elements the way
    `_parse_atat_lattice` builds it, and the reading of its parse results into
    a coordinate system, a lattice and a list of atoms.

    A pyparsing element is a value of `Element`; `Run` is what `parseString`
    does with it at one point of the text. Every terminal first skips
    pyparsing's default whitespace (space, tab, newline, carriage return); an
    end of line skips only spaces, tabs and carriage returns and then needs a
    newline or the end of the text. `a | b` tries `b` only when `a` fails and
    never reopens a choice `a` made. Text after the last atom is ignored, as
    `parseString` does without `parseAll`. Numbers are kept as the literals
    matched; converting them to floats is not modelled.
 */
module LatticeText {
  import opened Outcomes
  import opened Crystal
  import opened NumberLiteral

  /** The pyparsing elements the grammar is made of. */
  datatype Element =
    /** `Regex(r'[-+]?[0-9]*\.?[0-9]+([eE][-+]?[0-9]+)?')` */
    | FloatRegex
    /** `Word(alphas + '_')` */
    | Letters
    /** `LineEnd()` */
    | EndOfLine
    | Suppress(inner: Element)
    | Group(inner: Element)
    /** `first + second` */
    | And(first: Element, second: Element)
    /** `first | second` */
    | MatchFirst(first: Element, second: Element)
    | OneOrMore(inner: Element)

  /** A parse result: a matched string or a `Group`ed list of results. */
  datatype Token = Leaf(text: string) | Nested(items: seq<Token>)

  // ---------------------------------------------------------------------------
  // Terminals

  /** The number regex after skipping whitespace. */
  function ScanNumber(s: string): (r: Option<(string, string)>)
    ensures r.Some? ==> IsFloatLiteral(r.value.0) && |r.value.1| < |s|
  {
    if |s| > 0 && IsWhite(s[0]) then ScanNumber(s[1..])
    else match MatchNumber(s)
      case None => None
      case Some(n) =>
        MatchNumberSound(s);
        Some((s[..n], s[n..]))
  }

  /** The longest run of letters and underscores after skipping whitespace. */
  function ScanWord(s: string): (r: Option<(string, string)>)
    ensures r.Some? ==> IsWord(r.value.0) && |r.value.1| < |s|
  {
    var t := DropWhite(s);
    var n := WordEnd(t, 0);
    WordRun(t, 0);
    if n == 0 then None else Some((t[..n], t[n..]))
  }

  /** `LineEnd()`: blanks, then a newline (the token `"\n"`) or the end of the text. */
  function ScanLineEnd(s: string): (r: Option<(seq<Token>, string)>)
    ensures r.Some? ==> |r.value.1| <= |s|
  {
    var t := DropBlank(s);
    if |t| == 0 then Some(([], t))
    else if t[0] == '\n' then Some(([Leaf("\n")], t[1..]))
    else None
  }

  /** `e.parseString` at the start of `s`: the results and the text left over. */
  function Run(e: Element, s: string): (r: Option<(seq<Token>, string)>)
    ensures r.Some? ==> |r.value.1| <= |s|
    decreases |s|, e
  {
    match e
    case FloatRegex =>
      (match ScanNumber(s)
       case None => None
       case Some((t, rest)) => Some(([Leaf(t)], rest)))
    case Letters =>
      (match ScanWord(s)
       case None => None
       case Some((w, rest)) => Some(([Leaf(w)], rest)))
    case EndOfLine => ScanLineEnd(s)
    case Suppress(inner) =>
      (match Run(inner, s)
       case None => None
       case Some((_, rest)) => Some(([], rest)))
    case Group(inner) =>
      (match Run(inner, s)
       case None => None
       case Some((ts, rest)) => Some(([Nested(ts)], rest)))
    case And(first, second) =>
      (match Run(first, s)
       case None => None
       case Some((ts1, s1)) =>
         match Run(second, s1)
         case None => None
         case Some((ts2, s2)) => Some((ts1 + ts2, s2)))
    case MatchFirst(first, second) =>
      (match Run(first, s)
       case Some(r1) => Some(r1)
       case None => Run(second, s))
    case OneOrMore(inner) =>
      (match Run(inner, s)
       case None => None
       case Some((ts1, s1)) =>
         if |s1| < |s| then
           match Run(OneOrMore(inner), s1)
           case None => Some((ts1, s1))
           case Some((ts2, s2)) => Some((ts1 + ts2, s2))
         else Some((ts1, s1)))
  }

  // ---------------------------------------------------------------------------
  // The grammar of `_parse_atat_lattice`

  const VectorRule := Group(And(FloatRegex, And(FloatRegex, FloatRegex)))
  const AnglesRule := VectorRule
  const VectorLineRule := And(VectorRule, Suppress(EndOfLine))
  const CoordSysRule :=
    Group(MatchFirst(
      And(VectorLineRule, And(VectorLineRule, VectorLineRule)),
      And(VectorRule, And(AnglesRule, Suppress(EndOfLine)))))
  const LatticeRule := Group(And(VectorRule, And(VectorRule, VectorRule)))
  const AtomRule := Group(And(VectorRule, Group(OneOrMore(Letters))))
  const LatInRule := And(CoordSysRule, And(LatticeRule, Group(OneOrMore(AtomRule))))

  // ---------------------------------------------------------------------------
  // What the parse results mean

  /** The two shapes a coordinate system can take. */
  datatype CoordSystem =
    | Axes(a: Vector, b: Vector, c: Vector)
    | LengthsAngles(lengths: Vector, angles: Vector)

  datatype Lattice = Lattice(a: Vector, b: Vector, c: Vector)

  /** One atom: its position and the words after it. */
  datatype Atom = Atom(position: Vector, labels: seq<string>)

  /** A whole `lat.in` text. */
  datatype LatIn = LatIn(coordinates: CoordSystem, lattice: Lattice, atoms: seq<Atom>)

  predicate WfVector(v: Vector)
  {
    IsFloatLiteral(v.x) && IsFloatLiteral(v.y) && IsFloatLiteral(v.z)
  }

  predicate WfAtom(a: Atom)
  {
    WfVector(a.position) && |a.labels| > 0 && forall k :: 0 <= k < |a.labels| ==> IsWord(a.labels[k])
  }

  predicate WfCoordinates(c: CoordSystem)
  {
    match c
    case Axes(a, b, d) => WfVector(a) && WfVector(b) && WfVector(d)
    case LengthsAngles(l, g) => WfVector(l) && WfVector(g)
  }

  predicate WfLattice(l: Lattice)
  {
    WfVector(l.a) && WfVector(l.b) && WfVector(l.c)
  }

  /** Every atom of the list is well formed. */
  predicate AllWfAtoms(atoms: seq<Atom>)
  {
    |atoms| == 0 || (WfAtom(atoms[0]) && AllWfAtoms(atoms[1..]))
  }

  /** What a successful parse can hold: number literals in every vector, at
      least one atom, and one or more words on every atom. */
  predicate WfLatIn(l: LatIn)
  {
    && WfCoordinates(l.coordinates)
    && WfLattice(l.lattice)
    && |l.atoms| > 0
    && AllWfAtoms(l.atoms)
  }

  function EncodeVector(v: Vector): Token
  {
    Nested([Leaf(v.x), Leaf(v.y), Leaf(v.z)])
  }

  function DecodeVector(t: Token): Option<Vector>
  {
    if t.Nested? && |t.items| == 3 && t.items[0].Leaf? && t.items[1].Leaf? && t.items[2].Leaf? then
      Some(Vector(t.items[0].text, t.items[1].text, t.items[2].text))
    else None
  }

  function EncodeCoordinates(c: CoordSystem): Token
  {
    match c
    case Axes(a, b, d) => Nested([EncodeVector(a), EncodeVector(b), EncodeVector(d)])
    case LengthsAngles(l, g) => Nested([EncodeVector(l), EncodeVector(g)])
  }

  /** A coordinate-system group of three vectors is a matrix, any other is
      read as lengths then angles. */
  function DecodeCoordinates(t: Token): Option<CoordSystem>
  {
    if t.Nested? && |t.items| == 3 then
      match (DecodeVector(t.items[0]), DecodeVector(t.items[1]), DecodeVector(t.items[2]))
      case (Some(a), Some(b), Some(d)) => Some(Axes(a, b, d))
      case _ => None
    else if t.Nested? && |t.items| >= 2 then
      match (DecodeVector(t.items[0]), DecodeVector(t.items[1]))
      case (Some(l), Some(g)) => Some(LengthsAngles(l, g))
      case _ => None
    else None
  }

  function EncodeLattice(l: Lattice): Token
  {
    Nested([EncodeVector(l.a), EncodeVector(l.b), EncodeVector(l.c)])
  }

  function DecodeLattice(t: Token): Option<Lattice>
  {
    if t.Nested? && |t.items| == 3 then
      match (DecodeVector(t.items[0]), DecodeVector(t.items[1]), DecodeVector(t.items[2]))
      case (Some(a), Some(b), Some(d)) => Some(Lattice(a, b, d))
      case _ => None
    else None
  }

  function Leaves(ws: seq<string>): (r: seq<Token>)
    ensures |r| == |ws|
    ensures forall k :: 0 <= k < |ws| ==> r[k] == Leaf(ws[k])
  {
    seq(|ws|, k requires 0 <= k < |ws| => Leaf(ws[k]))
  }

  function EncodeAtom(a: Atom): Token
  {
    Nested([EncodeVector(a.position), Nested(Leaves(a.labels))])
  }

  /** The strings of a list of leaves. */
  function Texts(ts: seq<Token>): Option<seq<string>>
  {
    if |ts| == 0 then Some([])
    else if !ts[0].Leaf? then None
    else match Texts(ts[1..])
      case None => None
      case Some(more) => Some([ts[0].text] + more)
  }

  function DecodeAtom(t: Token): Option<Atom>
  {
    if t.Nested? && |t.items| == 2 && t.items[1].Nested? then
      match (DecodeVector(t.items[0]), Texts(t.items[1].items))
      case (Some(p), Some(ws)) => Some(Atom(p, ws))
      case _ => None
    else None
  }

  function EncodeAtoms(atoms: seq<Atom>): (r: seq<Token>)
    ensures |r| == |atoms|
    ensures forall k :: 0 <= k < |atoms| ==> r[k] == EncodeAtom(atoms[k])
  {
    seq(|atoms|, k requires 0 <= k < |atoms| => EncodeAtom(atoms[k]))
  }

  function DecodeAtoms(ts: seq<Token>): Option<seq<Atom>>
  {
    if |ts| == 0 then Some([])
    else match (DecodeAtom(ts[0]), DecodeAtoms(ts[1..]))
      case (Some(a), Some(more)) => Some([a] + more)
      case _ => None
  }

  /** The parse results of a whole text: the coordinate-system group, the
      lattice group and the group of atoms. */
  function Encode(l: LatIn): seq<Token>
  {
    [EncodeCoordinates(l.coordinates), EncodeLattice(l.lattice), Nested(EncodeAtoms(l.atoms))]
  }

  /** `parsed_data[0]`, `[1]` and `[2]` as `lat_in_to_sqs` reads them. */
  function Decode(ts: seq<Token>): Option<LatIn>
  {
    if |ts| == 3 && ts[2].Nested? then
      match (DecodeCoordinates(ts[0]), DecodeLattice(ts[1]), DecodeAtoms(ts[2].items))
      case (Some(c), Some(l), Some(atoms)) => Some(LatIn(c, l, atoms))
      case _ => None
    else None
  }

  /** `_parse_atat_lattice` followed by the unpacking in `lat_in_to_sqs`. */
  function Parse(s: string): Option<LatIn>
  {
    match Run(LatInRule, s)
    case None => None
    case Some((ts, _)) => Decode(ts)
  }

  // ---------------------------------------------------------------------------
  // Decoding inverts encoding

  lemma {:induction false} TextsLeaves(ws: seq<string>)
    ensures Texts(Leaves(ws)) == Some(ws)
    decreases |ws|
  {
    if |ws| > 0 {
      assert Leaves(ws)[1..] == Leaves(ws[1..]);
      TextsLeaves(ws[1..]);
      assert [ws[0]] + ws[1..] == ws;
    }
  }

  lemma {:induction false} DecodeEncodeAtoms(atoms: seq<Atom>)
    ensures DecodeAtoms(EncodeAtoms(atoms)) == Some(atoms)
    decreases |atoms|
  {
    if |atoms| > 0 {
      TextsLeaves(atoms[0].labels);
      assert EncodeAtoms(atoms)[1..] == EncodeAtoms(atoms[1..]);
      DecodeEncodeAtoms(atoms[1..]);
      assert [atoms[0]] + atoms[1..] == atoms;
    }
  }

  /** Reading the parse results of a description gives the description back. */
  lemma DecodeEncode(l: LatIn)
    ensures Decode(Encode(l)) == Some(l)
  {
    assert DecodeCoordinates(EncodeCoordinates(l.coordinates)) == Some(l.coordinates) by {
      DecodeEncodeCoordinates(l.coordinates);
    }
    assert DecodeLattice(EncodeLattice(l.lattice)) == Some(l.lattice);
    DecodeEncodeAtoms(l.atoms);
  }

  lemma DecodeEncodeCoordinates(c: CoordSystem)
    ensures DecodeCoordinates(EncodeCoordinates(c)) == Some(c)
  {
    match c
    case Axes(a, b, d) =>
    case LengthsAngles(l, g) =>
  }

  // ---------------------------------------------------------------------------
  // Soundness: the parse results of any accepted text encode a well-formed
  // description

  /** The parts an `And` was matched in. */
  lemma AndParts(a: Element, b: Element, s: string)
    returns (ts1: seq<Token>, s1: string, ts2: seq<Token>, s2: string)
    requires Run(And(a, b), s).Some?
    ensures Run(a, s) == Some((ts1, s1)) && Run(b, s1) == Some((ts2, s2))
    ensures Run(And(a, b), s) == Some((ts1 + ts2, s2))
  {
    ts1, s1 := Run(a, s).value.0, Run(a, s).value.1;
    ts2, s2 := Run(b, s1).value.0, Run(b, s1).value.1;
  }

  lemma NumberShape(s: string) returns (t: string, rest: string)
    requires Run(FloatRegex, s).Some?
    ensures Run(FloatRegex, s) == Some(([Leaf(t)], rest))
    ensures IsFloatLiteral(t) && |rest| < |s|
  {
    t, rest := ScanNumber(s).value.0, ScanNumber(s).value.1;
  }

  lemma VectorShape(s: string) returns (v: Vector, rest: string)
    requires Run(VectorRule, s).Some?
    ensures Run(VectorRule, s) == Some(([EncodeVector(v)], rest))
    ensures WfVector(v) && |rest| < |s|
  {
    var three := And(FloatRegex, And(FloatRegex, FloatRegex));
    assert Run(three, s).Some?;
    var tx, s1, tyz, s3 := AndParts(FloatRegex, And(FloatRegex, FloatRegex), s);
    var ty, s2, tz, s3' := AndParts(FloatRegex, FloatRegex, s1);
    var x, r1 := NumberShape(s);
    var y, r2 := NumberShape(s1);
    var z, r3 := NumberShape(s2);
    v, rest := Vector(x, y, z), s3;
    assert tx + tyz == [Leaf(x), Leaf(y), Leaf(z)];
  }

  lemma VectorLineShape(s: string) returns (v: Vector, rest: string)
    requires Run(VectorLineRule, s).Some?
    ensures Run(VectorLineRule, s) == Some(([EncodeVector(v)], rest))
    ensures WfVector(v) && |rest| < |s|
  {
    var ts1, s1, ts2, s2 := AndParts(VectorRule, Suppress(EndOfLine), s);
    var r1;
    v, r1 := VectorShape(s);
    rest := s2;
    assert ts1 + ts2 == [EncodeVector(v)];
  }

  lemma CoordinatesShape(s: string) returns (c: CoordSystem, rest: string)
    requires Run(CoordSysRule, s).Some?
    ensures Run(CoordSysRule, s) == Some(([EncodeCoordinates(c)], rest))
    ensures WfCoordinates(c) && |rest| < |s|
  {
    var lines := And(VectorLineRule, And(VectorLineRule, VectorLineRule));
    var oneLine := And(VectorRule, And(AnglesRule, Suppress(EndOfLine)));
    assert Run(MatchFirst(lines, oneLine), s).Some?;
    if Run(lines, s).Some? {
      var ta, s1, tbc, s3 := AndParts(VectorLineRule, And(VectorLineRule, VectorLineRule), s);
      var tb, s2, tc, s3' := AndParts(VectorLineRule, VectorLineRule, s1);
      var a, r1 := VectorLineShape(s);
      var b, r2 := VectorLineShape(s1);
      var d, r3 := VectorLineShape(s2);
      c, rest := Axes(a, b, d), s3;
      assert ta + tbc == [EncodeVector(a), EncodeVector(b), EncodeVector(d)];
    } else {
      assert Run(oneLine, s).Some?;
      var tl, s1, tg, s3 := AndParts(VectorRule, And(AnglesRule, Suppress(EndOfLine)), s);
      var tg', s2, te, s3' := AndParts(AnglesRule, Suppress(EndOfLine), s1);
      var l, r1 := VectorShape(s);
      var g, r2 := VectorShape(s1);
      c, rest := LengthsAngles(l, g), s3;
      assert tl + tg == [EncodeVector(l), EncodeVector(g)];
    }
  }

  lemma LatticeShape(s: string) returns (l: Lattice, rest: string)
    requires Run(LatticeRule, s).Some?
    ensures Run(LatticeRule, s) == Some(([EncodeLattice(l)], rest))
    ensures WfLattice(l) && |rest| < |s|
  {
    var three := And(VectorRule, And(VectorRule, VectorRule));
    assert Run(three, s).Some?;
    var ta, s1, tbc, s3 := AndParts(VectorRule, And(VectorRule, VectorRule), s);
    var tb, s2, tc, s3' := AndParts(VectorRule, VectorRule, s1);
    var a, r1 := VectorShape(s);
    var b, r2 := VectorShape(s1);
    var d, r3 := VectorShape(s2);
    l, rest := Lattice(a, b, d), s3;
    assert ta + tbc == [EncodeVector(a), EncodeVector(b), EncodeVector(d)];
  }

  lemma {:induction false} WordsShape(s: string) returns (ws: seq<string>, rest: string)
    requires Run(OneOrMore(Letters), s).Some?
    ensures Run(OneOrMore(Letters), s) == Some((Leaves(ws), rest))
    ensures |ws| > 0 && forall k :: 0 <= k < |ws| ==> IsWord(ws[k])
    ensures |rest| < |s|
    decreases |s|
  {
    var w, s1 := ScanWord(s).value.0, ScanWord(s).value.1;
    assert Run(Letters, s) == Some(([Leaf(w)], s1));
    if Run(OneOrMore(Letters), s1).Some? {
      var more, s2 := WordsShape(s1);
      ws, rest := [w] + more, s2;
      assert Leaves(ws) == [Leaf(w)] + Leaves(more);
    } else {
      ws, rest := [w], s1;
      assert Leaves(ws) == [Leaf(w)];
    }
  }

  lemma AtomShape(s: string) returns (a: Atom, rest: string)
    requires Run(AtomRule, s).Some?
    ensures Run(AtomRule, s) == Some(([EncodeAtom(a)], rest))
    ensures WfAtom(a) && |rest| < |s|
  {
    var pair := And(VectorRule, Group(OneOrMore(Letters)));
    assert Run(pair, s).Some?;
    var tp, s1, tw, s2 := AndParts(VectorRule, Group(OneOrMore(Letters)), s);
    var p, r1 := VectorShape(s);
    assert Run(OneOrMore(Letters), s1).Some?;
    var ws, r2 := WordsShape(s1);
    a, rest := Atom(p, ws), s2;
    assert tp + tw == [EncodeVector(p), Nested(Leaves(ws))];
  }

  lemma {:induction false} AtomsShape(s: string) returns (atoms: seq<Atom>, rest: string)
    requires Run(OneOrMore(AtomRule), s).Some?
    ensures Run(OneOrMore(AtomRule), s) == Some((EncodeAtoms(atoms), rest))
    ensures |atoms| > 0 && AllWfAtoms(atoms)
    decreases |s|
  {
    assert Run(AtomRule, s).Some?;
    var a, s1 := AtomShape(s);
    if Run(OneOrMore(AtomRule), s1).Some? {
      var more, s2 := AtomsShape(s1);
      atoms, rest := [a] + more, s2;
      assert atoms[1..] == more;
      assert EncodeAtoms(atoms) == [EncodeAtom(a)] + EncodeAtoms(more);
    } else {
      atoms, rest := [a], s1;
      assert atoms[1..] == [];
      assert EncodeAtoms(atoms) == [EncodeAtom(a)];
    }
  }

  /** Whatever the grammar accepts is read without failure, into a description
      with number literals in every vector, at least one atom and at least one
      word per atom, whose encoding is exactly the parse results. */
  lemma ParseSound(s: string)
    requires Run(LatInRule, s).Some?
    ensures Parse(s).Some? && WfLatIn(Parse(s).value)
    ensures Encode(Parse(s).value) == Run(LatInRule, s).value.0
  {
    var tc, s1, tla, s3 := AndParts(CoordSysRule, And(LatticeRule, Group(OneOrMore(AtomRule))), s);
    var tl, s2, ta, s3' := AndParts(LatticeRule, Group(OneOrMore(AtomRule)), s1);
    var c, r1 := CoordinatesShape(s);
    var l, r2 := LatticeShape(s1);
    assert Run(OneOrMore(AtomRule), s2).Some?;
    var atoms, r3 := AtomsShape(s2);
    var lat := LatIn(c, l, atoms);
    assert Run(LatInRule, s).value.0 == Encode(lat);
    DecodeEncode(lat);
  }

  /** The grammar accepts exactly the texts `Parse` reads. */
  lemma ParseAcceptance(s: string)
    ensures Parse(s).Some? <==> Run(LatInRule, s).Some?
  {
    if Run(LatInRule, s).Some? {
      ParseSound(s);
    }
  }

  // ---------------------------------------------------------------------------
  // Writing a lattice text, and reading back what was written

  /** A number literal starts with a sign, a digit or a point: never with
      whitespace or a word character. */
  predicate StartsLiteral(u: string)
  {
    |u| > 0 && (IsSign(u[0]) || IsDigit(u[0]) || u[0] == '.')
  }

  function RenderVector(v: Vector): string
  {
    v.x + " " + v.y + " " + v.z
  }

  /** The labels of an atom, each after one space. */
  function RenderWords(ws: seq<string>): string
  {
    if |ws| == 0 then "" else " " + ws[0] + RenderWords(ws[1..])
  }

  function RenderAtom(a: Atom): string
  {
    RenderVector(a.position) + RenderWords(a.labels) + "\n"
  }

  function RenderAtoms(atoms: seq<Atom>): string
  {
    if |atoms| == 0 then "" else RenderAtom(atoms[0]) + RenderAtoms(atoms[1..])
  }

  function RenderCoordinates(c: CoordSystem): string
  {
    match c
    case Axes(a, b, d) => RenderVector(a) + "\n" + RenderVector(b) + "\n" + RenderVector(d) + "\n"
    case LengthsAngles(l, g) => RenderVector(l) + " " + RenderVector(g) + "\n"
  }

  function RenderLattice(l: Lattice): string
  {
    RenderVector(l.a) + "\n" + RenderVector(l.b) + "\n" + RenderVector(l.c) + "\n"
  }

  /** A `lat.in` text: the coordinate system, the lattice vectors one per line,
      then one line per atom. */
  function Render(l: LatIn): string
  {
    RenderCoordinates(l.coordinates) + RenderLattice(l.lattice) + RenderAtoms(l.atoms)
  }

  lemma LiteralHead(t: string, rest: string)
    requires IsFloatLiteral(t)
    ensures StartsLiteral(t + rest)
  {
  }

  lemma AndOf(a: Element, b: Element, s: string, ts1: seq<Token>, s1: string, ts2: seq<Token>, s2: string)
    requires Run(a, s) == Some((ts1, s1)) && Run(b, s1) == Some((ts2, s2))
    ensures Run(And(a, b), s) == Some((ts1 + ts2, s2))
  {
  }

  lemma {:induction false} ScanNumberOf(ws: string, u: string)
    requires AllWhite(ws)
    requires |u| == 0 || !IsWhite(u[0])
    ensures ScanNumber(ws + u) == ScanNumber(u)
    decreases |ws|
  {
    if |ws| > 0 {
      assert (ws + u)[1..] == ws[1..] + u;
      ScanNumberOf(ws[1..], u);
    } else {
      assert ws + u == u;
    }
  }

  lemma NumberOf(ws: string, t: string, rest: string)
    requires AllWhite(ws) && IsFloatLiteral(t)
    requires |rest| == 0 || IsWhite(rest[0])
    ensures Run(FloatRegex, ws + t + rest) == Some(([Leaf(t)], rest))
  {
    LiteralHead(t, rest);
    assert ws + t + rest == ws + (t + rest);
    ScanNumberOf(ws, t + rest);
    assert (t + rest)[..|t|] == t && (t + rest)[|t|..] == rest;
    MatchNumberComplete(t + rest, |t|);
  }

  lemma WordOf(ws: string, w: string, rest: string)
    requires AllWhite(ws) && IsWord(w)
    requires |rest| == 0 || IsWhite(rest[0])
    ensures Run(Letters, ws + w + rest) == Some(([Leaf(w)], rest))
  {
    assert ws + w + rest == ws + (w + rest);
    DropWhiteOf(ws, w + rest);
    WordEndOf(w + rest, 0, |w|);
    assert (w + rest)[..|w|] == w && (w + rest)[|w|..] == rest;
  }

  /** No word where the next item is a number or the text ends. */
  lemma WordFails(ws: string, u: string)
    requires AllWhite(ws)
    requires |u| == 0 || StartsLiteral(u)
    ensures Run(Letters, ws + u).None?
  {
    DropWhiteOf(ws, u);
    assert WordEnd(u, 0) == 0;
  }

  /** The last two numbers of a vector. */
  lemma NumberPairOf(y: string, z: string, rest: string)
    requires IsFloatLiteral(y) && IsFloatLiteral(z)
    requires |rest| == 0 || IsWhite(rest[0])
    ensures Run(And(FloatRegex, FloatRegex), " " + y + (" " + z + rest)) == Some(([Leaf(y), Leaf(z)], rest))
  {
    NumberOf(" ", y, " " + z + rest);
    NumberOf(" ", z, rest);
    AndOf(FloatRegex, FloatRegex, " " + y + (" " + z + rest), [Leaf(y)], " " + z + rest, [Leaf(z)], rest);
    assert [Leaf(y)] + [Leaf(z)] == [Leaf(y), Leaf(z)];
  }

  lemma VectorOf(ws: string, v: Vector, rest: string)
    requires AllWhite(ws) && WfVector(v)
    requires |rest| == 0 || IsWhite(rest[0])
    ensures Run(VectorRule, ws + RenderVector(v) + rest) == Some(([EncodeVector(v)], rest))
  {
    var r1 := " " + v.y + (" " + v.z + rest);
    var s := ws + RenderVector(v) + rest;
    assert s == ws + v.x + r1;
    NumberOf(ws, v.x, r1);
    NumberPairOf(v.y, v.z, rest);
    AndOf(FloatRegex, And(FloatRegex, FloatRegex), s, [Leaf(v.x)], r1, [Leaf(v.y), Leaf(v.z)], rest);
    assert [Leaf(v.x)] + [Leaf(v.y), Leaf(v.z)] == [Leaf(v.x), Leaf(v.y), Leaf(v.z)];
  }

  lemma VecHead(v: Vector, rest: string)
    requires WfVector(v)
    ensures StartsLiteral(RenderVector(v) + rest)
  {
    LiteralHead(v.x, " " + v.y + " " + v.z + rest);
    assert RenderVector(v) + rest == v.x + (" " + v.y + " " + v.z + rest);
  }

  lemma VectorLineOf(ws: string, v: Vector, rest: string)
    requires AllWhite(ws) && WfVector(v)
    ensures Run(VectorLineRule, ws + RenderVector(v) + "\n" + rest) == Some(([EncodeVector(v)], rest))
  {
    var s := ws + RenderVector(v) + "\n" + rest;
    assert s == ws + RenderVector(v) + ("\n" + rest);
    VectorOf(ws, v, "\n" + rest);
    assert ("\n" + rest)[1..] == rest;
    assert DropBlank("\n" + rest) == "\n" + rest;
    assert Run(EndOfLine, "\n" + rest) == Some(([Leaf("\n")], rest));
    assert Run(Suppress(EndOfLine), "\n" + rest) == Some(([], rest));
    AndOf(VectorRule, Suppress(EndOfLine), s, [EncodeVector(v)], "\n" + rest, [], rest);
    assert [EncodeVector(v)] + [] == [EncodeVector(v)];
  }

  lemma AxesOf(a: Vector, b: Vector, d: Vector, rest: string)
    requires WfVector(a) && WfVector(b) && WfVector(d)
    ensures Run(CoordSysRule, RenderCoordinates(Axes(a, b, d)) + rest)
         == Some(([EncodeCoordinates(Axes(a, b, d))], rest))
  {
    var t2 := RenderVector(d) + "\n" + rest;
    var t1 := RenderVector(b) + "\n" + t2;
    var s := RenderCoordinates(Axes(a, b, d)) + rest;
    assert s == "" + RenderVector(a) + "\n" + t1;
    VectorLineOf("", a, t1);
    assert t1 == "" + RenderVector(b) + "\n" + t2;
    VectorLineOf("", b, t2);
    assert t2 == "" + RenderVector(d) + "\n" + rest;
    VectorLineOf("", d, rest);
    var lines := And(VectorLineRule, And(VectorLineRule, VectorLineRule));
    AndOf(VectorLineRule, VectorLineRule, t1, [EncodeVector(b)], t2, [EncodeVector(d)], rest);
    AndOf(VectorLineRule, And(VectorLineRule, VectorLineRule), s, [EncodeVector(a)], t1,
      [EncodeVector(b)] + [EncodeVector(d)], rest);
    assert Run(lines, s).Some?;
    assert [EncodeVector(a)] + ([EncodeVector(b)] + [EncodeVector(d)])
        == [EncodeVector(a), EncodeVector(b), EncodeVector(d)];
  }

  /** Text that starts with a vector followed by a blank and another number
      is not a three-line coordinate system: its first line does not end. */
  lemma ThreeLinesFail(l: Vector, g: Vector, r2: string)
    requires WfVector(l) && WfVector(g)
    ensures Run(And(VectorLineRule, And(VectorLineRule, VectorLineRule)),
                RenderVector(l) + " " + RenderVector(g) + r2).None?
  {
    var r1 := " " + RenderVector(g) + r2;
    var s := RenderVector(l) + " " + RenderVector(g) + r2;
    assert s == "" + RenderVector(l) + r1;
    VectorOf("", l, r1);
    VecHead(g, r2);
    assert r1 == " " + (RenderVector(g) + r2);
    assert DropBlank(r1) == RenderVector(g) + r2;
    assert Run(EndOfLine, r1).None?;
    assert Run(Suppress(EndOfLine), r1).None?;
    assert Run(VectorLineRule, s).None?;
  }

  lemma LengthsAnglesOf(l: Vector, g: Vector, rest: string)
    requires WfVector(l) && WfVector(g)
    ensures Run(CoordSysRule, RenderCoordinates(LengthsAngles(l, g)) + rest)
         == Some(([EncodeCoordinates(LengthsAngles(l, g))], rest))
  {
    var r2 := "\n" + rest;
    var r1 := " " + RenderVector(g) + r2;
    var s := RenderCoordinates(LengthsAngles(l, g)) + rest;
    assert s == RenderVector(l) + " " + RenderVector(g) + r2;
    assert s == "" + RenderVector(l) + r1;
    ThreeLinesFail(l, g, r2);
    VectorOf("", l, r1);
    VectorOf(" ", g, r2);
    assert r2[1..] == rest;
    assert Run(EndOfLine, r2).Some?;
    AndOf(AnglesRule, Suppress(EndOfLine), r1, [EncodeVector(g)], r2, [], rest);
    AndOf(VectorRule, And(AnglesRule, Suppress(EndOfLine)), s, [EncodeVector(l)], r1, [EncodeVector(g)] + [], rest);
    assert [EncodeVector(l)] + ([EncodeVector(g)] + []) == [EncodeVector(l), EncodeVector(g)];
  }

  lemma CoordinatesOf(c: CoordSystem, rest: string)
    requires WfCoordinates(c)
    ensures Run(CoordSysRule, RenderCoordinates(c) + rest) == Some(([EncodeCoordinates(c)], rest))
  {
    match c
    case Axes(a, b, d) => AxesOf(a, b, d, rest);
    case LengthsAngles(l, g) => LengthsAnglesOf(l, g, rest);
  }

  lemma LatticeOf(l: Lattice, rest: string)
    requires WfLattice(l)
    ensures Run(LatticeRule, RenderLattice(l) + rest) == Some(([EncodeLattice(l)], "\n" + rest))
  {
    var r3 := "\n" + rest;
    var r2 := "\n" + RenderVector(l.c) + r3;
    var r1 := "\n" + RenderVector(l.b) + r2;
    var s := RenderLattice(l) + rest;
    assert s == "" + RenderVector(l.a) + r1;
    VectorOf("", l.a, r1);
    VectorOf("\n", l.b, r2);
    VectorOf("\n", l.c, r3);
    AndOf(VectorRule, VectorRule, r1, [EncodeVector(l.b)], r2, [EncodeVector(l.c)], r3);
    AndOf(VectorRule, And(VectorRule, VectorRule), s, [EncodeVector(l.a)], r1,
      [EncodeVector(l.b)] + [EncodeVector(l.c)], r3);
    assert [EncodeVector(l.a)] + ([EncodeVector(l.b)] + [EncodeVector(l.c)])
        == [EncodeVector(l.a), EncodeVector(l.b), EncodeVector(l.c)];
  }

  lemma {:induction false} WordsOf(labels: seq<string>, rest: string)
    requires |labels| > 0 && forall k :: 0 <= k < |labels| ==> IsWord(labels[k])
    requires |rest| == 0 || IsWhite(rest[0])
    requires Run(Letters, rest).None?
    ensures Run(OneOrMore(Letters), RenderWords(labels) + rest) == Some((Leaves(labels), rest))
    decreases |labels|
  {
    var tl := labels[1..];
    var x := RenderWords(tl) + rest;
    var s := RenderWords(labels) + rest;
    assert s == " " + labels[0] + x;
    WordOf(" ", labels[0], x);
    if |tl| == 0 {
      assert x == rest;
      assert Run(OneOrMore(Letters), rest).None?;
      assert Leaves(labels) == [Leaf(labels[0])];
    } else {
      WordsOf(tl, rest);
      assert Leaves(labels) == [Leaf(labels[0])] + Leaves(tl);
    }
  }

  lemma AtomOf(ws: string, a: Atom, x: string)
    requires AllWhite(ws) && WfAtom(a)
    requires |x| == 0 || StartsLiteral(x)
    ensures Run(AtomRule, ws + RenderAtom(a) + x) == Some(([EncodeAtom(a)], "\n" + x))
  {
    var after := RenderWords(a.labels) + ("\n" + x);
    var s := ws + RenderAtom(a) + x;
    assert s == ws + RenderVector(a.position) + after;
    VectorOf(ws, a.position, after);
    WordFails("\n", x);
    WordsOf(a.labels, "\n" + x);
    assert Run(Group(OneOrMore(Letters)), after) == Some(([Nested(Leaves(a.labels))], "\n" + x));
    AndOf(VectorRule, Group(OneOrMore(Letters)), s, [EncodeVector(a.position)], after,
      [Nested(Leaves(a.labels))], "\n" + x);
    assert [EncodeVector(a.position)] + [Nested(Leaves(a.labels))]
        == [EncodeVector(a.position), Nested(Leaves(a.labels))];
  }

  lemma RenderAtomsHead(atoms: seq<Atom>)
    requires AllWfAtoms(atoms)
    ensures |RenderAtoms(atoms)| == 0 || StartsLiteral(RenderAtoms(atoms))
  {
    if |atoms| > 0 {
      var a := atoms[0];
      var tail := RenderWords(a.labels) + "\n" + RenderAtoms(atoms[1..]);
      VecHead(a.position, tail);
      assert RenderAtoms(atoms) == RenderVector(a.position) + tail;
    }
  }

  /** No atom on a line break at the end of the text. */
  lemma NoAtomAtEnd()
    ensures Run(AtomRule, "\n").None?
  {
    ScanNumberOf("\n", "");
    assert Run(FloatRegex, "\n").None?;
    assert Run(And(FloatRegex, And(FloatRegex, FloatRegex)), "\n").None?;
    assert Run(VectorRule, "\n").None?;
    assert Run(And(VectorRule, Group(OneOrMore(Letters))), "\n").None?;
  }

  lemma {:induction false} AtomsOf(ws: string, atoms: seq<Atom>)
    requires AllWhite(ws) && |atoms| > 0 && AllWfAtoms(atoms)
    ensures Run(OneOrMore(AtomRule), ws + RenderAtoms(atoms)) == Some((EncodeAtoms(atoms), "\n"))
    decreases |atoms|
  {
    var tl := atoms[1..];
    var x := RenderAtoms(tl);
    var s := ws + RenderAtoms(atoms);
    assert s == ws + RenderAtom(atoms[0]) + x;
    RenderAtomsHead(tl);
    AtomOf(ws, atoms[0], x);
    if |tl| == 0 {
      assert "\n" + x == "\n";
      NoAtomAtEnd();
      assert EncodeAtoms(atoms) == [EncodeAtom(atoms[0])];
    } else {
      AtomsOf("\n", tl);
      assert EncodeAtoms(atoms) == [EncodeAtom(atoms[0])] + EncodeAtoms(tl);
    }
  }

  lemma RenderRun(l: LatIn)
    requires WfLatIn(l)
    ensures Run(LatInRule, Render(l)) == Some((Encode(l), "\n"))
  {
    var ra := RenderAtoms(l.atoms);
    var rest := RenderLattice(l.lattice) + ra;
    var s := Render(l);
    assert s == RenderCoordinates(l.coordinates) + rest;
    CoordinatesOf(l.coordinates, rest);
    LatticeOf(l.lattice, ra);
    AtomsOf("\n", l.atoms);
    var tAtoms := [Nested(EncodeAtoms(l.atoms))];
    assert Run(Group(OneOrMore(AtomRule)), "\n" + ra) == Some((tAtoms, "\n"));
    AndOf(LatticeRule, Group(OneOrMore(AtomRule)), rest, [EncodeLattice(l.lattice)], "\n" + ra, tAtoms, "\n");
    AndOf(CoordSysRule, And(LatticeRule, Group(OneOrMore(AtomRule))), s, [EncodeCoordinates(l.coordinates)], rest,
      [EncodeLattice(l.lattice)] + tAtoms, "\n");
    assert [EncodeCoordinates(l.coordinates)] + ([EncodeLattice(l.lattice)] + tAtoms) == Encode(l);
  }

  /** Reading what `Render` writes gives back the same description: the
      parser loses nothing of a well-formed `lat.in` text. */
  lemma ParseRender(l: LatIn)
    requires WfLatIn(l)
    ensures Parse(Render(l)) == Some(l)
  {
    RenderRun(l);
    DecodeEncode(l);
  }
}
