/** The temporary cell of the Nolfi & Parisi cell space (`NolfiCell` in
    src/nolfinet.cc and include/annalee/nolfinet.h): its attributes, how it
    is initialised, copied and read from the genome, the genes it
    declares, and the axon description string. */
module NolfiCells {
  import opened Common
  import opened Params
  import opened Genes

  /** `celltypes` and `cellids`. */
  const CT_NONE: int := -1
  const CT_INPUT: int := 0
  const CT_HIDDEN: int := 1
  const CT_OUTPUT: int := 2
  const EMPTYID: int := -1

  datatype Point = Point(x: real, y: real)

  /** The attributes of a cell. `face` belongs to the Cangelosi cell; a
      plain Nolfi cell keeps it at 0. */
  datatype Cell = Cell(
    expression: bool,
    coord: Point,
    segAngle: real,
    segLength: real,
    weight: real,
    bias: real,
    typeId: int,
    tipRadius: real,
    finalId: int,
    finalType: int,
    face: real)

  /** `NolfiCell::make`: an expressed cell at the origin with all its
      real attributes 0.5, type 0, and no index or final type yet. */
  function Make(): (c: Cell)
    ensures c.expression && c.coord == Point(0.0, 0.0)
    ensures c.segAngle == 0.5 && c.segLength == 0.5 && c.weight == 0.5 && c.bias == 0.5
    ensures c.typeId == 0 && c.tipRadius == 0.5
    ensures c.finalId == EMPTYID && c.finalType == CT_NONE
    ensures c.face == 0.0
  {
    Cell(true, Point(0.0, 0.0), 0.5, 0.5, 0.5, 0.5, 0, 0.5, EMPTYID, CT_NONE, 0.0)
  }

  /** `copy`: every attribute of the original, field by field. */
  function Copy(o: Cell): (c: Cell)
    ensures c == o
  {
    Cell(o.expression, Point(o.coord.x, o.coord.y), o.segAngle, o.segLength, o.weight, o.bias,
         o.typeId, o.tipRadius, o.finalId, o.finalType, o.face)
  }

  /** `setPos`: only the position changes. */
  function SetPos(c: Cell, x: real, y: real): (r: Cell)
    ensures r.coord == Point(x, y)
    ensures r.(coord := c.coord) == c
  {
    c.(coord := Point(x, y))
  }

  /** `setTipRadius`: only the tip radius changes. */
  function SetTipRadius(c: Cell, radius: real): (r: Cell)
    ensures r.tipRadius == radius
    ensures r.(tipRadius := c.tipRadius) == c
  {
    c.(tipRadius := radius)
  }

  /** `mapTo`: only the index in the final network changes; EMPTYID
      means the cell will not be part of it. */
  function MapTo(c: Cell, neuron: int): (r: Cell)
    ensures r.finalId == neuron
    ensures r.(finalId := c.finalId) == c
  {
    c.(finalId := neuron)
  }

  /** `NolfiCell::check`: a tip radius of at least 0.5. */
  predicate Checked(c: Cell) {
    c.tipRadius >= 0.5
  }

  /** The gene names of the cell genes: the letter of "e%d", "x%d", ...
      and the cell's index; "tipr" is the genome-global tip radius. */
  datatype NKey = Gene(letter: char, index: int) | Tipr

  /** The parameters `addGenesTo` consults. */
  predicate ExistenceGene(params: StringMap) {
    Atoi(Get(params, "NolfiEncoding.existenceGene")) != 0
  }

  predicate AutoCell(params: StringMap) {
    Get(params, "NolfiEncoding.tipRadius") == "auto-cell"
  }

  /** The letters of the genes a cell declares. */
  predicate CellLetter(c: char, existence: bool, autoCell: bool) {
    || (existence && c == 'e')
    || c == 'x' || c == 'y' || c == 'a' || c == 's' || c == 'w' || c == 'b' || c == 't'
    || (autoCell && c == 'r')
  }

  /** `NolfiCell::addGenesTo` for cell i: the existence gene only when
      asked for; position, axon angle and length, weight and bias genes;
      the type over `typeBits` bits; and a per-cell tip radius in [1, 10]
      only for "auto-cell". */
  function CellGenes(i: int, typeBits: nat, existence: bool, autoCell: bool): seq<Decl<NKey>> {
    (if existence then [Binary(Gene('e', i))] else [])
    + [BitFloat(Gene('x', i), 0.0, 1.0, 3), BitFloat(Gene('y', i), 0.0, 1.0, 5),
       BitFloat(Gene('a', i), -1.0, 1.0, 6), BitFloat(Gene('s', i), 0.0, 1.0, 4),
       BitFloat(Gene('w', i), -1.0, 1.0, 10), BitFloat(Gene('b', i), -1.0, 1.0, 10),
       BitInt(Gene('t', i), 0, Pow2(typeBits) - 1, typeBits)]
    + (if autoCell then [BitFloat(Gene('r', i), 1.0, 10.0, 8)] else [])
  }

  /** Cell i declares exactly the genes of its letters. */
  lemma CellGenesKeys(i: int, typeBits: nat, existence: bool, autoCell: bool)
    ensures forall k :: k in Keys(CellGenes(i, typeBits, existence, autoCell)) <==>
      k.Gene? && k.index == i && CellLetter(k.letter, existence, autoCell)
  {
    var ds := CellGenes(i, typeBits, existence, autoCell);
    var middle := [Gene('x', i), Gene('y', i), Gene('a', i), Gene('s', i), Gene('w', i), Gene('b', i), Gene('t', i)];
    assert Keys(ds) == (if existence then [Gene('e', i)] else []) + middle + (if autoCell then [Gene('r', i)] else []);
  }

  /** The genes `decodeFrom` reads for cell i, each of the kind it casts
      it to; the existence and tip radius genes may be absent. */
  predicate DecodeReady(g: Genome<NKey>, i: int) {
    && HasReal(g, Gene('x', i)) && HasReal(g, Gene('y', i))
    && HasReal(g, Gene('b', i)) && HasReal(g, Gene('w', i))
    && HasReal(g, Gene('s', i)) && HasReal(g, Gene('a', i))
    && HasInt(g, Gene('t', i))
    && (Gene('e', i) in g ==> HasBit(g, Gene('e', i)))
    && (Gene('r', i) in g ==> HasReal(g, Gene('r', i)))
  }

  /** `NolfiCell::decodeFrom`: the cell's attributes from its genes. An
      absent existence gene means expressed; an absent tip radius gene
      keeps the radius the cell already has. The final index and type are
      reset. */
  function DecodeCell(g: Genome<NKey>, i: int, c: Cell): (r: Cell)
    requires DecodeReady(g, i)
    ensures r.expression == (Gene('e', i) !in g || BitOf(g, Gene('e', i)))
    ensures r.coord == Point(RealOf(g, Gene('x', i)), RealOf(g, Gene('y', i)))
    ensures r.bias == RealOf(g, Gene('b', i)) && r.weight == RealOf(g, Gene('w', i))
    ensures r.segLength == RealOf(g, Gene('s', i)) && r.segAngle == RealOf(g, Gene('a', i))
    ensures r.typeId == IntOf(g, Gene('t', i))
    ensures r.tipRadius == if Gene('r', i) in g then RealOf(g, Gene('r', i)) else c.tipRadius
    ensures r.finalId == EMPTYID && r.finalType == CT_NONE && r.face == c.face
  {
    var e := if Gene('e', i) in g then BitOf(g, Gene('e', i)) else true;
    var radius := if Gene('r', i) in g then RealOf(g, Gene('r', i)) else c.tipRadius;
    c.(expression := e,
       coord := Point(RealOf(g, Gene('x', i)), RealOf(g, Gene('y', i))),
       bias := RealOf(g, Gene('b', i)), weight := RealOf(g, Gene('w', i)),
       segLength := RealOf(g, Gene('s', i)), segAngle := RealOf(g, Gene('a', i)),
       typeId := IntOf(g, Gene('t', i)), tipRadius := radius,
       finalId := EMPTYID, finalType := CT_NONE)
  }

  /** A decoded cell passes `check` exactly when the radius it ends up
      with, its own radius gene or else the one it kept, is at least 0.5. */
  lemma DecodedChecked(g: Genome<NKey>, i: int, c: Cell)
    requires DecodeReady(g, i)
    ensures Checked(DecodeCell(g, i, c)) <==>
      (if Gene('r', i) in g then RealOf(g, Gene('r', i)) else c.tipRadius) >= 0.5
  {
  }

  /** Decoding a genome that holds cell i's declared genes, and no
      undeclared existence or radius gene, is possible, and it yields a
      cell inside the unit square with its type inside the type range; a
      per-cell radius is at least 1, so such a cell passes `check`. */
  lemma DecodeDeclared(g: Genome<NKey>, i: int, typeBits: nat, existence: bool, autoCell: bool, c: Cell)
    requires Conforms(g, CellGenes(i, typeBits, existence, autoCell))
    requires Gene('e', i) in g ==> existence
    requires Gene('r', i) in g ==> autoCell
    ensures DecodeReady(g, i)
    ensures var r := DecodeCell(g, i, c);
      && 0.0 <= r.coord.x <= 1.0 && 0.0 <= r.coord.y <= 1.0
      && 0 <= r.typeId < Pow2(typeBits)
      && -1.0 <= r.bias <= 1.0 && -1.0 <= r.weight <= 1.0
      && 0.0 <= r.segLength <= 1.0 && -1.0 <= r.segAngle <= 1.0
      && (autoCell ==> Checked(r))
      && (c.tipRadius >= 0.5 ==> Checked(r))
  {
    DeclaredHeld(g, i, typeBits, existence, autoCell);
  }

  /** Every gene cell i declares is present and fits its declaration. */
  lemma DeclaredHeld(g: Genome<NKey>, i: int, typeBits: nat, existence: bool, autoCell: bool)
    requires Conforms(g, CellGenes(i, typeBits, existence, autoCell))
    ensures HasReal(g, Gene('x', i)) && HasReal(g, Gene('y', i)) && HasReal(g, Gene('a', i))
    ensures HasReal(g, Gene('s', i)) && HasReal(g, Gene('w', i)) && HasReal(g, Gene('b', i))
    ensures 0.0 <= RealOf(g, Gene('x', i)) <= 1.0 && 0.0 <= RealOf(g, Gene('y', i)) <= 1.0
    ensures -1.0 <= RealOf(g, Gene('a', i)) <= 1.0 && 0.0 <= RealOf(g, Gene('s', i)) <= 1.0
    ensures -1.0 <= RealOf(g, Gene('w', i)) <= 1.0 && -1.0 <= RealOf(g, Gene('b', i)) <= 1.0
    ensures HasInt(g, Gene('t', i)) && 0 <= IntOf(g, Gene('t', i)) <= Pow2(typeBits) - 1
    ensures existence ==> HasBit(g, Gene('e', i))
    ensures autoCell ==> HasReal(g, Gene('r', i)) && 1.0 <= RealOf(g, Gene('r', i)) <= 10.0
  {
    var ds := CellGenes(i, typeBits, existence, autoCell);
    Held(g, ds, BitFloat(Gene('x', i), 0.0, 1.0, 3));
    Held(g, ds, BitFloat(Gene('y', i), 0.0, 1.0, 5));
    Held(g, ds, BitFloat(Gene('a', i), -1.0, 1.0, 6));
    Held(g, ds, BitFloat(Gene('s', i), 0.0, 1.0, 4));
    Held(g, ds, BitFloat(Gene('w', i), -1.0, 1.0, 10));
    Held(g, ds, BitFloat(Gene('b', i), -1.0, 1.0, 10));
    Held(g, ds, BitInt(Gene('t', i), 0, Pow2(typeBits) - 1, typeBits));
    if existence {
      Held(g, ds, Binary(Gene('e', i)));
    }
    if autoCell {
      Held(g, ds, BitFloat(Gene('r', i), 1.0, 10.0, 8));
    }
  }

  // The axon description string.

  /** One application of the L-system rule X -> F[-X][+X] to every X. */
  function Grow(s: string): string {
    if |s| == 0 then [] else (if s[0] == 'X' then "F[-X][+X]" else [s[0]]) + Grow(s[1..])
  }

  function GrowTimes(s: string, n: nat): string {
    if n == 0 then s else Grow(GrowTimes(s, n - 1))
  }

  /** The rule X -> F applied to every X. */
  function Close(s: string): string {
    if |s| == 0 then [] else [if s[0] == 'X' then 'F' else s[0]] + Close(s[1..])
  }

  /** The axiom of the axon grammar and the number of times it grows. */
  const AXON_AXIOM: string := "X"
  const AXON_GROWTHS: nat := 4

  /** `makeAxonString`: "X" grown four times, then closed. */
  function AxonString(): (r: string)
    ensures 'X' !in r
    ensures |r| == 121
    ensures Occurrences(r, 'F') == 31
  {
    ClosedAxonCounts(AXON_GROWTHS);
    Close(GrowTimes(AXON_AXIOM, AXON_GROWTHS))
  }

  /** "X" grown n times and closed: no X, 2^(n+1) - 1 F's and
      1 + 8(2^n - 1) characters. */
  lemma ClosedAxonCounts(n: nat)
    ensures 'X' !in Close(GrowTimes("X", n))
    ensures |Close(GrowTimes("X", n))| == 1 + 8 * (Pow2(n) - 1)
    ensures Occurrences(Close(GrowTimes("X", n)), 'F') == 2 * Pow2(n) - 1
  {
    AxonCounts(n);
    CloseCounts(GrowTimes("X", n));
  }

  /** The letter counts of the branch each X grows into. */
  lemma BranchCounts()
    ensures Occurrences("F[-X][+X]", 'X') == 2 && Occurrences("F[-X][+X]", 'F') == 1
  {
    BranchCount('X');
    BranchCount('F');
  }

  lemma BranchCount(c: char)
    ensures Occurrences("F[-X][+X]", c) == Occurrences("F", c) + Occurrences("[", c) + Occurrences("-", c)
      + 2 * Occurrences("X]", c) + Occurrences("[", c) + Occurrences("+", c)
  {
    var b := "F[-X][+X]";
    assert b == "F" + ("[" + ("-" + ("X]" + ("[" + ("+" + "X]")))));
    OccurrencesConcat("+", "X]", c);
    OccurrencesConcat("[", "+" + "X]", c);
    OccurrencesConcat("X]", "[" + ("+" + "X]"), c);
    OccurrencesConcat("-", "X]" + ("[" + ("+" + "X]")), c);
    OccurrencesConcat("[", "-" + ("X]" + ("[" + ("+" + "X]"))), c);
    OccurrencesConcat("F", "[" + ("-" + ("X]" + ("[" + ("+" + "X]")))), c);
  }

  /** Each growth step doubles the X's and gives each X grown one F. */
  lemma {:induction false} GrowCounts(s: string)
    ensures Occurrences(Grow(s), 'X') == 2 * Occurrences(s, 'X')
    ensures Occurrences(Grow(s), 'F') == Occurrences(s, 'F') + Occurrences(s, 'X')
    ensures |Grow(s)| == |s| + 8 * Occurrences(s, 'X')
    decreases |s|
  {
    if |s| > 0 {
      var head := if s[0] == 'X' then "F[-X][+X]" else [s[0]];
      assert Grow(s) == head + Grow(s[1..]);
      BranchCounts();
      GrowCounts(s[1..]);
      OccurrencesConcat(head, Grow(s[1..]), 'X');
      OccurrencesConcat(head, Grow(s[1..]), 'F');
      if s[0] != 'X' {
        assert [s[0]][1..] == [];
      }
    }
  }

  /** After n growth steps from "X": 2^n X's and 2^n - 1 F's. */
  lemma {:induction false} AxonCounts(n: nat)
    ensures Occurrences(GrowTimes("X", n), 'X') == Pow2(n)
    ensures Occurrences(GrowTimes("X", n), 'F') == Pow2(n) - 1
    ensures |GrowTimes("X", n)| == 1 + 8 * (Pow2(n) - 1)
  {
    if n == 0 {
      assert "X"[1..] == "";
    } else {
      AxonCounts(n - 1);
      GrowCounts(GrowTimes("X", n - 1));
    }
  }

  /** Closing removes every X, turning each into an F. */
  lemma {:induction false} CloseCounts(s: string)
    ensures 'X' !in Close(s) && |Close(s)| == |s|
    ensures Occurrences(Close(s), 'F') == Occurrences(s, 'F') + Occurrences(s, 'X')
    decreases |s|
  {
    if |s| > 0 {
      CloseCounts(s[1..]);
      assert Close(s)[1..] == Close(s[1..]);
    }
  }
}
