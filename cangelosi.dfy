/** The Cangelosi, Parisi & Nolfi encoding (src/cangelosi.cc,
    include/annalee/cangelosinet.h): the genome describes 32 daughter
    cells, two per cell type; starting from one mother cell, every cycle
    replaces each cell by the two daughters of its type, which move one
    step on a grid. The grown cells are then placed into the unit square
    and made into a network as in the Nolfi encoding. */
module Cangelosi {
  import opened Common
  import opened Params
  import opened Genes
  import opened AnnGenes
  import opened Networks
  import opened NolfiCells
  import opened NolfiNets
  import opened Nolfi

  /** The gene names: "T%d%c" and its siblings for the letter, the
      mother's type and the daughter ('a' or 'b' as 0 or 1); "tipr". */
  datatype CKey = RGene(letter: char, rule: int, daughter: int) | CTipr

  // Daughter descriptions (`CangCellDescr`).

  /** How a daughter differs from its mother: its new type, the deltas
      of its attributes, the direction of its step, and the factor of its
      tip radius (used only when positive). */
  datatype Descr = Descr(
    newType: int,
    biasVar: real,
    weightVar: real,
    daughterLoc: int,
    faceVar: real,
    segLengthVar: real,
    segAngleVar: real,
    tipRadiusMul: real)

  /** The genes `decodeFrom` reads for daughter d of type r, each of the
      kind it casts it to; the face and radius genes may be absent. */
  predicate DescrReady(g: Genome<CKey>, r: int, d: int) {
    && HasInt(g, RGene('T', r, d)) && HasReal(g, RGene('b', r, d))
    && HasReal(g, RGene('w', r, d)) && HasInt(g, RGene('d', r, d))
    && HasReal(g, RGene('s', r, d)) && HasReal(g, RGene('a', r, d))
    && (RGene('f', r, d) in g ==> HasReal(g, RGene('f', r, d)))
    && (RGene('r', r, d) in g ==> HasReal(g, RGene('r', r, d)))
  }

  /** `CangCellDescr::decodeFrom`: an absent face gene is a face delta of
      0, an absent radius gene the factor -666. */
  function DecodeDescr(g: Genome<CKey>, r: int, d: int): Descr
    requires DescrReady(g, r, d)
  {
    Descr(IntOf(g, RGene('T', r, d)), RealOf(g, RGene('b', r, d)), RealOf(g, RGene('w', r, d)),
          IntOf(g, RGene('d', r, d)),
          if RGene('f', r, d) in g then RealOf(g, RGene('f', r, d)) else 0.0,
          RealOf(g, RGene('s', r, d)), RealOf(g, RGene('a', r, d)),
          if RGene('r', r, d) in g then RealOf(g, RGene('r', r, d)) else -666.0)
  }

  /** The genes of daughter d of type r as `addGenesTo` declares them:
      the new type in 0..15, the step direction in 0..7, the segment
      length delta in the configured range, a face gene and a radius
      factor gene only when asked for. */
  function DescrGenes(r: int, d: int, sMin: real, sMax: real, face: bool, autoCell: bool): seq<Decl<CKey>> {
    [BitInt(RGene('T', r, d), 0, 15, 4), BitFloat(RGene('b', r, d), -1.0, 1.0, 10),
     BitFloat(RGene('w', r, d), -1.0, 1.0, 10), BitInt(RGene('d', r, d), 0, 7, 3)]
    + (if face then [BitFloat(RGene('f', r, d), 0.0, 1.0, 4)] else [])
    + [BitFloat(RGene('s', r, d), sMin, sMax, 4), BitFloat(RGene('a', r, d), -1.0, 1.0, 6)]
    + (if autoCell then [BitFloat(RGene('r', r, d), 0.0, 2.0, 8)] else [])
  }

  /** Sixteen cell types with two daughters each. */
  const DESCRIPTIONS := 32

  /** The genes of the first n daughter descriptions, daughter d of type
      r being description 2r+d. */
  function RulesGenes(n: int, sMin: real, sMax: real, face: bool, autoCell: bool): seq<Decl<CKey>>
    // `face` in the measure keeps the verifier from unrolling a call
    // with the literal count 32 all the way down.
    decreases n, face
  {
    if n <= 0 then [] else RulesGenes(n - 1, sMin, sMax, face, autoCell) + DescrGenes((n - 1) / 2, (n - 1) % 2, sMin, sMax, face, autoCell)
  }

  /** The description after those of 2r+d earlier ones is that of
      daughter d of rule r. */
  lemma RulesGenesStep(k: int, r: int, d: int, sMin: real, sMax: real, face: bool, autoCell: bool)
    requires 0 <= r && 0 <= d < 2 && k == 2 * r + d
    ensures RulesGenes(k + 1, sMin, sMax, face, autoCell) ==
      RulesGenes(k, sMin, sMax, face, autoCell) + DescrGenes(r, d, sMin, sMax, face, autoCell)
  {
    assert k / 2 == r && k % 2 == d;
  }

  /** `CangelosiEncoding::addPrivateGenes`: the genes of the 32
      descriptions, and the global tip radius gene for "auto-network". */
  function CangelosiGenes(sMin: real, sMax: real, face: bool, autoCell: bool, autoNetwork: bool): seq<Decl<CKey>> {
    RulesGenes(DESCRIPTIONS, sMin, sMax, face, autoCell) + (if autoNetwork then [BitFloat(CTipr, 1.0, 10.0, 8)] else [])
  }

  /** Description 2r+d's genes are among those of every longer prefix. */
  lemma {:induction false} DescrGenesHeld(n: int, sMin: real, sMax: real, face: bool, autoCell: bool, r: int, d: int)
    requires 0 <= d < 2 && 0 <= 2 * r + d < n
    ensures forall x :: x in DescrGenes(r, d, sMin, sMax, face, autoCell) ==> x in RulesGenes(n, sMin, sMax, face, autoCell)
    decreases n
  {
    if 2 * r + d < n - 1 {
      DescrGenesHeld(n - 1, sMin, sMax, face, autoCell, r, d);
    } else {
      assert (n - 1) / 2 == r && (n - 1) % 2 == d;
    }
  }

  /** The parameters `addGenesTo` consults. */
  predicate FaceGene(params: StringMap) {
    Atoi(Get(params, "NolfiEncoding.faceGene")) != 0
  }

  function SegLenParts(params: StringMap): seq<string> {
    Split(Get(params, "CangelosiEncoding.segLenMulRange"), ',')
  }

  /** The ends sMin and sMax of the segment length range, read from the
      first two pieces of "lo,hi". */
  function SegLenRange(params: StringMap): (real, real)
    requires |SegLenParts(params)| >= 2
  {
    var parts := SegLenParts(params);
    (Atof(parts[0]), Atof(parts[1]))
  }

  /** What `addGenesTo` demands: the segment length range has a lower
      and an upper end, with -2 <= sMin <= 1 and 0 < sMax <= 5. */
  predicate SegLenRangeValid(params: StringMap) {
    |SegLenParts(params)| >= 2 && -2.0 <= SegLenRange(params).0 <= 1.0 && 0.0 < SegLenRange(params).1 <= 5.0
  }

  /** `CangCellDescr::addGenesTo`: the genes of the descriptions, type by
      type and daughter by daughter. */
  method AddDescrGenes(params: StringMap) returns (decls: seq<Decl<CKey>>, sMin: real, sMax: real)
    requires SegLenRangeValid(params)
    ensures (sMin, sMax) == SegLenRange(params)
    ensures decls == RulesGenes(DESCRIPTIONS, sMin, sMax, FaceGene(params), AutoCell(params))
  {
    var range := SegLenRange(params);
    sMin, sMax := range.0, range.1;
    decls := AddRulesGenes(sMin, sMax, FaceGene(params), AutoCell(params));
  }

  /** The loops of `addGenesTo`, type by type and daughter by daughter. */
  method AddRulesGenes(sMin: real, sMax: real, face: bool, autoCell: bool) returns (decls: seq<Decl<CKey>>)
    ensures decls == RulesGenes(DESCRIPTIONS, sMin, sMax, face, autoCell)
  {
    decls := [];
    ghost var k := 0;
    for rule := 0 to 16
      invariant k == 2 * rule && decls == RulesGenes(k, sMin, sMax, face, autoCell)
    {
      for daughter := 0 to 2
        invariant k == 2 * rule + daughter && decls == RulesGenes(k, sMin, sMax, face, autoCell)
      {
        RulesGenesStep(k, rule, daughter, sMin, sMax, face, autoCell);
        decls := decls + DescrGenes(rule, daughter, sMin, sMax, face, autoCell);
        k := k + 1;
      }
    }
  }

  /** The 32 descriptions `execute` reads, at index 2r+d. */
  predicate RulesReady(g: Genome<CKey>) {
    forall r, d :: 0 <= r < 16 && 0 <= d < 2 ==> DescrReady(g, r, d)
  }

  function Rules(g: Genome<CKey>): (rules: seq<Descr>)
    requires RulesReady(g)
    ensures |rules| == 32
  {
    seq(32, k requires 0 <= k < 32 => DecodeDescr(g, k / 2, k % 2))
  }

  /** Descriptions whose type and step direction lie in the ranges their
      genes have, so that the daughters' types index the table. */
  predicate RulesFit(rules: seq<Descr>) {
    |rules| == 32 && forall k :: 0 <= k < 32 ==> 0 <= rules[k].newType < 16 && 0 <= rules[k].daughterLoc < 8
  }

  /** The first half of `execute`: the 32 descriptions, type by type. */
  method ReadRules(g: Genome<CKey>) returns (rules: seq<Descr>)
    requires RulesReady(g)
    ensures rules == Rules(g)
    ensures forall r, d :: 0 <= r < 16 && 0 <= d < 2 ==> rules[r * 2 + d] == DecodeDescr(g, r, d)
  {
    var table := new Descr[32];
    for rule := 0 to 16
      invariant forall k :: 0 <= k < 2 * rule ==> table[k] == Rules(g)[k]
    {
      for daughter := 0 to 2
        invariant forall k :: 0 <= k < 2 * rule + daughter ==> table[k] == Rules(g)[k]
      {
        assert (rule * 2 + daughter) / 2 == rule && (rule * 2 + daughter) % 2 == daughter;
        table[rule * 2 + daughter] := DecodeDescr(g, rule, daughter);
      }
    }
    rules := table[..];
    forall r, d | 0 <= r < 16 && 0 <= d < 2 ensures rules[r * 2 + d] == DecodeDescr(g, r, d) {
      assert (r * 2 + d) / 2 == r && (r * 2 + d) % 2 == d;
    }
  }

  /** A genome holding the declared genes of (at least) the 32
      descriptions, and no face or radius factor gene that was not
      declared, can be read, and its descriptions fit. */
  lemma ConformingRules(g: Genome<CKey>, n: int, sMin: real, sMax: real, face: bool, autoCell: bool)
    requires n >= DESCRIPTIONS && Conforms(g, RulesGenes(n, sMin, sMax, face, autoCell))
    requires forall r, d :: RGene('f', r, d) in g ==> face
    requires forall r, d :: RGene('r', r, d) in g ==> autoCell
    ensures RulesReady(g) && RulesFit(Rules(g))
  {
    forall r, d | 0 <= r < 16 && 0 <= d < 2
      ensures DescrReady(g, r, d)
    {
      DescrConforming(g, n, sMin, sMax, face, autoCell, r, d);
    }
    var rules := Rules(g);
    forall k | 0 <= k < 32
      ensures 0 <= rules[k].newType < 16 && 0 <= rules[k].daughterLoc < 8
    {
      DescrConforming(g, n, sMin, sMax, face, autoCell, k / 2, k % 2);
    }
  }

  lemma DescrConforming(g: Genome<CKey>, n: int, sMin: real, sMax: real, face: bool, autoCell: bool, r: int, d: int)
    requires 0 <= r < 16 && 0 <= d < 2 && 2 * r + d < n
    requires Conforms(g, RulesGenes(n, sMin, sMax, face, autoCell))
    requires RGene('f', r, d) in g ==> face
    requires RGene('r', r, d) in g ==> autoCell
    ensures DescrReady(g, r, d) && 0 <= IntOf(g, RGene('T', r, d)) < 16 && 0 <= IntOf(g, RGene('d', r, d)) < 8
    ensures var e := DecodeDescr(g, r, d);
      && 0 <= e.newType < 16 && 0 <= e.daughterLoc < 8
      && -1.0 <= e.biasVar <= 1.0 && -1.0 <= e.weightVar <= 1.0
      && sMin <= e.segLengthVar <= sMax && -1.0 <= e.segAngleVar <= 1.0
      && (if face then 0.0 <= e.faceVar <= 1.0 else e.faceVar == 0.0)
      && (if autoCell then 0.0 <= e.tipRadiusMul <= 2.0 else e.tipRadiusMul == -666.0)
  {
    var ds := DescrGenes(r, d, sMin, sMax, face, autoCell);
    DescrGenesHeld(n, sMin, sMax, face, autoCell, r, d);
    ConformsPart(g, RulesGenes(n, sMin, sMax, face, autoCell), ds);
    Held(g, ds, BitInt(RGene('T', r, d), 0, 15, 4));
    Held(g, ds, BitFloat(RGene('b', r, d), -1.0, 1.0, 10));
    Held(g, ds, BitFloat(RGene('w', r, d), -1.0, 1.0, 10));
    Held(g, ds, BitInt(RGene('d', r, d), 0, 7, 3));
    Held(g, ds, BitFloat(RGene('s', r, d), sMin, sMax, 4));
    Held(g, ds, BitFloat(RGene('a', r, d), -1.0, 1.0, 6));
    if face {
      Held(g, ds, BitFloat(RGene('f', r, d), 0.0, 1.0, 4));
    }
    if autoCell {
      Held(g, ds, BitFloat(RGene('r', r, d), 0.0, 2.0, 8));
    }
  }

  // Cells (`CangelosiCell`).

  /** The step of direction d: north, then clockwise round the eight
      neighbours. */
  function OffsetX(d: int): real
    requires 0 <= d < 8
  {
    [0.0, 1.0, 1.0, 1.0, 0.0, -1.0, -1.0, -1.0][d]
  }

  function OffsetY(d: int): real
    requires 0 <= d < 8
  {
    [1.0, 1.0, 0.0, -1.0, -1.0, -1.0, 0.0, 1.0][d]
  }

  /** Every step goes to one of the eight neighbours, and each neighbour
      has exactly one direction. */
  lemma OffsetsNeighbours()
    ensures forall d :: 0 <= d < 8 ==> OffsetX(d) in {-1.0, 0.0, 1.0} && OffsetY(d) in {-1.0, 0.0, 1.0}
    ensures forall d :: 0 <= d < 8 ==> (OffsetX(d), OffsetY(d)) != (0.0, 0.0)
    ensures forall d, e :: 0 <= d < e < 8 ==> (OffsetX(d), OffsetY(d)) != (OffsetX(e), OffsetY(e))
  {
  }

  /** `add`: the type is replaced, the other attributes change by the
      deltas (the segment angle by a tenth of its delta), the cell takes
      one step, and a positive factor scales the tip radius. */
  function Add(c: Cell, rule: Descr): (r: Cell)
    requires 0 <= rule.daughterLoc < 8
    ensures r.typeId == rule.newType
    ensures r.bias == c.bias + rule.biasVar && r.weight == c.weight + rule.weightVar
    ensures r.face == c.face + rule.faceVar && r.segLength == c.segLength + rule.segLengthVar
    ensures r.segAngle == c.segAngle + 0.1 * rule.segAngleVar
    ensures r.coord.x - c.coord.x in {-1.0, 0.0, 1.0} && r.coord.y - c.coord.y in {-1.0, 0.0, 1.0}
    ensures r.coord != c.coord
    ensures r.tipRadius == if rule.tipRadiusMul > 0.0 then c.tipRadius * rule.tipRadiusMul else c.tipRadius
    ensures r.expression == c.expression && r.finalId == c.finalId && r.finalType == c.finalType
  {
    OffsetsNeighbours();
    c.(typeId := rule.newType,
       bias := c.bias + rule.biasVar,
       weight := c.weight + rule.weightVar,
       face := c.face + rule.faceVar,
       segLength := c.segLength + rule.segLengthVar,
       segAngle := c.segAngle + 0.1 * rule.segAngleVar,
       coord := Point(c.coord.x + OffsetX(rule.daughterLoc), c.coord.y + OffsetY(rule.daughterLoc)),
       tipRadius := if rule.tipRadiusMul > 0.0 then c.tipRadius * rule.tipRadiusMul else c.tipRadius)
  }

  /** The daughter constructor: the mother modified by the rule, facing
      0, with a tip radius below 0.5 lifted to 1. */
  function Daughter(mother: Cell, rule: Descr): (r: Cell)
    requires 0 <= rule.daughterLoc < 8
    ensures r.face == 0.0 && Checked(r)
    ensures r.tipRadius == (if Add(mother, rule).tipRadius < 0.5 then 1.0 else Add(mother, rule).tipRadius)
  {
    var c := Add(mother, rule).(face := 0.0);
    if c.tipRadius < 0.5 then SetTipRadius(c, 1.0) else c
  }

  /** Without a radius gene a daughter keeps a radius of at least 0.5,
      and without a face gene `add` leaves the face alone. */
  lemma AbsentGenes(g: Genome<CKey>, r: int, d: int, mother: Cell)
    requires DescrReady(g, r, d) && 0 <= IntOf(g, RGene('d', r, d)) < 8
    ensures RGene('r', r, d) !in g && mother.tipRadius >= 0.5 ==>
      Daughter(mother, DecodeDescr(g, r, d)).tipRadius == mother.tipRadius
    ensures RGene('f', r, d) !in g ==> Add(mother, DecodeDescr(g, r, d)).face == mother.face
  {
  }

  /** `CangelosiCell::make`: a Nolfi cell with no face, segment length
      or segment angle, and a tip radius of at least 0.5. */
  function MotherCell(): (c: Cell)
    ensures c == Make().(face := 0.0, segLength := 0.0, segAngle := 0.0)
  {
    var c := Make().(face := 0.0, segLength := 0.0, segAngle := 0.0);
    if c.tipRadius < 0.5 then SetTipRadius(c, 1.0) else c
  }

  /** `makeMother`'s cell: at the origin, with the given radius when it is
      positive. The default radius is 0.5 already, so the fallback to 1.0
      never applies. */
  function Mother(tipRadius: real): (c: Cell)
    ensures c.expression && c.coord == Point(0.0, 0.0) && c.typeId == 0
    ensures c.finalId == EMPTYID && c.finalType == CT_NONE
    ensures c.face == 0.0 && c.segLength == 0.0 && c.segAngle == 0.0
    ensures c.tipRadius == if tipRadius > 0.0 then tipRadius else 0.5
  {
    var c := SetPos(MotherCell(), 0.0, 0.0);
    if tipRadius > 0.0 then SetTipRadius(c, tipRadius) else c
  }

  // Growth (`rewrite`).

  /** Cells whose types index the descriptions. */
  predicate Typed(cs: seq<Cell>) {
    forall k :: 0 <= k < |cs| ==> 0 <= cs[k].typeId < 16
  }

  /** One rewriting cycle: daughter d of cell m, built by description
      2 type(m) + d, goes to 2m+d. */
  function Divide(cs: seq<Cell>, rules: seq<Descr>): (ds: seq<Cell>)
    requires RulesFit(rules) && Typed(cs)
    ensures |ds| == 2 * |cs| && Typed(ds)
  {
    seq(2 * |cs|, k requires 0 <= k < 2 * |cs| => Daughter(cs[k / 2], rules[cs[k / 2].typeId * 2 + k % 2]))
  }

  /** Daughter d of cell m is cell 2m+d of the cycle's result. */
  lemma DivideIndex(cs: seq<Cell>, rules: seq<Descr>, m: int, d: int)
    requires RulesFit(rules) && Typed(cs) && 0 <= m < |cs| && 0 <= d < 2
    ensures Divide(cs, rules)[2 * m + d] == Daughter(cs[m], rules[cs[m].typeId * 2 + d])
  {
    assert (2 * m + d) / 2 == m && (2 * m + d) % 2 == d;
  }

  /** n cycles. */
  function Grown(cs: seq<Cell>, rules: seq<Descr>, n: int): (rs: seq<Cell>)
    requires RulesFit(rules) && Typed(cs)
    ensures Typed(rs)
    decreases n
  {
    if n <= 0 then cs else Divide(Grown(cs, rules, n - 1), rules)
  }

  /** Each cycle doubles the cells: n cycles multiply them by 2^n. */
  lemma {:induction false} GrownCount(cs: seq<Cell>, rules: seq<Descr>, n: nat)
    requires RulesFit(rules) && Typed(cs)
    ensures |Grown(cs, rules, n)| == |cs| * Pow2(n)
  {
    if n > 0 {
      GrownCount(cs, rules, n - 1);
    }
  }

  /** A point on the integer grid within k steps of the origin. */
  predicate OnGrid(p: Point, k: int) {
    && p.x == p.x.Floor as real && p.y == p.y.Floor as real
    && -(k as real) <= p.x <= k as real && -(k as real) <= p.y <= k as real
  }

  predicate AllOnGrid(cs: seq<Cell>, k: int) {
    forall i :: 0 <= i < |cs| ==> OnGrid(cs[i].coord, k)
  }

  /** What every grown cell shares with the mother: expressed, with no
      index and no final type yet. */
  predicate Unindexed(cs: seq<Cell>) {
    forall i :: 0 <= i < |cs| ==> cs[i].expression && cs[i].finalId == EMPTYID && cs[i].finalType == CT_NONE
  }

  /** Every cycle moves each cell one step on the grid and keeps it
      unindexed; after at least one cycle every cell faces 0 and passes
      `check`. */
  lemma {:induction false} GrownCells(cs: seq<Cell>, rules: seq<Descr>, n: nat, k: int)
    requires RulesFit(rules) && Typed(cs) && AllOnGrid(cs, k) && Unindexed(cs)
    ensures AllOnGrid(Grown(cs, rules, n), k + n) && Unindexed(Grown(cs, rules, n))
    ensures n > 0 ==> Matured(Grown(cs, rules, n))
  {
    if n > 0 {
      GrownCells(cs, rules, n - 1, k);
      DivideCells(Grown(cs, rules, n - 1), rules, k + n - 1);
    }
  }

  /** Cells facing 0 that pass `check`. */
  predicate Matured(cs: seq<Cell>) {
    forall i :: 0 <= i < |cs| ==> cs[i].face == 0.0 && Checked(cs[i])
  }

  /** One cycle moves each cell one step and keeps it unindexed; every
      daughter faces 0 and passes `check`. */
  lemma DivideCells(cs: seq<Cell>, rules: seq<Descr>, k: int)
    requires RulesFit(rules) && Typed(cs) && AllOnGrid(cs, k) && Unindexed(cs)
    ensures AllOnGrid(Divide(cs, rules), k + 1) && Unindexed(Divide(cs, rules)) && Matured(Divide(cs, rules))
  {
    var ds := Divide(cs, rules);
    forall i | 0 <= i < |ds|
      ensures OnGrid(ds[i].coord, k + 1)
      ensures ds[i].expression && ds[i].finalId == EMPTYID && ds[i].finalType == CT_NONE
    {
      DaughterAt(cs, rules, i);
      StepOnGrid(cs[i / 2], rules[cs[i / 2].typeId * 2 + i % 2], k);
    }
  }

  /** Cell i of a cycle's result is a daughter of cell i / 2. */
  lemma DaughterAt(cs: seq<Cell>, rules: seq<Descr>, i: int)
    requires RulesFit(rules) && Typed(cs) && 0 <= i < 2 * |cs|
    ensures Divide(cs, rules)[i] == Daughter(cs[i / 2], rules[cs[i / 2].typeId * 2 + i % 2])
  {
    var m := i / 2;
    assert i == 2 * m || i == 2 * m + 1;
  }

  /** A daughter is one grid step from its mother. */
  lemma StepOnGrid(c: Cell, rule: Descr, k: int)
    requires 0 <= rule.daughterLoc < 8 && OnGrid(c.coord, k)
    ensures OnGrid(Daughter(c, rule).coord, k + 1)
  {
    var p := Daughter(c, rule).coord;
    assert p == Add(c, rule).coord;
    IntShift(c.coord.x, p.x - c.coord.x);
    IntShift(c.coord.y, p.y - c.coord.y);
  }

  /** An integer moved by at most one stays an integer. */
  lemma IntShift(x: real, o: real)
    requires x == x.Floor as real && o in {-1.0, 0.0, 1.0}
    ensures x + o == (x + o).Floor as real
  {
    var j := if o == 1.0 then 1 else if o == 0.0 then 0 else -1;
    assert x + o == (x.Floor + j) as real;
  }

  /** The normalisation at the end of `rewrite`. */
  function Normalized(c: Cell, cycles: int): Cell {
    var m := (cycles * 2 + 1) as real;
    SetPos(c, c.coord.x / m + 0.5, c.coord.y / m + 0.5)
  }

  function NormalizedAll(cs: seq<Cell>, cycles: int): (rs: seq<Cell>)
    ensures |rs| == |cs|
  {
    seq(|cs|, i requires 0 <= i < |cs| => Normalized(cs[i], cycles))
  }

  lemma HalfBound(x: real, m: real)
    requires m > 0.0 && -0.5 * m < x < 0.5 * m
    ensures -0.5 < x / m < 0.5
  {
    assert (x / m) * m == x;
  }

  /** A grid point within `cycles` steps of the origin lands strictly
      inside the unit square. */
  lemma NormalizedInside(c: Cell, cycles: int, k: int)
    requires OnGrid(c.coord, k) && 0 <= k <= Max(cycles, 0)
    ensures var p := Normalized(c, cycles).coord; 0.0 < p.x < 1.0 && 0.0 < p.y < 1.0
  {
    var m := (cycles * 2 + 1) as real;
    if cycles < 0 {
      assert c.coord.x == 0.0 && c.coord.y == 0.0;
    } else {
      HalfBound(c.coord.x, m);
      HalfBound(c.coord.y, m);
    }
  }

  /** The cells the mother grows into in `cycles` cycles, in the unit
      square. */
  function Developed(rules: seq<Descr>, cycles: int, tipRadius: real): (cs: seq<Cell>)
    requires RulesFit(rules)
    ensures |cs| == Pow2(Max(cycles, 0))
  {
    assert Grown([Mother(tipRadius)], rules, cycles) == Grown([Mother(tipRadius)], rules, Max(cycles, 0));
    GrownCount([Mother(tipRadius)], rules, Max(cycles, 0));
    NormalizedAll(Grown([Mother(tipRadius)], rules, cycles), cycles)
  }

  /** The mother grows into 2^cycles cells, every one strictly inside
      the unit square, expressed, unindexed and of a type in 0..15; after
      one cycle or more, every cell passes `check`. */
  lemma DevelopedCells(rules: seq<Descr>, cycles: int, tipRadius: real)
    requires RulesFit(rules)
    ensures var cs := Developed(rules, cycles, tipRadius);
      && |cs| == Pow2(Max(cycles, 0))
      && Unindexed(cs)
      && (forall i :: 0 <= i < |cs| ==> 0.0 < cs[i].coord.x < 1.0 && 0.0 < cs[i].coord.y < 1.0)
      && (forall i :: 0 <= i < |cs| ==> 0 <= cs[i].typeId < 16)
      && (cycles > 0 ==> forall i :: 0 <= i < |cs| ==> Checked(cs[i]))
  {
    var n := Max(cycles, 0);
    var ms := [Mother(tipRadius)];
    assert Grown(ms, rules, cycles) == Grown(ms, rules, n);
    GrownCount(ms, rules, n);
    assert OnGrid(ms[0].coord, 0);
    GrownCells(ms, rules, n, 0);
    var gs := Grown(ms, rules, n);
    var cs := Developed(rules, cycles, tipRadius);
    forall i | 0 <= i < |cs|
      ensures 0.0 < cs[i].coord.x < 1.0 && 0.0 < cs[i].coord.y < 1.0
    {
      NormalizedInside(gs[i], cycles, n);
    }
  }

  /** One cycle of `rewrite`: the daughters of every cell, built into a
      fresh array of twice the size. */
  method RewriteOnce(cs: seq<Cell>, rules: seq<Descr>) returns (ds: seq<Cell>)
    requires RulesFit(rules) && Typed(cs)
    ensures ds == Divide(cs, rules)
  {
    var daughters := new Cell[2 * |cs|];
    ghost var next := Divide(cs, rules);
    for mother := 0 to |cs|
      invariant forall k :: 0 <= k < 2 * mother ==> daughters[k] == next[k]
    {
      var mom := cs[mother];
      for daughter := 0 to 2
        invariant forall k :: 0 <= k < 2 * mother + daughter ==> daughters[k] == next[k]
      {
        DivideIndex(cs, rules, mother, daughter);
        daughters[mother * 2 + daughter] := Daughter(mom, rules[mom.typeId * 2 + daughter]);
      }
    }
    ds := daughters[..];
  }

  // The cell space (`CangelosiNet`).

  class CangelosiNet {
    /** The Nolfi cell space the cells grow in. */
    const space: NolfiNet

    /** A cell space of the given sizes holding the mother cell. */
    constructor(inputs: int, maxHidden: int, outputs: int, xSize: real, ySize: real, tipRadius: real, axonScale: real)
      ensures fresh(space)
      ensures space.inputs == inputs && space.maxHidden == maxHidden && space.outputs == outputs
      ensures space.xSize == xSize && space.ySize == ySize && space.axonScale == axonScale
      ensures space.tipRadius == tipRadius && space.hiddens == 0
      ensures space.inputBorder == 0.3 && space.outputBorder == 0.7
      ensures space.cells == [Mother(tipRadius)]
    {
      space := new NolfiNet(inputs, maxHidden, outputs, xSize, ySize, tipRadius, axonScale);
      new;
      MakeMother();
    }

    /** `makeMother`: the cells are the mother cell alone. */
    method MakeMother()
      modifies space
      ensures space.cells == [Mother(space.tipRadius)]
      ensures space.hiddens == old(space.hiddens) && space.tipRadius == old(space.tipRadius)
    {
      var mother := MotherCell();
      mother := SetPos(mother, 0.0, 0.0);
      if space.tipRadius > 0.0 {
        mother := SetTipRadius(mother, space.tipRadius);
      }
      space.cells := [mother];
    }

    /** `rewrite`: `cycles` rewriting cycles, each building the daughters
        of every cell into a fresh array, then every position divided by
        2 cycles + 1 and shifted by one half. */
    method Rewrite(rules: seq<Descr>, cycles: int)
      modifies space
      requires RulesFit(rules) && Typed(space.cells)
      ensures space.cells == NormalizedAll(Grown(old(space.cells), rules, cycles), cycles)
      ensures space.hiddens == old(space.hiddens) && space.tipRadius == old(space.tipRadius)
    {
      var cs := space.cells;
      ghost var orig := cs;
      var cycle := 0;
      while cycle < cycles
        invariant 0 <= cycle && (cycles <= 0 ==> cycle == 0) && (cycles > 0 ==> cycle <= cycles)
        invariant Typed(cs) && cs == Grown(orig, rules, cycle)
        invariant unchanged(space)
      {
        cs := RewriteOnce(cs, rules);
        cycle := cycle + 1;
      }
      assert cs == Grown(orig, rules, cycles);
      ghost var grown := cs;
      var m := (cycles * 2 + 1) as real;
      for i := 0 to |cs|
        invariant |cs| == |grown|
        invariant forall k :: 0 <= k < i ==> cs[k] == Normalized(grown[k], cycles)
        invariant forall k :: i <= k < |cs| ==> cs[k] == grown[k]
      {
        var coord := cs[i].coord;
        cs := cs[i := SetPos(cs[i], coord.x / m + 0.5, coord.y / m + 0.5)];
      }
      space.cells := cs;
    }
  }

  // The encoding.

  /** The genome-global tip radius, if the genome has one. */
  function TiprOrC(g: Genome<CKey>, tipRadius: real): real
    requires CTipr in g ==> HasReal(g, CTipr)
  {
    if CTipr in g then RealOf(g, CTipr) else tipRadius
  }

  class CangelosiEncoding {
    /** The parameters, those of the Nolfi encoding. */
    const nolfi: NolfiEncoding

    constructor (params: StringMap)
      requires HasSizes(params) && TipRadiusValid(params)
      ensures fresh(nolfi)
      ensures nolfi.ann == Construct(params).(maxHidden := Atoi(GetOrDefault(params, "NolfiEncoding.neurons", "0.5")))
      ensures nolfi.xSize == Atoi(GetOrDefault(params, "NolfiEncoding.xSize", "9"))
      ensures nolfi.ySize == Atoi(GetOrDefault(params, "NolfiEncoding.ySize", "22"))
      ensures nolfi.axonScale == Atof(GetOrDefault(params, "NolfiEncoding.axonScale", "0.5"))
      ensures nolfi.tipRadius == TipRadiusParam(params)
    {
      nolfi := new NolfiEncoding(params);
    }

    /** The copy constructor. */
    constructor Clone(orig: CangelosiEncoding)
      ensures fresh(nolfi)
      ensures nolfi.ann == orig.nolfi.ann && nolfi.types == orig.nolfi.types
      ensures nolfi.xSize == orig.nolfi.xSize && nolfi.ySize == orig.nolfi.ySize
      ensures nolfi.axonScale == orig.nolfi.axonScale && nolfi.tipRadius == orig.nolfi.tipRadius
    {
      nolfi := new NolfiEncoding.Clone(orig.nolfi);
    }

    /** `copy`: the Nolfi encoding's copy. */
    method Copy(orig: CangelosiEncoding)
      modifies nolfi
      ensures nolfi.ann == old(orig.nolfi.ann) && nolfi.types == old(orig.nolfi.types)
      ensures nolfi.xSize == old(orig.nolfi.xSize) && nolfi.ySize == old(orig.nolfi.ySize)
      ensures nolfi.axonScale == old(orig.nolfi.axonScale) && nolfi.tipRadius == old(orig.nolfi.tipRadius)
    {
      nolfi.Copy(orig.nolfi);
    }

    /** `addPrivateGenes`: the description genes, then the global tip
        radius gene for "auto-network", exactly as in the Nolfi
        encoding. */
    method AddPrivateGenes(params: StringMap) returns (decls: seq<Decl<CKey>>)
      requires SegLenRangeValid(params)
      ensures var (sMin, sMax) := SegLenRange(params);
        decls == CangelosiGenes(sMin, sMax, FaceGene(params), AutoCell(params), AutoNetwork(params))
    {
      var sMin, sMax;
      decls, sMin, sMax := AddDescrGenes(params);
      if AutoNetwork(params) {
        decls := decls + [BitFloat(CTipr, 1.0, 10.0, 8)];
      }
    }

    /** `execute`: the descriptions from the genome, the mother with the
        configured or genome-global tip radius grown for `cycles` cycles,
        and the network the Nolfi cell space grows from the cells, which
        becomes the plan unless it has not a single axon connection or
        the run only takes pictures. The number of cycles is a logarithm
        of maxHidden in floating point and is given; so are the axon tips
        of the grown cells. */
    method Execute(g: Genome<CKey>, cycles: int, tips: seq<seq<Point>>, takePics: bool)
      returns (plan: Option<Network>, ghost indexed: seq<Cell>, ghost built: Network, ghost connections: int)
      requires nolfi.ann.inputs > 0 && nolfi.ann.outputs > 0
      requires RulesReady(g) && RulesFit(Rules(g)) && (CTipr in g ==> HasReal(g, CTipr))
      requires |tips| == Pow2(Max(cycles, 0))
      ensures takePics ==> plan.None?
      ensures var cs := Developed(Rules(g), cycles, TiprOrC(g, nolfi.tipRadius));
        && (!Accepts(cs, 0.3, 0.7, nolfi.ann.outputs) ==> plan.None?)
        && (Accepts(cs, 0.3, 0.7, nolfi.ann.outputs) ==>
              && IdsByX(ResolvedAll(cs, 0.3, 0.7), indexed, nolfi.ann.inputs)
              && Wired(ScaledAll(indexed, nolfi.ySize as real), tips, nolfi.ann.inputs, nolfi.ann.outputs,
                       built, connections, |cs|)
              && plan == (if takePics || connections == 0 then None else Some(built))
              && |built.enabled| == nolfi.ann.inputs + Pow2(Max(cycles, 0)) + nolfi.ann.outputs
              && InRange(built) && FeedForward(built) && NoDuplicateEdges(built)
              && Directed(ScaledAll(indexed, nolfi.ySize as real), tips, nolfi.ann.outputs, built))
    {
      var cnet := Develop(g, cycles);
      ghost var cs := cnet.space.cells;
      DevelopedCells(Rules(g), cycles, TiprOrC(g, nolfi.tipRadius));
      var grown;
      grown, indexed, built, connections := cnet.space.GrowNet(tips);
      if Accepts(cs, 0.3, 0.7, nolfi.ann.outputs) {
        GrownShape(cs, indexed, nolfi.ySize as real, tips, nolfi.ann.inputs, nolfi.ann.outputs, built, connections);
      }
      plan := if takePics then None else grown;
    }

    /** The part of `execute` before `growNet`: a cell space of the
        encoding's sizes, its mother cell grown with the genome's
        descriptions. */
    method Develop(g: Genome<CKey>, cycles: int) returns (cnet: CangelosiNet)
      requires RulesReady(g) && RulesFit(Rules(g)) && (CTipr in g ==> HasReal(g, CTipr))
      ensures fresh(cnet) && fresh(cnet.space)
      ensures cnet.space.cells == Developed(Rules(g), cycles, TiprOrC(g, nolfi.tipRadius))
      ensures cnet.space.inputs == nolfi.ann.inputs && cnet.space.outputs == nolfi.ann.outputs
      ensures cnet.space.ySize == nolfi.ySize as real
      ensures cnet.space.inputBorder == 0.3 && cnet.space.outputBorder == 0.7
    {
      var rules := ReadRules(g);
      var tipRadius := nolfi.tipRadius;
      if CTipr in g {
        tipRadius := RealOf(g, CTipr);
      }
      cnet := new CangelosiNet(nolfi.ann.inputs, nolfi.ann.maxHidden, nolfi.ann.outputs, nolfi.xSize as real,
                               nolfi.ySize as real, tipRadius, nolfi.axonScale);
      cnet.Rewrite(rules, cycles);
    }
  }
}
