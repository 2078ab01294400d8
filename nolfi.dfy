/** The Nolfi & Parisi encoding (`NolfiEncoding` in src/nolfi.cc): its
    parameters, the genes it declares for its cells, and `execute`, which
    reads the cells from a genome and grows them into a network in a
    `NolfiNet` cell space. */
module Nolfi {
  import opened Common
  import opened Params
  import opened Genes
  import opened AnnGenes
  import opened Networks
  import opened NolfiCells
  import opened NolfiNets

  // The type gene's width.

  /** The number of bits `addGenesTo` gives the type gene: the base-2
      logarithm of the number of types, rounded up. */
  function TypeBits(types: int): (b: nat)
    ensures Pow2(b) >= types
    ensures b > 0 ==> Pow2(b - 1) < types
    decreases types
  {
    if types <= 1 then 0 else 1 + TypeBits((types + 1) / 2)
  }

  /** For a power of two, as the number of types must be, the type gene
      has exactly that many values. */
  lemma {:induction false} TypeBitsPow2(n: nat)
    ensures TypeBits(Pow2(n)) == n
    ensures Pow2(TypeBits(Pow2(n))) == Pow2(n)
  {
    if n > 0 {
      assert (Pow2(n) + 1) / 2 == Pow2(n - 1);
      TypeBitsPow2(n - 1);
    }
  }

  // The parameters.

  predicate AutoNetwork(params: StringMap) {
    Get(params, "NolfiEncoding.tipRadius") == "auto-network"
  }

  /** The configured tip radius: "NolfiEncoding.tipRadius" read as a
      real number, 0.5 when absent. */
  function TipRadiusParam(params: StringMap): real {
    Atof(GetOrDefault(params, "NolfiEncoding.tipRadius", "0.5"))
  }

  /** What the constructor asserts: a radius of at least 0.5, or one of
      the two values that put the radius into the genome. */
  predicate TipRadiusValid(params: StringMap) {
    TipRadiusParam(params) >= 0.5 || AutoNetwork(params) || AutoCell(params)
  }

  /** The default radius and both genome-encoded radii are accepted. */
  lemma AcceptedRadii()
    ensures TipRadiusValid(map[])
    ensures TipRadiusValid(map["NolfiEncoding.tipRadius" := "auto-cell"])
    ensures TipRadiusValid(map["NolfiEncoding.tipRadius" := "auto-network"])
  {
    AtofExamples();
  }

  /** A radius below 0.5 is refused. */
  lemma RefusedSmallRadius()
    ensures !TipRadiusValid(map["NolfiEncoding.tipRadius" := "0.4"])
  {
    assert Atof("0.4") == 0.4 by {
      assert DigitRun("0.4") == 1 by {
        assert DigitRun(".4") == 0;
      }
      assert "0.4"[..1] == "0";
      assert NatOf("0") == 0 by { assert "0"[..0] == ""; }
      assert "0.4"[2..] == "4";
      assert DigitRun("4") == 1 by { assert DigitRun("") == 0; }
      assert "4"[..1] == "4";
      assert NatOf("4") == 4 by { assert "4"[..0] == ""; }
    }
  }

  /** "auto-genome", which the constructor's error message names, is
      refused as well: its test does not accept it. */
  lemma RefusedAutoGenome()
    ensures !TipRadiusValid(map["NolfiEncoding.tipRadius" := "auto-genome"])
  {
    assert Atof("auto-genome") == 0.0 by {
      assert DigitRun("auto-genome") == 0;
      assert "auto-genome"[..0] == "";
    }
  }

  // The declared genes.

  /** The genes of cells 0 .. n-1, cell by cell. */
  function CellsGenes(n: int, typeBits: nat, existence: bool, autoCell: bool): seq<Decl<NKey>>
    decreases n
  {
    if n <= 0 then [] else CellsGenes(n - 1, typeBits, existence, autoCell) + CellGenes(n - 1, typeBits, existence, autoCell)
  }

  /** `addPrivateGenes`: the cell genes and, for "auto-network", one
      genome-global tip radius gene in [1, 10]. */
  function EncodingGenes(n: int, typeBits: nat, existence: bool, autoCell: bool, autoNetwork: bool): seq<Decl<NKey>> {
    CellsGenes(n, typeBits, existence, autoCell) + (if autoNetwork then [BitFloat(Tipr, 1.0, 10.0, 8)] else [])
  }

  /** The cell genes are the genes of the cell letters of cells
      0 .. n-1, and no others. */
  lemma {:induction false} CellsGenesKeys(n: int, typeBits: nat, existence: bool, autoCell: bool, k: NKey)
    ensures k in Keys(CellsGenes(n, typeBits, existence, autoCell)) <==>
      k.Gene? && 0 <= k.index < n && CellLetter(k.letter, existence, autoCell)
    decreases n
  {
    if n > 0 {
      CellsGenesKeys(n - 1, typeBits, existence, autoCell, k);
      CellGenesKeys(n - 1, typeBits, existence, autoCell);
      CellsGenesLast(n, typeBits, existence, autoCell, k);
    }
  }

  /** The names of cells 0 .. n-1 are those of cells 0 .. n-2 and those
      of cell n-1. */
  lemma CellsGenesLast(n: int, typeBits: nat, existence: bool, autoCell: bool, k: NKey)
    requires n > 0
    ensures k in Keys(CellsGenes(n, typeBits, existence, autoCell)) <==>
      k in Keys(CellsGenes(n - 1, typeBits, existence, autoCell)) || k in Keys(CellGenes(n - 1, typeBits, existence, autoCell))
  {
    KeysAppend(CellsGenes(n - 1, typeBits, existence, autoCell), CellGenes(n - 1, typeBits, existence, autoCell));
  }

  /** Every cell i < n has its genes among the cell genes. */
  lemma {:induction false} CellsGenesHold(n: int, typeBits: nat, existence: bool, autoCell: bool, i: int)
    requires 0 <= i < n
    ensures forall d :: d in CellGenes(i, typeBits, existence, autoCell) ==> d in CellsGenes(n, typeBits, existence, autoCell)
    decreases n
  {
    if i < n - 1 {
      CellsGenesHold(n - 1, typeBits, existence, autoCell, i);
    }
  }

  // What decoding needs of a genome.

  /** A cell `growNet` can work with: it passes `check`, lies in the unit
      square, and has a type that is not negative. */
  predicate Sound(c: Cell) {
    Checked(c) && 0.0 <= c.coord.x <= 1.0 && 0.0 <= c.coord.y <= 1.0 && c.typeId >= 0
  }

  /** A genome `decodeFrom` can read n sound cells from, with the given
      configured tip radius. */
  predicate Decodable(g: Genome<NKey>, n: int, tipRadius: real) {
    && (Tipr in g ==> HasReal(g, Tipr))
    && forall i :: 0 <= i < n ==> DecodeReady(g, i) && Sound(DecodedCell(g, i, TiprOr(g, tipRadius)))
  }

  /** The cells `decodeFrom` reads. */
  function DecodedCells(g: Genome<NKey>, n: int, tipRadius: real): (cs: seq<Cell>)
    requires n >= 0 && Decodable(g, n, tipRadius)
    ensures |cs| == n
  {
    seq(n, i requires 0 <= i < n => DecodedCell(g, i, TiprOr(g, tipRadius)))
  }

  /** A genome that holds the declared genes with values in their
      ranges, and no existence, cell radius or global radius gene that
      was not declared, is decodable whenever the configured radius is
      valid: each cell's radius is the configured one, its own gene or the
      global gene, and the genes put it at 1 or more. */
  lemma ConformingDecodable(g: Genome<NKey>, n: int, typeBits: nat, existence: bool, autoCell: bool,
                            autoNetwork: bool, tipRadius: real)
    requires Conforms(g, EncodingGenes(n, typeBits, existence, autoCell, autoNetwork))
    requires forall i :: Gene('e', i) in g ==> existence
    requires forall i :: Gene('r', i) in g ==> autoCell
    requires Tipr in g ==> autoNetwork
    requires tipRadius >= 0.5 || autoCell || autoNetwork
    ensures Decodable(g, n, tipRadius)
  {
    var all := EncodingGenes(n, typeBits, existence, autoCell, autoNetwork);
    if autoNetwork {
      Held(g, all, BitFloat(Tipr, 1.0, 10.0, 8));
    }
    var tr := TiprOr(g, tipRadius);
    assert tr >= 0.5 || autoCell;
    forall i | 0 <= i < n
      ensures DecodeReady(g, i) && Sound(DecodedCell(g, i, tr))
    {
      CellsGenesHold(n, typeBits, existence, autoCell, i);
      ConformsPart(g, all, CellGenes(i, typeBits, existence, autoCell));
      DecodeDeclared(g, i, typeBits, existence, autoCell, SetTipRadius(Make(), tr));
    }
  }

  // The encoding.

  class NolfiEncoding {
    var ann: AnnFields
    var types: int
    var xSize: int
    var ySize: int
    var axonScale: real
    var tipRadius: real

    /** The parameters: the number of types, the cell space of 9 x 22,
        axon scale 0.5 and tip radius 0.5 by default, and the number of
        cells from "NolfiEncoding.neurons", whose default "0.5" reads as
        0. The tip radius must be valid. */
    constructor (params: StringMap)
      requires HasSizes(params) && TipRadiusValid(params)
      ensures ann == Construct(params).(maxHidden := Atoi(GetOrDefault(params, "NolfiEncoding.neurons", "0.5")))
      ensures types == Atoi(Get(params, "NolfiEncoding.types"))
      ensures xSize == Atoi(GetOrDefault(params, "NolfiEncoding.xSize", "9"))
      ensures ySize == Atoi(GetOrDefault(params, "NolfiEncoding.ySize", "22"))
      ensures axonScale == Atof(GetOrDefault(params, "NolfiEncoding.axonScale", "0.5"))
      ensures tipRadius == TipRadiusParam(params)
    {
      ann := Construct(params).(maxHidden := Atoi(GetOrDefault(params, "NolfiEncoding.neurons", "0.5")));
      types := Atoi(Get(params, "NolfiEncoding.types"));
      xSize := Atoi(GetOrDefault(params, "NolfiEncoding.xSize", "9"));
      ySize := Atoi(GetOrDefault(params, "NolfiEncoding.ySize", "22"));
      axonScale := Atof(GetOrDefault(params, "NolfiEncoding.axonScale", "0.5"));
      tipRadius := TipRadiusParam(params);
    }

    /** The copy constructor. */
    constructor Clone(orig: NolfiEncoding)
      ensures ann == orig.ann && types == orig.types && xSize == orig.xSize && ySize == orig.ySize
      ensures axonScale == orig.axonScale && tipRadius == orig.tipRadius
    {
      ann := orig.ann;
      types := orig.types;
      xSize := orig.xSize;
      ySize := orig.ySize;
      axonScale := orig.axonScale;
      tipRadius := orig.tipRadius;
    }

    /** `copy`: every field of `orig`. */
    method Copy(orig: NolfiEncoding)
      modifies this
      ensures ann == old(orig.ann) && types == old(orig.types) && xSize == old(orig.xSize)
      ensures ySize == old(orig.ySize) && axonScale == old(orig.axonScale) && tipRadius == old(orig.tipRadius)
    {
      ann, types, xSize, ySize := orig.ann, orig.types, orig.xSize, orig.ySize;
      axonScale, tipRadius := orig.axonScale, orig.tipRadius;
    }

    /** `addPrivateGenes`: the genes of each of the maxHidden cells in
        turn, then the global tip radius gene for "auto-network". The
        logarithm of the number of types needs at least one type. */
    method AddPrivateGenes(params: StringMap) returns (decls: seq<Decl<NKey>>)
      requires types >= 1
      ensures decls == EncodingGenes(ann.maxHidden, TypeBits(types), ExistenceGene(params), AutoCell(params),
                                     AutoNetwork(params))
    {
      var n := ann.maxHidden;
      var typeBits := TypeBits(types);
      var existence, autoCell := ExistenceGene(params), AutoCell(params);
      decls := [];
      var i := 0;
      while i < n
        invariant 0 <= i && (n <= 0 ==> i == 0) && (n > 0 ==> i <= n)
        invariant decls == CellsGenes(i, typeBits, existence, autoCell)
      {
        decls := decls + CellGenes(i, typeBits, existence, autoCell);
        i := i + 1;
      }
      if AutoNetwork(params) {
        decls := decls + [BitFloat(Tipr, 1.0, 10.0, 8)];
      }
    }

    /** `execute`: a cell space of the encoding's sizes reads the cells
        from the genome and grows the network; the result is the network
        placed into the host as its brain plan, or none. The axon tips of
        the grown cells are given. Without every kind of unit among the
        decoded cells there is no network; otherwise the network grown is
        the wiring of the indexed and scaled cells, feed-forward over
        inputs + cells + outputs units with no connection made twice, and
        it becomes the plan unless it has not a single axon connection or
        the run only takes pictures. */
    method Execute(g: Genome<NKey>, tips: seq<seq<Point>>, takePics: bool)
      returns (plan: Option<Network>, ghost indexed: seq<Cell>, ghost built: Network, ghost connections: int)
      requires ann.inputs > 0 && ann.outputs > 0 && ann.maxHidden >= 0
      requires Decodable(g, ann.maxHidden, tipRadius) && |tips| == ann.maxHidden
      ensures takePics ==> plan.None?
      ensures var cs := DecodedCells(g, ann.maxHidden, tipRadius);
        !Accepts(cs, 0.3, 0.7, ann.outputs) ==> plan.None?
      ensures var cs := DecodedCells(g, ann.maxHidden, tipRadius);
        Accepts(cs, 0.3, 0.7, ann.outputs) ==>
          && IdsByX(ResolvedAll(cs, 0.3, 0.7), indexed, ann.inputs)
          && Wired(ScaledAll(indexed, ySize as real), tips, ann.inputs, ann.outputs, built, connections, ann.maxHidden)
          && plan == (if takePics || connections == 0 then None else Some(built))
          && |built.enabled| == ann.inputs + ann.maxHidden + ann.outputs
          && InRange(built) && FeedForward(built) && NoDuplicateEdges(built)
          && Directed(ScaledAll(indexed, ySize as real), tips, ann.outputs, built)
    {
      var nnet := new NolfiNet(ann.inputs, ann.maxHidden, ann.outputs, xSize as real, ySize as real, tipRadius, axonScale);
      nnet.DecodeFrom(g);
      ghost var cs := DecodedCells(g, ann.maxHidden, tipRadius);
      assert nnet.cells == cs;
      forall k | 0 <= k < |cs|
        ensures Resolvable(cs[k], 0.3, 0.7) && cs[k].finalId == EMPTYID && cs[k].coord.x <= 666.0
      {
        assert Sound(cs[k]);
      }
      var grown;
      grown, indexed, built, connections := nnet.GrowNet(tips);
      if Accepts(cs, 0.3, 0.7, ann.outputs) {
        GrownShape(cs, indexed, ySize as real, tips, ann.inputs, ann.outputs, built, connections);
      }
      plan := if takePics then None else grown;
    }
  }
}
