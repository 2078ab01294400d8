/** The direct encoding (src/direct.cc): input and hidden existence
    bits, optional weight-existence and weight-value bits for every pair
    of a source unit (input or hidden) and a target unit (hidden or
    output), and the shared readout. */
module Direct {
  import opened Common
  import opened Params
  import opened Networks
  import opened Genes
  import opened AnnGenes
  import opened DirectKeys
  import opened DirectNet

  // ---------------------------------------------------------------------
  // Gene layout of `addPrivateGenes`

  /** The genes of the pair (i, j): "WX<i>-<j>" with weight pruning,
      "WV<i>-<j>" with weight encoding, both binary. */
  function PairGenes(i: int, j: int, pw: bool, ew: bool): seq<Decl<DKey>> {
    (if pw then [Binary(WX(i, j))] else []) + (if ew then [Binary(WV(i, j))] else [])
  }

  function PairRow(i: int, m: int, pw: bool, ew: bool): seq<Decl<DKey>>
    decreases m
  {
    if m <= 0 then [] else PairRow(i, m - 1, pw, ew) + PairGenes(i, m - 1, pw, ew)
  }

  /** The pair genes of sources 0..n-1 and targets 0..m-1, row by row. */
  function PairBlock(n: int, m: int, pw: bool, ew: bool): seq<Decl<DKey>>
    decreases n
  {
    if n <= 0 then [] else PairBlock(n - 1, m, pw, ew) + PairRow(n - 1, m, pw, ew)
  }

  /** R genes when inputs are pruned, the pair genes of the
      inputs+maxHidden sources and maxHidden+outputs targets, then the H
      genes. */
  function DirectGenes(a: AnnFields, pi: bool, pw: bool, ew: bool): seq<Decl<DKey>> {
    PrunableInputGenes(a.inputs, pi) + PairBlock(a.inputs + a.maxHidden, a.maxHidden + a.outputs, pw, ew) +
    HiddenGenes(a.maxHidden)
  }

  predicate PairKey(k: DKey, pw: bool, ew: bool) {
    (k.WX? && pw) || (k.WV? && ew)
  }

  lemma PairGenesKeys(i: int, j: int, pw: bool, ew: bool)
    ensures forall k: DKey :: k in Keys(PairGenes(i, j, pw, ew)) <==> PairKey(k, pw, ew) && k.i == i && k.j == j
    ensures Distinct(Keys(PairGenes(i, j, pw, ew)))
    ensures forall d :: d in PairGenes(i, j, pw, ew) ==> d.Binary?
  {
    var x: seq<Decl<DKey>> := if pw then [Binary(WX(i, j))] else [];
    var y: seq<Decl<DKey>> := if ew then [Binary(WV(i, j))] else [];
    KeysAppend(x, y);
    assert Keys(x) == if pw then [WX(i, j)] else [];
    assert Keys(y) == if ew then [WV(i, j)] else [];
  }

  lemma {:induction false} PairRowKeys(i: int, m: int, pw: bool, ew: bool)
    ensures forall k: DKey :: k in Keys(PairRow(i, m, pw, ew)) <==> PairKey(k, pw, ew) && k.i == i && 0 <= k.j < m
    ensures Distinct(Keys(PairRow(i, m, pw, ew)))
    ensures forall d :: d in PairRow(i, m, pw, ew) ==> d.Binary?
    decreases m
  {
    if m > 0 {
      PairRowKeys(i, m - 1, pw, ew);
      PairGenesKeys(i, m - 1, pw, ew);
      KeysAppend(PairRow(i, m - 1, pw, ew), PairGenes(i, m - 1, pw, ew));
      DistinctConcat(Keys(PairRow(i, m - 1, pw, ew)), Keys(PairGenes(i, m - 1, pw, ew)));
    }
  }

  lemma {:induction false} PairBlockKeys(n: int, m: int, pw: bool, ew: bool)
    ensures forall k: DKey :: k in Keys(PairBlock(n, m, pw, ew)) <==> PairKey(k, pw, ew) && 0 <= k.i < n && 0 <= k.j < m
    ensures Distinct(Keys(PairBlock(n, m, pw, ew)))
    ensures forall d :: d in PairBlock(n, m, pw, ew) ==> d.Binary?
    decreases n
  {
    if n > 0 {
      PairBlockKeys(n - 1, m, pw, ew);
      PairRowKeys(n - 1, m, pw, ew);
      KeysAppend(PairBlock(n - 1, m, pw, ew), PairRow(n - 1, m, pw, ew));
      DistinctConcat(Keys(PairBlock(n - 1, m, pw, ew)), Keys(PairRow(n - 1, m, pw, ew)));
    }
  }

  /** The genes the direct encoding declares. */
  predicate Declares(a: AnnFields, pi: bool, pw: bool, ew: bool, k: DKey) {
    match k
    case R(i) => pi && 0 <= i < a.inputs
    case H(h) => 0 <= h < a.maxHidden
    case WX(i, j) => pw && 0 <= i < a.inputs + a.maxHidden && 0 <= j < a.maxHidden + a.outputs
    case WV(i, j) => ew && 0 <= i < a.inputs + a.maxHidden && 0 <= j < a.maxHidden + a.outputs
    case _ => false
  }

  /** The layout: an R gene per input exactly when inputs are pruned, an
      H gene per hidden unit, a WX bit per source and target exactly with
      weight pruning and a WV bit exactly with weight encoding; no other
      name, each name once, every gene binary. */
  lemma DirectGenesKeys(a: AnnFields, pi: bool, pw: bool, ew: bool)
    ensures forall k :: k in Keys(DirectGenes(a, pi, pw, ew)) <==> Declares(a, pi, pw, ew, k)
    ensures Distinct(Keys(DirectGenes(a, pi, pw, ew)))
    ensures forall d :: d in DirectGenes(a, pi, pw, ew) ==> d.Binary?
  {
    DirectGenesNames(a, pi, pw, ew);
    DirectGenesDistinct(a, pi, pw, ew);
    DirectGenesBinary(a, pi, pw, ew);
  }

  lemma DirectGenesNames(a: AnnFields, pi: bool, pw: bool, ew: bool)
    ensures forall k :: k in Keys(DirectGenes(a, pi, pw, ew)) <==> Declares(a, pi, pw, ew, k)
  {
    var rs := PrunableInputGenes(a.inputs, pi);
    var ws := PairBlock(a.inputs + a.maxHidden, a.maxHidden + a.outputs, pw, ew);
    var hs := HiddenGenes(a.maxHidden);
    assert forall k: DKey :: k in Keys(rs) <==> k.R? && pi && 0 <= k.i < a.inputs by {
      PrunableInputGenesKeys(a.inputs, pi);
    }
    assert forall k: DKey :: k in Keys(ws) <==> PairKey(k, pw, ew) && 0 <= k.i < a.inputs + a.maxHidden && 0 <= k.j < a.maxHidden + a.outputs by {
      PairBlockKeys(a.inputs + a.maxHidden, a.maxHidden + a.outputs, pw, ew);
    }
    assert forall k: DKey :: k in Keys(hs) <==> k.H? && 0 <= k.i < a.maxHidden by {
      HiddenGenesKeys(a.maxHidden);
    }
    DirectGenesSplit(a, pi, pw, ew);
    DirectGenesMembers(a, pi, pw, ew, Keys(rs), Keys(ws), Keys(hs));
  }

  lemma DirectGenesDistinct(a: AnnFields, pi: bool, pw: bool, ew: bool)
    ensures Distinct(Keys(DirectGenes(a, pi, pw, ew)))
  {
    var rs := PrunableInputGenes(a.inputs, pi);
    var ws := PairBlock(a.inputs + a.maxHidden, a.maxHidden + a.outputs, pw, ew);
    var hs := HiddenGenes(a.maxHidden);
    PrunableInputGenesKeys(a.inputs, pi);
    PairBlockKeys(a.inputs + a.maxHidden, a.maxHidden + a.outputs, pw, ew);
    HiddenGenesKeys(a.maxHidden);
    DirectGenesSplit(a, pi, pw, ew);
    PartsDistinct(Keys(rs), Keys(ws), Keys(hs));
  }

  lemma DirectGenesBinary(a: AnnFields, pi: bool, pw: bool, ew: bool)
    ensures forall d :: d in DirectGenes(a, pi, pw, ew) ==> d.Binary?
  {
    var rs := PrunableInputGenes(a.inputs, pi);
    var ws := PairBlock(a.inputs + a.maxHidden, a.maxHidden + a.outputs, pw, ew);
    var hs := HiddenGenes(a.maxHidden);
    PrunableInputGenesKeys(a.inputs, pi);
    PairBlockKeys(a.inputs + a.maxHidden, a.maxHidden + a.outputs, pw, ew);
    HiddenGenesKeys(a.maxHidden);
    assert DirectGenes(a, pi, pw, ew) == rs + ws + hs;
  }

  /** The names of the three parts of the layout, in order. */
  lemma DirectGenesSplit(a: AnnFields, pi: bool, pw: bool, ew: bool)
    ensures Keys(DirectGenes(a, pi, pw, ew)) ==
      Keys(PrunableInputGenes(a.inputs, pi)) +
      Keys(PairBlock(a.inputs + a.maxHidden, a.maxHidden + a.outputs, pw, ew)) +
      Keys(HiddenGenes(a.maxHidden))
  {
    var rs := PrunableInputGenes(a.inputs, pi);
    var ws := PairBlock(a.inputs + a.maxHidden, a.maxHidden + a.outputs, pw, ew);
    var hs := HiddenGenes(a.maxHidden);
    KeysAppend(rs, ws);
    KeysAppend(rs + ws, hs);
  }

  /** Names of R genes, pair genes and H genes are declared exactly
      when they belong to the three parts. */
  lemma DirectGenesMembers(a: AnnFields, pi: bool, pw: bool, ew: bool, kr: seq<DKey>, kw: seq<DKey>, kh: seq<DKey>)
    requires forall k :: k in kr <==> k.R? && pi && 0 <= k.i < a.inputs
    requires forall k :: k in kw <==> PairKey(k, pw, ew) && 0 <= k.i < a.inputs + a.maxHidden && 0 <= k.j < a.maxHidden + a.outputs
    requires forall k :: k in kh <==> k.H? && 0 <= k.i < a.maxHidden
    ensures forall k :: k in kr + kw + kh <==> Declares(a, pi, pw, ew, k)
  {
  }

  /** Without weight pruning a genome holding the declared genes can be
      read. */
  lemma ConformingReadable(g: Genome<DKey>, a: AnnFields, pi: bool, ew: bool)
    requires Conforms(g, DirectGenes(a, pi, false, ew))
    ensures Readable(g, a, pi, false)
  {
    var ds := DirectGenes(a, pi, false, ew);
    DirectGenesKeys(a, pi, false, ew);
    forall h | 0 <= h < a.maxHidden ensures HasBit(g, H(h)) {
      assert Declares(a, pi, false, ew, H(h));
      BinaryHeld(g, ds, H(h));
    }
    forall i | pi && 0 <= i < a.inputs ensures HasBit(g, R(i)) {
      assert Declares(a, pi, false, ew, R(i));
      BinaryHeld(g, ds, R(i));
    }
  }

  /** With weight pruning `execute` reads "W<i>-<h>" while the encoding
      declares "WX<i>-<j>": a genome of the declared genes only cannot be
      read as soon as there is a hidden unit and an output. */
  lemma PrunedWeightsUndeclared(g: Genome<DKey>, a: AnnFields, pi: bool, ew: bool)
    requires forall k :: k in g ==> k in Keys(DirectGenes(a, pi, true, ew))
    requires a.maxHidden > 0 && a.outputs > 0
    ensures forall i, h :: W(i, h) !in Keys(DirectGenes(a, pi, true, ew))
    ensures !Readable(g, a, pi, true)
  {
    DirectGenesKeys(a, pi, true, ew);
    assert !Declares(a, pi, true, ew, W(0, 0));
  }

  // ---------------------------------------------------------------------
  // The encoding

  class DirectEncoding {
    var ann: AnnFields
    var pruneInputs: bool
    var pruneWeights: bool
    var encodeWeights: bool

    /** Input pruning is on, weight pruning and weight encoding off,
        unless the parameters say otherwise. */
    constructor (params: StringMap)
      requires HasSizes(params)
      ensures ann == Construct(params)
      ensures pruneInputs == Flag(params, "prune_inputs", true)
      ensures pruneWeights == Flag(params, "prune_weights", false)
      ensures encodeWeights == Flag(params, "encode_weights", false)
    {
      ann := Construct(params);
      pruneInputs := Flag(params, "prune_inputs", true);
      pruneWeights := Flag(params, "prune_weights", false);
      encodeWeights := Flag(params, "encode_weights", false);
    }

    /** The copy constructor. */
    constructor Clone(other: DirectEncoding)
      ensures ann == other.ann && pruneInputs == other.pruneInputs
      ensures pruneWeights == other.pruneWeights && encodeWeights == other.encodeWeights
    {
      ann := other.ann;
      pruneInputs, pruneWeights, encodeWeights := other.pruneInputs, other.pruneWeights, other.encodeWeights;
    }

    /** `copy`: every field of `other`. */
    method Copy(other: DirectEncoding)
      modifies this
      ensures ann == old(other.ann) && pruneInputs == old(other.pruneInputs)
      ensures pruneWeights == old(other.pruneWeights) && encodeWeights == old(other.encodeWeights)
    {
      ann := other.ann;
      pruneInputs, pruneWeights, encodeWeights := other.pruneInputs, other.pruneWeights, other.encodeWeights;
    }

    /** `addPrivateGenes`. */
    method AddPrivateGenes() returns (decls: seq<Decl<DKey>>)
      ensures decls == DirectGenes(ann, pruneInputs, pruneWeights, encodeWeights)
    {
      decls := [];
      if pruneInputs {
        decls := AddInputGenes(decls, ann.inputs);
      }
      var ws := AddPairGenes(ann.inputs + ann.maxHidden, ann.maxHidden + ann.outputs, pruneWeights, encodeWeights);
      decls := decls + ws;
      decls := AddHiddenGenes(decls, ann.maxHidden);
    }

    /** `execute`: the shared readout. */
    method Execute(g: Genome<DKey>) returns (net: Network)
      requires Sizes(ann) && Readable(g, ann, pruneInputs, pruneWeights)
      ensures net == Readout(g, ann, pruneInputs, pruneWeights)
    {
      net := Decode(g, ann, pruneInputs, pruneWeights);
    }
  }

  /** The nested loops adding the pair genes, source by source. */
  method AddPairGenes(n: int, m: int, pw: bool, ew: bool) returns (decls: seq<Decl<DKey>>)
    ensures decls == PairBlock(n, m, pw, ew)
  {
    decls := [];
    for i := 0 to if n < 0 then 0 else n
      invariant decls == PairBlock(i, m, pw, ew)
    {
      ghost var before := decls;
      for j := 0 to if m < 0 then 0 else m
        invariant decls == before + PairRow(i, j, pw, ew)
      {
        if pw {
          decls := decls + [Binary(WX(i, j))];
        }
        if ew {
          decls := decls + [Binary(WV(i, j))];
        }
      }
    }
  }
}
