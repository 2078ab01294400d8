/** The layered encoding (src/layered.cc): input and hidden existence
    bits, optional per-layer weight genes, and the shared readout. The
    layering parameter is parsed into one number per '-'-separated
    piece. */
module Layered {
  import opened Common
  import opened Params
  import opened Networks
  import opened Genes
  import opened AnnGenes
  import opened DirectKeys
  import opened DirectNet

  // ---------------------------------------------------------------------
  // Parameters

  /** The numbers of the layering description, one per piece. */
  function Layering(s: string): (ls: seq<int>)
    ensures |ls| == |Split(s, '-')| == Occurrences(s, '-') + 1
    ensures forall k :: 0 <= k < |ls| ==> ls[k] == Atoi(Split(s, '-')[k])
  {
    SplitCount(s, '-');
    var parts := Split(s, '-');
    seq(|parts|, k requires 0 <= k < |parts| => Atoi(parts[k]))
  }

  /** The loop converting the pieces into the layering array. */
  method ParseLayering(s: string) returns (ls: seq<int>)
    ensures ls == Layering(s)
  {
    var layers := Split(s, '-');
    var arr := new int[|layers|];
    for i := 0 to |layers|
      invariant forall k :: 0 <= k < i ==> arr[k] == Atoi(layers[k])
    {
      arr[i] := Atoi(layers[i]);
    }
    ls := arr[..];
  }

  // ---------------------------------------------------------------------
  // Gene layout of `addPrivateGenes`

  /** The weight genes of input i and hidden unit j in layer l: the
      existence bit "WX<l>:<i>-<j>" with weight pruning, the weight
      "W<l>:<i>-<j>" in [0, 1] with weight encoding. */
  function WeightCell(l: int, i: int, j: int, pw: bool, ew: bool): seq<Decl<DKey>> {
    (if pw then [Binary(LayerWX(l, i, j))] else []) + (if ew then [Float(LayerW(l, i, j), 0.0, 1.0)] else [])
  }

  function WeightRow(l: int, i: int, m: int, pw: bool, ew: bool): seq<Decl<DKey>>
    decreases m
  {
    if m <= 0 then [] else WeightRow(l, i, m - 1, pw, ew) + WeightCell(l, i, m - 1, pw, ew)
  }

  function WeightBlock(l: int, n: int, m: int, pw: bool, ew: bool): seq<Decl<DKey>>
    decreases n
  {
    if n <= 0 then [] else WeightBlock(l, n - 1, m, pw, ew) + WeightRow(l, n - 1, m, pw, ew)
  }

  /** The weight genes of layers 0..layers-1, inputs 0..n-1 and hidden
      units 0..m-1. */
  function WeightGenes(layers: int, n: int, m: int, pw: bool, ew: bool): seq<Decl<DKey>>
    decreases layers
  {
    if layers <= 0 then [] else WeightGenes(layers - 1, n, m, pw, ew) + WeightBlock(layers - 1, n, m, pw, ew)
  }

  /** R genes when inputs are pruned, the weight genes of every layer,
      then the H genes. */
  function LayeredGenes(a: AnnFields, layers: int, pi: bool, pw: bool, ew: bool): seq<Decl<DKey>> {
    PrunableInputGenes(a.inputs, pi) + WeightGenes(layers, a.inputs, a.maxHidden, pw, ew) + HiddenGenes(a.maxHidden)
  }

  /** A weight gene of the given kinds. */
  predicate WeightKey(k: DKey, pw: bool, ew: bool) {
    (k.LayerWX? && pw) || (k.LayerW? && ew)
  }

  lemma WeightCellKeys(l: int, i: int, j: int, pw: bool, ew: bool)
    ensures forall k: DKey :: k in Keys(WeightCell(l, i, j, pw, ew)) <==> WeightKey(k, pw, ew) && k.layer == l && k.i == i && k.j == j
    ensures Distinct(Keys(WeightCell(l, i, j, pw, ew)))
    ensures forall d :: d in WeightCell(l, i, j, pw, ew) && d.key.LayerWX? ==> d.Binary?
  {
    var x: seq<Decl<DKey>> := if pw then [Binary(LayerWX(l, i, j))] else [];
    var y: seq<Decl<DKey>> := if ew then [Float(LayerW(l, i, j), 0.0, 1.0)] else [];
    KeysAppend(x, y);
    assert Keys(x) == if pw then [LayerWX(l, i, j)] else [];
    assert Keys(y) == if ew then [LayerW(l, i, j)] else [];
  }

  lemma {:induction false} WeightRowKeys(l: int, i: int, m: int, pw: bool, ew: bool)
    ensures forall k: DKey :: k in Keys(WeightRow(l, i, m, pw, ew)) <==> WeightKey(k, pw, ew) && k.layer == l && k.i == i && 0 <= k.j < m
    ensures Distinct(Keys(WeightRow(l, i, m, pw, ew)))
    ensures forall d :: d in WeightRow(l, i, m, pw, ew) && d.key.LayerWX? ==> d.Binary?
    decreases m
  {
    if m > 0 {
      WeightRowKeys(l, i, m - 1, pw, ew);
      WeightCellKeys(l, i, m - 1, pw, ew);
      KeysAppend(WeightRow(l, i, m - 1, pw, ew), WeightCell(l, i, m - 1, pw, ew));
      DistinctConcat(Keys(WeightRow(l, i, m - 1, pw, ew)), Keys(WeightCell(l, i, m - 1, pw, ew)));
    }
  }

  lemma {:induction false} WeightBlockKeys(l: int, n: int, m: int, pw: bool, ew: bool)
    ensures forall k: DKey :: k in Keys(WeightBlock(l, n, m, pw, ew)) <==>
      WeightKey(k, pw, ew) && k.layer == l && 0 <= k.i < n && 0 <= k.j < m
    ensures Distinct(Keys(WeightBlock(l, n, m, pw, ew)))
    ensures forall d :: d in WeightBlock(l, n, m, pw, ew) && d.key.LayerWX? ==> d.Binary?
    decreases n
  {
    if n > 0 {
      WeightBlockKeys(l, n - 1, m, pw, ew);
      WeightRowKeys(l, n - 1, m, pw, ew);
      KeysAppend(WeightBlock(l, n - 1, m, pw, ew), WeightRow(l, n - 1, m, pw, ew));
      DistinctConcat(Keys(WeightBlock(l, n - 1, m, pw, ew)), Keys(WeightRow(l, n - 1, m, pw, ew)));
    }
  }

  lemma {:induction false} WeightGenesKeys(layers: int, n: int, m: int, pw: bool, ew: bool)
    ensures forall k: DKey :: k in Keys(WeightGenes(layers, n, m, pw, ew)) <==>
      WeightKey(k, pw, ew) && 0 <= k.layer < layers && 0 <= k.i < n && 0 <= k.j < m
    ensures Distinct(Keys(WeightGenes(layers, n, m, pw, ew)))
    ensures forall d :: d in WeightGenes(layers, n, m, pw, ew) && d.key.LayerWX? ==> d.Binary?
    decreases layers
  {
    if layers > 0 {
      WeightGenesKeys(layers - 1, n, m, pw, ew);
      WeightBlockKeys(layers - 1, n, m, pw, ew);
      KeysAppend(WeightGenes(layers - 1, n, m, pw, ew), WeightBlock(layers - 1, n, m, pw, ew));
      DistinctConcat(Keys(WeightGenes(layers - 1, n, m, pw, ew)), Keys(WeightBlock(layers - 1, n, m, pw, ew)));
    }
  }

  /** The genes the layered encoding declares. */
  predicate Declares(a: AnnFields, layers: int, pi: bool, pw: bool, ew: bool, k: DKey) {
    match k
    case R(i) => pi && 0 <= i < a.inputs
    case H(h) => 0 <= h < a.maxHidden
    case LayerWX(l, i, j) => pw && 0 <= l < layers && 0 <= i < a.inputs && 0 <= j < a.maxHidden
    case LayerW(l, i, j) => ew && 0 <= l < layers && 0 <= i < a.inputs && 0 <= j < a.maxHidden
    case _ => false
  }

  /** The layout: an R gene per input exactly when inputs are pruned, an
      H gene per hidden unit, per layer a WX bit per input and hidden unit
      exactly with weight pruning and a W weight exactly with weight
      encoding; no other name, each name once, all but the weights
      binary. */
  lemma LayeredGenesKeys(a: AnnFields, layers: int, pi: bool, pw: bool, ew: bool)
    ensures forall k :: k in Keys(LayeredGenes(a, layers, pi, pw, ew)) <==> Declares(a, layers, pi, pw, ew, k)
    ensures Distinct(Keys(LayeredGenes(a, layers, pi, pw, ew)))
    ensures forall d :: d in LayeredGenes(a, layers, pi, pw, ew) && !d.key.LayerW? ==> d.Binary?
  {
    LayeredGenesNames(a, layers, pi, pw, ew);
    LayeredGenesDistinct(a, layers, pi, pw, ew);
    LayeredGenesBinary(a, layers, pi, pw, ew);
  }

  lemma LayeredGenesNames(a: AnnFields, layers: int, pi: bool, pw: bool, ew: bool)
    ensures forall k :: k in Keys(LayeredGenes(a, layers, pi, pw, ew)) <==> Declares(a, layers, pi, pw, ew, k)
  {
    var rs := PrunableInputGenes(a.inputs, pi);
    var ws := WeightGenes(layers, a.inputs, a.maxHidden, pw, ew);
    var hs := HiddenGenes(a.maxHidden);
    PrunableInputGenesKeys(a.inputs, pi);
    WeightGenesKeys(layers, a.inputs, a.maxHidden, pw, ew);
    HiddenGenesKeys(a.maxHidden);
    LayeredGenesSplit(a, layers, pi, pw, ew);
    LayeredGenesMembers(a, layers, pi, pw, ew, Keys(rs), Keys(ws), Keys(hs));
  }

  lemma LayeredGenesDistinct(a: AnnFields, layers: int, pi: bool, pw: bool, ew: bool)
    ensures Distinct(Keys(LayeredGenes(a, layers, pi, pw, ew)))
  {
    var rs := PrunableInputGenes(a.inputs, pi);
    var ws := WeightGenes(layers, a.inputs, a.maxHidden, pw, ew);
    var hs := HiddenGenes(a.maxHidden);
    PrunableInputGenesKeys(a.inputs, pi);
    WeightGenesKeys(layers, a.inputs, a.maxHidden, pw, ew);
    HiddenGenesKeys(a.maxHidden);
    LayeredGenesSplit(a, layers, pi, pw, ew);
    PartsDistinct(Keys(rs), Keys(ws), Keys(hs));
  }

  lemma LayeredGenesBinary(a: AnnFields, layers: int, pi: bool, pw: bool, ew: bool)
    ensures forall d :: d in LayeredGenes(a, layers, pi, pw, ew) && !d.key.LayerW? ==> d.Binary?
  {
    var rs := PrunableInputGenes(a.inputs, pi);
    var ws := WeightGenes(layers, a.inputs, a.maxHidden, pw, ew);
    var hs := HiddenGenes(a.maxHidden);
    PrunableInputGenesKeys(a.inputs, pi);
    WeightGenesKeys(layers, a.inputs, a.maxHidden, pw, ew);
    HiddenGenesKeys(a.maxHidden);
    assert LayeredGenes(a, layers, pi, pw, ew) == rs + ws + hs;
  }

  /** The names of the three parts of the layout, in order. */
  lemma LayeredGenesSplit(a: AnnFields, layers: int, pi: bool, pw: bool, ew: bool)
    ensures Keys(LayeredGenes(a, layers, pi, pw, ew)) ==
      Keys(PrunableInputGenes(a.inputs, pi)) +
      Keys(WeightGenes(layers, a.inputs, a.maxHidden, pw, ew)) +
      Keys(HiddenGenes(a.maxHidden))
  {
    var rs := PrunableInputGenes(a.inputs, pi);
    var ws := WeightGenes(layers, a.inputs, a.maxHidden, pw, ew);
    var hs := HiddenGenes(a.maxHidden);
    KeysAppend(rs, ws);
    KeysAppend(rs + ws, hs);
  }

  /** Names of R genes, weight genes and H genes are declared exactly
      when they belong to the three parts. */
  lemma LayeredGenesMembers(a: AnnFields, layers: int, pi: bool, pw: bool, ew: bool, kr: seq<DKey>, kw: seq<DKey>, kh: seq<DKey>)
    requires forall k :: k in kr <==> k.R? && pi && 0 <= k.i < a.inputs
    requires forall k :: k in kw <==> WeightKey(k, pw, ew) && 0 <= k.layer < layers && 0 <= k.i < a.inputs && 0 <= k.j < a.maxHidden
    requires forall k :: k in kh <==> k.H? && 0 <= k.i < a.maxHidden
    ensures forall k :: k in kr + kw + kh <==> Declares(a, layers, pi, pw, ew, k)
  {
  }

  /** Without weight pruning a genome holding the declared genes can be
      read. */
  lemma ConformingReadable(g: Genome<DKey>, a: AnnFields, layers: int, pi: bool, ew: bool)
    requires Conforms(g, LayeredGenes(a, layers, pi, false, ew))
    ensures Readable(g, a, pi, false)
  {
    var ds := LayeredGenes(a, layers, pi, false, ew);
    LayeredGenesKeys(a, layers, pi, false, ew);
    forall h | 0 <= h < a.maxHidden ensures HasBit(g, H(h)) {
      assert Declares(a, layers, pi, false, ew, H(h));
      BinaryHeld(g, ds, H(h));
    }
    forall i | pi && 0 <= i < a.inputs ensures HasBit(g, R(i)) {
      assert Declares(a, layers, pi, false, ew, R(i));
      BinaryHeld(g, ds, R(i));
    }
  }

  /** With weight pruning `execute` reads "W<i>-<h>", a name the encoding
      never declares: a genome of the declared genes only cannot be read
      as soon as there is a hidden unit and an output. */
  lemma PrunedWeightsUndeclared(g: Genome<DKey>, a: AnnFields, layers: int, pi: bool, ew: bool)
    requires forall k :: k in g ==> k in Keys(LayeredGenes(a, layers, pi, true, ew))
    requires a.maxHidden > 0 && a.outputs > 0
    ensures forall i, h :: W(i, h) !in Keys(LayeredGenes(a, layers, pi, true, ew))
    ensures !Readable(g, a, pi, true)
  {
    LayeredGenesKeys(a, layers, pi, true, ew);
    assert !Declares(a, layers, pi, true, ew, W(0, 0));
  }

  // ---------------------------------------------------------------------
  // The encoding

  class LayeredEncoding {
    var ann: AnnFields
    var pruneInputs: bool
    var pruneWeights: bool
    var encodeWeights: bool
    var layering: seq<int>

    /** Input pruning is on, weight pruning and weight encoding off,
        unless the parameters say otherwise. */
    constructor (params: StringMap)
      requires HasSizes(params)
      ensures ann == Construct(params)
      ensures pruneInputs == Flag(params, "prune_inputs", true)
      ensures pruneWeights == Flag(params, "prune_weights", false)
      ensures encodeWeights == Flag(params, "encode_weights", false)
      ensures layering == Layering(Get(params, "layering"))
    {
      var ls := ParseLayering(Get(params, "layering"));
      ann := Construct(params);
      pruneInputs := Flag(params, "prune_inputs", true);
      pruneWeights := Flag(params, "prune_weights", false);
      encodeWeights := Flag(params, "encode_weights", false);
      layering := ls;
    }

    /** The copy constructor copies every field but `encodeWeights`,
        which it leaves unset. */
    constructor Clone(other: LayeredEncoding)
      ensures ann == other.ann && pruneInputs == other.pruneInputs
      ensures pruneWeights == other.pruneWeights && layering == other.layering
    {
      ann := other.ann;
      pruneInputs, pruneWeights := other.pruneInputs, other.pruneWeights;
      layering := other.layering;
    }

    /** `copy`: likewise, keeping this encoding's own `encodeWeights`. */
    method Copy(other: LayeredEncoding)
      modifies this
      ensures ann == old(other.ann) && pruneInputs == old(other.pruneInputs)
      ensures pruneWeights == old(other.pruneWeights) && layering == old(other.layering)
      ensures encodeWeights == old(encodeWeights)
    {
      ann := other.ann;
      pruneInputs, pruneWeights := other.pruneInputs, other.pruneWeights;
      layering := other.layering;
    }

    /** `addPrivateGenes`. */
    method AddPrivateGenes() returns (decls: seq<Decl<DKey>>)
      ensures decls == LayeredGenes(ann, |layering|, pruneInputs, pruneWeights, encodeWeights)
    {
      var ins := [];
      if pruneInputs {
        ins := AddInputGenes([], ann.inputs);
        assert ins == InputGenes(ann.inputs);
      }
      var ws := AddWeightGenes(|layering|, ann.inputs, ann.maxHidden, pruneWeights, encodeWeights);
      decls := AddHiddenGenes(ins + ws, ann.maxHidden);
    }

    /** `execute`: the shared readout. */
    method Execute(g: Genome<DKey>) returns (net: Network)
      requires Sizes(ann) && Readable(g, ann, pruneInputs, pruneWeights)
      ensures net == Readout(g, ann, pruneInputs, pruneWeights)
    {
      net := Decode(g, ann, pruneInputs, pruneWeights);
    }
  }

  /** The three nested loops adding the weight genes: layer by layer. */
  method AddWeightGenes(layers: int, n: int, m: int, pw: bool, ew: bool) returns (decls: seq<Decl<DKey>>)
    ensures decls == WeightGenes(layers, n, m, pw, ew)
  {
    decls := [];
    for l := 0 to if layers < 0 then 0 else layers
      invariant decls == WeightGenes(l, n, m, pw, ew)
    {
      var block := AddWeightBlock(l, n, m, pw, ew);
      decls := decls + block;
    }
  }

  /** Layer l, input by input. */
  method AddWeightBlock(l: int, n: int, m: int, pw: bool, ew: bool) returns (decls: seq<Decl<DKey>>)
    ensures decls == WeightBlock(l, n, m, pw, ew)
  {
    decls := [];
    for i := 0 to if n < 0 then 0 else n
      invariant decls == WeightBlock(l, i, m, pw, ew)
    {
      var row := AddWeightRow(l, i, m, pw, ew);
      decls := decls + row;
    }
  }

  /** Input i of layer l, hidden unit by hidden unit. */
  method AddWeightRow(l: int, i: int, m: int, pw: bool, ew: bool) returns (decls: seq<Decl<DKey>>)
    ensures decls == WeightRow(l, i, m, pw, ew)
  {
    decls := [];
    for j := 0 to if m < 0 then 0 else m
      invariant decls == WeightRow(l, i, j, pw, ew)
    {
      if pw {
        decls := decls + [Binary(LayerWX(l, i, j))];
      }
      if ew {
        decls := decls + [Float(LayerW(l, i, j), 0.0, 1.0)];
      }
    }
  }
}
