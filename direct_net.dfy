/** The network readout shared word for word by the `execute` methods of
    the layered, direct and pure layered encodings (src/layered.cc:99-171,
    src/direct.cc:80-158, src/purelayered.cc:72-144): a hidden unit
    exists iff its H gene is set, an input iff it is not pruned or its R
    gene is set; every existing input feeds every hidden unit and every
    hidden unit feeds every output, each connection present iff the hidden
    unit exists, or, with weight pruning, iff its W gene is set. */
module DirectNet {
  import opened Common
  import opened Params
  import opened Networks
  import opened Genes
  import opened AnnGenes
  import opened DirectKeys

  /** A flag parameter: the default when absent, else its integer value
      read as a truth value. */
  function Flag(params: StringMap, key: string, default: bool): (b: bool)
    ensures key !in params ==> b == default
    ensures key in params ==> (b <==> Atoi(params[key]) != 0)
  {
    if IsNull(params, key) then default else Atoi(params[key]) != 0
  }

  // ---------------------------------------------------------------------
  // The existence genes both encodings add

  /** R<0> .. R<n-1>, one binary gene per prunable input. */
  function InputGenes(n: int): seq<Decl<DKey>>
    decreases n
  {
    if n <= 0 then [] else InputGenes(n - 1) + [Binary(R(n - 1))]
  }

  /** H<0> .. H<n-1>, one binary gene per hidden unit. */
  function HiddenGenes(n: int): seq<Decl<DKey>>
    decreases n
  {
    if n <= 0 then [] else HiddenGenes(n - 1) + [Binary(H(n - 1))]
  }

  /** The R genes, declared only when inputs are pruned. */
  function PrunableInputGenes(n: int, pruneInputs: bool): seq<Decl<DKey>> {
    if pruneInputs then InputGenes(n) else []
  }

  lemma PrunableInputGenesKeys(n: int, pruneInputs: bool)
    ensures forall k: DKey :: k in Keys(PrunableInputGenes(n, pruneInputs)) <==> k.R? && pruneInputs && 0 <= k.i < n
    ensures Distinct(Keys(PrunableInputGenes(n, pruneInputs)))
    ensures forall d :: d in PrunableInputGenes(n, pruneInputs) ==> d.Binary?
  {
    InputGenesKeys(n);
  }

  /** R names, weight names and H names never coincide, so three
      duplicate-free parts make a duplicate-free layout. */
  lemma PartsDistinct(kr: seq<DKey>, kw: seq<DKey>, kh: seq<DKey>)
    requires Distinct(kr) && Distinct(kw) && Distinct(kh)
    requires forall k :: k in kr ==> k.R?
    requires forall k :: k in kw ==> !k.R? && !k.H?
    requires forall k :: k in kh ==> k.H?
    ensures Distinct(kr + kw + kh)
  {
    DistinctConcat(kr, kw);
    DistinctConcat(kr + kw, kh);
  }

  lemma {:induction false} InputGenesKeys(n: int)
    ensures forall k: DKey :: k in Keys(InputGenes(n)) <==> k.R? && 0 <= k.i < n
    ensures Distinct(Keys(InputGenes(n)))
    ensures forall d :: d in InputGenes(n) ==> d.Binary?
    decreases n
  {
    if n > 0 {
      InputGenesKeys(n - 1);
      KeysAppend(InputGenes(n - 1), [Binary(R(n - 1))]);
      assert Keys(InputGenes(n)) == Keys(InputGenes(n - 1)) + [R(n - 1)];
      DistinctAppend(Keys(InputGenes(n - 1)), R(n - 1));
    }
  }

  lemma {:induction false} HiddenGenesKeys(n: int)
    ensures forall k: DKey :: k in Keys(HiddenGenes(n)) <==> k.H? && 0 <= k.i < n
    ensures Distinct(Keys(HiddenGenes(n)))
    ensures forall d :: d in HiddenGenes(n) ==> d.Binary?
    decreases n
  {
    if n > 0 {
      HiddenGenesKeys(n - 1);
      KeysAppend(HiddenGenes(n - 1), [Binary(H(n - 1))]);
      assert Keys(HiddenGenes(n)) == Keys(HiddenGenes(n - 1)) + [H(n - 1)];
      DistinctAppend(Keys(HiddenGenes(n - 1)), H(n - 1));
    }
  }

  /** The loop adding R<i> for every input. */
  method AddInputGenes(decls0: seq<Decl<DKey>>, n: int) returns (decls: seq<Decl<DKey>>)
    ensures decls == decls0 + InputGenes(n)
  {
    decls := decls0;
    for i := 0 to if n < 0 then 0 else n
      invariant decls == decls0 + InputGenes(i)
    {
      decls := decls + [Binary(R(i))];
    }
  }

  /** The loop adding H<i> for every hidden unit. */
  method AddHiddenGenes(decls0: seq<Decl<DKey>>, n: int) returns (decls: seq<Decl<DKey>>)
    ensures decls == decls0 + HiddenGenes(n)
  {
    decls := decls0;
    for i := 0 to if n < 0 then 0 else n
      invariant decls == decls0 + HiddenGenes(i)
    {
      decls := decls + [Binary(H(i))];
    }
  }

  // ---------------------------------------------------------------------
  // The readout

  /** Input i exists: always without input pruning, else iff R<i> is set. */
  predicate InputOn(g: Genome<DKey>, pruneInputs: bool, i: int) {
    !pruneInputs || On(g, R(i))
  }

  /** The connection between hidden unit h and input (or output) x:
      with weight pruning the gene W<x>-<h> decides, otherwise the
      existence of h. */
  predicate WeightOn(g: Genome<DKey>, pruneWeights: bool, x: int, h: int) {
    if pruneWeights then On(g, W(x, h)) else On(g, H(h))
  }

  /** Every gene the readout reads is a binary gene of the genome. */
  predicate Readable(g: Genome<DKey>, a: AnnFields, pruneInputs: bool, pruneWeights: bool) {
    && (forall h :: 0 <= h < a.maxHidden ==> HasBit(g, H(h)))
    && (pruneInputs ==> forall i :: 0 <= i < a.inputs ==> HasBit(g, R(i)))
    && (pruneWeights ==> forall i, h :: 0 <= i < a.inputs && 0 <= h < a.maxHidden && InputOn(g, pruneInputs, i) ==> HasBit(g, W(i, h)))
    && (pruneWeights ==> forall o, h :: 0 <= o < a.outputs && 0 <= h < a.maxHidden ==> HasBit(g, W(o, h)))
  }

  /** Unit k exists: an input as InputOn says, a hidden unit iff its H
      gene is set, an output always. */
  predicate UnitOn(g: Genome<DKey>, a: AnnFields, pruneInputs: bool, k: int) {
    if k < a.inputs then InputOn(g, pruneInputs, k)
    else if k < a.inputs + a.maxHidden then On(g, H(k - a.inputs))
    else true
  }

  /** The connections from input i to hidden units 0..k-1. */
  function InputRow(g: Genome<DKey>, a: AnnFields, pruneWeights: bool, i: int, k: int): seq<Edge>
    decreases k
  {
    if k <= 0 then [] else
      InputRow(g, a, pruneWeights, i, k - 1) + (if WeightOn(g, pruneWeights, i, k - 1) then [(i, a.inputs + k - 1)] else [])
  }

  /** The connections from inputs 0..k-1, row by row; a missing input has none. */
  function InputEdges(g: Genome<DKey>, a: AnnFields, pruneInputs: bool, pruneWeights: bool, k: int): seq<Edge>
    decreases k
  {
    if k <= 0 then [] else
      InputEdges(g, a, pruneInputs, pruneWeights, k - 1) +
      (if InputOn(g, pruneInputs, k - 1) then InputRow(g, a, pruneWeights, k - 1, a.maxHidden) else [])
  }

  /** The connections from hidden units 0..k-1 to output o. */
  function OutputRow(g: Genome<DKey>, a: AnnFields, pruneWeights: bool, o: int, k: int): seq<Edge>
    decreases k
  {
    if k <= 0 then [] else
      OutputRow(g, a, pruneWeights, o, k - 1) +
      (if WeightOn(g, pruneWeights, o, k - 1) then [(a.inputs + k - 1, a.inputs + a.maxHidden + o)] else [])
  }

  /** The connections into outputs 0..k-1, output by output. */
  function OutputEdges(g: Genome<DKey>, a: AnnFields, pruneWeights: bool, k: int): seq<Edge>
    decreases k
  {
    if k <= 0 then [] else OutputEdges(g, a, pruneWeights, k - 1) + OutputRow(g, a, pruneWeights, k - 1, a.maxHidden)
  }

  /** The network the readout builds: units enabled as they exist, the
      input connections in input order, then the output connections. */
  function Readout(g: Genome<DKey>, a: AnnFields, pruneInputs: bool, pruneWeights: bool): (net: Network)
    requires Sizes(a)
    ensures |net.enabled| == TotalUnits(a)
    ensures forall k :: 0 <= k < TotalUnits(a) ==> net.enabled[k] == UnitOn(g, a, pruneInputs, k)
  {
    Network(seq(TotalUnits(a), k requires 0 <= k < TotalUnits(a) => UnitOn(g, a, pruneInputs, k)),
            InputEdges(g, a, pruneInputs, pruneWeights, a.inputs) + OutputEdges(g, a, pruneWeights, a.outputs))
  }

  // ---------------------------------------------------------------------
  // What the connections are

  /** An input connection i -> inputs+h. */
  predicate InputEdge(g: Genome<DKey>, a: AnnFields, pruneInputs: bool, pruneWeights: bool, e: Edge) {
    0 <= e.0 < a.inputs && InputOn(g, pruneInputs, e.0) &&
    a.inputs <= e.1 < a.inputs + a.maxHidden && WeightOn(g, pruneWeights, e.0, e.1 - a.inputs)
  }

  /** An output connection inputs+h -> inputs+maxHidden+o. */
  predicate OutputEdge(g: Genome<DKey>, a: AnnFields, pruneWeights: bool, e: Edge) {
    a.inputs <= e.0 < a.inputs + a.maxHidden && a.inputs + a.maxHidden <= e.1 < TotalUnits(a) &&
    WeightOn(g, pruneWeights, e.1 - a.inputs - a.maxHidden, e.0 - a.inputs)
  }

  lemma {:induction false} InputRowMembers(g: Genome<DKey>, a: AnnFields, pruneWeights: bool, i: int, k: int)
    ensures forall e :: e in InputRow(g, a, pruneWeights, i, k) <==>
      e.0 == i && a.inputs <= e.1 < a.inputs + k && WeightOn(g, pruneWeights, i, e.1 - a.inputs)
    ensures Distinct(InputRow(g, a, pruneWeights, i, k))
    decreases k
  {
    if k > 0 {
      InputRowMembers(g, a, pruneWeights, i, k - 1);
      if WeightOn(g, pruneWeights, i, k - 1) {
        DistinctAppend(InputRow(g, a, pruneWeights, i, k - 1), (i, a.inputs + k - 1));
      }
    }
  }

  lemma {:induction false} InputEdgesMembers(g: Genome<DKey>, a: AnnFields, pruneInputs: bool, pruneWeights: bool, k: int)
    requires 0 <= a.maxHidden && k <= a.inputs
    ensures forall e :: e in InputEdges(g, a, pruneInputs, pruneWeights, k) <==>
      e.0 < k && InputEdge(g, a, pruneInputs, pruneWeights, e)
    ensures Distinct(InputEdges(g, a, pruneInputs, pruneWeights, k))
    decreases k
  {
    if k > 0 {
      InputEdgesMembers(g, a, pruneInputs, pruneWeights, k - 1);
      InputRowMembers(g, a, pruneWeights, k - 1, a.maxHidden);
      var prev := InputEdges(g, a, pruneInputs, pruneWeights, k - 1);
      var row := if InputOn(g, pruneInputs, k - 1) then InputRow(g, a, pruneWeights, k - 1, a.maxHidden) else [];
      assert InputEdges(g, a, pruneInputs, pruneWeights, k) == prev + row;
      forall e | e in row ensures e.0 == k - 1 && InputEdge(g, a, pruneInputs, pruneWeights, e) {
      }
      DistinctConcat(prev, row);
    }
  }

  lemma {:induction false} OutputRowMembers(g: Genome<DKey>, a: AnnFields, pruneWeights: bool, o: int, k: int)
    ensures forall e :: e in OutputRow(g, a, pruneWeights, o, k) <==>
      e.1 == a.inputs + a.maxHidden + o && a.inputs <= e.0 < a.inputs + k && WeightOn(g, pruneWeights, o, e.0 - a.inputs)
    ensures Distinct(OutputRow(g, a, pruneWeights, o, k))
    decreases k
  {
    if k > 0 {
      OutputRowMembers(g, a, pruneWeights, o, k - 1);
      if WeightOn(g, pruneWeights, o, k - 1) {
        DistinctAppend(OutputRow(g, a, pruneWeights, o, k - 1), (a.inputs + k - 1, a.inputs + a.maxHidden + o));
      }
    }
  }

  lemma {:induction false} OutputEdgesMembers(g: Genome<DKey>, a: AnnFields, pruneWeights: bool, k: int)
    requires 0 <= a.maxHidden && k <= a.outputs
    ensures forall e :: e in OutputEdges(g, a, pruneWeights, k) <==>
      e.1 < a.inputs + a.maxHidden + k && OutputEdge(g, a, pruneWeights, e)
    ensures Distinct(OutputEdges(g, a, pruneWeights, k))
    decreases k
  {
    if k > 0 {
      OutputEdgesMembers(g, a, pruneWeights, k - 1);
      OutputRowMembers(g, a, pruneWeights, k - 1, a.maxHidden);
      DistinctConcat(OutputEdges(g, a, pruneWeights, k - 1), OutputRow(g, a, pruneWeights, k - 1, a.maxHidden));
    }
  }

  /** The connections of the readout are exactly the input connections
      i -> inputs+h from an existing input whose weight is on and the
      output connections inputs+h -> inputs+maxHidden+o whose weight is
      on, each once. */
  lemma ReadoutEdges(g: Genome<DKey>, a: AnnFields, pruneInputs: bool, pruneWeights: bool)
    requires Sizes(a)
    ensures forall e :: e in Readout(g, a, pruneInputs, pruneWeights).edges <==>
      InputEdge(g, a, pruneInputs, pruneWeights, e) || OutputEdge(g, a, pruneWeights, e)
    ensures NoDuplicateEdges(Readout(g, a, pruneInputs, pruneWeights))
  {
    InputEdgesMembers(g, a, pruneInputs, pruneWeights, a.inputs);
    OutputEdgesMembers(g, a, pruneWeights, a.outputs);
    DistinctConcat(InputEdges(g, a, pruneInputs, pruneWeights, a.inputs), OutputEdges(g, a, pruneWeights, a.outputs));
  }

  /** The readout is a layered feed-forward network without repeated
      connections; without weight pruning every connection joins two
      existing units. */
  lemma ReadoutShape(g: Genome<DKey>, a: AnnFields, pruneInputs: bool, pruneWeights: bool)
    requires Sizes(a)
    ensures InRange(Readout(g, a, pruneInputs, pruneWeights)) && FeedForward(Readout(g, a, pruneInputs, pruneWeights))
    ensures NoSelfLoops(Readout(g, a, pruneInputs, pruneWeights)) && NoDuplicateEdges(Readout(g, a, pruneInputs, pruneWeights))
    ensures !pruneWeights ==> BetweenEnabled(Readout(g, a, pruneInputs, pruneWeights))
  {
    ReadoutEdges(g, a, pruneInputs, pruneWeights);
  }

  /** With weight pruning the hidden unit's existence is not consulted:
      with one unit of each kind, H0 clear and W0-0 set, input 0 is
      connected to the disabled hidden unit 1. */
  lemma PrunedWeightsIgnoreHidden()
    ensures var net := Readout(map[H(0) := Bit(false), W(0, 0) := Bit(true)], AnnFields(1, 1, 1, false), false, true);
      (0, 1) in net.edges && !net.enabled[1] && !BetweenEnabled(net)
  {
    var g := map[H(0) := Bit(false), W(0, 0) := Bit(true)];
    var a := AnnFields(1, 1, 1, false);
    ReadoutEdges(g, a, false, true);
    assert InputEdge(g, a, false, true, (0, 1));
  }

  /** With weight pruning an input and the output of the same number read
      the same gene: input x feeds hidden unit h exactly when h feeds
      output x (for an existing input x). */
  lemma PrunedWeightsShared(g: Genome<DKey>, a: AnnFields, pruneInputs: bool, x: int, h: int)
    requires Sizes(a) && 0 <= x < a.inputs && x < a.outputs && 0 <= h < a.maxHidden && InputOn(g, pruneInputs, x)
    ensures (x, a.inputs + h) in Readout(g, a, pruneInputs, true).edges <==>
            (a.inputs + h, a.inputs + a.maxHidden + x) in Readout(g, a, pruneInputs, true).edges
  {
    ReadoutEdges(g, a, pruneInputs, true);
  }

  // ---------------------------------------------------------------------
  // The loops of `execute`

  /** `execute` up to the attached network: the hidden existence array,
      then the input connections, then the output connections. */
  method Decode(g: Genome<DKey>, a: AnnFields, pruneInputs: bool, pruneWeights: bool) returns (net: Network)
    requires Sizes(a) && Readable(g, a, pruneInputs, pruneWeights)
    ensures net == Readout(g, a, pruneInputs, pruneWeights)
  {
    net := Fresh(a.inputs + a.maxHidden + a.outputs);
    var hidexists := new bool[a.maxHidden];
    net := ReadHidden(g, a, hidexists, net);
    net := ConnectInputs(g, a, pruneInputs, pruneWeights, hidexists, net);
    net := ConnectOutputs(g, a, pruneInputs, pruneWeights, hidexists, net);
    assert net.enabled == Readout(g, a, pruneInputs, pruneWeights).enabled;
  }

  /** The loop filling `hidexists` from the H genes and enabling each
      hidden unit accordingly. */
  method ReadHidden(g: Genome<DKey>, a: AnnFields, hidexists: array<bool>, net0: Network) returns (net: Network)
    requires Sizes(a) && hidexists.Length == a.maxHidden && Readable(g, a, false, false)
    requires |net0.enabled| == TotalUnits(a) && net0.edges == [] && forall k :: 0 <= k < TotalUnits(a) ==> net0.enabled[k]
    modifies hidexists
    ensures forall h :: 0 <= h < a.maxHidden ==> hidexists[h] == On(g, H(h))
    ensures |net.enabled| == TotalUnits(a) && net.edges == []
    ensures forall k :: 0 <= k < TotalUnits(a) ==> net.enabled[k] == (k < a.inputs || UnitOn(g, a, false, k))
  {
    net := net0;
    for h := 0 to a.maxHidden
      invariant forall p :: 0 <= p < h ==> hidexists[p] == On(g, H(p))
      invariant |net.enabled| == TotalUnits(a) && net.edges == []
      invariant forall k :: 0 <= k < TotalUnits(a) ==>
        net.enabled[k] == (k < a.inputs || k >= a.inputs + h || UnitOn(g, a, false, k))
    {
      hidexists[h] := g[H(h)].on;
      net := Enable(net, h + a.inputs, hidexists[h]);
    }
  }

  /** The loop over the inputs: each is enabled as it exists, and an
      existing one is connected to the hidden units. */
  method ConnectInputs(g: Genome<DKey>, a: AnnFields, pruneInputs: bool, pruneWeights: bool,
                       hidexists: array<bool>, net0: Network) returns (net: Network)
    requires Sizes(a) && hidexists.Length == a.maxHidden && Readable(g, a, pruneInputs, pruneWeights)
    requires forall h :: 0 <= h < a.maxHidden ==> hidexists[h] == On(g, H(h))
    requires |net0.enabled| == TotalUnits(a) && net0.edges == []
    requires forall k :: 0 <= k < TotalUnits(a) ==> net0.enabled[k] == (k < a.inputs || UnitOn(g, a, false, k))
    ensures |net.enabled| == TotalUnits(a) && net.edges == InputEdges(g, a, pruneInputs, pruneWeights, a.inputs)
    ensures forall k :: 0 <= k < TotalUnits(a) ==> net.enabled[k] == UnitOn(g, a, pruneInputs, k)
  {
    net := net0;
    for i := 0 to a.inputs
      invariant |net.enabled| == TotalUnits(a) && net.edges == InputEdges(g, a, pruneInputs, pruneWeights, i)
      invariant forall k :: 0 <= k < TotalUnits(a) ==>
        net.enabled[k] == if i <= k < a.inputs then true else UnitOn(g, a, pruneInputs, k)
    {
      var inputExists := true;
      if pruneInputs {
        inputExists := g[R(i)].on;
      }
      net := Enable(net, i, inputExists);
      if inputExists {
        net := ConnectInputRow(g, a, pruneInputs, pruneWeights, hidexists, i, net);
      }
    }
  }

  /** The connections of existing input i, hidden unit by hidden unit. */
  method ConnectInputRow(g: Genome<DKey>, a: AnnFields, pruneInputs: bool, pruneWeights: bool,
                         hidexists: array<bool>, i: int, net0: Network) returns (net: Network)
    requires Sizes(a) && hidexists.Length == a.maxHidden && Readable(g, a, pruneInputs, pruneWeights)
    requires forall h :: 0 <= h < a.maxHidden ==> hidexists[h] == On(g, H(h))
    requires 0 <= i < a.inputs && InputOn(g, pruneInputs, i)
    ensures net.enabled == net0.enabled && net.edges == net0.edges + InputRow(g, a, pruneWeights, i, a.maxHidden)
  {
    net := net0;
    for h := 0 to a.maxHidden
      invariant net.enabled == net0.enabled && net.edges == net0.edges + InputRow(g, a, pruneWeights, i, h)
    {
      var wExists := hidexists[h];
      if pruneWeights {
        wExists := g[W(i, h)].on;
      }
      if wExists {
        net := Connect(net, i, h + a.inputs);
      }
    }
  }

  /** The loop over the outputs: every hidden unit is connected to each
      output whose weight is on. */
  method ConnectOutputs(g: Genome<DKey>, a: AnnFields, pruneInputs: bool, pruneWeights: bool,
                        hidexists: array<bool>, net0: Network) returns (net: Network)
    requires Sizes(a) && hidexists.Length == a.maxHidden && Readable(g, a, pruneInputs, pruneWeights)
    requires forall h :: 0 <= h < a.maxHidden ==> hidexists[h] == On(g, H(h))
    ensures net.enabled == net0.enabled && net.edges == net0.edges + OutputEdges(g, a, pruneWeights, a.outputs)
  {
    net := net0;
    for o := 0 to a.outputs
      invariant net.enabled == net0.enabled && net.edges == net0.edges + OutputEdges(g, a, pruneWeights, o)
    {
      ghost var before := net.edges;
      for h := 0 to a.maxHidden
        invariant net.enabled == net0.enabled && net.edges == before + OutputRow(g, a, pruneWeights, o, h)
      {
        var wExists := hidexists[h];
        if pruneWeights {
          wExists := g[W(o, h)].on;
        }
        if wExists {
          net := Connect(net, h + a.inputs, o + a.inputs + a.maxHidden);
        }
      }
    }
  }
}
