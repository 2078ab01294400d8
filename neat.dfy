/** The NEAT encoding (src/neat.cc): node genes named by a global
    innovation counter, and connection genes carrying an innovation
    number, two node numbers, an expression bit and a weight. */
module Neat {
  import opened Common
  import opened Params
  import opened Genes
  import opened AnnGenes

  /** "U<n>": the node created when the innovation counter was n. */
  datatype NodeKey = U(number: int)

  /** The genes of a connection: "E" (expressed) and "W" (weight). */
  datatype ConnKey = Expression | Weight

  // ---------------------------------------------------------------------
  // Connection genes

  /** A basic NEAT connection: enabled bit, then a weight in [-1, 1]. */
  function ConnectionDecls(): seq<Decl<ConnKey>> {
    [Binary(Expression), Float(Weight, -1.0, 1.0)]
  }

  /** A genome fits a connection's declarations exactly when its "E" gene
      is a bit and its "W" gene a real inside [-1, 1]. */
  lemma ConnectionGenesFit(g: Genome<ConnKey>)
    ensures Conforms(g, ConnectionDecls()) <==>
            HasBit(g, Expression) && HasReal(g, Weight) && -1.0 <= RealOf(g, Weight) <= 1.0
  {
    var ds := ConnectionDecls();
    if Conforms(g, ds) {
      assert ds[0] in ds && ds[1] in ds;
    }
    if HasBit(g, Expression) && HasReal(g, Weight) && -1.0 <= RealOf(g, Weight) <= 1.0 {
      forall d | d in ds ensures d.key in g && Fits(d, g[d.key]) {
        assert d == ds[0] || d == ds[1];
      }
    }
  }

  class ConnectionGene {
    const name: string
    /** Never changes after construction. */
    const innovation: int
    var source: int
    var target: int

    constructor (name: string, innovation: int, source: int, target: int)
      ensures this.name == name && this.innovation == innovation
      ensures this.source == source && this.target == target
    {
      this.name := name;
      this.innovation := innovation;
      this.source := source;
      this.target := target;
    }

    /** The copy constructor preserves all three numbers. */
    constructor Clone(orig: ConnectionGene)
      ensures name == orig.name && innovation == orig.innovation
      ensures source == orig.source && target == orig.target
    {
      name := orig.name;
      innovation := orig.innovation;
      source := orig.source;
      target := orig.target;
    }

    /** `addPrivateGenes`: exactly the expression bit and the weight. */
    method AddPrivateGenes() returns (decls: seq<Decl<ConnKey>>)
      ensures Keys(decls) == [Expression, Weight]
      ensures decls[0].Binary? && decls[1] == Float(Weight, -1.0, 1.0)
      ensures decls == ConnectionDecls()
    {
      decls := [];
      decls := decls + [Binary(Expression)];
      decls := decls + [Float(Weight, -1.0, 1.0)];
    }
  }

  // ---------------------------------------------------------------------
  // Node names

  /** The names of `count` nodes created from counter value `start` on. */
  function NodeNames(start: int, count: int): seq<NodeKey>
    decreases count
  {
    if count <= 0 then [] else NodeNames(start, count - 1) + [U(start + count - 1)]
  }

  /** The names are consecutive: the k-th carries number start + k. */
  lemma {:induction false} NodeNamesConsecutive(start: int, count: int)
    ensures |NodeNames(start, count)| == Max(count, 0)
    ensures forall k :: 0 <= k < |NodeNames(start, count)| ==> NodeNames(start, count)[k] == U(start + k)
    decreases count
  {
    if count > 0 {
      NodeNamesConsecutive(start, count - 1);
    }
  }

  /** No name occurs twice, and every number lies in [start, start+count). */
  lemma NodeNamesDistinct(start: int, count: int)
    ensures Distinct(NodeNames(start, count))
    ensures forall x: NodeKey :: x in NodeNames(start, count) <==> start <= x.number < start + count
  {
    NodeNamesConsecutive(start, count);
    var ns := NodeNames(start, count);
    forall x: NodeKey | start <= x.number < start + count ensures x in ns {
      assert ns[x.number - start] == x;
    }
  }

  /** Nodes created by a later call never reuse a name of an earlier one
      as long as the counter only grows in between. */
  lemma NodeNamesFresh(s1: int, c1: int, s2: int, c2: int)
    requires s1 + Max(c1, 0) <= s2
    ensures forall x :: x in NodeNames(s1, c1) ==> x !in NodeNames(s2, c2)
  {
    NodeNamesDistinct(s1, c1);
    NodeNamesDistinct(s2, c2);
  }

  /** The output nodes continue the numbering of the input nodes. */
  lemma {:induction false} NodeNamesAppend(start: int, m: nat, n: nat)
    ensures NodeNames(start, m) + NodeNames(start + m, n) == NodeNames(start, m + n)
    decreases n
  {
    if n > 0 {
      NodeNamesAppend(start, m, n - 1);
      assert NodeNames(start, m + n) == NodeNames(start, m + n - 1) + [U(start + m + n - 1)];
      assert NodeNames(start, m) + NodeNames(start + m, n)
          == (NodeNames(start, m) + NodeNames(start + m, n - 1)) + [U(start + m + n - 1)];
    }
  }

  // ---------------------------------------------------------------------
  // The encoding

  class NEATEncoding {
    var ann: AnnFields
    var innovationCounter: int

    /** The innovation counter starts at 0. */
    constructor (params: StringMap)
      requires HasSizes(params)
      ensures ann == Construct(params) && innovationCounter == 0
    {
      ann := Construct(params);
      innovationCounter := 0;
    }

    /** The copy constructor copies the sizes but starts the counter again
        at 0. */
    constructor Clone(other: NEATEncoding)
      ensures ann == other.ann && innovationCounter == 0
    {
      ann := other.ann;
      innovationCounter := 0;
    }

    /** `copy`: the sizes only; the counter stays. */
    method Copy(other: NEATEncoding)
      modifies this
      ensures ann == old(other.ann) && innovationCounter == old(innovationCounter)
    {
      ann := other.ann;
    }

    /** `addPrivateGenes`: the input and output counts come from
        "NEATEncoding.inputs" and "NEATEncoding.outputs"; one node per
        input, then one per output, each named after the counter, which
        advances once per node. */
    method AddPrivateGenes(params: StringMap) returns (nodes: seq<NodeKey>)
      modifies this
      ensures ann == old(ann).(inputs := Atoi(Get(params, "NEATEncoding.inputs")),
                               outputs := Atoi(Get(params, "NEATEncoding.outputs")))
      ensures innovationCounter == old(innovationCounter) + Max(ann.inputs, 0) + Max(ann.outputs, 0)
      ensures nodes == NodeNames(old(innovationCounter), Max(ann.inputs, 0) + Max(ann.outputs, 0))
    {
      ann := ann.(inputs := Atoi(Get(params, "NEATEncoding.inputs")));
      ann := ann.(outputs := Atoi(Get(params, "NEATEncoding.outputs")));
      var inputNodes := NewNodes(ann.inputs);
      var outputNodes := NewNodes(ann.outputs);
      nodes := inputNodes + outputNodes;
      NodeNamesAppend(old(innovationCounter), Max(ann.inputs, 0), Max(ann.outputs, 0));
    }

    /** One node per count, each named after the counter, which advances
        once per node. */
    method NewNodes(count: int) returns (nodes: seq<NodeKey>)
      modifies this
      ensures ann == old(ann)
      ensures innovationCounter == old(innovationCounter) + Max(count, 0)
      ensures nodes == NodeNames(old(innovationCounter), Max(count, 0))
    {
      nodes := [];
      var i := 0;
      while i < count
        invariant ann == old(ann) && 0 <= i <= Max(count, 0)
        invariant innovationCounter == old(innovationCounter) + i
        invariant nodes == NodeNames(old(innovationCounter), i)
      {
        nodes := nodes + [U(innovationCounter)];
        i, innovationCounter := i + 1, innovationCounter + 1;
      }
    }

    /** `pointMutate` is a stub: it reports no mutation. */
    method PointMutate(rate: real) returns (mutated: bool)
      ensures !mutated
    {
      mutated := false;
    }

    /** `execute` is a stub: it reports failure. */
    method Execute(g: Genome<ConnKey>) returns (ok: bool)
      ensures !ok
    {
      ok := false;
    }
  }
}
