/** Miller's direct encoding (src/puredirect.cc): one existence bit per
    non-output unit and one bit per forward pair of units, read into a
    connection matrix whose diagonal says which units exist; the
    network has exactly the matrix's forward connections between
    existing units. */
module Miller {
  import opened Common
  import opened Params
  import opened Networks
  import opened Genes
  import opened AnnGenes
  import opened Matrices
  import opened DirectKeys

  // ---------------------------------------------------------------------
  // Gene layout of `addPrivateGenes`

  /** W<i>-<j> for lo <= j < hi, in order. */
  function WeightRow(i: int, lo: int, hi: int): seq<Decl<DKey>>
    decreases hi - lo
  {
    if hi <= lo then [] else WeightRow(i, lo, hi - 1) + [Binary(W(i, hi - 1))]
  }

  /** Row i: the existence gene E<i> when it is encoded (not for an input
      unit unless inputs are pruned), then a connection gene to every
      later unit. */
  function RowGenes(a: AnnFields, prune: bool, i: int): seq<Decl<DKey>> {
    (if i >= a.inputs || prune then [Binary(E(i))] else []) + WeightRow(i, i + 1, TotalUnits(a))
  }

  /** The genes of rows 0..k-1; `addPrivateGenes` adds those of the
      rows of the input and hidden units, k = TotalUnits(a) - outputs. */
  function MillerGenes(a: AnnFields, prune: bool, k: int): seq<Decl<DKey>>
    decreases k
  {
    if k <= 0 then [] else MillerGenes(a, prune, k - 1) + RowGenes(a, prune, k - 1)
  }

  function Rows(a: AnnFields): int { TotalUnits(a) - a.outputs }

  lemma {:induction false} WeightRowKeys(i: int, lo: int, hi: int)
    ensures forall k: DKey :: k in Keys(WeightRow(i, lo, hi)) <==> k.W? && k.i == i && lo <= k.j < hi
    ensures Distinct(Keys(WeightRow(i, lo, hi)))
    ensures forall d :: d in WeightRow(i, lo, hi) ==> d.Binary?
    decreases hi - lo
  {
    if hi > lo {
      WeightRowKeys(i, lo, hi - 1);
      KeysAppend(WeightRow(i, lo, hi - 1), [Binary(W(i, hi - 1))]);
      assert Keys(WeightRow(i, lo, hi)) == Keys(WeightRow(i, lo, hi - 1)) + [W(i, hi - 1)];
      DistinctAppend(Keys(WeightRow(i, lo, hi - 1)), W(i, hi - 1));
    }
  }

  lemma RowGenesKeys(a: AnnFields, prune: bool, i: int)
    ensures forall k: DKey :: k in Keys(RowGenes(a, prune, i)) <==>
      (k.E? && k.i == i && (i >= a.inputs || prune)) || (k.W? && k.i == i && i < k.j < TotalUnits(a))
    ensures Distinct(Keys(RowGenes(a, prune, i)))
    ensures forall d :: d in RowGenes(a, prune, i) ==> d.Binary?
  {
    var head: seq<Decl<DKey>> := if i >= a.inputs || prune then [Binary(E(i))] else [];
    WeightRowKeys(i, i + 1, TotalUnits(a));
    KeysAppend(head, WeightRow(i, i + 1, TotalUnits(a)));
    assert Keys(head) == if i >= a.inputs || prune then [E(i)] else [];
    DistinctConcat(Keys(head), Keys(WeightRow(i, i + 1, TotalUnits(a))));
  }

  /** The layout: E<i> exactly for the encoded units among the first k,
      W<i>-<j> exactly for i < k and i < j < total, each gene once, all
      of them binary. */
  lemma {:induction false} MillerGenesKeys(a: AnnFields, prune: bool, k: int)
    ensures forall key: DKey :: key in Keys(MillerGenes(a, prune, k)) <==>
      (key.E? && 0 <= key.i < k && (key.i >= a.inputs || prune)) ||
      (key.W? && 0 <= key.i < k && key.i < key.j < TotalUnits(a))
    ensures Distinct(Keys(MillerGenes(a, prune, k)))
    ensures forall d :: d in MillerGenes(a, prune, k) ==> d.Binary?
    decreases k
  {
    if k > 0 {
      MillerGenesKeys(a, prune, k - 1);
      RowGenesKeys(a, prune, k - 1);
      KeysAppend(MillerGenes(a, prune, k - 1), RowGenes(a, prune, k - 1));
      DistinctConcat(Keys(MillerGenes(a, prune, k - 1)), Keys(RowGenes(a, prune, k - 1)));
    }
  }

  // ---------------------------------------------------------------------
  // The connection matrix of `execute`

  /** Every gene `execute` reads is a binary gene of the genome. */
  predicate Readable(g: Genome<DKey>, a: AnnFields, prune: bool) {
    && (forall i :: 0 <= i < Rows(a) && (i >= a.inputs || prune) ==> HasBit(g, E(i)))
    && (forall i, j :: 0 <= i < Rows(a) && i < j < TotalUnits(a) && j >= a.inputs ==> HasBit(g, W(i, j)))
  }

  /** A genome holding the declared genes can be read. */
  lemma ConformingReadable(g: Genome<DKey>, a: AnnFields, prune: bool)
    requires Conforms(g, MillerGenes(a, prune, Rows(a)))
    ensures Readable(g, a, prune)
  {
    var ds := MillerGenes(a, prune, Rows(a));
    MillerGenesKeys(a, prune, Rows(a));
    forall key: DKey | key in Keys(ds) ensures HasBit(g, key) {
      var p :| 0 <= p < |ds| && Keys(ds)[p] == key;
      assert ds[p] in ds;
    }
  }

  function Bit01(b: bool): int { if b then 1 else 0 }

  /** Diagonal entry i as read from the genome: E<i> for an encoded unit
      that is not an output, 0 otherwise. */
  function UnitEntry(g: Genome<DKey>, a: AnnFields, prune: bool, i: int): int {
    Bit01(i < Rows(a) && (i >= a.inputs || prune) && On(g, E(i)))
  }

  /** Off-diagonal entry (i, j): 1 iff i is not an output, j is past i
      and not an input, and W<i>-<j> is set. */
  function WeightEntry(g: Genome<DKey>, a: AnnFields, i: int, j: int): int {
    Bit01(i < Rows(a) && i < j && j >= a.inputs && On(g, W(i, j)))
  }

  /** Entry (i, j) of the matrix; with `forced`, after the output
      diagonal has been set to 1. */
  function Entry(g: Genome<DKey>, a: AnnFields, prune: bool, forced: bool, i: int, j: int): int {
    if i == j then (if forced && i >= Rows(a) then 1 else UnitEntry(g, a, prune, i))
    else WeightEntry(g, a, i, j)
  }

  function Connmat(g: Genome<DKey>, a: AnnFields, prune: bool, forced: bool): (m: Matrix)
    requires Sizes(a)
    ensures IsMatrix(m, TotalUnits(a), TotalUnits(a))
    ensures forall i, j :: 0 <= i < TotalUnits(a) && 0 <= j < TotalUnits(a) ==> m[i][j] == Entry(g, a, prune, forced, i, j)
  {
    var n := TotalUnits(a);
    seq(n, i requires 0 <= i < n => seq(n, j requires 0 <= j < n => Entry(g, a, prune, forced, i, j)))
  }

  /** Every entry of the matrix is 0 or 1. */
  predicate Bits(m: Matrix) {
    forall i, j :: 0 <= i < |m| && 0 <= j < |m[i]| ==> m[i][j] == 0 || m[i][j] == 1
  }

  /** The matrix is 0/1; nothing below the diagonal, between two inputs,
      or in an output's row off the diagonal is ever set; without input
      pruning the input diagonals stay 0; after forcing, every output
      diagonal is 1. */
  lemma ConnmatShape(g: Genome<DKey>, a: AnnFields, prune: bool, forced: bool, i: int, j: int)
    requires Sizes(a) && 0 <= i < TotalUnits(a) && 0 <= j < TotalUnits(a)
    ensures Bits(Connmat(g, a, prune, forced))
    ensures j < i ==> Connmat(g, a, prune, forced)[i][j] == 0
    ensures i != j && i < a.inputs && j < a.inputs ==> Connmat(g, a, prune, forced)[i][j] == 0
    ensures i != j && i >= Rows(a) ==> Connmat(g, a, prune, forced)[i][j] == 0
    ensures !prune && i < a.inputs ==> Connmat(g, a, prune, forced)[i][i] == 0
    ensures forced && i >= Rows(a) ==> Connmat(g, a, prune, forced)[i][i] == 1
    ensures !forced ==> Connmat(g, a, prune, forced)[i][i] == UnitEntry(g, a, prune, i)
  {
  }

  // ---------------------------------------------------------------------
  // The network read from the forced matrix

  /** The connections of unit i to units lo..hi-1: to each existing j
      whose entry is set. */
  function RowEdges(f: Matrix, n: nat, i: nat, lo: int, hi: int): seq<Edge>
    requires IsMatrix(f, n, n) && i < n && hi <= n
    decreases hi - lo
  {
    if hi <= lo || hi - 1 < 0 then []
    else RowEdges(f, n, i, lo, hi - 1) + if f[hi - 1][hi - 1] != 0 && f[i][hi - 1] != 0 then [(i, hi - 1)] else []
  }

  /** The connections of units 0..k-1: an existing unit i connects to
      the later units, a missing one to none. */
  function NetEdges(f: Matrix, n: nat, k: nat): seq<Edge>
    requires IsMatrix(f, n, n) && k <= n
  {
    if k == 0 then []
    else NetEdges(f, n, k - 1) + if f[k - 1][k - 1] != 0 then RowEdges(f, n, k - 1, k, n) else []
  }

  function MatrixNet(f: Matrix, n: nat): (net: Network)
    requires IsMatrix(f, n, n)
    ensures |net.enabled| == n && forall i :: 0 <= i < n ==> net.enabled[i] == (f[i][i] != 0)
  {
    Network(seq(n, i requires 0 <= i < n => f[i][i] != 0), NetEdges(f, n, n))
  }

  lemma {:induction false} RowEdgesMembers(f: Matrix, n: nat, i: nat, lo: int, hi: int)
    requires IsMatrix(f, n, n) && i < n && hi <= n && 0 <= lo
    ensures forall e :: e in RowEdges(f, n, i, lo, hi) <==>
      e.0 == i && lo <= e.1 < hi && f[e.1][e.1] != 0 && f[i][e.1] != 0
    ensures Distinct(RowEdges(f, n, i, lo, hi))
    decreases hi - lo
  {
    if hi > lo {
      RowEdgesMembers(f, n, i, lo, hi - 1);
      if f[hi - 1][hi - 1] != 0 && f[i][hi - 1] != 0 {
        DistinctAppend(RowEdges(f, n, i, lo, hi - 1), (i, hi - 1));
      }
    }
  }

  /** The edge rule: i -> j iff i < j and the entries (i, i), (j, j) and
      (i, j) are all set; each such pair once. */
  lemma {:induction false} NetEdgesMembers(f: Matrix, n: nat, k: nat)
    requires IsMatrix(f, n, n) && k <= n
    ensures forall e :: e in NetEdges(f, n, k) <==>
      0 <= e.0 < k && e.0 < e.1 < n && f[e.0][e.0] != 0 && f[e.1][e.1] != 0 && f[e.0][e.1] != 0
    ensures Distinct(NetEdges(f, n, k))
    decreases k
  {
    if k > 0 {
      NetEdgesMembers(f, n, k - 1);
      var b := if f[k - 1][k - 1] != 0 then RowEdges(f, n, k - 1, k, n) else [];
      RowEdgesMembers(f, n, k - 1, k, n);
      DistinctConcat(NetEdges(f, n, k - 1), b);
    }
  }

  /** The network of a matrix has no self-loops, goes only forward,
      joins only enabled units, and never repeats a connection. */
  lemma MatrixNetShape(f: Matrix, n: nat)
    requires IsMatrix(f, n, n)
    ensures InRange(MatrixNet(f, n)) && FeedForward(MatrixNet(f, n)) && NoSelfLoops(MatrixNet(f, n))
    ensures BetweenEnabled(MatrixNet(f, n)) && NoDuplicateEdges(MatrixNet(f, n))
  {
    NetEdgesMembers(f, n, n);
  }

  /** Unit i of the decoded network exists: an output always, another
      unit when its existence gene is encoded and set. */
  predicate UnitOn(g: Genome<DKey>, a: AnnFields, prune: bool, i: int) {
    i >= Rows(a) || ((i >= a.inputs || prune) && On(g, E(i)))
  }

  /** The decoded network of a genome: unit i is enabled iff it exists,
      and i -> j is a connection iff i < j, i is not an output, j is not
      an input, both units exist and W<i>-<j> is set. */
  lemma {:induction false} DecodedNet(g: Genome<DKey>, a: AnnFields, prune: bool, e: Edge, i: int)
    requires Sizes(a) && 0 <= i < TotalUnits(a)
    ensures MatrixNet(Connmat(g, a, prune, true), TotalUnits(a)).enabled[i] == UnitOn(g, a, prune, i)
    ensures e in MatrixNet(Connmat(g, a, prune, true), TotalUnits(a)).edges <==>
      0 <= e.0 < e.1 < TotalUnits(a) && e.0 < Rows(a) && e.1 >= a.inputs &&
      UnitOn(g, a, prune, e.0) && UnitOn(g, a, prune, e.1) && On(g, W(e.0, e.1))
  {
    var n := TotalUnits(a);
    var f := Connmat(g, a, prune, true);
    NetEdgesMembers(f, n, n);
    if 0 <= e.0 < e.1 < n {
      assert f[e.0][e.0] == Entry(g, a, prune, true, e.0, e.0);
      assert f[e.1][e.1] == Entry(g, a, prune, true, e.1, e.1);
      assert f[e.0][e.1] == WeightEntry(g, a, e.0, e.1);
    }
  }

  // ---------------------------------------------------------------------
  // The description string

  function DescRow(row: seq<int>): (s: string)
    ensures |s| == |row| && forall j :: 0 <= j < |row| ==> s[j] == if row[j] != 0 then '1' else '0'
  {
    seq(|row|, j requires 0 <= j < |row| => if row[j] != 0 then '1' else '0')
  }

  /** Rows 0..k-1 of the matrix, '1' for a set entry and '0' otherwise,
      each row followed by a newline. */
  function Describe(f: Matrix, n: nat, k: nat): string
    requires IsMatrix(f, n, n) && k <= n
  {
    if k == 0 then [] else Describe(f, n, k - 1) + DescRow(f[k - 1]) + ['\n']
  }

  lemma {:induction false} DescribeLength(f: Matrix, n: nat, k: nat)
    requires IsMatrix(f, n, n) && k <= n
    ensures |Describe(f, n, k)| == k * (n + 1)
  {
    if k > 0 {
      DescribeLength(f, n, k - 1);
    }
  }

  lemma {:induction false} DescribePrefix(f: Matrix, n: nat, i: nat, k: nat)
    requires IsMatrix(f, n, n) && i <= k <= n
    ensures Describe(f, n, i) <= Describe(f, n, k)
    decreases k
  {
    if i < k {
      DescribePrefix(f, n, i, k - 1);
    }
  }

  /** The description has n + 1 characters per row: character j of row
      i is '1' or '0' as entry (i, j) is set or not, character n the
      newline. */
  lemma DescribeAt(f: Matrix, n: nat, i: nat, j: nat)
    requires IsMatrix(f, n, n) && i < n && j <= n
    ensures |Describe(f, n, n)| == n * (n + 1)
    ensures i * (n + 1) + j < |Describe(f, n, n)|
    ensures Describe(f, n, n)[i * (n + 1) + j] == if j == n then '\n' else if f[i][j] != 0 then '1' else '0'
  {
    DescribeLength(f, n, n);
    DescribeLength(f, n, i);
    DescribePrefix(f, n, i + 1, n);
    var start := |Describe(f, n, i)|;
    var line := Describe(f, n, i + 1);
    assert line == Describe(f, n, i) + DescRow(f[i]) + ['\n'];
    assert line[start + j] == if j == n then '\n' else if f[i][j] != 0 then '1' else '0';
  }

  // ---------------------------------------------------------------------
  // The encoding

  class MillerEncoding {
    var ann: AnnFields
    var pruneInputs: bool
    var pcVariance: real
    var pcAverage: real

    /** The three parameters are read without defaults (an absent one
        reads as 0). */
    constructor (params: StringMap)
      requires HasSizes(params)
      ensures ann == Construct(params)
      ensures pruneInputs == (Atoi(Get(params, "MillerEncoding.pruneInputs")) != 0)
      ensures pcVariance == Atof(Get(params, "MillerEncoding.pcVariance"))
      ensures pcAverage == Atof(Get(params, "MillerEncoding.pcAverage"))
    {
      ann := Construct(params);
      pruneInputs := Atoi(Get(params, "MillerEncoding.pruneInputs")) != 0;
      pcVariance := Atof(Get(params, "MillerEncoding.pcVariance"));
      pcAverage := Atof(Get(params, "MillerEncoding.pcAverage"));
    }

    /** The copy constructor. */
    constructor Clone(other: MillerEncoding)
      ensures ann == other.ann && pruneInputs == other.pruneInputs
      ensures pcVariance == other.pcVariance && pcAverage == other.pcAverage
    {
      ann, pruneInputs := other.ann, other.pruneInputs;
      pcVariance, pcAverage := other.pcVariance, other.pcAverage;
    }

    /** `copy`: every field of `other`. */
    method Copy(other: MillerEncoding)
      modifies this
      ensures ann == old(other.ann) && pruneInputs == old(other.pruneInputs)
      ensures pcVariance == old(other.pcVariance) && pcAverage == old(other.pcAverage)
    {
      ann, pruneInputs := other.ann, other.pruneInputs;
      pcVariance, pcAverage := other.pcVariance, other.pcAverage;
    }

    /** `addPrivateGenes`: row by row over the input and hidden units. */
    method AddPrivateGenes() returns (decls: seq<Decl<DKey>>)
      ensures decls == MillerGenes(ann, pruneInputs, Rows(ann))
    {
      var total := ann.inputs + ann.maxHidden + ann.outputs;
      decls := [];
      var i := 0;
      while i < total - ann.outputs
        invariant 0 <= i && (i <= total - ann.outputs || i == 0)
        invariant decls == MillerGenes(ann, pruneInputs, i)
      {
        ghost var start := decls;
        if i >= ann.inputs || pruneInputs {
          decls := decls + [Binary(E(i))];
        }
        var row := AddWeightRow(i, total);
        decls := decls + row;
        assert decls == start + RowGenes(ann, pruneInputs, i);
        i := i + 1;
      }
    }

    /** The connection genes of row i, to the units after i. */
    static method AddWeightRow(i: int, total: int) returns (decls: seq<Decl<DKey>>)
      ensures decls == WeightRow(i, i + 1, total)
    {
      decls := [];
      var j := i + 1;
      while j < total
        invariant i + 1 <= j && (j <= total || j == i + 1)
        invariant decls == WeightRow(i, i + 1, j)
        decreases total - j
      {
        decls := decls + [Binary(W(i, j))];
        j := j + 1;
      }
      if j > total {
        assert WeightRow(i, i + 1, j) == [] == WeightRow(i, i + 1, total);
      }
    }

    /** `execute`: the connection matrix read from the genome, the
        density counts over it, the output diagonal forced to 1, and the
        network of the forced matrix. A picture-taking run yields the
        description string and attaches no network. */
    method Execute(g: Genome<DKey>, takePics: bool) returns (plan: Option<Network>, desc: string, conns: int, totconns: int)
      requires Sizes(ann) && Readable(g, ann, pruneInputs)
      ensures Counted(Connmat(g, ann, pruneInputs, false), TotalUnits(ann), ann.inputs, ann.outputs, conns, totconns)
      ensures 0 <= conns <= totconns
      ensures plan == if takePics then None else Some(MatrixNet(Connmat(g, ann, pruneInputs, true), TotalUnits(ann)))
      ensures desc == if takePics then Describe(Connmat(g, ann, pruneInputs, true), TotalUnits(ann), TotalUnits(ann)) else []
    {
      var a := ann;
      var n := a.inputs + a.maxHidden + a.outputs;
      var cmatrix := new int[n, n];
      ZeroMatrix(cmatrix);
      ReadUnits(cmatrix, g, a, pruneInputs);
      ReadWeights(cmatrix, g, a, pruneInputs);
      ContentsEqual(cmatrix, Connmat(g, a, pruneInputs, false));
      forall i, j | 0 <= i < n && 0 <= j < n {
        ConnmatShape(g, a, pruneInputs, false, i, j);
      }
      conns, totconns := CountEntries(cmatrix, a.inputs, a.outputs);
      EnableOutputs(cmatrix, g, a, pruneInputs);
      ContentsEqual(cmatrix, Connmat(g, a, pruneInputs, true));
      var net := ConnectUnits(cmatrix);
      if takePics {
        desc := DescribeMatrix(cmatrix);
        plan := None;
      } else {
        desc := [];
        plan := Some(net);
      }
    }
  }

  /** The loops zeroing the matrix. */
  method ZeroMatrix(m: array2<int>)
    modifies m
    ensures forall i, j :: 0 <= i < m.Length0 && 0 <= j < m.Length1 ==> m[i, j] == 0
  {
    for i := 0 to m.Length0
      invariant forall p, q :: 0 <= p < i && 0 <= q < m.Length1 ==> m[p, q] == 0
    {
      for j := 0 to m.Length1
        invariant forall p, q :: 0 <= p < i && 0 <= q < m.Length1 ==> m[p, q] == 0
        invariant forall q :: 0 <= q < j ==> m[i, q] == 0
      {
        m[i, j] := 0;
      }
    }
  }

  /** The loop reading the existence genes into the diagonal. */
  method ReadUnits(m: array2<int>, g: Genome<DKey>, a: AnnFields, prune: bool)
    requires Sizes(a) && m.Length0 == m.Length1 == TotalUnits(a) && Readable(g, a, prune)
    requires forall i, j :: 0 <= i < m.Length0 && 0 <= j < m.Length1 ==> m[i, j] == 0
    modifies m
    ensures forall i, j :: 0 <= i < m.Length0 && 0 <= j < m.Length1 ==>
      m[i, j] == if i == j then UnitEntry(g, a, prune, i) else 0
  {
    var n := m.Length0;
    for i := 0 to n - a.outputs
      invariant forall p, q :: 0 <= p < n && 0 <= q < n ==>
        m[p, q] == if p == q && p < i then UnitEntry(g, a, prune, p) else 0
    {
      if i >= a.inputs || prune {
        m[i, i] := Bit01(g[E(i)].on);
      }
    }
  }

  /** The nested loops setting the entry of every forward pair whose
      target is not an input and whose gene is set. */
  method ReadWeights(m: array2<int>, g: Genome<DKey>, a: AnnFields, prune: bool)
    requires Sizes(a) && m.Length0 == m.Length1 == TotalUnits(a) && Readable(g, a, prune)
    requires forall i, j :: 0 <= i < m.Length0 && 0 <= j < m.Length1 ==>
      m[i, j] == if i == j then UnitEntry(g, a, prune, i) else 0
    modifies m
    ensures forall i, j :: 0 <= i < m.Length0 && 0 <= j < m.Length1 ==> m[i, j] == Entry(g, a, prune, false, i, j)
  {
    var n := m.Length0;
    for i := 0 to n - a.outputs
      invariant forall p, q :: 0 <= p < n && 0 <= q < n ==>
        m[p, q] == if p == q then UnitEntry(g, a, prune, p) else if p < i then WeightEntry(g, a, p, q) else 0
    {
      var j := i + 1;
      while j < n
        invariant i + 1 <= j <= n
        invariant forall p, q :: 0 <= p < n && 0 <= q < n ==>
          m[p, q] == if p == q then UnitEntry(g, a, prune, p)
                     else if p < i || (p == i && q < j) then WeightEntry(g, a, p, q) else 0
        decreases n - j
      {
        if j >= a.inputs {
          if g[W(i, j)].on {
            m[i, j] := 1;
          }
        }
        j := j + 1;
      }
    }
  }

  /** The loop setting the output diagonal to 1. */
  method EnableOutputs(m: array2<int>, g: Genome<DKey>, a: AnnFields, prune: bool)
    requires Sizes(a) && m.Length0 == m.Length1 == TotalUnits(a)
    requires forall i, j :: 0 <= i < m.Length0 && 0 <= j < m.Length1 ==> m[i, j] == Entry(g, a, prune, false, i, j)
    modifies m
    ensures forall i, j :: 0 <= i < m.Length0 && 0 <= j < m.Length1 ==> m[i, j] == Entry(g, a, prune, true, i, j)
  {
    var n := m.Length0;
    for i := n - a.outputs to n
      invariant forall p, q :: 0 <= p < n && 0 <= q < n ==>
        m[p, q] == if p == q && p < i then Entry(g, a, prune, true, p, q) else Entry(g, a, prune, false, p, q)
    {
      m[i, i] := 1;
    }
  }

  /** The counting loops of `execute`: every entry the statistic ranges
      over is added to `conns`, and one to `totconns`. */
  method CountEntries(m: array2<int>, inputs: int, outputs: int) returns (conns: int, totconns: int)
    requires m.Length0 == m.Length1 && 0 <= inputs && 0 <= outputs && Bits(Contents(m))
    ensures Counted(Contents(m), m.Length0, inputs, outputs, conns, totconns)
    ensures 0 <= conns <= totconns
  {
    ghost var f := Contents(m);
    var n := m.Length0;
    conns, totconns := 0, 0;
    var i := 0;
    while i < n - outputs
      invariant 0 <= i && (i <= n - outputs || i == 0)
      invariant totconns == |StatPairs(n, inputs, i)| && conns == Ones(f, StatPairs(n, inputs, i))
    {
      RowCounted(f, n, inputs, i);
      conns, totconns := CountRowEntries(m, f, inputs, i, conns, totconns);
      i := i + 1;
    }
  }

  /** Counting entry (i, j) of a 0/1 matrix adds the entry itself. */
  lemma EntryCounted(f: Matrix, n: nat, i: int, lo: int, j: int)
    requires IsMatrix(f, n, n) && Bits(f) && 0 <= i < n && lo <= j < n && 0 <= j
    ensures RowPairs(i, lo, j + 1) == RowPairs(i, lo, j) + [(i, j)]
    ensures Ones(f, RowPairs(i, lo, j + 1)) == Ones(f, RowPairs(i, lo, j)) + f[i][j]
  {
    OnesAppend(f, RowPairs(i, lo, j), (i, j));
    assert f[i][j] == 0 || f[i][j] == 1;
  }

  /** The inner loop of the statistic, over row i. */
  method CountRowEntries(m: array2<int>, ghost f: Matrix, inputs: int, i: int, c0: int, t0: int)
    returns (conns: int, totconns: int)
    requires f == Contents(m) && Bits(f) && m.Length0 == m.Length1 && 0 <= i < m.Length0 && 0 <= inputs
    ensures totconns == t0 + |RowPairs(i, Low(i, inputs), m.Length0)|
    ensures conns == c0 + Ones(f, RowPairs(i, Low(i, inputs), m.Length0))
  {
    var n := m.Length0;
    var lo := if i >= inputs then i + 1 else inputs;
    conns, totconns := c0, t0;
    var j := lo;
    while j < n
      invariant lo <= j && (j <= n || j == lo)
      invariant totconns == t0 + |RowPairs(i, lo, j)| && conns == c0 + Ones(f, RowPairs(i, lo, j))
      decreases n - j
    {
      EntryCounted(f, n, i, lo, j);
      assert f[i][j] == m[i, j];
      totconns := totconns + 1;
      conns := conns + m[i, j];
      j := j + 1;
    }
    if lo > n {
      assert RowPairs(i, lo, j) == [] == RowPairs(i, lo, n);
    }
  }

  /** The loop enabling each unit from its diagonal and connecting an
      existing unit to every later existing unit whose entry is set. */
  method ConnectUnits(m: array2<int>) returns (net: Network)
    requires m.Length0 == m.Length1
    ensures net == MatrixNet(Contents(m), m.Length0)
  {
    var n := m.Length0;
    ghost var f := Contents(m);
    net := Fresh(n);
    for i := 0 to n
      invariant |net.enabled| == n && net.edges == NetEdges(f, n, i)
      invariant forall p :: 0 <= p < n ==> net.enabled[p] == (p >= i || f[p][p] != 0)
    {
      net := Enable(net, i, m[i, i] != 0);
      if m[i, i] != 0 {
        net := ConnectRow(m, f, i, net);
      }
    }
    assert net.enabled == MatrixNet(f, n).enabled;
  }

  /** The connections of an existing unit i to the later existing units
      whose entry is set, appended in column order. */
  method ConnectRow(m: array2<int>, ghost f: Matrix, i: nat, net0: Network) returns (net: Network)
    requires m.Length0 == m.Length1 && f == Contents(m) && i < m.Length0
    ensures net.enabled == net0.enabled
    ensures net.edges == net0.edges + RowEdges(f, m.Length0, i, i + 1, m.Length0)
  {
    var n := m.Length0;
    net := net0;
    var j := i + 1;
    while j < n
      invariant i + 1 <= j <= n
      invariant net.enabled == net0.enabled
      invariant net.edges == net0.edges + RowEdges(f, n, i, i + 1, j)
      decreases n - j
    {
      if m[j, j] != 0 && m[i, j] != 0 {
        net := Connect(net, i, j);
      }
      j := j + 1;
    }
  }

  /** The loops appending '1' or '0' per entry and '\n' per row. */
  method DescribeMatrix(m: array2<int>) returns (desc: string)
    requires m.Length0 == m.Length1
    ensures desc == Describe(Contents(m), m.Length0, m.Length0)
  {
    var n := m.Length0;
    ghost var f := Contents(m);
    desc := [];
    for i := 0 to n
      invariant desc == Describe(f, n, i)
    {
      for j := 0 to n
        invariant desc == Describe(f, n, i) + DescRow(f[i])[..j]
      {
        assert DescRow(f[i])[..j + 1] == DescRow(f[i])[..j] + [if f[i][j] != 0 then '1' else '0'];
        desc := desc + [if m[i, j] != 0 then '1' else '0'];
      }
      assert DescRow(f[i])[..n] == DescRow(f[i]);
      desc := desc + ['\n'];
    }
  }

  /** An absent "MillerEncoding.pruneInputs" reads as 0: inputs are then
      not pruned and have no existence genes. */
  lemma PruneInputsAbsent(params: StringMap, a: AnnFields)
    requires "MillerEncoding.pruneInputs" !in params
    ensures Atoi(Get(params, "MillerEncoding.pruneInputs")) == 0
    ensures forall i :: 0 <= i < a.inputs ==> E(i) !in Keys(MillerGenes(a, false, Rows(a)))
  {
    MillerGenesKeys(a, false, Rows(a));
  }
}
