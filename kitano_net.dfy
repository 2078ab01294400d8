/** From the decoded connection matrix of Kitano's grammar to a network
    (src/kitano.cc, `execute` and `makeNet`): the connection-density
    counts, the forced output diagonal, the text picture of the matrix,
    and the units and connections the matrix describes. */
module KitanoNet {
  import opened Common
  import opened Networks
  import opened KitanoGrammar
  import opened Matrices

  // ---------------------------------------------------------------------
  // makeNet

  /** The copy of the matrix with the diagonal entry of every unit at or
      after `from` set to 1. */
  function ForceOutputs(f: Matrix, n: nat, from: int): (r: Matrix)
    requires IsMatrix(f, n, n)
    ensures IsMatrix(r, n, n)
    ensures forall i, j :: 0 <= i < n && 0 <= j < n ==> r[i][j] == if i == j && i >= from then 1 else f[i][j]
    ensures Alphabet(f) ==> Alphabet(r)
  {
    seq(n, i requires 0 <= i < n => seq(n, j requires 0 <= j < n => if i == j && i >= from then 1 else f[i][j]))
  }

  /** The character `makeNet` draws for a resolved entry. */
  function Glyph(v: int): char
    requires InAlphabet(v)
  {
    if v == 0 then '0' else if v == 1 then '1' else if v == VOIDAREA then ' ' else 'x'
  }

  function RowPicture(row: seq<int>): (s: string)
    requires forall j :: 0 <= j < |row| ==> InAlphabet(row[j])
    ensures |s| == |row| && forall j :: 0 <= j < |row| ==> s[j] == Glyph(row[j])
  {
    seq(|row|, j requires 0 <= j < |row| => Glyph(row[j]))
  }

  /** Rows 0..k-1 of the picture, each followed by a newline. */
  function Picture(f: Matrix, n: nat, k: nat): string
    requires IsMatrix(f, n, n) && Alphabet(f) && k <= n
  {
    if k == 0 then [] else Picture(f, n, k - 1) + RowPicture(f[k - 1]) + ['\n']
  }

  /** The picture has rows * (rows + 1) characters. */
  lemma {:induction false} PictureLength(f: Matrix, n: nat, k: nat)
    requires IsMatrix(f, n, n) && Alphabet(f) && k <= n
    ensures |Picture(f, n, k)| == k * (n + 1)
  {
    if k > 0 {
      PictureLength(f, n, k - 1);
    }
  }

  /** A picture of fewer rows is the start of one of more rows. */
  lemma {:induction false} PicturePrefix(f: Matrix, n: nat, i: nat, k: nat)
    requires IsMatrix(f, n, n) && Alphabet(f) && i <= k <= n
    ensures Picture(f, n, i) <= Picture(f, n, k)
    decreases k
  {
    if i < k {
      PicturePrefix(f, n, i, k - 1);
    }
  }

  /** Character j of line i is the glyph of entry (i, j); the line ends
      with a newline. */
  lemma PictureAt(f: Matrix, n: nat, k: nat, i: nat, j: nat)
    requires IsMatrix(f, n, n) && Alphabet(f) && k <= n && i < k && j <= n
    ensures i * (n + 1) + j < |Picture(f, n, k)|
    ensures Picture(f, n, k)[i * (n + 1) + j] == if j < n then Glyph(f[i][j]) else '\n'
  {
    PictureLength(f, n, i);
    PicturePrefix(f, n, i + 1, k);
    var start := |Picture(f, n, i)|;
    assert start == i * (n + 1);
    var line := Picture(f, n, i + 1);
    assert line == Picture(f, n, i) + RowPicture(f[i]) + ['\n'];
    assert line[start + j] == if j < n then Glyph(f[i][j]) else '\n';
  }

  /** The connections `makeNet` makes from an enabled unit i: to every
      j in lo..hi-1 past i whose entry is 1, in order. */
  function RowEdges(f: Matrix, n: nat, i: nat, lo: int, hi: int): seq<Edge>
    requires IsMatrix(f, n, n) && i < n && hi <= n
    decreases hi - lo
  {
    if hi <= lo then []
    else RowEdges(f, n, i, lo, hi - 1) + if i < hi - 1 && f[i][hi - 1] == 1 then [(i, hi - 1)] else []
  }

  /** The connections of units 0..k-1: a unit whose diagonal is not 1
      makes none, the others theirs to the non-input units. */
  function NetEdges(f: Matrix, n: nat, inputs: int, k: nat): seq<Edge>
    requires IsMatrix(f, n, n) && k <= n
  {
    if k == 0 then []
    else NetEdges(f, n, inputs, k - 1) + if f[k - 1][k - 1] == 1 then RowEdges(f, n, k - 1, inputs, n) else []
  }

  /** The network a (forced) connection matrix describes. */
  function MatrixNet(f: Matrix, n: nat, inputs: int): (net: Network)
    requires IsMatrix(f, n, n)
    ensures |net.enabled| == n && forall i :: 0 <= i < n ==> net.enabled[i] == (f[i][i] == 1)
  {
    Network(seq(n, i requires 0 <= i < n => f[i][i] == 1), NetEdges(f, n, inputs, n))
  }

  /** The edge rule: i -> j is a connection iff the diagonal of i is 1,
      j is not an input, i < j and entry (i, j) is 1. The diagonal of j
      is not consulted. */
  lemma {:induction false} NetEdgesMembers(f: Matrix, n: nat, inputs: int, k: nat)
    requires IsMatrix(f, n, n) && k <= n
    ensures forall e :: e in NetEdges(f, n, inputs, k) <==>
      0 <= e.0 < k && inputs <= e.1 < n && e.0 < e.1 && f[e.0][e.0] == 1 && f[e.0][e.1] == 1
    ensures Distinct(NetEdges(f, n, inputs, k))
    decreases k
  {
    if k > 0 {
      NetEdgesMembers(f, n, inputs, k - 1);
      var a := NetEdges(f, n, inputs, k - 1);
      var b := if f[k - 1][k - 1] == 1 then RowEdges(f, n, k - 1, inputs, n) else [];
      RowEdgesDistinct(f, n, k - 1, inputs, n);
      assert NetEdges(f, n, inputs, k) == a + b;
      DistinctConcat(a, b);
    }
  }

  /** The connections of unit i: to each j in lo..hi-1 past i whose entry is 1, once. */
  lemma {:induction false} RowEdgesDistinct(f: Matrix, n: nat, i: nat, lo: int, hi: int)
    requires IsMatrix(f, n, n) && i < n && hi <= n
    ensures forall e :: e in RowEdges(f, n, i, lo, hi) <==> e.0 == i && lo <= e.1 < hi && i < e.1 && f[i][e.1] == 1
    ensures Distinct(RowEdges(f, n, i, lo, hi))
    decreases hi - lo
  {
    if hi > lo {
      RowEdgesDistinct(f, n, i, lo, hi - 1);
      if i < hi - 1 && f[i][hi - 1] == 1 {
        DistinctAppend(RowEdges(f, n, i, lo, hi - 1), (i, hi - 1));
      }
    }
  }

  /** The network of a matrix joins units of the network, only forward,
      never into an input unit and never twice; every connection leaves
      an enabled unit. */
  lemma MatrixNetShape(f: Matrix, n: nat, inputs: int)
    requires IsMatrix(f, n, n) && inputs >= 0
    ensures InRange(MatrixNet(f, n, inputs)) && FeedForward(MatrixNet(f, n, inputs))
    ensures NoSelfLoops(MatrixNet(f, n, inputs)) && NoDuplicateEdges(MatrixNet(f, n, inputs))
    ensures forall e :: e in MatrixNet(f, n, inputs).edges ==> e.1 >= inputs && MatrixNet(f, n, inputs).enabled[e.0]
  {
    NetEdgesMembers(f, n, inputs, n);
  }

  /** After forcing, every output unit (the last `outputs` units) is
      enabled. */
  lemma OutputsEnabled(f: Matrix, n: nat, inputs: int, outputs: int, i: int)
    requires IsMatrix(f, n, n) && n - outputs <= i < n && 0 <= i
    ensures MatrixNet(ForceOutputs(f, n, n - outputs), n, inputs).enabled[i]
  {
  }

  /** A connection may lead to a disabled unit: in the 2 x 2 matrix with
      entries 1 1 / 0 0 and no inputs, unit 1 is disabled and yet
      receives the connection 0 -> 1. */
  lemma TargetNotChecked()
    ensures var net := MatrixNet([[1, 1], [0, 0]], 2, 0);
      (0, 1) in net.edges && !net.enabled[1] && !BetweenEnabled(net)
  {
    var f: Matrix := [[1, 1], [0, 0]];
    NetEdgesMembers(f, 2, 0, 2);
    assert (0, 1) in NetEdges(f, 2, 0, 2);
  }

  /** The picture and the network of the n x n matrix f once the
      diagonal of its last `outputs` units is forced to 1. */
  predicate MadeNet(f: Matrix, n: nat, inputs: int, outputs: int, net: Network, pic: string)
    requires IsMatrix(f, n, n) && Alphabet(f)
  {
    var forced := ForceOutputs(f, n, n - outputs);
    pic == Picture(forced, n, n) && net == MatrixNet(forced, n, inputs)
  }

  /** The network `makeNet` builds has one unit per row, the last
      `outputs` of them enabled, and the shape of `MatrixNetShape`. */
  lemma MadeNetShape(f: Matrix, n: nat, inputs: int, outputs: int, net: Network, pic: string)
    requires IsMatrix(f, n, n) && Alphabet(f) && 0 <= inputs && 0 <= outputs
    requires MadeNet(f, n, inputs, outputs, net, pic)
    ensures |net.enabled| == n
    ensures forall i :: n - outputs <= i < n && 0 <= i ==> net.enabled[i]
    ensures InRange(net) && FeedForward(net) && NoDuplicateEdges(net)
    ensures forall e :: e in net.edges ==> e.1 >= inputs && 0 <= e.0 < |net.enabled| && net.enabled[e.0]
  {
    var forced := ForceOutputs(f, n, n - outputs);
    MatrixNetShape(forced, n, inputs);
    forall i | n - outputs <= i < n && 0 <= i
      ensures net.enabled[i]
    {
      OutputsEnabled(f, n, inputs, outputs, i);
    }
  }

  /** `makeNet` on the matrix of a decoded genome: on a copy of it, the
      output diagonal is forced to 1; the picture of that copy is drawn
      and its network built. The argument itself is left unchanged. */
  method MakeNet(connmatPar: array2<int>, inputs: int, outputs: int) returns (net: Network, pic: string)
    requires connmatPar.Length0 == connmatPar.Length1 && connmatPar.Length0 != 0
    requires 0 <= inputs && 0 <= outputs && connmatPar.Length0 > inputs + outputs
    requires Alphabet(Contents(connmatPar))
    ensures MadeNet(Contents(connmatPar), connmatPar.Length0, inputs, outputs, net, pic)
  {
    var n := connmatPar.Length0;
    var connmat := Contents(connmatPar);
    var hiddens := n - (inputs + outputs);
    connmat := ForceDiagonal(connmat, n, inputs + hiddens);
    pic := DrawPicture(connmat, n);
    net := ConnectUnits(connmat, n, inputs);
  }

  /** The loop forcing the diagonal of the units from..n-1 to 1. */
  method ForceDiagonal(f: Matrix, n: nat, from: nat) returns (r: Matrix)
    requires IsMatrix(f, n, n) && Alphabet(f) && from <= n
    ensures r == ForceOutputs(f, n, from) && Alphabet(r)
  {
    r := f;
    for i := from to n
      invariant IsMatrix(r, n, n)
      invariant forall p, q :: 0 <= p < n && 0 <= q < n ==> r[p][q] == if p == q && from <= p < i then 1 else f[p][q]
    {
      r := r[i := r[i][i := 1]];
    }
    MatrixExt(r, ForceOutputs(f, n, from), n, n);
  }

  /** The loops appending one character per entry and a newline per row. */
  method DrawPicture(f: Matrix, n: nat) returns (pic: string)
    requires IsMatrix(f, n, n) && Alphabet(f)
    ensures pic == Picture(f, n, n)
  {
    pic := [];
    for i := 0 to n
      invariant pic == Picture(f, n, i)
    {
      var row := f[i];
      for j := 0 to n
        invariant pic == Picture(f, n, i) + RowPicture(row)[..j]
      {
        assert RowPicture(row)[..j + 1] == RowPicture(row)[..j] + [Glyph(row[j])];
        var v := row[j];
        if v == 0 {
          pic := pic + ['0'];
        } else if v == 1 {
          pic := pic + ['1'];
        } else if v == VOIDAREA {
          pic := pic + [' '];
        } else {
          pic := pic + ['x'];
        }
      }
      assert RowPicture(row)[..n] == RowPicture(row);
      pic := pic + ['\n'];
    }
  }

  /** The loop over the units: a unit whose diagonal is not 1 is
      disabled, the others are connected to their targets. */
  method ConnectUnits(f: Matrix, n: nat, inputs: int) returns (net: Network)
    requires IsMatrix(f, n, n) && 0 <= inputs <= n
    ensures net == MatrixNet(f, n, inputs)
  {
    net := Fresh(n);
    for i := 0 to n
      invariant |net.enabled| == n && net.edges == NetEdges(f, n, inputs, i)
      invariant forall p :: 0 <= p < n ==> net.enabled[p] == (p >= i || f[p][p] == 1)
    {
      if f[i][i] != 1 {
        net := Enable(net, i, false);
      } else {
        net := ConnectRow(f, n, inputs, i, net);
      }
    }
    assert net.enabled == MatrixNet(f, n, inputs).enabled;
  }

  /** The connections of an enabled unit i, appended in column order. */
  method ConnectRow(f: Matrix, n: nat, inputs: int, i: nat, net0: Network) returns (net: Network)
    requires IsMatrix(f, n, n) && i < n && 0 <= inputs <= n
    ensures net.enabled == net0.enabled && net.edges == net0.edges + RowEdges(f, n, i, inputs, n)
  {
    net := net0;
    var j := inputs;
    while j < n
      invariant inputs <= j <= n
      invariant net.enabled == net0.enabled
      invariant net.edges == net0.edges + RowEdges(f, n, i, inputs, j)
      decreases n - j
    {
      if i < j && f[i][j] == 1 {
        net := Connect(net, i, j);
      }
      j := j + 1;
    }
  }
}
