/** Square connection matrices as the matrix encodings keep them in a
    `PackTable`, and the connection-density statistic their `execute`
    computes over a matrix (src/kitano.cc:122-130,
    src/puredirect.cc:160-168). */
module Matrices {
  import opened Common
  import opened Networks

  type Matrix = seq<seq<int>>

  predicate IsMatrix(m: Matrix, rows: nat, cols: nat) {
    |m| == rows && forall i :: 0 <= i < rows ==> |m[i]| == cols
  }

  /** Two matrices of the same shape that agree everywhere are equal. */
  lemma MatrixExt(a: Matrix, b: Matrix, rows: nat, cols: nat)
    requires IsMatrix(a, rows, cols) && IsMatrix(b, rows, cols)
    requires forall i, j :: 0 <= i < rows && 0 <= j < cols ==> a[i][j] == b[i][j]
    ensures a == b
  {
    forall i | 0 <= i < rows ensures a[i] == b[i] {
    }
  }

  /** The values held in a `PackTable`. */
  function Contents(a: array2<int>): (m: Matrix)
    reads a
    ensures IsMatrix(m, a.Length0, a.Length1)
    ensures forall i, j :: 0 <= i < a.Length0 && 0 <= j < a.Length1 ==> m[i][j] == a[i, j]
  {
    seq(a.Length0, i requires 0 <= i < a.Length0 reads a =>
      seq(a.Length1, j requires 0 <= j < a.Length1 reads a => a[i, j]))
  }

  /** A table holds m when it agrees with m everywhere. */
  lemma ContentsEqual(a: array2<int>, m: Matrix)
    requires IsMatrix(m, a.Length0, a.Length1)
    requires forall i, j :: 0 <= i < a.Length0 && 0 <= j < a.Length1 ==> a[i, j] == m[i][j]
    ensures Contents(a) == m
  {
    MatrixExt(Contents(a), m, a.Length0, a.Length1);
  }

  // ---------------------------------------------------------------------
  // Connection-density statistic of `execute`

  /** First column counted in row i: past the diagonal for a non-input
      row, the first non-input column for an input row. */
  function Low(i: int, inputs: int): int {
    if i >= inputs then i + 1 else inputs
  }

  /** The pairs (i, j) for lo <= j < hi, in order. */
  function RowPairs(i: int, lo: int, hi: int): seq<Edge>
    decreases hi - lo
  {
    if hi <= lo then [] else RowPairs(i, lo, hi - 1) + [(i, hi - 1)]
  }

  /** The pairs the statistic ranges over in rows 0..k-1 of an n x n matrix. */
  function StatPairs(n: int, inputs: int, k: int): (ps: seq<Edge>)
    decreases k
  {
    if k <= 0 then [] else StatPairs(n, inputs, k - 1) + RowPairs(k - 1, Low(k - 1, inputs), n)
  }

  /** The number of pairs whose matrix entry is 1. */
  function Ones(f: Matrix, ps: seq<Edge>): (c: nat)
    ensures c <= |ps|
  {
    if |ps| == 0 then 0
    else
      var p := ps[|ps| - 1];
      Ones(f, ps[..|ps| - 1]) + if 0 <= p.0 < |f| && 0 <= p.1 < |f[p.0]| && f[p.0][p.1] == 1 then 1 else 0
  }

  lemma OnesAppend(f: Matrix, ps: seq<Edge>, p: Edge)
    ensures Ones(f, ps + [p]) == Ones(f, ps) + if 0 <= p.0 < |f| && 0 <= p.1 < |f[p.0]| && f[p.0][p.1] == 1 then 1 else 0
  {
    assert (ps + [p])[..|ps|] == ps;
  }

  /** The statistic counts exactly the pairs (i, j) with i < rows - outputs
      and Low(i) <= j < rows, each once. */
  lemma {:induction false} StatPairsMembers(n: int, inputs: int, k: int)
    ensures forall p :: p in StatPairs(n, inputs, k) <==> 0 <= p.0 < k && Low(p.0, inputs) <= p.1 < n
    ensures Distinct(StatPairs(n, inputs, k))
    decreases k
  {
    if k > 0 {
      StatPairsMembers(n, inputs, k - 1);
      var a := StatPairs(n, inputs, k - 1);
      var b := RowPairs(k - 1, Low(k - 1, inputs), n);
      RowPairsDistinct(k - 1, Low(k - 1, inputs), n);
      DistinctConcat(a, b);
    }
  }

  /** Row i of the statistic: the pairs (i, j) for lo <= j < hi, each once. */
  lemma {:induction false} RowPairsDistinct(i: int, lo: int, hi: int)
    ensures forall p :: p in RowPairs(i, lo, hi) <==> p.0 == i && lo <= p.1 < hi
    ensures Distinct(RowPairs(i, lo, hi))
    decreases hi - lo
  {
    if hi > lo {
      RowPairsDistinct(i, lo, hi - 1);
      DistinctAppend(RowPairs(i, lo, hi - 1), (i, hi - 1));
    }
  }

  /** totconns is the number of pairs the statistic ranges over in an
      n x n matrix f, conns the number of those whose entry is 1. */
  predicate Counted(f: Matrix, n: int, inputs: int, outputs: int, conns: int, totconns: int) {
    totconns == |StatPairs(n, inputs, n - outputs)| && conns == Ones(f, StatPairs(n, inputs, n - outputs))
  }

  /** The two counters of `execute`: totconns counts the pairs, conns
      those whose entry is 1; hence 0 <= conns <= totconns. */
  method Statistics(connmat: array2<int>, inputs: int, outputs: int) returns (conns: int, totconns: int)
    requires connmat.Length0 == connmat.Length1 && 0 <= inputs && 0 <= outputs
    ensures Counted(Contents(connmat), connmat.Length0, inputs, outputs, conns, totconns)
    ensures 0 <= conns <= totconns
  {
    ghost var f := Contents(connmat);
    var n := connmat.Length0;
    conns, totconns := 0, 0;
    var i := 0;
    while i < n - outputs
      invariant 0 <= i && (i <= n - outputs || i == 0)
      invariant totconns == |StatPairs(n, inputs, i)| && conns == Ones(f, StatPairs(n, inputs, i))
    {
      RowCounted(f, n, inputs, i);
      conns, totconns := CountRow(connmat, f, inputs, i, conns, totconns);
      i := i + 1;
    }
  }

  /** The inner loop of the statistic, over row i. */
  method CountRow(connmat: array2<int>, ghost f: Matrix, inputs: int, i: int, c0: int, t0: int)
    returns (conns: int, totconns: int)
    requires f == Contents(connmat) && connmat.Length0 == connmat.Length1 && 0 <= i < connmat.Length0 && 0 <= inputs
    ensures totconns == t0 + |RowPairs(i, Low(i, inputs), connmat.Length0)|
    ensures conns == c0 + Ones(f, RowPairs(i, Low(i, inputs), connmat.Length0))
  {
    var n := connmat.Length0;
    var lo := Low(i, inputs);
    conns, totconns := c0, t0;
    var j := lo;
    while j < n
      invariant lo <= j && (j <= n || j == lo)
      invariant totconns == t0 + |RowPairs(i, lo, j)| && conns == c0 + Ones(f, RowPairs(i, lo, j))
      decreases n - j
    {
      OnesAppend(f, RowPairs(i, lo, j), (i, j));
      assert RowPairs(i, lo, j + 1) == RowPairs(i, lo, j) + [(i, j)];
      assert f[i][j] == connmat[i, j];
      if connmat[i, j] == 1 {
        conns := conns + 1;
      }
      totconns := totconns + 1;
      j := j + 1;
    }
    if lo > n {
      assert RowPairs(i, lo, j) == [] == RowPairs(i, lo, n);
    }
  }

  /** Counting row i adds its pairs and its ones to the counts so far. */
  lemma RowCounted(f: Matrix, n: int, inputs: int, i: int)
    requires 0 <= i
    ensures |StatPairs(n, inputs, i + 1)| == |StatPairs(n, inputs, i)| + |RowPairs(i, Low(i, inputs), n)|
    ensures Ones(f, StatPairs(n, inputs, i + 1)) == Ones(f, StatPairs(n, inputs, i)) + Ones(f, RowPairs(i, Low(i, inputs), n))
  {
    var row := RowPairs(i, Low(i, inputs), n);
    OnesConcat(f, StatPairs(n, inputs, i), row);
    assert StatPairs(n, inputs, i + 1) == StatPairs(n, inputs, i) + row;
  }

  lemma {:induction false} RowPairsLength(i: int, lo: int, hi: int)
    ensures |RowPairs(i, lo, hi)| == if hi <= lo then 0 else hi - lo
    decreases hi - lo
  {
    if hi > lo {
      RowPairsLength(i, lo, hi - 1);
    }
  }

  lemma {:induction false} OnesConcat(f: Matrix, a: seq<Edge>, b: seq<Edge>)
    ensures Ones(f, a + b) == Ones(f, a) + Ones(f, b)
    decreases |b|
  {
    if |b| > 0 {
      var b' := b[..|b| - 1];
      assert (a + b)[..|a + b| - 1] == a + b';
      OnesConcat(f, a, b');
    } else {
      assert a + b == a;
    }
  }
}
