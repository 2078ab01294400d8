/** Kitano's graph-generation grammar (src/kitano.cc): the rule table
    read from the genome and the recursive rewriting of the 1x1 axiom
    into a connection matrix. Symbols 0..15 are terminals, 16.. are
    nonterminals; negative entries are the sentinel values below. */
module KitanoGrammar {
  import opened Common
  import opened Matrices

  /** The exceptional values of the rewriting matrix (include/annalee/kitano.h:85). */
  const VOIDAREA: int := -1
  const FINALZERO: int := -2
  const FINALONE: int := -3
  const UNRESOLVED: int := -4

  const TERMINALS: int := 16

  /** Gene "R<rule>-<part>": part 0 is a rule's left-hand side, parts
      1..4 its right-hand side. */
  datatype Key = R(rule: int, part: int)


  // ---------------------------------------------------------------------
  // The rule table

  /** Bit j of i, as `i & (1 << j)` tests it. */
  predicate BitSet(i: nat, j: nat) {
    if j == 0 then i % 2 == 1 else BitSet(i / 2, j - 1)
  }

  /** Right-hand side entry j of terminal i. */
  function TerminalRule(i: nat, j: nat): int {
    if BitSet(i, j) then FINALONE else FINALZERO
  }

  /** The table before the genome is read: terminal rows hold their
      bit pattern, nonterminal rows are void. */
  function InitialRules(n: nat): (t: Matrix)
    ensures IsMatrix(t, TERMINALS + n, 4)
  {
    seq(TERMINALS + n, i requires 0 <= i =>
      seq(4, j requires 0 <= j => if i < TERMINALS then TerminalRule(i, j) else VOIDAREA))
  }

  /** The rule genes of rows 16..15+n exist and name symbols of the
      table: left-hand sides are nonterminals, right-hand sides any
      symbol. */
  predicate RuleGenes(g: Genome<Key>, n: nat) {
    forall i :: TERMINALS <= i < TERMINALS + n ==> RuleGenesAt(g, n, i)
  }

  predicate RuleGenesAt(g: Genome<Key>, n: nat, i: int) {
    && (i != TERMINALS ==> HasInt(g, R(i, 0)) && TERMINALS <= IntOf(g, R(i, 0)) < TERMINALS + n)
    && SymbolGene(g, n, R(i, 1)) && SymbolGene(g, n, R(i, 2))
    && SymbolGene(g, n, R(i, 3)) && SymbolGene(g, n, R(i, 4))
  }

  predicate SymbolGene(g: Genome<Key>, n: nat, k: Key) {
    HasInt(g, k) && 0 <= IntOf(g, k) < TERMINALS + n
  }

  /** Left-hand side of rule i; the first rule's is fixed to 16. */
  function Lhs(g: Genome<Key>, n: nat, i: int): (r: int)
    requires RuleGenes(g, n) && TERMINALS <= i < TERMINALS + n
    ensures TERMINALS <= r < TERMINALS + n
  {
    assert RuleGenesAt(g, n, i);
    if i == TERMINALS then TERMINALS else IntOf(g, R(i, 0))
  }

  function RuleRow(g: Genome<Key>, n: nat, i: int): (row: seq<int>)
    requires RuleGenes(g, n) && TERMINALS <= i < TERMINALS + n
    ensures |row| == 4 && forall j :: 0 <= j < 4 ==> 0 <= row[j] < TERMINALS + n
  {
    assert RuleGenesAt(g, n, i);
    [IntOf(g, R(i, 1)), IntOf(g, R(i, 2)), IntOf(g, R(i, 3)), IntOf(g, R(i, 4))]
  }

  /** The table once rules 16..k-1 of the genome have been read, each
      overwriting the row of its left-hand side. */
  function ReadRules(g: Genome<Key>, n: nat, k: int): (t: Matrix)
    requires RuleGenes(g, n) && TERMINALS <= k <= TERMINALS + n
    ensures IsMatrix(t, TERMINALS + n, 4)
    decreases k
  {
    if k == TERMINALS then InitialRules(n)
    else ReadRules(g, n, k - 1)[Lhs(g, n, k - 1) := RuleRow(g, n, k - 1)]
  }

  function Rules(g: Genome<Key>, n: nat): Matrix
    requires RuleGenes(g, n)
  {
    ReadRules(g, n, TERMINALS + n)
  }

  /** A rule table over `|t|` symbols: four entries per row, each a
      sentinel or a symbol of the table. */
  predicate RuleTable(t: Matrix) {
    IsMatrix(t, |t|, 4) && forall i, j :: 0 <= i < |t| && 0 <= j < 4 ==> t[i][j] < |t|
  }

  /** The last rule before k whose left-hand side is r, if any. */
  function LastWriter(g: Genome<Key>, n: nat, r: int, k: int): (w: Option<int>)
    requires RuleGenes(g, n) && TERMINALS <= k <= TERMINALS + n
    ensures w.Some? ==> TERMINALS <= w.value < k && Lhs(g, n, w.value) == r
    decreases k
  {
    if k == TERMINALS then None
    else if Lhs(g, n, k - 1) == r then Some(k - 1)
    else LastWriter(g, n, r, k - 1)
  }

  /** Each row of the table read so far is the right-hand side of the
      last rule naming it, or its initial row when none did. */
  lemma {:induction false} ReadRulesRow(g: Genome<Key>, n: nat, k: int, r: int)
    requires RuleGenes(g, n) && TERMINALS <= k <= TERMINALS + n && 0 <= r < TERMINALS + n
    ensures ReadRules(g, n, k)[r] ==
      match LastWriter(g, n, r, k)
      case Some(w) => RuleRow(g, n, w)
      case None => InitialRules(n)[r]
    decreases k
  {
    if k > TERMINALS {
      ReadRulesRow(g, n, k - 1, r);
    }
  }

  /** The rule table: terminal i's row is its 4-bit pattern, row 16 and
      every other nonterminal row hold the right-hand side of the last
      genome rule with that left-hand side, or VOIDAREA if none has it;
      every entry is a sentinel or a symbol of the table. */
  lemma RulesTable(g: Genome<Key>, n: nat)
    requires RuleGenes(g, n) && n >= 1
    ensures IsMatrix(Rules(g, n), TERMINALS + n, 4) && RuleTable(Rules(g, n))
    ensures forall i, j :: 0 <= i < TERMINALS && 0 <= j < 4 ==> Rules(g, n)[i][j] == TerminalRule(i, j)
    ensures forall r :: TERMINALS <= r < TERMINALS + n && LastWriter(g, n, r, TERMINALS + n).None? ==>
      Rules(g, n)[r] == [VOIDAREA, VOIDAREA, VOIDAREA, VOIDAREA]
    ensures forall r :: TERMINALS <= r < TERMINALS + n && LastWriter(g, n, r, TERMINALS + n).Some? ==>
      Rules(g, n)[r] == RuleRow(g, n, LastWriter(g, n, r, TERMINALS + n).value)
    ensures LastWriter(g, n, TERMINALS, TERMINALS + n).Some?
  {
    var t := Rules(g, n);
    forall r | 0 <= r < TERMINALS + n
      ensures t[r] == match LastWriter(g, n, r, TERMINALS + n)
                      case Some(w) => RuleRow(g, n, w)
                      case None => InitialRules(n)[r]
    {
      ReadRulesRow(g, n, TERMINALS + n, r);
    }
    var top := TERMINALS + n;
    forall r | 0 <= r < TERMINALS ensures LastWriter(g, n, r, top).None? {
      NoTerminalWriter(g, n, r, top);
    }
    FirstRuleWritten(g, n, TERMINALS + n);
    forall r | TERMINALS <= r < TERMINALS + n && LastWriter(g, n, r, TERMINALS + n).None?
      ensures t[r] == [VOIDAREA, VOIDAREA, VOIDAREA, VOIDAREA]
    {
      assert t[r] == InitialRules(n)[r];
    }
  }

  lemma {:induction false} NoTerminalWriter(g: Genome<Key>, n: nat, r: int, k: int)
    requires RuleGenes(g, n) && TERMINALS <= k <= TERMINALS + n && r < TERMINALS
    ensures LastWriter(g, n, r, k).None?
    decreases k
  {
    if k > TERMINALS {
      NoTerminalWriter(g, n, r, k - 1);
    }
  }

  lemma {:induction false} FirstRuleWritten(g: Genome<Key>, n: nat, k: int)
    requires RuleGenes(g, n) && TERMINALS < k <= TERMINALS + n
    ensures LastWriter(g, n, TERMINALS, k).Some?
    decreases k
  {
    if k > TERMINALS + 1 && Lhs(g, n, k - 1) != TERMINALS {
      FirstRuleWritten(g, n, k - 1);
    }
  }

  /** Each terminal's row spells the terminal's number in binary, least
      significant bit first. */
  lemma TerminalPattern(i: nat)
    requires i < TERMINALS
    ensures i == (if TerminalRule(i, 0) == FINALONE then 1 else 0)
               + (if TerminalRule(i, 1) == FINALONE then 2 else 0)
               + (if TerminalRule(i, 2) == FINALONE then 4 else 0)
               + (if TerminalRule(i, 3) == FINALONE then 8 else 0)
  {
    var i1, i2, i3 := i / 2, i / 2 / 2, i / 2 / 2 / 2;
    assert BitSet(i, 1) == BitSet(i1, 0);
    assert BitSet(i, 2) == BitSet(i1, 1) == BitSet(i2, 0);
    assert BitSet(i, 3) == BitSet(i1, 2) == BitSet(i2, 1) == BitSet(i3, 0);
  }

  /** Gene j of rule i is its left-hand side (j = 0) or entry j-1 of
      its right-hand side. */
  lemma RuleGene(g: Genome<Key>, n: nat, i: int, j: int)
    requires RuleGenes(g, n) && TERMINALS <= i < TERMINALS + n && 0 <= j < 5
    requires i != TERMINALS || j != 0
    ensures HasInt(g, R(i, j))
    ensures j == 0 ==> IntOf(g, R(i, j)) == Lhs(g, n, i)
    ensures j >= 1 ==> IntOf(g, R(i, j)) == RuleRow(g, n, i)[j - 1]
  {
    assert RuleGenesAt(g, n, i);
    if j == 0 {
    } else if j == 1 {
    } else if j == 2 {
    } else if j == 3 {
    } else {
    }
  }

  /** Building the rule table of `execute`: terminal rows, void
      nonterminal rows, then the genome's rules in order. */
  method BuildRules(g: Genome<Key>, n: nat) returns (rules: array2<int>)
    requires RuleGenes(g, n) && n >= 1
    ensures fresh(rules) && rules.Length0 == TERMINALS + n && rules.Length1 == 4
    ensures Contents(rules) == Rules(g, n)
  {
    rules := new int[TERMINALS + n, 4];
    SetDefaultRules(rules, n);
    ReadGenomeRules(rules, g, n);
  }

  /** The genome's rules in order, over the default rows. */
  method ReadGenomeRules(rules: array2<int>, g: Genome<Key>, n: nat)
    requires RuleGenes(g, n)
    requires rules.Length0 == TERMINALS + n && rules.Length1 == 4
    requires Contents(rules) == InitialRules(n)
    modifies rules
    ensures Contents(rules) == Rules(g, n)
  {
    for i := TERMINALS to TERMINALS + n
      invariant Contents(rules) == ReadRules(g, n, i)
    {
      ReadRule(rules, g, n, i);
    }
  }

  /** The terminal rows and the void nonterminal rows. */
  method SetDefaultRules(rules: array2<int>, n: nat)
    requires rules.Length0 == TERMINALS + n && rules.Length1 == 4
    modifies rules
    ensures Contents(rules) == InitialRules(n)
  {
    SetTerminalRules(rules, n);
    SetVoidRules(rules, n);
    ContentsEqual(rules, InitialRules(n));
  }

  /** Row i < 16 holds the bits of i. */
  method SetTerminalRules(rules: array2<int>, n: nat)
    requires rules.Length0 == TERMINALS + n && rules.Length1 == 4
    modifies rules
    ensures forall r, c :: 0 <= r < TERMINALS && 0 <= c < 4 ==> rules[r, c] == TerminalRule(r, c)
    ensures forall r, c :: TERMINALS <= r < TERMINALS + n && 0 <= c < 4 ==> rules[r, c] == old(rules[r, c])
  {
    for i := 0 to TERMINALS
      invariant forall r, c :: 0 <= r < i && 0 <= c < 4 ==> rules[r, c] == TerminalRule(r, c)
      invariant forall r, c :: TERMINALS <= r < TERMINALS + n && 0 <= c < 4 ==> rules[r, c] == old(rules[r, c])
    {
      for j := 0 to 4
        invariant forall r, c :: 0 <= r < i && 0 <= c < 4 ==> rules[r, c] == TerminalRule(r, c)
        invariant forall c :: 0 <= c < j ==> rules[i, c] == TerminalRule(i, c)
        invariant forall r, c :: TERMINALS <= r < TERMINALS + n && 0 <= c < 4 ==> rules[r, c] == old(rules[r, c])
      {
        rules[i, j] := TerminalRule(i, j);
      }
    }
  }

  /** Rows 16.. are void. */
  method SetVoidRules(rules: array2<int>, n: nat)
    requires rules.Length0 == TERMINALS + n && rules.Length1 == 4
    modifies rules
    ensures forall r, c :: TERMINALS <= r < TERMINALS + n && 0 <= c < 4 ==> rules[r, c] == VOIDAREA
    ensures forall r, c :: 0 <= r < TERMINALS && 0 <= c < 4 ==> rules[r, c] == old(rules[r, c])
  {
    for i := 0 to n
      invariant forall r, c :: TERMINALS <= r < TERMINALS + i && 0 <= c < 4 ==> rules[r, c] == VOIDAREA
      invariant forall r, c :: 0 <= r < TERMINALS && 0 <= c < 4 ==> rules[r, c] == old(rules[r, c])
    {
      var row := TERMINALS + i;
      for j := 0 to 4
        invariant forall r, c :: TERMINALS <= r < row && 0 <= c < 4 ==> rules[r, c] == VOIDAREA
        invariant forall c :: 0 <= c < j ==> rules[row, c] == VOIDAREA
        invariant forall r, c :: 0 <= r < TERMINALS && 0 <= c < 4 ==> rules[r, c] == old(rules[r, c])
      {
        rules[row, j] := VOIDAREA;
      }
    }
  }

  /** Reading rule i: its left-hand side, then its four right-hand side
      symbols into that row. */
  method ReadRule(rules: array2<int>, g: Genome<Key>, n: nat, i: int)
    requires RuleGenes(g, n) && TERMINALS <= i < TERMINALS + n
    requires rules.Length0 == TERMINALS + n && rules.Length1 == 4
    requires Contents(rules) == ReadRules(g, n, i)
    modifies rules
    ensures Contents(rules) == ReadRules(g, n, i + 1)
  {
    ghost var before := ReadRules(g, n, i);
    ghost var row := RuleRow(g, n, i);
    var leftside := -1;
    for j := 0 to 5
      invariant j >= 1 ==> leftside == Lhs(g, n, i)
      invariant forall r, c :: 0 <= r < TERMINALS + n && 0 <= c < 4 ==>
        rules[r, c] == if j >= 1 && r == leftside && c < j - 1 then row[c] else before[r][c]
    {
      var symb;
      if i == TERMINALS && j == 0 {
        symb := TERMINALS;
      } else {
        RuleGene(g, n, i, j);
        symb := IntOf(g, R(i, j));
      }
      if j == 0 {
        leftside := symb;
      } else {
        rules[leftside, j - 1] := symb;
      }
    }
    assert ReadRules(g, n, i + 1) == before[leftside := row];
    ContentsEqual(rules, ReadRules(g, n, i + 1));
  }

  // ---------------------------------------------------------------------
  // Rewriting

  /** Every symbol of `m` has a row in a table of `nsym` rules. */
  predicate Symbols(m: Matrix, nsym: int) {
    forall i, j :: 0 <= i < |m| && 0 <= j < |m[i]| ==> m[i][j] < nsym
  }

  /** Entry d of the block a symbol rewrites to: a rule's right-hand
      side, or the sentinel itself, copied. */
  function Child(k: int, rules: Matrix, d: int): int
    requires RuleTable(rules) && k < |rules| && 0 <= d < 4
  {
    if k < 0 then k else rules[k][d]
  }

  /** One level of `decodeMatrix`: entry (i,j) becomes the 2x2 block at
      (2i,2j) whose entries (2i,2j), (2i+1,2j), (2i,2j+1), (2i+1,2j+1)
      are right-hand side entries 0, 1, 2, 3. */
  function Expand(m: Matrix, rows: nat, cols: nat, rules: Matrix): (e: Matrix)
    requires IsMatrix(m, rows, cols) && RuleTable(rules) && Symbols(m, |rules|)
    ensures IsMatrix(e, 2 * rows, 2 * cols) && Symbols(e, |rules|)
  {
    seq(2 * rows, p requires 0 <= p < 2 * rows =>
      seq(2 * cols, q requires 0 <= q < 2 * cols => Child(m[p / 2][q / 2], rules, p % 2 + 2 * (q % 2))))
  }

  /** The block layout of one rewriting step, and a negative entry is
      copied to all four entries of its block. */
  lemma ExpandBlocks(m: Matrix, rows: nat, cols: nat, rules: Matrix, i: int, j: int)
    requires IsMatrix(m, rows, cols) && RuleTable(rules) && Symbols(m, |rules|)
    requires 0 <= i < rows && 0 <= j < cols
    ensures Expand(m, rows, cols, rules)[2 * i][2 * j] == Child(m[i][j], rules, 0)
    ensures Expand(m, rows, cols, rules)[2 * i + 1][2 * j] == Child(m[i][j], rules, 1)
    ensures Expand(m, rows, cols, rules)[2 * i][2 * j + 1] == Child(m[i][j], rules, 2)
    ensures Expand(m, rows, cols, rules)[2 * i + 1][2 * j + 1] == Child(m[i][j], rules, 3)
  {
  }

  /** A negative entry is copied to all four entries of its block. */
  lemma ExpandInherits(m: Matrix, rows: nat, cols: nat, rules: Matrix, i: int, j: int)
    requires IsMatrix(m, rows, cols) && RuleTable(rules) && Symbols(m, |rules|)
    requires 0 <= i < rows && 0 <= j < cols && m[i][j] < 0
    ensures var e := Expand(m, rows, cols, rules);
      e[2 * i][2 * j] == m[i][j] && e[2 * i + 1][2 * j] == m[i][j] &&
      e[2 * i][2 * j + 1] == m[i][j] && e[2 * i + 1][2 * j + 1] == m[i][j]
  {
    ExpandBlocks(m, rows, cols, rules, i, j);
  }

  /** The value a sentinel resolves to at the last level. */
  function Final(v: int): int {
    if v == FINALONE then 1
    else if v == FINALZERO then 0
    else if v == VOIDAREA then VOIDAREA
    else UNRESOLVED
  }

  predicate InAlphabet(v: int) { v == 0 || v == 1 || v == VOIDAREA || v == UNRESOLVED }

  /** Every entry of a resolved matrix is 0, 1, VOIDAREA or UNRESOLVED. */
  predicate Alphabet(m: Matrix) {
    forall i, j :: 0 <= i < |m| && 0 <= j < |m[i]| ==> InAlphabet(m[i][j])
  }

  function Resolve(m: Matrix, rows: nat, cols: nat): (r: Matrix)
    requires IsMatrix(m, rows, cols)
    ensures IsMatrix(r, rows, cols) && Alphabet(r)
  {
    seq(rows, i requires 0 <= i < rows => seq(cols, j requires 0 <= j < cols => Final(m[i][j])))
  }

  /** The levels `decodeMatrix` performs: one at least, whatever l is. */
  function Levels(l: int): nat { if l > 1 then l else 1 }

  /** n rows (or columns) after the levels of `decodeMatrix(_, _, l)`. */
  function Scale(n: nat, l: int): nat
    decreases l
  {
    if l > 1 then Scale(2 * n, l - 1) else 2 * n
  }

  /** Each level doubles: n becomes n * 2^l. */
  lemma {:induction false} ScalePow(n: nat, l: int)
    ensures Scale(n, l) == n * Pow2(Levels(l))
    decreases l
  {
    if l > 1 {
      ScalePow(2 * n, l - 1);
      assert Pow2(Levels(l)) == 2 * Pow2(Levels(l - 1));
      assert 2 * n * Pow2(Levels(l - 1)) == n * (2 * Pow2(Levels(l - 1)));
    }
  }

  lemma {:induction false} ScaleAdd(a: nat, b: nat, l: int)
    ensures Scale(a + b, l) == Scale(a, l) + Scale(b, l)
    decreases l
  {
    if l > 1 {
      ScaleAdd(2 * a, 2 * b, l - 1);
    }
  }

  /** `decodeMatrix(m, rules, l)`: l rewriting steps (at least one),
      then the resolution of the sentinels. */
  function Decode(m: Matrix, rows: nat, cols: nat, rules: Matrix, l: int): (d: Matrix)
    requires IsMatrix(m, rows, cols) && RuleTable(rules) && Symbols(m, |rules|)
    ensures IsMatrix(d, Scale(rows, l), Scale(cols, l))
    ensures Alphabet(d)
    decreases l
  {
    var e := Expand(m, rows, cols, rules);
    if l > 1 then Decode(e, 2 * rows, 2 * cols, rules, l - 1)
    else Resolve(e, 2 * rows, 2 * cols)
  }

  /** The start rule: the 1x1 matrix holding the first nonterminal. */
  function Axiom(): (m: Matrix)
    ensures IsMatrix(m, 1, 1) && m[0][0] == TERMINALS
  {
    [[TERMINALS]]
  }

  /** From the axiom, l levels give a 2^l x 2^l matrix. */
  lemma DecodeAxiomSize(rules: Matrix, l: int)
    requires RuleTable(rules) && |rules| > TERMINALS
    ensures Symbols(Axiom(), |rules|)
    ensures IsMatrix(Decode(Axiom(), 1, 1, rules, l), Pow2(Levels(l)), Pow2(Levels(l)))
  {
    ScalePow(1, l);
  }

  /** A negative entry is inherited by every descendant: the whole
      2^l x 2^l block it rewrites to (at row and column i * 2^l and
      j * 2^l) holds its resolved value. */
  lemma {:induction false} DecodeInherits(m: Matrix, rows: nat, cols: nat, rules: Matrix, l: int, i: nat, j: nat)
    requires IsMatrix(m, rows, cols) && RuleTable(rules) && Symbols(m, |rules|)
    requires i < rows && j < cols && m[i][j] < 0
    ensures InBlock(Decode(m, rows, cols, rules, l), Scale(i, l), Scale(j, l), Scale(1, l), Final(m[i][j]))
    decreases Levels(l), 1
  {
    ExpandInherits(m, rows, cols, rules, i, j);
    var e := Expand(m, rows, cols, rules);
    if l <= 1 {
      var d := Resolve(e, 2 * rows, 2 * cols);
      assert Decode(m, rows, cols, rules, l) == d;
      forall p, q | 2 * i <= p < 2 * i + 2 && 2 * j <= q < 2 * j + 2 ensures Holds(d, p, q, Final(m[i][j])) {
        if p == 2 * i {
          if q == 2 * j { } else { assert q == 2 * j + 1; }
        } else {
          assert p == 2 * i + 1;
          if q == 2 * j { } else { assert q == 2 * j + 1; }
        }
      }
    } else {
      InheritStep(e, 2 * rows, 2 * cols, rules, l - 1, i, j, m[i][j]);
      ScaleAdd(1, 1, l - 1);
    }
  }

  /** The four quarters of a block inherit their entries' value. */
  lemma {:induction false} InheritStep(e: Matrix, rows: nat, cols: nat, rules: Matrix, l: int, i: nat, j: nat, v: int)
    requires IsMatrix(e, rows, cols) && RuleTable(rules) && Symbols(e, |rules|)
    requires 2 * i + 1 < rows && 2 * j + 1 < cols && v < 0
    requires e[2 * i][2 * j] == v && e[2 * i + 1][2 * j] == v
    requires e[2 * i][2 * j + 1] == v && e[2 * i + 1][2 * j + 1] == v
    ensures InBlock(Decode(e, rows, cols, rules, l), Scale(2 * i, l), Scale(2 * j, l), 2 * Scale(1, l), Final(v))
    decreases Levels(l) + 1, 0
  {
    var d := Decode(e, rows, cols, rules, l);
    var h := Scale(1, l);
    var top := Scale(2 * i, l);
    var left := Scale(2 * j, l);
    ScaleAdd(2 * i, 1, l);
    ScaleAdd(2 * j, 1, l);
    DecodeInherits(e, rows, cols, rules, l, 2 * i, 2 * j);
    DecodeInherits(e, rows, cols, rules, l, 2 * i + 1, 2 * j);
    DecodeInherits(e, rows, cols, rules, l, 2 * i, 2 * j + 1);
    DecodeInherits(e, rows, cols, rules, l, 2 * i + 1, 2 * j + 1);
    QuarterBlocks(d, top, left, h, Final(v));
  }

  /** Four h-blocks make the 2h-block that holds them. */
  lemma QuarterBlocks(d: Matrix, top: int, left: int, h: int, v: int)
    requires InBlock(d, top, left, h, v) && InBlock(d, top + h, left, h, v)
    requires InBlock(d, top, left + h, h, v) && InBlock(d, top + h, left + h, h, v)
    ensures InBlock(d, top, left, 2 * h, v)
  {
    forall p, q | top <= p < top + 2 * h && left <= q < left + 2 * h
      ensures Holds(d, p, q, v)
    {
      if p < top + h {
        if q < left + h {
          assert InBlock(d, top, left, h, v);
        } else {
          assert InBlock(d, top, left + h, h, v);
        }
      } else {
        if q < left + h {
          assert InBlock(d, top + h, left, h, v);
        } else {
          assert InBlock(d, top + h, left + h, h, v);
        }
      }
    }
  }

  /** The size x size block at (top, left) of `d` holds only v. */
  predicate InBlock(d: Matrix, top: int, left: int, size: int, v: int) {
    forall p, q :: top <= p < top + size && left <= q < left + size ==> Holds(d, p, q, v)
  }

  /** Entry (p, q) of `d` exists and is v. */
  predicate Holds(d: Matrix, p: int, q: int, v: int) {
    0 <= p < |d| && 0 <= q < |d[p]| && d[p][q] == v
  }

  /** The recursive `decodeMatrix`: each level fills a fresh table twice
      the size of the last, the last level resolves it in place. */
  method DecodeMatrix(s: array2<int>, rules: array2<int>, l: int) returns (r: array2<int>)
    requires rules.Length1 == 4 && RuleTable(Contents(rules)) && Symbols(Contents(s), rules.Length0)
    ensures Contents(r) == Decode(Contents(s), s.Length0, s.Length1, Contents(rules), l)
    decreases l
  {
    ghost var m := Contents(s);
    ghost var t := Contents(rules);
    var next := ExpandTable(s, rules);
    ghost var e := Contents(next);
    assert e == Expand(m, s.Length0, s.Length1, t);
    if l > 1 {
      r := DecodeMatrix(next, rules, l - 1);
      assert Decode(m, s.Length0, s.Length1, t, l) == Decode(e, next.Length0, next.Length1, t, l - 1);
    } else {
      ResolveTable(next);
      r := next;
      assert Decode(m, s.Length0, s.Length1, t, l) == Resolve(e, next.Length0, next.Length1);
    }
  }

  /** One level: every entry of `s` becomes a 2x2 block of a fresh table. */
  method ExpandTable(s: array2<int>, rules: array2<int>) returns (next: array2<int>)
    requires rules.Length1 == 4 && RuleTable(Contents(rules)) && Symbols(Contents(s), rules.Length0)
    ensures fresh(next) && next.Length0 == 2 * s.Length0 && next.Length1 == 2 * s.Length1
    ensures Contents(next) == Expand(Contents(s), s.Length0, s.Length1, Contents(rules))
  {
    ghost var m := Contents(s);
    ghost var t := Contents(rules);
    ghost var e := Expand(m, s.Length0, s.Length1, t);
    next := new int[s.Length0 * 2, s.Length1 * 2];
    for i := 0 to s.Length0
      invariant forall p, q :: 0 <= p < 2 * i && 0 <= q < next.Length1 ==> next[p, q] == e[p][q]
    {
      forall j | 0 <= j < s.Length1 ensures RowBlock(m, t, e, i, j) {
        ExpandBlocks(m, s.Length0, s.Length1, t, i, j);
      }
      ExpandRow(s, rules, next, i, m, t, e);
    }
    ContentsEqual(next, e);
  }

  /** Row i of `s` becomes rows 2i and 2i+1 of `next`. */
  method ExpandRow(s: array2<int>, rules: array2<int>, next: array2<int>, i: nat,
                   ghost m: Matrix, ghost t: Matrix, ghost e: Matrix)
    requires m == Contents(s) && t == Contents(rules) && RuleTable(t) && Symbols(m, |t|)
    requires IsMatrix(e, 2 * s.Length0, 2 * s.Length1)
    requires forall j :: 0 <= j < s.Length1 ==> RowBlock(m, t, e, i, j)
    requires next.Length0 == 2 * s.Length0 && next.Length1 == 2 * s.Length1
    requires next != s && next != rules && i < s.Length0 && rules.Length1 == 4
    requires forall p, q :: 0 <= p < 2 * i && 0 <= q < next.Length1 ==> next[p, q] == e[p][q]
    modifies next
    ensures forall p, q :: 0 <= p < 2 * i + 2 && 0 <= q < next.Length1 ==> next[p, q] == e[p][q]
  {
    for j := 0 to s.Length1
      invariant forall p, q :: 0 <= p < 2 * i && 0 <= q < next.Length1 ==> next[p, q] == e[p][q]
      invariant forall p, q :: 2 * i <= p < 2 * i + 2 && 0 <= q < 2 * j ==> next[p, q] == e[p][q]
    {
      assert RowBlock(m, t, e, i, j);
      WriteBlock(next, rules, s[i, j], i, j, t);
      forall p, q | 2 * i <= p < 2 * i + 2 && 2 * j <= q < 2 * j + 2 ensures next[p, q] == e[p][q] {
        if p == 2 * i {
          if q == 2 * j { } else { assert q == 2 * j + 1; }
        } else {
          assert p == 2 * i + 1;
          if q == 2 * j { } else { assert q == 2 * j + 1; }
        }
      }
    }
  }

  /** Block (i, j) of e is what entry (i, j) of m rewrites to. */
  ghost predicate RowBlock(m: Matrix, t: Matrix, e: Matrix, i: int, j: int) {
    && 0 <= i < |m| && 0 <= j < |m[i]| && RuleTable(t) && m[i][j] < |t|
    && 0 <= 2 * i + 1 < |e| && 0 <= 2 * j + 1 < |e[2 * i]| && 2 * j + 1 < |e[2 * i + 1]|
    && e[2 * i][2 * j] == Child(m[i][j], t, 0) && e[2 * i + 1][2 * j] == Child(m[i][j], t, 1)
    && e[2 * i][2 * j + 1] == Child(m[i][j], t, 2) && e[2 * i + 1][2 * j + 1] == Child(m[i][j], t, 3)
  }

  /** The four entries symbol k rewrites to, at (2i,2j), (2i+1,2j),
      (2i,2j+1) and (2i+1,2j+1); nothing else changes. */
  method WriteBlock(next: array2<int>, rules: array2<int>, k: int, i: nat, j: nat, ghost t: Matrix)
    requires t == Contents(rules) && RuleTable(t) && k < rules.Length0 && rules.Length1 == 4
    requires 2 * i + 1 < next.Length0 && 2 * j + 1 < next.Length1 && next != rules
    modifies next
    ensures next[2 * i, 2 * j] == Child(k, t, 0) && next[2 * i + 1, 2 * j] == Child(k, t, 1)
    ensures next[2 * i, 2 * j + 1] == Child(k, t, 2) && next[2 * i + 1, 2 * j + 1] == Child(k, t, 3)
    ensures forall p, q :: 0 <= p < next.Length0 && 0 <= q < next.Length1 && (p < 2 * i || p > 2 * i + 1 || q < 2 * j || q > 2 * j + 1) ==>
      next[p, q] == old(next[p, q])
  {
    next[i * 2, j * 2] := if k < 0 then k else rules[k, 0];
    next[i * 2 + 1, j * 2] := if k < 0 then k else rules[k, 1];
    next[i * 2, j * 2 + 1] := if k < 0 then k else rules[k, 2];
    next[i * 2 + 1, j * 2 + 1] := if k < 0 then k else rules[k, 3];
  }

  /** The last level: every entry resolved in place. */
  method ResolveTable(next: array2<int>)
    modifies next
    ensures Contents(next) == Resolve(old(Contents(next)), next.Length0, next.Length1)
  {
    ghost var e := Contents(next);
    for i := 0 to next.Length0
      invariant forall p, q :: 0 <= p < next.Length0 && 0 <= q < next.Length1 ==>
        next[p, q] == if p < i then Final(e[p][q]) else e[p][q]
    {
      for j := 0 to next.Length1
        invariant forall p, q :: 0 <= p < next.Length0 && 0 <= q < next.Length1 ==>
          next[p, q] == if p < i || (p == i && q < j) then Final(e[p][q]) else e[p][q]
      {
        var value := next[i, j];
        if value == FINALONE {
          next[i, j] := 1;
        } else if value == FINALZERO {
          next[i, j] := 0;
        } else if value == VOIDAREA {
          next[i, j] := VOIDAREA;
        } else {
          next[i, j] := UNRESOLVED;
        }
      }
    }
    ContentsEqual(next, Resolve(e, next.Length0, next.Length1));
  }
}
