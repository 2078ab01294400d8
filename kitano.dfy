/** The `KitanoEncoding` gene (src/kitano.cc): its parameters, the rule
    genes it declares, its consistency check, and `execute`, which reads
    the grammar from the genome, rewrites the axiom and turns the
    resulting connection matrix into a network. */
module Kitano {
  import opened Common
  import opened Params
  import opened Networks
  import opened AnnGenes
  import opened KitanoGrammar
  import opened KitanoNet
  import opened Matrices
  import opened Genes

  /** The five genes of rule i: "R<i>-0" for the left-hand side, set to
      i, over the nonterminals 16..16+n; "R<i>-1".."R<i>-4" for the
      right-hand side over the symbols 0..15+n. */
  function RuleDecl(i: int, n: int): (ds: seq<Decl<Key>>)
    ensures |ds| == 5
  {
    [IntGene(R(i, 0), TERMINALS, TERMINALS + n, Some(i))]
    + [IntGene(R(i, 1), 0, TERMINALS - 1 + n, None), IntGene(R(i, 2), 0, TERMINALS - 1 + n, None)]
    + [IntGene(R(i, 3), 0, TERMINALS - 1 + n, None), IntGene(R(i, 4), 0, TERMINALS - 1 + n, None)]
  }

  /** The genes of rules 0..k-1, in the order they are added. */
  function RuleDecls(k: int, n: int): seq<Decl<Key>>
    decreases k
  {
    if k <= 0 then [] else RuleDecls(k - 1, n) + RuleDecl(k - 1, n)
  }

  /** The gene named k is declared. */
  predicate Declares(ds: seq<Decl<Key>>, k: Key) {
    k in Keys(ds)
  }

  /** The genes `execute` reads: both parts of rules 16..15+n but the
      fixed left-hand side of rule 16. */
  predicate ReadByExecute(n: int, k: Key) {
    TERMINALS <= k.rule < TERMINALS + n && 0 <= k.part < 5 && k != R(TERMINALS, 0)
  }

  /** The rules 0..k-1 declare exactly the five genes of each, once each,
      5k genes in all. */
  lemma RuleDeclsKeys(k: int, n: int)
    ensures forall key :: Declares(RuleDecls(k, n), key) <==> 0 <= key.rule < k && 0 <= key.part < 5
    ensures |RuleDecls(k, n)| == if k <= 0 then 0 else 5 * k
    ensures Distinct(Keys(RuleDecls(k, n)))
  {
    RuleDeclsMembers(k, n);
    RuleDeclsLength(k, n);
    RuleDeclsDistinct(k, n);
  }

  /** The genes of rules 0..k-1 are the genes of the last rule after
      those of the others. */
  lemma RuleDeclsStep(k: int, n: int)
    requires k > 0
    ensures Keys(RuleDecls(k, n)) == Keys(RuleDecls(k - 1, n)) + [R(k - 1, 0), R(k - 1, 1), R(k - 1, 2), R(k - 1, 3), R(k - 1, 4)]
  {
    KeysAppend(RuleDecls(k - 1, n), RuleDecl(k - 1, n));
  }

  lemma {:induction false} RuleDeclsMembers(k: int, n: int)
    ensures forall key :: key in Keys(RuleDecls(k, n)) <==> 0 <= key.rule < k && 0 <= key.part < 5
    decreases k
  {
    if k > 0 {
      RuleDeclsMembers(k - 1, n);
      RuleDeclsStep(k, n);
    }
  }

  lemma {:induction false} RuleDeclsLength(k: int, n: int)
    ensures |RuleDecls(k, n)| == if k <= 0 then 0 else 5 * k
    decreases k
  {
    if k > 0 {
      RuleDeclsLength(k - 1, n);
    }
  }

  lemma {:induction false} RuleDeclsDistinct(k: int, n: int)
    ensures Distinct(Keys(RuleDecls(k, n)))
    decreases k
  {
    if k > 0 {
      var ks := Keys(RuleDecls(k - 1, n));
      assert Distinct(ks) by { RuleDeclsDistinct(k - 1, n); }
      assert forall x :: x in ks ==> x.rule < k - 1 by { RuleDeclsMembers(k - 1, n); }
      RuleKeysAppend(ks, k - 1);
      RuleDeclsStep(k, n);
    }
  }

  /** The five genes of rule r, added after genes of earlier rules
      only, repeat none of them. */
  lemma RuleKeysAppend(ks: seq<Key>, r: int)
    requires Distinct(ks) && forall x :: x in ks ==> x.rule < r
    ensures Distinct(ks + [R(r, 0), R(r, 1), R(r, 2), R(r, 3), R(r, 4)])
  {
    var last := [R(r, 0), R(r, 1), R(r, 2), R(r, 3), R(r, 4)];
    forall a, b | 0 <= a < b < 5 ensures last[a] != last[b] {
      assert last[a].part == a && last[b].part == b;
    }
    DistinctConcat(ks, last);
  }

  /** The declarations of rule i are among those of rules 0..k-1 once
      i < k. */
  lemma {:induction false} RuleDeclIn(k: int, n: int, i: int)
    requires 0 <= i < k
    ensures forall d :: d in RuleDecl(i, n) ==> d in RuleDecls(k, n)
    decreases k
  {
    if i < k - 1 {
      RuleDeclIn(k - 1, n, i);
    }
  }

  /** A genome whose genes fit the declarations of `addPrivateGenes`,
      with a declared rule for each of the rules 16..15+n, holds the rule
      genes `execute` reads, in range: left-hand sides are nonterminals
      and right-hand sides are symbols of the table. */
  lemma ConformingRuleGenes(g: Genome<Key>, n: int, rules: int)
    requires n >= 1 && rules >= TERMINALS + n
    requires Conforms(g, RuleDecls(rules, n))
    ensures RuleGenes(g, n)
  {
    forall i | TERMINALS <= i < TERMINALS + n
      ensures RuleGenesAt(g, n, i)
    {
      RuleDeclIn(rules, n, i);
      var ds := RuleDecl(i, n);
      assert ds[0] in ds && ds[1] in ds && ds[2] in ds && ds[3] in ds && ds[4] in ds;
    }
  }

  /** As written, no right-hand side can name the last nonterminal
      15+n: its genes range over 0..15+n with the maximum exclusive. */
  lemma LastNonterminalNeverNamed(g: Genome<Key>, n: int, i: int, j: int)
    requires Conforms(g, RuleDecl(i, n)) && 1 <= j < 5
    ensures HasInt(g, R(i, j)) && 0 <= IntOf(g, R(i, j)) < TERMINALS - 1 + n
  {
    var ds := RuleDecl(i, n);
    assert ds[j] in ds;
  }

  /** With one nonterminal, the rule 16 -> 16 16 16 16 is one `execute`
      can read, but no genome conforming to the declarations holds it. */
  lemma SelfRuleUndeclared()
    ensures var g := map[R(16, 0) := Int(16), R(16, 1) := Int(16), R(16, 2) := Int(16),
                         R(16, 3) := Int(16), R(16, 4) := Int(16)];
      RuleGenes(g, 1) && !Conforms(g, RuleDecl(16, 1))
  {
    var g := map[R(16, 0) := Int(16), R(16, 1) := Int(16), R(16, 2) := Int(16),
                 R(16, 3) := Int(16), R(16, 4) := Int(16)];
    assert RuleGenesAt(g, 1, TERMINALS);
    assert RuleDecl(16, 1)[1] in RuleDecl(16, 1);
  }

  /** The five genes of rule i with the right-hand side over every
      symbol 0..15+n, as `execute` reads it. */
  function CorrectedRuleDecl(i: int, n: int): (ds: seq<Decl<Key>>)
    ensures |ds| == 5
  {
    [IntGene(R(i, 0), TERMINALS, TERMINALS + n, Some(i))]
    + [IntGene(R(i, 1), 0, TERMINALS + n, None), IntGene(R(i, 2), 0, TERMINALS + n, None)]
    + [IntGene(R(i, 3), 0, TERMINALS + n, None), IntGene(R(i, 4), 0, TERMINALS + n, None)]
  }

  /** With the corrected ranges, a genome conforms to the genes of rule
      i exactly when it holds a nonterminal left-hand side for it and
      the rule genes `execute` reads for it. */
  lemma CorrectedRuleDeclExact(g: Genome<Key>, n: nat, i: int)
    requires TERMINALS <= i < TERMINALS + n
    ensures Conforms(g, CorrectedRuleDecl(i, n)) <==>
      && HasInt(g, R(i, 0)) && TERMINALS <= IntOf(g, R(i, 0)) < TERMINALS + n
      && RuleGenesAt(g, n, i)
  {
    var ds := CorrectedRuleDecl(i, n);
    if Conforms(g, ds) {
      assert ds[0] in ds && ds[1] in ds && ds[2] in ds && ds[3] in ds && ds[4] in ds;
    }
  }

  /** `check`, as written: the sizes of `ANNEncoding::check`,
      0 < rewrites < 10, 0 < nonterminals < 100 and 16 <= rules <= 1000. */
  predicate CheckAsWritten(a: AnnFields, iters: int, n: int, rules: int) {
    && AnnGenes.Check(a)
    && 0 < iters < 10
    && 0 < n < 100
    && 16 <= rules <= 1000
  }

  /** `check` with the bound the reading of the rules needs: one
      declared rule for each of the rules 16..15+n. */
  predicate CheckCorrected(a: AnnFields, iters: int, n: int, rules: int) {
    CheckAsWritten(a, iters, n, rules) && rules >= TERMINALS + n
  }

  /** As written, `check` accepts 16 rules and one nonterminal, yet
      `execute` then reads gene "R16-1", which `addPrivateGenes` never
      declared: only rules 0..15 are. */
  lemma CheckAdmitsUndeclaredRead()
    ensures CheckAsWritten(AnnFields(1, 0, 1, false), 1, 1, 16)
    ensures ReadByExecute(1, R(16, 1)) && !Declares(RuleDecls(16, 1), R(16, 1))
  {
    RuleDeclsKeys(16, 1);
  }

  /** With the corrected check every gene `execute` reads is declared;
      and that holds only when rules >= 16 + nonterminals. */
  lemma CorrectedCheckDeclaresReads(a: AnnFields, iters: int, n: int, rules: int)
    requires CheckAsWritten(a, iters, n, rules)
    ensures CheckCorrected(a, iters, n, rules) <==>
      forall k :: ReadByExecute(n, k) ==> Declares(RuleDecls(rules, n), k)
  {
    RuleDeclsKeys(rules, n);
    if !CheckCorrected(a, iters, n, rules) {
      assert ReadByExecute(n, R(TERMINALS + n - 1, 1));
    }
  }

  /** The decoded connection matrix of a genome: the axiom rewritten
      `iters` levels with the genome's rule table, then resolved. */
  function Connmat(g: Genome<Key>, n: nat, iters: int): (f: Matrix)
    requires RuleGenes(g, n) && n >= 1
    ensures IsMatrix(f, Pow2(Levels(iters)), Pow2(Levels(iters))) && Alphabet(f)
  {
    RulesTable(g, n);
    DecodeAxiomSize(Rules(g, n), iters);
    Decode(Axiom(), 1, 1, Rules(g, n), iters)
  }

  /** The network `execute` attaches for a genome has 2^L units, the
      last `outputs` of them enabled; its connections go only forward,
      never into an input and never twice, each from an enabled unit;
      and the density counts satisfy 0 <= conns <= totconns. */
  lemma DecodedNetShape(g: Genome<Key>, n: nat, iters: int, inputs: int, outputs: int,
                        net: Network, desc: string, conns: int, totconns: int)
    requires n >= 1 && RuleGenes(g, n) && 0 <= inputs && 0 <= outputs
    requires Executed(g, n, iters, inputs, outputs, false, Some(net), desc, conns, totconns)
    ensures |net.enabled| == Pow2(Levels(iters))
    ensures forall i :: |net.enabled| - outputs <= i < |net.enabled| && 0 <= i ==> net.enabled[i]
    ensures InRange(net) && FeedForward(net) && NoDuplicateEdges(net)
    ensures forall e :: e in net.edges ==> e.1 >= inputs && 0 <= e.0 < |net.enabled| && net.enabled[e.0]
    ensures 0 <= conns <= totconns
  {
    var size := Pow2(Levels(iters));
    var f := Connmat(g, n, iters);
    var forced := ForceOutputs(f, size, size - outputs);
    var pic := Picture(forced, size, size);
    assert MadeNet(f, size, inputs, outputs, net, pic);
    MadeNetShape(f, size, inputs, outputs, net, pic);
  }

  class KitanoEncoding {
    var ann: AnnFields
    var iters: int
    var nonTerminals: int
    var rules: int

    /** The parameters, with the defaults 5 rewrites, 26 nonterminals
        and 64 rules. */
    constructor (params: StringMap)
      requires HasSizes(params)
      ensures ann == Construct(params)
      ensures iters == Atoi(GetOrDefault(params, "KitanoEncoding.rewrites", "5"))
      ensures nonTerminals == Atoi(GetOrDefault(params, "KitanoEncoding.nonTerminals", "26"))
      ensures rules == Atoi(GetOrDefault(params, "KitanoEncoding.rules", "64"))
    {
      ann := Construct(params);
      iters := Atoi(GetOrDefault(params, "KitanoEncoding.rewrites", "5"));
      nonTerminals := Atoi(GetOrDefault(params, "KitanoEncoding.nonTerminals", "26"));
      rules := Atoi(GetOrDefault(params, "KitanoEncoding.rules", "64"));
    }

    /** The copy constructor. */
    constructor Clone(orig: KitanoEncoding)
      ensures ann == orig.ann && iters == orig.iters
      ensures nonTerminals == orig.nonTerminals && rules == orig.rules
    {
      ann := orig.ann;
      iters := orig.iters;
      nonTerminals := orig.nonTerminals;
      rules := orig.rules;
    }

    /** `copy`: every field of `orig`. */
    method Copy(orig: KitanoEncoding)
      modifies this
      ensures ann == old(orig.ann) && iters == old(orig.iters)
      ensures nonTerminals == old(orig.nonTerminals) && rules == old(orig.rules)
    {
      ann, iters, nonTerminals, rules := orig.ann, orig.iters, orig.nonTerminals, orig.rules;
    }

    /** `check`, with the bound of the rules corrected (see above). */
    predicate Check()
      reads this
    {
      CheckCorrected(ann, iters, nonTerminals, rules)
    }

    /** A checked encoding, on a genome holding the genes it declares,
        meets what `execute` needs of the grammar: at least one
        nonterminal, sizes that tables can be made of, and every rule
        gene that `execute` reads present and in range. */
    lemma CheckedExecutable(g: Genome<Key>)
      requires Check() && Conforms(g, RuleDecls(rules, nonTerminals))
      ensures nonTerminals >= 1 && Sizes(ann)
      ensures RuleGenes(g, nonTerminals)
    {
      CheckBounds(ann);
      ConformingRuleGenes(g, nonTerminals, rules);
    }

    /** `addPrivateGenes`: five genes per rule, rule by rule. */
    method AddPrivateGenes() returns (decls: seq<Decl<Key>>)
      ensures decls == RuleDecls(rules, nonTerminals)
    {
      decls := [];
      for i := 0 to if rules < 0 then 0 else rules
        invariant decls == RuleDecls(i, nonTerminals)
      {
        decls := decls + [IntGene(R(i, 0), TERMINALS, TERMINALS + nonTerminals, Some(i))];
        for j := 1 to 5
          invariant decls == RuleDecls(i, nonTerminals) + RuleDecl(i, nonTerminals)[..j]
        {
          decls := decls + [IntGene(R(i, j), 0, TERMINALS - 1 + nonTerminals, None)];
        }
      }
    }

    /** `execute`: the rule table, the decoded matrix, the density
        counts on it, and the picture and the network `makeNet` makes of
        it. A picture-taking run yields the matrix picture as the brain
        description and attaches no network; any other run attaches the
        network. The matrix must be larger than the input and output
        units together, as `makeNet` asserts. */
    method Execute(g: Genome<Key>, takePics: bool) returns (plan: Option<Network>, desc: string, conns: int, totconns: int)
      requires nonTerminals >= 1 && RuleGenes(g, nonTerminals)
      requires Sizes(ann) && Pow2(Levels(iters)) > ann.inputs + ann.outputs
      ensures Executed(g, nonTerminals, iters, ann.inputs, ann.outputs, takePics, plan, desc, conns, totconns)
      ensures plan.None? <==> takePics
      ensures 0 <= conns <= totconns
    {
      var inputs, outputs := ann.inputs, ann.outputs;
      var connmat := DecodeGenome(g, nonTerminals, iters);
      conns, totconns := Statistics(connmat, inputs, outputs);
      var net, pic := MakeNet(connmat, inputs, outputs);
      if takePics {
        plan, desc := None, pic;
      } else {
        plan, desc := Some(net), [];
      }
    }
  }

  /** What `execute` computes for a genome: on its decoded matrix f of
      size 2^L x 2^L, the density counts; on f with its output diagonal
      forced to 1, the picture as the description of a picture-taking
      run, and the network as the plan of any other. */
  predicate Executed(g: Genome<Key>, n: nat, iters: int, inputs: int, outputs: int, takePics: bool,
                     plan: Option<Network>, desc: string, conns: int, totconns: int)
    requires n >= 1 && RuleGenes(g, n)
  {
    var size := Pow2(Levels(iters));
    var f := Connmat(g, n, iters);
    var forced := ForceOutputs(f, size, size - outputs);
    && Counted(f, size, inputs, outputs, conns, totconns)
    && plan == (if takePics then None else Some(MatrixNet(forced, size, inputs)))
    && desc == (if takePics then Picture(forced, size, size) else [])
  }

  /** The first half of `execute`: the rule table read from the genome
      and the axiom rewritten with it. */
  method DecodeGenome(g: Genome<Key>, n: nat, iters: int) returns (connmat: array2<int>)
    requires n >= 1 && RuleGenes(g, n)
    ensures connmat.Length0 == connmat.Length1 == Pow2(Levels(iters))
    ensures Contents(connmat) == Connmat(g, n, iters)
  {
    var table := BuildRules(g, n);
    RulesTable(g, n);
    assert table.Length0 == TERMINALS + n && table.Length1 == 4;
    var axiom := new int[1, 1];
    axiom[0, 0] := TERMINALS;
    ContentsEqual(axiom, Axiom());
    assert Symbols(Contents(axiom), table.Length0);
    connmat := DecodeMatrix(axiom, table, iters);
    var f := Connmat(g, n, iters);
    assert Contents(connmat) == f;
    assert connmat.Length0 == |f| && connmat.Length1 == |f[0]|;
  }

  /** Without the three parameters the encoding rewrites 5 times with 26
      nonterminals and 64 rules. */
  lemma Defaults(params: StringMap)
    requires "KitanoEncoding.rewrites" !in params && "KitanoEncoding.nonTerminals" !in params
    requires "KitanoEncoding.rules" !in params
    ensures Atoi(GetOrDefault(params, "KitanoEncoding.rewrites", "5")) == 5
    ensures Atoi(GetOrDefault(params, "KitanoEncoding.nonTerminals", "26")) == 26
    ensures Atoi(GetOrDefault(params, "KitanoEncoding.rules", "64")) == 64
  {
    AtoiOneDigit('5');
    AtoiTwoDigits('2', '6');
    AtoiTwoDigits('6', '4');
  }
}
