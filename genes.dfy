/** Gene declarations as the encodings add them to their genomes with
    `addPrivateGenes`/`addGenesTo`: a gene's name, its kind and its range.
    The gene classes themselves are external; decoding only relies on a
    genome whose genes fit their declarations. */
module Genes {
  import opened Common

  datatype Decl<K> =
    | Binary(key: K)                                  // BinaryGene
    | BitInt(key: K, min: int, max: int, bits: nat)   // BitIntGene
    | BitFloat(key: K, lo: real, hi: real, bits: nat) // BitFloatGene
    | Float(key: K, lo: real, hi: real)               // FloatGene
    | IntGene(key: K, min: int, max: int, init: Option<int>) // IntGene, its maximum exclusive

  /** The names of the declared genes, in declaration order. */
  function Keys<K>(ds: seq<Decl<K>>): (ks: seq<K>)
    ensures |ks| == |ds|
    ensures forall i :: 0 <= i < |ds| ==> ks[i] == ds[i].key
  {
    seq(|ds|, i requires 0 <= i < |ds| => ds[i].key)
  }

  lemma KeysAppend<K>(ds: seq<Decl<K>>, es: seq<Decl<K>>)
    ensures Keys(ds + es) == Keys(ds) + Keys(es)
  {
  }

  /** A value of the declared kind inside the declared range. */
  predicate Fits<K>(d: Decl<K>, v: Value) {
    match d
    case Binary(_) => v.Bit?
    case BitInt(_, min, max, _) => v.Int? && min <= v.n <= max
    case BitFloat(_, lo, hi, _) => v.Real? && lo <= v.x <= hi
    case Float(_, lo, hi) => v.Real? && lo <= v.x <= hi
    case IntGene(_, min, max, _) => v.Int? && min <= v.n < max
  }

  /** The genome holds every declared gene, each with a fitting value. */
  predicate Conforms<K(==)>(g: Genome<K>, ds: seq<Decl<K>>) {
    forall d :: d in ds ==> d.key in g && Fits(d, g[d.key])
  }

  /** A declared gene of a conforming genome is present and fits. */
  lemma Held<K>(g: Genome<K>, ds: seq<Decl<K>>, d: Decl<K>)
    requires Conforms(g, ds) && d in ds
    ensures d.key in g && Fits(d, g[d.key])
  {
  }

  /** A declared gene all of whose declarations are binary is a binary
      gene of a conforming genome. */
  lemma BinaryHeld<K>(g: Genome<K>, ds: seq<Decl<K>>, k: K)
    requires Conforms(g, ds) && k in Keys(ds)
    requires forall d :: d in ds && d.key == k ==> d.Binary?
    ensures HasBit(g, k)
  {
    var p :| 0 <= p < |ds| && Keys(ds)[p] == k;
    assert ds[p] in ds;
  }

  /** A conforming genome conforms to every part of the declarations. */
  lemma ConformsPart<K>(g: Genome<K>, ds: seq<Decl<K>>, es: seq<Decl<K>>)
    requires Conforms(g, ds)
    requires forall e :: e in es ==> e in ds
    ensures Conforms(g, es)
  {
  }
}
