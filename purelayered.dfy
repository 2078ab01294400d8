/** The pure layered encoding (src/purelayered.cc): a layered encoding
    whose `execute` is the same readout. */
module PureLayered {
  import opened Common
  import opened Params
  import opened Networks
  import opened AnnGenes
  import opened DirectKeys
  import opened DirectNet
  import opened Layered

  class PureLayeredEncoding {
    /** The layered encoding this one extends. */
    const base: LayeredEncoding

    constructor (params: StringMap)
      requires HasSizes(params)
      ensures fresh(base)
      ensures base.ann == Construct(params)
      ensures base.pruneInputs == Flag(params, "prune_inputs", true)
      ensures base.pruneWeights == Flag(params, "prune_weights", false)
      ensures base.encodeWeights == Flag(params, "encode_weights", false)
      ensures base.layering == Layering(Get(params, "layering"))
    {
      base := new LayeredEncoding(params);
    }

    /** The copy constructor: that of the layered encoding. */
    constructor Clone(other: PureLayeredEncoding)
      ensures fresh(base)
      ensures base.ann == other.base.ann && base.pruneInputs == other.base.pruneInputs
      ensures base.pruneWeights == other.base.pruneWeights && base.layering == other.base.layering
    {
      base := new LayeredEncoding.Clone(other.base);
    }

    /** `copy`: that of the layered encoding. */
    method Copy(other: PureLayeredEncoding)
      modifies base
      ensures base.ann == old(other.base.ann) && base.pruneInputs == old(other.base.pruneInputs)
      ensures base.pruneWeights == old(other.base.pruneWeights) && base.layering == old(other.base.layering)
      ensures base.encodeWeights == old(base.encodeWeights)
    {
      base.Copy(other.base);
    }

    /** `execute`: the shared readout on the layered fields. */
    method Execute(g: Genome<DKey>) returns (net: Network)
      requires Sizes(base.ann) && Readable(g, base.ann, base.pruneInputs, base.pruneWeights)
      ensures net == Readout(g, base.ann, base.pruneInputs, base.pruneWeights)
    {
      net := Decode(g, base.ann, base.pruneInputs, base.pruneWeights);
    }
  }
}
