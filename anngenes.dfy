/** The part every network encoding shares (src/anngenes.cc): the
    numbers of input, output and at most hidden units, and whether
    pass-through units are pruned. */
module AnnGenes {
  import opened Params

  datatype AnnFields = AnnFields(inputs: int, maxHidden: int, outputs: int, prunePassthroughs: bool)

  /** The parameters without which no encoding can be constructed. */
  predicate HasSizes(params: StringMap) {
    !IsNull(params, "inputs") && !IsNull(params, "outputs")
  }

  /** The `ANNEncoding` constructor: the sizes are read from the
      parameters; a missing "inputs" or "outputs" is a fatal error. */
  function Construct(params: StringMap): (a: AnnFields)
    requires HasSizes(params)
    ensures a.inputs == Atoi(params["inputs"]) && a.outputs == Atoi(params["outputs"])
    ensures a.maxHidden == Atoi(Get(params, "ANNEncoding.maxHidden"))
    ensures a.prunePassthroughs == (Atoi(Get(params, "ANNEncoding.prunePassthroughs")) != 0)
  {
    AnnFields(Atoi(params["inputs"]), Atoi(Get(params, "ANNEncoding.maxHidden")),
              Atoi(params["outputs"]), Atoi(Get(params, "ANNEncoding.prunePassthroughs")) != 0)
  }

  /** `ANNEncoding::check`: the sensible ranges of the sizes. */
  predicate Check(a: AnnFields) {
    && 0 < a.inputs < 1000
    && 0 <= a.maxHidden < 100000
    && 0 < a.outputs < 1000
  }

  /** The sizes every decoder can allocate tables and networks for. */
  predicate Sizes(a: AnnFields) {
    a.inputs >= 0 && a.maxHidden >= 0 && a.outputs >= 0
  }

  function TotalUnits(a: AnnFields): int { a.inputs + a.maxHidden + a.outputs }

  /** A checked encoding has at least one input and one output unit and
      fewer than 102000 units in all, so every decoder can run on it. */
  lemma CheckBounds(a: AnnFields)
    requires Check(a)
    ensures Sizes(a)
    ensures 2 <= TotalUnits(a) < 101998
    ensures TotalUnits(a) - a.outputs >= a.inputs >= 1
  {
  }

  /** `check` accepts exactly the fields inside its ranges: each bound
      on its own rejects. */
  lemma CheckRejects(a: AnnFields)
    ensures a.inputs <= 0 || a.inputs >= 1000 ==> !Check(a)
    ensures a.maxHidden < 0 || a.maxHidden >= 100000 ==> !Check(a)
    ensures a.outputs <= 0 || a.outputs >= 1000 ==> !Check(a)
  {
  }
}
