/** The decoded network as the encodings see it: a fixed number of units,
    each enabled or disabled, and a list of directed connections in the
    order they were made. The network class itself is external; this
    model keeps only what the decoders set, leaving out biases,
    positions, transfer functions and weights. */
module Networks {
  import opened Common

  type Edge = (int, int)

  datatype Network = Network(enabled: seq<bool>, edges: seq<Edge>)

  /** A new network of `size` units: every unit enabled, no connections. */
  function Fresh(size: nat): (n: Network)
    ensures |n.enabled| == size && n.edges == []
    ensures forall i :: 0 <= i < size ==> n.enabled[i]
  {
    Network(seq(size, _ => true), [])
  }

  /** `net[i].enable(on)`. */
  function Enable(n: Network, i: nat, on: bool): (r: Network)
    requires i < |n.enabled|
    ensures r.edges == n.edges && |r.enabled| == |n.enabled|
    ensures r.enabled[i] == on
    ensures forall k :: 0 <= k < |n.enabled| && k != i ==> r.enabled[k] == n.enabled[k]
  {
    n.(enabled := n.enabled[i := on])
  }

  /** `net.connect(i, j)`: appends the connection i -> j. */
  function Connect(n: Network, i: int, j: int): (r: Network)
    ensures r.enabled == n.enabled
    ensures r.edges == n.edges + [(i, j)]
  {
    n.(edges := n.edges + [(i, j)])
  }

  /** Every connection joins two units of the network. */
  predicate InRange(n: Network) {
    forall e :: e in n.edges ==> 0 <= e.0 < |n.enabled| && 0 <= e.1 < |n.enabled|
  }

  predicate NoSelfLoops(n: Network) {
    forall e :: e in n.edges ==> e.0 != e.1
  }

  /** Every connection goes from a lower to a higher unit index. */
  predicate FeedForward(n: Network) {
    forall e :: e in n.edges ==> e.0 < e.1
  }

  /** Every connection joins two enabled units. */
  predicate BetweenEnabled(n: Network)
    requires InRange(n)
  {
    forall e :: e in n.edges ==> n.enabled[e.0] && n.enabled[e.1]
  }

  /** No ordered pair of units is connected twice. */
  predicate NoDuplicateEdges(n: Network) {
    Distinct(n.edges)
  }
}
