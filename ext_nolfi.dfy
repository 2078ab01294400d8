/** The alternative indexing and wiring of the Nolfi & Parisi cell space
    in src/extnolfi.cc. It redefines `indexInputs`, `indexHiddens`,
    `indexOutputs`, `removeDuplicates` and `connect` of `NolfiNet`; here
    they are separate methods on a `NolfiNet` object. Its
    `removeDuplicates` is the same code as the one of src/nolfinet.cc,
    `NolfiNets.NolfiNet.RemoveDuplicates`. */
module ExtNolfi {
  import opened Common
  import opened Networks
  import opened NolfiCells
  import opened NolfiNets

  /** C++'s conversion of a double to int, which truncates toward zero. */
  function Trunc(r: real): (n: int)
    ensures r >= 0.0 ==> n as real <= r < n as real + 1.0
    ensures r < 0.0 ==> n as real - 1.0 < r <= n as real
  {
    if r >= 0.0 then r.Floor else -((-r).Floor)
  }

  /** The index `indexInputs` gives an output cell: its y coordinate
      rounded to the nearest whole number. */
  function RoundedY(c: Cell): int {
    Trunc(c.coord.y + 0.5)
  }

  /** Inside the unit square the rounding maps the lower half to 0 and
      the upper half to 1. */
  lemma RoundedYUnit(c: Cell)
    requires 0.0 <= c.coord.y <= 1.0
    ensures RoundedY(c) == if c.coord.y < 0.5 then 0 else 1
  {
  }

  /** `indexInputs`: despite its name it indexes the output cells, each
      by its rounded y coordinate; every other cell stays as it is. */
  method IndexInputs(s: NolfiNet)
    modifies s
    ensures |s.cells| == |old(s.cells)|
    ensures forall k :: 0 <= k < |s.cells| ==>
      s.cells[k] == if old(s.cells)[k].finalType == CT_OUTPUT then MapTo(old(s.cells)[k], RoundedY(old(s.cells)[k]))
                    else old(s.cells)[k]
    ensures s.hiddens == old(s.hiddens) && s.tipRadius == old(s.tipRadius)
  {
    var cs := s.cells;
    ghost var orig := cs;
    for i := 0 to |cs|
      invariant |cs| == |orig|
      invariant forall k :: 0 <= k < i ==>
        cs[k] == if orig[k].finalType == CT_OUTPUT then MapTo(orig[k], RoundedY(orig[k])) else orig[k]
      invariant forall k :: i <= k < |cs| ==> cs[k] == orig[k]
    {
      if cs[i].finalType == CT_OUTPUT {
        cs := cs[i := MapTo(cs[i], Trunc(cs[i].coord.y + 0.5))];
      }
    }
    s.cells := cs;
  }

  /** `indexHiddens`: exactly `hiddens` picks, each of the unindexed
      hidden cell with the smallest x (the later one among equal x),
      which gets the next index from inputs on; the source asserts that
      a candidate is left for every pick. */
  method IndexHiddens(s: NolfiNet, hiddens: int)
    modifies s
    requires s.inputs >= 0
    requires hiddens <= CountEligible(s.cells, true)
    ensures Picking(old(s.cells), s.cells, s.inputs, Max(hiddens, 0), true)
    ensures s.hiddens == old(s.hiddens) && s.tipRadius == old(s.tipRadius)
  {
    var cs := s.cells;
    var base := s.inputs;
    ghost var orig := cs;
    PickingStart(orig, base, true);
    var ind := 0;
    while ind < hiddens
      invariant 0 <= ind <= Max(hiddens, 0)
      invariant Picking(orig, cs, base, ind, true)
      invariant s.hiddens == old(s.hiddens) && s.tipRadius == old(s.tipRadius)
    {
      EligibleExists(cs, true);
      var m := FindMin(cs, true);
      PickStep(orig, cs, base, ind, true, m);
      cs := cs[m := cs[m].(finalId := base + ind)];
      ind := ind + 1;
    }
    s.cells := cs;
  }

  /** `indexOutputs`: every output cell gets the index right after the
      hidden units, the first of the final output units; the source
      asserts that it lies among those units, which holds whenever there
      is an output unit. */
  method IndexOutputs(s: NolfiNet, hiddens: int)
    modifies s
    requires (exists k :: 0 <= k < |s.cells| && s.cells[k].finalType == CT_OUTPUT) ==> s.outputs > 0
    ensures |s.cells| == |old(s.cells)|
    ensures forall k :: 0 <= k < |s.cells| ==>
      s.cells[k] == if old(s.cells)[k].finalType == CT_OUTPUT then MapTo(old(s.cells)[k], s.inputs + hiddens)
                    else old(s.cells)[k]
    ensures var total := s.inputs + hiddens + s.outputs;
      forall k :: 0 <= k < |s.cells| && s.cells[k].finalType == CT_OUTPUT ==>
        total - s.outputs <= s.cells[k].finalId < total
    ensures s.hiddens == old(s.hiddens) && s.tipRadius == old(s.tipRadius)
  {
    var cs := s.cells;
    ghost var orig := cs;
    var totalUnits := s.inputs + hiddens + s.outputs;
    for i := 0 to |cs|
      invariant |cs| == |orig|
      invariant forall k :: 0 <= k < i ==>
        cs[k] == if orig[k].finalType == CT_OUTPUT then MapTo(orig[k], s.inputs + hiddens) else orig[k]
      invariant forall k :: i <= k < |cs| ==> cs[k] == orig[k]
      invariant forall k :: 0 <= k < i && cs[k].finalType == CT_OUTPUT ==>
        totalUnits - s.outputs <= cs[k].finalId < totalUnits
    {
      if cs[i].finalType == CT_OUTPUT {
        assert orig[i].finalType == CT_OUTPUT;
        cs := cs[i := MapTo(cs[i], s.inputs + hiddens)];
      }
    }
    s.cells := cs;
  }

  /** The output cells share one index after `indexOutputs`, so after
      `removeDuplicates` at most one of them keeps an index. */
  lemma OneOutputKept(cs: seq<Cell>, v: int)
    requires forall k :: 0 <= k < |cs| && cs[k].finalType == CT_OUTPUT ==> cs[k].finalId == v
    ensures var rs := Deduplicated(cs);
      forall a, b :: 0 <= a < b < |rs| && rs[a].finalType == CT_OUTPUT && rs[b].finalType == CT_OUTPUT ==>
        rs[a].finalId == EMPTYID || rs[b].finalId == EMPTYID
  {
    var rs := Deduplicated(cs);
    DedupUnique(cs);
    assert forall k :: 0 <= k < |rs| ==> rs[k].finalType == cs[k].finalType;
    assert forall k :: 0 <= k < |rs| ==> rs[k].finalId == cs[k].finalId || rs[k].finalId == EMPTYID;
  }

  /** Cell j is a target of the indexed cell i: a larger index, a hidden
      or output cell, and an axon tip closer than 5 (a squared distance
      below 25). */
  predicate Allowed(cs: seq<Cell>, tips: seq<seq<Point>>, i: int, j: int)
    requires 0 <= i < |cs| && 0 <= j < |cs| && |tips| == |cs|
  {
    && cs[i].finalId != EMPTYID && cs[j].finalId > cs[i].finalId && cs[j].finalType > CT_INPUT
    && exists k :: 0 <= k < |tips[i]| && SqDist(cs[j].coord, tips[i][k]) < 25.0
  }

  /** The k loop of `connect`: looks for an axon tip close to p. */
  method CloseTip(tips: seq<Point>, p: Point) returns (found: bool)
    ensures found <==> exists k :: 0 <= k < |tips| && SqDist(p, tips[k]) < 25.0
  {
    found := false;
    var k := 0;
    while k < |tips|
      invariant 0 <= k <= |tips|
      invariant forall q :: 0 <= q < k ==> SqDist(p, tips[q]) >= 25.0
    {
      if SqDist(p, tips[k]) < 25.0 {
        found := true;
        break;
      }
      k := k + 1;
    }
  }

  /** What `connect` has done to the network: it appended one
      connection per count, each from a cell to one of its targets, and
      made no connection twice ... */
  ghost predicate Appended(cs: seq<Cell>, tips: seq<seq<Point>>, net0: Network, net: Network, connections: int)
    requires |tips| == |cs|
  {
    && net.enabled == net0.enabled
    && |net0.edges| <= |net.edges| && net.edges[..|net0.edges|] == net0.edges
    && |net.edges| == |net0.edges| + connections
    && (forall q :: |net0.edges| <= q < |net.edges| ==>
          exists a, b :: 0 <= a < |cs| && 0 <= b < |cs| && Allowed(cs, tips, a, b) && net.edges[q] == (cs[a].finalId, cs[b].finalId))
    && (Distinct(net0.edges) ==> Distinct(net.edges))
  }

  /** ... and once the cells before hi, and the candidates before hj of
      cell hi, are handled, every cell handled is connected to each of
      its targets handled. */
  ghost predicate Covered(cs: seq<Cell>, tips: seq<seq<Point>>, net: Network, hi: int, hj: int)
    requires |tips| == |cs| && 0 <= hi < |cs| + 1
  {
    && (forall a, b :: 0 <= a < hi && 0 <= b < |cs| && Allowed(cs, tips, a, b) ==>
          (cs[a].finalId, cs[b].finalId) in net.edges)
    && (hi < |cs| ==> forall b :: 0 <= b < hj && b < |cs| && Allowed(cs, tips, hi, b) ==>
          (cs[hi].finalId, cs[b].finalId) in net.edges)
  }

  ghost predicate Joined(cs: seq<Cell>, tips: seq<seq<Point>>, net0: Network, net: Network, connections: int,
                         hi: int, hj: int)
    requires |tips| == |cs| && 0 <= hi < |cs| + 1
  {
    Appended(cs, tips, net0, net, connections) && Covered(cs, tips, net, hi, hj)
  }

  /** The j loop of `connect` for the indexed cell i. */
  method ConnectRow(cs: seq<Cell>, tips: seq<seq<Point>>, i: int, net0: Network, net: Network, connections: int)
    returns (net': Network, connections': int)
    requires |tips| == |cs| && 0 <= i < |cs| && cs[i].finalId != EMPTYID
    requires Joined(cs, tips, net0, net, connections, i, 0)
    ensures Joined(cs, tips, net0, net', connections', i + 1, 0)
  {
    net', connections' := net, connections;
    for j := 0 to |cs|
      invariant Joined(cs, tips, net0, net', connections', i, j)
    {
      if cs[j].finalId > cs[i].finalId && cs[j].finalType > CT_INPUT {
        var found := CloseTip(tips[i], cs[j].coord);
        if found && (cs[i].finalId, cs[j].finalId) !in net'.edges {
          ghost var before := net';
          net' := Networks.Connect(net', cs[i].finalId, cs[j].finalId);
          connections' := connections' + 1;
          JoinStep(cs, tips, net0, before, connections' - 1, i, j, net');
        } else {
          JoinSkip(cs, tips, net0, net', connections', i, j);
        }
      } else {
        JoinSkip(cs, tips, net0, net', connections', i, j);
      }
    }
    JoinRowDone(cs, tips, net0, net', connections', i);
  }

  /** A candidate that is no target, or is connected already, changes
      nothing. */
  lemma JoinSkip(cs: seq<Cell>, tips: seq<seq<Point>>, net0: Network, net: Network, connections: int, i: int, j: int)
    requires |tips| == |cs| && 0 <= i < |cs| && 0 <= j < |cs|
    requires Joined(cs, tips, net0, net, connections, i, j)
    requires Allowed(cs, tips, i, j) ==> (cs[i].finalId, cs[j].finalId) in net.edges
    ensures Joined(cs, tips, net0, net, connections, i, j + 1)
  {
  }

  /** Once every candidate of cell i is handled, so is cell i. */
  lemma JoinRowDone(cs: seq<Cell>, tips: seq<seq<Point>>, net0: Network, net: Network, connections: int, i: int)
    requires |tips| == |cs| && 0 <= i < |cs|
    requires Joined(cs, tips, net0, net, connections, i, |cs|)
    ensures Joined(cs, tips, net0, net, connections, i + 1, 0)
  {
  }

  /** Appending the connection of cell i to its target j keeps what
      `connect` has done so far. */
  lemma JoinStep(cs: seq<Cell>, tips: seq<seq<Point>>, net0: Network, net: Network, connections: int,
                 i: int, j: int, net': Network)
    requires |tips| == |cs| && 0 <= i < |cs| && 0 <= j < |cs| && Allowed(cs, tips, i, j)
    requires Joined(cs, tips, net0, net, connections, i, j)
    requires (cs[i].finalId, cs[j].finalId) !in net.edges
    requires net' == Networks.Connect(net, cs[i].finalId, cs[j].finalId)
    ensures Joined(cs, tips, net0, net', connections + 1, i, j + 1)
  {
    forall q | |net0.edges| <= q < |net'.edges|
      ensures exists a, b :: 0 <= a < |cs| && 0 <= b < |cs| && Allowed(cs, tips, a, b) && net'.edges[q] == (cs[a].finalId, cs[b].finalId)
    {
      if q < |net.edges| {
        assert net'.edges[q] == net.edges[q];
      } else {
        assert net'.edges[q] == (cs[i].finalId, cs[j].finalId);
      }
    }
    if Distinct(net0.edges) {
      DistinctAppend(net.edges, (cs[i].finalId, cs[j].finalId));
    }
    assert net'.edges[..|net0.edges|] == net.edges[..|net0.edges|];
  }

  /** `connect`: joins each indexed cell to every target its axon tips
      reach, unless it already feeds that target, and counts the
      connections made; the axon tips of cell i are tips[i]. Only
      appends connections, so the network's units stay as they are. */
  method Connect(s: NolfiNet, network: Network, tips: seq<seq<Point>>) returns (net: Network, connections: int)
    requires |tips| == |s.cells|
    ensures Joined(s.cells, tips, network, net, connections, |s.cells|, 0)
  {
    var cs := s.cells;
    net, connections := network, 0;
    assert network.edges[..|network.edges|] == network.edges;
    for i := 0 to |cs|
      invariant Joined(cs, tips, network, net, connections, i, 0)
    {
      if cs[i].finalId != EMPTYID {
        net, connections := ConnectRow(cs, tips, i, network, net, connections);
      } else {
        JoinRowDone(cs, tips, network, net, connections, i);
      }
    }
  }

  /** Every connection `connect` makes goes from a lower to a higher
      unit index. */
  lemma JoinedForward(cs: seq<Cell>, tips: seq<seq<Point>>, net0: Network, net: Network, connections: int)
    requires |tips| == |cs|
    requires Appended(cs, tips, net0, net, connections)
    ensures forall q :: |net0.edges| <= q < |net.edges| ==> net.edges[q].0 < net.edges[q].1
  {
    assert net.enabled == net0.enabled;
    assert forall q :: |net0.edges| <= q < |net.edges| ==>
          exists a, b :: 0 <= a < |cs| && 0 <= b < |cs| && Allowed(cs, tips, a, b) && net.edges[q] == (cs[a].finalId, cs[b].finalId);
    forall q | |net0.edges| <= q < |net.edges|
      ensures net.edges[q].0 < net.edges[q].1
    {
      var a, b :| 0 <= a < |cs| && 0 <= b < |cs| && Allowed(cs, tips, a, b) && net.edges[q] == (cs[a].finalId, cs[b].finalId);
    }
  }
}
