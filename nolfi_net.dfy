/** The Nolfi & Parisi cell space (`NolfiNet` in src/nolfinet.cc): the
    cells read from the genome are typed by their position, given an
    index in the final network in the order of their x coordinate, and
    wired to the cells their axon tips reach. The axon tips are computed
    by an external turtle-graphics library; here they are an input, one
    list of tip points per cell. */
module NolfiNets {
  import opened Common
  import opened Networks
  import opened NolfiCells

  // Typing by position (`resolveTypes`).

  /** The final type `resolveTypes` gives a cell, or CT_NONE when it
      leaves the cell's type alone: unexpressed cells, and input or
      output candidates outside the unit square. */
  function Classify(c: Cell, inBorder: real, outBorder: real): int {
    if !c.expression then CT_NONE
    else if c.coord.x < inBorder then
      (if c.coord.x >= 0.0 && 0.0 <= c.coord.y <= 1.0 then CT_INPUT else CT_NONE)
    else if c.coord.x > outBorder then
      (if c.coord.x <= 1.0 && 0.0 <= c.coord.y <= 1.0 then CT_OUTPUT else CT_NONE)
    else CT_HIDDEN
  }

  /** An expressed cell between the borders must lie inside the unit
      square vertically; `resolveTypes` aborts on any other. */
  predicate Resolvable(c: Cell, inBorder: real, outBorder: real) {
    c.expression && inBorder <= c.coord.x <= outBorder ==> 0.0 <= c.coord.y <= 1.0
  }

  function Resolved(c: Cell, inBorder: real, outBorder: real): Cell {
    var t := Classify(c, inBorder, outBorder);
    if t == CT_NONE then c else c.(finalType := t)
  }

  function ResolvedAll(cs: seq<Cell>, inBorder: real, outBorder: real): (rs: seq<Cell>)
    ensures |rs| == |cs|
  {
    seq(|cs|, k requires 0 <= k < |cs| => Resolved(cs[k], inBorder, outBorder))
  }

  /** The number of cells `resolveTypes` gives type t. */
  function CountClass(cs: seq<Cell>, inBorder: real, outBorder: real, t: int): (n: nat)
    ensures n <= |cs|
  {
    if |cs| == 0 then 0
    else
      var last := if Classify(cs[|cs| - 1], inBorder, outBorder) == t then 1 else 0;
      CountClass(cs[..|cs| - 1], inBorder, outBorder, t) + last
  }

  /** The number of cells whose final type is t. */
  function CountType(cs: seq<Cell>, t: int): (n: nat)
    ensures n <= |cs|
  {
    if |cs| == 0 then 0 else CountType(cs[..|cs| - 1], t) + (if cs[|cs| - 1].finalType == t then 1 else 0)
  }

  /** Typing untyped cells: each counter of `resolveTypes` is the number
      of cells of that type afterwards, the typed cells lie where their
      type says, and the cells keep everything else. */
  lemma {:induction false} ResolvedCounted(cs: seq<Cell>, inBorder: real, outBorder: real, t: int)
    requires t != CT_NONE
    requires forall k :: 0 <= k < |cs| ==> cs[k].finalType == CT_NONE
    ensures CountType(ResolvedAll(cs, inBorder, outBorder), t) == CountClass(cs, inBorder, outBorder, t)
    decreases |cs|
  {
    if |cs| > 0 {
      var init := cs[..|cs| - 1];
      ResolvedCounted(init, inBorder, outBorder, t);
      assert ResolvedAll(cs, inBorder, outBorder)[..|cs| - 1] == ResolvedAll(init, inBorder, outBorder);
    }
  }

  lemma ResolvedPlaced(c: Cell, inBorder: real, outBorder: real)
    requires Resolvable(c, inBorder, outBorder)
    ensures var r := Resolved(c, inBorder, outBorder);
      && r.(finalType := c.finalType) == c
      && (r.finalType != c.finalType ==> c.expression && 0.0 <= c.coord.y <= 1.0)
      && (r.finalType == CT_INPUT && c.finalType != CT_INPUT ==> 0.0 <= c.coord.x < inBorder)
      && (r.finalType == CT_OUTPUT && c.finalType != CT_OUTPUT ==> outBorder < c.coord.x <= 1.0)
      && (r.finalType == CT_HIDDEN && c.finalType != CT_HIDDEN ==> inBorder <= c.coord.x <= outBorder)
  {
  }

  /** The typing counts `indexCells` accepts: at least one input, one
      hidden and one output cell, and no fewer output cells than outputs. */
  predicate Accepts(cs: seq<Cell>, inBorder: real, outBorder: real, outputs: int) {
    var ins := CountClass(cs, inBorder, outBorder, CT_INPUT);
    var hids := CountClass(cs, inBorder, outBorder, CT_HIDDEN);
    var outs := CountClass(cs, inBorder, outBorder, CT_OUTPUT);
    !(ins == 0 || hids == 0 || outs == 0 || outs < outputs)
  }

  // Indexing in the order of the x coordinate (`indexHiddens`).

  /** A cell the selection loop may still pick: without an index, of the
      hidden type when only hidden cells are indexed, and with an x
      coordinate no larger than the loop's start value 666. */
  predicate Eligible(c: Cell, onlyHidden: bool) {
    c.finalId == EMPTYID && (!onlyHidden || c.finalType == CT_HIDDEN) && c.coord.x <= 666.0
  }

  /** Cell a (at index a) is picked before cell b: a smaller x, or the
      same x and a later position in the cell list. */
  predicate Before(c: Cell, a: int, d: Cell, b: int) {
    c.coord.x < d.coord.x || (c.coord.x == d.coord.x && a > b)
  }

  function CountEligible(cs: seq<Cell>, onlyHidden: bool): (n: nat)
    ensures n <= |cs|
  {
    if |cs| == 0 then 0
    else CountEligible(cs[..|cs| - 1], onlyHidden) + (if Eligible(cs[|cs| - 1], onlyHidden) then 1 else 0)
  }

  /** The result of `indexHiddens` in src/nolfinet.cc: every cell gets its
      own index in base..base+|cs|-1, the indices follow the x order, a
      later cell first among equal x, and nothing else changes. */
  ghost predicate IdsByX(orig: seq<Cell>, cs: seq<Cell>, base: int) {
    && |cs| == |orig|
    && (forall k :: 0 <= k < |cs| ==> cs[k] == orig[k].(finalId := cs[k].finalId))
    && (forall k :: 0 <= k < |cs| ==> base <= cs[k].finalId < base + |cs|)
    && (forall a, b :: 0 <= a < b < |cs| ==> cs[a].finalId != cs[b].finalId)
    && (forall a, b :: 0 <= a < |cs| && 0 <= b < |cs| && cs[a].finalId < cs[b].finalId ==> Before(cs[a], a, cs[b], b))
  }

  ghost predicate Picked(orig: seq<Cell>, cs: seq<Cell>, k: int, onlyHidden: bool)
    requires 0 <= k < |orig| && |cs| == |orig|
  {
    Eligible(orig[k], onlyHidden) && cs[k].finalId != EMPTYID
  }

  /** Only the indices of eligible cells differ from the original. */
  ghost predicate SameBut(orig: seq<Cell>, cs: seq<Cell>, onlyHidden: bool) {
    && |cs| == |orig|
    && (forall k :: 0 <= k < |cs| ==> cs[k] == orig[k].(finalId := cs[k].finalId))
    && (forall k :: 0 <= k < |cs| && !Eligible(orig[k], onlyHidden) ==> cs[k] == orig[k])
  }

  ghost predicate PickedRange(orig: seq<Cell>, cs: seq<Cell>, base: int, count: int, onlyHidden: bool)
    requires |cs| == |orig|
  {
    forall k :: 0 <= k < |cs| && Picked(orig, cs, k, onlyHidden) ==> base <= cs[k].finalId < base + count
  }

  ghost predicate PickedDistinct(orig: seq<Cell>, cs: seq<Cell>, onlyHidden: bool)
    requires |cs| == |orig|
  {
    forall a, b :: 0 <= a < b < |cs| && Picked(orig, cs, a, onlyHidden) && Picked(orig, cs, b, onlyHidden) ==>
      cs[a].finalId != cs[b].finalId
  }

  /** Every picked cell comes before every cell still eligible. */
  ghost predicate PickedFirst(orig: seq<Cell>, cs: seq<Cell>, onlyHidden: bool)
    requires |cs| == |orig|
  {
    forall a, b :: 0 <= a < |cs| && 0 <= b < |cs| && Picked(orig, cs, a, onlyHidden) && Eligible(cs[b], onlyHidden) ==>
      Before(cs[a], a, cs[b], b)
  }

  ghost predicate PickedOrdered(orig: seq<Cell>, cs: seq<Cell>, onlyHidden: bool)
    requires |cs| == |orig|
  {
    forall a, b ::
      0 <= a < |cs| && 0 <= b < |cs| && Picked(orig, cs, a, onlyHidden) && Picked(orig, cs, b, onlyHidden)
      && cs[a].finalId < cs[b].finalId
      ==> Before(cs[a], a, cs[b], b)
  }

  /** The state of the selection after `count` picks: the picked cells
      hold the indices base..base+count-1, one each, in the order the
      picks are made, every picked cell comes before every cell still
      eligible, and only the indices of picked cells changed. */
  ghost predicate Picking(orig: seq<Cell>, cs: seq<Cell>, base: int, count: int, onlyHidden: bool) {
    && base >= 0 && count >= 0
    && SameBut(orig, cs, onlyHidden)
    && PickedRange(orig, cs, base, count, onlyHidden)
    && PickedDistinct(orig, cs, onlyHidden)
    && PickedFirst(orig, cs, onlyHidden)
    && PickedOrdered(orig, cs, onlyHidden)
    && CountEligible(cs, onlyHidden) + count == CountEligible(orig, onlyHidden)
  }

  lemma PickingStart(orig: seq<Cell>, base: int, onlyHidden: bool)
    requires base >= 0
    ensures Picking(orig, orig, base, 0, onlyHidden)
  {
  }
  lemma {:induction false} EligibleExists(cs: seq<Cell>, onlyHidden: bool)
    requires CountEligible(cs, onlyHidden) > 0
    ensures exists k :: 0 <= k < |cs| && Eligible(cs[k], onlyHidden)
    decreases |cs|
  {
    if !Eligible(cs[|cs| - 1], onlyHidden) {
      EligibleExists(cs[..|cs| - 1], onlyHidden);
      var k :| 0 <= k < |cs| - 1 && Eligible(cs[..|cs| - 1][k], onlyHidden);
      assert cs[k] == cs[..|cs| - 1][k];
    }
  }

  lemma {:induction false} NoneEligible(cs: seq<Cell>, onlyHidden: bool)
    requires CountEligible(cs, onlyHidden) == 0
    ensures forall k :: 0 <= k < |cs| ==> !Eligible(cs[k], onlyHidden)
    decreases |cs|
  {
    if |cs| > 0 {
      NoneEligible(cs[..|cs| - 1], onlyHidden);
      assert forall k :: 0 <= k < |cs| - 1 ==> cs[k] == cs[..|cs| - 1][k];
    }
  }

  lemma {:induction false} AllEligible(cs: seq<Cell>, onlyHidden: bool)
    requires forall k :: 0 <= k < |cs| ==> Eligible(cs[k], onlyHidden)
    ensures CountEligible(cs, onlyHidden) == |cs|
    decreases |cs|
  {
    if |cs| > 0 {
      AllEligible(cs[..|cs| - 1], onlyHidden);
    }
  }

  /** Giving an eligible cell an index removes one eligible cell. */
  lemma {:induction false} CountEligibleUpdate(cs: seq<Cell>, m: int, c: Cell, onlyHidden: bool)
    requires 0 <= m < |cs| && Eligible(cs[m], onlyHidden) && !Eligible(c, onlyHidden)
    ensures CountEligible(cs[m := c], onlyHidden) + 1 == CountEligible(cs, onlyHidden)
    decreases |cs|
  {
    var last := |cs| - 1;
    if m < last {
      CountEligibleUpdate(cs[..last], m, c, onlyHidden);
      assert cs[m := c][..last] == cs[..last][m := c];
    } else {
      assert cs[m := c][..last] == cs[..last];
    }
  }

  /** The inner loop of `indexHiddens`: the eligible cell with the
      smallest x coordinate, the last one of those with the same x. */
  method FindMin(cs: seq<Cell>, onlyHidden: bool) returns (m: int)
    requires exists k :: 0 <= k < |cs| && Eligible(cs[k], onlyHidden)
    ensures 0 <= m < |cs| && Eligible(cs[m], onlyHidden)
    ensures forall k :: 0 <= k < |cs| && k != m && Eligible(cs[k], onlyHidden) ==> Before(cs[m], m, cs[k], k)
  {
    var minX := 666.0;
    m := -1;
    for j := 0 to |cs|
      invariant m == -1 ==> minX == 666.0 && forall k :: 0 <= k < j ==> !Eligible(cs[k], onlyHidden)
      invariant m != -1 ==> 0 <= m < j && Eligible(cs[m], onlyHidden) && minX == cs[m].coord.x
      invariant m != -1 ==> forall k :: 0 <= k < j && k != m && Eligible(cs[k], onlyHidden) ==> Before(cs[m], m, cs[k], k)
    {
      if (!onlyHidden || cs[j].finalType == CT_HIDDEN) && cs[j].coord.x <= minX && cs[j].finalId == EMPTYID {
        minX := cs[j].coord.x;
        m := j;
      }
    }
  }

  /** One pick of the selection loop keeps its invariant. */
  /** The pick of cell m, the first eligible cell in the x order, with
      the next index keeps each part of the selection's invariant. */
  ghost predicate FirstEligible(cs: seq<Cell>, m: int, onlyHidden: bool) {
    && 0 <= m < |cs| && Eligible(cs[m], onlyHidden)
    && forall k :: 0 <= k < |cs| && k != m && Eligible(cs[k], onlyHidden) ==> Before(cs[m], m, cs[k], k)
  }

  lemma StepSame(orig: seq<Cell>, cs: seq<Cell>, m: int, id: int, onlyHidden: bool)
    requires SameBut(orig, cs, onlyHidden) && 0 <= m < |cs| && Eligible(cs[m], onlyHidden)
    ensures Eligible(orig[m], onlyHidden)
    ensures SameBut(orig, cs[m := cs[m].(finalId := id)], onlyHidden)
  {
  }

  lemma StepRange(orig: seq<Cell>, cs: seq<Cell>, base: int, count: int, m: int, onlyHidden: bool)
    requires |cs| == |orig| && 0 <= m < |cs| && count >= 0
    requires PickedRange(orig, cs, base, count, onlyHidden)
    ensures PickedRange(orig, cs[m := cs[m].(finalId := base + count)], base, count + 1, onlyHidden)
  {
    var cs' := cs[m := cs[m].(finalId := base + count)];
    forall k | 0 <= k < |cs| && Picked(orig, cs', k, onlyHidden)
      ensures base <= cs'[k].finalId < base + count + 1
    {
      if k != m {
        assert Picked(orig, cs, k, onlyHidden);
      }
    }
  }

  lemma StepDistinct(orig: seq<Cell>, cs: seq<Cell>, base: int, count: int, m: int, onlyHidden: bool)
    requires |cs| == |orig| && 0 <= m < |cs| && Eligible(cs[m], onlyHidden)
    requires PickedRange(orig, cs, base, count, onlyHidden) && PickedDistinct(orig, cs, onlyHidden)
    ensures PickedDistinct(orig, cs[m := cs[m].(finalId := base + count)], onlyHidden)
  {
  }

  lemma StepFirst(orig: seq<Cell>, cs: seq<Cell>, id: int, m: int, onlyHidden: bool)
    requires SameBut(orig, cs, onlyHidden) && FirstEligible(cs, m, onlyHidden) && id != EMPTYID
    requires PickedFirst(orig, cs, onlyHidden)
    ensures PickedFirst(orig, cs[m := cs[m].(finalId := id)], onlyHidden)
  {
  }

  lemma StepOrdered(orig: seq<Cell>, cs: seq<Cell>, base: int, count: int, m: int, onlyHidden: bool)
    requires SameBut(orig, cs, onlyHidden) && 0 <= m < |cs| && Eligible(cs[m], onlyHidden)
    requires PickedRange(orig, cs, base, count, onlyHidden) && PickedFirst(orig, cs, onlyHidden)
    requires PickedOrdered(orig, cs, onlyHidden)
    ensures PickedOrdered(orig, cs[m := cs[m].(finalId := base + count)], onlyHidden)
  {
    var cs' := cs[m := cs[m].(finalId := base + count)];
    forall a, b | 0 <= a < |cs| && 0 <= b < |cs| && Picked(orig, cs', a, onlyHidden) && Picked(orig, cs', b, onlyHidden)
      && cs'[a].finalId < cs'[b].finalId
      ensures Before(cs'[a], a, cs'[b], b)
    {
      if b == m {
        assert Picked(orig, cs, a, onlyHidden);
      } else if a != m {
        assert Picked(orig, cs, a, onlyHidden) && Picked(orig, cs, b, onlyHidden);
      } else {
        assert Picked(orig, cs, b, onlyHidden);
      }
    }
  }

  /** One pick of the selection loop keeps its invariant. */
  lemma PickStep(orig: seq<Cell>, cs: seq<Cell>, base: int, count: int, onlyHidden: bool, m: int)
    requires Picking(orig, cs, base, count, onlyHidden)
    requires FirstEligible(cs, m, onlyHidden)
    ensures Picking(orig, cs[m := cs[m].(finalId := base + count)], base, count + 1, onlyHidden)
  {
    var id := base + count;
    StepSame(orig, cs, m, id, onlyHidden);
    StepRange(orig, cs, base, count, m, onlyHidden);
    StepDistinct(orig, cs, base, count, m, onlyHidden);
    StepFirst(orig, cs, id, m, onlyHidden);
    StepOrdered(orig, cs, base, count, m, onlyHidden);
    CountEligibleUpdate(cs, m, cs[m].(finalId := id), onlyHidden);
  }

  /** Once every cell is picked the indices are the x order. */
  lemma PickedAll(orig: seq<Cell>, cs: seq<Cell>, base: int)
    requires Picking(orig, cs, base, |orig|, false)
    requires forall k :: 0 <= k < |orig| ==> Eligible(orig[k], false)
    ensures IdsByX(orig, cs, base)
  {
    AllEligible(orig, false);
    NoneEligible(cs, false);
    assert forall k :: 0 <= k < |cs| ==> Picked(orig, cs, k, false);
  }
  // Decoding (`decodeFrom`).

  /** The tip radius of every cell: the genome-global one when the
      genome holds a "tipr" gene, the configured one otherwise. */
  function TiprOr(g: Genome<NKey>, tipRadius: real): real
    requires Tipr in g ==> HasReal(g, Tipr)
  {
    if Tipr in g then RealOf(g, Tipr) else tipRadius
  }

  /** Cell i as `decodeFrom` builds it: a default cell given the tip
      radius, then overwritten by cell i's genes. */
  function DecodedCell(g: Genome<NKey>, i: int, tipRadius: real): Cell
    requires DecodeReady(g, i)
  {
    DecodeCell(g, i, SetTipRadius(Make(), tipRadius))
  }

  // Duplicate removal (`removeDuplicates`).

  /** Some cell before both `upto` and j holds cell j's index. */
  ghost predicate TwinBefore(cs: seq<Cell>, upto: int, j: int)
    requires 0 <= j < |cs|
  {
    exists i :: 0 <= i < upto && i < j && cs[i].finalId != EMPTYID && cs[i].finalId == cs[j].finalId
  }

  /** Cell j once the rows before `upto` of the removal are done. */
  ghost function Cleared(cs: seq<Cell>, upto: int, j: int): Cell
    requires 0 <= j < |cs|
  {
    if TwinBefore(cs, upto, j) then cs[j].(finalId := EMPTYID) else cs[j]
  }

  /** The cells after `removeDuplicates`: a cell whose index an earlier
      cell holds loses it, so only the first holder of an index keeps it. */
  ghost function Deduplicated(cs: seq<Cell>): (rs: seq<Cell>)
    ensures |rs| == |cs|
  {
    seq(|cs|, j requires 0 <= j < |cs| => Cleared(cs, j, j))
  }

  ghost predicate FirstHolder(cs: seq<Cell>, i: int)
    requires 0 <= i < |cs|
  {
    cs[i].finalId != EMPTYID && !TwinBefore(cs, i, i)
  }

  /** Cell i takes its index away from the later cell j. */
  ghost predicate Clears(cs: seq<Cell>, i: int, j: int)
    requires 0 <= i < j < |cs|
  {
    FirstHolder(cs, i) && cs[i].finalId == cs[j].finalId
  }

  /** The decrements of the output count in row i, columns below hi:
      one for every later cell an output cell takes its index from. */
  ghost function RowDrops(cs: seq<Cell>, i: int, hi: int): nat
    requires 0 <= i < |cs| && hi <= |cs|
    decreases hi
  {
    if hi <= i + 1 then 0
    else RowDrops(cs, i, hi - 1) + (if cs[i].finalType == CT_OUTPUT && Clears(cs, i, hi - 1) then 1 else 0)
  }

  /** The decrements of the output count in the rows below hi. */
  ghost function Drops(cs: seq<Cell>, hi: int): nat
    requires 0 <= hi <= |cs|
  {
    if hi == 0 then 0 else Drops(cs, hi - 1) + RowDrops(cs, hi - 1, |cs|)
  }

  /** The step of the removal at row i, column j: the test of the loop
      holds exactly when cell i clears cell j, and clearing moves cell j
      to its state after row i. */
  lemma ClearStep(orig: seq<Cell>, i: int, j: int)
    requires 0 <= i < j < |orig|
    ensures (Cleared(orig, i, i).finalId != EMPTYID && Cleared(orig, i, i).finalId == Cleared(orig, i, j).finalId)
      <==> Clears(orig, i, j)
    ensures Cleared(orig, i + 1, j)
      == if Clears(orig, i, j) then Cleared(orig, i, j).(finalId := EMPTYID) else Cleared(orig, i, j)
  {
    if TwinBefore(orig, i, i) && orig[i].finalId == orig[j].finalId {
      var h :| 0 <= h < i && orig[h].finalId != EMPTYID && orig[h].finalId == orig[i].finalId;
      assert TwinBefore(orig, i, j);
    }
    if Clears(orig, i, j) {
      assert TwinBefore(orig, i + 1, j);
    }
  }

  /** After the removal no two cells share an index. */
  lemma DedupUnique(cs: seq<Cell>)
    ensures var rs := Deduplicated(cs);
      forall a, b :: 0 <= a < b < |rs| && rs[a].finalId != EMPTYID ==> rs[a].finalId != rs[b].finalId
  {
  }

  /** Every index survives the removal, held by its first holder. */
  lemma {:induction false} DedupKeeps(cs: seq<Cell>, j: int)
    requires 0 <= j < |cs| && cs[j].finalId != EMPTYID
    ensures exists k :: 0 <= k <= j && Deduplicated(cs)[k].finalId == cs[j].finalId
    decreases j
  {
    if TwinBefore(cs, j, j) {
      var i :| 0 <= i < j && cs[i].finalId != EMPTYID && cs[i].finalId == cs[j].finalId;
      DedupKeeps(cs, i);
    } else {
      assert Deduplicated(cs)[j] == cs[j];
    }
  }

  /** Removing duplicates twice is removing them once. */
  lemma DedupIdempotent(cs: seq<Cell>)
    ensures Deduplicated(Deduplicated(cs)) == Deduplicated(cs)
  {
    var rs := Deduplicated(cs);
    DedupUnique(cs);
    assert forall j :: 0 <= j < |rs| ==> Deduplicated(rs)[j] == rs[j];
  }

  // Wiring (`connect`).

  function SqDist(p: Point, q: Point): real {
    (p.x - q.x) * (p.x - q.x) + (p.y - q.y) * (p.y - q.y)
  }

  /** The tip lies closer to p than r: `sqrt(d²) < r` without the root. */
  predicate Near(p: Point, tip: Point, r: real) {
    r > 0.0 && SqDist(p, tip) < r * r
  }

  predicate Reaches(tips: seq<Point>, p: Point, r: real) {
    exists k :: 0 <= k < |tips| && Near(p, tips[k], r)
  }

  /** The k loop of `connect`: looks for an axon tip near p. */
  method NearTip(tips: seq<Point>, p: Point, r: real) returns (found: bool)
    ensures found <==> Reaches(tips, p, r)
  {
    found := false;
    var k := 0;
    while k < |tips|
      invariant 0 <= k <= |tips|
      invariant forall q :: 0 <= q < k ==> !Near(p, tips[q], r)
    {
      if Near(p, tips[k], r) {
        found := true;
        break;
      }
      k := k + 1;
    }
  }

  /** Cell j is a target candidate of cell i in the j loop of `connect`:
      not among the last `outputs` cells, a larger index, not an input
      cell, and not an output cell when i is one. */
  predicate Target(cs: seq<Cell>, outputs: int, i: int, j: int)
    requires 0 <= i < |cs| && 0 <= j < |cs|
  {
    && j < |cs| - outputs && cs[j].finalId > cs[i].finalId && cs[j].finalType != CT_INPUT
    && !(cs[i].finalType == CT_OUTPUT && cs[j].finalType == CT_OUTPUT)
  }

  /** Cell i is expressed and one of its axon tips reaches candidate j. */
  predicate Allowed(cs: seq<Cell>, tips: seq<seq<Point>>, outputs: int, i: int, j: int)
    requires 0 <= i < |cs| && 0 <= j < |cs| && |tips| == |cs|
  {
    cs[i].expression && Target(cs, outputs, i, j) && Reaches(tips[i], cs[j].coord, cs[i].tipRadius)
  }

  /** The connection from a final input unit into an input cell. */
  function InputEdge(c: Cell, inputs: int): Edge
    requires inputs > 0
  {
    (Rem(c.typeId, inputs), c.finalId)
  }

  /** The connection from an output cell to a final output unit; `base`
      is the number of units before the final outputs. */
  function OutputEdge(c: Cell, base: int, outputs: int): Edge
    requires outputs > 0
  {
    (c.finalId, base + Rem(c.typeId, outputs))
  }

  function IOEdges(c: Cell, inputs: int, base: int, outputs: int): seq<Edge>
    requires inputs > 0 && outputs > 0
  {
    (if c.finalType == CT_INPUT then [InputEdge(c, inputs)] else [])
      + (if c.finalType == CT_OUTPUT then [OutputEdge(c, base, outputs)] else [])
  }

  function CountExpressed(cs: seq<Cell>, t: int): (n: nat)
    ensures n <= |cs|
  {
    if |cs| == 0 then 0
    else CountExpressed(cs[..|cs| - 1], t) + (if cs[|cs| - 1].expression && cs[|cs| - 1].finalType == t then 1 else 0)
  }

  /** Unit u is the index of an unexpressed cell among the first hi. */
  ghost predicate Disabled(cs: seq<Cell>, u: int, hi: int) {
    exists k :: 0 <= k < hi && k < |cs| && !cs[k].expression && cs[k].finalId == u
  }

  /** Where a connection made by the first hi cells comes from. */
  ghost predicate Origin(cs: seq<Cell>, tips: seq<seq<Point>>, inputs: int, outputs: int, e: Edge, hi: int)
    requires |tips| == |cs| && inputs > 0 && outputs > 0
  {
    || (exists k :: 0 <= k < hi && k < |cs| && cs[k].expression && cs[k].finalType == CT_INPUT
          && e == InputEdge(cs[k], inputs))
    || (exists k :: 0 <= k < hi && k < |cs| && cs[k].expression && cs[k].finalType == CT_OUTPUT
          && e == OutputEdge(cs[k], inputs + |cs|, outputs))
    || (exists a, b :: 0 <= a < hi && a < |cs| && 0 <= b < |cs| && Allowed(cs, tips, outputs, a, b)
          && e == (cs[a].finalId, cs[b].finalId))
  }

  /** The cells have pairwise distinct indices. */
  ghost predicate DistinctIds(cs: seq<Cell>) {
    forall a, b :: 0 <= a < b < |cs| ==> cs[a].finalId != cs[b].finalId
  }

  /** The cells as `growNet` hands them to `connect`: each holds its own
      index among the |cs| units after the first `base`, and none has a
      negative type. */
  ghost predicate Numbered(cs: seq<Cell>, base: int) {
    && DistinctIds(cs)
    && (forall k :: 0 <= k < |cs| ==> base <= cs[k].finalId < base + |cs| && cs[k].typeId >= 0)
  }

  /** The network once `connect` has handled the first hi cells: the
      units of unexpressed cells are disabled and no others; each
      connection is an input connection of an expressed input cell, an
      output connection of an expressed output cell, or joins a cell to
      a candidate its axon reaches; every such connection is present,
      the last kind possibly the other way round; `connections` counts
      the last kind; and, when the cells are numbered as `growNet`
      numbers them, no connection is made twice. */
  ghost predicate Wired(cs: seq<Cell>, tips: seq<seq<Point>>, inputs: int, outputs: int, net: Network, connections: int, hi: int)
    requires |tips| == |cs| && inputs > 0 && outputs > 0 && 0 <= hi <= |cs|
  {
    Joined(cs, tips, inputs, outputs, net, connections, hi) && (Numbered(cs, inputs) ==> Distinct(net.edges))
  }

  /** Wired but for the absence of repeated connections. */
  ghost predicate Joined(cs: seq<Cell>, tips: seq<seq<Point>>, inputs: int, outputs: int, net: Network, connections: int, hi: int)
    requires |tips| == |cs| && inputs > 0 && outputs > 0 && 0 <= hi <= |cs|
  {
    && |net.enabled| == inputs + |cs| + outputs
    && (forall u :: 0 <= u < |net.enabled| ==> (net.enabled[u] <==> !Disabled(cs, u, hi)))
    && (forall e :: e in net.edges ==> Origin(cs, tips, inputs, outputs, e, hi))
    && (forall k :: 0 <= k < hi && cs[k].expression && cs[k].finalType == CT_INPUT ==>
          InputEdge(cs[k], inputs) in net.edges)
    && (forall k :: 0 <= k < hi && cs[k].expression && cs[k].finalType == CT_OUTPUT ==>
          OutputEdge(cs[k], inputs + |cs|, outputs) in net.edges)
    && (forall a, b :: 0 <= a < hi && 0 <= b < |cs| && Allowed(cs, tips, outputs, a, b) ==>
          (cs[a].finalId, cs[b].finalId) in net.edges || (cs[b].finalId, cs[a].finalId) in net.edges)
    && |net.edges| == connections + CountExpressed(cs[..hi], CT_INPUT) + CountExpressed(cs[..hi], CT_OUTPUT)
  }

  /** What the j loop of `connect` does for cell i: it only appends
      connections from cell i to candidates its axon reaches, one per
      increment of the connection count, ... */
  ghost predicate RowAppends(cs: seq<Cell>, tips: seq<seq<Point>>, outputs: int, i: int,
                             net: Network, conns: int, net': Network, conns': int)
    requires |tips| == |cs| && 0 <= i < |cs|
  {
    && net'.enabled == net.enabled
    && |net.edges| <= |net'.edges| && net'.edges[..|net.edges|] == net.edges
    && |net'.edges| - |net.edges| == conns' - conns
    && (forall q :: |net.edges| <= q < |net'.edges| ==>
          exists b :: 0 <= b < |cs| && Allowed(cs, tips, outputs, i, b) && net'.edges[q] == (cs[i].finalId, cs[b].finalId))
  }

  /** When the cells have distinct indices, the j loop appends no
      connection twice. */
  ghost predicate RowUnrepeated(cs: seq<Cell>, net: Network, net': Network)
    requires |net.edges| <= |net'.edges|
  {
    DistinctIds(cs) ==> Distinct(net'.edges[|net.edges|..])
  }

  /** The connections the j loop has appended so far go to candidates
      below j. */
  ghost predicate RowBelow(cs: seq<Cell>, i: int, j: int, net: Network, net': Network)
    requires 0 <= i < |cs| && |net.edges| <= |net'.edges|
  {
    forall q :: |net.edges| <= q < |net'.edges| ==>
      exists b :: 0 <= b < j && b < |cs| && net'.edges[q] == (cs[i].finalId, cs[b].finalId)
  }

  /** ... until each candidate below hi that the axon reaches is
      connected with cell i in one direction or the other. */
  ghost predicate RowCovers(cs: seq<Cell>, tips: seq<seq<Point>>, outputs: int, i: int, hi: int, net': Network)
    requires |tips| == |cs| && 0 <= i < |cs|
  {
    forall b :: 0 <= b < hi && b < |cs| && Allowed(cs, tips, outputs, i, b) ==>
      (cs[i].finalId, cs[b].finalId) in net'.edges || (cs[b].finalId, cs[i].finalId) in net'.edges
  }

  ghost predicate RowWired(cs: seq<Cell>, tips: seq<seq<Point>>, outputs: int, i: int,
                           net: Network, conns: int, net': Network, conns': int)
    requires |tips| == |cs| && 0 <= i < |cs|
  {
    RowAppends(cs, tips, outputs, i, net, conns, net', conns') && RowCovers(cs, tips, outputs, i, |cs|, net')
  }

  /** The j loop of `connect` for the expressed cell i. */
  method ConnectRow(cs: seq<Cell>, tips: seq<seq<Point>>, outputs: int, i: int, net: Network, conns: int)
    returns (net': Network, conns': int)
    requires |tips| == |cs| && 0 <= i < |cs| && cs[i].expression && outputs >= 0
    ensures RowWired(cs, tips, outputs, i, net, conns, net', conns') && RowUnrepeated(cs, net, net')
  {
    net', conns' := net, conns;
    var j := 0;
    while j < |cs| - outputs
      invariant 0 <= j
      invariant RowAppends(cs, tips, outputs, i, net, conns, net', conns')
      invariant RowCovers(cs, tips, outputs, i, j, net')
      invariant RowBelow(cs, i, j, net, net') && RowUnrepeated(cs, net, net')
    {
      if cs[j].finalId > cs[i].finalId && cs[j].finalType != CT_INPUT
        && !(cs[i].finalType == CT_OUTPUT && cs[j].finalType == CT_OUTPUT)
      {
        var found := NearTip(tips[i], cs[j].coord, cs[i].tipRadius);
        if found && (cs[j].finalId, cs[i].finalId) !in net'.edges {
          ghost var before := net';
          net' := Networks.Connect(net', cs[i].finalId, cs[j].finalId);
          conns' := conns' + 1;
          assert Allowed(cs, tips, outputs, i, j);
          forall q | |net.edges| <= q < |net'.edges|
            ensures exists b :: 0 <= b < |cs| && Allowed(cs, tips, outputs, i, b) && net'.edges[q] == (cs[i].finalId, cs[b].finalId)
          {
            if q < |before.edges| {
              assert net'.edges[q] == before.edges[q];
            } else {
              assert net'.edges[q] == (cs[i].finalId, cs[j].finalId);
            }
          }
          RowStep(cs, i, j, net, before, net');
        }
      }
      j := j + 1;
    }
    assert forall b :: j <= b < |cs| ==> !Target(cs, outputs, i, b);
  }

  /** Appending the connection from cell i to candidate j keeps the row's
      connections below j+1 and, with distinct indices, unrepeated. */
  lemma RowStep(cs: seq<Cell>, i: int, j: int, net: Network, before: Network, net': Network)
    requires 0 <= i < |cs| && 0 <= j < |cs| && |net.edges| <= |before.edges|
    requires before.edges[..|net.edges|] == net.edges
    requires net'.edges == before.edges + [(cs[i].finalId, cs[j].finalId)]
    requires RowBelow(cs, i, j, net, before)
    requires RowUnrepeated(cs, net, before)
    ensures RowBelow(cs, i, j + 1, net, net') && RowUnrepeated(cs, net, net')
  {
    var e := (cs[i].finalId, cs[j].finalId);
    var row := before.edges[|net.edges|..];
    assert net'.edges[|net.edges|..] == row + [e];
    forall q | |net.edges| <= q < |net'.edges|
      ensures exists b :: 0 <= b < j + 1 && b < |cs| && net'.edges[q] == (cs[i].finalId, cs[b].finalId)
    {
      if q < |before.edges| {
        assert net'.edges[q] == before.edges[q];
      } else {
        assert net'.edges[q] == e;
      }
    }
    if DistinctIds(cs) {
      forall q | 0 <= q < |row|
        ensures row[q] != e
      {
        assert before.edges[|net.edges| + q] == row[q];
        var b :| 0 <= b < j && b < |cs| && row[q] == (cs[i].finalId, cs[b].finalId);
        assert cs[b].finalId != cs[j].finalId;
      }
      DistinctAppend(row, e);
    }
  }

  /** One pass of the i loop of `connect`, for cell i. */
  method ConnectCell(cs: seq<Cell>, tips: seq<seq<Point>>, inputs: int, outputs: int,
                     net: Network, connections: int, i: int) returns (net': Network, connections': int)
    requires |tips| == |cs| && inputs > 0 && outputs > 0 && 0 <= i < |cs|
    requires 0 <= cs[i].finalId < inputs + |cs| + outputs
    requires Wired(cs, tips, inputs, outputs, net, connections, i)
    ensures Wired(cs, tips, inputs, outputs, net', connections', i + 1)
  {
    var c := cs[i];
    if !c.expression {
      StepDisabled(cs, tips, inputs, outputs, net, connections, i);
      return Enable(net, c.finalId, false), connections;
    }
    net' := net;
    if c.finalType == CT_INPUT {
      net' := Networks.Connect(net', Rem(c.typeId, inputs), c.finalId);
    }
    if c.finalType == CT_OUTPUT {
      net' := Networks.Connect(net', c.finalId, |net'.enabled| - outputs + Rem(c.typeId, outputs));
    }
    assert net' == net.(edges := net.edges + IOEdges(c, inputs, inputs + |cs|, outputs));
    var mid := net';
    net', connections' := ConnectRow(cs, tips, outputs, i, mid, connections);
    StepExpressed(cs, tips, inputs, outputs, net, connections, i, mid, net', connections');
  }

  lemma WiredStart(cs: seq<Cell>, tips: seq<seq<Point>>, inputs: int, outputs: int)
    requires |tips| == |cs| && inputs > 0 && outputs > 0
    ensures Wired(cs, tips, inputs, outputs, Fresh(inputs + |cs| + outputs), 0, 0)
  {
    assert cs[..0] == [];
  }

  /** An unexpressed cell disables its unit and adds nothing. */
  lemma StepDisabled(cs: seq<Cell>, tips: seq<seq<Point>>, inputs: int, outputs: int, net: Network, conns: int, i: int)
    requires |tips| == |cs| && inputs > 0 && outputs > 0 && 0 <= i < |cs| && !cs[i].expression
    requires 0 <= cs[i].finalId < inputs + |cs| + outputs
    requires Wired(cs, tips, inputs, outputs, net, conns, i)
    ensures Wired(cs, tips, inputs, outputs, Enable(net, cs[i].finalId, false), conns, i + 1)
  {
    var net' := Enable(net, cs[i].finalId, false);
    DisabledStep(cs, net.enabled, net'.enabled, i);
    UnexpressedCount(cs, i);
    forall e | e in net'.edges
      ensures Origin(cs, tips, inputs, outputs, e, i + 1)
    {
      OriginWiden(cs, tips, inputs, outputs, e, i);
    }
    forall a, b | 0 <= a < i + 1 && 0 <= b < |cs| && Allowed(cs, tips, outputs, a, b)
      ensures (cs[a].finalId, cs[b].finalId) in net'.edges || (cs[b].finalId, cs[a].finalId) in net'.edges
    {
      assert a < i;
    }
    forall k | 0 <= k < i + 1 && cs[k].expression && cs[k].finalType == CT_INPUT
      ensures InputEdge(cs[k], inputs) in net'.edges
    {
      assert k < i;
    }
    forall k | 0 <= k < i + 1 && cs[k].expression && cs[k].finalType == CT_OUTPUT
      ensures OutputEdge(cs[k], inputs + |cs|, outputs) in net'.edges
    {
      assert k < i;
    }
  }

  /** Disabling the unit of the unexpressed cell i extends the
      disabled units from the first i cells to the first i+1. */
  lemma DisabledStep(cs: seq<Cell>, en: seq<bool>, en': seq<bool>, i: int)
    requires 0 <= i < |cs| && !cs[i].expression && 0 <= cs[i].finalId < |en|
    requires forall u :: 0 <= u < |en| ==> (en[u] <==> !Disabled(cs, u, i))
    requires en' == en[cs[i].finalId := false]
    ensures forall u :: 0 <= u < |en'| ==> (en'[u] <==> !Disabled(cs, u, i + 1))
  {
    forall u | 0 <= u < |en'|
      ensures en'[u] <==> !Disabled(cs, u, i + 1)
    {
      if u == cs[i].finalId {
        assert Disabled(cs, u, i + 1);
      } else if Disabled(cs, u, i + 1) {
        assert Disabled(cs, u, i);
      }
    }
  }

  /** An unexpressed cell adds no input or output connection. */
  lemma UnexpressedCount(cs: seq<Cell>, i: int)
    requires 0 <= i < |cs| && !cs[i].expression
    ensures CountExpressed(cs[..i + 1], CT_INPUT) == CountExpressed(cs[..i], CT_INPUT)
    ensures CountExpressed(cs[..i + 1], CT_OUTPUT) == CountExpressed(cs[..i], CT_OUTPUT)
  {
    assert cs[..i + 1][..i] == cs[..i];
  }

  /** A connection made by the first hi cells is made by the first hi+1. */
  lemma OriginWiden(cs: seq<Cell>, tips: seq<seq<Point>>, inputs: int, outputs: int, e: Edge, hi: int)
    requires |tips| == |cs| && inputs > 0 && outputs > 0
    requires Origin(cs, tips, inputs, outputs, e, hi)
    ensures Origin(cs, tips, inputs, outputs, e, hi + 1)
  {
  }

  /** The connections of `mid` survive in the longer `net'`. */
  lemma PrefixKept(mid: seq<Edge>, edges: seq<Edge>)
    requires |mid| <= |edges| && edges[..|mid|] == mid
    ensures forall e :: e in mid ==> e in edges
  {
    forall e | e in mid ensures e in edges {
      var q :| 0 <= q < |mid| && mid[q] == e;
      assert edges[q] == e;
    }
  }

  /** Every connection the expressed cell i adds has an origin in row i. */
  lemma StepOrigins(cs: seq<Cell>, tips: seq<seq<Point>>, inputs: int, outputs: int,
                    net: Network, conns: int, i: int, net': Network, conns': int)
    requires |tips| == |cs| && inputs > 0 && outputs > 0 && 0 <= i < |cs| && cs[i].expression
    requires forall e :: e in net.edges ==> Origin(cs, tips, inputs, outputs, e, i)
    requires RowWired(cs, tips, outputs, i,
                      net.(edges := net.edges + IOEdges(cs[i], inputs, inputs + |cs|, outputs)), conns, net', conns')
    ensures forall e :: e in net'.edges ==> Origin(cs, tips, inputs, outputs, e, i + 1)
  {
    var io := IOEdges(cs[i], inputs, inputs + |cs|, outputs);
    var mid := net.edges + io;
    forall e | e in net'.edges
      ensures Origin(cs, tips, inputs, outputs, e, i + 1)
    {
      var q :| 0 <= q < |net'.edges| && net'.edges[q] == e;
      if q < |net.edges| {
        assert mid[q] == e;
        assert e in net.edges;
        assert Origin(cs, tips, inputs, outputs, e, i);
      } else if q < |mid| {
        assert mid[q] == e;
        assert e in io;
      } else {
        var b :| 0 <= b < |cs| && Allowed(cs, tips, outputs, i, b) && e == (cs[i].finalId, cs[b].finalId);
      }
    }
  }

  /** An expressed cell adds its input or output connection and the
      connections of its row. */
  lemma StepExpressed(cs: seq<Cell>, tips: seq<seq<Point>>, inputs: int, outputs: int,
                      net: Network, conns: int, i: int, mid: Network, net': Network, conns': int)
    requires |tips| == |cs| && inputs > 0 && outputs > 0 && 0 <= i < |cs| && cs[i].expression
    requires Wired(cs, tips, inputs, outputs, net, conns, i)
    requires mid == net.(edges := net.edges + IOEdges(cs[i], inputs, inputs + |cs|, outputs))
    requires RowWired(cs, tips, outputs, i, mid, conns, net', conns') && RowUnrepeated(cs, mid, net')
    ensures Wired(cs, tips, inputs, outputs, net', conns', i + 1)
  {
    StepJoined(cs, tips, inputs, outputs, net, conns, i, mid, net', conns');
    if Numbered(cs, inputs) {
      StepUnrepeated(cs, tips, inputs, outputs, net.edges, i, mid, conns, net', conns');
    }
  }

  lemma StepJoined(cs: seq<Cell>, tips: seq<seq<Point>>, inputs: int, outputs: int,
                   net: Network, conns: int, i: int, midNet: Network, net': Network, conns': int)
    requires |tips| == |cs| && inputs > 0 && outputs > 0 && 0 <= i < |cs| && cs[i].expression
    requires Joined(cs, tips, inputs, outputs, net, conns, i)
    requires midNet == net.(edges := net.edges + IOEdges(cs[i], inputs, inputs + |cs|, outputs))
    requires RowWired(cs, tips, outputs, i, midNet, conns, net', conns')
    ensures Joined(cs, tips, inputs, outputs, net', conns', i + 1)
  {
    var io := IOEdges(cs[i], inputs, inputs + |cs|, outputs);
    var mid := net.edges + io;
    assert cs[..i + 1][..i] == cs[..i];
    PrefixKept(mid, net'.edges);
    assert forall e :: e in net.edges ==> e in mid;
    StepOrigins(cs, tips, inputs, outputs, net, conns, i, net', conns');
    forall u | 0 <= u < |net'.enabled|
      ensures net'.enabled[u] <==> !Disabled(cs, u, i + 1)
    {
      if Disabled(cs, u, i + 1) {
        assert Disabled(cs, u, i);
      }
    }
    forall k | 0 <= k < i + 1 && cs[k].expression && cs[k].finalType == CT_INPUT
      ensures InputEdge(cs[k], inputs) in net'.edges
    {
      if k == i {
        assert InputEdge(cs[k], inputs) in io;
      }
    }
    forall k | 0 <= k < i + 1 && cs[k].expression && cs[k].finalType == CT_OUTPUT
      ensures OutputEdge(cs[k], inputs + |cs|, outputs) in net'.edges
    {
      if k == i {
        assert OutputEdge(cs[k], inputs + |cs|, outputs) in io;
      }
    }
    forall a, b | 0 <= a < i + 1 && 0 <= b < |cs| && Allowed(cs, tips, outputs, a, b)
      ensures (cs[a].finalId, cs[b].finalId) in net'.edges || (cs[b].finalId, cs[a].finalId) in net'.edges
    {
    }
  }
  /** With numbered cells, the input or output connection of cell i and
      the connections of its row are new: the row's connections leave
      cell i for a cell unit, an input connection leaves a final input
      unit, an output connection enters a final output unit, and earlier
      cells hold other indices. */
  lemma StepUnrepeated(cs: seq<Cell>, tips: seq<seq<Point>>, inputs: int, outputs: int,
                       edges: seq<Edge>, i: int, midNet: Network, conns: int, net': Network, conns': int)
    requires |tips| == |cs| && inputs > 0 && outputs > 0 && 0 <= i < |cs|
    requires Numbered(cs, inputs) && Distinct(edges)
    requires forall e :: e in edges ==> Origin(cs, tips, inputs, outputs, e, i)
    requires midNet.edges == edges + IOEdges(cs[i], inputs, inputs + |cs|, outputs)
    requires RowAppends(cs, tips, outputs, i, midNet, conns, net', conns') && RowUnrepeated(cs, midNet, net')
    ensures Distinct(net'.edges)
  {
    var mid := midNet.edges;
    var edges' := net'.edges;
    var io := IOEdges(cs[i], inputs, inputs + |cs|, outputs);
    IONew(cs, tips, inputs, outputs, edges, i);
    DistinctConcat(edges, io);
    var row := edges'[|mid|..];
    forall x | x in mid
      ensures x !in row
    {
      forall q | 0 <= q < |row|
        ensures row[q] != x
      {
        assert edges'[|mid| + q] == row[q];
        var b :| 0 <= b < |cs| && Allowed(cs, tips, outputs, i, b) && row[q] == (cs[i].finalId, cs[b].finalId);
        RowNew(cs, tips, inputs, outputs, edges, i, x, b);
      }
    }
    DistinctConcat(mid, row);
    assert edges' == mid + row;
  }

  /** A connection of row i is neither one of an earlier cell nor the
      input or output connection of cell i. */
  lemma RowNew(cs: seq<Cell>, tips: seq<seq<Point>>, inputs: int, outputs: int, edges: seq<Edge>, i: int, x: Edge, b: int)
    requires |tips| == |cs| && inputs > 0 && outputs > 0 && 0 <= i < |cs| && 0 <= b < |cs|
    requires Numbered(cs, inputs) && Allowed(cs, tips, outputs, i, b)
    requires forall e :: e in edges ==> Origin(cs, tips, inputs, outputs, e, i)
    requires x in edges + IOEdges(cs[i], inputs, inputs + |cs|, outputs)
    ensures x != (cs[i].finalId, cs[b].finalId)
  {
    if x in edges {
      assert Origin(cs, tips, inputs, outputs, x, i);
    }
  }

  /** The input or output connection of cell i is not among those of
      earlier cells: other input connections enter other cells, output
      connections leave a cell, and the rest leave a cell for a cell. */
  lemma IONew(cs: seq<Cell>, tips: seq<seq<Point>>, inputs: int, outputs: int, edges: seq<Edge>, i: int)
    requires |tips| == |cs| && inputs > 0 && outputs > 0 && 0 <= i < |cs|
    requires Numbered(cs, inputs)
    requires forall e :: e in edges ==> Origin(cs, tips, inputs, outputs, e, i)
    ensures forall e :: e in edges ==> e !in IOEdges(cs[i], inputs, inputs + |cs|, outputs)
  {
    forall e | e in edges
      ensures e !in IOEdges(cs[i], inputs, inputs + |cs|, outputs)
    {
      assert Origin(cs, tips, inputs, outputs, e, i);
    }
  }

  /** Every pair of cells that passes the proximity tests is connected
      from the cell whose axon reaches to the candidate. */
  ghost predicate Directed(cs: seq<Cell>, tips: seq<seq<Point>>, outputs: int, net: Network)
    requires |tips| == |cs|
  {
    forall a, b :: 0 <= a < |cs| && 0 <= b < |cs| && Allowed(cs, tips, outputs, a, b) ==>
      (cs[a].finalId, cs[b].finalId) in net.edges
  }

  /** Once every cell is handled, the network joins units of the network
      only, and every connection goes from a lower to a higher unit:
      cells are indexed above the input units and below the output units,
      and a cell connects only to candidates with a larger index. So a
      pair that passes the tests is connected in the direction of the
      axon, since a candidate always has the larger index. */
  lemma WiredShape(cs: seq<Cell>, tips: seq<seq<Point>>, inputs: int, outputs: int, net: Network, conns: int)
    requires |tips| == |cs| && inputs > 0 && outputs > 0
    requires Wired(cs, tips, inputs, outputs, net, conns, |cs|)
    requires Numbered(cs, inputs)
    ensures InRange(net) && FeedForward(net) && NoDuplicateEdges(net)
    ensures Directed(cs, tips, outputs, net)
  {
    forall e | e in net.edges
      ensures 0 <= e.0 < |net.enabled| && 0 <= e.1 < |net.enabled| && e.0 < e.1
    {
      assert Origin(cs, tips, inputs, outputs, e, |cs|);
    }
    forall a, b | 0 <= a < |cs| && 0 <= b < |cs| && Allowed(cs, tips, outputs, a, b)
      ensures (cs[a].finalId, cs[b].finalId) in net.edges
    {
      var back := (cs[b].finalId, cs[a].finalId);
      assert back in net.edges ==> back.0 < back.1;
    }
  }

  // Scaling (`growNet`).

  /** A cell moved from the unit square to the cell space of height
      ySize, its axon segments scaled to a tenth of that height. */
  function Scaled(c: Cell, ySize: real): Cell {
    c.(coord := Point(c.coord.x * ySize, c.coord.y * ySize), segLength := c.segLength * (0.1 * ySize))
  }

  /** Scaling changes only the position and the segment length, and a
      positive scale keeps the order by x that the indices follow. */
  lemma ScaledKeeps(c: Cell, d: Cell, a: int, b: int, ySize: real)
    requires ySize > 0.0
    ensures Scaled(c, ySize).(coord := c.coord, segLength := c.segLength) == c
    ensures Before(Scaled(c, ySize), a, Scaled(d, ySize), b) <==> Before(c, a, d, b)
  {
    if c.coord.x < d.coord.x {
      assert c.coord.x * ySize < d.coord.x * ySize;
    } else if d.coord.x < c.coord.x {
      assert d.coord.x * ySize < c.coord.x * ySize;
    }
  }

  function ScaledAll(cs: seq<Cell>, ySize: real): (rs: seq<Cell>)
    ensures |rs| == |cs|
  {
    seq(|cs|, k requires 0 <= k < |cs| => Scaled(cs[k], ySize))
  }

  /** The network wired from cells indexed by x and then scaled, when no
      cell has a negative type, joins units inside the network, only
      forward and never twice. */
  lemma GrownShape(cs: seq<Cell>, indexed: seq<Cell>, ySize: real, tips: seq<seq<Point>>, inputs: int, outputs: int,
                   net: Network, conns: int)
    requires forall k :: 0 <= k < |cs| ==> cs[k].typeId >= 0
    requires IdsByX(ResolvedAll(cs, 0.3, 0.7), indexed, inputs)
    requires |tips| == |indexed| && inputs > 0 && outputs > 0
    requires Wired(ScaledAll(indexed, ySize), tips, inputs, outputs, net, conns, |indexed|)
    ensures InRange(net) && FeedForward(net) && NoDuplicateEdges(net)
    ensures Directed(ScaledAll(indexed, ySize), tips, outputs, net)
  {
    var rs := ResolvedAll(cs, 0.3, 0.7);
    var scaled := ScaledAll(indexed, ySize);
    forall k | 0 <= k < |scaled|
      ensures inputs <= scaled[k].finalId < inputs + |scaled| && scaled[k].typeId >= 0
    {
      assert scaled[k] == Scaled(indexed[k], ySize);
      assert indexed[k] == rs[k].(finalId := indexed[k].finalId);
      assert rs[k] == Resolved(cs[k], 0.3, 0.7);
    }
    forall a, b | 0 <= a < b < |scaled|
      ensures scaled[a].finalId != scaled[b].finalId
    {
      assert scaled[a].finalId == indexed[a].finalId && scaled[b].finalId == indexed[b].finalId;
    }
    WiredShape(scaled, tips, inputs, outputs, net, conns);
  }

  class NolfiNet {
    var cells: seq<Cell>
    var hiddens: int
    var tipRadius: real
    const size: real
    const inputs: int
    const maxHidden: int
    const outputs: int
    const xSize: real
    const ySize: real
    const inputBorder: real
    const outputBorder: real
    const axonScale: real

    /** The cell space for a network of the given size: no cells yet, no
        hidden units yet, the input region left of 0.3 and the output
        region right of 0.7. */
    constructor(inputs: int, maxHidden: int, outputs: int, xSize: real, ySize: real, tipRadius: real, axonScale: real)
      ensures this.inputs == inputs && this.maxHidden == maxHidden && this.outputs == outputs
      ensures this.xSize == xSize && this.ySize == ySize && this.tipRadius == tipRadius && this.axonScale == axonScale
      ensures hiddens == 0 && cells == []
      ensures size == (if inputs > outputs then inputs + 1 else outputs + 1) as real
      ensures inputBorder == 0.3 && outputBorder == 0.7
    {
      this.inputs := inputs;
      this.maxHidden := maxHidden;
      hiddens := 0;
      this.outputs := outputs;
      this.xSize := xSize;
      this.ySize := ySize;
      size := (if inputs > outputs then inputs + 1 else outputs + 1) as real;
      inputBorder := 0.3;
      outputBorder := 0.7;
      this.tipRadius := tipRadius;
      this.axonScale := axonScale;
      cells := [];
    }

    /** `resolveTypes`: types every cell by its position and counts the
        cells given each type. */
    method ResolveTypes() returns (ins: int, hids: int, outs: int)
      modifies this
      requires forall k :: 0 <= k < |cells| ==> Resolvable(cells[k], inputBorder, outputBorder)
      ensures cells == ResolvedAll(old(cells), inputBorder, outputBorder)
      ensures ins == CountClass(old(cells), inputBorder, outputBorder, CT_INPUT)
      ensures hids == CountClass(old(cells), inputBorder, outputBorder, CT_HIDDEN)
      ensures outs == CountClass(old(cells), inputBorder, outputBorder, CT_OUTPUT)
      ensures hiddens == old(hiddens) && tipRadius == old(tipRadius)
    {
      var cs := cells;
      var inB, outB := inputBorder, outputBorder;
      ghost var orig := cs;
      ins, hids, outs := 0, 0, 0;
      for i := 0 to |cs|
        invariant |cs| == |orig|
        invariant forall k :: 0 <= k < i ==> cs[k] == Resolved(orig[k], inB, outB)
        invariant forall k :: i <= k < |cs| ==> cs[k] == orig[k]
        invariant ins == CountClass(orig[..i], inB, outB, CT_INPUT)
        invariant hids == CountClass(orig[..i], inB, outB, CT_HIDDEN)
        invariant outs == CountClass(orig[..i], inB, outB, CT_OUTPUT)
      {
        assert orig[..i + 1][..i] == orig[..i];
        var c := cs[i];
        assert Resolvable(c, inB, outB);
        if c.expression {
          if c.coord.x < inB {
            if c.coord.x >= 0.0 && c.coord.y >= 0.0 && c.coord.y <= 1.0 {
              cs := cs[i := c.(finalType := CT_INPUT)];
              ins := ins + 1;
            }
          } else if c.coord.x > outB {
            if c.coord.x <= 1.0 && c.coord.y >= 0.0 && c.coord.y <= 1.0 {
              cs := cs[i := c.(finalType := CT_OUTPUT)];
              outs := outs + 1;
            }
          } else {
            if c.coord.y >= 0.0 && c.coord.y <= 1.0 {
              cs := cs[i := c.(finalType := CT_HIDDEN)];
              hids := hids + 1;
            } else {
              assert false;
            }
          }
        }
      }
      assert orig[..|orig|] == orig;
      cells := cs;
    }

    /** `indexHiddens` as in src/nolfinet.cc: despite its name it indexes
        every cell, picking repeatedly the unindexed cell with the
        smallest x. */
    method IndexHiddens(hiddenCount: int)
      modifies this
      requires inputs >= 0
      requires forall k :: 0 <= k < |cells| ==> cells[k].finalId == EMPTYID && cells[k].coord.x <= 666.0
      ensures IdsByX(old(cells), cells, inputs)
      ensures hiddens == old(hiddens) && tipRadius == old(tipRadius)
    {
      var cs := cells;
      var base := inputs;
      ghost var orig := cs;
      AllEligible(cs, false);
      PickingStart(orig, base, false);
      for i := 0 to |cs|
        invariant CountEligible(orig, false) == |orig|
        invariant Picking(orig, cs, base, i, false)
        invariant hiddens == old(hiddens) && tipRadius == old(tipRadius)
      {
        EligibleExists(cs, false);
        var m := FindMin(cs, false);
        PickStep(orig, cs, base, i, false, m);
        cs := cs[m := cs[m].(finalId := i + base)];
      }
      PickedAll(orig, cs, base);
      cells := cs;
    }

    /** `indexCells`: types the cells, gives up unless every kind of unit
        is present and there are enough output cells, and otherwise
        indexes the cells and records the number of hidden cells. */
    method IndexCells() returns (ok: bool)
      modifies this
      requires inputs >= 0
      requires forall k :: 0 <= k < |cells| ==> Resolvable(cells[k], inputBorder, outputBorder)
      requires forall k :: 0 <= k < |cells| ==> cells[k].finalId == EMPTYID && cells[k].coord.x <= 666.0
      ensures ok == Accepts(old(cells), inputBorder, outputBorder, outputs)
      ensures !ok ==> cells == ResolvedAll(old(cells), inputBorder, outputBorder) && hiddens == old(hiddens)
      ensures ok ==> IdsByX(ResolvedAll(old(cells), inputBorder, outputBorder), cells, inputs)
      ensures ok ==> hiddens == CountClass(old(cells), inputBorder, outputBorder, CT_HIDDEN)
      ensures tipRadius == old(tipRadius)
    {
      var ins, hids, outs := ResolveTypes();
      if ins == 0 || hids == 0 || outs == 0 || outs < outputs {
        return false;
      }
      // indexInputs and indexOutputs do nothing in this version
      IndexHiddens(hids);
      hiddens := hids;
      return true;
    }

    /** `decodeFrom`: a genome-global tip radius replaces the configured
        one, then each of the maxHidden cells is a default cell with that
        tip radius overwritten by its own genes; a cell whose tip radius
        stays below 0.5 aborts the decoding. */
    method DecodeFrom(g: Genome<NKey>)
      modifies this
      requires maxHidden >= 0
      requires Tipr in g ==> HasReal(g, Tipr)
      requires forall i :: 0 <= i < maxHidden ==> DecodeReady(g, i)
      requires forall i :: 0 <= i < maxHidden ==> Checked(DecodedCell(g, i, TiprOr(g, tipRadius)))
      ensures tipRadius == TiprOr(g, old(tipRadius))
      ensures |cells| == maxHidden
      ensures forall i :: 0 <= i < maxHidden ==> cells[i] == DecodedCell(g, i, tipRadius)
      ensures hiddens == old(hiddens)
    {
      if Tipr in g {
        tipRadius := RealOf(g, Tipr);
      }
      var cs := seq(maxHidden, _ => Make());
      for i := 0 to maxHidden
        invariant tipRadius == TiprOr(g, old(tipRadius)) && hiddens == old(hiddens)
        invariant |cs| == maxHidden
        invariant forall k :: 0 <= k < i ==> cs[k] == DecodedCell(g, k, tipRadius)
        invariant forall k :: i <= k < maxHidden ==> cs[k] == Make()
      {
        var c := SetTipRadius(cs[i], tipRadius);
        c := DecodeCell(g, i, c);
        assert c == DecodedCell(g, i, TiprOr(g, old(tipRadius)));
        assert Checked(c);
        cs := cs[i := c];
      }
      cells := cs;
    }

    /** `removeDuplicates`: a cell whose index an earlier cell already
        holds loses its index, and the output count drops once for each
        index an output cell takes away. */
    method RemoveDuplicates(rOutputs: int) returns (outs: int)
      modifies this
      ensures cells == Deduplicated(old(cells))
      ensures outs == rOutputs - Drops(old(cells), |old(cells)|)
      ensures hiddens == old(hiddens) && tipRadius == old(tipRadius)
    {
      var cs := cells;
      ghost var orig := cs;
      var n := |cs|;
      outs := rOutputs;
      for i := 0 to n
        invariant |cs| == n
        invariant forall k :: 0 <= k < n ==> cs[k] == Cleared(orig, i, k)
        invariant outs == rOutputs - Drops(orig, i)
        invariant hiddens == old(hiddens) && tipRadius == old(tipRadius)
      {
        for j := i + 1 to n
          invariant |cs| == n
          invariant forall k :: 0 <= k < n ==> cs[k] == Cleared(orig, if i < k < j then i + 1 else i, k)
          invariant outs == rOutputs - Drops(orig, i) - RowDrops(orig, i, j)
          invariant hiddens == old(hiddens) && tipRadius == old(tipRadius)
        {
          ClearStep(orig, i, j);
          if cs[i].finalId != EMPTYID && cs[i].finalId == cs[j].finalId {
            cs := cs[j := cs[j].(finalId := EMPTYID)];
            if cs[i].finalType == CT_OUTPUT {
              outs := outs - 1;
            }
          }
        }
        assert forall k :: 0 <= k <= i ==> Cleared(orig, i, k) == Cleared(orig, i + 1, k);
      }
      assert forall k :: 0 <= k < n ==> Cleared(orig, n, k) == Cleared(orig, k, k);
      cells := cs;
    }

    /** `connect`: disables the units of unexpressed cells, joins input
        and output cells to the final input and output units, and joins
        each expressed cell to the candidates its axon tips reach, unless
        the candidate already feeds it; counts the last kind. The axon
        tips of cell i are tips[i]. */
    method Connect(network: Network, tips: seq<seq<Point>>) returns (net: Network, connections: int)
      requires |tips| == |cells| && inputs > 0 && outputs > 0
      requires network == Fresh(inputs + |cells| + outputs)
      requires forall k :: 0 <= k < |cells| ==> 0 <= cells[k].finalId < inputs + |cells| + outputs
      ensures Wired(cells, tips, inputs, outputs, net, connections, |cells|)
    {
      var cs := cells;
      net, connections := network, 0;
      WiredStart(cs, tips, inputs, outputs);
      for i := 0 to |cs|
        invariant Wired(cs, tips, inputs, outputs, net, connections, i)
      {
        net, connections := ConnectCell(cs, tips, inputs, outputs, net, connections, i);
      }
    }

    /** `growNet`: indexes the cells, gives up when that fails, scales the
        cells to the cell space, and wires a fresh network of
        inputs + cells + outputs units; gives up as well when no cell
        reaches another. The tips are those of the scaled cells. */
    method GrowNet(tips: seq<seq<Point>>) returns (result: Option<Network>, ghost indexed: seq<Cell>,
                                                   ghost built: Network, ghost connections: int)
      modifies this
      requires inputs > 0 && outputs > 0 && |tips| == |cells|
      requires forall k :: 0 <= k < |cells| ==> Resolvable(cells[k], inputBorder, outputBorder)
      requires forall k :: 0 <= k < |cells| ==> cells[k].finalId == EMPTYID && cells[k].coord.x <= 666.0
      ensures !Accepts(old(cells), inputBorder, outputBorder, outputs) ==>
        result.None? && cells == ResolvedAll(old(cells), inputBorder, outputBorder)
      ensures Accepts(old(cells), inputBorder, outputBorder, outputs) ==>
        && IdsByX(ResolvedAll(old(cells), inputBorder, outputBorder), indexed, inputs)
        && cells == ScaledAll(indexed, ySize)
        && hiddens == CountClass(old(cells), inputBorder, outputBorder, CT_HIDDEN)
        && Wired(cells, tips, inputs, outputs, built, connections, |cells|)
        && (result.Some? <==> connections != 0)
        && (result.Some? ==> result.value == built)
      ensures tipRadius == old(tipRadius)
    {
      var ok := IndexCells();
      indexed := cells;
      if !ok {
        return None, indexed, Fresh(0), 0;
      }
      var cs := cells;
      for i := 0 to |cs|
        invariant |cs| == |indexed|
        invariant forall k :: 0 <= k < i ==> cs[k] == Scaled(indexed[k], ySize)
        invariant forall k :: i <= k < |cs| ==> cs[k] == indexed[k]
      {
        cs := cs[i := Scaled(cs[i], ySize)];
      }
      cells := cs;
      var net, conns := Connect(Fresh(inputs + |cells| + outputs), tips);
      built, connections := net, conns;
      if conns == 0 {
        return None, indexed, built, connections;
      }
      return Some(net), indexed, built, connections;
    }
  }
}
