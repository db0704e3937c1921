/**
 When a finished search has found a cheapest walk: if a polygon's place does not depend on how it was entered,
 costs ignore where a polygon was reached from, and the heuristic is consistent.
 */
module CheapestPath {
  import opened NodePool
  import opened NodeQueue
  import opened PathGraph
  import opened SearchNode
  import opened SearchState

  /** Where each polygon is. */
  type Places = PolyRef -> Pos

  /**
   A polygon's place does not depend on how it is entered: the start is at the start position, and the middle of
   every edge into another is its place. A way back to the start leads to its node, or to the same place.
   */
  ghost predicate OnePlace(w: World, q: Query, at: Places) {
    && at(q.start) == q.startPos
    && forall a, l :: l in w.links(a) && l.ref != 0 && w.passes(l.ref) ==>
         w.midpoint(a, l.ref) == at(l.ref) || (l.ref == q.start && (l.side == 255 || l.side / 2 == 0))
  }

  /** All visited nodes are where this says their polygons are. */
  ghost predicate Placed(ns: seq<Node>, at: Places) {
    forall i :: 0 <= i < |ns| ==> ns[i].pos == at(ns[i].id)
  }

  /** Costs ignore where the first polygon was reached from. */
  ghost predicate Memoryless(w: World) {
    forall x, y, p, p', a, b :: w.cost(x, y, p, a, b) == w.cost(x, y, p', a, b)
  }

  /** What a step costs; arriving at the goal includes the way to the end position. */
  function StepCost(w: World, q: Query, at: Places, a: PolyRef, b: PolyRef): nat {
    w.cost(at(a), at(b), 0, a, b) + if b == q.end then w.cost(at(b), q.endPos, a, b, 0) else 0
  }

  function WalkCost(w: World, q: Query, at: Places, r: seq<PolyRef>): nat {
    if |r| <= 1 then 0 else WalkCost(w, q, at, r[..|r| - 1]) + StepCost(w, q, at, r[|r| - 2], r[|r| - 1])
  }

  /** The heuristic, nothing being left to do at the goal. */
  function Ahead(w: World, q: Query, at: Places, ref: PolyRef): nat {
    if ref == q.end then 0 else w.heuristic(at(ref), q.endPos)
  }

  /** The heuristic never drops by more than a step costs. */
  ghost predicate Consistent(w: World, q: Query, at: Places) {
    forall a, b :: Step(w, a, b) && a != q.end ==> Ahead(w, q, at, a) <= StepCost(w, q, at, a, b) + Ahead(w, q, at, b)
  }

  /** The walk costs no more than any other from the start to the goal. */
  ghost predicate Cheapest(w: World, q: Query, r: seq<PolyRef>) {
    forall at: Places, other ::
      OnePlace(w, q, at) && Memoryless(w) && Consistent(w, q, at) && IsWalkBetween(w, other, q.start, q.end)
      ==> WalkCost(w, q, at, r) <= WalkCost(w, q, at, other)
  }

  /** No open node has a lower total. */
  ghost predicate LeastTotal(ns: seq<Node>, b: nat) {
    b < |ns| && forall k :: 0 <= k < |ns| && ns[k].open ==> ns[b].total <= ns[k].total
  }

  // ---------- The frontier on a walk ----------

  /** A closed node of this polygon costs no more than this. */
  ghost predicate Behind(ns: seq<Node>, ref: PolyRef, cost: nat) {
    exists i :: 0 <= i < |ns| && ns[i].id == ref && ns[i].closed && ns[i].cost <= cost
  }

  lemma SameCost(w: World, q: Query, at: Places, before: PolyRef, p: Node, n: Node)
    requires Memoryless(w) && p.pos == at(p.id) && n.pos == at(n.id)
    ensures EdgeCost(w, q, before, p, n) == StepCost(w, q, at, p.id, n.id)
  {
    assert w.cost(p.pos, n.pos, before, p.id, n.id) == w.cost(p.pos, n.pos, 0, p.id, n.id);
  }

  /**
   A node that costs no more than a walk to it is behind the frontier, or the goal is no dearer than going on from
   it.
   */
  lemma AtFrontier(w: World, q: Query, at: Places, ns: seq<Node>, b: nat, v: nat, cost: nat)
    requires TreeOk(w, q, ns) && LeastTotal(ns, b) && Placed(ns, at) && v < |ns|
    requires ns[v].total <= cost + Ahead(w, q, at, ns[v].id)
    ensures Behind(ns, ns[v].id, cost) || ns[b].total <= cost + Ahead(w, q, at, ns[v].id)
  {
    assert NodeOk(w, q, ns, v);
  }

  /** One step on from behind the frontier. */
  lemma FrontierStep(w: World, q: Query, at: Places, ns: seq<Node>, b: nat, i: nat, ref: PolyRef, cost: nat)
    requires TreeOk(w, q, ns) && ClosedRelaxed(w, q, ns, -1) && LeastTotal(ns, b) && Placed(ns, at) && Memoryless(w)
    requires i < |ns| && ns[i].closed && ns[i].cost <= cost && Step(w, ns[i].id, ref)
    ensures var cost' := cost + StepCost(w, q, at, ns[i].id, ref);
            Behind(ns, ref, cost') || ns[b].total <= cost' + Ahead(w, q, at, ref)
  {
    hide TreeOk, ClosedRelaxed, StepCost, Behind, LeastTotal;
    var l := LinkTo(w, q, ns, i, ref);
    var cost' := cost + StepCost(w, q, at, ns[i].id, ref);
    if l.ref == ParentRef(ns, i) {
      BackToParent(w, q, at, ns, i, ref);
      AtFrontier(w, q, at, ns, b, ns[i].pidx - 1, cost');
    } else {
      var v :| NoBetter(w, q, ns, i, l, v);
      LinkEnd(w, q, at, ns, i, l, v);
      AtFrontier(w, q, at, ns, b, v, cost');
    }
  }

  /** The link of a step, which the closed node has dealt with. */
  lemma LinkTo(w: World, q: Query, ns: seq<Node>, i: nat, ref: PolyRef) returns (l: Link)
    requires ClosedRelaxed(w, q, ns, -1) && i < |ns| && ns[i].closed && Step(w, ns[i].id, ref)
    ensures l.ref == ref && ref != 0 && w.passes(ref) && Settled(w, q, ns, i, l)
  {
    l :| l in w.links(ns[i].id) && l.ref == ref;
    assert Relaxed(w, q, ns, i, |w.links(ns[i].id)|);
    var j :| 0 <= j < |w.links(ns[i].id)| && w.links(ns[i].id)[j] == l;
  }

  /** A link straight back leads to a node that costs no more. */
  lemma BackToParent(w: World, q: Query, at: Places, ns: seq<Node>, i: nat, ref: PolyRef)
    requires TreeOk(w, q, ns) && Placed(ns, at) && i < |ns| && ref == ParentRef(ns, i) && ref != 0
    ensures 0 < ns[i].pidx <= |ns|
    ensures var p := ns[ns[i].pidx - 1];
            p.id == ref && p.total <= ns[i].cost + Ahead(w, q, at, ref)
  {
    assert NodeOk(w, q, ns, i);
    assert NodeOk(w, q, ns, ns[i].pidx - 1);
  }

  /** The end of a link is no worse off than reached over it. */
  lemma LinkEnd(w: World, q: Query, at: Places, ns: seq<Node>, i: nat, l: Link, v: nat)
    requires TreeOk(w, q, ns) && Placed(ns, at) && Memoryless(w) && i < |ns| && NoBetter(w, q, ns, i, l, v)
    ensures ns[v].id == l.ref
    ensures ns[v].total <= ns[i].cost + StepCost(w, q, at, ns[i].id, l.ref) + Ahead(w, q, at, l.ref)
  {
    assert NodeOk(w, q, ns, v);
    SameCost(w, q, at, ParentRef(ns, i), ns[i], ns[v]);
  }

  /** Along any walk from the start, the search is behind, or the goal is no dearer than going on. */
  lemma {:induction false} Frontier(w: World, q: Query, at: Places, ns: seq<Node>, b: nat, r: seq<PolyRef>, j: nat)
    requires TreeOk(w, q, ns) && ClosedRelaxed(w, q, ns, -1) && LeastTotal(ns, b)
    requires Placed(ns, at) && Memoryless(w) && Consistent(w, q, at)
    requires IsWalk(w, r) && r[0] == q.start && j < |r| && forall k :: 0 <= k < j ==> r[k] != q.end
    ensures var cost := WalkCost(w, q, at, r[..j + 1]);
            Behind(ns, r[j], cost) || ns[b].total <= cost + Ahead(w, q, at, r[j])
  {
    hide ClosedRelaxed, LeastTotal, StepCost, Consistent, Placed, Memoryless;
    var cost := WalkCost(w, q, at, r[..j + 1]);
    if j == 0 {
      assert NodeOk(w, q, ns, 0);
      StartAhead(w, q, at, ns);
      AtFrontier(w, q, at, ns, b, 0, cost);
    } else {
      Frontier(w, q, at, ns, b, r, j - 1);
      var before := WalkCost(w, q, at, r[..j]);
      assert r[..j + 1][..j] == r[..j] && Step(w, r[j - 1], r[j]);
      assert cost == before + StepCost(w, q, at, r[j - 1], r[j]);
      if Behind(ns, r[j - 1], before) {
        var i :| 0 <= i < |ns| && ns[i].id == r[j - 1] && ns[i].closed && ns[i].cost <= before;
        FrontierStep(w, q, at, ns, b, i, r[j], before);
      } else {
        OneStepOn(w, q, at, r[j - 1], r[j]);
      }
    }
  }

  lemma StartAhead(w: World, q: Query, at: Places, ns: seq<Node>)
    requires TreeOk(w, q, ns) && Placed(ns, at)
    ensures ns[0].id == q.start && ns[0].total == Ahead(w, q, at, q.start)
  {
    assert NodeOk(w, q, ns, 0);
  }

  lemma OneStepOn(w: World, q: Query, at: Places, a: PolyRef, b: PolyRef)
    requires Consistent(w, q, at) && Step(w, a, b) && a != q.end
    ensures Ahead(w, q, at, a) <= StepCost(w, q, at, a, b) + Ahead(w, q, at, b)
  {
  }

  // ---------- The cheapest walk ----------

  /** Where places do not depend on how they are entered, every node of a search is at its polygon's place. */
  lemma AllPlaced(w: World, q: Query, at: Places, ns: seq<Node>)
    requires Standing(w, q, ns) && UniqueKeys(ns) && OnePlace(w, q, at)
    ensures Placed(ns, at)
  {
    forall i | 0 <= i < |ns|
      ensures ns[i].pos == at(ns[i].id)
    {
      if i > 0 {
        assert Stands(w, ns, i);
        var b: nat, l :| b < |ns| && EnteredBy(w, ns, b, l, i);
        assert !IsKey(ns[i], ns[0].id, ns[0].state);
      }
    }
  }

  lemma {:induction false} PrefixCost(w: World, q: Query, at: Places, r: seq<PolyRef>, j: nat)
    requires j <= |r|
    ensures WalkCost(w, q, at, r[..j]) <= WalkCost(w, q, at, r)
    decreases |r|
  {
    if j < |r| {
      assert r[..|r| - 1][..j] == r[..j];
      PrefixCost(w, q, at, r[..|r| - 1], j);
    } else {
      assert r[..j] == r;
    }
  }

  lemma FirstArrival(r: seq<PolyRef>, end: PolyRef) returns (j: nat)
    requires end in r
    ensures j < |r| && r[j] == end && forall k :: 0 <= k < j ==> r[k] != end
  {
    j := 0;
    while r[j] != end
      invariant j < |r| && end in r[j..] && forall k :: 0 <= k < j ==> r[k] != end
      decreases |r| - j
    {
      j := j + 1;
    }
  }

  /** No walk to the goal costs less than the goal's node. */
  lemma GoalIsLeast(w: World, q: Query, at: Places, ns: seq<Node>, b: nat, other: seq<PolyRef>)
    requires TreeOk(w, q, ns) && ClosedRelaxed(w, q, ns, -1) && LeastTotal(ns, b) && ns[b].id == q.end
    requires Placed(ns, at) && Memoryless(w) && Consistent(w, q, at) && IsWalkBetween(w, other, q.start, q.end)
    ensures ns[b].cost <= WalkCost(w, q, at, other)
  {
    hide ClosedRelaxed, StepCost, Consistent, Placed, Memoryless;
    var j := FirstArrival(other, q.end);
    Frontier(w, q, at, ns, b, other, j);
    PrefixCost(w, q, at, other, j + 1);
    assert NodeOk(w, q, ns, b);
    GoalAhead(w, q, ns, WalkCost(w, q, at, other[..j + 1]));
  }

  /** The goal is never closed while the search goes on. */
  lemma GoalAhead(w: World, q: Query, ns: seq<Node>, cost: nat)
    requires TreeOk(w, q, ns)
    ensures !Behind(ns, q.end, cost)
  {
    forall i | 0 <= i < |ns|
      ensures !(ns[i].id == q.end && ns[i].closed)
    {
      assert NodeOk(w, q, ns, i);
    }
  }

  /** The walk along a parent chain costs no more than its last node. */
  lemma {:induction false} ChainCost(w: World, q: Query, at: Places, ns: seq<Node>, c: seq<nat>, i: nat,
                                     r: seq<PolyRef>, k: nat)
    requires TreeOk(w, q, ns) && IsChain(ns, c, i) && Placed(ns, at) && Memoryless(w)
    requires |r| == |c| && (forall m :: 0 <= m < |c| ==> r[m] == ns[c[m]].id) && k < |c|
    ensures WalkCost(w, q, at, r[..k + 1]) <= ns[c[k]].cost
  {
    hide StepCost, EdgeCost;
    if k > 0 {
      ChainCost(w, q, at, ns, c, i, r, k - 1);
      assert r[..k + 1][..k] == r[..k];
      ChainNonRoot(ns, c, i, k);
      assert NodeOk(w, q, ns, c[k]);
      var p, n := ns[c[k - 1]], ns[c[k]];
      var before :| p.cost + EdgeCost(w, q, before, p, n) <= n.cost;
      SameCost(w, q, at, before, p, n);
    }
  }

  /** The walk a search ends with, when the goal comes off the open list, is a cheapest one. */
  lemma FoundCheapest(w: World, q: Query, ns: seq<Node>, b: nat, c: seq<nat>, r: seq<PolyRef>)
    requires TreeOk(w, q, ns) && ClosedRelaxed(w, q, ns, -1) && LeastTotal(ns, b) && ns[b].id == q.end
    requires IsChain(ns, c, b) && |r| == |c| && forall m :: 0 <= m < |c| ==> r[m] == ns[c[m]].id
    requires Standing(w, q, ns) && UniqueKeys(ns)
    ensures Cheapest(w, q, r)
  {
    hide TreeOk, ClosedRelaxed, LeastTotal, Memoryless, Consistent, Placed, OnePlace, IsWalkBetween, Standing;
    forall at: Places, other | OnePlace(w, q, at) && Memoryless(w) && Consistent(w, q, at)
                               && IsWalkBetween(w, other, q.start, q.end)
      ensures WalkCost(w, q, at, r) <= WalkCost(w, q, at, other)
    {
      AllPlaced(w, q, at, ns);
      GoalIsLeast(w, q, at, ns, b, other);
      ChainCost(w, q, at, ns, c, b, r, |c| - 1);
      assert r[..|c|] == r;
    }
  }
}
