/**
 The polygon graph the path finder walks, and what a search state over it must satisfy.
 Geometry enters only through functions of positions with natural-number costs.
 */
module PathGraph {
  import opened SearchNode

  /** `side` is the tile border a link crosses, or 255 for a link inside a tile. */
  type Side = s: int | 0 <= s < 8 || s == 255
  datatype Link = Link(ref: PolyRef, side: Side)

  datatype World = World(
    valid: PolyRef -> bool,
    links: PolyRef -> seq<Link>,
    passes: PolyRef -> bool,
    midpoint: (PolyRef, PolyRef) -> Pos,
    cost: (Pos, Pos, PolyRef, PolyRef, PolyRef) -> nat,
    heuristic: (Pos, Pos) -> nat)

  datatype Query = Query(start: PolyRef, end: PolyRef, startPos: Pos, endPos: Pos)

  // ---------- Walks ----------

  /** A link from `a` to `b` that the filter lets through. */
  ghost predicate Step(w: World, a: PolyRef, b: PolyRef) {
    b != 0 && w.passes(b) && exists l :: l in w.links(a) && l.ref == b
  }

  ghost predicate IsWalk(w: World, r: seq<PolyRef>) {
    |r| > 0 && forall k :: 0 < k < |r| ==> Step(w, r[k - 1], r[k])
  }

  ghost predicate IsWalkBetween(w: World, r: seq<PolyRef>, a: PolyRef, b: PolyRef) {
    IsWalk(w, r) && r[0] == a && r[|r| - 1] == b
  }

  ghost predicate Reachable(w: World, a: PolyRef, b: PolyRef) {
    exists r :: IsWalkBetween(w, r, a, b)
  }

  // ---------- Parent chains ----------

  /** The indices from the start node (index 0) down parent pointers to node `i`. */
  ghost predicate IsChain(ns: seq<Node>, c: seq<nat>, i: nat) {
    && |c| > 0 && c[0] == 0 && c[|c| - 1] == i
    && (forall k :: 0 <= k < |c| ==> c[k] < |ns|)
    && (forall k :: 0 < k < |c| ==> ns[c[k]].pidx == c[k - 1] + 1)
  }

  ghost predicate HasChain(ns: seq<Node>, i: nat) {
    exists c :: IsChain(ns, c, i)
  }

  /** Parent pointers form a tree rooted at the start node. */
  ghost predicate Forest(ns: seq<Node>) {
    forall i :: 0 <= i < |ns| ==> HasChain(ns, i)
  }

  /**
   What going from `p` on to `n` costs when `p` was reached from `before`; the goal adds the way to the end
   position.
   */
  function EdgeCost(w: World, q: Query, before: PolyRef, p: Node, n: Node): nat {
    w.cost(p.pos, n.pos, before, p.id, n.id) + if n.id == q.end then w.cost(n.pos, q.endPos, p.id, n.id, 0) else 0
  }

  /** The cost of `n` covers that of `p` and of the edge between them. */
  ghost predicate Covers(w: World, q: Query, p: Node, n: Node) {
    exists before :: p.cost + EdgeCost(w, q, before, p, n) <= n.cost
  }

  /** Facts about one node other than the start and its parent. */
  ghost predicate ChildOk(w: World, q: Query, ns: seq<Node>, i: nat)
    requires i < |ns|
  {
    var n := ns[i];
    && 0 < n.pidx <= |ns|
    && var p := ns[n.pidx - 1];
       p.id != q.end && Covers(w, q, p, n) && Step(w, p.id, n.id)
  }

  ghost predicate NodeOk(w: World, q: Query, ns: seq<Node>, i: nat)
    requires i < |ns|
  {
    var n := ns[i];
    && n.open != n.closed
    && (n.closed ==> n.id != q.end)
    && n.total == n.cost + (if n.id == q.end then 0 else w.heuristic(n.pos, q.endPos))
    && (i > 0 ==> ChildOk(w, q, ns, i))
  }

  ghost predicate StartOk(w: World, q: Query, ns: seq<Node>) {
    && |ns| > 0 && q.start != q.end
    && ns[0].id == q.start && ns[0].state == 0 && ns[0].cost == 0 && ns[0].pidx == 0 && ns[0].pos == q.startPos
  }

  ghost predicate TreeOk(w: World, q: Query, ns: seq<Node>) {
    && StartOk(w, q, ns)
    && (forall i: nat :: i < |ns| ==> NodeOk(w, q, ns, i))
    && Forest(ns)
  }

  ghost predicate Visited(ns: seq<Node>, ref: PolyRef) {
    exists i :: 0 <= i < |ns| && ns[i].id == ref
  }

  /** The first `k` links of a polygon lead to visited polygons, unless filtered out. */
  ghost predicate Expanded(w: World, ns: seq<Node>, ref: PolyRef, k: nat) {
    forall j :: 0 <= j < k && j < |w.links(ref)| ==>
      w.links(ref)[j].ref == 0 || !w.passes(w.links(ref)[j].ref) || Visited(ns, w.links(ref)[j].ref)
  }

  /** Every closed node, except `but`, has all its links expanded. */
  ghost predicate ClosedExpanded(w: World, ns: seq<Node>, but: int) {
    forall i :: 0 <= i < |ns| && i != but && ns[i].closed ==> Expanded(w, ns, ns[i].id, |w.links(ns[i].id)|)
  }

  // ---------- Costs along a chain ----------

  /** Costs never decrease along a chain, and everything above its last node has been expanded. */
  lemma {:induction false} ChainCosts(w: World, q: Query, ns: seq<Node>, c: seq<nat>, i: nat, k: nat)
    requires TreeOk(w, q, ns) && IsChain(ns, c, i) && k < |c|
    ensures ns[c[k]].cost <= ns[i].cost
    ensures k + 1 < |c| ==> ns[c[k]].id != q.end
    decreases |c| - k
  {
    if k + 1 < |c| {
      ChainNonRoot(ns, c, i, k + 1);
      assert NodeOk(w, q, ns, c[k + 1]);
      ChainCosts(w, q, ns, c, i, k + 1);
    }
  }

  lemma ChainNonRoot(ns: seq<Node>, c: seq<nat>, i: nat, k: nat)
    requires IsChain(ns, c, i) && 0 < k < |c| && ns[0].pidx == 0
    ensures c[k] != 0
  {
    assert ns[c[k]].pidx == c[k - 1] + 1;
  }

  /** A node that would improve by hanging under `b` is not an ancestor of `b`, nor `b` itself. */
  lemma NotAncestor(w: World, q: Query, ns: seq<Node>, c: seq<nat>, b: nat, v: nat, cost: nat)
    requires TreeOk(w, q, ns) && b < |ns| && v < |ns| && IsChain(ns, c, b)
    requires ns[b].id != q.end
    requires ns[b].cost <= cost
    requires ns[v].id != q.end ==> cost + w.heuristic(ns[v].pos, q.endPos) < ns[v].total
    ensures v !in c
  {
    assert NodeOk(w, q, ns, v);
    forall k | 0 <= k < |c|
      ensures c[k] != v
    {
      ChainCosts(w, q, ns, c, b, k);
    }
  }

  // ---------- Reparenting keeps the tree ----------

  lemma LastOccurrence(c: seq<nat>, v: nat) returns (k: nat)
    requires v in c
    ensures k < |c| && c[k] == v && v !in c[k + 1..]
  {
    k := |c| - 1;
    while c[k] != v
      invariant k < |c| && v !in c[k + 1..]
      decreases k
    {
      k := k - 1;
    }
  }

  /** `ns'` differs from `ns` only in node `v`, which keeps its key and now hangs under `b`. */
  ghost predicate Reparented(ns: seq<Node>, ns': seq<Node>, v: nat, b: nat) {
    && v < |ns'| && b < |ns| && |ns| <= |ns'| <= |ns| + 1 && (|ns'| == |ns| + 1 ==> v == |ns|)
    && (forall k :: 0 <= k < |ns| && k != v ==> ns'[k] == ns[k])
    && ns'[v].pidx == b + 1
  }

  lemma ReparentedChain(ns: seq<Node>, ns': seq<Node>, v: nat, b: nat, cb: seq<nat>, i: nat) returns (c': seq<nat>)
    requires Forest(ns) && Reparented(ns, ns', v, b) && v != 0
    requires IsChain(ns, cb, b) && v !in cb
    requires i < |ns'|
    ensures IsChain(ns', c', i)
  {
    if i == v {
      c' := cb + [v];
    } else {
      assert HasChain(ns, i);
      var c :| IsChain(ns, c, i);
      if v !in c {
        c' := c;
      } else {
        var k := LastOccurrence(c, v);
        c' := cb + c[k..];
        SplicedChain(ns, ns', v, b, cb, c, i, k);
      }
    }
  }

  lemma SplicedChain(ns: seq<Node>, ns': seq<Node>, v: nat, b: nat, cb: seq<nat>, c: seq<nat>, i: nat, at: nat)
    requires Reparented(ns, ns', v, b) && IsChain(ns, cb, b) && v !in cb
    requires IsChain(ns, c, i) && at < |c| && c[at] == v && v !in c[at + 1..]
    ensures IsChain(ns', cb + c[at..], i)
  {
    var d := cb + c[at..];
    forall k | 0 < k < |d|
      ensures ns'[d[k]].pidx == d[k - 1] + 1
    {
      if k < |cb| {
        assert d[k] == cb[k] && d[k - 1] == cb[k - 1];
      } else if k > |cb| {
        var m := k - |cb| + at;
        assert d[k] == c[m] && d[k - 1] == c[m - 1] && c[m] == c[at + 1..][m - at - 1];
      }
    }
  }

  lemma ReparentedForest(ns: seq<Node>, ns': seq<Node>, v: nat, b: nat, cb: seq<nat>)
    requires Forest(ns) && Reparented(ns, ns', v, b) && v != 0
    requires IsChain(ns, cb, b) && v !in cb
    ensures Forest(ns')
  {
    forall i | 0 <= i < |ns'|
      ensures HasChain(ns', i)
    {
      var c' := ReparentedChain(ns, ns', v, b, cb, i);
    }
  }

  // ---------- What a finished search says ----------

  /** The polygons along a chain form a walk. */
  lemma ChainIsWalk(w: World, q: Query, ns: seq<Node>, c: seq<nat>, i: nat) returns (r: seq<PolyRef>)
    requires TreeOk(w, q, ns) && IsChain(ns, c, i)
    ensures |r| == |c| && forall k :: 0 <= k < |c| ==> r[k] == ns[c[k]].id
    ensures IsWalkBetween(w, r, q.start, ns[i].id)
  {
    r := seq(|c|, k requires 0 <= k < |c| => ns[c[k]].id);
    forall k | 0 < k < |r|
      ensures Step(w, r[k - 1], r[k])
    {
      ChainNonRoot(ns, c, i, k);
      assert NodeOk(w, q, ns, c[k]);
    }
  }

  /** When nothing is open, the visited polygons are closed under links, so they are all that can be reached. */
  lemma {:induction false} WalkStaysVisited(w: World, q: Query, ns: seq<Node>, r: seq<PolyRef>, k: nat)
    requires TreeOk(w, q, ns) && ClosedExpanded(w, ns, -1)
    requires forall i :: 0 <= i < |ns| ==> !ns[i].open
    requires IsWalk(w, r) && r[0] == q.start && k < |r|
    ensures Visited(ns, r[k])
  {
    if k > 0 {
      WalkStaysVisited(w, q, ns, r, k - 1);
      var i :| 0 <= i < |ns| && ns[i].id == r[k - 1];
      assert NodeOk(w, q, ns, i);
      assert Step(w, r[k - 1], r[k]);
      var l :| l in w.links(r[k - 1]) && l.ref == r[k];
      var j :| 0 <= j < |w.links(r[k - 1])| && w.links(r[k - 1])[j] == l;
      assert Expanded(w, ns, r[k - 1], |w.links(r[k - 1])|);
    }
  }

  /** The visited polygons are exactly those that can be reached. */
  ghost predicate AllReached(w: World, q: Query, ns: seq<Node>) {
    forall ref :: Reachable(w, q.start, ref) <==> Visited(ns, ref)
  }

  lemma ExhaustedReachesAll(w: World, q: Query, ns: seq<Node>)
    requires TreeOk(w, q, ns) && ClosedExpanded(w, ns, -1)
    requires forall i :: 0 <= i < |ns| ==> !ns[i].open
    ensures AllReached(w, q, ns)
  {
    forall ref
      ensures Reachable(w, q.start, ref) <==> Visited(ns, ref)
    {
      if Reachable(w, q.start, ref) {
        var r :| IsWalkBetween(w, r, q.start, ref);
        WalkStaysVisited(w, q, ns, r, |r| - 1);
      }
      if Visited(ns, ref) {
        var i :| 0 <= i < |ns| && ns[i].id == ref;
        assert HasChain(ns, i);
        var c :| IsChain(ns, c, i);
        var r := ChainIsWalk(w, q, ns, c, i);
      }
    }
  }
}
