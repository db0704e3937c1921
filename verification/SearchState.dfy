/** The state of an A* search as a value: its invariant, one improvement step, and the open list. */
module SearchState {
  import opened SearchNode
  import opened NodeQueue
  import opened PathGraph

  // ---------- The search state as a value ----------

  function OpenSet(ns: seq<Node>): set<nat> {
    set i: nat | i < |ns| && ns[i].open
  }

  /** The last part of the termination measure: a revisit always lowers some total. */
  function SumTotals(ns: seq<Node>): nat {
    if ns == [] then 0 else SumTotals(ns[..|ns| - 1]) + ns[|ns| - 1].total
  }

  lemma {:induction false} SumUpdate(ns: seq<Node>, v: nat, n: Node)
    requires v < |ns|
    ensures SumTotals(ns[v := n]) == SumTotals(ns) - ns[v].total + n.total
  {
    var last := |ns| - 1;
    if v == last {
      assert ns[v := n][..last] == ns[..last];
    } else {
      assert ns[v := n][..last] == ns[..last][v := n];
      SumUpdate(ns[..last], v, n);
    }
  }

  /** The best node so far has the least heuristic among visited nodes, as long as the goal is not among them. */
  ghost predicate Nearest(w: World, q: Query, ns: seq<Node>, last: nat, least: nat) {
    && last < |ns|
    && (!Visited(ns, q.end) ==>
          w.heuristic(ns[last].pos, q.endPos) == least
          && forall i :: 0 <= i < |ns| ==> least <= w.heuristic(ns[i].pos, q.endPos))
  }

  /** The reference of the parent of node `b`, or 0 for the start. */
  function ParentRef(ns: seq<Node>, b: nat): PolyRef
    requires b < |ns|
  {
    if 0 < ns[b].pidx <= |ns| then ns[ns[b].pidx - 1].id else 0
  }

  /** The state under which a link's end is kept: the border it crosses. */
  function CrossSide(l: Link): nat { if l.side != 255 then l.side / 2 else 0 }

  /** Node `v` is no worse off than it would be as reached over this link out of node `b`. */
  ghost predicate NoBetter(w: World, q: Query, ns: seq<Node>, b: nat, l: Link, v: nat)
    requires b < |ns|
  {
    && v < |ns| && ns[v].id == l.ref && ns[v].state == CrossSide(l)
    && ns[v].total <= ns[b].cost + w.cost(ns[b].pos, ns[v].pos, ParentRef(ns, b), ns[b].id, l.ref)
                      + if l.ref == q.end then w.cost(ns[v].pos, q.endPos, ns[b].id, l.ref, 0)
                        else w.heuristic(ns[v].pos, q.endPos)
  }

  // ---------- Where nodes stand ----------

  /** Node `i` stands in the middle of the edge that this link out of node `b` crosses. */
  ghost predicate EnteredBy(w: World, ns: seq<Node>, b: nat, l: Link, i: nat)
    requires b < |ns| && i < |ns|
  {
    && l in w.links(ns[b].id) && l.ref != 0 && w.passes(l.ref)
    && ns[i].id == l.ref && ns[i].state == (if l.side == 255 then 0 else l.side / 2)
    && ns[i].pos == w.midpoint(ns[b].id, l.ref)
  }

  ghost predicate Stands(w: World, ns: seq<Node>, i: nat) {
    i < |ns| && exists b: nat, l :: b < |ns| && EnteredBy(w, ns, b, l, i)
  }

  /** The start node stands at the start position, every other where it was first entered from a visited polygon. */
  ghost predicate Standing(w: World, q: Query, ns: seq<Node>) {
    && |ns| > 0 && ns[0].id == q.start && ns[0].state == 0 && ns[0].pos == q.startPos
    && forall i: nat :: 0 < i < |ns| ==> Stands(w, ns, i)
  }

  /** Nodes keep their keys and places. */
  ghost predicate Kept(ns: seq<Node>, ns': seq<Node>) {
    && |ns| <= |ns'|
    && forall i :: 0 <= i < |ns| ==> ns'[i].id == ns[i].id && ns'[i].state == ns[i].state && ns'[i].pos == ns[i].pos
  }

  lemma StandingKept(w: World, q: Query, ns: seq<Node>, ns': seq<Node>)
    requires Standing(w, q, ns) && Kept(ns, ns') && |ns'| <= |ns| + 1
    requires |ns'| > |ns| ==> Stands(w, ns', |ns|)
    ensures Standing(w, q, ns')
  {
    forall i: nat | 0 < i < |ns|
      ensures Stands(w, ns', i)
    {
      assert Stands(w, ns, i);
      var b: nat, l :| b < |ns| && EnteredBy(w, ns, b, l, i);
      assert EnteredBy(w, ns', b, l, i);
    }
  }

  /** The link is not followed, or its end is no worse off than reached over it. */
  ghost predicate Settled(w: World, q: Query, ns: seq<Node>, b: nat, l: Link)
    requires b < |ns|
  {
    l.ref == 0 || l.ref == ParentRef(ns, b) || !w.passes(l.ref) || exists v :: NoBetter(w, q, ns, b, l, v)
  }

  /** The first `k` links of node `b` offer nobody anything better. */
  ghost predicate Relaxed(w: World, q: Query, ns: seq<Node>, b: nat, k: nat)
    requires b < |ns|
  {
    forall j {:trigger Settled(w, q, ns, b, w.links(ns[b].id)[j])} ::
      0 <= j < k && j < |w.links(ns[b].id)| ==> Settled(w, q, ns, b, w.links(ns[b].id)[j])
  }

  /** No link of a closed node, except `but`, offers anybody anything better. */
  ghost predicate ClosedRelaxed(w: World, q: Query, ns: seq<Node>, but: int) {
    forall i {:trigger Relaxed(w, q, ns, i, |w.links(ns[i].id)|)} ::
      0 <= i < |ns| && i != but && ns[i].closed ==> Relaxed(w, q, ns, i, |w.links(ns[i].id)|)
  }

  /** When the search is over, no link out of an expanded node leads to its end at a better total than that has. */
  ghost predicate NoShortcut(w: World, q: Query, ns: seq<Node>) {
    forall i {:trigger Relaxed(w, q, ns, i, |w.links(ns[i].id)|)} ::
      0 <= i < |ns| && ns[i].closed && ns[i].id != q.end ==> Relaxed(w, q, ns, i, |w.links(ns[i].id)|)
  }

  /** Nodes keep their keys and places and are no worse off, and node `b` is as it was up to its flags. */
  ghost predicate Lowered(ns: seq<Node>, ns': seq<Node>, b: nat) {
    && b < |ns| <= |ns'|
    && (forall i :: 0 <= i < |ns| ==>
        ns'[i].id == ns[i].id && ns'[i].state == ns[i].state && ns'[i].total <= ns[i].total)
    && (forall i :: 0 <= i < |ns| ==>
        (ns[i].open || ns[i].closed) && (ns'[i].open || ns'[i].closed) && ns'[i].pos == ns[i].pos)
    && ns'[b].cost == ns[b].cost && ns'[b].pidx == ns[b].pidx <= |ns|
  }

  lemma SettledLowered(w: World, q: Query, ns: seq<Node>, ns': seq<Node>, b: nat, l: Link)
    requires Lowered(ns, ns', b) && Settled(w, q, ns, b, l)
    ensures Settled(w, q, ns', b, l)
  {
    if l.ref != 0 && l.ref != ParentRef(ns, b) && w.passes(l.ref) {
      var v :| NoBetter(w, q, ns, b, l, v);
      assert NoBetter(w, q, ns', b, l, v);
    }
  }

  lemma RelaxedLowered(w: World, q: Query, ns: seq<Node>, ns': seq<Node>, b: nat, k: nat)
    requires Lowered(ns, ns', b) && Relaxed(w, q, ns, b, k)
    ensures Relaxed(w, q, ns', b, k)
  {
    hide Settled;
    var links := w.links(ns[b].id);
    forall j | 0 <= j < k && j < |links|
      ensures Settled(w, q, ns', b, links[j])
    {
      SettledLowered(w, q, ns, ns', b, links[j]);
    }
  }

  /** Everything the search maintains while the links of node `b` are being followed. */
  ghost predicate SearchOk(w: World, q: Query, ns: seq<Node>, b: int, outOfNodes: bool) {
    && TreeOk(w, q, ns) && Standing(w, q, ns)
    && (outOfNodes || (ClosedExpanded(w, ns, b) && ClosedRelaxed(w, q, ns, b)))
  }

  /** Nodes are never dropped and keep their polygons. */
  ghost predicate Grown(ns: seq<Node>, ns': seq<Node>) {
    |ns| <= |ns'| && forall i :: 0 <= i < |ns| ==> ns'[i].id == ns[i].id
  }

  /** The first two parts of the measure went down. */
  ghost predicate Descended(ns: seq<Node>, ns': seq<Node>) {
    |ns'| > |ns| || (|ns'| == |ns| && SumTotals(ns') < SumTotals(ns))
  }

  /** Nodes keep their keys and places, and if anything changed the measure went down; sizes of the open list last. */
  ghost predicate Onward(ns: seq<Node>, ns': seq<Node>, size: nat, size': nat) {
    Kept(ns, ns') && ((ns' == ns && size' == size) || Descended(ns, ns'))
  }

  lemma OnwardStep(ns: seq<Node>, ns': seq<Node>, ns'': seq<Node>, size: nat, size': nat, size'': nat)
    requires Onward(ns, ns', size, size') && Onward(ns', ns'', size', size'')
    ensures Onward(ns, ns'', size, size'')
  {
  }

  lemma VisitedGrows(ns: seq<Node>, ns': seq<Node>, ref: PolyRef)
    requires Grown(ns, ns') && Visited(ns, ref)
    ensures Visited(ns', ref)
  {
    var i :| 0 <= i < |ns| && ns[i].id == ref;
    assert ns'[i].id == ref;
  }

  lemma ExpandedGrows(w: World, ns: seq<Node>, ns': seq<Node>, ref: PolyRef, k: nat)
    requires Grown(ns, ns') && Expanded(w, ns, ref, k)
    ensures Expanded(w, ns', ref, k)
  {
    forall j | 0 <= j < k && j < |w.links(ref)| && w.links(ref)[j].ref != 0 && w.passes(w.links(ref)[j].ref)
      ensures Visited(ns', w.links(ref)[j].ref)
    {
      VisitedGrows(ns, ns', w.links(ref)[j].ref);
    }
  }

  /** `ns'` is `ns` after node `v` was (re)opened under the closed node `b`. */
  ghost predicate Improved(w: World, q: Query, ns: seq<Node>, ns': seq<Node>, b: nat, v: nat) {
    && Reparented(ns, ns', v, b)
    && ns[b].closed && Step(w, ns[b].id, ns'[v].id) && Covers(w, q, ns[b], ns'[v])
    && ns'[v].open && !ns'[v].closed
    && ns'[v].total == ns'[v].cost + (if ns'[v].id == q.end then 0 else w.heuristic(ns'[v].pos, q.endPos))
    && (v < |ns| ==> ns'[v].id == ns[v].id && ns'[v].pos == ns[v].pos && ns'[v].state == ns[v].state
                     && ns'[v].total < ns[v].total)
  }

  lemma ImprovedAvoids(w: World, q: Query, ns: seq<Node>, ns': seq<Node>, b: nat, v: nat, cb: seq<nat>)
    requires TreeOk(w, q, ns) && Improved(w, q, ns, ns', b, v) && IsChain(ns, cb, b)
    ensures v !in cb && v != 0 && v != b
  {
    assert NodeOk(w, q, ns, b);
    if v < |ns| {
      NotAncestor(w, q, ns, cb, b, v, ns'[v].cost);
    }
    assert cb[0] == 0 && cb[|cb| - 1] == b;
  }

  lemma ImprovedTree(w: World, q: Query, ns: seq<Node>, ns': seq<Node>, b: nat, v: nat)
    requires TreeOk(w, q, ns) && Improved(w, q, ns, ns', b, v)
    ensures TreeOk(w, q, ns') && v != b && v != 0
  {
    assert HasChain(ns, b) && NodeOk(w, q, ns, b);
    var cb :| IsChain(ns, cb, b);
    ImprovedAvoids(w, q, ns, ns', b, v, cb);
    ReparentedForest(ns, ns', v, b, cb);
    ImprovedNodes(w, q, ns, ns', b, v);
  }

  lemma ImprovedNodes(w: World, q: Query, ns: seq<Node>, ns': seq<Node>, b: nat, v: nat)
    requires TreeOk(w, q, ns) && Improved(w, q, ns, ns', b, v) && v != b && v != 0
    ensures forall i: nat :: i < |ns'| ==> NodeOk(w, q, ns', i)
  {
    assert NodeOk(w, q, ns, b);
    forall i: nat | i < |ns'|
      ensures NodeOk(w, q, ns', i)
    {
      if i != v {
        assert NodeOk(w, q, ns, i);
        if i > 0 {
          LowerParent(w, q, ns, ns', b, v, i);
        }
      }
    }
  }

  /** A child whose parent was improved still costs at least as much as the parent. */
  lemma LowerParent(w: World, q: Query, ns: seq<Node>, ns': seq<Node>, b: nat, v: nat, i: nat)
    requires TreeOk(w, q, ns) && Improved(w, q, ns, ns', b, v)
    requires 0 < i < |ns| && i != v && ns'[i] == ns[i] && ChildOk(w, q, ns, i)
    ensures ChildOk(w, q, ns', i)
  {
    var p := ns[i].pidx - 1;
    if p == v {
      assert NodeOk(w, q, ns, v);
      var before :| ns[v].cost + EdgeCost(w, q, before, ns[v], ns[i]) <= ns[i].cost;
      assert ns'[v].cost + EdgeCost(w, q, before, ns'[v], ns'[i]) <= ns'[i].cost;
    }
  }

  lemma ImprovedLowers(w: World, q: Query, ns: seq<Node>, ns': seq<Node>, b: nat, v: nat, i: nat)
    requires TreeOk(w, q, ns) && Improved(w, q, ns, ns', b, v) && i < |ns| && i != v
    ensures Lowered(ns, ns', i)
  {
    forall k | 0 <= k < |ns|
      ensures ns[k].open || ns[k].closed
    {
      assert NodeOk(w, q, ns, k);
    }
    assert NodeOk(w, q, ns, i);
  }

  lemma ImprovedSearch(w: World, q: Query, ns: seq<Node>, ns': seq<Node>, b: nat, v: nat, outOfNodes: bool)
    requires SearchOk(w, q, ns, b, outOfNodes) && Improved(w, q, ns, ns', b, v)
    requires v == |ns| ==> Stands(w, ns', v)
    ensures SearchOk(w, q, ns', b, outOfNodes) && v != b && Grown(ns, ns') && Descended(ns, ns')
  {
    hide Standing, Stands;
    StandingKept(w, q, ns, ns');
    ImprovedTree(w, q, ns, ns', b, v);
    if v < |ns| {
      SumUpdate(ns, v, ns'[v]);
      assert ns' == ns[v := ns'[v]];
    }
    if !outOfNodes {
      forall i | 0 <= i < |ns'| && i != b && ns'[i].closed
        ensures Expanded(w, ns', ns'[i].id, |w.links(ns'[i].id)|)
      {
        ExpandedGrows(w, ns, ns', ns[i].id, |w.links(ns[i].id)|);
      }
      ImprovedRelaxed(w, q, ns, ns', b, v);
    }
  }

  lemma ImprovedRelaxed(w: World, q: Query, ns: seq<Node>, ns': seq<Node>, b: nat, v: nat)
    requires TreeOk(w, q, ns) && Improved(w, q, ns, ns', b, v) && ClosedRelaxed(w, q, ns, b)
    ensures ClosedRelaxed(w, q, ns', b)
  {
    hide Relaxed, TreeOk;
    forall i | 0 <= i < |ns'| && i != b && ns'[i].closed
      ensures Relaxed(w, q, ns', i, |w.links(ns'[i].id)|)
    {
      ImprovedLowers(w, q, ns, ns', b, v, i);
      RelaxedLowered(w, q, ns, ns', i, |w.links(ns[i].id)|);
    }
  }

  lemma ImprovedNearest(w: World, q: Query, ns: seq<Node>, ns': seq<Node>, b: nat, v: nat, last: nat, least: nat,
                        h: nat)
    requires Nearest(w, q, ns, last, least) && Improved(w, q, ns, ns', b, v) && Grown(ns, ns')
    requires h == if ns'[v].id == q.end then 0 else w.heuristic(ns'[v].pos, q.endPos)
    ensures if h < least then Nearest(w, q, ns', v, h) else Nearest(w, q, ns', last, least)
  {
    if Visited(ns, q.end) {
      VisitedGrows(ns, ns', q.end);
    } else if ns'[v].id != q.end {
      assert forall i :: 0 <= i < |ns| ==> ns'[i].pos == ns[i].pos;
    }
  }

  // ---------- The open list against the node flags ----------

  /** The open list holds exactly the nodes flagged open, each once, in heap order. */
  ghost predicate InSync(h: seq<nat>, all: seq<Node>, ns: seq<Node>) {
    Ordered(h, all) && multiset(h) == multiset(OpenSet(ns))
  }

  lemma InSyncDistinct(h: seq<nat>, s: set<nat>)
    requires multiset(h) == multiset(s)
    ensures forall i, j :: 0 <= i < j < |h| ==> h[i] != h[j]
    ensures |h| == |s| && forall x :: x in h <==> x in s
  {
    forall i, j | 0 <= i < j < |h|
      ensures h[i] != h[j]
    {
      assert h == h[..i] + [h[i]] + h[i + 1..j] + [h[j]] + h[j + 1..];
      assert multiset(s)[h[i]] <= 1;
      assert h[i] == h[j] ==> multiset(h)[h[i]] >= 2;
    }
    forall x
      ensures x in h <==> x in s
    {
      assert x in multiset(h) <==> x in multiset(s);
    }
    assert |multiset(h)| == |h| && |multiset(s)| == |s|;
  }

  lemma {:induction false} BoundedSet(s: set<nat>, n: nat)
    requires forall x :: x in s ==> x < n
    ensures |s| <= n
  {
    if n > 0 {
      BoundedSet(s - {n - 1}, n - 1);
    } else {
      assert s == {};
    }
  }

  /** There is room in the open list for a node that is not in it. */
  lemma OpenListRoom(h: seq<nat>, ns: seq<Node>, v: nat)
    requires multiset(h) == multiset(OpenSet(ns)) && v < |ns| && !ns[v].open
    ensures |h| < |ns|
  {
    InSyncDistinct(h, OpenSet(ns));
    BoundedSet(OpenSet(ns) + {v}, |ns|);
  }

  /** Heap order only looks at the totals of the entries. */
  lemma OrderedSame(h: seq<nat>, ns: seq<Node>, ns': seq<Node>)
    requires Ordered(h, ns) && |ns| == |ns'|
    requires forall k :: 0 <= k < |h| ==> ns'[h[k]].total == ns[h[k]].total
    ensures Ordered(h, ns')
  {
    forall j | 0 < j < |h|
      ensures Below(h, ns', Parent(j), j)
    {
      assert Below(h, ns, Parent(j), j);
    }
  }

  /** After a link: nodes kept, the expanded node untouched, and the link's end (if any) visited. */
  ghost predicate Followed(ns: seq<Node>, ns': seq<Node>, b: nat, ref: PolyRef, outOfNodes: bool, outOfNodes': bool) {
    && Grown(ns, ns') && Kept(ns, ns') && b < |ns| && ns'[b] == ns[b]
    && (outOfNodes ==> outOfNodes')
    && (outOfNodes' || ref == 0 || Visited(ns', ref))
  }

  /** After fetching a neighbour, it is either freshly allocated without flags or was visited before. */
  lemma FreshOrFlagged(w: World, q: Query, ns: seq<Node>, ns1: seq<Node>, v: nat, ref: PolyRef, state: nat)
    requires TreeOk(w, q, ns) && Fetched(ns, ns1, v, ref, state)
    ensures v < |ns| ==> (ns1[v].open || ns1[v].closed) && Visited(ns, ref)
    ensures v == |ns| ==> forall k :: 0 <= k < |ns| ==> ns1[k] == ns[k]
  {
    if v < |ns| {
      assert NodeOk(w, q, ns, v);
    }
  }

  /** Allocating a node without flags does not disturb the open list. */
  lemma AllocatedSync(h: seq<nat>, all: seq<Node>, ns: seq<Node>, all': seq<Node>, ns': seq<Node>)
    requires InSync(h, all, ns) && |all| == |all'| && ns <= all && ns' <= all'
    requires ns' == ns || (|ns'| == |ns| + 1 && ns <= ns' && !ns'[|ns|].open)
    ensures InSync(h, all', ns')
  {
    InSyncDistinct(h, OpenSet(ns));
    assert OpenSet(ns') == OpenSet(ns);
    forall k | 0 <= k < |h|
      ensures all'[h[k]].total == all[h[k]].total
    {
      assert h[k] in h;
      assert all'[h[k]] == ns'[h[k]] && all[h[k]] == ns[h[k]];
    }
    OrderedSame(h, all, all');
  }

  /** Reopening a node either keeps the set of open nodes or adds the node, for which there is room. */
  lemma ReopenedSync(h: seq<nat>, all: seq<Node>, ns: seq<Node>, v: nat, n: Node)
    requires InSync(h, all, ns) && ns <= all && v < |ns| && n.open
    ensures forall i, j :: 0 <= i < j < |h| ==> h[i] != h[j]
    ensures ns[v].open ==> v in h && OpenSet(ns[v := n]) == OpenSet(ns)
    ensures !ns[v].open ==> |h| < |ns| && Ordered(h, all[v := n])
                            && multiset(OpenSet(ns[v := n])) == multiset(OpenSet(ns)) + multiset{v}
  {
    InSyncDistinct(h, OpenSet(ns));
    if ns[v].open {
      assert OpenSet(ns[v := n]) == OpenSet(ns);
    } else {
      assert OpenSet(ns[v := n]) == OpenSet(ns) + {v};
      OpenListRoom(h, ns, v);
      assert forall k :: 0 <= k < |h| ==> h[k] in h;
      OrderedSame(h, all, all[v := n]);
    }
  }

  /** Node `v` of `ns1` stands for `ref`, and is either one of `ns` or newly added to it without flags. */
  ghost predicate Fetched(ns: seq<Node>, ns1: seq<Node>, v: nat, ref: PolyRef, state: nat) {
    && v < |ns1| && ns1[v].id == ref && ns1[v].state == state
    && if v < |ns| then ns1 == ns
       else v == |ns| && |ns1| == v + 1 && ns1[..v] == ns && !ns1[v].open && !ns1[v].closed
  }

  /** The neighbour `n` as reached from `best`, which has index `b`; its position is fixed at the first visit. */
  function Candidate(w: World, q: Query, b: nat, best: Node, parentRef: PolyRef, n: Node): (r: Node)
    ensures r.cost == best.cost + EdgeCost(w, q, parentRef, best, r) && r.pidx == b + 1 && r.open && !r.closed
    ensures r.id == n.id && r.state == n.state
    ensures r.total == r.cost + if n.id == q.end then 0 else w.heuristic(r.pos, q.endPos)
    ensures r.pos == if n.open || n.closed then n.pos else w.midpoint(best.id, n.id)
  {
    var pos := if !n.open && !n.closed then w.midpoint(best.id, n.id) else n.pos;
    var curCost := w.cost(best.pos, pos, parentRef, best.id, n.id);
    if n.id == q.end then
      var cost := best.cost + curCost + w.cost(pos, q.endPos, best.id, n.id, 0);
      Node(pos, cost, cost, b + 1, n.state, true, false, n.id)
    else
      var cost := best.cost + curCost;
      Node(pos, cost, cost + w.heuristic(pos, q.endPos), b + 1, n.state, true, false, n.id)
  }

  /** Taking the candidate when it is new or strictly better keeps the search going as it should. */
  lemma CandidateOk(w: World, q: Query, ns: seq<Node>, ns1: seq<Node>, b: nat, parentRef: PolyRef, l: Link, v: nat,
                    last: nat, least: nat, outOfNodes: bool)
    requires SearchOk(w, q, ns, b, outOfNodes) && Nearest(w, q, ns, last, least)
    requires b < |ns| && ns[b].closed && l in w.links(ns[b].id) && l.ref != 0 && w.passes(l.ref)
    requires Fetched(ns, ns1, v, l.ref, CrossSide(l)) && parentRef == ParentRef(ns, b)
    requires v < |ns| ==> Candidate(w, q, b, ns[b], parentRef, ns1[v]).total < ns1[v].total
    ensures var r := Candidate(w, q, b, ns[b], parentRef, ns1[v]);
            var ns' := ns1[v := r];
            && SearchOk(w, q, ns', b, outOfNodes) && v != b && ns'[b] == ns[b]
            && Descended(ns, ns') && Followed(ns, ns', b, l.ref, outOfNodes, outOfNodes)
            && Settled(w, q, ns', b, l) && Lowered(ns, ns', b)
            && if r.total - r.cost < least then Nearest(w, q, ns', v, r.total - r.cost)
               else Nearest(w, q, ns', last, least)
  {
    var r := Candidate(w, q, b, ns[b], parentRef, ns1[v]);
    var ns' := ns1[v := r];
    FreshOrFlagged(w, q, ns, ns1, v, l.ref, CrossSide(l));
    assert forall k :: 0 <= k < |ns| && k != v ==> ns'[k] == ns1[k] == ns[k];
    assert Improved(w, q, ns, ns', b, v);
    if v == |ns| {
      assert ns'[b] == ns[b] && EnteredBy(w, ns', b, l, v);
    }
    ImprovedSearch(w, q, ns, ns', b, v, outOfNodes);
    ImprovedNearest(w, q, ns, ns', b, v, last, least, r.total - r.cost);
    assert ns'[v].id == l.ref;
    ImprovedLowers(w, q, ns, ns', b, v, b);
    assert NoBetter(w, q, ns', b, l, v);
  }

  /** A link whose end is no worse off already is settled as things are. */
  lemma SkipOk(w: World, q: Query, ns: seq<Node>, b: nat, l: Link, v: nat, outOfNodes: bool)
    requires TreeOk(w, q, ns) && b < |ns| && v < |ns| && ns[v].id == l.ref && ns[v].state == CrossSide(l)
    requires Candidate(w, q, b, ns[b], ParentRef(ns, b), ns[v]).total >= ns[v].total
    ensures Settled(w, q, ns, b, l) && Lowered(ns, ns, b) && Followed(ns, ns, b, l.ref, outOfNodes, outOfNodes)
  {
    assert NodeOk(w, q, ns, v);
    assert NoBetter(w, q, ns, b, l, v);
    LoweredSelf(w, q, ns, b);
  }

  lemma LoweredSelf(w: World, q: Query, ns: seq<Node>, b: nat)
    requires TreeOk(w, q, ns) && b < |ns|
    ensures Lowered(ns, ns, b)
  {
    forall k | 0 <= k < |ns|
      ensures ns[k].open || ns[k].closed
    {
      assert NodeOk(w, q, ns, k);
    }
    assert NodeOk(w, q, ns, b);
  }

  // ---------- Opening, closing and finishing ----------

  lemma StartSearch(w: World, q: Query, n: Node)
    requires q.start != q.end
    requires n == Node(q.startPos, 0, w.heuristic(q.startPos, q.endPos), 0, 0, true, false, q.start)
    ensures SearchOk(w, q, [n], -1, false) && Nearest(w, q, [n], 0, n.total) && OpenSet([n]) == {0}
  {
    assert IsChain([n], [0], 0);
  }

  lemma SameCovers(w: World, q: Query, p: Node, n: Node, p': Node, n': Node)
    requires Covers(w, q, p, n)
    requires p'.pos == p.pos && p'.id == p.id && p'.cost == p.cost && n'.pos == n.pos && n'.id == n.id
    requires n'.cost == n.cost
    ensures Covers(w, q, p', n')
  {
    var before :| p.cost + EdgeCost(w, q, before, p, n) <= n.cost;
    assert p'.cost + EdgeCost(w, q, before, p', n') <= n'.cost;
  }

  /** A node popped off the open list is closed; unless it is the goal, its links are what remains to expand. */
  lemma CloseNode(w: World, q: Query, ns: seq<Node>, b: nat, outOfNodes: bool)
    requires SearchOk(w, q, ns, -1, outOfNodes) && b < |ns| && ns[b].id != q.end
    ensures SearchOk(w, q, ns[b := ns[b].(open := false, closed := true)], b, outOfNodes)
  {
    var ns' := ns[b := ns[b].(open := false, closed := true)];
    forall i: nat | i < |ns'|
      ensures NodeOk(w, q, ns', i)
    {
      assert NodeOk(w, q, ns, i);
      if i > 0 {
        SameCovers(w, q, ns[ns[i].pidx - 1], ns[i], ns'[ns[i].pidx - 1], ns'[i]);
      }
    }
    forall i | 0 <= i < |ns'|
      ensures HasChain(ns', i)
    {
      assert HasChain(ns, i);
      var c :| IsChain(ns, c, i);
      assert IsChain(ns', c, i);
    }
    assert Grown(ns, ns');
    StandingKept(w, q, ns, ns');
    if !outOfNodes {
      forall i | 0 <= i < |ns'| && i != b && ns'[i].closed
        ensures Expanded(w, ns', ns'[i].id, |w.links(ns'[i].id)|)
      {
        ExpandedGrows(w, ns, ns', ns[i].id, |w.links(ns[i].id)|);
      }
      ClosingRelaxed(w, q, ns, b);
    }
  }

  lemma ClosingRelaxed(w: World, q: Query, ns: seq<Node>, b: nat)
    requires TreeOk(w, q, ns) && ClosedRelaxed(w, q, ns, -1) && b < |ns|
    ensures ClosedRelaxed(w, q, ns[b := ns[b].(open := false, closed := true)], b)
  {
    hide Relaxed, TreeOk;
    var ns' := ns[b := ns[b].(open := false, closed := true)];
    forall i | 0 <= i < |ns'| && i != b && ns'[i].closed
      ensures Relaxed(w, q, ns', i, |w.links(ns'[i].id)|)
    {
      LoweredSelf(w, q, ns, i);
      assert Lowered(ns, ns', i);
      RelaxedLowered(w, q, ns, ns', i, |w.links(ns[i].id)|);
    }
  }

  lemma GoalRelaxed(w: World, q: Query, ns: seq<Node>, b: nat, outOfNodes: bool)
    requires SearchOk(w, q, ns, -1, outOfNodes) && b < |ns| && ns[b].id == q.end
    ensures outOfNodes || NoShortcut(w, q, ns[b := ns[b].(open := false, closed := true)])
  {
    hide Relaxed, TreeOk;
    if !outOfNodes {
      ClosingRelaxed(w, q, ns, b);
    }
  }

  /** Flags count for nothing in totals and distances. */
  lemma CloseTotals(ns: seq<Node>, b: nat)
    requires b < |ns|
    ensures SumTotals(ns[b := ns[b].(open := false, closed := true)]) == SumTotals(ns)
  {
    SumUpdate(ns, b, ns[b].(open := false, closed := true));
  }

  lemma CloseNearest(w: World, q: Query, ns: seq<Node>, b: nat, last: nat, least: nat)
    requires Nearest(w, q, ns, last, least) && b < |ns|
    ensures Nearest(w, q, ns[b := ns[b].(open := false, closed := true)], last, least)
  {
    var ns' := ns[b := ns[b].(open := false, closed := true)];
    if Visited(ns, q.end) {
      VisitedGrows(ns, ns', q.end);
    } else {
      assert forall i :: 0 <= i < |ns| ==> ns'[i].pos == ns[i].pos && ns'[i].id == ns[i].id;
    }
  }

  lemma CloseSync(h: seq<nat>, h': seq<nat>, all: seq<Node>, ns: seq<Node>, b: nat)
    requires multiset(h) == multiset(OpenSet(ns)) && b in h && ns <= all
    requires Ordered(h', all) && multiset(h') == multiset(h) - multiset{b}
    ensures b < |ns| && ns[b].open
    ensures InSync(h', all[b := all[b].(open := false, closed := true)], ns[b := ns[b].(open := false, closed := true)])
  {
    InSyncDistinct(h, OpenSet(ns));
    var all' := all[b := all[b].(open := false, closed := true)];
    OrderedSame(h', all, all');
    assert OpenSet(ns[b := ns[b].(open := false, closed := true)]) == OpenSet(ns) - {b};
  }

  lemma AllExpanded(w: World, q: Query, ns: seq<Node>, b: nat, parentRef: PolyRef, outOfNodes: bool)
    requires SearchOk(w, q, ns, b, outOfNodes) && b < |ns|
    requires Expanding(w, q, ns, b, |w.links(ns[b].id)|, parentRef, outOfNodes)
    ensures SearchOk(w, q, ns, -1, outOfNodes)
  {
  }

  /** With nothing left open, no goal was visited and, if no node was refused, none can be reached. */
  lemma Exhausted(w: World, q: Query, ns: seq<Node>, outOfNodes: bool)
    requires SearchOk(w, q, ns, -1, outOfNodes) && OpenSet(ns) == {}
    ensures !Visited(ns, q.end)
    ensures outOfNodes || AllReached(w, q, ns)
  {
    forall i: nat | i < |ns|
      ensures !ns[i].open && ns[i].id != q.end
    {
      assert NodeOk(w, q, ns, i);
      assert i !in OpenSet(ns);
    }
    if !outOfNodes {
      ExhaustedReachesAll(w, q, ns);
    }
  }

  lemma ExpandingStart(w: World, q: Query, ns: seq<Node>, b: nat, outOfNodes: bool)
    requires TreeOk(w, q, ns) && b < |ns|
    ensures ns[b].pidx <= |ns| && Expanding(w, q, ns, b, 0, ParentRef(ns, b), outOfNodes)
  {
    assert NodeOk(w, q, ns, b);
    if ns[b].pidx != 0 {
      assert Visited(ns, ns[ns[b].pidx - 1].id);
    }
  }

  /** The first `i` links of node `b` have been dealt with. */
  ghost predicate Expanding(w: World, q: Query, ns: seq<Node>, b: nat, i: nat, parentRef: PolyRef, outOfNodes: bool) {
    && b < |ns| && parentRef == ParentRef(ns, b) && (parentRef == 0 || Visited(ns, parentRef))
    && (outOfNodes || (Expanded(w, ns, ns[b].id, i) && Relaxed(w, q, ns, b, i)))
  }

  lemma ExpandingMeans(w: World, q: Query, ns: seq<Node>, b: nat, i: nat, parentRef: PolyRef, outOfNodes: bool)
    requires Expanding(w, q, ns, b, i, parentRef, outOfNodes)
    ensures b < |ns| && parentRef == ParentRef(ns, b) && (parentRef == 0 || Visited(ns, parentRef))
  {
  }

  lemma SearchTree(w: World, q: Query, ns: seq<Node>, b: int, outOfNodes: bool)
    requires SearchOk(w, q, ns, b, outOfNodes)
    ensures TreeOk(w, q, ns) && SearchOk(w, q, ns, b, true)
  {
  }

  /** One more link has been dealt with. */
  lemma ExpandingStep(w: World, q: Query, ns: seq<Node>, ns': seq<Node>, b: nat, i: nat, parentRef: PolyRef,
                      before: bool, after: bool)
    requires b < |ns| && i < |w.links(ns[b].id)| && Expanding(w, q, ns, b, i, parentRef, before)
    requires Grown(ns, ns') && ns'[b] == ns[b] && ns[b].pidx <= |ns| && (before ==> after)
    requires var l := w.links(ns[b].id)[i];
             after || ((l.ref == 0 || l.ref == parentRef || !w.passes(l.ref) || Visited(ns', l.ref))
                       && Settled(w, q, ns', b, l) && Lowered(ns, ns', b))
    ensures Expanding(w, q, ns', b, i + 1, parentRef, after)
  {
    hide Relaxed, Settled;
    if parentRef != 0 {
      VisitedGrows(ns, ns', parentRef);
    }
    if !after {
      ExpandedGrows(w, ns, ns', ns[b].id, i);
      RelaxedStep(w, q, ns, ns', b, i);
    }
  }

  lemma RelaxedStep(w: World, q: Query, ns: seq<Node>, ns': seq<Node>, b: nat, i: nat)
    requires b < |ns| && i < |w.links(ns[b].id)| && Relaxed(w, q, ns, b, i) && Lowered(ns, ns', b)
    requires Settled(w, q, ns', b, w.links(ns[b].id)[i])
    ensures Relaxed(w, q, ns', b, i + 1) && ParentRef(ns', b) == ParentRef(ns, b)
  {
    hide Settled;
    RelaxedLowered(w, q, ns, ns', b, i);
  }

  /** The same nodes up to flags and costs. */
  ghost predicate SameTree(ns: seq<Node>, tree: seq<Node>) {
    && |ns| == |tree|
    && forall i :: 0 <= i < |ns| ==> ns[i].pidx == tree[i].pidx && ns[i].id == tree[i].id && ns[i].pos == tree[i].pos
  }

  /** What the search loop leaves: the goal, or the visited node nearest to it after exhausting the graph. */
  ghost predicate SearchResult(w: World, q: Query, tree: seq<Node>, last: nat, outOfNodes: bool) {
    && TreeOk(w, q, tree) && last < |tree|
    && (tree[last].id == q.end
        || ((outOfNodes || AllReached(w, q, tree)) && !Visited(tree, q.end) && IsNearest(w, q, tree, last)))
  }

  /** No visited node is nearer to the goal by the heuristic. */
  ghost predicate IsNearest(w: World, q: Query, ns: seq<Node>, last: nat) {
    && last < |ns|
    && forall i :: 0 <= i < |ns| ==> w.heuristic(ns[last].pos, q.endPos) <= w.heuristic(ns[i].pos, q.endPos)
  }

  /** Closing the goal ends the search. */
  lemma GoalFound(w: World, q: Query, tree: seq<Node>, b: nat, outOfNodes: bool)
    requires SearchOk(w, q, tree, -1, outOfNodes) && b < |tree| && tree[b].id == q.end
    ensures var ns := tree[b := tree[b].(open := false, closed := true)];
            SameTree(ns, tree) && SearchResult(w, q, tree, b, outOfNodes) && (outOfNodes || NoShortcut(w, q, ns))
            && Standing(w, q, ns)
  {
    hide NoShortcut, Standing;
    StandingKept(w, q, tree, tree[b := tree[b].(open := false, closed := true)]);
    GoalRelaxed(w, q, tree, b, outOfNodes);
  }

  /** So does running out of open nodes. */
  lemma NothingOpen(w: World, q: Query, ns: seq<Node>, last: nat, least: nat, outOfNodes: bool)
    requires SearchOk(w, q, ns, -1, outOfNodes) && OpenSet(ns) == {} && Nearest(w, q, ns, last, least)
    ensures SameTree(ns, ns) && SearchResult(w, q, ns, last, outOfNodes) && (outOfNodes || NoShortcut(w, q, ns))
    ensures Standing(w, q, ns)
  {
    Exhausted(w, q, ns, outOfNodes);
  }
}
