/** The two stackless walks over a stored tree, against a linear scan of its leaves. */
module BvQuery {
  import opened BvTree

  // ---------- Where a walk stands ----------

  /** The nodes from here on are the pre-orders of `ts`, and `ts` still owes the hits after `found`. */
  ghost predicate Walking(nodes: seq<BvNode>, at: nat, q: Box, ts: seq<Tree>, found: seq<nat>, all: seq<nat>) {
    && at <= |nodes| && nodes[at..] == FlattenAll(ts) && AllWellBoxed(ts)
    && found + Hits(LeavesAll(ts), q) == all
  }

  ghost predicate OnTheWay(nodes: seq<BvNode>, at: nat, q: Box, found: seq<nat>, all: seq<nat>) {
    exists ts :: Walking(nodes, at, q, ts, found, all)
  }

  lemma WalkStarts(ts: seq<Tree>, q: Box)
    requires AllWellBoxed(ts)
    ensures OnTheWay(FlattenAll(ts), 0, q, [], Hits(LeavesAll(ts), q))
  {
    assert [] + Hits(LeavesAll(ts), q) == Hits(LeavesAll(ts), q);
    assert Walking(FlattenAll(ts), 0, q, ts, [], Hits(LeavesAll(ts), q));
  }

  lemma WalkEnds(nodes: seq<BvNode>, q: Box, found: seq<nat>, all: seq<nat>)
    requires OnTheWay(nodes, |nodes|, q, found, all)
    ensures found == all
  {
    var ts: seq<Tree> :| Walking(nodes, |nodes|, q, ts, found, all);
    SomeNode(ts);
  }

  lemma SomeNode(ts: seq<Tree>)
    ensures FlattenAll(ts) == [] ==> ts == []
  {
  }

  /** The first node of a pre-order is the root. */
  lemma RootFirst(nodes: seq<BvNode>, at: nat, q: Box, ts: seq<Tree>, found: seq<nat>, all: seq<nat>)
    requires Walking(nodes, at, q, ts, found, all) && at < |nodes|
    ensures ts != []
    ensures ts[0].Leaf? ==> nodes[at] == BvNode(ts[0].item.box, ts[0].item.i)
    ensures ts[0].Node? ==> nodes[at] == BvNode(ts[0].box, 0 - Size(ts[0]))
    ensures |nodes| - at >= Size(ts[0])
  {
    assert nodes[at] == nodes[at..][0];
  }

  lemma HitsOne(item: Item, q: Box)
    ensures Hits([item], q) == if Overlap(q, item.box) then [item.i] else []
  {
    assert [item][1..] == [];
  }

  /** What is owed after passing one leaf. */
  lemma PassOwed(item: Item, rest: seq<Tree>, q: Box, found: seq<nat>)
    ensures var hit := if Overlap(q, item.box) then [item.i] else [];
            found + Hits(LeavesAll([Leaf(item)] + rest), q) == (found + hit) + Hits(LeavesAll(rest), q)
  {
    hide Overlap, Hits, LeavesAll;
    LeavesFirst(Leaf(item), rest);
    HitsJoin([item], LeavesAll(rest), q);
    HitsOne(item, q);
  }

  /** Passing a leaf, reported or not. */
  lemma PassLeaf(nodes: seq<BvNode>, at: nat, q: Box, found: seq<nat>, all: seq<nat>)
    requires OnTheWay(nodes, at, q, found, all) && at < |nodes| && nodes[at].i >= 0
    ensures OnTheWay(nodes, at + 1, q, if Overlap(q, nodes[at].box) then found + [nodes[at].i] else found, all)
  {
    hide Overlap, Hits, LeavesAll;
    var ts: seq<Tree> :| Walking(nodes, at, q, ts, found, all);
    RootFirst(nodes, at, q, ts, found, all);
    var item, rest := ts[0].item, ts[1..];
    assert nodes[at + 1..] == nodes[at..][1..] == FlattenAll(rest);
    assert ts == [Leaf(item)] + rest;
    PassOwed(item, rest, q, found);
    var now := if Overlap(q, item.box) then found + [item.i] else found;
    assert found + [] == found;
    assert Walking(nodes, at + 1, q, rest, now, all);
  }

  /** Going down into a box that meets the query. */
  lemma Descend(nodes: seq<BvNode>, at: nat, q: Box, found: seq<nat>, all: seq<nat>)
    requires OnTheWay(nodes, at, q, found, all) && at < |nodes| && nodes[at].i < 0
    ensures OnTheWay(nodes, at + 1, q, found, all)
  {
    var ts: seq<Tree> :| Walking(nodes, at, q, ts, found, all);
    RootFirst(nodes, at, q, ts, found, all);
    var ts' := [ts[0].left, ts[0].right] + ts[1..];
    assert ts == [ts[0]] + ts[1..];
    ChildrenFirst(ts[0], ts[1..]);
    ChildrenSameLeaves(ts[0], ts[1..]);
    assert nodes[at + 1..] == nodes[at..][1..];
    assert Walking(nodes, at + 1, q, ts', found, all);
  }

  /** Below a root come its children. */
  lemma ChildrenFirst(root: Tree, rest: seq<Tree>)
    requires root.Node?
    ensures FlattenAll([root] + rest)[1..] == FlattenAll([root.left, root.right] + rest)
  {
    hide Size, FlattenAll;
    var l, r := root.left, root.right;
    FlattenFirst(root, rest);
    FlattenFirst(l, [r] + rest);
    FlattenFirst(r, rest);
    assert [l] + ([r] + rest) == [l, r] + rest;
    var below := Flatten(l) + Flatten(r) + FlattenAll(rest);
    assert FlattenAll([root] + rest) == [BvNode(root.box, 0 - Size(root))] + below;
    assert FlattenAll([l, r] + rest) == below;
  }

  lemma FlattenFirst(t: Tree, rest: seq<Tree>)
    ensures FlattenAll([t] + rest) == Flatten(t) + FlattenAll(rest)
  {
    assert ([t] + rest)[1..] == rest;
  }

  lemma LeavesFirst(t: Tree, rest: seq<Tree>)
    ensures LeavesAll([t] + rest) == Leaves(t) + LeavesAll(rest)
    ensures AllWellBoxed([t] + rest) <==> WellBoxed(t) && AllWellBoxed(rest)
  {
    hide Leaves, WellBoxed;
    var ts := [t] + rest;
    assert ts[1..] == rest;
    assert forall k :: 0 <= k < |rest| ==> rest[k] == ts[k + 1];
    assert ts[0] == t;
  }

  /** They hold the same leaves and are boxed as well. */
  lemma ChildrenSameLeaves(root: Tree, rest: seq<Tree>)
    requires root.Node? && AllWellBoxed([root] + rest)
    ensures LeavesAll([root.left, root.right] + rest) == LeavesAll([root] + rest)
    ensures AllWellBoxed([root.left, root.right] + rest)
  {
    hide AllWellBoxed;
    var l, r := root.left, root.right;
    LeavesFirst(root, rest);
    LeavesFirst(l, [r] + rest);
    LeavesFirst(r, rest);
    assert [l] + ([r] + rest) == [l, r] + rest;
  }

  /** Skipping a whole subtree whose box misses the query loses nothing. */
  lemma Escape(nodes: seq<BvNode>, at: nat, q: Box, found: seq<nat>, all: seq<nat>)
    requires OnTheWay(nodes, at, q, found, all) && at < |nodes| && nodes[at].i < 0 && !Overlap(q, nodes[at].box)
    ensures at - nodes[at].i <= |nodes| && OnTheWay(nodes, at - nodes[at].i, q, found, all)
  {
    var ts: seq<Tree> :| Walking(nodes, at, q, ts, found, all);
    RootFirst(nodes, at, q, ts, found, all);
    var rest, n := ts[1..], Size(ts[0]);
    assert nodes[at + n..] == nodes[at..][n..] == FlattenAll(rest);
    HitsJoin(Leaves(ts[0]), LeavesAll(rest), q);
    MissedBox(ts[0].box, Leaves(ts[0]), q);
    assert [] + Hits(LeavesAll(rest), q) == Hits(LeavesAll(rest), q);
    assert Walking(nodes, at + n, q, rest, found, all);
  }

  // ---------- The walks ----------

  /** The mesh's own query: the hits, cut to the size of the result buffer. */
  method QueryInto(nodes: seq<BvNode>, q: Box, polys: array<nat>, maxPolys: nat, ghost ts: seq<Tree>) returns (n: nat)
    requires nodes == FlattenAll(ts) && AllWellBoxed(ts) && maxPolys <= polys.Length
    modifies polys
    ensures var all := Hits(LeavesAll(ts), q);
            n == (if |all| <= maxPolys then |all| else maxPolys) && polys[..n] == all[..n]
  {
    hide OnTheWay;
    ghost var all := Hits(LeavesAll(ts), q);
    ghost var found: seq<nat> := [];
    var node: nat := 0;
    n := 0;
    WalkStarts(ts, q);
    while node < |nodes|
      invariant node <= |nodes| && OnTheWay(nodes, node, q, found, all)
      invariant n == (if |found| <= maxPolys then |found| else maxPolys) && polys[..n] == found[..n]
      decreases |nodes| - node
    {
      var overlap, isLeafNode := Overlap(q, nodes[node].box), nodes[node].i >= 0;
      if isLeafNode {
        PassLeaf(nodes, node, q, found, all);
      } else if overlap {
        Descend(nodes, node, q, found, all);
      } else {
        Escape(nodes, node, q, found, all);
      }
      if isLeafNode && overlap {
        if n < maxPolys {
          polys[n] := nodes[node].i;
          n := n + 1;
        }
        found := found + [nodes[node].i];
      }
      node := if overlap || isLeafNode then node + 1 else node - nodes[node].i;
    }
    WalkEnds(nodes, q, found, all);
  }

  const BATCH_SIZE := 32

  function Passing(s: seq<nat>, pass: nat -> bool): (r: seq<nat>) {
    if s == [] then []
    else Passing(s[..|s| - 1], pass) + if pass(s[|s| - 1]) then [s[|s| - 1]] else []
  }

  function Concat(batches: seq<seq<nat>>): seq<nat> {
    if batches == [] then [] else Concat(batches[..|batches| - 1]) + batches[|batches| - 1]
  }

  /** All batches are full, except that the last may be smaller. */
  predicate InBatches(batches: seq<seq<nat>>) {
    forall k :: 0 <= k < |batches| ==>
      0 < |batches[k]| <= 32 && (k + 1 < |batches| ==> |batches[k]| == 32)
  }

  lemma ConcatLast(batches: seq<seq<nat>>, b: seq<nat>)
    ensures Concat(batches + [b]) == Concat(batches) + b
  {
    assert (batches + [b])[..|batches|] == batches;
  }

  lemma PassingLast(s: seq<nat>, i: nat, pass: nat -> bool)
    ensures Passing(s + [i], pass) == Passing(s, pass) + if pass(i) then [i] else []
  {
    assert (s + [i])[..|s|] == s;
  }

  /** Hands the hits that pass the filter to the caller in full batches, and the rest in a last smaller one. */
  method QueryBatches(nodes: seq<BvNode>, q: Box, pass: nat -> bool, ghost ts: seq<Tree>)
    returns (batches: seq<seq<nat>>)
    requires nodes == FlattenAll(ts) && AllWellBoxed(ts)
    ensures Concat(batches) == Passing(Hits(LeavesAll(ts), q), pass)
    ensures InBatches(batches)
  {
    hide OnTheWay, Passing, Concat;
    ghost var all := Hits(LeavesAll(ts), q);
    ghost var found: seq<nat> := [];
    var polyRefs := new nat[BATCH_SIZE];
    var node: nat, n := 0, 0;
    batches := [];
    WalkStarts(ts, q);
    NothingYet(pass);
    while node < |nodes|
      invariant node <= |nodes| && OnTheWay(nodes, node, q, found, all)
      invariant 0 <= n < BATCH_SIZE && forall k :: 0 <= k < |batches| ==> |batches[k]| == BATCH_SIZE
      invariant Concat(batches) + polyRefs[..n] == Passing(found, pass)
      decreases |nodes| - node
    {
      var overlap, isLeafNode := Overlap(q, nodes[node].box), nodes[node].i >= 0;
      if isLeafNode {
        PassLeaf(nodes, node, q, found, all);
      } else if overlap {
        Descend(nodes, node, q, found, all);
      } else {
        Escape(nodes, node, q, found, all);
      }
      if isLeafNode && overlap {
        PassingLast(found, nodes[node].i, pass);
        found := found + [nodes[node].i];
        if pass(nodes[node].i) {
          batches, n := Collect(batches, polyRefs, n, nodes[node].i);
        }
      }
      node := if overlap || isLeafNode then node + 1 else node - nodes[node].i;
    }
    WalkEnds(nodes, q, found, all);
    if n > 0 {
      ConcatLast(batches, polyRefs[..n]);
      batches := batches + [polyRefs[..n]];
    }
  }

  // ---------- Tiles without a tree ----------

  function FirstPolys(n: nat): seq<nat> { if n == 0 then [] else FirstPolys(n - 1) + [n - 1] }

  /** A ground polygon that passes the filter and whose own box meets the query. */
  function Shown(offMesh: nat -> bool, pass: nat -> bool, meets: nat -> bool): nat -> bool {
    (i: nat) => !offMesh(i) && pass(i) && meets(i)
  }

  /** A tile without a tree: every polygon is looked at, and the same batches are handed on. */
  method ScanBatches(polyCount: nat, offMesh: nat -> bool, pass: nat -> bool, meets: nat -> bool)
    returns (batches: seq<seq<nat>>)
    ensures Concat(batches) == Passing(FirstPolys(polyCount), Shown(offMesh, pass, meets))
    ensures InBatches(batches)
  {
    hide Passing, Concat;
    ghost var shown := Shown(offMesh, pass, meets);
    var polyRefs := new nat[BATCH_SIZE];
    var n := 0;
    batches := [];
    NothingYet(shown);
    for i := 0 to polyCount
      invariant 0 <= n < BATCH_SIZE && forall k :: 0 <= k < |batches| ==> |batches[k]| == BATCH_SIZE
      invariant Concat(batches) + polyRefs[..n] == Passing(FirstPolys(i), shown)
    {
      PassingLast(FirstPolys(i), i, shown);
      if !offMesh(i) && pass(i) && meets(i) {
        batches, n := Collect(batches, polyRefs, n, i);
      }
    }
    if n > 0 {
      ConcatLast(batches, polyRefs[..n]);
      batches := batches + [polyRefs[..n]];
    }
  }

  lemma NothingYet(pass: nat -> bool)
    ensures Passing([], pass) == [] && Concat([]) == []
  {
  }

  /** Adds a polygon to the batch in hand, passing the batch on when it is full. */
  method Collect(batches: seq<seq<nat>>, polyRefs: array<nat>, n: nat, i: nat)
    returns (batches': seq<seq<nat>>, n': nat)
    requires polyRefs.Length == BATCH_SIZE && n < BATCH_SIZE
    requires forall k :: 0 <= k < |batches| ==> |batches[k]| == BATCH_SIZE
    modifies polyRefs
    ensures n' < BATCH_SIZE && forall k :: 0 <= k < |batches'| ==> |batches'[k]| == BATCH_SIZE
    ensures Concat(batches') + polyRefs[..n'] == Concat(batches) + old(polyRefs[..n]) + [i]
  {
    hide Concat;
    ghost var before := polyRefs[..n];
    polyRefs[n] := i;
    assert polyRefs[..n + 1] == before + [i];
    if n == BATCH_SIZE - 1 {
      ConcatLast(batches, polyRefs[..]);
      assert polyRefs[..] == polyRefs[..n + 1];
      batches', n' := batches + [polyRefs[..]], 0;
    } else {
      batches', n' := batches, n + 1;
    }
  }

  // ---------- What a stored tile reports ----------

  /**
   A tile's node array as the builder leaves it: the tree, then one node that is never filled in and
   reads as a leaf for polygon 0 with the zero box, because the header counts 2n nodes.
   */
  function StoredTrees(t: Tree): seq<Tree> { [t, Leaf(Item(ZERO_BOX, 0))] }

  /** Builds a tile's node array from the boxes of its polygons. */
  method CreateBVTree(boxes: seq<Box>, sort: Sorter) returns (nodes: array<BvNode>, ghost t: Tree)
    requires boxes != [] && Permutes(sort)
    ensures WellBoxed(t) && Halved(t) && nodes[..] == FlattenAll(StoredTrees(t)) && nodes.Length == 2 * |boxes|
    ensures multiset(Leaves(t)) == multiset(Polygons(boxes))
  {
    var items := new Item[|boxes|](k requires 0 <= k < |boxes| => Item(boxes[k], k));
    nodes := new BvNode[2 * |boxes|](_ => BvNode(ZERO_BOX, 0));
    assert items[0..|boxes|] == Polygons(boxes);
    var next;
    next, t := Subdivide(items, 0, |boxes|, 0, nodes, sort);
    StoredForm(t);
    SameLength(Leaves(t), Polygons(boxes));
    assert nodes[..] == nodes[0..next] + [BvNode(ZERO_BOX, 0)];
  }

  /** The polygons numbered from 0. */
  function Polygons(boxes: seq<Box>): seq<Item> { seq(|boxes|, k requires 0 <= k < |boxes| => Item(boxes[k], k)) }

  /** The items are the polygons 0..n-1, each once. */
  ghost predicate OnePerPolygon(items: seq<Item>) {
    && (forall k :: 0 <= k < |items| ==> items[k].i < |items|)
    && (forall j, k :: 0 <= j < k < |items| ==> items[j].i != items[k].i)
  }

  lemma {:induction false} AtMostOnce(items: seq<Item>, x: Item)
    requires forall j, k :: 0 <= j < k < |items| ==> items[j].i != items[k].i
    ensures multiset(items)[x] <= 1
  {
    if items != [] {
      assert items == [items[0]] + items[1..];
      AtMostOnce(items[1..], x);
      if items[0] == x {
        assert x !in items[1..];
      }
    }
  }

  lemma Twice(items: seq<Item>, j: nat, k: nat)
    requires j < k < |items| && items[j] == items[k]
    ensures multiset(items)[items[j]] >= 2
  {
    assert items == items[..k] + items[k..];
    assert items[j] == items[..k][j] && items[k] == items[k..][0];
  }

  /** However the builder sorted, the leaves are the polygons, each once. */
  lemma LeavesOnePerPolygon(boxes: seq<Box>, leaves: seq<Item>)
    requires multiset(leaves) == multiset(Polygons(boxes))
    ensures OnePerPolygon(leaves) && |leaves| == |boxes|
    ensures forall k :: 0 <= k < |leaves| ==> leaves[k].box == boxes[leaves[k].i]
  {
    var ps := Polygons(boxes);
    SameLength(leaves, ps);
    forall k | 0 <= k < |leaves|
      ensures leaves[k].i < |boxes| && leaves[k] == ps[leaves[k].i]
    {
      assert leaves[k] in multiset(leaves);
      assert leaves[k] in ps;
    }
    forall j, k | 0 <= j < k < |leaves|
      ensures leaves[j].i != leaves[k].i
    {
      AtMostOnce(ps, leaves[j]);
      if leaves[j] == leaves[k] {
        Twice(leaves, j, k);
        assert false;
      }
    }
  }

  lemma {:induction false} CountNone(items: seq<Item>, q: Box, i: nat)
    requires forall k :: 0 <= k < |items| ==> items[k].i != i
    ensures Count(items, q, i) == 0
  {
    if items != [] {
      CountNone(items[1..], q, i);
    }
  }

  lemma {:induction false} CountOne(items: seq<Item>, q: Box, k: nat)
    requires k < |items| && forall j, m :: 0 <= j < m < |items| ==> items[j].i != items[m].i
    ensures Count(items, q, items[k].i) == if Overlap(q, items[k].box) then 1 else 0
  {
    if k == 0 {
      CountNone(items[1..], q, items[0].i);
    } else {
      CountOne(items[1..], q, k - 1);
    }
  }

  /** Over the nodes the builder fills, a polygon is reported once if its box meets the query and not otherwise. */
  lemma BuiltNodesExact(t: Tree, q: Box, k: nat)
    requires OnePerPolygon(Leaves(t)) && k < |Leaves(t)|
    ensures var item := Leaves(t)[k];
            multiset(Hits(LeavesAll([t]), q))[item.i] == if Overlap(q, item.box) then 1 else 0
  {
    assert LeavesAll([t]) == Leaves(t) + LeavesAll([t][1..]) == Leaves(t);
    HitsCount(Leaves(t), q, Leaves(t)[k].i);
    CountOne(Leaves(t), q, k);
  }

  /**
   Over the whole stored array polygon 0 is reported once more exactly when the query box starts at
   the origin on every axis; every other polygon is reported as before.
   */
  lemma StoredNodesExact(t: Tree, q: Box, i: nat)
    ensures var stored, built := Hits(LeavesAll(StoredTrees(t)), q), Hits(LeavesAll([t]), q);
            multiset(stored)[i] == multiset(built)[i]
                                   + if i == 0 && q.minX == 0 && q.minY == 0 && q.minZ == 0 then 1 else 0
  {
    hide Hits, LeavesAll, Leaves;
    var extra := Item(ZERO_BOX, 0);
    assert [t] + [] == [t] && StoredTrees(t) == [t] + [Leaf(extra)] && [Leaf(extra)] + [] == [Leaf(extra)];
    LeavesFirst(t, []);
    LeavesFirst(t, [Leaf(extra)]);
    LeavesFirst(Leaf(extra), []);
    NoLeaves(t, extra);
    HitsJoin(Leaves(t), [extra], q);
    HitsOne(extra, q);
  }

  lemma NoLeaves(t: Tree, item: Item)
    ensures Leaves(t) + LeavesAll([]) == Leaves(t) && Leaves(Leaf(item)) + LeavesAll([]) == [item]
  {
  }

  /** The tree's storage, as both queries want it. */
  lemma StoredForm(t: Tree)
    requires WellBoxed(t)
    ensures FlattenAll(StoredTrees(t)) == Flatten(t) + [BvNode(ZERO_BOX, 0)] && AllWellBoxed(StoredTrees(t))
    ensures FlattenAll([t]) == Flatten(t) && AllWellBoxed([t])
  {
    var ts := StoredTrees(t);
    assert FlattenAll(ts[1..]) == Flatten(ts[1]) + FlattenAll(ts[1..][1..]) == Flatten(ts[1]);
    assert FlattenAll([t]) == Flatten(t) + FlattenAll([t][1..]) == Flatten(t);
  }

  // ---------- From boxes to reports ----------

  /**
   Whatever the boxes, the sort and the query: the stored array reports a polygon once if its box meets the query,
   and polygon 0 once more exactly when the query box starts at the origin.
   */
  lemma ReportsExact(boxes: seq<Box>, t: Tree, q: Box, i: nat)
    requires boxes != [] && multiset(Leaves(t)) == multiset(Polygons(boxes))
    ensures multiset(Hits(LeavesAll(StoredTrees(t)), q))[i]
            == (if i < |boxes| && Overlap(q, boxes[i]) then 1 else 0)
               + if i == 0 && q.minX == 0 && q.minY == 0 && q.minZ == 0 then 1 else 0
  {
    hide Hits, Leaves, LeavesAll, Overlap;
    var leaves := Leaves(t);
    LeavesOnePerPolygon(boxes, leaves);
    StoredNodesExact(t, q, i);
    if i < |boxes| {
      var k := LeafOf(boxes, leaves, i);
      BuiltNodesExact(t, q, k);
    } else {
      NoLeafNoHit(t, q, i);
    }
  }

  lemma LeafOf(boxes: seq<Box>, leaves: seq<Item>, i: nat) returns (k: nat)
    requires multiset(leaves) == multiset(Polygons(boxes)) && i < |boxes|
    ensures k < |leaves| && leaves[k] == Item(boxes[i], i)
  {
    assert Polygons(boxes)[i] in multiset(Polygons(boxes));
    assert Item(boxes[i], i) in leaves;
    k :| 0 <= k < |leaves| && leaves[k] == Item(boxes[i], i);
  }

  lemma NoLeafNoHit(t: Tree, q: Box, i: nat)
    requires forall k :: 0 <= k < |Leaves(t)| ==> Leaves(t)[k].i != i
    ensures multiset(Hits(LeavesAll([t]), q))[i] == 0
  {
    assert LeavesAll([t]) == Leaves(t) + LeavesAll([t][1..]) == Leaves(t);
    HitsCount(Leaves(t), q, i);
    CountNone(Leaves(t), q, i);
  }

  /** Builds a tile's array and queries it, with a buffer that takes every report. */
  method BuildAndQuery(boxes: seq<Box>, sort: Sorter, q: Box) returns (reports: seq<nat>)
    requires boxes != [] && Permutes(sort)
    ensures forall i: nat :: multiset(reports)[i]
                             == (if i < |boxes| && Overlap(q, boxes[i]) then 1 else 0)
                                + if i == 0 && q.minX == 0 && q.minY == 0 && q.minZ == 0 then 1 else 0
  {
    hide Hits, Leaves, LeavesAll, Overlap, Permutes, FlattenAll, AllWellBoxed, StoredTrees;
    var nodes;
    ghost var t;
    nodes, t := CreateBVTree(boxes, sort);
    StoredForm(t);
    ghost var all := Hits(LeavesAll(StoredTrees(t)), q);
    HitsFew(LeavesAll(StoredTrees(t)), q);
    StoredCount(t, boxes);
    var polys := new nat[|boxes| + 1](_ => 0);
    var n := QueryInto(nodes[..], q, polys, |boxes| + 1, StoredTrees(t));
    reports := polys[..n];
    assert reports == all[..n] == all;
    forall i: nat
      ensures multiset(reports)[i]
              == (if i < |boxes| && Overlap(q, boxes[i]) then 1 else 0)
                 + if i == 0 && q.minX == 0 && q.minY == 0 && q.minZ == 0 then 1 else 0
    {
      ReportsExact(boxes, t, q, i);
    }
  }

  lemma {:induction false} HitsFew(items: seq<Item>, q: Box)
    ensures |Hits(items, q)| <= |items|
  {
    if items != [] {
      HitsFew(items[1..], q);
    }
  }

  lemma StoredCount(t: Tree, boxes: seq<Box>)
    requires multiset(Leaves(t)) == multiset(Polygons(boxes))
    ensures |LeavesAll(StoredTrees(t))| == |boxes| + 1
  {
    hide Leaves;
    SameLength(Leaves(t), Polygons(boxes));
    var extra := Leaf(Item(ZERO_BOX, 0));
    assert StoredTrees(t) == [t] + [extra] && [extra] + [] == [extra];
    LeavesFirst(t, [extra]);
    LeavesFirst(extra, []);
    NoLeaves(t, extra.item);
  }
}
