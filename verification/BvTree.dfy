/**
 The bounding-volume tree of a tile: built in pre-order with escape offsets, walked without a stack.
 The library sort is any function that permutes.
 */
module BvTree {
  type U16 = v: int | 0 <= v < 65536

  datatype Box = Box(minX: U16, minY: U16, minZ: U16, maxX: U16, maxY: U16, maxZ: U16)

  /** A polygon's quantised bounds. */
  datatype Item = Item(box: Box, i: nat)

  /** A stored node: a polygon index, or minus the number of nodes to skip. */
  datatype BvNode = BvNode(box: Box, i: int)

  const ZERO_BOX := Box(0, 0, 0, 0, 0, 0)

  predicate Overlap(a: Box, b: Box) {
    && !(a.minX > b.maxX || a.maxX < b.minX)
    && !(a.minY > b.maxY || a.maxY < b.minY)
    && !(a.minZ > b.maxZ || a.maxZ < b.minZ)
  }

  /** The point lies in the box, borders included. */
  predicate Within(x: int, y: int, z: int, b: Box) {
    b.minX <= x <= b.maxX && b.minY <= y <= b.maxY && b.minZ <= z <= b.maxZ
  }

  predicate Proper(b: Box) { b.minX <= b.maxX && b.minY <= b.maxY && b.minZ <= b.maxZ }

  /** Two boxes overlap exactly when they have a point in common. */
  lemma OverlapMeans(a: Box, b: Box)
    requires Proper(a) && Proper(b)
    ensures Overlap(a, b) <==> exists x, y, z :: Within(x, y, z, a) && Within(x, y, z, b)
  {
    if Overlap(a, b) {
      var x := if a.minX < b.minX then b.minX else a.minX;
      var y := if a.minY < b.minY then b.minY else a.minY;
      var z := if a.minZ < b.minZ then b.minZ else a.minZ;
      assert Within(x, y, z, a) && Within(x, y, z, b);
    }
  }

  predicate Contains(a: Box, b: Box) {
    && a.minX <= b.minX && a.minY <= b.minY && a.minZ <= b.minZ
    && b.maxX <= a.maxX && b.maxY <= a.maxY && b.maxZ <= a.maxZ
  }

  // ---------- Trees and their pre-order ----------

  datatype Tree = Leaf(item: Item) | Node(box: Box, left: Tree, right: Tree)

  function Size(t: Tree): (n: nat)
    ensures n >= 1
  {
    if t.Leaf? then 1 else 1 + Size(t.left) + Size(t.right)
  }

  function Leaves(t: Tree): (r: seq<Item>)
    ensures Size(t) == 2 * |r| - 1
  {
    if t.Leaf? then [t.item] else Leaves(t.left) + Leaves(t.right)
  }

  function Flatten(t: Tree): (r: seq<BvNode>)
    ensures |r| == Size(t)
  {
    if t.Leaf? then [BvNode(t.item.box, t.item.i)]
    else [BvNode(t.box, 0 - Size(t))] + Flatten(t.left) + Flatten(t.right)
  }

  ghost predicate AllInside(box: Box, items: seq<Item>) {
    forall k :: 0 <= k < |items| ==> Contains(box, items[k].box)
  }

  /** Every inner box contains all leaves below it. */
  ghost predicate WellBoxed(t: Tree) {
    t.Node? ==> AllInside(t.box, Leaves(t)) && WellBoxed(t.left) && WellBoxed(t.right)
  }

  /** Every inner node splits its leaves in the middle. */
  ghost predicate Halved(t: Tree) {
    t.Node? ==> |Leaves(t.left)| == |Leaves(t)| / 2 && Halved(t.left) && Halved(t.right)
  }

  function FlattenAll(ts: seq<Tree>): seq<BvNode> {
    if ts == [] then [] else Flatten(ts[0]) + FlattenAll(ts[1..])
  }

  function LeavesAll(ts: seq<Tree>): seq<Item> {
    if ts == [] then [] else Leaves(ts[0]) + LeavesAll(ts[1..])
  }

  ghost predicate AllWellBoxed(ts: seq<Tree>) {
    forall k :: 0 <= k < |ts| ==> WellBoxed(ts[k])
  }

  // ---------- A linear scan ----------

  /** The polygons whose boxes meet `q`, in order. */
  function Hits(items: seq<Item>, q: Box): seq<nat> {
    if items == [] then []
    else (if Overlap(q, items[0].box) then [items[0].i] else []) + Hits(items[1..], q)
  }

  lemma {:induction false} HitsJoin(a: seq<Item>, b: seq<Item>, q: Box)
    ensures Hits(a + b, q) == Hits(a, q) + Hits(b, q)
  {
    if a == [] {
      assert a + b == b;
    } else {
      assert (a + b)[1..] == a[1..] + b;
      HitsJoin(a[1..], b, q);
    }
  }

  /** Nothing inside a missed box is hit. */
  lemma {:induction false} MissedBox(box: Box, items: seq<Item>, q: Box)
    requires AllInside(box, items) && !Overlap(q, box)
    ensures Hits(items, q) == []
  {
    if items != [] {
      assert Contains(box, items[0].box);
      MissedBox(box, items[1..], q);
    }
  }

  /** How often a polygon is reported: once for each of its items that meets the query. */
  function Count(items: seq<Item>, q: Box, i: nat): nat {
    if items == [] then 0 else (if items[0].i == i && Overlap(q, items[0].box) then 1 else 0) + Count(items[1..], q, i)
  }

  lemma {:induction false} HitsCount(items: seq<Item>, q: Box, i: nat)
    ensures multiset(Hits(items, q))[i] == Count(items, q, i)
  {
    if items != [] {
      HitsCount(items[1..], q, i);
    }
  }

  // ---------- Building ----------

  function Join(a: Box, b: Box): (r: Box)
    ensures Contains(r, a) && Contains(r, b)
  {
    Box(if b.minX < a.minX then b.minX else a.minX, if b.minY < a.minY then b.minY else a.minY,
        if b.minZ < a.minZ then b.minZ else a.minZ, if b.maxX > a.maxX then b.maxX else a.maxX,
        if b.maxY > a.maxY then b.maxY else a.maxY, if b.maxZ > a.maxZ then b.maxZ else a.maxZ)
  }

  method CalcExtends(items: array<Item>, imin: nat, imax: nat) returns (box: Box)
    requires imin < imax <= items.Length
    ensures AllInside(box, items[imin..imax])
    ensures forall b :: AllInside(b, items[imin..imax]) ==> Contains(b, box)
  {
    box := items[imin].box;
    var i := imin + 1;
    assert items[imin..i] == [items[imin]];
    while i < imax
      invariant imin < i <= imax
      invariant AllInside(box, items[imin..i])
      invariant forall b :: AllInside(b, items[imin..i]) ==> Contains(b, box)
    {
      ghost var seen := items[imin..i];
      assert items[imin..i + 1] == seen + [items[i]];
      box := Join(box, items[i].box);
      forall b | AllInside(b, items[imin..i + 1])
        ensures Contains(b, box)
      {
        assert Contains(b, (seen + [items[i]])[|seen|].box);
        assert AllInside(b, seen) by {
          assert forall k :: 0 <= k < |seen| ==> seen[k] == items[imin..i + 1][k];
        }
      }
      i := i + 1;
    }
  }

  function LongestAxis(x: int, y: int, z: int): (axis: nat)
    ensures axis < 3
    ensures var l := [x, y, z]; forall k :: 0 <= k < 3 ==> l[k] <= l[axis]
  {
    var axis, maxVal := if y > x then 1 else 0, if y > x then y else x;
    if z > maxVal then 2 else axis
  }

  type Sorter = (seq<Item>, nat) -> seq<Item>

  ghost predicate Permutes(sort: Sorter) {
    forall s, axis :: multiset(sort(s, axis)) == multiset(s)
  }

  /** The library sort on a stretch of the array. */
  method SortStretch(items: array<Item>, imin: nat, imax: nat, axis: nat, sort: Sorter)
    requires imin <= imax <= items.Length && Permutes(sort)
    modifies items
    ensures multiset(items[imin..imax]) == multiset(old(items[imin..imax]))
    ensures forall k :: 0 <= k < items.Length && !(imin <= k < imax) ==> items[k] == old(items[k])
  {
    var sorted := sort(items[imin..imax], axis);
    SameLength(sorted, items[imin..imax]);
    for k := 0 to imax - imin
      invariant forall j :: 0 <= j < k ==> items[imin + j] == sorted[j]
      invariant forall k :: 0 <= k < items.Length && !(imin <= k < imax) ==> items[k] == old(items[k])
    {
      items[imin + k] := sorted[k];
    }
    assert items[imin..imax] == sorted;
  }

  lemma SameLength<T>(a: seq<T>, b: seq<T>)
    requires multiset(a) == multiset(b)
    ensures |a| == |b|
  {
    assert |multiset(a)| == |a| && |multiset(b)| == |b|;
  }

  lemma AllInsidePermuted(box: Box, a: seq<Item>, b: seq<Item>)
    requires AllInside(box, a) && multiset(a) == multiset(b)
    ensures AllInside(box, b)
  {
    forall k | 0 <= k < |b|
      ensures Contains(box, b[k].box)
    {
      assert b[k] in multiset(b);
      assert b[k] in a;
    }
  }

  /**
   Builds the tree of a stretch of items in the next free nodes. The leaves come out as the items
   now stand in the array; nothing outside the stretch or before the first node changes.
   */
  method Subdivide(items: array<Item>, imin: nat, imax: nat, curNode: nat, nodes: array<BvNode>, sort: Sorter)
    returns (next: nat, ghost t: Tree)
    requires imin < imax <= items.Length && Permutes(sort)
    requires curNode + 2 * (imax - imin) - 1 <= nodes.Length
    modifies items, nodes
    ensures multiset(items[imin..imax]) == multiset(old(items[imin..imax]))
    ensures forall k :: 0 <= k < items.Length && !(imin <= k < imax) ==> items[k] == old(items[k])
    ensures Leaves(t) == items[imin..imax] && WellBoxed(t) && Halved(t)
    ensures next == curNode + Size(t) <= nodes.Length && nodes[curNode..next] == Flatten(t)
    ensures forall k :: 0 <= k < nodes.Length && !(curNode <= k < next) ==> nodes[k] == old(nodes[k])
    decreases imax - imin, 2
  {
    if imax - imin == 1 {
      nodes[curNode] := BvNode(items[imin].box, items[imin].i);
      next, t := curNode + 1, Leaf(items[imin]);
    } else {
      next, t := Split(items, imin, imax, curNode, nodes, sort);
    }
  }

  /** The case of two or more items. */
  method Split(items: array<Item>, imin: nat, imax: nat, curNode: nat, nodes: array<BvNode>, sort: Sorter)
    returns (next: nat, ghost t: Tree)
    requires imin + 1 < imax <= items.Length && Permutes(sort)
    requires curNode + 2 * (imax - imin) - 1 <= nodes.Length
    modifies items, nodes
    ensures multiset(items[imin..imax]) == multiset(old(items[imin..imax]))
    ensures forall k :: 0 <= k < items.Length && !(imin <= k < imax) ==> items[k] == old(items[k])
    ensures Leaves(t) == items[imin..imax] && WellBoxed(t) && Halved(t)
    ensures next == curNode + Size(t) <= nodes.Length && nodes[curNode..next] == Flatten(t)
    ensures forall k :: 0 <= k < nodes.Length && !(curNode <= k < next) ==> nodes[k] == old(nodes[k])
    decreases imax - imin, 1
  {
    hide Flatten, AllInside, Leaves, WellBoxed, Halved, Size;
    var box := Arrange(items, imin, imax, sort);
    nodes[curNode] := BvNode(box, 0);
    ghost var was := items[imin..imax];
    var isplit := imin + (imax - imin) / 2;
    ghost var mid, l, r;
    ArrayHalves(items, imin, isplit, imax);
    next, mid, l, r := Children(items, imin, isplit, imax, curNode + 1, nodes, sort);
    ArrayHalves(items, imin, isplit, imax);
    ArrayHalves(nodes, curNode + 1, mid, next);
    t := Node(box, l, r);
    AllInsidePermuted(box, was, items[imin..imax]);
    Joined(box, l, r);
    SetEscape(nodes, curNode, next, t);
  }

  /** What the children's trees say about their parent's. */
  lemma Joined(box: Box, l: Tree, r: Tree)
    requires WellBoxed(l) && WellBoxed(r) && Halved(l) && Halved(r)
    requires AllInside(box, Leaves(l) + Leaves(r)) && |Leaves(l)| == |Leaves(l) + Leaves(r)| / 2
    ensures var t := Node(box, l, r);
            Leaves(t) == Leaves(l) + Leaves(r) && Size(t) == 1 + Size(l) + Size(r) && WellBoxed(t) && Halved(t)
  {
  }

  /** The bounds of a stretch, which is then sorted along its longest axis. */
  method Arrange(items: array<Item>, imin: nat, imax: nat, sort: Sorter) returns (box: Box)
    requires imin < imax <= items.Length && Permutes(sort)
    modifies items
    ensures multiset(items[imin..imax]) == multiset(old(items[imin..imax])) && AllInside(box, items[imin..imax])
    ensures forall k :: 0 <= k < items.Length && !(imin <= k < imax) ==> items[k] == old(items[k])
  {
    hide AllInside;
    ghost var was := items[imin..imax];
    box := CalcExtends(items, imin, imax);
    var axis := LongestAxis(box.maxX - box.minX, box.maxY - box.minY, box.maxZ - box.minZ);
    SortStretch(items, imin, imax, axis, sort);
    AllInsidePermuted(box, was, items[imin..imax]);
  }

  lemma ArrayHalves<T>(a: array<T>, lo: nat, mid: nat, hi: nat)
    requires lo <= mid <= hi <= a.Length
    ensures a[lo..hi] == a[lo..mid] + a[mid..hi]
  {
  }

  /** Fills in the escape offset once the subtree is complete. */
  method SetEscape(nodes: array<BvNode>, icur: nat, next: nat, ghost t: Tree)
    requires t.Node? && next == icur + Size(t) <= nodes.Length && nodes[icur].box == t.box
    requires nodes[icur + 1..next] == Flatten(t.left) + Flatten(t.right)
    modifies nodes
    ensures nodes[icur..next] == Flatten(t)
    ensures forall k :: 0 <= k < nodes.Length && k != icur ==> nodes[k] == old(nodes[k])
  {
    ghost var below := nodes[icur + 1..next];
    nodes[icur] := BvNode(nodes[icur].box, 0 - (next - icur));
    assert nodes[icur + 1..next] == below;
    assert nodes[icur..next] == [nodes[icur]] + below;
    assert [BvNode(t.box, 0 - Size(t))] + (Flatten(t.left) + Flatten(t.right)) == Flatten(t);
  }

  /** Builds both halves one after the other. */
  method Children(items: array<Item>, imin: nat, isplit: nat, imax: nat, curNode: nat, nodes: array<BvNode>,
                  sort: Sorter)
    returns (next: nat, mid: nat, ghost l: Tree, ghost r: Tree)
    requires imin < isplit < imax <= items.Length && Permutes(sort)
    requires curNode + 2 * (imax - imin) - 2 <= nodes.Length
    modifies items, nodes
    ensures multiset(items[imin..isplit] + items[isplit..imax])
            == multiset(old(items[imin..isplit] + items[isplit..imax]))
    ensures forall k :: 0 <= k < items.Length && !(imin <= k < imax) ==> items[k] == old(items[k])
    ensures Leaves(l) == items[imin..isplit] && Leaves(r) == items[isplit..imax] && WellBoxed(l) && WellBoxed(r)
    ensures Halved(l) && Halved(r)
    ensures mid == curNode + Size(l) && next == mid + Size(r) <= nodes.Length
    ensures nodes[curNode..mid] == Flatten(l) && nodes[mid..next] == Flatten(r)
    ensures forall k :: 0 <= k < nodes.Length && !(curNode <= k < next) ==> nodes[k] == old(nodes[k])
    decreases imax - imin, 0
  {
    hide Flatten, Leaves, WellBoxed, Halved;
    ghost var b0 := items[isplit..imax];
    mid, l := Subdivide(items, imin, isplit, curNode, nodes, sort);
    ghost var a1, n1 := items[imin..isplit], nodes[curNode..mid];
    assert items[isplit..imax] == b0;
    next, r := Subdivide(items, isplit, imax, mid, nodes, sort);
    assert items[imin..isplit] == a1;
    assert nodes[curNode..mid] == n1;
  }
}
