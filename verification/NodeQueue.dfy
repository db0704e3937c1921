/** Search nodes of the path finder, and the binary heap of node indices that holds the open ones. */
module SearchNode {
  /** A polygon reference; zero is "none". */
  type PolyRef = nat

  datatype Pos = Pos(x: real, y: real, z: real)

  /** `pidx` is one more than the index of the parent, or zero; the two flags are OPEN and CLOSED. */
  datatype Node = Node(pos: Pos, cost: nat, total: nat, pidx: nat, state: nat, open: bool, closed: bool, id: PolyRef)
}

module NodeQueue {
  import opened SearchNode

  function Parent(j: int): int { (j - 1) / 2 }

  predicate Indices(h: seq<nat>, ns: seq<Node>) {
    forall k :: 0 <= k < |h| ==> h[k] < |ns|
  }

  ghost predicate Below(h: seq<nat>, ns: seq<Node>, a: int, b: int)
    requires Indices(h, ns)
  {
    0 <= a < |h| && 0 <= b < |h| && ns[h[a]].total <= ns[h[b]].total
  }

  /** Heap order: no node's total is below its parent's. */
  ghost predicate Ordered(h: seq<nat>, ns: seq<Node>) {
    Indices(h, ns) && forall j :: 0 < j < |h| ==> Below(h, ns, Parent(j), j)
  }

  /** Heap order except that the entry at `i` may be below its parent. */
  ghost predicate OrderedBut(h: seq<nat>, ns: seq<Node>, i: nat) {
    && i < |h| && Indices(h, ns)
    && (forall j :: 0 < j < |h| && j != i ==> Below(h, ns, Parent(j), j))
    && (forall j :: 0 < j < |h| && Parent(j) == i && i > 0 ==> Below(h, ns, Parent(i), j))
  }

  /** Heap order with the entry at `i` left out. */
  ghost predicate OrderedAround(h: seq<nat>, ns: seq<Node>, i: nat) {
    && i < |h| && Indices(h, ns)
    && (forall j :: 0 < j < |h| && j != i && Parent(j) != i ==> Below(h, ns, Parent(j), j))
    && (forall j :: 0 < j < |h| && Parent(j) == i && i > 0 ==> Below(h, ns, Parent(i), j))
  }

  /** Moving an entry into a hole and putting `x` where it was. */
  lemma MoveHole(h: seq<nat>, i: nat, j: nat, x: nat)
    requires i < |h| && j < |h| && i != j
    ensures multiset(h[i := h[j]][j := x]) == multiset(h[i := x])
  {
    assert h[i := h[j]][j := x] == h[i := x][i := h[j]][j := x];
  }

  lemma RaiseStep(h: seq<nat>, ns: seq<Node>, i: nat)
    requires OrderedBut(h, ns, i) && i > 0 && ns[h[Parent(i)]].total > ns[h[i]].total
    ensures OrderedBut(h[i := h[Parent(i)]][Parent(i) := h[i]], ns, Parent(i))
  {
    var p := Parent(i);
    var g := h[i := h[p]][p := h[i]];
    forall j | 0 < j < |g| && j != p
      ensures Below(g, ns, Parent(j), j)
    {
      assert j != i ==> Below(h, ns, Parent(j), j);
      assert Parent(j) == i ==> Below(h, ns, p, j);
      assert p > 0 ==> Below(h, ns, Parent(p), p);
    }
    forall j | 0 < j < |g| && Parent(j) == p && p > 0
      ensures Below(g, ns, Parent(p), j)
    {
      assert Below(h, ns, Parent(p), p);
      assert j != i ==> Below(h, ns, p, j);
    }
  }

  /** The loop state of BubbleUp: `node` belongs at the hole `i` or above it. */
  ghost predicate Rising(h: seq<nat>, ns: seq<Node>, i: nat, node: nat, all: multiset<nat>) {
    i < |h| && OrderedBut(h[i := node], ns, i) && multiset(h[i := node]) == all
  }

  lemma RisingStart(h: seq<nat>, ns: seq<Node>, i: nat, node: nat)
    requires i < |h| && OrderedBut(h[i := node], ns, i)
    ensures Rising(h, ns, i, node, multiset(h[i := node]))
  {
  }

  lemma RisingRoom(h: seq<nat>, ns: seq<Node>, i: nat, node: nat, all: multiset<nat>)
    requires Rising(h, ns, i, node, all)
    ensures node < |ns| && (i > 0 ==> h[Parent(i)] < |ns|)
  {
    var g := h[i := node];
    assert g[i] == node && (i > 0 ==> g[Parent(i)] == h[Parent(i)]);
  }

  lemma RisingStep(h: seq<nat>, ns: seq<Node>, i: nat, node: nat, all: multiset<nat>)
    requires Rising(h, ns, i, node, all) && i > 0 && node < |ns| && h[Parent(i)] < |ns|
    requires ns[h[Parent(i)]].total > ns[node].total
    ensures Rising(h[i := h[Parent(i)]], ns, Parent(i), node, all)
  {
    RaiseStep(h[i := node], ns, i);
    MoveHole(h, i, Parent(i), node);
    assert h[i := node][i := h[Parent(i)]][Parent(i) := node] == h[i := h[Parent(i)]][Parent(i) := node];
  }

  lemma RisenThere(h: seq<nat>, ns: seq<Node>, i: nat, node: nat, all: multiset<nat>)
    requires Rising(h, ns, i, node, all) && node < |ns|
    requires i > 0 ==> h[Parent(i)] < |ns| && ns[h[Parent(i)]].total <= ns[node].total
    ensures Ordered(h[i := node], ns) && multiset(h[i := node]) == all
  {
    var g := h[i := node];
    forall j | 0 < j < |g|
      ensures Below(g, ns, Parent(j), j)
    {
    }
  }

  lemma SinkStep(h: seq<nat>, ns: seq<Node>, i: nat, child: nat)
    requires OrderedAround(h, ns, i) && child < |h| && 0 < child && Parent(child) == i
    requires forall j :: 0 < j < |h| && Parent(j) == i ==> Below(h, ns, child, j)
    ensures OrderedAround(h[i := h[child]], ns, child)
  {
    var g := h[i := h[child]];
    forall j | 0 < j < |g| && j != child && Parent(j) != child
      ensures Below(g, ns, Parent(j), j)
    {
      if j == i {
        assert Below(h, ns, Parent(i), child);
      } else if Parent(j) == i {
        assert Below(h, ns, child, j);
      } else {
        assert Below(h, ns, Parent(j), j);
      }
    }
    forall j | 0 < j < |g| && Parent(j) == child
      ensures Below(g, ns, Parent(child), j)
    {
      assert Below(h, ns, Parent(j), j);
    }
  }

  /** In an ordered heap the root is a minimum. */
  lemma {:induction false} RootIsLeast(h: seq<nat>, ns: seq<Node>, k: nat)
    requires Ordered(h, ns) && k < |h|
    ensures Below(h, ns, 0, k)
  {
    if k > 0 {
      assert Below(h, ns, Parent(k), k);
      RootIsLeast(h, ns, Parent(k));
    }
  }

  class Queue {
    const heap: array<nat>
    const capacity: nat
    var size: nat

    ghost predicate Valid()
      reads this
    {
      heap.Length == capacity + 1 && size <= capacity
    }

    ghost function Contents(): seq<nat>
      requires Valid()
      reads this, heap
    {
      heap[..size]
    }

    constructor (capacity: nat)
      requires capacity > 0
      ensures Valid() && this.capacity == capacity && Contents() == [] && fresh(heap)
    {
      this.capacity := capacity;
      heap := new nat[capacity + 1];
      size := 0;
    }

    method Clear()
      requires Valid()
      modifies this
      ensures Valid() && Contents() == []
    {
      size := 0;
    }

    /** Fills the hole at `i0` with `node`, moving larger ancestors down. */
    method BubbleUp(nodes: array<Node>, i0: nat, node: nat)
      requires Valid() && nodes != heap as object
      requires i0 < size && OrderedBut(Contents()[i0 := node], nodes[..], i0)
      modifies heap
      ensures Ordered(Contents(), nodes[..])
      ensures multiset(Contents()) == multiset(old(Contents()[i0 := node]))
    {
      hide Rising, Ordered, OrderedBut;
      RisingStart(Contents(), nodes[..], i0, node);
      Rise(nodes, i0, node, multiset(Contents()[i0 := node]));
    }

    method Rise(nodes: array<Node>, i0: nat, node: nat, ghost all: multiset<nat>)
      requires Valid() && nodes != heap as object
      requires i0 < size && Rising(Contents(), nodes[..], i0, node, all)
      modifies heap
      ensures Ordered(Contents(), nodes[..]) && multiset(Contents()) == all
    {
      hide Rising, Ordered, OrderedBut, Indices;
      var i: nat := i0;
      ghost var ns := nodes[..];
      RisingRoom(Contents(), ns, i, node, all);
      while i > 0 && nodes[heap[Parent(i)]].total > nodes[node].total
        invariant i < size && node < nodes.Length && nodes[..] == ns
        invariant i > 0 ==> heap[Parent(i)] < nodes.Length
        invariant Rising(Contents(), ns, i, node, all)
        decreases i
      {
        var parent := Parent(i);
        ghost var h := Contents();
        RisingStep(h, ns, i, node, all);
        heap[i] := heap[parent];
        assert Contents() == h[i := h[parent]];
        i := parent;
        RisingRoom(Contents(), ns, i, node, all);
      }
      RisenThere(Contents(), ns, i, node, all);
      ghost var h := Contents();
      heap[i] := node;
      assert Contents() == h[i := node];
    }

    /** Moves a hole from `i0` down to a leaf, smaller child first, then lets `node` rise from there. */
    method TrickleDown(nodes: array<Node>, i0: nat, node: nat)
      requires Valid() && nodes != heap as object
      requires i0 < size && node < nodes.Length && OrderedAround(Contents(), nodes[..], i0)
      modifies heap
      ensures Ordered(Contents(), nodes[..])
      ensures multiset(Contents()) == multiset(old(Contents()[i0 := node]))
    {
      var i: nat := i0;
      var child: nat := i * 2 + 1;
      ghost var ns := nodes[..];
      while child < size
        invariant i < size && child == i * 2 + 1
        invariant nodes[..] == ns && OrderedAround(Contents(), ns, i)
        invariant multiset(Contents()[i := node]) == multiset(old(Contents()[i0 := node]))
        decreases size - i
      {
        child := SmallerChild(nodes, child);
        ghost var h := Contents();
        SinkStep(h, ns, i, child);
        MoveHole(h, i, child, node);
        heap[i] := heap[child];
        assert Contents() == h[i := h[child]];
        i := child;
        child := i * 2 + 1;
      }
      LeafHole(Contents(), ns, i, node);
      BubbleUp(nodes, i, node);
    }

    method SmallerChild(nodes: array<Node>, first: nat) returns (child: nat)
      requires Valid() && nodes != heap as object && 0 < first < size && first % 2 == 1
      requires Indices(Contents(), nodes[..])
      ensures child < size && 0 < child && Parent(child) == Parent(first)
      ensures forall j :: 0 < j < size && Parent(j) == Parent(first) ==> Below(Contents(), nodes[..], child, j)
    {
      child := first;
      assert Contents()[first] == heap[first];
      if child + 1 < size {
        assert Contents()[first + 1] == heap[first + 1];
        if nodes[heap[child]].total > nodes[heap[child + 1]].total {
          child := child + 1;
        }
      }
    }

    method Top(nodes: array<Node>) returns (top: nat)
      requires Valid() && size > 0 && Ordered(Contents(), nodes[..])
      ensures top == Contents()[0]
      ensures forall k :: 0 <= k < size ==> nodes[top].total <= nodes[Contents()[k]].total
    {
      forall k | 0 <= k < size
        ensures nodes[Contents()[0]].total <= nodes[Contents()[k]].total
      {
        RootIsLeast(Contents(), nodes[..], k);
      }
      top := heap[0];
    }

    /** Removes an entry of least total. */
    method Pop(nodes: array<Node>) returns (result: nat)
      requires Valid() && nodes != heap as object && size > 0 && Ordered(Contents(), nodes[..])
      modifies this`size, heap
      ensures Valid() && size == old(size) - 1 && Ordered(Contents(), nodes[..])
      ensures result in old(Contents()) && result < nodes.Length
      ensures multiset(Contents()) == multiset(old(Contents())) - multiset{result}
      ensures forall k :: 0 <= k < old(size) ==> old(Contents())[k] < nodes.Length
      ensures forall k :: 0 <= k < old(size) ==> nodes[result].total <= nodes[old(Contents())[k]].total
    {
      ghost var h, ns := Contents(), nodes[..];
      result := Top(nodes);
      size := size - 1;
      DropLast(h);
      if size > 0 {
        assert Contents() == h[..size];
        TrickleDown(nodes, 0, heap[size]);
      }
    }

    method Push(nodes: array<Node>, node: nat)
      requires Valid() && nodes != heap as object && size < capacity
      requires node < nodes.Length && Ordered(Contents(), nodes[..])
      modifies this`size, heap
      ensures Valid() && size == old(size) + 1 && Ordered(Contents(), nodes[..])
      ensures multiset(Contents()) == multiset(old(Contents())) + multiset{node}
    {
      ghost var h := Contents();
      size := size + 1;
      assert Contents()[size - 1 := node] == h + [node];
      BubbleUp(nodes, size - 1, node);
    }

    /** Restores order after the total of `node` has gone down from what it was in `was`. */
    method Modify(nodes: array<Node>, node: nat, ghost was: seq<Node>)
      requires Valid() && nodes != heap as object
      requires node in Contents() && |was| == nodes.Length && Ordered(Contents(), was)
      requires forall i, j :: 0 <= i < j < size ==> Contents()[i] != Contents()[j]
      requires forall k :: 0 <= k < |was| && k != node ==> nodes[k].total == was[k].total
      requires nodes[node].total <= was[node].total
      modifies heap
      ensures Ordered(Contents(), nodes[..])
      ensures multiset(Contents()) == multiset(old(Contents()))
    {
      var i := 0;
      while i < size
        invariant 0 <= i <= size && node !in Contents()[..i]
      {
        if heap[i] == node {
          LoweredBut(Contents(), was, nodes[..], i);
          assert Contents()[i := node] == Contents();
          BubbleUp(nodes, i, node);
          return;
        }
        i := i + 1;
      }
    }
  }

  lemma LeafHole(h: seq<nat>, ns: seq<Node>, i: nat, node: nat)
    requires OrderedAround(h, ns, i) && node < |ns| && i * 2 + 1 >= |h|
    ensures OrderedBut(h[i := node], ns, i)
  {
    var g := h[i := node];
    forall j | 0 < j < |g| && j != i
      ensures Below(g, ns, Parent(j), j)
    {
      assert Below(h, ns, Parent(j), j);
    }
  }

  /** Dropping the root and moving the last entry into its place. */
  lemma DropLast(h: seq<nat>)
    requires |h| > 0
    ensures |h| > 1 ==> multiset(h[..|h| - 1][0 := h[|h| - 1]]) == multiset(h) - multiset{h[0]}
    ensures |h| == 1 ==> multiset(h[..0]) == multiset(h) - multiset{h[0]}
  {
    assert h == h[..|h| - 1] + [h[|h| - 1]];
  }

  lemma LoweredBut(h: seq<nat>, was: seq<Node>, ns: seq<Node>, i: nat)
    requires Ordered(h, was) && i < |h| && |was| == |ns|
    requires forall a, b :: 0 <= a < b < |h| ==> h[a] != h[b]
    requires forall k :: 0 <= k < |was| && k != h[i] ==> ns[k].total == was[k].total
    requires ns[h[i]].total <= was[h[i]].total
    ensures OrderedBut(h, ns, i)
  {
    forall j | 0 < j < |h| && j != i
      ensures Below(h, ns, Parent(j), j)
    {
      assert Below(h, was, Parent(j), j);
    }
    forall j | 0 < j < |h| && Parent(j) == i && i > 0
      ensures Below(h, ns, Parent(i), j)
    {
      assert Below(h, was, Parent(j), j) && Below(h, was, Parent(i), i);
    }
  }
}
