/** The arena of search nodes with its chained hash index. A node pointer is its index in the arena. */
module NodePool {
  import opened SearchNode

  const NULL_IDX := 65535
  const ORIGIN := Pos(0.0, 0.0, 0.0)

  predicate IsKey(n: Node, id: PolyRef, state: nat) {
    n.id == id && n.state == state
  }

  predicate UniqueKeys(ns: seq<Node>) {
    forall i, j {:trigger IsKey(ns[j], ns[i].id, ns[i].state)} :: 0 <= i < j < |ns| ==>
      !IsKey(ns[j], ns[i].id, ns[i].state)
  }

  /** A node just handed out: no flags, no parent. */
  predicate IsNew(n: Node, id: PolyRef, state: nat) {
    IsKey(n, id, state) && n.cost == n.total == n.pidx == 0 && !n.open && !n.closed
  }

  class Pool {
    const nodes: array<Node>
    const first: array<nat>
    const next: array<nat>
    const maxNodes: nat
    const hashSize: nat
    const bucket: PolyRef -> nat
    var count: nat

    ghost predicate Shape()
      reads this
    {
      && nodes.Length == next.Length == maxNodes && first.Length == hashSize && first != next
      && 0 < maxNodes <= NULL_IDX && count <= maxNodes
      && forall id :: bucket(id) < hashSize
    }

    /** `i` is the youngest node below `bound` whose reference hashes to `b`, or NULL_IDX if there is none. */
    ghost predicate Youngest(b: nat, i: nat, bound: nat)
      requires bound <= nodes.Length
      reads nodes
    {
      && (i != NULL_IDX ==> i < bound && bucket(nodes[i].id) == b)
      && (forall k :: 0 <= k < bound && (i == NULL_IDX || k > i) ==> bucket(nodes[k].id) != b)
    }

    /** Each bucket's chain runs through its nodes from youngest to oldest. */
    ghost predicate Valid()
      reads this, nodes, first, next
    {
      && Shape()
      && (forall b {:trigger Youngest(b, first[b], count)} :: 0 <= b < hashSize ==> Youngest(b, first[b], count))
      && (forall k {:trigger Youngest(bucket(nodes[k].id), next[k], k)} :: 0 <= k < count ==>
          Youngest(bucket(nodes[k].id), next[k], k))
      && UniqueKeys(Used())
    }

    ghost function Used(): seq<Node>
      requires count <= nodes.Length
      reads this, nodes
    {
      nodes[..count]
    }

    constructor (maxNodes: nat, hashSize: nat, bucket: PolyRef -> nat)
      requires 0 < maxNodes <= NULL_IDX && forall id :: bucket(id) < hashSize
      ensures Valid() && Used() == [] && this.maxNodes == maxNodes
      ensures fresh(nodes) && fresh(first) && fresh(next)
    {
      this.maxNodes, this.hashSize, this.bucket := maxNodes, hashSize, bucket;
      nodes := new Node[maxNodes](_ => Node(ORIGIN, 0, 0, 0, 0, false, false, 0));
      first := new nat[hashSize](_ => NULL_IDX);
      next := new nat[maxNodes](_ => NULL_IDX);
      count := 0;
    }

    method Clear()
      requires Shape()
      modifies this`count, first
      ensures Valid() && Used() == []
    {
      for b := 0 to hashSize
        invariant forall k :: 0 <= k < b ==> first[k] == NULL_IDX
      {
        first[b] := NULL_IDX;
      }
      count := 0;
    }

    /** The index of the node with this key, or NULL_IDX. */
    method FindNode(id: PolyRef, state: nat) returns (i: nat)
      requires Valid()
      ensures i != NULL_IDX ==> i < count && IsKey(nodes[i], id, state)
      ensures i == NULL_IDX ==> forall k :: 0 <= k < count ==> !IsKey(nodes[k], id, state)
    {
      var b := bucket(id);
      i := first[b];
      ghost var bound: nat := count;
      assert Youngest(b, first[b], count);
      while i != NULL_IDX
        invariant bound <= count && Youngest(b, i, bound)
        invariant forall k :: bound <= k < count ==> !IsKey(nodes[k], id, state)
        decreases bound
      {
        if nodes[i].id == id && nodes[i].state == state {
          return;
        }
        assert Youngest(bucket(nodes[i].id), next[i], i);
        bound := i;
        i := next[i];
      }
    }

    /** The node with this key, allocated if there is none; NULL_IDX when the arena is full. */
    method GetNode(id: PolyRef, state: nat) returns (i: nat)
      requires Valid()
      modifies this`count, nodes, first, next
      ensures Valid()
      ensures i == NULL_IDX ==> Used() == old(Used()) && count == maxNodes
                                && forall k :: 0 <= k < count ==> !IsKey(nodes[k], id, state)
      ensures i != NULL_IDX ==>
        if i < old(count) then Used() == old(Used()) && IsKey(nodes[i], id, state)
        else i == old(count) < maxNodes && count == i + 1
             && Used()[..i] == old(Used()) && IsNew(nodes[i], id, state)
             && forall k :: 0 <= k < i ==> !IsKey(nodes[k], id, state)
    {
      i := FindNode(id, state);
      if i == NULL_IDX && count < maxNodes {
        i := NewNode(id, state);
      }
    }

    /** Takes the next free node for a key that has none, and makes it the first of its bucket. */
    method NewNode(id: PolyRef, state: nat) returns (i: nat)
      requires Valid() && count < maxNodes && forall k :: 0 <= k < count ==> !IsKey(nodes[k], id, state)
      modifies this`count, nodes, first, next
      ensures Valid() && i == old(count) < maxNodes && count == i + 1
      ensures Used()[..i] == old(Used()) && IsNew(nodes[i], id, state)
    {
      var b := bucket(id);
      i := count;
      nodes[i] := Node(nodes[i].pos, 0, 0, 0, state, false, false, id);
      next[i] := first[b];
      first[b] := i;
      count := count + 1;
      ghost var was := old(Used());
      assert Used()[..i] == was;
      forall k | 0 <= k < count
        ensures Youngest(bucket(nodes[k].id), next[k], k)
      {
        assert k < i ==> old(Youngest(bucket(nodes[k].id), next[k], k));
        assert old(Youngest(b, first[b], count));
      }
      forall c | 0 <= c < hashSize
        ensures Youngest(c, first[c], count)
      {
        assert old(Youngest(c, first[c], count));
      }
      forall x, y | 0 <= x < y < count
        ensures !IsKey(Used()[y], Used()[x].id, Used()[x].state)
      {
        assert y < i ==> !IsKey(was[y], was[x].id, was[x].state);
        assert y == i ==> !IsKey(old(nodes[x]), id, state) && Used()[x] == old(nodes[x]);
      }
    }

    /** Overwrites a node in place, keeping its key. */
    method SetNode(v: nat, n: Node)
      requires Valid() && v < count && IsKey(n, nodes[v].id, nodes[v].state)
      modifies nodes
      ensures Valid() && Used() == old(Used())[v := n] && nodes[..] == old(nodes[..])[v := n]
    {
      ghost var was := Used();
      nodes[v] := n;
      assert Used() == was[v := n];
      forall k | 0 <= k < count
        ensures Youngest(bucket(nodes[k].id), next[k], k)
      {
        assert old(Youngest(bucket(nodes[k].id), next[k], k));
      }
      forall b | 0 <= b < hashSize
        ensures Youngest(b, first[b], count)
      {
        assert old(Youngest(b, first[b], count));
      }
      forall x, y | 0 <= x < y < count
        ensures !IsKey(Used()[y], Used()[x].id, Used()[x].state)
      {
        assert !IsKey(was[y], was[x].id, was[x].state);
      }
    }
  }
}
