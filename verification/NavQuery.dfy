/** A* over the polygon graph: the search loop and the path it stores. */
module NavQuery {
  import opened SearchNode
  import opened NodeQueue
  import opened NodePool
  import opened PathGraph
  import opened SearchState
  import opened CheapestPath

  datatype Status = InvalidParam | Success(partial: bool, bufferTooSmall: bool, outOfNodes: bool)

  class NavMeshQuery {
    const world: World
    const pool: Pool
    const queue: Queue

    constructor (world: World, maxNodes: nat, hashSize: nat, bucket: PolyRef -> nat)
      requires 0 < maxNodes <= NULL_IDX && forall id :: bucket(id) < hashSize
      ensures Valid() && this.world == world
      ensures fresh(pool) && fresh(queue) && fresh(pool.nodes) && fresh(pool.first) && fresh(pool.next)
      ensures fresh(queue.heap)
    {
      this.world := world;
      pool := new Pool(maxNodes, hashSize, bucket);
      queue := new Queue(maxNodes);
    }

    ghost predicate Valid()
      reads pool, queue, pool.nodes, pool.first, pool.next, queue.heap
    {
      && pool.Valid() && queue.Valid() && queue.capacity == pool.maxNodes
      && queue.heap != pool.first && queue.heap != pool.next
    }

    /** The search is at node `b`, or between nodes when `b` is -1. */
    ghost predicate Searching(q: Query, b: int, outOfNodes: bool)
      reads pool, queue, pool.nodes, pool.first, pool.next, queue.heap
    {
      && Valid()
      && InSync(queue.Contents(), pool.nodes[..], pool.Used())
      && SearchOk(world, q, pool.Used(), b, outOfNodes)
    }

    /** Lowers node `v` and puts it back in order in the open list, or opens it. */
    method Reopen(v: nat, n: Node)
      requires Valid() && v < pool.count && IsKey(n, pool.nodes[v].id, pool.nodes[v].state) && n.open
      requires InSync(queue.Contents(), pool.nodes[..], pool.Used())
      requires pool.nodes[v].open ==> n.total <= pool.nodes[v].total
      modifies pool.nodes, queue, queue.heap
      ensures Valid() && pool.Used() == old(pool.Used())[v := n]
      ensures InSync(queue.Contents(), pool.nodes[..], pool.Used())
    {
      ghost var was, used, h := pool.nodes[..], pool.Used(), queue.Contents();
      var open := pool.nodes[v].open;
      assert was[v] == used[v] == pool.nodes[v];
      pool.SetNode(v, n);
      ReopenedSync(h, was, used, v, n);
      if open {
        queue.Modify(pool.nodes, v, was);
      } else {
        queue.Push(pool.nodes, v);
      }
    }

    /** Fetches the node of a neighbour; a fresh one leaves the open list as it was. */
    method NeighbourNode(ref: PolyRef, state: nat) returns (v: nat)
      requires Valid() && InSync(queue.Contents(), pool.nodes[..], pool.Used())
      modifies pool, pool.nodes, pool.first, pool.next
      ensures Valid() && queue.Contents() == old(queue.Contents())
      ensures InSync(queue.Contents(), pool.nodes[..], pool.Used())
      ensures v == NULL_IDX ==> pool.Used() == old(pool.Used())
      ensures v != NULL_IDX ==> v < pool.count && Fetched(old(pool.Used()), pool.Used(), v, ref, state)
    {
      ghost var was, used := pool.nodes[..], pool.Used();
      v := pool.GetNode(ref, state);
      AllocatedSync(queue.Contents(), was, used, pool.nodes[..], pool.Used());
      if v != NULL_IDX {
        assert pool.Used()[v] == pool.nodes[v];
      }
    }

    /** Visits the neighbour at the end of a link out of the closed node `b`. */
    method VisitNeighbour(q: Query, b: nat, parentRef: PolyRef, l: Link, last: nat, least: nat, outOfNodes: bool)
      returns (last': nat, least': nat, outOfNodes': bool)
      requires Searching(q, b, outOfNodes) && Nearest(world, q, pool.Used(), last, least)
      requires b < pool.count && pool.Used()[b].closed && l in world.links(pool.Used()[b].id)
      requires l.ref != 0 && world.passes(l.ref) && parentRef == ParentRef(pool.Used(), b)
      modifies pool, pool.nodes, pool.first, pool.next, queue, queue.heap
      ensures Searching(q, b, outOfNodes') && Nearest(world, q, pool.Used(), last', least')
      ensures Followed(old(pool.Used()), pool.Used(), b, l.ref, outOfNodes, outOfNodes')
      ensures outOfNodes' || (b < |pool.Used()| && Settled(world, q, pool.Used(), b, l)
                              && Lowered(old(pool.Used()), pool.Used(), b))
      ensures Onward(old(pool.Used()), pool.Used(), old(queue.size), queue.size)
    {
      hide SearchOk, Nearest, Settled, Lowered, Candidate, Visited, InSync, Descended;
      last', least', outOfNodes' := last, least, outOfNodes;
      ghost var ns := pool.Used();
      SearchTree(world, q, ns, b, outOfNodes);
      var best := pool.nodes[b];
      var v := NeighbourNode(l.ref, CrossSide(l));
      if v == NULL_IDX {
        outOfNodes' := true;
        return;
      }
      var n := pool.nodes[v];
      ghost var ns1 := pool.Used();
      assert best == ns[b] && n == ns1[v];
      var candidate := Candidate(world, q, b, best, parentRef, n);
      if (n.open || n.closed) && candidate.total >= n.total {
        SkipOk(world, q, ns, b, l, v, outOfNodes);
        return;
      }
      FreshOrFlagged(world, q, ns, ns1, v, l.ref, CrossSide(l));
      CandidateOk(world, q, ns, ns1, b, parentRef, l, v, last, least, outOfNodes);
      Reopen(v, candidate);
      var heuristic := candidate.total - candidate.cost;
      if heuristic < least {
        last', least' := v, heuristic;
      }
    }

    /** Follows one link out of the closed node `b`, unless it is void, filtered out or leads straight back. */
    method FollowLink(q: Query, b: nat, parentRef: PolyRef, l: Link, last: nat, least: nat, outOfNodes: bool)
      returns (last': nat, least': nat, outOfNodes': bool)
      requires Searching(q, b, outOfNodes) && Nearest(world, q, pool.Used(), last, least)
      requires b < pool.count && pool.Used()[b].closed && l in world.links(pool.Used()[b].id)
      requires (parentRef == 0 || Visited(pool.Used(), parentRef)) && parentRef == ParentRef(pool.Used(), b)
      modifies pool, pool.nodes, pool.first, pool.next, queue, queue.heap
      ensures Searching(q, b, outOfNodes') && Nearest(world, q, pool.Used(), last', least')
      ensures outOfNodes' || (b < |pool.Used()| && Settled(world, q, pool.Used(), b, l)
                              && Lowered(old(pool.Used()), pool.Used(), b))
      ensures l.ref == 0 || !world.passes(l.ref)
              || Followed(old(pool.Used()), pool.Used(), b, l.ref, outOfNodes, outOfNodes')
      ensures Followed(old(pool.Used()), pool.Used(), b, 0, outOfNodes, outOfNodes')
      ensures Onward(old(pool.Used()), pool.Used(), old(queue.size), queue.size)
    {
      if l.ref == 0 || l.ref == parentRef || !world.passes(l.ref) {
        last', least', outOfNodes' := last, least, outOfNodes;
        LoweredSelf(world, q, pool.Used(), b);
      } else {
        last', least', outOfNodes' := VisitNeighbour(q, b, parentRef, l, last, least, outOfNodes);
      }
    }

    /** Follows link `i` of the closed node `b`; the links before it were followed since `ns`. */
    method NextLink(q: Query, b: nat, parentRef: PolyRef, i: nat, last: nat, least: nat, outOfNodes: bool,
                    ghost ns: seq<Node>, ghost size: nat)
      returns (last': nat, least': nat, outOfNodes': bool)
      requires Searching(q, b, outOfNodes) && Nearest(world, q, pool.Used(), last, least)
      requires b < |ns| <= |pool.Used()| && pool.Used()[b] == ns[b] && ns[b].closed && ns[b].pidx <= |ns|
      requires i < |world.links(ns[b].id)|
      requires Expanding(world, q, pool.Used(), b, i, parentRef, outOfNodes)
      requires Onward(ns, pool.Used(), size, queue.size)
      modifies pool, pool.nodes, pool.first, pool.next, queue, queue.heap
      ensures Searching(q, b, outOfNodes') && Nearest(world, q, pool.Used(), last', least')
      ensures |ns| <= |pool.Used()| && pool.Used()[b] == ns[b]
      ensures Expanding(world, q, pool.Used(), b, i + 1, parentRef, outOfNodes')
      ensures Onward(ns, pool.Used(), size, queue.size)
    {
      hide SearchOk, Nearest, Expanding, Settled, Lowered, Visited, Onward, InSync;
      ghost var before, size' := pool.Used(), queue.size;
      ExpandingMeans(world, q, before, b, i, parentRef, outOfNodes);
      var l := world.links(pool.nodes[b].id)[i];
      assert pool.nodes[b] == before[b];
      last', least', outOfNodes' := FollowLink(q, b, parentRef, l, last, least, outOfNodes);
      ExpandingStep(world, q, before, pool.Used(), b, i, parentRef, outOfNodes, outOfNodes');
      OnwardStep(ns, before, pool.Used(), size, size', queue.size);
    }

    /** Follows every link of the closed node `b`. */
    method ExpandNode(q: Query, b: nat, last: nat, least: nat, outOfNodes: bool)
      returns (last': nat, least': nat, outOfNodes': bool)
      requires Searching(q, b, outOfNodes) && Nearest(world, q, pool.Used(), last, least)
      requires b < pool.count && pool.Used()[b].closed
      modifies pool, pool.nodes, pool.first, pool.next, queue, queue.heap
      ensures Searching(q, -1, outOfNodes') && Nearest(world, q, pool.Used(), last', least')
      ensures Onward(old(pool.Used()), pool.Used(), old(queue.size), queue.size)
    {
      hide SearchOk, Nearest, Expanding, Settled, Lowered, Visited, Onward;
      last', least', outOfNodes' := last, least, outOfNodes;
      ghost var ns, size := pool.Used(), queue.size;
      NothingYet(ns, size);
      var bestRef, parentRef := pool.nodes[b].id, 0;
      assert pool.nodes[b] == ns[b];
      SearchTree(world, q, ns, b, outOfNodes);
      ExpandingStart(world, q, ns, b, outOfNodes);
      if pool.nodes[b].pidx != 0 {
        parentRef := pool.nodes[pool.nodes[b].pidx - 1].id;
        assert parentRef == ns[ns[b].pidx - 1].id;
      }
      var links := world.links(bestRef);
      var i := 0;
      while i < |links|
        invariant 0 <= i <= |links|
        invariant Searching(q, b, outOfNodes') && Nearest(world, q, pool.Used(), last', least')
        invariant |ns| <= |pool.Used()| && pool.Used()[b] == ns[b]
        invariant Expanding(world, q, pool.Used(), b, i, parentRef, outOfNodes')
        invariant Onward(ns, pool.Used(), size, queue.size)
      {
        last', least', outOfNodes' := NextLink(q, b, parentRef, i, last', least', outOfNodes', ns, size);
        i := i + 1;
      }
      AllExpanded(world, q, pool.Used(), b, parentRef, outOfNodes');
    }

    /** Pops a node of least total and flips its flags. */
    method TakeBest() returns (b: nat)
      requires Valid() && InSync(queue.Contents(), pool.nodes[..], pool.Used()) && queue.size > 0
      modifies pool.nodes, queue, queue.heap
      ensures Valid() && b < |old(pool.Used())| && old(pool.Used())[b].open
      ensures pool.Used() == old(pool.Used())[b := old(pool.Used())[b].(open := false, closed := true)]
      ensures InSync(queue.Contents(), pool.nodes[..], pool.Used()) && queue.size == old(queue.size) - 1
      ensures LeastTotal(old(pool.Used()), b)
    {
      ghost var ns, all, h := pool.Used(), pool.nodes[..], queue.Contents();
      b := queue.Pop(pool.nodes);
      PoppedLeast(h, all, ns, b);
      CloseSync(h, queue.Contents(), all, ns, b);
      assert pool.nodes[b] == ns[b];
      pool.SetNode(b, pool.nodes[b].(open := false, closed := true));
    }

    /** Takes an open node of least total off the open list and closes it; false when it is the goal. */
    method CloseBest(q: Query, last: nat, least: nat, outOfNodes: bool) returns (b: nat, goal: bool)
      requires Searching(q, -1, outOfNodes) && Nearest(world, q, pool.Used(), last, least) && queue.size > 0
      modifies pool.nodes, queue, queue.heap
      ensures Valid() && b < |old(pool.Used())|
      ensures pool.Used() == old(pool.Used())[b := old(pool.Used())[b].(open := false, closed := true)]
      ensures (goal <==> old(pool.Used())[b].id == q.end) && LeastTotal(old(pool.Used()), b)
      ensures !goal ==> Searching(q, b, outOfNodes) && Nearest(world, q, pool.Used(), last, least)
      ensures queue.size == old(queue.size) - 1 && SumTotals(pool.Used()) == SumTotals(old(pool.Used()))
    {
      hide SearchOk, Nearest, InSync, SumTotals, LeastTotal;
      ghost var ns := pool.Used();
      b := TakeBest();
      CloseTotals(ns, b);
      assert pool.nodes[b] == pool.Used()[b];
      goal := pool.nodes[b].id == q.end;
      if !goal {
        CloseNode(world, q, ns, b, outOfNodes);
        CloseNearest(world, q, ns, b, last, least);
      }
    }

    /** Expands best nodes until the goal is closed or nothing is open. */
    method Search(q: Query, least0: nat) returns (last: nat, outOfNodes: bool, ghost tree: seq<Node>)
      requires Searching(q, -1, false) && Nearest(world, q, pool.Used(), 0, least0)
      modifies pool, pool.nodes, pool.first, pool.next, queue, queue.heap
      ensures Valid() && SameTree(pool.Used(), tree)
      ensures SearchResult(world, q, tree, last, outOfNodes)
      ensures (outOfNodes || NoShortcut(world, q, pool.Used())) && Standing(world, q, pool.Used())
      ensures outOfNodes || tree[last].id != q.end || GoalPopped(world, q, tree, last)
    {
      hide SearchOk, Nearest, SearchResult, NoShortcut, SameTree, GoalPopped, Standing;
      last, outOfNodes := 0, false;
      var least := least0;
      while queue.size > 0
        invariant Searching(q, -1, outOfNodes) && Nearest(world, q, pool.Used(), last, least)
        decreases pool.maxNodes - pool.count, SumTotals(pool.Used()), queue.size
      {
        tree := pool.Used();
        var best, goal := CloseBest(q, last, least, outOfNodes);
        if goal {
          GoalFound(world, q, tree, best, outOfNodes);
          PoppedGoal(world, q, tree, best, outOfNodes);
          return best, outOfNodes, tree;
        }
        last, least, outOfNodes := ExpandNode(q, best, last, least, outOfNodes);
      }
      tree := pool.Used();
      assert OpenSet(tree) == {} by {
        InSyncDistinct(queue.Contents(), OpenSet(tree));
      }
      NothingOpen(world, q, tree, last, least, outOfNodes);
      NotTheGoal(world, q, tree, last, outOfNodes);
    }

    /** Stores the polygons from the start to node `end`, or the first `maxPath` of them. */
    method GetPathToNode(end: nat, path: array<PolyRef>, maxPath: nat, ghost c: seq<nat>)
      returns (pathCount: nat, bufferTooSmall: bool)
      requires pool.count <= pool.nodes.Length && end < |pool.Used()| && path as object != pool.nodes
      requires IsChain(pool.Used(), c, end) && pool.Used()[0].pidx == 0
      requires 0 < maxPath <= path.Length
      modifies path
      ensures pathCount == if |c| <= maxPath then |c| else maxPath
      ensures bufferTooSmall <==> |c| > maxPath
      ensures forall k :: 0 <= k < pathCount ==> path[k] == pool.Used()[c[k]].id
    {
      ghost var ns := pool.Used();
      // a cursor is one more than a node index, or zero past the start node
      var cur, length := end + 1, 0;
      while cur != 0
        invariant 0 <= length <= |c|
        invariant cur == if length == |c| then 0 else c[|c| - 1 - length] + 1
        decreases |c| - length
      {
        assert ns[cur - 1] == pool.nodes[cur - 1];
        cur, length := pool.nodes[cur - 1].pidx, length + 1;
      }
      cur := end + 1;
      var writeCount := length;
      while writeCount > maxPath
        invariant 0 < writeCount <= |c| && (writeCount == |c| || writeCount >= maxPath)
        invariant cur == c[writeCount - 1] + 1
      {
        assert ns[cur - 1] == pool.nodes[cur - 1];
        cur, writeCount := pool.nodes[cur - 1].pidx, writeCount - 1;
      }
      var i := writeCount - 1;
      while i >= 0
        invariant -1 <= i < writeCount
        invariant cur == if i < 0 then 0 else c[i] + 1
        invariant forall k :: i < k < writeCount ==> path[k] == ns[c[k]].id
      {
        assert ns[cur - 1] == pool.nodes[cur - 1];
        path[i] := pool.nodes[cur - 1].id;
        cur, i := pool.nodes[cur - 1].pidx, i - 1;
      }
      pathCount := if length < maxPath then length else maxPath;
      bufferTooSmall := length > maxPath;
    }

    /** Resets the pool and the open list to hold just the start node. */
    method StartAt(q: Query) returns (least: nat)
      requires Valid() && q.start != q.end
      modifies pool, pool.nodes, pool.first, pool.next, queue, queue.heap
      ensures Searching(q, -1, false) && Nearest(world, q, pool.Used(), 0, least)
    {
      pool.Clear();
      queue.Clear();
      var v := pool.GetNode(q.start, 0);
      least := world.heuristic(q.startPos, q.endPos);
      var n := Node(q.startPos, 0, least, 0, 0, true, false, q.start);
      pool.SetNode(v, n);
      StartSearch(world, q, n);
      assert pool.Used() == [n];
      queue.Push(pool.nodes, v);
    }

    /**
     A path from `start` towards `end`: complete if the goal can be reached, otherwise to the
     visited polygon nearest to it; cut short when the buffer is.
     */
    method FindPath(q: Query, path: array<PolyRef>, maxPath: int) returns (status: Status, pathCount: nat)
      requires Valid() && path != pool.first && path != pool.next && path != queue.heap
      requires maxPath <= path.Length
      modifies pool, pool.nodes, pool.first, pool.next, queue, queue.heap, path
      ensures Valid()
      ensures status.InvalidParam? <==> !world.valid(q.start) || !world.valid(q.end) || maxPath <= 0
      ensures status.InvalidParam? ==> pathCount == 0
      ensures status.Success? ==>
        exists r :: StoredPath(world, q, pool.Used(), r, status) && Holds(path, pathCount, maxPath, r, status)
      ensures status.Success? && q.start != q.end ==> Standing(world, q, pool.Used())
      ensures status.Success? && q.start != q.end && !status.outOfNodes ==> NoShortcut(world, q, pool.Used())
    {
      hide Standing, Cheapest, NoShortcut, GoalPopped, AllReached, TreeOk, SearchResult, SameTree;
      pathCount := 0;
      if !world.valid(q.start) || !world.valid(q.end) || maxPath <= 0 {
        return InvalidParam, 0;
      }
      ghost var r: seq<PolyRef>;
      if q.start == q.end {
        path[0] := q.start;
        pathCount := 1;
        status := Success(false, false, false);
        r := [q.start];
        assert IsWalkBetween(world, r, q.start, q.end);
        AtGoal(world, q, r);
        assert path[..1] == r[..1];
        assert StoredPath(world, q, pool.Used(), r, status);
        assert Holds(path, pathCount, maxPath, r, status);
        return;
      }
      var least := StartAt(q);
      var last, outOfNodes;
      ghost var tree;
      last, outOfNodes, tree := Search(q, least);
      status, pathCount, r := StorePath(q, path, maxPath, last, outOfNodes, tree);
    }

    /** The buffer holds the walk `r`, or as much of its start as fits. */
    ghost predicate Holds(path: array<PolyRef>, pathCount: nat, maxPath: nat, r: seq<PolyRef>, status: Status)
      reads path
    {
      && status.Success? && pathCount <= path.Length && pathCount == (if |r| <= maxPath then |r| else maxPath)
      && path[..pathCount] == r[..pathCount] && (status.bufferTooSmall <==> |r| > maxPath)
    }

    /** Stores the path to the node the search ended with. */
    method StorePath(q: Query, path: array<PolyRef>, maxPath: nat, last: nat, outOfNodes: bool, ghost tree: seq<Node>)
      returns (status: Status, pathCount: nat, ghost r: seq<PolyRef>)
      requires Valid() && path as object != pool.nodes && path != pool.first && path != pool.next && path != queue.heap
      requires 0 < maxPath <= path.Length && SameTree(pool.Used(), tree)
               && SearchResult(world, q, tree, last, outOfNodes)
      requires outOfNodes || tree[last].id != q.end || GoalPopped(world, q, tree, last)
      modifies path
      ensures Valid() && pool.Used() == old(pool.Used()) && status.Success? && status.outOfNodes == outOfNodes
      ensures StoredPath(world, q, pool.Used(), r, status) && Holds(path, pathCount, maxPath, r, status)
    {
      hide Cheapest, NoShortcut, GoalPopped, AllReached, TreeOk, IsChain;
      assert pool.nodes[last] == pool.Used()[last];
      status := Success(pool.nodes[last].id != q.end, false, outOfNodes);
      ghost var c;
      c, r := WalkTo(world, q, tree, pool.Used(), last, status);
      var bufferTooSmall;
      pathCount, bufferTooSmall := GetPathToNode(last, path, maxPath, c);
      status := status.(bufferTooSmall := bufferTooSmall);
      assert path[..pathCount] == r[..pathCount];
    }
  }

  /**
   What a successful result means. `ns` holds the visited nodes: unless nodes ran out, the path is
   partial exactly when the goal cannot be reached, and then ends at the polygon of a node nearest
   to the goal among the nodes of all polygons that can be reached.
   */
  ghost predicate StoredPath(w: World, q: Query, ns: seq<Node>, r: seq<PolyRef>, status: Status)
    requires status.Success?
  {
    && IsWalk(w, r) && r[0] == q.start
    && (!status.partial <==> r[|r| - 1] == q.end)
    && (status.partial ==> exists last: nat :: IsNearest(w, q, ns, last) && ns[last].id == r[|r| - 1])
    && (!status.outOfNodes ==> (!status.partial <==> Reachable(w, q.start, q.end)))
    && (status.partial && !status.outOfNodes ==> AllReached(w, q, ns))
    && (!status.partial && !status.outOfNodes ==> Cheapest(w, q, r))
  }

  lemma NothingYet(ns: seq<Node>, size: nat)
    ensures Onward(ns, ns, size, size)
  {
  }

  /** The goal is the open node of least total, and nothing but its links remains to be followed. */
  ghost predicate GoalPopped(w: World, q: Query, tree: seq<Node>, b: nat) {
    && TreeOk(w, q, tree) && ClosedRelaxed(w, q, tree, -1) && LeastTotal(tree, b) && tree[b].id == q.end
    && Standing(w, q, tree) && UniqueKeys(tree)
  }

  lemma PoppedGoal(w: World, q: Query, tree: seq<Node>, b: nat, outOfNodes: bool)
    requires SearchOk(w, q, tree, -1, outOfNodes) && LeastTotal(tree, b) && tree[b].id == q.end && UniqueKeys(tree)
    ensures outOfNodes || GoalPopped(w, q, tree, b)
  {
  }

  lemma NotTheGoal(w: World, q: Query, tree: seq<Node>, last: nat, outOfNodes: bool)
    requires SearchOk(w, q, tree, -1, outOfNodes) && OpenSet(tree) == {} && last < |tree|
    ensures tree[last].id != q.end
  {
    assert NodeOk(w, q, tree, last);
    assert last !in OpenSet(tree);
  }

  /** An entry of least total in the open list is an open node of least total. */
  lemma PoppedLeast(h: seq<nat>, all: seq<Node>, ns: seq<Node>, b: nat)
    requires multiset(h) == multiset(OpenSet(ns)) && ns <= all && b in h && b < |all|
    requires forall k :: 0 <= k < |h| ==> h[k] < |all| && all[b].total <= all[h[k]].total
    ensures LeastTotal(ns, b)
  {
    InSyncDistinct(h, OpenSet(ns));
    forall k | 0 <= k < |ns| && ns[k].open
      ensures ns[b].total <= ns[k].total
    {
      assert k in OpenSet(ns);
      assert k in h;
    }
  }

  lemma WalkTo(w: World, q: Query, tree: seq<Node>, ns: seq<Node>, last: nat, status: Status)
    returns (c: seq<nat>, r: seq<PolyRef>)
    requires status.Success? && SearchResult(w, q, tree, last, status.outOfNodes)
    requires SameTree(ns, tree) && status.partial == (ns[last].id != q.end)
    requires status.outOfNodes || tree[last].id != q.end || GoalPopped(w, q, tree, last)
    ensures IsChain(ns, c, last) && ns[0].pidx == 0
    ensures |r| == |c| && forall k :: 0 <= k < |c| ==> r[k] == ns[c[k]].id
    ensures StoredPath(w, q, ns, r, status)
  {
    assert HasChain(tree, last);
    c :| IsChain(tree, c, last);
    r := ChainIsWalk(w, q, tree, c, last);
    assert IsChain(ns, c, last);
    if status.partial {
      assert IsNearest(w, q, ns, last);
      if !status.outOfNodes {
        SameVisited(w, q, tree, ns);
      }
    } else {
      assert IsWalkBetween(w, r, q.start, q.end);
      if !status.outOfNodes {
        FoundCheapest(w, q, tree, last, c, r);
      }
    }
  }

  /** Standing still costs nothing. */
  lemma AtGoal(w: World, q: Query, r: seq<PolyRef>)
    requires |r| == 1
    ensures Cheapest(w, q, r)
  {
  }

  lemma SameVisited(w: World, q: Query, tree: seq<Node>, ns: seq<Node>)
    requires AllReached(w, q, tree) && !Visited(tree, q.end) && SameTree(ns, tree)
    ensures AllReached(w, q, ns) && !Reachable(w, q.start, q.end)
  {
    forall ref
      ensures Visited(tree, ref) <==> Visited(ns, ref)
    {
      if Visited(tree, ref) {
        var i :| 0 <= i < |tree| && tree[i].id == ref;
        assert ns[i].id == ref;
      }
    }
  }
}
