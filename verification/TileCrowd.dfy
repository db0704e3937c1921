/** A run in which a cell holds 33 tiles: removing a tile beside it leaves a link that dangles. */
module TileCrowd {
  import opened Chains
  import opened Collections
  import opened NavMesh
  import opened PolyRef
  import opened TileLinks
  import opened TileMesh
  import opened TileSeams
  import opened TileSewing
  import opened TileStore

  const SLOTS := 34

  /** One tile in cell (0, 0), facing the layers of cell (1, 0): each is one polygon with one border edge. */
  function Data(i: nat): Header {
    Header(NAVMESH_MAGIC, NAVMESH_VERSION, if i == 0 then 0 else 1, 0, i,
           [PolyDef(false, [EXT_LINK + if i == 0 then 0 else 4])], 2, [], 0)
  }

  function Slot(i: nat, n: nat): Tile { Tile(1, if i < n then Some(Data(i)) else None) }

  function Slots(n: nat): seq<Tile> { seq(SLOTS, i requires 0 <= i < SLOTS => Slot(i, n)) }

  function HashOf(i: nat, lutSize: nat): nat
    requires lutSize > 0
  {
    TileHash(Data(i).x, Data(i).y, lutSize)
  }

  /** Those of the first `n` tiles whose cells hash to bucket `b`. */
  function Bucket(b: nat, lutSize: nat, n: nat): (c: seq<nat>)
    requires lutSize > 0
    ensures forall k :: 0 <= k < |c| ==> c[k] < n
    ensures forall i, j :: 0 <= i < j < |c| ==> c[i] < c[j]
  {
    if n == 0 then [] else Bucket(b, lutSize, n - 1) + if HashOf(n - 1, lutSize) == b then [n - 1] else []
  }

  function Down(n: nat): (c: seq<nat>)
    requires n <= SLOTS
  {
    seq(SLOTS - n, k requires 0 <= k < SLOTS - n => SLOTS - 1 - k)
  }

  function Filing(lutSize: nat, n: nat): (c: seq<seq<nat>>)
    requires lutSize > 0 && n <= SLOTS
    ensures |c| == lutSize + 1
  {
    seq(lutSize, b requires 0 <= b < lutSize => Bucket(b, lutSize, n)) + [Down(n)]
  }

  function Adds(n: nat): seq<MeshOp> { seq(n, i requires 0 <= i < n => Add(Data(i), 0)) }

  /** Any number of buckets; the tile and the layers touch where they face each other. */
  ghost predicate AllTouch(r: Rules) {
    && r.lutSize > 0 && r.w.salt >= 1 && Pow2(r.w.tile) >= SLOTS
    && Touching(r.touches)
  }

  ghost predicate Touching(touches: Touches) {
    forall i: nat, j: nat :: i < SLOTS && j < SLOTS ==> touches(Data(i), 0, 0, Data(j), 0, 0)
  }

  /** After `n` additions: the tiles, the bucket and the free list, and from two on a link from slot 1 to slot 0. */
  ghost predicate Built(r: Rules, s: Mesh, n: nat) {
    && r.lutSize > 0 && n <= SLOTS && s.ts == Slots(n) && s.chains == Filing(r.lutSize, n) && AllListed(s.ts, s.links)
    && (n >= 2 ==> PointsAt(r.w, s.links[1], 0))
  }

  lemma {:induction false} AddsBuild(r: Rules, n: nat)
    requires AllTouch(r) && n <= SLOTS
    ensures Filed(r, EmptyMesh(r.lutSize, SLOTS)) && Built(r, DoAll(r, EmptyMesh(r.lutSize, SLOTS), Adds(n)), n)
  {
    hide Do, PointsAt, Pow2;
    var s := EmptyMesh(r.lutSize, SLOTS);
    if n == 0 {
      EmptyFiled(r);
    } else {
      AddsBuild(r, n - 1);
      assert Adds(n)[..n - 1] == Adds(n - 1) && Adds(n)[n - 1] == Add(Data(n - 1), 0);
      OneMore(r, DoAll(r, s, Adds(n - 1)), n - 1);
    }
  }

  lemma EmptyFiled(r: Rules)
    requires r.lutSize > 0
    ensures Filed(r, EmptyMesh(r.lutSize, SLOTS))
    ensures EmptyMesh(r.lutSize, SLOTS).ts == Slots(0) && EmptyMesh(r.lutSize, SLOTS).chains == Filing(r.lutSize, 0)
  {
    var s := EmptyMesh(r.lutSize, SLOTS);
    assert forall b :: 0 <= b < r.lutSize ==> s.chains[b] == Filing(r.lutSize, 0)[b];
    assert s.chains[r.lutSize] == Down(0);
    forall i: nat
      ensures i in s.chains[r.lutSize] <==> i < SLOTS
    {
      if i < SLOTS {
        assert s.chains[r.lutSize][SLOTS - 1 - i] == i;
      }
    }
  }

  lemma OneMore(r: Rules, s: Mesh, n: nat)
    requires AllTouch(r) && Filed(r, s) && n < SLOTS && Built(r, s, n)
    ensures Built(r, Do(r, s, Add(Data(n), 0)), n + 1)
  {
    hide Minus, AroundLinked, PointsAt, Pow2, AllListed;
    Accepted(r, s, n);
    var t := Do(r, s, Add(Data(n), 0));
    assert t == Added(r, s, n, Data(n), 1);
    assert t.ts == Slots(n + 1);
    NextChains(r.lutSize, n);
    StaysListed(r, s, n);
    if n == 1 {
      FirstLink(r, s);
    }
  }

  /** The addition succeeds and takes slot `n`. */
  lemma Accepted(r: Rules, s: Mesh, n: nat)
    requires Filed(r, s) && n < SLOTS && Built(r, s, n)
    ensures Target(r, s, Add(Data(n), 0)) == Some(n)
  {
    hide PointsAt;
    assert !Live(s.ts, n) && Down(n)[SLOTS - 1 - n] == n;
    assert !exists t :: At(s.ts, t, Data(n).x, Data(n).y, n);
  }

  lemma NextChains(lutSize: nat, n: nat)
    requires lutSize > 0 && n < SLOTS
    ensures Filled(Filing(lutSize, n), lutSize, n, Data(n)) == Filing(lutSize, n + 1)
  {
    hide Minus, TileHash;
    MinusAt(Down(n), SLOTS - 1 - n);
    assert Without(Down(n), SLOTS - 1 - n) == Down(n + 1);
    assert forall b :: 0 <= b < lutSize ==>
      Filled(Filing(lutSize, n), lutSize, n, Data(n))[b] == Bucket(b, lutSize, n + 1);
  }

  /** Additions keep one list per polygon, and slot 1 keeps its link. */
  lemma StaysListed(r: Rules, s: Mesh, n: nat)
    requires Filed(r, s) && n < SLOTS && Built(r, s, n)
    ensures var t := Added(r, s, n, Data(n), 1); AllListed(t.ts, t.links) && (n >= 2 ==> PointsAt(r.w, t.links[1], 0))
  {
    hide Minus, AroundLinked;
    var t := Added(r, s, n, Data(n), 1);
    var inside := SelfLinked(r, t.ts, s.links, n);
    Alone(r, s, n);
    assert AllListed(t.ts, inside);
    AroundGrows(r, t.ts, inside, t.chains, n, 8);
    assert Grows(inside[1], t.links[1]);
    if n >= 2 {
      var p, k :| 0 <= p < |s.links[1].lists| && 0 <= k < |s.links[1].lists[p]|
                  && DecodeTile(r.w, s.links[1].lists[p][k].ref) == 0;
      assert t.links[1].lists[p][k] == inside[1].lists[p][k];
    }
  }

  /** A tile is not linked inside itself. */
  lemma Alone(r: Rules, s: Mesh, n: nat)
    requires n < SLOTS && |s.links| == SLOTS
    ensures SelfLinked(r, Slots(n + 1), s.links, n) == s.links[n := FreshLinks(1, 2)]
  {
    var polys := Data(n).polys;
    assert EdgeLinks(r.w, 1, n, polys[0], 1) == [];
    assert EdgeLinks(r.w, 1, n, polys[0], 0) == [];
    assert IntLinked(r.w, 1, n, polys, FreshLinks(1, 2), 0) == FreshLinks(1, 2);
    assert IntLinked(r.w, 1, n, polys, FreshLinks(1, 2), 1) == FreshLinks(1, 2);
  }

  // ---------- The first two tiles ----------

  /** The second tile is linked to the first. */
  lemma FirstLink(r: Rules, s: Mesh)
    requires AllTouch(r) && Filed(r, s) && Built(r, s, 1)
    ensures PointsAt(r.w, Added(r, s, 1, Data(1), 1).links[1], 0)
  {
    hide Minus, PairLinked, Pow2, PointsAt, SelfLinked, AroundLinked, AllListed, Filled;
    var t := Added(r, s, 1, Data(1), 1);
    assert t.ts == Slots(2);
    NextChains(r.lutSize, 1);
    Alone(r, s, 1);
    var inside := s.links[1 := FreshLinks(1, 2)];
    assert t.links == AroundLinked(r, t.ts, inside, t.chains, 1, 8);
    OnlyNeighbour(r, inside);
    PairLinkPoints(r, inside);
  }

  /** Which tiles are seen when there are two. */
  lemma TwoSeen(lutSize: nat, x: int, y: int)
    requires lutSize > 0
    ensures Seen(Slots(2), Filing(lutSize, 2), lutSize, x, y)
            == if (x, y) == (1, 0) then [1] else if (x, y) == (0, 0) then [0] else []
  {
    hide TileHash, Bucket, AtCell, Slots, Down;
    var ts, b := Slots(2), TileHash(x, y, lutSize);
    assert Filing(lutSize, 2)[b] == Bucket(b, lutSize, 2);
    TwoInBucket(lutSize, x, y);
  }

  lemma TwoInBucket(lutSize: nat, x: int, y: int)
    requires lutSize > 0
    ensures AtCell(Slots(2), Bucket(TileHash(x, y, lutSize), lutSize, 2), x, y)
            == if (x, y) == (1, 0) then [1] else if (x, y) == (0, 0) then [0] else []
  {
    hide TileHash, InCell, Slots, AtCell, Bucket;
    var ts, b := Slots(2), TileHash(x, y, lutSize);
    WhichCell(x, y);
    FirstBuckets(b, lutSize);
    var one := Bucket(b, lutSize, 1);
    EmptyCells(ts, x, y);
    SnocCell(ts, [], 0, x, y);
    SnocCell(ts, one, 1, x, y);
    assert [] + [0] == [0];
  }

  lemma EmptyCells(ts: seq<Tile>, x: int, y: int)
    ensures AtCell(ts, [], x, y) == []
  {
  }

  lemma FirstBuckets(b: nat, lutSize: nat)
    requires lutSize > 0
    ensures Bucket(b, lutSize, 1) == if HashOf(0, lutSize) == b then [0] else []
    ensures Bucket(b, lutSize, 2) == if HashOf(1, lutSize) == b then Bucket(b, lutSize, 1) + [1]
            else Bucket(b, lutSize, 1)
  {
    hide HashOf;
    assert Bucket(b, lutSize, 0) == [];
    assert Bucket(b, lutSize, 1) == Bucket(b, lutSize, 0) + if HashOf(0, lutSize) == b then [0] else [];
  }

  lemma WhichCell(x: int, y: int)
    ensures InCell(Slots(2), 0, x, y) <==> (x, y) == (0, 0)
    ensures InCell(Slots(2), 1, x, y) <==> (x, y) == (1, 0)
  {
  }

  lemma SnocCell(ts: seq<Tile>, c: seq<nat>, i: nat, x: int, y: int)
    ensures AtCell(ts, c + [i], x, y) == (if InCell(ts, i, x, y) then [i] else []) + AtCell(ts, c, x, y)
  {
    assert (c + [i])[..|c|] == c;
  }

  /** A cell in which no tile is seen changes nothing. */
  lemma EmptyCell(r: Rules, ts: seq<Tile>, links: seq<LinkState>, chains: seq<seq<nat>>, it: nat, n: nat)
    requires Live(ts, it) && |links| == |ts| && r.lutSize > 0 && |chains| == r.lutSize + 1 && n < 8
    requires var h := ts[it].header.value;
             Seen(ts, chains, r.lutSize, CellBeside(h.x, h.y, n).0, CellBeside(h.x, h.y, n).1) == []
    ensures AroundLinked(r, ts, links, chains, it, n + 1) == AroundLinked(r, ts, links, chains, it, n)
  {
    hide Seen, CellBeside;
  }

  lemma OneInCell(r: Rules, ts: seq<Tile>, links: seq<LinkState>, it: nat, c: nat, side: int)
    requires Live(ts, it) && |links| == |ts| && -1 <= side < 8 && Live(ts, c)
    ensures CellLinked(r, ts, links, it, [c], side) == if c == it then links else PairLinked(r, ts, links, it, c, side)
  {
    hide PairLinked;
    assert [c][..0] == [];
    assert CellLinked(r, ts, links, it, [], side) == links;
  }

  /** Nothing is seen on the other sides. */
  lemma {:induction false} Quiet(r: Rules, links: seq<LinkState>, m: nat, n: nat)
    requires r.lutSize > 0 && |links| == SLOTS && m <= n <= 8 && (n <= 4 || m >= 5)
    ensures var ts, chains := Slots(2), Filing(r.lutSize, 2);
            AroundLinked(r, ts, links, chains, 1, n) == AroundLinked(r, ts, links, chains, 1, m)
  {
    hide Seen, CellLinked;
    if m < n {
      Quiet(r, links, m, n - 1);
      TwoSeen(r.lutSize, CellBeside(1, 0, n - 1).0, CellBeside(1, 0, n - 1).1);
      EmptyCell(r, Slots(2), links, Filing(r.lutSize, 2), 1, n - 1);
    }
  }

  /** Only the pair of the two is linked, across side 4. */
  lemma OnlyNeighbour(r: Rules, links: seq<LinkState>)
    requires r.lutSize > 0 && |links| == SLOTS
    ensures AroundLinked(r, Slots(2), links, Filing(r.lutSize, 2), 1, 8) == PairLinked(r, Slots(2), links, 1, 0, 4)
  {
    hide PairLinked, CellLinked, Seen;
    var ts, chains := Slots(2), Filing(r.lutSize, 2);
    TwoSeen(r.lutSize, 1, 0);
    OneInCell(r, ts, links, 1, 1, -1);
    assert AroundLinked(r, ts, links, chains, 1, 0) == links;
    Quiet(r, links, 0, 4);
    TwoSeen(r.lutSize, 0, 0);
    OneInCell(r, ts, links, 1, 0, 4);
    assert AroundLinked(r, ts, links, chains, 1, 5) == PairLinked(r, ts, links, 1, 0, 4);
    Quiet(r, links, 5, 8);
  }

  /** Slot 1 gets its link to slot 0. */
  lemma PairLinkPoints(r: Rules, links: seq<LinkState>)
    requires AllTouch(r) && |links| == SLOTS && links[1] == FreshLinks(1, 2)
    ensures PointsAt(r.w, PairLinked(r, Slots(2), links, 1, 0, 4)[1], 0)
  {
    hide Pow2, EncodePolyId, DecodeTile;
    var ts := Slots(2);
    var m := SeamOf(r.touches, r.w, ts, 1, 0, 4);
    OneBorderLink(m);
    var link := Link(EncodePolyId(r.w, 1, 0, 0), 0, 4);
    var s := links[1];
    assert PushLists(s, Borders(m), 0) == s && PushAll(s, 0, []) == s;
    assert [link][..0] == [];
    assert PushLists(s, Borders(m), 1) == PushAll(s, 0, [link]) == PushLink(s, 0, link);
    var now := PairLinked(r, ts, links, 1, 0, 4);
    assert now[1] == PushLink(s, 0, link);
    MintedPoints(r.w);
    assert now[1].lists[0][0] == link;
  }

  lemma OneBorderLink(m: Seam)
    requires m.a == Data(1) && m.b == Data(0) && m.salt == 1 && m.it == 0 && m.side == 4
    requires Touching(m.touches)
    ensures Borders(m)[0] == [Link(EncodePolyId(m.w, 1, 0, 0), 0, 4)]
  {
    hide EdgeBorderLinks, EncodePolyId;
    OneEdgeLink(m);
    assert BorderLinks(m, 0, 0) == [];
    assert BorderLinks(m, 0, 1) == EdgeBorderLinks(m, 0, 0);
  }

  lemma OneEdgeLink(m: Seam)
    requires m.a == Data(1) && m.b == Data(0) && m.salt == 1 && m.it == 0 && m.side == 4
    requires Touching(m.touches)
    ensures EdgeBorderLinks(m, 0, 0) == [Link(EncodePolyId(m.w, 1, 0, 0), 0, 4)]
  {
    hide EncodePolyId, Connecting;
    OneCandidate(m);
  }

  lemma OneCandidate(m: Seam)
    requires m.a == Data(1) && m.b == Data(0) && m.side == 4
    requires Touching(m.touches)
    ensures Connecting(m, 0, 0) == [0]
  {
    var code := EXT_LINK + OppositeTile(4);
    assert m.b.polys[0].neis[0] == code && m.touches(m.a, 0, 0, m.b, 0, 0);
    assert EdgeTouches(m, 0, 0, 0, code);
    assert Candidates(m, 0, 0, code, 0) == [];
    assert Candidates(m, 0, 0, code, 1) == [0];
  }

  lemma MintedPoints(w: Bits)
    requires w.salt >= 1
    ensures Mintable(w, 1, 0, 0) && EncodePolyId(w, 1, 0, 0) != 0
    ensures DecodeTile(w, EncodePolyId(w, 1, 0, 0)) == 0 && DecodeSalt(w, EncodePolyId(w, 1, 0, 0)) == 1
  {
    hide EncodePolyId, DecodeTile, DecodeSalt;
    assert Pow2(w.salt) == 2 * Pow2(w.salt - 1);
    DecodeEncode(w, 1, 0, 0);
    NotNull(w, 1, 0, 0);
  }

  // ---------- Removing the first tile ----------

  lemma AllLayers()
    ensures forall i :: 1 <= i < SLOTS ==> InCell(Slots(SLOTS), i, 1, 0)
    ensures Live(Slots(SLOTS), 0) && Slots(SLOTS)[0].header == Some(Data(0))
    ensures forall x, y :: InCell(Slots(SLOTS), 1, x, y) ==> x == 1 && y == 0
  {
  }

  /** The tiles of cell (1, 0) in their bucket: all but the first, latest first. */
  lemma {:induction false} LayersSeen(lutSize: nat, n: nat)
    requires lutSize > 0 && 1 <= n <= SLOTS
    ensures AtCell(Slots(SLOTS), Minus(Bucket(TileHash(1, 0, lutSize), lutSize, n), 0), 1, 0)
            == seq(n - 1, k requires 0 <= k < n - 1 => n - 1 - k)
  {
    hide Minus, Slots, InCell, TileHash;
    AllLayers();
    var b := TileHash(1, 0, lutSize);
    var c := Bucket(b, lutSize, n - 1);
    if n == 1 {
      assert c == [];
      FirstTaken(b, lutSize);
    } else {
      LayersSeen(lutSize, n - 1);
      SnocMinus(c, n - 1);
      SnocCell(Slots(SLOTS), Minus(c, 0), n - 1, 1, 0);
      assert HashOf(n - 1, lutSize) == b;
    }
  }

  lemma FirstTaken(b: nat, lutSize: nat)
    requires lutSize > 0
    ensures Minus(Bucket(b, lutSize, 1), 0) == []
  {
    assert Bucket(b, lutSize, 0) == [];
    assert Bucket(b, lutSize, 1) == [] || Bucket(b, lutSize, 1) == [0];
    assert [0][..0] == [];
  }

  lemma SnocMinus(c: seq<nat>, i: nat)
    requires i != 0
    ensures Minus(c + [i], 0) == Minus(c, 0) + [i]
  {
    assert (c + [i])[..|c|] == c;
  }

  /** The oldest layer is the 33rd of its cell, so the removal does not reach it. */
  lemma OldestUnreached(lutSize: nat)
    requires lutSize > 0
    ensures Live(Slots(SLOTS), 0) && 1 !in Reached(Slots(SLOTS), Filing(lutSize, SLOTS), lutSize, 0)
  {
    hide Minus, AtCell, Slots, InCell, Bucket, Down, TileHash;
    AllLayers();
    LayersSeen(lutSize, SLOTS);
    var ts, chains, b := Slots(SLOTS), Filing(lutSize, SLOTS), TileHash(1, 0, lutSize);
    VacatedBucket(lutSize);
    var layers := seq(SLOTS - 1, k requires 0 <= k < SLOTS - 1 => SLOTS - 1 - k);
    assert Seen(ts, Vacated(ts, chains, lutSize, 0), lutSize, 1, 0) == FirstFew(layers, MAX_NEIS);
    assert 1 !in layers[..MAX_NEIS];
    assert !SeenFrom(ts, Vacated(ts, chains, lutSize, 0), lutSize, 0, 1);
  }

  /** Taking out the first tile leaves its bucket without it, and the others never had it. */
  lemma VacatedBucket(lutSize: nat)
    requires lutSize > 0
    ensures Live(Slots(SLOTS), 0)
    ensures var b := TileHash(1, 0, lutSize);
            Vacated(Slots(SLOTS), Filing(lutSize, SLOTS), lutSize, 0)[b] == Minus(Bucket(b, lutSize, SLOTS), 0)
  {
    hide Minus, TileHash;
    var b := TileHash(1, 0, lutSize);
    if HashOf(0, lutSize) != b {
      ElsewhereFirst(b, lutSize, SLOTS);
      MinusAbsent(Bucket(b, lutSize, SLOTS), 0);
    }
  }

  lemma {:induction false} ElsewhereFirst(b: nat, lutSize: nat, n: nat)
    requires lutSize > 0 && HashOf(0, lutSize) != b
    ensures 0 !in Bucket(b, lutSize, n)
  {
    if n > 0 {
      ElsewhereFirst(b, lutSize, n - 1);
    }
  }

  /**
   Thirty-three layers in one cell beside a tile: all 34 additions succeed, and removing the tile leaves the
   oldest layer with a link to it.
   */
  lemma CrowdedRemovalDangles(r: Rules)
    requires AllTouch(r)
    ensures Filed(r, EmptyMesh(r.lutSize, SLOTS))
    ensures var s, ref := DoAll(r, EmptyMesh(r.lutSize, SLOTS), Adds(SLOTS)), EncodePolyId(r.w, 1, 0, 0);
            var s' := Do(r, s, Remove(ref));
            && s.ts == Slots(SLOTS) && RemoveStatus(r.w, s.ts, ref) == Success
            && Live(s'.ts, 1) && PointsAt(r.w, s'.links[1], 0) && !Live(s'.ts, 0) && !NoDangling(r.w, s'.ts, s'.links)
  {
    hide EncodePolyId, DecodeTile, DecodeSalt, Pow2, Minus, Reached, PointsAt, DoAll, Unconnected;
    hide AllListed, Bucket, Down, NoDangling, NextSalt, LinksOk, TileHash, Filing, Touching;
    AddsBuild(r, SLOTS);
    MintedPoints(r.w);
    OldestUnreached(r.lutSize);
    var s, ref := DoAll(r, EmptyMesh(r.lutSize, SLOTS), Adds(SLOTS)), EncodePolyId(r.w, 1, 0, 0);
    var s' := Do(r, s, Remove(ref));
    assert s' == Removed(r, s, 0);
    assert s'.links[1] == s.links[1];
    DanglingNow(r.w, s'.ts, s'.links);
  }

  lemma DanglingNow(w: Bits, ts: seq<Tile>, links: seq<LinkState>)
    requires |links| > 1 && Live(ts, 1) && !Live(ts, 0) && PointsAt(w, links[1], 0)
    ensures !NoDangling(w, ts, links)
  {
    var p, k :| 0 <= p < |links[1].lists| && 0 <= k < |links[1].lists[p]|
      && DecodeTile(w, links[1].lists[p][k].ref) == 0;
    assert !ListOk(w, ts, 1, links[1].lists[p]);
    assert !LinksOk(w, ts, 1, links[1]);
  }

  lemma DataFine()
    ensures forall i :: DataOk(Data(i))
  {
  }

  /** The same run on the store itself: nothing dangles until the last step. */
  method CrowdedRun(w: Bits, lutSize: nat, touches: Touches, nearest: Nearest) returns (mesh: NavMesh)
    requires AllTouch(Rules(w, lutSize, touches, nearest))
    ensures fresh(mesh) && mesh.Sound() && !mesh.Valid()
  {
    hide Pow2, DataOk, Data, NoDangling, Whole, Good, Placed, AllFit, Spread, AllPooled, EncodePolyId;
    hide DecodeTile, DoAll, Do;
    hide EmptyMesh, Slots, Removed, PointsAt;
    assert forall i :: DataOk(Data(i)) by {
      DataFine();
    }
    mesh := new NavMesh(w, lutSize, SLOTS, touches, nearest);
    CrowdedRemovalDangles(mesh.R());
    Run(mesh, Adds(SLOTS));
    assert mesh.Valid();
    Step(mesh, Remove(EncodePolyId(w, 1, 0, 0)));
  }
}
