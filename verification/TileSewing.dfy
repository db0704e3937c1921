/** What linking a new tile to the tiles around it achieves: every link that was wanted, as far as links lasted. */
module TileSewing {
  import opened Chains
  import opened PolyRef
  import opened TileLinks
  import opened TileMesh
  import opened TileSeams
  import opened TileStore

  /** Tile `c` lies on one side of tile `it`, in a cell that is not too crowded; side 8 is the cell itself. */
  ghost predicate Beside(ts: seq<Tile>, it: nat, c: nat, side: nat) {
    && Live(ts, it) && Live(ts, c)
    && var h := ts[it].header.value;
       var cell := CellBeside(h.x, h.y, side);
       InCell(ts, c, cell.0, cell.1) && Crowded(ts, cell.0, cell.1) <= 32
  }

  /** The tile on this side is linked with it as far as links lasted. */
  ghost predicate SideSewn(r: Rules, ts: seq<Tile>, was: seq<LinkState>, now: seq<LinkState>, it: nat, c: nat,
                           side: nat) {
    Beside(ts, it, c, side) && c != it ==>
      PairSewn(r.touches, r.nearest, r.w, ts, was, now, it, c, if side == 8 then -1 else side)
  }

  /** Every tile beside tile `it`, in a cell of at most 32, is linked with it as far as links lasted. */
  ghost predicate AllSewn(r: Rules, ts: seq<Tile>, was: seq<LinkState>, now: seq<LinkState>, it: nat) {
    forall side, c :: 0 <= side <= 8 ==> SideSewn(r, ts, was, now, it, c, side)
  }

  ghost predicate AllListed(ts: seq<Tile>, links: seq<LinkState>) { |ts| == |links| && ListPerPoly(ts, links) }

  ghost predicate ListPerPoly(ts: seq<Tile>, links: seq<LinkState>) {
    forall a: nat :: Live(ts, a) && a < |links| ==> |links[a].lists| == PolyCount(ts, a)
  }

  lemma PooledListed(ts: seq<Tile>, links: seq<LinkState>)
    requires AllPooled(ts, links)
    ensures AllListed(ts, links)
  {
    forall a: nat | Live(ts, a)
      ensures |links[a].lists| == PolyCount(ts, a)
    {
      LinksConserved(ts, links, a);
    }
  }

  lemma GrownListed(ts: seq<Tile>, was: seq<LinkState>, now: seq<LinkState>)
    requires AllListed(ts, was) && AllGrow(was, now)
    ensures AllListed(ts, now)
  {
    forall a: nat | Live(ts, a)
      ensures |now[a].lists| == PolyCount(ts, a)
    {
      assert Grows(was[a], now[a]);
    }
  }

  // ---------- Two tiles ----------

  /** Border links one way. */
  lemma OneBorder(m: Seam, links: seq<LinkState>, a: nat)
    requires a < |links| && |links[a].lists| == |m.a.polys|
    ensures var now := links[a := PushLists(links[a], Borders(m), |m.a.polys|)];
            AllGrow(links, now) && Joined(m, now[a])
  {
    hide Joined, Borders;
    BordersJoin(m, links[a]);
    PushListsMeans(links[a], Borders(m), |m.a.polys|);
    var now := links[a := PushLists(links[a], Borders(m), |m.a.polys|)];
    SelfGrows(links);
    forall b | 0 <= b < |links|
      ensures Grows(links[b], now[b])
    {
      assert Grows(links[b], links[b]);
    }
  }

  lemma BordersSew(r: Rules, ts: seq<Tile>, links: seq<LinkState>, a: nat, b: nat, side: int)
    requires AllListed(ts, links) && Live(ts, a) && Live(ts, b) && a != b && -1 <= side < 8
    ensures var now := BordersLinked(r, ts, links, a, b, side);
            AllGrow(links, now) && PairJoined(r.touches, r.w, ts, now, a, b, side)
  {
    hide Joined, Borders, PushLists, AllGrow, Grows;
    var m, m' := SeamOf(r.touches, r.w, ts, a, b, side), SeamOf(r.touches, r.w, ts, b, a, OtherSide(side));
    OneBorder(m, links, a);
    var first := links[a := PushLists(links[a], Borders(m), |m.a.polys|)];
    OneBorder(m', first, b);
    GrowBoth(links, first, BordersLinked(r, ts, links, a, b, side));
  }

  lemma AllCons(nearest: Nearest, w: Bits, ts: seq<Tile>, links: seq<LinkState>, a: nat, b: nat, side: int)
    requires Live(ts, a) && Live(ts, b) && a < |links| && b < |links| && -1 <= side < 8
    ensures var now := OffMeshLinked(nearest, w, ts, links, a, b, side, |ts[b].header.value.offMeshCons|);
            AllGrow(links, now) && OffJoined(nearest, w, ts, links, now, a, b, side)
  {
    OffMeshJoins(nearest, w, ts, links, a, b, side, |ts[b].header.value.offMeshCons|);
  }

  /** Border links, then off-mesh links one way, then the other. */
  lemma SewnUp(r: Rules, ts: seq<Tile>, l0: seq<LinkState>, l1: seq<LinkState>, l2: seq<LinkState>, l3: seq<LinkState>,
               a: nat, b: nat, side: int)
    requires Live(ts, a) && Live(ts, b) && a < |l0| && b < |l0| && -1 <= side < 8
    requires AllGrow(l0, l1) && PairJoined(r.touches, r.w, ts, l1, a, b, side)
    requires AllGrow(l1, l2) && OffJoined(r.nearest, r.w, ts, l1, l2, a, b, side)
    requires AllGrow(l2, l3) && OffJoined(r.nearest, r.w, ts, l2, l3, b, a, OtherSide(side))
    ensures AllGrow(l0, l3) && PairSewn(r.touches, r.nearest, r.w, ts, l0, l3, a, b, side)
  {
    hide Joined, OffJoined, Grows;
    GrowBoth(l1, l2, l3);
    GrowBoth(l0, l1, l2);
    GrowBoth(l0, l2, l3);
    SelfGrows(l3);
    PairGrows(r.touches, r.w, ts, l1, l3, a, b, side);
    OffGrows(r.nearest, r.w, ts, l0, l1, l2, l3, a, b, side);
    OffGrows(r.nearest, r.w, ts, l0, l2, l3, l3, b, a, OtherSide(side));
  }

  /** Linking two tiles makes all their border and off-mesh links, as far as links lasted, and takes none away. */
  lemma PairSews(r: Rules, ts: seq<Tile>, links: seq<LinkState>, a: nat, b: nat, side: int)
    requires AllListed(ts, links) && Live(ts, a) && Live(ts, b) && a != b && -1 <= side < 8
    ensures var now := PairLinked(r, ts, links, a, b, side);
            AllGrow(links, now) && PairSewn(r.touches, r.nearest, r.w, ts, links, now, a, b, side)
  {
    hide ListPerPoly, BordersLinked, OffMeshLinked, PairJoined, OffJoined, AllGrow, PairSewn;
    BordersSew(r, ts, links, a, b, side);
    var l1 := BordersLinked(r, ts, links, a, b, side);
    AllCons(r.nearest, r.w, ts, l1, a, b, side);
    var l2 := OffMeshLinked(r.nearest, r.w, ts, l1, a, b, side, |ts[b].header.value.offMeshCons|);
    AllCons(r.nearest, r.w, ts, l2, b, a, OtherSide(side));
    SewnUp(r, ts, links, l1, l2, PairLinked(r, ts, links, a, b, side), a, b, side);
  }

  // ---------- The tiles of a cell ----------

  lemma {:induction false} CellSews(r: Rules, ts: seq<Tile>, links: seq<LinkState>, it: nat, neis: seq<nat>, side: int)
    requires AllListed(ts, links) && Live(ts, it) && -1 <= side < 8 && forall k :: 0 <= k < |neis| ==> Live(ts, neis[k])
    ensures var now := CellLinked(r, ts, links, it, neis, side);
            && AllGrow(links, now) && AllListed(ts, now)
            && forall c :: c in neis && c != it ==> PairSewn(r.touches, r.nearest, r.w, ts, links, now, it, c, side)
  {
    hide PairLinked, PairSewn, AllGrow, ListPerPoly;
    SelfGrows(links);
    if neis != [] {
      var n := |neis| - 1;
      CellSews(r, ts, links, it, neis[..n], side);
      var was, now := CellLinked(r, ts, links, it, neis[..n], side), CellLinked(r, ts, links, it, neis, side);
      assert neis == neis[..n] + [neis[n]];
      if neis[n] != it {
        PairSews(r, ts, was, it, neis[n], side);
        GrowBoth(links, was, now);
        GrownListed(ts, links, now);
        SelfGrows(now);
        SewnGrows(r.touches, r.nearest, r.w, ts, links, was, now, now, it, neis[n], side);
        EarlierSewn(r, ts, links, was, now, it, neis[..n], side);
      }
    }
  }

  lemma EarlierSewn(r: Rules, ts: seq<Tile>, links: seq<LinkState>, was: seq<LinkState>, now: seq<LinkState>, it: nat,
                    neis: seq<nat>, side: int)
    requires AllGrow(was, now)
    requires forall c :: c in neis && c != it ==> PairSewn(r.touches, r.nearest, r.w, ts, links, was, it, c, side)
    ensures forall c :: c in neis && c != it ==> PairSewn(r.touches, r.nearest, r.w, ts, links, now, it, c, side)
  {
    hide PairSewn, AllGrow;
    SelfGrows(links);
    forall c | c in neis && c != it
      ensures PairSewn(r.touches, r.nearest, r.w, ts, links, now, it, c, side)
    {
      SewnGrows(r.touches, r.nearest, r.w, ts, links, links, was, now, it, c, side);
    }
  }

  /** In a cell of at most 32 tiles all are looked at. */
  lemma AllSeen(ts: seq<Tile>, t: Table, lutSize: nat, x: int, y: int)
    requires Good(t) && |t.chains| == lutSize + 1 && lutSize > 0 && Placed(ts, t.own, lutSize)
    requires Crowded(ts, x, y) <= 32
    ensures forall c: nat :: InCell(ts, c, x, y) ==> c in Seen(ts, t.chains, lutSize, x, y)
  {
    hide Good, TileHash, Crowded, SlotPlaced;
    forall c: nat | InCell(ts, c, x, y)
      ensures c in Seen(ts, t.chains, lutSize, x, y)
    {
      assert SlotPlaced(ts, t.own, lutSize, c);
      CellComplete(ts, t, lutSize, c, x, y, MAX_NEIS);
    }
  }

  // ---------- All cells around ----------

  /** One more cell, side 8 being the tile's own. */
  lemma SideSews(r: Rules, ts: seq<Tile>, was: seq<LinkState>, links: seq<LinkState>, t: Table, it: nat, side: nat)
    requires AllListed(ts, links) && AllGrow(was, links) && Live(ts, it) && side <= 8
    requires Good(t) && |t.chains| == r.lutSize + 1 && r.lutSize > 0 && Placed(ts, t.own, r.lutSize)
    ensures var h := ts[it].header.value;
            var cell := CellBeside(h.x, h.y, side);
            var now := CellLinked(r, ts, links, it, Seen(ts, t.chains, r.lutSize, cell.0, cell.1),
                                  if side == 8 then -1 else side);
            && AllGrow(links, now) && AllListed(ts, now)
            && forall c :: SideSewn(r, ts, was, now, it, c, side)
  {
    hide ListPerPoly, AllGrow, Good, Placed, PairSewn, CellLinked, CellBeside;
    var h := ts[it].header.value;
    var cell, d := CellBeside(h.x, h.y, side), if side == 8 then -1 else side;
    var neis := Seen(ts, t.chains, r.lutSize, cell.0, cell.1);
    CellSews(r, ts, links, it, neis, d);
    var now := CellLinked(r, ts, links, it, neis, d);
    SelfGrows(now);
    forall c
      ensures SideSewn(r, ts, was, now, it, c, side)
    {
      if Beside(ts, it, c, side) && c != it {
        AllSeen(ts, t, r.lutSize, cell.0, cell.1);
        SewnGrows(r.touches, r.nearest, r.w, ts, was, links, now, now, it, c, d);
      }
    }
  }

  lemma SideStays(r: Rules, ts: seq<Tile>, was: seq<LinkState>, links: seq<LinkState>, now: seq<LinkState>, it: nat,
                  c: nat, side: nat)
    requires AllGrow(links, now) && SideSewn(r, ts, was, links, it, c, side)
    ensures SideSewn(r, ts, was, now, it, c, side)
  {
    hide PairSewn, AllGrow, Beside;
    SelfGrows(was);
    if Beside(ts, it, c, side) && c != it {
      SewnGrows(r.touches, r.nearest, r.w, ts, was, was, links, now, it, c, if side == 8 then -1 else side);
    }
  }

  /** After the first `n` sides and its own cell a tile is linked with all tiles there, and none has lost a link. */
  lemma {:induction false} AroundSews(r: Rules, ts: seq<Tile>, links: seq<LinkState>, t: Table, it: nat, n: nat)
    requires AllListed(ts, links) && Live(ts, it) && n <= 8
    requires Good(t) && |t.chains| == r.lutSize + 1 && r.lutSize > 0 && Placed(ts, t.own, r.lutSize)
    ensures var now := AroundLinked(r, ts, links, t.chains, it, n);
            && AllGrow(links, now) && AllListed(ts, now)
            && forall side, c :: 0 <= side < n || side == 8 ==> SideSewn(r, ts, links, now, it, c, side)
  {
    hide ListPerPoly, AllGrow, Good, Placed, CellLinked, CellBeside, SideSewn;
    SelfGrows(links);
    var now := AroundLinked(r, ts, links, t.chains, it, n);
    if n == 0 {
      OwnCell(ts[it].header.value.x, ts[it].header.value.y);
      SideSews(r, ts, links, links, t, it, 8);
    } else {
      AroundSews(r, ts, links, t, it, n - 1);
      var was := AroundLinked(r, ts, links, t.chains, it, n - 1);
      SideSews(r, ts, links, was, t, it, n - 1);
      GrowBoth(links, was, now);
      forall side, c | 0 <= side < n - 1 || side == 8
        ensures SideSewn(r, ts, links, now, it, c, side)
      {
        SideStays(r, ts, links, was, now, it, c, side);
      }
    }
  }

  /** Linking a tile all around takes no link away. */
  lemma {:induction false} AroundGrows(r: Rules, ts: seq<Tile>, links: seq<LinkState>, chains: seq<seq<nat>>, it: nat,
                                       n: nat)
    requires AllListed(ts, links) && Live(ts, it) && n <= 8 && r.lutSize > 0 && |chains| == r.lutSize + 1
    ensures var now := AroundLinked(r, ts, links, chains, it, n); AllGrow(links, now) && AllListed(ts, now)
  {
    hide ListPerPoly, AllGrow, CellLinked, CellBeside, Seen;
    var h := ts[it].header.value;
    if n == 0 {
      CellSews(r, ts, links, it, Seen(ts, chains, r.lutSize, h.x, h.y), -1);
    } else {
      AroundGrows(r, ts, links, chains, it, n - 1);
      var was, cell := AroundLinked(r, ts, links, chains, it, n - 1), CellBeside(h.x, h.y, n - 1);
      CellSews(r, ts, was, it, Seen(ts, chains, r.lutSize, cell.0, cell.1), n - 1);
      GrowBoth(links, was, AroundLinked(r, ts, links, chains, it, n));
    }
  }

  lemma OwnCell(x: int, y: int)
    ensures CellBeside(x, y, 8) == (x, y)
  {
  }
}
