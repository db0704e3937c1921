/**
 The navigation mesh's tile store: slots with a free list, a position hash, and links between tiles.
 The answers of geometric tests are arbitrary functions of the tiles' data and the polygons and edges asked about.
 */
module NavMesh {
  import opened Chains
  import opened Collections
  import opened PolyRef
  import opened TileLinks
  import opened TileMesh
  import opened TileSeams
  import opened TileSewing
  import opened TileStore

  class NavMesh {
    const w: Bits
    const lutSize: nat
    const touches: Touches
    const nearest: Nearest
    const tiles: array<Tile>
    const links: array<LinkState>
    const next: array<int>
    /** The first tile of each hash bucket, and last the first free slot. */
    const heads: array<int>
    ghost var own: seq<nat>
    ghost var chains: seq<seq<nat>>

    /** An empty mesh: all slots free, the first one on top, each with salt 1. */
    constructor (w: Bits, lutSize: nat, maxTiles: nat, touches: Touches, nearest: Nearest)
      requires w.salt >= 1 && lutSize > 0 && 0 < maxTiles <= Pow2(w.tile)
      ensures Valid() && State() == TileStore.EmptyMesh(lutSize, maxTiles)
      ensures R() == Rules(w, lutSize, touches, nearest)
      ensures fresh(tiles) && fresh(links) && fresh(next) && fresh(heads)
    {
      this.w, this.lutSize, this.touches, this.nearest := w, lutSize, touches, nearest;
      tiles := new Tile[maxTiles](_ => Tile(1, None));
      links := new LinkState[maxTiles](_ => LinkState([], 0));
      next := new int[maxTiles](i => if i == maxTiles - 1 then NONE else i + 1);
      heads := new int[lutSize + 1](p => if p == lutSize then 0 else NONE);
      own := seq(maxTiles, _ => lutSize);
      chains := EmptyChains(lutSize, maxTiles);
      new;
      AllFree(T(), lutSize);
      AllEmpty(w, tiles[..], links[..], own, lutSize);
      assert State() == TileStore.EmptyMesh(lutSize, maxTiles);
    }

    function R(): Rules { Rules(w, lutSize, touches, nearest) }

    ghost function State(): Mesh
      reads this, tiles, links
    {
      Mesh(tiles[..], links[..], chains)
    }

    // ---------- Making links ----------

    /** Links may be added: the slots fit the reference format, and links were only added since `was`, none dangling. */
    ghost predicate Linking(was: seq<LinkState>)
      reads tiles, links
    {
      tiles.Length == links.Length && AllFit(w, tiles[..]) && Linked(w, tiles[..], was, links[..])
    }

    function Ref(it: nat, ip: nat): nat
      reads tiles
      requires it < tiles.Length
    {
      EncodePolyId(w, tiles[it].salt, it, ip)
    }

    method AddLink(a: nat, p: nat, link: Link, ghost was: seq<LinkState>)
      requires Linking(was) && Live(tiles[..], a) && p < PolyCount(tiles[..], a) && RefOk(w, tiles[..], a, link.ref)
      requires |links[a].lists| == PolyCount(tiles[..], a)
      modifies links
      ensures Linking(was) && links[..] == old(links[..])[a := PushLink(old(links[a]), p, link)]
    {
      LinkStep(w, tiles[..], was, links[..], a, p, link);
      links[a] := PushLink(links[a], p, link);
    }

    /** Links the polygons of a tile to each other. */
    method ConnectIntLinks(a: nat, ghost was: seq<LinkState>)
      requires Linking(was) && Live(tiles[..], a) && |links[a].lists| == PolyCount(tiles[..], a)
      modifies links
      ensures Linking(was)
      ensures links[..] == old(links[..])[a := IntLinked(w, tiles[a].salt, a, tiles[a].header.value.polys,
                                                         old(links[a]), PolyCount(tiles[..], a))]
    {
      hide Linked, RefOk, DataOk;
      var polys := tiles[a].header.value.polys;
      ghost var s := links[a];
      for i := 0 to |polys|
        invariant Linking(was)
        invariant links[..] == old(links[..])[a := IntLinked(w, tiles[a].salt, a, polys, s, i)]
      {
        if !polys[i].offMesh {
          ConnectEdges(a, i, was);
        }
      }
    }

    /** Links one ground polygon across its internal edges, last edge first. */
    method ConnectEdges(a: nat, i: nat, ghost was: seq<LinkState>)
      requires Linking(was) && Live(tiles[..], a) && i < PolyCount(tiles[..], a)
      requires |links[a].lists| == PolyCount(tiles[..], a)
      modifies links
      ensures Linking(was)
      ensures var ls := EdgeLinks(w, tiles[a].salt, a, tiles[a].header.value.polys[i], 0);
              links[..] == old(links[..])[a := PushAll(old(links[a]), i, ls)]
    {
      hide Linked, RefOk, AllFit;
      var poly := tiles[a].header.value.polys[i];
      ghost var s, salt := links[a], tiles[a].salt;
      var j: nat := |poly.neis|;
      while j > 0
        invariant j <= |poly.neis| && Linking(was)
        invariant links[..] == old(links[..])[a := PushAll(s, i, EdgeLinks(w, salt, a, poly, j))]
      {
        j := j - 1;
        if InternalEdge(poly.neis[j]) {
          InternalTarget(w, tiles[..], a, i, j);
          var link := Link(Ref(a, poly.neis[j] - 1), j, NO_SIDE);
          PushAllLast(s, i, EdgeLinks(w, salt, a, poly, j + 1), link);
          AddLink(a, i, link, was);
        } else {
          assert EdgeLinks(w, salt, a, poly, j) == EdgeLinks(w, salt, a, poly, j + 1);
        }
      }
    }

    /** The polygons of the other tile that a border edge is to be linked to. */
    method FindConnectingPolys(m: Seam, p: nat, j: nat) returns (con: seq<nat>)
      requires p < |m.a.polys| && j < |m.a.polys[p].neis|
      ensures con == Connecting(m, p, j)
    {
      var code := EXT_LINK + OppositeTile(m.a.polys[p].neis[j] % 256);
      con := [];
      for i := 0 to |m.b.polys|
        invariant con == FirstFew(Candidates(m, p, j, code, i), MAX_CONNECTING)
      {
        var touching := TouchesBorder(m, p, j, i, code);
        if touching && |con| < MAX_CONNECTING {
          con := con + [i];
        }
      }
    }

    /** Tests the edges on a border until one touches. */
    method TouchesBorder(m: Seam, p: nat, j: nat, q: nat, code: nat) returns (found: bool)
      requires q < |m.b.polys|
      ensures found <==> EdgeTouches(m, p, j, q, code)
    {
      var neis := m.b.polys[q].neis;
      for k := 0 to |neis|
        invariant forall l :: 0 <= l < k ==> !(neis[l] == code && m.touches(m.a, p, j, m.b, q, l))
      {
        if neis[k] == code && m.touches(m.a, p, j, m.b, q, k) {
          return true;
        }
      }
      return false;
    }

    /** Both tiles are in use, in the same or neighbouring cells, and have one list per polygon. */
    ghost predicate Neighbours(a: nat, b: nat)
      reads tiles, links
    {
      && tiles.Length == links.Length && Live(tiles[..], a) && Live(tiles[..], b)
      && Near(tiles[a].header.value, tiles[b].header.value) && Near(tiles[b].header.value, tiles[a].header.value)
      && |links[a].lists| == PolyCount(tiles[..], a) && |links[b].lists| == PolyCount(tiles[..], b)
    }

    /** Links the border edges of tile `a` on one side, or on all sides, to tile `b`. */
    method ConnectExtLinks(a: nat, b: nat, side: int, ghost was: seq<LinkState>)
      requires Linking(was) && Neighbours(a, b)
      modifies links
      ensures Linking(was) && Neighbours(a, b)
      ensures var m := SeamOf(touches, w, tiles[..], a, b, side);
              links[..] == old(links[..])[a := PushLists(old(links[a]), Borders(m), |m.a.polys|)]
    {
      hide Linked, AllFit, Borders, PushAll;
      var m := Seam(touches, w, tiles[a].header.value, tiles[b].header.value, tiles[b].salt, b, side);
      ghost var s := links[a];
      for i := 0 to |m.a.polys|
        invariant Linking(was) && Neighbours(a, b) && links[..] == old(links[..])[a := PushLists(s, Borders(m), i)]
      {
        ConnectBorder(m, a, i, was);
      }
    }

    /** Links the border edges of one polygon. */
    method ConnectBorder(m: Seam, a: nat, i: nat, ghost was: seq<LinkState>)
      requires Linking(was) && Live(tiles[..], m.it) && Neighbours(a, m.it)
      requires m == SeamOf(touches, w, tiles[..], a, m.it, m.side)
      requires i < |m.a.polys|
      modifies links
      ensures Linking(was) && Neighbours(a, m.it)
      ensures links[..] == old(links[..])[a := PushAll(old(links[a]), i, Borders(m)[i])]
    {
      hide Linked, AllFit, EdgeBorderLinks;
      ghost var s := links[a];
      for j := 0 to |m.a.polys[i].neis|
        invariant Linking(was) && Neighbours(a, m.it)
        invariant links[..] == old(links[..])[a := PushAll(s, i, BorderLinks(m, i, j))]
      {
        ConnectEdge(m, a, i, j, was);
        PushAllAppend(s, i, BorderLinks(m, i, j), EdgeBorderLinks(m, i, j));
      }
    }

    /** Links one edge, if it is on the border, to the polygons it touches. */
    method ConnectEdge(m: Seam, a: nat, i: nat, j: nat, ghost was: seq<LinkState>)
      requires Linking(was) && Live(tiles[..], m.it) && Neighbours(a, m.it)
      requires m == SeamOf(touches, w, tiles[..], a, m.it, m.side)
      requires i < |m.a.polys| && j < |m.a.polys[i].neis|
      modifies links
      ensures Linking(was) && Neighbours(a, m.it)
      ensures links[..] == old(links[..])[a := PushAll(old(links[a]), i, EdgeBorderLinks(m, i, j))]
    {
      hide Linked, AllFit, Connecting, RefOk, PushAll;
      var code := m.a.polys[i].neis[j];
      if code / EXT_LINK % 2 == 0 || (m.side != -1 && code % 256 != m.side) {
        PushNone(links[a], i, []);
        assert links[..] == old(links[..])[a := links[a]];
        return;
      }
      ghost var s, ls := links[a], EdgeBorderLinks(m, i, j);
      var nei := FindConnectingPolys(m, i, j);
      assert links[..] == old(links[..])[a := PushAll(s, i, ls[..0])] by {
        PushNone(s, i, ls);
      }
      hide EdgeBorderLinks;
      for k := 0 to |nei|
        invariant Linking(was) && Neighbours(a, m.it) && links[..] == old(links[..])[a := PushAll(s, i, ls[..k])]
      {
        MintedOk(w, tiles[..], a, m.it, nei[k]);
        PushNext(s, i, ls, k);
        AddLink(a, i, Link(Ref(m.it, nei[k]), j, code % 256), was);
      }
      assert ls[..|ls|] == ls;
    }

    /** The polygon of tile `a` next to an off-mesh end, as a reference; 0 when there is none close enough. */
    method FindNearestPolyInTile(a: nat, b: nat, i: nat, start: bool) returns (ref: nat)
      requires AllFit(w, tiles[..]) && Live(tiles[..], a) && Live(tiles[..], b)
      ensures ref == Landing(nearest, w, tiles[..], a, b, i, start)
      ensures ref != 0 ==> DecodePoly(w, ref) < PolyCount(tiles[..], a) && ref == Ref(a, DecodePoly(w, ref))
    {
      hide DataOk;
      var q := nearest(tiles[a].header.value, tiles[b].header.value, i, start);
      ref := 0;
      if q < |tiles[a].header.value.polys| {
        ref := Ref(a, q);
        MintedOk(w, tiles[..], a, a, q);
      }
    }

    /** Links an off-mesh polygon of `b` to the polygon it lands on in `a`, and back if asked to. */
    method LinkBothWays(a: nat, b: nat, poly: nat, ref: nat, out: Link, back: Link, both: bool,
                        ghost was: seq<LinkState>)
      requires Linking(was) && Neighbours(a, b) && poly < PolyCount(tiles[..], b) && out.ref == ref
      requires back.ref == Ref(b, poly)
      requires DecodePoly(w, ref) < PolyCount(tiles[..], a) && ref == Ref(a, DecodePoly(w, ref))
      modifies links
      ensures Linking(was) && Neighbours(a, b)
      ensures links[..] == LinkedBothWays(w, tiles[..], old(links[..]), a, b, poly, ref, out, back, both)
    {
      hide Linked, AllFit, RefOk;
      MintedOk(w, tiles[..], b, a, DecodePoly(w, ref));
      AddLink(b, poly, out, was);
      if both {
        MintedOk(w, tiles[..], a, b, poly);
        AddLink(a, DecodePoly(w, ref) % 65536, back, was);
      }
    }

    /** Links the off-mesh connections of `b` that land in `a`. */
    method ConnectExtOffMeshLinks(a: nat, b: nat, side: int, ghost was: seq<LinkState>)
      requires Linking(was) && Neighbours(a, b) && -1 <= side < 8
      modifies links
      ensures Linking(was) && Neighbours(a, b)
      ensures links[..] == OffMeshLinked(nearest, w, tiles[..], old(links[..]), a, b, side,
                                         |tiles[b].header.value.offMeshCons|)
    {
      hide Linked, AllFit, RefOk, LinkedBothWays, Landing;
      var cons := tiles[b].header.value.offMeshCons;
      var oppositeSide := if side == -1 then NO_SIDE else OppositeTile(side);
      for i := 0 to |cons|
        invariant Linking(was) && Neighbours(a, b)
        invariant links[..] == OffMeshLinked(nearest, w, tiles[..], old(links[..]), a, b, side, i)
      {
        ConsFit(w, tiles[..], b, i);
        if cons[i].side == oppositeSide && links[b].lists[cons[i].poly] != [] {
          var ref := FindNearestPolyInTile(a, b, i, false);
          if ref != 0 {
            LinkBothWays(a, b, cons[i].poly, ref, Link(ref, 1, oppositeSide),
                         Link(Ref(b, cons[i].poly), NO_SIDE, if side == -1 then NO_SIDE else side), cons[i].bidir, was);
          }
        }
      }
    }

    /** Links the starts of a tile's off-mesh connections to the polygons below them, both ways. */
    method BaseOffMeshLinks(a: nat, ghost was: seq<LinkState>)
      requires Linking(was) && Neighbours(a, a)
      modifies links
      ensures Linking(was) && Neighbours(a, a)
      ensures links[..] == BaseLinked(nearest, w, tiles[..], old(links[..]), a, |tiles[a].header.value.offMeshCons|)
    {
      hide Linked, AllFit, RefOk, LinkedBothWays, Landing;
      var cons := tiles[a].header.value.offMeshCons;
      for i := 0 to |cons|
        invariant Linking(was) && Neighbours(a, a)
        invariant links[..] == BaseLinked(nearest, w, tiles[..], old(links[..]), a, i)
      {
        ConsFit(w, tiles[..], a, i);
        var ref := FindNearestPolyInTile(a, a, i, true);
        if ref != 0 {
          LinkBothWays(a, a, cons[i].poly, ref, Link(ref, 0, NO_SIDE), Link(Ref(a, cons[i].poly), NO_SIDE, NO_SIDE),
                       true, was);
        }
      }
    }

    // ---------- Chains of tiles ----------

    ghost function T(): Table
      reads this, next, heads
    {
      Table(heads[..], next[..], own, chains)
    }

    ghost predicate Shaped()
      reads this, next, heads
    {
      && heads.Length == lutSize + 1 == |chains| && tiles.Length == links.Length == next.Length == |own|
      && next != heads && lutSize > 0 && Good(T())
    }

    /** Everything the mesh keeps, except that links may dangle. */
    ghost predicate Sound()
      reads this, tiles, links, next, heads
    {
      && Shaped() && w.salt >= 1 && Whole(T()) && Placed(tiles[..], own, lutSize) && AllFit(w, tiles[..])
      && Spread(tiles[..]) && AllPooled(tiles[..], links[..])
    }

    ghost predicate Valid()
      reads this, tiles, links, next, heads
    {
      Sound() && NoDangling(w, tiles[..], links[..])
    }

    /** Takes the slot at position `k` out of chain `p`, given the one before it. */
    method UnlinkSlot(p: nat, i: nat, prev: int, ghost k: nat)
      requires Shaped() && p <= lutSize && k < |chains[p]| && i == chains[p][k]
      requires prev == if k + 1 == |chains[p]| then NONE else chains[p][k + 1]
      modifies this`own, this`chains, next, heads
      ensures Shaped() && T() == Unlinked(old(T()), p, k)
    {
      UnlinkGood(T(), p, k);
      UnlinkFits(T(), p, k);
      ghost var u := Unlink(T(), p, k);
      if prev == NONE {
        heads[p] := next[i];
      } else {
        next[prev] := next[i];
      }
      own, chains := u.own, u.chains;
      assert T().heads == u.heads && T().next == u.next;
    }

    /** Makes a slot in no chain the head of chain `p`. */
    method PushSlot(p: nat, i: nat)
      requires Shaped() && p <= lutSize && i < |own| && own[i] == |chains|
      modifies this`own, this`chains, next, heads
      ensures Shaped() && T() == Push(old(T()), i, p)
    {
      PushGood(T(), i, p);
      ghost var u := Push(T(), i, p);
      next[i] := heads[p];
      heads[p] := i;
      own, chains := u.own, u.chains;
      assert T().heads == u.heads && T().next == u.next;
    }

    /** Looks for a slot in a chain, from the head on; also gives the slot before it. */
    method FindSlot(p: nat, target: nat) returns (found: bool, prev: int, ghost k: nat)
      requires Shaped() && p <= lutSize
      ensures found <==> target in chains[p]
      ensures found ==> k < |chains[p]| && chains[p][k] == target
                        && prev == if k + 1 == |chains[p]| then NONE else chains[p][k + 1]
    {
      ghost var c := chains[p];
      assert ChainOk(T(), p);
      var cur := heads[p];
      prev := NONE;
      k := |c|;
      while cur != NONE && cur != target
        invariant k <= |c| && cur == Below(c, k) && prev == if k == |c| then NONE else c[k]
        invariant forall l :: k <= l < |c| ==> c[l] != target
        decreases k
      {
        k := k - 1;
        UnlinkFits(T(), p, k);
        prev, cur := cur, next[cur];
      }
      found := cur != NONE;
      if found {
        k := k - 1;
      }
    }

    /** The tile at a position, if there is one. */
    method GetTileAt(x: int, y: int, layer: int) returns (tile: int)
      requires Sound()
      ensures tile == NONE ==> forall t :: !At(tiles[..], t, x, y, layer)
      ensures tile != NONE ==> 0 <= tile && At(tiles[..], tile, x, y, layer)
    {
      hide AllFit, Spread, Whole, Good, ChainOk, Placed, SlotPlaced;
      var h := TileHash(x, y, lutSize);
      ghost var c, ts, k: nat := chains[h], tiles[..], |chains[h]|;
      HeadOk(T(), h);
      tile := heads[h];
      while tile != NONE
        invariant k <= |c| && tile == Below(c, k)
        invariant forall l :: k <= l < |c| ==> !At(ts, c[l], x, y, layer)
        decreases k
      {
        k := k - 1;
        UnlinkFits(T(), h, k);
        var header := tiles[tile].header;
        if header.Some? && header.value.x == x && header.value.y == y && header.value.layer == layer {
          return;
        }
        tile := next[tile];
      }
      forall t | At(ts, t, x, y, layer)
        ensures false
      {
        SlotsPlaced(ts, own, lutSize, t);
        InItsBucket(ts, T(), lutSize, t, x, y);
      }
    }

    /** The first few tiles of a cell, newest first. */
    method GetTilesAt(x: int, y: int, maxTiles: nat) returns (r: seq<nat>)
      requires Shaped()
      ensures r == FirstFew(AtCell(tiles[..], chains[TileHash(x, y, lutSize)], x, y), maxTiles)
    {
      hide Good, ChainOk, AtCell;
      var h := TileHash(x, y, lutSize);
      ghost var c, ts, k: nat := chains[h], tiles[..], |chains[h]|;
      ghost var found: seq<nat> := [];
      HeadOk(T(), h);
      var tile := heads[h];
      r := [];
      assert c[..k] == c;
      while tile != NONE
        invariant k <= |c| && tile == Below(c, k)
        invariant r == FirstFew(found, maxTiles) && found + AtCell(ts, c[..k], x, y) == AtCell(ts, c, x, y)
        decreases k
      {
        AtCellStep(ts, c, k, x, y, found);
        k := k - 1;
        UnlinkFits(T(), h, k);
        if InCell(tiles[..], tile, x, y) {
          if |r| < maxTiles {
            r := r + [tile];
          }
          found := found + [tile];
        }
        tile := next[tile];
      }
      AtCellEnd(ts, c, x, y);
    }

    // ---------- Removing a tile ----------

    method UnconnectLinks(a: nat, it: nat)
      requires a < links.Length
      modifies links
      ensures links[..] == old(links[..])[a := Unconnected(old(links[a]), LeadsTo(w, it))]
    {
      links[a] := Unconnected(links[a], LeadsTo(w, it));
    }

    /** Unconnects the tiles seen in one cell from slot `it`. */
    method UnconnectCell(cell: (int, int), it: nat, ghost was: seq<LinkState>, ghost done: set<nat>)
      requires Shaped() && Emptied(w, was, links[..], it, done) && it < tiles.Length == |was|
      modifies links
      ensures Emptied(w, was, links[..], it, done + Others(tiles[..], chains, lutSize, it, cell))
    {
      hide Emptied, Good, InCell, TileHash, Others, OthersOf, Unconnected, Seen;
      var neis := GetTilesAt(cell.0, cell.1, MAX_NEIS);
      SeenOthers(tiles[..], chains, lutSize, it, cell, neis);
      assert done + {} == done;
      for j := 0 to |neis|
        invariant Emptied(w, was, links[..], it, done + OthersOf(neis[..j], it))
      {
        OneOther(done, neis, j, it);
        if neis[j] != it {
          UnconnectStep(w, was, links[..], it, done + OthersOf(neis[..j], it), neis[j]);
          UnconnectLinks(neis[j], it);
        }
      }
    }

    /** Unconnects every tile seen from slot `it`, whose own tile has left its bucket. */
    method UnconnectAround(it: nat)
      requires Shaped() && Live(tiles[..], it)
      modifies links
      ensures Emptied(w, old(links[..]), links[..], it, SeenAround(tiles[..], chains, lutSize, it))
    {
      hide Emptied, Good, CellBeside, Seen, TileHash;
      var h := tiles[it].header.value;
      ghost var was := links[..];
      NoneEmptied(w, was, it);
      OwnCell(h.x, h.y);
      UnconnectCell((h.x, h.y), it, was, {});
      ghost var done := Others(tiles[..], chains, lutSize, it, CellBeside(h.x, h.y, 8));
      assert {} + done == done;
      for i := 0 to 8
        invariant Emptied(w, was, links[..], it, done)
        invariant forall c :: c in done <==> exists side ::
                    (0 <= side < i || side == 8)
                      && c in Others(tiles[..], chains, lutSize, it, CellBeside(h.x, h.y, side))
      {
        UnconnectCell(CellBeside(h.x, h.y, i), it, was, done);
        done := done + Others(tiles[..], chains, lutSize, it, CellBeside(h.x, h.y, i));
      }
      AllSides(tiles[..], chains, lutSize, it, done);
    }

    /** All is well except that slot `it` is in no chain. */
    ghost predicate Loose(it: nat)
      reads this, tiles, next, heads
    {
      && Shaped() && w.salt >= 1 && it < tiles.Length && own[it] == |chains| && AllFit(w, tiles[..])
         && Spread(tiles[..])
      && (forall c :: 0 <= c < tiles.Length && c != it ==> own[c] < |chains|)
      && (forall c :: 0 <= c < tiles.Length && c != it ==> SlotPlaced(tiles[..], own, lutSize, c))
    }

    /** Takes a tile out of its bucket, whose other tiles keep their order. */
    method Vacate(it: nat)
      requires Sound() && Live(tiles[..], it)
      modifies this`own, this`chains, next, heads
      ensures Loose(it) && chains == Vacated(tiles[..], old(chains), lutSize, it)
    {
      hide Good, ChainOk, AllFit, Spread, TileHash, SlotPlaced, Placed, InCell, Without, Minus;
      var h := tiles[it].header.value;
      ghost var t := T();
      var b := TileHash(h.x, h.y, lutSize);
      SlotsPlaced(tiles[..], own, lutSize, it);
      InItsBucket(tiles[..], T(), lutSize, it, h.x, h.y);
      var found, prev;
      ghost var k;
      found, prev, k := FindSlot(b, it);
      UnlinkSlot(b, it, prev, k);
      AllButOne(tiles[..], t, T(), lutSize, it, b, k);
      UnlinkedChains(t, b, k);
    }

    /** Puts a loose slot, with its new contents, at the head of the chain it belongs to. */
    method PutSlot(it: nat, p: nat, t: Tile, s: LinkState)
      requires Loose(it) && TileFits(w, t) && Spread(tiles[..][it := t])
      requires AllPooled(tiles[..][it := t], links[..][it := s])
      requires t.header.None? ==> t.salt > 0
      requires p == match t.header case None => lutSize case Some(h) => TileHash(h.x, h.y, lutSize)
      modifies this`own, this`chains, tiles, links, next, heads
      ensures Sound() && tiles[..] == old(tiles[..])[it := t] && links[..] == old(links[..])[it := s]
      ensures chains == old(chains)[p := old(chains)[p] + [it]]
    {
      hide Good, ChainOk, TileFits, AllFit, Spread, TileHash, AllPooled;
      SlotFitsUpdate(w, tiles[..], it, t);
      ghost var ts, was, ls := tiles[..], own, links[..];
      tiles[it] := t;
      links[it] := s;
      PushSlot(p, it);
      assert tiles[..] == ts[it := t] && links[..] == ls[it := s];
      forall c | 0 <= c < tiles.Length
        ensures own[c] < |chains| && SlotPlaced(tiles[..], own, lutSize, c)
      {
        assert c != it ==> SlotPlaced(ts, was, lutSize, c);
      }
    }

    /** Forgets a slot's tile, ages its salt and makes it the first free one. */
    method Reset(it: nat)
      requires Loose(it)
      requires forall salt :: AllPooled(tiles[..][it := Tile(salt, None)], links[..][it := LinkState([], 0)])
      modifies this`own, this`chains, tiles, links, next, heads
      ensures Sound() && links[..] == old(links[..])[it := LinkState([], 0)]
      ensures tiles[..] == old(tiles[..])[it := Tile(NextSalt(w.salt, old(tiles[..])[it].salt), None)]
      ensures chains == old(chains)[lutSize := old(chains)[lutSize] + [it]]
    {
      hide Good, ChainOk, AllFit, Spread, NextSalt, AllPooled;
      var t := Tile(NextSalt(w.salt, tiles[it].salt), None);
      SpreadUpdate(tiles[..], it, t);
      PutSlot(it, lutSize, t, LinkState([], 0));
    }

    /**
     Removes a tile. If no link dangled before, none does afterwards exactly when every tile that pointed at
     the removed one was among the first 32 of its cell's bucket, the removed tile not counted.
     */
    method RemoveTile(ref: nat) returns (status: Status)
      requires Sound()
      modifies this`own, this`chains, tiles, links, next, heads
      ensures Sound() && Filed(R(), old(State())) && status == RemoveStatus(w, old(tiles[..]), ref)
      ensures status != Success ==> State() == old(State()) && T() == old(T())
      ensures status == Success ==>
                Live(old(tiles[..]), DecodeTile(w, ref)) && State() == Removed(R(), old(State()), DecodeTile(w, ref))
      ensures status == Success && NoDangling(w, old(tiles[..]), old(links[..])) ==>
                (Valid() <==> forall c: nat :: Live(old(tiles[..]), c) && c != DecodeTile(w, ref)
                                               && PointsAt(w, old(links[..])[c], DecodeTile(w, ref))
                                ==> c in Reached(old(tiles[..]), old(chains), lutSize, DecodeTile(w, ref)))
      ensures NoDangling(w, old(tiles[..]), old(links[..])) && Roomy(old(tiles[..])) ==> Valid()
    {
      hide Good, TileHash, Placed, SlotPlaced, AllFit, Spread, Emptied, NoDangling, AllPooled, Crowded;
      hide PointsAt, Reached, Removed;
      SoundFiled(R(), State(), T());
      var it := DecodeTile(w, ref);
      if ref == 0 || it >= tiles.Length || tiles[it].salt != DecodeSalt(w, ref) {
        return InvalidParam;
      }
      if tiles[it].header.None? {
        return NullRead;
      }
      ghost var s := State();
      if NoDangling(w, s.ts, s.links) {
        RemovedExact(R(), s, it);
        if Roomy(s.ts) {
          RoomyReached(R(), s, T(), it);
        }
      }
      Discard(it);
      status := Success;
    }

    /** Takes a tile out of its bucket, unconnects the tiles around and frees its slot. */
    method Discard(it: nat)
      requires Sound() && Live(tiles[..], it)
      modifies this`own, this`chains, tiles, links, next, heads
      ensures Sound() && Filed(R(), old(State())) && State() == Removed(R(), old(State()), it)
    {
      hide Good, TileHash, Placed, SlotPlaced, AllFit, Spread, Emptied, AllPooled, SeenAround;
      ghost var s := State();
      SoundFiled(R(), s, T());
      Vacate(it);
      UnconnectAround(it);
      ghost var now := links[..];
      EmptiedPooled(w, s.ts, s.links, now, it, SeenAround(tiles[..], chains, lutSize, it));
      Reset(it);
      EmptiedIs(w, s.links, now, it, SeenAround(s.ts, Vacated(s.ts, s.chains, lutSize, it), lutSize, it));
    }

    // ---------- Adding a tile ----------

    /** Takes the first free slot, or with `lastRef` the slot it names, giving that slot its salt back. */
    method TakeSlot(lastRef: nat) returns (it: int)
      requires Sound()
      modifies this`own, this`chains, tiles, next, heads
      ensures Filed(R(), old(State())) && (it == NONE <==> NoSlot(w, old(tiles[..]), lastRef))
      ensures it == NONE ==> Sound() && State() == old(State()) && T() == old(T())
      ensures it != NONE ==> it == SlotFor(R(), old(State()), lastRef) && Loose(it)
                             && chains == old(chains)[lutSize := Minus<nat>(old(chains)[lutSize], it)]
                             && var salt := SaltFor(w, old(tiles[..])[it].salt, lastRef);
                                tiles[..] == old(tiles[..])[it := Tile(salt, None)]
    {
      hide Good, ChainOk, AllFit, Spread, TileHash, SlotPlaced, Placed, DecodeTile, AllPooled, Without, Minus;
      ghost var t, ts, k := T(), tiles[..], 0;
      var prev, found := NONE, true;
      SoundFiled(R(), State(), T());
      FreeChain(ts, t, lutSize);
      HeadOk(t, lutSize);
      if lastRef == 0 {
        it := heads[lutSize];
        found, k := it != NONE, |chains[lutSize]| - 1;
      } else {
        it := DecodeTile(w, lastRef);
        if it < tiles.Length {
          found, prev, k := FindSlot(lutSize, it);
        } else {
          found := false;
        }
      }
      if !found {
        return NONE;
      }
      UnlinkFits(t, lutSize, k);
      UnlinkSlot(lutSize, it, prev, k);
      AllButOne(ts, t, T(), lutSize, it, lutSize, k);
      UnlinkedChains(t, lutSize, k);
      SetSalt(it, lastRef);
    }

    method SetSalt(it: nat, lastRef: nat)
      requires Loose(it) && !Live(tiles[..], it)
      modifies tiles
      ensures Loose(it) && tiles[..] == old(tiles[..])[it := Tile(SaltFor(w, old(tiles[..])[it].salt, lastRef), None)]
    {
      hide Good, ChainOk, AllFit, Spread, TileHash;
      var t := Tile(SaltFor(w, tiles[it].salt, lastRef), None);
      SaltsFit(w, tiles[..], it, lastRef);
      SlotFitsUpdate(w, tiles[..], it, t);
      SpreadUpdate(tiles[..], it, t);
      ghost var ts := tiles[..];
      tiles[it] := t;
      assert tiles[..] == ts[it := t];
      forall c | 0 <= c < tiles.Length && c != it
        ensures SlotPlaced(tiles[..], own, lutSize, c)
      {
        assert SlotPlaced(ts, own, lutSize, c);
      }
    }

    /** Fills a loose slot with a tile that has no links yet. */
    method FillSlot(it: nat, h: Header, ghost ts: seq<Tile>, ghost ls: seq<LinkState>)
      requires Loose(it) && DataOk(h) && |h.polys| <= Pow2(w.poly) && links[..] == ls && AllPooled(ts, ls)
      requires it < |ts| && !Live(ts, it) && tiles[..] == ts[it := Tile(tiles[it].salt, None)]
      requires !exists t :: At(ts, t, h.x, h.y, h.layer)
      modifies this`own, this`chains, tiles, links, next, heads
      ensures Sound() && tiles[..] == ts[it := Tile(old(tiles[it].salt), Some(h))]
      ensures links[..] == ls[it := FreshLinks(|h.polys|, h.maxLinkCount)]
      ensures chains == old(chains)[TileHash(h.x, h.y, lutSize) := old(chains)[TileHash(h.x, h.y, lutSize)] + [it]]
      ensures NoDangling(w, ts, ls) ==> NoDangling(w, tiles[..], links[..])
    {
      hide Good, AllFit, NoDangling, DataOk, TileHash, SlotPlaced, Spread, AllPooled;
      var t, s := Tile(tiles[it].salt, Some(h)), FreshLinks(|h.polys|, h.maxLinkCount);
      assert tiles[..][it := t] == ts[it := t];
      SaltsFit(w, tiles[..], it, 0);
      forall a | a != it
        ensures !At(tiles[..], a, h.x, h.y, h.layer)
      {
        assert !At(ts, a, h.x, h.y, h.layer);
      }
      SpreadUpdate(tiles[..], it, t);
      PooledReplaced(ts, ls, it, t, s);
      PutSlot(it, TileHash(h.x, h.y, lutSize), t, s);
      if NoDangling(w, ts, ls) {
        AdditionOk(w, ts, ls, it, t, s);
      }
    }

    /** Links two tiles both ways across one side, or across all sides within a cell. */
    method ConnectPair(a: nat, b: nat, side: int, ghost was: seq<LinkState>)
      requires Linking(was) && -1 <= side < 8 && Live(tiles[..], a) && Live(tiles[..], b) && a != b
      requires Near(tiles[a].header.value, tiles[b].header.value)
      modifies links
      ensures Linking(was) && links[..] == PairLinked(R(), tiles[..], old(links[..]), a, b, side)
    {
      hide Linked, AllFit, OffMeshLinked, PushLists, Borders;
      ghost var l0 := links[..];
      BecomeNeighbours(w, tiles[..], was, l0, a);
      BecomeNeighbours(w, tiles[..], was, l0, b);
      ConnectExtLinks(a, b, side, was);
      ConnectExtLinks(b, a, OtherSide(side), was);
      assert links[..] == BordersLinked(R(), tiles[..], l0, a, b, side);
      ConnectExtOffMeshLinks(a, b, side, was);
      ConnectExtOffMeshLinks(b, a, OtherSide(side), was);
    }

    /** Links a tile to the first 32 tiles of a cell. */
    method ConnectCell(it: nat, cell: (int, int), side: int, ghost was: seq<LinkState>)
      requires Shaped() && Linking(was) && -1 <= side < 8 && Live(tiles[..], it)
      requires var h := tiles[it].header.value; -1 <= h.x - cell.0 <= 1 && -1 <= h.y - cell.1 <= 1
      modifies links
      ensures Linking(was)
      ensures links[..] == CellLinked(R(), tiles[..], old(links[..]), it,
                                      Seen(tiles[..], chains, lutSize, cell.0, cell.1), side)
    {
      hide Linked, AllFit, Good, TileHash, CellLinked, Seen, InCell, AtCell, FirstFew;
      var neis := GetTilesAt(cell.0, cell.1, MAX_NEIS);
      SeenNear(tiles[..], chains, lutSize, tiles[it].header.value, cell, neis);
      ConnectSeen(it, neis, side, was);
    }

    method ConnectSeen(it: nat, neis: seq<nat>, side: int, ghost was: seq<LinkState>)
      requires Linking(was) && -1 <= side < 8 && Live(tiles[..], it) && |tiles[..]| == |links[..]|
      requires AllNear(tiles[..], tiles[it].header.value, neis)
      modifies links
      ensures Linking(was) && links[..] == CellLinked(R(), tiles[..], old(links[..]), it, neis, side)
    {
      hide Linked, AllFit, PairLinked, CellLinked, PartLinked;
      ghost var l0 := links[..];
      NoneLinked(R(), tiles[..], l0, it, neis, side);
      for j := 0 to |neis|
        invariant Linking(was) && PartLinked(R(), tiles[..], l0, links[..], it, neis, j, side)
      {
        OneLinked(R(), tiles[..], l0, links[..], it, neis, j, side);
        if neis[j] != it {
          ConnectPair(it, neis[j], side, was);
        }
      }
      AllLinked(R(), tiles[..], l0, links[..], it, neis, side);
    }

    /** Links a new tile inside itself and with the tiles seen around it; older tiles only gain links. */
    method ConnectTile(it: nat)
      requires Shaped() && AllFit(w, tiles[..]) && AllPooled(tiles[..], links[..]) && Live(tiles[..], it)
      requires links[it] == FreshLinks(PolyCount(tiles[..], it), tiles[it].header.value.maxLinkCount)
      modifies links
      ensures Linking(old(links[..]))
      ensures links[..] == AroundLinked(R(), tiles[..], SelfLinked(R(), tiles[..], old(links[..]), it), chains, it, 8)
    {
      hide Good, AllFit, Linked, AroundLinked, BaseLinked, OffMeshLinked, AllPooled;
      ghost var was := links[..];
      LinkStart(w, tiles[..], was);
      ConnectIntLinks(it, was);
      BecomeNeighbours(w, tiles[..], was, links[..], it);
      BaseOffMeshLinks(it, was);
      ConnectExtOffMeshLinks(it, it, -1, was);
      ConnectAround(it, was);
    }

    /** Links a tile with the tiles of its own and the eight cells around. */
    method ConnectAround(it: nat, ghost was: seq<LinkState>)
      requires Shaped() && Linking(was) && Live(tiles[..], it)
      modifies links
      ensures Linking(was) && links[..] == AroundLinked(R(), tiles[..], old(links[..]), chains, it, 8)
    {
      hide Good, AllFit, Linked, CellLinked, CellBeside, Seen;
      ghost var l0 := links[..];
      var h := tiles[it].header.value;
      ConnectCell(it, (h.x, h.y), -1, was);
      for i := 0 to 8
        invariant Linking(was) && links[..] == AroundLinked(R(), tiles[..], l0, chains, it, i)
      {
        BesideIsNear(h.x, h.y, i);
        ConnectCell(it, CellBeside(h.x, h.y, i), i, was);
      }
    }

    /**
     Adds a tile, in the slot and with the salt of `lastRef` if that is not 0. Links with tiles in cells of at
     most 32 are all made as far as links lasted.
     */
    method AddTile(h: Header, lastRef: nat) returns (status: Status, result: nat, ghost slot: nat)
      requires Sound() && DataOk(h)
      modifies this`own, this`chains, tiles, links, next, heads
      ensures Sound() && Filed(R(), old(State())) && status == AddStatus(w, old(tiles[..]), h, lastRef)
      ensures NoDangling(w, old(tiles[..]), old(links[..])) ==> Valid()
      ensures status != Success ==> State() == old(State()) && T() == old(T())
      ensures status == Success ==> slot == SlotFor(R(), old(State()), lastRef) && result == Ref(slot, 0)
      ensures status == Success ==>
                State() == Added(R(), old(State()), slot, h, SaltFor(w, old(tiles[..])[slot].salt, lastRef))
      ensures status == Success ==>
                AllSewn(R(), tiles[..], SelfLinked(R(), tiles[..], old(links[..]), slot), links[..], slot)
                && TileInside(w, tiles[slot], slot, links[slot])
      ensures status == Success ==> (result == 0 <==> lastRef != 0 && DecodeSalt(w, lastRef) == 0 && slot == 0)
      ensures status == Success ==> DecodeTile(w, result) == slot && DecodePoly(w, result) == 0
                                    && DecodeSalt(w, result) == tiles[slot].salt
      ensures status == Success && lastRef == 0 ==> tiles[slot].salt == old(tiles[..])[slot].salt
      ensures status == Success && lastRef != 0 && Fits(w, lastRef) && DecodePoly(w, lastRef) == 0 ==> result == lastRef
    {
      hide Good, AllFit, NoDangling, DataOk, TileHash, SlotPlaced, Placed, Spread, DecodeTile, DecodeSalt;
      hide EncodePolyId, AllPooled;
      hide SelfLinked, AroundLinked, AllSewn, Linked, Minus, TileInside;
      result, slot := 0, 0;
      SoundFiled(R(), State(), T());
      if h.magic != NAVMESH_MAGIC {
        return WrongMagic, 0, 0;
      }
      if h.version != NAVMESH_VERSION {
        return WrongVersion, 0, 0;
      }
      if |h.polys| > Pow2(w.poly) {
        return InvalidParam, 0, 0;
      }
      FreeSalted(tiles[..], own, lutSize);
      var there := GetTileAt(h.x, h.y, h.layer);
      if there != NONE {
        return AlreadyOccupied, 0, 0;
      }
      var it := TakeSlot(lastRef);
      if it == NONE {
        return OutOfMemory, 0, 0;
      }
      PlaceTile(it, h, old(State()));
      slot, result := it, Ref(it, 0);
      NotNull(w, tiles[it].salt, it, 0);
      RefRestored(w, tiles[..], it, lastRef);
      status := Success;
    }

    /** Puts a tile into the slot taken for it and links it. */
    method PlaceTile(it: nat, h: Header, ghost s: Mesh)
      requires Loose(it) && DataOk(h) && |h.polys| <= Pow2(w.poly) && Filed(R(), s) && AllPooled(s.ts, s.links)
      requires it < |s.ts| && !Live(s.ts, it) && tiles[..] == s.ts[it := Tile(tiles[it].salt, None)]
      requires links[..] == s.links && chains == s.chains[lutSize := Minus<nat>(s.chains[lutSize], it)]
      requires !exists t :: At(s.ts, t, h.x, h.y, h.layer)
      modifies this`own, this`chains, tiles, links, next, heads
      ensures Sound() && (NoDangling(w, s.ts, s.links) ==> Valid())
      ensures State() == Added(R(), s, it, h, old(tiles[it].salt))
      ensures AllSewn(R(), tiles[..], SelfLinked(R(), tiles[..], s.links, it), links[..], it)
      ensures TileInside(w, tiles[it], it, links[it])
    {
      hide Good, AllFit, NoDangling, DataOk, TileHash, SlotPlaced, Placed, Spread, AllPooled, SelfLinked;
      hide AroundLinked, Minus;
      hide AllSewn, TileInside;
      FillSlot(it, h, s.ts, s.links);
      ghost var was := links[..];
      ConnectTile(it);
      SelfLinkedAnew(R(), tiles[..], s.links, it, was[it]);
      Sewn(R(), tiles[..], was, T(), it);
      SewnInside(R(), tiles[..], was, chains, it);
    }
  }

  lemma PushNone(s: LinkState, p: nat, ls: seq<Link>)
    ensures PushAll(s, p, ls[..0]) == s
  {
  }

  lemma PushNext(s: LinkState, p: nat, ls: seq<Link>, k: nat)
    requires k < |ls|
    ensures PushAll(s, p, ls[..k + 1]) == PushLink(PushAll(s, p, ls[..k]), p, ls[k])
  {
    PushAllLast(s, p, ls[..k], ls[k]);
    assert ls[..k + 1] == ls[..k] + [ls[k]];
  }

  /** A tile's reference names its slot and salt; one with a restored salt is the reference it was restored from. */
  lemma RefRestored(w: Bits, ts: seq<Tile>, it: nat, lastRef: nat)
    requires AllFit(w, ts) && it < |ts|
    ensures var ref := EncodePolyId(w, ts[it].salt, it, 0);
            DecodeTile(w, ref) == it && DecodePoly(w, ref) == 0 && DecodeSalt(w, ref) == ts[it].salt
    ensures ts[it].salt == DecodeSalt(w, lastRef) && it == DecodeTile(w, lastRef) && Fits(w, lastRef)
            && DecodePoly(w, lastRef) == 0
            ==> EncodePolyId(w, ts[it].salt, it, 0) == lastRef
  {
    hide Pow2, EncodePolyId, DecodeTile, DecodePoly, DecodeSalt;
    assert TileFits(w, ts[it]);
    Pow2Positive(w.poly);
    DecodeEncode(w, ts[it].salt, it, 0);
    if Fits(w, lastRef) {
      EncodeDecode(w, lastRef);
    }
  }

  /** An internal edge leads to a polygon of the same tile. */
  lemma InternalTarget(w: Bits, ts: seq<Tile>, a: nat, i: nat, j: nat)
    requires AllFit(w, ts) && Live(ts, a) && i < PolyCount(ts, a)
    requires j < |ts[a].header.value.polys[i].neis| && InternalEdge(ts[a].header.value.polys[i].neis[j])
    ensures RefOk(w, ts, a, EncodePolyId(w, ts[a].salt, a, ts[a].header.value.polys[i].neis[j] - 1))
  {
    assert TileFits(w, ts[a]);
    var h := ts[a].header.value;
    assert PolyDataOk(h.polys[i], |h.polys|);
    MintedOk(w, ts, a, a, h.polys[i].neis[j] - 1);
  }

  lemma ConsFit(w: Bits, ts: seq<Tile>, a: nat, i: nat)
    requires AllFit(w, ts) && Live(ts, a) && i < |ts[a].header.value.offMeshCons|
    ensures ts[a].header.value.offMeshCons[i].poly < PolyCount(ts, a)
  {
    assert TileFits(w, ts[a]);
  }

  /** Taking slot `it` out of its chain leaves every other slot where it was. */
  lemma AllButOne(ts: seq<Tile>, t: Table, u: Table, lutSize: nat, it: nat, p: nat, k: nat)
    requires Whole(t) && p < |t.chains| && k < |t.chains[p]| && it == t.chains[p][k] && u == Unlinked(t, p, k)
    requires Placed(ts, t.own, lutSize)
    ensures |u.own| == |ts| && |u.chains| == |t.chains| && it < |ts| && u.own[it] == |t.chains|
    ensures forall c :: 0 <= c < |ts| && c != it ==> u.own[c] < |t.chains| && SlotPlaced(ts, u.own, lutSize, c)
  {
    hide Good, TileHash;
    UnlinkGood(t, p, k);
    forall c | 0 <= c < |ts| && c != it
      ensures u.own[c] < |t.chains| && SlotPlaced(ts, u.own, lutSize, c)
    {
      SlotsPlaced(ts, t.own, lutSize, c);
    }
  }

  lemma HeadOk(t: Table, p: nat)
    requires Good(t) && p < |t.chains|
    ensures t.heads[p] == Top(t.chains[p])
  {
    assert ChainOk(t, p);
  }

  lemma SlotsPlaced(ts: seq<Tile>, own: seq<nat>, lutSize: nat, t: nat)
    requires Placed(ts, own, lutSize) && t < |ts|
    ensures SlotPlaced(ts, own, lutSize, t)
  {
  }

  lemma FreeSalted(ts: seq<Tile>, own: seq<nat>, lutSize: nat)
    requires Placed(ts, own, lutSize)
    ensures forall t: nat :: t < |ts| && !Live(ts, t) ==> ts[t].salt > 0
  {
    forall t: nat | t < |ts| && !Live(ts, t)
      ensures ts[t].salt > 0
    {
      assert SlotPlaced(ts, own, lutSize, t);
    }
  }

  lemma AtCellStep(ts: seq<Tile>, c: seq<nat>, k: nat, x: int, y: int, found: seq<nat>)
    requires 0 < k <= |c| && found + AtCell(ts, c[..k], x, y) == AtCell(ts, c, x, y)
    ensures (if InCell(ts, c[k - 1], x, y) then found + [c[k - 1]] else found) + AtCell(ts, c[..k - 1], x, y)
            == AtCell(ts, c, x, y)
  {
    assert c[..k][..k - 1] == c[..k - 1] && c[..k][k - 1] == c[k - 1];
  }

  lemma AtCellEnd(ts: seq<Tile>, c: seq<nat>, x: int, y: int)
    ensures AtCell(ts, c[..0], x, y) == []
  {
  }

  /** Unconnecting one more tile, or one of them again. */
  lemma UnconnectStep(w: Bits, was: seq<LinkState>, now: seq<LinkState>, it: nat, done: set<nat>, a: nat)
    requires Emptied(w, was, now, it, done) && a < |was| && a != it
    ensures Emptied(w, was, now[a := Unconnected(now[a], LeadsTo(w, it))], it, done + {a})
  {
    hide Unconnected;
    UnconnectedTwice(was[a], LeadsTo(w, it));
  }

  lemma NoneEmptied(w: Bits, was: seq<LinkState>, it: nat)
    ensures Emptied(w, was, was, it, {})
  {
  }

  /** The free chain holds exactly the slots without a tile. */
  lemma FreeChain(ts: seq<Tile>, t: Table, lutSize: nat)
    requires Whole(t) && |t.chains| == lutSize + 1 && Placed(ts, t.own, lutSize)
    ensures forall i: nat :: i in t.chains[lutSize] <==> i < |ts| && !Live(ts, i)
    ensures Top(t.chains[lutSize]) == NONE <==> forall i: nat :: i < |ts| ==> Live(ts, i)
  {
    hide TileHash;
    var c := t.chains[lutSize];
    assert ChainOk(t, lutSize);
    forall i: nat
      ensures i in c <==> i < |ts| && !Live(ts, i)
    {
      if i < |ts| {
        SlotsPlaced(ts, t.own, lutSize, i);
        assert SlotOk(t, i);
      }
    }
    assert c != [] ==> c[|c| - 1] in c;
  }

  lemma SaltsFit(w: Bits, ts: seq<Tile>, it: nat, lastRef: nat)
    requires AllFit(w, ts) && it < |ts|
    ensures ts[it].salt < Pow2(w.salt) && DecodeSalt(w, lastRef) < Pow2(w.salt)
  {
    assert TileFits(w, ts[it]);
  }

  lemma BecomeNeighbours(w: Bits, ts: seq<Tile>, was: seq<LinkState>, now: seq<LinkState>, a: nat)
    requires Linked(w, ts, was, now) && Live(ts, a)
    ensures a < |now| == |ts| && |now[a].lists| == PolyCount(ts, a)
  {
    LinksConserved(ts, now, a);
  }

  lemma BesideIsNear(x: int, y: int, side: nat)
    ensures var cell := CellBeside(x, y, side); -1 <= x - cell.0 <= 1 && -1 <= y - cell.1 <= 1
  {
  }

  lemma AllEmpty(w: Bits, ts: seq<Tile>, links: seq<LinkState>, own: seq<nat>, lutSize: nat)
    requires w.salt >= 1 && lutSize > 0 && |ts| == |links| == |own| && |ts| <= Pow2(w.tile)
    requires forall i :: 0 <= i < |ts| ==> ts[i] == Tile(1, None) && own[i] == lutSize
    ensures Placed(ts, own, lutSize) && AllFit(w, ts) && Spread(ts) && NoDangling(w, ts, links) && AllPooled(ts, links)
  {
    assert Pow2(w.salt) >= 2;
    forall i | 0 <= i < |ts|
      ensures TileFits(w, ts[i])
    {
    }
  }

  // ---------- Removal, in values ----------

  /** The tiles seen in a cell, without one. */
  function Others(ts: seq<Tile>, chains: seq<seq<nat>>, lutSize: nat, it: nat, cell: (int, int)): set<nat>
    requires lutSize > 0 && |chains| == lutSize + 1
  {
    OthersOf(Seen(ts, chains, lutSize, cell.0, cell.1), it)
  }

  function OthersOf(neis: seq<nat>, it: nat): set<nat> { set c | c in neis && c != it }

  lemma OneOther(done: set<nat>, neis: seq<nat>, j: nat, it: nat)
    requires j < |neis|
    ensures done + OthersOf(neis[..j + 1], it)
            == if neis[j] == it then done + OthersOf(neis[..j], it) else done + OthersOf(neis[..j], it) + {neis[j]}
  {
    assert neis[..j + 1] == neis[..j] + [neis[j]];
  }

  lemma SeenOthers(ts: seq<Tile>, chains: seq<seq<nat>>, lutSize: nat, it: nat, cell: (int, int), neis: seq<nat>)
    requires lutSize > 0 && |chains| == lutSize + 1
    requires neis == FirstFew(AtCell(ts, chains[TileHash(cell.0, cell.1, lutSize)], cell.0, cell.1), MAX_NEIS)
    ensures neis == Seen(ts, chains, lutSize, cell.0, cell.1) && forall k :: 0 <= k < |neis| ==> neis[k] < |ts|
    ensures OthersOf(neis[..0], it) == {} && OthersOf(neis[..|neis|], it) == Others(ts, chains, lutSize, it, cell)
  {
    hide TileHash;
    SeenLive(ts, chains, lutSize, cell.0, cell.1);
    assert neis[..0] == [] && neis[..|neis|] == neis;
  }

  lemma SeenLive(ts: seq<Tile>, chains: seq<seq<nat>>, lutSize: nat, x: int, y: int)
    requires lutSize > 0 && |chains| == lutSize + 1
    ensures forall k :: 0 <= k < |Seen(ts, chains, lutSize, x, y)| ==> Seen(ts, chains, lutSize, x, y)[k] < |ts|
  {
    hide TileHash;
    assert forall k :: 0 <= k < |Seen(ts, chains, lutSize, x, y)| ==>
      InCell(ts, Seen(ts, chains, lutSize, x, y)[k], x, y);
  }

  /** The tiles seen in a cell next to this one are live and near. */
  lemma SeenNear(ts: seq<Tile>, chains: seq<seq<nat>>, lutSize: nat, h: Header, cell: (int, int), neis: seq<nat>)
    requires lutSize > 0 && |chains| == lutSize + 1 && -1 <= h.x - cell.0 <= 1 && -1 <= h.y - cell.1 <= 1
    requires neis == FirstFew(AtCell(ts, chains[TileHash(cell.0, cell.1, lutSize)], cell.0, cell.1), MAX_NEIS)
    ensures neis == Seen(ts, chains, lutSize, cell.0, cell.1)
    ensures AllNear(ts, h, neis)
  {
    hide TileHash;
    assert neis == Seen(ts, chains, lutSize, cell.0, cell.1);
    assert forall k :: 0 <= k < |neis| ==> InCell(ts, neis[k], cell.0, cell.1);
  }

  ghost predicate AllNear(ts: seq<Tile>, h: Header, neis: seq<nat>) {
    forall k :: 0 <= k < |neis| ==> Live(ts, neis[k]) && Near(h, ts[neis[k]].header.value)
  }

  /** The first `j` of these tiles are linked with tile `it`. */
  ghost predicate PartLinked(r: Rules, ts: seq<Tile>, was: seq<LinkState>, now: seq<LinkState>, it: nat, neis: seq<nat>,
                             j: nat, side: int) {
    && Live(ts, it) && |was| == |ts| && -1 <= side < 8 && j <= |neis| && AllNear(ts, ts[it].header.value, neis)
    && now == CellLinked(r, ts, was, it, neis[..j], side)
  }

  lemma NoneLinked(r: Rules, ts: seq<Tile>, links: seq<LinkState>, it: nat, neis: seq<nat>, side: int)
    requires Live(ts, it) && |links| == |ts| && -1 <= side < 8 && AllNear(ts, ts[it].header.value, neis)
    ensures PartLinked(r, ts, links, links, it, neis, 0, side)
  {
  }

  lemma OneLinked(r: Rules, ts: seq<Tile>, was: seq<LinkState>, now: seq<LinkState>, it: nat, neis: seq<nat>, j: nat,
                  side: int)
    requires PartLinked(r, ts, was, now, it, neis, j, side) && j < |neis|
    ensures Live(ts, neis[j]) && |now| == |ts| && Near(ts[it].header.value, ts[neis[j]].header.value)
    ensures var next := if neis[j] == it then now else PairLinked(r, ts, now, it, neis[j], side);
            PartLinked(r, ts, was, next, it, neis, j + 1, side)
  {
    hide PairLinked;
    assert neis[..j + 1][..j] == neis[..j];
  }

  lemma AllLinked(r: Rules, ts: seq<Tile>, was: seq<LinkState>, now: seq<LinkState>, it: nat, neis: seq<nat>, side: int)
    requires PartLinked(r, ts, was, now, it, neis, |neis|, side)
    ensures now == CellLinked(r, ts, was, it, neis, side)
  {
    assert neis[..|neis|] == neis;
  }

  /** The tiles of the eight cells around and of the tile's own are the near ones. */
  lemma AllSides(ts: seq<Tile>, chains: seq<seq<nat>>, lutSize: nat, it: nat, done: set<nat>)
    requires Live(ts, it) && lutSize > 0 && |chains| == lutSize + 1
    requires var h := ts[it].header.value;
             forall c :: c in done <==> exists side ::
               (0 <= side < 8 || side == 8) && c in Others(ts, chains, lutSize, it, CellBeside(h.x, h.y, side))
    ensures done == SeenAround(ts, chains, lutSize, it)
  {
    hide Seen;
    var h := ts[it].header.value;
    forall c: nat
      ensures c in done <==> c < |ts| && SeenFrom(ts, chains, lutSize, it, c)
    {
      if c in done {
        var side :| 0 <= side <= 8 && c in Others(ts, chains, lutSize, it, CellBeside(h.x, h.y, side));
        BesideIsNear(h.x, h.y, side);
      }
      if SeenFrom(ts, chains, lutSize, it, c) {
        var side := NearCells(h, ts[c].header.value);
        assert c in Others(ts, chains, lutSize, it, CellBeside(h.x, h.y, side));
      }
    }
  }

  /** Bypassing a slot takes it out of its chain, which keeps its order. */
  lemma UnlinkedChains(t: Table, p: nat, k: nat)
    requires Good(t) && p < |t.chains| && k < |t.chains[p]|
    ensures Unlinked(t, p, k).chains == t.chains[p := Minus(t.chains[p], t.chains[p][k])]
  {
    hide Without, Minus;
    UnlinkGood(t, p, k);
    assert ChainOk(t, p);
    MinusAt(t.chains[p], k);
  }

  lemma EmptiedPooled(w: Bits, ts: seq<Tile>, was: seq<LinkState>, now: seq<LinkState>, it: nat, done: set<nat>)
    requires AllPooled(ts, was) && Emptied(w, was, now, it, done) && it < |ts|
    ensures forall salt :: AllPooled(ts[it := Tile(salt, None)], now[it := LinkState([], 0)])
  {
    hide Pooled, Unconnected;
    forall salt
      ensures AllPooled(ts[it := Tile(salt, None)], now[it := LinkState([], 0)])
    {
      var ts', now' := ts[it := Tile(salt, None)], now[it := LinkState([], 0)];
      forall a | 0 <= a < |ts|
        ensures SlotPooled(ts', now', a)
      {
        assert SlotPooled(ts, was, a);
        if a != it && Live(ts, a) && a in done {
          assert now[a] == Apply(was[a], Drop(LeadsTo(w, it)));
          PooledStep(was[a], PolyCount(ts, a), ts[a].header.value.maxLinkCount, Drop(LeadsTo(w, it)));
        }
      }
    }
  }

  lemma EmptiedIs(w: Bits, was: seq<LinkState>, now: seq<LinkState>, it: nat, done: set<nat>)
    requires Emptied(w, was, now, it, done) && it < |now|
    ensures now[it := LinkState([], 0)] == Emptying(w, was, it, done)
  {
    hide Unconnected;
  }

  /** With at most 32 tiles in every cell, removal reaches everything that points at the tile. */
  lemma RoomyReached(r: Rules, s: Mesh, t: Table, it: nat)
    requires Good(t) && t.chains == s.chains && |t.chains| == r.lutSize + 1 && r.lutSize > 0
    requires Placed(s.ts, t.own, r.lutSize) && NoDangling(r.w, s.ts, s.links) && Live(s.ts, it) && Roomy(s.ts)
    ensures forall c: nat :: Live(s.ts, c) && c != it && PointsAt(r.w, s.links[c], it) ==>
              c in Reached(s.ts, s.chains, r.lutSize, it)
  {
    hide Crowded, PointsAt, LinksOk, Good, Vacated, Seen;
    forall c: nat | Live(s.ts, c) && c != it && PointsAt(r.w, s.links[c], it)
      ensures c in Reached(s.ts, s.chains, r.lutSize, it)
    {
      assert LinksOk(r.w, s.ts, c, s.links[c]);
      OnlyNearPoint(r.w, s.ts, s.links[c], c, it);
      var h := s.ts[c].header.value;
      assert SlotPlaced(s.ts, t.own, r.lutSize, c);
      StillSeen(s.ts, t, r.lutSize, it, c, h.x, h.y);
    }
  }

  /** A tile of a roomy cell is still seen when another one has left its bucket. */
  lemma StillSeen(ts: seq<Tile>, t: Table, lutSize: nat, it: nat, c: nat, x: int, y: int)
    requires Good(t) && |t.chains| == lutSize + 1 && |ts| == |t.own| && lutSize > 0 && Live(ts, it) && c != it
    requires InCell(ts, c, x, y) && SlotPlaced(ts, t.own, lutSize, c) && Crowded(ts, x, y) <= MAX_NEIS
    ensures c in Seen(ts, Vacated(ts, t.chains, lutSize, it), lutSize, x, y)
  {
    hide TileHash, SlotPlaced, Minus, AtCell;
    InItsBucket(ts, t, lutSize, c, x, y);
    var b := TileHash(x, y, lutSize);
    var d := Vacated(ts, t.chains, lutSize, it)[b];
    MinusMeans(t.chains[b], it, c);
    AtCellMeans(ts, d, x, y, c);
    assert ChainOk(t, b);
    MinusOnce(t.chains[b], it);
    AtCellCount(ts, d, x, y);
    FewerHere(ts, d, x, y);
  }

  lemma {:induction false} MinusOnce(s: seq<nat>, x: nat)
    requires forall i, j :: 0 <= i < j < |s| ==> s[i] != s[j]
    ensures var m := Minus(s, x); forall i, j :: 0 <= i < j < |m| ==> m[i] != m[j]
  {
    if s != [] {
      var d := s[..|s| - 1];
      MinusOnce(d, x);
      forall i | 0 <= i < |Minus(d, x)|
        ensures Minus(d, x)[i] != s[|s| - 1]
      {
        MinusMeans(d, x, Minus(d, x)[i]);
      }
    }
  }

  /** In a sound mesh the free list is right. */
  lemma SoundFiled(r: Rules, s: Mesh, t: Table)
    requires Whole(t) && t.chains == s.chains && |t.chains| == r.lutSize + 1 && r.lutSize > 0
    requires Placed(s.ts, t.own, r.lutSize) && |s.ts| == |s.links|
    ensures Filed(r, s)
  {
    FreeChain(s.ts, t, r.lutSize);
  }

  /** Linking a new tile all around makes every wanted link, as far as links lasted. */
  lemma Sewn(r: Rules, ts: seq<Tile>, was: seq<LinkState>, t: Table, it: nat)
    requires AllPooled(ts, was) && Live(ts, it)
    requires was[it] == FreshLinks(PolyCount(ts, it), ts[it].header.value.maxLinkCount)
    requires Good(t) && |t.chains| == r.lutSize + 1 && r.lutSize > 0 && Placed(ts, t.own, r.lutSize)
    ensures var inside := SelfLinked(r, ts, was, it);
            AllSewn(r, ts, inside, AroundLinked(r, ts, inside, t.chains, it, 8), it)
  {
    hide Good, AllPooled, Placed, SelfLinked, AroundLinked, SideSewn;
    PooledListed(ts, was);
    SelfListed(r, ts, was, it);
    AroundSews(r, ts, SelfLinked(r, ts, was, it), t, it, 8);
  }

  /** Linking inside a tile keeps one list per polygon, and starts with the internal edges. */
  lemma SelfListed(r: Rules, ts: seq<Tile>, was: seq<LinkState>, it: nat)
    requires AllListed(ts, was) && Live(ts, it)
    ensures AllListed(ts, SelfLinked(r, ts, was, it))
    ensures var h := ts[it].header.value;
            var inside := IntLinked(r.w, ts[it].salt, it, h.polys, FreshLinks(|h.polys|, h.maxLinkCount), |h.polys|);
            AllGrow(was[it := inside], SelfLinked(r, ts, was, it))
  {
    hide BaseLinked, OffMeshLinked, IntLinked, AllGrow;
    var h := ts[it].header.value;
    var l1 := was[it := IntLinked(r.w, ts[it].salt, it, h.polys, FreshLinks(|h.polys|, h.maxLinkCount), |h.polys|)];
    assert AllListed(ts, l1);
    BaseJoins(r.nearest, r.w, ts, l1, it, |h.offMeshCons|);
    var l2 := BaseLinked(r.nearest, r.w, ts, l1, it, |h.offMeshCons|);
    GrownListed(ts, l1, l2);
    AllCons(r.nearest, r.w, ts, l2, it, it, -1);
    GrownListed(ts, l2, SelfLinked(r, ts, was, it));
    GrowBoth(l1, l2, SelfLinked(r, ts, was, it));
  }

  /** A new tile's polygons are linked across their internal edges first. */
  lemma SewnInside(r: Rules, ts: seq<Tile>, was: seq<LinkState>, chains: seq<seq<nat>>, it: nat)
    requires AllPooled(ts, was) && Live(ts, it) && AllFit(r.w, ts) && |chains| == r.lutSize + 1 && r.lutSize > 0
    ensures TileInside(r.w, ts[it], it, AroundLinked(r, ts, SelfLinked(r, ts, was, it), chains, it, 8)[it])
  {
    hide AllPooled, SelfLinked, AroundLinked, TileInside, IntLinked, Grows, TileFits, Pow2;
    var h := ts[it].header.value;
    var inside := IntLinked(r.w, ts[it].salt, it, h.polys, FreshLinks(|h.polys|, h.maxLinkCount), |h.polys|);
    PooledListed(ts, was);
    assert TileFits(r.w, ts[it]);
    FreshInside(r.w, ts[it], it);
    SelfListed(r, ts, was, it);
    var self := SelfLinked(r, ts, was, it);
    assert Grows(was[it := inside][it], self[it]);
    TileInsideGrows(r.w, ts[it], it, inside, self[it]);
    AroundGrows(r, ts, self, chains, it, 8);
    var now := AroundLinked(r, ts, self, chains, it, 8);
    assert Grows(self[it], now[it]);
    TileInsideGrows(r.w, ts[it], it, self[it], now[it]);
  }

  // ---------- Whole runs ----------

  ghost predicate Roomy(ts: seq<Tile>) {
    forall x, y :: Crowded(ts, x, y) <= 32
  }

  /** No tile is removed while a cell holds more than 32. */
  ghost predicate RoomyRun(r: Rules, s: Mesh, ops: seq<MeshOp>)
    requires Filed(r, s)
  {
    forall k :: 0 <= k < |ops| && ops[k].Remove? ==> Roomy(DoAll(r, s, ops[..k]).ts)
  }

  /**
   Any run of additions and removals does what the operations do on values; if every removal happens while no
   cell holds more than 32 tiles, at no time does a link dangle.
   */
  method Run(mesh: NavMesh, ops: seq<MeshOp>)
    requires mesh.Sound() && Filed(mesh.R(), mesh.State())
    requires forall k :: 0 <= k < |ops| && ops[k].Add? ==> DataOk(ops[k].h)
    modifies mesh`own, mesh`chains, mesh.tiles, mesh.links, mesh.next, mesh.heads
    ensures mesh.Sound() && mesh.State() == DoAll(mesh.R(), old(mesh.State()), ops)
    ensures old(mesh.Valid()) && RoomyRun(mesh.R(), old(mesh.State()), ops) ==> mesh.Valid()
  {
    ghost var s, r := mesh.State(), mesh.R();
    for i := 0 to |ops|
      invariant mesh.Sound() && mesh.State() == DoAll(r, s, ops[..i])
      invariant old(mesh.Valid()) && RoomyRun(r, s, ops) ==> mesh.Valid()
    {
      assert ops[..i + 1][..i] == ops[..i];
      Step(mesh, ops[i]);
    }
    assert ops[..|ops|] == ops;
  }

  method Step(mesh: NavMesh, op: MeshOp)
    requires mesh.Sound() && (op.Add? ==> DataOk(op.h))
    modifies mesh`own, mesh`chains, mesh.tiles, mesh.links, mesh.next, mesh.heads
    ensures mesh.Sound() && Filed(mesh.R(), old(mesh.State())) && mesh.State() == Do(mesh.R(), old(mesh.State()), op)
    ensures old(mesh.Valid()) && (op.Remove? ==> Roomy(old(mesh.tiles[..]))) ==> mesh.Valid()
  {
    hide DataOk, AllFit, NoDangling, AllPooled, Placed, Spread, Good, AllSewn, SelfLinked, PointsAt, Removed;
    hide Added, Roomy;
    match op
    case Remove(ref) =>
      var _ := mesh.RemoveTile(ref);
    case Add(h, lastRef) =>
      var _, _, _ := mesh.AddTile(h, lastRef);
  }
}
