/** The tiles of a mesh as values: their headers, their links, and when no link dangles. */
module TileMesh {
  import opened Chains
  import opened Collections
  import opened Division
  import opened PolyRef
  import opened TileLinks

  /** An off-mesh connection: its polygon in its own tile, the side its end lies on, and its direction. */
  datatype OffMeshCon = OffMeshCon(poly: nat, side: nat, bidir: bool)

  type Half = n: nat | n < 0x10000

  /** A polygon: for each edge 0, a neighbour's index plus one, or `EXT_LINK` plus a direction. */
  datatype PolyDef = PolyDef(offMesh: bool, neis: seq<Half>)

  /** A tile's data; `shape` stands for its vertices, which only the geometric tests look at. */
  datatype Header = Header(magic: int, version: int, x: int, y: int, layer: int,
                           polys: seq<PolyDef>, maxLinkCount: nat, offMeshCons: seq<OffMeshCon>, shape: nat)

  /** A tile slot; one without a header is free. */
  datatype Tile = Tile(salt: nat, header: Option<Header>)

  const EXT_LINK := 0x8000
  const NO_SIDE := 0xff

  // ---------- Well-formed data ----------

  predicate InternalEdge(nei: nat) { 0 < nei < EXT_LINK }

  ghost predicate PolyDataOk(p: PolyDef, polyCount: nat) {
    forall j :: 0 <= j < |p.neis| && InternalEdge(p.neis[j]) ==> p.neis[j] <= polyCount
  }

  /** What the mesh takes for granted about the data it is given. */
  ghost predicate DataOk(h: Header) {
    && h.maxLinkCount > 0
    && (forall p :: 0 <= p < |h.polys| ==> PolyDataOk(h.polys[p], |h.polys|))
    && (forall i :: 0 <= i < |h.offMeshCons| ==> h.offMeshCons[i].poly < |h.polys|)
  }

  /** The slot's fields fit the reference format. */
  ghost predicate TileFits(w: Bits, t: Tile) {
    t.salt < Pow2(w.salt) && (t.header.Some? ==> DataOk(t.header.value) && |t.header.value.polys| <= Pow2(w.poly))
  }

  ghost predicate AllFit(w: Bits, ts: seq<Tile>) {
    |ts| <= Pow2(w.tile) && forall i {:trigger TileFits(w, ts[i])} :: 0 <= i < |ts| ==> TileFits(w, ts[i])
  }

  predicate Live(ts: seq<Tile>, a: nat) { a < |ts| && ts[a].header.Some? }

  function PolyCount(ts: seq<Tile>, a: nat): nat
    requires Live(ts, a)
  {
    |ts[a].header.value.polys|
  }

  // ---------- Dangling links ----------

  predicate Near(a: Header, b: Header) { -1 <= a.x - b.x <= 1 && -1 <= a.y - b.y <= 1 }

  /** The reference names a polygon of a live tile in the same or a neighbouring cell, with its current salt. */
  predicate RefOk(w: Bits, ts: seq<Tile>, a: nat, ref: nat) {
    var it := DecodeTile(w, ref);
    && Live(ts, a) && Live(ts, it) && DecodeSalt(w, ref) == ts[it].salt
    && DecodePoly(w, ref) < PolyCount(ts, it) && Near(ts[a].header.value, ts[it].header.value)
  }

  ghost predicate ListOk(w: Bits, ts: seq<Tile>, a: nat, l: seq<Link>) {
    forall k :: 0 <= k < |l| ==> RefOk(w, ts, a, l[k].ref)
  }

  /** The links of slot `a`, one list per polygon, are all good. */
  ghost predicate LinksOk(w: Bits, ts: seq<Tile>, a: nat, s: LinkState) {
    Live(ts, a) ==> |s.lists| == PolyCount(ts, a) && forall p :: 0 <= p < |s.lists| ==> ListOk(w, ts, a, s.lists[p])
  }

  ghost predicate NoDangling(w: Bits, ts: seq<Tile>, links: seq<LinkState>) {
    |ts| == |links| && forall a {:trigger LinksOk(w, ts, a, links[a])} :: 0 <= a < |ts| ==> LinksOk(w, ts, a, links[a])
  }

  /** A freshly minted reference is good. */
  lemma MintedOk(w: Bits, ts: seq<Tile>, a: nat, b: nat, q: nat)
    requires AllFit(w, ts) && Live(ts, a) && Live(ts, b) && q < PolyCount(ts, b)
    requires Near(ts[a].header.value, ts[b].header.value)
    ensures RefOk(w, ts, a, EncodePolyId(w, ts[b].salt, b, q))
    ensures DecodePoly(w, EncodePolyId(w, ts[b].salt, b, q)) == q
    ensures DecodeTile(w, EncodePolyId(w, ts[b].salt, b, q)) == b
  {
    assert TileFits(w, ts[b]);
    DecodeEncode(w, ts[b].salt, b, q);
  }

  // ---------- Links only come ----------

  /** Every list of `was` is the older part of the same list of `now`. */
  ghost predicate Grows(was: LinkState, now: LinkState) {
    && |was.lists| == |now.lists| && now.free <= was.free
    && forall p :: 0 <= p < |was.lists| ==> was.lists[p] <= now.lists[p]
  }

  ghost predicate AllGrow(was: seq<LinkState>, now: seq<LinkState>) {
    |was| == |now| && forall a {:trigger Grows(was[a], now[a])} :: 0 <= a < |was| ==> Grows(was[a], now[a])
  }

  /** The links of slot `a` are what some history of changes makes of its tile's empty link buffer. */
  ghost predicate SlotPooled(ts: seq<Tile>, links: seq<LinkState>, a: nat) {
    a < |links| && (Live(ts, a) ==> Pooled(links[a], PolyCount(ts, a), ts[a].header.value.maxLinkCount))
  }

  ghost predicate AllPooled(ts: seq<Tile>, links: seq<LinkState>) {
    && |ts| == |links|
    && forall a {:trigger SlotPooled(ts, links, a)} :: 0 <= a < |ts| ==> SlotPooled(ts, links, a)
  }

  lemma PooledUpdate(ts: seq<Tile>, links: seq<LinkState>, a: nat, op: LinkOp)
    requires AllPooled(ts, links) && a < |links|
    ensures AllPooled(ts, links[a := Apply(links[a], op)])
  {
    hide Pooled, Apply;
    var now := links[a := Apply(links[a], op)];
    forall b | 0 <= b < |ts|
      ensures SlotPooled(ts, now, b)
    {
      assert SlotPooled(ts, links, b);
      if b == a && Live(ts, a) {
        PooledStep(links[a], PolyCount(ts, a), ts[a].header.value.maxLinkCount, op);
      }
    }
  }

  /** Other contents for one slot. */
  lemma PooledReplaced(ts: seq<Tile>, links: seq<LinkState>, it: nat, t: Tile, s: LinkState)
    requires AllPooled(ts, links) && it < |ts|
    requires t.header.Some? ==> s == FreshLinks(|t.header.value.polys|, t.header.value.maxLinkCount)
    ensures AllPooled(ts[it := t], links[it := s])
  {
    hide Pooled;
    if t.header.Some? {
      PooledFresh(|t.header.value.polys|, t.header.value.maxLinkCount);
    }
    var ts', links' := ts[it := t], links[it := s];
    forall a | 0 <= a < |ts|
      ensures SlotPooled(ts', links', a)
    {
      assert SlotPooled(ts, links, a);
    }
  }

  /** A live tile has one list per polygon, and its links and free links are together as many as it was built with. */
  lemma LinksConserved(ts: seq<Tile>, links: seq<LinkState>, a: nat)
    requires AllPooled(ts, links) && Live(ts, a)
    ensures a < |links| && |links[a].lists| == PolyCount(ts, a)
    ensures Total(links[a].lists) + links[a].free == ts[a].header.value.maxLinkCount
  {
    hide Pooled;
    assert SlotPooled(ts, links, a);
    PooledMeans(links[a], PolyCount(ts, a), ts[a].header.value.maxLinkCount);
  }

  /** Between two moments links were added, and none that dangles. */
  ghost predicate Linked(w: Bits, ts: seq<Tile>, was: seq<LinkState>, now: seq<LinkState>) {
    AllGrow(was, now) && AllPooled(ts, now) && (NoDangling(w, ts, was) ==> NoDangling(w, ts, now))
  }

  lemma PushListOk(w: Bits, ts: seq<Tile>, a: nat, s: LinkState, p: nat, link: Link)
    requires LinksOk(w, ts, a, s) && Live(ts, a) && p < PolyCount(ts, a) && RefOk(w, ts, a, link.ref)
    ensures LinksOk(w, ts, a, PushLink(s, p, link)) && |s.lists| == PolyCount(ts, a)
  {
    hide RefOk;
    var r := PushLink(s, p, link);
    forall q | 0 <= q < |r.lists|
      ensures ListOk(w, ts, a, r.lists[q])
    {
      assert ListOk(w, ts, a, s.lists[q]);
    }
  }

  lemma PushGrows(was: LinkState, now: LinkState, p: nat, link: Link)
    requires Grows(was, now) && p < |now.lists|
    ensures Grows(was, PushLink(now, p, link))
  {
  }

  lemma DanglingStep(w: Bits, ts: seq<Tile>, now: seq<LinkState>, a: nat, p: nat, link: Link)
    requires NoDangling(w, ts, now) && Live(ts, a) && p < PolyCount(ts, a) && RefOk(w, ts, a, link.ref)
    ensures NoDangling(w, ts, now[a := PushLink(now[a], p, link)])
  {
    hide RefOk, LinksOk;
    assert LinksOk(w, ts, a, now[a]);
    PushListOk(w, ts, a, now[a], p, link);
    var next := now[a := PushLink(now[a], p, link)];
    forall b | 0 <= b < |next|
      ensures LinksOk(w, ts, b, next[b])
    {
      assert LinksOk(w, ts, b, now[b]);
    }
  }

  lemma LinkStep(w: Bits, ts: seq<Tile>, was: seq<LinkState>, now: seq<LinkState>, a: nat, p: nat, link: Link)
    requires Linked(w, ts, was, now) && Live(ts, a) && p < PolyCount(ts, a) && RefOk(w, ts, a, link.ref)
    ensures a < |now| && p < |now[a].lists| && Linked(w, ts, was, now[a := PushLink(now[a], p, link)])
  {
    hide RefOk, NoDangling, Grows, AllPooled;
    LinksConserved(ts, now, a);
    PooledUpdate(ts, now, a, Give(p, link));
    assert Grows(was[a], now[a]);
    PushGrows(was[a], now[a], p, link);
    var next := now[a := PushLink(now[a], p, link)];
    forall b | 0 <= b < |next|
      ensures Grows(was[b], next[b])
    {
      assert Grows(was[b], now[b]);
    }
    if NoDangling(w, ts, now) {
      DanglingStep(w, ts, now, a, p, link);
    }
  }

  lemma LinkStart(w: Bits, ts: seq<Tile>, links: seq<LinkState>)
    requires AllPooled(ts, links)
    ensures Linked(w, ts, links, links)
  {
    hide AllPooled;
    forall a | 0 <= a < |links|
      ensures Grows(links[a], links[a])
    {
    }
  }

  // ---------- Links inside a tile ----------

  /** The links a ground polygon gets for its edges from `j` on, in the order they are made: highest edge first. */
  function EdgeLinks(w: Bits, salt: nat, it: nat, poly: PolyDef, j: nat): seq<Link>
    requires j <= |poly.neis|
    decreases |poly.neis| - j
  {
    if j == |poly.neis| then []
    else EdgeLinks(w, salt, it, poly, j + 1)
         + if InternalEdge(poly.neis[j]) then [Link(EncodePolyId(w, salt, it, poly.neis[j] - 1), j, NO_SIDE)] else []
  }

  /** Pushes links one after the other. */
  function PushAll(s: LinkState, p: nat, ls: seq<Link>): (r: LinkState)
    ensures |r.lists| == |s.lists|
  {
    if ls == [] then s else PushLink(PushAll(s, p, ls[..|ls| - 1]), p, ls[|ls| - 1])
  }

  lemma PushAllLast(s: LinkState, p: nat, ls: seq<Link>, link: Link)
    ensures PushAll(s, p, ls + [link]) == PushLink(PushAll(s, p, ls), p, link)
  {
    assert (ls + [link])[..|ls|] == ls;
  }

  /** The links of a tile after its first `n` polygons were linked inside the tile. */
  function IntLinked(w: Bits, salt: nat, it: nat, polys: seq<PolyDef>, s: LinkState, n: nat): (r: LinkState)
    requires n <= |polys| == |s.lists|
    ensures |r.lists| == |s.lists|
  {
    if n == 0 then s
    else var t := IntLinked(w, salt, it, polys, s, n - 1);
         if polys[n - 1].offMesh then t else PushAll(t, n - 1, EdgeLinks(w, salt, it, polys[n - 1], 0))
  }

  /** How many of the edges from `j` on have a neighbour in the tile. */
  function Crossings(neis: seq<Half>, j: nat): nat
    requires j <= |neis|
    decreases |neis| - j
  {
    if j == |neis| then 0
    else Crossings(neis, j + 1) + if neis[j] != 0 && neis[j] / 0x8000 % 2 == 0 then 1 else 0
  }

  /** How many links the first `n` polygons want. */
  function Wanted(polys: seq<PolyDef>, n: nat): nat
    requires n <= |polys|
  {
    if n == 0 then 0 else Wanted(polys, n - 1) + if polys[n - 1].offMesh then 0 else Crossings(polys[n - 1].neis, 0)
  }

  /** A link across an edge to the neighbour the edge names, in the same tile. */
  ghost predicate Across(w: Bits, salt: nat, it: nat, neis: seq<Half>, l: Link) {
    && l.edge < |neis| && neis[l.edge] != 0 && neis[l.edge] / 0x8000 % 2 == 0 && l.side == 0xff
    && DecodeSalt(w, l.ref) == salt && DecodeTile(w, l.ref) == it && DecodePoly(w, l.ref) == neis[l.edge] - 1
  }

  /** Such a link for each edge from `j` on that has a neighbour in the tile, highest edge first, and nothing else. */
  ghost predicate AllAcross(w: Bits, salt: nat, it: nat, neis: seq<Half>, j: nat, ls: seq<Link>) {
    && (forall k :: 0 <= k < |ls| ==> ls[k].edge >= j && Across(w, salt, it, neis, ls[k]))
    && (forall k, m :: 0 <= k < m < |ls| ==> ls[k].edge > ls[m].edge)
    && forall e :: j <= e < |neis| && neis[e] != 0 && neis[e] / 0x8000 % 2 == 0 ==> HasEdge(ls, e)
  }

  ghost predicate HasEdge(ls: seq<Link>, e: nat) { exists k :: 0 <= k < |ls| && ls[k].edge == e }

  lemma {:induction false} EdgeLinksMean(w: Bits, salt: nat, it: nat, poly: PolyDef, polyCount: nat, j: nat)
    requires j <= |poly.neis| && PolyDataOk(poly, polyCount) && polyCount <= Pow2(w.poly)
    requires salt < Pow2(w.salt) && it < Pow2(w.tile)
    ensures var ls := EdgeLinks(w, salt, it, poly, j);
            AllAcross(w, salt, it, poly.neis, j, ls) && |ls| == Crossings(poly.neis, j)
    decreases |poly.neis| - j
  {
    hide Pow2, EncodePolyId, DecodeSalt, DecodeTile, DecodePoly, AllAcross;
    if j < |poly.neis| {
      EdgeLinksMean(w, salt, it, poly, polyCount, j + 1);
      var rest := EdgeLinks(w, salt, it, poly, j + 1);
      if InternalEdge(poly.neis[j]) {
        AcrossEdge(w, salt, it, poly.neis, j);
        OneMoreAcross(w, salt, it, poly.neis, j, rest, Link(EncodePolyId(w, salt, it, poly.neis[j] - 1), j, NO_SIDE));
      } else {
        SameAcross(w, salt, it, poly.neis, j, rest);
        assert rest + [] == rest;
      }
    } else {
      NoneAcross(w, salt, it, poly.neis);
    }
  }

  lemma NoneAcross(w: Bits, salt: nat, it: nat, neis: seq<Half>)
    ensures AllAcross(w, salt, it, neis, |neis|, [])
  {
  }

  lemma OneMoreAcross(w: Bits, salt: nat, it: nat, neis: seq<Half>, j: nat, rest: seq<Link>, l: Link)
    requires AllAcross(w, salt, it, neis, j + 1, rest) && Across(w, salt, it, neis, l) && l.edge == j
    ensures AllAcross(w, salt, it, neis, j, rest + [l])
  {
    hide DecodeSalt, DecodeTile, DecodePoly;
    var ls := rest + [l];
    forall e | j <= e < |neis| && neis[e] != 0 && neis[e] / 0x8000 % 2 == 0
      ensures HasEdge(ls, e)
    {
      if e == j {
        assert ls[|rest|].edge == e;
      } else {
        assert HasEdge(rest, e);
        var k :| 0 <= k < |rest| && rest[k].edge == e;
        assert ls[k] == rest[k];
      }
    }
  }

  lemma SameAcross(w: Bits, salt: nat, it: nat, neis: seq<Half>, j: nat, ls: seq<Link>)
    requires j < |neis| && AllAcross(w, salt, it, neis, j + 1, ls) && !InternalEdge(neis[j])
    ensures AllAcross(w, salt, it, neis, j, ls)
  {
    hide DecodeSalt, DecodeTile, DecodePoly, HasEdge;
  }

  lemma AcrossEdge(w: Bits, salt: nat, it: nat, neis: seq<Half>, j: nat)
    requires j < |neis| && InternalEdge(neis[j]) && neis[j] <= Pow2(w.poly)
    requires salt < Pow2(w.salt) && it < Pow2(w.tile)
    ensures Across(w, salt, it, neis, Link(EncodePolyId(w, salt, it, neis[j] - 1), j, NO_SIDE))
  {
    hide Pow2, EncodePolyId, DecodeSalt, DecodeTile, DecodePoly;
    DecodeEncode(w, salt, it, neis[j] - 1);
  }

  /** Links pushed one after the other are made as long as there is a free one. */
  lemma {:induction false} PushAllPart(s: LinkState, p: nat, ls: seq<Link>)
    requires p < |s.lists|
    ensures var made := if |ls| <= s.free then ls else ls[..s.free];
            PushAll(s, p, ls) == LinkState(s.lists[p := s.lists[p] + made], s.free - |made|)
  {
    if ls == [] {
      assert s.lists[p] + ls == s.lists[p];
      assert s.lists[p := s.lists[p]] == s.lists;
    } else {
      var n := |ls| - 1;
      PushAllPart(s, p, ls[..n]);
      if n < s.free {
        assert ls[..n] + [ls[n]] == ls;
        assert s.lists[p] + ls[..n] + [ls[n]] == s.lists[p] + ls;
      } else if n > s.free {
        assert ls[..n][..s.free] == ls[..s.free];
      }
    }
  }

  /** The data fits the reference format. */
  ghost predicate MeshFits(w: Bits, salt: nat, it: nat, polys: seq<PolyDef>) {
    && salt < Pow2(w.salt) && it < Pow2(w.tile) && |polys| <= Pow2(w.poly)
    && forall p :: 0 <= p < |polys| ==> PolyDataOk(polys[p], |polys|)
  }

  /** The links polygon `p` gets: across each of its internal edges, or none off the mesh. */
  ghost predicate Inside(w: Bits, salt: nat, it: nat, poly: PolyDef, ls: seq<Link>) {
    if poly.offMesh then ls == [] else AllAcross(w, salt, it, poly.neis, 0, ls)
  }

  /** The first of them, or all if there is room. */
  ghost predicate InsideAsRoom(w: Bits, salt: nat, it: nat, poly: PolyDef, part: seq<Link>, room: bool) {
    exists ls :: Inside(w, salt, it, poly, ls) && part <= ls && (room ==> part == ls)
  }

  lemma InsideFound(w: Bits, salt: nat, it: nat, poly: PolyDef, polyCount: nat)
    requires PolyDataOk(poly, polyCount) && polyCount <= Pow2(w.poly) && salt < Pow2(w.salt) && it < Pow2(w.tile)
    ensures var ls := if poly.offMesh then [] else EdgeLinks(w, salt, it, poly, 0);
            Inside(w, salt, it, poly, ls) && |ls| == if poly.offMesh then 0 else Crossings(poly.neis, 0)
  {
    if !poly.offMesh {
      EdgeLinksMean(w, salt, it, poly, polyCount, 0);
    }
  }

  /** Later polygons want more. */
  lemma {:induction false} WantedGrows(polys: seq<PolyDef>, m: nat, n: nat)
    requires m <= n <= |polys|
    ensures Wanted(polys, m) <= Wanted(polys, n)
  {
    if m < n {
      WantedGrows(polys, m, n - 1);
    }
  }

  /**
   The polygons are linked across their internal edges in order until no link is left: a polygon has exactly
   those links when there is room for it and all before it, and no others in any case.
   */
  lemma {:induction false} IntLinkedMeans(w: Bits, salt: nat, it: nat, polys: seq<PolyDef>, maxLinks: nat, n: nat)
    requires n <= |polys| && MeshFits(w, salt, it, polys)
    ensures var r := IntLinked(w, salt, it, polys, FreshLinks(|polys|, maxLinks), n);
            && r.free == (if Wanted(polys, n) <= maxLinks then maxLinks - Wanted(polys, n) else 0)
            && (forall p :: 0 <= p < n ==>
                  InsideAsRoom(w, salt, it, polys[p], r.lists[p], Wanted(polys, p + 1) <= maxLinks))
            && forall p :: n <= p < |polys| ==> r.lists[p] == []
  {
    hide EdgeLinks, PushAll, InsideAsRoom, Pow2, PolyDataOk;
    if n > 0 {
      IntLinkedMeans(w, salt, it, polys, maxLinks, n - 1);
      var t := IntLinked(w, salt, it, polys, FreshLinks(|polys|, maxLinks), n - 1);
      var made := OneInside(w, salt, it, polys[n - 1], |polys|, t, n - 1);
      WantedGrows(polys, n - 1, n);
    }
  }

  /** One polygon is linked as far as free links go. */
  lemma OneInside(w: Bits, salt: nat, it: nat, poly: PolyDef, polyCount: nat, t: LinkState, p: nat)
    returns (made: seq<Link>)
    requires PolyDataOk(poly, polyCount) && polyCount <= Pow2(w.poly) && salt < Pow2(w.salt) && it < Pow2(w.tile)
    requires p < |t.lists| && t.lists[p] == []
    ensures var want := if poly.offMesh then 0 else Crossings(poly.neis, 0);
            && (forall room :: (room ==> want <= t.free) ==> InsideAsRoom(w, salt, it, poly, made, room))
            && |made| == (if want <= t.free then want else t.free)
            && (if poly.offMesh then t else PushAll(t, p, EdgeLinks(w, salt, it, poly, 0)))
               == LinkState(t.lists[p := made], t.free - |made|)
  {
    hide EdgeLinks, PushAll, Inside, Pow2, Crossings, PolyDataOk;
    InsideFound(w, salt, it, poly, polyCount);
    var ls := if poly.offMesh then [] else EdgeLinks(w, salt, it, poly, 0);
    made := if |ls| <= t.free then ls else ls[..t.free];
    assert [] + made == made;
    if poly.offMesh {
      assert t.lists[p := []] == t.lists;
    } else {
      PushAllPart(t, p, ls);
    }
  }

  /** A tile's polygons are linked inside the tile as far as its links went. */
  ghost predicate TileInside(w: Bits, t: Tile, it: nat, s: LinkState) {
    t.header.Some? ==>
      var h := t.header.value;
      && |s.lists| == |h.polys|
      && forall p :: 0 <= p < |h.polys| ==>
           BeginsInside(w, t.salt, it, h.polys[p], s.lists[p], Wanted(h.polys, p + 1) <= h.maxLinkCount)
  }

  /** The oldest links of the list are those. */
  ghost predicate BeginsInside(w: Bits, salt: nat, it: nat, poly: PolyDef, list: seq<Link>, room: bool) {
    exists part :: InsideAsRoom(w, salt, it, poly, part, room) && part <= list
  }

  /** Links made later leave that as it is. */
  lemma TileInsideGrows(w: Bits, t: Tile, it: nat, was: LinkState, now: LinkState)
    requires TileInside(w, t, it, was) && Grows(was, now)
    ensures TileInside(w, t, it, now)
  {
    hide InsideAsRoom, Wanted;
    if t.header.Some? {
      var h := t.header.value;
      forall p | 0 <= p < |h.polys|
        ensures BeginsInside(w, t.salt, it, h.polys[p], now.lists[p], Wanted(h.polys, p + 1) <= h.maxLinkCount)
      {
        var room := Wanted(h.polys, p + 1) <= h.maxLinkCount;
        assert BeginsInside(w, t.salt, it, h.polys[p], was.lists[p], room);
        var part :| InsideAsRoom(w, t.salt, it, h.polys[p], part, room) && part <= was.lists[p];
        assert part <= now.lists[p];
      }
    }
  }

  lemma FreshInside(w: Bits, t: Tile, it: nat)
    requires TileFits(w, t) && t.header.Some? && it < Pow2(w.tile)
    ensures var h := t.header.value;
            TileInside(w, t, it, IntLinked(w, t.salt, it, h.polys, FreshLinks(|h.polys|, h.maxLinkCount), |h.polys|))
  {
    hide Inside, Wanted, InsideAsRoom, IntLinked, Pow2, PolyDataOk;
    var h := t.header.value;
    IntLinkedMeans(w, t.salt, it, h.polys, h.maxLinkCount, |h.polys|);
  }

  // ---------- Where tiles are ----------

  /** The hash bucket of a cell; the product wraps at 32 bits. */
  function TileHash(x: int, y: int, lutSize: nat): (h: nat)
    requires lutSize > 0
    ensures h < lutSize
  {
    (0x8da6b343 * x + 0xd8163841 * y) % 0x1_0000_0000 % lutSize
  }

  /** One step along either axis adds its own constant, in 32 bits; buckets are counted from what that comes to. */
  lemma TileHashSteps(x: int, y: int, lutSize: nat)
    requires lutSize > 0
    ensures TileHash(0, 0, lutSize) == 0
    ensures var h := TileHash(x, y, 0x1_0000_0000);
            && TileHash(x + 1, y, 0x1_0000_0000) == (h + 0x8da6b343) % 0x1_0000_0000
            && TileHash(x, y + 1, 0x1_0000_0000) == (h + 0xd8163841) % 0x1_0000_0000
            && TileHash(x, y, lutSize) == h % lutSize
  {
    var n := 0x8da6b343 * x + 0xd8163841 * y;
    assert 0x8da6b343 * (x + 1) + 0xd8163841 * y == n + 0x8da6b343;
    assert 0x8da6b343 * x + 0xd8163841 * (y + 1) == n + 0xd8163841;
    AddMod(n, 0x8da6b343, 0x1_0000_0000);
    AddMod(n, 0xd8163841, 0x1_0000_0000);
  }

  predicate InCell(ts: seq<Tile>, t: nat, x: int, y: int) {
    Live(ts, t) && ts[t].header.value.x == x && ts[t].header.value.y == y
  }

  predicate At(ts: seq<Tile>, t: nat, x: int, y: int, layer: int) {
    InCell(ts, t, x, y) && ts[t].header.value.layer == layer
  }

  /** A slot without a header is on the free list with a salt, one with a header in its cell's bucket. */
  ghost predicate SlotPlaced(ts: seq<Tile>, own: seq<nat>, lutSize: nat, i: nat) {
    && i < |ts| == |own| && lutSize > 0
    && (ts[i].header.None? ==> ts[i].salt > 0)
    && own[i] == match ts[i].header case None => lutSize case Some(h) => TileHash(h.x, h.y, lutSize)
  }

  ghost predicate Placed(ts: seq<Tile>, own: seq<nat>, lutSize: nat) {
    && |ts| == |own|
    && forall i {:trigger SlotPlaced(ts, own, lutSize, i)} :: 0 <= i < |ts| ==> SlotPlaced(ts, own, lutSize, i)
  }

  /** No two tiles share a position. */
  ghost predicate Spread(ts: seq<Tile>) {
    forall a, b, x, y, layer {:trigger At(ts, a, x, y, layer), At(ts, b, x, y, layer)} ::
      At(ts, a, x, y, layer) && At(ts, b, x, y, layer) ==> a == b
  }

  /** The tiles of a chain that lie in a cell, from the chain's head on. */
  function AtCell(ts: seq<Tile>, c: seq<nat>, x: int, y: int): seq<nat> {
    if c == [] then []
    else (if InCell(ts, c[|c| - 1], x, y) then [c[|c| - 1]] else []) + AtCell(ts, c[..|c| - 1], x, y)
  }

  function FirstFew(s: seq<nat>, max: nat): seq<nat> { if |s| <= max then s else s[..max] }

  lemma {:induction false} AtCellMeans(ts: seq<Tile>, c: seq<nat>, x: int, y: int, t: nat)
    ensures t in AtCell(ts, c, x, y) <==> t in c && InCell(ts, t, x, y)
  {
    if c != [] {
      assert c == c[..|c| - 1] + [c[|c| - 1]];
      AtCellMeans(ts, c[..|c| - 1], x, y, t);
    }
  }

  /** A chain without repetitions holds no tile of a cell twice. */
  lemma {:induction false} AtCellCount(ts: seq<Tile>, c: seq<nat>, x: int, y: int)
    requires forall k, l :: 0 <= k < l < |c| ==> c[k] != c[l]
    ensures |AtCell(ts, c, x, y)| == |Crowd(ts, c, x, y)|
  {
    hide InCell;
    if c != [] {
      var d, t := c[..|c| - 1], c[|c| - 1];
      assert c == d + [t];
      AtCellCount(ts, d, x, y);
      var few := Crowd(ts, d, x, y);
      assert t !in few;
      assert Crowd(ts, c, x, y) == if InCell(ts, t, x, y) then few + {t} else few;
    }
  }

  function Crowd(ts: seq<Tile>, c: seq<nat>, x: int, y: int): set<nat> {
    set t | t in c && InCell(ts, t, x, y)
  }

  /** How many tiles lie in a cell. */
  ghost function Crowded(ts: seq<Tile>, x: int, y: int): nat { |InCellSet(ts, x, y)| }

  ghost function InCellSet(ts: seq<Tile>, x: int, y: int): set<nat> {
    set t: nat | t < |ts| && InCell(ts, t, x, y)
  }

  // ---------- Removing a tile ----------

  /** Does this reference lead into slot `it`? */
  function LeadsTo(w: Bits, it: nat): nat -> bool { (ref: nat) => DecodeTile(w, ref) == it }

  ghost predicate PointsAt(w: Bits, s: LinkState, it: nat) {
    exists p, k :: 0 <= p < |s.lists| && 0 <= k < |s.lists[p]| && DecodeTile(w, s.lists[p][k].ref) == it
  }

  lemma {:induction false} KeepTwice(s: seq<Link>, drop: nat -> bool)
    ensures Keep(Keep(s, drop), drop) == Keep(s, drop)
  {
    if s != [] {
      var d := s[..|s| - 1];
      KeepTwice(d, drop);
      if !drop(s[|s| - 1].ref) {
        assert (Keep(d, drop) + [s[|s| - 1]])[..|Keep(d, drop)|] == Keep(d, drop);
      } else {
        assert Keep(d, drop) + [] == Keep(d, drop);
      }
    }
  }

  lemma UnconnectedTwice(s: LinkState, drop: nat -> bool)
    ensures Unconnected(Unconnected(s, drop), drop) == Unconnected(s, drop)
  {
    var r := Unconnected(s, drop);
    forall p | 0 <= p < |s.lists|
      ensures KeepAll(r.lists, drop)[p] == r.lists[p]
    {
      KeepTwice(s.lists[p], drop);
    }
    assert KeepAll(r.lists, drop) == r.lists;
  }

  /** The links after slot `it` was emptied and the tiles in `done` were unconnected from it. */
  ghost predicate Emptied(w: Bits, was: seq<LinkState>, now: seq<LinkState>, it: nat, done: set<nat>) {
    && |was| == |now|
    && forall c {:trigger now[c]} :: 0 <= c < |was| && c != it ==>
         now[c] == if c in done then Unconnected(was[c], LeadsTo(w, it)) else was[c]
  }

  /** A good link that does not lead into the emptied slot stays good. */
  lemma RefStaysOk(w: Bits, ts: seq<Tile>, it: nat, salt: nat, a: nat, ref: nat)
    requires it < |ts| && a != it && RefOk(w, ts, a, ref)
    ensures RefOk(w, ts[it := Tile(salt, None)], a, ref) <==> DecodeTile(w, ref) != it
  {
  }

  lemma TileStaysOk(w: Bits, ts: seq<Tile>, s: LinkState, it: nat, salt: nat, a: nat)
    requires it < |ts| && a != it && LinksOk(w, ts, a, s) && Live(ts, a)
    ensures LinksOk(w, ts[it := Tile(salt, None)], a, s) <==> !PointsAt(w, s, it)
    ensures LinksOk(w, ts[it := Tile(salt, None)], a, Unconnected(s, LeadsTo(w, it)))
  {
    hide RefOk;
    var ts', r := ts[it := Tile(salt, None)], Unconnected(s, LeadsTo(w, it));
    forall p, k | 0 <= p < |s.lists| && 0 <= k < |s.lists[p]|
      ensures RefOk(w, ts', a, s.lists[p][k].ref) <==> DecodeTile(w, s.lists[p][k].ref) != it
    {
      assert ListOk(w, ts, a, s.lists[p]);
      RefStaysOk(w, ts, it, salt, a, s.lists[p][k].ref);
    }
    StaysOkList(w, ts', s, it, a);
    forall p | 0 <= p < |r.lists|
      ensures ListOk(w, ts', a, r.lists[p])
    {
      forall k | 0 <= k < |r.lists[p]|
        ensures RefOk(w, ts', a, r.lists[p][k].ref)
      {
        KeepMeans(s.lists[p], LeadsTo(w, it), r.lists[p][k]);
      }
    }
  }

  lemma StaysOkList(w: Bits, ts: seq<Tile>, s: LinkState, it: nat, a: nat)
    requires Live(ts, a) && |s.lists| == PolyCount(ts, a)
    requires forall p, k :: 0 <= p < |s.lists| && 0 <= k < |s.lists[p]| ==>
               (RefOk(w, ts, a, s.lists[p][k].ref) <==> DecodeTile(w, s.lists[p][k].ref) != it)
    ensures LinksOk(w, ts, a, s) <==> !PointsAt(w, s, it)
  {
    hide RefOk, DecodeTile;
    if !PointsAt(w, s, it) {
      forall p | 0 <= p < |s.lists|
        ensures ListOk(w, ts, a, s.lists[p])
      {
      }
    } else {
      var p, k :| 0 <= p < |s.lists| && 0 <= k < |s.lists[p]| && DecodeTile(w, s.lists[p][k].ref) == it;
      assert !ListOk(w, ts, a, s.lists[p]);
    }
  }

  /** After a removal no link dangles exactly when every tile that pointed at the removed one was unconnected. */
  lemma RemovalExact(w: Bits, ts: seq<Tile>, was: seq<LinkState>, now: seq<LinkState>, it: nat, salt: nat,
                     done: set<nat>)
    requires NoDangling(w, ts, was) && it < |ts| && Emptied(w, was, now, it, done)
    ensures NoDangling(w, ts[it := Tile(salt, None)], now)
            <==> forall c :: 0 <= c < |ts| && Live(ts, c) && c != it && c !in done ==> !PointsAt(w, was[c], it)
  {
    hide LinksOk, PointsAt, Unconnected;
    var ts' := ts[it := Tile(salt, None)];
    forall c | 0 <= c < |ts|
      ensures LinksOk(w, ts', c, now[c]) <==> (Live(ts, c) && c != it && c !in done ==> !PointsAt(w, was[c], it))
    {
      assert LinksOk(w, ts, c, was[c]);
      if Live(ts, c) && c != it {
        TileStaysOk(w, ts, was[c], it, salt, c);
      } else {
        DeadOk(w, ts', c, now[c]);
      }
    }
  }

  lemma DeadOk(w: Bits, ts: seq<Tile>, a: nat, s: LinkState)
    requires !Live(ts, a)
    ensures LinksOk(w, ts, a, s)
  {
  }

  /** Only tiles in the same or a neighbouring cell point at a tile. */
  lemma OnlyNearPoint(w: Bits, ts: seq<Tile>, s: LinkState, a: nat, it: nat)
    requires Live(ts, a) && LinksOk(w, ts, a, s) && PointsAt(w, s, it)
    ensures Live(ts, it) && Near(ts[a].header.value, ts[it].header.value)
  {
    var p, k :| 0 <= p < |s.lists| && 0 <= k < |s.lists[p]| && DecodeTile(w, s.lists[p][k].ref) == it;
    assert ListOk(w, ts, a, s.lists[p]);
  }

  // ---------- Adding a tile ----------

  /** A new tile without links makes no link dangle. */
  lemma AdditionOk(w: Bits, ts: seq<Tile>, was: seq<LinkState>, it: nat, t: Tile, s: LinkState)
    requires NoDangling(w, ts, was) && it < |ts| && !Live(ts, it)
    requires t.header.Some? && s == FreshLinks(|t.header.value.polys|, t.header.value.maxLinkCount)
    ensures NoDangling(w, ts[it := t], was[it := s])
  {
    hide LinksOk;
    var ts', now := ts[it := t], was[it := s];
    forall c | 0 <= c < |ts|
      ensures LinksOk(w, ts', c, now[c])
    {
      assert LinksOk(w, ts, c, was[c]);
      if c == it {
        FreshOk(w, ts', it, s);
      } else {
        UntouchedOk(w, ts, was[c], it, t, c);
      }
    }
  }

  lemma FreshOk(w: Bits, ts: seq<Tile>, it: nat, s: LinkState)
    requires Live(ts, it) && s == FreshLinks(PolyCount(ts, it), ts[it].header.value.maxLinkCount)
    ensures LinksOk(w, ts, it, s)
  {
  }

  lemma UntouchedOk(w: Bits, ts: seq<Tile>, s: LinkState, it: nat, t: Tile, a: nat)
    requires LinksOk(w, ts, a, s) && it < |ts| && !Live(ts, it) && a != it
    ensures LinksOk(w, ts[it := t], a, s)
  {
    if Live(ts, a) {
      forall p | 0 <= p < |s.lists|
        ensures ListOk(w, ts[it := t], a, s.lists[p])
      {
        assert ListOk(w, ts, a, s.lists[p]);
      }
    }
  }

  // ---------- Cells ----------

  /** The cell on one side of another. */
  function CellBeside(x: int, y: int, side: nat): (int, int) {
    match side
    case 0 => (x + 1, y)
    case 1 => (x + 1, y + 1)
    case 2 => (x, y + 1)
    case 3 => (x - 1, y + 1)
    case 4 => (x - 1, y)
    case 5 => (x - 1, y - 1)
    case 6 => (x, y - 1)
    case 7 => (x + 1, y - 1)
    case _ => (x, y)
  }

  /** The eight sides and the cell itself are all the near cells. */
  lemma NearCells(a: Header, b: Header) returns (side: nat)
    requires Near(a, b)
    ensures side <= 8 && CellBeside(a.x, a.y, side) == (b.x, b.y)
  {
    var dx, dy := b.x - a.x, b.y - a.y;
    side := if dx == 1 then (if dy == 0 then 0 else if dy == 1 then 1 else 7)
            else if dx == 0 then (if dy == 0 then 8 else if dy == 1 then 2 else 6)
            else (if dy == 1 then 3 else if dy == 0 then 4 else 5);
  }

  /** A tile is in the bucket of its cell, unless its slot is in no chain. */
  lemma InItsBucket(ts: seq<Tile>, t: Table, lutSize: nat, c: nat, x: int, y: int)
    requires Good(t) && |t.chains| == lutSize + 1 && |ts| == |t.own| && lutSize > 0
    requires InCell(ts, c, x, y) && SlotPlaced(ts, t.own, lutSize, c)
    ensures c in t.chains[TileHash(x, y, lutSize)]
  {
    assert SlotOk(t, c);
  }

  /** In a cell with at most `max` tiles every tile is among the first `max` of its bucket's. */
  lemma CellComplete(ts: seq<Tile>, t: Table, lutSize: nat, c: nat, x: int, y: int, max: nat)
    requires Good(t) && |t.chains| == lutSize + 1 && |ts| == |t.own| && lutSize > 0
    requires InCell(ts, c, x, y) && SlotPlaced(ts, t.own, lutSize, c) && Crowded(ts, x, y) <= max
    ensures c in FirstFew(AtCell(ts, t.chains[TileHash(x, y, lutSize)], x, y), max)
  {
    hide SlotPlaced, TileHash;
    InItsBucket(ts, t, lutSize, c, x, y);
    var b := TileHash(x, y, lutSize);
    assert ChainOk(t, b);
    AtCellMeans(ts, t.chains[b], x, y, c);
    AtCellCount(ts, t.chains[b], x, y);
    FewerHere(ts, t.chains[b], x, y);
  }

  lemma FewerHere(ts: seq<Tile>, c: seq<nat>, x: int, y: int)
    ensures |Crowd(ts, c, x, y)| <= Crowded(ts, x, y)
  {
    SubsetSize(Crowd(ts, c, x, y), InCellSet(ts, x, y));
  }

  // ---------- Changing one slot ----------

  lemma SlotFitsUpdate(w: Bits, ts: seq<Tile>, it: nat, t: Tile)
    requires AllFit(w, ts) && it < |ts| && TileFits(w, t)
    ensures AllFit(w, ts[it := t])
  {
    var now := ts[it := t];
    forall i | 0 <= i < |now|
      ensures TileFits(w, now[i])
    {
      assert TileFits(w, ts[i]);
    }
  }

  /** Freeing a slot, or filling one at a position nobody has, keeps positions apart. */
  lemma SpreadUpdate(ts: seq<Tile>, it: nat, t: Tile)
    requires Spread(ts) && it < |ts|
    requires t.header.Some? ==> forall a :: a != it ==>
               !At(ts, a, t.header.value.x, t.header.value.y, t.header.value.layer)
    ensures Spread(ts[it := t])
  {
    var now := ts[it := t];
    forall a, b, x, y, layer | At(now, a, x, y, layer) && At(now, b, x, y, layer)
      ensures a == b
    {
      assert a != it ==> At(ts, a, x, y, layer);
      assert b != it ==> At(ts, b, x, y, layer);
    }
  }

  // ---------- References ----------

  /** Would the mesh accept this reference? */
  predicate ValidPolyRef(w: Bits, ts: seq<Tile>, ref: nat) {
    var it := DecodeTile(w, ref);
    ref != 0 && Live(ts, it) && ts[it].salt == DecodeSalt(w, ref) && DecodePoly(w, ref) < PolyCount(ts, it)
  }

  /** The polygons of live tiles are exactly what valid references name, each by one reference. */
  lemma ValidRefsExact(w: Bits, ts: seq<Tile>, it: nat, ip: nat, ref: nat)
    requires AllFit(w, ts) && Live(ts, it) && ip < PolyCount(ts, it) && ts[it].salt > 0
    requires ref < Pow2(w.salt + (w.poly + w.tile))
    ensures ValidPolyRef(w, ts, ref) && DecodeTile(w, ref) == it && DecodePoly(w, ref) == ip
            <==> ref == EncodePolyId(w, ts[it].salt, it, ip)
  {
    hide EncodePolyId, DecodeTile, DecodeSalt, DecodePoly, Pow2;
    assert TileFits(w, ts[it]);
    DecodeEncode(w, ts[it].salt, it, ip);
    NotNull(w, ts[it].salt, it, ip);
    EncodeDecode(w, ref);
  }
}
