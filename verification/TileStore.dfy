/**
 The tile store as values: what adding and removing tiles makes of the tiles, their links, the buckets and
 the free list.
 */
module TileStore {
  import opened Collections
  import opened Division
  import opened PolyRef
  import opened TileLinks
  import opened TileMesh
  import opened TileSeams

  const MAX_NEIS := 32
  const NAVMESH_MAGIC := 0x444e4156
  const NAVMESH_VERSION := 7

  /** What never changes: field widths, number of buckets, and the answers of the geometric tests. */
  datatype Rules = Rules(w: Bits, lutSize: nat, touches: Touches, nearest: Nearest)

  /** The last chain is the free list; a chain's head is its last element. */
  datatype Mesh = Mesh(ts: seq<Tile>, links: seq<LinkState>, chains: seq<seq<nat>>)

  /** The free list holds exactly the slots without a tile. */
  ghost predicate Filed(r: Rules, s: Mesh) {
    && r.lutSize > 0 && |s.chains| == r.lutSize + 1 && |s.ts| == |s.links|
    && forall i: nat :: i in s.chains[r.lutSize] <==> i < |s.ts| && !Live(s.ts, i)
  }

  function EmptyChains(lutSize: nat, maxTiles: nat): seq<seq<nat>> {
    seq(lutSize, _ => []) + [seq(maxTiles, k requires 0 <= k < maxTiles => maxTiles - 1 - k)]
  }

  /** All slots free, the first one on top, each with salt 1. */
  function EmptyMesh(lutSize: nat, maxTiles: nat): Mesh {
    Mesh(seq(maxTiles, _ => Tile(1, None)), seq(maxTiles, _ => LinkState([], 0)), EmptyChains(lutSize, maxTiles))
  }

  // ---------- The tiles the store looks at ----------

  /** The tiles of a cell that are looked at: the first 32 of its bucket. */
  function Seen(ts: seq<Tile>, chains: seq<seq<nat>>, lutSize: nat, x: int, y: int): (r: seq<nat>)
    requires lutSize > 0 && |chains| == lutSize + 1
    ensures forall k :: 0 <= k < |r| ==> InCell(ts, r[k], x, y)
  {
    FirstHere(ts, chains[TileHash(x, y, lutSize)], x, y)
  }

  function FirstHere(ts: seq<Tile>, c: seq<nat>, x: int, y: int): (r: seq<nat>)
    ensures forall t :: t in r ==> t in c && InCell(ts, t, x, y)
  {
    AtCellFits(ts, c, x, y, MAX_NEIS);
    FirstFew(AtCell(ts, c, x, y), MAX_NEIS)
  }

  lemma AtCellFits(ts: seq<Tile>, c: seq<nat>, x: int, y: int, max: nat)
    ensures forall t :: t in FirstFew(AtCell(ts, c, x, y), max) ==> t in c && InCell(ts, t, x, y)
  {
    hide AtCell;
    var few := FirstFew(AtCell(ts, c, x, y), max);
    forall t | t in few
      ensures t in c && InCell(ts, t, x, y)
    {
      AtCellMeans(ts, c, x, y, t);
    }
  }

  /** The chains once tile `it` has left its bucket. */
  function Vacated(ts: seq<Tile>, chains: seq<seq<nat>>, lutSize: nat, it: nat): (r: seq<seq<nat>>)
    requires Live(ts, it) && lutSize > 0 && |chains| == lutSize + 1
    ensures |r| == |chains|
  {
    var b := TileHash(ts[it].header.value.x, ts[it].header.value.y, lutSize);
    chains[b := Minus(chains[b], it)]
  }

  /** Is tile `c` in the same or a neighbouring cell as `it`, and among the first 32 there? */
  predicate SeenFrom(ts: seq<Tile>, chains: seq<seq<nat>>, lutSize: nat, it: nat, c: nat)
    requires lutSize > 0 && |chains| == lutSize + 1
  {
    && Live(ts, it) && Live(ts, c) && c != it
    && var h := ts[c].header.value;
       Near(ts[it].header.value, h) && c in Seen(ts, chains, lutSize, h.x, h.y)
  }

  ghost function SeenAround(ts: seq<Tile>, chains: seq<seq<nat>>, lutSize: nat, it: nat): set<nat>
    requires lutSize > 0 && |chains| == lutSize + 1
  {
    set c: nat | c < |ts| && SeenFrom(ts, chains, lutSize, it, c)
  }

  /** The tiles that removing `it` reaches: near ones among the first 32 of their cell's bucket, `it` not counted. */
  ghost function Reached(ts: seq<Tile>, chains: seq<seq<nat>>, lutSize: nat, it: nat): set<nat>
    requires Live(ts, it) && lutSize > 0 && |chains| == lutSize + 1
  {
    SeenAround(ts, Vacated(ts, chains, lutSize, it), lutSize, it)
  }

  // ---------- Removing a tile ----------

  /** `NullRead` is a read through the missing header of a free slot, which the source does not guard against. */
  datatype Status = Success | WrongMagic | WrongVersion | InvalidParam | AlreadyOccupied | OutOfMemory | NullRead

  /** Removal wants a slot with the reference's salt; only a tile in use can then be removed. */
  function RemoveStatus(w: Bits, ts: seq<Tile>, ref: nat): Status {
    var it := DecodeTile(w, ref);
    if ref == 0 || it >= |ts| || ts[it].salt != DecodeSalt(w, ref) then InvalidParam
    else if ts[it].header.None? then NullRead
    else Success
  }

  /** A free slot is read through its missing header exactly when the reference carries the salt it will use next. */
  lemma NullReadExact(w: Bits, ts: seq<Tile>, salt: nat, it: nat, ip: nat)
    requires Mintable(w, salt, it, ip) && salt > 0 && it < |ts| && !Live(ts, it)
    ensures RemoveStatus(w, ts, EncodePolyId(w, salt, it, ip)) == if ts[it].salt == salt then NullRead else InvalidParam
  {
    hide EncodePolyId, DecodeTile, DecodeSalt;
    DecodeEncode(w, salt, it, ip);
    NotNull(w, salt, it, ip);
  }

  /** On a fresh mesh the reference that the first tile will get is such a reference. */
  lemma NullReadAtStart(w: Bits, lutSize: nat, maxTiles: nat)
    requires w.salt >= 1 && 0 < maxTiles <= Pow2(w.tile)
    ensures RemoveStatus(w, EmptyMesh(lutSize, maxTiles).ts, EncodePolyId(w, 1, 0, 0)) == NullRead
  {
    NullReadExact(w, EmptyMesh(lutSize, maxTiles).ts, 1, 0, 0);
  }

  /** The links once slot `it` is emptied and the tiles in `done` are unconnected from it. */
  function Emptying(w: Bits, links: seq<LinkState>, it: nat, done: set<nat>): (r: seq<LinkState>)
    ensures |r| == |links|
  {
    seq(|links|, c requires 0 <= c < |links| =>
           if c == it then LinkState([], 0) else if c in done then Unconnected(links[c], LeadsTo(w, it)) else links[c])
  }

  /** Slot `it` was emptied, its salt aged and the slot made the first free one. */
  ghost function Removed(r: Rules, s: Mesh, it: nat): Mesh
    requires Filed(r, s) && Live(s.ts, it)
  {
    Mesh(s.ts[it := Tile(NextSalt(r.w.salt, s.ts[it].salt), None)],
         Emptying(r.w, s.links, it, Reached(s.ts, s.chains, r.lutSize, it)),
         Vacated(s.ts, s.chains, r.lutSize, it)[r.lutSize := s.chains[r.lutSize] + [it]])
  }

  /**
   After a removal no link dangles exactly when every tile that pointed at the removed one was among the
   first 32 of its cell's bucket, the removed tile not counted.
   */
  lemma RemovedExact(r: Rules, s: Mesh, it: nat)
    requires Filed(r, s) && Live(s.ts, it) && NoDangling(r.w, s.ts, s.links)
    ensures var s' := Removed(r, s, it);
            NoDangling(r.w, s'.ts, s'.links)
            <==> forall c: nat :: Live(s.ts, c) && c != it && PointsAt(r.w, s.links[c], it)
                                  ==> c in Reached(s.ts, s.chains, r.lutSize, it)
  {
    hide NoDangling, PointsAt, Unconnected, Reached, NextSalt;
    var s', done := Removed(r, s, it), Reached(s.ts, s.chains, r.lutSize, it);
    RemovalExact(r.w, s.ts, s.links, s'.links, it, NextSalt(r.w.salt, s.ts[it].salt), done);
  }

  // ---------- Linking a new tile ----------

  /** Border links of two tiles, both ways. */
  function BordersLinked(r: Rules, ts: seq<Tile>, links: seq<LinkState>, a: nat, b: nat, side: int): (l: seq<LinkState>)
    requires Live(ts, a) && Live(ts, b) && a < |links| && b < |links| && -1 <= side < 8
    ensures |l| == |links|
  {
    var m, m' := SeamOf(r.touches, r.w, ts, a, b, side), SeamOf(r.touches, r.w, ts, b, a, OtherSide(side));
    var first := links[a := PushLists(links[a], Borders(m), |m.a.polys|)];
    first[b := PushLists(first[b], Borders(m'), |m'.a.polys|)]
  }

  /** Border links of two tiles, both ways, then off-mesh links, both ways. */
  function PairLinked(r: Rules, ts: seq<Tile>, links: seq<LinkState>, a: nat, b: nat, side: int): (l: seq<LinkState>)
    requires Live(ts, a) && Live(ts, b) && a < |links| && b < |links| && -1 <= side < 8
    ensures |l| == |links|
  {
    var l1 := BordersLinked(r, ts, links, a, b, side);
    var l2 := OffMeshLinked(r.nearest, r.w, ts, l1, a, b, side, |ts[b].header.value.offMeshCons|);
    OffMeshLinked(r.nearest, r.w, ts, l2, b, a, OtherSide(side), |ts[a].header.value.offMeshCons|)
  }

  /** The tile and each of these others, but not itself, in this order. */
  function CellLinked(r: Rules, ts: seq<Tile>, links: seq<LinkState>, it: nat, neis: seq<nat>,
                      side: int): (l: seq<LinkState>)
    requires Live(ts, it) && |links| == |ts| && -1 <= side < 8 && forall k :: 0 <= k < |neis| ==> Live(ts, neis[k])
    ensures |l| == |links|
  {
    if neis == [] then links
    else
      var n := |neis| - 1;
      var was := CellLinked(r, ts, links, it, neis[..n], side);
      if neis[n] == it then was else PairLinked(r, ts, was, it, neis[n], side)
  }

  /** The tile and those seen in its own cell and in the first `n` cells around it. */
  function AroundLinked(r: Rules, ts: seq<Tile>, links: seq<LinkState>, chains: seq<seq<nat>>, it: nat,
                        n: nat): (l: seq<LinkState>)
    requires Live(ts, it) && |links| == |ts| && r.lutSize > 0 && |chains| == r.lutSize + 1 && n <= 8
    ensures |l| == |links|
  {
    var h := ts[it].header.value;
    if n == 0 then CellLinked(r, ts, links, it, Seen(ts, chains, r.lutSize, h.x, h.y), -1)
    else
      var cell := CellBeside(h.x, h.y, n - 1);
      CellLinked(r, ts, AroundLinked(r, ts, links, chains, it, n - 1), it,
                 Seen(ts, chains, r.lutSize, cell.0, cell.1), n - 1)
  }

  /** Internal edges, then starts and ends of the tile's own off-mesh connections. */
  function SelfLinked(r: Rules, ts: seq<Tile>, links: seq<LinkState>, it: nat): (l: seq<LinkState>)
    requires Live(ts, it) && it < |links|
    ensures |l| == |links|
  {
    var h := ts[it].header.value;
    var empty := FreshLinks(|h.polys|, h.maxLinkCount);
    var inside := links[it := IntLinked(r.w, ts[it].salt, it, h.polys, empty, |h.polys|)];
    OffMeshLinked(r.nearest, r.w, ts, BaseLinked(r.nearest, r.w, ts, inside, it, |h.offMeshCons|), it, it, -1,
                  |h.offMeshCons|)
  }

  /** Linking a tile inside itself does not look at what its slot held before. */
  lemma SelfLinkedAnew(r: Rules, ts: seq<Tile>, links: seq<LinkState>, it: nat, s: LinkState)
    requires Live(ts, it) && it < |links|
    ensures SelfLinked(r, ts, links[it := s], it) == SelfLinked(r, ts, links, it)
  {
    var h := ts[it].header.value;
    var inside := IntLinked(r.w, ts[it].salt, it, h.polys, FreshLinks(|h.polys|, h.maxLinkCount), |h.polys|);
    assert links[it := s][it := inside] == links[it := inside];
  }

  // ---------- Adding a tile ----------

  /** The first check that an addition fails. */
  ghost function AddStatus(w: Bits, ts: seq<Tile>, h: Header, lastRef: nat): Status {
    if h.magic != NAVMESH_MAGIC then WrongMagic
    else if h.version != NAVMESH_VERSION then WrongVersion
    else if |h.polys| > Pow2(w.poly) then InvalidParam
    else if exists t :: At(ts, t, h.x, h.y, h.layer) then AlreadyOccupied
    else if NoSlot(w, ts, lastRef) then OutOfMemory
    else Success
  }

  /** No slot is free, or not the one asked for. */
  ghost predicate NoSlot(w: Bits, ts: seq<Tile>, lastRef: nat) {
    if lastRef == 0 then forall t: nat :: t < |ts| ==> Live(ts, t)
    else DecodeTile(w, lastRef) >= |ts| || Live(ts, DecodeTile(w, lastRef))
  }

  /** The slot taken: the first free one, or the one a reference names. */
  ghost function SlotFor(r: Rules, s: Mesh, lastRef: nat): (it: nat)
    requires Filed(r, s) && !NoSlot(r.w, s.ts, lastRef)
    ensures it in s.chains[r.lutSize] && it < |s.ts| && !Live(s.ts, it)
  {
    if lastRef == 0 then
      var t: nat :| t < |s.ts| && !Live(s.ts, t);
      assert t in s.chains[r.lutSize];
      s.chains[r.lutSize][|s.chains[r.lutSize]| - 1]
    else DecodeTile(r.w, lastRef)
  }

  /** The salt of a slot taken for this reference. */
  function SaltFor(w: Bits, salt: nat, lastRef: nat): nat { if lastRef == 0 then salt else DecodeSalt(w, lastRef) }

  /** The chains once slot `it` has moved from the free list to the head of its tile's bucket. */
  function Filled(chains: seq<seq<nat>>, lutSize: nat, it: nat, h: Header): (r: seq<seq<nat>>)
    requires lutSize > 0 && |chains| == lutSize + 1
    ensures |r| == |chains|
  {
    var b := TileHash(h.x, h.y, lutSize);
    chains[lutSize := Minus(chains[lutSize], it)][b := chains[b] + [it]]
  }

  /** Slot `it` holds the tile, linked inside itself and with the tiles around. */
  ghost function Added(r: Rules, s: Mesh, it: nat, h: Header, salt: nat): Mesh
    requires Filed(r, s) && it < |s.ts|
  {
    var ts, chains := s.ts[it := Tile(salt, Some(h))], Filled(s.chains, r.lutSize, it, h);
    Mesh(ts, AroundLinked(r, ts, SelfLinked(r, ts, s.links, it), chains, it, 8), chains)
  }

  // ---------- Runs ----------

  datatype MeshOp = Add(h: Header, lastRef: nat) | Remove(ref: nat)

  /** The slot an operation fills or empties, if it succeeds. */
  ghost function Target(r: Rules, s: Mesh, op: MeshOp): Option<nat>
    requires Filed(r, s)
  {
    match op
    case Add(h, lastRef) => if AddStatus(r.w, s.ts, h, lastRef) == Success then Some(SlotFor(r, s, lastRef)) else None
    case Remove(ref) => if RemoveStatus(r.w, s.ts, ref) == Success then Some(DecodeTile(r.w, ref)) else None
  }

  ghost function Do(r: Rules, s: Mesh, op: MeshOp): (s': Mesh)
    requires Filed(r, s)
    ensures Filed(r, s') && |s'.ts| == |s.ts|
  {
    var target := Target(r, s, op);
    if target.None? then s
    else
      var it := target.value;
      MinusAll(s.chains[r.lutSize], it);
      match op
      case Add(h, lastRef) => Added(r, s, it, h, SaltFor(r.w, s.ts[it].salt, lastRef))
      case Remove(_) => assert (s.chains[r.lutSize] + [it])[|s.chains[r.lutSize]|] == it; Removed(r, s, it)
  }

  lemma MinusAll(c: seq<nat>, it: nat)
    ensures forall i :: i in Minus(c, it) <==> i in c && i != it
  {
    forall i
      ensures i in Minus(c, it) <==> i in c && i != it
    {
      MinusMeans(c, it, i);
    }
  }

  ghost function DoAll(r: Rules, s: Mesh, ops: seq<MeshOp>): (s': Mesh)
    requires Filed(r, s)
    ensures Filed(r, s') && |s'.ts| == |s.ts|
  {
    if ops == [] then s else Do(r, DoAll(r, s, ops[..|ops| - 1]), ops[|ops| - 1])
  }

  // ---------- References over runs ----------

  /** How often slot `it` is emptied during a run. */
  ghost function Removals(r: Rules, s: Mesh, ops: seq<MeshOp>, it: nat): nat
    requires Filed(r, s)
  {
    if ops == [] then 0
    else
      var n := |ops| - 1;
      Removals(r, s, ops[..n], it)
      + if ops[n].Remove? && Target(r, DoAll(r, s, ops[..n]), ops[n]) == Some(it) then 1 else 0
  }

  /** Is slot `it` filled on demand, with the salt of a given reference? */
  ghost predicate Restored(r: Rules, s: Mesh, ops: seq<MeshOp>, it: nat)
    requires Filed(r, s)
  {
    && ops != []
    && var n := |ops| - 1;
       || Restored(r, s, ops[..n], it)
       || (ops[n].Add? && ops[n].lastRef != 0 && Target(r, DoAll(r, s, ops[..n]), ops[n]) == Some(it))
  }

  /** The salt of a slot that is never restored counts its removals. */
  lemma {:induction false} SaltCounts(r: Rules, s: Mesh, ops: seq<MeshOp>, it: nat)
    requires Filed(r, s) && it < |s.ts| && !Restored(r, s, ops, it)
    ensures DoAll(r, s, ops).ts[it].salt == SaltAfter(r.w.salt, s.ts[it].salt, Removals(r, s, ops, it))
  {
    hide NextSalt, AroundLinked, SelfLinked, Vacated, Filled, Emptying, AddStatus, RemoveStatus, DecodeTile;
    hide DecodeSalt, Filed;
    if ops != [] {
      SaltCounts(r, s, ops[..|ops| - 1], it);
    }
  }

  /**
   Over any run, a polygon's reference is valid at the end exactly when its slot was emptied a multiple of
   2^bits - 1 times and holds a tile with that polygon: until then a removed tile's reference is rejected.
   */
  lemma RemovedRefRejected(r: Rules, s: Mesh, ops: seq<MeshOp>, it: nat, ip: nat)
    requires Filed(r, s) && it < |s.ts| && !Restored(r, s, ops, it)
    requires r.w.salt >= 1 && s.ts[it].salt >= 1 && Mintable(r.w, s.ts[it].salt, it, ip)
    ensures var ts := DoAll(r, s, ops).ts;
            && Pow2(r.w.salt) >= 2
            && (ValidPolyRef(r.w, ts, EncodePolyId(r.w, s.ts[it].salt, it, ip))
                <==> && Removals(r, s, ops, it) % (Pow2(r.w.salt) - 1) == 0
                     && Live(ts, it) && ip < PolyCount(ts, it))
  {
    hide EncodePolyId, DecodeTile, DecodeSalt, DecodePoly, Pow2, Removals, DoAll, Restored;
    SaltCounts(r, s, ops, it);
    DecodeEncode(r.w, s.ts[it].salt, it, ip);
    NotNull(r.w, s.ts[it].salt, it, ip);
    SaltReturns(r.w.salt, s.ts[it].salt, Removals(r, s, ops, it));
  }

  // ---------- Null references ----------

  /** Is slot `it` filled on demand with salt 0? */
  ghost predicate Unsalted(r: Rules, s: Mesh, ops: seq<MeshOp>, it: nat)
    requires Filed(r, s)
  {
    && ops != []
    && var n := |ops| - 1;
       || Unsalted(r, s, ops[..n], it)
       || (ops[n].Add? && ops[n].lastRef != 0 && DecodeSalt(r.w, ops[n].lastRef) == 0
           && Target(r, DoAll(r, s, ops[..n]), ops[n]) == Some(it))
  }

  /** Only such a restoration can leave a slot without a salt. */
  lemma {:induction false} SaltStays(r: Rules, s: Mesh, ops: seq<MeshOp>, it: nat)
    requires Filed(r, s) && it < |s.ts| && s.ts[it].salt > 0 && r.w.salt >= 1 && !Unsalted(r, s, ops, it)
    ensures DoAll(r, s, ops).ts[it].salt > 0
  {
    hide NextSalt, AroundLinked, SelfLinked, Vacated, Filled, Emptying, AddStatus, RemoveStatus, DecodeTile, DecodeSalt;
    hide Filed;
    if ops != [] {
      SaltStays(r, s, ops[..|ops| - 1], it);
    }
  }

  /** Over any run, no polygon's reference is null, unless slot 0 was filled on demand with salt 0. */
  lemma NoNullReference(r: Rules, s: Mesh, ops: seq<MeshOp>, it: nat, ip: nat)
    requires Filed(r, s) && it < |s.ts| && s.ts[it].salt > 0 && r.w.salt >= 1 && !Unsalted(r, s, ops, 0)
    ensures EncodePolyId(r.w, DoAll(r, s, ops).ts[it].salt, it, ip) != 0
  {
    hide EncodePolyId, DoAll, Unsalted;
    NotNull(r.w, DoAll(r, s, ops).ts[it].salt, it, ip);
    if it == 0 {
      SaltStays(r, s, ops, 0);
    }
  }

  /**
   It can be: on a fresh mesh the reference 1 restores salt 0 in slot 0, whose first polygon is then the null
   reference.
   */
  lemma NullReferenceAtStart(r: Rules, maxTiles: nat, h: Header)
    requires r.lutSize > 0 && r.w.poly >= 1 && maxTiles > 0
    requires h.magic == NAVMESH_MAGIC && h.version == NAVMESH_VERSION && |h.polys| <= Pow2(r.w.poly)
    requires Filed(r, EmptyMesh(r.lutSize, maxTiles))
    ensures var s := EmptyMesh(r.lutSize, maxTiles);
            var t := Do(r, s, Add(h, 1));
            && AddStatus(r.w, s.ts, h, 1) == Success && Target(r, s, Add(h, 1)) == Some(0)
            && t.ts[0] == Tile(0, Some(h)) && EncodePolyId(r.w, t.ts[0].salt, 0, 0) == 0
  {
    hide AroundLinked, SelfLinked, Filled, DecodeTile, DecodeSalt, EncodePolyId;
    OneDecodes(r.w);
    NotNull(r.w, 0, 0, 0);
  }

  lemma OneDecodes(w: Bits)
    requires w.poly >= 1
    ensures DecodeTile(w, 1) == 0 && DecodeSalt(w, 1) == 0
  {
    var p, q := Pow2(w.poly), Pow2(w.poly + w.tile);
    assert p == 2 * Pow2(w.poly - 1) && q == 2 * Pow2(w.poly + w.tile - 1);
    hide Pow2;
    DivMod(0, 1, p);
    DivMod(0, 1, q);
    DivMod(0, 0, Pow2(w.tile));
    DivMod(0, 0, Pow2(w.salt));
  }
}
