/** Linking two tiles: across a border, and by off-mesh connections that end in a neighbour. */
module TileSeams {
  import opened PolyRef
  import opened TileLinks
  import opened TileMesh

  // ---------- Links across a border ----------

  const MAX_CONNECTING := 4

  function OppositeTile(side: nat): nat { (side + 4) % 8 }

  /** Do an edge of a polygon of one tile and an edge of a polygon of another touch? */
  type Touches = (Header, nat, nat, Header, nat, nat) -> bool

  /** Two tiles to be linked, from `a` to `b`, which is in slot `it`: across one side of `a`, or any if it is -1. */
  datatype Seam = Seam(touches: Touches, w: Bits, a: Header, b: Header, salt: nat, it: nat, side: int)

  predicate EdgeTouches(m: Seam, p: nat, j: nat, q: nat, code: nat)
    requires q < |m.b.polys|
  {
    exists k :: 0 <= k < |m.b.polys[q].neis| && m.b.polys[q].neis[k] == code && m.touches(m.a, p, j, m.b, q, k)
  }

  /** Those of the first `n` polygons of `b` with an edge under this code that touches the one asked about. */
  function Candidates(m: Seam, p: nat, j: nat, code: nat, n: nat): (r: seq<nat>)
    requires n <= |m.b.polys|
    ensures forall k :: 0 <= k < |r| ==> r[k] < n
  {
    if n == 0 then [] else Candidates(m, p, j, code, n - 1) + if EdgeTouches(m, p, j, n - 1, code) then [n - 1] else []
  }

  lemma {:induction false} CandidatesMean(m: Seam, p: nat, j: nat, code: nat, n: nat, q: nat)
    requires n <= |m.b.polys|
    ensures q in Candidates(m, p, j, code, n) <==> q < n && EdgeTouches(m, p, j, q, code)
  {
    if n > 0 {
      CandidatesMean(m, p, j, code, n - 1, q);
    }
  }

  /** The first four polygons of `b` on the opposite border that edge `j` of polygon `p` touches. */
  function Connecting(m: Seam, p: nat, j: nat): (r: seq<nat>)
    requires p < |m.a.polys| && j < |m.a.polys[p].neis|
    ensures |r| <= MAX_CONNECTING && forall k :: 0 <= k < |r| ==> r[k] < |m.b.polys|
  {
    FirstFew(Candidates(m, p, j, EXT_LINK + OppositeTile(m.a.polys[p].neis[j] % 256), |m.b.polys|), MAX_CONNECTING)
  }

  /** Is this an edge on the border to be linked? */
  predicate OnSide(m: Seam, p: nat, j: nat)
    requires p < |m.a.polys| && j < |m.a.polys[p].neis|
  {
    var code := m.a.polys[p].neis[j];
    code / EXT_LINK % 2 == 1 && (m.side == -1 || code % 256 == m.side)
  }

  /** The links a border edge gets. */
  function EdgeBorderLinks(m: Seam, p: nat, j: nat): seq<Link>
    requires p < |m.a.polys| && j < |m.a.polys[p].neis|
  {
    var con := Connecting(m, p, j);
    if !OnSide(m, p, j) then []
    else seq(|con|, k requires 0 <= k < |con| =>
                Link(EncodePolyId(m.w, m.salt, m.it, con[k]), j, m.a.polys[p].neis[j] % 256))
  }

  /** An edge of polygon `q` of `b` lies on the border across from this direction and touches edge `j` of `p`. */
  ghost predicate Meets(m: Seam, p: nat, j: nat, dir: nat, q: nat) {
    && q < |m.b.polys|
    && var neis := m.b.polys[q].neis;
       exists k :: 0 <= k < |neis| && neis[k] == 0x8000 + (dir + 4) % 8 && m.touches(m.a, p, j, m.b, q, k)
  }

  /** A link over edge `j` to polygon `q` of tile `b`. */
  ghost predicate LinksTo(m: Seam, l: Link, j: nat, dir: nat, q: nat) {
    && l.edge == j && l.side == dir
    && DecodeSalt(m.w, l.ref) == m.salt && DecodeTile(m.w, l.ref) == m.it && DecodePoly(m.w, l.ref) == q
  }

  /** These links lead to the first four polygons met, in order. */
  ghost predicate FirstFour(m: Seam, p: nat, j: nat, dir: nat, ls: seq<Link>) {
    && |ls| <= 4
    && (forall k {:trigger ls[k]} :: 0 <= k < |ls| ==>
          LinksTo(m, ls[k], j, dir, DecodePoly(m.w, ls[k].ref)) && Meets(m, p, j, dir, DecodePoly(m.w, ls[k].ref)))
    && (forall k, l :: 0 <= k < l < |ls| ==> DecodePoly(m.w, ls[k].ref) < DecodePoly(m.w, ls[l].ref))
    && forall q :: Meets(m, p, j, dir, q) ==> Met(m, ls, q)
  }

  /** A link leads to the polygon, or four lead to earlier ones. */
  ghost predicate Met(m: Seam, ls: seq<Link>, q: nat) {
    || (exists k :: 0 <= k < |ls| && DecodePoly(m.w, ls[k].ref) == q)
    || (|ls| == 4 && forall k :: 0 <= k < 4 ==> DecodePoly(m.w, ls[k].ref) < q)
  }

  ghost predicate Rising(s: seq<nat>) { forall k, l :: 0 <= k < l < |s| ==> s[k] < s[l] }

  lemma {:induction false} CandidatesRise(m: Seam, p: nat, j: nat, code: nat, n: nat)
    requires n <= |m.b.polys|
    ensures Rising(Candidates(m, p, j, code, n))
  {
    if n > 0 {
      CandidatesRise(m, p, j, code, n - 1);
    }
  }

  /** A border edge on the side asked for is linked to the first four polygons it meets, any other to none. */
  lemma BorderLinksMean(m: Seam, p: nat, j: nat)
    requires p < |m.a.polys| && j < |m.a.polys[p].neis|
    requires m.salt < Pow2(m.w.salt) && m.it < Pow2(m.w.tile) && |m.b.polys| <= Pow2(m.w.poly)
    ensures var nei := m.a.polys[p].neis[j];
            if nei / 0x8000 % 2 == 1 && (m.side == -1 || m.side == nei % 256)
            then FirstFour(m, p, j, nei % 256, EdgeBorderLinks(m, p, j))
            else EdgeBorderLinks(m, p, j) == []
  {
    hide Pow2, DecodePoly, DecodeSalt, DecodeTile, EncodePolyId, Met;
    var nei := m.a.polys[p].neis[j];
    if nei / 0x8000 % 2 == 1 && (m.side == -1 || m.side == nei % 256) {
      var dir, ls, con := nei % 256, EdgeBorderLinks(m, p, j), Connecting(m, p, j);
      var code := EXT_LINK + OppositeTile(dir);
      CandidatesRise(m, p, j, code, |m.b.polys|);
      forall k | 0 <= k < |ls|
        ensures DecodePoly(m.w, ls[k].ref) == con[k] && LinksTo(m, ls[k], j, dir, con[k]) && Meets(m, p, j, dir, con[k])
      {
        CandidatesMean(m, p, j, code, |m.b.polys|, con[k]);
        DecodeEncode(m.w, m.salt, m.it, con[k]);
      }
      forall q | Meets(m, p, j, dir, q)
        ensures Met(m, ls, q)
      {
        CandidatesMean(m, p, j, code, |m.b.polys|, q);
        MetReached(m, ls, Candidates(m, p, j, code, |m.b.polys|), q);
      }
    }
  }

  lemma MetReached(m: Seam, ls: seq<Link>, all: seq<nat>, q: nat)
    requires q in all && Rising(all)
    requires |ls| == (if |all| <= 4 then |all| else 4) && forall k :: 0 <= k < |ls| ==>
               DecodePoly(m.w, ls[k].ref) == all[k]
    ensures Met(m, ls, q)
  {
    hide DecodePoly;
    var k :| 0 <= k < |all| && all[k] == q;
    if k < |ls| {
      assert DecodePoly(m.w, ls[k].ref) == q;
    }
  }

  /** Going out over one side and then over the opposite one leads back. */
  lemma OppositeBack(x: int, y: int, side: nat)
    requires side < 8
    ensures var out := CellBeside(x, y, side); CellBeside(out.0, out.1, OppositeTile(side)) == (x, y)
    ensures OppositeTile(OppositeTile(side)) == side
    ensures OtherSide(side) == OppositeTile(side) && OtherSide(-1) == -1
  {
  }

  /** The links of the first `n` edges of polygon `p`. */
  function BorderLinks(m: Seam, p: nat, n: nat): seq<Link>
    requires p < |m.a.polys| && n <= |m.a.polys[p].neis|
  {
    if n == 0 then [] else BorderLinks(m, p, n - 1) + EdgeBorderLinks(m, p, n - 1)
  }

  /** The links each polygon gets. */
  function Borders(m: Seam): (r: seq<seq<Link>>)
    ensures |r| == |m.a.polys|
  {
    seq(|m.a.polys|, p requires 0 <= p < |m.a.polys| => BorderLinks(m, p, |m.a.polys[p].neis|))
  }

  /** Pushes the first `n` of these lists onto the lists of the same numbers. */
  function PushLists(s: LinkState, wants: seq<seq<Link>>, n: nat): (r: LinkState)
    requires n <= |wants|
    ensures |r.lists| == |s.lists|
  {
    if n == 0 then s else PushAll(PushLists(s, wants, n - 1), n - 1, wants[n - 1])
  }

  lemma {:induction false} PushAllAppend(s: LinkState, p: nat, x: seq<Link>, y: seq<Link>)
    ensures PushAll(PushAll(s, p, x), p, y) == PushAll(s, p, x + y)
  {
    if y == [] {
      assert x + y == x;
    } else {
      PushAllAppend(s, p, x, y[..|y| - 1]);
      assert (x + y)[..|x + y| - 1] == x + y[..|y| - 1];
    }
  }

  /** Pushing never takes links away; if a link is left free, every link was made, and only on its own list. */
  lemma {:induction false} PushAllMeans(s: LinkState, p: nat, ls: seq<Link>)
    requires p < |s.lists|
    ensures Grows(s, PushAll(s, p, ls))
    ensures PushAll(s, p, ls).free > 0 ==> PushAll(s, p, ls).lists == s.lists[p := s.lists[p] + ls]
  {
    if ls == [] {
      assert s.lists[p] + ls == s.lists[p];
    } else {
      var n := |ls| - 1;
      PushAllMeans(s, p, ls[..n]);
      assert s.lists[p] + ls == (s.lists[p] + ls[..n]) + [ls[n]];
    }
  }

  lemma {:induction false} PushListsMeans(s: LinkState, wants: seq<seq<Link>>, n: nat)
    requires n <= |wants| <= |s.lists|
    ensures var r := PushLists(s, wants, n);
            && Grows(s, r)
            && (r.free > 0 ==> forall p :: 0 <= p < |s.lists| ==>
                  r.lists[p] == s.lists[p] + if p < n then wants[p] else [])
  {
    if n > 0 {
      PushListsMeans(s, wants, n - 1);
      PushAllMeans(PushLists(s, wants, n - 1), n - 1, wants[n - 1]);
    }
  }

  /** Unless the tile ran out of links, every edge on the border is linked to the polygons it touches. */
  ghost predicate Joined(m: Seam, s: LinkState) {
    && |s.lists| == |m.a.polys|
    && (s.free > 0 ==> forall p, j, l ::
          0 <= p < |s.lists| && 0 <= j < |m.a.polys[p].neis| && l in EdgeBorderLinks(m, p, j) ==> l in s.lists[p])
  }

  lemma {:induction false} InBorderLinks(m: Seam, p: nat, n: nat, j: nat, l: Link)
    requires p < |m.a.polys| && j < n <= |m.a.polys[p].neis| && l in EdgeBorderLinks(m, p, j)
    ensures l in BorderLinks(m, p, n)
  {
    hide EdgeBorderLinks;
    if j < n - 1 {
      InBorderLinks(m, p, n - 1, j, l);
    }
  }

  lemma BordersJoin(m: Seam, s: LinkState)
    requires |s.lists| == |m.a.polys|
    ensures Joined(m, PushLists(s, Borders(m), |m.a.polys|))
  {
    hide EdgeBorderLinks, BorderLinks;
    var r := PushLists(s, Borders(m), |m.a.polys|);
    PushListsMeans(s, Borders(m), |m.a.polys|);
    forall p, j, l | r.free > 0 && 0 <= p < |s.lists| && 0 <= j < |m.a.polys[p].neis| && l in EdgeBorderLinks(m, p, j)
      ensures l in r.lists[p]
    {
      InBorderLinks(m, p, |m.a.polys[p].neis|, j, l);
      assert l in s.lists[p] + BorderLinks(m, p, |m.a.polys[p].neis|);
    }
  }

  lemma JoinedGrows(m: Seam, s: LinkState, s': LinkState)
    requires Joined(m, s) && Grows(s, s')
    ensures Joined(m, s')
  {
    hide EdgeBorderLinks;
  }

  // ---------- Off-mesh links ----------

  /**
   The polygon of one tile nearest to the start or end of another's off-mesh connection; out of range when none is
   near.
   */
  type Nearest = (Header, Header, nat, bool) -> nat

  /** The reference of the polygon of `a` where an end of connection `i` of `b` lies, or 0. */
  function Landing(nearest: Nearest, w: Bits, ts: seq<Tile>, a: nat, b: nat, i: nat, start: bool): (ref: nat)
    requires Live(ts, a) && Live(ts, b)
  {
    var q := nearest(ts[a].header.value, ts[b].header.value, i, start);
    if q < PolyCount(ts, a) then EncodePolyId(w, ts[a].salt, a, q) else 0
  }

  /** The reference names the polygon the search found in `a`, if it found one. */
  lemma LandingMeans(nearest: Nearest, w: Bits, ts: seq<Tile>, a: nat, b: nat, i: nat, start: bool)
    requires AllFit(w, ts) && Live(ts, a) && Live(ts, b)
    ensures var q, ref := nearest(ts[a].header.value, ts[b].header.value, i, start),
              Landing(nearest, w, ts, a, b, i, start);
            if q >= |ts[a].header.value.polys| then ref == 0
            else DecodePoly(w, ref) == q && DecodeTile(w, ref) == a && DecodeSalt(w, ref) == ts[a].salt
  {
    hide Pow2, DecodePoly, DecodeSalt, DecodeTile, EncodePolyId;
    assert TileFits(w, ts[a]);
    var q := nearest(ts[a].header.value, ts[b].header.value, i, start);
    if q < PolyCount(ts, a) {
      DecodeEncode(w, ts[a].salt, a, q);
    }
  }

  /**
   An off-mesh polygon of `b` is linked to where it lands in `a`, and back if asked; the way back is cut to 16 bits.
   */
  function LinkedBothWays(w: Bits, ts: seq<Tile>, links: seq<LinkState>, a: nat, b: nat, poly: nat, ref: nat,
                          out: Link, back: Link, both: bool): (r: seq<LinkState>)
    requires a < |links| && b < |links|
    ensures |r| == |links|
  {
    var first := links[b := PushLink(links[b], poly, out)];
    if both then first[a := PushLink(first[a], DecodePoly(w, ref) % 65536, back)] else first
  }

  /** The links after the first `n` off-mesh connections of `b` were linked to `a` across this side. */
  function OffMeshLinked(nearest: Nearest, w: Bits, ts: seq<Tile>, links: seq<LinkState>, a: nat, b: nat, side: int,
                         n: nat): (r: seq<LinkState>)
    requires Live(ts, a) && Live(ts, b) && a < |links| && b < |links| && n <= |ts[b].header.value.offMeshCons|
    requires -1 <= side < 8
    ensures |r| == |links|
  {
    if n == 0 then links
    else
      var was, con := OffMeshLinked(nearest, w, ts, links, a, b, side, n - 1), ts[b].header.value.offMeshCons[n - 1];
      var opposite, back := if side == -1 then NO_SIDE else OppositeTile(side), if side == -1 then NO_SIDE else side;
      var ref := Landing(nearest, w, ts, a, b, n - 1, false);
      // A connection whose start was linked nowhere is skipped.
      if con.side != opposite || con.poly >= |was[b].lists| || was[b].lists[con.poly] == [] || ref == 0 then was
      else LinkedBothWays(w, ts, was, a, b, con.poly, ref, Link(ref, 1, opposite),
                          Link(EncodePolyId(w, ts[b].salt, b, con.poly), NO_SIDE, back), con.bidir)
  }

  /** The links after the starts of the first `n` off-mesh connections of `a` were linked within it. */
  function BaseLinked(nearest: Nearest, w: Bits, ts: seq<Tile>, links: seq<LinkState>, a: nat,
                      n: nat): (r: seq<LinkState>)
    requires Live(ts, a) && a < |links| && n <= |ts[a].header.value.offMeshCons|
    ensures |r| == |links|
  {
    if n == 0 then links
    else
      var was, con := BaseLinked(nearest, w, ts, links, a, n - 1), ts[a].header.value.offMeshCons[n - 1];
      var ref := Landing(nearest, w, ts, a, a, n - 1, true);
      if ref == 0 then was
      else LinkedBothWays(w, ts, was, a, a, con.poly, ref, Link(ref, 0, NO_SIDE),
                          Link(EncodePolyId(w, ts[a].salt, a, con.poly), NO_SIDE, NO_SIDE), true)
  }

  /**
   Off-mesh connection `i` of `b`, if it ends on this side and its start was linked before, is now linked to
   where it lands in `a`, and back if it goes both ways, unless links ran out.
   */
  ghost predicate ConJoined(nearest: Nearest, w: Bits, ts: seq<Tile>, was: seq<LinkState>, now: seq<LinkState>,
                            a: nat, b: nat, side: int, i: nat)
    requires Live(ts, a) && Live(ts, b) && a < |was| == |now| && b < |was| && i < |ts[b].header.value.offMeshCons|
    requires -1 <= side < 8
  {
    var con, ref := ts[b].header.value.offMeshCons[i], Landing(nearest, w, ts, a, b, i, false);
    var opposite, back := if side == -1 then NO_SIDE else OppositeTile(side), if side == -1 then NO_SIDE else side;
    con.side == opposite && ref != 0 && Started(was, b, con.poly) ==>
      && Made(now[b], con.poly, Link(ref, 1, opposite))
      && (con.bidir ==> Made(now[a], DecodePoly(w, ref) % 65536,
                             Link(EncodePolyId(w, ts[b].salt, b, con.poly), NO_SIDE, back)))
  }

  predicate Started(links: seq<LinkState>, b: nat, poly: nat)
    requires b < |links|
  {
    poly < |links[b].lists| && links[b].lists[poly] != []
  }

  /** The link was made, unless there was no free one or no such polygon. */
  predicate Made(s: LinkState, p: nat, link: Link) { s.free > 0 && p < |s.lists| ==> link in s.lists[p] }

  lemma MadeGrows(s: LinkState, s': LinkState, p: nat, link: Link)
    requires Made(s, p, link) && Grows(s, s')
    ensures Made(s', p, link)
  {
  }

  lemma PushMakes(links: seq<LinkState>, a: nat, p: nat, link: Link)
    requires a < |links|
    ensures var now := links[a := PushLink(links[a], p, link)]; AllGrow(links, now) && Made(now[a], p, link)
  {
    var now := links[a := PushLink(links[a], p, link)];
    forall b | 0 <= b < |links|
      ensures Grows(links[b], now[b])
    {
    }
  }

  lemma GrowBoth(was: seq<LinkState>, mid: seq<LinkState>, now: seq<LinkState>)
    requires AllGrow(was, mid) && AllGrow(mid, now)
    ensures AllGrow(was, now)
  {
    forall a | 0 <= a < |was|
      ensures Grows(was[a], now[a])
    {
      assert Grows(was[a], mid[a]) && Grows(mid[a], now[a]);
    }
  }

  lemma BothWaysMakes(w: Bits, ts: seq<Tile>, links: seq<LinkState>, a: nat, b: nat, poly: nat, ref: nat, out: Link,
                      back: Link, both: bool)
    requires a < |links| && b < |links|
    ensures var now := LinkedBothWays(w, ts, links, a, b, poly, ref, out, back, both);
            AllGrow(links, now) && Made(now[b], poly, out) && (both ==> Made(now[a], DecodePoly(w, ref) % 65536, back))
  {
    hide Made, Grows, PushLink;
    PushMakes(links, b, poly, out);
    var first := links[b := PushLink(links[b], poly, out)];
    if both {
      var q := DecodePoly(w, ref) % 65536;
      PushMakes(first, a, q, back);
      var now := first[a := PushLink(first[a], q, back)];
      assert Grows(first[b], now[b]);
      MadeGrows(first[b], now[b], poly, out);
      GrowBoth(links, first, now);
    }
  }

  lemma ConGrows(nearest: Nearest, w: Bits, ts: seq<Tile>, early: seq<LinkState>, was: seq<LinkState>,
                 now: seq<LinkState>,
                 later: seq<LinkState>, a: nat, b: nat, side: int, i: nat)
    requires Live(ts, a) && Live(ts, b) && a < |was| == |now| && b < |was| && i < |ts[b].header.value.offMeshCons|
    requires -1 <= side < 8
    requires AllGrow(early, was) && AllGrow(now, later) && ConJoined(nearest, w, ts, was, now, a, b, side, i)
    ensures ConJoined(nearest, w, ts, early, later, a, b, side, i)
  {
    hide Made, Landing;
    assert Grows(early[b], was[b]) && Grows(now[a], later[a]) && Grows(now[b], later[b]);
    var con, ref := ts[b].header.value.offMeshCons[i], Landing(nearest, w, ts, a, b, i, false);
    var opposite, back := if side == -1 then NO_SIDE else OppositeTile(side), if side == -1 then NO_SIDE else side;
    var out, home := Link(ref, 1, opposite), Link(EncodePolyId(w, ts[b].salt, b, con.poly), NO_SIDE, back);
    if Made(now[b], con.poly, out) {
      MadeGrows(now[b], later[b], con.poly, out);
    }
    if Made(now[a], DecodePoly(w, ref) % 65536, home) {
      MadeGrows(now[a], later[a], DecodePoly(w, ref) % 65536, home);
    }
  }

  /** Going through the connections makes each of its links and takes none away. */
  lemma {:induction false} OffMeshJoins(nearest: Nearest, w: Bits, ts: seq<Tile>, links: seq<LinkState>, a: nat,
                                        b: nat, side: int, n: nat)
    requires Live(ts, a) && Live(ts, b) && a < |links| && b < |links| && n <= |ts[b].header.value.offMeshCons|
    requires -1 <= side < 8
    ensures var now := OffMeshLinked(nearest, w, ts, links, a, b, side, n);
            AllGrow(links, now) && forall i :: 0 <= i < n ==> ConJoined(nearest, w, ts, links, now, a, b, side, i)
  {
    hide LinkedBothWays, Landing, Made, AllGrow;
    SelfGrows(links);
    if n > 0 {
      var was, now := OffMeshLinked(nearest, w, ts, links, a, b, side, n - 1),
        OffMeshLinked(nearest, w, ts, links, a, b, side, n);
      OffMeshJoins(nearest, w, ts, links, a, b, side, n - 1);
      OffMeshStep(nearest, w, ts, links, a, b, side, n);
      GrowBoth(links, was, now);
      forall i | 0 <= i < n
        ensures ConJoined(nearest, w, ts, links, now, a, b, side, i)
      {
        if i < n - 1 {
          ConGrows(nearest, w, ts, links, links, was, now, a, b, side, i);
        } else {
          SelfGrows(now);
          ConGrows(nearest, w, ts, links, was, now, now, a, b, side, i);
        }
      }
    }
  }

  /** The start of connection `i` is linked to the polygon below it, and back, unless links ran out. */
  ghost predicate StartJoined(nearest: Nearest, w: Bits, ts: seq<Tile>, now: seq<LinkState>, a: nat, i: nat)
    requires Live(ts, a) && a < |now| && i < |ts[a].header.value.offMeshCons|
  {
    var con, ref := ts[a].header.value.offMeshCons[i], Landing(nearest, w, ts, a, a, i, true);
    ref != 0 ==>
      && Made(now[a], con.poly, Link(ref, 0, NO_SIDE))
      && Made(now[a], DecodePoly(w, ref) % 65536, Link(EncodePolyId(w, ts[a].salt, a, con.poly), NO_SIDE, NO_SIDE))
  }

  lemma StartGrows(nearest: Nearest, w: Bits, ts: seq<Tile>, was: seq<LinkState>, now: seq<LinkState>, a: nat, i: nat)
    requires Live(ts, a) && a < |was| && i < |ts[a].header.value.offMeshCons|
    requires AllGrow(was, now) && StartJoined(nearest, w, ts, was, a, i)
    ensures StartJoined(nearest, w, ts, now, a, i)
  {
    hide Made, Landing;
    assert Grows(was[a], now[a]);
    var con, ref := ts[a].header.value.offMeshCons[i], Landing(nearest, w, ts, a, a, i, true);
    if ref != 0 {
      MadeGrows(was[a], now[a], con.poly, Link(ref, 0, NO_SIDE));
      MadeGrows(was[a], now[a], DecodePoly(w, ref) % 65536,
                Link(EncodePolyId(w, ts[a].salt, a, con.poly), NO_SIDE, NO_SIDE));
    }
  }

  /** The starts of all connections are linked both ways, as far as links lasted; no other tile changes. */
  lemma {:induction false} BaseJoins(nearest: Nearest, w: Bits, ts: seq<Tile>, links: seq<LinkState>, a: nat, n: nat)
    requires Live(ts, a) && a < |links| && n <= |ts[a].header.value.offMeshCons|
    ensures var now := BaseLinked(nearest, w, ts, links, a, n);
            && AllGrow(links, now) && now == links[a := now[a]]
            && forall i :: 0 <= i < n ==> StartJoined(nearest, w, ts, now, a, i)
  {
    hide Landing, Made, AllGrow, PushLink;
    SelfGrows(links);
    if n > 0 {
      BaseJoins(nearest, w, ts, links, a, n - 1);
      var was, now := BaseLinked(nearest, w, ts, links, a, n - 1), BaseLinked(nearest, w, ts, links, a, n);
      var con, ref := ts[a].header.value.offMeshCons[n - 1], Landing(nearest, w, ts, a, a, n - 1, true);
      SelfGrows(was);
      BothWaysMakes(w, ts, was, a, a, con.poly, ref, Link(ref, 0, NO_SIDE),
                    Link(EncodePolyId(w, ts[a].salt, a, con.poly), NO_SIDE, NO_SIDE), true);
      GrowBoth(links, was, now);
      forall i | 0 <= i < n - 1
        ensures StartJoined(nearest, w, ts, now, a, i)
      {
        StartGrows(nearest, w, ts, was, now, a, i);
      }
    }
  }

  lemma SelfGrows(links: seq<LinkState>)
    ensures AllGrow(links, links)
  {
    forall a | 0 <= a < |links|
      ensures Grows(links[a], links[a])
    {
    }
  }

  lemma OffMeshStep(nearest: Nearest, w: Bits, ts: seq<Tile>, links: seq<LinkState>, a: nat, b: nat, side: int, n: nat)
    requires Live(ts, a) && Live(ts, b) && a < |links| && b < |links| && 0 < n <= |ts[b].header.value.offMeshCons|
    requires -1 <= side < 8
    ensures var was, now := OffMeshLinked(nearest, w, ts, links, a, b, side, n - 1),
            OffMeshLinked(nearest, w, ts, links, a, b, side, n);
            AllGrow(was, now) && ConJoined(nearest, w, ts, was, now, a, b, side, n - 1)
  {
    hide LinkedBothWays, Landing, Made, AllGrow;
    var was, con := OffMeshLinked(nearest, w, ts, links, a, b, side, n - 1), ts[b].header.value.offMeshCons[n - 1];
    var opposite, back := if side == -1 then NO_SIDE else OppositeTile(side), if side == -1 then NO_SIDE else side;
    var ref := Landing(nearest, w, ts, a, b, n - 1, false);
    SelfGrows(was);
    BothWaysMakes(w, ts, was, a, b, con.poly, ref, Link(ref, 1, opposite),
                  Link(EncodePolyId(w, ts[b].salt, b, con.poly), NO_SIDE, back), con.bidir);
  }

  // ---------- Pairs of tiles ----------

  function SeamOf(touches: Touches, w: Bits, ts: seq<Tile>, a: nat, b: nat, side: int): Seam
    requires Live(ts, a) && Live(ts, b)
  {
    Seam(touches, w, ts[a].header.value, ts[b].header.value, ts[b].salt, b, side)
  }

  function OtherSide(side: int): int
    requires -1 <= side < 8
  {
    if side == -1 then -1 else OppositeTile(side)
  }

  /** Both tiles are linked to each other across this side of the first, as far as their links lasted. */
  ghost predicate PairJoined(touches: Touches, w: Bits, ts: seq<Tile>, links: seq<LinkState>, a: nat, b: nat,
                             side: int) {
    && Live(ts, a) && Live(ts, b) && a < |links| && b < |links| && -1 <= side < 8
    && Joined(SeamOf(touches, w, ts, a, b, side), links[a])
       && Joined(SeamOf(touches, w, ts, b, a, OtherSide(side)), links[b])
  }

  lemma PairGrows(touches: Touches, w: Bits, ts: seq<Tile>, was: seq<LinkState>, now: seq<LinkState>, a: nat, b: nat,
                  side: int)
    requires PairJoined(touches, w, ts, was, a, b, side) && AllGrow(was, now)
    ensures PairJoined(touches, w, ts, now, a, b, side)
  {
    hide Joined, Grows;
    assert Grows(was[a], now[a]) && Grows(was[b], now[b]);
    JoinedGrows(SeamOf(touches, w, ts, a, b, side), was[a], now[a]);
    JoinedGrows(SeamOf(touches, w, ts, b, a, OtherSide(side)), was[b], now[b]);
  }

  ghost predicate OffJoined(nearest: Nearest, w: Bits, ts: seq<Tile>, was: seq<LinkState>, now: seq<LinkState>, a: nat,
                            b: nat, side: int)
    requires Live(ts, a) && Live(ts, b) && a < |was| == |now| && b < |was| && -1 <= side < 8
  {
    forall i :: 0 <= i < |ts[b].header.value.offMeshCons| ==> ConJoined(nearest, w, ts, was, now, a, b, side, i)
  }

  /**
   Border links and off-mesh links between two tiles are all made, as far as links lasted; `was` is the state
   before.
   */
  ghost predicate PairSewn(touches: Touches, nearest: Nearest, w: Bits, ts: seq<Tile>, was: seq<LinkState>,
                           now: seq<LinkState>,
                           a: nat, b: nat, side: int) {
    && |was| == |now| && PairJoined(touches, w, ts, now, a, b, side)
    && OffJoined(nearest, w, ts, was, now, a, b, side) && OffJoined(nearest, w, ts, was, now, b, a, OtherSide(side))
  }

  lemma OffGrows(nearest: Nearest, w: Bits, ts: seq<Tile>, early: seq<LinkState>, was: seq<LinkState>,
                 now: seq<LinkState>,
                 later: seq<LinkState>, a: nat, b: nat, side: int)
    requires Live(ts, a) && Live(ts, b) && a < |was| == |now| && b < |was| && -1 <= side < 8
    requires AllGrow(early, was) && AllGrow(now, later) && OffJoined(nearest, w, ts, was, now, a, b, side)
    ensures OffJoined(nearest, w, ts, early, later, a, b, side)
  {
    hide ConJoined;
    forall i | 0 <= i < |ts[b].header.value.offMeshCons|
      ensures ConJoined(nearest, w, ts, early, later, a, b, side, i)
    {
      ConGrows(nearest, w, ts, early, was, now, later, a, b, side, i);
    }
  }

  lemma SewnGrows(touches: Touches, nearest: Nearest, w: Bits, ts: seq<Tile>, early: seq<LinkState>,
                  was: seq<LinkState>,
                  now: seq<LinkState>, later: seq<LinkState>, a: nat, b: nat, side: int)
    requires PairSewn(touches, nearest, w, ts, was, now, a, b, side) && AllGrow(early, was) && AllGrow(now, later)
    ensures PairSewn(touches, nearest, w, ts, early, later, a, b, side)
  {
    hide OffJoined, Joined, Grows;
    PairGrows(touches, w, ts, now, later, a, b, side);
    OffGrows(nearest, w, ts, early, was, now, later, a, b, side);
    OffGrows(nearest, w, ts, early, was, now, later, b, a, OtherSide(side));
  }
}
