/**
 The links of one tile: a fixed buffer of links, threaded into one list per polygon and a free list.
 Lists are written oldest link first, so that a polygon's first link is the last element.
 */
module TileLinks {
  import opened Chains
  import opened Collections

  /** What a link says; where its portal lies on the edge is not modelled. */
  datatype Link = Link(ref: nat, edge: nat, side: nat)

  /** The slots of `c` whose links are not to be dropped. */
  function KeepSlots(links: seq<Link>, c: seq<nat>, drop: nat -> bool): (r: seq<nat>)
    requires forall k :: 0 <= k < |c| ==> c[k] < |links|
  {
    if c == [] then []
    else KeepSlots(links, c[..|c| - 1], drop) + if drop(links[c[|c| - 1]].ref) then [] else [c[|c| - 1]]
  }

  /** The links that are not to be dropped, in order. */
  function Keep(s: seq<Link>, drop: nat -> bool): seq<Link> {
    if s == [] then [] else Keep(s[..|s| - 1], drop) + if drop(s[|s| - 1].ref) then [] else [s[|s| - 1]]
  }

  function Contents(links: seq<Link>, c: seq<nat>): (r: seq<Link>)
    requires forall k :: 0 <= k < |c| ==> c[k] < |links|
  {
    seq(|c|, k requires 0 <= k < |c| => links[c[k]])
  }

  function AllContents(links: seq<Link>, chains: seq<seq<nat>>, n: nat): (r: seq<seq<Link>>)
    requires n <= |chains|
    requires forall p, k :: 0 <= p < |chains| && 0 <= k < |chains[p]| ==> chains[p][k] < |links|
    ensures |r| == n && forall p :: 0 <= p < n ==> r[p] == Contents(links, chains[p])
  {
    seq(n, p requires 0 <= p < n => Contents(links, chains[p]))
  }

  lemma {:induction false} KeepContents(links: seq<Link>, c: seq<nat>, drop: nat -> bool)
    requires forall k :: 0 <= k < |c| ==> c[k] < |links|
    ensures forall k :: 0 <= k < |KeepSlots(links, c, drop)| ==> KeepSlots(links, c, drop)[k] < |links|
    ensures Contents(links, KeepSlots(links, c, drop)) == Keep(Contents(links, c), drop)
  {
    if c != [] {
      var d := c[..|c| - 1];
      KeepContents(links, d, drop);
      assert Contents(links, c)[..|c| - 1] == Contents(links, d);
      var kept := KeepSlots(links, d, drop);
      assert Contents(links, kept + [c[|c| - 1]]) == Contents(links, kept) + [links[c[|c| - 1]]];
    }
  }

  /** Dropping leaves exactly the links that are not to be dropped. */
  lemma {:induction false} KeepMeans(s: seq<Link>, drop: nat -> bool, link: Link)
    ensures link in Keep(s, drop) <==> link in s && !drop(link.ref)
  {
    if s != [] {
      assert s == s[..|s| - 1] + [s[|s| - 1]];
      KeepMeans(s[..|s| - 1], drop, link);
    }
  }

  // ---------- What a pool stands for ----------

  /** The links of each polygon, oldest first, and how many are unused. */
  datatype LinkState = LinkState(lists: seq<seq<Link>>, free: nat)

  function FreshLinks(polyCount: nat, maxLinkCount: nat): LinkState {
    LinkState(seq(polyCount, _ => []), maxLinkCount)
  }

  /** A new first link for polygon `p`; silently nothing when no link is free. */
  function PushLink(s: LinkState, p: nat, link: Link): (r: LinkState) {
    if s.free == 0 || p >= |s.lists| then s else LinkState(s.lists[p := s.lists[p] + [link]], s.free - 1)
  }

  function KeepAll(lists: seq<seq<Link>>, drop: nat -> bool): seq<seq<Link>> {
    seq(|lists|, p requires 0 <= p < |lists| => Keep(lists[p], drop))
  }

  function Total(lists: seq<seq<Link>>): nat {
    if lists == [] then 0 else Total(lists[..|lists| - 1]) + |lists[|lists| - 1]|
  }

  lemma {:induction false} KeepShorter(s: seq<Link>, drop: nat -> bool)
    ensures |Keep(s, drop)| <= |s|
  {
    if s != [] {
      KeepShorter(s[..|s| - 1], drop);
    }
  }

  lemma {:induction false} KeepAllShorter(lists: seq<seq<Link>>, drop: nat -> bool)
    ensures Total(KeepAll(lists, drop)) <= Total(lists)
  {
    if lists != [] {
      KeepAllShorter(lists[..|lists| - 1], drop);
      KeepShorter(lists[|lists| - 1], drop);
      assert KeepAll(lists, drop)[..|lists| - 1] == KeepAll(lists[..|lists| - 1], drop);
    }
  }

  /** Dropped links become free ones. */
  function Unconnected(s: LinkState, drop: nat -> bool): (r: LinkState)
    ensures Total(r.lists) + r.free == Total(s.lists) + s.free
  {
    KeepAllShorter(s.lists, drop);
    LinkState(KeepAll(s.lists, drop), s.free + Total(s.lists) - Total(KeepAll(s.lists, drop)))
  }

  lemma {:induction false} TotalReplaced(lists: seq<seq<Link>>, p: nat, l: seq<Link>)
    requires p < |lists|
    ensures Total(lists[p := l]) == Total(lists) - |lists[p]| + |l|
  {
    var n := |lists| - 1;
    if p == n {
      assert lists[p := l][..n] == lists[..n];
    } else {
      TotalReplaced(lists[..n], p, l);
      assert lists[p := l][..n] == lists[..n][p := l];
    }
  }

  /** No link is lost or made. */
  lemma PushConserves(s: LinkState, p: nat, link: Link)
    requires p < |s.lists|
    ensures var r := PushLink(s, p, link); Total(r.lists) + r.free == Total(s.lists) + s.free
  {
    TotalReplaced(s.lists, p, s.lists[p] + [link]);
  }

  // ---------- Histories ----------

  /** A change to one tile's links: a new first link for a polygon, or every link to be dropped gone. */
  datatype LinkOp = Give(p: nat, link: Link) | Drop(drop: nat -> bool)

  function Apply(s: LinkState, op: LinkOp): (r: LinkState)
    ensures |r.lists| == |s.lists|
  {
    match op
    case Give(p, link) => PushLink(s, p, link)
    case Drop(drop) => Unconnected(s, drop)
  }

  function Applied(s: LinkState, ops: seq<LinkOp>): (r: LinkState)
    ensures |r.lists| == |s.lists|
  {
    if ops == [] then s else Apply(Applied(s, ops[..|ops| - 1]), ops[|ops| - 1])
  }

  /** Some history of changes leads from a fresh pool to this state. */
  ghost predicate Pooled(s: LinkState, polyCount: nat, maxLinkCount: nat) {
    exists ops :: s == Applied(FreshLinks(polyCount, maxLinkCount), ops)
  }

  lemma PooledFresh(polyCount: nat, maxLinkCount: nat)
    ensures Pooled(FreshLinks(polyCount, maxLinkCount), polyCount, maxLinkCount)
  {
    assert Applied(FreshLinks(polyCount, maxLinkCount), []) == FreshLinks(polyCount, maxLinkCount);
  }

  lemma PooledStep(s: LinkState, polyCount: nat, maxLinkCount: nat, op: LinkOp)
    requires Pooled(s, polyCount, maxLinkCount)
    ensures Pooled(Apply(s, op), polyCount, maxLinkCount)
  {
    var fresh0 := FreshLinks(polyCount, maxLinkCount);
    var ops :| s == Applied(fresh0, ops);
    assert (ops + [op])[..|ops|] == ops;
    assert Apply(s, op) == Applied(fresh0, ops + [op]);
  }

  lemma {:induction false} FreshTotal(lists: seq<seq<Link>>)
    requires forall p :: 0 <= p < |lists| ==> lists[p] == []
    ensures Total(lists) == 0
  {
    if lists != [] {
      FreshTotal(lists[..|lists| - 1]);
    }
  }

  lemma {:induction false} AppliedConserves(s: LinkState, ops: seq<LinkOp>)
    ensures var r := Applied(s, ops); Total(r.lists) + r.free == Total(s.lists) + s.free
  {
    if ops != [] {
      var t, op := Applied(s, ops[..|ops| - 1]), ops[|ops| - 1];
      AppliedConserves(s, ops[..|ops| - 1]);
      if op.Give? && op.p < |t.lists| {
        PushConserves(t, op.p, op.link);
      }
    }
  }

  /** However a pool came to its state, there is one list per polygon and no link was lost or made. */
  lemma PooledMeans(s: LinkState, polyCount: nat, maxLinkCount: nat)
    requires Pooled(s, polyCount, maxLinkCount)
    ensures |s.lists| == polyCount && Total(s.lists) + s.free == maxLinkCount
  {
    var ops :| s == Applied(FreshLinks(polyCount, maxLinkCount), ops);
    AppliedConserves(FreshLinks(polyCount, maxLinkCount), ops);
    FreshTotal(FreshLinks(polyCount, maxLinkCount).lists);
  }

  // ---------- The pool ----------

  class LinkPool {
    const links: array<Link>
    const next: array<int>
    /** The first link of each polygon, and last the head of the free list. */
    const heads: array<int>
    const polyCount: nat
    ghost var own: seq<nat>
    ghost var chains: seq<seq<nat>>

    ghost function T(): Table
      reads this, next, heads
    {
      Table(heads[..], next[..], own, chains)
    }

    ghost predicate Shaped()
      reads this
    {
      && heads.Length == polyCount + 1 == |chains| && links.Length == next.Length == |own| && next != heads
    }

    ghost predicate Valid()
      reads this, next, heads
    {
      Shaped() && Whole(T())
    }

    /** The links of polygon `p`, oldest first. */
    ghost function List(p: nat): seq<Link>
      reads this, links, next, heads
      requires Valid() && p < polyCount
    {
      assert ChainOk(T(), p);
      Contents(links[..], chains[p])
    }

    /** How many links are unused. */
    ghost function Free(): nat
      reads this
      requires Shaped()
    {
      |chains[polyCount]|
    }

    ghost function State(): (s: LinkState)
      reads this, links, next, heads
      requires Valid()
      ensures |s.lists| == polyCount && s.free == Free()
      ensures forall p :: 0 <= p < polyCount ==> s.lists[p] == List(p)
    {
      ListsFit(T(), links.Length);
      LinkState(AllContents(links[..], chains, polyCount), Free())
    }

    /** All links start on the free list, lowest index first; no polygon has any. */
    constructor (polyCount: nat, maxLinkCount: nat)
      requires maxLinkCount > 0
      ensures Valid() && this.polyCount == polyCount && links.Length == maxLinkCount && Free() == maxLinkCount
      ensures State() == FreshLinks(polyCount, maxLinkCount)
      ensures fresh(links) && fresh(next) && fresh(heads)
    {
      this.polyCount := polyCount;
      links := new Link[maxLinkCount](_ => Link(0, 0, 0));
      next := new int[maxLinkCount](i => if i == maxLinkCount - 1 then NONE else i + 1);
      heads := new int[polyCount + 1](p => if p == polyCount then 0 else NONE);
      own := seq(maxLinkCount, _ => polyCount);
      chains := seq(polyCount, _ => []) + [seq(maxLinkCount, k requires 0 <= k < maxLinkCount => maxLinkCount - 1 - k)];
      new;
      AllFree(T(), polyCount);
      assert State().lists == FreshLinks(polyCount, maxLinkCount).lists;
    }

    /** Takes the first free link out of the free list. */
    method AllocLink() returns (link: int)
      requires Valid()
      modifies this, heads
      ensures Shaped()
      ensures link == NONE <==> old(Free()) == 0
      ensures link == NONE ==> unchanged(this) && unchanged(heads)
      ensures link != NONE ==> 0 <= link < links.Length && Good(old(T())) && old(Free()) > 0
                               && T() == Unlinked(old(T()), polyCount, old(Free()) - 1) && own[link] == |chains|
                                  && Good(T())
                               && link == old(chains)[polyCount][old(Free()) - 1]
    {
      assert ChainOk(T(), polyCount);
      link := heads[polyCount];
      if link == NONE {
        return;
      }
      ghost var k := |chains[polyCount]| - 1;
      UnlinkGood(T(), polyCount, k);
      ghost var u := Unlink(T(), polyCount, k);
      UnlinkFits(T(), polyCount, k);
      heads[polyCount] := next[link];
      own, chains := u.own, u.chains;
      assert T().heads == u.heads;
    }

    /** Puts a link, now in no list, back on the free list. */
    method FreeLink(link: nat)
      requires Shaped() && Good(T()) && link < links.Length && own[link] == |chains|
      modifies this, next, heads
      ensures Shaped() && T() == Push(old(T()), link, polyCount) && Good(T())
    {
      PutFirst(link, polyCount);
    }

    /** Makes a link, now in no list, the first of list `p`. */
    method PutFirst(link: nat, p: nat)
      requires Shaped() && Good(T()) && link < links.Length && own[link] == |chains| && p <= polyCount
      modifies this, next, heads
      ensures Shaped() && T() == Push(old(T()), link, p) && Good(T())
    {
      PushGood(T(), link, p);
      ghost var u := Push(T(), link, p);
      next[link] := heads[p];
      heads[p] := link;
      own, chains := u.own, u.chains;
      assert T().heads == u.heads && T().next == u.next;
    }

    /** Gives polygon `p` a new first link, if there is a free one. */
    method AddLink(p: nat, link: Link) returns (ok: bool)
      requires Valid() && p < polyCount
      modifies this, links, next, heads
      ensures Valid() && ok == (old(Free()) > 0) && State() == PushLink(old(State()), p, link)
    {
      ghost var t, was := T(), links[..];
      ListsFit(t, links.Length);
      var idx := AllocLink();
      if idx == NONE {
        return false;
      }
      ghost var u := T();
      UnlinkContents(t, polyCount, old(Free()) - 1, was, link);
      SetLink(idx, link);
      PutFirst(idx, p);
      PushContents(u, idx, p, links[..]);
      assert chains[p] == u.chains[p] + [idx];
      assert State().lists == PushLink(old(State()), p, link).lists;
      return true;
    }

    method SetLink(idx: nat, link: Link)
      requires idx < links.Length
      modifies links
      ensures links[..] == old(links[..])[idx := link]
    {
      links[idx] := link;
    }

    /** Takes every link to be dropped out of every polygon's list. */
    method UnconnectLinks(drop: nat -> bool)
      requires Valid()
      modifies this, next, heads
      ensures Valid() && State() == Unconnected(old(State()), drop)
    {
      hide Total, Keep, Whole;
      ghost var s := State();
      for i := 0 to polyCount
        invariant Valid() && Total(State().lists) + Free() == Total(s.lists) + s.free
        invariant forall p :: 0 <= p < polyCount ==>
                    State().lists[p] == if p < i then Keep(s.lists[p], drop) else s.lists[p]
      {
        UnconnectPoly(i, drop);
      }
      assert State().lists == KeepAll(s.lists, drop);
    }

    /** The same for one polygon. */
    method UnconnectPoly(i: nat, drop: nat -> bool)
      requires Valid() && i < polyCount
      modifies this, next, heads
      ensures Valid() && State().lists == old(State()).lists[i := Keep(old(List(i)), drop)]
      ensures Total(State().lists) + Free() == Total(old(State()).lists) + old(Free())
    {
      hide Total, Keep, KeepSlots;
      ghost var s, c := State(), chains;
      ListsFit(T(), links.Length);
      SiftPoly(i, drop);
      ListsFit(T(), links.Length);
      KeepContents(links[..], c[i], drop);
      assert State().lists == s.lists[i := List(i)];
      TotalReplaced(s.lists, i, List(i));
    }

    /** Follows one polygon's list from its first link, removing as it goes. */
    method SiftPoly(i: nat, drop: nat -> bool)
      requires Valid() && i < polyCount
      modifies this, next, heads
      ensures Valid()
      ensures Free() + |chains[i]| == old(Free()) + |old(chains)[i]|
      ensures AllInPool(old(T()), links.Length) && chains[i] == KeepSlots(links[..], old(chains)[i], drop)
      ensures forall p :: 0 <= p < polyCount && p != i ==> chains[p] == old(chains)[p]
    {
      hide Sifted, KeepSlots;
      ListsFit(T(), links.Length);
      ghost var c := chains[i];
      ghost var k: nat := |c|;
      var j, pj := heads[i], NONE;
      assert ChainOk(T(), i);
      SiftStart(links[..], c, drop);
      while j != NONE
        invariant Valid() && k <= |c| && Sifted(links[..], c, chains[i], k, drop)
        invariant k <= |chains[i]| && j == Below(chains[i], k)
        invariant pj == if k == |chains[i]| then NONE else chains[i][k]
        invariant Free() + |chains[i]| == old(Free()) + |old(chains)[i]|
        invariant forall p :: 0 <= p < polyCount && p != i ==> chains[p] == old(chains)[p]
        decreases k
      {
        k := k - 1;
        SiftStep(links[..], c, chains[i], k, drop);
        if drop(links[j].ref) {
          j := RemoveLink(i, j, pj, k);
        } else {
          UnlinkFits(T(), i, k);
          pj, j := j, next[j];
        }
      }
      SiftEnd(links[..], c, chains[i], drop);
    }

    /** Bypasses the link at position `k` of list `i`, frees it and returns the one after it. */
    method RemoveLink(i: nat, j: nat, pj: int, ghost k: nat) returns (nj: int)
      requires Valid() && i < polyCount && k < |chains[i]| && j == chains[i][k]
      requires pj == if k + 1 == |chains[i]| then NONE else chains[i][k + 1]
      modifies this, next, heads
      ensures Valid() && nj == Below(old(chains)[i], k)
      ensures chains[i] == Without(old(chains)[i], k) && Free() == old(Free()) + 1
      ensures forall p :: 0 <= p < polyCount && p != i ==> chains[p] == old(chains)[p]
    {
      UnlinkGood(T(), i, k);
      UnlinkFits(T(), i, k);
      ghost var u := Unlink(T(), i, k);
      nj := next[j];
      if pj == NONE {
        heads[i] := nj;
      } else {
        next[pj] := nj;
      }
      own, chains := u.own, u.chains;
      assert T().heads == u.heads && T().next == u.next;
      FreeLink(j);
    }
  }

  /** A pool put through any history holds the state which that history gives. */
  method Replay(polyCount: nat, maxLinkCount: nat, ops: seq<LinkOp>) returns (pool: LinkPool)
    requires maxLinkCount > 0
    ensures fresh(pool) && pool.Valid() && pool.polyCount == polyCount && pool.links.Length == maxLinkCount
    ensures pool.State() == Applied(FreshLinks(polyCount, maxLinkCount), ops)
  {
    pool := new LinkPool(polyCount, maxLinkCount);
    for i := 0 to |ops|
      invariant fresh(pool) && fresh(pool.links) && fresh(pool.next) && fresh(pool.heads)
      invariant pool.Valid() && pool.polyCount == polyCount
      invariant pool.State() == Applied(FreshLinks(polyCount, maxLinkCount), ops[..i])
    {
      assert ops[..i + 1][..i] == ops[..i];
      match ops[i]
      case Give(p, link) =>
        if p < polyCount {
          var _ := pool.AddLink(p, link);
        }
      case Drop(drop) => pool.UnconnectLinks(drop);
    }
    assert ops[..|ops|] == ops;
  }

  ghost function Unlinked(t: Table, p: nat, k: nat): Table
    requires Good(t) && p < |t.chains| && k < |t.chains[p]|
  {
    UnlinkGood(t, p, k);
    Unlink(t, p, k)
  }

  /** Every list refers to existing slots. */
  ghost predicate AllInPool(t: Table, n: nat) {
    forall p, k :: 0 <= p < |t.chains| && 0 <= k < |t.chains[p]| ==> t.chains[p][k] < n
  }

  lemma ListsFit(t: Table, n: nat)
    requires Good(t) && |t.own| == n
    ensures AllInPool(t, n)
  {
    forall p | 0 <= p < |t.chains|
      ensures forall k :: 0 <= k < |t.chains[p]| ==> t.chains[p][k] < n
    {
      assert ChainOk(t, p);
    }
  }

  /** Writing a link that was free changes no list. */
  lemma UnlinkContents(t: Table, p: nat, k: nat, links: seq<Link>, link: Link)
    requires Good(t) && AllInPool(t, |links|) && p < |t.chains| && k < |t.chains[p]|
    ensures forall q :: 0 <= q < |t.chains| && q != p ==>
              Contents(links[t.chains[p][k] := link], t.chains[q]) == Contents(links, t.chains[q])
  {
    var i := t.chains[p][k];
    forall q | 0 <= q < |t.chains| && q != p
      ensures Contents(links[i := link], t.chains[q]) == Contents(links, t.chains[q])
    {
      forall l | 0 <= l < |t.chains[q]|
        ensures t.chains[q][l] != i
      {
        OneChainEach(t, p, k, q, l);
      }
    }
  }

  /** The list `c` has been gone through from its end down to position `k`, and now reads `d`. */
  ghost predicate Sifted(links: seq<Link>, c: seq<nat>, d: seq<nat>, k: nat, drop: nat -> bool)
    requires forall l :: 0 <= l < |c| ==> c[l] < |links|
  {
    && k <= |c| && k <= |d| && d[..k] == c[..k]
    && KeepSlots(links, c, drop) == KeepSlots(links, c[..k], drop) + d[k..]
  }

  lemma SiftStart(links: seq<Link>, c: seq<nat>, drop: nat -> bool)
    requires forall l :: 0 <= l < |c| ==> c[l] < |links|
    ensures Sifted(links, c, c, |c|, drop)
  {
    assert c[..|c|] == c && c[|c|..] == [];
  }

  lemma SiftStep(links: seq<Link>, c: seq<nat>, d: seq<nat>, k: nat, drop: nat -> bool)
    requires forall l :: 0 <= l < |c| ==> c[l] < |links|
    requires k < |c| && Sifted(links, c, d, k + 1, drop)
    ensures k < |d| && d[k] == c[k]
    ensures if drop(links[c[k]].ref) then Sifted(links, c, Without(d, k), k, drop) else Sifted(links, c, d, k, drop)
  {
    assert d[k] == d[..k + 1][k] == c[..k + 1][k];
    assert d[..k + 1][..k] == d[..k] && c[..k + 1][..k] == c[..k];
    assert d[k..] == [c[k]] + d[k + 1..];
    assert Without(d, k)[k..] == d[k + 1..] && Without(d, k)[..k] == d[..k];
  }

  lemma SiftEnd(links: seq<Link>, c: seq<nat>, d: seq<nat>, drop: nat -> bool)
    requires forall l :: 0 <= l < |c| ==> c[l] < |links|
    requires Sifted(links, c, d, 0, drop)
    ensures d == KeepSlots(links, c, drop)
  {
    assert c[..0] == [] && d[0..] == d;
  }

  lemma PushContents(t: Table, i: nat, p: nat, links: seq<Link>)
    requires AllInPool(t, |links|) && p < |t.chains| && i < |links|
    ensures Contents(links, t.chains[p] + [i]) == Contents(links, t.chains[p]) + [links[i]]
  {
  }

  /** A table whose slots are all in chain `p`, lowest on top. */
  lemma AllFree(t: Table, p: nat)
    requires |t.heads| == |t.chains| == p + 1 && |t.next| == |t.own| > 0
    requires forall i :: 0 <= i < |t.own| ==> t.own[i] == p && t.next[i] == if i == |t.own| - 1 then NONE else i + 1
    requires forall q :: 0 <= q < p ==> t.chains[q] == [] && t.heads[q] == NONE
    requires t.heads[p] == 0 && |t.chains[p]| == |t.own|
    requires forall k :: 0 <= k < |t.own| ==> t.chains[p][k] == |t.own| - 1 - k
    ensures Whole(t)
  {
    var c, n := t.chains[p], |t.own|;
    forall k | 0 <= k < n
      ensures ThreadedAt(t.next, c, k)
    {
    }
    assert ChainOk(t, p);
    forall q | 0 <= q <= p
      ensures ChainOk(t, q)
    {
    }
    forall i | 0 <= i < n
      ensures SlotOk(t, i)
    {
      assert c[n - 1 - i] == i;
    }
  }
}
