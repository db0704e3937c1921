/**
 Singly linked chains threaded through one array of slots: a head per chain and a next index per slot.
 A chain is written bottom first, so that its head is its last element.
 */
module Chains {
  import opened Collections

  /** The null index. */
  const NONE := -1

  /** `own[i]` is the chain slot `i` is in, or the number of chains when it is in none. */
  datatype Table = Table(heads: seq<int>, next: seq<int>, own: seq<nat>, chains: seq<seq<nat>>)

  function Top(c: seq<nat>): int { if c == [] then NONE else c[|c| - 1] }

  /** The slot below position `k`. */
  function Below(c: seq<nat>, k: nat): int
    requires k <= |c|
  {
    if k == 0 then NONE else c[k - 1]
  }

  /** Following `next` from the slot at each position leads to the one below it. */
  ghost predicate Threaded(next: seq<int>, c: seq<nat>) {
    forall k {:trigger ThreadedAt(next, c, k)} :: 0 <= k < |c| ==> ThreadedAt(next, c, k)
  }

  predicate ThreadedAt(next: seq<int>, c: seq<nat>, k: nat)
    requires k < |c|
  {
    c[k] < |next| && next[c[k]] == Below(c, k)
  }

  /** All slots of `c` are owned by chain `p`, and none occurs twice. */
  ghost predicate Owned(own: seq<nat>, c: seq<nat>, p: nat) {
    && (forall k :: 0 <= k < |c| ==> c[k] < |own| && own[c[k]] == p)
    && (forall k, l :: 0 <= k < l < |c| ==> c[k] != c[l])
  }

  ghost predicate ChainOk(t: Table, p: nat) {
    && p < |t.chains| && p < |t.heads|
    && t.heads[p] == Top(t.chains[p]) && Threaded(t.next, t.chains[p]) && Owned(t.own, t.chains[p], p)
  }

  /** Slot `i` is in the chain that owns it. */
  ghost predicate SlotOk(t: Table, i: nat) {
    i < |t.own| && t.own[i] <= |t.chains| && (t.own[i] < |t.chains| ==> i in t.chains[t.own[i]])
  }

  ghost predicate Good(t: Table) {
    && |t.heads| == |t.chains| && |t.next| == |t.own|
    && (forall p {:trigger ChainOk(t, p)} :: 0 <= p < |t.chains| ==> ChainOk(t, p))
    && (forall i {:trigger SlotOk(t, i)} :: 0 <= i < |t.own| ==> SlotOk(t, i))
  }

  /** Every slot is in some chain. */
  ghost predicate Whole(t: Table) { Good(t) && forall i :: 0 <= i < |t.own| ==> t.own[i] < |t.chains| }

  // ---------- Taking a slot out of a chain ----------

  /** The slot at position `k` of chain `p` is bypassed. */
  function Unlink(t: Table, p: nat, k: nat): Table
    requires p < |t.chains| == |t.heads| && k < |t.chains[p]|
    requires t.chains[p][k] < |t.own| == |t.next|
    requires k + 1 < |t.chains[p]| ==> t.chains[p][k + 1] < |t.next|
  {
    var c := t.chains[p];
    var below, i := t.next[c[k]], c[k];
    var chains, own := t.chains[p := Without(c, k)], t.own[i := |t.chains|];
    if k + 1 == |c| then Table(t.heads[p := below], t.next, own, chains)
    else Table(t.heads, t.next[c[k + 1] := below], own, chains)
  }

  lemma UnlinkFits(t: Table, p: nat, k: nat)
    requires Good(t) && p < |t.chains| && k < |t.chains[p]|
    ensures t.chains[p][k] < |t.own| && t.own[t.chains[p][k]] == p
    ensures k + 1 < |t.chains[p]| ==> t.chains[p][k + 1] < |t.next|
    ensures t.next[t.chains[p][k]] == Below(t.chains[p], k)
  {
    assert ChainOk(t, p) && ThreadedAt(t.next, t.chains[p], k);
  }

  lemma UnlinkThreads(t: Table, p: nat, k: nat)
    requires ChainOk(t, p) && k < |t.chains[p]| && |t.heads| == |t.chains| && |t.next| == |t.own|
    ensures ChainOk(Unlink(t, p, k), p)
  {
    var c, u := t.chains[p], Unlink(t, p, k);
    var d := Without(c, k);
    assert ThreadedAt(t.next, c, k);
    forall l | 0 <= l < |d|
      ensures ThreadedAt(u.next, d, l)
    {
      assert ThreadedAt(t.next, c, if l < k then l else l + 1);
    }
  }

  lemma UnlinkOthers(t: Table, p: nat, k: nat, q: nat)
    requires ChainOk(t, p) && ChainOk(t, q) && p != q && k < |t.chains[p]| && |t.heads| == |t.chains|
    requires |t.next| == |t.own|
    ensures ChainOk(Unlink(t, p, k), q)
  {
    var c, u := t.chains[p], Unlink(t, p, k);
    var d := t.chains[q];
    forall l | 0 <= l < |d|
      ensures d[l] != c[k] && ThreadedAt(u.next, d, l)
    {
      assert ThreadedAt(t.next, d, l);
      assert t.own[d[l]] == q && t.own[c[k]] == p;
    }
  }

  lemma UnlinkSlot(t: Table, p: nat, k: nat, i: nat)
    requires ChainOk(t, p) && SlotOk(t, i) && k < |t.chains[p]| && |t.heads| == |t.chains| && |t.next| == |t.own|
    ensures SlotOk(Unlink(t, p, k), i)
  {
    var c, u := t.chains[p], Unlink(t, p, k);
    if i != c[k] && t.own[i] == p {
      var l :| 0 <= l < |c| && c[l] == i;
      var d := Without(c, k);
      assert d[if l < k then l else l - 1] == i;
    }
  }

  lemma UnlinkGood(t: Table, p: nat, k: nat)
    requires Good(t) && p < |t.chains| && k < |t.chains[p]|
    ensures t.chains[p][k] < |t.own| && (k + 1 < |t.chains[p]| ==> t.chains[p][k + 1] < |t.next|)
    ensures Good(Unlink(t, p, k))
  {
    hide ChainOk, SlotOk;
    UnlinkFits(t, p, k);
    assert ChainOk(t, p);
    forall q | 0 <= q < |t.chains|
      ensures ChainOk(Unlink(t, p, k), q)
    {
      assert ChainOk(t, q);
      if q == p {
        UnlinkThreads(t, p, k);
      } else {
        UnlinkOthers(t, p, k, q);
      }
    }
    forall i | 0 <= i < |t.own|
      ensures SlotOk(Unlink(t, p, k), i)
    {
      assert SlotOk(t, i);
      UnlinkSlot(t, p, k, i);
    }
  }

  // ---------- Putting a slot on a chain ----------

  /** Slot `i`, so far in no chain, becomes the head of chain `p`. */
  function Push(t: Table, i: nat, p: nat): Table
    requires i < |t.own| == |t.next| && p < |t.chains| == |t.heads|
  {
    Table(t.heads[p := i], t.next[i := t.heads[p]], t.own[i := p], t.chains[p := t.chains[p] + [i]])
  }

  lemma PushThreads(t: Table, i: nat, p: nat)
    requires ChainOk(t, p) && i < |t.own| == |t.next| && |t.heads| == |t.chains| && t.own[i] != p
    ensures ChainOk(Push(t, i, p), p)
  {
    var c, u := t.chains[p], Push(t, i, p);
    forall l | 0 <= l < |u.chains[p]|
      ensures ThreadedAt(u.next, u.chains[p], l)
    {
      if l < |c| {
        assert ThreadedAt(t.next, c, l);
      }
    }
  }

  lemma PushOthers(t: Table, i: nat, p: nat, q: nat)
    requires ChainOk(t, p) && ChainOk(t, q) && p != q && i < |t.own| == |t.next| && |t.heads| == |t.chains|
    requires t.own[i] != q
    ensures ChainOk(Push(t, i, p), q)
  {
    var d := t.chains[q];
    forall l | 0 <= l < |d|
      ensures d[l] != i && ThreadedAt(t.next[i := t.heads[p]], d, l)
    {
      assert ThreadedAt(t.next, d, l);
    }
  }

  lemma PushGood(t: Table, i: nat, p: nat)
    requires Good(t) && i < |t.own| && t.own[i] == |t.chains| && p < |t.chains|
    ensures Good(Push(t, i, p))
  {
    hide ChainOk, SlotOk;
    assert ChainOk(t, p);
    forall q | 0 <= q < |t.chains|
      ensures ChainOk(Push(t, i, p), q)
    {
      assert ChainOk(t, q);
      if q == p {
        PushThreads(t, i, p);
      } else {
        PushOthers(t, i, p, q);
      }
    }
    forall j | 0 <= j < |t.own|
      ensures SlotOk(Push(t, i, p), j)
    {
      assert SlotOk(t, j);
      PushSlot(t, i, p, j);
    }
  }

  lemma PushSlot(t: Table, i: nat, p: nat, j: nat)
    requires SlotOk(t, j) && i < |t.own| == |t.next| && p < |t.chains| == |t.heads| && t.own[i] == |t.chains|
    ensures SlotOk(Push(t, i, p), j)
  {
    var c := t.chains[p];
    assert (c + [i])[|c|] == i;
    if j != i && t.own[j] == p {
      var l :| 0 <= l < |c| && c[l] == j;
      assert (c + [i])[l] == j;
    }
  }

  // ---------- What a good table means ----------

  /** A slot is in one chain at most, and there at one position only. */
  lemma OneChainEach(t: Table, p: nat, k: nat, q: nat, l: nat)
    requires Good(t) && p < |t.chains| && q < |t.chains| && k < |t.chains[p]| && l < |t.chains[q]|
    ensures t.chains[p][k] == t.chains[q][l] ==> p == q && k == l
  {
    assert ChainOk(t, p) && ChainOk(t, q);
  }

  /** In a whole table every slot is in exactly one chain. */
  lemma ExactlyOneChain(t: Table, i: nat)
    requires Whole(t) && i < |t.own|
    ensures exists p :: 0 <= p < |t.chains| && i in t.chains[p]
                        && forall q :: 0 <= q < |t.chains| && i in t.chains[q] ==> q == p
  {
    assert SlotOk(t, i);
    var p := t.own[i];
    forall q | 0 <= q < |t.chains| && i in t.chains[q]
      ensures q == p
    {
      assert ChainOk(t, q);
    }
  }

  /** The slots following `next` from a head, at most `fuel` of them. */
  function Walk(next: seq<int>, head: int, fuel: nat): seq<int>
    decreases fuel
  {
    if fuel == 0 || !(0 <= head < |next|) then []
    else [head] + Walk(next, next[head], fuel - 1)
  }

  function Reversed(c: seq<nat>): seq<int> {
    if c == [] then [] else [c[|c| - 1]] + Reversed(c[..|c| - 1])
  }

  /** Following a chain from its head lists its slots and then stops: the chain has no cycle. */
  lemma {:induction false} WalkStops(next: seq<int>, c: seq<nat>, fuel: nat)
    requires Threaded(next, c) && |c| <= fuel
    ensures Walk(next, Top(c), fuel) == Reversed(c)
  {
    if c != [] {
      var d := c[..|c| - 1];
      assert ThreadedAt(next, c, |c| - 1);
      forall k | 0 <= k < |d|
        ensures ThreadedAt(next, d, k)
      {
        assert ThreadedAt(next, c, k);
      }
      WalkStops(next, d, fuel - 1);
    }
  }
}
