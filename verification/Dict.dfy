/**
 The chained hash table behind subscriptions, against a finite map. A bucket is the sequence of its
 entries from the head of its chain; keys stand for entry pointers, which they identify.
 */
module Dict {
  import opened Collections
  import opened Division

  datatype Entry<K, V> = Entry(key: K, val: V)

  const INITIAL_SIZE := 4

  // ---------- Masks ----------

  predicate PowerOfTwo(n: nat) { n == 1 || (n > 0 && n % 2 == 0 && PowerOfTwo(n / 2)) }

  /** The bits two numbers share. */
  function And(a: nat, b: nat): nat {
    if a == 0 || b == 0 then 0 else 2 * And(a / 2, b / 2) + if a % 2 == 1 && b % 2 == 1 then 1 else 0
  }

  /** Masking with one less than a power of two takes the remainder. */
  lemma {:induction false} MaskIsRemainder(h: nat, n: nat)
    requires PowerOfTwo(n)
    ensures And(h, n - 1) == h % n
    decreases n
  {
    hide And;
    AndZero(h, n - 1);
    if n == 1 {
      DivMod(h, 0, 1);
    } else if h == 0 {
      DivMod(0, 0, n);
    } else {
      var m := n / 2;
      MaskIsRemainder(h / 2, m);
      AndOdd(h, m);
      HalfRemainder(h, m);
      assert n == 2 * m;
    }
  }

  lemma AndZero(a: nat, b: nat)
    ensures a == 0 || b == 0 ==> And(a, b) == 0
  {
  }

  lemma AndOdd(h: nat, m: nat)
    requires m > 0
    ensures And(h, 2 * m - 1) == 2 * And(h / 2, m - 1) + h % 2
  {
    assert (2 * m - 1) / 2 == m - 1 && (2 * m - 1) % 2 == 1;
    if h == 0 {
      AndZero(0, m - 1);
    }
  }

  lemma HalfRemainder(h: nat, m: nat)
    requires m > 0
    ensures h % (2 * m) == 2 * (h / 2 % m) + h % 2
  {
    var q, r := h / 2 / m, h / 2 % m;
    Quotient(h / 2, m);
    assert h == q * (2 * m) + (2 * r + h % 2);
    DivMod(q, 2 * r + h % 2, 2 * m);
  }

  /** The bucket of a hash in a table of this size, by the table's mask. */
  function Masked(h: nat, size: nat): (b: nat)
    requires PowerOfTwo(size)
    ensures b == h % size
  {
    MaskIsRemainder(h, size);
    And(h, size - 1)
  }

  // ---------- What a table stands for ----------

  predicate HasKey<K(==), V>(bucket: seq<Entry<K, V>>, k: K) { exists i :: 0 <= i < |bucket| && bucket[i].key == k }

  /** The entries of a bucket are in the map, hash to this bucket and have different keys. */
  ghost predicate BucketOk<K, V>(hash: K -> nat, size: nat, b: nat, bucket: seq<Entry<K, V>>, m: map<K, V>) {
    && size > 0
    && (forall i :: 0 <= i < |bucket| ==>
        bucket[i].key in m && m[bucket[i].key] == bucket[i].val && hash(bucket[i].key) % size == b)
    && (forall i, j :: 0 <= i < j < |bucket| ==> bucket[i].key != bucket[j].key)
  }

  /** The key is in its bucket. */
  ghost predicate Stored<K, V>(hash: K -> nat, table: seq<seq<Entry<K, V>>>, k: K) {
    |table| > 0 && HasKey(table[hash(k) % |table|], k)
  }

  ghost predicate Holds<K(!new), V>(hash: K -> nat, table: seq<seq<Entry<K, V>>>, m: map<K, V>) {
    && (forall b {:trigger BucketOk(hash, |table|, b, table[b], m)} :: 0 <= b < |table| ==>
        BucketOk(hash, |table|, b, table[b], m))
    && (forall k {:trigger Stored(hash, table, k)} :: k in m ==> Stored(hash, table, k))
  }

  /** The table determines the map. */
  lemma HoldsOneMap<K(!new), V>(hash: K -> nat, table: seq<seq<Entry<K, V>>>, m: map<K, V>, m': map<K, V>)
    requires Holds(hash, table, m) && Holds(hash, table, m')
    ensures m == m'
  {
    forall k | k in m
      ensures k in m' && m'[k] == m[k]
    {
      SameValue(hash, table, m, m', k);
    }
    forall k | k in m'
      ensures k in m
    {
      SameValue(hash, table, m', m, k);
    }
  }

  lemma SameValue<K(!new), V>(hash: K -> nat, table: seq<seq<Entry<K, V>>>, m: map<K, V>, m': map<K, V>, k: K)
    requires Holds(hash, table, m) && Holds(hash, table, m') && k in m
    ensures k in m' && m'[k] == m[k]
  {
    assert Stored(hash, table, k);
    var b := hash(k) % |table|;
    assert BucketOk(hash, |table|, b, table[b], m) && BucketOk(hash, |table|, b, table[b], m');
  }

  /** A new entry goes to the front of its bucket. */
  lemma AddHolds<K(!new), V>(hash: K -> nat, table: seq<seq<Entry<K, V>>>, m: map<K, V>, k: K, v: V)
    requires Holds(hash, table, m) && |table| > 0 && k !in m
    ensures var b := hash(k) % |table|; Holds(hash, table[b := [Entry(k, v)] + table[b]], m[k := v])
  {
    var b := hash(k) % |table|;
    var bucket := [Entry(k, v)] + table[b];
    var t, m' := table[b := bucket], m[k := v];
    forall c | 0 <= c < |t|
      ensures BucketOk(hash, |t|, c, t[c], m')
    {
      assert BucketOk(hash, |table|, c, table[c], m);
    }
    forall q | q in m'
      ensures Stored(hash, t, q)
    {
      if q == k {
        assert bucket[0].key == k;
      } else {
        assert Stored(hash, table, q);
        var c := hash(q) % |table|;
        var i :| 0 <= i < |table[c]| && table[c][i].key == q;
        assert t[c][if c == b then i + 1 else i].key == q;
      }
    }
  }

  /** Unlinking an entry forgets its key. */
  lemma DeleteHolds<K(!new), V>(hash: K -> nat, table: seq<seq<Entry<K, V>>>, m: map<K, V>, k: K, i: nat)
    requires Holds(hash, table, m) && |table| > 0
    requires i < |table[hash(k) % |table|]| && table[hash(k) % |table|][i].key == k
    ensures var b := hash(k) % |table|; k in m && Holds(hash, table[b := Without(table[b], i)], m - {k})
  {
    var b := hash(k) % |table|;
    var bucket := Without(table[b], i);
    var t := table[b := bucket];
    assert BucketOk(hash, |table|, b, table[b], m);
    assert forall j :: 0 <= j < |bucket| ==> bucket[j] == table[b][if j < i then j else j + 1];
    forall c | 0 <= c < |t|
      ensures BucketOk(hash, |t|, c, t[c], m - {k})
    {
      assert BucketOk(hash, |table|, c, table[c], m);
    }
    forall q | q in m - {k}
      ensures Stored(hash, t, q)
    {
      assert Stored(hash, table, q);
      var c := hash(q) % |table|;
      var j :| 0 <= j < |table[c]| && table[c][j].key == q;
      assert t[c][if c == b && j > i then j - 1 else j].key == q;
    }
  }

  /** Changing an entry's value in place. */
  lemma UpdateHolds<K(!new), V>(hash: K -> nat, table: seq<seq<Entry<K, V>>>, m: map<K, V>, k: K, v: V, i: nat)
    requires Holds(hash, table, m) && |table| > 0
    requires i < |table[hash(k) % |table|]| && table[hash(k) % |table|][i].key == k
    ensures var b := hash(k) % |table|; k in m && Holds(hash, table[b := table[b][i := Entry(k, v)]], m[k := v])
  {
    var b := hash(k) % |table|;
    var bucket := table[b][i := Entry(k, v)];
    var t, m' := table[b := bucket], m[k := v];
    assert BucketOk(hash, |table|, b, table[b], m);
    forall c | 0 <= c < |t|
      ensures BucketOk(hash, |t|, c, t[c], m')
    {
      assert BucketOk(hash, |table|, c, table[c], m);
    }
    forall q | q in m'
      ensures Stored(hash, t, q)
    {
      assert Stored(hash, table, q);
      var c := hash(q) % |table|;
      var j :| 0 <= j < |table[c]| && table[c][j].key == q;
      assert t[c][j].key == q;
    }
  }

  // ---------- Growing ----------

  /** The least power of two times the initial size that is enough; sizes near the word limit are not modelled. */
  function NextPower(size: nat, i: nat): (r: nat)
    requires i > 0
    ensures r >= i && r >= size && (PowerOfTwo(i) ==> PowerOfTwo(r))
    decreases size - i
  {
    if i >= size then i else NextPower(size, 2 * i)
  }

  /** Of two powers of two the larger is at least twice the smaller. */
  lemma {:induction false} PowersApart(a: nat, b: nat)
    requires PowerOfTwo(a) && PowerOfTwo(b) && a < b
    ensures 2 * a <= b
  {
    if a > 1 {
      PowersApart(a / 2, b / 2);
    }
  }

  /** No smaller one would do. */
  lemma {:induction false} NextPowerLeast(size: nat, i: nat)
    requires i > 0
    ensures NextPower(size, i) == i || NextPower(size, i) < 2 * size
    decreases size - i
  {
    if i < size {
      NextPowerLeast(size, 2 * i);
    }
  }

  /** A power of two is enough for itself. */
  lemma {:induction false} NextPowerSame(size: nat, i: nat)
    requires PowerOfTwo(size) && PowerOfTwo(i) && i <= size
    ensures NextPower(size, i) == size
    decreases size - i
  {
    if i < size {
      PowersApart(i, size);
      NextPowerSame(size, 2 * i);
    }
  }

  /** The number of buckets when one more entry may come: four at first, twice as many once the table is full. */
  function Grown(size: nat, used: nat): nat {
    if size == 0 then 4 else if used == size then 2 * size else size
  }

  /** The keys of the first buckets, and of the first entries of the next one. */
  ghost predicate Before<K, V>(hash: K -> nat, table: seq<seq<Entry<K, V>>>, i: nat, j: nat, k: K) {
    && |table| > 0
    && (hash(k) % |table| < i || (hash(k) % |table| == i && i < |table| && j <= |table[i]| && HasKey(table[i][..j], k)))
  }

  /** The new table holds exactly the entries copied so far. */
  ghost predicate Copied<K(!new), V>(hash: K -> nat, table: seq<seq<Entry<K, V>>>, m: map<K, V>, i: nat, j: nat,
                                     n: seq<seq<Entry<K, V>>>, moved: map<K, V>) {
    && Holds(hash, n, moved) && moved.Keys <= m.Keys && (forall k :: k in moved ==> moved[k] == m[k])
    && forall k {:trigger Before(hash, table, i, j, k)} :: k in m ==> (k in moved <==> Before(hash, table, i, j, k))
  }

  function EmptyTable<K, V>(size: nat): (n: seq<seq<Entry<K, V>>>)
    ensures |n| == size && forall b :: 0 <= b < size ==> n[b] == []
  {
    seq(size, _ => [])
  }

  lemma CopyStarts<K(!new), V>(hash: K -> nat, table: seq<seq<Entry<K, V>>>, m: map<K, V>, size: nat)
    requires size > 0
    ensures Copied(hash, table, m, 0, 0, EmptyTable(size), map[])
  {
    var n := EmptyTable<K, V>(size);
    assert forall b :: 0 <= b < |n| ==> BucketOk(hash, |n|, b, n[b], map[]);
  }

  lemma CopyEntry<K(!new), V>(hash: K -> nat, table: seq<seq<Entry<K, V>>>, m: map<K, V>, i: nat, j: nat,
                              n: seq<seq<Entry<K, V>>>, moved: map<K, V>)
    requires Copied(hash, table, m, i, j, n, moved) && Holds(hash, table, m) && |n| > 0
    requires i < |table| && j < |table[i]|
    ensures var e := table[i][j]; var h := hash(e.key) % |n|;
            e.key !in moved && Copied(hash, table, m, i, j + 1, n[h := [e] + n[h]], moved[e.key := e.val])
  {
    hide Holds;
    var e := table[i][j];
    InBucket(hash, table, m, i);
    assert hash(e.key) % |table| == i && e.key in m && m[e.key] == e.val;
    assert forall l :: 0 <= l < |table[i][..j]| ==> table[i][..j][l] == table[i][l];
    assert !HasKey(table[i][..j], e.key);
    assert !Before(hash, table, i, j, e.key);
    AddHolds(hash, n, moved, e.key, e.val);
    var moved' := moved[e.key := e.val];
    forall k | k in m
      ensures k in moved' <==> Before(hash, table, i, j + 1, k)
    {
      assert k in moved <==> Before(hash, table, i, j, k);
      KeyOfPrefix(table[i], j, k);
    }
  }

  lemma KeyOfPrefix<K, V>(bucket: seq<Entry<K, V>>, j: nat, k: K)
    requires j < |bucket|
    ensures HasKey(bucket[..j + 1], k) <==> HasKey(bucket[..j], k) || bucket[j].key == k
  {
    var a, b := bucket[..j + 1], bucket[..j];
    assert a == b + [bucket[j]];
    if HasKey(b, k) {
      var i :| 0 <= i < |b| && b[i].key == k;
      assert a[i].key == k;
    }
    assert a[j] == bucket[j];
  }

  lemma InBucket<K(!new), V>(hash: K -> nat, table: seq<seq<Entry<K, V>>>, m: map<K, V>, b: nat)
    requires Holds(hash, table, m) && b < |table|
    ensures BucketOk(hash, |table|, b, table[b], m)
  {
  }

  lemma CopyBucket<K(!new), V>(hash: K -> nat, table: seq<seq<Entry<K, V>>>, m: map<K, V>, i: nat,
                               n: seq<seq<Entry<K, V>>>, moved: map<K, V>)
    requires Holds(hash, table, m) && i < |table| && Copied(hash, table, m, i, |table[i]|, n, moved)
    ensures Copied(hash, table, m, i + 1, 0, n, moved)
  {
    forall k | k in m
      ensures k in moved <==> Before(hash, table, i + 1, 0, k)
    {
      assert k in moved <==> Before(hash, table, i, |table[i]|, k);
      assert Stored(hash, table, k);
      assert table[i][..|table[i]|] == table[i];
      assert i + 1 < |table| ==> !HasKey(table[i + 1][..0], k);
    }
  }

  /** When all buckets or as many entries as there are were copied, the new table holds the same map. */
  lemma CopyEnds<K(!new), V>(hash: K -> nat, table: seq<seq<Entry<K, V>>>, m: map<K, V>, i: nat,
                             n: seq<seq<Entry<K, V>>>, moved: map<K, V>)
    requires Holds(hash, table, m) && Copied(hash, table, m, i, 0, n, moved)
    requires i == |table| || |moved| >= |m|
    ensures moved == m && Holds(hash, n, m)
  {
    hide Holds;
    if i == |table| {
      forall k | k in m
        ensures k in moved
      {
        AllStored(hash, table, m, k);
        assert Before(hash, table, i, 0, k);
      }
    } else {
      SubsetSize(moved.Keys, m.Keys);
    }
    assert moved.Keys == m.Keys;
  }

  lemma AllStored<K(!new), V>(hash: K -> nat, table: seq<seq<Entry<K, V>>>, m: map<K, V>, k: K)
    requires Holds(hash, table, m) && k in m
    ensures |table| > 0
  {
    assert Stored(hash, table, k);
  }

  // ---------- The dictionary ----------

  class Dict<K(==, !new), V> {
    const hash: K -> nat
    var table: seq<seq<Entry<K, V>>>
    var used: nat
    ghost var contents: map<K, V>

    ghost predicate Valid()
      reads this
    {
      && Holds(hash, table, contents) && used == |contents| && used <= |table|
      && (|table| > 0 ==> PowerOfTwo(|table|) && |table| >= INITIAL_SIZE)
    }

    constructor (hash: K -> nat)
      ensures Valid() && contents == map[] && this.hash == hash
    {
      this.hash, table, used, contents := hash, [], 0, map[];
    }

    /** Moves every entry into a larger table; which keys map to what does not change. */
    method Expand(size: nat) returns (ok: bool)
      requires Valid()
      modifies this`table, this`used
      ensures Valid() && ok == (used <= size)
      ensures ok ==> |table| == NextPower(size, INITIAL_SIZE)
      ensures !ok ==> unchanged(this)
    {
      var realsize := NextPower(size, INITIAL_SIZE);
      if used > size {
        return false;
      }
      table := Rehash(realsize);
      return true;
    }

    /** A table of the given size with the same entries. */
    method Rehash(realsize: nat) returns (n: seq<seq<Entry<K, V>>>)
      requires Valid() && PowerOfTwo(realsize)
      ensures |n| == realsize && Holds(hash, n, contents)
    {
      hide Holds, Copied, BucketOk, EmptyTable, Masked;
      n := EmptyTable(realsize);
      ghost var moved: map<K, V> := map[];
      var left, i := used, 0;
      CopyStarts(hash, table, contents, realsize);
      while i < |table| && left > 0
        invariant i <= |table| && |n| == realsize && left + |moved| == used
        invariant Copied(hash, table, contents, i, 0, n, moved)
      {
        n, left, moved := MoveBucket(i, n, left, moved);
        CopyBucket(hash, table, contents, i, n, moved);
        i := i + 1;
      }
      CopyEnds(hash, table, contents, i, n, moved);
    }

    method MoveBucket(i: nat, n: seq<seq<Entry<K, V>>>, left: nat, ghost moved: map<K, V>)
      returns (n': seq<seq<Entry<K, V>>>, left': nat, ghost moved': map<K, V>)
      requires Valid() && i < |table| && PowerOfTwo(|n|) && left + |moved| == used
      requires Copied(hash, table, contents, i, 0, n, moved)
      ensures |n'| == |n| && left' + |moved'| == used && Copied(hash, table, contents, i, |table[i]|, n', moved')
    {
      hide Holds, Copied, BucketOk, Masked;
      n', left', moved' := n, left, moved;
      for j := 0 to |table[i]|
        invariant |n'| == |n| && left' + |moved'| == used && Copied(hash, table, contents, i, j, n', moved')
      {
        CopyEntry(hash, table, contents, i, j, n', moved');
        var e := table[i][j];
        var h := Masked(hash(e.key), |n'|);
        moved' := moved'[e.key := e.val];
        CopiedSize(hash, table, contents, i, j + 1, n'[h := [e] + n'[h]], moved');
        n', left' := n'[h := [e] + n'[h]], left' - 1;
      }
    }

    method ExpandIfNeeded()
      requires Valid()
      modifies this`table, this`used
      ensures Valid() && |table| == Grown(|old(table)|, used) && used == old(used) < |table|
    {
      if |table| == 0 {
        Nothing(hash, table, contents);
        var _ := Expand(INITIAL_SIZE);
      } else if used == |table| {
        NextPowerSame(2 * |table|, INITIAL_SIZE);
        var _ := Expand(2 * |table|);
      }
    }

    /** The position of a key in its bucket. */
    method Locate(k: K) returns (at: int)
      requires Valid() && |table| > 0
      ensures at == -1 <==> k !in contents
      ensures at != -1 ==> 0 <= at < |table[hash(k) % |table|]| && table[hash(k) % |table|][at].key == k
    {
      var h := Masked(hash(k), |table|);
      InBucket(hash, table, contents, h);
      for i := 0 to |table[h]|
        invariant forall j :: 0 <= j < i ==> table[h][j].key != k
      {
        if table[h][i].key == k {
          return i;
        }
      }
      assert !HasKey(table[h], k);
      assert k in contents ==> Stored(hash, table, k);
      return -1;
    }

    method Add(k: K, v: V) returns (ok: bool)
      requires Valid()
      modifies this
      ensures Valid() && ok == (k !in old(contents)) && contents == if ok then old(contents)[k := v] else old(contents)
      ensures |table| == Grown(|old(table)|, old(used))
    {
      hide Holds;
      ExpandIfNeeded();
      var at := Locate(k);
      if at != -1 {
        return false;
      }
      var h := Masked(hash(k), |table|);
      AddHolds(hash, table, contents, k, v);
      table := table[h := [Entry(k, v)] + table[h]];
      used, contents := used + 1, contents[k := v];
      return true;
    }

    method Replace(k: K, v: V) returns (added: bool)
      requires Valid()
      modifies this
      ensures Valid() && added == (k !in old(contents)) && contents == old(contents)[k := v]
      ensures |table| == Grown(|old(table)|, old(used))
    {
      hide Holds;
      added := Add(k, v);
      if !added {
        AllStored(hash, table, contents, k);
        var h := Masked(hash(k), |table|);
        var at := Locate(k);
        UpdateHolds(hash, table, contents, k, v, at);
        assert contents[k := v].Keys == contents.Keys;
        assert |contents[k := v]| == |contents.Keys| == |contents|;
        table := table[h := table[h][at := Entry(k, v)]];
        contents := contents[k := v];
      }
    }

    method Delete(k: K) returns (ok: bool)
      requires Valid()
      modifies this
      ensures Valid() && ok == (k in old(contents)) && contents == old(contents) - {k} && |table| == |old(table)|
      ensures if ok then exists at :: DeletedAt(hash, old(table), table, k, at) else table == old(table)
    {
      hide Holds;
      if |table| == 0 {
        Nothing(hash, table, contents);
        return false;
      }
      var h := Masked(hash(k), |table|);
      var at := Locate(k);
      if at == -1 {
        assert contents - {k} == contents;
        return false;
      }
      DeleteHolds(hash, table, contents, k, at);
      assert contents.Keys == (contents - {k}).Keys + {k};
      ghost var was := table;
      table := table[h := Without(table[h], at)];
      assert DeletedAt(hash, was, table, k, at);
      used, contents := used - 1, contents - {k};
      return true;
    }

    method Find(k: K) returns (v: Option<V>)
      requires Valid()
      ensures v == if k in contents then Some(contents[k]) else None
    {
      if |table| == 0 {
        Nothing(hash, table, contents);
        return None;
      }
      var at := Locate(k);
      if at == -1 {
        return None;
      }
      var h := Masked(hash(k), |table|);
      InBucket(hash, table, contents, h);
      return Some(table[h][at].val);
    }
  }

  /** The entry at this position of its bucket was unlinked, and nothing else changed. */
  ghost predicate DeletedAt<K, V>(hash: K -> nat, was: seq<seq<Entry<K, V>>>, now: seq<seq<Entry<K, V>>>,
                                  k: K, at: nat) {
    && |was| > 0
    && var b := hash(k) % |was|;
       at < |was[b]| && was[b][at].key == k && now == was[b := Without(was[b], at)]
  }

  lemma CopiedSize<K(!new), V>(hash: K -> nat, table: seq<seq<Entry<K, V>>>, m: map<K, V>, i: nat, j: nat,
                               n: seq<seq<Entry<K, V>>>, moved: map<K, V>)
    requires Copied(hash, table, m, i, j, n, moved)
    ensures |moved| <= |m|
  {
    SubsetSize(moved.Keys, m.Keys);
  }

  lemma Nothing<K(!new), V>(hash: K -> nat, table: seq<seq<Entry<K, V>>>, m: map<K, V>)
    requires Holds(hash, table, m) && |table| == 0
    ensures m == map[]
  {
    assert forall k :: k in m ==> Stored(hash, table, k);
  }

  // ---------- Iterating ----------

  /** Key `k` comes at or after `next` in the bucket. */
  ghost predicate FromOn<K, V>(bucket: seq<Entry<K, V>>, next: Option<K>, k: K) {
    next.Some? && exists i, j :: 0 <= i <= j < |bucket| && bucket[i].key == next.value && bucket[j].key == k
  }

  /** An iterator in bucket `index`, about to go on at `next`, still has exactly the keys in `todo` to visit. */
  ghost predicate Visiting<K(!new), V>(hash: K -> nat, table: seq<seq<Entry<K, V>>>, m: map<K, V>,
                                       index: int, inside: bool, next: Option<K>, todo: set<K>) {
    && -1 <= index && (inside ==> 0 <= index < |table|)
    && (inside && next.Some? ==> HasKey(table[index], next.value))
    && todo <= m.Keys
    && forall k {:trigger Stored(hash, table, k)} :: k in m && Stored(hash, table, k) ==>
         (k in todo <==>
          || hash(k) % |table| > index
          || (inside && hash(k) % |table| == index && FromOn(table[index], next, k)))
  }

  lemma VisitStarts<K(!new), V>(hash: K -> nat, table: seq<seq<Entry<K, V>>>, m: map<K, V>)
    requires Holds(hash, table, m)
    ensures Visiting(hash, table, m, -1, false, None, m.Keys)
  {
  }

  /** Past the last bucket nothing is left. */
  lemma VisitEnds<K(!new), V>(hash: K -> nat, table: seq<seq<Entry<K, V>>>, m: map<K, V>, index: int, todo: set<K>)
    requires Holds(hash, table, m) && Visiting(hash, table, m, index, false, None, todo) && index + 1 >= |table|
    ensures todo == {} && Visiting(hash, table, m, index + 1, false, None, todo)
  {
    assert forall k :: k in todo ==> Stored(hash, table, k);
  }

  /** At the end of a bucket the rest is in later buckets. */
  lemma LeaveBucket<K(!new), V>(hash: K -> nat, table: seq<seq<Entry<K, V>>>, m: map<K, V>, index: int, todo: set<K>)
    requires Visiting(hash, table, m, index, true, None, todo)
    ensures Visiting(hash, table, m, index, false, None, todo)
  {
  }

  function FirstKey<K, V>(bucket: seq<Entry<K, V>>): Option<K> { if bucket == [] then None else Some(bucket[0].key) }

  /** At the start of a bucket its first entry is next. */
  lemma EnterBucket<K(!new), V>(hash: K -> nat, table: seq<seq<Entry<K, V>>>, m: map<K, V>, index: int, todo: set<K>)
    requires Holds(hash, table, m) && Visiting(hash, table, m, index, false, None, todo) && index + 1 < |table|
    ensures Visiting(hash, table, m, index + 1, true, FirstKey(table[index + 1]), todo)
  {
    var b, bucket := index + 1, table[index + 1];
    var next := FirstKey(bucket);
    if next.Some? {
      assert bucket[0].key == next.value;
    }
    forall k | k in m && Stored(hash, table, k) && hash(k) % |table| == b
      ensures FromOn(bucket, next, k)
    {
      var j :| 0 <= j < |bucket| && bucket[j].key == k;
      assert bucket[0].key == next.value;
    }
  }

  /** Handing out the next entry leaves the ones after it. */
  lemma HandOut<K(!new), V>(hash: K -> nat, table: seq<seq<Entry<K, V>>>, m: map<K, V>, index: int, i: nat,
                            todo: set<K>)
    requires Holds(hash, table, m) && 0 <= index < |table| && i < |table[index]|
    requires Visiting(hash, table, m, index, true, Some(table[index][i].key), todo)
    ensures var k := table[index][i].key;
            k in todo && m[k] == table[index][i].val
            && Visiting(hash, table, m, index, true, FirstKey(table[index][i + 1..]), todo - {k})
  {
    var bucket := table[index];
    var e, after := bucket[i], FirstKey(bucket[i + 1..]);
    InBucket(hash, table, m, index);
    assert Stored(hash, table, e.key);
    assert FromOn(bucket, Some(e.key), e.key);
    assert after.Some? ==> after.value == bucket[i + 1].key;
    forall k | k in m && Stored(hash, table, k) && hash(k) % |table| == index
      ensures FromOn(bucket, Some(e.key), k) <==> k == e.key || FromOn(bucket, after, k)
      ensures !FromOn(bucket, after, e.key)
    {
      var j :| 0 <= j < |bucket| && bucket[j].key == k;
      assert FromOn(bucket, Some(e.key), k) <==> j >= i;
      assert FromOn(bucket, after, k) <==> j > i;
    }
  }

  /** Deleting an entry that is not to be visited any more does not disturb the iteration. */
  lemma DeleteKeepsVisit<K(!new), V>(hash: K -> nat, table: seq<seq<Entry<K, V>>>, m: map<K, V>,
                                     index: int, inside: bool, next: Option<K>, todo: set<K>, k: K, at: nat)
    requires Holds(hash, table, m) && Visiting(hash, table, m, index, inside, next, todo) && k in m && k !in todo
    requires |table| > 0 && at < |table[hash(k) % |table|]| && table[hash(k) % |table|][at].key == k
    ensures var b := hash(k) % |table|;
            Visiting(hash, table[b := Without(table[b], at)], m - {k}, index, inside, next, todo)
  {
    var b := hash(k) % |table|;
    var was, now := table[b], Without(table[b], at);
    var t := table[b := now];
    InBucket(hash, table, m, b);
    assert Stored(hash, table, k);
    if inside && next.Some? {
      NextIsTodo(hash, table, m, index, next, todo);
      if index == b {
        StillThere(was, at, next.value);
      }
    }
    forall q | q in m - {k}
      ensures Stored(hash, table, q) && (inside && index == b ==> (FromOn(was, next, q) <==> FromOn(now, next, q)))
    {
      assert q in m;
      AllIn(hash, table, m, q);
      if inside && index == b {
        FromOnWithout(was, at, next, q);
      }
    }
  }

  lemma AllIn<K(!new), V>(hash: K -> nat, table: seq<seq<Entry<K, V>>>, m: map<K, V>, k: K)
    requires Holds(hash, table, m) && k in m
    ensures Stored(hash, table, k)
  {
  }

  lemma NextIsTodo<K(!new), V>(hash: K -> nat, table: seq<seq<Entry<K, V>>>, m: map<K, V>, index: int,
                               next: Option<K>, todo: set<K>)
    requires Holds(hash, table, m) && Visiting(hash, table, m, index, true, next, todo) && next.Some?
    ensures next.value in todo
  {
    InBucket(hash, table, m, index);
    var i :| 0 <= i < |table[index]| && table[index][i].key == next.value;
    assert Stored(hash, table, next.value);
    assert FromOn(table[index], next, next.value);
  }

  lemma StillThere<K, V>(bucket: seq<Entry<K, V>>, at: nat, k: K)
    requires at < |bucket| && HasKey(bucket, k) && bucket[at].key != k
    ensures HasKey(Without(bucket, at), k)
  {
    var i :| 0 <= i < |bucket| && bucket[i].key == k;
    assert Without(bucket, at)[if i < at then i else i - 1].key == k;
  }

  lemma FromOnWithout<K, V>(was: seq<Entry<K, V>>, at: nat, next: Option<K>, q: K)
    requires at < |was| && q != was[at].key && next != Some(was[at].key)
    ensures FromOn(was, next, q) <==> FromOn(Without(was, at), next, q)
  {
    var now := Without(was, at);
    if FromOn(was, next, q) {
      var i, j :| 0 <= i <= j < |was| && was[i].key == next.value && was[j].key == q;
      assert now[if i < at then i else i - 1].key == next.value && now[if j < at then j else j - 1].key == q;
    }
    if FromOn(now, next, q) {
      var i, j :| 0 <= i <= j < |now| && now[i].key == next.value && now[j].key == q;
      assert was[if i < at then i else i + 1].key == next.value && was[if j < at then j else j + 1].key == q;
    }
  }

  class DictIterator<K(==, !new), V> {
    const ht: Dict<K, V>
    var index: int
    var entry: Option<K>
    var nextEntry: Option<K>
    /** The keys still to be visited. */
    ghost var todo: set<K>

    ghost predicate Valid()
      reads this, ht
    {
      ht.Valid() && Visiting(ht.hash, ht.table, ht.contents, index, entry.Some?,
                             if entry.Some? then nextEntry else None, todo)
    }

    constructor (ht: Dict<K, V>)
      requires ht.Valid()
      ensures Valid() && this.ht == ht && todo == ht.contents.Keys
    {
      this.ht, index, entry, nextEntry, todo := ht, -1, None, None, ht.contents.Keys;
      new;
      VisitStarts(ht.hash, ht.table, ht.contents);
    }

    /** The next entry; none exactly when every key was visited or deleted unvisited. */
    method Next() returns (e: Option<Entry<K, V>>)
      requires Valid()
      modifies this
      ensures Valid()
      ensures e.None? ==> old(todo) == {} && todo == {}
      ensures e.Some? ==> e.value.key in old(todo) && todo == old(todo) - {e.value.key}
                          && e.value.key in ht.contents && ht.contents[e.value.key] == e.value.val
    {
      hide Visiting, Holds, FirstKey;
      while true
        invariant Valid() && todo == old(todo)
        decreases if index < |ht.table| then |ht.table| - index else 0, entry.Some?
      {
        if entry.None? {
          if index + 1 >= |ht.table| {
            VisitEnds(ht.hash, ht.table, ht.contents, index, todo);
            index := index + 1;
            return None;
          }
          EnterBucket(ht.hash, ht.table, ht.contents, index, todo);
          index := index + 1;
          entry := FirstKey(ht.table[index]);
        } else {
          entry := nextEntry;
        }
        if entry.Some? {
          e := TakeEntry(entry.value);
          return;
        }
        LeaveBucket(ht.hash, ht.table, ht.contents, index, todo);
      }
    }

    /** What the caller may do between two visits: delete an entry already handed out. */
    method DeleteCurrent(k: K)
      requires Valid() && k !in todo && k in ht.contents
      modifies ht
      ensures Valid() && ht.contents == old(ht.contents) - {k}
    {
      hide Visiting, Holds;
      ghost var table, m := ht.table, ht.contents;
      var ok := ht.Delete(k);
      ghost var at :| DeletedAt(ht.hash, table, ht.table, k, at);
      DeleteKeepsVisit(ht.hash, table, m, index, entry.Some?, if entry.Some? then nextEntry else None, todo, k, at);
    }

    /** Hands out the current entry, saving the one after it: the caller may delete what it is given. */
    method TakeEntry(k: K) returns (e: Option<Entry<K, V>>)
      requires ht.Valid() && entry == Some(k) && Visiting(ht.hash, ht.table, ht.contents, index, true, Some(k), todo)
      modifies this`nextEntry, this`todo
      ensures Valid() && e.Some? && e.value.key == k && k in old(todo) && todo == old(todo) - {k}
      ensures k in ht.contents && ht.contents[k] == e.value.val
    {
      hide Holds;
      var bucket := ht.table[index];
      var i := 0;
      while bucket[i].key != k
        invariant i < |bucket| && exists j :: i <= j < |bucket| && bucket[j].key == k
        decreases |bucket| - i
      {
        i := i + 1;
      }
      HandOut(ht.hash, ht.table, ht.contents, index, i, todo);
      nextEntry := FirstKey(bucket[i + 1..]);
      todo := todo - {k};
      return Some(bucket[i]);
    }
  }

  /**
   Visits a dictionary to the end, deleting the entries it is handed that are doomed: every entry that was
   there at the start is visited exactly once, and the others stay.
   */
  method Sweep<K(==, !new), V>(ht: Dict<K, V>, doomed: K -> bool) returns (seen: seq<K>)
    requires ht.Valid()
    modifies ht
    ensures ht.Valid() && ht.contents == map k | k in old(ht.contents) && !doomed(k) :: old(ht.contents)[k]
    ensures (set k | k in seen) == old(ht.contents).Keys && forall i, j :: 0 <= i < j < |seen| ==> seen[i] != seen[j]
  {
    hide Visiting, Holds, Swept;
    ghost var all := ht.contents;
    var it := new DictIterator(ht);
    seen := [];
    SweepStarts(all, doomed);
    ghost var todo := it.todo;
    var e := it.Next();
    while e.Some?
      invariant it.Valid() && it.ht == ht && fresh(it) && Swept(all, ht.contents, seen, todo, doomed)
      invariant if e.Some? then e.value.key in todo && it.todo == todo - {e.value.key} && e.value.key in ht.contents
                else todo == {}
      decreases |todo|, e.Some?
    {
      var k := e.value.key;
      SweepOne(all, ht.contents, seen, todo, doomed, k);
      seen := seen + [k];
      if doomed(k) {
        it.DeleteCurrent(k);
      }
      todo := it.todo;
      e := it.Next();
    }
    SweepEnds(all, ht.contents, seen, doomed);
  }

  /** What was seen and what is to be seen make up the start, and only the doomed among the seen are deleted. */
  ghost predicate Swept<K(!new), V>(all: map<K, V>, now: map<K, V>, seen: seq<K>, todo: set<K>, doomed: K -> bool) {
    && (forall k :: k in all <==> k in seen || k in todo)
    && (forall k :: k in now <==> k in all && !(k in seen && doomed(k)))
    && (forall k :: k in now ==> now[k] == all[k])
    && (forall i, j :: 0 <= i < j < |seen| ==> seen[i] != seen[j])
    && (forall k :: k in seen ==> k !in todo)
  }

  lemma SweepStarts<K(!new), V>(all: map<K, V>, doomed: K -> bool)
    ensures Swept(all, all, [], all.Keys, doomed)
  {
  }

  lemma SweepOne<K(!new), V>(all: map<K, V>, now: map<K, V>, seen: seq<K>, todo: set<K>, doomed: K -> bool, k: K)
    requires Swept(all, now, seen, todo, doomed) && k in todo
    ensures Swept(all, if doomed(k) then now - {k} else now, seen + [k], todo - {k}, doomed)
  {
    var seen' := seen + [k];
    assert forall q :: q in seen' <==> q in seen || q == k;
  }

  lemma SweepEnds<K(!new), V>(all: map<K, V>, now: map<K, V>, seen: seq<K>, doomed: K -> bool)
    requires Swept(all, now, seen, {}, doomed)
    ensures now == map k | k in all && !doomed(k) :: all[k]
    ensures (set k | k in seen) == all.Keys && forall i, j :: 0 <= i < j < |seen| ==> seen[i] != seen[j]
  {
  }
}
