/**
 The FastLZ compressor at both levels. The hash only proposes candidates, so it is
 an arbitrary function from input positions to slots.
 */
module FastLzCompressor {
  import opened Bytes
  import opened FastLzFormat

  const HASH_SIZE := 8192

  type Slot = k: int | 0 <= k < HASH_SIZE

  /** The input repeats at `distance` over the positions from..to. */
  ghost predicate Repeats(input: seq<byte>, from: int, to: int, distance: int) {
    0 <= from - distance && to <= |input| && 1 <= distance &&
    forall k :: from <= k < to ==> input[k] == input[k - distance]
  }

  /** Room for one control byte per 32 bytes, plus one. */
  function Bound(n: nat): nat { n + n / 32 + 1 }

  ghost predicate Matchable(level: Level, size: nat, distance: nat, have: nat) {
    && 3 <= size < WORD && 1 <= distance <= have
    && distance < DistanceLimit(level)
    && (distance - 1 >= FAR_BIAS && level == Level2 ==> size >= 5)
  }

  /** The bytes of a level 1 match, long ones in pieces of MAX_LEN - 2. */
  function SplitMatch(size: nat, distance: nat): seq<byte>
    requires 3 <= size && 1 <= distance <= 8192
  {
    var len, d := size - 2, distance - 1;
    if len > MAX_LEN - 2 then [224 + d / 256, MAX_LEN - 2 - 7 - 2, d % 256] + SplitMatch(size - (MAX_LEN - 2), distance)
    else if len < 7 then [len * 32 + d / 256, d % 256]
    else [224 + d / 256, len - 7, d % 256]
  }

  /** The bytes a match is written as. */
  function MatchBytes(level: Level, size: nat, distance: nat): (r: seq<byte>)
    requires Matchable(level, size, distance, distance)
  {
    if level == Level1 then SplitMatch(size, distance) else Layout(level, Match(size, distance))
  }

  lemma {:induction false} MatchBytesShort(level: Level, size: nat, distance: nat)
    requires Matchable(level, size, distance, distance)
    ensures |MatchBytes(level, size, distance)| < size
    decreases size
  {
    if level == Level1 && size - 2 > MAX_LEN - 2 {
      MatchBytesShort(level, size - (MAX_LEN - 2), distance);
    }
  }

  /** Adds the tokens a match of `size` bytes is written as; level 1 splits long matches. */
  ghost function AddMatch(level: Level, toks: Tokens, size: nat, distance: nat): (r: Tokens)
    requires 3 <= size
    decreases size
  {
    if level == Level1 && size - 2 > MAX_LEN - 2
    then AddMatch(level, Snoc(toks, Match(MAX_LEN - 2, distance)), size - (MAX_LEN - 2), distance)
    else Snoc(toks, Match(size, distance))
  }

  /** `r` is `toks` with a match added. */
  ghost predicate Adds(level: Level, toks: Tokens, r: Tokens, size: nat, distance: nat)
    requires AllValid(level, toks) && Matchable(level, size, distance, |Replay(level, toks)|)
  {
    && AllValid(level, r)
    && Replay(level, r) == CopyBack(Replay(level, toks), distance, size)
    && LayoutAll(level, r) == LayoutAll(level, toks) + MatchBytes(level, size, distance)
  }

  /** Those tokens expand to a plain copy. */
  lemma {:induction false} AddMatchMeans(level: Level, toks: Tokens, size: nat, distance: nat)
    requires AllValid(level, toks) && Matchable(level, size, distance, |Replay(level, toks)|)
    ensures Adds(level, toks, AddMatch(level, toks, size, distance), size, distance)
    decreases size
  {
    hide AllValid, Replay, LayoutAll, Adds;
    if level == Level1 && size - 2 > MAX_LEN - 2 {
      var less, next := size - (MAX_LEN - 2), Snoc(toks, Match(MAX_LEN - 2, distance));
      AddPiece(toks, distance);
      AddMatchMeans(level, next, less, distance);
      AddsBoth(toks, next, AddMatch(level, next, less, distance), less, distance);
    } else {
      AddsOne(level, toks, size, distance);
    }
  }

  lemma AddsOne(level: Level, toks: Tokens, size: nat, distance: nat)
    requires AllValid(level, toks) && Matchable(level, size, distance, |Replay(level, toks)|)
    requires level == Level1 ==> size - 2 <= MAX_LEN - 2
    ensures Adds(level, toks, Snoc(toks, Match(size, distance)), size, distance)
  {
    hide CopyBack, Matchable, Fits, Layout, MatchBytes;
    OneLayout(level, size, distance, |Replay(level, toks)|);
  }

  lemma OneLayout(level: Level, size: nat, distance: nat, before: nat)
    requires Matchable(level, size, distance, before) && (level == Level1 ==> size - 2 <= MAX_LEN - 2)
    ensures 1 <= distance <= before && Fits(level, Match(size, distance))
    ensures Layout(level, Match(size, distance)) == MatchBytes(level, size, distance)
  {
  }

  lemma AddsBoth(toks: Tokens, next: Tokens, r: Tokens, less: nat, distance: nat)
    requires AllValid(Level1, toks) && Matchable(Level1, less, distance, |Replay(Level1, toks)|)
    requires less + (MAX_LEN - 2) < WORD
    requires AllValid(Level1, next) && Replay(Level1, next) == CopyBack(Replay(Level1, toks), distance, MAX_LEN - 2)
    requires var d := distance - 1;
             LayoutAll(Level1, next) == LayoutAll(Level1, toks) + [224 + d / 256, MAX_LEN - 2 - 7 - 2, d % 256]
    requires Adds(Level1, next, r, less, distance)
    ensures Adds(Level1, toks, r, less + (MAX_LEN - 2), distance)
  {
    hide AllValid, Replay, LayoutAll, CopyBack;
    var d := distance - 1;
    assert MatchBytes(Level1, less + (MAX_LEN - 2), distance)
        == [224 + d / 256, MAX_LEN - 2 - 7 - 2, d % 256] + MatchBytes(Level1, less, distance);
    CopyBackSplit(Replay(Level1, toks), distance, MAX_LEN - 2, less);
    ConcatAssoc(LayoutAll(Level1, toks), [224 + d / 256, MAX_LEN - 2 - 7 - 2, d % 256], SplitMatch(less, distance));
  }

  /** One full-length piece of a long level 1 match. */
  lemma AddPiece(toks: Tokens, distance: nat)
    requires AllValid(Level1, toks) && 1 <= distance <= |Replay(Level1, toks)| && distance <= 8192
    ensures var r, d := Snoc(toks, Match(MAX_LEN - 2, distance)), distance - 1;
            && AllValid(Level1, r) && Replay(Level1, r) == CopyBack(Replay(Level1, toks), distance, MAX_LEN - 2)
            && LayoutAll(Level1, r) == LayoutAll(Level1, toks) + [224 + d / 256, MAX_LEN - 2 - 7 - 2, d % 256]
  {
    PieceLayout(distance);
  }

  lemma PieceLayout(distance: nat)
    requires 1 <= distance <= 8192
    ensures var piece, d := Match(MAX_LEN - 2, distance), distance - 1;
            Fits(Level1, piece) && Layout(Level1, piece) == [224 + d / 256, MAX_LEN - 2 - 7 - 2, d % 256]
  {
  }

  // ---------- What the main loop looks at ----------

  /** Four equal bytes, the first of them just before the position: level 2 takes this for a run. */
  predicate IsRun(level: Level, input: seq<byte>, at: nat)
    requires 1 <= at && at + 2 < |input|
  {
    level == Level2 && input[at] == input[at - 1] && input[at - 1] == input[at + 1] && input[at] == input[at + 2]
  }

  predicate Far(level: Level, distance: int) { level == Level2 && distance >= MaxDistance(level) }

  /** The candidate is near enough and its first bytes match: three, or five when it is far. */
  predicate Confirmed(level: Level, input: seq<byte>, ref: nat, at: nat)
    requires ref <= at && at + 4 < |input|
  {
    && 0 < at - ref < DistanceLimit(level)
    && input[ref] == input[at] && input[ref + 1] == input[at + 1] && input[ref + 2] == input[at + 2]
    && (Far(level, at - ref) ==> input[at + 3] == input[ref + 3] && input[at + 4] == input[ref + 4])
  }

  /** Compares on from `ip` until a mismatch or `stop`; one past the last byte compared. */
  function Extend(input: seq<byte>, ip: nat, distance: nat, stop: nat): (e: nat)
    requires distance <= ip && stop <= |input|
    ensures ip <= e && (ip <= stop ==> e <= stop) && (ip < stop ==> ip < e)
    decreases stop - ip
  {
    if ip >= stop then ip
    else if input[ip] != input[ip - distance] then ip + 1
    else Extend(input, ip + 1, distance, stop)
  }

  /** The same for a run of `x`, where the comparison lags by one. */
  function ExtendSame(input: seq<byte>, ip: nat, x: byte, stop: nat): (e: nat)
    requires 1 <= ip && stop <= |input|
    ensures ip <= e && (ip <= stop ==> e <= stop)
    decreases stop - ip
  {
    if ip >= stop || input[ip - 1] != x then ip else ExtendSame(input, ip + 1, x, stop)
  }

  function Max(a: int, b: int): int { if a < b then b else a }

  /** Where the extension of a match of `len` bytes ends; its first eight comparisons need no bound check. */
  function Extent(input: seq<byte>, anchor: nat, len: nat, distance: nat): (e: nat)
    requires anchor < |input| - 12 && len in {3, 5} && 1 <= distance <= anchor
    ensures anchor + len < e <= |input|
  {
    if distance == 1 then ExtendSame(input, anchor + len, input[anchor + len - 1], |input| - 2)
    else Extend(input, anchor + len, distance, Max(anchor + len + 8, |input| - 2))
  }

  /** Does the main loop, from `ip` on with this hash table, hash a byte past the input? */
  predicate HashesPast(level: Level, hash: nat -> Slot, input: seq<byte>, ip: nat, tab: seq<nat>)
    requires 2 <= ip && |tab| == HASH_SIZE && forall k :: 0 <= k < HASH_SIZE ==> tab[k] < ip
    decreases |input| - ip
  {
    if ip >= |input| - 12 then false
    else if IsRun(level, input, ip) then
      PastAfter(level, hash, input, ip, Extent(input, ip, 3, 1), tab)
    else
      var ref, tab' := tab[hash(ip)], tab[hash(ip) := ip];
      if !Confirmed(level, input, ref, ip) then HashesPast(level, hash, input, ip + 1, tab')
      else
        var len := if Far(level, ip - ref) then 5 else 3;
        PastAfter(level, hash, input, ip, Extent(input, ip, len, ip - ref), tab')
  }

  /** After a match that ends before `e`: its last two positions are hashed. */
  predicate PastAfter(level: Level, hash: nat -> Slot, input: seq<byte>, ip: nat, e: nat, tab: seq<nat>)
    requires 2 <= ip && |tab| == HASH_SIZE && forall k :: 0 <= k < HASH_SIZE ==> tab[k] <= ip
    requires ip + 3 < e <= |input|
    decreases |input| - ip, 0
  {
    !HashedInside(input, e)
    || HashesPast(level, hash, input, e - 1, tab[hash(e - 3) := e - 3][hash(e - 2) := e - 2])
  }

  /** The two hashed positions after a match, each hashed from three bytes, lie within the input. */
  predicate HashedInside(input: seq<byte>, ip: nat) { ip - 2 + 3 <= |input| }

  /** What looking for a match at a position comes to. */
  predicate Looked(level: Level, hash: nat -> Slot, input: seq<byte>, at: nat, tab: seq<nat>, found: bool, len: nat,
                   distance: int, tab': seq<nat>)
    requires 2 <= at < |input| - 12 && |tab| == HASH_SIZE && forall k :: 0 <= k < HASH_SIZE ==> tab[k] < at
  {
    if IsRun(level, input, at) then found && len == 3 && distance == 1 && tab' == tab
    else
      var ref := tab[hash(at)];
      && tab' == tab[hash(at) := at] && (found <==> Confirmed(level, input, ref, at))
      && (found ==> distance == at - ref && len == if Far(level, distance) then 5 else 3)
  }

  lemma PastLooked(level: Level, hash: nat -> Slot, input: seq<byte>, at: nat, tab: seq<nat>, found: bool, len: nat,
                   distance: int, tab': seq<nat>)
    requires 2 <= at < |input| - 12 && |tab| == HASH_SIZE && forall k :: 0 <= k < HASH_SIZE ==> tab[k] < at
    requires Looked(level, hash, input, at, tab, found, len, distance, tab')
    ensures |tab'| == HASH_SIZE && forall k :: 0 <= k < HASH_SIZE ==> tab'[k] <= at
    ensures found ==> len in {3, 5} && 1 <= distance <= at
                      && HashesPast(level, hash, input, at, tab)
                         == PastAfter(level, hash, input, at, Extent(input, at, len, distance), tab')
    ensures !found ==> HashesPast(level, hash, input, at, tab) == HashesPast(level, hash, input, at + 1, tab')
  {
    hide Extent;
  }

  /** Looks for a match starting at `anchor`, recording it in the hash table unless it is a run. */
  method FindMatch(level: Level, hash: nat -> Slot, input: seq<byte>, htab: array<nat>, anchor: nat)
    returns (found: bool, len: nat, distance: nat)
    requires 2 <= anchor < |input| - 12
    requires htab.Length == HASH_SIZE && forall k :: 0 <= k < HASH_SIZE ==> htab[k] < anchor
    modifies htab
    ensures forall k :: 0 <= k < HASH_SIZE ==> htab[k] <= anchor
    ensures found ==> len in {3, 5} && Matchable(level, len, distance, anchor)
    ensures found ==> Repeats(input, anchor, anchor + len, distance)
    ensures Looked(level, hash, input, anchor, old(htab[..]), found, len, distance, htab[..])
  {
    len := 3;
    if level == Level2 && input[anchor] == input[anchor - 1]
       && input[anchor - 1] == input[anchor + 1] && input[anchor] == input[anchor + 2] {
      return true, 3, 1;
    }
    var ref := htab[hash(anchor)];
    distance := anchor - ref;
    htab[hash(anchor)] := anchor;
    if distance == 0 || distance >= DistanceLimit(level)
       || input[ref] != input[anchor] || input[ref + 1] != input[anchor + 1]
       || input[ref + 2] != input[anchor + 2] {
      return false, len, distance;
    }
    if level == Level2 && distance >= MaxDistance(level) {
      if input[anchor + 3] != input[ref + 3] || input[anchor + 4] != input[ref + 4] {
        return false, len, distance;
      }
      len := len + 2;
    }
    found := true;
  }

  /**
   Extends a match; the result lies one past the last byte examined. The table is then updated at the two
   positions from three before it on; the second of them is hashed from a byte past the input exactly when a
   five-byte match starts at the last position searched and its next seven bytes match too.
   */
  method ExtendMatch(input: seq<byte>, anchor: nat, len: nat, distance: nat) returns (ip: nat)
    requires anchor < |input| - 12 && len in {3, 5}
    requires Repeats(input, anchor, anchor + len, distance)
    ensures anchor + len < ip <= |input| && ip == Extent(input, anchor, len, distance)
    ensures Repeats(input, anchor, ip - 1, distance)
    ensures HashedInside(input, ip) <==>
            !(len == 5 && distance > 1 && anchor + 13 == |input| && Repeats(input, anchor, anchor + 12, distance))
  {
    if distance - 1 == 0 {
      ip := ExtendRun(input, anchor, len);
    } else {
      ip := ExtendCopy(input, anchor, len, distance);
      ExtentMeans(input, anchor, len, distance);
    }
  }

  /** A run: every byte is compared with the last one matched. */
  method ExtendRun(input: seq<byte>, anchor: nat, len: nat) returns (ip: nat)
    requires anchor < |input| - 12 && len in {3, 5}
    requires Repeats(input, anchor, anchor + len, 1)
    ensures anchor + len < ip <= |input| - 2 && ip == Extent(input, anchor, len, 1)
    ensures Repeats(input, anchor, ip - 1, 1)
  {
    var bound := |input| - 2;
    ip := anchor + len;
    var x := input[ip - 1];
    var ref := ip - 1;
    while ip < bound
      invariant anchor + len <= ip <= bound && ref == ip - 1
      invariant forall k :: anchor + len - 1 <= k < ref ==> input[k] == x
      invariant ip == anchor + len || Repeats(input, anchor, ip - 1, 1)
      invariant ExtendSame(input, anchor + len, x, bound) == ExtendSame(input, ip, x, bound)
    {
      if input[ref] != x { break; }
      ref := ref + 1;
      ip := ip + 1;
    }
  }

  /** The first eight comparisons need no bound check. */
  method ExtendCopy(input: seq<byte>, anchor: nat, len: nat, distance: nat) returns (ip: nat)
    requires anchor < |input| - 12 && len in {3, 5} && 1 < distance <= anchor
    ensures ip == Extent(input, anchor, len, distance)
  {
    var bound := |input| - 2;
    ip := anchor + len;
    var ref := ip - distance;
    var tries := 0;
    ghost var stop := Max(anchor + len + 8, bound);
    while tries < 8
      invariant 0 <= tries <= 8 && ip == anchor + len + tries && ref == ip - distance
      invariant Extend(input, anchor + len, distance, stop) == Extend(input, ip, distance, stop)
    {
      tries, ref, ip := tries + 1, ref + 1, ip + 1;
      if input[ref - 1] != input[ip - 1] { return; }
    }
    while ip < bound
      invariant anchor + len + 8 <= ip <= stop && ref == ip - distance
      invariant Extend(input, anchor + len, distance, stop) == Extend(input, ip, distance, stop)
    {
      ref, ip := ref + 1, ip + 1;
      if input[ref - 1] != input[ip - 1] { return; }
    }
  }

  /** An extension matches up to its last byte, and stops at a mismatch or at its bound. */
  lemma {:induction false} ExtendMeans(input: seq<byte>, ip: nat, distance: nat, stop: nat)
    requires distance <= ip <= stop <= |input|
    ensures var e := Extend(input, ip, distance, stop);
            && (forall k :: ip <= k < e - 1 ==> input[k] == input[k - distance])
            && (e == stop || input[e - 1] != input[e - 1 - distance])
    decreases stop - ip
  {
    if ip < stop && input[ip] == input[ip - distance] {
      ExtendMeans(input, ip + 1, distance, stop);
    }
  }

  /** The extended match is a repetition, and reaches the end of the input in one case only. */
  lemma ExtentMeans(input: seq<byte>, anchor: nat, len: nat, distance: nat)
    requires anchor < |input| - 12 && len in {3, 5} && 1 < distance <= anchor
    requires Repeats(input, anchor, anchor + len, distance)
    ensures var e := Extent(input, anchor, len, distance);
            && Repeats(input, anchor, e - 1, distance)
            && (e == |input| <==> len == 5 && anchor + 13 == |input| && Repeats(input, anchor, anchor + 12, distance))
  {
    var stop := Max(anchor + len + 8, |input| - 2);
    ExtendMeans(input, anchor + len, distance, stop);
    var e := Extend(input, anchor + len, distance, stop);
    assert Repeats(input, anchor, e - 1, distance);
    assert e < |input| && e - 1 < anchor + 12 && e < stop ==> !Repeats(input, anchor, anchor + 12, distance);
  }

  /** Stores one byte at `op` and advances. */
  method Put(output: array<byte>, op: nat, b: byte) returns (next: nat)
    requires op < output.Length
    modifies output
    ensures next == op + 1
    ensures output[..next] == old(output[..op]) + [b]
  {
    output[op] := b;
    next := op + 1;
  }

  /** Stores two bytes. */
  method Put2(output: array<byte>, op: nat, b0: byte, b1: byte) returns (next: nat)
    requires op + 1 < output.Length
    modifies output
    ensures next == op + 2
    ensures output[..next] == old(output[..op]) + [b0, b1]
  {
    next := Put(output, op, b0);
    next := Put(output, next, b1);
  }

  /** Stores three bytes. */
  method Put3(output: array<byte>, op: nat, b0: byte, b1: byte, b2: byte) returns (next: nat)
    requires op + 2 < output.Length
    modifies output
    ensures next == op + 3
    ensures output[..next] == old(output[..op]) + [b0, b1, b2]
  {
    next := Put2(output, op, b0, b1);
    next := Put(output, next, b2);
  }

  method EmitMatch1(output: array<byte>, start: nat, size: nat, distance: nat) returns (op: nat)
    requires 3 <= size && 1 <= distance <= 8192
    requires start + |SplitMatch(size, distance)| <= output.Length
    modifies output
    ensures start <= op <= output.Length
    ensures output[..op] == old(output[..start]) + SplitMatch(size, distance)
  {
    var len, d := size - 2, distance - 1;
    op := start;
    ghost var whole := output[..start] + SplitMatch(size, distance);
    while len > MAX_LEN - 2
      invariant 1 <= len && start <= op <= output.Length
      invariant output[..op] + SplitMatch(len + 2, distance) == whole
    {
      ghost var before, rest := output[..op], SplitMatch(len + 2 - (MAX_LEN - 2), distance);
      ConcatAssoc(before, [224 + d / 256, MAX_LEN - 2 - 7 - 2, d % 256], rest);
      op := Put3(output, op, 7 * 32 + d / 256, MAX_LEN - 2 - 7 - 2, d % 256);
      len := len - (MAX_LEN - 2);
    }
    if len < 7 {
      op := Put2(output, op, len * 32 + d / 256, d % 256);
    } else {
      op := Put3(output, op, 7 * 32 + d / 256, len - 7, d % 256);
    }
  }

  /** Writes a length as 255s closed by a smaller byte. */
  method EmitChain(output: array<byte>, start: nat, n: nat) returns (op: nat)
    requires start + |Chain(n)| <= output.Length
    modifies output
    ensures op == start + |Chain(n)|
    ensures output[..op] == old(output[..start]) + Chain(n)
  {
    op := start;
    var len := n;
    ghost var whole := output[..start] + Chain(n);
    while len >= 255
      invariant start <= op && op + |Chain(len)| == |whole|
      invariant output[..op] + Chain(len) == whole
    {
      op := Put(output, op, 255);
      len := len - 255;
    }
    op := Put(output, op, len);
  }

  method EmitMatch2(output: array<byte>, start: nat, size: nat, distance: nat)
    returns (op: nat)
    requires Fits(Level2, Match(size, distance))
    requires start + |Layout(Level2, Match(size, distance))| <= output.Length
    modifies output
    ensures start <= op <= output.Length
    ensures output[..op] == old(output[..start]) + Layout(Level2, Match(size, distance))
  {
    var len, d := size - 2, distance - 1;
    if d < MaxDistance(Level2) {
      op := EmitNear(output, start, len, d);
    } else {
      op := EmitFar(output, start, len, d - MaxDistance(Level2));
    }
  }

  method EmitNear(output: array<byte>, start: nat, len: nat, d: nat) returns (op: nat)
    requires 1 <= len && d < FAR_BIAS
    requires start + 2 + (if len < 7 then 0 else |Chain(len - 7)|) <= output.Length
    modifies output
    ensures start <= op <= output.Length
    ensures output[..op] == old(output[..start])
                            + if len < 7 then [len * 32 + d / 256, d % 256]
                              else [224 + d / 256] + Chain(len - 7) + [d % 256]
  {
    if len < 7 {
      op := Put2(output, start, len * 32 + d / 256, d % 256);
    } else {
      op := Put(output, start, 7 * 32 + d / 256);
      op := EmitChain(output, op, len - 7);
      op := Put(output, op, d % 256);
      assert output[..op] == old(output[..start]) + ([224 + d / 256] + Chain(len - 7) + [d % 256]);
    }
  }

  method EmitFar(output: array<byte>, start: nat, len: nat, far: nat) returns (op: nat)
    requires 1 <= len && far < 65536
    requires start + 4 + (if len < 7 then 0 else |Chain(len - 7)|) <= output.Length
    modifies output
    ensures start <= op <= output.Length
    ensures output[..op] == old(output[..start])
                            + if len < 7 then [len * 32 + 31, 255, far / 256, far % 256]
                              else [255] + Chain(len - 7) + [255, far / 256, far % 256]
  {
    if len < 7 {
      op := Put(output, start, len * 32 + 31);
      op := Put3(output, op, 255, far / 256, far % 256);
    } else {
      op := Put(output, start, 7 * 32 + 31);
      op := EmitChain(output, op, len - 7);
      op := Put3(output, op, 255, far / 256, far % 256);
      assert output[..op] == old(output[..start]) + ([255] + Chain(len - 7) + [255, far / 256, far % 256]);
    }
  }

  /** Writes one match at `start`. */
  method EmitMatch(level: Level, output: array<byte>, start: nat, size: nat, distance: nat) returns (op: nat)
    requires Matchable(level, size, distance, distance)
    requires start + |MatchBytes(level, size, distance)| <= output.Length
    modifies output
    ensures op <= output.Length
    ensures output[..op] == old(output[..start]) + MatchBytes(level, size, distance)
  {
    if level == Level1 {
      op := EmitMatch1(output, start, size, distance);
    } else {
      op := EmitMatch2(output, start, size, distance);
    }
  }

  // ---------- What has been written so far ----------

  /** Closed tokens for `text`, starting with a literal run. */
  ghost predicate Tokenized(level: Level, toks: Tokens, text: seq<byte>) {
    && AllValid(level, toks) && Replay(level, toks) == text
    && (toks.Snoc? ==> LayoutAll(level, toks) != [] && LayoutAll(level, toks)[0] < 32)
  }

  /** No larger than one control byte per 32 bytes of text allows. */
  ghost predicate Lean(level: Level, toks: Tokens, text: seq<byte>) {
    Tokenized(level, toks, text) && |LayoutAll(level, toks)| <= |text| + |text| / 32
  }

  /** `text` is what the closed tokens stand for, then an open literal run. */
  ghost predicate Progress(level: Level, text: seq<byte>, toks: Tokens, closed: seq<byte>, run: seq<byte>,
                           written: seq<byte>) {
    && Lean(level, toks, closed) && closed + run == text
    && |run| < MAX_COPY && (toks.Nil? ==> run != [])
    && written == LayoutAll(level, toks) + [MAX_COPY - 1] + run
  }

  /** What has been written so far: closed tokens, and the literals of an open run. */
  datatype Draft = Draft(toks: Tokens, run: seq<byte>)

  /** A literal joins the open run; a run of 32 is closed. */
  function AddLiteral(d: Draft, b: byte): Draft {
    if |d.run| + 1 == MAX_COPY then Draft(Snoc(d.toks, Literal(d.run + [b])), []) else Draft(d.toks, d.run + [b])
  }

  function CloseDraft(d: Draft): Tokens { if d.run == [] then d.toks else Snoc(d.toks, Literal(d.run)) }

  /** A match closes the open run. */
  ghost function AddCopy(level: Level, d: Draft, size: nat, distance: nat): Draft
    requires 3 <= size
  {
    Draft(AddMatch(level, CloseDraft(d), size, distance), [])
  }

  /** The bytes `written` are those of the draft, which stands for `text`. */
  ghost predicate Reached(level: Level, text: seq<byte>, d: Draft, written: seq<byte>) {
    |d.run| <= |text| && Progress(level, text, d.toks, text[..|text| - |d.run|], d.run, written)
  }

  /** Closes the open run, if it holds anything, as the source does by patching its count or stepping back. */
  function Closed(written: seq<byte>, copy: int): (r: seq<byte>)
    requires 0 <= copy < |written| && copy <= MAX_COPY
  {
    if copy > 0 then written[|written| - copy - 1 := copy - 1] else written[..|written| - 1]
  }

  lemma PatchCount(before: seq<byte>, run: seq<byte>)
    requires |run| <= MAX_COPY
    ensures Closed(before + [MAX_COPY - 1] + run, |run|) == before + if run == [] then [] else [|run| - 1] + run
  {
  }

  /** A run closed behind the tokens of the text before it. */
  lemma AppendRun(level: Level, toks: Tokens, closed: seq<byte>, run: seq<byte>)
    requires Tokenized(level, toks, closed) && 1 <= |run| <= MAX_COPY
    ensures Tokenized(level, Snoc(toks, Literal(run)), closed + run)
    ensures LayoutAll(level, Snoc(toks, Literal(run))) == LayoutAll(level, toks) + ([|run| - 1] + run)
  {
  }

  lemma CloseRun(level: Level, text: seq<byte>, d: Draft, written: seq<byte>)
    requires Reached(level, text, d, written)
    ensures CloseDraft(d).Snoc? && Tokenized(level, CloseDraft(d), text)
    ensures |d.run| < |written| && Closed(written, |d.run|) == LayoutAll(level, CloseDraft(d))
    ensures |LayoutAll(level, CloseDraft(d))| <= Bound(|text|)
  {
    PatchCount(LayoutAll(level, d.toks), d.run);
    if d.run != [] {
      AppendRun(level, d.toks, text[..|text| - |d.run|], d.run);
    } else {
      assert text[..|text|] == text;
    }
  }

  /** A match behind the tokens of the text before it. */
  lemma AppendMatch(level: Level, toks: Tokens, text: seq<byte>, size: nat, distance: nat)
    requires toks.Snoc? && Tokenized(level, toks, text) && Matchable(level, size, distance, |text|)
    requires |LayoutAll(level, toks)| <= Bound(|text|)
    ensures var toks' := AddMatch(level, toks, size, distance);
            && Lean(level, toks', CopyBack(text, distance, size))
            && LayoutAll(level, toks') == LayoutAll(level, toks) + MatchBytes(level, size, distance)
  {
    AddMatchMeans(level, toks, size, distance);
    MatchBytesShort(level, size, distance);
  }

  lemma FreshRun(level: Level, toks: Tokens, text: seq<byte>)
    requires toks.Snoc? && Lean(level, toks, text)
    ensures Reached(level, text, Draft(toks, []), LayoutAll(level, toks) + [MAX_COPY - 1])
  {
    assert text[..|text|] == text && text + [] == text;
    assert LayoutAll(level, toks) + [MAX_COPY - 1] + [] == LayoutAll(level, toks) + [MAX_COPY - 1];
  }

  // ---------- Steps of the main loop ----------

  function StartDraft(b0: byte, b1: byte): Draft { Draft(Nil, [b0, b1]) }

  lemma ReachStart(level: Level, b0: byte, b1: byte)
    ensures Reached(level, [b0, b1], StartDraft(b0, b1), [MAX_COPY - 1, b0, b1])
  {
    assert [b0, b1][..0] == [];
  }

  lemma ReachedSize(level: Level, text: seq<byte>, d: Draft, written: seq<byte>)
    requires Reached(level, text, d, written)
    ensures |d.run| < |written| && |d.run| < MAX_COPY && |written| <= Bound(|text|)
  {
  }

  lemma ReachLiteral(level: Level, text: seq<byte>, d: Draft, written: seq<byte>, b: byte)
    requires Reached(level, text, d, written)
    ensures Reached(level, text + [b], AddLiteral(d, b),
                    if |d.run| + 1 == MAX_COPY then written + [b] + [MAX_COPY - 1] else written + [b])
  {
    if |d.run| + 1 == MAX_COPY {
      FillRun(level, text, d, written, b);
    } else {
      GrowRun(level, text, d, written, b);
    }
  }

  lemma GrowRun(level: Level, text: seq<byte>, d: Draft, written: seq<byte>, b: byte)
    requires Reached(level, text, d, written) && |d.run| + 1 < MAX_COPY
    ensures Reached(level, text + [b], Draft(d.toks, d.run + [b]), written + [b])
  {
    hide AllValid, Replay, LayoutAll;
    var closed, run' := text[..|text| - |d.run|], d.run + [b];
    ConcatAssoc(closed, d.run, [b]);
    ConcatAssoc(LayoutAll(level, d.toks) + [MAX_COPY - 1], d.run, [b]);
    assert (text + [b])[..|text + [b]| - |run'|] == closed;
  }

  lemma FillRun(level: Level, text: seq<byte>, d: Draft, written: seq<byte>, b: byte)
    requires Reached(level, text, d, written) && |d.run| + 1 == MAX_COPY
    ensures Reached(level, text + [b], Draft(Snoc(d.toks, Literal(d.run + [b])), []), written + [b] + [MAX_COPY - 1])
  {
    hide AllValid, Replay, LayoutAll;
    var closed, run' := text[..|text| - |d.run|], d.run + [b];
    ConcatAssoc(closed, d.run, [b]);
    AppendRun(level, d.toks, closed, run');
    RunGrows(LayoutAll(level, d.toks), d.run, b, |closed|);
    FreshRun(level, Snoc(d.toks, Literal(run')), closed + run');
  }

  lemma RunGrows(before: seq<byte>, run: seq<byte>, b: byte, n: nat)
    requires |run| + 1 == MAX_COPY
    ensures before + [MAX_COPY - 1] + run + [b] == before + ([|run + [b]| - 1] + (run + [b]))
    ensures |before| <= n + n / 32 ==> |before| + 33 <= n + 32 + (n + 32) / 32
  {
  }

  lemma ReachMatch(level: Level, text: seq<byte>, d: Draft, written: seq<byte>, size: nat, distance: nat)
    requires Reached(level, text, d, written) && Matchable(level, size, distance, |text|)
    ensures |d.run| < |written| && |d.run| < MAX_COPY
    ensures Reached(level, CopyBack(text, distance, size), AddCopy(level, d, size, distance),
                    Closed(written, |d.run|) + MatchBytes(level, size, distance) + [MAX_COPY - 1])
  {
    CloseRun(level, text, d, written);
    AppendMatch(level, CloseDraft(d), text, size, distance);
    FreshRun(level, AddMatch(level, CloseDraft(d), size, distance), CopyBack(text, distance, size));
  }

  /** The decompressor recovers the text whenever it has room for it, and refuses otherwise. */
  ghost predicate Encodes(s: seq<byte>, text: seq<byte>) {
    forall sum: Sum, maxout: nat :: Decode(sum, s, maxout) == if |text| <= maxout then Done(text) else Rejected
  }

  /** The bytes `plain` with the level marked in the first. */
  function Marked(level: Level, plain: seq<byte>): seq<byte>
    requires |plain| > 0 && plain[0] < 32
  {
    if level == Level1 then plain else plain[0 := plain[0] + 32]
  }

  lemma TokensEncode(level: Level, toks: Tokens, text: seq<byte>)
    requires toks.Snoc? && Tokenized(level, toks, text)
    ensures Encodes(Marked(level, LayoutAll(level, toks)), text)
  {
    var plain := LayoutAll(level, toks);
    var s := Marked(level, plain);
    assert s[0 := s[0] % 32] == plain == plain + [];
    forall sum: Sum, maxout: nat
      ensures Decode(sum, s, maxout) == if |text| <= maxout then Done(text) else Rejected
    {
      DecodeLayout(sum, level, toks, [], maxout);
    }
  }

  /** The bytes of a whole packed text: its tokens, the first of them literal, with the level marked. */
  ghost predicate Packs(level: Level, toks: Tokens, s: seq<byte>) {
    && toks.Snoc? && AllValid(level, toks) && LayoutAll(level, toks) != [] && LayoutAll(level, toks)[0] < 32
    && s == Marked(level, LayoutAll(level, toks))
  }

  /** At the end of the input, closing the run and marking the level gives an encoding. */
  lemma ReachEnd(level: Level, text: seq<byte>, d: Draft, written: seq<byte>)
    requires Reached(level, text, d, written)
    ensures |d.run| < |written| && |d.run| < MAX_COPY
    ensures var plain := Closed(written, |d.run|);
            && 0 < |plain| <= Bound(|text|) && plain[0] < 32 && Encodes(Marked(level, plain), text)
            && Packs(level, CloseDraft(d), Marked(level, plain))
  {
    CloseRun(level, text, d, written);
    TokensEncode(level, CloseDraft(d), text);
  }

  // ---------- The parse ----------

  /** What the main loop makes of the input from `ip` on, as tokens: every match it finds, as far as it extends. */
  ghost function Parse(level: Level, hash: nat -> Slot, input: seq<byte>, ip: nat, d: Draft, tab: seq<nat>): Tokens
    requires 2 <= ip && |tab| == HASH_SIZE && forall k :: 0 <= k < HASH_SIZE ==> tab[k] < ip
    decreases |input| - ip
  {
    if ip >= |input| - 12 then CloseDraft(Tail(input, ip, d))
    else if IsRun(level, input, ip) then ParseOn(level, hash, input, ip, Extent(input, ip, 3, 1), 1, d, tab)
    else
      var ref, tab' := tab[hash(ip)], tab[hash(ip) := ip];
      if !Confirmed(level, input, ref, ip) then
        Parse(level, hash, input, ip + 1, AddLiteral(d, input[ip]), tab')
      else
        var len := if Far(level, ip - ref) then 5 else 3;
        ParseOn(level, hash, input, ip, Extent(input, ip, len, ip - ref), ip - ref, d, tab')
  }

  /** After a match whose last comparison is before `e`: its last byte but one is where it ends. */
  ghost function ParseOn(level: Level, hash: nat -> Slot, input: seq<byte>, ip: nat, e: nat, distance: nat, d: Draft,
                         tab: seq<nat>): Tokens
    requires 2 <= ip && |tab| == HASH_SIZE && forall k :: 0 <= k < HASH_SIZE ==> tab[k] <= ip
    requires ip + 3 < e <= |input|
    decreases |input| - ip, 0
  {
    Parse(level, hash, input, e - 1, AddCopy(level, d, e - 1 - ip, distance),
          tab[hash(e - 3) := e - 3][hash(e - 2) := e - 2])
  }

  /** What is left over is literal. */
  function Tail(input: seq<byte>, ip: nat, d: Draft): Draft
    decreases |input| - ip
  {
    if ip >= |input| then d else Tail(input, ip + 1, AddLiteral(d, input[ip]))
  }

  /** The tokens of an input of four bytes or more: two literals, then what the main loop makes of the rest. */
  ghost function ParseAll(level: Level, hash: nat -> Slot, input: seq<byte>): Tokens
    requires |input| >= 4
  {
    Parse(level, hash, input, 2, StartDraft(input[0], input[1]), EmptyTable())
  }

  // ---------- The main loop ----------

  lemma LiteralRoom(level: Level, input: seq<byte>, ip: nat, d: Draft, written: seq<byte>)
    requires ip < |input| && Reached(level, input[..ip], d, written)
    ensures var after := written + [input[ip]];
            var after' := if |d.run| + 1 == MAX_COPY then after + [MAX_COPY - 1] else after;
            Reached(level, input[..ip + 1], AddLiteral(d, input[ip]), after') && |after'| <= Bound(|input|)
  {
    hide Reached;
    ReachLiteral(level, input[..ip], d, written, input[ip]);
    assert input[..ip] + [input[ip]] == input[..ip + 1];
    var after := written + [input[ip]];
    ReachedSize(level, input[..ip + 1], AddLiteral(d, input[ip]),
                if |d.run| + 1 == MAX_COPY then after + [MAX_COPY - 1] else after);
  }

  lemma MatchRoom(level: Level, input: seq<byte>, ip: nat, d: Draft, written: seq<byte>, size: nat, distance: nat)
    requires ip + size <= |input| && Reached(level, input[..ip], d, written)
    requires Matchable(level, size, distance, ip) && Repeats(input, ip, ip + size, distance)
    ensures |d.run| < |written| && |d.run| < MAX_COPY
    ensures var after := Closed(written, |d.run|) + MatchBytes(level, size, distance) + [MAX_COPY - 1];
            Reached(level, input[..ip + size], AddCopy(level, d, size, distance), after) && |after| <= Bound(|input|)
  {
    hide Reached;
    ReachMatch(level, input[..ip], d, written, size, distance);
    CopyBackRepeats(input, ip, distance, size);
    ReachedSize(level, input[..ip + size], AddCopy(level, d, size, distance),
                Closed(written, |d.run|) + MatchBytes(level, size, distance) + [MAX_COPY - 1]);
  }

  /** Copies one literal, opening a new run when the current one is full. */
  method PutLiteral(level: Level, input: seq<byte>, ip: nat, copy: nat, output: array<byte>, op: nat, ghost d: Draft)
    returns (copy': nat, op': nat)
    requires op <= output.Length && Bound(|input|) <= output.Length && copy == |d.run|
    requires ip < |input| && Reached(level, input[..ip], d, output[..op])
    modifies output
    ensures op' <= output.Length && copy' == |AddLiteral(d, input[ip]).run|
    ensures Reached(level, input[..ip + 1], AddLiteral(d, input[ip]), output[..op'])
  {
    hide Reached;
    LiteralRoom(level, input, ip, d, output[..op]);
    if copy + 1 == MAX_COPY {
      copy' := 0;
      op' := Put(output, op, input[ip]);
      op' := Put(output, op', MAX_COPY - 1);
    } else {
      copy' := copy + 1;
      op' := Put(output, op, input[ip]);
    }
  }

  /** Patches the count of the open run, or steps back over it when it is empty. */
  method CloseOutput(copy: nat, output: array<byte>, op: nat) returns (op': nat)
    requires copy < op <= output.Length && copy <= MAX_COPY
    modifies output
    ensures op' <= output.Length
    ensures output[..op'] == Closed(old(output[..op]), copy)
  {
    if copy > 0 {
      output[op - copy - 1] := copy - 1;
      op' := op;
    } else {
      op' := op - 1;
    }
  }

  /** Closes the open run, writes the match and opens a new run. */
  method PutMatch(level: Level, input: seq<byte>, anchor: nat, copy: nat, size: nat, distance: nat,
                  output: array<byte>, op: nat, ghost d: Draft)
    returns (op': nat)
    requires op <= output.Length && Bound(|input|) <= output.Length && copy == |d.run|
    requires anchor + size <= |input| && Reached(level, input[..anchor], d, output[..op])
    requires Matchable(level, size, distance, anchor)
    requires Repeats(input, anchor, anchor + size, distance)
    modifies output
    ensures op' <= output.Length
    ensures Reached(level, input[..anchor + size], AddCopy(level, d, size, distance), output[..op'])
  {
    hide Reached, AddCopy;
    MatchRoom(level, input, anchor, d, output[..op], size, distance);
    op' := CloseOutput(copy, output, op);
    op' := EmitMatch(level, output, op', size, distance);
    op' := Put(output, op', MAX_COPY - 1);
  }

  /** Inputs under four bytes become a single literal run, without a level mark. */
  method CompressShort(input: seq<byte>, output: array<byte>) returns (n: nat)
    requires |input| < 4 && output.Length >= Bound(|input|)
    modifies output
    ensures n <= Bound(|input|)
    ensures input == [] ==> n == 0
    ensures input != [] ==> Encodes(output[..n], input) && output[..n] == [|input| - 1] + input
  {
    if |input| == 0 {
      return 0;
    }
    var op := Put(output, 0, |input| - 1);
    var ip := 0;
    while ip < |input|
      invariant 0 <= ip <= |input| && op == ip + 1
      invariant output[..op] == [|input| - 1] + input[..ip]
    {
      op := Put(output, op, input[ip]);
      ip := ip + 1;
    }
    n := |input| + 1;
    AppendRun(Level1, Nil, [], input);
    assert output[..n] == [|input| - 1] + input && [] + input == input;
    assert [] + ([|input| - 1] + input) == output[..n];
    TokensEncode(Level1, Snoc(Nil, Literal(input)), input);
  }

  /** Closes the last run and marks the level in the first control byte. */
  method FinishOutput(level: Level, input: seq<byte>, copy: nat, output: array<byte>, op: nat, ghost d: Draft)
    returns (n: nat)
    requires op <= output.Length && copy == |d.run| && Reached(level, input, d, output[..op])
    modifies output
    ensures n <= Bound(|input|) && n <= output.Length
    ensures Encodes(output[..n], input) && Packs(level, CloseDraft(d), output[..n])
  {
    hide Reached, Packs, CloseDraft;
    ReachEnd(level, input, d, output[..op]);
    n := CloseOutput(copy, output, op);
    ghost var plain := output[..n];
    if level == Level2 {
      output[0] := output[0] + 32;
    }
    assert output[..n] == Marked(level, plain);
  }

  /** The body of the main loop after a candidate has been confirmed. */
  method MatchStep(level: Level, input: seq<byte>, anchor: nat, copy: nat, found: nat, distance: nat,
                   output: array<byte>, op: nat, ghost d: Draft)
    returns (ip: nat, op': nat)
    requires op <= output.Length && Bound(|input|) <= output.Length && copy == |d.run|
    requires anchor < |input| - 12 && |input| <= INT_MAX && found in {3, 5} && Matchable(level, found, distance, anchor)
    requires Repeats(input, anchor, anchor + found, distance)
    requires Reached(level, input[..anchor], d, output[..op])
    modifies output
    ensures anchor < ip && ip + 2 <= |input| && op' <= output.Length && ip == Extent(input, anchor, found, distance) - 3
    ensures Reached(level, input[..ip + 2], AddCopy(level, d, ip + 2 - anchor, distance), output[..op'])
  {
    hide Reached, AddCopy;
    ip := ExtendMatch(input, anchor, found, distance);
    ip := ip - 3;
    var len := ip - anchor;
    op' := PutMatch(level, input, anchor, copy, len + 2, distance, output, op, d);
  }

  lemma PastUnfolds(level: Level, hash: nat -> Slot, input: seq<byte>, ip: nat, e: nat, tab: seq<nat>)
    requires 2 <= ip && |tab| == HASH_SIZE && (forall k :: 0 <= k < HASH_SIZE ==> tab[k] <= ip) && ip + 3 < e <= |input|
    ensures PastAfter(level, hash, input, ip, e, tab)
            == (!HashedInside(input, e)
                || HashesPast(level, hash, input, e - 1, tab[hash(e - 3) := e - 3][hash(e - 2) := e - 2]))
  {
  }

  lemma PastEnds(level: Level, hash: nat -> Slot, input: seq<byte>, ip: nat, tab: seq<nat>)
    requires 2 <= ip && |tab| == HASH_SIZE && (forall k :: 0 <= k < HASH_SIZE ==> tab[k] < ip) && ip >= |input| - 12
    ensures !HashesPast(level, hash, input, ip, tab)
  {
  }

  function EmptyTable(): seq<nat> { seq(HASH_SIZE, _ => 0) }

  /** The parse follows what looking for a match comes to. */
  lemma ParseLooked(level: Level, hash: nat -> Slot, input: seq<byte>, at: nat, d: Draft, tab: seq<nat>, found: bool,
                    len: nat, distance: int, tab': seq<nat>)
    requires 2 <= at < |input| - 12 && |tab| == HASH_SIZE && forall k :: 0 <= k < HASH_SIZE ==> tab[k] < at
    requires Looked(level, hash, input, at, tab, found, len, distance, tab')
    ensures |tab'| == HASH_SIZE && forall k :: 0 <= k < HASH_SIZE ==> tab'[k] <= at
    ensures found ==> len in {3, 5} && 1 <= distance <= at
    ensures found ==>
              var e := Extent(input, at, len, distance);
              Parse(level, hash, input, at, d, tab)
              == Parse(level, hash, input, e - 1, AddCopy(level, d, e - 1 - at, distance),
                       tab'[hash(e - 3) := e - 3][hash(e - 2) := e - 2])
    ensures !found ==> Parse(level, hash, input, at, d, tab)
                       == Parse(level, hash, input, at + 1, AddLiteral(d, input[at]), tab')
  {
    hide Extent, AddCopy;
  }

  lemma CopyEndsRun(level: Level, d: Draft, size: nat, distance: nat)
    requires 3 <= size
    ensures AddCopy(level, d, size, distance).run == []
  {
  }

  lemma ParseEnds(level: Level, hash: nat -> Slot, input: seq<byte>, ip: nat, d: Draft, tab: seq<nat>)
    requires 2 <= ip && |tab| == HASH_SIZE && (forall k :: 0 <= k < HASH_SIZE ==> tab[k] < ip) && ip >= |input| - 12
    ensures Parse(level, hash, input, ip, d, tab) == CloseDraft(Tail(input, ip, d))
  {
  }

  /** Notes a position in the hash table. */
  method Record(hash: nat -> Slot, htab: array<nat>, at: nat)
    requires htab.Length == HASH_SIZE
    modifies htab
    ensures htab[..] == old(htab[..])[hash(at) := at]
  {
    htab[hash(at)] := at;
  }

  method MainLoop(level: Level, hash: nat -> Slot, input: seq<byte>, output: array<byte>, op0: nat)
    returns (ip: nat, copy: nat, op: nat, ghost past: bool, ghost d: Draft)
    requires 4 <= |input| <= INT_MAX && op0 <= output.Length && Bound(|input|) <= output.Length
    requires Reached(level, input[..2], StartDraft(input[0], input[1]), output[..op0])
    modifies output
    ensures ip <= |input| && op <= output.Length && copy == |d.run|
    ensures Reached(level, input[..ip], d, output[..op])
    ensures CloseDraft(Tail(input, ip, d)) == ParseAll(level, hash, input)
    ensures past == HashesPast(level, hash, input, 2, EmptyTable())
  {
    hide Reached, Extent, Looked, HashesPast, PastAfter, Parse, AddCopy, AddLiteral, CloseDraft, Tail;
    var htab := new nat[HASH_SIZE](_ => 0);
    ip, copy, op, past, d := 2, 2, op0, false, StartDraft(input[0], input[1]);
    assert htab[..] == EmptyTable();
    while ip < |input| - 12
      invariant 2 <= ip <= |input| && op <= output.Length && copy == |d.run|
      invariant Reached(level, input[..ip], d, output[..op])
      invariant forall k :: 0 <= k < HASH_SIZE ==> htab[k] < ip
      invariant Parse(level, hash, input, ip, d, htab[..]) == ParseAll(level, hash, input)
      invariant (past || HashesPast(level, hash, input, ip, htab[..]))
                == HashesPast(level, hash, input, 2, EmptyTable())
    {
      var anchor := ip;
      ghost var tab, d0 := htab[..], d;
      var found, len, distance := FindMatch(level, hash, input, htab, anchor);
      PastLooked(level, hash, input, anchor, tab, found, len, distance, htab[..]);
      ParseLooked(level, hash, input, anchor, d, tab, found, len, distance, htab[..]);
      if found {
        ip, op := MatchStep(level, input, anchor, copy, len, distance, output, op, d);
        past := past || !HashedInside(input, ip + 3);
        PastUnfolds(level, hash, input, anchor, ip + 3, htab[..]);
        d := AddCopy(level, d, ip + 2 - anchor, distance);
        assert d.run == [] by {
          CopyEndsRun(level, d0, ip + 2 - anchor, distance);
        }
        copy := 0;
        Record(hash, htab, ip);
        ip := ip + 1;
        Record(hash, htab, ip);
        ip := ip + 1;
      } else {
        copy, op := PutLiteral(level, input, anchor, copy, output, op, d);
        d := AddLiteral(d, input[anchor]);
        ip := anchor + 1;
      }
    }
    PastEnds(level, hash, input, ip, htab[..]);
    ParseEnds(level, hash, input, ip, d, htab[..]);
  }

  method LeftOver(level: Level, input: seq<byte>, ip0: nat, copy0: nat, output: array<byte>, op0: nat, ghost d0: Draft)
    returns (copy: nat, op: nat, ghost d: Draft)
    requires op0 <= output.Length && Bound(|input|) <= output.Length && copy0 == |d0.run|
    requires ip0 <= |input| && Reached(level, input[..ip0], d0, output[..op0])
    modifies output
    ensures op <= output.Length && copy == |d.run| && d == Tail(input, ip0, d0)
    ensures Reached(level, input, d, output[..op])
  {
    hide Reached, AddLiteral;
    var ip: nat := ip0;
    copy, op, d := copy0, op0, d0;
    while ip < |input|
      invariant ip <= |input| && op <= output.Length && copy == |d.run| && Tail(input, ip, d) == Tail(input, ip0, d0)
      invariant Reached(level, input[..ip], d, output[..op])
    {
      copy, op := PutLiteral(level, input, ip, copy, output, op, d);
      d := AddLiteral(d, input[ip]);
      ip := ip + 1;
    }
    assert input[..ip] == input;
  }

  /**
   The `int` returned is what is left of the packed size; `past` tells whether the second hash after a match
   took in a byte past the input.
   */
  method CompressLevel(level: Level, hash: nat -> Slot, input: seq<byte>, output: array<byte>)
    returns (n: int, ghost size: nat, ghost past: bool)
    requires |input| <= INT_MAX && output.Length >= Bound(|input|)
    modifies output
    ensures n == Int32(size) && size <= Bound(|input|)
    ensures input == [] ==> size == 0
    ensures input != [] ==> Encodes(output[..size], input)
    ensures |input| >= 4 ==> Packs(level, ParseAll(level, hash, input), output[..size])
    ensures 0 < |input| < 4 ==> output[..size] == [|input| - 1] + input
    ensures past == (|input| >= 4 && HashesPast(level, hash, input, 2, EmptyTable()))
  {
    hide Reached, Encodes, Packs, ParseAll, Tail, CloseDraft;
    var written;
    if |input| < 4 {
      written := CompressShort(input, output);
      past := false;
    } else {
      var op := Put3(output, 0, MAX_COPY - 1, input[0], input[1]);
      ReachStart(level, input[0], input[1]);
      assert input[..2] == [input[0], input[1]];
      assert output[..op] == [MAX_COPY - 1, input[0], input[1]];
      var ip, copy;
      ghost var d;
      ip, copy, op, past, d := MainLoop(level, hash, input, output, op);
      copy, op, d := LeftOver(level, input, ip, copy, output, op, d);
      written := FinishOutput(level, input, copy, output, op, d);
    }
    n, size := Int32(written), written;
  }

  /** Short blocks use level 1. */
  method Compress(hash: nat -> Slot, input: seq<byte>, output: array<byte>)
    returns (n: int, ghost size: nat, ghost past: bool)
    requires |input| <= INT_MAX && output.Length >= Bound(|input|)
    modifies output
    ensures n == Int32(size) && size <= Bound(|input|)
    ensures input == [] ==> size == 0
    ensures input != [] ==> Encodes(output[..size], input)
    ensures 0 < |input| < 4 ==> output[..size] == [|input| - 1] + input
    ensures 4 <= |input| < 65536 ==> Packs(Level1, ParseAll(Level1, hash, input), output[..size])
    ensures |input| >= 65536 ==> Packs(Level2, ParseAll(Level2, hash, input), output[..size])
    ensures past == (|input| >= 4
                     && HashesPast(if |input| < 65536 then Level1 else Level2, hash, input, 2, EmptyTable()))
  {
    hide Packs, ParseAll, HashesPast, Encodes;
    n, size, past := CompressLevel(if |input| < 65536 then Level1 else Level2, hash, input, output);
  }

  method CompressAt(level: int, hash: nat -> Slot, input: seq<byte>, output: array<byte>)
    returns (n: int, ghost size: nat)
    requires |input| <= INT_MAX && output.Length >= Bound(|input|)
    modifies output
    ensures n == Int32(size) && size <= Bound(|input|)
    ensures input == [] || level !in {1, 2} ==> size == 0
    ensures input != [] && level in {1, 2} ==> Encodes(output[..size], input)
    ensures level in {1, 2} && 0 < |input| < 4 ==> output[..size] == [|input| - 1] + input
    ensures level == 1 && |input| >= 4 ==> Packs(Level1, ParseAll(Level1, hash, input), output[..size])
    ensures level == 2 && |input| >= 4 ==> Packs(Level2, ParseAll(Level2, hash, input), output[..size])
  {
    hide Packs, ParseAll, HashesPast, Encodes;
    ghost var past;
    if level == 1 {
      n, size, past := CompressLevel(Level1, hash, input, output);
    } else if level == 2 {
      n, size, past := CompressLevel(Level2, hash, input, output);
    } else {
      n, size := 0, 0;
    }
  }

  /** The returned `int` is the packed size, or negative when that does not fit one. */
  lemma SizeFits(n: nat, size: nat)
    requires n <= INT_MAX && size <= Bound(n)
    ensures Int32(size) == (if size <= INT_MAX then size else size - WORD)
    ensures Int32(size) >= 0 <==> Int32(size) == size
    ensures n <= 2_082_408_384 ==> Int32(size) == size
  {
  }
}
