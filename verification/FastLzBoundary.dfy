/**
 An input on which level 2 hashes a byte past the end: a prefix, zeros, and the prefix again, so that a far match
 is found at the last position searched and goes on to the end.
 */
module FastLzBoundary {
  import opened Bytes
  import opened FastLzFormat
  import opened FastLzCompressor

  /** Late enough that the entry point that picks the level picks level 2. */
  const LAST := 65536

  /** The bytes 1 to 14, zeros up to the last position searched, then 3 to 15. */
  function ByteAt(k: nat): byte
    requires k < LAST + 13
  {
    if k < 14 then k + 1 else if k < LAST then 0 else k - LAST + 3
  }

  function Text(): (s: seq<byte>)
    ensures |s| == LAST + 13 && forall k :: 0 <= k < |s| ==> s[k] == ByteAt(k)
  {
    seq(LAST + 13, k requires 0 <= k < LAST + 13 => ByteAt(k))
  }

  /** The last position hashes like position 2, and the positions recorded in between do not. */
  predicate Recalls(hash: nat -> Slot) {
    && hash(LAST) == hash(2) && hash(LAST - 2) != hash(2) && hash(LAST - 1) != hash(2)
    && forall p :: 3 <= p <= 14 ==> hash(p) != hash(2)
  }

  lemma {:induction false} ZerosExtend(ip: nat)
    requires 18 <= ip <= LAST + 1
    ensures ExtendSame(Text(), ip, 0, LAST + 11) == LAST + 1
    decreases LAST + 1 - ip
  {
    if ip <= LAST {
      ZerosExtend(ip + 1);
    }
  }

  /** Nothing matches in the prefix: all its bytes differ. */
  lemma PrefixLiteral(ref: nat, ip: nat)
    requires ref < ip && 2 <= ip <= 14
    ensures !IsRun(Level2, Text(), ip) && !Confirmed(Level2, Text(), ref, ip)
  {
  }

  /** The match at the last position searched reaches the end. */
  lemma LastMatch()
    ensures !IsRun(Level2, Text(), LAST) && Confirmed(Level2, Text(), 2, LAST)
    ensures Extent(Text(), LAST, 5, LAST - 2) == |Text()|
  {
    assert Repeats(Text(), LAST, LAST + 12, LAST - 2);
    ExtentMeans(Text(), LAST, 5, LAST - 2);
  }

  /** From the last position on, with position 2 still in the table. */
  lemma PastAtLast(hash: nat -> Slot, tab: seq<nat>)
    requires Recalls(hash) && |tab| == HASH_SIZE && tab[hash(2)] == 2
    requires forall k :: 0 <= k < HASH_SIZE ==> tab[k] < LAST
    ensures HashesPast(Level2, hash, Text(), LAST, tab)
  {
    hide IsRun, Confirmed, Extent, Text;
    LastMatch();
  }

  /** From the run of zeros on: one match takes it all. */
  lemma PastAtRun(hash: nat -> Slot, tab: seq<nat>)
    requires Recalls(hash) && |tab| == HASH_SIZE && tab[hash(2)] == 2 && forall k :: 0 <= k < HASH_SIZE ==> tab[k] < 15
    ensures HashesPast(Level2, hash, Text(), 15, tab)
  {
    hide Extent, Confirmed;
    RunExtent();
    assert IsRun(Level2, Text(), 15);
    PastAtLast(hash, tab[hash(LAST - 2) := LAST - 2][hash(LAST - 1) := LAST - 1]);
    assert PastAfter(Level2, hash, Text(), 15, LAST + 1, tab);
  }

  lemma RunExtent()
    ensures Extent(Text(), 15, 3, 1) == LAST + 1
  {
    ZerosExtend(18);
  }

  /** From a position of the prefix on: everything up to the zeros is literal. */
  lemma {:induction false} PastInPrefix(hash: nat -> Slot, ip: nat, tab: seq<nat>)
    requires Recalls(hash) && 3 <= ip <= 15 && |tab| == HASH_SIZE && tab[hash(2)] == 2
    requires forall k :: 0 <= k < HASH_SIZE ==> tab[k] < ip
    ensures HashesPast(Level2, hash, Text(), ip, tab)
    decreases 15 - ip
  {
    hide IsRun, Confirmed, Extent, Text;
    if ip == 15 {
      PastAtRun(hash, tab);
    } else {
      PrefixLiteral(tab[hash(ip)], ip);
      PastInPrefix(hash, ip + 1, tab[hash(ip) := ip]);
    }
  }

  /** The compressor hashes a byte past this input. */
  lemma HashesPastText(hash: nat -> Slot)
    requires Recalls(hash)
    ensures HashesPast(Level2, hash, Text(), 2, EmptyTable())
  {
    hide IsRun, Confirmed, Extent, Text, EmptyTable;
    NoEntries();
    PrefixLiteral(EmptyTable()[hash(2)], 2);
    PastInPrefix(hash, 3, EmptyTable()[hash(2) := 2]);
  }

  lemma NoEntries()
    ensures |EmptyTable()| == HASH_SIZE && forall k :: 0 <= k < HASH_SIZE ==> EmptyTable()[k] == 0
  {
  }

  // ---------- The source's hash ----------

  /** Three bytes hashed to 13 bits. */
  function SlotOf(b0: bv16, b1: bv16, b2: bv16): bv16 {
    var v := b0 | (b1 << 8);
    (v ^ (b1 | (b2 << 8)) ^ (v >> 3)) & 0x1fff
  }

  lemma SlotFits(b0: bv16, b1: bv16, b2: bv16)
    ensures SlotOf(b0, b1, b2) < 0x2000
  {
  }

  lemma FitsTable(v: bv16)
    requires v < 0x2000
    ensures (v as int) < HASH_SIZE
  {
  }

  /** A byte of the text, or whatever stands behind it. */
  function Read(k: nat, beyond: byte): byte { if k < LAST + 13 then ByteAt(k) else beyond }

  function Hash3(b0: byte, b1: byte, b2: byte): Slot {
    var v := SlotOf(b0 as bv16, b1 as bv16, b2 as bv16);
    SlotFits(b0 as bv16, b1 as bv16, b2 as bv16);
    FitsTable(v);
    v as int
  }

  function SourceHash(beyond: byte): nat -> Slot {
    (p: nat) => Hash3(Read(p, beyond), Read(p + 1, beyond), Read(p + 2, beyond))
  }

  lemma LowSlots(b: byte)
    requires 3 <= b <= 9
    ensures Hash3(b, b + 1, b + 2)
            == match b case 3 => 391 case 4 => 929 case 5 => 451 case 6 => 4065 case 7 => 15 case 8 => 544 case _ => 66
  {
  }

  lemma HighSlots()
    ensures Hash3(10, 11, 12) == 1632 && Hash3(11, 12, 13) == 134 && Hash3(12, 13, 14) == 672
    ensures Hash3(13, 14, 0) == 4034 && Hash3(14, 0, 0) == 15 && Hash3(0, 0, 0) == 0
    ensures Hash3(0, 0, 3) == 768 && Hash3(0, 3, 4) == 1891
  {
  }

  /** Of the positions hashed only the second and the last get slot 391. */
  lemma Slots(beyond: byte, p: nat)
    requires 2 <= p <= 14 || LAST - 2 <= p <= LAST
    ensures SourceHash(beyond)(p) == 391 <==> p in {2, LAST}
  {
    hide Hash3;
    HighSlots();
    LowSlots(if p <= 8 then p + 1 else 3);
  }

  /** With the source's own hash the compressor hashes a byte past this input, whatever stands behind it. */
  lemma SourceHashesPast(beyond: byte)
    ensures HashesPast(Level2, SourceHash(beyond), Text(), 2, EmptyTable())
  {
    hide SourceHash, HashesPast;
    forall p | 3 <= p <= 14
      ensures SourceHash(beyond)(p) != 391
    {
      Slots(beyond, p);
    }
    Slots(beyond, 2);
    Slots(beyond, LAST - 2);
    Slots(beyond, LAST - 1);
    Slots(beyond, LAST);
    HashesPastText(SourceHash(beyond));
  }

  /** The same as a run of the entry point that picks the level. */
  method CompressText(beyond: byte, output: array<byte>) returns (n: int, ghost past: bool)
    requires output.Length >= Bound(|Text()|)
    modifies output
    ensures past
  {
    hide HashesPast, Encodes;
    SourceHashesPast(beyond);
    ghost var size;
    n, size, past := Compress(SourceHash(beyond), Text(), output);
  }
}
