/** What repeating inputs are packed into, whatever the hash: the bytes, written out. */
module FastLzRatio {
  import opened Bytes
  import opened FastLzFormat
  import opened FastLzCompressor

  /**
   Which candidates become matches: at level 1 three equal bytes less than 8192 back, at level 2 less than 73725
   back, and from 8191 back on five equal bytes.
   */
  lemma ConfirmedMeans(level: Level, input: seq<byte>, ref: nat, at: nat)
    requires ref <= at && at + 4 < |input|
    ensures var d := at - ref;
            Confirmed(level, input, ref, at)
            <==> 0 < d && Repeats(input, at, at + 3, d)
                 && (level == Level1 ==> d < 8192)
                 && (level == Level2 ==> d < 73725 && (d >= 8191 ==> Repeats(input, at, at + 5, d)))
  {
    var d := at - ref;
    assert input[at + 0 - d] == input[ref] && input[at + 1 - d] == input[ref + 1]
      && input[at + 2 - d] == input[ref + 2];
    assert input[at + 3 - d] == input[ref + 3] && input[at + 4 - d] == input[ref + 4];
  }

  /** At level 2 four equal bytes in a row, the first of them behind, are a run; at level 1 nothing is. */
  lemma RunMeans(level: Level, input: seq<byte>, at: nat)
    requires 1 <= at && at + 2 < |input|
    ensures IsRun(level, input, at) <==> level == Level2 && forall k :: at <= k < at + 3 ==> input[k] == input[at - 1]
  {
  }

  /** Two bytes taking turns, or one byte over and over. */
  ghost predicate Alternates(input: seq<byte>) {
    forall k :: 2 <= k < |input| ==> input[k] == input[k - 2]
  }

  /** How far back the one match reaches: level 1 looks only into its table, level 2 sees a run first. */
  function Back(level: Level, x: byte, y: byte): nat { if level == Level2 && x == y then 1 else 2 }

  lemma {:induction false} SameTwoBack(input: seq<byte>, k: nat)
    requires Alternates(input) && k < |input|
    ensures input[k] == input[k % 2]
  {
    if k >= 2 {
      SameTwoBack(input, k - 2);
    }
  }

  lemma RepeatsBack(level: Level, input: seq<byte>)
    requires |input| >= 15 && Alternates(input)
    ensures Repeats(input, 2, |input|, Back(level, input[0], input[1]))
  {
    forall k | 2 <= k < |input|
      ensures input[k] == input[k - 2] && (input[0] == input[1] ==> input[k] == input[k - 1])
    {
      SameTwoBack(input, k);
      SameTwoBack(input, k - 1);
    }
  }

  /** A comparison that never fails goes on to its bound. */
  lemma {:induction false} ExtendAll(input: seq<byte>, ip: nat, distance: nat, stop: nat)
    requires 1 <= distance <= ip <= stop <= |input| && Repeats(input, 2, |input|, distance) && ip >= 2
    ensures Extend(input, ip, distance, stop) == stop
    decreases stop - ip
  {
    if ip < stop {
      ExtendAll(input, ip + 1, distance, stop);
    }
  }

  lemma {:induction false} ExtendSameAll(input: seq<byte>, ip: nat, stop: nat)
    requires 3 <= ip <= stop <= |input| && Repeats(input, 2, |input|, 1)
    ensures ExtendSame(input, ip, input[ip - 1], stop) == stop
    decreases stop - ip
  {
    if ip < stop {
      ExtendSameAll(input, ip + 1, stop);
    }
  }

  lemma ExtentAll(input: seq<byte>, distance: nat)
    requires |input| >= 15 && distance in {1, 2} && Repeats(input, 2, |input|, distance)
    ensures Extent(input, 2, 3, distance) == |input| - 2
  {
    if distance == 1 {
      ExtendSameAll(input, 5, |input| - 2);
    } else {
      ExtendAll(input, 5, 2, |input| - 2);
    }
  }

  ghost function Start(x: byte, y: byte): Tokens { Snoc(Nil, Literal([x, y])) }

  /** Two literals, one match, three literals. */
  ghost function ThreeTokens(level: Level, input: seq<byte>): Tokens
    requires |input| >= 15
  {
    var n := |input|;
    Snoc(AddMatch(level, Start(input[0], input[1]), n - 5, Back(level, input[0], input[1])), Literal(input[n - 3..]))
  }

  lemma ParsedAlternating(level: Level, hash: nat -> Slot, input: seq<byte>)
    requires |input| >= 15 && Alternates(input)
    ensures ParseAll(level, hash, input) == ThreeTokens(level, input)
  {
    hide Extent, AddMatch, Parse, Alternates, Looked, Tail, IsRun, AddLiteral, Repeats;
    var n, x, y := |input|, input[0], input[1];
    var distance, tab := Back(level, x, y), EmptyTable();
    var tab' := if distance == 1 then tab else tab[hash(2) := 2];
    RepeatsBack(level, input);
    ExtentAll(input, distance);
    LookedAtTwo(level, hash, input);
    var d := StartDraft(x, y);
    ParseLooked(level, hash, input, 2, d, tab, true, 3, distance, tab');
    var d' := AddCopy(level, d, n - 5, distance);
    ParseEnds(level, hash, input, n - 3, d', tab'[hash(n - 5) := n - 5][hash(n - 4) := n - 4]);
    TailJoins(input, n - 3, d');
    assert [] + input[n - 3..] == input[n - 3..];
  }

  lemma LookedAtTwo(level: Level, hash: nat -> Slot, input: seq<byte>)
    requires |input| >= 15 && Repeats(input, 2, |input|, Back(level, input[0], input[1]))
    ensures var distance, tab := Back(level, input[0], input[1]), EmptyTable();
            Looked(level, hash, input, 2, tab, true, 3, distance, if distance == 1 then tab else tab[hash(2) := 2])
  {
    var distance := Back(level, input[0], input[1]);
    assert input[2] == input[2 - distance] && input[3] == input[3 - distance] && input[4] == input[4 - distance];
    RunAtTwo(level, input);
  }

  lemma RunAtTwo(level: Level, input: seq<byte>)
    requires |input| >= 15 && Repeats(input, 2, |input|, Back(level, input[0], input[1]))
    ensures IsRun(level, input, 2) <==> Back(level, input[0], input[1]) == 1
  {
    var distance := Back(level, input[0], input[1]);
    assert input[2] == input[2 - distance] && input[3] == input[3 - distance] && input[4] == input[4 - distance];
  }

  /** A short rest joins the open run. */
  lemma {:induction false} TailJoins(input: seq<byte>, ip: nat, d: Draft)
    requires ip <= |input| && |d.run| + (|input| - ip) < MAX_COPY
    ensures Tail(input, ip, d) == Draft(d.toks, d.run + input[ip..])
    decreases |input| - ip
  {
    if ip < |input| {
      TailJoins(input, ip + 1, AddLiteral(d, input[ip]));
      assert input[ip..] == [input[ip]] + input[ip + 1..];
      ConcatAssoc(d.run, [input[ip]], input[ip + 1..]);
    }
  }

  /** The match is laid out between the literals. */
  lemma ThreeTokensLayout(level: Level, input: seq<byte>)
    requires 15 <= |input| <= INT_MAX && Alternates(input) && AllValid(level, ThreeTokens(level, input))
    ensures var n, x, y := |input|, input[0], input[1];
            Matchable(level, n - 5, Back(level, x, y), 2)
            && LayoutAll(level, ThreeTokens(level, input))
               == [1, x, y] + MatchBytes(level, n - 5, Back(level, x, y)) + ([2] + input[n - 3..])
  {
    hide Alternates, AddMatch, MatchBytes;
    var n, x, y := |input|, input[0], input[1];
    var toks := Start(x, y);
    assert AllValid(level, toks) && Replay(level, toks) == [x, y] && LayoutAll(level, toks) == [1, x, y] by {
      assert AllValid(level, Nil) && Replay(level, Nil) == [] && LayoutAll(level, Nil) == [];
      assert [] + [x, y] == [x, y] && [] + ([1] + [x, y]) == [1, x, y];
    }
    AddMatchMeans(level, toks, n - 5, Back(level, x, y));
  }

  /** Level 1 packs alternating bytes into two literals, one match in pieces, and three literals. */
  lemma PackedAlternating1(hash: nat -> Slot, input: seq<byte>, packed: seq<byte>)
    requires 15 <= |input| <= INT_MAX && Alternates(input) && Packs(Level1, ParseAll(Level1, hash, input), packed)
    ensures var n := |input|;
            && packed == [1, input[0], input[1]] + SplitMatch(n - 5, 2) + ([2] + input[n - 3..])
            && |packed| <= 3 * ((n - 8) / 262) + 10
  {
    hide Alternates, ParseAll, ThreeTokens, SplitMatch;
    ParsedAlternating(Level1, hash, input);
    ThreeTokensLayout(Level1, input);
    SplitSize(|input| - 5, 2);
  }

  lemma {:induction false} SplitSize(size: nat, distance: nat)
    requires 3 <= size && 1 <= distance <= 8192
    ensures |SplitMatch(size, distance)| <= 3 * ((size - 3) / 262) + 3
    decreases size
  {
    if size - 2 > MAX_LEN - 2 {
      SplitSize(size - (MAX_LEN - 2), distance);
    }
  }

  /** Level 2 packs them into ten bytes and one for each 255 beyond the fourteenth. */
  lemma PackedAlternating2(hash: nat -> Slot, input: seq<byte>, packed: seq<byte>)
    requires 15 <= |input| <= INT_MAX && Alternates(input) && Packs(Level2, ParseAll(Level2, hash, input), packed)
    ensures var n := |input|;
            && packed == [33, input[0], input[1], 224] + Chain(n - 14)
                         + [if input[0] == input[1] then 0 else 1, 2, input[n - 3], input[n - 2], input[n - 1]]
            && |packed| == 10 + (n - 14) / 255
  {
    hide Alternates, ParseAll, ThreeTokens, MatchBytes, Chain, AllValid, LayoutAll;
    ParsedAlternating(Level2, hash, input);
    ThreeTokensLayout(Level2, input);
    var n, x, y := |input|, input[0], input[1];
    MatchBytesNear(n - 5, Back(Level2, x, y));
    assert input[n - 3..] == [input[n - 3], input[n - 2], input[n - 1]];
    MarkedTwo(x, y, Chain(n - 14), Back(Level2, x, y) - 1, input[n - 3..]);
  }

  lemma MatchBytesNear(size: nat, distance: nat)
    requires 9 <= size < WORD && distance in {1, 2}
    ensures MatchBytes(Level2, size, distance) == [224] + Chain(size - 9) + [distance - 1]
  {
    hide Chain;
  }

  lemma MarkedTwo(x: byte, y: byte, chain: seq<byte>, far: byte, rest: seq<byte>)
    requires |rest| == 3
    ensures Marked(Level2, [1, x, y] + ([224] + chain + [far]) + ([2] + rest))
            == [33, x, y, 224] + chain + [far, 2, rest[0], rest[1], rest[2]]
  {
  }
}
