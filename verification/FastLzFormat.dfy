/**
 The FastLZ block format: its tokens, what they expand to, how the compressor
 lays them out in bytes, and what the decompressor makes of arbitrary bytes.
 */
module FastLzFormat {
  import opened Bytes

  const MAX_COPY := 32
  const MAX_LEN := 264
  const FAR_BIAS := 8191

  datatype Level = Level1 | Level2

  /** Distances at or above this are "far" (level 2) or not matched at all (level 1). */
  function MaxDistance(level: Level): nat {
    match level
    case Level1 => 8192
    case Level2 => 8191
  }

  /** Candidates at or above this distance are never matched. */
  function DistanceLimit(level: Level): nat {
    match level
    case Level1 => 8192
    case Level2 => 65535 + 8191 - 1
  }

  // ---------- Tokens and their meaning ----------

  datatype Token =
    | Literal(bytes: seq<byte>)
    | Match(size: nat, distance: nat)

  /** Copies `size` bytes from `distance` back, one at a time, so source and target may overlap. */
  function CopyBack(out: seq<byte>, distance: nat, size: nat): (r: seq<byte>)
    requires 1 <= distance <= |out|
    ensures |r| == |out| + size
  {
    if size == 0 then out
    else
      var p := CopyBack(out, distance, size - 1);
      p + [p[|p| - distance]]
  }

  /** The token can be written at this level. */
  predicate Fits(level: Level, t: Token) {
    match t
    case Literal(bytes) => 1 <= |bytes| <= MAX_COPY
    case Match(size, distance) =>
      && 3 <= size && 1 <= distance
      && match level
         case Level1 => size <= MAX_LEN && distance <= 8192
         case Level2 => size < WORD && distance - 1 - FAR_BIAS < 65536
  }

  /** ... and refers only to bytes already in `out`. */
  predicate Valid(level: Level, t: Token, out: seq<byte>) {
    Fits(level, t) && (t.Match? ==> t.distance <= |out|)
  }

  function Apply(level: Level, t: Token, out: seq<byte>): (r: seq<byte>)
    requires Valid(level, t, out)
    ensures |out| < |r|
  {
    match t
    case Literal(bytes) => out + bytes
    case Match(size, distance) => CopyBack(out, distance, size)
  }

  /** A list of tokens, the last one outermost. */
  datatype Tokens = Nil | Snoc(init: Tokens, last: Token)

  ghost predicate AllValid(level: Level, toks: Tokens) {
    toks.Snoc? ==> AllValid(level, toks.init) && Valid(level, toks.last, Replay(level, toks.init))
  }

  /** The text a token list stands for. */
  ghost function Replay(level: Level, toks: Tokens): (r: seq<byte>) {
    if toks.Nil? then []
    else
      var before := Replay(level, toks.init);
      if Valid(level, toks.last, before) then Apply(level, toks.last, before) else before
  }

  lemma {:induction false} CopyBackExtends(out: seq<byte>, distance: nat, size: nat)
    requires 1 <= distance <= |out|
    ensures out <= CopyBack(out, distance, size)
  {
    if size > 0 {
      CopyBackExtends(out, distance, size - 1);
    }
  }

  lemma {:induction false} CopyBackSplit(out: seq<byte>, distance: nat, a: nat, b: nat)
    requires 1 <= distance <= |out|
    ensures CopyBack(CopyBack(out, distance, a), distance, b) == CopyBack(out, distance, a + b)
  {
    if b > 0 {
      CopyBackSplit(out, distance, a, b - 1);
    }
  }

  /** Copying back reproduces the text exactly when the text repeats at that distance. */
  lemma {:induction false} CopyBackRepeats(text: seq<byte>, at: nat, distance: nat, size: nat)
    requires 1 <= distance <= at && at + size <= |text|
    requires forall k :: at <= k < at + size ==> text[k] == text[k - distance]
    ensures CopyBack(text[..at], distance, size) == text[..at + size]
  {
    if size > 0 {
      CopyBackRepeats(text, at, distance, size - 1);
    }
  }

  // ---------- Layout ----------

  /** A length as a run of 255s closed by a smaller byte (level 2). */
  function Chain(n: nat): (r: seq<byte>)
    ensures 1 <= |r| == n / 255 + 1
  {
    if n >= 255 then [255] + Chain(n - 255) else [n]
  }

  function Layout(level: Level, t: Token): (r: seq<byte>)
    requires Fits(level, t)
    ensures |r| >= 2
  {
    match t
    case Literal(bytes) => [|bytes| - 1] + bytes
    case Match(size, distance) =>
      var len, d := size - 2, distance - 1;
      if level == Level1 || d < FAR_BIAS then
        var low := d % 256;
        if len < 7 then [len * 32 + d / 256, low]
        else if level == Level1 then [224 + d / 256, len - 7, low]
        else [224 + d / 256] + Chain(len - 7) + [low]
      else
        var far := d - FAR_BIAS;
        if len < 7 then [len * 32 + 31, 255, far / 256, far % 256]
        else [255] + Chain(len - 7) + [255, far / 256, far % 256]
  }

  ghost function LayoutAll(level: Level, toks: Tokens): (r: seq<byte>)
    requires AllValid(level, toks)
  {
    if toks.Nil? then [] else LayoutAll(level, toks.init) + Layout(level, toks.last)
  }

  // ---------- What the decompressor computes ----------

  /** Rejected is the C result 0; OverRead is a read past the end of the input, undefined in C. */
  datatype Decoded = Done(text: seq<byte>) | Rejected | OverRead

  datatype Header = Header(size: nat, distance: nat, used: nat) | Truncated

  /** Sums length bytes from position `i` up to and including the first that is not 255. */
  function ReadChain(s: seq<byte>, i: nat): (r: (nat, nat))
    requires i <= |s|
    ensures r.1 <= |s| + 1 && i < r.1
    decreases |s| - i
  {
    if i == |s| then (0, |s| + 1)
    else if s[i] != 255 then (s[i], i + 1)
    else var (n, j) := ReadChain(s, i + 1); (255 + n, j)
  }

  /** A match header whose control byte is s[0] >= 32. */
  function ReadHeader(level: Level, s: seq<byte>): (h: Header)
    requires |s| > 0 && s[0] >= 32
    ensures h.Header? ==> 2 <= h.used <= |s| && h.size >= 3 && h.distance >= 1
  {
    var ctrl: int := s[0];
    var len: int, ofs: int := ctrl / 32 - 1, ctrl % 32 * 256;
    if level == Level1 then
      if len == 6 then
        if |s| < 3 then Truncated else Header(len + s[1] + 3, ofs + s[2] + 1, 3)
      else
        if |s| < 2 then Truncated else Header(len + 3, ofs + s[1] + 1, 2)
    else
      var (n, i) := if len == 6 then ReadChain(s, 1) else (0, 1);
      if i >= |s| then Truncated
      else if s[i] == 255 && ofs == 31 * 256 then
        if i + 2 >= |s| then Truncated
        else Header(len + n + 3, s[i + 1] * 256 + s[i + 2] + FAR_BIAS + 1, i + 3)
      else
        Header(len + n + 3, ofs + s[i] + 1, i + 1)
  }

  /** How the bytes of a chained length are summed: as the format means them, or as the program's 32 bits do. */
  datatype Sum = Unbounded | Wrapping

  function HeaderOf(sum: Sum, level: Level, s: seq<byte>): (h: Header)
    requires |s| > 0 && s[0] >= 32
    ensures h.Header? ==> 2 <= h.used <= |s| && h.size >= 3 && h.distance >= 1
  {
    var h := ReadHeader(level, s);
    if sum.Wrapping? && h.Header? then Header((h.size - 3) % WORD + 3, h.distance, h.used) else h
  }

  /** Decodes the tokens in `s`, whose first byte is a control byte, onto `out`. */
  function DecodeFrom(sum: Sum, level: Level, s: seq<byte>, out: seq<byte>, maxout: nat): (r: Decoded)
    requires |s| > 0
    decreases |s|
  {
    if s[0] < 32 then
      var n := s[0] + 1;
      if |out| + n > maxout || 1 + n > |s| then Rejected
      else Next(sum, level, s, 1 + n, out + s[1..1 + n], maxout)
    else
      match HeaderOf(sum, level, s)
      case Truncated => OverRead
      case Header(size, distance, used) =>
        if |out| + size > maxout || distance > |out| then Rejected
        else Next(sum, level, s, used, CopyBack(out, distance, size), maxout)
  }

  function Next(sum: Sum, level: Level, s: seq<byte>, used: nat, out: seq<byte>, maxout: nat): (r: Decoded)
    requires 0 < used <= |s|
    decreases |s|, 0
  {
    if used == |s| then Done(out) else DecodeFrom(sum, level, s[used..], out, maxout)
  }

  /** The first control byte carries the level in its top three bits. */
  function DecodeLevel(sum: Sum, level: Level, s: seq<byte>, maxout: nat): (r: Decoded) {
    if |s| == 0 then OverRead else DecodeFrom(sum, level, s[0 := s[0] % 32], [], maxout)
  }

  function Decode(sum: Sum, s: seq<byte>, maxout: nat): (r: Decoded) {
    if |s| == 0 then OverRead
    else if s[0] / 32 == 0 then DecodeLevel(sum, Level1, s, maxout)
    else if s[0] / 32 == 1 then DecodeLevel(sum, Level2, s, maxout)
    else Rejected
  }

  // ---------- Decoding undoes layout ----------

  lemma {:induction false} ReadChainOfChain(pre: seq<byte>, n: nat, post: seq<byte>)
    ensures ReadChain(pre + Chain(n) + post, |pre|) == (n, |pre| + |Chain(n)|)
    decreases n
  {
    var s := pre + Chain(n) + post;
    assert s[|pre|] == Chain(n)[0];
    if n >= 255 {
      assert s == (pre + [255]) + Chain(n - 255) + post;
      ReadChainOfChain(pre + [255], n - 255, post);
    }
  }

  /** Arithmetic of a control byte. */
  lemma SplitControl(len: nat, high: nat)
    requires 1 <= len <= 7 && high < 32
    ensures (len * 32 + high) / 32 == len && (len * 32 + high) % 32 == high
  {
  }

  lemma ReadHeaderOfChained(t: Token, rest: seq<byte>)
    requires t.Match? && Fits(Level2, t) && t.size >= 9
    ensures var s := Layout(Level2, t) + rest;
            s[0] >= 32 && ReadHeader(Level2, s) == Header(t.size, t.distance, |Layout(Level2, t)|)
  {
    hide ReadHeader, ReadChain, Chain;
    var len, d := t.size - 2, t.distance - 1;
    var near := d < FAR_BIAS;
    var control: byte := if near then 224 + d / 256 else 255;
    var tail: seq<byte> := if near then [d % 256] else [255, (d - FAR_BIAS) / 256, (d - FAR_BIAS) % 256];
    assert Layout(Level2, t) == [control] + Chain(len - 7) + tail;
    SplitControl(7, if near then d / 256 else 31);
    ReadHeaderAfterChain(control, len - 7, tail, rest);
  }

  lemma ReadHeaderAfterChain(control: byte, n: nat, tail: seq<byte>, rest: seq<byte>)
    requires control >= 224 && 1 <= |tail|
    requires if |tail| == 3 then control == tail[0] == 255 else |tail| == 1 && !(control == tail[0] == 255)
    ensures var s := [control] + Chain(n) + tail + rest;
            ReadHeader(Level2, s) ==
            Header(n + 9,
                   if |tail| == 1 then control % 32 * 256 + tail[0] + 1 else tail[1] * 256 + tail[2] + FAR_BIAS + 1,
                   1 + |Chain(n)| + |tail|)
  {
    var s := [control] + Chain(n) + tail + rest;
    var i := 1 + |Chain(n)|;
    assert s == [control] + Chain(n) + (tail + rest);
    ReadChainOfChain([control], n, tail + rest);
    assert s[i..] == tail + rest;
    assert forall k :: 0 <= k < |tail| ==> s[i + k] == tail[k];
  }

  lemma {:induction false} ReadHeaderOfLayout(level: Level, t: Token, rest: seq<byte>)
    requires t.Match? && Fits(level, t)
    ensures var s := Layout(level, t) + rest;
            s[0] >= 32 && ReadHeader(level, s) == Header(t.size, t.distance, |Layout(level, t)|)
  {
    var len, d := t.size - 2, t.distance - 1;
    if level == Level2 && len >= 7 {
      ReadHeaderOfChained(t, rest);
    } else {
      SplitControl(if len < 7 then len else 7, if level == Level1 || d < FAR_BIAS then d / 256 else 31);
    }
  }

  /** Decoding goes on at a control byte, or is done when nothing is left. */
  function DecodeRest(sum: Sum, level: Level, s: seq<byte>, out: seq<byte>, maxout: nat): Decoded {
    if s == [] then Done(out) else DecodeFrom(sum, level, s, out, maxout)
  }

  /** Either way of summing lengths reads a laid-out match right, since its size fits 32 bits. */
  lemma HeaderOfLayout(sum: Sum, level: Level, t: Token, rest: seq<byte>)
    requires t.Match? && Fits(level, t)
    ensures var s := Layout(level, t) + rest;
            s[0] >= 32 && HeaderOf(sum, level, s) == Header(t.size, t.distance, |Layout(level, t)|)
  {
    hide ReadHeader, Layout;
    ReadHeaderOfLayout(level, t, rest);
  }

  /** Decoding one laid-out token appends what it stands for, or rejects when there is too little room. */
  lemma DecodeToken(sum: Sum, level: Level, t: Token, out: seq<byte>, rest: seq<byte>, maxout: nat)
    requires Valid(level, t, out)
    ensures var after := Apply(level, t, out);
            DecodeRest(sum, level, Layout(level, t) + rest, out, maxout)
              == if |after| <= maxout then DecodeRest(sum, level, rest, after, maxout) else Rejected
  {
    hide HeaderOf, CopyBack;
    var s, used := Layout(level, t) + rest, |Layout(level, t)|;
    assert s[used..] == rest;
    if t.Match? {
      hide Layout;
      HeaderOfLayout(sum, level, t, rest);
      DecodeMatch(sum, level, s, out, maxout);
    } else {
      DecodeLiteral(sum, level, t.bytes, s, out, maxout);
    }
  }

  lemma DecodeMatch(sum: Sum, level: Level, s: seq<byte>, out: seq<byte>, maxout: nat)
    requires |s| > 0 && s[0] >= 32 && HeaderOf(sum, level, s).Header? && HeaderOf(sum, level, s).distance <= |out|
    ensures var h := HeaderOf(sum, level, s);
            DecodeRest(sum, level, s, out, maxout)
              == if |out| + h.size > maxout then Rejected
                 else DecodeRest(sum, level, s[h.used..], CopyBack(out, h.distance, h.size), maxout)
  {
    hide HeaderOf, CopyBack;
    var h := HeaderOf(sum, level, s);
    assert |out| + h.size <= maxout ==>
        DecodeFrom(sum, level, s, out, maxout)
          == Next(sum, level, s, h.used, CopyBack(out, h.distance, h.size), maxout);
  }

  lemma DecodeLiteral(sum: Sum, level: Level, bytes: seq<byte>, s: seq<byte>, out: seq<byte>, maxout: nat)
    requires 1 <= |bytes| <= MAX_COPY && [|bytes| - 1] + bytes <= s
    ensures DecodeRest(sum, level, s, out, maxout)
              == if |out| + |bytes| > maxout then Rejected
                 else DecodeRest(sum, level, s[|bytes| + 1..], out + bytes, maxout)
  {
    var n := |bytes|;
    assert s[0] == n - 1 && s[1..1 + n] == bytes;
    assert |out| + n <= maxout ==>
        DecodeFrom(sum, level, s, out, maxout) == Next(sum, level, s, 1 + n, out + bytes, maxout);
  }

  /** Decoding a laid-out token list gives its text and goes on, or rejects when there is too little room. */
  lemma {:induction false} DecodeLayout(sum: Sum, level: Level, toks: Tokens, rest: seq<byte>, maxout: nat)
    requires AllValid(level, toks)
    ensures DecodeRest(sum, level, LayoutAll(level, toks) + rest, [], maxout)
              == if |Replay(level, toks)| <= maxout then DecodeRest(sum, level, rest, Replay(level, toks), maxout)
                else Rejected
    decreases toks
  {
    if toks.Nil? {
      assert [] + rest == rest;
    } else {
      var t := toks.last;
      ConcatAssoc(LayoutAll(level, toks.init), Layout(level, t), rest);
      DecodeLayout(sum, level, toks.init, Layout(level, t) + rest, maxout);
      DecodeToken(sum, level, t, Replay(level, toks.init), rest, maxout);
    }
  }

  // ---------- Lengths past 32 bits ----------

  /** A header whose length, 6 plus the chained bytes, does not fit 32 bits. */
  predicate Overlong(level: Level, s: seq<byte>)
    requires |s| > 0 && s[0] >= 32
  {
    ReadHeader(level, s).Header? && ReadHeader(level, s).size - 3 >= WORD
  }

  /** The program reads a header as the format means it exactly when its length fits 32 bits. */
  lemma HeaderAgrees(level: Level, s: seq<byte>)
    requires |s| > 0 && s[0] >= 32
    ensures HeaderOf(Wrapping, level, s) == ReadHeader(level, s) <==> !Overlong(level, s)
    ensures Overlong(level, s) <==> level == Level2 && s[0] >= 224 && ReadHeader(level, s).Header?
                                    && 6 + ReadChain(s, 1).0 >= WORD
  {
    hide ReadChain;
    var h := ReadHeader(level, s);
    if h.Header? {
      assert (h.size - 3) % WORD == h.size - 3 <==> h.size - 3 < WORD;
    }
  }

  /** Decoding gets to an overlong header before it ends, fails or is refused; `have` bytes are out already. */
  predicate Meets(level: Level, s: seq<byte>, have: nat, maxout: nat)
    requires |s| > 0
    decreases |s|
  {
    if s[0] < 32 then
      var n := s[0] + 1;
      have + n <= maxout && 1 + n < |s| && Meets(level, s[1 + n..], have + n, maxout)
    else
      var h := ReadHeader(level, s);
      && h.Header?
      && (Overlong(level, s) || (have + h.size <= maxout && h.distance <= have && h.used < |s|
                                 && Meets(level, s[h.used..], have + h.size, maxout)))
  }

  /**
   The program decodes as the format means exactly when it meets no overlong header, or refuses the input
   further on: the format refuses every input with such a header, since the room is an `int`.
   */
  lemma {:induction false} DecodeAgrees(level: Level, s: seq<byte>, out: seq<byte>, maxout: nat)
    requires |s| > 0 && |out| <= maxout <= INT_MAX
    ensures var wrapped := DecodeFrom(Wrapping, level, s, out, maxout);
            && (wrapped == DecodeFrom(Unbounded, level, s, out, maxout)
                <==> !Meets(level, s, |out|, maxout) || wrapped == Rejected)
            && (Meets(level, s, |out|, maxout) ==> DecodeFrom(Unbounded, level, s, out, maxout) == Rejected)
    decreases |s|
  {
    hide ReadHeader, CopyBack;
    if s[0] < 32 {
      var n := s[0] + 1;
      if |out| + n <= maxout && 1 + n < |s| {
        DecodeAgrees(level, s[1 + n..], out + s[1..1 + n], maxout);
      }
    } else {
      var h := ReadHeader(level, s);
      HeaderAgrees(level, s);
      if h.Header? && !Overlong(level, s) && |out| + h.size <= maxout && h.distance <= |out| && h.used < |s| {
        DecodeAgrees(level, s[h.used..], CopyBack(out, h.distance, h.size), maxout);
      }
    }
  }

  lemma {:induction false} ChainBound(s: seq<byte>, i: nat)
    requires i <= |s|
    ensures ReadChain(s, i).1 <= |s| ==> ReadChain(s, i).0 < 255 * (ReadChain(s, i).1 - i)
    decreases |s| - i
  {
    if i < |s| && s[i] == 255 {
      ChainBound(s, i + 1);
    }
  }

  /** It takes 16,843,011 bytes to write an overlong header. */
  lemma {:induction false} ShortMeetsNone(level: Level, s: seq<byte>, have: nat, maxout: nat)
    requires 0 < |s| <= 16_843_010
    ensures !Meets(level, s, have, maxout)
    decreases |s|
  {
    hide ReadChain;
    if s[0] >= 32 {
      var h := ReadHeader(level, s);
      ChainBound(s, 1);
      HeaderAgrees(level, s);
      if h.Header? && h.used < |s| {
        ShortMeetsNone(level, s[h.used..], have + h.size, maxout);
      }
    } else if 2 + s[0] < |s| {
      ShortMeetsNone(level, s[2 + s[0]..], have + s[0] + 1, maxout);
    }
  }

  /** One literal, and a match whose length bytes are 16,843,010 times 255 and a 0. */
  function LongChain(): seq<byte> { [32, 97, 224] + Chain(255 * 16_843_010) + [0] }

  function Run(b: byte, n: nat): seq<byte> { seq(n, _ => b) }

  lemma {:induction false} RunCopies(b: byte, n: nat)
    ensures CopyBack([b], 1, n) == Run(b, n + 1)
  {
    if n > 0 {
      RunCopies(b, n - 1);
    } else {
      assert Run(b, 1) == [b];
    }
  }

  lemma LongChainStart(sum: Sum, maxout: nat)
    ensures |LongChain()| == 16_843_015
    ensures Decode(sum, LongChain(), maxout)
            == if maxout < 1 then Rejected
              else DecodeFrom(sum, Level2, [224] + Chain(255 * 16_843_010) + [0], [97], maxout)
  {
    hide Chain, HeaderOf;
    var s := LongChain();
    var t, rest := s[0 := 0], [224] + Chain(255 * 16_843_010) + [0];
    assert s[0 := s[0] % 32] == t;
    assert t[2..] == rest && t[1..2] == [97] && [] + [97] == [97];
    assert Decode(sum, s, maxout) == DecodeLevel(sum, Level2, s, maxout) == DecodeFrom(sum, Level2, t, [], maxout);
    if maxout >= 1 {
      assert DecodeFrom(sum, Level2, t, [], maxout) == Next(sum, Level2, t, 2, [97], maxout);
    }
  }

  /** On that input the program writes 264 bytes where it has room for them; the format means more than it can. */
  lemma LongChainDiffers(maxout: nat)
    requires maxout <= INT_MAX
    ensures Decode(Unbounded, LongChain(), maxout) == Rejected
    ensures maxout >= 264 ==> Decode(Wrapping, LongChain(), maxout) == Done(Run(97, 264))
  {
    hide Chain, ReadHeader, CopyBack, Decode, LongChain;
    LongChainStart(Unbounded, maxout);
    LongChainStart(Wrapping, maxout);
    var rest, n := [224] + Chain(255 * 16_843_010) + [0], 255 * 16_843_010;
    ReadHeaderAfterChain(224, n, [0], []);
    assert rest + [] == rest;
    assert ReadHeader(Level2, rest) == Header(n + 9, 1, |rest|);
    assert (n + 6) % WORD == 260;
    assert HeaderOf(Wrapping, Level2, rest) == Header(263, 1, |rest|);
    RunCopies(97, 263);
  }
}
