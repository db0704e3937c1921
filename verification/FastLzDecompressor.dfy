/** The FastLZ decompressor: the loop over control bytes, with its bounds checks, and the whole round trip. */
module FastLzDecompressor {
  import opened Bytes
  import opened FastLzFormat
  import opened FastLzCompressor

  /** The result of the C function, with a read past the end of the input told apart. */
  datatype Outcome = Wrote(n: nat) | Refused | ReadPastEnd

  /** The outcome and the bytes it left agree with what the input decodes to. */
  ghost predicate Agrees(r: Outcome, output: seq<byte>, d: Decoded) {
    match r
    case Wrote(n) => n <= |output| && d == Done(output[..n])
    case Refused => d == Rejected
    case ReadPastEnd => d == OverRead
  }

  /** Copies a match whose source starts `distance` back; the run case reads one byte only. */
  method CopyMatch(output: array<byte>, op0: nat, distance: nat, size: nat) returns (op: nat)
    requires 1 <= distance <= op0 && 3 <= size && op0 + size <= output.Length
    modifies output
    ensures op == op0 + size
    ensures output[..op] == CopyBack(old(output[..op0]), distance, size)
  {
    ghost var before := output[..op0];
    op := op0;
    if distance == 1 {
      var b := output[op0 - 1];
      while op < op0 + size
        invariant op0 <= op <= op0 + size && output[op - 1] == b
        invariant output[..op] == CopyBack(before, distance, op - op0)
      {
        op := Put(output, op, b);
      }
    } else {
      var ref := op0 - distance;
      while op < op0 + size
        invariant op0 <= op <= op0 + size && ref == op - distance
        invariant output[..op] == CopyBack(before, distance, op - op0)
      {
        op := Put(output, op, output[ref]);
        ref := ref + 1;
      }
    }
  }

  method CopyLiterals(input: seq<byte>, ip0: nat, n: nat, output: array<byte>, op0: nat) returns (op: nat)
    requires ip0 + n <= |input| && op0 + n <= output.Length
    modifies output
    ensures op == op0 + n
    ensures output[..op] == old(output[..op0]) + input[ip0..ip0 + n]
  {
    ghost var before := output[..op0];
    op := op0;
    var ip := ip0;
    while op < op0 + n
      invariant op0 <= op <= op0 + n && ip == ip0 + (op - op0)
      invariant output[..op] == before + input[ip0..ip]
    {
      op := Put(output, op, input[ip]);
      ip := ip + 1;
    }
  }

  /** Reads the length and distance bytes that follow a match's control byte at `at`. */
  method ReadMatch(level: Level, input: seq<byte>, at: nat, ctrl: byte) returns (h: Header)
    requires at < |input| && ctrl >= 32
    ensures h == HeaderOf(Wrapping, level, [ctrl] + input[at + 1..])
  {
    var control: int := ctrl;
    var len: int, ofs: int := control / 32 - 1, control % 32 * 256;
    var ip := at + 1;
    if level == Level2 {
      h := ReadMatch2(input, at, ctrl);
      return;
    }
    if len == 6 {
      if ip >= |input| { return Truncated; }
      len, ip := len + input[ip], ip + 1;
    }
    if ip >= |input| { return Truncated; }
    return Header(len + 3, ofs + input[ip] + 1, ip + 1 - at);
  }

  /** The level 2 header: a chained length, a distance byte and, for a far match, two more. */
  method ReadMatch2(input: seq<byte>, at: nat, ctrl: byte) returns (h: Header)
    requires at < |input| && ctrl >= 32
    ensures h == HeaderOf(Wrapping, Level2, [ctrl] + input[at + 1..])
  {
    hide ReadChain;
    var control: int := ctrl;
    var len, ofs: int := control / 32 - 1, control % 32 * 256;
    ghost var total := len;
    var ip := at + 1;
    if len == 6 {
      len, ip, total := SumChain(input, at, ctrl);
      if ip > |input| { return Truncated; }
    }
    if ip >= |input| { return Truncated; }
    var code: int := input[ip];
    ip := ip + 1;
    if code == 255 && ofs == 31 * 256 {
      if ip + 1 >= |input| { return Truncated; }
      var high: int := input[ip];
      ofs := high * 256 + input[ip + 1];
      return Header(len + 3, ofs + FAR_BIAS + 1, ip + 2 - at);
    }
    return Header(len + 3, ofs + code + 1, ip - at);
  }

  /** Sums length bytes in 32 bits, up to the first that is not 255; past the input when there is none. */
  method SumChain(input: seq<byte>, at: nat, ctrl: byte) returns (len: int, ip: nat, ghost total: nat)
    requires at < |input|
    ensures var (n, i) := ReadChain([ctrl] + input[at + 1..], 1);
            ip - at == i && (ip <= |input| ==> total == 6 + n && len == total % WORD)
  {
    ghost var s := [ctrl] + input[at + 1..];
    len, ip, total := 6, at + 1, 6;
    var more := true;
    while more
      invariant at + 1 <= ip <= |input| && 6 <= total && len == total % WORD
      invariant more ==> ReadChain(s, 1) == (total - 6 + ReadChain(s, ip - at).0, ReadChain(s, ip - at).1)
      invariant !more ==> ReadChain(s, 1) == (total - 6, ip - at)
      decreases |input| - ip, more
    {
      if ip >= |input| { return len, |input| + 1, total; }
      more := input[ip] == 255;
      WrapAdds(total, input[ip]);
      total := total + input[ip];
      len, ip := (len + input[ip]) % WORD, ip + 1;
    }
  }

  /** A wrapping sum is what is left of the whole sum. */
  lemma WrapAdds(total: nat, n: nat)
    ensures (total % WORD + n) % WORD == (total + n) % WORD
  {
  }

  /** Stepping over one token inside the input is stepping over it in the slice being decoded. */
  lemma Advance(input: seq<byte>, at: nat, ctrl: byte, used: nat)
    requires at < |input| && 1 <= used
    ensures var s := [ctrl] + input[at + 1..];
            && |s| == |input| - at
            && (at + used <= |input| ==> s[1..used] == input[at + 1..at + used])
            && (at + used < |input| ==> s[used..] == [input[at + used]] + input[at + used + 1..])
  {
  }

  method DecompressLevel(level: Level, input: seq<byte>, output: array<byte>, maxout: nat) returns (r: Outcome)
    requires maxout <= output.Length
    modifies output
    ensures Agrees(r, output[..], DecodeLevel(Wrapping, level, input, maxout))
  {
    hide HeaderOf, CopyBack;
    if |input| == 0 {
      return ReadPastEnd;
    }
    var ctrl: byte := input[0] % 32;
    var ip: nat, op: nat := 0, 0;
    ghost var wanted := DecodeLevel(Wrapping, level, input, maxout);
    assert input[0 := ctrl] == [ctrl] + input[1..];
    hide DecodeLevel;
    while true
      invariant ip < |input| && op <= maxout
      invariant wanted == DecodeFrom(Wrapping, level, [ctrl] + input[ip + 1..], output[..op], maxout)
      decreases |input| - ip
    {
      var next: nat;
      if ctrl >= 32 {
        var h := ReadMatch(level, input, ip, ctrl);
        if h.Truncated? {
          return ReadPastEnd;
        }
        if op + h.size > maxout || h.distance > op {
          return Refused;
        }
        next := ip + h.used;
        Advance(input, ip, ctrl, h.used);
        op := CopyMatch(output, op, h.distance, h.size);
      } else {
        var n: nat := ctrl + 1;
        Advance(input, ip, ctrl, n + 1);
        if op + n > maxout || ip + 1 + n > |input| {
          return Refused;
        }
        next := ip + 1 + n;
        op := CopyLiterals(input, ip + 1, n, output, op);
      }
      if next >= |input| {
        return Wrote(op);
      }
      ip := next;
      ctrl := input[ip];
    }
  }

  /** The level is read off the first byte; other levels are refused. */
  method Decompress(input: seq<byte>, output: array<byte>, maxout: nat) returns (r: Outcome)
    requires maxout <= output.Length
    modifies output
    ensures Agrees(r, output[..], Decode(Wrapping, input, maxout))
  {
    if |input| == 0 {
      return ReadPastEnd;
    }
    var level := input[0] / 32 + 1;
    if level == 1 {
      r := DecompressLevel(Level1, input, output, maxout);
    } else if level == 2 {
      r := DecompressLevel(Level2, input, output, maxout);
    } else {
      r := Refused;
    }
  }

  /** Whatever the input bytes, a successful decode never exceeds the room given. */
  lemma {:induction false} DecodeFits(sum: Sum, level: Level, s: seq<byte>, out: seq<byte>, maxout: nat)
    requires |s| > 0 && |out| <= maxout
    ensures var d := DecodeFrom(sum, level, s, out, maxout);
            d.Done? ==> out <= d.text && |out| < |d.text| <= maxout
    decreases |s|
  {
    if s[0] < 32 {
      var n := s[0] + 1;
      if |out| + n <= maxout && 1 + n < |s| {
        DecodeFits(sum, level, s[1 + n..], out + s[1..1 + n], maxout);
      }
    } else {
      var h := HeaderOf(sum, level, s);
      if h.Header? && h.distance <= |out| {
        CopyBackExtends(out, h.distance, h.size);
      }
      if h.Header? && |out| + h.size <= maxout && h.distance <= |out| && h.used < |s| {
        DecodeFits(sum, level, s[h.used..], CopyBack(out, h.distance, h.size), maxout);
      }
    }
  }

  /**
   The program agrees with the format on every input of at most 16,843,010 bytes. On a longer one it does exactly
   when no header before the end or a refusal is overlong, or a later token is refused.
   */
  lemma DecodesAsMeant(level: Level, s: seq<byte>, maxout: nat)
    requires s != [] && maxout <= INT_MAX
    ensures var wrapped := DecodeLevel(Wrapping, level, s, maxout);
            wrapped == DecodeLevel(Unbounded, level, s, maxout)
            <==> !Meets(level, s[0 := s[0] % 32], 0, maxout) || wrapped == Rejected
    ensures |s| <= 16_843_010 ==> DecodeLevel(Wrapping, level, s, maxout) == DecodeLevel(Unbounded, level, s, maxout)
  {
    hide Meets, DecodeFrom;
    DecodeAgrees(level, s[0 := s[0] % 32], [], maxout);
    if |s| <= 16_843_010 {
      ShortMeetsNone(level, s[0 := s[0] % 32], 0, maxout);
    }
  }

  /**
   Compressing at either level and decompressing gives the input back, or a refusal when room is short. Only
   when the packed size does not fit an `int` is there nothing to decompress: the size comes back negative.
   */
  method RoundTrip(level: Level, hash: nat -> Slot, input: seq<byte>, packed: array<byte>, output: array<byte>,
                   maxout: nat)
    returns (n: int, r: Outcome)
    requires packed != output && input != [] && |input| <= INT_MAX
    requires Bound(|input|) <= packed.Length && maxout <= output.Length
    modifies packed, output
    ensures n >= 0 ==> if |input| <= maxout then r == Wrote(|input|) && output[..|input|] == input else r == Refused
    ensures n < 0 ==> Bound(|input|) > INT_MAX
  {
    ghost var size, past;
    n, size, past := CompressLevel(level, hash, input, packed);
    SizeFits(|input|, size);
    if n < 0 {
      return n, Refused;
    }
    r := Decompress(packed[..n], output, maxout);
  }
}
