/** Decimal numerals as bytes: the strict 64-bit parser, the printer and the digit counter. */
module Decimal {
  import opened Bytes

  const ZERO := 48
  const NINE := 57
  const MINUS := 45
  const LLONG_MAX := 0x7fff_ffff_ffff_ffff
  const ULLONG_MAX := 0xffff_ffff_ffff_ffff

  predicate InInt64(v: int) { -LLONG_MAX - 1 <= v <= LLONG_MAX }

  predicate IsDigit(b: byte) { ZERO <= b <= NINE }

  /** The canonical numeral of a natural number. */
  function Digits(n: nat): (r: seq<byte>)
    ensures |r| >= 1 && (forall k :: 0 <= k < |r| ==> IsDigit(r[k]))
    ensures n > 0 ==> r[0] != ZERO
  {
    if n < 10 then [ZERO + n] else Digits(n / 10) + [ZERO + n % 10]
  }

  /** The canonical numeral of an integer. */
  function Show(v: int): (r: seq<byte>)
    ensures |r| >= 1
  {
    if v < 0 then [MINUS] + Digits(-v) else Digits(v)
  }

  /** `s` is the numeral of the 64-bit integer `v`. */
  predicate Denotes(s: seq<byte>, v: int) { InInt64(v) && s == Show(v) }

  /** The 64-bit integer a byte string is the numeral of, if any. */
  datatype Parsed64 = Value(v: int) | NotANumber

  ghost function Parse64(s: seq<byte>): (r: Parsed64)
    ensures r.Value? ==> Denotes(s, r.v)
    ensures r.NotANumber? ==> forall v :: !Denotes(s, v)
  {
    if exists v :: Denotes(s, v) then var v :| Denotes(s, v); Value(v) else NotANumber
  }

  lemma {:induction false} DigitsInjective(a: nat, b: nat)
    requires Digits(a) == Digits(b)
    ensures a == b
  {
    var da, db := Digits(a), Digits(b);
    assert (|da| >= 2 <==> a >= 10) && (|db| >= 2 <==> b >= 10);
    if a >= 10 {
      assert da[..|da| - 1] == Digits(a / 10) && db[..|db| - 1] == Digits(b / 10);
      DigitsInjective(a / 10, b / 10);
      assert da[|da| - 1] == ZERO + a % 10 && db[|db| - 1] == ZERO + b % 10;
    }
  }

  /** What a numeral looks like: an optional minus sign, then digits not starting with zero, or just zero. */
  lemma ShowShape(v: int)
    ensures var s, at := Show(v), if v < 0 then 1 else 0;
            && |s| > at && s[at..] == Digits(if v < 0 then -v else v)
            && (s[0] == MINUS <==> v < 0)
            && (forall k :: at <= k < |s| ==> IsDigit(s[k]))
            && (s[at] == ZERO ==> s == [ZERO])
  {
  }

  lemma ShowInjective(a: int, b: int)
    requires Show(a) == Show(b)
    ensures a == b
  {
    if a < 0 && b < 0 {
      assert Show(a)[1..] == Digits(-a) && Show(b)[1..] == Digits(-b);
      DigitsInjective(-a, -b);
    } else if a >= 0 && b >= 0 {
      DigitsInjective(a, b);
    }
  }

  /** Parsing a numeral gives the number back. */
  lemma ParseShow(v: int)
    requires InInt64(v)
    ensures Parse64(Show(v)) == Value(v)
  {
    assert Denotes(Show(v), v);
    ShowInjective(v, Parse64(Show(v)).v);
  }

  /** A numeral that continues the numeral of `v` denotes at least `v`, and ten times as much if longer. */
  lemma {:induction false} PrefixValue(u: nat, v: nat, rest: seq<byte>)
    requires Digits(u) == Digits(v) + rest
    ensures u >= v && (rest != [] ==> u >= 10 * v)
    decreases |rest|
  {
    if rest == [] {
      assert Digits(v) + rest == Digits(v);
      DigitsInjective(u, v);
    } else {
      var d := Digits(u);
      assert |d| >= 2;
      assert d[..|d| - 1] == Digits(u / 10) == Digits(v) + rest[..|rest| - 1];
      PrefixValue(u / 10, v, rest[..|rest| - 1]);
    }
  }

  /** No 64-bit integer has a numeral starting with these digits. */
  lemma TooLong(s: seq<byte>, at: nat, end: nat, v: nat)
    requires at == (if |s| > 0 && s[0] == MINUS then 1 else 0)
    requires at <= end <= |s| && s[at..end] == Digits(v)
    requires v > LLONG_MAX + 1 || (end < |s| && 10 * v > LLONG_MAX + 1)
    ensures forall w :: !Denotes(s, w)
  {
    hide Denotes;
    forall w
      ensures !Denotes(s, w)
    {
      TooLongFor(s, at, end, v, w);
    }
  }

  lemma TooLongFor(s: seq<byte>, at: nat, end: nat, v: nat, w: int)
    requires at == (if |s| > 0 && s[0] == MINUS then 1 else 0)
    requires at <= end <= |s| && s[at..end] == Digits(v)
    requires v > LLONG_MAX + 1 || (end < |s| && 10 * v > LLONG_MAX + 1)
    ensures !Denotes(s, w)
  {
    hide Digits, Show;
    ShowShape(w);
    if s == Show(w) {
      assert s[at..] == s[at..end] + s[end..];
      PrefixValue(if w < 0 then -w else w, v, s[end..]);
    }
  }

  /** Anything with a byte other than a digit after the sign is not a numeral. */
  lemma NotNumeral(s: seq<byte>, k: nat)
    requires k < |s| && !IsDigit(s[k]) && (k > 0 || s[0] != MINUS)
    ensures forall w :: !Denotes(s, w)
  {
    forall w
      ensures !Denotes(s, w)
    {
      ShowShape(w);
    }
  }

  /** Strict conversion to a 64-bit integer; the accumulator is unsigned 64-bit and never wraps. */
  method String2ll(s: seq<byte>) returns (r: Parsed64)
    ensures r == Parse64(s)
  {
    if |s| == 0 {
      return NotANumber;
    }
    if |s| == 1 && s[0] == ZERO {
      ParseShow(0);
      assert s == Show(0);
      return Value(0);
    }
    var negative, plen: nat := false, 0;
    if s[0] == MINUS {
      negative, plen := true, 1;
      if plen == |s| {
        OnlySign(s);
        return NotANumber;
      }
    }
    if !(ZERO + 1 <= s[plen] <= NINE) {
      BadLead(s, plen);
      return NotANumber;
    }
    ghost var at := plen;
    var v, overflow;
    v, plen, overflow := Accumulate(s, plen);
    if overflow {
      return NotANumber;
    }
    if plen < |s| {
      NotNumeral(s, plen);
      return NotANumber;
    }
    if v > (if negative then LLONG_MAX + 1 else LLONG_MAX) {
      WrongRange(s, at, v);
      return NotANumber;
    }
    SignedValue(s, at, v);
    r := Value(if negative then 0 - v else v);
  }

  /** Reads digits from `at`; on overflow of the unsigned accumulator the string is no 64-bit numeral. */
  method Accumulate(s: seq<byte>, at: nat) returns (v: nat, plen: nat, overflow: bool)
    requires |s| > at == (if s[0] == MINUS then 1 else 0) && ZERO + 1 <= s[at] <= NINE
    ensures overflow ==> forall w :: !Denotes(s, w)
    ensures !overflow ==> at < plen <= |s| && 1 <= v <= ULLONG_MAX && s[at..plen] == Digits(v)
    ensures !overflow && plen < |s| ==> !IsDigit(s[plen])
  {
    v, plen, overflow := s[at] - ZERO, at + 1, false;
    while plen < |s| && IsDigit(s[plen])
      invariant at < plen <= |s| && 1 <= v <= ULLONG_MAX
      invariant s[at..plen] == Digits(v)
    {
      var d := s[plen] - ZERO;
      if v > ULLONG_MAX / 10 {
        TooLong(s, at, plen, v);
        return v, plen, true;
      }
      NextDigit(s, at, plen, v);
      v := v * 10;
      if v > ULLONG_MAX - d {
        TooLong(s, at, plen + 1, v + d);
        return v, plen, true;
      }
      v, plen := v + d, plen + 1;
    }
  }

  lemma NextDigit(s: seq<byte>, at: nat, plen: nat, v: nat)
    requires at <= plen < |s| && 1 <= v && s[at..plen] == Digits(v) && IsDigit(s[plen])
    ensures s[at..plen + 1] == Digits(v * 10 + (s[plen] - ZERO))
  {
    assert s[at..plen + 1] == s[at..plen] + [s[plen]];
  }

  lemma SignedValue(s: seq<byte>, at: nat, v: nat)
    requires |s| > 0 && at == (if s[0] == MINUS then 1 else 0) && at <= |s| && s[at..] == Digits(v)
    requires v <= LLONG_MAX + at && v > 0
    ensures Parse64(s) == Value(if at == 1 then 0 - v else v)
  {
    var value: int := if at == 1 then 0 - v else v;
    assert s == (if at == 1 then [MINUS] else []) + s[at..];
    assert s == Show(value);
    ParseShow(value);
  }

  lemma OnlySign(s: seq<byte>)
    requires s == [MINUS]
    ensures forall w :: !Denotes(s, w)
  {
    forall w
      ensures !Denotes(s, w)
    {
      ShowShape(w);
    }
  }

  lemma BadLead(s: seq<byte>, at: nat)
    requires at < |s| && at == (if s[0] == MINUS then 1 else 0)
    requires !(ZERO + 1 <= s[at] <= NINE) && !(|s| == 1 && s[0] == ZERO)
    ensures forall w :: !Denotes(s, w)
  {
    forall w
      ensures !Denotes(s, w)
    {
      ShowShape(w);
    }
  }

  lemma WrongRange(s: seq<byte>, at: nat, v: nat)
    requires |s| > 0 && at == (if s[0] == MINUS then 1 else 0) && at <= |s| && s[at..] == Digits(v)
    requires v > LLONG_MAX + at
    ensures forall w :: !Denotes(s, w)
  {
    forall w
      ensures !Denotes(s, w)
    {
      ShowShape(w);
      if s == Show(w) {
        DigitsInjective(if w < 0 then -w else w, v);
      }
    }
  }

  // ---------- Printing ----------

  function Pow10(k: nat): nat {
    if k == 0 then 1 else 10 * Pow10(k - 1)
  }

  /** A number has at most `k` digits exactly when it is below ten to the `k`. */
  lemma {:induction false} DigitCount(n: nat, k: nat)
    requires k >= 1
    ensures |Digits(n)| <= k <==> n < Pow10(k)
    decreases k
  {
    if k > 1 {
      if n >= 10 {
        DigitCount(n / 10, k - 1);
      } else {
        DigitCount(0, k - 1);
      }
    } else {
      assert Pow10(1) == 10 * Pow10(0);
    }
  }

  function Reversed(s: seq<byte>): (r: seq<byte>)
    ensures |r| == |s|
  {
    seq(|s|, i requires 0 <= i < |s| => s[|s| - 1 - i])
  }

  lemma ReversedSnoc(s: seq<byte>, b: byte)
    ensures Reversed(s + [b]) == [b] + Reversed(s)
  {
  }

  lemma ReversedTwice(s: seq<byte>)
    ensures Reversed(Reversed(s)) == s
  {
  }

  method ReverseInPlace(buf: array<byte>, l: nat)
    requires l <= buf.Length
    modifies buf
    ensures buf[..l] == Reversed(old(buf[..l])) && buf[l..] == old(buf[l..])
  {
    var s, p := 0, l - 1;
    while s < p
      invariant 0 <= s && s + p == l - 1 && s <= p + 1
      invariant forall k :: 0 <= k < s || p < k < l ==> buf[k] == old(buf[l - 1 - k])
      invariant forall k :: s <= k <= p ==> buf[k] == old(buf[k])
      invariant buf[l..] == old(buf[l..])
    {
      buf[s], buf[p] := buf[p], buf[s];
      s, p := s + 1, p - 1;
    }
  }

  /** Writes the digits of `n` last digit first. */
  method PutDigits(buf: array<byte>, n: nat) returns (p: nat)
    requires |Digits(n)| <= buf.Length
    modifies buf
    ensures p == |Digits(n)| && buf[..p] == Reversed(Digits(n))
    ensures buf[p..] == old(buf[p..])
  {
    var v := n;
    p := 0;
    ghost var left := Digits(n);
    while true
      invariant p < |Digits(n)| && left == Digits(v)
      invariant Digits(n) == left + Reversed(buf[..p])
      invariant buf[p..] == old(buf[p..])
      decreases v
    {
      ghost var before, tail := buf[..p], buf[p + 1..];
      buf[p] := ZERO + v % 10;
      assert buf[..p + 1] == before + [ZERO + v % 10] && buf[p + 1..] == tail;
      DigitMoves(n, v, before);
      p, v := p + 1, v / 10;
      if v == 0 {
        ReversedTwice(buf[..p]);
        return;
      }
      left := Digits(v);
    }
  }

  lemma DigitMoves(n: nat, v: nat, before: seq<byte>)
    requires Digits(n) == Digits(v) + Reversed(before)
    ensures var after := Reversed(before + [ZERO + v % 10]);
            if v < 10 then Digits(n) == after else Digits(n) == Digits(v / 10) + after && |before| + 1 < |Digits(n)|
  {
    hide Reversed;
    var d := ZERO + v % 10;
    ReversedSnoc(before, d);
    if v >= 10 {
      ConcatAssoc(Digits(v / 10), [d], Reversed(before));
    }
  }

  /** The printed form of a 64-bit integer, in a buffer of 21 bytes with a closing zero. */
  method Ll2str(buf: array<byte>, value: int) returns (l: nat)
    requires InInt64(value) && buf.Length >= 21
    modifies buf
    ensures l < 21 && buf[..l] == Show(value) && buf[l] == 0
  {
    hide Digits, Reversed;
    // the magnitude is unsigned, so the least value needs no special case
    var v: nat := if value < 0 then 0 - value else value;
    MagnitudeLength(v);
    l := PutDigits(buf, v);
    if value < 0 {
      ghost var digits := buf[..l];
      buf[l] := MINUS;
      l := l + 1;
      assert buf[..l] == digits + [MINUS];
      ReversedSnoc(digits, MINUS);
    }
    ReversedTwice(Digits(v));
    buf[l] := 0;
    ReverseInPlace(buf, l);
    assert buf[l] == buf[l..][0];
  }

  lemma MagnitudeLength(v: nat)
    requires v <= LLONG_MAX + 1
    ensures |Digits(v)| <= 19
  {
    assert Pow10(3) == 1000 && Pow10(6) == 1_000_000 && Pow10(9) == 1_000_000_000;
    assert Pow10(12) == 1_000_000_000_000 && Pow10(15) == 1_000_000_000_000_000;
    assert Pow10(18) == 1_000_000_000_000_000_000 && Pow10(19) == 10_000_000_000_000_000_000;
    DigitCount(v, 19);
  }

  /** The number of digits, four at a time. */
  method CountDigits(v0: nat) returns (result: nat)
    ensures result == |Digits(v0)|
  {
    var v := v0;
    result := 1;
    while true
      invariant result - 1 + |Digits(v)| == |Digits(v0)|
      decreases v
    {
      FourDigits(v);
      if v < 10 { return result; }
      if v < 100 { return result + 1; }
      if v < 1000 { return result + 2; }
      if v < 10000 { return result + 3; }
      v := v / 10000;
      result := result + 4;
    }
  }

  lemma FourDigits(v: nat)
    ensures v < 10 ==> |Digits(v)| == 1
    ensures 10 <= v < 100 ==> |Digits(v)| == 2
    ensures 100 <= v < 1000 ==> |Digits(v)| == 3
    ensures 1000 <= v < 10000 ==> |Digits(v)| == 4
    ensures v >= 10000 ==> |Digits(v)| == 4 + |Digits(v / 10000)|
  {
    if v >= 10000 {
      assert v / 10 / 10 / 10 / 10 == v / 10000;
      assert |Digits(v / 10 / 10)| == 2 + |Digits(v / 10 / 10 / 10 / 10)|;
    } else if v >= 1000 {
      assert |Digits(v / 10 / 10)| == 2;
    } else if v >= 100 {
      assert |Digits(v / 10)| == 2;
    }
  }
}
