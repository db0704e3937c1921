/** Printing a string in quotes, and splitting a line into quoted and bare arguments. */
module SdsQuote {
  import opened Bytes

  const QUOTE: byte := '"' as int
  const APOSTROPHE: byte := '\'' as int
  const BACKSLASH: byte := '\\' as int
  const SPACE: byte := ' ' as int
  const TAB: byte := '\t' as int
  const LF: byte := '\n' as int
  const CR: byte := '\r' as int
  const BELL: byte := 7
  const BACKSPACE: byte := 8
  const NUL: byte := 0

  // ---------- Characters, in the C locale ----------

  predicate IsSpace(c: byte) { c == SPACE || TAB <= c <= CR }

  predicate IsPrint(c: byte) { 32 <= c < 127 }

  predicate IsHexDigit(c: byte) {
    '0' as int <= c <= '9' as int || 'a' as int <= c <= 'f' as int || 'A' as int <= c <= 'F' as int
  }

  function HexValue(c: byte): (v: nat)
    ensures v < 16
  {
    if '0' as int <= c <= '9' as int then c - '0' as int
    else if 'a' as int <= c <= 'f' as int then c - 'a' as int + 10
    else if 'A' as int <= c <= 'F' as int then c - 'A' as int + 10
    else 0
  }

  function HexDigit(v: nat): (c: byte)
    requires v < 16
    ensures IsHexDigit(c) && HexValue(c) == v
  {
    if v < 10 then '0' as int + v else 'a' as int + (v - 10)
  }

  // ---------- Printing ----------

  /** How one byte is printed between quotes. */
  function ReprByte(c: byte): (r: seq<byte>)
    ensures 1 <= |r| <= 4
  {
    if c == BACKSLASH || c == QUOTE then [BACKSLASH, c]
    else if c == LF then [BACKSLASH, 'n' as int]
    else if c == CR then [BACKSLASH, 'r' as int]
    else if c == TAB then [BACKSLASH, 't' as int]
    else if c == BELL then [BACKSLASH, 'a' as int]
    else if c == BACKSPACE then [BACKSLASH, 'b' as int]
    else if IsPrint(c) then [c]
    else [BACKSLASH, 'x' as int, HexDigit(c / 16), HexDigit(c % 16)]
  }

  function Body(s: seq<byte>): seq<byte> {
    if s == [] then [] else Body(s[..|s| - 1]) + ReprByte(s[|s| - 1])
  }

  function Repr(s: seq<byte>): seq<byte> { [QUOTE] + Body(s) + [QUOTE] }

  /** Appends `p` in printed form to a string. */
  method CatRepr(s: seq<byte>, p: seq<byte>) returns (r: seq<byte>)
    ensures r == s + Repr(p)
  {
    hide ReprByte;
    r := s + [QUOTE];
    for i := 0 to |p|
      invariant r == s + ([QUOTE] + Body(p[..i]))
    {
      assert p[..i + 1][..i] == p[..i];
      r := r + ReprByte(p[i]);
    }
    assert p[..|p|] == p;
    r := r + [QUOTE];
  }

  function JoinSds(argv: seq<seq<byte>>, sep: seq<byte>): seq<byte> {
    if argv == [] then []
    else if |argv| == 1 then argv[0]
    else JoinSds(argv[..|argv| - 1], sep) + sep + argv[|argv| - 1]
  }

  method Join(argv: seq<seq<byte>>, sep: seq<byte>) returns (join: seq<byte>)
    ensures join == JoinSds(argv, sep)
  {
    join := [];
    for j := 0 to |argv|
      invariant join == JoinSds(argv[..j], sep) + if 0 < j < |argv| then sep else []
    {
      assert argv[..j + 1][..j] == argv[..j];
      join := join + argv[j];
      if j != |argv| - 1 {
        join := join + sep;
      }
    }
    assert argv[..|argv|] == argv;
  }

  // ---------- Splitting ----------

  /** The byte at a position of a C string; its end reads as NUL. */
  function At(line: seq<byte>, p: nat): byte { if p < |line| then line[p] else NUL }

  /** A token and where the line goes on after it, or unbalanced quotes. */
  datatype Lexed = Token(text: seq<byte>, next: nat) | Unbalanced

  function Prepend(text: seq<byte>, l: Lexed): Lexed {
    if l.Token? then Token(text + l.text, l.next) else l
  }

  predicate HexEscape(line: seq<byte>, p: nat) {
    At(line, p) == BACKSLASH && At(line, p + 1) == 'x' as int && IsHexDigit(At(line, p + 2))
      && IsHexDigit(At(line, p + 3))
  }

  function Unescape(c: byte): byte {
    if c == 'n' as int then LF
    else if c == 'r' as int then CR
    else if c == 't' as int then TAB
    else if c == 'b' as int then BACKSPACE
    else if c == 'a' as int then BELL
    else c
  }

  /** May a closing quote stand before this byte? */
  predicate MayFollow(c: byte) { c == NUL || IsSpace(c) }

  function DoubleQuoted(line: seq<byte>, p: nat): (l: Lexed)
    ensures l.Token? ==> p < l.next <= |line|
    decreases |line| - p
  {
    var c := At(line, p);
    if c == NUL then Unbalanced
    else if HexEscape(line, p) then
      Prepend([HexValue(At(line, p + 2)) * 16 + HexValue(At(line, p + 3))], DoubleQuoted(line, p + 4))
    else if c == BACKSLASH && At(line, p + 1) != NUL then
      Prepend([Unescape(At(line, p + 1))], DoubleQuoted(line, p + 2))
    else if c == QUOTE then (if MayFollow(At(line, p + 1)) then Token([], p + 1) else Unbalanced)
    else Prepend([c], DoubleQuoted(line, p + 1))
  }

  function SingleQuoted(line: seq<byte>, p: nat): (l: Lexed)
    ensures l.Token? ==> p < l.next <= |line|
    decreases |line| - p
  {
    var c := At(line, p);
    if c == NUL then Unbalanced
    else if c == BACKSLASH && At(line, p + 1) == APOSTROPHE then Prepend([APOSTROPHE], SingleQuoted(line, p + 2))
    else if c == APOSTROPHE then (if MayFollow(At(line, p + 1)) then Token([], p + 1) else Unbalanced)
    else Prepend([c], SingleQuoted(line, p + 1))
  }

  predicate EndsBare(c: byte) { c == SPACE || c == LF || c == CR || c == TAB || c == NUL }

  function Bare(line: seq<byte>, p: nat): (l: Lexed)
    ensures l.Token? && p <= |line| ==> p <= l.next <= |line| && (!EndsBare(At(line, p)) ==> p < l.next)
    decreases |line| - p
  {
    var c := At(line, p);
    if EndsBare(c) then Token([], if c == NUL then p else p + 1)
    else if c == QUOTE then DoubleQuoted(line, p + 1)
    else if c == APOSTROPHE then SingleQuoted(line, p + 1)
    else Prepend([c], Bare(line, p + 1))
  }

  function SkipBlanks(line: seq<byte>, p: nat): (q: nat)
    ensures p <= |line| ==> p <= q <= |line|
    ensures !IsSpace(At(line, q))
    decreases |line| - p
  {
    if p < |line| && IsSpace(line[p]) then SkipBlanks(line, p + 1) else p
  }

  datatype Args = Args(argv: seq<seq<byte>>) | Error

  /** The arguments from a position on. */
  function ArgsFrom(line: seq<byte>, p: nat): Args
    requires p <= |line|
    decreases |line| - p
  {
    var q := SkipBlanks(line, p);
    if At(line, q) == NUL then Args([])
    else match Bare(line, q)
      case Unbalanced => Error
      case Token(text, next) =>
        var rest := ArgsFrom(line, next);
        if rest.Error? then Error else Args([text] + rest.argv)
  }

  // ---------- The splitter ----------

  datatype Mode = Plain | InQuotes | InSingleQuotes

  function Lex(mode: Mode, line: seq<byte>, p: nat): Lexed {
    match mode
    case Plain => Bare(line, p)
    case InQuotes => DoubleQuoted(line, p)
    case InSingleQuotes => SingleQuoted(line, p)
  }

  method SplitArgs(line: seq<byte>) returns (r: Args)
    ensures r == ArgsFrom(line, 0)
  {
    hide Bare;
    var p, vector := 0, [];
    while true
      invariant p <= |line| && ArgsFrom(line, 0) == After(vector, ArgsFrom(line, p))
      decreases |line| - p
    {
      ghost var from := p;
      p := Blanks(line, p);
      if At(line, p) == NUL {
        assert vector + [] == vector;
        return Args(vector);
      }
      var token := GetToken(line, p);
      if token.Unbalanced? {
        return Error;
      }
      AfterOne(vector, token.text, ArgsFrom(line, token.next));
      vector := vector + [token.text];
      p := token.next;
    }
  }

  /** Arguments already split off, then the others. */
  function After(vector: seq<seq<byte>>, rest: Args): Args {
    if rest.Error? then Error else Args(vector + rest.argv)
  }

  lemma AfterOne(vector: seq<seq<byte>>, text: seq<byte>, rest: Args)
    ensures After(vector + [text], rest) == After(vector, if rest.Error? then Error else Args([text] + rest.argv))
  {
    if rest.Args? {
      ConcatAssoc(vector, [text], rest.argv);
    }
  }

  method Blanks(line: seq<byte>, start: nat) returns (p: nat)
    requires start <= |line|
    ensures p == SkipBlanks(line, start)
  {
    p := start;
    while At(line, p) != NUL && IsSpace(At(line, p))
      invariant p <= |line| && SkipBlanks(line, start) == SkipBlanks(line, p)
      decreases |line| - p
    {
      p := p + 1;
    }
  }

  /** One token, with the source's two flags. */
  method GetToken(line: seq<byte>, start: nat) returns (l: Lexed)
    requires start <= |line|
    ensures l == Bare(line, start)
  {
    var p: nat := start;
    var inq, insq, done := false, false, false;
    var current: seq<byte> := [];
    PrependNothing(Bare(line, start));
    while !done
      invariant p <= |line| && !(inq && insq)
      invariant !done ==>
                  Bare(line, start)
                  == Prepend(current, Lex(if inq then InQuotes else if insq then InSingleQuotes else Plain, line, p))
      invariant done ==> Bare(line, start) == Token(current, p)
      decreases !done, |line| - p
    {
      var step := if inq then QuotedStep(line, p) else if insq then SingleStep(line, p) else BareStep(line, p);
      match step {
        case Fail =>
          return Unbalanced;
        case Emit(text, next) =>
          PrependTwice(current, text,
                       Lex(if inq then InQuotes else if insq then InSingleQuotes else Plain, line, next));
          current, p := current + text, next;
        case Enter(double) =>
          inq, insq, p := double, !double, p + 1;
        case Done(next) =>
          assert current + [] == current;
          done, p := true, next;
      }
    }
    l := Token(current, p);
  }

  /** What one turn of the tokenizer does. */
  datatype Step = Fail | Emit(text: seq<byte>, next: nat) | Enter(double: bool) | Done(next: nat)

  function QuotedStep(line: seq<byte>, p: nat): (s: Step)
    requires p <= |line|
    ensures match s
            case Fail => DoubleQuoted(line, p) == Unbalanced
            case Emit(text, next) => p < next <= |line|
              && DoubleQuoted(line, p) == Prepend(text, DoubleQuoted(line, next))
            case Enter(_) => false
            case Done(next) => next <= |line| && DoubleQuoted(line, p) == Token([], next)
  {
    var c := At(line, p);
    if HexEscape(line, p) then Emit([HexValue(At(line, p + 2)) * 16 + HexValue(At(line, p + 3))], p + 4)
    else if c == BACKSLASH && At(line, p + 1) != NUL then Emit([Unescape(At(line, p + 1))], p + 2)
    else if c == QUOTE then (if At(line, p + 1) != NUL && !IsSpace(At(line, p + 1)) then Fail else Done(p + 1))
    else if c == NUL then Fail
    else Emit([c], p + 1)
  }

  function SingleStep(line: seq<byte>, p: nat): (s: Step)
    requires p <= |line|
    ensures match s
            case Fail => SingleQuoted(line, p) == Unbalanced
            case Emit(text, next) => p < next <= |line|
              && SingleQuoted(line, p) == Prepend(text, SingleQuoted(line, next))
            case Enter(_) => false
            case Done(next) => next <= |line| && SingleQuoted(line, p) == Token([], next)
  {
    var c := At(line, p);
    if c == BACKSLASH && At(line, p + 1) == APOSTROPHE then Emit([APOSTROPHE], p + 2)
    else if c == APOSTROPHE then (if At(line, p + 1) != NUL && !IsSpace(At(line, p + 1)) then Fail else Done(p + 1))
    else if c == NUL then Fail
    else Emit([c], p + 1)
  }

  function BareStep(line: seq<byte>, p: nat): (s: Step)
    requires p <= |line|
    ensures match s
            case Fail => false
            case Emit(text, next) => p < next <= |line| && Bare(line, p) == Prepend(text, Bare(line, next))
            case Enter(double) =>
              p < |line| && Bare(line, p) == if double then DoubleQuoted(line, p + 1) else SingleQuoted(line, p + 1)
            case Done(next) => next <= |line| && Bare(line, p) == Token([], next)
  {
    var c := At(line, p);
    if EndsBare(c) then Done(if c != NUL then p + 1 else p)
    else if c == QUOTE then Enter(true)
    else if c == APOSTROPHE then Enter(false)
    else Emit([c], p + 1)
  }

  lemma PrependNothing(l: Lexed)
    ensures Prepend([], l) == l
  {
    if l.Token? {
      assert [] + l.text == l.text;
    }
  }

  lemma PrependTwice(a: seq<byte>, b: seq<byte>, l: Lexed)
    ensures Prepend(a, Prepend(b, l)) == Prepend(a + b, l)
  {
    if l.Token? {
      ConcatAssoc(a, b, l.text);
    }
  }

  // ---------- The round trip ----------

  /** At `p` the line reads `s`. */
  ghost predicate Reads(line: seq<byte>, p: nat, s: seq<byte>) {
    p + |s| <= |line| && forall k :: 0 <= k < |s| ==> line[p + k] == s[k]
  }

  /** A printed byte is read back, whatever follows. */
  lemma ReadByte(line: seq<byte>, p: nat, c: byte)
    requires Reads(line, p, ReprByte(c))
    ensures DoubleQuoted(line, p) == Prepend([c], DoubleQuoted(line, p + |ReprByte(c)|))
  {
    var r := ReprByte(c);
    assert At(line, p) == r[0];
    if |r| == 2 {
      assert At(line, p + 1) == r[1];
    } else if |r| == 4 {
      assert At(line, p + 1) == r[1] && At(line, p + 2) == r[2] && At(line, p + 3) == r[3];
      assert HexEscape(line, p);
      assert c / 16 * 16 + c % 16 == c;
    }
  }

  lemma {:induction false} ReadBody(line: seq<byte>, p: nat, s: seq<byte>)
    requires Reads(line, p, Body(s))
    ensures DoubleQuoted(line, p) == Prepend(s, DoubleQuoted(line, p + |Body(s)|))
  {
    hide DoubleQuoted, ReprByte;
    if s == [] {
      PrependNothing(DoubleQuoted(line, p));
    } else {
      var front, c := s[..|s| - 1], s[|s| - 1];
      assert Body(s) == Body(front) + ReprByte(c);
      ReadsPart(line, p, Body(front), ReprByte(c));
      ReadBody(line, p, front);
      ReadByte(line, p + |Body(front)|, c);
      PrependTwice(front, [c], DoubleQuoted(line, p + |Body(s)|));
      assert front + [c] == s;
    }
  }

  /** A printed string is read back as one token if a blank or the end follows. */
  lemma ReadRepr(line: seq<byte>, p: nat, s: seq<byte>)
    requires Reads(line, p, Repr(s)) && MayFollow(At(line, p + |Repr(s)|))
    ensures Bare(line, p) == Token(s, p + |Repr(s)|)
  {
    hide Body, MayFollow;
    assert Repr(s)[0] == QUOTE && Repr(s)[|Repr(s)| - 1] == QUOTE;
    assert At(line, p) == QUOTE && At(line, p + 1 + |Body(s)|) == QUOTE;
    assert forall k :: 0 <= k < |Body(s)| ==> Body(s)[k] == Repr(s)[k + 1];
    ReadBody(line, p + 1, s);
    assert s + [] == s;
  }

  /** The strings printed and joined by single spaces. */
  function ReprAll(argv: seq<seq<byte>>): seq<seq<byte>> {
    seq(|argv|, k requires 0 <= k < |argv| => Repr(argv[k]))
  }

  function Tail(argv: seq<seq<byte>>): seq<byte> {
    if argv == [] then [] else [SPACE] + Repr(argv[0]) + Tail(argv[1..])
  }

  /** Joining from the front gives the same line. */
  lemma {:induction false} JoinFront(argv: seq<seq<byte>>)
    requires argv != []
    ensures JoinSds(ReprAll(argv), [SPACE]) == Repr(argv[0]) + Tail(argv[1..])
  {
    hide Repr;
    var n := |argv| - 1;
    if n > 0 {
      var front, last := argv[..n], argv[n];
      JoinFront(front);
      assert ReprAll(argv)[..n] == ReprAll(front);
      TailLast(front[1..], last);
      assert argv[1..] == front[1..] + [last];
      assert Repr(argv[0]) + Tail(front[1..]) + [SPACE] + Repr(last)
        == Repr(argv[0]) + (Tail(front[1..]) + [SPACE] + Repr(last));
    } else {
      assert argv[1..] == [] && Repr(argv[0]) + [] == Repr(argv[0]);
    }
  }

  lemma {:induction false} TailLast(argv: seq<seq<byte>>, last: seq<byte>)
    ensures Tail(argv + [last]) == Tail(argv) + [SPACE] + Repr(last)
  {
    hide Repr;
    if argv == [] {
      assert [last][1..] == [];
    } else {
      assert (argv + [last])[1..] == argv[1..] + [last];
      TailLast(argv[1..], last);
    }
  }

  /** Reading the rest of a printed line. */
  lemma {:induction false} ReadTail(line: seq<byte>, p: nat, argv: seq<seq<byte>>)
    requires p + |Tail(argv)| == |line| && Reads(line, p, Tail(argv))
    ensures ArgsFrom(line, p) == Args(argv)
    decreases argv
  {
    hide Repr, Bare;
    if argv != [] {
      assert line[p] == Tail(argv)[0] == SPACE;
      ReadsPart(line, p, [SPACE] + Repr(argv[0]), Tail(argv[1..]));
      ReadsPart(line, p, [SPACE], Repr(argv[0]));
      ReadFirst(line, p + 1, argv);
      assert SkipBlanks(line, p) == SkipBlanks(line, p + 1);
    }
  }

  lemma ReadsPart(line: seq<byte>, p: nat, a: seq<byte>, b: seq<byte>)
    requires Reads(line, p, a + b)
    ensures Reads(line, p, a) && Reads(line, p + |a|, b)
  {
    assert forall k :: 0 <= k < |a| ==> (a + b)[k] == a[k];
    assert forall k :: 0 <= k < |b| ==> (a + b)[|a| + k] == b[k];
  }

  /** Reading a printed line from its first quote on. */
  lemma {:induction false} ReadFirst(line: seq<byte>, p: nat, argv: seq<seq<byte>>)
    requires argv != [] && Reads(line, p, Repr(argv[0])) && Reads(line, p + |Repr(argv[0])|, Tail(argv[1..]))
    requires p + |Repr(argv[0])| + |Tail(argv[1..])| == |line|
    ensures ArgsFrom(line, p) == Args(argv)
    decreases argv, 1
  {
    hide Bare, Body;
    var q := p + |Repr(argv[0])|;
    assert line[p] == Repr(argv[0])[0] == QUOTE;
    if argv[1..] != [] {
      assert line[q] == Tail(argv[1..])[0] == SPACE;
    }
    ReadRepr(line, p, argv[0]);
    ReadTail(line, q, argv[1..]);
    assert SkipBlanks(line, p) == p;
    assert [argv[0]] + argv[1..] == argv;
  }

  /** Any list of byte strings, printed, joined by spaces and split again, comes back unchanged. */
  lemma QuoteRoundTrip(argv: seq<seq<byte>>)
    ensures ArgsFrom(JoinSds(ReprAll(argv), [SPACE]), 0) == Args(argv)
  {
    var line := JoinSds(ReprAll(argv), [SPACE]);
    if argv != [] {
      JoinFront(argv);
      ReadsPart(line, 0, Repr(argv[0]), Tail(argv[1..]));
      ReadFirst(line, 0, argv);
    }
  }

  // ---------- All ways to write an argument ----------

  /** Neither a blank, a quote nor NUL: bytes that stand for themselves outside quotes. */
  predicate PlainByte(c: byte) { c !in {0, 9, 10, 11, 12, 13, 32, 34, 39} }

  predicate PlainWord(word: seq<byte>) { word != [] && forall k :: 0 <= k < |word| ==> PlainByte(word[k]) }

  predicate BlankByte(c: byte) { c in {9, 10, 13, 32} }

  /** How single quotes write a byte: `\'` for a single quote, any other as it is. */
  function SingleByte(c: byte): seq<byte> { if c == 39 then [92, 39] else [c] }

  function SingleBody(s: seq<byte>): seq<byte> {
    if s == [] then [] else SingleByte(s[0]) + SingleBody(s[1..])
  }

  /** No NUL, which would end the line, and no backslash last, which would escape the closing quote. */
  predicate Quotable(s: seq<byte>) {
    (forall k :: 0 <= k < |s| ==> s[k] != 0) && (s != [] ==> s[|s| - 1] != 92)
  }

  /** `h` is the hexadecimal digit of this value. */
  predicate Hex(h: byte, v: nat) {
    (v < 10 && h == 48 + v) || (10 <= v < 16 && (h == 87 + v || h == 55 + v))
  }

  /**
   A way to write a byte between double quotes: as it is, as one of \n \r \t \b \a, as two hexadecimal digits
   after \x, or behind a backslash if that does not make it one of these.
   */
  ghost predicate Escapes(w: seq<byte>, c: byte) {
    || (w == [c] && c !in {0, 34, 92})
    || (|w| == 2 && w[0] == 92 && (w[1], c) in {(110, 10), (114, 13), (116, 9), (98, 8), (97, 7)})
    || (|w| == 4 && w[0] == 92 && w[1] == 120 && Hex(w[2], c / 16) && Hex(w[3], c % 16))
    || (w == [92, c] && c !in {0, 110, 114, 116, 98, 97, 120})
  }

  ghost predicate EscapesAll(body: seq<byte>, text: seq<byte>)
    decreases |text|
  {
    if text == [] then body == []
    else exists k :: 0 < k <= |body| && Escapes(body[..k], text[0]) && EscapesAll(body[k..], text[1..])
  }

  /** A way to write an argument: as it is, or between single or double quotes. */
  ghost predicate Spells(w: seq<byte>, text: seq<byte>) {
    || (PlainWord(text) && w == text)
    || (Quotable(text) && w == [39] + SingleBody(text) + [39])
    || (exists body :: w == [34] + body + [34] && EscapesAll(body, text))
  }

  /**
   A printed byte is written in one of these ways: with a letter or a backslash if it has such a form, in lower-case
   digits if it cannot be printed, and otherwise as it is.
   */
  lemma ReprEscapes(c: byte)
    ensures Escapes(ReprByte(c), c)
    ensures |ReprByte(c)| == if c in {7, 8, 9, 10, 13, 34, 92} then 2 else if 32 <= c <= 126 then 1 else 4
    ensures forall k :: 0 <= k < |ReprByte(c)| && |ReprByte(c)| == 4 ==> !(65 <= ReprByte(c)[k] <= 70)
  {
  }

  lemma {:induction false} EscapesOneMore(body: seq<byte>, text: seq<byte>, w: seq<byte>, c: byte)
    requires EscapesAll(body, text) && Escapes(w, c)
    ensures EscapesAll(body + w, text + [c])
    decreases |text|
  {
    hide Escapes;
    if text == [] {
      assert body + w == w && w[..|w|] == w && w[|w|..] == [] && [c][1..] == [];
      assert EscapesAll([], []);
      EscapeLength(w, c);
    } else {
      var k :| 0 < k <= |body| && Escapes(body[..k], text[0]) && EscapesAll(body[k..], text[1..]);
      EscapesOneMore(body[k..], text[1..], w, c);
      assert (body + w)[..k] == body[..k] && (body + w)[k..] == body[k..] + w;
      assert (text + [c])[1..] == text[1..] + [c];
    }
  }

  lemma EscapeLength(w: seq<byte>, c: byte)
    requires Escapes(w, c)
    ensures w != []
  {
  }

  lemma {:induction false} BodyEscapes(text: seq<byte>)
    ensures EscapesAll(Body(text), text)
  {
    hide ReprByte, Escapes;
    if text != [] {
      var front, c := text[..|text| - 1], text[|text| - 1];
      BodyEscapes(front);
      ReprEscapes(c);
      EscapesOneMore(Body(front), front, ReprByte(c), c);
      assert front + [c] == text;
    }
  }

  /** The printed form is one way to write a string. */
  lemma ReprSpells(text: seq<byte>)
    ensures Spells(Repr(text), text)
  {
    BodyEscapes(text);
  }

  lemma ReadEscape(line: seq<byte>, p: nat, w: seq<byte>, c: byte)
    requires Reads(line, p, w) && Escapes(w, c)
    ensures DoubleQuoted(line, p) == Prepend([c], DoubleQuoted(line, p + |w|))
  {
    assert At(line, p) == w[0];
    if |w| == 2 {
      assert At(line, p + 1) == w[1];
    } else if |w| == 4 {
      assert At(line, p + 1) == w[1] && At(line, p + 2) == w[2] && At(line, p + 3) == w[3];
      assert c / 16 * 16 + c % 16 == c;
    }
  }

  lemma {:induction false} ReadEscapes(line: seq<byte>, p: nat, body: seq<byte>, text: seq<byte>)
    requires Reads(line, p, body) && EscapesAll(body, text)
    ensures DoubleQuoted(line, p) == Prepend(text, DoubleQuoted(line, p + |body|))
    decreases |text|
  {
    hide DoubleQuoted, Escapes;
    if text == [] {
      PrependNothing(DoubleQuoted(line, p));
    } else {
      var k :| 0 < k <= |body| && Escapes(body[..k], text[0]) && EscapesAll(body[k..], text[1..]);
      assert body == body[..k] + body[k..];
      ReadsPart(line, p, body[..k], body[k..]);
      ReadEscape(line, p, body[..k], text[0]);
      ReadEscapes(line, p + k, body[k..], text[1..]);
      PrependTwice([text[0]], text[1..], DoubleQuoted(line, p + |body|));
      assert [text[0]] + text[1..] == text;
    }
  }

  lemma {:induction false} ReadPlain(line: seq<byte>, p: nat, word: seq<byte>)
    requires Reads(line, p, word) && (forall k :: 0 <= k < |word| ==> PlainByte(word[k]))
    ensures Bare(line, p) == Prepend(word, Bare(line, p + |word|))
    decreases |word|
  {
    if word == [] {
      PrependNothing(Bare(line, p));
    } else {
      assert word == [word[0]] + word[1..] && line[p] == word[0];
      ReadsPart(line, p, [word[0]], word[1..]);
      ReadPlain(line, p + 1, word[1..]);
      PrependTwice([word[0]], word[1..], Bare(line, p + |word|));
    }
  }

  lemma ReadSingleByte(line: seq<byte>, p: nat, c: byte)
    requires Reads(line, p, SingleByte(c)) && c != 0 && (c == 92 ==> At(line, p + 1) != 39)
    ensures SingleQuoted(line, p) == Prepend([c], SingleQuoted(line, p + |SingleByte(c)|))
  {
    assert At(line, p) == SingleByte(c)[0];
    if c == 39 {
      assert At(line, p + 1) == SingleByte(c)[1];
    }
  }

  lemma {:induction false} ReadSingle(line: seq<byte>, p: nat, s: seq<byte>)
    requires Reads(line, p, SingleBody(s)) && Quotable(s)
    ensures SingleQuoted(line, p) == Prepend(s, SingleQuoted(line, p + |SingleBody(s)|))
    decreases |s|
  {
    hide SingleQuoted;
    if s == [] {
      PrependNothing(SingleQuoted(line, p));
    } else {
      var c, rest := s[0], s[1..];
      ReadsPart(line, p, SingleByte(c), SingleBody(rest));
      var q := p + |SingleByte(c)|;
      if c == 92 {
        assert At(line, q) == SingleBody(rest)[0] == SingleByte(rest[0])[0] != 39;
      }
      ReadSingleByte(line, p, c);
      ReadSingle(line, q, rest);
      PrependTwice([c], rest, SingleQuoted(line, q + |SingleBody(rest)|));
      assert [c] + rest == s;
    }
  }

  /** However an argument is written, it is read back if a blank or the end of the line follows. */
  lemma ReadSpelling(line: seq<byte>, p: nat, w: seq<byte>, text: seq<byte>)
    requires Reads(line, p, w) && Spells(w, text) && (p + |w| == |line| || BlankByte(line[p + |w|]))
    ensures Bare(line, p).Token? && Bare(line, p).text == text
    ensures Bare(line, p).next == p + |w|
            || (Bare(line, p).next == p + |w| + 1 <= |line| && PlainWord(text) && w == text)
  {
    if PlainWord(text) && w == text {
      ReadBare(line, p, text);
    } else if Quotable(text) && w == [39] + SingleBody(text) + [39] {
      ReadSingleQuotes(line, p, text);
    } else {
      var body :| w == [34] + body + [34] && EscapesAll(body, text);
      ReadDoubleQuotes(line, p, body, text);
    }
  }

  lemma ReadBare(line: seq<byte>, p: nat, word: seq<byte>)
    requires Reads(line, p, word) && PlainWord(word) && (p + |word| == |line| || BlankByte(line[p + |word|]))
    ensures Bare(line, p) == Token(word, if p + |word| == |line| then p + |word| else p + |word| + 1)
  {
    ReadPlain(line, p, word);
    assert word + [] == word;
  }

  lemma ReadSingleQuotes(line: seq<byte>, p: nat, text: seq<byte>)
    requires Quotable(text) && Reads(line, p, [39] + SingleBody(text) + [39])
    requires var q := p + |SingleBody(text)| + 2; q == |line| || BlankByte(line[q])
    ensures Bare(line, p) == Token(text, p + |SingleBody(text)| + 2)
  {
    hide SingleBody;
    var w := [39] + SingleBody(text) + [39];
    assert w[0] == line[p] == 39 && w[|w| - 1] == line[p + |w| - 1] == 39;
    assert w == [39] + (SingleBody(text) + [39]);
    ReadsPart(line, p, [39], SingleBody(text) + [39]);
    ReadsPart(line, p + 1, SingleBody(text), [39]);
    ReadSingle(line, p + 1, text);
    assert text + [] == text;
  }

  lemma ReadDoubleQuotes(line: seq<byte>, p: nat, body: seq<byte>, text: seq<byte>)
    requires EscapesAll(body, text) && Reads(line, p, [34] + body + [34])
    requires var q := p + |body| + 2; q == |line| || BlankByte(line[q])
    ensures Bare(line, p) == Token(text, p + |body| + 2)
  {
    hide EscapesAll;
    var w := [34] + body + [34];
    assert w[0] == line[p] == 34 && w[|w| - 1] == line[p + |w| - 1] == 34;
    assert w == [34] + (body + [34]);
    ReadsPart(line, p, [34], body + [34]);
    ReadsPart(line, p + 1, body, [34]);
    ReadEscapes(line, p + 1, body, text);
    assert text + [] == text;
  }

  /** The line ends before the closing quote, or goes on right behind it. */
  predicate Unclosed(line: seq<byte>, q: nat, quote: byte) {
    q == |line| || (q + 1 < |line| && line[q] == quote && line[q + 1] !in {0, 9, 10, 11, 12, 13, 32})
  }

  /** Quotes that are not closed, or closed before anything but a blank, are an error. */
  lemma OpenDouble(line: seq<byte>, p: nat, body: seq<byte>, text: seq<byte>)
    requires EscapesAll(body, text) && Reads(line, p, [34] + body) && Unclosed(line, p + 1 + |body|, 34)
    ensures ArgsFrom(line, p) == Error
  {
    hide EscapesAll;
    ReadsPart(line, p, [34], body);
    ReadEscapes(line, p + 1, body, text);
    assert line[p + 0] == [34][0];
    assert SkipBlanks(line, p) == p && Bare(line, p) == Unbalanced;
  }

  /** The same for single quotes. */
  lemma OpenSingle(line: seq<byte>, p: nat, text: seq<byte>)
    requires Quotable(text) && Reads(line, p, [39] + SingleBody(text)) && Unclosed(line, p + 1 + |SingleBody(text)|, 39)
    ensures ArgsFrom(line, p) == Error
  {
    var body := SingleBody(text);
    ReadsPart(line, p, [39], body);
    assert line[p + 0] == [39][0];
    ReadSingle(line, p + 1, text);
    assert SkipBlanks(line, p) == p && Bare(line, p) == Unbalanced;
  }

  ghost predicate Blank(g: seq<byte>) { forall k :: 0 <= k < |g| ==> BlankByte(g[k]) }

  /** Each of these is a way to write the argument of the same number. */
  ghost predicate AllSpell(ws: seq<seq<byte>>, argv: seq<seq<byte>>) {
    |ws| == |argv| && forall k :: 0 <= k < |ws| ==> Spells(ws[k], argv[k])
  }

  /** Blanks stand before each word, at least one before each but the first. */
  ghost predicate Apart(ws: seq<seq<byte>>, gaps: seq<seq<byte>>) {
    |gaps| == |ws| && forall k :: 0 <= k < |gaps| ==> Blank(gaps[k]) && (k > 0 ==> gaps[k] != [])
  }

  function Laid(ws: seq<seq<byte>>, gaps: seq<seq<byte>>): seq<byte>
    requires |gaps| == |ws|
  {
    if ws == [] then [] else gaps[0] + (ws[0] + Laid(ws[1..], gaps[1..]))
  }

  lemma {:induction false} SkipGap(line: seq<byte>, p: nat, g: seq<byte>)
    requires Reads(line, p, g) && Blank(g)
    ensures ArgsFrom(line, p) == ArgsFrom(line, p + |g|)
    decreases |g|
  {
    hide Bare;
    if g != [] {
      assert g == [g[0]] + g[1..] && line[p] == g[0];
      ReadsPart(line, p, [g[0]], g[1..]);
      SkipGap(line, p + 1, g[1..]);
      assert SkipBlanks(line, p) == SkipBlanks(line, p + 1);
    }
  }

  /** Reading the words from a position on. */
  lemma {:induction false} ReadWords(line: seq<byte>, p: nat, ws: seq<seq<byte>>, gaps: seq<seq<byte>>,
                                     tail: seq<byte>, argv: seq<seq<byte>>)
    requires AllSpell(ws, argv) && Apart(ws, gaps) && Blank(tail)
    requires Reads(line, p, Laid(ws, gaps) + tail) && p + |Laid(ws, gaps)| + |tail| == |line|
    ensures ArgsFrom(line, p) == Args(argv)
    decreases |ws|
  {
    hide Bare, Spells;
    if ws == [] {
      assert [] + tail == tail;
      SkipGap(line, p, tail);
    } else {
      var rest := Laid(ws[1..], gaps[1..]);
      assert Laid(ws, gaps) + tail == gaps[0] + (ws[0] + (rest + tail));
      ReadsPart(line, p, gaps[0], ws[0] + (rest + tail));
      SkipGap(line, p, gaps[0]);
      var q := p + |gaps[0]|;
      ReadsPart(line, q, ws[0], rest + tail);
      NextBlank(line, q + |ws[0]|, ws[1..], gaps[1..], tail);
      ReadWords(line, q + |ws[0]|, ws[1..], gaps[1..], tail, argv[1..]);
      ReadWord(line, q, ws[0], argv[0]);
      assert [argv[0]] + argv[1..] == argv;
    }
  }

  /** Behind a word comes a blank, or the end of the line. */
  lemma NextBlank(line: seq<byte>, p: nat, ws: seq<seq<byte>>, gaps: seq<seq<byte>>, tail: seq<byte>)
    requires |gaps| == |ws| && (forall k :: 0 <= k < |gaps| ==> Blank(gaps[k]) && gaps[k] != []) && Blank(tail)
    requires Reads(line, p, Laid(ws, gaps) + tail) && p + |Laid(ws, gaps)| + |tail| == |line|
    ensures p == |line| || BlankByte(line[p])
  {
    var s := Laid(ws, gaps) + tail;
    if p < |line| {
      assert line[p + 0] == s[0];
      if ws != [] {
        assert s[0] == gaps[0][0];
      } else {
        assert s == tail;
      }
    }
  }

  /** Reading one word and going on behind it. */
  lemma ReadWord(line: seq<byte>, p: nat, w: seq<byte>, text: seq<byte>)
    requires Reads(line, p, w) && Spells(w, text) && (p + |w| == |line| || BlankByte(line[p + |w|]))
    ensures var rest := ArgsFrom(line, p + |w|);
            ArgsFrom(line, p) == if rest.Error? then Error else Args([text] + rest.argv)
  {
    hide Bare;
    var q := p + |w|;
    ReadSpelling(line, p, w, text);
    WordStarts(w, text);
    assert line[p] == w[0];
    assert SkipBlanks(line, p) == p;
    if q < |line| {
      assert Reads(line, q, [line[q]]);
      SkipGap(line, q, [line[q]]);
    }
  }

  lemma WordStarts(w: seq<byte>, text: seq<byte>)
    requires Spells(w, text)
    ensures w != [] && w[0] != NUL && !IsSpace(w[0])
  {
    hide EscapesAll, SingleBody;
  }

  /** Words written in any of these ways, with blanks between, split into the arguments they stand for. */
  lemma SpelledSplit(ws: seq<seq<byte>>, gaps: seq<seq<byte>>, tail: seq<byte>, argv: seq<seq<byte>>)
    requires AllSpell(ws, argv) && Apart(ws, gaps) && Blank(tail)
    ensures ArgsFrom(Laid(ws, gaps) + tail, 0) == Args(argv)
  {
    ReadWords(Laid(ws, gaps) + tail, 0, ws, gaps, tail, argv);
  }
}
