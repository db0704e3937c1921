/**
 The Redis serialization protocol as a recursive grammar: simple strings, errors, integers, doubles,
 nulls, booleans, bulk strings, arrays, maps and sets. Parsing a byte string either needs more
 bytes, fails, or gives a reply and what is left.
 */
module RespGrammar {
  import opened Bytes
  import opened Decimal

  const CR := 13
  const LF := 10
  const MAX_DEPTH := 8

  datatype Kind = Array | Map | Set

  datatype ItemType = TError | TStatus | TInteger | TDouble | TNil | TBool | TBulk | TAggregate(kind: Kind)

  datatype Reply =
    | Error(text: seq<byte>)
    | Status(text: seq<byte>)
    | Integer(v: int)
    | Double(text: seq<byte>)
    | Nil
    | Bool(b: bool)
    | Bulk(text: seq<byte>)
    | Aggregate(kind: Kind, elements: seq<Reply>)

  datatype Fault =
    | BadType(b: byte)
    | BadInteger
    | DoubleTooLarge
    | BadDouble
    | BadBulkLength
    | BulkLengthRange
    | BadCount
    | CountRange
    | TooDeep
    | OutOfMemory

  datatype Parsed<T> = More | Bad(fault: Fault) | Got(value: T, rest: seq<byte>)

  /**
   What the reader is not told by the protocol: which texts the C library takes for a number, the largest
   element array that can be allocated, and where an `unsigned long` wraps, 32 or 64 bits. Counts are kept in
   an `int`.
   */
  datatype Config = Config(isDouble: seq<byte> -> bool, maxElements: nat, ulong: nat)

  predicate ConfigOk(c: Config) { c.maxElements <= INT_MAX && (c.ulong == WORD || c.ulong == WORD * WORD) }

  /** Type bytes: - + : , _ $ * % ~ # */
  function TypeOf(b: byte): (t: Parsed<ItemType>)
    ensures !t.More?
  {
    match b
    case 45 => Got(TError, [])
    case 43 => Got(TStatus, [])
    case 58 => Got(TInteger, [])
    case 44 => Got(TDouble, [])
    case 95 => Got(TNil, [])
    case 36 => Got(TBulk, [])
    case 42 => Got(TAggregate(Array), [])
    case 37 => Got(TAggregate(Map), [])
    case 126 => Got(TAggregate(Set), [])
    case 35 => Got(TBool, [])
    case _ => Bad(BadType(b))
  }

  // ---------- Lines ----------

  predicate CrLfAt(s: seq<byte>, k: int) { 0 <= k && k + 1 < |s| && s[k] == CR && s[k + 1] == LF }

  /** The position of the first line end at or after `from`, or the length when there is none. */
  function LineEnd(s: seq<byte>, from: nat): (k: nat)
    requires from <= |s|
    ensures from <= k <= |s|
    ensures forall j :: from <= j < k ==> !CrLfAt(s, j)
    ensures k < |s| ==> CrLfAt(s, k)
    decreases |s| - from
  {
    if from == |s| || CrLfAt(s, from) then from else LineEnd(s, from + 1)
  }

  /** The first line of `s` without its end. */
  function Line(s: seq<byte>): (r: Parsed<seq<byte>>)
    ensures !r.Bad?
    ensures r.Got? ==> |r.rest| + 2 + |r.value| == |s|
  {
    var k := LineEnd(s, 0);
    if k == |s| then More else Got(s[..k], s[k + 2..])
  }

  // ---------- Items ----------

  /** A reply that fits on one line. */
  ghost function LineReply(c: Config, t: ItemType, text: seq<byte>): (r: Parsed<Reply>)
    requires !t.TBulk? && !t.TAggregate?
    ensures !r.More?
  {
    match t
    case TInteger =>
      (match Parse64(text)
       case Value(v) => Got(Integer(v), [])
       case NotANumber => Bad(BadInteger))
    case TDouble =>
      if |text| >= 326 then Bad(DoubleTooLarge)
      else if c.isDouble(text) then Got(Double(text), []) else Bad(BadDouble)
    case TNil => Got(Nil, [])
    case TBool => Got(Bool(|text| > 0 && (text[0] == 116 || text[0] == 84)), [])
    case TError => Got(Error(text), [])
    case TStatus => Got(Status(text), [])
  }

  /** A bulk string after its type byte: a length line, then that many bytes and a line end. */
  ghost function ParseBulk(s: seq<byte>): (r: Parsed<Reply>)
    ensures r.Got? ==> |r.rest| < |s|
  {
    match Line(s)
    case More => More
    case Got(text, rest) =>
      match Parse64(text)
      case NotANumber => Bad(BadBulkLength)
      case Value(n) =>
        if n < -1 then Bad(BulkLengthRange)
        else if n == -1 then Got(Nil, rest)
        else if n + 2 > |rest| then More
        else Got(Bulk(rest[..n]), rest[n + 2..])
  }

  /** The number of elements announced by an aggregate's count line; a map counts pairs, -1 is null. */
  ghost function Announced(c: Config, kind: Kind, text: seq<byte>): (r: Parsed<int>)
    ensures !r.More? && (r.Got? ==> -1 <= r.value <= c.maxElements)
  {
    match Parse64(text)
    case NotANumber => Bad(BadCount)
    case Value(n) =>
      if n < -1 then Bad(CountRange)
      else if n == -1 then Got(-1, [])
      else
        var count := if kind == Map then n * 2 else n;
        if count > c.maxElements then Bad(OutOfMemory) else Got(count, [])
  }

  /** The rest of an item at depth `d` whose type byte has been read. */
  ghost function ParseBody(c: Config, t: ItemType, s: seq<byte>, d: nat): (r: Parsed<Reply>)
    ensures r.Got? ==> |r.rest| < |s|
    decreases |s|, 0
  {
    match t
    case TBulk => ParseBulk(s)
    case TAggregate(kind) =>
      if d >= MAX_DEPTH then Bad(TooDeep)
      else
        (match Line(s)
         case More => More
         case Got(text, rest) =>
           match Announced(c, kind, text)
           case Bad(f) => Bad(f)
           case Got(n, _) =>
             if n == -1 then Got(Nil, rest)
             else
               match ParseN(c, rest, d + 1, n)
               case More => More
               case Bad(f) => Bad(f)
               case Got(vs, rest') => Got(Aggregate(kind, vs), rest'))
    case _ =>
      match Line(s)
      case More => More
      case Got(text, rest) =>
        match LineReply(c, t, text)
        case Bad(f) => Bad(f)
        case Got(v, _) => Got(v, rest)
  }

  /** One item at depth `d`. */
  ghost function Parse(c: Config, s: seq<byte>, d: nat): (r: Parsed<Reply>)
    ensures r.Got? ==> |r.rest| < |s|
    decreases |s|, 1
  {
    if s == [] then More
    else
      match TypeOf(s[0])
      case Bad(f) => Bad(f)
      case Got(t, _) => ParseBody(c, t, s[1..], d)
  }

  /** `n` items in a row. */
  ghost function ParseN(c: Config, s: seq<byte>, d: nat, n: nat): (r: Parsed<seq<Reply>>)
    ensures r.Got? ==> |r.rest| <= |s| && |r.value| == n
    decreases |s|, 2, n
  {
    if n == 0 then Got([], s)
    else
      match Parse(c, s, d)
      case More => More
      case Bad(f) => Bad(f)
      case Got(v, rest) =>
        match ParseN(c, rest, d, n - 1)
        case More => More
        case Bad(f) => Bad(f)
        case Got(vs, rest') => Got([v] + vs, rest')
  }

  // ---------- Bytes to come never change what has been decided ----------

  /** A decided result with `t` still to come. */
  function Extend<T>(r: Parsed<T>, t: seq<byte>): Parsed<T> {
    if r.Got? then Got(r.value, r.rest + t) else r
  }

  lemma LineStable(s: seq<byte>, t: seq<byte>)
    requires Line(s).Got?
    ensures Line(s + t) == Extend(Line(s), t)
  {
    var k := LineEnd(s, 0);
    assert forall j :: 0 <= j < k ==> (CrLfAt(s, j) <==> CrLfAt(s + t, j));
    assert CrLfAt(s + t, k);
    var m := LineEnd(s + t, 0);
    assert (s + t)[..k] == s[..k] && (s + t)[k + 2..] == s[k + 2..] + t;
  }

  lemma BulkStable(s: seq<byte>, t: seq<byte>)
    requires !ParseBulk(s).More?
    ensures ParseBulk(s + t) == Extend(ParseBulk(s), t)
  {
    LineStable(s, t);
    var rest := Line(s).rest;
    if ParseBulk(s).Got? && Parse64(Line(s).value).v >= 0 {
      var n := Parse64(Line(s).value).v;
      assert (rest + t)[..n] == rest[..n] && (rest + t)[n + 2..] == rest[n + 2..] + t;
    }
  }

  lemma {:induction false} BodyStable(c: Config, ty: ItemType, s: seq<byte>, d: nat, t: seq<byte>)
    requires !ParseBody(c, ty, s, d).More?
    ensures ParseBody(c, ty, s + t, d) == Extend(ParseBody(c, ty, s, d), t)
    decreases |s|, 0
  {
    if ty.TBulk? {
      BulkStable(s, t);
    } else if ty.TAggregate? {
      if d < MAX_DEPTH {
        LineStable(s, t);
        var n := Announced(c, ty.kind, Line(s).value);
        if n.Got? && n.value >= 0 {
          ManyStable(c, Line(s).rest, d + 1, n.value, t);
        }
      }
    } else {
      LineStable(s, t);
    }
  }

  lemma {:induction false} ParseStable(c: Config, s: seq<byte>, d: nat, t: seq<byte>)
    requires !Parse(c, s, d).More?
    ensures Parse(c, s + t, d) == Extend(Parse(c, s, d), t)
    decreases |s|, 1
  {
    assert (s + t)[1..] == s[1..] + t;
    if TypeOf(s[0]).Got? {
      BodyStable(c, TypeOf(s[0]).value, s[1..], d, t);
    }
  }

  lemma {:induction false} ManyStable(c: Config, s: seq<byte>, d: nat, n: nat, t: seq<byte>)
    requires !ParseN(c, s, d, n).More?
    ensures ParseN(c, s + t, d, n) == Extend(ParseN(c, s, d, n), t)
    decreases |s|, 2, n
  {
    hide Parse;
    if n > 0 {
      ParseStable(c, s, d, t);
      if Parse(c, s, d).Got? {
        ManyStable(c, Parse(c, s, d).rest, d, n - 1, t);
      }
    }
  }
}
