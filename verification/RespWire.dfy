/**
 How replies of every kind look on the wire, written out byte by byte, and that the grammar reads back exactly
 what can be written.
 */
module RespWire {
  import opened Bytes
  import opened Decimal
  import opened RespGrammar
  import opened RespStream

  /** No line end within. */
  predicate PlainLine(text: seq<byte>) { forall k :: 0 <= k < |text| - 1 ==> !(text[k] == 13 && text[k + 1] == 10) }

  /** A type byte, the text, and a line end. */
  predicate OneLine(b: byte, text: seq<byte>, u: seq<byte>) { PlainLine(text) && u == [b] + text + [13, 10] }

  /** A null spelled as a bulk string `$` or, where an aggregate may stand, as `*`, `%` or `~`. */
  predicate NullType(b: byte, d: nat) { b == 36 || (d < 8 && b in {42, 37, 126}) }

  /** A `#` line is true when it starts with `t` or `T`. */
  predicate Truth(text: seq<byte>) { text != [] && (text[0] == 116 || text[0] == 84) }

  /** `*`, `%` or `~`, the count (of pairs in a map), a line end and the elements. */
  ghost predicate WritesElements(kind: Kind, n: nat, w: seq<byte>, u: seq<byte>, count: nat) {
    && n <= LLONG_MAX && count == (if kind == Map then 2 * n else n)
    && u == [if kind == Array then 42 else if kind == Map then 37 else 126] + Show(n) + [13, 10] + w
  }

  /** The bytes `u` are a way to write the reply at depth `d`. */
  ghost predicate Writes(c: Config, u: seq<byte>, v: Reply, d: nat)
    decreases |u|, 0
  {
    match v
    case Error(text) => OneLine(45, text, u)
    case Status(text) => OneLine(43, text, u)
    case Integer(i) => InInt64(i) && OneLine(58, Show(i), u)
    case Double(text) => |text| < 326 && c.isDouble(text) && OneLine(44, text, u)
    case Nil => (exists text :: OneLine(95, text, u)) || (exists b :: NullType(b, d) && OneLine(b, [45, 49], u))
    case Bool(b) => exists text :: OneLine(35, text, u) && b == Truth(text)
    case Bulk(text) =>
      |text| <= LLONG_MAX && |u| >= 2 && u[..|u| - 2] == [36] + Show(|text|) + [13, 10] + text
    case Aggregate(kind, es) =>
      && d < 8 && |es| <= c.maxElements
      && exists n, w: seq<byte> :: |w| < |u| && WritesElements(kind, n, w, u, |es|) && WritesAll(c, w, es, d + 1)
  }

  /** One after the other. */
  ghost predicate WritesAll(c: Config, w: seq<byte>, es: seq<Reply>, d: nat)
    decreases |w|, 1
  {
    if es == [] then w == []
    else exists k :: 0 < k <= |w| && Writes(c, w[..k], es[0], d) && WritesAll(c, w[k..], es[1..], d)
  }

  // ---------- Lines ----------

  lemma LineOf(text: seq<byte>, t: seq<byte>)
    requires PlainLine(text)
    ensures Line(text + [13, 10] + t) == Got(text, t)
  {
    var s, k := text + [13, 10] + t, |text|;
    assert CrLfAt(s, k);
    forall j | 0 <= j < k
      ensures !CrLfAt(s, j)
    {
      assert s[j] == text[j];
    }
    var m := LineEnd(s, 0);
    assert s[..k] == text && s[k + 2..] == t;
  }

  lemma LineBack(s: seq<byte>)
    requires Line(s).Got?
    ensures PlainLine(Line(s).value) && s == Line(s).value + [13, 10] + Line(s).rest
  {
    var k := LineEnd(s, 0);
    forall j: nat | j + 1 < k
      ensures !(s[j] == 13 && s[j + 1] == 10)
    {
      assert !CrLfAt(s, j);
    }
    assert CrLfAt(s, k);
  }

  /** The line behind a type byte, taken off. */
  lemma LineTaken(s: seq<byte>)
    requires s != [] && Line(s[1..]).Got?
    ensures var text, rest := Line(s[1..]).value, Line(s[1..]).rest;
            var u := s[..|s| - |rest|];
            s == u + rest && OneLine(s[0], text, u)
  {
    hide Line, PlainLine;
    LineBack(s[1..]);
    var text, rest := Line(s[1..]).value, Line(s[1..]).rest;
    assert s == [s[0]] + s[1..];
    assert s == ([s[0]] + text + [13, 10]) + rest;
  }

  lemma PlainNumeral(v: int)
    ensures PlainLine(Show(v))
  {
    ShowShape(v);
  }

  lemma ShowMinusOne()
    ensures Show(-1) == [45, 49] && InInt64(-1)
  {
    assert Digits(1) == [49];
  }

  /** A line behind its type byte. */
  lemma LineRead(b: byte, text: seq<byte>, u: seq<byte>, t: seq<byte>)
    requires OneLine(b, text, u)
    ensures u + t != [] && (u + t)[0] == b && Line((u + t)[1..]) == Got(text, t)
  {
    assert (u + t)[1..] == text + [13, 10] + t;
    LineOf(text, t);
  }

  // ---------- What is written is read back ----------

  /** Whatever way a reply is written, it is read back, and what follows is left. */
  lemma {:induction false} ParseWritten(c: Config, u: seq<byte>, v: Reply, d: nat, t: seq<byte>)
    requires Writes(c, u, v, d)
    ensures Parse(c, u + t, d) == Got(v, t)
    decreases |u|, 0
  {
    hide Parse, OneLine, WritesElements;
    match v
    case Nil => NilWritten(c, u, d, t);
    case Bulk(text) => BulkWritten(c, u, text, d, t);
    case Aggregate(kind, es) =>
      var n, w: seq<byte> :| |w| < |u| && WritesElements(kind, n, w, u, |es|) && WritesAll(c, w, es, d + 1);
      AllWritten(c, w, es, d + 1, t);
      AggregateWritten(c, u, kind, n, w, es, d, t);
    case _ => LineWritten(c, u, v, d, t);
  }

  /** The kinds that take one line. */
  lemma LineWritten(c: Config, u: seq<byte>, v: Reply, d: nat, t: seq<byte>)
    requires Writes(c, u, v, d) && !v.Nil? && !v.Bulk? && !v.Aggregate?
    ensures Parse(c, u + t, d) == Got(v, t)
  {
    hide Line, Show, ParseN, OneLine, Parse64;
    match v
    case Error(text) => LineRead(45, text, u, t);
    case Status(text) => LineRead(43, text, u, t);
    case Integer(i) =>
      LineRead(58, Show(i), u, t);
      ParseShow(i);
    case Double(text) => LineRead(44, text, u, t);
    case Bool(b) =>
      var text :| OneLine(35, text, u) && b == Truth(text);
      LineRead(35, text, u, t);
  }

  lemma NilWritten(c: Config, u: seq<byte>, d: nat, t: seq<byte>)
    requires Writes(c, u, Nil, d)
    ensures Parse(c, u + t, d) == Got(Nil, t)
  {
    hide Line, Show, ParseN, OneLine, Parse64;
    if text :| OneLine(95, text, u) {
      LineRead(95, text, u, t);
    } else {
      var b :| NullType(b, d) && OneLine(b, [45, 49], u);
      LineRead(b, [45, 49], u, t);
      ShowMinusOne();
      ParseShow(-1);
    }
  }

  lemma BulkWritten(c: Config, u: seq<byte>, text: seq<byte>, d: nat, t: seq<byte>)
    requires Writes(c, u, Bulk(text), d)
    ensures Parse(c, u + t, d) == Got(Bulk(text), t)
  {
    hide Line, Show, ParseN, Parse64, PlainLine;
    var n, end := |text|, u[|u| - 2..];
    var body := text + end + t;
    assert u == [36] + Show(n) + [13, 10] + text + end;
    assert (u + t)[1..] == Show(n) + [13, 10] + body;
    PlainNumeral(n);
    LineOf(Show(n), body);
    ParseShow(n);
    assert body[..n] == text && body[n + 2..] == t;
  }

  lemma AggregateWritten(c: Config, u: seq<byte>, kind: Kind, n: nat, w: seq<byte>, es: seq<Reply>, d: nat,
                         t: seq<byte>)
    requires WritesElements(kind, n, w, u, |es|) && d < 8 && |es| <= c.maxElements
    requires ParseN(c, w + t, d + 1, |es|) == Got(es, t)
    ensures Parse(c, u + t, d) == Got(Aggregate(kind, es), t)
  {
    hide ParseN, Line, Show, Parse64;
    var s := u + t;
    assert s[1..] == Show(n) + [13, 10] + (w + t);
    PlainNumeral(n);
    LineOf(Show(n), w + t);
    ParseShow(n);
    assert TypeOf(s[0]) == Got(TAggregate(kind), []);
    assert ParseBody(c, TAggregate(kind), s[1..], d) == Got(Aggregate(kind, es), t);
  }

  lemma {:induction false} AllWritten(c: Config, w: seq<byte>, es: seq<Reply>, d: nat, t: seq<byte>)
    requires WritesAll(c, w, es, d)
    ensures ParseN(c, w + t, d, |es|) == Got(es, t)
    decreases |w|, 1
  {
    hide Writes, Parse;
    if es == [] {
      assert w + t == t;
    } else {
      var k :| 0 < k <= |w| && Writes(c, w[..k], es[0], d) && WritesAll(c, w[k..], es[1..], d);
      assert w + t == w[..k] + (w[k..] + t);
      ParseWritten(c, w[..k], es[0], d, w[k..] + t);
      AllWritten(c, w[k..], es[1..], d, t);
      assert [es[0]] + es[1..] == es;
    }
  }

  // ---------- What is read was written ----------

  /** Whatever is read as a reply is a way to write that reply, followed by what is left. */
  lemma {:induction false} WrittenParsed(c: Config, s: seq<byte>, d: nat) returns (u: seq<byte>)
    requires Parse(c, s, d).Got?
    ensures s == u + Parse(c, s, d).rest && Writes(c, u, Parse(c, s, d).value, d)
    decreases |s|, 1
  {
    var t := TypeOf(s[0]).value;
    u := s[..|s| - |Parse(c, s, d).rest|];
    if t.TBulk? {
      BulkParsed(c, s, d);
    } else if t.TAggregate? {
      LineBack(s[1..]);
      var text, rest := Line(s[1..]).value, Line(s[1..]).rest;
      if Announced(c, t.kind, text).value == -1 {
        NullParsed(c, s, d);
      } else {
        var n := Announced(c, t.kind, text).value;
        var w := AllParsed(c, rest, d + 1, n);
        AggregateParsed(c, s, d, w);
      }
    } else {
      LineParsed(c, s, d);
    }
  }

  lemma LineParsed(c: Config, s: seq<byte>, d: nat)
    requires Parse(c, s, d).Got? && !TypeOf(s[0]).value.TBulk? && !TypeOf(s[0]).value.TAggregate?
    ensures var r := Parse(c, s, d); var u := s[..|s| - |r.rest|]; s == u + r.rest && Writes(c, u, r.value, d)
  {
    hide Line, Show, ParseN, OneLine;
    LineTaken(s);
  }

  lemma NullParsed(c: Config, s: seq<byte>, d: nat)
    requires s != [] && Line(s[1..]).Got? && Parse64(Line(s[1..]).value) == Value(-1) && NullType(s[0], d)
    ensures var r := Line(s[1..]).rest; var u := s[..|s| - |r|]; s == u + r && Writes(c, u, Nil, d)
  {
    hide Line, Show, OneLine;
    LineTaken(s);
    ShowMinusOne();
  }

  lemma BulkParsed(c: Config, s: seq<byte>, d: nat)
    requires Parse(c, s, d).Got? && TypeOf(s[0]).value.TBulk?
    ensures var r := Parse(c, s, d); var u := s[..|s| - |r.rest|]; s == u + r.rest && Writes(c, u, r.value, d)
  {
    hide Line, Show, Writes;
    var text, rest := Line(s[1..]).value, Line(s[1..]).rest;
    if Parse64(text).v == -1 {
      NullParsed(c, s, d);
    } else {
      LineTaken(s);
      BulkTaken(c, s, text, rest, d);
    }
  }

  /** A bulk string's bytes behind its length line, taken off. */
  lemma BulkTaken(c: Config, s: seq<byte>, text: seq<byte>, rest: seq<byte>, d: nat)
    requires |rest| <= |s| && s == s[..|s| - |rest|] + rest && OneLine(36, text, s[..|s| - |rest|])
    requires Parse64(text).Value? && 0 <= Parse64(text).v && Parse64(text).v + 2 <= |rest|
    ensures var n := Parse64(text).v;
            var u := s[..|s| - |rest[n + 2..]|];
            s == u + rest[n + 2..] && Writes(c, u, Bulk(rest[..n]), d)
  {
    hide Show, PlainLine;
    var n := Parse64(text).v;
    var u := s[..|s| - |rest[n + 2..]|];
    assert u[..|u| - 2] == s[..|s| - |rest|] + rest[..n];
  }

  lemma AggregateParsed(c: Config, s: seq<byte>, d: nat, w: seq<byte>)
    requires Parse(c, s, d).Got? && Parse(c, s, d).value.Aggregate? && TypeOf(s[0]).value.TAggregate?
    requires Line(s[1..]).Got? && Line(s[1..]).rest == w + Parse(c, s, d).rest
    requires WritesAll(c, w, Parse(c, s, d).value.elements, d + 1)
    ensures var r := Parse(c, s, d); var u := s[..|s| - |r.rest|]; s == u + r.rest && Writes(c, u, r.value, d)
  {
    hide WritesAll;
    LineBack(s[1..]);
    var text, r := Line(s[1..]).value, Parse(c, s, d);
    var u, n := s[..|s| - |r.rest|], Parse64(text).v;
    assert u == [s[0]] + Show(n) + [13, 10] + w;
    assert WritesElements(r.value.kind, n, w, u, |r.value.elements|);
  }

  lemma {:induction false} AllParsed(c: Config, s: seq<byte>, d: nat, n: nat) returns (w: seq<byte>)
    requires ParseN(c, s, d, n).Got?
    ensures s == w + ParseN(c, s, d, n).rest && WritesAll(c, w, ParseN(c, s, d, n).value, d)
    decreases |s|, 2, n
  {
    hide Writes, Parse;
    if n == 0 {
      w := [];
    } else {
      var first := Parse(c, s, d);
      var u := WrittenParsed(c, s, d);
      var rest := AllParsed(c, first.rest, d, n - 1);
      w := u + rest;
      var es := ParseN(c, s, d, n).value;
      assert w[..|u|] == u && w[|u|..] == rest && es[1..] == ParseN(c, first.rest, d, n - 1).value;
      assert |u| > 0;
    }
  }

  /** A reply is read exactly from the bytes that are a way to write it. */
  lemma ParseExact(c: Config, s: seq<byte>, v: Reply, t: seq<byte>, d: nat)
    ensures Parse(c, s, d) == Got(v, t) <==> exists u :: s == u + t && Writes(c, u, v, d)
  {
    hide Parse, Writes;
    if Parse(c, s, d) == Got(v, t) {
      var u := WrittenParsed(c, s, d);
    }
    if u :| s == u + t && Writes(c, u, v, d) {
      ParseWritten(c, u, v, d, t);
    }
  }

  // ---------- What is refused ----------

  predicate LineType(b: byte) { b in {45, 43, 58, 44, 95, 35} }
  predicate AggregateType(b: byte) { b in {42, 37, 126} }

  /** No 64-bit number is written like this. */
  ghost predicate NoNumber(text: seq<byte>) { forall v :: InInt64(v) ==> text != Show(v) }

  /** An unknown type byte is refused at once, an aggregate that is nested too deep before its count is read. */
  lemma RefusedByte(c: Config, s: seq<byte>, d: nat)
    requires s != []
    ensures !LineType(s[0]) && !AggregateType(s[0]) && s[0] != 36 ==> Parse(c, s, d) == Bad(BadType(s[0]))
    ensures AggregateType(s[0]) && d >= 8 ==> Parse(c, s, d) == Bad(TooDeep)
  {
  }

  /** What is refused once its first line is there, and how. */
  lemma RefusedLine(c: Config, b: byte, text: seq<byte>, u: seq<byte>, t: seq<byte>, d: nat)
    requires OneLine(b, text, u)
    ensures var r := Parse(c, u + t, d);
            && (b == 58 && NoNumber(text) ==> r == Bad(BadInteger))
            && (b == 44 && |text| >= 326 ==> r == Bad(DoubleTooLarge))
            && (b == 44 && |text| < 326 && !c.isDouble(text) ==> r == Bad(BadDouble))
            && (b == 36 && NoNumber(text) ==> r == Bad(BadBulkLength))
            && (AggregateType(b) && d < 8 && NoNumber(text) ==> r == Bad(BadCount))
  {
    LineRead(b, text, u, t);
    if !NoNumber(text) {
      var v :| InInt64(v) && text == Show(v);
      ParseShow(v);
    }
  }

  /** The same where the line holds a number that is out of range. */
  lemma RefusedNumber(c: Config, b: byte, n: int, u: seq<byte>, t: seq<byte>, d: nat)
    requires InInt64(n) && OneLine(b, Show(n), u)
    ensures var r := Parse(c, u + t, d);
            && (b == 36 && n < -1 ==> r == Bad(BulkLengthRange))
            && (AggregateType(b) && d < 8 && n < -1 ==> r == Bad(CountRange))
            && (AggregateType(b) && d < 8 && n >= 0 && (if b == 37 then 2 * n else n) > c.maxElements
                ==> r == Bad(OutOfMemory))
  {
    LineRead(b, Show(n), u, t);
    ParseShow(n);
  }

  // ---------- Streams ----------

  /** Each of these byte strings is a way to write the reply of the same number. */
  ghost predicate Writings(c: Config, us: seq<seq<byte>>, vs: seq<Reply>) {
    |us| == |vs| && forall k :: 0 <= k < |us| ==> Writes(c, us[k], vs[k], 0)
  }

  function Joined(us: seq<seq<byte>>): seq<byte> { if us == [] then [] else us[0] + Joined(us[1..]) }

  /** Replies of any kind sent back to back come out one for one, in order. */
  lemma {:induction false} StreamOfReplies(c: Config, us: seq<seq<byte>>, vs: seq<Reply>)
    requires Writings(c, us, vs)
    ensures Stream(c, Joined(us)) == (vs, Healthy)
  {
    hide Writes, Parse;
    if us == [] {
      assert Parse(c, [], 0) == More by {
        NothingYet(c);
      }
    } else {
      ParseWritten(c, us[0], vs[0], 0, Joined(us[1..]));
      StreamOfReplies(c, us[1..], vs[1..]);
      assert [vs[0]] + vs[1..] == vs;
    }
  }

  lemma NothingYet(c: Config)
    ensures Parse(c, [], 0) == More
  {
  }
}
