/**
 What the reader's integer widths make of huge replies. The search for a line end keeps lengths in an `int`, and
 the length of a bulk string's bytes is summed in an `unsigned long`.
 */
module RespWidths {
  import opened Bytes
  import opened Collections
  import opened Decimal
  import opened RespGrammar
  import opened RespStack

  /** A copy past the end of the buffer, or a read position that is no longer where the item ends. */
  datatype Breakage = PastBuffer | PositionLost

  /** What the reader makes of an item: what the grammar does, no line end although there is one, or a breakage. */
  datatype Seen<T> = Plain(r: Parsed<T>) | Hidden | Broken(how: Breakage)

  // ---------- Lines ----------

  /** The position of the first line end if the search gets there; the length of `s` when it does not. */
  function Seek(s: seq<byte>): (k: nat)
    ensures k <= |s|
  {
    var k := LineEnd(s, 0);
    if k < Int32(|s| - 1) then k else |s|
  }

  /** A line; its length and its end must fit an `int`. */
  function SeenLine(s: seq<byte>): (r: Seen<seq<byte>>)
    ensures r.Plain? && r.r.Got? ==> |r.r.rest| < |s|
  {
    var k := LineEnd(s, 0);
    if k == |s| then Plain(More)
    else if k >= Int32(|s| - 1) then Hidden
    else if k + 2 > INT_MAX then Broken(PositionLost)
    else Plain(Got(s[..k], s[k + 2..]))
  }

  /** The reader sees the line that is there exactly when its end lies below what an `int` keeps of the length. */
  lemma LineAgrees(s: seq<byte>)
    ensures SeenLine(s) == Plain(Line(s)) <==>
            LineEnd(s, 0) == |s| || (LineEnd(s, 0) < Int32(|s| - 1) && LineEnd(s, 0) + 2 <= INT_MAX)
    ensures |s| <= INT_MAX ==> SeenLine(s) == Plain(Line(s))
    ensures SeenLine(s).Plain? ==> SeenLine(s).r == Line(s)
  {
  }

  // ---------- Bulk strings ----------

  /** What is left of a number in an unsigned integer that wraps at `m`. */
  function Left(total: nat, m: nat): (r: nat)
    requires m > 0
    ensures r <= total && r < m && (r == total <==> total < m)
  {
    total % m
  }

  /** A bulk string of `n` bytes behind a length line that ends at `k`; the length of all its bytes is wrapped. */
  function Sized(ulong: nat, s: seq<byte>, k: nat, n: nat): (r: Seen<Reply>)
    requires ulong > 0 && k + 2 <= |s|
    ensures r.Plain? && r.r.Got? ==> |r.r.rest| < |s|
  {
    var total := k + 2 + n + 2;
    var byteLen := Left(total, ulong);
    if byteLen > |s| then Plain(More)
    else if byteLen == total then Plain(Got(Bulk(s[k + 2..k + 2 + n]), s[total..]))
    else if k + 2 + n > |s| then Broken(PastBuffer)
    else Broken(PositionLost)
  }

  /** A bulk string, as the reader sees it. */
  ghost function SeenBulk(c: Config, s: seq<byte>): (r: Seen<Reply>)
    requires c.ulong > 0
    ensures r.Plain? && r.r.Got? ==> |r.r.rest| < |s|
  {
    var k := LineEnd(s, 0);
    if k == |s| then Plain(More)
    else if k >= Int32(|s| - 1) then Hidden
    else
      match Parse64(s[..k])
      case NotANumber => Plain(Bad(BadBulkLength))
      case Value(n) =>
        if n < -1 then Plain(Bad(BulkLengthRange))
        else if n == -1 then Plain(Got(Nil, s[k + 2..]))
        else Sized(c.ulong, s, k, n)
  }

  /** A line end that is there is not found. */
  predicate LineHidden(s: seq<byte>) { Int32(|s| - 1) <= LineEnd(s, 0) < |s| }

  /** A bulk string whose bytes are so many that their number wraps, to no more than have arrived. */
  ghost predicate LengthWraps(c: Config, s: seq<byte>)
    requires c.ulong > 0
  {
    && Line(s).Got? && Parse64(Line(s).value).Value?
    && var n := Parse64(Line(s).value).v;
       var total := |Line(s).value| + 2 + n + 2;
       n >= 0 && total >= c.ulong && Left(total, c.ulong) <= |s|
  }

  /**
   The reader makes of a bulk string what the grammar does exactly when its line end is found and its length does
   not wrap, or when the line end is not found but the grammar wants more bytes too.
   */
  lemma BulkAgrees(c: Config, s: seq<byte>)
    requires c.ulong > 0
    ensures (SeenBulk(c, s) == Plain(ParseBulk(s)) || (SeenBulk(c, s).Hidden? && ParseBulk(s).More?))
            <==> if LineHidden(s) then ParseBulk(s).More? else !LengthWraps(c, s)
    ensures SeenBulk(c, s).Plain? ==> SeenBulk(c, s).r == ParseBulk(s)
    ensures SeenBulk(c, s).Hidden? <==> LineHidden(s)
  {
    hide Left;
    var k := LineEnd(s, 0);
    if k < |s| && Parse64(s[..k]).Value? && 0 <= Parse64(s[..k]).v <= |s| - k - 4 {
      CutTwice(s, k + 2, Parse64(s[..k]).v);
    }
    assert SeenBulk(c, s).Plain? ==> SeenBulk(c, s) == Plain(ParseBulk(s));
    assert SeenBulk(c, s).Hidden? <==> LineHidden(s);
    assert !LineHidden(s) ==> (LengthWraps(c, s) <==> SeenBulk(c, s).Broken?);
  }

  lemma CutTwice(s: seq<byte>, at: nat, n: nat)
    requires at + n + 2 <= |s|
    ensures s[at..][..n] == s[at..at + n] && s[at..][n + 2..] == s[at + n + 2..]
  {
  }

  /** With few enough bytes a line is never hidden, and with 64 bits no length wraps. */
  lemma BulkShort(c: Config, s: seq<byte>)
    requires ConfigOk(c) && |s| <= INT_MAX
    ensures SeenBulk(c, s).Plain? || SeenBulk(c, s) == Broken(PastBuffer)
    ensures c.ulong == WORD * WORD ==> SeenBulk(c, s).Plain?
  {
    hide Left;
  }

  // ---------- What a request comes to ----------

  /** As the grammar says; stopped before a line end that is there; or broken. */
  datatype Manner = Exact | Blinded | Broke(how: Breakage)

  /** How many elements each open aggregate still lacks, the current one included. */
  function Counts(frames: seq<Task>): (r: seq<int>)
    ensures |r| == |frames|
  {
    seq(|frames|, k requires 0 <= k < |frames| => frames[k].elements - |frames[k].got|)
  }

  /** The counts after one more item, complete aggregates closed; none when that completes the reply. */
  function After(counts: seq<int>): Option<seq<int>> {
    if counts == [] then None
    else
      var d := |counts| - 1;
      if counts[d] > 1 then Some(counts[..d] + [counts[d] - 1]) else After(counts[..d])
  }

  /** Going through the unread bytes item by item: does the reader get to one that it sees wrong? */
  ghost function Fate(c: Config, counts: seq<int>, tag: TypeTag, s: seq<byte>): Manner
    requires c.ulong > 0
    decreases |s|, if tag.Unknown? then 1 else 0
  {
    if tag.Unknown? then
      if s == [] || TypeOf(s[0]).Bad? then Exact else Fate(c, counts, Known(TypeOf(s[0]).value), s[1..])
    else
      match tag.t
      case TBulk =>
        (match SeenBulk(c, s)
         case Hidden => Blinded
         case Broken(how) => Broke(how)
         case Plain(r) => if r.Got? then FateAfter(c, counts, s, r.rest) else Exact)
      case TAggregate(kind) =>
        if |counts| >= MAX_DEPTH then Exact
        else
          (match SeenLine(s)
           case Hidden => Blinded
           case Broken(how) => Broke(how)
           case Plain(r) =>
             if !r.Got? then Exact
             else
               var a := Announced(c, kind, r.value);
               if a.Bad? then Exact
               else if a.value <= 0 then FateAfter(c, counts, s, r.rest)
               else Fate(c, counts + [a.value], Unknown, r.rest))
      case _ =>
        match SeenLine(s)
        case Hidden => Blinded
        case Broken(how) => Broke(how)
        case Plain(r) => if r.Got? && LineReply(c, tag.t, r.value).Got? then FateAfter(c, counts, s, r.rest) else Exact
  }

  ghost function FateAfter(c: Config, counts: seq<int>, s: seq<byte>, rest: seq<byte>): Manner
    requires c.ulong > 0 && |rest| < |s|
    decreases |s|, 0, 0
  {
    match After(counts)
    case None => Exact
    case Some(counts') => Fate(c, counts', Unknown, rest)
  }

  /** What comes after an item that is done. */
  ghost predicate Goes(c: Config, counts: seq<int>, s: seq<byte>, rest: seq<byte>, fate: Manner)
    requires c.ulong > 0 && |rest| < |s|
  {
    fate == match After(counts)
            case None => Exact
            case Some(counts') => Fate(c, counts', Unknown, rest)
  }

  lemma FateOfLine(c: Config, counts: seq<int>, t: ItemType, s: seq<byte>)
    requires c.ulong > 0 && !t.TBulk? && !t.TAggregate?
    ensures var fate := Fate(c, counts, Known(t), s);
            var seen := SeenLine(s);
            && (seen.Hidden? ==> fate == Blinded) && (seen.Broken? ==> fate == Broke(seen.how))
            && (seen.Plain? ==> if seen.r.Got? && LineReply(c, t, seen.r.value).Got?
                                then Goes(c, counts, s, seen.r.rest, fate) else fate == Exact)
  {
    hide SeenLine, After;
  }

  lemma FateOfBulk(c: Config, counts: seq<int>, s: seq<byte>)
    requires c.ulong > 0
    ensures var fate := Fate(c, counts, Known(TBulk), s);
            var seen := SeenBulk(c, s);
            && (seen.Hidden? ==> fate == Blinded) && (seen.Broken? ==> fate == Broke(seen.how))
            && (seen.Plain? ==> if seen.r.Got? then Goes(c, counts, s, seen.r.rest, fate) else fate == Exact)
  {
    hide SeenBulk, After;
  }

  lemma FateOfCount(c: Config, counts: seq<int>, kind: Kind, s: seq<byte>)
    requires c.ulong > 0
    ensures var fate := Fate(c, counts, Known(TAggregate(kind)), s);
            var seen := SeenLine(s);
            && (|counts| >= MAX_DEPTH ==> fate == Exact)
            && (|counts| < MAX_DEPTH && seen.Hidden? ==> fate == Blinded)
            && (|counts| < MAX_DEPTH && seen.Broken? ==> fate == Broke(seen.how))
            && (|counts| < MAX_DEPTH && seen.Plain? ==>
                  if !seen.r.Got? || Announced(c, kind, seen.r.value).Bad? then fate == Exact
                  else
                    var n := Announced(c, kind, seen.r.value).value;
                    if n <= 0 then Goes(c, counts, s, seen.r.rest, fate)
                    else fate == Fate(c, counts + [n], Unknown, seen.r.rest))
  {
    hide SeenLine, After, Announced;
  }

  /** With few enough unread bytes only a wrapped length can go wrong, and with 64 bits not even that. */
  lemma {:induction false} FateShort(c: Config, counts: seq<int>, tag: TypeTag, s: seq<byte>)
    requires ConfigOk(c) && |s| <= INT_MAX
    ensures Fate(c, counts, tag, s) in {Exact, Broke(PastBuffer)}
    ensures c.ulong == WORD * WORD ==> Fate(c, counts, tag, s) == Exact
    decreases |s|, if tag.Unknown? then 1 else 0
  {
    hide SeenBulk, SeenLine, After, Announced;
    if tag.Unknown? {
      if s != [] && TypeOf(s[0]).Got? {
        FateShort(c, counts, Known(TypeOf(s[0]).value), s[1..]);
      }
    } else {
      LineAgrees(s);
      BulkShort(c, s);
      if tag.t.TBulk? {
        var r := SeenBulk(c, s);
        if r.Plain? && r.r.Got? {
          FateShortAfter(c, counts, s, r.r.rest);
        }
      } else {
        var r := SeenLine(s);
        if r.r.Got? {
          FateShortAfter(c, counts, s, r.r.rest);
          if tag.t.TAggregate? {
            var a := Announced(c, tag.t.kind, r.r.value);
            if a.Got? {
              FateShort(c, counts + [a.value], Unknown, r.r.rest);
            }
          }
        }
      }
    }
  }

  lemma {:induction false} FateShortAfter(c: Config, counts: seq<int>, s: seq<byte>, rest: seq<byte>)
    requires ConfigOk(c) && |rest| < |s| <= INT_MAX
    ensures FateAfter(c, counts, s, rest) in {Exact, Broke(PastBuffer)}
    ensures c.ulong == WORD * WORD ==> FateAfter(c, counts, s, rest) == Exact
    decreases |s|, 0, 0
  {
    if After(counts).Some? {
      FateShort(c, After(counts).value, Unknown, rest);
    }
  }
}
