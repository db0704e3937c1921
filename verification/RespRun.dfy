/** Whole runs of the reader, and the two inputs on which its integer widths show. */
module RespRun {
  import opened Bytes
  import opened Collections
  import opened Decimal
  import opened RespGrammar
  import opened RespReader
  import opened RespStack
  import opened RespStream
  import opened RespWidths
  import opened RespWriter

  /** Either event, on a reader; `how` is what a request came to. */
  method Respond(reader: Reader, e: Event) returns (answer: Answer, how: Manner)
    requires reader.Valid()
    modifies reader, reader.rstack
    ensures how == if e.Feed? then Exact else old(reader.NextFate())
    ensures !how.Broke? ==> reader.Valid()
    ensures how.Exact? ==> (reader.Abstract(), answer) == Serve(reader.config, old(reader.Abstract()), e)
    ensures how.Blinded? ==> e.GetReply? && reader.Abstract() == old(reader.Abstract()) && answer == NoReply
    ensures !how.Broke? ==> |reader.Rem()| <= |old(reader.Rem())| + if e.Feed? then |e.bytes| else 0
  {
    match e
    case Feed(bytes) =>
      var _ := reader.Feed(bytes);
      answer, how := NoReply, Exact;
    case GetReply =>
      var ok;
      ok, answer, how := reader.GetReply();
  }

  /** The worse of what two requests came to. */
  function Worse(a: Manner, b: Manner): Manner { if b.Broke? || a.Exact? then b else a }

  /**
   A new reader put through any run of feeds and requests, up to where its state becomes undefined. If no request
   goes wrong it delivers what the grammar owes. If some only stop before a line that is there, what it delivers is
   still a prefix of the replies of all the bytes it was offered, all of them once the grammar has no more, and its
   error is the first one in the stream. With at most 2^31 - 1 bytes offered, no request is blinded and, where an
   `unsigned long` has 64 bits, none goes wrong.
   */
  method Drive(config: Config, es: seq<Event>) returns (reader: Reader, replies: seq<Reply>, how: Manner)
    requires ConfigOk(config)
    ensures how.Exact? ==> (reader.Abstract(), replies) == Serves(config, FRESH, es)
    ensures !how.Broke? ==> fresh(reader) && reader.Valid() && replies <= Stream(config, Offered(es)).0
    ensures !how.Broke? && Quiet(config, reader.Abstract()) ==> replies == Stream(config, Offered(es)).0
    ensures !how.Broke? && reader.err.Faulted? ==> reader.err == Stream(config, Offered(es)).1
    ensures |Offered(es)| <= INT_MAX ==> how in {Exact, Broke(PastBuffer)}
    ensures |Offered(es)| <= INT_MAX && config.ulong == WORD * WORD ==> how == Exact
  {
    hide Serve, Serves, Stream, Offered, Fate, Running, Quiet;
    reader := new Reader(config);
    replies, how := [], Exact;
    ghost var kept: seq<Event> := [];
    NothingYet(config, es);
    for i := 0 to |es|
      invariant fresh(reader) && fresh(reader.rstack) && reader.Valid() && reader.config == config
      invariant Running(config, es, i, kept, reader.Abstract(), replies, |reader.Rem()|, how)
    {
      ghost var s, room, was, before := reader.Abstract(), |reader.Rem()|, how, replies;
      UnreadShort(reader, es, i, kept, replies, how);
      var answer, came := Respond(reader, es[i]);
      how := Worse(how, came);
      if came.Broke? {
        return;
      }
      if answer.Answer? {
        replies := replies + [answer.reply];
      }
      RunStep(config, es, i, kept, s, before, room, was, reader.Abstract(), answer, |reader.Rem()|, came);
      kept := if came.Exact? then kept + [es[i]] else kept;
    }
    RunEnds(config, es, kept, reader.Abstract(), replies, |reader.Rem()|, how);
  }

  /** After `i` events: the requests that were not blinded amount to what the reader holds and has delivered. */
  ghost predicate Running(config: Config, es: seq<Event>, i: nat, kept: seq<Event>, s: Session, replies: seq<Reply>,
                          unread: nat, how: Manner) {
    && i <= |es| && (s, replies) == Serves(config, FRESH, kept) && Offered(kept) == Offered(es[..i])
    && unread <= |Offered(es[..i])| && !how.Broke? && (how.Exact? ==> kept == es[..i])
    && (|Offered(es)| <= INT_MAX ==> how == Exact)
  }

  lemma RunStep(config: Config, es: seq<Event>, i: nat, kept: seq<Event>, s: Session, replies: seq<Reply>, unread: nat,
                how: Manner, s': Session, answer: Answer, unread': nat, came: Manner)
    requires i < |es| && Running(config, es, i, kept, s, replies, unread, how) && !came.Broke?
    requires came.Exact? ==> (s', answer) == Serve(config, s, es[i])
    requires came.Blinded? ==> es[i].GetReply? && s' == s && answer == NoReply
    requires unread' <= unread + if es[i].Feed? then |es[i].bytes| else 0
    requires |Offered(es)| <= INT_MAX ==> came == Exact
    ensures Running(config, es, i + 1, if came.Exact? then kept + [es[i]] else kept, s',
                    if answer.Answer? then replies + [answer.reply] else replies, unread', Worse(how, came))
  {
    hide Serve, Serves, Offered;
    assert es[..i + 1] == es[..i] + [es[i]];
    OfferedOneMore(es[..i], es[i]);
    OfferedOneMore(kept, es[i]);
    ServesOneMore(config, FRESH, kept, es[i]);
  }

  /** With few bytes offered the next request is not blinded. */
  lemma UnreadShort(reader: Reader, es: seq<Event>, i: nat, kept: seq<Event>, replies: seq<Reply>, how: Manner)
    requires reader.Valid() && i < |es|
    requires Running(reader.config, es, i, kept, reader.Abstract(), replies, |reader.Rem()|, how)
    ensures |Offered(es)| <= INT_MAX ==> reader.NextFate() in {Exact, Broke(PastBuffer)}
    ensures |Offered(es)| <= INT_MAX && reader.config.ulong == WORD * WORD ==> reader.NextFate() == Exact
  {
    hide Fate, Offered, Serves;
    OfferedPart(es, i);
    if |Offered(es)| <= INT_MAX {
      NextShort(reader);
    }
  }

  lemma RunEnds(config: Config, es: seq<Event>, kept: seq<Event>, s: Session, replies: seq<Reply>, unread: nat,
                how: Manner)
    requires Running(config, es, |es|, kept, s, replies, unread, how)
    ensures how.Exact? ==> (s, replies) == Serves(config, FRESH, es)
    ensures replies <= Stream(config, Offered(es)).0
    ensures Quiet(config, s) ==> replies == Stream(config, Offered(es)).0
    ensures s.state.Faulted? ==> s.state == Stream(config, Offered(es)).1
    ensures |Offered(es)| <= INT_MAX ==> how == Exact
  {
    hide Serves, Offered, Stream, Quiet;
    assert es[..|es|] == es;
    ChunksDoNotMatter(config, kept);
  }

  lemma NothingYet(config: Config, es: seq<Event>)
    ensures Running(config, es, 0, [], FRESH, [], 0, Exact)
  {
    assert es[..0] == [];
  }

  lemma {:induction false} OfferedPart(es: seq<Event>, i: nat)
    requires i <= |es|
    ensures |Offered(es[..i])| <= |Offered(es)|
    decreases |es| - i
  {
    if i < |es| {
      assert es[..i + 1] == es[..i] + [es[i]];
      OfferedOneMore(es[..i], es[i]);
      OfferedPart(es, i + 1);
    } else {
      assert es[..i] == es;
    }
  }

  lemma NextShort(reader: Reader)
    requires reader.Valid() && |reader.Rem()| <= INT_MAX
    ensures reader.NextFate() in {Exact, Broke(PastBuffer)}
    ensures reader.config.ulong == WORD * WORD ==> reader.NextFate() == Exact
  {
    hide Fate;
    if reader.err.Healthy? {
      FateShort(reader.config, if reader.ridx < 0 then [] else Counts(reader.rstack[..reader.ridx]),
                if reader.ridx < 0 then Unknown else reader.rstack[reader.ridx].tag, reader.Rem());
    }
  }

  // ---------- Bulk strings of every size ----------

  lemma {:induction false} FewDigits(n: nat)
    ensures |Digits(n)| <= n / 10 + 1
  {
    if n >= 10 {
      FewDigits(n / 10);
    }
  }

  /**
   A written argument is seen as itself, once all of it has arrived, exactly when its length line ends below what
   an `int` keeps of the number of bytes, and that number does not wrap an `unsigned long`.
   */
  lemma ArgumentSeen(c: Config, a: seq<byte>)
    requires c.ulong > 0 && |a| <= LLONG_MAX
    ensures SeenBulk(c, ArgBytes(a)[1..]) == Plain(Got(Bulk(a), []))
            <==> |Digits(|a|)| < Int32(|ArgBytes(a)| - 2) && |ArgBytes(a)| - 1 < c.ulong
  {
    hide Sized, SeenBulk, ArgBytes;
    ArgumentLine(c, a);
    SizedAll(c.ulong, ArgBytes(a)[1..], |Digits(|a|)|, a);
  }

  lemma ArgumentLine(c: Config, a: seq<byte>)
    requires c.ulong > 0 && |a| <= LLONG_MAX
    ensures |ArgBytes(a)| > 0
    ensures var s, k := ArgBytes(a)[1..], |Digits(|a|)|;
            && |s| == k + 2 + |a| + 2 && s[k + 2..k + 2 + |a|] == a
            && SeenBulk(c, s) == if k < Int32(|s| - 1) then Sized(c.ulong, s, k, |a|) else Hidden
  {
    hide Sized, Digits, LineEnd;
    var s, k := ArgBytes(a)[1..], |Digits(|a|)|;
    LengthLine(a);
    ParseShow(|a|);
    assert s[..k] == Digits(|a|) == Show(|a|);
  }

  /** The length line of an argument ends behind its digits. */
  lemma LengthLine(a: seq<byte>)
    ensures |ArgBytes(a)| > 0
    ensures var s, k := ArgBytes(a)[1..], |Digits(|a|)|;
            && LineEnd(s, 0) == k && s == Digits(|a|) + CrLf() + (a + CrLf()) && s[k + 2..k + 2 + |a|] == a
  {
    hide Digits;
    var s, body := ArgBytes(a)[1..], a + CrLf();
    assert s == Digits(|a|) + CrLf() + body;
    NumeralLine(|a|, body);
  }

  lemma SizedAll(ulong: nat, s: seq<byte>, k: nat, a: seq<byte>)
    requires ulong > 0 && |s| == k + 2 + |a| + 2 && s[k + 2..k + 2 + |a|] == a
    ensures Sized(ulong, s, k, |a|) == Plain(Got(Bulk(a), [])) <==> |s| < ulong
  {
    hide Left;
  }

  /** An argument of 2^31 bytes never comes out, although all of it is there. */
  method BlindedRun(config: Config, a: seq<byte>) returns (reader: Reader, answer: Answer, how: Manner)
    requires ConfigOk(config) && |a| == INT_MAX + 1
    ensures how == Blinded && answer == NoReply && reader.Valid() && reader.pending == ArgBytes(a)
    ensures Serve(config, reader.Abstract(), RespStream.GetReply).1 == Answer(Bulk(a))
  {
    hide ArgBytes, Fate, Agree, Parse, Serve, Indexed;
    reader := new Reader(config);
    assert reader.pending == [] && [] + ArgBytes(a) == ArgBytes(a);
    Grows(config, ArgBytes(a));
    var _ := reader.Feed(ArgBytes(a));
    HiddenArgument(config, a);
    ServedArgument(config, a);
    var ok;
    ok, answer, how := reader.GetReply();
  }

  lemma Grows(config: Config, bytes: seq<byte>)
    ensures Serve(config, FRESH, RespStream.Feed(bytes)).0 == Session(bytes, Healthy)
  {
    assert [] + bytes == bytes;
  }

  lemma ServedArgument(config: Config, a: seq<byte>)
    requires |a| <= LLONG_MAX
    ensures Serve(config, Session(ArgBytes(a), Healthy), RespStream.GetReply).1 == Answer(Bulk(a))
  {
    hide ArgBytes;
    ParseArg(config, a, 0, []);
    assert ArgBytes(a) + [] == ArgBytes(a);
  }

  lemma HiddenArgument(config: Config, a: seq<byte>)
    requires ConfigOk(config) && |a| == INT_MAX + 1
    ensures Fate(config, [], Unknown, ArgBytes(a)) == Blinded
  {
    hide Left, Digits;
    var s := ArgBytes(a)[1..];
    var body := a + CrLf();
    assert s == Digits(|a|) + CrLf() + body;
    NumeralLine(|a|, body);
    FewDigits(|a|);
    assert SeenBulk(config, s).Hidden?;
  }

  /** Fourteen bytes that make the reader copy far past its buffer, where an `unsigned long` has 32 bits. */
  function Overrunning(b: byte): seq<byte> { [DOLLAR] + Digits(WORD - 4) + CrLf() + [b] }

  method OverrunRun(config: Config, b: byte) returns (reader: Reader, answer: Answer, how: Manner)
    requires ConfigOk(config) && config.ulong == WORD
    ensures how == Broke(PastBuffer)
    ensures Serve(config, Session(Overrunning(b), Healthy), RespStream.GetReply).1 == NoReply
  {
    hide Overrunning, Fate, Agree, Parse, Indexed;
    reader := new Reader(config);
    Grows(config, Overrunning(b));
    var _ := reader.Feed(Overrunning(b));
    assert reader.Rem() == Overrunning(b);
    LengthRunsOver(config, b);
    var ok;
    ok, answer, how := reader.GetReply();
  }

  lemma LengthRunsOver(config: Config, b: byte)
    requires ConfigOk(config) && config.ulong == WORD
    ensures Fate(config, [], Unknown, Overrunning(b)) == Broke(PastBuffer)
    ensures Parse(config, Overrunning(b), 0).More?
  {
    hide Digits;
    var s, n := Overrunning(b)[1..], WORD - 4;
    assert s == Digits(n) + CrLf() + [b];
    NumeralLine(n, [b]);
    FewDigits(n);
    ParseShow(n);
    var k := |Digits(n)|;
    assert LineEnd(s, 0) == k && s[..k] == Digits(n) == Show(n);
    assert Left(k + 2 + n + 2, WORD) == k;
    assert Sized(WORD, s, k, n) == Broken(PastBuffer);
    assert SeenBulk(config, s) == Broken(PastBuffer);
  }
}
