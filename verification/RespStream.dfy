/**
 What a reader owes its caller, whatever the chunks: the replies of the byte stream, in order, then its first error.
 */
module RespStream {
  import opened Bytes
  import opened RespGrammar

  datatype MaybeFault = Healthy | Faulted(fault: Fault)

  /** The bytes since the last complete reply, or the error that ended everything. */
  datatype Session = Session(pending: seq<byte>, state: MaybeFault)

  datatype Event = Feed(bytes: seq<byte>) | GetReply

  datatype Answer = NoReply | Answer(reply: Reply)

  /** A feed adds bytes; a request parses the pending bytes from their start. Errors are sticky. */
  ghost function Serve(c: Config, s: Session, e: Event): (Session, Answer) {
    if s.state.Faulted? then (s, NoReply)
    else
      match e
      case Feed(bytes) => (s.(pending := s.pending + bytes), NoReply)
      case GetReply =>
        match Parse(c, s.pending, 0)
        case More => (s, NoReply)
        case Bad(f) => (Session([], Faulted(f)), NoReply)
        case Got(v, rest) => (Session(rest, Healthy), Answer(v))
  }

  ghost function Serves(c: Config, s: Session, es: seq<Event>): (r: (Session, seq<Reply>))
    decreases |es|
  {
    if es == [] then (s, [])
    else
      var (s', a) := Serve(c, s, es[0]);
      var (s'', replies) := Serves(c, s', es[1..]);
      (s'', (if a.Answer? then [a.reply] else []) + replies)
  }

  /** One more event at the end of a run. */
  lemma {:induction false} ServesOneMore(c: Config, s: Session, es: seq<Event>, e: Event)
    ensures var (s', replies) := Serves(c, s, es);
            var (s'', a) := Serve(c, s', e);
            Serves(c, s, es + [e]) == (s'', if a.Answer? then replies + [a.reply] else replies)
    decreases |es|
  {
    hide Serve;
    if es == [] {
      assert es + [e] == [e] && [e][1..] == [];
      var (s', a) := Serve(c, s, e);
      var last := if a.Answer? then [a.reply] else [];
      assert Serves(c, s', []) == (s', []) && last + [] == last == [] + last;
    } else {
      var (s', a) := Serve(c, s, es[0]);
      assert (es + [e])[1..] == es[1..] + [e];
      ServesOneMore(c, s', es[1..], e);
      var (t, replies) := Serves(c, s', es[1..]);
      var (_, b) := Serve(c, t, e);
      ConcatAssoc(if a.Answer? then [a.reply] else [], replies, if b.Answer? then [b.reply] else []);
    }
  }

  /** All bytes offered by a run. */
  function Offered(es: seq<Event>): seq<byte> {
    if es == [] then [] else (if es[0].Feed? then es[0].bytes else []) + Offered(es[1..])
  }

  lemma {:induction false} OfferedOneMore(es: seq<Event>, e: Event)
    ensures Offered(es + [e]) == Offered(es) + if e.Feed? then e.bytes else []
  {
    if es == [] {
      assert es + [e] == [e] && [e][1..] == [];
      assert Offered([e]) == (if e.Feed? then e.bytes else []) + Offered([e][1..]);
    } else {
      assert (es + [e])[1..] == es[1..] + [e];
      OfferedOneMore(es[1..], e);
      ConcatAssoc(if es[0].Feed? then es[0].bytes else [], Offered(es[1..]), if e.Feed? then e.bytes else []);
    }
  }

  /** The replies of a whole byte stream, and the error that ends it if there is one. */
  ghost function Stream(c: Config, s: seq<byte>): (r: (seq<Reply>, MaybeFault))
    decreases |s|
  {
    match Parse(c, s, 0)
    case More => ([], Healthy)
    case Bad(f) => ([], Faulted(f))
    case Got(v, rest) => var (vs, m) := Stream(c, rest); ([v] + vs, m)
  }

  /** What a session would still deliver if it were asked until nothing more comes. */
  ghost function Owed(c: Config, s: Session): (seq<Reply>, MaybeFault) {
    if s.state.Faulted? then ([], s.state) else Stream(c, s.pending)
  }

  /** One request moves one reply from owed to delivered; it never changes what is owed later. */
  lemma ServeOwes(c: Config, s: Session, e: Event, more: seq<byte>)
    ensures var (s', a) := Serve(c, s, e);
            var before := Owed(c, s.(pending := s.pending + (if e.Feed? then e.bytes else []) + more));
            var after := Owed(c, s'.(pending := s'.pending + more));
            before.0 == (if a.Answer? then [a.reply] else []) + after.0 && before.1 == after.1
  {
    if s.state.Healthy? && e.GetReply? {
      assert s.pending + [] + more == s.pending + more;
      if !Parse(c, s.pending, 0).More? {
        ParseStable(c, s.pending, 0, more);
      }
    }
  }

  /** Delivered then owed is always the whole stream of the bytes offered. */
  lemma {:induction false} RunOwes(c: Config, s: Session, es: seq<Event>)
    ensures var (s', replies) := Serves(c, s, es);
            var total := Owed(c, s.(pending := s.pending + Offered(es)));
            total.0 == replies + Owed(c, s').0 && total.1 == Owed(c, s').1
    decreases |es|
  {
    if es == [] {
      assert s.pending + [] == s.pending;
    } else {
      var (s', a) := Serve(c, s, es[0]);
      var first := if es[0].Feed? then es[0].bytes else [];
      ServeOwes(c, s, es[0], Offered(es[1..]));
      ConcatAssoc(s.pending, first, Offered(es[1..]));
      RunOwes(c, s', es[1..]);
      ConcatAssoc(if a.Answer? then [a.reply] else [], Serves(c, s', es[1..]).1, Owed(c, Serves(c, s, es).0).0);
    }
  }

  const FRESH := Session([], Healthy)

  /** Nothing further to deliver: the stream has failed or ends in an incomplete reply. */
  ghost predicate Quiet(c: Config, s: Session) {
    s.state.Faulted? || Parse(c, s.pending, 0).More?
  }

  /**
   However the bytes are cut into feeds and wherever replies are asked for in between: the replies
   delivered are a prefix of the stream's, all of them once the session is quiet, and the error
   is the stream's first error.
   */
  lemma ChunksDoNotMatter(c: Config, es: seq<Event>)
    ensures var (s, replies) := Serves(c, FRESH, es);
            && replies <= Stream(c, Offered(es)).0
            && (Quiet(c, s) ==> replies == Stream(c, Offered(es)).0)
            && (s.state.Faulted? ==> s.state == Stream(c, Offered(es)).1)
            && (Quiet(c, s) && s.state.Healthy? ==> Stream(c, Offered(es)).1 == Healthy)
  {
    RunOwes(c, FRESH, es);
    assert [] + Offered(es) == Offered(es);
  }
}
