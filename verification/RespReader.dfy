/** The incremental reply reader: a byte buffer and a stack of nine read tasks. */
module RespReader {
  import opened Bytes
  import opened Decimal
  import opened RespGrammar
  import opened RespStack
  import opened RespStream
  import opened RespWidths
  import opened Collections

  /** Position of the first line end, or the length of `s`; the search keeps its bound in an `int`. */
  method SeekNewline(s: seq<byte>) returns (k: nat)
    ensures k == Seek(s)
  {
    var pos, len := 0, Int32(|s| - 1);
    while pos < len
      invariant 0 <= pos <= |s| && (pos <= len || len < 0) && forall j :: 0 <= j < pos ==> !CrLfAt(s, j)
    {
      while pos < len && s[pos] != CR
        invariant 0 <= pos <= |s| && (pos <= len || len < 0) && forall j :: 0 <= j < pos ==> !CrLfAt(s, j)
      {
        pos := pos + 1;
      }
      if pos == len {
        return |s|;
      }
      if s[pos + 1] == LF {
        assert CrLfAt(s, pos);
        return pos;
      }
      pos := pos + 1;
    }
    k := |s|;
  }

  /** `Blind` stops before a line end that is there; after `Snapped` the source's state is undefined. */
  datatype Progress = Advanced | Stuck | Failed(fault: Fault) | Blind | Snapped(how: Breakage)

  class Reader {
    const config: Config
    var buf: seq<byte>
    var pos: nat
    const rstack: array<Task>
    var ridx: int
    var reply: Answer
    var err: MaybeFault
    /** The bytes accepted since the last complete reply. */
    ghost var pending: seq<byte>

    ghost predicate Shape()
      reads this, rstack
    {
      rstack.Length == 9 && -1 <= ridx <= 8 && pos <= |buf| && ConfigOk(config)
    }

    ghost function Rem(): seq<byte>
      requires pos <= |buf|
      reads this
    {
      buf[pos..]
    }

    /** In the middle of a reply, with the current task on top of the stack. */
    ghost predicate Reading()
      reads this, rstack
    {
      && Shape() && ridx >= 0 && err.Healthy?
      && Agree(config, rstack[..ridx], rstack[ridx].tag, Rem(), pending)
      && Indexed(rstack[..ridx + 1])
    }

    ghost predicate Valid()
      reads this, rstack
    {
      && Shape()
      && (err.Faulted? ==> buf == [] && pos == 0 && ridx == -1 && pending == [])
      && (err.Healthy? && ridx < 0 ==> pending == Rem())
      && (err.Healthy? && ridx >= 0 ==> Reading() && (ridx == 8 ==> !IsAggregate(rstack[8].tag)))
    }

    ghost function Abstract(): Session
      reads this
    {
      Session(pending, err)
    }

    /** What the next request comes to. */
    ghost function NextFate(): Manner
      reads this, rstack
      requires Shape()
    {
      if err.Faulted? then Exact
      else if ridx < 0 then Fate(config, [], Unknown, Rem())
      else Fate(config, Counts(rstack[..ridx]), rstack[ridx].tag, Rem())
    }

    constructor (config: Config)
      requires ConfigOk(config)
      ensures Valid() && ridx == -1 && Rem() == [] && Abstract() == FRESH && this.config == config && fresh(rstack)
    {
      this.config := config;
      buf, pos, ridx, reply, err := [], 0, -1, NoReply, Healthy;
      rstack := new Task[9](_ => Task(Unknown, -1, -1, []));
      pending := [];
    }

    method Feed(bytes: seq<byte>) returns (ok: bool)
      requires Valid()
      modifies this`buf, this`pending
      ensures Valid() && ok == old(err).Healthy?
      ensures Abstract() == Serve(config, old(Abstract()), RespStream.Feed(bytes)).0
      ensures Rem() == if ok then old(Rem()) + bytes else old(Rem())
    {
      if err.Faulted? {
        return false;
      }
      if ridx >= 0 {
        AgreeFed(config, rstack[..ridx], rstack[ridx].tag, Rem(), pending, bytes);
      }
      assert (buf + bytes)[pos..] == Rem() + bytes;
      buf := buf + bytes;
      pending := pending + bytes;
      ok := true;
    }

    /** An error drops the buffer and the stack. */
    method SetError(f: Fault)
      requires Shape()
      modifies this
      ensures Valid() && err == Faulted(f) && pending == [] && reply == NoReply
    {
      reply := NoReply;
      buf, pos, ridx, err := [], 0, -1, Faulted(f);
      pending := [];
    }

    /** Puts a finished item in its aggregate, closing aggregates that become complete, and starts the next task. */
    method MoveToNextTask(v0: Reply)
      requires Shape() && ridx >= 0 && err.Healthy?
      requires Holding(config, rstack[..ridx], v0, Rem(), pending) && Indexed(rstack[..ridx + 1])
      modifies this`ridx, this`reply, rstack
      ensures Shape()
      ensures if ridx >= 0 then Reading() && rstack[ridx].tag == Unknown
              else reply.Answer? && Parse(config, pending, 0) == Got(reply.reply, Rem())
      ensures After(old(Counts(rstack[..ridx]))) == if ridx >= 0 then Some(Counts(rstack[..ridx])) else None
    {
      hide Agree, Holding, Indexed, After, Counts;
      ghost var after := After(Counts(rstack[..ridx]));
      var v := v0;
      while ridx >= 0
        invariant Shape() && ridx >= 0 && After(Counts(rstack[..ridx])) == after
        invariant Holding(config, rstack[..ridx], v, Rem(), pending) && Indexed(rstack[..ridx + 1])
        decreases ridx
      {
        AfterMeans(rstack[..ridx]);
        if ridx == 0 {
          ReplyComplete(config, v, Rem(), pending);
          reply := Answer(v);
          ridx := -1;
          return;
        }
        ghost var frames, tasks := rstack[..ridx], rstack[..ridx + 1];
        var cur, prv := rstack[ridx], rstack[ridx - 1];
        assert frames[ridx - 1] == prv && tasks[ridx] == cur && tasks[ridx - 1] == prv && tasks[..ridx] == frames;
        IndexedTop(tasks);
        HoldingFrames(config, frames, v, Rem(), pending);
        assert IsFrame(frames[ridx - 1]);
        if cur.idx == prv.elements - 1 {
          FrameClosed(config, frames, v, Rem(), pending);
          assert rstack[..ridx - 1] == frames[..ridx - 1];
          v := Aggregate(prv.tag.t.kind, prv.got + [v]);
          ridx := ridx - 1;
        } else {
          ElementAdded(config, frames, v, Rem(), pending);
          NextTask(v);
          OneFewer(frames, rstack[..ridx], v);
          return;
        }
      }
    }

    /** Adds an element to the parent aggregate and clears the current task for the next one. */
    method NextTask(v: Reply)
      requires Shape() && ridx > 0 && Indexed(rstack[..ridx + 1])
      requires |rstack[ridx - 1].got| + 1 < rstack[ridx - 1].elements
      modifies rstack
      ensures rstack[ridx].tag == Unknown && Indexed(rstack[..ridx + 1])
      ensures var f := old(rstack[ridx - 1]);
              rstack[..ridx] == old(rstack[..ridx])[ridx - 1 := f.(got := f.got + [v])]
    {
      ghost var tasks := rstack[..ridx + 1];
      var cur, prv := rstack[ridx], rstack[ridx - 1];
      assert tasks[ridx] == cur && tasks[ridx - 1] == prv;
      rstack[ridx - 1] := prv.(got := prv.got + [v]);
      rstack[ridx] := Task(Unknown, -1, cur.idx + 1, []);
      assert rstack[..ridx + 1] == tasks[ridx - 1 := rstack[ridx - 1]][ridx := rstack[ridx]];
    }

    /** Consumes a line if a whole one is seen. */
    method ReadLine() returns (line: Seen<seq<byte>>)
      requires pos <= |buf|
      modifies this`pos
      ensures pos <= |buf| && line == SeenLine(old(Rem()))
      ensures if line.Plain? && line.r.Got? then Rem() == line.r.rest && pos > old(pos) else pos == old(pos)
    {
      var s := buf[pos..];
      var k := SeekNewline(s);
      if k == |s| {
        // the source does not tell the two apart: it stops here either way
        return if LineEnd(s, 0) < |s| then Hidden else Plain(More);
      }
      if k + 2 > INT_MAX {
        return Broken(PositionLost);
      }
      pos := pos + k + 2;
      assert buf[pos..] == s[k + 2..];
      line := Plain(Got(s[..k], buf[pos..]));
    }

    /** What one step on the current task promises. */
    twostate predicate Stepped(r: Progress)
      reads this, rstack
    {
      match r
      case Advanced =>
        && Shape() && pos > old(pos) && err.Healthy?
        && (if ridx >= 0 then Reading() && rstack[ridx].tag == Unknown
            else reply.Answer? && Parse(config, pending, 0) == Got(reply.reply, Rem()))
      case Stuck => Reading() && Valid() && pos == old(pos) && Parse(config, pending, 0).More?
      case Failed(f) => err.Healthy? && Shape() && Parse(config, pending, 0) == Bad(f) && pos >= old(pos)
      case Blind => Reading() && Valid() && pos == old(pos)
      case Snapped(_) => true
    }

    /** A step keeps what the request comes to, or ends it so. */
    twostate predicate Fated(r: Progress)
      requires old(Shape()) && old(ridx) >= 0
      reads this, rstack
    {
      old(Fate(config, Counts(rstack[..ridx]), rstack[ridx].tag, Rem()))
      == match r
         case Advanced => if Shape() && ridx >= 0 then Fate(config, Counts(rstack[..ridx]), Unknown, Rem()) else Exact
         case Stuck => Exact
         case Failed(_) => Exact
         case Blind => Blinded
         case Snapped(how) => Broke(how)
    }

    method ProcessLineItem() returns (r: Progress)
      requires Reading() && rstack[ridx].tag.Known? && !IsAggregate(rstack[ridx].tag) && !rstack[ridx].tag.t.TBulk?
      modifies this`pos, this`ridx, this`reply, rstack
      ensures Stepped(r) && Fated(r)
    {
      hide Agree, Holding, SeenLine, After, Counts, Fate, FateAfter;
      ghost var frames, tag, rem := rstack[..ridx], rstack[ridx].tag, Rem();
      FateOfLine(config, Counts(frames), tag.t, rem);
      var t := rstack[ridx].tag.t;
      LineAgrees(rem);
      var line := ReadLine();
      if line.Hidden? {
        return Blind;
      }
      if line.Broken? {
        return Snapped(line.how);
      }
      if line.r.More? {
        AgreeNow(config, frames, tag, rem, pending);
        return Stuck;
      }
      var text := line.r.value;
      var obj;
      match t {
        case TInteger =>
          var v := String2ll(text);
          if v.NotANumber? {
            AgreeNow(config, frames, tag, rem, pending);
            return Failed(BadInteger);
          }
          obj := Integer(v.v);
        case TDouble =>
          if |text| >= 326 || !config.isDouble(text) {
            AgreeNow(config, frames, tag, rem, pending);
            return Failed(if |text| >= 326 then DoubleTooLarge else BadDouble);
          }
          obj := Double(text);
        case TNil => obj := Nil;
        case TBool => obj := Bool(|text| > 0 && (text[0] == 116 || text[0] == 84));
        case TError => obj := Error(text);
        case TStatus => obj := Status(text);
      }
      ItemDone(config, frames, tag, rem, pending);
      MoveToNextTask(obj);
      r := Advanced;
    }

    /** Consumes a bulk string if all of it has arrived, as far as the wrapped length tells. */
    method ReadBulk() returns (r: Seen<Reply>)
      requires pos <= |buf| && ConfigOk(config)
      modifies this`pos
      ensures pos <= |buf| && r == SeenBulk(config, old(Rem()))
      ensures if r.Plain? && r.r.Got? then Rem() == r.r.rest && pos > old(pos) else pos == old(pos)
    {
      hide Sized;
      var s := buf[pos..];
      var k := SeekNewline(s);
      if k == |s| {
        return if LineEnd(s, 0) < |s| then Hidden else Plain(More);
      }
      var n := String2ll(s[..k]);
      if n.NotANumber? {
        return Plain(Bad(BadBulkLength));
      }
      if n.v < -1 {
        return Plain(Bad(BulkLengthRange));
      }
      if n.v == -1 {
        pos := pos + k + 2;
        r := Plain(Got(Nil, buf[pos..]));
      } else {
        r := TakeBulk(k, n.v);
      }
    }

    /** Consumes the `n` bytes of a bulk string behind its length line, if the wrapped length says they have arrived. */
    method TakeBulk(k: nat, n: nat) returns (r: Seen<Reply>)
      requires pos <= |buf| && k + 2 <= |Rem()| && ConfigOk(config)
      modifies this`pos
      ensures pos <= |buf| && r == Sized(config.ulong, old(Rem()), k, n)
      ensures if r.Plain? && r.r.Got? then Rem() == r.r.rest && pos > old(pos) else pos == old(pos)
    {
      hide Left;
      var s := buf[pos..];
      var byteLen := Left(k + 2 + n + 2, config.ulong);
      if pos + byteLen > |buf| {
        return Plain(More);
      }
      if k + 2 + n > |s| {
        return Broken(PastBuffer);
      }
      if byteLen != k + 2 + n + 2 {
        return Broken(PositionLost);
      }
      assert s[byteLen..] == buf[pos + byteLen..];
      pos := pos + byteLen;
      r := Plain(Got(Bulk(s[k + 2..k + 2 + n]), buf[pos..]));
    }

    method ProcessBulkItem() returns (r: Progress)
      requires Reading() && rstack[ridx].tag == Known(TBulk)
      modifies this`pos, this`ridx, this`reply, rstack
      ensures Stepped(r) && Fated(r)
    {
      hide Agree, Holding, SeenBulk, ParseBulk, After, Counts, Fate, FateAfter;
      ghost var frames, rem := rstack[..ridx], Rem();
      FateOfBulk(config, Counts(frames), rem);
      BulkAgrees(config, rem);
      var item := ReadBulk();
      if item.Hidden? {
        return Blind;
      }
      if item.Broken? {
        return Snapped(item.how);
      }
      if item.r.Got? {
        ItemDone(config, frames, Known(TBulk), rem, pending);
        MoveToNextTask(item.r.value);
        r := Advanced;
      } else {
        AgreeNow(config, frames, Known(TBulk), rem, pending);
        r := if item.r.More? then Stuck else Failed(item.r.fault);
      }
    }

    /** Consumes a count line if one is seen; the count is doubled for a map and -1 for a null. */
    method ReadCount(kind: Kind) returns (r: Seen<int>)
      requires pos <= |buf|
      modifies this`pos
      ensures old(pos) <= pos <= |buf| && (r.Hidden? ==> pos == old(pos))
      ensures var seen := SeenLine(old(Rem()));
              && (seen.Hidden? ==> r == Hidden) && (seen.Broken? ==> r == Broken(seen.how))
              && (seen.Plain? ==> r.Plain? && (seen.r.More? ==> r.r.More? && pos == old(pos)))
              && (seen.Plain? && seen.r.Got? ==>
                    var a := Announced(config, kind, seen.r.value);
                    if a.Got? then r.r.Got? && r.r.value == a.value && Rem() == seen.r.rest && pos > old(pos)
                    else r.r.Bad? && r.r.fault == a.fault)
    {
      hide SeenLine;
      LineAgrees(Rem());
      var line := ReadLine();
      if line.Hidden? {
        return Hidden;
      }
      if line.Broken? {
        return Broken(line.how);
      }
      if line.r.More? {
        return Plain(More);
      }
      var n := String2ll(line.r.value);
      if n.NotANumber? {
        return Plain(Bad(BadCount));
      }
      if n.v < -1 {
        return Plain(Bad(CountRange));
      }
      var elements := n.v;
      if elements != -1 && kind == Map {
        elements := elements * 2;
      }
      // the element array is allocated here
      if elements > config.maxElements {
        return Plain(Bad(OutOfMemory));
      }
      r := Plain(Got(elements, []));
    }

    method ProcessAggregateItem(kind: Kind) returns (r: Progress)
      requires Reading() && rstack[ridx].tag == Known(TAggregate(kind))
      modifies this`pos, this`ridx, this`reply, rstack
      ensures Stepped(r) && Fated(r)
    {
      hide Agree, Holding, SeenLine, After, Counts, Announced, Indexed, Fate, FateAfter;
      ghost var frames, rem, tag := rstack[..ridx], Rem(), Known(TAggregate(kind));
      FateOfCount(config, Counts(frames), kind, rem);
      if ridx == 8 {
        AgreeNow(config, frames, tag, rem, pending);
        return Failed(TooDeep);
      }
      LineAgrees(rem);
      var seen := ReadCount(kind);
      if seen.Hidden? {
        return Blind;
      }
      if seen.Broken? {
        return Snapped(seen.how);
      }
      var n := seen.r;
      if !n.Got? {
        AgreeNow(config, frames, tag, rem, pending);
        return if n.More? then Stuck else Failed(n.fault);
      }
      if n.value <= 0 {
        EmptyDone(config, frames, kind, rem, pending);
        MoveToNextTask(if n.value == -1 then Nil else Aggregate(kind, []));
      } else {
        FrameOpened(config, frames, kind, rstack[ridx].idx, rem, pending);
        PushTask(kind, n.value);
        OneMoreCount(frames, rstack[..ridx], n.value);
      }
      r := Advanced;
    }

    /** Turns the current task into an open aggregate and starts a task for its first element. */
    method PushTask(kind: Kind, n: CInt)
      requires n > 0 && Shape() && 0 <= ridx < 8 && Indexed(rstack[..ridx + 1])
      modifies this`ridx, rstack
      ensures Shape() && ridx == old(ridx) + 1 && Indexed(rstack[..ridx + 1])
      ensures rstack[..ridx] == old(rstack[..ridx] + [Task(Known(TAggregate(kind)), n, rstack[ridx].idx, [])])
      ensures rstack[ridx].tag == Unknown
    {
      rstack[ridx] := Task(Known(TAggregate(kind)), n, rstack[ridx].idx, []);
      ridx := ridx + 1;
      rstack[ridx] := Task(Unknown, -1, 0, []);
    }

    /** Reads the type byte if that has not been done, then the item. */
    method ProcessItem() returns (r: Progress)
      requires Reading() && (ridx == 8 ==> !IsAggregate(rstack[8].tag))
      modifies this`pos, this`ridx, this`reply, rstack
      ensures Fated(r) && (!r.Snapped? ==> old(pos) <= pos <= |buf|)
      ensures r.Stuck? ==> Valid() && ridx >= 0 && Parse(config, pending, 0).More?
      ensures r.Blind? ==> Valid() && ridx >= 0
      ensures r.Failed? ==> err.Healthy? && Shape() && Parse(config, pending, 0) == Bad(r.fault)
      ensures r.Advanced? ==> Shape() && pos > old(pos) && err.Healthy?
      ensures r.Advanced? && ridx >= 0 ==> Reading() && rstack[ridx].tag == Unknown
      ensures r.Advanced? && ridx < 0 ==> reply.Answer? && Parse(config, pending, 0) == Got(reply.reply, Rem())
    {
      hide Agree, SeenLine, SeenBulk, After, Counts;
      var tag := rstack[ridx].tag;
      if tag.Unknown? {
        if pos == |buf| {
          AgreeNow(config, rstack[..ridx], Unknown, Rem(), pending);
          return Stuck;
        }
        var t := TypeOf(buf[pos]);
        if t.Bad? {
          AgreeNow(config, rstack[..ridx], Unknown, Rem(), pending);
          return Failed(t.fault);
        }
        TypeRead(t.value);
        tag := Known(t.value);
      }
      hide Fate;
      match tag.t {
        case TBulk => r := ProcessBulkItem();
        case TAggregate(kind) => r := ProcessAggregateItem(kind);
        case _ => r := ProcessLineItem();
      }
    }

    /** Consumes the type byte of the current item. */
    method TypeRead(t: ItemType)
      requires Reading() && rstack[ridx].tag == Unknown && pos < |buf| && TypeOf(buf[pos]) == Got(t, [])
      modifies this`pos, rstack
      ensures Reading() && pos == old(pos) + 1 && rstack[ridx].tag == Known(t)
      ensures Rem() == old(Rem())[1..] && rstack[..ridx] == old(rstack[..ridx])
    {
      hide Agree;
      TypeKnown(config, rstack[..ridx], Rem(), pending);
      ghost var frames := rstack[..ridx];
      assert Rem()[1..] == buf[pos + 1..];
      pos := pos + 1;
      rstack[ridx] := rstack[ridx].(tag := Known(t));
      assert rstack[..ridx] == frames;
    }

    /**
     The next complete reply if there is one; otherwise nothing, unless the pending bytes are malformed. This is
     what the grammar says unless going through the unread bytes gets to an item the reader sees wrong: then
     nothing comes, as if a line had not arrived yet, or the source's state is undefined from here on.
     */
    method GetReply() returns (ok: bool, answer: Answer, how: Manner)
      requires Valid()
      modifies this, rstack
      ensures how == old(NextFate())
      ensures !how.Broke? ==> Valid() && ok == err.Healthy?
      ensures how.Exact? ==> (Abstract(), answer) == Serve(config, old(Abstract()), RespStream.GetReply)
      ensures how.Blinded? ==> Abstract() == old(Abstract()) && err.Healthy? && answer == NoReply
      ensures !how.Broke? ==>
                ((Abstract(), answer) == Serve(config, old(Abstract()), RespStream.GetReply)
                 <==> how.Exact? || Parse(config, old(pending), 0).More?)
      ensures exists k :: 0 <= k <= |old(Rem())| && (!how.Broke? ==> Rem() == old(Rem())[k..])
    {
      hide Agree, Parse, Fate;
      how := Exact;
      if err.Faulted? {
        assert Rem() == old(Rem())[0..];
        return false, NoReply, Exact;
      }
      if |buf| == 0 {
        NothingToRead();
        assert Rem() == old(Rem())[0..];
        return true, NoReply, Exact;
      }
      if ridx == -1 {
        rstack[0] := Task(Unknown, -1, -1, []);
        ridx := 0;
        assert rstack[..0] == [] && Counts(rstack[..0]) == [];
        AgreeAtStart(config, pending);
      }
      ghost var rem := Rem();
      var r := Run();
      if r.Snapped? {
        assert rem[0..] == rem;
        return true, NoReply, Broke(r.how);
      }
      if r.Failed? {
        SetError(r.fault);
        assert Rem() == rem[|rem|..];
        return false, NoReply, Exact;
      }
      if pos >= 1024 {
        DiscardConsumed();
      }
      ok := true;
      if r.Blind? {
        how := Blinded;
      }
      if ridx == -1 {
        answer := reply;
        reply := NoReply;
        pending := buf[pos..];
      } else {
        answer := NoReply;
      }
    }

    /** With an empty buffer there is never a reply. */
    lemma NothingToRead()
      requires Valid() && err.Healthy? && buf == []
      ensures Parse(config, pending, 0).More? && NextFate() == Exact
    {
      if ridx >= 0 {
        AgreeNow(config, rstack[..ridx], rstack[ridx].tag, [], pending);
        EmptyFate(config, Counts(rstack[..ridx]), rstack[ridx].tag);
      } else {
        EmptyFate(config, [], Unknown);
      }
    }

    /** Steps until the reply is complete, the bytes run out, an error turns up or the reader goes wrong. */
    method Run() returns (r: Progress)
      requires Reading() && (ridx == 8 ==> !IsAggregate(rstack[8].tag))
      modifies this`pos, this`ridx, this`reply, rstack
      ensures old(Fate(config, Counts(rstack[..ridx]), rstack[ridx].tag, Rem()))
              == match r case Blind => Blinded case Snapped(how) => Broke(how) case _ => Exact
      ensures !r.Snapped? ==> exists k :: 0 <= k <= |old(Rem())| && pos <= |buf| && Rem() == old(Rem())[k..]
      ensures r.Stuck? ==> Valid() && ridx >= 0 && Parse(config, pending, 0).More?
      ensures r.Blind? ==> Valid() && ridx >= 0
      ensures r.Failed? ==> err.Healthy? && Shape() && Parse(config, pending, 0) == Bad(r.fault)
      ensures r.Advanced? ==> Shape() && ridx == -1 && reply.Answer?
      ensures r.Advanced? ==> Parse(config, pending, 0) == Got(reply.reply, Rem())
    {
      hide Agree, Fate, Counts;
      ghost var fate, start := Fate(config, Counts(rstack[..ridx]), rstack[ridx].tag, Rem()), pos;
      r := Advanced;
      while ridx >= 0 && r.Advanced?
        invariant r.Snapped? || start <= pos <= |buf|
        invariant r.Stuck? ==> Valid() && ridx >= 0 && Parse(config, pending, 0).More?
        invariant r.Blind? ==> Valid() && ridx >= 0
        invariant r.Failed? ==> err.Healthy? && Shape() && Parse(config, pending, 0) == Bad(r.fault)
        invariant r.Advanced? ==> Shape() && err.Healthy?
        invariant r.Advanced? && ridx >= 0 ==> Reading() && (ridx == 8 ==> !IsAggregate(rstack[8].tag))
        invariant r.Advanced? && ridx < 0 ==> reply.Answer? && Parse(config, pending, 0) == Got(reply.reply, Rem())
        invariant fate == match r
                          case Advanced => if Shape() && ridx >= 0 then
                                             Fate(config, Counts(rstack[..ridx]), rstack[ridx].tag, Rem())
                                           else Exact
                          case Blind => Blinded
                          case Snapped(how) => Broke(how)
                          case _ => Exact
        decreases r.Advanced?, |buf| - pos
      {
        r := ProcessItem();
      }
      assert !r.Snapped? ==> Rem() == old(Rem())[pos - start..];
    }

    /** Drops the consumed part of the buffer. */
    method DiscardConsumed()
      requires Shape()
      modifies this`buf, this`pos
      ensures Shape() && pos == 0 && Rem() == old(Rem())
    {
      buf := buf[pos..];
      pos := 0;
    }
  }

  lemma EmptyFate(c: Config, counts: seq<int>, tag: TypeTag)
    requires c.ulong > 0
    ensures Fate(c, counts, tag, []) == Exact
  {
  }

  /** An item done is one element fewer for the innermost aggregate, or closes it when it was the last. */
  lemma AfterMeans(frames: seq<Task>)
    ensures frames == [] ==> After(Counts(frames)) == None
    ensures frames != [] ==>
              var d := |frames| - 1;
              var n := frames[d].elements - |frames[d].got|;
              After(Counts(frames)) == if n > 1 then Some(Counts(frames[..d]) + [n - 1]) else After(Counts(frames[..d]))
  {
    if frames != [] {
      assert Counts(frames)[..|frames| - 1] == Counts(frames[..|frames| - 1]);
    }
  }

  lemma OneFewer(frames: seq<Task>, frames': seq<Task>, v: Reply)
    requires frames != []
    requires var f := frames[|frames| - 1]; frames' == frames[|frames| - 1 := f.(got := f.got + [v])]
    ensures var d := |frames| - 1; Counts(frames') == Counts(frames[..d]) + [frames[d].elements - |frames[d].got| - 1]
  {
  }

  lemma OneMoreCount(frames: seq<Task>, frames': seq<Task>, n: int)
    requires |frames'| == |frames| + 1 && frames'[..|frames|] == frames
    requires frames'[|frames|].elements == n && frames'[|frames|].got == []
    ensures Counts(frames') == Counts(frames) + [n]
  {
    assert forall k :: 0 <= k < |frames| ==> frames'[k] == frames[k];
  }

  predicate IsAggregate(tag: TypeTag) { tag.Known? && tag.t.TAggregate? }

  lemma IndexedTop(tasks: seq<Task>)
    requires Indexed(tasks) && |tasks| > 1
    ensures tasks[|tasks| - 1].idx == |tasks[|tasks| - 2].got| && Indexed(tasks[..|tasks| - 1])
  {
  }

  /** Each task's index counts the elements its parent already has. */
  ghost predicate Indexed(tasks: seq<Task>) {
    forall k :: 0 < k < |tasks| ==> tasks[k].idx == |tasks[k - 1].got|
  }

}
