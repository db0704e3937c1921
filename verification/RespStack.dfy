/**
 The reader's explicit task stack as a value: what a stack of half-read aggregates together with the
 unread bytes amounts to, and how each reader step changes the stack without changing that.
 */
module RespStack {
  import opened Bytes
  import opened RespGrammar

  /** The `int` in which a task keeps its counts. */
  type CInt = i: int | -0x8000_0000 <= i <= 0x7fff_ffff

  datatype TypeTag = Unknown | Known(t: ItemType)

  /** A read task; `got` holds the elements read so far of an aggregate. */
  datatype Task = Task(tag: TypeTag, elements: CInt, idx: CInt, got: seq<Reply>)

  /** An aggregate that still lacks elements. */
  predicate IsFrame(f: Task) {
    f.tag.Known? && f.tag.t.TAggregate? && |f.got| < f.elements
  }

  predicate AreFrames(frames: seq<Task>) {
    forall k :: 0 <= k < |frames| ==> IsFrame(frames[k])
  }

  ghost function Item(c: Config, tag: TypeTag, s: seq<byte>, d: nat): Parsed<Reply> {
    if tag.Known? then ParseBody(c, tag.t, s, d) else Parse(c, s, d)
  }

  /** Completes the aggregates on the stack, innermost last, once the current item has come out as `r`. */
  ghost function Finish(c: Config, frames: seq<Task>, r: Parsed<Reply>): (r': Parsed<Reply>)
    requires AreFrames(frames)
    decreases |frames|
  {
    if frames == [] || !r.Got? then r
    else
      var d, f := |frames|, frames[|frames| - 1];
      match ParseN(c, r.rest, d, f.elements - |f.got| - 1)
      case More => More
      case Bad(e) => Bad(e)
      case Got(vs, rest) => Finish(c, frames[..d - 1], Got(Aggregate(f.tag.t.kind, f.got + [r.value] + vs), rest))
  }

  /** Everything the reader will make of `s` in its present state. */
  ghost function Resume(c: Config, frames: seq<Task>, tag: TypeTag, s: seq<byte>): Parsed<Reply>
    requires AreFrames(frames)
  {
    Finish(c, frames, Item(c, tag, s, |frames|))
  }

  /** The last element of the innermost aggregate: the aggregate itself is done. */
  lemma CloseFrame(c: Config, frames: seq<Task>, v: Reply, rest: seq<byte>)
    requires AreFrames(frames) && frames != []
    requires var f := frames[|frames| - 1]; |f.got| == f.elements - 1
    ensures var f := frames[|frames| - 1];
            Finish(c, frames, Got(v, rest))
              == Finish(c, frames[..|frames| - 1], Got(Aggregate(f.tag.t.kind, f.got + [v]), rest))
  {
    var f := frames[|frames| - 1];
    assert f.got + [v] + [] == f.got + [v];
  }

  /** Any other element: it joins the aggregate and the next item begins. */
  lemma NextElement(c: Config, frames: seq<Task>, v: Reply, rest: seq<byte>)
    requires AreFrames(frames) && frames != []
    requires var f := frames[|frames| - 1]; |f.got| < f.elements - 1
    ensures var f := frames[|frames| - 1];
            var frames' := frames[|frames| - 1 := f.(got := f.got + [v])];
            AreFrames(frames') && Finish(c, frames, Got(v, rest)) == Resume(c, frames', Unknown, rest)
  {
    var d, f := |frames|, frames[|frames| - 1];
    var f' := f.(got := f.got + [v]);
    var frames' := frames[d - 1 := f'];
    assert frames'[..d - 1] == frames[..d - 1];
    var next := Parse(c, rest, d);
    if next.Got? {
      var vs := ParseN(c, next.rest, d, f.elements - |f.got| - 2);
      if vs.Got? {
        assert f.got + [v] + ([next.value] + vs.value) == f'.got + [next.value] + vs.value;
      }
    }
  }

  /** The count line of a non-empty aggregate: the aggregate goes on the stack. */
  lemma OpenFrame(c: Config, frames: seq<Task>, kind: Kind, n: CInt, idx: CInt, rest: seq<byte>)
    requires AreFrames(frames) && n > 0
    ensures var frames' := frames + [Task(Known(TAggregate(kind)), n, idx, [])];
            var many := ParseN(c, rest, |frames| + 1, n);
            && AreFrames(frames')
            && Finish(c, frames, if many.Got? then Got(Aggregate(kind, many.value), many.rest)
                                 else if many.Bad? then Bad(many.fault) else More)
               == Resume(c, frames', Unknown, rest)
  {
    var d, f := |frames|, Task(Known(TAggregate(kind)), n, idx, []);
    var frames' := frames + [f];
    assert frames'[..d] == frames && frames'[d] == f;
    var first := Parse(c, rest, d + 1);
    if first.Got? {
      var vs := ParseN(c, first.rest, d + 1, n - 1);
      if vs.Got? {
        assert [] + [first.value] + vs.value == [first.value] + vs.value;
      }
    }
  }

  // ---------- The stack state against the bytes of the current reply ----------

  /**
   `pending` holds every byte received since the last complete reply, `rem` those not yet consumed:
   whatever bytes follow, resuming from the stack is parsing from the start.
   */
  ghost predicate Agree(c: Config, frames: seq<Task>, tag: TypeTag, rem: seq<byte>, pending: seq<byte>) {
    AreFrames(frames) && forall t :: Resume(c, frames, tag, rem + t) == Parse(c, pending + t, 0)
  }

  /** The same just after the current item has come out as `v`. */
  ghost predicate Holding(c: Config, frames: seq<Task>, v: Reply, rem: seq<byte>, pending: seq<byte>) {
    AreFrames(frames) && forall t :: Finish(c, frames, Got(v, rem + t)) == Parse(c, pending + t, 0)
  }

  lemma HoldingFrames(c: Config, frames: seq<Task>, v: Reply, rem: seq<byte>, pending: seq<byte>)
    requires Holding(c, frames, v, rem, pending)
    ensures AreFrames(frames)
  {
  }

  lemma AgreeAtStart(c: Config, rem: seq<byte>)
    ensures Agree(c, [], Unknown, rem, rem)
  {
  }

  /** More bytes arriving change nothing. */
  lemma AgreeFed(c: Config, frames: seq<Task>, tag: TypeTag, rem: seq<byte>, pending: seq<byte>, chunk: seq<byte>)
    requires Agree(c, frames, tag, rem, pending)
    ensures Agree(c, frames, tag, rem + chunk, pending + chunk)
  {
    forall t
      ensures Resume(c, frames, tag, rem + chunk + t) == Parse(c, pending + chunk + t, 0)
    {
      ConcatAssoc(rem, chunk, t);
      ConcatAssoc(pending, chunk, t);
      assert Resume(c, frames, tag, rem + (chunk + t)) == Parse(c, pending + (chunk + t), 0);
    }
  }

  /** When the current item is undecided or wrong, so is the reply. */
  lemma AgreeNow(c: Config, frames: seq<Task>, tag: TypeTag, rem: seq<byte>, pending: seq<byte>)
    requires Agree(c, frames, tag, rem, pending) && !Item(c, tag, rem, |frames|).Got?
    ensures Parse(c, pending, 0) == Item(c, tag, rem, |frames|)
  {
    assert rem + [] == rem && pending + [] == pending;
    assert Resume(c, frames, tag, rem + []) == Parse(c, pending + [], 0);
  }

  lemma ItemStable(c: Config, tag: TypeTag, s: seq<byte>, d: nat, t: seq<byte>)
    requires !Item(c, tag, s, d).More?
    ensures Item(c, tag, s + t, d) == Extend(Item(c, tag, s, d), t)
  {
    if tag.Known? {
      BodyStable(c, tag.t, s, d, t);
    } else {
      ParseStable(c, s, d, t);
    }
  }

  lemma ItemDone(c: Config, frames: seq<Task>, tag: TypeTag, rem: seq<byte>, pending: seq<byte>)
    requires Agree(c, frames, tag, rem, pending) && Item(c, tag, rem, |frames|).Got?
    ensures var r := Item(c, tag, rem, |frames|); Holding(c, frames, r.value, r.rest, pending)
  {
    var r := Item(c, tag, rem, |frames|);
    forall t
      ensures Finish(c, frames, Got(r.value, r.rest + t)) == Parse(c, pending + t, 0)
    {
      ItemStable(c, tag, rem, |frames|, t);
      assert Resume(c, frames, tag, rem + t) == Parse(c, pending + t, 0);
    }
  }

  lemma TypeKnown(c: Config, frames: seq<Task>, rem: seq<byte>, pending: seq<byte>)
    requires Agree(c, frames, Unknown, rem, pending) && rem != [] && TypeOf(rem[0]).Got?
    ensures Agree(c, frames, Known(TypeOf(rem[0]).value), rem[1..], pending)
  {
    forall t
      ensures Resume(c, frames, Known(TypeOf(rem[0]).value), rem[1..] + t) == Parse(c, pending + t, 0)
    {
      assert (rem + t)[1..] == rem[1..] + t;
      assert Resume(c, frames, Unknown, rem + t) == Parse(c, pending + t, 0);
    }
  }

  /** A null or empty aggregate is done with its count line. */
  lemma EmptyDone(c: Config, frames: seq<Task>, kind: Kind, rem: seq<byte>, pending: seq<byte>)
    requires Agree(c, frames, Known(TAggregate(kind)), rem, pending) && |frames| < MAX_DEPTH
    requires Line(rem).Got? && Announced(c, kind, Line(rem).value).Got?
    requires Announced(c, kind, Line(rem).value).value <= 0
    ensures var v := if Announced(c, kind, Line(rem).value).value == -1 then Nil else Aggregate(kind, []);
            Holding(c, frames, v, Line(rem).rest, pending)
  {
    assert ParseN(c, Line(rem).rest, |frames| + 1, 0) == Got([], Line(rem).rest);
    ItemDone(c, frames, Known(TAggregate(kind)), rem, pending);
  }

  lemma FrameOpened(c: Config, frames: seq<Task>, kind: Kind, idx: CInt, rem: seq<byte>, pending: seq<byte>)
    requires ConfigOk(c)
    requires Agree(c, frames, Known(TAggregate(kind)), rem, pending) && |frames| < MAX_DEPTH
    requires Line(rem).Got? && Announced(c, kind, Line(rem).value).Got? && Announced(c, kind, Line(rem).value).value > 0
    ensures var n := Announced(c, kind, Line(rem).value).value;
            Agree(c, frames + [Task(Known(TAggregate(kind)), n, idx, [])], Unknown, Line(rem).rest, pending)
  {
    var n := Announced(c, kind, Line(rem).value).value;
    var frames' := frames + [Task(Known(TAggregate(kind)), n, idx, [])];
    OpenFrame(c, frames, kind, n, idx, []);
    forall t
      ensures Resume(c, frames', Unknown, Line(rem).rest + t) == Parse(c, pending + t, 0)
    {
      LineStable(rem, t);
      OpenFrame(c, frames, kind, n, idx, Line(rem).rest + t);
      assert Resume(c, frames, Known(TAggregate(kind)), rem + t) == Parse(c, pending + t, 0);
    }
  }

  lemma FrameClosed(c: Config, frames: seq<Task>, v: Reply, rem: seq<byte>, pending: seq<byte>)
    requires Holding(c, frames, v, rem, pending) && frames != []
    requires var f := frames[|frames| - 1]; |f.got| == f.elements - 1
    ensures var f := frames[|frames| - 1];
            f.tag.Known? && f.tag.t.TAggregate?
            && Holding(c, frames[..|frames| - 1], Aggregate(f.tag.t.kind, f.got + [v]), rem, pending)
  {
    var f := frames[|frames| - 1];
    forall t
      ensures Finish(c, frames[..|frames| - 1], Got(Aggregate(f.tag.t.kind, f.got + [v]), rem + t))
              == Parse(c, pending + t, 0)
    {
      CloseFrame(c, frames, v, rem + t);
      assert Finish(c, frames, Got(v, rem + t)) == Parse(c, pending + t, 0);
    }
  }

  lemma ElementAdded(c: Config, frames: seq<Task>, v: Reply, rem: seq<byte>, pending: seq<byte>)
    requires Holding(c, frames, v, rem, pending) && frames != []
    requires var f := frames[|frames| - 1]; |f.got| < f.elements - 1
    ensures var f := frames[|frames| - 1];
            Agree(c, frames[|frames| - 1 := f.(got := f.got + [v])], Unknown, rem, pending)
  {
    var f := frames[|frames| - 1];
    var frames' := frames[|frames| - 1 := f.(got := f.got + [v])];
    forall t
      ensures AreFrames(frames') && Resume(c, frames', Unknown, rem + t) == Parse(c, pending + t, 0)
    {
      NextElement(c, frames, v, rem + t);
      assert Finish(c, frames, Got(v, rem + t)) == Parse(c, pending + t, 0);
    }
    NextElement(c, frames, v, rem);
  }

  /** With the stack empty the reply is complete. */
  lemma ReplyComplete(c: Config, v: Reply, rem: seq<byte>, pending: seq<byte>)
    requires Holding(c, [], v, rem, pending)
    ensures Parse(c, pending, 0) == Got(v, rem)
  {
    assert rem + [] == rem && pending + [] == pending;
    assert Finish(c, [], Got(v, rem + [])) == Parse(c, pending + [], 0);
  }
}
