/**
 The callback protocol as functions on values: what user code does from inside a callback, what a reply does
 and what tearing down does. What a callback does is any function of how many ran before it.
 */
module AsyncMachine {
  import opened AsyncLedger
  import opened Bytes
  import opened Collections

  /** What user code may do to its context from inside a callback. */
  datatype Action = Command(hasFn: bool, len: nat) | Disconnect | Free

  type User = nat -> seq<Action>

  /** The part of a context the protocol is about. */
  datatype Core = Core(log: History, replies: seq<Callback>, issued: nat, obuf: nat,
                       disconnecting: bool, freeing: bool, calls: nat)

  /** The error number of a connection the server turned away. */
  const ERR_OTHER := 2

  predicate Closing(s: Core) { s.disconnecting || s.freeing }

  /** The log says what the fields say. */
  ghost predicate CoreOk(s: Core) {
    && After(s.log).Fine?
    && var m := After(s.log).m;
       m.waiting == s.replies && m.issued == s.issued && m.stopped == Closing(s) && !m.told && !m.ended
  }

  ghost predicate Dropping(s: Core) { After(s.log).Fine? && After(s.log).m.dropping }

  /** The log grew, but nothing was taken off the wire and no callback repeated. */
  ghost predicate NothingTaken(was: History, now: History) {
    Taken(now) == Taken(was) && (Repeats(now) <==> Repeats(was)) && (Unexpected(now) <==> Unexpected(was))
  }

  // ---------- User code ----------

  /** A command is queued unless the context is closing; the other two only mark it. */
  function Act(s: Core, a: Action): (t: Core)
    ensures Closing(s) ==> Closing(t) && t.replies == s.replies && t.issued == s.issued
    ensures (s.disconnecting ==> t.disconnecting) && (s.freeing ==> t.freeing)
    ensures t.issued - |t.replies| == s.issued - |s.replies|
  {
    match a
    case Command(hasFn, len) =>
      if Closing(s) then s
      else var cb := Callback(s.issued, hasFn);
           s.(log := Then(s.log, Issued(cb)), replies := s.replies + [cb], issued := s.issued + 1, obuf := s.obuf + len)
    case Disconnect => s.(disconnecting := true, log := Then(s.log, Stopped))
    case Free => s.(freeing := true, log := Then(s.log, Stopped))
  }

  function ActAll(s: Core, actions: seq<Action>): (t: Core)
    ensures Closing(s) ==> Closing(t) && t.replies == s.replies && t.issued == s.issued
    ensures (s.disconnecting ==> t.disconnecting) && (s.freeing ==> t.freeing)
    ensures t.issued - |t.replies| == s.issued - |s.replies|
  {
    if actions == [] then s else Act(ActAll(s, actions[..|actions| - 1]), actions[|actions| - 1])
  }

  lemma ActOk(s: Core, a: Action)
    requires CoreOk(s)
    ensures CoreOk(Act(s, a)) && NothingTaken(s.log, Act(s, a).log) && Dropping(Act(s, a)) == Dropping(s)
  {
  }

  /** User code keeps the log in step and touches neither the wire nor the order of dropping. */
  lemma {:induction false} ActAllOk(s: Core, actions: seq<Action>)
    requires CoreOk(s)
    ensures var t := ActAll(s, actions); CoreOk(t) && NothingTaken(s.log, t.log) && Dropping(t) == Dropping(s)
  {
    hide CoreOk, Act;
    if actions != [] {
      ActAllOk(s, actions[..|actions| - 1]);
      ActOk(ActAll(s, actions[..|actions| - 1]), actions[|actions| - 1]);
    }
  }

  /** An event, and the function of the callback it concerns, if it has one. */
  function Call(s: Core, user: User, e: Event, cb: Callback): (t: Core)
    ensures Closing(s) ==> Closing(t) && t.replies == s.replies && t.issued == s.issued
    ensures (s.disconnecting ==> t.disconnecting) && (s.freeing ==> t.freeing)
    ensures t.issued - |t.replies| == s.issued - |s.replies|
  {
    var t := s.(log := Then(s.log, e));
    if cb.hasFn then ActAll(t.(calls := t.calls + 1), user(t.calls)) else t
  }

  lemma CallOk(s: Core, user: User, e: Event, cb: Callback)
    requires CoreOk(s.(log := Then(s.log, e)))
    ensures var t := Call(s, user, e, cb);
            CoreOk(t) && NothingTaken(Then(s.log, e), t.log) && Dropping(t) == Dropping(s.(log := Then(s.log, e)))
  {
    var t := s.(log := Then(s.log, e));
    if cb.hasFn {
      ActAllOk(t.(calls := t.calls + 1), user(t.calls));
    }
  }

  predicate AllCommands(actions: seq<Action>) { forall k :: 0 <= k < |actions| ==> actions[k].Command? }

  /** The commands that come before the first request to disconnect or free. */
  function Early(actions: seq<Action>): (r: seq<Action>)
    ensures AllCommands(r)
  {
    if AllCommands(actions) then actions else Early(actions[..|actions| - 1])
  }

  /** The callbacks of these commands, numbered on. */
  function Queued(commands: seq<Action>, issued: nat): (r: seq<Callback>)
    requires AllCommands(commands)
    ensures |r| == |commands|
    ensures forall k :: 0 <= k < |r| ==> r[k] == Callback(issued + k, commands[k].hasFn)
  {
    if commands == [] then []
    else
      var n := |commands| - 1;
      Queued(commands[..n], issued) + [Callback(issued + n, commands[n].hasFn)]
  }

  function Size(commands: seq<Action>): nat
    requires AllCommands(commands)
  {
    if commands == [] then 0 else Size(commands[..|commands| - 1]) + commands[|commands| - 1].len
  }

  /** The queue and the output grow by these commands. */
  ghost predicate Sends(s: Core, t: Core, sent: seq<Action>) {
    && AllCommands(sent) && t.issued == s.issued + |sent| && t.obuf == s.obuf + Size(sent)
    && t.replies == s.replies + Queued(sent, s.issued)
  }

  /** What user code asks for is remembered. */
  lemma {:induction false} ActAllFlags(s: Core, actions: seq<Action>)
    ensures var t := ActAll(s, actions);
            && t.disconnecting == (s.disconnecting || Disconnect in actions)
            && t.freeing == (s.freeing || Free in actions) && t.calls == s.calls
  {
    if actions != [] {
      var before, last := actions[..|actions| - 1], actions[|actions| - 1];
      assert actions == before + [last];
      ActAllFlags(s, before);
    }
  }

  /** Its commands go out, unless or until the context is closing. */
  lemma {:induction false} ActAllSends(s: Core, actions: seq<Action>)
    ensures Sends(s, ActAll(s, actions), if Closing(s) then [] else Early(actions))
  {
    hide Queued, Size, Sends, Act;
    NothingSent(s);
    if actions != [] {
      var before, last := actions[..|actions| - 1], actions[|actions| - 1];
      assert actions == before + [last];
      var u := ActAll(s, before);
      ActAllSends(s, before);
      ActAllFlags(s, before);
      if !Closing(s) && AllCommands(actions) {
        OneMoreSent(s, u, before, last);
      } else {
        NoMoreSent(s, u, last, if Closing(s) then [] else Early(before));
      }
    }
  }

  lemma NoMoreSent(s: Core, u: Core, last: Action, sent: seq<Action>)
    requires Sends(s, u, sent) && (last.Command? ==> Closing(u))
    ensures Sends(s, Act(u, last), sent)
  {
    hide Queued, Size;
  }

  lemma NothingSent(s: Core)
    ensures Sends(s, s, [])
  {
  }

  lemma OneMoreSent(s: Core, u: Core, sent: seq<Action>, last: Action)
    requires Sends(s, u, sent) && last.Command? && !Closing(u)
    ensures Sends(s, Act(u, last), sent + [last])
  {
    assert (sent + [last])[..|sent|] == sent;
    ConcatAssoc(s.replies, Queued(sent, s.issued), [Callback(u.issued, last.hasFn)]);
  }

  /** A callback with a function runs it, once; one without only leaves the queue. */
  lemma CallRuns(s: Core, user: User, e: Event, cb: Callback)
    ensures var t, was := Call(s, user, e, cb), s.(log := Then(s.log, e));
            if !cb.hasFn then t == was
            else
              && t.calls == s.calls + 1
              && t.disconnecting == (s.disconnecting || Disconnect in user(s.calls))
              && t.freeing == (s.freeing || Free in user(s.calls))
              && Sends(s, t, if Closing(s) then [] else Early(user(s.calls)))
  {
    if cb.hasFn {
      var t := s.(log := Then(s.log, e), calls := s.calls + 1);
      ActAllFlags(t, user(s.calls));
      ActAllSends(t, user(s.calls));
    }
  }

  // ---------- Tearing down ----------

  /** Every waiting callback is told that there will be no reply; what it does then can add none. */
  function DropAll(s: Core, user: User): (t: Core)
    ensures Closing(s) ==> t.replies == [] && Closing(t)
    ensures (s.disconnecting ==> t.disconnecting) && (s.freeing ==> t.freeing)
    decreases |s.replies|
  {
    if s.replies == [] || !Closing(s) then s
    else DropAll(Call(s.(replies := s.replies[1..]), user, Dropped(s.replies[0]), s.replies[0]), user)
  }

  /** Perhaps the disconnect callback, then destruction. */
  function Farewell(h: History, tell: bool, ok: bool): History {
    Then(if tell then Then(h, Told(ok)) else h, Destroyed)
  }

  /** Drops all callbacks, tells the disconnect callback if there is one to tell, and destroys the context. */
  function Destroy(s: Core, user: User, tell: bool, err: nat): (t: Core)
    ensures s.freeing ==> t.freeing
  {
    var t := DropAll(s, user);
    t.(log := Farewell(t.log, tell, t.freeing || err == 0))
  }

  /** Closes with an error or, none being left to wait, without one. */
  function Close(s: Core, user: User, tell: bool, err: nat): Core {
    Destroy(if err == 0 then s else Act(s, Disconnect), user, tell, err)
  }

  lemma {:induction false} DropAllOk(s: Core, user: User)
    requires CoreOk(s) && Closing(s)
    ensures var t := DropAll(s, user); CoreOk(t) && t.replies == [] && NothingTaken(s.log, t.log)
    decreases |s.replies|
  {
    if s.replies != [] {
      var cb, rest := s.replies[0], s.(replies := s.replies[1..]);
      CallOk(rest, user, Dropped(cb), cb);
      DropAllOk(Call(rest, user, Dropped(cb), cb), user);
    }
  }

  /** A destroyed context has an accepted history in which everything is settled. */
  ghost predicate Over(s: Core) { After(s.log).Fine? && After(s.log).m.ended }

  lemma DestroyOk(s: Core, user: User, tell: bool, err: nat)
    requires CoreOk(s) && Closing(s)
    ensures var t := Destroy(s, user, tell, err); Over(t) && NothingTaken(s.log, t.log)
  {
    DropAllOk(s, user);
  }

  /** The disconnect callback is told last, that all is well if there was no error or the context was being freed. */
  lemma DestroyTells(s: Core, user: User, tell: bool, err: nat)
    requires CoreOk(s) && Closing(s)
    ensures var t := Destroy(s, user, tell, err); Farewelled(t.log, tell, t.freeing || err == 0)
  {
    DropAllOk(s, user);
    MonitorMeans(DropAll(s, user).log);
  }

  lemma CloseOk(s: Core, user: User, tell: bool, err: nat)
    requires CoreOk(s) && (err == 0 ==> Closing(s))
    ensures var t := Close(s, user, tell, err); Over(t) && NothingTaken(s.log, t.log)
  {
    DestroyOk(if err == 0 then s else Act(s, Disconnect), user, tell, err);
  }

  /** A clean disconnect finds nobody to drop. */
  lemma CleanClose(s: Core, user: User, tell: bool)
    requires s.replies == []
    ensures Close(s, user, tell, 0) == s.(log := Farewell(s.log, tell, true))
  {
  }

  // ---------- Serving replies ----------

  /**
   A reply goes to the first waiting callback. With none waiting, and assertions compiled out, the callback
   served last gets it.
   */
  function Deliver(s: Core, user: User, last: Option<Callback>, reply: Reply): (r: (Core, Option<Callback>))
    ensures s.freeing ==> r.0.freeing
    ensures s.disconnecting ==> r.0.disconnecting
  {
    if s.replies != [] then
      (Call(s.(replies := s.replies[1..]), user, Answered(s.replies[0], reply), s.replies[0]), Some(s.replies[0]))
    else
      var t := s.(log := Then(s.log, Unasked(reply)));
      (if last.Some? && last.value.hasFn then Call(t, user, Again(last.value, reply), last.value) else t, last)
  }

  /** The callback served last, if any, is the last one that left the queue. */
  ghost predicate IsLast(s: Core, last: Option<Callback>) { last.Some? ==> last.value.id + 1 == s.issued - |s.replies| }

  /** With nobody waiting, the callback served last may be handed an unasked reply. */
  lemma AgainOk(s: Core, last: Callback, reply: Reply)
    requires CoreOk(s) && !Dropping(s) && s.replies == [] && last.id + 1 == s.issued
    ensures CoreOk(s.(log := Then(s.log, Unasked(reply))))
    ensures CoreOk(s.(log := Then(Then(s.log, Unasked(reply)), Again(last, reply))))
  {
    assert After(Then(s.log, Unasked(reply))) == Fine(After(s.log).m.(unasked := true));
  }

  lemma DeliverOk(s: Core, user: User, last: Option<Callback>, reply: Reply)
    requires CoreOk(s) && !Dropping(s) && IsLast(s, last)
    ensures var (t, cb) := Deliver(s, user, last, reply);
            && CoreOk(t) && !Dropping(t) && IsLast(t, cb) && Taken(t.log) == Taken(s.log) + [reply]
            && (Repeats(t.log) <==> Repeats(s.log) || (s.replies == [] && last.Some? && last.value.hasFn))
  {
    hide Taken;
    AlwaysInLine(s.log);
    if s.replies != [] {
      var cb, rest := s.replies[0], s.(replies := s.replies[1..]);
      TakenThen(s.log, Answered(cb, reply));
      CallOk(rest, user, Answered(cb, reply), cb);
    } else {
      var t := s.(log := Then(s.log, Unasked(reply)));
      TakenThen(s.log, Unasked(reply));
      if last.Some? && last.value.hasFn {
        TakenThen(t.log, Again(last.value, reply));
        CallOk(t, user, Again(last.value, reply), last.value);
      }
    }
  }

  lemma TakenThen(h: History, e: Event)
    ensures Taken(Then(h, e)) == if e.Answered? || e.Unasked? then Taken(h) + [e.reply] else Taken(h)
  {
  }

  /** How an event leaves the context: open, destroyed with this error, or stopped by a failed assertion. */
  datatype Outcome = Open(s: Core) | Gone(s: Core, err: nat) | Failed(s: Core)

  /**
   Serving the replies of a batch from number `i` on: the outcome of reading `batch` when the parser then
   fails with `readerErr`, or needs more bytes if that is 0.
   */
  function Process(s: Core, user: User, asserts: bool, tell: bool, err: nat, last: Option<Callback>,
                   batch: seq<Reply>, i: nat, readerErr: nat): Outcome
    requires i <= |batch|
    decreases |batch| - i
  {
    if i == |batch| then
      if readerErr != 0 then Gone(Close(s, user, tell, readerErr), readerErr)
      else if s.disconnecting && s.obuf == 0 && s.replies == [] then Gone(Close(s, user, tell, err), err)
      else Open(s)
    else if s.replies == [] && batch[i].isError then
      Gone(Close(s.(log := Then(s.log, Unasked(batch[i]))), user, tell, ERR_OTHER), ERR_OTHER)
    else if s.replies == [] && asserts then
      Failed(s.(log := Then(s.log, Unasked(batch[i]))))
    else
      var (t, cb) := Deliver(s, user, last, batch[i]);
      if t.freeing then Gone(Destroy(t, user, tell, 0), err)
      else Process(t, user, asserts, tell, err, cb, batch, i + 1, readerErr)
  }

  /** A context between events. */
  ghost predicate Ready(s: Core) { CoreOk(s) && !s.freeing && !Dropping(s) }

  /** An open context is between events, a destroyed one has settled everything, a stopped one was not destroyed. */
  ghost predicate Ended(o: Outcome) {
    match o
    case Open(s) => Ready(s)
    case Gone(s, _) => Over(s)
    case Failed(s) => After(s.log).Fine? && !After(s.log).m.ended
  }

  /**
   The history is still accepted, took the batch off the wire up to some reply, and all of it if the context
   stays open, and with assertions repeated nobody.
   */
  ghost predicate Served(was: Core, o: Outcome, batch: seq<Reply>, i: nat, asserts: bool)
    requires i <= |batch|
  {
    && Ended(o)
    && (exists n :: i <= n <= |batch| && (o.Open? ==> n == |batch|) && Taken(o.s.log) == Taken(was.log) + batch[i..n])
    && (asserts ==> (Repeats(o.s.log) <==> Repeats(was.log)))
  }

  lemma ServedAt(was: Core, o: Outcome, batch: seq<Reply>, i: nat, n: nat, asserts: bool)
    requires i <= n <= |batch| && (o.Open? ==> n == |batch|) && Taken(o.s.log) == Taken(was.log) + batch[i..n]
    requires Ended(o)
    requires asserts ==> (Repeats(o.s.log) <==> Repeats(was.log))
    ensures Served(was, o, batch, i, asserts)
  {
  }

  lemma {:induction false} ProcessOk(s: Core, user: User, asserts: bool, tell: bool, err: nat, last: Option<Callback>,
                                     batch: seq<Reply>, i: nat, readerErr: nat)
    requires Ready(s) && IsLast(s, last) && i <= |batch|
    ensures Served(s, Process(s, user, asserts, tell, err, last, batch, i, readerErr), batch, i, asserts)
    decreases |batch| - i
  {
    hide Taken, Repeats, Deliver, Close, Destroy, IsLast, Served;
    var o := Process(s, user, asserts, tell, err, last, batch, i, readerErr);
    if i == |batch| {
      assert batch[i..i] == [] && Taken(s.log) + [] == Taken(s.log);
      if readerErr != 0 {
        CloseOk(s, user, tell, readerErr);
      } else if s.disconnecting && s.obuf == 0 && s.replies == [] {
        CloseOk(s, user, tell, err);
      }
      ServedAt(s, o, batch, i, i, asserts);
    } else {
      assert batch[i..i + 1] == [batch[i]];
      if s.replies == [] && (batch[i].isError || asserts) {
        UnaskedOk(s, user, tell, batch[i]);
        ServedAt(s, o, batch, i, i + 1, asserts);
      } else {
        DeliverOk(s, user, last, batch[i]);
        var (t, cb) := Deliver(s, user, last, batch[i]);
        if t.freeing {
          DestroyOk(t, user, tell, 0);
          ServedAt(s, o, batch, i, i + 1, asserts);
        } else {
          ProcessOk(t, user, asserts, tell, err, cb, batch, i + 1, readerErr);
          ServedMore(s, t, o, batch, i, asserts);
        }
      }
    }
  }

  /** After a batch that the parser read to its end the context is not left open with nothing more to wait for. */
  ghost predicate Pursues(s: Core, o: Outcome, readerErr: nat) {
    o.Open? ==> readerErr == 0 && (s.disconnecting ==> o.s.disconnecting)
                && !(o.s.disconnecting && o.s.obuf == 0 && o.s.replies == [])
  }

  /** Without errors, and unless freed, a context is only destroyed with every command sent and answered. */
  ghost predicate Patient(o: Outcome) {
    o.Gone? && !Unexpected(o.s.log) ==>
      (o.s.freeing || o.err == 0) && (!o.s.freeing ==> !Lost(o.s.log) && o.s.obuf == 0)
  }

  lemma {:induction false} ProcessPursues(s: Core, user: User, asserts: bool, tell: bool, err: nat,
                                          last: Option<Callback>, batch: seq<Reply>, i: nat, readerErr: nat)
    requires Ready(s) && IsLast(s, last) && i <= |batch|
    ensures Pursues(s, Process(s, user, asserts, tell, err, last, batch, i, readerErr), readerErr)
    ensures readerErr == err == 0 ==> Patient(Process(s, user, asserts, tell, err, last, batch, i, readerErr))
    decreases |batch| - i
  {
    hide Deliver, Close, Destroy, IsLast, Ready, Unexpected, Lost;
    if i == |batch| {
      if readerErr == 0 && s.disconnecting && s.obuf == 0 && s.replies == [] {
        CleanPatient(s, user, tell);
      }
    } else if s.replies == [] && batch[i].isError {
      UnaskedOk(s, user, tell, batch[i]);
      UnaskedShows(s.log, batch[i]);
    } else if !(s.replies == [] && asserts) {
      DeliverReady(s, user, last, batch[i]);
      var (t, cb) := Deliver(s, user, last, batch[i]);
      if t.freeing {
        FreeingStays(t, user, tell);
      } else {
        ProcessPursues(t, user, asserts, tell, err, cb, batch, i + 1, readerErr);
      }
    }
  }

  lemma UnaskedShows(h: History, reply: Reply)
    ensures Unexpected(Then(h, Unasked(reply)))
  {
  }

  lemma DeliverReady(s: Core, user: User, last: Option<Callback>, reply: Reply)
    requires Ready(s) && IsLast(s, last)
    ensures var (t, cb) := Deliver(s, user, last, reply);
            IsLast(t, cb) && (!t.freeing ==> Ready(t)) && (s.disconnecting ==> t.disconnecting)
  {
    hide Deliver, CoreOk;
    DeliverOk(s, user, last, reply);
  }

  lemma FreeingStays(t: Core, user: User, tell: bool)
    requires t.freeing
    ensures Destroy(t, user, tell, 0).freeing
  {
  }

  lemma CleanPatient(s: Core, user: User, tell: bool)
    requires Ready(s) && s.replies == []
    ensures !Lost(Close(s, user, tell, 0).log) && Close(s, user, tell, 0).obuf == s.obuf
  {
    CleanClose(s, user, tell);
    MonitorMeans(s.log);
  }

  lemma UnaskedOk(s: Core, user: User, tell: bool, reply: Reply)
    requires Ready(s) && s.replies == []
    ensures var t := s.(log := Then(s.log, Unasked(reply)));
            && After(t.log).Fine? && !After(t.log).m.ended
            && Taken(t.log) == Taken(s.log) + [reply] && (Repeats(t.log) <==> Repeats(s.log))
            && Over(Close(t, user, tell, ERR_OTHER)) && NothingTaken(t.log, Close(t, user, tell, ERR_OTHER).log)
  {
    CloseOk(s.(log := Then(s.log, Unasked(reply))), user, tell, ERR_OTHER);
  }

  lemma ServedMore(s: Core, t: Core, o: Outcome, batch: seq<Reply>, i: nat, asserts: bool)
    requires i < |batch| && Served(t, o, batch, i + 1, asserts) && Taken(t.log) == Taken(s.log) + [batch[i]]
    requires asserts ==> (Repeats(t.log) <==> Repeats(s.log))
    ensures Served(s, o, batch, i, asserts)
  {
    hide Taken, Repeats, Ready, Over;
    var n :| i + 1 <= n <= |batch| && (o.Open? ==> n == |batch|) && Taken(o.s.log) == Taken(t.log) + batch[i + 1..n];
    assert batch[i..n] == [batch[i]] + batch[i + 1..n];
    ConcatAssoc(Taken(s.log), [batch[i]], batch[i + 1..n]);
  }

  /**
   With assertions compiled out, a second reply to one command reaches that command's callback again, if its
   function leaves the context alone.
   */
  lemma ServedAgain(user: User, first: Reply, second: Reply)
    requires !second.isError && forall k :: user(k) == []
    ensures var cb := Callback(0, true);
            var s := Core(Then(Start, Issued(cb)), [cb], 1, 1, false, false, 0);
            var o := Process(s, user, false, false, 0, None, [first, second], 0, 0);
            o.Open? && After(o.s.log).Fine? && Handed(o.s.log, 0) == 2
  {
    var cb := Callback(0, true);
    var s, batch := Core(Then(Start, Issued(cb)), [cb], 1, 1, false, false, 0), [first, second];
    var (s1, _) := Deliver(s, user, None, first);
    assert s1 == Core(Then(s.log, Answered(cb, first)), [], 1, 1, false, false, 1);
    var (s2, _) := Deliver(s1, user, Some(cb), second);
    assert s2 == Core(Then(Then(s1.log, Unasked(second)), Again(cb, second)), [], 1, 1, false, false, 2);
    assert Process(s2, user, false, false, 0, Some(cb), batch, 2, 0) == Open(s2);
    assert Process(s1, user, false, false, 0, Some(cb), batch, 1, 0) == Open(s2);
    assert After(s.log) == Fine(Monitor(1, [cb], false, false, false, false, false));
    assert After(s1.log) == Fine(Monitor(1, [], false, false, false, false, false));
    assert After(Then(s1.log, Unasked(second))) == Fine(Monitor(1, [], false, false, true, false, false));
    assert Handed(s1.log, 0) == 1;
  }
}
