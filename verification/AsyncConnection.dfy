/** The asynchronous context and its re-entrant operations, proved against the machine of `AsyncMachine`. */
module AsyncConnection {
  import opened AsyncLedger
  import opened AsyncMachine
  import opened Collections

  /** How a pending connection attempt stands; a failure leaves its error number. */
  datatype Attempt = Pending | Established | Failed(err: nat)

  class AsyncContext {
    const user: User
    const asserts: bool
    var connected: bool
    var disconnecting: bool
    var freeing: bool
    var inCallback: bool
    var err: nat
    var acErr: nat
    var onDisconnect: bool
    var obuf: nat
    var replies: seq<Callback>
    var issued: nat
    var calls: nat
    var freed: bool
    var aborted: bool
    ghost var log: History

    ghost function State(): Core
      reads this
    {
      Core(log, replies, issued, obuf, disconnecting, freeing, calls)
    }

    /** Neither destroyed nor stopped by a failed assertion, and the log says what the fields say. */
    ghost predicate Live()
      reads this
    {
      !freed && !aborted && CoreOk(State())
    }

    /** Between events: not in a callback, nothing half torn down. */
    ghost predicate Idle()
      reads this
    {
      Live() && !inCallback && AsyncMachine.Ready(State())
    }

    /** Destroyed, with an accepted history; the disconnect callback was told last how it ended. */
    ghost predicate Destroyed()
      reads this
    {
      freed && !aborted && Over(State()) && Farewelled(log, Tells(), freeing || acErr == 0)
    }

    /** Nothing is left to wait for. */
    predicate Finished()
      reads this
    {
      disconnecting && obuf == 0 && replies == []
    }

    /** Stopped by a failed assertion, with an accepted history so far. */
    ghost predicate Crashed()
      reads this
    {
      aborted && !freed && asserts && log.Then? && log.event.Unasked? && !log.event.reply.isError && After(log).Fine?
        && !After(log).m.ended
    }

    /** Is there a disconnect callback to tell? */
    predicate Tells()
      reads this
    {
      onDisconnect && connected
    }

    /** The parts no callback touches. */
    twostate predicate SameRest()
      reads this
    {
      && connected == old(connected) && inCallback == old(inCallback) && err == old(err) && acErr == old(acErr)
      && onDisconnect == old(onDisconnect) && freed == old(freed) && aborted == old(aborted)
    }

    constructor (user: User, asserts: bool, err: nat)
      ensures Idle() && State() == Core(Start, [], 0, 0, false, false, 0) && this.err == err && this.user == user
      ensures this.asserts == asserts
      ensures !connected && !onDisconnect
    {
      this.user, this.asserts, this.err, acErr := user, asserts, err, err;
      connected, disconnecting, freeing, inCallback, onDisconnect, freed, aborted :=
        false, false, false, false, false, false, false;
      obuf, replies, issued, calls, log := 0, [], 0, 0, Start;
    }

    method SetDisconnectCallback() returns (ok: bool)
      modifies this`onDisconnect
      ensures ok == !old(onDisconnect) && onDisconnect
    {
      ok := !onDisconnect;
      onDisconnect := true;
    }

    // ---------- What user code calls ----------

    /** Issues a regular command, unless the connection is about to be closed. */
    method AsyncCommand(hasFn: bool, len: nat) returns (ok: bool)
      requires Live()
      modifies this`replies, this`obuf, this`issued, this`log
      ensures ok == !Closing(State()) && State() == Act(old(State()), Command(hasFn, len))
      ensures Live() && SameRest() && After(log).m.dropping == old(After(log).m.dropping)
      ensures ok ==> obuf == old(obuf) + len && replies == old(replies) + [Callback(old(issued), hasFn)]
      ensures !ok ==> obuf == old(obuf) && replies == old(replies)
    {
      if disconnecting || freeing {
        return false;
      }
      var cb := Callback(issued, hasFn);
      replies, issued, obuf := replies + [cb], issued + 1, obuf + len;
      log := Then(log, Issued(cb));
      return true;
    }

    /** Frees at once, or leaves it to the event that is running the callback. */
    method AsyncFree()
      requires Live() && (!inCallback ==> Idle())
      modifies this
      ensures freeing && replies == (if old(inCallback) then old(replies) else [])
      ensures old(inCallback) ==> State() == Act(old(State()), Free) && SameRest() && Live()
      ensures !old(inCallback) ==> Destroyed() && State() == Destroy(Act(old(State()), Free), user, Tells(), acErr)
      ensures connected == old(connected) && onDisconnect == old(onDisconnect) && err == old(err)
      decreases !inCallback, 6
    {
      freeing := true;
      log := Then(log, Stopped);
      if !inCallback {
        DoFree();
      }
    }

    /** Starts closing; with nothing left to wait for, closes at once. */
    method AsyncDisconnect()
      requires Live() && (!inCallback ==> Idle())
      modifies this
      ensures connected == old(connected) && onDisconnect == old(onDisconnect) && err == old(err)
      ensures old(inCallback) || old(replies) != [] ==> State() == Act(old(State()), Disconnect) && SameRest() && Live()
                                                        && disconnecting && replies == old(replies)
      ensures !old(inCallback) && old(replies) == [] ==>
                Destroyed() && acErr == old(err)
                  && State() == Close(Act(old(State()), Disconnect), user, Tells(), old(err))
      decreases !inCallback, 6
    {
      disconnecting := true;
      log := Then(log, Stopped);
      if !inCallback && replies == [] {
        DoDisconnect();
      }
    }

    // ---------- Closing ----------

    /**
     Closes the connection. Without an error this is only ever reached with no callback waiting,
     which the source asserts.
     */
    method DoDisconnect()
      requires Idle() && (err == 0 ==> disconnecting && replies == [])
      modifies this
      ensures Destroyed() && acErr == err == old(err) && State() == Close(old(State()), user, Tells(), err)
      ensures connected == old(connected) && onDisconnect == old(onDisconnect)
      decreases true, 5
    {
      hide Call;
      acErr := err;
      if acErr == 0 {
        assert replies == [];
      } else {
        disconnecting := true;
        log := Then(log, Stopped);
      }
      DoFree();
    }

    /** Hands every waiting callback a null reply, tells the disconnect callback and destroys the context. */
    method DoFree()
      requires Live() && !inCallback && Closing(State())
      modifies this
      ensures Destroyed() && err == old(err) && acErr == old(acErr)
      ensures State() == Destroy(old(State()), user, Tells(), acErr)
      ensures connected == old(connected) && onDisconnect == old(onDisconnect)
      decreases true, 4
    {
      hide DropAll;
      ghost var s := State();
      DestroyOk(s, user, Tells(), acErr);
      DestroyTells(s, user, Tells(), acErr);
      DropWaiting();
      if onDisconnect && connected {
        log := Then(log, Told(freeing || acErr == 0));
      }
      log := Then(log, AsyncLedger.Destroyed);
      freed := true;
    }

    /** Tells every waiting callback that there will be no reply. */
    method DropWaiting()
      requires Live() && !inCallback && Closing(State())
      modifies this
      ensures Live() && SameRest() && State() == DropAll(old(State()), user)
      decreases true, 3
    {
      hide Call, CoreOk;
      ghost var s := State();
      while replies != []
        invariant Live() && SameRest() && Closing(State()) && DropAll(State(), user) == DropAll(s, user)
        decreases |replies|
      {
        ghost var before := State();
        var cb := replies[0];
        replies := replies[1..];
        DropStep(before, cb);
        RunCallback(cb, Dropped(cb));
      }
    }

    // ---------- Callbacks ----------

    /** Runs a callback's function, if it has one; `e` is what happens to the callback. */
    method RunCallback(cb: Callback, ghost e: Event)
      requires !freed && !aborted && !inCallback && CoreOk(State().(log := Then(log, e)))
      modifies this
      ensures Live() && SameRest() && State() == Call(old(State()), user, e, cb)
      decreases true, 2
    {
      hide NothingTaken, ActAll, After, Farewelled;
      CallOk(State(), user, e, cb);
      log := Then(log, e);
      if cb.hasFn {
        inCallback := true;
        var actions := user(calls);
        calls := calls + 1;
        Perform(actions);
        inCallback := false;
      }
    }

    /** User code running inside a callback. */
    method Perform(actions: seq<Action>)
      requires Live() && inCallback
      modifies this
      ensures Live() && SameRest() && State() == ActAll(old(State()), actions)
      decreases false, 7
    {
      hide CoreOk;
      ghost var s := State();
      for i := 0 to |actions|
        invariant Live() && SameRest() && State() == ActAll(s, actions[..i])
      {
        assert actions[..i + 1][..i] == actions[..i];
        match actions[i]
        case Command(hasFn, len) => var _ := AsyncCommand(hasFn, len);
        case Disconnect => AsyncDisconnect();
        case Free => AsyncFree();
      }
      assert actions[..|actions|] == actions;
    }

    // ---------- Events ----------

    /** The context is as this outcome says. */
    ghost predicate LeftAs(o: Outcome)
      reads this
    {
      match o
      case Open(s) => Idle() && State() == s
      case Gone(s, e) => Destroyed() && State() == s && (freeing || acErr == e)
      case Failed(s) => Crashed() && State() == s
    }

    /** Serves the replies parsed from the input, then closes if the parser failed or there is nothing left to do. */
    method ProcessCallbacks(batch: seq<Reply>, readerErr: nat)
      requires Idle()
      modifies this
      ensures LeftAs(Process(old(State()), user, asserts, old(Tells()), old(err), None, batch, 0, readerErr))
      ensures connected == old(connected) && onDisconnect == old(onDisconnect)
      ensures Idle() ==> err == old(err) && acErr == old(acErr) && !Finished() && readerErr == 0
    {
      hide CoreOk, Deliver, Close, Destroy, AsyncMachine.Ready, Over;
      var cb: Option<Callback>, i := None, 0;
      ghost var o := Process(State(), user, asserts, Tells(), err, None, batch, 0, readerErr);
      while i < |batch|
        invariant i <= |batch| && Idle() && SameRest() && IsLast(State(), cb)
        invariant o == Process(State(), user, asserts, Tells(), err, cb, batch, i, readerErr)
      {
        if replies == [] && batch[i].isError {
          Refuse(batch[i]);
          return;
        }
        if replies == [] && asserts {
          FailAssertion(batch[i]);
          return;
        }
        cb := DeliverReply(batch[i], cb);
        if freeing {
          FreeingAnyway(State(), user, Tells(), acErr);
          DoFree();
          return;
        }
        i := i + 1;
      }
      FinishBatch(readerErr);
    }

    /** All replies were served: closes on a parser's error, or when disconnecting with nothing left to do. */
    method FinishBatch(readerErr: nat)
      requires Idle()
      modifies this
      ensures LeftAs(Process(old(State()), user, asserts, old(Tells()), old(err), None, [], 0, readerErr))
      ensures connected == old(connected) && onDisconnect == old(onDisconnect)
      ensures Idle() ==> err == old(err) && acErr == old(acErr) && !Finished() && readerErr == 0
    {
      if readerErr != 0 {
        err := readerErr;
        DoDisconnect();
      } else if disconnecting && obuf == 0 && replies == [] {
        DoDisconnect();
      }
    }

    /** An error nobody asked for: the server is turning the connection away. */
    method Refuse(reply: Reply)
      requires Idle() && replies == [] && reply.isError
      modifies this
      ensures Destroyed() && acErr == ERR_OTHER && connected == old(connected) && onDisconnect == old(onDisconnect)
      ensures State() == Close(old(State()).(log := Then(old(log), Unasked(reply))), user, Tells(), ERR_OTHER)
    {
      hide Close;
      log := Then(log, Unasked(reply));
      err := ERR_OTHER;
      DoDisconnect();
    }

    /** A reply that is no error and nobody asked for: the source's assertion fails. */
    method FailAssertion(reply: Reply)
      requires Idle() && replies == [] && !reply.isError && asserts
      modifies this`log, this`aborted
      ensures Crashed() && State() == old(State()).(log := Then(old(log), Unasked(reply)))
    {
      log := Then(log, Unasked(reply));
      aborted := true;
    }

    /** Hands a reply to the next callback, or with none waiting to the one served last. */
    method DeliverReply(reply: Reply, last: Option<Callback>) returns (cb: Option<Callback>)
      requires Idle() && IsLast(State(), last)
      modifies this
      ensures Live() && SameRest() && (State(), cb) == Deliver(old(State()), user, last, reply)
      ensures IsLast(State(), cb) && (!freeing ==> Idle())
    {
      hide Call;
      DeliverOk(State(), user, last, reply);
      AlwaysInLine(log);
      if replies == [] {
        cb := last;
        log := Then(log, Unasked(reply));
        if cb.Some? && cb.value.hasFn {
          AgainOk(old(State()), cb.value, reply);
          RunCallback(cb.value, Again(cb.value, reply));
        }
      } else {
        cb := Some(replies[0]);
        replies := replies[1..];
        RunCallback(cb.value, Answered(cb.value, reply));
      }
    }

    /** Looks at a connection attempt the first time the socket is ready. */
    method HandleConnect(attempt: Attempt) returns (ok: bool)
      requires Idle() && !connected && (attempt.Failed? ==> attempt.err != 0)
      modifies this
      ensures ok == !attempt.Failed?
      ensures connected == attempt.Established? && onDisconnect == old(onDisconnect)
      ensures ok ==> Idle() && State() == old(State()) && err == old(err) && acErr == old(acErr)
      ensures !ok ==> LeftAs(Gone(Close(old(State()), user, false, attempt.err), attempt.err))
    {
      hide Close;
      match attempt
      case Failed(e) =>
        err := e;
        DoDisconnect();
        ok := false;
      case Established =>
        connected := true;
        ok := true;
      case Pending =>
        ok := true;
    }

    /** The socket is readable: `ioErr` is what reading it failed with, or 0. */
    method HandleRead(attempt: Attempt, ioErr: nat, batch: seq<Reply>, readerErr: nat)
      requires Idle() && (attempt.Failed? ==> attempt.err != 0)
      modifies this
      ensures LeftAs(ReadOutcome(old(State()), user, asserts, old(connected), old(onDisconnect), old(err), attempt,
                                 ioErr, batch, readerErr))
      ensures connected == (old(connected) || attempt.Established?) && onDisconnect == old(onDisconnect)
      ensures Idle() ==> err == old(err) && acErr == old(acErr) && (connected && ioErr == 0 ==> !Finished())
      ensures (!old(connected) && attempt.Failed?) || (connected && (old(err) != 0 || ioErr != 0)) ==> Destroyed()
      ensures connected && readerErr != 0 ==> !Idle()
    {
      hide Close, Process, CoreOk;
      if !connected {
        var ok := HandleConnect(attempt);
        if !ok || !connected {
          return;
        }
      }
      if err != 0 || ioErr != 0 {
        err := if err != 0 then err else ioErr;
        DoDisconnect();
      } else {
        ProcessCallbacks(batch, readerErr);
      }
    }

    /** The socket is writable: `ioErr` is what writing it failed with, or 0. */
    method HandleWrite(attempt: Attempt, ioErr: nat, written: nat)
      requires Idle() && (attempt.Failed? ==> attempt.err != 0) && written <= obuf
      modifies this
      ensures LeftAs(WriteOutcome(old(State()), user, old(connected), old(onDisconnect), old(err), attempt, ioErr,
                                  written))
      ensures connected == (old(connected) || attempt.Established?) && onDisconnect == old(onDisconnect)
      ensures Idle() ==> err == old(err) && acErr == old(acErr) && obuf == old(obuf) - if connected then written else 0
      ensures Destroyed() <==> (!old(connected) && attempt.Failed?)
                               || (connected && (old(err) != 0 || (old(obuf) > 0 && ioErr != 0)))
    {
      hide Close, CoreOk;
      if !connected {
        var ok := HandleConnect(attempt);
        if !ok || !connected {
          return;
        }
      }
      if err != 0 || (obuf > 0 && ioErr != 0) {
        err := if err != 0 then err else ioErr;
        DoDisconnect();
      } else {
        Sent(written);
      }
    }

    method Sent(written: nat)
      requires Idle() && written <= obuf
      modifies this`obuf
      ensures Idle() && State() == old(State()).(obuf := old(obuf) - written)
    {
      obuf := obuf - written;
    }
  }

  /** What a read event does: connect, close on an error, or serve the replies. */
  ghost function ReadOutcome(s: Core, user: User, asserts: bool, connected: bool, onDisconnect: bool, err: nat,
                             attempt: Attempt, ioErr: nat, batch: seq<Reply>, readerErr: nat): Outcome
  {
    if !connected && attempt.Failed? then Gone(Close(s, user, false, attempt.err), attempt.err)
    else if !connected && attempt.Pending? then Open(s)
    else if err != 0 then Gone(Close(s, user, onDisconnect, err), err)
    else if ioErr != 0 then Gone(Close(s, user, onDisconnect, ioErr), ioErr)
    else Process(s, user, asserts, onDisconnect, err, None, batch, 0, readerErr)
  }

  /** What a write event does: connect, close on an error, or send. */
  ghost function WriteOutcome(s: Core, user: User, connected: bool, onDisconnect: bool, err: nat,
                              attempt: Attempt, ioErr: nat, written: nat): Outcome
    requires written <= s.obuf
  {
    if !connected && attempt.Failed? then Gone(Close(s, user, false, attempt.err), attempt.err)
    else if !connected && attempt.Pending? then Open(s)
    else if err != 0 then Gone(Close(s, user, onDisconnect, err), err)
    else if s.obuf > 0 && ioErr != 0 then Gone(Close(s, user, onDisconnect, ioErr), ioErr)
    else Open(s.(obuf := s.obuf - written))
  }

  lemma FreeingAnyway(s: Core, user: User, tell: bool, err: nat)
    requires s.freeing
    ensures Destroy(s, user, tell, err) == Destroy(s, user, tell, 0)
  {
  }

  lemma DropStep(s: Core, cb: Callback)
    requires CoreOk(s) && Closing(s) && s.replies != [] && cb == s.replies[0]
    ensures CoreOk(s.(replies := s.replies[1..], log := Then(s.log, Dropped(cb))))
  {
  }

  // ---------- Whole runs ----------

  /** What may happen to a context from outside. */
  datatype Input =
    | Readable(attempt: Attempt, ioErr: nat, batch: seq<Reply>, readerErr: nat)
    | Writable(attempt: Attempt, ioErr: nat, written: nat)
    | Request(action: Action)
    | Listen // a disconnect callback is set

  predicate OnSocket(i: Input) { i.Readable? || i.Writable? }

  /** A failed connection attempt has a reason. */
  predicate Sound(i: Input) { OnSocket(i) && i.attempt.Failed? ==> i.attempt.err != 0 }

  /** Nothing goes wrong on the socket or in the parser. */
  predicate Clean(i: Input) {
    && (OnSocket(i) ==> !i.attempt.Failed? && i.ioErr == 0)
    && (i.Readable? ==> i.readerErr == 0)
  }

  predicate AllClean(inputs: seq<Input>) { forall k :: 0 <= k < |inputs| ==> Clean(inputs[k]) }

  /** Is the connection established after these inputs? */
  predicate Joined(inputs: seq<Input>, connected: bool) {
    if inputs == [] then connected
    else
      var last := inputs[|inputs| - 1];
      Joined(inputs[..|inputs| - 1], connected) || (OnSocket(last) && last.attempt.Established?)
  }

  /** The replies that reading the socket brings in: those of a read event that finds a connection and no error. */
  function Brought(i: Input, connected: bool): seq<Reply> {
    if i.Readable? && (connected || i.attempt.Established?) && i.ioErr == 0 then i.batch else []
  }

  /** All the replies that these inputs bring in, in order. */
  function Arrived(inputs: seq<Input>, connected: bool): seq<Reply> {
    if inputs == [] then []
    else
      var n := |inputs| - 1;
      Arrived(inputs[..n], connected) + Brought(inputs[n], Joined(inputs[..n], connected))
  }

  /**
   Any run at all: the history stays accepted, and with assertions on no callback is ever repeated.
   A destroyed or crashed context is not touched again. The replies taken are the first that arrived, and all
   of them while the context is open; if none was unasked for, command `id` gets the arrival of number `id`.
   Of the inputs the first `n` were taken, all of them while the context is open.
   */
  method Drive(ac: AsyncContext, inputs: seq<Input>) returns (ghost n: nat)
    requires ac.Idle() && ac.log == Start && forall k :: 0 <= k < |inputs| ==> Sound(inputs[k])
    modifies ac
    ensures After(ac.log).Fine? && (ac.asserts ==> !Repeats(ac.log))
    ensures ac.Idle() || ac.Destroyed() || ac.Crashed()
    ensures AsyncLedger.Gone(ac.log) == ac.freed
    ensures var arrived := Arrived(inputs, old(ac.connected));
            && Taken(ac.log) <= arrived && (ac.Idle() ==> Taken(ac.log) == arrived)
            && (!Unexpected(ac.log) ==> forall id: nat, r :: Got(ac.log, id, r) ==> id < |arrived| && arrived[id] == r)
    ensures n <= |inputs| && (n < |inputs| ==> ac.freed || ac.aborted)
    ensures ac.connected == Joined(inputs[..n], old(ac.connected))
    ensures ac.onDisconnect == (old(ac.onDisconnect) || Listen in inputs[..n])
    // a disconnect that was asked for happens
    ensures Request(Disconnect) in inputs[..n] && !ac.aborted ==> Asked(ac.log)
    ensures n > 0 && inputs[n - 1].Readable? && inputs[n - 1].ioErr == 0 && ac.connected && Asked(ac.log)
            && ac.obuf == 0 && ac.issued <= |Arrived(inputs, old(ac.connected))| && !Unexpected(ac.log)
            ==> ac.Destroyed()
    // and ends well
    ensures ac.freed ==> Farewelled(ac.log, ac.onDisconnect && ac.connected, ac.freeing || ac.acErr == 0)
    ensures ac.freed && AllClean(inputs[..n]) && old(ac.err) == 0 && old(ac.acErr) == 0 && !Unexpected(ac.log) ==>
              Farewelled(ac.log, ac.onDisconnect && ac.connected, true)
              && (ac.freeing || forall id :: !GotNothing(ac.log, id))
  {
    hide Taken, Repeats, Arrived, Unexpected, Asked, Lost, Farewelled, AllClean;
    n := 0;
    var i := 0;
    ghost var connected, listening := ac.connected, ac.onDisconnect;
    ghost var well := ac.err == 0 && ac.acErr == 0;
    NoneYet(connected);
    while i < |inputs| && !ac.freed && !ac.aborted
      invariant 0 <= i == n <= |inputs|
      invariant ac.Idle() || ac.Destroyed() || ac.Crashed()
      invariant ac.asserts ==> !Repeats(ac.log)
      invariant Taken(ac.log) <= Arrived(inputs[..i], connected)
      invariant ac.Idle() ==> Taken(ac.log) == Arrived(inputs[..i], connected)
      invariant ac.connected == Joined(inputs[..i], connected)
      invariant ac.onDisconnect == (listening || Listen in inputs[..i])
      invariant Request(Disconnect) in inputs[..i] && ac.Idle() ==> ac.disconnecting
      invariant i > 0 && inputs[i - 1].Readable? && inputs[i - 1].ioErr == 0 && ac.connected && ac.Idle() ==>
                  !ac.Finished()
      invariant well && AllClean(inputs[..i]) ==> EndsWell(ac)
      decreases |inputs| - i
    {
      OneMoreArrives(inputs, i, connected);
      OneMoreClean(inputs, i);
      Feed(ac, inputs[i]);
      i := i + 1;
      n := i;
    }
    ArrivalsGrow(inputs, i, connected);
    assert inputs[..|inputs|] == inputs;
    Concluded(ac.log, Arrived(inputs, connected));
  }

  /** What an accepted history says once it is known which replies arrived. */
  lemma Concluded(h: History, arrived: seq<Reply>)
    requires After(h).Fine? && Taken(h) <= arrived
    ensures var m := After(h).m; m.ended == AsyncLedger.Gone(h) && m.stopped == Asked(h) && (m.ended ==> m.stopped)
    ensures var m := After(h).m; !m.dropping && !Unexpected(h) ==> |Taken(h)| == m.issued - |m.waiting|
    ensures !Unexpected(h) ==> forall id: nat, r :: Got(h, id, r) ==> id < |arrived| && arrived[id] == r
    ensures !Lost(h) ==> forall id :: !GotNothing(h, id)
    ensures h.Then? && h.event.Unasked? ==> Unexpected(h)
  {
    hide Taken, Asked, Lost, ToldAny, Next;
    GoneMeansEnded(h);
    EndedStopped(h);
    MonitorMeans(h);
    if !Unexpected(h) {
      AnsweredCount(h);
      forall id: nat, r | Got(h, id, r)
        ensures id < |arrived| && arrived[id] == r
      {
        Matching(h, id, r);
      }
    }
    forall id | GotNothing(h, id)
      ensures Lost(h)
    {
      LostSome(h, id);
    }
  }

  lemma EndedStopped(h: History)
    requires After(h).Fine?
    ensures AsyncLedger.Gone(h) ==> After(h).m.stopped
  {
    GoneMeansEnded(h);
  }

  /** As long as nothing went wrong, a context knows of no error and is destroyed with every command answered. */
  ghost predicate EndsWell(ac: AsyncContext)
    reads ac
  {
    && (ac.Idle() ==> ac.err == 0 && ac.acErr == 0)
    && (ac.freed && !Unexpected(ac.log) ==> (ac.freeing || ac.acErr == 0) && (!ac.freeing ==> !Lost(ac.log)))
  }

  lemma OneMoreClean(inputs: seq<Input>, i: nat)
    requires i < |inputs|
    ensures AllClean(inputs[..i + 1]) <==> AllClean(inputs[..i]) && Clean(inputs[i])
    ensures forall x :: x in inputs[..i + 1] <==> x in inputs[..i] || x == inputs[i]
  {
    assert inputs[..i + 1] == inputs[..i] + [inputs[i]];
    assert AllClean(inputs[..i + 1]) ==> forall k :: 0 <= k < i ==> inputs[..i + 1][k] == inputs[..i][k];
  }

  lemma NoneYet(connected: bool)
    ensures Taken(Start) == Arrived([], connected) == [] && !Repeats(Start)
  {
  }

  lemma OneMoreArrives(inputs: seq<Input>, i: nat, connected: bool)
    requires i < |inputs|
    ensures Arrived(inputs[..i + 1], connected)
            == Arrived(inputs[..i], connected) + Brought(inputs[i], Joined(inputs[..i], connected))
    ensures Joined(inputs[..i + 1], connected)
            == (Joined(inputs[..i], connected) || (OnSocket(inputs[i]) && inputs[i].attempt.Established?))
  {
    assert inputs[..i + 1][..i] == inputs[..i];
  }

  lemma {:induction false} ArrivalsGrow(inputs: seq<Input>, i: nat, connected: bool)
    requires i <= |inputs|
    ensures Arrived(inputs[..i], connected) <= Arrived(inputs, connected)
    decreases |inputs| - i
  {
    if i < |inputs| {
      OneMoreArrives(inputs, i, connected);
      ArrivalsGrow(inputs, i + 1, connected);
    } else {
      assert inputs[..i] == inputs;
    }
  }

  /** One input leaves the context open between events, destroyed or crashed, and takes what it brings in. */
  method Feed(ac: AsyncContext, input: Input)
    requires ac.Idle() && Sound(input)
    modifies ac
    ensures ac.Idle() || ac.Destroyed() || ac.Crashed()
    ensures ac.asserts && old(!Repeats(ac.log)) ==> !Repeats(ac.log)
    ensures var all := old(Taken(ac.log)) + Brought(input, old(ac.connected));
            Taken(ac.log) <= all && (ac.Idle() ==> Taken(ac.log) == all)
    ensures ac.connected == (old(ac.connected) || (OnSocket(input) && input.attempt.Established?))
    ensures ac.onDisconnect == (old(ac.onDisconnect) || input == Listen)
    ensures ac.Idle() && (old(ac.disconnecting) || input == Request(Disconnect)) ==> ac.disconnecting
    ensures input.Readable? && input.ioErr == 0 && ac.connected && ac.Idle() ==> !ac.Finished()
    ensures Clean(input) && old(EndsWell(ac)) ==> EndsWell(ac)
  {
    hide Close, Process, Destroy, Repeats, Taken, Unexpected, Lost, Farewelled;
    ghost var s := ac.State();
    ghost var connected, onDisconnect, err := ac.connected, ac.onDisconnect, ac.err;
    match input
    case Readable(attempt, ioErr, batch, readerErr) =>
      ac.HandleRead(attempt, ioErr, batch, readerErr);
      ReadTakes(s, ac.user, ac.asserts, connected, onDisconnect, err, attempt, ioErr, batch, readerErr);
      ReadPursues(s, ac.user, ac.asserts, connected, onDisconnect, err, attempt, ioErr, batch, readerErr);
    case Writable(attempt, ioErr, written) =>
      var sent := if written <= ac.obuf then written else ac.obuf;
      ac.HandleWrite(attempt, ioErr, sent);
      WriteTakes(s, ac.user, connected, onDisconnect, err, attempt, ioErr, sent);
    case Request(action) =>
      Ask(ac, action);
    case Listen =>
      var _ := ac.SetDisconnectCallback();
  }

  /** User code outside callbacks. */
  method Ask(ac: AsyncContext, action: Action)
    requires ac.Idle()
    modifies ac
    ensures ac.Idle() || ac.Destroyed()
    ensures NothingTaken(old(ac.log), ac.log)
    ensures ac.connected == old(ac.connected) && ac.onDisconnect == old(ac.onDisconnect)
    ensures ac.Idle() && (old(ac.disconnecting) || action == Disconnect) ==> ac.disconnecting
    ensures old(EndsWell(ac)) ==> EndsWell(ac)
  {
    hide Close, Destroy, Repeats, Taken, Unexpected, Lost, Farewelled;
    ghost var s, err := ac.State(), ac.err;
    ActOk(s, action);
    match action
    case Command(hasFn, len) =>
      var _ := ac.AsyncCommand(hasFn, len);
    case Disconnect =>
      ac.AsyncDisconnect();
      if s.replies == [] {
        CloseOk(Act(s, Disconnect), ac.user, ac.Tells(), err);
        if err == 0 {
          CleanPatient(Act(s, Disconnect), ac.user, ac.Tells());
        }
      }
    case Free =>
      ac.AsyncFree();
      DestroyOk(Act(s, Free), ac.user, ac.Tells(), ac.acErr);
  }

  /** A read event takes the replies it brings in up to some point, and all of them if the context stays open. */
  lemma ReadTakes(s: Core, user: User, asserts: bool, connected: bool, onDisconnect: bool, err: nat,
                  attempt: Attempt, ioErr: nat, batch: seq<Reply>, readerErr: nat)
    requires AsyncMachine.Ready(s) && (attempt.Failed? ==> attempt.err != 0)
    ensures var o := ReadOutcome(s, user, asserts, connected, onDisconnect, err, attempt, ioErr, batch, readerErr);
            var all := Taken(s.log) + Brought(Readable(attempt, ioErr, batch, readerErr), connected);
            && (asserts ==> (Repeats(o.s.log) <==> Repeats(s.log)))
            && Taken(o.s.log) <= all && (o.Open? ==> Taken(o.s.log) == all)
  {
    hide Close, Process, Repeats, CoreOk, Taken;
    assert Taken(s.log) + [] == Taken(s.log);
    if !connected && attempt.Failed? {
      CloseOk(s, user, false, attempt.err);
    } else if err != 0 || ioErr != 0 {
      CloseOk(s, user, onDisconnect, if err != 0 then err else ioErr);
    } else {
      ProcessOk(s, user, asserts, onDisconnect, err, None, batch, 0, readerErr);
      assert batch[0..|batch|] == batch;
    }
  }

  /** A read event without errors that leaves the context open keeps at disconnecting. */
  lemma ReadPursues(s: Core, user: User, asserts: bool, connected: bool, onDisconnect: bool, err: nat,
                    attempt: Attempt, ioErr: nat, batch: seq<Reply>, readerErr: nat)
    requires AsyncMachine.Ready(s)
    ensures var o := ReadOutcome(s, user, asserts, connected, onDisconnect, err, attempt, ioErr, batch, readerErr);
            && (o.Open? && s.disconnecting ==> o.s.disconnecting)
            && (err == 0 && Clean(Readable(attempt, ioErr, batch, readerErr)) ==> Patient(o))
  {
    hide Close, Process, CoreOk;
    if (connected || attempt.Established?) && err == ioErr == 0 {
      ProcessPursues(s, user, asserts, onDisconnect, err, None, batch, 0, readerErr);
    }
  }

  lemma WriteTakes(s: Core, user: User, connected: bool, onDisconnect: bool, err: nat, attempt: Attempt, ioErr: nat,
                   written: nat)
    requires AsyncMachine.Ready(s) && (attempt.Failed? ==> attempt.err != 0) && written <= s.obuf
    ensures var o := WriteOutcome(s, user, connected, onDisconnect, err, attempt, ioErr, written);
            NothingTaken(s.log, o.s.log)
  {
    hide Close, Repeats, CoreOk, Taken;
    if !connected && attempt.Failed? {
      CloseOk(s, user, false, attempt.err);
    } else if err != 0 || ioErr != 0 {
      CloseOk(s, user, onDisconnect, if err != 0 then err else ioErr);
    }
  }

  /**
   With assertions compiled out, a second reply to one command reaches that command's callback again:
   two replies parsed together for a single command.
   */
  method ServedTwice(first: Reply, second: Reply) returns (ac: AsyncContext)
    requires !second.isError
    ensures fresh(ac) && !ac.asserts && After(ac.log).Fine? && Handed(ac.log, 0) == 2
  {
    ac := new AsyncContext(_ => [], false, 0);
    var _ := ac.AsyncCommand(true, 1);
    assert ac.State() == Core(Then(Start, Issued(Callback(0, true))), [Callback(0, true)], 1, 1, false, false, 0);
    ServedAgain(ac.user, first, second);
    ac.HandleRead(Established, 0, [first, second], 0);
  }
}
