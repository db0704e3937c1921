/** What an asynchronous connection may do, as a monitor over its history, and what every accepted history keeps. */
module AsyncLedger {
  /** A registered callback: the command it was issued with, and whether it has a function to call. */
  datatype Callback = Callback(id: nat, hasFn: bool)

  datatype Reply = Reply(isError: bool, text: string)

  datatype Event =
    | Issued(cb: Callback)              // a command was accepted
    | Stopped                           // no command is accepted from here on
    | Answered(cb: Callback, reply: Reply)
    | Dropped(cb: Callback)             // called with no reply while tearing down
    | Unasked(reply: Reply)             // a reply nobody is waiting for
    | Again(cb: Callback, reply: Reply) // the last callback called once more, with an unasked reply
    | Told(ok: bool)                    // the disconnect callback
    | Destroyed

  /** A history, latest event last. */
  datatype History = Start | Then(before: History, event: Event)

  // ---------- The monitor ----------

  datatype Monitor = Monitor(issued: nat, waiting: seq<Callback>, stopped: bool, dropping: bool, unasked: bool,
                             told: bool, ended: bool)

  datatype Verdict = Fine(m: Monitor) | Violated

  const FRESH := Monitor(0, [], false, false, false, false, false)

  function Next(m: Monitor, e: Event): Verdict {
    if m.ended then Violated
    else match e
      case Issued(cb) =>
        if m.stopped || cb.id != m.issued then Violated
        else Fine(m.(issued := m.issued + 1, waiting := m.waiting + [cb]))
      case Stopped => Fine(m.(stopped := true))
      case Answered(cb, _) =>
        if m.dropping || m.told || m.waiting == [] || m.waiting[0] != cb then Violated
        else Fine(m.(waiting := m.waiting[1..]))
      case Dropped(cb) =>
        if !m.stopped || m.told || m.waiting == [] || m.waiting[0] != cb then Violated
        else Fine(m.(waiting := m.waiting[1..], dropping := true))
      case Unasked(_) => if m.dropping || m.told || m.waiting != [] then Violated else Fine(m.(unasked := true))
      case Again(cb, _) =>
        if !m.unasked || m.dropping || m.told || m.waiting != [] || cb.id + 1 != m.issued then Violated
        else Fine(m)
      case Told(_) => if !m.stopped || m.told || m.waiting != [] then Violated else Fine(m.(told := true))
      case Destroyed => if !m.stopped || m.waiting != [] then Violated else Fine(m.(ended := true))
  }

  function After(h: History): Verdict {
    match h
    case Start => Fine(FRESH)
    case Then(b, e) => var v := After(b); if v.Violated? then Violated else Next(v.m, e)
  }

  // ---------- What a history says ----------

  /** How often callback `id` left the queue: answered, or dropped. */
  function Settled(h: History, id: nat): nat {
    match h
    case Start => 0
    case Then(b, e) => Settled(b, id) + if (e.Answered? || e.Dropped?) && e.cb.id == id then 1 else 0
  }

  /** How often callback `id` was handed a reply or none, counting repeats. */
  function Handed(h: History, id: nat): nat {
    match h
    case Start => 0
    case Then(b, e) => Handed(b, id) + if (e.Answered? || e.Dropped? || e.Again?) && e.cb.id == id then 1 else 0
  }

  /** The replies taken off the wire, in order. */
  function Taken(h: History): seq<Reply> {
    match h
    case Start => []
    case Then(b, e) => if e.Answered? || e.Unasked? then Taken(b) + [e.reply] else Taken(b)
  }

  /** The callbacks that left the queue, in order. */
  function Leaving(h: History): seq<nat> {
    match h
    case Start => []
    case Then(b, e) => if e.Answered? || e.Dropped? then Leaving(b) + [e.cb.id] else Leaving(b)
  }

  /** Does the history contain a reply nobody asked for? */
  predicate Unexpected(h: History) {
    h.Then? && (h.event.Unasked? || Unexpected(h.before))
  }

  predicate Repeats(h: History) {
    h.Then? && (h.event.Again? || Repeats(h.before))
  }

  /** Was the context asked to disconnect or to be freed? */
  predicate Asked(h: History) { h.Then? && (h.event.Stopped? || Asked(h.before)) }

  /** Was a callback dropped? */
  predicate Lost(h: History) { h.Then? && (h.event.Dropped? || Lost(h.before)) }

  /** The last thing that happened is the destruction, and before that the disconnect callback if there was one. */
  predicate Farewelled(h: History, tell: bool, ok: bool) {
    h.Then? && h.event.Destroyed? && if tell then h.before.Then? && h.before.event == Told(ok) else !ToldAny(h)
  }

  predicate ToldAny(h: History) { h.Then? && (h.event.Told? || ToldAny(h.before)) }

  predicate Gone(h: History) { h.Then? && (h.event.Destroyed? || Gone(h.before)) }

  /** Callback `id` got this reply. */
  predicate Got(h: History, id: nat, r: Reply) {
    h.Then? && ((h.event.Answered? && h.event.cb.id == id && h.event.reply == r) || Got(h.before, id, r))
  }

  predicate GotSome(h: History, id: nat) {
    h.Then? && ((h.event.Answered? && h.event.cb.id == id) || GotSome(h.before, id))
  }

  /** Callback `id` was told there will be no reply. */
  predicate GotNothing(h: History, id: nat) {
    h.Then? && ((h.event.Dropped? && h.event.cb.id == id) || GotNothing(h.before, id))
  }

  // ---------- What every accepted history keeps ----------

  /** The waiting callbacks are the last issued ones, in order. */
  ghost predicate InLine(m: Monitor) {
    && |m.waiting| <= m.issued
    && forall k :: 0 <= k < |m.waiting| ==> m.waiting[k].id == m.issued - |m.waiting| + k
  }

  lemma {:induction false} AlwaysInLine(h: History)
    requires After(h).Fine?
    ensures InLine(After(h).m)
  {
    if h.Then? {
      AlwaysInLine(h.before);
    }
  }

  /** The first commands issued are the settled ones, each once; the rest are still waiting. */
  lemma {:induction false} SettledOnce(h: History, id: nat)
    requires After(h).Fine?
    ensures var m := After(h).m; Settled(h, id) == if id < m.issued - |m.waiting| then 1 else 0
  {
    if h.Then? {
      SettledOnce(h.before, id);
      AlwaysInLine(h.before);
    }
  }

  /** Callbacks leave the queue in the order their commands were issued. */
  lemma {:induction false} IssueOrder(h: History)
    requires After(h).Fine?
    ensures var m := After(h).m; |Leaving(h)| == m.issued - |m.waiting|
    ensures forall k :: 0 <= k < |Leaving(h)| ==> Leaving(h)[k] == k
  {
    AlwaysInLine(h);
    if h.Then? {
      IssueOrder(h.before);
      AlwaysInLine(h.before);
    }
  }

  lemma {:induction false} HandedUnlessRepeated(h: History, id: nat)
    ensures Handed(h, id) >= Settled(h, id) && (!Repeats(h) ==> Handed(h, id) == Settled(h, id))
  {
    if h.Then? {
      HandedUnlessRepeated(h.before, id);
    }
  }

  /** Some callback was handed something more often than it left the queue. */
  lemma {:induction false} RepeatedTwice(h: History) returns (id: nat)
    requires After(h).Fine? && Repeats(h)
    ensures Handed(h, id) >= 2
  {
    if h.event.Again? {
      id := h.event.cb.id;
      SettledOnce(h.before, id);
      HandedUnlessRepeated(h.before, id);
    } else {
      id := RepeatedTwice(h.before);
    }
  }

  /** No callback is handed anything twice exactly when none was repeated with an unasked reply. */
  lemma AtMostOnce(h: History)
    requires After(h).Fine?
    ensures !Repeats(h) <==> forall id :: Handed(h, id) <= 1
  {
    if Repeats(h) {
      var id := RepeatedTwice(h);
    } else {
      forall id
        ensures Handed(h, id) <= 1
      {
        SettledOnce(h, id);
        HandedUnlessRepeated(h, id);
      }
    }
  }

  lemma {:induction false} UnaskedFirst(h: History)
    requires After(h).Fine? && !Unexpected(h)
    ensures !After(h).m.unasked && !Repeats(h)
  {
    if h.Then? {
      UnaskedFirst(h.before);
    }
  }

  /** With a server that sends one reply for each command, no callback is handed anything twice. */
  lemma AskedOnlyAtMostOnce(h: History)
    requires After(h).Fine? && !Unexpected(h)
    ensures forall id :: Handed(h, id) <= 1
  {
    UnaskedFirst(h);
    AtMostOnce(h);
  }

  lemma {:induction false} AnsweredCount(h: History)
    requires After(h).Fine? && !Unexpected(h)
    ensures var m := After(h).m; |Taken(h)| <= m.issued - |m.waiting|
    ensures var m := After(h).m; !m.dropping ==> |Taken(h)| == m.issued - |m.waiting|
  {
    if h.Then? {
      AnsweredCount(h.before);
    }
  }

  /** As long as every reply was asked for, the k-th command gets the k-th reply on the wire. */
  lemma {:induction false} Matching(h: History, id: nat, r: Reply)
    requires After(h).Fine? && !Unexpected(h) && Got(h, id, r)
    ensures id < |Taken(h)| && Taken(h)[id] == r
  {
    AnsweredCount(h.before);
    AlwaysInLine(h.before);
    if Got(h.before, id, r) {
      Matching(h.before, id, r);
    }
  }

  lemma {:induction false} GoneMeansEnded(h: History)
    requires After(h).Fine?
    ensures Gone(h) <==> After(h).m.ended
    ensures After(h).m.ended ==> After(h).m.waiting == [] && h.event.Destroyed?
  {
    if h.Then? {
      GoneMeansEnded(h.before);
    }
  }

  lemma {:induction false} MonitorMeans(h: History)
    requires After(h).Fine?
    ensures var m := After(h).m; m.stopped == Asked(h) && m.dropping == Lost(h) && m.told == ToldAny(h)
  {
    hide Next;
    if h.Then? {
      MonitorMeans(h.before);
      NextMeans(After(h.before).m, h.event);
    }
  }

  lemma NextMeans(m: Monitor, e: Event)
    requires Next(m, e).Fine?
    ensures var n := Next(m, e).m;
            && n.stopped == (m.stopped || e.Stopped?) && n.dropping == (m.dropping || e.Dropped?)
            && n.told == (m.told || e.Told?)
  {
  }

  /** A callback told that there will be no reply was dropped. */
  lemma {:induction false} LostSome(h: History, id: nat)
    requires GotNothing(h, id)
    ensures Lost(h)
  {
    if !h.event.Dropped? {
      LostSome(h.before, id);
    }
  }

  lemma {:induction false} GotSettles(h: History, id: nat, r: Reply)
    requires Got(h, id, r)
    ensures Settled(h, id) > 0
  {
    if Got(h.before, id, r) {
      GotSettles(h.before, id, r);
    }
  }

  /** A callback that left the queue was handed a reply or told there is none, never both. */
  lemma {:induction false} SettledHow(h: History, id: nat)
    requires After(h).Fine? && Settled(h, id) > 0
    ensures GotNothing(h, id) <==> !GotSome(h, id)
  {
    var b := h.before;
    SettledOnce(b, id);
    SettledOnce(h, id);
    AlwaysInLine(b);
    if Settled(b, id) > 0 {
      SettledHow(b, id);
    } else {
      NotYet(b, id);
    }
  }

  lemma {:induction false} NotYet(h: History, id: nat)
    requires Settled(h, id) == 0
    ensures !GotNothing(h, id) && !GotSome(h, id)
  {
    if h.Then? {
      NotYet(h.before, id);
    }
  }

  /** Once the context is destroyed every accepted command was settled exactly once, and nothing happens any more. */
  lemma DestroyedSettlesAll(h: History)
    requires After(h).Fine? && Gone(h)
    ensures h.event.Destroyed? && !Gone(h.before)
    ensures forall id :: 0 <= id < After(h).m.issued ==> Settled(h, id) == 1
    ensures forall e :: After(Then(h, e)).Violated?
  {
    GoneMeansEnded(h);
    GoneMeansEnded(h.before);
    forall id | 0 <= id < After(h).m.issued
      ensures Settled(h, id) == 1
    {
      SettledOnce(h, id);
    }
  }

  /** No reply follows the first callback that was dropped. */
  lemma {:induction false} DroppedLast(h: History, id: nat, id': nat, r: Reply)
    requires After(h).Fine? && GotNothing(h, id) && Got(h, id', r)
    ensures id' < id
  {
    AlwaysInLine(h.before);
    if GotNothing(h.before, id) {
      DroppingStarted(h.before, id);
      DroppedLast(h.before, id, id', r);
    } else {
      Passed(h.before, id', r);
    }
  }

  lemma {:induction false} DroppingStarted(h: History, id: nat)
    requires After(h).Fine? && GotNothing(h, id)
    ensures After(h).m.dropping
  {
    if !h.event.Dropped? {
      DroppingStarted(h.before, id);
    }
  }

  lemma {:induction false} Passed(h: History, id: nat, r: Reply)
    requires After(h).Fine? && Got(h, id, r)
    ensures var m := After(h).m; id < m.issued - |m.waiting|
  {
    GotSettles(h, id, r);
    SettledOnce(h, id);
  }
}
