/** Progress: in whatever order reads and writes complete, the server comes to
    rest after a bounded number of steps; and what has been sent then. */
module Liveness {
  import opened Bytes
  import opened Messages
  import opened Protocol
  import opened Decoding
  import opened Transcripts
  import opened Accounts
  import opened Steps
  import opened Interleavings
  import opened ClientView
  import opened Pipelining

  predicate ServerStep(s: System, a: Action) {
    Enabled(s, a) && (a.Reads? || a.Writes? || a.WritesLoose?)
  }

  // ------------------------------------------------------------------ whatever the client does

  /** The reader is where the sequential function is, and no finished chain of
      writes is kept. */
  ghost predicate Base(server: Server, s: System) {
    ReaderAgrees(server, s) && forall i :: 0 <= i < |s.loose| ==> s.loose[i] != []
  }

  lemma InitialBase(server: Server)
    ensures Base(server, START)
  {
    InitialInv(server);
  }

  lemma BaseStep(server: Server, s: System, a: Action)
    requires Base(server, s) && Enabled(s, a)
    ensures Base(server, Apply(server, s, a))
  {
    hide Exec, ReplyBytes, Receive, Protocol.Writes, Detached, ScanFrame;
    match a
    case Reads(n) =>
      var bytes, unread := s.unread[..n], s.unread[n..];
      ExecStops(server, INITIAL, s.consumed);
      ReceiveIsExec(server, s, bytes, unread);
      ReceiveReply(server, s, bytes, unread);
      var events := Exec(server, s.st, s.partial + bytes).events;
      if events != [] {
        WritesLive(server, events[0]);
      }
    case ClientSends(_) =>
    case Writes(_) =>
    case WritesLoose(_, _) =>
    case Abandons =>
  }

  lemma {:induction false} BaseRun(server: Server, s: System, actions: seq<Action>)
    requires Base(server, s) && Possible(server, s, actions)
    ensures Base(server, Final(server, s, actions))
    decreases |actions|
  {
    hide Base, Apply, Enabled;
    if actions != [] {
      BaseStep(server, s, actions[0]);
      BaseRun(server, Apply(server, s, actions[0]), actions[1..]);
    }
  }

  /** The server never stands still while something is left to do. */
  lemma BusyCanStep(server: Server, s: System) returns (a: Action)
    requires Base(server, s) && Busy(s)
    ensures ServerStep(s, a)
  {
    hide Exec, ScanFrame;
    if s.chain != [] {
      a := Action.Writes(|s.chain[0]|);
    } else if s.loose != [] {
      a := WritesLoose(0, |s.loose[0][0]|);
    } else {
      ExecStops(server, INITIAL, s.consumed);
      MissingSome(s.st.startupDone, s.partial);
      a := Reads(1);
    }
  }

  // ------------------------------------------------------------------ the work that is left

  /** A write takes at most one step for each of its bytes, and one if it has none. */
  function Work(c: Chain): nat {
    if c == [] then 0 else |c[0]| + 1 + Work(c[1..])
  }

  function LooseWork(loose: seq<Chain>): nat {
    if loose == [] then 0 else Work(loose[0]) + LooseWork(loose[1..])
  }

  function EventsWork(server: Server, events: seq<Event>): nat {
    if events == [] then 0
    else Work(EncodeEach(Protocol.Writes(server, events[0]))) + EventsWork(server, events[1..])
  }

  function AskedWork(server: Server, input: seq<byte>): nat {
    EventsWork(server, Exec(server, INITIAL, input).events)
  }

  /** A bound on the steps that the server can still take: the bytes to read,
      the writes under way, and those that the unread bytes will call for. */
  function Budget(server: Server, s: System): int {
    |s.unread| + Work(s.chain) + LooseWork(s.loose) + AskedWork(server, Sent(s)) - AskedWork(server, s.consumed)
  }

  lemma {:induction false} EventsWorkAppend(server: Server, a: seq<Event>, b: seq<Event>)
    ensures EventsWork(server, a + b) == EventsWork(server, a) + EventsWork(server, b)
  {
    hide Work, Protocol.Writes;
    if a == [] {
      assert a + b == b;
    } else {
      assert (a + b)[0] == a[0] && (a + b)[1..] == a[1..] + b;
      EventsWorkAppend(server, a[1..], b);
    }
  }

  lemma BudgetNonNegative(server: Server, s: System)
    ensures Budget(server, s) >= 0
  {
    hide Exec, Work, LooseWork, EventsWork;
    ExecSplit(server, INITIAL, s.consumed, s.unread);
    var first := Exec(server, INITIAL, s.consumed);
    EventsWorkAppend(server, first.events, Exec(server, first.state, first.rest + s.unread).events);
  }

  lemma AdvanceLowers(c: Chain, n: nat)
    requires CanAdvance(c, n)
    ensures Work(Advance(c, n)) < Work(c)
  {
    if n < |c[0]| {
      assert Advance(c, n)[1..] == c[1..];
    }
  }

  lemma {:induction false} LooseWorkAppend(a: seq<Chain>, b: seq<Chain>)
    ensures LooseWork(a + b) == LooseWork(a) + LooseWork(b)
  {
    hide Work;
    if a == [] {
      assert a + b == b;
    } else {
      assert (a + b)[0] == a[0] && (a + b)[1..] == a[1..] + b;
      LooseWorkAppend(a[1..], b);
    }
  }

  lemma OneLoose(c: Chain)
    ensures LooseWork([c]) == Work(c) && LooseWork([]) == 0 && Work([]) == 0 && (c != [] ==> Work(c) > 0)
  {
    assert [c][1..] == [];
    assert LooseWork([]) == 0;
  }

  lemma LooseAt(a: seq<Chain>, c: Chain, b: seq<Chain>)
    ensures LooseWork(a + [c] + b) == LooseWork(a) + Work(c) + LooseWork(b)
  {
    LooseWorkAppend(a + [c], b);
    LooseWorkAppend(a, [c]);
    OneLoose(c);
  }

  lemma OneEvent(server: Server, e: Event)
    ensures EventsWork(server, [e]) == Work(EncodeEach(Protocol.Writes(server, e))) && EventsWork(server, []) == 0
  {
    assert [e][1..] == [];
    assert EventsWork(server, []) == 0;
  }

  /** The work asked for grows by that of the event. */
  lemma ReadAsks(server: Server, s: System, bytes: seq<byte>)
    requires ReaderAgrees(server, s)
    ensures var events := Exec(server, s.st, s.partial + bytes).events;
            AskedWork(server, s.consumed + bytes) == AskedWork(server, s.consumed) + EventsWork(server, events)
  {
    hide Exec, EventsWork;
    ExecSplit(server, INITIAL, s.consumed, bytes);
    EventsWorkAppend(server, Exec(server, INITIAL, s.consumed).events, Exec(server, s.st, s.partial + bytes).events);
  }

  lemma ReadLowers(server: Server, s: System, n: nat)
    requires Base(server, s) && Enabled(s, Reads(n))
    ensures Budget(server, Apply(server, s, Reads(n))) < Budget(server, s)
  {
    hide Exec, Receive, Work, LooseWork, EventsWork, Protocol.Writes, Detached, Missing, AskedWork, Sent;
    var bytes, unread := s.unread[..n], s.unread[n..];
    var s' := Receive(server, s, bytes, unread);
    assert s' == Apply(server, s, Reads(n));
    SentStep(server, s, Reads(n));
    assert Sent(s) + [] == Sent(s);
    ExecStops(server, INITIAL, s.consumed);
    ReceiveIsExec(server, s, bytes, unread);
    ReadAsks(server, s, bytes);
    var events := Exec(server, s.st, s.partial + bytes).events;
    var e := if events == [] then SslAsked else events[0];
    var writes := EncodeEach(Protocol.Writes(server, e));
    OneEvent(server, e);
    OneLoose(writes);
    LooseWorkAppend(s.loose, [writes]);
    if events == [] {
      assert EventsWork(server, events) == 0;
    } else {
      assert events == [e];
    }
  }

  lemma LooseLowers(server: Server, s: System, i: nat, n: nat)
    requires Enabled(s, WritesLoose(i, n))
    ensures Budget(server, Apply(server, s, WritesLoose(i, n))) < Budget(server, s)
  {
    hide AskedWork, Work, LooseWork;
    var c := s.loose[i];
    var c' := Advance(c, n);
    var s' := Apply(server, s, WritesLoose(i, n));
    AdvanceLowers(c, n);
    LooseAt(s.loose[..i], c, s.loose[i + 1..]);
    assert s.loose == s.loose[..i] + [c] + s.loose[i + 1..];
    LooseAt(s.loose[..i], c', s.loose[i + 1..]);
    LooseWorkAppend(s.loose[..i], s.loose[i + 1..]);
    assert c' != [] ==> s'.loose == s.loose[..i] + [c'] + s.loose[i + 1..];
  }

  /** Every step but those of the client lowers the work that is left. */
  lemma StepLowers(server: Server, s: System, a: Action)
    requires Base(server, s) && Enabled(s, a) && !a.ClientSends?
    ensures Budget(server, Apply(server, s, a)) < Budget(server, s)
  {
    hide ReaderAgrees, AskedWork, Work, LooseWork, Receive;
    match a
    case Reads(n) => ReadLowers(server, s, n);
    case Writes(n) => AdvanceLowers(s.chain, n);
    case WritesLoose(i, n) => LooseLowers(server, s, i, n);
    case Abandons =>
      LooseWorkAppend([s.loose[0]], s.loose[1..]);
      assert s.loose == [s.loose[0]] + s.loose[1..];
      OneLoose(s.loose[0]);
  }

  // ------------------------------------------------------------------ every schedule

  predicate NothingSent(actions: seq<Action>) {
    forall i :: 0 <= i < |actions| ==> !actions[i].ClientSends?
  }

  /** Every schedule, whatever the client has done: without further bytes from
      it there are at most so many steps. */
  lemma {:induction false} ScheduleEnds(server: Server, s: System, actions: seq<Action>)
    requires Base(server, s) && Possible(server, s, actions) && NothingSent(actions)
    ensures var s' := Final(server, s, actions);
            && Base(server, s') && Sent(s') == Sent(s)
            && |actions| + Budget(server, s') <= Budget(server, s)
    decreases |actions|
  {
    hide Base, Apply, Enabled, Sent, Budget;
    if actions != [] {
      var a := actions[0];
      BaseStep(server, s, a);
      SentStep(server, s, a);
      assert Sent(s) + [] == Sent(s);
      StepLowers(server, s, a);
      ScheduleEnds(server, Apply(server, s, a), actions[1..]);
    }
  }

  /** Any run can be brought to rest by the steps of the server. */
  lemma {:induction false} ToRest(server: Server, s: System) returns (actions: seq<Action>)
    requires Base(server, s)
    ensures Possible(server, s, actions) && NothingSent(actions) && !Busy(Final(server, s, actions))
    ensures Sent(Final(server, s, actions)) == Sent(s)
    decreases Budget(server, s)
  {
    hide Base, Apply, Enabled, Sent, Budget, Busy;
    if Busy(s) {
      var a := BusyCanStep(server, s);
      OneAction(server, s, a);
      BaseStep(server, s, a);
      SentStep(server, s, a);
      assert Sent(s) + [] == Sent(s);
      StepLowers(server, s, a);
      BudgetNonNegative(server, s);
      var more := ToRest(server, Apply(server, s, a));
      Compose(server, s, [a], more);
      actions := [a] + more;
    } else {
      actions := [];
      NoActions(server, s);
    }
  }

  /** What every schedule from here on comes to. */
  ghost predicate Finishes(server: Server, s: System, more: seq<Action>)
    requires Possible(server, s, more)
  {
    var s' := Final(server, s, more);
    && |more| <= Budget(server, s) && Sent(s') == Sent(s)
    && (if Busy(s') then exists a :: ServerStep(s', a)
        else s'.wire == ReplyBytes(server, Sent(s)) || (CutShort(server, Sent(s)) && AllButError(server, Sent(s), s'.wire)))
  }

  lemma CoreBase(server: Server, s: System)
    requires Core(server, s)
    ensures Base(server, s)
  {
  }

  lemma ScheduleRests(server: Server, s: System, more: seq<Action>)
    requires Base(server, s) && Possible(server, s, more) && NothingSent(more)
    requires Core(server, Final(server, s, more))
    ensures Finishes(server, s, more)
  {
    hide Possible, Final, Exec, Core, ReplyBytes, Sent, Budget, Busy, ServerStep, Base, NothingSent, CutShort, AllButError;
    ScheduleEnds(server, s, more);
    var s' := Final(server, s, more);
    BudgetNonNegative(server, s');
    if Busy(s') {
      var a := BusyCanStep(server, s');
    } else {
      RestIs(server, s');
    }
  }

  /** Every schedule after any polite run: in whatever order reads and writes
      then complete, there are at most so many steps; as long as something is
      left to do the server can go on, and when nothing is, the whole sequential
      reply has been sent, unless the session was closed on an error reply. */
  lemma EveryScheduleAnswers(server: Server, polite: seq<Action>, more: seq<Action>)
    requires Possible(server, START, polite) && AllPolite(server, START, polite)
    requires Possible(server, Final(server, START, polite), more) && NothingSent(more)
    ensures Finishes(server, Final(server, START, polite), more)
  {
    hide Inv, Possible, AllPolite, Final, Core, Base, Finishes;
    var s := Final(server, START, polite);
    InitialInv(server);
    RunKeeps(server, START, polite);
    InvCore(server, s);
    CoreBase(server, s);
    QuietIsPolite(server, s, more);
    RunKeeps(server, s, more);
    InvCore(server, Final(server, s, more));
    ScheduleRests(server, s, more);
  }

  /** The same for an input sent at will in which nothing is answered after a
      refused query. */
  lemma EveryScheduleAnswersAtWill(server: Server, sending: seq<Action>, more: seq<Action>)
    requires Possible(server, START, sending)
    requires !AnswersAfterError(Exec(server, INITIAL, Sent(Final(server, START, sending))).events)
    requires Possible(server, Final(server, START, sending), more) && NothingSent(more)
    ensures Finishes(server, Final(server, START, sending), more)
  {
    hide Inv, Possible, Final, Exec, Core, Base, Finishes, AnswersAfterError, Sent;
    var s := Final(server, START, sending);
    InitialInv(server);
    InvCore(server, START);
    RunKeeps2(server, Sent(s), START, sending);
    CoreBase(server, s);
    SentGrows(server, s, more);
    RunKeeps2(server, Sent(s), s, more);
    ScheduleRests(server, s, more);
  }

  /** A counting client has an answer to every request exactly when the whole
      reply has arrived and no query was left waiting; at rest, in a session
      that was not closed on an error reply, the first goes without saying. */
  lemma CountingClientAnswered(server: Server, actions: seq<Action>)
    requires WellBehaved(server) && Possible(server, START, actions) && AllCounting(server, START, actions)
    ensures var s := Final(server, START, actions);
            var answered := Answers(DecodeAll(s.wire).0) == RequestsIn(server, Sent(s));
            var noneWaits := forall e :: e in Exec(server, INITIAL, Sent(s)).events ==> !LeftWaiting(e);
            && (answered <==> s.wire == ReplyBytes(server, Sent(s)) && noneWaits)
            && (!Busy(s) && !CutShort(server, Sent(s)) ==> (answered <==> noneWaits))
  {
    hide Inv, WellBehaved, Possible, AllPolite, AllCounting, Final, Exec, Core, ReplyBytes, DecodeAll, Answers,
         RequestsIn, LeftWaiting, Busy, Sent, CutShort, AllButError;
    InitialInv(server);
    CountingRunIsPolite(server, START, actions);
    RunKeeps(server, START, actions);
    var s := Final(server, START, actions);
    InvCore(server, s);
    WireIsPrefix(server, s);
    AllAnsweredIff(server, Sent(s));
    if Answers(DecodeAll(s.wire).0) == RequestsIn(server, Sent(s)) {
      AllAnswered(server, Sent(s), s.wire);
    }
    if !Busy(s) {
      RestIs(server, s);
    }
  }
}
