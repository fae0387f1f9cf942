/** Safety of the step system over every run: what has been sent is a prefix of
    what the sequential reply function gives. */
module Interleavings {
  import opened Bytes
  import opened Messages
  import opened Protocol
  import opened Accounts
  import opened Steps

  // ------------------------------------------------------------------ the last reply

  /** Is this event answered? A Fatal error is not. */
  predicate Replied(e: Event) {
    e.SslAsked? || e.Started? || (e.Queried? && !(e.outcome.ParseFailure? && e.outcome.severity == Fatal))
  }

  /** The last answered event is a refused query: nothing is answered after the
      error reply. */
  predicate ErrorLast(events: seq<Event>) {
    events != [] &&
    (Detached(events[|events| - 1]) || (!Replied(events[|events| - 1]) && ErrorLast(events[..|events| - 1])))
  }

  /** What is sent before that error reply. */
  function BeforeError(server: Server, events: seq<Event>): seq<Message> {
    if events == [] then []
    else if Detached(events[|events| - 1]) then Output(server, events[..|events| - 1])
    else BeforeError(server, events[..|events| - 1])
  }

  lemma RepliedWrites(server: Server, e: Event)
    ensures Replied(e) <==> Protocol.Writes(server, e) != []
    ensures Replied(e) ==> Reply(server, e) != []
    ensures !Replied(e) ==> Reply(server, e) == []
  {
    if Replied(e) {
      assert Protocol.Writes(server, e)[0] != [];
      assert Reply(server, e) == Protocol.Writes(server, e)[0] + Flatten(Protocol.Writes(server, e)[1..]);
    }
  }

  lemma ErrorLastSnoc(server: Server, events: seq<Event>, e: Event)
    ensures ErrorLast(events + [e]) <==> Detached(e) || (!Replied(e) && ErrorLast(events))
    ensures BeforeError(server, events + [e])
            == if Detached(e) then Output(server, events) else BeforeError(server, events)
  {
    var all := events + [e];
    assert all[|all| - 1] == e && all[..|all| - 1] == events;
  }

  /** What is sent is what comes before the error reply, and the error reply. */
  lemma {:induction false} ErrorIsLast(server: Server, events: seq<Event>) returns (e: Event)
    requires ErrorLast(events)
    ensures Detached(e) && Output(server, events) == BeforeError(server, events) + Reply(server, e)
    decreases |events|
  {
    hide Reply, Detached, Replied;
    var front, last := events[..|events| - 1], events[|events| - 1];
    assert events == front + [last];
    OutputAppend(server, front, [last]);
    OutputOne(server, last);
    if Detached(last) {
      e := last;
    } else {
      e := ErrorIsLast(server, front);
      RepliedWrites(server, last);
    }
  }

  // ------------------------------------------------------------------ the invariant

  function LooseBytes(s: System): seq<byte> {
    if s.loose == [] then [] else Flatten(s.loose[0])
  }

  /** The reader is where the sequential function is after the bytes consumed. */
  ghost predicate ReaderAgrees(server: Server, s: System) {
    var r := Exec(server, INITIAL, s.consumed);
    r.state == s.st && r.rest == s.partial
  }

  /** At most one chain of writes is under way, and it has bytes left. */
  ghost predicate OneWriter(s: System) {
    && Live(s.chain) && |s.loose| <= 1
    && (s.loose != [] ==> s.loose[0] != [] && Live(s.loose[0]))
    && (s.chain != [] ==> s.loose == [] && s.st.mode == Open)
  }

  /** Everything before the error reply that comes last has been sent. */
  ghost predicate AtError(server: Server, s: System) {
    var events := Exec(server, INITIAL, s.consumed).events;
    ErrorLast(events) && EncodeAll(BeforeError(server, events)) <= s.wire
  }

  /** What is written beside the reader is the error reply that comes last. */
  ghost predicate LooseIsError(server: Server, s: System) {
    s.loose != [] ==> AtError(server, s)
  }

  /** What is sent and what is still to be written make up the reply to what
      has been consumed; a closed session may have given up an error reply. */
  ghost predicate NothingLost(server: Server, s: System) {
    var all := s.wire + Flatten(s.chain) + LooseBytes(s);
    || all == ReplyBytes(server, s.consumed)
    || (s.st.mode == Closed && AtError(server, s) && all <= ReplyBytes(server, s.consumed))
  }

  ghost predicate InStep(server: Server, s: System, k: nat)
    requires |s.consumed| <= k <= |Sent(s)|
  {
    var r := ReplyBytes(server, Sent(s)[..k]);
    r == ReplyBytes(server, s.consumed) || r == ReplyBytes(server, Sent(s))
  }

  /** What the client has sent ahead of the reader holds at most one request,
      and that one was completed when the client had all earlier replies. */
  ghost predicate OneAhead(server: Server, s: System) {
    && (ReplyBytes(server, Sent(s)) != ReplyBytes(server, s.consumed) ==> s.wire == ReplyBytes(server, s.consumed))
    && (forall k {:trigger InStep(server, s, k)} :: |s.consumed| <= k <= |Sent(s)| ==> InStep(server, s, k))
  }

  ghost predicate Core(server: Server, s: System) {
    ReaderAgrees(server, s) && OneWriter(s) && NothingLost(server, s) && LooseIsError(server, s)
  }

  ghost predicate Inv(server: Server, s: System) {
    Core(server, s) && OneAhead(server, s)
  }

  // ------------------------------------------------------------------ every step keeps it

  lemma InitialInv(server: Server)
    ensures Inv(server, START)
  {
    assert Sent(START) == [];
    ExecNothing(server, INITIAL);
    assert Output(server, []) == [];
    assert EncodeAll([]) == [];
    assert Flatten<byte>([]) == [];
    forall k | 0 <= k <= 0 ensures InStep(server, START, k) {
      assert Sent(START)[..k] == [];
    }
  }

  /** When nothing of the reply is missing, nothing is being written. */
  lemma Idle(server: Server, s: System)
    requires OneWriter(s) && NothingLost(server, s) && s.wire == ReplyBytes(server, s.consumed)
    ensures s.chain == [] && s.loose == []
  {
    hide ReplyBytes, Live;
    LiveHasBytes(s.chain);
    if s.loose != [] {
      LiveHasBytes(s.loose[0]);
    }
    assert |s.wire| + |Flatten(s.chain)| + |LooseBytes(s)| <= |s.wire|;
  }

  lemma SendKeeps(server: Server, s: System, b: byte)
    requires Inv(server, s) && Polite(server, s, ClientSends(b))
    ensures Inv(server, Apply(server, s, ClientSends(b)))
  {
    hide ReplyBytes, Exec, Live, Flatten;
    var s' := Apply(server, s, ClientSends(b));
    var sent, sent' := Sent(s), Sent(s');
    assert sent' == sent + [b];
    SendCore(server, s, b);
    RepliesGrow(server, s.consumed, s.unread);
    forall k | |s'.consumed| <= k <= |sent'| ensures InStep(server, s', k) {
      if k <= |sent| {
        assert InStep(server, s, k);
        assert sent'[..k] == sent[..k];
      } else {
        assert sent'[..k] == sent';
      }
    }
  }

  lemma WriteCore(server: Server, s: System, n: nat)
    requires Core(server, s) && Enabled(s, Action.Writes(n))
    ensures Core(server, Apply(server, s, Action.Writes(n)))
  {
    hide ReplyBytes, Exec, Live, Flatten;
    var s' := Apply(server, s, Action.Writes(n));
    AdvanceKeeps(s.chain, n);
    Regroup(s.wire, s.chain[0][..n], Flatten(s'.chain));
    assert s'.wire + Flatten(s'.chain) == s.wire + Flatten(s.chain);
  }

  /** A transfer of the only chain that is written beside the reader. */
  lemma OnlyLoose(server: Server, s: System, i: nat, n: nat)
    requires Enabled(s, WritesLoose(i, n)) && |s.loose| == 1 && Live(s.loose[0])
    ensures var s' := Apply(server, s, WritesLoose(i, n));
            && s' == s.(loose := s'.loose, wire := s'.wire)
            && |s'.loose| <= 1 && (s'.loose != [] ==> s'.loose[0] != [] && Live(s'.loose[0]))
            && s.wire <= s'.wire && s'.wire + LooseBytes(s') == s.wire + LooseBytes(s)
  {
    hide Live, Advance, Flatten;
    var c, s' := Advance(s.loose[0], n), Apply(server, s, WritesLoose(i, n));
    AdvanceKeeps(s.loose[0], n);
    FlattenNothing<byte>();
    assert s'.loose == if c == [] then [] else [c];
    assert LooseBytes(s') == Flatten(c);
    Regroup(s.wire, s.loose[0][0][..n], Flatten(c));
  }

  lemma WriteLooseCore(server: Server, s: System, i: nat, n: nat)
    requires Core(server, s) && Enabled(s, WritesLoose(i, n))
    ensures Core(server, Apply(server, s, WritesLoose(i, n)))
  {
    hide ReplyBytes, Exec, Live, AtError, Flatten, Apply, LooseBytes;
    OnlyLoose(server, s, i, n);
    FlattenNothing<byte>();
    var s' := Apply(server, s, WritesLoose(i, n));
    assert s.wire + [] == s.wire && s'.wire + [] == s'.wire;
    MoreSent(server, s, s');
  }

  lemma MoreSent(server: Server, s: System, s': System)
    requires AtError(server, s) && s'.consumed == s.consumed && s.wire <= s'.wire
    ensures AtError(server, s')
  {
    hide Exec, EncodeAll;
  }

  lemma AbandonCore(server: Server, s: System)
    requires Core(server, s) && Enabled(s, Abandons)
    ensures Core(server, Apply(server, s, Abandons))
  {
    hide ReplyBytes, Exec, Live;
    var s' := Apply(server, s, Abandons);
    assert s'.wire + Flatten(s'.chain) + LooseBytes(s') <= s.wire + Flatten(s.chain) + LooseBytes(s);
  }

  lemma SendCore(server: Server, s: System, b: byte)
    requires Core(server, s)
    ensures Core(server, Apply(server, s, ClientSends(b)))
  {
    hide ReplyBytes, Exec, Live, Flatten;
    assert LooseBytes(Apply(server, s, ClientSends(b))) == LooseBytes(s);
  }

  lemma WriteKeeps(server: Server, s: System, a: Action)
    requires Inv(server, s) && Enabled(s, a) && (a.Writes? || a.WritesLoose? || a.Abandons?)
    ensures Inv(server, Apply(server, s, a))
  {
    hide Core, OneAhead;
    match a {
      case Writes(n) =>
        WriteCore(server, s, n);
        NoOneAhead(server, s);
      case WritesLoose(i, n) =>
        WriteLooseCore(server, s, i, n);
        NoOneAhead(server, s);
      case Abandons => AbandonCore(server, s);
    }
    SameAhead(server, s, Apply(server, s, a));
  }

  /** While something is being written, the client has no request outstanding. */
  lemma NoOneAhead(server: Server, s: System)
    requires Inv(server, s) && (s.chain != [] || s.loose != [])
    ensures ReplyBytes(server, Sent(s)) == ReplyBytes(server, s.consumed)
  {
    hide ReplyBytes, Exec, Live, Flatten;
    if ReplyBytes(server, Sent(s)) != ReplyBytes(server, s.consumed) {
      Idle(server, s);
    }
  }

  lemma SameAhead(server: Server, s: System, s': System)
    requires OneAhead(server, s) && s'.consumed == s.consumed && s'.unread == s.unread
    requires s'.wire == s.wire || ReplyBytes(server, Sent(s)) == ReplyBytes(server, s.consumed)
    ensures OneAhead(server, s')
  {
    hide ReplyBytes;
    forall k | |s'.consumed| <= k <= |Sent(s')| ensures InStep(server, s', k) {
      assert InStep(server, s, k);
    }
  }

  /** The reply to what has been consumed grows by the reply to the event. */
  lemma ReceiveReply(server: Server, s: System, bytes: seq<byte>, unread: seq<byte>)
    requires ReaderAgrees(server, s) && s.st.mode == Open && s.chain == []
    requires |bytes| <= Missing(s.st.startupDone, s.partial)
    ensures var s' := Receive(server, s, bytes, unread);
            var r := Exec(server, s.st, s.partial + bytes);
            && ReaderAgrees(server, s')
            && (r.events == [] ==> ReplyBytes(server, s'.consumed) == ReplyBytes(server, s.consumed))
            && (r.events != [] ==>
                  ReplyBytes(server, s'.consumed)
                  == ReplyBytes(server, s.consumed) + Flatten(EncodeEach(Protocol.Writes(server, r.events[0]))))
  {
    hide Exec, Protocol.Writes, Receive;
    ExecStops(server, INITIAL, s.consumed);
    ReceiveIsExec(server, s, bytes, unread);
    ExecSplit(server, INITIAL, s.consumed, bytes);
    var first := Exec(server, INITIAL, s.consumed);
    var r := Exec(server, s.st, s.partial + bytes);
    if r.events == [] {
      assert first.events + r.events == first.events;
    } else {
      var e := r.events[0];
      assert r.events == [e];
      OutputAppend(server, first.events, [e]);
      OutputOne(server, e);
      EncodeAllAppend(Output(server, first.events), Reply(server, e));
      EncodeEachFlatten(Protocol.Writes(server, e));
    }
  }

  /** Reading an event that is not answered, or a refused query when all
      earlier replies have been sent. */
  lemma AtErrorAfter(server: Server, s: System, s': System, new': seq<Event>)
    requires Exec(server, INITIAL, s'.consumed).events == Exec(server, INITIAL, s.consumed).events + new'
    requires |new'| <= 1 && s'.wire == s.wire
    ensures AtError(server, s) && (new' == [] || !Replied(new'[0])) ==> AtError(server, s')
    ensures new' != [] && Detached(new'[0]) && s.wire == ReplyBytes(server, s.consumed) ==> AtError(server, s')
  {
    hide Exec, Output, EncodeAll, ErrorLast, BeforeError;
    var events := Exec(server, INITIAL, s.consumed).events;
    if new' == [] {
      assert events + new' == events;
    } else {
      assert new' == [new'[0]];
      ErrorLastSnoc(server, events, new'[0]);
    }
  }

  /** A read keeps the writers in order when it is not answered, or finds no
      error reply still being written. */
  lemma ReadCore(server: Server, s: System, n: nat)
    requires Core(server, s) && Enabled(s, Reads(n))
    requires |ReplyBytes(server, s.consumed + s.unread[..n])| > |ReplyBytes(server, s.consumed)| ==> s.loose == []
    ensures Core(server, Apply(server, s, Reads(n)))
  {
    hide ReplyBytes, Exec, Live, Flatten, Receive, Protocol.Writes, AtError, Detached, Replied;
    var bytes, unread := s.unread[..n], s.unread[n..];
    var s' := Receive(server, s, bytes, unread);
    var events := Exec(server, s.st, s.partial + bytes).events;
    ExecStops(server, INITIAL, s.consumed);
    ReceiveIsExec(server, s, bytes, unread);
    ReceiveReply(server, s, bytes, unread);
    ExecSplit(server, INITIAL, s.consumed, bytes);
    AtErrorAfter(server, s, s', events);
    if events == [] {
      QuietRead(server, s, s');
    } else {
      WritesLive(server, events[0]);
      RepliedWrites(server, events[0]);
      var writes := EncodeEach(Protocol.Writes(server, events[0]));
      LiveHasBytes(writes);
      FlattenNothing<byte>();
      if writes == [] {
        assert ReplyBytes(server, s'.consumed) == ReplyBytes(server, s.consumed) + [];
        QuietRead(server, s, s');
      } else {
        assert |ReplyBytes(server, s'.consumed)| > |ReplyBytes(server, s.consumed)|;
        assert s.wire + [] + [] == s.wire;
        AnsweredRead(server, s, s', writes);
      }
    }
  }

  lemma ReadKeeps(server: Server, s: System, n: nat)
    requires Inv(server, s) && Enabled(s, Reads(n))
    ensures Inv(server, Apply(server, s, Reads(n)))
  {
    hide ReplyBytes, Exec, Live, Flatten, Receive, AtError;
    var bytes, unread := s.unread[..n], s.unread[n..];
    var s' := Apply(server, s, Reads(n));
    assert s' == Receive(server, s, bytes, unread);
    ExecStops(server, INITIAL, s.consumed);
    ReceiveIsExec(server, s, bytes, unread);
    assert s.unread == bytes + unread;
    Regroup(s.consumed, bytes, unread);
    assert Sent(s') == Sent(s);
    var k := |s'.consumed|;
    assert Sent(s)[..k] == s'.consumed;
    assert InStep(server, s, k);
    AheadAfterRead(server, s, s');
    if |ReplyBytes(server, s'.consumed)| > |ReplyBytes(server, s.consumed)| {
      Idle(server, s);
    }
    ReadCore(server, s, n);
  }

  lemma FlattenNothing<T>()
    ensures Flatten<T>([]) == []
  {
  }

  lemma QuietRead(server: Server, s: System, s': System)
    requires OneWriter(s) && NothingLost(server, s) && LooseIsError(server, s) && s.st.mode == Open
    requires s'.wire == s.wire && s'.chain == s.chain == [] && s'.loose == s.loose
    requires ReplyBytes(server, s'.consumed) == ReplyBytes(server, s.consumed)
    requires AtError(server, s) ==> AtError(server, s')
    ensures OneWriter(s') && NothingLost(server, s') && LooseIsError(server, s')
  {
    hide ReplyBytes, Live, Flatten, AtError;
  }

  lemma AnsweredRead(server: Server, s: System, s': System, writes: Chain)
    requires s'.wire == s.wire == ReplyBytes(server, s.consumed) && writes != [] && Live(writes)
    requires (s'.chain == writes && s'.loose == []) || (s'.chain == [] && s'.loose == [writes] && AtError(server, s'))
    requires s'.st.mode == Open
    requires ReplyBytes(server, s'.consumed) == ReplyBytes(server, s.consumed) + Flatten(writes)
    ensures OneWriter(s') && NothingLost(server, s') && LooseIsError(server, s')
  {
    hide ReplyBytes, Flatten, AtError;
    FlattenNothing<byte>();
    assert s.wire + Flatten(writes) + [] == s.wire + [] + Flatten(writes) == s.wire + Flatten(writes);
  }

  lemma AheadAfterRead(server: Server, s: System, s': System)
    requires OneAhead(server, s) && s'.wire == s.wire && Sent(s') == Sent(s)
    requires s.consumed <= s'.consumed
    requires |s.consumed| <= |s'.consumed| <= |Sent(s)| && s'.consumed == Sent(s)[..|s'.consumed|]
    ensures OneAhead(server, s')
  {
    hide ReplyBytes, InStep;
    assert InStep(server, s, |s'.consumed|);
    InStepValue(server, s, |s'.consumed|);
    forall k | |s'.consumed| <= k <= |Sent(s')| ensures InStep(server, s', k) {
      assert InStep(server, s, k);
      StillInStep(server, s, s', k);
    }
  }

  lemma InStepValue(server: Server, s: System, k: nat)
    requires |s.consumed| <= k <= |Sent(s)| && InStep(server, s, k)
    ensures var r := ReplyBytes(server, Sent(s)[..k]);
            r == ReplyBytes(server, s.consumed) || r == ReplyBytes(server, Sent(s))
  {
  }

  lemma StillInStep(server: Server, s: System, s': System, k: nat)
    requires Sent(s') == Sent(s) && s.consumed <= s'.consumed
    requires |s'.consumed| <= k <= |Sent(s)| && s'.consumed == Sent(s)[..|s'.consumed|]
    requires InStep(server, s, |s'.consumed|) && InStep(server, s, k)
    ensures InStep(server, s', k)
  {
    hide ReplyBytes;
    var more := Sent(s)[|s'.consumed|..k];
    assert Sent(s)[..k] == s'.consumed + more;
    RepliesGrow(server, s'.consumed, more);
    var since := s'.consumed[|s.consumed|..];
    assert s'.consumed == s.consumed + since;
    RepliesGrow(server, s.consumed, since);
  }

  lemma StepKeeps(server: Server, s: System, a: Action)
    requires Inv(server, s) && Enabled(s, a) && Polite(server, s, a)
    ensures Inv(server, Apply(server, s, a))
  {
    hide Inv, Apply, Polite;
    match a
    case ClientSends(b) => SendKeeps(server, s, b);
    case Reads(n) => ReadKeeps(server, s, n);
    case Writes(_) => WriteKeeps(server, s, a);
    case WritesLoose(_, _) => WriteKeeps(server, s, a);
    case Abandons => WriteKeeps(server, s, a);
  }

  lemma {:induction false} RunKeeps(server: Server, s: System, actions: seq<Action>)
    requires Inv(server, s) && Possible(server, s, actions) && AllPolite(server, s, actions)
    ensures Inv(server, Final(server, s, actions))
    decreases |actions|
  {
    hide Inv, Apply, Polite, Enabled;
    if actions != [] {
      StepKeeps(server, s, actions[0]);
      RunKeeps(server, Apply(server, s, actions[0]), actions[1..]);
    }
  }

  // ------------------------------------------------------------------ the theorems

  /** Every interleaving of read and write completions: while the client is
      polite, the bytes sent are a prefix of the sequential reply to what the
      client has sent, although the error path overlaps reading and writing. */
  lemma PrefixOfSequential(server: Server, actions: seq<Action>)
    requires Possible(server, START, actions) && AllPolite(server, START, actions)
    ensures var s := Final(server, START, actions);
            s.wire <= ReplyBytes(server, Sent(s))
  {
    hide Inv, Possible, AllPolite, Final, ReplyBytes;
    InitialInv(server);
    RunKeeps(server, START, actions);
    InvCore(server, Final(server, START, actions));
    WireIsPrefix(server, Final(server, START, actions));
  }

  lemma InvCore(server: Server, s: System)
    requires Inv(server, s)
    ensures Core(server, s)
  {
  }

  lemma WireIsPrefix(server: Server, s: System)
    requires Core(server, s)
    ensures s.wire <= ReplyBytes(server, s.consumed) <= ReplyBytes(server, Sent(s))
  {
    hide ReplyBytes, Exec, Live, Flatten;
    RepliesGrow(server, s.consumed, s.unread);
    assert s.wire <= s.wire + Flatten(s.chain) + LooseBytes(s);
  }

  /** The session is closed, by Terminate or a Fatal error, and nothing was
      answered after its last refused query. */
  predicate CutShort(server: Server, input: seq<byte>) {
    var r := Exec(server, INITIAL, input);
    r.state.mode == Closed && ErrorLast(r.events)
  }

  /** What is missing from this wire is at most the error reply that comes last,
      or the end of it. */
  ghost predicate AllButError(server: Server, input: seq<byte>, wire: seq<byte>) {
    EncodeAll(BeforeError(server, Exec(server, INITIAL, input).events)) <= wire <= ReplyBytes(server, input)
  }

  /** At rest, everything has been sent, unless the session was closed while an
      error reply might still be written. */
  lemma RestIs(server: Server, s: System)
    requires Core(server, s) && !Busy(s)
    ensures s.wire == ReplyBytes(server, Sent(s))
            || (CutShort(server, Sent(s)) && AllButError(server, Sent(s), s.wire))
  {
    hide Exec, Output, EncodeAll, Live, BeforeError, ErrorLast;
    FlattenNothing<byte>();
    assert s.wire + [] + [] == s.wire;
    if s.st.mode == Open {
      assert Sent(s) == s.consumed;
    } else {
      Absorbed(server, s.consumed, s.unread);
    }
  }

  /** Nothing is left out: when no write is under way and the reader has taken
      all that was sent, or has stopped, the whole sequential reply has been
      sent; only an error reply that comes last may be missing, in whole or in
      part, when the session is closed. */
  lemma CompleteWhenIdle(server: Server, actions: seq<Action>)
    requires Possible(server, START, actions) && AllPolite(server, START, actions)
    requires !Busy(Final(server, START, actions))
    ensures var s := Final(server, START, actions);
            s.wire == ReplyBytes(server, Sent(s)) || (CutShort(server, Sent(s)) && AllButError(server, Sent(s), s.wire))
  {
    hide Inv, Possible, AllPolite, Final, ReplyBytes, Exec, Core, CutShort, AllButError, Busy;
    InitialInv(server);
    RunKeeps(server, START, actions);
    InvCore(server, Final(server, START, actions));
    RestIs(server, Final(server, START, actions));
  }
}
