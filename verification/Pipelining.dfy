/** Clients that do not wait: exactly which inputs may be sent at will, and
    which servers are safe with every input. */
module Pipelining {
  import opened Bytes
  import opened Messages
  import opened Protocol
  import opened Decoding
  import opened Transcripts
  import opened Accounts
  import opened Steps
  import opened Interleavings
  import opened Queries

  /** A query is refused, with an error reply that is written while the reader
      runs, and something after it is answered. */
  ghost predicate AnswersAfterError(events: seq<Event>) {
    exists i, j :: 0 <= i < j < |events| && Detached(events[i]) && Replied(events[j])
  }

  /** However the client sends this input, or a beginning of it, and however
      reads and writes complete, the bytes sent are a prefix of the sequential
      reply. */
  ghost predicate SafeInput(server: Server, input: seq<byte>) {
    forall actions | Possible(server, START, actions) && Sent(Final(server, START, actions)) <= input ::
      Final(server, START, actions).wire <= ReplyBytes(server, Sent(Final(server, START, actions)))
  }

  ghost predicate AlwaysPrefix(server: Server) {
    forall actions | Possible(server, START, actions) ::
      Final(server, START, actions).wire <= ReplyBytes(server, Sent(Final(server, START, actions)))
  }

  ghost predicate NeverOvertakes(server: Server) {
    forall input :: !AnswersAfterError(Exec(server, INITIAL, input).events)
  }

  // ------------------------------------------------------------------ the byte at which a reply is overtaken

  /** After this input the last reply is an error reply, and the next byte
      makes the server answer again. */
  predicate Overtakes(server: Server, input: seq<byte>, b: byte) {
    ErrorLast(Exec(server, INITIAL, input).events) && Elicits(server, input, b)
  }

  /** An error reply with nothing answered after it is the last reply. */
  lemma {:induction false} ErrorStandsFrom(server: Server, events: seq<Event>, i: nat)
    requires i < |events| && Detached(events[i]) && !AnswersAfterError(events)
    ensures ErrorLast(events)
    decreases |events|
  {
    hide Detached, Replied, Protocol.Writes;
    var n := |events| - 1;
    if i < n {
      assert !Replied(events[n]);
      RepliedWrites(server, events[n]);
      assert events[..n][i] == events[i];
      if AnswersAfterError(events[..n]) {
        AnswersFewer(events, n);
      }
      ErrorStandsFrom(server, events[..n], i);
    }
  }

  lemma AnswersFewer(events: seq<Event>, n: nat)
    requires n <= |events| && AnswersAfterError(events[..n])
    ensures AnswersAfterError(events)
  {
    hide Detached, Replied;
    var i, j :| 0 <= i < j < n && Detached(events[..n][i]) && Replied(events[..n][j]);
    assert events[i] == events[..n][i] && events[j] == events[..n][j];
  }

  lemma NewlyAnswered(server: Server, events: seq<Event>, e: Event)
    requires !AnswersAfterError(events) && AnswersAfterError(events + [e])
    ensures ErrorLast(events) && Replied(e)
  {
    hide Detached, Replied, ErrorLast;
    var all := events + [e];
    var i, j :| 0 <= i < j < |all| && Detached(all[i]) && Replied(all[j]);
    assert all[i] == events[i];
    assert j == |events|;
    ErrorStandsFrom(server, events, i);
  }

  lemma ElicitsIff(server: Server, input: seq<byte>, b: byte, e: Event)
    requires Exec(server, INITIAL, input + [b]).events == Exec(server, INITIAL, input).events + [e]
    ensures Elicits(server, input, b) <==> Replied(e)
  {
    hide Exec, Output, Replied, Protocol.Writes;
    var events := Exec(server, INITIAL, input).events;
    OutputAppend(server, events, [e]);
    OutputOne(server, e);
    EncodeAllAppend(Output(server, events), Reply(server, e));
    RepliedWrites(server, e);
    EncodeAllNothing();
    if Replied(e) {
      EncodeAllNonEmpty(Reply(server, e));
    }
  }

  lemma EncodeAllNothing()
    ensures EncodeAll([]) == []
    ensures forall bytes: seq<byte> :: bytes + [] == bytes
  {
  }

  /** Where in the input the overtaking answer is asked for. */
  lemma {:induction false} FindOvertaking(server: Server, input: seq<byte>) returns (n: nat)
    requires AnswersAfterError(Exec(server, INITIAL, input).events)
    ensures n < |input| && Overtakes(server, input[..n], input[n])
    decreases |input|
  {
    hide Exec, ErrorLast, Elicits, AnswersAfterError;
    if input == [] {
      NothingAnswered(server);
      assert false;
    } else {
      n := |input| - 1;
      var first, later := Exec(server, INITIAL, input[..n]).events, Exec(server, INITIAL, input).events;
      assert input == input[..n] + [input[n]];
      ExecByte(server, input[..n], input[n]);
      if AnswersAfterError(first) {
        var n' := FindOvertaking(server, input[..n]);
        assert input[..n][..n'] == input[..n'] && input[..n][n'] == input[n'];
        n := n';
      } else {
        assert later != first;
        assert later == first + [later[|first|]];
        NewlyAnswered(server, first, later[|first|]);
        ElicitsIff(server, input[..n], input[n], later[|first|]);
      }
    }
  }

  lemma NothingAnswered(server: Server)
    ensures !AnswersAfterError(Exec(server, INITIAL, []).events)
  {
    ExecNothing(server, INITIAL);
  }

  lemma OvertakingFound(server: Server, input: seq<byte>, n: nat)
    requires n < |input| && Overtakes(server, input[..n], input[n])
    ensures AnswersAfterError(Exec(server, INITIAL, input).events)
  {
    hide Exec, ErrorLast, Elicits, AnswersAfterError, Output, EncodeAll;
    var now := input[..n] + [input[n]];
    var first, later := Exec(server, INITIAL, input[..n]).events, Exec(server, INITIAL, now).events;
    ExecByte(server, input[..n], input[n]);
    if later == first {
      SameEvents(server, input[..n], input[n]);
      assert false;
    }
    assert later == first + [later[|first|]];
    ElicitsIff(server, input[..n], input[n], later[|first|]);
    var i := ErrorLastHasError(server, first);
    assert later[i] == first[i];
    PairAnswers(later, i, |first|);
    assert input == now + input[n + 1..];
    ExecSplit(server, INITIAL, now, input[n + 1..]);
    var all := Exec(server, INITIAL, input).events;
    assert all[..|later|] == later;
    AnswersFewer(all, |later|);
  }

  lemma SameEvents(server: Server, input: seq<byte>, b: byte)
    requires Exec(server, INITIAL, input + [b]).events == Exec(server, INITIAL, input).events
    ensures !Elicits(server, input, b)
  {
  }

  lemma PairAnswers(events: seq<Event>, i: nat, j: nat)
    requires i < j < |events| && Detached(events[i]) && Replied(events[j])
    ensures AnswersAfterError(events)
  {
  }

  lemma {:induction false} ErrorLastHasError(server: Server, events: seq<Event>) returns (i: nat)
    requires ErrorLast(events)
    ensures i < |events| && Detached(events[i])
    decreases |events|
  {
    hide Detached, Protocol.Writes;
    if Detached(events[|events| - 1]) {
      i := |events| - 1;
    } else {
      i := ErrorLastHasError(server, events[..|events| - 1]);
    }
  }

  // ------------------------------------------------------------------ inputs without an answer after an error are safe

  /** One byte completes at most one frame. */
  lemma ExecByte(server: Server, input: seq<byte>, b: byte)
    ensures var first, all := Exec(server, INITIAL, input), Exec(server, INITIAL, input + [b]);
            && first.events <= all.events && |all.events| <= |first.events| + 1
            && all.events == first.events + Exec(server, first.state, first.rest + [b]).events
  {
    hide ScanFrame, Interpret, After;
    ExecSplit(server, INITIAL, input, [b]);
    ExecStops(server, INITIAL, input);
    var first := Exec(server, INITIAL, input);
    if first.state.mode == Open {
      MissingSome(first.state.startupDone, first.rest);
      ReceiveIsExec(server, System(input, [], first.rest, first.state, [], [], []), [b], []);
    }
  }

  lemma MissingSome(startupDone: bool, partial: seq<byte>)
    requires ScanFrame(startupDone, partial) == Incomplete
    ensures Missing(startupDone, partial) >= 1
  {
  }

  /** Before its last byte has come, a read completes no frame. */
  lemma NoFrameBefore(server: Server, s: System, n: nat)
    requires ReaderAgrees(server, s) && Enabled(s, Reads(n))
    ensures var before := s.consumed + s.unread[..n - 1];
            Exec(server, INITIAL, before).events == Exec(server, INITIAL, s.consumed).events
  {
    hide Exec, ScanFrame;
    var bytes := s.unread[..n - 1];
    ExecSplit(server, INITIAL, s.consumed, bytes);
    ExecStops(server, INITIAL, s.consumed);
    ReadsOneFrame(s.st.startupDone, s.partial, s.unread[..n]);
    var partial := s.partial + bytes;
    assert s.partial + s.unread[..n] == partial + [s.unread[n - 1]];
    ScanMore(s.st.startupDone, partial, [s.unread[n - 1]]);
    ExecOnePart(server, s.st, partial);
    var events := Exec(server, INITIAL, s.consumed).events;
    assert events + [] == events;
  }

  lemma ExecOnePart(server: Server, st: State, partial: seq<byte>)
    requires !ScanFrame(st.startupDone, partial).Whole?
    ensures Exec(server, st, partial).events == []
  {
  }

  /** A read that is answered finds nothing being written. */
  lemma NotLoose(server: Server, input: seq<byte>, s: System, n: nat)
    requires !AnswersAfterError(Exec(server, INITIAL, input).events) && Sent(s) <= input
    requires Core(server, s) && Enabled(s, Reads(n))
    requires |ReplyBytes(server, s.consumed + s.unread[..n])| > |ReplyBytes(server, s.consumed)|
    ensures s.loose == []
  {
    hide Exec, Output, ErrorLast, EncodeAll, Live, Flatten, AnswersAfterError;
    var before, b := s.consumed + s.unread[..n - 1], s.unread[n - 1];
    NoFrameBefore(server, s, n);
    assert before + [b] == s.consumed + s.unread[..n];
    assert Sent(s)[..|before|] == before && Sent(s)[|before|] == b;
    assert input[..|before|] == before && input[|before|] == b;
    if s.loose != [] {
      OvertakingFound(server, input, |before|);
    }
  }

  lemma StepKeeps2(server: Server, input: seq<byte>, s: System, a: Action)
    requires !AnswersAfterError(Exec(server, INITIAL, input).events) && Sent(s) <= input
    requires Core(server, s) && Enabled(s, a)
    ensures Core(server, Apply(server, s, a))
  {
    hide AnswersAfterError, Core, Exec, ErrorLast, ReplyBytes;
    match a
    case ClientSends(b) => SendCore(server, s, b);
    case Reads(n) =>
      if |ReplyBytes(server, s.consumed + s.unread[..n])| > |ReplyBytes(server, s.consumed)| {
        NotLoose(server, input, s, n);
      }
      ReadCore(server, s, n);
    case Writes(n) => WriteCore(server, s, n);
    case WritesLoose(i, n) => WriteLooseCore(server, s, i, n);
    case Abandons => AbandonCore(server, s);
  }

  /** What has been sent is never taken back. */
  lemma SentStep(server: Server, s: System, a: Action)
    requires Enabled(s, a)
    ensures Sent(Apply(server, s, a)) == Sent(s) + if a.ClientSends? then [a.b] else []
  {
    hide ScanFrame, Interpret, After, Protocol.Writes, Detached;
    match a
    case ClientSends(b) => assert s.consumed + (s.unread + [b]) == Sent(s) + [b];
    case Reads(n) => assert s.consumed + s.unread[..n] + s.unread[n..] == Sent(s);
    case Writes(_) =>
    case WritesLoose(_, _) =>
    case Abandons =>
  }

  lemma {:induction false} SentGrows(server: Server, s: System, actions: seq<Action>)
    requires Possible(server, s, actions)
    ensures Sent(s) <= Sent(Final(server, s, actions))
    ensures (forall i :: 0 <= i < |actions| ==> !actions[i].ClientSends?) ==> Sent(Final(server, s, actions)) == Sent(s)
    decreases |actions|
  {
    hide Apply, Enabled, Sent;
    if actions != [] {
      SentStep(server, s, actions[0]);
      SentGrows(server, Apply(server, s, actions[0]), actions[1..]);
    }
  }

  lemma {:induction false} RunKeeps2(server: Server, input: seq<byte>, s: System, actions: seq<Action>)
    requires !AnswersAfterError(Exec(server, INITIAL, input).events)
    requires Core(server, s) && Possible(server, s, actions) && Sent(Final(server, s, actions)) <= input
    ensures Core(server, Final(server, s, actions))
    decreases |actions|
  {
    hide Core, AnswersAfterError, Apply, Enabled, Exec, Sent;
    if actions != [] {
      SentGrows(server, s, actions);
      StepKeeps2(server, input, s, actions[0]);
      RunKeeps2(server, input, Apply(server, s, actions[0]), actions[1..]);
    }
  }

  /** Nothing answered after an error reply: every run is safe, whatever the
      client's manners. */
  lemma SafeWithoutOvertaking(server: Server, input: seq<byte>)
    requires !AnswersAfterError(Exec(server, INITIAL, input).events)
    ensures SafeInput(server, input)
  {
    hide Core, Possible, Final, ReplyBytes, AnswersAfterError, Exec;
    forall actions | Possible(server, START, actions) && Sent(Final(server, START, actions)) <= input
      ensures Final(server, START, actions).wire <= ReplyBytes(server, Sent(Final(server, START, actions)))
    {
      InitialInv(server);
      RunKeeps2(server, input, START, actions);
      WireIsPrefix(server, Final(server, START, actions));
    }
  }

  // ------------------------------------------------------------------ schedules

  /** One run after another. */
  lemma {:induction false} Compose(server: Server, s: System, a: seq<Action>, b: seq<Action>)
    requires Possible(server, s, a) && Possible(server, Final(server, s, a), b)
    ensures Possible(server, s, a + b)
    ensures Final(server, s, a + b) == Final(server, Final(server, s, a), b)
    decreases |a|
  {
    hide Apply, Enabled;
    if a == [] {
      assert a + b == b;
    } else {
      assert (a + b)[0] == a[0] && (a + b)[1..] == a[1..] + b;
      Compose(server, Apply(server, s, a[0]), a[1..], b);
    }
  }

  lemma OneAction(server: Server, s: System, a: Action)
    requires Enabled(s, a)
    ensures Possible(server, s, [a]) && Final(server, s, [a]) == Apply(server, s, a)
  {
    hide Apply, Enabled;
    assert [a][1..] == [];
    assert Possible(server, Apply(server, s, a), []);
    assert Final(server, Apply(server, s, a), []) == Apply(server, s, a);
  }

  lemma {:induction false} Drain(server: Server, s: System) returns (actions: seq<Action>)
    ensures Possible(server, s, actions)
    ensures Final(server, s, actions) == s.(chain := [], wire := s.wire + Flatten(s.chain))
    ensures forall i :: 0 <= i < |actions| ==> !actions[i].ClientSends?
    decreases |s.chain|
  {
    if s.chain == [] {
      actions := [];
      assert s.wire + [] == s.wire;
    } else {
      var a := Action.Writes(|s.chain[0]|);
      OneAction(server, s, a);
      var s' := Apply(server, s, a);
      assert s.chain[0][..|s.chain[0]|] == s.chain[0];
      Regroup(s.wire, s.chain[0], Flatten(s.chain[1..]));
      var more := Drain(server, s');
      Compose(server, s, [a], more);
      actions := [a] + more;
    }
  }

  lemma {:induction false} DrainLoose(server: Server, s: System) returns (actions: seq<Action>)
    requires |s.loose| == 1 && s.loose[0] != []
    ensures Possible(server, s, actions)
    ensures Final(server, s, actions) == s.(loose := [], wire := s.wire + Flatten(s.loose[0]))
    ensures forall i :: 0 <= i < |actions| ==> !actions[i].ClientSends?
    decreases |s.loose[0]|
  {
    var c := s.loose[0];
    var a := WritesLoose(0, |c[0]|);
    OneAction(server, s, a);
    var s' := Apply(server, s, a);
    assert c[0][..|c[0]|] == c[0];
    Regroup(s.wire, c[0], Flatten(c[1..]));
    if c[1..] == [] {
      assert s'.loose == [];
      assert Flatten(c) == c[0] + [] == c[0];
      actions := [a];
    } else {
      assert s'.loose == [c[1..]];
      var more := DrainLoose(server, s');
      Compose(server, s, [a], more);
      actions := [a] + more;
    }
  }

  /** The reader has taken n of the bytes that were sent, and no write is under
      way that would hold it up. */
  ghost predicate Stands(server: Server, all: seq<byte>, n: nat, s: System) {
    && n <= |all| && s.consumed == all[..n] && s.unread == all[n..]
    && ReaderAgrees(server, s) && s.chain == []
  }

  ghost function AfterBytes(server: Server, all: seq<byte>, n: nat): Run
    requires n <= |all|
  {
    Exec(server, INITIAL, all[..n])
  }

  lemma ReadByte(server: Server, all: seq<byte>, n: nat, s: System)
    requires n < |all| && Stands(server, all, n, s) && s.st.mode == Open
    ensures Enabled(s, Reads(1))
    ensures var s' := Apply(server, s, Reads(1));
            var first, later := AfterBytes(server, all, n), AfterBytes(server, all, n + 1);
            && Stands(server, all, n + 1, s'.(chain := [])) && s'.wire == s.wire
            && first.events <= later.events && |later.events| <= |first.events| + 1
            && (later.events == first.events ==> s'.chain == [] && s'.loose == s.loose)
            && (later.events != first.events ==>
                  var e := later.events[|first.events|];
                  var writes := EncodeEach(Protocol.Writes(server, e));
                  && later.events == first.events + [e]
                  && if Detached(e) then s'.chain == [] && s'.loose == s.loose + [writes]
                     else s'.chain == writes && s'.loose == s.loose)
  {
    hide Exec, Receive, Protocol.Writes, Detached;
    ExecStops(server, INITIAL, s.consumed);
    MissingSome(s.st.startupDone, s.partial);
    var b := all[n];
    assert s.unread[..1] == [b] && s.unread[1..] == all[n + 1..];
    assert all[..n + 1] == all[..n] + [b];
    ExecByte(server, s.consumed, b);
    ReceiveIsExec(server, s, [b], s.unread[1..]);
    ReceiveReply(server, s, [b], s.unread[1..]);
    var evs := Exec(server, s.st, s.partial + [b]).events;
    if evs == [] {
      assert AfterBytes(server, all, n).events + evs == AfterBytes(server, all, n).events;
    } else {
      assert evs == [evs[0]];
    }
  }

  lemma RepliesByEvents(server: Server, all: seq<byte>, n: nat)
    requires n < |all|
    ensures var first, later := AfterBytes(server, all, n).events, AfterBytes(server, all, n + 1).events;
            && (later == first ==> Replies(server, all[..n + 1]) == Replies(server, all[..n]))
            && (later != first ==>
                  |later| == |first| + 1 && later == first + [later[|first|]]
                  && Replies(server, all[..n + 1]) == Replies(server, all[..n]) + Reply(server, later[|first|]))
  {
    hide Exec, Reply;
    assert all[..n + 1] == all[..n] + [all[n]];
    ExecByte(server, all[..n], all[n]);
    var first, later := AfterBytes(server, all, n).events, AfterBytes(server, all, n + 1).events;
    if later != first {
      assert later == first + [later[|first|]];
      OutputAppend(server, first, [later[|first|]]);
      OutputOne(server, later[|first|]);
    }
  }

  lemma StillOpen(server: Server, all: seq<byte>, n: nat)
    requires 0 < n <= |all| && AfterBytes(server, all, n).state.mode == Open
    ensures AfterBytes(server, all, n - 1).state.mode == Open
  {
    hide Exec;
    assert all[..n] == all[..n - 1] + [all[n - 1]];
    if AfterBytes(server, all, n - 1).state.mode != Open {
      Absorbed(server, all[..n - 1], [all[n - 1]]);
    }
  }

  /** Sent all at once, any input that leaves the session open can be read
      byte by byte with every reply written before the next byte is read. */
  lemma {:induction false} Answered(server: Server, all: seq<byte>, n: nat) returns (actions: seq<Action>)
    requires n <= |all| && AfterBytes(server, all, n).state.mode == Open
    ensures Possible(server, START.(unread := all), actions)
    ensures var s := Final(server, START.(unread := all), actions);
            Stands(server, all, n, s) && s.loose == [] && s.wire == ReplyBytes(server, all[..n])
    decreases n
  {
    hide Exec, Output, EncodeAll, Possible, Final;
    var s0 := START.(unread := all);
    if n == 0 {
      actions := NothingRead(server, all);
    } else {
      StillOpen(server, all, n);
      var before := Answered(server, all, n - 1);
      var more := AnswerByte(server, all, n - 1, Final(server, s0, before));
      Compose(server, s0, before, more);
      actions := before + more;
    }
  }

  lemma NoActions(server: Server, s: System)
    ensures Possible(server, s, []) && Final(server, s, []) == s
  {
  }

  lemma NothingRead(server: Server, all: seq<byte>) returns (actions: seq<Action>)
    ensures Possible(server, START.(unread := all), actions)
    ensures var s := Final(server, START.(unread := all), actions);
            Stands(server, all, 0, s) && s.loose == [] && s.wire == ReplyBytes(server, all[..0])
  {
    actions := [];
    InitialInv(server);
    NoActions(server, START.(unread := all));
    assert all[..0] == [] && all[0..] == all;
  }

  /** One byte is read and whatever it elicits is written. */
  lemma AnswerByte(server: Server, all: seq<byte>, n: nat, s: System) returns (actions: seq<Action>)
    requires n < |all| && Stands(server, all, n, s) && s.st.mode == Open && s.loose == []
    requires s.wire == ReplyBytes(server, all[..n])
    ensures Possible(server, s, actions) && forall i :: 0 <= i < |actions| ==> !actions[i].ClientSends?
    ensures var s' := Final(server, s, actions);
            Stands(server, all, n + 1, s') && s'.loose == [] && s'.wire == ReplyBytes(server, all[..n + 1])
  {
    hide Exec, Reply, Output, EncodeAll, Possible, Final, Apply, Enabled, Detached, Protocol.Writes;
    ReadByte(server, all, n, s);
    RepliesByEvents(server, all, n);
    OneAction(server, s, Reads(1));
    var s' := Apply(server, s, Reads(1));
    var first, later := AfterBytes(server, all, n).events, AfterBytes(server, all, n + 1).events;
    if later != first {
      var e := later[|first|];
      EncodeAllAppend(Replies(server, all[..n]), Reply(server, e));
      WritesBytes(server, e);
      var more := Settle(server, s', EncodeEach(Protocol.Writes(server, e)));
      Compose(server, s, [Reads(1)], more);
      actions := [Reads(1)] + more;
    } else {
      actions := [Reads(1)];
    }
  }

  lemma WritesBytes(server: Server, e: Event)
    ensures Flatten(EncodeEach(Protocol.Writes(server, e))) == EncodeAll(Reply(server, e))
    ensures Detached(e) ==> Protocol.Writes(server, e) != []
  {
    EncodeEachFlatten(Protocol.Writes(server, e));
    WritesLive(server, e);
  }

  /** Let every write under way complete. */
  lemma Settle(server: Server, s: System, writes: Chain) returns (actions: seq<Action>)
    requires (s.chain == writes && s.loose == []) || (s.chain == [] && s.loose == [writes] && writes != [])
    ensures Possible(server, s, actions)
    ensures Final(server, s, actions) == s.(chain := [], loose := [], wire := s.wire + Flatten(writes))
    ensures forall i :: 0 <= i < |actions| ==> !actions[i].ClientSends?
  {
    if s.loose == [] {
      actions := Drain(server, s);
    } else {
      actions := DrainLoose(server, s);
    }
  }

  /** When an error reply is the last, the server can stand with that whole
      reply unwritten and the reader waiting, although the client is polite. */
  lemma {:induction false} ErrorStanding(server: Server, input: seq<byte>) returns (actions: seq<Action>, e: Event)
    requires Exec(server, INITIAL, input).state.mode == Open && ErrorLast(Exec(server, INITIAL, input).events)
    ensures Possible(server, START, actions) && AllPolite(server, START, actions) && Detached(e)
    ensures var s, before := Final(server, START, actions), BeforeError(server, Exec(server, INITIAL, input).events);
            && Replies(server, input) == before + Reply(server, e)
            && Stands(server, input, |input|, s) && s.wire == EncodeAll(before)
            && s.loose == [EncodeEach(Protocol.Writes(server, e))]
    decreases |input|
  {
    hide Exec, Reply, Output, EncodeAll, Possible, AllPolite, Final, Apply, Enabled, Detached, Protocol.Writes, ErrorLast,
         Polite, Replied, BeforeError;
    if input == [] {
      NoEventsAtAll(server, input);
      assert false;
    } else {
      var n, b := |input| - 1, input[|input| - 1];
      assert input[..n] + [b] == input && input[..n + 1] == input && input[..n][..n] == input[..n] && input[n..] == [b];
      StillOpen(server, input, n + 1);
      RepliesByEvents(server, input, n);
      var first, later := AfterBytes(server, input, n).events, AfterBytes(server, input, n + 1).events;
      var prior, s;
      if later != first && Detached(later[|first|]) {
        e := later[|first|];
        prior := PoliteRunAnswers(server, input[..n]);
        s := Final(server, START, prior);
        AnsweredIsPolite(server, s, ClientSends(b));
      } else {
        ErrorLater(server, input, n + 1);
        prior, e := ErrorStanding(server, input[..n]);
        s := Final(server, START, prior);
        assert Sent(s) == input[..n];
        QuietIsPoliteToo(server, s, b);
      }
      BeforeErrorLater(server, first, later);
      SendOne(server, s, b);
      ComposePolite(server, START, prior, [ClientSends(b)]);
      var s1 := s.(unread := [b]);
      ReadByte(server, input, n, s1);
      OneAction(server, s1, Reads(1));
      QuietIsPolite(server, s1, [Reads(1)]);
      ComposePolite(server, START, prior + [ClientSends(b)], [Reads(1)]);
      actions := prior + [ClientSends(b)] + [Reads(1)];
      assert [] + [EncodeEach(Protocol.Writes(server, e))] == [EncodeEach(Protocol.Writes(server, e))];
    }
  }

  lemma BeforeErrorLater(server: Server, first: seq<Event>, later: seq<Event>)
    requires later != first ==> |later| == |first| + 1 && later == first + [later[|first|]]
    ensures later != first && Detached(later[|first|]) ==> BeforeError(server, later) == Output(server, first)
    ensures !(later != first && Detached(later[|first|])) ==> BeforeError(server, later) == BeforeError(server, first)
  {
    hide BeforeError, Output, Detached, Replied, ErrorLast;
    if later != first {
      ErrorLastSnoc(server, first, later[|first|]);
    }
  }

  lemma AnsweredIsPolite(server: Server, s: System, a: Action)
    requires s.wire == ReplyBytes(server, Sent(s))
    ensures Polite(server, s, a)
  {
  }

  lemma QuietIsPoliteToo(server: Server, s: System, b: byte)
    requires Replies(server, Sent(s) + [b]) == Replies(server, Sent(s))
    ensures Polite(server, s, ClientSends(b))
  {
  }

  lemma OnePolite(server: Server, s: System, a: Action)
    requires Enabled(s, a) && Polite(server, s, a)
    ensures Possible(server, s, [a]) && AllPolite(server, s, [a])
  {
    hide Enabled, Polite, Apply;
    OneAction(server, s, a);
    assert [a][1..] == [];
    assert AllPolite(server, Apply(server, s, a), []);
  }

  lemma NoEventsAtAll(server: Server, all: seq<byte>)
    ensures !ErrorLast(AfterBytes(server, all, 0).events)
  {
    assert all[..0] == [];
    ExecNothing(server, INITIAL);
  }

  lemma ErrorLater(server: Server, all: seq<byte>, n: nat)
    requires 0 < n <= |all| && ErrorLast(AfterBytes(server, all, n).events)
    requires var first, later := AfterBytes(server, all, n - 1).events, AfterBytes(server, all, n).events;
             !(later != first && |later| > |first| && Detached(later[|first|]))
    ensures var first, later := AfterBytes(server, all, n - 1).events, AfterBytes(server, all, n).events;
            && ErrorLast(first) && Replies(server, all[..n]) == Replies(server, all[..n - 1])
            && (later != first ==> |later| > |first| && Protocol.Writes(server, later[|first|]) == [])
  {
    hide Exec, Protocol.Writes, Detached, ErrorLast, Reply;
    assert all[..n] == all[..n - 1] + [all[n - 1]];
    ExecByte(server, all[..n - 1], all[n - 1]);
    RepliesByEvents(server, all, n - 1);
    var first, later := AfterBytes(server, all, n - 1).events, AfterBytes(server, all, n).events;
    if later != first {
      assert later == first + [later[|first|]];
      ErrorLastSnoc(server, first, later[|first|]);
      RepliedWrites(server, later[|first|]);
      OutputNothing(server);
    }
  }

  lemma NoWrites(server: Server, e: Event)
    ensures Protocol.Writes(server, e) == [] ==> Reply(server, e) == []
  {
  }

  // ------------------------------------------------------------------ polite runs answer everything

  lemma {:induction false} ComposePolite(server: Server, s: System, a: seq<Action>, b: seq<Action>)
    requires Possible(server, s, a) && AllPolite(server, s, a)
    requires Possible(server, Final(server, s, a), b) && AllPolite(server, Final(server, s, a), b)
    ensures Possible(server, s, a + b) && AllPolite(server, s, a + b)
    ensures Final(server, s, a + b) == Final(server, Final(server, s, a), b)
    decreases |a|
  {
    hide Apply, Enabled, Polite;
    if a == [] {
      assert a + b == b;
    } else {
      assert (a + b)[0] == a[0] && (a + b)[1..] == a[1..] + b;
      ComposePolite(server, Apply(server, s, a[0]), a[1..], b);
    }
  }

  /** A run in which the client sends nothing is polite. */
  lemma {:induction false} QuietIsPolite(server: Server, s: System, actions: seq<Action>)
    requires Possible(server, s, actions) && forall i :: 0 <= i < |actions| ==> !actions[i].ClientSends?
    ensures AllPolite(server, s, actions)
    decreases |actions|
  {
    hide Apply, Enabled, Elicits;
    if actions != [] {
      QuietIsPolite(server, Apply(server, s, actions[0]), actions[1..]);
    }
  }

  /** Safety is not bought with silence: any input that leaves the session open
      is read and answered in full by a run with a polite client. */
  lemma {:induction false} PoliteRunAnswers(server: Server, input: seq<byte>) returns (actions: seq<Action>)
    requires Exec(server, INITIAL, input).state.mode == Open
    ensures Possible(server, START, actions) && AllPolite(server, START, actions)
    ensures var s := Final(server, START, actions);
            && Stands(server, input, |input|, s) && s.loose == [] && s.unread == []
            && Sent(s) == input && s.wire == ReplyBytes(server, input)
    decreases |input|
  {
    hide Exec, Reply, Output, EncodeAll, Possible, AllPolite, Final, Apply, Enabled, Detached, Protocol.Writes, Polite;
    if input == [] {
      actions := [];
      NothingPolite(server);
    } else {
      var n, b := |input| - 1, input[|input| - 1];
      assert input[..n] + [b] == input && input[..n + 1] == input;
      StillOpen(server, input, n + 1);
      var prior := PoliteRunAnswers(server, input[..n]);
      var s := Final(server, START, prior);
      assert input[..n][..n] == input[..n];
      AnsweredIsPolite(server, s, ClientSends(b));
      SendOne(server, s, b);
      ComposePolite(server, START, prior, [ClientSends(b)]);
      var s1 := s.(unread := [b]);
      assert input[n..] == [b];
      var more := AnswerByte(server, input, n, s1);
      QuietIsPolite(server, s1, more);
      ComposePolite(server, START, prior + [ClientSends(b)], more);
      actions := prior + [ClientSends(b)] + more;
    }
  }

  lemma NothingPolite(server: Server)
    ensures Possible(server, START, []) && AllPolite(server, START, [])
    ensures Final(server, START, []) == START && Stands(server, [], 0, START)
    ensures Sent(START) == [] && START.wire == ReplyBytes(server, [])
  {
    InitialInv(server);
  }

  lemma SendOne(server: Server, s: System, b: byte)
    requires s.unread == [] && Polite(server, s, ClientSends(b))
    ensures Possible(server, s, [ClientSends(b)]) && AllPolite(server, s, [ClientSends(b)])
    ensures Final(server, s, [ClientSends(b)]) == s.(unread := [b])
  {
    hide Polite;
    SendStep(server, s, b);
    OneAction(server, s, ClientSends(b));
    OnePolite(server, s, ClientSends(b));
  }

  // ------------------------------------------------------------------ a server that overtakes is caught

  /** The encoding reflects prefixes. */
  lemma EncodeAllPrefix(a: seq<Message>, b: seq<Message>, w: seq<byte>)
    requires AllFit(a) && AllFit(b) && w + EncodeAll(a) <= w + EncodeAll(b)
    ensures a <= b
  {
    hide Fits, DecodeAll, EncodeAll;
    assert EncodeAll(a) <= EncodeAll(b) by {
      assert EncodeAll(a) == (w + EncodeAll(a))[|w|..];
      assert EncodeAll(b) == (w + EncodeAll(b))[|w|..];
      assert (w + EncodeAll(b))[..|w + EncodeAll(a)|][|w|..] == (w + EncodeAll(b))[|w|..][..|EncodeAll(a)|];
    }
    var k := DecodeCut(b, EncodeAll(a));
    StreamRoundTrip(a);
  }

  /** What an answered event writes first after the start-up. */
  lemma FirstWrite(server: Server, st: State, e: Event)
    requires Phased(st, [e]) && st.startupDone && Protocol.Writes(server, e) != []
    ensures var m := Protocol.Writes(server, e)[0];
            |m| == 1 && m <= Reply(server, e) && (if Detached(e) then m[0].ErrorResponse? else m[0].RowDescription?)
  {
    hide Description, SelectTag;
    assert Flatten(Protocol.Writes(server, e)) == Protocol.Writes(server, e)[0] + Flatten(Protocol.Writes(server, e)[1..]);
  }

  lemma DetachedReply(server: Server, e: Event)
    requires Detached(e)
    ensures |Protocol.Writes(server, e)| == 2 && |Reply(server, e)| == 2
    ensures Protocol.Writes(server, e)[0] == [Reply(server, e)[0]] && Reply(server, e)[0].ErrorResponse?
    ensures Reply(server, e)[1] == ReadyForQuery(Idle)
  {
    ErrorReply(server, e);
  }

  /** The step that spoils the stream: the later reply begins before the error
      reply is written. */
  lemma Spoil(server: Server, s: System, e: Event, e2: Event, st: State) returns (actions: seq<Action>, out: seq<Message>)
    requires Detached(e) && Phased(st, [e2]) && st.startupDone && Protocol.Writes(server, e2) != []
    requires var first, second := EncodeEach(Protocol.Writes(server, e)), EncodeEach(Protocol.Writes(server, e2));
             if Detached(e2) then s.loose == [first, second] else s.chain == second
    ensures Possible(server, s, actions)
    ensures var s' := Final(server, s, actions);
            s'.wire == s.wire + EncodeAll(out) && Sent(s') == Sent(s)
    ensures var both := Reply(server, e) + Reply(server, e2);
            !(out <= both) && forall m :: m in out ==> m in both
  {
    hide Protocol.Writes, Reply;
    FirstWrite(server, st, e2);
    DetachedReply(server, e);
    var m := Protocol.Writes(server, e2)[0];
    assert Reply(server, e2)[0] == m[0];
    if Detached(e2) {
      var a := WritesLoose(1, |EncodeAll(m)|);
      OneAction(server, s, a);
      var s1 := Apply(server, s, a);
      var m1 := Protocol.Writes(server, e)[0];
      assert s1.loose[0][0] == EncodeAll(m1);
      var a1 := WritesLoose(0, |EncodeAll(m1)|);
      OneAction(server, s1, a1);
      Compose(server, s, [a], [a1]);
      actions := [a] + [a1];
      out := m + m1;
      assert EncodeAll(m)[..|EncodeAll(m)|] == EncodeAll(m) && EncodeAll(m1)[..|EncodeAll(m1)|] == EncodeAll(m1);
      EncodeAllAppend(m, m1);
      Regroup(s.wire, EncodeAll(m), EncodeAll(m1));
      assert out[1].ErrorResponse?;
      assert (Reply(server, e) + Reply(server, e2))[1] == ReadyForQuery(Idle);
    } else {
      var a := Action.Writes(|EncodeAll(m)|);
      OneAction(server, s, a);
      assert EncodeAll(m)[..|EncodeAll(m)|] == EncodeAll(m);
      actions := [a];
      out := m;
      assert (Reply(server, e) + Reply(server, e2))[0].ErrorResponse?;
    }
  }

  /** Whoever asks for an answer after an error reply risks a spoiled stream. */
  lemma CaughtOvertaking(server: Server, input: seq<byte>, b: byte) returns (actions: seq<Action>)
    requires WellBehaved(server) && Overtakes(server, input, b)
    ensures Possible(server, START, actions) && Sent(Final(server, START, actions)) == input + [b]
    ensures !(Final(server, START, actions).wire <= ReplyBytes(server, input + [b]))
  {
    hide Exec, Reply, Output, EncodeAll, Possible, AllPolite, Final, Apply, Enabled, Detached, Protocol.Writes, ErrorLast,
         WellBehaved, Fits, Phased;
    var all, n := input + [b], |input|;
    assert all[..n] == input && all[..n + 1] == all && all[n] == b && all[n..] == [b];
    RepliesByEvents(server, all, n);
    if AfterBytes(server, all, n).state.mode != Open {
      Absorbed(server, input, [b]);
      assert false;
    }
    var standing, e := ErrorStanding(server, input);
    var before := BeforeError(server, Exec(server, INITIAL, input).events);
    var s0 := Final(server, START, standing);
    SendStep(server, s0, b);
    OneAction(server, s0, ClientSends(b));
    Compose(server, START, standing, [ClientSends(b)]);
    var s := s0.(unread := [b]);
    ReadByte(server, all, n, s);
    OneAction(server, s, Reads(1));
    Compose(server, START, standing + [ClientSends(b)], [Reads(1)]);
    var s1 := Apply(server, s, Reads(1));
    var first, later := AfterBytes(server, all, n), AfterBytes(server, all, n + 1).events;
    var e2 := later[|first.events|];
    LaterEvent(server, input, b, e2);
    NoWrites(server, e2);
    OutputNothing(server);
    assert [EncodeEach(Protocol.Writes(server, e))] + [EncodeEach(Protocol.Writes(server, e2))]
           == [EncodeEach(Protocol.Writes(server, e)), EncodeEach(Protocol.Writes(server, e2))];
    var spoiling, out := Spoil(server, s1, e, e2, first.state);
    Compose(server, START, standing + [ClientSends(b)] + [Reads(1)], spoiling);
    actions := standing + [ClientSends(b)] + [Reads(1)] + spoiling;
    var final := Final(server, START, actions);
    assert Sent(final) == all;
    NotAPrefix(server, all, before, Reply(server, e) + Reply(server, e2), out);
  }

  lemma SendStep(server: Server, s: System, b: byte)
    requires s.unread == []
    ensures Enabled(s, ClientSends(b)) && Apply(server, s, ClientSends(b)) == s.(unread := [b])
  {
  }

  lemma NotAPrefix(server: Server, all: seq<byte>, before: seq<Message>, both: seq<Message>, out: seq<Message>)
    requires WellBehaved(server)
    requires Replies(server, all) == before + both
    requires !(out <= both) && forall m :: m in out ==> m in both
    ensures !(EncodeAll(before) + EncodeAll(out) <= ReplyBytes(server, all))
  {
    hide Exec, Output, EncodeAll, WellBehaved, Fits;
    OutputFits(server, INITIAL, all);
    var ms := before + both;
    assert AllFit(both) by {
      assert forall i :: 0 <= i < |both| ==> both[i] == ms[|before| + i];
    }
    assert AllFit(out) by {
      assert forall i :: 0 <= i < |out| ==> out[i] in both;
    }
    EncodeAllAppend(before, both);
    if EncodeAll(before) + EncodeAll(out) <= ReplyBytes(server, all) {
      EncodeAllPrefix(out, both, EncodeAll(before));
    }
  }

  lemma LaterEvent(server: Server, input: seq<byte>, b: byte, e2: Event)
    requires ErrorLast(Exec(server, INITIAL, input).events)
    requires Exec(server, INITIAL, input + [b]).events == Exec(server, INITIAL, input).events + [e2]
    ensures Exec(server, INITIAL, input).state.startupDone
    ensures Phased(Exec(server, INITIAL, input).state, [e2])
  {
    hide Exec;
    ExecSplit(server, INITIAL, input, [b]);
    var first := Exec(server, INITIAL, input);
    ExecPhased(server, first.state, first.rest + [b]);
    assert Exec(server, first.state, first.rest + [b]).events == [e2] by {
      var evs := Exec(server, first.state, first.rest + [b]).events;
      assert (first.events + evs)[|first.events|..] == evs;
      assert (first.events + [e2])[|first.events|..] == [e2];
    }
    ExecPhased(server, INITIAL, input);
    ErrorStarted(INITIAL, server, first.events);
    ExecCountsStarted(server, INITIAL, input);
  }

  /** An error reply comes only after the start-up. */
  lemma {:induction false} ErrorStarted(st: State, server: Server, events: seq<Event>)
    requires Phased(st, events) && ErrorLast(events) && !st.startupDone
    ensures CountStarted(events) >= 1
    decreases |events|
  {
    var e := events[0];
    if e.SslAsked? {
      assert Protocol.Writes(server, e) != [];
      ErrorLastTail(server, events);
      ErrorStarted(After(st, e), server, events[1..]);
    }
  }

  lemma {:induction false} ErrorLastTail(server: Server, events: seq<Event>)
    requires ErrorLast(events) && Protocol.Writes(server, events[0]) != [] && !Detached(events[0])
    ensures |events| > 1 && ErrorLast(events[1..])
    decreases |events|
  {
    var last, front := events[|events| - 1], events[..|events| - 1];
    if !Detached(last) {
      ErrorLastTail(server, front);
      assert events[1..][..|events| - 2] == front[1..];
      assert events[1..][|events| - 2] == last;
    } else {
      assert events[1..][|events| - 2] == last;
    }
  }

  /** An input may be sent at will, in whole or in part and without waiting for
      any reply, exactly when nothing in it is answered after a refused query. */
  lemma InputSafeIff(server: Server, input: seq<byte>)
    requires WellBehaved(server)
    ensures SafeInput(server, input) <==> !AnswersAfterError(Exec(server, INITIAL, input).events)
  {
    hide WellBehaved, Overtakes, AnswersAfterError, Exec, ReplyBytes, Possible, Final;
    if AnswersAfterError(Exec(server, INITIAL, input).events) {
      var n := FindOvertaking(server, input);
      var actions := CaughtOvertaking(server, input[..n], input[n]);
      assert input[..n] + [input[n]] == input[..n + 1] <= input;
    } else {
      SafeWithoutOvertaking(server, input);
    }
  }

  /** So a server is safe with every client exactly when it never answers
      anything after an error reply. */
  lemma PipeliningSafeIff(server: Server)
    requires WellBehaved(server)
    ensures AlwaysPrefix(server) <==> NeverOvertakes(server)
  {
    hide WellBehaved, AnswersAfterError, Exec;
    EveryInput(server);
    forall input ensures SafeInput(server, input) <==> !AnswersAfterError(Exec(server, INITIAL, input).events) {
      InputSafeIff(server, input);
    }
  }

  lemma EveryInput(server: Server)
    ensures AlwaysPrefix(server) <==> forall input :: SafeInput(server, input)
  {
    hide Possible, Final, ReplyBytes, Sent;
    if forall input :: SafeInput(server, input) {
      forall actions | Possible(server, START, actions)
        ensures Final(server, START, actions).wire <= ReplyBytes(server, Sent(Final(server, START, actions)))
      {
        assert SafeInput(server, Sent(Final(server, START, actions)));
      }
    }
  }

  // ------------------------------------------------------------------ servers that are safe at sight

  ghost predicate NeverRefuses(server: Server) {
    forall past: seq<Text>, text: Text {:trigger server.handler(past, text)} ::
      var o := server.handler(past, text); !(o.ParseFailure? && o.severity != Fatal)
  }

  lemma {:induction false} NoErrorReplies(server: Server, st: State, input: seq<byte>)
    requires NeverRefuses(server)
    ensures forall e :: e in Exec(server, st, input).events ==> !Detached(e)
    decreases |input|
  {
    hide ScanFrame, After;
    if st.mode == Open {
      match ScanFrame(st.startupDone, input)
      case Incomplete =>
      case Invalid =>
      case Whole(frame, length) =>
        ScanLength(st.startupDone, input);
        var e := Interpret(server, st, frame);
        NoErrorReplies(server, After(st, e), input[length..]);
    }
  }

  /** A server whose parse handler raises no error, or only Fatal ones, may be
      pipelined at will. */
  lemma SafeWithoutRefusals(server: Server)
    requires NeverRefuses(server)
    ensures AlwaysPrefix(server)
  {
    hide AlwaysPrefix, SafeInput, Exec, NeverRefuses, Detached;
    forall input ensures SafeInput(server, input) {
      NoErrorReplies(server, INITIAL, input);
      SafeWithoutOvertaking(server, input);
    }
    EveryInput(server);
  }

  // ------------------------------------------------------------------ queries sent all at once

  /** Is some query refused and a later one answered, before the session ends? */
  ghost predicate AnswersAfterRefusal(server: Server, qs: seq<Text>) {
    exists i, j :: 0 <= i < j < |qs| && Refused(OutcomeAt(server, [], qs, i)) && Reaches(server, qs, j)
  }

  lemma RefusalAmongEvents(server: Server, start: Event, qs: seq<Text>)
    requires start.Started?
    ensures AnswersAfterError([start] + Outcomes(server, [], qs)) <==> AnswersAfterRefusal(server, qs)
  {
    hide Outcomes, OutcomeAt, Detached, Replied, Reaches, AnswersAfterError, Refused, AnswersAfterRefusal;
    var es := Outcomes(server, [], qs);
    if AnswersAfterError([start] + es) {
      RefusalOfError(server, start, qs);
    }
    if AnswersAfterRefusal(server, qs) {
      ErrorOfRefusal(server, start, qs);
    }
  }

  lemma RefusalOfError(server: Server, start: Event, qs: seq<Text>)
    requires start.Started? && AnswersAfterError([start] + Outcomes(server, [], qs))
    ensures AnswersAfterRefusal(server, qs)
  {
    hide Outcomes, OutcomeAt;
    var es := Outcomes(server, [], qs);
    var all := [start] + es;
    OutcomesAre(server, [], qs);
    var i, j :| 0 <= i < j < |all| && Detached(all[i]) && Replied(all[j]);
    assert all[i] == es[i - 1] && all[j] == es[j - 1];
    assert Refused(OutcomeAt(server, [], qs, i - 1)) && Reaches(server, qs, j - 1);
  }

  lemma ErrorOfRefusal(server: Server, start: Event, qs: seq<Text>)
    requires AnswersAfterRefusal(server, qs)
    ensures AnswersAfterError([start] + Outcomes(server, [], qs))
  {
    hide Outcomes, OutcomeAt;
    var es := Outcomes(server, [], qs);
    OutcomesAre(server, [], qs);
    var i, j :| 0 <= i < j < |qs| && Refused(OutcomeAt(server, [], qs, i)) && Reaches(server, qs, j);
    assert j < |es|;
    assert es[i] == Queried(qs[i], OutcomeAt(server, [], qs, i)) && es[j] == Queried(qs[j], OutcomeAt(server, [], qs, j));
    PairAnswers([start] + es, i + 1, j + 1);
  }

  /** A client may send these queries all at once, after any start-up message,
      exactly when no query that the handler refuses is followed by one that it
      answers. */
  lemma QueriesAtOnceSafeIff(server: Server, start: Ask, qs: seq<Text>)
    requires WellBehaved(server) && start.AskStart? && AskFits(start)
    requires forall i :: 0 <= i < |qs| ==> AskFits(AskQuery(qs[i]))
    ensures SafeInput(server, AskBytes(start) + QueriesBytes(qs)) <==> !AnswersAfterRefusal(server, qs)
  {
    hide WellBehaved, SafeInput, Exec, AskFits, AskBytes, AnswersAfterError, AnswersAfterRefusal, Outcomes;
    InputSafeIff(server, AskBytes(start) + QueriesBytes(qs));
    StartAndQueries(server, start, qs);
    RefusalAmongEvents(server, Seen(server, INITIAL, start), qs);
  }

  lemma SmallStart()
    ensures AskFits(AskStart(3, 0, []))
  {
    Pow256Values();
  }

  /** A client that sends two queries at once to a server that refuses the
      first, without ending the session, and answers the second, may receive
      the two replies mixed up. */
  lemma TwoQueriesMixUp(server: Server, first: Text, second: Text)
    requires WellBehaved(server)
    requires NulFree(first) && NulFree(second) && |first| + 5 <= INT32_MAX && |second| + 5 <= INT32_MAX
    requires Refused(server.handler([], first)) && !Ends(server.handler([first], second))
    ensures !SafeInput(server, AskBytes(AskStart(3, 0, [])) + QueriesBytes([first, second]))
    ensures !AlwaysPrefix(server)
  {
    hide WellBehaved, AlwaysPrefix, SafeInput, AskBytes, QueriesBytes;
    var qs := [first, second];
    SmallStart();
    assert OutcomeAt(server, [], qs, 0) == server.handler([], first) by {
      assert [] + qs[..0] == [];
    }
    assert OutcomeAt(server, [], qs, 1) == server.handler([first], second) by {
      assert [] + qs[..1] == [first];
    }
    assert Refused(OutcomeAt(server, [], qs, 0)) && Reaches(server, qs, 1);
    QueriesAtOnceSafeIff(server, AskStart(3, 0, []), qs);
    EveryInput(server);
  }

  /** Such servers exist: this one refuses its first query and answers every
      later one with an empty result. */
  ghost const REFUSES_FIRST: Server :=
    Server((past: seq<Text>, text: Text) =>
             if past == [] then ParseFailure([], Error, SyntaxError) else Success([], []),
           STATUS_TABLE)

  lemma PipeliningCanFail()
    ensures WellBehaved(REFUSES_FIRST) && !AlwaysPrefix(REFUSES_FIRST)
    ensures !SafeInput(REFUSES_FIRST, AskBytes(AskStart(3, 0, [])) + QueriesBytes([[], []]))
  {
    hide Fits, AlwaysPrefix, SafeInput, AskBytes, QueriesBytes, Description, NeverOvertakes, IsStatusOrder;
    StatusTableIsOrder();
    forall past: seq<Text>, text: Text ensures OutcomeFits(REFUSES_FIRST.handler(past, text)) {
      Pow256Values();
      EmptyMessagesFit();
    }
    TwoQueriesMixUp(REFUSES_FIRST, [], []);
  }

  lemma StatusTableIsOrder()
    ensures IsStatusOrder(STATUS_TABLE)
  {
  }

  lemma EmptyMessagesFit()
    ensures Fits(ErrorResponse([], Error, SyntaxError)) && Fits(Description([]))
  {
    SeverityTextInjective(Error, Error);
    SqlStateCodeShape(SyntaxError);
  }
}
