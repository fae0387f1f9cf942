/** Exactly which inputs are answered in full in every run: only an error reply
    that comes last, in a session that is then closed, can be cut short. */
module Completeness {
  import opened Bytes
  import opened Messages
  import opened Protocol
  import opened Transcripts
  import opened Accounts
  import opened Steps
  import opened Interleavings
  import opened Queries
  import opened Pipelining
  import opened Liveness
  import opened Merges

  /** Whenever a polite client has sent this input and the server is at rest,
      the whole sequential reply has been sent. */
  ghost predicate AlwaysAnswered(server: Server, input: seq<byte>) {
    forall actions | Possible(server, START, actions) && AllPolite(server, START, actions)
                     && Sent(Final(server, START, actions)) == input && !Busy(Final(server, START, actions)) ::
      Final(server, START, actions).wire == ReplyBytes(server, input)
  }

  /** The same for clients that send it at will. */
  ghost predicate AlwaysAnsweredAtWill(server: Server, input: seq<byte>) {
    forall actions | Possible(server, START, actions)
                     && Sent(Final(server, START, actions)) == input && !Busy(Final(server, START, actions)) ::
      Final(server, START, actions).wire == ReplyBytes(server, input)
  }

  // ------------------------------------------------------------------ the byte that ends the session

  /** Where the input ends the session. */
  lemma {:induction false} EndsAt(server: Server, input: seq<byte>) returns (n: nat)
    requires Exec(server, INITIAL, input).state.mode != Open
    ensures n < |input|
    ensures AfterBytes(server, input, n).state.mode == Open && AfterBytes(server, input, n + 1).state.mode != Open
    decreases |input|
  {
    hide Exec;
    if input == [] {
      ExecNothing(server, INITIAL);
      assert false;
    } else {
      n := |input| - 1;
      assert input[..n + 1] == input;
      if AfterBytes(server, input, n).state.mode != Open {
        var m := EndsAt(server, input[..n]);
        assert input[..n][..m] == input[..m] && input[..n][..m + 1] == input[..m + 1];
        n := m;
      }
    }
  }

  /** The byte that ends a session is not answered. */
  lemma EndUnanswered(server: Server, input: seq<byte>, b: byte)
    requires Exec(server, INITIAL, input).state.mode == Open && Exec(server, INITIAL, input + [b]).state.mode != Open
    ensures Replies(server, input + [b]) == Replies(server, input)
    ensures var first, all := Exec(server, INITIAL, input).events, Exec(server, INITIAL, input + [b]).events;
            all == first || exists e :: all == first + [e] && !Replied(e) && !Detached(e)
  {
    hide Exec, Protocol.Writes, Reply, Output;
    ExecByte(server, input, b);
    var first, all := Exec(server, INITIAL, input), Exec(server, INITIAL, input + [b]);
    if all.events != first.events {
      var e := all.events[|first.events|];
      assert all.events == first.events + [e];
      ExecSplit(server, INITIAL, input, [b]);
      ExecStops(server, INITIAL, input);
      MissingSome(first.state.startupDone, first.rest);
      ReceiveIsExec(server, System(input, [], first.rest, first.state, [], [], []), [b], []);
      var later := Exec(server, first.state, first.rest + [b]).events;
      assert (first.events + later)[|first.events|] == later[0] == e;
      RepliedWrites(server, e);
      OutputAppend(server, first.events, [e]);
      OutputOne(server, e);
      OutputNothing(server);
    }
  }

  // ------------------------------------------------------------------ polite runs

  /** Sending bytes at once. */
  lemma {:induction false} SendAll(server: Server, s: System, bytes: seq<byte>) returns (actions: seq<Action>)
    ensures Possible(server, s, actions) && Final(server, s, actions) == s.(unread := s.unread + bytes)
    ensures Exec(server, INITIAL, Sent(s)).state.mode != Open ==> AllPolite(server, s, actions)
    decreases |bytes|
  {
    hide Exec, Polite;
    if bytes == [] {
      actions := [];
      assert s.unread + bytes == s.unread;
    } else {
      var a := ClientSends(bytes[0]);
      OneAction(server, s, a);
      var s' := Apply(server, s, a);
      var more := SendAll(server, s', bytes[1..]);
      assert s'.unread + bytes[1..] == s.unread + bytes;
      Compose(server, s, [a], more);
      actions := [a] + more;
      if Exec(server, INITIAL, Sent(s)).state.mode != Open {
        assert Sent(s') == Sent(s) + [bytes[0]];
        Absorbed(server, Sent(s), [bytes[0]]);
        QuietIsPoliteToo(server, s, bytes[0]);
        OnePolite(server, s, a);
        ComposePolite(server, s, [a], more);
      }
    }
  }

  /** Reading the byte that ends the session beside whatever is being written. */
  lemma ReadEnd(server: Server, input: seq<byte>, n: nat, s: System)
    requires n < |input| && Stands(server, input[..n], n, s)
    requires AfterBytes(server, input, n).state.mode == Open && AfterBytes(server, input, n + 1).state.mode != Open
    ensures var s1 := s.(unread := [input[n]]);
            && Enabled(s1, Reads(1))
            && var s2 := Apply(server, s1, Reads(1));
               && s2.consumed == input[..n + 1] && s2.unread == [] && s2.chain == [] && s2.loose == s.loose && s2.wire == s.wire
               && s2.st == AfterBytes(server, input, n + 1).state
    ensures Replies(server, input[..n + 1]) == Replies(server, input[..n])
    ensures Sent(s) == input[..n] && s.unread == []
  {
    hide Exec, Receive, Protocol.Writes, Detached, Replied, Apply;
    var part, b := input[..n + 1], input[n];
    assert part == input[..n] + [b] && part[..n] == input[..n] && part[..n + 1] == part && part[n..] == [b];
    assert input[..n][..n] == input[..n];
    EndUnanswered(server, input[..n], b);
    var s1 := s.(unread := [b]);
    ReadByte(server, part, n, s1);
    var first, all := AfterBytes(server, part, n).events, AfterBytes(server, part, n + 1).events;
    if all != first {
      var e :| all == first + [e] && !Replied(e) && !Detached(e);
      assert all[|first|] == e;
      RepliedWrites(server, e);
    }
    ReadTakes(server, s1);
  }

  lemma ReadTakes(server: Server, s: System)
    requires Enabled(s, Reads(1)) && |s.unread| == 1
    ensures Apply(server, s, Reads(1)).unread == []
  {
    hide ScanFrame, Interpret;
  }

  /** Send and read the byte that ends the session. */
  lemma EndPolitely(server: Server, input: seq<byte>, n: nat, prior: seq<Action>) returns (actions: seq<Action>)
    requires Possible(server, START, prior) && AllPolite(server, START, prior)
    requires n < |input| && Stands(server, input[..n], n, Final(server, START, prior))
    requires AfterBytes(server, input, n).state.mode == Open && AfterBytes(server, input, n + 1).state.mode != Open
    ensures Possible(server, START, actions) && AllPolite(server, START, actions)
    ensures var s, s2 := Final(server, START, prior), Final(server, START, actions);
            && s2.consumed == input[..n + 1] && s2.unread == [] && s2.chain == [] && s2.loose == s.loose && s2.wire == s.wire
            && s2.st == AfterBytes(server, input, n + 1).state
    ensures Replies(server, input[..n + 1]) == Replies(server, input[..n])
  {
    hide Exec, Possible, AllPolite, Final, Apply, Enabled, Polite, Output, Stands;
    var s, b := Final(server, START, prior), input[n];
    ReadEnd(server, input, n, s);
    assert input[..n + 1] == input[..n] + [b];
    QuietIsPoliteToo(server, s, b);
    SendOne(server, s, b);
    ComposePolite(server, START, prior, [ClientSends(b)]);
    var s1 := s.(unread := [b]);
    OneAction(server, s1, Reads(1));
    QuietIsPolite(server, s1, [Reads(1)]);
    ComposePolite(server, START, prior + [ClientSends(b)], [Reads(1)]);
    actions := prior + [ClientSends(b)] + [Reads(1)];
  }

  /** And then whatever is left of the input, which nothing answers. */
  lemma SendRest(server: Server, input: seq<byte>, n: nat, prior: seq<Action>) returns (actions: seq<Action>)
    requires Possible(server, START, prior) && AllPolite(server, START, prior)
    requires n < |input| && AfterBytes(server, input, n + 1).state.mode != Open
    requires Final(server, START, prior).consumed == input[..n + 1] && Final(server, START, prior).unread == []
    ensures Possible(server, START, actions) && AllPolite(server, START, actions)
    ensures Final(server, START, actions) == Final(server, START, prior).(unread := input[n + 1..])
    ensures Sent(Final(server, START, actions)) == input
    ensures Exec(server, INITIAL, input).events == AfterBytes(server, input, n + 1).events
    ensures Exec(server, INITIAL, input).state == AfterBytes(server, input, n + 1).state
    ensures Replies(server, input) == Replies(server, input[..n + 1])
  {
    hide Exec, Possible, AllPolite, Final, Output;
    var s, rest := Final(server, START, prior), input[n + 1..];
    assert input == input[..n + 1] + rest;
    assert Sent(s) == input[..n + 1];
    Absorbed(server, input[..n + 1], rest);
    var more := SendAll(server, s, rest);
    assert [] + rest == rest;
    ComposePolite(server, START, prior, more);
    actions := prior + more;
  }

  /** Any input can be sent by a polite client, and is then read as far as the
      session goes and answered in full. */
  lemma PoliteRunToRest(server: Server, input: seq<byte>) returns (actions: seq<Action>)
    ensures Possible(server, START, actions) && AllPolite(server, START, actions)
    ensures var s := Final(server, START, actions);
            Sent(s) == input && !Busy(s) && s.wire == ReplyBytes(server, input)
  {
    hide Exec, Possible, AllPolite, Final, Output, ReaderAgrees, EncodeAll;
    if Exec(server, INITIAL, input).state.mode == Open {
      actions := PoliteRunAnswers(server, input);
    } else {
      var n := EndsAt(server, input);
      var prior := PoliteRunAnswers(server, input[..n]);
      var ended := EndPolitely(server, input, n, prior);
      actions := SendRest(server, input, n, ended);
    }
  }

  // ------------------------------------------------------------------ every cut of the reply can be seen

  lemma {:induction false} DrainSome(server: Server, s: System, n: nat) returns (actions: seq<Action>)
    requires n <= |Flatten(s.chain)|
    ensures Possible(server, s, actions) && Sent(Final(server, s, actions)) == Sent(s)
    ensures Final(server, s, actions).wire == s.wire + Flatten(s.chain)[..n]
    decreases |s.chain|
  {
    if n == 0 {
      actions := [];
      NoActions(server, s);
    } else {
      var c := s.chain[0];
      var k := if |c| <= n then |c| else n;
      var a := Action.Writes(k);
      OneAction(server, s, a);
      var s' := Apply(server, s, a);
      assert Flatten(s.chain) == c + Flatten(s.chain[1..]);
      if |c| <= n {
        var more := DrainSome(server, s', n - k);
        Compose(server, s, [a], more);
        assert c[..k] == c && Flatten(s.chain)[..n] == c + Flatten(s.chain[1..])[..n - k];
        actions := [a] + more;
      } else {
        actions := [a];
      }
    }
  }

  lemma {:induction false} DrainLooseSome(server: Server, s: System, n: nat) returns (actions: seq<Action>)
    requires |s.loose| == 1 && s.loose[0] != [] && n <= |Flatten(s.loose[0])|
    ensures Possible(server, s, actions) && Sent(Final(server, s, actions)) == Sent(s)
    ensures Final(server, s, actions).wire == s.wire + Flatten(s.loose[0])[..n]
    decreases |s.loose[0]|
  {
    if n == 0 {
      actions := [];
      NoActions(server, s);
    } else {
      hide Possible, Final, Flatten, Advance;
      var c, rest := s.loose[0][0], s.loose[0][1..];
      var k := if |c| <= n then |c| else n;
      var a := WritesLoose(0, k);
      OneAction(server, s, a);
      FlattenCons(s.loose[0]);
      var s' := Apply(server, s, a);
      AdvanceFirst(s.loose[0], k);
      if |c| <= n {
        assert c[..k] == c && Flatten(s.loose[0])[..n] == c + Flatten(rest)[..n - k];
        if rest == [] {
          FlattenNothing<byte>();
          assert c + [] == c;
          actions := [a];
        } else {
          assert s'.loose == [rest];
          var more := DrainLooseSome(server, s', n - k);
          Compose(server, s, [a], more);
          Regroup(s.wire, c, Flatten(rest)[..n - k]);
          actions := [a] + more;
        }
      } else {
        actions := [a];
      }
    }
  }

  lemma FlattenCons(c: Chain)
    requires c != []
    ensures Flatten(c) == c[0] + Flatten(c[1..])
  {
  }

  lemma AdvanceFirst(c: Chain, n: nat)
    requires CanAdvance(c, n)
    ensures n == |c[0]| ==> Advance(c, n) == c[1..]
  {
  }

  /** The byte of the input that calls for byte n of the reply. */
  lemma {:induction false} CallsFor(server: Server, input: seq<byte>, n: nat) returns (k: nat)
    requires n < |ReplyBytes(server, input)|
    ensures k < |input|
    ensures |ReplyBytes(server, input[..k])| <= n < |ReplyBytes(server, input[..k + 1])|
    decreases |input|
  {
    hide Exec, Output, EncodeAll;
    if input == [] {
      NothingAsked(server);
      assert false;
    } else {
      k := |input| - 1;
      assert input[..k + 1] == input;
      if n < |ReplyBytes(server, input[..k])| {
        var m := CallsFor(server, input[..k], n);
        assert input[..k][..m] == input[..m] && input[..k][..m + 1] == input[..m + 1];
        k := m;
      }
    }
  }

  lemma NothingAsked(server: Server)
    ensures ReplyBytes(server, []) == []
  {
    ExecNothing(server, INITIAL);
  }

  /** The prefix theorem is tight: of any input, every prefix of the sequential
      reply is what the client has received at some point of some run. */
  lemma EveryPrefixSeen(server: Server, input: seq<byte>, n: nat) returns (actions: seq<Action>)
    requires n <= |ReplyBytes(server, input)|
    ensures Possible(server, START, actions)
    ensures var s := Final(server, START, actions); Sent(s) == input && s.wire == ReplyBytes(server, input)[..n]
  {
    hide Exec, Possible, AllPolite, Final, Output, EncodeAll, Apply, Enabled, Reply, Protocol.Writes, Detached;
    if n == |ReplyBytes(server, input)| {
      actions := PoliteRunToRest(server, input);
    } else {
      var k := CallsFor(server, input, n);
      assert input[..k + 1] == input[..k] + [input[k]];
      if AfterBytes(server, input, k).state.mode != Open {
        Absorbed(server, input[..k], [input[k]]);
        assert false;
      }
      var prior := PoliteRunAnswers(server, input[..k]);
      var s := Final(server, START, prior);
      assert input[..k][..k] == input[..k];
      var sends := SendAll(server, s, input[k..]);
      Compose(server, START, prior, sends);
      var s1 := Final(server, s, sends);
      assert [] + input[k..] == input[k..];
      ReadByte(server, input, k, s1);
      OneAction(server, s1, Reads(1));
      Compose(server, START, prior + sends, [Reads(1)]);
      var s2 := Apply(server, s1, Reads(1));
      RepliesByEvents(server, input, k);
      var first, later := AfterBytes(server, input, k).events, AfterBytes(server, input, k + 1).events;
      var e := later[|first|];
      var writes := EncodeEach(Protocol.Writes(server, e));
      WritesBytes(server, e);
      EncodeAllAppend(Replies(server, input[..k]), Reply(server, e));
      assert ReplyBytes(server, input[..k + 1]) == s.wire + Flatten(writes);
      assert input == input[..k + 1] + input[k + 1..];
      assert Sent(s2) == input;
      var more;
      if Detached(e) {
        assert s2.loose == [] + [writes] == [writes];
        more := DrainLooseSome(server, s2, n - |s.wire|);
      } else {
        more := DrainSome(server, s2, n - |s.wire|);
      }
      Compose(server, START, prior + sends + [Reads(1)], more);
      actions := prior + sends + [Reads(1)] + more;
      RepliesGrow(server, input[..k + 1], input[k + 1..]);
      CutOf(s.wire, Flatten(writes), ReplyBytes(server, input), n);
    }
  }

  lemma CutOf(wire: seq<byte>, more: seq<byte>, whole: seq<byte>, n: nat)
    requires wire + more <= whole && |wire| <= n < |wire + more|
    ensures wire + more[..n - |wire|] == whole[..n]
  {
    assert (wire + more)[..n] == whole[..n];
    assert wire + more[..n - |wire|] == (wire + more)[..n];
  }

  // ------------------------------------------------------------------ an error reply is cut short

  /** A polite run that loses the whole of the last error reply. */
  lemma LosingRun(server: Server, input: seq<byte>) returns (actions: seq<Action>)
    requires CutShort(server, input)
    ensures Possible(server, START, actions) && AllPolite(server, START, actions)
    ensures var s := Final(server, START, actions);
            && Sent(s) == input && !Busy(s)
            && s.wire == EncodeAll(BeforeError(server, Exec(server, INITIAL, input).events))
            && s.wire != ReplyBytes(server, input)
  {
    hide Exec, Possible, AllPolite, Final, Output, ReaderAgrees, EncodeAll, BeforeError, ErrorLast, Apply, Enabled;
    var n := EndsAt(server, input);
    var first, all := AfterBytes(server, input, n).events, AfterBytes(server, input, n + 1).events;
    assert input[..n + 1] == input[..n] + [input[n]];
    EndUnanswered(server, input[..n], input[n]);
    Absorbed(server, input[..n + 1], input[n + 1..]);
    assert input == input[..n + 1] + input[n + 1..];
    if all != first {
      var e :| all == first + [e] && !Replied(e) && !Detached(e);
      ErrorLastSnoc(server, first, e);
    }
    var standing, e := ErrorStanding(server, input[..n]);
    var ended := EndPolitely(server, input, n, standing);
    var s := Final(server, START, ended);
    AbandonStep(server, s);
    OneAction(server, s, Abandons);
    QuietIsPolite(server, s, [Abandons]);
    ComposePolite(server, START, ended, [Abandons]);
    actions := SendRest(server, input, n, ended + [Abandons]);
    SomethingLost(server, Exec(server, INITIAL, input).events);
  }

  lemma AbandonStep(server: Server, s: System)
    requires s.st.mode == Closed && s.loose != []
    ensures Enabled(s, Abandons) && Apply(server, s, Abandons) == s.(loose := [])
  {
  }

  lemma SomethingLost(server: Server, events: seq<Event>)
    requires ErrorLast(events)
    ensures EncodeAll(BeforeError(server, events)) != EncodeAll(Output(server, events))
  {
    hide Output, BeforeError, ErrorLast, EncodeAll, Reply;
    var e := ErrorIsLast(server, events);
    DetachedReply(server, e);
    EncodeAllAppend(BeforeError(server, events), Reply(server, e));
    EncodeAllNonEmpty(Reply(server, e));
  }

  // ------------------------------------------------------------------ the theorems

  /** Polite clients have everything in every run exactly when the session is
      not closed on an error reply: by Terminate, or a Fatal error, with nothing
      answered since the last refused query. */
  lemma AlwaysAnsweredIff(server: Server, input: seq<byte>)
    ensures AlwaysAnswered(server, input) <==> !CutShort(server, input)
  {
    hide Possible, AllPolite, Final, CutShort, AllButError, Busy, ReplyBytes, Sent, Exec;
    if CutShort(server, input) {
      var actions := LosingRun(server, input);
      assert !AlwaysAnswered(server, input);
    } else {
      forall actions | Possible(server, START, actions) && AllPolite(server, START, actions)
                       && Sent(Final(server, START, actions)) == input && !Busy(Final(server, START, actions))
        ensures Final(server, START, actions).wire == ReplyBytes(server, input)
      {
        CompleteWhenIdle(server, actions);
      }
    }
  }

  /** Clients that send it at will have everything in every run exactly when, in
      addition, nothing is answered after a refused query. */
  lemma AlwaysAnsweredAtWillIff(server: Server, input: seq<byte>)
    requires WellBehaved(server)
    ensures AlwaysAnsweredAtWill(server, input)
            <==> !CutShort(server, input) && !AnswersAfterError(Exec(server, INITIAL, input).events)
  {
    hide Possible, AllPolite, Final, CutShort, AllButError, Busy, ReplyBytes, Sent, Exec, AnswersAfterError, WellBehaved;
    if CutShort(server, input) {
      var actions := LosingRun(server, input);
      assert !AlwaysAnsweredAtWill(server, input);
    } else if AnswersAfterError(Exec(server, INITIAL, input).events) {
      var actions := SpoiledToRest(server, input);
      assert !AlwaysAnsweredAtWill(server, input);
    } else {
      forall actions | Possible(server, START, actions)
                       && Sent(Final(server, START, actions)) == input && !Busy(Final(server, START, actions))
        ensures Final(server, START, actions).wire == ReplyBytes(server, input)
      {
        AtWillRests(server, input, actions);
      }
    }
  }

  lemma AtWillRests(server: Server, input: seq<byte>, actions: seq<Action>)
    requires !CutShort(server, input) && !AnswersAfterError(Exec(server, INITIAL, input).events)
    requires Possible(server, START, actions) && Sent(Final(server, START, actions)) == input
    requires !Busy(Final(server, START, actions))
    ensures Final(server, START, actions).wire == ReplyBytes(server, input)
  {
    hide Inv, Core, Possible, Final, CutShort, AllButError, Busy, ReplyBytes, Sent, Exec, AnswersAfterError;
    InitialInv(server);
    InvCore(server, START);
    RunKeeps2(server, input, START, actions);
    RestIs(server, Final(server, START, actions));
  }

  /** A spoiled stream stays spoiled, whatever follows. */
  lemma SpoiledToRest(server: Server, input: seq<byte>) returns (actions: seq<Action>)
    requires WellBehaved(server) && AnswersAfterError(Exec(server, INITIAL, input).events)
    ensures Possible(server, START, actions)
    ensures var s := Final(server, START, actions);
            Sent(s) == input && !Busy(s) && s.wire != ReplyBytes(server, input)
  {
    hide Possible, Final, Busy, ReplyBytes, Exec, AnswersAfterError, WellBehaved, Overtakes, Base, IsMerge, RepliesEach, Polite;
    var n := FindOvertaking(server, input);
    var part, rest := input[..n + 1], input[n + 1..];
    assert part == input[..n] + [input[n]] && input == part + rest;
    var spoiling := CaughtOvertaking(server, input[..n], input[n]);
    var s := Final(server, START, spoiling);
    var sends := SendAll(server, s, rest);
    var s1 := Final(server, s, sends);
    assert s.consumed + (s.unread + rest) == Sent(s) + rest;
    Compose(server, START, spoiling, sends);
    InitialBase(server);
    BaseRun(server, START, spoiling + sends);
    var resting := ToRest(server, s1);
    Compose(server, START, spoiling + sends, resting);
    actions := spoiling + sends + resting;
    var tags, parts := EveryRunMerges(server, spoiling);
    ConsumedPart(server, s);
    WireGrows(server, s1, resting);
    RepliesGrow(server, part, rest);
    SpoiledStays(s.wire, Final(server, START, actions).wire, ReplyBytes(server, part), ReplyBytes(server, input));
  }

  lemma ConsumedPart(server: Server, s: System)
    ensures |ReplyBytes(server, s.consumed)| <= |ReplyBytes(server, Sent(s))|
  {
    hide ReplyBytes;
    RepliesGrow(server, s.consumed, s.unread);
  }

  lemma SpoiledStays(wire: seq<byte>, later: seq<byte>, part: seq<byte>, whole: seq<byte>)
    requires wire <= later && part <= whole && |wire| <= |part| && !(wire <= part)
    ensures later != whole
  {
  }

  lemma WireStep(server: Server, s: System, a: Action)
    requires Enabled(s, a)
    ensures s.wire <= Apply(server, s, a).wire
  {
    hide ScanFrame, Interpret, Protocol.Writes, Detached, After;
  }

  lemma {:induction false} WireGrows(server: Server, s: System, actions: seq<Action>)
    requires Possible(server, s, actions)
    ensures s.wire <= Final(server, s, actions).wire
    decreases |actions|
  {
    hide Apply, Enabled;
    if actions != [] {
      WireStep(server, s, actions[0]);
      WireGrows(server, Apply(server, s, actions[0]), actions[1..]);
    }
  }

  // ------------------------------------------------------------------ queries and then Terminate

  /** Is the last query that is answered a refused one? Only a Fatal error may
      follow it. */
  ghost predicate RefusedLast(server: Server, qs: seq<Text>) {
    exists i :: 0 <= i < |qs| && Refused(OutcomeAt(server, [], qs, i)) && Reaches(server, qs, i)
      && (i + 1 < |qs| ==> Ends(OutcomeAt(server, [], qs, i + 1)))
  }

  lemma RefusedLastIff(server: Server, start: Event, qs: seq<Text>)
    requires start.Started?
    ensures ErrorLast([start] + Outcomes(server, [], qs)) <==> RefusedLast(server, qs)
  {
    hide Outcomes, OutcomeAt;
    var es := Outcomes(server, [], qs);
    var m, all := |es|, [start] + es;
    OutcomesAre(server, [], qs);
    if m == 0 {
      assert all == [start];
    } else {
      assert all[m] == es[m - 1] && all[..m] == [start] + es[..m - 1];
      if m > 1 {
        assert all[..m][m - 1] == es[m - 2];
      } else {
        assert all[..m] == [start];
      }
      if Detached(es[m - 1]) {
        assert Refused(OutcomeAt(server, [], qs, m - 1)) && Reaches(server, qs, m - 1);
      } else if m > 1 && Ends(OutcomeAt(server, [], qs, m - 1)) && Detached(es[m - 2]) {
        assert Refused(OutcomeAt(server, [], qs, m - 2)) && Reaches(server, qs, m - 2);
      }
      forall i | 0 <= i < |qs| && Refused(OutcomeAt(server, [], qs, i)) && Reaches(server, qs, i)
                 && (i + 1 < |qs| ==> Ends(OutcomeAt(server, [], qs, i + 1)))
        ensures i < m && (i == m - 1 || (i == m - 2 && Ends(OutcomeAt(server, [], qs, m - 1))))
      {
      }
    }
  }

  /** What a client asks that makes its queries and then takes its leave. */
  function Visit(start: Ask, qs: seq<Text>): seq<byte> {
    AskBytes(start) + (QueriesBytes(qs) + AskBytes(AskEnd))
  }

  lemma VisitCutShortIff(server: Server, start: Ask, qs: seq<Text>)
    requires start.AskStart? && AskFits(start)
    requires forall i :: 0 <= i < |qs| ==> AskFits(AskQuery(qs[i]))
    ensures CutShort(server, Visit(start, qs)) <==> RefusedLast(server, qs)
  {
    hide Exec, AskFits, AskBytes, Outcomes, ErrorLast, RefusedLast, EndedBy;
    StartThenQueries(server, start, qs, AskBytes(AskEnd));
    var all := [Seen(server, INITIAL, start)] + Outcomes(server, [], qs);
    RefusedLastIff(server, Seen(server, INITIAL, start), qs);
    var st := State(Open, true, qs);
    EndFits();
    AskedIsSeen(server, st, AskEnd, []);
    assert AskBytes(AskEnd) + [] == AskBytes(AskEnd);
    ExecNothing(server, After(st, Terminated));
    assert [Terminated] + [] == [Terminated];
    ErrorLastSnoc(server, all, Terminated);
  }

  lemma EndFits()
    ensures AskFits(AskEnd)
  {
  }

  /** A client that waits for every reply, and then sends Terminate, has every
      reply in every run exactly when its last answered query was not refused. */
  lemma VisitAnsweredIff(server: Server, start: Ask, qs: seq<Text>)
    requires start.AskStart? && AskFits(start)
    requires forall i :: 0 <= i < |qs| ==> AskFits(AskQuery(qs[i]))
    ensures AlwaysAnswered(server, Visit(start, qs)) <==> !RefusedLast(server, qs)
  {
    hide AlwaysAnswered, AskFits, RefusedLast, CutShort, Visit;
    AlwaysAnsweredIff(server, Visit(start, qs));
    VisitCutShortIff(server, start, qs);
  }

  /** A server and an input that show it: one query, which is refused, and
      Terminate. */
  lemma ReplyCanBeLost()
    ensures WellBehaved(REFUSES_FIRST)
    ensures !AlwaysAnswered(REFUSES_FIRST, Visit(AskStart(3, 0, []), [[]]))
  {
    hide AlwaysAnswered, Visit, WellBehaved, AlwaysPrefix, SafeInput;
    PipeliningCanFail();
    SmallStart();
    var qs: seq<Text> := [[]];
    assert [] + qs[..0] == [];
    assert Refused(OutcomeAt(REFUSES_FIRST, [], qs, 0)) && Reaches(REFUSES_FIRST, qs, 0);
    VisitAnsweredIff(REFUSES_FIRST, AskStart(3, 0, []), qs);
  }
}
