/** A client's queries, one after another: what they are read as and what the
    handler makes of each. */
module Queries {
  import opened Bytes
  import opened Messages
  import opened Protocol
  import opened Decoding
  import opened Transcripts
  import opened Accounts
  import opened Steps

  function QueriesBytes(qs: seq<Text>): seq<byte> {
    if qs == [] then [] else AskBytes(AskQuery(qs[0])) + QueriesBytes(qs[1..])
  }

  predicate Ends(o: Outcome) {
    o.ParseFailure? && o.severity == Fatal
  }

  predicate Refused(o: Outcome) {
    o.ParseFailure? && o.severity != Fatal
  }

  /** The events of these queries: the first Fatal error ends the session. */
  function Outcomes(server: Server, past: seq<Text>, qs: seq<Text>): seq<Event>
    decreases |qs|
  {
    if qs == [] then []
    else
      var e := Queried(qs[0], server.handler(past, qs[0]));
      [e] + if Ends(e.outcome) then [] else Outcomes(server, past + [qs[0]], qs[1..])
  }

  /** Is the last of these a Fatal error? */
  predicate EndedBy(events: seq<Event>) {
    events != [] && events[|events| - 1].Queried? && Ends(events[|events| - 1].outcome)
  }

  /** What these queries are read as, and what follows them. */
  lemma {:induction false} QueriesSeen(server: Server, st: State, qs: seq<Text>, rest: seq<byte>)
    requires st.mode == Open && st.startupDone
    requires forall i :: 0 <= i < |qs| ==> AskFits(AskQuery(qs[i]))
    ensures var es := Outcomes(server, st.queries, qs);
            var r, later := Exec(server, st, QueriesBytes(qs) + rest), Exec(server, st.(queries := st.queries + qs), rest);
            if EndedBy(es) then r.events == es && r.state.mode == Closed
            else r.events == es + later.events && r.state == later.state
    decreases |qs|
  {
    hide Exec, AskFits, AskBytes, Ends, EndedBy, QueriesBytes, After, Outcomes;
    NoQueries(server, st);
    if qs == [] {
      assert st.(queries := st.queries + qs) == st && [] + rest == rest;
      assert [] + Exec(server, st, rest).events == Exec(server, st, rest).events;
    } else {
      var e, after := Seen(server, st, AskQuery(qs[0])), QueriesBytes(qs[1..]) + rest;
      FirstQuery(server, st, qs, rest);
      AfterQuery(server, st, qs[0]);
      OutcomesStep(server, st.queries, qs);
      if Ends(e.outcome) {
        NoEvents(server, After(st, e), after);
        EndedLater(e, []);
        assert [e] + [] == [e];
      } else {
        var es := Outcomes(server, st.queries + [qs[0]], qs[1..]);
        QueriesSeen(server, After(st, e), qs[1..], rest);
        assert After(st, e).(queries := st.queries + [qs[0]] + qs[1..]) == st.(queries := st.queries + qs);
        EndedLater(e, es);
        var more := Exec(server, st.(queries := st.queries + qs), rest).events;
        assert [e] + (es + more) == [e] + es + more;
      }
    }
  }

  lemma NoQueries(server: Server, st: State)
    ensures QueriesBytes([]) == [] && Outcomes(server, st.queries, []) == [] && !EndedBy([])
  {
  }

  lemma OutcomesStep(server: Server, past: seq<Text>, qs: seq<Text>)
    requires qs != []
    ensures var e := Queried(qs[0], server.handler(past, qs[0]));
            Outcomes(server, past, qs) == [e] + if Ends(e.outcome) then [] else Outcomes(server, past + [qs[0]], qs[1..])
  {
    hide Ends;
  }

  lemma FirstQuery(server: Server, st: State, qs: seq<Text>, rest: seq<byte>)
    requires st.mode == Open && st.startupDone && qs != [] && AskFits(AskQuery(qs[0]))
    ensures var e := Seen(server, st, AskQuery(qs[0]));
            var later := Exec(server, After(st, e), QueriesBytes(qs[1..]) + rest);
            Exec(server, st, QueriesBytes(qs) + rest) == Run([e] + later.events, later.state, later.rest)
  {
    hide Exec, AskFits, AskBytes, After;
    var q, after := AskQuery(qs[0]), QueriesBytes(qs[1..]) + rest;
    AskedIsSeen(server, st, q, after);
    assert QueriesBytes(qs) + rest == AskBytes(q) + after;
  }

  lemma EndedLater(e: Event, es: seq<Event>)
    ensures EndedBy([e] + es) <==> if es == [] then e.Queried? && Ends(e.outcome) else EndedBy(es)
  {
    if es != [] {
      assert ([e] + es)[|es|] == es[|es| - 1];
    }
  }

  lemma AfterQuery(server: Server, st: State, text: Text)
    requires st.mode == Open
    ensures var e := Seen(server, st, AskQuery(text));
            && e == Queried(text, server.handler(st.queries, text))
            && After(st, e) == st.(queries := st.queries + [text], mode := if Ends(e.outcome) then Closed else Open)
  {
  }

  /** What the handler makes of the k-th query. */
  function OutcomeAt(server: Server, past: seq<Text>, qs: seq<Text>, k: nat): Outcome
    requires k < |qs|
  {
    server.handler(past + qs[..k], qs[k])
  }

  /** The k-th query reaches the handler when none before it has ended the
      session, and then with all texts before it. */
  lemma {:induction false} OutcomesAre(server: Server, past: seq<Text>, qs: seq<Text>)
    ensures var es := Outcomes(server, past, qs);
            && |es| <= |qs|
            && (forall k :: 0 <= k < |es| ==> es[k] == Queried(qs[k], OutcomeAt(server, past, qs, k)))
            && (forall k :: 0 <= k < |es| - 1 ==> !Ends(OutcomeAt(server, past, qs, k)))
            && (|es| < |qs| ==> es != [] && Ends(OutcomeAt(server, past, qs, |es| - 1)))
    decreases |qs|
  {
    hide Ends, OutcomeAt;
    if qs != [] {
      var es, later := Outcomes(server, past, qs), Outcomes(server, past + [qs[0]], qs[1..]);
      OutcomesAre(server, past + [qs[0]], qs[1..]);
      OutcomeShifts(server, past, qs);
      if Ends(OutcomeAt(server, past, qs, 0)) {
        assert es == [Queried(qs[0], OutcomeAt(server, past, qs, 0))];
      } else {
        assert es == [Queried(qs[0], OutcomeAt(server, past, qs, 0))] + later;
        assert forall k :: 0 < k < |es| ==> es[k] == later[k - 1];
      }
    }
  }

  lemma OutcomeShifts(server: Server, past: seq<Text>, qs: seq<Text>)
    requires qs != []
    ensures OutcomeAt(server, past, qs, 0) == server.handler(past, qs[0])
    ensures forall k :: 0 < k < |qs| ==>
              OutcomeAt(server, past, qs, k) == OutcomeAt(server, past + [qs[0]], qs[1..], k - 1)
  {
    assert past + qs[..0] == past;
    forall k | 0 < k < |qs|
      ensures OutcomeAt(server, past, qs, k) == OutcomeAt(server, past + [qs[0]], qs[1..], k - 1)
    {
      assert past + qs[..k] == past + [qs[0]] + qs[1..][..k - 1];
    }
  }

  /** No query up to the j-th ends the session. */
  ghost predicate Reaches(server: Server, qs: seq<Text>, j: nat)
    requires j < |qs|
  {
    forall k :: 0 <= k <= j ==> !Ends(OutcomeAt(server, [], qs, k))
  }

  /** A start-up, these queries, and whatever follows them. */
  lemma StartThenQueries(server: Server, start: Ask, qs: seq<Text>, rest: seq<byte>)
    requires start.AskStart? && AskFits(start)
    requires forall i :: 0 <= i < |qs| ==> AskFits(AskQuery(qs[i]))
    ensures var all := [Seen(server, INITIAL, start)] + Outcomes(server, [], qs);
            var r := Exec(server, INITIAL, AskBytes(start) + (QueriesBytes(qs) + rest));
            var later := Exec(server, State(Open, true, qs), rest);
            if EndedBy(Outcomes(server, [], qs)) then r.events == all && r.state.mode == Closed
            else r.events == all + later.events && r.state == later.state
  {
    hide Exec, AskFits, AskBytes, Outcomes;
    var e := Seen(server, INITIAL, start);
    AskedIsSeen(server, INITIAL, start, QueriesBytes(qs) + rest);
    QueriesSeen(server, After(INITIAL, e), qs, rest);
    assert [] + qs == qs;
    var more := Exec(server, State(Open, true, qs), rest).events;
    assert [e] + (Outcomes(server, [], qs) + more) == [e] + Outcomes(server, [], qs) + more;
  }

  /** A start-up and these queries, and nothing else. */
  lemma StartAndQueries(server: Server, start: Ask, qs: seq<Text>)
    requires start.AskStart? && AskFits(start)
    requires forall i :: 0 <= i < |qs| ==> AskFits(AskQuery(qs[i]))
    ensures Exec(server, INITIAL, AskBytes(start) + QueriesBytes(qs)).events
            == [Seen(server, INITIAL, start)] + Outcomes(server, [], qs)
  {
    hide Exec, AskFits, AskBytes, Outcomes, EndedBy;
    StartThenQueries(server, start, qs, []);
    ExecNothing(server, State(Open, true, qs));
    assert QueriesBytes(qs) + [] == QueriesBytes(qs);
    var all := [Seen(server, INITIAL, start)] + Outcomes(server, [], qs);
    assert all + [] == all;
  }

  // ------------------------------------------------------------------ what a client decodes

  lemma {:induction false} OutputFlat(server: Server, events: seq<Event>)
    ensures Output(server, events) == Flatten(seq(|events|, i requires 0 <= i < |events| => Reply(server, events[i])))
  {
    hide Reply;
    if events != [] {
      OutputFlat(server, events[1..]);
      var parts := seq(|events|, i requires 0 <= i < |events| => Reply(server, events[i]));
      assert parts[1..] == seq(|events[1..]|, i requires 0 <= i < |events[1..]| => Reply(server, events[1..][i]));
    }
  }

  /** For every start-up and every list of queries: the bytes of the reply
      decode, with nothing left over, to the start-up block and then, in order,
      what a client should find for each outcome of the handler, up to the first
      Fatal one. */
  lemma ClientReadsReplies(server: Server, start: Ask, qs: seq<Text>) returns (block: seq<Message>, parts: seq<seq<Message>>)
    requires WellBehaved(server) && start.AskStart? && AskFits(start)
    requires forall i :: 0 <= i < |qs| ==> AskFits(AskQuery(qs[i]))
    ensures DecodeAll(ReplyBytes(server, AskBytes(start) + QueriesBytes(qs))) == (block + Flatten(parts), [])
    ensures FiveSettings(server.status) && StartsUp(server.status, block) && |block| == 7
    ensures |parts| <= |qs| && forall k :: 0 <= k < |parts| ==> OutcomeFound(OutcomeAt(server, [], qs, k), parts[k])
    ensures forall k :: 0 <= k < |parts| - 1 ==> !Ends(OutcomeAt(server, [], qs, k))
    ensures |parts| < |qs| ==> parts != [] && Ends(OutcomeAt(server, [], qs, |parts| - 1))
  {
    hide AskFits, AskBytes, Outcomes, Reply, Exec, DecodeAll, EncodeAll, IsTranscript, Output, QueriesBytes, Fits, FiveSettings,
         OutcomeFound, OutcomeAt, Ends, StartsUp, IsStatusOrder, Flatten;
    BytesDecodeToTranscript(server, AskBytes(start) + QueriesBytes(qs));
    StartAndQueries(server, start, qs);
    OutcomesAre(server, [], qs);
    var es, e := Outcomes(server, [], qs), Seen(server, INITIAL, start);
    block, parts := Reply(server, e), seq(|es|, i requires 0 <= i < |es| => Reply(server, es[i]));
    OutputAppend(server, [e], es);
    OutputOne(server, e);
    OutputFlat(server, es);
    OrderOfFive(server.status);
    FiveOfThem(server.status);
    StartupStarts(server, e);
    forall k | 0 <= k < |es| ensures OutcomeFound(OutcomeAt(server, [], qs, k), parts[k]) {
      OutcomeIsFound(server, qs[k], OutcomeAt(server, [], qs, k));
    }
  }

  lemma FiveOfThem(status: seq<(Text, Text)>)
    requires FiveSettings(status)
    ensures |status| == 5
  {
  }

  lemma StartupStarts(server: Server, e: Event)
    requires e.Started? && |server.status| == 5
    ensures StartsUp(server.status, Reply(server, e)) && |Reply(server, e)| == 7
  {
    hide Reply, Ascii;
    StartupReply(server, e);
    var block := StartupBlock(server.status);
    forall i | 0 <= i < 5 ensures block[i + 1] == ParameterStatus(server.status[i].0, server.status[i].1) {
      assert block[i + 1] == StatusMessages(server.status)[i];
    }
  }
}
