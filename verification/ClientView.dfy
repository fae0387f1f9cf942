/** A client that only counts: it completes a request when it has decoded as
    many answers as it has made requests. That is all the politeness needed. */
module ClientView {
  import opened Bytes
  import opened Messages
  import opened Writers
  import opened Protocol
  import opened Decoding
  import opened Transcripts
  import opened Accounts
  import opened Steps
  import opened Interleavings

  /** ReadyForQuery answers the start-up and every query; the refusal byte
      answers an SSL request. */
  predicate IsAnswer(m: Message) {
    m.ReadyForQuery? || m.SslRefused?
  }

  function Answers(ms: seq<Message>): nat {
    if ms == [] then 0 else Answers(ms[1..]) + if IsAnswer(ms[0]) then 1 else 0
  }

  predicate IsRequest(e: Event) {
    e.SslAsked? || e.Started? || e.Queried?
  }

  function Requests(events: seq<Event>): nat {
    if events == [] then 0 else Requests(events[1..]) + if IsRequest(events[0]) then 1 else 0
  }

  /** A query that gets no answer: its execution fails, or its error is Fatal. */
  predicate LeftWaiting(e: Event) {
    e.Queried? && (e.outcome.ExecFailure? || (e.outcome.ParseFailure? && e.outcome.severity == Fatal))
  }

  function CountWaiting(events: seq<Event>): nat {
    if events == [] then 0 else CountWaiting(events[1..]) + if LeftWaiting(events[0]) then 1 else 0
  }

  function RequestsIn(server: Server, sent: seq<byte>): nat {
    Requests(Exec(server, INITIAL, sent).events)
  }

  /** The client sends the last byte of a request only when the bytes it has
      received decode to as many answers as it has made requests. */
  predicate Counting(server: Server, s: System, a: Action) {
    a.ClientSends? && RequestsIn(server, Sent(s) + [a.b]) > RequestsIn(server, Sent(s)) ==>
      Answers(DecodeAll(s.wire).0) == RequestsIn(server, Sent(s))
  }

  predicate AllCounting(server: Server, s: System, actions: seq<Action>)
    requires Possible(server, s, actions)
    decreases |actions|
  {
    actions == []
    || (Counting(server, s, actions[0]) && AllCounting(server, Apply(server, s, actions[0]), actions[1..]))
  }

  // ------------------------------------------------------------------ answers and requests

  lemma {:induction false} AnswersAppend(a: seq<Message>, b: seq<Message>)
    ensures Answers(a + b) == Answers(a) + Answers(b)
  {
    if a == [] {
      assert a + b == b;
    } else {
      assert (a + b)[1..] == a[1..] + b;
      AnswersAppend(a[1..], b);
    }
  }

  lemma {:induction false} NoAnswers(ms: seq<Message>)
    requires forall i :: 0 <= i < |ms| ==> !IsAnswer(ms[i])
    ensures Answers(ms) == 0
  {
    if ms != [] {
      NoAnswers(ms[1..]);
    }
  }

  lemma AnswersOne(m: Message)
    ensures Answers([m]) == if IsAnswer(m) then 1 else 0
  {
    assert [m][1..] == [];
    assert Answers([]) == 0;
  }

  /** A request has one answer, at the end of its reply, or is left waiting. */
  lemma ReplyAnswers(server: Server, e: Event)
    ensures var reply := Reply(server, e);
            && Answers(reply) == (if IsRequest(e) && !LeftWaiting(e) then 1 else 0)
            && (reply != [] ==> IsRequest(e))
            && (IsRequest(e) && Answers(reply) == 1 ==> reply != [] && IsAnswer(reply[|reply| - 1]))
  {
    hide SelectTag, Description, Reply;
    match e
    case SslAsked =>
      ReplyOne(server, e);
      AnswersOne(SslRefused);
    case Started(_) =>
      StartupReply(server, e);
      LastAnswers([AuthenticationOk] + StatusMessages(server.status), ReadyForQuery(Idle));
    case Queried(_, ParseFailure(text, severity, state)) =>
      ErrorReply(server, e);
      LastAnswers([ErrorResponse(text, severity, state)], ReadyForQuery(Idle));
      assert [ErrorResponse(text, severity, state)] + [ReadyForQuery(Idle)]
             == [ErrorResponse(text, severity, state), ReadyForQuery(Idle)];
      NoAnswers([]);
    case Queried(_, ExecFailure(fields)) =>
      ReplyOne(server, e);
      AnswersOne(Description(fields));
    case Queried(_, Success(fields, rows)) =>
      SuccessReply(server, e);
      var front := [Description(fields)] + AsMessages(rows) + [CommandComplete(SelectTag(|rows|))];
      assert ResultSet(fields, rows) == front + [ReadyForQuery(Idle)];
      LastAnswers(front, ReadyForQuery(Idle));
    case Terminated => ReplyNone(server, e); NoAnswers([]);
    case Dropped(_) => ReplyNone(server, e); NoAnswers([]);
  }

  lemma LastAnswers(front: seq<Message>, last: Message)
    requires forall i :: 0 <= i < |front| ==> !IsAnswer(front[i])
    ensures Answers(front + [last]) == if IsAnswer(last) then 1 else 0
  {
    NoAnswers(front);
    AnswersOne(last);
    AnswersAppend(front, [last]);
  }

  /** The answers are the requests less those left waiting; when there are as
      many answers as requests, the reply stream is empty or ends in an answer. */
  lemma {:induction false} OutputAnswers(server: Server, events: seq<Event>)
    ensures var ms := Output(server, events);
            && Answers(ms) + CountWaiting(events) == Requests(events)
            && (Answers(ms) == Requests(events) && ms != [] ==> IsAnswer(ms[|ms| - 1]))
  {
    hide Reply, IsAnswer, IsRequest, LeftWaiting;
    if events != [] {
      WaitingAsked(events[0]);
      var reply, rest := Reply(server, events[0]), Output(server, events[1..]);
      OutputAnswers(server, events[1..]);
      ReplyAnswers(server, events[0]);
      AnswersAppend(reply, rest);
      if rest == [] {
        assert reply + rest == reply;
      }
    }
  }

  lemma WaitingAsked(e: Event)
    ensures LeftWaiting(e) ==> IsRequest(e)
  {
  }

  lemma {:induction false} NoneWaitingIff(events: seq<Event>)
    ensures CountWaiting(events) == 0 <==> forall e :: e in events ==> !LeftWaiting(e)
  {
    hide LeftWaiting;
    if events != [] {
      NoneWaitingIff(events[1..]);
      assert events == [events[0]] + events[1..];
    }
  }

  /** Section 53.2.2 of the PostgreSQL 14 documentation ends every simple query
      with ReadyForQuery. A client decodes as many answers as it has made
      requests exactly when no query fails in its execution or with a Fatal
      error; each that does costs one answer. */
  lemma AllAnsweredIff(server: Server, input: seq<byte>)
    requires WellBehaved(server)
    ensures var events := Exec(server, INITIAL, input).events;
            var answers := Answers(DecodeAll(ReplyBytes(server, input)).0);
            && answers + CountWaiting(events) == RequestsIn(server, input)
            && (answers == RequestsIn(server, input) <==> forall e :: e in events ==> !LeftWaiting(e))
  {
    hide Exec, WellBehaved, DecodeAll, EncodeAll, Output, Answers, CountWaiting, Requests, LeftWaiting, IsTranscript, Fits;
    BytesDecodeToTranscript(server, input);
    OutputAnswers(server, Exec(server, INITIAL, input).events);
    NoneWaitingIff(Exec(server, INITIAL, input).events);
  }

  /** The input at which the code leaves a client waiting: a start-up and one
      query whose execution fails. The client decodes the start-up block and a
      bare description, one answer to two requests. */
  lemma ExecFailureWaits(server: Server, start: Ask, text: Text)
    requires WellBehaved(server) && start.AskStart? && AskFits(start) && AskFits(AskQuery(text))
    requires server.handler([], text).ExecFailure?
    ensures var input := AskBytes(start) + AskBytes(AskQuery(text));
            && DecodeAll(ReplyBytes(server, input))
               == (StartupBlock(server.status) + [Description(server.handler([], text).fields)], [])
            && Answers(DecodeAll(ReplyBytes(server, input)).0) == 1 && RequestsIn(server, input) == 2
            && Exec(server, INITIAL, input).state.mode == Open
  {
    hide Exec, WellBehaved, DecodeAll, EncodeAll, Output, Answers, IsTranscript, Fits, AskBytes, AskFits, Reply, Description;
    var q := AskQuery(text);
    var input := AskBytes(start) + AskBytes(q);
    AskedIsSeen(server, INITIAL, start, AskBytes(q));
    var e1 := Seen(server, INITIAL, start);
    var st := After(INITIAL, e1);
    AskedIsSeen(server, st, q, []);
    assert AskBytes(q) + [] == AskBytes(q);
    var e2 := Seen(server, st, q);
    ExecNothing(server, After(st, e2));
    assert [e2] + [] == [e2];
    var events := [e1] + [e2];
    assert Exec(server, INITIAL, input).events == events;
    BytesDecodeToTranscript(server, input);
    OutputAppend(server, [e1], [e2]);
    OutputOne(server, e1);
    OutputOne(server, e2);
    StartupReply(server, e1);
    ReplyOne(server, e2);
    AllAnsweredIff(server, input);
    assert events[1..] == [e2] && events[2..] == [];
    assert Requests(events[2..]) == 0 && CountWaiting(events[2..]) == 0;
    assert Requests(events[1..]) == 1 && CountWaiting(events[1..]) == 1;
  }

  /** Such servers exist: every query of this one fails in its execution. */
  ghost const FAILS: Server := Server((past: seq<Text>, text: Text) => ExecFailure([]), STATUS_TABLE)

  lemma SomeClientWaits()
    ensures WellBehaved(FAILS)
    ensures var input := AskBytes(AskStart(3, 0, [])) + AskBytes(AskQuery([]));
            Answers(DecodeAll(ReplyBytes(FAILS, input)).0) == 1 && RequestsIn(FAILS, input) == 2
  {
    hide Exec, DecodeAll, EncodeAll, Output, Answers, AskBytes, RequestsIn, Description;
    assert Fits(Description([])) by {
      NoFieldsFit();
    }
    Pow256Values();
    ExecFailureWaits(FAILS, AskStart(3, 0, []), []);
  }

  lemma NoFieldsFit()
    ensures Fits(Description([]))
  {
  }

  lemma {:induction false} RequestsAppend(a: seq<Event>, b: seq<Event>)
    ensures Requests(a + b) == Requests(a) + Requests(b)
  {
    if a == [] {
      assert a + b == b;
    } else {
      assert (a + b)[1..] == a[1..] + b;
      RequestsAppend(a[1..], b);
    }
  }

  lemma {:induction false} NoRequestNoOutput(server: Server, events: seq<Event>)
    requires Requests(events) == 0
    ensures Output(server, events) == []
  {
    hide Reply, IsRequest;
    if events != [] {
      ReplyAnswers(server, events[0]);
      NoRequestNoOutput(server, events[1..]);
    }
  }

  lemma ElicitsRequests(server: Server, sent: seq<byte>, b: byte)
    requires Elicits(server, sent, b)
    ensures RequestsIn(server, sent + [b]) > RequestsIn(server, sent)
  {
    hide Exec, Output, Requests;
    ExecSplit(server, INITIAL, sent, [b]);
    var first := Exec(server, INITIAL, sent);
    var second := Exec(server, first.state, first.rest + [b]);
    RequestsAppend(first.events, second.events);
    OutputAppend(server, first.events, second.events);
    OutputNothing(server);
    if Requests(second.events) == 0 {
      NoRequestNoOutput(server, second.events);
    }
  }

  lemma AnswersOfPrefix(ms: seq<Message>, k: nat)
    requires k <= |ms| && Answers(ms[..k]) == Answers(ms) && (ms != [] ==> IsAnswer(ms[|ms| - 1]))
    ensures k == |ms|
  {
    hide IsAnswer, Answers;
    if k < |ms| {
      var last := ms[|ms| - 1];
      assert ms == ms[..k] + (ms[k..|ms| - 1] + [last]);
      AnswersAppend(ms[..k], ms[k..|ms| - 1] + [last]);
      AnswersAppend(ms[k..|ms| - 1], [last]);
      AnswersOne(last);
    }
  }

  // ------------------------------------------------------------------ counting is polite

  lemma AllAnswered(server: Server, sent: seq<byte>, wire: seq<byte>)
    requires WellBehaved(server) && wire <= ReplyBytes(server, sent)
    requires Answers(DecodeAll(wire).0) == RequestsIn(server, sent)
    ensures wire == ReplyBytes(server, sent)
  {
    hide Exec, WellBehaved, Fits, DecodeAll, EncodeAll, Answers, IsAnswer, Output, Requests;
    var ms := Replies(server, sent);
    OutputFits(server, INITIAL, sent);
    OutputAnswers(server, Exec(server, INITIAL, sent).events);
    AnsweredInFull(ms, wire, RequestsIn(server, sent));
  }

  lemma AnsweredInFull(ms: seq<Message>, wire: seq<byte>, requests: nat)
    requires AllFit(ms) && wire <= EncodeAll(ms) && Answers(DecodeAll(wire).0) == requests
    requires Answers(ms) <= requests
    requires Answers(ms) == requests && ms != [] ==> IsAnswer(ms[|ms| - 1])
    ensures wire == EncodeAll(ms)
  {
    hide Fits, DecodeAll, EncodeAll, Answers, IsAnswer;
    var k := DecodeCut(ms, wire);
    AnswersAppend(ms[..k], ms[k..]);
    assert ms == ms[..k] + ms[k..];
    AnswersOfPrefix(ms, k);
    assert ms[..k] == ms;
    assert wire == EncodeAll(ms) + [];
  }

  lemma CountingIsPolite(server: Server, s: System, a: Action)
    requires WellBehaved(server) && Inv(server, s) && Counting(server, s, a)
    ensures Polite(server, s, a)
  {
    hide Inv, WellBehaved, ReplyBytes, DecodeAll, Answers, RequestsIn, Elicits;
    InvCore(server, s);
    WireIsPrefix(server, s);
    if a.ClientSends? && Elicits(server, Sent(s), a.b) {
      ElicitsRequests(server, Sent(s), a.b);
      AllAnswered(server, Sent(s), s.wire);
    }
  }

  lemma {:induction false} CountingRunIsPolite(server: Server, s: System, actions: seq<Action>)
    requires WellBehaved(server) && Inv(server, s)
    requires Possible(server, s, actions) && AllCounting(server, s, actions)
    ensures AllPolite(server, s, actions)
    decreases |actions|
  {
    hide Inv, WellBehaved, Counting, Polite, Apply, Enabled;
    if actions != [] {
      CountingIsPolite(server, s, actions[0]);
      StepKeeps(server, s, actions[0]);
      CountingRunIsPolite(server, Apply(server, s, actions[0]), actions[1..]);
    }
  }

  /** What a counting client ever receives, in any interleaving: a prefix of
      the sequential reply, which decodes to a prefix of a transcript and the
      beginning of its next message. */
  lemma CountingClientSees(server: Server, actions: seq<Action>) returns (k: nat)
    requires WellBehaved(server) && Possible(server, START, actions) && AllCounting(server, START, actions)
    ensures var s := Final(server, START, actions);
            var ms := Replies(server, Sent(s));
            && s.wire <= ReplyBytes(server, Sent(s))
            && var r := Exec(server, INITIAL, Sent(s));
            && IsTranscript(server.status, CountSsl(r.events), r.state.startupDone, ms)
            && k <= |ms| && DecodeAll(s.wire).0 == ms[..k]
            && (k < |ms| ==> DecodeAll(s.wire).1 < Encode(ms[k]))
            && (k == |ms| ==> DecodeAll(s.wire).1 == [])
  {
    hide Inv, WellBehaved, Possible, AllPolite, AllCounting, Final, Exec, Output, DecodeAll, Encode, IsTranscript, Fits;
    InitialInv(server);
    CountingRunIsPolite(server, START, actions);
    PrefixOfSequential(server, actions);
    var s := Final(server, START, actions);
    OutputFits(server, INITIAL, Sent(s));
    BytesDecodeToTranscript(server, Sent(s));
    k := DecodeCut(Replies(server, Sent(s)), s.wire);
  }
}
