/** Accounts of a whole session: what each kind of reply counts, when the
    start-up happens, and which input changes nothing. */
module Accounts {
  import opened Bytes
  import opened Buffers
  import opened Messages
  import opened Writers
  import opened Startup
  import opened Protocol
  import opened Decoding
  import opened Transcripts

  // ------------------------------------------------------------------ counting messages

  function CountReady(ms: seq<Message>): nat {
    if ms == [] then 0 else CountReady(ms[1..]) + if ms[0].ReadyForQuery? then 1 else 0
  }

  function CountAuthenticated(ms: seq<Message>): nat {
    if ms == [] then 0 else CountAuthenticated(ms[1..]) + if ms[0].AuthenticationOk? then 1 else 0
  }

  lemma {:induction false} CountsAppend(a: seq<Message>, b: seq<Message>)
    ensures CountReady(a + b) == CountReady(a) + CountReady(b)
    ensures CountAuthenticated(a + b) == CountAuthenticated(a) + CountAuthenticated(b)
  {
    if a == [] {
      assert a + b == b;
    } else {
      assert (a + b)[1..] == a[1..] + b;
      CountsAppend(a[1..], b);
    }
  }

  lemma {:induction false} NoneCounted(ms: seq<Message>)
    requires forall i :: 0 <= i < |ms| ==> ms[i].DataRow? || ms[i].ParameterStatus?
    ensures CountReady(ms) == 0 && CountAuthenticated(ms) == 0
  {
    if ms != [] {
      NoneCounted(ms[1..]);
    }
  }

  lemma CountOne(m: Message)
    ensures CountReady([m]) == if m.ReadyForQuery? then 1 else 0
    ensures CountAuthenticated([m]) == if m.AuthenticationOk? then 1 else 0
  {
    assert [m][1..] == [];
    assert CountReady([]) == 0 && CountAuthenticated([]) == 0;
  }

  /** Does this event earn a ReadyForQuery? */
  function Earns(e: Event): nat {
    match e
    case Started(_) => 1
    case Queried(_, Success(_, _)) => 1
    case Queried(_, ParseFailure(_, severity, _)) => if severity == Fatal then 0 else 1
    case _ => 0
  }

  lemma ReplyCounts(server: Server, e: Event)
    ensures CountReady(Reply(server, e)) == Earns(e)
    ensures CountAuthenticated(Reply(server, e)) == if e.Started? then 1 else 0
  {
    hide Description, SelectTag, CountReady, CountAuthenticated, Reply;
    CountOne(SslRefused);
    CountOne(AuthenticationOk);
    CountOne(ReadyForQuery(Idle));
    NoneCounted([]);
    match e
    case SslAsked => ReplyOne(server, e);
    case Started(_) =>
      StartupReply(server, e);
      NoneCounted(StatusMessages(server.status));
      CountsAppend([AuthenticationOk] + StatusMessages(server.status), [ReadyForQuery(Idle)]);
      CountsAppend([AuthenticationOk], StatusMessages(server.status));
    case Queried(_, ParseFailure(text, severity, state)) =>
      ErrorReply(server, e);
      CountOne(ErrorResponse(text, severity, state));
      CountsAppend([ErrorResponse(text, severity, state)], [ReadyForQuery(Idle)]);
      assert [ErrorResponse(text, severity, state)] + [ReadyForQuery(Idle)]
             == [ErrorResponse(text, severity, state), ReadyForQuery(Idle)];
    case Queried(_, ExecFailure(fields)) =>
      ReplyOne(server, e);
      CountOne(Description(fields));
    case Queried(_, Success(fields, rows)) =>
      SuccessReply(server, e);
      var d, c := Description(fields), CommandComplete(SelectTag(|rows|));
      CountOne(d);
      CountOne(c);
      NoneCounted(AsMessages(rows));
      CountsAppend([d] + AsMessages(rows), [c, ReadyForQuery(Idle)]);
      CountsAppend([d], AsMessages(rows));
      CountsAppend([c], [ReadyForQuery(Idle)]);
      assert [c] + [ReadyForQuery(Idle)] == [c, ReadyForQuery(Idle)];
    case Terminated => ReplyNone(server, e);
    case Dropped(_) => ReplyNone(server, e);
  }

  lemma ReplyOne(server: Server, e: Event)
    requires e.SslAsked? || (e.Queried? && e.outcome.ExecFailure?)
    ensures Reply(server, e) == [if e.SslAsked? then SslRefused else Description(e.outcome.fields)]
  {
    hide Description;
    Transcripts.FlattenOne(if e.SslAsked? then SslRefused else Description(e.outcome.fields));
  }

  lemma ReplyNone(server: Server, e: Event)
    requires e.Terminated? || e.Dropped?
    ensures Reply(server, e) == []
  {
  }

  // ------------------------------------------------------------------ accounting

  function CountStarted(events: seq<Event>): nat {
    if events == [] then 0 else CountStarted(events[1..]) + if events[0].Started? then 1 else 0
  }

  function CountSucceeded(events: seq<Event>): nat {
    if events == [] then 0
    else CountSucceeded(events[1..]) + if events[0].Queried? && events[0].outcome.Success? then 1 else 0
  }

  /** Queries whose parse handler failed, with an error that is not Fatal. */
  function CountRefused(events: seq<Event>): nat {
    if events == [] then 0
    else CountRefused(events[1..])
         + if events[0].Queried? && events[0].outcome.ParseFailure? && events[0].outcome.severity != Fatal then 1 else 0
  }

  lemma {:induction false} OutputCounts(server: Server, events: seq<Event>)
    ensures CountReady(Output(server, events))
            == CountStarted(events) + CountSucceeded(events) + CountRefused(events)
    ensures CountAuthenticated(Output(server, events)) == CountStarted(events)
  {
    hide Reply, CountReady, CountAuthenticated;
    NoneCounted([]);
    if events != [] {
      OutputCounts(server, events[1..]);
      ReplyCounts(server, events[0]);
      CountsAppend(Reply(server, events[0]), Output(server, events[1..]));
    }
  }

  /** The events of a run, in order: SSL requests, the start-up message, then
      the rest; nothing follows a Terminate or a Fatal error. */
  ghost predicate Phased(st: State, events: seq<Event>)
    decreases |events|
  {
    events == [] ||
    (st.mode == Open
     && ((events[0].SslAsked? || events[0].Started?) <==> !st.startupDone)
     && Phased(After(st, events[0]), events[1..]))
  }

  lemma {:induction false} ExecPhased(server: Server, st: State, input: seq<byte>)
    ensures Phased(st, Exec(server, st, input).events)
    decreases |input|
  {
    hide ScanFrame;
    if st.mode == Open {
      match ScanFrame(st.startupDone, input)
      case Incomplete =>
      case Invalid =>
      case Whole(frame, length) =>
        ScanLength(st.startupDone, input);
        FrameKind(st.startupDone, input);
        var e := Interpret(server, st, frame);
        var later := Exec(server, After(st, e), input[length..]).events;
        assert ([e] + later)[1..] == later;
        ExecPhased(server, After(st, e), input[length..]);
    }
  }

  lemma {:induction false} ExecCountsStarted(server: Server, st: State, input: seq<byte>)
    ensures var r := Exec(server, st, input);
            CountStarted(r.events) == (if r.state.startupDone then 1 else 0) - (if st.startupDone then 1 else 0)
    decreases |input|
  {
    hide ScanFrame;
    if st.mode == Open {
      match ScanFrame(st.startupDone, input)
      case Incomplete =>
      case Invalid =>
      case Whole(frame, length) =>
        ScanLength(st.startupDone, input);
        FrameKind(st.startupDone, input);
        var e := Interpret(server, st, frame);
        var later := Exec(server, After(st, e), input[length..]).events;
        assert ([e] + later)[1..] == later;
        ExecCountsStarted(server, After(st, e), input[length..]);
    }
  }

  /** The ReadyForQuery messages that a client decodes from a run: one for the
      start-up, one for each query that succeeded and one for each query whose
      parse handler failed with a non-fatal error. Execution failures add none. */
  lemma ReadyAccounting(server: Server, input: seq<byte>)
    requires WellBehaved(server)
    ensures var r := Exec(server, INITIAL, input);
            CountReady(DecodeAll(ReplyBytes(server, input)).0)
            == (if r.state.startupDone then 1 else 0) + CountSucceeded(r.events) + CountRefused(r.events)
  {
    hide Exec, Output, DecodeAll, WellBehaved, EncodeAll, IsTranscript;
    BytesDecodeToTranscript(server, input);
    OutputCounts(server, Exec(server, INITIAL, input).events);
    ExecCountsStarted(server, INITIAL, input);
  }

  /** startup_done changes at most once, from false to true; one
      AuthenticationOk is sent once it has, and none before, and that is what a
      client decodes. */
  lemma StartupOnce(server: Server, a: seq<byte>, b: seq<byte>)
    ensures var before, after := Exec(server, INITIAL, a).state, Exec(server, INITIAL, a + b).state;
            && (before.startupDone ==> after.startupDone)
            && CountAuthenticated(Replies(server, a + b)) == (if after.startupDone then 1 else 0)
            && Phased(INITIAL, Exec(server, INITIAL, a + b).events)
    ensures WellBehaved(server) ==>
              CountAuthenticated(DecodeAll(ReplyBytes(server, a + b)).0)
              == (if Exec(server, INITIAL, a + b).state.startupDone then 1 else 0)
  {
    hide Exec, Output, Phased, WellBehaved, DecodeAll, EncodeAll, IsTranscript;
    if WellBehaved(server) {
      BytesDecodeToTranscript(server, a + b);
    }
    ExecSplit(server, INITIAL, a, b);
    var first := Exec(server, INITIAL, a);
    var second := Exec(server, first.state, first.rest + b);
    ExecCountsStarted(server, first.state, first.rest + b);
    ExecCountsStarted(server, INITIAL, a + b);
    OutputCounts(server, Exec(server, INITIAL, a + b).events);
    ExecPhased(server, INITIAL, a + b);
  }

  /** The queries among the events have the outcomes of handler calls, each
      given the texts before it, and the past before the first. */
  ghost predicate HandledFrom(server: Server, past: seq<Text>, events: seq<Event>)
    decreases |events|
  {
    events == [] ||
    (if events[0].Queried?
     then
       && events[0].outcome == server.handler(past, events[0].text)
       && HandledFrom(server, past + [events[0].text], events[1..])
     else HandledFrom(server, past, events[1..]))
  }

  /** Each query is given to the handler once, in order, with the texts of the
      queries before it; frames of other kinds do not count. */
  lemma {:induction false} QueriesInOrder(server: Server, st: State, input: seq<byte>)
    ensures HandledFrom(server, st.queries, Exec(server, st, input).events)
    decreases |input|
  {
    hide ScanFrame, Interpret, After;
    if st.mode == Open {
      match ScanFrame(st.startupDone, input)
      case Incomplete =>
      case Invalid =>
      case Whole(frame, length) =>
        ScanLength(st.startupDone, input);
        var e := Interpret(server, st, frame);
        var later := Exec(server, After(st, e), input[length..]).events;
        assert ([e] + later)[1..] == later;
        QueryCounts(server, st, frame);
        QueriesInOrder(server, After(st, e), input[length..]);
    }
  }

  lemma QueryCounts(server: Server, st: State, frame: Frame)
    requires frame.Untagged? ==> |frame.payload| >= 4
    ensures var e := Interpret(server, st, frame);
            && After(st, e).queries == (if e.Queried? then st.queries + [e.text] else st.queries)
            && (e.Queried? ==> e.outcome == server.handler(st.queries, e.text))
  {
  }

  /** A query text ends at its first NUL; a body without one is the empty query. */
  lemma QueryText(server: Server, st: State, text: Text, rest: seq<byte>)
    requires NulFree(text)
    ensures Interpret(server, st, Tagged('Q' as int, text + [0] + rest)) == Queried(text, server.handler(st.queries, text))
    ensures Interpret(server, st, Tagged('Q' as int, text)) == Queried([], server.handler(st.queries, []))
  {
    CStringOfText(text, rest);
  }

  // ------------------------------------------------------------------ absorption and stuttering

  /** Once the session is closed or stuck, no further input adds any output. */
  lemma Absorbed(server: Server, a: seq<byte>, b: seq<byte>)
    requires Exec(server, INITIAL, a).state.mode != Open
    ensures Replies(server, a + b) == Replies(server, a)
    ensures Exec(server, INITIAL, a + b).state == Exec(server, INITIAL, a).state
    ensures Exec(server, INITIAL, a + b).events == Exec(server, INITIAL, a).events
  {
    hide Output;
    ExecSplit(server, INITIAL, a, b);
    var first := Exec(server, INITIAL, a);
    assert Exec(server, first.state, first.rest + b) == Run([], first.state, first.rest + b);
    assert first.events + [] == first.events;
  }

  lemma ScanTagged(tag: byte, body: seq<byte>, rest: seq<byte>)
    requires |body| + 4 <= INT32_MAX
    ensures ScanFrame(true, Messages.Frame(tag, body) + rest)
            == Whole(Tagged(tag, body), |Messages.Frame(tag, body)|)
    ensures (Messages.Frame(tag, body) + rest)[|Messages.Frame(tag, body)|..] == rest
  {
    var f := Messages.Frame(tag, body);
    var s := f + rest;
    assert s[..5] == f[..5];
    FrameHeader(tag, body, s);
    assert s[5..5 + |body|] == body;
  }

  lemma ExecTagged(server: Server, st: State, tag: byte, body: seq<byte>, rest: seq<byte>)
    requires st.mode == Open && st.startupDone && |body| + 4 <= INT32_MAX
    ensures var e := Interpret(server, st, Tagged(tag, body));
            var later := Exec(server, After(st, e), rest);
            Exec(server, st, Messages.Frame(tag, body) + rest) == Run([e] + later.events, later.state, later.rest)
  {
    hide ScanFrame, Interpret, After, Messages.Frame;
    ScanTagged(tag, body, rest);
  }

  lemma OutputQuiet(server: Server, e: Event, events: seq<Event>)
    requires Reply(server, e) == []
    ensures Output(server, [e] + events) == Output(server, events)
  {
    assert ([e] + events)[1..] == events;
  }

  /** A well-formed frame with an unregistered tag may be put in, or taken out,
      at any frame boundary after the start-up: neither the reply nor the
      state of the session changes. */
  lemma UnregisteredFrameInvisible(server: Server, a: seq<byte>, tag: byte, body: seq<byte>, b: seq<byte>)
    requires var r := Exec(server, INITIAL, a); r.state.startupDone && r.rest == []
    requires tag != 'Q' as int && tag != 'X' as int && |body| + 4 <= INT32_MAX
    ensures Replies(server, a + (Messages.Frame(tag, body) + b)) == Replies(server, a + b)
    ensures Exec(server, INITIAL, a + (Messages.Frame(tag, body) + b)).state == Exec(server, INITIAL, a + b).state
  {
    hide Output, Messages.Frame, Exec, Reply;
    var f := Messages.Frame(tag, body);
    var first := Exec(server, INITIAL, a);
    assert first.rest + b == b && first.rest + (f + b) == f + b;
    ExecSplit(server, INITIAL, a, b);
    ExecSplit(server, INITIAL, a, f + b);
    if first.state.mode == Open {
      ExecTagged(server, first.state, tag, body, b);
      var e := Interpret(server, first.state, Tagged(tag, body));
      var later := Exec(server, first.state, b).events;
      ReplyNone(server, e);
      OutputQuiet(server, e, later);
      OutputAppend(server, first.events, later);
      OutputAppend(server, first.events, [e] + later);
    } else {
      NoEvents(server, first.state, b);
      NoEvents(server, first.state, f + b);
    }
  }

  lemma NoEvents(server: Server, st: State, input: seq<byte>)
    requires st.mode != Open
    ensures Exec(server, st, input) == Run([], st, input)
  {
  }

  /** Terminate is not answered, and nothing that follows it is. */
  lemma TerminateAbsorbs(server: Server, a: seq<byte>, body: seq<byte>, b: seq<byte>)
    requires var r := Exec(server, INITIAL, a); r.state.startupDone && r.rest == []
    requires |body| + 4 <= INT32_MAX
    ensures Replies(server, a + (Messages.Frame('X' as int, body) + b)) == Replies(server, a)
    ensures Exec(server, INITIAL, a).state.mode == Open ==>
              Exec(server, INITIAL, a + (Messages.Frame('X' as int, body) + b)).state.mode == Closed
    ensures Exec(server, INITIAL, a + (Messages.Frame('X' as int, body) + b)).state.mode != Open
  {
    hide Output, Messages.Frame, Exec, Reply;
    var f := Messages.Frame('X' as int, body);
    var first := Exec(server, INITIAL, a);
    assert first.rest + (f + b) == f + b;
    ExecSplit(server, INITIAL, a, f + b);
    if first.state.mode == Open {
      ExecTagged(server, first.state, 'X' as int, body, b);
      NoEvents(server, first.state.(mode := Closed), b);
      assert [Terminated] + [] == [Terminated];
      ReplyNone(server, Terminated);
      OutputQuiet(server, Terminated, []);
      OutputAppend(server, first.events, [Terminated]);
      OutputNothing(server);
    } else {
      NoEvents(server, first.state, f + b);
      assert first.events + [] == first.events;
    }
  }

  lemma OutputNothing(server: Server)
    ensures Output(server, []) == []
    ensures forall ms: seq<Message> :: ms + [] == ms
  {
  }

  /** A Fatal parse failure ends the run: it is not answered, and nothing that
      follows it is. */
  lemma FatalEnds(server: Server, a: seq<byte>, text: Text, b: seq<byte>)
    requires var r := Exec(server, INITIAL, a); r.state == State(Open, true, r.state.queries) && r.rest == []
    requires NulFree(text) && |text| + 5 <= INT32_MAX
    requires var o := server.handler(Exec(server, INITIAL, a).state.queries, text);
             o.ParseFailure? && o.severity == Fatal
    ensures Replies(server, a + (Messages.Frame('Q' as int, text + [0]) + b)) == Replies(server, a)
    ensures Exec(server, INITIAL, a + (Messages.Frame('Q' as int, text + [0]) + b)).state.mode == Closed
  {
    hide Output, Messages.Frame, Exec, Reply;
    var f := Messages.Frame('Q' as int, text + [0]);
    var first := Exec(server, INITIAL, a);
    assert first.rest + (f + b) == f + b;
    ExecSplit(server, INITIAL, a, f + b);
    ExecTagged(server, first.state, 'Q' as int, text + [0], b);
    CStringOfText(text, []);
    assert text + [0] + [] == text + [0];
    var e := Interpret(server, first.state, Tagged('Q' as int, text + [0]));
    NoEvents(server, After(first.state, e), b);
    assert [e] + [] == [e];
    ErrorReply(server, e);
    OutputQuiet(server, e, []);
    OutputAppend(server, first.events, [e]);
    OutputNothing(server);
  }

  /** A length field below 4, or below 8 before the start-up, is refused: the
      session is stuck, and nothing more is answered. */
  lemma BadLengthSticks(server: Server, a: seq<byte>, header: seq<byte>, b: seq<byte>)
    requires var r := Exec(server, INITIAL, a);
             && r.state.mode == Open && r.rest == []
             && if r.state.startupDone then |header| == 5 && Signed(header[1..]) < 4 else |header| == 4 && Signed(header) < 8
    ensures Replies(server, a + (header + b)) == Replies(server, a)
    ensures Exec(server, INITIAL, a + (header + b)).state.mode == Stuck
  {
    hide Output;
    var first := Exec(server, INITIAL, a);
    assert first.rest + (header + b) == header + b;
    ExecSplit(server, INITIAL, a, header + b);
    var h := HeaderSize(first.state.startupDone);
    assert (header + b)[h - 4..h] == header[h - 4..];
    assert header[0..] == header;
    assert first.events + [] == first.events;
  }

  // ------------------------------------------------------------------ what a client asks is what the server sees

  datatype Ask = AskSsl | AskStart(major: int, minor: int, pairs: Pairs) | AskQuery(text: Text)
               | AskEnd | AskOther(tag: byte, body: seq<byte>)

  /** How a client writes each message (section 53.7 of the PostgreSQL 14
      documentation). */
  function AskBytes(q: Ask): seq<byte> {
    match q
    case AskSsl => [0, 0, 0, 8, 4, 210, 22, 47]
    case AskStart(major, minor, pairs) =>
      Num(4, |PairsBytes(pairs)| + 9) + (Num(2, major) + Num(2, minor) + (PairsBytes(pairs) + [0]))
    case AskQuery(text) => Messages.Frame('Q' as int, text + [0])
    case AskEnd => Messages.Frame('X' as int, [])
    case AskOther(tag, body) => Messages.Frame(tag, body)
  }

  ghost predicate AskFits(q: Ask) {
    match q
    case AskSsl => true
    case AskStart(major, minor, pairs) =>
      && FitsSigned(2, major) && FitsSigned(2, minor) && !(major == 1234 && minor == 5679)
      && PairsNulFree(pairs) && |PairsBytes(pairs)| + 9 <= INT32_MAX
    case AskQuery(text) => NulFree(text) && |text| + 5 <= INT32_MAX
    case AskEnd => true
    case AskOther(tag, body) => tag != 'Q' as int && tag != 'X' as int && |body| + 4 <= INT32_MAX
  }

  /** Asked in its phase: SSL and start-up before the start-up is done, the
      rest afterwards. */
  predicate InPhase(st: State, q: Ask) {
    st.mode == Open && ((q.AskSsl? || q.AskStart?) <==> !st.startupDone)
  }

  function Seen(server: Server, st: State, q: Ask): Event {
    match q
    case AskSsl => SslAsked
    case AskStart(major, minor, pairs) =>
      Started(StartupRequest(major, minor, Given(pairs)))
    case AskQuery(text) => Queried(text, server.handler(st.queries, text))
    case AskEnd => Terminated
    case AskOther(tag, _) => Dropped(tag)
  }

  lemma ScanUntagged(payload: seq<byte>, rest: seq<byte>)
    requires 4 <= |payload| && |payload| + 4 <= INT32_MAX
    ensures var s := Num(4, |payload| + 4) + payload;
            ScanFrame(false, s + rest) == Whole(Untagged(payload), |s|) && (s + rest)[|s|..] == rest
  {
    Pow256Values();
    SignedNum(4, |payload| + 4);
    var s := Num(4, |payload| + 4) + payload;
    assert (s + rest)[0..4] == Num(4, |payload| + 4);
    assert (s + rest)[4..4 + |payload|] == payload;
  }

  lemma Eight()
    ensures Num(4, 8) == [0, 0, 0, 8]
  {
    Pow256Values();
    assert BigEndian(0, 0) == [];
    assert BigEndian(1, 0) == [0];
    assert BigEndian(2, 0) == [0, 0];
    assert BigEndian(3, 0) == [0, 0, 0];
  }

  /** Each message that a client writes is read as exactly that message, and
      the rest of the input is left for the next. */
  lemma AskedIsSeen(server: Server, st: State, q: Ask, rest: seq<byte>)
    requires AskFits(q) && InPhase(st, q)
    ensures var e := Seen(server, st, q);
            var later := Exec(server, After(st, e), rest);
            Exec(server, st, AskBytes(q) + rest) == Run([e] + later.events, later.state, later.rest)
  {
    hide ScanFrame, After, Messages.Frame, Given, PairsBytes, ReadRequest, Num;
    match q
    case AskSsl =>
      ReadSslRequest([4, 210, 22, 47]);
      Eight();
      var payload: seq<byte> := [4, 210, 22, 47];
      assert payload[..4] == payload;
      assert AskBytes(q) == Num(4, |payload| + 4) + payload;
      ScanUntagged(payload, rest);
    case AskStart(major, minor, pairs) =>
      ReadRequestOfPairs(major, minor, pairs, [], []);
      ScanUntagged(Num(2, major) + Num(2, minor) + (PairsBytes(pairs) + [0]), rest);
    case AskQuery(text) =>
      CStringOfText(text, []);
      assert text + [0] + [] == text + [0];
      ExecTagged(server, st, 'Q' as int, text + [0], rest);
    case AskEnd => ExecTagged(server, st, 'X' as int, [], rest);
    case AskOther(tag, body) => ExecTagged(server, st, tag, body, rest);
  }
}
