/** The session as a sequential function of the bytes received. */
module Protocol {
  import opened Bytes
  import opened Buffers
  import opened Messages
  import opened Encoders
  import opened Writers
  import opened Startup
  import Decimal

  /** What running a query comes to. ParseFailure is raised by the parse
      handler; ExecFailure is raised later, by the handler that fills the rows. */
  datatype Outcome =
    | ParseFailure(text: Text, severity: Severity, state: SqlState)
    | ExecFailure(fields: seq<Field>)
    | Success(fields: seq<Field>, rows: seq<Row>)

  /** The outcome may depend on the whole past of the session: a handler is
      given the texts of the queries before this one, in order. */
  type Handler = (seq<Text>, Text) -> Outcome

  /** A server: its handler, and server_status in its iteration order. */
  datatype Server = Server(handler: Handler, status: seq<(Text, Text)>)

  /** Stuck: the read was rejected and nobody handles the rejection. */
  datatype Mode = Open | Closed | Stuck

  datatype State = State(mode: Mode, startupDone: bool, queries: seq<Text>)

  const INITIAL := State(Open, false, [])

  const TAG_QUERY: byte := 'Q' as int
  const TAG_TERMINATE: byte := 'X' as int

  // ------------------------------------------------------------------ frames

  datatype Frame = Untagged(payload: seq<byte>) | Tagged(tag: byte, body: seq<byte>)

  datatype Scan = Incomplete | Invalid | Whole(frame: Frame, length: nat)

  function HeaderSize(startupDone: bool): nat {
    if startupDone then 5 else 4
  }

  /** The value of the length field; it counts itself but not the tag. */
  function LengthField(startupDone: bool, s: seq<byte>): int
    requires |s| >= HeaderSize(startupDone)
  {
    var h := HeaderSize(startupDone);
    Signed(s[h - 4..h])
  }

  /** The smallest length field that can be decoded: start-up payloads hold a
      version. */
  function MinLength(startupDone: bool): int {
    if startupDone then 4 else 8
  }

  function FrameSize(startupDone: bool, s: seq<byte>): int
    requires |s| >= HeaderSize(startupDone)
  {
    HeaderSize(startupDone) - 4 + LengthField(startupDone, s)
  }

  /** One-shot recognition of the frame at the front of s. */
  function ScanFrame(startupDone: bool, s: seq<byte>): (r: Scan)
    ensures r.Whole? ==> HeaderSize(startupDone) <= r.length <= |s| && (r.frame.Tagged? <==> startupDone)
    ensures r.Whole? && r.frame.Untagged? ==> |r.frame.payload| >= 4
  {
    var h := HeaderSize(startupDone);
    if |s| < h then Incomplete
    else if LengthField(startupDone, s) < MinLength(startupDone) then Invalid
    else
      var size := FrameSize(startupDone, s);
      if |s| < size then Incomplete
      else if startupDone then Whole(Tagged(s[0], s[h..size]), size)
      else Whole(Untagged(s[h..size]), size)
  }

  // ------------------------------------------------------------------ one frame

  datatype Event =
    | SslAsked
    | Started(request: Request)
    | Queried(text: Text, outcome: Outcome)
    | Terminated
    | Dropped(tag: byte)

  function Interpret(server: Server, st: State, frame: Frame): Event
    requires frame.Untagged? ==> |frame.payload| >= 4
  {
    match frame
    case Untagged(payload) =>
      var request := ReadRequest(payload);
      if request.SslRequest? then SslAsked else Started(request)
    case Tagged(tag, body) =>
      if tag == TAG_QUERY then
        var text := CString(body);
        Queried(text, server.handler(st.queries, text))
      else if tag == TAG_TERMINATE then Terminated
      else Dropped(tag)
  }

  function StatusMessages(status: seq<(Text, Text)>): (ms: seq<Message>)
    ensures |ms| == |status|
  {
    seq(|status|, i requires 0 <= i < |status| => ParameterStatus(status[i].0, status[i].1))
  }

  function Each<T>(xs: seq<T>): (xss: seq<seq<T>>)
    ensures |xss| == |xs|
  {
    seq(|xs|, i requires 0 <= i < |xs| => [xs[i]])
  }

  function SelectTag(rows: nat): Text {
    Ascii("SELECT ") + Decimal.Print(rows)
  }

  function Description(fields: seq<Field>): (m: Message)
    ensures m.RowDescription? && |m.columns| == |fields|
  {
    RowDescription(DescribeAll(fields, TextFormat))
  }

  /** The writes that answer an event, in order: each inner sequence is the
      content of one write. */
  function Writes(server: Server, e: Event): seq<seq<Message>> {
    match e
    case SslAsked => [[SslRefused]]
    case Started(_) => [[AuthenticationOk]] + Each(StatusMessages(server.status)) + [[ReadyForQuery(Idle)]]
    case Queried(_, ParseFailure(text, severity, state)) =>
      if severity == Fatal then [] else [[ErrorResponse(text, severity, state)], [ReadyForQuery(Idle)]]
    case Queried(_, ExecFailure(fields)) => [[Description(fields)]]
    case Queried(_, Success(fields, rows)) =>
      [[Description(fields)], AsMessages(rows), [CommandComplete(SelectTag(|rows|))], [ReadyForQuery(Idle)]]
    case Terminated => []
    case Dropped(_) => []
  }

  function Reply(server: Server, e: Event): seq<Message> {
    Flatten(Writes(server, e))
  }

  /** Does the reader start again before the writes are done? */
  predicate Detached(e: Event) {
    e.Queried? && e.outcome.ParseFailure? && e.outcome.severity != Fatal
  }

  function After(st: State, e: Event): State {
    match e
    case SslAsked => st
    case Started(_) => st.(startupDone := true)
    case Queried(text, outcome) =>
      if outcome.ParseFailure? && outcome.severity == Fatal then st.(queries := st.queries + [text], mode := Closed)
      else st.(queries := st.queries + [text])
    case Terminated => st.(mode := Closed)
    case Dropped(_) => st
  }

  // ------------------------------------------------------------------ a whole input

  /** What a run did: the events, the state reached, and the bytes received
      but not yet part of a frame. */
  datatype Run = Run(events: seq<Event>, state: State, rest: seq<byte>)

  function Exec(server: Server, st: State, input: seq<byte>): Run
    decreases |input|
  {
    if st.mode != Open then Run([], st, input)
    else match ScanFrame(st.startupDone, input)
      case Incomplete => Run([], st, input)
      case Invalid => Run([], st.(mode := Stuck), input)
      case Whole(frame, length) =>
        var e := Interpret(server, st, frame);
        var later := Exec(server, After(st, e), input[length..]);
        Run([e] + later.events, later.state, later.rest)
  }

  function Output(server: Server, events: seq<Event>): seq<Message> {
    if events == [] then [] else Reply(server, events[0]) + Output(server, events[1..])
  }

  /** The sequential reply function: the messages, and the bytes, that answer
      everything received since the connection was opened. */
  function Replies(server: Server, input: seq<byte>): seq<Message> {
    Output(server, Exec(server, INITIAL, input).events)
  }

  function ReplyBytes(server: Server, input: seq<byte>): seq<byte> {
    EncodeAll(Replies(server, input))
  }

  // ------------------------------------------------------------------ cutting the input anywhere

  lemma ScanMore(startupDone: bool, a: seq<byte>, b: seq<byte>)
    ensures var r := ScanFrame(startupDone, a);
            r != Incomplete ==> ScanFrame(startupDone, a + b) == r
  {
    var h := HeaderSize(startupDone);
    if |a| >= h {
      assert (a + b)[h - 4..h] == a[h - 4..h];
      var size := FrameSize(startupDone, a);
      if h <= size <= |a| {
        assert (a + b)[h..size] == a[h..size];
      }
    }
  }

  /** Wherever the input is cut, running the first part and then the second
      from where the first stopped is running the whole. */
  lemma {:induction false} ExecSplit(server: Server, st: State, a: seq<byte>, b: seq<byte>)
    ensures var first := Exec(server, st, a);
            var second := Exec(server, first.state, first.rest + b);
            Exec(server, st, a + b) == Run(first.events + second.events, second.state, second.rest)
    decreases |a|
  {
    hide ScanFrame, Interpret, After;
    var first := Exec(server, st, a);
    if st.mode == Open {
      ScanMore(st.startupDone, a, b);
      match ScanFrame(st.startupDone, a)
      case Incomplete => assert first.events + Exec(server, st, a + b).events == Exec(server, st, a + b).events;
      case Invalid =>
      case Whole(frame, length) =>
        ScanLength(st.startupDone, a);
        var e := Interpret(server, st, frame);
        assert (a + b)[length..] == a[length..] + b;
        ExecSplit(server, After(st, e), a[length..], b);
    }
  }

  lemma ScanLength(startupDone: bool, s: seq<byte>)
    ensures var r := ScanFrame(startupDone, s);
            r.Whole? ==> 0 < r.length <= |s| && (r.frame.Untagged? ==> |r.frame.payload| >= 4)
  {
  }

  lemma {:induction false} OutputAppend(server: Server, a: seq<Event>, b: seq<Event>)
    ensures Output(server, a + b) == Output(server, a) + Output(server, b)
  {
    hide Reply;
    if a == [] {
      assert a + b == b;
    } else {
      assert (a + b)[0] == a[0] && (a + b)[1..] == a[1..] + b;
      OutputAppend(server, a[1..], b);
    }
  }

  /** More input only adds to the reply. */
  lemma RepliesGrow(server: Server, a: seq<byte>, b: seq<byte>)
    ensures Replies(server, a) <= Replies(server, a + b)
    ensures ReplyBytes(server, a) <= ReplyBytes(server, a + b)
  {
    hide Exec, Output;
    ExecSplit(server, INITIAL, a, b);
    var first := Exec(server, INITIAL, a);
    var second := Exec(server, first.state, first.rest + b);
    OutputAppend(server, first.events, second.events);
    EncodeAllAppend(Output(server, first.events), Output(server, second.events));
  }

  /** The state after a run that stopped in the middle of a frame is one that
      needs more input. */
  lemma {:induction false} ExecStops(server: Server, st: State, input: seq<byte>)
    ensures var r := Exec(server, st, input);
            r.state.mode == Open ==> ScanFrame(r.state.startupDone, r.rest) == Incomplete
    decreases |input|
  {
    hide ScanFrame, Interpret, After;
    if st.mode == Open {
      match ScanFrame(st.startupDone, input)
      case Incomplete =>
      case Invalid =>
      case Whole(frame, length) =>
        ScanLength(st.startupDone, input);
        ExecStops(server, After(st, Interpret(server, st, frame)), input[length..]);
    }
  }

  /** The reader fed one chunk after another, each time going on from where it
      stopped. */
  function Feed(server: Server, st: State, rest: seq<byte>, chunks: seq<seq<byte>>): Run
    decreases |chunks|
  {
    if chunks == [] then Exec(server, st, rest)
    else
      var first := Exec(server, st, rest + chunks[0]);
      var later := Feed(server, first.state, first.rest, chunks[1..]);
      Run(first.events + later.events, later.state, later.rest)
  }

  /** However the input is cut into chunks, the reader delivers what it
      delivers on the whole input: framing never drifts. */
  lemma {:induction false} FeedIsExec(server: Server, st: State, rest: seq<byte>, chunks: seq<seq<byte>>)
    ensures Feed(server, st, rest, chunks) == Exec(server, st, rest + Flatten(chunks))
    decreases |chunks|
  {
    hide Exec;
    if chunks == [] {
      assert rest + Flatten(chunks) == rest;
    } else {
      var first := Exec(server, st, rest + chunks[0]);
      FeedIsExec(server, first.state, first.rest, chunks[1..]);
      ExecSplit(server, st, rest + chunks[0], Flatten(chunks[1..]));
      Regroup(rest, chunks[0], Flatten(chunks[1..]));
    }
  }
}
