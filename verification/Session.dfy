/** The session object: it reads frames off its socket, processes them one by
    one and writes the replies. This is the sequential reading of the promise
    chains; their overlap is the subject of module Steps. */
module Sessions {
  import opened Bytes
  import opened Buffers
  import opened Messages
  import opened Encoders
  import opened Startup
  import opened Writers
  import opened Protocol
  import opened Transcripts
  import opened Sockets
  import Decimal

  datatype FrontendMessage =
    | SslRequestMessage
    | StartupRequestMessage(request: Request)
    | QueryMessage(text: Text)
    | TerminateMessage

  /** What a completed read delivers; an unregistered frame delivers a null
      message. Waiting: the input stopped within a frame. */
  datatype ReadResult = Waiting | Rejection | NullMessage(tag: byte) | Delivered(message: FrontendMessage)

  /** How the promise of process_message settles. */
  datatype Processed = Done | Raised(text: Text, severity: Severity, state: SqlState) | Ended

  function Deliver(frame: Frame): ReadResult
    requires frame.Untagged? ==> |frame.payload| >= 4
  {
    match frame
    case Untagged(payload) =>
      var request := ReadRequest(payload);
      Delivered(if request.SslRequest? then SslRequestMessage else StartupRequestMessage(request))
    case Tagged(tag, body) =>
      if tag == TAG_QUERY then Delivered(QueryMessage(CString(body)))
      else if tag == TAG_TERMINATE then Delivered(TerminateMessage)
      else NullMessage(tag)
  }

  function EventOf(server: Server, queries: seq<Text>, m: FrontendMessage): Event {
    match m
    case SslRequestMessage => SslAsked
    case StartupRequestMessage(request) => Started(request)
    case QueryMessage(text) => Queried(text, server.handler(queries, text))
    case TerminateMessage => Terminated
  }

  lemma InterpretIsDeliver(server: Server, st: State, frame: Frame)
    requires frame.Untagged? ==> |frame.payload| >= 4
    ensures match Deliver(frame)
            case Delivered(m) => Interpret(server, st, frame) == EventOf(server, st.queries, m)
            case NullMessage(tag) => Interpret(server, st, frame) == Dropped(tag)
            case _ => false
  {
  }

  /** What one read must come to, by the one-shot frame recogniser. */
  ghost predicate ReadsAs(startupDone: bool, input: seq<byte>, r: ReadResult, rest: seq<byte>) {
    match ScanFrame(startupDone, input)
    case Incomplete => r == Waiting
    case Invalid => r == Rejection
    case Whole(frame, length) => length <= |input| && rest == input[length..] && r == Deliver(frame)
  }

  lemma ReadFrame(startupDone: bool, input: seq<byte>, length: int)
    requires |input| >= HeaderSize(startupDone)
    requires length == LengthField(startupDone, input) >= MinLength(startupDone)
    ensures var h := HeaderSize(startupDone);
            var size := length - 4;
            if |input[h..]| < size then ScanFrame(startupDone, input) == Incomplete
            else
              var body := input[h..][..size];
              && ScanFrame(startupDone, input)
                 == Whole(if startupDone then Tagged(input[0], body) else Untagged(body), h + size)
              && input[h + size..] == input[h..][size..]
  {
  }

  class Session {
    const server: Server
    const socket: Socket
    var mode: Mode
    var startupDone: bool
    var queries: seq<Text>

    ghost function State(): State
      reads this
    {
      Protocol.State(mode, startupDone, queries)
    }

    /** Writes make progress and do not fail: the failure of a write ends the
        session, and is not part of this model. */
    ghost predicate Reliable() {
      forall k :: socket.plan(k).progress > 0 && !socket.plan(k).failed
    }

    constructor (server: Server, socket: Socket)
      ensures State() == INITIAL && this.server == server && this.socket == socket
    {
      this.server, this.socket := server, socket;
      mode, startupDone, queries := Open, false, [];
    }

    method Write(bytes: seq<byte>)
      requires Reliable()
      modifies socket`sent, socket`attempts
      ensures socket.sent == old(socket.sent) + bytes
    {
      ProgressSettles(socket.plan, socket.attempts, |bytes|);
      var r := socket.AsyncWrite(bytes, |bytes| + 1);
      assert r == Resolved(|bytes|);
    }

    method Send(o: Outgoing)
      requires Reliable()
      modifies socket`sent, socket`attempts
      ensures socket.sent == old(socket.sent) + Encode(o.Message())
    {
      var bytes := EncodeBytes(o);
      Write(bytes);
    }

    // ---------------------------------------------------------------- reading

    /** Reads the length and the payload of an untagged message. Only a
        start-up message that is no SSL request ends the start-up phase. */
    method ReadStartup() returns (r: ReadResult)
      requires !startupDone
      modifies this`startupDone, socket`arriving
      ensures ReadsAs(false, old(socket.Incoming()), r, socket.Incoming())
      ensures startupDone <==> r.Delivered? && r.message.StartupRequestMessage?
      ensures |socket.Incoming()| <= |old(socket.Incoming())|
    {
      hide ReadRequest, Flatten;
      ghost var input := socket.Incoming();
      var complete, header := socket.ReadExact(4);
      if !complete { return Waiting; }
      var buf := new Buffer(header);
      var length := buf.GetNumeric(4, true);
      assert header[..4] == input[0..4] by { assert header == input[..4]; }
      // A length below 4 makes resize throw; below 8 there is no version to read.
      if length < 8 { return Rejection; }
      ReadFrame(false, input, length);
      var payload;
      complete, payload := socket.ReadExact(length - 4);
      if !complete { return Waiting; }
      buf := new Buffer(payload);
      var message := new StartupMessage();
      assert buf.Unread() == payload;
      message.Decode(buf);
      if !message.isSslRequest {
        startupDone := true;
      }
      r := Delivered(if message.isSslRequest then SslRequestMessage else StartupRequestMessage(message.Value()));
    }

    /** Reads one frame: exactly its 4 + size or 5 + size bytes. */
    method Read() returns (r: ReadResult)
      modifies this`startupDone, socket`arriving
      ensures ReadsAs(old(startupDone), old(socket.Incoming()), r, socket.Incoming())
      ensures startupDone <==> old(startupDone) || (r.Delivered? && r.message.StartupRequestMessage?)
      ensures |socket.Incoming()| <= |old(socket.Incoming())|
    {
      hide ReadsAs, Flatten;
      if !startupDone {
        r := ReadStartup();
      } else {
        r := ReadTagged();
      }
    }

    method ReadTagged() returns (r: ReadResult)
      requires startupDone
      modifies socket`arriving
      ensures ReadsAs(true, old(socket.Incoming()), r, socket.Incoming())
      ensures |socket.Incoming()| <= |old(socket.Incoming())|
    {
      hide CString, Flatten;
      ghost var input := socket.Incoming();
      var complete, header := socket.ReadExact(5);
      if !complete { return Waiting; }
      var buf := new Buffer(header);
      assert buf.Unread() == header;
      var tag := buf.GetNumeric(1, false);
      assert tag == header[0] by { OneByte(header[..1]); }
      var length := buf.GetNumeric(4, true);
      assert header[1..][..4] == input[1..5] by { assert header == input[..5]; }
      if length < 4 { return Rejection; }
      ReadFrame(true, input, length);
      var body;
      complete, body := socket.ReadExact(length - 4);
      if !complete { return Waiting; }
      r := Decode(tag, body);
    }

    /** The registry of tagged messages, and their decoders. */
    method Decode(tag: byte, body: seq<byte>) returns (r: ReadResult)
      ensures r == Deliver(Tagged(tag, body))
    {
      hide CString;
      if tag == TAG_QUERY {
        var buf := new Buffer(body);
        assert buf.Unread() == body;
        var text := buf.GetString();
        r := Delivered(QueryMessage(text));
      } else if tag == TAG_TERMINATE {
        r := Delivered(TerminateMessage);
      } else {
        r := NullMessage(tag);
      }
    }

    // ---------------------------------------------------------------- processing

    /** The execution handler of a prepared statement, with its row objects. */
    method FillRows(writer: Writer, rows: seq<Row>)
      requires writer.Valid() && writer.closed == [] && writer.open == {}
      modifies writer, writer.data
      ensures writer.Valid() && writer.closed == rows && writer.open == {}
    {
      hide Writer.Valid, RowWriter.Valid;
      var i := 0;
      while i < |rows|
        invariant 0 <= i <= |rows|
        invariant writer.Valid() && writer.closed == rows[..i] && writer.open == {}
      {
        var row := writer.AddRow();
        FillCells(row, rows[i]);
        row.Close();
        assert rows[..i + 1] == rows[..i] + [rows[i]];
        i := i + 1;
      }
      assert rows[..|rows|] == rows;
    }

    method FillCells(row: RowWriter, cells: Row)
      requires row.Valid() && row.cells == []
      modifies row`currentCol, row`cells, row.row`data
      ensures row.Valid() && row.cells == cells
    {
      hide RowWriter.Valid;
      var j := 0;
      while j < |cells|
        invariant 0 <= j <= |cells|
        invariant row.Valid() && row.cells == cells[..j]
      {
        match cells[j] {
          case Null => row.WriteNull();
          case Data(bytes) => row.WriteValue(bytes);
        }
        assert cells[..j + 1] == cells[..j] + [cells[j]];
        j := j + 1;
      }
      assert cells[..|cells|] == cells;
    }

    method SendStatus()
      requires Reliable()
      modifies socket`sent, socket`attempts
      ensures socket.sent == old(socket.sent) + EncodeAll(StatusMessages(server.status))
    {
      hide Encode;
      ghost var ms := StatusMessages(server.status);
      var i := 0;
      assert ms[..0] == [];
      while i < |server.status|
        invariant 0 <= i <= |server.status|
        invariant socket.sent == old(socket.sent) + EncodeAll(ms[..i])
      {
        Send(Parameter(server.status[i].0, server.status[i].1));
        assert ms[..i + 1] == ms[..i] + [ms[i]];
        EncodeAllAppend(ms[..i], [ms[i]]);
        EncodeAllOne(ms[i]);
        Regroup(old(socket.sent), EncodeAll(ms[..i]), Encode(ms[i]));
        i := i + 1;
      }
      assert ms[..|server.status|] == ms;
    }

    method SendResult(fields: seq<Field>, rows: seq<Row>)
      requires Reliable()
      modifies socket`sent, socket`attempts
      ensures socket.sent == old(socket.sent) + EncodeAll(ResultSet(fields, rows))
    {
      hide Encode, EncodeAll, SelectTag, Writer.Valid, ResultSet, Decimal.Print;
      Send(Rows(fields, TextFormat));
      var writer := new Writer(|fields|, TextFormat);
      FillRows(writer, rows);
      var b := new Buffer([]);
      writer.Encode(b);
      var bytes := b.TakeBytes();
      Write(bytes);
      RowCount(writer);
      Send(Complete(Ascii("SELECT ") + Decimal.Print(writer.numRows)));
      Send(Ready(Idle));
      ResultBytes(old(socket.sent), fields, rows);
    }

    lemma RowCount(writer: Writer)
      requires writer.Valid() && writer.open == {}
      ensures Ascii("SELECT ") + Decimal.Print(writer.numRows) == SelectTag(|writer.closed|)
    {
    }

    /** Replies to one message. */
    method ProcessMessage(m: FrontendMessage) returns (p: Processed)
      requires Reliable()
      modifies this`queries, socket`sent, socket`attempts
      ensures var e := EventOf(server, old(queries), m);
              && queries == (if m.QueryMessage? then old(queries) + [m.text] else old(queries))
              && match e
                 case Queried(_, ParseFailure(text, severity, state)) =>
                   p == Raised(text, severity, state) && socket.sent == old(socket.sent)
                 case Terminated => p == Ended && socket.sent == old(socket.sent)
                 case _ => p == Done && socket.sent == old(socket.sent) + EncodeAll(Reply(server, e))
    {
      hide Encode, Reply, SelectTag, Description;
      ghost var before := socket.sent;
      ghost var e := EventOf(server, queries, m);
      match m
      case SslRequestMessage =>
        Write(['N' as int]);
        SslBytes(server, e);
        p := Done;
      case StartupRequestMessage(_) =>
        Send(Authenticated);
        SendStatus();
        Send(Ready(Idle));
        StartupBytes(before, server, e);
        p := Done;
      case QueryMessage(text) =>
        var outcome := server.handler(queries, text);
        queries := queries + [text];
        match outcome {
          case ParseFailure(t, severity, state) => p := Raised(t, severity, state);
          case ExecFailure(fields) =>
            // The rejection is consumed: neither an error nor ReadyForQuery is sent.
            Send(Rows(fields, TextFormat));
            BareBytes(server, e);
            p := Done;
          case Success(fields, rows) =>
            SendResult(fields, rows);
            SuccessReply(server, e);
            p := Done;
        }
      case TerminateMessage => p := Ended;
    }

    // ---------------------------------------------------------------- the read loop

    /** The whole session: reads, and re-arms, until the input stops or the
        session ends. However the input is cut into chunks and the output into
        transfers, the bytes sent are the sequential reply to the input. */
    method Run()
      requires Reliable()
      modifies this, socket
      ensures var r := Exec(server, old(State()), old(socket.Incoming()));
              State() == r.state && socket.sent == old(socket.sent) + EncodeAll(Output(server, r.events))
      decreases |socket.Incoming()|
    {
      hide Exec, ScanFrame, Encode, Output, Reply, ReadsAs, EncodeAll, ReadRequest, Flatten, SelectTag, Description;
      ghost var st, input, before := State(), socket.Incoming(), socket.sent;
      if mode != Open {
        NothingRun(server, st, input, before);
        return;
      }
      var r := Read();
      match r
      case Waiting =>
        RunStops(server, st, input, r, socket.Incoming(), before);
      case Rejection =>
        RunStops(server, st, input, r, socket.Incoming(), before);
        mode := Stuck;
      case NullMessage(tag) =>
        RunGoesOn(server, st, input, r, socket.Incoming(), before);
        Run();
      case Delivered(message) =>
        RunGoesOn(server, st, input, r, socket.Incoming(), before);
        var p := ProcessMessage(message);
        match p {
          case Done =>
          case Ended => mode := Closed;
          case Raised(text, severity, state) =>
            if severity == Fatal {
              mode := Closed;
            } else {
              Send(Failure(text, severity, state));
              Send(Ready(Idle));
              ErrorBytes(before, server, EventOf(server, st.queries, message));
            }
        }
        SilentBytes(before, server, EventOf(server, st.queries, message));
        Run();
    }
  }

  // ------------------------------------------------------------------ bytes of replies

  lemma OneByte(s: seq<byte>)
    requires |s| == 1
    ensures Unsigned(s) == s[0]
  {
    assert s[..0] == [];
  }

  lemma SslBytes(server: Server, e: Event)
    requires e.SslAsked?
    ensures EncodeAll(Reply(server, e)) == ['N' as int]
  {
    Transcripts.FlattenOne(SslRefused);
    EncodeAllOne(SslRefused);
  }

  lemma BareBytes(server: Server, e: Event)
    requires e.Queried? && e.outcome.ExecFailure?
    ensures EncodeAll(Reply(server, e)) == Encode(RowDescription(DescribeAll(e.outcome.fields, TextFormat)))
  {
    hide Encode;
    Transcripts.FlattenOne(Description(e.outcome.fields));
    EncodeAllOne(Description(e.outcome.fields));
  }

  lemma StartupBytes(before: seq<byte>, server: Server, e: Event)
    requires e.Started?
    ensures before + Encode(AuthenticationOk) + EncodeAll(StatusMessages(server.status)) + Encode(ReadyForQuery(Idle))
            == before + EncodeAll(Reply(server, e))
  {
    hide Encode, EncodeAll, StatusMessages;
    StartupReply(server, e);
    var a, s, z := [AuthenticationOk], StatusMessages(server.status), [ReadyForQuery(Idle)];
    EncodeAllAppend(a + s, z);
    EncodeAllAppend(a, s);
    EncodeAllOne(AuthenticationOk);
    EncodeAllOne(ReadyForQuery(Idle));
    Regroup(before, EncodeAll(a), EncodeAll(s));
    Regroup(before, EncodeAll(a) + EncodeAll(s), EncodeAll(z));
  }

  lemma ResultBytes(before: seq<byte>, fields: seq<Field>, rows: seq<Row>)
    ensures before + Encode(RowDescription(DescribeAll(fields, TextFormat))) + EncodeAll(AsMessages(rows))
            + Encode(CommandComplete(SelectTag(|rows|))) + Encode(ReadyForQuery(Idle))
            == before + EncodeAll(ResultSet(fields, rows))
  {
    hide Encode, EncodeAll, AsMessages, SelectTag;
    var d, m := [Description(fields)], AsMessages(rows);
    var c, z := [CommandComplete(SelectTag(|rows|))], [ReadyForQuery(Idle)];
    assert ResultSet(fields, rows) == d + m + c + z;
    EncodeAllAppend(d + m + c, z);
    EncodeAllAppend(d + m, c);
    EncodeAllAppend(d, m);
    EncodeAllOne(Description(fields));
    EncodeAllOne(CommandComplete(SelectTag(|rows|)));
    EncodeAllOne(ReadyForQuery(Idle));
    Regroup(before, EncodeAll(d), EncodeAll(m));
    Regroup(before, EncodeAll(d) + EncodeAll(m), EncodeAll(c));
    Regroup(before, EncodeAll(d) + EncodeAll(m) + EncodeAll(c), EncodeAll(z));
  }

  lemma ErrorBytes(before: seq<byte>, server: Server, e: Event)
    requires Detached(e)
    ensures before + Encode(ErrorResponse(e.outcome.text, e.outcome.severity, e.outcome.state)) + Encode(ReadyForQuery(Idle))
            == before + EncodeAll(Reply(server, e))
  {
    hide Encode, EncodeAll;
    ErrorReply(server, e);
    var m, z := ErrorResponse(e.outcome.text, e.outcome.severity, e.outcome.state), ReadyForQuery(Idle);
    assert [m, z] == [m] + [z];
    EncodeAllAppend([m], [z]);
    EncodeAllOne(m);
    EncodeAllOne(z);
    Regroup(before, Encode(m), Encode(z));
  }

  /** Terminate and a Fatal error are not answered. */
  lemma SilentBytes(before: seq<byte>, server: Server, e: Event)
    ensures e.Terminated? || (e.Queried? && e.outcome.ParseFailure? && e.outcome.severity == Fatal) ==>
              before + EncodeAll(Reply(server, e)) == before
  {
    hide Encode;
    if e.Queried? && e.outcome.ParseFailure? {
      ErrorReply(server, e);
    }
  }

  // ------------------------------------------------------------------ one turn of the loop

  lemma NothingRun(server: Server, st: State, input: seq<byte>, before: seq<byte>)
    requires st.mode != Open
    ensures var r := Exec(server, st, input);
            r.state == st && before == before + EncodeAll(Output(server, r.events))
  {
  }

  lemma RunStops(server: Server, st: State, input: seq<byte>, r: ReadResult, rest: seq<byte>, before: seq<byte>)
    requires st.mode == Open && ReadsAs(st.startupDone, input, r, rest) && (r.Waiting? || r.Rejection?)
    ensures var run := Exec(server, st, input);
            && run.state == (if r.Waiting? then st else st.(mode := Stuck))
            && before == before + EncodeAll(Output(server, run.events))
  {
    hide ScanFrame, ReadRequest;
  }

  /** After a delivered frame the rest of the run is the run on the rest. */
  lemma RunGoesOn(server: Server, st: State, input: seq<byte>, r: ReadResult, rest: seq<byte>, before: seq<byte>)
    requires st.mode == Open && ReadsAs(st.startupDone, input, r, rest) && (r.NullMessage? || r.Delivered?)
    ensures |rest| < |input|
    ensures var e := if r.NullMessage? then Dropped(r.tag) else EventOf(server, st.queries, r.message);
            var run, later := Exec(server, st, input), Exec(server, After(st, e), rest);
            && run.state == later.state
            && before + EncodeAll(Output(server, run.events))
               == before + EncodeAll(Reply(server, e)) + EncodeAll(Output(server, later.events))
            && (r.NullMessage? ==> before + EncodeAll(Reply(server, e)) == before && After(st, e) == st)
  {
    hide ScanFrame, EncodeAll, After, Interpret, Reply;
    ScanLength(st.startupDone, input);
    match ScanFrame(st.startupDone, input)
    case Whole(frame, length) =>
      InterpretIsDeliver(server, st, frame);
      var e := Interpret(server, st, frame);
      var later := Exec(server, After(st, e), rest);
      assert ([e] + later.events)[1..] == later.events;
      EncodeAllAppend(Reply(server, e), Output(server, later.events));
      Regroup(before, EncodeAll(Reply(server, e)), EncodeAll(Output(server, later.events)));
      DroppedBytes(server, st, e);
  }

  lemma DroppedBytes(server: Server, st: State, e: Event)
    ensures e.Dropped? ==> EncodeAll(Reply(server, e)) == [] && After(st, e) == st
  {
  }
}
