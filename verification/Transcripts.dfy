/** What a client can rely on in a whole session: the grammar of the reply
    stream, its accounts, and what leaves it unchanged. */
module Transcripts {
  import opened Bytes
  import opened Messages
  import opened Encoders
  import opened Writers
  import opened Protocol
  import opened Decoding
  import Decimal

  // ------------------------------------------------------------------ servers whose messages fit the wire

  const STATUS_TABLE: seq<(Text, Text)> := [
    (Ascii("server_version"), Ascii("14")), (Ascii("server_encoding"), Ascii("UTF-8")),
    (Ascii("client_encoding"), Ascii("UTF-8")), (Ascii("DateStyle"), Ascii("ISO")),
    (Ascii("TimeZone"), Ascii("UTC"))]

  /** An unordered map is iterated in some order. */
  ghost predicate IsStatusOrder(status: seq<(Text, Text)>) {
    multiset(status) == multiset(STATUS_TABLE)
  }

  ghost predicate OutcomeFits(o: Outcome) {
    match o
    case ParseFailure(text, severity, state) => Fits(ErrorResponse(text, severity, state))
    case ExecFailure(fields) => Fits(Description(fields))
    case Success(fields, rows) =>
      && Fits(Description(fields)) && |rows| < Pow256(8)
      && forall i :: 0 <= i < |rows| ==> Fits(DataRow(rows[i])) && |rows[i]| == |fields|
  }

  ghost predicate WellBehaved(server: Server) {
    && IsStatusOrder(server.status)
    && forall past: seq<Text>, text: Text {:trigger server.handler(past, text)} :: OutcomeFits(server.handler(past, text))
  }

  lemma StatusFits(status: seq<(Text, Text)>)
    requires IsStatusOrder(status)
    ensures |status| == 5 && AllFit(StatusMessages(status))
  {
    TableFits();
    assert |status| == |multiset(status)| == |multiset(STATUS_TABLE)| == 5;
    forall i | 0 <= i < |status| ensures Fits(StatusMessages(status)[i]) {
      assert status[i] in multiset(status);
      assert status[i] in STATUS_TABLE;
    }
  }

  lemma TableFits()
    ensures forall p :: p in STATUS_TABLE ==> Fits(ParameterStatus(p.0, p.1))
  {
    forall i | 0 <= i < 5 ensures Fits(ParameterStatus(STATUS_TABLE[i].0, STATUS_TABLE[i].1)) {
      ShortPairFits(STATUS_TABLE[i].0, STATUS_TABLE[i].1);
    }
  }

  lemma ShortPairFits(name: Text, setting: Text)
    requires NulFree(name) && NulFree(setting) && |name| < 100 && |setting| < 100
    ensures Fits(ParameterStatus(name, setting))
  {
  }

  lemma SelectTagFits(n: nat)
    requires n < Pow256(8)
    ensures Fits(CommandComplete(SelectTag(n)))
  {
    hide Decimal.Print;
    Decimal.PrintLength(n);
  }

  lemma ReplyFits(server: Server, st: State, frame: Frame)
    requires WellBehaved(server) && (frame.Untagged? ==> |frame.payload| >= 4)
    ensures AllFit(Reply(server, Interpret(server, st, frame)))
  {
    hide Fits, Reply, OutcomeFits;
    var e := Interpret(server, st, frame);
    if e.Queried? {
      assert OutcomeFits(e.outcome) by {
        assert e.outcome == server.handler(st.queries, e.text);
      }
      OutcomeReplyFits(server, e);
    } else {
      OtherReplyFits(server, e);
    }
  }

  lemma OtherReplyFits(server: Server, e: Event)
    requires IsStatusOrder(server.status) && !e.Queried?
    ensures AllFit(Reply(server, e))
  {
    hide Fits, StatusMessages;
    SimpleFits();
    match e
    case SslAsked => FlattenOne(SslRefused);
    case Started(_) =>
      StatusFits(server.status);
      StartupReply(server, e);
    case Terminated =>
    case Dropped(_) =>
  }

  lemma OutcomeReplyFits(server: Server, e: Event)
    requires e.Queried? && OutcomeFits(e.outcome)
    ensures AllFit(Reply(server, e))
  {
    hide Fits, Description, SelectTag, AsMessages, Reply;
    SimpleFits();
    match e.outcome
    case ParseFailure(_, _, _) => ErrorReply(server, e);
    case ExecFailure(fields) => BareReply(server, e);
    case Success(fields, rows) =>
      SuccessReply(server, e);
      ResultSetFits(fields, rows);
  }

  lemma BareReply(server: Server, e: Event)
    requires e.Queried? && e.outcome.ExecFailure?
    ensures Reply(server, e) == [Description(e.outcome.fields)]
  {
    hide Description;
    FlattenOne(Description(e.outcome.fields));
  }

  lemma SimpleFits()
    ensures Fits(SslRefused) && Fits(AuthenticationOk) && Fits(ReadyForQuery(Idle))
  {
  }

  lemma FlattenOne(a: Message)
    ensures Flatten([[a]]) == [a]
  {
    assert [[a]][1..] == [];
    assert Flatten<Message>([]) == [];
  }

  lemma {:induction false} FlattenEach<T>(xs: seq<T>)
    ensures Flatten(Each(xs)) == xs
  {
    if xs != [] {
      FlattenEach(xs[1..]);
      assert Each(xs)[1..] == Each(xs[1..]);
    }
  }

  function StartupBlock(status: seq<(Text, Text)>): seq<Message> {
    [AuthenticationOk] + StatusMessages(status) + [ReadyForQuery(Idle)]
  }

  function ResultSet(fields: seq<Field>, rows: seq<Row>): seq<Message> {
    [Description(fields)] + AsMessages(rows) + [CommandComplete(SelectTag(|rows|)), ReadyForQuery(Idle)]
  }

  lemma StartupReply(server: Server, e: Event)
    requires e.Started?
    ensures Reply(server, e) == StartupBlock(server.status)
  {
    hide StatusMessages;
    var s := Each(StatusMessages(server.status));
    FlattenEach(StatusMessages(server.status));
    FlattenOne(AuthenticationOk);
    FlattenOne(ReadyForQuery(Idle));
    FlattenAppend([[AuthenticationOk]] + s, [[ReadyForQuery(Idle)]]);
    FlattenAppend([[AuthenticationOk]], s);
  }

  lemma ErrorReply(server: Server, e: Event)
    requires e.Queried? && e.outcome.ParseFailure?
    ensures Reply(server, e) == if e.outcome.severity == Fatal then []
              else [ErrorResponse(e.outcome.text, e.outcome.severity, e.outcome.state), ReadyForQuery(Idle)]
  {
    var m := ErrorResponse(e.outcome.text, e.outcome.severity, e.outcome.state);
    FlattenOne(m);
    FlattenOne(ReadyForQuery(Idle));
    FlattenAppend([[m]], [[ReadyForQuery(Idle)]]);
  }

  lemma SuccessReply(server: Server, e: Event)
    requires e.Queried? && e.outcome.Success?
    ensures Reply(server, e) == ResultSet(e.outcome.fields, e.outcome.rows)
  {
    hide Description, SelectTag, AsMessages;
    var d := Description(e.outcome.fields);
    var rows := AsMessages(e.outcome.rows);
    var c := CommandComplete(SelectTag(|e.outcome.rows|));
    var z := ReadyForQuery(Idle);
    FlattenOne(z);
    FlattenOne(c);
    FlattenOne(d);
    assert Flatten([rows]) == rows by {
      assert [rows][1..] == [];
      assert rows + [] == rows;
    }
    FlattenAppend([[d]] + [rows] + [[c]], [[z]]);
    FlattenAppend([[d]] + [rows], [[c]]);
    FlattenAppend([[d]], [rows]);
    assert [[d]] + [rows] + [[c]] + [[z]] == [[d], rows, [c], [z]];
  }

  lemma ResultSetFits(fields: seq<Field>, rows: seq<Row>)
    requires OutcomeFits(Success(fields, rows))
    ensures AllFit(ResultSet(fields, rows))
  {
    hide Fits, Description, SelectTag;
    SelectTagFits(|rows|);
    SimpleFits();
    var ms := ResultSet(fields, rows);
    forall i | 0 <= i < |ms| ensures Fits(ms[i]) {
      if 1 <= i <= |rows| {
        assert ms[i] == DataRow(rows[i - 1]);
      }
    }
  }

  // ------------------------------------------------------------------ the grammar

  function LeadingRows(ms: seq<Message>): (n: nat)
    ensures n <= |ms|
  {
    if ms == [] || !ms[0].DataRow? then 0 else 1 + LeadingRows(ms[1..])
  }

  /** The number of rows that a command tag announces. */
  function AnnouncedRows(tag: Text): Option<int> {
    if Ascii("SELECT ") <= tag then Decimal.Parse(tag[7..]) else None
  }

  /** What follows the start-up block: reply after reply, each an error, a
      complete result set, or the bare description that an execution failure
      leaves. A result set announces exactly the rows it holds, and each row
      has one cell per described column. */
  ghost predicate IsReplies(ms: seq<Message>)
    decreases |ms|
  {
    ms == []
    || (ms[0].ErrorResponse? && |ms| >= 2 && ms[1] == ReadyForQuery(Idle) && IsReplies(ms[2..]))
    || (ms[0].RowDescription? &&
        var n := LeadingRows(ms[1..]);
        if n == 0 && (|ms| == 1 || !ms[1].CommandComplete?) then IsReplies(ms[1..])
        else
          && |ms| >= n + 3
          && (forall i :: 1 <= i <= n ==> ms[i].DataRow? && |ms[i].cells| == |ms[0].columns|)
          && ms[n + 1].CommandComplete? && AnnouncedRows(ms[n + 1].commandTag) == Some(n)
          && ms[n + 2] == ReadyForQuery(Idle) && IsReplies(ms[n + 3..]))
  }

  /** AuthenticationOk, one ParameterStatus for each entry of server_status under
      its name, and ReadyForQuery. */
  ghost predicate StartsUp(status: seq<(Text, Text)>, ms: seq<Message>) {
    && |ms| >= |status| + 2 && ms[0] == AuthenticationOk
    && (forall i :: 0 <= i < |status| ==> ms[i + 1] == ParameterStatus(status[i].0, status[i].1))
    && ms[|status| + 1] == ReadyForQuery(Idle)
  }

  /** k refusals of SSL; then the start-up block and replies once the start-up
      is done, and nothing before. */
  ghost predicate IsTranscript(status: seq<(Text, Text)>, k: nat, done: bool, ms: seq<Message>) {
    if k > 0 then ms != [] && ms[0] == SslRefused && IsTranscript(status, k - 1, done, ms[1..])
    else if done then StartsUp(status, ms) && IsReplies(ms[|status| + 2..])
    else ms == []
  }

  lemma RepliesBegin(ms: seq<Message>)
    requires IsReplies(ms) && ms != []
    ensures ms[0].ErrorResponse? || ms[0].RowDescription?
  {
  }

  lemma SelectTagAnnounces(n: nat)
    ensures AnnouncedRows(SelectTag(n)) == Some(n)
  {
    hide Decimal.Print, Decimal.Parse;
    Decimal.ParsePrint(n);
    assert SelectTag(n)[7..] == Decimal.Print(n);
  }

  lemma {:induction false} LeadingRowsOf(rows: seq<Row>, rest: seq<Message>)
    requires rest != [] && !rest[0].DataRow?
    ensures LeadingRows(AsMessages(rows) + rest) == |rows|
  {
    if rows == [] {
      assert AsMessages(rows) + rest == rest;
    } else {
      assert (AsMessages(rows) + rest)[1..] == AsMessages(rows[1..]) + rest;
      LeadingRowsOf(rows[1..], rest);
    }
  }

  lemma ErrorThenReplies(m: Message, rest: seq<Message>)
    requires m.ErrorResponse? && IsReplies(rest)
    ensures IsReplies([m, ReadyForQuery(Idle)] + rest)
  {
    assert ([m, ReadyForQuery(Idle)] + rest)[2..] == rest;
  }

  lemma BareThenReplies(m: Message, rest: seq<Message>)
    requires m.RowDescription? && IsReplies(rest)
    ensures IsReplies([m] + rest)
  {
    assert ([m] + rest)[1..] == rest;
    if rest != [] {
      RepliesBegin(rest);
    }
  }

  lemma ResultSetThenReplies(fields: seq<Field>, rows: seq<Row>, rest: seq<Message>)
    requires IsReplies(rest) && forall i :: 0 <= i < |rows| ==> |rows[i]| == |fields|
    ensures IsReplies(ResultSet(fields, rows) + rest)
  {
    hide IsReplies, SelectTag, AnnouncedRows;
    SelectTagAnnounces(|rows|);
    var end := [CommandComplete(SelectTag(|rows|)), ReadyForQuery(Idle)] + rest;
    var ms := ResultSet(fields, rows) + rest;
    assert ms[1..] == AsMessages(rows) + end;
    LeadingRowsOf(rows, end);
    ResultSetForm(ms, |rows|, rest);
  }

  lemma ResultSetForm(ms: seq<Message>, n: nat, rest: seq<Message>)
    requires |ms| >= n + 3 && ms[0].RowDescription? && LeadingRows(ms[1..]) == n
    requires forall i :: 1 <= i <= n ==> ms[i].DataRow? && |ms[i].cells| == |ms[0].columns|
    requires ms[n + 1].CommandComplete? && AnnouncedRows(ms[n + 1].commandTag) == Some(n)
    requires ms[n + 2] == ReadyForQuery(Idle) && ms[n + 3..] == rest && IsReplies(rest)
    ensures IsReplies(ms)
  {
    hide AnnouncedRows, LeadingRows;
  }

  lemma EventThenReplies(server: Server, st: State, frame: Frame, rest: seq<Message>)
    requires WellBehaved(server) && frame.Tagged? && IsReplies(rest)
    ensures IsReplies(Reply(server, Interpret(server, st, frame)) + rest)
  {
    hide IsReplies, Fits;
    var e := Interpret(server, st, frame);
    match e
    case Queried(text, outcome) =>
      assert OutcomeFits(outcome) by {
        assert outcome == server.handler(st.queries, text);
      }
      match outcome {
        case ParseFailure(t, severity, state) =>
          ErrorReply(server, e);
          if severity == Fatal {
            assert [] + rest == rest;
          } else {
            ErrorThenReplies(ErrorResponse(t, severity, state), rest);
          }
        case ExecFailure(fields) =>
          BareReply(server, e);
          BareThenReplies(Description(fields), rest);
        case Success(fields, rows) =>
          SuccessReply(server, e);
          ResultSetThenReplies(fields, rows, rest);
      }
    case Terminated => assert [] + rest == rest;
    case Dropped(_) => assert [] + rest == rest;
  }

  lemma {:induction false} AfterStartup(server: Server, st: State, input: seq<byte>)
    requires WellBehaved(server) && st.startupDone
    ensures IsReplies(Output(server, Exec(server, st, input).events))
    decreases |input|
  {
    hide ScanFrame, Interpret, IsReplies, Reply, WellBehaved;
    EmptyReplies();
    if st.mode == Open {
      match ScanFrame(true, input)
      case Incomplete =>
      case Invalid =>
      case Whole(frame, length) =>
        ScanLength(true, input);
        FrameKind(true, input);
        var e := Interpret(server, st, frame);
        StaysStarted(server, st, frame);
        AfterStartup(server, After(st, e), input[length..]);
        var later := Exec(server, After(st, e), input[length..]).events;
        assert ([e] + later)[1..] == later;
        EventThenReplies(server, st, frame, Output(server, later));
    }
  }

  lemma EmptyReplies()
    ensures IsReplies([])
  {
  }

  lemma FrameKind(startupDone: bool, s: seq<byte>)
    ensures var r := ScanFrame(startupDone, s); r.Whole? ==> (r.frame.Tagged? <==> startupDone)
  {
  }

  lemma StaysStarted(server: Server, st: State, frame: Frame)
    requires frame.Untagged? ==> |frame.payload| >= 4
    ensures st.startupDone ==> After(st, Interpret(server, st, frame)).startupDone
  {
  }

  function CountSsl(events: seq<Event>): nat {
    if events == [] then 0 else CountSsl(events[1..]) + if events[0].SslAsked? then 1 else 0
  }

  /** Every sequential run: its messages are one SslRefused per SSL request,
      then the start-up block, then replies. */
  lemma {:induction false} TranscriptOf(server: Server, st: State, input: seq<byte>)
    requires WellBehaved(server) && !st.startupDone
    ensures var r := Exec(server, st, input);
            IsTranscript(server.status, CountSsl(r.events), r.state.startupDone, Output(server, r.events))
    decreases |input|
  {
    hide ScanFrame, IsReplies, IsTranscript, Reply, WellBehaved, Interpret;
    NoTranscript(server.status);
    if st.mode == Open {
      match ScanFrame(false, input)
      case Incomplete =>
      case Invalid =>
      case Whole(frame, length) =>
        ScanLength(false, input);
        FrameKind(false, input);
        var e := Interpret(server, st, frame);
        UntaggedEvent(server, st, frame);
        var later := Exec(server, After(st, e), input[length..]).events;
        assert ([e] + later)[1..] == later;
        var rest := Output(server, later);
        if e.SslAsked? {
          TranscriptOf(server, After(st, e), input[length..]);
          RefusalThenTranscript(server, e, CountSsl(later), Exec(server, st, input).state.startupDone, rest);
        } else {
          AfterStartup(server, After(st, e), input[length..]);
          NoSslAfterStartup(server, After(st, e), input[length..]);
          StaysDone(server, After(st, e), input[length..]);
          StartupThenReplies(server, e, rest);
        }
    }
  }

  lemma NoTranscript(status: seq<(Text, Text)>)
    ensures IsTranscript(status, 0, false, [])
  {
  }

  lemma UntaggedEvent(server: Server, st: State, frame: Frame)
    requires frame.Untagged? && |frame.payload| >= 4
    ensures var e := Interpret(server, st, frame); e.SslAsked? || e.Started?
  {
  }

  lemma RefusalThenTranscript(server: Server, e: Event, k: nat, done: bool, rest: seq<Message>)
    requires e.SslAsked? && IsTranscript(server.status, k, done, rest)
    ensures IsTranscript(server.status, k + 1, done, Reply(server, e) + rest)
  {
    FlattenOne(SslRefused);
    assert ([SslRefused] + rest)[1..] == rest;
  }

  lemma StartupThenReplies(server: Server, e: Event, rest: seq<Message>)
    requires e.Started? && IsReplies(rest)
    ensures IsTranscript(server.status, 0, true, Reply(server, e) + rest)
  {
    hide IsReplies;
    StartupReply(server, e);
    var block := StartupBlock(server.status);
    assert |block| == |server.status| + 2;
    assert (block + rest)[|server.status| + 2..] == rest;
    assert forall i :: 0 <= i < |server.status| ==> block[i + 1] == StatusMessages(server.status)[i];
  }

  lemma {:induction false} StaysDone(server: Server, st: State, input: seq<byte>)
    requires st.startupDone
    ensures Exec(server, st, input).state.startupDone
    decreases |input|
  {
    hide ScanFrame, Interpret;
    if st.mode == Open {
      match ScanFrame(true, input)
      case Incomplete =>
      case Invalid =>
      case Whole(frame, length) =>
        ScanLength(true, input);
        StaysDone(server, After(st, Interpret(server, st, frame)), input[length..]);
    }
  }

  lemma {:induction false} NoSslAfterStartup(server: Server, st: State, input: seq<byte>)
    requires st.startupDone
    ensures CountSsl(Exec(server, st, input).events) == 0
    decreases |input|
  {
    hide ScanFrame;
    if st.mode == Open {
      match ScanFrame(true, input)
      case Incomplete =>
      case Invalid =>
      case Whole(frame, length) =>
        ScanLength(true, input);
        FrameKind(true, input);
        var e := Interpret(server, st, frame);
        var later := Exec(server, After(st, e), input[length..]).events;
        assert ([e] + later)[1..] == later;
        NoSslAfterStartup(server, After(st, e), input[length..]);
    }
  }

  lemma {:induction false} OutputFits(server: Server, st: State, input: seq<byte>)
    requires WellBehaved(server)
    ensures AllFit(Output(server, Exec(server, st, input).events))
    decreases |input|
  {
    hide ScanFrame, Interpret, Fits, Reply, After, WellBehaved;
    if st.mode == Open {
      match ScanFrame(st.startupDone, input)
      case Incomplete =>
      case Invalid =>
      case Whole(frame, length) =>
        ScanLength(st.startupDone, input);
        var e := Interpret(server, st, frame);
        var later := Exec(server, After(st, e), input[length..]).events;
        assert ([e] + later)[1..] == later;
        OutputFits(server, After(st, e), input[length..]);
        ReplyFits(server, st, frame);
    }
  }

  /** The bytes of every sequential run decode, with nothing left over, to a
      sentence of the grammar: and to no other list of messages. */
  lemma BytesDecodeToTranscript(server: Server, input: seq<byte>)
    requires WellBehaved(server)
    ensures DecodeAll(ReplyBytes(server, input)) == (Replies(server, input), [])
    ensures var r := Exec(server, INITIAL, input);
            IsTranscript(server.status, CountSsl(r.events), r.state.startupDone, Replies(server, input))
    ensures forall ms :: AllFit(ms) && EncodeAll(ms) == ReplyBytes(server, input) ==> ms == Replies(server, input)
  {
    hide Fits, DecodeAll, EncodeAll, Exec, IsTranscript, WellBehaved;
    OutputFits(server, INITIAL, input);
    TranscriptOf(server, INITIAL, input);
    StreamRoundTrip(Replies(server, input));
    forall ms | AllFit(ms) && EncodeAll(ms) == ReplyBytes(server, input) ensures ms == Replies(server, input) {
      EncodeAllInjective(ms, Replies(server, input));
    }
  }

  // ------------------------------------------------------------------ what a client finds

  lemma {:induction false} AfterRefusals(status: seq<(Text, Text)>, k: nat, ms: seq<Message>)
    requires IsTranscript(status, k, true, ms)
    ensures |ms| >= k && StartsUp(status, ms[k..]) && forall i :: 0 <= i < k ==> ms[i] == SslRefused
    decreases k
  {
    hide StartsUp, IsReplies;
    if k > 0 {
      AfterRefusals(status, k - 1, ms[1..]);
      assert ms[1..][k - 1..] == ms[k..];
      assert forall i :: 1 <= i < k ==> ms[i] == ms[1..][i - 1];
    } else {
      assert ms[0..] == ms;
    }
  }

  /** The five settings of the server, in some order. */
  ghost predicate FiveSettings(status: seq<(Text, Text)>) {
    && |status| == 5
    && multiset(status) == multiset{
         (Ascii("server_version"), Ascii("14")), (Ascii("server_encoding"), Ascii("UTF-8")),
         (Ascii("client_encoding"), Ascii("UTF-8")), (Ascii("DateStyle"), Ascii("ISO")),
         (Ascii("TimeZone"), Ascii("UTC"))}
  }

  lemma OrderOfFive(status: seq<(Text, Text)>)
    requires IsStatusOrder(status)
    ensures FiveSettings(status)
  {
    assert |status| == |multiset(status)| == |multiset(STATUS_TABLE)| == 5;
  }

  /** Any input that completes the start-up: after a refusal for each SSL
      request and AuthenticationOk, a client decodes the five settings, each
      value under its name, and then ReadyForQuery. */
  lemma StartupDecoded(server: Server, input: seq<byte>)
    requires WellBehaved(server) && Exec(server, INITIAL, input).state.startupDone
    ensures var ms, k := DecodeAll(ReplyBytes(server, input)).0, CountSsl(Exec(server, INITIAL, input).events);
            && |ms| >= k + 7 && (forall i :: 0 <= i < k ==> ms[i] == SslRefused) && ms[k] == AuthenticationOk
            && FiveSettings(server.status)
            && (forall i :: 0 <= i < 5 ==> ms[k + 1 + i] == ParameterStatus(server.status[i].0, server.status[i].1))
            && ms[k + 6] == ReadyForQuery(Idle)
  {
    hide Exec, DecodeAll, EncodeAll, Output, Fits, IsTranscript, IsStatusOrder, IsReplies;
    BytesDecodeToTranscript(server, input);
    var ms, k := Replies(server, input), CountSsl(Exec(server, INITIAL, input).events);
    AfterRefusals(server.status, k, ms);
    OrderOfFive(server.status);
    forall i | 0 <= i < 5 ensures ms[k + 1 + i] == ParameterStatus(server.status[i].0, server.status[i].1) {
      assert ms[k + 1 + i] == ms[k..][i + 1];
    }
    assert ms[k] == ms[k..][0] && ms[k + 6] == ms[k..][6];
  }

  /** The header of these fields, with every attribute: no table, no modifier,
      and the text format. */
  ghost predicate HeaderOf(fields: seq<Field>, m: Message) {
    && m.RowDescription? && |m.columns| == |fields|
    && forall j :: 0 <= j < |fields| ==>
         m.columns[j] == Column(fields[j].name, 0, 0, fields[j].oid, OidSize(fields[j].oid), -1, 0)
  }

  /** A description in either format decodes to these attributes; the format is
      0 for text and 1 for binary. */
  lemma DescriptionDecodes(fields: seq<Field>, f: Format)
    requires Fits(RowDescription(DescribeAll(fields, f)))
    ensures var (ms, left) := DecodeAll(EncodeAll([RowDescription(DescribeAll(fields, f))]));
            && left == [] && |ms| == 1 && ms[0].RowDescription? && |ms[0].columns| == |fields|
            && forall j :: 0 <= j < |fields| ==>
                 ms[0].columns[j]
                 == Column(fields[j].name, 0, 0, fields[j].oid, OidSize(fields[j].oid), -1, if f.TextFormat? then 0 else 1)
  {
    hide Fits, DecodeAll, EncodeAll, OidSize;
    StreamRoundTrip([RowDescription(DescribeAll(fields, f))]);
  }

  /** What a client finds for the outcome of a query. */
  ghost predicate OutcomeFound(o: Outcome, ms: seq<Message>) {
    match o
    case ParseFailure(text, severity, state) =>
      if severity == Fatal then ms == [] else ms == [ErrorResponse(text, severity, state), ReadyForQuery(Idle)]
    case ExecFailure(fields) => |ms| == 1 && HeaderOf(fields, ms[0])
    case Success(fields, rows) =>
      var n := |rows|;
      && |ms| == n + 3 && HeaderOf(fields, ms[0])
      && (forall i :: 1 <= i <= n ==> ms[i] == DataRow(rows[i - 1]))
      && ms[n + 1].CommandComplete? && AnnouncedRows(ms[n + 1].commandTag) == Some(n)
      && ms[n + 2] == ReadyForQuery(Idle)
  }

  lemma OutcomeIsFound(server: Server, text: Text, o: Outcome)
    ensures OutcomeFound(o, Reply(server, Queried(text, o)))
  {
    hide Reply, SelectTag, AnnouncedRows;
    var e := Queried(text, o);
    match o
    case ParseFailure(_, _, _) => ErrorReply(server, e);
    case ExecFailure(fields) =>
      BareReply(server, e);
      DescriptionIsHeader(fields);
    case Success(fields, rows) =>
      SuccessReply(server, e);
      DescriptionIsHeader(fields);
      SelectTagAnnounces(|rows|);
  }

  lemma DescriptionIsHeader(fields: seq<Field>)
    ensures HeaderOf(fields, Description(fields))
  {
    hide OidSize;
  }
}
