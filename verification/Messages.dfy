/** Backend messages, their encoding, and the decoder of a client.
    Formats: section 53.7 of the PostgreSQL 14 documentation. */
module Messages {
  import opened Bytes

  datatype Severity = Error | Fatal

  datatype SqlState =
    | SuccessfulCompletion
    | FeatureNotSupported
    | InvalidCursorName
    | ConnectionException
    | InvalidSQLStatementName
    | DataException
    | ProtocolViolation
    | SyntaxError
    | InvalidDatetimeFormat

  datatype Status = Idle | Block | Failed

  /** One column of a RowDescription, with every attribute that is sent. */
  datatype Column = Column(name: Text, table: int, attribute: int, oid: int, size: int, modifier: int, format: int)

  datatype Cell = Null | Data(bytes: seq<byte>)

  type Row = seq<Cell>

  datatype Message =
    | SslRefused
    | AuthenticationOk
    | ParameterStatus(name: Text, setting: Text)
    | ReadyForQuery(status: Status)
    | RowDescription(columns: seq<Column>)
    | DataRow(cells: Row)
    | CommandComplete(commandTag: Text)
    | ErrorResponse(text: Text, severity: Severity, state: SqlState)

  // ------------------------------------------------------------------ code tables

  function SeverityText(s: Severity): Text {
    match s
    case Error => Ascii("ERROR")
    case Fatal => Ascii("FATAL")
  }

  function SqlStateCode(s: SqlState): Text {
    match s
    case SuccessfulCompletion => Ascii("00000")
    case FeatureNotSupported => Ascii("0A000")
    case InvalidCursorName => Ascii("34000")
    case ConnectionException => Ascii("08000")
    case InvalidSQLStatementName => Ascii("26000")
    case DataException => Ascii("22000")
    case ProtocolViolation => Ascii("08P01")
    case SyntaxError => Ascii("42601")
    case InvalidDatetimeFormat => Ascii("22007")
  }

  function StatusByte(s: Status): byte {
    match s
    case Idle => 'I' as int
    case Block => 'T' as int
    case Failed => 'E' as int
  }

  lemma SeverityTextInjective(a: Severity, b: Severity)
    ensures SeverityText(a) == SeverityText(b) ==> a == b
    ensures NulFree(SeverityText(a)) && |SeverityText(a)| == 5
  {
    assert SeverityText(a)[0] == if a == Error then 69 else 70;
    assert SeverityText(b)[0] == if b == Error then 69 else 70;
  }

  lemma SqlStateCodeShape(s: SqlState)
    ensures NulFree(SqlStateCode(s)) && |SqlStateCode(s)| == 5
    ensures var t := SqlStateCode(s);
            match s
            case SuccessfulCompletion => t[0] == 48 && t[1] == 48
            case FeatureNotSupported => t[0] == 48 && t[1] == 65
            case InvalidCursorName => t[0] == 51
            case ConnectionException => t[0] == 48 && t[1] == 56 && t[2] == 48
            case InvalidSQLStatementName => t[0] == 50 && t[1] == 54
            case DataException => t[0] == 50 && t[1] == 50 && t[4] == 48
            case ProtocolViolation => t[0] == 48 && t[1] == 56 && t[2] == 80
            case SyntaxError => t[0] == 52
            case InvalidDatetimeFormat => t[0] == 50 && t[1] == 50 && t[4] == 55
  {
  }

  lemma SqlStateCodeInjective(a: SqlState, b: SqlState)
    ensures SqlStateCode(a) == SqlStateCode(b) ==> a == b
  {
    SqlStateCodeShape(a);
    SqlStateCodeShape(b);
  }

  // ------------------------------------------------------------------ encoding

  function ColumnBytes(c: Column): seq<byte> {
    c.name + [0] + Num(4, c.table) + Num(2, c.attribute) + Num(4, c.oid)
    + Num(2, c.size) + Num(4, c.modifier) + Num(2, c.format)
  }

  function ColumnsBytes(cs: seq<Column>): seq<byte> {
    if cs == [] then [] else ColumnBytes(cs[0]) + ColumnsBytes(cs[1..])
  }

  function CellBytes(c: Cell): seq<byte> {
    match c
    case Null => Num(4, -1)
    case Data(bytes) => Num(4, |bytes|) + bytes
  }

  function CellsBytes(r: Row): seq<byte> {
    if r == [] then [] else CellBytes(r[0]) + CellsBytes(r[1..])
  }

  function Tag(m: Message): byte {
    match m
    case SslRefused => 'N' as int
    case AuthenticationOk => 'R' as int
    case ParameterStatus(_, _) => 'S' as int
    case ReadyForQuery(_) => 'Z' as int
    case RowDescription(_) => 'T' as int
    case DataRow(_) => 'D' as int
    case CommandComplete(_) => 'C' as int
    case ErrorResponse(_, _, _) => 'E' as int
  }

  /** One field of an ErrorResponse. */
  function Coded(code: byte, t: Text): seq<byte> {
    [code] + (t + [0])
  }

  function Body(m: Message): seq<byte> {
    match m
    case SslRefused => []
    case AuthenticationOk => Num(4, 0)
    case ParameterStatus(name, setting) => name + [0] + (setting + [0])
    case ReadyForQuery(status) => [StatusByte(status)]
    case RowDescription(columns) => Num(2, |columns|) + ColumnsBytes(columns)
    case DataRow(cells) => Num(2, |cells|) + CellsBytes(cells)
    case CommandComplete(commandTag) => commandTag + [0]
    case ErrorResponse(text, severity, state) =>
      Coded('S' as int, SeverityText(severity)) + Coded('C' as int, SqlStateCode(state)) + Coded('M' as int, text) + [0]
  }

  function Frame(tag: byte, body: seq<byte>): seq<byte> {
    [tag] + Num(4, |body| + 4) + body
  }

  /** The refusal of SSL is one bare byte; everything else is a tagged frame. */
  function Encode(m: Message): (s: seq<byte>)
    ensures s != []
  {
    if m.SslRefused? then [Tag(m)] else Frame(Tag(m), Body(m))
  }

  function EncodeAll(ms: seq<Message>): seq<byte> {
    if ms == [] then [] else Encode(ms[0]) + EncodeAll(ms[1..])
  }

  lemma {:induction false} EncodeAllAppend(a: seq<Message>, b: seq<Message>)
    ensures EncodeAll(a + b) == EncodeAll(a) + EncodeAll(b)
  {
    hide Encode;
    if a == [] {
      assert a + b == b;
    } else {
      assert (a + b)[0] == a[0] && (a + b)[1..] == a[1..] + b;
      EncodeAllAppend(a[1..], b);
    }
  }

  // ------------------------------------------------------------------ what fits the wire

  ghost predicate ColumnFits(c: Column) {
    && NulFree(c.name)
    && FitsSigned(4, c.table) && FitsSigned(2, c.attribute) && FitsSigned(4, c.oid)
    && FitsSigned(2, c.size) && FitsSigned(4, c.modifier) && FitsSigned(2, c.format)
  }

  ghost predicate CellFits(c: Cell) {
    c.Data? ==> |c.bytes| <= INT32_MAX
  }

  /** No NUL in a terminated string, counts within int16, lengths within int32. */
  ghost predicate Fits(m: Message) {
    && |Body(m)| + 4 <= INT32_MAX
    && match m
       case SslRefused => true
       case AuthenticationOk => true
       case ParameterStatus(name, setting) => NulFree(name) && NulFree(setting)
       case ReadyForQuery(_) => true
       case RowDescription(columns) =>
         |columns| <= 32767 && forall i :: 0 <= i < |columns| ==> ColumnFits(columns[i])
       case DataRow(cells) =>
         |cells| <= 32767 && forall i :: 0 <= i < |cells| ==> CellFits(cells[i])
       case CommandComplete(commandTag) => NulFree(commandTag)
       case ErrorResponse(text, _, _) => NulFree(text)
  }

  ghost predicate AllFit(ms: seq<Message>) {
    forall i :: 0 <= i < |ms| ==> Fits(ms[i])
  }

  // ------------------------------------------------------------------ the client's decoder

  function TakeNum(w: nat, s: seq<byte>): Option<(int, seq<byte>)> {
    if |s| < w then None else Some((Signed(s[..w]), s[w..]))
  }

  function TakeText(s: seq<byte>): Option<(Text, seq<byte>)> {
    var i := IndexOfNul(s);
    if i == |s| then None else Some((s[..i], s[i + 1..]))
  }

  function TakeColumn(s: seq<byte>): Option<(Column, seq<byte>)> {
    match TakeText(s) case None => None case Some((name, s1)) =>
    match TakeNum(4, s1) case None => None case Some((table, s2)) =>
    match TakeNum(2, s2) case None => None case Some((attribute, s3)) =>
    match TakeNum(4, s3) case None => None case Some((oid, s4)) =>
    match TakeNum(2, s4) case None => None case Some((size, s5)) =>
    match TakeNum(4, s5) case None => None case Some((modifier, s6)) =>
    match TakeNum(2, s6) case None => None case Some((format, s7)) =>
    Some((Column(name, table, attribute, oid, size, modifier, format), s7))
  }

  function TakeColumns(n: nat, s: seq<byte>): Option<seq<Column>> {
    if n == 0 then (if s == [] then Some([]) else None)
    else
      match TakeColumn(s) case None => None case Some((c, rest)) =>
      match TakeColumns(n - 1, rest) case None => None case Some(cs) => Some([c] + cs)
  }

  function TakeCell(s: seq<byte>): Option<(Cell, seq<byte>)> {
    match TakeNum(4, s) case None => None case Some((length, rest)) =>
    if length == -1 then Some((Null, rest))
    else if length < 0 || |rest| < length then None
    else Some((Data(rest[..length]), rest[length..]))
  }

  function TakeCells(n: nat, s: seq<byte>): Option<Row> {
    if n == 0 then (if s == [] then Some([]) else None)
    else
      match TakeCell(s) case None => None case Some((c, rest)) =>
      match TakeCells(n - 1, rest) case None => None case Some(cs) => Some([c] + cs)
  }

  /** The field list of an ErrorResponse: coded strings up to the first zero code. */
  function TakeErrorFields(s: seq<byte>): Option<seq<(byte, Text)>>
    decreases |s|
  {
    if s == [] then None
    else if s[0] == 0 then (if |s| == 1 then Some([]) else None)
    else
      match TakeText(s[1..]) case None => None case Some((t, rest)) =>
      match TakeErrorFields(rest) case None => None case Some(fs) => Some([(s[0], t)] + fs)
  }

  function Lookup(code: byte, fields: seq<(byte, Text)>): Option<Text> {
    if fields == [] then None
    else if fields[0].0 == code then Some(fields[0].1)
    else Lookup(code, fields[1..])
  }

  function ReadSeverity(t: Text): Option<Severity> {
    if t == Ascii("ERROR") then Some(Error)
    else if t == Ascii("FATAL") then Some(Fatal)
    else None
  }

  /** The codes of appendix A of the PostgreSQL 14 documentation. */
  function ReadState(t: Text): Option<SqlState> {
    if t == Ascii("00000") then Some(SuccessfulCompletion)
    else if t == Ascii("0A000") then Some(FeatureNotSupported)
    else if t == Ascii("34000") then Some(InvalidCursorName)
    else if t == Ascii("08000") then Some(ConnectionException)
    else if t == Ascii("26000") then Some(InvalidSQLStatementName)
    else if t == Ascii("22000") then Some(DataException)
    else if t == Ascii("08P01") then Some(ProtocolViolation)
    else if t == Ascii("42601") then Some(SyntaxError)
    else if t == Ascii("22007") then Some(InvalidDatetimeFormat)
    else None
  }

  function ReadError(fields: seq<(byte, Text)>): Option<Message> {
    match Lookup('S' as int, fields) case None => None case Some(s) =>
    match Lookup('C' as int, fields) case None => None case Some(c) =>
    match Lookup('M' as int, fields) case None => None case Some(text) =>
    match ReadSeverity(s) case None => None case Some(severity) =>
    match ReadState(c) case None => None case Some(state) =>
    Some(ErrorResponse(text, severity, state))
  }

  function ReadBody(tag: byte, body: seq<byte>): Option<Message> {
    if tag == 'R' as int then
      if |body| == 4 && Signed(body) == 0 then Some(AuthenticationOk) else None
    else if tag == 'S' as int then
      match TakeText(body) case None => None case Some((name, rest)) =>
      match TakeText(rest) case None => None case Some((setting, rest2)) =>
      if rest2 == [] then Some(ParameterStatus(name, setting)) else None
    else if tag == 'Z' as int then
      if body == ['I' as int] then Some(ReadyForQuery(Idle))
      else if body == ['T' as int] then Some(ReadyForQuery(Block))
      else if body == ['E' as int] then Some(ReadyForQuery(Failed))
      else None
    else if tag == 'T' as int then
      match TakeNum(2, body) case None => None case Some((n, rest)) =>
      if n < 0 then None else
      match TakeColumns(n, rest) case None => None case Some(cs) => Some(RowDescription(cs))
    else if tag == 'D' as int then
      match TakeNum(2, body) case None => None case Some((n, rest)) =>
      if n < 0 then None else
      match TakeCells(n, rest) case None => None case Some(cs) => Some(DataRow(cs))
    else if tag == 'C' as int then
      match TakeText(body) case None => None case Some((t, rest)) =>
      if rest == [] then Some(CommandComplete(t)) else None
    else if tag == 'E' as int then
      match TakeErrorFields(body) case None => None case Some(fs) => ReadError(fs)
    else None
  }

  datatype Decoded = NeedMore | Malformed | Decoded(message: Message, rest: seq<byte>)

  /** Reads one message off the front of a stream. The backend sends no
      NoticeResponse, so a leading 'N' is always the refusal of SSL. */
  function DecodeOne(s: seq<byte>): (d: Decoded)
    ensures d.Decoded? ==> |d.rest| < |s|
  {
    if s == [] then NeedMore
    else if s[0] == 'N' as int then Decoded(SslRefused, s[1..])
    else if |s| < 5 then NeedMore
    else
      var length := Signed(s[1..5]);
      if length < 4 then Malformed
      else if |s| < 1 + length then NeedMore
      else match ReadBody(s[0], s[5..1 + length])
        case None => Malformed
        case Some(m) => Decoded(m, s[1 + length..])
  }

  /** Every message that is completely there, and the bytes left over. */
  function DecodeAll(s: seq<byte>): (seq<Message>, seq<byte>)
    decreases |s|
  {
    match DecodeOne(s)
    case NeedMore => ([], s)
    case Malformed => ([], s)
    case Decoded(m, rest) =>
      var (ms, left) := DecodeAll(rest);
      ([m] + ms, left)
  }
}
