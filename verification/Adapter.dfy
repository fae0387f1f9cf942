/** The DuckDB query handler: the field list and the rows it writes, with the
    database abstracted to what it prepares and what it returns. */
module Adapter {
  import opened Bytes
  import opened Messages
  import opened Encoders
  import opened Writers
  import opened Protocol
  import opened Accounts
  import opened Steps
  import opened Queries
  import opened Transcripts
  import opened Decoding
  import Decimal

  datatype LogicalType =
    | FLOAT | DOUBLE | TINYINT | SMALLINT | INTEGER | BIGINT | BOOLEAN
    | VARCHAR | DATE | TIME | TIMESTAMP | TIMESTAMP_TZ
    | OTHER(id: int)

  /** A value of a result. The renderings of a floating-point value, and the
      text of dates and times, are the database's and the library's. */
  datatype DuckValue =
    | Missing
    | Number(n: int)
    | Floating(printed: seq<byte>, layout: seq<byte>)
    | Truth(flag: bool)
    | Textual(text: seq<byte>)

  type Table = seq<seq<DuckValue>>

  /** g_typemap lists TIMESTAMP twice; which entry the map keeps is open. */
  type TimestampOid = t: int | t == 1114 || t == 1184 witness 1114

  /** g_typemap. TIMESTAMP_TZ and BOOLEAN are not in it. */
  function TypeOid(timestamp: TimestampOid, t: LogicalType): Option<int> {
    match t
    case FLOAT => Some(700)
    case DOUBLE => Some(701)
    case SMALLINT => Some(21)
    case INTEGER => Some(23)
    case BIGINT => Some(20)
    case VARCHAR => Some(1043)
    case DATE => Some(1082)
    case TIME => Some(1083)
    case TIMESTAMP => Some(timestamp as int)
    case _ => None
  }

  predicate Mapped(t: LogicalType) {
    TypeOid(1114, t).Some?
  }

  /** The value has the type of its column, or is missing. The text of a
      floating-point value fits the scratch buffer it is printed into. */
  ghost predicate TypedAs(t: LogicalType, v: DuckValue) {
    v.Missing? ||
    match t
    case FLOAT | DOUBLE => v.Floating? && |v.printed| <= 255
    case SMALLINT => v.Number? && FitsSigned(2, v.n)
    case INTEGER => v.Number? && FitsSigned(4, v.n)
    case BIGINT => v.Number? && FitsSigned(8, v.n)
    case BOOLEAN => v.Truth?
    case VARCHAR | DATE | TIME | TIMESTAMP | TIMESTAMP_TZ => v.Textual?
    case _ => true
  }

  ghost predicate RowTyped(types: seq<LogicalType>, row: seq<DuckValue>) {
    |row| == |types| && forall i :: 0 <= i < |row| ==> TypedAs(types[i], row[i])
  }

  // ------------------------------------------------------------------ what the two loops do with one column

  /** What the field loop lists for a column: nothing when its type is not in
      the map. */
  function Listed(timestamp: TimestampOid, name: Text, t: LogicalType): seq<Field> {
    match TypeOid(timestamp, t)
    case None => []
    case Some(oid) => [Field(name, oid)]
  }

  /** The switch of the row loop over the type of a value that is not null; its
      default branch writes nothing. */
  function Branch(t: LogicalType, v: DuckValue): Option<Value> {
    match t
    case FLOAT | DOUBLE => if v.Floating? then Some(FloatValue(v.printed, v.layout)) else None
    case SMALLINT => if v.Number? then Some(IntValue(2, v.n)) else None
    case INTEGER => if v.Number? then Some(IntValue(4, v.n)) else None
    case BIGINT => if v.Number? then Some(IntValue(8, v.n)) else None
    case BOOLEAN => if v.Truth? then Some(BoolValue(v.flag)) else None
    case VARCHAR | DATE | TIME | TIMESTAMP | TIMESTAMP_TZ => if v.Textual? then Some(StringValue(v.text)) else None
    case _ => None
  }

  /** What the row loop writes for a column. */
  function Written(t: LogicalType, v: DuckValue): Row {
    if !Mapped(t) then []
    else if v.Missing? then [Null]
    else match Branch(t, v)
      case None => []
      case Some(value) => [Render(TextFormat, value)]
  }

  function FieldsUpTo(timestamp: TimestampOid, names: seq<Text>, types: seq<LogicalType>, n: nat): seq<Field>
    requires |names| == |types| && n <= |types|
  {
    if n == 0 then []
    else FieldsUpTo(timestamp, names, types, n - 1) + Listed(timestamp, names[n - 1], types[n - 1])
  }

  function CellsUpTo(types: seq<LogicalType>, row: seq<DuckValue>, n: nat): Row
    requires |row| == |types| && n <= |types|
  {
    if n == 0 then [] else CellsUpTo(types, row, n - 1) + Written(types[n - 1], row[n - 1])
  }

  function FieldsOf(timestamp: TimestampOid, names: seq<Text>, types: seq<LogicalType>): seq<Field>
    requires |names| == |types|
  {
    FieldsUpTo(timestamp, names, types, |types|)
  }

  function CellsOf(types: seq<LogicalType>, row: seq<DuckValue>): Row
    requires |row| == |types|
  {
    CellsUpTo(types, row, |types|)
  }

  // ------------------------------------------------------------------ the two loops

  method BuildFields(timestamp: TimestampOid, names: seq<Text>, types: seq<LogicalType>) returns (fields: seq<Field>)
    requires |names| == |types|
    ensures fields == FieldsOf(timestamp, names, types)
  {
    fields := [];
    var i := 0;
    while i < |types|
      invariant 0 <= i <= |types|
      invariant fields == FieldsUpTo(timestamp, names, types, i)
    {
      var oid := TypeOid(timestamp, types[i]);
      if oid.Some? {
        fields := fields + [Field(names[i], oid.value)];
      }
      i := i + 1;
    }
  }

  /** The inner loop of the handler: the cells of one row. The branch for
      BOOLEAN is never taken, since that type is not in the map. */
  method FillRow(row: RowWriter, types: seq<LogicalType>, values: seq<DuckValue>)
    requires row.Valid() && row.writer.format == TextFormat && row.cells == []
    requires RowTyped(types, values)
    modifies row`currentCol, row`cells, row.row`data
    ensures row.Valid() && row.cells == CellsOf(types, values)
  {
    hide RowWriter.Valid, Render;
    NullCell();
    var i := 0;
    while i < |types|
      invariant 0 <= i <= |types|
      invariant row.Valid() && row.cells == CellsUpTo(types, values, i)
    {
      var oid := TypeOid(1114, types[i]);
      if oid.Some? {
        if values[i].Missing? {
          row.WriteNull();
        } else {
          assert TypedAs(types[i], values[i]);
          match types[i] {
            case FLOAT => row.WriteFloat(values[i].printed, values[i].layout);
            case DOUBLE => row.WriteFloat(values[i].printed, values[i].layout);
            case SMALLINT => row.WriteInt(2, values[i].n);
            case INTEGER => row.WriteInt(4, values[i].n);
            case BIGINT => row.WriteInt(8, values[i].n);
            case VARCHAR => row.WriteString(values[i].text);
            case DATE => row.WriteString(values[i].text);
            case TIME => row.WriteString(values[i].text);
            case TIMESTAMP => row.WriteString(values[i].text);
          }
        }
      }
      i := i + 1;
    }
  }

  lemma NullCell()
    ensures Render(TextFormat, NullValue) == Null
  {
  }

  /** The row loop: one DataRow for each row of the result, in order. */
  method FillTable(writer: Writer, types: seq<LogicalType>, table: Table)
    requires writer.Valid() && writer.format == TextFormat && writer.closed == [] && writer.open == {}
    requires TableTyped(types, table)
    modifies writer, writer.data
    ensures writer.Valid() && writer.open == {}
    ensures writer.closed == RowsOf(types, table)
  {
    hide CellsOf, Writer.Valid, RowWriter.Valid, TypedAs;
    var i := 0;
    while i < |table|
      invariant 0 <= i <= |table| == |RowsOf(types, table)|
      invariant writer.Valid() && writer.open == {} && writer.closed == RowsOf(types, table)[..i]
    {
      var row := writer.AddRow();
      assert row.writer.format == TextFormat;
      FillRow(row, types, table[i]);
      row.Close();
      assert RowsOf(types, table)[..i + 1] == RowsOf(types, table)[..i] + [CellsOf(types, table[i])];
      i := i + 1;
    }
  }

  ghost function RowsOf(types: seq<LogicalType>, table: Table): (rows: seq<Row>)
    requires TableTyped(types, table)
    ensures |rows| == |table|
  {
    assert forall i :: 0 <= i < |table| ==> RowTyped(types, table[i]) && |table[i]| == |types|;
    seq(|table|, i requires 0 <= i < |table| && |table[i]| == |types| => CellsOf(types, table[i]))
  }

  // ------------------------------------------------------------------ header and rows agree

  /** The columns, among the first n, whose type is in the map. */
  function SentColumns(types: seq<LogicalType>, n: nat): (cs: seq<nat>)
    requires n <= |types|
    ensures |cs| <= n && forall j :: 0 <= j < |cs| ==> cs[j] < n && Mapped(types[cs[j]])
  {
    if n == 0 then []
    else SentColumns(types, n - 1) + if Mapped(types[n - 1]) then [n - 1] else []
  }

  /** Where a mapped column stands among those sent. */
  lemma {:induction false} SentAt(types: seq<LogicalType>, n: nat, c: nat) returns (j: nat)
    requires c < n <= |types| && Mapped(types[c])
    ensures j < |SentColumns(types, n)| && SentColumns(types, n)[j] == c
  {
    hide Mapped;
    if c < n - 1 {
      j := SentAt(types, n - 1, c);
    } else {
      j := |SentColumns(types, n - 1)|;
    }
  }

  lemma {:induction false} SentAscend(types: seq<LogicalType>, n: nat, j: nat, k: nat)
    requires n <= |types| && j < k < |SentColumns(types, n)|
    ensures SentColumns(types, n)[j] < SentColumns(types, n)[k]
  {
    hide Mapped;
    var front := SentColumns(types, n - 1);
    assert SentColumns(types, n)[j] == front[j];
    if k < |front| {
      SentAscend(types, n - 1, j, k);
    } else {
      assert SentColumns(types, n)[k] == n - 1;
    }
  }

  /** They are exactly the mapped columns, each once, in order. */
  lemma SentColumnsExactly(types: seq<LogicalType>, n: nat)
    requires n <= |types|
    ensures var cs := SentColumns(types, n);
            && (forall j, k :: 0 <= j < k < |cs| ==> cs[j] < cs[k])
            && (forall c: nat :: c < n && Mapped(types[c]) ==> c in cs)
  {
    hide *;
    forall j, k | 0 <= j < k < |SentColumns(types, n)| ensures SentColumns(types, n)[j] < SentColumns(types, n)[k] {
      SentAscend(types, n, j, k);
    }
    forall c: nat | c < n && Mapped(types[c]) ensures c in SentColumns(types, n) {
      var j := SentAt(types, n, c);
    }
  }

  /** What a client should find for a value: null, or its text. */
  function CellOf(v: DuckValue): Cell {
    match v
    case Missing => Null
    case Number(n) => Data(Decimal.Print(n))
    case Floating(printed, _) => Data(printed)
    case Truth(flag) => Render(TextFormat, BoolValue(flag))
    case Textual(text) => Data(text)
  }

  /** A mapped type reaches a branch that writes once; any other type is skipped
      by both loops. */
  lemma BothLoopsAgree(timestamp: TimestampOid, name: Text, t: LogicalType, v: DuckValue)
    requires TypedAs(t, v)
    ensures Mapped(t) <==> t !in {TINYINT, BOOLEAN, TIMESTAMP_TZ} && !t.OTHER?
    ensures Mapped(t) ==> Written(t, v) == [CellOf(v)] && Listed(timestamp, name, t) == [Field(name, TypeOid(timestamp, t).value)]
    ensures !Mapped(t) ==> Written(t, v) == [] && Listed(timestamp, name, t) == []
  {
  }

  /** The field list and the cells of a row have the same arity, and position j
      of both belongs to the j-th mapped column. */
  lemma {:induction false} Aligned(timestamp: TimestampOid, names: seq<Text>, types: seq<LogicalType>, row: seq<DuckValue>, n: nat)
    requires |names| == |types| && RowTyped(types, row) && n <= |types|
    ensures var fields, cells, cs := FieldsUpTo(timestamp, names, types, n), CellsUpTo(types, row, n), SentColumns(types, n);
            && |fields| == |cells| == |cs|
            && (forall j :: 0 <= j < |cs| ==>
                  && fields[j] == Field(names[cs[j]], TypeOid(timestamp, types[cs[j]]).value)
                  && cells[j] == CellOf(row[cs[j]]))
  {
    hide Mapped, TypeOid, CellOf, Written, Listed, TypedAs;
    if n > 0 {
      Aligned(timestamp, names, types, row, n - 1);
      BothLoopsAgree(timestamp, names[n - 1], types[n - 1], row[n - 1]);
      MappedHasOid(timestamp, types);
    }
  }

  lemma MappedHasOid(timestamp: TimestampOid, types: seq<LogicalType>)
    ensures forall c :: 0 <= c < |types| && Mapped(types[c]) ==> TypeOid(timestamp, types[c]).Some?
  {
  }

  ghost predicate TableTyped(types: seq<LogicalType>, table: Table) {
    forall i :: 0 <= i < |table| ==> RowTyped(types, table[i])
  }

  /** How a client reads a type id (pg_type of PostgreSQL 14). */
  function TypeRead(oid: int): Option<LogicalType> {
    if oid == 700 then Some(FLOAT)
    else if oid == 701 then Some(DOUBLE)
    else if oid == 21 then Some(SMALLINT)
    else if oid == 23 then Some(INTEGER)
    else if oid == 20 then Some(BIGINT)
    else if oid == 1043 then Some(VARCHAR)
    else if oid == 1082 then Some(DATE)
    else if oid == 1083 then Some(TIME)
    else if oid == 1114 || oid == 1184 then Some(TIMESTAMP)
    else None
  }

  /** The size that a client expects for a type (typlen of pg_type). */
  function ExpectedSize(t: LogicalType): int {
    match t
    case SMALLINT => 2
    case FLOAT | INTEGER | DATE => 4
    case DOUBLE | BIGINT | TIME | TIMESTAMP => 8
    case _ => -1
  }

  lemma OidReads(timestamp: TimestampOid, t: LogicalType)
    requires Mapped(t)
    ensures TypeOid(timestamp, t).Some?
    ensures var oid := TypeOid(timestamp, t).value; TypeRead(oid) == Some(t) && OidSize(oid) == ExpectedSize(t)
  {
  }

  /** What a client reads from a cell: null, the number of a decimal text, the
      letter of a truth value, or the text as it is. */
  predicate CellReads(v: DuckValue, cell: Cell) {
    match v
    case Missing => cell == Null
    case Number(n) => cell.Data? && Decimal.Canonical(cell.bytes) && Decimal.Parse(cell.bytes) == Some(n)
    case Floating(printed, _) => cell == Data(printed)
    case Truth(flag) => cell == Data(if flag then [116] else [102])
    case Textual(text) => cell == Data(text)
  }

  lemma CellOfReads(v: DuckValue)
    ensures CellReads(v, CellOf(v))
  {
    hide Decimal.Print, Decimal.Parse, Decimal.Canonical;
    if v.Number? {
      Decimal.ParsePrint(v.n);
      Decimal.PrintCanonical(v.n);
    }
  }

  /** Position j of the header, and of every row, belongs to column c. */
  ghost predicate Describes(timestamp: TimestampOid, names: seq<Text>, types: seq<LogicalType>, table: Table, j: nat, c: nat)
    requires |names| == |types| && TableTyped(types, table)
  {
    && c < |types| && Mapped(types[c]) && j < |FieldsOf(timestamp, names, types)|
    && FieldsOf(timestamp, names, types)[j].name == names[c]
    && TypeRead(FieldsOf(timestamp, names, types)[j].oid) == Some(types[c])
    && forall i :: 0 <= i < |table| ==>
         j < |RowsOf(types, table)[i]| && CellReads(table[i][c], RowsOf(types, table)[i][j])
  }

  /** For every schema and every result: all rows have the arity of the field
      list, every position belongs to one column in header and rows alike, and
      every column whose type is in the map has a position. */
  lemma HeaderDescribesRows(timestamp: TimestampOid, names: seq<Text>, types: seq<LogicalType>, table: Table)
    requires |names| == |types| && TableTyped(types, table)
    ensures var fields, rows, cs := FieldsOf(timestamp, names, types), RowsOf(types, table), SentColumns(types, |types|);
            && |rows| == |table| && |fields| == |cs|
            && (forall i :: 0 <= i < |rows| ==> |rows[i]| == |fields|)
            && (forall j :: 0 <= j < |cs| ==> Describes(timestamp, names, types, table, j, cs[j]))
            && (forall c: nat :: c < |types| && Mapped(types[c]) ==> c in cs)
  {
    hide Mapped, TypeOid, CellOf, CellsUpTo, FieldsUpTo, TypedAs, TypeRead, CellReads;
    var fields, cs := FieldsOf(timestamp, names, types), SentColumns(types, |types|);
    SentColumnsExactly(types, |types|);
    var nulls := seq(|types|, _ => Missing);
    AllMissing(types);
    Aligned(timestamp, names, types, nulls, |types|);
    forall i | 0 <= i < |table| ensures |RowsOf(types, table)[i]| == |fields|
        && forall j :: 0 <= j < |cs| ==> CellReads(table[i][cs[j]], RowsOf(types, table)[i][j])
    {
      assert RowTyped(types, table[i]);
      Aligned(timestamp, names, types, table[i], |types|);
      forall j | 0 <= j < |cs| ensures CellReads(table[i][cs[j]], RowsOf(types, table)[i][j]) {
        CellOfReads(table[i][cs[j]]);
      }
    }
    forall j | 0 <= j < |cs| ensures TypeRead(fields[j].oid) == Some(types[cs[j]]) {
      OidReads(timestamp, types[cs[j]]);
    }
  }

  lemma AllMissing(types: seq<LogicalType>)
    ensures RowTyped(types, seq(|types|, _ => Missing))
  {
  }

  /** How many columns are sent depends on the schema alone. */
  lemma Arity(timestamp: TimestampOid, names: seq<Text>, types: seq<LogicalType>)
    requires |names| == |types|
    ensures |FieldsOf(timestamp, names, types)| == |SentColumns(types, |types|)| <= |types|
    ensures forall j :: 0 <= j < |FieldsOf(timestamp, names, types)| ==>
              var c := SentColumns(types, |types|)[j];
              FieldsOf(timestamp, names, types)[j] == Field(names[c], TypeOid(timestamp, types[c]).value)
  {
    hide Mapped, TypeOid, CellOf, CellsUpTo, FieldsUpTo, RowTyped;
    AllMissing(types);
    Aligned(timestamp, names, types, seq(|types|, _ => Missing), |types|);
  }

  /** A client reads an integer cell back, and tells null from any value. */
  lemma ClientReadsCell(t: LogicalType, v: DuckValue)
    requires Mapped(t) && TypedAs(t, v)
    ensures CellOf(v).Null? <==> v.Missing?
    ensures v.Number? ==> Decimal.Parse(CellOf(v).bytes) == Some(v.n)
    ensures v.Number? && t == SMALLINT ==> |CellOf(v).bytes| <= 6
    ensures v.Number? && t == INTEGER ==> |CellOf(v).bytes| <= 11
    ensures v.Number? && t == BIGINT ==> |CellOf(v).bytes| <= 20
  {
    hide Decimal.Print, Decimal.Parse;
    if v.Number? {
      Decimal.ParsePrint(v.n);
      Decimal.PrintLength(v.n);
    }
  }

  /** The size that the header announces for a numeric column is the width of
      the type its values are written as. */
  lemma HeaderSizeMatches(timestamp: TimestampOid, t: LogicalType, n: int)
    requires t in {SMALLINT, INTEGER, BIGINT}
    ensures var w := OidSize(TypeOid(timestamp, t).value);
            IntWidth(w) && Branch(t, Number(n)) == Some(IntValue(w, n)) && (TypedAs(t, Number(n)) <==> FitsSigned(w, n))
    ensures OidSize(TypeOid(timestamp, FLOAT).value) == 4 && OidSize(TypeOid(timestamp, DOUBLE).value) == 8
  {
  }

  // ------------------------------------------------------------------ the handler as an outcome

  /** What the database makes of a query text. */
  datatype Answer =
    | PrepareError(text: Text)
    | ExecuteError(names: seq<Text>, types: seq<LogicalType>)
    | Result(names: seq<Text>, types: seq<LogicalType>, table: Table)

  ghost predicate AnswerTyped(a: Answer) {
    match a
    case PrepareError(_) => true
    case ExecuteError(names, types) => |names| == |types|
    case Result(names, types, table) =>
      |names| == |types| && TableTyped(types, table)
  }

  ghost function OutcomeOf(timestamp: TimestampOid, a: Answer): Outcome
    requires AnswerTyped(a)
  {
    match a
    case PrepareError(text) => ParseFailure(text, Error, DataException)
    case ExecuteError(names, types) => ExecFailure(FieldsOf(timestamp, names, types))
    case Result(names, types, table) => Success(FieldsOf(timestamp, names, types), RowsOf(types, table))
  }

  /** What the wire format asks of an answer: column names without NUL, at most
      32767 columns sent, and messages whose length fits. */
  ghost predicate AnswerFits(timestamp: TimestampOid, a: Answer)
    requires AnswerTyped(a)
  {
    match a
    case PrepareError(text) => NulFree(text) && |Body(ErrorResponse(text, Error, DataException))| + 4 <= INT32_MAX
    case ExecuteError(names, types) => HeaderFits(timestamp, names, types)
    case Result(names, types, table) =>
      && HeaderFits(timestamp, names, types) && |table| < Pow256(8)
      && forall i :: 0 <= i < |table| ==> RowBytesFit(CellsOf(types, table[i]))
  }

  ghost predicate HeaderFits(timestamp: TimestampOid, names: seq<Text>, types: seq<LogicalType>)
    requires |names| == |types|
  {
    && |types| <= 32767 && (forall i :: 0 <= i < |names| ==> NulFree(names[i]))
    && |Body(Description(FieldsOf(timestamp, names, types)))| + 4 <= INT32_MAX
  }

  ghost predicate RowBytesFit(cells: Row) {
    |Body(DataRow(cells))| + 4 <= INT32_MAX
  }

  lemma {:induction false} CellSmallerThanRow(cells: Row, j: nat)
    requires j < |cells|
    ensures |CellBytes(cells[j])| <= |CellsBytes(cells)|
  {
    hide CellBytes;
    if j > 0 {
      CellSmallerThanRow(cells[1..], j - 1);
    }
  }

  lemma RowFits(cells: Row)
    requires RowBytesFit(cells) && |cells| <= 32767
    ensures Fits(DataRow(cells))
  {
    hide CellsBytes;
    forall j | 0 <= j < |cells| ensures CellFits(cells[j]) {
      CellSmallerThanRow(cells, j);
    }
  }

  lemma HeaderIsFit(timestamp: TimestampOid, names: seq<Text>, types: seq<LogicalType>)
    requires |names| == |types| && HeaderFits(timestamp, names, types)
    ensures Fits(Description(FieldsOf(timestamp, names, types)))
  {
    hide ColumnFits, Describe, Body;
    var fields := FieldsOf(timestamp, names, types);
    Arity(timestamp, names, types);
    forall j | 0 <= j < |fields| ensures ColumnFits(DescribeAll(fields, TextFormat)[j]) {
      Pow256Values();
      DescribeFits(fields[j], TextFormat);
    }
  }

  /** A DuckDB-backed server meets every assumption of the session theorems:
      its headers and rows always agree in arity, so nothing has to be assumed
      of them beyond sizes. */
  lemma AnswerIsWellBehaved(timestamp: TimestampOid, a: Answer)
    requires AnswerTyped(a) && AnswerFits(timestamp, a)
    ensures OutcomeFits(OutcomeOf(timestamp, a))
  {
    hide Fits, Body, Description, CellsOf, FieldsOf;
    match a
    case PrepareError(text) => ErrorFits(text);
    case ExecuteError(names, types) => HeaderIsFit(timestamp, names, types);
    case Result(names, types, table) =>
      HeaderIsFit(timestamp, names, types);
      var rows := RowsOf(types, table);
      HeaderDescribesRows(timestamp, names, types, table);
      Arity(timestamp, names, types);
      forall i | 0 <= i < |rows|
        ensures Fits(DataRow(rows[i])) && |rows[i]| == |FieldsOf(timestamp, names, types)|
      {
        assert rows[i] == CellsOf(types, table[i]);
        RowFits(rows[i]);
      }
  }

  lemma ErrorFits(text: Text)
    requires NulFree(text) && |Body(ErrorResponse(text, Error, DataException))| + 4 <= INT32_MAX
    ensures Fits(ErrorResponse(text, Error, DataException))
  {
  }

  /** A column under its name and type, of no table, without modifier, in the
      text format, and with the size of its type. */
  predicate ColumnFound(name: Text, t: LogicalType, c: Column) {
    && c.name == name && TypeRead(c.oid) == Some(t) && c.size == ExpectedSize(t)
    && c.table == 0 && c.attribute == 0 && c.modifier == -1 && c.format == 0
  }

  /** The header of these columns: the mapped ones. */
  ghost predicate HeaderFound(names: seq<Text>, types: seq<LogicalType>, m: Message)
    requires |names| == |types|
  {
    var cs := SentColumns(types, |types|);
    && m.RowDescription? && |m.columns| == |cs|
    && (forall j :: 0 <= j < |cs| ==> ColumnFound(names[cs[j]], types[cs[j]], m.columns[j]))
  }

  /** A header, one row for each row of the result, the count of those rows and
      the end of the reply; the value of every mapped column stands under the
      name and type of that column. */
  ghost predicate ResultFound(names: seq<Text>, types: seq<LogicalType>, table: Table, ms: seq<Message>)
    requires |names| == |types| && TableTyped(types, table)
  {
    var cs, n := SentColumns(types, |types|), |table|;
    && |ms| == n + 3 && HeaderFound(names, types, ms[0])
    && (forall i :: 1 <= i <= n ==> ms[i].DataRow? && |ms[i].cells| == |cs|)
    && (forall i, j :: 1 <= i <= n && 0 <= j < |cs| ==> CellReads(table[i - 1][cs[j]], ms[i].cells[j]))
    && ms[n + 1].CommandComplete? && AnnouncedRows(ms[n + 1].commandTag) == Some(n)
    && ms[n + 2] == ReadyForQuery(Idle)
  }

  /** The bytes of a result set decode to that result. */
  lemma ClientReadsResult(timestamp: TimestampOid, names: seq<Text>, types: seq<LogicalType>, table: Table)
    requires |names| == |types| && TableTyped(types, table)
    requires AnswerFits(timestamp, Result(names, types, table))
    ensures var ms := ResultSet(FieldsOf(timestamp, names, types), RowsOf(types, table));
            DecodeAll(EncodeAll(ms)) == (ms, []) && ResultFound(names, types, table, ms)
  {
    hide DecodeAll, EncodeAll, Fits, FieldsOf, CellsOf, CellOf, TypeOid, Mapped, SelectTag, AnnouncedRows, OidSize, TypedAs,
         HeaderFits, RowBytesFit;
    var fields, rows := FieldsOf(timestamp, names, types), RowsOf(types, table);
    AnswerIsWellBehaved(timestamp, Result(names, types, table));
    ResultSetFits(fields, rows);
    StreamRoundTrip(ResultSet(fields, rows));
    HeaderDescribesRows(timestamp, names, types, table);
    MappedHasOid(timestamp, types);
    SelectTagAnnounces(|table|);
    var ms := ResultSet(fields, rows);
    assert HeaderFound(names, types, ms[0]) by {
      ClientReadsHeader(timestamp, names, types);
    }
    forall i | 1 <= i <= |table| ensures ms[i] == DataRow(rows[i - 1]) {
      assert ms[i] == AsMessages(rows)[i - 1];
    }
  }

  lemma ClientReadsHeader(timestamp: TimestampOid, names: seq<Text>, types: seq<LogicalType>)
    requires |names| == |types|
    ensures HeaderFound(names, types, Description(FieldsOf(timestamp, names, types)))
  {
    hide FieldsOf, TypeOid, Mapped, OidSize, ExpectedSize, TypeRead;
    var fields, cs := FieldsOf(timestamp, names, types), SentColumns(types, |types|);
    Arity(timestamp, names, types);
    forall j | 0 <= j < |cs| ensures ColumnFound(names[cs[j]], types[cs[j]], DescribeAll(fields, TextFormat)[j]) {
      OidReads(timestamp, types[cs[j]]);
      assert DescribeAll(fields, TextFormat)[j] == Describe(fields[j], TextFormat);
    }
  }

  /** The server that answers from a database; the database may remember every
      query it was given. */
  ghost function DuckServer(timestamp: TimestampOid, database: (seq<Text>, Text) -> Answer, status: seq<(Text, Text)>): Server {
    Server((past: seq<Text>, text: Text) =>
             if AnswerTyped(database(past, text)) then OutcomeOf(timestamp, database(past, text))
             else ParseFailure([], Error, DataException),
           status)
  }

  /** So the theorems about sessions, transcripts and interleavings hold of the
      extension as it stands. */
  lemma DuckServerIsWellBehaved(timestamp: TimestampOid, database: (seq<Text>, Text) -> Answer, status: seq<(Text, Text)>)
    requires IsStatusOrder(status)
    requires forall past: seq<Text>, text: Text {:trigger database(past, text)} ::
               AnswerTyped(database(past, text)) && AnswerFits(timestamp, database(past, text))
    ensures WellBehaved(DuckServer(timestamp, database, status))
  {
    hide OutcomeFits, AnswerTyped, AnswerFits;
    var server := DuckServer(timestamp, database, status);
    forall past: seq<Text>, text: Text ensures OutcomeFits(server.handler(past, text)) {
      AnswerIsWellBehaved(timestamp, database(past, text));
    }
  }

  // ------------------------------------------------------------------ from the queries of a client to what it decodes

  /** What a client should decode for an answer of the database. */
  ghost predicate AnswerFound(a: Answer, ms: seq<Message>)
    requires AnswerTyped(a)
  {
    match a
    case PrepareError(text) => ms == [ErrorResponse(text, Error, DataException), ReadyForQuery(Idle)]
    case ExecuteError(names, types) => |ms| == 1 && HeaderFound(names, types, ms[0])
    case Result(names, types, table) => ResultFound(names, types, table, ms)
  }

  lemma AnswerIsFound(timestamp: TimestampOid, a: Answer, ms: seq<Message>)
    requires AnswerTyped(a) && AnswerFits(timestamp, a) && OutcomeFound(OutcomeOf(timestamp, a), ms)
    ensures AnswerFound(a, ms)
  {
    hide HeaderFound, Description, AnswerFits, HeaderOf, CellReads, AnnouncedRows;
    match a
    case PrepareError(_) =>
    case ExecuteError(names, types) => HeaderIsFound(timestamp, names, types, ms[0]);
    case Result(names, types, table) =>
      HeaderIsFound(timestamp, names, types, ms[0]);
      HeaderDescribesRows(timestamp, names, types, table);
  }

  lemma HeaderIsFound(timestamp: TimestampOid, names: seq<Text>, types: seq<LogicalType>, m: Message)
    requires |names| == |types| && HeaderOf(FieldsOf(timestamp, names, types), m)
    ensures HeaderFound(names, types, m)
  {
    hide FieldsOf, OidSize;
    var fields := FieldsOf(timestamp, names, types);
    ClientReadsHeader(timestamp, names, types);
    DescriptionIsHeader(fields);
    assert m.columns == Description(fields).columns;
  }

  /** End to end, for every start-up and every list of queries: the bytes of the
      reply decode, with nothing left over, to the start-up block and then, in
      order, what a client should find for each answer of the database, which
      may depend on all queries before. */
  lemma ClientReadsSession(timestamp: TimestampOid, database: (seq<Text>, Text) -> Answer, status: seq<(Text, Text)>,
                           start: Ask, qs: seq<Text>) returns (block: seq<Message>, parts: seq<seq<Message>>)
    requires IsStatusOrder(status)
    requires forall past: seq<Text>, text: Text {:trigger database(past, text)} ::
               AnswerTyped(database(past, text)) && AnswerFits(timestamp, database(past, text))
    requires start.AskStart? && AskFits(start) && forall i :: 0 <= i < |qs| ==> AskFits(AskQuery(qs[i]))
    ensures DecodeAll(ReplyBytes(DuckServer(timestamp, database, status), AskBytes(start) + QueriesBytes(qs)))
            == (block + Flatten(parts), [])
    ensures FiveSettings(status) && StartsUp(status, block) && |block| == 7
    ensures |parts| == |qs| && forall k :: 0 <= k < |qs| ==> AnswerFound(database(qs[..k], qs[k]), parts[k])
  {
    hide AskFits, AskBytes, DecodeAll, EncodeAll, WellBehaved, AnswerFound, AnswerTyped, AnswerFits, FiveSettings, StartsUp,
         OutcomeOf, IsStatusOrder, QueriesBytes, Replies, OutcomeFound, Ends, OutcomeAt;
    var server := DuckServer(timestamp, database, status);
    DuckServerIsWellBehaved(timestamp, database, status);
    block, parts := ClientReadsReplies(server, start, qs);
    DuckOutcomes(timestamp, database, status, qs);
    forall k | 0 <= k < |qs| ensures AnswerFound(database(qs[..k], qs[k]), parts[k]) {
      AnswerIsFound(timestamp, database(qs[..k], qs[k]), parts[k]);
    }
  }

  /** The extension raises no Fatal error, so every query reaches the database. */
  lemma DuckOutcomes(timestamp: TimestampOid, database: (seq<Text>, Text) -> Answer, status: seq<(Text, Text)>, qs: seq<Text>)
    requires forall past: seq<Text>, text: Text {:trigger database(past, text)} :: AnswerTyped(database(past, text))
    ensures var server := DuckServer(timestamp, database, status);
            forall k :: 0 <= k < |qs| ==>
              && OutcomeAt(server, [], qs, k) == OutcomeOf(timestamp, database(qs[..k], qs[k]))
              && !Ends(OutcomeAt(server, [], qs, k))
  {
    hide AnswerTyped, FieldsOf, RowsOf;
    forall k | 0 <= k < |qs| ensures [] + qs[..k] == qs[..k] {
    }
  }
}
