/** The encoders of the source: they append to a buffer, field by field. */
module Encoders {
  import opened Bytes
  import opened Buffers
  import opened Messages

  datatype Field = Field(name: Text, oid: int)

  datatype Format = TextFormat | BinaryFormat

  function FormatCode(f: Format): int {
    match f
    case TextFormat => 0
    case BinaryFormat => 1
  }

  /** The size in bytes of a value of a type, negative when it varies. */
  function OidSize(oid: int): (size: int)
    ensures FitsSigned(2, size)
  {
    Pow256Values();
    if oid in {16, 18} then 1
    else if oid == 21 then 2
    else if oid in {23, 24, 26, 28, 29, 269, 325, 700, 1082, 2202, 2203, 2204, 2205, 2206, 2276, 2278, 2279, 2280,
                    2283, 2776, 3115, 3310, 3500, 3734, 3769} then 4
    else if oid in {27, 829} then 6
    else if oid in {20, 32, 701, 774, 790, 1083, 1114, 1184, 2281, 3220} then 8
    else if oid in {1033, 1266} then 12
    else if oid in {600, 1186, 2950} then 16
    else if oid in {628, 718} then 24
    else if oid in {601, 603} then 32
    else if oid == 19 then 64
    else if oid in {705, 2275} then -2
    else -1
  }

  /** What a RowDescription says of a field: the table, attribute and modifier
      attributes are constant. */
  function Describe(f: Field, format: Format): Column {
    Column(f.name, 0, 0, f.oid, OidSize(f.oid), -1, FormatCode(format))
  }

  function DescribeAll(fields: seq<Field>, format: Format): (columns: seq<Column>)
    ensures |columns| == |fields|
  {
    seq(|fields|, i requires 0 <= i < |fields| => Describe(fields[i], format))
  }

  ghost predicate FieldFits(f: Field) {
    NulFree(f.name) && FitsSigned(4, f.oid)
  }

  /** A description says everything about its field, so distinct field lists
      are described differently. */
  lemma DescribeAllInjective(fs: seq<Field>, gs: seq<Field>, format: Format)
    requires DescribeAll(fs, format) == DescribeAll(gs, format)
    ensures fs == gs
  {
    assert |fs| == |DescribeAll(fs, format)| == |gs|;
    forall i | 0 <= i < |fs| ensures fs[i] == gs[i] {
      assert DescribeAll(fs, format)[i] == DescribeAll(gs, format)[i];
    }
  }

  lemma DescribeFits(f: Field, format: Format)
    requires FieldFits(f)
    ensures ColumnFits(Describe(f, format))
  {
    Pow256Values();
  }

  method EncodeColumn(b: Buffer, f: Field, format: Format)
    modifies b`data
    ensures b.data == old(b.data) + ColumnBytes(Describe(f, format))
  {
    hide Num, OidSize;
    ghost var before := b.data;
    ghost var c := Describe(f, format);
    b.PutString(f.name);
    assert b.data == before + (c.name + [0]);
    b.PutNumeric(4, 0);
    Regroup(before, c.name + [0], Num(4, c.table));
    b.PutNumeric(2, 0);
    Regroup(before, c.name + [0] + Num(4, c.table), Num(2, c.attribute));
    b.PutNumeric(4, f.oid);
    ghost var sofar := c.name + [0] + Num(4, c.table) + Num(2, c.attribute);
    Regroup(before, sofar, Num(4, c.oid));
    b.PutNumeric(2, OidSize(f.oid));
    Regroup(before, sofar + Num(4, c.oid), Num(2, c.size));
    b.PutNumeric(4, -1);
    Regroup(before, sofar + Num(4, c.oid) + Num(2, c.size), Num(4, c.modifier));
    b.PutNumeric(2, FormatCode(format));
    Regroup(before, sofar + Num(4, c.oid) + Num(2, c.size) + Num(4, c.modifier), Num(2, c.format));
  }

  lemma {:induction false} ColumnsBytesSnoc(cs: seq<Column>, c: Column)
    ensures ColumnsBytes(cs + [c]) == ColumnsBytes(cs) + ColumnBytes(c)
  {
    hide ColumnBytes;
    if cs == [] {
      assert [c][1..] == [];
    } else {
      ColumnsBytesSnoc(cs[1..], c);
      assert (cs + [c])[1..] == cs[1..] + [c];
    }
  }

  method EncodeRowDescription(b: Buffer, fields: seq<Field>, format: Format)
    modifies b`data
    ensures b.data == old(b.data) + Body(RowDescription(DescribeAll(fields, format)))
  {
    hide ColumnBytes, Num, Describe;
    ghost var before := b.data;
    ghost var columns := DescribeAll(fields, format);
    b.PutNumeric(2, |fields|);
    var i := 0;
    while i < |fields|
      invariant 0 <= i <= |fields|
      invariant b.data == before + (Num(2, |fields|) + ColumnsBytes(columns[..i]))
    {
      ColumnsBytesSnoc(columns[..i], columns[i]);
      assert columns[..i + 1] == columns[..i] + [columns[i]];
      EncodeColumn(b, fields[i], format);
      i := i + 1;
    }
    assert columns[..|fields|] == columns;
  }

  method EncodeErrorResponse(b: Buffer, text: Text, severity: Severity, state: SqlState)
    modifies b`data
    ensures b.data == old(b.data) + Body(ErrorResponse(text, severity, state))
  {
    hide SeverityText, SqlStateCode, Coded;
    ghost var before := b.data;
    ghost var s, c, m := Coded('S' as int, SeverityText(severity)), Coded('C' as int, SqlStateCode(state)), Coded('M' as int, text);
    PutCoded(b, 'S' as int, SeverityText(severity));
    PutCoded(b, 'C' as int, SqlStateCode(state));
    Regroup(before, s, c);
    PutCoded(b, 'M' as int, text);
    Regroup(before, s + c, m);
    b.PutByte(0);
    Regroup(before, s + c + m, [0]);
  }

  method PutCoded(b: Buffer, code: byte, t: Text)
    modifies b`data
    ensures b.data == old(b.data) + Coded(code, t)
  {
    b.PutByte(code);
    b.PutString(t);
  }

  /** A message as the source builds it, before it is encoded. */
  datatype Outgoing =
    | Authenticated
    | Parameter(name: Text, setting: Text)
    | Ready(status: Status)
    | Rows(fields: seq<Field>, format: Format)
    | Complete(commandTag: Text)
    | Failure(text: Text, severity: Severity, state: SqlState)
  {
    function Message(): (m: Message)
      ensures !m.SslRefused?
    {
      match this
      case Authenticated => AuthenticationOk
      case Parameter(name, setting) => ParameterStatus(name, setting)
      case Ready(status) => ReadyForQuery(status)
      case Rows(fields, format) => RowDescription(DescribeAll(fields, format))
      case Complete(commandTag) => CommandComplete(commandTag)
      case Failure(text, severity, state) => ErrorResponse(text, severity, state)
    }
  }

  method EncodeBody(b: Buffer, o: Outgoing)
    modifies b`data
    ensures b.data == old(b.data) + Body(o.Message())
  {
    match o
    case Authenticated => b.PutNumeric(4, 0);
    case Parameter(name, setting) =>
      b.PutString(name);
      b.PutString(setting);
    case Ready(status) =>
      NumByte(StatusByte(status));
      b.PutNumeric(1, StatusByte(status));
    case Rows(fields, format) => EncodeRowDescription(b, fields, format);
    case Complete(commandTag) => b.PutString(commandTag);
    case Failure(text, severity, state) => EncodeErrorResponse(b, text, severity, state);
  }

  /** One byte is its own network order. */
  lemma NumByte(b: byte)
    ensures Num(1, b) == [b]
  {
    Pow256Values();
    assert BigEndian(0, 0) == [];
  }

  method PutFrame(b: Buffer, tag: byte, body: seq<byte>)
    modifies b`data
    ensures b.data == old(b.data) + Frame(tag, body)
  {
    hide Num;
    ghost var before := b.data;
    ghost var length := Num(4, |body| + 4);
    NumByte(tag);
    b.PutNumeric(1, tag);
    b.PutNumeric(4, |body| + 4);
    Regroup(before, [tag], length);
    b.PutBytes(body);
    Regroup(before, [tag] + length, body);
  }

  method EncodeFrame(b: Buffer, o: Outgoing)
    modifies b`data
    ensures b.data == old(b.data) + Encode(o.Message())
  {
    hide Body, Frame, Tag;
    var body := new Buffer([]);
    EncodeBody(body, o);
    assert body.data == Body(o.Message());
    PutFrame(b, Tag(o.Message()), body.data);
  }

  method EncodeBytes(o: Outgoing) returns (bytes: seq<byte>)
    ensures bytes == Encode(o.Message())
  {
    var b := new Buffer([]);
    EncodeFrame(b, o);
    bytes := b.TakeBytes();
  }
}
