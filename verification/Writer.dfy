/** The row writer: a DataRow frame is appended when a row is closed, which in
    the source is when the row object dies. */
module Writers {
  import opened Bytes
  import opened Buffers
  import opened Messages
  import opened Encoders
  import opened Decoding
  import Decimal

  /** What one write call of the source is given. The library renderings of a
      floating-point value are parameters. */
  datatype Value =
    | NullValue
    | StringValue(text: seq<byte>)
    | BoolValue(flag: bool)
    | IntValue(width: nat, number: int)
    | FloatValue(printed: seq<byte>, layout: seq<byte>)

  /** The cell that a write call puts on the wire. */
  function Render(f: Format, v: Value): Cell {
    match v
    case NullValue => Null
    case StringValue(text) => Data(text)
    case BoolValue(flag) =>
      if f.TextFormat? then Data(if flag then ['t' as int] else ['f' as int])
      else Data(Num(1, if flag then 1 else 0))
    case IntValue(width, number) => Data(if f.TextFormat? then Decimal.Print(number) else Num(width, number))
    case FloatValue(printed, layout) => Data(if f.TextFormat? then printed else layout)
  }

  /** The arguments that the types of the write calls admit. In text, the
      rendering of a floating-point value has to fit the scratch buffer of 256
      bytes with its terminator; that of an integer always does. */
  ghost predicate Writable(f: Format, v: Value) {
    match v
    case IntValue(width, n) => IntWidth(width) && FitsSigned(width, n)
    case FloatValue(printed, _) => f.TextFormat? ==> |printed| <= 255
    case _ => true
  }

  predicate IntWidth(w: nat) {
    w == 2 || w == 4 || w == 8
  }

  /** The length-prefixed cell of an integer, as a client takes it off the row,
      holds the number again: over the whole signed range, in both formats. In
      text it has at most 6, 11 or 20 characters. */
  lemma IntCellRoundTrip(f: Format, w: nat, n: int, rest: seq<byte>)
    requires IntWidth(w) && FitsSigned(w, n)
    ensures var cell := Render(f, IntValue(w, n));
            && TakeCell(CellBytes(cell) + rest) == Some((cell, rest))
            && match f
               case TextFormat =>
                 && Decimal.Parse(cell.bytes) == Some(n)
                 && |cell.bytes| <= if w == 2 then 6 else if w == 4 then 11 else 20
               case BinaryFormat => |cell.bytes| == w && Signed(cell.bytes) == n
  {
    hide Decimal.Print, Decimal.Parse, Num, TakeCell, CellBytes;
    Decimal.ParsePrint(n);
    Decimal.PrintLength(n);
    SignedNum(w, n);
    TakeCellOf(Render(f, IntValue(w, n)), rest);
  }

  /** A client finds a null apart from any string; a truth value as the letter t
      (116) or f (102), or as the byte 1 or 0; a string as it is, and a
      floating-point value as its text or its layout. */
  lemma RenderDistinguishes(f: Format, text: seq<byte>, printed: seq<byte>, layout: seq<byte>)
    ensures Render(f, NullValue) == Null && Render(f, StringValue(text)) == Data(text)
    ensures Render(TextFormat, BoolValue(true)) == Data([116]) && Render(TextFormat, BoolValue(false)) == Data([102])
    ensures Render(BinaryFormat, BoolValue(true)) == Data([1]) && Render(BinaryFormat, BoolValue(false)) == Data([0])
    ensures Render(TextFormat, FloatValue(printed, layout)) == Data(printed)
    ensures Render(BinaryFormat, FloatValue(printed, layout)) == Data(layout)
  {
    NumByte(0);
    NumByte(1);
  }

  function AsMessages(rows: seq<Row>): (ms: seq<Message>)
    ensures |ms| == |rows|
  {
    seq(|rows|, i requires 0 <= i < |rows| => DataRow(rows[i]))
  }

  lemma AsMessagesSnoc(rows: seq<Row>, row: Row)
    ensures AsMessages(rows + [row]) == AsMessages(rows) + [DataRow(row)]
  {
  }

  lemma {:induction false} CellsBytesSnoc(r: Row, c: Cell)
    ensures CellsBytes(r + [c]) == CellsBytes(r) + CellBytes(c)
  {
    hide CellBytes;
    if r == [] {
      assert [c][1..] == [];
    } else {
      CellsBytesSnoc(r[1..], c);
      assert (r + [c])[1..] == r[1..] + [c];
    }
  }

  class Writer {
    const format: Format
    const numCols: nat
    const data: Buffer
    var numRows: nat
    ghost var closed: seq<Row>
    ghost var open: set<RowWriter>

    /** The bytes are exactly the frames of the closed rows, in closing order,
        and the count covers the rows that are still open. */
    ghost predicate Valid()
      reads this, data
    {
      && data.data == EncodeAll(AsMessages(closed))
      && numRows == |closed| + |open|
    }

    constructor (numCols: nat, format: Format)
      ensures Valid() && closed == [] && open == {} && fresh(data)
      ensures this.format == format && this.numCols == numCols
    {
      this.numCols, this.format := numCols, format;
      data := new Buffer([]);
      numRows, closed, open := 0, [], {};
      new;
      assert AsMessages([]) == [];
    }

    method AddRow() returns (row: RowWriter)
      requires Valid()
      modifies this`numRows, this`open
      ensures Valid() && closed == old(closed)
      ensures fresh(row) && fresh(row.row) && row.Valid() && row.writer == this && row.cells == []
      ensures open == old(open) + {row} && numRows == old(numRows) + 1
    {
      row := new RowWriter(this);
      numRows := numRows + 1;
      open := open + {row};
    }

    method Encode(b: Buffer)
      requires Valid() && b != data
      modifies b`data
      ensures b.data == old(b.data) + EncodeAll(AsMessages(closed))
    {
      b.PutBytes(data.data);
    }
  }

  class RowWriter {
    const writer: Writer
    const row: Buffer
    var currentCol: nat
    ghost var cells: Row

    ghost predicate Valid()
      reads this, row
    {
      row != writer.data && row.pos == 0 && row.data == CellsBytes(cells) && currentCol == |cells|
    }

    constructor (writer: Writer)
      ensures Valid() && this.writer == writer && fresh(row) && cells == []
    {
      this.writer := writer;
      row := new Buffer([]);
      currentCol, cells := 0, [];
    }

    /** What remains to be shown once a write has put its bytes. */
    lemma Wrote(before: Row, c: Cell)
      requires cells == before + [c] && row.data == CellsBytes(before) + CellBytes(c)
      requires row != writer.data && row.pos == 0 && currentCol == |before| + 1
      ensures Valid()
    {
      CellsBytesSnoc(before, c);
    }

    method WriteValue(bytes: seq<byte>)
      requires Valid()
      modifies this`currentCol, this`cells, row`data
      ensures Valid() && cells == old(cells) + [Data(bytes)]
    {
      hide CellsBytes, Num;
      ghost var before := row.data;
      currentCol := currentCol + 1;
      row.PutNumeric(4, |bytes|);
      row.PutBytes(bytes);
      Regroup(before, Num(4, |bytes|), bytes);
      cells := cells + [Data(bytes)];
      Wrote(old(cells), Data(bytes));
    }

    method WriteNull()
      requires Valid()
      modifies this`currentCol, this`cells, row`data
      ensures Valid() && cells == old(cells) + [Render(writer.format, NullValue)]
    {
      hide CellsBytes, Num;
      currentCol := currentCol + 1;
      row.PutNumeric(4, -1);
      cells := cells + [Null];
      Wrote(old(cells), Null);
    }

    method WriteString(text: seq<byte>)
      requires Valid()
      modifies this`currentCol, this`cells, row`data
      ensures Valid() && cells == old(cells) + [Render(writer.format, StringValue(text))]
    {
      WriteValue(text);
    }

    /** The shared tail of the numeric writes: a counted text or the fixed
        layout of the type. */
    method WriteNumeric(format: Format, printed: seq<byte>, layout: seq<byte>)
      requires format.TextFormat? ==> |printed| <= 255
      modifies row`data
      ensures row.data == old(row.data) + CellBytes(Data(if format.TextFormat? then printed else layout))
    {
      hide Num;
      ghost var before := row.data;
      match format {
        case BinaryFormat =>
          row.PutNumeric(4, |layout|);
          row.PutBytes(layout);
          Regroup(before, Num(4, |layout|), layout);
        case TextFormat =>
          var buf := new byte[256](_ => 0);
          PrintInto(buf, printed);
          row.PutNumeric(4, |printed|);
          row.PutBytes(buf[..|printed|]);
          Regroup(before, Num(4, |printed|), printed);
      }
    }

    /** sprintf: the text and its terminator. */
    method PrintInto(buf: array<byte>, printed: seq<byte>)
      requires |printed| < buf.Length
      modifies buf
      ensures buf[..|printed|] == printed && buf[|printed|] == 0
    {
      for i := 0 to |printed|
        invariant buf[..i] == printed[..i]
      {
        buf[i] := printed[i];
      }
      buf[|printed|] := 0;
      assert printed[..|printed|] == printed;
    }

    method WriteBool(flag: bool)
      requires Valid()
      modifies this`currentCol, this`cells, row`data
      ensures Valid() && cells == old(cells) + [Render(writer.format, BoolValue(flag))]
    {
      hide CellsBytes, CellBytes, Num;
      match writer.format {
        case TextFormat =>
          WriteValue(if flag then ['t' as int] else ['f' as int]);
        case BinaryFormat =>
          currentCol := currentCol + 1;
          WriteNumeric(BinaryFormat, [], Num(1, if flag then 1 else 0));
          cells := cells + [Render(writer.format, BoolValue(flag))];
          Wrote(old(cells), Render(writer.format, BoolValue(flag)));
      }
    }

    /** write_int2, write_int4 and write_int8, by the width of the type. */
    method WriteInt(width: nat, n: int)
      requires Valid() && Writable(writer.format, IntValue(width, n))
      modifies this`currentCol, this`cells, row`data
      ensures Valid() && cells == old(cells) + [Render(writer.format, IntValue(width, n))]
    {
      hide CellsBytes, CellBytes, Num, Decimal.Print;
      currentCol := currentCol + 1;
      Decimal.PrintLength(n);
      WriteNumeric(writer.format, Decimal.Print(n), Num(width, n));
      cells := cells + [Render(writer.format, IntValue(width, n))];
      Wrote(old(cells), Render(writer.format, IntValue(width, n)));
    }

    /** write_float4 and write_float8. */
    method WriteFloat(printed: seq<byte>, layout: seq<byte>)
      requires Valid() && Writable(writer.format, FloatValue(printed, layout))
      modifies this`currentCol, this`cells, row`data
      ensures Valid() && cells == old(cells) + [Render(writer.format, FloatValue(printed, layout))]
    {
      hide CellsBytes, CellBytes, Num;
      currentCol := currentCol + 1;
      WriteNumeric(writer.format, printed, layout);
      cells := cells + [Render(writer.format, FloatValue(printed, layout))];
      Wrote(old(cells), Render(writer.format, FloatValue(printed, layout)));
    }

    method Write(v: Value)
      requires Valid() && Writable(writer.format, v)
      modifies this`currentCol, this`cells, row`data
      ensures Valid() && cells == old(cells) + [Render(writer.format, v)]
    {
      match v
      case NullValue => WriteNull();
      case StringValue(text) => WriteString(text);
      case BoolValue(flag) => WriteBool(flag);
      case IntValue(width, n) => WriteInt(width, n);
      case FloatValue(printed, layout) => WriteFloat(printed, layout);
    }

    /** The destructor. */
    method Close()
      requires Valid() && writer.Valid() && this in writer.open
      modifies writer.data`data, writer`closed, writer`open
      ensures writer.Valid() && Valid()
      ensures writer.closed == old(writer.closed) + [cells] && writer.open == old(writer.open) - {this}
    {
      hide CellsBytes, Num, Encode;
      ghost var before := writer.data.data;
      ghost var count := Num(2, |cells|);
      ghost var tag: byte := 'D' as int;
      NumByte(tag);
      writer.data.PutNumeric(1, 'D' as int);
      writer.data.PutNumeric(4, row.Size() + 6);
      writer.data.PutNumeric(2, currentCol);
      writer.data.PutBytes(row.data);
      RowFrame(before, cells);
      assert writer.data.data == before + Encode(DataRow(cells));
      writer.closed := writer.closed + [cells];
      writer.open := writer.open - {this};
      AsMessagesSnoc(old(writer.closed), cells);
      EncodeAllAppend(AsMessages(old(writer.closed)), [DataRow(cells)]);
      EncodeAllOne(DataRow(cells));
      assert |writer.open| == |old(writer.open)| - 1;
    }
  }

  lemma EncodeAllOne(m: Message)
    ensures EncodeAll([m]) == Encode(m)
  {
    hide Encode;
    assert EncodeAll([]) == [];
    assert [m][1..] == [];
  }

  lemma RowFrame(before: seq<byte>, cells: Row)
    ensures before + ['D' as int] + Num(4, |CellsBytes(cells)| + 6) + Num(2, |cells|) + CellsBytes(cells)
            == before + Encode(DataRow(cells))
  {
    hide CellsBytes, Num;
    var t: seq<byte>, l, n, c := ['D' as int], Num(4, |CellsBytes(cells)| + 6), Num(2, |cells|), CellsBytes(cells);
    assert Encode(DataRow(cells)) == t + l + (n + c);
    Regroup(before, t, l);
    Regroup(before + (t + l), n, c);
    Regroup(before, t + l, n + c);
  }
}
