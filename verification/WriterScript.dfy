/** Any interleaving of opening rows, writing to open rows and closing them. */
module WriterScripts {
  import opened Bytes
  import opened Buffers
  import opened Messages
  import opened Encoders
  import opened Decoding
  import opened Writers

  /** Rows are named by the order in which they were opened. */
  datatype Op = Open | Write(row: nat, value: Value) | Close(row: nat)

  type Script = seq<Op>

  // ------------------------------------------------------------------ what a script means, read off its history

  function Opened(ops: Script): nat {
    if ops == [] then 0
    else Opened(ops[..|ops| - 1]) + if ops[|ops| - 1].Open? then 1 else 0
  }

  predicate IsClosed(ops: Script, k: nat) {
    exists i :: 0 <= i < |ops| && ops[i] == Close(k)
  }

  /** The cells written to row k, in order. */
  function WrittenTo(ops: Script, k: nat, f: Format): Row {
    if ops == [] then []
    else
      var before, op := WrittenTo(ops[..|ops| - 1], k, f), ops[|ops| - 1];
      if op.Write? && op.row == k then before + [Render(f, op.value)] else before
  }

  /** The closed rows in closing order, each with what it held when it was closed. */
  function ClosedRows(ops: Script, f: Format): seq<Row> {
    if ops == [] then []
    else
      var front, op := ops[..|ops| - 1], ops[|ops| - 1];
      if op.Close? then ClosedRows(front, f) + [WrittenTo(front, op.row, f)] else ClosedRows(front, f)
  }

  /** A row is written to and closed only while it is open. */
  predicate Lawful(ops: Script) {
    forall i :: 0 <= i < |ops| ==> match ops[i]
      case Open => true
      case Write(k, _) => k < Opened(ops[..i]) && !IsClosed(ops[..i], k)
      case Close(k) => k < Opened(ops[..i]) && !IsClosed(ops[..i], k)
  }

  /** Every value written is one that the write calls take. */
  ghost predicate AllWritable(ops: Script, f: Format) {
    forall i :: 0 <= i < |ops| && ops[i].Write? ==> Writable(f, ops[i].value)
  }

  // ------------------------------------------------------------------ running a script on the objects

  /** The objects agree with the history. */
  ghost predicate Agrees(w: Writer, handles: seq<RowWriter>, ops: Script)
    reads w, w.data, handles, set h | h in handles :: h.row
  {
    && w.Valid()
    && |handles| == Opened(ops) == w.numRows
    && w.closed == ClosedRows(ops, w.format)
    && (forall j, k :: 0 <= j < k < |handles| ==> handles[j] != handles[k] && handles[j].row != handles[k].row)
    && (forall k :: 0 <= k < |handles| ==> handles[k].writer == w && handles[k].row != w.data)
    && (forall k :: 0 <= k < |handles| && !IsClosed(ops, k) ==>
          && handles[k] in w.open && handles[k].Valid()
          && handles[k].cells == WrittenTo(ops, k, w.format))
    && (forall h :: h in w.open ==> exists k :: 0 <= k < |handles| && handles[k] == h)
  }

  lemma Snoc(ops: Script, op: Op, f: Format)
    ensures Opened(ops + [op]) == Opened(ops) + if op.Open? then 1 else 0
    ensures forall k: nat :: IsClosed(ops + [op], k) <==> IsClosed(ops, k) || op == Close(k)
    ensures forall k: nat :: WrittenTo(ops + [op], k, f)
              == WrittenTo(ops, k, f) + if op.Write? && op.row == k then [Render(f, op.value)] else []
    ensures ClosedRows(ops + [op], f)
            == ClosedRows(ops, f) + if op.Close? then [WrittenTo(ops, op.row, f)] else []
  {
    hide Render;
    var all := ops + [op];
    assert all[..|all| - 1] == ops && all[|all| - 1] == op;
    forall k: nat ensures IsClosed(all, k) <==> IsClosed(ops, k) || op == Close(k) {
      if IsClosed(ops, k) {
        var i :| 0 <= i < |ops| && ops[i] == Close(k);
        assert all[i] == Close(k);
      }
    }
  }

  lemma NothingWritten(ops: Script, k: nat, f: Format)
    requires Lawful(ops) && k >= Opened(ops)
    ensures WrittenTo(ops, k, f) == [] && !IsClosed(ops, k)
    decreases |ops|
  {
    hide Render, ClosedRows;
    if ops != [] {
      var front := ops[..|ops| - 1];
      LawfulPrefix(ops, |front|);
      NothingWritten(front, k, f);
      Snoc(front, ops[|ops| - 1], f);
      assert ops == front + [ops[|ops| - 1]];
    }
  }

  /** What AddRow leaves to be shown. */
  lemma AgreesAfterOpen(w: Writer, handles: seq<RowWriter>, h: RowWriter, was: set<RowWriter>, ops: Script)
    requires w.Valid() && h.Valid() && h.writer == w && h.row != w.data && h.cells == []
    requires |handles| == Opened(ops) && Lawful(ops) && w.numRows == |handles| + 1
    requires w.closed == ClosedRows(ops, w.format) && w.open == was + {h}
    requires forall j, k :: 0 <= j < k < |handles| ==> handles[j] != handles[k] && handles[j].row != handles[k].row
    requires forall k :: 0 <= k < |handles| ==>
               handles[k].writer == w && handles[k].row != w.data && handles[k] != h && handles[k].row != h.row
    requires forall k :: 0 <= k < |handles| && !IsClosed(ops, k) ==>
               && handles[k] in was && handles[k].Valid()
               && handles[k].cells == WrittenTo(ops, k, w.format)
    requires forall g :: g in was ==> exists k :: 0 <= k < |handles| && handles[k] == g
    ensures Agrees(w, handles + [h], ops + [Open])
  {
    hide ClosedRows, WrittenTo, Opened, IsClosed, Lawful, Writer.Valid, RowWriter.Valid, Render;
    Snoc(ops, Open, w.format);
    NothingWritten(ops, |handles|, w.format);
    var all := handles + [h];
    assert forall k :: 0 <= k < |handles| ==> all[k] == handles[k];
    assert all[|handles|] == h;
    forall g | g in w.open ensures exists k :: 0 <= k < |all| && all[k] == g {
      if g != h {
        var k :| 0 <= k < |handles| && handles[k] == g;
        assert all[k] == g;
      }
    }
  }

  method OpenRow(w: Writer, handles: seq<RowWriter>, ghost ops: Script) returns (handles': seq<RowWriter>)
    requires Agrees(w, handles, ops) && Lawful(ops)
    modifies w
    ensures Agrees(w, handles', ops + [Open])
    ensures forall h :: h in handles' ==> h in handles || (fresh(h) && fresh(h.row))
  {
    hide ClosedRows, WrittenTo, Opened, IsClosed, Lawful, Writer.Valid, RowWriter.Valid, Render;
    ghost var was := w.open;
    var h := w.AddRow();
    handles' := handles + [h];
    AgreesAfterOpen(w, handles, h, was, ops);
  }

  method WriteRow(w: Writer, handles: seq<RowWriter>, k: nat, v: Value, ghost ops: Script)
    requires Agrees(w, handles, ops) && k < |handles| && !IsClosed(ops, k) && Writable(w.format, v)
    modifies handles[k], handles[k].row
    ensures Agrees(w, handles, ops + [Op.Write(k, v)])
  {
    hide ClosedRows, WrittenTo, Opened, IsClosed, Writer.Valid, RowWriter.Valid, Render;
    Snoc(ops, Op.Write(k, v), w.format);
    handles[k].Write(v);
  }

  method CloseRow(w: Writer, handles: seq<RowWriter>, k: nat, ghost ops: Script)
    requires Agrees(w, handles, ops) && k < |handles| && !IsClosed(ops, k)
    modifies w, w.data
    ensures Agrees(w, handles, ops + [Op.Close(k)])
  {
    hide ClosedRows, WrittenTo, Opened, IsClosed, Writer.Valid, RowWriter.Valid, Render;
    Snoc(ops, Op.Close(k), w.format);
    handles[k].Close();
  }

  method Step(w: Writer, handles: seq<RowWriter>, op: Op, ghost ops: Script) returns (handles': seq<RowWriter>)
    requires Agrees(w, handles, ops) && Lawful(ops) && Lawful(ops + [op])
    requires op.Write? ==> Writable(w.format, op.value)
    modifies w, w.data, handles, set h | h in handles :: h.row
    ensures Agrees(w, handles', ops + [op])
    ensures forall h :: h in handles' ==> h in handles || (fresh(h) && fresh(h.row))
  {
    assert (ops + [op])[|ops|] == op && (ops + [op])[..|ops|] == ops;
    hide ClosedRows, WrittenTo, IsClosed, Writer.Valid, RowWriter.Valid, Render;
    handles' := handles;
    match op
    case Open => handles' := OpenRow(w, handles, ops);
    case Write(k, v) => WriteRow(w, handles, k, v, ops);
    case Close(k) => CloseRow(w, handles, k, ops);
  }

  /** Whatever the order of operations, the bytes decode to one DataRow per
      closed row, in closing order, holding exactly the cells written to it;
      the row count is the number of rows opened. */
  method Run(ops: Script, format: Format, numCols: nat) returns (bytes: seq<byte>, numRows: nat)
    requires Lawful(ops) && AllWritable(ops, format)
    ensures numRows == Opened(ops)
    ensures bytes == EncodeAll(AsMessages(ClosedRows(ops, format)))
    ensures AllFit(AsMessages(ClosedRows(ops, format))) ==>
              DecodeAll(bytes) == (AsMessages(ClosedRows(ops, format)), [])
  {
    hide Lawful, WrittenTo, IsClosed, Writer.Valid, RowWriter.Valid;
    var w := new Writer(numCols, format);
    var handles: seq<RowWriter> := [];
    var i := 0;
    while i < |ops|
      invariant 0 <= i <= |ops|
      invariant fresh(w) && fresh(w.data) && w.format == format
      invariant forall h :: h in handles ==> fresh(h) && fresh(h.row)
      invariant Agrees(w, handles, ops[..i])
    {
      assert ops[..i + 1] == ops[..i] + [ops[i]];
      LawfulPrefix(ops, i);
      LawfulPrefix(ops, i + 1);
      handles := Step(w, handles, ops[i], ops[..i]);
      i := i + 1;
    }
    assert ops[..|ops|] == ops;
    var b := new Buffer([]);
    w.Encode(b);
    bytes := b.TakeBytes();
    numRows := w.numRows;
    hide Fits;
    if AllFit(AsMessages(ClosedRows(ops, format))) {
      StreamRoundTrip(AsMessages(ClosedRows(ops, format)));
    }
  }

  lemma LawfulPrefix(ops: Script, i: nat)
    requires Lawful(ops) && i <= |ops|
    ensures Lawful(ops[..i])
  {
    assert forall j :: 0 <= j < i ==> ops[..i][..j] == ops[..j];
  }

  /** The rows that are open after a script. */
  function OpenRows(ops: Script): set<nat> {
    set k: nat | k < Opened(ops) && !IsClosed(ops, k)
  }

  lemma OpenRowsSnoc(ops: Script, op: Op, f: Format)
    requires Lawful(ops + [op]) && Lawful(ops)
    ensures |OpenRows(ops + [op])|
            == |OpenRows(ops)| + (if op.Open? then 1 else 0) - (if op.Close? then 1 else 0)
  {
    hide Render, Opened, IsClosed, WrittenTo, ClosedRows;
    assert (ops + [op])[|ops|] == op && (ops + [op])[..|ops|] == ops;
    Snoc(ops, op, f);
    match op
    case Open =>
      NothingWritten(ops, Opened(ops), f);
      assert OpenRows(ops + [op]) == OpenRows(ops) + {Opened(ops)};
    case Write(_, _) => assert OpenRows(ops + [op]) == OpenRows(ops);
    case Close(k) =>
      assert k in OpenRows(ops);
      assert OpenRows(ops + [op]) == OpenRows(ops) - {k};
  }

  /** Closed and open rows make up all rows: what num_rows counts. */
  lemma {:induction false} OpenAndClosed(ops: Script, f: Format)
    requires Lawful(ops)
    ensures Opened(ops) == |ClosedRows(ops, f)| + |OpenRows(ops)|
  {
    hide Render, IsClosed, WrittenTo, Lawful, OpenRows;
    if ops == [] {
      NoRows();
    } else {
      var front, op := ops[..|ops| - 1], ops[|ops| - 1];
      LawfulPrefix(ops, |front|);
      OpenAndClosed(front, f);
      assert ops == front + [op];
      OpenRowsSnoc(front, op, f);
    }
  }

  lemma NoRows()
    ensures OpenRows([]) == {}
  {
  }
}
