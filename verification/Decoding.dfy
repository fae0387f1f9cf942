/** The client's decoder undoes the encoders, message by message and on whole streams. */
module Decoding {
  import opened Bytes
  import opened Messages

  // ------------------------------------------------------------------ the pieces of a body

  lemma TakeNumOf(w: nat, v: int, rest: seq<byte>)
    requires FitsSigned(w, v)
    ensures TakeNum(w, Num(w, v) + rest) == Some((v, rest))
  {
    SignedNum(w, v);
    var s := Num(w, v) + rest;
    assert s[..w] == Num(w, v) && s[w..] == rest;
  }

  lemma TakeTextOf(t: Text, rest: seq<byte>)
    requires NulFree(t)
    ensures TakeText(t + [0] + rest) == Some((t, rest))
  {
    IndexOfNulAt(t, rest);
    var s := t + [0] + rest;
    assert s[..|t|] == t && s[|t| + 1..] == rest;
  }

  lemma TakeColumnOf(c: Column, rest: seq<byte>)
    requires ColumnFits(c)
    ensures TakeColumn(ColumnBytes(c) + rest) == Some((c, rest))
  {
    var s7 := rest;
    var s6 := Num(2, c.format) + s7;
    var s5 := Num(4, c.modifier) + s6;
    var s4 := Num(2, c.size) + s5;
    var s3 := Num(4, c.oid) + s4;
    var s2 := Num(2, c.attribute) + s3;
    var s1 := Num(4, c.table) + s2;
    assert ColumnBytes(c) + rest == c.name + [0] + s1;
    TakeTextOf(c.name, s1);
    TakeNumOf(4, c.table, s2);
    TakeNumOf(2, c.attribute, s3);
    TakeNumOf(4, c.oid, s4);
    TakeNumOf(2, c.size, s5);
    TakeNumOf(4, c.modifier, s6);
    TakeNumOf(2, c.format, s7);
  }

  lemma {:induction false} TakeColumnsOf(cs: seq<Column>)
    requires forall i :: 0 <= i < |cs| ==> ColumnFits(cs[i])
    ensures TakeColumns(|cs|, ColumnsBytes(cs)) == Some(cs)
  {
    hide TakeColumn, ColumnBytes, ColumnFits;
    if cs != [] {
      TakeColumnOf(cs[0], ColumnsBytes(cs[1..]));
      TakeColumnsOf(cs[1..]);
      assert cs == [cs[0]] + cs[1..];
    }
  }

  lemma TakeCellOf(c: Cell, rest: seq<byte>)
    requires CellFits(c)
    ensures TakeCell(CellBytes(c) + rest) == Some((c, rest))
  {
    Pow256Values();
    match c
    case Null => TakeNumOf(4, -1, rest);
    case Data(bytes) =>
      TakeNumOf(4, |bytes|, bytes + rest);
      assert CellBytes(c) + rest == Num(4, |bytes|) + (bytes + rest);
      assert (bytes + rest)[..|bytes|] == bytes && (bytes + rest)[|bytes|..] == rest;
  }

  lemma {:induction false} TakeCellsOf(r: Row)
    requires forall i :: 0 <= i < |r| ==> CellFits(r[i])
    ensures TakeCells(|r|, CellsBytes(r)) == Some(r)
  {
    hide TakeCell, CellBytes, CellFits;
    if r != [] {
      TakeCellOf(r[0], CellsBytes(r[1..]));
      TakeCellsOf(r[1..]);
      assert r == [r[0]] + r[1..];
    }
  }

  lemma ReadSeverityOf(s: Severity)
    ensures ReadSeverity(SeverityText(s)) == Some(s)
  {
    SeverityTextInjective(s, Error);
    SeverityTextInjective(s, Fatal);
    assert Ascii("ERROR")[0] == 69 && Ascii("FATAL")[0] == 70;
  }

  lemma ReadStateOf(s: SqlState)
    ensures ReadState(SqlStateCode(s)) == Some(s)
  {
    SqlStateCodeShape(s);
  }

  lemma TakeErrorFieldOf(code: byte, t: Text, rest: seq<byte>, fields: seq<(byte, Text)>)
    requires code != 0 && NulFree(t) && TakeErrorFields(rest) == Some(fields)
    ensures TakeErrorFields(Coded(code, t) + rest) == Some([(code, t)] + fields)
  {
    TakeTextOf(t, rest);
    var s := Coded(code, t) + rest;
    assert s[1..] == t + [0] + rest;
  }

  function ErrorFields(text: Text, severity: Severity, state: SqlState): seq<(byte, Text)> {
    [('S' as int, SeverityText(severity)), ('C' as int, SqlStateCode(state)), ('M' as int, text)]
  }

  lemma NoErrorFields()
    ensures TakeErrorFields([0]) == Some([])
  {
  }

  /** The field list ends at the first zero code. */
  lemma TakeErrorFieldsOf(text: Text, severity: Severity, state: SqlState)
    requires NulFree(text)
    ensures TakeErrorFields(Body(ErrorResponse(text, severity, state))) == Some(ErrorFields(text, severity, state))
  {
    hide SeverityText, SqlStateCode, TakeErrorFields, Coded;
    SeverityTextInjective(severity, severity);
    SqlStateCodeShape(state);
    NoErrorFields();
    var s, c, m := Coded('S' as int, SeverityText(severity)), Coded('C' as int, SqlStateCode(state)), Coded('M' as int, text);
    assert s + c + m + [0] == s + (c + (m + [0]));
    var f2 := [('M' as int, text)];
    var f1 := [('C' as int, SqlStateCode(state))] + f2;
    assert f2 + [] == f2;
    TakeErrorFieldOf('M' as int, text, [0], []);
    TakeErrorFieldOf('C' as int, SqlStateCode(state), m + [0], f2);
    TakeErrorFieldOf('S' as int, SeverityText(severity), c + (m + [0]), f1);
    assert ErrorFields(text, severity, state) == [('S' as int, SeverityText(severity))] + f1;
  }

  /** Severity, SQLSTATE and message come back because both code tables are injective. */
  lemma ReadErrorOf(text: Text, severity: Severity, state: SqlState)
    ensures ReadError(ErrorFields(text, severity, state)) == Some(ErrorResponse(text, severity, state))
  {
    hide SeverityText, SqlStateCode, ReadSeverity, ReadState;
    ReadSeverityOf(severity);
    ReadStateOf(state);
    var f0 := ErrorFields(text, severity, state);
    var f2 := [('M' as int, text)];
    var f1 := [('C' as int, SqlStateCode(state))] + f2;
    assert f0[1..] == f1 && f1[1..] == f2;
    assert Lookup('C' as int, f0) == Lookup('C' as int, f1);
    assert Lookup('M' as int, f0) == Lookup('M' as int, f1) == Lookup('M' as int, f2);
  }

  lemma ReadBodyOf(m: Message)
    requires Fits(m) && !m.SslRefused?
    ensures ReadBody(Tag(m), Body(m)) == Some(m)
  {
    hide TakeNum, TakeText, TakeColumns, TakeCells, TakeErrorFields, ReadError;
    hide ColumnsBytes, CellsBytes, Num, SeverityText, SqlStateCode;
    Pow256Values();
    match m
    case AuthenticationOk => SignedNum(4, 0);
    case ParameterStatus(name, setting) =>
      TakeTextOf(name, setting + [0]);
      TakeTextOf(setting, []);
      assert setting + [0] == setting + [0] + [];
    case ReadyForQuery(_) =>
    case RowDescription(columns) =>
      TakeNumOf(2, |columns|, ColumnsBytes(columns));
      TakeColumnsOf(columns);
    case DataRow(cells) =>
      TakeNumOf(2, |cells|, CellsBytes(cells));
      TakeCellsOf(cells);
    case CommandComplete(t) =>
      TakeTextOf(t, []);
      assert t + [0] == t + [0] + [];
    case ErrorResponse(text, severity, state) =>
      TakeErrorFieldsOf(text, severity, state);
      ReadErrorOf(text, severity, state);
  }

  // ------------------------------------------------------------------ one message

  lemma FrameHeader(tag: byte, body: seq<byte>, s: seq<byte>)
    requires |body| + 4 <= INT32_MAX && |s| >= 5 && s[..5] == Frame(tag, body)[..5]
    ensures s[0] == tag && Signed(s[1..5]) == |body| + 4
  {
    Pow256Values();
    SignedNum(4, |body| + 4);
    assert Frame(tag, body)[..5] == [tag] + Num(4, |body| + 4);
    assert s[0] == s[..5][0];
    assert s[1..5] == s[..5][1..] == Num(4, |body| + 4);
  }

  lemma DecodeOneOf(m: Message, rest: seq<byte>)
    requires Fits(m)
    ensures DecodeOne(Encode(m) + rest) == Decoded(m, rest)
  {
    var s := Encode(m) + rest;
    assert s[|Encode(m)|..] == rest;
    if !m.SslRefused? {
      assert s[..5] == Encode(m)[..5];
      FrameHeader(Tag(m), Body(m), s);
      assert s[5..1 + (|Body(m)| + 4)] == Body(m);
      ReadBodyOf(m);
    }
  }

  /** No frame is recognised before its last byte. */
  lemma DecodeOneOfPart(m: Message, part: seq<byte>)
    requires Fits(m) && part < Encode(m)
    ensures DecodeOne(part) == NeedMore
  {
    if part != [] {
      assert part[0] == Encode(m)[0];
      if |part| >= 5 {
        assert part == Encode(m)[..|part|];
        assert part[..5] == Encode(m)[..5];
        FrameHeader(Tag(m), Body(m), part);
      }
    }
  }

  // ------------------------------------------------------------------ whole streams

  lemma DecodeAllCons(m: Message, tail: seq<byte>)
    requires Fits(m)
    ensures DecodeAll(Encode(m) + tail) == ([m] + DecodeAll(tail).0, DecodeAll(tail).1)
  {
    DecodeOneOf(m, tail);
  }

  /** Every frame boundary is found again, whatever the payloads contain, and
      what follows the stream is decoded as if it stood alone. */
  lemma {:induction false} DecodeAllOf(ms: seq<Message>, rest: seq<byte>)
    requires AllFit(ms)
    ensures DecodeAll(EncodeAll(ms) + rest) == (ms + DecodeAll(rest).0, DecodeAll(rest).1)
  {
    hide DecodeOne, Fits, Encode;
    if ms == [] {
      assert EncodeAll(ms) + rest == rest;
      assert ms + DecodeAll(rest).0 == DecodeAll(rest).0;
    } else {
      var tail := EncodeAll(ms[1..]) + rest;
      assert EncodeAll(ms) + rest == Encode(ms[0]) + tail;
      assert Fits(ms[0]);
      DecodeAllCons(ms[0], tail);
      DecodeAllOf(ms[1..], rest);
      assert ms + DecodeAll(rest).0 == [ms[0]] + (ms[1..] + DecodeAll(rest).0);
    }
  }

  /** The stream round trip, with nothing left over. */
  lemma StreamRoundTrip(ms: seq<Message>)
    requires AllFit(ms)
    ensures DecodeAll(EncodeAll(ms)) == (ms, [])
  {
    DecodeAllOf(ms, []);
    assert EncodeAll(ms) + [] == EncodeAll(ms) && ms + [] == ms;
  }

  lemma EncodeAllInjective(a: seq<Message>, b: seq<Message>)
    requires AllFit(a) && AllFit(b) && EncodeAll(a) == EncodeAll(b)
    ensures a == b
  {
    StreamRoundTrip(a);
    StreamRoundTrip(b);
  }

  /** Any cut of a stream, in the middle of a frame or not, decodes to the
      messages that lie wholly before the cut. */
  lemma {:induction false} DecodeCut(ms: seq<Message>, w: seq<byte>) returns (k: nat)
    requires AllFit(ms) && w <= EncodeAll(ms)
    ensures k <= |ms| && DecodeAll(w).0 == ms[..k]
    ensures w == EncodeAll(ms[..k]) + DecodeAll(w).1
    ensures k < |ms| ==> DecodeAll(w).1 < Encode(ms[k])
    ensures k == |ms| ==> DecodeAll(w).1 == []
    decreases |ms|, 1
  {
    if ms == [] {
      k := 0;
    } else {
      assert Fits(ms[0]);
      if |w| < |Encode(ms[0])| {
        k := 0;
        CutFirst(ms, w);
      } else {
        k := CutLater(ms, w);
      }
    }
  }

  lemma CutFirst(ms: seq<Message>, w: seq<byte>)
    requires ms != [] && Fits(ms[0]) && w <= EncodeAll(ms) && |w| < |Encode(ms[0])|
    ensures w < Encode(ms[0]) && DecodeAll(w) == ([], w)
  {
    hide Encode, Fits;
    assert w == EncodeAll(ms)[..|w|] == Encode(ms[0])[..|w|];
    DecodeOneOfPart(ms[0], w);
  }

  lemma CutLater(ms: seq<Message>, w: seq<byte>) returns (k: nat)
    requires ms != [] && AllFit(ms) && w <= EncodeAll(ms) && |w| >= |Encode(ms[0])|
    ensures k <= |ms| && DecodeAll(w).0 == ms[..k]
    ensures w == EncodeAll(ms[..k]) + DecodeAll(w).1
    ensures k < |ms| ==> DecodeAll(w).1 < Encode(ms[k])
    ensures k == |ms| ==> DecodeAll(w).1 == []
    decreases |ms|, 0
  {
    hide DecodeOne, DecodeAll, Encode, Fits;
    var w' := w[|Encode(ms[0])|..];
    PrefixBeyond(Encode(ms[0]), EncodeAll(ms[1..]), w);
    assert Fits(ms[0]);
    DecodeAllCons(ms[0], w');
    k := DecodeCut(ms[1..], w');
    assert ms[..k + 1][1..] == ms[1..][..k];
    assert ms[..k + 1] == [ms[0]] + ms[1..][..k];
    Regroup(Encode(ms[0]), EncodeAll(ms[1..][..k]), DecodeAll(w').1);
    k := k + 1;
  }
}
