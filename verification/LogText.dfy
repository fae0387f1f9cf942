/** The query text as it is put in the log: quoted, then with its whitespace
    controls escaped. */
module LogText {
  import opened Bytes
  import opened Buffers

  const QUOTE: byte := '"' as int
  const BACKSLASH: byte := '\\' as int

  /** The letter that stands for a whitespace control. */
  function ControlLetter(c: byte): Option<byte> {
    if c == 12 then Some('f' as int)
    else if c == 10 then Some('n' as int)
    else if c == 13 then Some('r' as int)
    else if c == 9 then Some('t' as int)
    else if c == 11 then Some('v' as int)
    else None
  }

  function LetterControl(c: byte): Option<byte> {
    if c == 'f' as int then Some(12)
    else if c == 'n' as int then Some(10)
    else if c == 'r' as int then Some(13)
    else if c == 't' as int then Some(9)
    else if c == 'v' as int then Some(11)
    else None
  }

  function QuoteByte(c: byte): Text {
    if c == QUOTE || c == BACKSLASH then [BACKSLASH, c] else [c]
  }

  function QuoteBytes(s: Text): Text {
    if s == [] then [] else QuoteByte(s[0]) + QuoteBytes(s[1..])
  }

  /** std::quoted. */
  function Quoted(s: Text): Text {
    [QUOTE] + QuoteBytes(s) + [QUOTE]
  }

  function EscapeByte(c: byte): Text {
    match ControlLetter(c)
    case Some(letter) => [BACKSLASH, letter]
    case None => [c]
  }

  function EscapeSpace(s: Text): Text {
    if s == [] then [] else EscapeByte(s[0]) + EscapeSpace(s[1..])
  }

  lemma {:induction false} EscapeSpaceAppend(a: Text, b: Text)
    ensures EscapeSpace(a + b) == EscapeSpace(a) + EscapeSpace(b)
  {
    hide EscapeByte;
    if a == [] {
      assert a + b == b;
    } else {
      assert (a + b)[0] == a[0] && (a + b)[1..] == a[1..] + b;
      EscapeSpaceAppend(a[1..], b);
    }
  }

  lemma EscapeSpaceSnoc(s: Text, c: byte)
    ensures EscapeSpace(s + [c]) == EscapeSpace(s) + EscapeByte(c)
  {
    hide EscapeByte;
    EscapeSpaceAppend(s, [c]);
    assert [c][1..] == [];
    assert EscapeSpace([c]) == EscapeByte(c) + EscapeSpace([]) == EscapeByte(c);
  }

  method StringEscapeSpace(s: Text) returns (out: Text)
    ensures out == EscapeSpace(s)
  {
    hide EscapeSpace;
    EscapeNothing();
    out := [];
    var i := 0;
    while i < |s|
      invariant 0 <= i <= |s| && out == EscapeSpace(s[..i])
    {
      EscapeSpaceSnoc(s[..i], s[i]);
      assert s[..i + 1] == s[..i] + [s[i]];
      if s[i] == 12 {
        out := out + [BACKSLASH, 'f' as int];
      } else if s[i] == 10 {
        out := out + [BACKSLASH, 'n' as int];
      } else if s[i] == 13 {
        out := out + [BACKSLASH, 'r' as int];
      } else if s[i] == 9 {
        out := out + [BACKSLASH, 't' as int];
      } else if s[i] == 11 {
        out := out + [BACKSLASH, 'v' as int];
      } else {
        out := out + [s[i]];
      }
      i := i + 1;
    }
    assert s[..|s|] == s;
  }

  /** What process_message puts in the log for a query. */
  function Logged(query: Text): Text {
    EscapeSpace(Quoted(query))
  }

  // ------------------------------------------------------------------ reading it back

  /** Reads a quoted text up to its closing quote (34). A backslash (92) stands
      with the byte after it for a control, or for that byte. */
  function ReadQuoted(t: Text): Option<(Text, Text)>
    decreases |t|
  {
    if t == [] then None
    else if t[0] == 34 then Some(([], t[1..]))
    else if t[0] == 92 then
      if |t| < 2 then None
      else
        match ReadQuoted(t[2..])
        case None => None
        case Some((read, rest)) =>
          Some(([if LetterControl(t[1]).Some? then LetterControl(t[1]).value else t[1]] + read, rest))
    else
      match ReadQuoted(t[1..])
      case None => None
      case Some((read, rest)) => Some(([t[0]] + read, rest))
  }

  /** The query that a line of the log begins with, and the rest of the line. */
  function Unlogged(t: Text): Option<(Text, Text)> {
    if t == [] || t[0] != 34 then None else ReadQuoted(t[1..])
  }

  lemma LoggedByte(c: byte)
    ensures EscapeSpace(QuoteByte(c))
            == match ControlLetter(c)
               case Some(letter) => [BACKSLASH, letter]
               case None => QuoteByte(c)
  {
    assert EscapeSpace([c]) == EscapeByte(c) + EscapeSpace([]);
    if c == QUOTE || c == BACKSLASH {
      assert [BACKSLASH, c][1..] == [c];
      assert EscapeSpace([BACKSLASH, c]) == EscapeByte(BACKSLASH) + EscapeSpace([c]);
    }
  }

  lemma {:induction false} ReadLogged(s: Text, rest: Text)
    ensures ReadQuoted(EscapeSpace(QuoteBytes(s)) + [34] + rest) == Some((s, rest))
  {
    hide EscapeSpace, QuoteByte, ControlLetter, LetterControl, ReadQuoted;
    if s == [] {
      EscapeNothing();
      assert [] + [34] + rest == [34] + rest;
      ReadEnd(rest);
    } else {
      var c, later := EscapeSpace(QuoteByte(s[0])), EscapeSpace(QuoteBytes(s[1..]));
      EscapeSpaceAppend(QuoteByte(s[0]), QuoteBytes(s[1..]));
      LoggedByte(s[0]);
      ReadLogged(s[1..], rest);
      ReadByte(s[0], later + [34] + rest);
      assert c + later + [34] + rest == c + (later + [34] + rest);
      assert s == [s[0]] + s[1..];
    }
  }

  lemma ReadEnd(rest: Text)
    ensures ReadQuoted([34] + rest) == Some(([], rest))
  {
    assert ([34] + rest)[1..] == rest;
  }

  lemma EscapeNothing()
    ensures EscapeSpace([]) == []
  {
  }

  lemma ReadByte(c: byte, rest: Text)
    requires ReadQuoted(rest).Some?
    ensures ReadQuoted((match ControlLetter(c)
                        case Some(letter) => [BACKSLASH, letter]
                        case None => QuoteByte(c)) + rest)
            == Some(([c] + ReadQuoted(rest).value.0, ReadQuoted(rest).value.1))
  {
    match ControlLetter(c)
    case Some(letter) => assert ([BACKSLASH, letter] + rest)[2..] == rest;
    case None =>
      if c == QUOTE || c == BACKSLASH {
        assert ([BACKSLASH, c] + rest)[2..] == rest;
      } else {
        assert ([c] + rest)[1..] == rest;
      }
  }

  /** Quoting and then escaping loses nothing: every query can be read back,
      whatever follows it in the log, since its closing quote is found. */
  lemma LogRecoverable(query: Text, rest: Text)
    ensures Unlogged(Logged(query) + rest) == Some((query, rest))
    ensures Logged(query)[0] == 34 && Logged(query)[|Logged(query)| - 1] == 34
  {
    hide ReadQuoted, EscapeSpace, QuoteBytes;
    ReadLogged(query, rest);
    LoggedIs(query);
    assert (Logged(query) + rest)[1..] == EscapeSpace(QuoteBytes(query)) + [34] + rest;
  }

  lemma LoggedIs(query: Text)
    ensures Logged(query) == [34] + EscapeSpace(QuoteBytes(query)) + [34]
  {
    hide QuoteBytes;
    EscapeSpaceAppend([QUOTE] + QuoteBytes(query), [QUOTE]);
    EscapeSpaceAppend([QUOTE], QuoteBytes(query));
    assert EscapeSpace([QUOTE]) == [QUOTE] + EscapeSpace([]) == [QUOTE];
  }

  /** A query without quotes, backslashes and controls is logged as it is. */
  lemma PlainLogged(query: Text)
    requires forall c :: c in query ==> c != 34 && c != 92 && !IsControl(c)
    ensures Logged(query) == [34] + query + [34]
  {
    PlainQuoted(query);
    assert forall c :: c in Quoted(query) ==> !IsControl(c);
    PlainUnchanged(Quoted(query));
  }

  lemma {:induction false} PlainQuoted(query: Text)
    requires forall c :: c in query ==> c != 34 && c != 92
    ensures QuoteBytes(query) == query
  {
    if query != [] {
      assert query[0] in query && forall c :: c in query[1..] ==> c in query;
      PlainQuoted(query[1..]);
      assert query == [query[0]] + query[1..];
    }
  }

  predicate IsControl(c: byte) {
    c == 9 || c == 10 || c == 11 || c == 12 || c == 13
  }

  lemma {:induction false} EscapedHas(s: Text)
    ensures forall c :: c in EscapeSpace(s) ==> !IsControl(c) && (c == 0 ==> 0 in s)
  {
    if s != [] {
      EscapedHas(s[1..]);
    }
  }

  lemma {:induction false} QuotedHas(s: Text)
    ensures forall c :: c in QuoteBytes(s) ==> c == BACKSLASH || c in s
  {
    if s != [] {
      QuotedHas(s[1..]);
    }
  }

  /** The logged text of any query message holds none of the five controls and
      no NUL, so nothing is cut off when it is logged as a C string. */
  lemma LoggedIsPlain(body: seq<byte>)
    ensures forall c :: c in Logged(CString(body)) ==> !IsControl(c) && c != 0
  {
    var query := CString(body);
    QuotedHas(query);
    EscapedHas(Quoted(query));
    assert 0 !in query;
  }

  // ------------------------------------------------------------------ escaping alone

  /** A backslash and a letter that stands for a control, at position i. */
  predicate PairAt(s: Text, i: nat) {
    i + 1 < |s| && s[i] == 92 && LetterControl(s[i + 1]).Some?
  }

  predicate HasPair(s: Text) {
    exists i :: 0 <= i < |s| && PairAt(s, i)
  }

  predicate HasControl(s: Text) {
    exists i :: 0 <= i < |s| && IsControl(s[i])
  }

  ghost predicate Collides(s: Text) {
    exists t :: t != s && EscapeSpace(t) == EscapeSpace(s)
  }

  lemma {:induction false} PlainUnchanged(s: Text)
    requires !HasControl(s)
    ensures EscapeSpace(s) == s
  {
    if s != [] {
      assert forall i :: 0 <= i < |s[1..]| ==> s[1..][i] == s[i + 1];
      PlainUnchanged(s[1..]);
      assert !IsControl(s[0]);
      assert s == [s[0]] + s[1..];
    }
  }

  lemma EscapeMiddle(a: Text, middle: Text, b: Text)
    ensures EscapeSpace(a + middle + b) == EscapeSpace(a) + EscapeSpace(middle) + EscapeSpace(b)
  {
    EscapeSpaceAppend(a + middle, b);
    EscapeSpaceAppend(a, middle);
  }

  /** A control comes out like a backslash and its letter. */
  lemma EscapeControl(c: byte, letter: byte)
    requires ControlLetter(c) == Some(letter)
    ensures EscapeSpace([c]) == EscapeSpace([BACKSLASH, letter]) == [BACKSLASH, letter]
  {
    assert EscapeSpace([]) == [];
    assert [c][1..] == [] && [BACKSLASH, letter][1..] == [letter] && [letter][1..] == [];
    assert EscapeSpace([letter]) == [letter];
  }

  lemma ControlsAndLetters(c: byte)
    ensures IsControl(c) <==> ControlLetter(c).Some?
    ensures ControlLetter(c).Some? ==> LetterControl(ControlLetter(c).value) == Some(c)
    ensures LetterControl(c).Some? ==> ControlLetter(LetterControl(c).value) == Some(c)
  {
  }

  /** An escaped control leaves a pair. */
  lemma ControlLeavesPair(s: Text)
    requires HasControl(s)
    ensures HasPair(EscapeSpace(s))
  {
    hide EscapeSpace, ControlLetter, LetterControl, IsControl;
    var i :| 0 <= i < |s| && IsControl(s[i]);
    ControlsAndLetters(s[i]);
    var letter := ControlLetter(s[i]).value;
    EscapeControl(s[i], letter);
    assert s == s[..i] + [s[i]] + s[i + 1..];
    EscapeMiddle(s[..i], [s[i]], s[i + 1..]);
    assert PairAt(EscapeSpace(s), |EscapeSpace(s[..i])|);
  }

  /** What is replaced by something of another length that comes out alike. */
  lemma OtherMiddle(a: Text, x: Text, y: Text, b: Text)
    requires EscapeSpace(x) == EscapeSpace(y) && |x| != |y|
    ensures Collides(a + x + b)
  {
    hide EscapeSpace;
    EscapeMiddle(a, x, b);
    EscapeMiddle(a, y, b);
    assert |a + x + b| != |a + y + b|;
  }

  /** Escaping alone cannot always be undone. A text comes out like some other
      text exactly when it holds a control, or a backslash in front of a letter
      that stands for one. */
  lemma CollidesIff(s: Text)
    ensures Collides(s) <==> HasControl(s) || HasPair(s)
  {
    hide EscapeSpace, ControlLetter, LetterControl, IsControl;
    if HasControl(s) {
      var i :| 0 <= i < |s| && IsControl(s[i]);
      ControlsAndLetters(s[i]);
      var letter := ControlLetter(s[i]).value;
      EscapeControl(s[i], letter);
      OtherMiddle(s[..i], [s[i]], [BACKSLASH, letter], s[i + 1..]);
      assert s == s[..i] + [s[i]] + s[i + 1..];
    } else if HasPair(s) {
      var i :| 0 <= i < |s| && PairAt(s, i);
      ControlsAndLetters(s[i + 1]);
      var c := LetterControl(s[i + 1]).value;
      EscapeControl(c, s[i + 1]);
      OtherMiddle(s[..i], [BACKSLASH, s[i + 1]], [c], s[i + 2..]);
      assert s == s[..i] + [BACKSLASH, s[i + 1]] + s[i + 2..];
    } else {
      PlainUnchanged(s);
      forall t | EscapeSpace(t) == EscapeSpace(s) ensures t == s {
        if HasControl(t) {
          ControlLeavesPair(t);
        } else {
          PlainUnchanged(t);
        }
      }
    }
  }

  /** A newline, and a backslash followed by n. */
  lemma EscapeSpaceAmbiguous()
    ensures EscapeSpace([10]) == EscapeSpace([92, 110]) == [92, 110]
  {
    EscapeControl(10, 110);
  }

  /** The reader that undoes the escapes and takes every other byte as it is. */
  function UnescapeSpace(t: Text): Text {
    if t == [] then []
    else if PairAt(t, 0) then [LetterControl(t[1]).value] + UnescapeSpace(t[2..])
    else [t[0]] + UnescapeSpace(t[1..])
  }

  /** Nothing that it reads holds a pair. */
  lemma {:induction false} UnescapedHasNoPair(t: Text)
    ensures !HasPair(UnescapeSpace(t))
    ensures t != [] && LetterControl(UnescapeSpace(t)[0]).Some? ==> t[0] == UnescapeSpace(t)[0]
    decreases |t|
  {
    if t != [] {
      var rest := if PairAt(t, 0) then t[2..] else t[1..];
      UnescapedHasNoPair(rest);
      var u := UnescapeSpace(t);
      assert u[1..] == UnescapeSpace(rest);
      forall i | 0 <= i < |u| ensures !PairAt(u, i) {
        if i > 0 {
          assert PairAt(u, i) ==> PairAt(u[1..], i - 1);
        }
      }
    }
  }

  lemma {:induction false} UnescapePairless(s: Text)
    requires !HasPair(s)
    ensures UnescapeSpace(EscapeSpace(s)) == s
  {
    hide ControlLetter, UnescapeSpace;
    UnescapeNothing();
    if s != [] {
      var rest := EscapeSpace(s[1..]);
      assert forall i :: 0 <= i < |s[1..]| && PairAt(s[1..], i) ==> PairAt(s, i + 1);
      UnescapePairless(s[1..]);
      assert s == [s[0]] + s[1..];
      assert !PairAt(s, 0);
      if ControlLetter(s[0]).Some? {
        ReadEscape(s[0], rest);
      } else {
        FirstEscaped(s[1..]);
        ReadOther(s[0], rest);
      }
    }
  }

  lemma UnescapeNothing()
    ensures UnescapeSpace([]) == [] && EscapeSpace([]) == []
  {
  }

  lemma ReadEscape(c: byte, rest: Text)
    requires ControlLetter(c).Some?
    ensures UnescapeSpace(EscapeByte(c) + rest) == [c] + UnescapeSpace(rest)
  {
    hide UnescapeSpace;
    ReadPair(c, ControlLetter(c).value, rest);
  }

  lemma ReadPair(c: byte, letter: byte, rest: Text)
    requires LetterControl(letter) == Some(c)
    ensures UnescapeSpace([BACKSLASH, letter] + rest) == [c] + UnescapeSpace(rest)
  {
    assert ([BACKSLASH, letter] + rest)[2..] == rest;
  }

  lemma ReadOther(c: byte, rest: Text)
    requires !PairAt([c] + rest, 0)
    ensures UnescapeSpace([c] + rest) == [c] + UnescapeSpace(rest)
  {
    assert ([c] + rest)[1..] == rest;
  }

  /** An escaped text begins with a backslash, or as the text does. */
  lemma FirstEscaped(s: Text)
    ensures s == [] ==> EscapeSpace(s) == []
    ensures s != [] ==> EscapeSpace(s) != [] && (EscapeSpace(s)[0] == BACKSLASH || EscapeSpace(s)[0] == s[0])
  {
    hide ControlLetter;
  }

  /** That reader recovers exactly the texts without a pair: one of every class
      of texts that come out alike, since no two of them do. */
  lemma UnescapeSpaceIff(s: Text)
    ensures UnescapeSpace(EscapeSpace(s)) == s <==> !HasPair(s)
  {
    UnescapedHasNoPair(EscapeSpace(s));
    if !HasPair(s) {
      UnescapePairless(s);
    }
  }

  /** And every text comes out like the one that is read back from it. */
  lemma {:induction false} EscapeUnescaped(t: Text)
    requires !HasControl(t)
    ensures EscapeSpace(UnescapeSpace(t)) == t
    decreases |t|
  {
    if t != [] {
      assert !IsControl(t[0]);
      var rest := if PairAt(t, 0) then t[2..] else t[1..];
      assert forall i :: 0 <= i < |rest| ==> rest[i] == t[|t| - |rest| + i];
      EscapeUnescaped(rest);
      var u := UnescapeSpace(t);
      assert u[1..] == UnescapeSpace(rest);
      if PairAt(t, 0) {
        ControlsAndLetters(t[1]);
        assert t == [BACKSLASH, t[1]] + t[2..];
      } else {
        assert t == [t[0]] + t[1..];
      }
    }
  }
}
