/** The untagged messages of the start-up phase (section 53.2.1 of the
    PostgreSQL 14 documentation) and the scanner for their parameters. */
module Startup {
  import opened Bytes
  import opened Buffers

  const SSL_MAJOR := 1234
  const SSL_MINOR := 5679

  const USER := Ascii("user")
  const DATABASE := Ascii("database")
  const OPTIONS := Ascii("options")

  datatype Params = Params(user: Text, database: Text, options: Text)

  const NO_PARAMS := Params([], [], [])

  datatype Request = SslRequest | StartupRequest(major: int, minor: int, params: Params)

  // ------------------------------------------------------------------ the simple reading

  /** The NUL-terminated segments of s, in order; an unterminated tail is dropped. */
  function Segments(s: seq<byte>): seq<Text>
    decreases |s|
  {
    var i := IndexOfNul(s);
    if i == |s| then [] else [s[..i]] + Segments(s[i + 1..])
  }

  function Assign(p: Params, key: Text, value: Text): Params {
    if key == USER then p.(user := value)
    else if key == DATABASE then p.(database := value)
    else if key == OPTIONS then p.(options := value)
    else p
  }

  /** The segments taken in pairs, in order; an odd last one is ignored. */
  function AssignPairs(p: Params, segments: seq<Text>): Params
    decreases |segments|
  {
    if |segments| < 2 then p
    else AssignPairs(Assign(p, segments[0], segments[1]), segments[2..])
  }

  function ReadRequest(payload: seq<byte>): Request
    requires |payload| >= 4
  {
    var major, minor := Signed(payload[..2]), Signed(payload[2..4]);
    if major == SSL_MAJOR && minor == SSL_MINOR then SslRequest
    else StartupRequest(major, minor, AssignPairs(NO_PARAMS, Segments(payload[4..])))
  }

  // ------------------------------------------------------------------ lemmas about segments

  lemma SegmentsCons(t: Text, rest: seq<byte>)
    requires NulFree(t)
    ensures Segments(t + [0] + rest) == [t] + Segments(rest)
  {
    IndexOfNulAt(t, rest);
    var s := t + [0] + rest;
    assert s[..|t|] == t && s[|t| + 1..] == rest;
  }

  /** A terminated prefix is segmented on its own. */
  lemma {:induction false} SegmentsAppend(a: seq<byte>, b: seq<byte>)
    requires a == [] || a[|a| - 1] == 0
    ensures Segments(a + b) == Segments(a) + Segments(b)
    decreases |a|
  {
    hide IndexOfNul, Segments;
    SegmentsOne([]);
    if a == [] {
      assert a + b == b;
    } else {
      var i := IndexOfNul(a);
      var t, a' := a[..i], a[i + 1..];
      assert a == t + [0] + a';
      assert a' != [] ==> a'[|a'| - 1] == a[|a| - 1];
      assert a + b == t + [0] + (a' + b);
      SegmentsCons(t, a');
      SegmentsCons(t, a' + b);
      SegmentsAppend(a', b);
    }
  }

  lemma SegmentsOne(t: Text)
    requires NulFree(t)
    ensures Segments(t + [0]) == [t] && Segments(t) == []
  {
    IndexOfNulAt(t, []);
    assert t + [0] + [] == t + [0];
    assert (t + [0])[|t| + 1..] == [];
    assert Segments([]) == [];
  }

  lemma {:induction false} AssignPairsSnoc(p: Params, segments: seq<Text>, key: Text, value: Text)
    requires |segments| % 2 == 0
    ensures AssignPairs(p, segments + [key, value]) == Assign(AssignPairs(p, segments), key, value)
    ensures AssignPairs(p, segments + [key]) == AssignPairs(p, segments)
    decreases |segments|
  {
    hide Assign;
    if segments == [] {
      assert [key, value][2..] == [];
      assert segments + [key, value] == [key, value];
      assert segments + [key] == [key];
    } else {
      AssignPairsSnoc(Assign(p, segments[0], segments[1]), segments[2..], key, value);
      assert (segments + [key, value])[2..] == segments[2..] + [key, value];
      assert (segments + [key])[2..] == segments[2..] + [key];
    }
  }

  // ------------------------------------------------------------------ last value wins

  type Pairs = seq<(Text, Text)>

  ghost predicate PairsNulFree(ps: Pairs) {
    forall i :: 0 <= i < |ps| ==> NulFree(ps[i].0) && NulFree(ps[i].1)
  }

  /** How a client writes its parameters, before the final zero byte. */
  function PairsBytes(ps: Pairs): seq<byte> {
    if ps == [] then [] else ps[0].0 + [0] + (ps[0].1 + [0]) + PairsBytes(ps[1..])
  }

  function PairsSegments(ps: Pairs): seq<Text> {
    if ps == [] then [] else [ps[0].0, ps[0].1] + PairsSegments(ps[1..])
  }

  /** The value of the last pair with this key. */
  function LastValue(ps: Pairs, key: Text, default: Text): Text {
    if ps == [] then default
    else if ps[|ps| - 1].0 == key then ps[|ps| - 1].1
    else LastValue(ps[..|ps| - 1], key, default)
  }

  lemma {:induction false} SegmentsOfPairs(ps: Pairs, tail: seq<byte>)
    requires PairsNulFree(ps)
    ensures Segments(PairsBytes(ps) + tail) == PairsSegments(ps) + Segments(tail)
  {
    hide Segments, NulFree;
    if ps == [] {
      assert PairsBytes(ps) + tail == tail;
      assert PairsSegments(ps) + Segments(tail) == Segments(tail);
    } else {
      var k, v := ps[0].0, ps[0].1;
      var rest := PairsBytes(ps[1..]) + tail;
      Regroup(k + [0] + (v + [0]), PairsBytes(ps[1..]), tail);
      Regroup(k + [0], v + [0], rest);
      SegmentsCons(k, v + [0] + rest);
      SegmentsCons(v, rest);
      SegmentsOfPairs(ps[1..], tail);
    }
  }

  lemma {:induction false} PairsSegmentsSnoc(ps: Pairs, q: (Text, Text))
    ensures PairsSegments(ps + [q]) == PairsSegments(ps) + [q.0, q.1]
    ensures |PairsSegments(ps)| == 2 * |ps|
  {
    if ps == [] {
      assert [q][1..] == [];
    } else {
      PairsSegmentsSnoc(ps[1..], q);
      assert (ps + [q])[1..] == ps[1..] + [q];
    }
  }

  /** Assigning pair after pair keeps, for each known key, its last value. */
  lemma {:induction false} LastValueWins(ps: Pairs, p: Params)
    ensures AssignPairs(p, PairsSegments(ps))
            == Params(LastValue(ps, Ascii("user"), p.user), LastValue(ps, Ascii("database"), p.database),
                      LastValue(ps, Ascii("options"), p.options))
  {
    if ps != [] {
      var front, q := ps[..|ps| - 1], ps[|ps| - 1];
      assert ps == front + [q];
      PairsSegmentsSnoc(front, q);
      AssignPairsSnoc(p, PairsSegments(front), q.0, q.1);
      LastValueWins(front, p);
      KeysDiffer();
    }
  }

  lemma KeysDiffer()
    ensures USER != DATABASE && USER != OPTIONS && DATABASE != OPTIONS
  {
    assert |USER| == 4 && |DATABASE| == 8 && |OPTIONS| == 7;
  }

  /** What these pairs say of the three known keys. */
  function Given(ps: Pairs): Params {
    Params(LastValue(ps, Ascii("user"), []), LastValue(ps, Ascii("database"), []), LastValue(ps, Ascii("options"), []))
  }

  lemma ReadRequestAt(major: int, minor: int, rest: seq<byte>)
    requires FitsSigned(2, major) && FitsSigned(2, minor)
    ensures ReadRequest(Num(2, major) + Num(2, minor) + rest)
            == if major == SSL_MAJOR && minor == SSL_MINOR then SslRequest
               else StartupRequest(major, minor, AssignPairs(NO_PARAMS, Segments(rest)))
  {
    hide Num, Segments, AssignPairs;
    var payload := Num(2, major) + Num(2, minor) + rest;
    assert payload[..2] == Num(2, major) && payload[2..4] == Num(2, minor) && payload[4..] == rest;
    SignedNum(2, major);
    SignedNum(2, minor);
  }

  /** Decoding inverts the encoding of any list of NUL-free pairs. The final
      zero byte, or any other rest with at most one terminated string in it
      (an odd segment, an unterminated tail), changes nothing. */
  lemma ReadRequestOfPairs(major: int, minor: int, ps: Pairs, odd: Text, tail: Text)
    requires FitsSigned(2, major) && FitsSigned(2, minor)
    requires !(major == 1234 && minor == 5679)
    requires PairsNulFree(ps) && NulFree(odd) && NulFree(tail)
    ensures var expected := StartupRequest(major, minor, Given(ps));
            && ReadRequest(Num(2, major) + Num(2, minor) + (PairsBytes(ps) + [0])) == expected
            && ReadRequest(Num(2, major) + Num(2, minor) + (PairsBytes(ps) + tail)) == expected
            && ReadRequest(Num(2, major) + Num(2, minor) + (PairsBytes(ps) + (odd + [0] + tail))) == expected
  {
    hide LastValue, Num, Assign, Segments, ReadRequest;
    SegmentsOne([]);
    assert [] + [0] == [0];
    SegmentsOne(tail);
    SegmentsCons(odd, tail);
    AssignPairsOfPairs(ps, [0]);
    AssignPairsOfPairs(ps, tail);
    AssignPairsOfPairs(ps, odd + [0] + tail);
    ReadRequestAt(major, minor, PairsBytes(ps) + [0]);
    ReadRequestAt(major, minor, PairsBytes(ps) + tail);
    ReadRequestAt(major, minor, PairsBytes(ps) + (odd + [0] + tail));
  }

  lemma AssignPairsOfPairs(ps: Pairs, end: seq<byte>)
    requires PairsNulFree(ps) && |Segments(end)| <= 1
    ensures AssignPairs(NO_PARAMS, Segments(PairsBytes(ps) + end))
            == Given(ps)
  {
    hide LastValue, Assign, Segments;
    SegmentsOfPairs(ps, end);
    PairsSegmentsSnoc(ps, ([], []));
    LastValueWins(ps, NO_PARAMS);
    if Segments(end) == [] {
      assert PairsSegments(ps) + [] == PairsSegments(ps);
    } else {
      AssignPairsSnoc(NO_PARAMS, PairsSegments(ps), Segments(end)[0], []);
      assert Segments(end) == [Segments(end)[0]];
    }
  }

  /** The request for SSL is known by its first four bytes, 1234 and 5679. */
  lemma ReadSslRequest(payload: seq<byte>)
    requires |payload| >= 4
    ensures ReadRequest(payload).SslRequest? <==> payload[..4] == [4, 210, 22, 47]
  {
    hide Segments, AssignPairs;
    var a, b := payload[..2], payload[2..4];
    assert payload[..4] == a + b;
    SslNumbers();
    NumSigned(a);
    NumSigned(b);
    Pow256Values();
    assert Signed(a) == SSL_MAJOR ==> a == Num(2, SSL_MAJOR);
    assert Signed(b) == SSL_MINOR ==> b == Num(2, SSL_MINOR);
    SignedNum(2, SSL_MAJOR);
    SignedNum(2, SSL_MINOR);
    assert a + b == [4, 210, 22, 47] <==> a == [4, 210] && b == [22, 47];
  }

  lemma SslNumbers()
    ensures Num(2, SSL_MAJOR) == [4, 210] && Num(2, SSL_MINOR) == [22, 47]
  {
    Pow256Values();
    TwoBytes(SSL_MAJOR);
    TwoBytes(SSL_MINOR);
  }

  lemma TwoBytes(v: nat)
    requires v < 65536
    ensures Num(2, v) == [v / 256, v % 256]
  {
    Pow256Values();
    hide Pow256;
    ModOnce(v, 65536);
    OneDigit(v / 256);
    assert BigEndian(2, v) == BigEndian(1, v / 256) + [v % 256];
  }

  lemma OneDigit(v: nat)
    requires v < 256
    ensures BigEndian(1, v) == [v]
  {
    assert BigEndian(0, 0) == [];
  }

  // ------------------------------------------------------------------ the one-pass scanner

  /** The segments of the part scanned so far: whole segments up to start, then
      an unfinished one. */
  lemma SegmentsStep(s: seq<byte>, start: nat, i: nat)
    requires start <= i < |s| && (start == 0 || s[start - 1] == 0) && NulFree(s[start..i])
    ensures Segments(s[..i]) == Segments(s[..start])
    ensures s[i] == 0 ==> Segments(s[..i + 1]) == Segments(s[..start]) + [s[start..i]]
  {
    assert s[..i] == s[..start] + s[start..i];
    SegmentsAppend(s[..start], s[start..i]);
    SegmentsOne(s[start..i]);
    if s[i] == 0 {
      assert s[..i + 1] == s[..start] + (s[start..i] + [0]);
      SegmentsAppend(s[..start], s[start..i] + [0]);
    }
  }

  /** What the scanner holds after reading these segments: a pending key when
      their number is odd. */
  ghost predicate Scanned(segments: seq<Text>, key: Option<Text>, initial: Params, params: Params) {
    match key
    case None => |segments| % 2 == 0 && params == AssignPairs(initial, segments)
    case Some(k) =>
      && |segments| % 2 == 1 && segments[|segments| - 1] == k
      && params == AssignPairs(initial, segments[..|segments| - 1])
  }

  lemma ScannedSnoc(segments: seq<Text>, key: Option<Text>, value: Text, initial: Params, params: Params)
    requires Scanned(segments, key, initial, params)
    ensures key.None? ==> Scanned(segments + [value], Some(value), initial, params)
    ensures key.Some? ==> Scanned(segments + [value], None, initial, Assign(params, key.value, value))
  {
    hide Assign, AssignPairs;
    if key.None? {
      assert (segments + [value])[..|segments|] == segments;
    } else {
      var before := segments[..|segments| - 1];
      AssignPairsSnoc(initial, before, key.value, value);
      assert segments + [value] == before + [key.value, value];
    }
  }

  lemma ScannedAll(segments: seq<Text>, key: Option<Text>, initial: Params, params: Params)
    requires Scanned(segments, key, initial, params)
    ensures params == AssignPairs(initial, segments)
  {
    if key.Some? {
      var before := segments[..|segments| - 1];
      AssignPairsSnoc(initial, before, key.value, []);
      assert segments == before + [key.value];
    }
  }

  /** Where the scanner stands before byte i: start is the beginning of the
      unfinished segment, everything before it has been dealt with. */
  ghost predicate ScanAt(s: seq<byte>, start: nat, i: nat, key: Option<Text>, initial: Params, params: Params) {
    && start <= i <= |s| && (start == 0 || s[start - 1] == 0) && NulFree(s[start..i])
    && Scanned(Segments(s[..start]), key, initial, params)
  }

  lemma ScanBegin(s: seq<byte>, p: Params)
    ensures ScanAt(s, 0, 0, None, p, p)
  {
    assert s[..0] == [];
  }

  lemma ScanSkip(s: seq<byte>, start: nat, i: nat, key: Option<Text>, initial: Params, params: Params)
    requires ScanAt(s, start, i, key, initial, params) && i < |s| && s[i] != 0
    ensures ScanAt(s, start, i + 1, key, initial, params)
  {
    hide Scanned, Segments;
    assert s[start..i + 1] == s[start..i] + [s[i]];
  }

  lemma ScanTake(s: seq<byte>, start: nat, i: nat, key: Option<Text>, initial: Params, params: Params)
    requires ScanAt(s, start, i, key, initial, params) && i < |s| && s[i] == 0
    ensures key.None? ==> ScanAt(s, i + 1, i + 1, Some(s[start..i]), initial, params)
    ensures key.Some? ==> ScanAt(s, i + 1, i + 1, None, initial, Assign(params, key.value, s[start..i]))
  {
    hide Scanned, Segments, Assign;
    SegmentsStep(s, start, i);
    ScannedSnoc(Segments(s[..start]), key, s[start..i], initial, params);
  }

  lemma ScanEnd(s: seq<byte>, start: nat, key: Option<Text>, initial: Params, params: Params)
    requires ScanAt(s, start, |s|, key, initial, params)
    ensures params == AssignPairs(initial, Segments(s))
  {
    hide Scanned, Segments;
    assert s == s[..start] + s[start..|s|];
    SegmentsAppend(s[..start], s[start..|s|]);
    SegmentsOne(s[start..|s|]);
    assert Segments(s) == Segments(s[..start]);
    ScannedAll(Segments(s[..start]), key, initial, params);
  }

  class StartupMessage {
    var isSslRequest: bool
    var majorVersion: int
    var minorVersion: int
    var params: Params

    constructor ()
      ensures !isSslRequest && params == NO_PARAMS
    {
      isSslRequest := false;
      majorVersion, minorVersion := 0, 0;
      params := NO_PARAMS;
    }

    function Value(): Request
      reads this
    {
      if isSslRequest then SslRequest else StartupRequest(majorVersion, minorVersion, params)
    }

    method Decode(b: Buffer)
      requires !isSslRequest && params == NO_PARAMS && b.Size() >= 4
      modifies this, b`pos
      ensures Value() == ReadRequest(old(b.Unread()))
    {
      hide Segments, AssignPairs;
      ghost var payload := b.Unread();
      majorVersion := b.GetNumeric(2, true);
      minorVersion := b.GetNumeric(2, true);
      assert payload[2..][..2] == payload[2..4] && payload[2..][2..] == payload[4..];
      if majorVersion == SSL_MAJOR && minorVersion == SSL_MINOR {
        isSslRequest := true;
        return;
      }
      ScanParams(b);
    }

    method ScanParams(b: Buffer)
      modifies this`params
      ensures params == AssignPairs(old(params), Segments(b.Unread()))
    {
      hide Assign, Segments, AssignPairs, ScanAt;
      ghost var s := b.Unread();
      ghost var initial := params;
      var start := 0;
      var key: Option<Text> := None;
      var i := 0;
      ScanBegin(s, params);
      while i < b.Size()
        invariant 0 <= start <= i <= |s|
        invariant ScanAt(s, start, i, key, initial, params)
      {
        var current := b.data[b.pos + i];
        assert current == s[i];
        if current != 0 {
          ScanSkip(s, start, i, key, initial, params);
        } else {
          ScanTake(s, start, i, key, initial, params);
          var value := b.data[b.pos + start..b.pos + i];
          assert value == s[start..i];
          start := i + 1;
          if key.None? {
            key := Some(value);
          } else {
            params := Assign(params, key.value, value);
            key := None;
          }
        }
        i := i + 1;
      }
      ScanEnd(s, start, key, initial, params);
    }
  }
}
