/** The session as a system of steps: bytes sent by the client, read
    completions and write completions, in any order. The error path starts the
    next read before its two writes are done. */
module Steps {
  import opened Bytes
  import opened Messages
  import opened Protocol

  /** The byte strings of a chain of writes, each begun when the one before it
      has completed. */
  type Chain = seq<seq<byte>>

  function EncodeEach(writes: seq<seq<Message>>): (c: Chain)
    ensures |c| == |writes|
    ensures forall i :: 0 <= i < |c| ==> c[i] == EncodeAll(writes[i])
  {
    seq(|writes|, i requires 0 <= i < |writes| => EncodeAll(writes[i]))
  }

  datatype System = System(
    consumed: seq<byte>,   // what the server has read since the connection was opened
    unread: seq<byte>,     // what the client has sent beyond that
    partial: seq<byte>,    // the part of a frame that has been read
    st: State,
    chain: Chain,          // the writes that hold up the next read
    loose: seq<Chain>,     // error replies still being written while the reader runs
    wire: seq<byte>)       // what the server has sent

  function Sent(s: System): seq<byte> {
    s.consumed + s.unread
  }

  const START := System([], [], [], INITIAL, [], [], [])

  datatype Action =
    | ClientSends(b: byte)
    | Reads(n: nat)
    | Writes(n: nat)
    | WritesLoose(i: nat, n: nat)
    | Abandons

  /** How many bytes the read in progress still waits for: the rest of the
      header, or of the body that the header announces. */
  function Missing(startupDone: bool, partial: seq<byte>): int {
    var h := HeaderSize(startupDone);
    if |partial| < h then h - |partial| else FrameSize(startupDone, partial) - |partial|
  }

  /** One transfer of a chain: part of its first write, or all of it. */
  predicate CanAdvance(c: Chain, n: nat) {
    c != [] && n <= |c[0]| && (n == 0 ==> c[0] == [])
  }

  function Advance(c: Chain, n: nat): Chain
    requires CanAdvance(c, n)
  {
    if n == |c[0]| then c[1..] else [c[0][n..]] + c[1..]
  }

  predicate Enabled(s: System, a: Action) {
    match a
    case ClientSends(_) => true
    case Reads(n) =>
      s.st.mode == Open && s.chain == [] && 0 < n <= |s.unread| && n <= Missing(s.st.startupDone, s.partial)
    case Writes(n) => CanAdvance(s.chain, n)
    case WritesLoose(i, n) => i < |s.loose| && CanAdvance(s.loose[i], n)
    case Abandons => s.st.mode == Closed && s.loose != []
  }

  /** A read completes with these bytes. */
  function Receive(server: Server, s: System, bytes: seq<byte>, unread: seq<byte>): System {
    var partial := s.partial + bytes;
    var s' := s.(consumed := s.consumed + bytes, unread := unread);
    match ScanFrame(s.st.startupDone, partial)
    case Incomplete => s'.(partial := partial)
    case Invalid => s'.(partial := partial, st := s.st.(mode := Stuck))
    case Whole(frame, _) =>
      var e := Interpret(server, s.st, frame);
      var writes := EncodeEach(Protocol.Writes(server, e));
      if Detached(e) then s'.(partial := [], st := After(s.st, e), loose := s.loose + [writes])
      else s'.(partial := [], st := After(s.st, e), chain := writes)
  }

  function Apply(server: Server, s: System, a: Action): System
    requires Enabled(s, a)
  {
    match a
    case ClientSends(b) => s.(unread := s.unread + [b])
    case Reads(n) => Receive(server, s, s.unread[..n], s.unread[n..])
    case Writes(n) => s.(chain := Advance(s.chain, n), wire := s.wire + s.chain[0][..n])
    case WritesLoose(i, n) =>
      var c := Advance(s.loose[i], n);
      s.(loose := if c == [] then s.loose[..i] + s.loose[i + 1..] else s.loose[i := c],
         wire := s.wire + s.loose[i][0][..n])
    case Abandons => s.(loose := [])
  }

  /** Something is left to write, or to read. */
  predicate Busy(s: System) {
    s.chain != [] || s.loose != [] || (s.st.mode == Open && s.unread != [])
  }

  // ------------------------------------------------------------------ runs

  /** Would this byte make the server answer? */
  predicate Elicits(server: Server, sent: seq<byte>, b: byte) {
    ReplyBytes(server, sent + [b]) != ReplyBytes(server, sent)
  }

  /** The client completes a request only when all replies have arrived. It may
      send anything that is not answered, Terminate included, at any time. */
  predicate Polite(server: Server, s: System, a: Action) {
    a.ClientSends? && Elicits(server, Sent(s), a.b) ==> s.wire == ReplyBytes(server, Sent(s))
  }

  predicate Possible(server: Server, s: System, actions: seq<Action>)
    decreases |actions|
  {
    actions == [] || (Enabled(s, actions[0]) && Possible(server, Apply(server, s, actions[0]), actions[1..]))
  }

  predicate AllPolite(server: Server, s: System, actions: seq<Action>)
    requires Possible(server, s, actions)
    decreases |actions|
  {
    actions == []
    || (Polite(server, s, actions[0]) && AllPolite(server, Apply(server, s, actions[0]), actions[1..]))
  }

  function Final(server: Server, s: System, actions: seq<Action>): System
    requires Possible(server, s, actions)
    decreases |actions|
  {
    if actions == [] then s else Final(server, Apply(server, s, actions[0]), actions[1..])
  }

  /** Each write carries one message, or all rows of a result. */
  lemma WriteContents(server: Server, e: Event)
    ensures forall i :: 0 <= i < |Protocol.Writes(server, e)| ==>
              var w := Protocol.Writes(server, e)[i];
              |w| == 1 || forall m :: m in w ==> m.DataRow?
  {
    hide Description, SelectTag;
  }

  // ------------------------------------------------------------------ chains

  /** No chain ends in a write of nothing, so an unfinished chain has bytes left. */
  predicate Live(c: Chain) {
    c != [] ==> c[|c| - 1] != []
  }

  lemma LiveHasBytes(c: Chain)
    requires Live(c)
    ensures c != [] ==> Flatten(c) != []
  {
    if c != [] {
      assert c == c[..|c| - 1] + [c[|c| - 1]];
      FlattenAppend(c[..|c| - 1], [c[|c| - 1]]);
      FlattenOne(c[|c| - 1]);
    }
  }

  lemma FlattenOne<T>(x: seq<T>)
    ensures Flatten([x]) == x
  {
    assert [x][1..] == [];
    assert Flatten<T>([]) == [];
  }

  lemma AdvanceKeeps(c: Chain, n: nat)
    requires Live(c) && CanAdvance(c, n)
    ensures c[0][..n] + Flatten(Advance(c, n)) == Flatten(c)
    ensures Live(Advance(c, n))
  {
    assert c[0] == c[0][..n] + c[0][n..];
    if n < |c[0]| {
      assert Advance(c, n)[1..] == c[1..];
      Regroup(c[0][..n], c[0][n..], Flatten(c[1..]));
    }
  }

  lemma {:induction false} EncodeEachFlatten(writes: seq<seq<Message>>)
    ensures Flatten(EncodeEach(writes)) == EncodeAll(Flatten(writes))
  {
    if writes != [] {
      EncodeEachFlatten(writes[1..]);
      assert EncodeEach(writes)[1..] == EncodeEach(writes[1..]);
      EncodeAllAppend(writes[0], Flatten(writes[1..]));
    }
  }

  lemma EncodeAllNonEmpty(ms: seq<Message>)
    requires ms != []
    ensures EncodeAll(ms) != []
  {
    assert EncodeAll(ms) == Encode(ms[0]) + EncodeAll(ms[1..]);
  }

  lemma WritesLive(server: Server, e: Event)
    ensures Live(EncodeEach(Protocol.Writes(server, e)))
    ensures Detached(e) ==> Protocol.Writes(server, e) != []
  {
    var writes := Protocol.Writes(server, e);
    if writes != [] {
      assert |writes[|writes| - 1]| == 1;
      EncodeAllNonEmpty(writes[|writes| - 1]);
    }
  }

  // ------------------------------------------------------------------ reading

  /** A read never takes bytes of the next frame. */
  lemma ReadsOneFrame(startupDone: bool, partial: seq<byte>, bytes: seq<byte>)
    requires ScanFrame(startupDone, partial) == Incomplete
    requires |bytes| <= Missing(startupDone, partial)
    ensures var r := ScanFrame(startupDone, partial + bytes);
            r.Whole? ==> r.length == |partial + bytes|
  {
    var h := HeaderSize(startupDone);
    if |partial| >= h {
      assert (partial + bytes)[h - 4..h] == partial[h - 4..h];
    }
  }

  /** Two completions can read any frame: its header and then its body. */
  lemma TwoReadsPerFrame(server: Server, s: System)
    requires s.st.mode == Open && s.chain == [] && s.partial == [] && ScanFrame(s.st.startupDone, s.unread).Whole?
    ensures var h, length := if s.st.startupDone then 5 else 4, ScanFrame(s.st.startupDone, s.unread).length;
            && Enabled(s, Reads(h))
            && (length > h ==>
                  var s1 := Apply(server, s, Reads(h));
                  Enabled(s1, Reads(length - h))
                  && Apply(server, s1, Reads(length - h)).consumed == s.consumed + s.unread[..length])
  {
    hide ScanFrame, Interpret, After, Protocol.Writes, Detached;
    var h, length := HeaderSize(s.st.startupDone), ScanFrame(s.st.startupDone, s.unread).length;
    HeaderFirst(s.st.startupDone, s.unread);
    assert [] + s.unread[..h] == s.unread[..h];
    if length > h {
      assert s.unread[..h] + s.unread[h..][..length - h] == s.unread[..length];
      Regroup(s.consumed, s.unread[..h], s.unread[h..][..length - h]);
    }
  }

  lemma HeaderFirst(startupDone: bool, input: seq<byte>)
    requires ScanFrame(startupDone, input).Whole?
    ensures var h, length := HeaderSize(startupDone), ScanFrame(startupDone, input).length;
            && h <= length <= |input| && Missing(startupDone, []) == h
            && (length > h ==> ScanFrame(startupDone, input[..h]) == Incomplete && Missing(startupDone, input[..h]) == length - h)
  {
    hide Signed;
    var h := HeaderSize(startupDone);
    assert input[..h][h - 4..h] == input[h - 4..h];
  }

  /** A write can be taken in parts of any size. */
  lemma AnyTransfer(s: System, n: nat)
    requires n > 0
    ensures s.chain != [] && n <= |s.chain[0]| ==> Enabled(s, Writes(n))
    ensures forall i :: 0 <= i < |s.loose| && s.loose[i] != [] && n <= |s.loose[i][0]| ==> Enabled(s, WritesLoose(i, n))
  {
  }

  /** What a completed read did, told by the sequential function. */
  lemma ReceiveIsExec(server: Server, s: System, bytes: seq<byte>, unread: seq<byte>)
    requires s.st.mode == Open && s.chain == []
    requires ScanFrame(s.st.startupDone, s.partial) == Incomplete
    requires |bytes| <= Missing(s.st.startupDone, s.partial)
    ensures var s' := Receive(server, s, bytes, unread);
            var r := Exec(server, s.st, s.partial + bytes);
            && r.state == s'.st && r.rest == s'.partial && |r.events| <= 1
            && s'.consumed == s.consumed + bytes && s'.unread == unread && s'.wire == s.wire
            && (r.events == [] ==> s'.chain == [] && s'.loose == s.loose)
            && (r.events != [] ==>
                  var writes := EncodeEach(Protocol.Writes(server, r.events[0]));
                  if Detached(r.events[0])
                  then s'.chain == [] && s'.loose == s.loose + [writes] && s'.st.mode == Open
                  else s'.chain == writes && s'.loose == s.loose && (writes != [] ==> s'.st.mode == Open))
  {
    hide Interpret;
    var partial := s.partial + bytes;
    ReadsOneFrame(s.st.startupDone, s.partial, bytes);
    match ScanFrame(s.st.startupDone, partial)
    case Incomplete =>
    case Invalid =>
    case Whole(frame, length) =>
      var e := Interpret(server, s.st, frame);
      assert partial[length..] == [];
      ExecNothing(server, After(s.st, e));
  }

  lemma ExecNothing(server: Server, st: State)
    ensures Exec(server, st, []) == Run([], st, [])
  {
  }

  lemma OutputOne(server: Server, e: Event)
    ensures Output(server, [e]) == Reply(server, e)
  {
    hide Reply;
    assert [e][1..] == [];
    assert Output(server, []) == [];
  }
}
