/** What every run keeps, whatever the client does: each reply is sent once and
    in order, although replies may be mixed up with one another. */
module Merges {
  import opened Bytes
  import opened Messages
  import opened Protocol
  import opened Accounts
  import opened Steps
  import opened Interleavings
  import opened Pipelining
  import opened Liveness

  // ------------------------------------------------------------------ merges

  /** The bytes of a wire whose tags say k. */
  function Project(wire: seq<byte>, tags: seq<nat>, k: nat): seq<byte>
    requires |tags| == |wire|
    decreases |wire|
  {
    if wire == [] then []
    else
      var n := |wire| - 1;
      Project(wire[..n], tags[..n], k) + if tags[n] == k then [wire[n]] else []
  }

  /** With these tags the wire is a merge of the parts: each part occurs once,
      in its own order, and nothing else does. */
  ghost predicate IsMerge(wire: seq<byte>, tags: seq<nat>, parts: seq<seq<byte>>) {
    && |tags| == |wire|
    && (forall i :: 0 <= i < |tags| ==> tags[i] < |parts|)
    && (forall k :: 0 <= k < |parts| ==> Project(wire, tags, k) == parts[k])
  }

  function Total(parts: seq<seq<byte>>): nat {
    if parts == [] then 0 else Total(parts[..|parts| - 1]) + |parts[|parts| - 1]|
  }

  function Tags(k: nat, n: nat): seq<nat> {
    seq(n, _ => k)
  }

  lemma {:induction false} ProjectMore(wire: seq<byte>, tags: seq<nat>, bytes: seq<byte>, k: nat, j: nat)
    requires |tags| == |wire|
    ensures Project(wire + bytes, tags + Tags(k, |bytes|), j) == Project(wire, tags, j) + if j == k then bytes else []
    decreases |bytes|
  {
    var all, allTags := wire + bytes, tags + Tags(k, |bytes|);
    if bytes == [] {
      assert all == wire && allTags == tags;
    } else {
      var n := |bytes| - 1;
      ProjectMore(wire, tags, bytes[..n], k, j);
      assert all[..|all| - 1] == wire + bytes[..n] && allTags[..|all| - 1] == tags + Tags(k, n);
      assert bytes == bytes[..n] + [bytes[n]];
    }
  }

  /** Sending more of one part. */
  lemma MergeMore(wire: seq<byte>, tags: seq<nat>, parts: seq<seq<byte>>, k: nat, bytes: seq<byte>)
    requires IsMerge(wire, tags, parts) && k < |parts|
    ensures IsMerge(wire + bytes, tags + Tags(k, |bytes|), parts[k := parts[k] + bytes])
  {
    hide Project;
    forall j | 0 <= j < |parts|
      ensures Project(wire + bytes, tags + Tags(k, |bytes|), j) == parts[k := parts[k] + bytes][j]
    {
      ProjectMore(wire, tags, bytes, k, j);
    }
  }

  lemma {:induction false} ProjectNone(wire: seq<byte>, tags: seq<nat>, k: nat)
    requires |tags| == |wire| && forall i :: 0 <= i < |tags| ==> tags[i] < k
    ensures Project(wire, tags, k) == []
    decreases |wire|
  {
    if wire != [] {
      ProjectNone(wire[..|wire| - 1], tags[..|wire| - 1], k);
    }
  }

  /** One more part, of which nothing has been sent. */
  lemma MergeNew(wire: seq<byte>, tags: seq<nat>, parts: seq<seq<byte>>)
    requires IsMerge(wire, tags, parts)
    ensures IsMerge(wire, tags, parts + [[]])
  {
    ProjectNone(wire, tags, |parts|);
  }

  lemma {:induction false} TotalChange(parts: seq<seq<byte>>, k: nat, part: seq<byte>)
    requires k < |parts|
    ensures Total(parts[k := part]) == Total(parts) - |parts[k]| + |part|
  {
    var n := |parts| - 1;
    if k < n {
      TotalChange(parts[..n], k, part);
      assert parts[k := part][..n] == parts[..n][k := part];
    } else {
      assert parts[k := part][..n] == parts[..n];
    }
  }

  lemma {:induction false} TotalEmpty(parts: seq<seq<byte>>)
    requires forall k :: 0 <= k < |parts| ==> parts[k] == []
    ensures Total(parts) == 0
  {
    if parts != [] {
      TotalEmpty(parts[..|parts| - 1]);
    }
  }

  /** A merge is as long as its parts together. */
  lemma {:induction false} MergeLength(wire: seq<byte>, tags: seq<nat>, parts: seq<seq<byte>>)
    requires IsMerge(wire, tags, parts)
    ensures |wire| == Total(parts)
    decreases |wire|
  {
    if wire == [] {
      TotalEmpty(parts);
    } else {
      var n := |wire| - 1;
      var k := tags[n];
      var part := Project(wire[..n], tags[..n], k);
      var before := parts[k := part];
      assert parts[k] == part + [wire[n]];
      MergeLength(wire[..n], tags[..n], before);
      TotalChange(parts, k, part);
    }
  }

  lemma {:induction false} TotalAtMost(a: seq<seq<byte>>, b: seq<seq<byte>>)
    requires |a| == |b| && forall k :: 0 <= k < |a| ==> a[k] <= b[k]
    ensures Total(a) <= Total(b)
  {
    if a != [] {
      TotalAtMost(a[..|a| - 1], b[..|b| - 1]);
    }
  }

  // ------------------------------------------------------------------ the replies

  /** The bytes of the reply to each event. */
  function RepliesEach(server: Server, events: seq<Event>): (parts: seq<seq<byte>>)
    ensures |parts| == |events|
  {
    seq(|events|, i requires 0 <= i < |events| => EncodeAll(Reply(server, events[i])))
  }

  lemma {:induction false} RepliesTotal(server: Server, events: seq<Event>)
    ensures Total(RepliesEach(server, events)) == |EncodeAll(Output(server, events))|
    decreases |events|
  {
    hide Reply, EncodeAll;
    if events == [] {
      EncodeAllNothing();
      OutputNothing(server);
    } else {
      var front, last := events[..|events| - 1], events[|events| - 1];
      assert events == front + [last];
      RepliesTotal(server, front);
      OutputAppend(server, front, [last]);
      OutputOne(server, last);
      EncodeAllAppend(Output(server, front), Reply(server, last));
      assert RepliesEach(server, events)[..|front|] == RepliesEach(server, front);
    }
  }

  function EventsOf(server: Server, s: System): seq<Event> {
    Exec(server, INITIAL, s.consumed).events
  }

  // ------------------------------------------------------------------ who writes what

  /** Which reply each byte belongs to, what has been sent of each, and which
      reply each chain of writes carries. */
  datatype Ledger = Ledger(tags: seq<nat>, parts: seq<seq<byte>>, chainOf: nat, looseOf: seq<nat>)

  ghost predicate Distinct(xs: seq<nat>) {
    forall i, j :: 0 <= i < j < |xs| ==> xs[i] != xs[j]
  }

  /** Is reply k still being written? */
  ghost predicate Writing(s: System, l: Ledger, k: nat) {
    (s.chain != [] && k == l.chainOf) || k in l.looseOf
  }

  /** Each chain written beside the reader is the rest of a reply of its own. */
  ghost predicate LooseKept(loose: seq<Chain>, looseOf: seq<nat>, parts: seq<seq<byte>>, whole: seq<seq<byte>>) {
    && |looseOf| == |loose| && Distinct(looseOf)
    && (forall i :: 0 <= i < |loose| ==>
          && looseOf[i] < |whole| && looseOf[i] < |parts|
          && parts[looseOf[i]] + Flatten(loose[i]) == whole[looseOf[i]])
  }

  /** Of each reply, what has been sent and what is being written make up the
      whole; only a closed session has given up any. */
  ghost predicate Kept(server: Server, s: System, l: Ledger) {
    var whole := RepliesEach(server, EventsOf(server, s));
    && IsMerge(s.wire, l.tags, l.parts) && |l.parts| == |whole|
    && LooseKept(s.loose, l.looseOf, l.parts, whole)
    && (s.chain != [] ==>
          l.chainOf < |whole| && l.chainOf !in l.looseOf && l.parts[l.chainOf] + Flatten(s.chain) == whole[l.chainOf])
    && (forall k :: 0 <= k < |whole| && !Writing(s, l, k) ==>
          l.parts[k] <= whole[k] && (s.st.mode != Closed ==> l.parts[k] == whole[k]))
  }

  lemma KeptAtStart(server: Server)
    ensures Kept(server, START, Ledger([], [], 0, []))
  {
    ExecNothing(server, INITIAL);
  }

  /** A read that completes no frame, or one that is answered by a new reply. */
  lemma ReadKept(server: Server, s: System, n: nat, l: Ledger) returns (l': Ledger)
    requires ReaderAgrees(server, s) && Kept(server, s, l) && Enabled(s, Reads(n))
    ensures Kept(server, Apply(server, s, Reads(n)), l')
  {
    hide Exec, Receive, Protocol.Writes, Detached, Flatten, IsMerge, EncodeAll, Reply;
    var bytes, unread := s.unread[..n], s.unread[n..];
    var s' := Receive(server, s, bytes, unread);
    assert s' == Apply(server, s, Reads(n));
    ExecStops(server, INITIAL, s.consumed);
    ReceiveIsExec(server, s, bytes, unread);
    ExecSplit(server, INITIAL, s.consumed, bytes);
    var events, new' := EventsOf(server, s), Exec(server, s.st, s.partial + bytes).events;
    if new' == [] {
      l' := l;
      assert EventsOf(server, s') == events + [] == events;
    } else {
      var e := new'[0];
      assert new' == [e];
      assert EventsOf(server, s') == events + [e];
      EventKept(server, s, s', e, l);
      l' := Opened(l, |events|, Detached(e));
    }
  }

  ghost function Opened(l: Ledger, k: nat, detached: bool): Ledger {
    if detached then l.(parts := l.parts + [[]], looseOf := l.looseOf + [k])
    else l.(parts := l.parts + [[]], chainOf := k)
  }

  lemma EventKept(server: Server, s: System, s': System, e: Event, l: Ledger)
    requires Kept(server, s, l) && s.st.mode == Open && s.chain == []
    requires EventsOf(server, s') == EventsOf(server, s) + [e] && s'.wire == s.wire
    requires var writes := EncodeEach(Protocol.Writes(server, e));
             if Detached(e) then s'.chain == [] && s'.loose == s.loose + [writes]
             else s'.chain == writes && s'.loose == s.loose
    ensures Kept(server, s', Opened(l, |EventsOf(server, s)|, Detached(e)))
  {
    hide Exec, Protocol.Writes, Detached, Flatten, IsMerge, EncodeAll, Reply, EventsOf;
    var events := EventsOf(server, s);
    var whole, whole' := RepliesEach(server, events), RepliesEach(server, events + [e]);
    var writes := EncodeEach(Protocol.Writes(server, e));
    MergeNew(s.wire, l.tags, l.parts);
    EncodeEachFlatten(Protocol.Writes(server, e));
    FlattenNothing<byte>();
    ReplyIsWrites(server, e);
    assert forall k :: 0 <= k < |whole| ==> whole'[k] == whole[k];
    assert whole'[|whole|] == Flatten(writes) == [] + Flatten(writes);
    var l' := Opened(l, |events|, Detached(e));
    assert l'.parts[|whole|] == [];
    forall k | 0 <= k < |whole'| && !Writing(s', l', k) ensures l'.parts[k] == whole'[k] {
      if k < |whole| {
        assert !Writing(s, l, k);
      } else {
        assert writes == [];
      }
    }
  }

  lemma ReplyIsWrites(server: Server, e: Event)
    ensures Reply(server, e) == Flatten(Protocol.Writes(server, e))
  {
  }

  lemma WriteKept(server: Server, s: System, n: nat, l: Ledger) returns (l': Ledger)
    requires Kept(server, s, l) && Enabled(s, Action.Writes(n))
    ensures Kept(server, Apply(server, s, Action.Writes(n)), l')
  {
    hide Exec, Flatten, IsMerge, RepliesEach;
    var s' := Apply(server, s, Action.Writes(n));
    var k, bytes := l.chainOf, s.chain[0][..n];
    l' := l.(tags := l.tags + Tags(k, n), parts := l.parts[k := l.parts[k] + bytes]);
    assert |bytes| == n;
    MergeMore(s.wire, l.tags, l.parts, k, bytes);
    AdvanceBytes(s.chain, n);
    FlattenNothing<byte>();
    Regroup(l.parts[k], bytes, Flatten(s'.chain));
    assert forall j :: 0 <= j < |l.parts| && !Writing(s', l', j) && j != k ==> !Writing(s, l, j);
    assert s'.chain == [] ==> l'.parts[k] + [] == l'.parts[k];
  }

  lemma AdvanceBytes(c: Chain, n: nat)
    requires CanAdvance(c, n)
    ensures c[0][..n] + Flatten(Advance(c, n)) == Flatten(c)
  {
    assert c[0] == c[0][..n] + c[0][n..];
    if n < |c[0]| {
      assert Advance(c, n)[1..] == c[1..];
      Regroup(c[0][..n], c[0][n..], Flatten(c[1..]));
    }
  }

  /** One of those chains goes on, or is finished. */
  lemma LooseWritten(loose: seq<Chain>, looseOf: seq<nat>, parts: seq<seq<byte>>, whole: seq<seq<byte>>, i: nat, n: nat)
    requires LooseKept(loose, looseOf, parts, whole) && i < |loose| && CanAdvance(loose[i], n)
    ensures var k, bytes, c := looseOf[i], loose[i][0][..n], Advance(loose[i], n);
            var parts' := parts[k := parts[k] + bytes];
            && parts'[k] + Flatten(c) == whole[k]
            && (c == [] ==> parts'[k] == whole[k])
            && LooseKept(loose[i := c], looseOf, parts', whole)
            && LooseKept(loose[..i] + loose[i + 1..], looseOf[..i] + looseOf[i + 1..], parts', whole)
  {
    hide Flatten, Advance;
    var k, bytes, c := looseOf[i], loose[i][0][..n], Advance(loose[i], n);
    AdvanceBytes(loose[i], n);
    Regroup(parts[k], bytes, Flatten(c));
    FlattenNothing<byte>();
    var parts' := parts[k := parts[k] + bytes];
    assert parts'[k] + [] == parts'[k];
    LooseElsewhere(loose, looseOf, parts, whole, i, parts[k] + bytes);
  }

  lemma LooseElsewhere(loose: seq<Chain>, looseOf: seq<nat>, parts: seq<seq<byte>>, whole: seq<seq<byte>>,
                       i: nat, part: seq<byte>)
    requires LooseKept(loose, looseOf, parts, whole) && i < |loose|
    ensures var parts' := parts[looseOf[i] := part];
            && (forall j :: 0 <= j < |loose| && j != i ==> parts'[looseOf[j]] + Flatten(loose[j]) == whole[looseOf[j]])
            && LooseKept(loose[..i] + loose[i + 1..], looseOf[..i] + looseOf[i + 1..], parts', whole)
  {
    hide Flatten;
    var parts' := parts[looseOf[i] := part];
    assert forall j :: 0 <= j < |loose| && j != i ==> looseOf[j] != looseOf[i];
    var loose', looseOf' := loose[..i] + loose[i + 1..], looseOf[..i] + looseOf[i + 1..];
    forall j | 0 <= j < |loose'|
      ensures var j' := if j < i then j else j + 1; loose'[j] == loose[j'] && looseOf'[j] == looseOf[j']
    {
    }
  }

  lemma WriteLooseKept(server: Server, s: System, i: nat, n: nat, l: Ledger) returns (l': Ledger)
    requires Kept(server, s, l) && Enabled(s, WritesLoose(i, n))
    ensures Kept(server, Apply(server, s, WritesLoose(i, n)), l')
  {
    hide Exec, Flatten, IsMerge, RepliesEach, Advance, LooseKept, CanAdvance;
    LooseShape(s.loose, l.looseOf, l.parts, RepliesEach(server, EventsOf(server, s)));
    CanTake(s.loose[i], n);
    var k, bytes, c := l.looseOf[i], s.loose[i][0][..n], Advance(s.loose[i], n);
    var looseOf := if c == [] then l.looseOf[..i] + l.looseOf[i + 1..] else l.looseOf;
    l' := l.(tags := l.tags + Tags(k, n), parts := l.parts[k := l.parts[k] + bytes], looseOf := looseOf);
    MergeMore(s.wire, l.tags, l.parts, k, bytes);
    LooseWritten(s.loose, l.looseOf, l.parts, RepliesEach(server, EventsOf(server, s)), i, n);
    StillLoose(l.looseOf, i);
  }

  lemma CanTake(c: Chain, n: nat)
    requires CanAdvance(c, n)
    ensures c != [] && n <= |c[0]|
  {
  }

  lemma LooseShape(loose: seq<Chain>, looseOf: seq<nat>, parts: seq<seq<byte>>, whole: seq<seq<byte>>)
    requires LooseKept(loose, looseOf, parts, whole)
    ensures |looseOf| == |loose| && forall i :: 0 <= i < |looseOf| ==> looseOf[i] < |parts|
  {
  }

  lemma StillLoose(looseOf: seq<nat>, i: nat)
    requires i < |looseOf|
    ensures forall k :: k in looseOf && k != looseOf[i] ==> k in looseOf[..i] + looseOf[i + 1..]
  {
    assert looseOf == looseOf[..i] + [looseOf[i]] + looseOf[i + 1..];
  }

  lemma AbandonKept(server: Server, s: System, l: Ledger) returns (l': Ledger)
    requires Kept(server, s, l) && Enabled(s, Abandons)
    ensures Kept(server, Apply(server, s, Abandons), l')
  {
    hide Exec, Flatten, IsMerge, RepliesEach;
    var s' := Apply(server, s, Abandons);
    l' := l.(looseOf := []);
    forall k | 0 <= k < |l.parts| && !Writing(s', l', k)
      ensures l.parts[k] <= RepliesEach(server, EventsOf(server, s))[k]
    {
      if k in l.looseOf {
        var i :| 0 <= i < |l.looseOf| && l.looseOf[i] == k;
        assert l.parts[l.looseOf[i]] + Flatten(s.loose[i]) == RepliesEach(server, EventsOf(server, s))[k];
      }
    }
  }

  lemma StepKept(server: Server, s: System, a: Action, l: Ledger) returns (l': Ledger)
    requires ReaderAgrees(server, s) && Kept(server, s, l) && Enabled(s, a)
    ensures Kept(server, Apply(server, s, a), l')
  {
    hide ReaderAgrees, Kept;
    match a
    case ClientSends(b) => l' := l; SendKept(server, s, b, l);
    case Reads(n) => l' := ReadKept(server, s, n, l);
    case Writes(n) => l' := WriteKept(server, s, n, l);
    case WritesLoose(i, n) => l' := WriteLooseKept(server, s, i, n, l);
    case Abandons => l' := AbandonKept(server, s, l);
  }

  lemma SendKept(server: Server, s: System, b: byte, l: Ledger)
    requires Kept(server, s, l)
    ensures Kept(server, Apply(server, s, ClientSends(b)), l)
  {
    hide Exec, Flatten, IsMerge, RepliesEach;
  }

  lemma {:induction false} RunKept(server: Server, s: System, actions: seq<Action>, l: Ledger) returns (l': Ledger)
    requires Base(server, s) && Kept(server, s, l) && Possible(server, s, actions)
    ensures Kept(server, Final(server, s, actions), l')
    decreases |actions|
  {
    hide Kept, Apply, Enabled, ReaderAgrees;
    if actions == [] {
      l' := l;
    } else {
      var next := StepKept(server, s, actions[0], l);
      BaseStep(server, s, actions[0]);
      l' := RunKept(server, Apply(server, s, actions[0]), actions[1..], next);
    }
  }

  // ------------------------------------------------------------------ the theorem

  /** At rest, all events of the input have been read. */
  lemma RestRead(server: Server, s: System)
    requires Base(server, s) && !Busy(s)
    ensures Exec(server, INITIAL, Sent(s)).events == EventsOf(server, s)
  {
    hide Exec;
    if s.st.mode == Open {
      assert Sent(s) == s.consumed;
    } else {
      Absorbed(server, s.consumed, s.unread);
    }
  }

  /** Every run, of any client: the bytes sent are a merge of beginnings of the
      replies to the events read, so no byte of a reply is lost, repeated, put
      in another order, or made up. At rest, in a session that is not closed,
      every reply has been sent in full. */
  lemma EveryRunMerges(server: Server, actions: seq<Action>) returns (tags: seq<nat>, parts: seq<seq<byte>>)
    requires Possible(server, START, actions)
    ensures var s := Final(server, START, actions);
            var whole := RepliesEach(server, EventsOf(server, s));
            && IsMerge(s.wire, tags, parts) && |parts| == |whole|
            && (forall k :: 0 <= k < |whole| ==> parts[k] <= whole[k])
            && |s.wire| <= |ReplyBytes(server, s.consumed)|
            && (!Busy(s) && s.st.mode != Closed ==>
                  parts == whole && |s.wire| == |ReplyBytes(server, s.consumed)|)
            && (!Busy(s) ==> Exec(server, INITIAL, Sent(s)).events == EventsOf(server, s))
  {
    hide Exec, Possible, Final, IsMerge, EncodeAll, Output, RepliesEach, Flatten, Total;
    InitialBase(server);
    KeptAtStart(server);
    var s := Final(server, START, actions);
    BaseRun(server, START, actions);
    if !Busy(s) {
      RestRead(server, s);
    }
    var l := RunKept(server, START, actions, Ledger([], [], 0, []));
    tags, parts := l.tags, l.parts;
    var whole := RepliesEach(server, EventsOf(server, s));
    forall k | 0 <= k < |whole| ensures parts[k] <= whole[k] {
      if k in l.looseOf {
        var i :| 0 <= i < |l.looseOf| && l.looseOf[i] == k;
        assert parts[l.looseOf[i]] + Flatten(s.loose[i]) == whole[k];
      }
    }
    MergeLength(s.wire, tags, parts);
    TotalAtMost(parts, whole);
    RepliesTotal(server, EventsOf(server, s));
    if !Busy(s) && s.st.mode != Closed {
      assert forall k :: 0 <= k < |whole| ==> !Writing(s, l, k);
      assert parts == whole;
    }
  }
}
