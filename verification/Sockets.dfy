/** A connection: input that arrives in chunks, and output that is taken in
    partial transfers. */
module Sockets {
  import opened Bytes

  /** One attempt of the stream to take bytes: how many it is ready to take,
      and whether it reports an error. */
  datatype Attempt = Attempt(progress: nat, failed: bool)

  type Plan = nat -> Attempt

  datatype Settled = Resolved(size: nat) | Rejected

  function Taken(a: Attempt, size: nat): (n: nat)
    ensures n <= size
  {
    if a.progress >= size then size else a.progress
  }

  /** The bytes taken by attempts k to m - 1 of a write of size bytes. */
  function TakenBefore(plan: Plan, k: nat, m: nat, size: nat): (n: nat)
    requires k <= m
    ensures n <= size
    decreases m - k
  {
    if k == m then 0
    else
      var n := Taken(plan(k), size);
      n + TakenBefore(plan, k + 1, m, size - n)
  }

  /** The recursion of async_write, given fuel: the attempt, counting from k,
      after which it settles. */
  function Settles(plan: Plan, k: nat, size: nat, fuel: nat): Option<nat>
    decreases fuel
  {
    if fuel == 0 then None
    else
      var n := Taken(plan(k), size);
      if n == size then Some(k) else Settles(plan, k + 1, size - n, fuel - 1)
  }

  /** It settles after attempt k when that is the first to leave nothing. */
  ghost predicate SettlesAt(plan: Plan, first: nat, size: nat, last: nat) {
    first <= last && TakenBefore(plan, first, last + 1, size) == size
    && forall m :: first < m <= last ==> TakenBefore(plan, first, m, size) < size
  }

  lemma {:induction false} SettlesIffTaken(plan: Plan, k: nat, size: nat, fuel: nat)
    ensures Settles(plan, k, size, fuel).Some? <==> fuel > 0 && TakenBefore(plan, k, k + fuel, size) == size
    ensures Settles(plan, k, size, fuel).Some? ==> SettlesAt(plan, k, size, Settles(plan, k, size, fuel).value)
    decreases fuel
  {
    if fuel > 0 {
      var n := Taken(plan(k), size);
      if n == size {
        NothingTaken(plan, k + 1, k + fuel);
        NothingTaken(plan, k + 1, k + 1);
      } else {
        SettlesIffTaken(plan, k + 1, size - n, fuel - 1);
        var r := Settles(plan, k + 1, size - n, fuel - 1);
        if r.Some? {
          forall m | k < m <= r.value ensures TakenBefore(plan, k, m, size) < size {
            assert TakenBefore(plan, k, m, size) == n + TakenBefore(plan, k + 1, m, size - n);
          }
        } else if fuel == 1 {
          assert TakenBefore(plan, k, k + 1, size) == n + TakenBefore(plan, k + 1, k + 1, size - n);
        }
      }
    }
  }

  lemma {:induction false} NothingTaken(plan: Plan, k: nat, m: nat)
    requires k <= m
    ensures TakenBefore(plan, k, m, 0) == 0
    decreases m - k
  {
    if k < m {
      NothingTaken(plan, k + 1, m);
    }
  }

  /** A write settles exactly when the stream, over some
      number of attempts, takes them all: a stream that stops making progress
      is tried for ever. */
  lemma WriteSettlesIff(plan: Plan, k: nat, size: nat)
    ensures (exists fuel :: Settles(plan, k, size, fuel).Some?)
            <==> (exists m :: k <= m && TakenBefore(plan, k, m, size) == size)
  {
    if fuel :| Settles(plan, k, size, fuel).Some? {
      SettlesIffTaken(plan, k, size, fuel);
      var m := k + fuel;
      assert k <= m && TakenBefore(plan, k, m, size) == size;
    }
    if size == 0 {
      assert Settles(plan, k, 0, 1).Some? && TakenBefore(plan, k, k, 0) == 0;
    } else if m :| k <= m && TakenBefore(plan, k, m, size) == size {
      assert k + (m - k) == m;
      SettlesIffTaken(plan, k, size, m - k);
    }
  }

  /** A stream that takes at least one byte per attempt always settles. */
  lemma {:induction false} ProgressSettles(plan: Plan, k: nat, size: nat)
    requires forall i :: plan(i).progress > 0
    ensures Settles(plan, k, size, size + 1).Some?
    decreases size
  {
    var n := Taken(plan(k), size);
    if n < size {
      ProgressSettles(plan, k + 1, size - n);
      MoreFuel(plan, k + 1, size - n, size - n + 1, size);
    }
  }

  lemma {:induction false} MoreFuel(plan: Plan, k: nat, size: nat, fuel: nat, more: nat)
    requires Settles(plan, k, size, fuel).Some? && fuel <= more
    ensures Settles(plan, k, size, more) == Settles(plan, k, size, fuel)
    decreases fuel
  {
    var n := Taken(plan(k), size);
    if n < size {
      MoreFuel(plan, k + 1, size - n, fuel - 1, more - 1);
    }
  }

  class Socket {
    var arriving: seq<seq<byte>>
    var sent: seq<byte>
    const plan: Plan
    var attempts: nat

    constructor (input: seq<seq<byte>>, plan: Plan)
      ensures arriving == input && sent == [] && this.plan == plan && attempts == 0
    {
      arriving, sent, attempts := input, [], 0;
      this.plan := plan;
    }

    ghost function Incoming(): seq<byte>
      reads this
    {
      Flatten(arriving)
    }

    /** Completes with exactly n bytes, however they are cut into chunks; it
        does not complete when the input stops short of that. */
    method ReadExact(n: nat) returns (complete: bool, bytes: seq<byte>)
      modifies this`arriving
      ensures complete <==> n <= |old(Incoming())|
      ensures complete ==> bytes == old(Incoming())[..n] && Incoming() == old(Incoming())[n..]
      ensures |Incoming()| <= |old(Incoming())|
    {
      ghost var all := Incoming();
      bytes := [];
      while |bytes| < n && arriving != []
        invariant |bytes| <= n && bytes + Incoming() == all
        decreases |arriving|, n - |bytes|
      {
        var wanted := n - |bytes|;
        var chunk := arriving[0];
        Regroup(bytes, chunk, Flatten(arriving[1..]));
        if |chunk| <= wanted {
          bytes := bytes + chunk;
          arriving := arriving[1..];
        } else {
          assert chunk == chunk[..wanted] + chunk[wanted..];
          var later := arriving[1..];
          Regroup(bytes, chunk[..wanted], chunk[wanted..]);
          Regroup(bytes + chunk[..wanted], chunk[wanted..], Flatten(later));
          bytes := bytes + chunk[..wanted];
          arriving := [chunk[wanted..]] + later;
          assert arriving[1..] == later;
        }
      }
      complete := |bytes| == n;
      assert all[..|bytes|] == bytes && all[|bytes|..] == Incoming();
    }

    /** One completion of the underlying write. */
    method WriteSome(buffer: seq<byte>) returns (transferred: nat, failed: bool)
      modifies this`sent, this`attempts
      ensures transferred == Taken(plan(old(attempts)), |buffer|) && failed == plan(old(attempts)).failed
      ensures sent == old(sent) + buffer[..transferred] && attempts == old(attempts) + 1
    {
      transferred := Taken(plan(attempts), |buffer|);
      failed := plan(attempts).failed;
      sent := sent + buffer[..transferred];
      attempts := attempts + 1;
    }

    /** Whatever the partial transfers, the buffer is sent once and in order,
        and the promise resolves to the size of the whole buffer unless the
        attempt that took the last byte failed. Errors of earlier attempts are
        not noticed. */
    method AsyncWrite(buffer: seq<byte>, ghost fuel: nat) returns (r: Settled)
      requires Settles(plan, attempts, |buffer|, fuel).Some?
      modifies this`sent, this`attempts
      ensures sent == old(sent) + buffer
      ensures var last := Settles(plan, old(attempts), |buffer|, fuel).value;
              attempts == last + 1 && r == if plan(last).failed then Rejected else Resolved(|buffer|)
      decreases fuel
    {
      var transferred, failed := WriteSome(buffer);
      if transferred == |buffer| {
        assert buffer[..transferred] == buffer;
        r := if failed then Rejected else Resolved(transferred);
      } else {
        assert buffer == buffer[..transferred] + buffer[transferred..];
        Regroup(old(sent), buffer[..transferred], buffer[transferred..]);
        var later := AsyncWrite(buffer[transferred..], fuel - 1);
        r := match later
          case Resolved(size) => Resolved(transferred + size)
          case Rejected => Rejected;
      }
    }
  }
}
