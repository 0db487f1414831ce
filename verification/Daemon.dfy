/** The worker daemon's two pieces of shared state: a socket's unsent bytes, and the slots. */
module Daemon {
  import opened Machine

  type Bytes = seq<U8>

  /** One socket: the kernel takes any prefix of a write, the rest waits for the drain event. */
  class Socket {
    var pending: Option<Bytes>
    ghost var written: Bytes   // handed to the kernel
    ghost var sent: Bytes      // everything passed to Send, in order

    ghost function Unsent(): Bytes
      reads this
    {
      if pending.Some? then pending.value else []
    }

    /** No byte is lost, repeated or reordered. */
    ghost predicate Valid()
      reads this
    {
      written + Unsent() == sent && (pending.Some? ==> pending.value != [])
    }

    constructor ()
      ensures Valid() && sent == [] && written == []
    {
      pending, written, sent := None, [], [];
    }

    /** socket.write: takes some prefix. */
    method Write(buf: Bytes) returns (n: nat)
      modifies this`written
      ensures n <= |buf| && written == old(written) + buf[..n]
    {
      var k: int := *;
      n := if k < 0 then 0 else if k > |buf| then |buf| else k;
      written := written + buf[..n];
    }

    method Flush(buf: Bytes)
      requires written + buf == sent
      modifies this`written, this`pending
      ensures Valid() && old(written) <= written
    {
      var n := Write(buf);
      assert buf[..n] + buf[n..] == buf;
      if n < |buf| {
        pending := Some(buf[n..]);
      } else {
        pending := None;
      }
    }

    /** A new message goes behind whatever is still unsent. */
    method Send(data: Bytes)
      requires Valid()
      modifies this
      ensures Valid() && sent == old(sent) + data && old(written) <= written
    {
      sent := sent + data;
      if pending.Some? {
        assert written + (pending.value + data) == sent;
        Flush(pending.value + data);
      } else {
        assert written + data == sent;
        Flush(data);
      }
    }

    method Drain()
      requires Valid()
      modifies this`written, this`pending
      ensures Valid() && sent == old(sent) && old(written) <= written
    {
      if pending.Some? {
        Flush(pending.value);
      }
    }
  }

  /** The slots: a released slot goes straight to the request that has waited longest. */
  class Semaphore {
    const max: nat
    var active: nat
    var waiters: seq<nat>
    ghost var holders: set<nat>

    ghost predicate Valid()
      reads this
    {
      && active == |holders| <= max
      && (waiters != [] ==> active == max)
      && (forall i, j :: 0 <= i < j < |waiters| ==> waiters[i] != waiters[j])
      && (forall w :: w in waiters ==> w !in holders)
    }

    constructor (max: nat)
      ensures Valid() && this.max == max && waiters == [] && holders == {}
    {
      this.max := max;
      active, waiters, holders := 0, [], {};
    }

    method Acquire(id: nat) returns (resumed: bool)
      requires Valid() && id !in holders && id !in waiters
      modifies this
      ensures Valid()
      ensures resumed <==> |old(holders)| < max
      ensures resumed ==> holders == old(holders) + {id} && waiters == old(waiters)
      ensures !resumed ==> holders == old(holders) && waiters == old(waiters) + [id]
    {
      if active < max {
        active := active + 1;
        holders := holders + {id};
        return true;
      }
      waiters := waiters + [id];
      resumed := false;
    }

    method Release(id: nat)
      requires Valid() && id in holders
      modifies this
      ensures Valid()
      ensures if old(waiters) == [] then holders == old(holders) - {id} && waiters == []
              else holders == old(holders) - {id} + {old(waiters)[0]} && waiters == old(waiters)[1..]
    {
      if waiters != [] {
        var w := waiters[0];
        assert w in waiters;
        waiters := waiters[1..];
        holders := holders - {id} + {w};
      } else {
        active := active - 1;
        holders := holders - {id};
      }
    }
  }
}
