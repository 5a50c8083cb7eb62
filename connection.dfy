/** A non-blocking buffered socket of the authentication server: a fixed receive buffer
    with read and write cursors that the input handler fills, the application drains and
    the handler then compacts; and an outbound queue with a write-interest flag through
    which `send` and the output handler deliver every payload in order. */
module Connection {
  import opened SocketIo
  import opened OutboundQueue

  /** Size in bytes of the receive buffer. */
  const Capacity: nat := 4096

  class BufferedSocket {
    // Receive buffer: the bytes in [rd, wr) are received and not yet consumed.
    var storage: array<bv8>
    var rd: nat
    var wr: nat

    // Outbound queue, and whether the reactor has been asked for write-readiness events.
    var queue: seq<Fragment>
    var writeInterest: bool

    // Every byte the transport has taken from this socket, in order.
    ghost var wire: seq<bv8>
    // The payloads `send` reported as accepted, concatenated in call order.
    ghost var accepted: seq<bv8>
    // False once a failure has put part of a payload on the wire without the rest,
    // or discarded queued bytes.
    ghost var intact: bool

    ghost predicate Valid()
      reads this
    {
      storage.Length == Capacity && rd <= wr <= Capacity &&
      AllQueued(queue) &&
      (queue != [] ==> writeInterest) &&
      (intact ==> wire + Pending(queue) == accepted)
    }

    /** The received bytes the application has not consumed yet. */
    ghost function Unread(): seq<bv8>
      reads this, storage
      requires Valid()
    {
      storage[rd..wr]
    }

    constructor ()
      ensures Valid() && fresh(storage)
      ensures Unread() == [] && rd == 0
      ensures queue == [] && !writeInterest
      ensures wire == [] && accepted == [] && intact
    {
      storage := new bv8[Capacity];
      rd, wr := 0, 0;
      queue, writeInterest := [], false;
      wire, accepted, intact := [], [], true;
    }

    /** Number of received bytes still to be consumed. */
    function RecvLen(): (n: nat)
      reads this, storage
      requires Valid()
      ensures n == |Unread()|
    {
      wr - rd
    }

    /** Room left behind the write cursor for the next receive. */
    function FreeSpace(): (n: nat)
      reads this, storage
      requires Valid()
      ensures RecvLen() + n <= Capacity
    {
      Capacity - wr
    }

    /** Copies the next `len` unread bytes without consuming them, when there are that
        many; the buffer is not changed either way. */
    method RecvSoft(len: nat) returns (ok: bool, bytes: seq<bv8>)
      requires Valid()
      ensures ok <==> len <= RecvLen()
      ensures ok ==> bytes == Unread()[..len]
      ensures !ok ==> bytes == []
    {
      if wr - rd < len {
        return false, [];
      }
      ok, bytes := true, storage[rd..rd + len];
    }

    /** Consumes `len` unread bytes without copying them. Skipping more than is
        unread is a caller error. */
    method RecvSkip(len: nat)
      requires Valid()
      requires len <= RecvLen()
      modifies this`rd
      ensures Valid()
      ensures rd == old(rd) + len
      ensures Unread() == old(Unread())[len..]
    {
      rd := rd + len;
    }

    /** Copies and consumes the next `len` unread bytes when there are that many;
        otherwise changes nothing. */
    method Recv(len: nat) returns (ok: bool, bytes: seq<bv8>)
      requires Valid()
      modifies this`rd
      ensures Valid()
      ensures ok <==> len <= old(RecvLen())
      ensures ok ==> bytes == old(Unread())[..len] && Unread() == old(Unread())[len..]
      ensures ok ==> RecvLen() == old(RecvLen()) - len
      ensures !ok ==> bytes == [] && rd == old(rd)
    {
      ok, bytes := RecvSoft(len);
      if ok {
        RecvSkip(len);
      }
    }

    /** Moves the unread bytes to the start of the buffer, so that all the space behind
        them is free for the next receive. Only the first `RecvLen()` bytes of storage
        are written. */
    method Crunch()
      requires Valid()
      modifies this`rd, this`wr, storage
      ensures Valid()
      ensures rd == 0 && Unread() == old(Unread())
      ensures forall i :: wr <= i < Capacity ==> storage[i] == old(storage[i])
    {
      if rd != 0 {
        var len := wr - rd;
        forall i | 0 <= i < len {
          storage[i] := storage[rd + i];
        }
        rd, wr := 0, len;
      }
    }

    /** The transport's receive into the free space behind the write cursor, followed
        by advancing the write cursor past the bytes received. */
    method Fill(bytes: seq<bv8>)
      requires Valid()
      requires |bytes| <= FreeSpace()
      modifies this`wr, storage
      ensures Valid()
      ensures rd == old(rd) && wr == old(wr) + |bytes|
      ensures Unread() == old(Unread()) + bytes
    {
      ghost var before := Unread();
      forall i | 0 <= i < |bytes| {
        storage[wr + i] := bytes[i];
      }
      assert storage[rd..wr] == before;
      assert storage[wr..wr + |bytes|] == bytes;
      assert storage[rd..wr + |bytes|] == storage[rd..wr] + storage[wr..wr + |bytes|];
      wr := wr + |bytes|;
    }

    /** Handles read-readiness: one receive into the free space, then the application's
        read hook, modelled as consuming `consumed` of the unread bytes, then compaction.
        The result is 0 to wait for the next event, -1 to close the connection, and 1
        when the receive filled all free space, so that more data may be waiting. */
    method HandleInput(io: RecvResult, consumed: nat) returns (status: int)
      requires Valid()
      requires io.RecvReturned? ==> |io.bytes| <= FreeSpace()
      requires io.RecvReturned? && io.bytes != [] ==> consumed <= RecvLen() + |io.bytes|
      modifies this`rd, this`wr, storage
      ensures Valid()
      ensures io.RecvFailed? ==> status == (if io.wouldBlock then 0 else -1)
      ensures io == RecvReturned([]) ==> status == -1
      ensures io.RecvFailed? || io.bytes == [] ==>
        rd == old(rd) && wr == old(wr) && storage[..] == old(storage[..])
      ensures io.RecvReturned? && io.bytes != [] ==>
        status == (if |io.bytes| == old(FreeSpace()) then 1 else 0)
      ensures io.RecvReturned? && io.bytes != [] ==>
        rd == 0 && Unread() == (old(Unread()) + io.bytes)[consumed..]
      ensures io.RecvReturned? && io.bytes != [] ==> FreeSpace() == Capacity - RecvLen()
    {
      var space := Capacity - wr;
      match io {
        case RecvFailed(wouldBlock) =>
          status := if wouldBlock then 0 else -1;
        case RecvReturned(bytes) =>
          if |bytes| == 0 {
            status := -1;
          } else {
            Fill(bytes);
            RecvSkip(consumed);
            Crunch();
            status := if |bytes| == space then 1 else 0;
          }
      }
    }

    /** Sends a payload: see `SendPayload` for what happens to it. Write interest is
        turned on whenever a block is queued. */
    method Send(payload: seq<bv8>, io: SendResult, enqueued: bool) returns (ok: bool)
      requires Valid()
      requires SendResultFits(io, |payload|)
      modifies this`queue, this`writeInterest, this`wire, this`accepted, this`intact
      ensures Valid()
      ensures var s := SendPayload(old(queue), payload, io, enqueued);
        ok == s.ok && queue == s.queue && wire == old(wire) + s.written
      ensures writeInterest == (old(writeInterest) || queue != old(queue))
      ensures accepted == if ok then old(accepted) + payload else old(accepted)
      ensures intact == (old(intact) && (ok || wire == old(wire)))
    {
      ghost var outcome := SendPayload(queue, payload, io, enqueued);
      SendKeepsQueued(queue, payload, io, enqueued);
      if intact {
        SendKeepsOrder(wire, queue, accepted, payload, io, enqueued);
      }
      var n := 0;
      if |payload| > 0 && queue == [] {
        n := NoBlkSend(|payload|, io);
      }
      if |payload| == 0 {
        ok := true;
      } else if n < 0 {
        ok := false;
      } else if n == |payload| {
        ok := true;
        wire, accepted := wire + payload, accepted + payload;
      } else if enqueued {
        ok := true;
        wire := wire + payload[..n];
        queue := queue + [Fragment(payload, n)];
        accepted := accepted + payload;
        writeInterest := true;
      } else {
        ok := false;
        assert outcome.written == payload[..n];
        wire := wire + payload[..n];
        intact := intact && n == 0;
      }
    }

    /** Handles write-readiness. With an empty queue, write interest is cancelled and
        the result is 0; otherwise the head block is written as `WriteHead` says, and
        write interest stays as it was. */
    method HandleOutput(io: SendResult, requeued: bool) returns (status: int)
      requires Valid()
      requires queue != [] ==> SendResultFits(io, |Remainder(queue[0])|)
      modifies this`queue, this`writeInterest, this`wire, this`intact
      ensures Valid()
      ensures old(queue) == [] ==>
        status == 0 && queue == [] && !writeInterest && wire == old(wire) && intact == old(intact)
      ensures old(queue) != [] ==>
        var s := WriteHead(old(queue), io, requeued);
        status == s.status && queue == s.queue && wire == old(wire) + s.written &&
        writeInterest == old(writeInterest) && intact == (old(intact) && s.status != -1)
    {
      if queue == [] {
        writeInterest := false;
        return 0;
      }
      WriteHeadKeepsQueued(queue, io, requeued);
      if intact {
        WriteHeadKeepsOrder(wire, queue, accepted, io, requeued);
      }
      var head := queue[0];
      queue := queue[1..];
      var n := NoBlkSend(|Remainder(head)|, io);
      if n < 0 {
        intact := false;
        return -1;
      } else if n == |Remainder(head)| {
        wire := wire + Remainder(head);
        return 1;
      }
      wire := wire + Remainder(head)[..n];
      if !requeued {
        intact := false;
        return -1;
      }
      queue := [Advance(head, n)] + queue;
      status := 0;
    }
  }
}
