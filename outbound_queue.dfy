/** The outbound queue of a buffered socket: message blocks that could not be written
    at once, each holding a whole payload and a read offset that marks how much of it
    has already gone out. */
module OutboundQueue {
  import opened SocketIo

  /** A queued message block: the payload as given to `send`, and how far its read
      pointer has been advanced by earlier, partial writes. */
  datatype Fragment = Fragment(bytes: seq<bv8>, offset: nat)

  /** The part of a fragment that is still to be written. */
  function Remainder(f: Fragment): (r: seq<bv8>)
    ensures |r| == if f.offset <= |f.bytes| then |f.bytes| - f.offset else 0
  {
    if f.offset <= |f.bytes| then f.bytes[f.offset..] else []
  }

  /** A fragment only stays queued while some of it is unsent. */
  predicate Queued(f: Fragment)
  {
    f.offset < |f.bytes|
  }

  predicate AllQueued(q: seq<Fragment>)
  {
    forall i :: 0 <= i < |q| ==> Queued(q[i])
  }

  /** Every byte still waiting in the queue, in the order it will be written. */
  function Pending(q: seq<Fragment>): seq<bv8>
  {
    if q == [] then [] else Remainder(q[0]) + Pending(q[1..])
  }

  /** A queue of blocks that each still hold unsent bytes has something pending
      exactly when it is not empty. */
  lemma PendingEmpty(q: seq<Fragment>)
    requires AllQueued(q)
    ensures Pending(q) == [] <==> q == []
  {
    if q != [] {
      assert Queued(q[0]);
      assert |Pending(q)| >= |Remainder(q[0])| > 0;
    }
  }

  /** Appending a fragment at the tail appends its remainder to the pending bytes. */
  lemma {:induction false} PendingAppend(q: seq<Fragment>, f: Fragment)
    ensures Pending(q + [f]) == Pending(q) + Remainder(f)
  {
    if q == [] {
      assert q + [f] == [f];
      assert [f][1..] == [];
    } else {
      assert (q + [f])[0] == q[0];
      assert (q + [f])[1..] == q[1..] + [f];
      PendingAppend(q[1..], f);
    }
  }

  /** Advances a fragment's read offset past `n` bytes that were just written: what was
      written is the first `n` bytes of its remainder, and the rest stays unsent. */
  function Advance(f: Fragment, n: nat): (g: Fragment)
    requires f.offset + n <= |f.bytes|
    ensures g.bytes == f.bytes
    ensures Remainder(f) == Remainder(f)[..n] + Remainder(g)
    ensures |Remainder(g)| == |Remainder(f)| - n
    ensures n < |Remainder(f)| ==> Queued(g)
  {
    Fragment(f.bytes, f.offset + n)
  }

  /** A block put at the head is written before everything that was pending. */
  lemma PendingCons(f: Fragment, q: seq<Fragment>)
    ensures Pending([f] + q) == Remainder(f) + Pending(q)
  {
    assert ([f] + q)[1..] == q;
  }

  /** Queueing the unsent part of a payload behind the pending bytes keeps the order:
      if what went out before plus what is pending was the stream accepted so far, then
      after writing the payload's first `n` bytes (possible only with nothing pending)
      and queueing the rest, the same holds of the stream extended by the payload. */
  lemma EnqueueKeepsOrder(wire: seq<bv8>, q: seq<Fragment>, accepted: seq<bv8>, payload: seq<bv8>, n: nat)
    requires wire + Pending(q) == accepted
    requires n <= |payload|
    requires n > 0 ==> q == []
    ensures (wire + payload[..n]) + Pending(q + [Fragment(payload, n)]) == accepted + payload
  {
    if q == [] {
      assert q + [Fragment(payload, n)] == [Fragment(payload, n)];
      FirstBlockKeepsOrder(wire, accepted, payload, n);
    } else {
      assert wire + payload[..n] == wire;
      BacklogKeepsOrder(wire, q, accepted, payload);
    }
  }

  /** The first block of an empty queue: its written prefix and its remainder make up
      the payload. */
  lemma FirstBlockKeepsOrder(wire: seq<bv8>, accepted: seq<bv8>, payload: seq<bv8>, n: nat)
    requires wire == accepted
    requires n <= |payload|
    ensures (wire + payload[..n]) + Pending([Fragment(payload, n)]) == accepted + payload
  {
    var f := Fragment(payload, n);
    PendingAppend([], f);
    assert [] + [f] == [f];
    assert payload == payload[..n] + Remainder(f);
  }

  /** A whole payload queued behind a backlog goes out after everything pending. */
  lemma BacklogKeepsOrder(wire: seq<bv8>, q: seq<Fragment>, accepted: seq<bv8>, payload: seq<bv8>)
    requires wire + Pending(q) == accepted
    ensures wire + Pending(q + [Fragment(payload, 0)]) == accepted + payload
  {
    var f := Fragment(payload, 0);
    PendingAppend(q, f);
    assert Remainder(f) == payload;
  }

  /** Writing the first `n` bytes of the head block and putting the advanced block back
      at the head keeps the order. */
  lemma PartialWriteKeepsOrder(wire: seq<bv8>, q: seq<Fragment>, accepted: seq<bv8>, n: nat)
    requires wire + Pending(q) == accepted
    requires q != [] && q[0].offset + n <= |q[0].bytes|
    ensures (wire + Remainder(q[0])[..n]) + Pending([Advance(q[0], n)] + q[1..]) == accepted
  {
    var head, rest := q[0], q[1..];
    var g := Advance(head, n);
    PendingCons(g, rest);
    ConcatAssoc(wire, Remainder(head)[..n], Remainder(g), Pending(rest));
  }

  /** Writing the whole head block and dropping it keeps the order. */
  lemma FullWriteKeepsOrder(wire: seq<bv8>, q: seq<Fragment>, accepted: seq<bv8>)
    requires wire + Pending(q) == accepted
    requires q != []
    ensures (wire + Remainder(q[0])) + Pending(q[1..]) == accepted
  {
    assert Pending(q) == Remainder(q[0]) + Pending(q[1..]);
  }

  /** Regrouping of four concatenated byte strings. */
  lemma ConcatAssoc(w: seq<bv8>, a: seq<bv8>, b: seq<bv8>, c: seq<bv8>)
    ensures (w + a) + (b + c) == w + ((a + b) + c)
  {
  }

  /** What `send` did with a payload: its result, the queue afterwards, and the bytes
      its inline write put on the wire. */
  datatype SendOutcome = SendOutcome(ok: bool, queue: seq<Fragment>, written: seq<bv8>)

  /** `send` of a payload onto queue `q`. An empty payload is accepted at once. With
      nothing queued, one write is tried: an error fails the call, a full write
      completes it, and otherwise the block, its offset past the bytes written, is
      queued at the tail; with data queued, the whole payload is queued behind it.
      `enqueued` says whether the queue took the block. */
  function SendPayload(q: seq<Fragment>, payload: seq<bv8>, io: SendResult, enqueued: bool): (s: SendOutcome)
    requires SendResultFits(io, |payload|)
    ensures |payload| == 0 ==> s == SendOutcome(true, q, [])
    ensures |payload| > 0 && q == [] && NoBlkSend(|payload|, io) < 0 ==> s == SendOutcome(false, [], [])
    ensures |payload| > 0 && q == [] && NoBlkSend(|payload|, io) == |payload| ==>
      s == SendOutcome(true, [], payload)
    ensures |payload| > 0 && q == [] && NoBlkSend(|payload|, io) >= 0 ==>
      s.written == payload[..NoBlkSend(|payload|, io)]
    ensures s.written <= payload
    ensures q != [] ==> s.written == []
    ensures !s.ok ==> s.queue == q
    ensures s.queue == q || s.queue == q + [Fragment(payload, |s.written|)]
    ensures s.ok && s.queue == q ==> s.written == payload
    ensures s.ok <==>
      |payload| == 0 || (q == [] && NoBlkSend(|payload|, io) == |payload|) ||
      (enqueued && (q != [] || NoBlkSend(|payload|, io) >= 0))
  {
    if |payload| == 0 then SendOutcome(true, q, [])
    else
      var n := if q == [] then NoBlkSend(|payload|, io) else 0;
      if n < 0 then SendOutcome(false, q, [])
      else if n == |payload| then SendOutcome(true, q, payload)
      else if enqueued then SendOutcome(true, q + [Fragment(payload, n)], payload[..n])
      else SendOutcome(false, q, payload[..n])
  }

  /** What one write-ready event did to a non-empty queue: the handler's result, the
      queue afterwards, and the bytes written. */
  datatype OutputOutcome = OutputOutcome(status: int, queue: seq<Fragment>, written: seq<bv8>)

  /** The write-ready handler on a non-empty queue: the head block is taken off and its
      remainder written. An error drops it (-1); a full write drops it (1); a partial
      write, or none, advances its offset and puts it back at the head (0), unless the
      queue refuses it, in which case it is dropped (-1). `requeued` says whether the
      queue took the block back. */
  function WriteHead(q: seq<Fragment>, io: SendResult, requeued: bool): (s: OutputOutcome)
    requires q != [] && SendResultFits(io, |Remainder(q[0])|)
    ensures var n := NoBlkSend(|Remainder(q[0])|, io);
      s.written == if n < 0 then [] else Remainder(q[0])[..n]
    ensures s.written <= Remainder(q[0])
    ensures s.status == -1 || s.status == 0 || s.status == 1
    ensures s.status != 0 ==> s.queue == q[1..]
    ensures s.status == 0 ==>
      |s.written| < |Remainder(q[0])| && s.queue == [Advance(q[0], |s.written|)] + q[1..]
    ensures Queued(q[0]) ==> (s.status == 1 <==> s.written == Remainder(q[0]))
    ensures s.status == -1 <==> NoBlkSend(|Remainder(q[0])|, io) < 0 || (!requeued && s.written != Remainder(q[0]))
  {
    var head := q[0];
    var n := NoBlkSend(|Remainder(head)|, io);
    if n < 0 then OutputOutcome(-1, q[1..], [])
    else if n == |Remainder(head)| then OutputOutcome(1, q[1..], Remainder(head))
    else if requeued then OutputOutcome(0, [Advance(head, n)] + q[1..], Remainder(head)[..n])
    else OutputOutcome(-1, q[1..], Remainder(head)[..n])
  }

  /** `send` keeps the stream in order: when it succeeds, what was on the wire, plus
      what it wrote, plus what is pending afterwards, is the old stream followed by the
      payload; when it fails without writing, nothing changes. */
  lemma SendKeepsOrder(wire: seq<bv8>, q: seq<Fragment>, accepted: seq<bv8>, payload: seq<bv8>, io: SendResult, enqueued: bool)
    requires wire + Pending(q) == accepted
    requires SendResultFits(io, |payload|)
    ensures var s := SendPayload(q, payload, io, enqueued);
      (s.ok ==> (wire + s.written) + Pending(s.queue) == accepted + payload) &&
      (!s.ok && s.written == [] ==> wire + Pending(s.queue) == accepted)
  {
    var s := SendPayload(q, payload, io, enqueued);
    if s.ok {
      if |payload| == 0 {
        assert s.written == [] && s.queue == q;
      } else if s.queue == q {
        assert q == [] && s.written == payload;
      } else {
        EnqueueKeepsOrder(wire, q, accepted, payload, |s.written|);
        assert s.written == payload[..|s.written|];
      }
    }
  }

  /** `send` only ever queues blocks that still hold unsent bytes. */
  lemma SendKeepsQueued(q: seq<Fragment>, payload: seq<bv8>, io: SendResult, enqueued: bool)
    requires AllQueued(q)
    requires SendResultFits(io, |payload|)
    ensures AllQueued(SendPayload(q, payload, io, enqueued).queue)
  {
    var s := SendPayload(q, payload, io, enqueued);
    if s.queue != q {
      assert s.ok && s.written != payload;
      assert |s.written| < |payload|;
      assert Queued(s.queue[|q|]);
    }
  }

  /** The write-ready handler keeps the stream in order unless it reports an error. */
  lemma WriteHeadKeepsOrder(wire: seq<bv8>, q: seq<Fragment>, accepted: seq<bv8>, io: SendResult, requeued: bool)
    requires wire + Pending(q) == accepted
    requires q != [] && SendResultFits(io, |Remainder(q[0])|)
    ensures var s := WriteHead(q, io, requeued);
      s.status != -1 ==> (wire + s.written) + Pending(s.queue) == accepted
  {
    var s := WriteHead(q, io, requeued);
    if s.status == 1 {
      FullWriteKeepsOrder(wire, q, accepted);
    } else if s.status == 0 {
      PartialWriteKeepsOrder(wire, q, accepted, |s.written|);
    }
  }

  /** When the write-ready handler reports an error, the unsent bytes of the head block
      are lost: less than the accepted stream ever reaches the wire or the queue. */
  lemma WriteHeadErrorLosesBytes(wire: seq<bv8>, q: seq<Fragment>, accepted: seq<bv8>, io: SendResult, requeued: bool)
    requires wire + Pending(q) == accepted
    requires q != [] && Queued(q[0]) && SendResultFits(io, |Remainder(q[0])|)
    ensures var s := WriteHead(q, io, requeued);
      s.status == -1 ==> |(wire + s.written) + Pending(s.queue)| < |accepted|
  {
    var s := WriteHead(q, io, requeued);
    assert Pending(q) == Remainder(q[0]) + Pending(q[1..]);
  }

  /** The write-ready handler only puts back blocks that still hold unsent bytes. */
  lemma WriteHeadKeepsQueued(q: seq<Fragment>, io: SendResult, requeued: bool)
    requires AllQueued(q)
    requires q != [] && SendResultFits(io, |Remainder(q[0])|)
    ensures AllQueued(WriteHead(q, io, requeued).queue)
  {
    var s := WriteHead(q, io, requeued);
    if s.status == 0 {
      assert Queued(s.queue[0]);
      assert s.queue[1..] == q[1..];
    }
  }
}
