/** Three client runs of a fresh socket, checked against the contracts alone. */
module Scenarios {
  import opened SocketIo
  import opened OutboundQueue
  import opened Connection

  /** The transport fills the whole 4096-byte buffer in one receive; the application
      consumes all but 10 bytes. The handler asks to be called again, and after
      compaction the 10 bytes left sit at the start with 4086 bytes free behind them. */
  method FullReceive(data: seq<bv8>)
    requires |data| == Capacity
  {
    var s := new BufferedSocket();
    assert s.FreeSpace() == Capacity && s.Unread() + data == data;
    var status := s.HandleInput(RecvReturned(data), Capacity - 10);
    assert status == 1;
    assert s.RecvLen() == 10 && s.FreeSpace() == 4086;
    assert s.Unread() == data[Capacity - 10..];
    var ok, got := s.RecvSoft(11);
    assert !ok;
    ok, got := s.Recv(10);
    assert ok && got == data[Capacity - 10..] && s.RecvLen() == 0;
  }

  /** A 3000-byte payload of which the inline write takes 1000 bytes: the other 2000
      are queued and write interest is on. Two write-ready events taking 800 and then
      1200 bytes drain the block; the next event finds the queue empty and cancels
      write interest. The peer has then received exactly the payload. */
  method PartialSend(payload: seq<bv8>)
    requires |payload| == 3000
  {
    var s := new BufferedSocket();
    var ok := s.Send(payload, SendReturned(1000), true);
    assert ok && s.writeInterest && s.queue == [Fragment(payload, 1000)];
    assert s.wire == payload[..1000];
    var status := s.HandleOutput(SendReturned(800), true);
    assert status == 0 && s.queue == [Fragment(payload, 1800)];
    status := s.HandleOutput(SendReturned(1200), true);
    assert status == 1 && s.queue == [] && s.writeInterest;
    status := s.HandleOutput(SendFailed(true), true);
    assert status == 0 && !s.writeInterest;
    assert s.intact && s.accepted == payload;
    assert s.wire == payload;
  }

  /** A second payload sent while the first is still queued is not written inline but
      queued whole behind it, and the peer receives the two in order. */
  method SendBehindBacklog(first: seq<bv8>, second: seq<bv8>)
    requires |first| == 10 && |second| == 5
  {
    var s := new BufferedSocket();
    var ok := s.Send(first, SendFailed(true), true);
    assert ok && s.queue == [Fragment(first, 0)];
    ok := s.Send(second, SendReturned(5), true);
    assert ok && s.queue == [Fragment(first, 0), Fragment(second, 0)];
    var status := s.HandleOutput(SendReturned(10), true);
    assert status == 1;
    status := s.HandleOutput(SendReturned(5), true);
    assert status == 1 && s.queue == [];
    assert s.wire == first + second;
  }
}
