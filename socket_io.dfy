/** What the non-blocking transport calls of a buffered socket can report, and how the
    socket classifies a send attempt. The system calls themselves are not modelled: each
    call's outcome is a parameter of the operation that makes it. */
module SocketIo {

  /** One non-blocking `send` system call: either it returned a negative value, with
      `errno` saying whether the call would have blocked, or it returned the number of
      bytes the kernel accepted (possibly zero). */
  datatype SendResult = SendFailed(wouldBlock: bool) | SendReturned(n: nat)

  /** One non-blocking `recv` system call: either it returned a negative value, with
      `errno` saying whether the call would have blocked, or it returned the bytes it
      read (none at all meaning the peer closed its side). */
  datatype RecvResult = RecvFailed(wouldBlock: bool) | RecvReturned(bytes: seq<bv8>)

  /** The kernel never reports more bytes sent than it was asked to send. */
  predicate SendResultFits(io: SendResult, len: nat)
  {
    io.SendReturned? ==> io.n <= len
  }

  /** One non-blocking write attempt of `len` bytes. The result is -1 for an error
      (nothing to send, a failure other than would-block, or a zero-byte send), 0 when
      the transport would block, and otherwise the number of bytes written. */
  function NoBlkSend(len: nat, io: SendResult): (r: int)
    requires SendResultFits(io, len)
    ensures -1 <= r <= len
    ensures r == -1 <==> len == 0 || io == SendFailed(false) || io == SendReturned(0)
    ensures r == 0 <==> len > 0 && io == SendFailed(true)
    ensures r > 0 <==> len > 0 && io.SendReturned? && io.n > 0
    ensures r > 0 ==> r == io.n
  {
    if len == 0 then -1
    else
      match io
      case SendFailed(wouldBlock) => if wouldBlock then 0 else -1
      case SendReturned(n) => if n == 0 then -1 else n
  }
}
