# BufferedSocket: a verified model of the auth server's non-blocking socket

This project models the core of `BufferedSocket`, the socket class the
authentication server uses for each client connection. The class has two parts.

- **Receive buffer.** A fixed 4096-byte buffer with a read cursor and a write
  cursor. The input handler receives into the free space behind the write
  cursor and hands control to the application's read hook. The hook consumes
  bytes with `recv_soft`, `recv` and `recv_skip`. The handler then compacts the
  buffer, moving the unread bytes to offset 0.
- **Outbound queue.** `send` first tries one immediate write when nothing is
  queued. Whatever it could not write is queued as a message block, and write
  interest is turned on. The output handler writes from the head block. It drops
  the block once it is fully written, puts a partly written block back at the
  head with its read offset advanced, and cancels write interest when the queue
  is empty.

Files:

- `socket_io.dfy` (module `SocketIo`): the outcomes of one non-blocking `send`
  or `recv` system call, and `NoBlkSend`, which maps a send outcome to -1, 0 or
  the byte count.
- `outbound_queue.dfy` (module `OutboundQueue`): message blocks (`Fragment`:
  payload and read offset) and `Pending`, the unsent bytes of a queue in order.
  `SendPayload` and `WriteHead` give the effect of `send` and of one
  write-ready event on the queue. The lemmas prove that both keep the byte
  stream in order.
- `connection.dfy` (module `Connection`): class `BufferedSocket`. The receive
  buffer is an `array<bv8>` with cursors `rd` and `wr`. The queue is a
  `seq<Fragment>` and write interest is a `bool`. Three ghost fields record the
  stream:
  - `wire`: every byte the transport took;
  - `accepted`: the payloads `send` reported as accepted;
  - `intact`: false once a failure has split or dropped a payload.

  The class invariant `Valid()` holds:
  - `rd <= wr <= 4096`;
  - every queued block still has unsent bytes;
  - a non-empty queue implies write interest;
  - FIFO integrity: while `intact`, `wire + Pending(queue) == accepted`.

  Every method preserves `Valid()`, so FIFO integrity holds after any
  sequence of `send`, output and input events.
- `scenarios.dfy` (module `Scenarios`): client runs of a fresh socket, checked
  from the contracts alone:
  - a receive that exactly fills the buffer;
  - a 3000-byte send drained by writes of 1000, 800 and 1200 bytes;
  - a second payload queued behind a backlog.

Each system call is a parameter:

- A send outcome is `SendFailed(wouldBlock)` (a negative return, and what
  `errno` said) or `SendReturned(n)`.
- A receive outcome is `RecvFailed(wouldBlock)` or `RecvReturned(bytes)`.
  Zero bytes means end of file.
- Whether the message queue accepted a block (`enqueue_tail`, `enqueue_head`
  with a zero timeout) is a `bool` parameter.
- The application's read hook is a parameter `consumed`, the number of bytes it
  consumes. The hook is modelled as a `RecvSkip(consumed)` call.

Three behaviours of the code are worth noting:

- A write that returns 0 bytes is an error (-1) in `noblk_send`, not a
  would-block.
- After a head block is fully written, write interest is not cancelled at once.
  It is cancelled by the next write-ready event that finds the queue empty.
- With no free space left in the receive buffer, the receive asks for 0 bytes.
  Its result of 0 is taken as end of file, and the handler returns -1.

## Model

| member | source | states |
|---|---|---|
| SocketIo.NoBlkSend | src/authserver/BufferedSocket.cpp:98-122 | the result is -1 exactly for a zero-length block, a non-would-block error or a zero-byte send; 0 exactly for would-block; otherwise the byte count n, with 0 < n <= len |
| OutboundQueue.Remainder | src/authserver/BufferedSocket.cpp:100-106 | the unsent part of a block has length `len(bytes) - offset`, or 0 past the end |
| OutboundQueue.Advance | src/authserver/BufferedSocket.cpp:202 | advancing the read offset by n splits the remainder into the n bytes just written and the rest, and a block that is not finished stays queued |
| OutboundQueue.PendingAppend | src/authserver/BufferedSocket.cpp:164 | queueing a block at the tail appends its remainder to the pending bytes |
| OutboundQueue.PendingCons | src/authserver/BufferedSocket.cpp:204 | a block put back at the head is written before everything else pending |
| OutboundQueue.PendingEmpty | src/authserver/BufferedSocket.cpp:178 | a queue of unfinished blocks has pending bytes exactly when it is not empty |
| OutboundQueue.SendPayload | src/authserver/BufferedSocket.cpp:124-172 | an empty payload succeeds and changes nothing; on an empty queue, an inline error fails and a full inline write succeeds, both leaving the queue empty; on an empty queue, a non-failing inline write puts exactly the first n payload bytes on the wire, n being the count `noblk_send` reported; nothing is written inline behind a backlog; a failed send leaves the queue unchanged; otherwise at most one block is appended, holding the payload with its offset at exactly those n bytes; the call succeeds exactly for an empty payload, a full inline write, or an enqueued block after a non-failing inline attempt |
| OutboundQueue.WriteHead | src/authserver/BufferedSocket.cpp:185-211 | exactly the first n bytes of the head's remainder are written, n being the count `noblk_send` reported, and nothing on a send error; results other than 0 drop only the head; result 0 writes less than the remainder and puts the advanced head back in front of the untouched rest; result 1 exactly when the remainder was fully written; result -1 exactly on a send error or a refused re-queue |
| OutboundQueue.EnqueueKeepsOrder | src/authserver/BufferedSocket.cpp:155-168 | writing a prefix of the payload and queueing the rest keeps `wire + pending` equal to the accepted stream extended by the payload |
| OutboundQueue.FirstBlockKeepsOrder | src/authserver/BufferedSocket.cpp:155-164 | on an empty queue, the inline-written prefix and the queued block's remainder make up the payload |
| OutboundQueue.BacklogKeepsOrder | src/authserver/BufferedSocket.cpp:162-164 | a payload queued whole behind a backlog follows the pending bytes |
| OutboundQueue.PartialWriteKeepsOrder | src/authserver/BufferedSocket.cpp:200-210 | a partial write of the head, with the head put back, keeps `wire + pending` unchanged |
| OutboundQueue.FullWriteKeepsOrder | src/authserver/BufferedSocket.cpp:195-198 | a full write of the head, with the head dropped, keeps `wire + pending` unchanged |
| OutboundQueue.SendKeepsOrder | src/authserver/BufferedSocket.cpp:145-171 | FIFO integrity across `send`: on success, wire plus what was written plus what is pending equals the accepted stream followed by the payload; a failure that wrote nothing changes nothing |
| OutboundQueue.SendKeepsQueued | src/authserver/BufferedSocket.cpp:150-164 | `send` only queues blocks with unsent bytes |
| OutboundQueue.WriteHeadKeepsOrder | src/authserver/BufferedSocket.cpp:185-211 | FIFO integrity across a write-ready event that does not report an error |
| OutboundQueue.WriteHeadErrorLosesBytes | src/authserver/BufferedSocket.cpp:190-208 | on result -1, from a send error or a refused re-queue, the unsent bytes of the head are gone: wire plus pending is shorter than the accepted stream |
| OutboundQueue.WriteHeadKeepsQueued | src/authserver/BufferedSocket.cpp:195-210 | a write-ready event only puts back a block that still has unsent bytes |
| Connection.BufferedSocket.constructor | src/authserver/BufferedSocket.cpp:36 | a new socket has a 4096-byte receive buffer with nothing unread, an empty queue and no write interest |
| Connection.BufferedSocket.RecvLen | src/authserver/BufferedSocket.cpp:68-71 | the result is the number of unread bytes |
| Connection.BufferedSocket.FreeSpace | src/authserver/BufferedSocket.cpp:218 | the free space and the unread bytes together fit in the capacity |
| Connection.BufferedSocket.RecvSoft | src/authserver/BufferedSocket.cpp:73-81 | succeeds iff `len <= RecvLen()`; on success it returns exactly the next `len` unread bytes; the buffer is never changed |
| Connection.BufferedSocket.RecvSkip | src/authserver/BufferedSocket.cpp:93-96 | with `len <= RecvLen()`, the read cursor advances by exactly `len` and the first `len` unread bytes are consumed; the buffer invariant is kept |
| Connection.BufferedSocket.Recv | src/authserver/BufferedSocket.cpp:83-91 | succeeds iff `len <= RecvLen()`; on success it returns the bytes `RecvSoft` would and `RecvLen()` drops by exactly `len`; on failure nothing changes |
| Connection.BufferedSocket.Fill | src/authserver/BufferedSocket.cpp:218-231 | the received bytes are appended to the unread bytes and the write cursor advances by their number |
| Connection.BufferedSocket.Crunch | src/authserver/BufferedSocket.cpp:235-236 | after compaction the read cursor is 0, the unread bytes are the same bytes in the same order, and storage past them is untouched |
| Connection.BufferedSocket.HandleInput | src/authserver/BufferedSocket.cpp:216-240 | would-block gives 0; an error or end of file gives -1; both leave the buffer unchanged; n > 0 bytes give 1 iff n equals the free space before the call, else 0; afterwards the read cursor is 0, the unread bytes are the old unread bytes plus the new ones less what the hook consumed, and the free space is the capacity minus `RecvLen()` |
| Connection.BufferedSocket.Send | src/authserver/BufferedSocket.cpp:124-172 | result, new queue and bytes written are those of `SendPayload`; write interest turns on exactly when a block is queued; the accepted stream grows by the payload exactly on success; FIFO integrity is lost only when a failing call had already written bytes |
| Connection.BufferedSocket.HandleOutput | src/authserver/BufferedSocket.cpp:174-214 | on an empty queue the result is 0, write interest is cleared and nothing else changes; otherwise result, queue and bytes written are those of `WriteHead`, write interest is unchanged, and FIFO integrity is lost exactly on result -1 |

## Left out

- `open` (src/authserver/BufferedSocket.cpp:42-61) and `get_remote_address`: these are reactor registration, the peer-address lookup and string formatting. They are I/O with no logic to prove.
- `handle_close` and `close_connection` (src/authserver/BufferedSocket.cpp:242-257): these only call the `OnClose` hook and socket and reactor teardown. Bytes still queued at teardown are not modelled.
- The `OnAccept` and `OnClose` hooks are implemented outside this file. `OnRead` is modelled only as consuming some of the unread bytes. It could also call `send`, and that is not modelled.
- A null `buf` in `send` cannot be expressed with a sequence. It behaves exactly like an empty payload: the call returns true and nothing changes.
- `schedule_wakeup` and `cancel_wakeup` always succeed in the model. Write interest is a flag. A failing `schedule_wakeup` would make `send` return false with the block already queued, and that case is not modelled.
- The `dequeue_head` failure path (src/authserver/BufferedSocket.cpp:185-186) is not modelled. The queue was just found non-empty, so a zero-timeout dequeue cannot fail for lack of data.
- Message-block reference counting, `clone`/`release`, and the stack versus heap ownership of the block are not modelled. A queued block is an owned copy of the payload.
- Socket `errno` values other than would-block are not told apart; they are all one "error" outcome. `size_t` and `ssize_t` widths are not modelled, and all lengths are unbounded naturals.
- Concurrency and reactor dispatch order are not modelled: calls on one socket are serialised.
- Connection.BufferedSocket.Send: once `intact` is false, no ordering claim is made about later bytes. The source gives no guarantee there either, because part of a payload has already reached the peer without the rest.
