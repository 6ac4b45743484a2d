# A verified model of the RabbitMQ Stream client for C++

This project models the concurrent core and the wire format of the client in
`cpp_rabbitmq_client_stream` and proves properties of the model with Dafny 4.11. Run
`dafny verify dfyconfig.toml` in this directory.

The model has four layers.

- **Protocol.** `Correlation.dfy` is a transition system: any number of threads inside
  `send_and_wait`, the request that `close` sends, and the threads that resolve promises. One step
  is one `lock_guard` block or one atomic operation. The state carries its own history: all
  registrations, all `set_value` calls, all frames dispatched, all frames sent.
  `Lifecycle.dfy` puts `connect`, `close`, `require_open`, `io_loop` and the heartbeat thread
  around it, each as a control graph with one step per critical section, atomic operation or
  thread-local action, and adds a trace of the moments the properties speak of. Theorems hold in
  every state of every run, for all interleavings. `Dispatcher.dfy` is the dispatcher as a class;
  its methods and the steps of the protocol are stated through the same table operations.
  `Outcomes.dfy` says why calls end as they do and where every failure comes from,
  `Admission.dfy` who may use a connection and what close does to it, and `Scenarios.dfy` holds
  lives of a client, from `connect` on, that show what is not kept.
- **Streams.** `Sockets.dfy` runs `read_exact`, `read_frame` and `write_all` over a kernel that is
  an arbitrary script of partial transfers, interrupts, timeouts, ends and errors. `IoLoop.dfy` is
  `io_loop` over that socket, that dispatcher and a clock; each of its passes is recorded, the passes
  are a function of what the kernel and the clock do, and what becomes of a request is a function of
  the passes. `WriteLock.dfy` is `write_all` under
  any number of threads, `Heartbeat.dfy` the timing of the heartbeat timeout, and `Oneways.dfy`
  the frames that are sent without waiting for an answer.
- **Wire format.** `Wire.dfy`, `Frames.dfy` and `Commands.dfy` state grammars as parser functions
  and printers with their round trips in both directions; `Codec.dfy`, `Buffers.dfy` and
  `CommandCode.dfy` are the code that works byte by byte on a buffer and a cursor, proved to do
  what the grammars say. `Utf8.dfy` states RFC 3629 as a relation between scalar values and bytes
  and proves the validator equal to it. The masks of the validator are bit-vector operations; the
  shifts and disjunctions of the source appear as multiplications, divisions and sums, here and in
  `Codec.dfy`, and `Utf8.SixMoreBits` and `Codec.EightMoreBits` show on bit-vectors that they agree.
- **Handshake.** `Handshake.dfy` is `run_handshake` against an arbitrary list of read results and
  write failures; `Exchanges.dfy` and `Layouts.dfy` say in numbers and bytes what both sides say.

Strings are byte sequences. Integer widths, their wrap-around and narrowing casts are explicit.
Errors carry their kind and, for `ServerError`, the server's code; their message text is not
modelled. `Result` is a two-case datatype. Time is a number of milliseconds that never goes back.

## Where the code and its documentation disagree

The model follows the code.

- The client is to never reuse the id of an outstanding request, say its API requirements. The
  counter `next_app_cid_` (`include/stream/client.hpp:130-133`) wraps without looking at the table,
  and what matters is the age of the oldest held id, not the number of outstanding requests that
  the comment on the unused `next_id_` speaks of (`include/stream/dispatcher.hpp:35-36`).
  `Scenarios.IdsAreReused` shows the failure with one request outstanding;
  `Correlation.BrokenExactly`, `Correlation.FreshIds` and `Lifecycle.FreshIdsInLife` say when it
  cannot happen.
- The callback is to never fire on a graceful close (`include/stream/client.hpp:47-50`). It can, in
  two ways: `Lifecycle.CloseMayNotify`, `Lifecycle.SampleThenClose`, and exactly when:
  `Lifecycle.QuietCloseExactly`.
- A heartbeat of 0 from either side is to switch heartbeats off, say its connection requirements.
  A client's 0 is ignored: `Handshakes.ZeroIsIgnored`, and exactly when: `Handshakes.HeartbeatExactly`.
- A request registered after `fail_all_pending` is not resolved by it and, once close has returned,
  by nothing else: `Lifecycle.CloseOk`. The same holds when the I/O thread ends by itself, until
  close: `Lifecycle.ExitResolves`.
- When the I/O thread ends by itself the state is `Closed`, so that `close` is refused and nobody
  stops the heartbeat thread: `Lifecycle.BeatNeverEnds`.
- Every frame sent after `Tune` is to respect `FrameMax`. `store_offset`, `close` and the heartbeat
  thread send without the check. With a limit of 20, which lets the vhost `/` open
  (`Handshakes.SmallestOpen`), `close` sends 34 bytes behind the size field
  (`Scenarios.CloseBreaksLimit`), and `store_offset` breaks it with two short strings
  (`Oneways.StoreBreaksLimit`). Exactly when the limit is kept: `Correlation.LimitKeptExactly` and
  `Oneways.LimitKeptExactly`; the frames that are checked: `Correlation.SendsFit` and
  `Handshakes.RunHandshake`.
- An inbound frame over the negotiated limit is to end the connection. No size is checked against
  it: `Frames.FrameExact` accepts a well-formed frame of any size.
- `dispatch` matches on the correlation id and the response bit alone, not on the command key:
  `Dispatchers.Dispatcher.Dispatch`, and a call answered by another command's response:
  `Scenarios.AnsweredByAnotherCommand`. The callers of the decoders ignore trailing bytes.
- A string longer than 32767 bytes is silently cut: `Wire.TextReadBack`.
- A frame that cannot be parsed ends the connection as a read error like any other; the close
  reason for protocol violations is never used.

## Model

| member | source | states |
|---|---|---|
| `Correlation.SetAtMostOnce` | cpp_rabbitmq_client_stream/src/dispatcher.cpp:7-80 | In every interleaving of any number of callers and resolvers, every registration is in exactly one of four places (pending, taken by a resolver, resolved, or rejected because its id was occupied); no promise is set twice over a whole run, and the outcome it was set to never changes. |
| `Correlation.OwnAnswer` | cpp_rabbitmq_client_stream/src/client.cpp:285-312 | A call that returns a frame returns one that was handed to dispatch, with the response bit set and under exactly the correlation id the call was given; no other call is answered from that frame. |
| `Outcomes.CollectReturns` | cpp_rabbitmq_client_stream/src/client.cpp:307-312 | What a call that waits returns: an exception on a broken promise, otherwise the frame it was answered with, the very error it was failed with, RequestTimeout if it was reaped, and RequestTimeout if its own wait ran out with the promise unset; nothing else changes. |
| `Outcomes.WhyFailed` | cpp_rabbitmq_client_stream/src/client.cpp:285-312 | Over any run, every failure comes from one step: the size check of a frame beyond the limit (ProtocolViolation), the call's own write (its error), a promise failed with exactly this kind, a promise timed out, or a wait that ended unresolved. |
| `Outcomes.WhyCallFailed` | cpp_rabbitmq_client_stream/src/client.cpp:197-312 | Over a whole life: a call that failed was beyond the limit, or its write failed with this kind, or (RequestTimeout) its deadline had come, or its promise was failed with the kind of a read that had failed before, or with ConnectionClosed after a dead heartbeat or by close. |
| `Outcomes.WhyResolved` | cpp_rabbitmq_client_stream/src/client.cpp:216-251 | Over a whole life: a promise is timed out only when its deadline has come, and failed only with the kind of a failed read, or with ConnectionClosed behind a dead heartbeat or when close takes the rest. |
| `Outcomes.SentBeforeWaiting` | cpp_rabbitmq_client_stream/src/client.cpp:294-312 | In every run a call that waits, was answered, or threw has sent its frame, and one that has not come to its write has not. |
| `Outcomes.DeadlinesAreNear` | cpp_rabbitmq_client_stream/src/client.cpp:293-294 | No deadline in the table is ever further ahead than the request timeout. |
| `Outcomes.EveryPassReaps` | cpp_rabbitmq_client_stream/src/client.cpp:210-251 | Under any interleaving: when the I/O thread is back at its loop head, no request is pending that was registered and due when this pass had read a frame or woken up. |
| `Outcomes.ReasonIsTrue` | cpp_rabbitmq_client_stream/src/client.cpp:228-241 | In every life a callback for a closed peer lies behind a read that met the end of the stream, and one for a read error behind a read that met another error. |
| `Correlation.OwnRequest` | cpp_rabbitmq_client_stream/src/client.cpp:160-166 | In any run, across any number of counter wraps: another call that was given the id of the frame a call is answered with was allocated a multiple of 2^32 allocations, and at least 2^32, before or after it. |
| `Correlation.OwnRequestBeforeWrap` | cpp_rabbitmq_client_stream/src/client.cpp:160-166 | So while at most 2^32 ids have been handed out, no other call, not even one that finished long ago, was ever given that id: the frame is the answer to the call's own request. |
| `Correlation.FreshIds` | cpp_rabbitmq_client_stream/src/client.cpp:288-294 | Across counter wrap, with allocation and registration as separate steps: as long as no id still held (allocated and unregistered, or pending) is more than 2^32 allocations old, every registration inserts and no call ends in a broken promise. |
| `Correlation.BrokenExactly` | cpp_rabbitmq_client_stream/src/dispatcher.cpp:12-15 | A registration finds its id occupied if and only if some pending entry's allocation differs from it by a multiple of 2^32. |
| `Scenarios.IdsAreReused` | openspec/changes/add-stream-tcp-client-cpp/tasks.md:61 | The promise never to reuse the id of an outstanding request fails: a life of a client, from connect on, that comes to a state in which one single request is pending, every other request was sent, answered and has returned, no deadline has passed, and the wrapped counter has handed the pending id to a new call, whose promise is broken. The life sends one request a millisecond under a long request_timeout. |
| `Correlation.LateResponse` | cpp_rabbitmq_client_stream/src/dispatcher.cpp:24-30 | A response to a request that was reaped or failed changes nothing but the record that it was dispatched, as long as its id has not come round again. |
| `Correlation.SendsFit` | cpp_rabbitmq_client_stream/src/client.cpp:296-305 | Every frame sent is the envelope of its own call's request under its own id, no call sends two, and a frame sent by send_and_wait fits the negotiated FrameMax. |
| `Correlation.LimitKeptExactly` | cpp_rabbitmq_client_stream/src/client.cpp:156-169 | In every reachable state: all frames sent so far are within FrameMax iff there is no limit, or it is at least 34, or close has not sent its request. |
| `Scenarios.CloseBreaksLimit` | cpp_rabbitmq_client_stream/src/client.cpp:156-169 | A life of a client with a negotiated FrameMax of 20 in which close sends a frame of 38 bytes, 34 behind the size field. |
| `Handshakes.SmallestOpen` | cpp_rabbitmq_client_stream/src/handshake.cpp:202-206 | The Open request for the vhost "/" fits a FrameMax iff it is 0 or at least 11, so that a limit of 20 lets a connection open. |
| `Oneways.Store` | cpp_rabbitmq_client_stream/src/client.cpp:397-413 | store_offset fails on a connection that is not open and on a reference over 256 bytes, writing nothing; otherwise it succeeds iff the sends accept its whole frame, a failure leaves a proper prefix and is the error of the send it ended on, whatever the negotiated FrameMax. |
| `Oneways.LimitKeptExactly` | cpp_rabbitmq_client_stream/src/client.cpp:117-123 | A store_offset frame is within FrameMax iff there is no limit or it is at least 16 plus the bytes written of both strings; a heartbeat frame iff there is none or it is at least 4. |
| `Oneways.StoreBreaksLimit` | cpp_rabbitmq_client_stream/src/client.cpp:403-413 | A FrameMax of 20 is broken by a reference and a stream name of three characters each. |
| `Correlation.EveryStateHolds` | cpp_rabbitmq_client_stream/src/dispatcher.cpp:7-80 | The conjunction of all protocol invariants (numbering, ownership, partition, answers, replies, sends) holds in every state of every run. |
| `Lifecycle.RefinesCorrelation` | cpp_rabbitmq_client_stream/src/client.cpp:35-312 | Every life of a client traces one run of the correlation protocol: each state of the life has its place in that run, in order and without a gap. |
| `Lifecycle.FreshIdsInLife` | cpp_rabbitmq_client_stream/src/client.cpp:288-294 | Over a whole life under connect, close and io_loop: while no held id is more than 2^32 allocations old, every registration inserts and no call throws. |
| `Lifecycle.SetAtMostOnceInLife` | cpp_rabbitmq_client_stream/src/dispatcher.cpp:7-80 | Over a whole life: a registration is in exactly one place at any time, its promise is set at most once, and to an outcome that never changes. |
| `Lifecycle.OneWay` | cpp_rabbitmq_client_stream/src/client.cpp:39-46 | Over every interleaving of connect, close, callers and threads the state rank only rises, at most one call of connect and one of close pass their gates, and the callback is dispatched at most once although connect resets its flag. |
| `Lifecycle.CloseOk` | cpp_rabbitmq_client_stream/src/client.cpp:144-191 | Whenever close returned ok, and connect had started the threads before close joined them: the state is Closed and both threads have ended; nothing is read, dispatched, notified or resolved in any later state; and a request is resolved iff it was registered before close failed the rest. |
| `Lifecycle.CloseOkSerial` | cpp_rabbitmq_client_stream/include/stream/client.hpp:27-30 | The same whenever connect and close are not called concurrently, as the class demands. |
| `Lifecycle.CloseBesideConnect` | cpp_rabbitmq_client_stream/include/stream/client.hpp:27-30 | Why the class demands it: a run in which close, called beside connect, returns ok and the I/O thread then enters its loop on a Closed client. |
| `Lifecycle.ExitResolves` | cpp_rabbitmq_client_stream/src/client.cpp:216-241 | When the I/O thread has ended by itself, on a dead heartbeat or a failed read, exactly the requests registered before its own fail_all_pending are resolved, until close takes the rest. |
| `Lifecycle.BeatNeverEnds` | cpp_rabbitmq_client_stream/src/client.cpp:101-129 | When the I/O thread has ended by itself before close began, the state stays Closed, close never passes its gate, the stop flag stays down, and a heartbeat thread that was started never ends. |
| `Lifecycle.CallbackIsJustified` | cpp_rabbitmq_client_stream/src/client.cpp:228-241 | A callback for a read error lies behind a sample of closing_ that was false, taken before close passed its gate; one for a heartbeat timeout lies behind the finding that the heartbeat is dead. |
| `Lifecycle.CallbackExactly` | cpp_rabbitmq_client_stream/src/client.cpp:216-241 | Once the I/O thread has ended, the callback was dispatched iff it found the heartbeat dead or sampled closing_ false. |
| `Lifecycle.QuietCloseExactly` | cpp_rabbitmq_client_stream/include/stream/client.hpp:47-50 | The promise that close does not fire the callback holds iff the I/O thread was not already past its last check when close passed its gate and does not find the heartbeat dead afterwards; with heartbeats off the second cannot happen. |
| `Lifecycle.CloseMayNotify` | cpp_rabbitmq_client_stream/src/client.cpp:216-222 | A run in which close passes its gate on a healthy connection and the heartbeat branch, which does not look at closing_, then notifies. |
| `Lifecycle.SampleThenClose` | cpp_rabbitmq_client_stream/src/client.cpp:231-239 | A run in which closing_ is sampled false, close passes its gate, and the callback goes out behind it. |
| `Lifecycle.NeverDeadEarly` | cpp_rabbitmq_client_stream/src/client.cpp:208-216 | In no run is the heartbeat found dead within 2000 ms per heartbeat second of the opening or of any inbound frame before it. |
| `Lifecycle.DispatchedInOrder` | cpp_rabbitmq_client_stream/src/client.cpp:202-252 | The frames dispatched are an initial segment of the frames the server sent, and at most one frame read is not dispatched yet. |
| `Lifecycle.AnswerIsServers` | cpp_rabbitmq_client_stream/src/client.cpp:244-312 | Over a whole life: whatever a call returns as an answer is one of the frames the server sent, a response under the call's own id, and no other call is answered from that frame. |
| `Lifecycle.AnsweredInTime` | cpp_rabbitmq_client_stream/src/client.cpp:250-251 | Of the requests registered before a pass reaped, none whose deadline had been reached at the reap is answered by that pass. |
| `Lifecycle.NextLife` | cpp_rabbitmq_client_stream/src/client.cpp:35-312 | Every step of every thread keeps all invariants of the client's life. |
| `Admissions.AdmissionExactly` | cpp_rabbitmq_client_stream/src/client.cpp:318-325 | require_open lets a call in iff the state is Open; otherwise it changes nothing. |
| `Admissions.CalledWhileOpen` | cpp_rabbitmq_client_stream/src/client.cpp:318-325 | Over a whole life: every call of send_and_wait that ever got an id was let in before, by require_open, at a moment at which the state was Open. |
| `Admissions.NoneAdmittedBehind` | cpp_rabbitmq_client_stream/src/client.cpp:318-325 | Once the state is Closing or Closed no call is let in any more. |
| `Admissions.NothingUnlessOpen` | cpp_rabbitmq_client_stream/src/client.cpp:318-325 | A life that has never been Open has let no call in, has no request, and has sent none. |
| `Admissions.CloseSends` | cpp_rabbitmq_client_stream/src/client.cpp:156-173 | close has one request at most, and has sent it iff it has come to the wait for its answer. |
| `Admissions.StopIsHeard` | cpp_rabbitmq_client_stream/src/client.cpp:175-179 | When connect and close are not called concurrently: from the moment on at which close has raised the stop flag and the I/O thread is at its loop head, no frame is read any more, and the heartbeat thread, unless it is about to, sends nothing more. |
| `Dispatchers.Dispatcher.RegisterPending` | cpp_rabbitmq_client_stream/src/dispatcher.cpp:7-17 | emplace: a free id gets the new entry, an occupied id keeps its entry and the new promise is broken; no other promise is touched. |
| `Dispatchers.Dispatcher.Dispatch` | cpp_rabbitmq_client_stream/src/dispatcher.cpp:19-48 | A response answers exactly the entry under its id, whatever its command, and removes it; without one nothing changes; one-way frames go to the registered heartbeat or metadata handler only. |
| `Scenarios.AnsweredByAnotherCommand` | cpp_rabbitmq_client_stream/src/dispatcher.cpp:19-32 | A life of a client in which a call that asked to create a stream returns, as its answer, the response to a request to delete one. |
| `Dispatchers.Dispatcher.FailAllPending` | cpp_rabbitmq_client_stream/src/dispatcher.cpp:50-60 | Empties the table and sets every promise that was in it to the error, for any order of iteration. |
| `Dispatchers.Dispatcher.ReapExpired` | cpp_rabbitmq_client_stream/src/dispatcher.cpp:62-80 | For any order of iteration: removes exactly the entries with deadline <= now, sets exactly their promises to RequestTimeout, and returns their number. |
| `IoLoops.IoLoop.Run` | cpp_rabbitmq_client_stream/src/client.cpp:197-252 | Whatever the kernel does: the frames handed to dispatch are the first frames of the inbound byte stream and, unless the read failed, what is left unread is exactly the rest of it; a malformed stream is dispatched up to its first bad frame. The loop is left as its last recv says: an end of the stream as a closed peer, a fault as an IoError, a dead heartbeat only on an expired wait; then nothing is pending, and every request was answered under its id, timed out when due, or failed with ConnectionClosed, or with the read's own error if it was another one. The passes are a function of the scripts of recv and clock; if the next five recv calls run out of time, half a heartbeat and at most e ms apart, the loop ends with HeartbeatTimeout later than 2000·hb and no later than 2500·hb+5e ms after the last inbound frame. |
| `IoLoops.SignalsChangeNothing` | cpp_rabbitmq_client_stream/src/socket.cpp:182 | Deleting every EINTR from the script of recv changes no pass of a loop: not what is dispatched, not when, not how the loop ends. |
| `IoLoops.TimedOutExactly` | cpp_rabbitmq_client_stream/src/client.cpp:226-251 | Over the passes of a loop, a request is timed out iff some pass is the first to look at the clock at or behind its deadline and no frame came under its id before. |
| `IoLoops.SilenceEnds` | cpp_rabbitmq_client_stream/src/client.cpp:208-216 | The same anywhere inside a run: wherever five waits in a row end without a byte, one of them finds the heartbeat dead, within these bounds of the last frame's stamp. |
| `IoLoops.AnsweredExactly` | cpp_rabbitmq_client_stream/src/client.cpp:250-251 | Over the passes of a loop, a request is answered with a frame iff that frame is the first read under its id and its deadline was still ahead at the reap of that pass. |
| `IoLoops.IoLoop.Act` | cpp_rabbitmq_client_stream/src/client.cpp:203-251 | One pass: what it reads, when it looks at the clock and what it takes for dead follow from the scripts of recv and clock; a frame is stamped, the due entries time out, and the entry under its id, if not due, gets the frame; a timeout either reaps or, on a dead heartbeat, fails everything; any other read failure fails everything with its own error. |
| `IoLoops.IoLoop.Deliver` | cpp_rabbitmq_client_stream/src/client.cpp:244-251 | After a frame exactly the due entries have timed out, of the others exactly the one under the frame's id is answered, the rest stay pending, and the frame was handed to dispatch. |
| `IoLoops.IoLoop.Wake` | cpp_rabbitmq_client_stream/src/client.cpp:208-226 | A wakeup ends the loop iff the heartbeat is dead by the clock reading taken, failing every pending entry; otherwise exactly the due entries are set to RequestTimeout. |
| `Sockets.Socket.ReadExact` | cpp_rabbitmq_client_stream/src/socket.cpp:169-193 | For every script of chunk sizes, EINTR, timeouts, EOF and errors: succeeds iff the peer has sent enough and the recvs up to some point bring data or EINTR only, with room for all of it; then the buffer holds the next bytes of the stream. A failed read has taken fewer and ended on the first other recv, with ConnectionClosed for an end, IoError for an error, RequestTimeout for a wait that expired before the first byte and IoError for a later one; EINTR never ends it. |
| `Sockets.FillUndisturbed` | cpp_rabbitmq_client_stream/src/socket.cpp:169-193 | Deleting every EINTR from the script changes neither the result of a read nor what it leaves. |
| `Sockets.Socket.ReadFrame` | cpp_rabbitmq_client_stream/src/socket.cpp:195-225 | Returns what the frame grammar reads at the front of the stream and leaves the rest, or the decoding error of a malformed frame, or the error of the recv it ended on; a timeout leaves the stream untouched and comes only from an expired wait between frames, one inside a frame is an IoError. |
| `Sockets.WholeFrame` | cpp_rabbitmq_client_stream/src/socket.cpp:195-225 | A frame that has arrived is read, however it is cut into chunks and whatever signals come between, if there is a recv with data for every byte of it. |
| `Sockets.Socket.WriteAll` | cpp_rabbitmq_client_stream/src/socket.cpp:147-165 | For every script of partial sends: succeeds iff the sends up to some point accept bytes or are interrupted only, with room for the whole buffer, which is then on the wire; a failed write left a proper prefix and ended on the first other send, with ConnectionClosed if it took nothing and IoError on an error; EINTR never ends it. |
| `Sockets.PushUndisturbed` | cpp_rabbitmq_client_stream/src/socket.cpp:147-165 | Deleting every EINTR from the script changes neither the result of a write nor what it leaves. |
| `WriteLocks.NeverInterleaved` | cpp_rabbitmq_client_stream/src/socket.cpp:147-165 | For any number of writers and any partial sends, at any time: the wire is what the finished calls left, a failed one a proper prefix of its buffer, followed by a part of the holder's buffer; and these buffers are those of the steps that took the lock, in that order. |
| `WriteLocks.PeerSeesFrames` | cpp_rabbitmq_client_stream/src/socket.cpp:147-165 | At any time of a run in which no write has failed, a peer that cuts the wire by size fields alone sees the payloads of exactly the frames written completely so far, in the order in which the lock was taken, and nothing of the frame being written. |
| `Handshakes.RunHandshake` | cpp_rabbitmq_client_stream/src/handshake.cpp:83-221 | Against any server script: succeeds iff the server plays along for some number of rounds and the connection takes every frame; what is sent is always a prefix of PeerProperties, SaslHandshake, n times SaslAuthenticate, Tune, Open, and every frame was earned by the replies before it, so that nothing follows a failure and no credentials are sent unless PLAIN was offered; whenever Tune was sent it carries the negotiated values, and whenever Open was sent it fits the negotiated FrameMax, also on a run that fails later; a successful run sends the whole script and returns what was negotiated, and a failed one returns the error of the first thing that went wrong. Of the frames read, each is under the key and the id of its place (0x8011 under 1, 0x8012 under 2, 0x8013 under 3 and on, 0x0014, 0x8015), and one that is not is the last and makes the run fail with ProtocolViolation. |
| `Exchanges.SuccessfulRun` | cpp_rabbitmq_client_stream/src/handshake.cpp:31-221 | A successful run of n rounds was answered by frames 0 and 1 under the ids 1 and 2 with the response code 1, a list of mechanisms with PLAIN in the second, by n frames under the ids 3 to n+2 with code 10 and at last 1, by a Tune, and by an OpenResponse under id n+3 with code 1. |
| `Exchanges.CooperativeServer` | cpp_rabbitmq_client_stream/src/handshake.cpp:83-221 | And the other way round: a server that says these things, with any properties and trailing bytes, makes the handshake succeed if the connection takes every frame and Open fits both limits. |
| `Exchanges.HandshakeUndisturbed` | cpp_rabbitmq_client_stream/src/socket.cpp:147-225 | Over a socket: deleting every EINTR from the scripts of recv and send changes neither what a handshake reads nor which of its writes fail, and how. |
| `Exchanges.CalmWrites` | cpp_rabbitmq_client_stream/src/socket.cpp:147-165 | Over a socket: if no send fails and one accepts something for every byte, no write of a handshake fails. |
| `Exchanges.RefusedRound` | cpp_rabbitmq_client_stream/src/handshake.cpp:63-79 | A handshake refused in a round of authentication fails as its response code says, with AuthenticationFailed for 8 and 11. |
| `Exchanges.Refusals` | cpp_rabbitmq_client_stream/src/handshake.cpp:63-79 | Codes 8 and 11 are AuthenticationFailed, 7 is SaslMechanismNotSupported, 12 and 16 are VirtualHostAccessDenied, and any other is a ServerError that carries the code. |
| `Exchanges.Negotiated` | cpp_rabbitmq_client_stream/src/handshake.cpp:171-192 | The negotiated values against the first and the second word of the server's Tune body and the configuration: the lower limit where 0 is none, the lower heartbeat unless the client asks for 0. |
| `Exchanges.PlainBody` | cpp_rabbitmq_client_stream/src/handshake.cpp:142-150 | The body of an authentication request is the string PLAIN and a length-prefixed NUL user NUL password. |
| `Handshakes.Authenticate` | cpp_rabbitmq_client_stream/src/handshake.cpp:152-168 | The challenge loop ends because every round consumes an inbound frame, and succeeds iff the replies are challenges up to a final Ok and every write succeeds. |
| `Handshakes.Finish` | cpp_rabbitmq_client_stream/src/handshake.cpp:171-220 | Steps 4 and 5 succeed iff Tune decodes, the Open frame fits the negotiated FrameMax, and Open is accepted under its own id; a Tune that was sent carries the negotiated values and an Open that was sent fits, in any case. |
| `Handshakes.ConsecutiveIds` | cpp_rabbitmq_client_stream/src/handshake.cpp:88-208 | The correlated requests of a script carry the ids 1, 2, 3, ... in order, below the wrap of the counter. |
| `Handshakes.FrameMaxIsBoth` | cpp_rabbitmq_client_stream/src/handshake.cpp:180-187 | A frame fits the negotiated FrameMax iff it fits both sides' limits: the minimum with 0 as infinity. |
| `Handshakes.HeartbeatExactly` | cpp_rabbitmq_client_stream/src/handshake.cpp:188-191 | The negotiated heartbeat never exceeds the server's nor a non-zero request, and it is the lower of both iff the client asked for a non-zero value or the server's is 0. |
| `Handshakes.ZeroIsIgnored` | cpp_rabbitmq_client_stream/src/handshake.cpp:188-191 | "Either side proposes 0, the result is 0" fails for a client that asks for 0 against a server that offers 60. |
| `Frames.FrameExact` | cpp_rabbitmq_client_stream/src/frame.cpp:7-75 | The parser accepts exactly the encodings of well-formed frames and leaves exactly what follows them. |
| `Frames.StreamRoundTrip` | cpp_rabbitmq_client_stream/src/frame.cpp:43-75 | Reading frame by frame any concatenation of correlated responses and one-way frames returns exactly that list. |
| `Frames.ReadFrameAuto` | cpp_rabbitmq_client_stream/src/frame.cpp:43-75 | Agrees with the grammar on every input and advances the cursor by exactly the size of the frame. |
| `Frames.ReadPayload` | cpp_rabbitmq_client_stream/src/frame.cpp:55-74 | Reading the header off the whole buffer with a body length that wraps modulo 2^64 accepts exactly what a reader confined to the frame accepts. |
| `Frames.ShortResponse` | cpp_rabbitmq_client_stream/src/frame.cpp:55-72 | A response whose size field says 4 to 7 is rejected, whatever bytes follow it. |
| `Commands.BodyRoundTrip` | cpp_rabbitmq_client_stream/include/stream/commands/handshake.hpp:48-285 | For every one of the 21 command structs with valid fields, decoding its encoding returns the struct and leaves any trailing bytes unread. |
| `Commands.BodyCanonical` | cpp_rabbitmq_client_stream/include/stream/commands/lifecycle.hpp:19-202 | A successful decode consumed exactly the bytes the encoder would write for the result, or one of the named alternatives. |
| `Commands.BodyExact` | cpp_rabbitmq_client_stream/include/stream/commands/handshake.hpp:48-285 | The decoder accepts exactly the encodings and the three alternatives: null opaque data, an absent challenge, absent connection properties. |
| `Layouts.BodyLaid` | cpp_rabbitmq_client_stream/include/stream/commands/handshake.hpp:48-285 | For each of the 21 command structs: its key as a number, and its body as the bytes of its fields in the order in which they are written. |
| `Layouts.FrameLaid` | cpp_rabbitmq_client_stream/src/frame.cpp:7-41 | A frame is four bytes of size (of what follows), two of key, two of version, four of correlation id if there is one, and the body, all most significant byte first. |
| `CommandCode.EncodeHandshake` | cpp_rabbitmq_client_stream/include/stream/commands/handshake.hpp:48-285 | The 12 encoders of the handshake commands append exactly the body the grammar lays out. |
| `CommandCode.EncodeLifecycle` | cpp_rabbitmq_client_stream/include/stream/commands/lifecycle.hpp:19-202 | The 9 encoders of the lifecycle commands append exactly the body the grammar lays out. |
| `CommandCode.DecodeKvArray` | cpp_rabbitmq_client_stream/include/stream/commands/handshake.hpp:28-42 | The loop reads what the grammar of an array of pairs reads, or fails as it does. |
| `Wire.TextReadBack` | cpp_rabbitmq_client_stream/src/codec.cpp:52-66 | What write_string emits for any byte string: up to 32767 bytes it is read back iff it is valid UTF-8; a longer valid one is read back as its first 32767 bytes when the next byte starts a character and is a decoding error otherwise. |
| `Wire.PairsConsume` | cpp_rabbitmq_client_stream/include/stream/commands/handshake.hpp:28-42 | An array of c pairs that decodes consumes at least 4+4c bytes. |
| `Codec.ReadString` | cpp_rabbitmq_client_stream/src/codec.cpp:144-162 | Agrees with the string grammar on every input: -1 is null, other negative lengths and invalid UTF-8 are errors. |
| `Codec.ReadU64` | cpp_rabbitmq_client_stream/src/codec.cpp:127-136 | The loop, one more byte behind a 64-bit value per round, computes the big-endian value of the next eight bytes, or fails without them. |
| `Utf8.IsValidUtf8` | cpp_rabbitmq_client_stream/src/utf8.cpp:6-52 | Returns true iff the bytes are the concatenated encodings of some sequence of Unicode scalar values, as section 3 of RFC 3629 tabulates them; ends on every input and never reads outside the buffer. |
| `Utf8.DecodingIsUnique` | cpp_rabbitmq_client_stream/src/utf8.cpp:6-52 | No byte string encodes two different sequences of scalar values. |
| `Utf8.EncodingExists` | cpp_rabbitmq_client_stream/src/utf8.cpp:6-52 | Every sequence of scalar values has an encoding, so that the texts accepted are exactly the sequences of scalar values. |
| `Utf8.EncodingIsUnique` | cpp_rabbitmq_client_stream/src/utf8.cpp:6-52 | And it has no two: no overlong form is accepted. |
| `Utf8.CutIsText` | cpp_rabbitmq_client_stream/src/utf8.cpp:6-52 | Well-formed text cut at any byte is well-formed iff the byte behind the cut does not continue a character. |
| `Utf8.Vectors` | cpp_rabbitmq_client_stream/src/utf8.cpp:6-52 | The euro sign and U+10FFFF are text; an encoded surrogate, U+110000, a lone trailing octet and overlong forms of two, three and four octets are not. |

## Left out

- Correlation.OwnAnswer: says under which id a call is answered, not that the server answered the right request; a server that tags a response with another request's id is believed, as the code believes it.
- Lifecycle.CloseOk: assumes that connect had started the threads before close joined them, which `Lifecycle.CloseOkSerial` derives from what the class comment demands; `Lifecycle.CloseBesideConnect` shows what happens otherwise.
- Outcomes.WhyCallFailed: a deadline may be earlier than the request timeout after the registration, by as long as the thread was held up between taking the clock and registering; the wait, which the code begins only after the write, is modelled as ending at the deadline or later.
- Lifecycle.AnsweredInTime: says nothing of a request registered between the reap and the dispatch of one pass, which the code may answer whatever its deadline.
- IoLoops.IoLoop.Run: runs the loop without other threads, so nothing is registered meanwhile; `Lifecycle` has the interleavings.
- WriteLocks.PeerSeesFrames: speaks of payloads cut by size fields, since the client's own parser looks for a correlation id in responses only, not in the requests it sends.
- Sockets.Socket.ReadExact: an endless run of EINTR is a script that ends, and a connection whose script has ended is closed.
- Handshakes.RunHandshake: takes the results of read_frame and write_all as lists; `Exchanges.Reads` and `Exchanges.Writes` are those lists over a socket.
- Whether close, the joins or a blocked recv ever return; only what holds once they have.
- Threads, memory ordering and futures below the level of critical sections, atomic operations and write-once promises. That the I/O thread's last-inbound time is read and the clock is read are one step, since no other running thread writes that time.
- The descriptor that `sock_.close()` and a concurrent recv share, `connect_with_timeout`, name resolution, TLS and socket options: calls into the operating system.
- `ConnectionConfig::validate`, logging, error texts, close reasons' texts and the body of the callback.
- The destructor; it is what stops a heartbeat thread that `close` can no longer stop.
- The mapping of response codes in `create_stream`, `delete_stream`, `query_offset` and `query_publisher_sequence`, and of `check_reference` outside `store_offset`: plain case splits.
- The interval of the heartbeat thread; it is modelled for when it ends and how often it sends.
- `reserve` with a count taken from the wire, which allocates before any element is read.
- The last-outbound time.
- Correlation.FreshIds: the correlation protocol has no clock, so a deadline is any value there; in `Lifecycle` it is at most the current time plus the request timeout.
- Correlation.LimitKeptExactly: speaks of the correlated requests; the one-way frames are in `Oneways.LimitKeptExactly`, and how they mix with the others on the wire is in `WriteLocks` only.
