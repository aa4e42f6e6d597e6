# Framing, forking and event loops of the networking samples

A Dafny model of the parts of this repository that keep state, with proofs about them. `dafny verify dfyconfig.toml`
checks everything.

## What is modelled

**The framed message stream.** A frame is a 4-byte magic, its own total length as a little-endian 32-bit word, a C
string and its NUL (`protocol/rpc.cpp`).

- `Bytes`: little-endian words, C ints, C strings inside a larger memory, `memset` and `memcpy` on arrays.
- `Rpc`: the frame codec, with frames and streams of frames as byte strings.
- `SafeIo`: `writen` and `readn` over a kernel that answers each call with a short count, EINTR, an error or end of
  file. The answers are a finite schedule; a call that finds it empty never returns (`Pending`, `Blocked`).
- `Parsing` and `StringIo`: `parse`, `write_string` and `read_string` **as written**. The client's copies in
  `sample_client/test_client.cpp` are the same code but for the text they send, so they are modelled once.
- `Delivery`: what the reader gets when the two ends are put together **as written**.
- `Reassembler`: the receiver these functions evidently **intend**. Nothing in it is claimed of the code as it stands.

**The record codec.** `Records` has the loops of `write_chars`/`read_chars` and `write_structs`/`read_structs` of
`socket_basic`. Both ends contain the same loops. `write_structs` and `write_chars` share one loop, `PackAll`, because
in the source they differ only in what a record holds.

**The double-fork server.** `ForkServer` is a transition system of grandfather, children and grandsons, each with a
statement counter and its own descriptor table. Any process may move next, and every `accept` and `fork` may succeed
with any value the kernel may give or fail.

**Event-loop bookkeeping.** `EpollServer` has the loop that keeps `cur_fds`; `SelectServer` has `add_fd`, `del_fd` and
the loop of `select_accept`.

Objects that the source updates in place are classes and arrays here. Their methods are proved against functions, and
the theorems are about those functions.

## Where the code departs from its intent

Each of these is kept as the code has it, and the theorem named says exactly when it matters.

- `readn` sets its count to 0 on EINTR and then takes 0 for end of file (`sample_io/test_file.cpp:55-65`), so it does
  not repeat the call as `writen` does. It returns short with bytes still to come exactly when an interrupt ends the
  supply (`SafeIo.ReadnMeaning`); `Delivery.EndToEnd` carries this into an if-and-only-if, and
  `Delivery.InterruptLosesAll` is the extreme case. A `retry` argument of `SafeIo.ReadRun` and `SafeIo.Readn` selects
  the code as written (`false`) or as intended (`true`).
- `parse` tests for an incomplete header but not for an incomplete body. It returns the length of the tail exactly when
  the stream stops inside a header (`Parsing.DrainExact`).
- `parse` ignores the -1 of `GetMessageLength`, given for another magic or too large a length, and steps backwards by
  one byte, so that its loop may never end. For every buffer, `Parsing.DrainIsPasses` says which of the three it does:
  return a certain count after certain texts, leave the buffer, or loop for ever; `Parsing.ReturnsIff` says by the
  guard of each header when it returns. When the nearest accepted header in front of a refused one leads to it, the
  loop goes round for ever and prints the same texts again (`Parsing.RefusedHeaderNeverReturns`); with no accepted
  header in front it leaves the buffer at its lower end (`Parsing.RefusedFirstLeaves`). Behind whole frames a refused
  header keeps `parse` from returning unless the magic lies among the last seven bytes of the last text
  (`Parsing.ParseReturnsIff`); with such a text it may return, as in `Parsing.LateMagicReturns`.
- `parse` takes `buffer_used` by value, so the `strncpy` in `read_string` copies the front of the buffer onto itself
  instead of moving the tail to the front. What is carried over is right exactly under the condition of
  `Delivery.CarryExact`.
- `read_string` stops when a round leaves nothing over, and not at end of file; the reader of a longer stream that
  happens to be cut between two frames stops there (`Delivery.RoundOnStream`). The intended receiver reads to end of
  file.
- The test `count_used > buffer_length` in `read_string` can never fire; the bound is asserted in
  `StringIo.ReadString`.
- `read_structs` never moves `index`, so the last record wins, and one that is cut short wins too
  (`Records.StructsAsWritten`, `Records.AsWrittenDeliversOnlyOne`, `Records.StructsShortRead`). The `advance` argument
  of `Records.Fill` selects the loop as written (`false`) or as intended (`true`).
- The epoll loop calls `close` before `EPOLL_CTL_DEL`. The kernel has then already taken the descriptor out of the set,
  and the second call finds nothing to delete (`EpollServer.EventLoop.HandleEvent`).

## Model

| member | source | states |
|---|---|---|
| Bytes.U32RoundTrip | protocol/rpc.h:10-13 | every 32-bit word survives being stored as little-endian bytes and loaded |
| Bytes.U32Canonical | protocol/rpc.h:10-13 | and every four bytes survive being loaded and stored |
| Bytes.StrLenMeaning | protocol/rpc.cpp:54 | strlen stops at the first NUL and nowhere else |
| Bytes.CStrStored | protocol/rpc.cpp:40 | a terminated string is read back unchanged whatever bytes surround it |
| Rpc.Serialize | protocol/rpc.cpp:63-74 | refuses (returns 0, buffer untouched) exactly when strlen + 9 exceeds 1024000; otherwise the front of the buffer becomes the frame, the rest is untouched, and the returned length does not wrap at 32 bits |
| Rpc.LengthAgreement | protocol/rpc.cpp:8-28 | for every string, embedded NULs included, both GetMessageLength overloads, the stored word and the number of bytes written are one number |
| Rpc.RoundTrip | protocol/rpc.cpp:35-61 | parsing what was serialised gives the string cut at its first NUL, wherever the frame lies; Parse refuses exactly the lengths that do not cover the frame |
| Rpc.ParseVerdict | protocol/rpc.cpp:44-61 | a length shorter than the stored one is refused first, then a text longer than that length; otherwise the text is returned |
| Rpc.Canonical | protocol/rpc.cpp:44-74 | a byte string that looks like a frame (magic, own length, one NUL, at the end) is the frame of some message and conversely; re-serialising its parse gives it back byte for byte |
| Rpc.PrefixFree | protocol/rpc.cpp:8-21 | no frame is a proper prefix of another |
| Rpc.UniquelyDecodable | protocol/rpc.cpp:8-21 | if one stream of frames begins another, its messages begin the other's and the remaining bytes are the stream of the remaining messages; equal streams carry equal messages |
| Rpc.StreamCut | protocol/rpc.cpp:8-21 | any number of bytes of a stream are its whole frames and a proper prefix of the next |
| SafeIo.Socket.Write | sample_io/test_file.cpp:15 | write() accepts a prefix of what it is offered, is interrupted, or fails, as POSIX.1-2017 has it |
| SafeIo.Socket.Read | sample_io/test_file.cpp:53 | read() moves the next bytes of the stream, and returns 0 only at end of file |
| SafeIo.Writen | sample_io/test_file.cpp:8-29 | emits the first bytes of the buffer once and in order, all n of them exactly when it returns n; on a hard failure it returns -1 after a proper prefix |
| SafeIo.WritenMeaning | sample_io/test_file.cpp:8-29 | it emits min(n, what the kernel takes before its first refusal), and returns n exactly when that is n; EINTR never matters |
| SafeIo.WritenCalls | sample_io/test_file.cpp:14-27 | writen makes just the calls that write its n bytes, interrupted ones included, or those up to the first refusal |
| SafeIo.Readn | sample_io/test_file.cpp:46-70 | the bytes stored are the next bytes of the stream, in order, nothing else in the buffer changes, and the value returned counts them; as written and as intended |
| SafeIo.ReadnMeaning | sample_io/test_file.cpp:46-70 | as written, the count is the least of n, the bytes left and the kernel's supply; it is short before end of file exactly when an interrupted call ends that supply |
| SafeIo.ReadnCalls | sample_io/test_file.cpp:52-68 | as written, readn makes just the calls that supply its bytes; when short, at end of file too, it makes one more, whose answer decides between returning, -1 and never returning |
| SafeIo.ReadnFinishes | sample_io/test_file.cpp:46-70 | the intended readn, which repeats interrupted calls, returns once the kernel gives enough answers, however short they are |
| SafeIo.ReadnFailure | sample_io/test_file.cpp:46-70 | the intended readn never goes past a failure: it reports an error, or never returns, according to whether the schedule holds one |
| Parsing.Drain | sample_socket/test_server.cpp:261-276 | as written: the count passed in is the bytes the cursor moved over plus the count returned, even when that is negative and when the loop has stepped back; texts are only added |
| Parsing.ParseBuffer | sample_socket/test_server.cpp:261-276 | the loop over the buffer prints the texts and ends as Drain says, steps back included |
| Parsing.PrintedText | sample_socket/test_server.cpp:270-271 | at an accepted header the C string behind it is printed, or nothing when it is longer than the accepted length; at a refused header it is printed always |
| Parsing.DrainFrames | sample_socket/test_server.cpp:261-276 | whole frames at the front are printed in order, and what follows is drained as if it stood alone |
| Parsing.DrainExact | sample_socket/test_server.cpp:261-276 | on whole frames and t bytes of another: exactly those messages and the tail length t are the result if and only if t < 8; otherwise the part of the text that is there is printed and the count is negative when a NUL follows, and at the end of the buffer nothing more is printed and the search for a NUL leaves it |
| Parsing.DrainIsPasses | sample_socket/test_server.cpp:263-275 | for every buffer: where Drain returns a count after some texts, some number of passes of the loop body does; where it leaves the buffer, some number of passes does, after the same texts; where it does neither, no number of passes ends the loop |
| Parsing.DrainSays | sample_socket/test_server.cpp:263-275 | conversely, however the passes end, with which count and texts, or never, is what Drain says |
| Parsing.RefusedHeaderNeverReturns | sample_socket/test_server.cpp:263-275 | when a header is refused (other magic or too large a length) and the nearest accepted one in front leads to it, the loop walks back to that one, prints its text again, and is back at the refused header one pass later; after every number of passes it goes on |
| Parsing.RefusedFirstLeaves | sample_socket/test_server.cpp:263-275 | with no accepted header in front, the walk back leaves the buffer at its lower end |
| Parsing.ReturnsIff | sample_socket/test_server.cpp:263-275 | for every buffer and offset, parse returns if and only if too few bytes for a header are counted, or the length is 0, or the string has a NUL and the header covers what is counted, leads to where parse returns, or is refused but the nearest accepted one in front has length 0, covers what is counted, or leads past it to where parse returns |
| Parsing.ParseReturnsIff | sample_socket/test_server.cpp:261-276 | on any frames followed by any bytes, parse returns if and only if it does from those bytes; if their header is refused and the last text has no magic among its last seven bytes, it never does |
| Parsing.LateMagicReturns | sample_socket/test_server.cpp:263-275 | the magic in a text does let parse return at a refused header: with these 21 bytes counted, -243 |
| Parsing.InsideRefused | protocol/rpc.cpp:8-21 | strictly inside a frame whose text has no magic among its last seven bytes, GetMessageLength accepts no header |
| StringIo.WriteString | sample_socket/test_server.cpp:245-259 | puts the frame of the C string on the wire, or the prefix of it that the schedule lets through; an oversized string sends nothing and gives 0 |
| StringIo.StrnCpySelf | sample_socket/test_server.cpp:307 | strncpy of the buffer onto itself zeroes everything after the first NUL of the first n bytes and moves nothing |
| StringIo.ReadString | sample_socket/test_server.cpp:278-313 | the texts printed, the value returned, and the bytes and answers left are those of the rounds function, for every stream and schedule; so is whether parse loops for ever or leaves the buffer |
| Delivery.SentIsStream | sample_socket/test_server.cpp:245-259 | repeated write_string puts the stream of the messages on the wire, or a proper prefix of it exactly when some call did not finish |
| Delivery.SentStep | sample_socket/test_server.cpp:245-259 | a call sends its whole frame when the kernel would take that much before its first refusal, and the next call goes on with the answers left; otherwise exactly the bytes the kernel would take are on the wire |
| Delivery.EndToEnd | sample_socket/test_server.cpp:245-313 | as written, for any messages and any two schedules: read_string prints exactly the messages in order and returns 0 if and only if the sender completes, the frames total at most 1024 bytes, readn returns, and no interrupt precedes the whole supply; a readn that fails makes it print nothing and return -1, one that never returns leaves it waiting |
| Delivery.RoundOnStream | sample_socket/test_server.cpp:286-309 | as written, any round, from any carry and total, whose buffer then holds whole frames and t further bytes of a stream: it prints those frames; t = 0 ends the reading with the total so far, 0 < t < 8 carries on with the self-copied front of the buffer, t >= 8 prints the part of the text that is there, unless the buffer is full, and leaves the buffer |
| Delivery.RoundReadsNothing | sample_socket/test_server.cpp:290-298 | a round without data returns the total so far at end of file, returns -1 when readn fails, and never returns when readn does not |
| Delivery.SupplyEnds | sample_socket/test_server.cpp:289-298 | which of the three it is, by the call that ends the kernel's supply |
| Delivery.AtEndOfFile | sample_socket/test_server.cpp:289-298 | with the stream used up, the next answer of the kernel alone decides what read_string does |
| Delivery.EndsInHeader | sample_socket/test_server.cpp:286-312 | when the stream ends t < 8 bytes into a header, the whole frames are printed and the total, t included, is returned |
| Delivery.RoundFollowsParse | sample_socket/test_server.cpp:306-309 | a round with data goes on, returns, or leaves the buffer by the count and texts with which the passes of parse's loop end |
| Delivery.RoundLoops | sample_socket/test_server.cpp:306 | and it loops for ever when they never end |
| Delivery.TotalGrows | sample_socket/test_server.cpp:308 | once a round has left something over, no later round makes read_string return 0 |
| Delivery.CarryExact | sample_socket/test_server.cpp:307 | for any stream cut t < 8 bytes into a header, the bytes carried over are those of the cut frame if and only if t <= 4, or the length bytes before the cut agree with those of the frame at the front of the buffer, the cut one if it stands alone, as strncpy leaves them |
| Delivery.LongDelivery | sample_socket/test_server.cpp:278-313 | as written, on a stream of any length: when every readn returns bytes and stops inside a header whose bytes are carried over rightly, until one stops at the end of the stream, read_string prints all the messages in order and returns the sum of the tails the rounds left over |
| Delivery.LongDeliveryIff | sample_socket/test_server.cpp:278-313 | on a non-empty stream of any length whose cut headers are all carried over rightly, read_string returns having printed exactly the messages if and only if the schedule is such a one |
| Delivery.InterruptLosesAll | sample_socket/test_server.cpp:287-290 | an interrupt before the first byte makes read_string return 0, print nothing and leave everything unread |
| Reassembler.ChunkingIndependence | sample_socket/test_server.cpp:286-309 | intended: however any bytes at all are cut into chunks, the messages and the carried tail are those of the uncut bytes |
| Reassembler.ChunkedStream | sample_socket/test_server.cpp:286-309 | intended: after any split of the first n bytes of a stream, exactly the whole frames are delivered and the tail is the proper prefix of the next frame that has arrived |
| Reassembler.CutFrameWaits | sample_socket/test_server.cpp:265-269 | intended: a proper prefix of a frame, inside header or body, is never taken for a frame |
| Reassembler.RoundDelivers | sample_socket/test_server.cpp:280-309 | intended: when every frame fits the buffer, each round reaches the end of the stream or delivers a message |
| Reassembler.ReceiveFinishes | sample_socket/test_server.cpp:286-309 | intended: given enough answers from the kernel the rounds end, for any bytes at all |
| Reassembler.ReceiveVerdict | sample_socket/test_server.cpp:289-298 | intended: when the rounds do not end, an error is reported if the schedule holds a failure, and otherwise readn never returns |
| Reassembler.ReceivesFitting | sample_socket/test_server.cpp:286-309 | intended, bounded buffer: exactly the whole frames received are delivered, up to the first that exceeds 1024 bytes |
| Reassembler.ReceivesPrefix | sample_socket/test_server.cpp:286-309 | intended, any schedule, also one that fails or blocks: what has been delivered is a prefix of the messages |
| Reassembler.IntendedDelivery | sample_socket/test_server.cpp:245-313 | intended, end to end, any two schedules: a prefix of the messages arrives; enough answers make the receiver finish; when it finishes, all messages have arrived if and only if the sender completed and every frame fits the buffer |
| Reassembler.ReceiveAll | sample_socket/test_server.cpp:278-313 | intended: the loop over one 1024-byte array, moving the tail to the front in place, delivers what the rounds function does |
| Records.PackAll | socket_basic/server.cpp:157-168 | the writing loop stores the encoding of the items at the front of the memory, touches nothing else, and its total is their encoded length |
| Records.RecordInEncoding | socket_basic/server.cpp:157-168 | the i-th record lies behind the encodings of those before it: its length in four bytes, low byte first, then its data |
| Records.WriteChars | socket_basic/server.cpp:139-176 | what is handed to write() is the encoding of the rows' C strings |
| Records.WriteStructs | socket_basic/server.cpp:210-239 | what is handed to write() is 109 bytes a struct: the length word 105, low byte first, then attr1 in two's complement, low byte first, the 100 bytes of attr2, and 1 or 0 for attr3 |
| Records.ReadChars | socket_basic/server.cpp:100-137 | the loop leaves in the rows what the decoding function gives; a count that is not positive touches nothing |
| Records.CharsRoundTrip | socket_basic/server.cpp:117-131 | for records no longer than a row, the first min(rows, n) rows hold the records, the other rows are untouched, and cursor and remain_length account for exactly the records read |
| Records.CharsDelivered | socket_basic/server.cpp:100-176 | write_chars to read_chars: each of those rows reads as the record that was written, whatever follows in the buffer |
| Records.CharsShortRead | socket_basic/server.cpp:100-137 | when read() returns any proper or improper prefix of the encoding: the whole records read as written, one cut short reads as the part of its data that arrived, remain_length goes negative there and the loop ends |
| Records.PackedRoundTrip | socket_basic/types.h:15-22 | the 105-byte packed Address survives being stored and loaded |
| Records.PackedLayout | socket_basic/types.h:15-22 | the 105 bytes of the packed struct, byte by byte |
| Records.UnpackedLayout | socket_basic/types.h:15-22 | any 105 bytes are read by that layout, a byte other than 0 as a true attr3 |
| Records.ReadStructs | socket_basic/server.cpp:178-208 | as written: the loop leaves in the array what Fill gives without advancing |
| Records.StructsAsWritten | socket_basic/server.cpp:192-205 | as written: exactly 109 bytes a record are consumed, slot 0 ends as the last record and no other slot changes |
| Records.AsWrittenDeliversOnlyOne | socket_basic/server.cpp:187-205 | as written, over slots whose attr2 is zeroed and whose other bytes are arbitrary: the loop is certain to put every record that has a slot into it if and only if there is one record, or one slot and the last record equals the first |
| Records.StructsShortRead | socket_basic/server.cpp:178-208 | as written, when read() returns any prefix of the encoding: slot 0 ends as the last struct that has begun to arrive, zeros for its missing bytes, and remain_length is what those fall short by |
| Records.StructsIntended | socket_basic/server.cpp:192-205 | with index advanced: the first min(slots, n) slots hold the records in order and the other slots are untouched |
| Records.StructsDelivered | socket_basic/server.cpp:178-239 | write_structs to read_structs, struct for struct, both as written and with index advanced |
| ForkServer.RunKeepsInv | sample_socket/test_server.cpp:405-460 | over every interleaving, any answers: each process has exactly the descriptor table its role and statement call for, at most one child and one grandson exist per connection, only the child being waited for is unreaped, and every call made is on the caller's own connection |
| ForkServer.Ownership | sample_socket/test_server.cpp:407-454 | in every reachable state a connection is open only in processes of its own lineage, under their linkage_fd; back at accept the grandfather has exactly its initial descriptors, every child is reaped, and only grandsons still hold connections |
| ForkServer.ServedOnce | sample_socket/test_server.cpp:443-454 | the calls on a connection are those of its one grandson, which has no listening socket: write then read, at most once each, and both once it has exited; without a grandson there are none |
| ForkServer.GrandsonEnds | sample_socket/test_server.cpp:443-453 | in every interleaving, for any answers, a grandson has exited with 0 exactly when it has taken the turns that remained to it, five from its birth |
| ForkServer.GrandsonGoesOn | sample_socket/test_server.cpp:443-453 | until then it can always take its next statement |
| ForkServer.ExitCodes | sample_socket/test_server.cpp:432-453 | a grandson exits with 0; a child with 0 if it has forked a grandson and with 1 if that fork failed |
| ForkServer.GrandsonIffForked | sample_socket/test_server.cpp:418-441 | a connection has a grandson exactly when both its forks succeeded |
| ForkServer.SecondCloseHarmless | sample_socket/test_server.cpp:452 | the second close of linkage_fd changes no descriptor table, even under reused numbers |
| ForkServer.WaitEnds | sample_socket/test_server.cpp:424-428 | waitpid always ends: in every interleaving, for any answers, the grandfather is back at accept exactly when it and the child have together taken the turns that remained, six at most, whatever other processes do |
| ForkServer.RootStep | sample_socket/test_server.cpp:407-427 | the grandfather stops exactly on a failed accept or fork; a successful accept numbers one more connection, and a successful fork leaves it waiting for the child |
| ForkServer.StoppedForGood | sample_socket/test_server.cpp:413-426 | stopped, it never moves again and no connection is accepted, in any interleaving |
| ForkServer.WaitReturns | sample_socket/test_server.cpp:424-425 | whenever the grandfather waits, it waits for an existing child, so that the previous statement applies |
| ForkServer.NeverStuck | sample_socket/test_server.cpp:424-441 | until then the child or the grandfather can always take a turn, even if fork fails |
| ForkServer.BackToAccept | sample_socket/test_server.cpp:424-428 | from any point of the wait, that many turns of the two alone lead back to accept |
| EpollServer.HandleKeepsInv | sample_epoll/echo_server.cpp:75-116 | every event keeps cur_fds equal to the size of the registered set and at most 1000, and moves it by what was accepted less what was closed; a connection leaves the set exactly when its read gives no data, the listener exactly when its event comes at capacity |
| EpollServer.HandleEffects | sample_epoll/echo_server.cpp:75-109 | the server stops exactly when accept or the registration of what it returned fails; while it runs, every descriptor that leaves the set is closed and every one accepted enters it, so the open descriptors outside the set stay the same; an event with data changes nothing |
| EpollServer.BatchRuns | sample_epoll/echo_server.cpp:74-117 | a batch ends the server exactly when one of its events fails in the state left by those before it |
| EpollServer.BatchValid | sample_epoll/echo_server.cpp:74-117 | when its turn comes, each event of a batch is still registered for the source it was reported for, although earlier ones closed descriptors and accepted reused numbers; the counter agrees at every point of the batch |
| EpollServer.RunsAgree | sample_epoll/echo_server.cpp:67-118 | the agreement holds after every run, so the capacity passed to epoll_wait never exceeds the array; a server that still runs has had no failed wait and leaked no descriptor |
| EpollServer.StartAgrees | sample_epoll/echo_server.cpp:59-118 | so it does in every run of the server from its start, where the listener alone is registered; while it runs, the open descriptors outside the set are those it found open |
| EpollServer.OnlyShrinks | sample_epoll/echo_server.cpp:75-109 | once the listener has been dropped, nothing is accepted again and the set only shrinks |
| EpollServer.EventLoop.EpollWait | sample_epoll/echo_server.cpp:69 | the events reported fill the front of evs, whose bound is the capacity passed |
| EpollServer.EventLoop.HandleEvent | sample_epoll/echo_server.cpp:75-109 | one iteration changes the tables and cur_fds as the transition says, close() before EPOLL_CTL_DEL included |
| EpollServer.EventLoop.HandleBatch | sample_epoll/echo_server.cpp:74-117 | the batch loop over the array handles the reported events in order until a return |
| EpollServer.EventLoop.Loop | sample_epoll/echo_server.cpp:67-118 | the whole loop ends in the state the rounds lead to, the invariant intact |
| SelectServer.AddFd | sample_socket/test_server.cpp:122-130 | puts the descriptor into the first entry that is not positive, and drops it when there is none |
| SelectServer.DelFd | sample_socket/test_server.cpp:131-139 | the first entry equal to the descriptor becomes -1, and nothing else changes |
| SelectServer.Occupancy | sample_socket/test_server.cpp:122-139 | distinct open entries and free slots add up to the size of the table |
| SelectServer.TableRefinesSet | sample_socket/test_server.cpp:122-139 | any sequence of add_fd of fresh positive descriptors and del_fd keeps the entries distinct and behaves as a set capped at size |
| SelectServer.WatchAll | sample_socket/test_server.cpp:170-188 | the sets passed to select are the open entries, with the listener for reading, and max_fd bounds them and is one of them |
| SelectServer.SelectAccept | sample_socket/test_server.cpp:159-198 | the loop ends exactly at the first select that returns 0 or -1; every select watches exactly the first 1024 accepted descriptors and the listener, with nfds one above the largest; the table ends holding them in order; failed accepts leave no open entry |

## Left out

- `ironman::serialize` is not in the repository. Its `writen` and `readn`, called by `write_string` and `read_string`, are represented by the functions of the same name in `sample_io/test_file.cpp`; `write_message` and `read_message` appear only as the two calls a grandson makes on its connection.
- The kernel: sockets, `select`, `epoll` and `fork` are answers given from outside, constrained as POSIX.1-2017 and epoll promise (`SafeIo.SysRead`, `SafeIo.SysWrite`, `EpollServer.AnswerOk`, `EpollServer.RoundOk`, `ForkServer.Enabled`). Signals other than those behind EINTR, the reuse of process ids, a `waitpid` that is interrupted, and standard-stream buffers duplicated by `fork` are not modelled.
- Parsing.Drain: once the loop reads below the start of the buffer or looks for a NUL beyond its end, what lies there is not modelled; the result is `Outside`.
- StringIo.ReadString: ends as `Astray` once `parse` has left the buffer or returned a negative count, since `strncpy` and `memset` then write outside the buffer; that memory is not followed.
- Delivery.LongDeliveryIff: what is printed after a header has been carried over wrongly is not characterised beyond `Parsing.DrainIsPasses`, which says what `parse` makes of the buffer that results.
- Records.ReadChars: memory is the buffer alone; a record length that is negative, exceeds its row or leaves the buffer ends as `Overrun`, and the overwritten memory is not followed. The rows are sequences in an array, so their addresses are not modelled. The same holds for the struct reader.
- SelectServer.SelectAccept: the two handler loops, which change no table, and the close of the listening socket behind the loop are not modelled; nor are `FD_ISSET` on an entry of -1 and descriptors from `FD_SETSIZE` on, both undefined in C.
- EpollServer.EventLoop.Loop: the echo text and the result of `write` are not modelled; they affect no table.
- `thread_accept`: it passes the address of a loop-local variable to a detached thread, so its hand-off has no defined value to reason about.
- `write_char`, `read_char`, `write_struct`, `read_struct`, protobuf and gRPC code, and the `deamon`, `sample_signal`, `sample_process`, `sample_lib`, `sample_thread` and `sample_string` directories: single library calls and demonstrations that keep no state from one call to the next.
- Printing is reduced to the texts `parse` prints, in order.
