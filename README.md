# Sponge TCP/IP stack, modelled in Dafny

This project models the core of Sponge, the user-space TCP/IP stack of
Stanford's CS144 course, and proves properties of the model. There is one
Dafny module per source file, built bottom-up.

- `ByteStreams` (byte_stream.cc): a bounded FIFO of bytes.
  - It is kept in a ring of `capacity + 1` slots with `head`/`tail` indices.
  - The ghost `History` holds every byte ever accepted; the ghost
    `Buffered` is the bytes written and not yet read.
  - `Valid()` ties the ring to `Buffered`.
- `StreamReassemblers` (stream_reassembler.cc): accepts substrings at
  absolute indices, out of order and overlapping.
  - Each substring is clipped to the capacity window and to the known end
    of the stream.
  - Bytes are parked in a map of `(char, present)` slots, exactly as the
    source's `std::map` holds them. `operator[]` inserts default slots and
    the erase runs from `find(old)` to `find(cur)`.
  - The contiguous run from the first unassembled index is written to the
    output stream.
  - A conflicting byte ends the call with `ok == false`. This is where the
    source throws.
- `WrappingIntegers`: 32-bit sequence numbers (section 3.3 of RFC 793).
  `wrap` and `unwrap` are defined as the stack uses them. `Unwrap` is proved
  to return the nearest absolute number and to invert `Wrap` within 2^31.
- `TCPSegments` and `Internet`: plain records for segments, IPv4 datagrams,
  Ethernet frames and ARP messages (RFC 826).
- `TCPReceivers` (tcp_receiver.cc):
  - It records the ISN from the first SYN.
  - It turns the wrapped sequence number into a stream index, with the
    64-bit wrap of `abs_seq - 1` written out.
  - It derives the acknowledgment number and the window.
- `TCPSenders` (tcp_sender.cc):
  - `fill_window` is a `while` loop proved against a ghost specification
    `Sends`, the rounds of `NextRound`.
  - Lemmas about `Sends` give:
    - SYN on the first segment only, FIN at most once and last;
    - payload taken from the stream front in order;
    - segments contiguous and stamped with their wrapped sequence numbers;
    - the window never overfilled;
    - the stopping condition.
  - `ack_received` retires the covered prefix of the outstanding FIFO
    (`Covered`, `CoveredExact`) and resets, restarts or stops the timer.
  - `tick` retransmits the oldest segment. It doubles the timeout only for
    a nonzero window, which makes a zero-window retransmission a probe
    (section 4.2.2.17 of RFC 1122).
  - The class invariant holds that:
    - the outstanding segments form a chain ending at the next sequence
      number, and the bytes in flight are their total length;
    - the next sequence number counts SYN, the bytes read and FIN;
    - the timer runs exactly while something is outstanding;
    - the timeout is the initial one doubled once per consecutive
      retransmission (section 5.5 of RFC 6298).
- `TCPConnections` (tcp_connection.cc): joins a sender and a receiver.
  - Segments move from the sender's queue to the connection's queue in
    order, stamped with ACK/ackno and the window capped at 65535.
  - It handles reset, connect-on-SYN, passive and active close, the linger
    timeout, empty acknowledgments and keep-alives (section 4.2.3.6 of
    RFC 1122).
  - The connection never becomes active again and never starts lingering
    again.
  - Connecting, segment handling and resets state the sender's new state
    as a value (`SenderView`: outstanding segments, counters, flags,
    window, retransmission count, timer, and the outbound stream's history
    and flags). It is `FilledView` after fill_window and `AckView` after
    ack_received, and `segment_received` composes the two (`ReactView`).
- `Routers` (router.cc):
  - Routes are appended in order.
  - `route_one_datagram`'s scan is a function `BestBy`, proved equal both
    ways to "longest matching prefix, earliest among ties".
  - The bit test of line 46 is proved to mean "the top `prefix_length` bits
    agree".
  - Forwarding decrements the TTL (sections 5.2.4.3 and 5.3.1 of RFC 1812).
  - `route` routes every queued datagram once, in order.
- `NetworkInterfaces` (network_interface.cc/.hh): the ARP cache, the
  pending requests and the datagrams held per next hop, as maps.
  - `send_datagram` and `recv_frame` state their whole effect.
  - `tick` ages and expires entries by a loop over the keys, proved equal to
    a map comprehension.
  - The three tables keep an invariant: held datagrams only for an address
    that is pending and not cached.

Where the code and its documented intent differ, the model follows the code.
`unassembled_bytes()` includes pending bytes that an erase dropped after the
end of the stream moved below them (ghost `Dropped`). It equals the number of
pending bytes only when nothing was dropped.
The test of tcp_connection.cc:43-46 that skips the empty acknowledgment
reads the connection's own queue of outgoing segments, not the sender's
queue that ack_received may just have filled. The model keeps that reading
(`AckStage`), and `TakeSegment` is how the owner empties that queue between
calls.

## Model

| member | source | states |
|---|---|---|
| `ByteStreams.CopyIntoRing` | libsponge/byte_stream.cc:20-23 | the copy loop stores the new bytes in the slots after `tail`, keeps the bytes already buffered, and returns the slot of the last byte stored |
| `ByteStreams.StoreRing` | libsponge/byte_stream.cc:20-23 | after the copy the ring, read from `head`, holds the old buffered bytes followed by the new ones |
| `ByteStreams.ByteStream.constructor` | libsponge/byte_stream.cc:15-16 | a ring of capacity + 1 slots whose `tail` is one behind `head`: an empty, open, error-free stream of the given capacity |
| `ByteStreams.ByteStream.BufferSize` | libsponge/byte_stream.cc:58 | the head/tail formula is the number of buffered bytes and never exceeds the capacity |
| `ByteStreams.ByteStream.RemainingCapacity` | libsponge/byte_stream.cc:68 | capacity minus the bytes buffered |
| `ByteStreams.ByteStream.BufferEmpty` | libsponge/byte_stream.cc:60 | true exactly when nothing is buffered |
| `ByteStreams.ByteStream.Eof` | libsponge/byte_stream.cc:62 | true exactly when input has ended and nothing is buffered |
| `ByteStreams.ByteStream.BytesWritten` | libsponge/byte_stream.cc:64 | the number of bytes ever accepted |
| `ByteStreams.ByteStream.BytesRead` | libsponge/byte_stream.cc:66 | bytes accepted minus bytes still buffered, so written − read = buffer size |
| `ByteStreams.ByteStream.Write` | libsponge/byte_stream.cc:18-26 | accepts and returns exactly min(\|data\|, remaining capacity) bytes, the front of data, appended to both the history and the buffer; the written counter grows by that count; nothing else changes |
| `ByteStreams.ByteStream.PeekOutput` | libsponge/byte_stream.cc:29-36 | returns the first min(len, buffer size) buffered bytes in FIFO order and changes nothing |
| `ByteStreams.ByteStream.PopOutput` | libsponge/byte_stream.cc:39-43 | drops exactly min(len, buffer size) bytes from the front; the read counter grows by the same amount; the history is unchanged |
| `ByteStreams.ByteStream.Read` | libsponge/byte_stream.cc:48-52 | returns what peek_output(len) returns and pops that many; the bytes read so far stay a prefix of the history, extended by the result |
| `ByteStreams.ByteStream.EndInput` | libsponge/byte_stream.cc:54 | sets the end-of-input flag and changes nothing else, so a second call changes nothing |
| `ByteStreams.ByteStream.SetError` | libsponge/tcp_connection.cc:158-159 | sets the error flag and changes nothing else |
| `StreamReassemblers.FillAt` | libsponge/stream_reassembler.cc:27-36 | storing a clipped range touches exactly its indices, each getting the segment's byte, present; other keys are unchanged |
| `StreamReassemblers.StoreStep` | libsponge/stream_reassembler.cc:28-35 | at each index the byte conflicts exactly when a different byte is already present; a same byte leaves the map as it was; a new byte adds one present key |
| `StreamReassemblers.StoreSegment` | libsponge/stream_reassembler.cc:27-36 | succeeds exactly when no index of [st, ed) conflicts and then stores them all; otherwise stops at the first conflicting index with the bytes before it stored; the counter grows by the number of new present keys |
| `StreamReassemblers.RunSpec` | libsponge/stream_reassembler.cc:40-43 | the assembled run is the present bytes from cur in index order, stops before eof_index, and is maximal |
| `StreamReassemblers.Touch` | libsponge/stream_reassembler.cc:40 | evaluating `_stream[_cur_index]` inserts a default slot only at cur below eof and leaves the present keys unchanged |
| `StreamReassemblers.Assemble` | libsponge/stream_reassembler.cc:37-43 | the assembly loop collects exactly the run, advances cur by its length and decrements the counter once per byte |
| `StreamReassemblers.EraseKeeps` | libsponge/stream_reassembler.cc:45 | the erase keeps at most the present keys outside [old, cur), and exactly those when `find(cur)` finds a key or no present key lies beyond (`EraseRun` models the erase of line 45) |
| `StreamReassemblers.PushSlots` | libsponge/stream_reassembler.cc:27-45 | store, assemble and erase together: the run is that of the filled map; all keys are at or after the new cur; present keys stay inside the window; the counter tracks the present keys exactly when the end of the stream does not fall below them; on a conflict the bytes before the first conflicting index are stored, nothing is assembled and the counter's surplus over the present keys is unchanged |
| `StreamReassemblers.WindowAfterStore` | libsponge/stream_reassembler.cc:24-36 | storing a range clipped to [max(index, cur), min(index+\|data\|, cur+capacity−buffer size, eof_index)) keeps every present byte inside that window (`ClipStart` and `ClipEnd`, lines 24-25) |
| `StreamReassemblers.AfterAssembly` | libsponge/stream_reassembler.cc:38-45 | after the run is erased, every key is at or after the new cur and present bytes stay below the window's end, so the run written at line 44 fits |
| `StreamReassemblers.StreamReassembler.constructor` | libsponge/stream_reassembler.cc:15-18 | empty slot map, cur 0, end of stream SIZE_MAX, counter 0, empty open output |
| `StreamReassemblers.StreamReassembler.PushSubstring` | libsponge/stream_reassembler.cc:23-47 | only the clipped range is stored; with eof the end index becomes min(eof_index, index+\|data\|); a conflicting byte makes it fail with no output, the bytes before the first conflict stored and the dropped count unchanged; otherwise the maximal run from cur is appended to the output, cur advances by its length, and the output is ended once cur reaches the end index |
| `StreamReassemblers.StreamReassembler.Commit` | libsponge/stream_reassembler.cc:44-46 | the run is written in full, the output is ended when cur equals the end index, and the new map, indices and counter are stored with the invariant kept |
| `StreamReassemblers.StreamReassembler.UnassembledBytes` | libsponge/stream_reassembler.cc:49 | the counter: the number of present pending slots plus those dropped, and exactly the present slots when none were dropped |
| `StreamReassemblers.StreamReassembler.Empty` | libsponge/stream_reassembler.cc:51 | true exactly when no byte is pending and none was dropped |
| `WrappingIntegers.Unwrap` | libsponge/tcp_receiver.cc:20 | the result wraps to the given sequence number and lies within 2^31 of the checkpoint, or below 2^32 |
| `WrappingIntegers.UnwrapNearest` | libsponge/tcp_receiver.cc:20 | no absolute number that wraps to the same value is closer to the checkpoint |
| `WrappingIntegers.UnwrapWrap` | libsponge/tcp_sender.cc:73 | unwrap(wrap(a)) == a whenever a lies within 2^31 of the checkpoint (`Wrap` is wrap(n, isn) = (isn + n) mod 2^32) |
| `TCPSegments.LengthInSequenceSpace` | libsponge/tcp_sender.cc:51-52 | at least the payload length, at most two more, and zero exactly for an empty segment without SYN and FIN |
| `Internet.ParseDatagram` | libsponge/network_interface.cc:78-81 | parsing succeeds exactly on a serialised datagram and gives back that datagram |
| `Internet.ParseArp` | libsponge/network_interface.cc:85-86 | parsing succeeds exactly on a serialised ARP message and gives back that message |
| `TCPReceivers.StreamIndex` | libsponge/tcp_receiver.cc:21 | the stream index is abs − 1 without SYN and abs with SYN, and SIZE_MAX (the 64-bit wrap) for abs 0 without SYN |
| `TCPReceivers.AcknoOf` | libsponge/tcp_receiver.cc:25-30 | no acknowledgment number exactly when there is no ISN |
| `TCPReceivers.AcknoUnwraps` | libsponge/tcp_receiver.cc:27-29 | the acknowledgment number unwraps to bytes written + 1, + 1 more once the stream has ended |
| `TCPReceivers.SynStartsAtZero` | libsponge/tcp_receiver.cc:19-21 | the SYN segment's payload goes to stream index 0 |
| `TCPReceivers.AcknoIndexIsNextByte` | libsponge/tcp_receiver.cc:19-21 | a segment at the acknowledgment number sent carries the next byte the reassembler expects |
| `TCPReceivers.PayloadIndex` | libsponge/tcp_receiver.cc:19-21 | a segment without SYN at absolute sequence number a is pushed at stream index a − 1 |
| `TCPReceivers.ReceiverSummary` | libsponge/tcp_connection.cc:51 | the receiver's state: ERROR on the error flag; LISTEN without an ackno; SYN_RECV with an ackno before the end of input; FIN_RECV with an ackno after it; each an if-and-only-if |
| `TCPReceivers.TCPReceiver.Summary` | libsponge/tcp_connection.cc:51 | the receiver's state summary is ERROR exactly when the inbound stream has failed, LISTEN exactly before the SYN, SYN_RECV exactly after it until the inbound stream ends, FIN_RECV exactly once it has |
| `TCPReceivers.TCPReceiver.SegmentReceived` | libsponge/tcp_receiver.cc:13-23 | before an ISN a segment without SYN changes nothing; the first SYN's seqno becomes the ISN, which never changes afterwards; the payload is pushed at the unwrapped stream index with FIN as eof |
| `TCPReceivers.TCPReceiver.SetStreamError` | libsponge/tcp_connection.cc:159 | the inbound stream gets the error flag and its bytes are unchanged |
| `TCPReceivers.TCPReceiver.Ackno` | libsponge/tcp_receiver.cc:25-30 | absent exactly when no ISN is recorded, otherwise wrap(bytes written + 1 + input ended, isn) |
| `TCPReceivers.TCPReceiver.WindowSize` | libsponge/tcp_receiver.cc:32-34 | capacity minus the bytes buffered in the inbound stream, hence at most the capacity |
| `TCPSenders.BackoffPow2` | libsponge/tcp_sender.cc:119 | doubling the timeout once per retransmission gives rto · 2^n |
| `TCPSenders.ChainSpan` | libsponge/tcp_sender.cc:62-66 | contiguous outstanding segments span exactly the sum of their lengths |
| `TCPSenders.ChainAscending` | libsponge/tcp_sender.cc:62-66 | non-empty contiguous segments start at strictly ascending absolute sequence numbers inside the chain |
| `TCPSenders.InFlightEmpty` | libsponge/tcp_sender.cc:97 | the bytes in flight are zero exactly when nothing is outstanding |
| `TCPSenders.PayloadSize` | libsponge/tcp_sender.cc:39-40 | the payload is at most MAX_PAYLOAD_SIZE and at most what is buffered, and fits the window after the bytes in flight and the SYN; it is short only when the limit or the window stops it |
| `TCPSenders.Max1` | libsponge/tcp_sender.cc:29 | a zero window counts as exactly one, any other window as itself, so the result is at least one |
| `TCPSenders.NextRound` | libsponge/tcp_sender.cc:30-66 | one round stops exactly when the window is full or nothing is left to send; otherwise it sends a stamped non-empty segment at the next sequence number with SYN iff none was sent and FIN iff the stream is at its end and FIN still fits; the payload is the stream's front; next sequence number and bytes in flight grow by its length |
| `TCPSenders.RoundStep` | libsponge/tcp_sender.cc:31-52 | the segment the loop body builds is the round `NextRound` describes, and an empty one is exactly the loop's break |
| `TCPSenders.SendsChain` | libsponge/tcp_sender.cc:54-66 | the segments fill_window sends are contiguous from the old next sequence number to the new one, stamped, within the payload limit, and the bytes in flight grow by their total length |
| `TCPSenders.SendsStream` | libsponge/tcp_sender.cc:41-48 | the payloads are the stream's bytes from the front, in order; SYN is sent once anything is sent; FIN only at the end of the input with nothing left; the next sequence number counts them all |
| `TCPSenders.SendsStops` | libsponge/tcp_sender.cc:29-30 | fill_window never overfills the window, and stops only when the window is full or nothing is left to send |
| `TCPSenders.SendsFlags` | libsponge/tcp_sender.cc:33-36 | SYN goes on the first segment iff none was sent before and on no other; FIN goes on at most the last segment, and only if none was sent before |
| `TCPSenders.SendsAdvance` | libsponge/tcp_sender.cc:65 | fill_window moves the next sequence number forward by exactly the lengths of the segments it sends, never back |
| `TCPSenders.FilledViewGrows` | libsponge/tcp_sender.cc:28-68 | fill_window keeps the outstanding segments in front of the ones it sends, moves the next sequence number forward by exactly what it sends, and keeps the window, the retransmission count and the stream's history and flags (`FilledView`) |
| `TCPSenders.FirstFillSendsSyn` | libsponge/tcp_sender.cc:33-36 | from the initial state fill_window sends a SYN at absolute sequence number 0, which goes on the wire as the ISN |
| `TCPSenders.FillKeepsChain` | libsponge/tcp_sender.cc:54-66 | appending the segments sent to the outstanding FIFO keeps it a stamped chain that ends at the next sequence number and adds up to the bytes in flight |
| `TCPSenders.FillKeepsAccounted` | libsponge/tcp_sender.cc:41-65 | the next sequence number keeps counting SYN, the bytes read and FIN |
| `TCPSenders.CoveredExact` | libsponge/tcp_sender.cc:78-87 | the segments retired are exactly those the acknowledgment covers entirely; every segment kept ends beyond it; `Covered` counts them |
| `TCPSenders.RetireAcked` | libsponge/tcp_sender.cc:78-87 | the loop drops exactly the covered front segments and takes their lengths off the bytes in flight, keeping the chain (`Covered`) |
| `TCPSenders.TCPSender.constructor` | libsponge/tcp_sender.cc:20-24 | the given ISN (as a parameter) and initial timeout, an empty stream of the given capacity, nothing sent, the timer stopped |
| `TCPSenders.TCPSender.BytesInFlight` | libsponge/tcp_sender.cc:26 | the total length of the outstanding segments, from the oldest's first sequence number to the next one; zero exactly when nothing is outstanding |
| `TCPSenders.TCPSender.ConsecutiveRetransmissions` | libsponge/tcp_sender.cc:127 | the current timeout is the initial one times 2 to this count |
| `TCPSenders.TCPSender.Summary` | libsponge/tcp_connection.cc:52 | each state by an if-and-only-if on the sender's fields: ERROR iff the stream has an error; CLOSED iff no SYN was sent; SYN_SENT iff the SYN was sent and everything up to the next sequence number is in flight (so the SYN at absolute 0 is outstanding); SYN_ACKED iff the SYN was sent, less than that is in flight, and the FIN was not sent from a stream that is ended and drained; FIN_SENT iff the FIN was sent, the stream is ended and drained and something but not everything is in flight; FIN_ACKED iff the FIN was sent, the stream is ended and drained and nothing is outstanding (the field formula is `SenderSummary`) |
| `TCPSenders.TCPSender.BuildSegment` | libsponge/tcp_sender.cc:31-52 | one loop body reads the payload from the stream and builds the round's segment; it stops exactly when `NextRound` is done |
| `TCPSenders.TCPSender.SendRounds` | libsponge/tcp_sender.cc:30-67 | the loop's rounds form a trace of `NextRound` from the sender's state to a stopping state; the timer is restarted if it was stopped and a segment was sent |
| `TCPSenders.TCPSender.RunRounds` | libsponge/tcp_sender.cc:28-67 | the segments sent and the state reached are those of `Sends`, and the state reached keeps the chain and accounting |
| `TCPSenders.TCPSender.Fill` | libsponge/tcp_sender.cc:28-67 | as `RunRounds`, with the chain, the accounting and the stopping condition stated field by field |
| `TCPSenders.TCPSender.FillWindow` | libsponge/tcp_sender.cc:28-68 | fill_window sends, queues and keeps outstanding exactly the segments `Sends` gives; afterwards the window is full or nothing is left to send; the sender's state (`View`) becomes `FilledView` of the state before |
| `TCPSenders.TCPSender.Commit` | libsponge/tcp_sender.cc:55-66 | the new queue, outstanding FIFO, counters, flags and timer are stored and keep the invariant |
| `TCPSenders.TCPSender.CommitAck` | libsponge/tcp_sender.cc:90-102 | the kept segments, bytes in flight, timer and window are stored; the retransmission count becomes 0 iff a segment was retired |
| `TCPSenders.TCPSender.Retransmitted` | libsponge/tcp_sender.cc:112-114 | after the timer advances, the oldest outstanding segment is queued again, unchanged, exactly when the timer has expired and something is outstanding |
| `TCPSenders.TCPSender.AckReceived` | libsponge/tcp_sender.cc:72-104 | an acknowledgment beyond the next sequence number changes nothing, window included; otherwise the covered segments are retired, the count and timer follow lines 90-99, the window is recorded, and fill_window runs from the state reached; the sender's state (`View`) becomes `AckView` of the state before |
| `TCPSenders.TCPSender.AckKeepsOpen` | libsponge/tcp_sender.cc:72-104 | ack_received never moves the next sequence number back, so a sender that is not CLOSED is not CLOSED afterwards (`AckSummary`) |
| `TCPSenders.TCPSender.AckViewKeeps` | libsponge/tcp_sender.cc:72-104 | ack_received never moves the next sequence number back nor touches the stream's history and flags; an acknowledgment it does not ignore records the window and keeps the segments it does not cover entirely in front of those it sends, in order |
| `TCPSenders.TCPSender.AckRetire` | libsponge/tcp_sender.cc:75-102 | retires the covered prefix; if any was retired the count becomes 0 and the timer restarts with the initial timeout; it stops when nothing is left; the window is recorded (`AckTimer`, lines 89-99) |
| `TCPSenders.TCPSender.Tick` | libsponge/tcp_sender.cc:107-125 | on expiry with data outstanding the oldest segment is re-sent unchanged and the timer restarted; with a nonzero window the count grows by one and the timeout doubles; nothing in flight changes |
| `TCPSenders.TCPSender.SendEmptySegment` | libsponge/tcp_sender.cc:129-134 | queues a segment with no payload and no flags at the next sequence number; outstanding FIFO, next sequence number and bytes in flight are untouched |
| `TCPSenders.TCPSender.PopSegment` | libsponge/tcp_connection.cc:166-167 | the owner takes the oldest queued segment and nothing else changes |
| `TCPSenders.TCPSender.WriteStream` | libsponge/tcp_connection.cc:89 | the outbound stream accepts min(\|data\|, remaining capacity) bytes |
| `TCPSenders.TCPSender.EndInput` | libsponge/tcp_connection.cc:125 | the outbound stream is ended and its bytes are unchanged |
| `TCPSenders.TCPSender.SetStreamError` | libsponge/tcp_connection.cc:158 | the outbound stream gets the error flag and its bytes are unchanged |
| `TCPConnections.Stamp` | libsponge/tcp_connection.cc:168-172 | ACK and the receiver's ackno are set when there is one; the window is min(65535, window); seqno, flags and payload are kept |
| `TCPConnections.StampAll` | libsponge/tcp_connection.cc:164-174 | one stamped segment per segment queued |
| `TCPConnections.StampAllAt` | libsponge/tcp_connection.cc:164-174 | the i-th segment moved out is the i-th segment queued, stamped: order is kept |
| `TCPConnections.StampAllConcat` | libsponge/tcp_connection.cc:164-174 | moving two queues one after the other moves their concatenation |
| `TCPConnections.RstSegment` | libsponge/tcp_connection.cc:152-154 | the reset carries RST as its only flag, at the given sequence number, and occupies no sequence space |
| `TCPConnections.KeepAliveIsOneBelow` | libsponge/tcp_connection.cc:72-73 | a keep-alive is an empty segment one sequence number below the byte expected next (`KeepAlive`, with `Minus` as the 32-bit seqno − 1) |
| `TCPConnections.StampedEmptyAcks` | libsponge/tcp_connection.cc:72-83 | the empty segment queued in answer, once stamped, acknowledges the next expected byte and occupies no sequence space |
| `TCPConnections.FirstConnectSendsSyn` | libsponge/tcp_connection.cc:131-135 | the first connect() sends a SYN at the ISN, carrying the receiver's ackno once there is one |
| `TCPConnections.EmptySegment` | libsponge/tcp_sender.cc:129-134 | the empty segment occupies no sequence space, sits at the next sequence number and has neither RST nor ACK |
| `TCPConnections.TCPConnection.RemainingOutboundCapacity` | libsponge/tcp_connection.cc:15 | the room left in the outbound stream |
| `TCPConnections.TCPConnection.BytesInFlight` | libsponge/tcp_connection.cc:17 | the sender's bytes in flight, zero exactly when nothing is outstanding |
| `TCPConnections.TCPConnection.Emit` | libsponge/tcp_connection.cc:156 | one segment joins the connection's queue at the back; flags and time unchanged |
| `TCPConnections.TCPConnection.SetFlags` | libsponge/tcp_connection.cc:160-161 | the linger and active flags take the given values; queue and time unchanged |
| `TCPConnections.TCPConnection.SetTime` | libsponge/tcp_connection.cc:25 | the time since the last segment takes the given value; queue, flags and the receiver unchanged |
| `TCPConnections.TCPConnection.FailOutbound` | libsponge/tcp_connection.cc:158 | the outbound stream gets the error flag and keeps its history, buffered bytes and end-of-input flag |
| `TCPConnections.TCPConnection.FailInbound` | libsponge/tcp_connection.cc:159 | the inbound stream gets the error flag and keeps its history, buffered bytes and end-of-input flag |
| `TCPConnections.TCPConnection.FailStreams` | libsponge/tcp_connection.cc:158-159 | both streams fail (`FailOutbound`, then `FailInbound`), so both state summaries are ERROR; the sender's state (`View`) differs only in the error flag; each stream keeps its history, buffered bytes and end-of-input flag |
| `TCPConnections.TCPConnection.SenderFill` | libsponge/tcp_connection.cc:133 | the sender's fill_window (`FilledAs`): its state becomes `FilledView` of the state before; the receiver untouched |
| `TCPConnections.TCPConnection.SenderAck` | libsponge/tcp_connection.cc:44 | the sender's ack_received (`AckedAs`): its state becomes `AckView`, its queue grows by `AckSent`, its summary is `AckSummary` and a further fill would send `AckFill`, all of the state before |
| `TCPConnections.TCPConnection.SenderTick` | libsponge/tcp_connection.cc:100 | the sender's tick (`RetimedAs`): its queue grows by `Retransmitted(ms)`; the streams and the receiver untouched |
| `TCPConnections.TCPConnection.SenderSendEmpty` | libsponge/tcp_connection.cc:79 | the sender queues the empty segment at its next sequence number; nothing else of it changes (`QueueOnly`) |
| `TCPConnections.TCPConnection.SenderPop` | libsponge/tcp_connection.cc:166-167 | the oldest segment leaves the sender's queue, the rest kept in order; nothing else of it changes |
| `TCPConnections.TCPConnection.SenderWrite` | libsponge/tcp_connection.cc:89 | the outbound stream accepts min(\|data\|, room left) bytes, the front of data, appended to its history and buffer; its flags unchanged |
| `TCPConnections.TCPConnection.SenderEndInput` | libsponge/tcp_connection.cc:125 | the outbound stream is ended; its bytes and error flag unchanged |
| `TCPConnections.TCPConnection.ReceiverSegment` | libsponge/tcp_connection.cc:36 | the receiver takes the segment (`ReceivedAs`); the sender's state and what an acknowledgment would do to it (`AckView`, `AckSent`, `AckSummary`, `AckFill`) are unchanged |
| `TCPConnections.TCPConnection.AddAcknoAndWindowToSend` | libsponge/tcp_connection.cc:164-175 | the sender's queue is emptied into the connection's queue in order, each segment stamped with the receiver's ackno and window; nothing else changes |
| `TCPConnections.TCPConnection.DiscardSenderQueue` | libsponge/tcp_connection.cc:105 | the sender's queue is emptied and nothing else of the sender changes |
| `TCPConnections.TCPConnection.SetRstState` | libsponge/tcp_connection.cc:150-162 | with send_rst one unstamped reset at the next sequence number is queued, otherwise nothing; both streams fail, keeping their history, buffered bytes and end-of-input flag, and the sender's state (`View`) differs only in the error flag; linger off; inactive |
| `TCPConnections.TCPConnection.Connect` | libsponge/tcp_connection.cc:131-135 | fill_window runs and what it sends moves out stamped after what was queued (`ConnectedAs`); the sender reaches `FilledView` of its state before: the segments sent kept outstanding, the window and the retransmission count kept, the timer started if it was stopped and something was sent, the stream's history and flags unchanged; the receiver is untouched |
| `TCPConnections.TCPConnection.Write` | libsponge/tcp_connection.cc:88-93 | returns the bytes the stream accepts, appended to its history; fill_window then runs from the stream so extended and its segments move out stamped; the window, the retransmission count and the stream's flags are kept, and the timer starts if it was stopped and something was sent |
| `TCPConnections.TCPConnection.EndInputStream` | libsponge/tcp_connection.cc:124-129 | ends the outbound stream, its history and error flag kept; fill_window (which may now send FIN) runs and its segments move out stamped; the window and the retransmission count are kept, and the timer starts if it was stopped and something was sent |
| `TCPConnections.TCPConnection.Destroy` | libsponge/tcp_connection.cc:137-148 | an active connection is reset with a reset segment sent, both streams failing and the sender differing only in the error flag; an inactive one is left as it is; either way both streams keep their history, buffered bytes and end-of-input flag |
| `TCPConnections.TCPConnection.AckStage` | libsponge/tcp_connection.cc:39-48 | an empty ACK is needed exactly for a segment occupying sequence space, unless it had ACK and the connection's own queue is non-empty after ack_received; ack_received runs iff ACK is set; its ghost results state, on the state before it (`AckStaged`), what the sender queued, its summary afterwards and what a further fill_window would send: `AckSent`, `AckSummary` and `AckFill` of that ackno and window with ACK, nothing, the old summary and the old fill without; the ghost `mid` is the sender's state afterwards, pinned by `AckStaged` to `AckView` with ACK and to the state before without |
| `TCPConnections.TCPConnection.ConnectOnSyn` | libsponge/tcp_connection.cc:51-55 | with the sender CLOSED, connect() sends a first segment that is the SYN at absolute sequence number 0 with the ISN as seqno, and everything queued, that SYN included, moves out stamped after what the connection already held; the flags are unchanged; the sender reaches `FilledView` of its state before (`ConnectedAs`) |
| `TCPConnections.TCPConnection.React` | libsponge/tcp_connection.cc:50-83 | SYN_RECV with the sender CLOSED connects and returns (`ConnectedOnSyn`); otherwise as `CloseOrAnswer`; either way stated (`ReactedAs`) on the sender's queue, summary and fill when it is called, which its ghost arguments carry, and on the state reached, the receiver untouched; the sender ends in `ReactView` of its state when called: `FilledView` of it on a connect, that state otherwise |
| `TCPConnections.TCPConnection.CloseOrAnswer` | libsponge/tcp_connection.cc:58-83 | FIN_RECV with SYN_ACKED turns linger off; with linger off, FIN_RECV with FIN_ACKED makes the connection inactive and sends nothing; otherwise one empty segment is queued when an ACK is needed or the segment is a keep-alive, and the sender's queue followed by it moves out stamped (`ClosedOrAnsweredAs`); the sender's state (`View`) is unchanged |
| `TCPConnections.TCPConnection.LingerAndAnswer` | libsponge/tcp_connection.cc:58-83 | the passive-close linger update together with the answer; the sender's state (`View`) is unchanged |
| `TCPConnections.TCPConnection.UpdateLinger` | libsponge/tcp_connection.cc:58-61 | linger is turned off exactly when FIN_RECV meets SYN_ACKED |
| `TCPConnections.TCPConnection.Answer` | libsponge/tcp_connection.cc:72-83 | an empty segment is queued when needed or for a keep-alive, then everything queued moves out stamped; the sender's state (`View`) is unchanged |
| `TCPConnections.TCPConnection.Process` | libsponge/tcp_connection.cc:36-83 | the receiver takes the segment (`ReceivedAs`); an inconsistent byte ends the call with nothing sent and the sender untouched; otherwise the empty-ACK need, the segments ack_received queued, the sender's summary after the ACK stage and the fill after it are those `AckStaged` pins on the state before the call (`AckSent`, `AckSummary`, `AckFill`), the connection connects with a stamped SYN or closes or answers as `ReactedAs` says of them, and the sender's final state (`View`: outstanding segments, counters, flags, window, retransmission count, timer, and the stream's history and flags) is `ReactView` of `mid`, which `AckStaged` pins to `AckView` of the state before with ACK and to that state without; it only becomes inactive with FIN_RECV and FIN_ACKED |
| `TCPConnections.TCPConnection.AckAndReact` | libsponge/tcp_connection.cc:39-83 | after the receiver, the ACK stage and the reaction keep the invariant and leave the receiver untouched; the empty-ACK need, the segments ack_received queued, the sender's summary after it and the fill after it are the values `AckStaged` computes from the state before the call, the connection connects, closes or answers as `ReactedAs` says of them, and the sender's final state (`View`: outstanding segments, counters, flags, window, retransmission count, timer, and the stream's history and flags) is `ReactView` of `mid`, which `AckStaged` pins to `AckView` of the state before with ACK and to that state without; it only becomes inactive with FIN_RECV and FIN_ACKED |
| `TCPConnections.TCPConnection.Dispatch` | libsponge/tcp_connection.cc:26-83 | a reset fails both streams, turns linger off, makes the connection inactive, sends nothing and leaves the sender differing only in the error flag; any other segment goes through `Process`, whose receiver transition (`ReceivedAs`), ACK stage (`AckStaged`), reaction (`ReactedAs`) and sender state (`ReactView`) it passes on |
| `TCPConnections.TCPConnection.SegmentReceived` | libsponge/tcp_connection.cc:23-84 | the time since the last segment becomes 0; a reset fails both streams, turns linger off, makes the connection inactive, sends nothing and leaves the sender differing only in the error flag; without RST the receiver takes the segment (`ReceivedAs`) and an inconsistent byte sends nothing and leaves the sender untouched; otherwise the ACK stage is as `AckStaged` states on the state before the call, the connect, close or answer of `ReactedAs` hold, and the sender's final state (`View`: outstanding segments, counters, flags, window, retransmission count, timer, and the stream's history and flags) is `ReactView` of `mid`, which `AckStaged` pins to `AckView` of the state before with ACK and to that state without; the connection never becomes active or lingering again, and without RST it becomes inactive only with FIN_RECV and FIN_ACKED |
| `TCPConnections.TCPConnection.TakeSegment` | libsponge/tcp_connection.cc:173 | the owner takes the oldest segment of the connection's queue, which keeps the rest in order; flags and timer unchanged |
| `TCPConnections.TCPConnection.GiveUp` | libsponge/tcp_connection.cc:103-108 | the sender's queue is discarded and one reset at the next sequence number is sent; both streams fail, keeping their history, buffered bytes and end-of-input flag, and the sender's state (`View`) differs only in the error flag; inactive |
| `TCPConnections.TCPConnection.AfterTick` | libsponge/tcp_connection.cc:112-121 | retransmissions move out stamped; with linger on, FIN_RECV, FIN_ACKED and at least 10 · rt_timeout since the last segment, the connection becomes inactive and linger turns off; the streams and the receiver untouched |
| `TCPConnections.TCPConnection.Tick` | libsponge/tcp_connection.cc:96-122 | the time since the last segment grows by ms and the sender ticks (`RetimedAs`); over MAX_RETX_ATTEMPTS consecutive retransmissions one reset is the only segment sent and the connection fails, both streams keeping their history, buffered bytes and end-of-input flag; otherwise what the sender retransmits moves out stamped, the linger timeout is checked and both streams are unchanged; the receiver's own fields are outside what it may modify |
| `TCPConnections.TCPConnection.TickSender` | libsponge/tcp_connection.cc:100-121 | the sender's tick, then `Settle`, with the contract of `Tick` apart from the time |
| `TCPConnections.TCPConnection.Settle` | libsponge/tcp_connection.cc:103-121 | over MAX_RETX_ATTEMPTS consecutive retransmissions `GiveUp`; otherwise `AfterTick`, with both streams unchanged |
| `Routers.MatchesIffTopBitsAgree` | libsponge/router.cc:46 | the shift-and-xor test holds exactly when prefix and destination agree in their top prefix_length bits, prefix length 0 matching everything (`Matches` is the test of line 46) |
| `Routers.BestBy` | libsponge/router.cc:41-51 | the scan's index is a valid route index |
| `Routers.BestByIsLongestEarliest` | libsponge/router.cc:41-51 | the scan finds nothing exactly when no route matches, and otherwise a matching route of maximal prefix length, the earliest among ties |
| `Routers.LongestEarliestUnique` | libsponge/router.cc:47-49 | at most one route is the longest-earliest match |
| `Routers.BestByCharacterised` | libsponge/router.cc:41-51 | the scan returns route i exactly when i is the longest-earliest match |
| `Routers.Best` | libsponge/router.cc:40-51 | the route picked for the destination is a valid index |
| `Routers.BestIsLongestEarliest` | libsponge/router.cc:40-51 | no route is picked exactly when none matches the destination; a picked one is the longest-earliest match |
| `Routers.BestCharacterised` | libsponge/router.cc:40-51 | the route picked is route i exactly when i is the longest-earliest match for the destination |
| `Routers.RoutedForwardsOnce` | libsponge/router.cc:53-63 | a datagram is forwarded exactly when a route matches and its TTL exceeds 1, then once, on the chosen route's interface, to its next hop or else the destination, with the TTL one lower; otherwise nothing is sent (`Routed`, with `NextHopFor` and `Decremented`) |
| `Routers.RoutedQueueConcat` | libsponge/router.cc:66-75 | routing two queues back to back is routing their concatenation |
| `Routers.RoutedAllIsFlattened` | libsponge/router.cc:66-75 | routing every interface's queue in turn routes all their datagrams once, in order |
| `Routers.Router.AddRoute` | libsponge/router.cc:25-34 | appends the route and keeps the earlier ones in order |
| `Routers.Router.FindBestMatch` | libsponge/router.cc:40-51 | the loop returns the longest-earliest matching route, or none exactly when no route matches |
| `Routers.Router.RouteOneDatagram` | libsponge/router.cc:37-64 | sends what `Routed` gives for the datagram and changes neither the table nor the queues |
| `Routers.Router.DrainQueue` | libsponge/router.cc:69-73 | routes one interface's queue from the front until it is empty, each datagram once, in order; other queues unchanged |
| `Routers.Router.Route` | libsponge/router.cc:66-75 | drains every interface's queue, routing each datagram exactly once, interface by interface in queue order |
| `NetworkInterfaces.FlushFrames` | libsponge/network_interface.cc:106-113 | one IPv4 frame per held datagram, to the learned address, in the order held |
| `NetworkInterfaces.HeldLastFlushedLast` | libsponge/network_interface.hh:62 | a datagram held last is flushed after every datagram held before it |
| `NetworkInterfaces.AgedEntriesCompose` | libsponge/network_interface.cc:121-128 | two ticks age the cache as one tick of their combined length (`AgedEntries`) |
| `NetworkInterfaces.AgedRequestsCompose` | libsponge/network_interface.cc:130-142 | two ticks age the pending requests as one tick of their combined length (`AgedRequests`; `Abandoned` drops what was held for a request that expires) |
| `NetworkInterfaces.AgedByElapsed` | libsponge/network_interface.hh:69 | however time is split into ticks, a mapping survives exactly while the total time is below its remaining life, so a learned mapping lives ARP_ENTRY_TTL_MS |
| `NetworkInterfaces.HoldKeepsConsistent` | libsponge/network_interface.cc:49-66 | holding a datagram for an uncached address keeps the table invariant |
| `NetworkInterfaces.LearnKeepsConsistent` | libsponge/network_interface.cc:103-113 | learning a mapping and flushing what was held for it keeps the table invariant |
| `NetworkInterfaces.TickKeepsConsistent` | libsponge/network_interface.cc:119-143 | a tick keeps the table invariant |
| `NetworkInterfaces.NetworkInterface.constructor` | libsponge/network_interface.cc:23-27 | the given addresses, no frames, empty tables |
| `NetworkInterfaces.NetworkInterface.ReplyFrames` | libsponge/network_interface.cc:91-101 | one reply exactly for a request for our IP, addressed to the requester, from us, carrying our addresses as sender and the requester's as target |
| `NetworkInterfaces.NetworkInterface.Send` | libsponge/network_interface.cc:29-36 | pushes one frame from our address with the given destination, type and payload, and changes no table |
| `NetworkInterfaces.NetworkInterface.SendDatagram` | libsponge/network_interface.cc:41-68 | a cached next hop gets one IPv4 frame to the cached address with the tables unchanged; on a miss a request is broadcast only if none is pending, which is then pending for ARP_RESPONSE_TTL_MS, and the datagram is always held (the request is `RequestFrame`, lines 52-59) |
| `NetworkInterfaces.NetworkInterface.RecvFrame` | libsponge/network_interface.cc:71-116 | a frame for another address gives nothing and changes nothing; an IPv4 frame gives its datagram iff it parses; a parsed ARP message is learned, answered if it asks for us, and flushes what was held for its sender; anything else changes nothing (`Accepts`, line 73, decides whether the frame is for us) |
| `NetworkInterfaces.NetworkInterface.Learn` | libsponge/network_interface.cc:88-113 | the sender's mapping is cached for ARP_ENTRY_TTL_MS; the reply, if any, comes first, then the held datagrams in order; the held list is removed |
| `NetworkInterfaces.NetworkInterface.FlushHeld` | libsponge/network_interface.cc:106-113 | sends every datagram held for the address, in order, then forgets them |
| `NetworkInterfaces.NetworkInterface.Tick` | libsponge/network_interface.cc:119-143 | mappings and requests with ttl ≤ ms are removed and the rest age by ms; an expired request drops the datagrams held for it; no frame is sent |
| `NetworkInterfaces.NetworkInterface.ExpireEntries` | libsponge/network_interface.cc:121-128 | the loop over the cache, in any order, gives the aged cache |
| `NetworkInterfaces.NetworkInterface.ExpireRequests` | libsponge/network_interface.cc:130-142 | the loop over the pending requests, in any order, gives the aged requests and the held datagrams that survive |

## Left out

- Parsing and serialising of frames, ARP messages and datagrams are foreign code. A frame's payload records which record was serialised into it, and parsing gives that record back or fails.
- I/O, the socket adapters, the example applications and debug output to `cerr` are left out.
- The random ISN of tcp_sender.cc:21 is a constructor parameter.
- The constructors of TCPReceiver, TCPConnection and Router, and the `TCPConfig` they take, are declared in headers that are not part of this model. The models take the configuration as parameters.
- The helpers the core calls but whose source is not part of this model are defined from their use:
  - `wrap`/`unwrap` (wrapping_integers.cc);
  - the retransmission `Timer`;
  - `TCPState::state_summary`;
  - `TCPSegment::length_in_sequence_space`;
  - the `TCPConfig` constants MAX_PAYLOAD_SIZE = 1000 and MAX_RETX_ATTEMPTS = 8;
  - the sender's initial window of 1.
- Accessors that only return a field are modelled as reads of that field, not as functions: `input_ended`, `unassembled_bytes`, `time_since_last_segment_received` and `active` of the connection, `next_seqno`, `stream_in` and `segments_out`.
- 64-bit `size_t` counters are unbounded naturals. This covers the bytes written and read, the absolute sequence numbers, the bytes in flight, the elapsed times and the reassembler's cur + capacity. The model spells out the 64-bit wrap only where an index can wrap in practice: `abs_seq - 1` at tcp_receiver.cc:21 and `index + data.size()` at stream_reassembler.cc:25-26.
- `prefix_length` is limited to 0..32 by its type.
- Only the IPv4 header fields the core reads or writes are modelled: TTL, source and destination.
- The router's call `interface(n).send_datagram(...)` is recorded as a `Forward` event. Each interface's `datagrams_out()` queue is a sequence the router drains.
- The router decrements the TTL of the queued datagram in place. The model forwards a decremented copy and pops the original, as the source does right after.
- `unordered_map` iteration order is not modelled. The tick loops pick keys in any order, and their contracts hold for every order.
- The exception thrown on inconsistent substrings is a result `ok == false` that ends the call. State is left as the source leaves it, with the bytes before the conflict stored. The destructor's try/catch is left out.
- An ARP reply does not clear the pending request for its sender. The model keeps it pending until it expires, as the source does.
- StreamReassemblers.StreamReassembler.UnassembledBytes: equals the number of pending bytes only when no pending byte was dropped. The source's counter still includes bytes that an erase drops after the end of the stream moves below them.
- segment_received resets the time since the last segment first (tcp_connection.cc:25). The model resets it after handling the segment, because nothing in between reads or writes it.
