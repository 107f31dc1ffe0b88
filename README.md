# minnow TCP/IP core in Dafny

This project models the data plane of minnow, a small user-space TCP/IP stack, and proves
properties of that model. The modelled parts are:

- **Wrap32** (`wrap32.dfy`): 32-bit sequence numbers. `wrap` maps an absolute 64-bit
  offset to a sequence number relative to a zero point. `unwrap` recovers the offset
  nearest a checkpoint.
- **ByteStreams** (`byte_stream.dfy`): the capacity-bounded byte FIFO, with a writer
  (push, close) and a reader (peek, pop), its counters and its closed, finished and error
  flags.
- **Reassembly** and **ReassemblyProps** (`reassembler.dfy`, `reassembler_props.dfy`):
  the reassembler. It writes the contiguous prefix of out-of-order substrings into a byte
  stream. It keeps the rest in an ordered map (`buffer_data`) and merges that map after
  every store.
- **OrderedMaps** (`ordered_map.dfy`): the `std::map` keyed by offset that the
  reassembler and the sender's timer use. It is kept as a strictly ascending sequence of
  entries.
- **TcpMessages** and **TcpReceivers** (`tcp_messages.dfy`, `tcp_receiver.dfy`): the TCP
  receiver. It turns sender messages into reassembler inserts, and it reports the ackno,
  the window and RST.
- **TcpTimers**, **TcpSenders** and **TcpSenderProps** (`tcp_timer.dfy`,
  `tcp_sender.dfy`, `tcp_sender_props.dfy`): the retransmission timer and the TCP sender.
  The sender cuts the outbound stream into segments that fit the peer's window, starting
  with SYN and ending with FIN. It keeps them outstanding until they are acknowledged and
  retransmits with exponential back-off.
- **NetTypes**, **NetInterfaces** and **NetInterfaceProps** (`net_types.dfy`,
  `network_interface.dfy`, `network_interface_props.dfy`): the network interface. It
  resolves next hops with ARP, caches mappings for 30 s, and repeats a request at most
  every 5 s. It holds datagrams while their next hop is unresolved and queues received
  datagrams for the router.
- **Routers** and **RouterProps** (`router.dfy`, `router_props.dfy`): the router. It
  matches each datagram against a forwarding table by longest prefix, lowers its TTL,
  and hands it to the chosen interface.

Each component has two forms:

- a value form: a datatype of the component's state, with one function per operation;
  the lemmas are stated about this form;
- an object form: a class with the source's fields, whose methods update them in place
  with the source's loops. Each method is proved to produce the value form's result
  (`Model() == old(Model()).Op(...)`).

Every loop is proved against a recursive specification function through small step
lemmas. The walk over `buffer_data`, the erase-while-iterating loops over the waiting
datagrams, and the loop of `push` are handled this way.

Behaviour of the code that the model keeps as written:

- **Reassembler, in-order branch.** It passes `min(size, available + start)` as
  `substr`'s count, so `now_index` can advance by more bytes than the stream accepts
  (`InOrderCountsTakenNotAccepted`).
- **Router, default routes.** A rule whose prefix is 0 matches every destination,
  whatever its prefix length.
- **Timer, `remove_ack_msg`.** It returns the end of the first message still
  outstanding, or the ackno when nothing is outstanding.
- **Sender, FIN test.** The FIN test inside `push`'s loop (`src/tcp_sender.cc:110`)
  compares the window with this message's payload only, not with what is already in
  flight. So the sequence numbers in flight can exceed the window by one
  (`PushFitsWindow`).
- **Interface, request timing.** Suppression of a repeated ARP request tests `< 5000`,
  while expiry tests `> 5000`. So exactly 5000 ms after a request, the request is still
  pending and a new one is broadcast (`RequestRepeatedAtPeriod`).
- **Receiver, `seqno - 1`.** This is uint64 arithmetic and is modelled with its
  wrap-around. A FIN segment without SYN whose seqno is the ISN is inserted at index
  2^64 - 1. The reassembler then records `last_index` as the wrapped sum
  `first_index + size`, and the stream closes once the bytes below it arrive
  (`WrappedFinCloses`).

## Model

| member | source | states |
|---|---|---|
| Wrap32.Wrap | src/wrapping_integers.cc:7-11 | the sequence number is (zero point + n) modulo 2^32 |
| Wrap32.WrapPeriodic | src/wrapping_integers.cc:7-11 | offsets that differ by a multiple of 2^32 wrap to the same sequence number |
| Wrap32.Unwrap | src/wrapping_integers.cc:13-26 | the unwrapped offset is congruent to raw - zero modulo 2^32; its nearness to the checkpoint is UnwrapNear and the round trip UnwrapWrap |
| Wrap32.UnwrapCandidates | src/wrapping_integers.cc:13-26 | unwrap starts in the checkpoint's 2^32 block and moves at most one block; only the upward move can wrap past 2^64 |
| Wrap32.UnwrapCongruent | src/wrapping_integers.cc:13-26 | the unwrapped offset is congruent to raw - zero modulo 2^32, so wrapping it gives raw back |
| Wrap32.UnwrapNear | src/wrapping_integers.cc:13-26 | the result lies within 2^31 of the checkpoint, except for the first-block case where it is the one candidate below 2^32 |
| Wrap32.WrapResidue | src/wrapping_integers.cc:7-16 | the difference unwrap starts from is n modulo 2^32 |
| Wrap32.UnwrapAtZero | src/wrapping_integers.cc:13-26 | against zero point 0 and checkpoint 0, unwrap returns the raw value (the receiver records the ISN this way) |
| Wrap32.UnwrapWrap | src/wrapping_integers.cc:7-26 | round trip: an offset within 2^31 of the checkpoint is recovered from its wrapped value |
| ByteStreams.StreamState.AvailableCapacity | src/byte_stream.cc:38-41 | the available capacity is capacity + popped - pushed |
| ByteStreams.StreamState.Accepted | src/byte_stream.cc:10-19 | a push accepts no more than the data and no more than the free space |
| ByteStreams.StreamState.Push | src/byte_stream.cc:7-23 | push appends exactly the accepted prefix of data and counts it; empty data and a closed stream change nothing; the invariant is kept |
| ByteStreams.StreamState.Close | src/byte_stream.cc:25-31 | close marks the stream closed, and finished exactly when it was already finished or is empty |
| ByteStreams.StreamState.Pop | src/byte_stream.cc:53-65 | pop removes the min(len, buffered) oldest bytes and counts them; emptying a closed stream finishes it |
| ByteStreams.StreamState.SetError | src/tcp_receiver.cc:10 | set_error raises the error flag and changes nothing else |
| ByteStreams.NewStream | src/byte_stream.cc:5 | a new stream is empty, open and has its whole capacity available |
| ByteStreams.PushAppend | src/byte_stream.cc:7-23 | two pushes have the effect of one push of the concatenation |
| ByteStreams.PushPopFifo | src/byte_stream.cc:7-65 | the stream is FIFO: popping after a push removes the oldest bytes and leaves the pushed ones at the back |
| ByteStreams.ByteStream.constructor | src/byte_stream.cc:5 | the new object is valid and is the new stream of that capacity |
| ByteStreams.ByteStream.Push | src/byte_stream.cc:7-23 | the object's new state is StreamState.Push of its old state |
| ByteStreams.ByteStream.Close | src/byte_stream.cc:25-31 | the object's new state is StreamState.Close of its old state |
| ByteStreams.ByteStream.Pop | src/byte_stream.cc:53-65 | the object's new state is StreamState.Pop of its old state |
| ByteStreams.ByteStream.SetError | src/tcp_receiver.cc:10 | the object's new state is StreamState.SetError of its old state |
| ByteStreams.ByteStream.AvailableCapacity | src/byte_stream.cc:38-41 | capacity minus the bytes buffered (pushed - popped) |
| ByteStreams.ByteStream.BytesPushed | src/byte_stream.cc:43-46 | the bytes pushed are the bytes popped plus the bytes buffered |
| ByteStreams.ByteStream.BytesPopped | src/byte_stream.cc:77-80 | popped + buffered == pushed |
| ByteStreams.ByteStream.BytesBuffered | src/byte_stream.cc:72-75 | buffered == pushed - popped, never above the capacity |
| ByteStreams.ByteStream.IsClosed | src/byte_stream.cc:33-36 | a finished stream is closed |
| ByteStreams.ByteStream.Peek | src/byte_stream.cc:48-51 | peek shows every buffered byte, oldest first |
| ByteStreams.ByteStream.HasError | src/tcp_sender.cc:114 | the result is the stream's error flag |
| ByteStreams.ByteStream.IsFinished | src/byte_stream.cc:67-70 | the result is the finished flag; a finished stream is closed and has nothing buffered |
| OrderedMaps.KeysIndex | src/reassembler.cc:77-84 | a key is in the map exactly when some entry carries it |
| OrderedMaps.Keys | src/reassembler.cc:77-84 | the key set of the map is empty exactly for an empty map and holds the first key; KeysIndex gives every key |
| OrderedMaps.Put | src/reassembler.cc:84 | m[k] = v adds at most one entry; PutKeys, PutSorted and FindPut state where it goes |
| OrderedMaps.Find | src/reassembler.cc:77 | find succeeds exactly for a key of the map and returns that key's value |
| OrderedMaps.PutKeys | src/reassembler.cc:84 | assignment adds the key to the key set |
| OrderedMaps.PutSorted | src/reassembler.cc:84 | assignment keeps the map ordered |
| OrderedMaps.FindPut | src/reassembler.cc:84 | after m[k] = v, k finds v and every other key finds what it found before |
| Reassembly.Substr | src/reassembler.cc:48 | substr returns the min(count, size - pos) characters from pos on |
| Reassembly.Join | src/reassembler.cc:12-16 | joining two touching entries yields an entry from the first key to the further end |
| Reassembly.JoinPreserves | src/reassembler.cc:12-16 | a join covers exactly what its two entries covered and holds only bytes they held |
| Reassembly.Coalesce | src/reassembler.cc:6-24 | after merge the map is ordered, no two entries overlap or touch, and the first key is kept |
| Reassembly.CoalescePreserves | src/reassembler.cc:6-24 | merge changes neither the set of covered offsets nor any stored byte |
| Reassembly.Drain | src/reassembler.cc:52-65 | the drain loop advances now_index by exactly the bytes it pushes and never adds entries |
| Reassembly.DrainFacts | src/reassembler.cc:52-65 | the drain leaves a suffix of the map starting after the new now_index, erases only entries that end at or before the new now_index (no stored byte beyond it is lost), and every byte it pushes is the one stored at that offset |
| Reassembly.DrainPushStep | src/reassembler.cc:56-61 | one partially-overlapping entry pushed from now_index on is one step of the drain |
| Reassembly.MergeStart | src/reassembler.cc:8 | merge's walk starts with its invariant |
| Reassembly.MergeDone | src/reassembler.cc:11-22 | when the walk reaches the last entry, the map is the coalesced original |
| Reassembly.CoalesceJoin | src/reassembler.cc:12-16 | absorbing the second entry into the first does not change the merge result |
| Reassembly.CoalesceKeep | src/reassembler.cc:17-19 | a first entry short of the second is final |
| Reassembly.JoinStep | src/reassembler.cc:12-16 | the in-place extend-and-erase step keeps merge's invariant |
| Reassembly.KeepStep | src/reassembler.cc:17-19 | advancing the iterator keeps merge's invariant |
| Reassembly.DrainValid | src/reassembler.cc:52-65 | what the drain leaves is a valid map for the new now_index |
| Reassembly.StoreValid | src/reassembler.cc:82-86 | storing a future range and merging keeps the map valid |
| Reassembly.InOrderPiece | src/reassembler.cc:46-48 | the in-order piece is data from now_index on, min(size, available + start) long |
| Reassembly.ReasmState.Insert | src/reassembler.cc:26-88 | insert keeps the output stream valid (case-by-case effects in ReassemblyProps) |
| Reassembly.WriteInOrder | src/reassembler.cc:45-71 | the in-order branch keeps the output stream valid |
| Reassembly.FinishWrite | src/reassembler.cc:49-71 | the in-order branch after the piece is known keeps the output stream valid |
| Reassembly.StoreFuture | src/reassembler.cc:73-87 | the future branch changes only buffer_data |
| Reassembly.WriteInOrderValid | src/reassembler.cc:45-71 | the in-order branch leaves a valid reassembler |
| Reassembly.StoreFutureValid | src/reassembler.cc:73-87 | the future branch leaves a valid reassembler |
| Reassembly.InsertKeepsValid | src/reassembler.cc:26-88 | insert keeps buffer_data ordered and separated, with every entry after now_index |
| Reassembly.Reassembler.Merge | src/reassembler.cc:6-24 | the in-place walk leaves exactly Coalesce of the old map |
| Reassembly.Reassembler.DrainReady | src/reassembler.cc:52-65 | the loop's new now_index, map and stream are those of Drain |
| Reassembly.Reassembler.PushInOrder | src/reassembler.cc:45-71 | the object's new state is WriteInOrder of the old state |
| Reassembly.Reassembler.CloseIfDone | src/reassembler.cc:66-71 | once now_index reaches last_index the stream closes and the state resets; otherwise nothing changes |
| Reassembly.Reassembler.StoreAhead | src/reassembler.cc:73-87 | the object's new state is StoreFuture of the old state |
| Reassembly.Reassembler.Insert | src/reassembler.cc:26-88 | the object's new state and stream are ReasmState.Insert of the old ones, and the invariant holds |
| Reassembly.Reassembler.CountBytesPending | src/reassembler.cc:92-101 | the count is the total length of the stored entries |
| Reassembly.Reassembler.constructor | src/reassembler.cc:66-71 | the reassembler starts valid over its output stream, with now_index and last_index 0 and an empty map, the state the close resets to |
| Reassembly.PendingBytes | src/reassembler.cc:92-101 | the total is at least each entry's length, and 0 exactly when every entry is empty |
| ReassemblyProps.PutCovers | src/reassembler.cc:84 | after buffer_data[k] = v, v's offsets are covered, nothing else newly covered, and every byte is old or v's |
| ReassemblyProps.Recorded | src/reassembler.cc:28-30 | is_last_substring sets last_index to first_index + size modulo 2^64 (the uint64_t sum), and changes nothing else |
| ReassemblyProps.InsertRecordsLast | src/reassembler.cc:28-30 | last_index keeps the recorded uint64_t sum unless the stream closes and resets |
| ReassemblyProps.InsertIgnoredWhenClosedOrFull | src/reassembler.cc:31-34 | a closed or full stream makes insert a no-op beyond last_index |
| ReassemblyProps.InsertStale | src/reassembler.cc:36-44 | a range ending at or before now_index is dropped; if it is the last one the stream closes, the map clears and last_index keeps the uint64_t sum |
| ReassemblyProps.InsertBeyondWindow | src/reassembler.cc:73-76 | a range starting at or beyond now_index + available capacity is dropped |
| ReassemblyProps.InsertBlocked | src/reassembler.cc:77-81 | a range whose offset already holds as many bytes is dropped |
| ReassemblyProps.PutMergeCovers | src/reassembler.cc:82-86 | assign-then-merge covers v's offsets and nothing new besides |
| ReassemblyProps.StoreFutureCovers | src/reassembler.cc:82-86 | the future branch covers the range cut to the window and nothing else new |
| ReassemblyProps.StoreFutureHolds | src/reassembler.cc:82-86 | the future branch holds only old bytes and the range's own bytes at their offsets |
| ReassemblyProps.InsertStoresFuture | src/reassembler.cc:73-87 | a future range is stored cut to the window: exactly its offsets are added, with its bytes, and the stream is untouched |
| ReassemblyProps.Written | src/reassembler.cc:45-65 | the in-order branch writes at least the piece of data that fits |
| ReassemblyProps.WrittenBytes | src/reassembler.cc:45-65 | the written bytes are data's bytes from now_index on, then bytes stored for the following offsets |
| ReassemblyProps.WriteInOrderState | src/reassembler.cc:45-71 | the stream gets the written bytes and now_index passes them, the erased entries all end at or before the new now_index and the rest is kept, or at last_index the stream closes and the state resets |
| ReassemblyProps.InsertInOrder | src/reassembler.cc:36-71 | a range reaching past now_index takes the in-order branch after recording last_index |
| ReassemblyProps.InOrderCountsTakenNotAccepted | src/reassembler.cc:46-50 | with room for 3 bytes, now_index moves by 8 while the stream accepts 3 |
| ReassemblyProps.MergeKeepsPendingBounded | src/reassembler.cc:6-24 | merge never increases count_bytes_pending |
| TcpMessages.SenderMessage.SequenceLength | src/tcp_sender.cc:11 | SYN and FIN each add one to the payload length, and the length is 0 only for an empty flagless message |
| TcpReceivers.InsertIndex | src/tcp_receiver.cc:20-24 | the insert index is the unwrapped seqno, minus one unless SYN, with uint64 wrap at 0 |
| TcpReceivers.InsertIndexOfWrapped | src/tcp_receiver.cc:20-24 | an absolute seqno n near the checkpoint is inserted at n - 1, or at n with SYN |
| TcpReceivers.ReceiverState.Send | src/tcp_receiver.cc:27-43 | RST mirrors the stream error, the window is min(available, 65535), and an ackno exists exactly once the ISN is known |
| TcpReceivers.NewReceiver | src/tcp_receiver.cc:6-25 | a new receiver is valid and has no ISN |
| TcpReceivers.ReceiveKeepsValid | src/tcp_receiver.cc:6-25 | receive keeps the reassembler and stream invariants |
| TcpReceivers.ReceiveReset | src/tcp_receiver.cc:9-12 | RST sets the stream error and changes nothing else |
| TcpReceivers.ReceiveSyn | src/tcp_receiver.cc:13-16 | SYN records the raw seqno as the ISN |
| TcpReceivers.ReceiveBeforeSyn | src/tcp_receiver.cc:17-19 | before any SYN every message is ignored |
| TcpReceivers.ReceiveInserts | src/tcp_receiver.cc:20-24 | the payload is inserted at InsertIndex with FIN as the last flag |
| TcpReceivers.ReceiverState.Receive | src/tcp_receiver.cc:6-25 | RST sets the error; the ISN is known once any non-RST SYN arrives and is that SYN's seqno; the case-by-case effects are ReceiveReset, ReceiveSyn, ReceiveBeforeSyn and ReceiveInserts |
| TcpReceivers.WrappedFinCloses | src/tcp_receiver.cc:20-24 | a non-SYN FIN at the ISN is inserted at 2^64 - 1, last_index wraps to 2 (src/reassembler.cc:29), and the stream closes once bytes 0 and 1 arrive (src/reassembler.cc:66-71) |
| TcpReceivers.SendAckno | src/tcp_receiver.cc:30-34 | the ackno is the wrap of bytes_pushed + 1, plus one once closed |
| TcpReceivers.AcknoRoundTrip | src/tcp_receiver.cc:30-34 | unwrapping the ackno at the receiver's checkpoint gives back bytes_pushed + 1 (+1 once closed) |
| TcpReceivers.TcpReceiver.constructor | src/tcp_receiver.cc:6-25 | the object starts as NewReceiver over its reassembler's stream |
| TcpReceivers.TcpReceiver.Receive | src/tcp_receiver.cc:6-25 | the object's new state is ReceiverState.Receive of the old state |
| TcpReceivers.TcpReceiver.InsertPayload | src/tcp_receiver.cc:20-24 | the reassembler receives the insert at InsertIndex |
| TcpReceivers.TcpReceiver.Send | src/tcp_receiver.cc:27-43 | the message is ReceiverState.Send of the object's state |
| TcpTimers.InFlightAppend | src/tcp_sender.cc:7-14 | the number in flight adds up over a split of the map |
| TcpTimers.InFlight | src/tcp_sender.cc:7-14 | the number in flight is at least each outstanding message's sequence length |
| TcpTimers.AscendingSorted | src/tcp_sender.hh:45 | the stepwise ordering of keys is the map's ordering |
| TcpTimers.TimerState.Start | src/tcp_sender.hh:15-21 | start sets the RTO, marks the timer running from the current time, and keeps the rest |
| TcpTimers.NewTimer | src/tcp_sender.hh:13 | a new timer has nothing outstanding, is stopped and is at time 0 |
| TcpTimers.AddMessageSpec | src/tcp_sender.hh:25-32 | add_message stores the message at seqno, records init_RTO, starts a stopped timer and leaves a running one alone |
| TcpTimers.TimerState.AddMessage | src/tcp_sender.hh:25-32 | the timer runs, records the RTO, its key set gains seqno, and a running timer keeps its RTO and start time |
| TcpTimers.AddMessageValid | src/tcp_sender.hh:25-32 | after add_message the timer is valid and has something outstanding |
| TcpTimers.AddMessageInFlight | src/tcp_sender.cc:7-14 | a message added beyond every key adds its sequence length to the number in flight |
| TcpTimers.TimerState.RemoveAck | src/tcp_sender.cc:16-36 | remove_ack_msg never adds messages |
| TcpTimers.RemoveAckErasesPrefix | src/tcp_sender.cc:16-36 | remove_ack_msg erases exactly the leading fully acknowledged messages and returns the end of the first one kept, or ackno |
| TcpTimers.RemoveAckResets | src/tcp_sender.cc:16-36 | an erasure resets the count, the RTO and the start time; an emptied map stops the timer and resets the count and the RTO; a non-empty map with nothing erased is unchanged |
| TcpTimers.RemoveAckValid | src/tcp_sender.cc:16-36 | remove_ack_msg keeps the timer's invariant |
| TcpTimers.TickSpec | src/tcp_sender.cc:38-54 | tick advances the clock by ms, retransmits the oldest message exactly when the RTO has elapsed, and backs off only when the window is not full |
| TcpTimers.TimerState.Tick | src/tcp_sender.cc:38-54 | the clock advances by ms, nothing is erased, and at most one message, the oldest, is retransmitted |
| TcpTimers.Timer.Start | src/tcp_sender.hh:15-21 | the object's new state is TimerState.Start |
| TcpTimers.Timer.constructor | src/tcp_sender.hh:13 | the timer starts valid as NewTimer: nothing outstanding, stopped, clock 0 |
| TcpTimers.Timer.HaveStarted | src/tcp_sender.hh:23 | the result is is_started; a running timer has something outstanding |
| TcpTimers.Timer.GetRetransmissionCount | src/tcp_sender.hh:42 | the consecutive retransmission count |
| TcpTimers.Timer.AddMessage | src/tcp_sender.hh:25-32 | the object's new state is TimerState.AddMessage |
| TcpTimers.Timer.GetNum | src/tcp_sender.cc:7-14 | the loop's sum is the total sequence length in flight |
| TcpTimers.Timer.RemoveAckMsg | src/tcp_sender.cc:16-36 | the object's new state and result are TimerState.RemoveAck |
| TcpTimers.Timer.Tick | src/tcp_sender.cc:38-54 | the object's new state and retransmission are TimerState.Tick |
| TcpSenders.SenderState.Window | src/tcp_sender.cc:86-90 | a zero advertised window is treated as 1; a non-zero one is used as it is |
| TcpSenders.SenderState.MakeEmptyMessage | src/tcp_sender.cc:135-147 | the empty message occupies no sequence numbers, sits at the next seqno, and carries RST when the stream has failed |
| TcpSenders.SenderState.Push | src/tcp_sender.cc:68-133 | push keeps the ISN, the RTO and the window, and writes nothing to the stream; what it sends is PushReadsStream, PushFitsWindow, PushSynFin and PushSeqnos |
| TcpSenders.SenderState.Receive | src/tcp_sender.cc:149-166 | RST fails the stream; otherwise the advertised window is adopted; the flags and the ISN never change; ReceiveAck states the ackno handling |
| TcpSenders.SenderState.Tick | src/tcp_sender.cc:168-171 | the stream and window are kept, the timer's clock advances by ms, and at most the oldest message is retransmitted |
| TcpSenders.PushFin | src/tcp_sender.cc:124-132 | FIN is marked sent exactly when it was, or the stream has finished and the window has room; at most one FIN-only message is appended |
| TcpSenders.NewSender | src/tcp_sender.hh:59-61 | a new sender is valid, window 1, nothing sent or outstanding |
| TcpSenders.PushStep | src/tcp_sender.cc:91-122 | one pass keeps the sender valid and sends at least one sequence number |
| TcpSenders.SegmentLength | src/tcp_sender.cc:93-105 | the payload is within the bytes available, MAX_PAYLOAD_SIZE and the window's room; a SYN segment leaves room for the SYN (one byte is dropped when the payload would fill the window); otherwise the length is the smallest of the three |
| TcpSenders.SeqnoAfter | src/tcp_sender.cc:98-101 | a SYN segment carries the ISN; any other carries ISN + bytes read + 1 modulo 2^32 |
| TcpSenders.TimerKey | src/tcp_sender.cc:119 | the timer key unwraps the message's seqno, so it is congruent to seqno - ISN modulo 2^32 |
| TcpSenders.AddAll | src/tcp_sender.cc:119 | adding a run of messages to the timer leaves it running with the initial RTO, keeps its clock and retransmission count, and adds at most one entry per message; AddAllValid and AddAllSnoc state the rest |
| TcpSenders.AddAllValid | src/tcp_sender.cc:119 | adding the messages of a push keeps the timer valid and running |
| TcpSenders.AddAllSnoc | src/tcp_sender.cc:119 | adding a run then one message is adding the longer run |
| TcpSenders.PushLoop | src/tcp_sender.cc:91-123 | the loop keeps the sender valid, sends something exactly when the window has room and the stream has bytes, and marks SYN sent |
| TcpSenders.PushLoopFacts | src/tcp_sender.cc:91-123 | the loop meets its byte and flag contracts |
| TcpSenders.PushLoopBytes | src/tcp_sender.cc:91-123 | the messages carry exactly the bytes read, each at most MAX_PAYLOAD_SIZE and together within the window, a SYN segment with its payload within the window, and the loop stops only on a full window or an empty stream |
| TcpSenders.PushLoopFlags | src/tcp_sender.cc:99-113 | SYN is on the first message exactly when unsent, FIN at most on the last, and numbering is contiguous |
| TcpSenders.LoopConsBytes | src/tcp_sender.cc:91-123 | one pass followed by the rest of the loop meets the loop's byte contract |
| TcpSenders.ConsFlags | src/tcp_sender.cc:99-113 | SYN-first and FIN-last extend to a pass followed by the rest |
| TcpSenders.ConsContiguous | src/tcp_sender.cc:96-101 | contiguous numbering extends to a pass followed by the rest |
| TcpSenders.ContiguousIndexed | src/tcp_sender.cc:96-101 | the i-th message is numbered after the bytes read before it |
| TcpSenders.PushStepFacts | src/tcp_sender.cc:91-122 | one pass reads its payload from the stream front, fits MAX_PAYLOAD_SIZE and the window (with the SYN counted when it carries one), sets SYN only first and FIN only on emptying a finished stream |
| TcpSenders.LoopStep | src/tcp_sender.cc:91-123 | one pass of the object's loop keeps the loop invariant |
| TcpSenders.PushLoopUnfold | src/tcp_sender.cc:91-123 | the loop is one pass followed by the loop from the next state |
| TcpSenders.LoopRead | src/tcp_sender.cc:108 | a pass advances bytes_popped by its payload |
| TcpSenders.LoopExit | src/tcp_sender.cc:91 | at the loop's exit the invariant gives its result |
| TcpSenders.TcpSender.constructor | src/tcp_sender.hh:59-61 | the object starts as NewSender |
| TcpSenders.TcpSender.Push | src/tcp_sender.cc:68-133 | the object's new state and transmitted messages are SenderState.Push |
| TcpSenders.TcpSender.SendWhileRoom | src/tcp_sender.cc:91-123 | the loop's state, count and messages are PushLoop's, with the messages added to the timer |
| TcpSenders.TcpSender.PushSynOnly | src/tcp_sender.cc:71-85 | the SYN-only branch is SenderState.Push |
| TcpSenders.TcpSender.TakeSegment | src/tcp_sender.cc:93-117 | one pass's message and state are PushStep's, and the timer key is unwrap at the checkpoint |
| TcpSenders.TcpSender.SendSegment | src/tcp_sender.cc:93-122 | one pass with the timer update keeps the loop's correspondence |
| TcpSenders.TcpSender.PushFinOnly | src/tcp_sender.cc:124-132 | the FIN-only tail is PushFin |
| TcpSenders.TcpSender.MakeEmptyMessage | src/tcp_sender.cc:135-147 | the message is SenderState.MakeEmptyMessage |
| TcpSenders.TcpSender.Receive | src/tcp_sender.cc:149-166 | the object's new state is SenderState.Receive |
| TcpSenders.TcpSender.AcceptAck | src/tcp_sender.cc:160-164 | expect_ackno and the timer become remove_ack_msg's result |
| TcpSenders.TcpSender.Tick | src/tcp_sender.cc:168-171 | the object's new state and retransmission are SenderState.Tick |
| TcpSenders.TcpSender.SequenceNumbersInFlight | src/tcp_sender.cc:57-60 | the total sequence length outstanding |
| TcpSenders.TcpSender.ConsecutiveRetransmissions | src/tcp_sender.cc:63-66 | the timer's retransmission count |
| TcpSenderProps.FinOnly | src/tcp_sender.cc:126-128 | the FIN-only message carries FIN alone and occupies one sequence number |
| TcpSenderProps.PushFinFacts | src/tcp_sender.cc:124-132 | FIN-only is sent and recorded exactly when the stream has finished, FIN is unsent and the window has room |
| TcpSenderProps.ContiguousSnoc | src/tcp_sender.cc:127 | the FIN-only message continues the contiguous numbering |
| TcpSenderProps.FlagsSnoc | src/tcp_sender.cc:124-132 | appending FIN-only keeps SYN-first and FIN-last |
| TcpSenderProps.NothingInFlightBeforeSyn | src/tcp_sender.cc:57-60 | before SYN nothing is in flight |
| TcpSenderProps.SnocNoPayload | src/tcp_sender.cc:124-132 | a message without payload adds no bytes |
| TcpSenderProps.PushReadsStream | src/tcp_sender.cc:68-133 | push sends exactly the bytes it reads from the stream front, in order |
| TcpSenderProps.PushFitsWindow | src/tcp_sender.cc:86-132 | every payload is within MAX_PAYLOAD_SIZE, payloads fit the window's room, a SYN segment and its payload together fit the window (the byte drop of src/tcp_sender.cc:102-105), and in-flight exceeds the window by at most one |
| TcpSenderProps.PushSynFin | src/tcp_sender.cc:68-133 | SYN exactly once on the connection's first message, FIN at most once on a push's last message and only after a finished stream is fully read |
| TcpSenderProps.PushSeqnos | src/tcp_sender.cc:74-127 | SYN is at the ISN and every other message is numbered right after the bytes read before it |
| TcpSenderProps.PushKeepsValid | src/tcp_sender.cc:68-133 | push keeps the sender's invariant and its ISN, RTO and window |
| TcpSenderProps.EmptyMessageIsNext | src/tcp_sender.cc:135-147 | the empty message's seqno is the one the next data segment takes |
| TcpSenderProps.ReceiveReset | src/tcp_sender.cc:151-154 | RST fails the stream and changes nothing else |
| TcpSenderProps.ReceiveAck | src/tcp_sender.cc:155-165 | the window is adopted; an ackno beyond what was sent is ignored, any other is passed to remove_ack_msg |
| TcpSenderProps.ReceiveKeepsValid | src/tcp_sender.cc:149-166 | receive keeps the sender's invariant |
| TcpSenderProps.TickBacksOff | src/tcp_sender.cc:168-171 | tick retransmits the oldest message once the RTO elapses and doubles the RTO only for a non-zero window |
| TcpSenderProps.WriterKeepsValid | src/byte_stream.cc:7-31 | writing to or closing the outbound stream keeps the sender's invariant |
| NetTypes.ParseDatagram | src/network_interface.cc:106-107 | parsing an IPv4 payload succeeds exactly for a serialized datagram |
| NetTypes.ParseArp | src/network_interface.cc:112-113 | parsing an ARP payload succeeds exactly for a serialized ARP message |
| NetInterfaces.FramesFor | src/network_interface.cc:124-133 | one IPv4 frame per datagram, in order, to the given address |
| NetInterfaces.DatagramFrame | src/network_interface.cc:37-43 | an IPv4 frame from src to dst whose payload parses back to the datagram |
| NetInterfaces.RequestFrame | src/network_interface.cc:70-83 | a broadcast ARP frame whose payload parses to a request from this interface's addresses for target, with a zero target Ethernet address |
| NetInterfaces.ReplyFrame | src/network_interface.cc:143-157 | an ARP frame to the requester whose payload parses to a reply carrying this interface's addresses and addressed to the requester's |
| NetInterfaces.Without | src/network_interface.cc:173-181 | the queue kept after erasing the datagrams for some hops is no longer than before; NetInterfaceProps.WithoutMembers states which stay |
| NetInterfaces.Matching | src/network_interface.cc:124-133 | the datagrams released for one hop are no more than those waiting; NetInterfaceProps.MatchingMembers states which |
| NetInterfaces.StaleRequests | src/network_interface.cc:170 | the stale requests are pending ones, and include every request older than 5000 ms at the new time |
| NetInterfaces.StaleEntries | src/network_interface.cc:191 | the stale entries are cached ones, and include every entry older than 30000 ms at the new time |
| NetInterfaces.InterfaceState.SendDatagram | src/network_interface.cc:31-94 | send_datagram never touches the received queue or the clock |
| NetInterfaces.InterfaceState.RecvFrame | src/network_interface.cc:97-164 | a frame for another host changes nothing; at most one datagram is queued; the clock is kept (cases in RecvIgnores, RecvDatagram, ArpLearns) |
| NetInterfaces.InterfaceState.LearnArp | src/network_interface.cc:116-161 | the sender's mapping is cached, its request cleared, frames only appended, and the received queue kept (ArpReleases, ArpAnswers) |
| NetInterfaces.InterfaceState.Tick | src/network_interface.cc:167-199 | the clock advances by ms, nothing is sent or received, and requests and cache entries are only removed (TickExpires) |
| NetInterfaces.NewInterface | src/network_interface.cc:14-25 | a new interface satisfies the invariant |
| NetInterfaces.WithoutSnoc | src/network_interface.cc:124-133 | keeping the non-matching datagrams extends one element at a time |
| NetInterfaces.MatchingSnoc | src/network_interface.cc:124-133 | picking the datagrams for ip extends one element at a time |
| NetInterfaces.FramesForSnoc | src/network_interface.cc:124-133 | the released frames extend one datagram at a time |
| NetInterfaces.WithoutTwice | src/network_interface.cc:169-188 | dropping the datagrams for one set of hops then another is dropping those for the union |
| NetInterfaces.WithoutAppend | src/network_interface.cc:173-181 | dropping distributes over concatenation |
| NetInterfaces.EraseStep | src/network_interface.cc:124-133 | one pass of the erase-while-iterating loop either erases the current datagram or steps past it |
| NetInterfaces.WithoutNone | src/network_interface.cc:169 | dropping for no hop keeps the queue |
| NetInterfaces.NetworkInterface.constructor | src/network_interface.cc:14-25 | the object starts as NewInterface |
| NetInterfaces.NetworkInterface.SendDatagram | src/network_interface.cc:31-94 | the object's new state is InterfaceState.SendDatagram |
| NetInterfaces.NetworkInterface.RecvFrame | src/network_interface.cc:97-164 | the object's new state is InterfaceState.RecvFrame |
| NetInterfaces.NetworkInterface.LearnArp | src/network_interface.cc:116-161 | the object's new state is InterfaceState.LearnArp |
| NetInterfaces.NetworkInterface.ReleaseWaiting | src/network_interface.cc:124-133 | the loop sends every datagram waiting for ip, in order, and removes them from the queue |
| NetInterfaces.NetworkInterface.DropWaiting | src/network_interface.cc:173-181 | the loop removes exactly the datagrams waiting for ip |
| NetInterfaces.NetworkInterface.Tick | src/network_interface.cc:167-199 | the object's new state is InterfaceState.Tick |
| NetInterfaces.NetworkInterface.ExpireRequests | src/network_interface.cc:169-188 | the loop removes exactly the stale requests and the datagrams waiting on them |
| NetInterfaces.NetworkInterface.ExpireCache | src/network_interface.cc:190-197 | the loop removes exactly the stale cache entries |
| NetInterfaceProps.WithoutMembers | src/network_interface.cc:124-133 | the kept queue holds exactly the datagrams whose hop is not dropped |
| NetInterfaceProps.MatchingMembers | src/network_interface.cc:124-133 | the released datagrams are exactly those waiting for ip |
| NetInterfaceProps.WaitingSplits | src/network_interface.cc:124-133 | every waiting datagram is either released or kept, never both |
| NetInterfaceProps.SendCached | src/network_interface.cc:34-46 | a cached next hop gets one IPv4 frame, to the cached address and from this interface; nothing is queued |
| NetInterfaceProps.SendSuppressed | src/network_interface.cc:49-67 | with a request younger than 5000 ms, the datagram is queued and nothing is sent |
| NetInterfaceProps.SendRequests | src/network_interface.cc:70-92 | otherwise the datagram is queued and one broadcast ARP request for the hop is sent and timestamped |
| NetInterfaceProps.NoDuplicateRequest | src/network_interface.cc:49-67 | within 5000 ms of a request, a second datagram for the hop only waits |
| NetInterfaceProps.RequestRepeatedAtPeriod | src/network_interface.cc:49-92 | exactly 5000 ms after a request it is still pending, yet a new request is broadcast |
| NetInterfaceProps.RecvIgnores | src/network_interface.cc:97-164 | foreign frames, other EtherTypes and unparsable payloads are ignored |
| NetInterfaceProps.RecvDatagram | src/network_interface.cc:104-109 | an IPv4 frame for this host or broadcast queues its datagram and changes nothing else |
| NetInterfaceProps.ArpLearns | src/network_interface.cc:116-122 | any ARP message caches its sender at the current time and clears its pending request; other entries stay |
| NetInterfaceProps.ArpReleases | src/network_interface.cc:124-133 | every datagram waiting for the sender is sent once, in queue order, to the learned address; the rest keep waiting |
| NetInterfaceProps.ArpAnswers | src/network_interface.cc:135-161 | a reply is sent exactly for a request for this interface's address, to the requester, with this interface's addresses |
| NetInterfaceProps.WaitingUntilReply | src/network_interface.cc:31-133 | a datagram held for an unresolved hop goes out to the resolved address when the hop's ARP arrives |
| NetInterfaceProps.TickExpires | src/network_interface.cc:167-199 | tick keeps exactly the requests at most 5000 ms old and cache entries at most 30000 ms old, drops datagrams waiting on expired requests, and advances the clock |
| NetInterfaceProps.SendKeepsValid | src/network_interface.cc:31-94 | send_datagram records no time in the future |
| NetInterfaceProps.RecvKeepsValid | src/network_interface.cc:97-164 | recv_frame records no time in the future |
| NetInterfaceProps.TickKeepsValid | src/network_interface.cc:167-199 | tick records no time in the future |
| Routers.Pow2 | src/router.cc:54-55 | the shift divisor is positive |
| Routers.Matches | src/router.cc:53-55 | a rule matches its own prefix, and a non-zero /32 rule matches exactly its own address; RouterProps.MatchesBlock and ZeroPrefixMatchesAll give the full test |
| Routers.NextHop | src/router.cc:64-68 | the rule's next hop when it has one, otherwise the datagram's destination |
| Routers.TableWithRoute | src/router.cc:24-27 | add_route fails exactly when the interface number is out of range; otherwise the rule is appended after the unchanged table |
| Routers.BestMatch | src/router.cc:51-59 | the chosen rule is an index into the table |
| Routers.Forward | src/router.cc:43-69 | forwarding one datagram leaves every received queue as it was |
| Routers.Drain | src/router.cc:38-70 | draining interface i empties its queue and leaves the other queues alone |
| Routers.RouteFrom | src/router.cc:34-71 | routing from interface i on empties the queues from i on and leaves earlier ones alone |
| Routers.LongestPrefixMatch | src/router.cc:51-59 | the loop's choice is the longest matching rule, the earliest among equals, or none when nothing matches |
| Routers.BestMatchIsBest | src/router.cc:51-59 | BestMatch is the longest match, ties to the earliest rule, or None when nothing matches |
| Routers.BestIsUnique | src/router.cc:51-59 | at most one answer is the longest, earliest match |
| Routers.Router.AddRoute | src/router.cc:14-28 | the rule is appended when its interface exists; otherwise the call fails and the table is unchanged |
| Routers.Router.Route | src/router.cc:31-72 | the interfaces' new states are RouteFrom of the old ones |
| Routers.Router.DrainInterface | src/router.cc:38-70 | the interfaces' new states are Drain of the old ones |
| Routers.Router.ForwardDatagram | src/router.cc:43-69 | the interfaces' new states are Forward of the old ones |
| RouterProps.DivBlock | src/router.cc:54-55 | shifting right selects the block of 2^k numbers a value lies in |
| RouterProps.MatchesBlock | src/router.cc:53-55 | a non-zero prefix matches exactly the addresses sharing its top prefix_length bits |
| RouterProps.ZeroPrefixMatchesAll | src/router.cc:53 | a zero prefix matches every destination |
| RouterProps.LongestPrefixExample | src/router.cc:51-59 | with 10.0.0.0/8 and 10.0.1.0/24, 10.0.1.5 takes the /24 and 10.0.2.5 the /8 |
| RouterProps.Pow2Add | src/router.cc:54-55 | shifts compose |
| RouterProps.ForwardDrops | src/router.cc:43-62 | a datagram with TTL at most 1, or with no matching rule, is dropped |
| RouterProps.ForwardDelivers | src/router.cc:46-69 | any other datagram goes, with TTL one lower, to the chosen rule's interface and next hop (or its destination); no other interface changes |
| RouterProps.RouteEmptiesQueues | src/router.cc:31-72 | after route every received queue is empty |
| RouterProps.AddRouteAppends | src/router.cc:24-27 | add_route fails exactly for an out-of-range interface; otherwise the rule is appended after the earlier rules |
| RouterProps.AddRouteKeepsChoice | src/router.cc:56 | a new rule no longer than the current choice does not change it |
| RouterProps.AddRouteTakesOver | src/router.cc:53-57 | a new matching rule longer than every matching rule takes over |

## Left out

- Integer widths: byte counters, stream offsets and timer values are unbounded naturals. The wrap-arounds that reachable inputs can trigger are written out: the checkpoints passed to unwrap (`U64`), unwrap's upward move, the receiver's `seqno - 1`, and the reassembler's `last_index = first_index + data.size()`. The receiver can pass the wrapped index 2^64 - 1, so that sum wraps. The reassembler's other sums are unbounded: `first_index + data.size()` in the in-order test has `first_index <= now_index`, and `now_index + available_capacity` bounds the future branch. Either would wrap only after 2^64 - capacity bytes had been written. Timer values would need 2^64 milliseconds.
- Wire formats: serialization, parsing, checksums and the IPv4 header fields other than TTL and destination are not modelled. A frame payload is a serialized datagram, a serialized ARP message or unparsable bytes. `parse` succeeds exactly on the matching kind, which includes ARP's `supported()` test.
- The router's `compute_checksum` after lowering the TTL is not modelled (see wire formats).
- Debug output (the `cerr` line in add_route, `debug` calls) is left out.
- Callbacks and ports: `transmit` callbacks become returned message sequences (sender), and the interface's output port becomes the log `transmitted`. The queue of received datagrams is a sequence.
- `Address` is modelled as its numeric IPv4 value (`ipv4_numeric`). An Ethernet address is a 48-bit number.
- `TCPConfig::MAX_PAYLOAD_SIZE` is fixed at 1000. tcp_config.hh is not part of this model.
- The message types' headers (tcp_sender_message.hh, tcp_receiver_message.hh, ethernet and ARP headers) are not part of this model. Their fields are the ones the core reads and writes.
- The Timer's `isn` field is carried but never read, as in the source.
- reassembler.hh is not part of this model. The reassembler's initial state (now_index and last_index 0, an empty map) is taken to be the one the close at `src/reassembler.cc:66-71` resets to.
- std::map iteration order in `NetworkInterface::tick` is not modelled. Each loop's result does not depend on the order in which keys are visited, and the loops take keys in any order.
- Routers.Router.AddRoute: requires a well-formed rule (prefix 0, or length 1 to 32). Otherwise `route` would shift a `uint32_t` by 32 or more, which C++ leaves undefined.
- Routers.Router: `add_interface` and the interface ownership of router.hh are not part of this model. The router is built from a list of distinct interfaces, and `best_match` is kept as an index into the table rather than a copied rule.
- TcpSenders.TcpSender.constructor: builds the outbound stream itself from a capacity instead of taking a moved `ByteStream`.
- TcpSenders.TcpSender.TakeSegment: sets FIN and RST on the message after the pop and before the timer update, in the source's order. The loop adds every message to the timer after cutting it, because the loop never reads the timer. The proof tracks this with a ghost copy of the timer.
- TcpSenders.PushStep: `window_size - payload.size() > 0` is modelled as `window > |payload|`. Both are unsigned and the payload never exceeds the window, so they agree.
- NetInterfaces.InterfaceState: the unsigned differences `last_tick_ - time` are taken as exact. The invariant that no recorded time lies in the future is proved preserved by every operation (SendKeepsValid, RecvKeepsValid, TickKeepsValid), so they never wrap.
- NetInterfaces.InterfaceState.LearnArp: releases waiting datagrams through the cache just filled. This is why the source's nested `send_datagram` always takes its cache-hit branch, and ReleaseWaiting proves that it does.
