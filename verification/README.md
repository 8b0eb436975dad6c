# Sponge TCP: a Dafny model

Sponge is a user-space TCP/IP stack: a byte stream, a stream reassembler, a TCP sender, receiver and
connection, TCP and IPv4 wire formats with the Internet checksum, a network interface with an ARP
cache, and a router. This project models that logic in Dafny and proves what it promises: for every
input, every run and every reachable state.

Each object that the C++ code updates in place is a class with the same fields and loops (for
example `StreamReassemblers.StreamReassembler`), and each of its methods is proved equal to a step of
a *value* (`Reassembly.Window`). What the stack promises is then proved about the values:

- `Reassembly` – a window of pending bytes in front of an in-order stream. The bitmap of
  `StreamReassemblers` refines it.
- `Senders`, `SenderRuns` – segmentation, the retransmission queue, 16-bit window arithmetic, the
  timer and the phases of a connection. `TcpSenders` refines them.
- `SenderClocks` – the retransmission timer against an onlooker who sees only what is sent and what is
  outstanding.
- `Receivers` – recovery of absolute positions, acknowledgements, the window. `TcpReceivers` refines it.
- `EndToEnd` – a sender and a receiver joined by a network that loses, repeats and reorders segments,
  and by an acknowledgement channel that loses but does not reorder. Absolute sequence numbers travel
  as labels next to the 32-bit wire values.
- `EarlyFin`, `Overruns` – runs in which a FIN that is early or cut off, or an acknowledgement that is not
  tolerable, breaks a promise, so that the conditions of the theorems are seen to be needed.
- `Connections` – lingering, aborting and closing. `TcpConnections` refines it.
- `ConnectionRuns`, `ConnectionTimes` – a connection from outside: the run its sender goes through, what
  it answers and sends, and when it sends again, gives up or stops lingering.
- `Checksums`, `Parsing`, `TcpWire`, `Ipv4Wire`, `TcpOverIp` – the wire formats, nested, across routers.
- `NetworkInterfaces`, `Routers` – ARP and longest-prefix forwarding.

`dafny verify dfyconfig.toml` checks the whole project.

## What the main theorems say

- **End-to-end safety** (`EndToEnd.EndToEndSafety`). In every run, what the receiver has assembled is a
  prefix of what was written at the sender, and every segment that can arrive starts inside the
  receiver's window. Instead of a bound on the stream there is a segment lifetime: a segment does not
  arrive after the receiver has moved 2^31 numbers past it. Streams under 2^31 bytes meet it by
  themselves (`EndToEnd.ShortStreamAlwaysDelivers`). No assumption about FIN is needed.
- **Complete delivery** (`EndToEnd.CompleteDelivery`). When the receiver's stream has ended, every byte
  that was written has been assembled, in runs in which a FIN without bytes does not overtake the data.
  The condition is exact: one action keeps the receiver's knowledge of the end true if and only if it is
  punctual (`EndToEnd.SoundExactlyPunctual`, from `Receivers.SegmentKeepsSound` and
  `Reassembly.PushEndSound`), an early mark always leads to an early end
  (`Reassembly.EarlyMarkEndsEarly`), and `EarlyFin.ByteLost` is a run of the joined system that loses a
  byte.
- **What is sent** (`EndToEnd.NothingPastEdge`). In every run, with or without an early FIN, every packet
  that was ever sent ends at the right edge of the receiver's window at the latest, except that a single
  number, a probe, may start there.
- **Window respect** (`SenderRuns.RunRespectsWindow`, `EndToEnd.WindowRespected`). The 16-bit free space is
  exact over every run with tolerable acknowledgements. Joined by an ordered channel, the receiver
  supplies such acknowledgements, in a chain, in every run in which no FIN overtakes the data, after the
  FIN too. One accepted acknowledgement keeps the window respected exactly when it is tolerable
  (`SenderRuns.AcknowledgeRespects`); `Overruns` has runs of a new sender for the two ways in which one
  that is not makes it pass the edge.
- **The acknowledgement number** (`Receivers.AckIsFirstMissing`). It is the first missing number exactly
  unless a FIN was seen and nothing is pending while bytes are missing. A FIN that is cut off or early
  leads there (`EarlyFin.CutOffFinAcknowledged`).
- **No moving back** (`Receivers.RetreatsExactly`, `Receivers.ReceiverNeverRetreats`). In every state and
  over every run the acknowledgement, and the right edge, move back exactly when a byte from beyond a gap
  arrives after a FIN was counted (`EarlyFin.AcknowledgementMovesBack`). With punctual segments that
  does not happen (`Receivers.PunctualRunCounts`).
- **Timer and end of a connection** (`Connections.TimerExact`, `Connections.StaysActive`,
  `Connections.InactiveForever`) and **clean close** (`Connections.CleanClose`: own FIN acknowledged,
  inbound stream ended, lingering decided by which stream ended first) hold over every run in which the
  segments that are not resets meet the flow premise below. That the inbound stream is the peer's whole
  stream (`Connections.CompleteClose`) needs punctual FINs.
- **Inside every connection** (`ConnectionRuns.EventEffect`, `ConnectionRuns.RunTraced`). Over every run the
  sender goes through a run of its own, event by event, and every segment it gives is sent once, in order,
  with the receiver's newest acknowledgement and window. A segment that takes sequence numbers is always
  answered (`ConnectionRuns.SegmentAnswered`).
- **The timer by the clock** (`SenderClocks.TimerExact`, `ConnectionTimes.SentByTimetable`,
  `ConnectionTimes.LingersExactly`). Over every run the count, the timeout and the elapsed time are what an
  onlooker has noted, in their 16 and 32 bits. With nothing acknowledged, the events alone give the times
  of all retransmissions and of the reset after the eighth; and the silence since the last segment gives
  the end of lingering.
- **Two interfaces** (`NetworkInterfaces.FrameDelivers`, `NetworkInterfaces.ResolutionDelivers`): what one
  sends to the other's address arrives, after resolving that address if need be.
- **Forwarding exactly once** (`Routers.ForwardsExactlyOnce`), **longest-prefix routing**
  (`Routers.BestIsLongest`, `Routers.DecideMeans`, `Routers.OrderDoesNotMatter`), **the frames of every
  interface** (`Routers.RoutingEmits`) and the **nested round trip over routers**
  (`TcpOverIp.NestedRoundTrip`), with a checksum that any peer can verify (`TcpOverIp.WrappedVerifies`).
- **Exact ARP cache and waiting lists** (`NetworkInterfaces.RunKeepsCacheExact`,
  `NetworkInterfaces.HeldIsFirst`), **which datagrams are lost**
  (`NetworkInterfaces.LostExactlyWhenHeld`), and that **every other one** is in one frame or still held
  (`NetworkInterfaces.EveryDatagramAccounted`).
- **Order independence** (`Reassembly.OrderIndependence`), **conservation** (`SenderRuns.RunConserves`),
  **nearest unwrapping** (`WrappingIntegers.UnwrapNearest`) and **single-byte error detection**
  (`TcpWire.SingleByteErrorDetected`).

## Where code and documentation disagree

- README.md:35 says that an early end mark waits for all substrings. The code ends the stream as soon as
  nothing is *pending*, so an empty final substring that arrives before missing bytes ends it early.
  The model follows the code.
- The interface is documented to queue every datagram for an unresolved hop
  (libsponge/network_interface.hh:59-62). The code pushes later ones onto a copy of the list, so they are
  lost (`NetworkInterfaces.SecondDatagramLost`). A datagram is sent or queued if and only if its hop is
  cached or nothing waits for it yet (`NetworkInterfaces.KeptUnlessWaiting`).
- The interface is documented not to ask for the same address twice within five seconds
  (libsponge/network_interface.hh:59-61). The time since the last request is that since the first one, so
  after five seconds every datagram asks (`NetworkInterfaces.AskedTwiceAtOnce`); the exact condition is
  `NetworkInterfaces.AsksTooSoon`.
- Parsing a datagram computes a verdict on its header (libsponge/tcp_helpers/ipv4_header.cc:23-75) and does
  not use it, so a header with a wrong checksum is accepted (`Ipv4Wire.BadChecksumAccepted`).
- The receiver is documented to return the number of the first byte it does not have
  (libsponge/tcp_receiver.hh:46-47). The code also adds
  one for a FIN whose bytes were cut off, or that came early; the exact condition is
  `Receivers.AckIsFirstMissing`.
- A route is documented to need only the top bits of its prefix (libsponge/router.cc:22-23). The code
  compares the masked destination with the whole prefix, so a prefix with host bits matches nothing
  (`Routers.HostBitsNeverMatch`); the exact condition is `Routers.MaskTest`.
- The reassembler is documented to discard bytes that would exceed its capacity
  (libsponge/stream_reassembler.hh:37-38). It does so exactly for substrings that meet the flow premise
  below (`StreamReassemblers.DiscardsExactly`); `StreamReassemblers.MemoryLimitBroken` reaches a state
  that holds more.

## Premises

Each is what the code needs from its caller, and is proved to hold in the composed system where it can be.

- A pushed substring with bytes starts no later than bytes read + capacity, or past the bitmap. Beyond
  that the unsigned subtraction wraps (`StreamReassemblers.RealLengthFits`). `EndToEnd` discharges it.
- The checkpoint of `unwrap` is below 2^64 − 2^32, or the loop does not end
  (`WrappingIntegers.LoopDiverges`). Capacities and substrings are shorter than 2^31 (an `int` offset).
- The receive capacity is at most 65535 end to end: the window field has 16 bits.
- A FIN is neither cut off by the window nor ahead of the last byte (`Receivers.FinOk`), where a theorem
  says that what has arrived, or ended, is the peer's stream, or that the acknowledgements of the joined
  system form a chain. For the first it is necessary as well (`Receivers.SegmentKeepsSound`). The sender of
  this stack never has its FIN cut off; a FIN without bytes may come early (`EarlyFin.ByteLost`).
- The application does not write after ending its stream. 64-bit counters do not overflow.
- A prefix length is at most 32: a longer shift is undefined.

## Model

| member | source | states |
|---|---|---|
| WrappingIntegers.Difference | libsponge/wrapping_integers.hh:47-47 | the signed difference is the int32 representative: adding it back gives the first operand |
| WrappingIntegers.UnwrapNearest | libsponge/wrapping_integers.cc:29-44 | the result wraps to n and no other non-negative number that does is closer to the checkpoint; ties go up |
| WrappingIntegers.NearestUnique | libsponge/wrapping_integers.cc:19-23 | only one number is nearest, so the specification determines the result |
| WrappingIntegers.UnwrapWrap | libsponge/wrapping_integers.cc:17-44 | unwrapping undoes wrapping if and only if the number is within half a turn of the checkpoint, or above it in the first turn |
| WrappingIntegers.UnwrapLoop | libsponge/wrapping_integers.cc:29-44 | the 64-bit code returns the nearest number and its loop runs at most once |
| WrappingIntegers.LoopDiverges | libsponge/wrapping_integers.cc:39-41 | outside the termination condition every 64-bit candidate keeps the loop guard true |
| ByteStreams.ByteStream.Write | libsponge/byte_stream.cc:20-28 | appends exactly the part of the data that fits to the history of the stream and returns its length |
| ByteStreams.Stream.Accepted | libsponge/byte_stream.cc:20-28 | all of the data is accepted, or exactly what fills the buffer |
| ByteStreams.Stream.Pop | libsponge/byte_stream.cc:41-50 | the oldest bytes leave the buffer, or nothing changes but the error flag |
| ByteStreams.ByteStream.PeekOutput | libsponge/byte_stream.cc:31-38 | returns the oldest unread bytes without consuming them |
| ByteStreams.ByteStream.PopOutput | libsponge/byte_stream.cc:41-50 | consumes the oldest bytes, or only sets the error flag when too many are asked for |
| ByteStreams.ByteStream.Read | libsponge/byte_stream.cc:55-67 | returns exactly the bytes between the old and the new read position of the history |
| ByteStreams.ByteStream.EndInput | libsponge/byte_stream.cc:69-69 | marks the end and changes nothing else |
| Reassembly.Run | libsponge/stream_reassembler.cc:27-43 | the drained run is the longest one stored at consecutive indices from the base |
| Reassembly.PushKeepsWF | libsponge/stream_reassembler.cc:48-91 | every push that meets the flow premise keeps the window invariant and only extends the output |
| Reassembly.PushReceives | libsponge/stream_reassembler.cc:60-86 | a push adds exactly the indices of its data that lie below bytes read + capacity |
| Reassembly.PushAgrees | libsponge/stream_reassembler.cc:48-91 | pushing slices of one stream keeps assembled and pending bytes equal to that stream |
| Reassembly.PendingFits | libsponge/stream_reassembler.hh:33-37 | pending plus buffered bytes never exceed the capacity |
| Reassembly.RunKeepsWindow | libsponge/stream_reassembler.cc:27-91 | the window bound holds after every run of pushes and reads, and the right edge never moves back |
| Reassembly.RunReceives | libsponge/stream_reassembler.cc:48-91 | after a run the indices received are those the pushes covered, in whatever order |
| Reassembly.AckIndexIsFirstMissing | libsponge/stream_reassembler.cc:97-97 | ack_index is the least index no push has covered and the output is the stream below it |
| Reassembly.OrderIndependence | libsponge/stream_reassembler.cc:48-95 | runs that cover the same indices, in any order, overlap, splitting or interleaving with reads, give the same output and pending bytes |
| Reassembly.PermutationCovers | libsponge/stream_reassembler.cc:48-91 | reordered pushes cover the same indices |
| Reassembly.PushEndSound | libsponge/stream_reassembler.cc:49-90 | end-of-stream detection stays sound if and only if the mark is not early, and a later truncation never clears a valid mark |
| Reassembly.EndedExactly | libsponge/stream_reassembler.cc:88-90 | the output has ended if and only if the mark was seen and the whole stream is assembled |
| Reassembly.RunEndsExactly | libsponge/stream_reassembler.cc:48-91 | over every run without an early mark, ended means: an untruncated marked substring arrived and every byte is assembled |
| Reassembly.CompleteStays | libsponge/stream_reassembler.cc:48-91 | once the whole stream is assembled nothing is ever pending again |
| Reassembly.EarlyMarkEndsEarly | libsponge/stream_reassembler.cc:49-56 | from every state with an early mark some ordinary in-window push ends the output too soon |
| Reassembly.EarlyEmptyFinalSubstring | libsponge/stream_reassembler.cc:53-56 | a concrete empty final substring ends a two-byte stream with nothing assembled |
| StreamReassemblers.RealLengthFits | libsponge/stream_reassembler.cc:62-62 | the unsigned length stays inside the window if and only if the substring is empty or starts inside it |
| StreamReassemblers.DiscardsExactly | libsponge/stream_reassembler.cc:60-72 | bytes past the edge are discarded if and only if the flow premise holds, for substrings inside the bitmap |
| StreamReassemblers.MemoryLimitBroken | libsponge/stream_reassembler.cc:60-72 | a reachable window and a substring inside the bitmap after which one byte more than the capacity is held |
| StreamReassemblers.StreamReassembler.constructor | libsponge/stream_reassembler.cc:15-22 | a new reassembler is the empty window |
| StreamReassemblers.StreamReassembler.TakeContiguous | libsponge/stream_reassembler.cc:28-36 | the loop takes off exactly the leading run and ends because each round clears a bit |
| StreamReassemblers.StreamReassembler.CheckContiguous | libsponge/stream_reassembler.cc:27-43 | the output accepts the whole run, and the size counter again counts the set bits |
| StreamReassemblers.StreamReassembler.Mark | libsponge/stream_reassembler.cc:66-72 | the marking loop absorbs the bytes, keeping those already there, and counts the new ones |
| StreamReassemblers.StreamReassembler.StoreSubstring | libsponge/stream_reassembler.cc:60-86 | both branches put the part inside the window into the bitmap and drop the mark of a truncated substring |
| StreamReassemblers.StreamReassembler.PushSubstring | libsponge/stream_reassembler.cc:48-91 | the bitmap code does exactly the push of the window |
| StreamReassemblers.StreamReassembler.UnassembledBytes | libsponge/stream_reassembler.cc:93-95 | the counter is the number of pending bytes |
| StreamReassemblers.StreamReassembler.AckIndex | libsponge/stream_reassembler.cc:97-97 | the base counter is the length of the output's history |
| Receivers.RecoversIndex | libsponge/tcp_receiver.cc:44-46 | a segment in reach of the checkpoint lands on its true stream index |
| Receivers.EmptyPush | libsponge/tcp_receiver.cc:49-49 | a segment without bytes and FIN changes nothing in a sound state |
| Receivers.SegmentKeepsSound | libsponge/tcp_receiver.cc:15-50 | an arriving part of the peer's stream, on a SYN too, keeps received bytes and end of stream true to it if and only if its FIN is neither cut off nor early |
| Receivers.SynCopyKeepsSound | libsponge/tcp_receiver.cc:38-49 | a second SYN: its bytes change nothing, its FIN is harmless if and only if the end was known or the last byte is pending |
| Receivers.RetreatsExactly | libsponge/tcp_receiver.cc:15-59 | in every state the acknowledgement, and the right edge, move back if and only if a FIN was counted with nothing pending and the segment brings a byte from beyond a gap |
| Receivers.SegmentNeverRetreats | libsponge/tcp_receiver.cc:15-59 | so with a punctual segment neither moves back |
| Receivers.ReceiverNeverRetreats | libsponge/tcp_receiver.cc:15-59 | over every interleaving of segments and reads neither ever moves back if and only if no such segment arrives |
| Receivers.PunctualRunCounts | libsponge/tcp_receiver.cc:15-59 | none does in a run of punctual segments |
| Receivers.SegmentKeepsOrder | libsponge/tcp_helpers/tcp_state.cc:82-92 | receiver phases never go back, and the last one means the whole stream is assembled |
| TcpReceivers.TCPReceiver.SegmentReceived | libsponge/tcp_receiver.cc:15-50 | the object does exactly the receiver's step |
| Receivers.AckIsFirstMissing | libsponge/tcp_receiver.cc:52-57 | the acknowledgement is the first missing number if and only if it is not the case that a FIN was seen and nothing is pending while bytes are missing |
| TcpReceivers.TCPReceiver.Ackno | libsponge/tcp_receiver.cc:52-57 | nothing before the SYN, then the wrapped absolute number, which in a sound state is the first missing one |
| EarlyFin.CutOffFinAcknowledged | libsponge/tcp_receiver.cc:39-56 | a FIN whose bytes the window cuts off is acknowledged together with a missing byte |
| EarlyFin.AcknowledgementMovesBack | libsponge/tcp_receiver.cc:39-56 | after an early FIN the acknowledgement moves back when a byte arrives |
| TcpReceivers.TCPReceiver.WindowSize | libsponge/tcp_receiver.cc:59-59 | capacity minus buffered bytes |
| Senders.FillLoopExact | libsponge/tcp_sender.cc:48-62 | the loop sends exactly the smaller of the free space and what is buffered, FIN included |
| Senders.FillLoopExtends | libsponge/tcp_sender.cc:48-62 | its segments carry exactly the numbers sent, as slices of the stream, and wait for acknowledgement |
| Senders.FillWindowExact | libsponge/tcp_sender.cc:30-76 | a call sends a SYN, what fits an open window, or one number into a closed one, and keeps conservation and the timer |
| Senders.FillWindowFull | libsponge/tcp_sender.cc:49-62 | every segment of a fill but the last carries as many bytes as a segment can |
| SenderRuns.PopAckedDrops | libsponge/tcp_sender.cc:96-110 | any acknowledgement drops a prefix of the queue and the in-flight count stays the queue's total length |
| SenderRuns.FrontRecovered | libsponge/tcp_sender.cc:98-98 | the wire number of the oldest segment unwraps to its absolute number |
| SenderRuns.PopAckedExact | libsponge/tcp_sender.cc:96-110 | exactly the completely acknowledged segments are dropped |
| SenderRuns.AckKeepsValid | libsponge/tcp_sender.cc:80-126 | whatever an acknowledgement says, conservation and the timer rule survive |
| SenderRuns.FreeExact | libsponge/tcp_sender.cc:48-65 | the 16-bit free space is the true one while the window is open and tells a used probe from an unused one |
| SenderRuns.FillRespects | libsponge/tcp_sender.cc:48-75 | filling the window never passes its right edge, one probe apart |
| SenderRuns.AcknowledgeRespects | libsponge/tcp_sender.cc:94-115 | an accepted acknowledgement keeps the window respected if and only if it is tolerable |
| SenderRuns.OrderedIsTolerable | libsponge/tcp_sender.cc:88-115 | acknowledgements that move neither number nor right edge back are tolerable |
| SenderRuns.ShrunkWindowOverruns | libsponge/tcp_sender.cc:111-115 | an acknowledgement that takes window back makes the sender send past the new edge |
| SenderRuns.StaleAckOverruns | libsponge/tcp_sender.cc:88-126 | an old acknowledgement when nothing is outstanding makes it send a whole window from the next number on, past the edge when that much is ready |
| Overruns.ShrunkWindowRun | libsponge/tcp_sender.cc:111-115 | a run of a new sender to such an overrun by a window taken back |
| Overruns.StaleAckRun | libsponge/tcp_sender.cc:88-115 | a run of a new sender to such an overrun by an old acknowledgement |
| SenderRuns.AckRespects | libsponge/tcp_sender.cc:80-126 | an ordered acknowledgement is accepted and the window stays respected |
| SenderRuns.AckFillsWindow | libsponge/tcp_sender.cc:111-126 | after an ordered acknowledgement everything ready is sent, up to the right edge |
| SenderRuns.DoublingFits | libsponge/tcp_sender.cc:136-139 | nine doublings of a 16-bit timeout fit 32 bits |
| SenderRuns.TickBacksOff | libsponge/tcp_sender.cc:129-142 | the timeout is the initial one times two to the number of counted retransmissions |
| SenderRuns.AckBacksOff | libsponge/tcp_sender.cc:104-106 | acknowledgements keep that and never raise the count |
| SenderRuns.TickResendsOldest | libsponge/tcp_sender.cc:129-142 | in every consistent state exactly an expired timer sends again: the oldest outstanding segment, unchanged; while the window is respected the latest acknowledgement lies in it |
| SenderClocks.ResendsExactly | libsponge/tcp_sender.cc:129-142 | in every state a tick sends again if and only if something is outstanding and the time since the last start, drop or expiry has reached the timeout |
| SenderClocks.TimerExact | libsponge/tcp_sender.cc:96-142 | over every run: the count is that of the counted retransmissions since the last drop, the timeout is doubled for each, the elapsed time is what was ticked since the timer was last set going |
| SenderClocks.ClosedAgrees | libsponge/tcp_sender.cc:22-26 | a new sender starts with both at zero |
| SenderRuns.SummaryIsReal | libsponge/tcp_helpers/tcp_state.cc:94-110 | the arithmetic phase is the phase by what was sent and acknowledged; check_outbound_ended means the FIN is acknowledged |
| SenderRuns.StepKeepsOrder | libsponge/tcp_helpers/tcp_state.cc:94-110 | no sender event moves the phase back |
| SenderRuns.RunConserves | libsponge/tcp_sender.cc:30-178 | over every run: queue contiguous up to next_seqno, in-flight its total, payloads slices of the stream, phases in order |
| SenderRuns.RunRespectsWindow | libsponge/tcp_sender.cc:48-115 | over every run with tolerable acknowledgements the window is respected and the free space exact |
| SenderRuns.ClosedIsValid | libsponge/tcp_sender.cc:22-26 | a new sender satisfies all these invariants |
| TcpSenders.TCPSender.constructor | libsponge/tcp_sender.cc:22-26 | a new object is the closed sender |
| TcpSenders.TCPSender.SendSegment | libsponge/tcp_sender.cc:162-178 | the object does exactly the sender's send step |
| TcpSenders.TCPSender.FillLoop | libsponge/tcp_sender.cc:49-62 | the loop computes the sender's fill, and ends |
| TcpSenders.TCPSender.FillWindow | libsponge/tcp_sender.cc:30-76 | the object does exactly the sender's fill |
| TcpSenders.TCPSender.PopAcked | libsponge/tcp_sender.cc:96-110 | the loop drops exactly what the sender's step drops |
| TcpSenders.TCPSender.AckReceived | libsponge/tcp_sender.cc:80-126 | the object does exactly the sender's acknowledgement step |
| TcpSenders.TCPSender.Tick | libsponge/tcp_sender.cc:129-142 | the object does exactly the sender's tick |
| TcpSenders.TCPSender.SendEmptySegment | libsponge/tcp_sender.cc:146-150 | queues an empty segment at the next number, without taking it |
| EndToEnd.ArrivalFlows | libsponge/tcp_receiver.cc:44-49 | every segment that can arrive meets the flow premise, at its true index |
| EndToEnd.FillInv | libsponge/tcp_sender.cc:30-76 | new segments start inside the receiver's window |
| EndToEnd.TickInv | libsponge/tcp_sender.cc:129-142 | retransmissions put only segments on the network that were there before, and keep the system invariant |
| EndToEnd.TakeReplyInv | libsponge/tcp_sender.cc:80-126 | taking an acknowledgement off the ordered channel keeps the system invariant |
| EndToEnd.TakeReplyChained | libsponge/tcp_sender.cc:80-126 | it is accepted and leaves the window respected and the chain in order, before and after the FIN |
| EndToEnd.DeliverInv | libsponge/tcp_receiver.cc:15-50 | so does any arrival, repeated, late or out of order |
| EndToEnd.AcknowledgeReplies | libsponge/tcp_connection.cc:79-89 | a new acknowledgement continues the chain of those under way, before and after the FIN |
| EndToEnd.AckBelowNext | libsponge/tcp_receiver.cc:52-57 | nothing is acknowledged that was not sent |
| EndToEnd.StepChained | libsponge/tcp_sender.cc:30-178 | every punctual action, FIN included, keeps the window respected and the acknowledgements in order |
| EndToEnd.StepBounded | libsponge/tcp_sender.cc:30-178 | no action of either end or of the network puts a number past the right edge, a probe apart |
| EndToEnd.NothingPastEdge | libsponge/tcp_sender.cc:48-75 | in every run every packet ever sent ends at the right edge of the receiver's window at the latest, except that a single number may start there |
| EndToEnd.WindowRespected | libsponge/tcp_sender.cc:48-115 | in every run without an early FIN the free space is exact, the window the sender knows is never ahead of the receiver's, and the acknowledgements under way form a chain |
| EndToEnd.StepInv | libsponge/tcp_sender.cc:30-178 | every action of either end or of the network keeps the system invariant |
| EndToEnd.EndToEndSafety | libsponge/tcp_receiver.cc:15-50 | in every run the assembled bytes are a prefix of the written bytes and every arrival meets the flow premise |
| EndToEnd.ShortStreamAlwaysDelivers | libsponge/wrapping_integers.cc:29-44 | under 2^31 bytes any segment may arrive at any time |
| EndToEnd.DeliverSound | libsponge/tcp_receiver.cc:15-59 | an arrival keeps the receiver's knowledge of the end true if and only if it is punctual, and then nothing moves back |
| EndToEnd.StepSound | libsponge/stream_reassembler.cc:48-91 | without early FINs the receiver's knowledge of the end stays true |
| EndToEnd.SoundExactlyPunctual | libsponge/stream_reassembler.cc:48-91 | one action keeps it true if and only if it is punctual |
| EndToEnd.CompleteDelivery | libsponge/stream_reassembler.cc:88-90 | when the receiver's stream has ended, the sender's has, and everything written is assembled |
| EarlyFin.ByteLost | libsponge/tcp_sender.cc:48-62 | a run of the joined system in which a FIN overtakes a byte: the receiver's stream has ended empty and the written byte is acknowledged |
| Connections.RetransmitEffect | libsponge/tcp_connection.cc:141-153 | a retransmission beyond the eighth in a row aborts with both errors and a reset, any other is just sent |
| Connections.TickAborts | libsponge/tcp_connection.cc:136-153 | a tick aborts an active connection if and only if it is the ninth counted expiry in a row |
| Connections.SegmentCore | libsponge/tcp_connection.cc:35-75 | any reset, and any segment that meets the flow premise, keeps the sender consistent and the timeout exact |
| Connections.StepCore | libsponge/tcp_connection.cc:35-183 | so does any other event |
| Connections.TimerExact | libsponge/tcp_connection.cc:136-153 | over every run within the flow premise: active means rto = initial · 2^consecutive and consecutive ≤ 8 |
| Connections.StaysActive | libsponge/tcp_connection.cc:35-183 | a connection stops being active if and only if it is reset, destroyed, out of retransmissions, or done with no reason to linger |
| Connections.StampIsReply | libsponge/tcp_connection.cc:79-89 | every segment carries the acknowledgement and window that the joined system calls a reply |
| ConnectionRuns.EventEffect | libsponge/tcp_connection.cc:23-183 | every event takes the sender through exactly these events of its own, and everything it gives is sent once, in order, completed, and as a reset when the connection ends by it |
| ConnectionRuns.EventReplies | libsponge/tcp_connection.cc:79-89 | whatever is sent carries the acknowledgement and window the receiver then has |
| ConnectionRuns.SegmentAnswered | libsponge/tcp_connection.cc:35-75 | a segment that takes sequence numbers is answered by at least one segment, one that takes none and acknowledges nothing by none; acknowledgements reach the sender first |
| ConnectionRuns.RunTraced | libsponge/tcp_connection.cc:23-183 | over every run of a connection its sender has gone through a run of its own |
| ConnectionRuns.TimerNoted | libsponge/tcp_connection.cc:136-153 | so its timer says what an onlooker has noted |
| ConnectionTimes.TickOnTime | libsponge/tcp_connection.cc:136-153 | with nothing acknowledged a tick sends the oldest segment again exactly when the timeout is reached, and the ninth time as a reset |
| ConnectionTimes.SentByTimetable | libsponge/tcp_connection.cc:136-153 | over every such run the events alone give count, time and whether the connection is still active: until the ninth expiry |
| ConnectionTimes.ConnectTicks | libsponge/tcp_connection.cc:91-95 | a new connection that connects is on that timetable from the start, with its SYN |
| ConnectionTimes.SilenceExact | libsponge/tcp_connection.cc:36-137 | over every run the silence counter is the time ticked since the last segment |
| ConnectionTimes.LingersExactly | libsponge/tcp_connection.cc:160-167 | after every run a tick ends an active connection cleanly if and only if both streams are done and the inbound one ended first or the silence has lasted ten timeouts |
| Connections.SegmentStage | libsponge/tcp_connection.cc:35-75 | any such segment keeps the rules of closing: linger records which stream ended first |
| Connections.TickStage | libsponge/tcp_connection.cc:136-168 | so does every tick, which ends the connection only with both streams done or both errors set |
| Connections.StepClosing | libsponge/tcp_connection.cc:35-183 | so does every event |
| Connections.StepInv | libsponge/tcp_connection.cc:35-183 | with punctual segments every event also keeps the receiver true to the peer's stream |
| Connections.RunInv | libsponge/tcp_connection.cc:35-183 | and every run of such events |
| Connections.CleanClose | libsponge/tcp_connection.cc:123-168 | over every run within the flow premise: inactive without error means inbound stream ended and own FIN acknowledged; linger is false exactly when the inbound stream ended first |
| Connections.CompleteClose | libsponge/tcp_connection.cc:123-168 | with punctual segments an ended inbound stream is the peer's whole stream, and an inactive connection without error has received it |
| Connections.InactiveForever | libsponge/tcp_connection.cc:35-168 | over every run within the flow premise an inactive connection never becomes active again |
| Connections.NewConnectionInv | libsponge/tcp_connection.hh:108-108 | a new connection satisfies the invariant for any peer stream |
| TcpConnections.TCPConnection.SetAckAndWindowSize | libsponge/tcp_connection.cc:79-89 | fills in the acknowledgement, once there is one, and the 16-bit window |
| TcpConnections.TCPConnection.RealSend | libsponge/tcp_connection.cc:23-33 | sends every queued segment once, in order, completed |
| TcpConnections.TCPConnection.SegmentReceived | libsponge/tcp_connection.cc:35-75 | the object does exactly the connection's step |
| TcpConnections.TCPConnection.Answer | libsponge/tcp_connection.cc:60-72 | a segment that takes sequence numbers is answered |
| TcpConnections.TCPConnection.Write | libsponge/tcp_connection.cc:97-103 | writes what fits, sends what it can, returns the accepted length |
| TcpConnections.TCPConnection.EndInputStream | libsponge/tcp_connection.cc:105-112 | ends the stream and sends a FIN when the window allows |
| TcpConnections.TCPConnection.CheckInboundEnded | libsponge/tcp_connection.cc:124-126 | nothing pending and the output ended |
| TcpConnections.TCPConnection.CheckOutboundEnded | libsponge/tcp_connection.cc:130-133 | the sender's arithmetic test for an acknowledged FIN |
| TcpConnections.TCPConnection.Tick | libsponge/tcp_connection.cc:136-168 | the object does exactly the connection's tick |
| TcpConnections.TCPConnection.Close | libsponge/tcp_connection.cc:170-183 | an active connection is aborted with a RST |
| Checksums.WordSumAppend | libsponge/util/util.cc:89-98 | parity carries over from one added string to the next |
| Checksums.WordSumBound | libsponge/util/util.cc:89-98 | 65535 bytes sum to less than 2^31 |
| Checksums.FoldKeepsSum | libsponge/util/util.cc:100-106 | folding keeps the sum modulo 65535 and never makes a non-zero sum zero |
| Checksums.ComplementZero | libsponge/util/util.cc:100-108 | the checksum is zero if and only if the sum is a non-zero multiple of 65535 |
| Checksums.ComplementVerifies | libsponge/util/util.cc:77-84 | adding the checksum of a sum makes it verify |
| Checksums.OneByteDetected | libsponge/util/util.cc:89-108 | changing one byte of any verifying packet makes it fail |
| Checksums.InternetChecksum.Add | libsponge/util/util.cc:89-98 | the loop adds the word sum, modulo 2^32, and flips the parity |
| Checksums.InternetChecksum.Value | libsponge/util/util.cc:100-108 | the loop returns the complement of the folded sum |
| Parsing.BigEndianRoundTrip | libsponge/util/parser.cc:26-60 | parsing undoes printing for every value that fits |
| Parsing.IntRoundTrip | libsponge/util/parser.cc:26-60 | a printed integer is parsed back and exactly the rest is left |
| Parsing.NetParser.ParseInt | libsponge/util/parser.cc:26-43 | the loop returns the big-endian value, or zero and an error on a short buffer |
| Parsing.NetParser.RemovePrefix | libsponge/util/parser.cc:45-51 | drops the prefix or records the error |
| Parsing.UnparseInt | libsponge/util/parser.cc:53-60 | the loop appends the big-endian bytes |
| TcpWire.HeaderRoundTrip | libsponge/tcp_helpers/tcp_header.cc:17-78 | a printed header is parsed back field by field, padding skipped, payload left |
| TcpWire.HeaderLayout | libsponge/tcp_helpers/tcp_header.cc:51-78 | every field lies where section 3.1 of RFC 793 puts it, in network order |
| TcpWire.FlagBits | libsponge/tcp_helpers/tcp_header.cc:66-68 | FIN, SYN, RST, PSH, ACK and URG from the lowest bit up |
| TcpWire.ChecksumVerifies | libsponge/tcp_helpers/tcp_segment.cc:30-45 | the filled-in checksum makes the segment verify, without overflow of the running sum |
| TcpWire.SegmentRoundTrip | libsponge/tcp_helpers/tcp_segment.cc:12-45 | parse after serialize reports no error and recovers everything but the checksum |
| TcpWire.SingleByteErrorDetected | libsponge/tcp_helpers/tcp_segment.cc:12-17 | changing any byte of a serialized segment gives BadChecksum |
| TcpWire.ReadHeader | libsponge/tcp_helpers/tcp_header.cc:17-48 | the step-by-step parser computes the header, what is left and the verdict |
| TcpWire.PrintHeader | libsponge/tcp_helpers/tcp_header.cc:51-78 | the printer writes the header bytes, or fails on a short header |
| TcpWire.ReadSegment | libsponge/tcp_helpers/tcp_segment.cc:12-23 | checks the checksum first, then parses and reports only parser errors |
| TcpWire.PrintSegment | libsponge/tcp_helpers/tcp_segment.cc:30-45 | writes the segment with its checksum over header and payload |
| Ipv4Wire.FieldsRoundTrip | libsponge/tcp_helpers/ipv4_header.cc:31-47 | the printed fields are read back |
| Ipv4Wire.IpHeaderLayout | libsponge/tcp_helpers/ipv4_header.cc:78-110 | every field lies where section 3.1 of RFC 791 puts it, in network order |
| Ipv4Wire.PseudoChecksumIs | libsponge/tcp_helpers/ipv4_header.cc:125-131 | the pseudo-checksum is the word sum of the twelve bytes of the pseudo-header |
| Ipv4Wire.IpChecksumVerifies | libsponge/tcp_helpers/ipv4_datagram.cc:28-35 | the filled-in header checksum verifies |
| Ipv4Wire.DatagramRoundTrip | libsponge/tcp_helpers/ipv4_datagram.cc:11-41 | a printed datagram is parsed back, every header check passes |
| Ipv4Wire.PrintedExactly | libsponge/tcp_helpers/ipv4_datagram.cc:23-41 | a datagram is printed if and only if its header can be and its length field is right modulo 2^16 |
| Ipv4Wire.BadChecksumAccepted | libsponge/tcp_helpers/ipv4_datagram.cc:11-21 | a header with any checksum and the right lengths is accepted, although the verdict on it is BadChecksum exactly when it does not verify |
| Ipv4Wire.HeaderErrorNoticed | libsponge/tcp_helpers/ipv4_header.cc:23-75 | the verdict on a printed header with a changed byte, the first apart, is an error |
| Ipv4Wire.ReadIpHeader | libsponge/tcp_helpers/ipv4_header.cc:23-75 | the parser's checks in order, with the fields it leaves behind |
| Ipv4Wire.PrintIpHeader | libsponge/tcp_helpers/ipv4_header.cc:78-110 | the printer writes the header, or fails on a wrong version or a short header |
| Ipv4Wire.ReadDatagram | libsponge/tcp_helpers/ipv4_datagram.cc:11-21 | only the payload length and parser errors decide |
| Ipv4Wire.PrintDatagram | libsponge/tcp_helpers/ipv4_datagram.cc:23-41 | writes the datagram with its header checksum, or fails on a wrong payload size |
| TcpOverIp.HopDecides | libsponge/router.cc:37-63 | a datagram that arrives printed is forwarded as decided, up to its checksum |
| TcpOverIp.HopsKeepCargo | libsponge/router.cc:37-63 | a datagram gets through a chain of routers if and only if each has a route and they are fewer than its time to live, unchanged but for that and the checksum |
| TcpOverIp.UnwrapCargo | libsponge/tcp_helpers/tcp_over_ip.cc:26-71 | the mirrored peer, or a listening one reached by a SYN, gets the segment and ends up mirrored |
| TcpOverIp.WrappedVerifies | libsponge/tcp_helpers/tcp_over_ip.cc:75-90 | pseudo-header with addresses, protocol 6 and length, followed by the wrapped segment, verifies |
| TcpOverIp.UnwrapExactly | libsponge/tcp_helpers/tcp_over_ip.cc:26-71 | a wrapped segment is taken if and only if the peer is the other end, or listens on the port and it is a SYN without RST; otherwise nothing changes |
| TcpOverIp.OtherProtocolIgnored | libsponge/tcp_helpers/tcp_over_ip.cc:26-71 | a datagram of another protocol is not taken |
| TcpOverIp.UnwrapRejectsError | libsponge/tcp_helpers/tcp_over_ip.cc:26-71 | a wrapped segment with one changed byte is not taken |
| TcpOverIp.NestedRoundTrip | libsponge/tcp_helpers/tcp_over_ip.cc:26-90 | a segment wrapped, printed, routed by any tables with a route, parsed and unwrapped is the same segment with ports set |
| TcpOverIp.TCPOverIPv4Adapter.UnwrapTcpInIp | libsponge/tcp_helpers/tcp_over_ip.cc:26-71 | the object filters and learns exactly as the adapter's step |
| TcpOverIp.TCPOverIPv4Adapter.WrapTcpInIp | libsponge/tcp_helpers/tcp_over_ip.cc:75-90 | sets ports, addresses and length and prints the segment into a datagram |
| NetworkInterfaces.RunKeepsCacheExact | libsponge/network_interface.cc:113-199 | over every run the cache is exactly what was heard in the last 30 seconds, with the latest address; exactly the held datagrams wait, with their age; no hop is in both |
| NetworkInterfaces.HeldIsFirst | libsponge/network_interface.cc:64-77 | what is held for a hop is the first datagram sent to it while unresolved since it last answered, and nothing if and only if there is none |
| NetworkInterfaces.KeptUnlessWaiting | libsponge/network_interface.cc:64-154 | in every state a datagram is put into a frame or queued if and only if its hop is cached or nothing waits for it |
| NetworkInterfaces.LostExactlyWhenHeld | libsponge/network_interface.cc:64-154 | after every run the next datagram is lost if and only if another one is held for its hop |
| NetworkInterfaces.EveryDatagramAccounted | libsponge/network_interface.cc:64-199 | over every run each datagram that was sent is in exactly one IPv4 frame, still held, or lost |
| NetworkInterfaces.SecondDatagramLost | libsponge/network_interface.cc:64-77 | of two datagrams sent to an unresolved hop that then answers, the second is never put into a frame |
| NetworkInterfaces.FramesReachLatest | libsponge/network_interface.cc:129-176 | every IPv4 frame goes to the address of the latest accepted ARP message from its datagram's hop |
| NetworkInterfaces.FramesSigned | libsponge/network_interface.cc:51-107 | every frame bears the address of its sender |
| NetworkInterfaces.FrameDelivers | libsponge/network_interface.cc:157-176 | an emitted IPv4 frame yields its datagram at the interface it is addressed to; a frame for another address yields and changes nothing |
| NetworkInterfaces.ResolutionDelivers | libsponge/network_interface.cc:51-176 | request, learning, reply, learning and delivery between two interfaces, with what waited in either direction |
| NetworkInterfaces.AsksExactly | libsponge/network_interface.cc:64-92 | in every state a request is sent if and only if a datagram is for an unresolved hop nothing waits for, or something has waited for five seconds |
| NetworkInterfaces.AsksTooSoon | libsponge/network_interface.cc:64-77 | over every run a request comes within five seconds of the last if and only if a datagram has been held for five seconds and another request was sent since |
| NetworkInterfaces.AskedTwiceAtOnce | libsponge/network_interface.cc:64-77 | a run with two requests at the same time |
| NetworkInterfaces.NetworkInterface.QueueHelper | libsponge/network_interface.cc:64-77 | a datagram for a hop being resolved is lost, and the request repeated after five seconds |
| NetworkInterfaces.NetworkInterface.SendDatagram | libsponge/network_interface.cc:145-154 | sends to the cached address or queues |
| NetworkInterfaces.NetworkInterface.ClearWaitingList | libsponge/network_interface.cc:129-140 | the loop sends every waiting datagram, in order, and forgets the list |
| NetworkInterfaces.NetworkInterface.RecvFrame | libsponge/network_interface.cc:157-176 | filters, returns datagrams, learns from ARP and replies |
| NetworkInterfaces.NetworkInterface.Tick | libsponge/network_interface.cc:179-199 | ages both maps and erases exactly the entries of 30 seconds and more |
| Routers.MaskIsTopOnes | libsponge/router.cc:33-33 | the shifted smallest int, as an unsigned word, has ones exactly in its top bits |
| Routers.MaskTest | libsponge/router.cc:45-46 | the mask test holds if and only if the prefix has no host bits and agrees with the destination on the top bits |
| Routers.HostBitsNeverMatch | libsponge/router.cc:45-46 | a prefix whose last bit is set, such as 10.0.0.1/8, matches no destination |
| Routers.BestIsLongest | libsponge/router.cc:42-52 | the loop picks a match of greatest length, or none if and only if nothing matches |
| Routers.DecideMeans | libsponge/router.cc:37-63 | a datagram is forwarded if and only if along the first of the longest matching routes: its interface, its next hop or the destination, TTL − 1; dropped if and only if its time is up or nothing matches |
| Routers.OrderDoesNotMatter | libsponge/router.cc:44-50 | with no prefix listed twice the choice does not depend on table order |
| Routers.SharesIndependent | libsponge/router.cc:58-62 | each interface sends exactly its own share of the forwarded datagrams, in order |
| Routers.ForwardsExactlyOnce | libsponge/router.cc:37-74 | every datagram with a route and time left is forwarded exactly as often as it came in, with TTL − 1, and nothing else is |
| Routers.RoutingEmits | libsponge/router.cc:37-74 | every interface emits for every datagram as many frames as its routes to cached hops give it, each to the cached address of its hop |
| Routers.Router.AddRoute | libsponge/router.cc:26-34 | the new entry matches exactly the destinations under its prefix, and none when the prefix has host bits |
| Routers.Router.FindRoute | libsponge/router.cc:42-50 | the loop returns the first of the longest matches |
| Routers.Router.RouteOneDatagram | libsponge/router.cc:37-63 | one datagram is dropped or sent on one interface, as decided |
| Routers.Router.Route | libsponge/router.cc:65-74 | every inbox ends empty, every datagram in it is forwarded as decided, and every interface emits exactly those frames |

## Left out

- Sockets, file descriptors, the event loop, TUN/TAP devices and `TCPSpongeSocket`: system calls and threads.
- `Buffer`, `BufferList` and views: byte sequences here; sharing of storage is not modelled.
- Ethernet and ARP message serialization: frames carry their parsed content.
- The official TCP state names: combinations outside that table are reachable, so only the order of the phases of each side is stated.
- Random initial sequence numbers and wall-clock time are parameters; debug output and `to_string` functions are absent.
- Liveness: nothing says that data eventually arrives.
- Bitwise operations are written as arithmetic on numbers; `Routers.And` is a bitwise and.
- The interfaces of a router are values of a sequence, as they are elements of a vector in the source; `NetworkInterfaces.NetworkInterface` is the object that refines such a value.
- The exact free space and the chain of acknowledgements after an early FIN: the acknowledgement may then move back (`EarlyFin.AcknowledgementMovesBack`). What is sent stays bounded in those runs too (`EndToEnd.NothingPastEdge`).
- Segments whose bytes start between the edge and the end of the bitmap: the unsigned length wraps, and bytes are stored past the edge or past the bitmap, which is undefined. Every theorem about connections asks the flow premise of segments that are not resets; `EndToEnd.EndToEndSafety` shows that this stack's own sender meets it.
