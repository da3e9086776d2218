# Verified model of the KCP engine and of the network library beside it

The project models, in Dafny, the reliable transport in `kcp/ikcp.c` and the stateful parts of the
`muduo` library it runs on, and proves what they are for. `dafny verify dfyconfig.toml` checks all of it.

**The transport.** `Serial`, `Wire`, `Receiver`, `Sender`, `RoundTrip`, `Congestion` and `Control` say what
the engine computes: 32-bit serial numbers, the 24-byte header, reordering and reassembly, fragmentation,
acknowledgement, transmission, timeouts, the congestion window with its byte credit, and the flush
scheduler. `Kcp` is the engine as it is written: a class whose fields are updated in place, whose lists are
walked by loops, with an acknowledgement list that doubles and an output buffer written byte by byte; each
method is tied to the function that specifies it. The other modules prove what follows:

- `ControlInvariant`, `CongestionRuns`, `Transmission`, `Probing`: what every call keeps, whatever bytes are input.
- `Overrun`, `CreditLost`: runs in which a timeout or the congestion credit goes wrong.
- `InputEffect`, `FlushContent`, `FlushEffect`: what an input and a flush do, said without the functions that
  specify them: which segments leave the flight, what the datagrams say, which timeouts and windows result.
- `Reordering`, `Fragmentation`, `FlushWire`, `Schedule`: confluence, inverse pairs, round trip, timing.
- `Flow`, `FlowSender`, `FlowReceiver`, `Session`: two endpoints over a network that may lose, duplicate,
  delay and reorder datagrams. What each side delivers is a prefix of what the other side accepted.

Sequence numbers in `Flow` and `Session` are counted without bound; a packet carries the unbounded numbers
(`Tag`) behind its 32-bit ones. They are history only: no step looks at them. The half-range assumption is
stated once, in `Session.Live`: when the turn of a segment comes, none of its numbers is more than half
the circle behind the number it is compared with (the sender's next number; for a data segment, the end of
the receive window). A data segment the receiver does not hold always meets it
(`FlowReceiver.MissingIsLive`).

**The library.** Each part is a specification module with its invariants over all runs, and a class in the
form of the source: `Timers`/`TimerRuns`/`TimerQueue` (two indexes over owned timers, callbacks that add and cancel),
`AsyncLog`/`AsyncLogging` (interleaved critical sections), `Calendar`/`TimeZone`, `Buffer` and
`TcpStream`/`TcpConnection` (the output path), `Http`/`HttpContext` and `Framing`/`ProtobufCodec`
(incremental decoders). `Lists` holds facts about sequences of any type.

## What the proofs found

- A fast-resend count is added to the congestion window without a bound. The byte credit survives every
  flush exactly under the settings `CongestionRuns.ResentSafe`, which compare one product
  (`CongestionRuns.CreditKeptExactly`): counts up to 32767 always, with segments of 1376 bytes and a send
  window of 32 exactly those up to 3121326. With these and any other count a run from a created control
  block loses the credit (`CreditLost.CreditLostInRun`).
- Timeouts grow without a bound. A flush leaves the whole flight due strictly later exactly when, before it,
  every timed-out segment's grown timeout and every early-resent segment's timeout is positive and at most
  half the clock (`Transmission.FlushPendingExactly`). The first 35791 transmissions of a segment meet that
  (`Transmission.YoungFlightPending`); the bound is tight (`Overrun.TimeoutOverruns`), an early resend can
  fail as well (`Overrun.FastOverruns`), and a peer that never answers leads there (`Overrun.OverrunReached`).
- Timeouts shrink when they pass 32 bits. A flush shrinks none exactly when, before it, every timed-out
  segment's grown timeout fits 32 bits, and every segment whose counter stands at zero, which it does again
  after 2^32 transmissions, has no longer timeout than the present one (`Transmission.FlushLengthensExactly`,
  `Overrun.TimeoutShrinks`); the run of the silent peer leads there, too (`Overrun.ShrinkReached`).
- The transmission counter wraps: after a flush every segment counts as sent exactly when none that was
  transmitted had been 4294967295 times before (`Transmission.FlushCountsExactly`, `Overrun.CounterWraps`).
- The clamp of the window after congestion avoidance (`kcp/ikcp.c:872`) never applies
  (`Congestion.AdvanceKeepsCredit`).
- In stream mode a refused send leaves in the queue the bytes that fitted the tail segment
  (`Fragmentation.SendStream`): it leaves the sender as it was exactly when that took nothing
  (`Fragmentation.RefusedUnchangedExactly`, `Fragmentation.RefusedSendChanges`).
- When the logger has stopped and no batch was cut, the file holds every fitting line exactly when none that
  is not empty came after the last swap (`AsyncLog.StoppedFile`, `AsyncLog.StopMayLose`). A line as long as a buffer is dropped
  (`AsyncLog.AcceptedLines`).
- When a step shuts the sending side down, everything was written exactly when no reset lost bytes before and
  the step writes all that waited; only a connection closed before may be left with something waiting
  (`TcpStream.ShutdownExactly`, `TcpStream.ShutdownAfterClose`).
- In a zone whose summer time is `S` seconds ahead, a time is converted to local time and back exactly when
  `S` is 3600 or the time is not in the last `S` seconds of a summer time (`TimeZone.InverseExactly`); with
  half an hour, half an hour is lost there (`TimeZone.HalfHourLost`).
- Dates come out with their month and day in range exactly from 1 March -4800 on (`Calendar.DateOfValidExactly`,
  `TimeZone.UtcValidExactly`). The 32-bit date arithmetic fits exactly up to day number 536838867 and up to 15 December 5874689
  (`Calendar.DateOfInRange`, `Calendar.JulianDayInRange`, `TimeZone.UtcInRange`).
- In the request parser any line without a colon ends the headers, not the empty line alone. They end at the
  empty line, with exactly what follows it unread, if and only if every line before it has a colon
  (`Http.HeadersEndExactly`); otherwise the fields after the first line without one are lost
  (`Http.BlockParsed`, `Http.FieldLost`).

## Model

| member | source | states |
|---|---|---|
| Serial.DiffExact | kcp/ikcp.c:135-138 | Numbers less than half the circle apart compare like the unbounded numbers they stand for. |
| Serial.WindowTest | kcp/ikcp.c:682-686 | The two comparisons of the receive window accept exactly the numbers less than the window ahead of the next one, across wrap-around. |
| Wire.HeaderRoundTrip | kcp/ikcp.c:53-120 | Decoding an encoded header gives back every field, whatever follows it. |
| Wire.HeaderCanonical | kcp/ikcp.c:886-897 | Encoding what was decoded gives back the same 24 bytes. |
| Wire.HeaderLayout | kcp/ikcp.c:53-120 | Where each field stands in the 24 bytes of a header, lowest byte first. |
| Wire.ParseEncoded | kcp/ikcp.c:752-775 | The header loop reads from an encoded sequence of acceptable segments exactly those segments, in order, and stops cleanly. |
| Wire.ParseSound | kcp/ikcp.c:752-779 | For every byte string the segments that take effect are acceptable and encode to a prefix of it; the stop is clean exactly when less than a header is left. |
| Wire.RefusalCodes | kcp/ikcp.c:752-779 | The header loop stops with -1 at another conversation, -2 at a payload longer than what is left or than a signed length allows, -3 at an unknown command, in this order. |
| Receiver.InsertSpec | kcp/ikcp.c:688-707 | The search from the tail keeps the reordering buffer in order, adds a new number once and ignores a repeated one. |
| Receiver.MoveReadyInv | kcp/ikcp.c:714-725 | The hand-over loop keeps the queue contiguous up to the next number, the buffer ordered, the counters exact, and leaves nothing that could be handed over. |
| Receiver.ParseDataInv | kcp/ikcp.c:676-725 | Any segment, from any peer, keeps the receive side consistent. |
| Receiver.OnPushInv | kcp/ikcp.c:816-841 | So does any data segment of a datagram. |
| Receiver.RecvInv | kcp/ikcp.c:356-433 | So does every receive call. |
| Receiver.RecvMatchesPeek | kcp/ikcp.c:370-409 | A message is delivered exactly when the announced size fits the buffer, and its length is that size. |
| Receiver.RecvCodes | kcp/ikcp.c:366-461 | A receive returns -1 exactly when nothing is queued, -2 when the message at the head is not complete, -3 when it does not fit the buffer, and then changes nothing. |
| Receiver.RecvTells | kcp/ikcp.c:375-432 | A receive asks for an announcement of the window exactly when the queue filled it before and does not afterwards. |
| Receiver.PeekChangesNothing | kcp/ikcp.c:359-398 | A receive call with a negative length changes nothing. |
| Reordering.Confluence | kcp/ikcp.c:676-725 | Any two arrival orders of the same segments, with any repetitions, end in the same receive state. |
| Reordering.FeedAdvance | kcp/ikcp.c:714-725 | The next number has then advanced by the smaller of the contiguous run and the free queue slots. |
| Sender.ShrinkInv | kcp/ikcp.c:558-567 | After shrinking, the lowest unacknowledged number is the head of the flight, or the next number. |
| Sender.ParseUnaInv | kcp/ikcp.c:591-605 | Whatever a peer claims, a cumulative acknowledgement keeps the flight ordered and its counter exact. |
| Sender.ParseAckInv | kcp/ikcp.c:569-589 | So does a selective one, whatever number it names. |
| Sender.ParseUnaExactly | kcp/ikcp.c:591-605 | A cumulative acknowledgement removes exactly the segments below it, in place, when it is ahead of the flight, and otherwise nothing. |
| Sender.ParseUnaOrdered | kcp/ikcp.c:591-605 | While `una` is not yet the head of the flight, the same counted from the head. |
| Sender.ParseAckExactly | kcp/ikcp.c:569-589 | A selective one removes exactly the segment with its number when that is in flight, and otherwise changes nothing. |
| Sender.WithoutSnSpec | kcp/ikcp.c:576-588 | The scan removes the named segment at its place, or nothing. |
| Sender.ParseFastackInv | kcp/ikcp.c:607-624 | Counting skipped segments keeps the flight. |
| Sender.ParseFastackExactly | kcp/ikcp.c:607-624 | It counts exactly the segments below the acknowledged number, when that is in flight, once more. |
| Sender.AdmitSpec | kcp/ikcp.c:1001-1022 | Admission moves exactly as many segments as the window has room for and the queue holds, and keeps the flight ordered. |
| Sender.SendInv | kcp/ikcp.c:467-535 | A send keeps the sender's invariant. |
| Fragmentation.MessageFragments | kcp/ikcp.c:505-532 | The fragments of a message are at most `mss` bytes each, count down to zero and join to the message. |
| Fragmentation.SendMessage | kcp/ikcp.c:467-535 | In message mode a send is refused exactly when it needs 128 fragments or more, and otherwise queues the message's fragments and nothing else. |
| Fragmentation.SendStream | kcp/ikcp.c:473-500 | In stream mode the queue grows by the bytes of the message; a refused send leaves those that went into the tail segment. |
| Fragmentation.StreamPacked | kcp/ikcp.c:473-532 | In stream mode a send fills the tail segment before it begins another: all queued segments but the last stay full. |
| Fragmentation.RefusedUnchangedExactly | kcp/ikcp.c:473-516 | A refused send leaves the sender as it was if and only if the tail segment took nothing. |
| Fragmentation.RefusedSendChanges | kcp/ikcp.c:473-516 | A send that is refused and changes the tail segment. |
| Fragmentation.Reassembly | kcp/ikcp.c:378-409 | Received segments that carry a message's fragments merge into exactly that message, of the announced size. |
| RoundTrip.UpdateExact | kcp/ikcp.c:541-556 | With samples below 2^28 the machine arithmetic is the estimator of section 2 of RFC 6298 over unbounded integers, and the bounds are inductive. |
| RoundTrip.SamplesWithin | kcp/ikcp.c:541-556 | For every sequence of samples of at most M, `srtt <= max(M, 1)` and `rttval <= M`. |
| RoundTrip.TimeoutBounded | kcp/ikcp.c:126-133 | Whatever the sample, the timeout lies between its minimum and 60 seconds. |
| Congestion.AdvanceKeepsCredit | kcp/ikcp.c:859-877 | One input raises the window by at most one, never past the remote window, keeps `cwnd * mss <= incr < (cwnd + 1) * mss`, wraps nowhere, and grows the credit by exactly a segment or the share of congestion avoidance. |
| Congestion.FastKeepsCredit | kcp/ikcp.c:1091-1098 | A fast retransmission keeps the credit exactly when its new window in bytes fits 32 bits. |
| Congestion.ResentOverflows | kcp/ikcp.c:1096-1097 | A concrete fast-resend count for which it does not. |
| Congestion.ResentFits | kcp/ikcp.c:1025-1097 | Every count up to 32767, and the value for off, fits. |
| Congestion.FlushKeepsCredit | kcp/ikcp.c:1091-1112 | The end of a flush keeps the credit and leaves a window of at least one. |
| CongestionRuns.InputCredited | kcp/ikcp.c:742-880 | For every byte string input, with an mtu below 64 KiB and any fast-resend count, the credit holds and the window rises by at most one, not past the remote window it leaves. |
| CongestionRuns.InputGrows | kcp/ikcp.c:859-877 | An encoded datagram adds the credit of slow start or of congestion avoidance exactly when it moves the flight's head and the window does not fill the remote one. |
| CongestionRuns.ApplyCredited | kcp/ikcp.c:742-1112 | Under settings whose largest fast-resend window fits 32 bits in bytes, every call keeps the credit. |
| CongestionRuns.RunCredited | kcp/ikcp.c:742-1112 | Under such settings the credit holds in every state of every run from a created control block. |
| CongestionRuns.CreditKeptExactly | kcp/ikcp.c:1091-1112 | The credit survives every flush if and only if the settings are such. |
| CreditLost.CreditLostInRun | kcp/ikcp.c:607-624 | With the usual settings and any count that is not, a run from a created control block has the credit before its last call, a flush, and not after. |
| CongestionRuns.SmallCountSafe | kcp/ikcp.c:1025-1097 | Every fast-resend count up to 32767, and off, is such a setting. |
| CongestionRuns.UsualCountSafe | kcp/ikcp.c:1025-1097 | With segments of 1376 bytes and a send window of 32, exactly the counts up to 3121326 are. |
| CongestionRuns.CreateCredited | kcp/ikcp.c:233-293 | A created control block starts with it. |
| ControlInvariant.CreateInv | kcp/ikcp.c:233-293 | A created control block satisfies the invariant. |
| ControlInvariant.UserSendInv | kcp/ikcp.c:467-535 | A send keeps it, in both modes. |
| ControlInvariant.UserRecvInv | kcp/ikcp.c:356-433 | A receive keeps it. |
| ControlInvariant.OnSegmentInv | kcp/ikcp.c:781-851 | One accepted segment keeps it, whatever its fields claim. |
| ControlInvariant.InputInv | kcp/ikcp.c:742-880 | Every byte string keeps it, including those rejected half way. |
| ControlInvariant.FlushInv | kcp/ikcp.c:911-1113 | A flush keeps it; the flight does not shrink and does not exceed the larger of what it was and the send window. |
| ControlInvariant.UpdateInv | kcp/ikcp.c:1121-1146 | An update keeps it. |
| ControlInvariant.RunInv | kcp/ikcp.c:356-1146 | Every state of every run has the flight ordered inside `[una, next)`, the reordering buffer inside its window, a contiguous queue, exact counters, and a flight within the send window. |
| InputEffect.InputRemoves | kcp/ikcp.c:742-861 | Input of an encoded datagram: nothing it acknowledges, by name or by `una`, stays in flight; nothing it neither names nor lies ahead of leaves it; what stays is unchanged but for the skip counts, which rise exactly below the highest acknowledged number. |
| InputEffect.InputRemovesExactly | kcp/ikcp.c:742-861 | A datagram of one segment removes exactly what it acknowledges. |
| InputEffect.HighestNamed | kcp/ikcp.c:797-808 | The highest acknowledgement of a datagram is one of them, if there is any. |
| InputEffect.HighestFarthest | kcp/ikcp.c:797-808 | It is the one farthest ahead of any number from which all lie less than half the circle ahead. |
| InputEffect.InputReports | kcp/ikcp.c:781-877 | The remote window is the one the last segment announces, a window probe asks for an answer, every round trip reported is a sample in order, and the congestion window is advanced exactly when the flight's head moved. |
| InputEffect.InputStops | kcp/ikcp.c:742-779 | A datagram shorter than a header is refused with -1 and changes nothing; any other returns the code of the header loop, and after an error the segments before it have taken effect and nothing else. |
| InputEffect.InputEchoes | kcp/ikcp.c:816-822 | Every acknowledgement a datagram adds to the list carries the number and the time stamp of one of its data segments. |
| Transmission.TransmitSpec | kcp/ikcp.c:1029-1060 | A segment is sent unless its resend time lies ahead and too few later ones were acknowledged; for its first 35791 transmissions it is due later afterwards, and its timeout has not shrunk. |
| Transmission.FlushFlight | kcp/ikcp.c:996-1083 | After a flush every segment in flight counts as sent unless its counter wrapped; for its first 35791 transmissions it is due strictly later and its timeout has not shrunk; a timeout changed only if its time had passed. |
| Transmission.LongerExactly | kcp/ikcp.c:1029-1060 | A segment's timeout does not shrink exactly when the grown one fits 32 bits, or, for a counter at zero, when it was no longer than the present one. |
| Transmission.FlushLengthensExactly | kcp/ikcp.c:996-1083 | A flush shrinks no timeout in the flight exactly when that holds of every segment before it. |
| Transmission.YoungFlightLengthens | kcp/ikcp.c:996-1083 | It does when each was sent, and less than 35791 times. |
| Transmission.FlushCountsExactly | kcp/ikcp.c:996-1083 | After a flush every counter is positive exactly when no segment that was due had the largest count before it. |
| Transmission.PendingExactly | kcp/ikcp.c:1029-1060 | Without a bound on the transmissions, a segment is due later after its turn exactly when the timeout it is resent with, after a timeout or early, is positive and at most half the clock. |
| Transmission.FlushPendingExactly | kcp/ikcp.c:996-1083 | After a flush the whole flight is due strictly later exactly when that holds of every segment that was in flight before it. |
| Transmission.YoungFlightPending | kcp/ikcp.c:996-1083 | It does when none of them was sent 35791 times. |
| Transmission.RunFlights | kcp/ikcp.c:911-1146 | In every run from a created control block, every flush, asked for directly or by an update, does to the flight what `FlushFlight` says. |
| Transmission.CounterWrapsExactly | kcp/ikcp.c:1033-1057 | The transmission counter returns to zero exactly when it wraps. |
| Overrun.TimeoutOverruns | kcp/ikcp.c:1037-1048 | A flush of a control block in which one backoff past the bound leaves a segment overdue: the bound is tight. |
| Overrun.FastOverruns | kcp/ikcp.c:1049-1056 | So does a flush that resends early a segment whose timeout has passed half the clock. |
| Overrun.TimeoutShrinks | kcp/ikcp.c:1041-1045 | A flush of a control block that leaves a segment with a shorter timeout. |
| Overrun.CounterWraps | kcp/ikcp.c:1037-1048 | A flush of a control block that leaves a segment's counter at zero. |
| Overrun.OverrunReached | kcp/ikcp.c:1037-1048 | A run from a created control block in which the peer never answers: the flush after 10737418 timeouts leaves a segment overdue. |
| Overrun.ShrinkReached | kcp/ikcp.c:1037-1048 | In the same run, with flushes asked for once the segment is overdue, its timeout falls from 4294967200 to 104 ms. |
| Transmission.ApplyBounded | kcp/ikcp.c:996-1083 | Every call keeps the bound on the timeouts that `FlushFlight` needs besides the invariant. |
| Probing.ProbeBackoff | kcp/ikcp.c:954-974 | A probe is flagged exactly when the window is closed and its time has come; its interval grows by half from 7 seconds to 2 minutes and the next probe lies one interval ahead. |
| Probing.ReceiveReopens | kcp/ikcp.c:425-432 | A receive that makes room in a full queue has the window announced, and no other touches the probe flags. |
| Probing.ApplySpaced | kcp/ikcp.c:954-974 | Every call keeps the probe interval at zero or between its bounds. |
| Probing.RunSpaced | kcp/ikcp.c:954-974 | It is so in every state of every run. |
| FlushWire.PackSpec | kcp/ikcp.c:940-948 | Packing segments into datagrams loses, adds and reorders nothing, and every datagram has one segment or more and at most `mtu` bytes. |
| FlushWire.PackIsEmit | kcp/ikcp.c:1060-1088 | Filling the buffer segment by segment yields the same datagrams. |
| FlushWire.PackGreedy | kcp/ikcp.c:940-948 | No datagram ends before the next segment would not fit. |
| FlushWire.FlushReadBack | kcp/ikcp.c:936-1089 | The datagrams of a flush are 1 to `mtu` bytes long and, read with the header loop, give the pending acknowledgements in order, the flagged probes, then the segments that were due. |
| FlushContent.FlushSays | kcp/ikcp.c:899-1089 | Read back from the datagrams of a flush: every segment announces the free places of the receive queue and the next expected number; acknowledgement `i` carries number and time of entry `i`; then the probes that are due; then, with the present time, exactly the segments never sent, timed out, passed over or just admitted, in the order of their numbers. |
| FlushContent.PeerLearns | kcp/ikcp.c:899-928 | A peer that inputs any of these datagrams accepts it and takes those free places for the remote window. |
| FlushEffect.FlushRenews | kcp/ikcp.c:996-1083 | A flush admits what the smallest window has room for, with the next numbers in queue order; exactly the due segments are restamped, and each gets the timeout, resend time and skip count its case calls for. |
| FlushEffect.FlushBacksOff | kcp/ikcp.c:1091-1112 | A timeout sets the window to one segment and the threshold to half the window that applied; else a passed-over segment sets the threshold to half the flight and the window to that plus the fast-resend count; otherwise both stay. |
| FlushEffect.FlushCounts | kcp/ikcp.c:936-1083 | The timeouts are counted, the link is dead once a transmission was one too many, the acknowledgement list is empty and the probe flags are clear. |
| FlushEffect.CreatedBlock | kcp/ikcp.c:233-293 | A created engine flushes nothing before its first update, which flushes at once; it has nothing to receive, a closed congestion window, a first timeout of 200 ms, and takes the first round trip as it is. |
| Schedule.UpdateAhead | kcp/ikcp.c:1121-1146 | After every update the flush time lies 1 to 10000 ms ahead, and at most one interval ahead of an update that flushed. |
| Schedule.OthersKeepSchedule | kcp/ikcp.c:356-1113 | No other call moves the flush time. |
| Schedule.FlushesSpread | kcp/ikcp.c:1121-1146 | Any `n >= 2` flushes triggered by updates span more than `n - 2` intervals, through any number of clock wraps. |
| Schedule.RunFlushesSpread | kcp/ikcp.c:1121-1146 | The same for the updates of every run of calls whose clock does not go back. |
| Schedule.CheckSound | kcp/ikcp.c:1158-1194 | No update before the returned time flushes, and no segment comes due before it; it lies at most one interval ahead. |
| Schedule.CheckTight | kcp/ikcp.c:1158-1194 | The returned time is not early: it is the present exactly when an update would flush or a resend time is not ahead, and otherwise a whole interval away unless a flush or a resend time falls on it. |
| Schedule.PollIsSleep | kcp/ikcp.c:1158-1194 | Sleeping until the returned time is equivalent to polling every millisecond. |
| FlowSender.Accept | kcp/ikcp.c:467-535 | Accepting a message extends the stream of fragments and keeps both directions' safety. |
| FlowSender.Cumulative | kcp/ikcp.c:591-605 | A cumulative acknowledgement from the network removes exactly the segments below it, which the receiver holds. |
| FlowSender.Selective | kcp/ikcp.c:569-589 | A selective one removes exactly the segment it names, which the receiver holds. |
| FlowSender.Skip | kcp/ikcp.c:607-624 | Counting skipped segments removes nothing. |
| FlowSender.AdmitFlow | kcp/ikcp.c:1001-1022 | An admitted segment carries the fragment of its number. |
| FlowSender.TransmitFlow | kcp/ikcp.c:1028-1083 | Transmission changes no number and no payload. |
| FlowSender.SentOk | kcp/ikcp.c:1060-1075 | Every segment put on the wire carries the fragment of its number. |
| FlowReceiver.Push | kcp/ikcp.c:816-841 | A live data segment is buffered under its own number, acknowledged only once it is held, and takes nothing held away. |
| FlowReceiver.MissingIsLive | kcp/ikcp.c:682-686 | The half-range assumption excludes no data segment the receiver does not hold, for any receive window. |
| FlowReceiver.UserReceives | kcp/ikcp.c:356-433 | A receive call delivers the next accepted message or nothing. |
| FlowReceiver.Announce | kcp/ikcp.c:936-950 | A flush announces the listed acknowledgements and empties the list. |
| FlowReceiver.NoWedge | kcp/ikcp.c:439-461 | A queue of 127 segments or more has a complete message at its head. |
| Flow.FirstInWindow | kcp/ikcp.c:682-686 | The flight begins inside or just past the receive window. |
| Session.SendStep | kcp/ikcp.c:467-535 | A send by either side keeps the two-party invariant. |
| Session.RecvStep | kcp/ikcp.c:356-433 | So does a receive. |
| Session.TaggedStep | kcp/ikcp.c:781-851 | So does each segment of an arriving datagram. |
| Session.InputStep | kcp/ikcp.c:742-880 | So does the input of a live datagram's bytes. |
| Session.InputRemovesExactly | kcp/ikcp.c:742-861 | What a live datagram takes from the flight is exactly what its acknowledgements name and what lies below one of its cumulative acknowledgements. |
| Session.FlushStep | kcp/ikcp.c:911-1113 | So does a flush, with its datagrams added to the network. |
| Session.FlushSent | kcp/ikcp.c:911-1089 | Every datagram of the flush enters the network, and together they are what it emitted. |
| Session.UpdateStep | kcp/ikcp.c:1121-1146 | So does an update. |
| Session.RunInv | kcp/ikcp.c:356-1146 | The invariant holds in every state of every run of two endpoints. |
| Session.DeliveredIsPrefix | kcp/ikcp.c:356-880 | In every reachable state what each user got is, byte for byte and message for message, a prefix of what the other handed over. |
| Session.AcksSafe | kcp/ikcp.c:569-948 | Every number listed for acknowledgement, acknowledged in flight, or below a `una` in flight is held by the receiver, and every segment the sender no longer keeps is held. |
| Session.RunRemovesExactly | kcp/ikcp.c:742-861 | In every run every arriving datagram takes exactly that from the flight of the side it arrives at. |
| Session.FullQueueReadable | kcp/ikcp.c:1247-1256 | A receive queue that fills its window can always be read. |
| Kcp.Kcp.constructor | kcp/ikcp.c:233-293 | A created engine is in the specified start state. |
| Kcp.Kcp.Send | kcp/ikcp.c:467-535 | A negative length is refused with -1 and no change; otherwise state and code are the specified ones. |
| Kcp.Kcp.PeekSize | kcp/ikcp.c:439-461 | The loop computes the specified size of the message at the head. |
| Kcp.Kcp.Recv | kcp/ikcp.c:356-433 | State, code and data are the specified ones. |
| Kcp.Kcp.MoveData | kcp/ikcp.c:714-725 | The loop moves exactly what is ready. |
| Kcp.Kcp.UpdateAck | kcp/ikcp.c:541-556 | The estimator's fields after one sample. |
| Kcp.Kcp.ShrinkBuf | kcp/ikcp.c:558-567 | The lowest unacknowledged number afterwards. |
| Kcp.Kcp.ParseAck | kcp/ikcp.c:569-589 | The flight without the acknowledged segment. |
| Kcp.Kcp.ParseUna | kcp/ikcp.c:591-605 | The flight without what lies below `una`. |
| Kcp.Kcp.ParseFastack | kcp/ikcp.c:607-624 | The skip counters after an acknowledgement. |
| Kcp.Kcp.Grown | kcp/ikcp.c:635-659 | The doubled list has room and holds the old pairs. |
| Kcp.Kcp.AckPush | kcp/ikcp.c:630-664 | The list grows by the pair, whether or not it had to be reallocated. |
| Kcp.Kcp.ParseData | kcp/ikcp.c:676-725 | The receive side after one segment. |
| Kcp.Kcp.OnSegment | kcp/ikcp.c:781-851 | The engine after one accepted segment. |
| Kcp.Kcp.ParseDatagram | kcp/ikcp.c:752-855 | The header loop applies the parsed segments in order, keeps the highest acknowledgement and returns the specified code. |
| Kcp.Kcp.Advance | kcp/ikcp.c:863-877 | The congestion window after the flight moved on. |
| Kcp.Kcp.Input | kcp/ikcp.c:742-880 | For any bytes, state and code are the specified ones. |
| Kcp.Kcp.EncodeHead | kcp/ikcp.c:886-897 | The 24 header bytes are written behind what the buffer holds. |
| Kcp.Kcp.EmitSeg | kcp/ikcp.c:1063-1075 | A segment goes behind the buffered ones, which are handed over first when it does not fit; no write passes the buffer. |
| Kcp.Kcp.FlushAcks | kcp/ikcp.c:936-948 | Every pending acknowledgement is emitted in order. |
| Kcp.Kcp.ProbeWindow | kcp/ikcp.c:953-974 | The probe timer and flag. |
| Kcp.Kcp.FlushProbes | kcp/ikcp.c:976-994 | The flagged probes are emitted and the flags cleared. |
| Kcp.Kcp.Admit | kcp/ikcp.c:1001-1022 | The queue and the flight after admission. |
| Kcp.Kcp.Judge | kcp/ikcp.c:1029-1066 | The verdict on one segment and its new stamps. |
| Kcp.Kcp.FlushData | kcp/ikcp.c:1028-1083 | The loop stamps and emits everything due, counts fast and timed-out segments, and marks a dead link. |
| Kcp.Kcp.AdjustWindow | kcp/ikcp.c:1091-1112 | The congestion window at the end of a flush. |
| Kcp.Kcp.Flush | kcp/ikcp.c:911-1113 | The state is the specified one, and the callback got exactly the specified datagrams. |
| Kcp.Kcp.Update | kcp/ikcp.c:1121-1146 | The same for an update. |
| Kcp.Kcp.Check | kcp/ikcp.c:1158-1194 | The loop computes the specified time. |
| Timers.ExpiredExactly | muduo/net/TimerQueue.cc:183-202 | Exactly the timers whose expiration is not after now are taken out. |
| Timers.AddInv | muduo/net/TimerQueue.cc:132-141 | Adding a timer keeps both indexes in agreement and the alarm early enough. |
| Timers.CancelInv | muduo/net/TimerQueue.cc:143-161 | So does cancelling. |
| Timers.CallbacksInv | muduo/net/TimerQueue.cc:174-180 | Callbacks that add and cancel keep the invariant, leave the batch's timers alive and record every cancellation of one of them. |
| Timers.HandleReadInv | muduo/net/TimerQueue.cc:163-233 | After an alarm the queue is consistent again; a timer of the batch is restarted exactly when it repeats and was not cancelled by a callback, and freed otherwise. |
| Timers.SameSize | muduo/net/TimerQueue.cc:146-160 | The two indexes always have the same size. |
| Timers.FiresInTime | muduo/net/TimerQueue.cc:41-81 | Between events the alarm is set and fires no later than the earliest timer, apart from the 100 microseconds. |
| Timers.AlwaysQuiescent | muduo/net/TimerQueue.cc:132-259 | All of it holds after any sequence of calls and alarms. |
| TimerRuns.CreateExactly | muduo/net/TimerQueue.cc:114-124 | Creating a timer schedules nothing yet and gives it a number no other timer had. |
| TimerRuns.HandExactly | muduo/net/TimerQueue.cc:132-141 | Handing it to the loop schedules exactly it, and sets the alarm anew exactly when it is earlier than all others. |
| TimerRuns.CancelExactly | muduo/net/TimerQueue.cc:143-161 | Cancelling takes exactly the timer with that address and number from the schedule. |
| TimerRuns.FireExactly | muduo/net/TimerQueue.cc:163-181 | Whatever the callbacks of an alarm do, a timer that was not due stays scheduled exactly if none of them cancels it. |
| TimerRuns.FireArms | muduo/net/TimerQueue.cc:223-233 | After an alarm the descriptor is set for exactly the earliest timer with a valid time. |
| TimerRuns.CreatedThenScheduled | muduo/net/TimerQueue.cc:114-141 | In every run a timer created at a free address and later handed to the loop is scheduled then, as it was created. |
| TimerRuns.RunsWhenDue | muduo/net/TimerQueue.cc:163-202 | In every run a scheduled timer that is not cancelled is run by the first alarm at or after its expiration. |
| TimerQueue.TimerQueue.Insert | muduo/net/TimerQueue.cc:235-259 | Both indexes gain the timer; the result says whether it is the earliest. |
| TimerQueue.TimerQueue.AddTimerInLoop | muduo/net/TimerQueue.cc:132-141 | The specified state, with the alarm set when the timer is the earliest. |
| TimerQueue.TimerQueue.CancelInLoop | muduo/net/TimerQueue.cc:143-161 | The specified state; the timer freed is alive. |
| TimerQueue.TimerQueue.GetExpired | muduo/net/TimerQueue.cc:183-202 | The expired timers, out of both indexes; each was in the second one. |
| TimerQueue.TimerQueue.Reset | muduo/net/TimerQueue.cc:204-233 | Each timer of the batch is restarted or freed once, and the alarm set. |
| TimerQueue.TimerQueue.Restart | muduo/net/Timer.cc:16-26 | A repeating timer expires one interval after now; any other gets the invalid time. |
| TimerQueue.TimerQueue.HandleRead | muduo/net/TimerQueue.cc:163-181 | The whole alarm, with one callback for each expired timer, each of them alive when it runs. |
| AsyncLog.AlwaysInv | muduo/base/AsyncLogging.cc:34-135 | Under every interleaving of appends with the backend the invariant holds. |
| AsyncLog.SparesReady | muduo/base/AsyncLogging.cc:71-73 | The assertions at the start of the backend's loop never fail. |
| AsyncLog.AcceptedLines | muduo/base/AsyncLogging.cc:34-56 | The bytes taken over are the lines shorter than a buffer, in lock order. |
| AsyncLog.NothingLost | muduo/base/AsyncLogging.cc:34-133 | As long as no batch exceeds 25 buffers, the file, the batch being written, the full buffers and the current one hold together every such line, in order. |
| AsyncLog.TrimInv | muduo/base/AsyncLogging.cc:92-101 | Cutting a batch keeps every byte taken over accounted for, in order: written, to be written, given up, or still collected. |
| AsyncLog.TurnWrites | muduo/base/AsyncLogging.cc:92-133 | When the backend has finished with a batch, whatever others did meanwhile, the file has grown by exactly the whole batch, or, of more than 25 buffers, by the note and the first two. |
| AsyncLog.HandsOverExactly | muduo/base/AsyncLogging.cc:34-56 | A buffer is handed over exactly when the next line does not fit into its 4000000 bytes. |
| AsyncLog.WaitsExactly | muduo/base/AsyncLogging.cc:75-88 | At the top of its loop the backend waits exactly when nothing is full, and otherwise takes all there is. |
| AsyncLog.BuffersBalanced | muduo/base/AsyncLogging.cc:34-133 | Under every interleaving no buffer is lost or used twice: one is allocated exactly when a line finds neither room nor a spare one, and a cut or finished batch frees all but the two that are kept. |
| AsyncLog.StoppedFile | muduo/base/AsyncLogging.cc:69-134 | When the logger has stopped and no batch exceeded 25 buffers, the file lacks exactly the lines since the last swap, and none if and only if no fitting line that is not empty came after it. |
| AsyncLog.StopMayLose | muduo/base/AsyncLogging.cc:69-134 | A schedule in which a line appended before the stop never reaches the file. |
| AsyncLogging.AsyncLogging.Append | muduo/base/AsyncLogging.cc:34-56 | The specified state after one line. |
| AsyncLogging.AsyncLogging.Enter | muduo/base/AsyncLogging.cc:69-88 | The backend waits exactly when nothing is full, and swaps otherwise. |
| AsyncLogging.AsyncLogging.WriteBatch | muduo/base/AsyncLogging.cc:92-132 | The batch is cut, written in order, and both spare buffers are back. |
| Calendar.DateRoundTrip | muduo/base/Date.cc:20-42 | Every valid date from 1 March -4800 on comes back from its day number. |
| Calendar.DayRoundTrip | muduo/base/Date.cc:20-42 | Every day number from that date on is the number of its date, which is valid. |
| Calendar.DateOfValidExactly | muduo/base/Date.cc:29-42 | The date of a day number has its month and day in range exactly from that date on. |
| Calendar.NextDayNumber | muduo/base/Date.cc:20-27 | The next day by the leap-year rule has the next number. |
| Calendar.DateOfInRange | muduo/base/Date.cc:29-42 | From day number -32044 on, sums and products stay in 32 bits exactly up to 536838867. |
| Calendar.JulianDayInRange | muduo/base/Date.cc:20-27 | The partial sums stay in 32 bits exactly for dates up to 15 December 5874689. |
| TimeZone.UtcSeconds | muduo/base/TimeZone.cc:322-363 | Every second from 1 March -4800 on, before 1970 too, comes back from its broken-down form, whose fields are in range. |
| TimeZone.UtcValidExactly | muduo/base/TimeZone.cc:322-347 | A second has its month and day in range exactly from that date on. |
| TimeZone.UtcFields | muduo/base/TimeZone.cc:322-363 | Every valid broken-down time comes back from its seconds. |
| TimeZone.Epoch | muduo/base/TimeZone.cc:322-363 | Second 0 is the beginning of 1 January 1970, and the one before it the end of 31 December 1969. |
| TimeZone.UtcTime | muduo/base/TimeZone.cc:322-347 | Truncating division with its correction computes the specified fields. |
| TimeZone.UtcInRange | muduo/base/TimeZone.cc:322-347 | The casts to `int` and the date arithmetic keep their values exactly for seconds before the first whose day number is 536838868. |
| TimeZone.BackInRange | muduo/base/TimeZone.cc:349-363 | Converting such a second back stays in 32 bits. |
| TimeZone.LocalPlace | muduo/base/TimeZone.cc:223-255 | Where the search by local time ends: in the period of the time, or in the next one in the stretch of summer time that will be repeated. |
| TimeZone.LocalInverse | muduo/base/TimeZone.cc:277-320 | In a zone that alternates standard and summer time an hour apart, conversion to local time and back gives back every second, in both passes of the repeated hour. |
| TimeZone.InverseExactly | muduo/base/TimeZone.cc:277-320 | With summer time `S` seconds ahead and transitions more than `S` apart, a second comes back exactly when `S` is 3600 or it is not in the last `S` seconds of a summer time. |
| TimeZone.LocalAndBack | muduo/base/TimeZone.cc:277-320 | In such a stretch the result is off by the difference of `S` and an hour, elsewhere by nothing. |
| TimeZone.HalfHourLost | muduo/base/TimeZone.cc:299-320 | A zone with half an hour of summer time, and a second that comes back half an hour early. |
| TimeZone.FindLocaltime | muduo/base/TimeZone.cc:223-255 | The bisection finds the type of the last transition at or before the key, or the first type. |
| TimeZone.Seconds | muduo/base/TimeZone.cc:299-320 | The conversion in place is the specified one. |
| Buffer.Buffer.Append | muduo/net/Buffer.h:182-187 | The contents grow by exactly the bytes. |
| Buffer.Buffer.Prepend | muduo/net/Buffer.h:354-360 | The bytes come before the contents. |
| Buffer.Buffer.Retrieve | muduo/net/Buffer.h:113-124 | The contents lose exactly the first bytes. |
| Buffer.Buffer.MakeSpace | muduo/net/Buffer.h:390-409 | Growing or compacting in place keeps the contents and makes the space. |
| Buffer.Buffer.EnsureWritableBytes | muduo/net/Buffer.h:194-200 | The space is there and the contents are the same. |
| Buffer.Buffer.Shrink | muduo/net/Buffer.h:362-369 | A new vector with the reserve asked for and the same contents. |
| Buffer.Buffer.ReadFd | muduo/net/Buffer.cc:25-57 | A scattered read appends exactly what arrived. |
| TcpStream.OutputIsSent | muduo/net/TcpConnection.cc:139-192 | What the socket took followed by what waits is everything sent, whatever the partial writes; write interest is on exactly when something waits. |
| TcpStream.LossExactly | muduo/net/TcpConnection.cc:161-175 | Bytes are given up exactly by a direct write that meets a reset. |
| TcpStream.ShutdownAfterAll | muduo/net/TcpConnection.cc:205-213 | The sending side of a connection that is not closed and met no reset is shut down only after every byte sent before was written. |
| TcpStream.ShutsExactly | muduo/net/TcpConnection.cc:205-213 | The sending side is shut down exactly by a queued shutdown when nothing is being written, and by a write that takes all that waits while a shutdown is pending. |
| TcpStream.ShutdownExactly | muduo/net/TcpConnection.cc:205-213 | Whichever step shuts it, in any reachable state: everything was written exactly when no reset lost bytes before and the step writes all that waited, and it does so unless the connection was closed. |
| TcpStream.ShutdownAfterClose | muduo/net/TcpConnection.cc:194-213 | A schedule in which a connection that was asked to shut down, and then closed, is shut with bytes waiting. |
| TcpStream.AlwaysInv | muduo/net/TcpConnection.cc:139-420 | The invariant holds after any sequence of sends, shutdowns, closes and writable events. |
| TcpStream.StateExactly | muduo/net/TcpConnection.cc:194-421 | The state after any steps says exactly whether the connection was established, whether its end was asked for, and whether it was closed or destroyed. |
| TcpStream.SendRefused | muduo/net/TcpConnection.cc:92-110 | Once a shutdown or a close of an established connection was asked for, every later send takes over nothing. |
| TcpStream.ShutsInTheEnd | muduo/net/TcpConnection.cc:194-213 | Once such a shutdown has been run, and unless the connection is closed, the sending side is shut as soon as nothing waits, and then, without a reset, everything sent was written. |
| TcpStream.WritesExactly | muduo/net/TcpConnection.cc:139-192 | Every step counts as written exactly what the socket took of what was offered to it. |
| TcpStream.ClosedIsFinal | muduo/net/TcpConnection.cc:139-146 | A closed connection takes over nothing and writes nothing more. |
| TcpConnection.TcpConnection.SendInLoop | muduo/net/TcpConnection.cc:139-192 | The specified state over a growable buffer, for any answer of the socket. |
| TcpConnection.TcpConnection.HandleWrite | muduo/net/TcpConnection.cc:368-406 | The same when the socket can take bytes again. |
| TcpConnection.TcpConnection.ShutdownInLoop | muduo/net/TcpConnection.cc:205-213 | The sending side is shut down exactly when nothing is being written. |
| TcpConnection.TcpConnection.HandleClose | muduo/net/TcpConnection.cc:408-421 | The connection is down and write interest off. |
| Http.ChunkingIndependent | muduo/net/http/HttpContext.cc:60-118 | However the input is cut, verdict, request and leftover are those of one piece. |
| Http.AnyArrival | muduo/net/http/HttpContext.cc:60-118 | The same for pieces with arrival times of their own, but for the receive time. |
| Http.BlockParsed | muduo/net/http/HttpContext.cc:88-111 | A block of header lines ends after its first line without a colon, or after the empty line if there is none, with the fields before that taken and the rest unread. |
| Http.HeadersEndExactly | muduo/net/http/HttpContext.cc:88-111 | Exactly what follows the empty line is left if and only if every line before it has a colon. |
| Http.FieldLost | muduo/net/http/HttpContext.cc:88-111 | A field after a line without a colon is lost. |
| Http.RequestParsed | muduo/net/http/HttpContext.cc:16-118 | A request made of one of the five methods, a target, a version and headers with any white space around their values (sections 3.1.1 and 3.2 of RFC 7230) is parsed to exactly these, and what follows is left. |
| Http.LineExactly | muduo/net/http/HttpContext.cc:16-57 | A request line is accepted if and only if it is GET, POST, HEAD, PUT or DELETE, a space, a target without a space, a space, and HTTP/1.0 or HTTP/1.1. |
| Http.LineAccepted | muduo/net/http/HttpContext.cc:16-57 | Such a line sets method, version, and the target cut at its first question mark. |
| Http.RefusedExactly | muduo/net/http/HttpContext.cc:60-87 | Once the request line has ended, parsing fails if and only if it is not such a line, and then takes nothing from the buffer. |
| Http.WordRefused | muduo/net/http/HttpRequest.h:53-81 | A refused line without a space leaves the request alone, and an unknown first word sets the invalid method. |
| Http.TargetRefused | muduo/net/http/HttpContext.cc:21-57 | A line whose target does not end sets the method alone, and one with an unknown version sets method and target. |
| HttpContext.HttpContext.ProcessRequestLine | muduo/net/http/HttpContext.cc:16-57 | Verdict and request are the specified ones. |
| HttpContext.HttpContext.AddHeader | muduo/net/http/HttpRequest.h:135-149 | The field maps to the value without the white space around it. |
| HttpContext.HttpContext.ParseRequest | muduo/net/http/HttpContext.cc:60-118 | The loop consumes the buffer as specified, on a context that has not got all. |
| Framing.ChunkingIndependent | muduo/net/protobuf/ProtobufCodecLite.cc:58-97 | However a stream is cut, the messages, the last verdict and the leftover are those of one piece. |
| Framing.FrameDecoded | muduo/net/protobuf/ProtobufCodecLite.cc:58-97 | An encoded frame is delivered exactly when it is at most 64 MiB, not refused, and parses. |
| Framing.MessagesDelivered | muduo/net/protobuf/ProtobufCodecLite.cc:42-97 | A stream of encoded messages, cut in any way, delivers exactly those messages in order. |
| Framing.GoodIsIntact | muduo/net/protobuf/ProtobufCodecLite.cc:184-225 | Only a body that is the tag, a payload and the checksum of both is delivered. |
| Framing.FrameLayout | muduo/net/protobuf/ProtobufCodecLite.cc:42-56 | A frame byte by byte: the length in network order, tag, payload, and the checksum of both. |
| Framing.LengthJudged | muduo/net/protobuf/ProtobufCodecLite.cc:58-97 | A length is refused exactly when it is too small for tag and checksum or above 64 MiB; otherwise the frame is waited for. |
| Framing.BodyJudged | muduo/net/protobuf/ProtobufCodecLite.cc:184-225 | A complete frame is refused for its checksum, its tag or its payload, in this order, and stays in the buffer; otherwise its message is delivered. |
| ProtobufCodec.ProtobufCodec.FillEmptyBuffer | muduo/net/protobuf/ProtobufCodecLite.cc:42-56 | An empty buffer with room for the length in front holds exactly the frame afterwards. |
| ProtobufCodec.ProtobufCodec.OnMessage | muduo/net/protobuf/ProtobufCodecLite.cc:58-97 | The loop delivers, reports and leaves what is specified. |

## Left out

- The setters of the engine in the middle of a run: `ikcp_setmtu` and `ikcp_wndsize` break the bounds of segments already queued, so the settings are fixed at creation (`Control.Config`).
- Memory of the engine: allocation failures, null buffers in `ikcp_send` and `ikcp_recv`, the allocator hooks, logging and `ikcp_release`; the linked queues are sequences.
- Message sizes of 2 GiB and more, whose `int` lengths would overflow in `ikcp_send`, `ikcp_recv` and `ikcp_peeksize`.
- The return value of the output callback, which the engine ignores; the datagrams it was given are recorded in order.
- Forged datagrams in the two-party theorem: `Session` delivers only datagrams the other side sent. Arbitrary bytes are covered for one endpoint by `ControlInvariant`, `CongestionRuns` and `Transmission`.
- Delivery under real timing and fairness: only safety, and the timing of flushes, are proved.
- Transmission.FlushFlight: promises a later resend time and a timeout that does not shrink for the first 35791 transmissions of a segment, because the timeout grows without a bound; the exact conditions for the whole flight are `Transmission.FlushPendingExactly` and `Transmission.FlushLengthensExactly`.
- Transmission.TransmitSpec: promises the same for one segment; the exact conditions are `Transmission.PendingExactly` and `Transmission.LongerExactly`.
- `ikcp_getconv`, `ikcp_getsn`, `ikcp_waitsnd`: single reads.
- The handshake in `KcpServer` and `KcpProxy`, the control session, tunnels and sockets: system calls and callback plumbing.
- Timers: the clock, the descriptor's system calls and the order of sequence numbers across threads; a timer's fractional interval is rounded down to microseconds before it enters the model.
- AsyncLogging: the text of the note written when buffers are dropped is a parameter, and the file is the bytes handed to it; rolling and flushing of log files are not modelled.
- TimeZone: reading the zone file, abbreviations and `tm_wday`, `tm_yday`; `gmtime_r` and `timegm` are the division into days and seconds.
- TcpConnection: the read path, the high-water mark and write-complete callbacks, and the delay of a forced close.
- HttpContext.HttpContext.ParseRequest: does not model a call on a context that already got all, because the loop of the original does not return there.
- Http: a request body, which the parser does not read.
- Framing: the checksum and the serialisation of messages are parameters; the raw callback is a predicate of the frame.
- Thread wrappers, pollers, event-loop wakeups, inspectors, file utilities and number formatting.
