# Video transport: a Dafny model

The system is a video sender and a video receiver. This project models the parts of both that decide what
arrives: the fragmenting UDP protocol with XOR parity, NACKs and a jitter buffer; H.264 over RTP; the adaptive
jitter controller and its latency window; the TCP session; and the YUYV conversion. `dafny verify dfyconfig.toml`
checks everything.

Objects whose methods update fields are classes, and each of their methods is proved equal to a function of the
state before it; the theorems about runs are lemmas about those functions. The network is an adversary: it chooses
which sent datagrams arrive, how often and in which order. Clocks, socket results and the jitter controller's
current limits are inputs of the steps.

| files | contents |
|---|---|
| `Bytes`, `Protocol`, `Frames`, `Fec` | byte strings, integer codecs, XOR; the packed messages; tilings of a payload and their parity |
| `UdpClientState`, `UdpClientSpec`, `UdpClient` | the client's UDP state, its operations as functions, and the class that implements them |
| `UdpSenderSpec`, `UdpSender` | a sent frame and its datagrams; the backend that sends, caches and resends them |
| `UdpInvariants`, `UdpEmission`, `UdpRecovery`, `UdpIntegrity` | what every run of the client keeps, and that its frames are those sent |
| `UdpNackLoop`, `UdpRetransmission`, `UdpServerRun` | requests, resends, and runs of the server |
| `UdpJitterOrder`, `UdpRunOrder` | the order of emission, on the jitter buffer and in runs |
| `UdpTiming` | when the client asks, hands out and gives up, on the clock and the configuration |
| `UdpStranding`, `UdpReceiveLoop`, `UdpStrandedRun` | complete frames left behind: when, never in which loop, and an example run |
| `AnnexB`, `RtpProtocol`, `RtpPacketizer`, `RtpReceiver` | the H.264 path, operation by operation |
| `RtpReassembly`, `RtpDelivery`, `RtpRoundTrip`, `RtpSafety` | what the receiver makes of what the packetizer sends |
| `WireFormat` | every message by the offsets of its fields, and what each parser refuses |
| `LatencyStats`, `AdaptiveJitter` | the window and the controller |
| `ThreadSafeQueue`, `TcpSession`, `TcpSending`, `TcpReceiving` | the send queue under interleaving; framing on both sides |
| `Yuyv` | the two conversions |

Three things the code does that its comments do not say, each with the exact condition as a lemma:

- The recovery pass returns after the first frame it hands out (`StreamClientUdp.cpp:309-311`). With the jitter
  buffer off it leaves a complete assembly behind if and only if it finds one or restores two or more
  (`UdpStranding.UnbufferedPassStrands`; `UdpStrandedRun.OneOfTwoIsStranded` is such a run). What is left behind is
  finalized by another of its own datagrams before it expires (`UdpStranding.StrandedMeetsDatagram`), and otherwise
  counted as timed out (`UdpStranding.StrandedUntilDatagram`). With the jitter buffer on, the loop's order of calls rules this out
  (`UdpReceiveLoop.LoopStrandsNothing`).
- The jitter buffer's expected sequence moves back when an older frame is the oldest buffered
  (`UdpJitterOrder.PopGoesBackExactly`; `UdpRunOrder.LateFrameIsEmittedLate` is such a run), so order is claimed for
  an episode without such inserts (`UdpRunOrder.RunsEmitInOrder`).
- The RTP receiver takes the first packet it sees as the base of a frame, so the loss of a frame's head can go
  unnoticed. What it emits from packet k on is the whole frame if and only if k is 0, and it emits something if and
  only if packet k begins a NAL unit (`RtpRoundTrip.WholeExactly`); under an adversarial network the same holds of the
  packet that began the assembly (`RtpSafety.EveryRtpFrameIsASuffix`). And a NAL unit sent whole must have type 1 to
  23: with another type the frame is dropped or altered (`RtpRoundTrip.RoundTrip`).

Standards: RFC 3550 (sections 5.1 and 5.3.1), RFC 6184 (sections 5.6 and 5.8), Annex B of ITU-T H.264.

## Model

| member | source | states |
|---|---|---|
| UdpIntegrity.EveryFrameIsIntact | sclient/src/modules/network/StreamClientUdp.cpp:141-426 | for every run over datagrams the sender made, dropped, repeated, reordered or resent at will, every frame completed or handed out has the payload of the frame sent under its sequence and, field by field, its capture and encoding times and the time it was sent, when embedded and expected, and zeros otherwise |
| UdpIntegrity.RunConsistent | sclient/src/modules/network/StreamClientUdp.cpp:141-281 | the inductive invariant behind it: each live assembly's layout, received slots, offsets, sizes, count and parity are those of the sent frame |
| UdpIntegrity.StepConsistent | sclient/src/modules/network/StreamClientUdp.cpp:141-426 | one receive-loop step keeps that invariant, for each of the five operations |
| UdpRecovery.RecoveryIsPossible | sclient/src/modules/network/StreamClientUdp.cpp:528-604 | holding a frame's parity, an assembly is recoverable if and only if exactly one fragment is missing and it is not empty (and recovery is enabled) |
| UdpRecovery.RecoverableExactly | sclient/src/modules/network/StreamClientUdp.cpp:528-604 | and for any arrays at all: a parity is there, one fragment is missing, its place between its neighbours, in 32-bit arithmetic, is not empty and within payload and parity, and every other fragment is within the payload |
| UdpRecovery.RecoveryIsExact | sclient/src/modules/network/StreamClientUdp.cpp:528-604 | recovery infers the true offset and size of the lost fragment, writes only that range, and restores the original payload |
| UdpRecovery.CompleteIsWhole | sclient/src/modules/network/StreamClientUdp.cpp:396-407 | an assembly whose slots all hold the frame's fragments holds the frame's payload |
| UdpRecovery.SplicedFillsSlot | sclient/src/modules/network/StreamClientUdp.cpp:591-599 | writing a recovered fragment fills its slot and disturbs no other |
| Fec.ParityRecovers | sserver/src/modules/transport/udp/UdpStreamingBackend.cpp:585-588 | XORing all fragments but one out of the parity leaves that one, zero-padded, for any tiling |
| Fec.AgreeOnFragments | sclient/src/modules/network/StreamClientUdp.cpp:250-260 | payloads that agree on every fragment of a tiling are equal |
| UdpInvariants.RunKeeps | sclient/src/modules/network/StreamClientUdp.cpp:141-426 | the ledger, the duplicate-suppression window and the frame count hold after every run |
| UdpInvariants.FragmentLedgerBalances | sclient/src/modules/network/StreamClientUdp.cpp:207-264 | fragments of all assemblies ever made = received once + recovered + timed out + still missing, over any bytes |
| UdpInvariants.CompletedSequencesAreSpaced | sclient/src/modules/network/StreamClientUdp.cpp:608-626 | set and deque hold the same at most 1024 distinct sequences, disjoint from the live assemblies; a sequence completes again only after 1024 others |
| UdpInvariants.AcceptKeeps | sclient/src/modules/network/StreamClientUdp.cpp:201-281 | an accepted fragment, layout conflict or recovery included, keeps the three invariants |
| UdpInvariants.PruneKeeps | sclient/src/modules/network/StreamClientUdp.cpp:759-776 | expiry keeps them: every missing fragment given up is counted |
| UdpEmission.CompletedFramesConserved | sclient/src/modules/network/StreamClientUdp.cpp:410-425 | jitter buffer on: completed = emitted + dropped + buffered in every run; off: exactly the completed frames are handed out, in order |
| UdpNackLoop.RequestParses | sserver/src/modules/transport/udp/UdpStreamingBackend.cpp:90-130 | a request the server's buffer holds whole parses to exactly its items, one that is cut off is rejected |
| UdpNackLoop.RequestsListMissing | sclient/src/modules/network/StreamClientUdp.cpp:679-722 | the chunked requests of an assembly parse on the server to exactly the ascending list of missing indices, none lost or repeated |
| UdpNackLoop.FoundExact | sserver/src/modules/transport/udp/UdpStreamingBackend.cpp:757-789 | for a frame still cached the requested datagrams are found, in order; for one no longer cached, none |
| UdpNackLoop.ResentIsGenuine | sserver/src/modules/transport/udp/UdpStreamingBackend.cpp:729-791 | whatever is requested, only datagrams sent before are resent |
| UdpNackLoop.CachingKeeps | sserver/src/modules/transport/udp/UdpStreamingBackend.cpp:705-726 | caching and pruning keep every entry complete and genuine, and sorted by time while send times do not go back |
| UdpSender.PruneFrontIsExact | sserver/src/modules/transport/udp/UdpStreamingBackend.cpp:715-726 | in a time-sorted cache, expiry from the front drops exactly the over-age frames |
| UdpRetransmission.AnswersAreExact | sserver/src/modules/transport/udp/UdpStreamingBackend.cpp:729-791 | while the frame stays young and the chunk is within the per-request limit, the requests are answered with exactly the missing datagrams |
| UdpRetransmission.NackLoopCloses | sclient/src/modules/network/StreamClientUdp.cpp:629-722 | the loop closes: when a fragment is missing, the request delay has passed, retries are left and the last request is long enough ago, and nothing is lost, exactly the missing datagrams come back, and delivering them completes the original frame, after everything completed before the request |
| UdpRetransmission.DeliveryCompletes | sclient/src/modules/network/StreamClientUdp.cpp:141-281 | delivering every missing fragment in time completes the frame that was sent, after everything completed before |
| UdpRetransmission.DeliveryHelps | sclient/src/modules/network/StreamClientUdp.cpp:207-276 | each delivered missing fragment completes the frame now or leaves it one fragment closer |
| UdpServerRun.RunsCloseTheLoop | sclient/src/modules/network/StreamClientUdp.cpp:629-722 | the same, with the conditions of the request on the clock and the configuration, for any run of the client over genuine datagrams and any run of the server that still has the frame |
| UdpServerRun.RunKeepsCache | sserver/src/modules/transport/udp/UdpStreamingBackend.cpp:705-791 | after any run of sends and requests the cache holds complete entries of sent frames, sorted by send time, within its bound, each put there by one event of the run |
| UdpServerRun.StillCached | sserver/src/modules/transport/udp/UdpStreamingBackend.cpp:705-726 | a cached frame is still there for a request if and only if it is among the newest frames the cache holds and no pruning since found it over age |
| UdpJitterOrder.EmissionIsOrdered | sclient/src/modules/network/StreamClientUdp.cpp:339-386 | without an insert below the expected sequence, emitted sequences strictly increase until the buffer drains, and next = first + emitted + skipped |
| UdpRunOrder.RunsEmitInOrder | sclient/src/modules/network/StreamClientUdp.cpp:319-426 | the same for any stretch of any run of the client, counting the frames the run hands out |
| UdpRunOrder.StepPlays | sclient/src/modules/network/StreamClientUdp.cpp:285-426 | every step of the client does to the jitter buffer, and emits, exactly what its inserts and pops do |
| UdpRunOrder.LateFrameIsEmittedLate | sclient/src/modules/network/StreamClientUdp.cpp:339-386 | a run from reset that breaks the order: with a depth limit of two, a middle, a high and then a low sequence are emitted middle first, then low |
| UdpJitterOrder.PopGoesBackExactly | sclient/src/modules/network/StreamClientUdp.cpp:346-363 | a pop emits a sequence below the expected one if and only if the expected frame is missing, something older is buffered, and the wait is over |
| UdpJitterOrder.LateInsertGoesBack | sclient/src/modules/network/StreamClientUdp.cpp:358-362 | a late frame older than all buffered ones is emitted next, and the expected sequence moves back, if and only if the depth limit or the frame's longest wait is reached |
| UdpJitterOrder.PopAllDrainsToLimit | sclient/src/modules/network/StreamClientUdp.cpp:339-386 | popping until refused terminates, hands out every frame that left, and leaves fewer than max(limit, 1) |
| UdpJitterOrder.DepthLimitForcesPop | sclient/src/modules/network/StreamClientUdp.cpp:351-375 | at the depth limit a pop always succeeds |
| UdpStranding.NothingIsStranded | sclient/src/modules/network/StreamClientUdp.cpp:75-93 | jitter buffer on: in every run that keeps the loop's order of calls no assembly is ever left complete, and after each recovery pass none is recoverable |
| UdpReceiveLoop.LoopIsDisciplined | sclient/src/modules/network/StreamClientUdp.cpp:26-135 | every sequence of calls the receive loop can make, early returns, drained datagrams and failing receives included, keeps that order |
| UdpReceiveLoop.LoopStrandsNothing | sclient/src/modules/network/StreamClientUdp.cpp:26-135 | jitter buffer on: no such sequence leaves a complete assembly behind, and none is recoverable when the loop gets to its maintenance |
| UdpReceiveLoop.TurnRuns | sclient/src/modules/network/StreamClientUdp.cpp:26-92 | and a turn that hands nothing out is such a sequence: a pop, any number of datagrams, a deferred pass, a pop; then over again, or the maintenance if there was no datagram |
| UdpReceiveLoop.MaintenanceRuns | sclient/src/modules/network/StreamClientUdp.cpp:94-128 | so is the maintenance: expiry, a pass that may pop, requests, a pop, one datagram |
| UdpStranding.DeferredPassLeavesNothing | sclient/src/modules/network/StreamClientUdp.cpp:285-314 | a deferred pass with the jitter buffer on leaves nothing recoverable and complete only what was complete before, so nothing from a state without complete assemblies |
| UdpStranding.UnbufferedPassStrands | sclient/src/modules/network/StreamClientUdp.cpp:300-313 | without the jitter buffer, from any state: the pass leaves complete what was complete and all it restores but the first, so it leaves a complete assembly if and only if it finds one or restores two or more |
| UdpStranding.PassStrands | sclient/src/modules/network/StreamClientUdp.cpp:285-314 | in every mode, from any state: complete afterwards are the assemblies complete before and the restored ones after the one handed out |
| UdpStrandedRun.OneOfTwoIsStranded | sclient/src/modules/network/StreamClientUdp.cpp:26-92 | one turn of the loop that strands a frame: for any two sent frames with parity, each received but for one data datagram, the pass restores both and leaves the larger sequence behind, complete |
| UdpStranding.StrandedUntilDatagram | sclient/src/modules/network/StreamClientUdp.cpp:285-314 | no operation but a datagram finalizes a stranded assembly; when it expires, a frame received in full counts as timed out |
| UdpStranding.StrandedMeetsDatagram | sclient/src/modules/network/StreamClientUdp.cpp:206-276 | before it expires, a datagram of its sequence and layout finalizes it, one of another layout gives it up, and any other leaves it as it is |
| UdpStranding.DataSettles | sclient/src/modules/network/StreamClientUdp.cpp:264-276 | after a data fragment its assembly is gone, or incomplete and not recoverable: what completes a frame, by itself or with the parity, finalizes it at once |
| UdpStranding.ParityWaits | sclient/src/modules/network/StreamClientUdp.cpp:235-280 | a parity that finds its assembly incomplete is stored and nothing else happens: recovery waits for the pass or for data |
| UdpTiming.RequestedExactly | sclient/src/modules/network/StreamClientUdp.cpp:643-673 | an assembly is asked for if and only if a fragment is missing, it was first seen at least the delay ago, retries are left, and the last request is unset, in the future or at least the retry interval ago (and the socket takes the first chunk); the attempt is noted if and only if every chunk went out |
| UdpTiming.EveryAssemblyIsAsked | sclient/src/modules/network/StreamClientUdp.cpp:629-675 | with requests enabled one call does for each assembly what is done for it alone, and sends nothing else |
| UdpTiming.PopsExpectedExactly | sclient/src/modules/network/StreamClientUdp.cpp:319-387 | the expected frame, when buffered, is handed out if and only if it has waited for the target delay (always when that is 0) or for a positive longest wait, or the buffer holds the limit; otherwise it stays |
| UdpTiming.PopsOldestExactly | sclient/src/modules/network/StreamClientUdp.cpp:346-386 | when the expected frame is not buffered, the oldest is handed out in its place if and only if it has waited for a positive longest wait or the buffer holds the limit; what is passed over is counted |
| UdpTiming.BufferedWhenCompleted | sclient/src/modules/network/StreamClientUdp.cpp:391-426 | a frame waits from the time it was completed; a second one of its sequence is dropped and counted |
| UdpTiming.ExpiresExactly | sclient/src/modules/network/StreamClientUdp.cpp:759-776 | an assembly is given up if and only if its last stored fragment is more than 250 ms ago, and every one given up is counted |
| UdpTiming.IdleAssembliesGo | sclient/src/modules/network/StreamClientUdp.cpp:141-155 | any datagram, valid or not, has idle assemblies given up first, its own included |
| UdpTiming.AssembliesBegin | sclient/src/modules/network/StreamClientUdp.cpp:207-221 | the first fragment of a sequence opens an empty assembly of its layout, with both clocks started and the metadata it carries when that is expected |
| UdpTiming.StoringExactly | sclient/src/modules/network/StreamClientUdp.cpp:235-262 | the parity is kept, newest copy first, while recovery is enabled; data not received yet fills its slot and its bytes alone; a copy is only counted; and what is stored sets the clock back |
| UdpTiming.ConflictsExactly | sclient/src/modules/network/StreamClientUdp.cpp:223-233 | a fragment with another count or frame size ends the assembly, counted with what it misses |
| UdpTiming.DatagramsAreCounted | sclient/src/modules/network/StreamClientUdp.cpp:141-205 | every datagram is counted, as invalid if and only if it does not parse, as stale if and only if its sequence completed recently |
| UdpTiming.RecoveriesAreCounted | sclient/src/modules/network/StreamClientUdp.cpp:601-604 | a recovery counts one fragment and one frame, a failed attempt nothing |
| UdpTiming.FinalizeThenPops | sclient/src/modules/network/StreamClientUdp.cpp:410-426 | completing a frame at once is completing it deferred, asking for what is missing, and one pop |
| UdpClient.StreamClient.ProcessUdpDatagram | sclient/src/modules/network/StreamClientUdp.cpp:141-281 | new state, frame and NACKs of one datagram are those of the specification function: expiry first, then validation, duplicate suppression, storage, recovery, completion |
| UdpClient.StreamClient.AcceptFragment | sclient/src/modules/network/StreamClientUdp.cpp:206-280 | what a validated fragment does, layout conflict included |
| UdpClient.StreamClient.StoreFragment | sclient/src/modules/network/StreamClientUdp.cpp:235-264 | a parity or data fragment written into its assembly, duplicates counted but not stored |
| UdpClient.StreamClient.MaybeRecoverWithUdpFec | sclient/src/modules/network/StreamClientUdp.cpp:528-604 | succeeds if and only if the assembly is recoverable, and then yields the recovered assembly |
| UdpClient.StreamClient.PruneExpiredUdpAssemblies | sclient/src/modules/network/StreamClientUdp.cpp:759-776 | gives up exactly the expired assemblies |
| UdpClient.StreamClient.GiveUpAssembly | sclient/src/modules/network/StreamClientUdp.cpp:225-233 | one assembly dropped, its missing fragments and the frame counted as timed out |
| UdpClient.StreamClient.FinalizeCompletedUdpFrame | sclient/src/modules/network/StreamClientUdp.cpp:391-426 | a complete assembly counted, remembered, removed, and handed out or buffered |
| UdpClient.StreamClient.RememberCompletedUdpFrameSequence | sclient/src/modules/network/StreamClientUdp.cpp:613-626 | the recent window as a function: the new sequence at the back, the front gone while it is too long |
| UdpClient.StreamClient.BufferCompletedUdpFrame | sclient/src/modules/network/StreamClientUdp.cpp:779-791 | a frame buffered, or dropped when its sequence already is |
| UdpClient.StreamClient.UpdateJitterBufferDepthStats | sclient/src/modules/network/StreamClientUdp.cpp:839-844 | current and maximal depth recorded |
| UdpClient.StreamClient.TryPopReadyUdpFrame | sclient/src/modules/network/StreamClientUdp.cpp:319-387 | frame handed out, expected sequence, skipped and emitted counts as specified (when it pops: `UdpTiming.PopsExpectedExactly`) |
| UdpClient.StreamClient.SelectCandidate | sclient/src/modules/network/StreamClientUdp.cpp:338-363 | the candidate of a pop: the expected sequence, or the oldest once waiting is over |
| UdpClient.StreamClient.EmitWhenRipe | sclient/src/modules/network/StreamClientUdp.cpp:365-386 | the candidate handed out once its delay has passed or a limit forces it |
| UdpClient.StreamClient.FinalizeRecoverableUdpFecFrames | sclient/src/modules/network/StreamClientUdp.cpp:285-314 | recovers every assembly it can, then finalizes in order up to the first frame handed out |
| UdpClient.StreamClient.RecoverEveryAssembly | sclient/src/modules/network/StreamClientUdp.cpp:287-298 | the first loop: each assembly tried once, the successes listed in order |
| UdpClient.StreamClient.RecoverAssembly | sclient/src/modules/network/StreamClientUdp.cpp:291-297 | one recovery attempt and its counters |
| UdpClient.StreamClient.FinalizeInOrder | sclient/src/modules/network/StreamClientUdp.cpp:300-313 | the second loop, with its early return |
| UdpClient.StreamClient.MaybeSendUdpNackRequests | sclient/src/modules/network/StreamClientUdp.cpp:629-675 | requests as specified for every assembly, each with its retry bookkeeping |
| UdpClient.StreamClient.RequestFragments | sclient/src/modules/network/StreamClientUdp.cpp:643-673 | the requests of one assembly; attempts count only when every chunk was sent |
| UdpClient.StreamClient.RequestDue | sclient/src/modules/network/StreamClientUdp.cpp:643-657 | the conditions a request needs, as `UdpTiming.RequestedExactly` lists them |
| UdpClient.StreamClient.SendUdpNack | sclient/src/modules/network/StreamClientUdp.cpp:679-722 | missing indices sent in chunks until the socket refuses one |
| UdpClient.BuildNack | sclient/src/modules/network/StreamClientUdp.cpp:688-709 | the bytes of one NACK datagram |
| UdpClient.MissingFragments | sclient/src/modules/network/StreamClientUdp.cpp:659-665 | the unset indices in ascending order |
| UdpClient.XorReceived | sclient/src/modules/network/StreamClientUdp.cpp:578-589 | the parity with every received slice XORed out, unless one lies outside the payload |
| UdpClient.OnlyMissing | sclient/src/modules/network/StreamClientUdp.cpp:538-551 | whether exactly one fragment is missing, and which |
| UdpClientState.MissingIsExact | sclient/src/modules/network/StreamClientUdp.cpp:659-665 | the list of missing indices is exactly the unset flags, ascending |
| UdpClientSpec.GiveUpOneMore | sclient/src/modules/network/StreamClientUdp.cpp:759-776 | giving up assemblies one by one is giving them up together, in any order |
| UdpSender.UdpStreamingBackend.SendFrameFragments | sserver/src/modules/transport/udp/UdpStreamingBackend.cpp:487-702 | succeeds if and only if the frame is sendable and every call reaches at least one of several clients, or sends all bytes to the only one; the datagrams go out in order up to the first refusal, and the frame is cached if and only if NACKs are enabled and all were accepted |
| UdpSender.UdpStreamingBackend.SendDataFragments | sserver/src/modules/transport/udp/UdpStreamingBackend.cpp:543-628 | the fragment loop: datagrams, cache entry and parity of all fragments, or the first refusal |
| UdpSender.UdpStreamingBackend.BuildFragment | sserver/src/modules/transport/udp/UdpStreamingBackend.cpp:545-575 | the bytes of one data datagram, whose fields `DataDatagramLayout` lists, filled into the reused buffer |
| UdpSender.UdpStreamingBackend.BuildParity | sserver/src/modules/transport/udp/UdpStreamingBackend.cpp:632-654 | the bytes of the parity datagram, whose fields `ParityDatagramLayout` lists |
| UdpSender.UdpStreamingBackend.FillDatagram | sserver/src/modules/transport/udp/UdpStreamingBackend.cpp:567-575 | header, fragment header and body copied one behind the other |
| UdpSender.UdpStreamingBackend.CacheFrameFragments | sserver/src/modules/transport/udp/UdpStreamingBackend.cpp:705-712 | the cache pruned, extended, and cut to the newest entries |
| UdpSender.UdpStreamingBackend.PruneRetransmitCacheLocked | sserver/src/modules/transport/udp/UdpStreamingBackend.cpp:715-726 | over-age entries dropped from the front |
| UdpSender.UdpStreamingBackend.HandleNackRequest | sserver/src/modules/transport/udp/UdpStreamingBackend.cpp:729-791 | resends what is cached of the first items; throttled items and misses are counted |
| UdpSender.UdpStreamingBackend.ReceiveRequest | sserver/src/modules/transport/udp/UdpStreamingBackend.cpp:380-411 | a received datagram: cut off at the buffer size, parsed, and answered as the retransmission theorems say |
| UdpSender.UdpStreamingBackend.FindCached | sserver/src/modules/transport/udp/UdpStreamingBackend.cpp:757-789 | the first cached datagram with the requested sequence and index |
| UdpSenderSpec.CutsTile | sserver/src/modules/transport/udp/UdpStreamingBackend.cpp:501-548 | for two or more fragments, and for one, the sender's ranges tile the payload; none is empty unless the frame is |
| UdpSender.ParityUpToAll | sserver/src/modules/transport/udp/UdpStreamingBackend.cpp:585-588 | what the send loop accumulates is the zero-padded XOR of all fragments |
| UdpSenderSpec.BodyFits | sserver/src/modules/transport/udp/UdpStreamingBackend.cpp:501-548 | no fragment is larger than the capacity |
| UdpSenderSpec.PayloadFits | sserver/src/config/AppConfig.cpp:153-188 | under a validated configuration a frame that is not refused fits the 32-bit size field |
| UdpSenderSpec.SendableExactly | sserver/src/modules/transport/udp/UdpStreamingBackend.cpp:494-513 | a frame is refused if and only if the limits leave no room behind 68 bytes of headers or 65535 fragments are not enough |
| UdpSenderSpec.HasParityExactly | sserver/src/modules/transport/udp/UdpStreamingBackend.cpp:632-634 | a parity is sent if and only if it is enabled and one fragment does not hold the frame |
| UdpSenderSpec.DataDatagramLayout | sserver/src/modules/transport/udp/UdpStreamingBackend.cpp:545-575 | every field of a data datagram at its offset: the frame's numbers and times, sizes, index and count, and its piece of the payload |
| UdpSenderSpec.ParityDatagramLayout | sserver/src/modules/transport/udp/UdpStreamingBackend.cpp:632-654 | the same of the parity datagram |
| UdpSenderSpec.DatagramsFit | sserver/src/modules/transport/udp/UdpStreamingBackend.cpp:501-548 | no datagram is larger than the configured size |
| UdpSender.EverythingAccepted | sserver/src/modules/transport/udp/UdpStreamingBackend.cpp:591-628 | a frame goes out whole if and only if each call reaches at least one of several clients, or sends all bytes to the only one |
| UdpSender.AnswerBounded | sserver/src/modules/transport/udp/UdpStreamingBackend.cpp:729-791 | a request is answered with at most as many datagrams as the limit, and with none while NACKs are off |
| WireFormat.ClientTakesExactly | sclient/src/modules/network/StreamClientUdp.cpp:149-199 | a datagram is valid if and only if, by offsets, magic, type, lengths, role, index and range agree, and it is read from those offsets |
| WireFormat.ServerTakesExactly | sserver/src/modules/transport/udp/UdpStreamingBackend.cpp:90-130 | a request is valid if and only if magic, type and lengths agree and it holds the items it announces, which are read from their offsets |
| WireFormat.NackLayout | sclient/src/modules/network/StreamClientUdp.cpp:688-709 | every field of a request at its offset |
| Bytes.XorInto | sserver/src/modules/transport/udp/UdpStreamingBackend.cpp:26-39 | the target grown with zeros and XORed byte by byte: the zero-padded XOR |
| Bytes.XorByteLaws | sclient/src/modules/network/StreamClientInternal.h:50-61 | XOR of bytes is commutative, associative, self-inverse, with neutral element 0 |
| Bytes.XorByteBits | sclient/src/modules/network/StreamClientInternal.h:50-61 | bit k of the XOR of two bytes is set if and only if bit k of exactly one of them is |
| Protocol.MessageHeaderRoundTrip | sclient/src/common/protocol/Protocol.h:39-44 | the 12-byte header decodes to what was encoded, whatever follows |
| Protocol.FragmentHeaderRoundTrip | sclient/src/common/protocol/Protocol.h:65-77 | the 56-byte fragment header decodes to what was encoded |
| Protocol.MetadataRoundTrip | sclient/src/common/protocol/Protocol.h:51-57 | the 40 bytes of frame metadata decode to what was encoded |
| Protocol.NackItemsRoundTrip | sclient/src/common/protocol/Protocol.h:115-119 | a list of 12-byte NACK items decodes to itself |
| UdpIntegrity.DataParses | sclient/src/modules/network/StreamClientUdp.cpp:149-199 | the client accepts every data datagram the sender makes, with its header and body |
| UdpIntegrity.ParityParses | sclient/src/modules/network/StreamClientUdp.cpp:149-199 | and every parity datagram |
| RtpSafety.EveryRtpFrameIsASuffix | sclient/src/modules/network/StreamClientRtp.cpp:49-192 | whatever packets of frames with distinct timestamps are lost, repeated or reordered, every emitted frame is the Annex B join of a non-empty suffix of one sent frame's NAL units, beginning with the packet that began its assembly, and it is the whole frame if and only if that was packet 0 |
| RtpSafety.RunTracks | sclient/src/modules/network/StreamClientRtp.cpp:49-192 | the inductive invariant: an undamaged assembly is what consecutive packets of one frame, from the one that began it on, make of an empty one |
| RtpSafety.StepTracks | sclient/src/modules/network/StreamClientRtp.cpp:62-189 | one packet keeps it, and emits only such a suffix |
| RtpRoundTrip.RoundTrip | sclient/src/modules/network/StreamClientRtp.cpp:62-189 | all packets in order, across 16-bit wrap: exactly one frame with exactly the NAL units sent is emitted, if and only if every NAL unit sent whole has type 1 to 23 |
| RtpRoundTrip.FrameRoundTrip | sserver/src/modules/transport/rtp/RtpPacketizer.cpp:90-174 | from `Packetize` of a frame, through the real packet bytes, back to a payload that splits into the same NAL units |
| RtpRoundTrip.DeliveredInOrder | sclient/src/modules/network/StreamClientRtp.cpp:49-192 | packets from any point to the end of a frame, in order: the client ends idle and has emitted the frame assembled if and only if it is complete and undamaged |
| RtpRoundTrip.HeadLossIsUnnoticed | sclient/src/modules/network/StreamClientRtp.cpp:62-76 | every suffix is attainable: lose the head of a frame up to any NAL unit and the rest is emitted as a frame |
| RtpRoundTrip.WholeExactly | sclient/src/modules/network/StreamClientRtp.cpp:62-76 | packets k to the last in order: a frame is emitted if and only if packet k begins a NAL unit, and it is the frame that was sent if and only if k is 0 |
| RtpRoundTrip.SuffixIsWhole | sclient/src/modules/network/StreamClientRtp.cpp:106-149 | a suffix of the NAL units joins to the whole frame, and begins with packet 0, if and only if it is all of them |
| RtpRoundTrip.LatencyTravels | sclient/src/modules/network/StreamClientRtp.cpp:87-104 | an emitted frame carries the sender's capture time and its last packet's send time if and only if they are expected and every packet had both |
| RtpRoundTrip.SameNalus | sserver/src/common/net/H264AnnexB.h:53-106 | the joined NAL units split into the NAL units they came from |
| RtpReceiver.ReceivesExactly | sclient/src/modules/network/StreamClientRtp.cpp:49-192 | any packet: taken if and only if it parses, holds a payload and has the payload type; begins a frame, damages it out of turn, and with the marker ends it, with a frame handed out if and only if that is neither empty, damaged nor cut short |
| RtpReceiver.PayloadExactly | sclient/src/modules/network/StreamClientRtp.cpp:106-149 | any payload by its first bytes: a NAL unit of type 1 to 23, a fragment that begins or continues one, or damage |
| RtpReceiver.TimestampsExactly | sclient/src/modules/network/StreamClientRtp.cpp:87-104 | the frame's timestamps are spoiled for good if and only if a packet lacks one or has another capture time; otherwise they are the newest packet's |
| RtpReassembly.RestoredExactly | sclient/src/modules/network/StreamClientRtp.cpp:106-149 | the payloads of a frame restore its NAL units if and only if every NAL unit sent whole has type 1 to 23 |
| RtpReassembly.SuffixRestored | sclient/src/modules/network/StreamClientRtp.cpp:106-149 | payloads from the middle of a frame restore a suffix of NAL units, or the first of them, a headless fragment, damages the frame |
| RtpReassembly.FuWhole | sclient/src/modules/network/StreamClientRtp.cpp:113-144 | the fragments of a NAL unit restore it, header byte included, whatever came before |
| RtpReassembly.NeverLonger | sclient/src/modules/network/StreamClientRtp.cpp:106-149 | what is reassembled undamaged is never longer than what was sent, and shorter when a NAL unit is not carried |
| RtpReassembly.DamageStays | sclient/src/modules/network/StreamClientRtp.cpp:77-149 | a damaged frame stays damaged |
| RtpPacketizer.FragmentsShape | sserver/src/modules/transport/rtp/RtpPacketizer.cpp:215-291 | at least two fragments; S on the first only, E on the last only, never both; each holds NAL bytes and fits (section 5.8 of RFC 6184) |
| RtpPacketizer.PacketsFit | sserver/src/config/AppConfig.cpp:189-224 | every packet fits the datagram size the configuration was validated against |
| RtpPacketizer.TimestampsDiffer | sserver/src/modules/transport/rtp/RtpPacketizer.cpp:178-186 | captures at least one clock tick and less than 2^32 ticks apart get different timestamps, while the product stays within 64 bits |
| RtpPacketizer.TimestampExactly | sserver/src/modules/transport/rtp/RtpPacketizer.cpp:178-186 | the timestamp is the capture time in clock ticks, rounded down, modulo 2^32, of the product 64 bits hold, or the sequence when there is no capture time |
| WireFormat.RtpHeaderLayout | sserver/src/common/net/RtpProtocol.h:119-150 | every field of an RTP header and its extension (sections 5.1 and 5.3.1 of RFC 3550) |
| WireFormat.RtpTakesExactly | sclient/src/common/net/RtpProtocol.h:214-270 | a packet parses if and only if it has version 2, no padding and room for what its header announces, and is read from those bytes |
| WireFormat.LatencyLayout | sserver/src/common/net/RtpProtocol.h:88-103 | the latency extension: profile 0x5353, capture time, send time, in network order |
| WireFormat.FuLayout | sserver/src/modules/transport/rtp/RtpPacketizer.cpp:239-278 | the two bytes in front of a fragment (section 5.8 of RFC 6184) and the NAL bytes behind them |
| RtpPacketizer.RtpPacketizer.Packetize | sserver/src/modules/transport/rtp/RtpPacketizer.cpp:90-174 | succeeds if and only if the frame is video, the payload size is over 2 and there is a NAL unit; then the packets of all NAL units with consecutive sequence numbers and one marker, and the counter advanced modulo 2^16 |
| RtpPacketizer.RtpPacketizer.PacketizeNalu | sserver/src/modules/transport/rtp/RtpPacketizer.cpp:147-171 | the packets of one NAL unit, single or fragmented |
| RtpPacketizer.RtpPacketizer.PacketizeSingleNalu | sserver/src/modules/transport/rtp/RtpPacketizer.cpp:189-211 | one packet; a malformed extension is refused, the sequence number is used up either way |
| RtpPacketizer.RtpPacketizer.PacketizeFragmentedNalu | sserver/src/modules/transport/rtp/RtpPacketizer.cpp:215-291 | one packet for each fragment, refusing what cannot be fragmented |
| RtpPacketizer.BuildFragment | sserver/src/modules/transport/rtp/RtpPacketizer.cpp:269-278 | the bytes of one FU-A packet, written in place into a buffer of its exact size |
| RtpReceiver.RtpReceiver.ProcessRtpDatagram | sclient/src/modules/network/StreamClientRtp.cpp:49-192 | state and emitted frame after one datagram are those of the specification function |
| RtpReceiver.RtpReceiver.NoteHeader | sclient/src/modules/network/StreamClientRtp.cpp:62-85 | a new frame begun, a gap noted as damage, or the next number expected |
| RtpReceiver.RtpReceiver.NoteSenderTimestamps | sclient/src/modules/network/StreamClientRtp.cpp:87-104 | the sender's timestamps taken, kept, or spoiled for the frame |
| RtpReceiver.RtpReceiver.AppendPayload | sclient/src/modules/network/StreamClientRtp.cpp:106-149 | single NAL unit, fragment start, fragment continuation, or damage |
| RtpReceiver.RtpReceiver.ResetRtpState | sclient/src/modules/network/StreamClientUdp.cpp:743-756 | the assembly is idle and empty |
| RtpDelivery.DatagramRead | sclient/src/common/net/RtpProtocol.h:214-270 | the receiver reads from a stamped packet the header, payload and timestamps it was sent with |
| RtpDelivery.PacketizedIsSent | sserver/src/modules/transport/rtp/RtpPacketizer.cpp:90-174 | the frames of the delivery theorems are those `Packetize` makes |
| RtpProtocol.WriteRtpHeader | sserver/src/common/net/RtpProtocol.h:119-150 | the header bytes, or a refusal when the extension is not whole words |
| RtpProtocol.WriteRtpHeaderToBuffer | sserver/src/modules/transport/rtp/RtpPacketizer.cpp:36-57 | the same header bytes, written field by field in place |
| RtpProtocol.HeaderRoundTrip | sclient/src/common/net/RtpProtocol.h:214-270 | parsing a written header gives back fields, extension and payload offset |
| RtpProtocol.ParsedHeaderRewritten | sclient/src/common/net/RtpProtocol.h:214-270 | writing what was parsed gives the same bytes if and only if there are no contributing sources and no empty extension |
| RtpProtocol.LatencyRoundTrip | sclient/src/common/net/RtpProtocol.h:117-148 | the latency extension decodes to what was encoded |
| RtpProtocol.UpdateRtpLatencyExtensionTransportSendTimestamp | sserver/src/common/net/RtpProtocol.h:210-235 | succeeds if and only if the datagram parses with a latency extension, and then overwrites only its send timestamp |
| RtpProtocol.LooksLatentIsLatent | sserver/src/common/net/RtpProtocol.h:210-235 | the byte checks of the in-place update pass if and only if the parser finds a latency extension, and locate it |
| RtpProtocol.StampKeepsTheRest | sserver/src/common/net/RtpProtocol.h:210-235 | a stamped datagram parses to the same fields, header size, capture time and payload, with the new send time |
| RtpProtocol.WriteBe | sserver/src/common/net/RtpProtocol.h:65-86 | big-endian bytes written in place, the rest unchanged |
| Bytes.BigEndianRoundTrip | sclient/src/common/net/RtpProtocol.h:65-114 | big-endian integers of any width read back |
| Bytes.LittleEndianRoundTrip | sclient/src/common/protocol/Protocol.h:36-120 | little-endian integers of any width read back |
| Bytes.BigEndianDigit | sserver/src/common/net/RtpProtocol.h:65-86 | each byte of a big-endian integer is its digit |
| Bytes.LittleEndianDigit | sclient/src/common/protocol/Protocol.h:36-120 | and of a little-endian one |
| AnnexB.NalusWellFormed | sserver/src/common/net/H264AnnexB.h:53-77 | for every byte string the NAL units found are non-empty, contain no 00 00 01 and do not end in 0 |
| AnnexB.SplitJoin | sserver/src/common/net/H264AnnexB.h:53-106 | splitting the four-byte-start-code join of well-formed NAL units gives them back |
| AnnexB.SplitIsStable | sserver/src/common/net/H264AnnexB.h:53-106 | splitting, joining and splitting again gives the same NAL units, for every byte string |
| AnnexB.SplitExactly | sserver/src/common/net/H264AnnexB.h:53-77 | for every byte string the NAL units found are exactly what stands between consecutive start codes, in order, each without the zeros before the next one; nothing before the first counts, and behind an unlisted start code there is nothing |
| AnnexB.IdrScanAgrees | sclient/src/common/net/H264AnnexB.h:59-86 | a start code followed by an IDR header exists if and only if some NAL unit of the split has type 5 |
| AnnexB.HasIdrNalUnit | sclient/src/common/net/H264AnnexB.h:59-86 | the client's scan answers exactly whether the server's splitter finds an IDR NAL unit |
| AnnexB.FindAnnexBStartCode | sserver/src/common/net/H264AnnexB.h:24-51 | the first start code at or after the offset, three or four bytes long |
| AnnexB.SplitAnnexBNalus | sserver/src/common/net/H264AnnexB.h:53-77 | the views are in range and show exactly the NAL units of the stream |
| AnnexB.NextNalu | sserver/src/common/net/H264AnnexB.h:57-76 | one turn of the loop: the NAL unit, without trailing zeros, and the next start code |
| AnnexB.TrimZeros | sserver/src/common/net/H264AnnexB.h:64-67 | the end moved back over zero bytes |
| AnnexB.AppendAnnexBNalu | sclient/src/common/net/H264AnnexB.h:37-47 | a start code and the bytes appended, unless there are none |
| AnnexB.AppendAnnexBStartCode | sclient/src/common/net/H264AnnexB.h:19-28 | 00 00 00 01 appended |
| AnnexB.NextStartIsFirst | sserver/src/common/net/H264AnnexB.h:24-51 | no start code lies before the one found |
| AdaptiveJitter.ReturnsToBypassAreRare | sclient/src/modules/network/AdaptiveJitterBuffer.h:226-287 | in a run of N evaluated samples from reset, LowLatency goes to Bypass at most N/30 times |
| AdaptiveJitter.ReturnsCanBeAsFrequent | sclient/src/modules/network/AdaptiveJitterBuffer.h:226-287 | the bound is attained for every count, by a jitter history with the percentiles its window has, whatever the refresh schedule and the clock |
| AdaptiveJitter.SmoothIsLeftSlowly | sclient/src/modules/network/AdaptiveJitterBuffer.h:271-285 | with a positive clock that never goes back, Smooth is left for LowLatency at most once in three seconds of the run |
| AdaptiveJitter.NoJump | sclient/src/modules/network/AdaptiveJitterBuffer.h:226-287 | no step goes directly between Bypass and Smooth, in any run |
| AdaptiveJitter.SwitchHasEvidence | sclient/src/modules/network/AdaptiveJitterBuffer.h:217-287 | every switch has the documented evidence in the samples before it |
| AdaptiveJitter.SwitchesExactly | sclient/src/modules/network/AdaptiveJitterBuffer.h:217-287 | the converse too: the samples since the mode was entered decide the next mode; ten in a row over 1 ms end Bypass, twenty in a row under 0.5 ms lead back, otherwise two percentiles in a row over 10 ms lead to Smooth, and three seconds of percentiles under 5 ms end Smooth |
| AdaptiveJitter.QualityExactly | sclient/src/modules/network/AdaptiveJitterBuffer.h:181-193 | which percentile, loss or skip rate makes the network at least how bad |
| AdaptiveJitter.LimitsExactly | sclient/src/modules/network/AdaptiveJitterBuffer.h:196-215 | the limits of each quality against the configured ones, rounding and minima included |
| AdaptiveJitter.DelayExactly | sclient/src/modules/network/AdaptiveJitterBuffer.h:290-312 | the delay is the larger one of the configured one and the percentile times the mode's factor, in whole nanoseconds; none in Bypass |
| AdaptiveJitter.WorseGetsMoreExactly | sclient/src/modules/network/AdaptiveJitterBuffer.h:196-215 | worse quality never gets less waiting time if and only if the base wait is at least 40 ms, never fewer frames if and only if the base count is at least 4 |
| AdaptiveJitter.AssessMonotone | sclient/src/modules/network/AdaptiveJitterBuffer.h:181-193 | quality only gets worse as percentile, loss and skip rate grow |
| AdaptiveJitter.SmootherHoldsLonger | sclient/src/modules/network/AdaptiveJitterBuffer.h:290-312 | a smoother mode never has the smaller delay, as long as its factor is not the smaller one |
| AdaptiveJitter.AdaptiveJitterBuffer.RecordJitter | sclient/src/modules/network/AdaptiveJitterBuffer.h:92-105 | the sample joins the window; quality, mode machine and limits follow from the percentile of all but at most the three newest samples, and only with ten samples or more in auto mode |
| AdaptiveJitter.AdaptiveJitterBuffer.EvaluateStateTransition | sclient/src/modules/network/AdaptiveJitterBuffer.h:226-287 | the mode machine's step |
| AdaptiveJitter.AdaptiveJitterBuffer.AssessNetworkQuality | sclient/src/modules/network/AdaptiveJitterBuffer.h:181-193 | the quality of percentile, loss and skip rate |
| AdaptiveJitter.AdaptiveJitterBuffer.ApplyQualityParams | sclient/src/modules/network/AdaptiveJitterBuffer.h:196-215 | the limits of the quality |
| AdaptiveJitter.AdaptiveJitterBuffer.TargetDelayNs | sclient/src/modules/network/AdaptiveJitterBuffer.h:138-140 | the delay of the active mode and the window's percentile |
| AdaptiveJitter.AdaptiveJitterBuffer.Reset | sclient/src/modules/network/AdaptiveJitterBuffer.h:154-167 | the initial machine and limits, an empty window, the auto flag kept |
| LatencyStats.SummaryOrdered | sclient/src/common/metrics/LatencyStats.h:177-231 | minimum and maximum are samples of the window and bound it; min <= p50 <= p95 <= p99 <= max, and the average lies between |
| LatencyStats.SummaryExactly | sclient/src/common/metrics/LatencyStats.h:177-231 | minimum, maximum and the three percentiles are those of the window's samples in ascending order, each percentile its fraction of the way through, interpolated; the average is their sum over their count |
| LatencyStats.SumConcat | sclient/src/common/metrics/LatencyStats.h:177-214 | the ring's two stretches sum to the window's sum |
| LatencyStats.PercentilesOrdered | sclient/src/common/metrics/LatencyStats.h:221-231 | percentiles of a sorted list grow with the percentile and stay between its ends |
| LatencyStats.SortedIsSorted | sclient/src/common/metrics/LatencyStats.h:204-205 | sorting orders the samples and keeps each as often as it occurs |
| LatencyStats.RingAdvances | sclient/src/common/metrics/LatencyStats.h:73-77 | overwriting the ring at its write index is dropping the oldest sample and appending the new one |
| LatencyStats.LatencyStats.constructor | sclient/src/common/metrics/LatencyStats.h:47-57 | an empty window |
| LatencyStats.LatencyStats.Record | sclient/src/common/metrics/LatencyStats.h:64-81 | the history grows by the sample, the ring still holds its newest samples, a valid cache stays as it was |
| LatencyStats.LatencyStats.Snapshot | sclient/src/common/metrics/LatencyStats.h:108-111 | the full summary as of fewer than refresh-interval records ago |
| LatencyStats.LatencyStats.Format | sclient/src/common/metrics/LatencyStats.h:129-143 | the exact summary of the whole history |
| LatencyStats.LatencyStats.RefreshSummary | sclient/src/common/metrics/LatencyStats.h:154-169 | when the cache is rebuilt and when it is kept |
| LatencyStats.LatencyStats.BuildSummary | sclient/src/common/metrics/LatencyStats.h:177-214 | the ring, in one stretch or two, summarised as the last min(n, max) samples |
| LatencyStats.LatencyStats.Reset | sclient/src/common/metrics/LatencyStats.h:114-122 | the history is empty again |
| TcpSession.EveryInterleaving | sserver/src/modules/transport/tcp/TcpClientSession.cpp:68-271 | in every interleaving of one producer, one consumer and the threads that end the session: the queue stays within its bound, offered = refused + overflow + stale + failed + cleared + sent + in hand + queued, and order is kept |
| TcpSession.RunKeeps | sserver/src/modules/transport/tcp/TcpClientSession.cpp:68-271 | the invariant behind it, the producer's stale view of the depth and of the running flag included |
| TcpSession.KeyframesProtected | sserver/src/modules/transport/tcp/TcpClientSession.cpp:116-134 | in every interleaving a frame that is no keyframe evicts none; a keyframe is evicted only when every queued frame is one, and then it is the oldest |
| TcpSession.KeyframesAreNotRefused | sserver/src/modules/transport/tcp/TcpClientSession.cpp:119-125 | a keyframe is never refused |
| TcpSession.DropsExactlyStale | sserver/src/modules/transport/tcp/TcpClientSession.cpp:219-231 | in every interleaving the consumer sends every keyframe; any other frame it drops, counted as stale, if and only if there is a wait limit, the frame has a time not in the future, and it waited longer |
| TcpSession.RefusesExactly | sserver/src/modules/transport/tcp/TcpClientSession.cpp:116-125 | in every interleaving a frame is refused if and only if keyframes are protected, it is none, the queue was full when measured and now holds keyframes alone |
| TcpSession.MeasuresExactly | sserver/src/modules/transport/tcp/TcpClientSession.cpp:96-110 | a frame is stamped when offered and judged by the depth when measured; a full queue counts as backpressure |
| TcpSession.OldestGoes | sserver/src/modules/transport/tcp/TcpClientSession.cpp:134-140 | without that protection a full queue loses its oldest frame, counted |
| TcpSession.FailureEndsSession | sserver/src/modules/transport/tcp/TcpClientSession.cpp:232-271 | after a failed send no frame is offered, taken or sent any more, whatever the threads do |
| TcpSession.StopEmpties | sserver/src/modules/transport/tcp/TcpClientSession.cpp:68-89 | `Stop` loses exactly what is queued; with no frame on its way in, nothing follows but the frame in the consumer's hand |
| TcpSession.TcpClientSession.EnqueueFrame | sserver/src/modules/transport/tcp/TcpClientSession.cpp:96-146 | the producer's atomic sections, run without interruption, are its four steps |
| TcpSession.TcpClientSession.MeasureDepth | sserver/src/modules/transport/tcp/TcpClientSession.cpp:102-110 | the first section: timestamp, depth, backpressure |
| TcpSession.TcpClientSession.CheckIncoming | sserver/src/modules/transport/tcp/TcpClientSession.cpp:116-125 | the second: refusal of a frame that is no keyframe when only keyframes are queued |
| TcpSession.TcpClientSession.PushIncoming | sserver/src/modules/transport/tcp/TcpClientSession.cpp:127-145 | the third: eviction by policy, and the push |
| TcpSession.TcpClientSession.SendTurn | sserver/src/modules/transport/tcp/TcpClientSession.cpp:211-236 | one turn of the send loop: pop, stale drop (which frames: `DropsExactlyStale`), send, stop on failure |
| TcpSession.TcpClientSession.DropStale | sserver/src/modules/transport/tcp/TcpClientSession.cpp:219-231 | a frame that waited too long is dropped unless it is a keyframe |
| TcpSession.TcpClientSession.Stop | sserver/src/modules/transport/tcp/TcpClientSession.cpp:68-89 | the flag cleared and the queue emptied: what was queued is lost and counted in the model only |
| ThreadSafeQueue.ThreadSafeQueue.PushDropSelective | sserver/src/common/concurrency/ThreadSafeQueue.h:46-63 | room made by dropping the oldest match, or else the oldest, then the push; the count is exact |
| ThreadSafeQueue.ThreadSafeQueue.PushDropOldestCountDropped | sserver/src/common/concurrency/ThreadSafeQueue.h:31-43 | room made at the front, then the push; the count is exact |
| ThreadSafeQueue.ThreadSafeQueue.AnyMatching | sserver/src/common/concurrency/ThreadSafeQueue.h:105-108 | whether some element matches |
| ThreadSafeQueue.ThreadSafeQueue.TryPop | sserver/src/common/concurrency/ThreadSafeQueue.h:65-92 | the front element, if there is one |
| ThreadSafeQueue.RoomForOne | sserver/src/common/concurrency/ThreadSafeQueue.h:46-63 | a queue within its bound loses at most one element, only when full |
| ThreadSafeQueue.RoomInFront | sserver/src/common/concurrency/ThreadSafeQueue.h:31-43 | dropping the oldest keeps exactly the newest |
| ThreadSafeQueue.FirstMatchIsFirst | sserver/src/common/concurrency/ThreadSafeQueue.h:104-108 | no element before the one found matches |
| TcpReceiving.FramesReadBack | sclient/src/modules/network/StreamClientTcp.cpp:15-92 | any frames within the limit, written one after the other, are read back identically under any chunking: a prefix whatever the connection does, all of them when it delivers |
| TcpReceiving.FrameReadBack | sclient/src/modules/network/StreamClientTcp.cpp:50-92 | one frame likewise, with its metadata |
| TcpReceiving.LargeIsNotReadBack | sclient/src/modules/network/StreamClientTcp.cpp:61-67 | a frame over the 50 MiB limit is never read back |
| TcpReceiving.UnexpectedMetadataIsPayload | sclient/src/modules/network/StreamClientTcp.cpp:68-83 | a client that does not expect the embedded metadata reads it as the first forty bytes of the payload |
| TcpReceiving.MissingMetadataIsPayload | sclient/src/modules/network/StreamClientTcp.cpp:68-83 | the opposite mismatch: the first forty bytes of the payload are read as metadata; a shorter payload is refused and left in the stream to be taken for the next header |
| WireFormat.TcpFrameLayout | sserver/src/modules/transport/tcp/TcpClientSession.cpp:296-330 | every field of a frame on the connection at its offset |
| TcpReceiving.ReadTakes | sclient/src/modules/network/StreamClientTcp.cpp:15-48 | reading takes a beginning of the stream, and on success exactly what was asked for |
| TcpReceiving.ReadSucceeds | sclient/src/modules/network/StreamClientTcp.cpp:15-48 | a connection that delivers lets every read within the stream succeed, with fewer than ten timeouts in a row |
| TcpReceiving.ReadsExactly | sclient/src/modules/network/StreamClientTcp.cpp:15-48 | a read succeeds if and only if the stream is long enough and the chunks have room for it before any error, any close and ten timeouts without a chunk in between |
| TcpReceiving.TakesExactly | sclient/src/modules/network/StreamClientTcp.cpp:50-92 | of any bytes a connection delivers, a frame is taken if and only if magic and length are right and all of it is there; it is read from its offsets, and of a refused one only the header is consumed |
| TcpReceiving.TcpStreamClient.ReceiveAll | sclient/src/modules/network/StreamClientTcp.cpp:15-48 | result, bytes and what is left of the stream after any sequence of chunks, interruptions and timeouts |
| TcpReceiving.TcpStreamClient.ReceiveTcpFrame | sclient/src/modules/network/StreamClientTcp.cpp:50-92 | header, limit, metadata and payload, with every failure |
| TcpSending.SendMessageParts | sserver/src/modules/transport/tcp/TcpClientSession.cpp:334-399 | what the socket took is a beginning of header ++ metadata ++ payload, all of it if and only if the call succeeds, and as much as the outcomes let through |
| TcpSending.SendsExactly | sserver/src/modules/transport/tcp/TcpClientSession.cpp:357-398 | all is sent if and only if the calls have room for it before one fails or takes nothing; an interrupted one is repeated |
| TcpSending.SendFrame | sserver/src/modules/transport/tcp/TcpClientSession.cpp:296-330 | the same for the frame's bytes |
| TcpSending.Advance | sserver/src/modules/transport/tcp/TcpClientSession.cpp:375-395 | after a partial write the vectors hold exactly the bytes not sent |
| TcpSending.CountWhole | sserver/src/modules/transport/tcp/TcpClientSession.cpp:375-381 | how many vectors went out whole, and how much of the next |
| TcpSending.MoveFront | sserver/src/modules/transport/tcp/TcpClientSession.cpp:383-389 | the remaining vectors moved to the front in place |
| TcpSending.Gather | sserver/src/modules/transport/tcp/TcpClientSession.cpp:343-355 | the non-empty parts, in order |
| Yuyv.ConvertYuyv422ToI420Neon | sserver/src/modules/encoding/video/x264/X264VideoEncoderBackend.cpp:21-80 | the vectorised conversion writes exactly the specified planes and nothing else, for every even width and any height |
| Yuyv.ConvertYuyv422ToI420Scalar | sserver/src/modules/encoding/video/x264/X264VideoEncoderBackend.cpp:86-115 | the scalar conversion writes exactly the same planes |
| Yuyv.LumaAt | sserver/src/modules/encoding/video/x264/X264VideoEncoderBackend.cpp:95-103 | luma sample (row, col) is byte 2*col of its row |
| Yuyv.ChromaAt | sserver/src/modules/encoding/video/x264/X264VideoEncoderBackend.cpp:105-114 | chroma sample (pair, col) is byte 4*col + 1, or + 3, of the upper row of the pair |
| Yuyv.VectorsMeanPlanes | sserver/src/modules/encoding/video/x264/X264VideoEncoderBackend.cpp:42-53 | de-interleaving and unzipping 32 bytes gives the luma of 16 pixels and their chroma |
| Yuyv.NeonEvenRow | sserver/src/modules/encoding/video/x264/X264VideoEncoderBackend.cpp:40-62 | an even row: whole vectors, then the tail |
| Yuyv.NeonOddRow | sserver/src/modules/encoding/video/x264/X264VideoEncoderBackend.cpp:64-78 | an odd row: luma only |
| Yuyv.ScalarLumaRow | sserver/src/modules/encoding/video/x264/X264VideoEncoderBackend.cpp:97-103 | one row of luma behind the rows before it |
| Yuyv.ScalarChromaRow | sserver/src/modules/encoding/video/x264/X264VideoEncoderBackend.cpp:106-114 | one line of chroma |

## Left out

- RtpReceiver.RtpReceiver.ProcessRtpDatagram: stops at the completed frame; the jitter buffer behind it keys on RTP timestamps, so the sequence claims do not apply there.
- RtpSafety.EveryRtpFrameIsASuffix: assumes at most 65536 packets a frame, NAL units of type 1 to 23 when sent whole, and distinct timestamps per source; `RtpPacketizer.TimestampsDiffer` says when the packetizer's timestamps are distinct.
- TcpSession.EveryInterleaving: one producer and one consumer, as in the server; several producers could each act on a stale depth.
- UdpSender.UdpStreamingBackend.HandleNackRequest: pruning and lookup are one step; the server releases the cache's lock in between, where another frame can be cached.
- UdpReceiveLoop.LoopIsDisciplined: the clock values of one turn are unconstrained, so more sequences are covered than the loop's own.
- TcpSending.SendMessageParts: the end of the outcome list stands for the session being stopped.
- TcpReceiving.TcpStreamClient.ReceiveAll: the end of the outcome list stands for a call that is never answered.
- AdaptiveJitter.ComputeDelayForMode: the conversion to an unsigned integer is modelled for targets that are not negative.
- AdaptiveJitter.SwitchesExactly: assumes the steady clock the controller reads, positive and never going back.
- LatencyStats.SummaryOrdered: averages and percentiles are over the reals; floating-point rounding is not modelled.
- Yuyv.ConvertYuyv422ToI420Neon: the vector instructions are modelled by their element-wise meaning; odd widths are excluded, both loops read past such a row.
- 64-bit counters and statistics are unbounded, except where a sequence or timestamp wraps on the wire or in a comparison.
- In-place update of map values through iterators and references in the C++ client; the model reassigns map entries, so aliasing is not captured.
- The `header` field of a reassembled UDP frame is whichever datagram came first; only payload and metadata are claimed.
- Null pointers: frames and output parameters are always present.
- Statistics that drive nothing: send and wait times, reorder counts, bytes sent, log intervals.
- Injected loss and jitter for tests: assumed off.
- Sockets, select loops, thread start and join, real clocks: replaced by step inputs and lists of outcomes.
- Masks and shifts on bytes are written as division and remainder.
- Logging, command line and configuration parsing; only the numeric bounds of the transport configuration appear, as preconditions.
- Rendering, capture, encoding and decoding: foreign libraries and hardware.
- Client registry, session description, packet pacing, application lifecycle, the bounded queue: only easy members.
