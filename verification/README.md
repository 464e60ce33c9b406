# Contiki network applications, verified

This project models four groups of network code from the Contiki tree and
proves what they are for: a page-wise dissemination protocol, a broadcast with
negative acknowledgements, the gateway program at the end of the serial line,
and three small pieces of fixed-width arithmetic. `dafny verify dfyconfig.toml`
checks everything.

**Deluge** (`DelugeNode`, `DelugeNetwork`, `DelugeProgress`, `DelugeTimer`,
`DelugeRuns`, `DelugeHandlers`, `DelugeChecksum`, `DelugeObject`). A node holds an
object as pages of four packets. Nodes advertise summaries, send version vectors,
ask for the missing packets of one page and assemble pages in order. `DelugeNode` gives every handler as a function on node values;
`DelugeObject.Object` computes the same in place, field by field. `DelugeNetwork`
puts any number of nodes on a medium where a message, once sent, stays available
for ever and to everybody: loss, duplication and reordering are all runs of it.
The inductive invariant over nodes and messages gives network safety;
`DelugeProgress` counts packets over whole runs and shows that one loss-free round
finishes a page and one round per page the update. `DelugeTimer` says in which runs
the request timer outlives the update. `DelugeRuns` builds runs: it says from which
reachable states the update can still spread to every node, and for which updates
it can spread at all. The code drops every profile of a version above 1, because
its length test multiplies by a version number; the model has the test as it is.
`DelugeHandlers` says what single handlers do for the protocol: whose advertisement
draws a request, what a request gets, what a damaged packet does. `DelugeChecksum`
relates the shifts of the CRC to the division bit by bit and shows that one damaged
byte is always noticed.

**Codeprop** (`Codeprop`, `CodepropNetwork`, `CodepropRuns`, `CodepropNacks`,
`CodepropNode`). One sender, any number of receivers, packets and NACKs that may be
lost, doubled or reordered. Safety (a receiver holds a prefix of the named image, a program starts only when
whole), packet boundaries, coverage of the image by the sender, and completion by
a sweep. `CodepropRuns` says which receivers can still get the image at all, `CodepropNacks`
that a receiver that lags behind recovers by its own NACK.
`CodepropNode` holds the two threads in place; the sender's broadcast
loop ends whatever NACKs arrive in finitely many pauses.

**The tunslip gateway** (`Checksum`, `IpCheck`, `IpDetect`, `DhcpOptions`, `DhcpPads`,
`DhcpRelay`, `Slip`). The one's complement sum with its loop and its laws; the
verdict on a packet, the damage it is sure to find, and the re-stamping of an IP id,
on hosts of either byte order; the DHCP
option area as type-length-value items and the two rewritings of it, with the
packet built for the client and what PADs and short name servers do to it; SLIP
framing from queue to decoder.

**Arithmetic** (`Base64`, `ConfigRounding`, `GlossyClock`). The base64 decoder of
the shell against an encoder written from section 4 of RFC 4648; milliseconds to
timer ticks and back; the reference time of a node that misses floods. The widths
of the platform (16-bit `int` and `rtimer_clock_t`, 32-bit `unsigned long`) are
written out as remainders.

Where a promise holds only under a condition, the condition is part of the
theorem as an if-and-only-if: `ServerReadsRequest` (END must be the last byte),
`PacketArrivesIff`, `DecodingInvertsEncoding` (at most 57 bytes), `RoundTripIff`
(at least 1000 ticks a second), `JoinCorrectIff`, `SweepCompletesIff`,
`CanCompleteIff`, `UpdateCanSpreadIff`, `TimerStrandedIff`, `StrandedReachableIff`,
`ReplyRightIff`, `PadsBeforeEndIff`, `ServerIsOwnIff`, `OptionsFitIff`,
`SummaryDrawsRequestIff`, `ProfileStartsIff`, `PageServedIff`, `PayloadDamageIff`, `SendFitsIff`,
`PlatformRoundTripIff`, `TimerExactIff`, `GuardGrowsIff`, `ResyncExactIff`. `PadLosesOptions`,
`ShortServerReadsOn`, `EmptyServersFitIff`, `TimerOutlivesUpdate`,
`VersionTwoNeverStarts`, `LeftInOldSession`, `OnlyCompleteNodesServe` and
`DamagedPacketSpoilsSlot` are inputs on which the code does
not do what it is for.

## Model

| member | source | states |
|---|---|---|
| DelugeNetwork.NetworkSafety | contiki/apps/deluge/deluge.c:247-614 | in every run of any number of nodes under loss, duplication and reordering, a node whose version is v1 stores exactly the new image; an updating node holds the right bytes in all pages below `current_rx_page` and in every slot of `current_page` whose bit is set |
| DelugeNetwork.FlightSafety | contiki/apps/deluge/deluge.c:247-274 | no request for the old version is ever in flight; every data packet in flight is the exact slice of the new image with its checksum |
| DelugeNetwork.NoHandlerGetsStuck | contiki/apps/deluge/deluge.c:349-505 | in every reachable state any message in flight can be delivered to any node, and any transmit timer can fire, without leaving the page and buffer bounds |
| DelugeNetwork.SummariesAreTrue | contiki/apps/deluge/deluge.c:276-296 | in every run, as long as a summary of the new version is in flight some node stores all the pages it announces; `SummaryTellsPages` has the other half |
| DelugeNetwork.RunKeepsInv | contiki/apps/deluge/deluge.c:616-650 | the network invariant holds along every run; messages are never withdrawn |
| DelugeNetwork.NextKeepsInv | contiki/apps/deluge/deluge.c:616-650 | every enabled step (delivery with the tests of the dispatcher, summary, profile, request or transmit timer) keeps the network invariant |
| DelugeNetwork.NewProfilePassesIff | contiki/apps/deluge/deluge.c:641-645 | a complete node's profile passes the length test if and only if the new version is 1 and the object has at most 123 pages: the code multiplies the page count by the first page's version, and a broadcast holds 128 bytes |
| DelugeNetwork.SummaryKeepsInv | contiki/apps/deluge/deluge.c:298-347 | whatever summary arrives, a node that is idle or done is not changed by it at all, and an updating one stays updating |
| DelugeNetwork.ProfileKeepsInv | contiki/apps/deluge/deluge.c:552-614 | a v1 profile that is handled turns exactly the idle nodes into updating ones, at page 0 with nothing received; it changes no other node |
| DelugeNetwork.RequestKeepsInv | contiki/apps/deluge/deluge.c:396-427 | a v1 request changes only nodes that have the complete new image |
| DelugeNetwork.PacketCompletesPage | contiki/apps/deluge/deluge.c:473-503 | the packet that completes a page leaves the image's page in the file and the node done, or at the next page with nothing received |
| DelugeNetwork.PacketKeepsInv | contiki/apps/deluge/deluge.c:429-505 | a right packet keeps the node invariant whatever its page and number, and changes only updating nodes |
| DelugeNetwork.PagePacketsExact | contiki/apps/deluge/deluge.c:365-374 | a message is sent for a page if and only if it is one of the selected packets, with its own slice, number and checksum |
| DelugeNode.PatchSlices | contiki/apps/deluge/deluge.c:452-453 | copying a packet into its slot changes that slot to the payload and no other slot |
| DelugeNode.SlicesDetermine | contiki/apps/deluge/deluge.c:365-374 | two pages with the same four packets are the same page |
| DelugeHandlers.SummaryTellsPages | contiki/apps/deluge/deluge.c:276-296 | a summary names the version the node is updating to, and exactly as many pages as it has of it |
| DelugeHandlers.SummaryDrawsRequestIff | contiki/apps/deluge/deluge.c:276-347 | an updating node that hears another's advertisement goes to RX with its request timer armed, and asks for its current page, if and only if the other has more pages of the new version; otherwise nothing changes |
| DelugeHandlers.OnlyCompleteNodesServe | contiki/apps/deluge/deluge.c:396-427 | that request is answered by complete nodes; counterexample: a node still updating ignores it, although its own summary asked for it |
| DelugeHandlers.ProfileStartsIff | contiki/apps/deluge/deluge.c:528-614 | an idle node is started, into RX and asking for all of page 0, by the profile of exactly the complete nodes, provided the length test can be passed; the profile of an idle or an updating node changes nothing |
| DelugeHandlers.AdoptedPages | contiki/apps/deluge/deluge.c:594-600 | a page takes the larger of its version and the one named, and is emptied exactly if that is new |
| DelugeHandlers.ProfileTakenUp | contiki/apps/deluge/deluge.c:552-614 | a profile of a newer version sends any node back to the first page it lacks or that the vector names newer, drops what it was sending and keeps what it has stored; any other profile is ignored |
| DelugeHandlers.FreshObject | contiki/apps/deluge/deluge.c:199-231 | a freshly disseminated object is advertised whole, has no timer of a request or a transmission running, and no summary of pages it has draws a request |
| DelugeHandlers.PageServedIff | contiki/apps/deluge/deluge.c:396-427 | the page number of a request goes through a signed byte: a node can send a page it has if and only if it is one of the first 128 |
| DelugeHandlers.TwoRequestsARound | contiki/apps/deluge/deluge.c:247-274 | a round has two requests: after the first the timer runs on, after the second it does not and the round is over |
| DelugeHandlers.RequestAsksMissing | contiki/apps/deluge/deluge.c:247-274 | a request names the new version, the current page and exactly the packets it lacks |
| DelugeHandlers.AnswerIsMissing | contiki/apps/deluge/deluge.c:349-427 | a complete node that was not transmitting answers with exactly the packets the requester lacks, each with its own bytes of the image and their checksum |
| DelugeHandlers.PacketsInOrder | contiki/apps/deluge/deluge.c:365-374 | packets of a page are sent in order, each once |
| DelugeHandlers.PageIsItsPackets | contiki/apps/deluge/deluge.c:365-374 | a page of 128 bytes is its four packets of 32 one behind the other |
| DelugeHandlers.TransmissionEnds | contiki/apps/deluge/deluge.c:349-394 | after a transmission nothing is left to send, the TX state and its timer are over and the object is unchanged |
| DelugeHandlers.NothingToSend | contiki/apps/deluge/deluge.c:378-394 | a transmit timer that finds nothing to send runs out and changes nothing else |
| DelugeHandlers.LeavingDisarms | contiki/apps/deluge/deluge.c:125-142 | leaving a state disarms that state's timer and no other |
| DelugeHandlers.WrongChecksumIgnored | contiki/apps/deluge/deluge.c:452-459 | a packet with a wrong checksum changes no page, nothing in the file and neither version nor position |
| DelugeHandlers.DamagedPacketIgnored | contiki/apps/deluge/deluge.c:429-505 | in every node state of an update, a packet of which one byte was damaged on the way is not recorded |
| DelugeHandlers.DamagedPacketSpoilsSlot | contiki/apps/deluge/deluge.c:450-459 | counterexample: its bytes are copied before the checksum is looked at, so the node stays fit to assemble the image if and only if it had not received that packet before |
| DelugeChecksum.CrcIsBitSerial | contiki/core/lib/crc16.c:47-64 | the shifts of the code are eight steps of the division by x^16 + x^12 + x^5 + 1 |
| DelugeChecksum.OneDamagedByteShows | contiki/apps/deluge/deluge.c:112-123 | two buffers that differ in one byte never have the same checksum |
| DelugeProgress.UpdateTakesExactlyAllPackets | contiki/apps/deluge/deluge.c:442-482 | over every run, a node that starts on v0 is on v1 if and only if it has accepted exactly 4 novel packets per page; it never accepts more, and what is missing is the rest |
| DelugeProgress.DeliveryCounts | contiki/apps/deluge/deluge.c:429-505 | a delivery adds one held packet if it is novel and none if it is a duplicate, out of turn or no packet; a profile costs none |
| DelugeProgress.RunCounts | contiki/apps/deluge/deluge.c:442-482 | along any run the packets a node holds grow by exactly the novel ones delivered to it |
| DelugeProgress.VersionTracksHeld | contiki/apps/deluge/deluge.c:481-482 | a node is on v1 exactly when no packet is missing |
| DelugeProgress.RoundFinishesPage | contiki/apps/deluge/deluge.c:247-480 | whatever part of a page an updating node holds, its request served by a complete node, with the served packets delivered in any order and with any extra duplicates, leaves the page complete and written and `current_rx_page` one further |
| DelugeProgress.ServedFinishesPage | contiki/apps/deluge/deluge.c:349-480 | whatever part of a page a node holds, the packets a complete node sends for what is missing finish it, in any order |
| DelugeProgress.ServedCoversRequest | contiki/apps/deluge/deluge.c:349-427 | a complete node sends every packet that was asked for, cut from the right place |
| DelugeProgress.ServedOnlyPage | contiki/apps/deluge/deluge.c:349-427 | and no packet of another page or with other content |
| DelugeProgress.RequestsMerge | contiki/apps/deluge/deluge.c:416-422 | two requests for one page before the transmit timer fires are both served: every packet either of them asks for is sent |
| DelugeProgress.LossFreeUpdate | contiki/apps/deluge/deluge.c:247-650 | a complete node's profile takes an idle node to page 0 of the update if its length test can be passed and leaves it unchanged otherwise; after it one loss-free round of summary, request and packets per page, each with any complete node, gives v1 with exactly the new image |
| DelugeProgress.RoundsFinishUpdate | contiki/apps/deluge/deluge.c:247-505 | from any point of an update, as many loss-free rounds as pages remain finish it |
| DelugeProgress.TraceFillsPage | contiki/apps/deluge/deluge.c:450-480 | packets of one page in any order and multiplicity either finish it or leave every one of them recorded |
| DelugeProgress.LateDuplicates | contiki/apps/deluge/deluge.c:442-451 | packets of a finished page change nothing |
| DelugeTimer.TimerStrandedIff | contiki/apps/deluge/deluge.c:247-505 | in every run of any number of nodes, a node has an armed request timer whose callback would leave the page table if and only if the packet that finished its update found the timer armed and the node no longer in RX |
| DelugeRuns.TimerOutlivesUpdate | contiki/apps/deluge/deluge.c:247-274 | from every reachable state with a complete node, a node with two pages or more still to come can run into an armed request timer with no page for the callback to look up, if and only if it has been told of the update or a profile can still tell it |
| DelugeRuns.StrandedReachableIff | contiki/apps/deluge/deluge.c:247-274 | such a timer is reachable from freshly started nodes if and only if the new version is 1 and the object has 2 to 123 pages |
| DelugeRuns.UpdateCanSpreadIff | contiki/apps/deluge/deluge.c:247-650 | from every reachable state with a complete node, whatever was lost, doubled or reordered before, some continuation gives the new version and the exact image to every node, if and only if the new version is 1 and the object has at most 123 pages, or every node has already been told of the update |
| DelugeRuns.VersionTwoNeverStarts | contiki/apps/deluge/deluge.c:641-645 | counterexample: in no run of a node with version 2 and a node with an older one does the second ever leave its version |
| DelugeRuns.RunKeepsTold | contiki/apps/deluge/deluge.c:552-650 | a node that was told of the update stays so along every run, and one that was not is never told if the length test cannot be passed |
| DelugeRuns.RoundRuns | contiki/apps/deluge/deluge.c:247-505 | one loss-free round of summary, request, service and packets is a run of the network and finishes a page |
| DelugeRuns.RunKeepsDone | contiki/apps/deluge/deluge.c:429-614 | no run takes the new version away from a node |
| DelugeObject.Object.constructor | contiki/apps/deluge/deluge.c:199-231 | the fields of a freshly disseminated object are those of the initial node |
| DelugeObject.Object.Become | contiki/apps/deluge/deluge.c:125-142 | leaving a state stops that state's timers and changes nothing else |
| DelugeObject.Object.HighestAvailablePage | contiki/apps/deluge/deluge.c:233-245 | the loop finds the first incomplete page, or the page count |
| DelugeObject.Object.ComputeChecksum | contiki/apps/deluge/deluge.c:112-123 | the loop computes the CRC fold of the buffer |
| DelugeObject.Object.RequestTimerFires | contiki/apps/deluge/deluge.c:247-274 | the request names the current page and exactly the missing packets; the second one in a row ends the round |
| DelugeObject.Object.OnSummary | contiki/apps/deluge/deluge.c:298-347 | in place, the effect of a summary on values |
| DelugeObject.Object.OnRequest | contiki/apps/deluge/deluge.c:396-427 | in place, the effect of a request, with the page number narrowed to a signed byte |
| DelugeObject.Object.CutPage | contiki/apps/deluge/deluge.c:365-374 | the loop emits exactly the selected packets in order |
| DelugeObject.Object.SendPage | contiki/apps/deluge/deluge.c:349-376 | the stored page's selected packets are sent and the transmit set is emptied |
| DelugeObject.Object.TransmitTimerFires | contiki/apps/deluge/deluge.c:378-394 | in place, the effect of the transmit timer |
| DelugeObject.Object.CopyPacket | contiki/apps/deluge/deluge.c:452-453 | only the packet's slot of the page buffer changes |
| DelugeObject.Object.WriteFinishedPage | contiki/apps/deluge/deluge.c:473-503 | in place, the effect of the last packet of a page |
| DelugeObject.Object.OnPacket | contiki/apps/deluge/deluge.c:429-505 | in place, the effect of a data packet, including a wrong checksum after the copy |
| DelugeObject.Object.BuildProfile | contiki/apps/deluge/deluge.c:538-545 | the vector holds every page's version in order |
| DelugeObject.Object.AdoptVersions | contiki/apps/deluge/deluge.c:594-600 | exactly the pages the vector names newer are forgotten |
| DelugeObject.Object.OnProfile | contiki/apps/deluge/deluge.c:552-614 | in place, the effect of a profile of equal page count |
| DelugeObject.Object.OnMessage | contiki/apps/deluge/deluge.c:616-650 | in place, the dispatch of a message, with the length test on profiles as the code has it |
| CodepropNetwork.ReceiverSafety | contiki/apps/codeprop/codeprop.c:303-354 | in every run with any number of receivers and any loss, duplication or reordering, the first `s.addr` stored bytes equal those of the image named by `s.id`, `s.addr <= s.len`, and a program is started only with the whole image stored |
| CodepropNetwork.PositionsAreBoundaries | contiki/apps/codeprop/codeprop.c:211-215 | every position of the sender and the receivers and every NACK address is a multiple of 32 or the image length |
| CodepropNetwork.SenderCoverage | contiki/apps/codeprop/codeprop.c:234-258 | whenever the sender rests, every byte of its image has been in some packet; every packet ever sent is the exact image slice at its address |
| CodepropNetwork.DeliveryIsSafe | contiki/apps/codeprop/codeprop.c:312-348 | no packet in flight can make a receiver write outside its memory |
| CodepropNetwork.RunKeepsInv | contiki/apps/codeprop/codeprop.c:228-358 | the invariant over sender, receivers, packets and NACKs holds along every run |
| CodepropNetwork.SessionRoundKeepsInv | contiki/apps/codeprop/codeprop.c:314-330 | one round of a session keeps the stored prefix right whether the packet is next, ahead or behind; a NACK is sent if and only if it is ahead, and names the receiver's own position |
| CodepropNetwork.UndisturbedIsSweep | contiki/apps/codeprop/codeprop.c:240-242 | without NACKs the sender emits exactly the packets from its position to the end |
| CodepropNetwork.SweepCompletes | contiki/apps/codeprop/codeprop.c:312-354 | a loss-free sweep from any boundary at or below a receiver's position completes that receiver |
| CodepropNetwork.SweepCompletesIff | contiki/apps/codeprop/codeprop.c:228-354 | in every reachable state, if from now on nothing is lost and no NACK is heard, a receiver of a nonempty image ends up completed if and only if its session of the image is open at or beyond the sender's position, or it waits for the image and the sender is at 0, or it has the image already; the other receivers may be in any state |
| CodepropNetwork.SweepCompletesAll | contiki/apps/codeprop/codeprop.c:228-354 | hence all receivers at once are completed if and only if each of them is in one of those cases |
| CodepropNetwork.SweepPassesBy | contiki/apps/codeprop/codeprop.c:327-341 | a session whose position the sweep has passed, or of another image, is left exactly as it was |
| CodepropRuns.CanCompleteIff | contiki/apps/codeprop/codeprop.c:284-354 | from every reachable state, a receiver can still get the whole of the sender's image along some run if and only if it has no session of an older image open, or every packet that session lacks is still in flight |
| CodepropRuns.LeftInOldSession | contiki/apps/codeprop/codeprop.c:309-348 | counterexample: a second image broadcast before the first was sent whole never reaches the receiver that had begun with the first; the connection timer is set and never looked at |
| CodepropNacks.NackMovesSender | contiki/apps/codeprop/codeprop.c:250-256 | a pausing sender that hears a NACK at or below its position sends the packet the NACK names next; a NACK above it changes nothing |
| CodepropNacks.PauseGoesToLowest | contiki/apps/codeprop/codeprop.c:245-257 | after a whole pause the next packet is at the lowest of the position and all NACKs heard |
| CodepropNacks.OwnNackRecovers | contiki/apps/codeprop/codeprop.c:245-354 | in every reachable state with a pausing sender ahead of an open session of its image, that session's own NACK, once delivered, makes the undisturbed rest of the broadcast complete the receiver, which it would not have done before |
| CodepropNacks.TimerRecovers | contiki/apps/codeprop/codeprop.c:245-354 | such a NACK is always to be had: the receiver's timer sends it |
| CodepropNacks.PacketAheadRecovers | contiki/apps/codeprop/codeprop.c:312-330 | and every packet from beyond the receiver's position sends it too, and leaves the session as it was |
| CodepropNacks.NewImageIsSent | contiki/apps/codeprop/codeprop.c:430-438 | whatever the sender was doing, the next packet is the first of the new image under the next id, and none if the image is empty |
| CodepropNacks.NackOutsidePause | contiki/apps/codeprop/codeprop.c:234-262 | a NACK that comes while the sender is not pausing changes nothing |
| CodepropNacks.TimeoutAsks | contiki/apps/codeprop/codeprop.c:333-345 | the timer of an open session asks for exactly the position the receiver has got to |
| CodepropNacks.OpeningAsks | contiki/apps/codeprop/codeprop.c:284-306 | a packet that opens a session in mid-stream draws a NACK for address 0, the first packet of an image none |
| CodepropNacks.WriteExact | contiki/apps/codeprop/codeprop.c:318-319 | a packet is stored at its own place, byte by byte |
| Codeprop.JoinCorrectIff | contiki/apps/codeprop/codeprop.c:285-306 | after a packet of a newer id opens a session the receiver's claims are right if and only if it opened at address 0 |
| CodepropNode.BroadcastCovers | contiki/apps/codeprop/codeprop.c:240-258 | under any NACKs in finitely many pauses the send loop ends at the end of the image, every packet is an exact slice, and every byte from the start on was in some packet |
| CodepropNode.SenderThread.Start | contiki/apps/codeprop/codeprop.c:430-438 | a new broadcast starts at 0 under the next id |
| CodepropNode.SenderThread.SendData | contiki/apps/codeprop/codeprop.c:202-226 | the packet is the next chunk, cut short at the end of the image |
| CodepropNode.SenderThread.Pause | contiki/apps/codeprop/codeprop.c:245-257 | NACKs take the position back to the lowest one accepted, never forward |
| CodepropNode.SenderThread.SendAndPause | contiki/apps/codeprop/codeprop.c:240-258 | one turn of the loop: a packet, then the pause |
| CodepropNode.SenderThread.Broadcasts | contiki/apps/codeprop/codeprop.c:234-262 | the whole loop terminates, comes to rest at the end and has covered every byte |
| CodepropNode.ReceiverThread.Store | contiki/apps/codeprop/codeprop.c:318-319 | only the packet's bytes change in memory |
| CodepropNode.ReceiverThread.Round | contiki/apps/codeprop/codeprop.c:312-348 | in place, one round of a session: store, NACK or ignore, and conclude when complete |
| CodepropNode.ReceiverThread.OnData | contiki/apps/codeprop/codeprop.c:284-354 | in place, the effect of a data packet in and out of a session |
| Checksum.Ip4Sum | contiki/tools/tunslip.c:343-362 | the loop with end-around carry computes the normal form of start plus the big-endian words, a last odd byte padded with zero |
| Checksum.AddWithCarry | contiki/tools/tunslip.c:352-353 | 16-bit addition and the carry test give the normal form of the true sum |
| Checksum.SumCharacterised | contiki/tools/tunslip.c:343-362 | the sum is congruent to start plus words modulo 65535, and 0 only if start and all bytes are 0 |
| Checksum.SumComposes | contiki/tools/tunslip.c:322-324 | summing after an even-length prefix continues the sum |
| Checksum.SumOfPermutedWords | contiki/tools/tunslip.c:343-362 | the order of the words does not matter (RFC 1071, section 2) |
| Checksum.SumOfSwappedBytes | contiki/tools/tunslip.c:343-362 | swapping the bytes of every word swaps the bytes of the sum (RFC 1071, section 2) |
| Checksum.SumByWeights | contiki/tools/tunslip.c:343-362 | changing one byte changes the sum of the words by 256 times the difference at an even place and by the difference at an odd one, up to the last byte |
| Checksum.OddBytePadded | contiki/tools/tunslip.c:355-360 | a last odd byte is summed as if a zero byte followed it |
| IpCheck.CheckIp | contiki/tools/tunslip.c:364-413 | the code returned is that of the first fault: version, both length tests, header sum, TCP, UDP unless disabled, ICMP; 0 otherwise |
| IpDetect.FirstFault | contiki/tools/tunslip.c:364-413 | the seven codes in plain word sums modulo 65535, with the constants of the headers: each code if and only if its fault is the first |
| IpDetect.AcceptedAddsUp | contiki/tools/tunslip.c:364-413 | an accepted packet has version 4, its true length and a header that sums to 0 modulo 65535, and so does TCP with its pseudo-header, UDP unless switched off, and ICMP |
| IpDetect.PayloadDamageIff | contiki/tools/tunslip.c:386-413 | damage to the payload of an accepted TCP, UDP or ICMP packet is reported, with -5, -6 or -7, if and only if it changes the sum of the words by no multiple of 65535 |
| IpDetect.DamagedPayloadByte | contiki/tools/tunslip.c:386-413 | one damaged byte of the payload is always reported with the code of its protocol |
| IpDetect.DamagedHeaderByte | contiki/tools/tunslip.c:370-384 | one damaged byte of the header is always reported: the version by -1, the length by -2 or -3, any other byte by -4 |
| IpCheck.AddInverted | contiki/tools/tunslip.c:646-650 | adding the complement with its carry test is one's complement addition |
| IpCheck.Restamp | contiki/tools/tunslip.c:643-650 | in place, id and checksum field of the packet and nothing else change as `Restamped` says |
| IpCheck.NewSumMakesUp | contiki/tools/tunslip.c:644-650 | on either byte order the new checksum word differs from the old one by the id, modulo 65535 (RFC 1624, section 3, eqn. 3) |
| IpCheck.RestampedElsewhere | contiki/tools/tunslip.c:643-650 | no byte outside the id and checksum fields changes |
| IpCheck.RestampKeepsValid | contiki/tools/tunslip.c:637-656 | every packet accepted by `check_ip` is still accepted after its zero id is re-stamped, on hosts of either byte order |
| IpCheck.RestampShortHeader | contiki/tools/tunslip.c:637-656 | a header length of 8, with the id inside the summed header and the checksum field outside, is rejected with -4 after re-stamping unless the new id is 0 or 0xffff |
| DhcpOptions.ParseEncoded | contiki/tools/tunslip.c:258-300 | reading an encoded option list followed by END gives back the list (RFC 2132, section 2) |
| DhcpOptions.EncodeParsed | contiki/tools/tunslip.c:258-300 | a well-formed option area is the encoding of what was read, then END, then what follows |
| DhcpOptions.RelayItemsEncoded | contiki/tools/tunslip.c:194-215 | the bytes put in are the subnet-selection option and one relay-agent option whose declared length 18 is exactly its three suboptions (RFC 3011, section 2; RFC 3046, section 2.0) |
| DhcpOptions.RequestExtended | contiki/tools/tunslip.c:192-217 | for every well-formed area: END is again the last byte, and the parsed options are the client's followed by the relay's if and only if the client's END was the last byte; otherwise the relay's are not seen |
| DhcpOptions.ExtendedOnWire | contiki/tools/tunslip.c:192-217 | the extended option area byte by byte: options 118 and 82 with their suboptions behind all but the client's last byte, then 255 |
| DhcpOptions.KeptCodes | contiki/tools/tunslip.c:263-292 | copied are the codes 1, 3, 51, 53 and 54 whole and code 6 cut to four bytes, and no others |
| DhcpOptions.ItemOnWire | contiki/tools/tunslip.c:287-296 | an option is its code, its length and its data; PAD is a single 0 |
| DhcpOptions.KeepFits | contiki/tools/tunslip.c:263-292 | the filtered option list encodes to no more bytes than the original |
| DhcpOptions.CopyThrough | contiki/tools/tunslip.c:263-292 | across any options with PADs in runs of even length the copy loop writes the encoding of the filtered list and comes out at the byte behind them, whatever follows |
| DhcpOptions.CopyKeeps | contiki/tools/tunslip.c:263-296 | from any position at an option the copy loop ends and yields the encoding of the filtered rest, then END |
| DhcpOptions.ReplyFiltered | contiki/tools/tunslip.c:258-296 | on every area whose PADs come in runs of even length and whose DNS options have 4 bytes or more, the output is the encoding of the five copied types and DNS cut to its first server, in order, ending in END, no longer than the input, and reads back as that list |
| DhcpPads.ReplyRightIff | contiki/tools/tunslip.c:263-296 | for every area that ends in END and names whole name servers, PADs anywhere: the output is right if and only if no run of PADs is odd, or the loop, resuming behind the first odd run where the code after it sends it, reads up to an END a list of options of which the same is to be kept as of those that follow the run |
| DhcpPads.CopyIsRead | contiki/tools/tunslip.c:263-296 | on any bytes at all the copy loop writes the encoding of what is to be kept of the options it reads, PAD read as a code with a length, and END if it meets it |
| DhcpPads.PadsBeforeEndIff | contiki/tools/tunslip.c:287-296 | with k PADs before END, and fewer than 256 bytes behind it, the output is right if and only if k is even; with more behind it, also if another END stands where the loop resumes |
| DhcpPads.OddPadSkips | contiki/tools/tunslip.c:287-291 | behind an odd run of PADs the loop resumes code + 1 bytes after the option code that follows |
| DhcpPads.OddPadOvershoots | contiki/tools/tunslip.c:263-291 | if fewer bytes are left than that, everything behind the run is lost, END included |
| DhcpPads.OddPadResumesIff | contiki/tools/tunslip.c:263-296 | if the loop comes back at the start of an option, the output is right if and only if none of the options passed over was to be kept |
| DhcpPads.PadLosesOptions | contiki/tools/tunslip.c:287-291 | counterexample: one PAD before the message type loses it and END |
| DhcpPads.ServerIsOwnIff | contiki/tools/tunslip.c:280-285 | the address copied for a DNS option does not depend on what follows the option if and only if it has four bytes or more |
| DhcpPads.ShortServerReadsOn | contiki/tools/tunslip.c:280-285 | counterexample: a DNS option of one byte gets an address made up from the option behind it, in an output longer than the input |
| DhcpPads.CopyLength | contiki/tools/tunslip.c:263-298 | with PADs in runs of even length, whole name servers or not, the output has the length of the copied options, 6 bytes for every DNS option, and one for END |
| DhcpRelay.OptionsFitIff | contiki/tools/tunslip.c:258-298 | the copied options fit the 312 bytes of the packet if and only if that length is below 308; with whole name servers they always do |
| DhcpRelay.EmptyServersFitIff | contiki/tools/tunslip.c:280-285 | counterexample: k DNS options of length 0 fit if and only if k is at most 51 |
| DhcpRelay.Put | contiki/tools/tunslip.c:177-179 | a copy changes exactly its own range |
| DhcpRelay.PutBase | contiki/tools/tunslip.c:175-220 | the fixed part is copied with the broadcast flag set, one more hop and the relay address |
| DhcpRelay.RelayToServer | contiki/tools/tunslip.c:161-224 | the `n` bytes handed to `sendto` are the rewritten message, of its true length; anything but a request is dropped |
| DhcpRelay.ServerReadsRequest | contiki/tools/tunslip.c:177-223 | the message byte by byte: one more hop at 3, the broadcast flag at 10, the relay address at 24, zeros from 44 to 235, the client's cookie; the server reads the client's options followed by the relay's, if and only if the client's END was the last byte |
| DhcpRelay.CopyOptions | contiki/tools/tunslip.c:263-296 | the pointer loop terminates and appends exactly the filtered bytes |
| DhcpRelay.BuildReply | contiki/tools/tunslip.c:298-328 | header and checksum fields are filled as `Reply` says |
| DhcpRelay.ReplyFields | contiki/tools/tunslip.c:298-328 | the packet byte by byte: an IPv4 header of 20 bytes with both lengths, id, time to live, addresses and UDP ports, and behind it the message |
| DhcpRelay.MessageFields | contiki/tools/tunslip.c:246-261 | the fixed part the client gets is the server's with one more hop and the relay address cleared, and the cookie follows at once |
| DhcpRelay.ReplyValidates | contiki/tools/tunslip.c:298-330 | a relayed reply of any message length, odd ones included, passes `check_ip` with 0, and its UDP checksum field is never 0 (RFC 768) |
| DhcpRelay.UdpCompletes | contiki/tools/tunslip.c:322-328 | the field is nonzero and makes the pseudo-header and datagram sum to 0xffff |
| DhcpRelay.RelayToClient | contiki/tools/tunslip.c:228-330 | exactly the replies are forwarded, from the relay's address and port 67 to port 68 of 255.255.255.255 if the broadcast flag is set and of the client's own new address otherwise, with one more hop and no relay address |
| DhcpRelay.ClientReadsReply | contiki/tools/tunslip.c:228-330 | end to end: what the client gets validates, has those addresses, ports and fields, and its options read as the server's filtered list |
| Slip.ChunksDoNotMatter | contiki/tools/tapslip6.c:107-198 | however the serial bytes are split into reads, between an escape and its partner too, the receiver ends up in the same state |
| Slip.StreamRoundTrip | contiki/tools/tapslip6.c:107-198 | for every list of packets and every split of their stream, the receiver writes exactly the packets of 1 to 1999 bytes not starting with '!', in order (longer ones as the index reset leaves them), and nothing stays behind |
| Slip.PacketArrivesIff | contiki/tools/tapslip6.c:124-172 | a single packet arrives unchanged if and only if it is nonempty, below 2000 bytes and does not start with '!' |
| Slip.WhatArrives | contiki/tools/tapslip6.c:124-172 | of a packet of any length the last n mod 2000 bytes are passed on, unless there are none or they start with '!' |
| Slip.EscapedBytes | contiki/tools/tapslip6.c:256-268 | 0xC0 travels as 0xDB 0xDC and 0xDB as 0xDB 0xDD, every other byte as itself (RFC 1055) |
| Slip.EscapedByteRead | contiki/tools/tapslip6.c:174-192 | behind 0xDB the receiver takes 0xDC for 0xC0, 0xDD for 0xDB and any other byte for itself |
| Slip.FrameEndsOnce | contiki/tools/tapslip6.c:256-271 | a frame has exactly one END byte, its last, and is at most 2n + 1 bytes long |
| Slip.SerialToTun.StoreByte | contiki/tools/tapslip6.c:125-193 | every store is inside the buffer: the index goes back to 0 first when it has reached 2000 |
| Slip.SerialToTun.EndOfFrame | contiki/tools/tapslip6.c:143-173 | a nonempty frame is written or, after '!', dropped; an empty one is ignored |
| Slip.SerialToTun.Read | contiki/tools/tapslip6.c:107-198 | the loop over one read, with a pushed-back escape before and after it, is the decoder on its bytes |
| Slip.QueueConserves | contiki/tools/tunslip.c:587-625 | over every interleaving of packets and flushes with partial or refused writes, bytes written followed by bytes pending are all bytes ever queued in order; `slip_empty` holds exactly when nothing is pending |
| Slip.SendConserves | contiki/tools/tunslip.c:590-597 | queueing appends to what is still to be written |
| Slip.SendFitsIff | contiki/tools/tunslip.c:587-597 | bytes can be queued if and only if they fit behind everything queued since the buffer was last empty, written or not |
| Slip.RunGoesOnIff | contiki/tools/tunslip.c:587-625 | hence in every reachable queue the program gives up on a packet if and only if its frame does not fit so |
| Slip.FlushConserves | contiki/tools/tunslip.c:605-625 | a flush, whole, partial or refused, moves bytes from pending to written and loses none |
| Slip.GatewayEndToEnd | contiki/tools/tapslip6.c:107-273 | whatever the flushes and the reads, once the queue is empty the far end has written exactly the packets queued, if they are transparent |
| Slip.SlipQueue.SendByte | contiki/tools/tunslip.c:590-597 | a byte is appended, or refused exactly when the buffer is full |
| Slip.SlipQueue.IsEmpty | contiki/tools/tunslip.c:599-603 | the test on `slip_end` says whether anything is pending |
| Slip.SlipQueue.FlushBuf | contiki/tools/tunslip.c:605-625 | in place, the effect of one write call |
| Slip.SlipQueue.SendEscaped | contiki/tools/tunslip.c:664-676 | a byte goes out as its escape sequence |
| Slip.SlipQueue.WriteToSerial | contiki/tools/tunslip.c:663-679 | a packet goes out as its frame, and fails exactly when the frame does not fit |
| Base64.DecodingInvertsEncoding | contiki/apps/shell/shell-text.c:147-174 | for every encoding with any whitespace put in, any split in two and whatever the buffers held, the decoder outputs the original bytes if and only if there are at most 57 |
| Base64.WhiteSpaceAnywhere | contiki/apps/shell/shell-text.c:147-174 | the same for any gaps of space, tab, newline, vertical tab, form feed and carriage return before, between and behind the characters |
| Base64.AlphabetValues | contiki/apps/shell/shell-text.c:98-114 | the 64 characters of RFC 4648, table 1, in order, and 0 for every other character |
| Base64.ForeignCharacters | contiki/apps/shell/shell-text.c:116-126 | nothing but white space is skipped: a foreign character counts as 'A', and '=' as 'A' with one byte less at the end |
| Base64.EncodedAdded | contiki/apps/shell/shell-text.c:116-145 | decoding an encoding that fits appends exactly its bytes and leaves the earlier ones |
| Base64.QuadAdded | contiki/apps/shell/shell-text.c:126-142 | four characters store their three bytes, whatever the 32-bit accumulator held before |
| Base64.StripIgnored | contiki/apps/shell/shell-text.c:119-121 | whitespace anywhere changes nothing |
| Base64.DigitDecodes | contiki/apps/shell/shell-text.c:98-114 | the character table inverts the alphabet of RFC 4648, section 4 |
| Base64.AddChar | contiki/apps/shell/shell-text.c:116-145 | the data index stays a multiple of 3 within the buffer and fewer than four sextets are pending |
| Base64.Decoder.Add | contiki/apps/shell/shell-text.c:116-145 | in place, one character; no store is outside `data` |
| Base64.Decoder.AddString | contiki/apps/shell/shell-text.c:165-170 | in place, the characters of one buffer |
| Base64.Decoder.Decode | contiki/apps/shell/shell-text.c:163-171 | in place, a whole input; the output is the first `dataptr - padding` bytes |
| ConfigRounding.TicksRoundHalfUp | contiki/apps/adaptive-mac/adaptive-mac.c:451-466 | when products fit 32 bits and ticks 16, the tick value is R*ms/1000 rounded half up |
| ConfigRounding.RoundTrip | contiki/apps/adaptive-mac/glossy_interface.h:135-152 | at 1000 ticks a second or more every such millisecond value is printed as configured |
| ConfigRounding.RoundTripIff | contiki/apps/adaptive-mac/glossy_interface.h:135-152 | a 16-bit tick rate brings every value below one second back if and only if it is at least 1000 |
| ConfigRounding.PlatformRoundTripIff | contiki/apps/adaptive-mac/adaptive-mac.c:451-466 | on the clock of 32768 Hz exactly the values below 2000 ms come back, of all that an int can hold |
| ConfigRounding.ProductIsCut | contiki/apps/adaptive-mac/adaptive-mac.c:451-453 | the product is cut to 32 bits, on that clock from 13108 ms on |
| ConfigRounding.ParseConfig | contiki/apps/adaptive-mac/adaptive-mac.c:430-468 | the nested loops read the three fields up to their commas, with blanks, signs and trailing characters as atoi takes them, and convert the first two; the report prints what was on the line whenever the products and ticks fit their words |
| ConfigRounding.PlainNumber | contiki/apps/adaptive-mac/adaptive-mac.c:450-455 | a field of digits is read as the decimal number it is |
| ConfigRounding.NumberIsRead | contiki/apps/adaptive-mac/adaptive-mac.c:450-455 | a number printed in decimal, negative ones too, is read as itself, whatever blanks come before it and whatever that is no digit comes behind it |
| ConfigRounding.LineIsRead | contiki/apps/adaptive-mac/adaptive-mac.c:430-460 | a line of three printed numbers, each with a comma behind it, is read as those numbers in that order |
| ConfigRounding.SignsAndJunk | contiki/apps/adaptive-mac/adaptive-mac.c:450-455 | a plus sign is read over, and a field that starts with anything but a blank, a sign or a digit counts as 0 |
| ConfigRounding.NextField | contiki/apps/adaptive-mac/adaptive-mac.c:443-446 | the inner loop stops at the first comma |
| ConfigRounding.RoundTenths | contiki/apps/adaptive-mac/adaptive-mac.c:461-468 | the cut-off and the increment give the nearest tick, a half rounded up, modulo 2^16; no more than half a tick off when nothing wraps |
| GlossyClock.BootstrapEndsIff | contiki/apps/adaptive-mac/glossy_interface.h:211-223 | the bootstrap is over exactly when some three rounds in a row were heard; until then the counter is the length of the current streak |
| GlossyClock.DeadReckoning | contiki/apps/adaptive-mac/glossy_interface.h:300-371 | after m < 256 missed floods the skew is unchanged, the reference time is the last one plus m periods modulo 2^16, `sync_missed` is m, the wake-up precedes the predicted flood by GUARD*(1+m) and the listening ends DURATION after it |
| GlossyClock.AlarmBeforeFlood | contiki/apps/adaptive-mac/glossy_interface.h:297-372 | the alarm set after m < 256 missed floods is 17*(1+m) ticks before the next predicted flood, and the radio is then on until 218 ticks after it |
| GlossyClock.BootstrapAlarms | contiki/apps/adaptive-mac/glossy_interface.h:297-372 | while bootstrapping the node retries 327 ticks after a silent round, wakes 1638 ticks before the next flood after a heard one, and listens for 1839 ticks |
| GlossyClock.SkewOfTwoFloods | contiki/apps/adaptive-mac/glossy_interface.h:211-223 | after any two floods heard in a row the skew is by how much their distance exceeds 60 s, 1966080 ticks |
| GlossyClock.SilentRounds | contiki/apps/adaptive-mac/glossy_interface.h:322-326 | for any number of missed floods, with the 8-bit counter wrapping |
| GlossyClock.GuardGrowsIff | contiki/apps/adaptive-mac/glossy_interface.h:306-307 | the window is GUARD*(1+m) + DURATION if and only if m < 256 |
| GlossyClock.Resync | contiki/apps/adaptive-mac/glossy_interface.h:211-215 | the next flood heard resets `sync_missed`, and the whole error of the prediction goes into the skew |
| GlossyClock.ResyncExactIff | contiki/apps/adaptive-mac/glossy_interface.h:211-215 | at a constant drift the new skew is that drift if and only if no flood was missed or the skew was right before |
| GlossyClock.TimerExactIff | contiki/core/sys/rtimer.c:152-173 | the long timer fires at reference plus offset unless a whole number of counter revolutions is left when it is set: then one revolution late |
| GlossyClock.WakesOnTimeIff | contiki/apps/adaptive-mac/glossy_interface.h:368-372 | the wake-up set within one revolution of the last due time is on time in the same cases |
| GlossyClock.Scheduler.EstimatePeriodSkew | contiki/apps/adaptive-mac/glossy_interface.h:211-223 | in place, the estimation if the reference time was updated, nothing otherwise |
| GlossyClock.Scheduler.StartListening | contiki/apps/adaptive-mac/glossy_interface.h:297-309 | how long the radio is on: fixed in the bootstrap, growing with the missed floods after it |
| GlossyClock.Scheduler.Round | contiki/apps/adaptive-mac/glossy_interface.h:290-372 | in place, one round and the alarm set at its end |
| GlossyClock.Scheduler.Listen | contiki/apps/adaptive-mac/glossy_interface.h:289-387 | after any sequence of rounds the state and every alarm set are those of the run |

## Left out

- DelugeNetwork.NoHandlerGetsStuck: says nothing of the request timer, for which it is false; `TimerStrandedIff` has the exact condition over all runs and `TimerOutlivesUpdate` the failing runs.
- DelugeNetwork.NetworkSafety: one update from v0 to v1 of an object of equal page count (1 to 128), padded to whole pages, every node starting complete, packets not corrupted; a third version and a growing object are outside, and so are corrupted packets, of which `DamagedPacketIgnored` and `DamagedPacketSpoilsSlot` speak for a single delivery. A profile counts with its length on the air, cut at the 128 bytes of the packet buffer; headers added below the broadcast layer are not part of that length. The step for the request timer is taken only while `current_rx_page` is below the page count.
- DelugeObject.Object.Become: the summary and profile timers are not part of the state, because those two may fire at any moment.
- DelugeObject.Object.OnSummary: the age test is one arbitrary boolean, and the counters behind the trickle interval are not part of the state.
- DelugeObject.Object.OnProfile: page counts are equal, so the reallocation of the page table and the initialisation of added pages do not occur.
- Deluge timing: timers may fire at any moment, and the age test on `last_request` and `last_data` is an arbitrary boolean; the trickle interval, the suppression of summaries and profiles, and energy accounting are not modelled. A unicast may reach any node.
- Deluge bit masks are sets of bit positions; files are one byte string per page, and the CRC of a whole page is not kept.
- CodepropNetwork.ReceiverSafety: one originator, ids do not wrap on the network, no newer packet reaches the sender, and a session opens with a packet at address 0; `JoinCorrectIff` shows that a session opened in mid-stream would not be right.
- CodepropNode.SenderThread.Start: the image is in the EEPROM already; the TCP loader that puts it there, ELF loading and the start of a program are not modelled.
- CodepropNetwork.SweepCompletesIff: the sweep's packets arrive in order at every receiver; retries by the NACK timer are in the safety results only.
- IpCheck.CheckIp: the code trusts the header length and may read past the packet; the model gives it enough memory behind the packet rather than an error.
- IpCheck.Restamp: the don't-fragment test that guards it is left to the caller, and the counter behind the id is a parameter.
- IpCheck.RestampKeepsValid: needs a header length of 12 bytes or more, so that both fields are inside the header; a legal header has 20. `RestampShortHeader` shows what happens at 8.
- DhcpOptions.ReplyFiltered: areas with an odd run of PADs or with DNS options shorter than 4 bytes are outside; `ReplyRightIff` and `ServerIsOwnIff` say what becomes of those, `PadLosesOptions` and `ShortServerReadsOn` are instances.
- DhcpRelay.RelayToServer: the request is long enough for its fixed part and the extended options fit the message buffer; the code checks neither.
- DhcpRelay.RelayToClient: the reply reaches to the end of its magic cookie and its copied options fit the packet; the code checks neither. `OptionsFitIff` says when they fit. Sockets and the printed lease are not modelled.
- Slip.SerialToTun.Read: the plain receiver of `tapslip6.c`; the packet filter, the address commands and the debug lines of `tunslip.c` around the same loop are not modelled, nor is what the '!' command does. The variant of the first read for Linux differs only in aborting on end of file.
- Slip.SlipQueue.FlushBuf: the number of bytes the system accepts is a parameter, or none for a refused write; other errors end the program.
- Base64.Decoder.Decode: the shell's input and output are parameters and results.
- ConfigRounding.ParseConfig: fields have at most nine characters, since the code copies them into a buffer of ten, and values within the platform's 16-bit `int`, beyond which atoi is undefined.
- ConfigRounding.RoundTrip: for products that fit 32 bits and ticks that fit 16.
- GlossyClock.TimerExactIff: the compare register matches strictly after it is written; other timers do not intervene.
- Glossy's flood itself is one of two outcomes, silent or heard at some time; the reporting phase, the sink's own branch and the transfer of the configuration are not modelled.
- The calculator, the CTK programs, the network clients, most shell commands and the decimal printers are not modelled.
