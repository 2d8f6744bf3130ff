# A verified model of the HesaiLidar SDK 2.0

The SDK turns UDP packets of a rotating or scanning lidar into frames of points. This project models the parts of it
that are easy to get wrong, and proves what they do:

- **How a frame is computed by several threads** (`FramePipeline`). `Run` submits packet indices, the parser thread
  distributes them, handle threads compute and count them, and `Run` publishes the frame when the count equals the number
  submitted. All interleavings of all threads are covered, for any number of threads. If no frame has been given up for
  being too long, a frame is published only when every packet is computed, once, and no thread works. In general, when
  the check passes, the frame is complete if and only if, before its first packet, nothing of an earlier frame was in
  flight, counted or dropped. Giving a frame up empties the ring and the buffers, but neither waits for the threads nor
  sets the counter to zero; what it leaves behind is stated exactly. `Run` never waits in vain, and jobs stay in order.
- **How packets become frames** (`FrameAssembly`): the loop of `Run` with its decoding, splitting, second decoding and
  overflow, as a class that refines a plain list of frames; its counters, array bounds and slots, and exactly when the
  callbacks find a packet's points whole, later packets of its frame and the one that ends it being decoded over them.
- **When a frame ends**: the azimuth splitter of the 1.4 parser (`AzimuthSplit`), judged by angles on a circle and by
  revolutions on the real line, forward, backward and in a reversal, for any start azimuth; and the AT128 latch with its
  time-outs (`At128Split`), with the mirror-field search (`MirrorField`).
- **CRC-32** (`Crc32`, `Crc32Numbers`): the table-driven code is bit-serial division by 0x04c11db7 from all ones, most
  significant bit first, without a final inversion, as in Annex A of ISO/IEC 13818-1; every change within 32 bits is
  detected, and a message with its own checksum, and with no other, divides to zero. In numbers it is the usual 32-bit
  arithmetic.
- **PTC framing** (`PtcFraming`): recovering a framed reply from a byte stream that arrives in pieces and begins with
  other bytes, and exactly which replies come back.
- **Capture files** (`PcapFile`, `PcapReplay`, `PcapFrames`): what the saver writes, the source reads back; and what comes
  of IPv4, IPv6 and VLAN frames that others wrote.
- **Containers** (`Rings`, `StagedRing`): ring, blocking ring and the two-dimensional ring with staged appends refine
  sequences.
- **ET packets** (`Udp2_5`, `Udp2_6`, with `EtPoints`): nested cursors against the closed-form packet size, every
  point slot written once, exactly when the header's numbers allow it, and each point what the packet's bytes encode.
- **Correction grids** (`AdjustGrid`): bilinear interpolation over a flattened table, bounded by its cell and without
  jumps inside the grid.
- **Packet loss** (`PacketLoss`): the sequence-number accounting under arbitrary clock readings.

`Bytes`, `Integers`, `Options` and `Products` hold what several modules use.
`dafny verify dfyconfig.toml` checks everything.

How the code is represented:

- Objects that update themselves are classes, loops over arrays and buffers are loops over arrays, and each is proved
  against functions on values; the theorems about runs are lemmas about those functions. The threads of the frame
  pipeline are a state machine whose steps are what one thread does between two points where others can interfere.
- Sockets, files and clocks are inputs: a received stream is a byte sequence with a plan of how it is cut, a file is a
  byte sequence, each clock reading is a parameter. A `uint32_t` wraps where its wrapping matters. CRC registers are
  sequences of 32 bits. Interpolation uses real numbers.
- `compute_packet_num` is never initialised by the code; the model starts it at zero.
- A job's `epoch` in the frame pipeline, and the fields `done`, `lost`, `carried`, `cleared` and `resets`, record what
  happened; no step depends on them. The same holds for the ghost fields of `FrameAssembly.Run`.

Where the code and its own words disagree, the model follows the code:

- The comments of the azimuth splitter promise no decision before the third packet, by a history of -1. The history
  starts at zero, so the second packet is judged against a sample that never came (`SecondPacketExact`). For a sensor
  that turns forward that decision is right if and only if the step does not pass zero, or begins or ends on the start
  azimuth (`SecondPacketRight`).
- Turning forward, a start azimuth that is no whole hundredth of a degree is missed by a step through zero that ends on
  the hundredth below; the count is right if and only if no step does (`ForwardRunRight`, `ForwardMissed`).
- Turning backward, a step through zero counts the start azimuth if it begins there, and any other step if it ends
  there. So a run whose steps come to the start in one way and leave it in the other can miss a frame or close one twice;
  the count is right if and only if such slips even out (`BackwardRunRight`).
- The receive thread collapses time-outs in a row so that a mirror field is not closed twice. A packet of the same field
  between two time-outs defeats that (`FieldClosedTwice`), and so does a packet with two jumps after a time-out
  (`StraddleClosedTwice`); nothing else does (`NeverClosedTwice`).
- An azimuth on a mirror field's arc but more than a turn behind its end is rejected, as the unsigned sums wrap
  (`AcceptsExact`, `OnArcButRejected`).
- A PTC reply comes back if and only if it is shorter than 2^31 bytes; from there to 2^32 its length becomes negative and
  the query succeeds without a body (`RoundTrip`). A header whose two identifier bytes arrive in different pieces is not
  found (`RecoveredExactly`).
- `getAziAdjustV2` drops fractions towards zero, so angles up to a step below the field of view are extrapolated
  (`BoundedExactly`); and on the last grid line, at 60 degrees of azimuth or 12.5 of elevation if the interval divides
  the field of view, nothing is corrected any more (`InsideInDegrees`).
- A frame's counter, and the jobs the threads have in hand, survive a frame that is given up (`GivingUpExactly`).
- A frame behind a VLAN tag: with IPv4 its payload plays back, but the port noted is taken from the destination address
  (`VlanUdpPlays`); with IPv6 nothing plays back (`VlanIp6NotCopied`).
- A packet with fewer points than an earlier one of its frame can be written over it, since its place is its number times
  its own number of points (`KeptExactly`, `SmallerPacketOverwrites`). So can the packet that ends the frame, which is
  decoded before the callbacks are called (`ShownWholeExactly`, `EndingPacketOverwrites`).
- The size of an ET packet is kept in 16 bits. Version 2.6 with several blocks decodes only the first, so its cursor ends
  elsewhere than at the tail, except for some headers whose size is cut to just that (`TailExact`).

## Model

| member | source | states |
|---|---|---|
| FramePipeline.Safety | libhesai/Lidar/lidar.cc:363-371 | in every run without a given-up frame: when the check passes every submitted packet is computed exactly once and counted and no thread holds work; this lasts until the counter is zeroed, so no count is lost; nothing is in flight while the frame is shown; ring and buffers stay within 5000 and nothing is dropped |
| FramePipeline.EachOnce | driver/hesai_lidar_sdk.hpp:247-268 | at every moment of such a run each submitted packet of the present frame is either in flight or computed, and once |
| FramePipeline.CheckPassesExactly | libhesai/Lidar/lidar.cc:363-371 | in every run, given-up frames included: the check passes if and only if the number of jobs not computed equals the number carried over from earlier frames, modulo 2^32 |
| FramePipeline.PassIsRight | libhesai/Lidar/lidar.cc:363-371 | in every run, given-up frames included: when the check passes, and until the counter is zeroed, the frame is complete and nothing of it was dropped if and only if as many jobs have been cleared as were carried over from earlier frames |
| FramePipeline.GivingUpExactly | driver/hesai_lidar_sdk.hpp:269-277 | from before a frame's first packet to its check passing, whatever the threads do: the frame is complete if and only if at the beginning nothing was in flight, counted or dropped |
| FramePipeline.FreshExactly | libhesai/Lidar/lidar.cc:609-616 | before a frame's first packet: nothing is in flight, counted or dropped if and only if all that was carried over has been cleared |
| FramePipeline.AlwaysUnder | libhesai/Lidar/lidar.cc:609-616 | in every run and for every weighing, what is cleared is part of what was carried over |
| FramePipeline.StaleCountPublishesEarly | driver/hesai_lidar_sdk.hpp:269-277 | such a run: after a given-up frame the next is published with a packet still in the ring |
| FramePipeline.AlwaysBalanced | libhesai/Lidar/lidar.cc:509-561 | in every run and for every weighing of jobs: in flight + counted + lost + cleared = submitted for this frame + carried over |
| FramePipeline.BalancedSubmit | libhesai/Lidar/lidar.cc:344-350 | submitting an index keeps that balance |
| FramePipeline.BalancedParser | libhesai/Lidar/lidar.cc:519-539 | the parser thread's steps (pop, compute itself, hand on, drop the oldest) keep it |
| FramePipeline.BalancedWorker | libhesai/Lidar/lidar.cc:552-560 | a handle thread's steps keep it |
| FramePipeline.BalancedOverflow | libhesai/Lidar/lidar.cc:609-616 | giving a frame up keeps it, with everything in flight, counted or lost carried over |
| FramePipeline.BalancedClear | libhesai/Lidar/lidar.cc:611-615 | clearing one handle thread's buffer keeps it, and moves exactly what was in the buffer to the cleared jobs |
| FramePipeline.GivenUpLeaves | driver/hesai_lidar_sdk.hpp:270-277 | over every interleaving while the buffers are cleared: when packets are collected again the ring is empty, buffers and parser thread hold no more than the job the parser thread had in hand, and at most that job and one at each handle thread are in flight |
| FramePipeline.NothingLeftExactly | libhesai/Lidar/lidar.cc:609-616 | if the parser thread had none in hand: nothing is in flight if and only if no handle thread is at work |
| FramePipeline.TakenWhileClearing | libhesai/Lidar/lidar.cc:611-615 | a run in which no thread had a job in hand when a frame was given up, and one is in flight afterwards: taken from a buffer before it was cleared |
| FramePipeline.AlwaysClean | libhesai/Lidar/lidar.cc:528-537 | without a given-up frame nothing is carried over, cleared or dropped, so the drop-oldest branch is never taken |
| FramePipeline.IndicesInRange | driver/hesai_lidar_sdk.hpp:269-277 | in every run, given-up frames included, each index to be computed or computed is below 5000 |
| FramePipeline.NoDeadlock | libhesai/Lidar/lidar.cc:363-371 | in every run without a given-up frame: while `Run` waits, the check passes if and only if no thread can step |
| FramePipeline.ThreadsComeToAnEnd | libhesai/Lidar/lidar.cc:517-561 | however the threads are scheduled, they can step no more often than a bound computed from the jobs in flight |
| FramePipeline.RunGoesOn | driver/hesai_lidar_sdk.hpp:198-277 | `Run` can take its next step in every phase, except while it waits or the ring is full, and can end a frame at any packet |
| FramePipeline.HandedOutInTurn | libhesai/Lidar/lidar.cc:530-538 | over every sequence of steps, after n pushes it is the turn of the n-th handle thread from the first |
| FramePipeline.PushedInTurn | libhesai/Lidar/lidar.cc:530-537 | a push goes to the back of the buffer whose turn it is; a buffer of 36000 drops its oldest job |
| FramePipeline.AlwaysInOrder | libhesai/Lidar/lidar.cc:519-560 | in every run, given-up frames included, each thread gets its jobs in the order of submission |
| FrameAssembly.Run.Turn | driver/hesai_lidar_sdk.hpp:190-278 | one turn of the loop does to the list of frames what the list specification says, and keeps packet_num = packet_index = list length < 5000, points_num = the sum of the packets' points, frame_index = number of frames, the submitted indices 0, 1, ..., and the frames shown; and when a frame is shown, the point array holds what its packets and the one that ended it left there |
| FrameAssembly.Run.EndFrame | driver/hesai_lidar_sdk.hpp:198-258 | the closed frame holds the packets taken; the packet that ended it, if decoded, is alone in the new one |
| FrameAssembly.Run.Reopen | driver/hesai_lidar_sdk.hpp:252-258 | the second decoding puts the splitting packet into slot 0 of the new frame, with all counters right |
| FrameAssembly.Run.GoOn | driver/hesai_lidar_sdk.hpp:260-277 | a packet joins the frame; at 5000 packets the frame is given up |
| FrameAssembly.Run.DecodePacket | libhesai/UdpParser/src/udp1_4_parser.cc:342-449 | exactly the slots from packet_num * points on are written, within 2,560,000 points; and the packet's time stamp in its place, no other |
| FrameAssembly.Run.WritePoints | libhesai/UdpParser/src/udp1_4_parser.cc:383-440 | the loops over a packet's points write its range and nothing else |
| FrameAssembly.Run.Update | libhesai/Lidar/lidar_types.h:204-220 | Update clears the counters and counts the frame |
| FrameAssembly.Run.Show | driver/hesai_lidar_sdk.hpp:206-219 | the callbacks get the frame's packets and counters, and find in every slot of the point array the last packet written there, of those of the frame and the one that ended it, or what was there before |
| FrameAssembly.Run.NextFrame | driver/hesai_lidar_sdk.hpp:245-249 | all counters and lists are set back, and the frame joins the history |
| FrameAssembly.Run.Take | driver/hesai_lidar_sdk.hpp:262-267 | a packet's index is submitted, its points are added and it is appended |
| FrameAssembly.TotalAdds | driver/hesai_lidar_sdk.hpp:264 | the points of two lists add up, those of one packet are its own |
| FrameAssembly.UniformShown | driver/hesai_lidar_sdk.hpp:206 | a closed frame of n packets with P points each is shown if and only if n * P > 1000, with that number |
| FrameAssembly.Upto | driver/hesai_lidar_sdk.hpp:249-267 | the indices submitted for a frame are 0, 1, 2, ... |
| FrameAssembly.Run.constructor | libhesai/Lidar/lidar_types.h:166-192 | the loop starts with an empty frame |
| FrameAssembly.Conservation | driver/hesai_lidar_sdk.hpp:190-278 | over every run, the frames in order followed by the open one are the decoded packets, in order and each once |
| FrameAssembly.FrameContents | driver/hesai_lidar_sdk.hpp:198-277 | a frame is the packet it began with and all decoded up to the next split or time-out, without the splitting packet, if and only if these are fewer than 5000 |
| FrameAssembly.GivenUpCount | driver/hesai_lidar_sdk.hpp:269-277 | between splits and time-outs, one frame is given up for every 5000 packets decoded, and the rest are in the open one |
| FrameAssembly.FrameCount | driver/hesai_lidar_sdk.hpp:198-277 | as many frames are closed as splits and time-outs were found; closed frames have fewer than 5000 packets, given-up ones 5000 |
| FrameAssembly.ShownExactly | driver/hesai_lidar_sdk.hpp:206-244 | a frame is shown if and only if it was closed with more than 1000 points; it is shown whole and with its place as index |
| FrameAssembly.Run.Rewritten | libhesai/UdpParser/src/udp1_4_parser.cc:373 | decoding one more packet changes the slots as the specification of their contents says |
| FrameAssembly.KeptExactly | libhesai/UdpParser/src/udp1_4_parser.cc:373-440 | at any number of packets of any sizes, a packet's points are all there if and only if no later packet of the frame shares a slot with it |
| FrameAssembly.ShownWholeExactly | driver/hesai_lidar_sdk.hpp:190-211 | the callbacks find a packet's points whole if and only if neither a later packet of the frame nor the one that ended it shares a slot with it |
| FrameAssembly.EndingPacketOverwrites | driver/hesai_lidar_sdk.hpp:190-211 | a packet of two points is whole among the frame's own and not once a packet of one point has ended the frame |
| FrameAssembly.ApartExactly | libhesai/UdpParser/src/udp1_4_parser.cc:373 | two packets share no slot if and only if one is empty or one's range ends before the other's begins |
| FrameAssembly.GrowingKept | libhesai/UdpParser/src/udp1_4_parser.cc:373-440 | in a frame in which no packet has fewer points than one before it, nothing is overwritten |
| FrameAssembly.UniformFilled | libhesai/UdpParser/src/udp1_4_parser.cc:373-440 | packets of one size fill the point array in order, without gap, and nothing behind |
| FrameAssembly.SlotsApartExactly | libhesai/UdpParser/src/udp1_4_parser.cc:186 | of two sizes, every later packet of the one lies behind every earlier packet of the other if and only if the later size is no smaller |
| FrameAssembly.SmallerPacketOverwrites | libhesai/UdpParser/src/udp1_4_parser.cc:373 | a packet of two points loses one to a packet of one point after it |
| FrameAssembly.ReadsItsOwnExactly | libhesai/UdpParser/src/udp1_4_parser.cc:180-186 | a packet is computed over the slots it was decoded into if and only if the newest packet's number of points is its own |
| FrameAssembly.InBounds | libhesai/Lidar/lidar_types.h:58-63 | any packet below 5000 with at most 512 points stays within the point array |
| AzimuthSplit.Splitter.constructor | libhesai/UdpParser/src/general_parser.cc:44-45 | the history starts with two zeros |
| AzimuthSplit.Splitter.IsNeedFrameSplit | libhesai/UdpParser/src/udp1_4_parser.cc:227-286 | the decision and the recorded rotation flag are those of the decision predicate; an odd start angle is set to 0 |
| AzimuthSplit.Splitter.FinishPacket | libhesai/UdpParser/src/udp1_4_parser.cc:441-447 | decide, then remember the last two distinct azimuths |
| AzimuthSplit.DirectionExact | libhesai/UdpParser/src/udp1_4_parser.cc:233-253 | the guessed direction is forward if and only if the two forward steps make less than a full turn |
| AzimuthSplit.ForwardExact | libhesai/UdpParser/src/udp1_4_parser.cc:258-271 | turning forward, a frame closes if and only if the start lies in (last, azimuth], apart from a start that is no whole hundredth and is wrapped onto |
| AzimuthSplit.BackwardExact | libhesai/UdpParser/src/udp1_4_parser.cc:272-285 | turning backward the direction is -1, and a frame closes if and only if the start lies in [azimuth, last), or in (azimuth, last] through zero |
| AzimuthSplit.ReversalExact | libhesai/UdpParser/src/udp1_4_parser.cc:243-285 | turning back onto the azimuth before last, the one case the two above leave, the direction is -1 and a frame closes if and only if the start lies in [azimuth, last) |
| AzimuthSplit.ForwardRunExact | libhesai/UdpParser/src/udp1_4_parser.cc:227-271 | over every forward run with repeats and for any start, frames closed = times the unwrapped angle passes the start's whole hundredth, less the steps through zero that end on it when the start is not whole |
| AzimuthSplit.ForwardRunRight | libhesai/UdpParser/src/udp1_4_parser.cc:227-271 | so the count is right if and only if there are no such steps |
| AzimuthSplit.ForwardRun | libhesai/UdpParser/src/udp1_4_parser.cc:227-271 | in particular if the start is a whole hundredth |
| AzimuthSplit.ForwardMissed | libhesai/UdpParser/src/udp1_4_parser.cc:259-264 | a run that passes a start of 1.005 degrees once and closes no frame |
| AzimuthSplit.OncePerRevolution | libhesai/UdpParser/src/udp1_4_parser.cc:227-271 | n revolutions close n frames, less such steps |
| AzimuthSplit.BackwardRunExact | libhesai/UdpParser/src/udp1_4_parser.cc:272-285 | over every backward run with repeats and for any start, frames closed = times the unwrapped angle passes the start, plus the steps not through zero that end on the start, less those that begin on it |
| AzimuthSplit.BackwardRunRight | libhesai/UdpParser/src/udp1_4_parser.cc:272-285 | so the count is right if and only if these are equally many |
| AzimuthSplit.BackwardRun | libhesai/UdpParser/src/udp1_4_parser.cc:272-285 | in particular if the start is never itself sampled |
| AzimuthSplit.BackwardMissed | libhesai/UdpParser/src/udp1_4_parser.cc:272-278 | a run that passes the start once and closes no frame |
| AzimuthSplit.BackwardDoubled | libhesai/UdpParser/src/udp1_4_parser.cc:272-285 | a run that passes the start once and closes two |
| AzimuthSplit.RedecodeIsNeutral | driver/hesai_lidar_sdk.hpp:252-253 | decoding the closing packet again closes nothing and remembers nothing new |
| AzimuthSplit.FirstPacketNeverSplits | libhesai/UdpParser/src/general_parser.cc:44-45 | the first packet closes nothing |
| AzimuthSplit.SecondPacketExact | libhesai/UdpParser/src/udp1_4_parser.cc:227-286 | after a first azimuth a other than 0 the second, b, closes a frame if and only if a < b and the start lies in (a, b], or b < a and it lies in [b, a) |
| AzimuthSplit.SecondPacketRight | libhesai/UdpParser/src/udp1_4_parser.cc:227-286 | for a sensor turning forward the second decision is right if and only if the step does not pass zero, or begins or ends on the start |
| AzimuthSplit.SecondPacketAfterZero | libhesai/UdpParser/src/udp1_4_parser.cc:227-241 | after a first azimuth of 0 it is right if and only if the start is not passed |
| AzimuthSplit.SecondPacketMaySplitWrongly | libhesai/UdpParser/src/udp1_4_parser.cc:227-246 | such a decision: the second packet closes a frame at an azimuth that is not passed |
| At128Split.At128Parser.constructor | libhesai/UdpParser/include/general_parser.h:341-342 | the latch starts with use_angle_ set and no azimuth |
| At128Split.At128Parser.DecodePacket | libhesai/UdpParser/src/udp4_3_parser.cc:167-278 | latch, last azimuth and scan_complete after a packet or a time-out are those of the specification |
| At128Split.TimeoutAccepted | libhesai/UdpParser/src/udp4_3_parser.cc:167-176 | less than 2 degrees from the end of any of the three fields a time-out closes it and stays pending |
| At128Split.TimeoutRefused | libhesai/UdpParser/src/udp4_3_parser.cc:167-179 | away from all three it is refused and changes nothing |
| At128Split.JumpsBeyondTenDegrees | libhesai/UdpParser/src/udp4_3_parser.cc:356-361 | an azimuth jumps if and only if it is more than 10 degrees from a last one other than 0 |
| At128Split.BlocksDecoded | libhesai/UdpParser/src/udp4_3_parser.cc:237-279 | the block loop depends only on whether the azimuth jumps at none, one or more of the packet's blocks |
| At128Split.DataStep | driver/hesai_lidar_sdk.hpp:252-253 | a packet closes a frame if and only if it jumps with no time-out pending or jumps more than once, and decoding it again does nothing |
| At128Split.Conservation | libhesai/UdpParser/src/udp4_3_parser.cc:167-278 | over every run: closes + pending before = packets that jump + pending after + time-outs accepted while one was pending + packets that jumped more than once while one was |
| At128Split.NeverClosedTwice | libhesai/UdpParser/src/udp4_3_parser.cc:266-278 | over every run: closes = packets that jump + pending if and only if no time-out was accepted, and no packet jumped more than once, while a time-out was pending |
| At128Split.NarrowJumps | libhesai/UdpParser/src/udp4_3_parser.cc:266-278 | a packet whose azimuths are within the tolerance of each other jumps at its first block or not at all |
| At128Split.NarrowNeverClosedTwice | libhesai/UdpParser/src/udp4_3_parser.cc:266-278 | so with only such packets the time-outs alone decide |
| At128Split.FieldClosedTwice | libhesai/Lidar/lidar.cc:477-497 | a run whose time-outs are never in a row, and in which one field is closed twice |
| At128Split.StraddleClosedTwice | libhesai/UdpParser/src/udp4_3_parser.cc:266-278 | a run with one time-out, in which a packet with two jumps closes a field again |
| MirrorField.AcceptsExact | libhesai/UdpParser/src/udp4_3_parser.cc:292-296 | for every 32-bit azimuth, and a field with its limits on the circle, the test on residues accepts it if and only if it lies on the arc, wrapping allowed, and within a turn of the field |
| MirrorField.AcceptsOfPacket | libhesai/UdpParser/src/udp4_3_parser.cc:288-296 | for every azimuth a packet can carry, the arc alone decides unless the azimuth is on it and more than a turn behind its end |
| MirrorField.OnArcButRejected | libhesai/UdpParser/src/udp4_3_parser.cc:292-296 | such an azimuth: 652 degrees and the field from 290 to 10 |
| MirrorField.ArcsInARow | libhesai/UdpParser/src/udp4_3_parser.cc:293-296 | two arcs add up to a third if and only if the first is no longer than the third |
| MirrorField.FindField | libhesai/UdpParser/src/udp4_3_parser.cc:289-300 | for every 32-bit azimuth, and fields with their limits on the circle, the cyclic search finds the least-numbered one that holds it, or none after all |
| Crc32.TableEntry | libhesai/PtcClient/src/ptc_client.cc:532-538 | the sentinel loop computes eight clocks of the register |
| Crc32.MarkArrives | libhesai/PtcClient/src/ptc_client.cc:534 | the sentinel stops the loop after exactly eight rounds |
| Crc32.PtcCrc.CRCInit | libhesai/PtcClient/src/ptc_client.cc:529-539 | all 256 entries are set |
| Crc32.TableStep | libhesai/PtcClient/src/ptc_client.cc:544-545 | one table step is eight steps of the division |
| Crc32.PtcCrc.CRCCalc | libhesai/PtcClient/src/ptc_client.cc:541-547 | for every byte string the result is that of bit-serial division |
| Crc32Numbers.ChecksumInNumbers | libhesai/PtcClient/src/ptc_client.cc:529-547 | for every message the checksum is, as a number, that of shifting in 32 bits from 0xffffffff and exclusive or with 0x04c11db7, each byte's most significant bit first |
| Crc32Numbers.BitOfNumber | libhesai/PtcClient/src/ptc_client.cc:532-538 | bit i of n counts 2^(n - 1 - i) |
| Crc32Numbers.KnownChecksums | libhesai/PtcClient/src/ptc_client.cc:541-547 | the empty message has 0xffffffff, a zero byte 0x4e08bfb4 |
| Crc32Numbers.LeadingZeroSeen | libhesai/PtcClient/src/ptc_client.cc:542 | a zero byte in front of any message changes its checksum |
| Crc32.BurstDetected | libhesai/PtcClient/src/ptc_client.cc:541-547 | every change confined to 32 consecutive bits changes the checksum |
| Crc32.BurstBoundIsTight | libhesai/PtcClient/src/ptc_client.cc:535 | a change of 33 bits, by the generator polynomial, does not |
| Crc32.ChecksumAppended | libhesai/PtcClient/src/ptc_client.cc:541-547 | message and trailer divide to zero if and only if the trailer is the message's checksum, most significant byte first |
| Crc32.DivideLinear | libhesai/PtcClient/src/ptc_client.cc:535 | division is linear over exclusive or |
| Crc32.DivideInjective | libhesai/PtcClient/src/ptc_client.cc:535 | different registers stay different under the same bits |
| Crc32.ZeroRegisterInjective | libhesai/PtcClient/src/ptc_client.cc:535 | different strings of up to 32 bits lead a zero register to different values |
| PtcFraming.PtcStreamEncode | libhesai/PtcParser/src/ptc_1_0_parser.cc:34-48 | the encoder writes identifier, command, return code, length in network order, and the payload |
| Bytes.ByteOrder | libhesai/PtcParser/src/ptc_1_0_parser.cc:34-48 | byte i of a number in network order counts 256^(3 - i), in the order of the machine 256^i |
| PtcFraming.FrameLayout | libhesai/PtcParser/src/ptc_1_0_parser.cc:34-48 | byte by byte: 0x47, 0x74, command, 0, the length with its most significant byte first, the payload |
| PtcFraming.Channel.Receive | libhesai/PtcClient/src/ptc_client.cc:184 | a receive call delivers the next piece of the stream, of any size up to the limit |
| PtcFraming.FindPairIsFirst | libhesai/PtcClient/src/ptc_client.cc:188-198 | the search returns a pair no later than any pair there is, so none only if there is none |
| PtcFraming.SearchPair | libhesai/PtcClient/src/ptc_client.cc:188-198 | the loop over a piece is that search |
| PtcFraming.KeepInto | libhesai/PtcClient/src/ptc_client.cc:187-204 | a piece adds to the header what lies behind the pair, or all of it once the pair was found |
| PtcFraming.ReceiveHeaderInto | libhesai/PtcClient/src/ptc_client.cc:176-205 | the header loop and what is left on the stream |
| PtcFraming.ReceiveBodyInto | libhesai/PtcClient/src/ptc_client.cc:239-251 | the body loop |
| PtcFraming.QueryCommand | libhesai/PtcClient/src/ptc_client.cc:153-266 | result, output and stream are those of the specification |
| PtcFraming.HeaderContiguous | libhesai/PtcClient/src/ptc_client.cc:183-205 | however the stream is cut, what the header loop keeps is contiguous, starts with the pair and is directly followed by what is left |
| PtcFraming.BodyContiguous | libhesai/PtcClient/src/ptc_client.cc:243-251 | the body is the next bytes of the stream |
| PtcFraming.QuerySound | libhesai/PtcClient/src/ptc_client.cc:207-262 | success means that the stream holds a valid header for the command and behind it exactly the bytes returned, or none for a length of 2^31 or more |
| PtcFraming.FailureKeepsOutput | libhesai/PtcClient/src/ptc_client.cc:153-266 | a failing query returns -1 and leaves the output; one not sent reads nothing |
| PtcFraming.RecoveredExactly | libhesai/PtcClient/src/ptc_client.cc:183-205 | of the first frame in a stream, behind any bytes without an identifier pair, the header is recovered and what follows it left if and only if no piece ends between the two identifier bytes |
| PtcFraming.LengthDecides | libhesai/PtcClient/src/ptc_client.cc:207-262 | when an encoded frame's header is recovered, as many bytes come back as its 32-bit length says, or none if that is 0 or 2^31 and more |
| PtcFraming.RoundTrip | libhesai/PtcParser/src/ptc_1_0_parser.cc:34-48 | an encoded reply of any length, behind other bytes and however cut, if not between its identifier bytes: the query succeeds, and the payload comes back whole with what follows left on the stream if and only if it is shorter than 2^31; from there to 2^32 the output is unchanged and the payload left on the stream |
| PcapFile.Save | libhesai/Source/src/pcap_saver.cc:161-207 | the bytes a save writes or appends |
| PcapFile.SaveFrames | libhesai/Source/src/pcap_saver.cc:209-220 | the same for several frames |
| PcapFile.SavedTwice | libhesai/Source/src/pcap_saver.cc:165-183 | appending is saving everything at once |
| PcapFile.SavedFramesFlat | libhesai/Source/src/pcap_saver.cc:209-220 | saving frames is saving their packets |
| PcapFile.WrittenLengths | libhesai/Source/src/pcap_source.cc:39-52 | the IPv4 total length (section 3.1 of RFC 791) is header and data, the UDP length (RFC 768) is its header and payload, source port 10000, the port and type IPv4 are in network order |
| PcapFile.RecordLengths | libhesai/Source/src/pcap_saver.cc:184-205 | a record says twice how long its frame is |
| PcapFile.SwappedIsNetworkOrder | libhesai/Source/src/pcap_source.cc:39-52 | the swapped fields are in network order |
| PcapReplay.PcapSource.Read | libhesai/Source/src/pcap_source.cc:105-119 | reading moves the cursor and copies, or does neither |
| PcapReplay.PcapSource.Move | libhesai/Source/src/pcap_source.cc:121-125 | skipping moves the cursor, or does not |
| PcapReplay.PcapSource.Open | libhesai/Source/src/pcap_source.cc:168-188 | a capture opens if and only if its magic number is right |
| PcapReplay.PcapSource.Next | libhesai/Source/src/pcap_source.cc:193-311 | the call's result, buffer, cursor and remembered UDP header are those of the specification |
| PcapReplay.PcapSource.ReadBody | libhesai/Source/src/pcap_source.cc:201-204 | records of odd size are skipped |
| PcapReplay.PcapSource.Deliver | libhesai/Source/src/pcap_source.cc:204-304 | the payload is copied by Ethernet type and protocol |
| PcapReplay.RecordPlays | libhesai/Source/src/pcap_source.cc:193-213 | a saved record at the cursor is returned as its payload, and the port is the saved one |
| PcapReplay.RecordsPlay | libhesai/Source/src/pcap_source.cc:193-213 | saved records play back in order |
| PcapReplay.SavedPlaysBack | libhesai/Source/src/pcap_saver.cc:161-207 | a saved capture plays back as the same payloads in order with the same port each, ends with the cursor at the end of the file, and one more call reports the end |
| PcapReplay.SavedOpens | libhesai/Source/src/pcap_saver.cc:173-176 | a saved capture opens |
| PcapFrames.FileHeaderRead | libhesai/Source/src/pcap_saver.cc:173-176 | the file header says version 2.4, snap length 65535 and link type 1 |
| PcapFrames.FrameLoaded | libhesai/Source/src/pcap_source.cc:198-203 | any record of 15 to 1500 bytes at the cursor is read whole |
| PcapFrames.OddRecordSkipped | libhesai/Source/src/pcap_source.cc:305-309 | other records are skipped with code 1 |
| PcapFrames.CutHeaderFails | libhesai/Source/src/pcap_source.cc:198-200 | a record header cut short gives -1 and nothing moves |
| PcapFrames.CutFrameFails | libhesai/Source/src/pcap_source.cc:200-203 | a frame cut short gives -1, with the cursor behind its header |
| PcapFrames.Ip4UdpPlays | libhesai/Source/src/pcap_source.cc:206-213 | any UDP packet over IPv4 plays back as its payload and port |
| PcapFrames.Ip6UdpPlays | libhesai/Source/src/pcap_source.cc:228-235 | so does any over IPv6 |
| PcapFrames.VlanUdpPlays | libhesai/Source/src/pcap_source.cc:250-260 | behind a VLAN tag the payload plays back, with the last two bytes of the destination address as port |
| PcapFrames.VlanPortExactly | libhesai/Source/src/pcap_source.cc:250-260 | so its port is right if and only if these bytes happen to be the port |
| PcapFrames.VlanIp6NotCopied | libhesai/Source/src/pcap_source.cc:275-294 | behind a VLAN tag no IPv6 packet plays back; the code returned goes by a byte of the source address |
| PcapFrames.VlanOtherPassesBy | libhesai/Source/src/pcap_source.cc:261-273 | TCP and other protocols behind a VLAN tag are passed by |
| PcapFrames.TcpPassesBy | libhesai/Source/src/pcap_source.cc:214-222 | TCP packets are passed by, with their length if someone asks for TCP and else 2 |
| PcapFrames.OtherPassesBy | libhesai/Source/src/pcap_source.cc:223-226 | other protocols give 2 |
| PcapFrames.UnknownKind | libhesai/Source/src/pcap_source.cc:300-311 | other kinds of frames give 1 |
| PcapFrames.ShortUdpNotCopied | libhesai/Source/src/pcap_source.cc:209-211 | a UDP packet that ends within its header gives 1 and nothing is copied |
| Rings.WrapIsModulo | libhesai/Container/src/ring.cc:70 | indices wrap as by the remainder |
| Rings.Ring.constructor | libhesai/Container/src/ring.cc:41-42 | a ring starts empty |
| Rings.Ring.PushBack | libhesai/Container/src/ring.cc:69-70 | appends at the back |
| Rings.Ring.PushFront | libhesai/Container/src/ring.cc:85-86 | prepends at the front, whatever the wrap-around |
| Rings.Ring.PopBack | libhesai/Container/src/ring.cc:75-76 | removes and returns the last item |
| Rings.Ring.PopFront | libhesai/Container/src/ring.cc:91-92 | removes and returns the first item |
| Rings.Ring.EffPopBack | libhesai/Container/src/ring.cc:78-79 | removes the last item |
| Rings.Ring.EffPopFront | libhesai/Container/src/ring.cc:94-95 | removes the first item |
| Rings.Ring.PeekBack | libhesai/Container/src/ring.cc:72-73 | the last item |
| Rings.Ring.PeekFront | libhesai/Container/src/ring.cc:88-89 | the first item |
| Rings.Ring.At | libhesai/Container/src/ring.cc:109-113 | indexing is indexing of the contents |
| Rings.Ring.Iterate | libhesai/Container/src/ring.cc:97-107 | iterating yields the contents in order |
| Rings.Ring.Clear | libhesai/Container/src/ring.cc:59-60 | empties the ring and blanks what was in it |
| Rings.Ring.EffClear | libhesai/Container/src/ring.cc:62-63 | empties the ring |
| Rings.BlockingRing.Enter | libhesai/Container/src/blocking_ring.cc:4-103 | each locked call, clearing included, does what a bounded sequence does, or waits |
| Rings.RefusedExactly | libhesai/Container/src/blocking_ring.cc:4-61 | a pop is refused if and only if there is nothing, a push if and only if there is no room; only `try_pop_front` times out |
| Rings.PopsEmpty | libhesai/Container/src/blocking_ring.cc:30-52 | as many pops at the front as there are items, of either kind, hand out exactly the items |
| Rings.PushesFill | libhesai/Container/src/blocking_ring.cc:21-27 | as many pushes at the back as there is room for are accepted, in order |
| Rings.PushesCount | libhesai/Container/src/blocking_ring.cc:4-27 | and so at either end |
| Rings.PopUndoesPush | libhesai/Container/src/blocking_ring.cc:4-61 | at either end a pop returns the item pushed and restores the contents |
| Rings.PushUndoesPop | libhesai/Container/src/blocking_ring.cc:4-61 | and a push restores what a pop took |
| Rings.NeverOverfull | libhesai/Container/src/blocking_ring.cc:4-61 | under every interleaving of calls the size stays within capacity |
| Rings.FirstInFirstOut | libhesai/Container/src/blocking_ring.cc:21-103 | under every interleaving of producers at the back, consumers at the front and clears, items pushed = items that left, in order, then those still there |
| Rings.LeftPoppedOrDropped | libhesai/Container/src/blocking_ring.cc:30-103 | those that left were popped, or dropped by a clear |
| Rings.LeftByPops | libhesai/Container/src/blocking_ring.cc:30-52 | without a clear they are those popped, in order |
| Rings.NothingLost | libhesai/Container/src/blocking_ring.cc:4-103 | used at both ends and cleared, items pushed = popped + dropped by clears + those still there |
| StagedRing.CellsInjective | libhesai/Container/src/ring_2dex.cc:150 | with one row size the cell of a row and column is its own |
| StagedRing.RowsApartExactly | libhesai/Container/src/ring_2dex.cc:150 | in a ring of two slots or more, rows of two sizes in different slots never share a cell if and only if the sizes are equal |
| StagedRing.Ring2D.PrepareEmplaceBack | libhesai/Container/src/ring_2dex.cc:120-130 | as many items as needed, and no more, are evicted from the front |
| StagedRing.Ring2D.EmplaceBackAt | libhesai/Container/src/ring_2dex.cc:133-137 | a staged item changes nothing live and no other staged item |
| StagedRing.Ring2D.EmplaceCellAt | libhesai/Container/src/ring_2dex.cc:147-151 | a staged cell changes nothing live and no other staged cell |
| StagedRing.Ring2D.PeekBackAt | libhesai/Container/src/ring_2dex.cc:140-144 | reads a staged item |
| StagedRing.Ring2D.PeekBackCellAt | libhesai/Container/src/ring_2dex.cc:154-158 | reads a staged cell |
| StagedRing.Ring2D.FinishEmplaceBack | libhesai/Container/src/ring_2dex.cc:161-164 | everything staged appears at once behind what was there |
| StagedRing.Ring2D.PeekFrontCell | libhesai/Container/src/ring_2dex.cc:173-176 | a cell of the first row |
| StagedRing.Ring2D.Append | libhesai/Container/src/ring_2dex.cc:120-164 | prepare, emplace all, finish: the newest items there is room for, then the batch |
| Udp2_6.DecodeFirst | libhesai/UdpParser/src/udp2_6_parser.cc:355-363 | each slot of the row's first returns gets its own unit with the row's angles, and no other slot changes |
| Udp2_6.DecodeSecond | libhesai/UdpParser/src/udp2_6_parser.cc:364-372 | the same for second returns |
| Udp2_6.DecodeRow | libhesai/UdpParser/src/udp2_6_parser.cc:352-372 | each inner loop leaves its cursor where the next part starts |
| Udp2_6.DecodeBody | libhesai/UdpParser/src/udp2_6_parser.cc:349-390 | the three cursors end where a further row would start, and each slot holds what the writes to it left |
| Udp2_6.FirstHit | libhesai/UdpParser/src/udp2_6_parser.cc:349-363 | the slot of each first return is written once, with that unit and its row's angles |
| Udp2_6.SecondHit | libhesai/UdpParser/src/udp2_6_parser.cc:349-372 | the slot of each second return is written once |
| EtPoints.Int16RoundTrip | libhesai/UdpProtocol/udp_protocol_v2_6.h:60-66 | a signed angle of 16 bits reads back, negative ones too |
| Udp2_6.FirstRoundTrip | libhesai/UdpParser/src/udp2_6_parser.cc:349-363 | for every packet that encodes rows of angles and units, the slot of each first return holds its row's angles in degrees, and its unit's distance and reflectivity |
| Udp2_6.SecondRoundTrip | libhesai/UdpParser/src/udp2_6_parser.cc:349-372 | so does that of each second return, with the unit's channel |
| Udp2_6.Miss | libhesai/UdpParser/src/udp2_6_parser.cc:349-372 | no other slot is written |
| Udp2_6.TailExact | libhesai/UdpProtocol/udp_protocol_v2_6.h:252-258 | for every header, the cursor ends at the tail offset from GetPacketSize if and only if the size with one block is below 2^16 and the bytes of the other blocks are a multiple of 2^16 |
| Udp2_6.TailOfOneBlock | libhesai/UdpProtocol/udp_protocol_v2_6.h:252-258 | with one block: if and only if the size fits 16 bits |
| Udp2_6.CutSizeHitsTail | libhesai/UdpProtocol/udp_protocol_v2_6.h:252-258 | a header of 65 blocks whose size is cut to the one with a single block |
| Udp2_6.FillsExactly | libhesai/UdpParser/src/udp2_6_parser.cc:344-372 | the packet's slots are written, each once, if and only if there are none, or there is one block and the rows divide the lasers |
| Udp2_6.StaysInRange | libhesai/UdpParser/src/udp2_6_parser.cc:344-372 | no slot outside the packet's range is written if and only if there is a block, or the rows hold no units |
| Udp2_5.DecodeRow | libhesai/UdpParser/src/udp2_5_parser.cc:467-475 | each slot of a row gets its own unit with the row's angles and the packet's mirror, and no other slot changes |
| Udp2_5.DecodeBlock | libhesai/UdpParser/src/udp2_5_parser.cc:464-487 | the cursors and slots of one block |
| Udp2_5.DecodeBody | libhesai/UdpParser/src/udp2_5_parser.cc:462-498 | for any number of blocks the body cursor ends two bytes, one skipped point id, past the body |
| Udp2_5.BodyEndsAtCrc | libhesai/UdpProtocol/udp_protocol_v2_5.h:226-233 | the body ends where the size formula puts the body's CRC if and only if the size fits 16 bits |
| Udp2_5.BodyHit | libhesai/UdpParser/src/udp2_5_parser.cc:462-475 | the slot of each unit is written once, with that unit and its row's angles |
| Udp2_5.BodyRoundTrip | libhesai/UdpParser/src/udp2_5_parser.cc:461-475 | for every packet that encodes blocks of rows, each unit's slot holds its row's angles in degrees, the unit's distance and reflectivity, and the packet's mirror |
| Udp2_5.UsualSize | libhesai/UdpProtocol/udp_protocol_v2_5.h:226-233 | 64 lasers in four blocks of eight rows make 1016 bytes, with the tail at 953 |
| Udp2_5.BodyMiss | libhesai/UdpParser/src/udp2_5_parser.cc:462-475 | no other slot is written |
| Udp2_5.ReadsInBody | libhesai/UdpParser/src/udp2_5_parser.cc:462-498 | every row is read inside the body |
| Udp2_5.FillsExactly | libhesai/UdpParser/src/udp2_5_parser.cc:461-475 | the packet's slots are written, each once, if and only if there is no block or the rows divide the lasers; no slot outside is written |
| AdjustGrid.CellInside | libhesai/UdpParser/include/udp2_5_parser.h:144-145 | a cell of the grid is read inside the table |
| AdjustGrid.BoundedInDegrees | libhesai/UdpParser/include/udp2_5_parser.h:132-163 | inside the grid, the correction lies between the corners of its cell for every table if and only if azimuth >= -60 and elevation >= -12.5 |
| AdjustGrid.BoundedExactly | libhesai/UdpParser/include/udp2_5_parser.h:132-163 | the same for any field of view and spacing |
| AdjustGrid.WeightProper | libhesai/UdpParser/include/udp2_5_parser.h:138-143 | inside the grid a weight is in [0, 1] if and only if the angle is not below the field of view; below it is over 1 |
| AdjustGrid.InsideExactly | libhesai/UdpParser/include/udp2_5_parser.h:132-141 | an angle is inside the grid if and only if it is less than a step below the field of view and before the last grid line |
| AdjustGrid.InsideInDegrees | libhesai/UdpParser/include/udp2_5_parser.h:132-141 | in degrees: the grid ends at 60 and 12.5, less what the interval leaves over of the field of view |
| AdjustGrid.ChangesGradually | libhesai/UdpParser/include/udp2_5_parser.h:132-163 | inside the grid and not below the field of view, between any two pairs of angles the correction changes by no more than the largest difference of neighbouring entries per grid step moved, so it nowhere jumps |
| AdjustGrid.SharedEdges | libhesai/UdpParser/include/udp2_5_parser.h:132-163 | on a grid line the correction is also that of the cell before |
| AdjustGrid.OnGridLine | libhesai/UdpParser/include/udp2_5_parser.h:138-143 | an angle on a grid line takes that line's values |
| AdjustGrid.OnGridPoint | libhesai/UdpParser/include/udp2_5_parser.h:138-163 | on a grid point the correction is that point's entry |
| AdjustGrid.NothingOutside | libhesai/UdpParser/include/udp2_5_parser.h:140-141 | outside the grid nothing is corrected |
| PacketLoss.LossCounter.CalPktLoss | libhesai/UdpParser/src/general_parser.cc:364-396 | the counters after a packet, and what is logged, are those of the specification; disabled, nothing changes |
| PacketLoss.Accounting | libhesai/UdpParser/src/general_parser.cc:364-396 | over every nondecreasing run from above 0, whatever the clock: total = last - first, total - lost = distinct packets after the first, logged + present window = lost; the first number is kept, and the window begins between it and the last |
| PacketLoss.CountForward | libhesai/UdpParser/src/general_parser.cc:382-394 | one packet forward |
| PacketLoss.KeptExactlyForward | libhesai/UdpParser/src/general_parser.cc:369-385 | the whole accounting survives a packet if and only if its number does not go back; else the counters fit no number of packets and lost ones, and almost 2^32 count as lost |
| PacketLoss.RepeatIsNeutral | libhesai/UdpParser/src/general_parser.cc:364-396 | feeding a packet twice changes no total if and only if it does not leave a window that begins with number 0 and losses counted; a packet numbered above 0 never does |
| PacketLoss.LeadingZeros | libhesai/UdpParser/src/general_parser.cc:373-381 | packets numbered 0 before the first other one count as not received |
| PacketLoss.LossTold | libhesai/UdpParser/src/general_parser.cc:382-386 | a loss is told of if and only if the number is neither the last nor the next |
| PacketLoss.LoggedAfterASecond | libhesai/UdpParser/src/general_parser.cc:387-394 | losses of a window that has lasted a second are logged by the next packet, all of them; before that none |
| PacketLoss.LogLinesApart | libhesai/UdpParser/src/general_parser.cc:387-394 | in every run whose clock goes forward, any two log lines are a second or more apart |

## Left out

- Sockets, TLS, select, thread priorities and the logger: operating-system calls; a stream, a file and a clock are inputs.
- GPU parsers: their kernels are not part of the repository's readable code.
- Point coordinates, trigonometry, distance correction and the field-of-view filter: computing a packet is one step that
  ends by counting it.
- Time stamps built by `mktime`, fault messages, correction-file loading: copying and library calls.
- The azimuth splitters of the 3.1, 3.2, 6.1, P40 and P64 parsers: the same logic again.
- `SplitFileFrames`: its loop body is commented out.
- The copy of a TCP header in the capture source: it is used by nothing else here.
- `TcpDump` and the drain on `close`: a segmentation loop and one more queue.
- The IP checksum constant and record time stamps: not computed from the data; the time stamp is arbitrary in the model.
- SavedPlaysBack: covers payloads of 0 to 1458 bytes, the most the saver's buffer holds; a payload of one or two bytes
  is returned as 1 or 2, which a caller cannot tell from the codes for skipped records.
- AdjustGrid: the interval is any number of half degrees and the table covers the grid it implies; that the loader makes
  the table so large only when intervals divide the field of view, and the V4 grid, are not modelled.
- PTC version 2 headers, `IsValidRsp` and `extractField`: field copying beside the loops modelled.
- `CalPktTimeLoss`: the same kind of counter over time stamps.
- BlockingRing: the emplace variants, which differ in how an item is built; waking of waiting threads and fairness
  (safety only).
- Ring2D: the plain push, pop and index operations of the two-dimensional ring repeat those of the ring.
- FramePipeline: that the scheduler lets threads step at all (given that, NoDeadlock and ThreadsComeToAnEnd say the rest),
  changing the number of threads while running, and the data race of clearing a handle thread's list without its mutex;
  clearing one list is a step of its own.
- FrameAssembly: what computing a packet makes of its points; which slots it reads is exact in ReadsItsOwnExactly, and the
  contents of the slots are followed up to what decoding left.
- FrameAssembly: that decoding a packet succeeds again, with the same number of points, when it is decoded a second time
  is built into the event; a packet's points are at most 512, as the SDK's own limit says.
- Udp2_5 and Udp2_6: a header's numbers must leave the body inside the packet buffer, and `seqNum` must not be 0; the
  decoders check neither.
