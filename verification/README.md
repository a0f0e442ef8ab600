# Reliable file transfer over a lossy datagram network: models and proofs

`tcpd` is a pair of daemons that carry a file from `ftpc` to `ftps` over datagrams that may be lost, repeated,
reordered and damaged. The project models the logic of both daemons, of the two file endpoints, of the timer
prototype and of the simulation's bulk sender, and proves what they are for.

- **Receiver.** `Receiver.Server` is the receiving loop with `lfr`, `laf` and the 64-slot buffer, changed in place.
  Its methods are proved against a step function on values (`Receiver.Step`), and that function is proved to refine
  `Reassembly`, a reassembler with unbounded frame numbers and no slots (`Refinement.StepRefines`, and `Arrivals` over
  whole runs). `Conservation` counts blocks. `Limits` says exactly where the ring stops being the reassembler.
- **Protocol.** `Protocol` puts sender, network and receiver together as a transition system; `Completion` shows that
  a transfer can always still be completed; `EndToEnd` carries both to the bytes of the file. What the source or the
  network does otherwise is a parameter of the system, and treated exactly: `Overrun` the sender's window, `Resets` and
  `Stalls` the reset as written, `Stale` copies of any age. `Scenarios` builds their runs.
- **Timers.** `TimerList.Timers` is the doubly linked list of relative times. Its methods are proved against
  `Schedule`, ids with absolute deadlines, and against `Fields`, which times they leave, microseconds and all;
  `TimerRuns` is about whole runs, and `TimerLoops` are the loops that make them. `Time` is `struct timeval` arithmetic.
- **Checksum.** `Division` is long division of polynomials over GF(2), `Registers` the algebra of the 16-bit register,
  `Crc` the table and the byte loop, `Detection` the errors the checksum finds, `Straddle` a burst that it does not,
  `Datagram` the packets.
- **Round-trip times.** `Rtt.TcpSock` is the estimator in scaled 32-bit integers, with theorems about whole runs.
- **Files and bulk data.** `FileTransfer` is chunking, padding and truncation; `BulkSender` the repeating pattern.

## Readings

What the model takes as given, and where the code does not do what it was meant to do:

- A slot is free when its 1000 bytes are zero, so an all-zero block is acknowledged and lost. The safety theorems
  therefore assume that no block is blank, and `Completion.TransferableExactly` shows that this is needed.
- After delivering up to slot 63 the source sets `lfr` to -1 when it is *above 63*, which it never is; -1 for 63 was
  meant. The class, the step function and the protocol take the bound as a parameter (`LITERAL` or `MEANT`). The
  refinement uses the meant reset; `Limits` says exactly when the two differ, and that the receiver as written is then
  stuck for good. In the whole system what is forwarded stays right with either; with the one as written every world can
  still be completed exactly for streams of at most 64 blocks, and acknowledgements are true exactly for at most 84.
- The sender is modelled by its contract: frame n carries block n under number n mod 64, goes out when fewer than 20
  frames are past `lar`, and is sent again only while it is not acknowledged. The guard as written counts one frame too
  few after a wrap, and the frame more that it may send is acknowledged by the receiver and lost: with that guard every
  acknowledgement is true exactly for streams of at most 64 blocks (`Overrun.AsWrittenExact`).
- No copy of a frame reaches the receiver after its window has come round to the next frame of that number, and no ack
  reaches the sender after the next frame of that number has been sent. Both are guards on the arrival steps that a
  setting can drop: `Stale` says exactly which streams do without the one and without the other.
- Every intact frame is acknowledged, in the window or not. Acks carry the number of the frame. The checksum of an ack is
  computed over its header as it stands; the check field is zero then, because the header is cleared after every ack and
  the first one is assumed to start as zero although the source does not set it. `Detection.Sealed` clears the field.
- The clock never reads (0, 0), the value that marks `lasttime` as never set. Clock readings, the answers of the
  simulated socket and the contents of slots before a piece is received are parameters, with no bound on them.
- `next` and `forward` of a new node, and the prototype's `head`, start as null although the source does not set them.
- A timer interval is a whole non-negative number of microseconds; the source takes a double number of seconds.
- A node holds its time as a value that the list methods reassign with the results of `Difference`, `Carried` and
  `Added`; `Time.TimevalSubtract` shows that these are what the pointer version computes, aliasing included.
- An update is meant to resend every timer whose deadline has been reached. It keeps one that is due at that very moment
  when the microsecond parts are a whole number of seconds apart. `TimerList.Timers.UpdateTimeList` says exactly when, on
  the times before the call, and `TimerLoops.MissedDeadline` reaches such a list by two starts. In the prototype, which
  prints and so normalises after every insertion, it never happens for clock readings with 0 to 999999 microseconds.
- Both files delete timers. The daemon repairs the next node's `forward`, the prototype does not; the daemon's deletion
  is modelled, and the prototype's loop is modelled for runs of starts and wake-ups.
- `after` compares an unsigned difference with zero, so it holds for any two different numbers.
- Multi-byte header fields are little-endian, and the padded packet is 1040 bytes past the address.

## Model

| member | source | states |
|---|---|---|
| `Bytes.CheckEmpty` | project1——ShuangLi, ZicongZheng/tcpd.c:187-197 | The byte loop returns true exactly for the all-zero block: what the daemon takes for a free slot |
| `Receiver.Server.constructor` | project1——ShuangLi, ZicongZheng/tcpd.c:719-722 | The start: lfr -1, laf 19, all 64 slots free, nothing forwarded, nothing acknowledged |
| `Receiver.Server.SendFilled` | project1——ShuangLi, ZicongZheng/tcpd.c:846-855 | The scan forwards the slots from lo on, in order, up to the first free one or the end, and returns where it stopped |
| `Receiver.Server.Bzero` | project1——ShuangLi, ZicongZheng/tcpd.c:857 | Exactly the slots of the range become zero |
| `Receiver.Server.DeliverUpToLaf` | project1——ShuangLi, ZicongZheng/tcpd.c:844-868 | The branch without wrap: new lfr, laf, slots and forwarded blocks are those of the specification that the refinement is proved about, with either reset |
| `Receiver.Server.DeliverAfterWrap` | project1——ShuangLi, ZicongZheng/tcpd.c:890-906 | The second scan, from slot 0, with the lfr = -1 case when slot 0 is free |
| `Receiver.Server.DeliverAroundWrap` | project1——ShuangLi, ZicongZheng/tcpd.c:869-909 | The wrapping branch: stop before the last slot, or go on from slot 0; whole new state and forwarded blocks |
| `Receiver.Server.Intact` | project1——ShuangLi, ZicongZheng/tcpd.c:820-931 | One intact packet: window test, duplicate test, store, deliver; acknowledged in every case, in the window or not |
| `Receiver.OtherNumbers` | project1——ShuangLi, ZicongZheng/tcpd.c:824 | A number outside 0..63 passes the window test exactly while the window wraps |
| `Datagram.OnDatagram` | project1——ShuangLi, ZicongZheng/tcpd.c:776-938 | From the bytes of one datagram: a garbled one changes nothing and is not acknowledged; an intact one does the receiver's step for the number and body at their offsets, and is acknowledged under that number |
| `Datagram.PacketRoundTrip` | project1——ShuangLi, ZicongZheng/tcpd.c:642-672 | A packet as the sender builds it passes the checksum test and yields the number and body it was made from, for any 32-bit number; every other byte but the check field, the time stamp included, is the header's own |
| `Datagram.AckRoundTrip` | project1——ShuangLi, ZicongZheng/tcpd.c:563-575 | The same for an ack, built at lines 914-920, with its number at its own offset and every other byte kept |
| `Datagram.IntRoundTrip` | project1——ShuangLi, ZicongZheng/tcpd.c:795-797 | A number written into a header field as four bytes is read back, with its sign |
| `Datagram.ByteOrder` | project1——ShuangLi, ZicongZheng/tcpd.c:795-797 | Each of the three low bytes of a field counts for its power of 256, the lowest first |
| `Reassembly.ReleaseIsRun` | project1——ShuangLi, ZicongZheng/tcpd.c:841-867 | The reference machine, with unbounded numbers: releasing hands out exactly the consecutive run that starts at the next expected frame and keeps the others |
| `Refinement.WindowTestExact` | project1——ShuangLi, ZicongZheng/tcpd.c:824 | The wrap-around test accepts a header number exactly if some frame of the window N..N+19 carries it |
| `Refinement.WindowTestInRange` | project1——ShuangLi, ZicongZheng/tcpd.c:824 | For N-44 <= n <= N+63 the test accepts exactly N..N+19 |
| `Refinement.TooOldIsTaken` | project1——ShuangLi, ZicongZheng/tcpd.c:824 | The bound 44 is sharp: every frame 45 to 64 behind is taken for a new one |
| `Refinement.DeliverShifts` | project1——ShuangLi, ZicongZheng/tcpd.c:844-909 | Over both wrap branches, meant reset: delivery forwards exactly the c consecutive filled slots after lfr, clears them, leaves the rest, and moves lfr by c places round the ring |
| `Refinement.ShiftsToFreeSlot` | project1——ShuangLi, ZicongZheng/tcpd.c:844-909 | After delivery the slot after lfr is free (all that could be delivered has been), and every filled slot is in the new window |
| `Refinement.ShiftsIsRelease` | project1——ShuangLi, ZicongZheng/tcpd.c:844-909 | Moving the ring by c slots is releasing a run of c frames from the unbounded queue |
| `Refinement.FilledRefines` | project1——ShuangLi, ZicongZheng/tcpd.c:841-909 | Delivery on a ring with one more filled slot is release on the queue with one more frame, and re-establishes the between-packets invariant |
| `Refinement.StepRefines` | project1——ShuangLi, ZicongZheng/tcpd.c:816-911 | Main refinement: a packet with true number N-44 <= n <= N+63 makes the 64-slot ring do what the unbounded reassembler does with frame n, output included; laf stays (lfr+20) mod 64, slots hold their in-window frames, slot N mod 64 is free afterwards |
| `Arrivals.RunRefines` | project1——ShuangLi, ZicongZheng/tcpd.c:776-938 | The refinement over whole runs, from any state between two packets: the output of the ring is that of the reassembler fed the same frames, and they stay in step |
| `Arrivals.StartRefines` | project1——ShuangLi, ZicongZheng/tcpd.c:719-722 | From the start: for any packets at most 44 behind and 63 ahead of the frame expected when they arrive, the ring forwards exactly what the unbounded reassembler releases |
| `Limits.StepRefinesExactly` | project1——ShuangLi, ZicongZheng/tcpd.c:824-911 | For any true number at all, the ring does what the reassembler does if and only if n is in N..N+63 or the packet is not stored |
| `Limits.AckHonestExactly` | project1——ShuangLi, ZicongZheng/tcpd.c:913-931 | After the step the frame just acknowledged is held or forwarded if and only if n < N+20: a frame past the window is acknowledged and lost |
| `Conservation.DeliverConserves` | project1——ShuangLi, ZicongZheng/tcpd.c:844-909 | Delivery, over all its loops and with either reset, neither loses nor makes a block |
| `Conservation.StepConserves` | project1——ShuangLi, ZicongZheng/tcpd.c:816-911 | Forwarded plus held blocks grows by one exactly for an in-window packet with non-blank body on a free slot, and by nothing for any other, in any state |
| `Conservation.RunConserves` | project1——ShuangLi, ZicongZheng/tcpd.c:776-938 | The same counted over a whole run of packets |
| `Limits.LiteralResetExact` | project1——ShuangLi, ZicongZheng/tcpd.c:859-866 | The reset as written equals the meant one for every packet except, and exactly, the one that completes a full window 44..63; there lfr becomes 63 instead of -1 |
| `Limits.StuckForever` | project1——ShuangLi, ZicongZheng/tcpd.c:869-909 | With lfr at 63 nothing is ever forwarded again, whatever arrives and with either reset |
| `Limits.LiteralRunExact` | project1——ShuangLi, ZicongZheng/tcpd.c:859-866 | Over whole runs the written and the meant reset agree if and only if no packet ever completes the window 44..63 |
| `Limits.LastFrames` | project1——ShuangLi, ZicongZheng/tcpd.c:859-866 | From a ring that expects 44 the completing run exists, by frames n..63 and then 44 |
| `Limits.LiteralResetFails` | project1——ShuangLi, ZicongZheng/tcpd.c:859-866 | For any non-blank block there is a run from the start after which the receiver as written forwards nothing more, whatever else arrives |
| `Protocol.InitInv` | project1——ShuangLi, ZicongZheng/tcpd.c:332-337 | The invariant holds at the start |
| `Protocol.ReleaseStream` | project1——ShuangLi, ZicongZheng/tcpd.c:841-867 | Releasing frames of a stream hands out its next piece and loses none |
| `Protocol.SenderBehindReceiver` | project1——ShuangLi, ZicongZheng/tcpd.c:604-625 | The sender's lar never passes the last frame forwarded |
| `Protocol.FrameEffect` | project1——ShuangLi, ZicongZheng/tcpd.c:816-931 | An arrival of any copy of a sent frame keeps the forwarded blocks a prefix of the stream, forgets no frame, and leaves the acknowledged frame received |
| `Protocol.OneOutstanding` | project1——ShuangLi, ZicongZheng/tcpd.c:573-605 | With at most twenty outstanding, a slot number that has not been reused names one frame |
| `Protocol.AckArrivesKeeps` | project1——ShuangLi, ZicongZheng/tcpd.c:572-625 | Taking in an ack keeps the invariant: only received frames count as acknowledged, and lar stays behind |
| `Protocol.NextKeeps` | project1——ShuangLi, ZicongZheng/tcpd.c:639-687 | Every step (send, resend, loss, arrival of a frame or of an ack, duplicates included) keeps the invariant |
| `Protocol.Safety` | project1——ShuangLi, ZicongZheng/tcpd.c:639-643 | Every interleaving, for any guard that keeps at most twenty frames outstanding: what went to ftps is a prefix of the stream, every acknowledged frame is forwarded or stored, lar has not passed the receiver |
| `Scenarios.LossAndResend` | project1——ShuangLi, ZicongZheng/tcpd.c:455-497 | In every setting any copy may be lost, and any frame that is out and not acknowledged may be sent again |
| `Overrun.GuardCounts` | project1——ShuangLi, ZicongZheng/tcpd.c:640 | The window part of the sender's guard on slot numbers, whatever true numbers they stand for: exact while lfs has not come round, one too few once lfs is below lar |
| `Overrun.SlotsCount` | project1——ShuangLi, ZicongZheng/tcpd.c:686-689 | The slot numbers of lar and lfs agree with the true numbers mod 64, start at -1, stay in range, and that of lfs is counted up and goes from 62 to -1 as the source counts it |
| `Overrun.GuardExactly` | project1——ShuangLi, ZicongZheng/tcpd.c:640 | On true numbers: the guard as written allows the next frame if and only if fewer than 20 are outstanding, or fewer than 21 once lfs has come round to the next turn of the slots and lar has not |
| `Overrun.Believed` | project1——ShuangLi, ZicongZheng/tcpd.c:913-931 | With frames k..k+20 out together the last one arrives, is acknowledged, is not stored, and the sender takes the ack in |
| `Overrun.Fails` | project1——ShuangLi, ZicongZheng/tcpd.c:639-640 | A guard that can let twenty-one frames be outstanding has a run from the start in which the sender believes in a frame that was never received |
| `Overrun.WindowExact` | project1——ShuangLi, ZicongZheng/tcpd.c:639-643 | Over every run each acknowledgement the sender takes in is true if and only if its window is at most twenty (or the stream has at most twenty blocks) |
| `Overrun.AsWrittenExact` | project1——ShuangLi, ZicongZheng/tcpd.c:640 | For the window part of the guard as written: if and only if the stream has at most 64 blocks, that is, ends before the slot numbers come round |
| `Resets.WrittenArrival` | project1——ShuangLi, ZicongZheng/tcpd.c:816-931 | With the reset as written an arrival keeps the invariant of the whole system, or leaves the ring stuck in front of a frame whose number is a multiple of 64, with everything forwarded and acknowledged so far right |
| `Resets.PrefixAnyway` | project1——ShuangLi, ZicongZheng/tcpd.c:859-866 | With the reset as written, too, what went to ftps is a prefix of the stream over every run |
| `Resets.StuckArrival` | project1——ShuangLi, ZicongZheng/tcpd.c:869-931 | A stuck ring still takes frames 64..83 into slots 0..19, so of at most 84 blocks none is refused and acknowledged |
| `Stalls.GetsStuck` | project1——ShuangLi, ZicongZheng/tcpd.c:859-866 | For every stream of at least 64 blocks the whole system has a run that ends with the ring stuck after 64 blocks |
| `Stalls.MeantCompletable` | project1——ShuangLi, ZicongZheng/tcpd.c:859-866 | With the meant reset every reachable world can be completed |
| `Stalls.CompletableExactly` | project1——ShuangLi, ZicongZheng/tcpd.c:859-866 | With the reset as written every reachable world can be completed if and only if the stream has at most 64 blocks |
| `Stalls.Refused84` | project1——ShuangLi, ZicongZheng/tcpd.c:869-931 | For every longer stream than 84 blocks: a run in which frame 84 is refused, acknowledged and believed |
| `Stalls.HonestExactly` | project1——ShuangLi, ZicongZheng/tcpd.c:859-866 | With the reset as written every acknowledgement the sender takes in is true over every run if and only if the stream has at most 84 blocks |
| `Stale.OldArrival` | project1——ShuangLi, ZicongZheng/tcpd.c:824-911 | On a stream of fewer than 64 blocks a copy of any age at most waits under its number plus 64; what is forwarded stays a prefix |
| `Stale.ForwardedTwice` | project1——ShuangLi, ZicongZheng/tcpd.c:824-911 | For a stream of 64 blocks or more, a run in which an old copy is forwarded once more after the end |
| `Stale.OldFramesExact` | project1——ShuangLi, ZicongZheng/tcpd.c:824-911 | When copies of frames can be any age, what is forwarded stays a prefix of the stream over every run if and only if the stream has fewer than 64 blocks |
| `Stale.OldAcksExact` | project1——ShuangLi, ZicongZheng/tcpd.c:573-625 | When acks can be any age, every acknowledgement the sender takes in is true over every run if and only if the stream has at most 64 blocks |
| `Completion.MoveLar` | project1——ShuangLi, ZicongZheng/tcpd.c:455-497 | A frame that is not acknowledged can be sent again, acknowledged again, and lar moves: acks lost for frames already forwarded do not block the sender |
| `Completion.CanAdvance` | project1——ShuangLi, ZicongZheng/tcpd.c:639-693 | From every reachable world with blocks missing some continuation forwards one more |
| `Completion.CanComplete` | project1——ShuangLi, ZicongZheng/tcpd.c:639-693 | From every reachable world some continuation forwards the whole stream |
| `Completion.RunForwardsNoBlank` | project1——ShuangLi, ZicongZheng/tcpd.c:846-850 | No run forwards an all-zero block |
| `Completion.TransferableExactly` | project1——ShuangLi, ZicongZheng/tcpd.c:187-197 | A stream can be transferred by some run if and only if none of its blocks is all zeros |
| `Time.TimevalSubtract` | project1——ShuangLi, ZicongZheng/tcpd.c:1299-1319 | On the two pointed-to structs, result = x allowed: exact new fields of result and y, exact totals, y's total kept, and the verdict in both aliasing cases |
| `Time.SubtractExact` | project1——ShuangLi, ZicongZheng/tcpd.c:1299-1316 | Totals are exact for any un-normalised fields, y keeps its total, and the result's microseconds are in 0..10^6 |
| `Time.BelowExact` | project1——ShuangLi, ZicongZheng/tcpd.c:1299-1318 | The verdict is 1 exactly if x < y or the totals tie with split microseconds; 1 implies x <= y, 0 implies x >= y |
| `Time.SubtractStable` | project1——ShuangLi, ZicongZheng/tcpd.c:1302-1318 | Repeating the call changes no field and gives the same verdict |
| `Time.KeptRemainder` | project1——ShuangLi, ZicongZheng/tcpd.c:1267-1291 | What an update leaves on the node it keeps is not negative, and zero only as (-1 s, 10^6 us) |
| `Fields.LeftTotal` | project1——ShuangLi, ZicongZheng/tcpd.c:1267-1287 | What is left of the elapsed time, field by field, has the right total after every node |
| `Fields.MissedLeaves` | project1——ShuangLi, ZicongZheng/tcpd.c:1288-1292 | A node that is kept although it is due is left with minus one second and a million microseconds |
| `Fields.EnterStable` | project1——ShuangLi, ZicongZheng/tcpd.c:1126-1145 | Repeating a comparison of the search changes nothing of what it leaves |
| `Fields.NormalPair` | project1——ShuangLi, ZicongZheng/tcpd.c:1299-1316 | On normal operands no split tie arises, differences are normal again, and a carry takes a time out of its range by one second at most |
| `Fields.KeptNormal` | proj1/timmer.c:314-342 | On a list of normal times an update misses nothing and leaves normal times |
| `Fields.EnterNear` | proj1/timmer.c:189-264 | On normal times an insertion leaves times at most one carry from normal, which the printing then makes |
| `Fields.PlaceIsExpired` | project1——ShuangLi, ZicongZheng/tcpd.c:1106-1151 | A new timer goes in behind exactly the nodes that an update after its interval would drop, split ties included |
| `Fields.PutAtRest` | project1——ShuangLi, ZicongZheng/tcpd.c:1135-1144 | An insertion before a node leaves a pair that another comparison does not change, with the total shared between them and every other time as it was |
| `Fields.MergeUndoesPut` | project1——ShuangLi, ZicongZheng/tcpd.c:1219-1234 | Deleting a node just put in before another gives that one its time back, field by field, and leaves the others |
| `Time.Added` | project1——ShuangLi, ZicongZheng/tcpd.c:1321-1325 | Field-wise addition adds totals |
| `Time.AddedUndone` | project1——ShuangLi, ZicongZheng/tcpd.c:1321-1325 | Addition makes no carry: taking either operand off field by field gives the other |
| `Time.Shown` | proj1/timmer.c:272-276 | The carry made while printing keeps the total |
| `Time.ShownOnce` | proj1/timmer.c:272-276 | The carry is made once, and exactly when the microseconds are negative |
| `Time.OfMicros` | project1——ShuangLi, ZicongZheng/tcpd.c:1087-1088 | The interval's total is kept and its microseconds are normalised |
| `TimerList.Timers.constructor` | project1——ShuangLi, ZicongZheng/tcpd.c:234 | The empty list that counts from the clock |
| `TimerList.Timers.FindTimenode` | project1——ShuangLi, ZicongZheng/tcpd.c:1058-1071 | Finds the id exactly if a timer of the schedule has it |
| `TimerList.Timers.DeleteHead` | project1——ShuangLi, ZicongZheng/tcpd.c:1202-1216 | The first timer leaves, its time is added field by field to the next node's, and no other time or deadline moves; the list stays well formed with the stale forward of the new head |
| `TimerList.Timers.LinkAround` | project1——ShuangLi, ZicongZheng/tcpd.c:1219-1234 | The assignments of the deletion of a later node: its neighbours point at each other, and only the next node's time changes |
| `TimerList.Timers.Unlink` | project1——ShuangLi, ZicongZheng/tcpd.c:1219-1234 | A later timer leaves: both neighbours re-linked, its time added field by field to the next node's, no other time or deadline moved |
| `TimerList.Timers.DeleteTimenode` | project1——ShuangLi, ZicongZheng/tcpd.c:1183-1242 | Cancel by id: exactly that id's timer leaves and its time is merged into the next one's, an unknown id changes nothing; the list stays doubly linked and acyclic |
| `TimerList.Timers.DropDue` | project1——ShuangLi, ZicongZheng/tcpd.c:1267-1287 | The loop drops exactly the nodes that the times before the call decide, field by field, asks to resend each in list order, and rewrites only the node it stops at |
| `TimerList.Timers.SettleHead` | project1——ShuangLi, ZicongZheng/tcpd.c:1288-1292 | The remaining time comes off the node that stays first, and the list is well formed again |
| `TimerList.Timers.TakeElapsed` | project1——ShuangLi, ZicongZheng/tcpd.c:1248-1258 | The elapsed time since lasttime, or nothing if it was never set; lasttime becomes now |
| `TimerList.Timers.DropExpired` | project1——ShuangLi, ZicongZheng/tcpd.c:1244-1294 | The whole update on times: how many nodes leave, which times stay, and when the first of those is zero |
| `TimerList.Timers.UpdateTimeList` | project1——ShuangLi, ZicongZheng/tcpd.c:1244-1294 | Splits the schedule by time: resends for a front segment, all due by now; the rest is due at now or later, with no deadline changed. All of the rest is strictly later if and only if the times before the call do not end in a split tie; which nodes leave and which times stay is stated on those times too |
| `TimerList.Timers.LinkFirst` | project1——ShuangLi, ZicongZheng/tcpd.c:1111-1114 | The pointer and time assignments of an insertion at the front |
| `TimerList.Timers.InsertFirst` | project1——ShuangLi, ZicongZheng/tcpd.c:1106-1117 | In at the front: the schedule gains exactly this entry at place 0 and no deadline moves |
| `TimerList.Timers.LinkBefore` | project1——ShuangLi, ZicongZheng/tcpd.c:1137-1142 | The pointer and time assignments of an insertion before a later node, through its forward pointer |
| `TimerList.Timers.InsertBefore` | project1——ShuangLi, ZicongZheng/tcpd.c:1135-1144 | In before node k: the schedule gains exactly this entry at place k and no deadline moves |
| `TimerList.Timers.InsertLast` | project1——ShuangLi, ZicongZheng/tcpd.c:1126-1134 | In after the last node |
| `TimerList.Timers.Compare` | project1——ShuangLi, ZicongZheng/tcpd.c:1126 | A comparison rewrites the node's time but no deadline; its verdict is right in totals and stable |
| `TimerList.Timers.TakeOff` | project1——ShuangLi, ZicongZheng/tcpd.c:1145-1149 | Moving on takes the node's time off what is left of the interval, which stays non-negative |
| `TimerList.Timers.AddAtEnd` | project1——ShuangLi, ZicongZheng/tcpd.c:1126-1134 | The first case of the search: the interval loses the last node's time and the node goes in behind it |
| `TimerList.Timers.AddHere` | project1——ShuangLi, ZicongZheng/tcpd.c:1135-1144 | The second case: the node goes in before the one it was compared with |
| `TimerList.Timers.InsertInOrder` | project1——ShuangLi, ZicongZheng/tcpd.c:1119-1151 | The search terminates, exactly one of its three cases fires on every pass, it never inserts before the head, follows only true forward pointers, inserts by deadline, and leaves the times that the search on values leaves |
| `TimerList.Timers.AddToEmpty` | project1——ShuangLi, ZicongZheng/tcpd.c:1095-1104 | The first timer re-reads the clock and is due its interval later |
| `TimerList.Timers.AddToOthers` | project1——ShuangLi, ZicongZheng/tcpd.c:1106-1153 | Any other timer counts from lasttime as it is and goes in by its deadline |
| `TimerList.Timers.AddTimenode` | project1——ShuangLi, ZicongZheng/tcpd.c:1073-1154 | Start: a known id changes nothing; otherwise the schedule gains exactly one entry, due lasttime plus interval, behind exactly the nodes that an update after its interval would drop, and nothing else moves; only a first timer re-reads the clock; the list stays well formed, and its times are those of the search on values |
| `TimerList.Timers.PrintTimeList` | proj1/timmer.c:266-280 | Printing rewrites times but moves no deadline |
| `TimerList.Timers.InOrder` | project1——ShuangLi, ZicongZheng/tcpd.c:1073-1294 | In every well-formed list deadlines do not decrease along the list and ids are pairwise distinct |
| `TimerList.Unlinked` | project1——ShuangLi, ZicongZheng/tcpd.c:1217-1236 | The pointer surgery of a deletion gives a linked list whose times are merged at that place |
| `TimerList.Dropped` | project1——ShuangLi, ZicongZheng/tcpd.c:1286-1292 | Dropping a front segment leaves a linked list whose first time is reduced |
| `TimerList.Linked` | project1——ShuangLi, ZicongZheng/tcpd.c:1106-1144 | The pointer surgery of an insertion gives a linked list whose times are shared at that place |
| `Schedule.AbsoluteSorted` | project1——ShuangLi, ZicongZheng/tcpd.c:1073-1294 | Non-negative relative times make deadlines that never decrease along the list |
| `Schedule.InsertKeeps` | project1——ShuangLi, ZicongZheng/tcpd.c:1106-1151 | Sharing one node's time with a new node in front of it adds one deadline and moves none |
| `Schedule.RemoveKeeps` | project1——ShuangLi, ZicongZheng/tcpd.c:1204-1226 | Giving a leaving node's time to the next one removes one deadline and moves none |
| `Schedule.RebaseKeeps` | project1——ShuangLi, ZicongZheng/tcpd.c:1258-1292 | Dropping a front segment while the base moves to now moves no deadline |
| `Schedule.UpdateSplits` | project1——ShuangLi, ZicongZheng/tcpd.c:1244-1294 | What leaves was due by now, what stays is due at now or later |
| `TimerRuns.RunDistinct` | project1——ShuangLi, ZicongZheng/tcpd.c:1077-1082 | Ids stay pairwise distinct over every run of starts, cancels and readings |
| `TimerRuns.DeadlineOrigin` | project1——ShuangLi, ZicongZheng/tcpd.c:1073-1294 | Over every run each deadline is the one its own start fixed (lasttime at the end of that add plus the interval), and the timer has kept it ever since whatever else was started, cancelled or updated |
| `TimerRuns.StaysUntilDue` | project1——ShuangLi, ZicongZheng/tcpd.c:1244-1294 | Over any run, a timer that is not cancelled is in the list as long as every reading came before its deadline |
| `TimerRuns.GoneAfterDue` | project1——ShuangLi, ZicongZheng/tcpd.c:1267-1287 | Over any run, once a reading was past the deadline the timer has gone, and stays away unless it is started again |
| `TimerLoops.TimesOfMissed` | project1——ShuangLi, ZicongZheng/tcpd.c:1108-1131 | Two starts, for 1.5 s and 2.4 s, leave the first node with (2 s, -500000 us), and an update 1.5 s later misses it |
| `TimerLoops.TwoStarts` | project1——ShuangLi, ZicongZheng/tcpd.c:1073-1154 | The same two starts on the list itself leave those times |
| `TimerLoops.MissedDeadline` | project1——ShuangLi, ZicongZheng/tcpd.c:1244-1294 | The failing input of the update: read at its very deadline, the first of the two stays in the list and nothing is resent |
| `TimerRuns.PrototypeTimer` | proj1/timmer.c:72-122 | A timer started by the prototype is in the list after wake-up j if and only if every wake-up up to j came before its start reading plus its interval, with no hypothesis on the clock, as long as it is not started afresh; stated on the runs that the loop on the real list is proved to make (PrototypeLoop) |
| `TimerRuns.PrototypeTimerByClock` | proj1/timmer.c:72-122 | The same if and only if, on the same runs, whatever is started in between, with a clock that does not go back |
| `TimerLoops.ReadClock` | proj1/timmer.c:314-342 | An update of the prototype's list leaves nothing that is due by the reading, not even at that very moment, and only normal times |
| `TimerLoops.AddAndPrint` | proj1/timmer.c:189-280 | An add and the printing after it leave only normal times and the nodes there were and new ones, and are one start of the schedule |
| `TimerLoops.PrototypeStart` | proj1/timmer.c:76-107 | One start of the loop on the real list: an update that leaves nothing due, then the add, then the printing, as two schedule steps; the list keeps normal times and has only nodes there were and new ones |
| `TimerLoops.PrototypeWake` | proj1/timmer.c:74-81 | One wake-up on the real list is one reading of the schedule that leaves nothing due; the list keeps normal times and gets no node |
| `TimerLoops.OneTurn` | proj1/timmer.c:72-122 | One turn of the loop prolongs a run of prompt readings by its own one or two operations |
| `TimerLoops.PrototypeLoop` | proj1/timmer.c:72-122 | The loop on the real list, for any wake-ups and starts with normal clock readings: its states and operations are a run with prompt readings as the two theorems above take it, from the list before to the list after; every wake-up is one reading at its own clock value, every start a reading followed by a start with its own id, interval and second clock value, in the order of the events |
| `TimerLoops.Serve` | project1——ShuangLi, ZicongZheng/tcpd.c:256-315 | One request of the daemon's timer process, by its kind: a start adds that id due its interval later, a cancel takes out exactly that id, a time-out drops what is due and resends exactly the ids dropped, in list order; only a time-out resends |
| `TimerLoops.DaemonLoop` | project1——ShuangLi, ZicongZheng/tcpd.c:234-318 | The daemon's timer loop on the real list, for any requests and clock readings: request by request the state changes as that start, cancel or time-out says, with the ids resent at each; the states and operations are a run of the schedule, so the theorems about runs hold of the list |
| `Crc.DivideByte` | project1——ShuangLi, ZicongZheng/tcpd.c:963-977 | The inner loop is eight register steps |
| `Crc.CrcInit` | project1——ShuangLi, ZicongZheng/tcpd.c:946-987 | The table holds, for every byte, that byte divided through the register |
| `Crc.CrcFast` | project1——ShuangLi, ZicongZheng/tcpd.c:164-185 | The byte loop computes the checksum function that the theorems below are about, for every message |
| `Crc.ShiftWordBits` | project1——ShuangLi, ZicongZheng/tcpd.c:969-976 | One shift-and-xor on the 16-bit word is one step of polynomial long division on its bits |
| `Crc.TableStep` | project1——ShuangLi, ZicongZheng/tcpd.c:176-177 | One table look-up is eight message bits fed to the division register |
| `Crc.ChecksumFeeds` | project1——ShuangLi, ZicongZheng/tcpd.c:174-178 | The byte loop is the bit-by-bit register fed with the whole message |
| `Crc.ChecksumIsRemainder` | project1——ShuangLi, ZicongZheng/tcpd.c:164-185 | For every message length the value is the remainder of message(x)*x^16 by x^16+x^15+x^2+1: it satisfies the division equation and no other word does |
| `Division.RemDivides` | project1——ShuangLi, ZicongZheng/head.h:34 | Long division really divides: bits = quotient * divisor + remainder as polynomials over GF(2) |
| `Division.RemUnique` | project1——ShuangLi, ZicongZheng/head.h:34 | Quotient and remainder are unique |
| `Division.RemainderExact` | project1——ShuangLi, ZicongZheng/head.h:32-34 | A word satisfies the division equation for some quotient if and only if it is the remainder |
| `Registers.FeedIsRem` | project1——ShuangLi, ZicongZheng/tcpd.c:963-977 | Adding each bit at the top of the register is dividing the message followed by sixteen zeros |
| `Registers.FeedTogether` | project1——ShuangLi, ZicongZheng/tcpd.c:176-177 | Up to sixteen bits can be added at the top at once |
| `Registers.StepLosesNothing` | project1——ShuangLi, ZicongZheng/tcpd.c:969-976 | The register step is injective: only zero shifts to zero |
| `Detection.ParityOfChecksum` | project1——ShuangLi, ZicongZheng/tcpd.c:164-185 | The checksum has the parity of the message |
| `Detection.SealedIsAccepted` | project1——ShuangLi, ZicongZheng/tcpd.c:665-672 | Filling the check field with the checksum of the rest makes a packet that the receiver accepts, nothing else changed |
| `Detection.AcceptedIsRemainder` | project1——ShuangLi, ZicongZheng/tcpd.c:806-817 | A packet is accepted if and only if its check field, low byte first, is the remainder of its other bits with sixteen zeros where the field is and sixteen more behind |
| `Detection.SealedIsRemainder` | project1——ShuangLi, ZicongZheng/tcpd.c:665-672 | What the sender puts into the field is that remainder, whatever was there; no other byte changes |
| `Detection.AcceptedIsEven` | project1——ShuangLi, ZicongZheng/tcpd.c:808-817 | Every accepted packet has even parity past the address |
| `Detection.OddFlipsRejected` | project1——ShuangLi, ZicongZheng/tcpd.c:808-817 | Any odd number of flipped bits, check field included, is rejected |
| `Detection.FieldDamageRejected` | project1——ShuangLi, ZicongZheng/tcpd.c:808-817 | Any damage confined to the check field is rejected |
| `Detection.BurstLeavesTrace` | project1——ShuangLi, ZicongZheng/tcpd.c:174-178 | A burst of at most sixteen bits anywhere leaves a non-zero register, whatever follows |
| `Detection.BurstRejected` | project1——ShuangLi, ZicongZheng/tcpd.c:786-817 | An accepted packet hit by a burst of at most sixteen consecutive bits outside the check field is rejected |
| `Detection.UnnoticedExactly` | project1——ShuangLi, ZicongZheng/tcpd.c:808-817 | Any damage at all to an accepted packet, check field included, goes unnoticed if and only if the register it leaves outside the field equals the change of the field |
| `Straddle.BurstUnnoticed` | project1——ShuangLi, ZicongZheng/tcpd.c:563-572 | Bursts that reach into the check field can pass: in every accepted ack four bits within fourteen places can be flipped and it is accepted again |
| `Rtt.AfterIsDifferent` | project1——ShuangLi, ZicongZheng/tcpd.c:23-26 | after() on unsigned operands holds for any two different numbers |
| `Rtt.TcpSock.Init` | project1——ShuangLi, ZicongZheng/tcpd.c:116-132 | All fields zero |
| `Rtt.TcpSock.TcpRttEstimator` | project1——ShuangLi, ZicongZheng/tcpd.c:43-114 | One call changes the fields to the estimate that the run theorems are about |
| `Rtt.TcpSock.TcpSetRto` | project1——ShuangLi, ZicongZheng/tcpd.c:29-32 | For whatever bounds L, M the samples have kept, the timeout is the unreduced sum srtt/8 + rttvar and lies between L+2000 and M+max(2000, 2M, 4(M-L)) |
| `Rtt.MdevTowardsError` | project1——ShuangLi, ZicongZheng/tcpd.c:68-89 | The mdev that a call leaves, whenever it fits in 32 bits: the gap to four times the error is brought to three quarters; a shorter time beyond a quarter of mdev raises it by an eighth of that step only |
| `Rtt.FirstSample` | project1——ShuangLi, ZicongZheng/tcpd.c:106-113 | The first sample gives srtt 8m, mdev 2m, and rttvar and mdev_max the larger of 2m and 2000; nothing else changes |
| `Rtt.ZeroCountsAsOne` | project1——ShuangLi, ZicongZheng/tcpd.c:63-64 | A sample of 0, the daemon's first, does exactly what a sample of 1 does |
| `Rtt.SequenceUntouched` | project1——ShuangLi, ZicongZheng/tcpd.c:43-114 | No call changes rtt_seq, snd_una or snd_nxt |
| `Rtt.PeriodEnds` | project1——ShuangLi, ZicongZheng/tcpd.c:91-104 | At the end of a period rttvar's excess over the period's largest mdev comes down by a quarter and mdev_max restarts at 2000; within a period both are plain maxima |
| `Rtt.MdevBounded` | project1——ShuangLi, ZicongZheng/tcpd.c:68-89 | The deviation step, through all its cases, stays non-negative and below the bound |
| `Rtt.LaterBounded` | project1——ShuangLi, ZicongZheng/tcpd.c:67-104 | A later sample keeps every bound, wraps nothing, for any snd_una and rtt_seq |
| `Rtt.RunBounded` | project1——ShuangLi, ZicongZheng/tcpd.c:29-114 | Every run of samples in [L,M], 8M < 2^32: srtt>>3 in [L,M], first-sample branch once, no wrap, L+2000 <= RTO <= M+max(2000, 2M, 4(M-L)) |
| `Rtt.FirstSampleLost` | project1——ShuangLi, ZicongZheng/tcpd.c:106-111 | Without the bound on samples: the first sample leaves srtt at 0 if and only if it is a positive multiple of 2^29 |
| `Rtt.GapShrinks` | project1——ShuangLi, ZicongZheng/tcpd.c:63-69 | One constant sample brings the gap to the band [8m,8m+7] to seven eighths of itself, from either side |
| `Rtt.SteadyConverges` | project1——ShuangLi, ZicongZheng/tcpd.c:63-69 | Under a constant sample srtt moves strictly to the band without passing it, reaches it in finitely many calls, and stays: srtt>>3 is the sample |
| `Rtt.CallPeak` | project1——ShuangLi, ZicongZheng/tcpd.c:89-113 | One call with snd_una = rtt_seq keeps rttvar equal to mdev_max and makes it the larger of mdev and what it was (2000 at the first sample) |
| `Rtt.RttvarIsPeak` | project1——ShuangLi, ZicongZheng/tcpd.c:89-132 | From init, rttvar = mdev_max = the running maximum of 2000 and every mdev from the first sample on |
| `Rtt.MarginNeverShrinks` | project1——ShuangLi, ZicongZheng/tcpd.c:29-32 | RTO - (srtt>>3) never decreases over a run |
| `FileTransfer.SendFile` | project1——ShuangLi, ZicongZheng/ftpc.c:75-85 | Sends the file's consecutive pieces of 1000 bytes, the last one shorter, and no empty one |
| `FileTransfer.PiecesRejoin` | project1——ShuangLi, ZicongZheng/ftpc.c:75-85 | The pieces joined together are the file; all have 1000 bytes but a shorter last one, and none is empty |
| `FileTransfer.PaddingIsPadded` | project1——ShuangLi, ZicongZheng/tcpd.c:538 | Receiving a piece into a slot puts it at the front of the block, whatever the slot held, and leaves the rest of the slot |
| `FileTransfer.ReceiveFile` | project1——ShuangLi, ZicongZheng/ftps.c:83-103 | The loop writes what the specification says of the messages it takes, and takes no more once the size is reached |
| `FileTransfer.WrittenExactly` | project1——ShuangLi, ZicongZheng/ftps.c:83-103 | For any announced size and messages of any lengths: the first size bytes of what arrives are written, or all of it, and no message is taken after the one that reaches the size |
| `FileTransfer.WrittenSoFar` | project1——ShuangLi, ZicongZheng/ftps.c:85-103 | Of the first k padded blocks it writes the first 1000k bytes of the file, or all of it |
| `FileTransfer.WrittenStops` | project1——ShuangLi, ZicongZheng/ftps.c:85 | Once the size is reached nothing more is taken |
| `FileTransfer.FileRoundTrip` | project1——ShuangLi, ZicongZheng/ftps.c:83-103 | For every file and any padding: the file is reproduced exactly after exactly ceil(size/1000) blocks, whatever follows |
| `EndToEnd.FileSafety` | project1——ShuangLi, ZicongZheng/ftps.c:73-103 | Over every run of the protocol the file written so far is a prefix of the file sent, and the whole file once every block is forwarded |
| `EndToEnd.FileCanComplete` | project1——ShuangLi, ZicongZheng/ftps.c:73-103 | From every reachable world some continuation makes ftps write the whole file |
| `BulkSender.NoSeam` | proj2/myproj2.cc:50-53 | 1040 is a multiple of 26: a place in the buffer has the letter of its place in the stream |
| `BulkSender.OneTurn` | proj2/myproj2.cc:232-239 | What one turn counts is at most what Send takes, the free space, the rest of the buffer and the rest of the total, and equals one of the four |
| `BulkSender.SentInParts` | proj2/myproj2.cc:224-242 | Turns add up: the count after two series of turns is the second started from the first |
| `BulkSender.Sender.constructor` | proj2/myproj2.cc:88-93 | Byte i of the 1040 is 'a' + i mod 26 |
| `BulkSender.Sender.Advance` | proj2/myproj2.cc:233-239 | Bytes accepted from the current offset are the next letters of the pattern, within the buffer and the total |
| `BulkSender.Sender.WriteUntilBufferFull` | proj2/myproj2.cc:224-242 | For any answers of the socket: byte k accepted is 'a' + k mod 26, the total is never passed, the count is what the turns add up to, and whether the call closed the socket, returned after a failed Send, or is still looping, by the answers |

## Left out

- Sockets, `select`, `fork`, pipes, host look-up, printing and exits on system errors: operating-system plumbing. The
  only `select` effect that could reach the modelled state, its write-back into the head's time through `timeout1`
  (`tcpd.c:254`, `tcpd.c:300`), is kernel behaviour and is not modelled.
- The sender's search for the new `lar` and its window guard as written (`tcpd.c:604-625`, `tcpd.c:640`), except the
  guard's count: the loop bound parses differently from what was meant. The sender is modelled by contract.
- Sender slots as an array: `sendbuf` and `bufpos` are replaced by the stream of blocks.
- Header encoding of the file size and of cancelled ids with `strncpy` (`ftpc.c:65`, `tcpd.c:1043`), which stops at a
  zero byte: the decoded value is taken as given, and so is the announced size.
- Receiver.Server.Intact: a header number that passes the window test although it is outside 0..63 is not modelled,
  because the source then reads and writes outside its buffer; every other number is.
- Datagram.OnDatagram: the same numbers, and datagrams shorter than a packet, whose length the source also uses for the
  blocks that it forwards, are not modelled.
- Time.TimevalSubtract: fields are unbounded integers; overflow of `time_t` and of the `int` that counts seconds is
  not modelled.
- TimerList.Timers.AddTimenode: the rounding of a double interval to seconds and microseconds is not modelled, and
  dropped nodes are not freed, as in the source.
- Rtt.TcpSock.TcpRttEstimator: the signed intermediate is unbounded, as a 64-bit `long` is for these operands.
- Detection.BurstRejected: bursts that reach into the check field together with bits outside it are not all rejected;
  `Detection.UnnoticedExactly` gives the condition and `Straddle.BurstUnnoticed` an input.
- Liveness under a fair network: the project shows that every reachable world can be completed, not that it will be.
- `calculate_rtt` and the choice of the sample for a retransmitted frame: they only add arithmetic on two clock
  readings.
- `lab1` to `lab5`, the ns-3 topology of `proj2` and `proj2/get_seq.py`: wrappers, library calls and one-loop scans
  that would only add easy members. `Close()` in the bulk sender is reduced to the fact that it is called.
