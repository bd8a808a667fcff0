# Verified models of the H713 drivers and tools

This project models the parts of the H713 bring-up tree whose correctness is an argument about state
rather than about hardware, and proves what they keep over every input and every run.

| file | what it models |
|---|---|
| `TcpAckSlot.dfy`, `TcpAckTable.dfy`, `TcpAck.dfy` | the TCP ACK suppression filter: 32-bit sequence comparison, one slot as an automaton, the 32-slot table as a transition system, and the filter as the driver updates it in place |
| `Nat25Map.dfy`, `Nat25.dfy` | the NAT2.5 address database: an intrusive hash table with `next`/`pprev` links that refines a plain map, with ageing and the source shortcut |
| `Dhcp.dfy` | the in-place broadcast patch of DHCP requests and its incremental checksum update |
| `Md5Spec.dfy`, `Md5.dfy`, `Md5Vector.dfy` | MD5 of a whole message as RFC 1321 defines it, the streaming implementation, and one digest of the standard's test suite |
| `Nv12.dfy`, `Present.dfy`, `Nv12Mode.dfy` | NV12 to ARGB conversion split over threads, the reader ring with double-buffered flips, and both together |
| `CmdMgr.dfy`, `Firmware.dfy` | the firmware command manager, chunked upload, command framing and transfer lengths |
| `FrameQueue.dfy` | the prioritised frame queue |
| `Crc.dfy`, `Crc8.dfy`, `CrcDivision.dfy`, `Ymodem.dfy` | CRC algebra for messages of any length, polynomial division, and the YMODEM-1K sender against a receiver over a bad line |
| `BtSleep.dfy` | the Bluetooth sleep protocol |

Where the source updates fields in place there is a class, and each of its methods is proved to take the
state exactly where a step function on values says. The theorems are then about all runs of that step
function. Every locked section is one step, and interrupts, timers, threads and the far end of a line are
steps or parameters that may come at any time.

## Where the code does less than it promises

The models follow the code. These are the places where it falls short of its evident purpose; each has a
lemma that shows the failure and a statement of exactly when it does not happen.

- A flow slot that expires while it holds an ACK keeps it, and the slot's next flow can displace it
  (`AckTable.RecycledSlotLosesAck`). Until its slot expires a flow loses no ACK of its own
  (`AckTable.FlowNeverLosesAck`); one still held then is lost exactly if one of the next flow is accepted, or
  the filter is shut down, before the timer can send (`AckTable.HeldAckFateInTable`).
- A frame that finds the queue full joins the level of the frame it replaces, not its own
  (`FrameQueue.EvictionDemotes`), and can be overtaken by frames of lower priority
  (`FrameQueue.EvictionInvertsPriority`).
- Draining the command manager while a listed command's waiter has timed out but not yet taken the lock
  unlinks the command twice and wraps the counter (`CmdMgr.UnsafeDrainCorrupts`,
  `CmdMgr.CorruptionIsReachable`); no other drain does harm (`CmdMgr.RunInv`). A drained waiter is told
  success (`CmdMgr.DrainedWaiterGetsZero`).
- The DHCP patch adds the whole new flags word instead of the change, so it keeps a checksum valid exactly
  when the old flags were zero (`Dhcp.ValidIffFlagsWereZero`), and it gives a request without a checksum one
  (`Dhcp.AbsentChecksumBecomesPresent`) and can turn a present one into none
  (`Dhcp.PresentChecksumBecomesAbsent`).
- `MD5Update` never returns for the longest inputs, because its guard `i + 64` wraps
  (`Md5.LoopEndsIffFits`).
- A refused interrupt request, exactly if a port was found, leaves the sleep mode on without its protocol
  (`BtSleep.StepSafe`), and the UART can be left powered down with the mode off
  (`BtSleep.RefusedIrqStrandsUart`) until it is switched on again (`BtSleep.StrandedUartRecovers`).
- A timed-out commit lets the next picture be copied into the buffer on screen (`Present.TimeoutCanTear`);
  without one that never happens after the first picture (`Present.NoTearing`).
- The transfer of a command of 1529 to 1532 bytes, and of no other, runs past the end of the command buffer
  (`Firmware.TransferFits`).
- The NAT2.5 shortcut compares source MAC addresses only, so a host that changes its IP address keeps
  refreshing the record of the old one, and the new one is forgotten (`Nat25.AddressInUseIsForgotten`).
  The right record is refreshed exactly if the MAC is new or the address is not (`Nat25.Database.Shortcut`).
- A YMODEM receiver can take a frame for its neighbour if number and complement are both hit and still add
  up, the number moves by one, and nothing else of the frame is hit (`Ymodem.HarmIsReal`,
  `Ymodem.TruncatedFile`); in every other case the two stay in step (`Ymodem.ExchangeInStep`).

## Model

| member | source | states |
|---|---|---|
| SeqNum.UnwrapIsTheOne | modules/aic8800/aic8800_fdrv/aicwf_tcp_ack.h:18 | every 32-bit number names exactly one number of the 2^32-wide window around the front |
| SeqNum.BeforeIsOrder | modules/aic8800/aic8800_fdrv/aicwf_tcp_ack.h:18 | inside that window the wrap-around comparison is the order of the unbounded numbers, equality included |
| AckSlot.LiveStep | modules/aic8800/aic8800_fdrv/aicwf_tcp_ack.c:435-511 | what any event of a live slot does to the front, the held ACK and the ACK that leaves: an accepted ACK replaces the held one or leaves itself, a stale one is dropped |
| AckSlot.NothingLostStep | modules/aic8800/aic8800_fdrv/aicwf_tcp_ack.c:30-61 | any such effect keeps: the most advanced ACK is the held one or the last one out, ACKs leave in ascending order, dropped ones are covered |
| AckSlot.NoAckLost | modules/aic8800/aic8800_fdrv/aicwf_tcp_ack.c:435-511 | the same over every run of a slot from its allocation until it expires, with sequence numbers unwrapped and an ACK inherited from the slot's previous flow set aside |
| AckSlot.OnlyLowBitsMatter | modules/aic8800/aic8800_fdrv/aicwf_tcp_ack.c:435-511 | runs over streams that agree on the low 32 bits take the same decisions, event by event |
| AckSlot.UnwrappedIsTheOne | modules/aic8800/aic8800_fdrv/aicwf_tcp_ack.h:18 | every stream of 32-bit numbers has a numbering, one by one, that 32 bits can order; it is the stream's own if that is ordered |
| AckSlot.NoAckLostInAnyStream | modules/aic8800/aic8800_fdrv/aicwf_tcp_ack.c:435-511 | no acknowledgement is lost for any stream of 32-bit numbers, under that numbering |
| AckSlot.SuppressionCount | modules/aic8800/aic8800_fdrv/aicwf_tcp_ack.c:452-482 | while nothing is let out the drop counter has grown by at least the accepted ACKs and stays below 10, provided sends are reported before the next ACK |
| AckSlot.BoundedSuppression | modules/aic8800/aic8800_fdrv/aicwf_tcp_ack.c:452-482 | so any stretch of a flow with 10 accepted ACKs lets at least one out, whatever the timer and PSH events |
| AckSlot.SlotConserves | modules/aic8800/aic8800_fdrv/aicwf_tcp_ack.c:435-511 | a step of a slot neither loses nor duplicates a buffer |
| AckSlot.HeldAckFate | modules/aic8800/aic8800_fdrv/aicwf_tcp_ack.c:30-61 | over every continuation, expiry and recycling included, a held ACK is still held, was let out, or was dropped, as the first of these decides: the timer in a busy slot with no send outstanding, an accepted ACK, a shutdown |
| AckSlot.PushDecides | modules/aic8800/aic8800_fdrv/aicwf_tcp_ack.c:459-482 | after a segment that pushed data up to p, the next accepted ACK goes out at once exactly if it is beyond p or due by count; the mark stays until an ACK beyond p has taken it |
| AckSlot.PushIsHonoured | modules/aic8800/aic8800_fdrv/aicwf_tcp_ack.c:459-463 | the mark survives every run without a push or an ACK beyond p |
| AckSlot.MarkedSlotSends | modules/aic8800/aic8800_fdrv/aicwf_tcp_ack.c:459-482 | a marked slot hands the first accepted ACK beyond p back at once |
| AckSlot.LetOutStartsAfresh | modules/aic8800/aic8800_fdrv/aicwf_tcp_ack.c:452-511 | an ACK that leaves by count, push or timer starts the count afresh, is the one whose sending is awaited, and leaves nothing held and no timer running |
| AckSlot.ThinsOut | modules/aic8800/aic8800_fdrv/aicwf_tcp_ack.c:452-511 | without push and timer, fewer than ten accepted ACKs since the count was started let none out, over every run |
| AckSlot.HeldIsTimed | modules/aic8800/aic8800_fdrv/aicwf_tcp_ack.c:484-511 | until the timer fires, a slot that holds an ACK has its timer running, over every run |
| AckSlot.ScaleRecorded | modules/aic8800/aic8800_fdrv/aicwf_tcp_ack.c:565-569 | the window scale of a slot is that of the last ACK that carried one, and 1 at first |
| AckTable.AllocFailsIffFull | modules/aic8800/aic8800_fdrv/aicwf_tcp_ack.c:309-344 | allocation fails exactly when all 32 slots are busy and otherwise yields a free one |
| AckTable.FlowPushIsHonoured | modules/aic8800/aic8800_fdrv/aicwf_tcp_ack.c:513-536 | in every run of the whole filter the first accepted ACK of a flow beyond what was pushed to it is handed back at once |
| AckTable.AgeingExact | modules/aic8800/aic8800_fdrv/aicwf_tcp_ack.c:284-306 | an update frees exactly the slots idle for more than four seconds, and only if the last sweep is more than four seconds ago |
| AckTable.RecentFlowKept | modules/aic8800/aic8800_fdrv/aicwf_tcp_ack.c:284-306 | so a flow is not forgotten within four seconds of its last ACK, accepted or not |
| AckTable.SwitchedOffIsInert | modules/aic8800/aic8800_fdrv/aicwf_tcp_ack.c:572-580 | a filter that is switched off holds back and drops nothing |
| AckTable.AgeConsistent | modules/aic8800/aic8800_fdrv/aicwf_tcp_ack.c:284-306 | ageing keeps the count of busy slots, the cached free index and the distinctness of flows |
| AckTable.DeliverConsistent | modules/aic8800/aic8800_fdrv/aicwf_tcp_ack.c:562-606 | so does allocation; in particular a flow is never given a second slot |
| AckTable.StepConsistent | modules/aic8800/aic8800_fdrv/aicwf_tcp_ack.c:256-344 | every step keeps: `max_num` is the number of busy slots, `free_index` is -1 or a free slot, no two busy slots share a flow |
| AckTable.RunConsistent | modules/aic8800/aic8800_fdrv/aicwf_tcp_ack.c:63-94 | the same over every run |
| AckTable.SlotsAreIndependent | modules/aic8800/aic8800_fdrv/aicwf_tcp_ack.c:539-610 | a slot after any run of the whole table is its own run over the events that concern it |
| AckTable.FlowNeverLosesAck | modules/aic8800/aic8800_fdrv/aicwf_tcp_ack.c:539-610 | no acknowledgement of a flow is lost in any run of the whole filter with all flows, timers and send reports interleaved and any 32-bit numbers, from its slot's allocation until it expires, whatever the slot still held |
| AckTable.HeldAckFateInTable | modules/aic8800/aic8800_fdrv/aicwf_tcp_ack.c:284-344 | the fate of a held ACK in any run of the whole filter, past the expiry and recycling of its slot |
| AckTable.FlowSuppressionIsBounded | modules/aic8800/aic8800_fdrv/aicwf_tcp_ack.c:452-482 | bounded suppression in any run of the whole filter |
| AckTable.RecycledSlotLosesAck | modules/aic8800/aic8800_fdrv/aicwf_tcp_ack.c:284-344 | a run from the initial table in which a flow's most advanced ACK is dropped by its slot's next owner and never let out |
| AckTable.GivenOnce | modules/aic8800/aic8800_fdrv/aicwf_tcp_ack.c:539-610 | a delivered buffer is taken by at most one slot and handed back if by none |
| AckTable.TallyConserves | modules/aic8800/aic8800_fdrv/aicwf_tcp_ack.c:30-61 | in one step of the table, what the slots held and were given is what they let out, dropped or still hold |
| AckTable.BuffersConserved | modules/aic8800/aic8800_fdrv/aicwf_tcp_ack.c:96-117 | over every run, recycling and deinit included, each buffer was given as often as it was handed back, sent, dropped, or is held |
| AckTable.EachBufferInOnePlace | modules/aic8800/aic8800_fdrv/aicwf_tcp_ack.c:435-511 | a buffer given once is in exactly one of these places, so it is never dropped twice or both sent and dropped |
| TcpAck.AckFilter.constructor | modules/aic8800/aic8800_fdrv/aicwf_tcp_ack.c:63-94 | the initial table is consistent, with no slot in use and slot 0 cached as free |
| TcpAck.AckFilter.Match | modules/aic8800/aic8800_fdrv/aicwf_tcp_ack.c:256-281 | the scan finds the first busy slot of the flow, or none exists |
| TcpAck.AckFilter.AllocSlot | modules/aic8800/aic8800_fdrv/aicwf_tcp_ack.c:309-344 | hands out the slot the table semantics names and updates count and cached index |
| TcpAck.AckFilter.Update | modules/aic8800/aic8800_fdrv/aicwf_tcp_ack.c:284-306 | the downward sweep takes the table exactly through its ageing step |
| TcpAck.AckFilter.HandleNew | modules/aic8800/aic8800_fdrv/aicwf_tcp_ack.c:435-511 | rewrites one slot as the slot automaton says, reports the buffer freed and whether the new one was kept |
| TcpAck.AckFilter.Classified | modules/aic8800/aic8800_fdrv/aicwf_tcp_ack.c:562-606 | match, handle, or allocate and fill is the delivery step of the table |
| TcpAck.AckFilter.FilterSend | modules/aic8800/aic8800_fdrv/aicwf_tcp_ack.c:539-610 | ageing followed by delivery; the verdict and the dropped buffer are those of the automaton; oversized frames pass untouched |
| TcpAck.AckFilter.FilterReceive | modules/aic8800/aic8800_fdrv/aicwf_tcp_ack.c:513-536 | records the PSH mark in the matching slot and nowhere else |
| TcpAck.AckFilter.Timeout | modules/aic8800/aic8800_fdrv/aicwf_tcp_ack.c:30-61 | the timer step of the table and the buffer it sends |
| TcpAck.AckFilter.MoveMsg | modules/aic8800/aic8800_fdrv/aicwf_tcp_ack.c:612-632 | the send-done step of the table |
| TcpAck.AckFilter.Shutdown | modules/aic8800/aic8800_fdrv/aicwf_tcp_ack.c:96-117 | disables the filter and frees exactly the held buffers |
| Nat25Map.Hash | modules/aic8800/aic8800_fdrv/aic_br_ext.c:311-360 | every address falls into one of the 16 buckets |
| Nat25Map.HashOfIpv4 | modules/aic8800/aic8800_fdrv/aic_br_ext.c:311-360 | the bucket of an IPv4 address is the XOR of its four bytes, modulo 16 |
| Nat25Map.RemovedByCthPass | modules/aic8800/aic8800_fdrv/aic_br_ext.c:621-705 | in any run of learning, look-ups, refreshes and passes that does not learn or refresh an address, nor look it up unexpired, its entry with use count c is present exactly until the c-th pass that finds it expired, and loses one use per such pass |
| Nat25Map.AlwaysInUse | modules/aic8800/aic8800_fdrv/aic_br_ext.c:396-504 | over every run every entry has a use count of at least 1 |
| Nat25Map.RecordIsLatest | modules/aic8800/aic8800_fdrv/aic_br_ext.c:469-504 | over every run, removal and re-learning included, a record carries the MAC learnt last and the time it was last learnt or refreshed |
| Nat25Map.LearntIsKnown | modules/aic8800/aic8800_fdrv/aic_br_ext.c:469-504 | learning makes an address known with its MAC, unless it is new and there is no memory |
| Nat25Map.UsesBalance | modules/aic8800/aic8800_fdrv/aic_br_ext.c:396-466 | between two learnings the use count gains one per look-up that finds the record fresh and loses one per pass that finds it expired |
| Nat25Map.Ipv4Distinct | modules/aic8800/aic8800_fdrv/aic_br_ext.c:148-155 | different IPv4 addresses give different network addresses |
| Nat25Map.ExpireComplete | modules/aic8800/aic8800_fdrv/aic_br_ext.c:621-705 | once every surviving record has been visited the pass is the one on the whole map |
| Nat25.AddToStructure | modules/aic8800/aic8800_fdrv/aic_br_ext.c:363-377 | putting an entry at the head of its bucket keeps: each entry in the bucket of its hash, no address twice, chains acyclic |
| Nat25.RemoveFromStructure | modules/aic8800/aic8800_fdrv/aic_br_ext.c:380-393 | cutting an entry out anywhere keeps them too |
| Nat25.OthersApart | modules/aic8800/aic8800_fdrv/aic_br_ext.c:363-393 | chains of different buckets share no entry |
| Nat25.PassStep | modules/aic8800/aic8800_fdrv/aic_br_ext.c:628-699 | an expiry pass stays correctly positioned whether the visited entry stays or goes |
| Nat25.Database.constructor | modules/aic8800/aic8800_fdrv/aic_br_ext.c:593-618 | an empty table stands for the empty map |
| Nat25.Database.FindEntry | modules/aic8800/aic8800_fdrv/aic_br_ext.c:1543-1567 | the chain walk finds the entry of an address exactly when the map has one |
| Nat25.Database.LinkIn | modules/aic8800/aic8800_fdrv/aic_br_ext.c:363-377 | the pointer updates spell out the chain with the new entry in front, `pprev` links included |
| Nat25.Database.Bypass | modules/aic8800/aic8800_fdrv/aic_br_ext.c:380-393 | the constant-time unlink changes only the link pointing at the entry and its successor's back link |
| Nat25.Database.Splice | modules/aic8800/aic8800_fdrv/aic_br_ext.c:380-393 | and so leaves exactly the chain without the entry |
| Nat25.Database.LinkEntry | modules/aic8800/aic8800_fdrv/aic_br_ext.c:469-504 | linking is adding a key to the map |
| Nat25.Database.Unlink | modules/aic8800/aic8800_fdrv/aic_br_ext.c:380-393 | unlinking is removing the key |
| Nat25.Database.Insert | modules/aic8800/aic8800_fdrv/aic_br_ext.c:469-504 | a known address gets the new MAC and time and keeps its uses, an unknown one is added with one use, without memory nothing changes |
| Nat25.Database.LookupAndReplace | modules/aic8800/aic8800_fdrv/aic_br_ext.c:396-466 | reports whether the address is known; only an unexpired record yields its MAC and gains a use |
| Nat25.Database.Remove | modules/aic8800/aic8800_fdrv/aic_br_ext.c:680-692 | removes the key and forgets the shortcut if it referred to the entry, so the shortcut never refers to a removed entry |
| Nat25.Database.ExpireEntry | modules/aic8800/aic8800_fdrv/aic_br_ext.c:630-697 | one turn of the expiry loop is one record of the map's pass |
| Nat25.Database.SweepBucket | modules/aic8800/aic8800_fdrv/aic_br_ext.c:627-699 | the loop over a bucket, which unlinks while walking, completes the pass for that bucket |
| Nat25.Database.Expire | modules/aic8800/aic8800_fdrv/aic_br_ext.c:621-705 | the whole sweep is the pass on the map |
| Nat25.Database.Cleanup | modules/aic8800/aic8800_fdrv/aic_br_ext.c:593-618 | leaves the empty map and no shortcut |
| Nat25.Database.Shortcut | modules/aic8800/aic8800_fdrv/rwnx_tx.c:1090-1113 | which entry the shortcut refers to afterwards and which one record is refreshed; that record is the one of the frame's own address exactly if the source MAC is new or the address has not changed |
| Nat25.AddressInUseIsForgotten | modules/aic8800/aic8800_fdrv/rwnx_tx.c:1090-1113 | a host that changes its address: its frames refresh the old record, and the next pass removes the address in use and keeps the other |
| Nat25.MovedAddressIsFollowed | modules/aic8800/aic8800_fdrv/aic_br_ext.c:396-504 | an address learnt twice, with different MACs: the look-up yields the later one |
| Dhcp.PatchShiftsSum | modules/aic8800/aic8800_fdrv/aic_br_ext.c:1519-1532 | for datagrams of any length the patch changes the one's complement sum by exactly the old flags word |
| Dhcp.ValidIffFlagsWereZero | modules/aic8800/aic8800_fdrv/aic_br_ext.c:1519-1532 | a valid checksum stays valid exactly when the old flags were zero |
| Dhcp.AbsentChecksumBecomesPresent | modules/aic8800/aic8800_fdrv/aic_br_ext.c:1519-1532 | an absent checksum becomes present unless all other flags were set, and exactly when a receiver accepts the result |
| Dhcp.PresentChecksumBecomesAbsent | modules/aic8800/aic8800_fdrv/aic_br_ext.c:1519-1532 | a present checksum becomes absent exactly when the old checksum word is the new flags word |
| Dhcp.FlagBroadcast | modules/aic8800/aic8800_fdrv/aic_br_ext.c:1498-1540 | patches exactly the DHCP requests without the flag, in place, and leaves every other frame alone; frames need only be as long as what is read of them |
| Dhcp.FlaggedFields | modules/aic8800/aic8800_fdrv/aic_br_ext.c:1498-1540 | on a frame built from the fields of its Ethernet, IP, UDP and DHCP headers: a client's message without the flag gains it, its checksum changes by the new flags field in one's complement arithmetic, no other field changes, and no other frame |
| Md5Spec.DecodeEncode | modules/aic8800/aic8800_bsp/md5.c:53-78 | decoding the encoded words gives them back |
| Md5Spec.DigestShowsState | modules/aic8800/aic8800_bsp/md5.c:42-65 | the digest decodes to the final chaining state, so digests are equal exactly when the states are |
| Md5Spec.Schedule | modules/aic8800/aic8800_bsp/md5.c:79-161 | the 64 operations use the words and shifts that section 3.4 of RFC 1321 prescribes |
| Md5Spec.ChoiceF | modules/aic8800/aic8800_bsp/md5.h:12 | where x has a one F takes y, elsewhere z, bit by bit |
| Md5Spec.ChoiceG | modules/aic8800/aic8800_bsp/md5.h:13 | where z has a one G takes x, elsewhere y |
| Md5Spec.ParityH | modules/aic8800/aic8800_bsp/md5.h:14 | H has a one exactly where an odd number of its arguments has |
| Md5Spec.TableI | modules/aic8800/aic8800_bsp/md5.h:15 | where z has a one I is the parity of x and y, elsewhere the complement of y |
| Md5Spec.RotatedLow | modules/aic8800/aic8800_bsp/md5.h:16 | the s bits a rotation drops at the top come back at the bottom |
| Md5Spec.RotatedHigh | modules/aic8800/aic8800_bsp/md5.h:16 | and every other bit moves up by s |
| Md5Vector.DigestOfAbc | modules/aic8800/aic8800_bsp/md5.c:9-161 | the digest of "abc" is 900150983cd24fb0d6963f7d28e17f72, as in appendix A.5 of RFC 1321 |
| Md5Spec.PadLength | modules/aic8800/aic8800_bsp/md5.c:42-52 | padding is 1 to 64 bytes long and ends 8 short of a block |
| Md5.CounterAdds | modules/aic8800/aic8800_bsp/md5.c:23-26 | the split counter stays the bit length modulo 2^64 for every input length |
| Md5.BufferedFromCounter | modules/aic8800/aic8800_bsp/md5.c:21-22 | the fill of the buffer can be read off the low counter word |
| Md5.RunLine | modules/aic8800/aic8800_bsp/md5.h:17-40 | the macro, with its three assignments, is the operation of section 3.4 |
| Md5.LoopEndsIffFits | modules/aic8800/aic8800_bsp/md5.c:32-33 | the block loop, its 32-bit counter wrapping, has an exit if and only if the input meets the precondition; for the others it never ends |
| Md5.TransformBlock | modules/aic8800/aic8800_bsp/md5.c:79-161 | the loop over the four registers, sixteen rounds of four macro lines, is the transform of the decoded block |
| Md5.TransformAll | modules/aic8800/aic8800_bsp/md5.c:32-33 | the block loop absorbs every whole block and stops less than one short of the end |
| Md5.Context.constructor | modules/aic8800/aic8800_bsp/md5.c:9-17 | the initial context stands for the empty message |
| Md5.Context.ConsumeBlocks | modules/aic8800/aic8800_bsp/md5.c:28-40 | state and buffer stand for the extended message when the input completes a block |
| Md5.Context.BufferOnly | modules/aic8800/aic8800_bsp/md5.c:36-40 | and when it does not |
| Md5.Context.Update | modules/aic8800/aic8800_bsp/md5.c:18-41 | counter, state and buffer stand for the message with the input appended |
| Md5.Context.Final | modules/aic8800/aic8800_bsp/md5.c:42-52 | yields the digest of the whole message, and leaves nothing buffered |
| Md5.PadLengthCases | modules/aic8800/aic8800_bsp/md5.c:47 | the code's two-case pad length is the standard's |
| Md5.Encode | modules/aic8800/aic8800_bsp/md5.c:53-65 | writes the little-endian bytes of the words |
| Md5.Decode | modules/aic8800/aic8800_bsp/md5.c:66-78 | reads little-endian words |
| Md5.DigestOfChunks | modules/aic8800/aic8800_bsp/md5.c:9-52 | however a message is cut into updates, the digest is the fold of the transform over the padded whole |
| Nv12.ConvertIsClampedFloor | tools/video/h713-present.c:173-202 | no product, partial sum or sum leaves 32 bits and each channel is the real-valued Q8 formula, floored and clamped |
| Nv12.PixelBytes | tools/video/h713-present.c:173-202 | a pixel in terms of the bytes of the two planes, with the coefficients of the two standards as numbers: V next to U, both shared by two columns and two rows |
| Nv12.NeutralIsGrey | tools/video/h713-present.c:173-202 | neutral chroma gives equal channels |
| Nv12.ConvertRow | tools/video/h713-present.c:182-200 | the inner loop writes exactly the pixels of its row |
| Nv12.ConvWorker | tools/video/h713-present.c:173-202 | a worker converts exactly its row range |
| Nv12.JobsPartitionRows | tools/video/h713-present.c:237-265 | for 1 to 4 threads and any height each row lies in exactly one job's range |
| Nv12.ConvertInline | tools/video/h713-present.c:237-265 | running all jobs inline converts the whole picture |
| Nv12.StepEffect | tools/video/h713-present.c:173-202 | a step of one worker writes one right pixel or none |
| Nv12.ProgressStep | tools/video/h713-present.c:173-202 | every worker step keeps: each pixel is the old one or the right one, and right behind every worker |
| Nv12.ParallelIsSequential | tools/video/h713-present.c:237-265 | under any interleaving of the workers the finished output is that of the sequential conversion |
| Nv12.StepLeft | tools/video/h713-present.c:173-202 | a step takes one off the steps its own worker has left, if any, and no other's |
| Nv12.FinishedIffEnoughTurns | tools/video/h713-present.c:237-265 | a schedule finishes the picture exactly if it gives every worker at least the turns it needs |
| Present.RingStep | tools/video/h713-present.c:281-349 | every step keeps: the filled slots are the cyclic interval from tail to head and hold the frames in order |
| Present.ThreadsStep | tools/video/h713-present.c:292-349 | every step keeps: a sleeping thread has nothing to do, and what each thread holds |
| Present.PicturesStep | tools/video/h713-present.c:978-1009 | every step keeps what is staged, copied, latched and shown |
| Present.RunInv | tools/video/h713-present.c:281-349 | all of this over every interleaving of reader, presenter and display, spurious wake-ups included |
| Present.NoSharedSlot | tools/video/h713-present.c:292-326 | the reader never writes into the slot the presenter holds |
| Present.NeverBothBlocked | tools/video/h713-present.c:292-349 | no wake-up is lost, never are both sides blocked, and until both are done some thread can move |
| Present.ShownInOrder | tools/video/h713-present.c:978-1009 | the n-th flip shows the n-th complete frame, never more of them than the limit, and before the end all complete frames have been shown once and in order |
| Present.NoTearing | tools/video/h713-present.c:90-123 | from the second frame on, while no commit has timed out, the copy never hits the buffer being scanned, which holds one complete picture |
| Present.TimeoutCanTear | tools/video/h713-present.c:90-110 | a run in which one timed-out commit makes it do so |
| Present.FrameRing.constructor | tools/video/h713-present.c:281-290 | an empty ring |
| Present.FrameRing.ReaderCheck | tools/video/h713-present.c:292-326 | the reader sleeps exactly when three frames are waiting and no stop was asked for |
| Present.FrameRing.Publish | tools/video/h713-present.c:312-325 | publishing appends the frame to what the ring holds |
| Present.FrameRing.Get | tools/video/h713-present.c:329-340 | returns the oldest frame not handed back, the end only after all of them, or waits |
| Present.FrameRing.Release | tools/video/h713-present.c:342-349 | hands back exactly the oldest one |
| Nv12Mode.StagedIsImage | tools/video/h713-present.c:978-1009 | converting a raw frame overwrites every pixel of the staging buffer |
| Nv12Mode.ImageBytes | tools/video/h713-present.c:978-1009 | every pixel in terms of the raw frame's bytes, by BT.709 |
| Nv12Mode.EveryFlipShowsItsFrame | tools/video/h713-present.c:978-1009 | in every run the n-th flip shows what any finished interleaving of the workers makes of the n-th frame |
| CmdMgr.Match | modules/aic8800/aic8800_bsp/aic_bsp_driver.c:175-213 | the scan stops at the first command that takes the message, or there is none |
| CmdMgr.CompleteInv | modules/aic8800/aic8800_bsp/aic_bsp_driver.c:63-80 | completing a listed command keeps the invariant |
| CmdMgr.StepInv | modules/aic8800/aic8800_bsp/aic_bsp_driver.c:82-158 | every event keeps: counter is list length and at most 8, list in order of acceptance with consecutive tokens, no push deferred, each command taken off once, result 0 exactly if confirmed |
| CmdMgr.RunInv | modules/aic8800/aic8800_bsp/aic_bsp_driver.c:63-238 | the same over every run whose drains are safe |
| CmdMgr.UnsafeDrainCorrupts | modules/aic8800/aic8800_bsp/aic_bsp_driver.c:226-238 | any other drain can lead to a double unlink and a wrapped counter |
| CmdMgr.CorruptionIsReachable | modules/aic8800/aic8800_bsp/aic_bsp_driver.c:226-238 | the run from the empty manager: queue, time out, drain, lock |
| CmdMgr.ConfirmsOldest | modules/aic8800/aic8800_bsp/aic_bsp_driver.c:175-213 | a confirmation completes the oldest command waiting for its id that takes it, and touches no other |
| CmdMgr.NobodyToConfirm | modules/aic8800/aic8800_bsp/aic_bsp_driver.c:175-213 | with no such command it changes nothing |
| CmdMgr.AcceptsUpToEight | modules/aic8800/aic8800_bsp/aic_bsp_driver.c:82-125 | a command is taken exactly while the manager is not crashed and fewer than eight are listed |
| CmdMgr.SubmittedIsConfirmed | modules/aic8800/aic8800_bsp/aic_bsp_driver.c:82-213 | a command waits for the id it was submitted with: the next confirmation of that id completes it with success, if no other command waits for the same |
| CmdMgr.ReqidsAreSubmitted | modules/aic8800/aic8800_bsp/aic_bsp_driver.c:82-125 | over every run the id a command waits for is the one it was submitted with |
| CmdMgr.CrashedForGood | modules/aic8800/aic8800_bsp/aic_bsp_driver.c:82-158 | after the first time-out no run accepts another command or issues another token |
| CmdMgr.DrainedWaiterGetsZero | modules/aic8800/aic8800_bsp/aic_bsp_driver.c:226-238 | a drained command's waiter is told success though nothing was confirmed |
| CmdMgr.CommandManager.constructor | modules/aic8800/aic8800_bsp/aic_bsp_driver.c:240-261 | an empty manager |
| CmdMgr.CommandManager.Queue | modules/aic8800/aic8800_bsp/aic_bsp_driver.c:82-125 | the locked part of queueing is the submit step, with its verdict, and never defers a push |
| CmdMgr.CommandManager.MsgInd | modules/aic8800/aic8800_bsp/aic_bsp_driver.c:175-213 | the scan is the confirm step and reports whether a command took the message |
| CmdMgr.CommandManager.TimedOut | modules/aic8800/aic8800_bsp/aic_bsp_driver.c:126-158 | a late waiter's locked section is the crash step |
| CmdMgr.CommandManager.DrainAll | modules/aic8800/aic8800_bsp/aic_bsp_driver.c:226-238 | the loop is the drain step; a safe drain keeps the invariant |
| Firmware.Upload | modules/aic8800/aic8800_bsp/aic_bsp_driver.c:1259-1307 | success means the fewest requests of at most 1024 bytes that tile the image one after the other; failure means an empty image or a last request that failed |
| Firmware.TilesStoreImage | modules/aic8800/aic8800_bsp/aic_bsp_driver.c:1279-1298 | tiling requests do to the device memory what storing the whole image would |
| Firmware.UploadedImage | modules/aic8800/aic8800_bsp/aic_bsp_driver.c:1259-1307 | afterwards the device holds every byte of the image at its address and nothing else has changed |
| Firmware.ParseOfFrame | modules/aic8800/aic8800_bsp/aic_bsp_driver.c:274-309 | every command that fits the buffer is read back as it was, the 12-bit length field and, on chips that have it, the header CRC included |
| Firmware.FrameLayout | modules/aic8800/aic8800_bsp/aic_bsp_driver.c:274-309 | where both lengths, type, identifier, destination, source and parameters are in a command, byte by byte |
| Firmware.SetCmdTx | modules/aic8800/aic8800_bsp/aic_bsp_driver.c:274-309 | the filled buffer is the command's frame, CRC byte included, reads back as the message, and is zero after it |
| Firmware.HeaderDamageRefused | modules/aic8800/aic8800_bsp/aic_bsp_driver.c:286-294 | a chip that checks the header refuses it after any one of its bytes is damaged |
| Firmware.WriteOfRequest | modules/aic8800/aic8800_bsp/aic_bsp_driver.c:385-403 | a block write reads back from its command, whatever its size up to 1024 |
| Firmware.RequestLayout | modules/aic8800/aic8800_bsp/aic_bsp_driver.c:385-403 | identifier and tasks of a block write, and where address, size and data are in its parameters, byte by byte |
| Firmware.UploadedThroughTransfers | modules/aic8800/aic8800_bsp/aic_bsp_driver.c:1259-1307 | end to end: once the firmware has read the padded transfers of an upload, each cut to its length field, the device holds every byte of the image at its address and nothing else has changed |
| Firmware.TransferFits | modules/aic8800/aic8800_bsp/aicsdio.c:1117-1131 | a transfer is whole 512-byte blocks containing the payload, and fits the command buffer exactly up to 1528 bytes and above 1532 |
| Firmware.TransferExact | modules/aic8800/aic8800_bsp/aicsdio.c:1117-1131 | a whole number of aligned blocks is sent as it is, anything else with a tail and at most one block beyond it |
| Firmware.BlockWriteFits | modules/aic8800/aic8800_bsp/aic_bsp_driver.c:385-403 | a memory block write fills the command buffer exactly |
| Firmware.PadTransfer | modules/aic8800/aic8800_bsp/aicsdio.c:1117-1131 | for every payload the buffer can hold, clears exactly the alignment bytes and the tail and returns the transfer length |
| Firmware.SendCommand | modules/aic8800/aic8800_bsp/aicsdio.c:1106-1131 | filling and padding the buffer puts exactly the frame and zeros up to the transfer length into it |
| Firmware.CutTransfer | modules/aic8800/aic8800_bsp/aicsdio.c:1117-1131 | cut to its length field, a transfer is the frame again |
| FrameQueue.EnqueueConserves | modules/aic8800/aic8800_bsp/aicsdio_txrxif.c:431-461 | enqueueing loses and duplicates nothing, keeps the limit, and evicts only from a full queue, which keeps its length |
| FrameQueue.DequeueConserves | modules/aic8800/aic8800_bsp/aicsdio_txrxif.c:397-417 | dequeueing takes exactly one frame, and none only from an empty queue |
| FrameQueue.EvictionDemotes | modules/aic8800/aic8800_bsp/aicsdio_txrxif.c:431-461 | a frame is accepted exactly below the limit or when the lowest level in use is below its own, and then joins its own level exactly below the limit, leaving the others as they were; at the limit it takes the place of the newest frame of that lower level |
| FrameQueue.EvictionInvertsPriority | modules/aic8800/aic8800_bsp/aicsdio_txrxif.c:431-461 | a run in which a frame accepted by eviction is overtaken by one of lower priority |
| FrameQueue.LevelsAreFifo | modules/aic8800/aic8800_bsp/aicsdio_txrxif.c:322-461 | over every run what has been taken from a level, followed by what is queued there, is what joined it, in order |
| FrameQueue.TakenFromHighest | modules/aic8800/aic8800_bsp/aicsdio_txrxif.c:397-417 | a frame is taken from the front of a level with nothing waiting on a higher one |
| FrameQueue.RunConserves | modules/aic8800/aic8800_bsp/aicsdio_txrxif.c:322-461 | over every run a frame was accepted as often as it was taken, evicted, flushed or is queued, and the limit holds |
| FrameQueue.Queue.constructor | modules/aic8800/aic8800_bsp/aicsdio_txrxif.c:354-365 | an empty queue |
| FrameQueue.Queue.Penq | modules/aic8800/aic8800_bsp/aicsdio_txrxif.c:322-336 | appends to the level and keeps count and cached bound right |
| FrameQueue.Queue.PeekTail | modules/aic8800/aic8800_bsp/aicsdio_txrxif.c:367-382 | the scan up to the cached bound finds what a full scan for the lowest level in use would |
| FrameQueue.Queue.IsEmpty | modules/aic8800/aic8800_bsp/aicsdio_txrxif.c:384-395 | empty up to the cached bound means the count is 0 and all levels are empty |
| FrameQueue.Queue.DequeueFrame | modules/aic8800/aic8800_bsp/aicsdio_txrxif.c:397-417 | with the cached bound, returns the oldest frame of the highest level in use as a full scan would |
| FrameQueue.Queue.Enq | modules/aic8800/aic8800_bsp/aicsdio_txrxif.c:431-461 | accepts, evicts and refuses as the queue on values does; `qcnt` stays the total and at most `qmax` |
| FrameQueue.Queue.Flush | modules/aic8800/aic8800_bsp/aicsdio_txrxif.c:338-352 | empties every level and the count |
| Crc.ComputeCrc16 | tools/serial/load_fit.py:30-36 | the bit loop computes the shift register of polynomial 0x1021 |
| Crc.Crc16Linear | tools/serial/load_fit.py:30-36 | XOR-linear on equal-length messages of any length |
| Crc.Crc16OfFrame | tools/serial/load_fit.py:62-67 | a message followed by its CRC has CRC zero |
| Crc.Crc16DetectsBurst | tools/serial/load_fit.py:30-36 | messages of any length that differ only within two adjacent bytes never share a CRC |
| Crc8.ComputeCrc8 | modules/aic8800/aic8800_bsp/aicsdio.c:2123-2145 | the mask-driven bit loop computes the specification function |
| Crc8.BitLoopIsUsualForm | modules/aic8800/aic8800_bsp/aicsdio.c:2130-2142 | per byte it equals XOR-the-byte-then-shift |
| Crc8.Crc8IsRegister | modules/aic8800/aic8800_bsp/aicsdio.c:2123-2145 | over a message it is the shift register of polynomial 0x07 in the high half |
| Crc8.Crc8Linear | modules/aic8800/aic8800_bsp/aicsdio.c:2123-2145 | XOR-linear on equal-length messages |
| Crc8.Crc8OfFrame | modules/aic8800/aic8800_bsp/aicsdio.c:2123-2145 | a message followed by its CRC has CRC zero |
| Crc8.Crc8DetectsByte | modules/aic8800/aic8800_bsp/aicsdio.c:2123-2145 | messages that differ in one byte never share a CRC |
| CrcDivision.RegisterIsRemainder | tools/serial/load_fit.py:30-36 | for any polynomial and message the register holds the remainder of dividing the message times x^16 by the generator over two elements, and no other value is one |
| CrcDivision.GeneratorOfCcitt | tools/serial/load_fit.py:30-36 | the generator of the CRC-16 is x^16 + x^12 + x^5 + 1 |
| CrcDivision.Crc16IsRemainder | tools/serial/load_fit.py:30-36 | a value is the remainder modulo x^16 + x^12 + x^5 + 1 exactly if it is the CRC-16 |
| CrcDivision.Crc8IsRemainder | modules/aic8800/aic8800_bsp/aicsdio.c:2123-2145 | likewise for the CRC-8 and x^8 + x^2 + x + 1 |
| Ymodem.BurstRefused | tools/serial/load_fit.py:62-74 | a frame with any header damage and any change to two adjacent body bytes is taken for genuine exactly if body and type are as sent and number and complement moved by opposite amounts |
| Ymodem.ExchangeResult | tools/serial/load_fit.py:62-74 | the outcome of every exchange in either state of the receiver, by how far the number has moved unnoticed |
| Ymodem.ExchangeInStep | tools/serial/load_fit.py:62-74 | the receiver holds the blocks before the current one, or those and it, and holds it once the sender hears an acknowledgement, if and only if the exchange does not slip: the number has not moved unnoticed to that of a neighbouring block at the wrong moment |
| Ymodem.HarmIsReal | tools/serial/load_fit.py:62-74 | a slip makes the receiver acknowledge a block it has not taken, or take one twice; all noise but the harmless kind slips in one of the two states |
| Ymodem.TruncatedFile | tools/serial/load_fit.py:107-124 | for every file, a slip on the last block is acknowledged and leaves the receiver with something else than the file |
| Ymodem.ExchangeAnswer | tools/serial/load_fit.py:68-74 | an undisturbed exchange is acknowledged, and a retryable one never ends the session |
| Ymodem.SizeRoundTrip | tools/serial/load_fit.py:99-101 | the receiver reads the file size back out of block 0, whatever the name |
| Ymodem.NameRoundTrip | tools/serial/load_fit.py:99-101 | and the name |
| Ymodem.DecimalExample | tools/serial/load_fit.py:99 | the size is written in ASCII digits, the most significant first |
| Ymodem.BlocksHoldFile | tools/serial/load_fit.py:107-113 | for every file size the padded blocks, cut to the size in block 0, are the file |
| Ymodem.LastBlock | tools/serial/load_fit.py:110-113 | a block is the next 1024 bytes of the file, the rest of the last one 0x1a |
| Ymodem.Line.SendBlock | tools/serial/load_fit.py:62-74 | sends one frame at most `tries` times; unless an exchange slips, success means the block was accepted once, and comes whenever one of the tries is undisturbed and those before it can be retried; giving up means all tries were used, a cancellation or silence ends it at once |
| Ymodem.Line.SendHeader | tools/serial/load_fit.py:99-105 | unless an exchange slips, the session up to the data leaves the receiver with exactly the header block |
| Ymodem.Line.SendData | tools/serial/load_fit.py:105-118 | unless an exchange slips, the data loop leaves the receiver with all blocks in order, numbered consecutively modulo 256 |
| Ymodem.Line.TransmitEnd | tools/serial/load_fit.py:120-124 | however often the end mark is repeated the file is closed once, with exactly the blocks received |
| Ymodem.Line.Close | tools/serial/load_fit.py:120-126 | what is closed is what the receiver held; success means it was closed and the empty block acknowledged |
| Ymodem.Line.SendFile | tools/serial/load_fit.py:83-126 | unless an exchange slips, a file the receiver closes is the one sent; success implies one was closed and fixes the sequence of frames written; harmless noise never slips, and a quiet line always succeeds |
| Ymodem.Session | tools/serial/ymodem_send.py:76-105 | the same end to end, on any line and for any retry bound (12 and 10 in the two tools): unless an exchange slips, the receiver gets nothing or exactly the file |
| BtSleep.StepSafe | modules/aic8800/aic8800_btlpm/lpm.c:204-303 | a handler keeps the protocol safe if and only if no request is refused while a port is found: UART off exactly when asleep; asleep only with protocol on, port present, wake line deasserted; open count 1 exactly when the protocol is off |
| BtSleep.SleepSafe | modules/aic8800/aic8800_btlpm/lpm.c:175-601 | the same over every run in which no request the driver makes is refused while a port is found |
| BtSleep.FallsAsleepIff | modules/aic8800/aic8800_btlpm/lpm.c:190-255 | the device falls asleep exactly in the sleep work with the mode on, a port, an empty transmitter, and wake line, host-wake line and receive timer clear |
| BtSleep.WakesIff | modules/aic8800/aic8800_btlpm/lpm.c:204-303 | it wakes exactly in the sleep work when it may not sleep, on outgoing data, or when the mode is switched off, with the UART on again |
| BtSleep.LinesMove | modules/aic8800/aic8800_btlpm/lpm.c:279-601 | which event moves the wake line and the transmit flag, and where to |
| BtSleep.RefusedIrqStrandsUart | modules/aic8800/aic8800_btlpm/lpm.c:331-361 | such a refusal can be followed to a state with the UART off and the port gone |
| BtSleep.StrandedUartRecovers | modules/aic8800/aic8800_btlpm/lpm.c:204-255 | switching the mode on again with the request granted brings the UART back, in a safe state |
| BtSleep.BlueSleep.constructor | modules/aic8800/aic8800_btlpm/lpm.c:175-185 | the initial state: UART on, protocol off, open count 1 |
| BtSleep.BlueSleep.DoSleepWork | modules/aic8800/aic8800_btlpm/lpm.c:204-255 | the handler's branches are the sleep-work step, and keep the protocol safe |
| BtSleep.BlueSleep.DoOutgoingData | modules/aic8800/aic8800_btlpm/lpm.c:279-303 | waking device and UART together keeps the protocol safe |
| BtSleep.BlueSleep.DoAllowSleep | modules/aic8800/aic8800_btlpm/lpm.c:472-481 | deasserting the wake line at any time keeps the protocol safe |
| BtSleep.BlueSleep.DoRxTimerExpire | modules/aic8800/aic8800_btlpm/lpm.c:489-497 | so does the receive timer |
| BtSleep.BlueSleep.DoStart | modules/aic8800/aic8800_btlpm/lpm.c:517-565 | turns the protocol on once; a refused interrupt restores the open count; safe states stay safe |
| BtSleep.BlueSleep.DoStop | modules/aic8800/aic8800_btlpm/lpm.c:570-601 | turns the protocol off, wakes the UART if it was asleep, restores the open count; safe states stay safe |
| BtSleep.BlueSleep.WriteLpm | modules/aic8800/aic8800_btlpm/lpm.c:331-361 | switching the mode is the disable or enable step; it leaves a safe state, and one that stays safe exactly if no request was refused while a port was found |

## Left out

- Packet parsing in the ACK filter (`tcp_check_ack`, `tcp_check_quick_ack`, `is_drop_tcp_ack`): the classifier's result is an input.
- Seqlock retries and lock-free windows in the ACK filter: each locked section, and the send filter's match, allocate and fill, is one step.
- The older `tcp_ack_handle`, which nothing calls, and the drop type and window size that `tcp_ack_handle_new` ignores.
- Liveness of a held ACK: the timer does not re-arm while a send is outstanding, so there is none to prove.
- Wrap-around of `jiffies`: times are unbounded, in milliseconds for the filter and in seconds for the database.
- Wrap-around of the 32-bit use count of a database entry and of the drop counter of a slot.
- The PPPoE, IPX, AppleTalk and IPv6 cases of `nat25_db_handle`; every address type is in the hash.
- Dhcp.FlagBroadcast: frames shorter than what the driver reads of them without a length check.
- Md5.Context.Update: inputs on which the loop does not end; `Md5.LoopEndsIffFits` says which they are.
- The origin of the 64 additive constants of MD5, which are taken as the code lists them.
- The `pthread` and register primitives under the pipeline: a wait is a state, the latch is a step, and the last flip to the front buffer after the loop is not modelled.
- GLES, DRM and V4L2 presentation, `/dev/mem` mapping and the measurement scripts.
- Signals, allocation failure and the copy of the confirmation's payload in the command manager.
- Flow control and retries of `aicwf_sdio_tx_msg` after the length arithmetic.
- Ymodem.Session: assumes file names without zero bytes whose header fits a block, that each write is answered once and no stray bytes are read as its answer, that nothing is misread as an acknowledgement, and that at most two adjacent bytes of a frame's body are hit; it promises nothing about the file once an exchange has slipped.
- Ymodem.Line.AwaitPrompt: the prompt is one exchange of the line; stray bytes before it and clock time-outs are not modelled.
- The protocol file of the sleep driver, which is not compiled in, and driver removal.
- The frame queue's copy in the other driver, USB transport, receive pools, per-chip tables, vendor commands and console tools: they would add easier versions of the same claims or none.
