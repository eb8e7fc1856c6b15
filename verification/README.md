# Verified model of libkpnet

libkpnet is a user-space SCTP stack over AF_XDP. This project models its core in Dafny and proves what the
code does:

* the lock-free ring (`RingProtocol`, `RingProtocolSafety`): any number of threads, every interleaving of the atomic
  steps, as a transition system; and the sequential class (`RingBuffer`) the other modules use;
* the timer wheel (`RingTimer`, `TimerVisit`, `TimerLists`) on real linked nodes, against the value-level specification
  in `TimerSpec`, with deadlines over whole runs in `TimerRuns`, their exact conditions in `TimerExact`, and the T1
  retransmission loop in `T1Loop`;
* UMEM memory: the chunk stack, the kernel rings with wrapping u32 counters (`KernelRing`, `Xdp`, `XdpFraming`), the
  ownership of every chunk with the kernel as a nondeterministic party (`UmemOwners`, `UmemSystem`, `UmemRuns`), the
  slab whose free list lives in the freed blocks (`Slab`, `SlabRuns`), and the segment list of a packet (`Segments`);
* checksums and digests: `Crc32c`, `InternetChecksum`, `Md5`, `HmacMd5`;
* packets: the receiver's check (`Packets`), the back-to-front builders (`Builders`) and the COOKIE ECHO over prefilled
  headers (`PrefilledEcho`);
* the cookie handshake: handlers and dispatch (`Handshake`), runs over a network (`HandshakeRuns`), and what the two
  sides know of each other (`HandshakeAgreement`);
* fragmentation and reassembly (`Fragmentation`).

`Layout` reads a frame by offsets written out from the standards, apart from the modules that write frames; the builders,
the receiver and the chunks are proved against it. `SourceValues` fixes the numbers of the C headers. `Constants`, `Bags`,
`Bytes`, `Modular` and `RingIndex` hold shared sizes and facts about multisets, octets, remainders and masks.

## Reading the model

* Random numbers, clock polls, spurious compare-and-swap failures, kernel steps and packet deliveries are inputs; results
  hold for all of them. A sequential call takes the number of spurious failures it will meet as an argument.
* u16, u32 and u64 arithmetic wraps explicitly where the code's does. The host is little-endian.
* Ring positions are unbounded, as the source's u64 counters are taken not to overflow. The ring size is a power of two
  and at least 2; `RingProtocolSafety.SizeOneOverwrites` shows why.
* Timers: the signal is nonzero and below 2^31, the delay is at least 1, `current + time - 1` fits 32 bits, a bucket holds
  at most 64 timers when it is ticked, and an insert finds the allocator non-empty (the code spins there).
* In the handshake the MAC is any function with 16-byte results, and no packet carries a matching digest the server did
  not make. `HandshakeRuns.HmacDigests` puts the modelled HMAC in its place.

## Where the code differs from its description

* `create_client` sets the status to SCTP_COOKIE_WAIT (src/create_client.c:77), but `if_ip_sctp` takes an INIT ACK only in
  SCTP_INIT_SENT. Such a client is left unchanged by every run: `HandshakeAgreement.StatusFixed`. Which clients can become
  established is `HandshakeAgreement.EstablishableIff`; the other handshake results start a client in SCTP_INIT_SENT.
* A timer does not always fire at its delay: an insert that crosses the wheel's end is due one turn later
  (src/insert_ringtimer.c:34), and a due head drains its whole bucket (src/tick_ringtimer.c:54). `TimerExact.LateRun` and
  `TimerExact.EarlyRun` are runs that show it; `TimerExact.ExactIff`, `TimerExact.NeverLateIff` and
  `TimerExact.NeverEarlyIff` say for which slots and delays it holds.
* The client's T1 delays add up to 363 steps, but with its wheel of 300 slots the tenth insert crosses the wheel's end:
  it gives up after 663 steps (`T1Loop.CreateClient`).
* The cookie's tag and the INIT ACK's tag are separate random numbers
  (src/build_prefilled_mac_ip_sctp_init_ack_hdr.c:40 and 62). `HandshakeAgreement.Agreement` says when the sides agree.
* The check of a prefilled packet is right only for its first use: `InternetChecksum.UpdateAgain`.
* A DATA packet keeps the length field of its prefilled IPv4 header, which is zero (src/prefill_mac_ip_sctp.c:40), and its
  SCTP check covers the padding, which `sctp_check_checksums` leaves out. `Fragmentation.Thread.BuildData` says exactly
  when this receiver accepts such a packet: never with the zero length; with another, when there is no padding or the
  checksum is one of the two that padding does not change (`Crc32c.PaddedChecksum`).
* `MAX_PACKET_LEN` is 1516, as src/create_client.c:42 has it.

An INIT leaves the server untouched because its handler modifies nothing (`Handshake.Association.ProcessInit` has no
modifies clause), and a key over 64 bytes authenticates as its digest does by the definition of the block key.

## Model

| member | source | states |
|---|---|---|
| RingProtocol.StepInv | src/push_ringbuf.c:14-37 | Every atomic step of any thread, in any interleaving and with spurious failures of the weak exchange, keeps the ring invariant: which lap each cell is in, what it holds, and what each thread may assume from the values it loaded |
| RingProtocol.InitInv | src/create_ringbuf.c:18-32 | The ring as created satisfies that invariant: cell i carries sequence number i |
| RingProtocolSafety.ClaimedOnce | src/push_ringbuf.c:21-25 | In every reachable state, positions are claimed in order, each by exactly one producer and one consumer, and no two threads work on the same position on the same side |
| RingProtocolSafety.ConsumerSeesItsItem | src/pop_ringbuf.c:20-33 | From its exchange to its release store, the consumer of position p sees in the cell exactly what the producer of p pushed, and nobody is writing the cell's next lap |
| RingProtocolSafety.StepRefinesFifo | src/pop_ringbuf.c:13-34 | Every atomic step is a step of a FIFO bounded by the ring size: a successful producer exchange enqueues if there is room, a successful consumer exchange dequeues the oldest item, all other steps change nothing |
| RingProtocolSafety.NothingLost | src/push_ringbuf.c:14-37 | What consumers took, followed by what is queued, is exactly what producers pushed, in order; at most size items are queued |
| RingProtocolSafety.PushSeesFull | src/push_ringbuf.c:18-28 | push returns -1 at its comparison if and only if, when it loaded the cell's sequence number, the position one lap earlier was not yet claimed by a consumer or not yet released by it, whatever other threads did in between |
| RingProtocolSafety.PopSeesEmpty | src/pop_ringbuf.c:17-27 | pop returns NULL at its comparison if and only if, when it loaded the cell's sequence number, its position was not claimed by a producer or not yet published, whatever other threads did in between |
| RingProtocolSafety.ExchangeFails | src/push_ringbuf.c:20-31 | An exchange that is tried claims the position, fails spuriously, or fails because another thread has claimed that position already: some thread always gets on |
| RingProtocolSafety.PoppedCellIntact | src/pop_ringbuf.c:33-34 | After the release a popped cell still holds its item until a producer claims the position one lap later |
| RingProtocolSafety.PoppedCellIntactFor | src/pop_ringbuf.c:33-34 | If k items were queued at the pop, counting the popped one, no run with at most size - k further push claims changes the cell the caller holds |
| RingProtocolSafety.PoppedCellOverwritten | src/push_ringbuf.c:34-36 | Once the producer of the next lap has stored, the popped cell holds the new item |
| RingProtocolSafety.WindowIsTight | src/push_ringbuf.c:17-36 | The bound on further claims cannot be raised: for every size of at least 2 and every k there is a run that queues k items, pops one, and with size - k + 1 further pushes overwrites the cell while its caller still holds it |
| RingProtocolSafety.SizeOneOverwrites | src/push_ringbuf.c:17-36 | With one cell the second push succeeds on the full ring and overwrites the first item: why the size must be at least 2 |
| RingIndex.SlotIsRemainder | src/push_ringbuf.c:17 | For a power of two, masking a position with size - 1, computed bit by bit, is the remainder modulo size |
| RingBuffer.RingBuffer.constructor | src/create_ringbuf.c:18-32 | A new ring is a valid empty FIFO of the given size |
| RingBuffer.RingBuffer.ClaimHead | src/push_ringbuf.c:14-32 | The retry loop claims the head position exactly when the ring has room, whatever number of spurious failures it meets |
| RingBuffer.RingBuffer.Push | src/push_ringbuf.c:7-38 | push appends the pair exactly when fewer than size are queued and returns 0, else returns -1 and changes nothing |
| RingBuffer.RingBuffer.ClaimTail | src/pop_ringbuf.c:13-31 | The retry loop claims the tail position exactly when something is queued |
| RingBuffer.RingBuffer.Pop | src/pop_ringbuf.c:7-35 | pop removes the oldest pair and returns the cell that still holds it, or nothing exactly when the ring is empty |
| TimerSpec.TickResult | src/tick_ringtimer.c:18-54 | The exact result of a tick on a bucket: with rounds left on the head, exactly the zero-round timers fire in list order and the others lose one round; with the head due, all timers fire in a stable order of rounds and the bucket empties |
| TimerSpec.DrainByRounds | src/tick_ringtimer.c:18-54 | Going round the list until it is empty fires the timers sorted by rounds, ties in list order |
| TimerSpec.LaterWeight | src/tick_ringtimer.c:44-54 | Each turn lowers the sum of rounds + 1 over the list: the termination measure of the traversal |
| TimerSpec.FiredOrLeft | src/tick_ringtimer.c:23-46 | A tick keeps every timer of the bucket exactly once, fired or left |
| TimerRuns.RunConserves | src/insert_ringtimer.c:27-47 | Over any run of inserts and ticks, what was pending or inserted is exactly what fired plus what is pending, as multisets |
| TimerRuns.SlotArithmetic | src/insert_ringtimer.c:15-16 | The ticks from slot c to the bucket of an insert plus its rounds in full turns come to t, or to t + max when c + (t-1) % max reaches the wheel's end |
| TimerRuns.TrackedRun | src/tick_ringtimer.c:16-57 | Over any run, a pending timer fires at most once, only whole turns before its last tick, and has fired once that tick is reached |
| TimerRuns.FiresOnTime | src/tick_ringtimer.c:16-57 | A timer inserted with delay t, followed by any inserts and ticks, fires at most once, only at ticks congruent to t modulo the wheel size, never later than tick t (t + max when the insert crosses the wheel's end), and by then it has fired |
| TimerRuns.FiresExactly | src/insert_ringtimer.c:15-34 | If c + t <= max the timer fires on exactly tick t, whatever other timers exist |
| TimerExact.LateRun | src/insert_ringtimer.c:34 | A run in which a timer that crosses the wheel's end, alone on the wheel, has not fired after its delay |
| TimerExact.EarlyRun | src/tick_ringtimer.c:18-54 | For every slot and every delay of more than one turn, a run in which the timer, behind a due timer in its bucket, fires at the bucket's first visit and so before its delay |
| TimerExact.ExactIff | src/insert_ringtimer.c:15-34 | For every slot c and delay t: every wheel at that slot and every run of at least t ticks fires the timer on exactly tick t, if and only if c + t <= max |
| TimerExact.NeverLateIff | src/insert_ringtimer.c:15-34 | For every slot c and delay t: every wheel at that slot and every run of at least t ticks has fired the timer by tick t, if and only if c + (t-1) % max < max |
| TimerExact.NeverEarlyIff | src/tick_ringtimer.c:18-54 | For every slot c and delay t: no wheel at that slot and no run fires the timer before tick t, if and only if t <= max |
| TimerLists.FillAlone | src/insert_ringtimer.c:27-35 | The first node of a bucket becomes a circular list of one |
| TimerLists.FillLast | src/insert_ringtimer.c:36-47 | A further node is linked in as the last of the circular doubly linked list, and the others keep their order and rounds |
| TimerLists.Unlink | src/tick_ringtimer.c:34-35 | Unlinking a node leaves a circular doubly linked list of the others, in order |
| TimerVisit.VisitBucket | src/tick_ringtimer.c:16-55 | The pointer traversal terminates for every bucket, fires exactly the timers the specification names, in its order, leaves a circular list of the rest, touches no other bucket, and returns every fired node to the allocator |
| TimerVisit.Recycle | src/tick_ringtimer.c:42 | The push that recycles a node never fails |
| RingTimer.CreateAllocator | src/create_allocator.c:22-52 | The allocator is a full ring of distinct new nodes |
| RingTimer.RingTimer.constructor | src/create_ringtimer.c:13-27 | A new wheel has empty buckets, current slot 0, and all nodes in the allocator, which are the wheel's pool |
| RingTimer.RingTimer.Insert | src/insert_ringtimer.c:8-50 | insert takes the oldest free node and appends the timer to the bucket and round count the specification gives; a popped cell without a node goes back and nothing changes |
| RingTimer.RingTimer.Tick | src/tick_ringtimer.c:8-59 | tick returns exactly the signals of the timers the specification fires, in its order, at most 64, advances the slot, and keeps every bucket a circular list and every node in exactly one of the buckets and the allocator |
| RingTimer.NodesPartition | src/tick_ringtimer.c:42 | Each node the allocator was made with is in exactly one bucket once, or free once, and there are no others |
| RingTimer.RingTimer.Partitioned | src/create_allocator.c:35-50 | In every state the buckets' nodes and the allocator's nodes partition the initial nodes |
| RingTimer.RingTimer.AllFree | src/tick_ringtimer.c:42 | With nothing pending the allocator holds all its nodes again |
| T1Loop.AloneTick | src/tick_ringtimer.c:16-57 | A wheel holding one timer fires it exactly when its remaining ticks are up and is otherwise one tick closer |
| T1Loop.OneTick | src/create_client.c:92-117 | One timer step keeps exactly one T1 timer pending; at an expiry the next wait is the doubled delay capped at 60 ticks, plus one full turn exactly when the insert crosses the wheel's end |
| T1Loop.GivingUp | src/create_client.c:84-88 | When the clock is polled at least once per step, the retransmission count found over the limit is 11 and no tick has passed since the eleventh expiry |
| T1Loop.Run | src/create_client.c:82-120 | From any start slot and wheel size: one pending timer throughout, ticks delivered equal elapsed time divided by the step, rounded down, the k-th expiry falls on the sum of the waits, and the loop gives up at the first check after the eleventh expiry, never before |
| T1Loop.CreateClient | src/create_client.c:78-120 | create_client's allocator of 256 nodes, wheel of 300 slots and loop, put together: the client does not give up before 663 steps have passed, and polled at least once a step it gives up at the 663rd with eleven expiries |
| UmemStack.UmemStack.constructor | src/create_umem_stack.c:17-27 | The stack starts with chunk i at i * size, all chunks present |
| UmemStack.UmemStack.Pop | src/umem_stack_pop.c:7-14 | pop returns the top, or the all-ones address exactly when the stack is empty |
| UmemStack.UmemStack.Push | src/umem_stack_push.c:7-14 | push puts the address on top, or drops it when the stack is full |
| KernelRing.KernelRing.Put | src/xdp_tx.c:25-30 | The i-th cell after the producer counter, masked, is written and nothing queued changes, also when the u32 counters wrap |
| KernelRing.KernelRing.Publish | src/xdp_fill.c:36-40 | Advancing the producer counter modulo 2^32 appends exactly the cells written |
| KernelRing.KernelRing.Release | src/xdp_rx.c:35 | Advancing the consumer counter modulo 2^32 removes exactly the oldest entries |
| Xdp.Fill | src/xdp_fill.c:7-43 | xdp_fill moves as many chunks as the ring has room for, the caller asks for and the stack has, from the top of the stack to the end of the ring |
| Xdp.Tx | src/xdp_tx.c:8-50 | xdp_tx queues the address and length of every segment in order, each continued but the last, or none; none exactly when there are 0 or more than 16 or they do not fit |
| Xdp.Rx | src/xdp_rx.c:7-37 | xdp_rx copies out the oldest descriptors, at most max_n, and removes exactly those |
| Xdp.CompleteTx | src/xdp_complete_tx.c:7-35 | xdp_complete_tx removes the oldest completions, at most max_n, and returns exactly those in order |
| XdpFraming.WholeStream | src/xdp_tx.c:32-36 | Splitting a descriptor stream after each descriptor that is not continued gives back the packets it was made of |
| XdpFraming.RunTx | src/xdp_tx.c:13-40 | Over any run of xdp_tx calls and kernel consumption, from any counter values, no unconsumed descriptor is overwritten: what was consumed followed by what is queued frames back to exactly the accepted segment lists, in order |
| UmemOwners.HandOver | src/xdp_fill.c:22-34 | Moving chunks from one place to another moves exactly those and keeps the bag of all chunks |
| UmemSystem.UmemSystem.constructor | src/create_umem_stack.c:21-26 | All chunks start on the stack with the four rings empty at any counter values |
| UmemSystem.UmemSystem.FillRing | src/xdp_fill.c:13-42 | A fill moves exactly as many chunks as the ring has room for, the caller asks for and the stack has, from the stack to the fill ring, and nothing else |
| UmemSystem.UmemSystem.KernelTakeFill | src/xdp_fill.c:36-40 | The kernel may take the oldest fill entry, which leaves the ring: that chunk is then the kernel's |
| UmemSystem.UmemSystem.KernelReceive | src/xdp_rx.c:13-15 | The kernel may deliver any chunk it took for receiving; the rx ring always has room for it |
| UmemSystem.UmemSystem.Receive | src/xdp_rx.c:25-35 | The received chunks, all of them up to max_n, move from the rx ring to the application |
| UmemSystem.UmemSystem.Send | src/xdp_tx.c:13-40 | All sent chunks move from the application to the tx ring exactly when there are 1 to 16 and they fit; otherwise nothing changes |
| UmemSystem.UmemSystem.KernelTakeTx | src/xdp_tx.c:39-40 | The kernel may take the oldest descriptor queued for sending, which leaves the ring: that chunk is then the kernel's |
| UmemSystem.UmemSystem.KernelComplete | src/xdp_complete_tx.c:12-15 | The kernel may complete any chunk it is sending; the completion ring always has room for it |
| UmemSystem.UmemSystem.Reap | src/xdp_complete_tx.c:25-32 | The completed chunks, all of them up to max_n, move from the completion ring to the application |
| UmemSystem.UmemSystem.GiveBack | src/umem_stack_push.c:10-13 | A push of a chunk the application holds is never dropped |
| UmemSystem.UmemSystem.Take | src/umem_stack_pop.c:10-13 | A pop moves one chunk to the application or the slab, and finds none exactly when the stack is empty |
| UmemSystem.ExactlyOneOwner | src/create_umem_stack.c:23-26 | In a valid state every chunk of the UMEM is in exactly one of: stack, slab, fill ring, kernel, rx ring, application, tx ring, completion ring |
| UmemRuns.Step | src/xdp_fill.c:13-42 | One operation, of ten, has exactly its effect on who owns what, with its exact count; a step the rules of ownership do not allow is not taken |
| UmemRuns.Run | src/create_umem_stack.c:23-26 | Over any run of the ten operations from all chunks on the stack, at any counter values, every operation has its effect and no other, and in every state passed through each chunk has exactly one owner |
| Slab.Slab.Alloc | src/slab_alloc_64b.c:8-35 | An allocation returns NULL exactly when there is no freed block, no unused block and no chunk; otherwise the last freed block, else the next unused one, else the first of the chunk on top of the stack, which is taken only then; never a live one, and it writes no memory |
| Slab.Slab.Refill | src/slab_alloc_64b.c:20-29 | Exactly the chunk on top of the stack becomes the current chunk, all its blocks unused; without one nothing changes |
| Slab.Slab.Free | src/slab_free_64b.c:7-12 | A free changes only the first word of the freed block, which then links the free list; every live block keeps its contents |
| SlabRuns.Step | src/slab_alloc_64b.c:13-34 | One client operation has its effect and no other: an allocation fails exactly when the client holds every block there is and takes the stack's top chunk exactly when it holds every block not on the stack, a free or a write touches one word of one block |
| SlabRuns.Run | src/slab_free_64b.c:10-11 | Any run of allocations, frees of held blocks and writes inside held blocks, as the states it goes through: each operation follows from the one before with its effect and no other, and in every state the taken chunks are the initial ones and exactly those gone from the top of the stack, and the held blocks are 64 bytes apart or more, 64-byte aligned from the base, inside taken chunks, and hold in memory exactly what the client last wrote or found there |
| Segments.SegmentList.constructor | src/sctp_prepare_packet.c:10-14 | A prepared packet has the prefilled headers as its only segment and the whole mtu left |
| Segments.SegmentList.Append | src/sctp_push_to_xdp_segs.c:10-18 | An append with its remain_plen decrease (src/build_prefilled_mac_ip_sctp_init_hdr.c:36-37) adds the segment, or drops it exactly when sixteen are there |
| Segments.SegmentList.IpLen | src/eth_send_sctp.c:16-17 | The IP total length written is the sum of the segment lengths minus 14, modulo 2^16, if and only if the dropped bytes are a multiple of 2^16 |
| Segments.Build | src/eth_send_sctp.c:16-17 | For up to fifteen appended segments and fewer than 2^16 bytes the IP total length is exactly the sum of segment lengths minus 14 |
| Crc32c.CrcIsDivision | src/generate_crc32c.c:56 | The register after any buffer is what bit-serial division of its bits, low bit first, by the reflected polynomial 0x82F63B78 leaves (RFC 9260, Appendix A) |
| Crc32c.TableEntry | src/generate_crc32c.c:61-126 | Each of the 256 table constants is eight division steps of its index |
| Crc32c.TableStepIsStep | src/generate_crc32c.c:56 | The table step equals eight division steps, for every register and byte |
| Crc32c.CheckValue | src/generate_crc32c.c:127-162 | The checksum of the nine digits 1 to 9 is 0xE3069283, the catalogued check value of CRC-32C |
| Crc32c.StartLaw | src/generate_crc32c.c:129-136 | The checksum of at least four bytes is the complement of the division, from register 0, of the message bits with the first 32 inverted |
| Crc32c.LeadingZeroCounts | src/generate_crc32c.c:129 | A zero byte in front of a message always changes its checksum |
| Crc32c.GenerateByTable | src/generate_crc32c.c:58-162 | The table loop returns the complement of the register; its byte swap and the htonl of a little-endian host cancel |
| Crc32c.ChunkIsEightBytes | src/generate_crc32c.c:22-26 | Sixty-four division steps on a 64-bit chunk equal eight byte steps on its bytes in memory order |
| Crc32c.GenerateOnCrc | src/generate_crc32c.c:33-52 | The 8-byte-stride loop with its byte tail computes the register of the whole buffer from any start value |
| Crc32c.Generate | src/generate_crc32c.c:14-31 | The SSE 4.2 form returns the same checksum as the table form, on every buffer |
| Crc32c.RegisterChains | src/generate_crc32c.c:33-52 | generate_crc32c_on_crc32c over a concatenation equals chaining it over the parts |
| Crc32c.StepBijective | src/generate_crc32c.c:56 | For every byte the CRC step is a bijection of the register, with an explicit inverse |
| Crc32c.BitsBurst | src/generate_crc32c.c:133-137 | From any register, two different strings of at most 32 message bits leave different registers |
| Crc32c.DivideInjective | src/generate_crc32c.c:133-137 | Different registers stay different over any further message bits |
| Crc32c.BitBurstDetected | src/generate_crc32c.c:133-137 | Two equal-length messages whose bits differ only within 32 consecutive ones, aligned to bytes or not, always have different CRC32C |
| Crc32c.BurstInjective | src/generate_crc32c.c:133-137 | From any register, two different runs of at most four bytes leave different registers |
| Crc32c.BurstDetected | src/generate_crc32c.c:133-137 | Two equal-length messages that differ only within four consecutive bytes always have different CRC32C |
| Crc32c.PaddedChecksum | src/build_prefilled_mac_ip_sctp_data_hdr.c:97 | One to three zero bytes behind a message leave its CRC32C as it is if and only if it is 0xFFFFFFFF or 0x035BD250 |
| InternetChecksum.IpChecksum | src/ip_checksum.c:7-19 | The fold-as-you-go sum is the canonical residue modulo 65535 of the words, zero only for a zero sum |
| InternetChecksum.TcpChecksum | src/tcp_checksum.c:7-27 | The fold-at-end sum, an odd last byte as a low half word, returns the 16-bit complement of the same canonical residue for every buffer whose u32 sum cannot wrap |
| InternetChecksum.OddByte | src/tcp_checksum.c:15-20 | An odd last byte adds its value to the sum |
| InternetChecksum.BothChecksums | src/ip_checksum.c:10-18 | On every even-length buffer the 16-bit complement of ip_checksum equals tcp_checksum, and the sum is zero only for all-zero data |
| InternetChecksum.TotalZero | src/ip_checksum.c:11-16 | The sum is zero if and only if every word is |
| InternetChecksum.UpdateIsRecompute | src/build_prefilled_mac_ip_sctp_cookie_echo_hdr.c:45-50 | From a check computed with a zero length field, the u32 subtraction with wrap, one fold and truncation give what recomputing from scratch would, for every header and length (RFC 1624, section 3) |
| InternetChecksum.UpdateAgain | src/build_prefilled_mac_ip_sctp_cookie_echo_hdr.c:45-58 | Updating a header that already carries a length is right if and only if that length is a multiple of 65535: the recycled prefilled packet is not prefilled any more |
| Md5.CountAdds | src/md5.c:124-126 | The two u32 words with their carry count the bits exactly, modulo 2^64 |
| Md5.GuardStops | src/md5.c:137 | The u32 guard i + 63 < inputLen stops the loop after the last whole block if and only if buffered bytes plus input length stay below 2^32 |
| Md5.Blocks | src/md5.c:137-138 | The block loop compresses exactly the whole blocks of the input |
| Md5.Context.constructor | src/md5.c:99-108 | A new context has digested the empty message |
| Md5.Context.Update | src/md5.c:114-148 | An update extends the digested message by exactly its input, up to the length at which the guard wraps |
| Md5.CountBytes | src/md5.c:159-160 | The encoded count is the message length in bits modulo 2^64, low byte first |
| Md5.Context.Final | src/md5.c:153-176 | The digest is the fold of the compression function over the message, a one bit, zeros to 56 modulo 64, and the 64-bit length (RFC 1321, section 3) |
| Md5.StartBytes | src/md5.c:105-108 | The initial state, written as a digest is, reads 01 23 45 67 89 ab cd ef fe dc ba 98 76 54 32 10 |
| Md5.ShortDigest | src/md5.c:153-176 | The digest of a message of at most 55 bytes is one compression of the message, 0x80, zeros and the length in bits, low byte first, from the initial state of RFC 1321 |
| Md5.Stream | src/md5.c:114-176 | Any sequence of updates followed by the final gives the digest of the concatenation |
| HmacMd5.Pad | src/hmac_md5.c:40-49 | The key, zero-padded to 64 bytes, xored with the pad byte |
| HmacMd5.HmacMd5 | src/hmac_md5.c:10-67 | hmac_md5 equals the formula of section 2 of RFC 2104 for every key length, keys over 64 bytes hashed first |
| HmacMd5.Rfc2104 | src/hmac_md5.c:27-49 | The formula with its bytes written out: the key, or its digest when longer than 64 bytes, and zeros, under 0x36 for the inner and 0x5C for the outer pass |
| Packets.CheckChecksums | src/sctp_check_checksums.c:9-42 | Returns 0 if and only if plen is at least 46 and the packet is acceptable; an accepted packet keeps every byte, a check that does not match is left zero, and nothing else changes |
| Packets.AcceptsIff | src/sctp_check_checksums.c:11-36 | A frame is acceptable if and only if its chunk lies in the buffer, the ten words of its IPv4 header sum to 0xFFFF (with a check of 0xFFFF only for an otherwise zero header), its length field is at least 36, and bytes 42 to 45 are, low byte first, the CRC32C of the SCTP part with a zero check |
| Packets.HeaderWordRejected | src/sctp_check_checksums.c:17-20 | Changing one word of an accepted frame's IPv4 header makes it unacceptable, except from 0x0000 to 0xFFFF or back |
| Packets.IpCheckRejected | src/sctp_check_checksums.c:17-20 | Changing only the IPv4 check makes an accepted frame unacceptable |
| Packets.SctpCheckRejected | src/sctp_check_checksums.c:31-36 | Changing only the SCTP check makes an accepted frame unacceptable |
| Packets.TrailingIgnored | src/sctp_check_checksums.c:14-36 | Acceptance depends on the packet only, not on what follows it in the receive buffer |
| Packets.BitBurstRejected | src/sctp_check_checksums.c:31-36 | Corrupting an accepted packet within 32 consecutive bits, in SCTP bytes outside the check and chunk length, always makes it unacceptable |
| Packets.BurstRejected | src/sctp_check_checksums.c:31-36 | Corrupting an accepted packet within four consecutive SCTP bytes, outside the check and chunk length, always makes it unacceptable |
| Builders.Frame.BuildFld | src/build_sctp_fld_hdr_raw.c:8-24 | Writes the chunk header in front of the packet; the rest of the packet is kept |
| Builders.Frame.BuildCmn | src/build_sctp_cmn_hdr_raw.c:8-29 | Writes the common header in front, its check the CRC32C of the packet with a zero check field |
| Builders.Frame.BuildIp | src/build_ip_raw.c:10-37 | Writes the IPv4 header in front, its length the packet's u16 length and its check computed with a zero check field |
| Builders.PacketAccepted | src/sctp_check_checksums.c:11-41 | A packet built from these headers is accepted if and only if its IP length fits 16 bits |
| Builders.PacketReads | src/build_ip_raw.c:19-35 | Read by its offsets, a built packet gives back the addresses, the EtherType, the IPv4 length, TTL, protocol and addresses, the ports, the tag, and the chunk's kind, flags, length and payload it was built from |
| Builders.InitReads | src/build_sctp_init_hdr_raw.c:17-23 | Read by its offsets, the fixed part of an INIT or INIT ACK gives back tag, window, outbound and inbound stream counts and TSN |
| Builders.BuildInit | src/build_sctp_init_hdr.c:17-22 | The INIT packet starts where the buffer starts, is accepted, and reads back as kind 1 with a zero tag and the given fields |
| Builders.BuildInitAck | src/build_sctp_init_ack_hdr.c:17-26 | The INIT ACK packet is accepted and reads back as kind 2 under the peer's tag, with the given fields and a parameter of kind 7 and length 60 holding the cookie and its HMAC |
| Builders.BuildCookieEcho | src/build_sctp_cookie_echo_hdr.c:18-23 | The COOKIE ECHO packet starts four bytes in, reads back as kind 10 with the cookie, and is accepted if and only if the cookie is at most 65499 bytes long |
| Builders.BuildCookieAck | src/build_sctp_cookie_ack_hdr.c:18-22 | The COOKIE ACK packet is accepted and reads back as kind 11 with an empty chunk |
| PrefilledEcho.SetLength | src/build_prefilled_mac_ip_sctp_cookie_echo_hdr.c:44-50 | Storing the length into a prefilled header (src/prefill_mac_ip_sctp.c:40-42) and updating its check leaves a header whose check is right |
| PrefilledEcho.BuildPrefilledCookieEcho | src/build_prefilled_mac_ip_sctp_cookie_echo_hdr.c:30-54 | The packet written over prefilled headers reads back with the tag, kind 10, the cookie and both lengths modulo 2^16, is accepted if and only if its length fits 16 bits, and changes nothing else |
| Handshake.CookieRoundTrip | src/build_prefilled_mac_ip_sctp_init_ack_hdr.c:53-63 | Reading back the forty cookie bytes gives the fields that were written |
| Handshake.ParseReads | include/sctp.h:227-240 | The cookie's fields lie at the offsets of the packed structure, low byte first |
| Handshake.SameDigest | src/sctp_process_sctp_cookie_echo.c:24-32 | The or-of-differences loop finds a difference if and only if the digests differ |
| Handshake.Association.ProcessInit | src/sctp_process_sctp_init.c:12-36 | An INIT is answered field by field: under its own tag, address and port, with the local window and counts in network order and 56 bytes of cookie and digest whose fields are the INIT's; the association is not modified |
| Layout.Swap32Octets | src/build_prefilled_mac_ip_sctp_init_ack_hdr.c:41-43 | The window in network order is the four octets of the host's word reversed |
| Handshake.Association.ProcessInitAck | src/sctp_process_sctp_init_ack.c:10-40 | Refused exactly when the chunk is at most 24 long; otherwise its tag, os, mis, window and TSN are stored and its cookie bytes are echoed under its tag, and nothing else changes |
| Handshake.Association.ProcessCookieEcho | src/sctp_process_sctp_cookie_echo.c:9-55 | Refused exactly when the chunk is shorter than 60 or the digest differs; otherwise the fields at the cookie's offsets are restored, the status stays, and a COOKIE ACK goes to the cookie's address |
| Handshake.Association.ProcessCookieAck | src/sctp_process_sctp_cookie_ack.c:9-20 | The client becomes established exactly when the chunk is at least 4 long |
| Handshake.Association.IfIpSctp | src/if_ip_sctp.c:9-87 | A packet for another address or port is not taken; one for this address and port is taken exactly when the status admits its type, its length suffices and a cookie's digest matches; a packet not taken changes nothing, and the state after and the packets sent are stated per type |
| HandshakeRuns.HmacDigests | src/hmac_md5.c:9-67 | The HMAC of the model is one of the MAC functions the handshake results hold for |
| HandshakeRuns.StepInv | src/if_ip_sctp.c:26-83 | Every delivery to either side and every injected packet that is not a forged digest keeps the handshake invariant |
| HandshakeRuns.NotAddressed | src/if_ip_sctp.c:17-21 | Delivering a packet that is for another address or port changes neither side nor the network |
| HandshakeRuns.ServerFromOneInit | src/sctp_process_sctp_cookie_echo.c:34-43 | In every reachable state the server still listens and holds either nothing or the tag, window, stream counts, TSNs, address and port of one INIT that reached it |
| HandshakeRuns.EchoRestoresOneInit | src/sctp_process_sctp_cookie_echo.c:22-43 | Any COOKIE ECHO the server takes restores the fields of one earlier INIT, however packets were lost, repeated or reordered |
| HandshakeRuns.CookieDetermines | src/build_prefilled_mac_ip_sctp_init_ack_hdr.c:53-63 | Two INITs with the same cookie agree in all restored fields: an echo never mixes INITs |
| HandshakeRuns.ClientEstablished | src/sctp_process_sctp_init_ack.c:23-37 | An established client passed INIT_ACK_RECEIVED exactly once, took exactly one INIT ACK, still holds its tag, window, stream counts and TSN, and echoed its cookie under that tag |
| HandshakeAgreement.Agreement | src/sctp_process_sctp_cookie_ack.c:14-16 | In every run in which only the two sides send and the client is established, both hold one same answer to the client's own INIT: the server that INIT's fields, the client that INIT ACK's tag and TSN and the server's configured window and counts in network order; and the tags are equal if and only if the two numbers drawn in that answer are |
| HandshakeAgreement.Completes | src/if_ip_sctp.c:26-83 | INIT, INIT ACK, COOKIE ECHO and COOKIE ACK delivered once each establish the client with a matching server |
| HandshakeAgreement.StatusFixed | src/if_ip_sctp.c:40-53 | No run changes the status of a client that neither has sent an INIT nor waits for a COOKIE ACK, and unless it listens nothing of it changes: the client create_client makes (src/create_client.c:77) takes no INIT ACK |
| HandshakeAgreement.EstablishableIff | src/if_ip_sctp.c:40-80 | A client not yet established becomes so in some run if and only if it starts in SCTP_INIT_SENT or SCTP_INIT_ACK_RECEIVED |
| Fragmentation.ReadBack | src/build_prefilled_mac_ip_sctp_data_hdr.c:72-86 | Reading a DATA chunk back by its kind and its length field, which leaves out the padding, gives the chunk that was written |
| Fragmentation.Thread.BuildData | src/build_prefilled_mac_ip_sctp_data_hdr.c:48-97 | The k-th call on a stream writes the k-th piece of the message, 1438 bytes except for the last, as a DATA chunk of kind 0 whose fields read back at their offsets, with bit 0x02 only on the first and bit 0x01 only on the last, advances the cursor to its end, writes the tag and both checks and nothing else, and makes a packet the receiver accepts if and only if the prefilled length is at least 36 and the padding is empty or does not change the checksum |
| Fragmentation.SendMessage | src/build_prefilled_mac_ip_sctp_data_hdr.c:48-89 | ceil(L/1438) calls leave the cursor at the end, their payloads concatenate to the message, and the bytes they wrote, read by their length fields and collected from B to E, are the message |
| Fragmentation.MessagesSurvive | src/build_prefilled_mac_ip_sctp_data_hdr.c:50-57 | A receiver that collects payloads from B to E gets back every message of a stream, in order (RFC 9260, section 6.9) |

## Left out

- Weak-memory reorderings and u64 counter overflow in the ring: steps are sequentially consistent.
- RingBuffer.RingBuffer.Push: the `spurious` argument bounds how often the weak exchange fails; without a bound the retry loop need not end.
- RingBuffer.RingBuffer.Pop: same bound on spurious failures.
- RingTimer.RingTimer.Insert: requires a non-empty allocator, because the code spins until another thread frees a node.
- RingTimer.RingTimer.Tick: requires at most 64 timers in the bucket, the length of the result array the code writes to.
- RingTimer.CreateAllocator: allocation succeeds; the failure path of src/create_allocator.c:38-47 is not modelled.
- Md5.Context.Update: inputs for which the u32 loop guard wraps are excluded; `Md5.GuardStops` says exactly which. The compression function is a parameter, so the round constants of MD5Transform are not modelled.
- Packets.CheckChecksums: requires the buffer to hold as many bytes as the chunk header announces; the code reads that far.
- Builders.BuildInit: NULL arguments are not modelled; frames and buffers exist.
- Handshake.Association.IfIpSctp: NULL arguments, the spin lock and prepare_sctp_threads are not modelled.
- Handshake.Association.ProcessInit: the temporary association is local values; the INIT ACK is returned as a value, not written over prefilled headers and pushed to a ring.
- Fragmentation.Thread.BuildData: the TSN is an input, as `tsn += htonl (1)` advances only the last wire byte without carry; the bundling ring and the recycling of packet buffers are left out.
- Slab.Slab.Free: requires a live block, so freeing a block twice or writing to a freed one is not modelled.
- UmemSystem.UmemSystem.Send: requires the application to hold the chunks it sends, each once; a descriptor into a slab block is not tracked.
- Word contents of UMEM packets: chunk ownership is tracked by address, only the slab models memory words.
- The checksum update with the destination address (src/build_prefilled_mac_ip_sctp_init_ack_hdr.c:79-84): equality with recomputation is not unconditional there.
- src/sctp_build_data_hdr.c, xdp_tx_sg, the TCP, ARP, UDP and DHCP code, if_sctp: superseded, or without a law to keep.
- Sockets, netlink, interface setup, mmap, random sources and printing: input and output only.
