# Verified models of the MCUXpresso SDK components

A Dafny project that models seven components of the repository and proves what they promise their callers: the light
memory manager, the software CRC, the serial manager, the button component, the bare-metal OS abstraction, the generic
list and the log ring buffer. `dafny verify dfyconfig.toml` checks everything.

Each component that works by changing things in place is a class (or a method with loops) proved against a
specification on values; what the component is for is then proved of that specification as lemmas.

## The components

**Light memory manager** (`HeapModel`, `HeapRuns`, `HeapEdges`, `MemManagerLight`). The area is raw memory: a map from
header addresses to headers with their `next`, `next_free`, `prev_free` and `used` fields, beside `head` and `tail`.
`Area` walks and rewrites those links as the source does, and is proved against a sequence of blocks in address order.
Over every run of allocations and frees live buffers are as large as asked for, lie apart from each other and from
every header, and never move; freeing everything in any order brings back the fresh area. Configuration: reuse of free
blocks 1, clean-up mode 2, no guards or statistics; the header size is any positive multiple of 4, and addresses fit
32 bits.

Four promises fail, each with an input and with the exact condition (`HeapEdges`):

- The fit test at the tail is 32-bit arithmetic. `HonouredIff` says, for every 32-bit request in every state, whether
  the allocation keeps the area sound and serves what was asked; `WrappingRequestRuinsTheArea` is a request that the
  fresh area accepts and that ruins it.
- The code treats `end_address` as the last usable byte (fsl_component_mem_manager_light.c:758-768) while the
  initialisation passes the address one past it (lines 224 and 506). `EndAlignmentIsNeeded` and `OnePastTheEndOverrun`
  give the conditions under which the new tail header leaves the area, by a word at most.
- The free-space query answers in 32 bits. `ConservationOfAnswer` shows that its answer, payloads and headers add up
  to the area exactly when the tail header lies in it or some free block has payload, and always with an aligned end;
  with an end one past the heap `FillingTheHeapOverflowsTheAnswer` reports 4294967293 free bytes after one allocation.
  In the same states the assertion at line 763 fails (`TailAssertHoldsIff`).
- The backward merge reads `next` through `prev_free`, which is NULL for the head of the free list (line 377).
  `MergesPastTheHeadIff` says which frees do so: that of the topmost block when the free blocks below it are all
  adjacent to it. `AllocateThenFreeMergesPastTheHead` is the shortest run, and `RecoveryMergesPastTheHead` shows that
  the last free of every complete recovery does it. The model goes on as if the read had ended the walk.

**Software CRC** (`Lfsr`, `Words`, `Crc`, `CrcLaws`). `CrcCompute` is the bit-serial loop on 32-bit words. It is
proved equal to a shift register on bit sequences, and that register to polynomial division over GF(2), with the
remainder unique, for every seed, final xor, reflection and byte order. The generator is a parameter, as is the width
of one to four octets; the generator at fsl_adapter_crc.h:55 is that of section 3.2.9 of IEEE 802.3. Splitting, the
constant residue of a message with its own check bytes, and the detection of every burst no longer than the check
value follow.

**Serial manager** (`Rings`, `SerialRx`, `SerialTx`, `SerialTransmitter`, `SerialReports`). `Receiver` is the receive
ring and the pending read, without an operating system, so the task runs inside the callback. The copy that does not
wrap never moves the tail; `Stored` says what the ring then holds. Over any interleaving of received messages, reads
and cancels, delivered and held bytes make up what was received exactly when every message fitted the free space it
met (`StreamIsIntactIff`). `Transmitter` is the queue of running writes, the queue of completed ones, the port and the
task that makes the callbacks, over any interleaving of writes, cancels, port completions and task rounds. A write
that is canceled while it waits, even one already sent whose callback is still due, is reported as canceled and moves
behind the completed writes: it is the only kind of write called back out of order. Over every run the accepted writes
are those asked for, and every callback reports the data, the length and the status of its write
(`CallbacksAreHonest`). The posts to the task are counted in 8 bits: after a multiple of 256 of them a round passes
over the callbacks that are due (`RoundPassesOverIff` gives the run).

**Button** (`ButtonModel`, `Button`). The reference is a gesture described by the times at which a button goes down
and up. `ButtonList` keeps the source's counters and its five-way decision and is proved to call back exactly what the
gestures call for, whatever the interleaving of the buttons; each gesture gives exactly one event, and the timing laws
hold for a button whatever the other buttons do meanwhile.

**Bare-metal OS abstraction** (`TaskModel`, `OsaTasks`, `QueueModel`, `OsaMsgQueue`, `OsaMemAlign`). A ready task that
was created without an entry function keeps the scheduler busy for ever (`NoEntryNeverFinishes`). The scheduler runs
over the light list of `GenericList`, writing its links itself where the source does. `OSA_TaskSetPriority` reads the
last task it visited (fsl_os_abstraction_bm.c:447); for a task alone in the list that is a read through NULL, where
the model stops. The message queue addresses its buffer with 16-bit offsets, compared with a 32-bit product:
`QueueIsFifoIff` shows that it is first-in first-out in all runs exactly when its messages take at most 2^16 bytes in
all, or it has one message whose size is a multiple of 2^16; for every other queue the proof names a run in which a
message comes out wrong or a copy leaves the queue's memory. The aligned allocator keeps the distance to the raw block
in 16 bits: `RecoversIff` shows that the free finds the raw block of every request exactly for alignments up to 2^15.

**Generic list** (`Sequences`, `ListModel`, `GenericList`). Any number of lists and elements in one memory, with head,
tail, size and owner, in the light and the doubly linked build. Each operation is proved to do on the memory what it
should do on sequences, and the two builds to give equal results on every sequence of operations.

**Log ring buffer** (`LogBackend`). After any writes of any lengths the ring, read from tail to head, holds exactly
the newest bytes.

Critical sections are single steps. What the hardware, a raw allocator, an entry function or an application callback
does is a parameter, or is left out.

## Model

| member | source | states |
|---|---|---|
| HeapModel.TailTestIsExact | components/mem_manager/fsl_component_mem_manager_light.c:755-768 | the 32-bit test at the tail says whether buffer and next header fit, exactly outside two bands of huge requests |
| HeapModel.SensibleIsTruthful | components/mem_manager/fsl_component_mem_manager_light.c:764-768 | when request, header and one word add up to at most 2^31 the test is right in every state, and the remaining bytes are what is left |
| HeapModel.AllocationPolicy | components/mem_manager/fsl_component_mem_manager_light.c:699-854 | in addresses: NULL exactly when every free block's payload is below the request and the room above the tail is below request and header; the tail exactly when it has that room and each free block is too small, or over a word and at least twice the request |
| HeapModel.ReusePolicy | components/mem_manager/fsl_component_mem_manager_light.c:709-719 | else a free block whose payload is at least the request, and each lower one is too small, or over a word and at least twice the request |
| HeapModel.TightBlocksAreUsed | components/mem_manager/fsl_component_mem_manager_light.c:709-719 | a free block of at least the request, and of at most a word or below twice the request, is used, or one below it |
| HeapModel.LargeBlocksAreKept | components/mem_manager/fsl_component_mem_manager_light.c:723-731 | a block over one word and at least twice the request is used only when the tail cannot serve and every other block that holds it is as large; and then it is the lowest |
| HeapModel.ExtensionHonoursIffRoom | components/mem_manager/fsl_component_mem_manager_light.c:764-790 | an allocation at the tail keeps the area sound and holds the request exactly when there was room |
| HeapModel.AllocationKeepsInv | components/mem_manager/fsl_component_mem_manager_light.c:677-905 | an allocation keeps the chain increasing, word-aligned, apart by a header, with a used block below the tail |
| HeapModel.FreeKeepsInv | components/mem_manager/fsl_component_mem_manager_light.c:977-1036 | so does a free, which melds the topmost free run into the tail |
| HeapRuns.AllocationServes | components/mem_manager/fsl_component_mem_manager_light.c:699-849 | what an allocation hands out was not live, is live now and extends over at least the bytes asked for |
| HeapRuns.StepKeepsInv | components/mem_manager/fsl_component_mem_manager_light.c:677-1036 | every allocation and free keeps the invariant of the area and of the sizes of its live buffers |
| HeapRuns.StepKeepsLiveBuffer | components/mem_manager/fsl_component_mem_manager_light.c:677-1036 | no allocation and no free of another buffer moves, shrinks or re-labels a live buffer |
| HeapRuns.LiveBufferStays | components/mem_manager/fsl_component_mem_manager_light.c:677-1036 | the same through every run that does not free the buffer |
| HeapRuns.RunsAreSafe | components/mem_manager/fsl_component_mem_manager_light.c:677-1036 | in every reachable state live buffers are large enough, pairwise disjoint, disjoint from every header, inside the chain and below the end address; the tail header leaves the area by a word at most, and not at all with an aligned end |
| HeapRuns.EndAlignmentIsNeeded | components/mem_manager/fsl_component_mem_manager_light.c:758-784 | allocations keep every header in the area exactly when the address after the last byte is word-aligned |
| HeapRuns.OnePastTheEndOverrun | components/mem_manager/fsl_component_mem_manager_light.c:504-506 | with an end one past the heap, the new tail header leaves it exactly when a request of size 1 modulo 4 fills the area, and then by a word |
| HeapRuns.EmptyIffNoneLive | components/mem_manager/fsl_component_mem_manager_light.c:605-617 | the area is in its fresh state exactly when no buffer is live |
| HeapRuns.FreeingAllRecovers | components/mem_manager/fsl_component_mem_manager_light.c:362-399 | freeing all live buffers, in any order, is legal and restores the fresh area, with the last free reading past the head of the free list |
| HeapRuns.Conservation | components/mem_manager/fsl_component_mem_manager_light.c:1288-1304 | the unbounded sum of free space, payloads in use and headers is the area in every reachable state |
| HeapEdges.TruthfulIff | components/mem_manager/fsl_component_mem_manager_light.c:764-768 | in every state the 32-bit test is right about a request exactly outside the band from 2^31 to 2^32 above the room |
| HeapEdges.HonouredIff | components/mem_manager/fsl_component_mem_manager_light.c:677-905 | every 32-bit request leaves the area sound and the block large enough, or is rightly refused, exactly when a block fits tightly or the request lies outside that band |
| HeapEdges.WrappingRequestRuinsTheArea | components/mem_manager/fsl_component_mem_manager_light.c:764-790 | on the fresh area a request that wraps to nothing with its header is accepted and puts two headers at one address |
| HeapEdges.FreeSpaceSign | components/mem_manager/fsl_component_mem_manager_light.c:1288-1304 | the sum of the query is negative, by less than a word, exactly when the tail lacks room and no free block has payload |
| HeapEdges.AnswerAddsUpIff | components/mem_manager/fsl_component_mem_manager_light.c:1288-1304 | the 32-bit answer, payloads in use and headers add up to the area exactly when that sum is not negative |
| HeapEdges.ConservationOfAnswer | components/mem_manager/fsl_component_mem_manager_light.c:1288-1304 | the same in every reachable state, and always when the address after the last byte is word-aligned |
| HeapEdges.FillingTheHeapOverflowsTheAnswer | components/mem_manager/fsl_component_mem_manager_light.c:504-506 | with an end one past the heap, one allocation of all its room makes the query answer 4294967293 |
| HeapEdges.TailAssertHoldsIff | components/mem_manager/fsl_component_mem_manager_light.c:755-763 | the assertion on the available size holds for all requests exactly while the tail header is in the area |
| HeapEdges.MergesPastTheHeadIff | components/mem_manager/fsl_component_mem_manager_light.c:362-399 | the new tail is the whole free list, so that the merge reads through its head's NULL, exactly for a free of the topmost block next to which all free blocks lie |
| HeapEdges.AllocateThenFreeMergesPastTheHead | components/mem_manager/fsl_component_mem_manager_light.c:370-383 | freeing the first allocation of a fresh area merges past the head |
| HeapEdges.RecoveryMergesPastTheHead | components/mem_manager/fsl_component_mem_manager_light.c:362-399 | the last of any frees that empty the area, in any order, merges past the head |
| MemManagerLight.Area.constructor | components/mem_manager/fsl_component_mem_manager_light.c:567-591 | registration leaves one free header as head and tail, and the initial level as low watermark |
| MemManagerLight.Area.FindBlock | components/mem_manager/fsl_component_mem_manager_light.c:699-760 | the walk of the free list arrives at the choice the policy makes over all blocks |
| MemManagerLight.Area.Allocate | components/mem_manager/fsl_component_mem_manager_light.c:677-905 | for every 32-bit request head, tail and low watermark are those of the allocated block sequence, headers spell it out while it has distinct addresses, the area is sound exactly when its invariant holds, and the assertion at the tail fails exactly when `TailAssertHolds` says |
| MemManagerLight.Area.Link | components/mem_manager/fsl_component_mem_manager_light.c:1000-1025 | a freed block enters the free list at its place in address order |
| MemManagerLight.Area.CleanUp | components/mem_manager/fsl_component_mem_manager_light.c:362-399 | the clean-up walks drop exactly the topmost run of free blocks, and pass the head of the free list exactly when that run is all of it |
| MemManagerLight.Area.Free | components/mem_manager/fsl_component_mem_manager_light.c:977-1074 | headers, head and tail after a free spell out the freed block sequence; NULL is an error and changes nothing; the merge passes the head exactly when `MergesPastTheHead` says |
| MemManagerLight.Area.AreaIsEmpty | components/mem_manager/fsl_component_mem_manager_light.c:605-617 | the test of head and its next free block is true exactly for the fresh area |
| MemManagerLight.Area.GetFreeHeapSpace | components/mem_manager/fsl_component_mem_manager_light.c:1288-1304 | the walk adds up the free payloads and the room above the tail, modulo 2^32 |
| MemManagerLight.ListsSpellOutTheBlocks | components/mem_manager/fsl_component_mem_manager_light.c:567-585 | next from the start visits exactly the blocks, next_free from head exactly the free ones in address order, both end at the tail, and prev_free undoes next_free |
| MemManagerLight.Execute | components/mem_manager/fsl_component_mem_manager_light.c:677-1036 | running operations on the headers goes through the states of the run on block sequences |
| Lfsr.RunAppend | components/crc/fsl_adapter_software_crc.c:29-71 | the register after two messages is the register of the second started from that of the first |
| Lfsr.RunIsTheRemainder | components/crc/fsl_adapter_software_crc.c:45-70 | for every seed the register is the remainder, by x^n + poly, of msg(x) x^n with the seed added to its first n coefficients, and nothing else is |
| Lfsr.RemainderIsUnique | components/crc/fsl_adapter_software_crc.c:45-70 | quotient and remainder of the division over GF(2) are unique |
| Lfsr.CheckedMessageIsZero | components/crc/fsl_adapter_software_crc.c:45-70 | a message followed by its own check bits leaves zero, whatever the seed |
| Lfsr.ZerosKeepZero | components/crc/fsl_adapter_software_crc.c:45-70 | with an odd generator, zero bits keep a register nonzero if and only if it was |
| Lfsr.BurstIsDetected | components/crc/fsl_adapter_software_crc.c:45-70 | equal-length messages that differ only inside n consecutive bits have equal registers exactly when they are equal |
| Crc.ShiftAddClocks | components/crc/fsl_adapter_software_crc.c:55-60 | shift and conditional addition on the word clock the register and leave the low 32-n bits zero |
| Crc.LowestBitIsRight | components/crc/fsl_adapter_software_crc.c:62-69 | setting or clearing the lowest active bit changes nothing |
| Crc.ReflectByte | components/crc/fsl_adapter_software_crc.c:33-43 | the input loop reverses the bits of a byte |
| Crc.ClockByte | components/crc/fsl_adapter_software_crc.c:45-70 | the inner loop runs the register over the eight bits of a byte, top bit first |
| Crc.ReverseWord | components/crc/fsl_adapter_software_crc.c:81-88 | the output loop reverses the bits of a word |
| Crc.CrcCompute | components/crc/fsl_adapter_software_crc.c:14-93 | the result is, bit for bit, the register over the bytes from the start byte up to the length, with xor, alignment and byte order applied; size 0 gives 0 |
| CrcLaws.CrcIsTheRemainder | components/crc/fsl_adapter_software_crc.c:16-77 | for every configuration a word is the result exactly when its other bits are zero and its low bits, in the order of the register and with xorOut added, are the GF(2) remainder of the seeded message |
| CrcLaws.XorOutIsAdded | components/crc/fsl_adapter_software_crc.c:73-89 | the words for a configuration and for the same without xorOut differ in just the low bits of xorOut, reversed for LS byte first |
| CrcLaws.CrcSplits | components/crc/fsl_adapter_software_crc.c:29-89 | for every configuration the check value of a followed by b is that of b, seeded with that of a in order and with xorOut added |
| CrcLaws.CheckedMessage | components/crc/fsl_adapter_software_crc.c:29-89 | a message followed by its check bytes leaves the same residue whatever message and seed, and 0 without xorOut: big-endian for unreflected MS-first, little-endian for reflected LS-first |
| CrcLaws.BurstChangesCrc | components/crc/fsl_adapter_software_crc.c:29-89 | with an odd polynomial, equal-length messages whose processed bits differ only within the width of the check value have equal results exactly when they are equal |
| Rings.BackAfterWrite | components/log/fsl_component_log_backend_ringbuffer.c:84-94 | after a write that may wrap, looking back from the new head shows the old bytes and then the new ones |
| LogBackend.RingBackend.constructor | components/log/fsl_component_log_backend_ringbuffer.c:118-140 | an initialised ring is empty, which is what the law says of an empty history |
| LogBackend.RingBackend.Puts | components/log/fsl_component_log_backend_ringbuffer.c:62-116 | after every write, from tail to head the ring holds exactly the newest min(L-1, total) bytes of the whole history |
| LogBackend.PutKeepsNewest | components/log/fsl_component_log_backend_ringbuffer.c:73-111 | the law is kept by oversized, wrapping and exactly filling writes |
| SerialRx.NothingLostIff | components/serial_manager/fsl_component_serial_manager.c:868-895 | a received message is stored whole exactly when it fits the free space |
| SerialRx.OneMore | components/serial_manager/fsl_component_serial_manager.c:872-886 | storing a byte into a full ring drops the oldest, and only then |
| SerialRx.FlatCopy | components/serial_manager/fsl_component_serial_manager.c:889-895 | the copy that does not wrap appends or, when it overtakes the tail, leaves just the end of the message |
| SerialRx.Receiver.StoreWrapping | components/serial_manager/fsl_component_serial_manager.c:868-887 | the wrapping copy leaves the newest bytes, and reports overflow exactly when bytes were dropped |
| SerialRx.Receiver.StoreFlat | components/serial_manager/fsl_component_serial_manager.c:888-895 | the other copy leaves what its position and length determine |
| SerialRx.Receiver.RxCallback | components/serial_manager/fsl_component_serial_manager.c:825-995 | stream law and empty ring under a pending read are kept; ring, reader's buffer, completion and announcement are determined; bytes are lost exactly if the message exceeds the free space |
| SerialRx.Receiver.Read | components/serial_manager/fsl_component_serial_manager.c:1115-1239 | a read takes the oldest bytes in order, completes exactly when it got all it wanted, stays pending otherwise, and is refused while one is pending |
| SerialRx.Receiver.CancelReading | components/serial_manager/fsl_component_serial_manager.c:1889-1924 | a pending non-blocking read ends with the count it reached, a blocking one refuses, and the stream is not touched |
| SerialRx.RunIsIntactIff | components/serial_manager/fsl_component_serial_manager.c:864-973 | from any state with an intact stream, the stream stays intact through a run exactly when every message fits |
| SerialRx.StreamIsIntactIff | components/serial_manager/fsl_component_serial_manager.c:864-973 | over any interleaving of messages, reads and cancels, delivered bytes and held bytes are the received stream, in order, exactly when every message met enough free space |
| SerialTx.WriteKeepsInv | components/serial_manager/fsl_component_serial_manager.c:1044-1096 | accepting a write keeps queues, transfers, port and order of the history in agreement |
| SerialTx.PortDoneKeepsInv | components/serial_manager/fsl_component_serial_manager.c:754-820 | so does the end of a transmission, which starts the next write before this one is filed |
| SerialTx.CancelKeepsInv | components/serial_manager/fsl_component_serial_manager.c:1758-1887 | so does a cancel, which is an abort for the write being sent, a move behind the completed ones for one that waits, and nothing otherwise |
| SerialTx.TaskKeepsInv | components/serial_manager/fsl_component_serial_manager.c:643-673 | so does a round of the task |
| SerialTx.FlushCallsAll | components/serial_manager/fsl_component_serial_manager.c:648-664 | a round calls back all completed writes, in the order of their queue |
| SerialTransmitter.StepKeepsInv | components/serial_manager/fsl_component_serial_manager.c:593-820 | every step of any interleaving keeps the invariant |
| SerialTransmitter.RunsAnswerOnceInOrder | components/serial_manager/fsl_component_serial_manager.c:648-820 | over every run a handle has a buffer exactly while it is once in exactly one queue; each accepted non-blocking write has been called back once or waits in one queue; callbacks of unmoved writes come in order of acceptance; the port gets each write at most once, in order, and is busy exactly while writes run |
| SerialTransmitter.OnlyCancelMoves | components/serial_manager/fsl_component_serial_manager.c:1778-1818 | only canceling a waiting write takes a write, and just that one, out of the order |
| SerialTransmitter.RoundCallsBackIff | components/serial_manager/fsl_component_serial_manager.c:643-673 | with writes due, a round calls all of them back and takes one post if the completions posted are no multiple of 256, and does nothing otherwise |
| SerialTransmitter.RoundPassesOverIff | components/serial_manager/fsl_component_serial_manager.c:643-820 | a write that was sent and then canceled n times is due, and a round passes it over exactly when n + 1 is a multiple of 256 |
| SerialTransmitter.DueAreAccepted | components/serial_manager/fsl_component_serial_manager.c:650-661 | every callback names a non-blocking write that was accepted, with its handle and data |
| SerialReports.StepAccepts | components/serial_manager/fsl_component_serial_manager.c:1020-1113 | a write on a handle in no queue is accepted with its data and its mode, and no other step accepts anything |
| SerialReports.AcceptedAreAsked | components/serial_manager/fsl_component_serial_manager.c:1020-1113 | over every run the accepted writes are those asked for on free handles, in order, and only the non-blocking of them are called back or due |
| SerialReports.BlockingIsReleased | components/serial_manager/fsl_component_serial_manager.c:794-818 | when the port is done with a blocking write its handle is free and in no queue, nothing is posted, and it is never called back |
| SerialReports.PortDoneFiles | components/serial_manager/fsl_component_serial_manager.c:754-820 | the write the port is done with gets its length and status, and is completed or, if blocking, released; nothing else changes |
| SerialReports.CallbacksAreHonest | components/serial_manager/fsl_component_serial_manager.c:650-661 | over every run each callback, made or due, names the handle and the data of its write; one canceled in a queue reports length 0 and canceled, any other the length of its data, and canceled exactly if it was canceled while being sent |
| SerialReports.Execute | components/serial_manager/fsl_component_serial_manager.c:643-1113 | the manager goes through every run of the model and makes just its callbacks |
| SerialTransmitter.Transmitter.PortWrite | components/serial_manager/fsl_component_serial_port_uart.c:239-274 | the port refuses a start while it is busy |
| SerialTransmitter.Transmitter.StartWriting | components/serial_manager/fsl_component_serial_manager.c:287-363 | the first running write goes to the port if it is free |
| SerialTransmitter.Transmitter.TxCallback | components/serial_manager/fsl_component_serial_manager.c:754-820 | the first running write leaves its queue, the next one starts, and this one is completed or, if blocking, released |
| SerialTransmitter.Transmitter.PortDone | components/serial_manager/fsl_component_serial_port_uart.c:152-165 | an idle or an aborted port reports what it was sending, and nothing if it was not busy |
| SerialTransmitter.Transmitter.Write | components/serial_manager/fsl_component_serial_manager.c:1020-1113 | a handle in use is busy; else the write is queued and starts if none was running |
| SerialTransmitter.Transmitter.CancelWriting | components/serial_manager/fsl_component_serial_manager.c:1758-1887 | a pending blocking write is an error; else the state is that of the cancel it amounts to |
| SerialTransmitter.Transmitter.Task | components/serial_manager/fsl_component_serial_manager.c:643-673 | if completions were posted, the callbacks made are those due, in order, with buffers released |
| ListModel.AddTailRefines | components/lists/fsl_component_generic_list.c:123-151 | the list spells its sequence with the element appended, or is unchanged when full; all other lists stay |
| ListModel.AddHeadRefines | components/lists/fsl_component_generic_list.c:169-198 | the same in front |
| ListModel.RemoveHeadRefines | components/lists/fsl_component_generic_list.c:215-246 | the list spells its sequence without the first element |
| ListModel.RemoveRefines | components/lists/fsl_component_generic_list.c:327-384 | the list spells its sequence without the element, wherever it stood; head, tail, size and owner agree |
| ListModel.AddPrevRefines | components/lists/fsl_component_generic_list.c:404-460 | the list spells its sequence with the new element right before the member, or is unchanged when full |
| ListModel.StepRefines | components/lists/fsl_component_generic_list.c:123-460 | every operation does to what all lists spell what it should do to sequences |
| ListModel.FullIff | components/lists/fsl_component_generic_list.c:31-57 | a list refuses elements exactly when it has its maximum, unless that is 0 |
| ListModel.NextIsSuccessor | components/lists/fsl_component_generic_list.c:283-286 | the next element of a member is its successor in the sequence |
| ListModel.QueriesAnswer | components/lists/fsl_component_generic_list.c:102-479 | the queries answer the first element or NULL, the number of elements, and the list an element is in, NULL for none |
| ListModel.NextAnswers | components/lists/fsl_component_generic_list.c:283-286 | the next element is the one behind it, NULL at the end |
| ListModel.RemoveHeadAnswers | components/lists/fsl_component_generic_list.c:215-246 | taking the head answers the element that leaves, NULL for an empty list |
| ListModel.AddAnswers | components/lists/fsl_component_generic_list.c:123-198 | adding at an end is refused exactly when the list has its nonzero maximum, and then changes nothing |
| ListModel.RemoveAnswers | components/lists/fsl_component_generic_list.c:327-384 | removing a member succeeds and leaves the rest of its list, while an orphan is reported and nothing changes |
| ListModel.AddPrevAnswers | components/lists/fsl_component_generic_list.c:404-460 | an element goes right in front of the member unless the list is full; in front of an orphan it is refused |
| GenericList.LightLists.FindPrevious | components/lists/fsl_component_generic_list.c:338-355 | the walk from the head finds the element in front of a member |
| GenericList.LightLists.RemoveElement | components/lists/fsl_component_generic_list.c:327-384 | the light build's removal is that of the model; an element without a list is an orphan |
| GenericList.LightLists.AddPrevElement | components/lists/fsl_component_generic_list.c:404-460 | the light build's insertion is that of the model |
| GenericList.LightLists.Apply | components/lists/fsl_component_generic_list.c:123-476 | every operation of the light build has the memory, the sequences and the result of the model |
| GenericList.LinkedLists.RemoveElement | components/lists/fsl_component_generic_list.c:357-377 | the doubly linked removal makes the same memory, and previous links that are again the inverse |
| GenericList.LinkedLists.AddPrevElement | components/lists/fsl_component_generic_list.c:440-454 | the doubly linked insertion makes the same memory, and previous links that are again the inverse |
| GenericList.LinkedLists.Apply | components/lists/fsl_component_generic_list.c:123-476 | every operation of the doubly linked build has the memory, the sequences and the result of the model, and keeps previous links inverse to next links |
| GenericList.LinkedLists.GetPrev | components/lists/fsl_component_generic_list.c:303-310 | the previous element of a member is its predecessor in the sequence |
| GenericList.RunBoth | components/lists/fsl_component_generic_list.c:123-476 | any operations that insert only orphans give equal results in the two builds and leave equal labels, next links and owners |
| TaskModel.InsertKeepsSorted | components/osa/fsl_os_abstraction_bm.c:488-520 | linking a task at its slot keeps the list sorted, with each task once |
| TaskModel.PerformKeepsInv | components/osa/fsl_os_abstraction_bm.c:405-556 | create, set-priority and destroy keep the list sorted by priority with exactly the tasks it should have, each once |
| TaskModel.PerformSetsFields | components/osa/fsl_os_abstraction_bm.c:405-535 | every act sets priority, entry function and ready flag of its own task only, as the act says: a created task is ready |
| TaskModel.PlacedBeforeEquals | components/osa/fsl_os_abstraction_bm.c:405-535 | a created or re-prioritised task stands behind the tasks of smaller numbers and in front of all others, which keep their order |
| TaskModel.DestroyedIsOut | components/osa/fsl_os_abstraction_bm.c:547-556 | destroying takes just the task out of the list |
| TaskModel.DestroyUndoesCreate | components/osa/fsl_os_abstraction_bm.c:468-556 | a task created and destroyed again leaves the list as it was |
| TaskModel.StartedIsMostUrgent | components/osa/fsl_os_abstraction_bm.c:1510-1533 | a task is started only if it is ready and no ready task is ahead of it or has a smaller priority number |
| TaskModel.FinishedIffNoneReady | components/osa/fsl_os_abstraction_bm.c:1515-1532 | the scheduler returns exactly when no task in the list is ready |
| TaskModel.RunIsItsActs | components/osa/fsl_os_abstraction_bm.c:1515-1528 | a run does what the entry functions of the started tasks do, one after the other, and nothing else |
| TaskModel.EachRunsOnce | components/osa/fsl_os_abstraction_bm.c:1510-1533 | if each ready task has an entry function that just clears its flag, the run starts each ready task once, in list order, and returns |
| TaskModel.NoEntryNeverFinishes | components/osa/fsl_os_abstraction_bm.c:1520-1527 | a ready task without an entry function and with no ready one ahead is started for ever, and nothing else is |
| OsaTasks.Osa.FindSlot | components/osa/fsl_os_abstraction_bm.c:488-520 | the walk finds the first task whose priority number is not smaller, and the one in front of it |
| OsaTasks.Osa.LinkBefore | components/osa/fsl_os_abstraction_bm.c:496-507 | writing head, next, owner and size by hand inserts the task in front of the other |
| OsaTasks.Osa.TaskCreate | components/osa/fsl_os_abstraction_bm.c:468-535 | the task is ready and stands in front of the tasks of its own priority, behind those of smaller numbers |
| OsaTasks.Osa.TaskSetPriority | components/osa/fsl_os_abstraction_bm.c:405-455 | the task is taken out, if it was in, and goes to the slot of its new priority; without another task in the list the last one visited is read through NULL, and the list is empty |
| OsaTasks.Osa.TaskDestroy | components/osa/fsl_os_abstraction_bm.c:547-556 | the list has lost just that task |
| OsaTasks.Osa.FindReady | components/osa/fsl_os_abstraction_bm.c:1515-1531 | the walk finds the first ready task, and leaves the last task it visited as the current one |
| OsaTasks.Osa.RunReady | components/osa/fsl_os_abstraction_bm.c:1510-1533 | the loop starts the tasks, in the order and with the outcome, that always running the first ready one gives; each is the current task while it runs, and at the end the last in the list is |
| OsaTasks.Osa.TaskShouldYield | components/osa/fsl_os_abstraction_bm.c:1541-1559 | it reports exactly whether some task in the list is ready |
| QueueModel.OffsetsWalkTheSlotsIff | components/osa/fsl_os_abstraction_bm.c:1254-1259 | the 16-bit offsets visit the slots in turn exactly when these take at most 2^16 bytes, or there is one whose size is a multiple of 2^16 |
| QueueModel.SlotWritten | components/osa/fsl_os_abstraction_bm.c:1247-1251 | overwriting the bytes of a slot replaces that message and no other |
| QueueModel.PutAppends | components/osa/fsl_os_abstraction_bm.c:1247-1260 | the slot behind the queued messages appends |
| QueueModel.GetRemoves | components/osa/fsl_os_abstraction_bm.c:1311-1327 | the slot at the head is the oldest message |
| QueueModel.FittingQueueIsFifo | components/osa/fsl_os_abstraction_bm.c:1227-1336 | in every run of puts and gets on a queue whose offsets fit, the messages delivered are the first ones accepted, whole and in order, and no copy leaves the slots |
| QueueModel.OneSlotOverruns | components/osa/fsl_os_abstraction_bm.c:1254-1259 | with one slot above 2^16 bytes, the second message is written beyond the queue's memory |
| QueueModel.SecondOverwritesFirst | components/osa/fsl_os_abstraction_bm.c:1254-1259 | with several messages of 2^16 bytes or more, a second message put before the first is taken makes the first come out wrong |
| QueueModel.WaitingOverwrites | components/osa/fsl_os_abstraction_bm.c:1254-1259 | with smaller messages that take more than 2^16 bytes in all, the second message out of some run is not the second one in |
| QueueModel.QueueIsFifoIff | components/osa/fsl_os_abstraction_bm.c:1205-1336 | for every message size and count, all runs are first-in first-out exactly when the offsets fit |
| OsaMsgQueue.MsgQueue.constructor | components/osa/fsl_os_abstraction_bm.c:1205-1217 | a new queue is empty, with its maximum kept in 16 bits; the waiting task is what the memory holds |
| OsaMsgQueue.MsgQueue.Put | components/osa/fsl_os_abstraction_bm.c:1227-1272 | the queue and its history make the step of the model: a message is stored whole at the tail, or refused exactly when the queue is full or destroyed; the waiting task is made ready exactly on success |
| OsaMsgQueue.MsgQueue.Get | components/osa/fsl_os_abstraction_bm.c:1286-1379 | the bytes at the head come out and the queue makes the step of the model; on an empty queue a caller that does not wait times out and another one is idle and not ready, which is written through NULL when no task runs; the caller becomes the waiting task |
| OsaMsgQueue.Execute | components/osa/fsl_os_abstraction_bm.c:1205-1336 | creating a queue and any puts and gets go through the run of the model, and so are first-in first-out when the offsets fit |
| OsaMsgQueue.MsgQueue.Destroy | components/osa/fsl_os_abstraction_bm.c:1392-1402 | a destroyed queue has no buffer and no waiting task |
| OsaMemAlign.MaskClears | components/osa/fsl_os_abstraction_bm.c:48-49 | masking with the complement of the low bits takes off the remainder by the power of two |
| OsaMemAlign.AlignUpIsCeiling | components/osa/fsl_os_abstraction_bm.c:48-49 | the 32-bit rounding gives the least multiple not below, or 0 when its sum wraps |
| OsaMemAlign.RefusedIffTooBig | components/osa/fsl_os_abstraction_bm.c:230-242 | the two checks refuse exactly the requests whose unbounded size does not fit a word |
| OsaMemAlign.BlockHolds | components/osa/fsl_os_abstraction_bm.c:257-261 | the address is aligned, and control block and rounded-up payload lie inside the raw block |
| OsaMemAlign.RecoversIff | components/osa/fsl_os_abstraction_bm.c:261-281 | the 16-bit offset leads back to the raw block of every request exactly for alignments up to 2^15 |
| OsaMemAlign.AlignedMemory.AllocateAlign | components/osa/fsl_os_abstraction_bm.c:225-264 | NULL exactly without a raw block or when the size would wrap; else an aligned address, with every live control block intact |
| OsaMemAlign.AlignedMemory.FreeAlign | components/osa/fsl_os_abstraction_bm.c:266-284 | without the magic number nothing is freed; a live address gives back its raw block when the offset fits 16 bits |
| ButtonModel.OneEventPerGesture | components/button/fsl_component_button.c:134-294 | over every run, each gesture of a button has led to exactly one event, except one still in progress |
| ButtonModel.SinglePress | components/button/fsl_component_button.c:182-206 | a press of 200 or more is short, from 500 on long; a briefer one leaves the gesture open; other buttons do anything meanwhile |
| ButtonModel.ClickAtNinthTick | components/button/fsl_component_button.c:263-288 | a brief press and no other of the same button is one click, at the ninth tick and not before, whatever other buttons do |
| ButtonModel.SecondPress | components/button/fsl_component_button.c:168-181 | a second press in time gives a double click if it is brief, else an error, and nothing more, whatever other buttons do |
| ButtonModel.ClicksAscend | components/button/fsl_component_button.c:263-288 | the clicks of a tick are of buttons whose time for a second press is over, each once, in the order of the buttons |
| ButtonModel.ExpiredIsClicked | components/button/fsl_component_button.c:263-288 | and of all of them |
| ButtonModel.RepeatedLevelDoesNothing | components/button/fsl_component_button.c:142-166 | an interrupt that finds a button at the level it had changes nothing |
| ButtonModel.TimeStandsStillIff | components/button/fsl_component_button.c:209-294 | time passes exactly while some gesture is in progress |
| Button.ButtonList.constructor | components/button/fsl_component_button.c:341-396 | all buttons idle, with a start time beyond the double-click time |
| Button.ButtonList.Event | components/button/fsl_component_button.c:134-207 | an edge changes state, count of buttons in use and timer, and calls back, as the button's gesture says |
| Button.ButtonList.Release | components/button/fsl_component_button.c:164-206 | the comparison of counters decides the event that the times call for |
| Button.ButtonList.Task | components/button/fsl_component_button.c:209-261 | the one pending message is called back, the count drops by one, and the timer stops with the last button |
| Button.ButtonList.TimerEvent | components/button/fsl_component_button.c:263-294 | a tick calls back one click for every button that waited too long, and no other |
| Button.ButtonList.ApplyAll | components/button/fsl_component_button.c:113-294 | any interleaving of interrupts calls back what the gestures call for, with the count of buttons in use equal to the number of gestures in progress |

## Left out

- Memory manager: registering and unregistering further areas, whose ids go stale when a middle area is unregistered (fsl_component_mem_manager_light.c:434-442, 654); statistics, guards, tracking, benchmarks, bank reinitialisation, reallocation, and the fixed-block pool that is compiled out.
- Memory manager: headers are records at their addresses; stale headers inside buffers and writes of the application over them are not modelled.
- MemManagerLight.Area.Allocate: when a wrapped request puts two headers at one address, the second overwrites the first and the headers no longer spell out the block sequence; the model says when this happens and does not follow it further.
- HeapRuns.RunsAreSafe: runs only ask for sizes the 32-bit test is right about in every state; each other request is covered in each state by `HeapEdges.HonouredIff`.
- MemManagerLight.Area.Free: a merge that passes the head of the free list ends there; what the source reads through NULL is not modelled.
- Memory manager: signed 32-bit overflow is taken to wrap, which C leaves undefined.
- CRC: the hardware adapters, and lengths beyond the data.
- Serial manager, receive side: flow control, the notification task, builds with an operating system (where a completed non-blocking read keeps its buffer until the task runs), and reads or cancels made from inside a callback.
- Serial manager, transmit side: the waiting loop of blocking writes, low-power callbacks, ports other than the UART, and steps between queueing a write and starting it. Builds without an operating system run the task inside the completion, which is one of the interleavings modelled.
- Serial manager: opening and closing handles; handles are opened before the run.
- Button: initialisation after the first press, which resets the time for all buttons; de-initialisation, low power, the builds with a task, and wrap-around of the time.
- Button: more than 255 buttons, for which the 8-bit count of those in use wraps.
- OSA tasks: interrupts during a walk of the list, and the waking of tasks by semaphores and events, which appear as signals; a task's entry function is given by what it does.
- OsaTasks.Osa.RunReady: a script gives what the entry functions do, one element for each start; when it runs out the result says that the work is unfinished, since the source's loop need not end.
- OsaMsgQueue.MsgQueue.Get: timeouts by a timer, which the default configuration does not have; and like Put it stops at a copy that would leave the queue's slots.
- OsaTasks.Osa.TaskSetPriority: a task alone in the list is followed up to the read through NULL, and scheduler runs leave such a call out.
- OsaMemAlign.AlignedMemory.AllocateAlign: the raw allocator is a parameter, assumed to return blocks that lie in memory and apart from live ones; writes of the application are not modelled.
- Generic list: objects are numbers in a memory of links, not Dafny references; inserting an element that is in a list already, the duplicate check, which is off by default, and the free places of an unlimited list.
- Log: formatting, the filter by level and the other backends.
- LED, flash, audio, I2C, GPIO and other thin adapters: they forward to drivers that are not part of this model.
