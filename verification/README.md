# QBMan software portal: the ring protocols

A QBMan software portal is memory shared between a processor and a hardware queue manager. The driver keeps a few
registers per portal (`struct qbman_swp`) and relies on wrapping indices, valid bits whose polarity flips every lap,
cached credit and a counting token. This project models those protocols with the hardware as an agent of its own and
proves what they are for.

How it is modelled

- Each side of the portal is a class `Swp` with the fields of `struct qbman_swp` it uses (`Eqcr`, `Dequeue`,
  `Management`) and a class `Bus` that owns the shared memory and plays hardware. Every access the driver makes to
  shared memory ends (or, for polls, begins) with `Bus.Run`, which takes any number of hardware steps. A method is
  therefore verified for every interleaving of its individual word stores with hardware.
- Ghost counts and logs never wrap: what was issued, what hardware took, what software has seen. The wrapping
  registers are tied to them in `Valid`.
- Words and bytes are naturals; the C operators `&`, `|`, `^` are the functions of module `Bits`, and 8-bit and 64-bit
  truncation is written out where the driver truncates. Host memory is little-endian wherever a byte of a word is
  addressed (the driver's own assumption for the verb byte); the 64-bit copy loops are modelled for both byte orders.
- In direct mode hardware sees a line when it is flushed. With `early` set it may see a dirty line at any earlier
  moment too, as after a cache eviction. Memory is otherwise sequentially consistent.

What is assumed of hardware

- It takes enqueue commands in ring order: in direct mode while the valid bit at its position has the polarity of
  its lap, in memory-backed mode while the producer index register differs from its own position.
- The consumer index its register shows may be out of date, but never goes back and is never ahead of the truth.
- At power-on the enqueue indices it shows are equal, the valid bit of EQCR_PI is the polarity it expects next and,
  in direct mode, no line of the ring carries the polarity it waits for there. It expects polarity 0x80 of the first
  volatile dequeue. From version 4.1 on DQRR comes up without valid bits of first-lap polarity.
- It touches a DQRR slot only after that slot was consumed. It stores the body of a response in any number of steps
  and the verb, with polarity 0x80 in the first lap, last; its producer index covers stored verbs only.
- It takes a volatile dequeue from the four words of the command alone: to storage if RLS is set, else into DQRR. It
  sends one last (volatile and expired) response for each dequeue into DQRR and none for one to storage.
- The DQRR producer index counts modulo more than the ring size. `Dequeue.PiModulusExact` shows this is exactly what
  the start-up workaround needs.
- For a volatile dequeue to storage it writes the token of the command to the cells the command names, to each at
  most once, and to no other cell.
- It reads a management command only after the trigger. It may store its answer in any order and number of steps but
  word 0 last, and echoes the verb byte with its valid bit there; before that it may blank word 0 to zero or a lone
  valid bit. At power-on word 0 of the response memory does not look like an answer of polarity 0x80.
- All portals of a run use one access mode (the dispatch pointers are global, driver/qbman_portal.c:325-339).

Where the code does less than one might expect, the model keeps the code and states the exact condition

- A DCA flag in a direct-mode batch is stored after the verb. If the line becomes visible in between, hardware
  executes what was asked exactly when the frame is tear-free (`Eqcr.VisibleBeforeDca`, `Eqcr.DcaTears`), and for
  every frame that is not there is a run in which it executes something else (`EqcrRuns.TornRun`).
- The initial credit drops bit 0 of both indices (`RingIndex.InitialCreditExact`).
- `qbman_eq_desc_set_no_orp` and `_set_orp` are documented to replace an earlier action but only OR their code in
  (`EqDesc.Desc.SetNoOrp`, `EqDesc.Desc.SetOrp`).
- A portal loses its busy token exactly when `qbman_check_new_result`, or `qbman_result_has_new_result` on another
  portal, returns 1 for the cell it waits for (`Ledger.LostExactly`). Every later pull of it is refused
  (`Ledger.LostStays`) until it is set up anew, or until another dequeue reuses the cell, hardware writes it and
  `qbman_result_has_new_result` on the lost portal takes that result (`Ledger.LostUntil`, `PortalRuns.Reuse`). A portal
  that is not lost can always be recovered (`PortalTable.Driver.Recover`).
- -EBUSY from a concurrent pull can be spurious (`BusyToken.RefusedExactly`, `BusyToken.SpuriousBusy`).
- A poll right after a volatile dequeue to storage whose token byte was not zeroed reports completion at once.
  `qbman_check_command_complete` then gives this portal's busy token back exactly if the byte was this portal's own,
  `qbman_result_has_new_result` whatever it was (`PortalTable.Driver.PullThenCheck`,
  `PortalTable.Driver.PullThenHasNew`).
- `qbman_check_command_complete` dereferences NULL exactly when the portal of the token in the cell is gone
  (`PortalTable.Driver.CheckCommandComplete`).
- The WRED arithmetic on int overflows exactly above exponent 23 (`Wred.DecodeFitsInt`, `Wred.OverflowWord`).
- The batch enqueues are documented to return -EBUSY when the ring is full (include/fsl_qbman_portal.h:1007); the
  code returns 0, and so does the model.

## Model

| member | source | states |
|---|---|---|
| EqcrRuns.Run | driver/qbman_portal.c:777-1147 | for any script of single and batch enqueues and any interleaving, the commands hardware executed are a prefix of those the calls accepted: none torn, lost, duplicated or reordered |
| EqcrRuns.RunAndDrain | driver/qbman_portal.c:777-1147 | hardware left to itself afterwards executes exactly the accepted commands |
| EqcrRuns.Call | driver/qbman_portal.c:868-875 | each call accepts as many commands as the consumer index leaves room for, no fewer and no more, with the index reread from the register exactly when no credit was left; while the register shows room, a request for anything is accepted at least in part |
| EqcrRuns.CreditReturns | driver/qbman_portal.c:787-795 | after any run, once hardware has taken and shown everything, a request for anything is accepted at least in part, and when credit is used up the next one gets up to a whole ring |
| EqcrRuns.BatchIsSingles | driver/qbman_portal.c:892-941 | a batch leaves registers and every ring line as the same commands enqueued singly with the same consumer-index reading |
| EqcrRuns.ExhaustedIsBusy | driver/qbman_portal.c:787-795 | when a refreshed batch used all credit, one more enqueue with that reading is refused and changes nothing |
| EqcrRuns.TornRun | driver/qbman_portal.c:922-928 | where lines may be visible before their flush, every frame that is not tear-free has a run in which the commands hardware executed are no prefix of the accepted ones |
| EqcrRuns.LapBitFixesPolarity | driver/qbman_portal.c:807-811 | the polarity software writes is a fixed function of the lap bit of its producer index in every reachable state |
| Eqcr.Swp.constructor | driver/qbman_portal.c:324-356 | after set-up of a portal in power-on state the credit is N and the registers describe the ring |
| Eqcr.Swp.Refresh | driver/qbman_portal.c:787-795 | the register is read exactly when no credit is left; the 8-bit cyclic difference of two consumer indices is the number of slots freed in between, so credit equals the free part of the ring software knows |
| Eqcr.Swp.EnqueueRingMode | driver/qbman_portal.c:777-859 | -EBUSY exactly when the consumer index, reread if no credit was left, shows N commands outstanding; otherwise the command is issued and published and credit, index and polarity stay consistent |
| Eqcr.Swp.FillBodies | driver/qbman_portal.c:906-914 | the first loop writes only slots hardware may not read, and leaves every verb word alone |
| Eqcr.Swp.WriteVerbs | driver/qbman_portal.c:918-933 | the second loop issues the commands one by one, each complete when its verb appears |
| Eqcr.Swp.PublishBatch | driver/qbman_portal.c:935-942 | the flushes, or the producer-index write, make the whole batch visible and nothing unfinished |
| Eqcr.Swp.EnqueueMultiple | driver/qbman_portal.c:877-1011 | the batch accepts the smaller of the request and the credit after refresh, in order, with each frame's DCA flag, and leaves the ring as that many single enqueues |
| Eqcr.Swp.EnqueueMultipleDesc | driver/qbman_portal.c:1022-1147 | the same with one descriptor per frame |
| Eqcr.PutAllAt | driver/qbman_portal.c:906-942 | up to N commands land each in its own slot with its lap's polarity, and no other slot changes |
| Eqcr.DcaThenValid | driver/qbman_portal.c:922-928 | storing the DCA byte after the verb gives the same word as enqueueing a descriptor that already holds it |
| Eqcr.FlagBit | driver/qbman_portal.c:923 | a frame asks for DCA if and only if there are flags and bit 31 of its own is set |
| Eqcr.FlagChangesOneByte | driver/qbman_portal.c:922-928 | the DCA byte of a frame with bit 31 set is enable and the low four bits of its flags, the rest of its command is its descriptor and frame, and any other frame's command is its descriptor and frame exactly |
| Eqcr.VisibleBeforeDca | driver/qbman_portal.c:922-928 | hardware seeing a line between the two stores executes the command asked for if and only if the DCA byte was already right |
| Eqcr.DcaTears | driver/qbman_portal.c:922-928 | a concrete flagged frame for which it was not |
| EqcrBus.Bus.Run | driver/qbman_portal.c:787-801 | any hardware steps keep the ring consistent and execute only issued commands, in order |
| EqcrBus.Bus.ReadyIsComplete | driver/qbman_portal.c:802-806 | hardware's test at its position never fires on a stale or half-written line |
| EqcrBus.Bus.PublishedIsReady | driver/qbman_portal.c:805-806 | it fires whenever a published command is left |
| EqcrBus.Bus.BacklogExact | driver/qbman_portal.c:845-853 | between calls the backlog read off slot polarities (direct) or off the producer index (memory-backed) is the number of commands not yet taken |
| EqcrBus.Bus.StoreBody | driver/qbman_portal.c:798-801 | a body word may be stored into a slot ahead of the window at any time, whatever hardware does |
| EqcrBus.Bus.Flush | driver/qbman_sys.h:285-293 | flushing a finished line publishes exactly the next command |
| RingIndex.CycDiffExact | driver/qbman_portal.h:52-59 | for 2N <= 128 the cyclic difference of indices modulo 2N is the true distance up to N |
| RingIndex.IndexStep | driver/qbman_portal.c:807-811 | increment, mask and conditional flip move the index and its polarity from entry p to entry p + 1 |
| RingIndex.BatchStep | driver/qbman_portal.c:929-931 | the same for the unmasked copy of the index the batch loops run on |
| RingIndex.PiWordDecodes | driver/qbman_portal.c:852-853 | the producer-index word decodes uniquely into read trigger, index and polarity |
| RingIndex.PiCiMask | driver/qbman_portal.c:341-342 | for N a power of two the mask loop yields 2N - 1 |
| RingIndex.InitialCreditExact | driver/qbman_portal.c:353-356 | the initial credit is the number of free slots if and only if the two indices have the same parity |
| EqDesc.Desc.ValidBitClear | driver/qbman_portal.c:554-656 | after any sequence of setters the descriptor leaves the valid bit to the enqueue |
| EqDesc.Desc.WordsDecode | include/fsl_qbman_portal.h:819-838 | after any setters the fields of the descriptor can be read back from its eight 32-bit words |
| EqDesc.Desc.SetNoOrp | driver/qbman_portal.c:559-566 | the action takes effect if and only if no other action code was set before; everything else in the verb is kept |
| EqDesc.Desc.SetOrp | driver/qbman_portal.c:568-583 | the same for order restoration; the sequence number keeps its number and NESN flag and gets the incomplete flag asked for |
| EqDesc.Desc.SetOrpHole | driver/qbman_portal.c:585-594 | replaces an earlier action; the sequence number keeps its low fourteen bits and loses both flags |
| EqDesc.Desc.SetOrpNesn | driver/qbman_portal.c:596-605 | replaces an earlier action; the sequence number keeps its low fourteen bits and is marked NESN only |
| EqDesc.Desc.SetDca | driver/qbman_portal.c:643-656 | enabling leaves the low six bits of the index, the park bit asked for and the enable bit; disabling clears the enable bit only |
| EqDesc.Desc.TearFreeDca | driver/qbman_portal.c:643-656 | a flagged frame is tear-free if and only if the descriptor already asks for the DCA of that index without park |
| EqDesc.Desc.SetQd | driver/qbman_portal.c:626-633 | the target replaces an earlier target |
| DequeueRuns.Run | driver/qbman_portal.c:1396-1633 | for any script of polls, consumptions in any order and pulls, from any point of an earlier run: the responses returned are exactly hardware's production sequence, each once; every accepted pull is given back at most once; once an awaited result was swallowed by qbman_check_new_result none is given back and every pull is refused |
| DequeueRuns.Recover | driver/qbman_portal.c:1405-1633 | unless an awaited result was swallowed, from any point of any run hardware finishing its command and the user consuming and polling bring the token back |
| DequeueBus.Bus.Run | driver/qbman_portal.c:1449-1459 | whatever hardware does word by word, slots held or waiting are untouched, a slot shows its new polarity only on a whole response, and no other storage cell is written |
| Dequeue.Swp.constructor | driver/qbman_portal.c:285-296 | set-up before version 4.1 accepts any stale ring contents; afterwards the ring must be clean |
| Dequeue.Swp.DqrrNextDirect | driver/qbman_portal.c:1405-1480 | a response is found if and only if hardware has produced more than software has seen, it is the next one produced, and responses still held are untouched |
| Dequeue.LooksFinalExact | driver/qbman_portal.c:1472-1477 | the driver's masks recognise a last response if and only if it is a frame dequeue with both the volatile and the expired bit |
| Dequeue.Swp.Poll | driver/qbman_portal.c:1482-1523 | the same for the polarity test alone |
| Dequeue.Swp.Workaround | driver/qbman_portal.c:1415-1447 | with valid bits not trusted, emptiness is decided correctly, and the workaround ends only when every slot has been written |
| Dequeue.Swp.PolarityExact | driver/qbman_portal.c:1458-1459 | the polarity at the cursor matches if and only if hardware has written that slot this lap |
| Dequeue.PiTestExact | driver/qbman_portal.c:1423-1428 | in the first lap the producer index differs from the cursor if and only if a response waits |
| Dequeue.PiModulusExact | driver/qbman_portal.c:1367 | that test is right in all reachable states if and only if the register counts modulo more than N |
| Dequeue.IdxOfSlot | driver/qbman_portal.c:110 | the index computed from a response's address is its slot, in both ring layouts |
| Dequeue.Swp.Consume | driver/qbman_portal.c:1525-1536 | any held response may be consumed at any time, freeing its slot only |
| Dequeue.Swp.Pull | driver/qbman_portal.c:1281-1356 | a pull is accepted if and only if every earlier one was given back, and then hardware receives exactly the command the descriptor asks for; a refusal changes nothing, whatever descriptor it named; the command polarity alternates over accepted pulls |
| Dequeue.Swp.SendCommand | driver/qbman_portal.c:1302-1316 | the command has the descriptor's verb, frame count, source and address, the portal's index plus one as token and the polarity hardware expects, and leaves one dequeue outstanding |
| PullDesc.UnderstoodAsMeant | driver/qbman_portal.c:1303-1309 | with the valid bit of any polarity merged in, the four words mean the fields of the descriptor |
| Dequeue.Swp.HasNewResult | driver/qbman_portal.c:1542-1566 | returns 1 if and only if the byte was set or hardware set it by then; a poll of the awaited cell succeeds exactly once hardware has written its first result and gives the token back once; polls of other cells never do |
| Dequeue.Swp.CheckCommandComplete | driver/qbman_portal.c:1620-1632 | once the portal is looked up, the same without clearing the token byte |
| Dequeue.Swp.CheckNewResult | driver/qbman_portal.c:1598-1611 | returns 1 if and only if the byte was set or hardware set it by then; harmless for the busy token unless it returns 1 for the awaited cell; then the token is lost |
| Dequeue.Swp.LostIsBusy | driver/qbman_portal.c:1297-1300 | while it is lost the counter is 0, no response that could give it back is outstanding, and hardware owes the cell nothing for this portal |
| PortalRuns.Run | driver/qbman_portal.c:1281-1633 | for any script over several portals (set-up, finish, pulls to ring or storage, polls, hardware completions) the code refines the ideal driver: busy is 1 if and only if nothing is awaited on the portal and else 0, no two portals wait for one cell, and a token is lost exactly where the ideal says so |
| PortalRuns.Step | driver/qbman_portal.c:1281-1633 | each call changes what is awaited as the ideal says; a pull is granted if and only if nothing is awaited, a last response is found only if one is, and any of the three polls finds an awaited cell if and only if hardware has written it since that pull |
| PortalRuns.Reuse | driver/qbman_portal.c:1542-1566 | a lost token comes back when another portal reuses the cell and the lost portal's poll takes its result; then the other portal is lost |
| Ledger.LostExactly | driver/qbman_portal.c:1542-1611 | a portal becomes lost if and only if qbman_check_new_result, or qbman_result_has_new_result on another portal, returns 1 for its awaited, written cell |
| Ledger.LostUntil | driver/qbman_portal.c:1542-1566 | it stops being lost if and only if it is set up or finished, or its own qbman_result_has_new_result returns 1 for the cell |
| Ledger.LostStays | driver/qbman_portal.c:1297-1300 | in any run without such a call it stays lost and all its pulls are refused |
| PortalTable.Driver.Recover | driver/qbman_portal.c:1405-1633 | a portal that is not lost gets its token back when hardware finishes and the user polls, in any state of the others, which are unaffected |
| PortalTable.Driver.CellExact | driver/qbman_portal.c:1619 | a cell that a live portal waits for holds 0 until hardware writes it and then that portal's index plus one, so the look-up finds the issuer; a lost portal is never found through its cell |
| PortalTable.Driver.CheckCommandComplete | driver/qbman_portal.c:1613-1633 | completion settles the portal waiting for the cell and no other; NULL is dereferenced if and only if the token's portal is gone |
| PortalTable.Driver.HasNew | driver/qbman_portal.c:1542-1566 | if it returns 1 it gives back the polled portal's token if its note names the cell, and any other portal waiting for the cell is lost |
| PortalTable.Driver.CheckNew | driver/qbman_portal.c:1598-1611 | if it returns 1 a portal waiting for the cell is lost; no other is affected |
| PortalTable.Driver.Pull | driver/qbman_portal.c:1297-1303 | accepted if and only if nothing is awaited on that portal; the portal then waits for the ring or for the first cell, and no other portal is affected |
| PortalTable.Driver.Next | driver/qbman_portal.c:1472-1477 | a last response is found only if a dequeue to the ring is awaited, and settles that portal alone |
| PortalTable.Driver.Init | driver/qbman_portal.c:358 | the new portal awaits nothing and the others are unaffected, even if hardware still owes results to an earlier portal of the same index |
| PortalTable.Driver.Finish | driver/qbman_portal.c:362-368 | the other portals are unaffected, whatever hardware still owes to the finished one |
| PortalTable.Driver.PullThenCheck | driver/qbman_portal.c:1613-1633 | qbman_check_command_complete right after an accepted pull, with the command still in hardware's hands, reports completion if and only if the token byte was not zeroed, and gives this portal's token back if and only if that byte was its own |
| PortalTable.Driver.PullThenHasNew | driver/qbman_portal.c:1542-1566 | qbman_result_has_new_result there gives this portal's token back if and only if the byte was not zeroed, whosever it was |
| BusyToken.Conservation | driver/qbman_portal.c:1297-1300 | in every run of any number of threads, busy + holders + pending undos is 1 and at most one holds VDQCR |
| BusyToken.Mutex | driver/qbman_portal.c:1336-1339 | no two threads are ever writing VDQCR, nor one while a command is out |
| BusyToken.RefusedExactly | driver/qbman_portal.c:1297-1300 | an attempt is refused if and only if the token is held or a refusal is not undone yet |
| BusyToken.QuiescentIsFree | driver/qbman_portal.c:1298 | once no thread is inside pull and no command is out, every refusal has been undone |
| BusyToken.SpuriousBusy | driver/qbman_portal.c:1297-1300 | a run in which a thread is refused although nobody holds the token |
| BusyToken.BusyInRange | include/compat.h:186-208 | in every reachable state the counter stays between minus the number of threads and 1 |
| Management.WithoutValidExact | driver/qbman_portal.c:511 | the driver's second test fails if and only if the response word holds nothing but a valid bit |
| Management.Swp.AnswerTestExact | driver/qbman_portal.c:504-511 | the driver's two tests on the response word pass if and only if the latest command is answered and not yet collected |
| Management.Swp.Submit | driver/qbman_portal.c:479-484 | in memory-backed mode hardware is triggered only on a complete command: the caller's words with the verb and the current polarity in place of byte 0 |
| Management.Swp.CopyCommand | driver/qbman_sys.h:268-274 | the word-by-word copy leaves exactly the command |
| Management.Swp.CopyResponse | driver/qbman_sys.h:301-323 | words read first to last while hardware stores them are all of one answer whenever word 0 has the expected polarity |
| Management.Swp.Result | driver/qbman_portal.c:502-514 | in memory-backed mode a non-NULL result is hardware's whole answer to the latest command, never torn or stale, and the polarity toggles exactly then |
| Management.Swp.Complete | driver/qbman_portal.h:146-158 | the command is submitted once; the response memory is polled at most 1001 times, and NULL comes only after all of them |
| Wred.Monotone | driver/qbman_debug.c:526-529 | codes in lexicographic order have strictly increasing thresholds |
| Wred.DpDecompose | driver/qbman_debug.c:513-535 | both thresholds fit, the subtraction does not wrap if and only if the step code is not above the maximum's, and the percentage is pn/64 rounded down |
| Wred.DecodeFitsInt | driver/qbman_debug.c:526-529 | a value fits an int if and only if its exponent is at most 23 |
| Wred.OverflowWord | driver/qbman_debug.c:518-529 | a word whose maximum threshold is 2^31 |
| Wred.ExtractRecomposes | driver/qbman_debug.c:518-522 | the five extracted fields recompose to the 32-bit word |
| Wred.DecodeEncode | driver/qbman_debug.c:526-529 | every threshold has a code that rounds it down, exactly below 512 and by less than one part in 256 above |
| Wred.EncodeFits | driver/qbman_debug.c:526-529 | a threshold below 2^(k+8) has a code of exponent at most k, so 23 suffices below 2^31 |
| Wred.EncodeDecode | driver/qbman_debug.c:526-529 | distinct codes have distinct values, and coding finds them back |
| Wred.BestFromBelow | driver/qbman_debug.c:526-529 | no other code comes closer from below |
| Release.U64ToLe32 | driver/qbman_sys.h:143-164 | exactly 2*cnt words are written, each value's halves exchanged on a big-endian host |
| Release.U64FromLe32 | driver/qbman_sys.h:166-182 | the same in the other direction |
| Release.LeastSignificantFirst | driver/qbman_sys.h:139-141 | every value lies least significant word first whatever the host's byte order |
| Release.RoundTrip | driver/qbman_portal.c:1957 | buffers released and acquired back are unchanged |
| Release.LastSettings | driver/qbman_portal.c:1804-1821 | of the pool and of the interrupt setting the last one made counts, whatever the other setter does in between |
| Release.Release | driver/qbman_portal.c:1827-1889 | the release word decodes to the last pool and interrupt setting made, the buffer count and the polarity of RAR, and the buffers follow; -EBUSY exactly if bit 8 of RAR is clear, and then nothing is written |

## Left out

- Array-mode enqueue (EQAR): hardware chooses the slot, so software keeps no ring state there.
- Management.Swp.Submit: direct mode, in which the command is published by a cache flush instead of the trigger.
- Management.Swp.Result: direct mode, which needs an assumption about two alternating response registers that the driver does not state.
- Runs that go on after a management command timed out: the polarity is not toggled, so answers and commands no longer match.
- `qbman_swp_acquire` beyond its copy loop: argument checks and decoding around one management command.
- Queries and FQ, channel and CDAN commands: thin wrappers over the management command.
- `qbman_thresh_to_value` and `qbman_bp_thresh_to_value`: one shift each.
- `qbman_swp_push_set`, interrupt registers and result accessors: one-line reads and writes.
- The pull descriptor's setters: `PullDesc.Consistent` says what `set_storage` leaves, RLS together with the address.
- Cache maintenance, barriers, MMIO, allocation, debug printing and statistics: no effect on the protocol state modelled.
- Dequeue.Swp.Pull: keeps the invariant if an accepted pull names storage whose first cell is zeroed and to no cell of which hardware has anything left to write, as the header asks; `PortalTable.Driver.PullThenCheck` and `PullThenHasNew` show what happens otherwise.
- PortalTable.Driver.Pull: asks of an accepted pull the same, and that hardware owes the storage nothing for any other portal, past or present, and no other portal's unpolled result lies there; the cell of a lost portal may be reused.
- PortalTable.Driver.Init: calls on a portal whose table entry was overwritten are not modelled, only what hardware still owes it.
- Eqcr.Swp.EnqueueMultiple: with lines visible before their flush, only tear-free flags are allowed, by `Eqcr.VisibleBeforeDca` and `EqcrRuns.TornRun` exactly those that are safe.
- Wred.DpDecompose: exponents above 23, for which by `Wred.DecodeFitsInt` the int arithmetic of the source overflows.
