# ECU platform modules: a Dafny model with proofs

The project models the checked packet codec (`crc16`, `crc32`, `packetBuilder`, `packetParser`), the
two allocators of fixed slots (`swTimer`, `memoryPool`) and the byte-level `ringBuffer` of the ECU
platform, and proves what these modules promise their callers.

How the files fit together:

- `Common.dfy`, `BitStrings.dfy`, `ByteStrings.dfy`, `Words.dfy`: options, the byte copy, bit strings,
  buffers and machine words read as bit strings.
- `Lfsr.dfy`, `Gf2Polynomials.dfy`, `LfsrDivision.dfy`: a linear-feedback shift register of any width
  over bit strings, polynomials over the two-element field (sets of exponents with the convolution
  product), and the proofs that the register divides and that an error pattern vanishes in it exactly
  when the generator divides the pattern. Both checksums are instances of this register.
- `Divisors.dfy`, `LfsrOrder.dfy`, `WordPowers.dfy`: prime factors, the powers of x modulo any generator
  with the test for their order, and the same arithmetic on machine words.
- `Crc16.dfy`, `Crc32.dfy`: the C loops over `bv16` and `bv32`, the contexts and the one-shot calls.
  `Crc16Register.dfy` and `Crc32Reflection.dfy` refine them to the register; `Crc16Division.dfy`,
  `Crc16Order.dfy`, `Crc16Detection.dfy`, `Crc32Order.dfy` and `Crc32Detection.dfy` hold the consequences.
- `Protocol.dfy`, `PacketBuilder.dfy`, `PacketParser.dfy`, `PacketCodec.dfy`, `PacketErrors.dfy`: the
  frame format, the two in-place algorithms, their inversion, and which transmission errors are caught.
- `RingLayout.dfy` (the circular layout as a pure view) and `RingBuffer.dfy` (the object).
- `PoolModel.dfy` (the pool as a value, all runs) and `MemoryPool.dfy` (the object over its arrays).
- `TimerModel.dfy` (slots, calls, one tick), `TimerCalls.dfy` (what each call and each visit does, field by
  field), `TimerFiring.dfy`, `TimerStopping.dfy`, `TimerHandles.dfy`, `TimerRuns.dfy` (all runs) and
  `SwTimer.dfy` (the object over its slot array).

Every object that the source updates in place is a class; each of its methods is proved against a
function on values, and the laws over all runs are proved about those functions. A timer callback is a
finite script of API calls. A tick takes one script per slot, and a slot fires at most once in a tick, so
quantifying over all scripts covers every client, whatever it decides while the tick is running.

Where the source and its documentation differ, the model follows the source:

- docs/packetParser-design.md:159-162 names `bitUtilsInsertBits` and `crc16Verify`; the parser uses
  `readUint16BE` and `crc16Compute`.
- include/memoryPool.h:151-152 says the pool object need not be zeroed before Init; the source reads
  `initialized` first (src/memoryPool.c:91), so an object that happens to hold true there is refused.
  `MemoryPool.MemoryPool.Init` states this for an object with any contents.
- include/swTimer.h:43 says a timer with timeout N expires after exactly N calls of the tick. That is
  proved for starts between ticks. A start made by the callback of an earlier slot already counts the
  running tick; `TimerFiring.FiringLawFromCallback` gives the exact rule.
- The handle index is one byte while the capacity is unbounded (src/swTimer.c:84, src/swTimer.c:163).
  The handles of live timers are distinct in every run if and only if the capacity is at most 256;
  `TimerHandles.HandleLaw` says what a handle does in a pool of any size.
- The free-space query of the ring buffer overflows `size_t` for capacities above half its range;
  `RingLayout.AvailableSpaceExact` gives the exact condition, `RingLayout.AvailableSpaceOverflows` a
  reachable state that is misreported.

## Model

| member | source | states |
|---|---|---|
| Crc16.ProcessByte | src/crc16.c:75-94 | the byte loop is eight clocks of the register after the byte is added to its high half |
| Crc16.Context.Update | src/crc16.c:133-155 | an update appends the bytes to those fed so far; a null buffer with bytes to read is an error and feeds nothing |
| Crc16.Compute | src/crc16.c:204-227 | fails only for a null buffer with bytes to read, otherwise returns the checksum of the buffer |
| Crc16.Verify | src/crc16.c:241-257 | success exactly when the received checksum is the one of the buffer |
| Crc16Register.AccumulatedRun | src/crc16.c:75-152 | the byte-wise loop over a buffer is the 16-stage shift register run over the message bits, highest bit first |
| Crc16Register.BigEndianBits | src/packetBuilder.c:41-45 | the register read as bits is its big-endian byte pair |
| LfsrDivision.RunDivides | src/crc16.c:80-91 | for any generator: dividend = quotient times generator plus register, with the register below the generator's degree |
| LfsrDivision.DivisionUnique | src/crc16.c:80-91 | quotient and remainder of such a division are unique |
| Crc16Division.ValueIsRemainder | src/crc16.c:204-227 | for every message the checksum is the remainder of x^16 M(x) + 0xFFFF x^(8n) by x^16 + x^12 + x^5 + 1, and nothing else of degree below 16 is |
| LfsrDivision.VanishesExactly | src/crc16.c:80-91 | for any generator with a constant term, a zero register ends at zero if and only if the generator divides what was fed |
| LfsrOrder.PowerSum | src/crc16.c:80-91 | for any generator, multiplying the residues of x^m and x^n gives the residue of x^(m+n): the fast form agrees with clocking the register m + n times |
| LfsrOrder.OrderTest | src/crc16.c:80-91 | for any generator, a product of primes is the order of x when it is a period and no cofactor of one of the primes is |
| LfsrOrder.TwoOnesVanish | src/crc16.c:80-91 | for any generator, two set bits at distance d leave a zero register at zero if and only if x^d is 1 |
| Crc16Order.OrderOfX | src/crc16.c:80-91 | n clocks take 1 back to 1 if and only if 32767 divides n |
| Crc16Detection.ResidueZero | src/packetParser.c:102-119 | two bytes behind a buffer leave a zero register exactly when they are its big-endian checksum |
| Crc16Detection.ErrorShows | src/crc16.c:75-94 | an error pattern changes a zero residue if and only if the generator does not divide the pattern |
| Crc16Detection.BurstDetected | src/crc16.c:80-91 | no nonempty pattern within 16 consecutive bits is missed, at any message length |
| Crc16Detection.TwoBitsMissed | src/crc16.c:80-91 | a two-bit error is missed if and only if its distance is a multiple of 32767 |
| Crc16Detection.FewBitsDetected | src/crc16.c:80-91 | every pattern of one to three bits within 32767 bits is noticed |
| Crc16Detection.ValueParity | src/crc16.c:77-91 | the bit parity of a checksum is the bit parity of its message |
| Crc32.ProcessByte | src/crc32.c:102-120 | the byte loop is eight right-shifting clocks after the byte is added |
| Crc32.Context.Update | src/crc32.c:160-182 | an update appends the bytes to those fed so far, for any split into calls |
| Crc32.Context.GetResult | src/crc32.c:199-218 | the result is the finished checksum of all bytes fed, and the context is unchanged by reading it |
| Crc32.Verify | src/crc32.c:272-288 | null-pointer error, mismatch or success exactly by whether the received checksum is the one of the buffer |
| Crc32Reflection.ValueIsTextbook | src/crc32.c:102-120 | the reflected loop equals the left-shifting CRC with polynomial 0x04C11DB7 on bit-reversed bytes, bit-reversed and inverted at the end |
| Crc32Reflection.VerdictExactly | src/crc32.c:272-288 | verification succeeds exactly for the textbook checksum and reports a mismatch for every other received value |
| Crc32Reflection.AccumulatedRun | src/crc32.c:102-179 | the loop is the 32-stage shift register run over the message bits, lowest bit of each byte first |
| Crc32Detection.ValueIsAffine | src/crc32.c:102-120 | the exclusive or of three checksums of equally long messages is the checksum of their exclusive or |
| Crc32Order.OrderOfX | src/crc32.c:102-120 | n right-shifting steps take the residue 1 back to itself if and only if 2^32 - 1 divides n |
| Crc32Detection.MismatchExactly | src/crc32.c:272-288 | verification of an equally long message reports a mismatch if and only if the generator does not divide the difference of the two messages |
| Crc32Detection.BurstMismatch | src/crc32.c:272-288 | verification reports a mismatch for every message that differs from the original, and only within 32 consecutive bits, at any length |
| Crc32Detection.TwoFlipsMissed | src/crc32.c:272-288 | two flipped bits are missed if and only if their distance is a multiple of 2^32 - 1 |
| Crc32Detection.FewFlipsMismatch | src/crc32.c:272-288 | one or two flipped bits in a message of less than 2^32 bits are reported |
| Crc32Detection.ValueIsRemainder | src/crc32.c:234-257 | the checksum without its final inversion is the unique remainder by the CRC-32 polynomial of section 8 of RFC 1952 |
| Protocol.ReadUnsigned | src/packetParser.c:35-38 | the word assembled from two bytes is 256 times the first plus the second, as numbers |
| Protocol.FrameLayout | src/packetBuilder.c:99-131 | a frame byte by byte: 0xAA, 0x55, length, command, payload, checksum of what lies between header and checksum, both numbers big-endian |
| PacketBuilder.BuildPacket | src/packetBuilder.c:77-136 | the status by the source's order of checks; a failed build changes no byte and no length; a successful one writes exactly the frame and nothing behind it; the CRC failure is unreachable |
| PacketBuilder.WriteChecksum | src/packetBuilder.c:118-131 | the checksum of the bytes behind the header is written big-endian at the end and nothing else changes |
| PacketParser.EnvelopeLaw | src/packetParser.c:75-100 | which error the checks before the checksum give, on the buffer's bytes, in their order |
| PacketParser.CheckEnvelope | src/packetParser.c:75-100 | the status of those checks on the array's bytes: length below 7, header other than 0xAA 0x55, length outside 1 to 256 or beyond the buffer |
| PacketParser.Parse | src/packetParser.c:68-128 | the status on the array's bytes in the order of the checks, with a CRC mismatch exactly when only the checksum fails; the fields of the decoded packet; the result object is untouched on every error; the CRC-computation failure is unreachable |
| PacketParser.GetPacketSize | src/packetParser.c:147-157 | 6 plus the big-endian number in the length field |
| PacketCodec.FrameDecodes | src/packetParser.c:70-127 | a built frame followed by any bytes parses back to its command and payload |
| PacketCodec.AcceptedIsFrame | src/packetParser.c:70-127 | rebuilding from the fields of an accepted packet reproduces its bytes exactly |
| PacketCodec.AcceptsExactlyFrames | src/packetParser.c:70-127 | a buffer is accepted as a message if and only if it starts with that message's frame |
| PacketCodec.RejectionLaw | src/packetParser.c:75-119 | which error a buffer gets, on its bytes alone: the first failing check decides, and past the length checks it is a CRC mismatch if and only if no frame is a prefix of the buffer |
| PacketCodec.FramesPrefixFree | src/packetBuilder.c:99-133 | no frame is a proper prefix of another |
| PacketCodec.FrameEnvelope | src/packetParser.c:147-157 | the announced size of a built frame is its length, whatever follows it |
| PacketCodec.UnframeStream | src/packetParser.c:147-157 | repeated peeking and parsing of a stream recovers a list of messages if and only if the stream is the concatenation of their frames |
| PacketErrors.Verdict | src/packetParser.c:102-119 | a disturbance behind the length field is reported as a CRC mismatch if and only if x^16 + x^12 + x^5 + 1 does not divide the polynomial of the flipped bits, and is accepted otherwise |
| PacketErrors.BurstRejected | src/packetParser.c:102-119 | flipping any nonempty set of bits within 16 consecutive ones of command, payload and CRC is reported |
| PacketErrors.OddFlipsRejected | src/packetParser.c:113-119 | flipping an odd number of those bits is reported |
| PacketErrors.FewFlipsRejected | src/packetParser.c:89-119 | flipping one, two or three of those bits is reported, for every payload length |
| RingLayout.FullAndEmpty | src/ringBuffer.c:273-293 | the index comparisons for full and empty hold exactly at capacity - 1 and at 0 stored elements |
| RingLayout.PushAppends | src/ringBuffer.c:99-104 | overwriting the head slot and advancing head appends one element and keeps all others, across wraps |
| RingLayout.PopRemoves | src/ringBuffer.c:135-138 | the tail slot holds the oldest element and advancing tail removes just that one |
| RingLayout.SpaceAhead | src/ringBuffer.c:321 | the exact result when tail is ahead of head, also where the sum overflows |
| RingLayout.AvailableSpaceExact | src/ringBuffer.c:321 | the free-space arithmetic modulo the size_t range is right if and only if its sum does not overflow on a non-wrapped difference |
| RingLayout.AvailableSpaceCorrect | src/ringBuffer.c:321 | for capacities up to half the size_t range, free space and size add up to the usable capacity |
| RingLayout.IndicesReached | src/ringBuffer.c:99-138 | every pair of indices in range is reached from Init by pushes and pops |
| RingLayout.AvailableSpaceOverflows | src/ringBuffer.c:321 | a reachable state that the query misreports: largest 32-bit capacity, head 0, tail 3 |
| RingBuffer.RingBuffer.Init | src/ringBuffer.c:45-70 | on an object with any contents: the three rejections leave it unchanged; success empties the queue |
| RingBuffer.RingBuffer.Push | src/ringBuffer.c:87-107 | appends the element bytes, or fails exactly at capacity - 1 elements and changes nothing; popped elements followed by stored ones stay equal to the accepted ones |
| RingBuffer.RingBuffer.Pop | src/ringBuffer.c:123-141 | hands out and removes the oldest element, or fails exactly when empty and changes nothing |
| RingBuffer.RingBuffer.Peek | src/ringBuffer.c:157-174 | hands out the element the next Pop would and changes nothing in the buffer |
| RingBuffer.RingBuffer.Clear | src/ringBuffer.c:187-198 | empties the queue |
| RingBuffer.RingBuffer.GetSize | src/ringBuffer.c:213-230 | the number of stored elements |
| RingBuffer.RingBuffer.IsFull | src/ringBuffer.c:266-276 | full exactly at capacity - 1 stored elements |
| RingBuffer.RingBuffer.GetAvailableSpace | src/ringBuffer.c:314-324 | space plus size equals the usable capacity, with the exact overflow condition; without a buffer the result is only below the capacity |
| PoolModel.SizeGuard | src/memoryPool.c:107-110 | the division guard accepts exactly the sizes whose product fits size_t |
| PoolModel.IndexBelowCount | src/memoryPool.c:267-272 | the index range check of Release can never fail, and the address is that block's address |
| PoolModel.ReleaseAcceptsExactly | src/memoryPool.c:231-277 | over all integer addresses, Release accepts an address if and only if it is nonzero and outstanding and the storage end is representable |
| PoolModel.AcquireKeeps | src/memoryPool.c:170-174 | acquiring keeps the free stack a duplicate-free list of exactly the free indices |
| PoolModel.ReleaseKeeps | src/memoryPool.c:274-281 | releasing keeps it too, and a rejected release changes nothing |
| PoolModel.FreeAndUsed | src/memoryPool.c:348 | stacked and used blocks add up to the pool |
| PoolModel.AcquireCounts | src/memoryPool.c:165-176 | acquiring fails exactly when all blocks are used; otherwise it hands out a block that was not outstanding and no other becomes so |
| PoolModel.ReleaseCounts | src/memoryPool.c:279-281 | an accepted release finds room on the free stack and takes exactly its address out of the outstanding ones |
| PoolModel.BlocksDisjoint | src/memoryPool.c:174 | outstanding blocks lie inside the storage and do not overlap |
| PoolModel.RunCounts | src/memoryPool.c:149-284 | in every run used blocks are successful acquires minus successful releases |
| PoolModel.LastInFirstOut | src/memoryPool.c:170-281 | releasing any distinct outstanding blocks and acquiring as many returns them in reverse order and restores the pool |
| PoolModel.FreshAcquires | src/memoryPool.c:112-174 | a fresh pool hands out its blocks from the last one down |
| MemoryPool.MemoryPool.Init | src/memoryPool.c:81-133 | on an object with any contents: the status by the source's order of checks, errors change nothing, success gives the pool with every block free |
| MemoryPool.MemoryPool.Acquire | src/memoryPool.c:149-177 | the in-place pop equals the model's, errors leave all bookkeeping unchanged |
| MemoryPool.MemoryPool.Release | src/memoryPool.c:211-284 | success exactly for an outstanding block of a storage whose end is representable; the in-place push equals the model's, errors leave all bookkeeping unchanged |
| MemoryPool.MemoryPool.GetUsedCount | src/memoryPool.c:333-351 | acquires minus releases, which is the number of used blocks |
| TimerCalls.CreateLaw | src/swTimer.c:134-171 | the error of the first failing check; otherwise the lowest unused slot gets exactly the given mode, callback and context, stopped, and its handle is returned; no other slot changes |
| TimerCalls.StartLaw | src/swTimer.c:195-215 | the error of the first failing check, changing nothing; otherwise the timer runs with the given ticks and keeps mode, callback, context and generation; no other slot changes |
| TimerCalls.StopLaw | src/swTimer.c:236-250 | an accepted handle's timer is stopped with nothing remaining and otherwise kept, any other handle is refused and changes nothing |
| TimerCalls.DeleteLaw | src/swTimer.c:274-292 | an accepted handle's slot is cleared and its generation advanced, any other handle is refused and changes nothing |
| TimerCalls.VisitLaw | src/swTimer.c:335-355 | a tick's own visit changes at most state and remaining ticks of a slot, and how |
| TimerModel.TickKeeps | src/swTimer.c:331-367 | for every client, at every callback entry and at return each running slot has 1 <= remaining <= timeout and a callback, every other slot has remaining 0, and the fired indices strictly ascend |
| TimerModel.TickWritesOnce | src/swTimer.c:337-364 | a tick writes a slot only in its own visit and before its callback: outside that only callbacks change it |
| TimerModel.SelfStopIsFinal | src/swTimer.c:246-289 | a timer stopped or deleted by its own callback stays so unless a later callback touches it |
| TimerFiring.FiringLaw | src/swTimer.c:195-215 | a one-shot runs until it calls back on exactly the n-th tick after its start, and never again; a periodic timer has called back floor(k/n) times after k ticks with n - k mod n remaining, whatever is done to other timers; every call is the registered callback with the timer's handle and context |
| TimerFiring.StartInCallback | src/swTimer.c:331-367 | after a start from the callback of slot i the running tick counts for slots above i and not for i and below |
| TimerFiring.FiringLawFromCallback | src/swTimer.c:331-367 | started from the callback of slot i, a timer makes its call over the rest of that tick and k further ticks as often as in k + 1 ticks if its slot is above i and as in k ticks otherwise |
| TimerFiring.TickAdvances | src/swTimer.c:331-367 | visiting a range of slots advances a started timer by one tick, and makes its call if due, exactly when its slot is in the range |
| TimerStopping.StopSilences | src/swTimer.c:236-250 | after a stop, over every run that neither starts nor deletes the timer, its callback is never called and its slot stays stopped and otherwise unchanged |
| TimerStopping.StopInCallback | src/swTimer.c:236-250 | a stop from any callback silences the timer for the rest of that tick and every such run |
| TimerStopping.SelfStopSilences | src/swTimer.c:236-364 | a timer whose own callback stops it is called exactly once in that tick and never again, periodic or not |
| TimerStopping.CreatedTimerFires | src/swTimer.c:134-367 | from the arguments of Create: no call while the timer waits; once started, exactly the calls of that callback with that handle and context that the given mode prescribes |
| TimerHandles.HandleLaw | src/swTimer.c:150-167 | in a pool of any size, a handle is accepted if and only if the slot its one-byte index names is live and has as many deletes modulo 256 as the handle's own slot had at the issue |
| TimerHandles.StaleHandleLaw | src/swTimer.c:41-51 | with at most 256 slots an issued handle is accepted if and only if its slot is live and the deletes since issue are a multiple of 256 |
| TimerHandles.UndeletedAndStale | src/swTimer.c:284-289 | the handle of an undeleted timer always works; after a delete it is rejected for the next 255 |
| TimerHandles.LiveSlotIssued | src/swTimer.c:150-167 | the timer in a live slot has the handle that Create returned for it |
| TimerHandles.LiveTimerHolds | src/swTimer.c:156-161 | in every run a timer not deleted since keeps exactly the mode, callback and context given to its Create |
| TimerHandles.AcceptedExactlyCurrent | src/swTimer.c:41-51 | with at most 256 slots, the handles accepted are exactly those that Create returned for timers not deleted since |
| TimerHandles.DistinctHandlesExactly | src/swTimer.c:163 | in every run the handles that Create returned for timers not deleted since are distinct if and only if the capacity is at most 256 |
| TimerHandles.TickIsRun | src/swTimer.c:331-367 | every tick with its callbacks is an interleaving of slot visits and calls, so the handle laws cover it |
| TimerRuns.RunIsReplay | src/swTimer.c:322-370 | every run of calls and ticks is such an interleaving |
| TimerRuns.FiringIssued | src/swTimer.c:344-361 | in every run from Init each callback invocation belongs to a timer not deleted since, and calls the function with the context and handle of that timer's Create |
| SwTimer.TimerPool.Init | src/swTimer.c:75-104 | on an object with any contents: every slot of the array becomes blank, nothing behind the capacity changes, rejections change nothing |
| SwTimer.TimerPool.ValidateHandle | src/swTimer.c:31-55 | success exactly for an index in range whose slot is live with the handle's generation |
| SwTimer.TimerPool.Create | src/swTimer.c:134-172 | the error of the first failing check and nothing changed, or the lowest unused slot registered with exactly the arguments and its handle returned |
| SwTimer.TimerPool.Start | src/swTimer.c:195-215 | the status by the order of checks; on success the timer runs with the given ticks and everything else is kept, otherwise nothing changes |
| SwTimer.TimerPool.Stop | src/swTimer.c:236-250 | the status; on success the timer is stopped with nothing remaining and everything else is kept, otherwise nothing changes |
| SwTimer.TimerPool.Delete | src/swTimer.c:274-292 | the status; on success the slot is cleared with its generation advanced modulo 256 and everything else is kept, otherwise nothing changes |
| SwTimer.TimerPool.Tick | src/swTimer.c:322-370 | the in-place scan with callbacks equals the model's tick for every client, including the order, handles and contexts of the callbacks |

## Left out

- The `logger` module: its substance is libc formatting and preprocessor elimination.
- The `bitUtils` module: loop-free operations on one word; no modelled module calls it.
- Null pointers to contexts, pools, out-parameters and the raw packet buffer: each is a single early return; null data buffers, storages and payloads are modelled.
- `softwareTimerGetState`, `softwareTimerGetRemainingTicks`, `memoryPoolGetCapacity`, `memoryPoolGetBlockSize`: they read one field; the laws state the fields themselves.
- Nested ticks and `softwareTimerInit` from inside a callback: outside what include/swTimer.h:295-297 allows a callback to do.
- Concurrent or interrupt access to one object: the source leaves synchronisation to the caller.
- Overlapping caller regions and alignment: distinct arrays and integer addresses are assumed, and uintptr_t is assumed at least as wide as size_t.
- Errors in the length field itself: the checked region then changes, and the code promises no detection.
- Integer widths that cannot matter: payload lengths, timeouts and counters are natural numbers, since the code neither adds to nor wraps them; size_t and uintptr_t limits appear where the source computes with them.
- RingBuffer.RingBuffer.GetAvailableSpace: the source tests neither the buffer nor the capacity, so on a zeroed object that was never initialized it divides by zero (src/ringBuffer.c:316-321); the model requires a capacity above 0.
- Function boundaries: building, parsing, push, pop, acquire, release and tick are one function each in the source; the model moves parts of them into helper methods, in the same order.
- TimerFiring.FiringLaw: a run that starts the timer with a positive timeout, stops or deletes it through its own handle is excluded, since the count then begins anew with `Start`.
