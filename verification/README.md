# Verified models of the Galois runtime

Galois is a runtime for parallel and distributed graph programs; it carries its own copy of the
LLVM support library. These Dafny modules model the parts of it whose correctness rests on an
argument rather than on inspection, and prove that argument for all inputs, all interleavings and
all numbers of threads, hosts, words or buckets.

**Barriers.** `DisseminationBarrier`, `McsBarrier` and `TopoBarrier` are transition systems with one
atomic access per step. Flags and counters are recycled for ever by parity and sense and are never
reset; the invariants say what each of them means at every moment. `HostFence` is the barrier across
hosts, built on tagged messages, whose 15-bit phase is recycled as well.

**Messaging.** `Framing`, `SendBuffer` and `ReceiveBuffer` are the buffered network layer: messages
of one tag are framed and batched into chunks, and the byte stream is parsed again on the other side.
`Messaging` puts one directed channel together and lets all its parties interleave, including a
sender that adds while a chunk is being assembled. The transport is first-in first-out per pair of
hosts (non-overtaking order, section 3.5 of MPI 3.1).

**Arithmetic.** `Words`, `Bignum`, `BignumShift` and `BignumDivision` prove the word-array routines
of `APInt` in place on arrays of 64-bit words. `Magic` proves the search for the multiplier that
replaces a division. `FloatSpec` says what a correctly rounded result is (section 4.3 of IEEE
754-2008), without reference to any algorithm; `FloatUnique` shows that this determines the result;
`FloatSigned` says the same of signed numbers and all five modes; `LostFraction`, `FloatExact` and
`ApFloat` prove addition, subtraction, multiplication and division
of `APFloat` against it, with gradual underflow, overflow, signed zeros and status flags.

**Hash tables.** `Probing` holds the theory of triangular probing with tombstones; `SmallPtrSet` and
`StringMap` refine a set and a map. `StringMapRuns` says which programs keep the map's searches ending.

**Allocation.** `OffsetAllocator` is the bump pointer with power-of-two free lists behind per-thread
storage.

**Graphs.** `PathCounts` and `ShortestPaths` define shortest paths as sets of edge sequences and prove
Brandes' recurrence from that; `Brandes` proves the level-by-level program against it for every order
of work within a level, and `BrandesProgress` that it comes to an end. `AsyncBfs` is the label-correcting breadth-first search under any schedule.

**Coordination and text.** `ThreadPool` is the wake-up tree and its reports over any number of
parallel sections, `ExclusiveLocks` the three-phase claiming used on the GPU, `EditDistance` the
two-row dynamic program.

`Powers`, `Arith`, `Reals`, `Sets`, `Sums`, `Measures` and `Options` hold what the models share.

## Where the code departs from what one would expect

- `StringMap` with an initial size of 1, 2 or 4 can fill up with items and tombstones without a
  rehash, after which a search for an absent key does not end (`StringMapRuns.SmallTableFills`); a
  table of one bucket grows to two first.
- `StringMap::clear` sets the tombstone counter to zero but leaves the tombstones in the table.
  Whatever the initial size, later insertions can then use up the last empty bucket without a rehash
  (`StringMapRuns.ClearFills`), and a reused tombstone takes the counter below zero
  (`StringMapRuns.CounterUnderflows`). `StringMapRuns.SearchesEndExactly` says exactly which programs
  are safe: those that never clear and start with 0 or at least 8 buckets.
- A host fence receives nothing but messages with tag 0 and fence messages. A program message with
  another tag that is ahead of a fence message keeps its receiver in the fence for ever
  (`HostFence.FenceStuck`); `HostFence.NoDeadlock` gives the exact condition.
- `edit_distance` is documented to return one more than the maximum whenever the distance exceeds it.
  It does so exactly if every prefix of the other string is farther away than the maximum
  (`EditDistance.EditDistance`); otherwise it returns the distance (`EditDistance.CutOffMissed`).
- A message with an empty payload is never received and blocks its channel for ever
  (`Messaging.EmptyPayloadBlocks`); everything sent can be delivered exactly if no message is empty
  (`Messaging.DeliverableExactly`).
- `APFloat` raises the overflow flag exactly if the result is infinite, not when overflow is rounded
  to the largest finite number; the contracts state the flag as the code sets it.

## Model

| member | source | states |
|---|---|---|
| DisseminationBarrier.LogUp | libgalois/src/Barrier_Dissemination.cpp:28-31 | the number of rounds is the least whose power of two reaches the number of threads |
| DisseminationBarrier.PartnerOfBehind | libgalois/src/Barrier_Dissemination.cpp:65-70 | the partner links of a round are a rotation: every thread is signalled by exactly the thread that many places behind it |
| DisseminationBarrier.InitEstablishes | libgalois/src/Barrier_Dissemination.cpp:55-72 | initialisation establishes the invariant on flags, parities, senses and knowledge |
| DisseminationBarrier.Reinit | libgalois/src/Barrier_Dissemination.cpp:55-72 | the initialising loops produce exactly the initial state |
| DisseminationBarrier.FlagMatches | libgalois/src/Barrier_Dissemination.cpp:85-87 | a spin ends exactly when the partner behind has signalled this episode, although flags are recycled by parity and sense and never reset |
| DisseminationBarrier.PassTeaches | libgalois/src/Barrier_Dissemination.cpp:83-88 | one round doubles what a thread knows: everyone less than twice as far behind has entered the episode |
| DisseminationBarrier.NextPreserves | libgalois/src/Barrier_Dissemination.cpp:79-92 | every single access by any thread preserves the invariant |
| DisseminationBarrier.BarrierSafety | libgalois/src/Barrier_Dissemination.cpp:79-92 | over every run, any number of threads and unboundedly many episodes, nobody leaves an episode before all have entered it |
| DisseminationBarrier.NoFlagLost | libgalois/src/Barrier_Dissemination.cpp:83-88 | no flag is overwritten before the thread that owns it has read it |
| DisseminationBarrier.SpinExact | libgalois/src/Barrier_Dissemination.cpp:85-87 | in every reachable state the flag test agrees with what the partner has done |
| DisseminationBarrier.ProgressDecreases | libgalois/src/Barrier_Dissemination.cpp:79-92 | every access that ends a program point leaves exactly one access less to make in the calls under way |
| DisseminationBarrier.GetsThrough | libgalois/src/Barrier_Dissemination.cpp:79-92 | a schedule without new calls that completes the call of a slowest thread |
| DisseminationBarrier.NoDeadlock | libgalois/src/Barrier_Dissemination.cpp:79-92 | once all threads as far behind as the slowest are inside: some thread can move, a schedule without new calls completes the call of the slowest, and every such schedule is finite and, when it cannot be continued, has completed it |
| DisseminationBarrier.RunOfEpisodes | libgalois/src/Barrier_Dissemination.cpp:79-92 | for every number there is a run in which every thread completes that many calls |
| McsBarrier.Reinit | libgalois/src/Barrier_MCS.cpp:53-69 | the initialising loop produces exactly the initial tree |
| McsBarrier.StepKeepsArrivalEdge | libgalois/src/Barrier_MCS.cpp:78-87 | an arrival flag and the counts of parent and child keep their relation under every step of either |
| McsBarrier.SenseMatches | libgalois/src/Barrier_MCS.cpp:88-97 | a thread is released exactly when its parent in the wake-up tree has completed the episode, although senses alternate |
| McsBarrier.RootArrivesLast | libgalois/src/Barrier_MCS.cpp:76-91 | the root's arrival implies the arrival of the whole tree |
| McsBarrier.RootReleasedFirst | libgalois/src/Barrier_MCS.cpp:92-97 | nobody is released before the root |
| McsBarrier.NextPreserves | libgalois/src/Barrier_MCS.cpp:76-98 | every single access preserves the invariant |
| McsBarrier.BarrierSafety | libgalois/src/Barrier_MCS.cpp:76-98 | over every run nobody leaves an episode before all have entered it |
| McsBarrier.NoArrivalLost | libgalois/src/Barrier_MCS.cpp:82-87 | resetting the child flags before signalling the parent loses no arrival: a child's report is never overwritten |
| McsBarrier.ProductiveDecreases | libgalois/src/Barrier_MCS.cpp:76-98 | every step that is not spinning lowers the work left in the calls under way |
| McsBarrier.GetsThrough | libgalois/src/Barrier_MCS.cpp:76-98 | a schedule without new calls that completes the call of a slowest thread |
| McsBarrier.NoDeadlock | libgalois/src/Barrier_MCS.cpp:76-98 | once all threads as far behind as the slowest are inside: some thread can move, such steps complete the call of the slowest, and any succession of them is finite and ends with it completed |
| McsBarrier.RunOfEpisodes | libgalois/src/Barrier_MCS.cpp:76-98 | for every number there is a run in which every thread completes that many calls |
| TopoBarrier.CountChildren | libgalois/src/Barrier_Topo.cpp:52-65 | the two counting loops count exactly the leaders of the child sockets and the other threads of the socket |
| TopoBarrier.ReportTree | libgalois/src/Barrier_Topo.cpp:52-70 | leaders report up a tree with four children to a socket, all others to their own socket |
| TopoBarrier.Reinit | libgalois/src/Barrier_Topo.cpp:47-75 | initialisation produces exactly the initial state |
| TopoBarrier.StepKeepsCounter | libgalois/src/Barrier_Topo.cpp:90-98 | a socket's counter equals the number of its children still to report, under every step |
| TopoBarrier.ZeroMeansAll | libgalois/src/Barrier_Topo.cpp:90-93 | a counter of zero means that every child has reported |
| TopoBarrier.WrapDistinguishes | libgalois/src/Barrier_Topo.cpp:103-117 | senses that wrap around at 32 bits still distinguish neighbouring episodes |
| TopoBarrier.NextPreserves | libgalois/src/Barrier_Topo.cpp:83-118 | every single access preserves the invariant |
| TopoBarrier.BarrierSafety | libgalois/src/Barrier_Topo.cpp:83-118 | over every run and every socket layout with active leaders, nobody leaves an episode before all have entered it |
| TopoBarrier.NoArrivalLost | libgalois/src/Barrier_Topo.cpp:90-98 | re-arming the counter before reporting to the parent socket loses no arrival |
| TopoBarrier.ProductiveDecreases | libgalois/src/Barrier_Topo.cpp:83-118 | every step that is not spinning lowers the work left in the calls under way |
| TopoBarrier.GetsThrough | libgalois/src/Barrier_Topo.cpp:83-118 | a schedule without new calls that completes the call of a slowest thread |
| TopoBarrier.NoDeadlock | libgalois/src/Barrier_Topo.cpp:83-118 | once all threads as far behind as the slowest are inside: some thread can move, such steps complete the call of the slowest, and any succession of them is finite and ends with it completed |
| TopoBarrier.RunOfEpisodes | libgalois/src/Barrier_Topo.cpp:83-118 | for every number there is a run in which every thread completes that many calls |
| HostFence.PhaseExact | libdist/src/Barrier.cpp:81-85 | among neighbouring phases the recycled tags are told apart exactly |
| HostFence.HeadMatches | libdist/src/NetworkBuffered.cpp:465-489 | the message at the head of a channel carries the tag awaited exactly if it is the awaited fence message |
| HostFence.NextPreserves | libdist/src/Barrier.cpp:52-86 | every step of a fence, of a handler, of a send and of a program receive preserves the invariant |
| HostFence.FenceIsBarrier | libdist/src/Barrier.cpp:60-80 | a host that has left its k-th fence proves that every other host has entered its k-th |
| HostFence.FenceFlushes | libdist/src/Barrier.cpp:69-80 | a host that has completed a fence has taken, and has finished handling, every message a peer sent it before entering that fence |
| HostFence.TagsNeverConfused | libdist/src/Barrier.cpp:81-85 | hosts are never more than one phase apart, so the wrap of the phase never confuses tags |
| HostFence.BlockedForever | libdist/src/Network.cpp:115-129 | a message with a non-zero program tag ahead of the awaited fence message keeps the host in its fence for ever, whatever else happens |
| HostFence.GetsThrough | libdist/src/Barrier.cpp:60-80 | a schedule of fence steps alone that brings a slowest host through its fence |
| HostFence.NoDeadlock | libdist/src/Barrier.cpp:60-80 | when all hosts have entered, a slowest host can complete its fence if and only if every program message still ahead of an awaited fence message has tag 0; the fences' own steps then suffice, and otherwise nothing does while its program is inside the fence |
| HostFence.ReceivingGetsThrough | libdist/src/Barrier.cpp:60-80 | whatever the tags, a continuation in which the program also receives completes the fence of a slowest host |
| HostFence.FenceStuck | libdist/src/Network.cpp:115-129 | a run of two hosts, for every program tag from 32767 on, that ends inside a fence with no step of any fence possible |
| Framing.LengthRoundTrip | libdist/src/NetworkBuffered.cpp:333-338 | decoding the four length bytes gives the length that was encoded |
| Framing.LengthIsUnique | libdist/src/NetworkBuffered.cpp:148-156 | and encoding gives back the bytes that were decoded |
| Framing.FrameIsFound | libdist/src/NetworkBuffered.cpp:162-186 | the front of a stream that begins with a framed message is that message |
| Framing.OtherTagsWait | libdist/src/NetworkBuffered.cpp:80-92 | a message of another tag at the head blocks the receiver of this tag |
| Framing.PartialFrameWaits | libdist/src/NetworkBuffered.cpp:162-171 | a message of which some byte is missing is not returned |
| Framing.WirePrefix | libdist/src/NetworkBuffered.cpp:326-345 | the byte stream determines the messages: two message sequences with a common stream are one a prefix of the other |
| ReceiveBuffer.CopyFrom | libdist/src/NetworkBuffered.cpp:98-102 | the byte loop over one chunk yields the wanted slice of it |
| ReceiveBuffer.RecvBuffer.HasData | libdist/src/NetworkBuffered.cpp:229-229 | the test without the lock is true exactly if the next byte carries the tag, so it never hides a message |
| ReceiveBuffer.RecvBuffer.SizeAtLeast | libdist/src/NetworkBuffered.cpp:80-92 | true exactly if the next bytes all carry the tag and suffice |
| ReceiveBuffer.RecvBuffer.CopyOut | libdist/src/NetworkBuffered.cpp:94-111 | the slow path returns exactly the next bytes of the stream, across chunk boundaries |
| ReceiveBuffer.RecvBuffer.PopVec | libdist/src/NetworkBuffered.cpp:117-132 | the fast path hands over the front chunk exactly if its rest is what is wanted, ending in the same bytes |
| ReceiveBuffer.RecvBuffer.Erase | libdist/src/NetworkBuffered.cpp:134-146 | removes exactly that many bytes from the stream and republishes the head tag |
| ReceiveBuffer.RecvBuffer.GetLenFromFront | libdist/src/NetworkBuffered.cpp:148-159 | the length at the front, or all ones if four bytes of the tag are not there |
| ReceiveBuffer.RecvBuffer.TakePayload | libdist/src/NetworkBuffered.cpp:173-186 | fast and slow path return the same bytes and leave the same stream |
| ReceiveBuffer.RecvBuffer.PopMsg | libdist/src/NetworkBuffered.cpp:162-186 | returns the head message of the tag exactly if a whole one is there, and removes exactly its bytes |
| ReceiveBuffer.RecvBuffer.Add | libdist/src/NetworkBuffered.cpp:206-227 | appends the chunk to the stream |
| SendBuffer.BatchIsMaximal | libdist/src/NetworkBuffered.cpp:306-323 | a chunk takes the longest run of messages of one tag that stays within the integer limit |
| SendBuffer.AddKeeps | libdist/src/NetworkBuffered.cpp:356-367 | adding while a chunk is being assembled leaves the chunk's completion intact |
| SendBuffer.BeginKeeps | libdist/src/NetworkBuffered.cpp:301-324 | deciding on a batch establishes that the messages at the front fill it |
| SendBuffer.AssembleProceeds | libdist/src/NetworkBuffered.cpp:330-345 | the assembling loop is never stuck and ends with exactly the size it decided on |
| SendBuffer.ScanBatch | libdist/src/NetworkBuffered.cpp:306-324 | the scan finds the payload and the length words of the longest batch |
| SendBuffer.AddAccounts | libdist/src/NetworkBuffered.cpp:356-367 | adding keeps the byte counter equal to the payload queued and that of the batch already taken off the queue |
| SendBuffer.FinishAccounts | libdist/src/NetworkBuffered.cpp:346-347 | after a batch the counter is the payload queued again |
| SendBuffer.Buffer.Add | libdist/src/NetworkBuffered.cpp:356-367 | appends the message and adds its bytes to the counter, whatever a batch under way has done |
| SendBuffer.Buffer.Begin | libdist/src/NetworkBuffered.cpp:301-324 | computes the batch under the lock |
| SendBuffer.Buffer.CopyFront | libdist/src/NetworkBuffered.cpp:330-341 | copies the front message behind its length, outside the lock |
| SendBuffer.Buffer.PopFront | libdist/src/NetworkBuffered.cpp:342-344 | removes the front message |
| SendBuffer.Buffer.Finish | libdist/src/NetworkBuffered.cpp:346-353 | hands out the chunk and releases its bytes |
| SendBuffer.Buffer.Assemble | libdist/src/NetworkBuffered.cpp:301-354 | undisturbed, the chunk is the framing of the maximal leading batch, the rest stays queued and the counter is its payload |
| Messaging.StepPreserves | libdist/src/NetworkBuffered.cpp:301-367 | every interleaved step of adding, assembling, carrying, delivering and popping preserves the channel invariant |
| Messaging.Conservation | libdist/src/NetworkIOMPI.cpp:111-183 | received, travelling and queued messages together are exactly the messages sent, in order: nothing is lost, duplicated, reordered or altered |
| Messaging.NumBytesExact | libdist/src/NetworkBuffered.cpp:270-297 | in every reachable channel the byte counter is the payload queued, and during a batch also that already taken off; so the worker passes over an idle queue exactly if no payload is queued |
| Messaging.DeliveryExact | libdist/src/NetworkBuffered.cpp:162-186 | in every reachable channel, a pop with a tag returns the next unreceived message if and only if it has that tag, is not empty and all its bytes have arrived; nothing else is ever returned |
| Messaging.EmptyPayloadBlocks | libdist/src/NetworkBuffered.cpp:165-168 | once the next unreceived message of a reachable channel has an empty payload, no continuation ever receives anything more |
| Messaging.EmptyPayloadReached | libdist/src/NetworkBuffered.cpp:165-168 | a schedule that reaches such a channel |
| Messaging.DeliverableExactly | libdist/src/NetworkBuffered.cpp:162-186 | from every reachable channel some schedule delivers all messages sent so far, in order, if and only if none of them is empty |
| Bignum.TcSet | libllvm/src/APInt.cpp:2405-2413 | the words denote the given value |
| Bignum.TcAssign | libllvm/src/APInt.cpp:2416-2422 | the words are copied |
| Bignum.TcIsZero | libllvm/src/APInt.cpp:2425-2433 | true exactly for the value zero |
| Bignum.TcCompare | libllvm/src/APInt.cpp:2872-2886 | the sign of the result is the order of the values |
| Bignum.TcAdd | libllvm/src/APInt.cpp:2523-2543 | the sum of both values and the carry in equals the result plus the carry out at its weight |
| Bignum.TcSubtract | libllvm/src/APInt.cpp:2546-2566 | the same for the difference and the borrow |
| Bignum.MultiplyWord | libllvm/src/APInt.cpp:2609-2636 | the product of two words by halves, plus a carry, is exact in two words |
| Bignum.TcMultiplyPart | libllvm/src/APInt.cpp:2585-2670 | the destination receives source times multiplier plus carry, or that is added to it, also where it overlaps the source as far as the original allows; the result says exactly whether anything was lost |
| Bignum.TcFullMultiply | libllvm/src/APInt.cpp:2696-2717 | the words denote exactly the product, for all lengths |
| BignumShift.PartMSB | libllvm/src/APInt.cpp:2358-2377 | the binary search finds the highest bit set |
| BignumShift.TcMSB | libllvm/src/APInt.cpp:2470-2484 | the highest bit of the value, or none exactly for zero |
| BignumShift.TcShiftLeft | libllvm/src/APInt.cpp:2774-2803 | multiplies by a power of two, losing exactly what does not fit |
| BignumShift.TcShiftRight | libllvm/src/APInt.cpp:2807-2835 | divides by a power of two, rounding down |
| BignumDivision.TcDivide | libllvm/src/APInt.cpp:2729-2770 | quotient times divisor plus remainder is the dividend and the remainder is smaller than the divisor; division by zero is reported |
| BignumDivision.Reconstruct | libllvm/src/APInt.cpp:2696-2770 | multiplying back and adding the remainder restores the dividend |
| Magic.MultiplierDivides | libllvm/src/APInt.cpp:1546-1588 | a multiplier whose error is small enough divides every dividend exactly |
| Magic.StopExact | libllvm/src/APInt.cpp:1582-1584 | the loop's stopping test is exact for the unbounded quotients |
| Magic.NoWrap | libllvm/src/APInt.cpp:1562-1584 | where the truncated quotient matters it has not wrapped |
| Magic.Round | libllvm/src/APInt.cpp:1562-1582 | one round of the loop doubles the quotients and remainders correctly in truncated arithmetic |
| Magic.Attempt | libllvm/src/APInt.cpp:1562-1584 | one round and its stopping test |
| Magic.Search | libllvm/src/APInt.cpp:1546-1588 | for every width and divisor the loop ends; its multiplier is the quotient of a power of two by the divisor, rounded up, for the first exponent that passes the test; multiplier, shift and add flag divide every dividend exactly |
| LostFractions.TruncationStep | libllvm/src/APFloat.cpp:333-350 | the four-valued summary follows the bits cut off, one at a time |
| LostFractions.TruncationMeans | libllvm/src/APFloat.cpp:333-376 | the summary of a truncation combined with an earlier one describes the whole fraction now lost |
| LostFractions.TruncationExact | libllvm/src/APFloat.cpp:353-362 | truncated significand, fraction and raised exponent denote the same number |
| FloatSpec.FormatsAreValid | libllvm/src/APFloat.cpp:51-53 | the half, single and double formats are instances of the model |
| FloatSpec.TruncatingRoundsDown | libllvm/src/APFloat.cpp:1055-1090 | leaving the significand is rounding toward zero |
| FloatSpec.IncrementRoundsUp | libllvm/src/APFloat.cpp:1157-1180 | incrementing it, with renormalisation or overflow, is rounding away from zero |
| FloatSpec.NearestLow | libllvm/src/APFloat.cpp:1068-1079 | below one half, or at one half with an even significand, truncation is rounding to nearest |
| FloatSpec.NearestHigh | libllvm/src/APFloat.cpp:1068-1079 | above one half, or at one half otherwise, the increment is |
| FloatSpec.OverflowRounds | libllvm/src/APFloat.cpp:1031-1048 | from the next power of two on, truncation gives the largest finite number and every other direction infinity |
| FloatSigned.DirectionIsRight | libllvm/src/APFloat.cpp:1031-1090 | on the real line: toward positive gives the least number not below the exact one or infinity, toward negative the greatest not above it, toward zero the farthest within, to nearest the closest, with ties as the mode says and infinity of the right sign from the threshold on |
| FloatUnique.OneForm | libllvm/src/APFloat.cpp:1092-1196 | a magnitude has one canonical form |
| FloatUnique.RoundingIsUnique | libllvm/src/APFloat.cpp:1055-1090 | the specification of rounding admits exactly one result |
| ApFloats.RoundingDecision | libllvm/src/APFloat.cpp:1055-1090 | the decision taken from the summary is the one the exact value calls for, in all five modes |
| ApFloats.ApFloat.ShiftSignificandRight | libllvm/src/APFloat.cpp:983-990 | shifts, raises the exponent and returns the summary of what was lost |
| ApFloats.ApFloat.ShiftSignificandLeft | libllvm/src/APFloat.cpp:993-1004 | shifts and lowers the exponent |
| ApFloats.ApFloat.HandleOverflow | libllvm/src/APFloat.cpp:1031-1048 | correctly rounded overflow, with its flags |
| ApFloats.ApFloat.Increment | libllvm/src/APFloat.cpp:1162-1185 | the next magnitude up, infinity included, with the flags that go with it |
| ApFloats.ApFloat.Round | libllvm/src/APFloat.cpp:1144-1196 | the correctly rounded result, canonical zeros included, with exact flags |
| ApFloats.ApFloat.Place | libllvm/src/APFloat.cpp:1114-1142 | subnormal or normal placement of the leading bit keeps the exact value |
| ApFloats.ApFloat.Normalize | libllvm/src/APFloat.cpp:1092-1196 | for every significand, exponent and lost fraction that the assertion of the function admits, except a zero significand with a lost fraction away from the least exponent: the correctly rounded value, and flags that are set exactly if the value changed, overflowed or underflowed |
| ApFloats.DifferenceExact | libllvm/src/APFloat.cpp:1272-1296 | the shifted and borrowed significands denote the exact difference, which needs no further borrow and keeps full precision if anything was lost |
| ApFloats.ApFloat.AddMagnitudes | libllvm/src/APFloat.cpp:1303-1311 | the exact sum as significand and fraction |
| ApFloats.ApFloat.SubtractMagnitudes | libllvm/src/APFloat.cpp:1265-1301 | the exact difference as significand and fraction, with the sign of the larger operand |
| ApFloats.ApFloat.AddOrSubtractSignificand | libllvm/src/APFloat.cpp:1251-1319 | the exact signed sum, with its sign |
| ApFloats.ApFloat.MakeNaN | libllvm/src/APFloat.cpp:589-633 | the default quiet not-a-number |
| ApFloats.ApFloat.AddOrSubtractSpecials | libllvm/src/APFloat.cpp:1198-1248 | the results for zeros, infinities and not-a-numbers; two normal operands are left alone |
| ApFloats.ApFloat.AddOrSubtract | libllvm/src/APFloat.cpp:1452-1481 | the sum or difference of finite operands, rounded on the real line as the mode prescribes, with the signs of exact zeros, and the prescribed results otherwise |
| ApFloats.ApFloat.Add | libllvm/src/APFloat.cpp:1484-1486 | correctly rounded addition of signed numbers in all five modes |
| ApFloats.ApFloat.Subtract | libllvm/src/APFloat.cpp:1489-1492 | correctly rounded subtraction of signed numbers in all five modes |
| ApFloats.ApFloat.MultiplySignificand | libllvm/src/APFloat.cpp:800-889 | the exact product as significand and fraction |
| ApFloats.ApFloat.MultiplySpecials | libllvm/src/APFloat.cpp:1321-1359 | the results for zeros, infinities and not-a-numbers |
| ApFloats.ApFloat.Multiply | libllvm/src/APFloat.cpp:1495-1511 | correctly rounded multiplication of signed numbers in all five modes |
| ApFloats.LongDivision | libllvm/src/APFloat.cpp:946-954 | the bitwise loop yields quotient and remainder, the quotient with full precision |
| ApFloats.ApFloat.DivideSignificand | libllvm/src/APFloat.cpp:892-972 | the exact quotient as significand and fraction |
| ApFloats.ApFloat.DivideSpecials | libllvm/src/APFloat.cpp:1361-1399 | the results for zeros, infinities and not-a-numbers, division by zero included |
| ApFloats.ApFloat.Divide | libllvm/src/APFloat.cpp:1514-1530 | correctly rounded division of signed numbers in all five modes |
| PathCounts.WalksAre | lonestar/betweennesscentrality/BetweennessCentralityLevel.cpp:156-187 | the recursively built set holds exactly the edge sequences that are walks |
| PathCounts.WalksCounted | lonestar/betweennesscentrality/BetweennessCentralityLevel.cpp:167-186 | the accumulated number of walks is the cardinality of that set |
| PathCounts.ThroughCounted | lonestar/betweennesscentrality/BetweennessCentralityLevel.cpp:224-239 | walks through a node are the product of the walks to it and from it |
| ShortestPaths.FirstEdge | lonestar/betweennesscentrality/BetweennessCentralityLevel.cpp:224-234 | counting walks by their first edge equals counting them by their last |
| ShortestPaths.VisitLevel | lonestar/betweennesscentrality/BetweennessCentralityLevel.cpp:224-234 | a shortest path visits a node only at the node's distance |
| ShortestPaths.LevelBound | lonestar/betweennesscentrality/BetweennessCentralityLevel.cpp:68 | distances stay below the number of nodes, hence below infinity |
| ShortestPaths.DependencyRecurrence | lonestar/betweennesscentrality/BetweennessCentralityLevel.cpp:224-239 | the sum of path shares through a node obeys the backward recurrence over its successors |
| Brandes.InitEstablishes | lonestar/betweennesscentrality/BetweennessCentralityLevel.cpp:118-153 | resetting the node fields establishes the forward invariant |
| Brandes.SwapPreserves | lonestar/betweennesscentrality/BetweennessCentralityLevel.cpp:171-178 | racing compare-and-swaps claim a node once and list it once |
| Brandes.ArrivalsComplete | lonestar/betweennesscentrality/BetweennessCentralityLevel.cpp:167-186 | when a level is done every path into the next level has been added |
| Brandes.StepPreserves | lonestar/betweennesscentrality/BetweennessCentralityLevel.cpp:156-250 | every step of either phase, in any order within a level, preserves the invariant |
| Brandes.BrandesCorrect | lonestar/betweennesscentrality/BetweennessCentralityLevel.cpp:118-251 | for any graph and any order, distances and numbers of shortest paths are exact and the dependency of every non-source node is the sum over targets of the share of shortest paths through it |
| Brandes.ListedDistance | lonestar/betweennesscentrality/BetweennessCentralityLevel.cpp:161-165 | the assertions at the head of both operators hold in every reachable state |
| Brandes.CentralityIsSum | lonestar/betweennesscentrality/BetweennessCentralityLevel.cpp:363-386 | over any list of sources a node accumulates the sum of its dependencies |
| BrandesProgress.StepDecreases | lonestar/betweennesscentrality/BetweennessCentralityLevel.cpp:156-250 | every step lowers the phase, the levels to come or the work left on the level |
| BrandesProgress.Terminates | lonestar/betweennesscentrality/BetweennessCentralityLevel.cpp:156-250 | no infinite sequence of steps exists |
| BrandesProgress.StopsOnlyWhenFinished | lonestar/betweennesscentrality/BetweennessCentralityLevel.cpp:156-250 | a run can go on if and only if it is not finished |
| BrandesProgress.CanFinish | lonestar/betweennesscentrality/BetweennessCentralityLevel.cpp:156-250 | every run can be continued to a finished one |
| Probing.ProbesDiffer | libllvm/src/SmallPtrSet.cpp:105-130 | within one round of triangular steps no bucket is visited twice |
| Probing.ProbesCover | libllvm/src/SmallPtrSet.cpp:105-130 | one round visits every bucket of a power-of-two table |
| Probing.SearchEnds | libllvm/src/SmallPtrSet.cpp:105-130 | a search ends within one round as long as one bucket is empty |
| Probing.NotBeyondEmpty | libllvm/src/SmallPtrSet.cpp:116-120 | a search that meets an empty bucket has passed every place where the item could be |
| SmallPtrSets.PutHolds | libllvm/src/SmallPtrSet.cpp:64-75 | filling the bucket found keeps the table a table for the set with the new element, tombstones counted |
| SmallPtrSets.BuryHolds | libllvm/src/SmallPtrSet.cpp:93-102 | a tombstone removes the element and hides no other |
| SmallPtrSets.DropListed | libllvm/src/SmallPtrSet.cpp:78-89 | the small array forgets one element by moving the last into its place |
| SmallPtrSets.SmallPtrSet.constructor | libllvm/include/llvm/ADT/SmallPtrSet.h:67-76 | an empty small set |
| SmallPtrSets.SmallPtrSet.FindBucketFor | libllvm/src/SmallPtrSet.cpp:105-130 | the bucket of the pointer, or else the first tombstone on its path, or else the empty bucket that ends it; it always ends |
| SmallPtrSets.SmallPtrSet.Grow | libllvm/src/SmallPtrSet.cpp:134-172 | the same set in a new table without tombstones, from the small array or from a table |
| SmallPtrSets.SmallPtrSet.ScanSmall | libllvm/src/SmallPtrSet.cpp:40-46 | the linear search finds the element exactly if it is there |
| SmallPtrSets.SmallPtrSet.Place | libllvm/src/SmallPtrSet.cpp:64-75 | adds the element where the search ends and reports whether it was new |
| SmallPtrSets.SmallPtrSet.MakeRoom | libllvm/src/SmallPtrSet.cpp:53-61 | the table is replaced, and by one of which size, exactly at the two thresholds; afterwards there is room |
| SmallPtrSets.SmallPtrSet.Insert | libllvm/src/SmallPtrSet.cpp:39-75 | set insertion with an exact answer, across the switch to the table, growth and same-size rehash, each exactly at its threshold, always leaving an empty bucket |
| SmallPtrSets.SmallPtrSet.EraseSmall | libllvm/src/SmallPtrSet.cpp:78-91 | removal from the small array with an exact answer |
| SmallPtrSets.SmallPtrSet.Erase | libllvm/src/SmallPtrSet.cpp:77-103 | set removal with an exact answer |
| SmallPtrSets.SmallPtrSet.Contains | libllvm/include/llvm/ADT/SmallPtrSet.h:114-128 | membership |
| SmallPtrSets.SmallPtrSet.Clear | libllvm/include/llvm/ADT/SmallPtrSet.h:83-93 | the empty set, in a smaller table exactly if less than a quarter of more than 32 buckets was in use |
| SmallPtrSets.SmallPtrSet.ShrinkAndClear | libllvm/src/SmallPtrSet.cpp:21-37 | the empty set in a table of 32 or of two to four times the old number of elements |
| StringMaps.PutHolds | libllvm/include/llvm/ADT/StringMap.h:318-332 | filling the bucket found binds the key and keeps every other binding and stored hash |
| StringMaps.BuryHolds | libllvm/src/StringMap.cpp:164-176 | a tombstone unbinds the key and hides no other |
| StringMaps.AnswerFits | libllvm/src/StringMap.cpp:65-106 | the bucket a search for an absent key answers is not occupied and is where the key is looked for |
| StringMaps.RehashHolds | libllvm/src/StringMap.cpp:194-229 | putting every entry into the first empty bucket on its path, in order, gives a table of the same map |
| StringMaps.ThresholdsExact | libllvm/src/StringMap.cpp:180-192 | one check leaves a bucket empty for all counts if and only if the table has at least eight buckets, or one |
| StringMaps.StaysValid | libllvm/src/StringMap.cpp:180-230 | with eight buckets or more and right counters, every check keeps a bucket empty and the counters right |
| StringMaps.GrowthExact | libllvm/src/StringMap.cpp:180-192 | an insertion doubles the table exactly if more than three quarters are full then, and rebuilds it exactly if fewer than one bucket in eight seems empty |
| StringMaps.StringMap.constructor | libllvm/src/StringMap.cpp:19-33 | an empty map for every initial size; it is one whose searches will go on ending if and only if the size is 0 or at least 8 |
| StringMaps.StringMap.Init | libllvm/src/StringMap.cpp:35-47 | an empty table of the given size, or of 16 |
| StringMaps.StringMap.LookupBucketFor | libllvm/src/StringMap.cpp:54-107 | the one bucket that holds the key, or else the first tombstone on its path, or else the empty bucket that ends it, allocating the first table |
| StringMaps.StringMap.Search | libllvm/src/StringMap.cpp:60-107 | the probing loop, which ends whenever some bucket is empty |
| StringMaps.StringMap.FindKey | libllvm/src/StringMap.cpp:112-151 | the one bucket that holds the key, or none exactly if it is not bound |
| StringMaps.StringMap.RemoveKey | libllvm/src/StringMap.cpp:164-176 | unbinds the key and returns its value, if it was bound, and leaves a tombstone |
| StringMaps.StringMap.CopyInto | libllvm/src/StringMap.cpp:202-224 | every entry, with its stored hash, goes to the first empty bucket on its path |
| StringMaps.StringMap.RehashTable | libllvm/src/StringMap.cpp:180-230 | the same map, in the table the thresholds ask for, whatever the counter of tombstones says |
| StringMaps.StringMap.Fill | libllvm/include/llvm/ADT/StringMap.h:318-332 | binds the key in the bucket found; the counter follows, also below zero |
| StringMaps.StringMap.Insert | libllvm/include/llvm/ADT/StringMap.h:318-332 | binds the key unless it is bound, with an exact answer, for every table with an empty bucket; a valid map stays valid |
| StringMaps.StringMap.GetOrCreateValue | libllvm/include/llvm/ADT/StringMap.h:356-376 | the value bound, binding the given one first if there is none |
| StringMaps.StringMap.Clear | libllvm/include/llvm/ADT/StringMap.h:335-350 | unbinds every key and keeps the tombstones; the counters are right afterwards if and only if there were none or nothing was bound |
| StringMapRuns.FullTableHangs | libllvm/src/StringMap.cpp:65-106 | without an empty bucket no search for any absent key ever ends |
| StringMapRuns.SafeRun | libllvm/src/StringMap.cpp:180-192 | from an initial size of 0 or at least 8, after every run of insertions and removals every search ends |
| StringMapRuns.SmallTableFills | libllvm/src/StringMap.cpp:180-192 | for each initial size of 1, 2 and 4, a run of insertions and removals after which no search for an absent key ends |
| StringMapRuns.ClearFills | libllvm/include/llvm/ADT/StringMap.h:335-350 | for every initial size, a run that also clears after which no search for an absent key ends |
| StringMapRuns.CounterUnderflows | libllvm/include/llvm/ADT/StringMap.h:324-328 | an insertion that reuses a tombstone forgotten by a clear lowers a counter of zero |
| StringMapRuns.HashCovers | libllvm/include/llvm/ADT/StringExtras.h:167-171 | every bucket of a table is the home of some key under the hash function |
| StringMapRuns.SearchesEndExactly | libllvm/src/StringMap.cpp:19-230 | after every run every search ends if and only if the program does not clear and the initial size is 0 or at least 8 |
| OffsetAllocator.NextLog2 | libgalois/src/PerThreadStorage.cpp:52-61 | the least exponent from 4 on whose power reaches the size; none from 30 on |
| OffsetAllocator.ChangeTiles | libgalois/src/PerThreadStorage.cpp:96-99 | a piece of change fills the front of the gap exactly |
| OffsetAllocator.LiveDisjoint | libgalois/src/PerThreadStorage.cpp:63-107 | two live blocks never share a byte |
| OffsetAllocator.LiveFreeDisjoint | libgalois/src/PerThreadStorage.cpp:63-120 | a live block and a free one never share a byte |
| OffsetAllocator.LiveInside | libgalois/src/PerThreadStorage.cpp:63-107 | a live block lies below the bump pointer |
| OffsetAllocator.PerBackend.constructor | libgalois/include/galois/substrate/PerThreadStorage.h:62-63 | nothing live, nothing free |
| OffsetAllocator.PerBackend.Split | libgalois/src/PerThreadStorage.cpp:87-99 | the last block of the list is taken; the rest becomes one block of every size in between, at fixed offsets, and the tiling stays exact |
| OffsetAllocator.PerBackend.GiveChange | libgalois/src/PerThreadStorage.cpp:93-99 | the loop that lists the change, largest piece first |
| OffsetAllocator.PerBackend.AllocOffset | libgalois/src/PerThreadStorage.cpp:63-107 | the block at the bump pointer while the arena lasts, else the last of the smallest sufficient free list; live and free blocks again tile the used arena exactly; failure exactly if the size is too large or arena and lists are exhausted |
| OffsetAllocator.PerBackend.DeallocOffset | libgalois/src/PerThreadStorage.cpp:109-120 | the block is no longer live and the tiling is exact again, by moving the bump pointer back or by listing the block |
| AsyncBfs.SwapPreserves | lonestar/bfs/bfs.cpp:218-233 | a compare-and-swap, successful or not, keeps labels backed by walks and every needed offer pending |
| AsyncBfs.StepPreserves | lonestar/bfs/bfs.cpp:191-236 | every access of any task preserves the invariant |
| AsyncBfs.NeverBelow | lonestar/bfs/bfs.cpp:182-236 | in no reachable state is a label below the true distance |
| AsyncBfs.StepDecreases | lonestar/bfs/bfs.cpp:206-235 | every access lowers a label or uses up work that only a lowered label can renew |
| AsyncBfs.Terminates | lonestar/bfs/bfs.cpp:191-236 | no infinite sequence of steps exists |
| AsyncBfs.BfsCorrect | lonestar/bfs/bfs.cpp:161-237 | an empty worklist means that every label is the breadth-first distance |
| AsyncBfs.StopsOnlyWhenEmpty | lonestar/bfs/bfs.cpp:191-236 | nothing can happen only when the worklist is empty |
| ExclusiveLocks.AccessPreserves | libgpu/include/exclusive.h:52-68 | every load, store and atomic minimum preserves the invariant |
| ExclusiveLocks.NextDecreases | libgpu/include/exclusive.h:52-68 | every access, and the change of phase, leaves less to do |
| ExclusiveLocks.GoesOn | libgpu/include/exclusive.h:52-68 | something can happen exactly as long as marking is not over |
| ExclusiveLocks.MarkingEnds | libgpu/include/exclusive.h:52-68 | every run can be continued to the end of marking |
| ExclusiveLocks.Terminates | libgpu/include/exclusive.h:52-68 | no infinite sequence of steps exists |
| ExclusiveLocks.LeastClaimantHolds | libgpu/include/exclusive.h:52-68 | after marking, a claimed cell holds the least identifier of its claimants whatever the interleaving |
| ExclusiveLocks.WinnersDisjoint | libgpu/include/exclusive.h:76-82 | two winners have no cell in common |
| ExclusiveLocks.WinsIfLeast | libgpu/include/exclusive.h:52-82 | a thread wins exactly if it is the least claimant of every cell it claims |
| ExclusiveLocks.ScanOwns | libgpu/include/exclusive.h:76-82 | true exactly if every claimed cell holds the identifier |
| ThreadPool.WokenOnce | libgalois/src/ThreadPool.cpp:174-202 | the cascade wakes every thread of the range exactly once |
| ThreadPool.EvenSplit | libgalois/src/ThreadPool.cpp:174-202 | the two parts of a range are of one size or the first is larger by one |
| ThreadPool.DepthLogarithmic | libgalois/src/ThreadPool.cpp:174-202 | two to the height of the wake-up tree is at most the number of threads plus one |
| ThreadPool.RootWaits | libgalois/src/ThreadPool.cpp:155-172 | a child seen done has finished with its whole subtree |
| ThreadPool.InnerStep | libgalois/src/ThreadPool.cpp:127-172 | a step of any thread keeps every subtree around it in order and changes nothing outside |
| ThreadPool.NextPreserves | libgalois/src/ThreadPool.cpp:127-230 | every step of any thread, over any number of parallel sections, preserves the invariant |
| ThreadPool.SectionComplete | libgalois/src/ThreadPool.cpp:204-230 | when the master returns, each thread of the section has executed the work exactly once and sleeps again, and no other thread has |
| ThreadPool.WorkInSection | libgalois/src/ThreadPool.cpp:127-153 | a thread is active only inside a section to which it belongs |
| ThreadPool.ActDecreases | libgalois/src/ThreadPool.cpp:127-230 | every step of a running section leaves less work |
| ThreadPool.SectionEnds | libgalois/src/ThreadPool.cpp:127-230 | no section goes on for ever |
| ThreadPool.SectionCanEnd | libgalois/src/ThreadPool.cpp:204-230 | every run can be continued to the end of its section |
| ThreadPool.ExecuteSection | libgalois/src/ThreadPool.cpp:204-230 | between sections, a section with any requested number of threads, brought into range, can be executed to its end, after which exactly its threads have executed the work |
| ThreadPool.NoDeadlock | libgalois/src/ThreadPool.cpp:127-230 | some thread can act if and only if a section is running, and then less work is left |
| EditDistance.RemoveLipschitz | libllvm/src/StringRef.cpp:105-120 | one character more or less changes the distance by at most one |
| EditDistance.NoShorterScript | libllvm/src/StringRef.cpp:76-131 | no edit script is shorter than the distance, with or without replacements |
| EditDistance.ShortestScript | libllvm/src/StringRef.cpp:76-131 | some edit script is as short as the distance |
| EditDistance.CellStep | libllvm/src/StringRef.cpp:108-118 | a cell follows from its three neighbours as in the program, in both modes |
| EditDistance.FillRow | libllvm/src/StringRef.cpp:103-120 | one row of the table and its minimum |
| EditDistance.LastRowDecides | libllvm/src/StringRef.cpp:121-122 | a row above the maximum stays above it, so the cut-off is taken if and only if every prefix of the other string is farther away than the maximum |
| EditDistance.EditDistance | libllvm/src/StringRef.cpp:76-131 | the two-row program returns the distance, or one more than a non-zero maximum if and only if every prefix is farther away than it |
| EditDistance.CutOffSound | libllvm/src/StringRef.cpp:121-122 | the cut-off is taken only if the distance exceeds the maximum |
| EditDistance.CutOffMissed | libllvm/src/StringRef.cpp:121-131 | inputs above the maximum for which the distance itself is returned, not the maximum plus one |

## Left out

- Memory ordering weaker than sequential consistency, time-outs, tracing and statistics counters.
- Thread, host and element counts near the limits of their machine integers: counts are unbounded here, except where a width matters (barrier senses, fence phases, word arrays, distances, chunk lengths).
- The sentinel slots behind the hash tables and their iterators.
- `SimpleBarrier`, the pthread barrier and the counting barrier.
- `KnuthDiv` and its callers, rotation, square root and `magicu` with leading zeros known.
- `APFloat` conversion, fused multiply-add, remainder, modulus and text; the x87 and PowerPC formats; payload bits of a not-a-number beyond copying them; exponent overflow of the exponent type itself.
- Messaging.NumBytesExact: of the test whether a queue is ready, the byte counter is modelled; urgency, amount and age may or may not allow a batch at any moment.
- The transport below the messaging layer beyond its order, its in-flight counters, and byte order between unlike hosts.
- The page and NUMA allocation behind the offsets of per-thread storage, and its `invalid` flag.
- The fast-mode spinning, the dedicated threads and the shutdown of the thread pool.
- The synchronous and tiled variants of breadth-first search and the asynchronous betweenness program.
- TopoBarrier.BarrierSafety: assumes, as the runtime arranges, that thread 0 leads socket 0 and that every socket in use has an active leader.
- BignumDivision.TcDivide: the scratch, remainder and operand arrays are distinct, as the original demands.
- ApFloats.ApFloat.Normalize: excludes a zero significand that carries a lost fraction at another than the least exponent, which none of the four operations produces; the code then rounds as if the exponent had been the least. A short significand that carries a lost fraction is excluded where the original's own assertion excludes it.
- ApFloats.ApFloat.MultiplySignificand: without the addend of a fused multiply-add; significands are naturals, so the word arrays of the two layers are not joined.
- Brandes.BrandesCorrect: path counts and dependencies are exact reals instead of floating-point numbers, and the graph has at most as many nodes as the distance called infinity; beyond that the code's distances collide with infinity.
- Brandes.StepPreserves: the push onto the next level's list, first read after the level, is part of the compare-and-swap step that decides it.
- AsyncBfs.BfsCorrect: every edge of a worklist item is a task of its own, which admits more interleavings than the code has.
- StringMaps.StringMap.Insert: the hash function is an arbitrary function of the key; entries are values instead of heap objects owned by the caller; an insertion into a table without an empty bucket, which never returns, is excluded.
- StringMapRuns.HashCovers: the characters of a key are taken as non-negative numbers.
- HostFence.TagsNeverConfused: program messages under tags 1 to 32766 are excluded, and only the fence advances the phase. The statistics reduction (libdist/src/DistStats.cpp:109-183 and 281) and the termination detector (libdist/include/galois/DTerminationDetector.h:217-220) also send under the phase or advance it.
- HostFence.FenceFlushes: the sends of a host reach its channels at once; what the messaging layer does in between is the subject of `Messaging`.
- OffsetAllocator.NextLog2: for sizes above 2^31 the original shifts a 32-bit one by 32 places, which is undefined; the model reports the abort case.
- SmallPtrSets.SmallPtrSet.Insert: pointers are naturals, the two reserved marker values being separate constructors.
- OffsetAllocator.PerBackend.AllocOffset: one call is one atomic step; the original's test of the bump pointer and its increment are two, between which another thread may pass.
- ThreadPool.NextPreserves: writing a child's range and waking it is one step, the child being asleep.
- EditDistance.EditDistance: the two halves of one buffer are two arrays.
