# Verification of the miner's algorithmic cores

The miner pipes nonces through a GPU stage (SHA-256t, filtered by a target) and a CPU stage
(VerusHash).  Between and inside the two stages sit nine pieces whose correctness is a matter of
arithmetic and state rather than of plumbing.  This project models them and proves what they promise;
`dafny verify dfyconfig.toml` checks everything.

| file | what it is about |
|---|---|
| RingModel, RingTheorems, CyclicQueue, RingRuns | the ring buffer the GPU results are written to: one- or two-piece regions, reference counts, the destructor cascade, the wakeup after a failed request, runs of the objects |
| ResultSpans | splitting the device's linear result buffer over two pieces and finding the pairs again |
| Traversal | the walk of one batch, and of all batches of a job, over the job's two spans |
| JobBatches, JobQueue, MiningRuns | cutting queued jobs into batches, runs of pushes, pops and clears, and what mining the popped batches looks at |
| Clhash, RoundLaws, VerusMiner | the key-mutating VerusHash loop (both variants), what each kind of round does, its undo log, and the hash of a candidate |
| VerusHasher, VerusLaws | the portable hasher for messages of any length, that the miner's hashes agree with it, and what both share |
| Gf2Reduction | reduction of a 128-bit polynomial over GF(2) modulo x^64 + x^4 + x^3 + x + 1 |
| PackedTarget | the 32-bit target word a hash is packed into, and what it says |
| Estimator | the incremental least-squares estimate of scan and process time |
| NonceTracker | handing out the 2^32 nonces of a job |
| MachineWords, Options | fixed-width numbers, bytes, optional values |
| Sha2Schedule, Sha2Rounds, Sha1Rounds, Sha2Bytes, ReverseMacros, Sha2Stream, Sha2Context, Sha2Hashes | SHA-1, SHA-256 and SHA-512, rolled and unrolled, for any chunking of any message |
| RootConstants, Fips180 | the constants as roots of primes, and the three hash functions as FIPS 180-4 words them |

Code that changes state is modelled by classes, arrays and loops (`CyclicQueue.Queue`, `JobQueue.Queue`,
`EfficiencyEstimator`, `JobNonceTracker`, `Miner`, `Context`, the transforms), each proved against
functions on values; the theorems are lemmas about those functions.

## What the code does not do

Some promises turn out not to hold in general.  The code is modelled as it is; each has a concrete
input that breaks it and the exact condition under which it holds.

* `available` can overstate: after a partial release `hasSpace` may still be down although the write
  end has passed the tail (a run in `AvailableOverstates`; the condition in `AvailableAgrees`).
* A request of another thread after the newest buffer has lost its last reference and before its
  destructor has reached `free` is not safe: the late `free` can move the tail back behind newer
  buffers, and a cell is then handed out twice (`LateFreeOverlaps`).  Every run without such a request
  is safe (`RingSafety`).
* The walk over a batch is exact only if the window ends within the first span or starts exactly at its
  end (`VisitIsWindowIff`).  Over the batches a run of the queue pops, mining looks at every candidate
  once and in order if and only if what has been taken of each job lies in its first span or exactly
  one of the job's batches starts at or after the second one's beginning (`ExactlyOnceIff`,
  `PoppedIsMinedIff`).  Runs of `Push` and `Pop` that lose and that repeat candidates are
  `StraddlingBatchLoses` and `LateBatchRepeats`.
* `result_spans` truncates span sizes to 32 bits and doubles the second span's number of pairs in 32
  bits; `Untruncated` is the condition (`GatherIff`, `GatherIsFront`, `LossShows`), and `LossesHappen`
  has an input for each way to lose pairs.
* The sums of the least-squares estimate are kept modulo 2^64, and its numerators are formed in 64
  unsigned bits (`EstimateIsOptimalIff` for any samples, `OptimalIffNumeratorsFit` for sums that fit).  A
  negative exact numerator wraps (`EstimateCanWrap`), and a wrapped sum can suppress the estimate
  (`SumsCanWrap`).
* A request for all 2^32 nonces at once yields a range of length 0 (`RequestIsExact`,
  `WholeSpaceAtOnce`).
* The mine proportion leaves (0, 1] exactly when the hashrate has been set to 0 (`ProportionIff`; both
  outcomes in `ProportionOfNothing`).

The comment beside the key-mutating loop asks for 32 slots behind the mask; the loop reads up to 39
(`RoundWindow`), and there is an accumulator for which it does (`BoundIsMet`).  The key's 40 spare slots
cover it.

## Model

| member | source | states |
|---|---|---|
| RingModel.Init | src/miner/cyclic_queue.hpp:66-73 | a new queue of at least three words satisfies the queue's invariant |
| RingModel.PartLength | src/miner/cyclic_queue.hpp:183-199 | a part has the request's parity, fits, is at least two words, and is either all that was asked for or the largest that fits; it is empty exactly when nothing of two words and that parity fits |
| RingModel.AllocOutcome | src/miner/cyclic_queue.hpp:127-171 | where there is room a request appends a buffer behind the write end with an odd first and an even second piece; otherwise only the failure is noted |
| RingModel.AllocPlaces | src/miner/cyclic_queue.hpp:127-199 | which words a request gets: from the write end, or from the ring's start if fewer than three are left before its end, the longest odd piece the request and the space allow, then the longest even piece of what is still wanted from the start |
| RingModel.AllocKeeps | src/miner/cyclic_queue.hpp:127-166 | every request keeps the invariant: the undestroyed buffers tile disjoint stretches between tail and write end in allocation order |
| RingModel.DestroyKeeps | src/miner/cyclic_queue.hpp:59-63 | destroying the oldest buffer keeps the invariant, also when the tail is not moved because someone else holds the successor |
| RingModel.DestroyFrees | src/miner/cyclic_queue.hpp:59-182 | a destructor moves the tail to its cursor, raises `hasSpace` if the write end is there, and clears the failure note with one wakeup, exactly if its successor is absent or held by it alone; otherwise none of these changes |
| RingModel.CascadeFrees | src/miner/cyclic_queue.hpp:59-182 | a whole cascade destroys the buffers before the first one held and gives back all of them but one whose successor is held; tail, flags and at most one wakeup accordingly |
| RingModel.CascadeKeeps | src/miner/cyclic_queue.hpp:59-63 | the whole destructor cascade keeps the invariant |
| RingModel.StepKeeps | src/miner/cyclic_queue.hpp:14-213 | every step of any user of the queue, including requests between two destructors and inside one, keeps the invariant |
| RingModel.AskedInOrder | src/miner/cyclic_queue.hpp:59-63 | a request that the wakeup callback makes inside the destructor, before the buffer is out of the chain, comes to the same as one made after it |
| RingTheorems.RingSafety | src/miner/cyclic_queue.hpp:127-199 | in every run: cursors in (0, entries], every first piece odd and at least 3, every second even, all cells in bounds, no cell owned twice |
| RingTheorems.RunExtends | src/miner/cyclic_queue.hpp:59-63 | no run ever moves a buffer, revives a destroyed one, or clears the failure note without a wakeup |
| RingTheorems.DestructionOrder | src/miner/cyclic_queue.hpp:59-63 | buffers are destroyed in allocation order whatever order handles are dropped in, and the tail is always a destroyed buffer's cursor or the initial end |
| RingTheorems.CapacityRecovers | src/miner/cyclic_queue.hpp:172-182 | in every run, requests by wakeup callbacks included: once all handles are gone and the destructors have run no buffer is left, the ring is entirely free, and any request of at least three words succeeds |
| RingTheorems.FailureIsNoted | src/miner/cyclic_queue.hpp:167-171 | a request fails only while some buffer is undestroyed, changes nothing else, and sets `failedAlloc` |
| RingTheorems.NoLostWakeup | src/miner/cyclic_queue.hpp:172-182 | in every reachable state a set `failedAlloc` means an undestroyed buffer, and any continuation that destroys the last buffer has called `freeCallback` |
| RingTheorems.NoteSurvivesNoMove | src/miner/cyclic_queue.hpp:167-182 | over any run: as long as `freeCallback` has not been called since a request failed, the note stands and the tail has not moved |
| RingTheorems.CopyIsUndone | src/miner/cyclic_queue.hpp:14-65 | copying a handle and releasing it changes nothing |
| RingTheorems.AvailableAgrees | src/miner/cyclic_queue.hpp:94-166 | a request succeeds if and only if `available` is positive and the write end is before the tail or `hasSpace` is up; it then returns an odd number of words, at most `available` + 1, and the whole request or all but three of what is available |
| RingTheorems.AvailableOverstates | src/miner/cyclic_queue.hpp:110-182 | a run on nine words after which `available` reports two words that `alloc` refuses |
| RingTheorems.LateFreeOverlaps | src/miner/cyclic_queue.hpp:59-182 | fifteen words, a destructor that comes late, and a request that is given words of an undestroyed buffer |
| CyclicQueue.LinkNew | src/miner/cyclic_queue.hpp:154-165 | making the buffer and linking it from the newest one keeps the chain of reference-counted objects equal to the abstract one |
| CyclicQueue.ReleaseNext | src/miner/cyclic_queue.hpp:25-63 | the end of a destructor releases the successor and reports it exactly if that was its last reference |
| CyclicQueue.Queue.constructor | src/miner/cyclic_queue.hpp:66-73 | the object starts in the abstract initial state |
| CyclicQueue.Queue.AvailableWords | src/miner/cyclic_queue.hpp:110-126 | the code's branches compute the abstract `Available` |
| CyclicQueue.Queue.TakePart | src/miner/cyclic_queue.hpp:183-199 | one `alloc_part` on the fields is the abstract one, span, rest and flags included |
| CyclicQueue.Queue.Request | src/miner/cyclic_queue.hpp:127-166 | `alloc` on the objects is the abstract transition, and returns null exactly when no buffer was added; also while the oldest buffer is being destroyed |
| CyclicQueue.Queue.FreeUpTo | src/miner/cyclic_queue.hpp:172-182 | `free` on the fields is the abstract transition, with the wakeup |
| CyclicQueue.Queue.Destruct | src/miner/cyclic_queue.hpp:59-63 | one destructor on the objects is the abstract destruction of the oldest buffer |
| CyclicQueue.Queue.FreeAsking | src/miner/cyclic_queue.hpp:59-63 | a request by the wakeup callback in the destructor's body, on the objects as they are then: the dying buffer can no longer be locked when it is the newest, and is still linked when it is not |
| CyclicQueue.Queue.DestructAsking | src/miner/cyclic_queue.hpp:59-63 | the whole destructor with such a callback comes to destruction followed by the request, if `free` called back at all, and reports the successor exactly if that has lost its last reference |
| CyclicQueue.Queue.RunCascade | src/miner/cyclic_queue.hpp:59-63 | the cascade terminates and is the abstract cascade |
| CyclicQueue.Queue.DropOne | src/miner/cyclic_queue.hpp:59-63 | dropping a handle, with everything it triggers, is the abstract drop |
| RingRuns.Do | src/miner/cyclic_queue.hpp:14-213 | each event on the queue and its buffers, with reference counts read from the objects, is the abstract step |
| RingRuns.RunQueue | src/miner/cyclic_queue.hpp:14-213 | for any list of events the objects end in the state of the abstract run, and the undestroyed buffer objects lie in the ring, have the parities the device needs, and share no cell |
| ResultSpans.GatherSelects | src/miner/cyclic_queue.hpp:41-58 | splitting the device buffer over an odd and an even piece never cuts a pair, and for any sizes the two gathered spans together are the words of the device buffer at the stated positions |
| ResultSpans.GatherIff | src/miner/cyclic_queue.hpp:41-58 | those positions are the first min(count, capacity) pairs in order if and only if the 32-bit arithmetic, truncated sizes and wrapped doubling, loses none |
| ResultSpans.GatherIsFront | src/miner/cyclic_queue.hpp:37-58 | under that condition reading the device buffer into the two spans and gathering them gives back its first min(count, capacity) pairs, and `result_size` counts them |
| ResultSpans.EveryBufferIsGathered | src/miner/cyclic_queue.hpp:37-58 | in a ring of fewer than 2^32 words this is so for every buffer of every run, whatever the device has written and counted |
| ResultSpans.LossShows | src/miner/cyclic_queue.hpp:37-58 | without it, some device buffer with that count is not given back |
| ResultSpans.LossesHappen | src/miner/cyclic_queue.hpp:44-51 | an input for each way to lose pairs: a first piece of 2^32 words, a second one of that size with its pairs truncated, and 2^31 pairs in the second piece |
| ResultSpans.Scatter | src/miner/gpu/opencl_hasher.hpp:186-199 | the two reads together are the front of the device buffer, cut at the first span's size |
| ResultSpans.FirstSpanNotEmpty | src/miner/cyclic_queue.hpp:41-53 | there is a pair in the first span if and only if the count is positive and the size modulo 2^32 is at least three; below 2^32 words there is one there if there is any |
| Traversal.VisitClosedForm | src/miner/verusopt/verus_clhash_opt.cpp:1364-1366 | what the wrapping arithmetic comes to for any window inside the job |
| Traversal.VisitStaysInside | src/miner/verusopt/verus_clhash_opt.cpp:1364-1431 | no visited index leaves its span, for any offset and length whatsoever |
| Traversal.VisitIsWindowIff | src/miner/verusopt/verus_clhash_opt.cpp:1426-1430 | the walk covers the window exactly if and only if it ends in the first span or starts at its end |
| Traversal.LateBatches | src/miner/verusopt/verus_clhash_opt.cpp:1426-1430 | batches that all start in the second span give everything from its beginning to their end if and only if there is one of them |
| Traversal.ExactlyOnceIff | src/miner/verusopt/verus_clhash_opt.cpp:1364-1431 | the batches that have taken a job up to anywhere visit every candidate so far exactly once and in order if and only if they end within the first span or exactly one of them starts at or after the second span's beginning |
| Traversal.WalkGoesWrong | src/miner/verusopt/verus_clhash_opt.cpp:1364-1431 | walks over two spans of two candidates that lose one, lose a whole span, and repeat one |
| Traversal.MineSpan | src/miner/verusopt/verus_clhash_opt.cpp:1366-1425 | the inner loop looks at the span's slice up to the first winner |
| Traversal.MineJob | src/miner/verusopt/verus_clhash_opt.cpp:1343-1433 | `mine_job` looks at the candidates at exactly the visited positions, in order, up to the first winner, and reports success if and only if there is one |
| JobBatches.CutStream | src/miner/cpu/verus_job.cpp:55-84 | moving the cursor takes exactly that stretch off what is pending |
| JobBatches.NextBatchesFit | src/miner/cpu/verus_job.cpp:55-84 | the batches of a pop are windows of queued jobs |
| JobBatches.PushKeeps | src/miner/cpu/verus_job.cpp:15-30 | accepting a job keeps the books: watermark, cursor, what is pending, and how every earlier job was cut |
| JobBatches.CutKeeps | src/miner/cpu/verus_job.cpp:58-87 | cutting a batch keeps them: the consecutive batches of a job begin at 0, follow on each other and end where the cursor is, or at the job's end |
| JobBatches.CutWorks | src/miner/cpu/verus_job.cpp:58-87 | the front job's next window is the first batch of what a request of that size gets, and its rest is what the remaining queue gives |
| JobBatches.DoneServing | src/miner/cpu/verus_job.cpp:55-88 | when the loop of `pop` ends, the batches cut one by one are the ones the request asked for, and the queue is what they leave |
| MiningRuns.MinedAsPopped | src/miner/cpu/verus_job.cpp:55-100 | batches that end in their job's first span or start at its end are mined exactly as popped |
| MiningRuns.RunIsMinedIff | src/miner/verusopt/verus_clhash_opt.cpp:1364-1431 | over the batches of any number of jobs the places looked at are the places handed out, in order, if and only if each job is walked well |
| MiningRuns.WellWalkedIsMined | src/miner/verusopt/verus_clhash_opt.cpp:1364-1431 | then the candidates looked at are the candidates handed out, in order |
| MiningRuns.PoppedIsMinedIff | src/miner/cpu/verus_job.cpp:55-100 | at any moment of any run of pushes and pops that is exactly when mining what has been popped looks at each candidate handed out once and in order |
| MiningRuns.UnwrappedIsMined | src/miner/cpu/verus_job.cpp:55-100 | in particular it does, wherever the batches are cut, when no job pushed has a second span |
| MiningRuns.MineBatches | src/miner/verusopt/verus_clhash_opt.cpp:1343-1433 | `mine_job` over a list of batches, absent a winner, looks at exactly these candidates |
| JobQueue.Queue.Push | src/miner/cpu/verus_job.cpp:15-30 | a job is dropped if stale or empty; otherwise it is the last of the queue and its candidates are pending after all others |
| JobQueue.Queue.Pop | src/miner/cpu/verus_job.cpp:55-100 | `pop` hands out exactly the next min(N, watermark) candidates in order, as consecutive windows of the queued jobs, one for each job it reaches and the first from the cursor on; the rest stays pending, and it returns nothing exactly when nothing is pending |
| JobQueue.Queue.Cut | src/miner/cpu/verus_job.cpp:58-87 | one pass of the loop cuts the front job's next window from the cursor on, as long as the request or the job allows, and moves on to the next job at its end |
| JobQueue.Queue.Clear | src/miner/cpu/verus_job.cpp:9-13 | clearing forgets jobs, cursor, watermark and hashrate and sets the new clean index |
| JobQueue.Run | src/miner/cpu/verus_job.cpp:9-100 | any run of pushes, stale ones included, pops and clears on a new queue: the books between clears are sound, hold only jobs that were pushed, and together hold the batches popped and the candidates that the run's outcome says were popped |
| JobQueue.MineRun | src/miner/verusopt/verus_clhash_opt.cpp:1343-1433 | over any such run of jobs without a second span, mining the popped batches looks at exactly these candidates: from each clear to the next the first of those accepted, as many as were popped, each once and in order |
| JobQueue.StraddlingBatchLoses | src/miner/verusopt/verus_clhash_opt.cpp:1364-1431 | a push and a pop of a whole job after which mining has not looked at the second span |
| JobQueue.LateBatchRepeats | src/miner/verusopt/verus_clhash_opt.cpp:1364-1431 | a push and three pops after which mining has looked at one candidate twice |
| JobQueue.ProportionIff | src/miner/cpu/verus_job.cpp:44-53 | the mine proportion is in (0, 1] if and only if the hashrate is not 0 |
| JobQueue.ProportionOfTenfold | src/miner/cpu/verus_job.cpp:44-53 | the proportion times ten times the pending candidates is the hashrate or all of them, whichever is less; without a hashrate it is 1 |
| JobQueue.ProportionOfNothing | src/miner/cpu/verus_job.cpp:44-53 | with the hashrate set to 0 the proportion is 0 over 0 when nothing is pending and 0 otherwise |
| Clhash.DivisionIsSafe | src/miner/verusopt/verus_clhash_opt.cpp:983-1121 | in both dividing arms the signed divisor is neither 0 nor -1 and the remainder fits 32 bits |
| RoundLaws.RemTruncates | src/miner/verusopt/verus_clhash_opt.cpp:985-996 | the remainder is that of a division cut off towards zero: smaller than the divisor and of the dividend's sign |
| RoundLaws.CastsAreCongruent | src/miner/verusopt/verus_clhash_opt.cpp:987-994 | dividend and divisor are the signed numbers congruent to their words |
| RoundLaws.SelectorFields | src/miner/verusopt/verus_clhash_opt.cpp:898-911 | the selector is composed of buffer block, arm, two slots and iterations at their bit positions |
| RoundLaws.OtherIsNeighbour | src/miner/verusopt/verus_clhash_opt.cpp:914 | the other block is the neighbour within the pair |
| RoundLaws.CoinIsBit | src/miner/verusopt/verus_clhash_opt.cpp:1062 | an iteration's coin is one bit of the selector, 28 and up |
| RoundLaws.Arm0Law | src/miner/verusopt/verus_clhash_opt.cpp:912-934 | accumulator and both stores of this kind of round, in the instructions and the old slots, and in the order of the stores |
| RoundLaws.Arm1Law | src/miner/verusopt/verus_clhash_opt.cpp:935-958 | likewise |
| RoundLaws.Arm2Law | src/miner/verusopt/verus_clhash_opt.cpp:959-981 | likewise |
| RoundLaws.Arm3Law | src/miner/verusopt/verus_clhash_opt.cpp:982-1023 | likewise for the dividing round, for both parities of the dividend and both variants |
| RoundLaws.Arm4Law | src/miner/verusopt/verus_clhash_opt.cpp:1024-1050 | likewise for the AES round with its twelve keys |
| RoundLaws.Arm5Law | src/miner/verusopt/verus_clhash_opt.cpp:1051-1088 | likewise for the loop of products and AES, through any accumulators that follow its iterations one by one |
| RoundLaws.Arm6Law | src/miner/verusopt/verus_clhash_opt.cpp:1089-1122 | likewise for the dividing loop, in both variants |
| RoundLaws.Arm7Law | src/miner/verusopt/verus_clhash_opt.cpp:1123-1145 | likewise, in both variants |
| Clhash.MonkinsWindow | src/miner/verusopt/verus_clhash_opt.cpp:1051-1088 | the do-while arm reads no slot beyond four AES keys per remaining iteration |
| Clhash.RoundWindow | src/miner/verusopt/verus_clhash_opt.cpp:898-1146 | a round's result depends on no key slot but `prandex` and the 40 from `prand` on |
| Clhash.WorstSelector | src/miner/verusopt/verus_clhash_opt.cpp:1051-1088 | a selector that asks for eight AES iterations from the last slot of the mask |
| Clhash.MonkinsReadsLast | src/miner/verusopt/verus_clhash_opt.cpp:1051-1088 | with AES in every iteration the last one reads the slot 5 * iterations + 4 past the start: with instructions that pass it through, it is the loop's result |
| Clhash.BoundIsMet | src/miner/verusopt/verus_clhash_opt.cpp:898-1146 | the bound is met: for such instructions and every key there is an accumulator whose round yields the slot 39 past the mask |
| Clhash.RoundsLogged | src/miner/verusopt/verus_clhash_opt.cpp:898-909 | after any number of rounds every slot the log does not name is as before, and the log names only slots within the mask |
| Clhash.UndoRestoresKey | src/miner/verusopt/verus_clhash_opt.cpp:1171-1178 | after any number of rounds of either variant, restoring the logged slots from the copy gives back the pristine key, repeated and coinciding slots included |
| VerusMiner.RunMonkins | src/miner/verusopt/verus_clhash_opt.cpp:1051-1088 | the do-while loop with its moving read position computes the recursive form |
| VerusMiner.RunModulo | src/miner/verusopt/verus_clhash_opt.cpp:1089-1122 | likewise for the dividing loop, with the value left in `onekey` |
| VerusMiner.RunRound | src/miner/verusopt/verus_clhash_opt.cpp:898-1145 | one round in place: accumulator, key and scratch move as the value-level step says |
| VerusMiner.Repeat | src/miner/verusopt/verus_clhash_opt.cpp:603-865 | the loop in place leaves accumulator, key and move log of the value-level rounds and touches no pointer past the log |
| VerusMiner.FixupKey | src/miner/verusopt/verus_clhash_opt.cpp:1171-1178 | `fixupkey` restores exactly the logged slots, up to the null pointer |
| VerusMiner.FillKey | src/miner/verusopt/verus_clhash_opt.cpp:1225-1235 | the key is the iterated Haraka-256 stream and its refresh copy |
| VerusMiner.SetHeader | src/miner/verusopt/verus_clhash_opt.cpp:1215-1236 | a new header leaves sponge state, key and an empty scratch as every later hash needs them |
| VerusMiner.Digest | src/miner/verusopt/verus_clhash_opt.cpp:1376-1388 | the hash of a prepared buffer is the header's and nonce's hash |
| VerusMiner.Undo | src/miner/verusopt/verus_clhash_opt.cpp:1390-1391 | after a hash the key is the header's pristine key again |
| VerusMiner.Miner.CheckSetHeader | src/miner/verusopt/verus_clhash_opt.cpp:1215-1236 | the miner is ready for this header afterwards, whether or not it was for another before |
| VerusMiner.Miner.HashNonce | src/miner/verusopt/verus_clhash_opt.cpp:1366-1398 | hashing a candidate yields its hash and leaves the miner ready for the next |
| VerusMiner.Miner.HashAll | src/miner/verusopt/verus_clhash_opt.cpp:1245-1250 | over any sequence of candidates and headers each hash depends on its own header and nonce only |
| VerusHasher.Hasher.Write | src/shared/src/crypto/verushash/verushash.hpp:32-53 | writing data of any length, from any position in the block, leaves the sponge state and the left-over bytes of the longer message, with the two buffers changing places at every block |
| VerusHasher.Hasher.Reset | src/shared/src/crypto/verushash/verushash.hpp:18-22 | after a reset nothing has been written |
| VerusHasher.Hasher.FillExtra | src/shared/src/crypto/verushash/verushash.cpp:97-109 | the rest of the buffer is filled with the data, repeated and cut off |
| VerusHasher.Hasher.Finalize | src/shared/src/crypto/verushash/verushash.cpp:170-194 | the hash of everything written so far; more can be written afterwards |
| VerusHasher.HashPieces | src/shared/src/crypto/verushash/verushash.hpp:66-69 | however a message is cut into writes, the result is the hash of the whole |
| VerusHasher.JanusIsVerus | src/miner/verusopt/verus_clhash_opt.cpp:1419-1421 | the miner's hash of a header and a nonce is `verus_hash` of the 80 bytes, as both mining loops assert |
| VerusHasher.OwnHashIsVerusHash | src/miner/verusopt/verus_clhash_opt.cpp:1245-1250 | so every hash of `HashAll` is `verus_hash` of that candidate |
| VerusLaws.KeyIsStream | src/miner/verusopt/verus_clhash_opt.cpp:1225-1235 | the key is Haraka-256 iterated from the seed, first half before second, and the key of the seed's hash is the same stream two slots on; the first 512 slots are repeated behind it |
| VerusLaws.KeyOfBlocks | src/miner/verusopt/verus_clhash_opt.cpp:1225-1235 | slot by slot for any list of blocks each hashed from the one before |
| VerusLaws.BlocksOfBuffer | src/miner/verusopt/verus_clhash_opt.cpp:885-886 | the rounds read the buffer's last two blocks, and the first two with these folded in |
| VerusLaws.VersionWord | src/miner/verusopt/verus_clhash_opt.cpp:1237-1250 | the older variant is chosen exactly for the big-endian version 2 |
| VerusLaws.VerusHashOf | src/shared/src/crypto/verushash/verushash.cpp:170-194 | the hash of a message in terms of any sponge states and any rounds that follow one by one: the filled buffer, slot 513 as the first accumulator, the intermediate value, and the forty slots it picks |
| VerusLaws.FilledAt | src/shared/src/crypto/verushash/verushash.cpp:97-109 | filling repeats the data byte by byte |
| Gf2Reduction.TableIsTimesC | src/miner/verusopt/verus_clhash_opt.cpp:299-302 | the 16-entry table is carry-less multiplication by 27 |
| Gf2Reduction.ReductionIsRemainder | src/miner/verusopt/verus_clhash_opt.cpp:290-312 | the low half is a remainder: A = q * (x^64 + x^4 + x^3 + x + 1) + r for every 128-bit A |
| Gf2Reduction.RemainderIsUnique | src/miner/verusopt/verus_clhash_opt.cpp:290-312 | no other quotient and remainder of 64 bits fit |
| Gf2Reduction.ReductionIsLinear | src/miner/verusopt/verus_clhash_opt.cpp:308-312 | reduction commutes with XOR |
| PackedTarget.NormalizedIffLeadingZeros | src/miner/gpu/worker_old.cpp:86-93 | a shift leaves the top 32 bits in [2^31, 2^32) if and only if it removes exactly the leading zeros |
| PackedTarget.Normalize | src/miner/gpu/worker_old.cpp:66-93 | `hashzeros` ends as the leading-zero count of the whole hash and `hbits` as its normalised top, in [2^31, 2^32); only the zero hash is an exception |
| PackedTarget.Quotient | src/miner/gpu/worker_old.cpp:97-98 | the quotient has 32 or 33 bits (what it is: `ResultSays`) |
| PackedTarget.Pack | src/miner/gpu/worker_old.cpp:104-110 | exponent and mantissa add up without overflow, above the floor value |
| PackedTarget.PackQuotient | src/miner/gpu/worker_old.cpp:94-110 | the tail in 32-bit arithmetic, every clamp and branch, is the encoding |
| PackedTarget.ComputeTarget | src/miner/gpu/worker_old.cpp:63-112 | the routine computes `Result` of the hash as a big-endian number |
| PackedTarget.ResultSays | src/miner/gpu/worker_old.cpp:63-112 | what the word says of target and hash: mantissa times hash bits times 2^8 or 2^9 is at most the target's mantissa times 2^42 and less than one mantissa more would make it; the exponent is the zeros the target has more than the hash, one fewer when the quotient has 33 bits; ceiling and floor exactly when these are fewer than none or at least 255 |
| PackedTarget.ZeroIsCeiling | src/miner/gpu/worker_old.cpp:73-74 | the zero hash gets the ceiling |
| PackedTarget.HalvesIff | src/miner/gpu/worker_old.cpp:97-104 | the quotient has 33 bits exactly if the hash's leading bits are at most the target's |
| PackedTarget.ValueOfMemory | src/miner/gpu/worker_old.cpp:76-83 | the hash's value is the big-endian number its bytes spell |
| PackedTarget.EncodeMonotone | src/miner/gpu/worker_old.cpp:94-110 | more leading zeros, or as many and a larger quotient, never pack into less |
| PackedTarget.ResultIsMonotone | src/miner/gpu/worker_old.cpp:63-112 | a larger hash never gets a larger result, across all branches, clamps and exponent changes |
| Estimator.StoredAdd | src/miner/cpu/efficiency_estimator.hpp:87-115 | the wrapping sums stay congruent to the exact ones |
| Estimator.EfficiencyEstimator.Push | src/miner/cpu/efficiency_estimator.hpp:87-100 | the window is the last ten samples pushed, or all if there are fewer, and the stored sums are its sums modulo 2^64 |
| Estimator.EfficiencyEstimator.UpdateLast | src/miner/cpu/efficiency_estimator.hpp:101-115 | likewise with the last sample replaced |
| Estimator.EfficiencyEstimator.Estimate | src/miner/cpu/efficiency_estimator.hpp:116-128 | the code's wrapping numerators give `Solve` of the stored sums |
| Estimator.DetSign | src/miner/cpu/efficiency_estimator.hpp:120-122 | A * D >= B * B always (Cauchy-Schwarz), with equality if and only if all samples are parallel |
| Estimator.NoEstimateIff | src/miner/cpu/efficiency_estimator.hpp:116-122 | as long as no sum wraps, no estimate is given if and only if there are fewer than two samples or all are parallel |
| Estimator.NormalIsOptimal | src/miner/cpu/efficiency_estimator.hpp:17-26 | a solution of both normal equations minimises the sum of squared errors over all real pairs |
| Estimator.OptimumIsUnique | src/miner/cpu/efficiency_estimator.hpp:17-26 | nothing else does, unless all samples are parallel |
| Estimator.OptimalIffNumeratorsFit | src/miner/cpu/efficiency_estimator.hpp:116-128 | for sums that fit 64 bits and samples that are not parallel, the estimate solves the normal equations and is the optimum if and only if both exact numerators fit 64 unsigned bits |
| Estimator.MinimisesIffNormal | src/miner/cpu/efficiency_estimator.hpp:17-26 | for any samples, parallel or not, the minimisers are exactly the solutions of the normal equations |
| Estimator.NumeratorsWrap | src/miner/cpu/efficiency_estimator.hpp:124-127 | the numerators come out the same from the wrapped sums as from the exact ones |
| Estimator.EstimateIsOptimalIff | src/miner/cpu/efficiency_estimator.hpp:116-128 | for any samples and whatever wraps: no estimate is given if and only if there are fewer than two or the stored sums' determinant is not positive, and one that is given is an optimum if and only if its three integers solve the normal equations of the true sums |
| Estimator.SumsCanWrap | src/miner/cpu/efficiency_estimator.hpp:87-122 | two samples that are not parallel and get no estimate because a sum has wrapped |
| Estimator.EstimateCanWrap | src/miner/cpu/efficiency_estimator.hpp:124-127 | two samples whose estimate is not the optimum |
| NonceTracker.RequestAdvances | src/miner/gpu/opencl_hasher.cpp:16-29 | a request moves along the cycle by min(N, remaining) and returns nothing exactly for 0 or when exhausted |
| NonceTracker.RequestIsExact | src/miner/gpu/opencl_hasher.cpp:16-29 | the range is exactly the nonces the request uses up if and only if it does not ask for all 2^32 at once |
| NonceTracker.WholeSpaceAtOnce | src/miner/gpu/opencl_hasher.cpp:16-29 | a new tracker asked for the whole space answers with an empty range and is exhausted |
| NonceTracker.NoncePartition | src/miner/gpu/opencl_hasher.cpp:9-29 | for requests below 2^32 no nonce is in two ranges, and an exhausted tracker has covered every nonce exactly once |
| NonceTracker.JobNonceTracker.Get | src/miner/gpu/opencl_hasher.cpp:16-29 | the method on the object is the function on the tracker's state |
| NonceTracker.GpuHasher.GetWorkerRange | src/miner/gpu/opencl_hasher.cpp:175-193 | an exhausted tracker is never kept; a tracker stays or is made only if it has nonces left and gave the range |
| Sha2Schedule.CircularNext | src/miner/verusopt/sha2.cpp:761-764 | overwriting slot j mod 16 keeps the buffer the last sixteen words of the schedule |
| Sha2Schedule.Expand | src/miner/verusopt/sha2.cpp:761-770 | the index arithmetic modulo 16 reads the words 16, 15, 7 and 2 back (3, 8 and 14 for SHA-1) and stores the schedule's next word |
| Sha2Schedule.ScheduledIsSchedule | src/miner/verusopt/sha2.cpp:726-793 | words that follow the recurrence are the schedule of FIPS 180-4 |
| Sha2Schedule.Transform | src/miner/verusopt/sha2.cpp:726-793 | the rolled transform with the 16-word circular buffer computes the compression over the full schedule |
| Sha2Rounds.SigmasOfFips256 | src/miner/verusopt/sha2.cpp:137-154 | the shift-and-or macros are the rotations and shifts of section 4.1.2 of FIPS 180-4 |
| Sha2Rounds.SigmasOfFips512 | src/miner/verusopt/sha2.cpp:139-160 | likewise section 4.1.3 |
| Sha2Rounds.InPlaceIsRound | src/miner/verusopt/sha2.cpp:651-667 | the macro that changes two of eight variables in place is a round up to renaming |
| Sha2Rounds.EightRounds | src/miner/verusopt/sha2.cpp:685-698 | eight uses with rotated names are eight rounds |
| Sha2Rounds.TransformUnrolled | src/miner/verusopt/sha2.cpp:669-722 | the unrolled transforms of SHA-256 and SHA-512 compute the same compression as the rolled ones |
| Sha1Rounds.RotlsOfFips | src/miner/verusopt/sha2.cpp:141 | the left rotations of SHA-1 |
| Sha1Rounds.FiveRounds | src/miner/verusopt/sha2.cpp:287-292 | five uses of the SHA-1 macros with rotated names are five rounds |
| Sha1Rounds.TransformUnrolled1 | src/miner/verusopt/sha2.cpp:317-431 | the unrolled SHA-1 transform computes the same compression as the rolled one |
| ReverseMacros.Reverse32Reverses | thirdparty/trezor-crypto/include/sha2.hpp:74-78 | the 32-bit macro reverses the four bytes |
| ReverseMacros.Reverse64Reverses | thirdparty/trezor-crypto/include/sha2.hpp:79-86 | the 64-bit macro swaps the halves and reverses each |
| ReverseMacros.MacroReverses | thirdparty/trezor-crypto/include/sha2.hpp:74-86 | reading a word from memory, applying its macro and storing it reverses its bytes, for either word size |
| Sha2Bytes.SwappedReadsWords | src/miner/verusopt/sha2.cpp:818-822 | after the reversal in place a little-endian machine reads the big-endian words of the message |
| Sha2Bytes.LengthWords | src/miner/verusopt/sha2.cpp:888-890 | the two counter words stored in host order read as the big-endian length |
| Sha2Stream.AddInc128Adds | src/miner/verusopt/sha2.cpp:105-110 | `ADDINC128` adds modulo 2^128 |
| Sha2Stream.UsedFromCount | src/miner/verusopt/sha2.cpp:805 | the position in the buffer recovered from the wrapped bit counter is the message length modulo the block size |
| Sha2Stream.ZeroBytes | src/miner/verusopt/sha2.cpp:861-880 | the zeros are the fewest that fill whole blocks |
| Sha2Stream.ABlockIsCompleted | src/miner/verusopt/sha2.cpp:810-823 | completing a block compresses exactly what was left over followed by the new data |
| Sha2Stream.OneFinalBlock | src/miner/verusopt/sha2.cpp:879-892 | the one-block padding case absorbs the padded message |
| Sha2Stream.TwoFinalBlocks | src/miner/verusopt/sha2.cpp:864-878 | the two-block padding case absorbs the padded message |
| Sha2Context.Reverse | src/miner/verusopt/sha2.cpp:836-840 | the loop that reads, reverses by the macro and stores each word turns exactly the first k bytes word by word |
| Sha2Context.Context.Update | src/miner/verusopt/sha2.cpp:797-853 | for any data, the context stands for the message so far followed by the data: state, left-over bytes and counter |
| Sha2Context.Context.Finish | src/miner/verusopt/sha2.cpp:1134-1171 | padding and last blocks leave the state that has absorbed the whole padded message |
| Sha2Context.Context.Final | src/miner/verusopt/sha2.cpp:855-907 | the digest is the one FIPS 180-4 defines for everything given to the context; beyond the standard's length limit the length field is the length modulo 2^64, or 2^128 for SHA-512 |
| Sha2Context.HashPieces | src/miner/verusopt/sha2.cpp:797-907 | however a message is cut into updates, the result is the digest of the whole |
| Sha2Hashes.Raw | src/miner/verusopt/sha2.cpp:910-915 | init, one update and final are the digest of the data |
| Sha2Hashes.HashAll | src/miner/verusopt/sha2.cpp:277-1198 | the three functions at their real block sizes, constants and round numbers give their digests for any cutting |
| RootConstants.FirstPrimes | src/miner/verusopt/sha2.cpp:188-262 | the table holds the first eighty primes, in order and without gaps |
| RootConstants.RoundConstants256 | src/miner/verusopt/sha2.cpp:188-205 | the constants of SHA-256 are the first 32 bits of the fractions of the cube roots of the first 64 primes |
| RootConstants.RoundConstants512 | src/miner/verusopt/sha2.cpp:220-262 | those of SHA-512 the first 64 bits for the first 80 |
| RootConstants.InitialValues256 | src/miner/verusopt/sha2.cpp:208-217 | the initial hash value of SHA-256 is from the square roots of the first eight primes |
| RootConstants.InitialValues512 | src/miner/verusopt/sha2.cpp:264-273 | likewise for SHA-512 |
| RootConstants.RoundConstants1 | src/miner/verusopt/sha2.cpp:173-176 | the constants of SHA-1 are the square roots of 2, 3, 5 and 10 to 30 bits |
| RootConstants.InitialValue1 | src/miner/verusopt/sha2.cpp:179-185 | the initial hash value of SHA-1 by the bytes it has in memory |
| Fips180.ChooseByBit32 | src/miner/verusopt/sha2.cpp:144 | Ch has the second word's bits where the first has ones and the third's elsewhere |
| Fips180.MajorityByBit32 | src/miner/verusopt/sha2.cpp:145 | Maj has the bits on which two of the three words agree |
| Fips180.ChooseByBit64 | src/miner/verusopt/sha2.cpp:144 | likewise for 64 bits |
| Fips180.MajorityByBit64 | src/miner/verusopt/sha2.cpp:145 | likewise for 64 bits |
| Fips180.ParityByBit | src/miner/verusopt/sha2.cpp:148 | Parity is the exclusive or of two words, complemented where the third has ones |
| Fips180.UpperSigmas256 | src/miner/verusopt/sha2.cpp:151-152 | the rounds of SHA-256 use these rotations |
| Fips180.LowerSigmas256 | src/miner/verusopt/sha2.cpp:153-154 | and its schedule these |
| Fips180.Logic256 | src/miner/verusopt/sha2.cpp:652-655 | the rounds take Ch of e, f, g and Maj of a, b, c as such |
| Fips180.Constants256 | src/miner/verusopt/sha2.cpp:652-655 | round t adds the constant of the t-th prime, modulo 2^32 |
| Fips180.UpperSigmas512 | src/miner/verusopt/sha2.cpp:157-158 | likewise for SHA-512 |
| Fips180.LowerSigmas512 | src/miner/verusopt/sha2.cpp:159-160 | likewise for SHA-512 |
| Fips180.Logic512 | src/miner/verusopt/sha2.cpp:933-936 | likewise for SHA-512 |
| Fips180.Constants512 | src/miner/verusopt/sha2.cpp:933-936 | likewise for SHA-512 modulo 2^64 |
| Fips180.FunctionsOf1 | src/miner/verusopt/sha2.cpp:287-315 | SHA-1 uses Ch, Parity, Maj and Parity for twenty rounds each |
| Fips180.RotationsOf1 | src/miner/verusopt/sha2.cpp:287-315 | and these rotations |
| Fips180.ConstantsOf1 | src/miner/verusopt/sha2.cpp:287-315 | and the roots of 2, 3, 5 and 10 for twenty rounds each |
| Fips180.FollowsIffCompress | src/miner/verusopt/sha2.cpp:726-793 | the compression of SHA-256 and SHA-512 is exactly the relation of the standard: the schedule with its literal indices, the rounds one by one, and the addition to the old hash value |
| Fips180.FollowsIffCompress1 | src/miner/verusopt/sha2.cpp:436-520 | likewise for SHA-1 |
| Fips180.PadOfFips | src/miner/verusopt/sha2.cpp:855-892 | the padded message: the message, one bit, as few zeros as possible, and the length |
| Fips180.WordOf | src/miner/verusopt/sha2.cpp:818-822 | the big-endian words of a block by their byte positions |
| Fips180.DigestOfChain | src/miner/verusopt/sha2.cpp:797-907 | the digest of the last of any hash values that follow block by block |
| Fips180.Sha256OfFips | src/miner/verusopt/sha2.cpp:797-907 | SHA-256 of any message: from the initial value, through any hash values that follow block by block by the standard's relation, to the eight words in order |
| Fips180.Sha512OfFips | src/miner/verusopt/sha2.cpp:1053-1198 | likewise for SHA-512 |
| Fips180.Sha1OfFips | src/miner/verusopt/sha2.cpp:522-638 | likewise for SHA-1 |

## Left out

- OpenCL calls, kernels and device enumeration, sockets, JSON, logging, clocks, the coordinator and pool plumbing: foreign code or no exact invariant.
- Interleavings of threads inside a destructor: a destructor is one step, with a request by the wakeup callback or without; steps of other threads may come before it and between two of them, but a request while only a dying buffer is left is no step of a run (see `RingTheorems.LateFreeOverlaps`).  Other things a callback could do are not modelled.
- CyclicQueue.Queue.RunCascade: the cascade with a callback that only notes the wakeup; with callbacks that request it is a run of `Release` and `DestroyAsking` steps.
- CyclicQueue.Queue.DestructAsking: if the request succeeds, its handle is kept until after the destructor.
- The words stored in the ring: `CyclicQueue` models who owns which cells, `ResultSpans` what is written to and read from them.
- AES, the carry-less product and the 16-bit multiplications inside `Clhash`, and Haraka and the sponge's compression inside `VerusMiner`, are arbitrary functions; the results hold for every choice of them.
- VerusHasher.JanusIsVerus: the portable and the optimised instructions are the same arbitrary functions here; that the emulated ones compute what the processor's do is not shown.
- VerusHasher.Hasher.Finalize: the choice between the two is left out, and so is reusing a key for an equal seed, which nothing calls.
- VerusMiner.Repeat: proved for any number of rounds that the scratch has room for; the code runs 32.
- VerusMiner.FixupKey: the key with its refresh area and the move scratch are two arrays, while the code lays them out in one allocation.
- Traversal.MineJob: the threshold test, the floating-point target test and the counters are one set of winning candidates.
- JobQueue.Queue.Pop: shared ownership of a job by its batches, and the log line when the queue is drained, are not modelled; a request of 0 on a non-empty queue is excluded, as the code asserts.
- PackedTarget.ComputeTarget: proved for any number of 32-bit words; the code has eight.
- Estimator.OptimalIffNumeratorsFit: speaks of sums that fit 64 bits; `Estimator.EstimateIsOptimalIff` is the statement for all.
- Estimator.EstimateIsOptimalIff: quotients are exact reals, where the code divides doubles.
- JobQueue.ProportionIff: the quotient is an exact real or NaN instead of a double.
- NonceTracker.GpuHasher.GetWorkerRange: the job generator and the random starting offset are parameters.
- Sha2Context.Context.Final: wiping the context afterwards, and skipping everything when no digest buffer is passed, are not modelled.
- Sha2Context.Context.Update: the context's bytes are an array the words are read from, not a word array viewed as bytes.
- Sha1Rounds.TransformUnrolled1: the code repeats its macros eighty times; here the groups of five are a loop.
- Sha2Rounds.TransformUnrolled: each group of eight schedule words is expanded before its eight rounds instead of one word per round.
- Hashrate averaging, GPU list parsing, address splitting: only easy members.
