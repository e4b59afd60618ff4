# Proofs about the AFL++ fuzzing engine

The repository vendors the AFL++ fuzzing engine. This project models its most
intricate parts in Dafny and proves what they promise. Each part is one or a
few modules:

- **Hashing** (`include/xxhash.h`, `include/t1ha_bits.h`). `Xxh3` has the XXH3
  one-shot hash and the buffered streaming state as a class, and proves that
  every run of resets, updates and digests returns one-shot hashes. `Xxh3Kernels`
  proves the scalar, SSE2 and AVX2 kernels equal and the portable 128-bit
  products exact. `Xxh3Short` has the 128-bit hash of inputs of up to 16 bytes and
  proves that no two contributions of a secret give one hash. `XxhStripes` does the
  streaming theorem for XXH32 and XXH64, whose rounds are in `XxhRounds`;
  `XxhInverses` undoes the finishing steps and `XxhExamples` has the rounds on
  simple operands.
- **Corpus minimisation** (`afl-cmin.py`). `CminWorkers` is a step system of
  dispatcher, workers, queues and main, with its invariants, progress and
  termination; `CminSelect` is the two-pass greedy choice. Together: for every
  interleaving the kept files cover the corpus, and each is kept for a tuple that
  occurs once or for a rarest one still missing.
- **Havoc mutation** (`include/afl-mutations.h`). `Havoc` is the in-place buffer
  rewriter with all its cases, `HavocPoke` the byte and word mutations,
  `HavocShuffle` the Sattolo shuffle, `HavocNumber` the decimal number rewriter
  and `HavocReadBack` what reads back of what it wrote.
- **Element lists** (`include/list.h`, `include/afl-prealloc.h`). `LinkedList` is
  the circular doubly linked list on heap objects with its pool of 64 slots.
- **Coverage maps** (`include/coverage-64.h`, `include/coverage-32.h`,
  `src/afl-fuzz-bitmap.c`). `Coverage` and `CoverageMaps` relate the kernels that
  work a word at a time to a meaning byte by byte.
- **LTO instrumentation** (`instrumentation/SanitizerCoverageLTO.so.cc`).
  `LtoIds` is the allocation of coverage IDs; `LtoPrune` is the choice of blocks
  to instrument, with a proof that what is left out can be told from the rest.
- **Growing buffers** (`include/alloc-inl.h`). `AflAlloc` has `next_pow2` and
  `afl_realloc` with an account of the bytes moved.

`Arith`, `Binary`, `BitOps`, `Bytes` and `Sequences` hold what these share.
`dafny verify dfyconfig.toml` checks everything.

## What the code does where one might expect otherwise

- The 128-bit XXH3 digest tests `seed` where the 64-bit one tests `useSeed`
  (`xxhash.h:7856`), so with a secret and seed 0 it hashes short inputs with
  another secret than the one-shot function does. `Xxh3.Digest128Exact` says which
  calls this can matter for; for inputs of at most 16 bytes
  `Xxh3Short.ShortDigestExact` says which secrets it does matter for.
- `MUT_ARITH32BE` swaps the bytes after the addition, so it adds to the
  little-endian word; `HavocPoke.Arith32BigEndian`.
- What `MUT_ASCIINUM` writes need not read as the new value: it leaves a minus
  sign in front of the number and the digits behind it that did not fit, and it
  may write `INT64_MIN`, which its own reader cannot read.
  `HavocReadBack.ReadsBack` says exactly when the value is read back.
  The test for `INT64_MIN` in its strategy 1 can never be true.
- `next_pow2` stops smearing at `>> 16`, so above 2^32 its result need not be a
  power of two although its comment says so; `AflAlloc.NextPow2Exact`.
- `afl_realloc` does not fail for a request of 0 bytes, as its comment says, but
  allocates 64 (`AflAlloc.RequestLittle`); it returns NULL exactly when realloc
  fails, or when the request wraps to 0 bytes in all and there is no buffer yet.
- `has_new_bits_unclassified` may classify the trace and still return 0, against
  its comment: `skim` looks at the whole map, `has_new_bits` only up to
  `real_map_size`. `CoverageMaps.HasNewBitsUnclassified` says exactly when this
  happens, and `CoverageMaps.CommentBroken` gives a trace with which it does.
- With context instrumentation on, the blocks of a function with at most one
  caller get no IDs; `LtoIds.Chosen` follows the code.
- `PRE_ALLOC` would return the last slot if its search found none free; that this
  never happens rests on the counter invariant alone (`LinkedList.PreAlloc`).

## Model

| member | source | states |
|---|---|---|
| `Xxh3.Run` | fuzzing-engine/AFLplusplus/include/xxhash.h:6933-7247 | every allowed run of resets, updates and digests on one state returns, for each 64-bit digest, the one-shot hash of the bytes fed since the last reset, and for each 128-bit digest the hash that `Streamed128` names, for every kernel and every secret of at least 136 bytes |
| `Xxh3.ChunkingIsIrrelevant` | fuzzing-engine/AFLplusplus/include/xxhash.h:7084-7247 | however an input is cut into chunks, reset, updates and either digest are allowed and give the digest of the whole |
| `Xxh3.State.constructor` | fuzzing-engine/AFLplusplus/include/xxhash.h:1866-1897 | a new state satisfies the rule for the cached derived secret |
| `Xxh3.State.ResetInternal` | fuzzing-engine/AFLplusplus/include/xxhash.h:6933-6958 | from any state, the reset one stands for no bytes in the mode whose seed and secret it is given (once useSeed is set, where that mode asks for it), and the cached secret is not stale |
| `Xxh3.State.Reset` | fuzzing-engine/AFLplusplus/include/xxhash.h:6961-6968 | the state stands for the default mode and no bytes |
| `Xxh3.State.ResetWithSecret` | fuzzing-engine/AFLplusplus/include/xxhash.h:6971-6981 | succeeds exactly for a secret of at least 136 bytes; even after an error the cache rule holds |
| `Xxh3.State.ResetWithSeed` | fuzzing-engine/AFLplusplus/include/xxhash.h:6984-6994 | the state stands for this seed although the derived secret is rebuilt only when the cached one does not fit |
| `Xxh3.State.ResetWithSecretAndSeed` | fuzzing-engine/AFLplusplus/include/xxhash.h:6997-7008 | succeeds exactly for a good secret, and otherwise changes nothing |
| `Xxh3.State.Update` | fuzzing-engine/AFLplusplus/include/xxhash.h:7084-7173 | the bytes fed become old + input, and accumulators, buffer and kept last stripe still represent them |
| `Xxh3.State.UpdateLong` | fuzzing-engine/AFLplusplus/include/xxhash.h:7123-7168 | the same for inputs that overflow the buffer: buffer flushed, whole stripes consumed, last stripe and tail kept |
| `Xxh3.State.UpdateShort` | fuzzing-engine/AFLplusplus/include/xxhash.h:7114-7121 | an input that fits the buffer is appended to it and nothing else changes |
| `Xxh3.LengthAdded` | fuzzing-engine/AFLplusplus/include/xxhash.h:7111 | the 64-bit total is the number of bytes fed modulo 2^64, over any number of updates |
| `Xxh3.ConsumeAll` | fuzzing-engine/AFLplusplus/include/xxhash.h:7123-7168 | flushing the buffer, consuming the input and buffering the tail keep accumulators and buffer in step with the bytes fed |
| `Xxh3.FlushBuffer` | fuzzing-engine/AFLplusplus/include/xxhash.h:7129-7144 | the topped-up buffer is consumed as the next four stripes of the input |
| `Xxh3.ConsumeInput` | fuzzing-engine/AFLplusplus/include/xxhash.h:7146-7156 | a long run is consumed straight from the input and its last stripe is kept at the end of the buffer |
| `Xxh3.ConsumeStripes` | fuzzing-engine/AFLplusplus/include/xxhash.h:7029-7078 | accumulating up to each block end, scrambling there, and carrying the position on is the stripe-by-stripe fold |
| `Xxh3.Accumulate` | fuzzing-engine/AFLplusplus/include/xxhash.h:5346-5361 | the stripe loop is the fold of one-stripe steps |
| `Xxh3.DigestLong` | fuzzing-engine/AFLplusplus/include/xxhash.h:7184-7224 | the digest of the buffered state is the one-shot accumulator of all bytes fed, total (len-1)/64 stripes, and the last stripe is rebuilt when fewer than 64 bytes are buffered |
| `Xxh3.Remaining` | fuzzing-engine/AFLplusplus/include/xxhash.h:7184-7218 | what is taken out of the buffer: the stripes still to consume and the last 64 bytes of the input |
| `Xxh3.State.Digest64` | fuzzing-engine/AFLplusplus/include/xxhash.h:7226-7247 | the 64-bit digest is the one-shot hash of the bytes fed; past 2^64 bytes it still hashes all of them, with the wrapped length mixed in, when that is above 240 |
| `Xxh3.State.Digest128` | fuzzing-engine/AFLplusplus/include/xxhash.h:7829-7862 | what the 128-bit digest computes, testing seed instead of useSeed |
| `Xxh3.Digest128Exact` | fuzzing-engine/AFLplusplus/include/xxhash.h:7829-7862 | the digest equals the 128-bit one-shot hash whatever the kernel's hash functions are if and only if the call is not: secret-and-seed with seed 0 and a secret other than the default one, at most 240 bytes |
| `Xxh3.Digest128Agrees` | fuzzing-engine/AFLplusplus/include/xxhash.h:7829-7862 | outside that family streaming and one-shot agree for any given kernel |
| `Xxh3Short.ShortDigestExact` | fuzzing-engine/AFLplusplus/include/xxhash.h:7829-7862 | inside that family, for the real hash of every input of at most 16 bytes: the digest equals the one-shot hash if and only if the given secret and the default one have the same bitflips, exclusive ors of a few words that a caller can compute |
| `Xxh3Short.DigestShort` | fuzzing-engine/AFLplusplus/include/xxhash.h:7829-7862 | reset, update and digest return that hash, and it is the one-shot hash exactly then |
| `Xxh3Short.ByteChangesDigest` | fuzzing-engine/AFLplusplus/include/xxhash.h:7427-7446 | of a secret that differs from the default one in one byte, with seed 0: the digest of an input of at most 16 bytes differs from the one-shot hash if and only if that byte is one of the 16 or 32 that are read for this length |
| `Xxh3Short.ByteChangesHash` | fuzzing-engine/AFLplusplus/include/xxhash.h:7427-7446 | changing one byte of a secret changes the hash exactly if the byte is read for this length |
| `Xxh3Short.ByteCounts` | fuzzing-engine/AFLplusplus/include/xxhash.h:7269-7446 | which bytes of the secret make the bitflips of which lengths: 0..15 for 1 to 3 bytes, 16..31 for 4 to 8, 32..63 for 9 to 16, 64..95 for none |
| `Xxh3Short.CombinedIs` | fuzzing-engine/AFLplusplus/include/xxhash.h:7269-7284 | first, middle and last byte and the length each have their place in the combined word |
| `Xxh3Short.SwapReverses` | fuzzing-engine/AFLplusplus/include/xxhash.h:2956-2965 | a swapped word has its bytes in the other order |
| `Xxh3Short.SameShortHash` | fuzzing-engine/AFLplusplus/include/xxhash.h:7427-7446 | for every input of at most 16 bytes two secrets give one 128-bit hash if and only if they give the same bitflips: nothing is lost in mixing |
| `Xxh3Short.Mix4to8Injective` | fuzzing-engine/AFLplusplus/include/xxhash.h:7302-7334 | the mixing of 4 to 8 bytes maps no two keyed inputs to one hash, through a 64x64->128 product, additions and two avalanches |
| `Xxh3Short.Mix9to16Injective` | fuzzing-engine/AFLplusplus/include/xxhash.h:7336-7423 | the mixing of 9 to 16 bytes, with its two 128-bit products and byte swap, maps no two pairs of bitflips to one hash |
| `Xxh3Short.SpreadForms` | fuzzing-engine/AFLplusplus/include/xxhash.h:7376-7413 | the 32-bit and the 64-bit form of the middle step are the same |
| `Xxh3Short.AvalancheInjective` | fuzzing-engine/AFLplusplus/include/xxhash.h:3736-3745 | the XXH64 avalanche is injective |
| `Xxh3Short.OddMulInjective` | fuzzing-engine/AFLplusplus/include/xxhash.h:3736-3745 | multiplying by an odd number modulo a power of two can be undone |
| `XxhInverses.Avalanche64Undone` | fuzzing-engine/AFLplusplus/include/xxhash.h:3736-3745 | the XXH64 avalanche is undone by the inverse shifts and the inverse primes |
| `XxhInverses.Avalanche32Undone` | fuzzing-engine/AFLplusplus/include/xxhash.h:3142-3151 | the same for the XXH32 avalanche |
| `XxhInverses.Avalanche3Undone` | fuzzing-engine/AFLplusplus/include/xxhash.h:4962-4969 | the same for the XXH3 avalanche |
| `XxhInverses.ScrambleUndone` | fuzzing-engine/AFLplusplus/include/xxhash.h:6371-6401 | a scrambled lane gives the lane back, for every key |
| `XxhInverses.Product4to8Kept` | fuzzing-engine/AFLplusplus/include/xxhash.h:7302-7334 | the hash of 4 to 8 bytes still holds the whole 128-bit product of the keyed input and PRIME64_1 + 4 * len |
| `XxhInverses.Halves9to16Kept` | fuzzing-engine/AFLplusplus/include/xxhash.h:7336-7423 | the hash of 9 to 16 bytes still holds the first product, with length and upper half of the input added |
| `XxhInverses.ShiftUndone` | fuzzing-engine/AFLplusplus/include/xxhash.h:4951-4956 | x ^ (x >> k) is undone by taking in the shift and its double |
| `Xxh3.HashLongLoop` | fuzzing-engine/AFLplusplus/include/xxhash.h:6533-6580 | the block loop of the one-shot hash is the same stripe-by-stripe fold |
| `Xxh3.StripesFit` | fuzzing-engine/AFLplusplus/include/xxhash.h:6538-6539 | a block has as many stripes as have a key of their own within the secret, and no more |
| `Xxh3.AccumulateBlocks` | fuzzing-engine/AFLplusplus/include/xxhash.h:6547-6552 | blocks, each ended by a scramble, are a prefix of the fold |
| `Xxh3.SplitBlocks` | fuzzing-engine/AFLplusplus/include/xxhash.h:6538-6560 | block count and left-over stripes add up to (len-1)/64 stripes |
| `Xxh3.OneShot` | fuzzing-engine/AFLplusplus/include/xxhash.h:6738-6805 | all four one-shot entry points compute the reference hash of their mode |
| `Xxh3.PositionIsModulo` | fuzzing-engine/AFLplusplus/include/xxhash.h:7029-7078 | the position within a block that is carried on is the number of stripes modulo the block length |
| `Xxh3.LastStripe` | fuzzing-engine/AFLplusplus/include/xxhash.h:7196-7218 | last stripe and remaining stripes of a long input are both in the buffer |
| `Xxh3.SecretFromSeed` | fuzzing-engine/AFLplusplus/include/xxhash.h:8003-8011 | secret-and-seed hashing with the secret generated from a seed equals hashing with that seed |
| `Xxh3Kernels.AccumulateScalar` | fuzzing-engine/AFLplusplus/include/xxhash.h:6307-6341 | the scalar lane loop in place is the lane-wise reference for every accumulator, input and secret |
| `Xxh3Kernels.ScrambleScalar` | fuzzing-engine/AFLplusplus/include/xxhash.h:6371-6401 | the same for scrambling |
| `Xxh3Kernels.AccumulateVector` | fuzzing-engine/AFLplusplus/include/xxhash.h:5669-5704 | one 128-bit vector step of shuffles, multiplications and additions is two lanes of the reference |
| `Xxh3Kernels.ScrambleVector` | fuzzing-engine/AFLplusplus/include/xxhash.h:5711-5749 | the split 32-bit multiplications of one vector step are two lanes of the reference |
| `Xxh3Kernels.AccumulateSimd` | fuzzing-engine/AFLplusplus/include/xxhash.h:5540-5704 | the SSE2 and the AVX2 loop equal the scalar kernel |
| `Xxh3Kernels.ScrambleSimd` | fuzzing-engine/AFLplusplus/include/xxhash.h:5584-5749 | the same for scrambling |
| `Xxh3Kernels.SplitProduct` | fuzzing-engine/AFLplusplus/include/xxhash.h:5732-5746 | a 64-bit product from two 32-bit halves, modulo 2^64 |
| `Xxh3Kernels.DerivedFromZero` | fuzzing-engine/AFLplusplus/include/xxhash.h:6403-6470 | the secret derived from seed 0 is the default secret |
| `Xxh3Kernels.DerivedWords` | fuzzing-engine/AFLplusplus/include/xxhash.h:6403-6470 | even words of the derived secret are those of the default one plus the seed, odd ones minus the seed |
| `Xxh3Kernels.ProductIs` | fuzzing-engine/AFLplusplus/include/xxhash.h:6307-6341 | data and key count by their exclusive or, whose two halves are multiplied |
| `Xxh3Kernels.PartnerIsXor` | fuzzing-engine/AFLplusplus/include/xxhash.h:6307-6341 | the partner lane is lane ^ 1 |
| `Xxh3Kernels.InitSecretScalar` | fuzzing-engine/AFLplusplus/include/xxhash.h:6403-6470 | the loop of additions and subtractions writes the derived secret |
| `Xxh3Kernels.InitSecretSimd` | fuzzing-engine/AFLplusplus/include/xxhash.h:5620-5795 | the SSE2 and the AVX2 form, which add a vector of the seed and its negation, write the same secret |
| `Xxh3Kernels.GeneratedSecret` | fuzzing-engine/AFLplusplus/include/xxhash.h:8003-8011 | for the real lanes and derived secret: a secret generated from a seed, with that seed, hashes like the seed |
| `Xxh3Kernels.Mult64to128Exact` | fuzzing-engine/AFLplusplus/include/xxhash.h:4805-4927 | the portable 64x64->128 multiplication loses no carry |
| `Xxh3Kernels.Mul64x64Exact` | fuzzing-engine/AFLplusplus/include/t1ha_bits.h:1117-1203 | the same for the one in t1ha, with its explicit carries |
| `Binary.WriteReadLE` | fuzzing-engine/AFLplusplus/include/xxhash.h:5363-5370 | writing a little-endian word that was read gives the bytes back |
| `Binary.ByteOfRead` | fuzzing-engine/AFLplusplus/include/xxhash.h:2987-2993 | byte k of a little-endian word counts 256^k |
| `XxhStripes.OneShot` | fuzzing-engine/AFLplusplus/include/xxhash.h:3295-3338 | the one-shot loop over whole stripes is the reference hash (XXH32; XXH64 has the same form) |
| `XxhStripes.CutAppend` | fuzzing-engine/AFLplusplus/include/xxhash.h:3407-3484 | cutting what is left over together with what follows is cutting the whole |
| `XxhStripes.Absorber.Absorb` | fuzzing-engine/AFLplusplus/include/xxhash.h:3407-3484 | one update keeps: accumulators = fold of the whole stripes so far, buffer = the rest of fewer than a stripe |
| `XxhStripes.State32.Update` | fuzzing-engine/AFLplusplus/include/xxhash.h:3407-3484 | after an update the XXH32 state represents old bytes + input, with total_len_32 wrapping and large_len remembering |
| `XxhStripes.State32.Digest` | fuzzing-engine/AFLplusplus/include/xxhash.h:3487-3507 | the XXH32 digest is the one-shot hash for any total length |
| `XxhStripes.State64.Update` | fuzzing-engine/AFLplusplus/include/xxhash.h:3934-4001 | after an update the XXH64 state represents old bytes + input |
| `XxhStripes.State64.Digest` | fuzzing-engine/AFLplusplus/include/xxhash.h:4004-4029 | the XXH64 digest is the one-shot hash while the total is below 2^64 |
| `XxhStripes.LargeLength` | fuzzing-engine/AFLplusplus/include/xxhash.h:3421-3424 | large_len is set exactly when at least one stripe was ever fed, wrap-around included |
| `XxhStripes.HashChunks32` | fuzzing-engine/AFLplusplus/include/xxhash.h:3407-3507 | for every chunking of any input XXH32 streaming gives the one-shot hash |
| `XxhStripes.HashChunks64` | fuzzing-engine/AFLplusplus/include/xxhash.h:3934-4029 | for every chunking of an input below 2^64 bytes XXH64 streaming gives the one-shot hash |
| `XxhRounds.SmallIsSeed32` | fuzzing-engine/AFLplusplus/include/xxhash.h:3487-3507 | the XXH32 rounds fit the streaming theorem, and the digest of a short input starts from seed + PRIME32_5 as the one-shot hash does |
| `XxhRounds.SmallIsSeed64` | fuzzing-engine/AFLplusplus/include/xxhash.h:4004-4029 | the same for XXH64 |
| `XxhRounds.Finalize32` | fuzzing-engine/AFLplusplus/include/xxhash.h:3170-3211 | the compact loop over words and bytes is the reference tail |
| `XxhRounds.Finalize32Jump` | fuzzing-engine/AFLplusplus/include/xxhash.h:3213-3276 | the switch that falls through gives the same hash for every length below 16 |
| `XxhRounds.Finalize64` | fuzzing-engine/AFLplusplus/include/xxhash.h:3763-3798 | the loops over words and bytes with one half word between are the reference tail |
| `XxhRounds.Stripe32Lanes` | fuzzing-engine/AFLplusplus/include/xxhash.h:3295-3338 | a stripe is four words of four bytes, one for each lane, and the length is counted modulo 2^32 |
| `XxhRounds.Stripe64Lanes` | fuzzing-engine/AFLplusplus/include/xxhash.h:3826-3847 | the same with eight bytes and 2^64 |
| `XxhExamples.SmallLanes32` | fuzzing-engine/AFLplusplus/include/xxhash.h:3295-3338 | small lanes converge to 2a + 128b + 4096c + 262144d |
| `XxhExamples.SmallLanes64` | fuzzing-engine/AFLplusplus/include/xxhash.h:3820-3870 | the same for XXH64 |
| `XxhExamples.WordFromZero` | fuzzing-engine/AFLplusplus/include/xxhash.h:3749-3796 | what a word of eight makes of a hash of 0 |
| `CminWorkers.EveryRun` | fuzzing-engine/AFLplusplus/afl-cmin.py:498-587 | in every state of every interleaving the invariants hold, some step is possible unless main is done, and a finished run has exactly 2 steps per batch, 2 per file and 3 per worker; main has then noted each file whose trace is empty exactly once, and no other |
| `CminWorkers.AllCrashes` | fuzzing-engine/AFLplusplus/afl-cmin.py:813-822 | the lists of crashes that main joins hold each file whose trace is empty exactly once, whichever worker had it, and no other file |
| `CminWorkers.BatchesShape` | fuzzing-engine/AFLplusplus/afl-cmin.py:794-795 | each batch has the next `chunk` files, the last one what is left |
| `CminWorkers.Minimise` | fuzzing-engine/AFLplusplus/afl-cmin.py:774-948 | for every interleaving and every assignment of batches: the kept files cover the corpus, none is kept twice; the first ones are exactly those that hold a tuple occurring once and are in every covering choice; each later one is the smallest holder of a tuple that was still missing and than which no missing tuple occurs more rarely |
| `CminWorkers.StepInv` | fuzzing-engine/AFLplusplus/afl-cmin.py:498-587 | every step keeps: each file is in exactly one place, each worker stops on one sentinel after all batches, one progress message per file, tables hold the smallest file seen |
| `CminWorkers.RunInv` | fuzzing-engine/AFLplusplus/afl-cmin.py:498-587 | the invariants over whole runs, each step using up one unit of work |
| `CminWorkers.NoDeadlock` | fuzzing-engine/AFLplusplus/afl-cmin.py:774-821 | until main has all it waits for, some step is possible |
| `CminWorkers.StepRemaining` | fuzzing-engine/AFLplusplus/afl-cmin.py:498-587 | every step uses up exactly one unit of the remaining work |
| `CminWorkers.WorkerProcess.constructor` | fuzzing-engine/AFLplusplus/afl-cmin.py:538-548 | a new process is the worker that the step system starts with; its table and its crash list are right for a worker that has seen no file |
| `CminWorkers.WorkerProcess.Handle` | fuzzing-engine/AFLplusplus/afl-cmin.py:555-585 | one round of the worker loop: table, counter, crashes, pack and message are those of the step system |
| `CminWorkers.LowerAll` | fuzzing-engine/AFLplusplus/afl-cmin.py:575-579 | the inner loop lowers each entry of the trace to the file index and tells whether any was lowered |
| `CminWorkers.MinColumns` | fuzzing-engine/AFLplusplus/afl-cmin.py:813-822 | the merged table is the minimum over the workers, tuple by tuple |
| `CminWorkers.MergeBest` | fuzzing-engine/AFLplusplus/afl-cmin.py:803-822 | the merged table names the globally smallest file of every tuple, and that file has a trace_info entry |
| `CminWorkers.LeastIsBest` | fuzzing-engine/AFLplusplus/afl-cmin.py:813-822 | the least entry over all workers is the smallest file holding the tuple |
| `CminSelect.OccurrencesMeaning` | fuzzing-engine/AFLplusplus/afl-cmin.py:815-839 | a tuple counted once over all files is held by one file only |
| `CminSelect.OccurrencesPermute` | fuzzing-engine/AFLplusplus/afl-cmin.py:815-822 | the count of a tuple does not depend on the order in which the files were handled |
| `CminSelect.TotalMeaning` | fuzzing-engine/AFLplusplus/afl-cmin.py:815-839 | a tuple has a count exactly if a file holds it, and a count of 1 means a single holder |
| `CminWorkers.CountedIsTotal` | fuzzing-engine/AFLplusplus/afl-cmin.py:815-822 | the workers' counters add up to the counts of the corpus, whichever worker had which file |
| `CminWorkers.RankingHolds` | fuzzing-engine/AFLplusplus/afl-cmin.py:815-839 | most_common lists every tuple of the corpus with its count, the commonest first |
| `CminSelect.FirstPass` | fuzzing-engine/AFLplusplus/afl-cmin.py:901-915 | keeps exactly the files that hold a tuple counted once, each once, in the order of those tuples, and gives each to the combine worker that can read it |
| `CminSelect.CombineTraces` | fuzzing-engine/AFLplusplus/afl-cmin.py:590-609 | one combine worker returns the union of the traces it is told to read |
| `CminSelect.Combine` | fuzzing-engine/AFLplusplus/afl-cmin.py:917-932 | the combined set is exactly what the kept files hold |
| `CminSelect.SecondPass` | fuzzing-engine/AFLplusplus/afl-cmin.py:934-948 | each save is the best file of the last tuple of the order that is not yet held, all tuples after it being held; no file is kept twice although there is no test for that; at the end every tuple is held |
| `CminSelect.Select` | fuzzing-engine/AFLplusplus/afl-cmin.py:901-948 | both passes together: cover, the first-pass files and their necessity, and each later file the smallest holder of a rarest tuple still missing |
| `CminSelect.PickedIsRarest` | fuzzing-engine/AFLplusplus/afl-cmin.py:934-948 | the last tuple of the order that is missing is a rarest one missing |
| `CminSelect.DetectItemSize` | fuzzing-engine/AFLplusplus/afl-cmin.py:304-307 | the narrowest type code that can hold the size |
| `CminSelect.MaxValueIs` | fuzzing-engine/AFLplusplus/afl-cmin.py:304-307 | the largest value of a type code is 256^itemsize - 1 |
| `CminSelect.EncodeInjective` | fuzzing-engine/AFLplusplus/afl-cmin.py:457-473 | the tuple numbering is injective and fits the table |
| `Havoc.Mutate` | fuzzing-engine/AFLplusplus/include/afl-mutations.h:1797-2735 | for any mutations drawn and any random numbers: the final bytes are what the drawn mutations make of the given ones, in order, each made or given up for a reason it had; as many are made as steps asked for unless the draws run out, and none is drawn after the last; 1 <= len <= max_len; 0 bytes are left alone |
| `Havoc.RanMore` | fuzzing-engine/AFLplusplus/include/afl-mutations.h:1863-2731 | one more draw makes one more edit of its mutation, or none if it is given up |
| `Havoc.Step` | fuzzing-engine/AFLplusplus/include/afl-mutations.h:1866-2731 | one step makes an edit of its mutation or is retried for one of the stated reasons; the length stays in range |
| `Havoc.ChooseBlockLen` | fuzzing-engine/AFLplusplus/include/afl-mutations.h:1760-1795 | a length of one of the four tiers that queue cycle and run time open, cut at the limit; never 0, with the u32 subtraction wrapping for limit 0 |
| `Havoc.StepOverwrite` | fuzzing-engine/AFLplusplus/include/afl-mutations.h:1871-2231 | byte, word and dword mutations overwrite exactly the bytes their meaning says |
| `Havoc.StepClone` | fuzzing-engine/AFLplusplus/include/afl-mutations.h:2089-2167 | inserts a copied or constant block between head and tail |
| `Havoc.StepOverwriteCopy` | fuzzing-engine/AFLplusplus/include/afl-mutations.h:2169-2187 | overwrites a block with another one of the same buffer |
| `Havoc.StepOverwriteFixed` | fuzzing-engine/AFLplusplus/include/afl-mutations.h:2189-2204 | overwrites a block with one value |
| `Havoc.StepSwitch` | fuzzing-engine/AFLplusplus/include/afl-mutations.h:2233-2275 | exchanges two disjoint blocks |
| `Havoc.ChooseSwitch` | fuzzing-engine/AFLplusplus/include/afl-mutations.h:2233-2259 | two different places, and a length that keeps the blocks disjoint and within the buffer |
| `Havoc.StepDelete` | fuzzing-engine/AFLplusplus/include/afl-mutations.h:2277-2340 | head + tail, never everything |
| `Havoc.StepShuffle` | fuzzing-engine/AFLplusplus/include/afl-mutations.h:2295-2321 | permutes one block by a single cycle |
| `Havoc.StepInsertOne` | fuzzing-engine/AFLplusplus/include/afl-mutations.h:2342-2369 | inserts one byte, or retries at max_len |
| `Havoc.NewNumber` | fuzzing-engine/AFLplusplus/include/afl-mutations.h:2371-2515 | the number found, read and changed: the longest digits that fit 64 bits, less one where the strategy could overflow |
| `Havoc.StepAsciiNum` | fuzzing-engine/AFLplusplus/include/afl-mutations.h:2371-2550 | head + decimal(val) + tail |
| `Havoc.StepInsertAsciiNum` | fuzzing-engine/AFLplusplus/include/afl-mutations.h:2552-2593 | overwrites with the last digits of a random 64-bit number |
| `Havoc.StepExtra` | fuzzing-engine/AFLplusplus/include/afl-mutations.h:2595-2673 | overwrites with or inserts a dictionary entry |
| `Havoc.StepSpliceOverwrite` | fuzzing-engine/AFLplusplus/include/afl-mutations.h:2675-2693 | overwrites with a part of the other input no longer than the buffer |
| `Havoc.StepSpliceInsert` | fuzzing-engine/AFLplusplus/include/afl-mutations.h:2695-2729 | inserts a part of the other input, or retries for lack of room |
| `Havoc.ReplaceBlock` | fuzzing-engine/AFLplusplus/include/afl-mutations.h:2101-2113 | the three copies through tmp_buf are head + block + tail |
| `Havoc.DeleteBlock` | fuzzing-engine/AFLplusplus/include/afl-mutations.h:2283-2290 | one memmove is head + tail |
| `Havoc.InsertInPlace` | fuzzing-engine/AFLplusplus/include/afl-mutations.h:2624-2629 | memmove and memcpy are head + block + tail |
| `Havoc.SwitchBlocks` | fuzzing-engine/AFLplusplus/include/afl-mutations.h:2262-2273 | backup and two copies exchange the blocks |
| `HavocPoke.NewBytes` | fuzzing-engine/AFLplusplus/include/afl-mutations.h:1871-2231 | the new bytes of each of the 20 in-place mutations, in its byte order |
| `HavocPoke.ArithPokes` | fuzzing-engine/AFLplusplus/include/afl-mutations.h:1944-2074 | swap, add, swap is addition in the other byte order; the 32-bit big-endian addition is a little-endian one |
| `HavocPoke.PlusMinus` | fuzzing-engine/AFLplusplus/include/afl-mutations.h:1944-2074 | subtracting takes back what was added, modulo the word size |
| `HavocPoke.Arith32BigEndian` | fuzzing-engine/AFLplusplus/include/afl-mutations.h:2062-2074 | MUT_ARITH32BE gives the big-endian sum if and only if 1 is added to 0xffffffff |
| `HavocPoke.InterestingValues` | fuzzing-engine/AFLplusplus/include/config.h:368-406 | the interesting values are those around the overflows of 8, 16 and 32 bits, the buffer sizes, two numbers of bytes 05 ff ff 05 and their complement, and the infinite float |
| `HavocShuffle.Shuffle` | fuzzing-engine/AFLplusplus/include/afl-mutations.h:2295-2321 | the loop applies a permutation that is one single cycle and changes nothing outside the block |
| `HavocShuffle.JoinCycles` | fuzzing-engine/AFLplusplus/include/afl-mutations.h:2304-2317 | each exchange joins the cycle of i into that of j |
| `HavocShuffle.NothingStays` | fuzzing-engine/AFLplusplus/include/afl-mutations.h:2295-2321 | for a block of two or more no position keeps its element |
| `HavocNumber.FindNumber` | fuzzing-engine/AFLplusplus/include/afl-mutations.h:2375-2407 | the first digit from the given place on, going around once: no digit lies between; none exactly when there is no digit |
| `HavocNumber.TenDigits` | fuzzing-engine/AFLplusplus/include/afl-mutations.h:2377-2434 | the digits that are looked for are the ten characters that numbers are written with |
| `HavocNumber.ReadNumber` | fuzzing-engine/AFLplusplus/include/afl-mutations.h:2409-2434 | the value of the longest prefix of the digits that fits int64 |
| `HavocNumber.Change` | fuzzing-engine/AFLplusplus/include/afl-mutations.h:2436-2514 | all eight strategies stay in int64 and do what they say, to the number read or, exactly where they could overflow, to it less its last digit; off < off2 stays true |
| `HavocNumber.ValueOfDigits` | fuzzing-engine/AFLplusplus/include/afl-mutations.h:2516-2519 | the decimal text of a number reads as that number |
| `HavocNumber.DecimalFits` | fuzzing-engine/AFLplusplus/include/afl-mutations.h:2516-2519 | a 64-bit number takes at most 20 characters of the 32-byte buffer |
| `HavocReadBack.ReadsBack` | fuzzing-engine/AFLplusplus/include/afl-mutations.h:2516-2548 | wherever the mutator's own reader stops in the text written, it has read the new value if and only if that is not INT64_MIN, no minus sign is left before a positive value, and no digit behind it joins in |
| `HavocReadBack.WriteAndRead` | fuzzing-engine/AFLplusplus/include/afl-mutations.h:2409-2548 | writing the number and reading it again with the same loop gives it back exactly then |
| `HavocReadBack.ReadOn` | fuzzing-engine/AFLplusplus/include/afl-mutations.h:2409-2434 | a reader takes at least a number that fits, and gets its value exactly when no digit behind changes it |
| `HavocReadBack.KeptMinus` | fuzzing-engine/AFLplusplus/include/afl-mutations.h:2436-2548 | for example "-1" changed to 1 still reads -1 |
| `HavocReadBack.JoinedDigit` | fuzzing-engine/AFLplusplus/include/afl-mutations.h:2436-2548 | for example 9223372036854775807 with a 9 behind it, of which strategy 4 may make "79", which does not read as the 7 that was drawn |
| `HavocReadBack.NoReading` | fuzzing-engine/AFLplusplus/include/afl-mutations.h:2436-2548 | for example 9223372036854775807, of which strategy 7 makes INT64_MIN, which no reader gets |
| `LinkedList.Run` | fuzzing-engine/AFLplusplus/include/list.h:64-176 | every run of appends, removes, contains and traversals with removal puts out what the same run on a plain sequence does |
| `LinkedList.List.constructor` | fuzzing-engine/AFLplusplus/include/list.h:50-55 | a zeroed list is not yet initialised |
| `LinkedList.List.Append` | fuzzing-engine/AFLplusplus/include/list.h:70-94 | appends to the sequence; the ring, the pool and its counter stay consistent |
| `LinkedList.List.Remove` | fuzzing-engine/AFLplusplus/include/list.h:143-162 | drops the first match, or reports that there is none |
| `LinkedList.List.Contains` | fuzzing-engine/AFLplusplus/include/list.h:166-176 | membership |
| `LinkedList.List.ForEach` | fuzzing-engine/AFLplusplus/include/list.h:101-139 | visits the elements in order up to a return from the block, and leaves exactly those visited that the block did not remove and all the others; the block decides by visit number and value |
| `LinkedList.ClearEmpties` | fuzzing-engine/AFLplusplus/include/list.h:130-139 | LIST_FOREACH_CLEAR visits every element and leaves the list empty |
| `LinkedList.RemoveIsForEach` | fuzzing-engine/AFLplusplus/include/list.h:143-162 | list_remove is a LIST_FOREACH that removes the first match and returns: it drops that one and no other |
| `LinkedList.LinkLast` | fuzzing-engine/AFLplusplus/include/list.h:88-92 | the four assignments keep a circular doubly linked chain |
| `LinkedList.Unlink` | fuzzing-engine/AFLplusplus/include/list.h:119-126 | taking an element out keeps a circular doubly linked chain of the others |
| `LinkedList.Traverse` | fuzzing-engine/AFLplusplus/include/list.h:101-117 | the loop of LIST_FOREACH with removal of the current element |
| `LinkedList.Find` | fuzzing-engine/AFLplusplus/include/list.h:143-176 | the first element that holds the value, or the head when there is none |
| `LinkedList.Initialise` | fuzzing-engine/AFLplusplus/include/list.h:72-81 | the head takes the first slot and is linked to itself |
| `LinkedList.PreAlloc` | fuzzing-engine/AFLplusplus/include/afl-prealloc.h:58-90 | counter = number of used slots, so an allocation below the limit finds a free slot and never returns one in use; above it the element is new |
| `LinkedList.PreFree` | fuzzing-engine/AFLplusplus/include/afl-prealloc.h:108-139 | the counter follows, never goes below 0, and there is no double free |
| `LinkedList.CountAll` | fuzzing-engine/AFLplusplus/include/afl-prealloc.h:58-90 | the counter reaches the pool size only when every slot is in use |
| `Coverage.DiscoverWord` | fuzzing-engine/AFLplusplus/include/coverage-64.h:84-115 | word test, verdict and clearing are those of the word's bytes |
| `Coverage.SofarIs` | fuzzing-engine/AFLplusplus/include/coverage-64.h:81-115 | folding the bytes of a map one by one gives 2 iff some byte is pristine, else 1 iff some bit is new, else 0, and clears them all |
| `Coverage.HasNewBits` | fuzzing-engine/AFLplusplus/src/afl-fuzz-bitmap.c:232-265 | 2 iff a non-zero byte meets a pristine 0xff, else 1 iff some new bit exists, else 0; virgin = virgin and-not trace |
| `Coverage.CoveredIsLeast` | fuzzing-engine/AFLplusplus/src/afl-fuzz-bitmap.c:232-251 | the bytes looked at are the least number of whole words that covers real_map_size |
| `Coverage.WholeIsGreatest` | fuzzing-engine/AFLplusplus/include/coverage-64.h:63-79 | classifying works on the greatest number of whole words in the map |
| `Coverage.WordOp` | fuzzing-engine/AFLplusplus/include/coverage-64.h:84-115 | a bitwise operation on words is the operation on each byte |
| `Coverage.VerdictJoin` | fuzzing-engine/AFLplusplus/include/coverage-64.h:84-115 | the verdict on a map is the best of those on its parts |
| `CoverageMaps.InitCountClass16` | fuzzing-engine/AFLplusplus/src/afl-fuzz-bitmap.c:207-221 | the 16-bit table looks up two bytes at once |
| `CoverageMaps.ClassIsTopBit` | fuzzing-engine/AFLplusplus/src/afl-fuzz-bitmap.c:46-62 | the class of a hit count is one bit, its highest |
| `CoverageMaps.CommonClass` | fuzzing-engine/AFLplusplus/src/afl-fuzz-bitmap.c:46-62 | two hit counts have a bit of their classes in common, and the same class, exactly when they have equally many bits |
| `CoverageMaps.SimplifiedBit` | fuzzing-engine/AFLplusplus/src/afl-fuzz-bitmap.c:36-42 | a simplified byte is its highest bit for a hit and its lowest for none |
| `CoverageMaps.ClassifiesBytes` | fuzzing-engine/AFLplusplus/include/coverage-64.h:17-30 | classifying a word by 16-bit lookups classifies each byte |
| `CoverageMaps.ClassifyCounts` | fuzzing-engine/AFLplusplus/include/coverage-64.h:63-79 | skipping zero words, the map is classified byte by byte |
| `CoverageMaps.SimplifyTrace` | fuzzing-engine/AFLplusplus/include/coverage-64.h:32-61 | the same for simplify_trace, whose zero words become ones |
| `CoverageMaps.Skim` | fuzzing-engine/AFLplusplus/include/coverage-64.h:117-195 | all three versions return 1 exactly when the classified trace has a bit left in the virgin map |
| `CoverageMaps.HasNewBitsUnclassified` | fuzzing-engine/AFLplusplus/src/afl-fuzz-bitmap.c:267-298 | answer and virgin map are those of classify_counts and then has_new_bits; the trace is classified exactly when there is something new, and 0 is returned with it classified exactly when all that is new lies behind the bytes of real_map_size |
| `CoverageMaps.CommentBroken` | fuzzing-engine/AFLplusplus/src/afl-fuzz-bitmap.c:267-298 | for example a hit on the last of 64 bytes with real_map_size 8 |
| `CoverageMaps.WidthsAgree` | fuzzing-engine/AFLplusplus/include/coverage-32.h:13-117 | 32-bit and 64-bit build give the same answer and map if and only if there is nothing new in the bytes only the 64-bit one looks at; a trace that is zero from real_map_size on is such a case |
| `CoverageMaps.VirginIsUnion` | fuzzing-engine/AFLplusplus/src/afl-fuzz-bitmap.c:232-265 | over any run of traces the bytes that has_new_bits looks at are the initial ones and-not the union of the traces, and the others are untouched |
| `CoverageMaps.SeenIsOld` | fuzzing-engine/AFLplusplus/src/afl-fuzz-bitmap.c:223-229 | a trace with bytes that were seen once returns 0 ever after |
| `CoverageMaps.RunTraces` | fuzzing-engine/AFLplusplus/src/afl-fuzz-bitmap.c:232-265 | has_new_bits called on one trace after another: each answer is the verdict against the union of the traces before, 0 for one seen before, and the map is the initial one without the union |
| `CoverageMaps.AnswersAre` | fuzzing-engine/AFLplusplus/src/afl-fuzz-bitmap.c:223-265 | each answer in a run compares the trace with the union of all before it |
| `LtoIds.Pass.constructor` | fuzzing-engine/AFLplusplus/instrumentation/SanitizerCoverageLTO.so.cc:505-520 | the first ID is at least 4 and at least the one asked for, and no greater than need be; the empty layout has no overlap and no gap |
| `LtoIds.Pass.InstrumentFunction` | fuzzing-engine/AFLplusplus/instrumentation/SanitizerCoverageLTO.so.cc:1541-2296 | the IDs taken are as many as counted and one copy per context; the BUG exit is reached exactly when contexts are on, the function has several callers and a count above 1, TracePCGuard is off and there are counted blocks |
| `LtoIds.RunPass` | fuzzing-engine/AFLplusplus/instrumentation/SanitizerCoverageLTO.so.cc:1177-1190 | a whole module takes the sites of its functions in turn, each as many as counted and one copy per context; no two sites share a map index in any contexts, no index up to the last ID is wasted, all are below the 8-aligned final location; the BUG exit is reached exactly when some function makes it, so never with TracePCGuard |
| `LtoIds.InstrumentAll` | fuzzing-engine/AFLplusplus/instrumentation/SanitizerCoverageLTO.so.cc:1177-1190 | the loop over the functions follows the plan of their sites |
| `LtoIds.PlanLaid` | fuzzing-engine/AFLplusplus/instrumentation/SanitizerCoverageLTO.so.cc:1177-1190 | the plan has no overlap and no gap |
| `LtoIds.CostIsOutcomes` | fuzzing-engine/AFLplusplus/instrumentation/SanitizerCoverageLTO.so.cc:1615-1696 | an instruction takes one ID for each outcome of it that coverage tells apart |
| `LtoIds.WantedAre` | fuzzing-engine/AFLplusplus/instrumentation/SanitizerCoverageLTO.so.cc:1697-1700 | the blocks picked are all those that are wanted, and no others |
| `LtoIds.BlockCostIs` | fuzzing-engine/AFLplusplus/instrumentation/SanitizerCoverageLTO.so.cc:2375-2400 | the blocks counted are those that are not listed |
| `LtoIds.DryRun` | fuzzing-engine/AFLplusplus/instrumentation/SanitizerCoverageLTO.so.cc:1609-1712 | the dry run counts the decisions and the blocks |
| `LtoIds.CountInstruction` | fuzzing-engine/AFLplusplus/instrumentation/SanitizerCoverageLTO.so.cc:1615-1696 | what one instruction adds in the dry run |
| `LtoIds.EmitInstruction` | fuzzing-engine/AFLplusplus/instrumentation/SanitizerCoverageLTO.so.cc:1991-2254 | one instruction takes as many IDs, consecutive ones, as the dry run counts for it |
| `LtoIds.FakeInjectCoverage` | fuzzing-engine/AFLplusplus/instrumentation/SanitizerCoverageLTO.so.cc:2375-2400 | counts the blocks that are not listed |
| `LtoIds.InjectCoverage` | fuzzing-engine/AFLplusplus/instrumentation/SanitizerCoverageLTO.so.cc:2337-2370 | gives each such block the next ID |
| `LtoIds.AddContexts` | fuzzing-engine/AFLplusplus/instrumentation/SanitizerCoverageLTO.so.cc:2276-2294 | the check against the dry run, and the IDs for the other contexts |
| `LtoIds.LayoutLaid` | fuzzing-engine/AFLplusplus/instrumentation/SanitizerCoverageLTO.so.cc:1764-1796 | the copies of a function's IDs for its contexts are pairwise disjoint and fill its range |
| `LtoIds.LayoutUsesAll` | fuzzing-engine/AFLplusplus/instrumentation/SanitizerCoverageLTO.so.cc:1764-1796 | every index of that range is used |
| `LtoIds.LaidAppend` | fuzzing-engine/AFLplusplus/instrumentation/SanitizerCoverageLTO.so.cc:2276-2294 | functions that follow each other do not overlap |
| `LtoPrune.CoverageDetermines` | fuzzing-engine/AFLplusplus/instrumentation/SanitizerCoverageLTO.so.cc:1358-1391 | with critical edges split, two finished runs that visit the same instrumented blocks visit the same blocks: pruning loses nothing |
| `LtoPrune.EndOfChain` | fuzzing-engine/AFLplusplus/instrumentation/SanitizerCoverageLTO.so.cc:1329-1341 | a successor of a full dominator that is none itself has a single predecessor |
| `LtoPrune.FullDominatorFixed` | fuzzing-engine/AFLplusplus/instrumentation/SanitizerCoverageLTO.so.cc:1329-1341 | a full dominator is visited iff one of its successors is |
| `LtoPrune.FullPostDominatorFixed` | fuzzing-engine/AFLplusplus/instrumentation/SanitizerCoverageLTO.so.cc:1344-1356 | a full post-dominator other than the entry is visited iff one of its predecessors is |
| `LtoPrune.PrunedIsFixed` | fuzzing-engine/AFLplusplus/instrumentation/SanitizerCoverageLTO.so.cc:1358-1391 | every pruned block always runs or is fixed by its neighbours on one side |
| `LtoPrune.ShouldInstrumentBlock` | fuzzing-engine/AFLplusplus/instrumentation/SanitizerCoverageLTO.so.cc:1358-1391 | the early returns decide: with pruning, the entry of a one-block function and, but for function coverage, the blocks that are neither full dominators nor full post-dominators with several incoming edges |
| `LtoPrune.IsFullDominator` | fuzzing-engine/AFLplusplus/instrumentation/SanitizerCoverageLTO.so.cc:1329-1341 | the loop over the successors decides whether the block has some and dominates them all |
| `LtoPrune.IsFullPostDominator` | fuzzing-engine/AFLplusplus/instrumentation/SanitizerCoverageLTO.so.cc:1344-1356 | the same for predecessors and post-dominance |
| `LtoPrune.OnePredecessor` | fuzzing-engine/AFLplusplus/instrumentation/SanitizerCoverageLTO.so.cc:1387-1389 | getSinglePredecessor: a single edge leads to the block |
| `LtoPrune.CriticalEdgesMatter` | fuzzing-engine/AFLplusplus/instrumentation/SanitizerCoverageLTO.so.cc:1532-1534 | a graph with critical edges on which two different runs visit the same instrumented blocks |
| `AflAlloc.NextPow2` | fuzzing-engine/AFLplusplus/include/alloc-inl.h:606-626 | computes the smeared and incremented value that the lemmas below are about, with 64-bit wrap-around |
| `AflAlloc.NextPow2Exact` | fuzzing-engine/AFLplusplus/include/alloc-inl.h:603-626 | for n >= 1 the result is the least power of two that is at least n (0 for 2^64) if and only if n - 1 has no gap of 32 zero bits |
| `AflAlloc.SmallHasNoGap` | fuzzing-engine/AFLplusplus/include/alloc-inl.h:606-626 | up to 2^32 it always is |
| `AflAlloc.GapAboveTwo32` | fuzzing-engine/AFLplusplus/include/alloc-inl.h:606-626 | just above any power of two from 2^32 on it is not |
| `AflAlloc.RoundedCovers` | fuzzing-engine/AFLplusplus/include/alloc-inl.h:606-626 | for every n >= 1 the result is at least n, or 0 |
| `AflAlloc.LeastPower` | fuzzing-engine/AFLplusplus/include/alloc-inl.h:603-605 | what the least power of two is |
| `AflAlloc.NextSize` | fuzzing-engine/AFLplusplus/include/alloc-inl.h:687-703 | the new size is 64, the rounded request or, on overflow, the request, and covers it |
| `AflAlloc.NextSizeIsPow2` | fuzzing-engine/AFLplusplus/include/alloc-inl.h:687-703 | for requests of up to 2^32 bytes it is a power of two, less than twice the request or 64 |
| `AflAlloc.Buffer.Realloc` | fuzzing-engine/AFLplusplus/include/alloc-inl.h:666-716 | exactly which size a growth gives and when NULL is returned; capacity covers the request, old contents are kept and new space is zero; each growth after the first at least doubles |
| `AflAlloc.RequestLittle` | fuzzing-engine/AFLplusplus/include/alloc-inl.h:659-716 | a request of less than 56 bytes, and so also of 0 bytes, is not refused but gets 64 bytes |
| `AflAlloc.Growth` | fuzzing-engine/AFLplusplus/include/alloc-inl.h:659-664 | doubling pays: bytes moved stay below the size, and the number of reallocations is logarithmic in it |
| `AflAlloc.RunRequests` | fuzzing-engine/AFLplusplus/include/alloc-inl.h:666-716 | over any run of requests up to 2^32 the size is the one the requests prescribe, every request is covered and the account of moves holds |

## Left out

- The short-input hashes of XXH3 and `XXH3_mergeAccs` are parameters of the model: its theorems hold for every choice of them. Only the 128-bit hash of at most 16 bytes is also given as it is, in `Xxh3Short`.
- Xxh3Short.ShortDigestExact: states nothing for inputs of 17 to 240 bytes, whose mixing folds 128-bit products and so loses information.
- The NEON, VSX, SVE and AVX-512 branches of xxhash, and custom-secret generation from a caller's seed material (`XXH3_generateSecret`).
- NULL inputs, alignment and the aliasing of a caller's secret: secrets and inputs are values.
- Xxh3.State.Digest64: past 2^64 bytes fed, states nothing when the wrapped total is at most 240 and the buffer is taken for the input.
- Xxh3.State.Digest128: leaves out the same case.
- XxhStripes.State64.Digest: states nothing for 2^64 or more bytes fed, where the length that enters the hash has wrapped.
- `afl_showmap` is an oracle from files to tuples; file copying, naming, Nyx, deduplication by hash and the `--no-dedup` path of afl-cmin.py are not modelled. The queues of `multiprocessing` are taken to deliver every message once.
- The probability tables of the havoc mutator: the mutations drawn are an input.
- Havoc.RandBelow: the random numbers themselves are any numbers in range, so the contracts say what may come out of a mutation, not how likely it is or that all of it does.
- Havoc.ChooseBlockLen: states which lengths may be chosen, not how often.
- Havoc.Mutate: the number of draws is a finite input, because nothing in the source bounds how often a step is retried; a run that uses them up is reported as not finished.
- HavocShuffle.Shuffle: the redraw until j differs from i is an arbitrary j below i, so its termination with probability one is not modelled; the same holds for the redraw of the block exchange.
- Failing `malloc` in the list, and what the process does after FATAL: a run ends there.
- LinkedList.List.ForEach: a block removes the current element or returns, or both; one that appends to the list it runs over is not modelled.
- LinkedList.List.Append: memory from malloc that was freed is not reused as an object.
- `minimize_bits`, `count_bits`, `count_bytes` and the `bitmap_changed` flag of the coverage maps: they would only add easy members.
- LtoIds.Pass.InstrumentFunction: IDs are unbounded numbers, so the wrap-around of uint32_t in a module with more than 2^32 sites and contexts is not modelled; instructions are taken as the dry run sees them, so `afl.skip` marks and the answer of `isAflCovInterestingInstruction` do not change in between.
- The context depth search for functions with one caller, the value of `__afl_prev_ctx` at run time, IJON, and the IR that is emitted.
- LtoPrune.CoverageDetermines: asks that critical edges are split and every block is reachable, and speaks of runs that reach an exit.
- AflAlloc.Buffer.Realloc: states no coverage for requests within 8 bytes of 2^64, where adding the header size wraps.
- `afl_realloc_exact`, `afl_free` and the tracked allocators of alloc-inl.h.
- The shifts, rotations and tail readers of t1ha, its AES variant, and the web front end and service descriptions around the engine.
