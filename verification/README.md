# Contact discovery, verified

A Dafny model of the Contact Discovery Service: the enclave's oblivious contact lookup, its Curve25519
arithmetic, its request protocol, the client that talks to it, the server that batches requests, and the
mock library its C tests use. Code that updates state in place is modelled by methods and classes over
arrays and nodes, proved against functions; the main results are lemmas about those functions and over
whole runs.

`dafny verify dfyconfig.toml` checks everything.

## What is proved

- **Lookup** (`Lanes`, `Chains`, `Lookup`, `LookupTheorems`, `LookupRetry`). The branch-free hash join over
  sixteen lanes computes, for every database, query and hash key, the UUID of each phone's last occurrence:
  completely if and only if no slot has more than twelve distinct phones, and never another phone's UUID in
  any case. Tables can be reused after success and failure. The hash is an arbitrary function of the phone.
- **Curve25519** (`LittleEndian`, `Field25519`, `Limbs`, `Encoding25519`, `X25519`, `Curve25519Donna`). From
  51-bit limbs with explicit 64- and 128-bit wrap-around up to `curve25519_donna`, which computes X25519 of
  section 5 of RFC 7748 on all inputs.
- **Protocol** (`Crypto`, `PendingRequests`, `Protocol`, `ProtocolRuns`, `Enclave`). Each entry point is a
  step of a state machine, and a method on the enclave's globals proved to take that step: the object records
  what was done to it, and its globals, sender records and events are those of the run. Over every run:
  the ring of pending requests refines a map, requests are handled at most once, callbacks come in order, key
  pairs stay matched, and no key meets an IV twice.
- **Client, server and the way between** (`Client`, `DiffieHellman`, `Service`, `Delivery`). Both sides derive
  the same keys; an honest envelope delivers what was sealed whatever happens in between; every queued request
  has exactly one outcome; the client opens the directory's answers to its own phones in its own order. `Discovered` is all
  of this as one theorem, from the negotiation to the bytes of each answer.
- **Mock library** (`SymbolMaps`, `CircularList`, `MockMaps`, `GuardedAllocator`). Nested maps of circular
  lists on the heap refine a tree of queues; over every test, values come back in order and exactly as often
  as registered, leftovers are reported exactly if there are any, and a cleanup frees each value once. Guarded
  blocks keep header, guards and payload inside their allocation for every accepted alignment; payloads are
  aligned exactly for alignments below 2^32.

## Hypotheses

- `X25519.FermatHolds`: Fermat's little theorem for the prime 2^255-19. Used for the extra ladder iteration.
- `Crypto.Ideal`: SHA-256 gives 32 bytes; AES-GCM opens exactly what it sealed, with ciphertexts as long as
  their texts and 16-byte tags. Nothing else is assumed about either.
- `Client.SharedSecrets`: shared secrets have 32 bytes and are the same from both sides, for clamped keys. For
  `curve25519_donna` only `DiffieHellman.Commutes` is left of it (`DonnaShares`).
- `ProtocolRuns.KeysDiffer`: different requests derive different server keys. Used for IV uniqueness only.
- `ProtocolRuns.TokensIssued`: every token presented in a call was issued by the same run. Used where a statement
  includes the id zero, which no token carries but an empty table entry answers to.
- `Client.HypothesesConsistent` gives primitives for which `Ideal` and `SharedSecrets` both hold.
- Random bytes, SGX calls, the host's answers and the hash of each lookup attempt are inputs of the steps,
  free to be anything.

## Where the code and its documentation differ

- `fmul` is documented for limbs below 2^55; that is not enough. `Limbs.MulCorrectIff` gives the exact
  condition and `Limbs.WideFactorsFit` a bound that holds throughout the ladder.
- `swap_conditional` is documented to swap for any nonzero flag; it does so for 1 only (`SwapsIff`).
- The lookup reports an overflow from 17 phones in a slot on but has 12 lanes: with 13 to 16 phones it can
  succeed without answering some (`GapBelowThreshold`). Its counter has 32 bits and also counts repeats
  (`RepeatsCounted`, `CounterWraps`, `ReportedIff`). Phone zero is reserved.
- The client writes phones big-endian, the server reads them native-endian: the server looks up reversed
  bytes (`AsReadReverses`, `AsReadSameIff`). The directory is stored with its words reversed in the same way,
  so the lookup finds the right entry (`StoredLookup`) and the right bytes go back (`StoredOnWire`).
- An empty table entry is found by the id zero (`ZeroFoundIffEmpty`).
- The allocator's test for a power of two counts 32 bits of a 64-bit alignment (`AlignedIff`).
- The allocator's check on freeing trusts a header that lies in the block: changing it can report a block whose
  guards are intact, or lead the check out of the block (`WriteOutcome`, `SizeByteReported`).

## Model

| member | source | states |
|---|---|---|
| `Limbs.MulCorrectIff` | enclave/c_src/curve25519-donna-c64.c:90-145 | for all limbs in the documented range (below 2^55), the limbs `fmul` computes denote the product modulo 2^255-19 if and only if none of its five 64-bit carries loses a bit; the output limbs are at most 2^51 either way |
| `Limbs.DocumentedBoundFails` | enclave/c_src/curve25519-donna-c64.c:94-96 | the documented bound is not enough: with all limbs 2^55-1 the result is not the product |
| `Limbs.WideFactorsFit` | enclave/c_src/curve25519-donna-c64.c:90-145 | limbs of at most 2^54 + 2^51 in both factors never lose a carry |
| `Limbs.MulCorrect` | enclave/c_src/curve25519-donna-c64.c:90-145 | on those limbs `fmul` is multiplication modulo 2^255-19 and stores limbs of at most 2^51 |
| `Limbs.LossDecides` | enclave/c_src/curve25519-donna-c64.c:115-145 | a product accounted for up to a multiple of the prime and a loss is right modulo the prime if and only if the loss vanishes modulo it |
| `Limbs.CarryAccount` | enclave/c_src/curve25519-donna-c64.c:131-145 | exact account of the carry chain: columns = result + a multiple of the prime + what truncated carries lost, and nothing is lost if and only if all five carries fit in 64 bits |
| `Limbs.LossVisible` | enclave/c_src/curve25519-donna-c64.c:131-145 | what one multiplication can lose never cancels modulo the prime |
| `Limbs.SquareIsMul` | enclave/c_src/curve25519-donna-c64.c:147-187 | one squaring is limb for limb `fmul(in, in)`, on the whole documented range |
| `Limbs.SumCorrect` | enclave/c_src/curve25519-donna-c64.c:39-46 | `fsum` adds modulo the prime whenever the limb bounds add up below 2^64 |
| `Limbs.DifferenceCorrect` | enclave/c_src/curve25519-donna-c64.c:48-63 | `fdifference_backwards` subtracts modulo the prime without underflow, with limbs of at most 2^54 + 2^51 |
| `Limbs.ScalarCorrect` | enclave/c_src/curve25519-donna-c64.c:65-88 | `fscalar_product` multiplies by a scalar below 2^55 modulo the prime; all limbs but the first stay below 2^51, the first below 2^51 plus 323 times the scalar |
| `Encoding25519.ExpandCorrect` | enclave/c_src/curve25519-donna-c64.c:190-226 | the five masked loads are the low 255 bits of the 32 bytes, in 51-bit limbs |
| `Encoding25519.TwoPasses` | enclave/c_src/curve25519-donna-c64.c:238-248 | two carry passes bring any five 64-bit limbs below 2^255 without changing the value modulo the prime |
| `Encoding25519.ContractCanonical` | enclave/c_src/curve25519-donna-c64.c:229-275 | the limbs before packing are 51-bit digits of the value modulo 2^255-19, for every five 64-bit limbs |
| `Encoding25519.WordsOfDigits` | enclave/c_src/curve25519-donna-c64.c:277-280 | the shifted and or-ed output words hold exactly those digits |
| `X25519.LoopsAgree` | enclave/c_src/curve25519-donna-c64.c:358-391 | swap, step, swap back with rotating buffers equals the deferred-swap ladder of section 5 of RFC 7748, on every scalar, bit count and pending swap |
| `X25519.FirstStep` | enclave/c_src/curve25519-donna-c64.c:358-391 | the iteration for bit 255 leaves (1 : 0) and only rescales the other point |
| `X25519.LoopScales` | enclave/c_src/curve25519-donna-c64.c:358-391 | rescaling the projective pairs by units stays a rescaling through the whole ladder |
| `X25519.LoopOnAxis` | enclave/c_src/curve25519-donna-c64.c:358-391 | for u = 0 the ladder never leaves the degenerate points, so both forms give zero |
| `X25519.DonnaIsX25519` | enclave/c_src/curve25519-donna-c64.c:433-449 | 256 iterations and one inversion give X25519 of section 5 of RFC 7748 for every u and every scalar below 2^255 (given Fermat's little theorem for this prime) |
| `Curve25519Donna.FSum` | enclave/c_src/curve25519-donna-c64.c:39-46 | in place, also when both arguments are one array |
| `Curve25519Donna.FDifferenceBackwards` | enclave/c_src/curve25519-donna-c64.c:54-63 | in place, also when both arguments are one array |
| `Curve25519Donna.FScalarProduct` | enclave/c_src/curve25519-donna-c64.c:68-88 | in place, also when output is the input |
| `Curve25519Donna.FMul` | enclave/c_src/curve25519-donna-c64.c:98-145 | in place, also when the output is one of the inputs |
| `Curve25519Donna.FSquareTimes` | enclave/c_src/curve25519-donna-c64.c:147-187 | the do-while loop squares `count` times (2^64 times for a count of zero), also when output is the input |
| `Curve25519Donna.SquareRoundsCorrect` | enclave/c_src/curve25519-donna-c64.c:147-187 | n squarings of stored limbs compute the 2^n-th power and keep limbs at most 2^51 |
| `Curve25519Donna.SwapWordsCorrect` | enclave/c_src/curve25519-donna-c64.c:334-343 | masked exclusive or swaps two words for 1 and keeps them for 0 |
| `Curve25519Donna.SwapsIff` | enclave/c_src/curve25519-donna-c64.c:326-343 | all pairs of words are swapped if and only if the flag is 1, and kept if and only if it is 0, although the comment promises a swap for any nonzero flag |
| `Curve25519Donna.SwapConditional` | enclave/c_src/curve25519-donna-c64.c:333-343 | for every flag each pair of words becomes what the masked exclusive or makes of it, in place; for 1 the arrays are exchanged, for 0 left alone |
| `Curve25519Donna.FMonty` | enclave/c_src/curve25519-donna-c64.c:283-324 | from limbs at most 2^51 the four outputs are the ladder step of section 5 of RFC 7748 and again have limbs at most 2^51; the point inputs are destroyed, the difference is kept |
| `Curve25519Donna.MontyCorrect` | enclave/c_src/curve25519-donna-c64.c:301-323 | the field values of the step's limb formulas are the step's field formulas, with no bit lost anywhere |
| `Curve25519Donna.Work.Turn` | enclave/c_src/curve25519-donna-c64.c:367-390 | one inner iteration on eight rotating buffers is one swap-step-swap of the ladder |
| `Curve25519Donna.Work.Byte` | enclave/c_src/curve25519-donna-c64.c:365-391 | the inner loop consumes the eight bits of one scalar byte, most significant first |
| `Curve25519Donna.Work.Bytes` | enclave/c_src/curve25519-donna-c64.c:364-392 | the outer loop consumes the whole scalar and leaves the result in the buffers that held the start |
| `Curve25519Donna.CMult` | enclave/c_src/curve25519-donna-c64.c:351-396 | all 256 iterations compute the ladder of the whole little-endian scalar, with stored limbs throughout |
| `Curve25519Donna.CRecip` | enclave/c_src/curve25519-donna-c64.c:402-428 | the addition chain, through its aliased multiplications, is the power 2^255-21 |
| `Curve25519Donna.FExpand` | enclave/c_src/curve25519-donna-c64.c:216-226 | limbs denote the bytes modulo 2^255 |
| `Curve25519Donna.StoreLimb` | enclave/c_src/curve25519-donna-c64.c:203-214 | eight little-endian bytes at an offset, nothing else touched |
| `Curve25519Donna.FContract` | enclave/c_src/curve25519-donna-c64.c:228-281 | the output is the one little-endian encoding below 2^255-19 of the value of any five 64-bit limbs |
| `Curve25519Donna.ContractAfterExpand` | enclave/c_src/curve25519-donna-c64.c:190-281 | contracting what was expanded gives the low 255 bits modulo the prime, and returns the same bytes if and only if they encode a value below the prime |
| `Curve25519Donna.ClampedScalar` | enclave/c_src/curve25519-donna-c64.c:438-441 | a clamped scalar is below 2^255, so the first bit read is clear |
| `Curve25519Donna.DonnaIsRfc7748` | enclave/c_src/curve25519-donna-c64.c:433-449 | byte strings to byte strings: clamped scalar, masked u-coordinate, canonical result, as X25519 prescribes |
| `Curve25519Donna.Curve25519` | enclave/c_src/curve25519-donna-c64.c:432-449 | the program computes its own ladder for every secret and base point, and X25519 of RFC 7748 given Fermat's little theorem |
| `LittleEndian.LoadLimbIs` | enclave/c_src/curve25519-donna-c64.c:190-201 | eight shifted and or-ed bytes are the little-endian word |
| `LittleEndian.StoreBytes` | enclave/c_src/curve25519-donna-c64.c:203-214 | the masked and shifted bytes stored are the little-endian bytes of the word |
| `Lanes.BlendIs` | enclave/cds_enclave/c_src/cds-enclave-hash.rs:126-133 | comparing and blending a 64-bit lane byte by byte selects the whole lane if and only if the words are equal |
| `Chains.MaskIs` | enclave/cds_enclave/c_src/cds-enclave-hash.rs:515 | the mask has exactly the low bits set, for order 31 too, where the signed subtraction wraps |
| `Chains.SlotIs` | enclave/cds_enclave/c_src/cds-enclave-hash.rs:501-516 | the index computed with a 32-bit signed mask is inside the table, and for every order below 32 it is the remainder by the table size |
| `Chains.SlotMatchesIs` | enclave/cds_enclave/c_src/cds-enclave-hash.rs:253-256 | the branch-free index comparison is 1 exactly for equal indices |
| `Chains.FirstSeenIs` | enclave/cds_enclave/c_src/cds-enclave-hash.rs:238-294 | the reference list of a slot has exactly the nonzero phones of the query that hash to it, each once |
| `Chains.InsertsCount` | enclave/cds_enclave/c_src/cds-enclave-hash.rs:258-267 | the insertion counter is the number of distinct phones up to twelve and never undercounts beyond |
| `Chains.DuplicateTest` | enclave/cds_enclave/c_src/cds-enclave-hash.rs:258-263 | the leftover phone in unfilled lanes never makes the duplicate test wrong: it is positive exactly for zero and the phones stored |
| `Chains.InsertKeepsInv` | enclave/cds_enclave/c_src/cds-enclave-hash.rs:249-294 | after every query prefix the filled lanes hold, in order of first appearance, the first twelve distinct phones, the others the last phone processed |
| `Lookup.BuildChain` | enclave/cds_enclave/c_src/cds-enclave-hash.rs:238-322 | one slot: the sealed lanes are the kept phones, the rest all ones, and the counter is the number of insertions modulo 2^32 |
| `Lookup.BuildChains` | enclave/cds_enclave/c_src/cds-enclave-hash.rs:236-329 | all slots; overflow is reported if and only if some counter exceeds 16 |
| `Lookup.HashPhone` | enclave/cds_enclave/c_src/cds-enclave-hash.rs:136-172 | one database entry changes only its own slot, at an index inside the table |
| `Lookup.PassLaneIs` | enclave/cds_enclave/c_src/cds-enclave-hash.rs:120-134 | a usable lane takes the word exactly when its phone matches; a dummy lane is flipped and stays all zeros or all ones |
| `Lookup.ConstructHash` | enclave/cds_enclave/c_src/cds-enclave-hash.rs:193-214 | the prefetching block loop and the tail loop together visit every entry once, in order, for every length; prefetches stay within the stated bound |
| `Lookup.PassDbMatches` | enclave/cds_enclave/c_src/cds-enclave-hash.rs:193-214 | after the whole database each usable lane holds the UUID of the last entry for its phone |
| `Lookup.CollectIs` | enclave/cds_enclave/c_src/cds-enclave-hash.rs:174-190 | blending and or-ing sixteen lanes yields the word of the matching lane, or zero |
| `Lookup.CollectNonzero` | enclave/cds_enclave/c_src/cds-enclave-hash.rs:333-348 | a nonzero query phone collects its own answer from its slot and zero from every other |
| `Lookup.CollectZero` | enclave/cds_enclave/c_src/cds-enclave-hash.rs:338-348 | a query for phone zero collects nothing but all zeros or all ones |
| `Lookup.ShownIffKept` | enclave/cds_enclave/c_src/cds-enclave-hash.rs:318-322 | a query phone is visible in its sealed slot if and only if it is among the first twelve |
| `Lookup.EraseTables` | enclave/cds_enclave/c_src/cds-enclave-hash.rs:353-366 | slots are zeroed and result lanes become their erased form |
| `Lookup.HashLookup` | enclave/cds_enclave/c_src/cds-enclave-hash.rs:216-369 | each status if and only if its cause; from clean tables every answer is the reference answer; tables are clean again afterwards, whether it succeeds or fails |
| `LookupTheorems.Complete` | enclave/cds_enclave/c_src/cds-enclave-hash.rs:216-369 | with at most twelve distinct nonzero phones per slot there is no overflow and every nonzero phone gets the UUID of its last database entry, or zero |
| `LookupTheorems.AnsweredIffWithinCapacity` | enclave/cds_enclave/c_src/cds-enclave-hash.rs:242-247 | every database is answered completely if and only if no slot has more than twelve phones |
| `LookupTheorems.Sound` | enclave/cds_enclave/c_src/cds-enclave-hash.rs:331-351 | whatever the load, any answer the lookup is correct for is the phone's own last UUID or zero; a nonzero one is in the database, and a stored phone gets its own |
| `LookupTheorems.LastUuidIsLast` | enclave/cds_enclave/c_src/cds-enclave-hash.rs:136-172 | the reference answer is the last occurrence |
| `LookupTheorems.LostPhones` | enclave/cds_enclave/c_src/cds-enclave-hash.rs:242-247 | exactly the phones beyond the first twelve of a slot are not stored |
| `LookupTheorems.SeventeenOverflow` | enclave/cds_enclave/c_src/cds-enclave-hash.rs:325-329 | seventeen distinct phones in a slot are always reported on queries shorter than 2^32 |
| `LookupTheorems.GapBelowThreshold` | enclave/cds_enclave/c_src/cds-enclave-hash.rs:105-107 | for every key, slot and 13 to 16 phones of that slot the lookup succeeds, answers the first twelve and leaves exactly the others without answer |
| `LookupTheorems.RepeatsCounted` | enclave/cds_enclave/c_src/cds-enclave-hash.rs:265-267 | repeats of a phone without a lane are counted again and again |
| `LookupTheorems.CounterWraps` | enclave/cds_enclave/c_src/cds-enclave-hash.rs:265-267 | for every key, slot, more than twelve phones of that slot and every length from 2^32 on, a query with exactly those phones wraps the counter to zero and goes unreported |
| `LookupTheorems.ReportedIff` | enclave/cds_enclave/c_src/cds-enclave-hash.rs:325-329 | for every key and slot, seventeen or more phones in it are reported on all queries of a length if and only if the length is below 2^32 |
| `LookupRetry.TableSizeValid` | enclave/cds_enclave/src/ffi/hash_lookup.rs:56-60 | the chosen table size is a power of two the lookup accepts and at least the query size |
| `LookupRetry.TooLargeIff` | enclave/cds_enclave/src/ffi/hash_lookup.rs:56-60 | refused as too large if and only if there are more than 8192 phones |
| `LookupRetry.HashLookupRetry` | enclave/cds_enclave/src/ffi/hash_lookup.rs:48-100 | each status if and only if its cause; on success the answers are those of the first attempt that does not overflow, on tables reused after any number of failed attempts |
| `Crypto.Sha256` | enclave/c_src/sgxsd-enclave.c:241-250 | digest of all buffers, also when the output overlaps an input; nothing else is written |
| `Crypto.KeyPads` | enclave/c_src/sgxsd-enclave.c:253-271 | pads combined in place are the two padded keys of section 2 of RFC 2104 |
| `Crypto.HmacSha256` | enclave/c_src/sgxsd-enclave.c:252-284 | HMAC of section 2 of RFC 2104 over the first buffer as key, long keys hashed first, output overlapping any input |
| `Crypto.RaHkdfRound` | enclave/c_src/sgxsd-enclave.c:289-302 | one in-place round is T(n+1) of section 2.3 of RFC 5869, the counter lying behind its own output |
| `Crypto.DeriveRequestKeys` | enclave/c_src/sgxsd-enclave.c:500-520 | two rounds give the first two blocks of HKDF-Expand with empty info |
| `Crypto.LongSalt` | enclave/c_src/sgxsd-enclave.c:258-263 | extracting with a salt longer than a block equals extracting with its digest |
| `Protocol.GeneratedMatched` | enclave/c_src/sgxsd-enclave.c:336-351 | every generated key pair is a clamped scalar with the public key computed from it |
| `PendingRequests.IndexInRange` | enclave/c_src/sgxsd-enclave.c:404-410 | masking an id is its remainder modulo the table size, so every index is inside the table |
| `PendingRequests.AddRefines` | enclave/c_src/sgxsd-enclave.c:403-435 | adding keeps: an issued id is found if and only if it was not removed and fewer than 2^order were added since, with the key it was added with; entries sit at their own index |
| `PendingRequests.RemoveRefines` | enclave/c_src/sgxsd-enclave.c:468-498 | removing keeps the same |
| `ProtocolRuns.StepKeepsInv` | enclave/c_src/sgxsd-enclave.c:107-961 | every entry point and every reply, with any inputs and any failing system call, keeps the invariant of table, key pairs, slots, calls and encryptions |
| `ProtocolRuns.RunInv` | enclave/c_src/sgxsd-enclave.c:107-961 | the invariant holds after every run shorter than 2^64 steps |
| `ProtocolRuns.FoundIff` | enclave/c_src/sgxsd-enclave.c:403-498 | over every run: an issued id is found if and only if it was not consumed and fewer than 2^order were issued since |
| `ProtocolRuns.EntriesInPlace` | enclave/c_src/sgxsd-enclave.c:403-498 | over every run: each nonzero entry, orphans of failed negotiations included, is at its index and among the last 2^order ids |
| `ProtocolRuns.CalledAtMostOnce` | enclave/c_src/sgxsd-enclave.c:757-827 | over every run no request id reaches the server twice: no id at all if every token presented was issued by the run, and none but zero in any case |
| `ProtocolRuns.CallConsumes` | enclave/c_src/sgxsd-enclave.c:757-827 | a call removes its request even if the message does not decrypt |
| `ProtocolRuns.FingerprintForesees` | enclave/c_src/sgxsd-enclave.c:889-961 | in any one state a fingerprint and a call agree on the message and on the cause of every failure |
| `ProtocolRuns.CallbacksInOrder` | enclave/c_src/sgxsd-enclave.c:704-855 | over every run the callbacks of a handle form cycles of init, calls, terminate, each with the state the last one left |
| `ProtocolRuns.KeyPairsMatched` | enclave/c_src/sgxsd-enclave.c:353-401 | over every run, whatever the rotations, both stored key pairs are clamped and matched |
| `ProtocolRuns.NonceUnique` | enclave/c_src/sgxsd-enclave.c:583-683 | over every run no server key encrypts twice under one IV, if different requests have different keys and every token presented was issued (zero aside, any tokens): first the zero IV, then an odd one |
| `ProtocolRuns.KeyUsedTwiceAtMost` | enclave/c_src/sgxsd-enclave.c:583-702 | over every run the key of a request encrypts at most twice |
| `ProtocolRuns.RunNoZero` | enclave/c_src/sgxsd-enclave.c:451-462 | over every run whose tokens were all issued, nothing is ever called, encrypted or recorded under the id zero |
| `ProtocolRuns.CallIsFirst` | enclave/c_src/sgxsd-enclave.c:757-827 | one more step that hands a request to the server hands over one that was never handed over before |
| `ProtocolRuns.EncryptIsFirst` | enclave/c_src/sgxsd-enclave.c:583-683 | one more step that encrypts uses a key that never met this IV before |
| `ProtocolRuns.ZeroFoundIffEmpty` | enclave/c_src/sgxsd-enclave.c:451-462 | the id zero is found if and only if the first entry is empty, and is never issued before the counter wraps |
| `Enclave.Node.constructor` | enclave/c_src/sgxsd-enclave.c:78-94 | all globals zero, nothing done yet |
| `Enclave.Node.DrawRand` | enclave/c_src/sgxsd-enclave.c:304-334 | the chained generator: new state and output are the two HKDF blocks of the mixed-in bytes |
| `Enclave.Node.InitNode` | enclave/c_src/sgxsd-enclave.c:107-165 | takes the protocol's initialisation step, partial effects of every failure included: the globals stay those of the run of everything done so far |
| `Enclave.Node.NextReport` | enclave/c_src/sgxsd-enclave.c:353-388 | takes the protocol's report step of the run |
| `Enclave.Node.CurrentQuote` | enclave/c_src/sgxsd-enclave.c:390-401 | takes the protocol's quote step of the run |
| `Enclave.Node.AddPendingRequest` | enclave/c_src/sgxsd-enclave.c:403-435 | writes the next id's entry and seals the id; the entry stays if sealing fails |
| `Enclave.Node.GetPendingRequest` | enclave/c_src/sgxsd-enclave.c:437-466 | finds without removing, each status if and only if its cause |
| `Enclave.Node.RemovePendingRequest` | enclave/c_src/sgxsd-enclave.c:468-498 | returns and zeroes the entry, or leaves the table alone |
| `Enclave.Node.DerivePrk` | enclave/c_src/sgxsd-enclave.c:545-581 | hashed salt over the three public keys, both shared secrets, one extraction |
| `Enclave.Node.NegotiateRequest` | enclave/c_src/sgxsd-enclave.c:522-628 | takes the protocol's negotiation step with all its events; the response is sealed under a key and IV that no earlier event of this object used together |
| `Enclave.Node.StartServer` | enclave/c_src/sgxsd-enclave.c:704-732 | takes the protocol's start step with its event |
| `Enclave.Node.StopServer` | enclave/c_src/sgxsd-enclave.c:829-855 | takes the protocol's stop step and hands over the state exactly when a callback runs |
| `Enclave.Node.CallServer` | enclave/c_src/sgxsd-enclave.c:734-827 | takes the protocol's call step with all its events and a new sender record; the request was never handed over by this object before; the buffer is zeroed exactly if it was decrypted into |
| `Enclave.Node.RatelimitFingerprint` | enclave/c_src/sgxsd-enclave.c:857-961 | returns the protocol's fingerprint result and changes no global; the buffer is zeroed exactly if it was decrypted into |
| `Enclave.Node.Reply` | enclave/c_src/sgxsd-enclave.c:630-684 | without a record, refused; else takes the protocol's reply step with its event, under a key and IV never used together before, and erases the record; the buffer is erased on every path, the rest of it is kept |
| `Enclave.Node.NoReply` | enclave/c_src/sgxsd-enclave.c:686-702 | takes the protocol's step: erases a valid record, refuses an invalid or missing one |
| `Client.KeyAgreement` | client/cds_client/src/lib.rs:256-292 | the two halves of HKDF output over the raw 96-byte salt |
| `Client.KeysAgree` | client/cds_client/src/lib.rs:256-292 | client and enclave extract the same key, from a raw and a hashed salt and from opposite halves of the key pairs, so both derive the same client and server keys |
| `Client.EncryptData` | client/cds_client/src/lib.rs:119-136 | what it returns opens to the data under the key, IV and associated data |
| `Client.OpenTagged` | client/cds_client/src/lib.rs:161-166 | opening data with its tag appended, in place, and truncating, is opening the sealed pair |
| `Client.MakeRequest` | client/cds_client/src/lib.rs:144-215 | fails if and only if the request id does not open; otherwise id, envelope, query, commitment and count are those of an honest request |
| `Client.DecodeResponse` | client/cds_client/src/lib.rs:217-233 | the opened reply in whole sixteen-byte pieces, in order |
| `Service.AcceptedIff` | enclave/cds_enclave/src/service/main.rs:65-111 | a request is accepted if and only if it fits and its query is what some committed text of the announced size seals to |
| `Service.LookupChunk` | enclave/cds_enclave/src/ffi/hash_lookup.rs:48-100 | one chunk: success if and only if some attempt does not overflow, then with that attempt's answers |
| `Service.LookupAll` | enclave/cds_enclave/src/service/main.rs:161-178 | success if and only if every chunk can be answered; then every chunk is |
| `Service.OwnPhones` | enclave/cds_enclave/src/service/main.rs:138-145 | the queued phones between the offsets of a request are that request's own, in order |
| `Service.ReplyAll` | enclave/cds_enclave/src/service/main.rs:180-188 | each request is replied to with the answers in its own share, until one reply fails; every other sender record is dropped, which tells the host |
| `Service.Server.HandleCall` | enclave/cds_enclave/src/service/main.rs:128-146 | a refused request changes nothing; an accepted one is queued with its phones |
| `Service.Server.Terminate` | enclave/cds_enclave/src/service/main.rs:148-189 | every queued request has exactly one outcome, for its own sender record: a reply with its answers, or a notice that there is none |
| `Delivery.TokenRoundTrip` | enclave/c_src/sgxsd-enclave.c:403-466 | a request id survives sealing, transport as bytes, parsing and opening |
| `Delivery.RunExtends` | enclave/c_src/sgxsd-enclave.c:107-961 | over every run the id key and table order never change after initialisation and no event is forgotten |
| `Delivery.LastExtends` | enclave/c_src/sgxsd-enclave.c:403-435 | over every run the last id issued never goes back |
| `Delivery.NegotiationAgrees` | enclave/c_src/sgxsd-enclave.c:522-628 | after every run an honest negotiation succeeds, the client opens its token with its own keys, and the enclave has filed the request under the client's key |
| `Delivery.LiveEntry` | enclave/c_src/sgxsd-enclave.c:468-498 | over every run a live request is found with the key it was negotiated with |
| `Delivery.HonestDelivery` | enclave/c_src/sgxsd-enclave.c:757-827 | whatever happens between negotiation and call, key rotations included, an honest envelope for a live request delivers exactly the query key the client sealed, and the server holds the client's reply key |
| `Delivery.FingerprintStands` | enclave/c_src/sgxsd-enclave.c:757-961 | over every run: a fingerprint, anything at all, then a call with the same header and message; while the request is live the call delivers or rejects exactly the message the fingerprint saw, otherwise it finds no request, and a request not found is never live again |
| `Delivery.AsReadReverses` | enclave/cds_enclave/src/service/main.rs:251-253 | reading native-endian what the client writes big-endian gives exactly the reversed bytes, and twice is the identity |
| `Delivery.AsReadSameIff` | enclave/cds_enclave/src/service/main.rs:251-253 | a phone is read as itself if and only if its big- and little-endian bytes agree; the phone 1 is read as 2^56 |
| `Delivery.StoredLookup` | service/src/main/jni/cds_jni/src/directory_map_native/internal_buffers.rs:293-296 | for every directory and phone, looking up the phone as read in the directory as stored finds the phone's own entry |
| `Delivery.StoredOnWire` | service/src/main/jni/cds_jni/src/directory_map_native/internal_buffers.rs:293-296 | the stored UUID words, copied natively, are the sixteen UUID bytes the client expects, and absence stays absence |
| `Delivery.HonestQueryAccepted` | enclave/cds_enclave/src/service/main.rs:65-97 | for every number of phones, an honest query that fits is accepted with all the client's phones in order; each refusal exactly for its cause, queries of 2^32 phones and more included |
| `Delivery.BatchSound` | enclave/cds_enclave/src/service/main.rs:161-178 | each answer of a batch is the phone's last UUID or zero, and all are the last UUID if no slot was overfull |
| `Delivery.ClientAnswered` | enclave/cds_enclave/src/service/main.rs:180-188 | the j-th sixteen bytes a client opens are the directory's UUID for the j-th phone it asked about, or zeros; never zeros for a listed phone if no slot was overfull |
| `Delivery.Discovered` | client/cds_client/src/lib.rs:144-233 | from end to end, over every run: honest keys, a negotiation, anything at all in between, an honest request, any batch it is part of; the client opens the reply with its own key and finds the directory's UUID for each of its phones in its own order |
| `DiffieHellman.ClampFixed` | enclave/c_src/curve25519-donna-c64.c:438-441 | clamping leaves clamped scalars alone |
| `DiffieHellman.DonnaShares` | enclave/c_src/sgxsd-enclave.c:545-581 | with `curve25519_donna` for the shared secrets, all that is assumed of them is that X25519 commutes; the lengths are proved |
| `DiffieHellman.SecretIsX25519` | enclave/c_src/sgxsd-enclave.c:545-581 | a shared secret is X25519 of the private key and the other public key (given Fermat's little theorem for this prime) |
| `DiffieHellman.GeneratedIsX25519` | enclave/c_src/sgxsd-enclave.c:336-351 | every generated key pair is a clamped scalar with X25519 of it and the base point nine |
| `SymbolMaps.TakenShifts` | enclave/c_src/cmockery.c:549-557 | one retrieval yields the first value and shifts everything the queue yields by one |
| `SymbolMaps.AddIs` | enclave/c_src/cmockery.c:485-519 | adding appends to the queue of its path, touches no other, and leaves no name twice and nothing empty |
| `SymbolMaps.GetIs` | enclave/c_src/cmockery.c:522-571 | retrieving takes the first value of its path's queue, touches no other, removes names left empty, and fails exactly on an empty queue |
| `SymbolMaps.RetrievalsInOrder` | enclave/c_src/cmockery.c:653-696 | over every sequence of registrations and retrievals on any paths, the next retrieval yields what the registrations of its path, each repeated as often as asked, have at that position |
| `SymbolMaps.RemoveAlwaysIs` | enclave/c_src/cmockery.c:574-609 | every queue loses its first value if that is always returned and was returned, and no other value |
| `SymbolMaps.NoLeftoversIff` | enclave/c_src/cmockery.c:316-334 | a test passes if and only if each queue is used up, up to one always-value that was returned |
| `SymbolMaps.HeldIff` | enclave/c_src/cmockery.c:336-343 | what a cleanup frees is exactly what is still in some queue |
| `CircularList.ListNode.constructor` | enclave/c_src/cmockery.c:346-353 | an initialised node is an empty circle |
| `CircularList.Append` | enclave/c_src/cmockery.c:369-378 | splicing at the tail keeps the circle, in both directions |
| `CircularList.AddValue` | enclave/c_src/cmockery.c:356-366 | a new node with its value and count at the tail |
| `CircularList.Remove` | enclave/c_src/cmockery.c:381-392 | taking any node out keeps the circle of the others |
| `CircularList.Free` | enclave/c_src/cmockery.c:404-418 | all nodes are taken out, and their values are passed on for cleanup in order, each once |
| `CircularList.IsEmpty` | enclave/c_src/cmockery.c:421-425 | true if and only if there are no nodes |
| `CircularList.FindFirst` | enclave/c_src/cmockery.c:428-442 | the first node whose value satisfies the predicate, none if there is none |
| `CircularList.First` | enclave/c_src/cmockery.c:444-454 | the first node, none if the list is empty |
| `CircularList.TakeFirst` | enclave/c_src/cmockery.c:549-557 | counts the first node down and takes it out when its count is up |
| `MockMaps.FindSymbol` | enclave/c_src/cmockery.c:498-501 | finds the node of the first entry with the name |
| `MockMaps.AddSymbolValue` | enclave/c_src/cmockery.c:485-519 | on nested lists in disjoint memory, is the addition on the tree they hold |
| `MockMaps.GetSymbolValue` | enclave/c_src/cmockery.c:522-571 | on nested lists in disjoint memory, is the retrieval on the tree they hold; the internal assertion on an empty list cannot fail |
| `MockMaps.RemoveAlwaysValues` | enclave/c_src/cmockery.c:578-609 | on nested lists in disjoint memory, with nodes unlinked during the traversal, is the removal on the tree they hold, whether lists below are empty or not |
| `MockMaps.CountLeftovers` | enclave/c_src/cmockery.c:614-651 | the number of symbols with values left |
| `MockMaps.FreeMap` | enclave/c_src/cmockery.c:404-475 | nested lists are emptied at every level; every value is freed once, in the order of the lists |
| `MockMaps.Mocks.WillReturn` | enclave/c_src/cmockery.c:686-696 | accepts positive counts and minus one, and records the registration |
| `MockMaps.Mocks.Mock` | enclave/c_src/cmockery.c:654-683 | returns the next value of the path's registrations, each as often as asked, or fails if there is none |
| `MockMaps.Mocks.FailIfLeftover` | enclave/c_src/cmockery.c:316-334 | over every test: fails if and only if some path has a value left other than one always-value that was returned |
| `MockMaps.Mocks.Teardown` | enclave/c_src/cmockery.c:336-343 | frees everything still registered and leaves the map as new for the next test |
| `GuardedAllocator.PayloadFits` | enclave/c_src/cmockery.c:1344-1362 | for every accepted alignment, block and size: header, guards and payload lie inside the allocation; the payload is aligned for alignments below 2^32 |
| `GuardedAllocator.LowBlockMisaligned` | enclave/c_src/cmockery.c:1344-1358 | for every accepted alignment from 2^32 on, every block that fits more than 88 bytes below the alignment has a misaligned payload |
| `GuardedAllocator.AlignedIff` | enclave/c_src/cmockery.c:1344-1362 | all payloads of an accepted alignment are aligned if and only if it is below 2^32, because only 32 bits are counted; the same over nonzero multiples of 16 as blocks only |
| `GuardedAllocator.AcceptedBelow` | enclave/c_src/cmockery.c:1345 | an accepted alignment is not zero and at most 2^64 - 2^31, so the sum of sizes never wraps unnoticed |
| `GuardedAllocator.MemAlign` | enclave/c_src/cmockery.c:1344-1374 | fails if and only if the alignment is refused or the size overflows, writing nothing; otherwise header words, links, guards and payload are filled in the block, and its node is linked in at the end of the list |
| `GuardedAllocator.GuardIntact` | enclave/c_src/cmockery.c:1401-1415 | byte by byte: intact if and only if all sixteen bytes are the pattern, reported if and only if one inside the block differs, out of the block if and only if it ends before any difference |
| `GuardedAllocator.TestFree` | enclave/c_src/cmockery.c:1389-1422 | reads size, links, block and allocated size from the block itself; reports, strays or frees as those say; exactly when it frees it links the neighbours to each other and overwrites the allocation |
| `GuardedAllocator.ReportedIffGuardChanged` | enclave/c_src/cmockery.c:1389-1422 | whatever is written anywhere outside the header words, freeing reports the block if and only if a guard byte changed, and frees it otherwise |
| `GuardedAllocator.WriteOutcome` | enclave/c_src/cmockery.c:1389-1422 | for every single-byte write into a well-formed block, what freeing it then does: guard bytes are always reported, a changed size by the bytes it points at, changed links and block address stray, a changed allocation size strays if too large, everything else is never noticed |
| `GuardedAllocator.SizeByteReported` | enclave/c_src/cmockery.c:1396-1417 | a stored size one too large is reported, with both guards intact, if and only if the byte after the second guard is no guard byte |

## Left out

- AES-GCM, SHA-256 and the keyed hash of the lookup: parameters of the model, see the hypotheses above.
- That X25519 commutes: the group law of the curve is not part of this model, see `DiffieHellman.Commutes`.
- Interleaving of entry points: each is one atomic step, as under the enclave's spin locks; the locks are not modelled.
- Erasure of stack and heap secrets other than the pending-request entry, the sender record, the message and reply buffers and the lookup tables.
- Arithmetic traps of unoptimised builds: overflow wraps, as in the optimised build of the lookup.
- Timing, cache and prefetch behaviour: only the index bound of a prefetch is modelled.
- Service.LookupChunk: works on an array of its own where the source hands out a mutable part of the result buffer.
- Service.Server.constructor: the capacity is an input; the source asks for a capacity and may get a larger one.
- GuardedAllocator.TestFree: what happens after it follows a changed header out of the block is not modelled (`Strayed`); the neighbours in the list of blocks appear as the words written to them.
- GuardedAllocator.MemAlign: the source location and the node's value in the header are not modelled, nor is failure of the system allocator.
- SymbolMaps.NoLeftoversIff: the messages about leftovers are not modelled.
- The directory's own hash table: `Delivery.Stored` is the sequence of entries it hands to a lookup.
- Freed memory of the mock lists: a node taken out is no longer reachable, and nothing more is said of it.
- Counts in the mock library are unbounded integers; 2^31 retrievals of an always-value would overflow the source's counter.
- Parameter checks, test running, signals and messages of the mock library.
- The enclave's marshalling code and headers, the rate limiter's use of a fingerprint, and the HTTP client: thin or without a functional property of their own.
