# Verified model of libchronoid

libchronoid generates and converts two kinds of time-ordered identifiers: 20-byte KSUIDs, printed as
27 base-62 characters, and 16-byte UUIDv7s, printed in the hyphenated hexadecimal form of RFC 9562.
This project models its four algorithmic cores in Dafny and proves them against simple mathematical
specifications (naturals, digit sequences, state machines):

- the KSUID base-62 codec, its AVX2 kernel and the reciprocal division the kernel rests on;
- the UUIDv7 monotonic sequence (RFC 9562, section 6.2 method 1; layout in section 5.7) under an
  arbitrary clock and a random source that may fail on any draw;
- the per-thread ChaCha20 generator (RFC 8439, sections 2.1 and 2.3) as a wiped, lazily refilled
  window on one keystream;
- the two lock-free protocols: the self-replacing dispatch pointer and the two-word random override.

The UUIDv7 hexadecimal codec, its SSSE3 and AVX2 kernels, the 20-byte SSE2 compare and the KSUID
sequence carry those results to the printed strings. `dafny verify dfyconfig.toml` checks everything.

## How it is organised

| file | content |
|---|---|
| Positional.dfy | digit sequences, their values, and byte order as numeric order |
| Words.dfy | bounded words; AND, OR, XOR defined bit by bit; big-endian loads and stores |
| DivisorMagic.dfy | floor reciprocal and correction for every width and divisor |
| Base62Text.dfy, Base62.dfy | what the base-62 codec computes; the in-place long divisions |
| Simd64.dfy, EncodeAvx2.dfy | 64-bit-lane intrinsics; the eight-lane kernel |
| EncodeScalar.dfy, EncodeBatch.dfy | the reference batch; the dispatch protocol with the kernels in it |
| KsuidCompare.dfy, KsuidCore.dfy, KsuidSequence.dfy | compare, construction and parsing, the 65536-element sequence |
| ChaCha20.dfy, RandTls.dfy | the block function; the buffered generator |
| RandOverride.dfy | release and acquire accesses to the override words |
| UuidLayout.dfy, UuidSequence.dfy | the UUIDv7 bytes; the monotonic sequence and its runs |
| HexText.dfy, HexSimd.dfy, Uuidv7.dfy | the canonical text, its kernels, parsing and text order |

Registers are sequences of lanes and every intrinsic is a function on them. Buffers are arrays with an
offset for the C pointer; a method's postcondition says which cells it writes and that all others keep
their value. Clocks, process identifiers, entropy, CPU detection and scheduling are parameters that may
take any value.

## Where the code and its prose differ

The model follows the code; each difference has a lemma.

- `sequence_next` is documented to return only success or an RNG error. It returns TIME_RANGE exactly at
  the last counter of the last 48-bit millisecond, and stays there (`StepErrors`, `LastStateAbsorbs`,
  `TimeRangeIsReachable`).
- A failed clock is documented to force a reseed. It does not when the clock had already failed at seed
  time (`FailedClockReseeds`, `FailedClockTwice`).
- The 1 MiB byte budget is read only on entry, so one request may overshoot it by its whole length
  (`BudgetIsPerCall`). The block counter, said never to get near 2^32, carries into the nonce in one request
  exactly when that request is longer than 2^38 - 64 bytes less what was drawn before (`RequestCarries`,
  `CarryIsReachable`; for any generator state `CarryIntoNonce`).
- The environment override is described as consulted exactly once. Two first callers can both consult it
  (`ConsultedTwice`); it is consulted at most once exactly when no call loads the trampoline after another
  call has loaded it (`ConsultedOnceIffWarmedUp`), and always at most once per thread (`RunInv`).
- The comment on `set_rand` says a swap cannot tear the pair. Without further discipline exactly the pairs
  of an fn with its own or a newer ctx occur, and overlapping swaps can leave the two words crossed
  (`SerialDraws`, `EveryNewerCtxHappens`, `OverlappingWritersCross`). The contract in the header is exact:
  the words can never be left crossed and no draw can be torn precisely when calls do not overlap and draws
  are quiesced around them (`SwapContract`).
- The comment on the kernel bounds the divided value by 63 * 2^32 and the quotient by 2^33. The loop
  needs and keeps 62 * 2^32 and 2^32 (`EncodeAvx2.DivideLimb`).
- The deriver says a ceiling reciprocal makes the correction fire wrongly. In its unbounded integers the
  correction never fires: the overestimate leaves a negative remainder and survives (`CeilingOverestimates`
  says for which values). A ceiling constant with a small excess is exact for all values
  (`CeilingIsExactIff`); the one for 62 is not (`CeilingFailsFor62`).

## Model

| member | source | states |
|---|---|---|
| DivisorMagic.DeficitInRange | tools/derive-magic.py:43-58 | exactly the divisors strictly between 1 and 2^N are accepted, and the deficit of the constant lies in [0, d-1], so the script's assertion cannot fail |
| DivisorMagic.MulHighExact | tools/derive-magic.py:21-30 | for all N, d and v < 2^N the multiply-high is v/d or v/d - 1, and it is v/d - 1 exactly when (v mod d)·2^N < v·(2^N mod d) |
| DivisorMagic.CorrectedIsDivision | tools/derive-magic.py:68-76 | the single correction recovers exact quotient and remainder for all N, d, v |
| DivisorMagic.VerifyAgainstReference | tools/derive-magic.py:61-81 | the sampling loop accepts exactly when every sampled quotient is right, and always accepts the derived constant |
| DivisorMagic.ExcessIsComplement | tools/derive-magic.py:32 | unless d divides 2^N the ceiling constant is the floor constant plus one, and its excess is d less the deficit |
| DivisorMagic.CeilingMulHigh | tools/derive-magic.py:32-34 | for all N, d and v < 2^N the ceiling constant gives v/d or v/d + 1, and v/d + 1 exactly when (v mod d)·2^N + v·excess >= d·2^N |
| DivisorMagic.CeilingOverestimates | tools/derive-magic.py:32-38 | in exactly those cases the correction step returns v/d + 1 and the remainder v mod d - d, and otherwise the exact quotient and remainder |
| DivisorMagic.CeilingIsExactIff | tools/derive-magic.py:32-38 | the ceiling constant divides every v < 2^N exactly if and only if the largest value of remainder d - 1 times its excess stays below 2^N |
| DivisorMagic.CeilingFailsFor62 | tools/derive-magic.py:32-38 | a 64-bit value at which the ceiling constant for 62 is off by one |
| Words.BitsSplit | chronoid/ksuid/encode_avx2.c:182-185 | AND, OR and XOR act separately on the bits above and below any position, which is what makes an OR of disjoint halves an addition |
| Words.Be32IsValue | chronoid/byteorder.h:18-25 | shifting and ORing four bytes loads their big-endian value |
| Words.Be32StoreIsDigits | chronoid/byteorder.h:27-34 | a stored word is its four base-256 digits and loads back unchanged |
| Base62Text.TablesAreInverse | chronoid/ksuid/base62.c:24-76 | the value table inverts the alphabet on its 62 characters, rejects all other bytes, and the alphabet is in ASCII order |
| Base62Text.AlphabetIsAlphanumeric | chronoid/ksuid/base62.c:24-76 | the value table accepts exactly the characters 0-9, A-Z and a-z |
| Base62Text.EncodingDenotes | chronoid/ksuid/base62.c:78-114 | the 27 characters denote in base 62 the number that the bytes denote in base 256 |
| Base62Text.DecodingDenotes | chronoid/ksuid/base62.c:129-182 | a 27-character string is accepted exactly when it is in the alphabet and its number is below 2^160, and the bytes denote that number |
| Base62Text.DecodeEncode | chronoid/ksuid/base62.c:78-182 | decode(encode(b)) = b for all 20-byte b |
| Base62Text.EncodeDecode | chronoid/ksuid/base62.c:78-182 | encode(decode(s)) = s for every accepted s |
| Base62Text.AcceptsExactlyEncodings | chronoid/ksuid/base62.c:129-182 | decoding succeeds on exactly the strings that encoding produces |
| Base62Text.EncodingOrder | chronoid/ksuid/base62.c:78-114 | ASCII order of the texts is byte order of the identifiers |
| Base62Text.OverflowIsTextual | chronoid/ksuid/base62.h:22-27 | an alphabet string is rejected exactly when it sorts after the text of the largest KSUID |
| Base62Text.MaxText | chronoid/ksuid/base62.h:25-27 | that text is the documented string |
| Base62.DivideLimbs | chronoid/ksuid/base62.c:94-103 | one pass leaves quotient and remainder by 62 of the limb number, without leading zero limbs |
| Base62.EncodeDigits | chronoid/ksuid/base62.c:93-107 | the early-stopping division loop writes the low characters of the text, never runs out of positions, and leaves only zero digits unwritten |
| Base62.Encode | chronoid/ksuid/base62.c:78-114 | the 27 cells hold the base-62 digits of the number and no other cell changes |
| Base62.Translate16 | chronoid/ksuid/base62.c:116-127 | the first sixteen lookups, and validity exactly when all sixteen are in the alphabet |
| Base62.DivideChars | chronoid/ksuid/base62.c:152-162 | one pass leaves quotient and remainder by 2^32 of the base-62 number |
| Base62.DecodeLimbs | chronoid/ksuid/base62.c:151-176 | succeeds exactly when five passes leave nothing, with the bytes of the value |
| Base62.Decode | chronoid/ksuid/base62.c:129-182 | accepts exactly alphabet strings below 2^160 and yields their 20 bytes |
| EncodeAvx2.MulHi64Exact | chronoid/ksuid/encode_avx2.c:85-108 | every lane of the four-product multiply-high is floor(a·b/2^64) for all 64-bit a, b |
| EncodeAvx2.HighWord | chronoid/ksuid/encode_avx2.c:75-84 | no intermediate sum overflows: the middle sum stays below 2^34 and the partial sums of the high word below 2^64 |
| EncodeAvx2.MagicIsDerived | chronoid/ksuid/divisor_magic.h:35-37 | the committed constant is the derived one, with deficit 16 |
| EncodeAvx2.ShiftedTimes62 | chronoid/ksuid/encode_avx2.c:125-126 | (q<<6)-(q<<1) modulo 2^64 is q·62 even when q<<6 wraps |
| EncodeAvx2.DivMod62Exact | chronoid/ksuid/encode_avx2.c:120-136 | exact v/62 and v%62 in each lane for every 64-bit v |
| EncodeAvx2.DivideLimb | chronoid/ksuid/encode_avx2.c:184-189 | with limb < 2^32 and remainder < 62 the OR is an addition, the value is below 62·2^32, and quotient and remainder are exact |
| EncodeAvx2.DivideColumn | chronoid/ksuid/encode_avx2.c:178-195 | the limb loop divides the number in every lane by 62, keeps limbs below 2^32 and returns the remainders |
| EncodeAvx2.PackLimbs | chronoid/ksuid/encode_avx2.c:150-171 | lane l of the packed registers denotes identifier l |
| EncodeAvx2.ScatterColumn | chronoid/ksuid/encode_avx2.c:197-206 | each lane's character lands in its own slice at this column and no other cell changes |
| EncodeAvx2.EncodeEight | chronoid/ksuid/encode_avx2.c:177-207 | 27 unconditional columns write all eight texts, leave every limb number zero, and touch nothing outside |
| EncodeAvx2.StringBatchAvx2 | chronoid/ksuid/encode_avx2.c:138-217 | for every n the output equals the scalar batch byte for byte and nothing else is written |
| EncodeScalar.StringBatchScalar | chronoid/ksuid/encode_batch.c:49-59 | the reference batch: slice i holds the text of identifier i, nothing else is written |
| EncodeScalar.BatchSlice | chronoid/ksuid.h:183-186 | slice [27k, 27k+27) of the batch output is the text of identifier k |
| EncodeBatch.RunInv | chronoid/ksuid/encode_batch.c:108-146 | over every interleaving the pointer is the trampoline first and a real kernel ever after, with at most one resolution per thread |
| EncodeBatch.OnceReplacedStaysReplaced | chronoid/ksuid/encode_batch.c:148-159 | a thread that has seen a real kernel never enters the trampoline again |
| EncodeBatch.FirstCallersResolve | chronoid/ksuid/encode_batch.c:133-159 | over every run the threads whose load found the trampoline are those that consulted the environment and those about to |
| EncodeBatch.ConsultedOnceIffWarmedUp | chronoid/ksuid/encode_batch.c:111-159 | the environment is consulted at most once if and only if no load finds the trampoline after another one did, and then exactly once as soon as a first call got past it |
| EncodeBatch.ConsultedTwice | chronoid/ksuid/encode_batch.c:111-114 | two first callers do consult the environment twice and may store different kernels |
| EncodeBatch.KillSwitch | chronoid/ksuid/encode_batch.c:111-146 | when every resolution finds the override set, or no AVX2, no thread ever selects the vector kernel |
| EncodeBatch.StoresFollowAnswers | chronoid/ksuid/encode_batch.c:133-146 | over every run each store is the vector kernel exactly when its resolution found AVX2 and no override |
| EncodeBatch.StaleLoadHappens | chronoid/ksuid/encode_batch.c:148-159 | a thread may still load the trampoline after another one replaced it |
| EncodeBatch.FinishedAreReference | chronoid/ksuid/encode_batch.c:133-159 | over every run each finished call has the reference output of its own identifiers |
| EncodeBatch.CallsFinishInOrder | chronoid/ksuid/encode_batch.c:148-159 | over every run the id lists a thread finished are, in order, those it called with, except the call still under way |
| EncodeBatch.Process.Act | chronoid/ksuid/encode_batch.c:133-159 | one atomic action; a completed call has the reference output whichever kernel its thread resolved |
| EncodeBatch.Process.Execute | chronoid/ksuid/encode_batch.c:133-159 | under any schedule of any threads every finished call has the reference output of its identifiers, and no thread's call is lost, repeated, reordered or changed |
| EncodeBatch.RunKernel | chronoid/ksuid/encode_batch.c:133-146 | both kernels fill a fresh buffer with the reference output |
| KsuidCompare.LowestClearLane | chronoid/ksuid/compare_sse2.c:39-46 | count-trailing-zeros of the complemented movemask is the first lane that is not equal |
| KsuidCompare.FirstDiffCorrect | chronoid/ksuid/compare_sse2.c:39-60 | the vector head finds the first differing byte of 16, or 16 when there is none |
| KsuidCompare.Compare20Sse2 | chronoid/ksuid/compare_sse2.c:48-71 | the sign agrees with byte order, big-endian value order and ASCII order of the texts |
| KsuidCore.FromParts | chronoid/ksuid/ksuid.c:58-71 | succeeds exactly for 16 payload bytes and a time within 32 bits after 1400000000; the bytes are that offset and the payload; on an error the output is untouched |
| KsuidCore.PartsRoundTrip | chronoid/ksuid/ksuid.c:73-89 | timestamp and payload read back |
| KsuidCore.TimeOfAnyKsuid | chronoid/ksuid/ksuid.c:73-83 | on any 20 bytes the time read is 1400000000 plus the leading 32-bit number |
| KsuidCore.TextSortsByTime | chronoid/ksuid/ksuid.c:58-71 | an earlier second prints as an earlier string whatever the payloads |
| KsuidCore.Parse | chronoid/ksuid/ksuid.c:91-106 | exact error cases; on an error the output is untouched |
| KsuidCore.FormatThenParse | chronoid/ksuid/ksuid.c:91-113 | formatting and parsing restores the bytes |
| KsuidSequence.Sequence.constructor | chronoid/ksuid/sequence.c:24-30 | the seed with count zero |
| KsuidSequence.Sequence.Next | chronoid/ksuid/sequence.c:32-42 | as a number the output is the seed with its low 16 bits replaced by the count; after the last count, exhaustion with state and output unchanged |
| KsuidSequence.CountIsLow16Bits | chronoid/ksuid/sequence.c:16-22 | writing the count changes the low 16 bits of the number to the count and nothing else |
| KsuidSequence.Sequence.Bounds | chronoid/ksuid/sequence.c:44-55 | the identifiers of the next and of the last count, which bracket everything the sequence can still emit |
| KsuidSequence.Sequence.Drain | chronoid/ksuid/sequence.c:32-42 | any number of calls: exactly 65536 successes in order, every later call fails |
| KsuidSequence.EmitsIncrease | chronoid/ksuid/sequence.c:16-22 | a larger count is a larger identifier and a later string |
| KsuidSequence.EmitsInsideBounds | chronoid/ksuid/sequence.c:44-55 | every emit from the current count on lies inside the bounds |
| ChaCha20.RotlWord | chronoid/chacha20.c:17 | the two shifts of a rotation keep within 32 bits |
| ChaCha20.RotateBack | chronoid/chacha20.c:17 | a rotation by n is undone by one by 32 - n |
| ChaCha20.QuarterRoundInverse | chronoid/chacha20.c:19-24 | on any four distinct words the quarter round and its explicit inverse undo each other in both orders |
| ChaCha20.QuarterRoundVector | chronoid/chacha20.c:19-24 | the test vector of RFC 8439, section 2.1.1 |
| ChaCha20.RoundsInverse | chronoid/chacha20.c:32-42 | the rounds are a permutation of the states: an explicit two-sided inverse, for any number of rounds |
| ChaCha20.ApplyInPlace | chronoid/chacha20.c:33-42 | the in-place quarter rounds compute the schedule on values |
| ChaCha20.ScheduleIsDoubleRound | chronoid/chacha20.c:33-42 | the eight quarter rounds are, for every state, the column round of the 4x4 matrix followed by its diagonal round (RFC 8439, section 2.3) |
| ChaCha20.BlockIsStandard | chronoid/chacha20.c:26-51 | each little-endian word of a block is that word after ten double rounds plus the state word modulo 2^32 |
| ChaCha20.Block | chronoid/chacha20.c:26-67 | the in-place routine writes the standard's block and adds one to the 64-bit pair (state[13], state[12]), changing no other word |
| ChaCha20.BumpsAreAdvance | chronoid/chacha20.c:53-59 | k blocks add k modulo 2^64 to (state[13], state[12]) |
| ChaCha20.AdvanceDistinct | chronoid/chacha20.c:53-59 | no block input repeats within 2^64 blocks and no other word changes |
| RandTls.TlsRng.LoadKey | chronoid/rand_tls.c:295-311 | the constants, the key loop, the zeroed counter and the nonce loop leave the seeded state, whose byte layout SeedLayout gives |
| RandTls.TlsRng.Seed | chronoid/rand_tls.c:286-334 | a fresh stream at position zero, or on an entropy failure nothing changed |
| RandTls.TlsRng.ShouldReseedNow | chronoid/rand_tls.c:336-353 | the reseed policy of the flag, byte count, pid and clock |
| RandTls.TlsRng.Refill | chronoid/rand_tls.c:376-379 | an exhausted buffer becomes the next keystream block |
| RandTls.TlsRng.CopyOut | chronoid/rand_tls.c:380-382 | a chunk is the next keystream segment |
| RandTls.TlsRng.Consume | chronoid/rand_tls.c:383-391 | consumed bytes are zero, the rest is the unread tail, and the accounts agree |
| RandTls.TlsRng.Draw | chronoid/rand_tls.c:375-392 | the draw loop returns the next n keystream bytes and advances by n |
| RandTls.TlsRng.RandomBytes | chronoid/rand_tls.c:361-394 | a success returns the next segment of the stream in use, or the first of the stream seeded from the entropy just read when the policy asks for a reseed; it fails exactly in a destructor or without that entropy, with output and view unchanged; afterwards fewer than 2^20 + n bytes are counted |
| RandTls.TlsRng.ForceReseed | chronoid/rand_tls.c:355-359 | the generator counts as unseeded |
| RandTls.TlsRng.ThreadStateWipe | chronoid/rand_tls.c:103-111 | every word and byte of the state is zero |
| RandTls.ViewDeterminesState | chronoid/rand_tls.c:69-79 | seed and position determine state words, buffer, buffer position and byte count |
| RandTls.RunIsKeystream | chronoid/rand_tls.c:361-394 | over every run the bytes since the last seed are a prefix of its keystream, none skipped or repeated |
| RandTls.StreamIsBlocks | chronoid/rand_tls.c:375-392 | the keystream is block(0), block(1), ... of the seed one after the other |
| RandTls.StreamIsFromEntropy | chronoid/rand_tls.c:286-334 | over every run the stream in use has, in bytes, the constant, the key, a zero counter and the nonce of the entropy that the last seeding read |
| RandTls.StreamIsFresh | chronoid/rand_tls.c:336-374 | a call keeps the stream exactly when it is seeded, of the calling process, younger than 3600 seconds by a clock that has not gone back, and less than 2^20 bytes are counted; otherwise it seeds from its own entropy or fails |
| RandTls.SplitLaw | chronoid/rand_tls.c:361-394 | while no reseed fires, any partition of a request gives the bytes and final view of the single request |
| RandTls.FailedClockReseeds | chronoid/rand_tls.c:234-248 | a clock failure forces a reseed exactly when the stored seed time is at least 0 or at most -3601 |
| RandTls.FailedClockTwice | chronoid/rand_tls.c:324-348 | a clock that failed at seed time does not force one later |
| RandTls.BudgetIsPerCall | chronoid/rand_tls.c:341-342 | the bytes counted after a call are fewer than 2^20 + n, and the position passes 2^20 exactly when n exceeds what was left |
| RandTls.CarryIntoNonce | chronoid/chacha20.c:53-59 | in a seeded generator the counter word is the number of blocks modulo 2^32, and the nonce word differs from its seeded value exactly when that number modulo 2^64 is at least 2^32 |
| RandTls.RequestCarries | chronoid/chacha20.c:53-59 | one request of n bytes that passed the entry check carries into the nonce exactly when n > 2^38 - 64 - bytes drawn before |
| RandTls.CarryIsReachable | chronoid/chacha20.c:53-59 | a first request of 2^38 bytes succeeds and carries into the nonce |
| RandTls.StateOfView | chronoid/rand_tls.c:375-391 | the state words are the seed advanced by the number of blocks begun |
| RandTls.SeedLayout | chronoid/rand_tls.c:295-311 | the seeded state is, in bytes, the standard's constant, the key, a zero counter and the nonce |
| RandOverride.NeverOlderThanOwn | chronoid/ksuid/ksuid.c:129-153 | under any writers and readers no hook gets a ctx older than its own |
| RandOverride.SerialDraws | chronoid/ksuid/ksuid.c:129-153 | with one set_rand at a time, fn version i is only drawn with ctx version j >= i |
| RandOverride.SerialWordsMatch | chronoid/ksuid/ksuid.c:129-134 | after non-overlapping calls the newest fn and the newest ctx belong to the same call |
| RandOverride.SerialIffNeverCrosses | chronoid/ksuid/ksuid.c:129-134 | the words can never be left crossed, in whatever order pending calls finish, if and only if no call starts inside another |
| RandOverride.QuiescedIffNeverTears | chronoid/ksuid.h:266-280 | with one call at a time, no reader can ever make a torn draw if and only if no call starts while a draw holds a hook and every draw takes the newest hook with no call under way |
| RandOverride.StoresAreCalls | chronoid/ksuid/ksuid.c:129-153 | over every run each stored word is an argument of a set_rand call, fn with the ctx store of its own call, and no draw calls NULL |
| RandOverride.SwapContract | chronoid/ksuid.h:266-280 | serial calls and quiesced draws are exactly what excludes crossed words and torn draws, and then every draw calls a hook with the ctx that one call passed with it |
| RandOverride.EveryNewerCtxHappens | chronoid/ksuid/ksuid.c:115-121 | each pair 1 <= i <= j is drawn in some run of a single writer |
| RandOverride.StalePairsHappen | chronoid/ksuid/ksuid.c:147-150 | after n finished calls an unsynchronised reader may still draw any version i of fn with any version j >= i of ctx |
| RandOverride.RelaxedLoadsAreUnsafe | chronoid/ksuid/ksuid.c:147-150 | without acquire order a new fn can meet an older ctx |
| RandOverride.OverlappingWritersCross | chronoid/ksuid.h:266-280 | two overlapping set_rand calls can leave the words crossed for later draws |
| UuidLayout.LayoutFields | chronoid/uuidv7/uuidv7.c:69-124 | timestamp, counter and tail read back; version 7 and variant 0b10 are forced |
| UuidLayout.TimestampWidth | chronoid/uuidv7/uuidv7.c:30 | the largest timestamp is 2^48 - 1, the largest value of six bytes |
| UuidLayout.FieldsOfAnyUuid | chronoid/uuidv7/uuidv7.c:115-124 | on any 16 bytes version and variant read the top four and the top two bits of their bytes |
| UuidLayout.UnixMsIsValue | chronoid/uuidv7/uuidv7.c:99-112 | the ORed shifts read the first six bytes as a big-endian number |
| UuidLayout.LayoutOrder | chronoid/uuidv7/uuidv7.c:39-45 | a later millisecond, or the same and a larger counter, is a larger UUID |
| UuidLayout.FromParts | chronoid/uuidv7/uuidv7.c:56-97 | succeeds exactly for 0 <= unixMs < 256^6; then the six leading bytes are the time, version and variant are 7 and 0b10, and all 74 random bits are in place; on an error the output is untouched |
| UuidSequence.DrawnCounter | chronoid/uuidv7/uuidv7_sequence.c:45-65 | the masked big-endian pair is the value modulo 2^12 |
| UuidSequence.Sequence.Init | chronoid/uuidv7/uuidv7_sequence.c:67-93 | millisecond 0 with a drawn counter and tail, or a failure that changes nothing |
| UuidSequence.Sequence.Next | chronoid/uuidv7/uuidv7_sequence.c:120-216 | one step of the state machine: every later reading below 2^48 is adopted once both draws succeed, TIME_RANGE comes exactly at the last counter of millisecond 2^48 - 1, and the output is written only on success |
| UuidSequence.Sequence.Bounds | chronoid/uuidv7/uuidv7_sequence.c:218-252 | the returned pair brackets, over every continuation, each emit of the same millisecond and lies below all others |
| UuidSequence.StepKeeps | chronoid/uuidv7/uuidv7_sequence.c:120-216 | every call keeps the ranges; a success emits a state strictly after the old one; a failure changes nothing |
| UuidSequence.StepErrors | chronoid/uuidv7/uuidv7_sequence.c:138-202 | the bail-out is never taken; TIME_RANGE and RNG errors occur exactly in the stated cases |
| UuidSequence.StateWidths | chronoid/uuidv7/uuidv7_sequence.c:31-35 | reachable states hold a 48-bit millisecond and a 12-bit counter |
| UuidSequence.ReadingsAreAdopted | chronoid/uuidv7/uuidv7_sequence.c:138-165 | with both draws every later reading below 2^48 becomes the embedded millisecond, and no other reading advances it by more than a rollover |
| UuidSequence.TimeRangeIsTheEnd | chronoid/uuidv7/uuidv7_sequence.c:183-188 | TIME_RANGE occurs exactly at millisecond 2^48 - 1 with counter 0xFFF |
| UuidSequence.StepShape | chronoid/uuidv7/uuidv7_sequence.c:150-212 | tick, rollover and plain increment: when each happens and the state it gives |
| UuidSequence.RunIsMonotonic | chronoid/uuidv7/uuidv7_sequence.c:100-216 | over every run the emitted UUIDs strictly increase, all of version 7 and variant 0b10 |
| UuidSequence.RunIsGapFree | chronoid/uuidv7/uuidv7_sequence.c:168-212 | within a millisecond the emitted counters are consecutive and the tail is constant |
| UuidSequence.FirstEmitIsDrawn | chronoid/uuidv7/uuidv7_sequence.c:150-203 | over every run, the first emit of each new embedded millisecond carries the counter and tail drawn in that very call |
| UuidSequence.IntervalStartsAtDraw | chronoid/uuidv7/uuidv7_sequence.c:150-212 | the counters of a millisecond are the gap-free interval that starts at the counter drawn for it |
| UuidSequence.StartingBand | chronoid/uuidv7/uuidv7_sequence.c:75-85 | emits that keep the starting millisecond continue from the starting counter plus one |
| UuidSequence.DriftIsRollovers | chronoid/uuidv7/uuidv7_sequence.c:138-203 | the embedded millisecond is the last adopted reading plus the rollovers since, and that reading is at most the largest seen |
| UuidSequence.EmitsCatchUp | chronoid/uuidv7/uuidv7_sequence.c:138-165 | no emit from a successful call on embeds a time before the usable reading of that call |
| UuidSequence.LastStateAbsorbs | chronoid/uuidv7/uuidv7_sequence.c:183-188 | the last counter of the last millisecond fails for ever, unchanged |
| UuidSequence.TimeRangeIsReachable | chronoid/uuidv7.h:281-286 | two calls after initialisation can return TIME_RANGE |
| UuidSequence.BoundsBracket | chronoid/uuidv7.h:296-305 | bounds bracket every later emit of the same millisecond; every other later emit is strictly above |
| UuidSequence.BoundFields | chronoid/uuidv7/uuidv7_sequence.c:218-252 | the bounds carry the current millisecond, the next counter or 0xFFF when it is spent, and an all-zero or all-one tail |
| UuidSequence.BoundsAreTight | chronoid/uuidv7/uuidv7_sequence.c:235-251 | the next emit of the same millisecond shares timestamp and counter with the lower bound, and both bounds are emitted for some tail |
| UuidSequence.BoundsNest | chronoid/uuidv7/uuidv7_sequence.c:218-252 | successive bounds in one millisecond are nested |
| HexText.HexTablesAreInverse | chronoid/uuidv7/hex.c:20-74 | the nibble table inverts the digits up to case and rejects all other bytes |
| HexText.HexAlphabet | chronoid/uuidv7/hex.c:24-74 | the nibble table accepts exactly 0-9, A-F and a-f |
| HexText.TextShape | chronoid/uuidv7/hex.c:76-115 | the text is 8-4-4-4-12 digits with hyphens, and each byte is its two lowercase hexadecimal digits, high one first |
| HexText.EncodeLowerScalar | chronoid/uuidv7/hex.c:89-115 | the offset table and hyphens write the canonical text and nothing else |
| HexText.HighNibbleTest | chronoid/uuidv7/hex.c:164-168 | the one test of the accumulated OR fires exactly when an invalid lookup came in |
| HexText.AcceptsTextsInAnyCase | chronoid/uuidv7/hex.c:117-173 | a string is accepted exactly when, with A-F lowered, it is the text of some identifier, and it decodes to that identifier |
| HexText.Decode | chronoid/uuidv7/hex.c:127-173 | accepts exactly the texts of identifiers in any letter case, yields that identifier, and leaves the output untouched otherwise |
| HexText.DecodeText | chronoid/uuidv7/hex.c:89-173 | decode(encode(b)) = b |
| HexText.EncodeDecoded | chronoid/uuidv7/hex.c:89-173 | encode(decode(s)) is s in lower case |
| HexText.TextOrder | chronoid/uuidv7/hex.c:89-115 | ASCII order of the texts is byte order of the identifiers |
| HexSimd.ShiftAndMask | chronoid/uuidv7/hex_ssse3.c:58-63 | the 16-bit shift followed by the byte mask extracts each byte's high nibble |
| HexSimd.HexLaneIsHex | chronoid/uuidv7/hex_ssse3.c:62-83 | lookup and interleave give the 32 digits, high nibble first |
| HexSimd.DashSplice | chronoid/uuidv7/hex_avx2.c:120-132 | five copies and four hyphens place the digits canonically |
| HexSimd.EncodeLowerSsse3 | chronoid/uuidv7/hex_ssse3.c:42-105 | the kernel writes the same text as the scalar encoder |
| HexSimd.LanesDoNotMix | chronoid/uuidv7/hex_avx2.c:72-98 | on a 32-byte register whose shifts, shuffles and interleaves act per 128-bit lane, each lane comes out as the one-register kernel would give it |
| HexSimd.Hex32Avx2 | chronoid/uuidv7/hex_avx2.c:60-115 | one pass over a 32-byte register and four lane stores put the digits of both identifiers in order |
| HexSimd.StringBatchAvx2 | chronoid/uuidv7/hex_avx2.c:134-166 | for every n the output is the scalar texts and nothing else is written |
| HexSimd.BatchSlice | chronoid/uuidv7/hex_avx2.c:134-166 | slice [36k, 36k+36) of the batch output is the text of identifier k |
| Uuidv7.Parse | chronoid/uuidv7/uuidv7.c:137-156 | succeeds exactly on the texts of identifiers in any letter case; wrong length and wrong characters are told apart; on an error the output is untouched |
| Uuidv7.FormatThenParse | chronoid/uuidv7/uuidv7.c:126-156 | formatting and parsing restores the bytes |
| Uuidv7.SequenceTextsIncrease | chronoid/uuidv7/uuidv7_sequence.c:120-216 | over every run of a sequence the printed strings strictly increase in ASCII order |
| Uuidv7.TextSortsByTime | chronoid/uuidv7/uuidv7.c:56-97 | an earlier millisecond prints as an earlier string whatever the random parts |

## Left out

- EncodeBatch.Process.Act: a kernel run on its thread's own buffer is one action, since the interface forbids sharing an output slice; stores to the pointer take effect in one order, while loads may be stale.
- RandTls.TlsRng.RandomBytes: entropy, process identifier and clock are parameters of the call; the 64-bit subtraction of clock readings is taken without overflow.
- KsuidCore.FromParts: the 64-bit subtraction of the epoch is taken without overflow.
- RandOverride.NeverOlderThanOwn: each word's stores take effect in one order, and a load is constrained only by its thread's view of that word.
- The operating system's random source, clock and process calls, thread-exit registration, CPU and environment detection.
- Resistance of wipes to compiler optimisation; a wipe is a write of zeros. `zeroupper` has no effect on data.
- NEON kernels, the SSE2 base-62 translate kernel and the scalar compare: the same per-byte facts again.
- The UUIDv7 batch dispatcher, whose protocol is that of the KSUID one.
- `chronoid_ksuid_new`, `chronoid_uuidv7_new` and their timed variants, the `from_bytes` size checks, the nil and maximum constants: single-branch wrappers.
- Test-only hooks, the command-line example, and the unpredictability of the random output.
