# Verified model of xxHash

`include/xxhash.h` holds a complete xxHash 0.8.0: XXH32, XXH64 and XXH3 in 64 and
128 bits. This project models all three hashes in Dafny and proves what a caller
relies on: streaming in any chunks gives the one-shot hash, the fast forms compute
what the simple forms compute, the mixing steps can be run backwards, and exactly which
changes of the input, the seed and the secret reach the hash.

| file | content |
|---|---|
| `Bits.dfy`, `Words.dfy`, `Primes.dfy` | bitwise operators on natural numbers, 32- and 64-bit words with wrap-around, rotations, and why xor-shifts, rotations and odd factors are reversible; the constants and their inverses |
| `Memory.dfy`, `Canonical.dfy` | byte order: loads, stores, swaps, canonical forms, comparison of 128-bit hashes |
| `Multiply.dfy` | 64x64 to 128 bits from 32-bit halves, and what folding the product keeps |
| `Xxh32.dfy`, `Xxh64.dfy` | the hash as a function, both finalizations, the one-shot code, the streaming class |
| `Xxh32Inverse.dfy`, `Xxh64Inverse.dfy` | both hashes run backwards, step by step |
| `Xxh32Detect.dfy`, `Xxh64Detect.dfy`, `Differences.dfy` | which changes of one consumed unit, of the seed and of the length are seen |
| `Xxh3Short.dfy`, `Xxh3Inverse.dfy`, `Xxh3Injective.dfy` | XXH3 up to 240 bytes; up to 16 bytes the hash gives the input back |
| `Xxh3Coverage.dfy`, `Xxh3MidDetect.dfy`, `Xxh3MidDetect128.dfy` | 17 to 240 bytes: which bytes are read, and what the hash sees of a change |
| `Secrets.dfy`, `GenerateSecret.dfy` | the default secret, derivation from a seed, generation from a custom seed |
| `Xxh3Long.dfy`, `Xxh3Stream.dfy`, `Xxh3Detect.dfy` | the accumulator loops, the streaming class, and what the accumulators and their merge see of a change |
| `Simd.dfy` | AVX512, AVX2, SSE2, NEON and VSX forms against the scalar loops |

How the model is written:

- A word is a natural number below 2^32 or 2^64. Addition, subtraction and
  multiplication wrap explicitly; `&`, `|`, `^` and the shifts are defined one binary
  digit at a time (`Bits.BitByBit` says what they do to each bit).
- Memory is a sequence of bytes; a pointer is an index into it. Every read proves that
  it stays inside the input and inside a secret of at least 136 bytes.
- A state is a class with the fields of the C structure. Its ghost field `stream` is
  everything fed since the last reset, and each operation is proved against it.
- The caller's secret is constant memory that outlives the session, as line 759 of the
  header asks, so it is a value; a null pointer is `Pointer.Null`.
- `size_t` is 64 bits wide. It matters only where a refused secret shorter than 64 bytes
  makes `secretLimit` wrap.
- The parts of an update that have their own loop are methods of their own
  (`FillIn`, `Absorb`, `ConsumeBlocks`, `DrainBuffer`, `ConsumeInput`).
- A keyed word is an input word, or an accumulator, xored with its part of the secret.
  XXH3 multiplies keyed words in pairs and folds the product. A factor that is a power of
  two (1, for instance) makes the fold a rotation of the other factor, and a factor zero
  loses it; the detection theorems for 17 bytes and more say what follows from either.

Where the code and its comments differ the model follows the code:

- `XXH3_len_4to8_64b` asserts `len < 8` (line 3447) but is called with 8 (line 3480);
  the model takes 4 to 8.
- The 64-bit length counters wrap at 2^64. XXH64 and XXH3 digests are proved for every
  length at which the wrapped counter still tells a long input from a short one
  (`Xxh64.CounterReliable`, `Xxh3Stream.LengthReliable`), which includes all lengths
  below 2^64. XXH32 needs no such condition: its 32-bit counter may wrap any number of
  times.
- `XXH3_64bits_reset_withSecret` changes the state before it refuses a secret; the
  secret cache is proved right after such a failure too.

## Model

| member | source | states |
|---|---|---|
| Bits.BitByBit | include/xxhash.h:3353-3357 | each bit of an xor, and, or is the xor, and, or of the bits |
| Bits.UnshiftUndoes | include/xxhash.h:3353-3357 | `x ^ (x >> s)` gives `x` back, for every positive shift and every width |
| Bits.XorShiftInjective | include/xxhash.h:3353-3357 | so it merges no two numbers |
| Words.RotlParts | include/xxhash.h:1602-1603 | shift-left or shift-right is the exchange of the top bits of the word with the rest |
| Words.RotlUndo | include/xxhash.h:1602-1603 | rotating on by the rest of the width brings every bit back |
| Words.RotlInjective | include/xxhash.h:1602-1603 | so a rotation merges no two words |
| Words.MulOddInjective | include/xxhash.h:1731-1735 | multiplying by any odd constant modulo a power of two merges no two words |
| Memory.SwapReverses | include/xxhash.h:2217-2227 | the shift-and-mask byte swaps of 32 and 64 bits reverse the byte order |
| Memory.LoadsAgree | include/xxhash.h:1649-1676 | byte-shift loads and native loads with a swap agree, little- and big-endian, on processors of both byte orders |
| Memory.StoresAgree | include/xxhash.h:3640-3644 | the 64-bit store writes the least significant byte first on both byte orders |
| Canonical.CanonicalRoundTrip | include/xxhash.h:2107-2117 | the canonical form is big-endian on both byte orders and converts back to the hash |
| Canonical.CanonicalRoundTripBack | include/xxhash.h:2655-2666 | any canonical form survives conversion to a hash and back |
| Canonical.Canonical128RoundTrip | include/xxhash.h:5407-5427 | both round trips for 128 bits, high word first |
| Canonical.CompareIsTotalOrder | include/xxhash.h:5383-5402 | the comparison is antisymmetric, total and transitive, and zero exactly on equal hashes, which is when the byte comparison finds them equal |
| Canonical.CompareIsLexicographic | include/xxhash.h:5394-5402 | it orders hashes as their canonical bytes are ordered |
| Multiply.Mult64To128Exact | include/xxhash.h:3316-3330 | low + 2^64 * high is the exact product of any two words |
| Multiply.NoOverflow | include/xxhash.h:3321-3324 | none of the sums of partial products overflows 64 bits |
| Multiply.FoldIs | include/xxhash.h:3346-3350 | the fold is the xor of the two halves of the exact product |
| Multiply.FoldByPower | include/xxhash.h:3346-3350 | a factor 2^k makes the fold the rotation of the other factor by k |
| Multiply.FoldInjective | include/xxhash.h:3346-3350 | so in either place it merges no two words, and a factor zero gives zero |
| Multiply.Mult128By64 | include/xxhash.h:5032-5038 | the last step of the 9-to-16 variant is multiplication of a 128-bit number modulo 2^128 |
| Xxh32.FinalizeRerolled | include/xxhash.h:1838-1848 | the loops consume exactly `len mod 16` bytes, words first |
| Xxh32.FinalizeUnrolled | include/xxhash.h:1849-1888 | the fall-through switch gives the same result for every remaining length and content |
| Xxh32.EndianAlign | include/xxhash.h:1911-1947 | the one-shot loop computes the hash, with either finalization |
| Xxh32.CountersAfter | include/xxhash.h:2020-2021 | the wrapping counter and the sticky flag know whether the true total has reached 16 |
| Xxh32.LaneThreeIsSeed | include/xxhash.h:2076-2083 | before the first stripe the third lane is still the seed |
| Xxh32.State.Reset | include/xxhash.h:1992-2003 | a state in any condition becomes that of an empty stream |
| Xxh32.State.Update | include/xxhash.h:2007-2068 | any chunk of any length is appended to the stream; lanes, buffer and counters are those of the longer stream, memsize is its length modulo 16 |
| Xxh32.State.Digest | include/xxhash.h:2072-2088 | the one-shot hash of everything fed, also beyond 2^32 bytes |
| Xxh32.HashChunks | include/xxhash.h:1992-2088 | every chunking of the data gives the one-shot hash |
| Xxh32Inverse.RoundUndone | include/xxhash.h:1731-1735 | a round gives back its accumulator from the input word, and the word from the accumulator |
| Xxh32Inverse.AvalancheUndone | include/xxhash.h:1797-1805 | the final mix is undone by xor-shifts and the inverses of its two factors |
| Xxh32Inverse.FinalizeUndone | include/xxhash.h:1823-1892 | a hash and its tail give back the state the tail started from |
| Xxh32Inverse.ConsumeUndone | include/xxhash.h:1931-1936 | the lanes after any number of stripes lead back through them to the initial lanes |
| Xxh32Inverse.LanesStart | include/xxhash.h:1926-1929 | the third lane starts as the seed and the others at fixed distances from it |
| Xxh32Inverse.SeedRecovered | include/xxhash.h:1941-1946 | a hash of less than 16 bytes and its input give back the seed |
| Xxh32Detect.RoundInjective | include/xxhash.h:1731-1735 | a round sees its accumulator and its input word |
| Xxh32Detect.StripesDetect | include/xxhash.h:1931-1936 | from the stripe with a changed word on, exactly that word's lane differs |
| Xxh32Detect.UnitChangeDetected | include/xxhash.h:1911-1947 | inputs of one length, however long, that differ only inside one stripe word, tail word or tail byte always hash differently |
| Xxh32Detect.ByteChangeDetected | include/xxhash.h:1911-1947 | every change of one byte changes the hash |
| Xxh32Detect.SameTailCollides | include/xxhash.h:1938-1946 | inputs with one tail, whatever their seeds and lengths, collide exactly when start plus length agree |
| Xxh32Detect.SeedDetected | include/xxhash.h:1941-1946 | below 16 bytes two seeds give one hash exactly when they are equal |
| Xxh32Detect.SeedKept | include/xxhash.h:1926-1936 | on longer inputs different seeds keep all four lanes different after every stripe |
| Xxh64.FinalizeRerolled | include/xxhash.h:2353-2368 | the loops consume exactly `len mod 32` bytes |
| Xxh64.FinalizeUnrolled | include/xxhash.h:2369-2449 | the fall-through switch gives the same result for every remaining length and content |
| Xxh64.EndianAlign | include/xxhash.h:2467-2507 | the one-shot loop computes the hash, with either finalization |
| Xxh64.State.Reset | include/xxhash.h:2551-2562 | a state in any condition becomes that of an empty stream |
| Xxh64.State.Update | include/xxhash.h:2565-2622 | any chunk is appended to the stream; memsize is the total modulo 32 |
| Xxh64.WrapRemainder | include/xxhash.h:2649-2649 | the wrapped total passed whole to the finalization has the remainder of the true total |
| Xxh64.State.Digest | include/xxhash.h:2627-2650 | the one-shot hash of everything fed |
| Xxh64.HashChunks | include/xxhash.h:2551-2650 | every chunking of the data gives the one-shot hash |
| Xxh64Inverse.RoundUndone | include/xxhash.h:2303-2309 | a round gives back its accumulator from the input word, and the word from the accumulator |
| Xxh64Inverse.MergeUndone | include/xxhash.h:2311-2317 | so does a merge round |
| Xxh64Inverse.AvalancheUndone | include/xxhash.h:2319-2327 | the final mix is undone by xor-shifts and the inverses of its two factors |
| Xxh64Inverse.FinalizeUndone | include/xxhash.h:2332-2455 | a hash and its tail give back the state the tail started from |
| Xxh64Inverse.ConsumeUndone | include/xxhash.h:2487-2492 | the lanes after any number of stripes lead back through them to the initial lanes |
| Xxh64Inverse.LanesStart | include/xxhash.h:2482-2485 | the third lane starts as the seed and the others at fixed distances from it |
| Xxh64Inverse.MergeRoundsUndone | include/xxhash.h:2494-2498 | undoing the four merge rounds leaves the sum of the rotated lanes |
| Xxh64Inverse.SeedRecovered | include/xxhash.h:2501-2506 | a hash of less than 32 bytes and its input give back the seed |
| Xxh64Detect.RoundInjective | include/xxhash.h:2303-2309 | a round sees its accumulator and its input word |
| Xxh64Detect.StripesDetect | include/xxhash.h:2487-2492 | two streams of any length that differ only in word j of stripe k have equal lanes up to it, and from it on exactly lane j differs |
| Xxh64Detect.MergeDetects | include/xxhash.h:2494-2498 | such lanes give different merge states up to round j, and equal ones after it exactly when the two differences cancel in the one xor where they meet |
| Xxh64Detect.StripeChangeDetected | include/xxhash.h:2467-2507 | so inputs that differ only in one stripe word collide exactly when that happens |
| Xxh64Detect.FinalizeInjective | include/xxhash.h:2332-2455 | a tail keeps different states different |
| Xxh64Detect.TailChangeDetected | include/xxhash.h:2467-2507 | inputs of one length that differ only inside one unit of the tail always hash differently |
| Xxh64Detect.ByteChangeDetected | include/xxhash.h:2467-2507 | so does every change of one byte of the tail |
| Xxh64Detect.SameTailCollides | include/xxhash.h:2501-2506 | inputs with one tail, whatever their seeds and lengths, collide exactly when start plus length agree |
| Xxh64Detect.SeedDetected | include/xxhash.h:2501-2506 | below 32 bytes two seeds give one hash exactly when they are equal |
| Xxh64Detect.SeedKept | include/xxhash.h:2482-2492 | on longer inputs different seeds keep all four lanes different after every stripe |
| Xxh3Short.CombinedIs | include/xxhash.h:3429-3433 | the packed word of 1 to 3 bytes has the middle, first, length and last byte in its four places |
| Xxh3Inverse.SpreadTwice | include/xxhash.h:3379-3379 | `x ^ rot^a(x) ^ rot^b(x)` applied twice doubles both amounts |
| Xxh3Inverse.RotXorUndone | include/xxhash.h:3379-3379 | so the step with two rotations is undone by itself applied 63 times |
| Xxh3Inverse.AddLengthTwice | include/xxhash.h:3381-3381 | the step that adds the length under a shift undoes itself |
| Xxh3Inverse.RrmxmxUndone | include/xxhash.h:3376-3384 | the strong mix gives its argument back, for each length |
| Xxh3Inverse.Avalanche3Undone | include/xxhash.h:3363-3369 | and so does the fast one |
| Xxh3Inverse.Recovered1To3 | include/xxhash.h:3420-3439 | the 64-bit hash of 1 to 3 bytes, and each half of the 128-bit one, gives the input back with its length |
| Xxh3Inverse.Recovered64 | include/xxhash.h:3475-3484 | the 64-bit hash of at most 8 bytes gives the input back, for each seed and secret |
| Xxh3Injective.Injective1To3 | include/xxhash.h:3420-3439 | no collision over all inputs of 1 to 3 bytes together, in 64 bits and in either half of 128 |
| Xxh3Injective.Hash64Injective | include/xxhash.h:3475-3484 | no collision in 64 bits between inputs of one length up to 8 |
| Xxh3Inverse.HighPartsAgree | include/xxhash.h:4999-5030 | the 32-bit and the 64-bit formulas for the high half agree for every input |
| Xxh3Inverse.Finish9To16Undone | include/xxhash.h:5034-5041 | the 128-bit product and the final mixes give back the number they were given |
| Xxh3Inverse.Middle9To16Undone | include/xxhash.h:4981-5032 | the state before them gives back both input words |
| Xxh3Inverse.Recovered128 | include/xxhash.h:5050-5064 | the 128-bit hash of at most 16 bytes gives the input back, for each seed and secret |
| Xxh3Injective.Hash128Injective | include/xxhash.h:5050-5064 | no collision in 128 bits between inputs of one length up to 16, for each seed and secret |
| Xxh3Injective.FlipDecides64 | include/xxhash.h:3420-3484 | seed and secret reach the 64-bit hash of at most 8 bytes through one word, which always shows |
| Xxh3Injective.SeedDetected64 | include/xxhash.h:3420-3484 | so two seeds give one such input the same hash exactly when they are equal |
| Xxh3Injective.SeedDetected128 | include/xxhash.h:4919-5064 | the same in 128 bits up to 16 bytes |
| Xxh3Injective.EndsSeen9To16 | include/xxhash.h:3458-3473 | 9 to 16 bytes in 64 bits: where the first eight bytes are the first flip word no two inputs of one length collide, so the last eight are all seen, and the other way round |
| Xxh3Injective.ByteSeen9To16 | include/xxhash.h:3458-3473 | at each of these lengths, seeds and secrets, every byte makes a difference: two inputs that differ in it alone have different hashes |
| Xxh3Coverage.Mid64IsSum | include/xxhash.h:3545-3572 | the nested conditions for 17 to 128 bytes add exactly the listed windows, all inside the input and a secret of 136 bytes |
| Xxh3Coverage.Mid128IsSum | include/xxhash.h:5081-5111 | the same in 128 bits |
| Xxh3Coverage.MidCovered | include/xxhash.h:3545-3572 | every byte of 17 to 128 is in a window, in both widths |
| Xxh3Coverage.RoundsAreSums | include/xxhash.h:3586-3622 | the two loops for 129 to 240 bytes add exactly the listed windows |
| Xxh3Coverage.RoundsArePairSums | include/xxhash.h:5122-5146 | the same in 128 bits |
| Xxh3Coverage.Late64IsSum | include/xxhash.h:3575-3626 | so the hash is the sum of the first loop, mixed, plus that of the second and the last 16 bytes |
| Xxh3Coverage.Late128IsSum | include/xxhash.h:5114-5161 | the same in 128 bits, the last pair with the negated seed |
| Xxh3Coverage.LongCovered | include/xxhash.h:4341-4372 | every byte of 129 to 240 is in a window, every byte of more in a whole stripe or the last 64 bytes |
| Xxh3MidDetect.MixSees | include/xxhash.h:3512-3541 | a change of either word of a window shows whenever the other, keyed, is a power of two, and never when it is zero |
| Xxh3MidDetect.Mid64Detects | include/xxhash.h:3545-3572 | 17 to 128 bytes: a change that one window sees and the others are silent about changes the hash, wherever windows overlap |
| Xxh3MidDetect.Mid64Loses | include/xxhash.h:3487-3503 | and one that all windows are silent about is lost, as the header warns |
| Xxh3MidDetect.AlignedWord64 | include/xxhash.h:3545-3572 | at 32, 64, 96 and 128 bytes every change of one aligned word beside a power of two changes the hash |
| Xxh3MidDetect.Late64Detects | include/xxhash.h:3575-3626 | 129 to 240 bytes: as for 17 to 128, before and after the mix in the middle |
| Xxh3MidDetect.LateWord64 | include/xxhash.h:3575-3626 | so of every aligned word before the last 16 bytes |
| Xxh3MidDetect128.PairDecides | include/xxhash.h:5069-5078 | both halves keep what they had, and a changed word always shows in the half that adds it |
| Xxh3MidDetect128.Finish128Sums | include/xxhash.h:5102-5108 | undoing the final avalanches leaves the two weighted sums of the accumulators |
| Xxh3MidDetect128.Finish128Collides | include/xxhash.h:5102-5108 | the final mix merges two accumulators exactly when their sums agree and their low halves agree but for the top two bits |
| Xxh3MidDetect128.Finish128SeesSeed | include/xxhash.h:5102-5108 | and two lengths and seeds exactly when length minus seed agrees |
| Xxh3MidDetect128.Mid128Detects | include/xxhash.h:5081-5111 | a change in one word of one window always reaches the accumulators, and the hashes collide exactly when these do |
| Xxh3MidDetect128.ZeroShows128 | include/xxhash.h:3508-3510 | the change beside a zero that 64 bits lose always shows in 128 |
| Xxh3MidDetect128.AlignedWord128 | include/xxhash.h:5081-5111 | at 32, 64, 96 and 128 bytes this holds of every aligned word |
| Xxh3MidDetect128.LateWord128 | include/xxhash.h:5114-5161 | at 129 to 240 bytes of every aligned word before the last 32 bytes |
| Secrets.InitCustomSecret | include/xxhash.h:4197-4259 | the loop writes all 192 bytes of the derived secret |
| Secrets.DeriveZero | include/xxhash.h:4247-4259 | seed 0 derives the default secret |
| Secrets.DeriveSeesSeed | include/xxhash.h:4247-4259 | every word of a derived secret tells its seed |
| GenerateSecret.FillSeeds | include/xxhash.h:4878-4886 | the doubling loop ends and leaves byte i of the custom seed, modulo its size, at place i of 96 |
| GenerateSecret.Generate | include/xxhash.h:4859-4899 | the twelve segments fill the 192 bytes, the same on both byte orders |
| GenerateSecret.GenerateDecides | include/xxhash.h:4859-4899 | two custom seeds generate one secret exactly when they have one 128-bit hash and fill one seed area from byte 8 on |
| GenerateSecret.GenerateInjective | include/xxhash.h:4859-4899 | so no two custom seeds of one size up to 88 bytes do |
| Xxh3Long.Accumulate512Scalar | include/xxhash.h:4162-4178 | the in-place loop gives each lane its neighbour's word and its own product |
| Xxh3Long.ScrambleAccScalar | include/xxhash.h:4180-4195 | the in-place loop scrambles each lane |
| Xxh3Long.FoldSplit | include/xxhash.h:4697-4719 | folding stripes one by one can be cut between any two stripes |
| Xxh3Long.FoldInBlock | include/xxhash.h:4324-4339 | inside a block the fold is the plain loop, with one scramble at its end |
| Xxh3Long.ConsumeStripes | include/xxhash.h:4697-4719 | from any position in a block, any number of stripes up to a block is the stripe-by-stripe fold, and the position stays below the block size |
| Xxh3Long.HashLongLoop | include/xxhash.h:4341-4372 | the nested block loop is the same fold over `(len-1)/64` stripes, then the last 64 bytes |
| Xxh3Long.MergeAccsLoop | include/xxhash.h:4382-4407 | the merging loop |
| Xxh3Long.SeedZeroIsDefault | include/xxhash.h:4467-4483 | seed 0 is the default hash at every length and in both widths, with or without the shortcut |
| Xxh3Long.OneShot64 | include/xxhash.h:4501-4544 | the one-shot functions in default, secret and seed mode, 64 bits |
| Xxh3Long.OneShot128 | include/xxhash.h:5247-5302 | the same, 128 bits |
| Xxh3Stream.FillKeeps | include/xxhash.h:4743-4747 | buffering a small chunk keeps the buffer and what is left of the last consumed stripe above it |
| Xxh3Stream.DrainKeeps | include/xxhash.h:4757-4767 | completing and consuming the buffer continues the fold and leaves the last stripe in its end |
| Xxh3Stream.StripeKept | include/xxhash.h:4782-4783 | after consuming the input in place its last stripe is stored there |
| Xxh3Stream.RestKeeps | include/xxhash.h:4787-4789 | buffering the rest, 1 to 256 bytes, leaves what it does not overwrite |
| Xxh3Stream.FinishRebuilt | include/xxhash.h:4825-4833 | with less than a stripe buffered the rebuilt stripe is the last 64 bytes of the stream |
| Xxh3Stream.FinishBuffered | include/xxhash.h:4813-4824 | otherwise the buffer supplies the remaining stripes and the last 64 bytes |
| Xxh3Stream.State.InitState | include/xxhash.h:1017-1017 | setting the seed to 0 makes the secret cache right |
| Xxh3Stream.State.Reset | include/xxhash.h:4664-4669 | default mode on any memory |
| Xxh3Stream.State.ResetWithSecret | include/xxhash.h:4673-4681 | secret mode; refuses exactly missing or short secrets and keeps the cache right even then |
| Xxh3Stream.State.ResetWithSeed | include/xxhash.h:4684-4692 | seed mode; skipping the derivation for an equal seed is right because a nonzero stored seed means the custom secret is derived from it |
| Xxh3Stream.State.CopyFrom | include/xxhash.h:4631-4635 | a copy has the stream, the mode and a right cache when the original has |
| Xxh3Stream.State.Update | include/xxhash.h:4724-4792 | any chunk is appended to the stream and the whole state is that of the longer stream |
| Xxh3Stream.State.DigestLong | include/xxhash.h:4803-4835 | the accumulators of the one-shot loop, without changing the state |
| Xxh3Stream.State.Digest64 | include/xxhash.h:4838-4854 | the one-shot hash of everything fed, 64 bits |
| Xxh3Stream.State.Digest128 | include/xxhash.h:5352-5375 | the same, 128 bits |
| Xxh3Stream.HashChunks | include/xxhash.h:4724-4854 | every chunking, length, mode and secret gives both one-shot hashes, on a state used before |
| Xxh3Stream.Execute | include/xxhash.h:4637-4692 | any sequence of resets and updates, failing resets included, keeps the secret cache right |
| Xxh3Stream.HashAfter | include/xxhash.h:4637-4854 | after any such history hashing in chunks gives both one-shot hashes |
| Xxh3Detect.FoldSeparates | include/xxhash.h:4324-4372 | word j of a stripe reaches its neighbour lane, always; lane j, exactly when the keyed products of its halves differ; and no other, through every later stripe and scramble |
| Xxh3Detect.WordChangeKept | include/xxhash.h:4341-4372 | the same of the accumulators that are merged, for every aligned word before the last 64 bytes and every secret |
| Xxh3Detect.LastWordChangeKept | include/xxhash.h:4365-4371 | and for each word of the last 64 bytes that no whole stripe holds |
| Xxh3Detect.MergeSeesLane | include/xxhash.h:4374-4407 | accumulators that differ in one lane merge to different words, for every start, secret and offset, when the other lane of its pair, keyed, is a power of two, and to one word when that is zero |
| Xxh3Detect.PairDecidesHash | include/xxhash.h:4382-4407 | accumulators that differ in one pair of lanes give one hash, and one half of the 128-bit hash, exactly when that pair mixes to one word |
| Xxh3Detect.FinishSeesLength | include/xxhash.h:4420-4428 | no two lengths give one set of accumulators the same hash, in 64 bits or in either half of 128 |
| Xxh3Detect.WordChangeDecides | include/xxhash.h:4341-4428 | so, in every mode, inputs of more than 240 bytes that differ in one aligned word before the last 64 bytes collide exactly when the one pair that the word reaches mixes to one word |
| Xxh3Detect.ModeDecides | include/xxhash.h:4501-4544 | at most 8 bytes: the hash shows the seed and the secret of the mode |
| Simd.AccumulateRegIs | include/xxhash.h:3797-3829 | every lane of one register, in all five instruction sets, is the scalar lane |
| Simd.HalfProducts | include/xxhash.h:3849-3853 | two 32-bit half products are the 64-bit product modulo 2^64 |
| Simd.AccumulateVector | include/xxhash.h:3690-4126 | accumulation in any vector form is the scalar accumulation |
| Simd.ScrambleVector | include/xxhash.h:3739-4156 | scrambling in any vector form is the scalar scramble |
| Simd.InitCustomSecretVector | include/xxhash.h:3763-3997 | secret derivation in the AVX512, AVX2 and SSE2 forms is the scalar one |

## Left out

- Hash quality, collision rates at other lengths, speed, prefetching and inline-assembly register hints: not functional behaviour.
- Compiler and platform detection, alignment variants and strict aliasing: the model has one byte memory; byte order is a parameter.
- Allocation and freeing of states, NULL states and NULL input: single branches.
- `XXH32_copyState`, `XXH64_copyState`: whole-structure copies, modelled for XXH3 only.
- Chunk lengths so large that `memsize + len` would wrap a `size_t`: no such object exists in memory.
- A caller that changes or frees its secret during a session, or passes memory inside the state as secret or input: the header forbids the first, and values cannot express the second.
- XXH3 from 17 to 128 bytes when a change lies in two windows at once (so the middle 16 bytes at 48, 80 and 112): covered only where one of them is silent, because two folds of one word may cancel.
- Unconditional detection in the stripes of XXH64 and in XXH3 above 16 bytes (above 8 in 64 bits): the final merges fold several words into one and are no bijections; the theorems say exactly when the merged values agree.
- `bench/`, `db/`, the other headers: no hashing code.
