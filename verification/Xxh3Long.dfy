/** XXH3 on inputs of more than 240 bytes: the accumulator loops and the one-shot
    hashes built on them. */
module Xxh3Long {
  import opened Bits
  import opened Words
  import opened Primes
  import opened Memory
  import opened Canonical
  import opened Multiply
  import opened Xxh3Short
  import opened Secrets

  /** The eight accumulators. */
  type Accs = a: seq<u64> | |a| == 8 witness [0, 0, 0, 0, 0, 0, 0, 0]

  function InitAcc(): Accs {
    [PRIME32_3, PRIME64_1, PRIME64_2, PRIME64_3, PRIME64_4, PRIME32_2, PRIME64_5, PRIME32_1]
  }

  // ---------------------------------------------------------------- one stripe

  /** The neighbouring lane, `i ^ 1`. */
  function Partner(i: nat): nat { if i % 2 == 0 then i + 1 else i - 1 }

  /** The product that word `i` of a stripe contributes to its own lane. */
  function LaneProduct(stripe: seq<byte>, key: seq<byte>, i: nat): u64
    requires |stripe| == |key| == 64 && i < 8
  {
    var dataKey := Xor64(ReadLE64(stripe, 8 * i), ReadLE64(key, 8 * i));
    Mult32To64(Lo32(dataKey), Hi32(dataKey))
  }

  /** A stripe adds to each lane its neighbour's word and its own product. */
  function Accumulate512(acc: Accs, stripe: seq<byte>, key: seq<byte>): (r: Accs)
    requires |stripe| == |key| == 64
  {
    seq(8, i requires 0 <= i < 8 =>
      Add64(Add64(acc[i], ReadLE64(stripe, 8 * Partner(i))), LaneProduct(stripe, key, i)))
  }

  function ScrambleLane(acc: u64, key: u64): u64 {
    Mul64(Xor64(XorShift64(acc, 47), key), PRIME32_1)
  }

  function Scramble(acc: Accs, key: seq<byte>): (r: Accs)
    requires |key| == 64
  {
    seq(8, i requires 0 <= i < 8 => ScrambleLane(acc[i], ReadLE64(key, 8 * i)))
  }

  /** Lane `k` after the first `i` steps of the scalar loop: it has been given its
      neighbour's word, its own product, both, or neither. */
  function PartlyAccumulated(acc: Accs, stripe: seq<byte>, key: seq<byte>, k: nat, i: nat): u64
    requires |stripe| == |key| == 64 && k < 8
  {
    var a := if Partner(k) < i then Add64(acc[k], ReadLE64(stripe, 8 * Partner(k))) else acc[k];
    if k < i then Add64(a, LaneProduct(stripe, key, k)) else a
  }

  /** `XXH3_accumulate_512_scalar`, in place. */
  method Accumulate512Scalar(acc: array<u64>, stripe: seq<byte>, key: seq<byte>)
    requires acc.Length == 8 && |stripe| == |key| == 64
    modifies acc
    ensures acc[..] == Accumulate512(old(acc[..]), stripe, key)
  {
    hide Xor64, Mult32To64, Lo32, Hi32, ReadLE64, Add64;
    ghost var before := acc[..];
    for i := 0 to 8
      invariant forall k | 0 <= k < 8 :: acc[k] == PartlyAccumulated(before, stripe, key, k, i)
    {
      var dataVal := ReadLE64(stripe, 8 * i);
      var dataKey := Xor64(dataVal, ReadLE64(key, 8 * i));
      var p := Partner(i);
      assert Partner(p) == i;
      AddSwap(before[p], dataVal, LaneProduct(stripe, key, p));
      acc[p] := Add64(acc[p], dataVal);
      acc[i] := Add64(acc[i], Mult32To64(Lo32(dataKey), Hi32(dataKey)));
    }
  }

  lemma AddSwap(a: u64, b: u64, c: u64)
    ensures Add64(Add64(a, b), c) == Add64(Add64(a, c), b)
  {
    hide Wrap64;
    WrapSum(a + b, c);
    WrapSum(a + c, b);
  }

  /** `XXH3_scrambleAcc_scalar`, in place. */
  method ScrambleAccScalar(acc: array<u64>, key: seq<byte>)
    requires acc.Length == 8 && |key| == 64
    modifies acc
    ensures acc[..] == Scramble(old(acc[..]), key)
  {
    hide Xor64, XorShift64, Mul64, ReadLE64;
    ghost var before := acc[..];
    for i := 0 to 8
      invariant forall k | 0 <= k < 8 ::
        acc[k] == if k < i then ScrambleLane(before[k], ReadLE64(key, 8 * k)) else before[k]
    {
      var acc64 := XorShift64(acc[i], 47);
      acc64 := Xor64(acc64, ReadLE64(key, 8 * i));
      acc[i] := Mul64(acc64, PRIME32_1);
    }
  }

  // ---------------------------------------------------------------- the fold over stripes

  /** Accumulators together with the number of stripes in the current block. */
  datatype Progress = Progress(acc: Accs, soFar: nat)

  function StripesPerBlock(secret: Secret): (n: nat)
    ensures n >= 9 && 8 * n + 64 <= |secret|
  {
    (|secret| - 64) / 8
  }

  function StripeAt(data: seq<byte>, n: nat): (s: seq<byte>)
    requires 64 * n + 64 <= |data|
    ensures |s| == 64
  {
    data[64 * n..64 * n + 64]
  }

  function KeyAt(secret: seq<byte>, j: nat): (s: seq<byte>)
    requires j + 64 <= |secret|
    ensures |s| == 64
  {
    secret[j..j + 64]
  }

  /** One stripe, scrambling as soon as it completes its block. */
  function Step(st: Progress, stripe: seq<byte>, secret: Secret): (r: Progress)
    requires |stripe| == 64 && st.soFar < StripesPerBlock(secret)
    ensures r.soFar < StripesPerBlock(secret)
  {
    var acc := Accumulate512(st.acc, stripe, KeyAt(secret, 8 * st.soFar));
    if st.soFar + 1 == StripesPerBlock(secret)
    then Progress(Scramble(acc, KeyAt(secret, |secret| - 64)), 0)
    else Progress(acc, st.soFar + 1)
  }

  /** The first `n` stripes of the data, one after the other. */
  function Fold(st: Progress, data: seq<byte>, secret: Secret, n: nat): (r: Progress)
    requires 64 * n <= |data| && st.soFar < StripesPerBlock(secret)
    ensures r.soFar < StripesPerBlock(secret)
  {
    if n == 0 then st else Step(Fold(st, data, secret, n - 1), StripeAt(data, n - 1), secret)
  }

  /** The fold can be cut anywhere between two stripes. */
  lemma {:induction false} FoldSplit(st: Progress, a: seq<byte>, b: seq<byte>, secret: Secret, m: nat, n: nat)
    requires |a| == 64 * m && 64 * n <= |b| && st.soFar < StripesPerBlock(secret)
    ensures Fold(st, a + b, secret, m + n) == Fold(Fold(st, a, secret, m), b, secret, n)
    decreases n
  {
    hide Step;
    if n == 0 {
      FoldPrefix(st, a, b, secret, m);
    } else {
      FoldSplit(st, a, b, secret, m, n - 1);
      assert StripeAt(a + b, m + n - 1) == StripeAt(b, n - 1);
    }
  }

  lemma {:induction false} FoldPrefix(st: Progress, a: seq<byte>, b: seq<byte>, secret: Secret, n: nat)
    requires 64 * n <= |a| && st.soFar < StripesPerBlock(secret)
    ensures Fold(st, a + b, secret, n) == Fold(st, a, secret, n)
  {
    hide Step;
    if n > 0 {
      FoldPrefix(st, a, b, secret, n - 1);
      assert StripeAt(a + b, n - 1) == StripeAt(a, n - 1);
    }
  }

  // ---------------------------------------------------------------- the loops

  /** `XXH3_accumulate` on values: `n` stripes without a scramble. */
  function AccumulateN(acc: Accs, data: seq<byte>, secret: seq<byte>, off: nat, n: nat): Accs
    requires 64 * n <= |data| && (n > 0 ==> off + 8 * (n - 1) + 64 <= |secret|)
  {
    if n == 0 then acc
    else Accumulate512(AccumulateN(acc, data, secret, off, n - 1), StripeAt(data, n - 1), KeyAt(secret, off + 8 * (n - 1)))
  }

  /** `XXH3_accumulate` */
  method Accumulate(acc: array<u64>, input: seq<byte>, p: nat, secret: seq<byte>, off: nat, n: nat)
    requires acc.Length == 8
    requires p + 64 * n <= |input| && (n > 0 ==> off + 8 * (n - 1) + 64 <= |secret|)
    modifies acc
    ensures acc[..] == AccumulateN(old(acc[..]), input[p..], secret, off, n)
  {
    hide Accumulate512;
    for i := 0 to n
      invariant acc[..] == AccumulateN(old(acc[..]), input[p..], secret, off, i)
    {
      assert StripeAt(input[p..], i) == input[p + 64 * i..p + 64 * i + 64];
      Accumulate512Scalar(acc, input[p + 64 * i..p + 64 * i + 64], KeyAt(secret, off + 8 * i));
    }
  }

  /** Inside a block the fold is the plain loop, with one scramble if it ends there. */
  lemma {:induction false} FoldInBlock(st: Progress, data: seq<byte>, secret: Secret, n: nat)
    requires 64 * n <= |data| && st.soFar < StripesPerBlock(secret)
    requires st.soFar + n <= StripesPerBlock(secret)
    ensures var acc := AccumulateN(st.acc, data, secret, 8 * st.soFar, n);
            Fold(st, data, secret, n) ==
            if st.soFar + n == StripesPerBlock(secret) then Progress(Scramble(acc, KeyAt(secret, |secret| - 64)), 0)
            else Progress(acc, st.soFar + n)
  {
    hide Accumulate512, Scramble, StripesPerBlock;
    if n > 0 {
      FoldInBlock(st, data, secret, n - 1);
    }
  }

  /** `XXH3_consumeStripes`: whatever the position in the block, as long as one call
      holds at most one block, it is the stripe-by-stripe fold. */
  method ConsumeStripes(acc: array<u64>, soFar: nat, nbStripesPerBlock: nat, input: seq<byte>, p: nat,
                        nbStripes: nat, secret: Secret, secretLimit: nat)
    returns (newSoFar: nat)
    requires acc.Length == 8 && p + 64 * nbStripes <= |input|
    requires secretLimit == |secret| - 64 && nbStripesPerBlock == StripesPerBlock(secret)
    requires nbStripes <= nbStripesPerBlock && soFar < nbStripesPerBlock
    modifies acc
    ensures Progress(acc[..], newSoFar) == Fold(Progress(old(acc[..]), soFar), input[p..], secret, nbStripes)
  {
    hide Accumulate512, Scramble, Step, AccumulateN;
    ghost var st := Progress(acc[..], soFar);
    if nbStripesPerBlock - soFar <= nbStripes {
      var toEnd := nbStripesPerBlock - soFar;
      var after := nbStripes - toEnd;
      ghost var data := input[p..];
      ghost var a, b := data[..64 * toEnd], data[64 * toEnd..];
      assert data == a + b && input[p + 64 * toEnd..] == b;
      FoldSplit(st, a, b, secret, toEnd, after);
      FoldInBlock(st, data, secret, toEnd);
      FoldPrefix(st, a, b, secret, toEnd);
      Accumulate(acc, input, p, secret, 8 * soFar, toEnd);
      ScrambleAccScalar(acc, KeyAt(secret, secretLimit));
      FoldInBlock(Progress(acc[..], 0), b, secret, after);
      Accumulate(acc, input, p + 64 * toEnd, secret, 0, after);
      newSoFar := after;
    } else {
      FoldInBlock(st, input[p..], secret, nbStripes);
      Accumulate(acc, input, p, secret, 8 * soFar, nbStripes);
      newSoFar := soFar + nbStripes;
    }
  }

  /** The accumulators of a long input: all stripes but the last, then the last
      64 bytes, which may overlap the stripe before. */
  function LongAccs(input: seq<byte>, secret: Secret): Accs
    requires |input| > 64
  {
    var st := Fold(Progress(InitAcc(), 0), input, secret, (|input| - 1) / 64);
    Accumulate512(st.acc, input[|input| - 64..], KeyAt(secret, |secret| - 64 - 7))
  }

  function BlockCount(len: nat, blockLen: nat): nat
    requires len > 0 && blockLen > 0
  {
    (len - 1) / blockLen
  }

  /** `XXH3_hashLong_internal_loop`: block by block, then the last partial block and
      the last stripe. */
  method HashLongLoop(acc: array<u64>, input: seq<byte>, secret: Secret)
    requires acc.Length == 8 && |input| > 64 && acc[..] == InitAcc()
    modifies acc
    ensures acc[..] == LongAccs(input, secret)
  {
    hide Accumulate512, Scramble, Step, AccumulateN, StripesPerBlock, InitAcc, BlockCount;
    var len := |input|;
    var nbStripesPerBlock := StripesPerBlock(secret);
    var blockLen := 64 * nbStripesPerBlock;
    var nbBlocks := BlockCount(len, blockLen);
    ghost var init := Progress(InitAcc(), 0);
    ghost var done := 0;
    BlockBounds(len, nbStripesPerBlock, nbBlocks);
    for n := 0 to nbBlocks
      invariant done == n * nbStripesPerBlock && n * blockLen == 64 * done <= len
      invariant Progress(acc[..], 0) == Fold(init, input, secret, done)
    {
      NextBlock(n, nbStripesPerBlock, nbBlocks);
      Extend(init, input, secret, done, nbStripesPerBlock);
      Accumulate(acc, input, n * blockLen, secret, 0, nbStripesPerBlock);
      ScrambleAccScalar(acc, KeyAt(secret, |secret| - 64));
      done := done + nbStripesPerBlock;
    }
    var nbStripes := ((len - 1) - blockLen * nbBlocks) / 64;
    LastBlock(len, nbStripesPerBlock, nbBlocks);
    Extend(init, input, secret, done, nbStripes);
    Accumulate(acc, input, nbBlocks * blockLen, secret, 0, nbStripes);
    Accumulate512Scalar(acc, input[len - 64..], KeyAt(secret, |secret| - 64 - 7));
  }

  /** From a block boundary the plain loop over at most one block extends the fold. */
  lemma Extend(init: Progress, input: seq<byte>, secret: Secret, done: nat, n: nat)
    requires init.soFar < StripesPerBlock(secret) && n <= StripesPerBlock(secret)
    requires 64 * done + 64 * n <= |input|
    requires Fold(init, input, secret, done).soFar == 0
    ensures var acc := AccumulateN(Fold(init, input, secret, done).acc, input[64 * done..], secret, 0, n);
            Fold(init, input, secret, done + n) ==
            if n == StripesPerBlock(secret) then Progress(Scramble(acc, KeyAt(secret, |secret| - 64)), 0)
            else Progress(acc, n)
  {
    hide Accumulate512, Scramble, Step, AccumulateN, StripesPerBlock, Fold;
    var a, b := input[..64 * done], input[64 * done..];
    assert input == a + b;
    FoldSplit(init, a, b, secret, done, n);
    FoldPrefix(init, a, b, secret, done);
    FoldInBlock(Fold(init, input, secret, done), b, secret, n);
  }

  lemma BlockBounds(len: nat, perBlock: nat, nbBlocks: nat)
    requires len > 0 && perBlock > 0 && nbBlocks == BlockCount(len, 64 * perBlock)
    ensures nbBlocks * (64 * perBlock) < len
    ensures nbBlocks * (64 * perBlock) == 64 * (nbBlocks * perBlock)
  {
    assert (len - 1) / (64 * perBlock) * (64 * perBlock) <= len - 1;
  }

  lemma NextBlock(n: nat, perBlock: nat, nbBlocks: nat)
    requires n < nbBlocks
    ensures (n + 1) * perBlock == n * perBlock + perBlock <= nbBlocks * perBlock
    ensures (n + 1) * (64 * perBlock) == 64 * ((n + 1) * perBlock)
    ensures nbBlocks * (64 * perBlock) == 64 * (nbBlocks * perBlock)
  {
    assert (n + 1) * perBlock <= nbBlocks * perBlock;
  }

  /** The partial block is shorter than a block and ends after stripe `(len - 1) / 64`. */
  lemma LastBlock(len: nat, perBlock: nat, nbBlocks: nat)
    requires len > 0 && perBlock > 0 && nbBlocks == BlockCount(len, 64 * perBlock)
    ensures var rest := (len - 1) - 64 * perBlock * nbBlocks;
            && 0 <= rest && rest / 64 < perBlock
            && nbBlocks * perBlock + rest / 64 == (len - 1) / 64
            && 64 * (nbBlocks * perBlock + rest / 64) <= len
  {
    BlockBounds(len, perBlock, nbBlocks);
    var rest := (len - 1) % (64 * perBlock);
    assert rest == (len - 1) - 64 * perBlock * nbBlocks;
    DivModUnique(nbBlocks * perBlock + rest / 64, rest % 64, 64, len - 1);
  }

  // ---------------------------------------------------------------- merging

  function Mix2Accs(acc: Accs, i: nat, secret: seq<byte>, j: nat): u64
    requires i + 2 <= 8 && j + 16 <= |secret|
  {
    MulFold64(Xor64(acc[i], ReadLE64(secret, j)), Xor64(acc[i + 1], ReadLE64(secret, j + 8)))
  }

  function MergeUpTo(acc: Accs, secret: seq<byte>, j: nat, start: u64, n: nat): u64
    requires n <= 4 && j + 64 <= |secret|
  {
    if n == 0 then start
    else Add64(MergeUpTo(acc, secret, j, start, n - 1), Mix2Accs(acc, 2 * (n - 1), secret, j + 16 * (n - 1)))
  }

  function MergeAccs(acc: Accs, secret: seq<byte>, j: nat, start: u64): u64
    requires j + 64 <= |secret|
  {
    Avalanche3(MergeUpTo(acc, secret, j, start, 4))
  }

  function Finish64(acc: Accs, secret: Secret, len: nat): u64 {
    MergeAccs(acc, secret, 11, Mul64(Wrap64(len), PRIME64_1))
  }

  /** `~x` */
  function Not64(x: u64): u64 { 0xFFFF_FFFF_FFFF_FFFF - x }

  function Finish128(acc: Accs, secret: Secret, len: nat): Hash128 {
    Hash128(MergeAccs(acc, secret, 11, Mul64(Wrap64(len), PRIME64_1)),
            MergeAccs(acc, secret, |secret| - 64 - 11, Not64(Mul64(Wrap64(len), PRIME64_2))))
  }

  /** `XXH3_mergeAccs` */
  method MergeAccsLoop(acc: array<u64>, secret: seq<byte>, j: nat, start: u64) returns (r: u64)
    requires acc.Length == 8 && j + 64 <= |secret|
    ensures r == MergeAccs(acc[..], secret, j, start)
  {
    hide Avalanche3, Mix2Accs;
    r := start;
    for i := 0 to 4
      invariant r == MergeUpTo(acc[..], secret, j, start, i)
    {
      r := Add64(r, Mix2Accs(acc[..], 2 * i, secret, j + 16 * i));
    }
    r := Avalanche3(r);
  }

  // ---------------------------------------------------------------- the public functions

  datatype Mode = Default | WithSecret(secret: Secret) | WithSeed(seed: u64)

  function Hash64(mode: Mode, input: seq<byte>): u64 {
    match mode
    case Default => Internal64(input, 0, KSecret(), KSecret())
    case WithSecret(s) => Internal64(input, 0, s, s)
    case WithSeed(seed) => Internal64(input, seed, KSecret(), if seed == 0 then KSecret() else Derive(seed))
  }

  function Hash128Of(mode: Mode, input: seq<byte>): Hash128 {
    match mode
    case Default => Internal128(input, 0, KSecret(), KSecret())
    case WithSecret(s) => Internal128(input, 0, s, s)
    case WithSeed(seed) => Internal128(input, seed, KSecret(), if seed == 0 then KSecret() else Derive(seed))
  }

  /** Short inputs use the secret and the seed, long ones the long secret alone. */
  function Internal64(input: seq<byte>, seed: u64, secret: Secret, longSecret: Secret): u64 {
    if |input| <= 240 then Short64(input, secret, seed)
    else Finish64(LongAccs(input, longSecret), longSecret, |input|)
  }

  function Internal128(input: seq<byte>, seed: u64, secret: Secret, longSecret: Secret): Hash128 {
    if |input| <= 240 then Short128(input, secret, seed)
    else Finish128(LongAccs(input, longSecret), longSecret, |input|)
  }

  /** Seed 0 is the default hash at every length and in both widths, with or without
      the shortcut that skips deriving the secret. */
  lemma SeedZeroIsDefault(input: seq<byte>)
    ensures Hash64(WithSeed(0), input) == Hash64(Default, input) == Internal64(input, 0, KSecret(), Derive(0))
    ensures Hash128Of(WithSeed(0), input) == Hash128Of(Default, input) == Internal128(input, 0, KSecret(), Derive(0))
  {
    hide Internal64, Internal128;
    DeriveZero();
  }

  /** `XXH3_64bits`, `XXH3_64bits_withSecret` and `XXH3_64bits_withSeed`. */
  method OneShot64(mode: Mode, input: seq<byte>) returns (h: u64)
    ensures h == Hash64(mode, input)
  {
    hide Short64, LongAccs, MergeAccs, KSecret, Derive, InitAcc;
    if |input| <= 240 {
      h := ShortLoop64(input, ShortSecret(mode), ShortSeed(mode));
    } else {
      var secret := PrepareSecret(mode);
      var acc := InitialAccs();
      HashLongLoop(acc, input, secret);
      h := MergeAccsLoop(acc, secret, 11, Mul64(Wrap64(|input|), PRIME64_1));
    }
  }

  method OneShot128(mode: Mode, input: seq<byte>) returns (h: Hash128)
    ensures h == Hash128Of(mode, input)
  {
    hide Short128, LongAccs, MergeAccs, KSecret, Derive, InitAcc;
    if |input| <= 240 {
      h := ShortLoop128(input, ShortSecret(mode), ShortSeed(mode));
    } else {
      var secret := PrepareSecret(mode);
      var acc := InitialAccs();
      HashLongLoop(acc, input, secret);
      var low := MergeAccsLoop(acc, secret, 11, Mul64(Wrap64(|input|), PRIME64_1));
      var high := MergeAccsLoop(acc, secret, |secret| - 64 - 11, Not64(Mul64(Wrap64(|input|), PRIME64_2)));
      h := Hash128(low, high);
    }
  }

  function ShortSecret(mode: Mode): Secret { if mode.WithSecret? then mode.secret else KSecret() }
  function ShortSeed(mode: Mode): u64 { if mode.WithSeed? then mode.seed else 0 }

  /** The secret of the long loop: derived from the seed when there is one. */
  function LongSecret(mode: Mode): Secret {
    match mode
    case Default => KSecret()
    case WithSecret(s) => s
    case WithSeed(seed) => if seed == 0 then KSecret() else Derive(seed)
  }

  method PrepareSecret(mode: Mode) returns (secret: Secret)
    ensures secret == LongSecret(mode)
  {
    hide KSecret, Derive;
    match mode
    case Default => secret := KSecret();
    case WithSecret(s) => secret := s;
    case WithSeed(seed) =>
      if seed == 0 {
        secret := KSecret();
      } else {
        var custom := new byte[192];
        InitCustomSecret(custom, seed);
        secret := custom[..];
      }
  }

  method InitialAccs() returns (acc: array<u64>)
    ensures fresh(acc) && acc.Length == 8 && acc[..] == InitAcc()
  {
    acc := new u64[8] [PRIME32_3, PRIME64_1, PRIME64_2, PRIME64_3, PRIME64_4, PRIME32_2, PRIME64_5, PRIME32_1];
  }

  /** The dispatch on short lengths, with the loops of the 129-to-240 variants. */
  method ShortLoop64(input: seq<byte>, secret: Secret, seed: u64) returns (h: u64)
    requires |input| <= 240
    ensures h == Short64(input, secret, seed)
  {
    hide Len0To16_64, Len17To128_64, Mix16B, Avalanche3, Mul64, Add64;
    if |input| <= 16 {
      h := Len0To16_64(input, secret, seed);
    } else if |input| <= 128 {
      h := Len17To128_64(input, secret, seed);
    } else {
      var nbRounds := |input| / 16;
      h := Mul64(|input|, PRIME64_1);
      for i := 0 to 8
        invariant i < 8 ==> h == Rounds64(input, secret, seed, i)
        invariant i == 8 ==> Avalanche3(h) == Rounds64(input, secret, seed, 8)
      {
        h := Add64(h, Mix16B(input, 16 * i, secret, 16 * i, seed));
      }
      h := Avalanche3(h);
      for i := 8 to nbRounds
        invariant h == Rounds64(input, secret, seed, i)
      {
        h := Add64(h, Mix16B(input, 16 * i, secret, 16 * (i - 8) + 3, seed));
      }
      h := Add64(h, Mix16B(input, |input| - 16, secret, SECRET_SIZE_MIN - 17, seed));
      h := Avalanche3(h);
    }
  }

  method ShortLoop128(input: seq<byte>, secret: Secret, seed: u64) returns (h: Hash128)
    requires |input| <= 240
    ensures h == Short128(input, secret, seed)
  {
    hide Len0To16_128, Len17To128_128, Mix32B, Avalanche3, Mul64, Xxh3Short.Finish128;
    if |input| <= 16 {
      h := Len0To16_128(input, secret, seed);
    } else if |input| <= 128 {
      h := Len17To128_128(input, secret, seed);
    } else {
      var nbRounds := |input| / 32;
      var acc := Hash128(Mul64(|input|, PRIME64_1), 0);
      for i := 0 to 4
        invariant i < 4 ==> acc == Rounds128(input, secret, seed, i)
        invariant i == 4 ==> Hash128(Avalanche3(acc.low64), Avalanche3(acc.high64)) == Rounds128(input, secret, seed, 4)
      {
        acc := Mix32B(acc, input, 32 * i, 32 * i + 16, secret, 32 * i, seed);
      }
      acc := Hash128(Avalanche3(acc.low64), Avalanche3(acc.high64));
      for i := 4 to nbRounds
        invariant acc == Rounds128(input, secret, seed, i)
      {
        acc := Mix32B(acc, input, 32 * i, 32 * i + 16, secret, 32 * (i - 4) + 3, seed);
      }
      acc := Mix32B(acc, input, |input| - 16, |input| - 32, secret, SECRET_SIZE_MIN - 17 - 16, Sub64(0, seed));
      h := Xxh3Short.Finish128(acc, |input|, seed);
    }
  }
}
