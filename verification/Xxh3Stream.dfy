/** The streaming state of XXH3: a buffer consumed as late as possible, whose tail
    keeps bytes already consumed, and a derived secret cached across resets. */
module Xxh3Stream {
  import opened Bits
  import opened Words
  import opened Primes
  import opened Memory
  import opened Canonical
  import opened Xxh3Short
  import opened Secrets
  import opened Xxh3Long

  datatype Pointer = Null | To(bytes: seq<byte>)

  /** The accumulators after the first `n` stripes of a stream. */
  function Consumed(data: seq<byte>, secret: Secret, n: nat): (r: Progress)
    requires 64 * n <= |data|
    ensures r.soFar < StripesPerBlock(secret)
  {
    Fold(Progress(InitAcc(), 0), data, secret, n)
  }

  /** Feeding a piece `x` found at stripe `k` of the data continues the fold there. */
  lemma Continue(data: seq<byte>, secret: Secret, k: nat, x: seq<byte>, n: nat)
    requires 64 * k + |x| <= |data| && 64 * n <= |x|
    requires data[64 * k..64 * k + |x|] == x
    ensures Consumed(data, secret, k + n) == Fold(Consumed(data, secret, k), x, secret, n)
  {
    hide Fold, InitAcc, StripesPerBlock;
    var a, b, c := data[..64 * k], data[64 * k..64 * k + |x|], data[64 * k + |x|..];
    assert data == a + (b + c);
    var init := Progress(InitAcc(), 0);
    FoldSplit(init, a, b + c, secret, k, n);
    FoldPrefix(init, a, b + c, secret, k);
    FoldPrefix(Fold(init, a, secret, k), b, c, secret, n);
  }

  lemma ConsumedPrefix(s: seq<byte>, t: seq<byte>, secret: Secret, n: nat)
    requires 64 * n <= |s|
    ensures Consumed(s + t, secret, n) == Consumed(s, secret, n)
  {
    FoldPrefix(Progress(InitAcc(), 0), s, t, secret, n);
  }

  /** The state hashes in one of two ways; the default is the secret `XXH3_kSecret`. */
  function Normal(mode: Mode): Mode {
    match mode
    case Default => WithSecret(KSecret())
    case WithSecret(_) => mode
    case WithSeed(seed) => if seed == 0 then WithSecret(KSecret()) else mode
  }

  lemma NormalHashesAlike(mode: Mode, input: seq<byte>)
    ensures Hash64(Normal(mode), input) == Hash64(mode, input)
    ensures Hash128Of(Normal(mode), input) == Hash128Of(mode, input)
  {
    hide Internal64, Internal128, KSecret, Derive;
  }

  /** The 64-bit counter still tells a long input from a short one: true of every
      length below 2^64, and beyond it of all but 241 lengths in each 2^64. */
  predicate LengthReliable(len: nat) {
    len > 240 ==> Wrap64(len) > 240
  }

  // ---------------------------------------------------------------- the buffer, as values

  /** `rounds` buffers of 256 bytes have been consumed, the rest is buffered, and
      once anything has been fed something is always buffered. What the buffered
      bytes have not overwritten of the last 64 positions is the end of the
      consumed part. */
  ghost predicate Holding(s: seq<byte>, secret: Secret, st: Progress, buf: seq<byte>, size: nat, rounds: nat) {
    && |buf| == 256 && size <= 256 && |s| == 256 * rounds + size
    && (|s| > 0 ==> size > 0)
    && st == Consumed(s, secret, 4 * rounds)
    && buf[..size] == s[256 * rounds..]
    && (rounds > 0 ==> TailOf(s, buf, size, 256 * rounds))
  }

  ghost predicate TailOf(s: seq<byte>, buf: seq<byte>, size: nat, done: nat)
    requires |buf| == 256 && 256 <= done <= |s| && size <= 256
  {
    forall i | 192 <= i < 256 && size <= i :: buf[i] == s[done - 256 + i]
  }

  /** Between the steps of an update: `done` bytes are consumed, nothing is buffered,
      and the buffer ends with the last stripe consumed. */
  ghost predicate Between(s: seq<byte>, secret: Secret, st: Progress, buf: seq<byte>, done: nat, rounds: nat) {
    && |buf| == 256 && done == 256 * rounds <= |s|
    && st == Consumed(s, secret, 4 * rounds)
    && (rounds > 0 ==> TailOf(s, buf, 0, done))
  }

  lemma FillKeeps(s: seq<byte>, t: seq<byte>, secret: Secret, st: Progress, buf: seq<byte>, size: nat, rounds: nat)
    requires Holding(s, secret, st, buf, size, rounds) && size + |t| <= 256
    ensures Holding(s + t, secret, st, Overwrite(buf, size, t), size + |t|, rounds)
  {
    hide Consumed, Overwrite;
    ConsumedPrefix(s, t, secret, 4 * rounds);
    var b := Overwrite(buf, size, t);
    assert forall i | 0 <= i < size :: b[i] == buf[..size][i] == s[256 * rounds..][i];
    assert b[..size + |t|] == (s + t)[256 * rounds..];
  }

  /** Completing the buffer and consuming it. */
  lemma DrainKeeps(s: seq<byte>, t: seq<byte>, secret: Secret, st: Progress, buf: seq<byte>, size: nat, rounds: nat)
    requires Holding(s, secret, st, buf, size, rounds) && size + |t| > 256
    ensures var b := Overwrite(buf, size, t[0..256 - size]);
            Between(s + t, secret, Fold(st, b, secret, 4), b, |s| + 256 - size, rounds + 1)
  {
    hide Consumed, Overwrite, TailOf;
    ConsumedPrefix(s, t, secret, 4 * rounds);
    var b := Overwrite(buf, size, t[0..256 - size]);
    FullBuffer(s, t, buf, size, 256 * rounds);
    Continue(s + t, secret, 4 * rounds, b, 4);
    SliceIsTail(s + t, b, 256 * rounds);
  }

  lemma FullBuffer(s: seq<byte>, t: seq<byte>, buf: seq<byte>, size: nat, done: nat)
    requires |buf| == 256 && size <= 256 && |s| == done + size && size + |t| > 256
    requires buf[..size] == s[done..]
    ensures Overwrite(buf, size, t[0..256 - size]) == (s + t)[done..done + 256]
  {
    hide Overwrite;
    var b := Overwrite(buf, size, t[0..256 - size]);
    forall i | 0 <= i < 256
      ensures b[i] == (s + t)[done + i]
    {
      if i < size { assert b[i] == buf[..size][i] == s[done..][i]; }
    }
  }

  lemma SliceIsTail(s: seq<byte>, b: seq<byte>, done: nat)
    requires |b| == 256 && done + 256 <= |s| && b == s[done..done + 256]
    ensures TailOf(s, b, 0, done + 256)
  {
  }

  /** Storing the last stripe of the input consumed in place. */
  lemma StripeKept(s: seq<byte>, t: seq<byte>, secret: Secret, st: Progress, buf: seq<byte>, p: nat, rounds: nat)
    requires |buf| == 256 && 64 <= p < |t| && |s| + p == 256 * rounds
    requires st == Consumed(s + t, secret, 4 * rounds)
    ensures Between(s + t, secret, st, Overwrite(buf, 192, t[p - 64..p - 64 + 64]), |s| + p, rounds)
  {
    hide Consumed;
  }

  /** Consuming 256 bytes of the input in place. */
  lemma ConsumeKeeps(s: seq<byte>, t: seq<byte>, secret: Secret, k: nat, p: nat)
    requires |s| + p == 256 * k && p + 256 <= |t|
    ensures Consumed(s + t, secret, 4 * (k + 1)) == Fold(Consumed(s + t, secret, 4 * k), t[p..], secret, 4)
  {
    hide Consumed;
    assert (s + t)[256 * k..256 * k + |t[p..]|] == t[p..];
    Continue(s + t, secret, 4 * k, t[p..], 4);
  }

  /** Buffering what is left leaves the end of the consumed part above it. */
  lemma RestKeeps(s: seq<byte>, t: seq<byte>, secret: Secret, st: Progress, buf: seq<byte>, p: nat, rounds: nat)
    requires p < |t| <= p + 256 && Between(s + t, secret, st, buf, |s| + p, rounds)
    ensures Holding(s + t, secret, st, Overwrite(buf, 0, t[p..|t|]), |t| - p, rounds)
  {
    hide Consumed, Overwrite;
    var b := Overwrite(buf, 0, t[p..|t|]);
    assert b[..|t| - p] == (s + t)[256 * rounds..];
  }

  /** The buffered stripes but the last, then the last 64 bytes, out of the buffer. */
  lemma FinishBuffered(s: seq<byte>, secret: Secret, st: Progress, buf: seq<byte>, size: nat, rounds: nat)
    requires Holding(s, secret, st, buf, size, rounds) && 64 <= size && 64 < |s|
    ensures (size - 1) / 64 <= 3
    ensures LongAccs(s, secret) == Accumulate512(Fold(st, buf[..size], secret, (size - 1) / 64).acc,
                                                 buf[size - 64..size], KeyAt(secret, |secret| - 64 - 7))
  {
    hide Accumulate512, Fold, TailOf;
    var n := (size - 1) / 64;
    DivModUnique(4 * rounds + n, (size - 1) % 64, 64, |s| - 1);
    var x := buf[..size];
    assert s[64 * (4 * rounds)..64 * (4 * rounds) + |x|] == x;
    Continue(s, secret, 4 * rounds, x, n);
    assert buf[size - 64..size] == x[size - 64..] == s[|s| - 64..];
  }

  /** With less than a stripe buffered the last 64 bytes are rebuilt from the end of
      the buffer, which still holds the end of the consumed part. */
  lemma FinishRebuilt(s: seq<byte>, secret: Secret, st: Progress, buf: seq<byte>, size: nat, rounds: nat)
    requires Holding(s, secret, st, buf, size, rounds) && size < 64 < |s|
    ensures size > 0
    ensures LongAccs(s, secret) == Accumulate512(st.acc, buf[256 - (64 - size)..] + buf[..size],
                                                 KeyAt(secret, |secret| - 64 - 7))
  {
    hide Accumulate512, Fold;
    DivModUnique(4 * rounds, size - 1, 64, |s| - 1);
    var last := buf[256 - (64 - size)..] + buf[..size];
    forall i | 0 <= i < 64
      ensures last[i] == s[|s| - 64 + i]
    {
      if i >= 64 - size { assert last[i] == buf[..size][i - (64 - size)] == s[256 * rounds..][i - (64 - size)]; }
    }
    assert last == s[|s| - 64..];
  }

  // ---------------------------------------------------------------- the state

  method CopyArray<T>(dst: array<T>, src: array<T>)
    requires dst != src && dst.Length == src.Length
    modifies dst
    ensures dst[..] == src[..] == old(src[..])
  {
    forall i | 0 <= i < dst.Length { dst[i] := src[i]; }
  }

  /** `XXH3_state_t`. `stream` is every byte fed since the last reset. */
  class State {
    const acc: array<u64>
    const customSecret: array<byte>
    const buffer: array<byte>
    var bufferedSize: nat
    var nbStripesSoFar: nat
    var totalLen: u64
    var nbStripesPerBlock: nat
    var secretLimit: nat
    var seed: u64
    var extSecret: Pointer
    ghost var stream: seq<byte>
    ghost var rounds: nat

    /** Memory for a state, with anything in it. */
    ghost predicate Shape() {
      && acc.Length == 8 && customSecret.Length == 192 && buffer.Length == 256
      && customSecret != buffer
    }

    /** What every operation keeps, even a reset that fails: a nonzero seed means
        that the custom secret is the one derived from it and is the one in use. */
    ghost predicate CacheOk()
      reads `seed, `extSecret, customSecret
    {
      && Shape()
      && (seed != 0 ==> extSecret.Null? && customSecret[..] == Derive(seed))
    }

    /** `(state->extSecret == NULL) ? state->customSecret : state->extSecret` */
    function SecretBytes(): seq<byte>
      reads `extSecret, customSecret
    {
      if extSecret.Null? then customSecret[..] else extSecret.bytes
    }

    ghost function CurrentMode(): Mode
      reads `seed, `extSecret
      requires extSecret.To? ==> |extSecret.bytes| >= 136
    {
      if extSecret.To? then WithSecret(extSecret.bytes) else WithSeed(seed)
    }

    /** The state after a successful reset. */
    ghost predicate Ready()
      reads this, acc, customSecret, buffer
    {
      && CacheOk()
      && (extSecret.Null? ==> seed != 0)
      && |SecretBytes()| >= 136
      && secretLimit == |SecretBytes()| - 64 && nbStripesPerBlock == StripesPerBlock(SecretBytes())
      && totalLen == Wrap64(|stream|)
      && Holds(stream)
    }

    ghost predicate Holds(s: seq<byte>)
      reads `bufferedSize, `nbStripesSoFar, `rounds, `extSecret, acc, customSecret, buffer
    {
      && acc.Length == 8 && |SecretBytes()| >= 136
      && Holding(s, SecretBytes(), Progress(acc[..], nbStripesSoFar), buffer[..], bufferedSize, rounds)
    }

    /** A state merely placed in memory. */
    constructor ()
      ensures Shape() && fresh(acc) && fresh(customSecret) && fresh(buffer)
    {
      acc := new u64[8];
      customSecret := new byte[192];
      buffer := new byte[256];
      seed := *;
    }

    /** `XXH3_INITSTATE`, which also ends `XXH3_createState`: only the seed is set. */
    method InitState()
      requires Shape()
      modifies `seed
      ensures CacheOk() && seed == 0
    {
      seed := 0;
    }

    /** `XXH3_reset_internal` */
    method ResetInternal(seed: u64, secret: Pointer, secretSize: nat)
      requires Shape()
      modifies this, acc
      ensures bufferedSize == 0 && nbStripesSoFar == 0 && totalLen == 0 && stream == [] && rounds == 0
      ensures this.seed == seed && extSecret == secret
      ensures secretLimit == Wrap64(secretSize - 64) && nbStripesPerBlock == secretLimit / 8
      ensures acc[..] == InitAcc()
    {
      bufferedSize, nbStripesSoFar, totalLen := 0, 0, 0;
      acc[0], acc[1], acc[2], acc[3] := PRIME32_3, PRIME64_1, PRIME64_2, PRIME64_3;
      acc[4], acc[5], acc[6], acc[7] := PRIME64_4, PRIME32_2, PRIME64_5, PRIME32_1;
      this.seed, extSecret := seed, secret;
      secretLimit := Wrap64(secretSize - 64);
      nbStripesPerBlock := secretLimit / 8;
      stream, rounds := [], 0;
      assert acc[..] == InitAcc();
    }

    /** `XXH3_64bits_reset` and `XXH3_128bits_reset`, on any memory. */
    method Reset()
      requires Shape()
      modifies this, acc
      ensures Ready() && stream == [] && CurrentMode() == Normal(Default)
    {
      hide KSecret, InitAcc;
      ResetInternal(0, To(KSecret()), 192);
    }

    /** `XXH3_64bits_reset_withSecret`: refuses a missing or short secret, but only
        after the state has been reset. */
    method ResetWithSecret(secret: Pointer, secretSize: nat) returns (ok: bool)
      requires Shape() && secretSize < 0x1_0000_0000_0000_0000
      requires secret.To? ==> |secret.bytes| == secretSize
      modifies this, acc
      ensures CacheOk()
      ensures ok <==> secret.To? && secretSize >= 136
      ensures ok ==> Ready() && stream == [] && CurrentMode() == WithSecret(secret.bytes)
    {
      hide InitAcc;
      ResetInternal(0, secret, secretSize);
      if secret.Null? { return false; }
      if secretSize < 136 { return false; }
      return true;
    }

    /** `XXH3_64bits_reset_withSeed`: derives the secret only when the seed changes,
        so a nonzero seed needs the stored one to be right. */
    method ResetWithSeed(seed: u64)
      requires Shape() && (seed != 0 ==> CacheOk())
      modifies this, acc, customSecret
      ensures Ready() && stream == [] && CurrentMode() == Normal(WithSeed(seed))
    {
      hide KSecret, InitAcc, Derive;
      if seed == 0 {
        Reset();
        return;
      }
      if seed != this.seed { InitCustomSecret(customSecret, seed); }
      ResetInternal(seed, Null, 192);
    }

    /** `XXH3_copyState` */
    method CopyFrom(src: State)
      requires Shape() && src.Shape()
      requires acc != src.acc && customSecret !in {src.customSecret, src.buffer} && buffer !in {src.customSecret, src.buffer}
      modifies this, acc, customSecret, buffer
      ensures old(src.CacheOk()) ==> CacheOk()
      ensures old(src.Ready()) ==> Ready() && stream == old(src.stream) && CurrentMode() == old(src.CurrentMode())
    {
      hide Derive, Holding, KSecret, StripesPerBlock, Wrap64;
      CopyArray(acc, src.acc);
      CopyArray(customSecret, src.customSecret);
      CopyArray(buffer, src.buffer);
      bufferedSize, nbStripesSoFar, totalLen := src.bufferedSize, src.nbStripesSoFar, src.totalLen;
      nbStripesPerBlock, secretLimit := src.nbStripesPerBlock, src.secretLimit;
      seed, extSecret := src.seed, src.extSecret;
      stream, rounds := src.stream, src.rounds;
    }

    /** Copy `n` bytes of the input into the buffer at `at`. */
    method CopyIn(at: nat, input: seq<byte>, p: nat, n: nat)
      requires at + n <= buffer.Length && p + n <= |input|
      modifies buffer
      ensures buffer[..] == Overwrite(old(buffer[..]), at, input[p..p + n])
    {
      forall i | 0 <= i < n { buffer[at + i] := input[p + i]; }
    }

    /** `XXH3_update`: any chunk, of any length. */
    method Update(input: seq<byte>)
      requires Ready()
      modifies this, acc, buffer
      ensures Ready() && stream == old(stream) + input && CurrentMode() == old(CurrentMode())
    {
      hide Holds, Derive, Wrap64, KSecret;
      ghost var before := stream;
      CounterAfter(|before|, |input|);
      totalLen := Add64(totalLen, Wrap64(|input|));
      if bufferedSize + |input| <= 256 {
        FillIn(input);
      } else {
        Absorb(input);
      }
      stream := before + input;
    }

    /** The input still fits into the buffer. */
    method FillIn(input: seq<byte>)
      requires CacheOk() && Holds(stream) && bufferedSize + |input| <= 256
      modifies `bufferedSize, buffer
      ensures CacheOk() && Holds(stream + input)
    {
      hide Holding, Derive, Overwrite;
      FillKeeps(stream, input, SecretBytes(), Progress(acc[..], nbStripesSoFar), buffer[..], bufferedSize, rounds);
      assert input[0..|input|] == input;
      CopyIn(bufferedSize, input, 0, |input|);
      bufferedSize := bufferedSize + |input|;
    }

    /** The buffer is full: consume it and as many whole buffers of the input as
        leave at least one byte, and buffer the rest. */
    method Absorb(input: seq<byte>)
      requires CacheOk() && Holds(stream) && bufferedSize + |input| > 256
      requires secretLimit == |SecretBytes()| - 64 && nbStripesPerBlock == StripesPerBlock(SecretBytes())
      modifies `bufferedSize, `nbStripesSoFar, `rounds, acc, buffer
      ensures CacheOk() && Holds(stream + input)
    {
      hide Consumed, Derive, Overwrite, StripesPerBlock, TailOf;
      var len, p := |input|, 0;
      if bufferedSize != 0 {
        p := DrainBuffer(input);
      } else {
        ConsumedPrefix(stream, input, SecretBytes(), 0);
      }
      if p + 256 < len {
        p := ConsumeInput(input, p);
      }
      hide Between, Holding;
      RestKeeps(stream, input, SecretBytes(), Progress(acc[..], nbStripesSoFar), buffer[..], p, rounds);
      CopyIn(0, input, p, len - p);
      bufferedSize := len - p;
    }

    ghost predicate BetweenSteps(s: seq<byte>, done: nat)
      reads `nbStripesSoFar, `rounds, `extSecret, acc, customSecret, buffer
    {
      && acc.Length == 8 && |SecretBytes()| >= 136
      && Between(s, SecretBytes(), Progress(acc[..], nbStripesSoFar), buffer[..], done, rounds)
    }

    /** Complete the buffer and consume it. */
    method DrainBuffer(input: seq<byte>) returns (p: nat)
      requires CacheOk() && Holds(stream) && 0 < bufferedSize <= 256 < bufferedSize + |input|
      requires secretLimit == |SecretBytes()| - 64 && nbStripesPerBlock == StripesPerBlock(SecretBytes())
      modifies `bufferedSize, `nbStripesSoFar, `rounds, acc, buffer
      ensures CacheOk() && p < |input| && BetweenSteps(stream + input, |stream| + p)
    {
      hide Holding, Between, Derive, Overwrite, StripesPerBlock, Fold;
      DrainKeeps(stream, input, SecretBytes(), Progress(acc[..], nbStripesSoFar), buffer[..], bufferedSize, rounds);
      SoFarBelow(stream, SecretBytes(), Progress(acc[..], nbStripesSoFar), buffer[..], bufferedSize, rounds);
      p := 256 - bufferedSize;
      CopyIn(bufferedSize, input, 0, p);
      assert buffer[..][0..] == buffer[..];
      nbStripesSoFar := ConsumeStripes(acc, nbStripesSoFar, nbStripesPerBlock, buffer[..], 0, 4, SecretBytes(), secretLimit);
      bufferedSize, rounds := 0, rounds + 1;
    }

    /** The loop over whole buffers of the input, always leaving at least one byte. */
    method ConsumeInput(input: seq<byte>, start: nat) returns (p: nat)
      requires CacheOk() && start + 256 < |input|
      requires BetweenSteps(stream + input, |stream| + start)
      requires secretLimit == |SecretBytes()| - 64 && nbStripesPerBlock == StripesPerBlock(SecretBytes())
      modifies `nbStripesSoFar, `rounds, acc, buffer
      ensures CacheOk() && p < |input| <= p + 256 && BetweenSteps(stream + input, |stream| + p)
    {
      hide Consumed, Derive, Overwrite, StripesPerBlock, Fold, TailOf;
      ghost var s := stream + input;
      var secret := SecretBytes();
      var limit := |input| - 256;
      p := start;
      var first := true;
      while first || p < limit
        invariant CacheOk() && SecretBytes() == secret
        invariant (first ==> p < limit) && (!first ==> p >= 64) && p < |input|
        invariant |stream| + p == 256 * rounds
        invariant Progress(acc[..], nbStripesSoFar) == Consumed(s, secret, 4 * rounds)
        decreases |input| - p
      {
        ConsumeKeeps(stream, input, secret, rounds, p);
        nbStripesSoFar := ConsumeStripes(acc, nbStripesSoFar, nbStripesPerBlock, input, p, 4, secret, secretLimit);
        p, rounds := p + 256, rounds + 1;
        first := false;
      }
      StripeKept(stream, input, secret, Progress(acc[..], nbStripesSoFar), buffer[..], p, rounds);
      CopyIn(192, input, p - 64, 64);
    }

    /** `XXH3_digest_long`: works on a copy, so the state can take more input. */
    method DigestLong() returns (copy: array<u64>)
      requires Ready() && |stream| > 240
      ensures fresh(copy) && copy.Length == 8 && copy[..] == LongAccs(stream, SecretBytes())
    {
      hide Holding, Derive, Accumulate512, Fold, KSecret;
      ghost var st := Progress(acc[..], nbStripesSoFar);
      var secret := SecretBytes();
      copy := new u64[8](i requires 0 <= i < 8 reads acc => acc[i]);
      assert copy[..] == acc[..];
      SoFarBelow(stream, secret, st, buffer[..], bufferedSize, rounds);
      if bufferedSize >= 64 {
        FinishBuffered(stream, secret, st, buffer[..], bufferedSize, rounds);
        var input := buffer[..bufferedSize];
        assert buffer[..][..bufferedSize] == input == input[0..];
        assert buffer[..][bufferedSize - 64..bufferedSize] == buffer[bufferedSize - 64..bufferedSize];
        var soFar := ConsumeStripes(copy, nbStripesSoFar, nbStripesPerBlock, input, 0, (bufferedSize - 1) / 64,
                                    secret, secretLimit);
        Accumulate512Scalar(copy, buffer[bufferedSize - 64..bufferedSize], KeyAt(secret, secretLimit - 7));
      } else {
        FinishRebuilt(stream, secret, st, buffer[..], bufferedSize, rounds);
        var catchup := 64 - bufferedSize;
        var lastStripe := buffer[256 - catchup..] + buffer[..bufferedSize];
        Accumulate512Scalar(copy, lastStripe, KeyAt(secret, secretLimit - 7));
      }
    }

    /** `XXH3_64bits_digest` */
    method Digest64() returns (h: u64)
      requires Ready() && LengthReliable(|stream|)
      ensures h == Hash64(CurrentMode(), stream)
    {
      hide Holding, Derive, KSecret, Short64, LongAccs, MergeAccs, StripesPerBlock;
      if totalLen > 240 {
        var copy := DigestLong();
        h := MergeAccsLoop(copy, SecretBytes(), 11, Mul64(totalLen, PRIME64_1));
      } else {
        WholeInBuffer(stream, SecretBytes(), Progress(acc[..], nbStripesSoFar), buffer[..], bufferedSize, rounds);
        h := OneShot64(if seed != 0 then WithSeed(seed) else WithSecret(SecretBytes()), buffer[..][..totalLen]);
      }
    }

    /** `XXH3_128bits_digest` */
    method Digest128() returns (h: Hash128)
      requires Ready() && LengthReliable(|stream|)
      ensures h == Hash128Of(CurrentMode(), stream)
    {
      hide Holding, Derive, KSecret, Short128, LongAccs, MergeAccs, StripesPerBlock;
      if totalLen > 240 {
        var copy := DigestLong();
        var low := MergeAccsLoop(copy, SecretBytes(), 11, Mul64(totalLen, PRIME64_1));
        var high := MergeAccsLoop(copy, SecretBytes(), secretLimit + 64 - 64 - 11, Not64(Mul64(totalLen, PRIME64_2)));
        h := Hash128(low, high);
      } else {
        WholeInBuffer(stream, SecretBytes(), Progress(acc[..], nbStripesSoFar), buffer[..], bufferedSize, rounds);
        h := OneShot128(if seed != 0 then WithSeed(seed) else WithSecret(SecretBytes()), buffer[..][..totalLen]);
      }
    }
  }

  // ---------------------------------------------------------------- runs

  /** Any way of cutting the data into chunks, in any mode, on a state used before
      in any way, gives both one-shot hashes. Only a nonzero seed asks for a state
      that has been initialized. */
  method HashChunks(state: State, mode: Mode, chunks: seq<seq<byte>>) returns (h64: u64, h128: Hash128)
    requires state.Shape() && (mode.WithSeed? && mode.seed != 0 ==> state.CacheOk())
    requires LengthReliable(|Concat(chunks)|)
    requires mode.WithSecret? ==> |mode.secret| < 0x1_0000_0000_0000_0000
    modifies state, state.acc, state.customSecret, state.buffer
    ensures state.CacheOk()
    ensures h64 == Hash64(mode, Concat(chunks)) && h128 == Hash128Of(mode, Concat(chunks))
  {
    hide Hash64, Hash128Of, State.Holds, Derive, KSecret, StripesPerBlock, Wrap64;
    match mode {
      case Default => state.Reset();
      case WithSecret(s) => var _ := state.ResetWithSecret(To(s), |s|);
      case WithSeed(seed) => state.ResetWithSeed(seed);
    }
    for i := 0 to |chunks|
      invariant state.Ready() && state.stream == Concat(chunks[..i]) && state.CurrentMode() == Normal(mode)
    {
      state.Update(chunks[i]);
      assert chunks[..i + 1][..i] == chunks[..i];
    }
    assert chunks[..|chunks|] == chunks;
    NormalHashesAlike(mode, state.stream);
    h64 := state.Digest64();
    h128 := state.Digest128();
  }

  /** The operations on a state; a reset with a missing or short secret fails. */
  datatype Operation =
    | DefaultReset
    | SecretReset(secret: Pointer, size: nat)
    | SeedReset(seed: u64)
    | Feed(chunk: seq<byte>)
  {
    predicate Legal() {
      SecretReset? ==> size < 0x1_0000_0000_0000_0000 && (secret.To? ==> |secret.bytes| == size)
    }
  }

  /** Any sequence of operations, failing resets included, keeps the secret cache
      right. Chunks are fed only after a successful reset. */
  method Execute(state: State, ops: seq<Operation>)
    requires state.CacheOk() && forall i | 0 <= i < |ops| :: ops[i].Legal()
    modifies state, state.acc, state.customSecret, state.buffer
    ensures state.CacheOk()
  {
    hide State.Holds, Derive, KSecret, StripesPerBlock, Wrap64;
    var ready := false;
    for i := 0 to |ops|
      invariant state.CacheOk() && (ready ==> state.Ready())
    {
      match ops[i] {
        case DefaultReset => state.Reset(); ready := true;
        case SecretReset(secret, size) => ready := state.ResetWithSecret(secret, size);
        case SeedReset(seed) => state.ResetWithSeed(seed); ready := true;
        case Feed(chunk) => if ready { state.Update(chunk); }
      }
    }
  }

  /** Whatever was done with a state before, hashing in chunks gives the one-shot hashes. */
  method HashAfter(ops: seq<Operation>, mode: Mode, chunks: seq<seq<byte>>) returns (h64: u64, h128: Hash128)
    requires LengthReliable(|Concat(chunks)|) && forall i | 0 <= i < |ops| :: ops[i].Legal()
    requires mode.WithSecret? ==> |mode.secret| < 0x1_0000_0000_0000_0000
    ensures h64 == Hash64(mode, Concat(chunks)) && h128 == Hash128Of(mode, Concat(chunks))
  {
    hide Hash64, Hash128Of;
    var state := new State();
    state.InitState();
    Execute(state, ops);
    h64, h128 := HashChunks(state, mode, chunks);
  }

  lemma SoFarBelow(s: seq<byte>, secret: Secret, st: Progress, buf: seq<byte>, size: nat, rounds: nat)
    requires Holding(s, secret, st, buf, size, rounds)
    ensures st.soFar < StripesPerBlock(secret)
  {
  }

  /** A short stream is still entirely in the buffer. */
  lemma WholeInBuffer(s: seq<byte>, secret: Secret, st: Progress, buf: seq<byte>, size: nat, rounds: nat)
    requires Holding(s, secret, st, buf, size, rounds) && LengthReliable(|s|) && Wrap64(|s|) <= 240
    ensures Wrap64(|s|) == |s| <= 240 && |buf| == 256 && buf[..|s|] == s
  {
  }
}
