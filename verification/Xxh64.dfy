/** XXH64: the hash as a function of its input, the one-shot code and the
    streaming state. */
module Xxh64 {
  import opened Bits
  import opened Words
  import opened Memory
  import opened Primes

  datatype Lanes = Lanes(v1: u64, v2: u64, v3: u64, v4: u64)

  function Round(acc: u64, input: u64): u64 {
    Mul64(Rotl64(Add64(acc, Mul64(input, PRIME64_2)), 31), PRIME64_1)
  }

  function MergeRound(acc: u64, val: u64): u64 {
    Add64(Mul64(Xor64(acc, Round(0, val)), PRIME64_1), PRIME64_4)
  }

  function Avalanche(h: u64): u64 {
    XorShift64(Mul64(XorShift64(Mul64(XorShift64(h, 33), PRIME64_2), 29), PRIME64_3), 32)
  }

  function Process1(h: u64, b: byte): u64 {
    Mul64(Rotl64(Xor64(h, Mul64(b, PRIME64_5)), 11), PRIME64_1)
  }

  function Process4(h: u64, word: u32): u64 {
    Add64(Mul64(Rotl64(Xor64(h, Mul64(word, PRIME64_1)), 23), PRIME64_2), PRIME64_3)
  }

  function Process8(h: u64, word: u64): u64 {
    Add64(Mul64(Rotl64(Xor64(h, Round(0, word)), 27), PRIME64_1), PRIME64_4)
  }

  // ---------------------------------------------------------------- the hash as a function

  function InitLanes(seed: u64): Lanes {
    Lanes(Add64(Add64(seed, PRIME64_1), PRIME64_2), Add64(seed, PRIME64_2), seed, Sub64(seed, PRIME64_1))
  }

  /** One 32-byte stripe: word `k` goes into lane `k`. */
  function Stripe(v: Lanes, block: seq<byte>): Lanes
    requires |block| == 32
  {
    Lanes(Round(v.v1, ReadLE64(block, 0)), Round(v.v2, ReadLE64(block, 8)),
          Round(v.v3, ReadLE64(block, 16)), Round(v.v4, ReadLE64(block, 24)))
  }

  /** The lanes after the first `n` stripes of the data. */
  function Consume(seed: u64, data: seq<byte>, n: nat): Lanes
    requires 32 * n <= |data|
  {
    if n == 0 then InitLanes(seed)
    else Stripe(Consume(seed, data, n - 1), data[32 * (n - 1)..32 * n])
  }

  function Merge(v: Lanes): u64 {
    var h := Add64(Add64(Add64(Rotl64(v.v1, 1), Rotl64(v.v2, 7)), Rotl64(v.v3, 12)), Rotl64(v.v4, 18));
    MergeRound(MergeRound(MergeRound(MergeRound(h, v.v1), v.v2), v.v3), v.v4)
  }

  /** The tail in words of eight bytes, then at most one of four, then in bytes. */
  function Finalize(h: u64, tail: seq<byte>): u64
    decreases |tail|
  {
    if |tail| >= 8 then Finalize(Process8(h, ReadLE64(tail, 0)), tail[8..])
    else if |tail| >= 4 then Finalize(Process4(h, ReadLE32(tail, 0)), tail[4..])
    else if |tail| > 0 then Finalize(Process1(h, tail[0]), tail[1..])
    else Avalanche(h)
  }

  function Start(data: seq<byte>, seed: u64): u64 {
    if |data| >= 32 then Merge(Consume(seed, data, |data| / 32)) else Add64(seed, PRIME64_5)
  }

  function Hash(data: seq<byte>, seed: u64): u64 {
    Finalize(Add64(Start(data, seed), Wrap64(|data|)), data[32 * (|data| / 32)..])
  }

  // ---------------------------------------------------------------- finalization, both forms

  /** The macro `XXH_PROCESS8_64`: take eight bytes of `ptr[p..n]`. */
  method TakeLong(h: u64, ptr: seq<byte>, p: nat, ghost n: nat) returns (r: u64, q: nat)
    requires p + 8 <= n <= |ptr|
    ensures q == p + 8 && Finalize(r, ptr[q..n]) == Finalize(h, ptr[p..n])
  {
    hide Process8, Avalanche, ReadLE64;
    r, q := Process8(h, ReadLE64(ptr, p)), p + 8;
    ReadOfSlice(ptr, p, n - p, 0, 8);
    assert ptr[p..p + (n - p)] == ptr[p..n];
    assert ptr[p..n][8..] == ptr[q..n];
  }

  /** The macro `XXH_PROCESS4_64`, for less than eight remaining bytes. */
  method TakeWord(h: u64, ptr: seq<byte>, p: nat, ghost n: nat) returns (r: u64, q: nat)
    requires p + 4 <= n <= |ptr| && n - p < 8
    ensures q == p + 4 && Finalize(r, ptr[q..n]) == Finalize(h, ptr[p..n])
  {
    hide Process4, Avalanche, ReadLE32;
    r, q := Process4(h, ReadLE32(ptr, p)), p + 4;
    ReadOfSlice(ptr, p, n - p, 0, 4);
    assert ptr[p..p + (n - p)] == ptr[p..n];
    assert ptr[p..n][4..] == ptr[q..n];
  }

  /** The macro `XXH_PROCESS1_64`: take one byte of the last three. */
  method TakeByte(h: u64, ptr: seq<byte>, p: nat, ghost n: nat) returns (r: u64, q: nat)
    requires p < n <= |ptr| && n - p < 4
    ensures q == p + 1 && Finalize(r, ptr[q..n]) == Finalize(h, ptr[p..n])
  {
    hide Process1, Avalanche;
    r, q := Process1(h, ptr[p]), p + 1;
    assert ptr[p..n][1..] == ptr[q..n];
  }

  /** `XXH64_finalize`, the rerolled form. */
  method FinalizeRerolled(h: u64, ptr: seq<byte>, len: nat) returns (r: u64)
    requires len % 32 <= |ptr|
    ensures r == Finalize(h, ptr[..len % 32])
  {
    hide Avalanche;
    ghost var end := len % 32;
    var n: nat, p: nat := len % 32, 0;
    r := h;
    while n >= 8
      invariant p + n == end
      invariant Finalize(r, ptr[p..end]) == Finalize(h, ptr[0..end])
    {
      r, p := TakeLong(r, ptr, p, end);
      n := n - 8;
    }
    if n >= 4 {
      r, p := TakeWord(r, ptr, p, end);
      n := n - 4;
    }
    while n > 0
      invariant n < 4 && p + n == end
      invariant Finalize(r, ptr[p..end]) == Finalize(h, ptr[0..end])
    {
      r, p := TakeByte(r, ptr, p, end);
      n := n - 1;
    }
    r := Avalanche(r);
  }

  /** `XXH64_finalize`, the unrolled form: eight groups of cases that fall through,
      one for each remainder modulo 8, entered at the number of long words left. */
  method FinalizeUnrolled(h: u64, ptr: seq<byte>, len: nat) returns (r: u64)
    requires len % 32 <= |ptr|
    ensures r == Finalize(h, ptr[..len % 32])
  {
    hide Avalanche, Finalize;
    var n, p := len % 32, 0;
    r := h;
    if n == 24 || n == 16 || n == 8 {
      r, p := TakeLongs(r, ptr, n, 24, 16);
      r, p := TakeLong(r, ptr, p, n);
    } else if n == 28 || n == 20 || n == 12 || n == 4 {
      r, p := TakeLongs(r, ptr, n, 28, 20);
      if n >= 12 { r, p := TakeLong(r, ptr, p, n); }
      r, p := TakeWord(r, ptr, p, n);
    } else if n == 25 || n == 17 || n == 9 {
      r, p := TakeLongs(r, ptr, n, 25, 17);
      r, p := TakeLong(r, ptr, p, n);
      r, p := TakeByte(r, ptr, p, n);
    } else if n == 29 || n == 21 || n == 13 || n == 5 {
      r, p := TakeLongs(r, ptr, n, 29, 21);
      if n >= 13 { r, p := TakeLong(r, ptr, p, n); }
      r, p := TakeWord(r, ptr, p, n);
      r, p := TakeByte(r, ptr, p, n);
    } else if n == 26 || n == 18 || n == 10 {
      r, p := TakeLongs(r, ptr, n, 26, 18);
      r, p := TakeLong(r, ptr, p, n);
      r, p := TakeByte(r, ptr, p, n);
      r, p := TakeByte(r, ptr, p, n);
    } else if n == 30 || n == 22 || n == 14 || n == 6 {
      r, p := TakeLongs(r, ptr, n, 30, 22);
      if n >= 14 { r, p := TakeLong(r, ptr, p, n); }
      r, p := TakeWord(r, ptr, p, n);
      r, p := TakeByte(r, ptr, p, n);
      r, p := TakeByte(r, ptr, p, n);
    } else if n == 27 || n == 19 || n == 11 {
      r, p := TakeLongs(r, ptr, n, 27, 19);
      r, p := TakeLong(r, ptr, p, n);
      r, p := TakeByte(r, ptr, p, n);
      r, p := TakeByte(r, ptr, p, n);
      r, p := TakeByte(r, ptr, p, n);
    } else {
      r, p := TakeLongs(r, ptr, n, 31, 23);
      if n >= 15 { r, p := TakeLong(r, ptr, p, n); }
      if n >= 7 { r, p := TakeWord(r, ptr, p, n); }
      if n >= 3 { r, p := TakeByte(r, ptr, p, n); }
      if n >= 2 { r, p := TakeByte(r, ptr, p, n); }
      if n >= 1 { r, p := TakeByte(r, ptr, p, n); }
    }
    FinalizeEmpty(r, ptr, p);
    assert ptr[0..n] == ptr[..n];
    r := Avalanche(r);
  }

  /** The first two cases of every group. */
  method TakeLongs(h: u64, ptr: seq<byte>, n: nat, first: nat, second: nat) returns (r: u64, p: nat)
    requires n <= |ptr| && first == second + 8 >= 24
    ensures p == (if n >= first then 16 else if n >= second then 8 else 0)
    ensures Finalize(r, ptr[p..n]) == Finalize(h, ptr[0..n])
  {
    hide Finalize;
    r, p := h, 0;
    if n >= first { r, p := TakeLong(r, ptr, p, n); }
    if n >= second { r, p := TakeLong(r, ptr, p, n); }
  }

  lemma FinalizeEmpty(h: u64, ptr: seq<byte>, n: nat)
    requires n <= |ptr|
    ensures Finalize(h, ptr[n..n]) == Avalanche(h)
  {
  }

  // ---------------------------------------------------------------- one-shot

  /** Four rounds on consecutive words at `p` are one stripe. */
  lemma RoundsAreStripe(v: Lanes, s: seq<byte>, p: nat)
    requires p + 32 <= |s|
    ensures Stripe(v, s[p..p + 32])
         == Lanes(Round(v.v1, ReadLE64(s, p)), Round(v.v2, ReadLE64(s, p + 8)),
                  Round(v.v3, ReadLE64(s, p + 16)), Round(v.v4, ReadLE64(s, p + 24)))
  {
    hide Round, ReadLE64;
    ReadOfSlice(s, p, 32, 0, 8);
    ReadOfSlice(s, p, 32, 8, 8);
    ReadOfSlice(s, p, 32, 16, 8);
    ReadOfSlice(s, p, 32, 24, 8);
  }

  /** The four rounds both loops make, reading at `p`. */
  method Rounds(v: Lanes, s: seq<byte>, p: nat) returns (r: Lanes)
    requires p + 32 <= |s|
    ensures r == Stripe(v, s[p..p + 32])
  {
    hide Round, ReadLE64;
    RoundsAreStripe(v, s, p);
    r := Lanes(Round(v.v1, ReadLE64(s, p)), Round(v.v2, ReadLE64(s, p + 8)),
               Round(v.v3, ReadLE64(s, p + 16)), Round(v.v4, ReadLE64(s, p + 24)));
  }

  /** `XXH64_endian_align` computes the hash with either form of the finalization. */
  method EndianAlign(input: seq<byte>, seed: u64, reroll: bool) returns (h: u64)
    ensures h == Hash(input, seed)
  {
    hide Finalize, Stripe, Rotl64, InitLanes, Wrap64;
    var len := |input|;
    var p := 0;
    if len >= 32 {
      var limit := len - 32;
      var v := InitLanes(seed);
      ghost var n := 0;
      var first := true;
      while first || p <= limit
        invariant first ==> p == 0
        invariant p == 32 * n <= len
        invariant v == Consume(seed, input, n)
        decreases len - p
      {
        v := Rounds(v, input, p);
        p := p + 32;
        n := n + 1;
        first := false;
      }
      h := Add64(Add64(Add64(Rotl64(v.v1, 1), Rotl64(v.v2, 7)), Rotl64(v.v3, 12)), Rotl64(v.v4, 18));
      h := MergeRound(h, v.v1);
      h := MergeRound(h, v.v2);
      h := MergeRound(h, v.v3);
      h := MergeRound(h, v.v4);
    } else {
      h := Add64(seed, PRIME64_5);
    }
    h := Add64(h, Wrap64(len));
    ghost var tail := input[32 * (len / 32)..];
    assert p == 32 * (len / 32) && input[p..][..len % 32] == tail;
    if reroll {
      h := FinalizeRerolled(h, input[p..], len);
    } else {
      h := FinalizeUnrolled(h, input[p..], len);
    }
  }

  // ---------------------------------------------------------------- streaming

  /** The lanes depend only on the stripes already consumed. */
  lemma {:induction false} ConsumePrefix(seed: u64, s: seq<byte>, t: seq<byte>, n: nat)
    requires 32 * n <= |s|
    ensures Consume(seed, s + t, n) == Consume(seed, s, n)
  {
    hide Stripe;
    if n > 0 {
      ConsumePrefix(seed, s, t, n - 1);
      assert (s + t)[32 * (n - 1)..32 * n] == s[32 * (n - 1)..32 * n];
    }
  }

  /** Until the first stripe the third lane is still the seed. */
  lemma LaneThreeIsSeed(seed: u64, s: seq<byte>)
    ensures Consume(seed, s, 0).v3 == seed
  {
  }

  /** The lanes have consumed the first `n` stripes of `s`, the buffer holds the rest. */
  ghost predicate Holding(s: seq<byte>, seed: u64, v: Lanes, buf: seq<byte>, size: nat, n: nat) {
    && |buf| == 32 && size < 32 && |s| == 32 * n + size
    && buf[..size] == s[32 * n..]
    && v == Consume(seed, s, n)
  }

  lemma HoldingLength(s: seq<byte>, seed: u64, v: Lanes, buf: seq<byte>, size: nat, n: nat)
    requires Holding(s, seed, v, buf, size, n)
    ensures |buf| == 32 && size < 32 && |s| == 32 * n + size
    ensures size == |s| % 32 && n == |s| / 32
  {
    hide Consume;
    DivModUnique(n, size, 32, |s|);
  }

  lemma FillKeeps(s: seq<byte>, t: seq<byte>, seed: u64, v: Lanes, buf: seq<byte>, size: nat, n: nat)
    requires Holding(s, seed, v, buf, size, n) && size + |t| < 32
    ensures Holding(s + t, seed, v, Overwrite(buf, size, t), size + |t|, n)
  {
    hide Consume, Overwrite;
    ConsumePrefix(seed, s, t, n);
    BufferedPart(s, t, buf, size, 32 * n);
    assert t == t[..|t|];
  }

  /** The buffered bytes followed by the first ones of the input. */
  lemma BufferedPart(s: seq<byte>, t: seq<byte>, buf: seq<byte>, size: nat, done: nat)
    requires |buf| == 32 && size <= 32 && |s| == done + size && buf[..size] == s[done..]
    ensures forall k | 0 <= k <= |t| && size + k <= 32 ::
              Overwrite(buf, size, t[..k])[..size + k] == (s + t)[done..done + size + k]
  {
    hide Overwrite;
    forall k | 0 <= k <= |t| && size + k <= 32
      ensures Overwrite(buf, size, t[..k])[..size + k] == (s + t)[done..done + size + k]
    {
      var b := Overwrite(buf, size, t[..k]);
      forall i | 0 <= i < size + k
        ensures b[i] == (s + t)[done + i]
      {
        if i < size { assert b[i] == buf[..size][i] == s[done..][i]; }
      }
    }
  }

  /** Completing the buffered stripe. */
  lemma DrainKeeps(s: seq<byte>, t: seq<byte>, seed: u64, v: Lanes, buf: seq<byte>, size: nat, n: nat)
    requires Holding(s, seed, v, buf, size, n) && size + |t| >= 32
    ensures Stripe(v, Overwrite(buf, size, t[..32 - size])) == Consume(seed, s + t, n + 1)
  {
    hide Stripe, Overwrite;
    ConsumePrefix(seed, s, t, n);
    BufferedPart(s, t, buf, size, 32 * n);
    var b := Overwrite(buf, size, t[..32 - size]);
    assert b == b[..size + (32 - size)] == (s + t)[32 * n..32 * (n + 1)];
  }

  /** Buffering what is left of the input after its last stripe. */
  lemma RestKeeps(s: seq<byte>, t: seq<byte>, seed: u64, v: Lanes, buf: seq<byte>, p: nat, n: nat)
    requires |buf| == 32 && p <= |t| < p + 32 && |s| + p == 32 * n
    requires v == Consume(seed, s + t, n)
    ensures Holding(s + t, seed, v, Overwrite(buf, 0, t[p..|t|]), |t| - p, n)
    ensures p == |t| ==> Holding(s + t, seed, v, buf, 0, n)
  {
    hide Consume, Overwrite;
    SuffixOfConcat(s, t, p);
    var b := Overwrite(buf, 0, t[p..|t|]);
    assert b[..|t| - p] == t[p..];
  }

  /** The counter still tells a long input from a short one: true of every length
      below 2^64, and beyond it of all but 32 lengths in each 2^64. */
  predicate CounterReliable(len: nat) {
    len >= 32 ==> Wrap64(len) >= 32
  }

  /** The loop of `XXH64_update` over whole stripes of the input. */
  method ConsumeBlocks(v: Lanes, input: seq<byte>, start: nat, ghost seed: u64, ghost before: seq<byte>, ghost m: nat)
    returns (r: Lanes, p: nat, ghost n: nat)
    requires start <= |input| - 32 && |before| + start == 32 * m
    requires v == Consume(seed, before + input, m)
    ensures p <= |input| < p + 32 && |before| + p == 32 * n
    ensures r == Consume(seed, before + input, n)
  {
    hide Stripe, InitLanes;
    r, p, n := v, start, m;
    ghost var stream := before + input;
    var limit := |input| - 32;
    var first := true;
    while first || p <= limit
      invariant first ==> p <= limit
      invariant |before| + p == 32 * n <= |stream|
      invariant r == Consume(seed, stream, n)
      decreases |input| - p
    {
      r := Rounds(r, input, p);
      SliceOfConcat(before, input, p, p + 32);
      p := p + 32;
      n := n + 1;
      first := false;
    }
  }

  /** `XXH64_state_t`. `stream` is every byte fed since the last reset. */
  class State {
    var totalLen: u64
    var v: Lanes
    const mem64: array<byte>
    var memsize: u64
    ghost var seed: u64
    ghost var stream: seq<byte>
    ghost var stripes: nat

    /** The length counter wraps at 2^64 and the buffer holds exactly the bytes
        after the last stripe. */
    ghost predicate Valid()
      reads this, mem64
    {
      && mem64.Length == 32
      && totalLen == Wrap64(|stream|)
      && memsize == |stream| % 32 && stripes == |stream| / 32
      && Holds(stream)
    }

    ghost predicate Holds(s: seq<byte>)
      reads `v, `memsize, `seed, `stripes, mem64
    {
      Holding(s, seed, v, mem64[..], memsize, stripes)
    }

    constructor ()
      ensures mem64.Length == 32 && fresh(mem64)
    {
      mem64 := new byte[32];
    }

    /** `XXH64_reset`, on a state in any condition. */
    method Reset(seed: u64)
      requires mem64.Length == 32
      modifies this, mem64
      ensures Valid() && stream == [] && this.seed == seed
    {
      hide InitLanes;
      forall i | 0 <= i < 32 { mem64[i] := 0; }
      totalLen, memsize := 0, 0;
      v := InitLanes(seed);
      this.seed, stream, stripes := seed, [], 0;
    }

    /** `XXH64_update`: any chunk, of any length. */
    method Update(input: seq<byte>)
      requires Valid()
      modifies this, mem64
      ensures Valid() && stream == old(stream) + input && seed == old(seed)
    {
      hide Consume, Wrap64;
      var len := |input|;
      ghost var before := stream;
      CounterAfter(|before|, len);
      totalLen := Add64(totalLen, Wrap64(len));

      if memsize + len < 32 {
        FillIn(input);
      } else {
        Absorb(input);
      }
      stream := before + input;
      HoldingLength(stream, seed, v, mem64[..], memsize, stripes);
    }

    /** Not yet a whole stripe: only buffer the input. */
    method FillIn(input: seq<byte>)
      requires memsize + |input| < 32 && Holds(stream)
      modifies `memsize, mem64
      ensures Holds(stream + input)
    {
      hide Holding, Overwrite;
      HoldingLength(stream, seed, v, mem64[..], memsize, stripes);
      FillKeeps(stream, input, seed, v, mem64[..], memsize, stripes);
      assert input[0..|input|] == input;
      CopyIn(memsize, input, 0, |input|);
      memsize := memsize + |input|;
    }

    /** The rest of `XXH64_update`, when at least one stripe is complete. */
    method Absorb(input: seq<byte>)
      requires memsize + |input| >= 32 && Holds(stream)
      modifies `v, `memsize, `stripes, mem64
      ensures Holds(stream + input)
    {
      hide Consume, Overwrite, Stripe;
      var len, p := |input|, 0;
      if memsize != 0 {
        DrainKeeps(stream, input, seed, v, mem64[..], memsize, stripes);
        p := 32 - memsize;
        assert input[0..p] == input[..p];
        CopyIn(memsize, input, 0, p);
        assert mem64[..][0..0 + 32] == mem64[..];
        v := Rounds(v, mem64[..], 0);
        memsize, stripes := 0, stripes + 1;
      } else {
        ConsumePrefix(seed, stream, input, stripes);
      }
      if p <= len - 32 {
        v, p, stripes := ConsumeBlocks(v, input, p, seed, stream, stripes);
      }
      hide Holding;
      RestKeeps(stream, input, seed, v, mem64[..], p, stripes);
      if p < len {
        CopyIn(0, input, p, len - p);
        memsize := len - p;
      }
    }

    /** Copy `n` bytes of the input into the buffer at `at`. */
    method CopyIn(at: nat, input: seq<byte>, p: nat, n: nat)
      requires at + n <= mem64.Length && p + n <= |input|
      modifies mem64
      ensures mem64[..] == Overwrite(old(mem64[..]), at, input[p..p + n])
    {
      forall i | 0 <= i < n { mem64[at + i] := input[p + i]; }
    }

    /** `XXH64_digest`: the whole length goes to the finalization, which takes it
        modulo 32, the number of buffered bytes. */
    method Digest() returns (h: u64)
      requires Valid() && CounterReliable(|stream|)
      ensures h == Hash(stream, seed)
    {
      hide Finalize, Consume, Rotl64, InitLanes, MergeRound;
      LaneThreeIsSeed(seed, stream);
      if totalLen >= 32 {
        h := Add64(Add64(Add64(Rotl64(v.v1, 1), Rotl64(v.v2, 7)), Rotl64(v.v3, 12)), Rotl64(v.v4, 18));
        h := MergeRound(h, v.v1);
        h := MergeRound(h, v.v2);
        h := MergeRound(h, v.v3);
        h := MergeRound(h, v.v4);
      } else {
        h := Add64(v.v3, PRIME64_5);
      }
      h := Add64(h, totalLen);
      WrapRemainder(|stream|);
      h := FinalizeUnrolled(h, mem64[..], totalLen);
      assert mem64[..][..memsize] == mem64[..memsize];
    }
  }

  lemma WrapRemainder(n: nat)
    ensures Wrap64(n) % 32 == n % 32
    ensures n < 32 ==> Wrap64(n) == n
  {
    var q, w := n / 0x1_0000_0000_0000_0000, Wrap64(n);
    DivModUnique(q * 0x800_0000_0000_0000 + w / 32, w % 32, 32, n);
  }

  /** Any way of cutting the data into chunks gives the one-shot hash. */
  method HashChunks(chunks: seq<seq<byte>>, seed: u64) returns (h: u64)
    requires CounterReliable(|Concat(chunks)|)
    ensures h == Hash(Concat(chunks), seed)
  {
    hide Hash, State.Valid;
    var state := new State();
    state.Reset(seed);
    for i := 0 to |chunks|
      invariant state.Valid() && state.seed == seed && state.stream == Concat(chunks[..i])
      invariant fresh(state) && fresh(state.mem64)
    {
      state.Update(chunks[i]);
      assert chunks[..i + 1][..i] == chunks[..i];
    }
    assert chunks[..|chunks|] == chunks;
    h := state.Digest();
  }
}
