/** XXH32: the hash as a function of its input, the one-shot code and the
    streaming state. */
module Xxh32 {
  import opened Bits
  import opened Words
  import opened Memory
  import opened Primes

  datatype Lanes = Lanes(v1: u32, v2: u32, v3: u32, v4: u32)

  function Round(acc: u32, input: u32): u32 {
    Mul32(Rotl32(Add32(acc, Mul32(input, PRIME32_2)), 13), PRIME32_1)
  }

  function Avalanche(h: u32): u32 {
    XorShift32(Mul32(XorShift32(Mul32(XorShift32(h, 15), PRIME32_2), 13), PRIME32_3), 16)
  }

  function Process1(h: u32, b: byte): u32 {
    Mul32(Rotl32(Add32(h, Mul32(b, PRIME32_5)), 11), PRIME32_1)
  }

  function Process4(h: u32, word: u32): u32 {
    Mul32(Rotl32(Add32(h, Mul32(word, PRIME32_3)), 17), PRIME32_4)
  }

  // ---------------------------------------------------------------- the hash as a function

  function InitLanes(seed: u32): Lanes {
    Lanes(Add32(Add32(seed, PRIME32_1), PRIME32_2), Add32(seed, PRIME32_2), seed, Sub32(seed, PRIME32_1))
  }

  /** One 16-byte stripe: word `k` goes into lane `k`. */
  function Stripe(v: Lanes, block: seq<byte>): Lanes
    requires |block| == 16
  {
    Lanes(Round(v.v1, ReadLE32(block, 0)), Round(v.v2, ReadLE32(block, 4)),
          Round(v.v3, ReadLE32(block, 8)), Round(v.v4, ReadLE32(block, 12)))
  }

  /** The lanes after the first `n` stripes of the data. */
  function Consume(seed: u32, data: seq<byte>, n: nat): Lanes
    requires 16 * n <= |data|
  {
    if n == 0 then InitLanes(seed)
    else Stripe(Consume(seed, data, n - 1), data[16 * (n - 1)..16 * n])
  }

  function Merge(v: Lanes): u32 {
    Add32(Add32(Add32(Rotl32(v.v1, 1), Rotl32(v.v2, 7)), Rotl32(v.v3, 12)), Rotl32(v.v4, 18))
  }

  /** The tail in words of four bytes as long as there are four, then in bytes. */
  function Finalize(h: u32, tail: seq<byte>): u32
    decreases |tail|
  {
    if |tail| >= 4 then Finalize(Process4(h, ReadLE32(tail, 0)), tail[4..])
    else if |tail| > 0 then Finalize(Process1(h, tail[0]), tail[1..])
    else Avalanche(h)
  }

  function Start(data: seq<byte>, seed: u32): u32 {
    if |data| >= 16 then Merge(Consume(seed, data, |data| / 16)) else Add32(seed, PRIME32_5)
  }

  function Hash(data: seq<byte>, seed: u32): u32 {
    Finalize(Add32(Start(data, seed), Wrap32(|data|)), data[16 * (|data| / 16)..])
  }

  // ---------------------------------------------------------------- finalization, both forms

  /** The macro `XXH_PROCESS4`: take one word of `ptr[p..n]`, advance the pointer. */
  method TakeWord(h: u32, ptr: seq<byte>, p: nat, ghost n: nat) returns (r: u32, q: nat)
    requires p + 4 <= n <= |ptr|
    ensures q == p + 4 && Finalize(r, ptr[q..n]) == Finalize(h, ptr[p..n])
  {
    hide Process4, Avalanche, ReadLE32;
    r, q := Process4(h, ReadLE32(ptr, p)), p + 4;
    ReadOfSlice(ptr, p, n - p, 0, 4);
    assert ptr[p..p + (n - p)] == ptr[p..n];
    assert ptr[p..n][4..] == ptr[q..n];
  }

  /** The macro `XXH_PROCESS1`: take one byte of the last three. */
  method TakeByte(h: u32, ptr: seq<byte>, p: nat, ghost n: nat) returns (r: u32, q: nat)
    requires p < n <= |ptr| && n - p < 4
    ensures q == p + 1 && Finalize(r, ptr[q..n]) == Finalize(h, ptr[p..n])
  {
    hide Process1, Avalanche;
    r, q := Process1(h, ptr[p]), p + 1;
    assert ptr[p..n][1..] == ptr[q..n];
  }

  /** `XXH32_finalize`, the rerolled form. */
  method FinalizeRerolled(h: u32, ptr: seq<byte>, len: nat) returns (r: u32)
    requires len % 16 <= |ptr|
    ensures r == Finalize(h, ptr[..len % 16])
  {
    hide Avalanche;
    ghost var end := len % 16;
    var n: nat, p: nat := len % 16, 0;
    r := h;
    while n >= 4
      invariant p + n == end
      invariant Finalize(r, ptr[p..end]) == Finalize(h, ptr[0..end])
    {
      r, p := TakeWord(r, ptr, p, end);
      n := n - 4;
    }
    while n > 0
      invariant n < 4 && p + n == end
      invariant Finalize(r, ptr[p..end]) == Finalize(h, ptr[0..end])
    {
      r, p := TakeByte(r, ptr, p, end);
      n := n - 1;
    }
    r := Avalanche(r);
  }

  /** `XXH32_finalize`, the unrolled form: a switch on the length whose cases fall
      through, entered at the number of words that remain. */
  method FinalizeUnrolled(h: u32, ptr: seq<byte>, len: nat) returns (r: u32)
    requires len % 16 <= |ptr|
    ensures r == Finalize(h, ptr[..len % 16])
  {
    hide Avalanche;
    var n, p := len % 16, 0;
    r := h;
    if n == 12 || n == 8 || n == 4 {
      if n >= 12 { r, p := TakeWord(r, ptr, p, n); }
      if n >= 8 { r, p := TakeWord(r, ptr, p, n); }
      r, p := TakeWord(r, ptr, p, n);
    } else if n == 13 || n == 9 || n == 5 {
      if n >= 13 { r, p := TakeWord(r, ptr, p, n); }
      if n >= 9 { r, p := TakeWord(r, ptr, p, n); }
      r, p := TakeWord(r, ptr, p, n);
      r, p := TakeByte(r, ptr, p, n);
    } else if n == 14 || n == 10 || n == 6 {
      if n >= 14 { r, p := TakeWord(r, ptr, p, n); }
      if n >= 10 { r, p := TakeWord(r, ptr, p, n); }
      r, p := TakeWord(r, ptr, p, n);
      r, p := TakeByte(r, ptr, p, n);
      r, p := TakeByte(r, ptr, p, n);
    } else {
      if n >= 15 { r, p := TakeWord(r, ptr, p, n); }
      if n >= 11 { r, p := TakeWord(r, ptr, p, n); }
      if n >= 7 { r, p := TakeWord(r, ptr, p, n); }
      if n >= 3 { r, p := TakeByte(r, ptr, p, n); }
      if n >= 2 { r, p := TakeByte(r, ptr, p, n); }
      if n >= 1 { r, p := TakeByte(r, ptr, p, n); }
    }
    r := Avalanche(r);
  }

  // ---------------------------------------------------------------- one-shot

  /** Four rounds on consecutive words at `p` are one stripe. */
  lemma RoundsAreStripe(v: Lanes, s: seq<byte>, p: nat)
    requires p + 16 <= |s|
    ensures Stripe(v, s[p..p + 16])
         == Lanes(Round(v.v1, ReadLE32(s, p)), Round(v.v2, ReadLE32(s, p + 4)),
                  Round(v.v3, ReadLE32(s, p + 8)), Round(v.v4, ReadLE32(s, p + 12)))
  {
    hide Round, ReadLE32;
    ReadOfSlice(s, p, 16, 0, 4);
    ReadOfSlice(s, p, 16, 4, 4);
    ReadOfSlice(s, p, 16, 8, 4);
    ReadOfSlice(s, p, 16, 12, 4);
  }

  /** The four rounds both loops make, reading at `p`. */
  method Rounds(v: Lanes, s: seq<byte>, p: nat) returns (r: Lanes)
    requires p + 16 <= |s|
    ensures r == Stripe(v, s[p..p + 16])
  {
    hide Round, ReadLE32;
    RoundsAreStripe(v, s, p);
    r := Lanes(Round(v.v1, ReadLE32(s, p)), Round(v.v2, ReadLE32(s, p + 4)),
               Round(v.v3, ReadLE32(s, p + 8)), Round(v.v4, ReadLE32(s, p + 12)));
  }

  /** `XXH32_endian_align` computes the hash with either form of the finalization. */
  method EndianAlign(input: seq<byte>, seed: u32, reroll: bool) returns (h: u32)
    ensures h == Hash(input, seed)
  {
    hide Finalize, Stripe, Rotl32, InitLanes, Wrap32;
    var len := |input|;
    var p := 0;
    if len >= 16 {
      var limit := len - 15;
      var v := InitLanes(seed);
      ghost var n := 0;
      var first := true;
      while first || p < limit
        invariant first ==> p == 0
        invariant p == 16 * n <= len
        invariant v == Consume(seed, input, n)
        decreases len - p
      {
        v := Rounds(v, input, p);
        p := p + 16;
        n := n + 1;
        first := false;
      }
      h := Add32(Add32(Add32(Rotl32(v.v1, 1), Rotl32(v.v2, 7)), Rotl32(v.v3, 12)), Rotl32(v.v4, 18));
    } else {
      h := Add32(seed, PRIME32_5);
    }
    h := Add32(h, Wrap32(len));
    ghost var tail := input[16 * (len / 16)..];
    assert p == 16 * (len / 16) && input[p..][..len % 16] == tail;
    if reroll {
      h := FinalizeRerolled(h, input[p..], len);
    } else {
      h := FinalizeUnrolled(h, input[p..], len);
    }
  }

  // ---------------------------------------------------------------- streaming

  /** The lanes depend only on the stripes already consumed. */
  lemma {:induction false} ConsumePrefix(seed: u32, s: seq<byte>, t: seq<byte>, n: nat)
    requires 16 * n <= |s|
    ensures Consume(seed, s + t, n) == Consume(seed, s, n)
  {
    hide Stripe;
    if n > 0 {
      ConsumePrefix(seed, s, t, n - 1);
      assert (s + t)[16 * (n - 1)..16 * n] == s[16 * (n - 1)..16 * n];
    }
  }

  /** Until the first stripe the third lane is still the seed. */
  lemma LaneThreeIsSeed(seed: u32, s: seq<byte>)
    ensures Consume(seed, s, 0).v3 == seed
  {
  }

  /** The lanes have consumed the first `n` stripes of `s`, the buffer holds the rest. */
  ghost predicate Holding(s: seq<byte>, seed: u32, v: Lanes, buf: seq<byte>, size: nat, n: nat) {
    && |buf| == 16 && size < 16 && |s| == 16 * n + size
    && buf[..size] == s[16 * n..]
    && v == Consume(seed, s, n)
  }

  lemma HoldingLength(s: seq<byte>, seed: u32, v: Lanes, buf: seq<byte>, size: nat, n: nat)
    requires Holding(s, seed, v, buf, size, n)
    ensures |buf| == 16 && size < 16 && |s| == 16 * n + size
    ensures size == |s| % 16 && n == |s| / 16
  {
    hide Consume;
    DivModUnique(n, size, 16, |s|);
  }

  lemma FillKeeps(s: seq<byte>, t: seq<byte>, seed: u32, v: Lanes, buf: seq<byte>, size: nat, n: nat)
    requires Holding(s, seed, v, buf, size, n) && size + |t| < 16
    ensures Holding(s + t, seed, v, Overwrite(buf, size, t), size + |t|, n)
  {
    hide Consume, Overwrite;
    ConsumePrefix(seed, s, t, n);
    BufferedPart(s, t, buf, size, 16 * n);
    assert t == t[..|t|];
  }

  /** The buffered bytes followed by the first ones of the input. */
  lemma BufferedPart(s: seq<byte>, t: seq<byte>, buf: seq<byte>, size: nat, done: nat)
    requires |buf| == 16 && size <= 16 && |s| == done + size && buf[..size] == s[done..]
    ensures forall k | 0 <= k <= |t| && size + k <= 16 ::
              Overwrite(buf, size, t[..k])[..size + k] == (s + t)[done..done + size + k]
  {
    hide Overwrite;
    forall k | 0 <= k <= |t| && size + k <= 16
      ensures Overwrite(buf, size, t[..k])[..size + k] == (s + t)[done..done + size + k]
    {
      var b := Overwrite(buf, size, t[..k]);
      forall i | 0 <= i < size + k
        ensures b[i] == (s + t)[done + i]
      {
        if i < size { assert b[i] == buf[..size][i] == s[done..][i]; }
      }
    }
  }

  /** Completing the buffered stripe. */
  lemma DrainKeeps(s: seq<byte>, t: seq<byte>, seed: u32, v: Lanes, buf: seq<byte>, size: nat, n: nat)
    requires Holding(s, seed, v, buf, size, n) && size + |t| >= 16
    ensures Stripe(v, Overwrite(buf, size, t[..16 - size])) == Consume(seed, s + t, n + 1)
  {
    hide Stripe, Overwrite;
    ConsumePrefix(seed, s, t, n);
    BufferedPart(s, t, buf, size, 16 * n);
    var b := Overwrite(buf, size, t[..16 - size]);
    assert b == b[..size + (16 - size)] == (s + t)[16 * n..16 * (n + 1)];
  }

  /** Buffering what is left of the input after its last stripe. */
  lemma RestKeeps(s: seq<byte>, t: seq<byte>, seed: u32, v: Lanes, buf: seq<byte>, p: nat, n: nat)
    requires |buf| == 16 && p <= |t| < p + 16 && |s| + p == 16 * n
    requires v == Consume(seed, s + t, n)
    ensures Holding(s + t, seed, v, Overwrite(buf, 0, t[p..|t|]), |t| - p, n)
    ensures p == |t| ==> Holding(s + t, seed, v, buf, 0, n)
  {
    hide Consume, Overwrite;
    SuffixOfConcat(s, t, p);
    var b := Overwrite(buf, 0, t[p..|t|]);
    assert b[..|t| - p] == t[p..];
  }

  function Flag(b: bool): u32 { if b then 1 else 0 }

  /** The wrapped counter and the sticky flag together know whether the true
      length has reached 16. */
  lemma CountersAfter(total: u32, before: nat, len: nat)
    requires total == Wrap32(before)
    ensures Add32(total, Wrap32(len)) == Wrap32(before + len)
    ensures Or(Flag(before >= 16), Or(Flag(len >= 16), Flag(Add32(total, Wrap32(len)) >= 16)))
         == Flag(before + len >= 16)
  {
    hide Or;
    WrapSum32(before, Wrap32(len));
    WrapSum32(len, before);
    OrFlags(len >= 16, Add32(total, Wrap32(len)) >= 16);
    OrFlags(before >= 16, len >= 16 || Add32(total, Wrap32(len)) >= 16);
  }

  lemma OrFlags(a: bool, b: bool)
    ensures Or(Flag(a), Flag(b)) == Flag(a || b)
  {
    assert Or(0, 0) == 0 && Or(1, 0) == 1 && Or(0, 1) == 1 && Or(1, 1) == 1;
  }

  /** The loop of `XXH32_update` over whole stripes of the input. */
  method ConsumeBlocks(v: Lanes, input: seq<byte>, start: nat, ghost seed: u32, ghost before: seq<byte>, ghost m: nat)
    returns (r: Lanes, p: nat, ghost n: nat)
    requires start <= |input| - 16 && |before| + start == 16 * m
    requires v == Consume(seed, before + input, m)
    ensures p <= |input| < p + 16 && |before| + p == 16 * n
    ensures r == Consume(seed, before + input, n)
  {
    hide Stripe, InitLanes;
    r, p, n := v, start, m;
    ghost var stream := before + input;
    var limit := |input| - 16;
    var first := true;
    while first || p <= limit
      invariant first ==> p <= limit
      invariant |before| + p == 16 * n <= |stream|
      invariant r == Consume(seed, stream, n)
      decreases |input| - p
    {
      r := Rounds(r, input, p);
      SliceOfConcat(before, input, p, p + 16);
      p := p + 16;
      n := n + 1;
      first := false;
    }
  }

  /** `XXH32_state_t`. `stream` is every byte fed since the last reset. */
  class State {
    var totalLen32: u32
    var largeLen: u32
    var v: Lanes
    const mem32: array<byte>
    var memsize: u32
    ghost var seed: u32
    ghost var stream: seq<byte>
    ghost var stripes: nat

    /** The length counter wraps, yet `largeLen` records whether the true length
        reached 16, and the buffer holds exactly the bytes after the last stripe. */
    ghost predicate Valid()
      reads this, mem32
    {
      && mem32.Length == 16
      && totalLen32 == Wrap32(|stream|)
      && largeLen == Flag(|stream| >= 16)
      && memsize == |stream| % 16 && stripes == |stream| / 16
      && Holds(stream)
    }

    ghost predicate Holds(s: seq<byte>)
      reads `v, `memsize, `seed, `stripes, mem32
    {
      Holding(s, seed, v, mem32[..], memsize, stripes)
    }

    constructor ()
      ensures mem32.Length == 16 && fresh(mem32)
    {
      mem32 := new byte[16];
    }

    /** `XXH32_reset`, on a state in any condition. */
    method Reset(seed: u32)
      requires mem32.Length == 16
      modifies this, mem32
      ensures Valid() && stream == [] && this.seed == seed
    {
      hide InitLanes;
      forall i | 0 <= i < 16 { mem32[i] := 0; }
      totalLen32, largeLen, memsize := 0, 0, 0;
      v := InitLanes(seed);
      this.seed, stream, stripes := seed, [], 0;
    }

    /** `XXH32_update`: any chunk, of any length. */
    method Update(input: seq<byte>)
      requires Valid()
      modifies this, mem32
      ensures Valid() && stream == old(stream) + input && seed == old(seed)
    {
      hide Flag, Wrap32, Or, Consume;
      var len := |input|;
      ghost var before := stream;
      CountersAfter(totalLen32, |before|, len);
      totalLen32 := Add32(totalLen32, Wrap32(len));
      largeLen := Or(largeLen, Or(Flag(len >= 16), Flag(totalLen32 >= 16)));

      if memsize + len < 16 {
        FillIn(input);
      } else {
        Absorb(input);
      }
      stream := before + input;
      HoldingLength(stream, seed, v, mem32[..], memsize, stripes);
    }

    /** Not yet a whole stripe: only buffer the input. */
    method FillIn(input: seq<byte>)
      requires memsize + |input| < 16 && Holds(stream)
      modifies `memsize, mem32
      ensures Holds(stream + input)
    {
      hide Holding, Overwrite;
      HoldingLength(stream, seed, v, mem32[..], memsize, stripes);
      FillKeeps(stream, input, seed, v, mem32[..], memsize, stripes);
      assert input[0..|input|] == input;
      CopyIn(memsize, input, 0, |input|);
      memsize := memsize + |input|;
    }

    /** The rest of `XXH32_update`, when at least one stripe is complete. */
    method Absorb(input: seq<byte>)
      requires memsize + |input| >= 16 && Holds(stream)
      modifies `v, `memsize, `stripes, mem32
      ensures Holds(stream + input)
    {
      hide Consume, Overwrite, Stripe;
      var len, p := |input|, 0;
      if memsize != 0 {
        DrainKeeps(stream, input, seed, v, mem32[..], memsize, stripes);
        p := 16 - memsize;
        assert input[0..p] == input[..p];
        CopyIn(memsize, input, 0, p);
        assert mem32[..][0..0 + 16] == mem32[..];
        v := Rounds(v, mem32[..], 0);
        memsize, stripes := 0, stripes + 1;
      } else {
        ConsumePrefix(seed, stream, input, stripes);
      }
      if p <= len - 16 {
        v, p, stripes := ConsumeBlocks(v, input, p, seed, stream, stripes);
      }
      hide Holding;
      RestKeeps(stream, input, seed, v, mem32[..], p, stripes);
      if p < len {
        CopyIn(0, input, p, len - p);
        memsize := len - p;
      }
    }

    /** Copy `n` bytes of the input into the buffer at `at`. */
    method CopyIn(at: nat, input: seq<byte>, p: nat, n: nat)
      requires at + n <= mem32.Length && p + n <= |input|
      modifies mem32
      ensures mem32[..] == Overwrite(old(mem32[..]), at, input[p..p + n])
    {
      forall i | 0 <= i < n { mem32[at + i] := input[p + i]; }
    }

    /** `XXH32_digest` */
    method Digest() returns (h: u32)
      requires Valid()
      ensures h == Hash(stream, seed)
    {
      hide Finalize, Consume, Rotl32, Wrap32, InitLanes;
      LaneThreeIsSeed(seed, stream);
      if largeLen != 0 {
        h := Add32(Add32(Add32(Rotl32(v.v1, 1), Rotl32(v.v2, 7)), Rotl32(v.v3, 12)), Rotl32(v.v4, 18));
      } else {
        h := Add32(v.v3, PRIME32_5);
      }
      h := Add32(h, totalLen32);
      h := FinalizeUnrolled(h, mem32[..], memsize);
      assert mem32[..][..memsize] == mem32[..memsize];
    }
  }

  /** Any way of cutting the data into chunks gives the one-shot hash. */
  method HashChunks(chunks: seq<seq<byte>>, seed: u32) returns (h: u32)
    ensures h == Hash(Concat(chunks), seed)
  {
    hide Hash, State.Valid;
    var state := new State();
    state.Reset(seed);
    for i := 0 to |chunks|
      invariant state.Valid() && state.seed == seed && state.stream == Concat(chunks[..i])
      invariant fresh(state) && fresh(state.mem32)
    {
      state.Update(chunks[i]);
      assert chunks[..i + 1][..i] == chunks[..i];
    }
    assert chunks[..|chunks|] == chunks;
    h := state.Digest();
  }
}
