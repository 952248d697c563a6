/** XXH64 run backwards: every step can be undone when either the state or the word
    it takes in is known, so a hash gives back the state its tail started from. */
module Xxh64Inverse {
  import opened Bits
  import opened Words
  import opened Memory
  import opened Primes
  import opened Xxh64

  // ---------------------------------------------------------------- single steps

  /** What was rotated by `r` and then multiplied by the inverse of `q`. */
  function Unmix(h: u64, r: nat, q: u64): u64
    requires 0 < r < 64
  {
    Rotl64(Mul64(h, q), 64 - r)
  }

  lemma UnmixUndoes(s: u64, r: nat, p: u64, q: u64)
    requires 0 < r < 64 && Mul64(p, q) == 1
    ensures Unmix(Mul64(Rotl64(s, r), p), r, q) == s
  {
    hide Mul64, Rotl64;
    MulUndo64(Rotl64(s, r), p, q);
    Rotl64Undo(s, r);
  }

  /** The accumulator before a round, and the word it took in. */
  function Unround(h: u64, input: u64): u64 { Sub64(Unmix(h, 31, INVERSE64_1), Mul64(input, PRIME64_2)) }
  function RoundInput(h: u64, acc: u64): u64 { Mul64(Sub64(Unmix(h, 31, INVERSE64_1), acc), INVERSE64_2) }

  lemma RoundUndone(acc: u64, input: u64)
    ensures Unround(Round(acc, input), input) == acc && RoundInput(Round(acc, input), acc) == input
  {
    hide Mul64, Rotl64, Unmix, Add64, Sub64;
    InversePrimes();
    UnmixUndoes(Add64(acc, Mul64(input, PRIME64_2)), 31, PRIME64_1, INVERSE64_1);
    SumUndo64(acc, Mul64(input, PRIME64_2));
    SumUndo64(Mul64(input, PRIME64_2), acc);
    MulUndo64(input, PRIME64_2, INVERSE64_2);
  }

  /** The accumulator before a merge round, and the lane it took in. */
  function Unmerge(h: u64, val: u64): u64 { Xor64(Mul64(Sub64(h, PRIME64_4), INVERSE64_1), Round(0, val)) }
  function MergedLane(h: u64, acc: u64): u64 { RoundInput(Xor64(Mul64(Sub64(h, PRIME64_4), INVERSE64_1), acc), 0) }

  lemma MergeUndone(acc: u64, val: u64)
    ensures Unmerge(MergeRound(acc, val), val) == acc && MergedLane(MergeRound(acc, val), acc) == val
  {
    hide Mul64, Xor64, Round, RoundInput, Unround, Add64, Sub64;
    InversePrimes();
    var k := Xor64(acc, Round(0, val));
    SumUndo64(Mul64(k, PRIME64_1), PRIME64_4);
    MulUndo64(k, PRIME64_1, INVERSE64_1);
    XorUndo64(acc, Round(0, val));
    XorUndo64(Round(0, val), acc);
    RoundUndone(0, val);
  }

  function Unprocess8(h: u64, word: u64): u64 {
    Xor64(Unmix(Sub64(h, PRIME64_4), 27, INVERSE64_1), Round(0, word))
  }
  function Process8Word(h: u64, g: u64): u64 {
    RoundInput(Xor64(Unmix(Sub64(h, PRIME64_4), 27, INVERSE64_1), g), 0)
  }

  lemma Process8Undone(h: u64, word: u64)
    ensures Unprocess8(Process8(h, word), word) == h && Process8Word(Process8(h, word), h) == word
  {
    hide Mul64, Rotl64, Unmix, Xor64, Round, RoundInput, Unround, Add64, Sub64;
    InversePrimes();
    var k := Xor64(h, Round(0, word));
    SumUndo64(Mul64(Rotl64(k, 27), PRIME64_1), PRIME64_4);
    UnmixUndoes(k, 27, PRIME64_1, INVERSE64_1);
    XorUndo64(h, Round(0, word));
    XorUndo64(Round(0, word), h);
    RoundUndone(0, word);
  }

  function Unprocess4(h: u64, word: u32): u64 {
    Xor64(Unmix(Sub64(h, PRIME64_3), 23, INVERSE64_2), Mul64(word, PRIME64_1))
  }
  function Process4Word(h: u64, g: u64): u64 {
    Mul64(Xor64(Unmix(Sub64(h, PRIME64_3), 23, INVERSE64_2), g), INVERSE64_1)
  }

  lemma Process4Undone(h: u64, word: u32)
    ensures Unprocess4(Process4(h, word), word) == h && Process4Word(Process4(h, word), h) == word
  {
    hide Mul64, Rotl64, Unmix, Xor64, Add64, Sub64;
    InversePrimes();
    var k := Xor64(h, Mul64(word, PRIME64_1));
    SumUndo64(Mul64(Rotl64(k, 23), PRIME64_2), PRIME64_3);
    UnmixUndoes(k, 23, PRIME64_2, INVERSE64_2);
    XorUndo64(h, Mul64(word, PRIME64_1));
    XorUndo64(Mul64(word, PRIME64_1), h);
    MulUndo64(word, PRIME64_1, INVERSE64_1);
  }

  function Unprocess1(h: u64, b: byte): u64 { Xor64(Unmix(h, 11, INVERSE64_1), Mul64(b, PRIME64_5)) }
  function Process1Byte(h: u64, g: u64): u64 { Mul64(Xor64(Unmix(h, 11, INVERSE64_1), g), INVERSE64_5) }

  lemma Process1Undone(h: u64, b: byte)
    ensures Unprocess1(Process1(h, b), b) == h && Process1Byte(Process1(h, b), h) == b
  {
    hide Mul64, Rotl64, Unmix, Xor64;
    InversePrimes();
    UnmixUndoes(Xor64(h, Mul64(b, PRIME64_5)), 11, PRIME64_1, INVERSE64_1);
    XorUndo64(h, Mul64(b, PRIME64_5));
    XorUndo64(Mul64(b, PRIME64_5), h);
    MulUndo64(b, PRIME64_5, INVERSE64_5);
  }

  function Unavalanche(h: u64): u64 {
    Unshift64(Mul64(Unshift64(Mul64(Unshift64(h, 32), INVERSE64_3), 29), INVERSE64_2), 33)
  }

  lemma AvalancheUndone(h: u64)
    ensures Unavalanche(Avalanche(h)) == h
  {
    hide Mul64, XorShift64, Unshift64;
    InversePrimes();
    var a := XorShift64(h, 33);
    var b := XorShift64(Mul64(a, PRIME64_2), 29);
    ShiftUndone(h, 33);
    MulUndo64(a, PRIME64_2, INVERSE64_2);
    ShiftUndone(Mul64(a, PRIME64_2), 29);
    MulUndo64(b, PRIME64_3, INVERSE64_3);
    ShiftUndone(Mul64(b, PRIME64_3), 32);
  }

  lemma ShiftUndone(x: u64, s: nat)
    requires s > 0
    ensures Unshift64(XorShift64(x, s), s) == x
  {
    UnshiftUndoes(x, s);
  }

  // ---------------------------------------------------------------- the tail and the stripes

  /** The state from which a tail led to a hash. */
  function Unfinalize(hash: u64, tail: seq<byte>): u64
    decreases |tail|
  {
    if |tail| >= 8 then Unprocess8(Unfinalize(hash, tail[8..]), ReadLE64(tail, 0))
    else if |tail| >= 4 then Unprocess4(Unfinalize(hash, tail[4..]), ReadLE32(tail, 0))
    else if |tail| > 0 then Unprocess1(Unfinalize(hash, tail[1..]), tail[0])
    else Unavalanche(hash)
  }

  lemma {:induction false} FinalizeUndone(h: u64, tail: seq<byte>)
    ensures Unfinalize(Finalize(h, tail), tail) == h
    decreases |tail|
  {
    hide Process8, Process4, Process1, Avalanche, Unprocess8, Unprocess4, Unprocess1, Unavalanche, ReadLE64, ReadLE32;
    if |tail| >= 8 {
      var w := ReadLE64(tail, 0);
      FinalizeUndone(Process8(h, w), tail[8..]);
      Process8Undone(h, w);
    } else if |tail| >= 4 {
      var w := ReadLE32(tail, 0);
      FinalizeUndone(Process4(h, w), tail[4..]);
      Process4Undone(h, w);
    } else if |tail| > 0 {
      FinalizeUndone(Process1(h, tail[0]), tail[1..]);
      Process1Undone(h, tail[0]);
    } else {
      AvalancheUndone(h);
    }
  }

  /** The lanes before a stripe, and before the first `n` stripes. */
  function Unstripe(v: Lanes, block: seq<byte>): Lanes
    requires |block| == 32
  {
    Lanes(Unround(v.v1, ReadLE64(block, 0)), Unround(v.v2, ReadLE64(block, 8)),
          Unround(v.v3, ReadLE64(block, 16)), Unround(v.v4, ReadLE64(block, 24)))
  }

  function Rewind(v: Lanes, data: seq<byte>, n: nat): Lanes
    requires 32 * n <= |data|
    decreases n
  {
    if n == 0 then v else Rewind(Unstripe(v, data[32 * (n - 1)..32 * n]), data, n - 1)
  }

  /** The lanes of any number of stripes lead back to the seed. */
  lemma {:induction false} ConsumeUndone(seed: u64, data: seq<byte>, n: nat)
    requires 32 * n <= |data|
    ensures Rewind(Consume(seed, data, n), data, n) == InitLanes(seed)
  {
    hide Stripe, Unstripe, InitLanes;
    if n > 0 {
      StripeUndone(Consume(seed, data, n - 1), data[32 * (n - 1)..32 * n]);
      ConsumeUndone(seed, data, n - 1);
    }
  }

  /** The third lane starts as the seed, and the others at fixed distances from it. */
  lemma LanesStart(seed: u64)
    ensures var v := InitLanes(seed);
            && v.v3 == seed && Sub64(v.v2, v.v3) == PRIME64_2
            && Sub64(v.v1, v.v2) == Sub64(v.v3, v.v4) == PRIME64_1
  {
    hide Wrap64;
    var p, q := PRIME64_1, PRIME64_2;
    SumUndo64(q, seed);
    SumUndo64(seed, p);
    WrapSum(seed + p, q);
    WrapSum(seed + q, p);
    SumUndo64(p, Add64(seed, q));
    SumUndo64(p, Sub64(seed, p));
  }

  lemma StripeUndone(v: Lanes, b: seq<byte>)
    requires |b| == 32
    ensures Unstripe(Stripe(v, b), b) == v
  {
    hide Round, Unround, ReadLE64;
    RoundUndone(v.v1, ReadLE64(b, 0));
    RoundUndone(v.v2, ReadLE64(b, 8));
    RoundUndone(v.v3, ReadLE64(b, 16));
    RoundUndone(v.v4, ReadLE64(b, 24));
  }

  /** The rotated sum of the lanes that the four merge rounds started from. */
  function Unmerge4(h: u64, v: Lanes): u64 {
    Unmerge(Unmerge(Unmerge(Unmerge(h, v.v4), v.v3), v.v2), v.v1)
  }

  function RotatedSum(v: Lanes): u64 {
    Add64(Add64(Add64(Rotl64(v.v1, 1), Rotl64(v.v2, 7)), Rotl64(v.v3, 12)), Rotl64(v.v4, 18))
  }

  lemma MergeRoundsUndone(v: Lanes)
    ensures Unmerge4(Merge(v), v) == RotatedSum(v)
  {
    hide MergeRound, Unmerge, Rotl64, Add64;
    var h := RotatedSum(v);
    var a := MergeRound(h, v.v1);
    var b := MergeRound(a, v.v2);
    var c := MergeRound(b, v.v3);
    MergeUndone(h, v.v1);
    MergeUndone(a, v.v2);
    MergeUndone(b, v.v3);
    MergeUndone(c, v.v4);
  }

  // ---------------------------------------------------------------- the hash

  /** Undoing the tail gives the start plus the length. */
  lemma HashUndone(data: seq<byte>, seed: u64)
    ensures Unfinalize(Hash(data, seed), data[32 * (|data| / 32)..]) == Add64(Start(data, seed), Wrap64(|data|))
  {
    hide Finalize, Unfinalize, Start;
    FinalizeUndone(Add64(Start(data, seed), Wrap64(|data|)), data[32 * (|data| / 32)..]);
  }

  /** The seed under which an input shorter than a stripe has the given hash. */
  function SeedOf(hash: u64, data: seq<byte>): u64 {
    Sub64(Sub64(Unfinalize(hash, data), Wrap64(|data|)), PRIME64_5)
  }

  lemma SeedRecovered(data: seq<byte>, seed: u64)
    requires |data| < 32
    ensures SeedOf(Hash(data, seed), data) == seed
  {
    hide Hash, Unfinalize, Add64, Sub64, Wrap64;
    HashUndone(data, seed);
    assert data[32 * (|data| / 32)..] == data;
    SumUndo64(Add64(seed, PRIME64_5), Wrap64(|data|));
    SumUndo64(seed, PRIME64_5);
  }
}
