/** XXH32 run backwards: every step can be undone when either the state or the word
    it takes in is known, so a hash gives back the state its tail started from. */
module Xxh32Inverse {
  import opened Bits
  import opened Words
  import opened Memory
  import opened Primes
  import opened Xxh32

  // ---------------------------------------------------------------- single steps

  /** What was rotated by `r` and then multiplied by the inverse of `q`. */
  function Unmix(h: u32, r: nat, q: u32): u32
    requires 0 < r < 32
  {
    Rotl32(Mul32(h, q), 32 - r)
  }

  lemma UnmixUndoes(s: u32, r: nat, p: u32, q: u32)
    requires 0 < r < 32 && Mul32(p, q) == 1
    ensures Unmix(Mul32(Rotl32(s, r), p), r, q) == s
  {
    hide Mul32, Rotl32;
    MulUndo32(Rotl32(s, r), p, q);
    Rotl32Undo(s, r);
  }

  /** The two addends of a sum whose second one is a multiple of the inverse of `q`. */
  lemma SumParts(h: u32, word: u32, p: u32, q: u32)
    requires Mul32(p, q) == 1
    ensures var s := Add32(h, Mul32(word, p)); Sub32(s, Mul32(word, p)) == h && Mul32(Sub32(s, h), q) == word
  {
    hide Mul32, Add32, Sub32;
    SumUndo32(h, Mul32(word, p));
    SumUndo32(Mul32(word, p), h);
    MulUndo32(word, p, q);
  }

  /** The accumulator before a round, and the word it took in. */
  function Unround(h: u32, input: u32): u32 { Sub32(Unmix(h, 13, INVERSE32_1), Mul32(input, PRIME32_2)) }
  function RoundInput(h: u32, acc: u32): u32 { Mul32(Sub32(Unmix(h, 13, INVERSE32_1), acc), INVERSE32_2) }

  lemma RoundUndone(acc: u32, input: u32)
    ensures Unround(Round(acc, input), input) == acc && RoundInput(Round(acc, input), acc) == input
  {
    hide Mul32, Rotl32, Unmix, Add32, Sub32;
    InversePrimes();
    UnmixUndoes(Add32(acc, Mul32(input, PRIME32_2)), 13, PRIME32_1, INVERSE32_1);
    SumParts(acc, input, PRIME32_2, INVERSE32_2);
  }

  function Unprocess4(h: u32, word: u32): u32 { Sub32(Unmix(h, 17, INVERSE32_4), Mul32(word, PRIME32_3)) }
  function Process4Word(h: u32, g: u32): u32 { Mul32(Sub32(Unmix(h, 17, INVERSE32_4), g), INVERSE32_3) }

  lemma Process4Undone(h: u32, word: u32)
    ensures Unprocess4(Process4(h, word), word) == h && Process4Word(Process4(h, word), h) == word
  {
    hide Mul32, Rotl32, Unmix, Add32, Sub32;
    InversePrimes();
    UnmixUndoes(Add32(h, Mul32(word, PRIME32_3)), 17, PRIME32_4, INVERSE32_4);
    SumParts(h, word, PRIME32_3, INVERSE32_3);
  }

  function Unprocess1(h: u32, b: byte): u32 { Sub32(Unmix(h, 11, INVERSE32_1), Mul32(b, PRIME32_5)) }
  function Process1Byte(h: u32, g: u32): u32 { Mul32(Sub32(Unmix(h, 11, INVERSE32_1), g), INVERSE32_5) }

  lemma Process1Undone(h: u32, b: byte)
    ensures Unprocess1(Process1(h, b), b) == h && Process1Byte(Process1(h, b), h) == b
  {
    hide Mul32, Rotl32, Unmix, Add32, Sub32;
    InversePrimes();
    UnmixUndoes(Add32(h, Mul32(b, PRIME32_5)), 11, PRIME32_1, INVERSE32_1);
    SumParts(h, b, PRIME32_5, INVERSE32_5);
  }

  function Unavalanche(h: u32): u32 {
    Unshift32(Mul32(Unshift32(Mul32(Unshift32(h, 16), INVERSE32_3), 13), INVERSE32_2), 15)
  }

  lemma AvalancheUndone(h: u32)
    ensures Unavalanche(Avalanche(h)) == h
  {
    hide Mul32, XorShift32, Unshift32;
    InversePrimes();
    var a := XorShift32(h, 15);
    var b := XorShift32(Mul32(a, PRIME32_2), 13);
    ShiftUndone(h, 15);
    MulUndo32(a, PRIME32_2, INVERSE32_2);
    ShiftUndone(Mul32(a, PRIME32_2), 13);
    MulUndo32(b, PRIME32_3, INVERSE32_3);
    ShiftUndone(Mul32(b, PRIME32_3), 16);
  }

  lemma ShiftUndone(x: u32, s: nat)
    requires s > 0
    ensures Unshift32(XorShift32(x, s), s) == x
  {
    UnshiftUndoes(x, s);
  }

  // ---------------------------------------------------------------- the tail and the stripes

  /** The state from which a tail led to a hash. */
  function Unfinalize(hash: u32, tail: seq<byte>): u32
    decreases |tail|
  {
    if |tail| >= 4 then Unprocess4(Unfinalize(hash, tail[4..]), ReadLE32(tail, 0))
    else if |tail| > 0 then Unprocess1(Unfinalize(hash, tail[1..]), tail[0])
    else Unavalanche(hash)
  }

  lemma {:induction false} FinalizeUndone(h: u32, tail: seq<byte>)
    ensures Unfinalize(Finalize(h, tail), tail) == h
    decreases |tail|
  {
    hide Process4, Process1, Avalanche, Unprocess4, Unprocess1, Unavalanche, ReadLE32;
    if |tail| >= 4 {
      var w := ReadLE32(tail, 0);
      FinalizeUndone(Process4(h, w), tail[4..]);
      Process4Undone(h, w);
    } else if |tail| > 0 {
      FinalizeUndone(Process1(h, tail[0]), tail[1..]);
      Process1Undone(h, tail[0]);
    } else {
      AvalancheUndone(h);
    }
  }

  /** The lanes before a stripe, and before the first `n` stripes. */
  function Unstripe(v: Lanes, block: seq<byte>): Lanes
    requires |block| == 16
  {
    Lanes(Unround(v.v1, ReadLE32(block, 0)), Unround(v.v2, ReadLE32(block, 4)),
          Unround(v.v3, ReadLE32(block, 8)), Unround(v.v4, ReadLE32(block, 12)))
  }

  function Rewind(v: Lanes, data: seq<byte>, n: nat): Lanes
    requires 16 * n <= |data|
    decreases n
  {
    if n == 0 then v else Rewind(Unstripe(v, data[16 * (n - 1)..16 * n]), data, n - 1)
  }

  /** The lanes of any number of stripes lead back to the seed. */
  lemma {:induction false} ConsumeUndone(seed: u32, data: seq<byte>, n: nat)
    requires 16 * n <= |data|
    ensures Rewind(Consume(seed, data, n), data, n) == InitLanes(seed)
  {
    hide Stripe, Unstripe, InitLanes;
    if n > 0 {
      var b := data[16 * (n - 1)..16 * n];
      StripeUndone(Consume(seed, data, n - 1), b);
      ConsumeUndone(seed, data, n - 1);
    }
  }

  /** The third lane starts as the seed, and the others at fixed distances from it. */
  lemma LanesStart(seed: u32)
    ensures var v := InitLanes(seed);
            && v.v3 == seed && Sub32(v.v2, v.v3) == PRIME32_2
            && Sub32(v.v1, v.v2) == Sub32(v.v3, v.v4) == PRIME32_1
  {
    hide Wrap32;
    var p, q := PRIME32_1, PRIME32_2;
    SumUndo32(q, seed);
    SumUndo32(seed, p);
    WrapSum32(seed + p, q);
    WrapSum32(seed + q, p);
    SumUndo32(p, Add32(seed, q));
    SumUndo32(p, Sub32(seed, p));
  }

  lemma StripeUndone(v: Lanes, b: seq<byte>)
    requires |b| == 16
    ensures Unstripe(Stripe(v, b), b) == v
  {
    hide Round, Unround, ReadLE32;
    RoundUndone(v.v1, ReadLE32(b, 0));
    RoundUndone(v.v2, ReadLE32(b, 4));
    RoundUndone(v.v3, ReadLE32(b, 8));
    RoundUndone(v.v4, ReadLE32(b, 12));
  }

  // ---------------------------------------------------------------- the hash

  /** Undoing the tail gives the start plus the length. */
  lemma HashUndone(data: seq<byte>, seed: u32)
    ensures Unfinalize(Hash(data, seed), data[16 * (|data| / 16)..]) == Add32(Start(data, seed), Wrap32(|data|))
  {
    hide Finalize, Unfinalize, Start;
    FinalizeUndone(Add32(Start(data, seed), Wrap32(|data|)), data[16 * (|data| / 16)..]);
  }

  /** The seed under which an input shorter than a stripe has the given hash. */
  function SeedOf(hash: u32, data: seq<byte>): u32 {
    Sub32(Sub32(Unfinalize(hash, data), Wrap32(|data|)), PRIME32_5)
  }

  lemma SeedRecovered(data: seq<byte>, seed: u32)
    requires |data| < 16
    ensures SeedOf(Hash(data, seed), data) == seed
  {
    hide Hash, Unfinalize, Add32, Sub32, Wrap32;
    HashUndone(data, seed);
    assert data[16 * (|data| / 16)..] == data;
    SumUndo32(Add32(seed, PRIME32_5), Wrap32(|data|));
    SumUndo32(seed, PRIME32_5);
  }
}
