/** XXH3 on inputs of at most 240 bytes, in both widths. */
module Xxh3Short {
  import opened Bits
  import opened Words
  import opened Primes
  import opened Memory
  import opened Canonical
  import opened Multiply
  import Xxh64

  const SECRET_SIZE_MIN := 136

  /** Any secret the hash accepts. */
  type Secret = s: seq<byte> | |s| >= 136 witness seq(136, _ => 0)

  function Avalanche3(h: u64): u64 {
    XorShift64(Mul64(XorShift64(h, 37), 0x165667919E3779F9), 32)
  }

  /** The linear step `h ^ rotl(h, 49) ^ rotl(h, 24)`. */
  function RotXor(h: u64): u64 { Xor64(h, Xor64(Rotl64(h, 49), Rotl64(h, 24))) }

  function Rrmxmx(h: u64, len: nat): u64 {
    var h1 := Mul64(RotXor(h), 0x9FB21C651E98DF25);
    var h2 := Mul64(Xor64(h1, Wrap64(Shr(h1, 35) + len)), 0x9FB21C651E98DF25);
    XorShift64(h2, 28)
  }

  // ---------------------------------------------------------------- 1 to 3 bytes

  /** The first, middle and last byte and the length, packed into one word. */
  function Combined(input: seq<byte>): u32
    requires 1 <= |input| <= 3
  {
    CombinedIs(input);
    Or(Or(Or(Shl(input[0], 16), Shl(input[|input| / 2], 24)), input[|input| - 1]), Shl(|input|, 8))
  }

  lemma CombinedIs(input: seq<byte>)
    requires 1 <= |input| <= 3
    ensures Or(Or(Or(Shl(input[0], 16), Shl(input[|input| / 2], 24)), input[|input| - 1]), Shl(|input|, 8))
         == input[|input| / 2] * 0x100_0000 + input[0] * 0x1_0000 + |input| * 0x100 + input[|input| - 1]
  {
    hide Or, Shl, Pow2;
    var c1: nat, c2: nat, c3: nat, n: nat := input[0], input[|input| / 2], input[|input| - 1], |input|;
    assert Pow2(8) == 0x100 && Pow2(16) == 0x1_0000 && Pow2(24) == 0x100_0000 by { ByteSizes(); }
    ShlIsMul(c1, 16);
    ShlIsMul(c2, 24);
    ShlIsMul(n, 8);
    OrDisjoint(c2, Shl(c1, 16), 24);
    var h := c2 * 256 + c1;
    ShlIsMul(h, 16);
    OrDisjoint(h, c3, 16);
    OrDisjoint(n, c3, 8);
    OrConcat(h, c3, 0, Shl(n, 8), 16);
    ShlIsMul(0, 16);
    OrZero(h);
  }

  lemma ByteSizes()
    ensures Pow2(8) == 0x100 && Pow2(16) == 0x1_0000 && Pow2(24) == 0x100_0000
  {
    Pow2Add(8, 8);
    Pow2Add(8, 16);
    assert Pow2(8) == 0x100;
  }

  function Len1To3_64(input: seq<byte>, secret: Secret, seed: u64): u64
    requires 1 <= |input| <= 3
  {
    var bitflip := Add64(Xor32(ReadLE32(secret, 0), ReadLE32(secret, 4)), seed);
    Xxh64.Avalanche(Xor64(Combined(input), bitflip))
  }

  function Len1To3_128(input: seq<byte>, secret: Secret, seed: u64): Hash128
    requires 1 <= |input| <= 3
  {
    var combinedl := Combined(input);
    var combinedh := Rotl32(Swap32(combinedl), 13);
    var bitflipl := Add64(Xor32(ReadLE32(secret, 0), ReadLE32(secret, 4)), seed);
    var bitfliph := Sub64(Xor32(ReadLE32(secret, 8), ReadLE32(secret, 12)), seed);
    Hash128(Xxh64.Avalanche(Xor64(combinedl, bitflipl)), Xxh64.Avalanche(Xor64(combinedh, bitfliph)))
  }

  // ---------------------------------------------------------------- 4 to 8 bytes

  /** `high * 2^32 + low` from two 32-bit words. */
  function Join32(high: u32, low: u32): u64 {
    Add64(low, high * 0x1_0000_0000)
  }

  /** `seed ^= (xxh_u64)XXH_swap32((xxh_u32)seed) << 32` */
  function SpreadSeed(seed: u64): u64 {
    Xor64(seed, Swap32(Wrap32(seed)) * 0x1_0000_0000)
  }

  function Len4To8_64(input: seq<byte>, secret: Secret, seed: u64): u64
    requires 4 <= |input| <= 8
  {
    var bitflip := Sub64(Xor64(ReadLE64(secret, 8), ReadLE64(secret, 16)), SpreadSeed(seed));
    var input64 := Join32(ReadLE32(input, 0), ReadLE32(input, |input| - 4));
    Rrmxmx(Xor64(input64, bitflip), |input|)
  }

  function Len4To8_128(input: seq<byte>, secret: Secret, seed: u64): Hash128
    requires 4 <= |input| <= 8
  {
    var bitflip := Add64(Xor64(ReadLE64(secret, 16), ReadLE64(secret, 24)), SpreadSeed(seed));
    var input64 := Join32(ReadLE32(input, |input| - 4), ReadLE32(input, 0));
    Finish4To8(Mult64To128(Xor64(input64, bitflip), Add64(PRIME64_1, 4 * |input|)))
  }

  function Finish4To8(m: Hash128): Hash128 {
    var high := Add64(m.high64, Mul64(m.low64, 2));
    var low := Xor64(m.low64, Shr(high, 3));
    Hash128(XorShift64(Mul64(XorShift64(low, 35), 0x9FB21C651E98DF25), 28), Avalanche3(high))
  }

  // ---------------------------------------------------------------- 9 to 16 bytes

  function Len9To16_64(input: seq<byte>, secret: Secret, seed: u64): u64
    requires 9 <= |input| <= 16
  {
    var bitflip1 := Add64(Xor64(ReadLE64(secret, 24), ReadLE64(secret, 32)), seed);
    var bitflip2 := Sub64(Xor64(ReadLE64(secret, 40), ReadLE64(secret, 48)), seed);
    var input_lo := Xor64(ReadLE64(input, 0), bitflip1);
    var input_hi := Xor64(ReadLE64(input, |input| - 8), bitflip2);
    Avalanche3(Add64(Add64(Add64(|input|, Swap64(input_lo)), input_hi), MulFold64(input_lo, input_hi)))
  }

  /** What `input_hi` adds to the high word, on 64-bit and on 32-bit targets. */
  function HighPart64(input_hi: u64): u64 {
    Add64(input_hi, Mult32To64(input_hi, PRIME32_2 - 1))
  }

  function HighPart32(input_hi: u64): u64 {
    MaskHigh(input_hi);
    Add64(And(input_hi, 0xFFFF_FFFF_0000_0000), Mult32To64(input_hi, PRIME32_2))
  }

  lemma MaskHigh(x: u64)
    ensures And(x, 0xFFFF_FFFF_0000_0000) == x / 0x1_0000_0000 * 0x1_0000_0000
  {
    hide And, Shl, Shr, Pow2;
    WordSizes();
    AndField(x, 32, 32);
    ShrIsDiv(x, 32);
    ShlIsMul(0xFFFF_FFFF, 32);
    ShlIsMul(x / 0x1_0000_0000, 32);
  }

  function Middle9To16(input: seq<byte>, secret: Secret, seed: u64): Hash128
    requires 9 <= |input| <= 16
  {
    var bitflipl := Sub64(Xor64(ReadLE64(secret, 32), ReadLE64(secret, 40)), seed);
    var bitfliph := Add64(Xor64(ReadLE64(secret, 48), ReadLE64(secret, 56)), seed);
    var input_lo, input_hi := ReadLE64(input, 0), ReadLE64(input, |input| - 8);
    var m := Mult64To128(Xor64(Xor64(input_lo, input_hi), bitflipl), PRIME64_1);
    var low := Add64(m.low64, Wrap64(Shl(|input| - 1, 54)));
    var high := Add64(m.high64, HighPart64(Xor64(input_hi, bitfliph)));
    Hash128(Xor64(low, Swap64(high)), high)
  }

  /** The 128-by-64 multiplication, then the final mixes. */
  function Finish9To16(m: Hash128): Hash128 {
    var h := Mult64To128(m.low64, PRIME64_2);
    Hash128(Avalanche3(h.low64), Avalanche3(Add64(h.high64, Mul64(m.high64, PRIME64_2))))
  }

  function Len9To16_128(input: seq<byte>, secret: Secret, seed: u64): Hash128
    requires 9 <= |input| <= 16
  {
    Finish9To16(Middle9To16(input, secret, seed))
  }

  // ---------------------------------------------------------------- 0 to 16 bytes

  function Len0To16_64(input: seq<byte>, secret: Secret, seed: u64): u64
    requires |input| <= 16
  {
    if |input| > 8 then Len9To16_64(input, secret, seed)
    else if |input| >= 4 then Len4To8_64(input, secret, seed)
    else if |input| > 0 then Len1To3_64(input, secret, seed)
    else Xxh64.Avalanche(Xor64(seed, Xor64(ReadLE64(secret, 56), ReadLE64(secret, 64))))
  }

  function Len0To16_128(input: seq<byte>, secret: Secret, seed: u64): Hash128
    requires |input| <= 16
  {
    if |input| > 8 then Len9To16_128(input, secret, seed)
    else if |input| >= 4 then Len4To8_128(input, secret, seed)
    else if |input| > 0 then Len1To3_128(input, secret, seed)
    else Hash128(Xxh64.Avalanche(Xor64(seed, Xor64(ReadLE64(secret, 64), ReadLE64(secret, 72)))),
                 Xxh64.Avalanche(Xor64(seed, Xor64(ReadLE64(secret, 80), ReadLE64(secret, 88)))))
  }

  // ---------------------------------------------------------------- 17 to 240 bytes

  function Mix16B(input: seq<byte>, i: nat, secret: Secret, j: nat, seed: u64): u64
    requires i + 16 <= |input| && j + 16 <= |secret|
  {
    MulFold64(Xor64(ReadLE64(input, i), Add64(ReadLE64(secret, j), seed)),
              Xor64(ReadLE64(input, i + 8), Sub64(ReadLE64(secret, j + 8), seed)))
  }

  function Mix32B(acc: Hash128, input: seq<byte>, i: nat, k: nat, secret: Secret, j: nat, seed: u64): Hash128
    requires i + 16 <= |input| && k + 16 <= |input| && j + 32 <= |secret|
  {
    var low := Xor64(Add64(acc.low64, Mix16B(input, i, secret, j, seed)),
                     Add64(ReadLE64(input, k), ReadLE64(input, k + 8)));
    var high := Xor64(Add64(acc.high64, Mix16B(input, k, secret, j + 16, seed)),
                      Add64(ReadLE64(input, i), ReadLE64(input, i + 8)));
    Hash128(low, high)
  }

  function Len17To128_64(input: seq<byte>, secret: Secret, seed: u64): u64
    requires 17 <= |input| <= 128
  {
    var n := |input|;
    var a0 := Mul64(n, PRIME64_1);
    var a1 := if n <= 96 then a0 else
      Add64(Add64(a0, Mix16B(input, 48, secret, 96, seed)), Mix16B(input, n - 64, secret, 112, seed));
    var a2 := if n <= 64 then a1 else
      Add64(Add64(a1, Mix16B(input, 32, secret, 64, seed)), Mix16B(input, n - 48, secret, 80, seed));
    var a3 := if n <= 32 then a2 else
      Add64(Add64(a2, Mix16B(input, 16, secret, 32, seed)), Mix16B(input, n - 32, secret, 48, seed));
    Avalanche3(Add64(Add64(a3, Mix16B(input, 0, secret, 0, seed)), Mix16B(input, n - 16, secret, 16, seed)))
  }

  /** The combination of the two accumulators at the end of the 128-bit variants. */
  function Finish128(acc: Hash128, len: nat, seed: u64): Hash128 {
    var low := Add64(acc.low64, acc.high64);
    var high := Add64(Add64(Mul64(acc.low64, PRIME64_1), Mul64(acc.high64, PRIME64_4)),
                      Mul64(Wrap64(len - seed), PRIME64_2));
    Hash128(Avalanche3(low), Sub64(0, Avalanche3(high)))
  }

  function Len17To128_128(input: seq<byte>, secret: Secret, seed: u64): Hash128
    requires 17 <= |input| <= 128
  {
    var n := |input|;
    var a0 := Hash128(Mul64(n, PRIME64_1), 0);
    var a1 := if n <= 96 then a0 else Mix32B(a0, input, 48, n - 64, secret, 96, seed);
    var a2 := if n <= 64 then a1 else Mix32B(a1, input, 32, n - 48, secret, 64, seed);
    var a3 := if n <= 32 then a2 else Mix32B(a2, input, 16, n - 32, secret, 32, seed);
    Finish128(Mix32B(a3, input, 0, n - 16, secret, 0, seed), n, seed)
  }

  /** The accumulator of the 129-to-240 loop before round `i`; round 8 follows a mix. */
  function Rounds64(input: seq<byte>, secret: Secret, seed: u64, i: nat): u64
    requires 129 <= |input| <= 240 && i <= |input| / 16
  {
    if i == 0 then Mul64(|input|, PRIME64_1)
    else if i <= 8 then
      var acc := Add64(Rounds64(input, secret, seed, i - 1), Mix16B(input, 16 * (i - 1), secret, 16 * (i - 1), seed));
      if i == 8 then Avalanche3(acc) else acc
    else
      Add64(Rounds64(input, secret, seed, i - 1), Mix16B(input, 16 * (i - 1), secret, 16 * (i - 9) + 3, seed))
  }

  function Len129To240_64(input: seq<byte>, secret: Secret, seed: u64): u64
    requires 129 <= |input| <= 240
  {
    Avalanche3(Add64(Rounds64(input, secret, seed, |input| / 16),
                     Mix16B(input, |input| - 16, secret, SECRET_SIZE_MIN - 17, seed)))
  }

  function Rounds128(input: seq<byte>, secret: Secret, seed: u64, i: nat): Hash128
    requires 129 <= |input| <= 240 && i <= |input| / 32
  {
    if i == 0 then Hash128(Mul64(|input|, PRIME64_1), 0)
    else
      var p := 32 * (i - 1);
      if i <= 4 then
        var acc := Mix32B(Rounds128(input, secret, seed, i - 1), input, p, p + 16, secret, p, seed);
        if i == 4 then Hash128(Avalanche3(acc.low64), Avalanche3(acc.high64)) else acc
      else
        Mix32B(Rounds128(input, secret, seed, i - 1), input, p, p + 16, secret, 32 * (i - 5) + 3, seed)
  }

  function Len129To240_128(input: seq<byte>, secret: Secret, seed: u64): Hash128
    requires 129 <= |input| <= 240
  {
    Finish128(Mix32B(Rounds128(input, secret, seed, |input| / 32), input, |input| - 16, |input| - 32,
                     secret, SECRET_SIZE_MIN - 17 - 16, Sub64(0, seed)),
              |input|, seed)
  }

  /** Every input of at most 240 bytes. */
  function Short64(input: seq<byte>, secret: Secret, seed: u64): u64
    requires |input| <= 240
  {
    if |input| <= 16 then Len0To16_64(input, secret, seed)
    else if |input| <= 128 then Len17To128_64(input, secret, seed)
    else Len129To240_64(input, secret, seed)
  }

  function Short128(input: seq<byte>, secret: Secret, seed: u64): Hash128
    requires |input| <= 240
  {
    if |input| <= 16 then Len0To16_128(input, secret, seed)
    else if |input| <= 128 then Len17To128_128(input, secret, seed)
    else Len129To240_128(input, secret, seed)
  }
}
