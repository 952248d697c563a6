/** XXH3 on short inputs of one length has no collisions at all: in 64 bits up to
    8 bytes, in 128 bits up to 16 bytes, under every seed and every secret. Nor has
    one such input the same hash under two seeds. */
module Xxh3Injective {
  import opened Bits
  import opened Words
  import opened Primes
  import opened Memory
  import opened Canonical
  import opened Multiply
  import opened Differences
  import Xxh64
  import Xxh64Inverse
  import opened Xxh3Short
  import opened Xxh3Inverse

  // ---------------------------------------------------------------- inputs

  /** Over all lengths 1 to 3 together: even the length shows in the hash, and in
      128 bits in each of its halves. */
  lemma Injective1To3(x: seq<byte>, y: seq<byte>, secret: Secret, seed: u64)
    requires 1 <= |x| <= 3 && 1 <= |y| <= 3
    ensures Short64(x, secret, seed) == Short64(y, secret, seed) <==> x == y
    ensures Short128(x, secret, seed).low64 == Short128(y, secret, seed).low64 <==> x == y
    ensures Short128(x, secret, seed).high64 == Short128(y, secret, seed).high64 <==> x == y
  {
    hide Len1To3_64, Len1To3_128, Recover1To3, Recover1To3High;
    Recovered1To3(x, secret, seed);
    Recovered1To3(y, secret, seed);
  }

  /** The 64-bit hash has no collision between inputs of one length up to 8. */
  lemma Hash64Injective(x: seq<byte>, y: seq<byte>, secret: Secret, seed: u64)
    requires |x| == |y| <= 8
    ensures Short64(x, secret, seed) == Short64(y, secret, seed) <==> x == y
  {
    hide Short64, Recover64;
    Recovered64(x, secret, seed);
    Recovered64(y, secret, seed);
  }

  /** The 128-bit hash has no collision between inputs of one length up to 16. */
  lemma Hash128Injective(x: seq<byte>, y: seq<byte>, secret: Secret, seed: u64)
    requires |x| == |y| <= 16
    ensures Short128(x, secret, seed) == Short128(y, secret, seed) <==> x == y
  {
    hide Short128, Recover128;
    Recovered128(x, secret, seed);
    Recovered128(y, secret, seed);
  }

  // ---------------------------------------------------------------- seeds

  /** Spreading the seed undoes itself: the low half, which it swaps into the high
      half, stays what it was. */
  lemma SpreadSeedTwice(seed: u64)
    ensures SpreadSeed(SpreadSeed(seed)) == seed
  {
    hide Xor, Swap32, Shl, Pow2;
    WordSizes();
    var h, l := seed / 0x1_0000_0000, Wrap32(seed);
    var k: nat := Swap32(l);
    ShlIsMul(h, 32);
    ShlIsMul(k, 32);
    ShlIsMul(Xor(h, k), 32);
    XorConcat(h, l, k, 0, 32);
    XorZero(l);
    DivModUnique(Xor(h, k), l, 0x1_0000_0000, SpreadSeed(seed));
    XorTwice(seed, k * 0x1_0000_0000);
  }

  /** The word that the packed input is xored with, for each length up to 8. */
  function Flip64(n: nat, secret: Secret, seed: u64): u64
    requires n <= 8
  {
    if n >= 4 then Sub64(Xor64(ReadLE64(secret, 8), ReadLE64(secret, 16)), SpreadSeed(seed))
    else if n > 0 then Add64(Xor32(ReadLE32(secret, 0), ReadLE32(secret, 4)), seed)
    else Xor64(seed, Xor64(ReadLE64(secret, 56), ReadLE64(secret, 64)))
  }

  /** Seed and secret reach the 64-bit hash of at most 8 bytes through that word alone,
      and it always shows: two of them give one input one hash exactly when it agrees. */
  lemma FlipDecides64(x: seq<byte>, s: Secret, a: u64, t: Secret, b: u64)
    requires |x| <= 8
    ensures Short64(x, s, a) == Short64(x, t, b) <==> Flip64(|x|, s, a) == Flip64(|x|, t, b)
  {
    hide Rrmxmx, Unrrmxmx, Len9To16_64, Len17To128_64, Len129To240_64, Xxh64.Avalanche, Xxh64Inverse.Unavalanche,
         Combined, Join32, ReadLE32, ReadLE64, Xor32, Xor64, Add64, Sub64, SpreadSeed;
    var f, g := Flip64(|x|, s, a), Flip64(|x|, t, b);
    if |x| >= 4 {
      var v := Join32(ReadLE32(x, 0), ReadLE32(x, |x| - 4));
      RrmxmxUndone(Xor64(v, f), |x|);
      RrmxmxUndone(Xor64(v, g), |x|);
      XorKeeps(v, f, v, g);
    } else {
      var v: u64 := if |x| == 0 then 0 else Combined(x);
      Xxh64Inverse.AvalancheUndone(f);
      Xxh64Inverse.AvalancheUndone(g);
      Xxh64Inverse.AvalancheUndone(Xor64(v, f));
      Xxh64Inverse.AvalancheUndone(Xor64(v, g));
      XorKeeps(v, f, v, g);
    }
  }

  /** One input of at most 8 bytes has different 64-bit hashes under different seeds. */
  lemma SeedDetected64(x: seq<byte>, secret: Secret, s: u64, t: u64)
    requires |x| <= 8
    ensures Short64(x, secret, s) == Short64(x, secret, t) <==> s == t
  {
    hide Short64, ReadLE32, ReadLE64, Xor32, Xor64, Add64, Sub64, SpreadSeed;
    FlipDecides64(x, secret, s, secret, t);
    var k := Xor64(ReadLE64(secret, 8), ReadLE64(secret, 16));
    SpreadSeedTwice(s);
    SpreadSeedTwice(t);
    Sub64Keeps(k, SpreadSeed(s), SpreadSeed(t));
    var l := Xor32(ReadLE32(secret, 0), ReadLE32(secret, 4));
    Add64Keeps(l, s, l, t);
    var m := Xor64(ReadLE64(secret, 56), ReadLE64(secret, 64));
    XorKeeps(s, m, t, m);
  }

  lemma SeedOfEmpty(k: u64, s: u64, t: u64)
    ensures Xxh64.Avalanche(Xor64(s, k)) == Xxh64.Avalanche(Xor64(t, k)) <==> s == t
  {
    hide Xxh64.Avalanche, Xxh64Inverse.Unavalanche, Xor64;
    Xxh64Inverse.AvalancheUndone(Xor64(s, k));
    Xxh64Inverse.AvalancheUndone(Xor64(t, k));
    XorKeeps(s, k, t, k);
  }

  /** In 128 bits each half alone tells the seed. */
  lemma Seed1To3(x: seq<byte>, secret: Secret, s: u64, t: u64)
    requires 1 <= |x| <= 3
    ensures Len1To3_128(x, secret, s).low64 == Len1To3_128(x, secret, t).low64 <==> s == t
    ensures Len1To3_128(x, secret, s).high64 == Len1To3_128(x, secret, t).high64 <==> s == t
  {
    hide Xxh64.Avalanche, Xxh64Inverse.Unavalanche, Xor64, Combined, Xor32, ReadLE32, Add64, Sub64, Swap32, Rotl32;
    var c, a, b := Combined(x), Xor32(ReadLE32(secret, 0), ReadLE32(secret, 4)), Xor32(ReadLE32(secret, 8), ReadLE32(secret, 12));
    var h := Rotl32(Swap32(c), 13);
    Xxh64Inverse.AvalancheUndone(Xor64(c, Add64(a, s)));
    Xxh64Inverse.AvalancheUndone(Xor64(c, Add64(a, t)));
    Xxh64Inverse.AvalancheUndone(Xor64(h, Sub64(b, s)));
    Xxh64Inverse.AvalancheUndone(Xor64(h, Sub64(b, t)));
    XorKeeps(c, Add64(a, s), c, Add64(a, t));
    XorKeeps(h, Sub64(b, s), h, Sub64(b, t));
    Add64Keeps(a, s, a, t);
    Sub64Keeps(b, s, t);
  }

  lemma Seed4To8_128(x: seq<byte>, secret: Secret, s: u64, t: u64)
    requires 4 <= |x| <= 8
    ensures Len4To8_128(x, secret, s) == Len4To8_128(x, secret, t) <==> s == t
  {
    hide Finish4To8, Unfinish4To8, Mult64To128, Mul64, Xor64, Join32, ReadLE32, ReadLE64, SpreadSeed,
         InverseOfFactor, Add64;
    var k := Xor64(ReadLE64(secret, 16), ReadLE64(secret, 24));
    var v := Join32(ReadLE32(x, |x| - 4), ReadLE32(x, 0));
    var a, b := Xor64(v, Add64(k, SpreadSeed(s))), Xor64(v, Add64(k, SpreadSeed(t)));
    var p := Add64(PRIME64_1, 4 * |x|);
    Finish4To8Undone(Mult64To128(a, p));
    Finish4To8Undone(Mult64To128(b, p));
    FactorInverse(|x|);
    ProductInjective(a, b, p, InverseOfFactor(|x|));
    XorKeeps(v, Add64(k, SpreadSeed(s)), v, Add64(k, SpreadSeed(t)));
    Add64Keeps(k, SpreadSeed(s), k, SpreadSeed(t));
    SpreadSeedTwice(s);
    SpreadSeedTwice(t);
  }

  lemma ProductInjective(a: u64, b: u64, p: u64, q: u64)
    requires Mul64(p, q) == 1
    ensures Mult64To128(a, p).low64 == Mult64To128(b, p).low64 <==> a == b
  {
    hide Mult64To128, Mul64;
    Mult64To128Low(a, p);
    Mult64To128Low(b, p);
    MulUndo64(a, p, q);
    MulUndo64(b, p, q);
  }

  lemma Seed9To16_128(x: seq<byte>, secret: Secret, s: u64, t: u64)
    requires 9 <= |x| <= 16
    ensures Len9To16_128(x, secret, s) == Len9To16_128(x, secret, t) <==> s == t
  {
    hide Middle9To16, Finish9To16, Unfinish9To16;
    Finish9To16Undone(Middle9To16(x, secret, s));
    Finish9To16Undone(Middle9To16(x, secret, t));
    if Middle9To16(x, secret, s) == Middle9To16(x, secret, t) { SeedOfMiddle(x, secret, s, t); }
  }

  lemma SeedOfMiddle(x: seq<byte>, secret: Secret, s: u64, t: u64)
    requires 9 <= |x| <= 16 && Middle9To16(x, secret, s) == Middle9To16(x, secret, t)
    ensures s == t
  {
    hide Mult64To128, Mul64, Xor64, HighPart64, ReadLE64, Swap64, Add64, Sub64, Wrap64, Shl;
    InversePrimes();
    var k := Xor64(ReadLE64(secret, 32), ReadLE64(secret, 40));
    var v, c := Xor64(ReadLE64(x, 0), ReadLE64(x, |x| - 8)), Wrap64(Shl(|x| - 1, 54));
    var a, b := Xor64(v, Sub64(k, s)), Xor64(v, Sub64(k, t));
    var high := Middle9To16(x, secret, s).high64;
    XorKeeps(Add64(Mult64To128(a, PRIME64_1).low64, c), Swap64(high), Add64(Mult64To128(b, PRIME64_1).low64, c), Swap64(high));
    Add64Keeps(Mult64To128(a, PRIME64_1).low64, c, Mult64To128(b, PRIME64_1).low64, c);
    ProductInjective(a, b, PRIME64_1, INVERSE64_1);
    XorKeeps(v, Sub64(k, s), v, Sub64(k, t));
    Sub64Keeps(k, s, t);
  }

  /** One input of at most 16 bytes has different 128-bit hashes under different seeds. */
  lemma SeedDetected128(x: seq<byte>, secret: Secret, s: u64, t: u64)
    requires |x| <= 16
    ensures Short128(x, secret, s) == Short128(x, secret, t) <==> s == t
  {
    hide Len1To3_128, Len4To8_128, Len9To16_128, Len17To128_128, Len129To240_128, Xxh64.Avalanche, ReadLE64, Xor64;
    if |x| > 8 {
      Seed9To16_128(x, secret, s, t);
    } else if |x| >= 4 {
      Seed4To8_128(x, secret, s, t);
    } else if |x| > 0 {
      Seed1To3(x, secret, s, t);
    } else {
      SeedOfEmpty(Xor64(ReadLE64(secret, 64), ReadLE64(secret, 72)), s, t);
      SeedOfEmpty(Xor64(ReadLE64(secret, 80), ReadLE64(secret, 88)), s, t);
    }
  }

  // ---------------------------------------------------------------- 64 bits, 9 to 16 bytes

  /** The words the two ends of the input are xored with. */
  function Flip1(secret: Secret, seed: u64): u64 { Add64(Xor64(ReadLE64(secret, 24), ReadLE64(secret, 32)), seed) }
  function Flip2(secret: Secret, seed: u64): u64 { Sub64(Xor64(ReadLE64(secret, 40), ReadLE64(secret, 48)), seed) }

  /** What the final mix is given, from the two xored words. */
  function Sum9To16(n: nat, lo: u64, hi: u64): u64
    requires n <= 16
  {
    Add64(Add64(Add64(n, Swap64(lo)), hi), MulFold64(lo, hi))
  }

  lemma SumZero(n: nat, w: u64)
    requires n <= 16
    ensures Sum9To16(n, 0, w) == Add64(n, w) && Sum9To16(n, w, 0) == Add64(n, Swap64(w))
  {
    hide MulFold64, Swap64;
    FoldInjective(w, w, 0);
    SwapZero();
    Fits64(n);
    Fits64(Add64(n, w));
    Fits64(Add64(n, Swap64(w)));
  }

  lemma SwapZero()
    ensures Swap64(0) == 0
  {
    hide Swap, FromLE, Pow2;
    WordSizes();
    SwapReverses(0, 8);
    var z: seq<byte> := [0, 0, 0, 0, 0, 0, 0, 0];
    ZeroBytes(8);
    assert ToLE(0, 8) == z && Reverse(z) == z;
    FromTo(0, 8);
  }

  lemma {:induction false} ZeroBytes(n: nat)
    ensures ToLE(0, n) == seq(n, i => 0)
  {
    if n > 0 { ZeroBytes(n - 1); }
  }

  lemma Len9To16Is(x: seq<byte>, secret: Secret, seed: u64)
    requires 9 <= |x| <= 16
    ensures Short64(x, secret, seed)
         == Avalanche3(Sum9To16(|x|, Xor64(ReadLE64(x, 0), Flip1(secret, seed)),
                                Xor64(ReadLE64(x, |x| - 8), Flip2(secret, seed))))
  {
    hide ReadLE64, Xor64, Avalanche3, MulFold64, Swap64, Add64, Sub64;
  }

  /** Where the first eight bytes are the first flip word, the product vanishes, and
      there is no collision between inputs of one length: the last eight bytes are
      all seen. Where the last eight are the second flip word, the first eight are. */
  lemma EndsSeen9To16(x: seq<byte>, y: seq<byte>, secret: Secret, seed: u64)
    requires 9 <= |x| == |y| <= 16
    requires || ReadLE64(x, 0) == ReadLE64(y, 0) == Flip1(secret, seed)
             || ReadLE64(x, |x| - 8) == ReadLE64(y, |y| - 8) == Flip2(secret, seed)
    ensures Short64(x, secret, seed) == Short64(y, secret, seed) <==> x == y
  {
    hide Short64, ReadLE64, Xor64, Flip1, Flip2, FromEnds, Avalanche3, Unavalanche3, Sum9To16, Add64, Swap64;
    var n, f, g := |x|, Flip1(secret, seed), Flip2(secret, seed);
    var a, b, c, d := ReadLE64(x, 0), ReadLE64(x, n - 8), ReadLE64(y, 0), ReadLE64(y, n - 8);
    Len9To16Is(x, secret, seed);
    Len9To16Is(y, secret, seed);
    Avalanche3Undone(Sum9To16(n, Xor64(a, f), Xor64(b, g)));
    Avalanche3Undone(Sum9To16(n, Xor64(c, f), Xor64(d, g)));
    FromEnds8(x);
    FromEnds8(y);
    XorSame(f);
    XorSame(g);
    if a == f && c == f {
      SumZero(n, Xor64(b, g));
      SumZero(n, Xor64(d, g));
      Add64Keeps(n, Xor64(b, g), n, Xor64(d, g));
      XorKeeps(b, g, d, g);
    } else {
      var u, v := Xor64(a, f), Xor64(c, f);
      SumZero(n, u);
      SumZero(n, v);
      Add64Keeps(n, Swap64(u), n, Swap64(v));
      Swap64Twice(u);
      Swap64Twice(v);
      XorKeeps(a, f, c, f);
    }
  }

  lemma XorSame(x: u64)
    ensures Xor64(x, x) == 0
  {
    XorSelf(x);
  }

  // ---------------------------------------------------------------- every byte of 9 to 16

  /** Beside a first word zero and a first word 2^k, two last words that differ in bit
      56, and change in bit `j` with the first word, cannot both give equal sums. */
  lemma OneOfTwoShows(n: nat, h: u64, k: nat, j: nat, u: u64, e: u64, t: u64)
    requires n <= 16 && 0 < k < 64 && j < 56 && u == Pow2(k) && e == Pow2(j) && t == Pow2(56)
    ensures || Sum9To16(n, 0, h) != Sum9To16(n, u, Xor64(h, e))
            || Sum9To16(n, 0, Xor64(h, t)) != Sum9To16(n, u, Xor64(Xor64(h, t), e))
  {
    hide Sum9To16, Xor, Pow2, Bit, Rotl, Swap64;
    var g := Xor64(h, t);
    var h', g' := Xor64(h, e), Xor64(g, e);
    BitByBit(h, t, j);
    BitOfPower(56, j);
    XorFlip(h, j);
    XorFlip(g, j);
    SumOfPower(n, h, u, h', k);
    SumOfPower(n, g, u, g', k);
    if Sum9To16(n, 0, h) == Sum9To16(n, u, h') && Sum9To16(n, 0, g) == Sum9To16(n, u, g') {
      SameShift(h, h', Rotl64(h', k), g, g', Rotl64(g', k), Swap64(u));
      Rotl64Undo(h', k);
      Rotl64Undo(g', k);
      XorKeeps(h, e, g, e);
      XorUndo64(t, h);
      XorSame(h);
    }
  }

  lemma SumOfPower(n: nat, h: u64, u: u64, h': u64, k: nat)
    requires n <= 16 && 0 < k < 64 && u == Pow2(k)
    ensures Sum9To16(n, 0, h) == Sum9To16(n, u, h') <==> h == Add64(Add64(Swap64(u), h'), Rotl64(h', k))
  {
    hide MulFold64, Swap64, Rotl, Pow2, Add64;
    SumZero(n, h);
    FoldIs(u, h');
    FoldByPower(h', u, k);
    var s, r := Swap64(u), Rotl64(h', k);
    AddMoves(n, s, h', r);
    Add64Keeps(n, h, n, Add64(Add64(s, h'), r));
  }

  lemma AddMoves(n: u64, a: u64, b: u64, c: u64)
    ensures Add64(Add64(Add64(n, a), b), c) == Add64(n, Add64(Add64(a, b), c))
  {
    hide Wrap64;
    WrapSum(n + a, b);
    WrapSum(n + a + b, c);
    WrapSum(a + b, c);
    WrapSum(a + b + c, n);
  }

  /** Two words that an equal amount separates from others receive equal rotations. */
  lemma SameShift(h: u64, h': u64, r: u64, g: u64, g': u64, q: u64, s: u64)
    requires h == Add64(Add64(s, h'), r) && g == Add64(Add64(s, g'), q) && h - h' == g - g'
    ensures r == q
  {
    hide Wrap64;
    WrapSum(s + h', r);
    WrapSum(s + g', q);
    WrapSum(s + h' + r, 0 - h');
    WrapSum(s + g' + q, 0 - g');
    SumUndo64(r, s);
    SumUndo64(q, s);
  }

  /** At every length 9 to 16, under every seed and every secret, no byte is ignored:
      some two inputs that differ in that byte alone have different 64-bit hashes. */
  lemma ByteSeen9To16(n: nat, i: nat, secret: Secret, seed: u64) returns (x: seq<byte>, y: seq<byte>)
    requires 9 <= n <= 16 && i < n
    ensures |x| == |y| == n && x[i] != y[i] && forall k | 0 <= k < n && k != i :: x[k] == y[k]
    ensures Short64(x, secret, seed) != Short64(y, secret, seed)
  {
    hide Short64, ReadLE64, Flip1, Flip2, ToLE;
    var f, g := Flip1(secret, seed), Flip2(secret, seed);
    if i < n - 8 {
      x := seq(n - 8, k => 0) + ToLE(g, 8);
      y := FlipBit(x, i);
      LastWordIs(x, y, g);
      EndsSeen9To16(x, y, secret, seed);
    } else {
      x := ToLE(f, 8) + seq(n - 8, k => 0);
      y := FlipBit(x, i);
      if i >= 8 {
        FirstWordIs(x, y, f);
        EndsSeen9To16(x, y, secret, seed);
      } else if Short64(x, secret, seed) == Short64(y, secret, seed) {
        var z := FlipBit(x, n - 1);
        FirstWordIs(x, x, f);
        OverlapSeen(x, i, secret, seed);
        x, y := z, FlipBit(z, i);
      }
    }
  }

  lemma FirstWordIs(x: seq<byte>, y: seq<byte>, f: u64)
    requires |x| == |y| >= 8 && x[..8] == y[..8] == ToLE(f, 8)
    ensures ReadLE64(x, 0) == ReadLE64(y, 0) == f
  {
    hide ToLE, FromLE;
    WordSizes();
    FromTo(f, 8);
    assert x[0..0 + 8] == x[..8] && y[0..0 + 8] == y[..8];
  }

  lemma LastWordIs(x: seq<byte>, y: seq<byte>, g: u64)
    requires |x| == |y| >= 8 && x[|x| - 8..] == y[|y| - 8..] == ToLE(g, 8)
    ensures ReadLE64(x, |x| - 8) == ReadLE64(y, |y| - 8) == g
  {
    hide ToLE, FromLE;
    WordSizes();
    FromTo(g, 8);
    assert x[|x| - 8..|x| - 8 + 8] == x[|x| - 8..] && y[|y| - 8..|y| - 8 + 8] == y[|y| - 8..];
  }

  /** Inverting a bit of a byte inverts one of each word that holds it. */
  lemma FlippedWord(x: seq<byte>, i: nat, p: nat, bit: u64)
    requires p <= i < p + 8 <= |x| && bit == Pow2(8 * (i - p))
    ensures ReadLE64(FlipBit(x, i), p) == Xor64(ReadLE64(x, p), bit)
  {
    hide FromLE, Xor, Pow2;
    assert FlipBit(x, i)[p..p + 8] == FlipBit(x[p..p + 8], i - p);
    FlipBitIsXor(x[p..p + 8], i - p);
  }

  lemma SameWord(x: seq<byte>, i: nat, p: nat)
    requires i < |x| && p + 8 <= |x| && (i < p || p + 8 <= i)
    ensures ReadLE64(FlipBit(x, i), p) == ReadLE64(x, p)
  {
    hide FromLE;
    assert FlipBit(x, i)[p..p + 8] == x[p..p + 8];
  }

  lemma PowerFits(k: nat)
    requires k < 64
    ensures 0 < Pow2(k) < 0x1_0000_0000_0000_0000
  {
    hide Pow2;
    WordSizes();
    Pow2Add(k, 64 - k);
    Pow2Step(64 - k - 1);
    ProperFactor(Pow2(k), 2 * Pow2(64 - k - 1));
  }

  lemma ProperFactor(p: nat, q: nat)
    requires p > 0 && q >= 2
    ensures p < p * q
  {
  }

  /** A byte that both words hold shows with the last byte as it is or inverted. */
  lemma OverlapSeen(x: seq<byte>, i: nat, secret: Secret, seed: u64)
    requires 9 <= |x| <= 15 && |x| - 8 <= i < 8 && ReadLE64(x, 0) == Flip1(secret, seed)
    requires Short64(x, secret, seed) == Short64(FlipBit(x, i), secret, seed)
    ensures Short64(FlipBit(x, |x| - 1), secret, seed) != Short64(FlipBit(FlipBit(x, |x| - 1), i), secret, seed)
  {
    hide Short64, ReadLE64, Flip1, Flip2, FlipBit, Sum9To16, Avalanche3, Unavalanche3, Xor, Pow2;
    var n, d, f, g := |x|, |x| - 8, Flip1(secret, seed), Flip2(secret, seed);
    PowerFits(8 * i);
    PowerFits(8 * (i - d));
    PowerFits(56);
    var u: u64, e: u64, t: u64 := Pow2(8 * i), Pow2(8 * (i - d)), Pow2(56);
    var z := FlipBit(x, n - 1);
    var y, w := FlipBit(x, i), FlipBit(z, i);
    var l := ReadLE64(x, d);
    FlippedWord(x, i, 0, u);
    FlippedWord(x, i, d, e);
    SameWord(x, n - 1, 0);
    FlippedWord(x, n - 1, d, t);
    FlippedWord(z, i, 0, u);
    FlippedWord(z, i, d, e);
    var h := Xor64(l, g);
    XorSame(f);
    XorUndo64(u, f);
    XorLast(l, e, g);
    XorLast(l, t, g);
    XorLast(Xor64(l, t), e, g);
    Len9To16Is(x, secret, seed);
    Len9To16Is(y, secret, seed);
    Len9To16Is(z, secret, seed);
    Len9To16Is(w, secret, seed);
    Avalanche3Undone(Sum9To16(n, 0, h));
    Avalanche3Undone(Sum9To16(n, u, Xor64(h, e)));
    Avalanche3Undone(Sum9To16(n, 0, Xor64(h, t)));
    Avalanche3Undone(Sum9To16(n, u, Xor64(Xor64(h, t), e)));
    OneOfTwoShows(n, h, 8 * i, 8 * (i - d), u, e, t);
  }

  lemma XorLast(a: u64, b: u64, c: u64)
    ensures Xor64(Xor64(a, b), c) == Xor64(Xor64(a, c), b)
  {
    XorAssoc(a, b, c);
    XorComm(b, c);
    XorAssoc(a, c, b);
  }
}
