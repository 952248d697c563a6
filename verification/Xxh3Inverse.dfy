/** XXH3 on short inputs run backwards: the 64-bit hash of at most 8 bytes and the
    128-bit hash of at most 16 give the input back, under every seed and secret. */
module Xxh3Inverse {
  import opened Bits
  import opened Words
  import opened Primes
  import opened Memory
  import opened Canonical
  import opened Multiply
  import Xxh64
  import Xxh64Inverse
  import opened Xxh3Short

  // ---------------------------------------------------------------- iterated one-bit rotation

  function RotOne(x: u64): u64 {
    if x < 0x8000_0000_0000_0000 then 2 * x else 2 * x - 0xFFFF_FFFF_FFFF_FFFF
  }

  function Turn(x: u64, n: nat): u64 {
    if n == 0 then x else RotOne(Turn(x, n - 1))
  }

  lemma {:induction false} TurnTurn(x: u64, a: nat, b: nat)
    ensures Turn(Turn(x, a), b) == Turn(x, a + b)
    decreases b
  {
    if b > 0 { TurnTurn(x, a, b - 1); }
  }

  /** Turning `n` times moves the top `n` bits below the others. */
  lemma {:induction false} TurnParts(x: u64, n: nat)
    requires n <= 64
    ensures Turn(x, n) == x % Pow2(64 - n) * Pow2(n) + x / Pow2(64 - n)
  {
    WordSizes();
    if n == 0 {
      TurnNone(x);
    } else {
      hide Pow2, RotOne;
      TurnParts(x, n - 1);
      var p, q := Pow2(n - 1), Pow2(64 - n);
      Pow2Add(n - 1, 64 - n);
      Pow2Step(n - 1);
      Pow2Step(64 - n);
      Pow2Step(63);
      DoubleProduct(p, q);
      TurnStep(x, p, q);
    }
  }

  lemma TurnNone(x: u64)
    ensures x % Pow2(64) * Pow2(0) + x / Pow2(64) == x
  {
    WordSizes();
  }

  lemma Pow2Step(n: nat)
    ensures Pow2(n + 1) == 2 * Pow2(n)
  {
  }

  lemma TurnStep(x: u64, p: nat, q: nat)
    requires p > 0 && q > 0 && p * q == 0x8000_0000_0000_0000 && p * (2 * q) == 0x1_0000_0000_0000_0000
    requires x % (2 * q) * p + x / (2 * q) < 0x1_0000_0000_0000_0000
    ensures RotOne(x % (2 * q) * p + x / (2 * q)) == x % q * (2 * p) + x / q
  {
    hide RotOne;
    var h, l, t := HalfSplit(x, q);
    QuotientBound(x, p, 2 * q);
    TopBit(l, t, x % q, h, p, q);
  }

  lemma QuotientBound(x: nat, p: nat, d: nat)
    requires d > 0 && p * d == 0x1_0000_0000_0000_0000 && x < p * d
    ensures x / d < p
  {
    assert x / d * d <= x;
    MulLess(x / d, p, d);
  }

  lemma MulLess(a: nat, b: nat, d: nat)
    requires a * d < b * d
    ensures a < b
  {
  }

  lemma HalfSplit(x: nat, q: nat) returns (h: nat, l: nat, t: nat)
    requires q > 0
    ensures h == x / (2 * q) && l == x % (2 * q)
    ensures t < 2 && l == t * q + x % q && x / q == 2 * h + t
  {
    h, l := x / (2 * q), x % (2 * q);
    t := l / q;
    var l' := l % q;
    DoubleProduct(h, q);
    MultipleBound(t - 1, q);
    DivModUnique(2 * h + t, l', q, x);
  }

  /** Rotating by one bit moves the top bit `t` to the bottom. */
  lemma TopBit(x: nat, t: nat, l: nat, h: nat, p: nat, q: nat)
    requires x == t * q + l && t < 2 && l < q && h < p && p * q == 0x8000_0000_0000_0000
    requires x * p + h < 0x1_0000_0000_0000_0000
    ensures RotOne(x * p + h) == l * (2 * p) + (2 * h + t)
  {
    assert x * p == t * (p * q) + l * p;
    assert l * p + p <= p * q by { assert (l + 1) * p <= q * p; }
    DoubleProduct(l, p);
  }

  lemma TurnIsRotl(x: u64, r: nat)
    requires 0 < r < 64
    ensures Turn(x, r) == Rotl64(x, r)
  {
    WordSizes();
    TurnParts(x, r);
    RotlParts(64, x, r);
  }

  lemma TurnFull(x: u64)
    ensures Turn(x, 64) == x
  {
    hide Turn;
    WordSizes();
    TurnParts(x, 64);
    assert Pow2(0) == 1;
  }

  // ---------------------------------------------------------------- the linear step

  lemma RotOneXor(x: u64, y: u64)
    ensures RotOne(Xor64(x, y)) == Xor64(RotOne(x), RotOne(y))
  {
    hide Xor, Pow2, Shl;
    WordSizes();
    Pow2Step(63);
    var n := Pow2(63);
    var t, l := x / n, x % n;
    var u, m := y / n, y % n;
    ShlIsMul(t, 63);
    ShlIsMul(u, 63);
    ShlIsMul(Xor(t, u), 63);
    XorConcat(t, l, u, m, 63);
    XorBound(l, m, 63);
    XorJoin(l, t, m, u);
    XorJoin(0, t, 0, u);
    XorZero(0);
  }

  lemma {:induction false} TurnXor(x: u64, y: u64, n: nat)
    ensures Turn(Xor64(x, y), n) == Xor64(Turn(x, n), Turn(y, n))
  {
    hide RotOne, Xor64;
    if n > 0 {
      TurnXor(x, y, n - 1);
      RotOneXor(Turn(x, n - 1), Turn(y, n - 1));
    }
  }

  /** `x ^ rot^a(x) ^ rot^b(x)` */
  function Spread(x: u64, a: nat, b: nat): u64 { Xor64(x, Xor64(Turn(x, a), Turn(x, b))) }

  /** Squaring: applied twice, the step doubles its amounts, because the terms that
      occur twice cancel. */
  lemma SpreadTwice(x: u64, a: nat, b: nat)
    ensures Spread(Spread(x, a, b), a, b) == Spread(x, 2 * a, 2 * b)
  {
    hide Turn, Xor;
    var u, v := Turn(x, a), Turn(x, b);
    var p, q, r := Turn(x, 2 * a), Turn(x, a + b), Turn(x, 2 * b);
    TurnOfSpread(x, a, b, a);
    TurnOfSpread(x, a, b, b);
    Exchange(u, Xor(p, q), v, Xor(q, r));
    Cancel(p, q, r);
    Cancel(x, Xor(u, v), Xor(p, r));
  }

  lemma TurnOfSpread(x: u64, a: nat, b: nat, n: nat)
    ensures Turn(Spread(x, a, b), n) == Xor64(Turn(x, n), Xor64(Turn(x, a + n), Turn(x, b + n)))
  {
    hide Turn, Xor64;
    TurnXor(x, Xor64(Turn(x, a), Turn(x, b)), n);
    TurnXor(Turn(x, a), Turn(x, b), n);
    TurnTurn(x, a, n);
    TurnTurn(x, b, n);
  }

  lemma Exchange(a: nat, b: nat, c: nat, d: nat)
    ensures Xor(Xor(a, b), Xor(c, d)) == Xor(Xor(a, c), Xor(b, d))
  {
    hide Xor;
    XorAssoc(a, b, Xor(c, d));
    XorAssoc(b, c, d);
    XorComm(b, c);
    XorAssoc(c, b, d);
    XorAssoc(a, c, Xor(b, d));
  }

  lemma Cancel(p: nat, q: nat, r: nat)
    ensures Xor(Xor(p, q), Xor(q, r)) == Xor(p, r)
  {
    hide Xor;
    XorAssoc(Xor(p, q), q, r);
    XorTwice(p, q);
  }

  lemma {:induction false} TurnRound(x: u64, n: nat)
    ensures Turn(x, 64 * n) == x
  {
    hide Turn;
    if n == 0 {
      TurnFull(x);
      TurnTurn(x, 0, 64);
      TurnZero(x);
    } else {
      TurnRound(x, n - 1);
      TurnTurn(x, 64 * (n - 1), 64);
      TurnFull(x);
    }
  }

  lemma TurnZero(x: u64)
    ensures Turn(x, 0) == x
  {
  }

  /** `x ^ rotl(x, 49) ^ rotl(x, 24)` applied 64 times is the identity, so its inverse
      is the same step applied 63 times: once with each amount doubled 0 to 5 times. */
  function UnRotXor(y: u64): u64 {
    Spread(Spread(Spread(Spread(Spread(Spread(y, 49, 24), 98, 48), 196, 96), 392, 192), 784, 384), 1568, 768)
  }

  lemma RotXorUndone(x: u64)
    ensures UnRotXor(RotXor(x)) == x
  {
    hide Spread, Rotl64, Turn, Xor64;
    RotXorIsSpread(x);
    SpreadTwice(x, 49, 24);
    SpreadTwice(x, 98, 48);
    SpreadTwice(x, 196, 96);
    SpreadTwice(x, 392, 192);
    SpreadTwice(x, 784, 384);
    SpreadTwice(x, 1568, 768);
    SpreadRound(x);
  }

  lemma RotXorIsSpread(x: u64)
    ensures RotXor(x) == Spread(x, 49, 24)
  {
    hide Rotl64, Turn, Xor64;
    TurnIsRotl(x, 49);
    TurnIsRotl(x, 24);
  }

  lemma SpreadRound(x: u64)
    ensures Spread(x, 3136, 1536) == x
  {
    hide Turn, Xor;
    TurnRound(x, 49);
    TurnRound(x, 24);
    XorSelf(x);
    XorZero(x);
  }

  // ---------------------------------------------------------------- the mixes

  const INVERSE_AVALANCHE: u64 := 0x08DA8EE41D6DF849
  const INVERSE_RRMXMX: u64 := 0x02AB9C720D1024AD

  lemma InverseFactors()
    ensures Mul64(0x165667919E3779F9, INVERSE_AVALANCHE) == Mul64(0x9FB21C651E98DF25, INVERSE_RRMXMX) == 1
  {
  }

  function Unavalanche3(h: u64): u64 { Unshift64(Mul64(Unshift64(h, 32), INVERSE_AVALANCHE), 37) }

  lemma Avalanche3Undone(h: u64)
    ensures Unavalanche3(Avalanche3(h)) == h
  {
    hide Mul64, XorShift64, Unshift64;
    InverseFactors();
    var a := XorShift64(h, 37);
    Xxh64Inverse.ShiftUndone(h, 37);
    MulUndo64(a, 0x165667919E3779F9, INVERSE_AVALANCHE);
    Xxh64Inverse.ShiftUndone(Mul64(a, 0x165667919E3779F9), 32);
  }

  /** The step that adds the length under the shift undoes itself: a length up to 8
      changes no bit at or above bit 35. */
  function AddLength(x: u64, len: nat): u64 { Xor64(x, Wrap64(Shr(x, 35) + len)) }

  lemma AddLengthTwice(x: u64, len: nat)
    requires len <= 8
    ensures AddLength(AddLength(x, len), len) == x
  {
    hide Xor, Shr, Wrap64;
    HighBitsKept(x, len);
    XorTwice(x, Shr(x, 35) + len);
  }

  lemma HighBitsKept(x: u64, len: nat)
    requires len <= 8
    ensures Wrap64(Shr(x, 35) + len) == Shr(x, 35) + len
    ensures Shr(Xor(x, Shr(x, 35) + len), 35) == Shr(x, 35)
  {
    hide Xor, Shr, Pow2;
    WordSizes();
    assert Pow2(35) == 0x8_0000_0000 by { Pow2Step(32); Pow2Step(33); Pow2Step(34); }
    var a := Shr(x, 35) + len;
    ShrIsDiv(x, 35);
    ShrIsDiv(a, 35);
    XorShr(x, a, 35);
    XorZero(Shr(x, 35));
  }

  function Unrrmxmx(h: u64, len: nat): u64 {
    UnRotXor(Mul64(AddLength(Mul64(Unshift64(h, 28), INVERSE_RRMXMX), len), INVERSE_RRMXMX))
  }

  /** The strong mix is a bijection for each length up to 8. */
  lemma RrmxmxUndone(x: u64, len: nat)
    requires len <= 8
    ensures Unrrmxmx(Rrmxmx(x, len), len) == x
  {
    hide Mul64, RotXor, UnRotXor, XorShift64, Unshift64, AddLength, Rrmxmx;
    InverseFactors();
    var c: u64 := 0x9FB21C651E98DF25;
    RrmxmxSteps(x, len);
    var x1 := Mul64(RotXor(x), c);
    var x2 := AddLength(x1, len);
    Xxh64Inverse.ShiftUndone(Mul64(x2, c), 28);
    MulUndo64(x2, c, INVERSE_RRMXMX);
    AddLengthTwice(x1, len);
    MulUndo64(RotXor(x), c, INVERSE_RRMXMX);
    RotXorUndone(x);
  }

  lemma RrmxmxSteps(x: u64, len: nat)
    ensures Rrmxmx(x, len) == XorShift64(Mul64(AddLength(Mul64(RotXor(x), 0x9FB21C651E98DF25), len), 0x9FB21C651E98DF25), 28)
  {
    hide Mul64, Xor64, RotXor, XorShift64, Wrap64, Shr;
  }

  // ---------------------------------------------------------------- 1 to 3 bytes

  lemma CombinedValue(x: seq<byte>)
    requires 1 <= |x| <= 3
    ensures Combined(x) == x[|x| / 2] * 0x100_0000 + x[0] * 0x1_0000 + |x| * 0x100 + x[|x| - 1]
  {
    hide Or, Shl;
    CombinedIs(x);
  }

  /** The input packed into a word; its length is the second byte. */
  function Uncombine(c: u32): seq<byte> {
    var first, middle, last := c / 0x1_0000 % 0x100, c / 0x100_0000, c % 0x100;
    match c / 0x100 % 0x100
    case 1 => [first]
    case 2 => [first, middle]
    case _ => [first, middle, last]
  }

  lemma CombinedUndone(x: seq<byte>)
    requires 1 <= |x| <= 3
    ensures Uncombine(Combined(x)) == x
  {
    hide Combined;
    CombinedValue(x);
    Digits(x[|x| / 2], x[0], |x|, x[|x| - 1], Combined(x));
  }

  lemma Digits(a: byte, b: byte, n: byte, d: byte, c: u32)
    requires c == a * 0x100_0000 + b * 0x1_0000 + n * 0x100 + d
    ensures c / 0x100_0000 == a && c / 0x1_0000 % 0x100 == b && c / 0x100 % 0x100 == n && c % 0x100 == d
  {
    DivModUnique(a, b * 0x1_0000 + n * 0x100 + d, 0x100_0000, c);
    DivModUnique(a * 0x100 + b, n * 0x100 + d, 0x1_0000, c);
    DivModUnique(a, b, 0x100, a * 0x100 + b);
    DivModUnique(a * 0x1_0000 + b * 0x100 + n, d, 0x100, c);
    DivModUnique(a * 0x100 + b, n, 0x100, a * 0x1_0000 + b * 0x100 + n);
  }

  function Recover1To3(low64: u64, secret: Secret, seed: u64): seq<byte> {
    var bitflip := Add64(Xor32(ReadLE32(secret, 0), ReadLE32(secret, 4)), seed);
    Uncombine(Wrap32(Xor64(Xxh64Inverse.Unavalanche(low64), bitflip)))
  }

  /** The same from the high half of the 128-bit hash. */
  function Recover1To3High(high64: u64, secret: Secret, seed: u64): seq<byte> {
    var bitfliph := Sub64(Xor32(ReadLE32(secret, 8), ReadLE32(secret, 12)), seed);
    Uncombine(Swap32(Rotl32(Wrap32(Xor64(Xxh64Inverse.Unavalanche(high64), bitfliph)), 19)))
  }

  /** All inputs of 1 to 3 bytes come back, and in 128 bits from either half. */
  lemma Recovered1To3(x: seq<byte>, secret: Secret, seed: u64)
    requires 1 <= |x| <= 3
    ensures Recover1To3(Len1To3_64(x, secret, seed), secret, seed) == x
    ensures Recover1To3(Len1To3_128(x, secret, seed).low64, secret, seed) == x
    ensures Recover1To3High(Len1To3_128(x, secret, seed).high64, secret, seed) == x
  {
    hide Xxh64.Avalanche, Xxh64Inverse.Unavalanche, Xor64, Combined, Uncombine, Xor32, ReadLE32, Add64, Sub64,
         Swap32, Rotl32, Wrap32;
    var c := Combined(x);
    var h := Rotl32(Swap32(c), 13);
    var bitflipl := Add64(Xor32(ReadLE32(secret, 0), ReadLE32(secret, 4)), seed);
    var bitfliph := Sub64(Xor32(ReadLE32(secret, 8), ReadLE32(secret, 12)), seed);
    Xxh64Inverse.AvalancheUndone(Xor64(c, bitflipl));
    Xxh64Inverse.AvalancheUndone(Xor64(h, bitfliph));
    XorUndo64(c, bitflipl);
    XorUndo64(h, bitfliph);
    Fits32(c);
    Fits32(h);
    Rotl32Undo(Swap32(c), 13);
    Swap32Twice(c);
    CombinedUndone(x);
  }

  // ---------------------------------------------------------------- 4 to 8 bytes

  /** `n` bytes from the words at their start and at their end, of `size` bytes each. */
  function FromEnds(first: nat, last: nat, size: nat, n: nat): seq<byte>
    requires size <= n <= 2 * size
  {
    ToLE(first, size) + ToLE(last, size)[2 * size - n..]
  }

  lemma EndsOf(x: seq<byte>, size: nat)
    requires size <= |x| <= 2 * size
    ensures x[0..0 + size] + x[|x| - size..|x| - size + size][2 * size - |x|..] == x
  {
  }

  lemma FromEnds4(x: seq<byte>)
    requires 4 <= |x| <= 8
    ensures FromEnds(ReadLE32(x, 0), ReadLE32(x, |x| - 4), 4, |x|) == x
  {
    hide ToLE, FromLE;
    ToFrom(x[0..0 + 4]);
    ToFrom(x[|x| - 4..|x| - 4 + 4]);
    EndsOf(x, 4);
  }

  lemma FromEnds8(x: seq<byte>)
    requires 8 <= |x| <= 16
    ensures FromEnds(ReadLE64(x, 0), ReadLE64(x, |x| - 8), 8, |x|) == x
  {
    hide ToLE, FromLE;
    ToFrom(x[0..0 + 8]);
    ToFrom(x[|x| - 8..|x| - 8 + 8]);
    EndsOf(x, 8);
  }

  lemma JoinParts(high: u32, low: u32)
    ensures Join32(high, low) / 0x1_0000_0000 == high && Join32(high, low) % 0x1_0000_0000 == low
  {
  }

  function Recover4To8_64(h: u64, n: nat, secret: Secret, seed: u64): seq<byte>
    requires 4 <= n <= 8
  {
    var bitflip := Sub64(Xor64(ReadLE64(secret, 8), ReadLE64(secret, 16)), SpreadSeed(seed));
    var input64 := Xor64(Unrrmxmx(h, n), bitflip);
    FromEnds(input64 / 0x1_0000_0000, input64 % 0x1_0000_0000, 4, n)
  }

  lemma Recovered4To8_64(x: seq<byte>, secret: Secret, seed: u64)
    requires 4 <= |x| <= 8
    ensures Recover4To8_64(Len4To8_64(x, secret, seed), |x|, secret, seed) == x
  {
    hide Rrmxmx, Unrrmxmx, Xor64, Join32, ReadLE32, ReadLE64, Sub64, SpreadSeed, FromEnds;
    var bitflip := Sub64(Xor64(ReadLE64(secret, 8), ReadLE64(secret, 16)), SpreadSeed(seed));
    var a, b := ReadLE32(x, 0), ReadLE32(x, |x| - 4);
    RrmxmxUndone(Xor64(Join32(a, b), bitflip), |x|);
    XorUndo64(Join32(a, b), bitflip);
    JoinParts(a, b);
    FromEnds4(x);
  }

  /** The product before the final mixes. */
  function Unfinish4To8(h: Hash128): Hash128 {
    var high := Unavalanche3(h.high64);
    var low := Unshift64(Mul64(Unshift64(h.low64, 28), INVERSE_RRMXMX), 35);
    var m := Xor64(low, Shr(high, 3));
    Hash128(m, Sub64(high, Mul64(m, 2)))
  }

  lemma Finish4To8Undone(m: Hash128)
    ensures Unfinish4To8(Finish4To8(m)) == m
  {
    hide Mul64, Xor64, XorShift64, Unshift64, Avalanche3, Unavalanche3, Shr, Add64, Sub64;
    InverseFactors();
    var high := Add64(m.high64, Mul64(m.low64, 2));
    var low := Xor64(m.low64, Shr(high, 3));
    var a := XorShift64(low, 35);
    Avalanche3Undone(high);
    Xxh64Inverse.ShiftUndone(Mul64(a, 0x9FB21C651E98DF25), 28);
    MulUndo64(a, 0x9FB21C651E98DF25, INVERSE_RRMXMX);
    Xxh64Inverse.ShiftUndone(low, 35);
    XorUndo64(m.low64, Shr(high, 3));
    SumUndo64(m.high64, Mul64(m.low64, 2));
  }

  /** The inverse of the factor `PRIME64_1 + (len << 2)`. */
  function InverseOfFactor(n: nat): u64
    requires 4 <= n <= 8
  {
    match n
    case 4 => 0xC58FC94211B05527
    case 5 => 0xF3655C2B3B120B93
    case 6 => 0x4A353FC06E6CD15F
    case 7 => 0x72A86F8FF240390B
    case _ => 0x6261C8662F213D17
  }

  lemma FactorInverse(n: nat)
    requires 4 <= n <= 8
    ensures Mul64(Add64(PRIME64_1, 4 * n), InverseOfFactor(n)) == 1
  {
  }

  function Recover4To8_128(h: Hash128, n: nat, secret: Secret, seed: u64): seq<byte>
    requires 4 <= n <= 8
  {
    var bitflip := Add64(Xor64(ReadLE64(secret, 16), ReadLE64(secret, 24)), SpreadSeed(seed));
    var input64 := Xor64(Mul64(Unfinish4To8(h).low64, InverseOfFactor(n)), bitflip);
    FromEnds(input64 % 0x1_0000_0000, input64 / 0x1_0000_0000, 4, n)
  }

  lemma Recovered4To8_128(x: seq<byte>, secret: Secret, seed: u64)
    requires 4 <= |x| <= 8
    ensures Recover4To8_128(Len4To8_128(x, secret, seed), |x|, secret, seed) == x
  {
    hide Finish4To8, Unfinish4To8, Mult64To128, Mul64, Xor64, Join32, ReadLE32, ReadLE64, SpreadSeed, FromEnds,
         InverseOfFactor, Add64;
    var bitflip := Add64(Xor64(ReadLE64(secret, 16), ReadLE64(secret, 24)), SpreadSeed(seed));
    var a, b := ReadLE32(x, |x| - 4), ReadLE32(x, 0);
    var k, p := Xor64(Join32(a, b), bitflip), Add64(PRIME64_1, 4 * |x|);
    Finish4To8Undone(Mult64To128(k, p));
    Mult64To128Low(k, p);
    FactorInverse(|x|);
    MulUndo64(k, p, InverseOfFactor(|x|));
    XorUndo64(Join32(a, b), bitflip);
    JoinParts(a, b);
    FromEnds4(x);
  }

  // ---------------------------------------------------------------- 9 to 16 bytes

  /** Both forms of the high half agree: `a + b * c == (a + b) + b * (c - 1)`. */
  lemma HighPartsAgree(x: u64)
    ensures HighPart64(x) == HighPart32(x)
    ensures HighPart64(x) == Wrap64(x / 0x1_0000_0000 * 0x1_0000_0000 + Wrap32(x) * PRIME32_2)
  {
    hide And, Wrap64;
    MaskHigh(x);
    var l := Wrap32(x);
    Mult32To64Is(l, PRIME32_2);
    Mult32To64Is(l, PRIME32_2 - 1);
  }

  /** The word that a high part was made from: its low half is a multiple of theirs. */
  function UnhighPart(y: u64): u64 {
    var low := Mul32(y % 0x1_0000_0000, INVERSE32_2);
    Add64(Wrap64(y - low * PRIME32_2), low)
  }

  lemma HighPartUndone(x: u64)
    ensures UnhighPart(HighPart64(x)) == x
  {
    hide HighPart64, HighPart32, Mul32, Wrap64;
    HighPartsAgree(x);
    var h, l := x / 0x1_0000_0000, Wrap32(x);
    LowHalf(h, l);
    InversePrimes();
    MulUndo32(l, PRIME32_2, INVERSE32_2);
    WrapSum(h * 0x1_0000_0000 + l * PRIME32_2, 0 - l * PRIME32_2);
    Fits64(h * 0x1_0000_0000);
    Fits64(x);
  }

  lemma LowHalf(h: nat, l: u32)
    ensures Wrap64(h * 0x1_0000_0000 + l * PRIME32_2) % 0x1_0000_0000 == Mul32(l, PRIME32_2)
  {
    var p := l * PRIME32_2;
    var q := (h * 0x1_0000_0000 + p) / 0x1_0000_0000_0000_0000;
    DivModUnique(h + p / 0x1_0000_0000 - q * 0x1_0000_0000, p % 0x1_0000_0000, 0x1_0000_0000,
                 (h * 0x1_0000_0000 + p) % 0x1_0000_0000_0000_0000);
  }

  /** The 128-bit number before the last product and the final mixes. */
  function Unfinish9To16(h: Hash128): Hash128 {
    var low := Mul64(Unavalanche3(h.low64), INVERSE64_2);
    var high := Sub64(Unavalanche3(h.high64), Mult64To128(low, PRIME64_2).high64);
    Hash128(low, Mul64(high, INVERSE64_2))
  }

  /** The 128-by-64 product by an odd constant and the two final mixes are a bijection. */
  lemma Finish9To16Undone(m: Hash128)
    ensures Unfinish9To16(Finish9To16(m)) == m
  {
    hide Mult64To128, Mul64, Avalanche3, Unavalanche3, Add64, Sub64;
    InversePrimes();
    var h := Mult64To128(m.low64, PRIME64_2);
    var u := Mul64(m.high64, PRIME64_2);
    Avalanche3Undone(h.low64);
    Avalanche3Undone(Add64(h.high64, u));
    Mult64To128Low(m.low64, PRIME64_2);
    MulUndo64(m.low64, PRIME64_2, INVERSE64_2);
    MulUndo64(m.high64, PRIME64_2, INVERSE64_2);
    SumUndo64(u, h.high64);
  }

  /** The first and the last input word from the state before the last product. */
  function Unmiddle(m: Hash128, n: nat, secret: Secret, seed: u64): (u64, u64)
    requires 9 <= n <= 16
  {
    var bitflipl := Sub64(Xor64(ReadLE64(secret, 32), ReadLE64(secret, 40)), seed);
    var bitfliph := Add64(Xor64(ReadLE64(secret, 48), ReadLE64(secret, 56)), seed);
    var low := Sub64(Xor64(m.low64, Swap64(m.high64)), Wrap64(Shl(n - 1, 54)));
    var keyed := Mul64(low, INVERSE64_1);
    var last := Xor64(UnhighPart(Sub64(m.high64, Mult64To128(keyed, PRIME64_1).high64)), bitfliph);
    (Xor64(Xor64(keyed, bitflipl), last), last)
  }

  lemma Middle9To16Undone(x: seq<byte>, secret: Secret, seed: u64)
    requires 9 <= |x| <= 16
    ensures Unmiddle(Middle9To16(x, secret, seed), |x|, secret, seed) == (ReadLE64(x, 0), ReadLE64(x, |x| - 8))
  {
    hide Mult64To128, Mul64, Xor64, HighPart64, UnhighPart, ReadLE64, Swap64, Add64, Sub64, Wrap64, Shl;
    InversePrimes();
    var bitflipl := Sub64(Xor64(ReadLE64(secret, 32), ReadLE64(secret, 40)), seed);
    var bitfliph := Add64(Xor64(ReadLE64(secret, 48), ReadLE64(secret, 56)), seed);
    var a, b, c := ReadLE64(x, 0), ReadLE64(x, |x| - 8), Wrap64(Shl(|x| - 1, 54));
    var k := Xor64(Xor64(a, b), bitflipl);
    var m := Mult64To128(k, PRIME64_1);
    var high := Add64(m.high64, HighPart64(Xor64(b, bitfliph)));
    XorUndo64(Add64(m.low64, c), Swap64(high));
    SumUndo64(m.low64, c);
    Mult64To128Low(k, PRIME64_1);
    MulUndo64(k, PRIME64_1, INVERSE64_1);
    SumUndo64(HighPart64(Xor64(b, bitfliph)), m.high64);
    HighPartUndone(Xor64(b, bitfliph));
    XorUndo64(b, bitfliph);
    XorUndo64(Xor64(a, b), bitflipl);
    XorUndo64(a, b);
  }

  function Recover9To16_128(h: Hash128, n: nat, secret: Secret, seed: u64): seq<byte>
    requires 9 <= n <= 16
  {
    var words := Unmiddle(Unfinish9To16(h), n, secret, seed);
    FromEnds(words.0, words.1, 8, n)
  }

  lemma Recovered9To16_128(x: seq<byte>, secret: Secret, seed: u64)
    requires 9 <= |x| <= 16
    ensures Recover9To16_128(Len9To16_128(x, secret, seed), |x|, secret, seed) == x
  {
    hide Middle9To16, Finish9To16, Unmiddle, Unfinish9To16, FromEnds, ReadLE64;
    Finish9To16Undone(Middle9To16(x, secret, seed));
    Middle9To16Undone(x, secret, seed);
    FromEnds8(x);
  }

  // ---------------------------------------------------------------- main results

  /** The input of `n` bytes that has the given 64-bit hash. */
  function Recover64(h: u64, n: nat, secret: Secret, seed: u64): seq<byte>
    requires n <= 8
  {
    if n >= 4 then Recover4To8_64(h, n, secret, seed) else if n > 0 then Recover1To3(h, secret, seed) else []
  }

  lemma Recovered64(x: seq<byte>, secret: Secret, seed: u64)
    requires |x| <= 8
    ensures Recover64(Short64(x, secret, seed), |x|, secret, seed) == x
  {
    hide Len1To3_64, Len4To8_64, Len9To16_64, Len17To128_64, Len129To240_64, Xxh64.Avalanche, ReadLE64,
         Recover4To8_64, Recover1To3;
    if |x| >= 4 {
      Recovered4To8_64(x, secret, seed);
    } else if |x| > 0 {
      Recovered1To3(x, secret, seed);
    }
  }

  /** The input of `n` bytes that has the given 128-bit hash. */
  function Recover128(h: Hash128, n: nat, secret: Secret, seed: u64): seq<byte>
    requires n <= 16
  {
    if n > 8 then Recover9To16_128(h, n, secret, seed)
    else if n >= 4 then Recover4To8_128(h, n, secret, seed)
    else if n > 0 then Recover1To3(h.low64, secret, seed)
    else []
  }

  lemma Recovered128(x: seq<byte>, secret: Secret, seed: u64)
    requires |x| <= 16
    ensures Recover128(Short128(x, secret, seed), |x|, secret, seed) == x
  {
    hide Len1To3_128, Len4To8_128, Len9To16_128, Xxh64.Avalanche, ReadLE64, Recover9To16_128, Recover4To8_128,
         Recover1To3;
    if |x| > 8 {
      Recovered9To16_128(x, secret, seed);
    } else if |x| >= 4 {
      Recovered4To8_128(x, secret, seed);
    } else if |x| > 0 {
      Recovered1To3(x, secret, seed);
    }
  }
}
