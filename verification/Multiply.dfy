/** Wide multiplication from 32-bit halves. */
module Multiply {
  import opened Bits
  import opened Words
  import opened Canonical

  /** `XXH_mult32to64`: the full product of the low halves of two words. */
  function Mult32To64(x: u64, y: u64): u64 {
    ProductFits(Wrap32(x), Wrap32(y));
    Wrap32(x) * Wrap32(y)
  }

  lemma ProductFits(x: u32, y: u32)
    ensures 0 <= x * y <= 0xFFFF_FFFE_0000_0001
  {
    ProductBound(x, y, 0xFFFF_FFFF);
  }

  lemma ProductBound(x: nat, y: nat, n: nat)
    requires x <= n && y <= n
    ensures x * y <= n * n
  {
    assert x * y <= n * y <= n * n;
  }

  /** `x & 0xFFFFFFFF` */
  function Lo32(x: u64): (r: u32)
    ensures r == x % 0x1_0000_0000
  {
    AndLowMask(x, 32);
    WordSizes();
    And(x, 0xFFFF_FFFF)
  }

  /** `x >> 32` */
  function Hi32(x: u64): (r: u32)
    ensures r == x / 0x1_0000_0000
  {
    ShrIsDiv(x, 32);
    WordSizes();
    Shr(x, 32)
  }

  function Cross(lo_lo: u64, hi_lo: u64, lo_hi: u64): u64 {
    Add64(Add64(Hi32(lo_lo), Lo32(hi_lo)), lo_hi)
  }

  function Upper(hi_lo: u64, cross: u64, hi_hi: u64): u64 {
    Add64(Add64(Hi32(hi_lo), Hi32(cross)), hi_hi)
  }

  /** `(cross << 32) | (lo_lo & 0xFFFFFFFF)` */
  function Lower(cross: u64, lo_lo: u64): (r: u64)
    ensures r == Lo32(cross) * 0x1_0000_0000 + Lo32(lo_lo)
  {
    LowerIs(cross, lo_lo);
    Or(Wrap64(Shl(cross, 32)), Lo32(lo_lo))
  }

  lemma LowerIs(cross: u64, lo_lo: u64)
    ensures Or(Wrap64(Shl(cross, 32)), Lo32(lo_lo)) == Lo32(cross) * 0x1_0000_0000 + Lo32(lo_lo)
  {
    hide Or, Shl, Lo32, Hi32, Pow2;
    WordSizes();
    ShlIsMul(cross, 32);
    ShlIsMul(Lo32(cross), 32);
    OrDisjoint(Lo32(cross), Lo32(lo_lo), 32);
  }

  /** `XXH_mult64to128`, the portable path. */
  function Mult64To128(lhs: u64, rhs: u64): Hash128 {
    var lo_lo := Mult32To64(Lo32(lhs), Lo32(rhs));
    var hi_lo := Mult32To64(Hi32(lhs), Lo32(rhs));
    var lo_hi := Mult32To64(Lo32(lhs), Hi32(rhs));
    var hi_hi := Mult32To64(Hi32(lhs), Hi32(rhs));
    var cross := Cross(lo_lo, hi_lo, lo_hi);
    Hash128(Lower(cross, lo_lo), Upper(hi_lo, cross, hi_hi))
  }

  /** Adding the cross products never overflows 64 bits, and the two result words
      are the exact product of the operands. */
  lemma Mult64To128Exact(lhs: u64, rhs: u64)
    ensures var p := Mult64To128(lhs, rhs);
            p.low64 + 0x1_0000_0000_0000_0000 * p.high64 == lhs * rhs
  {
    hide Lo32, Hi32, Lower, Upper, Cross, Mult32To64;
    var a, b, c, d := Hi32(lhs), Lo32(lhs), Hi32(rhs), Lo32(rhs);
    var lo_lo, hi_lo, lo_hi, hi_hi := Mult32To64(b, d), Mult32To64(a, d), Mult32To64(b, c), Mult32To64(a, c);
    Mult32To64Is(b, d);
    Mult32To64Is(a, d);
    Mult32To64Is(b, c);
    Mult32To64Is(a, c);
    NoOverflow(lo_lo, hi_lo, lo_hi, hi_hi);
    CrossProducts(a, b, c, d, 0x1_0000_0000);
  }

  lemma Mult32To64Is(x: u32, y: u32)
    ensures Mult32To64(x, y) == x * y <= 0xFFFF_FFFE_0000_0001
  {
    ProductFits(x, y);
  }

  /** No carry is lost while the four partial products are summed. */
  lemma NoOverflow(lo_lo: u64, hi_lo: u64, lo_hi: u64, hi_hi: u64)
    requires lo_hi <= 0xFFFF_FFFE_0000_0001 && hi_hi <= 0xFFFF_FFFE_0000_0001
    ensures var cross := Hi32(lo_lo) + Lo32(hi_lo) + lo_hi;
            && cross == Cross(lo_lo, hi_lo, lo_hi)
            && Hi32(hi_lo) + Hi32(cross) + hi_hi == Upper(hi_lo, cross, hi_hi)
            && Lower(cross, lo_lo) + 0x1_0000_0000_0000_0000 * Upper(hi_lo, cross, hi_hi)
               == lo_lo + (hi_lo + lo_hi) * 0x1_0000_0000 + hi_hi * 0x1_0000_0000_0000_0000
  {
    hide Lo32, Hi32, Lower, Wrap64;
    var cross := Hi32(lo_lo) + Lo32(hi_lo) + lo_hi;
    Fits64(Hi32(lo_lo) + Lo32(hi_lo));
    Fits64(cross);
    Fits64(Hi32(hi_lo) + Hi32(cross));
    Fits64(Hi32(hi_lo) + Hi32(cross) + hi_hi);
  }

  lemma CrossProducts(a: nat, b: nat, c: nat, d: nat, n: nat)
    ensures (a * n + b) * (c * n + d) == (a * c) * (n * n) + (a * d) * n + (b * c) * n + b * d
  {
    assert (a * n + b) * (c * n + d) == a * n * (c * n) + a * n * d + b * (c * n) + b * d;
    assert a * n * (c * n) == (a * c) * (n * n);
  }

  /** `XXH3_mul128_fold64` */
  function MulFold64(lhs: u64, rhs: u64): u64 {
    var product := Mult64To128(lhs, rhs);
    Xor64(product.low64, product.high64)
  }

  /** The low word of the product is the product modulo 2^64. */
  lemma Mult64To128Low(lhs: u64, rhs: u64)
    ensures Mult64To128(lhs, rhs).low64 == Mul64(lhs, rhs)
  {
    hide Mult64To128;
    Mult64To128Exact(lhs, rhs);
    var p := Mult64To128(lhs, rhs);
    DivModUnique(p.high64, p.low64, 0x1_0000_0000_0000_0000, lhs * rhs);
  }

  /** The fold is the xor of the two halves of the exact product. */
  lemma FoldIs(x: u64, y: u64)
    ensures x * y / 0x1_0000_0000_0000_0000 < 0x1_0000_0000_0000_0000
    ensures MulFold64(x, y) == Xor(Mul64(x, y), x * y / 0x1_0000_0000_0000_0000) == MulFold64(y, x)
  {
    hide Mult64To128, Xor, Wrap64;
    FoldHalves(x, y);
    FoldHalves(y, x);
    assert x * y == y * x;
    Mult64To128Low(x, y);
    Mult64To128Low(y, x);
  }

  lemma FoldHalves(x: u64, y: u64)
    ensures Mult64To128(x, y).high64 == x * y / 0x1_0000_0000_0000_0000
  {
    hide Mult64To128;
    Mult64To128Exact(x, y);
    var p := Mult64To128(x, y);
    DivModUnique(p.high64, p.low64, 0x1_0000_0000_0000_0000, x * y);
  }

  /** A power of two that fits a word. */
  ghost predicate IsPower(x: u64) { exists k: nat :: k < 64 && x == Pow2(k) }

  /** A power of two as a factor makes the fold a rotation of the other factor. */
  lemma FoldByPower(x: u64, f: u64, k: nat)
    requires k < 64 && f == Pow2(k)
    ensures MulFold64(x, f) == Rotl(64, x, k)
  {
    hide MulFold64, Xor, Shl, Rotl, Pow2;
    WordSizes();
    var h, l := RotlSplit(64, x, k);
    var p, q := Pow2(64 - k), Pow2(k);
    Pow2Add(64 - k, k);
    NoCarry(l, 0, p, q);
    assert x * q == h * (p * q) + l * q;
    DivModUnique(h, l * q, p * q, x * f);
    FoldIs(x, f);
    XorConcat(l, 0, 0, h, k);
    ShlIsMul(l, k);
    ShlIsMul(0, k);
    XorZero(l);
    XorZero(h);
  }

  /** So neither order of the factors merges two words, and a factor zero loses all. */
  lemma FoldInjective(x: u64, y: u64, f: u64)
    ensures IsPower(f) ==> (MulFold64(x, f) == MulFold64(y, f) <==> x == y)
    ensures IsPower(f) ==> (MulFold64(f, x) == MulFold64(f, y) <==> x == y)
    ensures f == 0 ==> MulFold64(x, f) == MulFold64(f, x) == 0
  {
    hide MulFold64, Xor, Rotl;
    FoldIs(x, f);
    FoldIs(y, f);
    if IsPower(f) {
      var k: nat :| k < 64 && f == Pow2(k);
      WordSizes();
      FoldByPower(x, f, k);
      FoldByPower(y, f, k);
      RotlInjective(64, x, y, k);
    }
    if f == 0 { XorZero(0); }
  }

  /** A 64-by-64 product with the high words multiplied in is the product of a
      128-bit number and a 64-bit number, modulo 2^128. */
  lemma Mult128By64(m: Hash128, p: u64)
    ensures var h := Mult64To128(m.low64, p);
            var high := Add64(h.high64, Mul64(m.high64, p));
            h.low64 + 0x1_0000_0000_0000_0000 * high
            == (m.low64 * p + 0x1_0000_0000_0000_0000 * (m.high64 * p)) % 0x1_0000_0000_0000_0000_0000_0000_0000_0000
  {
    hide Mult64To128;
    Mult64To128Exact(m.low64, p);
    var h := Mult64To128(m.low64, p);
    ScaleHigh(m.low64 * p, h.low64, h.high64, m.high64, p);
  }

  lemma ScaleHigh(product: int, low: u64, high: u64, mhigh: u64, p: u64)
    requires product == low + 0x1_0000_0000_0000_0000 * high
    ensures low + 0x1_0000_0000_0000_0000 * Add64(high, Mul64(mhigh, p))
            == (product + 0x1_0000_0000_0000_0000 * (mhigh * p)) % 0x1_0000_0000_0000_0000_0000_0000_0000_0000
  {
    hide Wrap64;
    var u: nat, l: nat := mhigh * p, low;
    WrapSum(u, high);
    var r: nat := Wrap64(u + high);
    ScaleSplit(u + high);
    DivModUnique((u + high) / 0x1_0000_0000_0000_0000, l + 0x1_0000_0000_0000_0000 * r,
                 0x1_0000_0000_0000_0000_0000_0000_0000_0000, product + 0x1_0000_0000_0000_0000 * u);
  }

  lemma ScaleSplit(s: nat)
    ensures s == s / 0x1_0000_0000_0000_0000 * 0x1_0000_0000_0000_0000 + Wrap64(s)
  {
  }
}
