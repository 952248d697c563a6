/** What the 128-bit XXH3 sees of a change in an input of 17 to 240 bytes. Each pair of
    windows also adds the words of one window to the half that mixes the other, so a
    changed word always reaches the accumulators; the final mix loses a difference of
    two accumulators exactly when their halves cancel. */
module Xxh3MidDetect128 {
  import opened Bits
  import opened Words
  import opened Primes
  import opened Memory
  import opened Canonical
  import opened Multiply
  import opened Differences
  import opened Xxh3Short
  import opened Xxh3Inverse
  import opened Xxh3Coverage
  import opened Xxh3MidDetect

  // ---------------------------------------------------------------- one pair

  /** The two windows of a pair with their parts of the secret. */
  function First(p: Pair): Window { Window(p.at, p.key) }
  function Second(p: Pair): Window { Window(p.second, p.key + 16) }

  function Mixed(x: seq<byte>, w: Window, secret: Secret, seed: u64): u64
    requires w.at + 16 <= |x| && w.key + 16 <= |secret|
  {
    Mix16B(x, w.at, secret, w.key, seed)
  }

  predicate InWord(w: Window, lo: nat, hi: nat) { InFirst(w, lo, hi) || InSecond(w, lo, hi) }

  predicate PairUntouched(p: Pair, lo: nat, hi: nat) { Untouched(First(p), lo, hi) && Untouched(Second(p), lo, hi) }

  /** Both halves keep what they had, and a changed word shows in the half that mixes
      the other window. */
  lemma PairDecides(a: Hash128, b: Hash128, x: seq<byte>, y: seq<byte>, p: Pair, secret: Secret, seed: u64,
                    lo: nat, hi: nat)
    requires DiffersOnlyIn(x, y, lo, hi)
    requires p.at + 16 <= |x| && p.second + 16 <= |x| && p.key + 32 <= |secret|
    ensures |x| == |y|
    ensures var s, t := Mix32B(a, x, p.at, p.second, secret, p.key, seed), Mix32B(b, y, p.at, p.second, secret, p.key, seed);
            && (Untouched(Second(p), lo, hi) && Mixed(x, First(p), secret, seed) == Mixed(y, First(p), secret, seed)
                ==> (s.low64 == t.low64 <==> a.low64 == b.low64))
            && (Untouched(First(p), lo, hi) && Mixed(x, Second(p), secret, seed) == Mixed(y, Second(p), secret, seed)
                ==> (s.high64 == t.high64 <==> a.high64 == b.high64))
            && (Untouched(Second(p), lo, hi) && InWord(First(p), lo, hi) && a.high64 == b.high64 ==> s.high64 != t.high64)
            && (Untouched(First(p), lo, hi) && InWord(Second(p), lo, hi) && a.low64 == b.low64 ==> s.low64 != t.low64)
  {
    hide ReadLE64, DiffersOnlyIn, Mix16B, Xor64, Add64;
    DifferenceRange(x, y, lo, hi);
    WindowWords(x, y, First(p), lo, hi);
    WindowWords(x, y, Second(p), lo, hi);
    UntouchedMix(x, y, First(p), secret, seed, lo, hi);
    UntouchedMix(x, y, Second(p), secret, seed, lo, hi);
    var c, d := ReadLE64(x, p.at), ReadLE64(x, p.at + 8);
    var e, f := ReadLE64(y, p.at), ReadLE64(y, p.at + 8);
    var g, h := ReadLE64(x, p.second), ReadLE64(x, p.second + 8);
    var i, j := ReadLE64(y, p.second), ReadLE64(y, p.second + 8);
    HalfDecides(a.low64, Mixed(x, First(p), secret, seed), g, h, b.low64, Mixed(y, First(p), secret, seed), i, j);
    HalfDecides(a.high64, Mixed(x, Second(p), secret, seed), c, d, b.high64, Mixed(y, Second(p), secret, seed), e, f);
  }

  lemma HalfDecides(a: u64, m: u64, c: u64, d: u64, b: u64, n: u64, e: u64, f: u64)
    ensures var s, t := Xor64(Add64(a, m), Add64(c, d)), Xor64(Add64(b, n), Add64(e, f));
            && (m == n && c == e && d == f ==> (s == t <==> a == b))
            && (a == b && m == n && (c == e <==> d != f) ==> s != t)
  {
    hide Xor64, Add64;
    XorKeeps(Add64(a, m), Add64(c, d), Add64(b, n), Add64(e, f));
    Add64Keeps(a, m, b, n);
    Add64Keeps(c, d, e, f);
  }

  lemma UntouchedMix(x: seq<byte>, y: seq<byte>, w: Window, secret: Secret, seed: u64, lo: nat, hi: nat)
    requires DiffersOnlyIn(x, y, lo, hi) && w.at + 16 <= |x| && w.key + 16 <= |secret|
    ensures |x| == |y| && (Untouched(w, lo, hi) ==> Mixed(x, w, secret, seed) == Mixed(y, w, secret, seed))
  {
    hide Mix16B, DiffersOnlyIn, Keyed1, Keyed2;
    WindowDecides(x, y, w, secret, seed, lo, hi);
  }

  // ---------------------------------------------------------------- sums of pairs

  predicate AllUntouched(ps: seq<Pair>, lo: nat, hi: nat) {
    forall m | 0 <= m < |ps| :: PairUntouched(ps[m], lo, hi)
  }

  /** The change is in one word of one window, `w`, of pair `k`, and nowhere else. */
  predicate OnlyIn(ps: seq<Pair>, k: nat, inFirst: bool, lo: nat, hi: nat) {
    && k < |ps| && (forall m | 0 <= m < |ps| && m != k :: PairUntouched(ps[m], lo, hi))
    && InWord(if inFirst then First(ps[k]) else Second(ps[k]), lo, hi)
    && Untouched(if inFirst then Second(ps[k]) else First(ps[k]), lo, hi)
  }

  /** The half that mixes the given window, and the half that adds its words. */
  function MixHalf(h: Hash128, inFirst: bool): u64 { if inFirst then h.low64 else h.high64 }
  function AddHalf(h: Hash128, inFirst: bool): u64 { if inFirst then h.high64 else h.low64 }

  lemma {:induction false} PairsFollow(a: Hash128, b: Hash128, x: seq<byte>, y: seq<byte>, secret: Secret, seed: u64,
                                       ps: seq<Pair>, lo: nat, hi: nat)
    requires DiffersOnlyIn(x, y, lo, hi) && PairsInside(ps, |x|) && AllUntouched(ps, lo, hi)
    ensures |x| == |y|
    ensures var s, t := PairSum(a, x, secret, seed, ps), PairSum(b, y, secret, seed, ps);
            (s.low64 == t.low64 <==> a.low64 == b.low64) && (s.high64 == t.high64 <==> a.high64 == b.high64)
    decreases |ps|
  {
    hide Mix32B, DiffersOnlyIn, Mixed;
    DifferenceRange(x, y, lo, hi);
    if ps != [] {
      var ps', p := ps[..|ps| - 1], ps[|ps| - 1];
      PairsFollow(a, b, x, y, secret, seed, ps', lo, hi);
      UntouchedMix(x, y, First(p), secret, seed, lo, hi);
      UntouchedMix(x, y, Second(p), secret, seed, lo, hi);
      PairDecides(PairSum(a, x, secret, seed, ps'), PairSum(b, y, secret, seed, ps'), x, y, p, secret, seed, lo, hi);
    }
  }

  /** The half that adds the changed word always differs; the half that mixes it does
      not when the mix comes out the same. */
  lemma {:induction false} PairsSee(a: Hash128, x: seq<byte>, y: seq<byte>, secret: Secret, seed: u64,
                                    ps: seq<Pair>, k: nat, inFirst: bool, lo: nat, hi: nat)
    requires DiffersOnlyIn(x, y, lo, hi) && PairsInside(ps, |x|) && OnlyIn(ps, k, inFirst, lo, hi)
    ensures |x| == |y|
    ensures var s, t := PairSum(a, x, secret, seed, ps), PairSum(a, y, secret, seed, ps);
            var w := if inFirst then First(ps[k]) else Second(ps[k]);
            && AddHalf(s, inFirst) != AddHalf(t, inFirst)
            && (Mixed(x, w, secret, seed) == Mixed(y, w, secret, seed) ==> MixHalf(s, inFirst) == MixHalf(t, inFirst))
    decreases |ps|
  {
    hide Mix32B, DiffersOnlyIn, Mixed, Untouched, InWord;
    DifferenceRange(x, y, lo, hi);
    var ps', p := ps[..|ps| - 1], ps[|ps| - 1];
    var s, t := PairSum(a, x, secret, seed, ps'), PairSum(a, y, secret, seed, ps');
    if k == |ps| - 1 {
      PairsFollow(a, a, x, y, secret, seed, ps', lo, hi);
    } else {
      PairsSee(a, x, y, secret, seed, ps', k, inFirst, lo, hi);
    }
    UntouchedMix(x, y, First(p), secret, seed, lo, hi);
    UntouchedMix(x, y, Second(p), secret, seed, lo, hi);
    PairDecides(s, t, x, y, p, secret, seed, lo, hi);
  }

  // ---------------------------------------------------------------- the final mix

  /** Equal sums, and low halves that agree except in their top two bits. */
  predicate Collide(a: Hash128, b: Hash128) {
    && Add64(a.low64, a.high64) == Add64(b.low64, b.high64)
    && a.low64 % 0x4000_0000_0000_0000 == b.low64 % 0x4000_0000_0000_0000
  }

  /** The two results of the final mix before their avalanches. */
  function HighSum(a: Hash128, c: u64): u64 {
    Add64(Add64(Mul64(a.low64, PRIME64_1), Mul64(a.high64, PRIME64_4)), c)
  }

  /** The final mix is not a bijection: it merges two accumulators exactly when they
      collide in this sense, because PRIME64_1 - PRIME64_4 is four times an odd number. */
  lemma Finish128Collides(a: Hash128, b: Hash128, n: nat, seed: u64)
    ensures Finish128(a, n, seed) == Finish128(b, n, seed) <==> Collide(a, b)
  {
    hide Avalanche3, Unavalanche3, Mul64, Add64, Sub64;
    var c := Mul64(Wrap64(n - seed), PRIME64_2);
    var s, t := Add64(a.low64, a.high64), Add64(b.low64, b.high64);
    Avalanche3Undone(s);
    Avalanche3Undone(t);
    Avalanche3Undone(HighSum(a, c));
    Avalanche3Undone(HighSum(b, c));
    Sub64Keeps(0, Avalanche3(HighSum(a, c)), Avalanche3(HighSum(b, c)));
    Add64Keeps(Add64(Mul64(a.low64, PRIME64_1), Mul64(a.high64, PRIME64_4)), c,
               Add64(Mul64(b.low64, PRIME64_1), Mul64(b.high64, PRIME64_4)), c);
    if s == t { SameSum(a, b); }
  }

  /** With equal sums the difference of the weighted sums is a multiple of the
      difference of the weights. */
  lemma SameSum(a: Hash128, b: Hash128)
    requires Add64(a.low64, a.high64) == Add64(b.low64, b.high64)
    ensures Add64(Mul64(a.low64, PRIME64_1), Mul64(a.high64, PRIME64_4))
            == Add64(Mul64(b.low64, PRIME64_1), Mul64(b.high64, PRIME64_4))
       <==> a.low64 % 0x4000_0000_0000_0000 == b.low64 % 0x4000_0000_0000_0000
  {
    hide Mul64, Add64, Wrap64;
    WeightedSum(a);
    WeightedSum(b);
    SumIsWrap(a);
    SumIsWrap(b);
    var x, y := a.low64 * PRIME64_1 + a.high64 * PRIME64_4, b.low64 * PRIME64_1 + b.high64 * PRIME64_4;
    var d, k := a.low64 as int - b.low64, a.high64 as int - b.high64;
    WrapSame(a.low64 + a.high64, b.low64 + b.high64, d + k);
    WrapSame(x, y, d * PRIME64_1 + k * PRIME64_4);
    SameMod(a.low64, b.low64, 0x4000_0000_0000_0000);
    Weights(d, k);
  }

  lemma SumIsWrap(a: Hash128)
    ensures Add64(a.low64, a.high64) == Wrap64(a.low64 + a.high64)
  {
  }

  lemma WrapSame(x: int, y: int, d: int)
    requires d == x - y
    ensures Wrap64(x) == Wrap64(y) <==> d % 0x1_0000_0000_0000_0000 == 0
  {
    SameMod(x, y, 0x1_0000_0000_0000_0000);
  }

  lemma Weights(d: int, k: int)
    requires (d + k) % 0x1_0000_0000_0000_0000 == 0
    ensures (d * PRIME64_1 + k * PRIME64_4) % 0x1_0000_0000_0000_0000 == 0 <==> d % 0x4000_0000_0000_0000 == 0
  {
    var e, q, m := 0x612_EBCE_70CE_4709, 0x4000_0000_0000_0000, 0x1_0000_0000_0000_0000;
    var j, w := (d + k) / m, PRIME64_4;
    assert PRIME64_1 == 4 * e + w;
    assert k == m * j - d;
    Regroup(d, k, j, e, w, m);
    var z := d * PRIME64_1 + k * PRIME64_4;
    if z % m == 0 {
      var t := z / m;
      assert z == m * t;
      Quarter(d, e, t, j, w, q);
      assert Pow2(62) == q by { Pow2Of62(); }
      OddDivides(62, d, e, t - j * w);
    }
    if d % q == 0 {
      var r := d / q;
      assert d == q * r;
      Whole(r, e, j, w, q);
      DivModUnique(r * e + j * w, 0, m, z);
    }
  }

  lemma Regroup(d: int, k: int, j: int, e: int, w: int, m: int)
    requires k == m * j - d
    ensures d * (4 * e + w) + k * w == 4 * (d * e) + m * (j * w)
  {
  }

  lemma Quarter(d: int, e: int, t: int, j: int, w: int, q: int)
    requires 4 * (d * e) + 4 * q * (j * w) == 4 * q * t
    ensures d * e == q * (t - j * w)
  {
  }

  lemma Whole(r: int, e: int, j: int, w: int, q: int)
    ensures 4 * (q * r * e) + 4 * q * (j * w) == (r * e + j * w) * (4 * q)
  {
  }

  lemma Pow2Of62()
    ensures Pow2(62) == 0x4000_0000_0000_0000
  {
    WordSizes();
    assert Pow2(64) == 2 * Pow2(63) == 4 * Pow2(62);
  }

  lemma WeightedSum(a: Hash128)
    ensures Add64(Mul64(a.low64, PRIME64_1), Mul64(a.high64, PRIME64_4))
            == Wrap64(a.low64 * PRIME64_1 + a.high64 * PRIME64_4)
  {
    hide Wrap64;
    WrapSum(a.low64 * PRIME64_1, Wrap64(a.high64 * PRIME64_4));
    WrapSum(a.high64 * PRIME64_4, a.low64 * PRIME64_1);
  }

  /** Two numbers have one remainder exactly when the modulus divides their difference. */
  lemma SameMod(x: int, y: int, m: nat)
    requires m > 0
    ensures x % m == y % m <==> (x - y) % m == 0
  {
    if x % m == y % m {
      DivModUnique(x / m - y / m, 0, m, x - y);
    }
    if (x - y) % m == 0 {
      DivModUnique(y / m + (x - y) / m, y % m, m, x);
    }
  }

  /** Undoing the avalanches of the final mix leaves two sums of the accumulators. */
  lemma Finish128Sums(a: Hash128, n: nat, seed: u64)
    ensures var h := Finish128(a, n, seed);
            && Unavalanche3(h.low64) == Wrap64(a.low64 + a.high64)
            && Unavalanche3(Sub64(0, h.high64)) == Wrap64(a.low64 * PRIME64_1 + a.high64 * PRIME64_4 + (n - seed) * PRIME64_2)
  {
    hide Avalanche3, Unavalanche3, Wrap64, HighSum, Sub64;
    var c := Mul64(Wrap64(n - seed), PRIME64_2);
    Avalanche3Undone(Add64(a.low64, a.high64));
    Avalanche3Undone(HighSum(a, c));
    DoubleNegation(Avalanche3(HighSum(a, c)));
    HighSumIs(a, n - seed);
    Finish128Is(a, n, seed);
  }

  lemma Finish128Is(a: Hash128, n: nat, seed: u64)
    ensures Finish128(a, n, seed)
         == Hash128(Avalanche3(Add64(a.low64, a.high64)),
                    Sub64(0, Avalanche3(HighSum(a, Mul64(Wrap64(n - seed), PRIME64_2)))))
  {
    hide Avalanche3, Mul64, Add64, Sub64;
  }

  lemma HighSumIs(a: Hash128, d: int)
    ensures HighSum(a, Mul64(Wrap64(d), PRIME64_2)) == Wrap64(a.low64 * PRIME64_1 + a.high64 * PRIME64_4 + d * PRIME64_2)
  {
    hide Wrap64;
    var s := a.low64 * PRIME64_1 + a.high64 * PRIME64_4;
    WeightedSum(a);
    WrapProduct(d, PRIME64_2);
    WrapSum(s, Wrap64(d * PRIME64_2));
    WrapSum(d * PRIME64_2, s);
  }

  lemma DoubleNegation(z: u64)
    ensures Sub64(0, Sub64(0, z)) == z
  {
  }

  lemma WrapProduct(x: int, y: int)
    ensures Wrap64(Wrap64(x) * y) == Wrap64(x * y)
  {
    var m := 0x1_0000_0000_0000_0000;
    var q := x / m;
    assert x == q * m + Wrap64(x);
    assert x * y == (q * y) * m + Wrap64(x) * y;
    var r, s := Wrap64(Wrap64(x) * y), Wrap64(x) * y / m;
    assert Wrap64(x) * y == s * m + r;
    DivModUnique(q * y + s, r, m, x * y);
  }

  /** The final mix also keeps the length and the seed apart. */
  lemma Finish128SeesSeed(a: Hash128, m: nat, s: u64, n: nat, t: u64)
    ensures Finish128(a, m, s) == Finish128(a, n, t) <==> Wrap64(m - s) == Wrap64(n - t)
  {
    hide Avalanche3, Unavalanche3, Mul64, Add64, Sub64, Wrap64;
    var c, d := Mul64(Wrap64(m - s), PRIME64_2), Mul64(Wrap64(n - t), PRIME64_2);
    Avalanche3Undone(HighSum(a, c));
    Avalanche3Undone(HighSum(a, d));
    Sub64Keeps(0, Avalanche3(HighSum(a, c)), Avalanche3(HighSum(a, d)));
    var w := Add64(Mul64(a.low64, PRIME64_1), Mul64(a.high64, PRIME64_4));
    Add64Keeps(w, c, w, d);
    InversePrimes();
    MulUndo64(Wrap64(m - s), PRIME64_2, INVERSE64_2);
    MulUndo64(Wrap64(n - t), PRIME64_2, INVERSE64_2);
  }

  /** A difference in one half alone never collides. */
  lemma OneHalfShows(a: Hash128, b: Hash128)
    requires a != b && (a.low64 == b.low64 || a.high64 == b.high64)
    ensures !Collide(a, b)
  {
    hide Add64;
    Add64Keeps(a.low64, a.high64, b.low64, b.high64);
  }

  // ---------------------------------------------------------------- the hash

  /** 17 to 128 bytes: a change of one word that lies in one window only always reaches
      the accumulators, and the hashes collide exactly when these do. They do not when
      the window mixes to the same value, as it does beside a companion zero. */
  lemma Mid128Detects(x: seq<byte>, y: seq<byte>, secret: Secret, seed: u64, lo: nat, hi: nat, k: nat, inFirst: bool)
    requires 17 <= |x| <= 128 && DiffersOnlyIn(x, y, lo, hi) && OnlyIn(Pairs17To128(|x|), k, inFirst, lo, hi)
    ensures |x| == |y| && AddHalf(MidAccs(x, secret, seed), inFirst) != AddHalf(MidAccs(y, secret, seed), inFirst)
    ensures Short128(x, secret, seed) == Short128(y, secret, seed)
       <==> Collide(MidAccs(x, secret, seed), MidAccs(y, secret, seed))
    ensures var p := Pairs17To128(|x|)[k];
            var w := if inFirst then First(p) else Second(p);
            Mixed(x, w, secret, seed) == Mixed(y, w, secret, seed) ==> Short128(x, secret, seed) != Short128(y, secret, seed)
  {
    hide Pairs17To128, PairsInside, OnlyIn, PairSum, Len17To128_128, Mul64, DiffersOnlyIn, Finish128, Collide, Mixed;
    DifferenceRange(x, y, lo, hi);
    Mid128IsSum(x, secret, seed);
    Mid128IsSum(y, secret, seed);
    var s, t := MidAccs(x, secret, seed), MidAccs(y, secret, seed);
    PairsSee(Hash128(Mul64(|x|, PRIME64_1), 0), x, y, secret, seed, Pairs17To128(|x|), k, inFirst, lo, hi);
    Finish128Collides(s, t, |x|, seed);
    if s != t && (s.low64 == t.low64 || s.high64 == t.high64) { OneHalfShows(s, t); }
  }

  /** The change that 64 bits lose, beside a word that cancels its part of the secret,
      always shows in 128 bits. */
  lemma ZeroShows128(x: seq<byte>, y: seq<byte>, secret: Secret, seed: u64, lo: nat, hi: nat, k: nat, inFirst: bool)
    requires 17 <= |x| <= 128 && DiffersOnlyIn(x, y, lo, hi) && OnlyIn(Pairs17To128(|x|), k, inFirst, lo, hi)
    requires var p := Pairs17To128(|x|)[k]; Silent(x, if inFirst then First(p) else Second(p), secret, seed, lo, hi)
    ensures |x| == |y| && Short128(x, secret, seed) != Short128(y, secret, seed)
  {
    hide Pairs17To128, Short128, MidAccs, Collide, Mix16B, Silent, DiffersOnlyIn;
    var p := Pairs17To128(|x|)[k];
    WindowDecides(x, y, if inFirst then First(p) else Second(p), secret, seed, lo, hi);
    Mid128Detects(x, y, secret, seed, lo, hi, k, inFirst);
  }

  /** What the window of the 129-to-240 loop that holds word `q` mixes to. */
  function LateMix(x: seq<byte>, secret: Secret, seed: u64, q: nat): u64
    requires 129 <= |x| <= 240 && 8 * q + 40 <= |x|
  {
    var p := 16 * (q / 2);
    Mixed(x, Window(p, if p < 128 then p else p - 128 + 3), secret, seed)
  }

  /** 129 to 240 bytes: the same holds of every word before the last 32 bytes. */
  lemma LateWord128(x: seq<byte>, y: seq<byte>, secret: Secret, seed: u64, q: nat)
    requires 129 <= |x| == |y| <= 240 && 8 * q + 40 <= |x| && DiffersOnlyIn(x, y, 8 * q, 8 * q + 8)
    ensures AddHalf(LateAccs(x, secret, seed), q % 4 < 2) != AddHalf(LateAccs(y, secret, seed), q % 4 < 2)
    ensures Short128(x, secret, seed) == Short128(y, secret, seed)
       <==> Collide(LateAccs(x, secret, seed), LateAccs(y, secret, seed))
    ensures LateMix(x, secret, seed, q) == LateMix(y, secret, seed, q)
        ==> Short128(x, secret, seed) != Short128(y, secret, seed)
  {
    hide Len129To240_128, DiffersOnlyIn, Finish128, Collide, LateMix, LateAccs;
    Late128IsSum(x, secret, seed);
    Late128IsSum(y, secret, seed);
    LateAccsDiffer(x, y, secret, seed, q);
    var s, t := LateAccs(x, secret, seed), LateAccs(y, secret, seed);
    Finish128Collides(s, t, |x|, seed);
    if s != t && (s.low64 == t.low64 || s.high64 == t.high64) { OneHalfShows(s, t); }
  }

  lemma LateAccsDiffer(x: seq<byte>, y: seq<byte>, secret: Secret, seed: u64, q: nat)
    requires 129 <= |x| == |y| <= 240 && 8 * q + 40 <= |x| && DiffersOnlyIn(x, y, 8 * q, 8 * q + 8)
    ensures AddHalf(LateAccs(x, secret, seed), q % 4 < 2) != AddHalf(LateAccs(y, secret, seed), q % 4 < 2)
    ensures LateMix(x, secret, seed, q) == LateMix(y, secret, seed, q)
        ==> MixHalf(LateAccs(x, secret, seed), q % 4 < 2) == MixHalf(LateAccs(y, secret, seed), q % 4 < 2)
  {
    hide PairsInside, PairSum, Sub64, DiffersOnlyIn, LateMix, Avalanche3, OnlyIn, AllUntouched, EarlyPairs, LatePairs,
         LastPair, EarlyAccs, Mul64;
    var lo, n, inFirst := 8 * q, |x|, q % 4 < 2;
    var us, ws := EarlyPairs(n), LatePairs(n);
    var s, t := EarlyAccs(x, secret, seed), EarlyAccs(y, secret, seed);
    MixBothKeeps(s, t);
    if q < 16 {
      EarlyDiffer(x, y, secret, seed, q);
      LateSame(x, y, secret, seed, q, MixBoth(s), MixBoth(t));
    } else {
      EarlySame(x, y, secret, seed, q);
      LateDiffer(x, y, secret, seed, q, MixBoth(s));
    }
    LastSame(x, y, secret, seed, q, PairSum(MixBoth(s), x, secret, seed, ws), PairSum(MixBoth(t), y, secret, seed, ws));
  }

  lemma MixBothKeeps(s: Hash128, t: Hash128)
    ensures MixBoth(s).low64 == MixBoth(t).low64 <==> s.low64 == t.low64
    ensures MixBoth(s).high64 == MixBoth(t).high64 <==> s.high64 == t.high64
  {
    hide Avalanche3, Unavalanche3;
    Avalanche3Undone(s.low64);
    Avalanche3Undone(s.high64);
    Avalanche3Undone(t.low64);
    Avalanche3Undone(t.high64);
  }

  /** The first loop when the changed word lies in it, and when it does not. */
  lemma EarlyDiffer(x: seq<byte>, y: seq<byte>, secret: Secret, seed: u64, q: nat)
    requires 129 <= |x| == |y| <= 240 && 8 * q + 40 <= |x| && DiffersOnlyIn(x, y, 8 * q, 8 * q + 8) && q < 16
    ensures var s, t := EarlyAccs(x, secret, seed), EarlyAccs(y, secret, seed);
            && AddHalf(s, q % 4 < 2) != AddHalf(t, q % 4 < 2)
            && (LateMix(x, secret, seed, q) == LateMix(y, secret, seed, q) ==> MixHalf(s, q % 4 < 2) == MixHalf(t, q % 4 < 2))
  {
    hide PairsInside, PairSum, DiffersOnlyIn, Mixed, EarlyPairs, Mul64;
    PairsSee(Hash128(Mul64(|x|, PRIME64_1), 0), x, y, secret, seed, EarlyPairs(|x|), q / 4, q % 4 < 2, 8 * q, 8 * q + 8);
  }

  lemma EarlySame(x: seq<byte>, y: seq<byte>, secret: Secret, seed: u64, q: nat)
    requires 129 <= |x| == |y| <= 240 && 8 * q + 40 <= |x| && DiffersOnlyIn(x, y, 8 * q, 8 * q + 8) && q >= 16
    ensures EarlyAccs(x, secret, seed) == EarlyAccs(y, secret, seed)
  {
    hide PairsInside, PairSum, DiffersOnlyIn, EarlyPairs, Mul64;
    var a := Hash128(Mul64(|x|, PRIME64_1), 0);
    PairsFollow(a, a, x, y, secret, seed, EarlyPairs(|x|), 8 * q, 8 * q + 8);
  }

  /** The second loop likewise. */
  lemma LateDiffer(x: seq<byte>, y: seq<byte>, secret: Secret, seed: u64, q: nat, a: Hash128)
    requires 129 <= |x| == |y| <= 240 && 8 * q + 40 <= |x| && DiffersOnlyIn(x, y, 8 * q, 8 * q + 8) && q >= 16
    ensures var s, t := PairSum(a, x, secret, seed, LatePairs(|x|)), PairSum(a, y, secret, seed, LatePairs(|x|));
            && AddHalf(s, q % 4 < 2) != AddHalf(t, q % 4 < 2)
            && (LateMix(x, secret, seed, q) == LateMix(y, secret, seed, q) ==> MixHalf(s, q % 4 < 2) == MixHalf(t, q % 4 < 2))
  {
    hide PairsInside, PairSum, DiffersOnlyIn, Mixed, LatePairs;
    PairsSee(a, x, y, secret, seed, LatePairs(|x|), q / 4 - 4, q % 4 < 2, 8 * q, 8 * q + 8);
  }

  lemma LateSame(x: seq<byte>, y: seq<byte>, secret: Secret, seed: u64, q: nat, a: Hash128, b: Hash128)
    requires 129 <= |x| == |y| <= 240 && 8 * q + 40 <= |x| && DiffersOnlyIn(x, y, 8 * q, 8 * q + 8) && q < 16
    ensures var s, t := PairSum(a, x, secret, seed, LatePairs(|x|)), PairSum(b, y, secret, seed, LatePairs(|x|));
            (s.low64 == t.low64 <==> a.low64 == b.low64) && (s.high64 == t.high64 <==> a.high64 == b.high64)
  {
    hide PairsInside, PairSum, DiffersOnlyIn, LatePairs;
    PairsFollow(a, b, x, y, secret, seed, LatePairs(|x|), 8 * q, 8 * q + 8);
  }

  lemma LastSame(x: seq<byte>, y: seq<byte>, secret: Secret, seed: u64, q: nat, a: Hash128, b: Hash128)
    requires 129 <= |x| == |y| <= 240 && 8 * q + 40 <= |x| && DiffersOnlyIn(x, y, 8 * q, 8 * q + 8)
    ensures var s := PairSum(a, x, secret, Sub64(0, seed), LastPair(|x|));
            var t := PairSum(b, y, secret, Sub64(0, seed), LastPair(|x|));
            (s.low64 == t.low64 <==> a.low64 == b.low64) && (s.high64 == t.high64 <==> a.high64 == b.high64)
  {
    hide PairsInside, PairSum, DiffersOnlyIn, Sub64;
    PairsFollow(a, b, x, y, secret, Sub64(0, seed), LastPair(|x|), 8 * q, 8 * q + 8);
  }

  /** At 32, 64, 96 and 128 bytes every word is in one window of one pair. */
  lemma PairOfWord(n: nat, q: nat) returns (k: nat, inFirst: bool)
    requires (n == 32 || n == 64 || n == 96 || n == 128) && 8 * q + 8 <= n
    ensures OnlyIn(Pairs17To128(n), k, inFirst, 8 * q, 8 * q + 8)
  {
    hide Pairs17To128, OnlyIn;
    var ps, p := Pairs17To128(n), q / 2;
    inFirst := p < n / 32;
    k := if inFirst then n / 32 - 1 - p else p - n / 32;
    PairsPlaced(n);
    PlaceOfWord(n, ps, q, k, inFirst);
  }

  lemma PairsPlaced(n: nat)
    requires n == 32 || n == 64 || n == 96 || n == 128
    ensures var ps := Pairs17To128(n);
            && |ps| == n / 32
            && forall m | 0 <= m < |ps| :: ps[m].at == n / 2 - 16 - 16 * m && ps[m].second == n / 2 + 16 * m
  {
    var ps := Pairs17To128(n);
    if n == 32 {
      assert ps == [Pair(0, 16, 0)];
    } else if n == 64 {
      assert ps == [Pair(16, 32, 32), Pair(0, 48, 0)];
    } else if n == 96 {
      assert ps == [Pair(32, 48, 64), Pair(16, 64, 32), Pair(0, 80, 0)];
    } else {
      assert ps == [Pair(48, 64, 96), Pair(32, 80, 64), Pair(16, 96, 32), Pair(0, 112, 0)];
    }
  }

  /** Pair `k` from the end of the list has the `k`-th window from each end. */
  lemma PlaceOfWord(n: nat, ps: seq<Pair>, q: nat, k: nat, inFirst: bool)
    requires n % 32 == 0 && |ps| == n / 32 && 8 * q + 8 <= n
    requires forall m | 0 <= m < |ps| :: ps[m].at == n / 2 - 16 - 16 * m && ps[m].second == n / 2 + 16 * m
    requires inFirst == (q / 2 < n / 32) && k == if inFirst then n / 32 - 1 - q / 2 else q / 2 - n / 32
    ensures OnlyIn(ps, k, inFirst, 8 * q, 8 * q + 8)
  {
  }

  /** So there every change of one aligned word reaches the accumulators, and the
      128-bit hashes collide exactly when these do. */
  lemma AlignedWord128(x: seq<byte>, y: seq<byte>, secret: Secret, seed: u64, q: nat)
    requires |x| == 32 || |x| == 64 || |x| == 96 || |x| == 128
    requires DiffersOnlyIn(x, y, 8 * q, 8 * q + 8)
    ensures |x| == |y| && MidAccs(x, secret, seed) != MidAccs(y, secret, seed)
    ensures Short128(x, secret, seed) == Short128(y, secret, seed)
       <==> Collide(MidAccs(x, secret, seed), MidAccs(y, secret, seed))
  {
    hide DiffersOnlyIn, OnlyIn, MidAccs, Short128, Collide, Mixed, Pairs17To128;
    DifferenceRange(x, y, 8 * q, 8 * q + 8);
    var k, inFirst := PairOfWord(|x|, q);
    Mid128Detects(x, y, secret, seed, 8 * q, 8 * q + 8, k, inFirst);
  }
}
