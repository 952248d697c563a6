/** What XXH3 sees of a change in an input of 17 to 240 bytes. Every window multiplies
    two keyed words, so a change of one word shows when the other, its companion, is a
    power of two, and is lost when the companion is zero. */
module Xxh3MidDetect {
  import opened Bits
  import opened Words
  import opened Primes
  import opened Memory
  import opened Canonical
  import opened Multiply
  import opened Differences
  import opened Xxh3Short
  import opened Xxh3Inverse
  import opened Xxh3Coverage

  // ---------------------------------------------------------------- one window

  /** The first and the second word of a window, xored with the seeded secret. */
  function Keyed1(x: seq<byte>, w: Window, secret: Secret, seed: u64): u64
    requires w.at + 16 <= |x| && w.key + 16 <= |secret|
  {
    Xor64(ReadLE64(x, w.at), Add64(ReadLE64(secret, w.key), seed))
  }

  function Keyed2(x: seq<byte>, w: Window, secret: Secret, seed: u64): u64
    requires w.at + 16 <= |x| && w.key + 16 <= |secret|
  {
    Xor64(ReadLE64(x, w.at + 8), Sub64(ReadLE64(secret, w.key + 8), seed))
  }

  /** A change of the first word always shows when the second, keyed, is a power of two,
      and never when that is zero; the same with the words exchanged. */
  lemma MixSees(x: seq<byte>, y: seq<byte>, w: Window, secret: Secret, seed: u64)
    requires w.at + 16 <= |x| && w.at + 16 <= |y| && w.key + 16 <= |secret|
    ensures var m, n := Mix16B(x, w.at, secret, w.key, seed), Mix16B(y, w.at, secret, w.key, seed);
            var a, b := ReadLE64(x, w.at), ReadLE64(x, w.at + 8);
            var c, d := ReadLE64(y, w.at), ReadLE64(y, w.at + 8);
            && (b == d && IsPower(Keyed2(x, w, secret, seed)) ==> (m == n <==> a == c))
            && (a == c && IsPower(Keyed1(x, w, secret, seed)) ==> (m == n <==> b == d))
            && (b == d && Keyed2(x, w, secret, seed) == 0 ==> m == n == 0)
            && (a == c && Keyed1(x, w, secret, seed) == 0 ==> m == n == 0)
  {
    hide MulFold64, Xor64, ReadLE64, Add64, Sub64, IsPower;
    var a, b := ReadLE64(x, w.at), ReadLE64(x, w.at + 8);
    var c, d := ReadLE64(y, w.at), ReadLE64(y, w.at + 8);
    var k, l := Add64(ReadLE64(secret, w.key), seed), Sub64(ReadLE64(secret, w.key + 8), seed);
    XorKeeps(a, k, c, k);
    XorKeeps(b, l, d, l);
    FoldInjective(Xor64(a, k), Xor64(c, k), Xor64(b, l));
    FoldInjective(Xor64(b, l), Xor64(d, l), Xor64(a, k));
    FoldInjective(Xor64(c, k), Xor64(c, k), Xor64(b, l));
    FoldInjective(Xor64(d, l), Xor64(d, l), Xor64(a, k));
  }

  /** The change leaves the window alone. */
  predicate Untouched(w: Window, lo: nat, hi: nat) { hi <= w.at || w.at + 16 <= lo }

  /** The change is inside the first (second) word of the window. */
  predicate InFirst(w: Window, lo: nat, hi: nat) { w.at <= lo && hi <= w.at + 8 }
  predicate InSecond(w: Window, lo: nat, hi: nat) { w.at + 8 <= lo && hi <= w.at + 16 }

  /** The change reaches at most one word of the window, and the other, keyed, is zero. */
  predicate Silent(x: seq<byte>, w: Window, secret: Secret, seed: u64, lo: nat, hi: nat)
    requires w.at + 16 <= |x| && w.key + 16 <= |secret|
  {
    || Untouched(w, lo, hi)
    || (hi <= w.at + 8 && Keyed2(x, w, secret, seed) == 0)
    || (w.at + 8 <= lo && Keyed1(x, w, secret, seed) == 0)
  }

  /** The change is inside one word of the window and the other, keyed, is a power of two. */
  ghost predicate Seen(x: seq<byte>, w: Window, secret: Secret, seed: u64, lo: nat, hi: nat)
    requires w.at + 16 <= |x| && w.key + 16 <= |secret|
  {
    || (InFirst(w, lo, hi) && IsPower(Keyed2(x, w, secret, seed)))
    || (InSecond(w, lo, hi) && IsPower(Keyed1(x, w, secret, seed)))
  }

  /** Which words of a window a change leaves and which it changes. */
  lemma WindowWords(x: seq<byte>, y: seq<byte>, w: Window, lo: nat, hi: nat)
    requires DiffersOnlyIn(x, y, lo, hi) && w.at + 16 <= |x|
    ensures hi <= w.at || w.at + 8 <= lo ==> ReadLE64(x, w.at) == ReadLE64(y, w.at)
    ensures hi <= w.at + 8 || w.at + 16 <= lo ==> ReadLE64(x, w.at + 8) == ReadLE64(y, w.at + 8)
    ensures InFirst(w, lo, hi) ==> ReadLE64(x, w.at) != ReadLE64(y, w.at)
    ensures InSecond(w, lo, hi) ==> ReadLE64(x, w.at + 8) != ReadLE64(y, w.at + 8)
  {
    WordOfChange(x, y, w.at, lo, hi);
    WordOfChange(x, y, w.at + 8, lo, hi);
  }

  lemma WordOfChange(x: seq<byte>, y: seq<byte>, i: nat, lo: nat, hi: nat)
    requires DiffersOnlyIn(x, y, lo, hi) && i + 8 <= |x|
    ensures hi <= i || i + 8 <= lo ==> ReadLE64(x, i) == ReadLE64(y, i)
    ensures i <= lo && hi <= i + 8 ==> ReadLE64(x, i) != ReadLE64(y, i)
  {
    hide ReadLE64, DiffersOnlyIn;
    DifferenceRange(x, y, lo, hi);
    WordsDiffer(x, y, i, 8);
    if hi <= i || i + 8 <= lo { SameOutside(x, y, lo, hi, i, i + 8); }
    if i <= lo && hi <= i + 8 {
      SliceDiffers(x, y, lo, hi, i, i + 8);
      SlicesDiffer(x[i..i + 8], y[i..i + 8], lo - i, hi - i);
    }
  }

  lemma SlicesDiffer(s: seq<byte>, t: seq<byte>, lo: nat, hi: nat)
    requires DiffersOnlyIn(s, t, lo, hi)
    ensures s != t
  {
  }

  lemma WindowDecides(x: seq<byte>, y: seq<byte>, w: Window, secret: Secret, seed: u64, lo: nat, hi: nat)
    requires DiffersOnlyIn(x, y, lo, hi) && w.at + 16 <= |x| && w.key + 16 <= |secret|
    ensures |x| == |y|
    ensures Silent(x, w, secret, seed, lo, hi) ==> Mix16B(x, w.at, secret, w.key, seed) == Mix16B(y, w.at, secret, w.key, seed)
    ensures Seen(x, w, secret, seed, lo, hi) ==> Mix16B(x, w.at, secret, w.key, seed) != Mix16B(y, w.at, secret, w.key, seed)
  {
    hide ReadLE64, DiffersOnlyIn, Keyed1, Keyed2, IsPower, MulFold64, Xor64, Add64, Sub64;
    DifferenceRange(x, y, lo, hi);
    WindowWords(x, y, w, lo, hi);
    MixSees(x, y, w, secret, seed);
  }

  // ---------------------------------------------------------------- sums of windows

  ghost predicate AllSilent(x: seq<byte>, ws: seq<Window>, secret: Secret, seed: u64, lo: nat, hi: nat)
    requires Inside(ws, |x|)
  {
    forall m | 0 <= m < |ws| :: Silent(x, ws[m], secret, seed, lo, hi)
  }

  /** All windows but number `k` are silent, and that one sees the change. */
  ghost predicate OneSees(x: seq<byte>, ws: seq<Window>, secret: Secret, seed: u64, lo: nat, hi: nat, k: nat)
    requires Inside(ws, |x|)
  {
    && k < |ws| && Seen(x, ws[k], secret, seed, lo, hi)
    && forall m | 0 <= m < |ws| && m != k :: Silent(x, ws[m], secret, seed, lo, hi)
  }

  lemma {:induction false} SumFollows(a: u64, b: u64, x: seq<byte>, y: seq<byte>, secret: Secret, seed: u64,
                                      ws: seq<Window>, lo: nat, hi: nat)
    requires DiffersOnlyIn(x, y, lo, hi) && Inside(ws, |x|) && AllSilent(x, ws, secret, seed, lo, hi)
    ensures |x| == |y| && (Sum(a, x, secret, seed, ws) == Sum(b, y, secret, seed, ws) <==> a == b)
    decreases |ws|
  {
    hide Mix16B, Silent, Seen, Add64, DiffersOnlyIn;
    DifferenceRange(x, y, lo, hi);
    if ws != [] {
      var ws', w := ws[..|ws| - 1], ws[|ws| - 1];
      SumFollows(a, b, x, y, secret, seed, ws', lo, hi);
      WindowDecides(x, y, w, secret, seed, lo, hi);
      var m := Mix16B(x, w.at, secret, w.key, seed);
      Add64Keeps(Sum(a, x, secret, seed, ws'), m, Sum(b, y, secret, seed, ws'), m);
    }
  }

  lemma {:induction false} SumSees(a: u64, x: seq<byte>, y: seq<byte>, secret: Secret, seed: u64,
                                   ws: seq<Window>, lo: nat, hi: nat, k: nat)
    requires DiffersOnlyIn(x, y, lo, hi) && Inside(ws, |x|) && OneSees(x, ws, secret, seed, lo, hi, k)
    ensures |x| == |y| && Sum(a, x, secret, seed, ws) != Sum(a, y, secret, seed, ws)
    decreases |ws|
  {
    hide Mix16B, Silent, Seen, Add64, DiffersOnlyIn;
    DifferenceRange(x, y, lo, hi);
    var ws', w := ws[..|ws| - 1], ws[|ws| - 1];
    WindowDecides(x, y, w, secret, seed, lo, hi);
    var s, t := Sum(a, x, secret, seed, ws'), Sum(a, y, secret, seed, ws');
    var m, n := Mix16B(x, w.at, secret, w.key, seed), Mix16B(y, w.at, secret, w.key, seed);
    if k == |ws| - 1 {
      SumFollows(a, a, x, y, secret, seed, ws', lo, hi);
    } else {
      SumSees(a, x, y, secret, seed, ws', lo, hi, k);
    }
    Add64Keeps(s, m, t, n);
  }

  // ---------------------------------------------------------------- 64 bits

  /** 17 to 128 bytes: a change that one window sees and all others are silent about
      always changes the hash, wherever the windows overlap. */
  lemma Mid64Detects(x: seq<byte>, y: seq<byte>, secret: Secret, seed: u64, lo: nat, hi: nat, k: nat)
    requires 17 <= |x| <= 128 && DiffersOnlyIn(x, y, lo, hi)
    requires OneSees(x, Windows17To128(|x|), secret, seed, lo, hi, k)
    ensures |x| == |y| && Short64(x, secret, seed) != Short64(y, secret, seed)
  {
    hide Windows17To128, Inside, OneSees, Sum, Len17To128_64, Avalanche3, Unavalanche3, Mul64, DiffersOnlyIn;
    DifferenceRange(x, y, lo, hi);
    var ws, a := Windows17To128(|x|), Mul64(|x|, PRIME64_1);
    Mid64IsSum(x, secret, seed);
    Mid64IsSum(y, secret, seed);
    SumSees(a, x, y, secret, seed, ws, lo, hi, k);
    Avalanche3Undone(Sum(a, x, secret, seed, ws));
    Avalanche3Undone(Sum(a, y, secret, seed, ws));
  }

  /** A change that every window is silent about is lost: eight bytes beside a word that
      cancels its part of the secret do not reach the 64-bit hash. */
  lemma Mid64Loses(x: seq<byte>, y: seq<byte>, secret: Secret, seed: u64, lo: nat, hi: nat)
    requires 17 <= |x| <= 128 && DiffersOnlyIn(x, y, lo, hi)
    requires AllSilent(x, Windows17To128(|x|), secret, seed, lo, hi)
    ensures |x| == |y| && Short64(x, secret, seed) == Short64(y, secret, seed)
  {
    hide Windows17To128, Inside, AllSilent, Sum, Len17To128_64, Avalanche3, Mul64, DiffersOnlyIn;
    DifferenceRange(x, y, lo, hi);
    var a := Mul64(|x|, PRIME64_1);
    Mid64IsSum(x, secret, seed);
    Mid64IsSum(y, secret, seed);
    SumFollows(a, a, x, y, secret, seed, Windows17To128(|x|), lo, hi);
  }

  /** 129 to 240 bytes: the same, before or after the mix in the middle. */
  lemma Late64Detects(x: seq<byte>, y: seq<byte>, secret: Secret, seed: u64, lo: nat, hi: nat, k: nat)
    requires 129 <= |x| <= 240 && DiffersOnlyIn(x, y, lo, hi)
    requires || (OneSees(x, LoopWindows(0, 8), secret, seed, lo, hi, k) && AllSilent(x, LateWindows(|x|), secret, seed, lo, hi))
             || (AllSilent(x, LoopWindows(0, 8), secret, seed, lo, hi) && OneSees(x, LateWindows(|x|), secret, seed, lo, hi, k))
    ensures |x| == |y| && Short64(x, secret, seed) != Short64(y, secret, seed)
  {
    hide LoopWindows, LateWindows, Inside, OneSees, AllSilent, Sum, Len129To240_64, Avalanche3, Unavalanche3, Mul64,
         DiffersOnlyIn;
    DifferenceRange(x, y, lo, hi);
    var us, ws, a := LoopWindows(0, 8), LateWindows(|x|), Mul64(|x|, PRIME64_1);
    Late64IsSum(x, secret, seed);
    Late64IsSum(y, secret, seed);
    var s, t := Sum(a, x, secret, seed, us), Sum(a, y, secret, seed, us);
    Avalanche3Undone(s);
    Avalanche3Undone(t);
    if OneSees(x, us, secret, seed, lo, hi, k) && AllSilent(x, ws, secret, seed, lo, hi) {
      SumSees(a, x, y, secret, seed, us, lo, hi, k);
      SumFollows(Avalanche3(s), Avalanche3(t), x, y, secret, seed, ws, lo, hi);
    } else {
      SumFollows(a, a, x, y, secret, seed, us, lo, hi);
      SumSees(Avalanche3(s), x, y, secret, seed, ws, lo, hi, k);
    }
    Avalanche3Undone(Sum(Avalanche3(s), x, secret, seed, ws));
    Avalanche3Undone(Sum(Avalanche3(t), y, secret, seed, ws));
  }

  /** The word that shares window `w` with word `q` of the input, keyed. */
  function Companion(x: seq<byte>, w: Window, secret: Secret, seed: u64, q: nat): u64
    requires w.at + 16 <= |x| && w.key + 16 <= |secret|
  {
    if q % 2 == 0 then Keyed2(x, w, secret, seed) else Keyed1(x, w, secret, seed)
  }

  lemma CompanionSees(x: seq<byte>, w: Window, secret: Secret, seed: u64, q: nat)
    requires w.at == 16 * (q / 2) && w.at + 16 <= |x| && w.key + 16 <= |secret|
    requires IsPower(Companion(x, w, secret, seed, q))
    ensures Seen(x, w, secret, seed, 8 * q, 8 * q + 8)
  {
    hide Keyed1, Keyed2, IsPower;
  }

  lemma OtherSilent(x: seq<byte>, w: Window, secret: Secret, seed: u64, q: nat)
    requires w.at + 16 <= |x| && w.key + 16 <= |secret|
    requires (w.at % 16 == 0 && w.at != 16 * (q / 2)) || 8 * q + 8 <= w.at
    ensures Silent(x, w, secret, seed, 8 * q, 8 * q + 8)
  {
    hide Keyed1, Keyed2;
    OtherUntouched(w, q);
  }

  lemma OtherUntouched(w: Window, q: nat)
    requires (w.at % 16 == 0 && w.at != 16 * (q / 2)) || 8 * q + 8 <= w.at
    ensures Untouched(w, 8 * q, 8 * q + 8)
  {
    if w.at % 16 == 0 {
      var m := w.at / 16;
      assert w.at == 16 * m;
    }
  }

  /** At 32, 64, 96 and 128 bytes, where each word is in one window, every change of
      one word whose companion is a power of two changes the hash. */
  lemma AlignedWord64(x: seq<byte>, y: seq<byte>, secret: Secret, seed: u64, q: nat)
    requires |x| == 32 || |x| == 64 || |x| == 96 || |x| == 128
    requires DiffersOnlyIn(x, y, 8 * q, 8 * q + 8)
    requires forall k | 0 <= k < |Windows17To128(|x|)| && Windows17To128(|x|)[k].at == 16 * (q / 2) ::
               IsPower(Companion(x, Windows17To128(|x|)[k], secret, seed, q))
    ensures |x| == |y| && Short64(x, secret, seed) != Short64(y, secret, seed)
  {
    hide DiffersOnlyIn, Companion, IsPower, Silent, Seen, Short64, Windows17To128;
    DifferenceRange(x, y, 8 * q, 8 * q + 8);
    var ws := Windows17To128(|x|);
    var k := WindowOfWord(|x|, q);
    CompanionSees(x, ws[k], secret, seed, q);
    forall m | 0 <= m < |ws| && m != k
      ensures Silent(x, ws[m], secret, seed, 8 * q, 8 * q + 8)
    {
      OtherSilent(x, ws[m], secret, seed, q);
    }
    Mid64Detects(x, y, secret, seed, 8 * q, 8 * q + 8, k);
  }

  lemma WindowOfWord(n: nat, q: nat) returns (k: nat)
    requires (n == 32 || n == 64 || n == 96 || n == 128) && 8 * q + 8 <= n
    ensures var ws := Windows17To128(n);
            && k < |ws| && ws[k].at == 16 * (q / 2)
            && forall m | 0 <= m < |ws| && m != k :: ws[m].at % 16 == 0 && ws[m].at != 16 * (q / 2)
  {
    var ws := Windows17To128(n);
    if n == 32 {
      assert ws == [Window(0, 0), Window(16, 16)];
      k := q / 2;
    } else if n == 64 {
      assert ws == [Window(16, 32), Window(32, 48), Window(0, 0), Window(48, 16)];
      k := if q < 2 then 2 else if q < 4 then 0 else if q < 6 then 1 else 3;
    } else if n == 96 {
      assert ws == [Window(32, 64), Window(48, 80), Window(16, 32), Window(64, 48), Window(0, 0), Window(80, 16)];
      k := if q < 2 then 4 else if q < 4 then 2 else if q < 6 then 0 else if q < 8 then 1 else if q < 10 then 3 else 5;
    } else {
      assert ws == [Window(48, 96), Window(64, 112), Window(32, 64), Window(80, 80),
                    Window(16, 32), Window(96, 48), Window(0, 0), Window(112, 16)];
      k := if q < 2 then 6 else if q < 4 then 4 else if q < 6 then 2 else if q < 8 then 0
           else if q < 10 then 1 else if q < 12 then 3 else if q < 14 then 5 else 7;
    }
  }

  /** At 129 to 240 bytes the same holds of every word before the last 16 bytes. */
  lemma LateWord64(x: seq<byte>, y: seq<byte>, secret: Secret, seed: u64, q: nat)
    requires 129 <= |x| <= 240 && 8 * q + 24 <= |x| && DiffersOnlyIn(x, y, 8 * q, 8 * q + 8)
    requires var p := 16 * (q / 2);
             IsPower(Companion(x, Window(p, if p < 128 then p else p - 128 + 3), secret, seed, q))
    ensures |x| == |y| && Short64(x, secret, seed) != Short64(y, secret, seed)
  {
    hide DiffersOnlyIn, Companion, IsPower, Silent, Seen, Short64, LoopWindows, LateWindows;
    var us, ws, k := LoopWindows(0, 8), LateWindows(|x|), q / 2;
    CompanionSees(x, Window(16 * k, if k < 8 then 16 * k else 16 * (k - 8) + 3), secret, seed, q);
    OthersSilent(x, us, secret, seed, q, 0);
    OthersSilent(x, ws, secret, seed, q, 8);
    Late64Detects(x, y, secret, seed, 8 * q, 8 * q + 8, if k < 8 then k else k - 8);
  }

  lemma OthersSilent(x: seq<byte>, ws: seq<Window>, secret: Secret, seed: u64, q: nat, first: nat)
    requires Inside(ws, |x|)
    requires forall m | 0 <= m < |ws| :: ws[m].at == 16 * (first + m) || 8 * q + 8 <= ws[m].at
    ensures forall m | 0 <= m < |ws| && first + m != q / 2 :: Silent(x, ws[m], secret, seed, 8 * q, 8 * q + 8)
  {
    hide Silent;
    forall m | 0 <= m < |ws| && first + m != q / 2
      ensures Silent(x, ws[m], secret, seed, 8 * q, 8 * q + 8)
    {
      OtherSilent(x, ws[m], secret, seed, q);
    }
  }
}
