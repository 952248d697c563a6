/** The 17-to-240 variants as sums over windows of 16 bytes: which bytes of the
    input and of the secret they read. */
module Xxh3Coverage {
  import opened Words
  import opened Primes
  import opened Memory
  import opened Canonical
  import opened Xxh3Short
  import opened Xxh3Long

  /** 16 input bytes from `at`, mixed with 16 secret bytes from `key`. */
  datatype Window = Window(at: nat, key: nat)

  /** Windows `at` and `second`, mixed with 32 secret bytes from `key`. */
  datatype Pair = Pair(at: nat, second: nat, key: nat)

  predicate Inside(ws: seq<Window>, n: nat) {
    forall k | 0 <= k < |ws| :: ws[k].at + 16 <= n && ws[k].key + 16 <= 136
  }

  predicate PairsInside(ps: seq<Pair>, n: nat) {
    forall k | 0 <= k < |ps| :: ps[k].at + 16 <= n && ps[k].second + 16 <= n && ps[k].key + 32 <= 136
  }

  ghost predicate Covers(ws: seq<Window>, i: nat) {
    exists k :: 0 <= k < |ws| && ws[k].at <= i < ws[k].at + 16
  }

  ghost predicate PairsCover(ps: seq<Pair>, i: nat) {
    exists k :: 0 <= k < |ps| && (ps[k].at <= i < ps[k].at + 16 || ps[k].second <= i < ps[k].second + 16)
  }

  // ---------------------------------------------------------------- the sums

  function Sum(acc: u64, input: seq<byte>, secret: Secret, seed: u64, ws: seq<Window>): u64
    requires Inside(ws, |input|)
    decreases |ws|
  {
    if ws == [] then acc
    else
      var last := ws[|ws| - 1];
      Add64(Sum(acc, input, secret, seed, ws[..|ws| - 1]), Mix16B(input, last.at, secret, last.key, seed))
  }

  function PairSum(acc: Hash128, input: seq<byte>, secret: Secret, seed: u64, ps: seq<Pair>): Hash128
    requires PairsInside(ps, |input|)
    decreases |ps|
  {
    if ps == [] then acc
    else
      var last := ps[|ps| - 1];
      Mix32B(PairSum(acc, input, secret, seed, ps[..|ps| - 1]), input, last.at, last.second, secret, last.key, seed)
  }

  lemma SumSnoc(acc: u64, input: seq<byte>, secret: Secret, seed: u64, ws: seq<Window>, w: Window)
    requires Inside(ws, |input|) && w.at + 16 <= |input| && w.key + 16 <= 136
    ensures Inside(ws + [w], |input|)
    ensures Sum(acc, input, secret, seed, ws + [w])
         == Add64(Sum(acc, input, secret, seed, ws), Mix16B(input, w.at, secret, w.key, seed))
  {
    hide Mix16B, Add64;
    assert (ws + [w])[..|ws|] == ws;
  }

  lemma PairSumSnoc(acc: Hash128, input: seq<byte>, secret: Secret, seed: u64, ps: seq<Pair>, p: Pair)
    requires PairsInside(ps, |input|) && p.at + 16 <= |input| && p.second + 16 <= |input| && p.key + 32 <= 136
    ensures PairsInside(ps + [p], |input|)
    ensures PairSum(acc, input, secret, seed, ps + [p])
         == Mix32B(PairSum(acc, input, secret, seed, ps), input, p.at, p.second, secret, p.key, seed)
  {
    hide Mix32B;
    assert (ps + [p])[..|ps|] == ps;
  }

  lemma PairSumEmpty(acc: Hash128, input: seq<byte>, secret: Secret, seed: u64)
    ensures PairSum(acc, input, secret, seed, []) == acc
  {
  }

  // ---------------------------------------------------------------- 17 to 128 bytes

  function Windows17To128(n: nat): (ws: seq<Window>)
    requires 17 <= n <= 128
    ensures Inside(ws, n)
  {
    var w1 := if n <= 96 then [] else [] + [Window(48, 96)] + [Window(n - 64, 112)];
    var w2 := if n <= 64 then w1 else w1 + [Window(32, 64)] + [Window(n - 48, 80)];
    var w3 := if n <= 32 then w2 else w2 + [Window(16, 32)] + [Window(n - 32, 48)];
    w3 + [Window(0, 0)] + [Window(n - 16, 16)]
  }

  function Pairs17To128(n: nat): (ps: seq<Pair>)
    requires 17 <= n <= 128
    ensures PairsInside(ps, n)
  {
    var p1 := if n <= 96 then [] else [] + [Pair(48, n - 64, 96)];
    var p2 := if n <= 64 then p1 else p1 + [Pair(32, n - 48, 64)];
    var p3 := if n <= 32 then p2 else p2 + [Pair(16, n - 32, 32)];
    p3 + [Pair(0, n - 16, 0)]
  }

  lemma AddTwo(acc: u64, input: seq<byte>, secret: Secret, seed: u64, ws: seq<Window>, v: Window, w: Window)
    requires Inside(ws, |input|)
    requires v.at + 16 <= |input| && v.key + 16 <= 136 && w.at + 16 <= |input| && w.key + 16 <= 136
    ensures Inside(ws + [v] + [w], |input|)
    ensures Sum(acc, input, secret, seed, ws + [v] + [w])
         == Add64(Add64(Sum(acc, input, secret, seed, ws), Mix16B(input, v.at, secret, v.key, seed)),
                  Mix16B(input, w.at, secret, w.key, seed))
  {
    hide Mix16B, Add64, Sum;
    SumSnoc(acc, input, secret, seed, ws, v);
    SumSnoc(acc, input, secret, seed, ws + [v], w);
  }

  /** The nested conditions of the 17-to-128 variants add up exactly these windows. */
  lemma Mid64IsSum(input: seq<byte>, secret: Secret, seed: u64)
    requires 17 <= |input| <= 128
    ensures Inside(Windows17To128(|input|), |input|)
    ensures Len17To128_64(input, secret, seed)
         == Avalanche3(Sum(Mul64(|input|, PRIME64_1), input, secret, seed, Windows17To128(|input|)))
  {
    hide Mix16B, Add64, Avalanche3, Mul64, Inside;
    var n, a := |input|, Mul64(|input|, PRIME64_1);
    Empty(n);
    var w1 := if n <= 96 then [] else [] + [Window(48, 96)] + [Window(n - 64, 112)];
    var w2 := if n <= 64 then w1 else w1 + [Window(32, 64)] + [Window(n - 48, 80)];
    var w3 := if n <= 32 then w2 else w2 + [Window(16, 32)] + [Window(n - 32, 48)];
    if n > 96 { AddTwo(a, input, secret, seed, [], Window(48, 96), Window(n - 64, 112)); }
    if n > 64 { AddTwo(a, input, secret, seed, w1, Window(32, 64), Window(n - 48, 80)); }
    if n > 32 { AddTwo(a, input, secret, seed, w2, Window(16, 32), Window(n - 32, 48)); }
    AddTwo(a, input, secret, seed, w3, Window(0, 0), Window(n - 16, 16));
  }

  lemma Mid128IsSum(input: seq<byte>, secret: Secret, seed: u64)
    requires 17 <= |input| <= 128
    ensures PairsInside(Pairs17To128(|input|), |input|)
    ensures Len17To128_128(input, secret, seed)
         == Xxh3Short.Finish128(PairSum(Hash128(Mul64(|input|, PRIME64_1), 0), input, secret, seed,
                                        Pairs17To128(|input|)), |input|, seed)
  {
    hide Mix32B, Mul64, Xxh3Short.Finish128, PairsInside, PairSum;
    var n, a := |input|, Hash128(Mul64(|input|, PRIME64_1), 0);
    Empty(n);
    PairSumEmpty(a, input, secret, seed);
    var p1 := if n <= 96 then [] else [] + [Pair(48, n - 64, 96)];
    var p2 := if n <= 64 then p1 else p1 + [Pair(32, n - 48, 64)];
    var p3 := if n <= 32 then p2 else p2 + [Pair(16, n - 32, 32)];
    if n > 96 { PairSumSnoc(a, input, secret, seed, [], Pair(48, n - 64, 96)); }
    if n > 64 { PairSumSnoc(a, input, secret, seed, p1, Pair(32, n - 48, 64)); }
    if n > 32 { PairSumSnoc(a, input, secret, seed, p2, Pair(16, n - 32, 32)); }
    PairSumSnoc(a, input, secret, seed, p3, Pair(0, n - 16, 0));
  }

  lemma Empty(n: nat)
    ensures Inside([], n) && PairsInside([], n)
  {
  }

  /** Every byte of 17 to 128 lies in one of the windows, in both widths. */
  lemma MidCovered(n: nat, i: nat)
    requires 17 <= n <= 128 && i < n
    ensures Covers(Windows17To128(n), i) && PairsCover(Pairs17To128(n), i)
  {
    var ws, ps := Windows17To128(n), Pairs17To128(n);
    assert ws[|ws| - 1] == Window(n - 16, 16) && ws[|ws| - 2] == Window(0, 0) && ps[|ps| - 1] == Pair(0, n - 16, 0);
    if n > 32 {
      assert ws[|ws| - 3] == Window(n - 32, 48) && ws[|ws| - 4] == Window(16, 32);
      assert ps[|ps| - 2] == Pair(16, n - 32, 32);
    }
    if n > 64 {
      assert ws[|ws| - 5] == Window(n - 48, 80) && ws[|ws| - 6] == Window(32, 64);
      assert ps[|ps| - 3] == Pair(32, n - 48, 64);
    }
    if n > 96 {
      assert ws[|ws| - 7] == Window(n - 64, 112) && ws[|ws| - 8] == Window(48, 96);
      assert ps[|ps| - 4] == Pair(48, n - 64, 96);
    }
  }

  // ---------------------------------------------------------------- 129 to 240 bytes

  /** Windows `lo` up to `hi` of the loop; the secret restarts at offset 3 after eight. */
  function LoopWindows(lo: nat, hi: nat): (ws: seq<Window>)
    requires lo <= hi <= 15 && (hi <= 8 || lo >= 8)
    ensures |ws| == hi - lo && Inside(ws, 16 * hi)
    ensures forall k | 0 <= k < hi - lo ::
              ws[k] == Window(16 * (lo + k), if hi <= 8 then 16 * (lo + k) else 16 * (lo + k - 8) + 3)
    decreases hi
  {
    if lo == hi then []
    else LoopWindows(lo, hi - 1) + [Window(16 * (hi - 1), if hi <= 8 then 16 * (hi - 1) else 16 * (hi - 9) + 3)]
  }

  function LoopPairs(lo: nat, hi: nat): (ps: seq<Pair>)
    requires lo <= hi <= 7 && (hi <= 4 || lo >= 4)
    ensures |ps| == hi - lo && PairsInside(ps, 32 * hi)
    ensures forall k | 0 <= k < hi - lo ::
              ps[k] == Pair(32 * (lo + k), 32 * (lo + k) + 16, if hi <= 4 then 32 * (lo + k) else 32 * (lo + k - 4) + 3)
    decreases hi
  {
    if lo == hi then []
    else LoopPairs(lo, hi - 1)
         + [Pair(32 * (hi - 1), 32 * (hi - 1) + 16, if hi <= 4 then 32 * (hi - 1) else 32 * (hi - 5) + 3)]
  }

  lemma {:induction false} RoundsAreSums(input: seq<byte>, secret: Secret, seed: u64, i: nat)
    requires 129 <= |input| <= 240 && i <= |input| / 16
    ensures i <= 8 ==> Inside(LoopWindows(0, i), |input|)
    ensures i < 8 ==> Rounds64(input, secret, seed, i)
                      == Sum(Mul64(|input|, PRIME64_1), input, secret, seed, LoopWindows(0, i))
    ensures i == 8 ==> Rounds64(input, secret, seed, 8)
                       == Avalanche3(Sum(Mul64(|input|, PRIME64_1), input, secret, seed, LoopWindows(0, 8)))
    ensures i >= 8 ==> Inside(LoopWindows(8, i), |input|)
    ensures i >= 8 ==> Rounds64(input, secret, seed, i)
                       == Sum(Rounds64(input, secret, seed, 8), input, secret, seed, LoopWindows(8, i))
  {
    hide Mix16B, Add64, Avalanche3, Mul64;
    if i > 0 {
      RoundsAreSums(input, secret, seed, i - 1);
      if i <= 8 {
        SumSnoc(Mul64(|input|, PRIME64_1), input, secret, seed, LoopWindows(0, i - 1), Window(16 * (i - 1), 16 * (i - 1)));
      } else {
        SumSnoc(Rounds64(input, secret, seed, 8), input, secret, seed, LoopWindows(8, i - 1),
                Window(16 * (i - 1), 16 * (i - 9) + 3));
      }
    }
  }

  lemma {:induction false} RoundsArePairSums(input: seq<byte>, secret: Secret, seed: u64, i: nat)
    requires 129 <= |input| <= 240 && i <= |input| / 32
    ensures i <= 4 ==> PairsInside(LoopPairs(0, i), |input|)
    ensures i < 4 ==> Rounds128(input, secret, seed, i)
                      == PairSum(Hash128(Mul64(|input|, PRIME64_1), 0), input, secret, seed, LoopPairs(0, i))
    ensures i == 4 ==> var s := PairSum(Hash128(Mul64(|input|, PRIME64_1), 0), input, secret, seed, LoopPairs(0, 4));
                       Rounds128(input, secret, seed, 4) == Hash128(Avalanche3(s.low64), Avalanche3(s.high64))
    ensures i >= 4 ==> PairsInside(LoopPairs(4, i), |input|)
    ensures i >= 4 ==> Rounds128(input, secret, seed, i)
                       == PairSum(Rounds128(input, secret, seed, 4), input, secret, seed, LoopPairs(4, i))
  {
    hide Mix32B, Avalanche3, Mul64, PairSum, PairsInside;
    Empty(|input|);
    PairSumEmpty(Hash128(Mul64(|input|, PRIME64_1), 0), input, secret, seed);
    if i == 4 { PairSumEmpty(Rounds128(input, secret, seed, 4), input, secret, seed); }
    if i > 0 {
      RoundsArePairSums(input, secret, seed, i - 1);
      var p := 32 * (i - 1);
      if i <= 4 {
        PairSumSnoc(Hash128(Mul64(|input|, PRIME64_1), 0), input, secret, seed, LoopPairs(0, i - 1), Pair(p, p + 16, p));
      } else {
        PairSumSnoc(Rounds128(input, secret, seed, 4), input, secret, seed, LoopPairs(4, i - 1),
                    Pair(p, p + 16, 32 * (i - 5) + 3));
      }
    }
  }

  /** The windows after the mix in the middle: the second loop and the last 16 bytes. */
  function LateWindows(n: nat): (ws: seq<Window>)
    requires 129 <= n <= 240
    ensures |ws| == n / 16 - 7 && Inside(ws, n)
    ensures forall k | 0 <= k < n / 16 - 8 :: ws[k] == Window(16 * (8 + k), 16 * k + 3)
    ensures ws[n / 16 - 8] == Window(n - 16, 119)
  {
    LoopWindows(8, n / 16) + [Window(n - 16, 119)]
  }

  lemma Late64IsSum(input: seq<byte>, secret: Secret, seed: u64)
    requires 129 <= |input| <= 240
    ensures Inside(LoopWindows(0, 8), |input|) && Inside(LateWindows(|input|), |input|)
    ensures Len129To240_64(input, secret, seed)
         == Avalanche3(Sum(Avalanche3(Sum(Mul64(|input|, PRIME64_1), input, secret, seed, LoopWindows(0, 8))),
                           input, secret, seed, LateWindows(|input|)))
  {
    hide Mix16B, Add64, Avalanche3, Mul64, Rounds64, Inside, Sum, LoopWindows;
    var n := |input|;
    RoundsAreSums(input, secret, seed, 8);
    RoundsAreSums(input, secret, seed, n / 16);
    SumSnoc(Rounds64(input, secret, seed, 8), input, secret, seed, LoopWindows(8, n / 16), Window(n - 16, 119));
  }

  /** The pairs before the mix in the middle, those after it, and the last one. */
  function EarlyPairs(n: nat): (ps: seq<Pair>)
    requires 129 <= n <= 240
    ensures PairsInside(ps, n) && |ps| == 4
    ensures forall k | 0 <= k < 4 :: ps[k] == Pair(32 * k, 32 * k + 16, 32 * k)
  {
    LoopPairs(0, 4)
  }

  function LatePairs(n: nat): (ps: seq<Pair>)
    requires 129 <= n <= 240
    ensures PairsInside(ps, n) && |ps| == n / 32 - 4
    ensures forall k | 0 <= k < n / 32 - 4 :: ps[k] == Pair(32 * (4 + k), 32 * (4 + k) + 16, 32 * k + 3)
  {
    LoopPairs(4, n / 32)
  }

  function LastPair(n: nat): (ps: seq<Pair>)
    requires 129 <= n <= 240
    ensures PairsInside(ps, n)
  {
    [Pair(n - 16, n - 32, 103)]
  }

  /** The accumulators that the final mix is given in 128 bits: the last pair is mixed
      with the negated seed. */
  function MidAccs(x: seq<byte>, secret: Secret, seed: u64): Hash128
    requires 17 <= |x| <= 128
  {
    PairSum(Hash128(Mul64(|x|, PRIME64_1), 0), x, secret, seed, Pairs17To128(|x|))
  }

  function EarlyAccs(x: seq<byte>, secret: Secret, seed: u64): Hash128
    requires 129 <= |x| <= 240
  {
    PairSum(Hash128(Mul64(|x|, PRIME64_1), 0), x, secret, seed, EarlyPairs(|x|))
  }

  function MixBoth(h: Hash128): Hash128 { Hash128(Avalanche3(h.low64), Avalanche3(h.high64)) }

  function LateAccs(x: seq<byte>, secret: Secret, seed: u64): Hash128
    requires 129 <= |x| <= 240
  {
    PairSum(PairSum(MixBoth(EarlyAccs(x, secret, seed)), x, secret, seed, LatePairs(|x|)),
            x, secret, Sub64(0, seed), LastPair(|x|))
  }

  lemma Late128IsSum(input: seq<byte>, secret: Secret, seed: u64)
    requires 129 <= |input| <= 240
    ensures Len129To240_128(input, secret, seed)
         == Xxh3Short.Finish128(LateAccs(input, secret, seed), |input|, seed)
  {
    hide Mix32B, Avalanche3, Mul64, Rounds128, PairsInside, PairSum, Sub64, Xxh3Short.Finish128, LoopPairs;
    var n := |input|;
    RoundsArePairSums(input, secret, seed, 4);
    RoundsArePairSums(input, secret, seed, n / 32);
    var t := Rounds128(input, secret, seed, n / 32);
    Empty(n);
    PairSumSnoc(t, input, secret, Sub64(0, seed), [], Pair(n - 16, n - 32, 103));
    PairSumEmpty(t, input, secret, Sub64(0, seed));
    assert [] + [Pair(n - 16, n - 32, 103)] == LastPair(n);
  }

  /** Every byte of 129 to 240 lies in a window of the first loop or a later one, and
      every byte of a longer input in a whole stripe or in the last 64 bytes. */
  lemma LongCovered(n: nat, i: nat)
    requires i < n
    ensures 129 <= n <= 240 ==> Covers(LoopWindows(0, 8), i) || Covers(LateWindows(n), i)
    ensures 129 <= n <= 240 ==>
              PairsCover(EarlyPairs(n), i) || PairsCover(LatePairs(n), i) || PairsCover(LastPair(n), i)
    ensures n > 240 ==> i < 64 * ((n - 1) / 64) || n - 64 <= i
  {
    if 129 <= n <= 240 {
      var k, m := i / 16, i / 32;
      if k < 8 {
        assert LoopWindows(0, 8)[k].at == 16 * k;
      } else if k < n / 16 {
        assert LateWindows(n)[k - 8].at == 16 * k;
      } else {
        assert LateWindows(n)[n / 16 - 8].at <= i;
      }
      if m < 4 {
        assert EarlyPairs(n)[m].at == 32 * m;
      } else if m < n / 32 {
        assert LatePairs(n)[m - 4].at == 32 * m;
      } else {
        assert LastPair(n)[0].second <= i;
      }
    }
  }
}
