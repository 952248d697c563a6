/** XXH32 never misses a change confined to one unit of its input: an aligned
    four-byte word, or one of the last bytes that fill no word. */
module Xxh32Detect {
  import opened Bits
  import opened Words
  import opened Memory
  import opened Primes
  import opened Differences
  import opened Xxh32
  import opened Xxh32Inverse

  // ---------------------------------------------------------------- each step merges nothing

  lemma RoundInjective(a: u32, x: u32, b: u32, y: u32)
    requires a == b || x == y
    ensures Round(a, x) == Round(b, y) <==> a == b && x == y
  {
    hide Round, Unround, RoundInput;
    RoundUndone(a, x);
    RoundUndone(b, y);
  }

  lemma Process4Injective(g: u32, x: u32, h: u32, y: u32)
    requires g == h || x == y
    ensures Process4(g, x) == Process4(h, y) <==> g == h && x == y
  {
    hide Process4, Unprocess4, Process4Word;
    Process4Undone(g, x);
    Process4Undone(h, y);
  }

  lemma Process1Injective(g: u32, x: byte, h: u32, y: byte)
    requires g == h || x == y
    ensures Process1(g, x) == Process1(h, y) <==> g == h && x == y
  {
    hide Process1, Unprocess1, Process1Byte;
    Process1Undone(g, x);
    Process1Undone(h, y);
  }

  // ---------------------------------------------------------------- the tail

  /** The tail maps different states to different hashes. */
  lemma FinalizeInjective(g: u32, h: u32, tail: seq<byte>)
    ensures Finalize(g, tail) == Finalize(h, tail) <==> g == h
  {
    hide Finalize, Unfinalize;
    FinalizeUndone(g, tail);
    FinalizeUndone(h, tail);
  }

  /** `[lo, hi)` is one unit that XXH32 consumes in an input of `n` bytes. */
  predicate IsUnit(n: nat, lo: nat, hi: nat) {
    || (lo % 4 == 0 && hi == lo + 4 <= n)
    || (n - n % 4 <= lo && hi == lo + 1 <= n)
  }

  /** A change in the tail is seen by the step that consumes it and kept to the end. */
  lemma {:induction false} TailDetects(h: u32, x: seq<byte>, y: seq<byte>, lo: nat, hi: nat)
    requires DiffersOnlyIn(x, y, lo, hi) && IsUnit(|x|, lo, hi)
    ensures Finalize(h, x) != Finalize(h, y)
    decreases |x|
  {
    hide Process4, Process1, Avalanche, ReadLE32, IsUnit;
    var size := if |x| >= 4 then 4 else 1;
    UnitStep(|x|, lo, hi, size);
    if lo == 0 {
      assert x[size..] == y[size..] && x[0..size] != y[0..size];
    } else {
      SameOutside(x, y, lo, hi, 0, size);
      ShiftDifference(x, y, lo, hi, size);
    }
    WordsDiffer(x, y, 0, size);
    if |x| >= 4 {
      var u, v := ReadLE32(x, 0), ReadLE32(y, 0);
      if lo == 0 {
        Process4Injective(h, u, h, v);
        FinalizeInjective(Process4(h, u), Process4(h, v), x[4..]);
      } else {
        TailDetects(Process4(h, u), x[4..], y[4..], lo - 4, hi - 4);
      }
    } else {
      if lo == 0 {
        Process1Injective(h, x[0], h, y[0]);
        FinalizeInjective(Process1(h, x[0]), Process1(h, y[0]), x[1..]);
      } else {
        assert x[0] == x[0..1][0] == y[0..1][0] == y[0];
        TailDetects(Process1(h, x[0]), x[1..], y[1..], lo - 1, hi - 1);
      }
    }
  }

  /** A unit is the first one of the tail or a unit of the rest. */
  lemma UnitStep(n: nat, lo: nat, hi: nat, size: nat)
    requires IsUnit(n, lo, hi) && n > 0
    requires size == if n >= 4 then 4 else 1
    ensures lo == 0 ==> hi == size
    ensures lo > 0 ==> lo >= size && IsUnit(n - size, lo - size, hi - size)
  {
  }

  // ---------------------------------------------------------------- the stripes

  /** Exactly lane `j` differs. */
  predicate LaneDiffers(v: Lanes, w: Lanes, j: nat) {
    && (v.v1 != w.v1 <==> j == 0) && (v.v2 != w.v2 <==> j == 1)
    && (v.v3 != w.v3 <==> j == 2) && (v.v4 != w.v4 <==> j == 3)
  }

  /** A lane that differs still differs after the same stripe. */
  lemma StripeKeepsDifference(v: Lanes, w: Lanes, j: nat, b: seq<byte>)
    requires |b| == 16 && LaneDiffers(v, w, j)
    ensures LaneDiffers(Stripe(v, b), Stripe(w, b), j)
  {
    hide Round, ReadLE32;
    RoundInjective(v.v1, ReadLE32(b, 0), w.v1, ReadLE32(b, 0));
    RoundInjective(v.v2, ReadLE32(b, 4), w.v2, ReadLE32(b, 4));
    RoundInjective(v.v3, ReadLE32(b, 8), w.v3, ReadLE32(b, 8));
    RoundInjective(v.v4, ReadLE32(b, 12), w.v4, ReadLE32(b, 12));
  }

  /** Exactly word `j` of a stripe differs. */
  predicate WordDiffers(b: seq<byte>, c: seq<byte>, j: nat)
    requires |b| == |c| == 16
  {
    && (b[0..4] != c[0..4] <==> j == 0) && (b[4..8] != c[4..8] <==> j == 1)
    && (b[8..12] != c[8..12] <==> j == 2) && (b[12..16] != c[12..16] <==> j == 3)
  }

  /** Two stripes that differ in word `j` alone make lane `j` alone differ. */
  lemma StripeMakesDifference(v: Lanes, j: nat, b: seq<byte>, c: seq<byte>)
    requires |b| == |c| == 16 && WordDiffers(b, c, j)
    ensures LaneDiffers(Stripe(v, b), Stripe(v, c), j)
  {
    hide Round, ReadLE32;
    WordsDiffer(b, c, 0, 4);
    WordsDiffer(b, c, 4, 4);
    WordsDiffer(b, c, 8, 4);
    WordsDiffer(b, c, 12, 4);
    RoundInjective(v.v1, ReadLE32(b, 0), v.v1, ReadLE32(c, 0));
    RoundInjective(v.v2, ReadLE32(b, 4), v.v2, ReadLE32(c, 4));
    RoundInjective(v.v3, ReadLE32(b, 8), v.v3, ReadLE32(c, 8));
    RoundInjective(v.v4, ReadLE32(b, 12), v.v4, ReadLE32(c, 12));
  }

  /** After the stripe with the changed word, exactly that word's lane differs;
      before it, none does. */
  lemma {:induction false} StripesDetect(seed: u32, x: seq<byte>, y: seq<byte>, k: nat, j: nat, n: nat)
    requires 16 * n <= |x| && j < 4
    requires DiffersOnlyIn(x, y, 16 * k + 4 * j, 16 * k + 4 * j + 4)
    ensures n <= k ==> Consume(seed, x, n) == Consume(seed, y, n)
    ensures n > k ==> LaneDiffers(Consume(seed, x, n), Consume(seed, y, n), j)
  {
    hide Stripe, LaneDiffers, WordDiffers;
    if n > 0 {
      StripesDetect(seed, x, y, k, j, n - 1);
      var lo := 16 * k + 4 * j;
      var b, c := x[16 * (n - 1)..16 * n], y[16 * (n - 1)..16 * n];
      if n - 1 == k {
        ChangedStripe(x, y, k, j);
        StripeMakesDifference(Consume(seed, x, k), j, b, c);
      } else {
        SameOutside(x, y, lo, lo + 4, 16 * (n - 1), 16 * n);
        if n - 1 > k {
          StripeKeepsDifference(Consume(seed, x, n - 1), Consume(seed, y, n - 1), j, b);
        }
      }
    }
  }

  lemma ChangedStripe(x: seq<byte>, y: seq<byte>, k: nat, j: nat)
    requires 16 * k + 16 <= |x| && j < 4
    requires DiffersOnlyIn(x, y, 16 * k + 4 * j, 16 * k + 4 * j + 4)
    ensures WordDiffers(x[16 * k..16 * k + 16], y[16 * k..16 * k + 16], j)
  {
    ChangedWord(x, y, k, j, 0);
    ChangedWord(x, y, k, j, 1);
    ChangedWord(x, y, k, j, 2);
    ChangedWord(x, y, k, j, 3);
  }

  lemma ChangedWord(x: seq<byte>, y: seq<byte>, k: nat, j: nat, m: nat)
    requires 16 * k + 16 <= |x| && j < 4 && m < 4
    requires DiffersOnlyIn(x, y, 16 * k + 4 * j, 16 * k + 4 * j + 4)
    ensures x[16 * k..16 * k + 16][4 * m..4 * m + 4] != y[16 * k..16 * k + 16][4 * m..4 * m + 4] <==> m == j
  {
    var p, lo := 16 * k + 4 * m, 16 * k + 4 * j;
    ReadOfSlice(x, 16 * k, 16, 4 * m, 4);
    ReadOfSlice(y, 16 * k, 16, 4 * m, 4);
    if m != j { SameOutside(x, y, lo, lo + 4, p, p + 4); }
  }

  /** The merge of the lanes sees a difference in one of them. */
  lemma MergeDetects(v: Lanes, w: Lanes, j: nat)
    requires j < 4 && LaneDiffers(v, w, j)
    ensures Merge(v) != Merge(w)
  {
    hide Rotl32, Add32;
    var a, b := Rotl32(v.v1, 1), Rotl32(w.v1, 1);
    var c, d := Rotl32(v.v2, 7), Rotl32(w.v2, 7);
    var e, f := Rotl32(v.v3, 12), Rotl32(w.v3, 12);
    var g, h := Rotl32(v.v4, 18), Rotl32(w.v4, 18);
    Rotl32Undo(v.v1, 1);
    Rotl32Undo(w.v1, 1);
    Rotl32Undo(v.v2, 7);
    Rotl32Undo(w.v2, 7);
    Rotl32Undo(v.v3, 12);
    Rotl32Undo(w.v3, 12);
    Rotl32Undo(v.v4, 18);
    Rotl32Undo(w.v4, 18);
    SumKeeps(a, c, b, d);
    SumKeeps(Add32(a, c), e, Add32(b, d), f);
    SumKeeps(Add32(Add32(a, c), e), g, Add32(Add32(b, d), f), h);
  }

  lemma SumKeeps(a: u32, c: u32, b: u32, d: u32)
    ensures a == b ==> (Add32(a, c) == Add32(b, d) <==> c == d)
    ensures c == d ==> (Add32(a, c) == Add32(b, d) <==> a == b)
  {
  }

  // ---------------------------------------------------------------- main results

  /** Two inputs of one length, of any length, that differ only inside one unit
      have different hashes under every seed. */
  lemma UnitChangeDetected(x: seq<byte>, y: seq<byte>, seed: u32, lo: nat, hi: nat)
    requires DiffersOnlyIn(x, y, lo, hi) && IsUnit(|x|, lo, hi)
    ensures Hash(x, seed) != Hash(y, seed)
  {
    if lo < 16 * (|x| / 16) {
      StripeChange(x, y, seed, lo, hi);
    } else {
      TailChange(x, y, seed, lo, hi);
    }
  }

  lemma StripeChange(x: seq<byte>, y: seq<byte>, seed: u32, lo: nat, hi: nat)
    requires DiffersOnlyIn(x, y, lo, hi) && IsUnit(|x|, lo, hi) && lo < 16 * (|x| / 16)
    ensures Hash(x, seed) != Hash(y, seed)
  {
    hide Start, Finalize, Wrap32, IsUnit, Add32, DiffersOnlyIn;
    DifferenceRange(x, y, lo, hi);
    var m := 16 * (|x| / 16);
    StartDetects(x, y, seed, lo, hi);
    SumKeeps(Start(x, seed), Wrap32(|x|), Start(y, seed), Wrap32(|x|));
    SameOutside(x, y, lo, hi, m, |x|);
    assert x[m..] == x[m..|x|] && y[m..] == y[m..|x|];
    FinalizeInjective(Add32(Start(x, seed), Wrap32(|x|)), Add32(Start(y, seed), Wrap32(|x|)), x[m..]);
  }

  lemma TailChange(x: seq<byte>, y: seq<byte>, seed: u32, lo: nat, hi: nat)
    requires DiffersOnlyIn(x, y, lo, hi) && IsUnit(|x|, lo, hi) && lo >= 16 * (|x| / 16)
    ensures Hash(x, seed) != Hash(y, seed)
  {
    hide Start, Finalize, Wrap32, IsUnit, Add32, DiffersOnlyIn;
    DifferenceRange(x, y, lo, hi);
    var m := 16 * (|x| / 16);
    ShiftDifference(x, y, lo, hi, m);
    SamePrefix(seed, x, y, |x| / 16);
    UnitInTail(x, m, lo, hi);
    TailDetects(Add32(Start(x, seed), Wrap32(|x|)), x[m..], y[m..], lo - m, hi - m);
  }

  lemma Mod4Of16(n: nat)
    ensures n % 4 == n % 16 % 4
  {
    DivModUnique(4 * (n / 16) + n % 16 / 4, n % 16 % 4, 4, n);
  }

  lemma UnitInTail(x: seq<byte>, m: nat, lo: nat, hi: nat)
    requires IsUnit(|x|, lo, hi) && m == 16 * (|x| / 16) <= lo
    ensures IsUnit(|x[m..]|, lo - m, hi - m)
  {
    Mod4Of16(|x|);
    if lo % 4 == 0 {
      DivModUnique(lo / 4 - 4 * (|x| / 16), 0, 4, lo - m);
    }
  }

  lemma UnitInStripe(n: nat, lo: nat, hi: nat)
    requires IsUnit(n, lo, hi) && lo < 16 * (n / 16)
    ensures lo == 16 * (lo / 16) + 4 * (lo % 16 / 4) && hi == lo + 4 <= 16 * (n / 16)
    ensures lo / 16 < n / 16 && lo % 16 / 4 < 4
  {
    Mod4Of16(n);
    Mod4Of16(lo);
  }

  lemma StartDetects(x: seq<byte>, y: seq<byte>, seed: u32, lo: nat, hi: nat)
    requires DiffersOnlyIn(x, y, lo, hi) && IsUnit(|x|, lo, hi) && lo < 16 * (|x| / 16)
    ensures Start(x, seed) != Start(y, seed) && hi <= 16 * (|x| / 16)
  {
    hide Merge, Consume, LaneDiffers, IsUnit;
    UnitInStripe(|x|, lo, hi);
    var n, k, j := |x| / 16, lo / 16, lo % 16 / 4;
    StripesDetect(seed, x, y, k, j, n);
    MergeDetects(Consume(seed, x, n), Consume(seed, y, n), j);
  }

  lemma SamePrefix(seed: u32, x: seq<byte>, y: seq<byte>, n: nat)
    requires 16 * n <= |x| && 16 * n <= |y| && x[..16 * n] == y[..16 * n]
    ensures Consume(seed, x, n) == Consume(seed, y, n)
    ensures n == |x| / 16 == |y| / 16 ==> Start(x, seed) == Start(y, seed)
  {
    hide Merge;
    assert x == x[..16 * n] + x[16 * n..] && y == y[..16 * n] + y[16 * n..];
    ConsumePrefix(seed, x[..16 * n], x[16 * n..], n);
    ConsumePrefix(seed, y[..16 * n], y[16 * n..], n);
  }

  /** Every change of a single byte, anywhere in an input of any length, is seen. */
  lemma ByteChangeDetected(x: seq<byte>, y: seq<byte>, seed: u32, i: nat)
    requires i < |x| == |y| && x[i] != y[i]
    requires forall m | 0 <= m < |x| && m != i :: x[m] == y[m]
    ensures Hash(x, seed) != Hash(y, seed)
  {
    hide Hash;
    var lo := if i < |x| - |x| % 4 then i - i % 4 else i;
    var hi := if i < |x| - |x| % 4 then lo + 4 else i + 1;
    assert x[lo..hi][i - lo] != y[lo..hi][i - lo];
    UnitChangeDetected(x, y, seed, lo, hi);
  }

  // ---------------------------------------------------------------- seed and length

  /** Two inputs that end in the same tail, whatever their lengths and seeds, have
      the same hash exactly when their starts plus their lengths agree. */
  lemma SameTailCollides(x: seq<byte>, s: u32, y: seq<byte>, t: u32)
    requires x[16 * (|x| / 16)..] == y[16 * (|y| / 16)..]
    ensures Hash(x, s) == Hash(y, t)
       <==> Add32(Start(x, s), Wrap32(|x|)) == Add32(Start(y, t), Wrap32(|y|))
  {
    hide Start, Finalize, Add32, Wrap32;
    FinalizeInjective(Add32(Start(x, s), Wrap32(|x|)), Add32(Start(y, t), Wrap32(|y|)), x[16 * (|x| / 16)..]);
  }

  /** On an input shorter than a stripe different seeds give different hashes. */
  lemma SeedDetected(data: seq<byte>, s: u32, t: u32)
    requires |data| < 16
    ensures Hash(data, s) == Hash(data, t) <==> s == t
  {
    hide Hash, SeedOf;
    SeedRecovered(data, s);
    SeedRecovered(data, t);
  }

  /** On longer ones different seeds keep all four lanes apart, stripe after stripe. */
  lemma {:induction false} SeedKept(data: seq<byte>, s: u32, t: u32, n: nat)
    requires 16 * n <= |data| && s != t
    ensures var v, w := Consume(s, data, n), Consume(t, data, n);
            v.v1 != w.v1 && v.v2 != w.v2 && v.v3 != w.v3 && v.v4 != w.v4
  {
    hide Round, ReadLE32, Add32, Sub32;
    if n == 0 {
      SumKeeps(s, PRIME32_1, t, PRIME32_1);
      SumKeeps(Add32(s, PRIME32_1), PRIME32_2, Add32(t, PRIME32_1), PRIME32_2);
      SumKeeps(s, PRIME32_2, t, PRIME32_2);
      SumUndo32(s, PRIME32_1);
      SumUndo32(t, PRIME32_1);
    } else {
      SeedKept(data, s, t, n - 1);
      var v, w, b := Consume(s, data, n - 1), Consume(t, data, n - 1), data[16 * (n - 1)..16 * n];
      RoundInjective(v.v1, ReadLE32(b, 0), w.v1, ReadLE32(b, 0));
      RoundInjective(v.v2, ReadLE32(b, 4), w.v2, ReadLE32(b, 4));
      RoundInjective(v.v3, ReadLE32(b, 8), w.v3, ReadLE32(b, 8));
      RoundInjective(v.v4, ReadLE32(b, 12), w.v4, ReadLE32(b, 12));
    }
  }
}
