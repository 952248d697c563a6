/** XXH64 never misses a change confined to one unit of its tail: the bytes after
    the last whole stripe, that is, the whole input when it is shorter than 32. A
    changed word in a stripe keeps its lane different up to the merge. */
module Xxh64Detect {
  import opened Bits
  import opened Words
  import opened Memory
  import opened Primes
  import opened Differences
  import opened Xxh64
  import opened Xxh64Inverse

  // ---------------------------------------------------------------- each step merges nothing

  lemma RoundInjective(a: u64, x: u64, b: u64, y: u64)
    requires a == b || x == y
    ensures Round(a, x) == Round(b, y) <==> a == b && x == y
  {
    hide Round, Unround, RoundInput;
    RoundUndone(a, x);
    RoundUndone(b, y);
  }

  lemma MergeRoundInjective(a: u64, x: u64, b: u64, y: u64)
    requires a == b || x == y
    ensures MergeRound(a, x) == MergeRound(b, y) <==> a == b && x == y
  {
    hide MergeRound, Unmerge, MergedLane;
    MergeUndone(a, x);
    MergeUndone(b, y);
  }

  lemma Process8Injective(g: u64, x: u64, h: u64, y: u64)
    requires g == h || x == y
    ensures Process8(g, x) == Process8(h, y) <==> g == h && x == y
  {
    hide Process8, Unprocess8, Process8Word;
    Process8Undone(g, x);
    Process8Undone(h, y);
  }

  lemma Process4Injective(g: u64, x: u32, h: u64, y: u32)
    requires g == h || x == y
    ensures Process4(g, x) == Process4(h, y) <==> g == h && x == y
  {
    hide Process4, Unprocess4, Process4Word;
    Process4Undone(g, x);
    Process4Undone(h, y);
  }

  lemma Process1Injective(g: u64, x: byte, h: u64, y: byte)
    requires g == h || x == y
    ensures Process1(g, x) == Process1(h, y) <==> g == h && x == y
  {
    hide Process1, Unprocess1, Process1Byte;
    Process1Undone(g, x);
    Process1Undone(h, y);
  }

  // ---------------------------------------------------------------- the tail

  /** The tail maps different states to different hashes. */
  lemma FinalizeInjective(g: u64, h: u64, tail: seq<byte>)
    ensures Finalize(g, tail) == Finalize(h, tail) <==> g == h
  {
    hide Finalize, Unfinalize;
    FinalizeUndone(g, tail);
    FinalizeUndone(h, tail);
  }

  /** `[lo, hi)` is one unit that the finalization consumes in a tail of `n` bytes. */
  predicate IsUnit(n: nat, lo: nat, hi: nat) {
    || (lo % 8 == 0 && hi == lo + 8 <= n)
    || (n % 8 >= 4 && lo == n - n % 8 && hi == lo + 4)
    || (n - n % 4 <= lo && hi == lo + 1 <= n)
  }

  /** A change in the tail is seen by the step that consumes it and kept to the end. */
  lemma {:induction false} TailDetects(h: u64, x: seq<byte>, y: seq<byte>, lo: nat, hi: nat)
    requires DiffersOnlyIn(x, y, lo, hi) && IsUnit(|x|, lo, hi)
    ensures Finalize(h, x) != Finalize(h, y)
    decreases |x|
  {
    hide Process8, Process4, Process1, Avalanche, ReadLE64, ReadLE32;
    var size := if |x| >= 8 then 8 else if |x| >= 4 then 4 else 1;
    UnitStep(|x|, lo, hi, size);
    if lo == 0 {
      assert x[size..] == y[size..] && x[0..size] != y[0..size];
    } else {
      SameOutside(x, y, lo, hi, 0, size);
      ShiftDifference(x, y, lo, hi, size);
    }
    WordsDiffer(x, y, 0, size);
    if |x| >= 8 {
      var u, v := ReadLE64(x, 0), ReadLE64(y, 0);
      if lo == 0 {
        Process8Injective(h, u, h, v);
        FinalizeInjective(Process8(h, u), Process8(h, v), x[8..]);
      } else {
        TailDetects(Process8(h, u), x[8..], y[8..], lo - 8, hi - 8);
      }
    } else if |x| >= 4 {
      var u, v := ReadLE32(x, 0), ReadLE32(y, 0);
      if lo == 0 {
        Process4Injective(h, u, h, v);
        FinalizeInjective(Process4(h, u), Process4(h, v), x[4..]);
      } else {
        TailDetects(Process4(h, u), x[4..], y[4..], lo - 4, hi - 4);
      }
    } else {
      if lo == 0 {
        Process1Injective(h, x[0], h, y[0]);
        FinalizeInjective(Process1(h, x[0]), Process1(h, y[0]), x[1..]);
      } else {
        assert x[0] == x[0..1][0] == y[0..1][0] == y[0];
        TailDetects(Process1(h, x[0]), x[1..], y[1..], lo - 1, hi - 1);
      }
    }
  }

  /** A unit is the first one of the tail or a unit of the rest. */
  lemma UnitStep(n: nat, lo: nat, hi: nat, size: nat)
    requires IsUnit(n, lo, hi) && n > 0
    requires size == if n >= 8 then 8 else if n >= 4 then 4 else 1
    ensures lo == 0 ==> hi == size
    ensures lo > 0 ==> lo >= size && IsUnit(n - size, lo - size, hi - size)
  {
  }

  // ---------------------------------------------------------------- the stripes

  function Lane(v: Lanes, j: nat): u64
    requires j < 4
  {
    if j == 0 then v.v1 else if j == 1 then v.v2 else if j == 2 then v.v3 else v.v4
  }

  /** Exactly lane `j` differs. */
  predicate LaneDiffers(v: Lanes, w: Lanes, j: nat) {
    forall m | 0 <= m < 4 :: Lane(v, m) != Lane(w, m) <==> m == j
  }

  lemma StripeLane(v: Lanes, b: seq<byte>, m: nat)
    requires |b| == 32 && m < 4
    ensures Lane(Stripe(v, b), m) == Round(Lane(v, m), ReadLE64(b, 8 * m))
  {
    hide Round, ReadLE64;
  }

  /** A lane that differs still differs after the same stripe. */
  lemma StripeKeepsDifference(v: Lanes, w: Lanes, j: nat, b: seq<byte>)
    requires |b| == 32 && LaneDiffers(v, w, j)
    ensures LaneDiffers(Stripe(v, b), Stripe(w, b), j)
  {
    hide Round, ReadLE64, Stripe, Lane;
    forall m | 0 <= m < 4
      ensures Lane(Stripe(v, b), m) != Lane(Stripe(w, b), m) <==> m == j
    {
      StripeLane(v, b, m);
      StripeLane(w, b, m);
      RoundInjective(Lane(v, m), ReadLE64(b, 8 * m), Lane(w, m), ReadLE64(b, 8 * m));
    }
  }

  /** Two stripes that differ in word `j` alone make lane `j` alone differ. */
  lemma StripeMakesDifference(v: Lanes, j: nat, b: seq<byte>, c: seq<byte>)
    requires |b| == 32 && j < 4 && DiffersOnlyIn(b, c, 8 * j, 8 * j + 8)
    ensures LaneDiffers(Stripe(v, b), Stripe(v, c), j)
  {
    hide Round, ReadLE64, Stripe, Lane, DiffersOnlyIn;
    DifferenceRange(b, c, 8 * j, 8 * j + 8);
    forall m | 0 <= m < 4
      ensures Lane(Stripe(v, b), m) != Lane(Stripe(v, c), m) <==> m == j
    {
      StripeLane(v, b, m);
      StripeLane(v, c, m);
      ChangedWord(b, c, j, m);
      RoundInjective(Lane(v, m), ReadLE64(b, 8 * m), Lane(v, m), ReadLE64(c, 8 * m));
    }
  }

  /** Up to the stripe with the changed word no lane differs; from it on, however many
      stripes follow, exactly that word's lane does. */
  lemma {:induction false} StripesDetect(seed: u64, x: seq<byte>, y: seq<byte>, k: nat, j: nat, n: nat)
    requires 32 * n <= |x| && j < 4
    requires DiffersOnlyIn(x, y, 32 * k + 8 * j, 32 * k + 8 * j + 8)
    ensures n <= k ==> Consume(seed, x, n) == Consume(seed, y, n)
    ensures n > k ==> LaneDiffers(Consume(seed, x, n), Consume(seed, y, n), j)
  {
    hide Stripe, LaneDiffers;
    if n > 0 {
      StripesDetect(seed, x, y, k, j, n - 1);
      var lo, a := 32 * k + 8 * j, 32 * (n - 1);
      var b, c := x[a..a + 32], y[a..a + 32];
      if n - 1 == k {
        SliceDiffers(x, y, lo, lo + 8, a, a + 32);
        StripeMakesDifference(Consume(seed, x, k), j, b, c);
      } else {
        SameOutside(x, y, lo, lo + 8, a, a + 32);
        if n - 1 > k {
          StripeKeepsDifference(Consume(seed, x, n - 1), Consume(seed, y, n - 1), j, b);
        }
      }
    }
  }

  // ---------------------------------------------------------------- the merge

  /** The rotated sum with the first `n` lanes merged in. */
  function MergeUpTo(v: Lanes, n: nat): u64
    requires n <= 4
  {
    if n == 0 then RotatedSum(v) else MergeRound(MergeUpTo(v, n - 1), Lane(v, n - 1))
  }

  lemma MergeIsUpTo(v: Lanes)
    ensures Merge(v) == MergeUpTo(v, 4)
  {
    hide MergeRound, Rotl64, Add64;
    assert MergeUpTo(v, 1) == MergeRound(RotatedSum(v), v.v1);
    assert MergeUpTo(v, 2) == MergeRound(MergeUpTo(v, 1), v.v2);
    assert MergeUpTo(v, 3) == MergeRound(MergeUpTo(v, 2), v.v3);
  }

  /** A difference in one lane always shows in the rotated sum. */
  lemma SumDetects(v: Lanes, w: Lanes, j: nat)
    requires j < 4 && LaneDiffers(v, w, j)
    ensures RotatedSum(v) != RotatedSum(w)
  {
    hide Rotl64, Add64;
    assert forall m | 0 <= m < 4 :: Lane(v, m) != Lane(w, m) <==> m == j;
    assert v.v1 == Lane(v, 0) && v.v2 == Lane(v, 1) && v.v3 == Lane(v, 2) && v.v4 == Lane(v, 3);
    assert w.v1 == Lane(w, 0) && w.v2 == Lane(w, 1) && w.v3 == Lane(w, 2) && w.v4 == Lane(w, 3);
    var a, b := Rotl64(v.v1, 1), Rotl64(w.v1, 1);
    var c, d := Rotl64(v.v2, 7), Rotl64(w.v2, 7);
    var e, f := Rotl64(v.v3, 12), Rotl64(w.v3, 12);
    var g, h := Rotl64(v.v4, 18), Rotl64(w.v4, 18);
    RotationsDiffer(v, w);
    Add64Keeps(a, c, b, d);
    Add64Keeps(Add64(a, c), e, Add64(b, d), f);
    Add64Keeps(Add64(Add64(a, c), e), g, Add64(Add64(b, d), f), h);
  }

  lemma RotationsDiffer(v: Lanes, w: Lanes)
    ensures Rotl64(v.v1, 1) == Rotl64(w.v1, 1) <==> v.v1 == w.v1
    ensures Rotl64(v.v2, 7) == Rotl64(w.v2, 7) <==> v.v2 == w.v2
    ensures Rotl64(v.v3, 12) == Rotl64(w.v3, 12) <==> v.v3 == w.v3
    ensures Rotl64(v.v4, 18) == Rotl64(w.v4, 18) <==> v.v4 == w.v4
  {
    hide Rotl64;
    Rotl64Undo(v.v1, 1);
    Rotl64Undo(w.v1, 1);
    Rotl64Undo(v.v2, 7);
    Rotl64Undo(w.v2, 7);
    Rotl64Undo(v.v3, 12);
    Rotl64Undo(w.v3, 12);
    Rotl64Undo(v.v4, 18);
    Rotl64Undo(w.v4, 18);
  }

  /** What merge round `j` multiplies. */
  function Meeting(v: Lanes, j: nat): u64
    requires j < 4
  {
    Xor64(MergeUpTo(v, j), Round(0, Lane(v, j)))
  }

  /** Lanes that differ in lane `j` alone give different states up to merge round `j`.
      There the two differences meet: the merged hashes are equal exactly when they
      cancel in that one xor, because no later round merges two states. */
  lemma {:induction false} MergeDetects(v: Lanes, w: Lanes, j: nat, n: nat)
    requires j < 4 && n <= 4 && LaneDiffers(v, w, j)
    ensures n <= j ==> MergeUpTo(v, n) != MergeUpTo(w, n)
    ensures n > j ==> (MergeUpTo(v, n) == MergeUpTo(w, n) <==> Meeting(v, j) == Meeting(w, j))
  {
    hide RotatedSum, MergeRound, Xor64, Round;
    if n == 0 {
      SumDetects(v, w, j);
    } else {
      MergeDetects(v, w, j, n - 1);
      if n - 1 == j {
        MeetingDecides(MergeUpTo(v, j), Lane(v, j), MergeUpTo(w, j), Lane(w, j));
      } else {
        assert Lane(v, n - 1) == Lane(w, n - 1);
        MergeRoundInjective(MergeUpTo(v, n - 1), Lane(v, n - 1), MergeUpTo(w, n - 1), Lane(w, n - 1));
      }
    }
  }

  lemma MeetingDecides(g: u64, x: u64, h: u64, y: u64)
    ensures MergeRound(g, x) == MergeRound(h, y) <==> Xor64(g, Round(0, x)) == Xor64(h, Round(0, y))
  {
    hide Mul64, Xor64, Round, Add64, Sub64;
    InversePrimes();
    var a, b := Xor64(g, Round(0, x)), Xor64(h, Round(0, y));
    SumUndo64(Mul64(a, PRIME64_1), PRIME64_4);
    SumUndo64(Mul64(b, PRIME64_1), PRIME64_4);
    MulUndo64(a, PRIME64_1, INVERSE64_1);
    MulUndo64(b, PRIME64_1, INVERSE64_1);
  }

  // ---------------------------------------------------------------- main results

  /** Two inputs of one length, of any length, that differ only in word `j` of one
      stripe collide exactly when the two differences it makes cancel in the merge. */
  lemma StripeChangeDetected(x: seq<byte>, y: seq<byte>, seed: u64, k: nat, j: nat)
    requires j < 4 && 32 * k + 32 <= |x| && DiffersOnlyIn(x, y, 32 * k + 8 * j, 32 * k + 8 * j + 8)
    ensures Hash(x, seed) == Hash(y, seed)
       <==> Meeting(Consume(seed, x, |x| / 32), j) == Meeting(Consume(seed, y, |y| / 32), j)
  {
    hide Consume, Finalize, Merge, Meeting, MergeUpTo, LaneDiffers, Add64, Wrap64, DiffersOnlyIn;
    var n, m, lo := |x| / 32, 32 * (|x| / 32), 32 * k + 8 * j;
    DifferenceRange(x, y, lo, lo + 8);
    SameOutside(x, y, lo, lo + 8, m, |x|);
    assert x[m..] == x[m..|x|] && y[m..] == y[m..|x|];
    var v, w := Consume(seed, x, n), Consume(seed, y, n);
    StripesDetect(seed, x, y, k, j, n);
    MergeDetects(v, w, j, 4);
    MergeIsUpTo(v);
    MergeIsUpTo(w);
    FinalizeInjective(Add64(Merge(v), Wrap64(|x|)), Add64(Merge(w), Wrap64(|x|)), x[m..]);
    Add64Keeps(Merge(v), Wrap64(|x|), Merge(w), Wrap64(|x|));
  }

  /** Two inputs of one length, of any length, that differ only inside one unit
      of the tail have different hashes under every seed. */
  lemma TailChangeDetected(x: seq<byte>, y: seq<byte>, seed: u64, lo: nat, hi: nat)
    requires DiffersOnlyIn(x, y, lo, hi)
    requires var m := 32 * (|x| / 32); m <= lo && IsUnit(|x[m..]|, lo - m, hi - m)
    ensures Hash(x, seed) != Hash(y, seed)
  {
    hide Hash, IsUnit, DiffersOnlyIn;
    DifferenceRange(x, y, lo, hi);
    var m := 32 * (|x| / 32);
    ShiftDifference(x, y, lo, hi, m);
    var h := SameStart(x, y, seed, m);
    TailDetects(h, x[m..], y[m..], lo - m, hi - m);
  }

  /** With equal stripes the two hashes finalize one and the same state. */
  lemma SameStart(x: seq<byte>, y: seq<byte>, seed: u64, m: nat) returns (h: u64)
    requires |x| == |y| && m == 32 * (|x| / 32) && x[..m] == y[..m]
    ensures Hash(x, seed) == Finalize(h, x[m..]) && Hash(y, seed) == Finalize(h, y[m..])
  {
    hide Start, Finalize, Wrap64, Add64;
    SamePrefix(seed, x, y, |x| / 32);
    h := Add64(Start(x, seed), Wrap64(|x|));
  }

  lemma SamePrefix(seed: u64, x: seq<byte>, y: seq<byte>, n: nat)
    requires 32 * n <= |x| && 32 * n <= |y| && x[..32 * n] == y[..32 * n]
    ensures Consume(seed, x, n) == Consume(seed, y, n)
    ensures n == |x| / 32 == |y| / 32 ==> Start(x, seed) == Start(y, seed)
  {
    hide Merge;
    assert x == x[..32 * n] + x[32 * n..] && y == y[..32 * n] + y[32 * n..];
    ConsumePrefix(seed, x[..32 * n], x[32 * n..], n);
    ConsumePrefix(seed, y[..32 * n], y[32 * n..], n);
  }

  /** Every change of a single byte of the tail is seen, so on inputs shorter than
      32 bytes every change of a single byte. */
  lemma ByteChangeDetected(x: seq<byte>, y: seq<byte>, seed: u64, i: nat)
    requires 32 * (|x| / 32) <= i < |x| == |y| && x[i] != y[i]
    requires forall m | 0 <= m < |x| && m != i :: x[m] == y[m]
    ensures Hash(x, seed) != Hash(y, seed)
  {
    hide Hash, IsUnit;
    var m := 32 * (|x| / 32);
    var lo, hi := UnitOf(|x[m..]|, i - m);
    assert x[m + lo..m + hi][i - m - lo] != y[m + lo..m + hi][i - m - lo];
    TailChangeDetected(x, y, seed, m + lo, m + hi);
  }

  lemma UnitOf(n: nat, i: nat) returns (lo: nat, hi: nat)
    requires i < n
    ensures lo <= i < hi <= n && IsUnit(n, lo, hi)
  {
    if i < 8 * (n / 8) {
      lo, hi := 8 * (i / 8), 8 * (i / 8) + 8;
    } else if i < n - n % 4 {
      lo, hi := n - n % 8, n - n % 8 + 4;
    } else {
      lo, hi := i, i + 1;
    }
  }

  // ---------------------------------------------------------------- seed and length

  /** Two inputs that end in the same tail, whatever their lengths and seeds, have
      the same hash exactly when their starts plus their lengths agree. */
  lemma SameTailCollides(x: seq<byte>, s: u64, y: seq<byte>, t: u64)
    requires x[32 * (|x| / 32)..] == y[32 * (|y| / 32)..]
    ensures Hash(x, s) == Hash(y, t)
       <==> Add64(Start(x, s), Wrap64(|x|)) == Add64(Start(y, t), Wrap64(|y|))
  {
    hide Start, Finalize, Add64, Wrap64;
    FinalizeInjective(Add64(Start(x, s), Wrap64(|x|)), Add64(Start(y, t), Wrap64(|y|)), x[32 * (|x| / 32)..]);
  }

  /** On an input shorter than a stripe different seeds give different hashes. */
  lemma SeedDetected(data: seq<byte>, s: u64, t: u64)
    requires |data| < 32
    ensures Hash(data, s) == Hash(data, t) <==> s == t
  {
    hide Hash, SeedOf;
    SeedRecovered(data, s);
    SeedRecovered(data, t);
  }

  /** On longer ones different seeds keep all four lanes apart, stripe after stripe. */
  lemma {:induction false} SeedKept(data: seq<byte>, s: u64, t: u64, n: nat, m: nat)
    requires 32 * n <= |data| && s != t && m < 4
    ensures Lane(Consume(s, data, n), m) != Lane(Consume(t, data, n), m)
  {
    hide Round, ReadLE64, Add64, Sub64, Stripe;
    if n == 0 {
      Add64Keeps(s, PRIME64_1, t, PRIME64_1);
      Add64Keeps(Add64(s, PRIME64_1), PRIME64_2, Add64(t, PRIME64_1), PRIME64_2);
      Add64Keeps(s, PRIME64_2, t, PRIME64_2);
      SumUndo64(s, PRIME64_1);
      SumUndo64(t, PRIME64_1);
    } else {
      SeedKept(data, s, t, n - 1, m);
      var v, w, b := Consume(s, data, n - 1), Consume(t, data, n - 1), data[32 * (n - 1)..32 * n];
      StripeLane(v, b, m);
      StripeLane(w, b, m);
      RoundInjective(Lane(v, m), ReadLE64(b, 8 * m), Lane(w, m), ReadLE64(b, 8 * m));
    }
  }
}
