/** On long inputs the accumulators of XXH3 never lose a changed word: scrambling
    and later stripes keep the lanes apart until the final merge, which sees the one
    pair of lanes that the word reached. */
module Xxh3Detect {
  import opened Bits
  import opened Words
  import opened Primes
  import opened Memory
  import opened Canonical
  import opened Multiply
  import opened Differences
  import opened Xxh64Inverse
  import opened Xxh3Short
  import opened Xxh3Inverse
  import opened Xxh3Injective
  import opened Secrets
  import opened Xxh3Long

  /** The lane that was scrambled into `h`; the factor is the inverse of PRIME32_1
      modulo 2^64. */
  function UnscrambleLane(h: u64, key: u64): u64 {
    Unshift64(Xor64(Mul64(h, 0xCFA4A56B0E8B2F51), key), 47)
  }

  lemma ScrambleLaneUndone(a: u64, key: u64)
    ensures UnscrambleLane(ScrambleLane(a, key), key) == a
  {
    hide Mul64, Xor64, XorShift64, Unshift64;
    assert Mul64(PRIME32_1, 0xCFA4A56B0E8B2F51) == 1 by { PrimeInverse(); }
    var x := XorShift64(a, 47);
    MulUndo64(Xor64(x, key), PRIME32_1, 0xCFA4A56B0E8B2F51);
    XorUndo64(x, key);
    ShiftUndone(a, 47);
  }

  lemma PrimeInverse()
    ensures Mul64(PRIME32_1, 0xCFA4A56B0E8B2F51) == 1
  {
  }

  lemma ScrambleKeeps(a: Accs, b: Accs, key: seq<byte>, i: nat)
    requires |key| == 64 && i < 8
    ensures Scramble(a, key)[i] == Scramble(b, key)[i] <==> a[i] == b[i]
  {
    hide ScrambleLane, UnscrambleLane, ReadLE64;
    var k := ReadLE64(key, 8 * i);
    ScrambleLaneUndone(a[i], k);
    ScrambleLaneUndone(b[i], k);
  }

  /** The product of the two halves of a word xored with its part of the secret. */
  function KeyedProduct(word: u64, key: u64): nat {
    var w := Xor64(word, key);
    (w % 0x1_0000_0000) * (w / 0x1_0000_0000)
  }

  lemma LaneProductIs(stripe: seq<byte>, key: seq<byte>, i: nat)
    requires |stripe| == |key| == 64 && i < 8
    ensures LaneProduct(stripe, key, i) == KeyedProduct(ReadLE64(stripe, 8 * i), ReadLE64(key, 8 * i))
  {
    hide ReadLE64, Xor64, Lo32, Hi32, Mult32To64;
    var w := Xor64(ReadLE64(stripe, 8 * i), ReadLE64(key, 8 * i));
    Mult32To64Is(Lo32(w), Hi32(w));
  }

  lemma LaneDecides(a: u64, d: u64, p: u64, b: u64, e: u64, q: u64)
    ensures d == e && p == q ==> (Add64(Add64(a, d), p) == Add64(Add64(b, e), q) <==> a == b)
    ensures a == b && p == q ==> (Add64(Add64(a, d), p) == Add64(Add64(b, e), q) <==> d == e)
    ensures a == b && d == e ==> (Add64(Add64(a, d), p) == Add64(Add64(b, e), q) <==> p == q)
  {
    hide Add64;
    Add64Keeps(a, d, b, e);
    Add64Keeps(Add64(a, d), p, Add64(b, e), q);
  }

  lemma StripeKeeps(a: Accs, b: Accs, stripe: seq<byte>, key: seq<byte>, i: nat)
    requires |stripe| == |key| == 64 && i < 8
    ensures Accumulate512(a, stripe, key)[i] == Accumulate512(b, stripe, key)[i] <==> a[i] == b[i]
  {
    hide Add64, ReadLE64, LaneProduct;
    var d, p := ReadLE64(stripe, 8 * Partner(i)), LaneProduct(stripe, key, i);
    LaneDecides(a[i], d, p, b[i], d, p);
  }

  /** The lanes that still agree after a stripe in which word `j` alone changed from `u`
      to `v`: all but the neighbour of lane `j`, and lane `j` itself exactly when the
      keyed products of the two words are equal. */
  predicate Agrees(i: nat, j: nat, u: u64, v: u64, key: u64) {
    i != Partner(j) && (i == j ==> KeyedProduct(u, key) == KeyedProduct(v, key))
  }

  lemma StripeSeparates(a: Accs, s: seq<byte>, t: seq<byte>, key: seq<byte>, j: nat, i: nat)
    requires |s| == |t| == |key| == 64 && j < 8 && i < 8
    requires DiffersOnlyIn(s, t, 8 * j, 8 * j + 8)
    ensures Accumulate512(a, s, key)[i] == Accumulate512(a, t, key)[i]
       <==> Agrees(i, j, ReadLE64(s, 8 * j), ReadLE64(t, 8 * j), ReadLE64(key, 8 * j))
  {
    hide Add64, ReadLE64, LaneProduct, KeyedProduct, DiffersOnlyIn;
    assert Partner(Partner(i)) == i;
    ChangedWord(s, t, j, Partner(i));
    ChangedWord(s, t, j, i);
    LaneProductIs(s, key, i);
    LaneProductIs(t, key, i);
    LaneDecides(a[i], ReadLE64(s, 8 * Partner(i)), LaneProduct(s, key, i),
                a[i], ReadLE64(t, 8 * Partner(i)), LaneProduct(t, key, i));
  }

  // ---------------------------------------------------------------- the fold over the stripes

  /** The position in its block at which stripe `n` is read. */
  lemma {:induction false} FoldPosition(st: Progress, x: seq<byte>, secret: Secret, n: nat)
    requires 64 * n <= |x| && st.soFar < StripesPerBlock(secret)
    ensures Fold(st, x, secret, n).soFar == (st.soFar + n) % StripesPerBlock(secret)
  {
    hide Accumulate512, Scramble, StripesPerBlock;
    if n > 0 {
      FoldPosition(st, x, secret, n - 1);
      NextPosition(st.soFar + n - 1, StripesPerBlock(secret));
    }
  }

  lemma NextPosition(n: nat, m: nat)
    requires m > 1
    ensures (n + 1) % m == if n % m + 1 == m then 0 else n % m + 1
  {
    var q, r := n / m, n % m;
    if r + 1 == m {
      assert n + 1 == (q + 1) * m;
      DivModUnique(q + 1, 0, m, n + 1);
    } else {
      DivModUnique(q, r + 1, m, n + 1);
    }
  }

  /** One step of the fold keeps a lane apart, or equal, through the scramble if any. */
  lemma StepKeeps(p: Progress, q: Progress, stripe: seq<byte>, secret: Secret, i: nat)
    requires |stripe| == 64 && p.soFar == q.soFar < StripesPerBlock(secret) && i < 8
    ensures Step(p, stripe, secret).acc[i] == Step(q, stripe, secret).acc[i] <==> p.acc[i] == q.acc[i]
  {
    hide Accumulate512, Scramble, StripesPerBlock;
    var key := KeyAt(secret, 8 * p.soFar);
    StripeKeeps(p.acc, q.acc, stripe, key, i);
    ScrambleKeeps(Accumulate512(p.acc, stripe, key), Accumulate512(q.acc, stripe, key),
                  KeyAt(secret, |secret| - 64), i);
  }

  lemma StepSeparates(p: Progress, s: seq<byte>, t: seq<byte>, secret: Secret, j: nat, i: nat)
    requires |s| == |t| == 64 && p.soFar < StripesPerBlock(secret) && j < 8 && i < 8
    requires DiffersOnlyIn(s, t, 8 * j, 8 * j + 8)
    ensures Step(p, s, secret).acc[i] == Step(p, t, secret).acc[i]
       <==> Agrees(i, j, ReadLE64(s, 8 * j), ReadLE64(t, 8 * j), ReadLE64(secret, 8 * p.soFar + 8 * j))
  {
    hide Accumulate512, Scramble, StripesPerBlock, Agrees, ReadLE64, DiffersOnlyIn;
    var key := KeyAt(secret, 8 * p.soFar);
    StripeSeparates(p.acc, s, t, key, j, i);
    ReadOfSlice(secret, 8 * p.soFar, 64, 8 * j, 8);
    ScrambleKeeps(Accumulate512(p.acc, s, key), Accumulate512(p.acc, t, key),
                  KeyAt(secret, |secret| - 64), i);
  }

  /** Where the secret is read for word `j` of stripe `k`. */
  function KeyWord(st: Progress, secret: Secret, k: nat, j: nat): u64
    requires j < 8
  {
    ReadLE64(secret, 8 * ((st.soFar + k) % StripesPerBlock(secret)) + 8 * j)
  }

  /** Word `j` of stripe `k` reaches its own lane and the neighbouring one and no other:
      up to that stripe nothing differs, and from it on, however many stripes and
      scrambles follow, the neighbouring lane differs, lane `j` does exactly when the
      keyed products differ, and the six others never do. */
  lemma {:induction false} FoldSeparates(st: Progress, x: seq<byte>, y: seq<byte>, secret: Secret,
                                         k: nat, j: nat, n: nat, i: nat)
    requires 64 * n <= |x| && 64 * k + 64 <= |x| && j < 8 && i < 8 && st.soFar < StripesPerBlock(secret)
    requires DiffersOnlyIn(x, y, 64 * k + 8 * j, 64 * k + 8 * j + 8)
    ensures |x| == |y| && (n <= k ==> Fold(st, x, secret, n) == Fold(st, y, secret, n))
    ensures n > k ==>
              (Fold(st, x, secret, n).acc[i] == Fold(st, y, secret, n).acc[i]
          <==> Agrees(i, j, ReadLE64(x, 64 * k + 8 * j), ReadLE64(y, 64 * k + 8 * j), KeyWord(st, secret, k, j)))
  {
    hide Step, StripesPerBlock, Agrees, ReadLE64, DiffersOnlyIn, KeyWord;
    var lo, a := 64 * k + 8 * j, 64 * (n - 1);
    DifferenceRange(x, y, lo, lo + 8);
    if n > 0 {
      FoldSeparates(st, x, y, secret, k, j, n - 1, i);
      var p, q := Fold(st, x, secret, n - 1), Fold(st, y, secret, n - 1);
      if n - 1 == k {
        ChangedStripe(st, x, y, secret, k, j, i);
      } else {
        SameOutside(x, y, lo, lo + 8, a, a + 64);
        if n - 1 > k {
          FoldPosition(st, x, secret, n - 1);
          FoldPosition(st, y, secret, n - 1);
          StepKeeps(p, q, StripeAt(x, n - 1), secret, i);
        }
      }
    }
  }

  lemma ChangedStripe(st: Progress, x: seq<byte>, y: seq<byte>, secret: Secret, k: nat, j: nat, i: nat)
    requires 64 * k + 64 <= |x| && j < 8 && i < 8 && st.soFar < StripesPerBlock(secret)
    requires DiffersOnlyIn(x, y, 64 * k + 8 * j, 64 * k + 8 * j + 8)
    ensures |x| == |y|
    ensures (Step(Fold(st, x, secret, k), StripeAt(x, k), secret).acc[i]
             == Step(Fold(st, x, secret, k), StripeAt(y, k), secret).acc[i])
       <==> Agrees(i, j, ReadLE64(x, 64 * k + 8 * j), ReadLE64(y, 64 * k + 8 * j), KeyWord(st, secret, k, j))
  {
    hide Step, Fold, StripesPerBlock, Agrees, ReadLE64, DiffersOnlyIn, KeyWord, StripeAt;
    KeyWordRead(st, x, secret, k, j);
    StripeWords(x, y, k, j);
    StepSeparates(Fold(st, x, secret, k), StripeAt(x, k), StripeAt(y, k), secret, j, i);
  }

  lemma StripeWords(x: seq<byte>, y: seq<byte>, k: nat, j: nat)
    requires 64 * k + 64 <= |x| && j < 8 && DiffersOnlyIn(x, y, 64 * k + 8 * j, 64 * k + 8 * j + 8)
    ensures |x| == |y| && DiffersOnlyIn(StripeAt(x, k), StripeAt(y, k), 8 * j, 8 * j + 8)
    ensures ReadLE64(StripeAt(x, k), 8 * j) == ReadLE64(x, 64 * k + 8 * j)
    ensures ReadLE64(StripeAt(y, k), 8 * j) == ReadLE64(y, 64 * k + 8 * j)
  {
    hide ReadLE64, DiffersOnlyIn;
    var lo, a := 64 * k + 8 * j, 64 * k;
    DifferenceRange(x, y, lo, lo + 8);
    SliceDiffers(x, y, lo, lo + 8, a, a + 64);
    ReadOfSlice(x, a, 64, 8 * j, 8);
    ReadOfSlice(y, a, 64, 8 * j, 8);
  }

  lemma KeyWordRead(st: Progress, x: seq<byte>, secret: Secret, k: nat, j: nat)
    requires 64 * k <= |x| && j < 8 && st.soFar < StripesPerBlock(secret)
    ensures KeyWord(st, secret, k, j) == ReadLE64(secret, 8 * Fold(st, x, secret, k).soFar + 8 * j)
  {
    hide Fold, ReadLE64;
    FoldPosition(st, x, secret, k);
  }

  /** Two inputs of one length that differ only in aligned word `q`, before the last 64
      bytes: the accumulators that are merged differ in the neighbour of lane `q % 8`,
      in lane `q % 8` exactly when the keyed products differ, and in no other. */
  lemma WordChangeKept(x: seq<byte>, y: seq<byte>, secret: Secret, q: nat, i: nat)
    requires |x| > 64 && DiffersOnlyIn(x, y, 8 * q, 8 * q + 8) && 8 * q + 8 <= |x| - 64 && i < 8
    ensures |x| == |y|
    ensures LongAccs(x, secret)[i] == LongAccs(y, secret)[i]
       <==> Agrees(i, q % 8, ReadLE64(x, 8 * q), ReadLE64(y, 8 * q), KeyWord(Progress(InitAcc(), 0), secret, q / 8, q % 8))
  {
    hide Fold, Accumulate512, InitAcc, StripesPerBlock, Agrees, ReadLE64, KeyWord, DiffersOnlyIn;
    DifferenceRange(x, y, 8 * q, 8 * q + 8);
    var k, j, n := q / 8, q % 8, (|x| - 1) / 64;
    var st := Progress(InitAcc(), 0);
    FoldSeparates(st, x, y, secret, k, j, n, i);
    SameOutside(x, y, 8 * q, 8 * q + 8, |x| - 64, |x|);
    assert x[|x| - 64..] == x[|x| - 64..|x|] && y[|x| - 64..] == y[|x| - 64..|x|];
    StripeKeeps(Fold(st, x, secret, n).acc, Fold(st, y, secret, n).acc, x[|x| - 64..],
                KeyAt(secret, |secret| - 64 - 7), i);
  }

  /** The same of a word of the last 64 bytes that no whole stripe holds; all of them
      when the length is a multiple of 64. */
  lemma LastWordChangeKept(x: seq<byte>, y: seq<byte>, secret: Secret, j: nat, i: nat)
    requires |x| > 64 && j < 8 && i < 8 && 64 * ((|x| - 1) / 64) <= |x| - 64 + 8 * j
    requires DiffersOnlyIn(x, y, |x| - 64 + 8 * j, |x| - 64 + 8 * j + 8)
    ensures |x| == |y|
    ensures LongAccs(x, secret)[i] == LongAccs(y, secret)[i]
       <==> Agrees(i, j, ReadLE64(x, |x| - 64 + 8 * j), ReadLE64(y, |x| - 64 + 8 * j),
                   ReadLE64(secret, |secret| - 71 + 8 * j))
  {
    hide Fold, Accumulate512, InitAcc, StripesPerBlock, Agrees, ReadLE64, DiffersOnlyIn;
    var n, p := (|x| - 1) / 64, |x| - 64;
    var lo := p + 8 * j;
    DifferenceRange(x, y, lo, lo + 8);
    SameFold(x, y, secret, n, lo);
    assert x[p..] == x[p..|x|] && y[p..] == y[p..|x|];
    SliceDiffers(x, y, lo, lo + 8, p, |x|);
    StripeSeparates(Fold(Progress(InitAcc(), 0), x, secret, n).acc, x[p..], y[p..], KeyAt(secret, |secret| - 71), j, i);
    assert x[p..p + 64] == x[p..] && y[p..p + 64] == y[p..];
    ReadOfSlice(x, p, 64, 8 * j, 8);
    ReadOfSlice(y, p, 64, 8 * j, 8);
    ReadOfSlice(secret, |secret| - 71, 64, 8 * j, 8);
  }

  lemma SameFold(x: seq<byte>, y: seq<byte>, secret: Secret, n: nat, lo: nat)
    requires 64 * n <= lo && DiffersOnlyIn(x, y, lo, lo + 8)
    ensures |x| == |y| && Fold(Progress(InitAcc(), 0), x, secret, n) == Fold(Progress(InitAcc(), 0), y, secret, n)
  {
    hide Fold, InitAcc, StripesPerBlock;
    ShiftDifference(x, y, lo, lo + 8, 64 * n);
    assert x == x[..64 * n] + x[64 * n..] && y == y[..64 * n] + y[64 * n..];
    FoldPrefix(Progress(InitAcc(), 0), x[..64 * n], x[64 * n..], secret, n);
    FoldPrefix(Progress(InitAcc(), 0), y[..64 * n], y[64 * n..], secret, n);
  }

  // ---------------------------------------------------------------- the merge

  /** Accumulators that differ in one pair of lanes at most. */
  predicate SamePairsBut(a: Accs, b: Accs, p: nat) { forall i | 0 <= i < 8 && i / 2 != p :: a[i] == b[i] }

  /** They merge to the same word exactly when that pair mixes to the same word. */
  lemma {:induction false} MergeSeesPair(a: Accs, b: Accs, secret: seq<byte>, off: nat, start: u64, p: nat, n: nat)
    requires off + 64 <= |secret| && p < n <= 4 && SamePairsBut(a, b, p)
    ensures MergeUpTo(a, secret, off, start, n) == MergeUpTo(b, secret, off, start, n)
       <==> Mix2Accs(a, 2 * p, secret, off + 16 * p) == Mix2Accs(b, 2 * p, secret, off + 16 * p)
  {
    hide MulFold64, Xor64, ReadLE64, Add64;
    if n - 1 == p {
      SameBefore(a, b, secret, off, start, p, p);
    } else {
      MergeSeesPair(a, b, secret, off, start, p, n - 1);
      assert a[2 * (n - 1)] == b[2 * (n - 1)] && a[2 * (n - 1) + 1] == b[2 * (n - 1) + 1];
    }
    Add64Keeps(MergeUpTo(a, secret, off, start, n - 1), Mix2Accs(a, 2 * (n - 1), secret, off + 16 * (n - 1)),
               MergeUpTo(b, secret, off, start, n - 1), Mix2Accs(b, 2 * (n - 1), secret, off + 16 * (n - 1)));
  }

  lemma {:induction false} SameBefore(a: Accs, b: Accs, secret: seq<byte>, off: nat, start: u64, p: nat, n: nat)
    requires off + 64 <= |secret| && n <= p < 4 && SamePairsBut(a, b, p)
    ensures MergeUpTo(a, secret, off, start, n) == MergeUpTo(b, secret, off, start, n)
  {
    hide MulFold64, Xor64, ReadLE64, Add64;
    if n > 0 {
      SameBefore(a, b, secret, off, start, p, n - 1);
      assert a[2 * (n - 1)] == b[2 * (n - 1)] && a[2 * (n - 1) + 1] == b[2 * (n - 1) + 1];
    }
  }

  lemma MergeDecides(a: Accs, b: Accs, secret: seq<byte>, off: nat, start: u64, p: nat)
    requires off + 64 <= |secret| && p < 4 && SamePairsBut(a, b, p)
    ensures MergeAccs(a, secret, off, start) == MergeAccs(b, secret, off, start)
       <==> Mix2Accs(a, 2 * p, secret, off + 16 * p) == Mix2Accs(b, 2 * p, secret, off + 16 * p)
  {
    hide Mix2Accs, Avalanche3, Unavalanche3, MergeUpTo, SamePairsBut;
    MergeSeesPair(a, b, secret, off, start, p, 4);
    Avalanche3Undone(MergeUpTo(a, secret, off, start, 4));
    Avalanche3Undone(MergeUpTo(b, secret, off, start, 4));
  }

  /** The other lane of a pair with its word of the secret, by which lane `i` is multiplied. */
  function Multiplier(a: Accs, secret: seq<byte>, off: nat, i: nat): u64
    requires off + 64 <= |secret| && i < 8
  {
    Xor64(a[Partner(i)], ReadLE64(secret, off + 8 * Partner(i)))
  }

  /** Accumulators that differ in lane `i` alone merge to different words, for every
      start, secret and place in it, when the multiplier of that lane is a power of
      two, and to the same word when it is zero. */
  lemma MergeSeesLane(a: Accs, b: Accs, secret: seq<byte>, off: nat, start: u64, i: nat)
    requires off + 64 <= |secret| && i < 8 && a[i] != b[i] && forall m | 0 <= m < 8 && m != i :: a[m] == b[m]
    ensures IsPower(Multiplier(a, secret, off, i)) ==> MergeAccs(a, secret, off, start) != MergeAccs(b, secret, off, start)
    ensures Multiplier(a, secret, off, i) == 0 ==> MergeAccs(a, secret, off, start) == MergeAccs(b, secret, off, start)
  {
    hide MulFold64, Xor64, ReadLE64, MergeAccs, IsPower;
    var k, f := ReadLE64(secret, off + 8 * i), Multiplier(a, secret, off, i);
    MergeDecides(a, b, secret, off, start, i / 2);
    XorKeeps(a[i], k, b[i], k);
    FoldInjective(Xor64(a[i], k), Xor64(b[i], k), f);
    FoldInjective(Xor64(b[i], k), Xor64(a[i], k), f);
  }

  /** Different starts never merge to the same word. */
  lemma {:induction false} MergeSeesStart(a: Accs, secret: seq<byte>, off: nat, s: u64, t: u64, n: nat)
    requires off + 64 <= |secret| && n <= 4
    ensures MergeUpTo(a, secret, off, s, n) == MergeUpTo(a, secret, off, t, n) <==> s == t
    ensures MergeAccs(a, secret, off, s) == MergeAccs(a, secret, off, t) <==>
              MergeUpTo(a, secret, off, s, 4) == MergeUpTo(a, secret, off, t, 4)
  {
    hide Mix2Accs, Avalanche3, Unavalanche3, Add64;
    Avalanche3Undone(MergeUpTo(a, secret, off, s, 4));
    Avalanche3Undone(MergeUpTo(a, secret, off, t, 4));
    if n > 0 {
      MergeSeesStart(a, secret, off, s, t, n - 1);
      var m := Mix2Accs(a, 2 * (n - 1), secret, off + 16 * (n - 1));
      Add64Keeps(MergeUpTo(a, secret, off, s, n - 1), m, MergeUpTo(a, secret, off, t, n - 1), m);
    }
  }

  // ---------------------------------------------------------------- the hash

  /** The final step never gives two lengths the same hash for one set of accumulators,
      in 64 bits or in either half of 128. */
  lemma FinishSeesLength(a: Accs, secret: Secret, m: nat, n: nat)
    ensures Finish64(a, secret, m) == Finish64(a, secret, n) <==> Wrap64(m) == Wrap64(n)
    ensures Xxh3Long.Finish128(a, secret, m).low64 == Xxh3Long.Finish128(a, secret, n).low64 <==> Wrap64(m) == Wrap64(n)
    ensures Xxh3Long.Finish128(a, secret, m).high64 == Xxh3Long.Finish128(a, secret, n).high64 <==> Wrap64(m) == Wrap64(n)
  {
    hide MergeAccs, Mul64, Wrap64, MergeUpTo;
    var u, v := Wrap64(m), Wrap64(n);
    InversePrimes();
    MulUndo64(u, PRIME64_1, INVERSE64_1);
    MulUndo64(v, PRIME64_1, INVERSE64_1);
    MulUndo64(u, PRIME64_2, INVERSE64_2);
    MulUndo64(v, PRIME64_2, INVERSE64_2);
    MergeSeesStart(a, secret, 11, Mul64(u, PRIME64_1), Mul64(v, PRIME64_1), 4);
    MergeSeesStart(a, secret, |secret| - 75, Not64(Mul64(u, PRIME64_2)), Not64(Mul64(v, PRIME64_2)), 4);
  }

  /** What pair `p` of lanes contributes to the 64-bit hash and to the low half, and to
      the high half. */
  function PairLow(a: Accs, secret: Secret, p: nat): u64
    requires p < 4
  {
    Mix2Accs(a, 2 * p, secret, 11 + 16 * p)
  }

  function PairHigh(a: Accs, secret: Secret, p: nat): u64
    requires p < 4
  {
    Mix2Accs(a, 2 * p, secret, |secret| - 75 + 16 * p)
  }

  lemma PairDecidesHash(a: Accs, b: Accs, secret: Secret, n: nat, p: nat)
    requires p < 4 && SamePairsBut(a, b, p)
    ensures Finish64(a, secret, n) == Finish64(b, secret, n) <==> PairLow(a, secret, p) == PairLow(b, secret, p)
    ensures Xxh3Long.Finish128(a, secret, n).low64 == Xxh3Long.Finish128(b, secret, n).low64 <==> PairLow(a, secret, p) == PairLow(b, secret, p)
    ensures Xxh3Long.Finish128(a, secret, n).high64 == Xxh3Long.Finish128(b, secret, n).high64 <==> PairHigh(a, secret, p) == PairHigh(b, secret, p)
  {
    hide MergeAccs, Mix2Accs, Mul64, Wrap64, SamePairsBut;
    MergeDecides(a, b, secret, 11, Mul64(Wrap64(n), PRIME64_1), p);
    MergeDecides(a, b, secret, |secret| - 75, Not64(Mul64(Wrap64(n), PRIME64_2)), p);
  }

  /** Two inputs of more than 240 bytes and one length that differ only in aligned word
      `q`, before the last 64 bytes, have the same hash, in any mode, exactly when the
      one pair of lanes that the word reaches mixes to the same word. */
  lemma WordChangeDecides(x: seq<byte>, y: seq<byte>, mode: Mode, q: nat)
    requires |x| > 240 && DiffersOnlyIn(x, y, 8 * q, 8 * q + 8) && 8 * q + 8 <= |x| - 64
    ensures |x| == |y| && LongAccs(x, LongSecret(mode)) != LongAccs(y, LongSecret(mode))
    ensures Hash64(mode, x) == Hash64(mode, y)
       <==> PairLow(LongAccs(x, LongSecret(mode)), LongSecret(mode), q % 8 / 2)
            == PairLow(LongAccs(y, LongSecret(mode)), LongSecret(mode), q % 8 / 2)
    ensures Hash128Of(mode, x) == Hash128Of(mode, y)
       <==> (&& PairLow(LongAccs(x, LongSecret(mode)), LongSecret(mode), q % 8 / 2)
                == PairLow(LongAccs(y, LongSecret(mode)), LongSecret(mode), q % 8 / 2)
             && PairHigh(LongAccs(x, LongSecret(mode)), LongSecret(mode), q % 8 / 2)
                == PairHigh(LongAccs(y, LongSecret(mode)), LongSecret(mode), q % 8 / 2))
  {
    hide LongAccs, Finish64, Xxh3Long.Finish128, PairLow, PairHigh, DiffersOnlyIn, Agrees, ReadLE64, KeyWord, InitAcc,
         Short64, Short128, LongSecret, Hash64, Hash128Of;
    var secret := LongSecret(mode);
    DifferenceRange(x, y, 8 * q, 8 * q + 8);
    LongHashes(x, mode);
    LongHashes(y, mode);
    OnePairDiffers(x, y, secret, q);
    PairDecidesHash(LongAccs(x, secret), LongAccs(y, secret), secret, |x|, q % 8 / 2);
  }

  lemma LongHashes(x: seq<byte>, mode: Mode)
    requires |x| > 240
    ensures Hash64(mode, x) == Finish64(LongAccs(x, LongSecret(mode)), LongSecret(mode), |x|)
    ensures Hash128Of(mode, x) == Xxh3Long.Finish128(LongAccs(x, LongSecret(mode)), LongSecret(mode), |x|)
  {
    hide LongAccs, Finish64, Xxh3Long.Finish128, KSecret, Derive;
  }

  lemma OnePairDiffers(x: seq<byte>, y: seq<byte>, secret: Secret, q: nat)
    requires |x| > 64 && DiffersOnlyIn(x, y, 8 * q, 8 * q + 8) && 8 * q + 8 <= |x| - 64
    ensures |x| == |y| && SamePairsBut(LongAccs(x, secret), LongAccs(y, secret), q % 8 / 2)
    ensures LongAccs(x, secret) != LongAccs(y, secret)
  {
    hide LongAccs, KeyedProduct, DiffersOnlyIn, ReadLE64, KeyWord, InitAcc;
    DifferenceRange(x, y, 8 * q, 8 * q + 8);
    forall i | 0 <= i < 8
      ensures i / 2 != q % 8 / 2 ==> LongAccs(x, secret)[i] == LongAccs(y, secret)[i]
      ensures i == Partner(q % 8) ==> LongAccs(x, secret)[i] != LongAccs(y, secret)[i]
    {
      WordChangeKept(x, y, secret, q, i);
    }
    var m := Partner(q % 8);
    assert LongAccs(x, secret)[m] != LongAccs(y, secret)[m];
  }

  // ---------------------------------------------------------------- the modes on short inputs

  /** In every mode the hash of at most 8 bytes shows the seed and the secret of the
      mode, through the one word that they meet in. */
  lemma ModeDecides(x: seq<byte>, m: Mode, n: Mode)
    requires |x| <= 8
    ensures Hash64(m, x) == Hash64(n, x)
       <==> Flip64(|x|, if m.WithSecret? then m.secret else KSecret(), if m.WithSeed? then m.seed else 0)
            == Flip64(|x|, if n.WithSecret? then n.secret else KSecret(), if n.WithSeed? then n.seed else 0)
  {
    hide Short64, KSecret, Derive, Flip64;
    FlipDecides64(x, if m.WithSecret? then m.secret else KSecret(), if m.WithSeed? then m.seed else 0,
                  if n.WithSecret? then n.secret else KSecret(), if n.WithSeed? then n.seed else 0);
  }
}
