/** Inputs that differ in one place only. */
module Differences {
  import opened Words
  import opened Memory

  /** Equal outside `[lo, hi)`, different inside. */
  predicate DiffersOnlyIn(x: seq<byte>, y: seq<byte>, lo: nat, hi: nat) {
    && lo < hi <= |x| == |y|
    && x[..lo] == y[..lo] && x[hi..] == y[hi..] && x[lo..hi] != y[lo..hi]
  }

  lemma DifferenceRange(x: seq<byte>, y: seq<byte>, lo: nat, hi: nat)
    requires DiffersOnlyIn(x, y, lo, hi)
    ensures lo < hi <= |x| == |y|
  {
  }

  lemma ShiftDifference(x: seq<byte>, y: seq<byte>, lo: nat, hi: nat, k: nat)
    requires DiffersOnlyIn(x, y, lo, hi) && k <= lo
    ensures DiffersOnlyIn(x[k..], y[k..], lo - k, hi - k)
    ensures x[..k] == y[..k]
  {
    assert x[k..][..lo - k] == x[..lo][k..] && y[k..][..lo - k] == y[..lo][k..];
    assert x[k..][hi - k..] == x[hi..] && y[k..][hi - k..] == y[hi..];
    assert x[k..][lo - k..hi - k] == x[lo..hi] && y[k..][lo - k..hi - k] == y[lo..hi];
    assert x[..k] == x[..lo][..k] && y[..k] == y[..lo][..k];
  }

  lemma SameOutside(x: seq<byte>, y: seq<byte>, lo: nat, hi: nat, p: nat, q: nat)
    requires DiffersOnlyIn(x, y, lo, hi) && p <= q <= |x| && (q <= lo || hi <= p)
    ensures x[p..q] == y[p..q]
  {
    forall m | p <= m < q
      ensures x[m] == y[m]
    {
      if m < lo {
        assert x[m] == x[..lo][m] == y[..lo][m] == y[m];
      } else {
        assert x[m] == x[hi..][m - hi] == y[hi..][m - hi] == y[m];
      }
    }
  }

  /** The difference as seen inside a slice that contains it. */
  lemma SliceDiffers(x: seq<byte>, y: seq<byte>, lo: nat, hi: nat, p: nat, q: nat)
    requires DiffersOnlyIn(x, y, lo, hi) && p <= lo && hi <= q <= |x|
    ensures DiffersOnlyIn(x[p..q], y[p..q], lo - p, hi - p)
  {
    SameOutside(x, y, lo, hi, p, lo);
    SameOutside(x, y, lo, hi, hi, q);
    SliceOfSlice(x, p, q, lo, hi);
    SliceOfSlice(y, p, q, lo, hi);
  }

  lemma SliceOfSlice(x: seq<byte>, p: nat, q: nat, lo: nat, hi: nat)
    requires p <= lo <= hi <= q <= |x|
    ensures x[p..q][..lo - p] == x[p..lo] && x[p..q][lo - p..hi - p] == x[lo..hi] && x[p..q][hi - p..] == x[hi..q]
  {
    var t := x[p..q];
    assert forall m | 0 <= m < q - p :: t[m] == x[p + m];
  }

  /** Two words read at one place are equal exactly when their bytes are. */
  lemma WordsDiffer(x: seq<byte>, y: seq<byte>, i: nat, size: nat)
    requires i + size <= |x| && i + size <= |y|
    ensures size == 4 ==> (ReadLE32(x, i) == ReadLE32(y, i) <==> x[i..i + 4] == y[i..i + 4])
    ensures size == 8 ==> (ReadLE64(x, i) == ReadLE64(y, i) <==> x[i..i + 8] == y[i..i + 8])
  {
    hide FromLE;
    if FromLE(x[i..i + size]) == FromLE(y[i..i + size]) {
      FromLEInjective(x[i..i + size], y[i..i + size]);
    }
  }

  /** Exactly word `j` differs. */
  lemma ChangedWord(b: seq<byte>, c: seq<byte>, j: nat, m: nat)
    requires DiffersOnlyIn(b, c, 8 * j, 8 * j + 8) && 8 * m + 8 <= |b|
    ensures |b| == |c|
    ensures ReadLE64(b, 8 * m) != ReadLE64(c, 8 * m) <==> m == j
  {
    hide ReadLE64;
    WordsDiffer(b, c, 8 * m, 8);
    if m != j { SameOutside(b, c, 8 * j, 8 * j + 8, 8 * m, 8 * m + 8); }
  }
}
