/** `XXH3_generateSecret`: a secret of 192 bytes from a custom seed of any size. */
module GenerateSecret {
  import opened Bits
  import opened Words
  import opened Memory
  import opened Canonical
  import opened Xxh3Short
  import opened Secrets
  import opened Xxh3Long
  import opened Xxh3Injective
  import opened Differences

  /** The 96 seed bytes: the custom seed repeated, or cut off when it is longer. */
  function SeedArea(customSeed: seq<byte>): (s: seq<byte>)
    requires customSeed != []
    ensures |s| == 96
  {
    seq(96, i requires 0 <= i < 96 => customSeed[i % |customSeed|])
  }

  /** The fill loop doubles the filled part until 96 bytes are reached. */
  method FillSeeds(customSeed: seq<byte>) returns (seeds: array<byte>)
    requires customSeed != []
    ensures fresh(seeds) && seeds[..] == SeedArea(customSeed)
  {
    seeds := new byte[96];
    var size := |customSeed|;
    var toFill := if size < 96 then size else 96;
    forall i | 0 <= i < toFill { seeds[i] := customSeed[i]; }
    var filled := toFill;
    FirstFill(toFill, size);
    while filled < 96
      invariant 0 < filled <= 96 && (filled == 96 || filled % size == 0)
      invariant forall i | 0 <= i < filled :: seeds[i] == customSeed[i % size]
      decreases 96 - filled
    {
      toFill := if filled < 96 - filled then filled else 96 - filled;
      ghost var before := seeds[..];
      forall i | 0 <= i < toFill { seeds[filled + i] := seeds[i]; }
      Periodic(filled, toFill, size);
      forall i | 0 <= i < filled + toFill
        ensures seeds[i] == customSeed[i % size]
      {
        if i >= filled { assert seeds[i] == before[i - filled] == customSeed[(i - filled) % size]; }
      }
      filled := filled + toFill;
    }
  }

  lemma FirstFill(n: nat, size: nat)
    requires size > 0 && n == if size < 96 then size else 96
    ensures forall i | 0 <= i < n :: i % size == i
    ensures n == 96 || n % size == 0
  {
    forall i | 0 <= i < n
      ensures i % size == i
    {
      DivModUnique(0, i, size, i);
    }
    DivModUnique(1, 0, size, size);
  }

  /** Shifting an index by a multiple of the period does not change its remainder. */
  lemma Periodic(filled: nat, n: nat, size: nat)
    requires size > 0 && filled % size == 0
    ensures forall i | filled <= i < filled + n :: i % size == (i - filled) % size
    ensures (filled + filled) % size == 0
  {
    var c := filled / size;
    forall i | filled <= i < filled + n
      ensures i % size == (i - filled) % size
    {
      var j := i - filled;
      assert i == (c + j / size) * size + j % size;
      DivModUnique(c + j / size, j % size, size, i);
    }
    DivModUnique(c + c, 0, size, filled + filled);
  }

  /** The big-endian form of a 128-bit hash. */
  function Digest(h: Hash128): (s: seq<byte>)
    ensures |s| == 16
  {
    ToBE(h.high64, 8) + ToBE(h.low64, 8)
  }

  function Scrambler(customSeed: seq<byte>): (s: seq<byte>)
    ensures |s| == 16
  {
    Digest(Hash128Of(WithSeed(0), customSeed))
  }

  /** Segment 0 is the hash of the custom seed; segment `k` rehashes it under the
      `k`-th seed word plus `k`. */
  function Segment(customSeed: seq<byte>, k: nat): (s: seq<byte>)
    requires customSeed != [] && k < 12
    ensures |s| == 16
  {
    if k == 0 then Scrambler(customSeed)
    else Digest(Hash128Of(WithSeed(Add64(ReadLE64(SeedArea(customSeed), 8 * k), k)), Scrambler(customSeed)))
  }

  function Segments(customSeed: seq<byte>, n: nat): (s: seq<byte>)
    requires customSeed != [] && n <= 12
    ensures |s| == 16 * n
  {
    if n == 0 then [] else Segments(customSeed, n - 1) + Segment(customSeed, n - 1)
  }

  /** Every one of the 192 bytes is written, the same on either byte order, and the
      result is a secret the hash accepts. */
  method Generate(littleEndian: bool, secretBuffer: array<byte>, customSeed: seq<byte>)
    requires secretBuffer.Length == 192
    modifies secretBuffer
    ensures secretBuffer[..] == if customSeed == [] then KSecret() else Segments(customSeed, 12)
  {
    hide KSecret, Hash128Of, ReadLE64, Add64, Digest, SeedArea;
    if customSeed == [] {
      var k := KSecret();
      forall i | 0 <= i < 192 { secretBuffer[i] := k[i]; }
      assert secretBuffer[..] == k;
      return;
    }
    var h := OneShot128(WithSeed(0), customSeed);
    var scrambler := CanonicalDigest(littleEndian, h);
    var seeds := FillSeeds(customSeed);
    CopyAt(secretBuffer, 0, scrambler);
    FirstSegment(customSeed);
    assert secretBuffer[..16] == Segments(customSeed, 1);
    for segnb := 1 to 12
      invariant secretBuffer[..16 * segnb] == Segments(customSeed, segnb)
      invariant seeds[..] == SeedArea(customSeed) && seeds != secretBuffer
    {
      h := OneShot128(WithSeed(Add64(ReadLE64(seeds[..], 8 * segnb), segnb)), scrambler);
      var segment := CanonicalDigest(littleEndian, h);
      CopyAt(secretBuffer, 16 * segnb, segment);
    }
    WholeSlice(secretBuffer[..]);
    assert secretBuffer[..192] == secretBuffer[..][..192];
  }

  lemma FirstSegment(customSeed: seq<byte>)
    requires customSeed != []
    ensures Segments(customSeed, 1) == Scrambler(customSeed)
  {
    hide Scrambler, Digest, Hash128Of;
    assert Segments(customSeed, 0) == [];
  }

  method CanonicalDigest(littleEndian: bool, h: Hash128) returns (s: seq<byte>)
    ensures s == Digest(h)
  {
    hide CanonicalFromHash;
    Canonical128RoundTrip(littleEndian, h, Digest(h));
    s := CanonicalFromHash128(littleEndian, h);
  }

  method CopyAt(dst: array<byte>, p: nat, s: seq<byte>)
    requires p + |s| <= dst.Length
    modifies dst
    ensures dst[..p + |s|] == old(dst[..p]) + s
  {
    forall i | 0 <= i < |s| { dst[p + i] := s[i]; }
  }

  // ---------------------------------------------------------------- what the secret tells of the custom seed

  lemma DigestInjective(h: Hash128, g: Hash128)
    ensures Digest(h) == Digest(g) <==> h == g
  {
    hide ToBE, CanonicalFromHash128, HashFromCanonical128;
    Canonical128RoundTrip(true, h, Digest(h));
    Canonical128RoundTrip(true, g, Digest(g));
  }

  /** Under one scrambler a segment tells the seed word it was made with. */
  lemma SegmentDecides(c: seq<byte>, d: seq<byte>, k: nat)
    requires c != [] && d != [] && 1 <= k < 12 && Scrambler(c) == Scrambler(d)
    ensures Segment(c, k) == Segment(d, k) <==> SeedArea(c)[8 * k..8 * k + 8] == SeedArea(d)[8 * k..8 * k + 8]
  {
    hide Digest, Scrambler, SeedArea, ReadLE64, Add64, Short128, KSecret;
    var x, u, v := Scrambler(c), ReadLE64(SeedArea(c), 8 * k), ReadLE64(SeedArea(d), 8 * k);
    var s, t := Add64(u, k), Add64(v, k);
    DigestInjective(Hash128Of(WithSeed(s), x), Hash128Of(WithSeed(t), x));
    SeedDetected128(x, KSecret(), s, t);
    Add64Keeps(u, k, v, k);
    WordsDiffer(SeedArea(c), SeedArea(d), 8 * k, 8);
  }

  lemma {:induction false} SegmentsDecide(c: seq<byte>, d: seq<byte>, n: nat)
    requires c != [] && d != [] && n <= 12
    ensures Segments(c, n) == Segments(d, n) <==> forall k | 0 <= k < n :: Segment(c, k) == Segment(d, k)
  {
    hide Segment;
    if n > 0 {
      SegmentsDecide(c, d, n - 1);
      ConcatDecides(Segments(c, n - 1), Segment(c, n - 1), Segments(d, n - 1), Segment(d, n - 1));
    }
  }

  lemma ConcatDecides(a: seq<byte>, b: seq<byte>, c: seq<byte>, d: seq<byte>)
    requires |a| == |c|
    ensures a + b == c + d <==> a == c && b == d
  {
    assert (a + b)[..|a|] == a && (a + b)[|a|..] == b;
    assert (c + d)[..|a|] == c && (c + d)[|a|..] == d;
  }

  /** Two custom seeds generate the same secret exactly when they have the same hash and
      fill the same seed area from byte 8 on; its first word is never read. */
  lemma GenerateDecides(c: seq<byte>, d: seq<byte>)
    requires c != [] && d != []
    ensures Segments(c, 12) == Segments(d, 12)
       <==> Hash128Of(WithSeed(0), c) == Hash128Of(WithSeed(0), d) && SeedArea(c)[8..] == SeedArea(d)[8..]
  {
    hide Segments, SeedArea, Hash128Of, Digest;
    SegmentsDecide(c, d, 12);
    DigestInjective(Hash128Of(WithSeed(0), c), Hash128Of(WithSeed(0), d));
    if Segments(c, 12) == Segments(d, 12) {
      assert Segment(c, 0) == Segment(d, 0);
      forall k | 1 <= k < 12
        ensures SeedArea(c)[8 * k..8 * k + 8] == SeedArea(d)[8 * k..8 * k + 8]
      {
        assert Segment(c, k) == Segment(d, k);
        SegmentDecides(c, d, k);
      }
      WordsCover(SeedArea(c), SeedArea(d));
    }
    if Hash128Of(WithSeed(0), c) == Hash128Of(WithSeed(0), d) && SeedArea(c)[8..] == SeedArea(d)[8..] {
      forall k | 0 <= k < 12
        ensures Segment(c, k) == Segment(d, k)
      {
        if k > 0 {
          WordInRest(SeedArea(c), SeedArea(d), k);
          SegmentDecides(c, d, k);
        }
      }
    }
  }

  lemma WordsCover(a: seq<byte>, b: seq<byte>)
    requires |a| == |b| == 96 && forall k | 1 <= k < 12 :: a[8 * k..8 * k + 8] == b[8 * k..8 * k + 8]
    ensures a[8..] == b[8..]
  {
    forall i | 8 <= i < 96
      ensures a[i] == b[i]
    {
      var k := i / 8;
      assert a[i] == a[8 * k..8 * k + 8][i - 8 * k] == b[8 * k..8 * k + 8][i - 8 * k] == b[i];
    }
  }

  lemma WordInRest(a: seq<byte>, b: seq<byte>, k: nat)
    requires |a| == |b| == 96 && a[8..] == b[8..] && 1 <= k < 12
    ensures a[8 * k..8 * k + 8] == b[8 * k..8 * k + 8]
  {
    assert a[8 * k..8 * k + 8] == a[8..][8 * k - 8..8 * k];
    assert b[8 * k..8 * k + 8] == b[8..][8 * k - 8..8 * k];
  }

  /** So no two custom seeds of one size up to 88 bytes generate the same secret: what
      the first word holds is then repeated, or held whole, further on. */
  lemma GenerateInjective(c: seq<byte>, d: seq<byte>)
    requires 1 <= |c| == |d| <= 88
    ensures Segments(c, 12) == Segments(d, 12) <==> c == d
  {
    hide Segments, Hash128Of;
    GenerateDecides(c, d);
    if SeedArea(c)[8..] == SeedArea(d)[8..] {
      forall i | 0 <= i < |c|
        ensures c[i] == d[i]
      {
        var j := if i < 8 then i + |c| * ((|c| + 7 - i) / |c|) else i;
        LaterCopy(i, |c|);
        assert SeedArea(c)[8..][j - 8] == SeedArea(d)[8..][j - 8];
      }
    }
  }

  /** Byte `i` of the custom seed also stands at a place from 8 to 95 of the seed area. */
  lemma LaterCopy(i: nat, n: nat)
    requires i < n <= 88
    ensures var j := if i < 8 then i + n * ((n + 7 - i) / n) else i; 8 <= j < 96 && j % n == i
  {
    if i < 8 {
      var q := (n + 7 - i) / n;
      assert (n + 7 - i) == q * n + (n + 7 - i) % n;
      DivModUnique(q, i, n, i + n * q);
    } else {
      DivModUnique(0, i, n, i);
    }
  }
}
