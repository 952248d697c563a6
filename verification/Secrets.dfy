/** The default secret and the secrets derived from a seed. */
module Secrets {
  import opened Bits
  import opened Words
  import opened Memory
  import opened Xxh3Short

  /** `XXH3_kSecret`, in rows of 16 bytes. */
  function KSecret(): (s: Secret)
    ensures |s| == 192
  {
    KRows(12)
  }

  function KRows(n: nat): (s: seq<byte>)
    requires n <= 12
    ensures |s| == 16 * n
  {
    if n == 0 then [] else KRows(n - 1) + KRow(n - 1)
  }

  function KRow(k: nat): (s: seq<byte>)
    requires k < 12
    ensures |s| == 16
  {
    match k
    case 0 => [0xb8, 0xfe, 0x6c, 0x39, 0x23, 0xa4, 0x4b, 0xbe, 0x7c, 0x01, 0x81, 0x2c, 0xf7, 0x21, 0xad, 0x1c]
    case 1 => [0xde, 0xd4, 0x6d, 0xe9, 0x83, 0x90, 0x97, 0xdb, 0x72, 0x40, 0xa4, 0xa4, 0xb7, 0xb3, 0x67, 0x1f]
    case 2 => [0xcb, 0x79, 0xe6, 0x4e, 0xcc, 0xc0, 0xe5, 0x78, 0x82, 0x5a, 0xd0, 0x7d, 0xcc, 0xff, 0x72, 0x21]
    case 3 => [0xb8, 0x08, 0x46, 0x74, 0xf7, 0x43, 0x24, 0x8e, 0xe0, 0x35, 0x90, 0xe6, 0x81, 0x3a, 0x26, 0x4c]
    case 4 => [0x3c, 0x28, 0x52, 0xbb, 0x91, 0xc3, 0x00, 0xcb, 0x88, 0xd0, 0x65, 0x8b, 0x1b, 0x53, 0x2e, 0xa3]
    case 5 => [0x71, 0x64, 0x48, 0x97, 0xa2, 0x0d, 0xf9, 0x4e, 0x38, 0x19, 0xef, 0x46, 0xa9, 0xde, 0xac, 0xd8]
    case 6 => [0xa8, 0xfa, 0x76, 0x3f, 0xe3, 0x9c, 0x34, 0x3f, 0xf9, 0xdc, 0xbb, 0xc7, 0xc7, 0x0b, 0x4f, 0x1d]
    case 7 => [0x8a, 0x51, 0xe0, 0x4b, 0xcd, 0xb4, 0x59, 0x31, 0xc8, 0x9f, 0x7e, 0xc9, 0xd9, 0x78, 0x73, 0x64]
    case 8 => [0xea, 0xc5, 0xac, 0x83, 0x34, 0xd3, 0xeb, 0xc3, 0xc5, 0x81, 0xa0, 0xff, 0xfa, 0x13, 0x63, 0xeb]
    case 9 => [0x17, 0x0d, 0xdd, 0x51, 0xb7, 0xf0, 0xda, 0x49, 0xd3, 0x16, 0x55, 0x26, 0x29, 0xd4, 0x68, 0x9e]
    case 10 => [0x2b, 0x16, 0xbe, 0x58, 0x7d, 0x47, 0xa1, 0xfc, 0x8f, 0xf8, 0xb8, 0xd1, 0x7a, 0xd0, 0x31, 0xce]
    case _ => [0x45, 0xcb, 0x3a, 0x8f, 0x95, 0x16, 0x04, 0x28, 0xaf, 0xd7, 0xfb, 0xca, 0xbb, 0x4b, 0x40, 0x7e]
  }

  /** The first `16 * n` bytes of the secret derived from a seed. */
  function DeriveUpTo(seed: u64, n: nat): (s: seq<byte>)
    requires n <= 12
    ensures |s| == 16 * n
  {
    if n == 0 then [] else
    DeriveUpTo(seed, n - 1)
    + ToLE(Add64(ReadLE64(KSecret(), 16 * (n - 1)), seed), 8)
    + ToLE(Sub64(ReadLE64(KSecret(), 16 * (n - 1) + 8), seed), 8)
  }

  function Derive(seed: u64): (s: Secret)
    ensures |s| == 192
  {
    DeriveUpTo(seed, 12)
  }

  /** `XXH3_initCustomSecret_scalar` */
  method InitCustomSecret(customSecret: array<byte>, seed: u64)
    requires customSecret.Length == 192
    modifies customSecret
    ensures customSecret[..] == Derive(seed)
  {
    hide KSecret, ReadLE64, ToLE, Add64, Sub64;
    for i := 0 to 12
      invariant customSecret[..16 * i] == DeriveUpTo(seed, i)
    {
      var lo := Add64(ReadLE64(KSecret(), 16 * i), seed);
      var hi := Sub64(ReadLE64(KSecret(), 16 * i + 8), seed);
      WritePairAt(customSecret, 16 * i, lo, hi);
    }
    assert customSecret[..192] == customSecret[..];
  }

  /** `XXH_writeLE64` */
  method WriteLE64At(dst: array<byte>, p: nat, x: u64)
    requires p + 8 <= dst.Length
    modifies dst
    ensures dst[p..p + 8] == ToLE(x, 8)
    ensures dst[..p] == old(dst[..p]) && dst[p + 8..] == old(dst[p + 8..])
  {
    hide ToLE;
    var s := ToLE(x, 8);
    forall k | 0 <= k < 8 { dst[p + k] := s[k]; }
  }

  /** Two consecutive words. */
  method WritePairAt(dst: array<byte>, p: nat, x: u64, y: u64)
    requires p + 16 <= dst.Length
    modifies dst
    ensures dst[..p + 16] == old(dst[..p]) + ToLE(x, 8) + ToLE(y, 8)
  {
    hide ToLE;
    WriteLE64At(dst, p, x);
    WriteLE64At(dst, p + 8, y);
    assert dst[..p + 8] == dst[..p] + dst[p..p + 8];
    assert dst[..p + 16] == dst[..p + 8] + dst[p + 8..p + 16];
  }

  /** Seed 0 derives the default secret: reading and writing words loses nothing. */
  lemma DeriveZero()
    ensures Derive(0) == KSecret()
  {
    hide KSecret, DeriveUpTo;
    DeriveZeroUpTo(0, KSecret(), 12);
    WholeSlice(KSecret());
  }

  lemma WholeSlice(s: seq<byte>)
    requires |s| == 192
    ensures s[..192] == s
  {
  }

  lemma {:induction false} DeriveZeroUpTo(seed: u64, k: Secret, n: nat)
    requires seed == 0 && k == KSecret() && n <= 12
    ensures DeriveUpTo(seed, n) == k[..16 * n]
  {
    hide KSecret, ReadLE64, ToLE, Add64, Sub64;
    if n > 0 {
      DeriveZeroUpTo(seed, k, n - 1);
      var p := 16 * (n - 1);
      WordKept(k, p);
      WordKept(k, p + 8);
      assert k[..p + 16] == k[..p] + k[p..p + 8] + k[p + 8..p + 8 + 8];
    }
  }

  /** A word read and written back with nothing added is the bytes it was. */
  lemma WordKept(k: seq<byte>, p: nat)
    requires p + 8 <= |k|
    ensures ToLE(Add64(ReadLE64(k, p), 0), 8) == ToLE(Sub64(ReadLE64(k, p), 0), 8) == k[p..p + 8]
  {
    hide FromLE, ToLE;
    ToFrom(k[p..p + 8]);
  }

  // ---------------------------------------------------------------- the seed in the secret

  /** Word `w` of the secret derived from a seed. */
  function DerivedWord(seed: u64, w: nat): u64
    requires w < 24
  {
    if w % 2 == 0 then Add64(ReadLE64(KSecret(), 8 * w), seed) else Sub64(ReadLE64(KSecret(), 8 * w), seed)
  }

  lemma {:induction false} DerivedAt(seed: u64, n: nat, w: nat)
    requires n <= 12 && w < 2 * n
    ensures DeriveUpTo(seed, n)[8 * w..8 * w + 8] == ToLE(DerivedWord(seed, w), 8)
  {
    hide KSecret, ReadLE64, ToLE, Add64, Sub64;
    var s := DeriveUpTo(seed, n - 1);
    var a := ToLE(DerivedWord(seed, 2 * n - 2), 8);
    var b := ToLE(DerivedWord(seed, 2 * n - 1), 8);
    assert DeriveUpTo(seed, n) == s + a + b;
    if w < 2 * n - 2 {
      DerivedAt(seed, n - 1, w);
      assert (s + a + b)[8 * w..8 * w + 8] == s[8 * w..8 * w + 8];
    }
  }

  /** Every one of the 24 words of a derived secret tells its seed. */
  lemma DeriveSeesSeed(s: u64, t: u64, w: nat)
    requires w < 24
    ensures ReadLE64(Derive(s), 8 * w) == ReadLE64(Derive(t), 8 * w) <==> s == t
  {
    hide KSecret, ToLE, FromLE, Add64, Sub64, DeriveUpTo;
    WordSizes();
    DerivedAt(s, 12, w);
    DerivedAt(t, 12, w);
    FromTo(DerivedWord(s, w), 8);
    FromTo(DerivedWord(t, w), 8);
    var k := ReadLE64(KSecret(), 8 * w);
    Add64Keeps(k, s, k, t);
    Sub64Keeps(k, s, t);
  }
}
