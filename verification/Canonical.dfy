/** The canonical (big-endian) form of 32-, 64- and 128-bit hashes and the
    comparison of 128-bit hashes. */
module Canonical {
  import opened Bits
  import opened Words
  import opened Memory

  datatype Hash128 = Hash128(low64: u64, high64: u64)

  /** `XXH32_canonicalFromHash` (n = 4) and `XXH64_canonicalFromHash` (n = 8). */
  function CanonicalFromHash(littleEndian: bool, hash: nat, n: nat): (s: seq<byte>)
    ensures |s| == n
  {
    NativeBytes(littleEndian, if littleEndian then Swap(hash, n) else hash, n)
  }

  /** `XXH32_hashFromCanonical` and `XXH64_hashFromCanonical`: a big-endian load. */
  function HashFromCanonical(littleEndian: bool, digest: seq<byte>): nat {
    if littleEndian then Swap(Native(littleEndian, digest), |digest|) else Native(littleEndian, digest)
  }

  function CanonicalFromHash128(littleEndian: bool, hash: Hash128): (s: seq<byte>)
    ensures |s| == 16
  {
    CanonicalFromHash(littleEndian, hash.high64, 8) + CanonicalFromHash(littleEndian, hash.low64, 8)
  }

  function HashFromCanonical128(littleEndian: bool, digest: seq<byte>): Hash128
    requires |digest| == 16
  {
    CanonicalBound(littleEndian, digest[..8]);
    CanonicalBound(littleEndian, digest[8..]);
    Hash128(HashFromCanonical(littleEndian, digest[8..]), HashFromCanonical(littleEndian, digest[..8]))
  }

  lemma CanonicalBound(littleEndian: bool, digest: seq<byte>)
    requires |digest| == 8
    ensures HashFromCanonical(littleEndian, digest) < 0x1_0000_0000_0000_0000
  {
    hide Pow2, FromLE;
    WordSizes();
    LoadsAgree(littleEndian, digest);
  }

  /** The canonical form is big-endian whatever the processor's byte order, and
      the two conversions undo each other. */
  lemma CanonicalRoundTrip(littleEndian: bool, hash: nat, n: nat)
    requires hash < Pow2(8 * n)
    ensures CanonicalFromHash(littleEndian, hash, n) == ToBE(hash, n)
    ensures HashFromCanonical(littleEndian, CanonicalFromHash(littleEndian, hash, n)) == hash
  {
    SwapReverses(hash, n);
    ToFromBE(ToLE(hash, n));
    assert ToLE(Swap(hash, n), n) == ToBE(hash, n) by {
      assert Swap(hash, n) == FromLE(ToBE(hash, n));
      ToFrom(ToBE(hash, n));
    }
    LoadsAgree(littleEndian, ToBE(hash, n));
    FromToBE(hash, n);
  }

  lemma CanonicalRoundTripBack(littleEndian: bool, digest: seq<byte>)
    ensures HashFromCanonical(littleEndian, digest) == FromBE(digest)
    ensures CanonicalFromHash(littleEndian, HashFromCanonical(littleEndian, digest), |digest|) == digest
  {
    LoadsAgree(littleEndian, digest);
    CanonicalRoundTrip(littleEndian, FromBE(digest), |digest|);
    ToFromBE(digest);
  }

  lemma Canonical128RoundTrip(littleEndian: bool, hash: Hash128, digest: seq<byte>)
    requires |digest| == 16
    ensures CanonicalFromHash128(littleEndian, hash) == ToBE(hash.high64, 8) + ToBE(hash.low64, 8)
    ensures HashFromCanonical128(littleEndian, CanonicalFromHash128(littleEndian, hash)) == hash
    ensures CanonicalFromHash128(littleEndian, HashFromCanonical128(littleEndian, digest)) == digest
  {
    hide CanonicalFromHash, HashFromCanonical, ToBE;
    WordSizes();
    CanonicalRoundTrip(littleEndian, hash.high64, 8);
    CanonicalRoundTrip(littleEndian, hash.low64, 8);
    var c := CanonicalFromHash128(littleEndian, hash);
    assert c[..8] == ToBE(hash.high64, 8) && c[8..] == ToBE(hash.low64, 8);
    CanonicalRoundTripBack(littleEndian, digest[..8]);
    CanonicalRoundTripBack(littleEndian, digest[8..]);
    assert digest[..8] + digest[8..] == digest;
  }

  // ---------------------------------------------------------------- ordering

  /** `XXH128_cmp`. */
  function Compare(h1: Hash128, h2: Hash128): int {
    var hcmp := Flag(h1.high64 > h2.high64) - Flag(h2.high64 > h1.high64);
    if hcmp != 0 then hcmp else Flag(h1.low64 > h2.low64) - Flag(h2.low64 > h1.low64)
  }

  function Flag(b: bool): int { if b then 1 else 0 }

  /** `XXH128_isEqual`: `memcmp` of the two structures, field by field. */
  predicate IsEqual(littleEndian: bool, h1: Hash128, h2: Hash128) {
    NativeBytes(littleEndian, h1.low64, 8) + NativeBytes(littleEndian, h1.high64, 8)
    == NativeBytes(littleEndian, h2.low64, 8) + NativeBytes(littleEndian, h2.high64, 8)
  }

  /** Byte strings in dictionary order, as `memcmp` orders them. */
  predicate LexLess(s: seq<byte>, t: seq<byte>)
    requires |s| == |t|
  {
    s != [] && (s[0] < t[0] || (s[0] == t[0] && LexLess(s[1..], t[1..])))
  }

  lemma {:induction false} BigEndianIsLexicographic(s: seq<byte>, t: seq<byte>)
    requires |s| == |t|
    ensures FromBE(s) < FromBE(t) <==> LexLess(s, t)
  {
    hide FromLE, Pow2, Shl;
    if s != [] {
      var s', t' := s[1..], t[1..];
      BigEndianIsLexicographic(s', t');
      assert Reverse(s) == Reverse(s') + [s[0]];
      assert Reverse(t) == Reverse(t') + [t[0]];
      FromLEAppend(Reverse(s'), s[0]);
      FromLEAppend(Reverse(t'), t[0]);
      var k := 8 * |s'|;
      ShlIsMul(s[0], k);
      ShlIsMul(t[0], k);
      HighByteDecides(s[0], FromBE(s'), t[0], FromBE(t'), Pow2(k));
    } else {
      assert Reverse(s) == Reverse(t);
    }
  }

  lemma HighByteDecides(a: nat, x: nat, b: nat, y: nat, p: nat)
    requires x < p && y < p
    ensures a * p + x < b * p + y <==> a < b || (a == b && x < y)
  {
    if a < b {
      assert (a + 1) * p <= b * p;
    } else if b < a {
      assert (b + 1) * p <= a * p;
    }
  }

  /** `XXH128_cmp` orders hashes as `memcmp` orders their canonical forms. */
  lemma CompareIsLexicographic(littleEndian: bool, h1: Hash128, h2: Hash128)
    ensures Compare(h1, h2) < 0
       <==> LexLess(CanonicalFromHash128(littleEndian, h1), CanonicalFromHash128(littleEndian, h2))
  {
    hide CanonicalFromHash128, FromBE, LexLess, ToBE;
    var c1, c2 := CanonicalFromHash128(littleEndian, h1), CanonicalFromHash128(littleEndian, h2);
    Canonical128RoundTrip(littleEndian, h1, c1);
    Canonical128RoundTrip(littleEndian, h2, c2);
    CanonicalValue(h1);
    CanonicalValue(h2);
    BigEndianIsLexicographic(c1, c2);
  }

  lemma CanonicalValue(h: Hash128)
    ensures FromBE(ToBE(h.high64, 8) + ToBE(h.low64, 8)) == h.high64 * 0x1_0000_0000_0000_0000 + h.low64
  {
    hide ToLE, FromLE, Pow2;
    WordSizes();
    var a, b := ToLE(h.low64, 8), ToLE(h.high64, 8);
    assert Reverse(ToBE(h.high64, 8) + ToBE(h.low64, 8)) == a + b;
    FromLEConcat(a, b);
    ShlIsMul(FromLE(b), 64);
    FromTo(h.low64, 8);
    FromTo(h.high64, 8);
  }

  lemma {:induction false} FromLEConcat(s: seq<byte>, t: seq<byte>)
    ensures FromLE(s + t) == FromLE(s) + Shl(FromLE(t), 8 * |s|)
  {
    hide Pow2;
    if s == [] {
      assert s + t == t;
    } else {
      FromLEConcat(s[1..], t);
      assert (s + t)[1..] == s[1..] + t;
      ShlShl(FromLE(t), 8 * (|s| - 1), 8);
      Shl8(Shl(FromLE(t), 8 * (|s| - 1)));
    }
  }

  /** The comparison is a total order whose equality is `XXH128_isEqual`. */
  lemma CompareIsTotalOrder(littleEndian: bool, a: Hash128, b: Hash128, c: Hash128)
    ensures Compare(a, b) == 0 <==> a == b
    ensures IsEqual(littleEndian, a, b) <==> a == b
    ensures Compare(a, b) == -Compare(b, a)
    ensures Compare(a, b) <= 0 && Compare(b, c) <= 0 ==> Compare(a, c) <= 0
  {
    hide NativeBytes;
    if IsEqual(littleEndian, a, b) {
      NativeBytesInjective(littleEndian, a.low64, b.low64);
      NativeBytesInjective(littleEndian, a.high64, b.high64);
      var x, y := NativeBytes(littleEndian, a.low64, 8), NativeBytes(littleEndian, b.low64, 8);
      var z, w := NativeBytes(littleEndian, a.high64, 8), NativeBytes(littleEndian, b.high64, 8);
      assert x == (x + z)[..8] && y == (y + w)[..8] && z == (x + z)[8..] && w == (y + w)[8..];
    }
  }

  lemma NativeBytesInjective(littleEndian: bool, x: u64, y: u64)
    ensures NativeBytes(littleEndian, x, 8) == NativeBytes(littleEndian, y, 8) ==> x == y
  {
    WordSizes();
    FromTo(x, 8);
    FromTo(y, 8);
    FromToBE(x, 8);
    FromToBE(y, 8);
  }
}
