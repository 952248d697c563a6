/** Byte order: reading and writing words in memory, the byte swaps, and the
    canonical (big-endian) form of a hash value. */
module Memory {
  import opened Bits
  import opened Words

  /** The data fed in a sequence of chunks. */
  function Concat(chunks: seq<seq<byte>>): seq<byte> {
    if chunks == [] then [] else Concat(chunks[..|chunks| - 1]) + chunks[|chunks| - 1]
  }

  /** The number whose bytes, least significant first, are `s`. */
  function FromLE(s: seq<byte>): (x: nat)
    ensures x < Pow2(8 * |s|)
  {
    if s == [] then 0 else
    Pow2Byte(|s| - 1);
    s[0] + 256 * FromLE(s[1..])
  }

  function ToLE(x: nat, n: nat): (s: seq<byte>)
    ensures |s| == n
  {
    if n == 0 then [] else [x % 256] + ToLE(x / 256, n - 1)
  }

  function Reverse(s: seq<byte>): (r: seq<byte>)
    ensures |r| == |s|
    ensures forall i :: 0 <= i < |s| ==> r[i] == s[|s| - 1 - i]
  {
    seq(|s|, i requires 0 <= i < |s| => s[|s| - 1 - i])
  }

  function ToBE(x: nat, n: nat): (s: seq<byte>)
    ensures |s| == n
  {
    Reverse(ToLE(x, n))
  }

  function FromBE(s: seq<byte>): nat { FromLE(Reverse(s)) }

  lemma Pow2Byte(n: nat)
    ensures Pow2(8 * (n + 1)) == 256 * Pow2(8 * n)
  {
    Pow2Add(8, 8 * n);
    assert Pow2(8) == 256;
  }

  lemma {:induction false} FromTo(x: nat, n: nat)
    requires x < Pow2(8 * n)
    ensures FromLE(ToLE(x, n)) == x
  {
    if n > 0 {
      Pow2Byte(n - 1);
      FromTo(x / 256, n - 1);
      assert ToLE(x, n)[1..] == ToLE(x / 256, n - 1);
    }
  }

  lemma {:induction false} ToFrom(s: seq<byte>)
    ensures ToLE(FromLE(s), |s|) == s
  {
    if s != [] {
      ToFrom(s[1..]);
    }
  }

  lemma FromLEInjective(s: seq<byte>, t: seq<byte>)
    requires |s| == |t| && FromLE(s) == FromLE(t)
    ensures s == t
  {
    ToFrom(s);
    ToFrom(t);
  }

  lemma FromToBE(x: nat, n: nat)
    requires x < Pow2(8 * n)
    ensures FromBE(ToBE(x, n)) == x
  {
    FromTo(x, n);
    assert Reverse(Reverse(ToLE(x, n))) == ToLE(x, n);
  }

  lemma ToFromBE(s: seq<byte>)
    ensures ToBE(FromBE(s), |s|) == s
  {
    ToFrom(Reverse(s));
    assert Reverse(Reverse(s)) == s;
  }

  /** The memory with the lowest bit of byte `i` inverted. */
  function FlipBit(s: seq<byte>, i: nat): (r: seq<byte>)
    requires i < |s|
    ensures |r| == |s| && r[i] != s[i] && forall k | 0 <= k < |s| && k != i :: r[k] == s[k]
  {
    s[i := if s[i] % 2 == 0 then s[i] + 1 else s[i] - 1]
  }

  /** It inverts the matching bit of the number. */
  lemma {:induction false} FlipBitIsXor(s: seq<byte>, i: nat)
    requires i < |s|
    ensures FromLE(FlipBit(s, i)) == Xor(FromLE(s), Pow2(8 * i))
  {
    hide Xor, Shl;
    var r := FromLE(s[1..]);
    if i == 0 {
      assert FlipBit(s, 0)[1..] == s[1..];
      XorFlip(FromLE(s), 0);
      LowBit(s[0], r);
    } else {
      FlipBitIsXor(s[1..], i - 1);
      assert FlipBit(s, i)[1..] == FlipBit(s[1..], i - 1);
      Pow2Byte(0);
      Pow2Byte(i - 1);
      var p := Pow2(8 * (i - 1));
      XorConcat(r, s[0], p, 0, 8);
      Shl8(r);
      Shl8(p);
      Shl8(Xor(r, p));
      XorZero(s[0]);
    }
  }

  lemma LowBit(b: byte, r: nat)
    ensures Bit(b + 256 * r, 0) <==> b % 2 == 1
    ensures Pow2(0) == 1
  {
  }

  // ---------------------------------------------------------------- word reads

  /** `XXH_readLE32` and `XXH_readLE64` at offset `i`. */
  function ReadLE32(s: seq<byte>, i: nat): u32
    requires i + 4 <= |s|
  {
    WordSizes();
    FromLE(s[i..i + 4])
  }

  function ReadLE64(s: seq<byte>, i: nat): u64
    requires i + 8 <= |s|
  {
    WordSizes();
    FromLE(s[i..i + 8])
  }

  /** A read depends only on the bytes it reads. */
  lemma ReadOfSlice(s: seq<byte>, i: nat, n: nat, k: nat, size: nat)
    requires i + n <= |s| && k + size <= n
    ensures s[i..i + n][k..k + size] == s[i + k..i + k + size]
    ensures size == 4 ==> ReadLE32(s[i..i + n], k) == ReadLE32(s, i + k)
    ensures size == 8 ==> ReadLE64(s[i..i + n], k) == ReadLE64(s, i + k)
  {
    hide FromLE;
    var t := s[i..i + n];
    assert t[k..k + size] == s[i + k..i + k + size] by {
      assert forall m | 0 <= m < n :: t[m] == s[i + m];
    }
  }

  /** A buffer with the bytes `x` written at `at`. */
  function Overwrite(buf: seq<byte>, at: nat, x: seq<byte>): (r: seq<byte>)
    requires at + |x| <= |buf|
    ensures |r| == |buf|
    ensures forall i | 0 <= i < |buf| :: r[i] == if at <= i < at + |x| then x[i - at] else buf[i]
  {
    buf[..at] + x + buf[at + |x|..]
  }

  lemma SuffixOfConcat(s: seq<byte>, t: seq<byte>, p: nat)
    requires p <= |t|
    ensures (s + t)[|s| + p..] == t[p..]
  {
  }

  lemma SliceOfConcat(s: seq<byte>, t: seq<byte>, p: nat, q: nat)
    requires p <= q <= |t|
    ensures (s + t)[|s| + p..|s| + q] == t[p..q]
  {
  }

  /** What the processor loads from memory, in its own byte order. */
  function Native(littleEndian: bool, s: seq<byte>): nat {
    if littleEndian then FromLE(s) else FromBE(s)
  }

  function NativeBytes(littleEndian: bool, x: nat, n: nat): (s: seq<byte>)
    ensures |s| == n
  {
    if littleEndian then ToLE(x, n) else ToBE(x, n)
  }

  /** `XXH_swap32` (n = 4) and `XXH_swap64` (n = 8): byte `i` is shifted to
      byte `n - 1 - i`, isolated with a mask, and or-ed into the result. */
  function SwapTerm(x: nat, n: nat, i: nat): nat
    requires i < n
  {
    And(if 2 * i < n - 1 then Shl(x, 8 * (n - 1 - 2 * i)) % Pow2(8 * n)
        else Shr(x, 8 * (2 * i - (n - 1))),
        Shl(0xff, 8 * (n - 1 - i)))
  }

  function SwapFrom(x: nat, n: nat, i: nat): nat
    requires i <= n
    decreases n - i
  {
    if i == n then 0 else Or(SwapTerm(x, n, i), SwapFrom(x, n, i + 1))
  }

  function Swap(x: nat, n: nat): nat { SwapFrom(x, n, 0) }

  /** Byte `i` of a number. */
  function ByteAt(x: nat, i: nat): byte { Shr(x, 8 * i) % 256 }

  lemma {:induction false} ToLEAt(x: nat, n: nat, i: nat)
    requires i < n
    ensures ToLE(x, n)[i] == ByteAt(x, i)
  {
    if i > 0 {
      ToLEAt(x / 256, n - 1, i - 1);
      ShrShr(x, 8, 8 * (i - 1));
      ShrIsDiv(x, 8);
      assert Pow2(8) == 256;
    }
  }

  lemma {:induction false} ShrShl(x: nat, k: nat)
    ensures Shr(Shl(x, k), k) == x
  {
    if k > 0 { ShrShl(x, k - 1); }
  }

  lemma {:induction false} ShlShl(x: nat, a: nat, b: nat)
    ensures Shl(Shl(x, a), b) == Shl(x, a + b)
    decreases b
  {
    if b > 0 { ShlShl(x, a, b - 1); }
  }

  lemma ShrOfMod(x: nat, k: nat, w: nat)
    requires k <= w
    ensures Shr(x % Pow2(w), k) == Shr(x, k) % Pow2(w - k)
  {
    hide Pow2, Shr;
    ShrIsDiv(x % Pow2(w), k);
    ShrIsDiv(x, k);
    Pow2Add(w - k, k);
    ModDivide(x, Pow2(w - k), Pow2(k));
  }

  lemma ModDivide(x: nat, m: nat, n: nat)
    requires m > 0 && n > 0 && m * n > 0
    ensures x % (m * n) / n == x / n % m
  {
    var p := m * n;
    var q, r := x / p, x % p;
    DivideTwice(x, q, r / n, r % n, m, n, p);
  }

  lemma DivideTwice(x: nat, q: nat, a: nat, b: nat, m: nat, n: nat, p: nat)
    requires b < n && p == m * n && a * n + b < p && x == q * p + a * n + b
    ensures x / n % m == a
  {
    assert a >= m ==> a * n >= m * n;
    assert q * p == q * m * n;
    DivModUnique(q * m + a, b, n, x);
    DivModUnique(q, a, m, q * m + a);
  }

  lemma SwapTermIs(x: nat, n: nat, i: nat)
    requires i < n && x < Pow2(8 * n)
    ensures SwapTerm(x, n, i) == Shl(ByteAt(x, i), 8 * (n - 1 - i))
  {
    hide And, Shl, Shr, Pow2;
    var k := 8 * (n - 1 - i);
    Pow2Byte(0);
    Pow2Zero();
    if 2 * i < n - 1 {
      var a := 8 * (n - 1 - 2 * i);
      AndField(Shl(x, a) % Pow2(8 * n), k, 8);
      ShrOfMod(Shl(x, a), k, 8 * n);
      ShrShr(Shl(x, a), a, 8 * i);
      ShrShl(x, a);
      Pow2Byte(i);
      ModOfMod(Shr(x, 8 * i), Pow2(8 * i));
    } else {
      var a := 8 * (2 * i - (n - 1));
      AndField(Shr(x, a), k, 8);
      ShrShr(x, a, k);
    }
  }

  lemma Pow2Zero()
    ensures Pow2(0) == 1
  {
  }

  lemma ModOfMod(x: nat, p: nat)
    requires p > 0
    ensures x % (256 * p) % 256 == x % 256
  {
    var q := x / (256 * p);
    var r := x % (256 * p);
    assert x == 256 * (q * p) + r;
  }

  lemma Shl8(x: nat)
    ensures Shl(x, 8) == 256 * x
  {
    ShlIsMul(x, 8);
    assert Pow2(8) == 256;
  }

  lemma {:induction false} FromLEAppend(s: seq<byte>, b: byte)
    ensures FromLE(s + [b]) == Shl(b, 8 * |s|) + FromLE(s)
  {
    if s == [] {
      assert (s + [b])[1..] == [];
    } else {
      FromLEAppend(s[1..], b);
      assert (s + [b])[1..] == s[1..] + [b];
      ShlShl(b, 8 * (|s| - 1), 8);
      Shl8(Shl(b, 8 * (|s| - 1)));
    }
  }

  lemma {:induction false} SwapFromIs(x: nat, n: nat, i: nat)
    requires i <= n && x < Pow2(8 * n)
    ensures SwapFrom(x, n, i) == FromLE(ToBE(x, n)[..n - i])
    decreases n - i
  {
    hide SwapTerm, Shl, Shr, Or, Pow2, ToLE;
    var r := ToBE(x, n);
    if i < n {
      SwapFromIs(x, n, i + 1);
      SwapTermIs(x, n, i);
      ToLEAt(x, n, i);
      var s := r[..n - 1 - i];
      assert r[..n - i] == s + [r[n - 1 - i]];
      FromLEAppend(s, r[n - 1 - i]);
      OrDisjoint(r[n - 1 - i], FromLE(s), 8 * |s|);
    }
  }

  /** The byte swap reads the bytes of its argument in the opposite order. */
  lemma SwapReverses(x: nat, n: nat)
    requires x < Pow2(8 * n)
    ensures Swap(x, n) == FromBE(ToLE(x, n))
  {
    SwapFromIs(x, n, 0);
    assert ToBE(x, n)[..n] == ToBE(x, n);
  }

  lemma SwapTwice(x: nat, n: nat)
    requires x < Pow2(8 * n)
    ensures Swap(x, n) < Pow2(8 * n) && Swap(Swap(x, n), n) == x
  {
    hide Swap, Pow2, ToLE, FromLE;
    SwapReverses(x, n);
    SwapReverses(Swap(x, n), n);
    ToFrom(ToBE(x, n));
    assert Reverse(Reverse(ToLE(x, n))) == ToLE(x, n);
    FromTo(x, n);
  }

  function Swap32(x: u32): u32 {
    WordSizes();
    SwapReverses(x, 4);
    Swap(x, 4)
  }

  function Swap64(x: u64): u64 {
    WordSizes();
    SwapReverses(x, 8);
    Swap(x, 8)
  }

  lemma Swap32Twice(x: u32)
    ensures Swap32(Swap32(x)) == x
  {
    WordSizes();
    SwapTwice(x, 4);
  }

  lemma Swap64Twice(x: u64)
    ensures Swap64(Swap64(x)) == x
  {
    WordSizes();
    SwapTwice(x, 8);
  }

  /** The endian-independent load: bytes shifted into place and or-ed together. */
  function ByteShiftLoad(s: seq<byte>): nat {
    if s == [] then 0
    else Or(ByteShiftLoad(s[..|s| - 1]), Shl(s[|s| - 1], 8 * (|s| - 1)))
  }

  lemma {:induction false} ByteShiftLoadIs(s: seq<byte>)
    ensures ByteShiftLoad(s) == FromLE(s)
  {
    hide Shl, Or, FromLE, Pow2;
    if s == [] {
      FromLEEmpty();
    } else {
      var t := s[..|s| - 1];
      ByteShiftLoadIs(t);
      FromLEAppend(t, s[|s| - 1]);
      assert s == t + [s[|s| - 1]];
      OrDisjoint(s[|s| - 1], FromLE(t), 8 * |t|);
    }
  }

  lemma FromLEEmpty()
    ensures FromLE([]) == 0
  {
  }

  /** Both little-endian loads and both big-endian loads give the same number,
      on processors of either byte order. */
  lemma LoadsAgree(littleEndian: bool, s: seq<byte>)
    ensures FromLE(s) == ByteShiftLoad(s)
    ensures FromLE(s) == if littleEndian then Native(littleEndian, s) else Swap(Native(littleEndian, s), |s|)
    ensures FromBE(s) == ByteShiftLoad(Reverse(s))
    ensures FromBE(s) == if littleEndian then Swap(Native(littleEndian, s), |s|) else Native(littleEndian, s)
  {
    ByteShiftLoadIs(s);
    ByteShiftLoadIs(Reverse(s));
    SwapReverses(FromLE(s), |s|);
    SwapReverses(FromBE(s), |s|);
    ToFrom(s);
    ToFrom(Reverse(s));
    assert Reverse(Reverse(s)) == s;
  }

  /** `XXH_writeLE64` stores the bytes least significant first on either byte order. */
  lemma StoresAgree(littleEndian: bool, x: u64)
    ensures NativeBytes(littleEndian, if littleEndian then x else Swap64(x), 8) == ToLE(x, 8)
  {
    WordSizes();
    SwapReverses(x, 8);
    ToFromBE(ToLE(x, 8));
  }
}
