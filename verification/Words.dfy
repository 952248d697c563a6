/** Unsigned machine words: 8, 32 and 64 bits wide, with the wrap-around of C's
    unsigned arithmetic, and the facts that make the mixing steps reversible. */
module Words {
  import opened Bits

  type byte = x: int | 0 <= x < 0x100
  type u32 = x: int | 0 <= x < 0x1_0000_0000
  type u64 = x: int | 0 <= x < 0x1_0000_0000_0000_0000

  /** A cast to a 32-bit (64-bit) unsigned type. */
  function Wrap32(x: int): u32 { x % 0x1_0000_0000 }
  function Wrap64(x: int): u64 { x % 0x1_0000_0000_0000_0000 }

  function Add32(x: u32, y: u32): u32 { Wrap32(x + y) }
  function Sub32(x: u32, y: u32): u32 { Wrap32(x - y) }
  function Mul32(x: u32, y: u32): u32 { Wrap32(x * y) }
  function Add64(x: u64, y: u64): u64 { Wrap64(x + y) }
  function Sub64(x: u64, y: u64): u64 { Wrap64(x - y) }
  function Mul64(x: u64, y: u64): u64 { Wrap64(x * y) }

  /** Sums may be reduced at any point. */
  lemma WrapSum(x: int, c: int)
    ensures Wrap64(Wrap64(x) + c) == Wrap64(x + c)
  {
    var q, s := x / 0x1_0000_0000_0000_0000, Wrap64(x) + c;
    DivModUnique(q + s / 0x1_0000_0000_0000_0000, Wrap64(s), 0x1_0000_0000_0000_0000, x + c);
  }

  /** A length counter that wraps at each step holds the wrapped total. */
  lemma CounterAfter(before: nat, len: nat)
    ensures Add64(Wrap64(before), Wrap64(len)) == Wrap64(before + len)
  {
    hide Wrap64;
    WrapSum(before, Wrap64(len));
    WrapSum(len, before);
  }

  lemma WrapSum32(x: int, c: int)
    ensures Wrap32(Wrap32(x) + c) == Wrap32(x + c)
  {
    var q, s := x / 0x1_0000_0000, Wrap32(x) + c;
    DivModUnique(q + s / 0x1_0000_0000, Wrap32(s), 0x1_0000_0000, x + c);
  }

  /** A sum of two words wraps at most once. */
  lemma WrapOnce(s: int)
    requires 0 <= s < 0x2_0000_0000_0000_0000
    ensures Wrap64(s) == if s < 0x1_0000_0000_0000_0000 then s else s - 0x1_0000_0000_0000_0000
  {
  }

  /** A sum changes with either of its terms. */
  lemma Add64Keeps(a: u64, c: u64, b: u64, d: u64)
    ensures a == b ==> (Add64(a, c) == Add64(b, d) <==> c == d)
    ensures c == d ==> (Add64(a, c) == Add64(b, d) <==> a == b)
  {
    hide Wrap64;
    WrapOnce(a + c);
    WrapOnce(b + d);
  }

  lemma WordSizes()
    ensures Pow2(32) == 0x1_0000_0000
    ensures Pow2(64) == 0x1_0000_0000_0000_0000
  {
    assert Pow2(8) == 256;
    Pow2Add(8, 8);
    Pow2Add(16, 16);
    Pow2Add(32, 32);
  }

  function Xor32(x: u32, y: u32): u32 {
    WordSizes();
    XorBound(x, y, 32);
    Xor(x, y)
  }

  function Xor64(x: u64, y: u64): u64 {
    WordSizes();
    XorBound(x, y, 64);
    Xor(x, y)
  }

  /** `x ^ (x >> s)` */
  function XorShift32(x: u32, s: nat): u32 { Xor32(x, Shr(x, s)) }
  function XorShift64(x: u64, s: nat): u64 { Xor64(x, Shr(x, s)) }

  // ---------------------------------------------------------------- rotations

  /** `(x << r) | (x >> (w - r))` on words of `w` bits. */
  function Rotl(w: nat, x: nat, r: nat): nat
    requires r <= w
  {
    Or(Shl(x, r) % Pow2(w), Shr(x, w - r))
  }

  /** A rotation exchanges the top `r` bits of a word with the rest. */
  lemma RotlParts(w: nat, x: nat, r: nat)
    requires r <= w && x < Pow2(w)
    ensures x == x / Pow2(w - r) * Pow2(w - r) + x % Pow2(w - r)
    ensures x / Pow2(w - r) < Pow2(r)
    ensures Rotl(w, x, r) == x % Pow2(w - r) * Pow2(r) + x / Pow2(w - r)
  {
    hide Or, Shl, Shr, Pow2;
    var p, q := Pow2(w - r), Pow2(r);
    Pow2Add(w - r, r);
    var h, l := x / p, x % p;
    ShrIsDiv(x, w - r);
    ShlIsMul(x, r);
    ShlIsMul(l, r);
    HighPart(h, l, p, q);
    DivModUnique(h, l * q, Pow2(w), Shl(x, r));
    OrDisjoint(l, h, r);
  }

  lemma HighPart(h: nat, l: nat, p: nat, q: nat)
    requires l < p && 0 < q && h * p + l < p * q
    ensures h < q && l * q < p * q && (h * p + l) * q == h * (p * q) + l * q
  {
    assert h >= q ==> h * p >= q * p;
  }

  /** Rotating on by the rest of the word brings every bit back. */
  lemma RotlUndo(w: nat, x: nat, r: nat)
    requires r <= w && x < Pow2(w)
    ensures Rotl(w, Rotl(w, x, r), w - r) == x
  {
    hide Rotl, Pow2;
    var h, l := RotlSplit(w, x, r);
    RotlBound(w, x, r);
    var g, m := RotlSplit(w, Rotl(w, x, r), w - r);
    PartsDetermine(l, h, g, m, Pow2(r));
  }

  lemma RotlInjective(w: nat, x: nat, y: nat, r: nat)
    requires r <= w && x < Pow2(w) && y < Pow2(w)
    ensures Rotl(w, x, r) == Rotl(w, y, r) <==> x == y
  {
    hide Rotl, Pow2;
    RotlUndo(w, x, r);
    RotlUndo(w, y, r);
  }

  lemma RotlSplit(w: nat, x: nat, r: nat) returns (h: nat, l: nat)
    requires r <= w && x < Pow2(w)
    ensures x == h * Pow2(w - r) + l && h < Pow2(r) && l < Pow2(w - r) && Rotl(w, x, r) == l * Pow2(r) + h
  {
    hide Rotl, Pow2;
    RotlParts(w, x, r);
    h, l := x / Pow2(w - r), x % Pow2(w - r);
  }

  lemma PartsDetermine(a: nat, b: nat, c: nat, d: nat, q: nat)
    requires b < q && d < q && a * q + b == c * q + d
    ensures a == c && b == d
  {
    DivModUnique(a, b, q, a * q + b);
    DivModUnique(c, d, q, a * q + b);
  }

  lemma NoCarry(l: nat, h: nat, p: nat, q: nat)
    requires l < p && h < q
    ensures l * q + h < p * q
  {
    assert (l + 1) * q <= p * q;
  }

  lemma RotlBound(w: nat, x: nat, r: nat)
    requires r <= w && x < Pow2(w)
    ensures Rotl(w, x, r) < Pow2(w)
  {
    hide Rotl, Pow2;
    var h, l := RotlSplit(w, x, r);
    Pow2Add(w - r, r);
    NoCarry(l, h, Pow2(w - r), Pow2(r));
  }

  function Rotl32(x: u32, r: nat): u32
    requires 0 < r < 32
  {
    WordSizes();
    RotlBound(32, x, r);
    Rotl(32, x, r)
  }

  function Rotl64(x: u64, r: nat): u64
    requires 0 < r < 64
  {
    WordSizes();
    RotlBound(64, x, r);
    Rotl(64, x, r)
  }

  // ---------------------------------------------------------------- reversibility

  /** An odd factor cannot supply a factor of two. */
  lemma {:induction false} OddDivides(k: nat, d: int, p: int, m: int)
    requires p % 2 == 1
    requires d * p == Pow2(k) * m
    ensures d % Pow2(k) == 0
  {
    if k > 0 {
      var half := Pow2(k - 1) * m;
      DoubleProduct(m, Pow2(k - 1));
      OddProduct(d, p, half);
      var e := d / 2;
      assert d * p == 2 * (e * p);
      OddDivides(k - 1, e, p, m);
      var n := e / Pow2(k - 1);
      DoubleProduct(n, Pow2(k - 1));
      DivModUnique(n, 0, Pow2(k), d);
    }
  }

  lemma OddProduct(d: int, p: int, h: int)
    requires p % 2 == 1 && d * p == 2 * h
    ensures d % 2 == 0
  {
    assert d * p == 2 * (d / 2 * p) + d % 2 * (2 * (p / 2) + 1);
  }

  /** Multiplication by an odd constant modulo a power of two merges no two words. */
  lemma MulOddInjective(k: nat, x: nat, y: nat, p: nat)
    requires p % 2 == 1 && x < Pow2(k) && y < Pow2(k)
    ensures (x * p) % Pow2(k) == (y * p) % Pow2(k) <==> x == y
  {
    hide Pow2;
    var m := Pow2(k);
    if (x * p) % m == (y * p) % m {
      var n := x * p / m - y * p / m;
      assert (x - y) * p == x * p - y * p == m * n;
      OddDivides(k, x - y, p, n);
      MultipleBound((x - y) / m, m);
    }
  }

  // ---------------------------------------------------------------- inverse operations

  /** Factors that are inverse to each other modulo the word size undo each other. */
  lemma MulUndo32(x: u32, p: u32, q: u32)
    requires Mul32(p, q) == 1
    ensures Mul32(Mul32(x, p), q) == x
  {
    MulUndo(x, p, q, 0x1_0000_0000);
  }

  lemma MulUndo64(x: u64, p: u64, q: u64)
    requires Mul64(p, q) == 1
    ensures Mul64(Mul64(x, p), q) == x
  {
    MulUndo(x, p, q, 0x1_0000_0000_0000_0000);
  }

  lemma MulUndo(x: nat, p: nat, q: nat, m: nat)
    requires x < m && p * q % m == 1
    ensures x * p % m * q % m == x
  {
    var a, k, r := x * p / m, p * q / m, x * p % m;
    assert x * p == a * m + r && p * q == k * m + 1;
    calc {
      r * q;
      (x * p - a * m) * q;
      x * (p * q) - a * m * q;
      x * (k * m + 1) - a * m * q;
      (x * k - a * q) * m + x;
    }
    DivModUnique(x * k - a * q, x, m, r * q);
  }

  lemma Rotl32Undo(x: u32, r: nat)
    requires 0 < r < 32
    ensures Rotl32(Rotl32(x, r), 32 - r) == x
  {
    WordSizes();
    RotlUndo(32, x, r);
  }

  lemma Rotl64Undo(x: u64, r: nat)
    requires 0 < r < 64
    ensures Rotl64(Rotl64(x, r), 64 - r) == x
  {
    WordSizes();
    RotlUndo(64, x, r);
  }

  lemma SumUndo32(x: u32, y: u32)
    ensures Sub32(Add32(x, y), y) == x && Add32(Sub32(x, y), y) == x
    ensures Sub32(Add32(y, x), y) == x
  {
    hide Wrap32;
    WrapSum32(x + y, 0 - y);
    WrapSum32(x - y, y);
    Fits32(x);
  }

  lemma Fits32(x: u32)
    ensures Wrap32(x) == x
  {
  }

  lemma SumUndo64(x: u64, y: u64)
    ensures Sub64(Add64(x, y), y) == x && Add64(Sub64(x, y), y) == x
    ensures Sub64(Add64(y, x), y) == x
  {
    hide Wrap64;
    WrapSum(x + y, 0 - y);
    WrapSum(x - y, y);
    Fits64(x);
  }

  lemma Fits64(x: u64)
    ensures Wrap64(x) == x
  {
  }

  lemma XorUndo64(x: u64, y: u64)
    ensures Xor64(Xor64(x, y), y) == x && Xor64(Xor64(y, x), y) == x
  {
    XorTwice(x, y);
    XorComm(x, y);
  }

  /** An xor changes with either of its operands, a difference with what is taken away. */
  lemma XorKeeps(g: u64, a: u64, h: u64, b: u64)
    ensures a == b ==> (Xor64(g, a) == Xor64(h, b) <==> g == h)
    ensures g == h ==> (Xor64(g, a) == Xor64(h, b) <==> a == b)
  {
    hide Xor64;
    XorUndo64(g, a);
    XorUndo64(h, b);
    XorUndo64(a, g);
    XorUndo64(b, h);
  }

  lemma Sub64Keeps(a: u64, c: u64, d: u64)
    ensures Sub64(a, c) == Sub64(a, d) <==> c == d
  {
    hide Add64, Sub64;
    SumUndo64(a, c);
    SumUndo64(a, d);
    Add64Keeps(Sub64(a, c), c, Sub64(a, d), d);
  }

  /** The word that `x ^ (x >> s)` was made from. */
  function Unshift32(y: u32, s: nat): u32
    requires s > 0
  {
    WordSizes();
    UnshiftBound(y, s, 32);
    Unshift(y, s)
  }

  function Unshift64(y: u64, s: nat): u64
    requires s > 0
  {
    WordSizes();
    UnshiftBound(y, s, 64);
    Unshift(y, s)
  }
}
