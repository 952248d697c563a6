/** Bitwise operations on natural numbers, defined one binary digit at a time.
    Machine words are natural numbers below a power of two, so `x >> k`, `x << k`
    and the operators `&`, `|` and `^` of the hash functions are these functions. */
module Bits {

  function Pow2(n: nat): (p: nat)
    ensures p > 0
  {
    if n == 0 then 1 else 2 * Pow2(n - 1)
  }

  function Xor(x: nat, y: nat): nat
    decreases x + y
  {
    if x == 0 && y == 0 then 0
    else 2 * Xor(x / 2, y / 2) + (if x % 2 == y % 2 then 0 else 1)
  }

  function And(x: nat, y: nat): nat
    decreases x + y
  {
    if x == 0 && y == 0 then 0
    else 2 * And(x / 2, y / 2) + (if x % 2 == 1 && y % 2 == 1 then 1 else 0)
  }

  function Or(x: nat, y: nat): nat
    decreases x + y
  {
    if x == 0 && y == 0 then 0
    else 2 * Or(x / 2, y / 2) + (if x % 2 == 1 || y % 2 == 1 then 1 else 0)
  }

  function Shr(x: nat, k: nat): (r: nat)
    ensures r <= x
    ensures k > 0 && x > 0 ==> r < x
  {
    if k == 0 then x else Shr(x / 2, k - 1)
  }

  function Shl(x: nat, k: nat): nat {
    if k == 0 then x else 2 * Shl(x, k - 1)
  }

  /** Whether bit `i` is set. */
  predicate Bit(x: nat, i: nat) { Shr(x, i) % 2 == 1 }

  /** The three operators act on every bit separately. */
  lemma {:induction false} BitByBit(x: nat, y: nat, i: nat)
    ensures Bit(Xor(x, y), i) <==> (Bit(x, i) != Bit(y, i))
    ensures Bit(And(x, y), i) <==> Bit(x, i) && Bit(y, i)
    ensures Bit(Or(x, y), i) <==> Bit(x, i) || Bit(y, i)
    decreases i
  {
    assert Xor(x, y) / 2 == Xor(x / 2, y / 2);
    assert And(x, y) / 2 == And(x / 2, y / 2);
    assert Or(x, y) / 2 == Or(x / 2, y / 2);
    if i > 0 { BitByBit(x / 2, y / 2, i - 1); }
  }

  // ---------------------------------------------------------------- powers

  lemma {:induction false} Pow2Add(a: nat, b: nat)
    ensures Pow2(a + b) == Pow2(a) * Pow2(b)
  {
    if a > 0 {
      Pow2Add(a - 1, b);
      assert Pow2(a + b) == 2 * Pow2(a - 1 + b);
    }
  }

  /** A word splits in one way into a part above and a part below bit `k`. */
  lemma DivModUnique(q: int, r: int, m: int, x: int)
    requires m > 0 && 0 <= r < m && x == q * m + r
    ensures x / m == q && x % m == r
  {
    assert (x / m - q) * m == r - x % m;
    MultipleBound(x / m - q, m);
  }

  lemma MultipleBound(k: int, m: int)
    requires m > 0
    ensures k >= 1 ==> k * m >= m
    ensures k <= -1 ==> k * m <= -m
  {
  }

  lemma DoubleProduct(q: int, p: int)
    ensures q * (2 * p) == 2 * (q * p)
  {
  }

  lemma {:induction false} ShrIsDiv(x: nat, k: nat)
    ensures Shr(x, k) == x / Pow2(k)
  {
    if k > 0 {
      ShrIsDiv(x / 2, k - 1);
      var p := Pow2(k - 1);
      var q, r := (x / 2) / p, (x / 2) % p;
      assert x / 2 == q * p + r;
      DoubleProduct(q, p);
      DivModUnique(q, 2 * r + x % 2, 2 * p, x);
    }
  }

  lemma {:induction false} ShlIsMul(x: nat, k: nat)
    ensures Shl(x, k) == x * Pow2(k)
  {
    if k > 0 {
      ShlIsMul(x, k - 1);
      DoubleProduct(x, Pow2(k - 1));
    }
  }

  lemma {:induction false} ShrShr(x: nat, a: nat, b: nat)
    ensures Shr(Shr(x, a), b) == Shr(x, a + b)
  {
    if a > 0 { ShrShr(x / 2, a - 1, b); }
  }

  // ---------------------------------------------------------------- exclusive or

  lemma {:induction false} XorZero(x: nat)
    ensures Xor(x, 0) == x && Xor(0, x) == x
  {
    if x > 0 { XorZero(x / 2); }
  }

  lemma {:induction false} XorSelf(x: nat)
    ensures Xor(x, x) == 0
  {
    if x > 0 { XorSelf(x / 2); }
  }

  lemma {:induction false} XorComm(x: nat, y: nat)
    ensures Xor(x, y) == Xor(y, x)
    decreases x + y
  {
    if x > 0 || y > 0 { XorComm(x / 2, y / 2); }
  }

  lemma {:induction false} XorAssoc(x: nat, y: nat, z: nat)
    ensures Xor(Xor(x, y), z) == Xor(x, Xor(y, z))
    decreases x + y + z
  {
    if x > 0 || y > 0 || z > 0 {
      XorAssoc(x / 2, y / 2, z / 2);
      XorStep(x, y);
      XorStep(y, z);
      XorStep(Xor(x, y), z);
      XorStep(x, Xor(y, z));
    }
  }

  lemma XorStep(x: nat, y: nat)
    ensures Xor(x, y) / 2 == Xor(x / 2, y / 2)
    ensures Xor(x, y) % 2 == if x % 2 == y % 2 then 0 else 1
  {
  }

  /** Xor with a fixed word undoes itself. */
  lemma {:induction false} XorTwice(x: nat, k: nat)
    ensures Xor(Xor(x, k), k) == x
  {
    XorAssoc(x, k, k);
    XorSelf(k);
    XorZero(x);
  }

  lemma {:induction false} XorBound(x: nat, y: nat, k: nat)
    requires x < Pow2(k) && y < Pow2(k)
    ensures Xor(x, y) < Pow2(k)
    decreases k
  {
    if k > 0 { XorBound(x / 2, y / 2, k - 1); }
  }

  lemma {:induction false} XorShr(x: nat, y: nat, k: nat)
    ensures Shr(Xor(x, y), k) == Xor(Shr(x, k), Shr(y, k))
    decreases k
  {
    if k > 0 {
      XorStep(x, y);
      XorShr(x / 2, y / 2, k - 1);
    }
  }

  lemma XorJoin(a: nat, b: nat, c: nat, d: nat)
    requires b < 2 && d < 2
    ensures Xor(2 * a + b, 2 * c + d) == 2 * Xor(a, c) + (if b == d then 0 else 1)
  {
    XorStep(2 * a + b, 2 * c + d);
  }

  /** Xor acts on the parts above and below bit `k` separately. */
  lemma {:induction false} XorConcat(h: nat, l: nat, h': nat, l': nat, k: nat)
    requires l < Pow2(k) && l' < Pow2(k)
    ensures Xor(Shl(h, k) + l, Shl(h', k) + l') == Shl(Xor(h, h'), k) + Xor(l, l')
    decreases k
  {
    hide Xor;
    if k == 0 {
      XorZero(0);
    } else {
      XorConcat(h, l / 2, h', l' / 2, k - 1);
      XorJoin(Shl(h, k - 1) + l / 2, l % 2, Shl(h', k - 1) + l' / 2, l' % 2);
      XorJoin(l / 2, l % 2, l' / 2, l' % 2);
    }
  }

  /** The number that `x ^ (x >> s)` was made from. */
  function Unshift(y: nat, s: nat): nat
    requires s > 0
  {
    if y == 0 then 0 else Xor(y, Unshift(Shr(y, s), s))
  }

  lemma {:induction false} UnshiftUndoes(x: nat, s: nat)
    requires s > 0
    ensures Unshift(Xor(x, Shr(x, s)), s) == x
  {
    hide Xor;
    if x == 0 {
      XorZero(0);
    } else {
      XorShr(x, Shr(x, s), s);
      UnshiftUndoes(Shr(x, s), s);
      XorTwice(x, Shr(x, s));
      XorEqual(x, Shr(x, s));
    }
  }

  lemma XorEqual(x: nat, y: nat)
    ensures Xor(x, y) == 0 ==> x == y
  {
    XorTwice(x, y);
    XorZero(y);
  }

  lemma {:induction false} UnshiftBound(y: nat, s: nat, k: nat)
    requires s > 0 && y < Pow2(k)
    ensures Unshift(y, s) < Pow2(k)
    decreases y
  {
    hide Xor;
    if y > 0 {
      UnshiftBound(Shr(y, s), s, k);
      XorBound(y, Unshift(Shr(y, s), s), k);
    }
  }

  /** `x ^ (x >> s)` never merges two values, whatever the shift. */
  lemma XorShiftInjective(x: nat, y: nat, s: nat)
    requires s > 0
    ensures Xor(x, Shr(x, s)) == Xor(y, Shr(y, s)) <==> x == y
  {
    UnshiftUndoes(x, s);
    UnshiftUndoes(y, s);
  }

  /** Xor with one bit adds or takes away its value. */
  lemma {:induction false} XorFlip(x: nat, k: nat)
    ensures Xor(x, Pow2(k)) == if Bit(x, k) then x - Pow2(k) else x + Pow2(k)
  {
    XorStep(x, Pow2(k));
    if k == 0 {
      XorZero(x / 2);
    } else {
      XorFlip(x / 2, k - 1);
    }
  }

  lemma {:induction false} BitOfPower(k: nat, i: nat)
    ensures Bit(Pow2(k), i) <==> k == i
  {
    if k > 0 && i > 0 { BitOfPower(k - 1, i - 1); }
  }

  // ---------------------------------------------------------------- masks and disjoint parts

  lemma {:induction false} AndLowMask(x: nat, k: nat)
    ensures And(x, Pow2(k) - 1) == x % Pow2(k)
    decreases k
  {
    if k == 0 {
      AndZero(x);
    } else {
      var p := Pow2(k - 1);
      AndLowMask(x / 2, k - 1);
      assert (2 * p - 1) / 2 == p - 1;
      var q := (x / 2) / p;
      assert x / 2 == q * p + (x / 2) % p;
      DoubleProduct(q, p);
      DivModUnique(q, 2 * ((x / 2) % p) + x % 2, 2 * p, x);
    }
  }

  lemma {:induction false} AndZero(x: nat)
    ensures And(x, 0) == 0 && And(0, x) == 0
  {
    if x > 0 { AndZero(x / 2); }
  }

  lemma {:induction false} OrZero(x: nat)
    ensures Or(x, 0) == x && Or(0, x) == x
  {
    if x > 0 { OrZero(x / 2); }
  }

  /** A mask of `w` ones above bit `k` keeps that field of the word. */
  lemma {:induction false} AndField(x: nat, k: nat, w: nat)
    ensures And(x, Shl(Pow2(w) - 1, k)) == Shl(Shr(x, k) % Pow2(w), k)
    decreases k
  {
    if k == 0 {
      AndLowMask(x, w);
    } else {
      AndField(x / 2, k - 1, w);
      AndStep(x, Shl(Pow2(w) - 1, k - 1));
    }
  }

  lemma AndStep(x: nat, m: nat)
    ensures And(x, 2 * m) == 2 * And(x / 2, m)
  {
    if x == 0 && m == 0 { AndZero(0); }
  }

  lemma OrJoin(a: nat, b: nat, c: nat, d: nat)
    requires b < 2 && d < 2
    ensures Or(2 * a + b, 2 * c + d) == 2 * Or(a, c) + (if b == 1 || d == 1 then 1 else 0)
  {
  }

  /** Or acts on the parts above and below bit `k` separately. */
  lemma {:induction false} OrConcat(h: nat, l: nat, h': nat, l': nat, k: nat)
    requires l < Pow2(k) && l' < Pow2(k)
    ensures Or(Shl(h, k) + l, Shl(h', k) + l') == Shl(Or(h, h'), k) + Or(l, l')
    decreases k
  {
    hide Or;
    if k == 0 {
      OrZero(0);
    } else {
      OrConcat(h, l / 2, h', l' / 2, k - 1);
      OrJoin(Shl(h, k - 1) + l / 2, l % 2, Shl(h', k - 1) + l' / 2, l' % 2);
      OrJoin(l / 2, l % 2, l' / 2, l' % 2);
    }
  }

  /** Or of two values with no bit in common is their sum. */
  lemma OrDisjoint(h: nat, l: nat, k: nat)
    requires l < Pow2(k)
    ensures Or(Shl(h, k), l) == Or(l, Shl(h, k)) == Shl(h, k) + l
  {
    hide Or;
    OrConcat(h, 0, 0, l, k);
    OrConcat(0, l, h, 0, k);
    OrZero(h);
    OrZero(l);
    ShlIsMul(0, k);
  }
}
