/** The vector forms of the stripe accumulation, the scramble and the secret
    derivation, on registers of 64-bit lanes, and their equality with the scalar forms. */
module Simd {
  import opened Bits
  import opened Words
  import opened Primes
  import opened Memory
  import opened Multiply
  import opened Xxh3Short
  import opened Secrets
  import opened Xxh3Long

  datatype Isa = Avx512 | Avx2 | Sse2 | Neon(zip: bool) | Vsx {
    /** 64-bit lanes in a register. */
    function Width(): (n: nat)
      ensures n == 2 || n == 4 || n == 8
      ensures n % 2 == 0 && 8 % n == 0
    {
      if Avx512? then 8 else if Avx2? then 4 else 2
    }
  }

  type Reg = seq<u64>

  // ---------------------------------------------------------------- instructions

  /** Lane `s` of the four 32-bit lanes of the 128-bit group `g`, low halves first. */
  function Lane32(v: Reg, g: nat, s: nat): u32
    requires 2 * g + 1 < |v| && s < 4
  {
    if s == 0 then Lo32(v[2 * g]) else if s == 1 then Hi32(v[2 * g])
    else if s == 2 then Lo32(v[2 * g + 1]) else Hi32(v[2 * g + 1])
  }

  function Pack(lo: u32, hi: u32): u64 { hi * 0x1_0000_0000 + lo }

  /** `shuffle_epi32`: in every group lane `t` takes lane `s_t`. */
  function Shuffle(v: Reg, s0: nat, s1: nat, s2: nat, s3: nat): (r: Reg)
    requires |v| % 2 == 0 && s0 < 4 && s1 < 4 && s2 < 4 && s3 < 4
    ensures |r| == |v|
  {
    seq(|v|, j requires 0 <= j < |v| =>
      if j % 2 == 0 then Pack(Lane32(v, j / 2, s0), Lane32(v, j / 2, s1))
      else Pack(Lane32(v, j / 2, s2), Lane32(v, j / 2, s3)))
  }

  function XorReg(a: Reg, b: Reg): (r: Reg)
    requires |a| == |b|
    ensures |r| == |a|
  {
    seq(|a|, j requires 0 <= j < |a| => Xor64(a[j], b[j]))
  }

  function AddReg(a: Reg, b: Reg): (r: Reg)
    requires |a| == |b|
    ensures |r| == |a|
  {
    seq(|a|, j requires 0 <= j < |a| => Add64(a[j], b[j]))
  }

  /** `mul_epu32`, `vmulouw`: the product of the low halves of every lane. */
  function MulLow(a: Reg, b: Reg): (r: Reg)
    requires |a| == |b|
    ensures |r| == |a|
  {
    seq(|a|, j requires 0 <= j < |a| => Mult32To64(Lo32(a[j]), Lo32(b[j])))
  }

  /** `vmuleuw`: the product of the high halves of every lane. */
  function MulHigh(a: Reg, b: Reg): (r: Reg)
    requires |a| == |b|
    ensures |r| == |a|
  {
    seq(|a|, j requires 0 <= j < |a| => Mult32To64(Hi32(a[j]), Hi32(b[j])))
  }

  function ShiftRight(a: Reg, n: nat): (r: Reg)
    ensures |r| == |a|
  {
    seq(|a|, j requires 0 <= j < |a| => Shr(a[j], n))
  }

  function ShiftLeft32(a: Reg): (r: Reg)
    ensures |r| == |a|
  {
    seq(|a|, j requires 0 <= j < |a| => Wrap64(Shl(a[j], 32)))
  }

  /** Every 32-bit lane set to one value. */
  function Splat32(x: u32, n: nat): (r: Reg)
    ensures |r| == n
  {
    seq(n, j => Pack(x, x))
  }

  /** `vextq_u64(v, v, 1)`, `vec_xxpermdi(v, v, 2)`: the two lanes exchanged. */
  function Exchange(v: Reg): Reg
    requires |v| == 2
  {
    [v[1], v[0]]
  }

  /** `vec_rl(v, 32)` */
  function RotateLanes32(v: Reg): (r: Reg)
    ensures |r| == |v|
  {
    seq(|v|, j requires 0 <= j < |v| => Rotl64(v[j], 32))
  }

  /** `XXH_SPLIT_IN_PLACE`: the low halves and the high halves of the two lanes, by
      narrowing, or by `vzip.32` on the two 64-bit halves of the register. */
  function Split(v: Reg, zip: bool): (r: (seq<u32>, seq<u32>))
    requires |v| == 2
    ensures |r.0| == |r.1| == 2
  {
    if zip then
      var d0, d1 := [Lane32(v, 0, 0), Lane32(v, 0, 1)], [Lane32(v, 0, 2), Lane32(v, 0, 3)];
      ([d0[0], d1[0]], [d0[1], d1[1]])
    else ([Wrap32(v[0]), Wrap32(v[1])], [Hi32(v[0]), Hi32(v[1])])
  }

  /** `vmlal_u32` */
  function MulAdd(a: Reg, x: seq<u32>, y: seq<u32>): (r: Reg)
    requires |a| == |x| == |y| == 2
    ensures |r| == 2
  {
    [Add64(a[0], Mult32To64(x[0], y[0])), Add64(a[1], Mult32To64(x[1], y[1]))]
  }

  // ---------------------------------------------------------------- one register

  function AccumulateX86(acc: Reg, data: Reg, key: Reg): (r: Reg)
    requires |acc| == |data| == |key| && |acc| % 2 == 0
    ensures |r| == |acc|
  {
    var dataKey := XorReg(data, key);
    var product := MulLow(dataKey, Shuffle(dataKey, 1, 0, 3, 0));
    AddReg(product, AddReg(acc, Shuffle(data, 2, 3, 0, 1)))
  }

  function AccumulateNeon(acc: Reg, data: Reg, key: Reg, zip: bool): (r: Reg)
    requires |acc| == |data| == |key| == 2
    ensures |r| == 2
  {
    var (lo, hi) := Split(XorReg(data, key), zip);
    MulAdd(AddReg(acc, Exchange(data)), lo, hi)
  }

  function AccumulateVsx(acc: Reg, data: Reg, key: Reg): (r: Reg)
    requires |acc| == |data| == |key| == 2
    ensures |r| == 2
  {
    var dataKey := XorReg(data, key);
    AddReg(AddReg(acc, MulLow(dataKey, RotateLanes32(dataKey))), Exchange(data))
  }

  function AccumulateReg(isa: Isa, acc: Reg, data: Reg, key: Reg): (r: Reg)
    requires |acc| == |data| == |key| == isa.Width()
    ensures |r| == |acc|
  {
    match isa
    case Neon(zip) => AccumulateNeon(acc, data, key, zip)
    case Vsx => AccumulateVsx(acc, data, key)
    case _ => AccumulateX86(acc, data, key)
  }

  function DataKey(acc: Reg, key: Reg): (r: Reg)
    requires |acc| == |key|
    ensures |r| == |acc|
  {
    XorReg(XorReg(acc, ShiftRight(acc, 47)), key)
  }

  function ScrambleX86(acc: Reg, key: Reg): (r: Reg)
    requires |acc| == |key| && |acc| % 2 == 0
    ensures |r| == |acc|
  {
    var dataKey, prime := DataKey(acc, key), Splat32(PRIME32_1, |acc|);
    AddReg(MulLow(dataKey, prime), ShiftLeft32(MulLow(Shuffle(dataKey, 1, 0, 3, 0), prime)))
  }

  function ScrambleNeon(acc: Reg, key: Reg, zip: bool): (r: Reg)
    requires |acc| == |key| == 2
    ensures |r| == 2
  {
    var (lo, hi) := Split(DataKey(acc, key), zip);
    var prodHi := MulAdd([0, 0], hi, [PRIME32_1, PRIME32_1]);
    MulAdd(ShiftLeft32(prodHi), lo, [PRIME32_1, PRIME32_1])
  }

  function ScrambleVsx(acc: Reg, key: Reg): (r: Reg)
    requires |acc| == |key| == 2
    ensures |r| == 2
  {
    var dataKey, prime := DataKey(acc, key), Splat32(PRIME32_1, 2);
    AddReg(MulLow(dataKey, prime), ShiftLeft32(MulHigh(dataKey, prime)))
  }

  function ScrambleReg(isa: Isa, acc: Reg, key: Reg): (r: Reg)
    requires |acc| == |key| == isa.Width()
    ensures |r| == |acc|
  {
    match isa
    case Neon(zip) => ScrambleNeon(acc, key, zip)
    case Vsx => ScrambleVsx(acc, key)
    case _ => ScrambleX86(acc, key)
  }

  lemma SplitHalves(v: Reg, zip: bool)
    requires |v| == 2
    ensures Split(v, zip) == ([Lo32(v[0]), Lo32(v[1])], [Hi32(v[0]), Hi32(v[1])])
  {
  }

  lemma RotlSwapsHalves(x: u64)
    ensures Lo32(Rotl64(x, 32)) == Hi32(x)
  {
    hide Rotl, Lo32, Hi32, Pow2;
    WordSizes();
    RotlParts(64, x, 32);
  }

  lemma PackHalves(lo: u32, hi: u32)
    ensures Lo32(Pack(lo, hi)) == lo && Hi32(Pack(lo, hi)) == hi
  {
    hide Lo32, Hi32;
  }

  /** Lane `j` of an accumulation: its neighbour's data and its own product added. */
  ghost predicate AccumulationAt(r: Reg, acc: Reg, data: Reg, key: Reg, j: nat)
    requires |r| == |acc| == |data| == |key| && |r| % 2 == 0 && j < |r|
  {
    PartnerInside(j, |r|);
    r[j] == Add64(Add64(acc[j], data[Partner(j)]), Product(Xor64(data[j], key[j])))
  }

  lemma PartnerInside(j: nat, n: nat)
    requires j < n && n % 2 == 0
    ensures 0 <= Partner(j) < n && Partner(j) / 2 == j / 2
    ensures j % 2 == 0 ==> j == 2 * (j / 2) && Partner(j) == 2 * (j / 2) + 1
    ensures j % 2 == 1 ==> j == 2 * (j / 2) + 1 && Partner(j) == 2 * (j / 2)
  {
  }

  /** The x86 shuffles bring the high half below the low one and exchange lanes. */
  lemma ShuffleLanes(v: Reg, j: nat)
    requires |v| % 2 == 0 && j < |v|
    ensures Lo32(Shuffle(v, 1, 0, 3, 0)[j]) == Hi32(v[j])
    ensures 0 <= Partner(j) < |v| && Shuffle(v, 2, 3, 0, 1)[j] == v[Partner(j)]
  {
    hide Lo32, Hi32, Pack;
    PartnerInside(j, |v|);
    var g := j / 2;
    PackHalves(Hi32(v[2 * g]), Lo32(v[2 * g]));
    PackHalves(Hi32(v[2 * g + 1]), Lo32(v[2 * g]));
    Halves(v[2 * g]);
    Halves(v[2 * g + 1]);
  }

  lemma AccumulateX86Lanes(acc: Reg, data: Reg, key: Reg, j: nat)
    requires |acc| == |data| == |key| && |acc| % 2 == 0 && j < |acc|
    ensures AccumulationAt(AccumulateX86(acc, data, key), acc, data, key, j)
  {
    hide Xor64, Mult32To64, Lo32, Hi32, Shuffle, Add64, Partner;
    PartnerInside(j, |acc|);
    var dk := XorReg(data, key);
    ShuffleLanes(dk, j);
    ShuffleLanes(data, j);
    AddComm(Product(dk[j]), Add64(acc[j], data[Partner(j)]));
  }

  lemma AccumulateNeonLanes(acc: Reg, data: Reg, key: Reg, zip: bool, j: nat)
    requires |acc| == |data| == |key| == 2 && j < 2
    ensures AccumulationAt(AccumulateNeon(acc, data, key, zip), acc, data, key, j)
  {
    hide Xor64, Mult32To64, Lo32, Hi32, Split, Add64;
    SplitHalves(XorReg(data, key), zip);
  }

  lemma AccumulateVsxLanes(acc: Reg, data: Reg, key: Reg, j: nat)
    requires |acc| == |data| == |key| == 2 && j < 2
    ensures AccumulationAt(AccumulateVsx(acc, data, key), acc, data, key, j)
  {
    hide Xor64, Mult32To64, Lo32, Hi32, Rotl64, Add64;
    var dk := XorReg(data, key);
    RotlSwapsHalves(dk[j]);
    AddSwap(acc[j], data[Partner(j)], Product(dk[j]));
  }

  lemma AccumulateRegIs(isa: Isa, acc: Reg, data: Reg, key: Reg, j: nat)
    requires |acc| == |data| == |key| == isa.Width() && j < |acc|
    ensures AccumulationAt(AccumulateReg(isa, acc, data, key), acc, data, key, j)
  {
    hide AccumulateX86, AccumulateNeon, AccumulateVsx, AccumulationAt;
    match isa
    case Neon(zip) => AccumulateNeonLanes(acc, data, key, zip, j);
    case Vsx => AccumulateVsxLanes(acc, data, key, j);
    case _ => AccumulateX86Lanes(acc, data, key, j);
  }

  function Product(dataKey: u64): u64 { Mult32To64(Lo32(dataKey), Hi32(dataKey)) }

  lemma AddComm(a: u64, b: u64)
    ensures Add64(a, b) == Add64(b, a)
  {
  }

  lemma Halves(x: u64)
    ensures Pack(Lo32(x), Hi32(x)) == x
  {
  }

  /** A 64-bit product from two 32-bit ones, the high one shifted up. */
  lemma HalfProducts(x: u64, p: u32)
    ensures Add64(Mult32To64(Lo32(x), p), Wrap64(Shl(Mult32To64(Hi32(x), p), 32))) == Mul64(x, p)
  {
    hide Lo32, Hi32, Shl, Mult32To64, Wrap64, Pow2;
    WordSizes();
    var lo, hi := Lo32(x), Hi32(x);
    Mult32To64Is(lo, p);
    Mult32To64Is(hi, p);
    ShlIsMul(hi * p, 32);
    assert x * p == lo * p + hi * p * 0x1_0000_0000 by {
      assert x == hi * 0x1_0000_0000 + lo;
      assert (hi * 0x1_0000_0000 + lo) * p == hi * p * 0x1_0000_0000 + lo * p;
    }
    WrapSum(hi * p * 0x1_0000_0000, lo * p);
  }

  /** The two half products, in either order, are the scalar scramble of the lane. */
  lemma ScrambleHalves(acc: u64, key: u64)
    ensures var x := Xor64(XorShift64(acc, 47), key);
            var lo, hi := Mult32To64(Lo32(x), PRIME32_1), Wrap64(Shl(Mult32To64(Hi32(x), PRIME32_1), 32));
            ScrambleLane(acc, key) == Add64(lo, hi) == Add64(hi, lo)
  {
    hide Xor64, XorShift64, Mult32To64, Lo32, Hi32, Shl, Wrap64;
    var x := Xor64(XorShift64(acc, 47), key);
    HalfProducts(x, PRIME32_1);
    AddComm(Mult32To64(Lo32(x), PRIME32_1), Wrap64(Shl(Mult32To64(Hi32(x), PRIME32_1), 32)));
  }

  lemma ScrambleRegIs(isa: Isa, acc: Reg, key: Reg, j: nat)
    requires |acc| == |key| == isa.Width() && j < |acc|
    ensures ScrambleReg(isa, acc, key)[j] == ScrambleLane(acc[j], key[j])
  {
    hide ScrambleLane, Xor, Shr, Mult32To64, Lo32, Hi32, Pack, Shl, Shuffle, Split, Add64, Wrap64;
    var dk := DataKey(acc, key);
    ScrambleHalves(acc[j], key[j]);
    PackHalves(PRIME32_1, PRIME32_1);
    match isa
    case Neon(zip) =>
      SplitHalves(dk, zip);
      AddZero(Mult32To64(Hi32(dk[j]), PRIME32_1));
    case Vsx =>
    case _ => ShuffleLanes(dk, j);
  }

  lemma AddZero(x: u64)
    ensures Add64(0, x) == x
  {
  }

  // ---------------------------------------------------------------- whole stripes

  /** An unaligned load of the register whose first lane is word `p`. */
  function Load(bytes: seq<byte>, p: nat, n: nat): (r: Reg)
    requires 8 * (p + n) <= |bytes|
    ensures |r| == n
    ensures forall j | 0 <= j < n :: r[j] == ReadLE64(bytes, 8 * (p + j))
  {
    if n == 0 then [] else Load(bytes, p, n - 1) + [ReadLE64(bytes, 8 * (p + n - 1))]
  }

  method Store(acc: array<u64>, p: nat, r: Reg)
    requires p + |r| <= acc.Length
    modifies acc
    ensures forall k | 0 <= k < acc.Length :: acc[k] == if p <= k < p + |r| then r[k - p] else old(acc[k])
  {
    forall j | 0 <= j < |r| { acc[p + j] := r[j]; }
  }

  lemma NextRegister(n: nat, p: nat, total: nat)
    requires n == 2 || n == 4 || n == 8
    requires p % n == 0 && (total == 8 || total == 24) && p < total
    ensures p + n <= total && (p + n) % n == 0 && p % 2 == 0
  {
    if n == 2 {
      assert (p + 2) % 2 == 0;
    } else if n == 4 {
      assert (p + 4) % 4 == 0;
    } else {
      assert (p + 8) % 8 == 0;
    }
  }

  /** `XXH3_accumulate_512` in any vector form, register by register, is the scalar one. */
  method AccumulateVector(isa: Isa, acc: array<u64>, stripe: seq<byte>, key: seq<byte>)
    requires acc.Length == 8 && |stripe| == |key| == 64
    modifies acc
    ensures acc[..] == Accumulate512(old(acc[..]), stripe, key)
  {
    hide AccumulateReg, Load, LaneProduct, ReadLE64, Add64, Isa.Width;
    ghost var before := acc[..];
    var n, p := isa.Width(), 0;
    while p < 8
      invariant 0 <= p <= 8 && p % n == 0
      invariant forall k | 0 <= k < 8 :: acc[k] == if k < p then Accumulate512(before, stripe, key)[k] else before[k]
    {
      NextRegister(n, p, 8);
      var a, data, k := acc[p..p + n], Load(stripe, p, n), Load(key, p, n);
      var r := AccumulateReg(isa, a, data, k);
      forall j | 0 <= j < n
        ensures r[j] == Accumulate512(before, stripe, key)[p + j]
      {
        AccumulatedWord(isa, before, a, stripe, key, p, j);
      }
      Store(acc, p, r);
      p := p + n;
    }
  }

  lemma AccumulatedWord(isa: Isa, before: Accs, a: Reg, stripe: seq<byte>, key: seq<byte>, p: nat, j: nat)
    requires |stripe| == |key| == 64 && j < isa.Width() && p + isa.Width() <= 8 && p % 2 == 0
    requires a == before[p..p + isa.Width()]
    ensures AccumulateReg(isa, a, Load(stripe, p, isa.Width()), Load(key, p, isa.Width()))[j]
         == Accumulate512(before, stripe, key)[p + j]
  {
    hide AccumulateReg, Load, ReadLE64, Xor64, Mult32To64, Lo32, Hi32, Isa.Width;
    var n := isa.Width();
    PartnerInside(j, n);
    AccumulateRegIs(isa, a, Load(stripe, p, n), Load(key, p, n), j);
    assert Partner(p + j) == p + Partner(j);
  }

  /** `XXH3_scrambleAcc` in any vector form is the scalar one. */
  method ScrambleVector(isa: Isa, acc: array<u64>, key: seq<byte>)
    requires acc.Length == 8 && |key| == 64
    modifies acc
    ensures acc[..] == Scramble(old(acc[..]), key)
  {
    hide ScrambleReg, Load, ReadLE64, ScrambleLane, Isa.Width;
    ghost var before := acc[..];
    var n, p := isa.Width(), 0;
    while p < 8
      invariant 0 <= p <= 8 && p % n == 0
      invariant forall k | 0 <= k < 8 :: acc[k] == if k < p then Scramble(before, key)[k] else before[k]
    {
      NextRegister(n, p, 8);
      var a, k := acc[p..p + n], Load(key, p, n);
      var r := ScrambleReg(isa, a, k);
      forall j | 0 <= j < n
        ensures r[j] == Scramble(before, key)[p + j]
      {
        ScrambleRegIs(isa, a, k, j);
      }
      Store(acc, p, r);
      p := p + n;
    }
  }

  // ---------------------------------------------------------------- secret derivation

  /** The seed in the even lanes, its negation in the odd ones. */
  function SeedReg(seed: u64, n: nat): (r: Reg)
    ensures |r| == n
    ensures forall j | 0 <= j < n :: r[j] == if j % 2 == 0 then seed else Sub64(0, seed)
  {
    if n == 0 then [] else SeedReg(seed, n - 1) + [if n % 2 == 1 then seed else Sub64(0, seed)]
  }

  /** `XXH3_initCustomSecret` in the three x86 forms is the scalar one. */
  method InitCustomSecretVector(isa: Isa, customSecret: array<byte>, seed: u64)
    requires isa.Avx512? || isa.Avx2? || isa.Sse2?
    requires customSecret.Length == 192
    modifies customSecret
    ensures customSecret[..] == Derive(seed)
  {
    hide KSecret, ReadLE64, ToLE, Add64, Sub64, Isa.Width, Load, SeedReg;
    var n, p := isa.Width(), 0;
    var seeds := SeedReg(seed, n);
    while p < 24
      invariant 0 <= p <= 24 && p % n == 0 && p % 2 == 0
      invariant customSecret[..8 * p] == DeriveUpTo(seed, p / 2)
    {
      NextRegister(n, p, 24);
      StoreSecret(customSecret, AddReg(Load(KSecret(), p, n), seeds), seed, p, n);
      p := p + n;
    }
    assert customSecret[..192] == customSecret[..];
  }

  /** Store a register of secret words, two lanes for each 16 bytes. */
  method StoreSecret(customSecret: array<byte>, r: Reg, ghost seed: u64, p: nat, n: nat)
    requires customSecret.Length == 192 && p + n <= 24 && p % 2 == 0 && n % 2 == 0
    requires r == AddReg(Load(KSecret(), p, n), SeedReg(seed, n))
    requires customSecret[..8 * p] == DeriveUpTo(seed, p / 2)
    modifies customSecret
    ensures customSecret[..8 * (p + n)] == DeriveUpTo(seed, (p + n) / 2)
  {
    hide KSecret, ReadLE64, ToLE, Add64, Sub64, Load, SeedReg, DeriveUpTo, AddReg;
    var j := 0;
    while j < n
      invariant 0 <= j <= n && j % 2 == 0
      invariant customSecret[..8 * (p + j)] == DeriveUpTo(seed, (p + j) / 2)
    {
      StoredPair(customSecret[..8 * (p + j)], r, seed, p, j, n);
      WritePairAt(customSecret, 8 * (p + j), r[j], r[j + 1]);
      j := j + 2;
    }
  }

  /** Adding the negated seed is subtracting the seed, so two lanes are one scalar round. */
  lemma StoredPair(done: seq<byte>, r: Reg, seed: u64, p: nat, j: nat, n: nat)
    requires p % 2 == 0 && j % 2 == 0 && j + 2 <= n && p + n <= 24
    requires r == AddReg(Load(KSecret(), p, n), SeedReg(seed, n))
    requires done == DeriveUpTo(seed, (p + j) / 2)
    ensures done + ToLE(r[j], 8) + ToLE(r[j + 1], 8) == DeriveUpTo(seed, (p + j + 2) / 2)
  {
    hide KSecret, ReadLE64, ToLE, Load, SeedReg, Add64, Sub64, AddReg;
    SecretLane(r, seed, p, j, n);
    SecretLane(r, seed, p, j + 1, n);
    var h := (p + j) / 2;
    assert 16 * h == 8 * (p + j) && (p + j + 2) / 2 == h + 1;
  }

  lemma SecretLane(r: Reg, seed: u64, p: nat, j: nat, n: nat)
    requires j < n && p + n <= 24 && r == AddReg(Load(KSecret(), p, n), SeedReg(seed, n))
    ensures r[j] == if j % 2 == 0 then Add64(ReadLE64(KSecret(), 8 * (p + j)), seed)
                    else Sub64(ReadLE64(KSecret(), 8 * (p + j)), seed)
  {
    hide KSecret, ReadLE64, Load, SeedReg, Add64, Sub64;
    AddNegation(ReadLE64(KSecret(), 8 * (p + j)), seed);
  }

  lemma AddNegation(x: u64, y: u64)
    ensures Add64(x, Sub64(0, y)) == Sub64(x, y)
  {
    hide Wrap64;
    WrapSum(0 - y, x);
  }
}
