/** The distance of the Bech32 code: up to three wrong symbols are detected within 1023 symbols. The
    generator has three consecutive powers y^24, y^25, y^26 of a primitive element y of GF(1024) as
    roots. GF(1024) is ten-bit numbers modulo y^10 + y^8 + y^5 + y + 1, and GF(32) lies inside it. */
module Bech32Distance {
  import opened Arithmetic
  import opened Bech32
  import opened Bech32Field

  // ---------------------------------------------------------------- GF(1024)

  function Add(a: bv16, b: bv16): bv16 { a ^ b }

  /** Multiplication by y. */
  function Up(a: bv16): bv16 { Add(Left(a), Take(a, 512, 0x123)) }

  function Left(a: bv16): bv16 { (a & 511) << 1 }

  function Take(u: bv16, bit: bv16, k: bv16): bv16 { if u & bit != 0 then k else 0 }

  lemma AddCommutes(a: bv16, b: bv16)
    ensures Add(a, b) == Add(b, a)
  {
  }

  lemma AddAssociates(a: bv16, b: bv16, c: bv16)
    ensures Add(Add(a, b), c) == Add(a, Add(b, c))
  {
  }

  lemma AddZero(a: bv16)
    ensures Add(a, 0) == a && Add(0, a) == a && Add(a, a) == 0
  {
  }

  lemma AddIsZero(a: bv16, b: bv16)
    requires Add(a, b) == 0
    ensures a == b
  {
  }

  lemma AddLaws(a: bv16, b: bv16, c: bv16)
    ensures Add(a, b) == Add(b, a) && Add(Add(a, b), c) == Add(a, Add(b, c))
  {
    hide Add;
    AddCommutes(a, b);
    AddAssociates(a, b, c);
  }

  lemma AddSwap(a: bv16, b: bv16, c: bv16, d: bv16)
    ensures Add(Add(a, b), Add(c, d)) == Add(Add(a, c), Add(b, d))
  {
    hide Add;
    AddLaws(a, b, Add(c, d));
    AddLaws(b, c, d);
    AddLaws(c, b, d);
    AddLaws(a, c, Add(b, d));
  }

  lemma AddSmall(a: bv16, b: bv16)
    requires a < 1024 && b < 1024
    ensures Add(a, b) < 1024
  {
  }

  lemma LeftSum(a: bv16, b: bv16)
    ensures Left(Add(a, b)) == Add(Left(a), Left(b))
  {
  }

  lemma TakeBit(a: bv16, b: bv16, bit: bv16)
    requires bit == 1 || bit == 2 || bit == 4 || bit == 8 || bit == 16 || bit == 512
    ensures (Add(a, b) & bit != 0) == ((a & bit != 0) != (b & bit != 0))
  {
  }

  lemma TakeSum(a: bv16, b: bv16, bit: bv16, k: bv16)
    requires bit == 1 || bit == 2 || bit == 4 || bit == 8 || bit == 16 || bit == 512
    ensures Take(Add(a, b), bit, k) == Add(Take(a, bit, k), Take(b, bit, k))
  {
    hide Add;
    TakeBit(a, b, bit);
    AddZero(k);
    AddZero(0);
  }

  lemma UpSum(a: bv16, b: bv16)
    ensures Up(Add(a, b)) == Add(Up(a), Up(b)) && Up(0) == 0
  {
    hide Add, Left, Take;
    LeftSum(a, b);
    TakeSum(a, b, 512, 0x123);
    AddSwap(Left(a), Left(b), Take(a, 512, 0x123), Take(b, 512, 0x123));
    UpZero();
  }

  lemma UpZero()
    ensures Up(0) == 0
  {
  }

  lemma UpSmall(a: bv16)
    ensures Up(a) < 1024
  {
  }

  lemma UpTake(u: bv16, bit: bv16, k: bv16)
    ensures Up(Take(u, bit, k)) == Take(u, bit, Up(k))
  {
    hide Up;
    UpSum(0, 0);
  }

  /** The sum of the five weights that five bits of `u` choose. */
  function Five(u: bv16, bit: bv16, k0: bv16, k1: bv16, k2: bv16, k3: bv16, k4: bv16): bv16 {
    Add(Add(Add(Add(Take(u, bit, k0), Take(u, bit << 1, k1)), Take(u, bit << 2, k2)), Take(u, bit << 3, k3)),
        Take(u, bit << 4, k4))
  }

  function Ups(t: bv16): bv16 { Up(Up(Up(Up(Up(t))))) }

  function Half(t: bv16, u: bv16, bit: bv16): bv16 {
    Five(u, bit, t, Up(t), Up(Up(t)), Up(Up(Up(t))), Up(Up(Up(Up(t)))))
  }

  /** The product: the sum of t, ty, ..., ty^9 as the bits of `u` choose. */
  function Mul(t: bv16, u: bv16): bv16 { Add(Half(t, u, 1), Half(Ups(t), u, 32)) }

  lemma UpFive(u: bv16, bit: bv16, k0: bv16, k1: bv16, k2: bv16, k3: bv16, k4: bv16)
    ensures Up(Five(u, bit, k0, k1, k2, k3, k4)) == Five(u, bit, Up(k0), Up(k1), Up(k2), Up(k3), Up(k4))
  {
    hide Up, Add, Take;
    var a, b, c := Take(u, bit, k0), Take(u, bit << 1, k1), Take(u, bit << 2, k2);
    var d, e := Take(u, bit << 3, k3), Take(u, bit << 4, k4);
    UpTake(u, bit, k0);
    UpTake(u, bit << 1, k1);
    UpTake(u, bit << 2, k2);
    UpTake(u, bit << 3, k3);
    UpTake(u, bit << 4, k4);
    UpSum(a, b);
    UpSum(Add(a, b), c);
    UpSum(Add(Add(a, b), c), d);
    UpSum(Add(Add(Add(a, b), c), d), e);
  }

  lemma UpMul(t: bv16, u: bv16)
    ensures Mul(Up(t), u) == Up(Mul(t, u))
  {
    hide Up, Add, Five;
    var s := Ups(t);
    UpFive(u, 1, t, Up(t), Up(Up(t)), Up(Up(Up(t))), Up(Up(Up(Up(t)))));
    UpFive(u, 32, s, Up(s), Up(Up(s)), Up(Up(Up(s))), Up(Up(Up(Up(s)))));
    UpSum(Half(t, u, 1), Half(s, u, 32));
  }

  lemma MulOne(u: bv16)
    requires u < 1024
    ensures Mul(1, u) == u
  {
    LowPowers();
    AllBits(u);
  }

  lemma LowPowers()
    ensures Up(1) == 2 && Up(2) == 4 && Up(4) == 8 && Up(8) == 16 && Up(16) == 32
    ensures Up(32) == 64 && Up(64) == 128 && Up(128) == 256 && Up(256) == 512
  {
  }

  lemma AllBits(u: bv16)
    requires u < 1024
    ensures Add(Five(u, 1, 1, 2, 4, 8, 16), Five(u, 32, 32, 64, 128, 256, 512)) == u
  {
  }

  // ---------------------------------------------------------------- powers of y

  /** y^n u. */
  function Power(n: nat, u: bv16): bv16 { if n == 0 then u else Up(Power(n - 1, u)) }

  lemma {:induction false} PowerAdd(a: nat, b: nat, u: bv16)
    ensures Power(a + b, u) == Power(a, Power(b, u))
    decreases a
  {
    hide Up;
    if a > 0 {
      PowerAdd(a - 1, b, u);
    }
  }

  lemma {:induction false} PowerSum(n: nat, u: bv16, w: bv16)
    ensures Power(n, Add(u, w)) == Add(Power(n, u), Power(n, w))
    decreases n
  {
    hide Up, Add;
    if n > 0 {
      PowerSum(n - 1, u, w);
      UpSum(Power(n - 1, u), Power(n - 1, w));
    }
  }

  lemma {:induction false} PowerZero(n: nat)
    ensures Power(n, 0) == 0
  {
    hide Up;
    if n > 0 {
      PowerZero(n - 1);
      UpSum(0, 0);
    }
  }

  lemma PowerSmall(n: nat, u: bv16)
    requires u < 1024
    ensures Power(n, u) < 1024
  {
    hide Up;
    if n > 0 {
      UpSmall(Power(n - 1, u));
    }
  }

  lemma {:induction false} PowerMul(n: nat, u: bv16)
    requires u < 1024
    ensures Power(n, u) == Mul(Power(n, 1), u)
    decreases n
  {
    hide Up, Mul;
    if n == 0 {
      MulOne(u);
    } else {
      PowerMul(n - 1, u);
      UpMul(Power(n - 1, 1), u);
    }
  }

  lemma Product2(a: nat, b: nat, s: bv16, t: bv16)
    requires Power(a, 1) == s && Power(b, 1) == t && t < 1024
    ensures Power(a + b, 1) == Mul(s, t)
  {
    hide Power, Mul;
    PowerAdd(a, b, 1);
    PowerMul(a, t);
  }

  lemma FirstPowers()
    ensures Power(1, 1) == 2 && Power(2, 1) == 4 && Power(4, 1) == 16 && Power(8, 1) == 0x100
  {
    hide Up;
    LowPowers();
    PowerAdd(2, 2, 1);
    assert Power(2, 4) == 16;
    PowerAdd(4, 4, 1);
    PowerAdd(2, 2, 16);
    assert Power(2, 16) == 64 && Power(2, 64) == 256;
  }

  lemma Powers()
    ensures Power(16, 1) == 0x119 && Power(24, 1) == 0x3F0 && Power(25, 1) == 0x2C3 && Power(26, 1) == 0xA5
    ensures Power(32, 1) == 0x58 && Power(33, 1) == 0xB0 && Power(64, 1) == 0xEF
  {
    hide Power, Up, Mul;
    Products();
    FirstPowers();
    Product2(8, 8, 0x100, 0x100);
    Product2(16, 8, 0x119, 0x100);
    Product2(24, 1, 0x3F0, 2);
    Product2(24, 2, 0x3F0, 4);
    Product2(16, 16, 0x119, 0x119);
    Product2(32, 1, 0x58, 2);
    Product2(32, 32, 0x58, 0x58);
  }

  lemma Products()
    ensures Mul(0x100, 0x100) == 0x119 && Mul(0x119, 0x100) == 0x3F0 && Mul(0x3F0, 2) == 0x2C3 && Mul(0x3F0, 4) == 0xA5
    ensures Mul(0x119, 0x119) == 0x58 && Mul(0x58, 2) == 0xB0 && Mul(0x58, 0x58) == 0xEF
  {
  }

  lemma MorePowers()
    ensures Power(93, 1) == 0x36A && Power(341, 1) == 0x36 && Power(1023, 1) == 1
  {
    hide Power, Up, Mul;
    MoreProducts();
    FirstPowers();
    Powers();
    Product2(4, 1, 0x10, 2);
    Product2(8, 5, 0x100, 0x20);
    Product2(16, 13, 0x119, 0x35E);
    Product2(64, 29, 0xEF, 0xB);
    Product2(16, 5, 0x119, 0x20);
    Product2(64, 21, 0xEF, 0x7E);
    Product2(64, 64, 0xEF, 0xEF);
    Product2(128, 128, 0x346, 0x346);
    Product2(256, 85, 0x1E5, 0x1F1);
    Product2(341, 341, 0x36, 0x36);
    Product2(682, 341, 0x37, 0x36);
  }

  lemma MoreProducts()
    ensures Mul(0x10, 2) == 0x20 && Mul(0x100, 0x20) == 0x35E && Mul(0x119, 0x35E) == 0xB && Mul(0xEF, 0xB) == 0x36A
    ensures Mul(0x119, 0x20) == 0x7E && Mul(0xEF, 0x7E) == 0x1F1 && Mul(0xEF, 0xEF) == 0x346
    ensures Mul(0x346, 0x346) == 0x1E5 && Mul(0x1E5, 0x1F1) == 0x36
    ensures Mul(0x36, 0x36) == 0x37 && Mul(0x37, 0x36) == 1
  {
  }

  // ---------------------------------------------------------------- y is primitive

  lemma Cycle(u: bv16)
    requires u < 1024
    ensures Power(1023, u) == u
  {
    hide Power, Mul;
    MorePowers();
    PowerMul(1023, u);
    MulOne(u);
  }

  lemma {:induction false} Fixes(d: nat, t: nat, u: bv16)
    requires Power(d, u) == u
    ensures Power(d * t, u) == u
    decreases t
  {
    hide Power, Up;
    if t == 0 {
      PowerNone(u);
    } else {
      Fixes(d, t - 1, u);
      PowerAdd(d, d * (t - 1), u);
      assert d + d * (t - 1) == d * t;
    }
  }

  lemma PowerNone(u: bv16)
    ensures Power(0, u) == u
  {
  }

  /** If y^d keeps `u` and d has an inverse modulo p, then y^m keeps `u`, where p m = 1023. */
  lemma Reduced(d: nat, u: bv16, p: nat, m: nat, inverse: nat)
    requires u < 1024 && Power(d, u) == u && p > 0 && p * m == 1023 && d * inverse % p == 1
    ensures Power(m, u) == u
  {
    hide Power, Up;
    var j := d * inverse / p;
    Fixes(d, inverse * m, u);
    Cycle(u);
    Fixes(1023, j, u);
    PowerAdd(m, 1023 * j, u);
    Rewritten(d, inverse, p, m, j);
  }

  lemma Rewritten(d: nat, inverse: nat, p: nat, m: nat, j: nat)
    requires p > 0 && p * m == 1023 && d * inverse == p * j + 1
    ensures d * (inverse * m) == m + 1023 * j
  {
    assert d * (inverse * m) == (d * inverse) * m;
    assert (p * j + 1) * m == (p * m) * j + m;
  }

  /** The inverses of 1 and 2 modulo 3, of 1 to 10 modulo 11, and of 1 to 30 modulo 31. */
  const THIRDS: seq<nat> := [1, 2]
  const ELEVENTHS: seq<nat> := [1, 6, 4, 3, 9, 2, 8, 7, 5, 10]
  const THIRTY_FIRSTS_LOW: seq<nat> := [1, 16, 21, 8, 25, 26, 9, 4, 7, 28]
  const THIRTY_FIRSTS_MID: seq<nat> := [17, 13, 12, 20, 29, 2, 11, 19, 18, 14]
  const THIRTY_FIRSTS_HIGH: seq<nat> := [3, 24, 27, 22, 5, 6, 23, 10, 15, 30]

  /** The first `n` entries are inverses of `r`, `r + 1` and so on. */
  predicate Inverses(s: seq<nat>, p: nat, r: nat, n: nat)
    requires p > 0 && n <= |s|
  {
    n == 0 || (Inverses(s, p, r, n - 1) && (r + n - 1) * s[n - 1] % p == 1)
  }

  lemma {:induction false} InverseAt(s: seq<nat>, p: nat, r: nat, n: nat, i: nat)
    requires p > 0 && n <= |s| && Inverses(s, p, r, n) && i < n
    ensures (r + i) * s[i] % p == 1
    decreases n
  {
    if i < n - 1 {
      InverseAt(s, p, r, n - 1, i);
    }
  }

  lemma Tables()
    ensures Inverses(THIRDS, 3, 1, 2) && Inverses(ELEVENTHS, 11, 1, 10)
  {
  }

  lemma Tables31()
    ensures Inverses(THIRTY_FIRSTS_LOW, 31, 1, 10) && Inverses(THIRTY_FIRSTS_MID, 31, 11, 10)
    ensures Inverses(THIRTY_FIRSTS_HIGH, 31, 21, 10)
  {
  }

  lemma SameRemainder(d: nat, r: nat, k: nat, p: nat)
    requires p > 0 && r == d % p
    ensures d * k % p == r * k % p
  {
    var q := d / p;
    assert d * k == r * k + (q * k) * p;
    ModAdd(d * k, r * k, q * k, p);
  }

  /** No power of y below the 1023rd keeps anything but zero. */
  lemma NoFixedPoint(d: nat, u: bv16)
    requires 0 < d < 1023 && u < 1024 && Power(d, u) == u
    ensures u == 0
  {
    hide Power, Mul, Inverses;
    MorePowers();
    Powers();
    if d % 3 != 0 {
      Tables();
      Kept(d, u, THIRDS, 3, 341, 1, 2);
      PowerMul(341, u);
    } else if d % 11 != 0 {
      Tables();
      Kept(d, u, ELEVENTHS, 11, 93, 1, 10);
      PowerMul(93, u);
    } else {
      NotMultiple(d);
      Kept31(d, u);
      PowerMul(33, u);
    }
    OnlyZeroKept(u);
  }

  lemma NotMultiple(d: nat)
    requires 0 < d < 1023 && d % 3 == 0 && d % 11 == 0
    ensures d % 31 != 0
  {
  }

  lemma Kept31(d: nat, u: bv16)
    requires u < 1024 && Power(d, u) == u && d % 31 != 0
    ensures Power(33, u) == u
  {
    hide Power, Inverses;
    Tables31();
    if d % 31 <= 10 {
      Kept(d, u, THIRTY_FIRSTS_LOW, 31, 33, 1, 10);
    } else if d % 31 <= 20 {
      Kept(d, u, THIRTY_FIRSTS_MID, 31, 33, 11, 10);
    } else {
      Kept(d, u, THIRTY_FIRSTS_HIGH, 31, 33, 21, 10);
    }
  }

  lemma Kept(d: nat, u: bv16, s: seq<nat>, p: nat, m: nat, r: nat, n: nat)
    requires u < 1024 && Power(d, u) == u && p > 0 && p * m == 1023
    requires n == |s| && Inverses(s, p, r, n) && r <= d % p < r + n
    ensures Power(m, u) == u
  {
    hide Power, Inverses;
    var i := d % p - r;
    InverseAt(s, p, r, n, i);
    SameRemainder(d, d % p, s[i], p);
    Reduced(d, u, p, m, s[i]);
  }

  lemma OnlyZeroKept(u: bv16)
    requires u < 1024 && (Mul(0x36, u) == u || Mul(0x36A, u) == u || Mul(0xB0, u) == u)
    ensures u == 0
  {
    hide Mul;
    if Mul(0x36, u) == u {
      Free341(u);
    } else if Mul(0x36A, u) == u {
      Free93(u);
    } else {
      Free33(u);
    }
  }

  lemma Free341(u: bv16)
    requires u < 1024 && Mul(0x36, u) == u
    ensures u == 0
  {
  }

  lemma Free93(u: bv16)
    requires u < 1024 && Mul(0x36A, u) == u
    ensures u == 0
  {
  }

  lemma Free33(u: bv16)
    requires u < 1024 && Mul(0xB0, u) == u
    ensures u == 0
  {
  }

  // ---------------------------------------------------------------- GF(32) in GF(1024)

  /** The image of a symbol: bit i stands for the i-th power of the root 0xE of a^5 + a^3 + 1. */
  function Embed(e: bv8): bv16 { Five(e as bv16, 1, 1, 0xE, 0x54, 0x358, 0xBF) }

  lemma FiveSum(a: bv16, b: bv16, k0: bv16, k1: bv16, k2: bv16, k3: bv16, k4: bv16)
    ensures Five(Add(a, b), 1, k0, k1, k2, k3, k4) ==
            Add(Five(a, 1, k0, k1, k2, k3, k4), Five(b, 1, k0, k1, k2, k3, k4))
  {
    hide Add, Take;
    TakeSum(a, b, 1, k0);
    TakeSum(a, b, 2, k1);
    TakeSum(a, b, 4, k2);
    TakeSum(a, b, 8, k3);
    TakeSum(a, b, 16, k4);
    Powers16();
    var p, q := Add(Take(a, 1, k0), Take(a, 2, k1)), Add(Take(b, 1, k0), Take(b, 2, k1));
    AddSwap(Take(a, 1, k0), Take(b, 1, k0), Take(a, 2, k1), Take(b, 2, k1));
    AddSwap(p, q, Take(a, 4, k2), Take(b, 4, k2));
    p, q := Add(p, Take(a, 4, k2)), Add(q, Take(b, 4, k2));
    AddSwap(p, q, Take(a, 8, k3), Take(b, 8, k3));
    p, q := Add(p, Take(a, 8, k3)), Add(q, Take(b, 8, k3));
    AddSwap(p, q, Take(a, 16, k4), Take(b, 16, k4));
  }

  lemma Powers16()
    ensures (1 as bv16) << 1 == 2 && (1 as bv16) << 2 == 4 && (1 as bv16) << 3 == 8 && (1 as bv16) << 4 == 16
  {
  }

  lemma EmbedSum(a: bv8, b: bv8)
    ensures Embed(XorByte(a, b)) == Add(Embed(a), Embed(b))
  {
    hide Five;
    Widened(a, b);
    FiveSum(a as bv16, b as bv16, 1, 0xE, 0x54, 0x358, 0xBF);
  }

  lemma Widened(a: bv8, b: bv8)
    ensures XorByte(a, b) as bv16 == Add(a as bv16, b as bv16)
  {
  }

  lemma EmbedNothing()
    ensures Embed(0) == 0
  {
  }

  lemma EmbedSmall(a: bv8)
    ensures Embed(a) < 1024
  {
  }

  lemma EmbedZero(a: bv8)
    requires a < 32 && Embed(a) == 0
    ensures a == 0
  {
  }

  // ---------------------------------------------------------------- values of polynomials

  /** The value at y^n of the polynomial with these coefficients, the highest first. */
  function Value(n: nat, e: seq<bv8>): bv16 {
    if e == [] then 0 else Add(Power(n, Value(n, e[..|e| - 1])), Embed(e[|e| - 1]))
  }

  lemma ValueNext(n: nat, e: seq<bv8>, v: bv8)
    ensures Value(n, e + [v]) == Add(Power(n, Value(n, e)), Embed(v))
  {
    hide Power, Embed, Add;
    assert (e + [v])[..|e|] == e;
  }

  lemma {:induction false} ValueSmall(n: nat, e: seq<bv8>)
    ensures Value(n, e) < 1024
    decreases |e|
  {
    hide Power, Embed, Add;
    if e != [] {
      var last := |e| - 1;
      ValueSmall(n, e[..last]);
      PowerSmall(n, Value(n, e[..last]));
      EmbedSmall(e[last]);
      AddSmall(Power(n, Value(n, e[..last])), Embed(e[last]));
    }
  }

  lemma {:induction false} ValueSum(n: nat, e: seq<bv8>, f: seq<bv8>)
    requires |e| == |f|
    ensures Value(n, XorAll(e, f)) == Add(Value(n, e), Value(n, f))
    decreases |e|
  {
    hide Power, Embed, Add, XorByte;
    if e == [] {
      AddZero(0);
    } else {
      var last := |e| - 1;
      var e', f' := e[..last], f[..last];
      ValueSum(n, e', f');
      assert XorAll(e, f)[..last] == XorAll(e', f');
      PowerSum(n, Value(n, e'), Value(n, f'));
      EmbedSum(e[last], f[last]);
      AddSwap(Power(n, Value(n, e')), Power(n, Value(n, f')), Embed(e[last]), Embed(f[last]));
    }
  }

  lemma {:induction false} ValueZeroes(n: nat, k: nat)
    ensures Value(n, Zeroes(k)) == 0
  {
    hide Power, Embed, Add;
    if k > 0 {
      ValueZeroes(n, k - 1);
      assert Zeroes(k)[..k - 1] == Zeroes(k - 1);
      PowerZero(n);
      EmbedNothing();
      AddZero(0);
    }
  }

  /** Leading zeroes do not count. */
  lemma {:induction false} ValueLead(n: nat, e: seq<bv8>)
    ensures Value(n, [0] + e) == Value(n, e)
    decreases |e|
  {
    hide Power, Embed, Add;
    if e == [] {
      assert [0] + e == Zeroes(1);
      ValueZeroes(n, 1);
    } else {
      var last := |e| - 1;
      ValueLead(n, e[..last]);
      assert [0] + e == ([0] + e[..last]) + [e[last]];
      ValueNext(n, [0] + e[..last], e[last]);
    }
  }

  // ---------------------------------------------------------------- three roots of the generator

  ghost predicate IsRoot(n: nat, a: bv8) {
    Value(n, Scale(a, GENERATOR)) == 0
  }

  function Horner(t: bv16, v: bv16, e: bv8): bv16 { Add(Mul(t, v), Embed(e)) }

  function Seven(t: bv16, a: bv8, b: bv8, c: bv8, d: bv8, e: bv8, f: bv8, g: bv8): bv16 {
    Horner(t, Horner(t, Horner(t, Horner(t, Horner(t, Horner(t, Embed(a), b), c), d), e), f), g)
  }

  lemma ValueHorner(n: nat, t: bv16, e: seq<bv8>)
    requires Power(n, 1) == t && e != []
    ensures Value(n, e) == Horner(t, Value(n, e[..|e| - 1]), e[|e| - 1])
  {
    hide Power, Embed, Add, Mul;
    ValueSmall(n, e[..|e| - 1]);
    PowerMul(n, Value(n, e[..|e| - 1]));
  }

  lemma ValueOne(n: nat, a: bv8)
    ensures Value(n, [a]) == Embed(a)
  {
    hide Power, Embed, Add;
    PowerZero(n);
    AddZero(Embed(a));
  }

  lemma ValueSeven(n: nat, t: bv16, e: seq<bv8>)
    requires Power(n, 1) == t && |e| == 7
    ensures Value(n, e) == Seven(t, e[0], e[1], e[2], e[3], e[4], e[5], e[6])
  {
    hide Power, Embed, Horner, Value;
    ValueOne(n, e[0]);
    assert e[..1] == [e[0]];
    forall i: nat | 1 <= i < 7
      ensures Value(n, e[..i + 1]) == Horner(t, Value(n, e[..i]), e[i])
    {
      assert e[..i + 1][..i] == e[..i];
      ValueHorner(n, t, e[..i + 1]);
    }
    assert e[..7] == e;
  }

  lemma LowMultiples()
    ensures Scale(1, GENERATOR) == [1, 29, 22, 20, 21, 29, 18] && Scale(2, GENERATOR) == [2, 19, 5, 1, 3, 19, 13]
    ensures Scale(4, GENERATOR) == [4, 15, 10, 2, 6, 15, 26]
  {
  }

  lemma HighMultiples()
    ensures Scale(8, GENERATOR) == [8, 30, 20, 4, 12, 30, 29] && Scale(16, GENERATOR) == [16, 21, 1, 8, 24, 21, 19]
  {
  }

  /** The powers of y from y^24 on. */
  lemma NextPowers()
    ensures Up(0x3F0) == 0x2C3 && Up(0x2C3) == 0xA5 && Up(0xA5) == 0x14A && Up(0x14A) == 0x294
    ensures Up(0x294) == 0xB && Up(0xB) == 0x16 && Up(0x16) == 0x2C && Up(0x2C) == 0x58
    ensures Up(0x58) == 0xB0 && Up(0xB0) == 0x160 && Up(0x160) == 0x2C0 && Up(0x2C0) == 0xA3
  {
  }

  lemma Columns24(u: bv16)
    ensures Mul(0x3F0, u) == Add(Five(u, 1, 0x3F0, 0x2C3, 0xA5, 0x14A, 0x294), Five(u, 32, 0xB, 0x16, 0x2C, 0x58, 0xB0))
  {
    hide Up, Five, Add;
    NextPowers();
  }

  lemma Columns25(u: bv16)
    ensures Mul(0x2C3, u) == Add(Five(u, 1, 0x2C3, 0xA5, 0x14A, 0x294, 0xB), Five(u, 32, 0x16, 0x2C, 0x58, 0xB0, 0x160))
  {
    hide Up, Five, Add;
    NextPowers();
  }

  lemma Columns26(u: bv16)
    ensures Mul(0xA5, u) == Add(Five(u, 1, 0xA5, 0x14A, 0x294, 0xB, 0x16), Five(u, 32, 0x2C, 0x58, 0xB0, 0x160, 0x2C0))
  {
    hide Up, Five, Add;
    NextPowers();
  }

  lemma Steps24At1()
    ensures Horner(0x3F0, 1, 29) == 0x42 && Horner(0x3F0, 0x42, 22) == 0x230 && Horner(0x3F0, 0x230, 20) == 0x2C4
    ensures Horner(0x3F0, 0x2C4, 21) == 0xC5 && Horner(0x3F0, 0xC5, 29) == 0xDD && Horner(0x3F0, 0xDD, 18) == 0
  {
    hide Mul, Up;
    Columns24(1);
    Columns24(0x42);
    Columns24(0x230);
    Columns24(0x2C4);
    Columns24(0xC5);
    Columns24(0xDD);
  }

  lemma Steps24At2()
    ensures Horner(0x3F0, 0xE, 19) == 0x39C && Horner(0x3F0, 0x39C, 5) == 0x3EA && Horner(0x3F0, 0x3EA, 1) == 0x351
    ensures Horner(0x3F0, 0x351, 3) == 0x195 && Horner(0x3F0, 0x195, 19) == 0x105 && Horner(0x3F0, 0x105, 13) == 0
  {
    hide Mul, Up;
    Columns24(0xE);
    Columns24(0x39C);
    Columns24(0x3EA);
    Columns24(0x351);
    Columns24(0x195);
    Columns24(0x105);
  }

  lemma Steps24At4()
    ensures Horner(0x3F0, 0x54, 15) == 0x124 && Horner(0x3F0, 0x124, 10) == 0x3A0 && Horner(0x3F0, 0x3A0, 2) == 0xC1
    ensures Horner(0x3F0, 0xC1, 6) == 0x390 && Horner(0x3F0, 0x390, 15) == 0x153 && Horner(0x3F0, 0x153, 26) == 0
  {
    hide Mul, Up;
    Columns24(0x54);
    Columns24(0x124);
    Columns24(0x3A0);
    Columns24(0xC1);
    Columns24(0x390);
    Columns24(0x153);
  }

  lemma Steps24At8()
    ensures Horner(0x3F0, 0x358, 30) == 0x9D && Horner(0x3F0, 0x9D, 20) == 0x4C && Horner(0x3F0, 0x4C, 4) == 0x1AD
    ensures Horner(0x3F0, 0x1AD, 12) == 0x16C && Horner(0x3F0, 0x16C, 30) == 0x217 && Horner(0x3F0, 0x217, 29) == 0
  {
    hide Mul, Up;
    Columns24(0x358);
    Columns24(0x9D);
    Columns24(0x4C);
    Columns24(0x1AD);
    Columns24(0x16C);
    Columns24(0x217);
  }

  lemma Steps24At16()
    ensures Horner(0x3F0, 0xBF, 21) == 0x285 && Horner(0x3F0, 0x285, 1) == 0x3C8 && Horner(0x3F0, 0x3C8, 8) == 0x2C0
    ensures Horner(0x3F0, 0x2C0, 24) == 0x36D && Horner(0x3F0, 0x36D, 21) == 0x200 && Horner(0x3F0, 0x200, 19) == 0
  {
    hide Mul, Up;
    Columns24(0xBF);
    Columns24(0x285);
    Columns24(0x3C8);
    Columns24(0x2C0);
    Columns24(0x36D);
    Columns24(0x200);
  }

  lemma Steps25At1()
    ensures Horner(0x2C3, 1, 29) == 0x171 && Horner(0x2C3, 0x171, 22) == 0x2A7 && Horner(0x2C3, 0x2A7, 20) == 0x2E9
    ensures Horner(0x2C3, 0x2E9, 21) == 0x1BF && Horner(0x2C3, 0x1BF, 29) == 0x2FF && Horner(0x2C3, 0x2FF, 18) == 0
  {
    hide Mul, Up;
    Columns25(1);
    Columns25(0x171);
    Columns25(0x2A7);
    Columns25(0x2E9);
    Columns25(0x1BF);
    Columns25(0x2FF);
  }

  lemma Steps25At2()
    ensures Horner(0x2C3, 0xE, 19) == 0x3CB && Horner(0x2C3, 0x3CB, 5) == 0x103 && Horner(0x2C3, 0x103, 1) == 0x2D7
    ensures Horner(0x2C3, 0x2D7, 3) == 0x23C && Horner(0x2C3, 0x23C, 19) == 0x213 && Horner(0x2C3, 0x213, 13) == 0
  {
    hide Mul, Up;
    Columns25(0xE);
    Columns25(0x3CB);
    Columns25(0x103);
    Columns25(0x2D7);
    Columns25(0x23C);
    Columns25(0x213);
  }

  lemma Steps25At4()
    ensures Horner(0x2C3, 0x54, 15) == 0x26E && Horner(0x2C3, 0x26E, 10) == 0x177 && Horner(0x2C3, 0x177, 2) == 0x3A3
    ensures Horner(0x2C3, 0x3A3, 6) == 0x3A2 && Horner(0x2C3, 0x3A2, 15) == 0x238 && Horner(0x2C3, 0x238, 26) == 0
  {
    hide Mul, Up;
    Columns25(0x54);
    Columns25(0x26E);
    Columns25(0x177);
    Columns25(0x3A3);
    Columns25(0x3A2);
    Columns25(0x238);
  }

  lemma Steps25At8()
    ensures Horner(0x2C3, 0x358, 30) == 0xDE && Horner(0x2C3, 0xDE, 20) == 0x3EF && Horner(0x2C3, 0x3EF, 4) == 0x5E
    ensures Horner(0x2C3, 0x5E, 12) == 0x50 && Horner(0x2C3, 0x50, 30) == 0x39A && Horner(0x2C3, 0x39A, 29) == 0
  {
    hide Mul, Up;
    Columns25(0x358);
    Columns25(0xDE);
    Columns25(0x3EF);
    Columns25(0x5E);
    Columns25(0x50);
    Columns25(0x39A);
  }

  lemma Steps25At16()
    ensures Horner(0x2C3, 0xBF, 21) == 0x117 && Horner(0x2C3, 0x117, 1) == 0x396 && Horner(0x2C3, 0x396, 8) == 0x334
    ensures Horner(0x2C3, 0x334, 24) == 0x360 && Horner(0x2C3, 0x360, 21) == 0x100 && Horner(0x2C3, 0x100, 19) == 0
  {
    hide Mul, Up;
    Columns25(0xBF);
    Columns25(0x117);
    Columns25(0x396);
    Columns25(0x334);
    Columns25(0x360);
    Columns25(0x100);
  }

  lemma Steps26At1()
    ensures Horner(0xA5, 1, 29) == 0x317 && Horner(0xA5, 0x317, 22) == 0x28 && Horner(0xA5, 0x28, 20) == 0xCC
    ensures Horner(0xA5, 0xCC, 21) == 0x29D && Horner(0xA5, 0x29D, 29) == 0x3EE && Horner(0xA5, 0x3EE, 18) == 0
  {
    hide Mul, Up;
    Columns26(1);
    Columns26(0x317);
    Columns26(0x28);
    Columns26(0xCC);
    Columns26(0x29D);
    Columns26(0x3EE);
  }

  lemma Steps26At2()
    ensures Horner(0xA5, 0xE, 19) == 0x365 && Horner(0xA5, 0x365, 5) == 0x1B0 && Horner(0xA5, 0x1B0, 1) == 0x1EB
    ensures Horner(0xA5, 0x1EB, 3) == 0x4F && Horner(0xA5, 0x4F, 19) == 0x398 && Horner(0xA5, 0x398, 13) == 0
  {
    hide Mul, Up;
    Columns26(0xE);
    Columns26(0x365);
    Columns26(0x1B0);
    Columns26(0x1EB);
    Columns26(0x4F);
    Columns26(0x398);
  }

  lemma Steps26At4()
    ensures Horner(0xA5, 0x54, 15) == 0x1D9 && Horner(0xA5, 0x1D9, 10) == 0x266 && Horner(0xA5, 0x266, 2) == 0x164
    ensures Horner(0xA5, 0x164, 6) == 0x3DA && Horner(0xA5, 0x3DA, 15) == 0x11C && Horner(0xA5, 0x11C, 26) == 0
  {
    hide Mul, Up;
    Columns26(0x54);
    Columns26(0x1D9);
    Columns26(0x266);
    Columns26(0x164);
    Columns26(0x3DA);
    Columns26(0x11C);
  }

  lemma Steps26At8()
    ensures Horner(0xA5, 0x358, 30) == 0x58 && Horner(0xA5, 0x58, 20) == 0xAE && Horner(0xA5, 0xAE, 4) == 0x31D
    ensures Horner(0xA5, 0x31D, 12) == 0x280 && Horner(0xA5, 0x280, 30) == 0x1CD && Horner(0xA5, 0x1CD, 29) == 0
  {
    hide Mul, Up;
    Columns26(0x358);
    Columns26(0x58);
    Columns26(0xAE);
    Columns26(0x31D);
    Columns26(0x280);
    Columns26(0x1CD);
  }

  lemma Steps26At16()
    ensures Horner(0xA5, 0xBF, 21) == 0x310 && Horner(0xA5, 0x310, 1) == 0x3B7 && Horner(0xA5, 0x3B7, 8) == 0x309
    ensures Horner(0xA5, 0x309, 24) == 0xE9 && Horner(0xA5, 0xE9, 21) == 0x80 && Horner(0xA5, 0x80, 19) == 0
  {
    hide Mul, Up;
    Columns26(0xBF);
    Columns26(0x310);
    Columns26(0x3B7);
    Columns26(0x309);
    Columns26(0xE9);
    Columns26(0x80);
  }

  lemma Vanish24()
    ensures Seven(0x3F0, 1, 29, 22, 20, 21, 29, 18) == 0
    ensures Seven(0x3F0, 2, 19, 5, 1, 3, 19, 13) == 0
    ensures Seven(0x3F0, 4, 15, 10, 2, 6, 15, 26) == 0
    ensures Seven(0x3F0, 8, 30, 20, 4, 12, 30, 29) == 0
    ensures Seven(0x3F0, 16, 21, 1, 8, 24, 21, 19) == 0
  {
    hide Horner, Embed;
    Images();
    Steps24At1();
    Steps24At2();
    Steps24At4();
    Steps24At8();
    Steps24At16();
  }

  lemma Vanish25()
    ensures Seven(0x2C3, 1, 29, 22, 20, 21, 29, 18) == 0
    ensures Seven(0x2C3, 2, 19, 5, 1, 3, 19, 13) == 0
    ensures Seven(0x2C3, 4, 15, 10, 2, 6, 15, 26) == 0
    ensures Seven(0x2C3, 8, 30, 20, 4, 12, 30, 29) == 0
    ensures Seven(0x2C3, 16, 21, 1, 8, 24, 21, 19) == 0
  {
    hide Horner, Embed;
    Images();
    Steps25At1();
    Steps25At2();
    Steps25At4();
    Steps25At8();
    Steps25At16();
  }

  lemma Vanish26()
    ensures Seven(0xA5, 1, 29, 22, 20, 21, 29, 18) == 0
    ensures Seven(0xA5, 2, 19, 5, 1, 3, 19, 13) == 0
    ensures Seven(0xA5, 4, 15, 10, 2, 6, 15, 26) == 0
    ensures Seven(0xA5, 8, 30, 20, 4, 12, 30, 29) == 0
    ensures Seven(0xA5, 16, 21, 1, 8, 24, 21, 19) == 0
  {
    hide Horner, Embed;
    Images();
    Steps26At1();
    Steps26At2();
    Steps26At4();
    Steps26At8();
    Steps26At16();
  }

  lemma Images()
    ensures Embed(1) == 1 && Embed(2) == 0xE && Embed(4) == 0x54 && Embed(8) == 0x358 && Embed(16) == 0xBF
  {
  }

  lemma RootBits(n: nat)
    requires n == 24 || n == 25 || n == 26
    ensures IsRoot(n, 0) && IsRoot(n, 1) && IsRoot(n, 2) && IsRoot(n, 4) && IsRoot(n, 8) && IsRoot(n, 16)
  {
    hide Power, Seven, Value, Times;
    Powers();
    LowMultiples();
    HighMultiples();
    var t: bv16 := if n == 24 then 0x3F0 else if n == 25 then 0x2C3 else 0xA5;
    ValueSeven(n, t, Scale(1, GENERATOR));
    ValueSeven(n, t, Scale(2, GENERATOR));
    ValueSeven(n, t, Scale(4, GENERATOR));
    ValueSeven(n, t, Scale(8, GENERATOR));
    ValueSeven(n, t, Scale(16, GENERATOR));
    VanishAll(t);
    RootOfNothing(n);
  }

  lemma VanishAll(t: bv16)
    requires t == 0x3F0 || t == 0x2C3 || t == 0xA5
    ensures Seven(t, 1, 29, 22, 20, 21, 29, 18) == 0
    ensures Seven(t, 2, 19, 5, 1, 3, 19, 13) == 0
    ensures Seven(t, 4, 15, 10, 2, 6, 15, 26) == 0
    ensures Seven(t, 8, 30, 20, 4, 12, 30, 29) == 0
    ensures Seven(t, 16, 21, 1, 8, 24, 21, 19) == 0
  {
    hide Seven;
    Vanish24();
    Vanish25();
    Vanish26();
  }

  lemma RootOfNothing(n: nat)
    ensures IsRoot(n, 0)
  {
    hide Times, Value;
    forall i | 0 <= i < 7
      ensures Scale(0, GENERATOR)[i] == 0
    {
      Zero(GENERATOR[i]);
    }
    assert Scale(0, GENERATOR) == Zeroes(7);
    ValueZeroes(n, 7);
  }

  lemma RootSum(n: nat, a: bv8, c: bv8)
    requires IsRoot(n, a) && IsRoot(n, c)
    ensures IsRoot(n, XorByte(a, c))
  {
    hide Times, Value, XorByte;
    forall i | 0 <= i < 7
      ensures Scale(XorByte(a, c), GENERATOR)[i] == XorByte(Scale(a, GENERATOR)[i], Scale(c, GENERATOR)[i])
    {
      Distributes(a, c, GENERATOR[i]);
    }
    assert Scale(XorByte(a, c), GENERATOR) == XorAll(Scale(a, GENERATOR), Scale(c, GENERATOR));
    ValueSum(n, Scale(a, GENERATOR), Scale(c, GENERATOR));
    AddZero(0);
  }

  /** y^24, y^25 and y^26 are roots of the generator and of all its multiples by symbols. */
  lemma GeneratorVanishes(n: nat, a: bv8)
    requires (n == 24 || n == 25 || n == 26) && a < 32
    ensures Value(n, Scale(a, GENERATOR)) == 0
  {
    hide IsRoot, XorByte;
    RootBits(n);
    var p := XorByte(When(a, 1, 1), When(a, 2, 2));
    RootSum(n, When(a, 1, 1), When(a, 2, 2));
    RootSum(n, p, When(a, 4, 4));
    RootSum(n, XorByte(p, When(a, 4, 4)), When(a, 8, 8));
    RootSum(n, XorByte(XorByte(p, When(a, 4, 4)), When(a, 8, 8)), When(a, 16, 16));
    SymbolBits(a);
    RootMeans(n, a);
  }

  lemma RootMeans(n: nat, a: bv8)
    requires IsRoot(n, a)
    ensures Value(n, Scale(a, GENERATOR)) == 0
  {
  }

  lemma SymbolBits(a: bv8)
    requires a < 32
    ensures XorByte(XorByte(XorByte(XorByte(When(a, 1, 1), When(a, 2, 2)), When(a, 4, 4)), When(a, 8, 8)),
                    When(a, 16, 16)) == a
  {
  }

  // ---------------------------------------------------------------- the value of a run

  /** A step of the checksum is a step of the evaluation at a root. */
  lemma StepValue(n: nat, c: bv32, v: bv8)
    requires (n == 24 || n == 25 || n == 26) && c < 0x4000_0000 && v < 32
    ensures Value(n, Coefficients(Step(c, v))) == Add(Power(n, Value(n, Coefficients(c))), Embed(v))
  {
    hide Value, Power, Embed, Add, Coefficient, Step, Times, XorByte;
    var a := Coefficient(c, 0);
    var below, above := Coefficients(c) + [v], [0] + Coefficients(Step(c, v));
    forall i | 0 <= i < 7
      ensures XorByte(below[i], above[i]) == Scale(a, GENERATOR)[i]
    {
      StepAt(c, v, i);
    }
    assert XorAll(below, above) == Scale(a, GENERATOR);
    CoefficientBound(c, 0);
    GeneratorVanishes(n, a);
    ValueSum(n, below, above);
    AddIsZero(Value(n, below), Value(n, above));
    ValueNext(n, Coefficients(c), v);
    ValueLead(n, Coefficients(Step(c, v)));
  }

  lemma StepAt(c: bv32, v: bv8, i: nat)
    requires c < 0x4000_0000 && v < 32 && i < 7
    ensures XorByte((Coefficients(c) + [v])[i], ([0] + Coefficients(Step(c, v)))[i]) ==
            Times(Coefficient(c, 0), GENERATOR[i])
  {
    hide Coefficient, Step, Times, XorByte;
    var a := Coefficient(c, 0);
    CoefficientBound(c, 0);
    if i == 0 {
      Unit(a);
      XorByteLaws(a, 0);
    } else {
      StepCoefficient(c, v, i - 1);
      var s := if i < 6 then Coefficient(c, i) else v;
      SumLeft(s, Times(a, K[i - 1]));
    }
  }

  lemma SumLeft(s: bv8, t: bv8)
    ensures XorByte(s, XorByte(s, t)) == t
  {
  }

  /** At a root the checksum of a list has the value of the list itself. */
  lemma {:induction false} RunValue(n: nat, e: seq<bv8>)
    requires (n == 24 || n == 25 || n == 26) && Symbols(e)
    ensures Value(n, Coefficients(Run(0, e))) == Value(n, e)
    decreases |e|
  {
    hide Power, Embed, Add, Step, Coefficients;
    if e == [] {
      NoCoefficients();
      ValueZeroes(n, 6);
    } else {
      var last := |e| - 1;
      RunBound(0, e[..last]);
      RunValue(n, e[..last]);
      StepValue(n, Run(0, e[..last]), e[last]);
    }
  }

  lemma NoCoefficients()
    ensures Coefficients(0) == Zeroes(6)
  {
  }

  // ---------------------------------------------------------------- three terms

  /** What the coefficient at a position adds to the value. */
  function Term(n: nat, e: seq<bv8>, p: nat): bv16 {
    if p < |e| then Power(n * (|e| - 1 - p), Embed(e[p])) else 0
  }

  lemma TermNext(n: nat, e: seq<bv8>, p: nat)
    requires e != []
    ensures var last := |e| - 1;
            if p == last then Term(n, e, p) == Embed(e[last]) && Term(n, e[..last], p) == 0
            else Term(n, e, p) == Power(n, Term(n, e[..last], p))
  {
    hide Power, Embed;
    var last := |e| - 1;
    if p == last {
      PowerNone(Embed(e[last]));
    } else if p < last {
      OneMore(n, last - 1 - p);
      PowerAdd(n, n * (last - 1 - p), Embed(e[p]));
    } else {
      PowerZero(n);
    }
  }

  lemma OneMore(n: nat, d: nat)
    ensures n * (d + 1) == n + n * d
  {
  }

  ghost predicate ZeroBut(e: seq<bv8>, p: nat, q: nat, r: nat) {
    forall i :: 0 <= i < |e| && i != p && i != q && i != r ==> e[i] == 0
  }

  /** A list with at most three coefficients has the value of their terms. */
  lemma {:induction false} ValueTerms(n: nat, e: seq<bv8>, p: nat, q: nat, r: nat)
    requires p != q && p != r && q != r && ZeroBut(e, p, q, r)
    ensures Value(n, e) == Add(Add(Term(n, e, p), Term(n, e, q)), Term(n, e, r))
    decreases |e|
  {
    hide Power, Embed, Add, Term;
    if e == [] {
      NoTerms(n, p, q, r);
    } else {
      var last := |e| - 1;
      var f := e[..last];
      ValueTerms(n, f, p, q, r);
      TermNext(n, e, p);
      TermNext(n, e, q);
      TermNext(n, e, r);
      var x, y, z := Term(n, f, p), Term(n, f, q), Term(n, f, r);
      PowerSum(n, Add(x, y), z);
      PowerSum(n, x, y);
      PowerZero(n);
      EmbedNothing();
      Rearrange(Power(n, x), Power(n, y), Power(n, z), Embed(e[last]));
    }
  }

  lemma NoTerms(n: nat, p: nat, q: nat, r: nat)
    ensures Add(Add(Term(n, [], p), Term(n, [], q)), Term(n, [], r)) == 0
  {
    hide Add;
    AddZero(0);
  }

  /** The new term takes the place of the one that is zero. */
  lemma Rearrange(x: bv16, y: bv16, z: bv16, added: bv16)
    ensures added == 0 ==> Add(Add(Add(x, y), z), added) == Add(Add(x, y), z)
    ensures x == 0 ==> Add(Add(Add(x, y), z), added) == Add(Add(added, y), z)
    ensures y == 0 ==> Add(Add(Add(x, y), z), added) == Add(Add(x, added), z)
    ensures z == 0 ==> Add(Add(Add(x, y), z), added) == Add(Add(x, y), added)
  {
    hide Add;
    AddZero(Add(Add(x, y), z));
    AddZero(y);
    AddZero(x);
    AddZero(Add(x, y));
    AddZero(added);
    AddLaws(Add(y, z), added, 0);
    AddLaws(added, y, z);
    AddLaws(x, z, added);
    AddLaws(z, added, 0);
    AddLaws(x, added, z);
  }

  // ---------------------------------------------------------------- independence

  lemma {:induction false} PowerIsZero(n: nat, u: bv16)
    requires u < 1024 && Power(n, u) == 0
    ensures u == 0
  {
    hide Up;
    if n > 0 {
      PowerSmall(n - 1, u);
      UpIsZero(Power(n - 1, u));
      PowerIsZero(n - 1, u);
    }
  }

  lemma UpIsZero(a: bv16)
    requires a < 1024 && Up(a) == 0
    ensures a == 0
  {
  }

  /** Different powers of y take only zero to the same. */
  lemma SamePower(a: nat, b: nat, u: bv16)
    requires a < 1023 && b < 1023 && a != b && u < 1024 && Power(a, u) == Power(b, u)
    ensures u == 0
  {
    hide Power, Up, Add;
    var low, high := if a < b then a else b, if a < b then b else a;
    PowerAdd(low, high - low, u);
    var w := Power(high - low, u);
    PowerSmall(high - low, u);
    PowerSum(low, w, u);
    AddZero(Power(low, u));
    AddSmall(w, u);
    PowerIsZero(low, Add(w, u));
    AddIsZero(w, u);
    NoFixedPoint(high - low, u);
  }

  /** Three terms with different degrees cannot vanish at three consecutive powers unless all are zero. */
  lemma Independent(a: nat, b: nat, c: nat, x: bv16, y: bv16, z: bv16)
    requires a < 1023 && b < 1023 && c < 1023 && a != b && a != c && b != c && x < 1024 && y < 1024 && z < 1024
    requires Add(Add(x, y), z) == 0
    requires Add(Add(Power(a, x), Power(b, y)), Power(c, z)) == 0
    requires Add(Add(Power(a, Power(a, x)), Power(b, Power(b, y))), Power(c, Power(c, z))) == 0
    ensures x == 0 && y == 0 && z == 0
  {
    hide Power, Add;
    AddIsZero(Add(x, y), z);
    Solved(x, y, z);
    var d := Add(Power(a, y), Power(b, y));
    Eliminated(a, b, c, x, y, z);
    Repeated(a, b, c, x, y, z);
    PowerSmall(a, y);
    PowerSmall(b, y);
    AddSmall(Power(a, y), Power(b, y));
    SamePower(b, c, d);
    AddIsZero(Power(a, y), Power(b, y));
    SamePower(a, b, y);
    AddIsZero(Power(a, z), Power(c, z));
    SamePower(a, c, z);
    AddZero(0);
  }

  lemma Solved(x: bv16, y: bv16, z: bv16)
    requires Add(x, y) == z
    ensures x == Add(y, z)
  {
  }

  /** The second condition without its first unknown. */
  lemma Eliminated(a: nat, b: nat, c: nat, x: bv16, y: bv16, z: bv16)
    requires x == Add(y, z) && Add(Add(Power(a, x), Power(b, y)), Power(c, z)) == 0
    ensures Add(Power(a, y), Power(b, y)) == Add(Power(a, z), Power(c, z))
  {
    hide Power, Add;
    PowerSum(a, y, z);
    Regrouped(Power(a, y), Power(a, z), Power(b, y), Power(c, z));
  }

  lemma Regrouped(p: bv16, q: bv16, r: bv16, s: bv16)
    requires Add(Add(Add(p, q), r), s) == 0
    ensures Add(p, r) == Add(q, s)
  {
    hide Add;
    AddAssociates(Add(p, q), r, s);
    AddSwap(p, q, r, s);
    AddIsZero(Add(p, r), Add(q, s));
  }

  /** The third condition says that y^b and y^c agree on what the second leaves. */
  lemma Repeated(a: nat, b: nat, c: nat, x: bv16, y: bv16, z: bv16)
    requires x == Add(y, z) && Add(Power(a, y), Power(b, y)) == Add(Power(a, z), Power(c, z))
    requires Add(Add(Power(a, Power(a, x)), Power(b, Power(b, y))), Power(c, Power(c, z))) == 0
    ensures var d := Add(Power(a, y), Power(b, y)); Power(b, d) == Power(c, d)
  {
    hide Power, Add;
    var d := Add(Power(a, y), Power(b, y));
    PowerSum(a, y, z);
    PowerSum(a, Power(a, y), Power(a, z));
    Regrouped(Power(a, Power(a, y)), Power(a, Power(a, z)), Power(b, Power(b, y)), Power(c, Power(c, z)));
    Squared(a, b, y);
    Squared(a, c, z);
    CancelLeft(Power(a, d), Power(b, d), Power(c, d));
  }

  /** (y^a + y^b)^2 = y^2a + y^2b. */
  lemma Squared(a: nat, b: nat, u: bv16)
    ensures var d := Add(Power(a, u), Power(b, u));
            Add(Power(a, Power(a, u)), Power(b, Power(b, u))) == Add(Power(a, d), Power(b, d))
  {
    hide Power, Add;
    var p, q := Power(a, u), Power(b, u);
    PowerSum(a, p, q);
    PowerSum(b, p, q);
    PowerAdd(a, b, u);
    PowerAdd(b, a, u);
    assert a + b == b + a;
    Crossed(Power(a, p), Power(a, q), Power(b, q));
  }

  lemma Crossed(p: bv16, q: bv16, r: bv16)
    ensures Add(Add(p, q), Add(q, r)) == Add(p, r)
  {
  }

  lemma CancelLeft(p: bv16, q: bv16, r: bv16)
    requires Add(p, q) == Add(p, r)
    ensures q == r
  {
  }

  // ---------------------------------------------------------------- the distance

  /** A number below three that is neither. */
  function Other(p: nat, q: nat): (r: nat)
    ensures r < 3 && r != p && r != q
  {
    if p != 0 && q != 0 then 0 else if p != 1 && q != 1 then 1 else 2
  }

  /** An error list of at most 1023 symbols with at most three wrong ones never runs to zero. */
  lemma ThreeErrorsShow(e: seq<bv8>, p: nat, q: nat, r: nat)
    requires |e| <= 1023 && Symbols(e) && p < |e| && q < |e| && r < |e| && p != q && p != r && q != r
    requires ZeroBut(e, p, q, r) && Run(0, e) == 0
    ensures e[p] == 0 && e[q] == 0 && e[r] == 0
  {
    hide Run, Value, Power, Add, Embed, ZeroBut;
    var a, b, c := |e| - 1 - p, |e| - 1 - q, |e| - 1 - r;
    var x, y, z := Term(24, e, p), Term(24, e, q), Term(24, e, r);
    ThreeValues(e, p, q, r);
    Terms(e, p);
    Terms(e, q);
    Terms(e, r);
    Independent(a, b, c, x, y, z);
  }

  /** All three values of a list whose checksum is zero vanish. */
  lemma ThreeValues(e: seq<bv8>, p: nat, q: nat, r: nat)
    requires Symbols(e) && p != q && p != r && q != r && ZeroBut(e, p, q, r) && Run(0, e) == 0
    ensures Add(Add(Term(24, e, p), Term(24, e, q)), Term(24, e, r)) == 0
    ensures Add(Add(Term(25, e, p), Term(25, e, q)), Term(25, e, r)) == 0
    ensures Add(Add(Term(26, e, p), Term(26, e, q)), Term(26, e, r)) == 0
  {
    hide Run, Value, Term, Add, ZeroBut, Coefficients;
    NoCoefficients();
    ValueZeroes(24, 6);
    ValueZeroes(25, 6);
    ValueZeroes(26, 6);
    RunValue(24, e);
    RunValue(25, e);
    RunValue(26, e);
    ValueTerms(24, e, p, q, r);
    ValueTerms(25, e, p, q, r);
    ValueTerms(26, e, p, q, r);
  }

  lemma Terms(e: seq<bv8>, p: nat)
    requires p < |e| && Symbols(e)
    ensures var d, x := |e| - 1 - p, Term(24, e, p);
            && x < 1024 && (x == 0 ==> e[p] == 0)
            && Term(25, e, p) == Power(d, x) && Term(26, e, p) == Power(d, Power(d, x))
  {
    hide Power, Embed;
    var d, u := |e| - 1 - p, Embed(e[p]);
    EmbedSmall(e[p]);
    PowerSmall(24 * d, u);
    PowerAdd(d, 24 * d, u);
    PowerAdd(d, 25 * d, u);
    if Term(24, e, p) == 0 {
      PowerIsZero(24 * d, u);
      EmbedZero(e[p]);
    }
  }

  /** A valid list of at most 1023 symbols that is changed in one, two or three of them is not valid. */
  lemma ThreeErrorsDetected(v: seq<bv8>, w: seq<bv8>, p: nat, q: nat, r: nat)
    requires |v| == |w| <= 1023 && Symbols(v) && Symbols(w) && v != w && Run(1, v) == 1
    requires forall i :: 0 <= i < |v| && i != p && i != q && i != r ==> v[i] == w[i]
    ensures Run(1, w) != 1
  {
    hide Run, Xor, XorByte;
    if |v| <= 6 {
      WindowDetected(v, w, 0);
    } else {
      var p' := if p < |v| then p else 0;
      var q' := if q < |v| && q != p' then q else Other(p', p');
      var r' := if r < |v| && r != p' && r != q' then r else Other(p', q');
      var e := XorAll(v, w);
      forall i | 0 <= i < |v|
        ensures e[i] < 32 && (e[i] == 0 <==> v[i] == w[i])
      {
        SymbolXor(v[i], w[i]);
      }
      RunLinear(1, 1, v, w);
      NoDifference(1);
      if Run(1, w) == 1 {
        ThreeErrorsShow(e, p', q', r');
      }
    }
  }

  lemma NoDifference(c: bv32)
    ensures Xor(c, c) == 0
  {
  }

  /** The checksum of a prefix and data within 1023 symbols tells up to three wrong symbols. */
  lemma ThreeErrorsRejected(hrp: seq<bv8>, values: seq<bv8>, changed: seq<bv8>, p: nat, q: nat, r: nat)
    requires Verified(hrp, values) && Symbols(values) && Symbols(changed)
    requires |values| == |changed| && 2 * |hrp| + 1 + |values| <= 1023 && values != changed
    requires forall i :: 0 <= i < |values| && i != p && i != q && i != r ==> values[i] == changed[i]
    ensures !Verified(hrp, changed)
  {
    hide Run;
    var h := Expanded(hrp);
    ExpandedSymbols(hrp);
    assert (h + values)[|h|..] == values && (h + changed)[|h|..] == changed;
    ThreeErrorsDetected(h + values, h + changed, |h| + p, |h| + q, |h| + r);
  }
}
