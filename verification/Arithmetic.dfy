/** Facts about powers of two, products and quotients that several components rely on. */
module Arithmetic {

  function Pow2(k: nat): (r: nat)
    ensures r > 0
  {
    if k == 0 then 1 else 2 * Pow2(k - 1)
  }

  lemma {:induction false} PowAdd(a: nat, b: nat)
    ensures Pow2(a + b) == Pow2(a) * Pow2(b)
  {
    hide Pow2;
    if a == 0 {
      PowZero();
    } else {
      PowAdd(a - 1, b);
      PowNext(a - 1);
      PowNext(a - 1 + b);
      MulAssociates(2, Pow2(a - 1), Pow2(b));
    }
  }

  lemma PowZero()
    ensures Pow2(0) == 1
  {
  }

  lemma PowNext(k: nat)
    ensures Pow2(k + 1) == 2 * Pow2(k)
  {
  }

  lemma MulAssociates(a: int, b: int, c: int)
    ensures a * b * c == a * (b * c)
  {
  }

  lemma {:induction false} PowGrows(a: nat, b: nat)
    requires a <= b
    ensures Pow2(a) <= Pow2(b)
    decreases b - a
  {
    if a < b {
      PowGrows(a + 1, b);
    }
  }

  lemma PowWords()
    ensures Pow2(8) == 0x100 && Pow2(16) == 0x1_0000 && Pow2(32) == 0x1_0000_0000
    ensures Pow2(64) == 0x1_0000_0000_0000_0000
  {
    assert Pow2(4) == 16;
    PowAdd(4, 4);
    PowAdd(8, 8);
    PowAdd(16, 16);
    PowAdd(32, 32);
  }

  lemma DivBounds(a: nat, p: nat)
    requires p > 0
    ensures a / p * p <= a < (a / p + 1) * p
  {
  }

  lemma MulMono(a: int, b: int, p: int)
    requires a <= b && p >= 0
    ensures a * p <= b * p
  {
  }

  /** Scaling a value below `m` to a range of `n`. */
  lemma ScaleBelow(h: nat, n: nat, m: nat)
    requires h < m && n > 0
    ensures 0 <= h * n / m < n
  {
    var q := h * n / m;
    DivBounds(h * n, m);
    MulMono(h + 1, m, n);
    MulLess(q, n, m);
  }

  lemma MulLess(a: int, b: int, p: int)
    requires a * p < b * p && p > 0
    ensures a < b
  {
  }

  lemma Quotient(w: nat, p: nat)
    requires p > 0
    ensures 0 <= w / p <= w
  {
    var q := w / p;
    assert w == q * p + w % p;
    if q < 0 {
      MulMono(q, -1, p);
    } else {
      MulMono(1, p, q);
    }
  }

  lemma MulPositive(a: nat, b: nat)
    requires a > 0 && b > 0
    ensures a * b > 0
  {
  }

  lemma ModUnique(a: int, m: nat, q: int, r: nat)
    requires m > 0 && r < m && a == q * m + r
    ensures a % m == r && a / m == q
  {
    var q', r' := a / m, a % m;
    assert a == q' * m + r';
    assert (q - q') * m == r' - r;
    if q > q' {
      MulMono(1, q - q', m);
    } else if q < q' {
      MulMono(q - q', -1, m);
    }
  }

  lemma ModAdd(a: int, b: int, k: int, m: nat)
    requires m > 0 && a == b + k * m
    ensures a % m == b % m
  {
    ModUnique(a, m, b / m + k, b % m);
  }

  lemma DivTwice(v: nat, p: nat, q: nat)
    requires p > 0 && q > 0
    ensures v / p / q == v / (p * q)
  {
    var a := v / p;
    var b := a / q;
    assert v == a * p + v % p && a == b * q + a % q;
    assert (b * q + a % q) * p == b * (p * q) + a % q * p;
    MulMono(a % q + 1, q, p);
    assert (a % q + 1) * p == a % q * p + p;
    ModUnique(v, p * q, b, a % q * p + v % p);
  }

  lemma DivAdd(v: nat, m: nat, d: nat)
    requires d > 0
    ensures (v + m * d) / d == v / d + m
  {
    assert v == v / d * d + v % d;
    assert (v / d + m) * d == v / d * d + m * d;
    ModUnique(v + m * d, d, v / d + m, v % d);
  }
}
