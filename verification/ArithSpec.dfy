/** Numbers as little-endian 32-bit limbs. */
module ArithSpec {
  import opened Arithmetic
  import opened Common

  const BASE: int := 0x1_0000_0000
  const WIDTH := 8

  /** The weight of a limb, 2^(32 i). */
  function Place(i: nat): (r: nat)
    ensures r > 0
  {
    if i == 0 then 1 else BASE * Place(i - 1)
  }

  /** The number the first `n` limbs stand for. */
  function ValTo(s: seq<Word>, n: nat): nat
    requires n <= |s|
  {
    if n == 0 then 0 else ValTo(s, n - 1) + s[n - 1] * Place(n - 1)
  }

  lemma ValNone(s: seq<Word>)
    ensures ValTo(s, 0) == 0
  {
  }

  function Val(s: seq<Word>): nat { ValTo(s, |s|) }

  lemma {:induction false} ValBound(s: seq<Word>, n: nat)
    requires n <= |s|
    ensures ValTo(s, n) < Place(n)
  {
    if n > 0 {
      ValBound(s, n - 1);
      MulMono(s[n - 1], BASE - 1, Place(n - 1));
      assert (BASE - 1) * Place(n - 1) == BASE * Place(n - 1) - Place(n - 1);
    }
  }

  lemma {:induction false} ValSame(s: seq<Word>, t: seq<Word>, n: nat)
    requires n <= |s| && n <= |t| && forall i :: 0 <= i < n ==> s[i] == t[i]
    ensures ValTo(s, n) == ValTo(t, n)
  {
    if n > 0 {
      ValSame(s, t, n - 1);
    }
  }

  /** Changing one limb changes the number by that limb's weight. */
  lemma {:induction false} ValUpdate(s: seq<Word>, i: nat, x: Word, n: nat)
    requires i < n <= |s|
    ensures ValTo(s[i := x], n) == ValTo(s, n) + (x - s[i]) * Place(i)
  {
    if i == n - 1 {
      ValSame(s, s[i := x], n - 1);
      assert (x - s[i]) * Place(i) == x * Place(i) - s[i] * Place(i);
    } else {
      ValUpdate(s, i, x, n - 1);
    }
  }

  lemma {:induction false} ValZeroes(s: seq<Word>, k: nat, n: nat)
    requires k <= n <= |s| && forall i :: k <= i < n ==> s[i] == 0
    ensures ValTo(s, n) == ValTo(s, k)
  {
    if k < n {
      ValZeroes(s, k, n - 1);
    }
  }

  lemma {:induction false} PlaceAdd(a: nat, b: nat)
    ensures Place(a + b) == Place(a) * Place(b)
  {
    if a > 0 {
      PlaceAdd(a - 1, b);
      assert a + b - 1 == a - 1 + b;
      assert BASE * (Place(a - 1) * Place(b)) == (BASE * Place(a - 1)) * Place(b);
    }
  }

  lemma {:induction false} PlaceIsPow2(i: nat)
    ensures Place(i) == Pow2(32 * i)
  {
    if i > 0 {
      PlaceIsPow2(i - 1);
      PowWords();
      PowAdd(32, 32 * (i - 1));
    }
  }

  // ---------------------------------------------------------------- carries

  /** One step of a loop with a carry: what is stored and what is carried on add up. */
  lemma CarryStep(n: nat, i: nat)
    ensures n % BASE * Place(i) + n / BASE * Place(i + 1) == n * Place(i)
  {
  }

  /** What overflows the last limb is dropped: reduction modulo 2^256. */
  lemma Reduced(v: nat, carry: nat, total: nat)
    requires v < Place(WIDTH) && v + carry * Place(WIDTH) == total
    ensures v == total % Place(WIDTH)
  {
    ModUnique(total, Place(WIDTH), carry, v);
  }

  // ---------------------------------------------------------------- bitwise or

  function BitOr(x: nat, y: nat): nat {
    if x == 0 && y == 0 then 0 else
    (if x % 2 == 1 || y % 2 == 1 then 1 else 0) + 2 * BitOr(x / 2, y / 2)
  }

  /** Numbers without a common bit: one fits below the other's lowest bits. */
  lemma {:induction false} OrIsSum(x: nat, y: nat, k: nat)
    requires x < Pow2(k) && y % Pow2(k) == 0
    ensures BitOr(x, y) == BitOr(y, x) == x + y
    decreases k
  {
    if k == 0 {
      OrZero(y);
    } else {
      var p := Pow2(k - 1);
      var q := y / (2 * p);
      assert y == q * (2 * p) + y % (2 * p);
      assert q * (2 * p) == 2 * (q * p);
      ModUnique(y / 2, p, q, 0);
      OrIsSum(x / 2, y / 2, k - 1);
    }
  }

  lemma {:induction false} OrZero(y: nat)
    ensures BitOr(0, y) == BitOr(y, 0) == y
  {
    if y > 0 {
      OrZero(y / 2);
    }
  }
}
