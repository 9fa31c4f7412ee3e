/** Digit strings, most significant digit first, and changing their base. */
module Radix {
  import opened Arithmetic

  function Power(b: nat, n: nat): nat {
    if n == 0 then 1 else b * Power(b, n - 1)
  }

  ghost predicate Digits(s: seq<int>, b: nat) {
    forall i :: 0 <= i < |s| ==> 0 <= s[i] < b
  }

  function Value(s: seq<int>, b: nat): int {
    if s == [] then 0 else Value(s[..|s| - 1], b) * b + s[|s| - 1]
  }

  /** The digits of a number, without leading zeroes. */
  function Minimal(v: nat, b: nat): (r: seq<int>)
    requires b > 1
    decreases v
  {
    if v == 0 then [] else
      Shrinks(v, b);
      Minimal(v / b, b) + [v % b]
  }

  lemma Shrinks(v: nat, b: nat)
    requires v > 0 && b > 1
    ensures 0 <= v / b < v
  {
    DivBounds(v, b);
    Quotient(v, b);
    if v / b > 0 {
      MulMono(2, b, v / b);
    }
  }

  lemma LastDigit(v: nat, b: nat)
    requires b > 1
    ensures v == v / b * b + v % b && 0 <= v % b < b
  {
  }

  lemma {:induction false} MinimalValue(v: nat, b: nat)
    requires b > 1
    ensures Value(Minimal(v, b), b) == v && Digits(Minimal(v, b), b)
    ensures Minimal(v, b) != [] ==> Minimal(v, b)[0] != 0
    decreases v
  {
    if v > 0 {
      Shrinks(v, b);
      LastDigit(v, b);
      var front, d := Minimal(v / b, b), v % b;
      MinimalValue(v / b, b);
      assert Minimal(v, b) == front + [d];
      hide Value, Minimal;
      ValueAppend(front, d, b);
      MinimalFirst(front, d, v / b, b);
    }
  }

  lemma ValueAppend(s: seq<int>, d: int, b: nat)
    ensures Value(s + [d], b) == Value(s, b) * b + d
  {
  }

  lemma MinimalFirst(front: seq<int>, d: int, q: nat, b: nat)
    requires Value(front, b) == q && (front != [] ==> front[0] != 0) && (q == 0 ==> d != 0)
    ensures (front + [d])[0] != 0
  {
  }

  /** Digits without a leading zero are the digits of their value. */
  lemma {:induction false} MinimalUnique(s: seq<int>, b: nat)
    requires b > 1 && Digits(s, b) && (s != [] ==> s[0] != 0)
    ensures 0 <= Value(s, b) && (Value(s, b) == 0 <==> s == []) && Minimal(Value(s, b), b) == s
    decreases |s|
  {
    if s != [] {
      var front, d := s[..|s| - 1], s[|s| - 1];
      MinimalUnique(front, b);
      var v := Value(front, b);
      ModUnique(v * b + d, b, v, d);
      if v > 0 {
        MulMono(1, v, b);
      }
    }
  }

  lemma {:induction false} ValuePrepend(d: int, s: seq<int>, b: nat)
    ensures Value([d] + s, b) == d * Power(b, |s|) + Value(s, b)
    decreases |s|
  {
    if s == [] {
      assert ([d] + s)[..0] == [];
    } else {
      var last := |s| - 1;
      assert ([d] + s)[..|s|] == [d] + s[..last];
      ValuePrepend(d, s[..last], b);
      assert (d * Power(b, last) + Value(s[..last], b)) * b == d * (b * Power(b, last)) + Value(s[..last], b) * b;
    }
  }

  lemma {:induction false} ValueBound(s: seq<int>, b: nat)
    requires b > 0 && Digits(s, b)
    ensures 0 <= Value(s, b) < Power(b, |s|)
    decreases |s|
  {
    if s != [] {
      var v := Value(s[..|s| - 1], b);
      ValueBound(s[..|s| - 1], b);
      MulMono(v + 1, Power(b, |s| - 1), b);
      assert (v + 1) * b == v * b + b;
      assert Power(b, |s|) == Power(b, |s| - 1) * b;
      MulMono(0, v, b);
    }
  }

  function Zeroes(n: nat): (r: seq<int>)
    ensures |r| == n
  {
    seq(n, _ => 0)
  }

  lemma {:induction false} ValueZeroes(n: nat, s: seq<int>, b: nat)
    ensures Value(Zeroes(n) + s, b) == Value(s, b)
    decreases n
  {
    if n == 0 {
      assert Zeroes(0) + s == s;
    } else {
      assert Zeroes(n) + s == [0] + (Zeroes(n - 1) + s);
      ValuePrepend(0, Zeroes(n - 1) + s, b);
      ValueZeroes(n - 1, s, b);
    }
  }

  function LeadingZeroes(s: seq<int>): (k: nat)
    ensures k <= |s| && (forall i :: 0 <= i < k ==> s[i] == 0) && (k < |s| ==> s[k] != 0)
  {
    if s == [] || s[0] != 0 then 0 else 1 + LeadingZeroes(s[1..])
  }

  /** Leading zeroes stay, one for one; the rest is rewritten in the other base. */
  ghost function Converted(s: seq<int>, a: nat, b: nat): seq<int>
    requires a > 1 && b > 1 && Digits(s, a)
  {
    ValueBound(s, a);
    Zeroes(LeadingZeroes(s)) + Minimal(Value(s, a), b)
  }

  lemma ConvertedDigits(s: seq<int>, a: nat, b: nat)
    requires a > 1 && b > 1 && Digits(s, a)
    ensures Digits(Converted(s, a, b), b) && LeadingZeroes(Converted(s, a, b)) == LeadingZeroes(s)
    ensures Value(Converted(s, a, b), b) == Value(s, a)
  {
    ValueBound(s, a);
    MinimalValue(Value(s, a), b);
    var z, m := LeadingZeroes(s), Minimal(Value(s, a), b);
    ValueZeroes(z, m, b);
    var r := Zeroes(z) + m;
    var k := LeadingZeroes(r);
    assert forall i :: 0 <= i < z ==> r[i] == 0;
    assert m != [] ==> r[z] != 0;
  }

  /** Converting there and back gives the digits back. */
  lemma ConvertBack(s: seq<int>, a: nat, b: nat)
    requires a > 1 && b > 1 && Digits(s, a)
    ensures Digits(Converted(s, a, b), b) && Converted(Converted(s, a, b), b, a) == s
  {
    ConvertedDigits(s, a, b);
    var z := LeadingZeroes(s);
    assert s == Zeroes(z) + s[z..];
    ValueZeroes(z, s[z..], a);
    MinimalUnique(s[z..], a);
  }

  // ---------------------------------------------------------------- sizes

  lemma {:induction false} PowerPositive(b: nat, n: nat)
    requires b > 0
    ensures Power(b, n) > 0
  {
    if n > 0 {
      PowerPositive(b, n - 1);
      MulPositive(b, Power(b, n - 1));
    }
  }

  lemma {:induction false} PowerAdd(b: nat, m: nat, n: nat)
    ensures Power(b, m + n) == Power(b, m) * Power(b, n)
  {
    hide Power;
    if m == 0 {
      PowerZero(b);
    } else {
      PowerAdd(b, m - 1, n);
      PowerNext(b, m - 1);
      PowerNext(b, m - 1 + n);
      MulAssociates(b, Power(b, m - 1), Power(b, n));
    }
  }

  lemma PowerZero(b: nat)
    ensures Power(b, 0) == 1
  {
  }

  lemma PowerNext(b: nat, n: nat)
    ensures Power(b, n + 1) == b * Power(b, n)
  {
  }

  lemma {:induction false} PowerPower(b: nat, m: nat, n: nat)
    ensures Power(Power(b, m), n) == Power(b, m * n)
  {
    if n > 0 {
      PowerPower(b, m, n - 1);
      PowerAdd(b, m, m * (n - 1));
      assert m + m * (n - 1) == m * n;
    } else {
      assert m * 0 == 0;
    }
  }

  lemma {:induction false} PowerMono(b: nat, m: nat, n: nat)
    requires b > 0 && m <= n
    ensures Power(b, m) <= Power(b, n)
    decreases n - m
  {
    if m < n {
      PowerMono(b, m, n - 1);
      PowerPositive(b, n - 1);
      MulMono(1, b, Power(b, n - 1));
    }
  }

  lemma {:induction false} BaseMono(x: nat, y: nat, n: nat)
    requires x <= y
    ensures Power(x, n) <= Power(y, n)
  {
    if n > 0 {
      BaseMono(x, y, n - 1);
      MulMono(Power(x, n - 1), Power(y, n - 1), x);
      MulMono(x, y, Power(y, n - 1));
    }
  }

  lemma {:induction false} BaseStrict(x: nat, y: nat, n: nat)
    requires x < y && n > 0
    ensures Power(x, n) < Power(y, n)
  {
    BaseMono(x, y, n - 1);
    PowerPositive(y, n - 1);
    MulMono(Power(x, n - 1), Power(y, n - 1), x);
    MulMono(x + 1, y, Power(y, n - 1));
    assert (x + 1) * Power(y, n - 1) == x * Power(y, n - 1) + Power(y, n - 1);
  }

  lemma Commute(x: int, y: int)
    ensures x * y == y * x
  {
  }

  lemma PowerSwap(b: nat, m: nat, n: nat)
    ensures Power(Power(b, m), n) == Power(Power(b, n), m)
  {
    hide Power;
    PowerPower(b, m, n);
    PowerPower(b, n, m);
    Commute(m, n);
  }

  lemma RootMono(x: nat, y: nat, n: nat)
    requires n > 0 && Power(x, n) <= Power(y, n)
    ensures x <= y
  {
    hide Power;
    if y < x {
      BaseStrict(y, x, n);
    }
  }

  /** If a^p <= b^q then a^n fits in b^m as soon as q n <= p m. */
  lemma Fits(a: nat, b: nat, p: nat, q: nat, n: nat, m: nat)
    requires a > 0 && b > 0 && p > 0 && Power(a, p) <= Power(b, q) && q * n <= p * m
    ensures Power(a, n) <= Power(b, m)
  {
    hide Power;
    PowerSwap(a, n, p);
    BaseMono(Power(a, p), Power(b, q), n);
    PowerPower(b, q, n);
    PowerMono(b, q * n, p * m);
    PowerPower(b, p, m);
    PowerSwap(b, p, m);
    RootMono(Power(a, n), Power(b, m), p);
  }
}
