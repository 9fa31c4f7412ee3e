/** What PolyMod computes: a remainder of polynomials over GF(32), the field of five-bit numbers with
    exclusive-or as addition and multiplication modulo a^5 + a^3 + 1. Polynomials are lists of
    coefficients, the highest first (src/bech32.cpp). */
module Bech32Field {
  import opened Bech32

  // ---------------------------------------------------------------- the field

  /** Multiplication by a. */
  function Twice(b: bv8): bv8 { if b & 16 != 0 then ((b & 15) << 1) ^ 9 else b << 1 }

  function When(a: bv8, bit: bv8, b: bv8): bv8 { if a & bit != 0 then b else 0 }

  function Pick(a: bv8, b: bv8, b2: bv8, b4: bv8, b8: bv8, b16: bv8): bv8 {
    XorByte(XorByte(XorByte(XorByte(When(a, 1, b), When(a, 2, b2)), When(a, 4, b4)), When(a, 8, b8)), When(a, 16, b16))
  }

  /** The sum of b, 2b, 4b, 8b and 16b, as the bits of `a` choose. */
  function Times(a: bv8, b: bv8): bv8 {
    Pick(a, b, Twice(b), Twice(Twice(b)), Twice(Twice(Twice(b))), Twice(Twice(Twice(Twice(b)))))
  }

  lemma Bounded(a: bv8, b: bv8)
    requires a < 32 && b < 32
    ensures Times(a, b) < 32
  {
  }

  lemma Unit(a: bv8)
    requires a < 32
    ensures Times(a, 1) == a && Times(1, a) == a
  {
  }

  lemma Zero(a: bv8)
    ensures Times(0, a) == 0
  {
  }

  lemma NoDivisors(a: bv8, b: bv8)
    requires a < 32 && b < 32 && Times(a, b) == 0
    ensures a == 0 || b == 0
  {
  }

  lemma FieldExample()
    ensures Times(5, 26) == 9
  {
  }

  lemma WhenSum(a: bv8, c: bv8, bit: bv8, b: bv8)
    requires bit == 1 || bit == 2 || bit == 4 || bit == 8 || bit == 16
    ensures When(XorByte(a, c), bit, b) == XorByte(When(a, bit, b), When(c, bit, b))
  {
  }

  lemma Regroup(p: bv8, q: bv8, r: bv8, s: bv8, t: bv8, v: bv8, w: bv8, x: bv8, y: bv8, z: bv8)
    ensures XorByte(XorByte(XorByte(XorByte(XorByte(p, v), XorByte(q, w)), XorByte(r, x)), XorByte(s, y)),
                    XorByte(t, z)) ==
            XorByte(XorByte(XorByte(XorByte(XorByte(p, q), r), s), t),
                    XorByte(XorByte(XorByte(XorByte(v, w), x), y), z))
  {
    hide XorByte;
    var pq, vw := XorByte(p, q), XorByte(v, w);
    var pqr, vwx := XorByte(pq, r), XorByte(vw, x);
    SwapBytes(p, v, q, w);
    SwapBytes(pq, vw, r, x);
    SwapBytes(pqr, vwx, s, y);
    SwapBytes(XorByte(pqr, s), XorByte(vwx, y), t, z);
  }

  lemma SwapBytes(a: bv8, b: bv8, c: bv8, d: bv8)
    ensures XorByte(XorByte(a, b), XorByte(c, d)) == XorByte(XorByte(a, c), XorByte(b, d))
  {
    hide XorByte;
    AssociateBytes(a, b, XorByte(c, d));
    AssociateBytes(b, c, d);
    CommuteBytes(b, c);
    AssociateBytes(c, b, d);
    AssociateBytes(a, c, XorByte(b, d));
  }

  lemma AssociateBytes(a: bv8, b: bv8, c: bv8)
    ensures XorByte(XorByte(a, b), c) == XorByte(a, XorByte(b, c))
  {
  }

  lemma CommuteBytes(a: bv8, b: bv8)
    ensures XorByte(a, b) == XorByte(b, a)
  {
  }

  lemma PickSum(a: bv8, c: bv8, b: bv8, b2: bv8, b4: bv8, b8: bv8, b16: bv8)
    ensures Pick(XorByte(a, c), b, b2, b4, b8, b16) == XorByte(Pick(a, b, b2, b4, b8, b16), Pick(c, b, b2, b4, b8, b16))
  {
    hide When, XorByte;
    WhenSum(a, c, 1, b);
    WhenSum(a, c, 2, b2);
    WhenSum(a, c, 4, b4);
    WhenSum(a, c, 8, b8);
    WhenSum(a, c, 16, b16);
    Regroup(When(a, 1, b), When(a, 2, b2), When(a, 4, b4), When(a, 8, b8), When(a, 16, b16),
            When(c, 1, b), When(c, 2, b2), When(c, 4, b4), When(c, 8, b8), When(c, 16, b16));
  }

  lemma Distributes(a: bv8, c: bv8, b: bv8)
    ensures Times(XorByte(a, c), b) == XorByte(Times(a, b), Times(c, b))
  {
    hide Pick, Twice, XorByte;
    PickSum(a, c, b, Twice(b), Twice(Twice(b)), Twice(Twice(Twice(b))), Twice(Twice(Twice(Twice(b)))));
  }

  // ---------------------------------------------------------------- polynomials

  /** k(x) = {29}x^5 + {22}x^4 + {20}x^3 + {21}x^2 + {29}x + {18} */
  const K: seq<bv8> := [29, 22, 20, 21, 29, 18]

  /** The generator is x^6 + k(x). */
  const GENERATOR: seq<bv8> := [1] + K

  function Scale(a: bv8, p: seq<bv8>): (r: seq<bv8>)
    ensures |r| == |p|
  {
    seq(|p|, i requires 0 <= i < |p| => Times(a, p[i]))
  }

  /** The product of `q` and the generator: each further coefficient of `q` moves the product up by one
      degree and adds a multiple of the generator. */
  ghost function Product(q: seq<bv8>): (r: seq<bv8>)
    ensures |r| == |q| + 6
  {
    if q == [] then Zeroes(6) else
      var n := |q| - 1;
      XorAll(Product(q[..n]) + [0], Zeroes(n) + Scale(q[n], GENERATOR))
  }

  /** `f` is the generator times `q`, plus `r` of lower degree. */
  ghost predicate Divides(f: seq<bv8>, q: seq<bv8>, r: seq<bv8>) {
    && |r| == 6 && |q| == |f| && Symbols(q) && Symbols(r)
    && Zeroes(6) + f == XorAll(Product(q), Zeroes(|q|) + r)
  }

  ghost predicate IsRemainder(f: seq<bv8>, r: seq<bv8>) {
    exists q :: Divides(f, q, r)
  }

  // ---------------------------------------------------------------- one step

  /** The coefficient of x^(5 - i) in a checksum that packs six of them. */
  function Coefficient(c: bv32, i: nat): bv8
    requires i < 6
  {
    if i == 0 then Fifth(c) else if i == 1 then Fourth(c) else if i == 2 then Third(c) else if i == 3 then Second(c)
    else if i == 4 then First(c) else Last(c)
  }

  function Fifth(c: bv32): bv8 { ((c >> 25) & 31) as bv8 }

  function Fourth(c: bv32): bv8 { ((c >> 20) & 31) as bv8 }

  function Third(c: bv32): bv8 { ((c >> 15) & 31) as bv8 }

  function Second(c: bv32): bv8 { ((c >> 10) & 31) as bv8 }

  function First(c: bv32): bv8 { ((c >> 5) & 31) as bv8 }

  function Last(c: bv32): bv8 { (c & 31) as bv8 }

  function Coefficients(c: bv32): (r: seq<bv8>)
    ensures |r| == 6
  {
    seq(6, i requires 0 <= i < 6 => Coefficient(c, i))
  }

  /** A constant with the multiple of k(x) it stands for. */
  ghost predicate IsMultiple(a: bv8, k: bv32) {
    forall i :: 0 <= i < 6 ==> Coefficient(k, i) == Times(a, K[i])
  }

  lemma MultipleFrom(a: bv8, k: bv32)
    requires Coefficient(k, 0) == Times(a, 29) && Coefficient(k, 1) == Times(a, 22) && Coefficient(k, 2) == Times(a, 20)
    requires Coefficient(k, 3) == Times(a, 21) && Coefficient(k, 4) == Times(a, 29) && Coefficient(k, 5) == Times(a, 18)
    ensures IsMultiple(a, k)
  {
    hide Coefficient, Times;
  }

  lemma Lowest()
    ensures IsMultiple(1, 0x3b6a57b2) && IsMultiple(2, 0x26508e6d)
  {
    hide IsMultiple;
    MultipleFrom(1, 0x3b6a57b2);
    MultipleFrom(2, 0x26508e6d);
  }

  lemma Highest()
    ensures IsMultiple(4, 0x1ea119fa) && IsMultiple(8, 0x3d4233dd) && IsMultiple(16, 0x2a1462b3)
  {
    hide IsMultiple;
    MultipleFrom(4, 0x1ea119fa);
    MultipleFrom(8, 0x3d4233dd);
    MultipleFrom(16, 0x2a1462b3);
  }

  /** The five constants are {1}, {2}, {4}, {8} and {16} times k(x). */
  lemma ConstantsAreMultiples()
    ensures IsMultiple(1, 0x3b6a57b2) && IsMultiple(2, 0x26508e6d) && IsMultiple(4, 0x1ea119fa)
    ensures IsMultiple(8, 0x3d4233dd) && IsMultiple(16, 0x2a1462b3)
  {
    hide IsMultiple;
    Lowest();
    Highest();
  }

  lemma PowersTimes(b: bv8)
    requires b < 32
    ensures Times(1, b) == b && Times(2, b) == Twice(b) && Times(4, b) == Twice(Twice(b))
    ensures Times(8, b) == Twice(Twice(Twice(b))) && Times(16, b) == Twice(Twice(Twice(Twice(b))))
  {
    hide Twice, Pick;
    PickLow(b, Twice(b), Twice(Twice(b)), Twice(Twice(Twice(b))), Twice(Twice(Twice(Twice(b)))));
    PickHigh(b, Twice(b), Twice(Twice(b)), Twice(Twice(Twice(b))), Twice(Twice(Twice(Twice(b)))));
  }

  lemma PickLow(b: bv8, b2: bv8, b4: bv8, b8: bv8, b16: bv8)
    ensures Pick(1, b, b2, b4, b8, b16) == b && Pick(2, b, b2, b4, b8, b16) == b2
  {
  }

  lemma PickHigh(b: bv8, b2: bv8, b4: bv8, b8: bv8, b16: bv8)
    ensures Pick(4, b, b2, b4, b8, b16) == b4 && Pick(8, b, b2, b4, b8, b16) == b8
    ensures Pick(16, b, b2, b4, b8, b16) == b16
  {
  }

  lemma TimesByBits(a: bv8, b: bv8)
    requires b < 32
    ensures Times(a, b) == Pick(a, Times(1, b), Times(2, b), Times(4, b), Times(8, b), Times(16, b))
  {
    hide Twice, Pick;
    PowersTimes(b);
  }

  lemma CoefficientSum(a: bv32, b: bv32, i: nat)
    requires i < 6
    ensures Coefficient(Xor(a, b), i) == XorByte(Coefficient(a, i), Coefficient(b, i))
  {
    hide Fifth, Fourth, Third, Second, First, Last, Xor, XorByte;
    FifthSum(a, b);
    FourthSum(a, b);
    ThirdSum(a, b);
    LowerSum(a, b);
  }

  lemma FifthSum(a: bv32, b: bv32)
    ensures Fifth(Xor(a, b)) == XorByte(Fifth(a), Fifth(b))
  {
  }

  lemma FourthSum(a: bv32, b: bv32)
    ensures Fourth(Xor(a, b)) == XorByte(Fourth(a), Fourth(b))
  {
  }

  lemma ThirdSum(a: bv32, b: bv32)
    ensures Third(Xor(a, b)) == XorByte(Third(a), Third(b))
  {
  }

  lemma LowerSum(a: bv32, b: bv32)
    ensures Second(Xor(a, b)) == XorByte(Second(a), Second(b)) && First(Xor(a, b)) == XorByte(First(a), First(b))
    ensures Last(Xor(a, b)) == XorByte(Last(a), Last(b))
  {
  }

  lemma CoefficientShifted(c: bv32, v: bv8, i: nat)
    requires c < 0x4000_0000 && v < 32 && i < 6
    ensures Coefficient(Shifted(c, v), i) == if i < 5 then Coefficient(c, i + 1) else v
  {
    hide Fifth, Fourth, Third, Second, First, Last, Shifted;
    UpperShifted(c, v);
    LowerShifted(c, v);
  }

  lemma UpperShifted(c: bv32, v: bv8)
    requires v < 32
    ensures Fifth(Shifted(c, v)) == Fourth(c) && Fourth(Shifted(c, v)) == Third(c) && Third(Shifted(c, v)) == Second(c)
  {
  }

  lemma LowerShifted(c: bv32, v: bv8)
    requires v < 32
    ensures Second(Shifted(c, v)) == First(c) && First(Shifted(c, v)) == Last(c) && Last(Shifted(c, v)) == v
  {
  }

  lemma CoefficientChosen(c: bv32, bit: bv32, bit8: bv8, k: bv32, i: nat)
    requires c < 0x4000_0000 && i < 6
    requires (bit == 1 && bit8 == 1) || (bit == 2 && bit8 == 2) || (bit == 4 && bit8 == 4) || (bit == 8 && bit8 == 8) ||
             (bit == 16 && bit8 == 16)
    ensures Coefficient(Chosen(Top(c), bit, k), i) == When(Coefficient(c, 0), bit8, Coefficient(k, i))
  {
    SameBit(c, bit, bit8);
    hide HasBit;
  }

  lemma SameBit(c: bv32, bit: bv32, bit8: bv8)
    requires c < 0x4000_0000
    requires (bit == 1 && bit8 == 1) || (bit == 2 && bit8 == 2) || (bit == 4 && bit8 == 4) || (bit == 8 && bit8 == 8) ||
             (bit == 16 && bit8 == 16)
    ensures HasBit(Top(c), bit) <==> Coefficient(c, 0) & bit8 != 0
  {
  }

  lemma Chain(s: bv8, p: bv8, q: bv8, r: bv8, t: bv8, v: bv8)
    ensures XorByte(XorByte(XorByte(XorByte(XorByte(s, p), q), r), t), v) ==
            XorByte(s, XorByte(XorByte(XorByte(XorByte(p, q), r), t), v))
  {
  }

  /** One step multiplies by x, adds the symbol and replaces x^6 by k(x). */
  lemma StepCoefficient(c: bv32, v: bv8, i: nat)
    requires c < 0x4000_0000 && v < 32 && i < 6
    ensures Coefficient(Step(c, v), i) ==
            XorByte(if i < 5 then Coefficient(c, i + 1) else v, Times(Coefficient(c, 0), K[i]))
  {
    hide Xor, XorByte, Shifted, Chosen, Top, Coefficient, When, Times;
    var c0, s := Top(c), Shifted(c, v);
    var p, q, r := Chosen(c0, 1, 0x3b6a57b2), Chosen(c0, 2, 0x26508e6d), Chosen(c0, 4, 0x1ea119fa);
    var t, u := Chosen(c0, 8, 0x3d4233dd), Chosen(c0, 16, 0x2a1462b3);
    CoefficientSum(s, p, i);
    CoefficientSum(Xor(s, p), q, i);
    CoefficientSum(Xor(Xor(s, p), q), r, i);
    CoefficientSum(Xor(Xor(Xor(s, p), q), r), t, i);
    CoefficientSum(Xor(Xor(Xor(Xor(s, p), q), r), t), u, i);
    CoefficientShifted(c, v, i);
    CoefficientChosen(c, 1, 1, 0x3b6a57b2, i);
    CoefficientChosen(c, 2, 2, 0x26508e6d, i);
    CoefficientChosen(c, 4, 4, 0x1ea119fa, i);
    CoefficientChosen(c, 8, 8, 0x3d4233dd, i);
    CoefficientChosen(c, 16, 16, 0x2a1462b3, i);
    ConstantsAreMultiples();
    TimesByBits(Coefficient(c, 0), K[i]);
    Chain(Coefficient(s, i), Coefficient(p, i), Coefficient(q, i), Coefficient(r, i), Coefficient(t, i),
          Coefficient(u, i));
  }

  // ---------------------------------------------------------------- the whole run

  lemma CoefficientSymbols(c: bv32)
    ensures Symbols(Coefficients(c))
  {
    hide Coefficient;
    forall i | 0 <= i < 6
      ensures Coefficient(c, i) < 32
    {
      CoefficientBound(c, i);
    }
  }

  lemma XorByteLaws(a: bv8, b: bv8)
    ensures XorByte(a, 0) == a && XorByte(0, a) == a && XorByte(a, a) == 0 && XorByte(XorByte(a, b), b) == a
  {
  }

  /** Appending a coefficient to the quotient and a symbol to the dividend. */
  lemma DividesNext(f: seq<bv8>, q: seq<bv8>, c: bv32, v: bv8)
    requires c < 0x4000_0000 && v < 32 && Divides(f, q, Coefficients(c))
    ensures Divides(f + [v], q + [Coefficient(c, 0)], Coefficients(Step(c, v)))
  {
    var q', r', n := q + [Coefficient(c, 0)], Coefficients(Step(c, v)), |q|;
    CoefficientSymbols(c);
    CoefficientSymbols(Step(c, v));
    assert q'[..n] == q;
    var left, right := Zeroes(6) + (f + [v]), XorAll(Product(q'), Zeroes(n + 1) + r');
    forall j | 0 <= j < n + 7
      ensures left[j] == right[j]
    {
      NextAt(f, q, c, v, j);
    }
    assert left == right;
  }

  lemma NextAt(f: seq<bv8>, q: seq<bv8>, c: bv32, v: bv8, j: nat)
    requires c < 0x4000_0000 && v < 32 && Divides(f, q, Coefficients(c)) && j < |q| + 7
    ensures (Zeroes(6) + (f + [v]))[j] ==
            XorByte(Product(q + [Coefficient(c, 0)])[j], (Zeroes(|q| + 1) + Coefficients(Step(c, v)))[j])
  {
    hide Step, XorByte, Times, Coefficient, Product, Divides;
    ProductNext(q, Coefficient(c, 0), j);
    var n := |q|;
    SameLength(f, q, Coefficients(c));
    if j < n + 6 {
      DividesAt(f, q, c, j);
      assert (Zeroes(6) + (f + [v]))[j] == (Zeroes(6) + f)[j];
    }
    NextByte(if j < n + 6 then Product(q)[j] else 0, c, v, n, j);
  }

  lemma SameLength(f: seq<bv8>, q: seq<bv8>, r: seq<bv8>)
    requires Divides(f, q, r)
    ensures |q| == |f|
  {
  }

  lemma DividesAt(f: seq<bv8>, q: seq<bv8>, c: bv32, j: nat)
    requires Divides(f, q, Coefficients(c)) && j < |q| + 6
    ensures |q| == |f| && (Zeroes(6) + f)[j] == XorByte(Product(q)[j], if j < |q| then 0 else Coefficient(c, j - |q|))
  {
    hide XorByte, Product, Symbols, Coefficient;
    assert (Zeroes(6) + f)[j] == XorByte(Product(q)[j], (Zeroes(|q|) + Coefficients(c))[j]);
  }

  /** The new coefficient at place `j`, from the old one below it. */
  lemma NextByte(below: bv8, c: bv32, v: bv8, n: nat, j: nat)
    requires c < 0x4000_0000 && v < 32 && j < n + 7 && (j == n + 6 ==> below == 0)
    ensures XorByte(XorByte(below, if j < n then 0 else Times(Coefficient(c, 0), GENERATOR[j - n])),
                    if j <= n then 0 else Coefficient(Step(c, v), j - n - 1)) ==
            if j == n + 6 then v else XorByte(below, if j < n then 0 else Coefficient(c, j - n))
  {
    hide Step, XorByte, Times, Coefficient;
    if j < n {
      XorByteLaws(below, 0);
    } else if j == n {
      CoefficientBound(c, 0);
      Unit(Coefficient(c, 0));
      XorByteLaws(XorByte(below, Coefficient(c, 0)), 0);
    } else {
      NextTail(below, c, v, j - n - 1);
    }
  }

  lemma NextTail(below: bv8, c: bv32, v: bv8, i: nat)
    requires c < 0x4000_0000 && v < 32 && i < 6
    ensures XorByte(XorByte(below, Times(Coefficient(c, 0), K[i])), Coefficient(Step(c, v), i)) ==
            XorByte(below, if i < 5 then Coefficient(c, i + 1) else v)
    ensures XorByte(0, v) == v
  {
    hide Step, XorByte, Times, Coefficient;
    StepCoefficient(c, v, i);
    Cancel(below, Times(Coefficient(c, 0), K[i]), if i < 5 then Coefficient(c, i + 1) else v);
    XorByteLaws(v, 0);
  }

  lemma ProductNext(q: seq<bv8>, a: bv8, j: nat)
    requires j < |q| + 7
    ensures Product(q + [a])[j] == XorByte(if j < |q| + 6 then Product(q)[j] else 0,
                                           if j < |q| then 0 else Times(a, GENERATOR[j - |q|]))
  {
    hide XorByte, Times;
    assert (q + [a])[..|q|] == q;
  }

  lemma CoefficientBound(c: bv32, i: nat)
    requires i < 6
    ensures Coefficient(c, i) < 32
  {
  }

  lemma Cancel(b: bv8, t: bv8, s: bv8)
    ensures XorByte(XorByte(b, t), XorByte(s, t)) == XorByte(b, s)
  {
  }

  ghost function Quotient(v: seq<bv8>): (q: seq<bv8>)
    ensures |q| == |v| + 1
  {
    if v == [] then [0] else Quotient(v[..|v| - 1]) + [Coefficient(Run(1, v[..|v| - 1]), 0)]
  }

  lemma {:induction false} RunDivides(v: seq<bv8>)
    requires Symbols(v)
    ensures Divides([1] + v, Quotient(v), Coefficients(Run(1, v)))
    decreases |v|
  {
    hide Step, Divides, Coefficient;
    if v == [] {
      OneDivides();
      assert [1] + v == [1];
    } else {
      var last := |v| - 1;
      RunDivides(v[..last]);
      RunBound(1, v[..last]);
      DividesNext([1] + v[..last], Quotient(v[..last]), Run(1, v[..last]), v[last]);
      assert [1] + v[..last] + [v[last]] == [1] + v;
    }
  }

  lemma OneDivides()
    ensures Divides([1], [0], Coefficients(1))
  {
    hide Coefficient, Times, XorByte;
    OneIsOne();
    CoefficientSymbols(1);
    assert [0 as bv8][..0] == [];
    assert forall i :: 0 <= i < 7 ==> Scale(0, GENERATOR)[i] == 0 by {
      forall i | 0 <= i < 7
        ensures Scale(0, GENERATOR)[i] == 0
      {
        Zero(GENERATOR[i]);
      }
    }
    XorByteLaws(0, 0);
    XorByteLaws(1, 0);
    assert Product([]) == Zeroes(6);
    assert forall j :: 0 <= j < 7 ==> Product([0])[j] == 0;
    assert Zeroes(6) + [1] == XorAll(Product([0]), Zeroes(1) + Coefficients(1));
  }

  lemma OneIsOne()
    ensures Coefficient(1, 0) == Coefficient(1, 1) == Coefficient(1, 2) == 0
    ensures Coefficient(1, 3) == Coefficient(1, 4) == 0 && Coefficient(1, 5) == 1
  {
  }

  /** PolyMod of a list is the remainder of x^n plus the polynomial of the list, modulo the generator. */
  lemma RunIsRemainder(v: seq<bv8>)
    requires Symbols(v)
    ensures IsRemainder([1] + v, Coefficients(Run(1, v)))
  {
    RunDivides(v);
  }

  // ---------------------------------------------------------------- remainders are unique

  lemma {:induction false} ProductSum(p: seq<bv8>, q: seq<bv8>)
    requires |p| == |q|
    ensures Product(XorAll(p, q)) == XorAll(Product(p), Product(q))
    decreases |p|
  {
    hide XorByte, Times, Product;
    if p == [] {
      NoProduct();
    } else {
      var n := |p| - 1;
      ProductSum(p[..n], q[..n]);
      assert p == p[..n] + [p[n]] && q == q[..n] + [q[n]];
      assert XorAll(p, q) == XorAll(p[..n], q[..n]) + [XorByte(p[n], q[n])];
      forall j | 0 <= j < |p| + 6
        ensures Product(XorAll(p, q))[j] == XorByte(Product(p)[j], Product(q)[j])
      {
        ProductSumAt(p[..n], p[n], q[..n], q[n], j);
      }
    }
  }

  lemma NoProduct()
    ensures Product([]) == Zeroes(6) && XorAll([], []) == [] && XorAll(Zeroes(6), Zeroes(6)) == Zeroes(6)
  {
    hide XorByte;
    XorByteLaws(0, 0);
  }

  lemma ProductSumAt(p: seq<bv8>, a: bv8, q: seq<bv8>, b: bv8, j: nat)
    requires |p| == |q| && j < |p| + 7 && Product(XorAll(p, q)) == XorAll(Product(p), Product(q))
    ensures Product(XorAll(p, q) + [XorByte(a, b)])[j] == XorByte(Product(p + [a])[j], Product(q + [b])[j])
  {
    hide XorByte, Times, Product;
    ProductNext(XorAll(p, q), XorByte(a, b), j);
    ProductNext(p, a, j);
    ProductNext(q, b, j);
    XorByteLaws(0, 0);
    var n := |p|;
    var s, t := if j < n + 6 then Product(p)[j] else 0, if j < n + 6 then Product(q)[j] else 0;
    var u, w := if j < n then 0 else Times(a, GENERATOR[j - n]), if j < n then 0 else Times(b, GENERATOR[j - n]);
    if j >= n {
      Distributes(a, b, GENERATOR[j - n]);
    }
    SwapBytes(s, u, t, w);
  }

  /** The generator is monic: a multiple of it has low degree only if it is zero. */
  lemma {:induction false} OnlyZero(q: seq<bv8>, r: seq<bv8>)
    requires Symbols(q) && |r| == 6 && XorAll(Product(q), Zeroes(|q|) + r) == Zeroes(|q| + 6)
    ensures r == Zeroes(6) && Product(q) == Zeroes(|q| + 6)
    decreases |q|
  {
    hide XorByte, Times, Product;
    forall j | 0 <= j < |q| + 6
      ensures Product(q)[j] == (Zeroes(|q|) + r)[j]
    {
      assert XorAll(Product(q), Zeroes(|q|) + r)[j] == 0;
      SameByte(Product(q)[j], (Zeroes(|q|) + r)[j]);
    }
    if q == [] {
      NoProduct();
    } else {
      var n := |q| - 1;
      var p, a := q[..n], q[n];
      assert q == p + [a];
      LowProduct(p, a);
      var s := Product(p)[n..];
      assert forall j :: 0 <= j < n + 6 ==> XorAll(Product(p), Zeroes(n) + s)[j] == 0 by {
        forall j | 0 <= j < n + 6
          ensures XorAll(Product(p), Zeroes(n) + s)[j] == 0
        {
          XorByteLaws(Product(p)[j], 0);
        }
      }
      assert XorAll(Product(p), Zeroes(n) + s) == Zeroes(n + 6);
      OnlyZero(p, s);
      ZeroTail(p, a);
    }
    assert forall i :: 0 <= i < 6 ==> r[i] == (Zeroes(|q|) + r)[|q| + i];
  }

  lemma SameByte(a: bv8, b: bv8)
    requires XorByte(a, b) == 0
    ensures a == b
  {
  }

  lemma LowProduct(p: seq<bv8>, a: bv8)
    requires forall j :: 0 <= j < |p| ==> Product(p + [a])[j] == 0
    ensures forall j :: 0 <= j < |p| ==> Product(p)[j] == 0
  {
    hide XorByte, Times, Product;
    forall j | 0 <= j < |p|
      ensures Product(p)[j] == 0
    {
      ProductNext(p, a, j);
      XorByteLaws(Product(p)[j], 0);
    }
  }

  lemma ZeroTail(p: seq<bv8>, a: bv8)
    requires a < 32 && Product(p) == Zeroes(|p| + 6) && Product(p + [a])[|p|] == 0
    ensures Product(p + [a]) == Zeroes(|p| + 7)
  {
    hide XorByte, Times, Product;
    LeadIsZero(p, a);
    forall j | 0 <= j < |p| + 7
      ensures Product(p + [0])[j] == 0
    {
      ZeroNext(p, j);
    }
  }

  lemma LeadIsZero(p: seq<bv8>, a: bv8)
    requires a < 32 && Product(p) == Zeroes(|p| + 6) && Product(p + [a])[|p|] == 0
    ensures a == 0
  {
    hide XorByte, Times, Product;
    ProductNext(p, a, |p|);
    Unit(a);
    XorByteLaws(a, 0);
  }

  lemma ZeroNext(p: seq<bv8>, j: nat)
    requires Product(p) == Zeroes(|p| + 6) && j < |p| + 7
    ensures Product(p + [0])[j] == 0
  {
    hide XorByte, Times, Product;
    ProductNext(p, 0, j);
    if j >= |p| {
      Zero(GENERATOR[j - |p|]);
    }
    XorByteLaws(0, 0);
  }

  lemma XorSymbols(p: seq<bv8>, q: seq<bv8>)
    requires |p| == |q| && Symbols(p) && Symbols(q)
    ensures Symbols(XorAll(p, q))
  {
    forall i | 0 <= i < |p|
      ensures XorAll(p, q)[i] < 32
    {
      SmallXor(p[i], q[i]);
    }
  }

  lemma SmallXor(a: bv8, b: bv8)
    requires a < 32 && b < 32
    ensures XorByte(a, b) < 32
  {
  }

  lemma RemainderIsUnique(f: seq<bv8>, r: seq<bv8>, s: seq<bv8>)
    requires IsRemainder(f, r) && IsRemainder(f, s)
    ensures r == s
  {
    hide XorByte, Product;
    var p :| Divides(f, p, r);
    var q :| Divides(f, q, s);
    var n, d, e := |f|, XorAll(p, q), XorAll(r, s);
    XorSymbols(p, q);
    ProductSum(p, q);
    forall j | 0 <= j < n + 6
      ensures XorAll(Product(d), Zeroes(n) + e)[j] == 0
    {
      XorByteLaws(0, 0);
      assert (Zeroes(n) + e)[j] == XorByte((Zeroes(n) + r)[j], (Zeroes(n) + s)[j]);
      SwapBytes(Product(p)[j], Product(q)[j], (Zeroes(n) + r)[j], (Zeroes(n) + s)[j]);
      assert (Zeroes(6) + f)[j] == XorAll(Product(p), Zeroes(n) + r)[j];
      assert (Zeroes(6) + f)[j] == XorAll(Product(q), Zeroes(n) + s)[j];
      XorByteLaws((Zeroes(6) + f)[j], 0);
    }
    assert XorAll(Product(d), Zeroes(n) + e) == Zeroes(n + 6);
    OnlyZero(d, e);
    forall i | 0 <= i < 6
      ensures r[i] == s[i]
    {
      assert e[i] == 0;
      SameByte(r[i], s[i]);
    }
  }

  /** A checksum verifies if and only if prefix, data and checksum together leave the remainder 1. */
  lemma VerifiedIsRemainder(hrp: seq<bv8>, values: seq<bv8>)
    requires Symbols(values)
    ensures Verified(hrp, values) <==> IsRemainder([1] + (Expanded(hrp) + values), [0, 0, 0, 0, 0, 1])
  {
    hide Run, Coefficient, IsRemainder, Expanded;
    var v := Expanded(hrp) + values;
    ExpandedSymbols(hrp);
    RunIsRemainder(v);
    RunBound(1, v);
    OneIsOne();
    assert Coefficients(1) == [0, 0, 0, 0, 0, 1];
    if IsRemainder([1] + v, [0, 0, 0, 0, 0, 1]) {
      RemainderIsUnique([1] + v, Coefficients(Run(1, v)), [0, 0, 0, 0, 0, 1]);
      forall i | 0 <= i < 6
        ensures Coefficient(Run(1, v), i) == Coefficient(1, i)
      {
        assert Coefficients(Run(1, v))[i] == Coefficients(1)[i];
      }
      OnePacked(Run(1, v));
    }
  }

  lemma OnePacked(c: bv32)
    requires c < 0x4000_0000 && forall i :: 0 <= i < 6 ==> Coefficient(c, i) == Coefficient(1, i)
    ensures c == 1
  {
    hide Fifth, Fourth, Third, Second, First, Last;
    assert Coefficient(c, 0) == Coefficient(1, 0) && Coefficient(c, 1) == Coefficient(1, 1);
    assert Coefficient(c, 2) == Coefficient(1, 2) && Coefficient(c, 3) == Coefficient(1, 3);
    assert Coefficient(c, 4) == Coefficient(1, 4) && Coefficient(c, 5) == Coefficient(1, 5);
    PackedApart(c);
  }

  lemma PackedApart(c: bv32)
    requires c < 0x4000_0000 && Fifth(c) == Fifth(1) && Fourth(c) == Fourth(1) && Third(c) == Third(1)
    requires Second(c) == Second(1) && First(c) == First(1) && Last(c) == Last(1)
    ensures c == 1
  {
  }

  // ---------------------------------------------------------------- instances

  /** The alphabet qpzry9x8gf2tvdw0s3jn54khce6mua7l, in the order of its values. */
  lemma AlphabetInOrder()
    ensures Syms([0, 1, 2, 3, 4, 5, 6, 7, 8, 9, 10, 11, 12, 13, 14, 15]) ==
            [0x71, 0x70, 0x7A, 0x72, 0x79, 0x39, 0x78, 0x38, 0x67, 0x66, 0x32, 0x74, 0x76, 0x64, 0x77, 0x30]
    ensures Syms([16, 17, 18, 19, 20, 21, 22, 23, 24, 25, 26, 27, 28, 29, 30, 31]) ==
            [0x73, 0x33, 0x6A, 0x6E, 0x35, 0x34, 0x6B, 0x68, 0x63, 0x65, 0x36, 0x6D, 0x75, 0x61, 0x37, 0x6C]
  {
    hide Sym;
    FirstLetters();
    LastLetters();
  }

  lemma FirstLetters()
    ensures Sym(0) == 0x71 && Sym(1) == 0x70 && Sym(2) == 0x7A && Sym(3) == 0x72
    ensures Sym(4) == 0x79 && Sym(5) == 0x39 && Sym(6) == 0x78 && Sym(7) == 0x38
    ensures Sym(8) == 0x67 && Sym(9) == 0x66 && Sym(10) == 0x32 && Sym(11) == 0x74
    ensures Sym(12) == 0x76 && Sym(13) == 0x64 && Sym(14) == 0x77 && Sym(15) == 0x30
  {
  }

  lemma LastLetters()
    ensures Sym(16) == 0x73 && Sym(17) == 0x33 && Sym(18) == 0x6A && Sym(19) == 0x6E
    ensures Sym(20) == 0x35 && Sym(21) == 0x34 && Sym(22) == 0x6B && Sym(23) == 0x68
    ensures Sym(24) == 0x63 && Sym(25) == 0x65 && Sym(26) == 0x36 && Sym(27) == 0x6D
    ensures Sym(28) == 0x75 && Sym(29) == 0x61 && Sym(30) == 0x37 && Sym(31) == 0x6C
  {
  }

  lemma RunOf(c: bv32, v: seq<bv8>, s: bv8, w: seq<bv8>, d: bv32)
    requires Run(1, v) == c && Step(c, s) == d && w == v + [s]
    ensures Run(1, w) == d
  {
    hide Step;
    assert w[..|v|] == v;
  }

  lemma NothingRun()
    ensures Run(1, []) == 1
  {
  }

  lemma FirstSteps()
    ensures Step(1, 3) == 0x23 && Step(0x23, 0) == 0x460 && Step(0x460, 1) == 0x8c01 && Step(0x8c01, 10) == 0x11_802a
    ensures Step(0x11_802a, 28) == 0x230_055c
  {
  }

  lemma LastSteps()
    ensures Step(0x230_055c, 25) == 0x3d6a_fc2b && Step(0x3d6a_fc2b, 31) == 0x2f8_4386
    ensures Step(0x2f8_4386, 20) == 0x2462_2766 && Step(0x2462_2766, 31) == 1
  {
  }

  /** The checksum of the prefix "a" and no data is 2uel5l. */
  lemma ChecksumOfA()
    ensures Run(1, [3, 0, 1, 10, 28, 25, 31, 20, 31]) == 1
  {
    hide Step, Run;
    FirstSteps();
    LastSteps();
    NothingRun();
    RunOf(1, [], 3, [3], 0x23);
    RunOf(0x23, [3], 0, [3, 0], 0x460);
    RunOf(0x460, [3, 0], 1, [3, 0, 1], 0x8c01);
    RunOf(0x8c01, [3, 0, 1], 10, [3, 0, 1, 10], 0x11_802a);
    RunOf(0x11_802a, [3, 0, 1, 10], 28, [3, 0, 1, 10, 28], 0x230_055c);
    RunOf(0x230_055c, [3, 0, 1, 10, 28], 25, [3, 0, 1, 10, 28, 25], 0x3d6a_fc2b);
    RunOf(0x3d6a_fc2b, [3, 0, 1, 10, 28, 25], 31, [3, 0, 1, 10, 28, 25, 31], 0x2f8_4386);
    RunOf(0x2f8_4386, [3, 0, 1, 10, 28, 25, 31], 20, [3, 0, 1, 10, 28, 25, 31, 20], 0x2462_2766);
    RunOf(0x2462_2766, [3, 0, 1, 10, 28, 25, 31, 20], 31, [3, 0, 1, 10, 28, 25, 31, 20, 31], 1);
  }

  lemma LettersOfA()
    ensures LowerCase(0x61) == 0x61 && Expanded([0x61]) == [3, 0, 1]
    ensures Rev(0x32) == 10 && Rev(0x75) == 28 && Rev(0x65) == 25 && Rev(0x6C) == 31 && Rev(0x35) == 20
  {
    assert High(0x61) == 3 && Low(0x61) == 1;
  }

  /** "a12uel5l" is accepted. */
  lemma AcceptsA()
    ensures Accepted([0x61, 0x31, 0x32, 0x75, 0x65, 0x6C, 0x35, 0x6C])
  {
    var s: seq<bv8> := [0x61, 0x31, 0x32, 0x75, 0x65, 0x6C, 0x35, 0x6C];
    hide Run, Rev, LowerCase, Expanded;
    ChecksumOfA();
    LettersOfA();
    assert s[1] == 0x31 && forall i :: 1 < i < 8 ==> s[i] != 0x31;
    assert LastOne(s) == 1;
    assert Lower(s[..1]) == [0x61];
    assert Revs(s[2..]) == [10, 28, 25, 31, 20, 31];
    assert Expanded([0x61]) + Revs(s[2..]) == [3, 0, 1, 10, 28, 25, 31, 20, 31];
  }
}
