/** base_uint<256> and arith_uint256: arithmetic in place on eight 32-bit limbs. */
module ArithUint256 {
  import opened Arithmetic
  import opened Common
  import opened ArithSpec

  /** The sum, product and other results are all taken modulo this. */
  function Modulus(): (r: nat)
    ensures r > 0
  {
    Place(WIDTH)
  }

  class BaseUint {
    const pn: array<Word>

    ghost predicate Valid() { pn.Length == WIDTH }

    ghost function Value(): (v: nat)
      requires Valid()
      reads pn
      ensures v < Modulus()
    {
      ValBound(pn[..], WIDTH);
      Val(pn[..])
    }

    constructor (b: nat)
      requires b < BASE * BASE
      ensures Valid() && fresh(pn) && Value() == b
    {
      pn := new Word[WIDTH](_ => 0);
      new;
      pn[0] := b % BASE;
      pn[1] := b / BASE;
      TwoLimbs(pn[..], b);
    }

    constructor Copy(b: BaseUint)
      requires b.Valid()
      ensures Valid() && fresh(pn) && pn[..] == b.pn[..]
    {
      pn := new Word[WIDTH](i requires 0 <= i < WIDTH reads b.pn => b.pn[i]);
    }

    /** operator+= */
    method AddAssign(b: BaseUint)
      requires Valid() && b.Valid()
      modifies pn
      ensures Value() == (old(Value()) + old(b.Value())) % Modulus()
    {
      hide Place;
      ghost var x, y := pn[..], b.pn[..];
      var carry: nat := 0;
      for i := 0 to WIDTH
        invariant carry <= 1
        invariant forall j :: i <= j < WIDTH ==> pn[j] == x[j] && b.pn[j] == y[j]
        invariant ValTo(pn[..], i) + carry * Place(i) == ValTo(x, i) + ValTo(y, i)
      {
        ghost var was := pn[..];
        var n := carry + pn[i] + b.pn[i];
        pn[i] := n % BASE;
        AddStep(was, x, y, i, carry, n);
        carry := n / BASE;
        assert pn[..] == was[i := pn[i]];
      }
      ValBound(pn[..], WIDTH);
      Reduced(ValTo(pn[..], WIDTH), carry, ValTo(x, WIDTH) + ValTo(y, WIDTH));
    }

    /** operator*= with a 32-bit factor. */
    method MulAssign32(b32: Word)
      requires Valid()
      modifies pn
      ensures Value() == old(Value()) * b32 % Modulus()
    {
      hide Place, ValTo;
      ghost var x := pn[..];
      var carry: nat := 0;
      ValNone(x);
      for i := 0 to WIDTH
        invariant carry < BASE
        invariant forall j :: i <= j < WIDTH ==> pn[j] == x[j]
        invariant ValTo(pn[..], i) + carry * Place(i) == ValTo(x, i) * b32
      {
        ghost var was := pn[..];
        var n := carry + b32 * pn[i];
        ProductFits(b32, pn[i], carry, 0);
        pn[i] := n % BASE;
        MulStep32(was, x, i, b32, carry, n);
        carry := n / BASE;
        assert pn[..] == was[i := pn[i]];
      }
      ValBound(pn[..], WIDTH);
      Reduced(ValTo(pn[..], WIDTH), carry, ValTo(x, WIDTH) * b32);
    }

    /** operator++ */
    method Increment()
      requires Valid()
      modifies pn
      ensures Value() == (old(Value()) + 1) % Modulus()
    {
      assert Place(0) == 1;
      hide Place;
      ghost var x := pn[..];
      var i := 0;
      while i < WIDTH
        invariant 0 <= i <= WIDTH
        invariant forall j :: 0 <= j < i ==> pn[j] == 0
        invariant forall j :: i <= j < WIDTH ==> pn[j] == x[j]
        invariant ValTo(x, i) + 1 == Place(i)
      {
        ghost var was := pn[..];
        pn[i] := (pn[i] + 1) % BASE;
        assert pn[..] == was[i := pn[i]];
        if pn[i] != 0 {
          Incremented(x, pn[..], i);
          return;
        }
        NextPlace(x, i);
        i := i + 1;
      }
      ValZeroes(pn[..], 0, WIDTH);
      ModUnique(Place(WIDTH), Place(WIDTH), 1, 0);
    }

    /** operator~ */
    method Complement() returns (r: BaseUint)
      requires Valid()
      ensures r.Valid() && fresh(r) && fresh(r.pn) && r.Value() == Modulus() - 1 - Value()
    {
      hide Place;
      r := new BaseUint(0);
      for i := 0 to WIDTH
        invariant forall j :: 0 <= j < i ==> r.pn[j] == BASE - 1 - pn[j]
        invariant pn[..] == old(pn[..])
      {
        r.pn[i] := BASE - 1 - pn[i];
      }
      Complements(pn[..], r.pn[..], WIDTH);
    }

    /** operator- */
    method Negate() returns (r: BaseUint)
      requires Valid()
      ensures r.Valid() && fresh(r) && fresh(r.pn) && r.Value() == (Modulus() - Value()) % Modulus()
    {
      r := Complement();
      r.Increment();
    }

    /** operator-= */
    method SubAssign(b: BaseUint)
      requires Valid() && b.Valid()
      modifies pn
      ensures Value() == (old(Value()) - old(b.Value())) % Modulus()
    {
      hide Modulus;
      ghost var x, y := Value(), b.Value();
      var minus := b.Negate();
      AddAssign(minus);
      Subtracted(x, y, Modulus());
    }

    /** CompareTo, from the most significant limb down. */
    method CompareTo(b: BaseUint) returns (r: int)
      requires Valid() && b.Valid()
      ensures r == if Value() < b.Value() then -1 else if Value() > b.Value() then 1 else 0
    {
      hide Place;
      var i := WIDTH - 1;
      while i >= 0
        invariant -1 <= i < WIDTH
        invariant forall j :: i < j < WIDTH ==> pn[j] == b.pn[j]
      {
        if pn[i] < b.pn[i] {
          LessAt(pn[..], b.pn[..], i, WIDTH);
          return -1;
        }
        if pn[i] > b.pn[i] {
          LessAt(b.pn[..], pn[..], i, WIDTH);
          return 1;
        }
        i := i - 1;
      }
      ValSame(pn[..], b.pn[..], WIDTH);
      return 0;
    }

    /** operator= */
    method Assign(b: BaseUint)
      requires Valid() && b.Valid()
      modifies pn
      ensures pn[..] == old(b.pn[..])
    {
      for i := 0 to WIDTH
        invariant forall j :: 0 <= j < i ==> pn[j] == old(b.pn[j])
        invariant forall j :: i <= j < WIDTH ==> pn[j] == old(pn[j]) && b.pn[j] == old(b.pn[j])
      {
        pn[i] := b.pn[i];
      }
    }

    /** One row of a long multiplication: adds `f` times `b`, moved up `j` limbs. */
    method AddRow(j: nat, f: Word, b: BaseUint)
      requires Valid() && b.Valid() && b.pn != pn && j < WIDTH
      modifies pn
      ensures Value() == (old(Value()) + Row(f, j, b.Value())) % Modulus()
    {
      NoRow(f, j);
      assert ValTo(b.pn[..], 0) == 0;
      hide Place, Row, ValTo, Carried, Times;
      ghost var x, y := pn[..], b.pn[..];
      var carry: nat := 0;
      var i := 0;
      while i + j < WIDTH
        invariant i + j <= WIDTH && carry < BASE
        invariant forall k :: i + j <= k < WIDTH ==> pn[k] == x[k]
        invariant ValTo(pn[..], i + j) + Carried(carry, i + j) == ValTo(x, i + j) + Row(f, j, ValTo(y, i))
      {
        ghost var was := pn[..];
        var n := carry + pn[i + j] + Times(f, b.pn[i]);
        RowStep(was, x, y, i, j, f, carry, n);
        pn[i + j] := n % BASE;
        carry := n / BASE;
        assert pn[..] == was[i + j := pn[i + j]];
        i := i + 1;
      }
      ValBound(pn[..], WIDTH);
      RowDone(ValTo(pn[..], WIDTH), carry, ValTo(x, WIDTH), y, j, f);
    }

    /** operator*= */
    method MulAssign(b: BaseUint)
      requires Valid() && b.Valid()
      modifies pn
      ensures Value() == old(Value()) * old(b.Value()) % Modulus()
    {
      hide Place;
      ghost var x, y := pn[..], b.Value();
      var a := new BaseUint(0);
      ModUnique(0, Modulus(), 0, 0);
      for j := 0 to WIDTH
        invariant a.Valid() && fresh(a.pn) && pn[..] == x && b.Value() == y
        invariant a.Value() == ValTo(x, j) * y % Modulus()
      {
        a.AddRow(j, pn[j], b);
        NextRow(x, j, y);
      }
      Assign(a);
    }

    /** bits: the position of the highest set bit plus one, 0 for zero. */
    method Bits() returns (r: nat)
      requires Valid()
      ensures r <= 32 * WIDTH && Value() < Pow2(r) && (r > 0 ==> Pow2(r - 1) <= Value()) && (r == 0 <==> Value() == 0)
    {
      hide Place, Pow2;
      var pos := WIDTH - 1;
      while pos >= 0
        invariant -1 <= pos < WIDTH
        invariant forall j :: pos < j < WIDTH ==> pn[j] == 0
      {
        if pn[pos] != 0 {
          var nbits := 31;
          PowWords();
          while nbits > 0
            invariant 0 <= nbits <= 31 && pn[pos] < Pow2(nbits + 1)
          {
            TopBit(pn[pos], nbits);
            if pn[pos] / Pow2(nbits) % 2 == 1 {
              BitsFound(pn[..], pos, nbits);
              return 32 * pos + nbits + 1;
            }
            nbits := nbits - 1;
          }
          FirstBit(pn[pos]);
          BitsFound(pn[..], pos, 0);
          return 32 * pos + 1;
        }
        pos := pos - 1;
      }
      ValZeroes(pn[..], 0, WIDTH);
      return 0;
    }

    /** operator<<= */
    method ShlAssign(shift: nat)
      requires Valid()
      modifies pn
      ensures Value() == old(Value()) * Pow2(shift) % Modulus()
    {
      hide Place, Pow2, BitOr, ValTo;
      ghost var a := pn[..];
      var copy := new BaseUint.Copy(this);
      for i := 0 to WIDTH
        invariant forall j :: 0 <= j < i ==> pn[j] == 0
        invariant copy.pn[..] == a
      {
        pn[i] := 0;
      }
      var k, s := shift / 32, shift % 32;
      ShlStart(a, pn[..], k, s);
      for i := 0 to WIDTH
        invariant copy.pn[..] == a
        invariant ShlDone(a, pn[..], k, s, i)
      {
        ghost var was := pn[..];
        var w := copy.pn[i];
        ShlParts(w, s);
        if i + k + 1 < WIDTH && s != 0 {
          OrZero(ShlHigh(w, s));
          pn[i + k + 1] := BitOr(pn[i + k + 1], w / Pow2(32 - s));
        }
        if i + k < WIDTH {
          OrFits(pn[i + k], ShlLow(w, s), s);
          pn[i + k] := BitOr(pn[i + k], w * Pow2(s) % BASE);
        }
        ShlStep(a, was, pn[..], k, s, i);
      }
      ShlEnd(a, pn[..], k, s, shift);
    }

    /** operator>>= */
    method ShrAssign(shift: nat)
      requires Valid()
      modifies pn
      ensures Value() == old(Value()) / Pow2(shift)
    {
      hide Place, Pow2, BitOr, ValTo;
      ghost var a := pn[..];
      var copy := new BaseUint.Copy(this);
      for i := 0 to WIDTH
        invariant forall j :: 0 <= j < i ==> pn[j] == 0
        invariant copy.pn[..] == a
      {
        pn[i] := 0;
      }
      var k, s := shift / 32, shift % 32;
      ShrStart(a, pn[..], k, s);
      for i := 0 to WIDTH
        invariant copy.pn[..] == a
        invariant ShrDone(a, pn[..], k, s, i)
      {
        ghost var was := pn[..];
        var w := copy.pn[i];
        ShrParts(w, s);
        if i - k - 1 >= 0 && s != 0 {
          OrFits(pn[i - k - 1], ShrLow(w, s), 32 - s);
          pn[i - k - 1] := BitOr(pn[i - k - 1], w * Pow2(32 - s) % BASE);
        }
        if i - k >= 0 {
          OrZero(ShrHigh(w, s));
          pn[i - k] := BitOr(pn[i - k], w / Pow2(s));
        }
        ShrStep(a, was, pn[..], k, s, i);
      }
      ShrEnd(a, pn[..], k, s, shift);
    }

    /** operator= with a 64-bit number. */
    method Set(b: nat)
      requires Valid() && b < BASE * BASE
      modifies pn
      ensures Value() == b && (b == 0 ==> forall j :: 0 <= j < WIDTH ==> pn[j] == 0)
    {
      pn[0] := b % BASE;
      pn[1] := b / BASE;
      for i := 2 to WIDTH
        invariant pn[0] == b % BASE && pn[1] == b / BASE && forall j :: 2 <= j < i ==> pn[j] == 0
      {
        pn[i] := 0;
      }
      TwoLimbs(pn[..], b);
    }

    /** Sets a bit of a number whose bits are clear up to and including that one. */
    method SetClearBit(shift: nat)
      requires Valid() && shift < 32 * WIDTH && ClearTo(pn[..], shift)
      modifies pn
      ensures Value() == old(Value()) + Pow2(shift)
      ensures shift > 0 ==> ClearTo(pn[..], shift - 1)
    {
      hide Place, Pow2, BitOr, ValTo;
      var k, bit := shift / 32, shift % 32;
      ghost var was := pn[..];
      ClearBitFits(pn[k], bit);
      pn[k] := BitOr(pn[k], Pow2(bit));
      assert pn[..] == was[k := pn[k]];
      BitSet(was, pn[..], shift);
    }

    /** operator/=: exact floor division; a zero divisor is refused after the target was cleared. */
    method DivAssign(b: BaseUint) returns (ok: bool)
      requires Valid() && b.Valid()
      modifies pn
      ensures ok <==> old(b.Value()) != 0
      ensures Value() == if ok then old(Value()) / old(b.Value()) else 0
    {
      hide Place, Pow2, ValTo, ClearTo, Modulus;
      ghost var n, d := Value(), b.Value();
      var div := new BaseUint.Copy(b);
      var num := new BaseUint.Copy(this);
      Set(0);
      var numBits := num.Bits();
      var divBits := div.Bits();
      if divBits == 0 {
        return false;
      }
      if divBits > numBits {
        SmallerNumerator(n, d, numBits, divBits);
        return true;
      }
      var shift := numBits - divBits;
      DivStart(n, d, numBits, divBits);
      div.ShlAssign(shift);
      AllClear(pn[..], shift);
      while shift >= 0
        invariant -1 <= shift < 32 * WIDTH
        invariant num.Valid() && div.Valid() && fresh(num.pn) && fresh(div.pn) && num.pn != div.pn && num.pn != pn
        invariant div.pn != pn
        invariant num.Value() + Value() * d == n && num.Value() < Pow2(shift + 1) * d
        invariant shift >= 0 ==> div.Value() == Pow2(shift) * d && ClearTo(pn[..], shift)
        decreases shift
      {
        DivRound(num, div, shift, n, d);
        shift := shift - 1;
      }
      DivEnd(n, d, Value(), num.Value());
      return true;
    }

    /** One turn of the loop: a bit of the quotient, and the divisor shifted back by one. */
    method DivRound(num: BaseUint, div: BaseUint, shift: nat, ghost n: nat, ghost d: nat)
      requires Valid() && num.Valid() && div.Valid() && num.pn != div.pn && num.pn != pn && div.pn != pn
      requires shift < 32 * WIDTH && num.Value() + Value() * d == n && num.Value() < Pow2(shift + 1) * d
      requires div.Value() == Pow2(shift) * d && ClearTo(pn[..], shift)
      modifies pn, num.pn, div.pn
      ensures num.Value() + Value() * d == n && num.Value() < Pow2(shift) * d
      ensures shift > 0 ==> div.Value() == Pow2(shift - 1) * d && ClearTo(pn[..], shift - 1)
    {
      hide Place, Pow2, ValTo, ClearTo, Modulus;
      var c := num.CompareTo(div);
      DivStep(num.Value(), Value(), d, shift);
      if c >= 0 {
        NoBorrow(num.Value(), div.Value(), Modulus());
        num.SubAssign(div);
        SetClearBit(shift);
      } else if shift > 0 {
        ClearLess(pn[..], shift);
      }
      HalvePow(shift, d);
      PowOne();
      div.ShrAssign(1);
    }

    /** EqualTo a 64-bit number. */
    method EqualTo(b: nat) returns (r: bool)
      requires Valid() && b < BASE * BASE
      ensures r <==> Value() == b
    {
      hide Place;
      var i := WIDTH - 1;
      while i >= 2
        invariant 1 <= i < WIDTH
        invariant forall j :: i < j < WIDTH ==> pn[j] == 0
      {
        if pn[i] != 0 {
          BigLimb(pn[..], i);
          return false;
        }
        i := i - 1;
      }
      TwoLimbsValue(pn[..], b);
      if pn[1] != b / BASE {
        return false;
      }
      if pn[0] != b % BASE {
        return false;
      }
      return true;
    }

    /** The low limb pair. */
    method GetLow64() returns (r: nat)
      requires Valid()
      ensures r == Value() % (BASE * BASE)
    {
      Low64(pn[..]);
      r := pn[0] + pn[1] * BASE;
    }

    /** The overflow flag is exact: it is set when the number does not fit, and only then. */
    method SetCompact(nCompact: Word) returns (fNegative: bool, fOverflow: bool)
      requires Valid()
      modifies pn
      ensures Value() == CompactValue(nCompact) % Modulus()
      ensures fOverflow <==> CompactValue(nCompact) >= Modulus()
      ensures fNegative <==> CompactValue(nCompact) != 0 && nCompact / 0x80_0000 % 2 == 1
    {
      hide Place, Pow2, ValTo, Modulus, Decoded;
      var nSize := nCompact / 0x100_0000;
      var nWord := nCompact % 0x80_0000;
      if nSize <= 3 {
        SmallDecoded(nWord, nSize);
        nWord := nWord / Pow2(8 * (3 - nSize));
        Set(nWord);
      } else {
        LargeDecoded(nWord, nSize);
        Set(nWord);
        ShlAssign(8 * (nSize - 3));
      }
      fNegative := nWord != 0 && nCompact / 0x80_0000 % 2 != 0;
      fOverflow := nWord != 0 && (nSize > 34 || (nWord > 0xff && nSize > 33) || (nWord > 0xffff && nSize > 32));
    }

    /** The three leading bytes, shifted up when there are fewer. */
    method LeadingBytes(nSize: nat) returns (m: nat)
      requires Valid()
      requires nSize <= 3 ==> Value() % (BASE * BASE) == Value()
      requires nSize > 3 ==> Mantissa(Value(), nSize) % (BASE * BASE) == Mantissa(Value(), nSize)
      ensures m == Mantissa(Value(), nSize)
    {
      hide Place, Pow2, ValTo;
      if nSize <= 3 {
        var low := GetLow64();
        m := low * Pow2(8 * (3 - nSize));
      } else {
        var bn := new BaseUint.Copy(this);
        bn.ShrAssign(8 * (nSize - 3));
        m := bn.GetLow64();
      }
    }

    /** What the compact form stands for is the number with its `e` low bits cleared, never more
        than leaves sixteen leading ones; the source's two assertions always hold. */
    method GetCompact(fNegative: bool) returns (nCompact: Word, ghost e: nat)
      requires Valid()
      ensures CompactValue(nCompact) == Value() / Pow2(e) * Pow2(e) && (e == 0 || Value() / Pow2(e) >= 0x8000)
      ensures nCompact / 0x80_0000 % 2 == 1 <==> fNegative && nCompact % 0x80_0000 != 0
    {
      hide Place, Pow2, ValTo;
      var bits := Bits();
      var nSize := (bits + 7) / 8;
      ghost var v := Value();
      CompactStart(v, bits);
      var m := LeadingBytes(nSize);
      e := CompactCut(v, nSize);
      if m / 0x80_0000 % 2 == 1 {
        m := m / 0x100;
        nSize := nSize + 1;
      }
      assert m < 0x80_0000;
      assert nSize < 256;
      nCompact := m + nSize * 0x100_0000;
      if fNegative && m != 0 {
        nCompact := nCompact + 0x80_0000;
      }
      CompactParts(nCompact, nSize, m, fNegative && m != 0);
    }
  }

  // ---------------------------------------------------------------- steps of the loops

  lemma TwoLimbs(s: seq<Word>, b: nat)
    requires |s| == WIDTH && b < BASE * BASE && s[0] == b % BASE && s[1] == b / BASE
    requires forall i :: 2 <= i < WIDTH ==> s[i] == 0
    ensures Val(s) == b
  {
    ValZeroes(s, 2, WIDTH);
    assert Place(0) == 1 && Place(1) == BASE;
    assert ValTo(s, 1) == ValTo(s, 0) + s[0] * Place(0);
    assert ValTo(s, 2) == ValTo(s, 1) + s[1] * Place(1);
  }

  lemma AddStep(was: seq<Word>, x: seq<Word>, y: seq<Word>, i: nat, carry: nat, n: nat)
    requires i < |was| == |x| == |y| && n == carry + x[i] + y[i]
    requires ValTo(was, i) + carry * Place(i) == ValTo(x, i) + ValTo(y, i)
    ensures ValTo(was[i := n % BASE], i + 1) + n / BASE * Place(i + 1) == ValTo(x, i + 1) + ValTo(y, i + 1)
  {
    hide Place;
    ValSame(was, was[i := n % BASE], i);
    CarryStep(n, i);
    Distribute(carry, x[i], y[i], Place(i));
  }

  lemma Distribute(a: int, b: int, c: int, p: int)
    ensures (a + b + c) * p == a * p + b * p + c * p
  {
  }

  /** The product of two limbs leaves room for two more in 64 bits. */
  function Times(a: Word, b: Word): (r: nat)
    ensures r <= (BASE - 1) * (BASE - 1)
  {
    ProductBound(a, b, BASE - 1);
    a * b
  }

  lemma ProductBound(a: int, b: int, m: int)
    requires 0 <= a <= m && 0 <= b <= m
    ensures 0 <= a * b <= m * m
  {
  }

  /** No 64-bit overflow in a step of a multiplication. */
  lemma ProductFits(a: Word, b: Word, carry: nat, more: nat)
    requires carry < BASE && more < BASE
    ensures carry + more + a * b < BASE * BASE && (carry + more + a * b) / BASE < BASE
  {
    MulMono(a, BASE - 1, b);
    var n := carry + more + a * b;
    assert n <= BASE - 1 + BASE - 1 + (BASE - 1) * (BASE - 1);
  }

  lemma MulStep32(was: seq<Word>, x: seq<Word>, i: nat, b: Word, carry: nat, n: nat)
    requires i < |was| == |x| && n == carry + b * x[i]
    requires ValTo(was, i) + carry * Place(i) == ValTo(x, i) * b
    ensures ValTo(was[i := n % BASE], i + 1) + n / BASE * Place(i + 1) == ValTo(x, i + 1) * b
  {
    hide Place;
    ValSame(was, was[i := n % BASE], i);
    CarryStep(n, i);
    assert n * Place(i) == carry * Place(i) + b * x[i] * Place(i);
    assert (ValTo(x, i) + x[i] * Place(i)) * b == ValTo(x, i) * b + b * x[i] * Place(i);
  }

  lemma NextPlace(x: seq<Word>, i: nat)
    requires i < |x| && x[i] == BASE - 1 && ValTo(x, i) + 1 == Place(i)
    ensures ValTo(x, i + 1) + 1 == Place(i + 1)
  {
  }

  lemma Incremented(x: seq<Word>, y: seq<Word>, i: nat)
    requires i < |x| == |y| == WIDTH && x[i] < BASE - 1 && y[i] == x[i] + 1 && ValTo(x, i) + 1 == Place(i)
    requires (forall j :: 0 <= j < i ==> y[j] == 0) && (forall j :: i < j < WIDTH ==> y[j] == x[j])
    ensures Val(y) == (Val(x) + 1) % Place(WIDTH)
  {
    hide Place;
    ValZeroes(y, 0, i);
    assert (x[i] + 1) * Place(i) == x[i] * Place(i) + Place(i);
    TailSame(x, y, i + 1, WIDTH);
    ValBound(y, WIDTH);
    ModUnique(Val(y), Place(WIDTH), 0, Val(y));
  }

  lemma {:induction false} TailSame(x: seq<Word>, y: seq<Word>, k: nat, n: nat)
    requires k <= n <= |x| == |y| && forall j :: k <= j < n ==> y[j] == x[j]
    ensures ValTo(y, n) - ValTo(y, k) == ValTo(x, n) - ValTo(x, k)
  {
    if k < n {
      TailSame(x, y, k, n - 1);
    }
  }

  lemma {:induction false} Complements(x: seq<Word>, y: seq<Word>, n: nat)
    requires n <= |x| == |y| && forall j :: 0 <= j < n ==> y[j] == BASE - 1 - x[j]
    ensures ValTo(y, n) == Place(n) - 1 - ValTo(x, n)
  {
    if n > 0 {
      Complements(x, y, n - 1);
      assert y[n - 1] * Place(n - 1) == BASE * Place(n - 1) - Place(n - 1) - x[n - 1] * Place(n - 1);
    }
  }

  lemma Subtracted(x: nat, y: nat, m: nat)
    requires x < m && y < m
    ensures (x + (m - y) % m) % m == (x - y) % m
  {
    if y == 0 {
      ModUnique(m, m, 1, 0);
    } else {
      ModUnique(m - y, m, 0, m - y);
      ModAdd(x + (m - y), x - y, 1, m);
    }
  }

  lemma {:induction false} LessAt(x: seq<Word>, y: seq<Word>, i: nat, n: nat)
    requires i < n <= |x| == |y| && x[i] < y[i] && forall j :: i < j < n ==> x[j] == y[j]
    ensures ValTo(x, n) < ValTo(y, n)
  {
    if i == n - 1 {
      ValBound(x, i);
      MulMono(x[i] + 1, y[i], Place(i));
      assert (x[i] + 1) * Place(i) == x[i] * Place(i) + Place(i);
    } else {
      LessAt(x, y, i, n - 1);
    }
  }

  /** `f` times `v`, moved up `j` limbs. */
  function Row(f: int, j: nat, v: int): int { f * Place(j) * v }

  lemma NoRow(f: int, j: nat)
    ensures Row(f, j, 0) == 0 && Carried(0, j) == 0
  {
  }

  function Carried(carry: int, i: nat): int { carry * Place(i) }

  lemma RowStep(was: seq<Word>, x: seq<Word>, y: seq<Word>, i: nat, j: nat, f: Word, carry: nat, n: nat)
    requires i + j < |was| == |x| == |y| && n == carry + x[i + j] + Times(f, y[i])
    requires ValTo(was, i + j) + Carried(carry, i + j) == ValTo(x, i + j) + Row(f, j, ValTo(y, i))
    ensures ValTo(was[i + j := n % BASE], i + j + 1) + Carried(n / BASE, i + j + 1) ==
            ValTo(x, i + j + 1) + Row(f, j, ValTo(y, i + 1))
  {
    hide Place, Row;
    RowNext(f, j, y, i);
    ValSame(was, was[i + j := n % BASE], i + j);
    CarryStep(n, i + j);
    Distribute(carry, x[i + j], f * y[i], Place(i + j));
  }

  lemma RowNext(f: int, j: nat, y: seq<Word>, i: nat)
    requires i < |y|
    ensures Row(f, j, ValTo(y, i + 1)) == Row(f, j, ValTo(y, i)) + f * y[i] * Place(i + j)
  {
    hide Place;
    PlaceAdd(i, j);
    Regroup(f, Place(j), ValTo(y, i), y[i], Place(i));
  }

  lemma Regroup(f: int, p: int, v: int, d: int, q: int)
    ensures f * p * (v + d * q) == f * p * v + f * d * (q * p)
  {
  }

  /** What a row drops is a multiple of the modulus. */
  lemma RowDone(v: nat, carry: nat, x: nat, y: seq<Word>, j: nat, f: Word)
    requires |y| == WIDTH && j < WIDTH && v < Place(WIDTH)
    requires v + Carried(carry, WIDTH) == x + Row(f, j, ValTo(y, WIDTH - j))
    ensures v == (x + Row(f, j, Val(y))) % Place(WIDTH)
  {
    hide Place, Row, Carried;
    var t := HighPart(y, WIDTH - j, WIDTH);
    RowHigh(f, j, ValTo(y, WIDTH - j), t);
    CarriedIs(carry, WIDTH);
    RowCut(v, carry, x, Row(f, j, ValTo(y, WIDTH - j)), Row(f, j, Val(y)), f * t, Place(WIDTH));
  }

  lemma RowHigh(f: int, j: nat, v: nat, t: nat)
    requires j <= WIDTH
    ensures Row(f, j, v + t * Place(WIDTH - j)) == Row(f, j, v) + f * t * Place(WIDTH)
  {
    hide Place;
    PlaceAdd(WIDTH - j, j);
    Regroup(f, Place(j), v, t, Place(WIDTH - j));
  }

  lemma CarriedIs(carry: int, i: nat)
    ensures Carried(carry, i) == carry * Place(i)
  {
  }

  lemma RowCut(v: nat, carry: nat, x: nat, kept: int, whole: int, k: int, m: nat)
    requires v < m && v + carry * m == x + kept && whole == kept + k * m
    ensures v == (x + whole) % m
  {
    ModUnique(x + kept, m, carry, v);
    ModAdd(x + whole, x + kept, k, m);
  }

  /** The limbs from `k` on contribute a multiple of their weight. */
  lemma {:induction false} HighPart(s: seq<Word>, k: nat, n: nat) returns (t: nat)
    requires k <= n <= |s|
    ensures ValTo(s, n) == ValTo(s, k) + t * Place(k)
  {
    hide Place;
    if k == n {
      t := 0;
    } else {
      var u := HighPart(s, k, n - 1);
      PlaceAdd(n - 1 - k, k);
      t := u + s[n - 1] * Place(n - 1 - k);
      Gather(u, s[n - 1], Place(n - 1 - k), Place(k));
    }
  }

  lemma Gather(u: int, d: int, q: int, p: int)
    ensures (u + d * q) * p == u * p + d * (q * p)
  {
  }

  lemma NextRow(x: seq<Word>, j: nat, y: nat)
    requires j < |x|
    ensures (ValTo(x, j) * y % Place(WIDTH) + Row(x[j], j, y)) % Place(WIDTH) == ValTo(x, j + 1) * y % Place(WIDTH)
  {
    hide Place;
    var m, a := Place(WIDTH), ValTo(x, j) * y;
    assert a == a / m * m + a % m;
    assert (ValTo(x, j) + x[j] * Place(j)) * y == a + x[j] * Place(j) * y;
    ModAdd(a + x[j] * Place(j) * y, a % m + x[j] * Place(j) * y, a / m, m);
  }

  lemma TopBit(w: nat, k: nat)
    requires w < Pow2(k + 1)
    ensures if w / Pow2(k) % 2 == 1 then Pow2(k) <= w else w < Pow2(k)
  {
    DivBounds(w, Pow2(k));
    var q := w / Pow2(k);
    assert Pow2(k + 1) == 2 * Pow2(k);
    MulLess(q, 2, Pow2(k));
    if q == 1 {
      assert 1 * Pow2(k) <= w;
    }
  }

  lemma FirstBit(w: nat)
    requires 0 < w < Pow2(1)
    ensures Pow2(0) <= w
  {
  }

  lemma BitsFound(s: seq<Word>, pos: nat, k: nat)
    requires pos < |s| && Pow2(k) <= s[pos] < Pow2(k + 1) && forall j :: pos < j < |s| ==> s[j] == 0
    ensures Pow2(32 * pos + k) <= Val(s) < Pow2(32 * pos + k + 1)
    ensures Val(s) > 0
  {
    hide Place, Pow2;
    ValZeroes(s, pos + 1, |s|);
    ValBound(s, pos);
    PlaceIsPow2(pos);
    PowAdd(k, 32 * pos);
    PowAdd(k + 1, 32 * pos);
    MulMono(Pow2(k), s[pos], Place(pos));
    var top: int := s[pos];
    MulMono(top + 1, Pow2(k + 1), Place(pos));
    assert (top + 1) * Place(pos) == top * Place(pos) + Place(pos);
  }

  // ---------------------------------------------------------------- shifting left

  /** The part of a shifted limb that stays, and the part that moves on to the next limb. */
  function ShlLow(w: Word, s: nat): Word { w * Pow2(s) % BASE }

  function ShlHigh(w: Word, s: nat): nat
    requires s < 32
  {
    Quotient(w, Pow2(32 - s));
    w / Pow2(32 - s)
  }

  lemma ShlParts(w: Word, s: nat)
    requires s < 32
    ensures w * Pow2(s) == ShlLow(w, s) + ShlHigh(w, s) * BASE
    ensures ShlHigh(w, s) < Pow2(s) && ShlLow(w, s) % Pow2(s) == 0 && ShlHigh(w, s) < BASE
    ensures s == 0 ==> ShlHigh(w, s) == 0
  {
    PowAdd(s, 32 - s);
    PowWords();
    PowGrows(s, 32);
    SplitProduct(w, Pow2(s), Pow2(32 - s), BASE);
    if s == 0 {
      assert Pow2(0) == 1;
    }
  }

  /** Multiplying by `p` within `base`, `p q` being `base`: the digit that leaves is the quotient
      by `q`. */
  lemma SplitProduct(w: nat, p: nat, q: nat, base: nat)
    requires p > 0 && q > 0 && p * q == base && w < base
    ensures w * p == w * p % base + w / q * base
    ensures 0 <= w / q < p && w * p % base % p == 0
  {
    SplitAt(w, w / q, w % q, p, q, base);
  }

  lemma SplitAt(w: nat, hi: nat, lo: nat, p: nat, q: nat, base: nat)
    requires p > 0 && lo < q && p * q == base && w == hi * q + lo < base
    ensures w * p == w * p % base + hi * base && hi < p && w * p % base % p == 0
  {
    ScaledParts(hi, lo, p, q);
    ModUnique(w * p, base, hi, lo * p);
    ModUnique(lo * p, p, lo, 0);
    MulLess(hi, p, q);
  }

  lemma ScaledParts(hi: nat, lo: nat, p: nat, q: nat)
    requires p > 0 && lo < q
    ensures (hi * q + lo) * p == hi * (p * q) + lo * p && 0 <= lo * p < p * q
  {
    MulMono(lo + 1, q, p);
  }

  /** What the limb array holds after `i` limbs were shifted. */
  ghost predicate ShlDone(a: seq<Word>, r: seq<Word>, k: nat, s: nat, i: nat)
    requires |a| == |r| == WIDTH && i <= WIDTH && s < 32
  {
    && (forall m :: 0 <= m < WIDTH && m > i + k ==> r[m] == 0)
    && (i + k < WIDTH ==> r[i + k] < Pow2(s))
    && Val(r) == ValTo(a, i) * (Pow2(s) * Place(k)) % Place(WIDTH)
  }

  lemma ShlStart(a: seq<Word>, r: seq<Word>, k: nat, s: nat)
    requires |a| == |r| == WIDTH && s < 32 && forall j :: 0 <= j < WIDTH ==> r[j] == 0
    ensures ShlDone(a, r, k, s, 0)
  {
    ValZeroes(r, 0, WIDTH);
    ModUnique(0, Place(WIDTH), 0, 0);
  }

  /** A low part and a multiple of its bound share no bit, and stay a limb. */
  lemma OrFits(x: nat, y: nat, s: nat)
    requires s <= 32 && x < Pow2(s) && y % Pow2(s) == 0 && y < BASE
    ensures BitOr(x, y) == BitOr(y, x) == x + y < BASE
  {
    hide BitOr, Pow2;
    OrIsSum(x, y, s);
    PowWords();
    PowAdd(32 - s, s);
    MultipleFits(x, y, Pow2(s), Pow2(32 - s));
  }

  lemma MultipleFits(x: nat, y: nat, p: nat, c: nat)
    requires p > 0 && x < p && y % p == 0 && y < c * p
    ensures x + y < c * p
  {
    var q := y / p;
    assert y == q * p;
    MulLess(q, c, p);
    MulMono(q + 1, c, p);
    assert (q + 1) * p == q * p + p;
  }

  /** Adding `d` to a residue, less whole multiples of the modulus. */
  lemma ModStep(v: nat, total: nat, d: nat, t: int, v': nat, m: nat)
    requires m > 0 && v == total % m && v' == v + d - t * m && v' < m
    ensures v' == (total + d) % m
  {
    var q := total / m;
    assert total == q * m + v;
    assert (q + t) * m == q * m + t * m;
    ModUnique(total + d, m, q + t, v');
  }

  lemma ShlStep(a: seq<Word>, was: seq<Word>, now: seq<Word>, k: nat, s: nat, i: nat)
    requires |a| == |was| == |now| == WIDTH && i < WIDTH && s < 32 && ShlDone(a, was, k, s, i)
    requires forall m :: 0 <= m < WIDTH && m != i + k && m != i + k + 1 ==> now[m] == was[m]
    requires i + k < WIDTH ==> now[i + k] == was[i + k] + ShlLow(a[i], s)
    requires i + k + 1 < WIDTH ==> now[i + k + 1] == ShlHigh(a[i], s)
    ensures ShlDone(a, now, k, s, i + 1)
  {
    hide Place, Pow2, ShlLow, ShlHigh, ShlGain, ValTo;
    ShlParts(a[i], s);
    var t := ShlGrowth(a, was, now, k, s, i);
    ShlTotal(a, k, s, i);
    ValBound(now, WIDTH);
    ModStep(Val(was), ValTo(a, i) * (Pow2(s) * Place(k)), ShlGain(a[i], s, i + k), t, Val(now), Place(WIDTH));
  }

  /** What shifting limb `w` adds, before anything is dropped. */
  ghost function ShlGain(w: Word, s: nat, at: nat): nat
    requires s < 32
  {
    w * Pow2(s) * Place(at)
  }

  lemma ShlTotal(a: seq<Word>, k: nat, s: nat, i: nat)
    requires i < |a| && s < 32
    ensures ValTo(a, i + 1) * (Pow2(s) * Place(k)) == ValTo(a, i) * (Pow2(s) * Place(k)) + ShlGain(a[i], s, i + k)
  {
    hide Place, Pow2;
    PlaceAdd(i, k);
    ShlAlgebra(ValTo(a, i), a[i], Place(i), Pow2(s), Place(k));
  }

  lemma ShlAlgebra(v: int, w: int, pi: int, p: int, pk: int)
    ensures (v + w * pi) * (p * pk) == v * (p * pk) + w * p * (pi * pk)
  {
  }

  /** The growth is the gain, less a multiple of the modulus. */
  lemma ShlGrowth(a: seq<Word>, was: seq<Word>, now: seq<Word>, k: nat, s: nat, i: nat) returns (t: nat)
    requires |a| == |was| == |now| == WIDTH && i < WIDTH && s < 32 && ShlDone(a, was, k, s, i)
    requires forall m :: 0 <= m < WIDTH && m != i + k && m != i + k + 1 ==> now[m] == was[m]
    requires i + k < WIDTH ==> now[i + k] == was[i + k] + ShlLow(a[i], s)
    requires i + k + 1 < WIDTH ==> now[i + k + 1] == ShlHigh(a[i], s)
    ensures Val(now) == Val(was) + ShlGain(a[i], s, i + k) - t * Place(WIDTH)
  {
    hide Place, Pow2, ShlLow, ShlHigh, ShlGain;
    ShlParts(a[i], s);
    var lo, hi, p := ShlLow(a[i], s), ShlHigh(a[i], s), Pow2(s);
    ShlWhole(a[i], s, i + k);
    if i + k + 1 < WIDTH {
      ValUpdate(was, i + k, now[i + k], WIDTH);
      ValUpdate(was[i + k := now[i + k]], i + k + 1, hi, WIDTH);
      assert now == was[i + k := now[i + k]][i + k + 1 := hi];
      t := 0;
    } else if i + k < WIDTH {
      ValUpdate(was, i + k, now[i + k], WIDTH);
      assert now == was[i + k := now[i + k]];
      t := hi;
    } else {
      assert now == was;
      t := GainDropped(a[i], s, i + k);
    }
  }

  lemma ShlWhole(w: Word, s: nat, at: nat)
    requires s < 32
    ensures ShlGain(w, s, at) == ShlLow(w, s) * Place(at) + ShlHigh(w, s) * Place(at + 1)
  {
    ShlParts(w, s);
    var lo, hi := ShlLow(w, s), ShlHigh(w, s);
    assert Place(at + 1) == BASE * Place(at);
    hide Place, Pow2, ShlLow, ShlHigh;
    ShlWholeAlgebra(lo, hi, Place(at));
  }

  lemma ShlWholeAlgebra(lo: int, hi: int, p: int)
    ensures (lo + hi * BASE) * p == lo * p + hi * (BASE * p)
  {
  }

  lemma GainDropped(w: Word, s: nat, at: nat) returns (t: nat)
    requires s < 32 && at >= WIDTH
    ensures ShlGain(w, s, at) == t * Place(WIDTH)
  {
    hide Place, Pow2;
    PlaceAdd(at - WIDTH, WIDTH);
    t := w * Pow2(s) * Place(at - WIDTH);
    assert w * Pow2(s) * (Place(at - WIDTH) * Place(WIDTH)) == t * Place(WIDTH);
  }

  lemma ShlEnd(a: seq<Word>, r: seq<Word>, k: nat, s: nat, shift: nat)
    requires |a| == |r| == WIDTH && s < 32 && shift == 32 * k + s && ShlDone(a, r, k, s, WIDTH)
    ensures Val(r) == Val(a) * Pow2(shift) % Place(WIDTH)
  {
    hide Place, Pow2;
    PlaceIsPow2(k);
    PowAdd(s, 32 * k);
  }

  // ---------------------------------------------------------------- shifting right

  /** The part of a shifted limb that moves down to the limb below, and the part that stays. */
  function ShrLow(w: Word, s: nat): Word
    requires s < 32
  {
    w * Pow2(32 - s) % BASE
  }

  function ShrHigh(w: Word, s: nat): int { w / Pow2(s) }

  lemma ShrParts(w: Word, s: nat)
    requires s < 32
    ensures w * Pow2(32 - s) == ShrLow(w, s) + ShrHigh(w, s) * BASE
    ensures 0 <= ShrHigh(w, s) < Pow2(32 - s) && ShrLow(w, s) % Pow2(32 - s) == 0 && ShrHigh(w, s) < BASE
    ensures s == 0 ==> ShrLow(w, s) == 0
  {
    hide Pow2;
    PowAdd(s, 32 - s);
    PowWords();
    PowGrows(32 - s, 32);
    SplitProduct(w, Pow2(32 - s), Pow2(s), BASE);
    if s == 0 {
      ModUnique(w * BASE, BASE, w, 0);
    }
  }

  /** What the limb array holds after `i` limbs were shifted. */
  ghost predicate ShrDone(a: seq<Word>, r: seq<Word>, k: nat, s: nat, i: nat)
    requires |a| == |r| == WIDTH && i <= WIDTH && s < 32
  {
    && (forall m :: 0 <= m < WIDTH && m >= i - k ==> r[m] == 0)
    && (i - k - 1 >= 0 ==> r[i - k - 1] < Pow2(32 - s))
    && Val(r) == ShrQuotient(ValTo(a, i), k, s)
  }

  function ShrQuotient(v: nat, k: nat, s: nat): int {
    MulPositive(Pow2(s), Place(k));
    v / (Pow2(s) * Place(k))
  }

  lemma ShrStart(a: seq<Word>, r: seq<Word>, k: nat, s: nat)
    requires |a| == |r| == WIDTH && s < 32 && forall j :: 0 <= j < WIDTH ==> r[j] == 0
    ensures ShrDone(a, r, k, s, 0)
  {
    ValZeroes(r, 0, WIDTH);
    ModUnique(0, Pow2(s) * Place(k), 0, 0);
  }

  lemma ShrStep(a: seq<Word>, was: seq<Word>, now: seq<Word>, k: nat, s: nat, i: nat)
    requires |a| == |was| == |now| == WIDTH && i < WIDTH && s < 32 && ShrDone(a, was, k, s, i)
    requires forall m :: 0 <= m < WIDTH && m != i - k && m != i - k - 1 ==> now[m] == was[m]
    requires i - k - 1 >= 0 ==> now[i - k - 1] == was[i - k - 1] + ShrLow(a[i], s)
    requires i - k >= 0 ==> now[i - k] == ShrHigh(a[i], s)
    ensures ShrDone(a, now, k, s, i + 1)
  {
    hide Place, Pow2, ShrLow, ShrHigh, ShrQuotient;
    ShrParts(a[i], s);
    if i < k {
      assert now == was;
      ShrNothing(a, k, s, i);
      ShrNothing(a, k, s, i + 1);
    } else if i == k {
      ShrNothing(a, k, s, i);
      assert now == was[0 := now[0]];
      ValUpdate(was, 0, now[0], WIDTH);
      ShrFirst(a, k, s);
    } else {
      assert now == was[i - k - 1 := now[i - k - 1]][i - k := now[i - k]];
      ValUpdate(was, i - k - 1, now[i - k - 1], WIDTH);
      ValUpdate(was[i - k - 1 := now[i - k - 1]], i - k, now[i - k], WIDTH);
      ShrMore(a, k, s, i);
    }
  }

  lemma ShrNothing(a: seq<Word>, k: nat, s: nat, i: nat)
    requires i <= |a| && i <= k
    ensures ShrQuotient(ValTo(a, i), k, s) == 0
  {
    hide Place, Pow2;
    ValBound(a, i);
    PlaceAdd(i, k - i);
    MulMono(1, Place(k - i), Place(i));
    MulMono(1, Pow2(s), Place(k));
    ModUnique(ValTo(a, i), Pow2(s) * Place(k), 0, ValTo(a, i));
  }

  lemma ShrFirst(a: seq<Word>, k: nat, s: nat)
    requires k < |a|
    ensures Place(0) == 1 && ShrQuotient(ValTo(a, k + 1), k, s) == ShrHigh(a[k], s)
  {
    assert Place(0) == 1;
    hide Place, Pow2;
    ValBound(a, k);
    DivTop(ValTo(a, k), a[k], Place(k), Pow2(s));
  }

  lemma DivTop(v: nat, w: nat, p: nat, q: nat)
    requires v < p && q > 0
    ensures (v + w * p) / (q * p) == w / q
  {
    var d, r := w / q, w % q;
    assert w == d * q + r;
    assert (d * q + r) * p == d * (q * p) + r * p;
    MulMono(r + 1, q, p);
    assert (r + 1) * p == r * p + p;
    ModUnique(v + w * p, q * p, d, v + r * p);
  }

  lemma ShrMore(a: seq<Word>, k: nat, s: nat, i: nat)
    requires k < i < |a| && s < 32
    ensures ShrQuotient(ValTo(a, i + 1), k, s) ==
            ShrQuotient(ValTo(a, i), k, s) + ShrLow(a[i], s) * Place(i - k - 1) + ShrHigh(a[i], s) * Place(i - k)
  {
    hide Place, Pow2, ShrLow, ShrHigh;
    var m := a[i] * Pow2(32 - s) * Place(i - k - 1);
    ShrParts(a[i], s);
    PlaceNext(i - k - 1);
    ShrDivides(a[i], k, s, i);
    ShlWholeAlgebra(ShrLow(a[i], s), ShrHigh(a[i], s), Place(i - k - 1));
    DivAdd(ValTo(a, i), m, Pow2(s) * Place(k));
  }

  lemma PlaceNext(i: nat)
    ensures Place(i + 1) == BASE * Place(i)
  {
  }

  /** A limb above the shift is a whole number of shifted units. */
  lemma ShrDivides(w: Word, k: nat, s: nat, i: nat)
    requires k < i && s < 32
    ensures w * Place(i) == w * Pow2(32 - s) * Place(i - k - 1) * (Pow2(s) * Place(k))
  {
    hide Place, Pow2;
    var p, q, u, v := Pow2(32 - s), Pow2(s), Place(i - k - 1), Place(k);
    PowAdd(32 - s, s);
    PowWords();
    PlaceAdd(i - k - 1, k);
    PlaceNext(i - 1);
    ShrAlgebra(w, p, q, u, v);
  }

  lemma ShrAlgebra(w: int, p: int, q: int, u: int, v: int)
    ensures w * (p * q * (u * v)) == w * p * u * (q * v)
  {
  }

  lemma ShrEnd(a: seq<Word>, r: seq<Word>, k: nat, s: nat, shift: nat)
    requires |a| == |r| == WIDTH && s < 32 && shift == 32 * k + s && ShrDone(a, r, k, s, WIDTH)
    ensures Val(r) == Val(a) / Pow2(shift)
  {
    hide Place, Pow2;
    PlaceIsPow2(k);
    PowAdd(s, 32 * k);
  }

  // ---------------------------------------------------------------- division

  /** No bit up to and including `shift` is set. */
  ghost predicate ClearTo(r: seq<Word>, shift: nat)
    requires |r| == WIDTH && shift < 32 * WIDTH
  {
    && (forall m :: 0 <= m < shift / 32 ==> r[m] == 0)
    && r[shift / 32] % Pow2(shift % 32 + 1) == 0
  }

  lemma AllClear(r: seq<Word>, shift: nat)
    requires |r| == WIDTH && shift < 32 * WIDTH && forall j :: 0 <= j < WIDTH ==> r[j] == 0
    ensures ClearTo(r, shift)
  {
    hide Pow2;
    ModUnique(0, Pow2(shift % 32 + 1), 0, 0);
  }

  lemma ClearLess(r: seq<Word>, shift: nat)
    requires |r| == WIDTH && 0 < shift < 32 * WIDTH && ClearTo(r, shift)
    ensures ClearTo(r, shift - 1)
  {
    var k, bit := shift / 32, shift % 32;
    if bit == 0 {
      assert (shift - 1) / 32 == k - 1;
      ModUnique(0, Pow2((shift - 1) % 32 + 1), 0, 0);
    } else {
      assert (shift - 1) / 32 == k && (shift - 1) % 32 == bit - 1;
      HalfMultiple(r[k], Pow2(bit));
    }
  }

  lemma HalfMultiple(w: nat, p: nat)
    requires p > 0 && w % (2 * p) == 0
    ensures w % p == 0
  {
    var q := w / (2 * p);
    assert w == q * (2 * p);
    assert q * (2 * p) == (2 * q) * p;
    ModUnique(w, p, 2 * q, 0);
  }

  lemma ClearBitFits(w: Word, bit: nat)
    requires bit < 32 && w % Pow2(bit + 1) == 0
    ensures BitOr(w, Pow2(bit)) == w + Pow2(bit) < BASE
  {
    hide BitOr;
    assert Pow2(bit) < Pow2(bit + 1);
    OrFits(Pow2(bit), w, bit + 1);
  }

  lemma BitSet(was: seq<Word>, now: seq<Word>, shift: nat)
    requires |was| == |now| == WIDTH && shift < 32 * WIDTH && ClearTo(was, shift)
    requires var k := shift / 32; now[k] == was[k] + Pow2(shift % 32) && now == was[k := now[k]]
    ensures Val(now) == Val(was) + Pow2(shift)
    ensures shift > 0 ==> ClearTo(now, shift - 1)
  {
    hide Pow2, Place, ValTo, ClearTo;
    var k, bit := shift / 32, shift % 32;
    ValUpdate(was, k, now[k], WIDTH);
    PlaceIsPow2(k);
    PowAdd(bit, 32 * k);
    if shift > 0 {
      BelowStaysClear(was, now, shift, k, bit);
    }
  }

  lemma BelowStaysClear(was: seq<Word>, now: seq<Word>, shift: nat, k: nat, bit: nat)
    requires |was| == |now| == WIDTH && 0 < shift < 32 * WIDTH && ClearTo(was, shift)
    requires k < WIDTH && bit < 32 && shift == 32 * k + bit
    requires now[k] == was[k] + Pow2(bit) && now == was[k := now[k]]
    ensures ClearTo(now, shift - 1)
  {
    hide Pow2;
    ModUnique(shift, 32, k, bit);
    if bit == 0 {
      ModUnique(shift - 1, 32, k - 1, 31);
      ModUnique(0, Pow2(32), 0, 0);
    } else {
      ModUnique(shift - 1, 32, k, bit - 1);
      PowNext(bit);
      HalfMultiple(was[k], Pow2(bit));
      PlusMultiple(was[k], Pow2(bit));
    }
  }

  lemma PlusMultiple(w: nat, p: nat)
    requires p > 0 && w % p == 0
    ensures (w + p) % p == 0
  {
    ModAdd(w + p, w, 1, p);
  }

  lemma SmallerNumerator(n: nat, d: nat, numBits: nat, divBits: nat)
    requires n < Pow2(numBits) && 0 < divBits && Pow2(divBits - 1) <= d && divBits > numBits
    ensures n / d == 0
  {
    PowGrows(numBits, divBits - 1);
    ModUnique(n, d, 0, n);
  }

  /** Aligned with the numerator the divisor still fits, and twice it exceeds the numerator. */
  lemma DivStart(n: nat, d: nat, numBits: nat, divBits: nat)
    requires n < Pow2(numBits) && 0 < divBits <= numBits <= 32 * WIDTH && Pow2(divBits - 1) <= d < Pow2(divBits)
    ensures var shift := numBits - divBits;
            && d * Pow2(shift) % Modulus() == Pow2(shift) * d
            && n < Pow2(shift + 1) * d
  {
    hide Place, Pow2;
    var shift := numBits - divBits;
    PowAdd(shift, divBits);
    PowAdd(shift + 1, divBits - 1);
    PlaceIsPow2(WIDTH);
    PowGrows(numBits, 32 * WIDTH);
    MulMono(d, Pow2(divBits) - 1, Pow2(shift));
    MulMono(Pow2(divBits - 1), d, Pow2(shift + 1));
    Aligned(d, Pow2(shift), Pow2(divBits), Modulus());
  }

  lemma Aligned(d: nat, p: nat, q: nat, m: nat)
    requires d < q && p * q <= m && p > 0
    ensures d * p % m == p * d
  {
    MulMono(d + 1, q, p);
    assert (d + 1) * p == d * p + p;
    ModUnique(d * p, m, 0, d * p);
  }

  lemma DivStep(num: nat, q: nat, d: nat, shift: nat)
    requires num < Pow2(shift + 1) * d
    ensures num - Pow2(shift) * d + (q + Pow2(shift)) * d == num + q * d
    ensures num - Pow2(shift) * d < Pow2(shift) * d
  {
  }

  lemma NoBorrow(x: nat, y: nat, m: nat)
    requires y <= x < m
    ensures (x - y) % m == x - y
  {
  }

  lemma HalvePow(shift: nat, d: nat)
    ensures shift > 0 ==> Pow2(shift) * d / 2 == Pow2(shift - 1) * d
  {
  }

  lemma PowOne()
    ensures Pow2(1) == 2 && Pow2(0) == 1
  {
  }

  lemma DivEnd(n: nat, d: nat, q: nat, rest: nat)
    requires rest + q * d == n && rest < Pow2(0) * d
    ensures d > 0 && n / d == q
  {
    ModUnique(n, d, q, rest);
  }

  // ---------------------------------------------------------------- compact form

  /** What a compact number stands for, sign aside. */
  function CompactValue(c: Word): nat {
    var size, word := c / 0x100_0000, c % 0x80_0000;
    Decoded(size, word)
  }

  function Decoded(size: nat, word: nat): nat {
    if size <= 3 then
      Quotient(word, Pow2(8 * (3 - size)));
      word / Pow2(8 * (3 - size))
    else word * Pow2(8 * (size - 3))
  }

  lemma SmallWord(word: nat, size: nat)
    requires size <= 3 && word < 0x80_0000
    ensures word / Pow2(8 * (3 - size)) <= word < BASE <= Modulus()
  {
    hide Place, Pow2;
    Quotient(word, Pow2(8 * (3 - size)));
    PlaceIsPow2(WIDTH);
    PowGrows(32, 32 * WIDTH);
    PowWords();
  }

  lemma SmallDecoded(word: nat, size: nat)
    requires size <= 3 && word < 0x80_0000
    ensures Decoded(size, word) == word / Pow2(8 * (3 - size)) < BASE * BASE
    ensures Decoded(size, word) < Modulus() && Decoded(size, word) % Modulus() == Decoded(size, word)
  {
    hide Pow2, Modulus;
    SmallWord(word, size);
    NoBorrow(Decoded(size, word), 0, Modulus());
  }

  lemma LargeDecoded(word: nat, size: nat)
    requires size > 3 && word < 0x80_0000
    ensures Decoded(size, word) == word * Pow2(8 * (size - 3)) && (Decoded(size, word) == 0 <==> word == 0)
    ensures Decoded(size, word) >= Modulus() <==>
            word != 0 && (size > 34 || (word > 0xff && size > 33) || (word > 0xffff && size > 32))
  {
    hide Pow2, Modulus;
    CompactOverflow(word, size);
    if word > 0 {
      MulPositive(word, Pow2(8 * (size - 3)));
    }
  }

  lemma CompactOverflow(word: nat, size: nat)
    requires size > 3 && word < 0x80_0000
    ensures word * Pow2(8 * (size - 3)) >= Modulus() <==>
            word != 0 && (size > 34 || (word > 0xff && size > 33) || (word > 0xffff && size > 32))
  {
    hide Place, Pow2;
    PlaceIsPow2(WIDTH);
    PowWords();
    if size >= 35 {
      PowGrows(256, 8 * (size - 3));
      if word > 0 {
        MulMono(1, word, Pow2(8 * (size - 3)));
      }
    } else {
      var room := 280 - 8 * size;
      PowAdd(room, 8 * (size - 3));
      Threshold(word, Pow2(room), Pow2(8 * (size - 3)));
      if size == 34 {
        assert room == 8;
      } else if size == 33 {
        assert room == 16;
      } else {
        PowGrows(24, room);
        PowAdd(16, 8);
      }
    }
  }

  lemma Threshold(w: nat, a: nat, p: nat)
    requires p > 0
    ensures w * p >= a * p <==> w >= a
  {
  }

  /** The leading three bytes, before the sign bit is cleared. */
  function Mantissa(v: nat, size: nat): int {
    if size <= 3 then v * Pow2(8 * (3 - size)) else v / Pow2(8 * (size - 3))
  }

  lemma CompactStart(v: nat, bits: nat)
    requires v < Pow2(bits) && (bits > 0 ==> Pow2(bits - 1) <= v) && bits <= 256
    ensures var size := (bits + 7) / 8;
            && 0 <= Mantissa(v, size) < 0x100_0000
            && (bits > 0 ==> 0x1_0000 <= Mantissa(v, size))
            && (size <= 3 ==> v < BASE * BASE && v % (BASE * BASE) == v)
            && (size > 3 ==> Mantissa(v, size) % (BASE * BASE) == Mantissa(v, size))
            && (bits == 0 <==> v == 0)
  {
    hide Pow2, Mantissa;
    if (bits + 7) / 8 <= 3 {
      SmallMantissa(v, bits, (bits + 7) / 8);
    } else {
      LargeMantissa(v, bits, (bits + 7) / 8);
    }
  }

  lemma SmallMantissa(v: nat, bits: nat, size: nat)
    requires v < Pow2(bits) && (bits > 0 ==> Pow2(bits - 1) <= v) && size <= 3 && 8 * size - 7 <= bits <= 8 * size
    ensures 0 <= Mantissa(v, size) < 0x100_0000 && (bits > 0 ==> 0x1_0000 <= Mantissa(v, size))
    ensures v < BASE * BASE && v % (BASE * BASE) == v && (bits == 0 <==> v == 0)
  {
    hide Pow2;
    var p := Pow2(8 * (3 - size));
    PowOne();
    PowWords();
    PowAdd(16, 8);
    PowGrows(bits, 8 * size);
    PowGrows(8 * size, 32);
    PowAdd(8 * size, 8 * (3 - size));
    ProductBelow(v, p, Pow2(8 * size));
    if bits > 0 {
      PowGrows(8 * (size - 1), bits - 1);
      PowAdd(8 * (size - 1), 8 * (3 - size));
      MulMono(Pow2(8 * (size - 1)), v, p);
    }
  }

  lemma ProductBelow(v: nat, p: nat, q: nat)
    requires v < q && p > 0
    ensures 0 <= v * p < q * p
  {
  }

  lemma LargeMantissa(v: nat, bits: nat, size: nat)
    requires 3 < size && 0 < 8 * size - 7 <= bits <= 8 * size && Pow2(bits - 1) <= v < Pow2(bits)
    ensures 0x1_0000 <= Mantissa(v, size) < 0x100_0000 && Mantissa(v, size) % (BASE * BASE) == Mantissa(v, size)
    ensures v > 0
  {
    hide Pow2;
    var p := Pow2(8 * (size - 3));
    PowWords();
    PowAdd(16, 8);
    PowGrows(bits, 8 * size);
    PowAdd(24, 8 * (size - 3));
    PowAdd(16, 8 * (size - 3));
    PowGrows(8 * (size - 1), bits - 1);
    QuotientRange(v, p, Pow2(16), Pow2(24));
  }

  lemma QuotientRange(v: nat, p: nat, lo: nat, hi: nat)
    requires p > 0 && lo * p <= v < hi * p
    ensures lo <= v / p < hi
  {
    DivBounds(v, p);
    MulLess(v / p, hi, p);
    MulLess(lo, v / p + 1, p);
  }

  /** The number of bits the compact form clears. */
  lemma CompactCut(v: nat, size: nat) returns (e: nat)
    requires 0 <= Mantissa(v, size) < 0x100_0000 && (v > 0 ==> 0x1_0000 <= Mantissa(v, size))
    requires v == 0 ==> size == 0
    ensures var m := Mantissa(v, size);
            var value := if m / 0x80_0000 % 2 == 1 then Decoded(size + 1, m / 0x100) else Decoded(size, m);
            value == v / Pow2(e) * Pow2(e) && (e == 0 || v / Pow2(e) >= 0x8000)
  {
    hide Pow2;
    var m := Mantissa(v, size);
    PowWords();
    PowOne();
    if m / 0x80_0000 % 2 == 1 {
      if size <= 2 {
        e := 0;
        PowAdd(8 * (2 - size), 8);
        var p := Pow2(8 * (2 - size));
        assert v * (p * 0x100) == (v * p) * 0x100;
        ModUnique(v * p, p, v, 0);
      } else {
        e := 8 * (size - 2);
        PowAdd(8 * (size - 3), 8);
        DivTwice(v, Pow2(8 * (size - 3)), 0x100);
      }
    } else if size <= 3 {
      e := 0;
      ModUnique(v * Pow2(8 * (3 - size)), Pow2(8 * (3 - size)), v, 0);
    } else {
      e := 8 * (size - 3);
    }
  }

  lemma CompactParts(c: Word, size: nat, m: nat, sign: bool)
    requires m < 0x80_0000 && size < 256 && c == m + size * 0x100_0000 + (if sign then 0x80_0000 else 0)
    ensures CompactValue(c) == Decoded(size, m) && c % 0x80_0000 == m && (c / 0x80_0000 % 2 == 1 <==> sign)
  {
    hide Decoded;
  }

  // ---------------------------------------------------------------- limbs of small numbers

  lemma BigLimb(s: seq<Word>, i: nat)
    requires |s| == WIDTH && 2 <= i < WIDTH && s[i] != 0
    ensures Val(s) >= BASE * BASE
  {
    var t := HighPart(s, i, i + 1);
    var u := HighPart(s, i + 1, WIDTH);
    PlaceAdd(2, i - 2);
    assert Place(2) == BASE * Place(1) && Place(1) == BASE * Place(0);
    assert ValTo(s, i + 1) == ValTo(s, i) + s[i] * Place(i);
    MulMono(1, s[i], Place(i));
    MulMono(1, Place(i - 2), Place(2));
  }

  lemma TwoLimbsValue(s: seq<Word>, b: nat)
    requires |s| == WIDTH && b < BASE * BASE && forall j :: 2 <= j < WIDTH ==> s[j] == 0
    ensures Val(s) == b <==> s[1] == b / BASE && s[0] == b % BASE
  {
    Low64(s);
    ValZeroes(s, 2, WIDTH);
    ValBound(s, 2);
    assert Place(2) == BASE * Place(1) && Place(1) == BASE * Place(0);
    assert ValTo(s, 2) == s[0] + s[1] * BASE;
    ModUnique(s[0] + s[1] * BASE, BASE, s[1], s[0]);
  }

  lemma Low64(s: seq<Word>)
    requires |s| == WIDTH
    ensures s[0] + s[1] * BASE == Val(s) % (BASE * BASE)
    ensures ValTo(s, 2) == s[0] + s[1] * BASE
  {
    assert Place(2) == BASE * Place(1) && Place(1) == BASE * Place(0);
    assert ValTo(s, 1) == ValTo(s, 0) + s[0] * Place(0);
    assert ValTo(s, 2) == ValTo(s, 1) + s[1] * Place(1);
    var t := HighPart(s, 2, WIDTH);
    ModUnique(Val(s), BASE * BASE, t, s[0] + s[1] * BASE);
  }

  // ---------------------------------------------------------------- block proof

  /** GetBlockProof: exactly floor(2^256 / (target + 1)) for every target it does not reject. */
  method GetBlockProof(nBits: Word) returns (r: BaseUint)
    ensures r.Valid()
    ensures var target := CompactValue(nBits);
            r.Value() == if nBits / 0x80_0000 % 2 == 1 || target >= Modulus() || target == 0 then 0
                else Modulus() / (target + 1)
  {
    hide Place, Pow2, ValTo, CompactValue, Modulus;
    var bnTarget := new BaseUint(0);
    var fNegative, fOverflow := bnTarget.SetCompact(nBits);
    var zero := bnTarget.EqualTo(0);
    ghost var t := CompactValue(nBits);
    if t < Modulus() {
      NoBorrow(t, 0, Modulus());
    }
    if fNegative || fOverflow || zero {
      r := new BaseUint(0);
      return;
    }
    TargetFits(nBits);
    r := ProofOf(bnTarget);
  }

  /** The last line of GetBlockProof: ~target / (target + 1) + 1. */
  method ProofOf(bnTarget: BaseUint) returns (r: BaseUint)
    requires bnTarget.Valid() && 0 < bnTarget.Value() && bnTarget.Value() + 1 < Modulus()
    ensures fresh(r) && r.Valid() && r.Value() == Modulus() / (bnTarget.Value() + 1)
  {
    hide Place, Pow2, ValTo, Modulus;
    ghost var t := bnTarget.Value();
    r := bnTarget.Complement();
    var one := new BaseUint(1);
    var divisor := new BaseUint.Copy(bnTarget);
    divisor.AddAssign(one);
    NoBorrow(t + 1, 0, Modulus());
    var ok := r.DivAssign(divisor);
    r.AddAssign(one);
    ProofIdentity(t, Modulus());
  }

  /** A target and one more never wrap. */
  lemma TargetFits(c: Word)
    requires CompactValue(c) < Modulus()
    ensures CompactValue(c) + 1 < Modulus() && Modulus() > 2
  {
    hide Pow2, Modulus, Decoded;
    var size, word := c / 0x100_0000, c % 0x80_0000;
    EvenModulus();
    if size <= 3 {
      SmallDecoded(word, size);
      SmallWord(word, size);
    } else {
      LargeDecoded(word, size);
      EvenTarget(word, size);
    }
  }

  lemma EvenModulus()
    ensures Modulus() % 2 == 0 && Modulus() > BASE
  {
    hide Pow2, Place;
    PlaceIsPow2(WIDTH);
    PowWords();
    PowGrows(33, 256);
    PowNext(32);
    PowNext(255);
  }

  lemma EvenTarget(word: nat, size: nat)
    requires size > 3
    ensures word * Pow2(8 * (size - 3)) % 2 == 0
  {
    hide Pow2;
    var k := 8 * (size - 3) - 1;
    PowNext(k);
    EvenProduct(word, Pow2(k));
  }

  lemma EvenProduct(w: nat, h: nat)
    ensures w * (2 * h) % 2 == 0
  {
    assert w * (2 * h) == 2 * (w * h);
  }

  lemma ProofIdentity(t: nat, m: nat)
    requires 0 < t && t + 1 < m
    ensures ((m - 1 - t) / (t + 1) + 1) % m == m / (t + 1)
  {
    var d := t + 1;
    DivAdd(m - d, 1, d);
    DivBounds(m, d);
    MulMono(2, d, m / d);
    ModUnique(m / d, m, 0, m / d);
  }
}
