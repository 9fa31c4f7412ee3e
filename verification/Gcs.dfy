/** Golomb-coded sets, the block filters of BIP 158. */
module Gcs {
  import opened Arithmetic
  import opened Common
  import opened ArithSpec
  import opened BitStream

  const MAX_SIZE := 0x1000_0000
  const TWO64: int := 0x1_0000_0000_0000_0000

  type U64 = x: int | 0 <= x < 0x1_0000_0000_0000_0000

  // ---------------------------------------------------------------- mapping into a range

  function HighWord(x: nat): nat { x / BASE }

  function LowWord(x: nat): nat { x % BASE }

  /** The upper half of a 128-bit product from four 32-bit ones; nothing overflows 64 bits. */
  lemma UpperHalf(x: U64, n: U64)
    ensures var a, b, c, d := HighWord(x), LowWord(x), HighWord(n), LowWord(n);
            var mid34 := b * d / BASE + b * c % BASE + a * d % BASE;
            && a * c < TWO64 && a * d < TWO64 && b * c < TWO64 && b * d < TWO64 && mid34 < TWO64
            && a * c + b * c / BASE + a * d / BASE + mid34 / BASE == x * n / TWO64
            && 0 <= x * n / TWO64 < TWO64
  {
    var a, b, c, d := x / BASE, x % BASE, n / BASE, n % BASE;
    LimbProduct(a, c);
    LimbProduct(a, d);
    LimbProduct(b, c);
    LimbProduct(b, d);
    Product(a, b, c, d);
    UpperSum(a * c, a * d, b * c, b * d, x * n);
    Below(x, n);
  }

  lemma LimbProduct(a: nat, b: nat)
    requires a < BASE && b < BASE
    ensures 0 <= a * b < TWO64
  {
    MulMono(0, a, b);
    MulMono(a, BASE - 1, b);
  }

  lemma Product(a: int, b: int, c: int, d: int)
    ensures (a * BASE + b) * (c * BASE + d) == a * c * TWO64 + (a * d + b * c) * BASE + b * d
  {
  }

  lemma UpperSum(ac: nat, ad: nat, bc: nat, bd: nat, product: int)
    requires product == ac * TWO64 + (ad + bc) * BASE + bd && bd < TWO64
    ensures var mid34 := bd / BASE + bc % BASE + ad % BASE;
            mid34 < TWO64 && ac + bc / BASE + ad / BASE + mid34 / BASE == product / TWO64
  {
  }

  lemma Below(x: U64, n: U64)
    ensures 0 <= x * n / TWO64 < TWO64
  {
    if n == 0 {
    } else {
      ScaleBelow(x, n, TWO64);
    }
  }

  /** MapIntoRange on machines without 128-bit integers: floor(x n / 2^64). */
  method MapIntoRange(x: U64, n: U64) returns (r: U64)
    ensures r == x * n / TWO64
  {
    hide HighWord, LowWord;
    UpperHalf(x, n);
    var x_hi, x_lo, n_hi, n_lo := HighWord(x), LowWord(x), HighWord(n), LowWord(n);
    var ac: U64 := x_hi * n_hi;
    var ad: U64 := x_hi * n_lo;
    var bc: U64 := x_lo * n_hi;
    var bd: U64 := x_lo * n_lo;
    var mid34: U64 := bd / BASE + bc % BASE + ad % BASE;
    r := ac + bc / BASE + ad / BASE + mid34 / BASE;
  }

  // ---------------------------------------------------------------- Golomb-Rice codes

  function Ones(n: nat): (r: seq<bool>)
    ensures |r| == n
  {
    seq(n, _ => true)
  }

  /** The quotient in unary, a zero, and the remainder in P bits. */
  function Golomb(x: nat, p: nat): seq<bool> {
    Ones(Shr(x, p)) + [false] + ToBits(x, p)
  }

  function LeadingOnes(bits: seq<bool>): (k: nat)
    ensures k <= |bits| && (forall i :: 0 <= i < k ==> bits[i]) && (k < |bits| ==> !bits[k])
  {
    if bits == [] || !bits[0] then 0 else 1 + LeadingOnes(bits[1..])
  }

  datatype Parsed = Fail | Got(x: nat, rest: seq<bool>)

  /** What a decoder makes of any bits. Remainders of more than 64 bits are refused by the stream. */
  function Parse(bits: seq<bool>, p: nat): Parsed {
    var q := LeadingOnes(bits);
    if q == |bits| || p > 64 then Fail else
    var after := bits[q + 1..];
    if |after| < p then Fail else Got((Shl(q, p) + FromBits(after[..p])) % TWO64, after[p..])
  }

  /** A code followed by anything decodes to its number and leaves the rest. */
  lemma ParseGolomb(x: U64, p: nat, rest: seq<bool>)
    requires p <= 64
    ensures Parse(Golomb(x, p) + rest, p) == Got(x, rest)
  {
    hide ToBits, FromBits, Pow2, Shr, Shl;
    var bits, q := Golomb(x, p) + rest, Shr(x, p);
    assert LeadingOnes(bits) == q by {
      var k := LeadingOnes(bits);
      assert !bits[q];
      assert forall i :: 0 <= i < q ==> bits[i];
    }
    var after := bits[q + 1..];
    assert after == ToBits(x, p) + rest;
    assert after[..p] == ToBits(x, p) && after[p..] == rest;
    FromToBits(x, p);
    Rejoined(x, p);
  }

  lemma Rejoined(x: U64, p: nat)
    ensures (Shl(Shr(x, p), p) + Low(x, p)) % TWO64 == x
  {
    hide Pow2;
    Parted(x, Pow2(p));
  }

  lemma Parted(x: nat, q: nat)
    requires q > 0
    ensures x / q * q + x % q == x
  {
  }

  lemma {:induction false} AllOnes(k: nat, n: nat)
    requires n <= k
    ensures ToBits(Pow2(k) - 1, n) == Ones(n)
    decreases n
  {
    if n > 0 {
      assert (Pow2(k) - 1) / 2 == Pow2(k - 1) - 1;
      AllOnes(k - 1, n - 1);
    }
  }

  /** The unary quotient, up to 64 ones at a time. */
  method WriteOnes(bitwriter: BitStreamWriter, n: nat)
    requires bitwriter.Valid()
    modifies bitwriter
    ensures bitwriter.Valid() && old(bitwriter.out) <= bitwriter.out
    ensures bitwriter.Written() == old(bitwriter.Written()) + Ones(n)
  {
    hide ToBits, BytesBits, Pow2, Ones, BitStreamWriter.Written, BitStreamWriter.Valid;
    ghost var start := bitwriter.Written();
    OnesMore(start, 0, 0);
    var q := n;
    while q > 0
      invariant bitwriter.Valid() && old(bitwriter.out) <= bitwriter.out
      invariant 0 <= q <= n && bitwriter.Written() == start + Ones(n - q)
    {
      var nbits := if q <= 64 then q else 64;
      PowWords();
      AllOnes(64, nbits);
      OnesMore(start, n - q, nbits);
      var ok := bitwriter.Write(TWO64 - 1, nbits);
      q := q - nbits;
    }
  }

  lemma OnesMore(s: seq<bool>, a: nat, b: nat)
    ensures (s + Ones(a)) + Ones(b) == s + Ones(a + b) && s + Ones(0) == s
  {
  }

  /** Fails, as the stream does, exactly for remainders of more than 64 bits. */
  method GolombRiceEncode(bitwriter: BitStreamWriter, p: nat, x: U64) returns (ok: bool)
    requires bitwriter.Valid()
    modifies bitwriter
    ensures bitwriter.Valid() && old(bitwriter.out) <= bitwriter.out && (ok <==> p <= 64)
    ensures ok ==> bitwriter.Written() == old(bitwriter.Written()) + Golomb(x, p)
  {
    hide ToBits, BytesBits, Pow2, Shr, Ones;
    ghost var start := bitwriter.Written();
    WriteOnes(bitwriter, Shr(x, p));
    OneZero();
    ghost var unary := Ones(Shr(x, p));
    ok := bitwriter.Write(0, 1);
    assert bitwriter.Written() == start + unary + [false];
    ok := bitwriter.Write(x, p);
    if !ok {
      return;
    }
    assert bitwriter.Written() == start + unary + [false] + ToBits(x, p);
    assert start + unary + [false] + ToBits(x, p) == start + (unary + [false] + ToBits(x, p));
  }

  lemma OneZero()
    ensures ToBits(0, 1) == [false]
  {
  }

  method GolombRiceDecode(bitreader: BitStreamReader, p: nat) returns (ok: bool, x: nat)
    requires bitreader.Valid()
    modifies bitreader
    ensures bitreader.Valid()
    ensures match Parse(old(bitreader.Remaining()), p)
            case Fail => !ok
            case Got(y, rest) => ok && x == y && bitreader.Remaining() == rest && bitreader.offset > 0
  {
    hide ToBits, FromBits, BytesBits, Pow2, Shl;
    ghost var all := bitreader.Remaining();
    var q := 0;
    var more, bit := bitreader.Read(1);
    while more && bit == 1
      invariant bitreader.Valid() && q <= LeadingOnes(all)
      invariant more ==>
                  && q < |all| && bit == FromBits(all[q..][..1])
                  && bitreader.Remaining() == all[q + 1..] && bitreader.offset > 0
      invariant !more ==> q == |all|
      decreases |all| - q
    {
      OneBit(all, q);
      q := q + 1;
      more, bit := bitreader.Read(1);
    }
    if !more {
      return false, 0;
    }
    OneBit(all, q);
    var r;
    ok, r := bitreader.Read(p);
    x := (Shl(q, p) + r) % TWO64;
  }

  lemma OneBit(all: seq<bool>, q: nat)
    requires q < |all| && q <= LeadingOnes(all)
    ensures FromBits(all[q..][..1]) == (if all[q] then 1 else 0)
    ensures all[q] ==> q + 1 <= LeadingOnes(all)
    ensures !all[q] ==> q == LeadingOnes(all)
  {
  }

  datatype List = Short | Values(s: seq<U64>)

  /** The running sums, modulo 2^64, of the next `n` codes of any bits. */
  function Decoded(bits: seq<bool>, n: nat, p: nat, last: U64): List {
    if n == 0 then Values([]) else
    match Parse(bits, p)
    case Fail => Short
    case Got(x, rest) =>
      var v: U64 := (last + x) % TWO64;
      match Decoded(rest, n - 1, p, v)
      case Short => Short
      case Values(s) => Values([v] + s)
  }

  /** The codes of a list decode to exactly that list. */
  lemma {:induction false} CodesDecoded(values: seq<U64>, i: nat, p: nat, pad: seq<bool>)
    requires i <= |values| && Ascending(values) && (p <= 64 || values == [])
    ensures Decoded(Codes(values, i, p) + pad, |values| - i, p, Before(values, i)) == Values(values[i..])
    decreases |values| - i
  {
    hide Golomb, Parse, Codes;
    if i < |values| {
      NextCode(values, i, p, pad);
      CodesDecoded(values, i + 1, p, pad);
      assert values[i..] == [values[i]] + values[i + 1..];
    }
  }

  /** A list can be decoded exactly when its codes can be skipped. */
  lemma {:induction false} DecodedIffSkipped(bits: seq<bool>, n: nat, p: nat, last: U64)
    ensures Decoded(bits, n, p, last).Short? <==> Skipped(bits, n, p).Fail?
    ensures Decoded(bits, n, p, last).Values? ==> |Decoded(bits, n, p, last).s| == n
    decreases n
  {
    hide Parse;
    if n > 0 && Parse(bits, p).Got? {
      var got := Parse(bits, p);
      DecodedIffSkipped(got.rest, n - 1, p, (last + got.x) % TWO64);
    }
  }

  // ---------------------------------------------------------------- lists of codes

  ghost predicate Ascending(s: seq<U64>) {
    forall i, j :: 0 <= i < j < |s| ==> s[i] <= s[j]
  }

  function Before(values: seq<U64>, i: nat): U64
    requires i <= |values|
  {
    if i == 0 then 0 else values[i - 1]
  }

  function Difference(values: seq<U64>, i: nat): U64
    requires i < |values| && Ascending(values)
  {
    values[i] - Before(values, i)
  }

  /** The codes of the differences up to and from a position of a list. */
  function CodesTo(values: seq<U64>, n: nat, p: nat): seq<bool>
    requires n <= |values| && Ascending(values)
  {
    if n == 0 then [] else CodesTo(values, n - 1, p) + Golomb(Difference(values, n - 1), p)
  }

  function Codes(values: seq<U64>, i: nat, p: nat): seq<bool>
    requires i <= |values| && Ascending(values)
    decreases |values| - i
  {
    if i == |values| then [] else Golomb(Difference(values, i), p) + Codes(values, i + 1, p)
  }

  lemma {:induction false} CodesSplit(values: seq<U64>, i: nat, p: nat)
    requires i <= |values| && Ascending(values)
    ensures Codes(values, 0, p) == CodesTo(values, i, p) + Codes(values, i, p)
  {
    hide Golomb;
    if i > 0 {
      CodesSplit(values, i - 1, p);
    }
  }

  /** What is left of any bits after `n` codes. */
  function Skipped(bits: seq<bool>, n: nat, p: nat): Parsed {
    if n == 0 then Got(0, bits) else
    match Parse(bits, p)
    case Fail => Fail
    case Got(_, rest) => Skipped(rest, n - 1, p)
  }

  lemma {:induction false} CodesSkipped(values: seq<U64>, i: nat, p: nat, pad: seq<bool>)
    requires i <= |values| && Ascending(values) && (p <= 64 || values == [])
    ensures Skipped(Codes(values, i, p) + pad, |values| - i, p) == Got(0, pad)
    decreases |values| - i
  {
    hide Golomb, Parse;
    if i < |values| {
      var rest := Codes(values, i + 1, p) + pad;
      assert Codes(values, i, p) + pad == Golomb(Difference(values, i), p) + rest;
      ParseGolomb(Difference(values, i), p, rest);
      CodesSkipped(values, i + 1, p, pad);
    } else {
      assert Codes(values, i, p) + pad == pad;
    }
  }

  // ---------------------------------------------------------------- sizes

  function LittleEndian(n: nat, k: nat): (r: seq<Byte>)
    ensures |r| == k
  {
    if k == 0 then [] else [n % 256] + LittleEndian(n / 256, k - 1)
  }

  function FromLittleEndian(s: seq<Byte>): nat {
    if s == [] then 0 else s[0] + 256 * FromLittleEndian(s[1..])
  }

  lemma {:induction false} LittleEndianBack(n: nat, k: nat)
    requires n < Pow2(8 * k)
    ensures FromLittleEndian(LittleEndian(n, k)) == n
  {
    if k > 0 {
      PowWords();
      PowAdd(8, 8 * (k - 1));
      LittleEndianBack(n / 256, k - 1);
      assert LittleEndian(n, k)[1..] == LittleEndian(n / 256, k - 1);
    }
  }

  /** Byte `i` has the weight 256^i. */
  lemma {:induction false} LittleEndianAt(n: nat, k: nat, i: nat)
    requires i < k
    ensures LittleEndian(n, k)[i] == Shr(n, 8 * i) % 256
    decreases k
  {
    PowWords();
    if i == 0 {
      PowZero();
    } else {
      LittleEndianAt(n / 256, k - 1, i - 1);
      PowAdd(8, 8 * (i - 1));
      DivTwice(n, 256, Pow2(8 * (i - 1)));
    }
  }

  lemma {:induction false} LittleEndianUnique(s: seq<Byte>)
    ensures LittleEndian(FromLittleEndian(s), |s|) == s
  {
    if s != [] {
      LittleEndianUnique(s[1..]);
      ModUnique(FromLittleEndian(s), 256, FromLittleEndian(s[1..]), s[0]);
    }
  }

  function WriteCompactSize(n: nat): seq<Byte> {
    if n < 253 then [n]
    else if n <= 0xFFFF then [253] + LittleEndian(n, 2)
    else if n <= 0xFFFF_FFFF then [254] + LittleEndian(n, 4)
    else [255] + LittleEndian(n, 8)
  }

  datatype CompactRead = Refused | Size(n: nat, used: nat)

  /** The size and where the stream goes on; a short, non-canonical or oversize one is refused. */
  function ReadCompactSize(s: seq<Byte>): (r: CompactRead)
    ensures r.Size? ==> r.used <= |s|
  {
    if s == [] then Refused else
    var k := if s[0] < 253 then 0 else if s[0] == 253 then 2 else if s[0] == 254 then 4 else 8;
    if |s| < 1 + k then Refused else
    var n := if k == 0 then s[0] else FromLittleEndian(s[1..1 + k]);
    if (k == 2 && n < 253) || (k == 4 && n < 0x1_0000) || (k == 8 && n < 0x1_0000_0000) then Refused
    else if n > MAX_SIZE then Refused
    else Size(n, 1 + k)
  }

  /** A size reads back exactly when it is not over the limit. */
  lemma CompactSizeBack(n: nat, rest: seq<Byte>)
    requires n < TWO64
    ensures var s := WriteCompactSize(n) + rest;
            ReadCompactSize(s) == if n <= MAX_SIZE then Size(n, |WriteCompactSize(n)|) else Refused
  {
    var w := WriteCompactSize(n);
    var s := w + rest;
    PowWords();
    if n >= 253 {
      var k := if n <= 0xFFFF then 2 else if n <= 0xFFFF_FFFF then 4 else 8;
      assert s[1..1 + k] == LittleEndian(n, k);
      LittleEndianBack(n, k);
    }
  }

  /** Only what the writer writes is accepted. */
  lemma CompactSizeCanonical(s: seq<Byte>)
    requires ReadCompactSize(s).Size?
    ensures var r := ReadCompactSize(s);
            r.n <= MAX_SIZE && s[..r.used] == WriteCompactSize(r.n)
  {
    hide LittleEndian, FromLittleEndian;
    var k := ReadCompactSize(s).used - 1;
    if k > 0 {
      var t := s[1..1 + k];
      LittleEndianUnique(t);
      TwoBytes(t);
    }
  }

  lemma TwoBytes(t: seq<Byte>)
    ensures |t| == 2 ==> FromLittleEndian(t) <= 0xFFFF
  {
    if |t| == 2 {
      assert t[1..][1..] == [];
      assert FromLittleEndian(t[1..]) == t[1];
    }
  }

  // ---------------------------------------------------------------- the filter

  class GCSFilter<Element(==,!new)> {
    const siphash: Element -> U64
    const P: nat
    const M: Word
    var N: Word
    var F: U64
    var encoded: seq<Byte>

    /** The filter is the encoding of the ascending list `values`. */
    ghost predicate Holds(values: seq<U64>)
      reads this
    {
      && (P <= 64 || values == []) && N == |values| && Ascending(values)
      && WriteCompactSize(N) <= encoded
      && exists pad :: 0 <= pad < 8 && BytesBits(encoded[|WriteCompactSize(N)|..]) == Codes(values, 0, P) + Zeroes(pad)
    }

    /** Whatever bytes the filter came from, it decodes to the list `values`. */
    ghost predicate Lists(values: seq<U64>)
      reads this
    {
      match ReadCompactSize(encoded)
      case Refused => false
      case Size(n, used) => n == N && Decoded(BytesBits(encoded[used..]), N, P, 0) == Values(values)
    }

    /** A built filter decodes to exactly the list it was built from, unless its size is refused. */
    lemma HeldIsListed(values: seq<U64>)
      requires Holds(values)
      ensures Ascending(values) && (Lists(values) <==> N <= MAX_SIZE)
      ensures Lists(values) || ReadCompactSize(encoded).Refused?
    {
      hide Codes, BytesBits, ReadCompactSize, WriteCompactSize, Decoded, Zeroes;
      var pad := HeldBits(values);
      CodesDecoded(values, 0, P, Zeroes(pad));
    }

    constructor (hash: Element -> U64, p: nat, m: Word)
      ensures siphash == hash && P == p && M == m && N == 0 && F == 0 && Holds([])
    {
      siphash, P, M := hash, p, m;
      N, F, encoded := 0, 0, [0];
      new;
      assert encoded[1..] == [];
      assert BytesBits(encoded[|WriteCompactSize(N)|..]) == Codes([], 0, P) + Zeroes(0);
    }

    function RangeOf(e: Element): U64
      reads this`F
    {
      Below(siphash(e), F);
      siphash(e) * F / TWO64
    }

    method HashToRange(e: Element) returns (r: U64)
      ensures r == RangeOf(e)
    {
      r := MapIntoRange(siphash(e), F);
    }

    /** The elements that hash to a value. */
    ghost function Hashing(elements: set<Element>, v: nat): set<Element>
      reads this`F
    {
      set e | e in elements && RangeOf(e) == v
    }

    lemma HashingMore(elements: set<Element>, e: Element)
      requires e !in elements
      ensures forall v :: |Hashing(elements + {e}, v)| == |Hashing(elements, v)| + (if RangeOf(e) == v then 1 else 0)
    {
      hide RangeOf;
      forall v
        ensures |Hashing(elements + {e}, v)| == |Hashing(elements, v)| + (if RangeOf(e) == v then 1 else 0)
      {
        assert Hashing(elements + {e}, v) == Hashing(elements, v) + if RangeOf(e) == v then {e} else {};
      }
    }

    /** Every element's value, as often as elements share it, ascending. */
    method BuildHashedSet(elements: set<Element>) returns (r: seq<U64>)
      ensures |r| == |elements| && Ascending(r) && forall v :: v in r <==> exists e :: e in elements && RangeOf(e) == v
      ensures forall v: U64 :: multiset(r)[v] == |Hashing(elements, v)|
    {
      var hashed: seq<U64> := [];
      var todo := elements;
      while todo != {}
        invariant todo <= elements && |hashed| + |todo| == |elements|
        invariant forall v :: v in hashed <==> exists e :: e in elements - todo && RangeOf(e) == v
        invariant forall v: U64 :: multiset(hashed)[v] == |Hashing(elements - todo, v)|
        decreases |todo|
      {
        hide RangeOf, Hashing;
        var e :| e in todo;
        var h := HashToRange(e);
        ghost var before := hashed;
        hashed := hashed + [h];
        assert forall v :: v in hashed <==> v in before || v == h;
        assert elements - (todo - {e}) == (elements - todo) + {e};
        HashingMore(elements - todo, e);
        todo := todo - {e};
      }
      assert elements - todo == elements;
      r := Sort(hashed);
    }

    /** For any readable filter, also one read from arbitrary bytes whose sums wrap: true exactly
        when a query equals a value that none of the values before it exceeds. */
    method MatchInternal(hashes: seq<U64>, ghost values: seq<U64>) returns (readable: bool, found: bool)
      requires (Lists(values) || ReadCompactSize(encoded).Refused?) && Ascending(hashes)
      ensures readable <==> Lists(values)
      ensures readable ==> (found <==> Meet(values, hashes))
    {
      hide BytesBits, Parse, Decoded, Skipped, ReadCompactSize, Apart, Meet, Meets, Ascending;
      var size := ReadCompactSize(encoded);
      if size.Refused? {
        return false, false;
      }
      assert size.n == N;
      var bitreader := new BitStreamReader(encoded[size.used..]);
      ghost var all := bitreader.Remaining();
      DecodedIffSkipped(all, N, P, 0);
      NothingPassed(values, hashes);
      var value: U64, k := 0, 0;
      for i := 0 to N
        invariant bitreader.Valid() && fresh(bitreader) && k <= |hashes| && |values| == N
        invariant Decoded(bitreader.Remaining(), N - i, P, value) == Values(values[i..])
        invariant Apart(values, hashes, i, i, k)
      {
        NextValue(bitreader.Remaining(), N - i, P, value, values[i..]);
        var ok, delta := GolombRiceDecode(bitreader, P);
        value := (value + delta) % TWO64;
        Entered(values, hashes, i, k);
        while true
          modifies {}
          invariant k <= |hashes| && value == values[i]
          invariant Apart(values, hashes, i, i + 1, k)
          decreases |hashes| - k
        {
          if k == |hashes| {
            NoneLeft(values, hashes, i, i + 1, k);
            return true, false;
          } else if hashes[k] == value {
            Found(values, hashes, i, k);
            return true, true;
          } else if hashes[k] > value {
            break;
          }
          Passed(values, hashes, i, k);
          k := k + 1;
        }
        Advanced(values, hashes, i, k);
      }
      NoneLeft(values, hashes, N, N, k);
      return true, false;
    }

    /** Where the codes lie in the encoding. */
    lemma HeldBits(values: seq<U64>) returns (pad: nat)
      requires Holds(values)
      ensures pad < 8
      ensures match ReadCompactSize(encoded)
              case Refused => N > MAX_SIZE
              case Size(n, used) =>
                     n == N <= MAX_SIZE && BytesBits(encoded[used..]) == Codes(values, 0, P) + Zeroes(pad)
    {
      hide Codes, BytesBits, Zeroes, WriteCompactSize, ReadCompactSize;
      var head := WriteCompactSize(N);
      pad :| 0 <= pad < 8 && BytesBits(encoded[|head|..]) == Codes(values, 0, P) + Zeroes(pad);
      CompactSizeBack(N, encoded[|head|..]);
      assert encoded == head + encoded[|head|..];
    }

    method Match(e: Element, ghost values: seq<U64>) returns (readable: bool, found: bool)
      requires Holds(values) || Lists(values)
      ensures readable <==> Lists(values)
      ensures readable ==> (found <==> Meet(values, [RangeOf(e)]))
      ensures Holds(values) ==> (readable <==> N <= MAX_SIZE) && (readable ==> (found <==> RangeOf(e) in values))
    {
      hide Lists, RangeOf, Meet, Holds;
      var query := HashToRange(e);
      if Holds(values) {
        HeldIsListed(values);
        AscendingMeet(values, [query]);
      }
      readable, found := MatchInternal([query], values);
    }

    /** Matching a set is matching one of its members. */
    method MatchAny(elements: set<Element>, ghost values: seq<U64>) returns (readable: bool, found: bool)
      requires Holds(values) || Lists(values)
      ensures readable <==> Lists(values)
      ensures readable ==> (found <==> exists e :: e in elements && Meet(values, [RangeOf(e)]))
      ensures Holds(values) ==>
                && (readable <==> N <= MAX_SIZE)
                && (readable ==> (found <==> exists e :: e in elements && RangeOf(e) in values))
    {
      hide RangeOf, Holds, Lists, Meet;
      var queries := BuildHashedSet(elements);
      if Holds(values) {
        HeldIsListed(values);
        AscendingMeet(values, queries);
      }
      readable, found := MatchInternal(queries, values);
      OneMeets(values, queries);
      assert (exists h :: h in queries && Meet(values, [h])) <==>
               exists e :: e in elements && Meet(values, [RangeOf(e)]) by {
        forall e | e in elements ensures RangeOf(e) in queries {}
      }
    }
  }

  method Sort(s: seq<U64>) returns (r: seq<U64>)
    ensures Ascending(r) && |r| == |s| && (forall v :: v in r <==> v in s) && multiset(r) == multiset(s)
  {
    hide Ascending;
    r := [];
    EmptyAscends();
    for i := 0 to |s|
      invariant Ascending(r) && |r| == i && (forall v :: v in r <==> v in s[..i]) && multiset(r) == multiset(s[..i])
    {
      var k := UpperBound(r, s[i]);
      ghost var before := r;
      r := r[..k] + [s[i]] + r[k..];
      Inserted(before, k, s[i]);
      assert s[..i + 1] == s[..i] + [s[i]];
    }
    assert s[..|s|] == s;
  }

  lemma EmptyAscends()
    ensures Ascending([])
  {
  }

  method UpperBound(r: seq<U64>, x: U64) returns (k: nat)
    ensures k <= |r| && (forall j :: 0 <= j < k ==> r[j] <= x) && (k < |r| ==> x < r[k])
  {
    k := 0;
    while k < |r| && r[k] <= x
      invariant 0 <= k <= |r| && forall j :: 0 <= j < k ==> r[j] <= x
    {
      k := k + 1;
    }
  }

  lemma Inserted(s: seq<U64>, k: nat, x: U64)
    requires k <= |s| && Ascending(s) && (forall j :: 0 <= j < k ==> s[j] <= x) && (k < |s| ==> x < s[k])
    ensures var r := s[..k] + [x] + s[k..];
            Ascending(r) && (forall v :: v in r <==> v in s || v == x) && multiset(r) == multiset(s) + multiset{x}
  {
    hide Ascending;
    InsertedAscends(s, k, x);
    assert s == s[..k] + s[k..];
  }

  lemma InsertedAscends(s: seq<U64>, k: nat, x: U64)
    requires k <= |s| && Ascending(s) && (forall j :: 0 <= j < k ==> s[j] <= x) && (k < |s| ==> x < s[k])
    ensures Ascending(s[..k] + [x] + s[k..])
  {
    var r := s[..k] + [x] + s[k..];
    assert forall i :: 0 <= i < k ==> r[i] == s[i];
    assert forall i :: k < i < |r| ==> r[i] == s[i - 1];
  }

  /** A value that none before it exceeds equals a query. */
  ghost predicate Meets(values: seq<U64>, hashes: seq<U64>, b: nat)
    requires b < |values|
  {
    values[b] in hashes && forall c :: 0 <= c < b ==> values[c] <= values[b]
  }

  ghost predicate Meet(values: seq<U64>, hashes: seq<U64>) {
    exists b: nat :: b < |values| && Meets(values, hashes, b)
  }

  /** In an ascending list no value exceeds a later one. */
  lemma AscendingMeet(values: seq<U64>, hashes: seq<U64>)
    requires Ascending(values)
    ensures Meet(values, hashes) <==> exists v :: v in values && v in hashes
  {
    forall v | v in values && v in hashes
      ensures Meet(values, hashes)
    {
      var b :| 0 <= b < |values| && values[b] == v;
      assert Meets(values, hashes, b);
    }
  }

  /** Meeting several queries is meeting one of them. */
  lemma OneMeets(values: seq<U64>, hashes: seq<U64>)
    ensures Meet(values, hashes) <==> exists h :: h in hashes && Meet(values, [h])
  {
    if Meet(values, hashes) {
      var b: nat :| b < |values| && Meets(values, hashes, b);
      assert Meets(values, [values[b]], b);
    }
    if h :| h in hashes && Meet(values, [h]) {
      var b: nat :| b < |values| && Meets(values, [h], b);
      assert Meets(values, hashes, b);
    }
  }

  ghost predicate Exceeded(values: seq<U64>, h: U64) {
    exists b :: 0 <= b < |values| && h < values[b]
  }

  /** Queries before `k` are below a value before `n`; values before `i` are below all others, and
      none of them meets a query. */
  ghost predicate Apart(values: seq<U64>, hashes: seq<U64>, i: nat, n: nat, k: nat)
    requires i <= n <= |values| && k <= |hashes|
  {
    && (forall a :: 0 <= a < k ==> Exceeded(values[..n], hashes[a]))
    && (forall a, b :: k <= a < |hashes| && 0 <= b < i ==> values[b] < hashes[a])
    && (forall b: nat :: b < i ==> !Meets(values, hashes, b))
  }

  lemma NothingPassed(values: seq<U64>, hashes: seq<U64>)
    ensures Apart(values, hashes, 0, 0, 0)
  {
  }

  lemma Entered(values: seq<U64>, hashes: seq<U64>, i: nat, k: nat)
    requires i < |values| && k <= |hashes| && Apart(values, hashes, i, i, k)
    ensures Apart(values, hashes, i, i + 1, k)
  {
    forall a | 0 <= a < k
      ensures Exceeded(values[..i + 1], hashes[a])
    {
      var b :| 0 <= b < i && hashes[a] < values[..i][b];
      assert hashes[a] < values[..i + 1][b];
    }
  }

  lemma Passed(values: seq<U64>, hashes: seq<U64>, i: nat, k: nat)
    requires i < |values| && k < |hashes| && Apart(values, hashes, i, i + 1, k) && hashes[k] < values[i]
    ensures Apart(values, hashes, i, i + 1, k + 1)
  {
    assert hashes[k] < values[..i + 1][i];
  }

  lemma Found(values: seq<U64>, hashes: seq<U64>, i: nat, k: nat)
    requires i < |values| && k < |hashes| && Apart(values, hashes, i, i + 1, k) && hashes[k] == values[i]
    ensures Meet(values, hashes)
  {
    assert Meets(values, hashes, i);
  }

  /** A query before `k` is met by no value from `i` on. */
  lemma NotLater(values: seq<U64>, hashes: seq<U64>, i: nat, n: nat, k: nat, b: nat)
    requires i <= n <= |values| && n <= i + 1 && k <= |hashes| && Apart(values, hashes, i, n, k) && i <= b < |values|
    requires values[b] in hashes[..k]
    ensures !Meets(values, hashes, b)
  {
    var a :| 0 <= a < k && hashes[a] == values[b];
    var c :| 0 <= c < n && hashes[a] < values[..n][c];
  }

  lemma Advanced(values: seq<U64>, hashes: seq<U64>, i: nat, k: nat)
    requires i < |values| && k < |hashes| && Ascending(hashes) && Apart(values, hashes, i, i + 1, k)
    requires hashes[k] > values[i]
    ensures Apart(values, hashes, i + 1, i + 1, k)
  {
    if values[i] in hashes[..k] {
      NotLater(values, hashes, i, i + 1, k, i);
    }
  }

  lemma NoneLeft(values: seq<U64>, hashes: seq<U64>, i: nat, n: nat, k: nat)
    requires i <= n <= |values| && n <= i + 1 && k <= |hashes| && Apart(values, hashes, i, n, k)
    requires k == |hashes| || i == |values|
    ensures !Meet(values, hashes)
  {
    forall b: nat | b < |values|
      ensures !Meets(values, hashes, b)
    {
      if i <= b {
        assert hashes[..|hashes|] == hashes;
        if values[b] in hashes {
          NotLater(values, hashes, i, n, k, b);
        }
      }
    }
  }

  /** The next code of a list that can be decoded. */
  lemma NextValue(bits: seq<bool>, n: nat, p: nat, last: U64, s: seq<U64>)
    requires n > 0 && Decoded(bits, n, p, last) == Values(s)
    ensures Parse(bits, p).Got? && s != [] && (last + Parse(bits, p).x) % TWO64 == s[0]
    ensures Decoded(Parse(bits, p).rest, n - 1, p, s[0]) == Values(s[1..])
  {
    hide Parse;
  }

  lemma NextCode(values: seq<U64>, i: nat, p: nat, pad: seq<bool>)
    requires i < |values| && Ascending(values) && p <= 64
    ensures Parse(Codes(values, i, p) + pad, p) == Got(values[i] - Before(values, i), Codes(values, i + 1, p) + pad)
  {
    hide Golomb, Parse;
    var rest := Codes(values, i + 1, p) + pad;
    assert Codes(values, i, p) + pad == Golomb(Difference(values, i), p) + rest;
    ParseGolomb(Difference(values, i), p, rest);
  }

  /** The filter of a set of elements; null for 2^32 of them or more, and for remainders of more than
      64 bits unless there are none. */
  method Build<Element(==,!new)>(hash: Element -> U64, p: nat, m: Word, elements: set<Element>)
    returns (r: GCSFilter?<Element>, ghost values: seq<U64>)
    ensures r == null <==> |elements| >= BASE || (p > 64 && elements != {})
    ensures r != null ==>
              && fresh(r) && r.siphash == hash && r.P == p && r.M == m && r.N == |elements| && r.F == r.N * m
              && r.Holds(values) && (forall v :: v in values <==> exists e :: e in elements && r.RangeOf(e) == v)
              && (forall v: U64 :: multiset(values)[v] == |r.Hashing(elements, v)|)
  {
    hide Golomb, BytesBits, WriteCompactSize, Zeroes, Pow2;
    values := [];
    if |elements| >= BASE {
      return null, values;
    }
    var f := new GCSFilter(hash, p, m);
    f.N := |elements|;
    LimbProduct(|elements|, m);
    f.F := f.N * m;
    var head := WriteCompactSize(f.N);
    f.encoded := head;
    if elements == {} {
      NoCodes(p);
      assert f.encoded[|head|..] == [];
      assert BytesBits(f.encoded[|head|..]) == Codes(values, 0, p) + Zeroes(0);
      return f, values;
    }
    var bitwriter := new BitStreamWriter(f.encoded);
    var hashed := f.BuildHashedSet(elements);
    values := hashed;
    var last: U64 := 0;
    assert CodesTo(values, 0, p) == [];
    for i := 0 to |hashed|
      modifies bitwriter
      invariant bitwriter.Valid() && fresh(bitwriter) && head <= bitwriter.out && last == Before(values, i)
      invariant bitwriter.Written() == BytesBits(head) + CodesTo(values, i, p)
      invariant i > 0 ==> p <= 64
    {
      var ok := GolombRiceEncode(bitwriter, p, hashed[i] - last);
      if !ok {
        return null, values;
      }
      assert BytesBits(head) + CodesTo(values, i, p) + Golomb(Difference(values, i), p)
          == BytesBits(head) + (CodesTo(values, i, p) + Golomb(Difference(values, i), p));
      last := hashed[i];
    }
    CodesSplit(values, |values|, p);
    ghost var pad := if bitwriter.offset == 0 then 0 else 8 - bitwriter.offset;
    bitwriter.Flush();
    f.encoded := bitwriter.out;
    TailBits(head, f.encoded, CodesTo(values, |values|, p), pad);
    assert Codes(values, 0, p) == CodesTo(values, |values|, p);
    r := f;
  }

  lemma NoCodes(p: nat)
    ensures Codes([], 0, p) == [] && Zeroes(0) == [] && BytesBits([]) == []
  {
  }

  /** The bytes after the size hold the codes and the padding. */
  lemma TailBits(head: seq<Byte>, out: seq<Byte>, codes: seq<bool>, pad: nat)
    requires head <= out && BytesBits(out) == BytesBits(head) + codes + Zeroes(pad)
    ensures BytesBits(out[|head|..]) == codes + Zeroes(pad)
  {
    hide BytesBits, Zeroes;
    BytesConcat(head, out[|head|..]);
    assert out == head + out[|head|..];
    assert BytesBits(out)[8 * |head|..] == codes + Zeroes(pad);
    assert BytesBits(out)[8 * |head|..] == BytesBits(out[|head|..]);
  }

  /** A filter read from bytes; null unless they are a size and exactly that many codes, padded to
      a byte. */
  method ReadFilter<Element(==,!new)>(hash: Element -> U64, p: nat, m: Word, bytes: seq<Byte>)
    returns (r: GCSFilter?<Element>)
    ensures r != null <==>
              match ReadCompactSize(bytes)
              case Refused => false
              case Size(n, used) => match Skipped(BytesBits(bytes[used..]), n, p)
                                    case Fail => false
                                    case Got(_, rest) => |rest| < 8
    ensures r != null ==>
              && r.encoded == bytes && r.siphash == hash && r.P == p && r.M == m
              && r.N == ReadCompactSize(bytes).n && r.F == r.N * m
    ensures r != null ==> exists values :: r.Lists(values)
  {
    hide BytesBits, Parse;
    var size := ReadCompactSize(bytes);
    if size.Refused? {
      return null;
    }
    var f := new GCSFilter(hash, p, m);
    LimbProduct(size.n, m);
    f.N := size.n;
    f.F := f.N * m;
    f.encoded := bytes;
    var bitreader := new BitStreamReader(bytes[size.used..]);
    ghost var all := bitreader.Remaining();
    for i := 0 to f.N
      modifies bitreader
      invariant bitreader.Valid() && fresh(bitreader)
      invariant Skipped(all, f.N, p) == Skipped(bitreader.Remaining(), f.N - i, p)
      invariant i > 0 ==> bitreader.offset > 0
      invariant i == 0 ==> bitreader.offset == 8
    {
      var ok, x := GolombRiceDecode(bitreader, p);
      if !ok {
        return null;
      }
    }
    if bitreader.rest != [] {
      LeftOver(bitreader.rest);
      return null;
    }
    LeftOver(bitreader.rest);
    DecodedIffSkipped(all, f.N, p, 0);
    r := f;
    assert r.Lists(Decoded(all, f.N, p, 0).s);
  }

  lemma LeftOver(rest: seq<Byte>)
    ensures |BytesBits(rest)| == 8 * |rest|
  {
  }

  /** A built filter reads back, as the list it was built from, unless it holds more than MAX_SIZE elements. */
  lemma ReadsBack<Element(!new)>(f: GCSFilter<Element>, values: seq<U64>)
    requires f.Holds(values)
    ensures f.N <= MAX_SIZE <==> match ReadCompactSize(f.encoded)
                                 case Refused => false
                                 case Size(n, used) => n == f.N && match Skipped(BytesBits(f.encoded[used..]), n, f.P)
                                                                   case Fail => false
                                                                   case Got(_, rest) => |rest| < 8
    ensures f.N <= MAX_SIZE <==> f.Lists(values)
  {
    hide BytesBits, Codes, Parse, ReadCompactSize, WriteCompactSize, Skipped, Decoded;
    f.HeldIsListed(values);
    var pad := f.HeldBits(values);
    CodesSkipped(values, 0, f.P, Zeroes(pad));
  }

  /** Codes whose sum wraps are accepted, and hide the smaller value from the search. */
  lemma WrappedIsMissed(p: nat)
    requires p <= 64
    ensures Decoded(Golomb(5, p) + Golomb(TWO64 - 2, p), 2, p, 0) == Values([5, 3]) && !Meet([5, 3], [3])
  {
    hide Golomb, Parse;
    var next := Golomb(TWO64 - 2, p);
    ParseGolomb(5, p, next);
    assert next + [] == next;
    ParseGolomb(TWO64 - 2, p, []);
    assert Decoded(next, 1, p, 5) == Values([3]);
    var values: seq<U64> := [5, 3];
    assert values[0] > values[1] && values[0] !in [3];
  }

  /** No element of the set a filter was built from is ever missed. */
  method BuildAndMatch<Element(==,!new)>(hash: Element -> U64, p: nat, m: Word, elements: set<Element>, e: Element)
    returns (built: bool, readable: bool, found: bool)
    requires e in elements
    ensures built <==> |elements| < BASE && p <= 64
    ensures readable <==> built && |elements| <= MAX_SIZE
    ensures readable ==> found
  {
    hide GCSFilter.Holds, GCSFilter.RangeOf, GCSFilter.Lists, Meet;
    var f, values := Build(hash, p, m, elements);
    built := f != null;
    if !built {
      return false, false, false;
    }
    readable, found := f.Match(e, values);
  }
}
