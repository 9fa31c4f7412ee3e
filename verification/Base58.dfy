/** Base58: radix conversion in place, with leading zeroes kept one for one. */
module Base58 {
  import opened Arithmetic
  import opened Radix

  // The alphabet in three parts: no 0, I, O or l.
  const NINE := "123456789"
  const UPPER := "ABCDEFGHJKLMNPQRSTUVWXYZ"
  const LOWER := "abcdefghijkmnopqrstuvwxyz"

  // ---------------------------------------------------------------- buffer sizes

  /** 58^11 exceeds 256^8, so 138 digits are enough for 100 bytes. */
  lemma EncodeBufferSuffices(n: nat)
    ensures Power(256, n) <= Power(58, n * 138 / 100 + 1)
  {
    SmallPowers();
    Fits(256, 58, 8, 11, n, n * 138 / 100 + 1);
  }

  /** 256^52 exceeds 58^71, so 733 bytes are enough for 1000 digits. */
  lemma DecodeBufferSuffices(n: nat)
    ensures Power(58, n) <= Power(256, n * 733 / 1000 + 1)
  {
    LargePowers();
    Fits(58, 256, 71, 52, n, n * 733 / 1000 + 1);
  }

  lemma SmallPowers()
    ensures Power(256, 8) <= Power(58, 11)
  {
    assert Power(58, 1) == 58 && Power(58, 2) == 3364 && Power(58, 4) == 11316496 &&
           Power(58, 8) == 128063081718016 by {
      Squares(58, 1);
      Squares(58, 2);
      Squares(58, 4);
    }
    PowerAdd(58, 8, 2);
    PowerAdd(58, 10, 1);
    BytePowers();
  }

  lemma Squares(b: nat, n: nat)
    ensures Power(b, 2 * n) == Power(b, n) * Power(b, n)
  {
    PowerAdd(b, n, n);
  }

  lemma BytePowers()
    ensures Power(256, 1) == 0x100 && Power(256, 2) == 0x1_0000 && Power(256, 4) == 0x1_0000_0000
    ensures Power(256, 8) == 0x1_0000_0000_0000_0000
  {
  }

  lemma LargePowers()
    ensures Power(58, 71) <= Power(256, 52)
  {
    hide Power;
    var p1, p2, p4, p8, p16, p32, p64 := 58, 3364, 11316496, 128063081718016, 16400152899115243850138976256,
      268965015114358137726910587140455987105619365599731777536,
      72342179355466901471258927612150153907721848234316445933056526044582001260898145151856420451025374266490194231296;
    assert Power(58, 71) == p64 * p4 * p2 * p1 by {
      PowerOne(58);
      Squares(58, 1);
      Squares(58, 2);
      Squares(58, 4);
      Squares(58, 8);
      Squares(58, 16);
      Squares(58, 32);
      PowerAdd(58, 64, 4);
      PowerAdd(58, 68, 2);
      PowerAdd(58, 70, 1);
    }
    assert Power(256, 52) ==
      0x100000000000000000000000000000000000000000000000000000000000000000000000000000000000000000000000000000000 by {
      BytePowers();
      Squares(256, 8);
      Squares(256, 16);
      PowerAdd(256, 32, 16);
      PowerAdd(256, 48, 4);
    }
  }

  lemma PowerOne(b: nat)
    ensures Power(b, 1) == b
  {
  }

  // ---------------------------------------------------------------- multiply and add in place

  /** One more digit: the buffer times `factor` plus `digit`, where at most the last `length` places
      are in use. The carry is always used up. */
  method MulAdd(buf: array<int>, base: nat, factor: nat, digit: nat, length: nat) returns (used: nat)
    requires base > 1 && Digits(buf[..], base) && length <= buf.Length
    requires forall j :: 0 <= j < buf.Length - length ==> buf[j] == 0
    requires Sum(digit, factor, Value(buf[..], base)) < Power(base, buf.Length)
    modifies buf
    ensures Digits(buf[..], base) && Value(buf[..], base) == Sum(digit, factor, old(Value(buf[..], base)))
    ensures used <= buf.Length && forall j :: 0 <= j < buf.Length - used ==> buf[j] == 0
  {
    hide Power, Value, Carrying, Sum, Rem, Quo;
    ghost var x := buf[..];
    var n := buf.Length;
    var carry: nat := digit;
    var i := 0;
    StartCarry(x, base, factor, digit);
    while (carry != 0 || i < length) && i < buf.Length
      invariant 0 <= i <= n
      invariant Digits(buf[..], base) && forall j :: 0 <= j < n - i ==> buf[j] == x[j]
      invariant Carrying(buf[..], x, i, base, factor, digit, carry)
    {
      ghost var was := buf[..];
      var sum := Sum(carry, factor, buf[n - 1 - i]);
      CarryOn(was, x, i, base, factor, digit, carry, sum);
      buf[n - 1 - i] := Rem(sum, base);
      assert buf[..] == was[n - 1 - i := Rem(sum, base)];
      carry := Quo(sum, base);
      i := i + 1;
    }
    CarryDone(buf[..], x, i, base, factor, digit, carry, length);
    assert carry == 0;
    return i;
  }

  function Sum(carry: int, factor: int, d: int): int { carry + factor * d }

  function Rem(s: nat, b: nat): (r: nat)
    requires b > 0
    ensures r < b
  {
    s % b
  }

  function Quo(s: nat, b: nat): nat
    requires b > 0
  {
    Quotient(s, b);
    s / b
  }

  /** The last `i` places and the carry together are the result's last places. */
  ghost predicate Carrying(s: seq<int>, x: seq<int>, i: nat, base: nat, factor: nat, digit: nat, carry: nat)
    requires i <= |s| == |x|
  {
    Value(s[|s| - i..], base) + carry * Power(base, i) == factor * Value(x[|x| - i..], base) + digit
  }

  lemma StartCarry(x: seq<int>, base: nat, factor: nat, digit: nat)
    ensures Carrying(x, x, 0, base, factor, digit, digit)
  {
  }

  lemma CarryOn(s: seq<int>, x: seq<int>, i: nat, base: nat, factor: nat, digit: nat, carry: nat, sum: int)
    requires i < |s| == |x| && base > 1 && Digits(s, base) && s[|s| - 1 - i] == x[|x| - 1 - i]
    requires sum == Sum(carry, factor, s[|s| - 1 - i])
    requires Carrying(s, x, i, base, factor, digit, carry)
    ensures sum >= 0 && Carrying(s[|s| - 1 - i := Rem(sum, base)], x, i + 1, base, factor, digit, Quo(sum, base))
  {
    hide Value, Power;
    var k, p := |s| - 1 - i, Power(base, i);
    MulMono(0, x[k], factor);
    var t := s[k := Rem(sum, base)];
    assert t[k..] == [Rem(sum, base)] + s[k + 1..];
    assert x[k..] == [x[k]] + x[k + 1..];
    ValuePrepend(Rem(sum, base), s[k + 1..], base);
    ValuePrepend(x[k], x[k + 1..], base);
    PowerNext(base, i);
    CarryAlgebra(sum, base, p, carry, factor, x[k], Value(s[k + 1..], base), Value(x[k + 1..], base), digit);
  }

  lemma CarryAlgebra(sum: nat, base: nat, p: int, carry: int, factor: int, d: int, v: int, w: int, digit: int)
    requires base > 0 && sum == carry + factor * d && v + carry * p == factor * w + digit
    ensures sum % base * p + v + sum / base * (base * p) == factor * (d * p + w) + digit
  {
  }

  lemma CarryDone(s: seq<int>, x: seq<int>, i: nat, base: nat, factor: nat, digit: nat, carry: nat, length: nat)
    requires i <= |s| == |x| && base > 1 && Digits(s, base) && Carrying(s, x, i, base, factor, digit, carry)
    requires (forall j :: 0 <= j < |x| - length ==> x[j] == 0) && (forall j :: 0 <= j < |s| - i ==> s[j] == x[j])
    requires i == |s| || (carry == 0 && i >= length)
    requires Sum(digit, factor, Value(x, base)) < Power(base, |x|)
    ensures carry == 0 && Value(s, base) == Sum(digit, factor, Value(x, base))
    ensures forall j :: 0 <= j < |s| - i ==> s[j] == 0
  {
    hide Value, Power;
    if i == |s| {
      assert s[0..] == s && x[0..] == x;
      ValueBound(s, base);
      if carry > 0 {
        MulMono(1, carry, Power(base, i));
      }
    } else {
      var k := |s| - i;
      assert s == Zeroes(k) + s[k..] && x == Zeroes(k) + x[k..];
      ValueZeroes(k, s[k..], base);
      ValueZeroes(k, x[k..], base);
    }
  }

  // ---------------------------------------------------------------- encoding

  function Char(d: int): char
    requires 0 <= d < 58
  {
    if d < 9 then ('1' as int + d) as char
    else if d < 17 then ('A' as int + d - 9) as char
    else if d < 22 then ('J' as int + d - 17) as char
    else if d < 33 then ('P' as int + d - 22) as char
    else if d < 44 then ('a' as int + d - 33) as char
    else ('m' as int + d - 44) as char
  }

  /** The digits' characters are the alphabet. */
  lemma Alphabet()
    ensures seq(58, i requires 0 <= i < 58 => Char(i)) == NINE + UPPER + LOWER
  {
    forall i | 0 <= i < 9 { NinePart(i); }
    forall i | 0 <= i < 24 { UpperPart(i); }
    forall i | 0 <= i < 25 { LowerPart(i); }
  }

  lemma NinePart(i: nat)
    requires i < 9
    ensures NINE[i] == Char(i)
  {
  }

  lemma UpperPart(i: nat)
    requires i < 24
    ensures UPPER[i] == Char(9 + i)
  {
  }

  lemma LowerPart(i: nat)
    requires i < 25
    ensures LOWER[i] == Char(33 + i)
  {
  }

  /** mapBase58: a character's digit, or -1. */
  function Digit(c: char): int {
    if '1' <= c <= '9' then c as int - '1' as int
    else if 'A' <= c <= 'H' then c as int - 'A' as int + 9
    else if 'J' <= c <= 'N' then c as int - 'J' as int + 17
    else if 'P' <= c <= 'Z' then c as int - 'P' as int + 22
    else if 'a' <= c <= 'k' then c as int - 'a' as int + 33
    else if 'm' <= c <= 'z' then c as int - 'm' as int + 44
    else -1
  }

  lemma DigitRange(c: char)
    requires Digit(c) != -1
    ensures 0 <= Digit(c) < 58
  {
  }

  lemma CharsAndDigits()
    ensures forall d :: 0 <= d < 58 ==> Digit(Char(d)) == d
    ensures forall c :: Digit(c) != -1 ==> 0 <= Digit(c) < 58 && Char(Digit(c)) == c
    ensures forall c :: Digit(c) == 0 <==> c == '1'
  {
  }

  function Text(ds: seq<int>): (r: string)
    requires Digits(ds, 58)
    ensures |r| == |ds|
  {
    seq(|ds|, i requires 0 <= i < |ds| => Char(ds[i]))
  }

  lemma TextPush(ds: seq<int>, d: int)
    requires Digits(ds, 58) && 0 <= d < 58
    ensures Digits(ds + [d], 58) && Text(ds + [d]) == Text(ds) + [Char(d)]
  {
  }

  lemma TextZeroes(n: nat)
    ensures Digits(Zeroes(n), 58) && Text(Zeroes(n)) == seq(n, _ => '1')
  {
  }

  lemma CountedZeroes(s: seq<int>, k: nat)
    requires k <= |s| && (forall j :: 0 <= j < k ==> s[j] == 0) && (k < |s| ==> s[k] != 0)
    ensures LeadingZeroes(s) == k
  {
  }

  method EncodeBase58(bytes: seq<int>) returns (str: string)
    requires Digits(bytes, 256)
    ensures Digits(Converted(bytes, 256, 58), 58) && str == Text(Converted(bytes, 256, 58))
  {
    hide Power, Value, Minimal, Char, Text, Converted, LeadingZeroes;
    ConvertedDigits(bytes, 256, 58);
    var zeroes := 0;
    while zeroes < |bytes| && bytes[zeroes] == 0
      invariant 0 <= zeroes <= |bytes| && forall j :: 0 <= j < zeroes ==> bytes[j] == 0
    {
      zeroes := zeroes + 1;
    }
    CountedZeroes(bytes, zeroes);
    ghost var body := bytes[zeroes..];
    var size := (|bytes| - zeroes) * 138 / 100 + 1;
    var b58 := new int[size](_ => 0);
    var length: nat := 0;
    EmptyBuffer(b58[..], 58, body);
    var p := zeroes;
    while p < |bytes|
      invariant zeroes <= p <= |bytes|
      invariant Digits(b58[..], 58) && Value(b58[..], 58) == Value(body[..p - zeroes], 256)
      invariant length <= size && forall j :: 0 <= j < size - length ==> b58[j] == 0
    {
      assert body[p - zeroes] == bytes[p];
      EncodeBufferSuffices(|body|);
      NextDigit(body, p - zeroes, 256, Power(58, size));
      length := MulAdd(b58, 58, 256, bytes[p], length);
      p := p + 1;
    }
    assert body[..p - zeroes] == body;
    var it := SkipZeroes(b58, size - length);
    ghost var full := b58[..];
    LastDigits(full, it, 58, bytes, zeroes, 256);
    str := Spell(zeroes, b58, it);
  }

  /** Leading ones, then the characters of the remaining digits. */
  method Spell(zeroes: nat, b58: array<int>, from: nat) returns (str: string)
    requires from <= b58.Length && Digits(b58[..], 58)
    ensures Digits(Zeroes(zeroes) + b58[from..], 58) && str == Text(Zeroes(zeroes) + b58[from..])
  {
    hide Char, Text;
    str := seq(zeroes, _ => '1');
    ghost var ds := Zeroes(zeroes);
    TextZeroes(zeroes);
    for it := from to b58.Length
      invariant ds == Zeroes(zeroes) + b58[from..it] && Digits(ds, 58) && str == Text(ds)
    {
      TextPush(ds, b58[it]);
      str := str + [Char(b58[it])];
      ds := ds + [b58[it]];
    }
    assert b58[from..b58.Length] == b58[from..];
  }

  /** Past the zeroes a buffer starts with. */
  method SkipZeroes(buf: array<int>, from: nat) returns (it: nat)
    requires from <= buf.Length && forall j :: 0 <= j < from ==> buf[j] == 0
    ensures it <= buf.Length && (forall j :: 0 <= j < it ==> buf[j] == 0) && (it < buf.Length ==> buf[it] != 0)
  {
    it := from;
    while it < buf.Length && buf[it] == 0
      invariant from <= it <= buf.Length && forall j :: 0 <= j < it ==> buf[j] == 0
    {
      it := it + 1;
    }
  }

  lemma EmptyBuffer(s: seq<int>, base: nat, body: seq<int>)
    requires base > 1 && forall j :: 0 <= j < |s| ==> s[j] == 0
    ensures Digits(s, base) && Value(s, base) == 0 && Value(body[..0], 256) == 0 && Value(body[..0], 58) == 0
  {
  }

  /** Taking the next digit keeps the value below what the whole needs. */
  lemma NextDigit(body: seq<int>, k: nat, base: nat, limit: nat)
    requires k < |body| && base > 0 && Digits(body, base) && Power(base, |body|) <= limit
    ensures Value(body[..k + 1], base) == Sum(body[k], base, Value(body[..k], base)) < limit
  {
    hide Power;
    ValueAppend(body[..k], body[k], base);
    assert body[..k + 1] == body[..k] + [body[k]];
    hide Value;
    ValueBound(body[..k + 1], base);
    PowerMono(base, k + 1, |body|);
  }

  /** The buffer from its first digit on is the minimal form of the value. */
  lemma LastDigits(full: seq<int>, it: nat, b: nat, s: seq<int>, zeroes: nat, a: nat)
    requires a > 1 && b > 1 && Digits(full, b) && Digits(s, a) && zeroes == LeadingZeroes(s)
    requires Value(full, b) == Value(s[zeroes..], a)
    requires it <= |full| && (forall j :: 0 <= j < it ==> full[j] == 0) && (it < |full| ==> full[it] != 0)
    ensures Zeroes(zeroes) + full[it..] == Converted(s, a, b)
  {
    hide Value, Minimal;
    assert full == Zeroes(it) + full[it..];
    ValueZeroes(it, full[it..], b);
    assert s == Zeroes(zeroes) + s[zeroes..];
    ValueZeroes(zeroes, s[zeroes..], a);
    MinimalUnique(full[it..], b);
  }

  // ---------------------------------------------------------------- decoding

  predicate IsSpace(c: char) {
    c == ' ' || c == '\U{0C}' || c == '\n' || c == '\r' || c == '\t' || c == '\U{0B}'
  }

  ghost predicate AllSpaces(s: string) {
    forall i :: 0 <= i < |s| ==> IsSpace(s[i])
  }

  ghost predicate InAlphabet(s: string) {
    forall i :: 0 <= i < |s| ==> Digit(s[i]) != -1
  }

  /** The string is `body` between white space. */
  ghost predicate Surrounds(s: string, body: string) {
    exists i, j :: 0 <= i <= j <= |s| && s[i..j] == body && AllSpaces(s[..i]) && AllSpaces(s[j..])
  }

  function DigitsOf(s: string): (r: seq<int>)
    ensures |r| == |s|
  {
    seq(|s|, i requires 0 <= i < |s| => Digit(s[i]))
  }

  lemma DigitsOfOk(s: string)
    requires InAlphabet(s)
    ensures Digits(DigitsOf(s), 58) && Text(DigitsOf(s)) == s
  {
  }

  lemma TextDigits(ds: seq<int>)
    requires Digits(ds, 58)
    ensures InAlphabet(Text(ds)) && DigitsOf(Text(ds)) == ds
  {
  }

  /** Decoding succeeds exactly on alphabet characters between white space, and then gives their
      digits in base 256 with leading ones as leading zero bytes. */
  method DecodeChars(str: string) returns (ok: bool, vch: seq<int>, ghost body: string)
    ensures ok <==> exists b :: InAlphabet(b) && Surrounds(str, b)
    ensures ok ==>
              && InAlphabet(body) && Surrounds(str, body) && Digits(DigitsOf(body), 58)
              && vch == Converted(DigitsOf(body), 58, 256)
  {
    hide Power, Value, Minimal, Converted, LeadingZeroes, Digit, IsSpace;
    vch, body := [], "";
    var p := SkipSpaces(str, 0);
    ghost var start := p;
    var zeroes := 0;
    while p < |str| && str[p] == '1'
      invariant start <= p <= |str| && zeroes == p - start && forall j :: start <= j < p ==> str[j] == '1'
    {
      zeroes := zeroes + 1;
      p := p + 1;
    }
    ghost var first := p;
    OnesAreDigits(str, start, first);
    var valid, length, b256;
    valid, p, b256, length := ReadDigits(str, p);
    if !valid {
      Blocked(str, p);
      return false, [], "";
    }
    ghost var end := p;
    p := SkipSpaces(str, p);
    if p < |str| {
      Interrupted(str, start, end, p);
      return false, [], "";
    }
    body := str[start..end];
    BodyFound(str, start, end);
    DigitsOfOk(body);
    BodyZeroes(str, start, first, end, zeroes);
    var it := SkipZeroes(b256, b256.Length - length);
    ghost var full := b256[..];
    LastDigits(full, it, 256, DigitsOf(body), zeroes, 58);
    vch := CopyOut(zeroes, b256, it);
    assert vch == Converted(DigitsOf(body), 58, 256);
    ok := true;
  }

  method CopyOut(zeroes: nat, b256: array<int>, from: nat) returns (vch: seq<int>)
    requires from <= b256.Length
    ensures vch == seq(zeroes, _ => 0) + b256[from..]
  {
    vch := seq(zeroes, _ => 0);
    for it := from to b256.Length
      invariant vch == seq(zeroes, _ => 0) + b256[from..it]
    {
      assert b256[from..it + 1] == b256[from..it] + [b256[it]];
      vch := vch + [b256[it]];
    }
    assert b256[from..b256.Length] == b256[from..];
  }

  /** What c_str() passes on: the characters before the first zero character. */
  function CString(str: string): (r: string)
    ensures r <= str && '\0' !in r && (r == str || str[|r|] == '\0')
  {
    if str == [] || str[0] == '\0' then [] else
      var rest := CString(str[1..]);
      assert str[0..1 + |rest|] == [str[0]] + str[1..][..|rest|];
      [str[0]] + rest
  }

  /** Decoding a string: only what stands before the first zero character counts. */
  method DecodeBase58(str: string) returns (ok: bool, vch: seq<int>, ghost body: string)
    ensures ok <==> exists b :: InAlphabet(b) && Surrounds(CString(str), b)
    ensures ok ==> InAlphabet(body) && Surrounds(CString(str), body) && Digits(DigitsOf(body), 58)
    ensures ok ==> Digits(DigitsOf(body), 58) && vch == Converted(DigitsOf(body), 58, 256)
  {
    ok, vch, body := DecodeChars(CString(str));
  }

  method SkipSpaces(str: string, from: nat) returns (p: nat)
    requires from <= |str|
    ensures from <= p <= |str| && (forall j :: from <= j < p ==> IsSpace(str[j])) && (p < |str| ==> !IsSpace(str[p]))
  {
    p := from;
    while p < |str| && IsSpace(str[p])
      invariant from <= p <= |str| && forall j :: from <= j < p ==> IsSpace(str[j])
    {
      p := p + 1;
    }
  }

  /** Digits up to the next space or the end; stops at a character that is neither. */
  method ReadDigits(str: string, first: nat) returns (valid: bool, p: nat, b256: array<int>, length: nat)
    requires first <= |str|
    ensures first <= p <= |str| && fresh(b256)
    ensures forall j :: first <= j < p ==> Digit(str[j]) != -1 && !IsSpace(str[j])
    ensures if valid then p < |str| ==> IsSpace(str[p]) else p < |str| && !IsSpace(str[p]) && Digit(str[p]) == -1
    ensures Digits(b256[..], 256) && Value(b256[..], 256) == Value(DigitsOf(str[first..p]), 58)
    ensures length <= b256.Length && forall j :: 0 <= j < b256.Length - length ==> b256[j] == 0
  {
    hide Power, Value, Digit, IsSpace, Sum;
    p := first;
    var size := (|str| - p) * 733 / 1000 + 1;
    b256 := new int[size](_ => 0);
    length := 0;
    EmptyBuffer(b256[..], 256, DigitsOf(str[first..]));
    assert DigitsOf(str[first..p]) == DigitsOf(str[first..])[..0];
    CharsAndDigits();
    while p < |str| && !IsSpace(str[p])
      invariant first <= p <= |str| && fresh(b256) && b256.Length == size
      invariant forall j :: first <= j < p ==> Digit(str[j]) != -1 && !IsSpace(str[j])
      invariant Digits(b256[..], 256) && Value(b256[..], 256) == Value(DigitsOf(str[first..p]), 58)
      invariant length <= size && forall j :: 0 <= j < size - length ==> b256[j] == 0
    {
      var carry := Digit(str[p]);
      if carry == -1 {
        return false, p, b256, length;
      }
      DecodeStep(str, first, p, size);
      length := MulAdd(b256, 256, 58, carry, length);
      p := p + 1;
    }
    valid := true;
  }

  lemma OnesAreDigits(str: string, start: nat, first: nat)
    requires start <= first <= |str| && forall j :: start <= j < first ==> str[j] == '1'
    ensures forall j :: start <= j < first ==> Digit(str[j]) == 0 && !IsSpace(str[j])
  {
  }

  lemma BodyFound(str: string, start: nat, end: nat)
    requires start <= end <= |str| && (forall j :: 0 <= j < start ==> IsSpace(str[j]))
    requires forall j :: end <= j < |str| ==> IsSpace(str[j])
    requires forall j :: start <= j < end ==> Digit(str[j]) != -1
    ensures InAlphabet(str[start..end]) && Surrounds(str, str[start..end])
  {
  }

  lemma SpacesAreNotDigits(c: char)
    requires IsSpace(c)
    ensures Digit(c) == -1
  {
  }

  /** A character that is neither space nor digit spoils the string. */
  lemma Blocked(str: string, p: nat)
    requires p < |str| && !IsSpace(str[p]) && Digit(str[p]) == -1
    ensures !exists b :: InAlphabet(b) && Surrounds(str, b)
  {
  }

  /** So does a space between two characters that are none. */
  lemma Interrupted(str: string, start: nat, end: nat, p: nat)
    requires start <= end < p < |str| && IsSpace(str[end]) && !IsSpace(str[p])
    requires start < end ==> !IsSpace(str[start])
    requires start == end ==> !IsSpace(str[start])
    ensures !exists b :: InAlphabet(b) && Surrounds(str, b)
  {
  }

  lemma DecodeStep(str: string, first: nat, p: nat, size: nat)
    requires first <= p < |str| && (forall j :: first <= j <= p ==> Digit(str[j]) != -1)
    requires size == (|str| - first) * 733 / 1000 + 1
    ensures Value(DigitsOf(str[first..p + 1]), 58) ==
            Sum(Digit(str[p]), 58, Value(DigitsOf(str[first..p]), 58)) < Power(256, size)
  {
    hide Digit, Power, Value;
    var ds, d := DigitsOf(str[first..p]), Digit(str[p]);
    forall j | first <= j <= p
      ensures 0 <= Digit(str[j]) < 58
    {
      DigitRange(str[j]);
    }
    assert DigitsOf(str[first..p + 1]) == ds + [d];
    ValueAppend(ds, d, 58);
    assert Digits(ds + [d], 58);
    ValueBound(ds + [d], 58);
    PowerMono(58, p + 1 - first, |str| - first);
    DecodeBufferSuffices(|str| - first);
  }

  lemma BodyZeroes(str: string, start: nat, first: nat, end: nat, zeroes: nat)
    requires start <= first <= end <= |str| && zeroes == first - start
    requires forall j :: start <= j < first ==> str[j] == '1'
    requires first < end ==> str[first] != '1'
    ensures LeadingZeroes(DigitsOf(str[start..end])) == zeroes
    ensures DigitsOf(str[start..end])[zeroes..] == DigitsOf(str[first..end])
  {
    hide Digit;
    CharsAndDigits();
    CountedZeroes(DigitsOf(str[start..end]), zeroes);
  }

  // ---------------------------------------------------------------- round trips

  /** Decoding what was encoded gives the bytes back. */
  method EncodeThenDecode(bytes: seq<int>) returns (ok: bool, back: seq<int>)
    requires Digits(bytes, 256)
    ensures ok && back == bytes
  {
    hide Converted, Surrounds, InAlphabet, Text, DigitsOf;
    ConvertBack(bytes, 256, 58);
    TextDigits(Converted(bytes, 256, 58));
    var str := EncodeBase58(bytes);
    WholeBody(str);
    ghost var body;
    ok, back, body := DecodeBase58(str);
    OneBody(str, str, body);
  }

  /** Encoding what was decoded gives an alphabet string back. */
  method DecodeThenEncode(str: string) returns (ok: bool, back: string)
    requires InAlphabet(str)
    ensures ok && back == str
  {
    hide Converted, Surrounds, Text, DigitsOf;
    WholeBody(str);
    var vch;
    ghost var body;
    ok, vch, body := DecodeBase58(str);
    OneBody(str, str, body);
    DigitsOfOk(str);
    ConvertBack(DigitsOf(str), 58, 256);
    back := EncodeBase58(vch);
  }

  lemma WholeBody(str: string)
    requires InAlphabet(str)
    ensures Surrounds(str, str) && CString(str) == str
  {
    assert forall i :: 0 <= i < |str| ==> str[i] != '\0';
    assert str[0..|str|] == str && AllSpaces(str[..0]) && AllSpaces(str[|str|..]);
  }

  /** A string of alphabet characters is its own body. */
  lemma OneBody(str: string, a: string, b: string)
    requires InAlphabet(str) && a == str && Surrounds(str, b)
    ensures a == b
  {
    var i, j :| 0 <= i <= j <= |str| && str[i..j] == b && AllSpaces(str[..i]) && AllSpaces(str[j..]);
    if i > 0 {
      SpacesAreNotDigits(str[..i][0]);
    }
    if j < |str| {
      SpacesAreNotDigits(str[j..][0]);
    }
  }
}
