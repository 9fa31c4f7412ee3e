/** Bit streams over bytes, most significant bit first. */
module BitStream {
  import opened Arithmetic
  import opened ArithSpec

  type Byte = x: int | 0 <= x < 256

  // ---------------------------------------------------------------- numbers as bits

  /** The `n` low bits of a number. */
  function ToBits(x: nat, n: nat): (r: seq<bool>)
    ensures |r| == n
  {
    if n == 0 then [] else ToBits(x / 2, n - 1) + [x % 2 == 1]
  }

  function FromBits(s: seq<bool>): nat {
    if s == [] then 0 else 2 * FromBits(s[..|s| - 1]) + (if s[|s| - 1] then 1 else 0)
  }

  /** x shifted right by `k` bits, and its `k` low bits. */
  function Shr(x: nat, k: nat): (r: nat) {
    Quotient(x, Pow2(k));
    x / Pow2(k)
  }

  function Shl(x: nat, k: nat): nat { x * Pow2(k) }

  function Low(x: nat, k: nat): (r: nat)
    ensures r < Pow2(k)
  {
    x % Pow2(k)
  }

  lemma ShrLow(x: nat, k: nat)
    ensures x == Shr(x, k) * Pow2(k) + Low(x, k)
  {
  }

  lemma {:induction false} FromToBits(x: nat, n: nat)
    ensures FromBits(ToBits(x, n)) == Low(x, n)
  {
    if n > 0 {
      FromToBits(x / 2, n - 1);
      var s := ToBits(x, n);
      assert s[..n - 1] == ToBits(x / 2, n - 1);
      HalvedPow(x, Pow2(n - 1));
    }
  }

  lemma HalvedPow(x: nat, p: nat)
    requires p > 0
    ensures x % (2 * p) == 2 * (x / 2 % p) + x % 2 && x / 2 / p == x / (2 * p)
  {
    var q := x / 2 / p;
    assert x / 2 == q * p + x / 2 % p;
    assert q * (2 * p) == 2 * (q * p);
    ModUnique(x, 2 * p, q, 2 * (x / 2 % p) + x % 2);
  }

  /** The bit at an index, the most significant first. */
  lemma {:induction false} BitAt(x: nat, n: nat, i: nat)
    requires i < n
    ensures ToBits(x, n)[i] <==> Shr(x, n - 1 - i) % 2 == 1
    decreases n
  {
    if i == n - 1 {
      assert Shr(x, 0) == x;
    } else {
      BitAt(x / 2, n - 1, i);
      HalvedPow(x, Pow2(n - 2 - i));
    }
  }

  /** High bits and low bits. */
  lemma {:induction false} BitsSplit(x: nat, a: nat, b: nat)
    ensures ToBits(x, a + b) == ToBits(Shr(x, b), a) + ToBits(x, b)
    decreases b
  {
    if b == 0 {
      assert Shr(x, 0) == x;
    } else {
      BitsSplit(x / 2, a, b - 1);
      HalvedPow(x, Pow2(b - 1));
      assert Shr(x / 2, b - 1) == Shr(x, b);
      assert ToBits(x, a + b) == ToBits(x / 2, a + (b - 1)) + [x % 2 == 1];
    }
  }

  /** Only the low bits count. */
  lemma {:induction false} BitsLow(x: nat, y: nat, n: nat, k: nat)
    requires x == y + k * Pow2(n)
    ensures ToBits(x, n) == ToBits(y, n)
    decreases n
  {
    if n > 0 {
      var p := Pow2(n - 1);
      assert k * (2 * p) == 2 * (k * p);
      BitsLow(x / 2, y / 2, n - 1, k);
    }
  }

  /** A number made of a high and a low part. */
  lemma BitsJoin(h: nat, l: nat, a: nat, b: nat)
    requires l < Pow2(b)
    ensures ToBits(Shl(h, b) + l, a + b) == ToBits(h, a) + ToBits(l, b)
  {
    BitsSplit(h * Pow2(b) + l, a, b);
    ModUnique(h * Pow2(b) + l, Pow2(b), h, l);
    BitsLow(h * Pow2(b) + l, l, b, h);
  }

  function BytesBits(s: seq<Byte>): (r: seq<bool>)
    ensures |r| == 8 * |s|
  {
    if s == [] then [] else BytesBits(s[..|s| - 1]) + ToBits(s[|s| - 1], 8)
  }

  lemma BytesPush(s: seq<Byte>, b: Byte)
    ensures BytesBits(s + [b]) == BytesBits(s) + ToBits(b, 8)
  {
  }

  lemma {:induction false} BytesConcat(s: seq<Byte>, t: seq<Byte>)
    ensures BytesBits(s + t) == BytesBits(s) + BytesBits(t)
    decreases |t|
  {
    hide ToBits;
    if t == [] {
      assert s + t == s;
    } else {
      var last := |t| - 1;
      BytesConcat(s, t[..last]);
      assert (s + t)[..|s + t| - 1] == s + t[..last];
    }
  }

  lemma BytesHead(s: seq<Byte>)
    requires s != []
    ensures BytesBits(s) == ToBits(s[0], 8) + BytesBits(s[1..])
  {
    BytesConcat([s[0]], s[1..]);
    assert s == [s[0]] + s[1..] && BytesBits([s[0]]) == BytesBits([]) + ToBits(s[0], 8) by {
      assert [s[0]][..0] == [];
    }
  }

  // ---------------------------------------------------------------- writing

  class BitStreamWriter {
    var out: seq<Byte>
    var buffer: Byte
    var offset: nat
    ghost var pending: nat     // the bits in the buffer, as a number

    ghost predicate Valid()
      reads this
    {
      offset < 8 && pending < Pow2(offset) && buffer == Shl(pending, 8 - offset)
    }

    /** Everything written so far. */
    ghost function Written(): seq<bool>
      reads this
    {
      BytesBits(out) + ToBits(pending, offset)
    }

    constructor (start: seq<Byte>)
      ensures Valid() && out == start && offset == 0 && Written() == BytesBits(start)
    {
      out, buffer, offset, pending := start, 0, 0, 0;
    }

    /** One turn of the loop: as many of the `left` low bits as the current byte takes. */
    method WriteByte(data: nat, left: nat) returns (bits: nat)
      requires Valid() && 0 < left <= 64
      modifies this
      ensures Valid() && 0 < bits <= left && old(out) <= out
      ensures Written() == old(Written()) + ToBits(Low(Shr(data, left - bits), bits), bits)
    {
      hide Pow2, BytesBits, ToBits, BitOr, Shl, Shr, Low, Selected;
      bits := if 8 - offset < left then 8 - offset else left;
      WriteChunk(data, left, bits, pending, offset, buffer);
      ghost var chunk := Low(Shr(data, left - bits), bits);
      BitsJoin(pending, chunk, offset, bits);
      buffer := BitOr(buffer, Selected(data, left, offset));
      pending := Shl(pending, bits) + chunk;
      offset := offset + bits;
      if offset == 8 {
        Flush();
      }
    }

    /** Appends the `nbits` low bits of `data`. */
    method Write(data: nat, nbits: int) returns (ok: bool)
      requires Valid() && data < 0x1_0000_0000_0000_0000
      modifies this
      ensures Valid() && (ok <==> 0 <= nbits <= 64) && old(out) <= out
      ensures Written() == old(Written()) + if ok then ToBits(data, nbits) else []
    {
      hide Pow2, BytesBits, ToBits, Shr, Low, BitStreamWriter.Written, BitStreamWriter.Valid;
      if nbits < 0 || nbits > 64 {
        return false;
      }
      ShrZero(data);
      var left: nat := nbits;
      ghost var done := 0;
      assert ToBits(Shr(data, left), 0) == [];
      while left > 0
        invariant Valid() && done + left == nbits && old(out) <= out
        invariant Written() == old(Written()) + ToBits(Shr(data, left), done)
        decreases left
      {
        var bits := WriteByte(data, left);
        NextBits(data, left, bits, done);
        assert old(Written()) + ToBits(Shr(data, left), done) + ToBits(Low(Shr(data, left - bits), bits), bits)
            == old(Written()) + (ToBits(Shr(data, left), done) + ToBits(Low(Shr(data, left - bits), bits), bits));
        left := left - bits;
        done := done + bits;
      }
      return true;
    }

    /** Completes the last byte with zeroes. */
    method Flush()
      requires offset <= 8 && pending < Pow2(offset) && buffer == Shl(pending, 8 - offset)
      modifies this
      ensures Valid() && offset == 0 && out == old(out) + if old(offset) == 0 then [] else [old(buffer)]
      ensures Written() == old(Written()) + if old(offset) == 0 then [] else Zeroes(8 - old(offset))
    {
      hide BytesBits, ToBits;
      FlushedByte(out, pending, offset);
      assert ToBits(pending, 0) == [] && ToBits(0, 0) == [];
      if offset == 0 {
        return;
      }
      out := out + [buffer];
      buffer := 0;
      offset := 0;
      pending := 0;
    }
  }

  function Zeroes(n: nat): (r: seq<bool>)
    ensures |r| == n
  {
    seq(n, _ => false)
  }

  lemma {:induction false} ZeroBits(n: nat)
    ensures ToBits(0, n) == Zeroes(n)
  {
    if n > 0 {
      ZeroBits(n - 1);
    }
  }

  lemma ShrZero(data: nat)
    ensures Shr(data, 0) == data && Pow2(0) == 1
  {
  }

  lemma FlushedByte(out: seq<Byte>, pending: nat, offset: nat)
    requires offset <= 8 && pending < Pow2(offset)
    ensures 0 <= Shl(pending, 8 - offset) < 256
    ensures BytesBits(out + [Shl(pending, 8 - offset)]) == BytesBits(out) + ToBits(pending, offset) + Zeroes(8 - offset)
  {
    hide BytesBits, ToBits;
    PowWords();
    PowAdd(offset, 8 - offset);
    ScaledBelow(pending, Pow2(8 - offset), Pow2(offset));
    BytesPush(out, Shl(pending, 8 - offset));
    BitsJoin(pending, 0, offset, 8 - offset);
    ZeroBits(8 - offset);
  }

  lemma ScaledBelow(v: nat, p: nat, q: nat)
    requires v < q && p > 0
    ensures 0 <= v * p < q * p
  {
  }

  lemma ShrTwice(x: nat, a: nat, b: nat)
    ensures Shr(Shr(x, a), b) == Shr(x, a + b)
  {
    PowAdd(a, b);
    DivTwice(x, Pow2(a), Pow2(b));
  }

  /** The bits still to write, one chunk further. */
  lemma NextBits(data: nat, left: nat, bits: nat, done: nat)
    requires bits <= left
    ensures ToBits(Shr(data, left - bits), done + bits) ==
            ToBits(Shr(data, left), done) + ToBits(Low(Shr(data, left - bits), bits), bits)
  {
    hide Pow2, ToBits, Shr, Low;
    var v := Shr(data, left - bits);
    BitsSplit(v, done, bits);
    ShrTwice(data, left - bits, bits);
    ShrLow(v, bits);
    BitsLow(v, Low(v, bits), bits, Shr(v, bits));
  }

  /** (data << (64 - left)) >> (56 + offset), in 64 bits. */
  function Selected(data: nat, left: nat, offset: nat): nat
    requires left <= 64
  {
    Shr(Shl(data, 64 - left) % 0x1_0000_0000_0000_0000, 56 + offset)
  }

  /** (buffer << offset) >> (8 - bits), in 8 bits. */
  function Extracted(buffer: Byte, offset: nat, bits: nat): nat
    requires bits <= 8
  {
    Shr(buffer * Pow2(offset) % 256, 8 - bits)
  }

  /** The shifts select exactly the next bits, aligned behind the pending ones. */
  lemma WriteChunk(data: nat, left: nat, bits: nat, pending: nat, offset: nat, buffer: nat)
    requires 0 < left <= 64 && offset < 8 && pending < Pow2(offset) && buffer == Shl(pending, 8 - offset)
    requires bits == if 8 - offset < left then 8 - offset else left
    ensures var chunk := Low(Shr(data, left - bits), bits);
            var joined := Shl(pending, bits) + chunk;
            && chunk < Pow2(bits) && joined < Pow2(offset + bits) && 0 <= Shl(joined, 8 - offset - bits) < 256
            && BitOr(buffer, Selected(data, left, offset)) == Shl(joined, 8 - offset - bits)
  {
    hide Pow2, BitOr, Shr, Low, Selected;
    var chunk := Low(Shr(data, left - bits), bits);
    var joined := Shl(pending, bits) + chunk;
    PowAdd(offset, bits);
    Joined(pending, chunk, Pow2(bits), Pow2(offset));
    PowWords();
    PowAdd(offset + bits, 8 - offset - bits);
    ScaledBelow(joined, Pow2(8 - offset - bits), Pow2(offset + bits));
    SelectedBits(data, left, bits, offset);
    PlaceChunk(pending, chunk, offset, bits);
  }

  lemma Joined(h: nat, l: nat, p: nat, q: nat)
    requires l < p && h < q
    ensures 0 <= h * p + l < q * p
  {
    MulMono(h + 1, q, p);
    assert (h + 1) * p == h * p + p;
  }

  lemma PlaceChunk(pending: nat, chunk: nat, offset: nat, bits: nat)
    requires offset + bits <= 8 && chunk < Pow2(bits)
    ensures BitOr(Shl(pending, 8 - offset), Shl(chunk, 8 - offset - bits)) ==
            Shl(Shl(pending, bits) + chunk, 8 - offset - bits)
  {
    hide Pow2, BitOr;
    var r := Pow2(8 - offset - bits);
    PowAdd(bits, 8 - offset - bits);
    ScaledBelow(chunk, r, Pow2(bits));
    ModUnique(Shl(pending, 8 - offset), Pow2(8 - offset), pending, 0);
    OrIsSum(chunk * r, Shl(pending, 8 - offset), 8 - offset);
    Spread(pending, chunk, Pow2(bits), r);
  }

  lemma Spread(h: int, l: int, p: int, r: int)
    ensures (h * p + l) * r == h * (p * r) + l * r
  {
  }

  lemma SelectedBits(data: nat, left: nat, bits: nat, offset: nat)
    requires 0 < left <= 64 && offset < 8 && bits == if 8 - offset < left then 8 - offset else left
    ensures Selected(data, left, offset) ==
            Low(Shr(data, left - bits), bits) * Pow2(8 - offset - bits)
  {
    hide Pow2;
    var l := data % Pow2(left);
    PowWords();
    PowAdd(left, 64 - left);
    TopAligned(data, Pow2(left), Pow2(64 - left));
    if bits == left {
      PowAdd(56 + offset, 8 - offset - left);
      ShrZero(data);
      var d, e := Pow2(56 + offset), Pow2(8 - offset - left);
      assert l * (d * e) == (l * e) * d;
      ModUnique(l * (d * e), d, l * e, 0);
    } else {
      PowAdd(64 - left, left - bits);
      PowAdd(left - bits, bits);
      DivCommon(l, Pow2(left - bits), Pow2(64 - left));
      LowQuotient(data, Pow2(left - bits), Pow2(bits));
      ShrZero(0);
    }
  }

  /** Shifting to the top of a word keeps the low part only. */
  lemma TopAligned(x: nat, p: nat, q: nat)
    requires p > 0 && q > 0
    ensures x * q % (p * q) == x % p * q
  {
    var h, l := x / p, x % p;
    assert x == h * p + l;
    Spread(h, l, p, q);
    ScaledBelow(l, q, p);
    MulPositive(p, q);
    ModUnique(x * q, p * q, h, l * q);
  }

  lemma DivCommon(l: nat, a: nat, c: nat)
    requires a > 0 && c > 0
    ensures l * c / (c * a) == l / a && c * a > 0
  {
    var h, r := l / a, l % a;
    assert l == h * a + r;
    Spread(h, r, a, c);
    ScaledBelow(r, c, a);
    MulPositive(c, a);
    assert h * (a * c) == h * (c * a);
    ModUnique(l * c, c * a, h, r * c);
  }

  lemma LowQuotient(x: nat, a: nat, b: nat)
    requires a > 0 && b > 0
    ensures a * b > 0 && x % (a * b) / a == x / a % b
  {
    MulPositive(a, b);
    var h, l := x / (a * b), x % (a * b);
    Quotient(l, a);
    var m, r := l / a, l % a;
    BelowProduct(m, r, a, b);
    Digits(x, h, m, r, a, b);
  }

  lemma BelowProduct(m: nat, r: nat, a: nat, b: nat)
    requires a > 0 && m * a + r < a * b
    ensures m < b
  {
    MulLess(m, b, a);
  }

  lemma Digits(x: nat, h: nat, m: nat, r: nat, a: nat, b: nat)
    requires a > 0 && b > 0 && r < a && m < b && x == h * (a * b) + (m * a + r)
    ensures x / a % b == m
  {
    assert (h * b + m) * a == h * (a * b) + m * a;
    ModUnique(x, a, h * b + m, r);
    ModUnique(h * b + m, b, h, m);
  }

  // ---------------------------------------------------------------- reading

  class BitStreamReader {
    var rest: seq<Byte>
    var buffer: Byte
    var offset: nat

    ghost predicate Valid()
      reads this
    {
      offset <= 8
    }

    /** Everything still to be read. */
    ghost function Remaining(): seq<bool>
      requires Valid()
      reads this
    {
      ToBits(buffer, 8 - offset) + BytesBits(rest)
    }

    constructor (stream: seq<Byte>)
      ensures Valid() && rest == stream && Remaining() == BytesBits(stream)
    {
      rest, buffer, offset := stream, 0, 8;
    }

    /** One turn of the loop: as many of the `left` bits as the current byte still has. */
    method ReadByte(left: nat, data: nat) returns (bits: nat, data': nat)
      requires Valid() && left > 0 && (offset < 8 || rest != [])
      modifies this
      ensures Valid() && offset > 0 && 0 < bits <= left && bits <= |old(Remaining())|
      ensures Remaining() == old(Remaining())[bits..]
      ensures data' == Shl(data, bits) + FromBits(old(Remaining())[..bits])
    {
      hide Pow2, BytesBits, ToBits, FromBits, BitOr, Shl, Shr, Low, Extracted;
      if offset == 8 {
        BytesHead(rest);
        EmptyBuffer(buffer);
        buffer := rest[0];
        rest := rest[1..];
        offset := 0;
        assert Remaining() == old(Remaining());
      }
      bits := if 8 - offset < left then 8 - offset else left;
      ReadChunk(data, buffer, offset, bits);
      ReadStep(buffer, offset, bits, rest);
      data' := BitOr(Shl(data, bits), Extracted(buffer, offset, bits));
      offset := offset + bits;
    }

    /** The next `nbits` bits as a number; None when the stream ends first or they are too many. */
    method Read(nbits: int) returns (ok: bool, data: nat)
      requires Valid()
      modifies this
      ensures Valid() && (ok <==> 0 <= nbits <= 64 && nbits <= |old(Remaining())|)
      ensures ok ==> data == FromBits(old(Remaining())[..nbits]) && Remaining() == old(Remaining())[nbits..]
      ensures ok ==> if nbits > 0 then offset > 0 else offset == old(offset)
    {
      hide Pow2, BytesBits, ToBits, FromBits, Shl;
      data := 0;
      if nbits < 0 || nbits > 64 {
        return false, 0;
      }
      var left: nat := nbits;
      ghost var all, done := Remaining(), 0;
      NothingRead();
      while left > 0
        invariant Valid() && done + left == nbits && done <= |all|
        invariant Remaining() == all[done..] && data == FromBits(all[..done])
        invariant if done > 0 then offset > 0 else offset == old(offset)
        decreases left
      {
        if offset == 8 && rest == [] {
          NoMoreBits(buffer, rest);
          return false, 0;
        }
        ghost var before := data;
        var bits;
        bits, data := ReadByte(left, data);
        ReadTurn(all, done, bits, before, data);
        left := left - bits;
        done := done + bits;
      }
      return true, data;
    }
  }

  lemma NothingRead()
    ensures FromBits([]) == 0 && Pow2(0) == 1
  {
  }

  lemma NoMoreBits(buffer: Byte, rest: seq<Byte>)
    requires rest == []
    ensures ToBits(buffer, 0) + BytesBits(rest) == []
  {
  }

  lemma EmptyBuffer(buffer: Byte)
    ensures ToBits(buffer, 0) == []
  {
  }

  /** The shifts select exactly the next bits of the buffer. */
  lemma ReadChunk(data: nat, buffer: Byte, offset: nat, bits: nat)
    requires 0 < bits && offset + bits <= 8
    ensures var chunk := Low(Shr(buffer, 8 - offset - bits), bits);
            && chunk < Pow2(bits)
            && BitOr(Shl(data, bits), Extracted(buffer, offset, bits)) == Shl(data, bits) + chunk
  {
    hide Pow2, BitOr;
    var l := buffer % Pow2(8 - offset);
    PowWords();
    PowAdd(8 - offset, offset);
    TopAligned(buffer, Pow2(8 - offset), Pow2(offset));
    PowAdd(offset, 8 - offset - bits);
    DivCommon(l, Pow2(8 - offset - bits), Pow2(offset));
    PowAdd(8 - offset - bits, bits);
    LowQuotient(buffer, Pow2(8 - offset - bits), Pow2(bits));
    var chunk := Low(Shr(buffer, 8 - offset - bits), bits);
    ModUnique(Shl(data, bits), Pow2(bits), data, 0);
    OrIsSum(chunk, Shl(data, bits), bits);
  }

  /** Taking bits from the buffer takes them from the front of what remains. */
  lemma ReadStep(buffer: Byte, offset: nat, bits: nat, rest: seq<Byte>)
    requires 0 < bits && offset + bits <= 8
    ensures var all := ToBits(buffer, 8 - offset) + BytesBits(rest);
            && all[bits..] == ToBits(buffer, 8 - offset - bits) + BytesBits(rest)
            && FromBits(all[..bits]) == Low(Shr(buffer, 8 - offset - bits), bits)
  {
    hide Pow2, BytesBits, ToBits, FromBits, Shr, Low;
    var all := ToBits(buffer, 8 - offset) + BytesBits(rest);
    var high := ToBits(Shr(buffer, 8 - offset - bits), bits);
    BitsSplit(buffer, bits, 8 - offset - bits);
    assert all == high + (ToBits(buffer, 8 - offset - bits) + BytesBits(rest));
    assert all[..bits] == high;
    FromToBits(Shr(buffer, 8 - offset - bits), bits);
  }

  lemma ReadTurn(all: seq<bool>, done: nat, bits: nat, data: nat, data': nat)
    requires done + bits <= |all| && data == FromBits(all[..done])
    requires data' == Shl(data, bits) + FromBits(all[done..][..bits])
    ensures data' == FromBits(all[..done + bits]) && all[done..][bits..] == all[done + bits..]
  {
    hide FromBits;
    assert all[..done + bits] == all[..done] + all[done..][..bits];
    FromConcat(all[..done], all[done..][..bits]);
  }

  lemma {:induction false} FromConcat(s: seq<bool>, t: seq<bool>)
    ensures FromBits(s + t) == FromBits(s) * Pow2(|t|) + FromBits(t)
    decreases |t|
  {
    if t == [] {
      assert s + t == s;
    } else {
      var last := |t| - 1;
      FromConcat(s, t[..last]);
      assert (s + t)[..|s + t| - 1] == s + t[..last];
      assert FromBits(s) * (2 * Pow2(last)) == 2 * (FromBits(s) * Pow2(last));
    }
  }
}
