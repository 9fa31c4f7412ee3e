/** The rolling bloom filter: three generations in two bits per position, wiped word by word. */
module RollingBloom {
  import opened Arithmetic
  import opened Common

  // ---------------------------------------------------------------- two bits per position

  function Bit(x: bv64, k: bv64): bool
    requires k < 64
  {
    (x >> k) & 1 == 1
  }

  /** The generation stored for bit `k` of word pair `w`; 0 is none. */
  function Stored(data: seq<bv64>, w: nat, k: bv64): int
    requires 2 * w + 1 < |data| && k < 64
  {
    StoredIn(data[2 * w], data[2 * w + 1], k)
  }

  function StoredIn(p1: bv64, p2: bv64, k: bv64): int
    requires k < 64
  {
    (if Bit(p1, k) then 1 else 0) + (if Bit(p2, k) then 2 else 0)
  }

  function LowBit(generation: int): bv64 { if generation % 2 == 1 then 1 else 0 }

  function HighBit(generation: int): bv64 { if generation / 2 == 1 then 1 else 0 }

  // The 64-bit operations the filter is made of, each with its effect on a single bit.

  function And(x: bv64, y: bv64): bv64 { x & y }
  function Or(x: bv64, y: bv64): bv64 { x | y }
  function Xor(x: bv64, y: bv64): bv64 { x ^ y }
  function Not(x: bv64): bv64 { !x }
  function Negated(x: bv64): bv64 { 0 - x }
  function Shifted(x: bv64, k: bv64): bv64 requires k < 64 { x << k }

  lemma AndBit(x: bv64, y: bv64, k: bv64)
    requires k < 64
    ensures Bit(And(x, y), k) == (Bit(x, k) && Bit(y, k))
  {
    hide Bit;
    BitwiseAnd(x, y, k);
  }

  lemma BitwiseAnd(x: bv64, y: bv64, k: bv64)
    requires k < 64
    ensures Bit(x & y, k) == (Bit(x, k) && Bit(y, k))
  {
  }

  lemma OrBit(x: bv64, y: bv64, k: bv64)
    requires k < 64
    ensures Bit(Or(x, y), k) == (Bit(x, k) || Bit(y, k))
  {
    hide Bit;
    BitwiseOr(x, y, k);
  }

  lemma BitwiseOr(x: bv64, y: bv64, k: bv64)
    requires k < 64
    ensures Bit(x | y, k) == (Bit(x, k) || Bit(y, k))
  {
  }

  lemma XorBit(x: bv64, y: bv64, k: bv64)
    requires k < 64
    ensures Bit(Xor(x, y), k) == (Bit(x, k) != Bit(y, k))
  {
    hide Bit;
    BitwiseXor(x, y, k);
  }

  lemma BitwiseXor(x: bv64, y: bv64, k: bv64)
    requires k < 64
    ensures Bit(x ^ y, k) == (Bit(x, k) != Bit(y, k))
  {
  }

  lemma NotBit(x: bv64, k: bv64)
    requires k < 64
    ensures Bit(Not(x), k) == !Bit(x, k)
  {
    hide Bit;
    BitwiseNot(x, k);
  }

  lemma BitwiseNot(x: bv64, k: bv64)
    requires k < 64
    ensures Bit(!x, k) == !Bit(x, k)
  {
  }

  lemma ShiftedBit(v: bv64, j: bv64, k: bv64)
    requires j < 64 && k < 64 && (v == 0 || v == 1)
    ensures Bit(Shifted(v, j), k) == (v == 1 && j == k)
  {
  }

  lemma OneShifted(j: bv64, k: bv64)
    requires j < 64 && k < 64
    ensures ((((1 as bv64) << j) >> k) & 1 == 1) == (j == k)
  {
  }

  /** Negating 0 or 1 gives all zeroes or all ones. */
  lemma NegatedBit(v: bv64, k: bv64)
    requires k < 64 && (v == 0 || v == 1)
    ensures Bit(Negated(v), k) == (v == 1)
  {
  }

  /** Overwriting bit `j` of a word. */
  function Overwritten(x: bv64, v: bv64, j: bv64): bv64
    requires j < 64
  {
    Or(And(x, Not(Shifted(1, j))), Shifted(v, j))
  }

  lemma OverwrittenBit(x: bv64, v: bv64, j: bv64, k: bv64)
    requires j < 64 && k < 64 && (v == 0 || v == 1)
    ensures Bit(Overwritten(x, v, j), k) == if k == j then v == 1 else Bit(x, k)
  {
    hide Bit, And, Or, Not, Shifted;
    OrBit(And(x, Not(Shifted(1, j))), Shifted(v, j), k);
    AndBit(x, Not(Shifted(1, j)), k);
    NotBit(Shifted(1, j), k);
    ShiftedBit(1, j, k);
    ShiftedBit(v, j, k);
  }

  /** The bits of a word pair that do not hold the generation with bits `v1` and `v2`. */
  function WipeMask(p1: bv64, p2: bv64, v1: bv64, v2: bv64): bv64 {
    Or(Xor(p1, Negated(v1)), Xor(p2, Negated(v2)))
  }

  /** The word-parallel wipe clears a position exactly when it holds the given generation. */
  lemma WipedBit(p1: bv64, p2: bv64, v1: bv64, v2: bv64, k: bv64)
    requires k < 64 && (v1 == 0 || v1 == 1) && (v2 == 0 || v2 == 1)
    ensures var hit := Bit(p1, k) == (v1 == 1) && Bit(p2, k) == (v2 == 1);
            && Bit(And(p1, WipeMask(p1, p2, v1, v2)), k) == (Bit(p1, k) && !hit)
            && Bit(And(p2, WipeMask(p1, p2, v1, v2)), k) == (Bit(p2, k) && !hit)
  {
    hide Bit, And, Or, Xor, Negated;
    AndBit(p1, WipeMask(p1, p2, v1, v2), k);
    AndBit(p2, WipeMask(p1, p2, v1, v2), k);
    OrBit(Xor(p1, Negated(v1)), Xor(p2, Negated(v2)), k);
    XorBit(p1, Negated(v1), k);
    XorBit(p2, Negated(v2), k);
    NegatedBit(v1, k);
    NegatedBit(v2, k);
  }

  /** The wipe of one word pair, in terms of generations. */
  lemma WipedPair(p1: bv64, p2: bv64, generation: int, k: bv64)
    requires 1 <= generation <= 3 && k < 64
    ensures var mask := WipeMask(p1, p2, LowBit(generation), HighBit(generation));
            StoredIn(And(p1, mask), And(p2, mask), k) == if StoredIn(p1, p2, k) == generation then 0
                else StoredIn(p1, p2, k)
  {
    hide Bit, And, WipeMask;
    WipedBit(p1, p2, LowBit(generation), HighBit(generation), k);
  }

  /** Overwriting one position with a generation. */
  lemma OverwrittenPair(p1: bv64, p2: bv64, generation: int, j: bv64, k: bv64)
    requires 1 <= generation <= 3 && j < 64 && k < 64
    ensures StoredIn(Overwritten(p1, LowBit(generation), j), Overwritten(p2, HighBit(generation), j), k) ==
            if k == j then generation else StoredIn(p1, p2, k)
  {
    hide Bit, Overwritten;
    OverwrittenBit(p1, LowBit(generation), j, k);
    OverwrittenBit(p2, HighBit(generation), j, k);
  }

  // ---------------------------------------------------------------- positions

  /** FastMod. */
  function FastMod(x: bv32, n: nat): (r: nat)
    ensures n > 0 ==> r < n
  {
    if n > 0 then ScaleBelow(x as nat, n, 0x1_0000_0000); x as nat * n / 0x1_0000_0000 else 0
  }

  /** A word pair and a bit. */
  datatype Place = Place(pair: nat, bit: bv64)

  function PlaceOf(h: bv32, n: nat): (p: Place)
    requires n > 0 && n % 2 == 0
    ensures p.bit < 64 && 2 * p.pair + 1 < n
  {
    Place(FastMod(h, n) / 2, (h & 0x3F) as bv64)
  }

  /** A 32-bit hash as a fraction of the words chooses the pair, and its remainder by 64 the bit. */
  lemma PlaceIs(h: bv32, n: nat)
    requires n > 0 && n % 2 == 0
    ensures var p := PlaceOf(h, n);
            && (2 * p.pair) * 0x1_0000_0000 <= h as nat * n < (2 * p.pair + 2) * 0x1_0000_0000
            && p.bit == (h as bv64) % 64
  {
    Fraction(h as nat * n, FastMod(h, n));
    LowBits(h);
  }

  lemma Fraction(x: nat, r: nat)
    requires r == x / 0x1_0000_0000
    ensures r * 0x1_0000_0000 <= x < (r + 1) * 0x1_0000_0000 && 2 * (r / 2) <= r <= 2 * (r / 2) + 1
  {
  }

  lemma LowBits(h: bv32)
    ensures (h & 0x3F) as bv64 == (h as bv64) % 64
  {
  }

  /** One of the first `n` positions of the key. */
  ghost predicate Among<Key>(hash: (nat, bv32, Key) -> bv32, tweak: bv32, size: nat, key: Key, n: nat, p: Place)
    requires size > 0 && size % 2 == 0
  {
    exists i: nat :: i < n && PlaceOf(hash(i, tweak, key), size) == p
  }

  lemma AmongNone<Key>(hash: (nat, bv32, Key) -> bv32, tweak: bv32, size: nat, key: Key)
    requires size > 0 && size % 2 == 0
    ensures forall p :: !Among(hash, tweak, size, key, 0, p)
  {
  }

  lemma AmongNext<Key>(hash: (nat, bv32, Key) -> bv32, tweak: bv32, size: nat, key: Key, n: nat, p: Place)
    requires size > 0 && size % 2 == 0
    ensures Among(hash, tweak, size, key, n + 1, p) <==>
            Among(hash, tweak, size, key, n, p) || PlaceOf(hash(n, tweak, key), size) == p
  {
    hide PlaceOf;
    if Among(hash, tweak, size, key, n, p) {
      var i: nat :| i < n && PlaceOf(hash(i, tweak, key), size) == p;
      assert i < n + 1;
    }
  }

  /** The generation number in use after `turns` changes of generation. */
  function GenerationAt(turns: nat): int { 1 + turns % 3 }

  /** The position was written in one of the generations `from` to `to` and is still marked so. */
  ghost predicate Marked(data: seq<bv64>, p: Place, from: nat, to: nat)
    requires p.bit < 64 && 2 * p.pair + 1 < |data|
  {
    exists t: nat :: from <= t <= to && Stored(data, p.pair, p.bit) == GenerationAt(t)
  }

  /** Marking a position with the current generation keeps every other mark, and that position's. */
  lemma MarksStay(data: seq<bv64>, data': seq<bv64>, q: Place, turns: nat)
    requires q.bit < 64 && 2 * q.pair + 1 < |data| == |data'|
    requires forall w: nat, k: bv64 :: 2 * w + 1 < |data| && k < 64 ==>
               Stored(data', w, k) == if w == q.pair && k == q.bit then GenerationAt(turns) else Stored(data, w, k)
    ensures Marked(data', q, turns, turns)
    ensures forall p: Place, since: nat ::
              since <= turns && p.bit < 64 && 2 * p.pair + 1 < |data| && Marked(data, p, since, turns) ==>
                Marked(data', p, since, turns)
  {
    hide Stored;
    assert Stored(data', q.pair, q.bit) == GenerationAt(turns);
    forall p: Place, since: nat | since <= turns && p.bit < 64 && 2 * p.pair + 1 < |data| &&
        Marked(data, p, since, turns)
      ensures Marked(data', p, since, turns)
    {
      assert Stored(data', p.pair, p.bit) == Stored(data, p.pair, p.bit) || Stored(data', p.pair, p.bit) ==
             GenerationAt(turns);
    }
  }

  /** All positions of a key are marked in generation `since` or later. */
  ghost predicate AllMarked<Key>(hash: (nat, bv32, Key) -> bv32, hashFuncs: nat, tweak: bv32, data: seq<bv64>,
                                 key: Key, since: nat, turns: nat)
    requires |data| > 0 && |data| % 2 == 0
  {
    forall n :: 0 <= n < hashFuncs ==> Marked(data, PlaceOf(hash(n, tweak, key), |data|), since, turns)
  }

  lemma TurnSpares<Key>(hash: (nat, bv32, Key) -> bv32, hashFuncs: nat, tweak: bv32, data: seq<bv64>,
                        data': seq<bv64>, key: Key, since: nat, turns: nat)
    requires 0 < |data| == |data'| && |data| % 2 == 0 && AllMarked(hash, hashFuncs, tweak, data, key, since, turns)
    requires turns + 1 <= since + 2
    requires forall w: nat, k: bv64 :: 2 * w + 1 < |data| && k < 64 ==>
               Stored(data', w, k) == if Stored(data, w, k) == GenerationAt(turns + 1) then 0 else Stored(data, w, k)
    ensures AllMarked(hash, hashFuncs, tweak, data', key, since, turns + 1)
  {
  }

  function RoomFor(perGeneration: nat, entries: nat, since: nat, turns: nat): int {
    if perGeneration == 0 then 0 else (since + 3 - turns) * perGeneration - entries
  }

  /** One insert uses up one insert of room, whether or not it starts a generation; and room left
      means the generation it starts is not yet the one that wipes. */
  lemma RoomAfterTurn(perGeneration: nat, entries: nat, turns: nat)
    requires perGeneration > 0 ==> entries <= perGeneration
    ensures forall since: nat :: RoomFor(perGeneration, entries, since, turns) > 0 ==>
              if entries == perGeneration then
                turns + 1 <= since + 2 && RoomFor(perGeneration, 1, since, turns + 1) ==
                    RoomFor(perGeneration, entries, since, turns) - 1
              else
                RoomFor(perGeneration, entries + 1, since, turns) == RoomFor(perGeneration, entries, since, turns) - 1
    ensures entries < perGeneration ==> RoomFor(perGeneration, entries + 1, turns, turns) >= 2 * perGeneration
    ensures perGeneration > 0 ==> RoomFor(perGeneration, 1, turns + 1, turns + 1) >= 2 * perGeneration
  {
    forall since: nat | RoomFor(perGeneration, entries, since, turns) > 0
      ensures if entries == perGeneration then
                turns + 1 <= since + 2 && RoomFor(perGeneration, 1, since, turns + 1) ==
                    RoomFor(perGeneration, entries, since, turns) - 1
              else
                RoomFor(perGeneration, entries + 1, since, turns) == RoomFor(perGeneration, entries, since, turns) - 1
    {
      var g := since + 3 - turns;
      assert (g - 1) * perGeneration == g * perGeneration - perGeneration;
      if entries == perGeneration && g < 2 {
        MulMono(g - 1, 0, perGeneration);
      }
    }
  }

  // ---------------------------------------------------------------- the class

  class CRollingBloomFilter<Key(!new)> {
    const hash: (nat, bv32, Key) -> bv32
    const nHashFuncs: nat
    const nEntriesPerGeneration: nat
    var nEntriesThisGeneration: nat
    var nGeneration: int
    var data: seq<bv64>
    var nTweak: bv32
    ghost var turns: nat     // changes of generation since the last reset

    ghost predicate Valid()
      reads this
    {
      && |data| > 0 && |data| % 2 == 0
      && nGeneration == GenerationAt(turns)
      && (nEntriesPerGeneration > 0 ==> nEntriesThisGeneration <= nEntriesPerGeneration)
    }

    function PlaceFor(key: Key, n: nat): (p: Place)
      requires |data| > 0 && |data| % 2 == 0
      reads this
      ensures p.bit < 64 && 2 * p.pair + 1 < |data|
    {
      PlaceOf(hash(n, nTweak, key), |data|)
    }

    ghost predicate Has(key: Key)
      requires |data| > 0 && |data| % 2 == 0
      reads this
    {
      forall n :: 0 <= n < nHashFuncs ==> Stored(data, PlaceFor(key, n).pair, PlaceFor(key, n).bit) != 0
    }

    /** All the key's positions were marked in generation `since` or later. */
    ghost predicate MarkedSince(key: Key, since: nat)
      requires |data| > 0 && |data| % 2 == 0
      reads this`data, this`nTweak, this`turns
    {
      AllMarked(hash, nHashFuncs, nTweak, data, key, since, turns)
    }

    /** Inserts that can follow before marks of generation `since` are wiped. */
    ghost function Room(since: nat): int
      reads this
    {
      RoomFor(nEntriesPerGeneration, nEntriesThisGeneration, since, turns)
    }

    /** The key will be found through the next `inserts` inserts. */
    ghost predicate Remembered(key: Key, inserts: nat)
      requires |data| > 0 && |data| % 2 == 0
      reads this
    {
      exists since: nat :: since <= turns <= since + 2 && MarkedSince(key, since) && inserts <= Room(since)
    }

    lemma RememberedIsFound(key: Key, inserts: nat)
      requires Valid() && Remembered(key, inserts)
      ensures Has(key)
    {
    }

    /** Without filter bits, as for no elements at all, and with so many that rounding them up wraps,
        there are no words to mark. */
    constructor (hashFunction: (nat, bv32, Key) -> bv32, hashFuncs: nat, nElements: Word, nFilterBits: Word,
                 tweak: bv32)
      ensures Valid() <==> 0 < nFilterBits <= 0x1_0000_0000 - 64
      ensures nEntriesPerGeneration == (nElements + 1) % 0x1_0000_0000 / 2 && nHashFuncs == hashFuncs
      ensures hash == hashFunction
      ensures forall i :: 0 <= i < |data| ==> data[i] == 0
    {
      hash, nHashFuncs := hashFunction, hashFuncs;
      nEntriesPerGeneration := (nElements + 1) % 0x1_0000_0000 / 2;
      data := seq((nFilterBits + 63) % 0x1_0000_0000 / 64 * 2, _ => 0);
      nTweak, nEntriesThisGeneration, nGeneration, turns := tweak, 0, 1, 0;
    }

    method Reset(tweak: bv32)
      requires Valid()
      modifies this
      ensures Valid() && nTweak == tweak && |data| == old(|data|) && nEntriesThisGeneration == 0
      ensures forall i :: 0 <= i < |data| ==> data[i] == 0
    {
      nTweak, nEntriesThisGeneration, nGeneration, turns := tweak, 0, 1, 0;
      for i := 0 to |data|
        modifies this`data
        invariant |data| == old(|data|) && forall j :: 0 <= j < i ==> data[j] == 0
      {
        data := data[i := 0];
      }
    }

    /** Clears every position that holds the current generation number. */
    method Wipe()
      requires |data| % 2 == 0 && 1 <= nGeneration <= 3
      modifies this`data
      ensures |data| == old(|data|)
      ensures forall w: nat, k: bv64 :: 2 * w + 1 < |data| && k < 64 ==>
                Stored(data, w, k) == if old(Stored(data, w, k)) == nGeneration then 0 else old(Stored(data, w, k))
    {
      hide StoredIn, And, WipeMask;
      var p := 0;
      while p < |data|
        invariant |data| == old(|data|) && p % 2 == 0 && p <= |data|
        invariant forall i :: p <= i < |data| ==> data[i] == old(data[i])
        invariant forall w: nat, k: bv64 :: 2 * w + 1 < p && k < 64 ==>
                    Stored(data, w, k) == if old(Stored(data, w, k)) == nGeneration then 0 else old(Stored(data, w, k))
      {
        var p1, p2 := data[p], data[p + 1];
        var mask := WipeMask(p1, p2, LowBit(nGeneration), HighBit(nGeneration));
        data := data[p := And(p1, mask)][p + 1 := And(p2, mask)];
        forall k: bv64 | k < 64 {
          WipedPair(p1, p2, nGeneration, k);
        }
        p := p + 2;
      }
    }

    /** Starts a new generation; marks of the two generations before it survive. */
    method NextGeneration()
      requires Valid()
      modifies this`data, this`nGeneration, this`nEntriesThisGeneration, this`turns
      ensures |data| == old(|data|) && turns == old(turns) + 1 && nGeneration == GenerationAt(turns)
      ensures nEntriesThisGeneration == 0
      ensures forall w: nat, k: bv64 :: 2 * w + 1 < |data| && k < 64 ==>
                Stored(data, w, k) == if old(Stored(data, w, k)) == nGeneration then 0 else old(Stored(data, w, k))
      ensures forall key, since: nat :: old(MarkedSince(key, since)) && turns <= since + 2 ==> MarkedSince(key, since)
    {
      hide Stored;
      nEntriesThisGeneration := 0;
      nGeneration := nGeneration + 1;
      if nGeneration == 4 {
        nGeneration := 1;
      }
      turns := turns + 1;
      Wipe();
      forall key, since: nat | old(MarkedSince(key, since)) && turns <= since + 2
        ensures MarkedSince(key, since)
      {
        TurnSpares(hash, nHashFuncs, nTweak, old(data), data, key, since, old(turns));
      }
    }

    /** Marks one position with the current generation. */
    method Mark(p: Place)
      requires Valid() && p.bit < 64 && 2 * p.pair + 1 < |data|
      modifies this`data
      ensures Valid() && |data| == old(|data|)
      ensures forall w: nat, k: bv64 :: 2 * w + 1 < |data| && k < 64 ==>
                Stored(data, w, k) == if w == p.pair && k == p.bit then nGeneration else old(Stored(data, w, k))
    {
      hide StoredIn, Overwritten;
      ghost var p1, p2 := data[2 * p.pair], data[2 * p.pair + 1];
      forall k: bv64 | k < 64
        ensures StoredIn(Overwritten(p1, LowBit(nGeneration), p.bit), Overwritten(p2, HighBit(nGeneration), p.bit),
                k) ==
                if k == p.bit then nGeneration else StoredIn(p1, p2, k)
      {
        OverwrittenPair(p1, p2, nGeneration, p.bit, k);
      }
      data := data[2 * p.pair := Overwritten(data[2 * p.pair], LowBit(nGeneration), p.bit)];
      data := data[2 * p.pair + 1 := Overwritten(data[2 * p.pair + 1], HighBit(nGeneration), p.bit)];
    }

    /** One of the first `n` positions of the key. */
    ghost predicate IsPlace(key: Key, n: nat, w: nat, k: bv64)
      requires |data| > 0 && |data| % 2 == 0
      reads this`data, this`nTweak
    {
      Among(hash, nTweak, |data|, key, n, Place(w, k))
    }

    /** Marks every position of the key and no other; marks of other keys stay marks. */
    method MarkAll(key: Key)
      requires Valid()
      modifies this`data
      ensures Valid() && |data| == old(|data|) && MarkedSince(key, turns)
      ensures forall w: nat, k: bv64 :: 2 * w + 1 < |data| && k < 64 ==>
                Stored(data, w, k) == if IsPlace(key, nHashFuncs, w, k) then nGeneration else old(Stored(data, w, k))
      ensures forall other, since: nat :: since <= turns && old(MarkedSince(other, since)) ==> MarkedSince(other, since)
    {
      hide Stored, PlaceOf, Among;
      AmongNone(hash, nTweak, |data|, key);
      for n := 0 to nHashFuncs
        invariant Valid() && |data| == old(|data|)
        invariant forall w: nat, k: bv64 :: 2 * w + 1 < |data| && k < 64 ==>
                    Stored(data, w, k) == if IsPlace(key, n, w, k) then nGeneration else old(Stored(data, w, k))
        invariant forall i :: 0 <= i < n ==> Marked(data, PlaceOf(hash(i, nTweak, key), |data|), turns, turns)
        invariant forall p: Place, since: nat ::
                    since <= turns && p.bit < 64 && 2 * p.pair + 1 < |data| && old(Marked(data, p, since, turns)) ==>
                      Marked(data, p, since, turns)
      {
        var p := PlaceFor(key, n);
        ghost var before := data;
        Mark(p);
        MarksStay(before, data, p, turns);
        forall w: nat, k: bv64
          ensures IsPlace(key, n + 1, w, k) <==> IsPlace(key, n, w, k) || p == Place(w, k)
        {
          AmongNext(hash, nTweak, |data|, key, n, Place(w, k));
        }
      }
    }

    /** The inserted key is remembered through the next two generations' worth of inserts, and each
        other key loses one insert of what it had left. */
    method Insert(key: Key)
      requires Valid()
      modifies this`data, this`nGeneration, this`nEntriesThisGeneration, this`turns
      ensures Valid() && |data| == old(|data|)
      ensures Remembered(key, 2 * nEntriesPerGeneration)
      ensures if old(nEntriesThisGeneration) == nEntriesPerGeneration
              then nEntriesThisGeneration == 1 && nGeneration == old(nGeneration) % 3 + 1
              else nEntriesThisGeneration == old(nEntriesThisGeneration) + 1 && nGeneration == old(nGeneration)
      ensures forall w: nat, k: bv64 :: 2 * w + 1 < |data| && k < 64 ==>
                Stored(data, w, k) ==
                if IsPlace(key, nHashFuncs, w, k) then nGeneration
                else if old(nEntriesThisGeneration) == nEntriesPerGeneration && old(Stored(data, w, k)) == nGeneration
                then 0 else old(Stored(data, w, k))
      ensures forall other, inserts: nat :: inserts > 0 && old(Remembered(other, inserts)) ==>
              Remembered(other, inserts - 1)
    {
      hide MarkedSince;
      if nEntriesThisGeneration == nEntriesPerGeneration {
        NextGeneration();
      }
      nEntriesThisGeneration := nEntriesThisGeneration + 1;
      MarkAll(key);
      RoomAfterTurn(nEntriesPerGeneration, old(nEntriesThisGeneration), old(turns));
      forall other, inserts: nat | inserts > 0 && old(Remembered(other, inserts))
        ensures Remembered(other, inserts - 1)
      {
        var since: nat :| since <= old(turns) <= since + 2 && old(MarkedSince(other, since)) &&
            inserts <= old(Room(since));
        assert RoomFor(nEntriesPerGeneration, old(nEntriesThisGeneration), since, old(turns)) > 0;
        assert MarkedSince(other, since);
      }
      assert MarkedSince(key, turns);
    }

    /** Insert a key, then any others, at most two generations of them: the key is still found. */
    method InsertThenOthers(key: Key, others: seq<Key>) returns (b: bool)
      requires Valid() && |others| <= 2 * nEntriesPerGeneration
      modifies this`data, this`nGeneration, this`nEntriesThisGeneration, this`turns
      ensures b
    {
      Insert(key);
      for i := 0 to |others|
        invariant Valid() && Remembered(key, 2 * nEntriesPerGeneration - i)
      {
        Insert(others[i]);
      }
      RememberedIsFound(key, 2 * nEntriesPerGeneration - |others|);
      b := Contains(key);
    }

    method Contains(key: Key) returns (b: bool)
      requires Valid()
      ensures b == Has(key)
    {
      for n := 0 to nHashFuncs
        invariant forall i :: 0 <= i < n ==> Stored(data, PlaceFor(key, i).pair, PlaceFor(key, i).bit) != 0
      {
        var p := PlaceFor(key, n);
        OrBit(data[2 * p.pair], data[2 * p.pair + 1], p.bit);
        if !Bit(Or(data[2 * p.pair], data[2 * p.pair + 1]), p.bit) {
          return false;
        }
      }
      return true;
    }
  }
}
