/** The cuckoo cache of recently verified signatures: eight locations per element, displacement up
    to a depth limit, lazy erasure through packed flags, and epochs. */
module CuckooCache {
  import opened Arithmetic
  import opened Bits
  import opened Common

  const INVALID: int := 0xFFFF_FFFF

  /** The largest size whose flags fit. */
  const LAST_SIZE: int := 0xFFFF_FFF8

  // ---------------------------------------------------------------- packed flags

  function BitIsSet(mem: seq<bv8>, s: nat): bool
    requires s < 8 * |mem|
  {
    Bit(mem[s / 8], s % 8)
  }

  /** bit_set. */
  function BitSet(mem: seq<bv8>, s: nat): (r: seq<bv8>)
    requires s < 8 * |mem|
    ensures |r| == |mem|
    ensures forall t :: 0 <= t < 8 * |mem| ==> BitIsSet(r, t) == (BitIsSet(mem, t) || t == s)
  {
    SetFlag(mem, s);
    mem[s / 8 := mem[s / 8] | (1 << (s % 8))]
  }

  lemma SetFlag(mem: seq<bv8>, s: nat)
    requires s < 8 * |mem|
    ensures var r := mem[s / 8 := mem[s / 8] | (1 << (s % 8))];
            forall t :: 0 <= t < 8 * |mem| ==> BitIsSet(r, t) == (BitIsSet(mem, t) || t == s)
  {
  }

  /** bit_unset. */
  function BitUnset(mem: seq<bv8>, s: nat): (r: seq<bv8>)
    requires s < 8 * |mem|
    ensures |r| == |mem|
    ensures forall t :: 0 <= t < 8 * |mem| ==> BitIsSet(r, t) == (BitIsSet(mem, t) && t != s)
  {
    UnsetFlag(mem, s);
    mem[s / 8 := mem[s / 8] & !(1 << (s % 8))]
  }

  lemma UnsetFlag(mem: seq<bv8>, s: nat)
    requires s < 8 * |mem|
    ensures var r := mem[s / 8 := mem[s / 8] & !(1 << (s % 8))];
            forall t :: 0 <= t < 8 * |mem| ==> BitIsSet(r, t) == (BitIsSet(mem, t) && t != s)
  {
    hide Bit;
    forall t | 0 <= t < 8 * |mem|
      ensures Bit(mem[s / 8] & !(1 << (s % 8)), t % 8) == (Bit(mem[s / 8], t % 8) && t % 8 != s % 8)
    {
      ClearBit(mem[s / 8], s % 8, t % 8);
    }
  }

  /** A new flag array: everything collected. The 32-bit sum of the size and 7 wraps for the seven
      largest sizes, and then no flag fits at all. */
  function AllCollected(size: Word): (r: seq<bv8>)
    ensures size <= 8 * |r| <==> size <= LAST_SIZE
    ensures forall t :: 0 <= t < 8 * |r| ==> BitIsSet(r, t)
  {
    var r := seq((size + 7) % 0x1_0000_0000 / 8, _ => 0xFF as bv8);
    assert forall t :: 0 <= t < 8 * |r| ==> BitIsSet(r, t) by {
      forall t | 0 <= t < 8 * |r|
        ensures BitIsSet(r, t)
      {
        AllSet(t % 8);
      }
    }
    r
  }

  // ---------------------------------------------------------------- locations

  /** A 32-bit hash scaled to the table. */
  function Scaled(h: Word, size: Word): (r: nat)
    ensures size > 0 ==> r < size
  {
    if size > 0 then ScaleBelow(h, size, 0x1_0000_0000); h * size / 0x1_0000_0000 else
    h * size / 0x1_0000_0000
  }

  /** compute_hashes. */
  function Locs<E>(hash: (nat, E) -> Word, size: Word, e: E): (r: seq<nat>)
    ensures |r| == 8 && (size > 0 ==> forall i :: 0 <= i < 8 ==> r[i] < size)
  {
    [Scaled(hash(0, e), size), Scaled(hash(1, e), size), Scaled(hash(2, e), size), Scaled(hash(3, e), size),
     Scaled(hash(4, e), size), Scaled(hash(5, e), size), Scaled(hash(6, e), size), Scaled(hash(7, e), size)]
  }

  /** Location `i` is the 32-bit hash `i` as a fraction of the table. */
  lemma LocsAre<E>(hash: (nat, E) -> Word, size: Word, e: E, i: nat)
    requires i < 8
    ensures var r := Locs(hash, size, e)[i];
            r * 0x1_0000_0000 <= hash(i, e) * size < (r + 1) * 0x1_0000_0000
  {
  }

  ghost predicate Findable<E>(hash: (nat, E) -> Word, table: seq<E>, e: E)
    requires 0 < |table| < 0x1_0000_0000
  {
    exists i :: 0 <= i < 8 && table[Locs(hash, |table|, e)[i]] == e
  }

  /** Everything but unused slots is where it can be found. */
  ghost predicate Placed<E>(hash: (nat, E) -> Word, table: seq<E>, mem: seq<bv8>, unused: E)
    requires 0 < |table| < 0x1_0000_0000 && |table| <= 8 * |mem|
  {
    forall i :: 0 <= i < |table| && (table[i] != unused || !BitIsSet(mem, i)) ==> i in Locs(hash, |table|, table[i])
  }

  ghost predicate Once<E>(table: seq<E>, unused: E) {
    forall i, j :: 0 <= i < j < |table| && table[i] == table[j] ==> table[i] == unused
  }

  // ---------------------------------------------------------------- epochs

  /** How many of the first `n` slots are in the current epoch and not erased. */
  function LiveCount(epoch: seq<bool>, mem: seq<bv8>, n: nat): nat
    requires n <= |epoch| && n <= 8 * |mem|
  {
    if n == 0 then 0 else LiveCount(epoch, mem, n - 1) + (if epoch[n - 1] && !BitIsSet(mem, n - 1) then 1 else 0)
  }

  function IsLive(epoch: seq<bool>, mem: seq<bv8>, i: nat): nat
    requires i < |epoch| && i < 8 * |mem|
  {
    if epoch[i] && !BitIsSet(mem, i) then 1 else 0
  }

  /** Changing one slot changes the count by that slot. */
  lemma {:induction false} LiveCountUpdate(epoch: seq<bool>, mem: seq<bv8>, epoch': seq<bool>, mem': seq<bv8>, i: nat,
                                           n: nat)
    requires n <= |epoch| == |epoch'| && n <= 8 * |mem| && |mem'| == |mem| && i < n
    requires forall t :: 0 <= t < n && t != i ==> epoch'[t] == epoch[t] && BitIsSet(mem', t) == BitIsSet(mem, t)
    ensures LiveCount(epoch', mem', n) == LiveCount(epoch, mem, n) - IsLive(epoch, mem, i) + IsLive(epoch', mem', i)
  {
    if i == n - 1 {
      LiveCountSame(epoch, mem, epoch', mem', n - 1);
    } else {
      LiveCountUpdate(epoch, mem, epoch', mem', i, n - 1);
    }
  }

  lemma {:induction false} LiveCountSame(epoch: seq<bool>, mem: seq<bv8>, epoch': seq<bool>, mem': seq<bv8>, n: nat)
    requires n <= |epoch| == |epoch'| && n <= 8 * |mem| && |mem'| == |mem|
    requires forall t :: 0 <= t < n ==> epoch'[t] == epoch[t] && BitIsSet(mem', t) == BitIsSet(mem, t)
    ensures LiveCount(epoch', mem', n) == LiveCount(epoch, mem, n)
  {
    if n > 0 {
      LiveCountSame(epoch, mem, epoch', mem', n - 1);
    }
  }

  lemma {:induction false} LiveCountNone(epoch: seq<bool>, mem: seq<bv8>, n: nat)
    requires n <= |epoch| && n <= 8 * |mem|
    requires forall t :: 0 <= t < n ==> !epoch[t] || BitIsSet(mem, t)
    ensures LiveCount(epoch, mem, n) == 0
  {
    if n > 0 {
      LiveCountNone(epoch, mem, n - 1);
    }
  }

  /** The most an epoch may hold together with the inserts left before the next scan. */
  function EpochBound(epochSize: int): int { epochSize + Max(1, epochSize / 16) }

  // ---------------------------------------------------------------- one slot changes

  /** Findability when one slot gets a new element that belongs there. */
  lemma Replaced<E>(hash: (nat, E) -> Word, table: seq<E>, loc: nat, e: E, x: E)
    requires 0 < |table| < 0x1_0000_0000 && loc < |table| && loc in Locs(hash, |table|, e)
    ensures x == e ==> Findable(hash, table[loc := e], x)
    ensures x != e && x != table[loc] ==> (Findable(hash, table[loc := e], x) <==> Findable(hash, table, x))
    ensures x != e && Findable(hash, table[loc := e], x) ==> Findable(hash, table, x)
  {
    var t := table[loc := e];
    var locs := Locs(hash, |table|, x);
    assert |t| == |table|;
    if x == e {
      var i :| 0 <= i < 8 && locs[i] == loc;
      assert t[Locs(hash, |t|, x)[i]] == x;
    } else {
      if Findable(hash, table, x) && x != table[loc] {
        var i :| 0 <= i < 8 && table[locs[i]] == x;
        assert t[locs[i]] == x;
      }
      if Findable(hash, t, x) {
        var i :| 0 <= i < 8 && t[locs[i]] == x;
        assert table[locs[i]] == x;
      }
    }
  }

  /** What a displacement run has done so far: `e` is the element in hand. */
  ghost predicate InHand<E(!new)>(hash: (nat, E) -> Word, was: seq<E>, table: seq<E>, inserted: E, e: E, unused: E)
    requires 0 < |table| == |was| < 0x1_0000_0000
  {
    && (e != unused ==> e !in table)
    && (Findable(hash, was, e) || e == inserted)
    && (forall x :: Findable(hash, table, x) ==> Findable(hash, was, x) || x == inserted)
    && (forall x :: x != e && (Findable(hash, was, x) || x == inserted) ==> Findable(hash, table, x))
  }

  /** Swapping the element in hand with a live one keeps everything else findable. */
  lemma Swapped<E(!new)>(hash: (nat, E) -> Word, was: seq<E>, table: seq<E>, mem: seq<bv8>, inserted: E, e: E,
                         unused: E, loc: nat)
    requires 0 < |table| == |was| < 0x1_0000_0000 && |table| <= 8 * |mem|
    requires InHand(hash, was, table, inserted, e, unused) && Placed(hash, table, mem, unused) && Once(table, unused)
    requires loc < |table| && loc in Locs(hash, |table|, e) && !BitIsSet(mem, loc)
    ensures InHand(hash, was, table[loc := e], inserted, table[loc], unused)
    ensures Placed(hash, table[loc := e], mem, unused) && Once(table[loc := e], unused)
    ensures loc in Locs(hash, |table|, table[loc])
  {
    var y, t := table[loc], table[loc := e];
    assert Findable(hash, table, y) by {
      var i :| 0 <= i < 8 && Locs(hash, |table|, y)[i] == loc;
    }
    forall x
      ensures Findable(hash, t, x) ==> Findable(hash, was, x) || x == inserted
      ensures x != y && (Findable(hash, was, x) || x == inserted) ==> Findable(hash, t, x)
    {
      Replaced(hash, table, loc, e, x);
    }
  }

  /** Putting the element in hand into a collected slot loses at most what was there. */
  lemma PutDown<E(!new)>(hash: (nat, E) -> Word, was: seq<E>, table: seq<E>, mem: seq<bv8>, inserted: E, e: E,
                         unused: E, loc: nat)
    requires 0 < |table| == |was| < 0x1_0000_0000 && |table| <= 8 * |mem|
    requires InHand(hash, was, table, inserted, e, unused) && Placed(hash, table, mem, unused) && Once(table, unused)
    requires loc < |table| && loc in Locs(hash, |table|, e)
    ensures var t := table[loc := e];
            && Placed(hash, t, BitUnset(mem, loc), unused) && Once(t, unused)
            && (forall x :: Findable(hash, t, x) ==> Findable(hash, was, x) || x == inserted)
            && (forall x :: x != table[loc] && (Findable(hash, was, x) || x == inserted) ==> Findable(hash, t, x))
  {
    var t := table[loc := e];
    forall x
      ensures Findable(hash, t, x) ==> Findable(hash, was, x) || x == inserted
      ensures x != table[loc] && (Findable(hash, was, x) || x == inserted) ==> Findable(hash, t, x)
    {
      Replaced(hash, table, loc, e, x);
    }
  }

  /** std::find: the length when it is not there. */
  function Position(locs: seq<nat>, loc: nat): (k: nat)
    ensures k <= |locs| && (k < |locs| ==> locs[k] == loc) && forall i :: 0 <= i < k ==> locs[i] != loc
  {
    if locs == [] || locs[0] == loc then 0 else 1 + Position(locs[1..], loc)
  }

  /** The first displacement goes to the second location, not the first as the comment there says;
      later ones go to the location after the last one used. */
  lemma FirstDisplacement<E>(hash: (nat, E) -> Word, size: Word, e: E)
    requires 0 < size
    ensures (1 + Position(Locs(hash, size, e), INVALID)) % 8 == 1
  {
  }

  lemma KeptPlaced<E>(hash: (nat, E) -> Word, table: seq<E>, mem: seq<bv8>, unused: E, loc: nat)
    requires 0 < |table| < 0x1_0000_0000 && |table| <= 8 * |mem| && Placed(hash, table, mem, unused)
    requires loc < |table| && loc in Locs(hash, |table|, table[loc])
    ensures Placed(hash, table, BitUnset(mem, loc), unused)
  {
  }

  lemma StoredThere<E>(hash: (nat, E) -> Word, table: seq<E>, e: E, loc: nat)
    requires 0 < |table| < 0x1_0000_0000 && loc < |table| && table[loc] == e && loc in Locs(hash, |table|, e)
    ensures Findable(hash, table, e)
  {
  }

  lemma FoundAt<E>(hash: (nat, E) -> Word, table: seq<E>, e: E, k: nat)
    requires 0 < |table| < 0x1_0000_0000 && k < 8 && table[Locs(hash, |table|, e)[k]] == e
    ensures Findable(hash, table, e)
  {
  }

  /** Before any displacement the element in hand is the one inserted. */
  lemma NothingInHand<E(!new)>(hash: (nat, E) -> Word, table: seq<E>, mem: seq<bv8>, e: E, unused: E)
    requires 0 < |table| < 0x1_0000_0000 && |table| <= 8 * |mem| && Placed(hash, table, mem, unused)
    requires forall i :: 0 <= i < 8 ==> table[Locs(hash, |table|, e)[i]] != e
    ensures InHand(hash, table, table, e, e, unused)
  {
  }

  lemma Dropped<E(!new)>(hash: (nat, E) -> Word, was: seq<E>, table: seq<E>, inserted: E, e: E, unused: E)
    requires 0 < |table| == |was| < 0x1_0000_0000 && InHand(hash, was, table, inserted, e, unused)
    ensures forall x :: Findable(hash, table, x) ==> Findable(hash, was, x) || x == inserted
    ensures forall x :: x != e && (Findable(hash, was, x) || x == inserted) ==> Findable(hash, table, x)
  {
  }

  // ---------------------------------------------------------------- the walk

  /** A moment of the walk: the table, the element in hand and where it came from. */
  datatype Hand<E> = Hand(table: seq<E>, e: E, last: nat)

  /** The location after the one used last, wrapping around; the second for a new element. */
  function NextLoc(locs: seq<nat>, last: nat): (r: nat)
    requires |locs| == 8
    ensures r in locs
  {
    locs[(1 + Position(locs, last)) % 8]
  }

  lemma NextLocIs(locs: seq<nat>, last: nat, i: nat)
    requires |locs| == 8 && i < 8
    ensures last !in locs ==> NextLoc(locs, last) == locs[1]
    ensures locs[i] == last && last !in locs[..i] ==> NextLoc(locs, last) == locs[if i == 7 then 0 else i + 1]
  {
    hide Position;
    assert forall k :: 0 <= k < i ==> locs[..i][k] == locs[k];
  }

  /** The walk after `k` displacements. */
  ghost function After<E>(hash: (nat, E) -> Word, h: Hand<E>, k: nat): (r: Hand<E>)
    requires 0 < |h.table| < 0x1_0000_0000
    ensures |r.table| == |h.table|
  {
    if k == 0 then h else
      var b := After(hash, h, k - 1);
      var l := NextLoc(Locs(hash, |b.table|, b.e), b.last);
      Hand(b.table[l := b.e], b.table[l], l)
  }

  lemma AfterNone<E>(hash: (nat, E) -> Word, h: Hand<E>)
    requires 0 < |h.table| < 0x1_0000_0000
    ensures After(hash, h, 0) == h
  {
  }

  lemma AfterNext<E>(hash: (nat, E) -> Word, h: Hand<E>, k: nat)
    requires 0 < |h.table| < 0x1_0000_0000
    ensures var b := After(hash, h, k);
            var l := NextLoc(Locs(hash, |b.table|, b.e), b.last);
            After(hash, h, k + 1) == Hand(b.table[l := b.e], b.table[l], l)
  {
  }

  /** No location of `e` is collected. */
  ghost predicate Stuck<E>(hash: (nat, E) -> Word, mem: seq<bv8>, size: Word, e: E)
    requires 0 < size <= 8 * |mem|
  {
    forall i :: 0 <= i < 8 ==> !BitIsSet(mem, Locs(hash, size, e)[i])
  }

  /** How an insertion of `e` ends: elements with no collected location are displaced one by one, until
      one has such a location, which it takes, or until `limit` of them were displaced and the last
      is dropped. Only then is a kept element lost. */
  ghost predicate Walked<E>(hash: (nat, E) -> Word, was: seq<E>, mem: seq<bv8>, e: E, limit: nat, k: nat, table: seq<E>,
                            lost: set<E>)
    requires 0 < |was| < 0x1_0000_0000 && |was| <= 8 * |mem|
  {
    var start := Hand(was, e, INVALID);
    && k <= limit && (forall j :: 0 <= j < k ==> Stuck(hash, mem, |was|, After(hash, start, j).e))
    && var h := After(hash, start, k);
       if k == limit then table == h.table && lost == {h.e} else
         exists s :: s in Locs(hash, |was|, h.e) && BitIsSet(mem, s) && table == h.table[s := h.e] && lost == {was[s]}
  }

  lemma IsStuck<E>(hash: (nat, E) -> Word, mem: seq<bv8>, size: Word, e: E)
    requires 0 < size <= 8 * |mem| && forall i :: 0 <= i < 8 ==> !BitIsSet(mem, Locs(hash, size, e)[i])
    ensures Stuck(hash, mem, size, e)
  {
  }

  lemma TookFree<E>(hash: (nat, E) -> Word, was: seq<E>, mem: seq<bv8>, e: E, limit: nat, k: nat, s: nat)
    requires 0 < |was| < 0x1_0000_0000 && |was| <= 8 * |mem| && k < limit
    requires forall j :: 0 <= j < k ==> Stuck(hash, mem, |was|, After(hash, Hand(was, e, INVALID), j).e)
    requires s in Locs(hash, |was|, After(hash, Hand(was, e, INVALID), k).e) && s < |was| && BitIsSet(mem, s)
    ensures var h := After(hash, Hand(was, e, INVALID), k);
            h.table[s] == was[s] && Walked(hash, was, mem, e, limit, k, h.table[s := h.e], {h.table[s]})
  {
    hide BitIsSet, Locs, Stuck, After;
    AfterSpares(hash, mem, Hand(was, e, INVALID), k, s);
  }

  lemma RanOut<E>(hash: (nat, E) -> Word, was: seq<E>, mem: seq<bv8>, e: E, limit: nat)
    requires 0 < |was| < 0x1_0000_0000 && |was| <= 8 * |mem|
    requires forall j :: 0 <= j < limit ==> Stuck(hash, mem, |was|, After(hash, Hand(was, e, INVALID), j).e)
    ensures var h := After(hash, Hand(was, e, INVALID), limit);
            Walked(hash, was, mem, e, limit, limit, h.table, {h.e})
  {
  }

  /** Collected slots are not touched by displacements. */
  lemma {:induction false} AfterSpares<E>(hash: (nat, E) -> Word, mem: seq<bv8>, h: Hand<E>, k: nat, s: nat)
    requires 0 < |h.table| < 0x1_0000_0000 && |h.table| <= 8 * |mem| && s < |h.table| && BitIsSet(mem, s)
    requires forall j :: 0 <= j < k ==> Stuck(hash, mem, |h.table|, After(hash, h, j).e)
    ensures After(hash, h, k).table[s] == h.table[s]
  {
    hide BitIsSet, Locs, NextLoc;
    if k > 0 {
      AfterSpares(hash, mem, h, k - 1, s);
      var b := After(hash, h, k - 1);
      assert Stuck(hash, mem, |h.table|, b.e);
    }
  }

  /** The first two steps on any table: when all locations of the new element are kept, but the element at
      its second one has a collected location, nothing is lost but what that location held. */
  lemma SecondStep<E>(hash: (nat, E) -> Word, was: seq<E>, mem: seq<bv8>, e: E, limit: nat, k: nat, table: seq<E>,
                      lost: set<E>)
    requires 0 < |was| < 0x1_0000_0000 && |was| <= 8 * |mem| && Walked(hash, was, mem, e, limit, k, table, lost)
    requires limit >= 2 && Stuck(hash, mem, |was|, e)
    requires !Stuck(hash, mem, |was|, was[Locs(hash, |was|, e)[1]])
    ensures k == 1
    ensures exists s :: s in Locs(hash, |was|, was[Locs(hash, |was|, e)[1]]) && BitIsSet(mem, s) && lost == {was[s]}
  {
    hide BitIsSet, Locs;
    var start := Hand(was, e, INVALID);
    assert After(hash, start, 0) == start;
    assert INVALID !in Locs(hash, |was|, e);
    NextLocIs(Locs(hash, |was|, e), INVALID, 0);
    assert After(hash, start, 1).e == was[Locs(hash, |was|, e)[1]];
  }

  // ---------------------------------------------------------------- the class

  /** The element in hand is not in the table. */
  lemma NotThere<E(!new)>(hash: (nat, E) -> Word, was: seq<E>, table: seq<E>, inserted: E, e: E, unused: E)
    requires 0 < |table| == |was| < 0x1_0000_0000 && InHand(hash, was, table, inserted, e, unused)
    ensures e != unused ==> e !in table && !Findable(hash, table, e)
  {
  }

  lemma OneSlot<E>(table: seq<E>, unused: E, i: nat, j: nat)
    requires Once(table, unused) && i < |table| && j < |table| && table[i] == table[j] != unused
    ensures i == j
  {
  }

  lemma NowhereThere<E>(hash: (nat, E) -> Word, table: seq<E>, e: E)
    requires 0 < |table| < 0x1_0000_0000 && forall i :: 0 <= i < 8 ==> table[Locs(hash, |table|, e)[i]] != e
    ensures !Findable(hash, table, e)
  {
  }

  class Cache<E(==,!new)> {
    const hash: (nat, E) -> Word
    const unused: E
    var table: seq<E>
    var size: Word
    var mem: seq<bv8>
    var epochFlags: seq<bool>
    var counter: nat
    var epochSize: nat
    var depthLimit: nat

    ghost predicate Shaped()
      reads this
    {
      2 <= size == |table| == |epochFlags| && size <= 8 * |mem| && epochSize >= 1 && depthLimit >= 1
    }

    ghost predicate Stored()
      reads this
      requires Shaped()
    {
      Placed(hash, table, mem, unused) && Once(table, unused)
    }

    function Live(): nat
      reads this
      requires Shaped()
    {
      LiveCount(epochFlags, mem, size)
    }

    /** Every stored element sits once, where it can be found, and the counter stands in for the scan. */
    ghost predicate Valid()
      reads this
    {
      Shaped() && Stored() && Live() + counter <= EpochBound(epochSize)
    }

    ghost predicate Has(e: E)
      reads this
      requires Shaped()
    {
      Findable(hash, table, e)
    }

    /** In the table, in the current epoch, and not open to collection. */
    ghost predicate Kept(e: E)
      reads this
      requires Shaped()
    {
      exists i :: 0 <= i < size && table[i] == e && epochFlags[i] && !BitIsSet(mem, i)
    }

    constructor (hashFunction: (nat, E) -> Word, defaultElement: E)
      ensures hash == hashFunction && unused == defaultElement && table == [] && size == 0
    {
      hash, unused := hashFunction, defaultElement;
      table, size, mem, epochFlags, counter, epochSize, depthLimit := [], 0, AllCollected(0), [], 0, 0, 0;
    }

    /** `depth` is the base-2 logarithm of the new size as the floating-point unit gives it. */
    method Setup(newSize: Word, depth: nat) returns (r: Word)
      requires size == 0 && table == [] && 1 <= depth <= 255
      modifies this
      ensures r == size == (if newSize < 2 then 2 else newSize) && (Valid() <==> size <= LAST_SIZE)
      ensures depthLimit == depth && epochSize == Max(1, 45 * size % 0x1_0000_0000 / 100)
      ensures Valid() ==> Live() == 0 && counter == epochSize && forall i :: 0 <= i < size ==>
              table[i] == unused && BitIsSet(mem, i)
    {
      hide BitIsSet, LiveCount, AllCollected;
      depthLimit := depth;
      size := if newSize < 2 then 2 else newSize;
      table := seq(size, _ => unused);
      mem := AllCollected(size);
      epochFlags := seq(size, _ => false);
      epochSize := Max(1, 45 * size % 0x1_0000_0000 / 100);
      counter := epochSize;
      if size <= LAST_SIZE {
        LiveCountNone(epochFlags, mem, size);
      }
      r := size;
    }

    /** Makes room for one more entry in the current epoch. */
    method EpochCheck()
      requires Valid()
      modifies this`counter, this`mem, this`epochFlags
      ensures Shaped() && Stored() && Live() + counter + 1 <= EpochBound(epochSize)
      ensures forall i :: 0 <= i < size && old(BitIsSet(mem, i)) ==> BitIsSet(mem, i)
      ensures old(counter) != 0 ==> counter == old(counter) - 1 && mem == old(mem) && epochFlags == old(epochFlags)
      ensures old(counter) == 0 && old(Live()) >= epochSize ==>
                && counter == epochSize
                && (forall i :: 0 <= i < size ==> !epochFlags[i])
                && (forall i :: 0 <= i < size ==> BitIsSet(mem, i) == (old(BitIsSet(mem, i)) || !old(epochFlags[i])))
      ensures old(counter) == 0 && old(Live()) < epochSize ==>
                && mem == old(mem) && epochFlags == old(epochFlags)
                && counter >= 1 && counter >= epochSize / 16 && counter >= epochSize - old(Live())
                && (counter == 1 || counter == epochSize / 16 || counter == epochSize - old(Live()))
    {
      hide BitIsSet;
      if counter != 0 {
        counter := counter - 1;
        return;
      }
      var unusedCount := CountLive();
      if unusedCount >= epochSize {
        AgeEpoch();
        counter := epochSize;
      } else {
        counter := Max(1, Max(epochSize / 16, epochSize - unusedCount));
      }
    }

    method CountLive() returns (n: nat)
      requires Shaped()
      ensures n == Live()
    {
      hide BitIsSet;
      n := 0;
      for i := 0 to size
        invariant n == LiveCount(epochFlags, mem, i)
      {
        n := n + if epochFlags[i] && !BitIsSet(mem, i) then 1 else 0;
      }
    }

    /** Erases the old epoch and makes the current one old. */
    method AgeEpoch()
      requires Shaped() && Stored()
      modifies this`mem, this`epochFlags
      ensures Shaped() && Stored() && Live() == 0
      ensures forall i :: 0 <= i < size ==>
                !epochFlags[i] && BitIsSet(mem, i) == (old(BitIsSet(mem, i)) || !old(epochFlags[i]))
    {
      hide BitIsSet;
      for i := 0 to size
        invariant Shaped() && |mem| == old(|mem|)
        invariant forall j :: 0 <= j < i ==>
                    !epochFlags[j] && BitIsSet(mem, j) == (old(BitIsSet(mem, j)) || !old(epochFlags[j]))
        invariant forall j :: i <= j < size ==>
                    epochFlags[j] == old(epochFlags[j]) && BitIsSet(mem, j) == old(BitIsSet(mem, j))
      {
        if epochFlags[i] {
          epochFlags := epochFlags[i := false];
        } else {
          mem := BitSet(mem, i);
        }
      }
      LiveCountNone(epochFlags, mem, size);
    }

    /** The first location that holds `e`, or 8. */
    method FindAt(locs: seq<nat>, e: E) returns (k: nat)
      requires |locs| == 8 && forall i :: 0 <= i < 8 ==> locs[i] < |table|
      ensures k <= 8 && (k < 8 ==> table[locs[k]] == e) && forall i :: 0 <= i < k ==> table[locs[i]] != e
    {
      k := 0;
      while k < 8
        invariant k <= 8 && forall i :: 0 <= i < k ==> table[locs[i]] != e
      {
        if table[locs[k]] == e {
          return;
        }
        k := k + 1;
      }
    }

    /** The first collected location, or 8. */
    method FindFree(locs: seq<nat>) returns (k: nat)
      requires |locs| == 8 && forall i :: 0 <= i < 8 ==> locs[i] < 8 * |mem|
      ensures k <= 8 && (k < 8 ==> BitIsSet(mem, locs[k])) && forall i :: 0 <= i < k ==> !BitIsSet(mem, locs[i])
    {
      k := 0;
      while k < 8
        invariant k <= 8 && forall i :: 0 <= i < k ==> !BitIsSet(mem, locs[i])
      {
        if BitIsSet(mem, locs[k]) {
          return;
        }
        k := k + 1;
      }
    }

    /** please_keep, and the slot's epoch. */
    method Keep(loc: nat, epoch: bool)
      requires Shaped() && loc < size
      modifies this`mem, this`epochFlags
      ensures Shaped() && mem == BitUnset(old(mem), loc) && epochFlags == old(epochFlags)[loc := epoch]
      ensures Live() == old(Live()) - old(IsLive(epochFlags, mem, loc)) + (if epoch then 1 else 0)
    {
      hide BitIsSet, LiveCount;
      mem := BitUnset(mem, loc);
      epochFlags := epochFlags[loc := epoch];
      LiveCountUpdate(old(epochFlags), old(mem), epochFlags, mem, loc, size);
    }

    /** Finding never depends on erasure; erasing only marks the slot for later reuse. */
    method Contains(e: E, erase: bool) returns (b: bool)
      requires Valid()
      modifies this`mem
      ensures Valid() && b == Has(e)
      ensures !(b && erase) ==> mem == old(mem)
      ensures b && erase ==> exists i :: 0 <= i < size && table[i] == e && mem == BitSet(old(mem), i)
    {
      hide BitIsSet, LiveCount;
      var locs := Locs(hash, size, e);
      var k := FindAt(locs, e);
      b := k < 8;
      if b && erase {
        mem := BitSet(mem, locs[k]);
        LiveCountUpdate(epochFlags, old(mem), epochFlags, mem, locs[k], size);
      }
    }

    /** Where `e` still is, keep it and bring it into the current epoch. */
    method Refresh(loc: nat)
      requires Shaped() && Stored() && loc < size && loc in Locs(hash, size, table[loc])
      requires Live() + counter + 1 <= EpochBound(epochSize)
      modifies this`mem, this`epochFlags
      ensures Valid() && mem == BitUnset(old(mem), loc) && epochFlags == old(epochFlags)[loc := true]
    {
      hide BitIsSet, Placed, LiveCount;
      KeptPlaced(hash, table, mem, unused, loc);
      Keep(loc, true);
    }

    /** Stores the element in hand in a collected slot. */
    method Store(loc: nat, e: E, epoch: bool, ghost was: seq<E>, ghost e0: E)
      requires Shaped() && Stored() && |was| == |table| && InHand(hash, was, table, e0, e, unused)
      requires loc < size && loc in Locs(hash, size, e) && BitIsSet(mem, loc)
      modifies this`table, this`mem, this`epochFlags
      ensures Shaped() && Stored() && Live() == old(Live()) + (if epoch then 1 else 0)
      ensures table == old(table)[loc := e] && mem == BitUnset(old(mem), loc)
      ensures epochFlags == old(epochFlags)[loc := epoch]
      ensures forall x :: Has(x) ==> Findable(hash, was, x) || x == e0
      ensures forall x :: x != old(table[loc]) && (Findable(hash, was, x) || x == e0) ==> Has(x)
    {
      hide BitIsSet, Placed, Once, Findable, InHand, LiveCount;
      PutDown(hash, was, table, mem, e0, e, unused, loc);
      table := table[loc := e];
      Keep(loc, epoch);
    }

    /** Exchanges the element in hand with a live one, epochs included. */
    method Exchange(loc: nat, e: E, epoch: bool, ghost was: seq<E>, ghost e0: E) returns (e': E, epoch': bool)
      requires Shaped() && Stored() && |was| == |table| && InHand(hash, was, table, e0, e, unused)
      requires loc < size && loc in Locs(hash, size, e) && !BitIsSet(mem, loc)
      modifies this`table, this`epochFlags
      ensures Shaped() && Stored() && InHand(hash, was, table, e0, e', unused)
      ensures Live() + (if epoch' then 1 else 0) == old(Live()) + (if epoch then 1 else 0)
      ensures table == old(table)[loc := e] && e' == old(table[loc]) && loc in Locs(hash, size, e')
      ensures epochFlags == old(epochFlags)[loc := epoch] && epoch' == old(epochFlags[loc])
    {
      hide BitIsSet, Placed, Once, Findable, InHand, LiveCount;
      Swapped(hash, was, table, mem, e0, e, unused, loc);
      LiveCountUpdate(epochFlags, mem, epochFlags[loc := epoch], mem, loc, size);
      e', epoch' := table[loc], epochFlags[loc];
      table := table[loc := e];
      epochFlags := epochFlags[loc := epoch];
    }

    /** The cuckoo walk for an element that is not in the table. */
    method Displace(e0: E) returns (ghost lost: set<E>, ghost k: nat)
      requires Shaped() && Stored() && Live() + counter + 1 <= EpochBound(epochSize)
      requires forall i :: 0 <= i < 8 ==> table[Locs(hash, size, e0)[i]] != e0
      modifies this`table, this`mem, this`epochFlags
      ensures Valid() && |lost| <= 1
      ensures Walked(hash, old(table), old(mem), e0, depthLimit, k, table, lost)
      ensures forall x :: Has(x) ==> old(Has(x)) || x == e0
      ensures forall x :: (old(Has(x)) || x == e0) && x !in lost ==> Has(x)
      ensures (exists i :: 0 <= i < 8 && old(BitIsSet(mem, Locs(hash, size, e0)[i]))) ==> Has(e0)
      ensures e0 != unused && Has(e0) ==> Kept(e0)
    {
      hide BitIsSet, Placed, Once, Findable, InHand, LiveCount, Locs, Walked, NextLoc, Stuck, After, Position;
      ghost var start := Hand(table, e0, INVALID);
      k := 0;
      var e: E, lastLoc: nat, lastEpoch: bool := e0, INVALID, true;
      var locs := Locs(hash, size, e);
      ghost var locs0 := locs;
      NothingInHand(hash, table, mem, e0, unused);
      AfterNone(hash, start);
      var depth := 0;
      while depth < depthLimit
        invariant Shaped() && Stored() && mem == old(mem)
        invariant locs == Locs(hash, size, e)
        invariant InHand(hash, old(table), table, e0, e, unused)
        invariant Live() + (if lastEpoch then 1 else 0) == old(Live()) + 1
        invariant depth == 0 ==> e == e0
        invariant e0 != unused ==> if e == e0 then lastEpoch else Kept(e0)
        invariant depth > 0 ==> lastLoc in locs && forall i :: 0 <= i < 8 ==> !BitIsSet(mem, locs0[i])
        invariant k == depth <= depthLimit && Hand(table, e, lastLoc) == After(hash, start, depth)
        invariant forall j :: 0 <= j < depth ==> Stuck(hash, mem, size, After(hash, start, j).e)
      {
        var free := FindFree(locs);
        if free < 8 {
          lost := {table[locs[free]]};
          TookFree(hash, old(table), mem, e0, depthLimit, depth, locs[free]);
          Store(locs[free], e, lastEpoch, old(table), e0);
          if depth == 0 {
            StoredThere(hash, table, e0, locs[free]);
          }
          return;
        }
        IsStuck(hash, mem, size, e);
        AfterNext(hash, start, depth);
        lastLoc := NextLoc(locs, lastLoc);
        NotThere(hash, old(table), table, e0, e, unused);
        if e0 != unused && e != e0 && table[lastLoc] == e0 {
          ghost var i :| 0 <= i < size && table[i] == e0 && epochFlags[i] && !BitIsSet(mem, i);
          OneSlot(table, unused, i, lastLoc);
        }
        e, lastEpoch := Exchange(lastLoc, e, lastEpoch, old(table), e0);
        locs := Locs(hash, size, e);
        depth := depth + 1;
        k := depth;
      }
      lost := {e};
      RanOut(hash, old(table), mem, e0, depthLimit);
      Dropped(hash, old(table), table, e0, e, unused);
      if e == e0 {
        NotThere(hash, old(table), table, e0, e0, unused);
      }
    }

    /** Afterwards at most one element is no longer findable, and nothing but `e` is newly so. An
        element with a collected location is always stored. */
    method Insert(e: E) returns (ghost lost: set<E>, ghost k: nat, ghost collected: seq<bv8>)
      requires Valid()
      modifies this`table, this`counter, this`mem, this`epochFlags
      ensures Valid() && |lost| <= 1
      ensures forall x :: Has(x) ==> old(Has(x)) || x == e
      ensures forall x :: (old(Has(x)) || x == e) && x !in lost ==> Has(x)
      ensures (exists i :: 0 <= i < 8 && old(BitIsSet(mem, Locs(hash, size, e)[i]))) ==> Has(e)
      ensures old(Has(e)) ==> table == old(table) && lost == {}
      ensures size <= 8 * |collected| && (old(counter) > 0 || old(Live()) < epochSize ==> collected == old(mem))
      ensures old(counter) == 0 && old(Live()) >= epochSize ==>
                forall i :: 0 <= i < size ==> BitIsSet(collected, i) == (old(BitIsSet(mem, i)) || !old(epochFlags[i]))
      ensures !old(Has(e)) ==> Walked(hash, old(table), collected, e, depthLimit, k, table, lost)
      ensures !old(Has(e)) && depthLimit >= 2 && Stuck(hash, collected, size, e) &&
              !Stuck(hash, collected, size, old(table)[Locs(hash, size, e)[1]]) ==>
                exists s :: s in Locs(hash, size, old(table)[Locs(hash, size, e)[1]]) && BitIsSet(collected, s) &&
                            lost == {old(table)[s]}
      ensures e != unused && Has(e) ==> Kept(e)
    {
      hide BitIsSet, Placed, Once, Findable, LiveCount, Locs;
      EpochCheck();
      collected, k := mem, 0;
      var locs := Locs(hash, size, e);
      var found := FindAt(locs, e);
      if found < 8 {
        FoundAt(hash, table, e, found);
        Refresh(locs[found]);
        lost := {};
        return;
      }
      NowhereThere(hash, table, e);
      lost, k := Displace(e);
      if depthLimit >= 2 && Stuck(hash, collected, size, e) &&
         !Stuck(hash, collected, size, old(table)[Locs(hash, size, e)[1]]) {
        SecondStep(hash, old(table), collected, e, depthLimit, k, table, lost);
      }
    }
  }
}
