/** Coins, cache entries and the plain-map meaning of a write-back cache
    (src/coins.h, src/coins.cpp). Everything here is a value; the classes that
    update caches in place are in CoinsView. */
module CoinsSpec {

  const OP_RETURN: nat := 0x6a
  const MAX_SCRIPT_SIZE: nat := 129000

  datatype OutPoint = OutPoint(hash: nat, n: nat)

  datatype TxOut = TxOut(value: int, script: seq<nat>) {
    predicate IsNull() { value == -1 }

    predicate IsUnspendable() {
      (|script| > 0 && script[0] == OP_RETURN) || |script| > MAX_SCRIPT_SIZE
    }
  }

  datatype Coin = Coin(out: TxOut, height: nat, coinBase: bool, coinStake: bool) {
    predicate IsSpent() { out.IsNull() }

    /** Heap bytes behind the script: 28 bytes are stored inline, the rest is
        what malloc rounds the allocation up to. */
    function Usage(): (r: nat)
      ensures |out.script| <= 28 <==> r == 0
      ensures r > 0 ==> r % 16 == 0 && |out.script| + 16 <= r < |out.script| + 32
    {
      if |out.script| <= 28 then 0 else (|out.script| + 31) / 16 * 16
    }
  }

  const EmptyCoin := Coin(TxOut(-1, []), 0, false, false)

  datatype Entry = Entry(coin: Coin, isDirty: bool, isFresh: bool)

  type CoinsMap = map<OutPoint, Entry>

  /** The plain map that a stack of caches has to look like: unspent coins only. */
  type Utxo = map<OutPoint, Coin>

  ghost predicate AllUnspent(u: Utxo) {
    forall op :: op in u ==> !u[op].IsSpent()
  }

  /** What a cache with contents `m` shows over a view that shows `below`. */
  ghost function Overlay(m: CoinsMap, below: Utxo): Utxo {
    map op | op in m.Keys + below.Keys && (op in m ==> !m[op].coin.IsSpent()) ::
      if op in m then m[op].coin else below[op]
  }

  /** What writing only the dirty entries of `m` into the plain map `below` leaves. */
  ghost function WriteDirty(m: CoinsMap, below: Utxo): Utxo {
    map op | op in m.Keys + below.Keys &&
             (if op in m && m[op].isDirty then !m[op].coin.IsSpent() else op in below) ::
      if op in m && m[op].isDirty then m[op].coin else below[op]
  }

  lemma OverlayAt(m: CoinsMap, below: Utxo, op: OutPoint)
    ensures op in Overlay(m, below) <==> if op in m then !m[op].coin.IsSpent() else op in below
    ensures op in Overlay(m, below) ==> Overlay(m, below)[op] == if op in m then m[op].coin else below[op]
  {
  }

  /** The meaning of the two flags: a clean entry agrees with the view below, and
      a fresh entry has no unspent coin there. */
  ghost predicate EntryConsistent(op: OutPoint, e: Entry, below: Utxo) {
    && (!e.isDirty ==> if e.coin.IsSpent() then op !in below else op in below && below[op] == e.coin)
    && (e.isFresh ==> op !in below)
  }

  ghost predicate Consistent(m: CoinsMap, below: Utxo) {
    forall op :: op in m ==> EntryConsistent(op, m[op], below)
  }

  // ---------------------------------------------------------------- memory accounting

  ghost function AnyKey(m: CoinsMap): (op: OutPoint)
    requires m != map[]
    ensures op in m
  {
    var op :| op in m;
    op
  }

  ghost function SumUsage(m: CoinsMap): nat
    decreases |m|
  {
    if m == map[] then 0 else m[AnyKey(m)].coin.Usage() + SumUsage(m - {AnyKey(m)})
  }

  lemma SumUsageFirst(m: CoinsMap)
    requires m != map[]
    ensures SumUsage(m) == m[AnyKey(m)].coin.Usage() + SumUsage(m - {AnyKey(m)})
  {
  }

  lemma RemovedTwice(m: CoinsMap, p: OutPoint, op: OutPoint)
    requires p in m && op in m && p != op
    ensures op in m - {p} && (m - {p})[op] == m[op] && |m - {p}| < |m|
    ensures (m - {p}) - {op} == (m - {op}) - {p}
  {
  }

  lemma {:induction false} SumUsageRemove(m: CoinsMap, op: OutPoint)
    requires op in m
    ensures SumUsage(m) == m[op].coin.Usage() + SumUsage(m - {op})
    decreases |m|
  {
    hide SumUsage;
    SumUsageFirst(m);
    var p := AnyKey(m);
    if p != op {
      RemovedTwice(m, p, op);
      RemovedTwice(m, op, p);
      SumUsageRemove(m - {p}, op);
      SumUsageRemove(m - {op}, p);
    }
  }

  lemma SumUsagePut(m: CoinsMap, op: OutPoint, e: Entry)
    ensures op !in m ==> SumUsage(m[op := e]) == SumUsage(m) + e.coin.Usage()
    ensures op in m ==> SumUsage(m[op := e]) == SumUsage(m) - m[op].coin.Usage() + e.coin.Usage()
  {
    var m' := m[op := e];
    SumUsageRemove(m', op);
    assert m'[op] == e;
    assert m' - {op} == m - {op};
    if op in m {
      SumUsageRemove(m, op);
    } else {
      assert m - {op} == m;
    }
  }

  // ---------------------------------------------------------------- one-entry updates

  function Fetched(m: CoinsMap, op: OutPoint, coin: Coin): CoinsMap {
    m[op := Entry(coin, false, coin.IsSpent())]
  }

  predicate AddThrows(m: CoinsMap, op: OutPoint, overwrite: bool) {
    !overwrite && op in m && !m[op].coin.IsSpent()
  }

  function Added(m: CoinsMap, op: OutPoint, coin: Coin, overwrite: bool): CoinsMap {
    var before := if op in m then m[op] else Entry(EmptyCoin, false, false);
    m[op := Entry(coin, true, before.isFresh || (!overwrite && !before.isDirty))]
  }

  function Spent(m: CoinsMap, op: OutPoint): CoinsMap
    requires op in m
  {
    if m[op].isFresh then m - {op} else m[op := Entry(EmptyCoin, true, false)]
  }

  /** Filling the cache from below changes nothing that can be seen. */
  lemma FetchedKeeps(m: CoinsMap, below: Utxo, op: OutPoint)
    requires Consistent(m, below) && op !in m && op in below && !below[op].IsSpent()
    ensures Consistent(Fetched(m, op, below[op]), below)
    ensures Overlay(Fetched(m, op, below[op]), below) == Overlay(m, below)
  {
    var v, w := Overlay(m, below), Overlay(Fetched(m, op, below[op]), below);
    assert v.Keys == w.Keys;
  }

  /** AddCoin always shows the new coin, and keeps the flags truthful exactly when the
      caller allowed an overwrite or the coin was absent from the whole stack. */
  lemma AddedMeaning(m: CoinsMap, below: Utxo, op: OutPoint, coin: Coin, overwrite: bool)
    requires Consistent(m, below) && !coin.IsSpent() && !AddThrows(m, op, overwrite)
    ensures Overlay(Added(m, op, coin, overwrite), below) == Overlay(m, below)[op := coin]
    ensures Consistent(Added(m, op, coin, overwrite), below) <==> overwrite || op !in Overlay(m, below)
  {
    hide Overlay, Consistent;
    AddedOverlay(m, below, op, coin, overwrite);
    AddedConsistent(m, below, op, coin, overwrite);
  }

  lemma AddedOverlay(m: CoinsMap, below: Utxo, op: OutPoint, coin: Coin, overwrite: bool)
    requires !coin.IsSpent()
    ensures Overlay(Added(m, op, coin, overwrite), below) == Overlay(m, below)[op := coin]
  {
    PutOverlay(m, below, op, Added(m, op, coin, overwrite)[op]);
  }

  /** An unspent entry shows, whatever its flags. */
  lemma PutOverlay(m: CoinsMap, below: Utxo, op: OutPoint, entry: Entry)
    requires !entry.coin.IsSpent()
    ensures Overlay(m[op := entry], below) == Overlay(m, below)[op := entry.coin]
  {
    var after, expected := Overlay(m[op := entry], below), Overlay(m, below)[op := entry.coin];
    assert after.Keys == expected.Keys;
    forall k | k in after
      ensures after[k] == expected[k]
    {
    }
  }

  lemma AddedConsistent(m: CoinsMap, below: Utxo, op: OutPoint, coin: Coin, overwrite: bool)
    requires Consistent(m, below) && !coin.IsSpent() && !AddThrows(m, op, overwrite)
    ensures Consistent(Added(m, op, coin, overwrite), below) <==> overwrite || op !in Overlay(m, below)
  {
    var m' := Added(m, op, coin, overwrite);
    assert forall k :: k in m' && k != op ==> k in m && m'[k] == m[k];
    if overwrite || op !in Overlay(m, below) {
      assert EntryConsistent(op, m'[op], below);
    } else {
      assert op !in m && op in below;
      assert !EntryConsistent(op, m'[op], below);
    }
  }

  /** The entry a spend leaves behind, or the erasure it makes instead when FRESH is
      set, always reads as an absent coin, and the flags stay truthful. */
  lemma SpentMeaning(m: CoinsMap, below: Utxo, op: OutPoint)
    requires Consistent(m, below) && op in m
    ensures Overlay(Spent(m, op), below) == Overlay(m, below) - {op}
    ensures Consistent(Spent(m, op), below)
  {
    var m' := Spent(m, op);
    var v, w := Overlay(m, below), Overlay(m', below);
    assert EntryConsistent(op, m[op], below);
    assert op !in w;
    forall k | k != op
      ensures k in m' ==> EntryConsistent(k, m'[k], below)
      ensures k in w <==> k in v
      ensures k in w ==> w[k] == v[k]
    {
      assert k in m' <==> k in m;
      if k in m {
        assert m'[k] == m[k] && EntryConsistent(k, m[k], below);
      }
    }
    assert op in m' ==> EntryConsistent(op, m'[op], below);
  }

  lemma UncachedKeeps(m: CoinsMap, below: Utxo, op: OutPoint)
    requires Consistent(m, below) && op in m && !m[op].isDirty && !m[op].isFresh
    ensures Overlay(m - {op}, below) == Overlay(m, below)
    ensures Consistent(m - {op}, below)
  {
    assert EntryConsistent(op, m[op], below);
    assert Overlay(m - {op}, below).Keys == Overlay(m, below).Keys;
  }

  /** Why AddCoin must not be told "no overwrite" for a coin that lives below: the
      FRESH flag it then sets makes the next spend erase the entry, and the spent coin
      is visible again. */
  lemma MisappliedFreshLosesADeletion(op: OutPoint, coin: Coin, again: Coin)
    requires !coin.IsSpent() && !again.IsSpent()
    ensures var below := map[op := coin];
            var added := Added(map[], op, again, false);
            !AddThrows(map[], op, false) && op in added && op in Overlay(Spent(added, op), below)
  {
    var added := Added(map[], op, again, false);
    assert added[op].isFresh;
    assert Spent(added, op) == map[];
  }

  // ---------------------------------------------------------------- BatchWrite

  predicate MergeThrows(us: CoinsMap, op: OutPoint, e: Entry) {
    e.isDirty && op in us && e.isFresh && !us[op].coin.IsSpent()
  }

  /** One turn of the BatchWrite loop on the parent's contents `us`. */
  function Merged(us: CoinsMap, op: OutPoint, e: Entry): CoinsMap {
    if !e.isDirty then us
    else if op !in us then
      if e.isFresh && e.coin.IsSpent() then us else us[op := Entry(e.coin, true, e.isFresh)]
    else if us[op].isFresh && e.coin.IsSpent() then us - {op}
    else us[op := Entry(e.coin, true, us[op].isFresh)]
  }

  /** The whole loop, key by key: turns for different keys do not interfere. */
  ghost predicate IsMergeOf(us: CoinsMap, child: CoinsMap, done: set<OutPoint>, now: CoinsMap) {
    forall op ::
      var turn := if op in done && op in child then Merged(us, op, child[op]) else us;
      (op in now <==> op in turn) && (op in now ==> now[op] == turn[op])
  }

  ghost predicate NoMergeThrows(us: CoinsMap, child: CoinsMap) {
    forall op :: op in child ==> !MergeThrows(us, op, child[op])
  }

  lemma MergeNothing(us: CoinsMap, child: CoinsMap)
    ensures IsMergeOf(us, child, {}, us)
  {
  }

  lemma MergeTurn(us: CoinsMap, child: CoinsMap, done: set<OutPoint>, now: CoinsMap, op: OutPoint)
    requires IsMergeOf(us, child, done, now) && op in child && op !in done
    ensures MergeThrows(now, op, child[op]) == MergeThrows(us, op, child[op])
    ensures IsMergeOf(us, child, done + {op}, Merged(now, op, child[op]))
  {
    assert (op in now <==> op in us) && (op in now ==> now[op] == us[op]);
    var next := Merged(now, op, child[op]);
    forall k
      ensures var turn := if k in done + {op} && k in child then Merged(us, k, child[k]) else us;
              (k in next <==> k in turn) && (k in next ==> next[k] == turn[k])
    {
      if k == op {
        assert (op in next <==> op in Merged(us, op, child[op]));
      } else {
        assert (k in next <==> k in now) && (k in now ==> next[k] == now[k]);
      }
    }
  }

  /** A child whose flags are truthful over the parent's view never trips the
      "FRESH flag misapplied" check. */
  lemma ConsistentChildNeverThrows(us: CoinsMap, below: Utxo, child: CoinsMap)
    requires Consistent(child, Overlay(us, below))
    ensures NoMergeThrows(us, child)
  {
    forall op | op in child
      ensures !MergeThrows(us, op, child[op])
    {
      assert EntryConsistent(op, child[op], Overlay(us, below));
    }
  }

  /** BatchWrite makes the parent show what the child showed, and the parent's own
      flags stay truthful towards the grandparent. */
  lemma MergeMeaning(us: CoinsMap, below: Utxo, child: CoinsMap, now: CoinsMap)
    requires Consistent(us, below)
    requires Consistent(child, Overlay(us, below))
    requires IsMergeOf(us, child, child.Keys, now)
    ensures Consistent(now, below)
    ensures Overlay(now, below) == Overlay(child, Overlay(us, below))
  {
    var mid := Overlay(us, below);
    forall op
      ensures op in now ==> EntryConsistent(op, now[op], below)
      ensures op in Overlay(now, below) <==> op in Overlay(child, mid)
      ensures op in Overlay(now, below) ==> Overlay(now, below)[op] == Overlay(child, mid)[op]
    {
      MergeMeaningAt(us, below, child, now, op);
    }
  }

  lemma MergeMeaningAt(us: CoinsMap, below: Utxo, child: CoinsMap, now: CoinsMap, op: OutPoint)
    requires Consistent(us, below)
    requires Consistent(child, Overlay(us, below))
    requires IsMergeOf(us, child, child.Keys, now)
    ensures op in now ==> EntryConsistent(op, now[op], below)
    ensures op in Overlay(now, below) <==> op in Overlay(child, Overlay(us, below))
    ensures op in Overlay(now, below) ==> Overlay(now, below)[op] == Overlay(child, Overlay(us, below))[op]
  {
    if op in us {
      assert EntryConsistent(op, us[op], below);
    }
    if op in child {
      assert EntryConsistent(op, child[op], Overlay(us, below));
      assert op in now <==> op in Merged(us, op, child[op]);
    } else {
      assert op in now <==> op in us;
    }
  }

  /** Over the database, which has no flags, writing the dirty entries is enough. */
  lemma WriteDirtyMeaning(m: CoinsMap, below: Utxo)
    requires Consistent(m, below)
    ensures WriteDirty(m, below) == Overlay(m, below)
  {
    forall op
      ensures op in WriteDirty(m, below) <==> op in Overlay(m, below)
      ensures op in Overlay(m, below) ==> WriteDirty(m, below)[op] == Overlay(m, below)[op]
    {
      if op in m {
        assert EntryConsistent(op, m[op], below);
      }
    }
  }

  lemma WriteDirtyNothing(below: Utxo)
    ensures WriteDirty(map[], below) == below
  {
  }

  /** One turn of the database's write loop. */
  lemma WriteDirtyTurn(m: CoinsMap, below: Utxo, op: OutPoint, e: Entry)
    requires op !in m
    ensures WriteDirty(m[op := e], below) ==
            if !e.isDirty then WriteDirty(m, below)
            else if e.coin.IsSpent() then WriteDirty(m, below) - {op}
            else WriteDirty(m, below)[op := e.coin]
  {
    var v, w := WriteDirty(m, below), WriteDirty(m[op := e], below);
    forall k | k != op
      ensures k in w <==> k in v
      ensures k in w ==> w[k] == v[k]
    {
      assert k in m[op := e] <==> k in m;
      assert k in m ==> m[op := e][k] == m[k];
    }
    assert op in v <==> op in below;
    assert op in v ==> v[op] == below[op];
    assert op in w <==> if e.isDirty then !e.coin.IsSpent() else op in below;
  }

  lemma NothingWritten(m: CoinsMap, below: Utxo)
    ensures WriteDirty(m - m.Keys, below) == below
  {
    hide WriteDirty;
    assert m - m.Keys == map[];
    WriteDirtyNothing(below);
  }

  /** One turn of the write loop, in terms of what is still to be written. */
  lemma NextWritten(m: CoinsMap, todo: set<OutPoint>, below: Utxo, op: OutPoint)
    requires op in todo && todo <= m.Keys
    ensures var w := WriteDirty(m - todo, below);
            WriteDirty(m - (todo - {op}), below) ==
            if !m[op].isDirty then w else if m[op].coin.IsSpent() then w - {op} else w[op := m[op].coin]
  {
    hide WriteDirty;
    assert m - (todo - {op}) == (m - todo)[op := m[op]];
    WriteDirtyTurn(m - todo, below, op, m[op]);
  }

  /** Some of the entries of `m` have been written into `below`. */
  ghost predicate IsPart(m: CoinsMap, below: Utxo, now: Utxo) {
    exists part: CoinsMap :: part.Keys <= m.Keys && (forall op :: op in part ==> part[op] == m[op]) &&
        now == WriteDirty(part, below)
  }

  lemma PartOf(m: CoinsMap, todo: set<OutPoint>, below: Utxo)
    ensures IsPart(m, below, WriteDirty(m - todo, below))
  {
    hide WriteDirty;
    var part := m - todo;
    assert part.Keys <= m.Keys;
  }

  /** Writing all entries over some of them gives what writing them once gives. */
  lemma Rewritten(m: CoinsMap, below: Utxo, now: Utxo)
    requires IsPart(m, below, now)
    ensures WriteDirty(m, now) == WriteDirty(m, below)
  {
    var part: CoinsMap :| part.Keys <= m.Keys && (forall op :: op in part ==> part[op] == m[op]) &&
        now == WriteDirty(part, below);
    var v, w := WriteDirty(m, now), WriteDirty(m, below);
    forall op
      ensures op in v <==> op in w
      ensures op in v && op in w ==> v[op] == w[op]
    {
      WrittenAt(m, part, below, op);
    }
  }

  lemma WrittenAt(m: CoinsMap, part: CoinsMap, below: Utxo, op: OutPoint)
    requires part.Keys <= m.Keys && (op in part ==> part[op] == m[op])
    ensures var v, w := WriteDirty(m, WriteDirty(part, below)), WriteDirty(m, below);
            (op in v <==> op in w) && (op in v && op in w ==> v[op] == w[op])
  {
  }
}
