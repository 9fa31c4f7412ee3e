/** The coin database and the stack of write-back caches over it, updated in place
    (src/coins.cpp, src/txdb.cpp). */
module CoinsView {
  import opened CoinsSpec
  import opened Common

  /** The null block hash. */
  const NULL_HASH: nat := 0

  /** What the disk holds at one moment. While a write is under way there is no best block, and
      the head blocks name the block it leads to and the one it started from. */
  datatype Disk = Disk(coins: Utxo, bestBlock: nat, headBlocks: seq<nat>)

  /** A moment of a write of `m` into `below`. */
  ghost predicate UnderWay(d: Disk, m: CoinsMap, below: Utxo, heads: seq<nat>) {
    d.bestBlock == NULL_HASH && d.headBlocks == heads && IsPart(m, below, d.coins)
  }

  lemma StillUnderWay(d: Disk, m: CoinsMap, todo: set<OutPoint>, below: Utxo, heads: seq<nat>)
    requires d == Disk(WriteDirty(m - todo, below), NULL_HASH, heads)
    ensures UnderWay(d, m, below, heads)
  {
    hide WriteDirty, IsPart;
    PartOf(m, todo, below);
  }

  lemma Resumed(d: Disk, m: CoinsMap, below: Utxo, heads: seq<nat>)
    requires UnderWay(d, m, below, heads)
    ensures WriteDirty(m, d.coins) == WriteDirty(m, below)
  {
    hide WriteDirty, IsPart;
    Rewritten(m, below, d.coins);
  }

  /** The bottom of every stack: a plain map of unspent coins (CCoinsViewDB). */
  class CoinsDb {
    var coins: Utxo
    var bestBlock: nat
    var headBlocks: seq<nat>

    constructor (initial: Utxo)
      ensures coins == initial && headBlocks == []
    {
      coins := initial;
      bestBlock := NULL_HASH;
      headBlocks := [];
    }

    ghost function Now(): Disk
      reads this
    {
      Disk(coins, bestBlock, headBlocks)
    }

    /** Writes in batches of any size. `reached` lists what the disk held after each of them: up to
        the last one the heads tell what was under way, part of the entries are written, and writing
        all of them from there would still give the same coins. */
    method BatchWrite(mapCoins: CoinsMap, hash: nat) returns (ghost reached: seq<Disk>)
      requires hash != NULL_HASH
      requires bestBlock == NULL_HASH && |headBlocks| == 2 ==> headBlocks[0] == hash
      modifies this
      ensures coins == WriteDirty(mapCoins, old(coins)) && bestBlock == hash && headBlocks == []
      ensures |reached| > 0 && reached[|reached| - 1] == Now()
      ensures var tip := old(if bestBlock == NULL_HASH && |headBlocks| == 2 then headBlocks[1] else bestBlock);
              forall i :: 0 <= i < |reached| - 1 ==>
                UnderWay(reached[i], mapCoins, old(coins), [hash, tip]) &&
                    WriteDirty(mapCoins, reached[i].coins) == coins
    {
      hide WriteDirty, UnderWay;
      reached := [];
      var oldTip := bestBlock;
      if bestBlock == NULL_HASH && |headBlocks| == 2 {
        oldTip := headBlocks[1];
      }
      var batchCoins, batchBest, batchHeads := coins, NULL_HASH, [hash, oldTip];
      var todo := mapCoins.Keys;
      NothingWritten(mapCoins, coins);
      while todo != {}
        invariant todo <= mapCoins.Keys && batchCoins == WriteDirty(mapCoins - todo, old(coins))
        invariant forall i :: 0 <= i < |reached| ==> UnderWay(reached[i], mapCoins, old(coins), batchHeads)
        decreases |todo|
      {
        var op :| op in todo;
        NextWritten(mapCoins, todo, old(coins), op);
        if mapCoins[op].isDirty {
          if mapCoins[op].coin.IsSpent() {
            batchCoins := batchCoins - {op};
          } else {
            batchCoins := batchCoins[op := mapCoins[op].coin];
          }
        }
        todo := todo - {op};
        var tooLarge: bool := *;
        if tooLarge {
          coins, bestBlock, headBlocks := batchCoins, batchBest, batchHeads;
          StillUnderWay(Now(), mapCoins, todo, old(coins), batchHeads);
          reached := reached + [Now()];
        }
      }
      assert mapCoins - todo == mapCoins;
      coins, bestBlock, headBlocks := batchCoins, hash, [];
      forall i | 0 <= i < |reached|
        ensures WriteDirty(mapCoins, reached[i].coins) == coins
      {
        Resumed(reached[i], mapCoins, old(coins), [hash, oldTip]);
      }
      reached := reached + [Now()];
    }
  }

  /** What a cache can stand on. The links are fixed once the cache exists. */
  datatype Backend = Db(db: CoinsDb) | Cache(cache: CoinsCache) {
    ghost function Depth(): nat {
      match this
      case Db(_) => 0
      case Cache(c) => c.depth
    }

    ghost function Footprint(): set<object> {
      match this
      case Db(d) => {d}
      case Cache(c) => c.footprint
    }

    ghost predicate Linked()
      decreases Depth(), 1
    {
      this.Cache? ==> cache.Linked()
    }

    ghost function View(): Utxo
      requires Linked()
      reads Footprint()
      decreases Depth(), 1
    {
      match this
      case Db(d) => d.coins
      case Cache(c) => c.View()
    }

    ghost predicate Valid()
      requires Linked()
      reads Footprint()
      decreases Depth(), 1
    {
      match this
      case Db(d) => AllUnspent(d.coins) && d.headBlocks == []
      case Cache(c) => c.Valid()
    }

    ghost function Bottom(): CoinsDb
      requires Linked()
      decreases Depth(), 1
    {
      match this
      case Db(d) => d
      case Cache(c) => c.Bottom()
    }

    method GetCoin(op: OutPoint) returns (coin: Option<Coin>)
      requires Linked() && Valid()
      modifies Footprint()
      ensures Valid() && View() == old(View())
      ensures coin == if op in View() then Some(View()[op]) else None
      decreases Depth(), 3
    {
      match this
      case Db(d) => coin := if op in d.coins then Some(d.coins[op]) else None;
      case Cache(c) => coin := c.GetCoin(op);
    }
  }

  class CoinsCache {
    const base: Backend
    var hashBlock: nat
    var cacheCoins: CoinsMap
    var cachedCoinsUsage: int

    ghost const depth: nat
    ghost const footprint: set<object>

    /** The stack has no cycle: a cache is not among the objects below it. */
    ghost predicate Linked()
      decreases depth, 0
    {
      && depth == base.Depth() + 1
      && this !in base.Footprint()
      && footprint == {this} + base.Footprint()
      && base.Linked()
    }

    ghost function View(): Utxo
      requires Linked()
      reads footprint
      decreases depth, 0
    {
      Overlay(cacheCoins, base.View())
    }

    ghost function Bottom(): CoinsDb
      requires Linked()
      decreases depth, 0
    {
      base.Bottom()
    }

    /** The three facts every run keeps, here and in every cache below. */
    ghost predicate Valid()
      requires Linked()
      reads footprint
      decreases depth, 0
    {
      && Consistent(cacheCoins, base.View())
      && cachedCoinsUsage == SumUsage(cacheCoins)
      && base.Valid()
    }

    constructor (base: Backend)
      requires base.Linked()
      ensures Linked() && this.base == base && fresh(footprint - base.Footprint())
      ensures cacheCoins == map[] && hashBlock == NULL_HASH
      ensures base.Valid() ==> Valid() && View() == base.View()
    {
      this.base := base;
      hashBlock := NULL_HASH;
      cacheCoins := map[];
      cachedCoinsUsage := 0;
      depth := base.Depth() + 1;
      footprint := {this} + base.Footprint();
      new;
      assert Overlay(cacheCoins, base.View()) == base.View();
    }

    /** A view shows unspent coins only. */
    lemma ViewUnspent()
      requires Linked() && Valid()
      ensures AllUnspent(View()) && AllUnspent(base.View())
      decreases depth
    {
      if base.Cache? {
        base.cache.ViewUnspent();
      }
    }

    method FetchCoin(op: OutPoint) returns (found: bool)
      requires Linked() && Valid()
      modifies footprint
      ensures Valid() && View() == old(View()) && base.View() == old(base.View())
      ensures found == (op in cacheCoins) == (op in old(cacheCoins) || op in old(base.View()))
      ensures cacheCoins == if op in old(cacheCoins) || !found then old(cacheCoins)
                            else Fetched(old(cacheCoins), op, old(base.View())[op])
      ensures hashBlock == old(hashBlock)
      decreases depth, 1
    {
      hide Overlay, Consistent, SumUsage;
      if op in cacheCoins {
        return true;
      }
      var tmp := base.GetCoin(op);
      if tmp.None? {
        return false;
      }
      ViewUnspent();
      FetchedKeeps(cacheCoins, base.View(), op);
      SumUsagePut(cacheCoins, op, Entry(tmp.value, false, tmp.value.IsSpent()));
      cacheCoins := Fetched(cacheCoins, op, tmp.value);
      cachedCoinsUsage := cachedCoinsUsage + cacheCoins[op].coin.Usage();
      found := true;
    }

    method GetCoin(op: OutPoint) returns (coin: Option<Coin>)
      requires Linked() && Valid()
      modifies footprint
      ensures Valid() && View() == old(View())
      ensures coin == if op in View() then Some(View()[op]) else None
      decreases depth, 2
    {
      var found := FetchCoin(op);
      if found && !cacheCoins[op].coin.IsSpent() {
        coin := Some(cacheCoins[op].coin);
      } else {
        coin := None;
      }
    }

    method HaveCoin(op: OutPoint) returns (have: bool)
      requires Linked() && Valid()
      modifies footprint
      ensures Valid() && View() == old(View()) && hashBlock == old(hashBlock)
      ensures have == (op in View())
    {
      var found := FetchCoin(op);
      have := found && !cacheCoins[op].coin.IsSpent();
    }

    method AccessCoin(op: OutPoint) returns (coin: Coin)
      requires Linked() && Valid()
      modifies footprint
      ensures Valid() && View() == old(View()) && hashBlock == old(hashBlock)
      ensures coin.IsSpent() == (op !in View())
      ensures op in View() ==> coin == View()[op]
    {
      var found := FetchCoin(op);
      coin := if found then cacheCoins[op].coin else EmptyCoin;
    }

    /** Returns false where the source throws "Adding new coin that replaces
        non-pruned entry". */
    method AddCoin(op: OutPoint, coin: Coin, overwrite: bool) returns (ok: bool)
      requires Linked() && Valid() && !coin.IsSpent()
      modifies this
      ensures coin.out.IsUnspendable() ==> ok && View() == old(View())
      ensures ok <==> coin.out.IsUnspendable() || !AddThrows(old(cacheCoins), op, overwrite)
      ensures ok && !coin.out.IsUnspendable() ==>
                && cacheCoins == Added(old(cacheCoins), op, coin, overwrite)
                && View() == old(View())[op := coin]
      ensures !ok || coin.out.IsUnspendable() ==> cacheCoins == old(cacheCoins)
      ensures !ok ==> cachedCoinsUsage == old(cachedCoinsUsage) - old(cacheCoins)[op].coin.Usage()
      ensures hashBlock == old(hashBlock)
      ensures ok && Valid() <==> coin.out.IsUnspendable() || overwrite || op !in old(View())
    {
      hide Overlay, Consistent, SumUsage;
      if coin.out.IsUnspendable() {
        return true;
      }
      if op in cacheCoins {
        cachedCoinsUsage := cachedCoinsUsage - cacheCoins[op].coin.Usage();
      }
      OverlayAt(cacheCoins, base.View(), op);
      if !overwrite && op in cacheCoins && !cacheCoins[op].coin.IsSpent() {
        return false;
      }
      AddedMeaning(cacheCoins, base.View(), op, coin, overwrite);
      ghost var e := Added(cacheCoins, op, coin, overwrite)[op];
      SumUsagePut(cacheCoins, op, e);
      var before := if op in cacheCoins then cacheCoins[op] else Entry(EmptyCoin, false, false);
      var isFresh := !overwrite && !before.isDirty;
      cacheCoins := cacheCoins[op := Entry(coin, true, before.isFresh || isFresh)];
      cachedCoinsUsage := cachedCoinsUsage + coin.Usage();
      ok := true;
    }

    /** Returns the entry's previous coin, or None where the source returns false.
        The source returns true, with a spent coin, for an entry that is cached as
        already spent. */
    method SpendCoin(op: OutPoint) returns (moved: Option<Coin>)
      requires Linked() && Valid()
      modifies footprint
      ensures Valid() && View() == old(View()) - {op} && base.View() == old(base.View())
      ensures moved.Some? <==> op in old(cacheCoins) || op in old(base.View())
      ensures moved.Some? && !moved.value.IsSpent() <==> op in old(View())
      ensures op in old(View()) ==> moved == Some(old(View())[op])
      ensures hashBlock == old(hashBlock)
    {
      hide Overlay, Consistent, SumUsage;
      var found := FetchCoin(op);
      OverlayAt(cacheCoins, base.View(), op);
      if !found {
        assert View() == View() - {op};
        return None;
      }
      SpentMeaning(cacheCoins, base.View(), op);
      SumUsageRemove(cacheCoins, op);
      SumUsagePut(cacheCoins, op, Entry(EmptyCoin, true, false));
      var coin := cacheCoins[op].coin;
      cachedCoinsUsage := cachedCoinsUsage - coin.Usage();
      if cacheCoins[op].isFresh {
        cacheCoins := cacheCoins - {op};
      } else {
        cacheCoins := cacheCoins[op := Entry(EmptyCoin, true, false)];
      }
      moved := Some(coin);
    }

    method Uncache(op: OutPoint)
      requires Linked() && Valid()
      modifies this
      ensures Valid() && View() == old(View())
      ensures hashBlock == old(hashBlock)
      ensures cacheCoins == if op in old(cacheCoins) && !old(cacheCoins)[op].isDirty && !old(cacheCoins)[op].isFresh
                            then old(cacheCoins) - {op} else old(cacheCoins)
    {
      hide Overlay, Consistent, SumUsage;
      if op in cacheCoins && !cacheCoins[op].isDirty && !cacheCoins[op].isFresh {
        UncachedKeeps(cacheCoins, base.View(), op);
        SumUsageRemove(cacheCoins, op);
        cachedCoinsUsage := cachedCoinsUsage - cacheCoins[op].coin.Usage();
        cacheCoins := cacheCoins - {op};
      }
    }

    /** One turn of BatchWrite: false where the source throws "FRESH flag misapplied". */
    method WriteEntry(op: OutPoint, e: Entry) returns (ok: bool)
      requires cachedCoinsUsage == SumUsage(cacheCoins)
      modifies this`cacheCoins, this`cachedCoinsUsage
      ensures ok == !MergeThrows(old(cacheCoins), op, e)
      ensures cacheCoins == if ok then Merged(old(cacheCoins), op, e) else old(cacheCoins)
      ensures cachedCoinsUsage == SumUsage(cacheCoins)
    {
      hide SumUsage;
      if !e.isDirty {
        return true;
      }
      if op !in cacheCoins {
        if !(e.isFresh && e.coin.IsSpent()) {
          SumUsagePut(cacheCoins, op, Entry(e.coin, true, e.isFresh));
          cacheCoins := cacheCoins[op := Entry(e.coin, true, e.isFresh)];
          cachedCoinsUsage := cachedCoinsUsage + e.coin.Usage();
        }
      } else {
        var us := cacheCoins[op];
        if e.isFresh && !us.coin.IsSpent() {
          return false;
        }
        if us.isFresh && e.coin.IsSpent() {
          SumUsageRemove(cacheCoins, op);
          cachedCoinsUsage := cachedCoinsUsage - us.coin.Usage();
          cacheCoins := cacheCoins - {op};
        } else {
          SumUsagePut(cacheCoins, op, Entry(e.coin, true, us.isFresh));
          cachedCoinsUsage := cachedCoinsUsage - us.coin.Usage() + e.coin.Usage();
          cacheCoins := cacheCoins[op := Entry(e.coin, true, us.isFresh)];
        }
      }
      ok := true;
    }

    /** The BatchWrite loop, which consumes the child's map in no particular order. */
    method WriteEntries(mapCoins: CoinsMap) returns (ok: bool)
      requires cachedCoinsUsage == SumUsage(cacheCoins)
      modifies this`cacheCoins, this`cachedCoinsUsage
      ensures ok <==> NoMergeThrows(old(cacheCoins), mapCoins)
      ensures ok ==> IsMergeOf(old(cacheCoins), mapCoins, mapCoins.Keys, cacheCoins)
      ensures cachedCoinsUsage == SumUsage(cacheCoins)
    {
      hide SumUsage, IsMergeOf, Merged;
      var todo := mapCoins;
      MergeNothing(cacheCoins, mapCoins);
      ghost var done: set<OutPoint> := {};
      while todo.Keys != {}
        invariant done !! todo.Keys && done + todo.Keys == mapCoins.Keys
        invariant forall op :: op in todo ==> todo[op] == mapCoins[op]
        invariant IsMergeOf(old(cacheCoins), mapCoins, done, cacheCoins)
        invariant forall op :: op in done ==> !MergeThrows(old(cacheCoins), op, mapCoins[op])
        invariant cachedCoinsUsage == SumUsage(cacheCoins)
        decreases |todo|
      {
        var op :| op in todo;
        MergeTurn(old(cacheCoins), mapCoins, done, cacheCoins, op);
        ok := WriteEntry(op, todo[op]);
        if !ok {
          return;
        }
        done := done + {op};
        todo := todo - {op};
      }
      assert done == mapCoins.Keys;
      ok := true;
    }

    /** Returns false where the source throws "FRESH flag misapplied". */
    method BatchWrite(mapCoins: CoinsMap, hash: nat) returns (ok: bool)
      requires Linked() && Valid()
      modifies this
      ensures ok <==> NoMergeThrows(old(cacheCoins), mapCoins)
      ensures ok ==> IsMergeOf(old(cacheCoins), mapCoins, mapCoins.Keys, cacheCoins)
      ensures ok ==> hashBlock == hash && cachedCoinsUsage == SumUsage(cacheCoins)
      ensures Consistent(mapCoins, old(View())) ==> ok && Valid() && View() == Overlay(mapCoins, old(View()))
    {
      hide Overlay, Consistent, SumUsage, IsMergeOf, NoMergeThrows;
      ghost var below := base.View();
      ok := WriteEntries(mapCoins);
      if ok {
        hashBlock := hash;
      }
      ghost var child := mapCoins;
      if Consistent(child, old(View())) {
        ConsistentChildNeverThrows(old(cacheCoins), below, child);
        MergeMeaning(old(cacheCoins), below, child, cacheCoins);
      }
    }

    /** Pushes this cache's changes one level down and empties it. */
    method Flush() returns (ok: bool)
      requires Linked() && Valid()
      requires base.Db? ==> hashBlock != NULL_HASH
      modifies footprint
      ensures ok && Valid() && cacheCoins == map[]
      ensures View() == old(View()) && base.View() == old(View())
      ensures hashBlock == old(hashBlock)
      ensures match base case Db(d) => d.bestBlock == hashBlock case Cache(c) => c.hashBlock == hashBlock
    {
      hide Overlay, Consistent, SumUsage;
      ViewUnspent();
      ghost var below := base.View();
      match base {
        case Db(d) =>
          WriteDirtyMeaning(cacheCoins, below);
          ghost var reached := d.BatchWrite(cacheCoins, hashBlock);
          ok := true;
        case Cache(c) =>
          assert c.Linked();
          ok := c.BatchWrite(cacheCoins, hashBlock);
      }
      cacheCoins := map[];
      cachedCoinsUsage := 0;
      EmptyCache(base.View());
    }

    lemma EmptyCache(below: Utxo)
      ensures Overlay(map[], below) == below && Consistent(map[], below) && SumUsage(map[]) == 0
    {
    }

    /** Flushing level after level leaves the database equal to what the top showed. */
    method FlushAll()
      requires Linked() && Valid() && hashBlock != NULL_HASH
      modifies footprint
      ensures Valid() && View() == old(View())
      ensures Bottom().coins == old(View()) && Bottom().bestBlock == old(hashBlock)
      decreases depth
    {
      var _ := Flush();
      if base.Cache? {
        base.cache.FlushAll();
        EmptyCache(base.View());
      }
    }
  }

  // ---------------------------------------------------------------- AddCoins

  datatype Tx = Tx(id: nat, coinBase: bool, coinStake: bool, vout: seq<TxOut>) {
    function OutputCoin(i: nat, height: nat): Coin
      requires i < |vout|
    {
      Coin(vout[i], height, coinBase, coinStake)
    }
  }

  /** The plain map after the first `n` outputs of `tx` are inserted. */
  ghost function WithOutputs(u: Utxo, tx: Tx, height: nat, n: nat): Utxo
    requires n <= |tx.vout|
  {
    if n == 0 then u
    else
      var v := WithOutputs(u, tx, height, n - 1);
      if tx.vout[n - 1].IsUnspendable() then v
      else v[OutPoint(tx.id, n - 1) := tx.OutputCoin(n - 1, height)]
  }

  ghost predicate OutputsAbsent(u: Utxo, tx: Tx) {
    forall i: nat :: i < |tx.vout| ==> tx.vout[i].IsUnspendable() || OutPoint(tx.id, i) !in u
  }

  lemma {:induction false} WithOutputsAt(u: Utxo, tx: Tx, height: nat, n: nat, i: nat)
    requires n <= i
    requires n <= |tx.vout|
    ensures OutPoint(tx.id, i) in WithOutputs(u, tx, height, n) <==> OutPoint(tx.id, i) in u
  {
    if n > 0 {
      WithOutputsAt(u, tx, height, n - 1, i);
    }
  }

  lemma {:induction false} WithOutputsHolds(u: Utxo, tx: Tx, height: nat, n: nat, op: OutPoint)
    requires n <= |tx.vout|
    ensures var v := WithOutputs(u, tx, height, n);
            if op.hash == tx.id && op.n < n && !tx.vout[op.n].IsUnspendable() then
              op in v && v[op] == Coin(tx.vout[op.n], height, tx.coinBase, tx.coinStake)
            else
              (op in v <==> op in u) && (op in v ==> v[op] == u[op])
  {
    if n > 0 {
      WithOutputsHolds(u, tx, height, n - 1, op);
    }
  }

  /** With `check` set, or under the assumption documented for `check == false`, the
      exception is unreachable and the view gains exactly the spendable outputs. */
  method AddCoins(cache: CoinsCache, tx: Tx, height: nat, check: bool) returns (ok: bool)
    requires cache.Linked() && cache.Valid()
    requires forall i :: 0 <= i < |tx.vout| ==> !tx.vout[i].IsNull()
    requires check || tx.coinBase || OutputsAbsent(cache.View(), tx)
    modifies cache.footprint
    ensures ok && cache.Valid()
    ensures cache.View() == WithOutputs(old(cache.View()), tx, height, |tx.vout|)
    ensures forall i: nat :: i < |tx.vout| && !tx.vout[i].IsUnspendable() ==>
              && OutPoint(tx.id, i) in cache.View()
              && var coin := cache.View()[OutPoint(tx.id, i)];
                 && coin.out == tx.vout[i] && coin.height == height
                 && coin.coinBase == tx.coinBase && coin.coinStake == tx.coinStake
    ensures forall op: OutPoint :: op.hash != tx.id || op.n >= |tx.vout| || tx.vout[op.n].IsUnspendable() ==>
              && (op in cache.View() <==> op in old(cache.View()))
              && (op in cache.View() ==> cache.View()[op] == old(cache.View())[op])
  {
    hide CoinsCache.View, CoinsCache.Valid, Overlay, Added, AddThrows;
    forall op: OutPoint {
      WithOutputsHolds(old(cache.View()), tx, height, |tx.vout|, op);
    }
    for i := 0 to |tx.vout|
      invariant cache.Valid()
      invariant cache.View() == WithOutputs(old(cache.View()), tx, height, i)
    {
      var overwrite := tx.coinBase;
      if check {
        overwrite := cache.HaveCoin(OutPoint(tx.id, i));
      }
      WithOutputsAt(old(cache.View()), tx, height, i, i);
      ok := cache.AddCoin(OutPoint(tx.id, i), tx.OutputCoin(i, height), overwrite);
      if !ok {
        return;
      }
    }
    ok := true;
  }

  // ---------------------------------------------------------------- whole runs

  datatype Op =
    | Lookup(op: OutPoint)
    | Insert(op: OutPoint, coin: Coin, overwrite: bool)
    | Remove(op: OutPoint)
    | Drop(op: OutPoint)
    | WriteBack

  /** The reference: the same operations on one plain map. */
  ghost function PlainStep(u: Utxo, a: Op): Utxo {
    match a
    case Insert(op, coin, _) => if coin.out.IsUnspendable() then u else u[op := coin]
    case Remove(op) => u - {op}
    case _ => u
  }

  ghost function PlainShows(u: Utxo, a: Op): Option<Coin> {
    match a
    case Lookup(op) => if op in u then Some(u[op]) else None
    case Remove(op) => if op in u then Some(u[op]) else None
    case _ => None
  }

  /** What the source asks of callers of AddCoin. */
  ghost predicate Allowed(u: Utxo, a: Op) {
    a.Insert? ==> !a.coin.IsSpent() && (a.overwrite || a.coin.out.IsUnspendable() || a.op !in u)
  }

  ghost function PlainRun(u: Utxo, ops: seq<Op>): Utxo {
    if ops == [] then u else PlainStep(PlainRun(u, ops[..|ops| - 1]), ops[|ops| - 1])
  }

  ghost predicate RunAllowed(u: Utxo, ops: seq<Op>) {
    forall i :: 0 <= i < |ops| ==> Allowed(PlainRun(u, ops[..i]), ops[i])
  }

  method Apply(top: CoinsCache, a: Op) returns (shown: Option<Coin>)
    requires top.Linked() && top.Valid() && top.hashBlock != NULL_HASH
    requires Allowed(top.View(), a)
    modifies top.footprint
    ensures top.Valid() && top.hashBlock == old(top.hashBlock)
    ensures top.View() == PlainStep(old(top.View()), a)
    ensures shown == PlainShows(old(top.View()), a)
  {
    hide CoinsCache.View, CoinsCache.Valid, Overlay, Added, AddThrows;
    shown := None;
    match a {
      case Lookup(op) =>
        var coin := top.AccessCoin(op);
        shown := if coin.IsSpent() then None else Some(coin);
      case Insert(op, coin, overwrite) =>
        var ok := top.AddCoin(op, coin, overwrite);
        assert ok;
      case Remove(op) =>
        var moved := top.SpendCoin(op);
        shown := if moved.Some? && !moved.value.IsSpent() then moved else None;
      case Drop(op) =>
        top.Uncache(op);
      case WriteBack =>
        var _ := top.Flush();
    }
  }

  /** Every sequence of operations on the top of a stack shows, step by step, what the
      same inserts and removals on one plain map show. */
  method Run(top: CoinsCache, ops: seq<Op>) returns (shown: seq<Option<Coin>>)
    requires top.Linked() && top.Valid() && top.hashBlock != NULL_HASH
    requires RunAllowed(top.View(), ops)
    modifies top.footprint
    ensures top.Valid() && top.View() == PlainRun(old(top.View()), ops)
    ensures |shown| == |ops|
    ensures forall i :: 0 <= i < |ops| ==> shown[i] == PlainShows(PlainRun(old(top.View()), ops[..i]), ops[i])
  {
    hide CoinsCache.View, CoinsCache.Valid, PlainStep, Allowed, PlainShows;
    shown := [];
    for i := 0 to |ops|
      invariant top.Valid() && top.hashBlock == old(top.hashBlock)
      invariant top.View() == PlainRun(old(top.View()), ops[..i])
      invariant |shown| == i
      invariant forall j :: 0 <= j < i ==> shown[j] == PlainShows(PlainRun(old(top.View()), ops[..j]), ops[j])
    {
      var r := Apply(top, ops[i]);
      shown := shown + [r];
      assert ops[..i + 1][..i] == ops[..i];
    }
    assert ops[..|ops|] == ops;
  }
}
