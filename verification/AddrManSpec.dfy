/** The address manager as a value: its six linked indexes, the elementary changes
    every operation is built from, and the consistency condition written down by
    Check_ (src/addrman.h, src/addrman.cpp). */
module AddrManSpec {

  const TRIED_BUCKET_COUNT: nat := 256
  const NEW_BUCKET_COUNT: nat := 1024
  const BUCKET_SIZE: nat := 64
  const NEW_BUCKETS_PER_ADDRESS: nat := 8
  const SET_TRIED_COLLISION_SIZE: nat := 10

  /** CService: an address with a port. The address alone is the key of mapAddr. */
  datatype Service = Service(ip: nat, port: nat)

  datatype Info = Info(
    svc: Service, time: int, services: bv64, source: nat,
    lastTry: int, lastCountAttempt: int, lastSuccess: int, attempts: int,
    refCount: int, inTried: bool, randomPos: int)

  /** The keyed hashes behind the bucket functions and the address classifications,
      as arbitrary functions. */
  datatype Hashes = Hashes(
    tried: Service -> nat,
    fromSource: (Service, nat) -> nat,
    position: (Service, bool, int) -> nat,
    isRoutable: nat -> bool,
    isValid: nat -> bool)

  function TriedBucket(h: Hashes, s: Service): (b: nat)
    ensures b < TRIED_BUCKET_COUNT
  {
    h.tried(s) % TRIED_BUCKET_COUNT
  }

  function NewBucket(h: Hashes, s: Service, source: nat): (b: nat)
    ensures b < NEW_BUCKET_COUNT
  {
    h.fromSource(s, source) % NEW_BUCKET_COUNT
  }

  function Position(h: Hashes, s: Service, isNew: bool, bucket: int): (p: nat)
    ensures p < BUCKET_SIZE
  {
    h.position(s, isNew, bucket) % BUCKET_SIZE
  }

  function TriedPosition(h: Hashes, s: Service): (p: nat)
    ensures p < BUCKET_SIZE
  {
    Position(h, s, false, TriedBucket(h, s))
  }

  // ---------------------------------------------------------------- bucket tables

  /** A table of buckets; -1 marks an empty slot. */
  type Table = seq<seq<int>>

  ghost predicate Dims(t: Table, buckets: nat) {
    |t| == buckets && forall b :: 0 <= b < |t| ==> |t[b]| == BUCKET_SIZE
  }

  function Put(t: Table, b: int, p: int, v: int): Table
    requires 0 <= b < |t| && 0 <= p < |t[b]|
  {
    t[b := t[b][p := v]]
  }

  function EmptyTable(buckets: nat): Table {
    seq(buckets, _ => seq(BUCKET_SIZE, _ => -1))
  }

  ghost function SlotsOf(t: Table, id: int): set<(int, int)> {
    set b, p | 0 <= b < |t| && 0 <= p < |t[b]| && t[b][p] == id :: (b, p)
  }

  lemma SlotsOfPut(t: Table, b: int, p: int, v: int, id: int)
    requires 0 <= b < |t| && 0 <= p < |t[b]|
    ensures SlotsOf(Put(t, b, p, v), id) ==
            if v == id then SlotsOf(t, id) + {(b, p)} else SlotsOf(t, id) - {(b, p)}
  {
    var t' := Put(t, b, p, v);
    forall c, q
      ensures (c, q) in SlotsOf(t', id) <==>
              if (c, q) == (b, p) then v == id else (c, q) in SlotsOf(t, id)
    {
    }
  }

  // ---------------------------------------------------------------- the manager

  datatype Manager = Manager(
    hashes: Hashes, idCount: int,
    info: map<int, Info>, addrs: map<nat, int>, random: seq<int>,
    nTried: int, triedTable: Table, nNew: int, newTable: Table,
    lastGood: int, collisions: set<int>)

  function Cleared(h: Hashes, collisions: set<int>): Manager {
    Manager(h, 0, map[], map[], [], 0, EmptyTable(TRIED_BUCKET_COUNT), 0, EmptyTable(NEW_BUCKET_COUNT), 1, collisions)
  }

  ghost predicate IdsOk(info: map<int, Info>, idCount: int) {
    forall id :: id in info ==> 0 <= id < idCount
  }

  /** vRandom and nRandomPos are inverse to each other. */
  ghost predicate RandomOk(info: map<int, Info>, random: seq<int>) {
    && (forall i :: 0 <= i < |random| ==> random[i] in info && info[random[i]].randomPos == i)
    && (forall id :: id in info ==> 0 <= info[id].randomPos < |random| && random[info[id].randomPos] == id)
    && |random| == |info|
  }

  ghost predicate AddrsOk(info: map<int, Info>, addrs: map<nat, int>) {
    && (forall id :: id in info ==> info[id].svc.ip in addrs && addrs[info[id].svc.ip] == id)
    && (forall a :: a in addrs ==> addrs[a] in info && info[addrs[a]].svc.ip == a)
  }

  /** A tried id sits in exactly the slot its hashes select, and no other id does. */
  ghost predicate TriedOk(h: Hashes, info: map<int, Info>, tried: Table) {
    && Dims(tried, TRIED_BUCKET_COUNT)
    && (forall b, p :: 0 <= b < |tried| && 0 <= p < |tried[b]| && tried[b][p] != -1 ==>
          var id := tried[b][p];
          id in info && info[id].inTried &&
          b == TriedBucket(h, info[id].svc) && p == TriedPosition(h, info[id].svc))
    && (forall id :: id in info && info[id].inTried ==>
          tried[TriedBucket(h, info[id].svc)][TriedPosition(h, info[id].svc)] == id)
  }

  /** A new slot holds an untried id at the position its hash selects. */
  ghost predicate NewOk(h: Hashes, info: map<int, Info>, newTable: Table) {
    && Dims(newTable, NEW_BUCKET_COUNT)
    && (forall b, p :: 0 <= b < |newTable| && 0 <= p < |newTable[b]| && newTable[b][p] != -1 ==>
          var id := newTable[b][p];
          id in info && !info[id].inTried && p == Position(h, info[id].svc, true, b))
  }

  /** nRefCount is the number of new slots that hold the id. */
  ghost predicate CountsOk(info: map<int, Info>, newTable: Table) {
    forall id :: id in info ==>
      info[id].refCount == |SlotsOf(newTable, id)| <= NEW_BUCKETS_PER_ADDRESS
  }

  ghost predicate TablesOk(h: Hashes, info: map<int, Info>, triedTable: Table, newTable: Table) {
    TriedOk(h, info, triedTable) && NewOk(h, info, newTable) && CountsOk(info, newTable)
  }

  ghost function TriedIds(info: map<int, Info>): set<int> {
    set id | id in info && info[id].inTried
  }

  ghost function NewIds(info: map<int, Info>): set<int> {
    set id | id in info && !info[id].inTried
  }

  /** Ids held by neither table: they exist only in the middle of an operation. */
  ghost function Limbo(info: map<int, Info>): set<int> {
    set id | id in info && !info[id].inTried && info[id].refCount == 0
  }

  /** What holds even in the middle of an operation. */
  ghost predicate Linked(m: Manager) {
    && IdsOk(m.info, m.idCount)
    && RandomOk(m.info, m.random)
    && AddrsOk(m.info, m.addrs)
    && TablesOk(m.hashes, m.info, m.triedTable, m.newTable)
    && m.nTried == |TriedIds(m.info)|
    && m.idCount >= 0
  }

  /** The structural conditions of Check_. */
  ghost predicate Check(m: Manager) {
    && Linked(m)
    && Limbo(m.info) == {}
    && m.nNew == |NewIds(m.info)|
  }

  /** Two info tables that differ only in fields the tables do not depend on. */
  ghost predicate SameCore(i: map<int, Info>, j: map<int, Info>) {
    && i.Keys == j.Keys
    && forall id :: id in i ==>
         i[id].svc == j[id].svc && i[id].inTried == j[id].inTried && i[id].refCount == j[id].refCount
  }

  lemma SameCoreFrame(h: Hashes, i: map<int, Info>, j: map<int, Info>, addrs: map<nat, int>, tried: Table,
                      newTable: Table)
    requires SameCore(i, j)
    ensures AddrsOk(i, addrs) ==> AddrsOk(j, addrs)
    ensures TablesOk(h, i, tried, newTable) ==> TablesOk(h, j, tried, newTable)
    ensures TriedIds(i) == TriedIds(j) && NewIds(i) == NewIds(j) && Limbo(i) == Limbo(j)
  {
    assert forall id :: id in i <==> id in j;
    forall id
      ensures id in TriedIds(i) <==> id in TriedIds(j)
      ensures id in NewIds(i) <==> id in NewIds(j)
      ensures id in Limbo(i) <==> id in Limbo(j)
    {
      assert id in i ==> i[id].inTried == j[id].inTried;
    }
  }

  lemma ClearedOk(h: Hashes, collisions: set<int>)
    ensures Check(Cleared(h, collisions))
  {
  }

  // ---------------------------------------------------------------- elementary changes

  ghost predicate CanSwap(m: Manager, i: int, j: int) {
    0 <= i < |m.random| && 0 <= j < |m.random| && m.random[i] in m.info && m.random[j] in m.info
  }

  /** SwapRandom. */
  ghost function Swapped(m: Manager, i: int, j: int): Manager
    requires CanSwap(m, i, j)
  {
    if i == j then m else
      var a, b := m.random[i], m.random[j];
      var info1 := m.info[a := m.info[a].(randomPos := j)];
      m.(info := info1[b := info1[b].(randomPos := i)], random := m.random[i := b][j := a])
  }

  lemma SwappedKeeps(m: Manager, i: int, j: int)
    requires RandomOk(m.info, m.random) && CanSwap(m, i, j)
    ensures RandomOk(Swapped(m, i, j).info, Swapped(m, i, j).random)
    ensures SameCore(m.info, Swapped(m, i, j).info)
    ensures Swapped(m, i, j) == m.(info := Swapped(m, i, j).info, random := Swapped(m, i, j).random)
    ensures |Swapped(m, i, j).random| == |m.random| && Swapped(m, i, j).random[j] == m.random[i]
  {
    if i != j {
      var m' := Swapped(m, i, j);
      assert m'.info.Keys == m.info.Keys;
      assert |m'.info| == |m.info| by { assert |m'.info.Keys| == |m.info.Keys|; }
      RandomSwapped(m.info, m'.info, m.random, i, j);
    }
  }

  lemma RandomSwapped(info: map<int, Info>, info': map<int, Info>, random: seq<int>, i: int, j: int)
    requires RandomOk(info, random) && 0 <= i < |random| && 0 <= j < |random| && i != j
    requires info'.Keys == info.Keys && |info'| == |info|
    requires info'[random[i]].randomPos == j && info'[random[j]].randomPos == i
    requires forall id :: id in info && id != random[i] && id != random[j] ==> info'[id] == info[id]
    ensures RandomOk(info', random[i := random[j]][j := random[i]])
  {
    RandomPlace(info, random, i);
    RandomPlace(info, random, j);
    assert |info| == |random|;
    var random' := random[i := random[j]][j := random[i]];
    assert RandomOk(info', random') by {
      forall k | 0 <= k < |random'|
        ensures random'[k] in info' && info'[random'[k]].randomPos == k
      {
        hide RandomOk;
        RandomPlace(info, random, k);
      }
      forall id | id in info'
        ensures 0 <= info'[id].randomPos < |random'| && random'[info'[id].randomPos] == id
      {
        hide RandomOk;
        RandomHolds(info, random, id);
      }
    }
  }

  lemma RandomPlace(info: map<int, Info>, random: seq<int>, k: int)
    requires RandomOk(info, random) && 0 <= k < |random|
    ensures random[k] in info && info[random[k]].randomPos == k
  {
  }

  ghost predicate CanDelete(m: Manager, id: int) {
    id in m.info && |m.random| > 0 && CanSwap(m, m.info[id].randomPos, |m.random| - 1)
  }

  /** Delete: swap to the end, pop, and drop the two index entries. */
  ghost function Deleted(m: Manager, id: int): Manager
    requires CanDelete(m, id)
  {
    var s := Swapped(m, m.info[id].randomPos, |m.random| - 1);
    s.(random := s.random[..|s.random| - 1], addrs := s.addrs - {m.info[id].svc.ip},
       info := s.info - {id}, nNew := s.nNew - 1)
  }

  lemma RandomAfterPop(info: map<int, Info>, random: seq<int>, id: int)
    requires RandomOk(info, random) && |random| > 0 && random[|random| - 1] == id
    ensures RandomOk(info - {id}, random[..|random| - 1])
  {
    var info', random' := info - {id}, random[..|random| - 1];
    assert info'.Keys == info.Keys - {id};
    assert |info'| == |info'.Keys| == |info.Keys| - 1;
    forall k | 0 <= k < |random'|
      ensures random'[k] in info' && info'[random'[k]].randomPos == k
    {
      assert random[k] in info && info[random[k]].randomPos == k;
      assert random[k] != id;
    }
    forall x | x in info'
      ensures 0 <= info'[x].randomPos < |random'| && random'[info'[x].randomPos] == x
    {
      assert random[info[x].randomPos] == x;
      assert info[x].randomPos != |random| - 1;
    }
  }

  /** Removing an id that no table holds. */
  lemma RemoveUnheld(h: Hashes, info: map<int, Info>, addrs: map<nat, int>, triedTable: Table, newTable: Table, id: int)
    requires AddrsOk(info, addrs) && TablesOk(h, info, triedTable, newTable)
    requires id in Limbo(info)
    ensures AddrsOk(info - {id}, addrs - {info[id].svc.ip})
    ensures TablesOk(h, info - {id}, triedTable, newTable)
    ensures TriedIds(info - {id}) == TriedIds(info)
    ensures NewIds(info - {id}) == NewIds(info) - {id} && Limbo(info - {id}) == Limbo(info) - {id}
  {
    hide SlotsOf;
    IdleHoldsNoSlot(info, newTable, id);
    assert AddrsOk(info - {id}, addrs - {info[id].svc.ip}) by { hide TablesOk; }
    assert TablesOk(h, info - {id}, triedTable, newTable) by { hide AddrsOk; }
  }

  lemma IdleHoldsNoSlot(info: map<int, Info>, newTable: Table, id: int)
    requires CountsOk(info, newTable) && id in info && info[id].refCount == 0
    ensures forall b, p :: 0 <= b < |newTable| && 0 <= p < |newTable[b]| ==> newTable[b][p] != id
  {
    assert SlotsOf(newTable, id) == {};
    assert forall b, p :: 0 <= b < |newTable| && 0 <= p < |newTable[b]| ==>
           newTable[b][p] != id || (b, p) in SlotsOf(newTable, id);
  }

  lemma DeletedKeeps(m: Manager, id: int)
    requires Linked(m) && id in Limbo(m.info)
    ensures CanDelete(m, id) && Linked(Deleted(m, id)) && id in NewIds(m.info)
    ensures NewIds(Deleted(m, id).info) == NewIds(m.info) - {id}
    ensures Limbo(Deleted(m, id).info) == Limbo(m.info) - {id}
    ensures SameCore(m.info - {id}, Deleted(m, id).info)
  {
    assert id in NewIds(m.info) && id in m.info;
    hide IdsOk, RandomOk, AddrsOk, TablesOk, TriedIds, NewIds, Limbo, Deleted, SameCore;
    var info, random := SwapToEnd(m, id);
    SameCoreMinus(m.info, info, id, m.idCount);
    SameCoreFrame(m.hashes, m.info, info, m.addrs, m.triedTable, m.newTable);
    RandomAfterPop(info, random, id);
    RemoveUnheld(m.hashes, info, m.addrs, m.triedTable, m.newTable, id);
  }

  lemma SameCoreMinus(i: map<int, Info>, j: map<int, Info>, id: int, idCount: int)
    requires SameCore(i, j) && id in i
    ensures SameCore(i - {id}, j - {id}) && id in j && j[id].svc == i[id].svc
    ensures IdsOk(i, idCount) ==> IdsOk(j - {id}, idCount)
  {
    assert forall x :: x in j ==> x in i;
  }

  lemma RandomHolds(info: map<int, Info>, random: seq<int>, id: int)
    requires RandomOk(info, random) && id in info
    ensures 0 <= info[id].randomPos < |random| && random[info[id].randomPos] == id && random[|random| - 1] in info
  {
  }

  /** The arrangement that Delete pops from: same entries, `id` last. */
  lemma SwapToEnd(m: Manager, id: int) returns (info: map<int, Info>, random: seq<int>)
    requires RandomOk(m.info, m.random) && id in m.info
    ensures CanDelete(m, id)
    ensures RandomOk(info, random) && SameCore(m.info, info) && |random| > 0 && random[|random| - 1] == id
    ensures Deleted(m, id) == m.(random := random[..|random| - 1], addrs := m.addrs - {m.info[id].svc.ip},
                                 info := info - {id}, nNew := m.nNew - 1)
  {
    hide RandomOk, Swapped, SameCore;
    RandomHolds(m.info, m.random, id);
    SwappedKeeps(m, m.info[id].randomPos, |m.random| - 1);
    var s := Swapped(m, m.info[id].randomPos, |m.random| - 1);
    info, random := s.info, s.random;
  }

  /** Create, under the next unused id. */
  ghost function Created(m: Manager, svc: Service, time: int, services: bv64, source: nat): Manager {
    var entry := Info(svc, time, services, source, 0, 0, 0, 0, 0, false, |m.random|);
    m.(idCount := m.idCount + 1, info := m.info[m.idCount := entry],
       addrs := m.addrs[svc.ip := m.idCount], random := m.random + [m.idCount])
  }

  lemma CreatedKeeps(m: Manager, svc: Service, time: int, services: bv64, source: nat)
    requires Linked(m) && svc.ip !in m.addrs
    ensures var m' := Created(m, svc, time, services, source);
            && Linked(m')
            && NewIds(m'.info) == NewIds(m.info) + {m.idCount}
            && Limbo(m'.info) == Limbo(m.info) + {m.idCount}
            && m.idCount !in m.info
  {
    hide RandomOk, AddrsOk, TablesOk, TriedIds, NewIds, Limbo;
    CreatedIndexes(m, svc, time, services, source);
    var m' := Created(m, svc, time, services, source);
    AddUnheld(m.hashes, m.info, m.triedTable, m.newTable, m.idCount, m'.info[m.idCount]);
  }

  /** Adding an id that no table holds. */
  lemma AddUnheld(h: Hashes, info: map<int, Info>, triedTable: Table, newTable: Table, id: int, entry: Info)
    requires TablesOk(h, info, triedTable, newTable)
    requires id !in info && id != -1 && !entry.inTried && entry.refCount == 0
    ensures TablesOk(h, info[id := entry], triedTable, newTable)
    ensures TriedIds(info[id := entry]) == TriedIds(info)
    ensures NewIds(info[id := entry]) == NewIds(info) + {id}
    ensures Limbo(info[id := entry]) == Limbo(info) + {id}
  {
    assert SlotsOf(newTable, id) == {};
  }

  lemma CreatedIndexes(m: Manager, svc: Service, time: int, services: bv64, source: nat)
    requires IdsOk(m.info, m.idCount) && RandomOk(m.info, m.random) && AddrsOk(m.info, m.addrs) && svc.ip !in m.addrs
    ensures var m' := Created(m, svc, time, services, source);
            RandomOk(m'.info, m'.random) && AddrsOk(m'.info, m'.addrs)
  {
    hide RandomOk, AddrsOk;
    var m', id := Created(m, svc, time, services, source), m.idCount;
    assert id !in m.info;
    OneMoreEntry(m.info, id, m'.info[id]);
    RandomAfterPush(m.info, m.random, id, m'.info[id]);
    AddrsAfterAdd(m.info, m.addrs, id, m'.info[id]);
  }

  lemma OneMoreEntry(info: map<int, Info>, id: int, entry: Info)
    requires id !in info
    ensures |info[id := entry]| == |info| + 1
  {
    var more := info[id := entry];
    assert more.Keys == info.Keys + {id};
    assert |more| == |more.Keys|;
  }

  lemma AddrsAfterAdd(info: map<int, Info>, addrs: map<nat, int>, id: int, entry: Info)
    requires AddrsOk(info, addrs) && id !in info && entry.svc.ip !in addrs
    ensures AddrsOk(info[id := entry], addrs[entry.svc.ip := id])
  {
  }

  lemma RandomAfterPush(info: map<int, Info>, random: seq<int>, id: int, entry: Info)
    requires RandomOk(info, random) && id !in info && entry.randomPos == |random|
    requires |info[id := entry]| == |info| + 1
    ensures RandomOk(info[id := entry], random + [id])
  {
    var info', random' := info[id := entry], random + [id];
    forall k | 0 <= k < |random'|
      ensures random'[k] in info' && info'[random'[k]].randomPos == k
    {
      if k < |random| {
        assert random[k] in info;
      }
    }
  }

  lemma IndexFrame(i: map<int, Info>, id: int, entry: Info, idCount: int, random: seq<int>, addrs: map<nat, int>)
    requires IdsOk(i, idCount) && RandomOk(i, random) && AddrsOk(i, addrs)
    requires id in i && entry.svc == i[id].svc && entry.randomPos == i[id].randomPos
    ensures IdsOk(i[id := entry], idCount) && RandomOk(i[id := entry], random) && AddrsOk(i[id := entry], addrs)
  {
    assert |i[id := entry]| == |i| by {
      assert i[id := entry].Keys == i.Keys;
      assert |i[id := entry].Keys| == |i.Keys|;
    }
    assert RandomOk(i[id := entry], random) by { hide AddrsOk; }
    assert AddrsOk(i[id := entry], addrs) by { hide RandomOk; }
  }

  /** Updating statistics that no index depends on. */
  ghost function Touched(m: Manager, id: int, entry: Info): Manager
    requires id in m.info
  {
    m.(info := m.info[id := entry])
  }

  lemma TouchedKeeps(m: Manager, id: int, entry: Info)
    requires Linked(m) && id in m.info
    requires entry.svc == m.info[id].svc && entry.inTried == m.info[id].inTried
    requires entry.refCount == m.info[id].refCount && entry.randomPos == m.info[id].randomPos
    ensures Linked(Touched(m, id, entry)) && SameCore(m.info, Touched(m, id, entry).info)
    ensures NewIds(Touched(m, id, entry).info) == NewIds(m.info) && Limbo(Touched(m, id, entry).info) == Limbo(m.info)
  {
    hide IdsOk, RandomOk, AddrsOk, TablesOk, TriedIds, NewIds, Limbo;
    IndexFrame(m.info, id, entry, m.idCount, m.random, m.addrs);
    assert m.info[id := entry].Keys == m.info.Keys;
    SameCoreFrame(m.hashes, m.info, m.info[id := entry], m.addrs, m.triedTable, m.newTable);
  }

  ghost predicate NewSlotHeld(m: Manager, b: int, p: int) {
    0 <= b < |m.newTable| && 0 <= p < |m.newTable[b]| && m.newTable[b][p] in m.info
  }

  /** Emptying one new slot and dropping the reference it stood for. */
  ghost function Unreferenced(m: Manager, b: int, p: int): Manager
    requires NewSlotHeld(m, b, p)
  {
    var id := m.newTable[b][p];
    m.(newTable := Put(m.newTable, b, p, -1), info := m.info[id := m.info[id].(refCount := m.info[id].refCount - 1)])
  }

  lemma UnreferencedKeeps(m: Manager, b: int, p: int)
    requires Linked(m) && 0 <= b < NEW_BUCKET_COUNT && 0 <= p < BUCKET_SIZE && m.newTable[b][p] != -1
    ensures NewSlotHeld(m, b, p) && m.info[m.newTable[b][p]].refCount > 0
    ensures Linked(Unreferenced(m, b, p))
    ensures NewIds(Unreferenced(m, b, p).info) == NewIds(m.info)
    ensures Limbo(Unreferenced(m, b, p).info) ==
            if m.info[m.newTable[b][p]].refCount == 1 then Limbo(m.info) + {m.newTable[b][p]} else Limbo(m.info)
  {
    hide IdsOk, RandomOk, AddrsOk, TablesOk, SlotsOf, TriedIds, NewIds, Limbo;
    NewSlotFacts(m, b, p);
    var id := m.newTable[b][p];
    IndexFrame(m.info, id, m.info[id].(refCount := m.info[id].refCount - 1), m.idCount, m.random, m.addrs);
    UnreferencedTables(m.hashes, m.info, m.triedTable, m.newTable, b, p);
  }

  lemma NewSlotFacts(m: Manager, b: int, p: int)
    requires Linked(m) && 0 <= b < NEW_BUCKET_COUNT && 0 <= p < BUCKET_SIZE
    ensures |m.newTable| == NEW_BUCKET_COUNT && |m.newTable[b]| == BUCKET_SIZE && -1 !in m.info
    ensures m.newTable[b][p] != -1 ==>
              var id := m.newTable[b][p];
              && id in m.info && !m.info[id].inTried && m.info[id].refCount > 0
              && p == Position(m.hashes, m.info[id].svc, true, b)
  {
    hide RandomOk, AddrsOk;
    assert m.newTable[b][p] != -1 ==> (b, p) in SlotsOf(m.newTable, m.newTable[b][p]);
  }

  lemma UnreferencedTables(h: Hashes, info: map<int, Info>, triedTable: Table, newTable: Table, b: int, p: int)
    requires TablesOk(h, info, triedTable, newTable) && -1 !in info
    requires 0 <= b < |newTable| && 0 <= p < |newTable[b]| && newTable[b][p] != -1
    ensures var id := newTable[b][p];
            var info' := info[id := info[id].(refCount := info[id].refCount - 1)];
            && TablesOk(h, info', triedTable, Put(newTable, b, p, -1))
            && TriedIds(info') == TriedIds(info) && NewIds(info') == NewIds(info)
            && Limbo(info') == if info[id].refCount == 1 then Limbo(info) + {id} else Limbo(info)
  {
    var id := newTable[b][p];
    var t' := Put(newTable, b, p, -1);
    var info' := info[id := info[id].(refCount := info[id].refCount - 1)];
    assert (b, p) in SlotsOf(newTable, id);
    PutCounts(info, newTable, b, p, -1);
    assert CountsOk(info', t') by { hide TriedOk, NewOk, SlotsOf; }
    assert NewOk(h, info', t') by { hide TriedOk, CountsOk, SlotsOf; }
    assert TriedOk(h, info', triedTable) by { hide CountsOk, SlotsOf; }
  }

  /** How one slot update changes every id's number of slots. */
  lemma PutCounts(info: map<int, Info>, t: Table, b: int, p: int, v: int)
    requires 0 <= b < |t| && 0 <= p < |t[b]|
    ensures forall id :: id in info ==>
              |SlotsOf(Put(t, b, p, v), id)| ==
              |SlotsOf(t, id)| - (if t[b][p] == id && v != id then 1 else 0) +
                  (if t[b][p] != id && v == id then 1 else 0)
  {
    forall id | id in info
      ensures |SlotsOf(Put(t, b, p, v), id)| ==
              |SlotsOf(t, id)| - (if t[b][p] == id && v != id then 1 else 0) +
                  (if t[b][p] != id && v == id then 1 else 0)
    {
      SlotsOfPut(t, b, p, v, id);
      assert (b, p) in SlotsOf(t, id) <==> t[b][p] == id;
    }
  }

  ghost predicate NewSlotEmpty(m: Manager, b: int, p: int) {
    0 <= b < |m.newTable| && 0 <= p < |m.newTable[b]| && m.newTable[b][p] == -1
  }

  /** Filling one empty new slot. */
  ghost function Referenced(m: Manager, b: int, p: int, id: int): Manager
    requires NewSlotEmpty(m, b, p) && id in m.info
  {
    m.(newTable := Put(m.newTable, b, p, id), info := m.info[id := m.info[id].(refCount := m.info[id].refCount + 1)])
  }

  lemma ReferencedKeeps(m: Manager, b: int, p: int, id: int)
    requires Linked(m) && NewSlotEmpty(m, b, p)
    requires id in m.info && !m.info[id].inTried && m.info[id].refCount < NEW_BUCKETS_PER_ADDRESS
    requires p == Position(m.hashes, m.info[id].svc, true, b)
    ensures Linked(Referenced(m, b, p, id))
    ensures NewIds(Referenced(m, b, p, id).info) == NewIds(m.info)
    ensures Limbo(Referenced(m, b, p, id).info) == Limbo(m.info) - {id}
  {
    assert -1 !in m.info;
    var entry := m.info[id].(refCount := m.info[id].refCount + 1);
    hide IdsOk, RandomOk, AddrsOk;
    IndexFrame(m.info, id, entry, m.idCount, m.random, m.addrs);
    ReferencedTables(m.hashes, m.info, m.triedTable, m.newTable, b, p, id);
  }

  lemma ReferencedTables(h: Hashes, info: map<int, Info>, triedTable: Table, newTable: Table, b: int, p: int, id: int)
    requires TablesOk(h, info, triedTable, newTable) && -1 !in info
    requires 0 <= b < |newTable| && 0 <= p < |newTable[b]| && newTable[b][p] == -1 && id != -1
    requires id in info && !info[id].inTried && info[id].refCount < NEW_BUCKETS_PER_ADDRESS
    requires p == Position(h, info[id].svc, true, b)
    ensures var info' := info[id := info[id].(refCount := info[id].refCount + 1)];
            && TablesOk(h, info', triedTable, Put(newTable, b, p, id))
            && TriedIds(info') == TriedIds(info) && NewIds(info') == NewIds(info)
            && Limbo(info') == Limbo(info) - {id}
  {
    var t' := Put(newTable, b, p, id);
    var info' := info[id := info[id].(refCount := info[id].refCount + 1)];
    PutCounts(info, newTable, b, p, id);
    assert CountsOk(info', t') by { hide TriedOk, NewOk, SlotsOf; }
    assert NewOk(h, info', t') by { hide TriedOk, CountsOk, SlotsOf; }
    assert TriedOk(h, info', triedTable) by { hide CountsOk, SlotsOf; }
  }

  ghost predicate TriedSlotHeld(m: Manager, b: int, p: int) {
    0 <= b < |m.triedTable| && 0 <= p < |m.triedTable[b]| && m.triedTable[b][p] in m.info
  }

  /** Taking an entry out of the tried table. */
  ghost function TriedOut(m: Manager, b: int, p: int): Manager
    requires TriedSlotHeld(m, b, p)
  {
    var id := m.triedTable[b][p];
    m.(triedTable := Put(m.triedTable, b, p, -1), info := m.info[id := m.info[id].(inTried := false)],
       nTried := m.nTried - 1)
  }

  lemma TriedOutKeeps(m: Manager, b: int, p: int)
    requires Linked(m) && 0 <= b < TRIED_BUCKET_COUNT && 0 <= p < BUCKET_SIZE && m.triedTable[b][p] != -1
    ensures TriedSlotHeld(m, b, p) && Linked(TriedOut(m, b, p))
    ensures var id := m.triedTable[b][p];
            && id !in NewIds(m.info) && NewIds(TriedOut(m, b, p).info) == NewIds(m.info) + {id}
            && Limbo(TriedOut(m, b, p).info) == Limbo(m.info) + {id} && m.info[id].refCount == 0
  {
    assert -1 !in m.info;
    hide IdsOk, RandomOk, AddrsOk;
    var id := m.triedTable[b][p];
    var entry := m.info[id].(inTried := false);
    IndexFrame(m.info, id, entry, m.idCount, m.random, m.addrs);
    TriedUnreferenced(m.hashes, m.info, m.triedTable, m.newTable, id);
    assert TriedIds(m.info[id := entry]) == TriedIds(m.info) - {id};
    TriedOutTables(m.hashes, m.info, m.triedTable, m.newTable, b, p);
  }

  /** A tried id is in no new slot. */
  lemma TriedUnreferenced(h: Hashes, info: map<int, Info>, triedTable: Table, newTable: Table, id: int)
    requires TablesOk(h, info, triedTable, newTable) && id in info && info[id].inTried && id != -1
    ensures SlotsOf(newTable, id) == {} && info[id].refCount == 0
  {
  }

  lemma TriedOutTables(h: Hashes, info: map<int, Info>, triedTable: Table, newTable: Table, b: int, p: int)
    requires TablesOk(h, info, triedTable, newTable) && -1 !in info
    requires 0 <= b < |triedTable| && 0 <= p < |triedTable[b]| && triedTable[b][p] != -1
    ensures var id := triedTable[b][p];
            TablesOk(h, info[id := info[id].(inTried := false)], Put(triedTable, b, p, -1), newTable)
  {
    hide SlotsOf;
    var id := triedTable[b][p];
    var t', info' := Put(triedTable, b, p, -1), info[id := info[id].(inTried := false)];
    assert TriedOk(h, info', t') by { hide NewOk, CountsOk; }
    assert NewOk(h, info', newTable) by { hide CountsOk; }
  }

  ghost predicate TriedSlotEmpty(m: Manager, b: int, p: int) {
    0 <= b < |m.triedTable| && 0 <= p < |m.triedTable[b]| && m.triedTable[b][p] == -1
  }

  /** Entering an id, held by no table, into its tried slot. */
  ghost function TriedIn(m: Manager, b: int, p: int, id: int): Manager
    requires TriedSlotEmpty(m, b, p) && id in m.info
  {
    m.(triedTable := Put(m.triedTable, b, p, id), info := m.info[id := m.info[id].(inTried := true)],
       nTried := m.nTried + 1)
  }

  lemma TriedInKeeps(m: Manager, b: int, p: int, id: int)
    requires Linked(m) && TriedSlotEmpty(m, b, p) && id in Limbo(m.info)
    requires b == TriedBucket(m.hashes, m.info[id].svc) && p == TriedPosition(m.hashes, m.info[id].svc)
    ensures Linked(TriedIn(m, b, p, id))
    ensures NewIds(TriedIn(m, b, p, id).info) == NewIds(m.info) - {id}
    ensures Limbo(TriedIn(m, b, p, id).info) == Limbo(m.info) - {id}
  {
    hide IdsOk, RandomOk, AddrsOk, TablesOk, TriedIds, NewIds, Limbo;
    TriedInSets(m.info, id);
    NoNegativeId(m.info, m.idCount);
    IndexFrame(m.info, id, m.info[id].(inTried := true), m.idCount, m.random, m.addrs);
    TriedInTables(m.hashes, m.info, m.triedTable, m.newTable, b, p, id);
  }

  lemma NoNegativeId(info: map<int, Info>, idCount: int)
    requires IdsOk(info, idCount)
    ensures -1 !in info
  {
  }

  lemma TriedInSets(info: map<int, Info>, id: int)
    requires id in Limbo(info)
    ensures id in info
    ensures var info' := info[id := info[id].(inTried := true)];
            && TriedIds(info') == TriedIds(info) + {id} && |TriedIds(info')| == |TriedIds(info)| + 1
            && NewIds(info') == NewIds(info) - {id} && Limbo(info') == Limbo(info) - {id}
  {
    var info' := info[id := info[id].(inTried := true)];
    assert id !in TriedIds(info);
    assert TriedIds(info') == TriedIds(info) + {id};
  }

  lemma TriedInTables(h: Hashes, info: map<int, Info>, triedTable: Table, newTable: Table, b: int, p: int, id: int)
    requires TablesOk(h, info, triedTable, newTable) && -1 !in info
    requires 0 <= b < |triedTable| && 0 <= p < |triedTable[b]| && triedTable[b][p] == -1 && id != -1
    requires id in Limbo(info) && b == TriedBucket(h, info[id].svc) && p == TriedPosition(h, info[id].svc)
    ensures TablesOk(h, info[id := info[id].(inTried := true)], Put(triedTable, b, p, id), newTable)
  {
    var t', info' := Put(triedTable, b, p, id), info[id := info[id].(inTried := true)];
    assert SlotsOf(newTable, id) == {};
    assert forall c, q :: 0 <= c < |newTable| && 0 <= q < |newTable[c]| ==>
           newTable[c][q] != id || (c, q) in SlotsOf(newTable, id);
    assert TriedOk(h, info', t') by { hide NewOk, CountsOk, SlotsOf; }
    assert NewOk(h, info', newTable) by { hide CountsOk, TriedOk, SlotsOf; }
  }
}
