/** The on-disk form of the address manager and the indexes rebuilt from it
    (src/addrman.h). */
module AddrManDisk {
  import opened AddrManSpec
  import opened AddrManOps
  import opened AddrManRuns

  const KEY_SIZE: nat := 32
  const BUCKET_FLAG: int := 0x4000_0000

  /** The persistent part of an entry. */
  datatype DiskInfo = DiskInfo(svc: Service, time: int, services: bv64, source: nat, lastSuccess: int, attempts: int)

  function ToDisk(i: Info): DiskInfo {
    DiskInfo(i.svc, i.time, i.services, i.source, i.lastSuccess, i.attempts)
  }

  function FromDisk(d: DiskInfo): Info {
    Info(d.svc, d.time, d.services, d.source, 0, 0, d.lastSuccess, d.attempts, 0, false, -1)
  }

  /** The stream, field by field; `infos` holds the new entries, then the tried ones. */
  datatype File = File(
    version: nat, keySize: nat, key: Hashes, nNew: int, nTried: int, nUBuckets: int,
    infos: seq<DiskInfo>, buckets: seq<seq<int>>)

  /** XOR with 2**30, on 31-bit values. */
  function FlipFlag(n: int): int {
    if n >= BUCKET_FLAG then n - BUCKET_FLAG else n + BUCKET_FLAG
  }

  // ---------------------------------------------------------------- ordered ids

  ghost function Ascending(s: set<int>): seq<int>
    decreases |s|
  {
    if s == {} then [] else [Least(s)] + Ascending(s - {Least(s)})
  }

  ghost predicate Enumerates(l: seq<int>, s: set<int>) {
    && (forall i :: 0 <= i < |l| ==> l[i] in s)
    && (forall x :: x in s ==> x in l)
    && (forall i, j :: 0 <= i < j < |l| ==> l[i] != l[j])
    && |l| == |s|
  }

  lemma {:induction false} AscendingEnumerates(s: set<int>)
    ensures Enumerates(Ascending(s), s)
    decreases |s|
  {
    if s != {} {
      var x := Least(s);
      AscendingEnumerates(s - {x});
      var l, r := Ascending(s), Ascending(s - {x});
      assert l == [x] + r;
      forall y | y in s
        ensures y in l
      {
        if y == x {
          assert l[0] == x;
        } else {
          assert y in r;
        }
      }
    }
  }

  ghost function IndexOf(l: seq<int>, x: int): int {
    if x in l then (var i :| 0 <= i < |l| && l[i] == x; i) else 0
  }

  lemma IndexOfAt(l: seq<int>, s: set<int>, i: int)
    requires Enumerates(l, s) && 0 <= i < |l|
    ensures IndexOf(l, l[i]) == i
  {
  }

  // ---------------------------------------------------------------- Serialize

  ghost function RefIds(info: map<int, Info>): set<int> {
    set id | id in info && info[id].refCount != 0
  }

  ghost predicate AllIn(l: seq<int>, info: map<int, Info>) {
    forall i :: 0 <= i < |l| ==> l[i] in info
  }

  ghost function Saved(info: map<int, Info>, l: seq<int>): (r: seq<DiskInfo>)
    requires AllIn(l, info)
    ensures |r| == |l|
  {
    seq(|l|, i requires 0 <= i < |l| => ToDisk(info[l[i]]))
  }

  lemma SavedNone(info: map<int, Info>)
    ensures AllIn([], info) && Saved(info, []) == []
  {
  }

  lemma SavedNext(info: map<int, Info>, l: seq<int>, id: int)
    requires AllIn(l, info) && id in info
    ensures AllIn(l + [id], info) && Saved(info, l + [id]) == Saved(info, l) + [ToDisk(info[id])]
  {
  }

  /** The indexes written for the first `k` slots of one bucket. */
  ghost function RowIndexes(row: seq<int>, order: seq<int>, k: nat): seq<int>
    requires k <= |row|
  {
    if k == 0 then [] else
      RowIndexes(row, order, k - 1) + (if row[k - 1] == -1 then [] else [IndexOf(order, row[k - 1])])
  }

  ghost function NewOrder(m: Manager): seq<int> {
    Ascending(RefIds(m.info))
  }

  ghost function TriedOrder(m: Manager): seq<int> {
    Ascending(TriedIds(m.info))
  }

  lemma OrdersOk(m: Manager)
    ensures Enumerates(NewOrder(m), RefIds(m.info)) && Enumerates(TriedOrder(m), TriedIds(m.info))
    ensures AllIn(NewOrder(m), m.info) && AllIn(TriedOrder(m), m.info)
  {
    AscendingEnumerates(RefIds(m.info));
    AscendingEnumerates(TriedIds(m.info));
  }

  ghost function FileOf(m: Manager): File {
    OrdersOk(m);
    var order := NewOrder(m);
    File(1, KEY_SIZE, m.hashes, m.nNew, m.nTried, FlipFlag(NEW_BUCKET_COUNT),
         Saved(m.info, order) + Saved(m.info, TriedOrder(m)),
         seq(|m.newTable|, b requires 0 <= b < |m.newTable| => RowIndexes(m.newTable[b], order, |m.newTable[b]|)))
  }

  // ---------------------------------------------------------------- Unserialize

  /** Whether the stored new table can be used as it is. */
  function Usable(f: File): bool {
    f.version == 1 && Buckets(f) == NEW_BUCKET_COUNT
  }

  function Buckets(f: File): int {
    if f.version != 0 then FlipFlag(f.nUBuckets) else f.nUBuckets
  }

  ghost function Entered(m: Manager, id: int, i: Info): Manager {
    m.(info := m.info[id := i.(randomPos := |m.random|)], addrs := m.addrs[i.svc.ip := id], random := m.random + [id])
  }

  /** The fallback reference, used when the stored new table cannot be. */
  ghost function Primary(m: Manager, id: int): Manager
    requires id in m.info
  {
    var b := NewBucket(m.hashes, m.info[id].svc, m.info[id].source);
    var p := Position(m.hashes, m.info[id].svc, true, b);
    if NewSlotEmpty(m, b, p) then Referenced(m, b, p, id) else m
  }

  ghost function LoadNew(m: Manager, f: File, k: nat): Manager
    requires k <= |f.infos|
  {
    if k == 0 then m else
      var e := Entered(LoadNew(m, f, k - 1), k - 1, FromDisk(f.infos[k - 1]));
      if Usable(f) then e else Primary(e, k - 1)
  }

  datatype Loading = Loading(m: Manager, lost: nat)

  /** A negative count in a corrupt stream makes its loop run zero times. */
  function Count(n: int): nat {
    if n < 0 then 0 else n
  }

  ghost function LoadTried(m: Manager, f: File, k: nat): Loading
    requires Count(f.nNew) + k <= |f.infos|
  {
    if k == 0 then Loading(m.(idCount := f.nNew), 0) else
      TriedEntered(LoadTried(m, f, k - 1), FromDisk(f.infos[Count(f.nNew) + k - 1]))
  }

  /** One tried entry takes its hashed slot, or is lost if the slot is taken. */
  ghost function TriedEntered(l: Loading, i: Info): Loading {
    var b, p := TriedBucket(l.m.hashes, i.svc), TriedPosition(l.m.hashes, i.svc);
    if TriedSlotEmpty(l.m, b, p) then
      Loading(Entered(l.m, l.m.idCount, i.(inTried := true))
                .(triedTable := Put(l.m.triedTable, b, p, l.m.idCount), idCount := l.m.idCount + 1), l.lost)
    else Loading(l.m, l.lost + 1)
  }

  /** One stored index of bucket `b`. */
  ghost function LoadSlot(m: Manager, f: File, b: int, index: int): Manager {
    if 0 <= index < m.nNew && index in m.info && Usable(f) then
      var p := Position(m.hashes, m.info[index].svc, true, b);
      if NewSlotEmpty(m, b, p) && m.info[index].refCount < NEW_BUCKETS_PER_ADDRESS then
        Referenced(m, b, p, index) else m
    else m
  }

  ghost function LoadRow(m: Manager, f: File, b: int, row: seq<int>, k: nat): Manager
    requires k <= |row|
  {
    if k == 0 then m else LoadSlot(LoadRow(m, f, b, row, k - 1), f, b, row[k - 1])
  }

  ghost function LoadRows(m: Manager, f: File, k: nat): Manager
    requires k <= |f.buckets|
  {
    if k == 0 then m else LoadRow(LoadRows(m, f, k - 1), f, k - 1, f.buckets[k - 1], |f.buckets[k - 1]|)
  }

  /** Deletes, in increasing order, the ids of `todo` that no table refers to. */
  ghost function Prune(m: Manager, todo: set<int>): Manager
    decreases |todo|
  {
    if todo == {} then m else
      var id := Least(todo);
      Prune(if id in m.info && !m.info[id].inTried && m.info[id].refCount == 0 && CanDelete(m, id) then
              Deleted(m, id) else m,
            todo - {id})
  }

  /** Where Unserialize fails: a wrong key size, counts over the table sizes, or a
      stream that ends early. */
  ghost predicate Readable(f: File) {
    && f.keySize == KEY_SIZE
    && f.nNew <= NEW_BUCKET_COUNT * BUCKET_SIZE && f.nTried <= TRIED_BUCKET_COUNT * BUCKET_SIZE
    && Count(f.nNew) + Count(f.nTried) <= |f.infos| && Buckets(f) <= |f.buckets|
  }

  ghost function LoadEntries(f: File, collisions: set<int>): Manager
    requires Readable(f)
  {
    var c := Cleared(f.key, collisions).(nNew := f.nNew, nTried := f.nTried);
    var l := LoadTried(LoadNew(c, f, Count(f.nNew)), f, Count(f.nTried));
    l.m.(nTried := f.nTried - l.lost)
  }

  ghost function Loaded(f: File, collisions: set<int>): Manager
    requires Readable(f)
  {
    var e := LoadEntries(f, collisions);
    var r := LoadRows(e, f, Count(Buckets(f)));
    Prune(r, r.info.Keys)
  }

  // ---------------------------------------------------------------- the round trip

  /** All entries in the order they are stored. */
  ghost function Stored(m: Manager): seq<int> {
    NewOrder(m) + TriedOrder(m)
  }

  /** The id an entry has after the round trip; an empty slot stays empty. */
  ghost function Renamed(m: Manager, id: int): int {
    if id == -1 then -1
    else if id in TriedIds(m.info) then |NewOrder(m)| + IndexOf(TriedOrder(m), id)
    else IndexOf(NewOrder(m), id)
  }

  ghost function Restored(i: Info, pos: int): Info {
    FromDisk(ToDisk(i)).(inTried := i.inTried, randomPos := pos)
  }

  lemma StoredFacts(m: Manager)
    requires Check(m)
    ensures RefIds(m.info) == NewIds(m.info)
    ensures |NewOrder(m)| == m.nNew && |TriedOrder(m)| == m.nTried
    ensures Enumerates(Stored(m), m.info.Keys)
    ensures forall j :: 0 <= j < |Stored(m)| ==>
              Stored(m)[j] in m.info && (m.info[Stored(m)[j]].inTried <==> |NewOrder(m)| <= j)
    ensures forall j :: 0 <= j < |Stored(m)| ==> Renamed(m, Stored(m)[j]) == j
  {
    hide IdsOk, RandomOk, AddrsOk, TablesOk, Limbo, NewOrder, TriedOrder, IndexOf, RefIds;
    StoredIds(m);
    OrdersOk(m);
    assert m.info.Keys == NewIds(m.info) + TriedIds(m.info);
    EnumerateBoth(NewOrder(m), NewIds(m.info), TriedOrder(m), TriedIds(m.info));
    forall j | 0 <= j < |Stored(m)|
      ensures Renamed(m, Stored(m)[j]) == j
    {
      RenamedStored(m, j);
    }
  }

  /** Storing order and renaming are inverse. */
  lemma StoredAt(m: Manager, id: int)
    requires Check(m) && id in m.info
    ensures 0 <= Renamed(m, id) < |Stored(m)| && Stored(m)[Renamed(m, id)] == id
  {
    hide Check, Stored, Renamed, RefIds, NewIds;
    StoredFacts(m);
    assert id in Stored(m);
  }

  lemma RenamedStored(m: Manager, j: int)
    requires Enumerates(NewOrder(m), NewIds(m.info)) && Enumerates(TriedOrder(m), TriedIds(m.info)) && -1 !in m.info
    requires 0 <= j < |Stored(m)|
    ensures Renamed(m, Stored(m)[j]) == j
  {
  }

  lemma EnumerateBoth(o: seq<int>, a: set<int>, t: seq<int>, b: set<int>)
    requires Enumerates(o, a) && Enumerates(t, b) && a !! b
    ensures Enumerates(o + t, a + b)
    ensures forall j :: 0 <= j < |o + t| ==> (if j < |o| then (o + t)[j] in a else (o + t)[j] in b)
  {
  }

  lemma StoredIds(m: Manager)
    requires Check(m)
    ensures RefIds(m.info) == NewIds(m.info) && -1 !in m.info
  {
    forall id | id in m.info
      ensures id in RefIds(m.info) <==> id in NewIds(m.info)
    {
      if m.info[id].inTried {
        TriedUnreferenced(m.hashes, m.info, m.triedTable, m.newTable, id);
      } else {
        assert id !in Limbo(m.info);
      }
    }
  }

  /** The state of the reader after `k` entries. */
  ghost predicate Entries(m: Manager, n: Manager, k: int, collisions: set<int>) {
    var e := Stored(m);
    && 0 <= k <= |e|
    && n == Cleared(m.hashes, collisions).(nNew := m.nNew, nTried := m.nTried, idCount := n.idCount,
                                           info := n.info, addrs := n.addrs, random := n.random,
                                               triedTable := n.triedTable)
    && Indexed(m.info, e, n.info, n.addrs, n.random, k)
    && TriedSoFar(m, n.triedTable, k)
  }

  /** The three indexes hold exactly the first `k` entries of `e`, under ids 0..k-1. */
  ghost predicate Indexed(from: map<int, Info>, e: seq<int>, info: map<int, Info>, addrs: map<nat, int>,
                          random: seq<int>, k: int)
    requires 0 <= k <= |e|
  {
    && (forall x :: x in info <==> 0 <= x < k)
    && (forall j :: 0 <= j < k ==> e[j] in from && info[j] == Restored(from[e[j]], j))
    && |random| == k && (forall j :: 0 <= j < k ==> random[j] == j)
    && (forall j :: 0 <= j < k ==> from[e[j]].svc.ip in addrs && addrs[from[e[j]].svc.ip] == j)
    && (forall a :: a in addrs ==> 0 <= addrs[a] < k && from[e[addrs[a]]].svc.ip == a)
  }

  lemma IndexNext(from: map<int, Info>, e: seq<int>, info: map<int, Info>, addrs: map<nat, int>, random: seq<int>,
                  k: int, i: Info)
    requires 0 <= k < |e| && Indexed(from, e, info, addrs, random, k) && e[k] in from && i == Restored(from[e[k]], k)
    requires forall j :: 0 <= j < k ==> from[e[j]].svc.ip != from[e[k]].svc.ip
    ensures Indexed(from, e, info[k := i], addrs[i.svc.ip := k], random + [k], k + 1)
  {
    var addrs' := addrs[i.svc.ip := k];
    forall j | 0 <= j < k + 1
      ensures from[e[j]].svc.ip in addrs' && addrs'[from[e[j]].svc.ip] == j
    {
    }
  }

  lemma DistinctIps(m: Manager, j: int, k: int)
    requires Check(m) && 0 <= j < k < |Stored(m)|
    ensures Stored(m)[j] in m.info && Stored(m)[k] in m.info
    ensures m.info[Stored(m)[j]].svc.ip != m.info[Stored(m)[k]].svc.ip
  {
    StoredFacts(m);
    assert AddrsOk(m.info, m.addrs);
    assert Stored(m)[j] != Stored(m)[k];
  }

  ghost predicate TriedSoFar(m: Manager, t: Table, k: int) {
    && Dims(t, TRIED_BUCKET_COUNT)
    && Dims(m.triedTable, TRIED_BUCKET_COUNT)
    && forall b, p :: 0 <= b < TRIED_BUCKET_COUNT && 0 <= p < BUCKET_SIZE ==>
         t[b][p] == if m.triedTable[b][p] != -1 && Renamed(m, m.triedTable[b][p]) < k then
                      Renamed(m, m.triedTable[b][p]) else -1
  }

  ghost function Start(m: Manager, collisions: set<int>): Manager {
    Cleared(m.hashes, collisions).(nNew := m.nNew, nTried := m.nTried)
  }

  lemma FileFacts(m: Manager, j: int)
    requires Check(m) && 0 <= j < |Stored(m)|
    ensures |FileOf(m).infos| == |Stored(m)| && Stored(m)[j] in m.info
    ensures FileOf(m).infos[j] == ToDisk(m.info[Stored(m)[j]])
  {
    hide Check, RowIndexes, NewOrder, TriedOrder, Enumerates;
    OrdersOk(m);
  }

  lemma FileShape(m: Manager)
    requires Check(m)
    ensures Usable(FileOf(m)) && Buckets(FileOf(m)) == NEW_BUCKET_COUNT
    ensures |FileOf(m).infos| == |Stored(m)| && |FileOf(m).buckets| == NEW_BUCKET_COUNT
    ensures FileOf(m).nNew == m.nNew && FileOf(m).nTried == m.nTried && FileOf(m).key == m.hashes
    ensures FileOf(m).keySize == KEY_SIZE == 32
    ensures FileOf(m).version == 1 && FileOf(m).nUBuckets == 0x4000_0400
    ensures |m.newTable| == NEW_BUCKET_COUNT
    ensures forall b :: 0 <= b < |m.newTable| ==>
            FileOf(m).buckets[b] == RowIndexes(m.newTable[b], NewOrder(m), |m.newTable[b]|)
  {
  }

  /** Entering the next stored entry, whichever table it belongs to. */
  lemma EnterNext(m: Manager, n: Manager, k: int, collisions: set<int>, i: Info, idCount: int, t: Table)
    requires Check(m) && Entries(m, n, k, collisions) && k < |Stored(m)|
    requires Stored(m)[k] in m.info
    requires i == FromDisk(ToDisk(m.info[Stored(m)[k]])).(inTried := m.info[Stored(m)[k]].inTried)
    requires TriedSoFar(m, t, k + 1)
    ensures Entries(m, Entered(n, k, i).(idCount := idCount, triedTable := t), k + 1, collisions)
  {
    hide Check, Stored, TriedSoFar, Cleared, Indexed;
    forall j | 0 <= j < k
      ensures Stored(m)[j] in m.info && m.info[Stored(m)[j]].svc.ip != m.info[Stored(m)[k]].svc.ip
    {
      DistinctIps(m, j, k);
    }
    assert |n.random| == k by { IndexedSize(m.info, Stored(m), n.info, n.addrs, n.random, k); }
    IndexNext(m.info, Stored(m), n.info, n.addrs, n.random, k, i.(randomPos := k));
  }

  lemma IndexedSize(from: map<int, Info>, e: seq<int>, info: map<int, Info>, addrs: map<nat, int>, random: seq<int>,
                    k: int)
    requires 0 <= k <= |e| && Indexed(from, e, info, addrs, random, k)
    ensures |random| == k
  {
  }

  /** A filled tried slot holds one of the tried entries of the file. */
  lemma TriedSlotStored(m: Manager, b: int, p: int)
    requires Check(m) && 0 <= b < TRIED_BUCKET_COUNT && 0 <= p < BUCKET_SIZE
    ensures |m.triedTable| == TRIED_BUCKET_COUNT && |m.triedTable[b]| == BUCKET_SIZE && m.nNew >= 0
    ensures m.triedTable[b][p] != -1 ==>
              var j := Renamed(m, m.triedTable[b][p]);
              && m.nNew <= j < |Stored(m)| && Stored(m)[j] == m.triedTable[b][p] && m.triedTable[b][p] in m.info
              && b == TriedBucket(m.hashes, m.info[Stored(m)[j]].svc) &&
                 p == TriedPosition(m.hashes, m.info[Stored(m)[j]].svc)
  {
    StoredFacts(m);
    TriedRows(m);
    var id := m.triedTable[b][p];
    if id != -1 {
      assert TriedOk(m.hashes, m.info, m.triedTable);
      hide Linked, Check;
      assert id in m.info && m.info[id].inTried;
      assert id in Stored(m);
    }
  }

  lemma CheckedTables(m: Manager)
    requires Check(m)
    ensures Linked(m) && -1 !in m.info && m.nNew >= 0
    ensures Dims(m.triedTable, TRIED_BUCKET_COUNT) && Dims(m.newTable, NEW_BUCKET_COUNT)
  {
  }

  lemma TriedSoFarNew(m: Manager, t: Table, k: int)
    requires Check(m) && TriedSoFar(m, t, k) && k < m.nNew
    ensures TriedSoFar(m, t, k + 1)
  {
    hide Check, Renamed;
    forall b, p | 0 <= b < TRIED_BUCKET_COUNT && 0 <= p < BUCKET_SIZE
      ensures m.triedTable[b][p] != -1 ==> Renamed(m, m.triedTable[b][p]) > k
    {
      TriedSlotStored(m, b, p);
    }
  }

  lemma TriedSoFarTried(m: Manager, t: Table, k: int)
    requires Check(m) && TriedSoFar(m, t, k) && m.nNew <= k < |Stored(m)| && Stored(m)[k] in m.info
    ensures var s := m.info[Stored(m)[k]].svc;
            var b, p := TriedBucket(m.hashes, s), TriedPosition(m.hashes, s);
            t[b][p] == -1 && TriedSoFar(m, Put(t, b, p, k), k + 1)
  {
    hide Check, Renamed, Stored;
    CheckedTables(m);
    TriedIdInSlot(m, k);
    var id := Stored(m)[k];
    var b, p := TriedBucket(m.hashes, m.info[id].svc), TriedPosition(m.hashes, m.info[id].svc);
    forall c, q | 0 <= c < TRIED_BUCKET_COUNT && 0 <= q < BUCKET_SIZE && (c, q) != (b, p)
      ensures m.triedTable[c][q] != -1 ==> Renamed(m, m.triedTable[c][q]) != k
    {
      TriedSlotStored(m, c, q);
    }
  }

  lemma TriedIdInSlot(m: Manager, k: int)
    requires Check(m) && m.nNew <= k < |Stored(m)| && Stored(m)[k] in m.info
    ensures |m.triedTable| == TRIED_BUCKET_COUNT
    ensures var s := m.info[Stored(m)[k]].svc;
            |m.triedTable[TriedBucket(m.hashes, s)]| == BUCKET_SIZE
    ensures var s := m.info[Stored(m)[k]].svc;
            m.triedTable[TriedBucket(m.hashes, s)][TriedPosition(m.hashes, s)] == Stored(m)[k]
    ensures Renamed(m, Stored(m)[k]) == k && Stored(m)[k] != -1
  {
    StoredFacts(m);
    TriedRows(m);
  }

  lemma {:induction false} LoadNewIs(m: Manager, collisions: set<int>, k: nat)
    requires Check(m) && k <= m.nNew && k <= |FileOf(m).infos|
    ensures Entries(m, LoadNew(Start(m, collisions), FileOf(m), k), k, collisions)
  {
    hide Check, Stored, FileOf, Entries, Renamed, TriedSoFar, Usable, Start, Enumerates;
    StoredFacts(m);
    FileShape(m);
    if k == 0 {
      StartEntries(m, collisions);
    } else {
      LoadNewIs(m, collisions, k - 1);
      FileFacts(m, k - 1);
      var n := LoadNew(Start(m, collisions), FileOf(m), k - 1);
      EntriesTried(m, n, k - 1, collisions);
      TriedSoFarNew(m, n.triedTable, k - 1);
      EnterNext(m, n, k - 1, collisions, FromDisk(FileOf(m).infos[k - 1]), n.idCount, n.triedTable);
    }
  }

  lemma IdCountIsFree(m: Manager, n: Manager, k: int, collisions: set<int>, idCount: int)
    requires Entries(m, n, k, collisions)
    ensures Entries(m, n.(idCount := idCount), k, collisions)
  {
  }

  lemma EntriesTried(m: Manager, n: Manager, k: int, collisions: set<int>)
    requires Entries(m, n, k, collisions)
    ensures TriedSoFar(m, n.triedTable, k) && n.hashes == m.hashes && n.nTried == m.nTried && n.nNew == m.nNew
    ensures Dims(n.triedTable, TRIED_BUCKET_COUNT)
  {
  }

  lemma StartEntries(m: Manager, collisions: set<int>)
    requires Check(m)
    ensures Entries(m, Start(m, collisions), 0, collisions)
  {
    hide Check, Renamed, Stored, Enumerates;
    CheckedTables(m);
    forall b, p | 0 <= b < TRIED_BUCKET_COUNT && 0 <= p < BUCKET_SIZE
      ensures m.triedTable[b][p] != -1 ==> Renamed(m, m.triedTable[b][p]) >= 0
    {
      TriedSlotStored(m, b, p);
    }
  }

  lemma {:induction false} LoadTriedIs(m: Manager, collisions: set<int>, k: nat)
    requires Check(m) && k <= m.nTried && Count(FileOf(m).nNew) + k <= |FileOf(m).infos|
    requires Count(m.nNew) <= |FileOf(m).infos|
    ensures var l := LoadTried(LoadNew(Start(m, collisions), FileOf(m), Count(m.nNew)), FileOf(m), k);
            l.lost == 0 && Entries(m, l.m, m.nNew + k, collisions) && l.m.idCount == m.nNew + k
  {
    hide Check, Stored, FileOf, Entries, Renamed, LoadNew, TriedSoFar, Usable, Start, Enumerates;
    hide TriedEntered, FromDisk, ToDisk, RowIndexes, NewOrder, TriedOrder;
    StoredFacts(m);
    FileShape(m);
    var s := LoadNew(Start(m, collisions), FileOf(m), Count(m.nNew));
    if k == 0 {
      LoadNewIs(m, collisions, m.nNew);
      IdCountIsFree(m, s, m.nNew, collisions, m.nNew);
    } else {
      LoadTriedIs(m, collisions, k - 1);
      FileFacts(m, m.nNew + k - 1);
      TriedEnteredIs(m, LoadTried(s, FileOf(m), k - 1), m.nNew + k - 1, collisions);
    }
  }

  lemma TriedEnteredIs(m: Manager, l: Loading, j: int, collisions: set<int>)
    requires Check(m) && m.nNew <= j < |Stored(m)| && Stored(m)[j] in m.info
    requires Entries(m, l.m, j, collisions) && l.m.idCount == j && l.lost == 0
    ensures var r := TriedEntered(l, FromDisk(ToDisk(m.info[Stored(m)[j]])));
            r.lost == 0 && Entries(m, r.m, j + 1, collisions) && r.m.idCount == j + 1
  {
    hide Check, Stored, Entries, Renamed, TriedSoFar, Enumerates;
    StoredFacts(m);
    var i := FromDisk(ToDisk(m.info[Stored(m)[j]]));
    var b, p := TriedBucket(m.hashes, i.svc), TriedPosition(m.hashes, i.svc);
    EntriesTried(m, l.m, j, collisions);
    TriedSoFarTried(m, l.m.triedTable, j);
    EnterNext(m, l.m, j, collisions, i.(inTried := true), j + 1, Put(l.m.triedTable, b, p, j));
  }

  // ---------------------------------------------------------------- rebuilding the new table

  /** A filled new slot holds one of the new entries of the file. */
  lemma NewSlotStored(m: Manager, b: int, p: int)
    requires Check(m) && 0 <= b < NEW_BUCKET_COUNT && 0 <= p < BUCKET_SIZE
    ensures |m.newTable| == NEW_BUCKET_COUNT && |m.newTable[b]| == BUCKET_SIZE
    ensures m.newTable[b][p] != -1 ==>
              var id := m.newTable[b][p];
              var j := Renamed(m, id);
              && 0 <= j < m.nNew && j < |Stored(m)| && Stored(m)[j] == id && id in m.info
              && j == IndexOf(NewOrder(m), id) && p == Position(m.hashes, m.info[id].svc, true, b)
  {
    StoredFacts(m);
    NewSlotFacts(m, b, p);
    var id := m.newTable[b][p];
    if id != -1 {
      hide Linked, Check;
      assert id in Stored(m);
    }
  }

  /** Slots before (B, P), bucket by bucket, are filled; the rest are empty. */
  ghost predicate NewSoFar(m: Manager, t: Table, B: int, P: int) {
    && Dims(t, NEW_BUCKET_COUNT) && Dims(m.newTable, NEW_BUCKET_COUNT)
    && forall b, p :: 0 <= b < NEW_BUCKET_COUNT && 0 <= p < BUCKET_SIZE ==>
         t[b][p] == if b < B || (b == B && p < P) then Renamed(m, m.newTable[b][p]) else -1
  }

  ghost predicate RowsDone(m: Manager, e: Manager, n: Manager, B: int, P: int) {
    && n == e.(info := n.info, newTable := n.newTable)
    && (forall x :: x in n.info <==> x in e.info)
    && (forall x :: x in n.info ==> n.info[x] == e.info[x].(refCount := |SlotsOf(n.newTable, x)|))
    && NewSoFar(m, n.newTable, B, P)
  }

  /** While the table is being refilled, no id has all its references back. */
  lemma RefillingCounts(m: Manager, t: Table, B: int, P: int)
    requires Check(m) && NewSoFar(m, t, B, P) && 0 <= B < NEW_BUCKET_COUNT && 0 <= P < BUCKET_SIZE
    requires m.newTable[B][P] != -1
    ensures |SlotsOf(t, Renamed(m, m.newTable[B][P]))| < NEW_BUCKETS_PER_ADDRESS
  {
    var id := m.newTable[B][P];
    NewSlotStored(m, B, P);
    assert m.info[id].refCount == |SlotsOf(m.newTable, id)| <= NEW_BUCKETS_PER_ADDRESS;
    var j := Renamed(m, id);
    hide Check, Linked, Renamed, Stored;
    forall slot | slot in SlotsOf(t, j)
      ensures slot in SlotsOf(m.newTable, id) && slot != (B, P)
    {
      NewSlotStored(m, slot.0, slot.1);
    }
    assert (B, P) in SlotsOf(m.newTable, id);
    ProperSubsetSize(SlotsOf(t, j), SlotsOf(m.newTable, id));
  }

  lemma ProperSubsetSize(a: set<(int, int)>, b: set<(int, int)>)
    requires a < b
    ensures |a| < |b|
  {
    var x :| x in b && x !in a;
    SubsetSize(a, b - {x});
  }

  lemma {:induction false} SubsetSize(a: set<(int, int)>, b: set<(int, int)>)
    requires a <= b
    ensures |a| <= |b|
    decreases |a|
  {
    if a != {} {
      var x :| x in a;
      SubsetSize(a - {x}, b - {x});
    }
  }

  lemma NewSoFarPut(m: Manager, t: Table, B: int, P: int)
    requires NewSoFar(m, t, B, P) && 0 <= B < NEW_BUCKET_COUNT && 0 <= P < BUCKET_SIZE
    ensures t[B][P] == -1
    ensures NewSoFar(m, Put(t, B, P, Renamed(m, m.newTable[B][P])), B, P + 1)
    ensures m.newTable[B][P] == -1 ==> NewSoFar(m, t, B, P + 1)
  {
  }

  /** Every stored entry is back under its new id, with no references yet. */
  ghost predicate Reloaded(m: Manager, e: Manager) {
    && e.hashes == m.hashes && e.nNew == m.nNew && -1 !in e.info
    && forall j :: 0 <= j < |Stored(m)| ==>
         j in e.info && Stored(m)[j] in m.info && e.info[j].svc == m.info[Stored(m)[j]].svc
  }

  /** One slot of the original table comes back. */
  lemma SlotBack(m: Manager, f: File, e: Manager, n: Manager, B: int, P: int)
    requires Check(m) && Usable(f)
    requires 0 <= B < NEW_BUCKET_COUNT && 0 <= P < BUCKET_SIZE
    requires RowsDone(m, e, n, B, P) && m.newTable[B][P] != -1 && Reloaded(m, e)
    ensures RowsDone(m, e, LoadSlot(n, f, B, IndexOf(NewOrder(m), m.newTable[B][P])), B, P + 1)
  {
    hide Check, Renamed, Stored, NewSoFar, Usable, IndexOf, NewOrder;
    NewSlotStored(m, B, P);
    RefillingCounts(m, n.newTable, B, P);
    NewSoFarPut(m, n.newTable, B, P);
    NewSoFarDims(m, n.newTable, B, P);
    var j := Renamed(m, m.newTable[B][P]);
    assert j in n.info && n.info[j].svc == e.info[j].svc;
    PutCounts(n.info, n.newTable, B, P, j);
    assert LoadSlot(n, f, B, j) == Referenced(n, B, P, j);
    RowsDonePut(m, e, n, B, P, j);
  }

  lemma NewSoFarDims(m: Manager, t: Table, B: int, P: int)
    requires NewSoFar(m, t, B, P)
    ensures Dims(t, NEW_BUCKET_COUNT)
  {
  }

  lemma RowsDonePut(m: Manager, e: Manager, n: Manager, B: int, P: int, j: int)
    requires RowsDone(m, e, n, B, P) && NewSlotEmpty(n, B, P) && j in n.info && j != -1 && -1 !in n.info
    requires NewSoFar(m, Put(n.newTable, B, P, j), B, P + 1)
    requires forall id :: id in n.info ==>
              |SlotsOf(Put(n.newTable, B, P, j), id)| ==
              |SlotsOf(n.newTable, id)| - (if n.newTable[B][P] == id && j != id then 1 else 0) +
                  (if n.newTable[B][P] != id && j == id then 1 else 0)
    ensures RowsDone(m, e, Referenced(n, B, P, j), B, P + 1)
  {
    hide NewSoFar, SlotsOf;
  }

  lemma {:induction false} LoadRowPrefix(n: Manager, f: File, b: int, r: seq<int>, r': seq<int>, k: nat)
    requires k <= |r| && k <= |r'| && forall i :: 0 <= i < k ==> r[i] == r'[i]
    ensures LoadRow(n, f, b, r, k) == LoadRow(n, f, b, r', k)
  {
    if k > 0 {
      LoadRowPrefix(n, f, b, r, r', k - 1);
    }
  }

  lemma {:induction false} RowBack(m: Manager, f: File, e: Manager, n: Manager, B: int, P: nat)
    requires Check(m) && Usable(f) && Reloaded(m, e) && 0 <= B < NEW_BUCKET_COUNT && P <= BUCKET_SIZE
    requires RowsDone(m, e, n, B, 0) && |m.newTable| == NEW_BUCKET_COUNT && |m.newTable[B]| == BUCKET_SIZE
    ensures var r := RowIndexes(m.newTable[B], NewOrder(m), P);
            RowsDone(m, e, LoadRow(n, f, B, r, |r|), B, P)
  {
    hide Check, Reloaded, RowsDone, NewOrder, IndexOf, LoadSlot, Usable;
    if P > 0 {
      RowBack(m, f, e, n, B, P - 1);
      var q := RowIndexes(m.newTable[B], NewOrder(m), P - 1);
      var k := LoadRow(n, f, B, q, |q|);
      var id := m.newTable[B][P - 1];
      if id == -1 {
        EmptySlotBack(m, e, k, B, P - 1);
        assert RowIndexes(m.newTable[B], NewOrder(m), P) == q + [] == q;
      } else {
        SlotBack(m, f, e, k, B, P - 1);
        var r := RowIndexes(m.newTable[B], NewOrder(m), P);
        assert r == q + [IndexOf(NewOrder(m), id)];
        LoadRowPrefix(n, f, B, q, r, |q|);
      }
    }
  }

  lemma EmptySlotBack(m: Manager, e: Manager, n: Manager, B: int, P: int)
    requires RowsDone(m, e, n, B, P) && 0 <= B < NEW_BUCKET_COUNT && 0 <= P < BUCKET_SIZE && m.newTable[B][P] == -1
    ensures RowsDone(m, e, n, B, P + 1)
  {
  }

  lemma {:induction false} RowsBack(m: Manager, e: Manager, B: nat)
    requires Check(m) && Reloaded(m, e) && B <= NEW_BUCKET_COUNT && B <= |FileOf(m).buckets|
    requires RowsDone(m, e, e, 0, 0)
    ensures RowsDone(m, e, LoadRows(e, FileOf(m), B), B, 0)
  {
    hide Check, Reloaded, FileOf, Usable, NewOrder;
    FileShape(m);
    if B > 0 {
      RowsBack(m, e, B - 1);
      NewSlotStored(m, B - 1, 0);
      var n := LoadRows(e, FileOf(m), B - 1);
      RowBack(m, FileOf(m), e, n, B - 1, BUCKET_SIZE);
      NextRow(m, e, LoadRows(e, FileOf(m), B), B - 1);
    }
  }

  lemma NextRow(m: Manager, e: Manager, n: Manager, B: int)
    requires RowsDone(m, e, n, B, BUCKET_SIZE)
    ensures RowsDone(m, e, n, B + 1, 0)
  {
  }

  // ---------------------------------------------------------------- the result

  /** `n` is `m` with every id replaced by its new name and nothing else lost: tables,
      reference counts, address index and persistent fields. */
  ghost predicate IsRenaming(m: Manager, n: Manager) {
    && n.hashes == m.hashes && n.nNew == m.nNew && n.nTried == m.nTried
    && n.idCount == |n.random| == |m.random| && (forall j :: 0 <= j < |n.random| ==> n.random[j] == j)
    && TableRenamed(m, m.newTable, n.newTable, NEW_BUCKET_COUNT)
    && TableRenamed(m, m.triedTable, n.triedTable, TRIED_BUCKET_COUNT)
    && InfoRenamed(m, n.info)
    && n.addrs.Keys == m.addrs.Keys && (forall a :: a in m.addrs ==> n.addrs[a] == Renamed(m, m.addrs[a]))
  }

  ghost predicate TableRenamed(m: Manager, t: Table, t': Table, buckets: nat) {
    && Dims(t, buckets) && Dims(t', buckets)
    && forall b, p :: 0 <= b < buckets && 0 <= p < BUCKET_SIZE ==> t'[b][p] == Renamed(m, t[b][p])
  }

  /** The renaming is one to one and onto, and keeps counts, flags and stored fields. */
  ghost predicate InfoRenamed(m: Manager, info: map<int, Info>) {
    && (forall id :: id in m.info ==>
          && Renamed(m, id) in info
          && info[Renamed(m, id)] == Restored(m.info[id], Renamed(m, id)).(refCount := m.info[id].refCount))
    && (forall j :: j in info ==> exists id :: id in m.info && Renamed(m, id) == j)
    && (forall id, id' :: id in m.info && id' in m.info && id != id' ==> Renamed(m, id) != Renamed(m, id'))
  }

  lemma LoadedShape(m: Manager, collisions: set<int>)
    requires Check(m)
    ensures Readable(FileOf(m)) && |Stored(m)| == m.nNew + m.nTried
    ensures var e := LoadEntries(FileOf(m), collisions);
            Entries(m, e, |Stored(m)|, collisions) && e.idCount == |Stored(m)|
  {
    hide Check, Stored, FileOf, Renamed, Entries, LoadTried, LoadNew, Usable, Enumerates, Buckets, Cleared;
    FileShape(m);
    StoredFacts(m);
    CountsFit(m);
    StoredSize(m);
    LoadTriedIs(m, collisions, m.nTried);
    StartIs(m, collisions);
    var l := LoadTried(LoadNew(Start(m, collisions), FileOf(m), Count(m.nNew)), FileOf(m), m.nTried);
    EntriesTried(m, l.m, |Stored(m)|, collisions);
    assert l.m.(nTried := m.nTried - l.lost) == l.m;
  }

  lemma StoredSize(m: Manager)
    ensures |Stored(m)| == |NewOrder(m)| + |TriedOrder(m)|
  {
  }

  lemma StartIs(m: Manager, collisions: set<int>)
    ensures Start(m, collisions) == Cleared(m.hashes, collisions).(nNew := m.nNew, nTried := m.nTried)
    ensures Start(m, collisions).nTried == m.nTried
  {
  }

  /** No table can hold more ids than it has slots. */
  lemma CountsFit(m: Manager)
    requires Check(m)
    ensures m.nNew <= NEW_BUCKET_COUNT * BUCKET_SIZE && m.nTried <= TRIED_BUCKET_COUNT * BUCKET_SIZE
  {
    NewSlotNumbers(m);
    Pigeonhole(NewIds(m.info), id => NewSlotNumber(m, id), NEW_BUCKET_COUNT * BUCKET_SIZE);
    TriedSlotNumbers(m);
    Pigeonhole(TriedIds(m.info), id => TriedSlotNumber(m, id), TRIED_BUCKET_COUNT * BUCKET_SIZE);
  }

  ghost function TriedSlotNumber(m: Manager, id: int): int {
    if id !in m.info then -1 else
      TriedBucket(m.hashes, m.info[id].svc) * BUCKET_SIZE + TriedPosition(m.hashes, m.info[id].svc)
  }

  ghost function NewSlotNumber(m: Manager, id: int): int {
    if slot :| slot in SlotsOf(m.newTable, id) then slot.0 * BUCKET_SIZE + slot.1 else -1
  }

  lemma TriedSlotNumbers(m: Manager)
    requires Check(m)
    ensures forall id :: id in TriedIds(m.info) ==> 0 <= TriedSlotNumber(m, id) < TRIED_BUCKET_COUNT * BUCKET_SIZE
    ensures forall id, id' :: id in TriedIds(m.info) && id' in TriedIds(m.info) && id != id' ==>
              TriedSlotNumber(m, id) != TriedSlotNumber(m, id')
  {
    assert TriedOk(m.hashes, m.info, m.triedTable);
  }

  lemma NewSlotNumbers(m: Manager)
    requires Check(m)
    ensures forall id :: id in NewIds(m.info) ==> 0 <= NewSlotNumber(m, id) < NEW_BUCKET_COUNT * BUCKET_SIZE
    ensures forall id, id' :: id in NewIds(m.info) && id' in NewIds(m.info) && id != id' ==>
              NewSlotNumber(m, id) != NewSlotNumber(m, id')
  {
    NewRows(m);
    forall id | id in NewIds(m.info)
      ensures exists b, p :: 0 <= b < NEW_BUCKET_COUNT && 0 <= p < BUCKET_SIZE && m.newTable[b][p] == id &&
                             NewSlotNumber(m, id) == b * BUCKET_SIZE + p
    {
      UntriedHasRefs(m, id);
      hide Linked, Check;
      assert SlotsOf(m.newTable, id) != {} by { RefsAreSlots(m, id); }
      var slot :| slot in SlotsOf(m.newTable, id) && NewSlotNumber(m, id) == slot.0 * BUCKET_SIZE + slot.1;
    }
  }

  lemma RefsAreSlots(m: Manager, id: int)
    requires Check(m) && id in m.info
    ensures m.info[id].refCount == |SlotsOf(m.newTable, id)|
  {
  }

  lemma {:induction false} Pigeonhole(a: set<int>, f: int -> int, n: nat)
    requires forall x :: x in a ==> 0 <= f(x) < n
    requires forall x, y :: x in a && y in a && x != y ==> f(x) != f(y)
    ensures |a| <= n
    decreases n
  {
    if n > 0 {
      if x :| x in a && f(x) == n - 1 {
        Pigeonhole(a - {x}, f, n - 1);
      } else {
        Pigeonhole(a, f, n - 1);
      }
    } else {
      assert forall x :: x in a ==> !(0 <= f(x) < n);
      assert (forall x :: x !in a) ==> a == {};
    }
  }

  lemma EntriesAreReloaded(m: Manager, e: Manager, collisions: set<int>)
    requires Check(m) && Entries(m, e, |Stored(m)|, collisions)
    ensures Reloaded(m, e) && RowsDone(m, e, e, 0, 0)
  {
    hide Check, Stored, Renamed, TriedSoFar;
    CheckedTables(m);
    assert forall x :: x in e.info ==> SlotsOf(e.newTable, x) == {};
  }

  /** Every id gets back as many references as it had. */
  lemma CountsBack(m: Manager, t: Table, j: int)
    requires Check(m) && NewSoFar(m, t, NEW_BUCKET_COUNT, 0) && 0 <= j < |Stored(m)| && Stored(m)[j] in m.info
    ensures |SlotsOf(t, j)| == m.info[Stored(m)[j]].refCount
  {
    hide Check, Renamed, Stored, Enumerates;
    StoredFacts(m);
    RefsAreSlots(m, Stored(m)[j]);
    forall b, p | 0 <= b < NEW_BUCKET_COUNT && 0 <= p < BUCKET_SIZE
      ensures t[b][p] == j <==> m.newTable[b][p] == Stored(m)[j]
    {
      NewSlotStored(m, b, p);
      RenamedEmpty(m);
    }
    assert SlotsOf(t, j) == SlotsOf(m.newTable, Stored(m)[j]);
  }

  lemma RenamedEmpty(m: Manager)
    ensures Renamed(m, -1) == -1
  {
  }

  lemma {:induction false} NothingPruned(n: Manager, todo: set<int>)
    requires forall x :: x in n.info ==> n.info[x].inTried || n.info[x].refCount != 0
    ensures Prune(n, todo) == n
    decreases |todo|
  {
    if todo != {} {
      NothingPruned(n, todo - {Least(todo)});
    }
  }

  /** Reading back what was written rebuilds every index, up to the renaming of ids, with
      no entry lost to a collision and none pruned. */
  lemma RoundTrip(m: Manager, collisions: set<int>)
    requires Check(m)
    ensures Readable(FileOf(m)) && IsRenaming(m, Loaded(FileOf(m), collisions))
    ensures Check(Loaded(FileOf(m), collisions)) && Loaded(FileOf(m), collisions).collisions == collisions
  {
    hide Check, Stored, FileOf, Renamed, Entries, LoadEntries, Reloaded, RowsDone, LoadRows, Prune, IsRenaming,
         Usable, Buckets;
    LoadedShape(m, collisions);
    FileShape(m);
    var e := LoadEntries(FileOf(m), collisions);
    EntriesAreReloaded(m, e, collisions);
    RowsBack(m, e, NEW_BUCKET_COUNT);
    var n := LoadRows(e, FileOf(m), NEW_BUCKET_COUNT);
    RebuiltIsRenaming(m, e, n, collisions);
    NothingPruned(n, n.info.Keys);
    RenamingChecks(m, n);
  }

  /** A restarted node reads the file of a consistent manager into a fresh one: every run from there
      stays consistent, keeps its tried slots filled and, with positive clock readings, the time
      conditions. */
  lemma RestartedRunsStayHealthy(m: Manager, calls: seq<Call>, trace: seq<Manager>, j: nat, k: nat)
    requires Check(m) && Readable(FileOf(m)) && IsRun(Loaded(FileOf(m), {}), calls, trace) && j <= k < |trace|
    ensures Check(trace[k]) && CollisionsOk(trace[k]) && Evolves(trace[j], trace[k])
    ensures TimesOk(m) && (forall i :: 0 <= i < |calls| ==> PositiveTime(calls[i])) ==> TimesOk(trace[k])
  {
    hide Check, Loaded, FileOf, Readable, Evolves, PositiveTime, IsRenaming, TimesOk;
    var start := Loaded(FileOf(m), {});
    RoundTrip(m, {});
    RunsStayHealthy(start, calls, trace, k);
    RunsEvolve(start, calls, trace, j, k);
    if TimesOk(m) && forall i :: 0 <= i < |calls| ==> PositiveTime(calls[i]) {
      TimesRenamed(m, start);
      RunsKeepTimes(start, calls, trace, k);
    }
  }

  lemma TimesRenamed(m: Manager, n: Manager)
    requires Check(m) && IsRenaming(m, n) && TimesOk(m)
    ensures TimesOk(n)
  {
    hide Check, IsRenaming;
    forall j | j in n.info
      ensures n.info[j].lastTry >= 0 && n.info[j].lastSuccess >= 0 && (n.info[j].inTried ==> n.info[j].lastSuccess != 0)
    {
      RenamedEntry(m, n, j);
    }
  }

  lemma RebuiltIsRenaming(m: Manager, e: Manager, n: Manager, collisions: set<int>)
    requires Check(m) && Entries(m, e, |Stored(m)|, collisions) && RowsDone(m, e, n, NEW_BUCKET_COUNT, 0)
    requires e.idCount == |Stored(m)|
    ensures IsRenaming(m, n) && n.collisions == collisions
    ensures forall x :: x in n.info ==> n.info[x].inTried || n.info[x].refCount != 0
  {
    hide Check, Stored, Renamed, Enumerates, NewSoFar, TriedSoFar, TableRenamed, InfoRenamed, Indexed;
    StoredFacts(m);
    TriedAllBack(m, n.triedTable);
    NewAllBack(m, n.newTable);
    InfoBack(m, e, n, collisions);
    AddrsBack(m, e.info, n.addrs, n.random);
    RandomBack(m, e.info, n.addrs, n.random);
  }

  lemma RandomBack(m: Manager, info: map<int, Info>, addrs: map<nat, int>, random: seq<int>)
    requires Check(m) && Indexed(m.info, Stored(m), info, addrs, random, |Stored(m)|)
    ensures |random| == |Stored(m)| == |m.random| && forall j :: 0 <= j < |random| ==> random[j] == j
  {
    RandomListsEverything(m);
    StoredFacts(m);
    StoredSize(m);
  }

  lemma TriedAllBack(m: Manager, t: Table)
    requires Check(m) && TriedSoFar(m, t, |Stored(m)|)
    ensures TableRenamed(m, m.triedTable, t, TRIED_BUCKET_COUNT)
  {
    hide Check, Stored, Renamed;
    RenamedEmpty(m);
    forall b, p | 0 <= b < TRIED_BUCKET_COUNT && 0 <= p < BUCKET_SIZE
      ensures t[b][p] == Renamed(m, m.triedTable[b][p])
    {
      TriedSlotStored(m, b, p);
    }
  }

  lemma NewAllBack(m: Manager, t: Table)
    requires NewSoFar(m, t, NEW_BUCKET_COUNT, 0)
    ensures TableRenamed(m, m.newTable, t, NEW_BUCKET_COUNT)
  {
  }

  lemma InfoBack(m: Manager, e: Manager, n: Manager, collisions: set<int>)
    requires Check(m) && Entries(m, e, |Stored(m)|, collisions) && RowsDone(m, e, n, NEW_BUCKET_COUNT, 0)
    ensures InfoRenamed(m, n.info)
    ensures forall x :: x in n.info ==> n.info[x].inTried || n.info[x].refCount != 0
  {
    hide Check, Stored, Renamed, NewSoFar, TriedSoFar, RefIds, NewIds, Enumerates, Restored, SlotsOf;
    StoredFacts(m);
    forall j | 0 <= j < |Stored(m)|
      ensures j in n.info && n.info[j] == Restored(m.info[Stored(m)[j]], j).(refCount := m.info[Stored(m)[j]].refCount)
    {
      CountsBack(m, n.newTable, j);
    }
    forall id | id in m.info
      ensures 0 <= Renamed(m, id) < |Stored(m)| && Stored(m)[Renamed(m, id)] == id
    {
      StoredAt(m, id);
    }
    assert forall j :: j in n.info <==> 0 <= j < |Stored(m)|;
    NeverIdle(m, n.info);
  }

  lemma NeverIdle(m: Manager, info: map<int, Info>)
    requires Check(m) && InfoRenamed(m, info)
    ensures forall x :: x in info ==> info[x].inTried || info[x].refCount != 0
  {
    hide Check, Renamed;
    StoredNeverIdle(m);
  }

  lemma StoredNeverIdle(m: Manager)
    requires Check(m)
    ensures forall id :: id in m.info ==> m.info[id].inTried || m.info[id].refCount != 0
  {
    forall id | id in m.info
      ensures m.info[id].inTried || m.info[id].refCount != 0
    {
      assert id !in Limbo(m.info);
    }
  }

  lemma AddrsBack(m: Manager, info: map<int, Info>, addrs: map<nat, int>, random: seq<int>)
    requires Check(m) && Indexed(m.info, Stored(m), info, addrs, random, |Stored(m)|)
    ensures addrs.Keys == m.addrs.Keys && forall a :: a in m.addrs ==> addrs[a] == Renamed(m, m.addrs[a])
  {
    hide Check, Stored, Renamed, Restored;
    forall a | a in m.addrs
      ensures a in addrs && addrs[a] == Renamed(m, m.addrs[a])
    {
      AddressFacts(m, a, m.addrs[a]);
      StoredAt(m, m.addrs[a]);
    }
    forall a | a in addrs
      ensures a in m.addrs
    {
      AddressFacts(m, a, Stored(m)[addrs[a]]);
    }
  }

  lemma AddressFacts(m: Manager, a: nat, id: int)
    requires Check(m)
    ensures a in m.addrs && id == m.addrs[a] ==> id in m.info && m.info[id].svc.ip == a
    ensures id in m.info && m.info[id].svc.ip == a ==> a in m.addrs
  {
  }

  lemma {:induction false} RangeSize(s: set<int>, lo: int, hi: int)
    requires lo <= hi && forall x :: x in s <==> lo <= x < hi
    ensures |s| == hi - lo
    decreases hi - lo
  {
    if lo == hi {
      assert s == {};
    } else {
      RangeSize(s - {lo}, lo + 1, hi);
    }
  }

  /** What holds at each new id. */
  lemma RenamedEntry(m: Manager, n: Manager, j: int)
    requires Check(m) && IsRenaming(m, n) && j in n.info
    ensures 0 <= j < |Stored(m)| && Stored(m)[j] in m.info && Renamed(m, Stored(m)[j]) == j
    ensures n.info[j] == Restored(m.info[Stored(m)[j]], j).(refCount := m.info[Stored(m)[j]].refCount)
    ensures n.info[j].inTried <==> m.nNew <= j
    ensures n.info[j].inTried || n.info[j].refCount != 0
  {
    hide Check, Stored, Renamed, RefIds, NewIds, Enumerates, TableRenamed, Restored;
    StoredFacts(m);
    StoredNeverIdle(m);
    var id :| id in m.info && Renamed(m, id) == j;
    StoredAt(m, id);
    assert n.info[Renamed(m, id)] == Restored(m.info[id], Renamed(m, id)).(refCount := m.info[id].refCount);
    RestoredFlag(m.info[id], j);
  }

  lemma RestoredFlag(i: Info, j: int)
    ensures Restored(i, j).inTried == i.inTried && Restored(i, j).svc == i.svc && Restored(i, j).randomPos == j
  {
  }

  lemma RenamingKeys(m: Manager, n: Manager)
    requires Check(m) && IsRenaming(m, n)
    ensures |Stored(m)| == |n.random| && forall j :: j in n.info <==> 0 <= j < |Stored(m)|
  {
    hide Check, Stored, Renamed, RefIds, NewIds, Enumerates, TableRenamed;
    StoredFacts(m);
    RandomListsEverything(m);
    StoredSize(m);
    forall j
      ensures j in n.info <==> 0 <= j < |Stored(m)|
    {
      if j in n.info {
        RenamedEntry(m, n, j);
      }
      assert 0 <= j < |Stored(m)| ==> Renamed(m, Stored(m)[j]) == j;
    }
  }

  lemma RenamingIndexes(m: Manager, n: Manager)
    requires Check(m) && IsRenaming(m, n)
    ensures IdsOk(n.info, n.idCount) && RandomOk(n.info, n.random) && AddrsOk(n.info, n.addrs)
  {
    hide Check, Stored, Renamed, TableRenamed, InfoRenamed, Restored, AddrsOk;
    RenamingKeys(m, n);
    RangeSize(n.info.Keys, 0, |Stored(m)|);
    assert |n.info| == |n.info.Keys|;
    forall j | j in n.info
      ensures n.info[j].randomPos == j
    {
      RenamedEntry(m, n, j);
      RestoredFlag(m.info[Stored(m)[j]], j);
    }
    RenamingAddrs(m, n);
  }

  lemma RenamingAddrs(m: Manager, n: Manager)
    requires Check(m) && IsRenaming(m, n)
    ensures AddrsOk(n.info, n.addrs)
  {
  }

  lemma RenamingTried(m: Manager, n: Manager)
    requires Check(m) && IsRenaming(m, n)
    ensures TriedOk(n.hashes, n.info, n.triedTable)
  {
    hide Check, Stored, Renamed, InfoRenamed, Restored;
    RenamedEmpty(m);
    forall b, p | 0 <= b < TRIED_BUCKET_COUNT && 0 <= p < BUCKET_SIZE && n.triedTable[b][p] != -1
      ensures var j := n.triedTable[b][p];
              && j in n.info && n.info[j].inTried
              && b == TriedBucket(n.hashes, n.info[j].svc) && p == TriedPosition(n.hashes, n.info[j].svc)
    {
      RenamingKeys(m, n);
      TriedSlotStored(m, b, p);
      assert n.triedTable[b][p] == Renamed(m, m.triedTable[b][p]);
      RenamedEntry(m, n, n.triedTable[b][p]);
      RestoredFlag(m.info[m.triedTable[b][p]], n.triedTable[b][p]);
    }
    forall j | j in n.info && n.info[j].inTried
      ensures n.triedTable[TriedBucket(n.hashes, n.info[j].svc)][TriedPosition(n.hashes, n.info[j].svc)] == j
    {
      RenamedEntry(m, n, j);
      RestoredFlag(m.info[Stored(m)[j]], j);
      TriedIdInSlot(m, j);
    }
  }

  lemma RenamingNew(m: Manager, n: Manager)
    requires Check(m) && IsRenaming(m, n)
    ensures NewOk(n.hashes, n.info, n.newTable) && CountsOk(n.info, n.newTable)
  {
    hide Check, Stored, Renamed, InfoRenamed, Restored;
    RenamedEmpty(m);
    forall b, p | 0 <= b < NEW_BUCKET_COUNT && 0 <= p < BUCKET_SIZE && n.newTable[b][p] != -1
      ensures var j := n.newTable[b][p];
              j in n.info && !n.info[j].inTried && p == Position(n.hashes, n.info[j].svc, true, b)
    {
      RenamingKeys(m, n);
      NewSlotStored(m, b, p);
      RenamedEntry(m, n, n.newTable[b][p]);
      RestoredFlag(m.info[m.newTable[b][p]], n.newTable[b][p]);
    }
    forall j | j in n.info
      ensures n.info[j].refCount == |SlotsOf(n.newTable, j)| <= NEW_BUCKETS_PER_ADDRESS
    {
      RenamedEntry(m, n, j);
      CountsBack(m, n.newTable, j);
      RefLimit(m, Stored(m)[j]);
    }
  }

  lemma RefLimit(m: Manager, id: int)
    requires Check(m) && id in m.info
    ensures m.info[id].refCount <= NEW_BUCKETS_PER_ADDRESS
  {
  }

  /** A renamed consistent manager is consistent. */
  lemma RenamingChecks(m: Manager, n: Manager)
    requires Check(m) && IsRenaming(m, n)
    ensures Check(n)
  {
    hide IdsOk, RandomOk, AddrsOk, TriedOk, NewOk, CountsOk, Stored, Renamed, IsRenaming, TriedIds, NewIds, Limbo;
    RenamingIndexes(m, n);
    RenamingTried(m, n);
    RenamingNew(m, n);
    RenamingCounts(m, n);
    RenamingSets(m, n);
  }

  lemma RenamingSets(m: Manager, n: Manager)
    requires Check(m) && IsRenaming(m, n)
    ensures |TriedIds(n.info)| == m.nTried && |NewIds(n.info)| == m.nNew && Limbo(n.info) == {}
  {
    hide Check, Stored, Renamed, IsRenaming, RefIds, Enumerates;
    RenamingKeys(m, n);
    StoredFacts(m);
    StoredSize(m);
    forall j | j in n.info
      ensures (n.info[j].inTried <==> m.nNew <= j) && (n.info[j].inTried || n.info[j].refCount != 0)
    {
      RenamedEntry(m, n, j);
    }
    RangeSize(TriedIds(n.info), m.nNew, |Stored(m)|);
    RangeSize(NewIds(n.info), 0, m.nNew);
  }

  lemma RenamingCounts(m: Manager, n: Manager)
    requires IsRenaming(m, n)
    ensures n.nNew == m.nNew && n.nTried == m.nTried && n.idCount >= 0
  {
  }

  // ---------------------------------------------------------------- any readable file

  /** Ids in use are below `bound`, and vRandom lists each exactly once. */
  ghost predicate Listed(m: Manager, bound: int) {
    RandomOk(m.info, m.random) && forall x :: x in m.info ==> x < bound
  }

  lemma EnteredListed(m: Manager, id: int, i: Info)
    requires Listed(m, id)
    ensures Listed(Entered(m, id, i), id + 1)
  {
  }

  lemma ReferencedListed(m: Manager, b: int, p: int, id: int, bound: int)
    requires Listed(m, bound) && NewSlotEmpty(m, b, p) && id in m.info
    ensures Listed(Referenced(m, b, p, id), bound)
  {
  }

  lemma {:induction false} LoadNewListed(m: Manager, f: File, k: nat)
    requires k <= |f.infos| && m.info == map[] && m.random == []
    ensures Listed(LoadNew(m, f, k), k)
  {
    hide Listed, Primary;
    if k > 0 {
      LoadNewListed(m, f, k - 1);
      EnteredListed(LoadNew(m, f, k - 1), k - 1, FromDisk(f.infos[k - 1]));
      var e := Entered(LoadNew(m, f, k - 1), k - 1, FromDisk(f.infos[k - 1]));
      PrimaryListed(e, k - 1, k);
    } else {
      EmptyListed(m);
    }
  }

  lemma EmptyListed(m: Manager)
    requires m.info == map[] && m.random == []
    ensures Listed(m, 0)
  {
  }

  lemma PrimaryListed(m: Manager, id: int, bound: int)
    requires Listed(m, bound) && id in m.info
    ensures Listed(Primary(m, id), bound)
  {
    hide Listed;
    var b := NewBucket(m.hashes, m.info[id].svc, m.info[id].source);
    var p := Position(m.hashes, m.info[id].svc, true, b);
    if NewSlotEmpty(m, b, p) {
      ReferencedListed(m, b, p, id, bound);
    }
  }

  lemma {:induction false} LoadTriedListed(m: Manager, f: File, k: nat)
    requires Count(f.nNew) + k <= |f.infos| && Listed(m, f.nNew)
    ensures Listed(LoadTried(m, f, k).m, LoadTried(m, f, k).m.idCount)
  {
    hide Listed, Entered;
    if k > 0 {
      LoadTriedListed(m, f, k - 1);
      var l, i := LoadTried(m, f, k - 1), FromDisk(f.infos[Count(f.nNew) + k - 1]);
      EnteredListed(l.m, l.m.idCount, i.(inTried := true));
      TriedEnteredListed(l, i);
    } else {
      IdCountListed(m, f.nNew);
    }
  }

  lemma IdCountListed(m: Manager, idCount: int)
    requires Listed(m, idCount)
    ensures Listed(m.(idCount := idCount), idCount)
  {
  }

  lemma TriedEnteredListed(l: Loading, i: Info)
    requires Listed(l.m, l.m.idCount) && Listed(Entered(l.m, l.m.idCount, i.(inTried := true)), l.m.idCount + 1)
    ensures Listed(TriedEntered(l, i).m, TriedEntered(l, i).m.idCount)
  {
    hide Entered, RandomOk;
  }

  lemma LoadSlotListed(m: Manager, f: File, b: int, index: int, bound: int)
    requires Listed(m, bound)
    ensures Listed(LoadSlot(m, f, b, index), bound)
  {
  }

  /** Ids below the least remaining one have all been written. */
  lemma NextInOrder(s: set<int>, todo: set<int>, id: int)
    requires IsLeast(id, todo)
    ensures id in todo
    ensures id in s ==> Ascending(s * todo) == [id] + Ascending(s * (todo - {id}))
    ensures id !in s ==> s * todo == s * (todo - {id})
  {
    if id in s {
      assert IsLeast(id, s * todo);
      LeastIsUnique(id, Least(s * todo), s * todo);
      assert s * todo - {id} == s * (todo - {id});
    }
  }

  lemma OrderNext(s: set<int>, todo: set<int>, id: int, order: seq<int>, done: seq<int>)
    requires IsLeast(id, todo) && order == done + Ascending(s * todo)
    ensures id in todo
    ensures id in s ==>
              order == done + [id] + Ascending(s * (todo - {id})) && |done| < |order| && order[|done|] == id
    ensures id !in s ==> order == done + Ascending(s * (todo - {id}))
  {
    hide Ascending, IsLeast;
    NextInOrder(s, todo, id);
  }

  lemma NoneLeft(s: set<int>)
    ensures Ascending(s * {}) == []
  {
  }

  lemma DeletedListed(m: Manager, id: int, bound: int)
    requires Listed(m, bound) && id in m.info
    ensures CanDelete(m, id) && Listed(Deleted(m, id), bound)
  {
    hide Deleted;
    var info, random := SwapToEnd(m, id);
    RandomAfterPop(info, random, id);
    assert info.Keys == m.info.Keys;
  }

  lemma LoadEntriesListed(f: File, collisions: set<int>)
    requires Readable(f)
    ensures Listed(LoadEntries(f, collisions), LoadEntries(f, collisions).idCount)
  {
    var c := Cleared(f.key, collisions).(nNew := f.nNew, nTried := f.nTried);
    LoadNewListed(c, f, Count(f.nNew));
    LoadTriedListed(LoadNew(c, f, Count(f.nNew)), f, Count(f.nTried));
  }

  lemma {:induction false} LoadNewShape(m: Manager, f: File, k: nat)
    requires k <= |f.infos| && Dims(m.newTable, NEW_BUCKET_COUNT)
    ensures var n := LoadNew(m, f, k);
            && n.nNew == m.nNew && n.nTried == m.nTried && n.collisions == m.collisions
            && Dims(n.newTable, NEW_BUCKET_COUNT) && n.triedTable == m.triedTable
            && forall x :: 0 <= x < k ==> x in n.info
  {
    hide Primary;
    if k > 0 {
      LoadNewShape(m, f, k - 1);
      PrimaryShape(Entered(LoadNew(m, f, k - 1), k - 1, FromDisk(f.infos[k - 1])), k - 1);
    }
  }

  lemma PrimaryShape(m: Manager, id: int)
    requires id in m.info && Dims(m.newTable, NEW_BUCKET_COUNT)
    ensures var n := Primary(m, id);
            && n == m.(info := n.info, newTable := n.newTable) && n.info.Keys == m.info.Keys
            && Dims(n.newTable, NEW_BUCKET_COUNT)
  {
  }

  // ---------------------------------------------------------------- a file with other buckets

  /** The bucket and the place that an entry of the file hashes to from its own source. */
  function Home(f: File, i: nat): (int, int)
    requires i < |f.infos|
  {
    var d := f.infos[i];
    var b := NewBucket(f.key, d.svc, d.source);
    (b, Position(f.key, d.svc, true, b))
  }

  /** No earlier entry has the same home. */
  ghost predicate First(f: File, i: nat)
    requires i < |f.infos|
  {
    forall j: nat :: j < i ==> Home(f, j) != Home(f, i)
  }

  /** Every slot holds the first entry at home there. */
  ghost predicate HomesOf(f: File, t: Table, k: nat)
    requires k <= |f.infos|
  {
    && Dims(t, NEW_BUCKET_COUNT)
    && (forall b, p :: 0 <= b < NEW_BUCKET_COUNT && 0 <= p < BUCKET_SIZE && t[b][p] != -1 ==>
          0 <= t[b][p] < k && Home(f, t[b][p]) == (b, p) && First(f, t[b][p]))
    && (forall i: nat :: i < k ==> t[Home(f, i).0][Home(f, i).1] != -1)
  }

  /** Where the stored new table is of no use, each new entry gets its one home slot, first come first
      served, and is otherwise without a reference, to be dropped. */
  lemma {:induction false} FallbackTable(m: Manager, f: File, k: nat)
    requires !Usable(f) && k <= |f.infos| && m.hashes == f.key && m.info == map[]
    requires m.newTable == EmptyTable(NEW_BUCKET_COUNT)
    ensures var n := LoadNew(m, f, k);
            && n.hashes == f.key && HomesOf(f, n.newTable, k) && (forall x :: x in n.info <==> 0 <= x < k)
            && forall i: nat :: i < k ==> n.info[i].refCount == if First(f, i) then 1 else 0
  {
    hide Primary, Usable, First, HomesOf, EmptyTable, Home;
    if k == 0 {
      NoHomes(f);
    } else {
      FallbackTable(m, f, k - 1);
      PrimaryIs(f, LoadNew(m, f, k - 1), k - 1);
    }
  }

  lemma NoHomes(f: File)
    ensures HomesOf(f, EmptyTable(NEW_BUCKET_COUNT), 0)
  {
  }

  lemma PrimaryIs(f: File, n: Manager, i: nat)
    requires i < |f.infos| && n.hashes == f.key && HomesOf(f, n.newTable, i) && forall x :: x in n.info ==> x < i
    ensures var r := Primary(Entered(n, i, FromDisk(f.infos[i])), i);
            && r.hashes == f.key && HomesOf(f, r.newTable, i + 1) && r.info.Keys == n.info.Keys + {i}
            && r.info[i].refCount == (if First(f, i) then 1 else 0)
            && forall x :: x in n.info ==> r.info[x] == n.info[x]
  {
    hide HomesOf, First, NewBucket, Position;
    HomesNext(f, n.newTable, i);
  }

  lemma HomesNext(f: File, t: Table, i: nat)
    requires i < |f.infos| && HomesOf(f, t, i)
    ensures var b, p := Home(f, i).0, Home(f, i).1;
            && 0 <= b < |t| && 0 <= p < |t[b]|
            && (t[b][p] == -1 <==> First(f, i))
            && HomesOf(f, if t[b][p] == -1 then Put(t, b, p, i) else t, i + 1)
  {
    hide NewBucket, Position;
    HomeInTable(f, i);
    var b, p := Home(f, i).0, Home(f, i).1;
    if t[b][p] != -1 {
      assert Home(f, t[b][p]) == Home(f, i);
    } else {
      forall j: nat | j < i
        ensures Home(f, j) != Home(f, i)
      {
        assert t[Home(f, j).0][Home(f, j).1] != -1;
      }
      HomesPut(f, t, i);
    }
  }

  lemma HomeInTable(f: File, i: nat)
    requires i < |f.infos|
    ensures 0 <= Home(f, i).0 < NEW_BUCKET_COUNT && 0 <= Home(f, i).1 < BUCKET_SIZE
  {
  }

  lemma HomesPut(f: File, t: Table, i: nat)
    requires i < |f.infos| && HomesOf(f, t, i) && First(f, i)
    requires 0 <= Home(f, i).0 < NEW_BUCKET_COUNT && 0 <= Home(f, i).1 < BUCKET_SIZE
    ensures HomesOf(f, Put(t, Home(f, i).0, Home(f, i).1, i), i + 1)
  {
    hide Home, First;
    forall j: nat | j < i + 1
      ensures 0 <= Home(f, j).0 < NEW_BUCKET_COUNT && 0 <= Home(f, j).1 < BUCKET_SIZE
    {
      HomeInTable(f, j);
    }
  }

  lemma {:induction false} LoadTriedShape(m: Manager, f: File, k: nat)
    requires Count(f.nNew) + k <= |f.infos|
    ensures var n := LoadTried(m, f, k).m;
            && n.nNew == m.nNew && n.nTried == m.nTried && n.newTable == m.newTable && n.collisions == m.collisions
            && forall x :: x in m.info ==> x in n.info
  {
    if k > 0 {
      LoadTriedShape(m, f, k - 1);
    }
  }

  lemma LoadEntriesShape(f: File, collisions: set<int>)
    requires Readable(f)
    ensures var e := LoadEntries(f, collisions);
            Dims(e.newTable, NEW_BUCKET_COUNT) && forall x :: 0 <= x < e.nNew ==> x in e.info
  {
    hide LoadNew, LoadTried;
    var c := Cleared(f.key, collisions).(nNew := f.nNew, nTried := f.nTried);
    LoadNewShape(c, f, Count(f.nNew));
    LoadTriedShape(LoadNew(c, f, Count(f.nNew)), f, Count(f.nTried));
  }

  lemma {:induction false} LoadRowListed(m: Manager, f: File, b: int, row: seq<int>, k: nat, bound: int)
    requires k <= |row| && Listed(m, bound)
    ensures Listed(LoadRow(m, f, b, row, k), bound)
  {
    hide Listed, LoadSlot;
    if k > 0 {
      LoadRowListed(m, f, b, row, k - 1, bound);
      LoadSlotListed(LoadRow(m, f, b, row, k - 1), f, b, row[k - 1], bound);
    }
  }

  lemma {:induction false} LoadRowsListed(m: Manager, f: File, k: nat, bound: int)
    requires k <= |f.buckets| && Listed(m, bound)
    ensures Listed(LoadRows(m, f, k), bound)
  {
    hide Listed, LoadRow;
    if k > 0 {
      LoadRowsListed(m, f, k - 1, bound);
      LoadRowListed(LoadRows(m, f, k - 1), f, k - 1, f.buckets[k - 1], |f.buckets[k - 1]|, bound);
    }
  }
}
