/** The operations of the address manager on values, and what every run keeps
    (src/addrman.cpp). */
module AddrManOps {
  import opened AddrManSpec
  import opened Common

  /** Surplus of nNew over the number of untried ids; zero between operations. */
  ghost function Surplus(m: Manager): int {
    m.nNew - |NewIds(m.info)|
  }

  /** Facts that outlive a step: ids keep their service, new ids are unused ones, and
      a filled tried slot stays filled. */
  ghost predicate Evolves(m: Manager, n: Manager) {
    && m.hashes == n.hashes
    && m.idCount <= n.idCount
    && (forall id :: id in n.info && id in m.info ==> n.info[id].svc == m.info[id].svc)
    && (forall id :: id in n.info && id !in m.info ==> m.idCount <= id)
    && |m.triedTable| == |n.triedTable|
    && (forall b, p :: 0 <= b < |m.triedTable| && 0 <= p < |m.triedTable[b]| && m.triedTable[b][p] != -1 ==>
          p < |n.triedTable[b]| && n.triedTable[b][p] != -1)
  }

  /** Two managers that differ at most in the info entry of `id`, positions in
      vRandom, and the new table. */
  ghost predicate OthersKept(m: Manager, n: Manager, id: int) {
    && n == m.(info := n.info, addrs := n.addrs, random := n.random, newTable := n.newTable, nNew := n.nNew)
    && (forall x :: x in n.info ==>
          x in m.info && SameHistory(m.info[x], n.info[x]) && n.info[x].inTried == m.info[x].inTried)
    && (forall x :: x in m.info && x != id ==> x in n.info && n.info[x].refCount == m.info[x].refCount)
  }

  ghost predicate SameHistory(i: Info, j: Info) {
    j == i.(refCount := j.refCount, inTried := j.inTried, randomPos := j.randomPos)
  }

  /** No entry's history changes, and none but possibly `id` becomes tried. */
  ghost predicate HistoryKept(m: Manager, n: Manager, id: int) {
    forall x :: x in n.info ==>
      x in m.info && SameHistory(m.info[x], n.info[x]) && (n.info[x].inTried ==> m.info[x].inTried || x == id)
  }

  // ---------------------------------------------------------------- ClearNew

  ghost function ClearedNew(m: Manager, b: int, p: int): Manager
    requires Linked(m) && 0 <= b < NEW_BUCKET_COUNT && 0 <= p < BUCKET_SIZE
  {
    var id := m.newTable[b][p];
    if id == -1 then m else
      UnreferencedKeeps(m, b, p);
      var u := Unreferenced(m, b, p);
      if u.info[id].refCount == 0 then
        DeletedKeeps(u, id);
        Deleted(u, id)
      else u
  }

  lemma ClearedNewKeeps(m: Manager, b: int, p: int)
    requires Linked(m) && 0 <= b < NEW_BUCKET_COUNT && 0 <= p < BUCKET_SIZE
    ensures var n := ClearedNew(m, b, p);
            && Linked(n) && NewSlotEmpty(n, b, p)
            && Limbo(n.info) == Limbo(m.info) && Surplus(n) == Surplus(m)
            && OthersKept(m, n, m.newTable[b][p])
  {
    hide Linked, NewIds, Limbo, Deleted;
    NewSlotFacts(m, b, p);
    var id := m.newTable[b][p];
    if id != -1 {
      UnreferencedKeeps(m, b, p);
      var u := Unreferenced(m, b, p);
      UnreferencedOthers(m, b, p);
      if u.info[id].refCount == 0 {
        DeletedKeeps(u, id);
        DeletedOthers(u, id);
        HeldIsNotIdle(m.info, id);
        OthersKeptTwice(m, u, Deleted(u, id), id);
      }
    }
  }

  lemma HeldIsNotIdle(info: map<int, Info>, id: int)
    requires id in info && info[id].refCount > 0
    ensures id !in Limbo(info)
  {
  }

  lemma OthersKeptTwice(m: Manager, n: Manager, k: Manager, id: int)
    requires OthersKept(m, n, id) && OthersKept(n, k, id)
    ensures OthersKept(m, k, id)
  {
  }

  lemma UnreferencedOthers(m: Manager, b: int, p: int)
    requires NewSlotHeld(m, b, p)
    ensures OthersKept(m, Unreferenced(m, b, p), m.newTable[b][p])
  {
  }

  lemma DeletedOthers(m: Manager, id: int)
    requires CanDelete(m, id)
    ensures Deleted(m, id).newTable == m.newTable && Deleted(m, id).nNew == m.nNew - 1
    ensures OthersKept(m, Deleted(m, id), id)
  {
  }

  // ---------------------------------------------------------------- MakeTried

  ghost function DroppedRef(m: Manager, id: int, b: int): (n: Manager)
    requires id in m.info
    ensures id in n.info
  {
    var p := Position(m.hashes, m.info[id].svc, true, b);
    if 0 <= b < |m.newTable| && p < |m.newTable[b]| && m.newTable[b][p] == id then Unreferenced(m, b, p) else m
  }

  /** The first `k` turns of the loop that takes an id out of all new buckets. */
  ghost function DroppedRefs(m: Manager, id: int, k: nat): (n: Manager)
    requires id in m.info
    ensures id in n.info
  {
    if k == 0 then m else DroppedRef(DroppedRefs(m, id, k - 1), id, k - 1)
  }

  /** What the loop keeps: everything but the slots and the count of `id`. */
  ghost predicate DropInvariant(m: Manager, n: Manager, id: int, k: int) {
    && Linked(n) && id in n.info
    && OthersKept(m, n, id) && n.nNew == m.nNew
    && n.info[id] == m.info[id].(refCount := n.info[id].refCount)
    && NewIds(n.info) == NewIds(m.info)
    && Limbo(m.info) <= Limbo(n.info) <= Limbo(m.info) + {id}
    && (forall b, p :: 0 <= b < k && b < |n.newTable| && 0 <= p < |n.newTable[b]| ==> n.newTable[b][p] != id)
  }

  lemma {:induction false} DroppedRefsKeeps(m: Manager, id: int, k: nat)
    requires Linked(m) && id in NewIds(m.info) && id in m.info && k <= NEW_BUCKET_COUNT
    ensures DropInvariant(m, DroppedRefs(m, id, k), id, k)
  {
    hide Linked, NewIds, Limbo, DroppedRef;
    if k > 0 {
      DroppedRefsKeeps(m, id, k - 1);
      DropTurn(m, DroppedRefs(m, id, k - 1), id, k - 1);
    }
  }

  lemma DroppedRows(m: Manager, id: int, k: nat)
    requires Linked(m) && id in NewIds(m.info) && id in m.info && k <= NEW_BUCKET_COUNT
    ensures Dims(DroppedRefs(m, id, k).newTable, NEW_BUCKET_COUNT)
  {
    hide Linked, NewIds, Limbo, DroppedRefs;
    DroppedRefsKeeps(m, id, k);
    NewRows(DroppedRefs(m, id, k));
  }

  lemma DropTurn(m: Manager, n: Manager, id: int, b: nat)
    requires DropInvariant(m, n, id, b) && id in m.info && b < NEW_BUCKET_COUNT
    ensures DropInvariant(m, DroppedRef(n, id, b), id, b + 1)
  {
    hide Linked, NewIds, Limbo, OthersKept;
    var p := Position(n.hashes, n.info[id].svc, true, b);
    forall q | 0 <= q < BUCKET_SIZE && q != p
      ensures |n.newTable| == NEW_BUCKET_COUNT && |n.newTable[b]| == BUCKET_SIZE && n.newTable[b][q] != id
    {
      NewSlotFacts(n, b, q);
    }
    NewSlotFacts(n, b, p);
    var r := DroppedRef(n, id, b);
    if n.newTable[b][p] == id {
      UnreferencedKeeps(n, b, p);
      assert r == Unreferenced(n, b, p);
      UnreferencedOthers(n, b, p);
      OthersKeptTwice(m, n, r, id);
      assert r.newTable == Put(n.newTable, b, p, -1);
      NewRows(n);
      NewRows(r);
      assert forall c, q :: 0 <= c < b && 0 <= q < BUCKET_SIZE ==> r.newTable[c][q] == n.newTable[c][q];
    }
  }

  lemma TriedRows(m: Manager)
    requires Linked(m)
    ensures |m.triedTable| == TRIED_BUCKET_COUNT
    ensures forall b :: 0 <= b < |m.triedTable| ==> |m.triedTable[b]| == BUCKET_SIZE
    ensures -1 !in m.info
  {
  }

  lemma NewRows(m: Manager)
    requires Linked(m)
    ensures |m.newTable| == NEW_BUCKET_COUNT && forall b :: 0 <= b < |m.newTable| ==> |m.newTable[b]| == BUCKET_SIZE
  {
  }

  /** Moves the entry of a tried slot back to the new table; `idle` entries keep out
      of its way because they hold no new slot. */
  ghost function Evicted(m: Manager, b: int, p: int): Manager
    requires Linked(m) && 0 <= b < TRIED_BUCKET_COUNT && 0 <= p < BUCKET_SIZE && m.triedTable[b][p] != -1
  {
    TriedOutKeeps(m, b, p);
    var id, o := m.triedTable[b][p], TriedOut(m, b, p);
    var ub := NewBucket(o.hashes, o.info[id].svc, o.info[id].source);
    var up := Position(o.hashes, o.info[id].svc, true, ub);
    EvictionFacts(o, ub, up, id);
    var r := Referenced(ClearedNew(o, ub, up), ub, up, id);
    r.(nNew := r.nNew + 1)
  }

  /** Clearing a slot for an idle entry does not disturb that entry. */
  lemma EvictionFacts(m: Manager, ub: int, up: int, id: int)
    requires Linked(m) && 0 <= ub < NEW_BUCKET_COUNT && 0 <= up < BUCKET_SIZE && id in Limbo(m.info)
    ensures var c := ClearedNew(m, ub, up);
            && id != m.newTable[ub][up]
            && NewSlotEmpty(c, ub, up) && id in c.info && id in Limbo(c.info)
            && c.info[id].svc == m.info[id].svc && !c.info[id].inTried && c.info[id].refCount == 0
  {
    hide Linked, ClearedNew, NewIds;
    assert m.info[id].refCount == 0 && !m.info[id].inTried;
    NewSlotFacts(m, ub, up);
    ClearedNewKeeps(m, ub, up);
  }

  /** The evicted entry `id` is idle once out of the tried table (`o`), stays idle while its
      new slot is cleared (`c`), and is then entered there. */
  lemma EvictionSteps(m: Manager, b: int, p: int) returns (o: Manager, c: Manager, ub: int, up: int, id: int)
    requires Linked(m) && 0 <= b < TRIED_BUCKET_COUNT && 0 <= p < BUCKET_SIZE && m.triedTable[b][p] != -1
    ensures id == m.triedTable[b][p] && TriedSlotHeld(m, b, p) && o == TriedOut(m, b, p)
    ensures Limbo(o.info) == Limbo(m.info) + {id} && id !in Limbo(m.info) && |NewIds(o.info)| == |NewIds(m.info)| + 1
    ensures Linked(c) && NewSlotEmpty(c, ub, up) && Limbo(c.info) == Limbo(o.info) && Surplus(c) == Surplus(o)
    ensures OthersKept(o, c, o.newTable[ub][up]) && o.newTable[ub][up] !in Limbo(o.info)
    ensures id in c.info && !c.info[id].inTried && c.info[id].refCount == 0
    ensures ub == NewBucket(c.hashes, c.info[id].svc, c.info[id].source)
    ensures up == Position(c.hashes, c.info[id].svc, true, ub)
    ensures Evicted(m, b, p) == Referenced(c, ub, up, id).(nNew := c.nNew + 1)
  {
    hide Linked, ClearedNew, NewIds, Limbo, Position, NewBucket;
    TriedOutKeeps(m, b, p);
    LimboIsNew(m.info);
    id, o := m.triedTable[b][p], TriedOut(m, b, p);
    ub := NewBucket(o.hashes, o.info[id].svc, o.info[id].source);
    up := Position(o.hashes, o.info[id].svc, true, ub);
    EvictionFacts(o, ub, up, id);
    ClearedNewKeeps(o, ub, up);
    c := ClearedNew(o, ub, up);
    NewRows(o);
    if o.newTable[ub][up] in Limbo(o.info) {
      EvictionFacts(o, ub, up, o.newTable[ub][up]);
    }
  }

  lemma EvictedKeeps(m: Manager, b: int, p: int)
    requires Linked(m) && 0 <= b < TRIED_BUCKET_COUNT && 0 <= p < BUCKET_SIZE && m.triedTable[b][p] != -1
    ensures var n := Evicted(m, b, p);
            && Linked(n) && Limbo(n.info) == Limbo(m.info) && Surplus(n) == Surplus(m)
            && n.triedTable == Put(m.triedTable, b, p, -1)
            && n.hashes == m.hashes && n.idCount == m.idCount && n.collisions == m.collisions &&
               n.lastGood == m.lastGood
            && HistoryKept(m, n, -1)
            && (forall x :: x in Limbo(m.info) ==> x in n.info)
  {
    hide Linked, ClearedNew, NewIds, Limbo, Evicted, Position, NewBucket;
    LimboIsStored(m);
    var o, c, ub, up, id := EvictionSteps(m, b, p);
    ReferencedKeeps(c, ub, up, id);
    LinkedWithoutCount(Referenced(c, ub, up, id), c.nNew + 1);
  }

  lemma LimboIsNew(info: map<int, Info>)
    ensures Limbo(info) <= NewIds(info)
  {
  }

  lemma LimboIsStored(m: Manager)
    ensures forall x :: x in Limbo(m.info) ==> x in m.info
  {
  }

  lemma LinkedWithoutCount(m: Manager, count: int)
    requires Linked(m)
    ensures Linked(m.(nNew := count))
  {
  }

  /** Makes room in a tried slot. */
  ghost function Vacated(m: Manager, b: int, p: int): Manager
    requires Linked(m) && 0 <= b < TRIED_BUCKET_COUNT && 0 <= p < BUCKET_SIZE
  {
    if m.triedTable[b][p] != -1 then Evicted(m, b, p) else m
  }

  lemma VacatedKeeps(m: Manager, b: int, p: int)
    requires Linked(m) && 0 <= b < TRIED_BUCKET_COUNT && 0 <= p < BUCKET_SIZE
    ensures var n := Vacated(m, b, p);
            && Linked(n) && Limbo(n.info) == Limbo(m.info) && Surplus(n) == Surplus(m)
            && TriedSlotEmpty(n, b, p) && n.triedTable == Put(m.triedTable, b, p, -1)
            && n.hashes == m.hashes && n.idCount == m.idCount && n.collisions == m.collisions
            && HistoryKept(m, n, -1)
            && (forall x :: x in Limbo(m.info) ==> x in n.info)
  {
    hide Linked, Limbo, NewIds, Evicted;
    TriedRows(m);
    LimboIsStored(m);
    if m.triedTable[b][p] != -1 {
      EvictedKeeps(m, b, p);
    } else {
      assert m.triedTable[b][p := -1] == m.triedTable[b];
      assert Put(m.triedTable, b, p, -1) == m.triedTable;
    }
  }

  /** MakeTried, before the entry takes its tried slot. */
  ghost function Uprooted(m: Manager, id: int): Manager
    requires id in m.info
  {
    var d := DroppedRefs(m, id, NEW_BUCKET_COUNT);
    d.(nNew := d.nNew - 1)
  }

  ghost function MadeTried(m: Manager, id: int): Manager
    requires Linked(m) && id in NewIds(m.info)
  {
    var b, p := TriedBucket(m.hashes, m.info[id].svc), TriedPosition(m.hashes, m.info[id].svc);
    DroppedIsIdle(m, id);
    VacatedKeeps(Uprooted(m, id), b, p);
    TriedIn(Vacated(Uprooted(m, id), b, p), b, p, id)
  }

  /** After the loop the id is held by no table, so the assertion on nRefCount holds. */
  lemma DroppedIsIdle(m: Manager, id: int)
    requires Linked(m) && id in NewIds(m.info)
    ensures id in m.info
    ensures var d := Uprooted(m, id);
            && Linked(d) && id in Limbo(d.info) && id in d.info && d.info[id].refCount == 0
            && Limbo(d.info) == Limbo(m.info) + {id} && Surplus(d) == Surplus(m) - 1
            && d.triedTable == m.triedTable && d.hashes == m.hashes && d.idCount == m.idCount &&
               d.collisions == m.collisions
            && HistoryKept(m, d, -1)
  {
    assert id in m.info;
    DroppedRefsKeeps(m, id, NEW_BUCKET_COUNT);
    hide DroppedRefs, NewIds, Limbo, TablesOk;
    var d0 := DroppedRefs(m, id, NEW_BUCKET_COUNT);
    NoSlotsIsIdle(d0, id);
    hide IdsOk, RandomOk, AddrsOk;
  }

  lemma NoSlotsIsIdle(m: Manager, id: int)
    requires Linked(m) && id in m.info && !m.info[id].inTried
    requires forall b, p :: 0 <= b < |m.newTable| && 0 <= p < |m.newTable[b]| ==> m.newTable[b][p] != id
    ensures m.info[id].refCount == 0 && id in Limbo(m.info)
  {
  }

  lemma MadeTriedKeeps(m: Manager, id: int)
    requires Linked(m) && id in NewIds(m.info) && id !in Limbo(m.info)
    ensures Linked(MadeTried(m, id)) && Limbo(MadeTried(m, id).info) == Limbo(m.info)
    ensures Surplus(MadeTried(m, id)) == Surplus(m)
    ensures Evolves(m, MadeTried(m, id)) && MadeTried(m, id).collisions == m.collisions
    ensures id in MadeTried(m, id).info && MadeTried(m, id).info[id].inTried && HistoryKept(m, MadeTried(m, id), id)
  {
    hide Linked, Uprooted, Vacated, NewIds, Limbo, Surplus, Evolves;
    TriedRows(m);
    DroppedIsIdle(m, id);
    var b, p := TriedBucket(m.hashes, m.info[id].svc), TriedPosition(m.hashes, m.info[id].svc);
    var d := Uprooted(m, id);
    VacatedKeeps(d, b, p);
    var e := Vacated(d, b, p);
    IdleTakesSlot(e, b, p, id);
    HistoryTwice(m, d, e);
    RefilledEvolves(m, e, b, p, id);
    assert Limbo(m.info) + {id} - {id} == Limbo(m.info);
  }

  lemma HistoryTwice(m: Manager, n: Manager, k: Manager)
    requires HistoryKept(m, n, -1) && HistoryKept(n, k, -1)
    ensures HistoryKept(m, k, -1)
  {
  }

  /** A slot emptied and filled again within one step counts as never emptied. */
  lemma RefilledEvolves(m: Manager, e: Manager, b: int, p: int, id: int)
    requires 0 <= b < |m.triedTable| && 0 <= p < |m.triedTable[b]| && id in e.info && -1 !in m.info && -1 !in e.info
    requires TriedSlotEmpty(e, b, p) && e.triedTable == Put(m.triedTable, b, p, -1)
    requires e.hashes == m.hashes && e.idCount == m.idCount
    requires HistoryKept(m, e, -1)
    ensures Evolves(m, TriedIn(e, b, p, id)) && HistoryKept(m, TriedIn(e, b, p, id), id)
  {
  }

  lemma IdleTakesSlot(e: Manager, b: int, p: int, id: int)
    requires Linked(e) && id in Limbo(e.info) && id in e.info && TriedSlotEmpty(e, b, p)
    requires b == TriedBucket(e.hashes, e.info[id].svc) && p == TriedPosition(e.hashes, e.info[id].svc)
    ensures Linked(TriedIn(e, b, p, id)) && Limbo(TriedIn(e, b, p, id).info) == Limbo(e.info) - {id}
    ensures Surplus(TriedIn(e, b, p, id)) == Surplus(e) + 1
  {
    assert id in NewIds(e.info);
    TriedInKeeps(e, b, p, id);
  }

  // ---------------------------------------------------------------- small updates

  const HORIZON_DAYS: int := 30
  const RETRIES: int := 3
  const MAX_FAILURES: int := 10
  const MIN_FAIL_DAYS: int := 7
  const REPLACEMENT_HOURS: int := 4
  const TEST_WINDOW: int := 40 * 60
  const GETADDR_MAX_PCT: nat := 23
  const GETADDR_MAX: nat := 2500

  predicate IsTerrible(i: Info, now: int) {
    if i.lastTry != 0 && i.lastTry >= now - 60 then false
    else
      || i.time > now + 10 * 60
      || i.time == 0 || now - i.time > HORIZON_DAYS * 24 * 60 * 60
      || (i.lastSuccess == 0 && i.attempts >= RETRIES)
      || (now - i.lastSuccess > MIN_FAIL_DAYS * 24 * 60 * 60 && i.attempts >= MAX_FAILURES)
  }

  ghost predicate Kept(m: Manager, n: Manager) {
    Linked(n) && Limbo(n.info) == {} && Surplus(n) == 0 && Evolves(m, n) && n.collisions == m.collisions
  }

  /** The entry for exactly this service, port included. */
  ghost predicate Known(m: Manager, svc: Service) {
    svc.ip in m.addrs && m.addrs[svc.ip] in m.info && m.info[m.addrs[svc.ip]].svc == svc
  }

  ghost function AttemptSpec(m: Manager, svc: Service, countFailure: bool, time: int): Manager {
    if !Known(m, svc) then m else
      var id := m.addrs[svc.ip];
      var i := m.info[id].(lastTry := time);
      Touched(m, id, if countFailure && i.lastCountAttempt < m.lastGood
                     then i.(lastCountAttempt := time, attempts := i.attempts + 1) else i)
  }

  ghost function ConnectedSpec(m: Manager, svc: Service, time: int): Manager {
    if !Known(m, svc) then m else
      var id := m.addrs[svc.ip];
      if time - m.info[id].time > 20 * 60 then Touched(m, id, m.info[id].(time := time)) else m
  }

  ghost function SetServicesSpec(m: Manager, svc: Service, services: bv64): Manager {
    if !Known(m, svc) then m else
      Touched(m, m.addrs[svc.ip], m.info[m.addrs[svc.ip]].(services := services))
  }

  // ---------------------------------------------------------------- Add_

  datatype Address = Address(svc: Service, time: nat, services: bv64)

  ghost predicate Inserts(m: Manager, id: int, b: int, p: int, now: int)
    requires id in m.info && 0 <= b < |m.newTable| && 0 <= p < |m.newTable[b]|
  {
    var held := m.newTable[b][p];
    held == -1 || (held in m.info && (IsTerrible(m.info[held], now) ||
        (m.info[held].refCount > 1 && m.info[id].refCount == 0)))
  }

  /** The second half of Add_: give `id` one more new slot if the hashed slot allows. */
  ghost function Placed(m: Manager, id: int, source: nat, now: int): Manager
    requires Linked(m) && id in NewIds(m.info) && m.info[id].refCount < NEW_BUCKETS_PER_ADDRESS
  {
    var b := NewBucket(m.hashes, m.info[id].svc, source);
    var p := Position(m.hashes, m.info[id].svc, true, b);
    PlaceFacts(m, id, b, p);
    if m.newTable[b][p] == id then m
    else if Inserts(m, id, b, p, now) then Referenced(ClearedNew(m, b, p), b, p, id)
    else if m.info[id].refCount == 0 then DeletedKeeps(m, id); Deleted(m, id)
    else m
  }

  lemma PlaceFacts(m: Manager, id: int, b: int, p: int)
    requires Linked(m) && 0 <= b < NEW_BUCKET_COUNT && 0 <= p < BUCKET_SIZE && id in NewIds(m.info)
    ensures |m.newTable| == NEW_BUCKET_COUNT && |m.newTable[b]| == BUCKET_SIZE
    ensures m.info[id].refCount == 0 ==> id in Limbo(m.info)
    ensures m.newTable[b][p] != id ==>
              var c := ClearedNew(m, b, p);
              && NewSlotEmpty(c, b, p) && id in c.info && id in NewIds(c.info)
              && c.info[id].svc == m.info[id].svc && c.info[id].refCount == m.info[id].refCount
  {
    hide Linked, ClearedNew;
    assert id in m.info && !m.info[id].inTried;
    NewSlotFacts(m, b, p);
    ClearedNewKeeps(m, b, p);
  }

  lemma PlacedKeeps(m: Manager, id: int, source: nat, now: int)
    requires Linked(m) && id in NewIds(m.info) && m.info[id].refCount < NEW_BUCKETS_PER_ADDRESS
    requires Limbo(m.info) == if m.info[id].refCount == 0 then {id} else {}
    requires Surplus(m) == 0
    ensures Kept(m, Placed(m, id, source, now)) && HistoryKept(m, Placed(m, id, source, now), -1)
  {
    hide Linked, NewIds, Limbo, ClearedNew, Deleted, Referenced, Evolves, Position, NewBucket, IsTerrible, Surplus;
    UntriedFact(m, id);
    var b := NewBucket(m.hashes, m.info[id].svc, source);
    var p := Position(m.hashes, m.info[id].svc, true, b);
    PlaceFacts(m, id, b, p);
    if m.newTable[b][p] == id {
      NewSlotFacts(m, b, p);
      SubsetEvolves(m, m);
    } else if Inserts(m, id, b, p, now) {
      InsertedKeeps(m, id, b, p);
    } else if m.info[id].refCount == 0 {
      DeletedIsKept(m, id);
    } else {
      SubsetEvolves(m, m);
    }
  }

  lemma DeletedIsKept(m: Manager, id: int)
    requires Linked(m) && Limbo(m.info) == {id} && Surplus(m) == 0
    ensures CanDelete(m, id) && Kept(m, Deleted(m, id)) && HistoryKept(m, Deleted(m, id), -1)
  {
    hide Linked, NewIds, Limbo, Deleted, Evolves;
    DeletedKeeps(m, id);
    DeletedOthers(m, id);
    SubsetEvolves(m, Deleted(m, id));
  }

  lemma SubsetEvolves(m: Manager, n: Manager)
    requires n.hashes == m.hashes && n.idCount == m.idCount && n.triedTable == m.triedTable
    requires forall x :: x in n.info ==> x in m.info && n.info[x].svc == m.info[x].svc
    ensures Evolves(m, n)
  {
  }

  lemma InsertedKeeps(m: Manager, id: int, b: int, p: int)
    requires Linked(m) && 0 <= b < NEW_BUCKET_COUNT && 0 <= p < BUCKET_SIZE
    requires id in NewIds(m.info) && id in m.info && m.info[id].refCount < NEW_BUCKETS_PER_ADDRESS
    requires m.newTable[b][p] != id && p == Position(m.hashes, m.info[id].svc, true, b)
    requires Limbo(m.info) <= {id} && Surplus(m) == 0
    ensures var c := ClearedNew(m, b, p);
            && NewSlotEmpty(c, b, p) && id in c.info
            && Kept(m, Referenced(c, b, p, id)) && HistoryKept(m, Referenced(c, b, p, id), -1)
  {
    hide Linked, NewIds, Limbo, ClearedNew, SameHistory, Position;
    PlaceFacts(m, id, b, p);
    ClearedNewKeeps(m, b, p);
    var c := ClearedNew(m, b, p);
    UntriedFact(c, id);
    ReferencedKeeps(c, b, p, id);
    hide Evolves;
    ReferencedHistory(m, c, b, p, id);
  }

  lemma ReferencedHistory(m: Manager, c: Manager, b: int, p: int, id: int)
    requires NewSlotEmpty(c, b, p) && id in c.info
    requires exists x :: OthersKept(m, c, x)
    ensures Evolves(m, Referenced(c, b, p, id)) && HistoryKept(m, Referenced(c, b, p, id), -1)
    ensures Referenced(c, b, p, id).collisions == m.collisions
  {
  }

  lemma UntriedFact(m: Manager, id: int)
    requires id in NewIds(m.info)
    ensures id in m.info && !m.info[id].inTried
  {
  }
}
