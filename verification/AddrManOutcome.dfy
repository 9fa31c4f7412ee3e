/** What one call of Good_ or Add_ does to the tables, stated on the manager before and
    after the call (src/addrman.cpp). */
module AddrManOutcome {
  import opened AddrManSpec
  import opened AddrManOps
  import opened AddrManRuns
  import opened Common

  // ---------------------------------------------------------------- Good_

  /** The entry holds the new slot that its source hashes to. */
  ghost predicate AtHome(m: Manager, id: int) {
    && id in m.info
    && var b := NewBucket(m.hashes, m.info[id].svc, m.info[id].source);
       var p := Position(m.hashes, m.info[id].svc, true, b);
       b < |m.newTable| && p < |m.newTable[b]| && m.newTable[b][p] == id
  }

  /** An evicted entry is not lost: it goes back to one new slot. */
  lemma EvictedReturns(m: Manager, b: int, p: int)
    requires Linked(m) && 0 <= b < TRIED_BUCKET_COUNT && 0 <= p < BUCKET_SIZE && m.triedTable[b][p] != -1
    ensures var n, held := Evicted(m, b, p), m.triedTable[b][p];
            held in n.info && !n.info[held].inTried && n.info[held].refCount == 1 && AtHome(n, held)
  {
    hide Linked, ClearedNew, NewIds, Limbo, Evicted, Position, NewBucket;
    var o, c, ub, up, id := EvictionSteps(m, b, p);
  }

  /** MakeTried changes one tried slot, and its old holder returns to the new table. */
  lemma MadeTriedOutcome(m: Manager, id: int)
    requires Linked(m) && id in NewIds(m.info) && id in m.info && id !in Limbo(m.info)
    ensures var b, p := TriedBucket(m.hashes, m.info[id].svc), TriedPosition(m.hashes, m.info[id].svc);
            var n := MadeTried(m, id);
            && b < |m.triedTable| && p < |m.triedTable[b]|
            && n.triedTable == Put(m.triedTable, b, p, id)
            && n.lastGood == m.lastGood
            && var held := m.triedTable[b][p];
               held != -1 ==>
                 held in n.info && !n.info[held].inTried && n.info[held].refCount == 1 && AtHome(n, held)
  {
    hide Linked, Uprooted, NewIds, Limbo, Surplus, Evicted, HistoryKept, TriedBucket, TriedPosition, Put;
    TriedRows(m);
    DroppedIsIdle(m, id);
    var b, p := TriedBucket(m.hashes, m.info[id].svc), TriedPosition(m.hashes, m.info[id].svc);
    var d := Uprooted(m, id);
    UprootedLastGood(m, id);
    VacatedKeeps(d, b, p);
    PutTwice(m.triedTable, b, p, -1, id);
    if m.triedTable[b][p] != -1 {
      EvictedKeeps(d, b, p);
      EvictedReturns(d, b, p);
      TriedIsNotIdle(d, b, p, id);
    }
  }

  lemma PutTwice(t: Table, b: int, p: int, v: int, w: int)
    requires 0 <= b < |t| && 0 <= p < |t[b]|
    ensures |Put(t, b, p, v)| == |t| && |Put(t, b, p, v)[b]| == |t[b]|
    ensures Put(Put(t, b, p, v), b, p, w) == Put(t, b, p, w)
  {
    assert t[b][p := v][p := w] == t[b][p := w];
  }

  lemma UprootedLastGood(m: Manager, id: int)
    requires Linked(m) && id in NewIds(m.info) && id in m.info
    ensures Uprooted(m, id).lastGood == m.lastGood
  {
    hide Linked, NewIds, Limbo, DroppedRefs;
    DroppedRefsKeeps(m, id, NEW_BUCKET_COUNT);
  }

  lemma TriedIsNotIdle(m: Manager, b: int, p: int, id: int)
    requires Linked(m) && 0 <= b < TRIED_BUCKET_COUNT && 0 <= p < BUCKET_SIZE && m.triedTable[b][p] != -1
    requires id in Limbo(m.info)
    ensures m.triedTable[b][p] != id
  {
  }

  /** Good_ moves an entry when it is the one for exactly this service, is still new, and
      either nobody asked for a test before eviction or the tried slot is free. */
  ghost predicate Promotes(m: Manager, svc: Service, testBeforeEvict: bool) {
    Known(m, svc) && !m.info[m.addrs[svc.ip]].inTried && (!testBeforeEvict || !TriedFilled(m, svc))
  }

  lemma GoodOutcome(m: Manager, svc: Service, testBeforeEvict: bool, time: int)
    requires Check(m)
    ensures Linked(m) && Limbo(m.info) == {}
    ensures var b, p := TriedBucket(m.hashes, svc), TriedPosition(m.hashes, svc);
            var n := GoodSpec(m, svc, testBeforeEvict, time);
            && b < |m.triedTable| && p < |m.triedTable[b]| && n.lastGood == time
            && (!Known(m, svc) ==> n == m.(lastGood := time))
            && (Known(m, svc) ==>
                  var id := m.addrs[svc.ip];
                  && id in n.info && n.info[id].lastSuccess == time && n.info[id].lastTry == time
                  && n.info[id].attempts == 0
                  && (n.info[id].inTried <==> m.info[id].inTried || Promotes(m, svc, testBeforeEvict)))
            && (Promotes(m, svc, testBeforeEvict) ==>
                  && n.triedTable == Put(m.triedTable, b, p, m.addrs[svc.ip]) && n.collisions == m.collisions
                  && var held := m.triedTable[b][p];
                     held != -1 ==>
                       held in n.info && !n.info[held].inTried && n.info[held].refCount == 1 && AtHome(n, held))
            && (forall x :: x in n.info && (Known(m, svc) ==> x != m.addrs[svc.ip]) ==>
                  x in m.info && SameHistory(m.info[x], n.info[x]))
            && (!Promotes(m, svc, testBeforeEvict) ==>
                  && n.triedTable == m.triedTable && n.newTable == m.newTable && n.info.Keys == m.info.Keys
                  && n.collisions ==
                     if Known(m, svc) && !m.info[m.addrs[svc.ip]].inTried && |m.collisions| < SET_TRIED_COLLISION_SIZE
                     then m.collisions + {m.addrs[svc.ip]} else m.collisions)
  {
    hide Check, Linked, Limbo, Surplus, NewIds, MadeTried, InSomeBucket, Evolves, TriedBucket, TriedPosition, Put,
         SameCore;
    CheckIsKept(m);
    TriedRows(m);
    if Known(m, svc) {
      var id, m0 := m.addrs[svc.ip], m.(lastGood := time);
      var j := m.info[id].(lastSuccess := time, lastTry := time, attempts := 0);
      var m1 := Touched(m0, id, j);
      if !j.inTried {
        UntriedHasRefs(m, id);
        LinkedAnyTime(m, time);
        TouchedKeeps(m0, id, j);
        UntriedIsInSomeBucket(m1, id);
        MadeTriedKeeps(m1, id);
        MadeTriedOutcome(m1, id);
      }
    }
  }

  lemma LinkedAnyTime(m: Manager, time: int)
    requires Linked(m)
    ensures Linked(m.(lastGood := time))
  {
  }

  // ---------------------------------------------------------------- ResolveCollisions_

  /** A remembered newcomer displaces the holder of its tried slot when the holder has had no
      success for four hours and either failed a try in that time, more than a minute ago,
      or was not tried and the newcomer has waited out the test window. */
  ghost predicate Displaces(m: Manager, id: int, now: Readings) {
    && id in m.info && m.hashes.isValid(m.info[id].svc.ip) && TriedSlot(m, m.info[id].svc) in m.info
    && var held := m.info[TriedSlot(m, m.info[id].svc)];
       && now.success - held.lastSuccess >= 4 * 3600
       && (if now.attempt - held.lastTry < 4 * 3600 then now.limit - held.lastTry > 60
           else now.limit - m.info[id].lastSuccess > 40 * 60)
  }

  /** A remembered newcomer waits when the holder has had no success for four hours, but was either
      tried within the last minute, or not in those four hours while the newcomer is still within
      the test window. */
  ghost predicate MustWait(m: Manager, id: int, now: Readings) {
    && id in m.info && m.hashes.isValid(m.info[id].svc.ip) && TriedSlot(m, m.info[id].svc) in m.info
    && var held := m.info[TriedSlot(m, m.info[id].svc)];
       && now.success - held.lastSuccess >= 4 * 3600
       && (if now.attempt - held.lastTry < 4 * 3600 then now.limit - held.lastTry <= 60
           else now.limit - m.info[id].lastSuccess <= 40 * 60)
  }

  /** A collision is forgotten exactly when it does not have to wait, and then no other is. */
  lemma ResolvedOneForgets(m: Manager, id: int, now: Readings)
    requires Linked(m) && Limbo(m.info) == {} && Surplus(m) == 0
    ensures MustWait(m, id, now) ==> ResolvedOne(m, id, now) == m
    ensures !MustWait(m, id, now) ==> ResolvedOne(m, id, now).collisions == m.collisions - {id}
  {
    hide Check, Linked, Limbo, Surplus, GoodSpec, TriedBucket, TriedPosition, Put;
    CheckIsKept(m);
    TriedRows(m);
    if id in m.info {
      GoodOutcome(m, m.info[id].svc, false, now.good);
    }
  }

  /** One remembered collision. It is forgotten if and only if its entry is gone, its address is not
      valid, the holder has succeeded within four hours, or the newcomer displaces the holder. The
      tables change exactly in the last case, and the holder then goes back to the new table. A
      collision that stays remembered left everything as it was. */
  lemma ResolvedOneOutcome(m: Manager, id: int, now: Readings)
    requires Check(m) && CollisionsOk(m) && id in m.collisions
    ensures Linked(m) && Limbo(m.info) == {}
    ensures id in m.info ==> TriedSlot(m, m.info[id].svc) in m.info
    ensures var n := ResolvedOne(m, id, now);
            && (id in n.collisions ==> n == m)
            && (id !in n.collisions ==> n.collisions == m.collisions - {id})
            && (id !in n.collisions <==>
                  || id !in m.info || !m.hashes.isValid(m.info[id].svc.ip)
                  || now.success - m.info[TriedSlot(m, m.info[id].svc)].lastSuccess < 4 * 3600
                  || Displaces(m, id, now))
            && (id in m.info && !m.info[id].inTried ==>
                  && id in n.info && (n.info[id].inTried <==> Displaces(m, id, now))
                  && (Displaces(m, id, now) ==>
                        var held := TriedSlot(m, m.info[id].svc);
                        held in n.info && !n.info[held].inTried && n.info[held].refCount == 1))
            && (id !in m.info || m.info[id].inTried || !Displaces(m, id, now) ==>
                  n.triedTable == m.triedTable && n.newTable == m.newTable && n.info.Keys == m.info.Keys)
  {
    hide Check, Linked, Limbo, Surplus, GoodSpec, TriedBucket, TriedPosition, Put;
    CheckIsKept(m);
    TriedRows(m);
    if id in m.info {
      AddrOwner(m, id);
      FilledSlotIsHeld(m, m.info[id].svc);
      GoodOutcome(m, m.info[id].svc, false, now.good);
    }
    ResolvedOneForgets(m, id, now);
  }

  // The loop over all of them. What a turn decides is decided on the manager at that turn, because
  // a newcomer that displaces a holder may change what the collisions after it meet.

  function Earlier(todo: set<int>, x: int): set<int> {
    set y | y in todo && y < x
  }

  lemma {:induction false} ResolveKeepsOthers(m: Manager, todo: set<int>, now: int -> Readings, x: int)
    requires Linked(m) && Limbo(m.info) == {} && Surplus(m) == 0 && x !in todo
    ensures x in ResolveFrom(m, todo, now).collisions <==> x in m.collisions
    decreases |todo|
  {
    hide Linked, Limbo, Surplus, ResolvedOne, MustWait;
    if todo != {} {
      var id := Least(todo);
      ResolvedOneMoves(m, id, now(id));
      MovesFacts(m, ResolvedOne(m, id, now(id)));
      ResolvedOneForgets(m, id, now(id));
      ResolveKeepsOthers(ResolvedOne(m, id, now(id)), todo - {id}, now, x);
    }
  }

  /** A collision is still remembered after the loop if and only if it had to wait at its turn. */
  lemma {:induction false} ResolveOutcome(m: Manager, todo: set<int>, now: int -> Readings, x: int)
    requires Linked(m) && Limbo(m.info) == {} && Surplus(m) == 0 && x in todo && x in m.collisions
    ensures x in ResolveFrom(m, todo, now).collisions <==>
            MustWait(ResolveFrom(m, Earlier(todo, x), now), x, now(x))
    decreases |todo|
  {
    hide Linked, Limbo, Surplus, ResolvedOne, MustWait, Moves;
    var id := Least(todo);
    var n := ResolvedOne(m, id, now(id));
    ResolvedOneMoves(m, id, now(id));
    MovesFacts(m, n);
    ResolvedOneForgets(m, id, now(id));
    if x == id {
      assert Earlier(todo, x) == {};
      ResolveKeepsOthers(n, todo - {id}, now, x);
    } else {
      ResolveOutcome(n, todo - {id}, now, x);
      assert IsLeast(id, Earlier(todo, x));
      LeastIsUnique(id, Least(Earlier(todo, x)), Earlier(todo, x));
      assert Earlier(todo, x) - {id} == Earlier(todo - {id}, x);
    }
  }

  lemma ForgetsOnly(m: Manager, id: int, now: Readings)
    requires Check(m) && CollisionsOk(m) && id in m.collisions && !Displaces(m, id, now)
    ensures Linked(m) && Limbo(m.info) == {}
    ensures ResolvedOne(m, id, now) ==
            if MustWait(m, id, now) then m else m.(collisions := m.collisions - {id})
    ensures Check(ResolvedOne(m, id, now)) && CollisionsOk(ResolvedOne(m, id, now))
  {
    hide Check, Linked, Limbo, Surplus, GoodSpec, TriedBucket, TriedPosition, Moves;
    CheckIsKept(m);
    TriedRows(m);
    if id in m.info {
      FilledSlotIsHeld(m, m.info[id].svc);
    }
    ResolvedOneMoves(m, id, now);
    MovesFacts(m, ResolvedOne(m, id, now));
    CheckIsKept(ResolvedOne(m, id, now));
  }

  /** When no newcomer displaces a holder, the loop only forgets those that need not wait. */
  lemma {:induction false} ResolveWithoutDisplacing(m: Manager, todo: set<int>, now: int -> Readings)
    requires Check(m) && CollisionsOk(m) && todo <= m.collisions
    requires forall x :: x in todo ==> !Displaces(m, x, now(x))
    ensures Linked(m) && Limbo(m.info) == {} && Surplus(m) == 0
    ensures ResolveFrom(m, todo, now) ==
            m.(collisions := m.collisions - set x | x in todo && !MustWait(m, x, now(x)))
    decreases |todo|
  {
    hide Check, Linked, Limbo, Surplus, ResolvedOne, CollisionsOk;
    CheckIsKept(m);
    if todo != {} {
      var id := Least(todo);
      var n := ResolvedOne(m, id, now(id));
      ForgetsOnly(m, id, now(id));
      ResolveWithoutDisplacing(n, todo - {id}, now);
    }
  }

  // ---------------------------------------------------------------- Add_

  /** Whether the new slot an unseen address hashes to will take it: the slot is empty, or
      its holder is terrible, or its holder has another reference. */
  ghost predicate SlotYields(m: Manager, svc: Service, source: nat, now: int)
    requires Linked(m)
  {
    NewRows(m);
    var b := NewBucket(m.hashes, svc, source);
    var held := m.newTable[b][Position(m.hashes, svc, true, b)];
    held == -1 || (held in m.info && (IsTerrible(m.info[held], now) || m.info[held].refCount > 1))
  }

  /** Add_ returns true for every routable unseen address, but the address is there
      afterwards if and only if its slot yields; otherwise the call used up an id and
      changed nothing else. */
  lemma AddUnseenOutcome(m: Manager, a: Address, source: nat, penalty: int, now: int, lucky: bool)
    requires Check(m) && m.hashes.isRoutable(a.svc.ip) && a.svc.ip !in m.addrs
    ensures Linked(m) && Limbo(m.info) == {}
    ensures var n := AddSpec(m, a, source, penalty, now, lucky);
            var b := NewBucket(m.hashes, a.svc, source);
            var p := Position(m.hashes, a.svc, true, b);
            && (a.svc.ip in n.addrs <==> SlotYields(m, a.svc, source, now))
            && (!SlotYields(m, a.svc, source, now) ==> n == m.(idCount := m.idCount + 1))
            && (SlotYields(m, a.svc, source, now) ==>
                  && n.addrs[a.svc.ip] == m.idCount && m.idCount in n.info
                  && b < |n.newTable| && p < |n.newTable[b]| && n.newTable[b][p] == m.idCount
                  && var i := n.info[m.idCount];
                     && i.svc == a.svc && i.source == source && i.services == a.services && i.refCount == 1
                     && i.time == Max(0, a.time - if a.svc.ip == source then 0 else penalty)
                     && !i.inTried && i.lastTry == i.lastSuccess == i.attempts == 0)
            && n.triedTable == m.triedTable && n.collisions == m.collisions && n.lastGood == m.lastGood
            && (forall x :: x in n.info && x != m.idCount ==> x in m.info && SameHistory(m.info[x], n.info[x]))
  {
    hide Check, Linked, Limbo, Surplus, NewIds, IsTerrible, ClearedNew, Deleted, Position, NewBucket;
    CheckIsKept(m);
    NewRows(m);
    var c := CreatedNew(m, a, Penalty(a, source, penalty), source);
    CreatedNewLinked(m, a, Penalty(a, source, penalty), source);
    var b := NewBucket(m.hashes, a.svc, source);
    var p := Position(m.hashes, a.svc, true, b);
    NewSlotFacts(m, b, p);
    NextIdFree(m);
    PlaceFacts(c, m.idCount, b, p);
    if SlotYields(m, a.svc, source, now) {
      ClearedSpares(c, b, p, m.idCount);
      ClearedNewKeeps(c, b, p);
    } else {
      CreatedThenDeleted(m, a, Penalty(a, source, penalty), source);
    }
  }

  /** A known untried entry gets a further slot if and only if the announcement is news, the
      draw allows it, and the slot its source hashes to is empty or held by another,
      terrible entry. The entry itself is never lost, moved or re-addressed. */
  ghost predicate GainsSlot(m: Manager, id: int, a: Address, source: nat, pen: int, now: int, lucky: bool)
    requires Linked(m) && id in m.info
  {
    NewRows(m);
    var i := m.info[id];
    var b := NewBucket(m.hashes, i.svc, source);
    var held := m.newTable[b][Position(m.hashes, i.svc, true, b)];
    var time := TimeAfter(i.time, a.time, pen, now);
    && a.time != 0 && (time == 0 || time < a.time)
    && !i.inTried && i.refCount != 8 && (i.refCount == 0 || lucky)
    && held != id
    && (held == -1 || (held in m.info && IsTerrible(m.info[held], now)))
  }

  /** The time an entry last seen at `was` has after an announcement of `seen`, less a penalty: it
      moves only when it is unset or lags by more than an hour for an address that is online, by more
      than a day for any other. */
  function TimeAfter(was: int, seen: int, penalty: int, now: int): int {
    var lag := seen - penalty - was;
    if seen != 0 && (was == 0 || lag > 24 * 3600 || (now - seen < 24 * 3600 && lag > 3600))
    then Max(0, seen - penalty) else was
  }

  lemma RefreshedTimeIs(i: Info, a: Address, penalty: int, now: int)
    ensures RefreshedTime(i, a, penalty, now) == TimeAfter(i.time, a.time, penalty, now)
  {
  }

  ghost predicate Announced(m: Manager, n: Manager, id: int, a: Address, source: nat, pen: int, now: int, lucky: bool)
    requires Linked(m) && id in m.info
  {
    && id in n.info && m.info[id].svc.ip in n.addrs && n.addrs[m.info[id].svc.ip] == id && n.triedTable == m.triedTable
    && (forall x :: x in n.info && x != id ==> x in m.info && SameHistory(m.info[x], n.info[x]))
    && SlotsAfter(m, n, id, source, GainsSlot(m, id, a, source, pen, now, lucky))
    && var i, j := m.info[id], n.info[id];
       && j.svc == i.svc && j.source == i.source && j.inTried == i.inTried
       && j.services == i.services | a.services && j.time == TimeAfter(i.time, a.time, pen, now)
       && j.refCount == i.refCount + (if GainsSlot(m, id, a, source, pen, now, lucky) then 1 else 0)
  }

  ghost predicate SlotsAfter(m: Manager, n: Manager, id: int, source: nat, gains: bool)
    requires Linked(m) && id in m.info
  {
    NewRows(m);
    var b := NewBucket(m.hashes, m.info[id].svc, source);
    n.newTable == if gains then Put(m.newTable, b, Position(m.hashes, m.info[id].svc, true, b), id) else m.newTable
  }

  lemma AddKnownOutcome(m: Manager, a: Address, source: nat, penalty: int, now: int, lucky: bool)
    requires Check(m) && m.hashes.isRoutable(a.svc.ip) && a.svc.ip in m.addrs
    ensures Linked(m) && Limbo(m.info) == {}
    ensures var id := m.addrs[a.svc.ip];
            && id in m.info && m.info[id].svc.ip == a.svc.ip
            && Announced(m, AddSpec(m, a, source, penalty, now, lucky), id, a, source, Penalty(a, source, penalty),
                         now, lucky)
  {
    hide Check, Linked, Limbo, Surplus, Placed, Announced, WantsReference, Refreshed, Touched;
    CheckIsKept(m);
    AddrFacts(m, a.svc.ip);
    var id, pen := m.addrs[a.svc.ip], Penalty(a, source, penalty);
    if WantsReference(Refreshed(m.info[id], a, pen, now), a, lucky) {
      PlacedAnnounced(m, id, a, source, pen, now, lucky);
    } else {
      TouchedAnnounced(m, id, a, source, pen, now, lucky);
    }
  }

  lemma TouchedAnnounced(m: Manager, id: int, a: Address, source: nat, pen: int, now: int, lucky: bool)
    requires Linked(m) && id in m.info && !WantsReference(Refreshed(m.info[id], a, pen, now), a, lucky)
    ensures Announced(m, Touched(m, id, Refreshed(m.info[id], a, pen, now)), id, a, source, pen, now, lucky)
  {
    hide Linked, NewIds, Limbo, RefreshedTime, TimeAfter, IsTerrible;
    RefreshedTimeIs(m.info[id], a, pen, now);
    AddrOwner(m, id);
  }

  lemma PlacedAnnounced(m: Manager, id: int, a: Address, source: nat, pen: int, now: int, lucky: bool)
    requires Linked(m) && Limbo(m.info) == {} && id in m.info
    requires WantsReference(Refreshed(m.info[id], a, pen, now), a, lucky)
    ensures var t := Touched(m, id, Refreshed(m.info[id], a, pen, now));
            && Linked(t) && id in NewIds(t.info) && id in t.info && t.info[id].refCount < NEW_BUCKETS_PER_ADDRESS
            && Announced(m, Placed(t, id, source, now), id, a, source, pen, now, lucky)
  {
    hide Linked, NewIds, Limbo, RefreshedTime, TimeAfter, IsTerrible, Placed, Position, NewBucket;
    RefreshedTimeIs(m.info[id], a, pen, now);
    var j := Refreshed(m.info[id], a, pen, now);
    UntriedHasRefs(m, id);
    TouchedKeeps(m, id, j);
    NewRows(m);
    var b := NewBucket(m.hashes, m.info[id].svc, source);
    NewSlotFacts(m, b, Position(m.hashes, m.info[id].svc, true, b));
    PlacedOutcome(Touched(m, id, j), id, source, now);
  }

  lemma AddrOwner(m: Manager, id: int)
    requires Linked(m) && id in m.info
    ensures m.info[id].svc.ip in m.addrs && m.addrs[m.info[id].svc.ip] == id
  {
  }

  lemma PlacedOutcome(m: Manager, id: int, source: nat, now: int)
    requires Linked(m) && id in NewIds(m.info) && id in m.info && 0 < m.info[id].refCount < NEW_BUCKETS_PER_ADDRESS
    ensures var b := NewBucket(m.hashes, m.info[id].svc, source);
            var p := Position(m.hashes, m.info[id].svc, true, b);
            var n := Placed(m, id, source, now);
            && b < |m.newTable| && p < |m.newTable[b]|
            && n.triedTable == m.triedTable && id in n.info
            && m.info[id].svc.ip in n.addrs && n.addrs[m.info[id].svc.ip] == id
            && var gains := m.newTable[b][p] != id && Inserts(m, id, b, p, now);
               && n.info[id].(randomPos := m.info[id].randomPos) ==
                  m.info[id].(refCount := m.info[id].refCount + if gains then 1 else 0)
               && n.newTable == (if gains then Put(m.newTable, b, p, id) else m.newTable)
               && (forall x :: x in n.info ==> x in m.info && SameHistory(m.info[x], n.info[x]))
  {
    hide Linked, NewIds, Limbo, Position, NewBucket, ClearedNew, Deleted, IsTerrible;
    var b := NewBucket(m.hashes, m.info[id].svc, source);
    var p := Position(m.hashes, m.info[id].svc, true, b);
    PlaceFacts(m, id, b, p);
    AddrOwner(m, id);
    if m.newTable[b][p] != id {
      ClearedSpares(m, b, p, id);
      ClearedNewKeeps(m, b, p);
      ClearedSlot(m, b, p);
      PutTwice(m.newTable, b, p, -1, id);
    }
  }

  lemma ClearedSlot(m: Manager, b: int, p: int)
    requires Linked(m) && 0 <= b < NEW_BUCKET_COUNT && 0 <= p < BUCKET_SIZE
    ensures |m.newTable| == NEW_BUCKET_COUNT && |m.newTable[b]| == BUCKET_SIZE
    ensures ClearedNew(m, b, p).newTable == Put(m.newTable, b, p, -1)
  {
    hide Linked, NewIds, Limbo, Deleted;
    NewSlotFacts(m, b, p);
    if m.newTable[b][p] == -1 {
      assert m.newTable[b][p := -1] == m.newTable[b];
    } else {
      UnreferencedKeeps(m, b, p);
      if m.info[m.newTable[b][p]].refCount == 1 {
        DeletedKeeps(Unreferenced(m, b, p), m.newTable[b][p]);
        DeletedOthers(Unreferenced(m, b, p), m.newTable[b][p]);
      }
    }
  }

  lemma ClearedSpares(c: Manager, b: int, p: int, id: int)
    requires Linked(c) && 0 <= b < NEW_BUCKET_COUNT && 0 <= p < BUCKET_SIZE && id in NewIds(c.info) && id in c.info
    requires c.newTable[b][p] != id
    ensures var n := ClearedNew(c, b, p);
            && id in n.info && n.info[id].(randomPos := c.info[id].randomPos) == c.info[id]
            && c.info[id].svc.ip in n.addrs && n.addrs[c.info[id].svc.ip] == id
  {
    hide IdsOk, TablesOk, NewIds, Limbo, TriedIds, SameCore;
    NewSlotFacts(c, b, p);
  }

  lemma NextIdFree(m: Manager)
    requires Linked(m)
    ensures m.idCount >= 0 && m.idCount !in m.info
  {
  }

  lemma CreatedThenDeleted(m: Manager, a: Address, pen: int, source: nat)
    requires Linked(m) && a.svc.ip !in m.addrs
    ensures var c := CreatedNew(m, a, pen, source);
            CanDelete(c, m.idCount) && Deleted(c, m.idCount) == m.(idCount := m.idCount + 1)
  {
    hide RandomOk, AddrsOk, TablesOk, NewIds, Limbo, TriedIds;
    LinkedLists(m);
    var c := CreatedNew(m, a, pen, source);
    assert c.random[..|m.random|] == m.random;
    assert c.info - {m.idCount} == m.info;
    assert c.addrs - {a.svc.ip} == m.addrs;
  }

  lemma LinkedLists(m: Manager)
    requires Linked(m)
    ensures forall i :: 0 <= i < |m.random| ==> m.random[i] in m.info
  {
  }

  // ---------------------------------------------------------------- statistics

  /** A service is known when some entry is stored for exactly it, and that entry is the one found. */
  lemma KnownIsStored(m: Manager, svc: Service)
    requires Linked(m)
    ensures Known(m, svc) <==> exists id :: id in m.info && m.info[id].svc == svc
    ensures forall id :: id in m.info && m.info[id].svc == svc ==> svc.ip in m.addrs && m.addrs[svc.ip] == id
  {
    hide IdsOk, RandomOk, TablesOk;
    if Known(m, svc) {
      var id := m.addrs[svc.ip];
      assert id in m.info && m.info[id].svc == svc;
    }
  }

  /** Attempt_ changes no entry but the one for the service: its last try, and its failures by one if
      they are to be counted and the last counted one is older than the last success of any entry. */
  lemma AttemptOutcome(m: Manager, svc: Service, countFailure: bool, time: int)
    requires Linked(m)
    ensures var n := AttemptSpec(m, svc, countFailure, time);
            && n == m.(info := n.info) && n.info.Keys == m.info.Keys
            && forall id :: id in m.info ==>
                 var i, j := m.info[id], n.info[id];
                 if i.svc != svc then j == i else
                   var counted := countFailure && i.lastCountAttempt < m.lastGood;
                   && j == i.(lastTry := time, attempts := j.attempts, lastCountAttempt := j.lastCountAttempt)
                   && j.attempts == (if counted then i.attempts + 1 else i.attempts)
                   && j.lastCountAttempt == if counted then time else i.lastCountAttempt
  {
    hide Linked;
    KnownIsStored(m, svc);
  }

  ghost function Attempted(m: Manager, svc: Service, times: seq<int>): Manager {
    if times == [] then m
    else AttemptSpec(Attempted(m, svc, times[..|times| - 1]), svc, true, times[|times| - 1])
  }

  /** However often an address is tried after the last success of any, its failures go up once. */
  lemma {:induction false} FailuresCountOnce(m: Manager, svc: Service, times: seq<int>)
    requires Known(m, svc) && forall k :: 0 <= k < |times| ==> times[k] >= m.lastGood
    ensures var n, id := Attempted(m, svc, times), m.addrs[svc.ip];
            && Known(n, svc) && n.addrs == m.addrs && n.lastGood == m.lastGood
            && n.info[id].attempts ==
               m.info[id].attempts + (if times != [] && m.info[id].lastCountAttempt < m.lastGood then 1 else 0)
            && (times != [] ==> n.info[id].lastCountAttempt >= m.lastGood)
            && (times == [] ==> n == m)
  {
    if times != [] {
      FailuresCountOnce(m, svc, times[..|times| - 1]);
    }
  }

  /** Connected_ leaves the entry for the service seen at most twenty minutes before, and the time of
      one that already was, like everything else, alone. */
  lemma ConnectedOutcome(m: Manager, svc: Service, time: int)
    requires Linked(m)
    ensures var n := ConnectedSpec(m, svc, time);
            && n == m.(info := n.info) && n.info.Keys == m.info.Keys
            && forall id :: id in m.info ==>
                 && n.info[id] == m.info[id].(time := n.info[id].time)
                 && (m.info[id].svc != svc || m.info[id].time >= time - 20 * 60 ==> n.info[id].time == m.info[id].time)
                 && (m.info[id].svc == svc ==> n.info[id].time >= time - 20 * 60 && n.info[id].time >= m.info[id].time)
                 && (m.info[id].time < n.info[id].time ==> n.info[id].time == time)
  {
    hide Linked;
    KnownIsStored(m, svc);
  }

  lemma SetServicesOutcome(m: Manager, svc: Service, services: bv64)
    requires Linked(m)
    ensures var n := SetServicesSpec(m, svc, services);
            && n == m.(info := n.info) && n.info.Keys == m.info.Keys
            && forall id :: id in m.info ==>
                 n.info[id] == m.info[id].(services := if m.info[id].svc == svc then services else m.info[id].services)
  {
    hide Linked;
    KnownIsStored(m, svc);
  }

  /** What an entry must have done to be overwritten or withheld: not tried within the last minute, and
      seen in the future, never, or not for thirty days, or failed three times without any success,
      or ten times with none in a week. */
  lemma TerribleWhen(i: Info, now: int)
    ensures i.lastTry != 0 && now - i.lastTry <= 60 ==> !IsTerrible(i, now)
    ensures 0 < now - i.time <= 2592000 && i.time != 0 && i.attempts < 3 ==> !IsTerrible(i, now)
    ensures 0 < now - i.time <= 2592000 && i.time != 0 && now - i.lastSuccess <= 604800 && i.lastSuccess != 0 ==>
              !IsTerrible(i, now)
    ensures (i.lastTry == 0 || now - i.lastTry > 60) ==>
              (IsTerrible(i, now) <==>
                 || i.time == 0 || i.time - now > 600 || now - i.time > 2592000
                 || (i.attempts >= 3 && i.lastSuccess == 0) || (i.attempts >= 10 && now - i.lastSuccess > 604800))
  {
  }

  /** An entry whose success was just reported is not terrible for the minute after. */
  lemma GoodIsNotTerrible(m: Manager, svc: Service, testBeforeEvict: bool, time: int, now: int)
    requires Check(m) && Known(m, svc) && time != 0 && now - time <= 60
    ensures Linked(m) && Limbo(m.info) == {}
    ensures var n := GoodSpec(m, svc, testBeforeEvict, time);
            m.addrs[svc.ip] in n.info && !IsTerrible(n.info[m.addrs[svc.ip]], now)
  {
    hide Check, Linked, Limbo, GoodSpec;
    GoodOutcome(m, svc, testBeforeEvict, time);
  }

  // ---------------------------------------------------------------- how a collision is remembered

  /** An unseen address whose slot is empty: one entry and one slot more, and nothing else. */
  lemma AddToEmptySlot(m: Manager, a: Address, source: nat, penalty: int, now: int, lucky: bool)
    requires Check(m) && m.hashes.isRoutable(a.svc.ip) && a.svc.ip !in m.addrs
    requires var b := NewBucket(m.hashes, a.svc, source);
             Dims(m.newTable, NEW_BUCKET_COUNT) && m.newTable[b][Position(m.hashes, a.svc, true, b)] == -1
    ensures Linked(m) && Limbo(m.info) == {}
    ensures var n := AddSpec(m, a, source, penalty, now, lucky);
            var b := NewBucket(m.hashes, a.svc, source);
            && n.newTable == Put(m.newTable, b, Position(m.hashes, a.svc, true, b), m.idCount)
            && n.triedTable == m.triedTable && n.hashes == m.hashes && n.collisions == m.collisions
            && n.idCount == m.idCount + 1 && n.info.Keys == m.info.Keys + {m.idCount} && m.idCount !in m.info
            && (forall x :: x in m.info ==> n.info[x] == m.info[x])
            && n.info[m.idCount].svc == a.svc && !n.info[m.idCount].inTried && n.addrs == m.addrs[a.svc.ip := m.idCount]
  {
    hide Check, Linked, Limbo, Surplus, NewIds, IsTerrible, Deleted, Position, NewBucket;
    CheckIsKept(m);
    NextIdFree(m);
    CreatedNewLinked(m, a, Penalty(a, source, penalty), source);
    var c := CreatedNew(m, a, Penalty(a, source, penalty), source);
    var b := NewBucket(m.hashes, a.svc, source);
    PlaceFacts(c, m.idCount, b, Position(m.hashes, a.svc, true, b));
  }

  /** Moving to a free tried slot loses no entry, and changes no other's table. */
  lemma PromotionKeepsAll(m: Manager, svc: Service, testBeforeEvict: bool, time: int)
    requires Check(m) && Promotes(m, svc, testBeforeEvict) && !TriedFilled(m, svc)
    ensures Linked(m) && Limbo(m.info) == {}
    ensures var n, id := GoodSpec(m, svc, testBeforeEvict, time), m.addrs[svc.ip];
            && n.info.Keys == m.info.Keys && n.hashes == m.hashes && Check(n)
            && forall x :: x in m.info && x != id ==>
                 n.info[x].svc == m.info[x].svc && n.info[x].inTried == m.info[x].inTried
  {
    hide Check, Linked, Limbo, Surplus, NewIds, MadeTried, InSomeBucket, Evolves, TriedBucket, TriedPosition, Put,
         SameCore;
    CheckIsKept(m);
    TriedRows(m);
    var id, m0 := m.addrs[svc.ip], m.(lastGood := time);
    var j := m.info[id].(lastSuccess := time, lastTry := time, attempts := 0);
    var m1 := Touched(m0, id, j);
    UntriedHasRefs(m, id);
    LinkedAnyTime(m, time);
    TouchedKeeps(m0, id, j);
    UntriedIsInSomeBucket(m1, id);
    MadeTriedAll(m1, id);
    GoodMoves(m, svc, testBeforeEvict, time);
    MovesFacts(m, GoodSpec(m, svc, testBeforeEvict, time));
    CheckIsKept(GoodSpec(m, svc, testBeforeEvict, time));
  }

  lemma MadeTriedAll(m: Manager, id: int)
    requires Linked(m) && id in NewIds(m.info) && id in m.info && !TriedFilled(m, m.info[id].svc)
    ensures var n := MadeTried(m, id);
            && n.info.Keys == m.info.Keys && n.hashes == m.hashes
            && forall x :: x in m.info && x != id ==>
                 n.info[x].svc == m.info[x].svc && n.info[x].inTried == m.info[x].inTried
  {
    hide Linked, NewIds, Limbo, DroppedRefs, TriedBucket, TriedPosition, Put;
    TriedRows(m);
    DroppedIsIdle(m, id);
    DroppedRefsKeeps(m, id, NEW_BUCKET_COUNT);
    var d := Uprooted(m, id);
    assert forall x :: x in d.info <==> x in m.info;
    assert forall x :: x in MadeTried(m, id).info <==> x in d.info;
  }

  /** Two services that compete for one tried slot. */
  ghost predicate Compete(h: Hashes, s: Service, t: Service) {
    s.ip != t.ip && TriedBucket(h, s) == TriedBucket(h, t) && TriedPosition(h, s) == TriedPosition(h, t)
  }

  ghost predicate NewSlotsDiffer(h: Hashes, s: Service, t: Service, source: nat) {
    var b, c := NewBucket(h, s, source), NewBucket(h, t, source);
    b != c || Position(h, s, true, b) != Position(h, t, true, c)
  }

  /** Such collisions do occur: two addresses are added, the second succeeds, then the first. */
  lemma CollisionIsReached(h: Hashes, a: Address, b: Address, source: nat, now: int, time: int)
    returns (trace: seq<Manager>)
    requires h.isRoutable(a.svc.ip) && h.isRoutable(b.svc.ip)
    requires Compete(h, a.svc, b.svc) && NewSlotsDiffer(h, a.svc, b.svc, source)
    ensures var calls := [Add(a, source, 0, now, true), Add(b, source, 0, now, true), Good(b.svc, true, time),
                          Good(a.svc, true, time)];
            IsRun(Cleared(h, {}), calls, trace) && trace[4].collisions == {0}
  {
    hide StepTo, Check, TriedFilled, TriedBucket, TriedPosition, NewSlotsDiffer, Known;
    var m0, m1, m2 := TwoAdded(h, a, b, source, now);
    var m3 := SecondSucceeds(m2, a.svc, b.svc, time);
    var m4 := FirstCollides(m3, a.svc, time);
    trace := [m0, m1, m2, m3, m4];
  }

  /** From a fresh manager, through such a run, a Clear with any key, one added address and one
      selection: the manager holds an entry under id -1. */
  lemma ClearAfterCollisionCorrupts(h: Hashes, key: Hashes, a: Address, b: Address, c: Address, source: nat, now: int,
                                    time: int)
    returns (trace: seq<Manager>)
    requires h.isRoutable(a.svc.ip) && h.isRoutable(b.svc.ip) && key.isRoutable(c.svc.ip)
    requires Compete(h, a.svc, b.svc) && NewSlotsDiffer(h, a.svc, b.svc, source)
    ensures var calls := [Add(a, source, 0, now, true), Add(b, source, 0, now, true), Good(b.svc, true, time),
                          Good(a.svc, true, time)];
            IsRun(Cleared(h, {}), calls, trace) && trace[4].collisions == {0}
    ensures var cleared := Cleared(key, trace[4].collisions);
            && Linked(cleared) && Limbo(cleared.info) == {}
            && var m := AddSpec(cleared, c, source, 0, now, true);
               && Check(m) && 0 in m.collisions
               && -1 in SelectCollisionSpec(m, 0).info && !Check(SelectCollisionSpec(m, 0))
  {
    hide Check, Linked, Limbo, AddSpec, SelectCollisionSpec, Cleared, IsRun, Compete, NewSlotsDiffer;
    trace := CollisionIsReached(h, a, b, source, now, time);
    StaleCollisionCorrupts(key, c, source, 0, now, true);
  }

  lemma SecondSucceeds(m: Manager, s: Service, t: Service, time: int) returns (n: Manager)
    requires Check(m) && Compete(m.hashes, s, t) && m.triedTable == EmptyTable(TRIED_BUCKET_COUNT)
    requires 0 in m.info && m.info[0].svc == s && !m.info[0].inTried
    requires 1 in m.info && m.info[1].svc == t && !m.info[1].inTried && t.ip in m.addrs && m.addrs[t.ip] == 1
    ensures StepTo(m, Good(t, true, time), n) && Check(n) && n.collisions == m.collisions
    ensures Known(n, s) && n.addrs[s.ip] == 0 && !n.info[0].inTried && TriedFilled(n, s)
  {
    hide Check, Linked, Limbo, Surplus, TriedBucket, TriedPosition, Put, GoodSpec;
    CheckIsKept(m);
    GoodOutcome(m, t, true, time);
    PromotionKeepsAll(m, t, true, time);
    n := GoodSpec(m, t, true, time);
    CheckIsKept(n);
    AddrOwner(n, 0);
    FilledByPut(m, n, s, t, 1);
  }

  lemma FirstCollides(m: Manager, s: Service, time: int) returns (n: Manager)
    requires Check(m) && Known(m, s) && !m.info[m.addrs[s.ip]].inTried && TriedFilled(m, s) && m.collisions == {}
    ensures StepTo(m, Good(s, true, time), n) && n.collisions == {m.addrs[s.ip]}
  {
    hide Check, Linked, Limbo, Surplus, TriedBucket, TriedPosition, Put, GoodSpec, TriedFilled;
    CheckIsKept(m);
    GoodOutcome(m, s, true, time);
    n := GoodSpec(m, s, true, time);
  }

  /** Entry 0 for the first address and entry 1 for the second, both new. */
  lemma TwoAdded(h: Hashes, a: Address, b: Address, source: nat, now: int)
    returns (m0: Manager, m1: Manager, m2: Manager)
    requires h.isRoutable(a.svc.ip) && h.isRoutable(b.svc.ip) && a.svc.ip != b.svc.ip
    requires NewSlotsDiffer(h, a.svc, b.svc, source)
    ensures m0 == Cleared(h, {}) && StepTo(m0, Add(a, source, 0, now, true), m1)
    ensures StepTo(m1, Add(b, source, 0, now, true), m2)
    ensures Check(m2) && m2.hashes == h && m2.collisions == {} && m2.triedTable == EmptyTable(TRIED_BUCKET_COUNT)
    ensures 0 in m2.info && m2.info[0].svc == a.svc && !m2.info[0].inTried
    ensures 1 in m2.info && m2.info[1].svc == b.svc && !m2.info[1].inTried && b.svc.ip in m2.addrs
    ensures m2.addrs[b.svc.ip] == 1
  {
    hide Check, AddSpec, Linked, Limbo, Surplus, Position, NewBucket;
    m0 := Cleared(h, {});
    ClearedOk(h, {});
    AddToEmptySlot(m0, a, source, 0, now, true);
    m1 := AddSpec(m0, a, source, 0, now, true);
    CheckIsKept(m0);
    AddKept(m0, a, source, 0, now, true);
    CheckIsKept(m1);
    NewRows(m1);
    AddToEmptySlot(m1, b, source, 0, now, true);
    m2 := AddSpec(m1, b, source, 0, now, true);
    AddKept(m1, b, source, 0, now, true);
    CheckIsKept(m2);
  }

  lemma FilledByPut(m: Manager, n: Manager, s: Service, t: Service, id: int)
    requires Compete(m.hashes, s, t) && n.hashes == m.hashes && id != -1
    requires var b, p := TriedBucket(m.hashes, t), TriedPosition(m.hashes, t);
             b < |m.triedTable| && p < |m.triedTable[b]| && n.triedTable == Put(m.triedTable, b, p, id)
    ensures TriedFilled(n, s)
  {
  }
}
