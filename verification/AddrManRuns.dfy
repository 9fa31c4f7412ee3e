/** The public operations of the address manager and what every run of them keeps
    (src/addrman.cpp). */
module AddrManRuns {
  import opened AddrManSpec
  import opened AddrManOps
  import opened Common

  lemma CheckIsKept(m: Manager)
    ensures Check(m) <==> Linked(m) && Limbo(m.info) == {} && Surplus(m) == 0
  {
  }

  lemma EvolvesTwice(m: Manager, n: Manager, k: Manager)
    requires IdsOk(m.info, m.idCount) && Evolves(m, n) && Evolves(n, k)
    ensures Evolves(m, k)
  {
  }

  lemma IdFacts(m: Manager)
    requires Linked(m)
    ensures IdsOk(m.info, m.idCount)
  {
  }

  lemma AddrFacts(m: Manager, ip: nat)
    requires Linked(m) && ip in m.addrs
    ensures m.addrs[ip] in m.info && m.info[m.addrs[ip]].svc.ip == ip
  {
  }

  lemma UntriedHasRefs(m: Manager, id: int)
    requires Linked(m) && Limbo(m.info) == {} && id in m.info && !m.info[id].inTried
    ensures id in NewIds(m.info) && 1 <= m.info[id].refCount <= NEW_BUCKETS_PER_ADDRESS
  {
    assert id !in Limbo(m.info);
  }

  // ---------------------------------------------------------------- Add_

  function Penalty(a: Address, source: nat, penalty: int): int {
    if a.svc.ip == source then 0 else penalty
  }

  function RefreshedTime(i: Info, a: Address, penalty: int, now: int): int {
    var interval := if now - a.time < 24 * 60 * 60 then 60 * 60 else 24 * 60 * 60;
    if a.time != 0 && (i.time == 0 || i.time < a.time - interval - penalty) then Max(0, a.time - penalty) else i.time
  }

  function Refreshed(i: Info, a: Address, penalty: int, now: int): Info {
    i.(time := RefreshedTime(i, a, penalty, now), services := i.services | a.services)
  }

  /** Whether a known entry, already refreshed, may get one more reference. */
  predicate WantsReference(j: Info, a: Address, lucky: bool) {
    && !(a.time == 0 || (j.time != 0 && a.time <= j.time))
    && !j.inTried
    && j.refCount != NEW_BUCKETS_PER_ADDRESS
    && (j.refCount == 0 || lucky)
  }

  /** `lucky` is the outcome of the draw that makes further references ever rarer. */
  ghost function AddSpec(m: Manager, a: Address, source: nat, penalty: int, now: int, lucky: bool): Manager
    requires Linked(m) && Limbo(m.info) == {}
  {
    var pen := Penalty(a, source, penalty);
    if !m.hashes.isRoutable(a.svc.ip) then m
    else if a.svc.ip in m.addrs then
      AddrFacts(m, a.svc.ip);
      var id := m.addrs[a.svc.ip];
      var j := Refreshed(m.info[id], a, pen, now);
      if !WantsReference(j, a, lucky) then Touched(m, id, j)
      else
        UntriedHasRefs(m, id);
        TouchedKeeps(m, id, j);
        Placed(Touched(m, id, j), id, source, now)
    else
      CreatedNewLinked(m, a, pen, source);
      Placed(CreatedNew(m, a, pen, source), m.idCount, source, now)
  }

  ghost function CreatedNew(m: Manager, a: Address, penalty: int, source: nat): Manager {
    var c := Created(m, a.svc, Max(0, a.time - penalty), a.services, source);
    c.(nNew := c.nNew + 1)
  }

  lemma CreatedNewLinked(m: Manager, a: Address, pen: int, source: nat)
    requires Linked(m) && a.svc.ip !in m.addrs
    ensures var c := CreatedNew(m, a, pen, source);
            && Linked(c) && m.idCount in NewIds(c.info) && m.idCount in c.info && c.info[m.idCount].refCount == 0
            && Limbo(c.info) == Limbo(m.info) + {m.idCount} && Surplus(c) == Surplus(m)
            && m.idCount !in m.info
  {
    hide IdsOk, RandomOk, AddrsOk, TablesOk, TriedIds, NewIds, Limbo, Created;
    CreatedKeeps(m, a.svc, Max(0, a.time - pen), a.services, source);
    CreatedEntry(m, a.svc, Max(0, a.time - pen), a.services, source);
  }

  lemma CreatedEntry(m: Manager, svc: Service, time: int, services: bv64, source: nat)
    ensures var c := Created(m, svc, time, services, source);
            && c.nNew == m.nNew && m.idCount in NewIds(c.info) && m.idCount in c.info && c.info[m.idCount].refCount == 0
            && (m.idCount !in m.info ==> m.idCount !in NewIds(m.info))
  {
  }

  /** The return value: true for an address not seen before, even when no slot took it. */
  ghost predicate AddReturns(m: Manager, a: Address) {
    m.hashes.isRoutable(a.svc.ip) && a.svc.ip !in m.addrs
  }

  lemma AddKept(m: Manager, a: Address, source: nat, penalty: int, now: int, lucky: bool)
    requires Linked(m) && Limbo(m.info) == {} && Surplus(m) == 0
    ensures Kept(m, AddSpec(m, a, source, penalty, now, lucky))
  {
    hide Linked, Limbo, Surplus, Placed, Touched, Evolves, Refreshed, WantsReference, Penalty, CreatedNew;
    var pen := Penalty(a, source, penalty);
    if !m.hashes.isRoutable(a.svc.ip) {
      SubsetEvolves(m, m);
    } else if a.svc.ip in m.addrs {
      AddKnownKept(m, a, source, pen, now, lucky);
    } else {
      AddUnknownKept(m, a, source, pen, now);
    }
  }

  lemma AddKnownKept(m: Manager, a: Address, source: nat, pen: int, now: int, lucky: bool)
    requires Linked(m) && Limbo(m.info) == {} && Surplus(m) == 0 && a.svc.ip in m.addrs
    ensures m.addrs[a.svc.ip] in m.info
    ensures var id := m.addrs[a.svc.ip];
            var j := Refreshed(m.info[id], a, pen, now);
            && Kept(m, Touched(m, id, j))
            && (WantsReference(j, a, lucky) ==>
                  && Linked(Touched(m, id, j)) && id in NewIds(Touched(m, id, j).info)
                  && j.refCount < NEW_BUCKETS_PER_ADDRESS
                  && Kept(m, Placed(Touched(m, id, j), id, source, now)))
  {
    hide Linked, NewIds, Limbo, Evolves, IdsOk, RefreshedTime, Placed;
    AddrFacts(m, a.svc.ip);
    IdFacts(m);
    var id := m.addrs[a.svc.ip];
    var j := Refreshed(m.info[id], a, pen, now);
    if !j.inTried {
      UntriedHasRefs(m, id);
    }
    TouchedKeeps(m, id, j);
    TouchedEvolves(m, id, j);
    if WantsReference(j, a, lucky) {
      var m1 := Touched(m, id, j);
      assert m1.info[id] == j;
      PlacedKeeps(m1, id, source, now);
      EvolvesTwice(m, m1, Placed(m1, id, source, now));
    }
  }

  lemma TouchedEvolves(m: Manager, id: int, entry: Info)
    requires id in m.info && entry.svc == m.info[id].svc
    ensures Evolves(m, Touched(m, id, entry))
  {
  }

  lemma AddUnknownKept(m: Manager, a: Address, source: nat, pen: int, now: int)
    requires Linked(m) && Limbo(m.info) == {} && Surplus(m) == 0 && a.svc.ip !in m.addrs
    ensures var c := CreatedNew(m, a, pen, source);
            && Linked(c) && m.idCount in NewIds(c.info) && c.info[m.idCount].refCount == 0
            && Kept(m, Placed(c, m.idCount, source, now))
  {
    hide Linked, IdsOk, NewIds, Limbo, Surplus, Evolves, Placed, CreatedNew;
    IdFacts(m);
    CreatedNewLinked(m, a, pen, source);
    CreatedEvolves(m, a, pen, source);
    var c := CreatedNew(m, a, pen, source);
    PlacedKeeps(c, m.idCount, source, now);
    EvolvesTwice(m, c, Placed(c, m.idCount, source, now));
    KeptCollisions(m, a, pen, source);
  }

  lemma KeptCollisions(m: Manager, a: Address, pen: int, source: nat)
    ensures CreatedNew(m, a, pen, source).collisions == m.collisions
  {
  }

  lemma CreatedEvolves(m: Manager, a: Address, pen: int, source: nat)
    requires m.idCount !in m.info
    ensures Evolves(m, CreatedNew(m, a, pen, source))
  {
  }

  // ---------------------------------------------------------------- collisions

  /** Every remembered collision is about an id already handed out, and if its entry
      still exists, the tried slot it competes for is filled. */
  ghost predicate CollisionsOk(m: Manager) {
    forall x :: x in m.collisions ==> x < m.idCount && (x in m.info ==> TriedFilled(m, m.info[x].svc))
  }

  ghost predicate TriedFilled(m: Manager, s: Service) {
    var b, p := TriedBucket(m.hashes, s), TriedPosition(m.hashes, s);
    b < |m.triedTable| && p < |m.triedTable[b]| && m.triedTable[b][p] != -1
  }

  /** One operation's guarantee. */
  ghost predicate Moves(m: Manager, n: Manager) {
    && Linked(n) && Limbo(n.info) == {} && Surplus(n) == 0
    && Evolves(m, n)
    && (CollisionsOk(m) ==> CollisionsOk(n))
  }

  lemma FilledStaysFilled(m: Manager, n: Manager, s: Service)
    requires Evolves(m, n) && TriedFilled(m, s)
    ensures TriedFilled(n, s)
  {
  }

  lemma EvolvesKeepsCollisions(m: Manager, n: Manager)
    requires Evolves(m, n) && n.collisions <= m.collisions
    ensures CollisionsOk(m) ==> CollisionsOk(n)
  {
  }

  lemma KeptMoves(m: Manager, n: Manager)
    requires Kept(m, n)
    ensures Moves(m, n)
  {
  }

  lemma MovesTwice(m: Manager, n: Manager, k: Manager)
    requires Linked(m) && Moves(m, n) && Moves(n, k)
    ensures Moves(m, k)
  {
    hide Linked, Limbo, Surplus, Evolves, CollisionsOk, IdsOk;
    IdFacts(m);
    EvolvesTwice(m, n, k);
  }

  // ---------------------------------------------------------------- Good_

  ghost predicate InSomeBucket(m: Manager, id: int)
    requires id in m.info
  {
    exists b :: Holds(m, id, b)
  }

  ghost predicate Holds(m: Manager, id: int, b: int)
    requires id in m.info
  {
    0 <= b < |m.newTable| && var p := Position(m.hashes, m.info[id].svc, true, b);
    p < |m.newTable[b]| && m.newTable[b][p] == id
  }

  /** The search in Good_ always finds a bucket, so "something bad happened" is dead. */
  lemma UntriedIsInSomeBucket(m: Manager, id: int)
    requires Linked(m) && Limbo(m.info) == {} && id in m.info && !m.info[id].inTried
    ensures InSomeBucket(m, id)
  {
    UntriedHasRefs(m, id);
    assert -1 !in m.info;
    assert SlotsOf(m.newTable, id) != {};
    var slot :| slot in SlotsOf(m.newTable, id);
    NewSlotFacts(m, slot.0, slot.1);
    assert Holds(m, id, slot.0);
  }

  ghost function GoodSpec(m: Manager, svc: Service, testBeforeEvict: bool, time: int): Manager
    requires Linked(m) && Limbo(m.info) == {}
  {
    var m0 := m.(lastGood := time);
    if !Known(m, svc) then m0 else
      var id := m.addrs[svc.ip];
      var j := m.info[id].(lastSuccess := time, lastTry := time, attempts := 0);
      var m1 := Touched(m0, id, j);
      if j.inTried || !InSomeBucket(m1, id) then m1
      else if testBeforeEvict && TriedFilled(m, svc) then
        if |m.collisions| < SET_TRIED_COLLISION_SIZE then m1.(collisions := m.collisions + {id}) else m1
      else
        UntriedHasRefs(m, id);
        TouchedKeeps(m0, id, j);
        MadeTried(m1, id)
  }

  lemma GoodMoves(m: Manager, svc: Service, testBeforeEvict: bool, time: int)
    requires Linked(m) && Limbo(m.info) == {} && Surplus(m) == 0
    ensures Moves(m, GoodSpec(m, svc, testBeforeEvict, time))
  {
    hide Linked, Limbo, Surplus, NewIds, Moves, MadeTried, Touched, InSomeBucket, TriedFilled;
    LastGoodMoves(m, time);
    if Known(m, svc) {
      GoodKnownMoves(m, svc, time);
    }
  }

  lemma LastGoodMoves(m: Manager, time: int)
    requires Linked(m) && Limbo(m.info) == {} && Surplus(m) == 0
    ensures Linked(m.(lastGood := time)) && Moves(m, m.(lastGood := time))
  {
  }

  lemma GoodKnownMoves(m: Manager, svc: Service, time: int)
    requires Linked(m) && Limbo(m.info) == {} && Surplus(m) == 0 && Known(m, svc)
    ensures var id := m.addrs[svc.ip];
            var j := m.info[id].(lastSuccess := time, lastTry := time, attempts := 0);
            var m1 := Touched(m.(lastGood := time), id, j);
            && Moves(m, m1)
            && (TriedFilled(m, svc) ==> Moves(m, m1.(collisions := m.collisions + {id})))
            && (!j.inTried ==> Linked(m1) && id in NewIds(m1.info) && Moves(m, MadeTried(m1, id)))
  {
    hide Linked, Limbo, NewIds, CollisionsOk, Evolves, Moves;
    var id, m0 := m.addrs[svc.ip], m.(lastGood := time);
    var j := m.info[id].(lastSuccess := time, lastTry := time, attempts := 0);
    if !j.inTried {
      UntriedHasRefs(m, id);
    }
    LastGoodMoves(m, time);
    TouchMoves(m, m0, id, j);
    var m1 := Touched(m0, id, j);
    if TriedFilled(m, svc) {
      RememberMoves(m, m1, id);
    }
    if !j.inTried {
      MadeTriedMoves(m, m1, id);
    }
  }

  lemma TouchMoves(m: Manager, m0: Manager, id: int, j: Info)
    requires Linked(m) && Linked(m0) && Moves(m, m0) && id in m0.info && Limbo(m0.info) == {} && Surplus(m0) == 0
    requires j.svc == m0.info[id].svc && j.inTried == m0.info[id].inTried
    requires j.refCount == m0.info[id].refCount && j.randomPos == m0.info[id].randomPos
    ensures Linked(Touched(m0, id, j)) && Moves(m, Touched(m0, id, j))
    ensures NewIds(Touched(m0, id, j).info) == NewIds(m0.info) && Limbo(Touched(m0, id, j).info) == {}
    ensures Surplus(Touched(m0, id, j)) == 0
  {
    hide Linked, Limbo, NewIds, CollisionsOk, Evolves;
    TouchedKeeps(m0, id, j);
    TouchedEvolves(m0, id, j);
    var m1 := Touched(m0, id, j);
    EvolvesKeepsCollisions(m0, m1);
    assert Moves(m0, m1);
    hide Moves;
    MovesTwice(m, m0, m1);
  }

  lemma RememberMoves(m: Manager, m1: Manager, id: int)
    requires Moves(m, m1) && id in m1.info && id in m.info && TriedFilled(m, m1.info[id].svc)
    requires m1.collisions == m.collisions
    ensures Moves(m, m1.(collisions := m.collisions + {id}))
  {
    hide Linked, Limbo, NewIds, CollisionsOk, TriedFilled;
    FilledStaysFilled(m, m1, m1.info[id].svc);
    LinkedWithoutCollisions(m1, m.collisions + {id});
    IdFacts(m1);
    if CollisionsOk(m1) {
      RememberedOk(m1, id);
    }
  }

  lemma LinkedWithoutCollisions(m: Manager, collisions: set<int>)
    requires Linked(m)
    ensures Linked(m.(collisions := collisions))
  {
  }

  lemma RememberedOk(m: Manager, id: int)
    requires CollisionsOk(m) && id in m.info && id < m.idCount && TriedFilled(m, m.info[id].svc)
    ensures CollisionsOk(m.(collisions := m.collisions + {id}))
  {
  }

  lemma MadeTriedMoves(m: Manager, m1: Manager, id: int)
    requires Linked(m) && Moves(m, m1) && Linked(m1) && id in NewIds(m1.info) && Limbo(m1.info) == {}
    requires Surplus(m1) == 0
    ensures Moves(m, MadeTried(m1, id))
  {
    hide Linked, Limbo, NewIds, CollisionsOk, Evolves, MadeTried, Surplus;
    MadeTriedKeeps(m1, id);
    EvolvesKeepsCollisions(m1, MadeTried(m1, id));
    assert Moves(m1, MadeTried(m1, id));
    hide Moves;
    MovesTwice(m, m1, MadeTried(m1, id));
  }

  // ---------------------------------------------------------------- ResolveCollisions_

  datatype Verdict = Forget | Wait | Replace

  /** The clock is read up to four times for one collision: against the holder's last success,
      against its last try, for the grace period or the test window, and for the newcomer. */
  datatype Readings = Readings(success: int, attempt: int, limit: int, good: int)

  /** What one turn of the loop decides about a remembered collision. */
  ghost function Judge(m: Manager, id: int, now: Readings): Verdict {
    if id !in m.info then Forget else
      var newcomer := m.info[id];
      var b, p := TriedBucket(m.hashes, newcomer.svc), TriedPosition(m.hashes, newcomer.svc);
      if !m.hashes.isValid(newcomer.svc.ip) then Forget
      else if b < |m.triedTable| && p < |m.triedTable[b]| && m.triedTable[b][p] in m.info then
        var held := m.info[m.triedTable[b][p]];
        if now.success - held.lastSuccess < REPLACEMENT_HOURS * 3600 then Forget
        else if now.attempt - held.lastTry < REPLACEMENT_HOURS * 3600 then
          (if now.limit - held.lastTry > 60 then Replace else Wait)
        else if now.limit - newcomer.lastSuccess > TEST_WINDOW then Replace
        else Wait
      else Replace
  }

  ghost function ResolvedOne(m: Manager, id: int, now: Readings): Manager
    requires Linked(m) && Limbo(m.info) == {}
  {
    match Judge(m, id, now)
    case Wait => m
    case Forget => m.(collisions := m.collisions - {id})
    case Replace =>
      if id !in m.info then m else
        var n := GoodSpec(m, m.info[id].svc, false, now.good);
        n.(collisions := n.collisions - {id})
  }

  lemma ResolvedOneMoves(m: Manager, id: int, now: Readings)
    requires Linked(m) && Limbo(m.info) == {} && Surplus(m) == 0
    ensures Moves(m, ResolvedOne(m, id, now))
  {
    hide Linked, Limbo, Surplus, Moves, GoodSpec, Judge;
    SameMoves(m);
    ForgetMoves(m, m, id);
    if id in m.info {
      var n := GoodSpec(m, m.info[id].svc, false, now.good);
      GoodMoves(m, m.info[id].svc, false, now.good);
      ForgetMoves(m, n, id);
    }
  }

  lemma SameMoves(m: Manager)
    requires Linked(m) && Limbo(m.info) == {} && Surplus(m) == 0
    ensures Moves(m, m)
  {
  }

  lemma ForgetMoves(m: Manager, n: Manager, id: int)
    requires Moves(m, n)
    ensures Moves(m, n.(collisions := n.collisions - {id}))
  {
    hide IdsOk, RandomOk, AddrsOk, TablesOk, Limbo, NewIds, TriedIds, CollisionsOk;
    var k := n.(collisions := n.collisions - {id});
    SubsetEvolves(n, k);
    EvolvesKeepsCollisions(n, k);
  }

  predicate IsLeast(x: int, s: set<int>) {
    x in s && forall y :: y in s ==> x <= y
  }

  ghost function Least(s: set<int>): (x: int)
    requires s != {}
    ensures IsLeast(x, s)
  {
    assert exists x :: IsLeast(x, s) by { var _ := HasLeast(s); }
    var x :| IsLeast(x, s); x
  }

  lemma LeastIsUnique(x: int, y: int, s: set<int>)
    requires IsLeast(x, s) && IsLeast(y, s)
    ensures x == y && x in s
  {
  }

  lemma {:induction false} HasLeast(s: set<int>) returns (x: int)
    requires s != {}
    ensures IsLeast(x, s)
    decreases |s|
  {
    assert (forall z :: z !in s) ==> s == {};
    var z :| z in s;
    var rest := s - {z};
    if rest == {} {
      assert s == {z};
      x := z;
    } else {
      x := HasLeast(rest);
      forall y | y in s
        ensures y == z || x <= y
      {
        assert y == z || y in rest;
      }
      if z < x {
        x := z;
      }
    }
  }

  /** The loop over the remembered collisions, in increasing order of id. */
  ghost function ResolveFrom(m: Manager, todo: set<int>, now: int -> Readings): Manager
    requires Linked(m) && Limbo(m.info) == {} && Surplus(m) == 0
    decreases |todo|
  {
    if todo == {} then m else
      var id := Least(todo);
      ResolvedOneMoves(m, id, now(id));
      ResolveFrom(ResolvedOne(m, id, now(id)), todo - {id}, now)
  }

  lemma {:induction false} ResolveMoves(m: Manager, todo: set<int>, now: int -> Readings)
    requires Linked(m) && Limbo(m.info) == {} && Surplus(m) == 0
    ensures Moves(m, ResolveFrom(m, todo, now))
    decreases |todo|
  {
    hide Linked, Limbo, Surplus, ResolvedOne, Evolves, CollisionsOk;
    if todo == {} {
      SameMoves(m);
    } else {
      var id := Least(todo);
      ResolvedOneMoves(m, id, now(id));
      var n := ResolvedOne(m, id, now(id));
      ResolveMoves(n, todo - {id}, now);
      MovesTwice(m, n, ResolveFrom(n, todo - {id}, now));
    }
  }

  // ---------------------------------------------------------------- GetAddr_

  /** The partial shuffle: swap position n with a drawn position n + draws[n]. */
  ghost predicate DrawsOk(m: Manager, draws: seq<nat>) {
    |draws| <= |m.random| && forall n :: 0 <= n < |draws| ==> draws[n] < |m.random| - n
  }

  ghost function Shuffled(m: Manager, draws: seq<nat>, k: nat): Manager
    requires k <= |draws|
  {
    if k == 0 then m else
      var n := Shuffled(m, draws, k - 1);
      if CanSwap(n, k - 1, k - 1 + draws[k - 1]) then Swapped(n, k - 1, k - 1 + draws[k - 1]) else n
  }

  /** The entries met by the first `k` turns of the shuffle, in that order, less the terrible ones. */
  ghost function Sampled(m: Manager, draws: seq<nat>, k: nat, now: int): seq<Info>
    requires k <= |draws|
  {
    if k == 0 then [] else
      var n := Shuffled(m, draws, k);
      var id := if k <= |n.random| then n.random[k - 1] else -1;
      Sampled(m, draws, k - 1, now) + (if id in n.info && !IsTerrible(n.info[id], now) then [n.info[id]] else [])
  }

  lemma SwapMoves(m: Manager, i: int, j: int)
    requires Linked(m) && Limbo(m.info) == {} && Surplus(m) == 0 && CanSwap(m, i, j)
    ensures Moves(m, Swapped(m, i, j)) && |Swapped(m, i, j).random| == |m.random|
  {
    hide AddrsOk, TablesOk, TriedIds, NewIds, Limbo, Swapped, CollisionsOk;
    SwappedKeeps(m, i, j);
    SameCoreFrame(m.hashes, m.info, Swapped(m, i, j).info, m.addrs, m.triedTable, m.newTable);
    SubsetEvolves(m, Swapped(m, i, j));
    EvolvesKeepsCollisions(m, Swapped(m, i, j));
    hide RandomOk, Evolves;
  }

  lemma {:induction false} ShuffledMoves(m: Manager, draws: seq<nat>, k: nat)
    requires Linked(m) && Limbo(m.info) == {} && Surplus(m) == 0 && k <= |draws| && DrawsOk(m, draws)
    ensures Moves(m, Shuffled(m, draws, k)) && |Shuffled(m, draws, k).random| == |m.random|
  {
    hide Linked, Limbo, Surplus, Evolves, CollisionsOk, CanSwap, Swapped;
    if k == 0 {
      SameMoves(m);
    } else {
      ShuffledMoves(m, draws, k - 1);
      var n := Shuffled(m, draws, k - 1);
      if CanSwap(n, k - 1, k - 1 + draws[k - 1]) {
        SwapMoves(n, k - 1, k - 1 + draws[k - 1]);
        MovesTwice(m, n, Swapped(n, k - 1, k - 1 + draws[k - 1]));
      }
    }
  }

  // ---------------------------------------------------------------- SelectTriedCollision_

  const DefaultInfo: Info := Info(Service(0, 0), 100000000, 0, 0, 0, 0, 0, 0, 0, false, -1)

  ghost function TriedSlot(m: Manager, s: Service): int {
    var b, p := TriedBucket(m.hashes, s), TriedPosition(m.hashes, s);
    if b < |m.triedTable| && p < |m.triedTable[b]| then m.triedTable[b][p] else -1
  }

  /** Indexing mapInfo with an absent id inserts a default entry under that id. */
  ghost function SelectCollisionSpec(m: Manager, id: int): Manager {
    if id !in m.info then m.(collisions := m.collisions - {id})
    else
      var held := TriedSlot(m, m.info[id].svc);
      if held in m.info then m else m.(info := m.info[held := DefaultInfo])
  }

  /** The call keeps the manager consistent exactly when the entry is gone or its tried
      slot is filled. */
  lemma SelectCollisionKeepsCheck(m: Manager, id: int)
    requires Linked(m) && Limbo(m.info) == {} && Surplus(m) == 0
    ensures Check(SelectCollisionSpec(m, id)) <==> id !in m.info || TriedFilled(m, m.info[id].svc)
  {
    var n := SelectCollisionSpec(m, id);
    if id in m.info && !TriedFilled(m, m.info[id].svc) {
      TriedRows(m);
      assert -1 in n.info;
      assert !IdsOk(n.info, n.idCount);
    } else if id in m.info {
      FilledSlotIsHeld(m, m.info[id].svc);
      CheckIsKept(m);
    } else {
      hide IdsOk, RandomOk, AddrsOk, TablesOk, TriedIds, NewIds, Limbo;
      assert Linked(n);
    }
  }

  lemma FilledSlotIsHeld(m: Manager, s: Service)
    requires Linked(m) && TriedFilled(m, s)
    ensures TriedSlot(m, s) in m.info && m.info[TriedSlot(m, s)].inTried
  {
  }

  lemma SelectCollisionMoves(m: Manager, id: int)
    requires Linked(m) && Limbo(m.info) == {} && Surplus(m) == 0 && CollisionsOk(m) && id in m.collisions
    ensures Moves(m, SelectCollisionSpec(m, id))
    ensures SelectCollisionSpec(m, id).info == m.info
  {
    hide Linked, Limbo, Surplus, TriedSlot, TriedFilled;
    SameMoves(m);
    ForgetMoves(m, m, id);
    if id in m.info {
      FilledSlotIsHeld(m, m.info[id].svc);
    }
  }

  // ---------------------------------------------------------------- whole runs

  datatype Call =
    | Add(address: Address, source: nat, penalty: int, now: int, lucky: bool)
    | Good(svc: Service, testBeforeEvict: bool, time: int)
    | Attempt(svc: Service, countFailure: bool, time: int)
    | Connected(svc: Service, time: int)
    | SetServices(svc: Service, services: bv64)
    | Resolve(clock: int -> Readings)
    | GetAddr(draws: seq<nat>)
    | SelectCollision(id: int)

  /** The draws a call makes are within the ranges it asks the generator for. */
  ghost predicate Drawn(m: Manager, c: Call) {
    match c
    case GetAddr(draws) => DrawsOk(m, draws)
    case SelectCollision(id) => id in m.collisions
    case _ => true
  }

  ghost function Step(m: Manager, c: Call): Manager
    requires Linked(m) && Limbo(m.info) == {} && Surplus(m) == 0
  {
    match c
    case Add(a, source, penalty, now, lucky) => AddSpec(m, a, source, penalty, now, lucky)
    case Good(svc, test, time) => GoodSpec(m, svc, test, time)
    case Attempt(svc, count, time) => AttemptSpec(m, svc, count, time)
    case Connected(svc, time) => ConnectedSpec(m, svc, time)
    case SetServices(svc, services) => SetServicesSpec(m, svc, services)
    case Resolve(now) => ResolveFrom(m, m.collisions, now)
    case GetAddr(draws) => Shuffled(m, draws, |draws|)
    case SelectCollision(id) => SelectCollisionSpec(m, id)
  }

  lemma StatisticsMove(m: Manager, id: int, j: Info)
    requires Linked(m) && Limbo(m.info) == {} && Surplus(m) == 0 && id in m.info
    requires j.svc == m.info[id].svc && j.inTried == m.info[id].inTried
    requires j.refCount == m.info[id].refCount && j.randomPos == m.info[id].randomPos
    ensures Moves(m, Touched(m, id, j))
  {
    hide Linked, Limbo, Surplus, Moves;
    SameMoves(m);
    TouchMoves(m, m, id, j);
  }

  /** Every call keeps the structure; SelectTriedCollision_ does so because the slot it
      reads has stayed filled since the collision was noted. */
  lemma StepMoves(m: Manager, c: Call)
    requires Linked(m) && Limbo(m.info) == {} && Surplus(m) == 0 && Drawn(m, c)
    requires c.SelectCollision? ==> CollisionsOk(m)
    ensures Moves(m, Step(m, c))
  {
    hide Linked, Limbo, Surplus, Moves, AddSpec, GoodSpec, ResolveFrom, Shuffled, SelectCollisionSpec, Touched,
         CollisionsOk;
    SameMoves(m);
    match c {
      case Add(a, source, penalty, now, lucky) =>
        AddKept(m, a, source, penalty, now, lucky);
        KeptMoves(m, AddSpec(m, a, source, penalty, now, lucky));
      case Good(svc, test, time) =>
        GoodMoves(m, svc, test, time);
      case Attempt(svc, count, time) =>
        if Known(m, svc) {
          var i := m.info[m.addrs[svc.ip]].(lastTry := time);
          StatisticsMove(m, m.addrs[svc.ip], i);
          StatisticsMove(m, m.addrs[svc.ip], i.(lastCountAttempt := time, attempts := i.attempts + 1));
        }
      case Connected(svc, time) =>
        if Known(m, svc) {
          StatisticsMove(m, m.addrs[svc.ip], m.info[m.addrs[svc.ip]].(time := time));
        }
      case SetServices(svc, services) =>
        if Known(m, svc) {
          StatisticsMove(m, m.addrs[svc.ip], m.info[m.addrs[svc.ip]].(services := services));
        }
      case Resolve(now) =>
        ResolveMoves(m, m.collisions, now);
      case GetAddr(draws) =>
        ShuffledMoves(m, draws, |draws|);
      case SelectCollision(id) =>
        SelectCollisionMoves(m, id);
    }
  }

  /** A run from `start`: the managers passed through, one per call. */
  ghost predicate IsRun(start: Manager, calls: seq<Call>, trace: seq<Manager>) {
    && |trace| == |calls| + 1 && trace[0] == start
    && forall i :: 0 <= i < |calls| ==> StepTo(trace[i], calls[i], trace[i + 1])
  }

  ghost predicate StepTo(m: Manager, c: Call, n: Manager) {
    Linked(m) && Limbo(m.info) == {} && Surplus(m) == 0 ==> Drawn(m, c) && n == Step(m, c)
  }

  /** In every run from a consistent manager whose remembered collisions have their tried slots
      filled, every state passes Check_ and has them filled. */
  lemma {:induction false} RunsStayHealthy(start: Manager, calls: seq<Call>, trace: seq<Manager>, k: nat)
    requires Check(start) && CollisionsOk(start) && IsRun(start, calls, trace) && k < |trace|
    ensures Check(trace[k]) && CollisionsOk(trace[k])
  {
    hide Check, Limbo, Surplus, Linked, Moves, CollisionsOk;
    if k > 0 {
      RunsStayHealthy(start, calls, trace, k - 1);
      HealthyStep(trace[k - 1], calls[k - 1], trace[k - 1 + 1]);
    }
  }

  lemma HealthyStep(m: Manager, c: Call, n: Manager)
    requires Check(m) && CollisionsOk(m) && StepTo(m, c, n)
    ensures Check(n) && CollisionsOk(n) && Evolves(m, n) && Linked(m)
  {
    hide Check, Limbo, Surplus, Linked, Moves, CollisionsOk, Evolves;
    CheckIsKept(m);
    StepMoves(m, c);
    CheckIsKept(n);
    MovesFacts(m, n);
  }

  /** With positive clock readings the time conditions hold as well. */
  lemma {:induction false} RunsKeepTimes(start: Manager, calls: seq<Call>, trace: seq<Manager>, k: nat)
    requires Check(start) && CollisionsOk(start) && TimesOk(start) && IsRun(start, calls, trace) && k < |trace|
    requires forall i :: 0 <= i < |calls| ==> PositiveTime(calls[i])
    ensures TimesOk(trace[k])
  {
    hide Check, Limbo, Surplus, Linked, CollisionsOk, TimesOk, PositiveTime;
    if k > 0 {
      RunsKeepTimes(start, calls, trace, k - 1);
      RunsStayHealthy(start, calls, trace, k - 1);
      CheckIsKept(trace[k - 1]);
      assert StepTo(trace[k - 1], calls[k - 1], trace[k - 1 + 1]);
      StepTimes(trace[k - 1], calls[k - 1]);
    }
  }

  /** Between any two moments of such a run, ids keep their service and a filled tried slot is
      never found empty. */
  lemma {:induction false} RunsEvolve(start: Manager, calls: seq<Call>, trace: seq<Manager>, j: nat, k: nat)
    requires Check(start) && CollisionsOk(start) && IsRun(start, calls, trace) && j <= k < |trace|
    ensures Evolves(trace[j], trace[k])
  {
    hide Check, Linked, Limbo, Surplus, CollisionsOk, Evolves;
    if j == k {
      SubsetEvolves(trace[j], trace[k]);
    } else {
      RunsEvolve(start, calls, trace, j, k - 1);
      RunsStayHealthy(start, calls, trace, j);
      RunsStayHealthy(start, calls, trace, k - 1);
      HealthyStep(trace[k - 1], calls[k - 1], trace[k - 1 + 1]);
      CheckIsKept(trace[j]);
      IdFacts(trace[j]);
      EvolvesTwice(trace[j], trace[k - 1], trace[k]);
    }
  }

  /** Every run from a fresh manager is of this kind. */
  lemma FreshRunsStayHealthy(h: Hashes, calls: seq<Call>, trace: seq<Manager>, j: nat, k: nat)
    requires IsRun(Cleared(h, {}), calls, trace) && j <= k < |trace|
    ensures Check(trace[k]) && CollisionsOk(trace[k]) && Evolves(trace[j], trace[k])
    ensures (forall i :: 0 <= i < |calls| ==> PositiveTime(calls[i])) ==> TimesOk(trace[k])
  {
    hide Check, Linked, Limbo, Evolves, PositiveTime;
    ClearedOk(h, {});
    RunsStayHealthy(Cleared(h, {}), calls, trace, k);
    RunsEvolve(Cleared(h, {}), calls, trace, j, k);
    if forall i :: 0 <= i < |calls| ==> PositiveTime(calls[i]) {
      RunsKeepTimes(Cleared(h, {}), calls, trace, k);
    }
  }

  lemma MovesFacts(m: Manager, n: Manager)
    requires Moves(m, n)
    ensures Linked(n) && Limbo(n.info) == {} && Surplus(n) == 0 && Evolves(m, n)
    ensures CollisionsOk(m) ==> CollisionsOk(n)
  {
  }

  /** From any consistent manager, calls other than SelectTriedCollision_ keep it so. */
  lemma {:induction false} CheckedRunsStayChecked(start: Manager, calls: seq<Call>, trace: seq<Manager>, k: nat)
    requires Check(start) && IsRun(start, calls, trace) && k < |trace|
    requires forall i :: 0 <= i < |calls| ==> !calls[i].SelectCollision?
    ensures Check(trace[k])
  {
    if k > 0 {
      CheckedRunsStayChecked(start, calls, trace, k - 1);
      hide Limbo, Surplus, Linked, Moves, CollisionsOk;
      CheckIsKept(trace[k - 1]);
      assert StepTo(trace[k - 1], calls[k - 1], trace[k - 1 + 1]);
      StepMoves(trace[k - 1], calls[k - 1]);
      CheckIsKept(trace[k]);
      MovesFacts(trace[k - 1], trace[k]);
    }
  }

  // ---------------------------------------------------------------- the other conditions of Check_

  /** The size condition: vRandom lists the tried and the new entries, once each. */
  lemma RandomListsEverything(m: Manager)
    requires Check(m)
    ensures |m.random| == m.nTried + m.nNew
  {
    hide IdsOk, AddrsOk, TablesOk;
    assert m.info.Keys == TriedIds(m.info) + NewIds(m.info);
    assert TriedIds(m.info) !! NewIds(m.info);
    assert |m.info| == |m.info.Keys|;
  }

  /** The conditions on recorded times. */
  ghost predicate TimesOk(m: Manager) {
    forall x :: x in m.info ==>
      m.info[x].lastTry >= 0 && m.info[x].lastSuccess >= 0 && (m.info[x].inTried ==> m.info[x].lastSuccess != 0)
  }

  ghost predicate PositiveTime(c: Call) {
    match c
    case Good(_, _, time) => time > 0
    case Attempt(_, _, time) => time >= 0
    case Resolve(now) => forall id :: now(id).good > 0
    case _ => true
  }

  lemma TimesFollowHistory(m: Manager, n: Manager, id: int)
    requires TimesOk(m) && HistoryKept(m, n, id) && (id in m.info ==> m.info[id].lastSuccess > 0)
    ensures TimesOk(n)
  {
  }

  lemma AddTimes(m: Manager, a: Address, source: nat, penalty: int, now: int, lucky: bool)
    requires Linked(m) && Limbo(m.info) == {} && Surplus(m) == 0 && TimesOk(m)
    ensures TimesOk(AddSpec(m, a, source, penalty, now, lucky))
  {
    hide Linked, Limbo, Surplus, Placed, NewIds, RefreshedTime, WantsReference, Penalty;
    TriedRows(m);
    var pen := Penalty(a, source, penalty);
    if m.hashes.isRoutable(a.svc.ip) && a.svc.ip in m.addrs {
      AddrFacts(m, a.svc.ip);
      var id := m.addrs[a.svc.ip];
      var j := Refreshed(m.info[id], a, pen, now);
      var m1 := Touched(m, id, j);
      assert TimesOk(m1);
      if WantsReference(j, a, lucky) {
        AddKnownPlaced(m, id, j, a, source, now, lucky);
        TimesFollowHistory(m1, Placed(m1, id, source, now), -1);
      }
    } else if m.hashes.isRoutable(a.svc.ip) {
      CreatedNewLinked(m, a, pen, source);
      var c := CreatedNew(m, a, pen, source);
      assert TimesOk(c);
      TriedRows(c);
      PlacedKeeps(c, m.idCount, source, now);
      TimesFollowHistory(c, Placed(c, m.idCount, source, now), -1);
    }
  }

  lemma AddKnownPlaced(m: Manager, id: int, j: Info, a: Address, source: nat, now: int, lucky: bool)
    requires Linked(m) && Limbo(m.info) == {} && Surplus(m) == 0 && id in m.info
    requires j.svc == m.info[id].svc && j.inTried == m.info[id].inTried
    requires j.refCount == m.info[id].refCount && j.randomPos == m.info[id].randomPos
    requires WantsReference(j, a, lucky)
    ensures Linked(Touched(m, id, j)) && id in NewIds(Touched(m, id, j).info) && j.refCount < NEW_BUCKETS_PER_ADDRESS
    ensures HistoryKept(Touched(m, id, j), Placed(Touched(m, id, j), id, source, now), -1)
  {
    hide Linked, NewIds, Limbo, Placed;
    UntriedHasRefs(m, id);
    TouchedKeeps(m, id, j);
    var m1 := Touched(m, id, j);
    assert m1.info[id] == j;
    PlacedKeeps(m1, id, source, now);
  }

  lemma GoodTimes(m: Manager, svc: Service, testBeforeEvict: bool, time: int)
    requires Linked(m) && Limbo(m.info) == {} && Surplus(m) == 0 && TimesOk(m) && time > 0
    ensures TimesOk(GoodSpec(m, svc, testBeforeEvict, time))
  {
    hide Linked, Limbo, Surplus, NewIds, MadeTried, InSomeBucket, TriedFilled, Moves;
    TriedRows(m);
    var m0 := m.(lastGood := time);
    if Known(m, svc) {
      var id := m.addrs[svc.ip];
      var j := m.info[id].(lastSuccess := time, lastTry := time, attempts := 0);
      var m1 := Touched(m0, id, j);
      assert TimesOk(m1);
      if !j.inTried {
        GoodKnownMoves(m, svc, time);
        UntriedHasRefs(m, id);
        MovesFacts(m, m1);
        MadeTriedKeeps(m1, id);
        TimesFollowHistory(m1, MadeTried(m1, id), id);
      }
    }
  }

  lemma {:induction false} ResolveTimes(m: Manager, todo: set<int>, now: int -> Readings)
    requires Linked(m) && Limbo(m.info) == {} && Surplus(m) == 0 && TimesOk(m) && forall id :: now(id).good > 0
    ensures TimesOk(ResolveFrom(m, todo, now))
    decreases |todo|
  {
    hide Linked, Limbo, Surplus, GoodSpec, Judge, Moves;
    if todo != {} {
      var id := Least(todo);
      ResolvedOneMoves(m, id, now(id));
      MovesFacts(m, ResolvedOne(m, id, now(id)));
      if id in m.info {
        GoodTimes(m, m.info[id].svc, false, now(id).good);
      }
      ResolveTimes(ResolvedOne(m, id, now(id)), todo - {id}, now);
    }
  }

  lemma {:induction false} ShuffledTimes(m: Manager, draws: seq<nat>, k: nat)
    requires TimesOk(m) && k <= |draws|
    ensures TimesOk(Shuffled(m, draws, k))
  {
    if k > 0 {
      ShuffledTimes(m, draws, k - 1);
    }
  }

  /** With positive clock readings, the time conditions are kept as well. */
  lemma StepTimes(m: Manager, c: Call)
    requires Linked(m) && Limbo(m.info) == {} && Surplus(m) == 0 && TimesOk(m) && Drawn(m, c) && PositiveTime(c)
    requires c.SelectCollision? ==> CollisionsOk(m)
    ensures TimesOk(Step(m, c))
  {
    hide Linked, Limbo, Surplus, AddSpec, GoodSpec, ResolveFrom, Shuffled, SelectCollisionSpec, CollisionsOk;
    match c {
      case Add(a, source, penalty, now, lucky) => AddTimes(m, a, source, penalty, now, lucky);
      case Good(svc, test, time) => GoodTimes(m, svc, test, time);
      case Resolve(now) => ResolveTimes(m, m.collisions, now);
      case GetAddr(draws) => ShuffledTimes(m, draws, |draws|);
      case SelectCollision(id) => SelectCollisionMoves(m, id);
      case _ =>
    }
  }

  /** Clearing is harmless exactly when no collision is remembered. */
  lemma ClearedCollisions(h: Hashes, collisions: set<int>)
    requires forall x :: x in collisions ==> x >= 0
    ensures Check(Cleared(h, collisions))
    ensures CollisionsOk(Cleared(h, collisions)) <==> collisions == {}
  {
    hide Check;
    ClearedOk(h, collisions);
    if collisions != {} {
      var x := HasLeast(collisions);
      assert x in Cleared(h, collisions).collisions;
    }
  }

  /** Clear, and Unserialize after it, keep remembered collisions. One address added to
      a cleared manager that still remembers collision 0 is enough: its tried slot is
      empty, and SelectTriedCollision_ then inserts an entry under id -1. */
  lemma StaleCollisionCorrupts(h: Hashes, a: Address, source: nat, penalty: int, now: int, lucky: bool)
    requires h.isRoutable(a.svc.ip)
    ensures Linked(Cleared(h, {0})) && Limbo(Cleared(h, {0}).info) == {}
    ensures var m := AddSpec(Cleared(h, {0}), a, source, penalty, now, lucky);
            && Check(m) && 0 in m.info && 0 in m.collisions
            && !Check(SelectCollisionSpec(m, 0)) && -1 in SelectCollisionSpec(m, 0).info
  {
    hide AddSpec, Check, Linked, Limbo, Surplus;
    var c := Cleared(h, {0});
    ClearedOk(h, {0});
    CheckIsKept(c);
    AddKept(c, a, source, penalty, now, lucky);
    var m := AddSpec(c, a, source, penalty, now, lucky);
    CheckIsKept(m);
    FirstAddIsPlaced(h, a, source, penalty, now, lucky);
    SelectCollisionKeepsCheck(m, 0);
    TriedRows(m);
  }

  lemma FirstAddIsPlaced(h: Hashes, a: Address, source: nat, penalty: int, now: int, lucky: bool)
    requires h.isRoutable(a.svc.ip) && Linked(Cleared(h, {0})) && Limbo(Cleared(h, {0}).info) == {}
    ensures var m := AddSpec(Cleared(h, {0}), a, source, penalty, now, lucky);
            0 in m.info && m.collisions == {0} && m.triedTable == EmptyTable(TRIED_BUCKET_COUNT) && m.hashes == h
  {
    var c := Cleared(h, {0});
    CreatedNewLinked(c, a, Penalty(a, source, penalty), source);
    var n := CreatedNew(c, a, Penalty(a, source, penalty), source);
    var b := NewBucket(h, a.svc, source);
    assert n.newTable[b][Position(h, a.svc, true, b)] == -1;
  }
}
