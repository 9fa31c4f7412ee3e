/** CAddrMan as an object: every method updates the six indexes in place and is proved
    against the operation on values it stands for (src/addrman.cpp, src/addrman.h). */
module AddrMan {
  import opened AddrManSpec
  import opened AddrManOps
  import opened AddrManRuns
  import opened AddrManDisk
  import opened AddrManOutcome
  import opened Arithmetic
  import opened Common

  class CAddrMan {
    var hashes: Hashes
    var nIdCount: int
    var mapInfo: map<int, Info>
    var mapAddr: map<nat, int>
    var vRandom: seq<int>
    var nTried: int
    var vvTried: Table
    var nNew: int
    var vvNew: Table
    var nLastGood: int
    var triedCollisions: set<int>

    ghost function State(): Manager
      reads this
    {
      Manager(hashes, nIdCount, mapInfo, mapAddr, vRandom, nTried, vvTried, nNew, vvNew, nLastGood, triedCollisions)
    }

    /** Between calls. */
    ghost predicate Valid()
      reads this
    {
      Linked(State()) && Limbo(mapInfo) == {} && Surplus(State()) == 0
    }

    constructor (key: Hashes)
      ensures State() == Cleared(key, {}) && Valid()
    {
      hashes := key;
      triedCollisions := {};
      vRandom, vvNew, vvTried := [], EmptyTable(NEW_BUCKET_COUNT), EmptyTable(TRIED_BUCKET_COUNT);
      nIdCount, nTried, nNew, nLastGood := 0, 0, 0, 1;
      mapInfo, mapAddr := map[], map[];
      new;
      ClearedOk(key, {});
      CheckIsKept(State());
    }

    /** Clear draws a new key but keeps the remembered collisions. */
    method Clear(key: Hashes)
      modifies this
      ensures State() == Cleared(key, old(triedCollisions)) && Valid()
    {
      hide Check, Linked, Limbo, Surplus;
      vRandom := [];
      hashes := key;
      vvNew, vvTried := EmptyTable(NEW_BUCKET_COUNT), EmptyTable(TRIED_BUCKET_COUNT);
      nIdCount, nTried, nNew, nLastGood := 0, 0, 0, 1;
      mapInfo, mapAddr := map[], map[];
      ClearedOk(key, triedCollisions);
      CheckIsKept(State());
    }

    method Create(svc: Service, time: int, services: bv64, source: nat) returns (nId: int)
      modifies this
      ensures nId == old(nIdCount) && State() == Created(old(State()), svc, time, services, source)
    {
      nId := nIdCount;
      nIdCount := nIdCount + 1;
      mapInfo := mapInfo[nId := Info(svc, time, services, source, 0, 0, 0, 0, 0, false, |vRandom|)];
      mapAddr := mapAddr[svc.ip := nId];
      vRandom := vRandom + [nId];
    }

    method SwapRandom(pos1: int, pos2: int)
      requires CanSwap(State(), pos1, pos2)
      modifies this`mapInfo, this`vRandom
      ensures State() == Swapped(old(State()), pos1, pos2) && |vRandom| == |old(vRandom)|
    {
      if pos1 == pos2 {
        return;
      }
      var nId1, nId2 := vRandom[pos1], vRandom[pos2];
      mapInfo := mapInfo[nId1 := mapInfo[nId1].(randomPos := pos2)];
      mapInfo := mapInfo[nId2 := mapInfo[nId2].(randomPos := pos1)];
      vRandom := vRandom[pos1 := nId2];
      vRandom := vRandom[pos2 := nId1];
    }

    method Delete(nId: int)
      requires CanDelete(State(), nId) && !mapInfo[nId].inTried && mapInfo[nId].refCount == 0
      modifies this
      ensures State() == Deleted(old(State()), nId)
    {
      hide Swapped;
      var ip := mapInfo[nId].svc.ip;
      SwapRandom(mapInfo[nId].randomPos, |vRandom| - 1);
      vRandom := vRandom[..|vRandom| - 1];
      mapAddr := mapAddr - {ip};
      mapInfo := mapInfo - {nId};
      nNew := nNew - 1;
    }

    method ClearNew(bucket: int, pos: int)
      requires Linked(State()) && 0 <= bucket < NEW_BUCKET_COUNT && 0 <= pos < BUCKET_SIZE
      modifies this
      ensures State() == ClearedNew(old(State()), bucket, pos)
    {
      hide Linked, Limbo, NewIds, Deleted;
      NewSlotFacts(State(), bucket, pos);
      if vvNew[bucket][pos] != -1 {
        UnreferencedKeeps(State(), bucket, pos);
        var nIdDelete := vvNew[bucket][pos];
        assert mapInfo[nIdDelete].refCount > 0;
        mapInfo := mapInfo[nIdDelete := mapInfo[nIdDelete].(refCount := mapInfo[nIdDelete].refCount - 1)];
        vvNew := Put(vvNew, bucket, pos, -1);
        assert State() == Unreferenced(old(State()), bucket, pos);
        if mapInfo[nIdDelete].refCount == 0 {
          DeletedKeeps(State(), nIdDelete);
          Delete(nIdDelete);
        }
      }
    }

    method MakeTried(nId: int)
      requires Linked(State()) && nId in NewIds(mapInfo)
      modifies this
      ensures State() == MadeTried(old(State()), nId)
    {
      hide Linked, Limbo, NewIds, Vacated, Evicted, ClearedNew, DroppedRefs;
      ghost var start := State();
      DroppedIsIdle(start, nId);
      RemoveFromNew(nId);
      nNew := nNew - 1;
      assert State() == Uprooted(start, nId);
      assert mapInfo[nId].refCount == 0;

      var svc := mapInfo[nId].svc;
      var nKBucket := TriedBucket(hashes, svc);
      var nKBucketPos := TriedPosition(hashes, svc);
      VacatedKeeps(State(), nKBucket, nKBucketPos);
      MakeRoom(nKBucket, nKBucketPos);
      assert vvTried[nKBucket][nKBucketPos] == -1;
      vvTried := Put(vvTried, nKBucket, nKBucketPos, nId);
      nTried := nTried + 1;
      mapInfo := mapInfo[nId := mapInfo[nId].(inTried := true)];
    }

    /** The loop of MakeTried over all new buckets. */
    method RemoveFromNew(nId: int)
      requires Linked(State()) && nId in NewIds(mapInfo) && nId in mapInfo
      modifies this`mapInfo, this`vvNew
      ensures State() == DroppedRefs(old(State()), nId, NEW_BUCKET_COUNT)
    {
      hide Linked, NewIds, Limbo, Position;
      ghost var start := State();
      for bucket := 0 to NEW_BUCKET_COUNT
        invariant State() == DroppedRefs(start, nId, bucket)
      {
        DroppedRows(start, nId, bucket);
        var pos := Position(hashes, mapInfo[nId].svc, true, bucket);
        if vvNew[bucket][pos] == nId {
          vvNew := Put(vvNew, bucket, pos, -1);
          mapInfo := mapInfo[nId := mapInfo[nId].(refCount := mapInfo[nId].refCount - 1)];
        }
      }
    }

    /** The eviction inside MakeTried. */
    method MakeRoom(nKBucket: int, nKBucketPos: int)
      requires Linked(State()) && 0 <= nKBucket < TRIED_BUCKET_COUNT && 0 <= nKBucketPos < BUCKET_SIZE
      modifies this
      ensures State() == Vacated(old(State()), nKBucket, nKBucketPos)
    {
      hide Linked, Limbo, NewIds, ClearedNew, Position, NewBucket;
      ghost var start := State();
      TriedRows(State());
      if vvTried[nKBucket][nKBucketPos] != -1 {
        TriedOutKeeps(State(), nKBucket, nKBucketPos);
        var nIdEvict := vvTried[nKBucket][nKBucketPos];
        assert nIdEvict in mapInfo;
        mapInfo := mapInfo[nIdEvict := mapInfo[nIdEvict].(inTried := false)];
        vvTried := Put(vvTried, nKBucket, nKBucketPos, -1);
        nTried := nTried - 1;
        assert State() == TriedOut(start, nKBucket, nKBucketPos);
        var svc := mapInfo[nIdEvict].svc;
        var nUBucket := NewBucket(hashes, svc, mapInfo[nIdEvict].source);
        var nUBucketPos := Position(hashes, svc, true, nUBucket);
        EvictionFacts(State(), nUBucket, nUBucketPos, nIdEvict);
        ClearNew(nUBucket, nUBucketPos);
        assert vvNew[nUBucket][nUBucketPos] == -1;
        mapInfo := mapInfo[nIdEvict := mapInfo[nIdEvict].(refCount := 1)];
        vvNew := Put(vvNew, nUBucket, nUBucketPos, nIdEvict);
        nNew := nNew + 1;
      }
    }

    method Good(svc: Service, testBeforeEvict: bool, time: int, nRnd: nat)
      requires Valid() && nRnd < NEW_BUCKET_COUNT
      modifies this
      ensures State() == GoodSpec(old(State()), svc, testBeforeEvict, time) && Valid()
    {
      hide Linked, Limbo, Surplus, NewIds, Moves, MadeTried, InSomeBucket, TriedFilled;
      ghost var start := State();
      GoodMoves(start, svc, testBeforeEvict, time);
      MovesFacts(start, GoodSpec(start, svc, testBeforeEvict, time));
      nLastGood := time;
      if svc.ip !in mapAddr {
        return;
      }
      AddrFacts(start, svc.ip);
      var nId := mapAddr[svc.ip];
      if mapInfo[nId].svc != svc {
        return;
      }
      mapInfo := mapInfo[nId := mapInfo[nId].(lastSuccess := time, lastTry := time, attempts := 0)];
      if mapInfo[nId].inTried {
        return;
      }
      GoodKnownMoves(start, svc, time);
      MovesFacts(start, State());
      var nUBucket := FindBucket(nId, nRnd);
      if nUBucket == -1 {
        return;
      }
      TriedSlotFacts(start, svc);
      if testBeforeEvict && vvTried[TriedBucket(hashes, svc)][TriedPosition(hashes, svc)] != -1 {
        if |triedCollisions| < SET_TRIED_COLLISION_SIZE {
          triedCollisions := triedCollisions + {nId};
        }
      } else {
        MakeTried(nId);
      }
    }

    lemma TriedSlotFacts(m: Manager, s: Service)
      requires Linked(m)
      ensures |m.triedTable| == TRIED_BUCKET_COUNT && |m.triedTable[TriedBucket(m.hashes, s)]| == BUCKET_SIZE
      ensures TriedFilled(m, s) <==> m.triedTable[TriedBucket(m.hashes, s)][TriedPosition(m.hashes, s)] != -1
    {
    }

    /** The search loop of Good_, from a random bucket on and wrapping around. Its -1
        result is never produced for an untried entry of a consistent manager. */
    method FindBucket(nId: int, nRnd: nat) returns (nUBucket: int)
      requires Linked(State()) && nId in mapInfo && nRnd < NEW_BUCKET_COUNT
      ensures nUBucket == -1 <==> !InSomeBucket(State(), nId)
      ensures nUBucket != -1 ==> 0 <= nUBucket < NEW_BUCKET_COUNT
      ensures Limbo(mapInfo) == {} && !mapInfo[nId].inTried ==> nUBucket != -1
    {
      hide Linked, Limbo;
      NewRows(State());
      ghost var m := State();
      nUBucket := -1;
      for n := 0 to NEW_BUCKET_COUNT
        invariant nUBucket == -1
        invariant forall b :: 0 <= b < NEW_BUCKET_COUNT && Offset(b, nRnd) < n ==> !Holds(m, nId, b)
      {
        var nB := (n + nRnd) % NEW_BUCKET_COUNT;
        var nBpos := Position(hashes, mapInfo[nId].svc, true, nB);
        if vvNew[nB][nBpos] == nId {
          nUBucket := nB;
          assert Holds(m, nId, nB);
          return;
        }
      }
      if Limbo(mapInfo) == {} && !mapInfo[nId].inTried {
        UntriedIsInSomeBucket(m, nId);
      }
    }

    /** One more reference for an entry that has N of them is drawn with chance one in 2^N;
        `randrange` is the source of draws below a bound. */
    method Add(a: Address, source: nat, penalty: int, now: int, randrange: nat -> nat) returns (fNew: bool)
      requires Valid()
      modifies this
      ensures State() == AddSpec(old(State()), a, source, penalty, now, Lucky(old(State()), a.svc.ip, randrange))
      ensures Valid() && fNew == AddReturns(old(State()), a)
    {
      hide Linked, Limbo, Surplus, NewIds, Placed, Kept, Evolves;
      ghost var start := State();
      ghost var lucky := Lucky(start, a.svc.ip, randrange);
      AddKept(start, a, source, penalty, now, lucky);
      KeptFacts(start, AddSpec(start, a, source, penalty, now, lucky));
      if !hashes.isRoutable(a.svc.ip) {
        return false;
      }
      var nTimePenalty := if a.svc.ip == source then 0 else penalty;
      var nId: int;
      if a.svc.ip in mapAddr {
        AddKnownKept(start, a, source, nTimePenalty, now, lucky);
        nId := mapAddr[a.svc.ip];
        mapInfo := mapInfo[nId := Refreshed(mapInfo[nId], a, nTimePenalty, now)];
        if a.time == 0 || (mapInfo[nId].time != 0 && a.time <= mapInfo[nId].time) {
          return false;
        }
        if mapInfo[nId].inTried {
          return false;
        }
        if mapInfo[nId].refCount == NEW_BUCKETS_PER_ADDRESS {
          return false;
        }
        UntriedHasRefs(start, nId);
        var nFactor := 1;
        for n := 0 to mapInfo[nId].refCount
          invariant nFactor == Pow2(n) && (n > 0 ==> nFactor > 1)
        {
          nFactor := nFactor * 2;
        }
        if nFactor > 1 && randrange(nFactor) != 0 {
          return false;
        }
        fNew := false;
      } else {
        CreatedNewLinked(start, a, nTimePenalty, source);
        nId := Create(a.svc, Max(0, a.time - nTimePenalty), a.services, source);
        nNew := nNew + 1;
        fNew := true;
      }
      PlaceInNew(nId, source, now);
    }

    lemma KeptFacts(m: Manager, n: Manager)
      requires Kept(m, n)
      ensures Linked(n) && Limbo(n.info) == {} && Surplus(n) == 0
    {
    }

    /** The second half of Add_. */
    method PlaceInNew(nId: int, source: nat, now: int)
      requires Linked(State()) && nId in NewIds(mapInfo) && mapInfo[nId].refCount < NEW_BUCKETS_PER_ADDRESS
      modifies this
      ensures State() == Placed(old(State()), nId, source, now)
    {
      hide Linked, Limbo, ClearedNew, Deleted, Position, NewBucket, IsTerrible;
      ghost var start := State();
      var nUBucket := NewBucket(hashes, mapInfo[nId].svc, source);
      var nUBucketPos := Position(hashes, mapInfo[nId].svc, true, nUBucket);
      PlaceFacts(start, nId, nUBucket, nUBucketPos);
      NewSlotFacts(start, nUBucket, nUBucketPos);
      if vvNew[nUBucket][nUBucketPos] != nId {
        var fInsert := vvNew[nUBucket][nUBucketPos] == -1;
        if !fInsert {
          var infoExisting := mapInfo[vvNew[nUBucket][nUBucketPos]];
          if IsTerrible(infoExisting, now) || (infoExisting.refCount > 1 && mapInfo[nId].refCount == 0) {
            fInsert := true;
          }
        }
        if fInsert {
          ClearNew(nUBucket, nUBucketPos);
          mapInfo := mapInfo[nId := mapInfo[nId].(refCount := mapInfo[nId].refCount + 1)];
          vvNew := Put(vvNew, nUBucket, nUBucketPos, nId);
        } else {
          if mapInfo[nId].refCount == 0 {
            DeletedKeeps(State(), nId);
            Delete(nId);
          }
        }
      }
    }

    ghost predicate Lucky(m: Manager, ip: nat, randrange: nat -> nat) {
      && ip in m.addrs && m.addrs[ip] in m.info && m.info[m.addrs[ip]].refCount >= 0
      && randrange(Pow2(m.info[m.addrs[ip]].refCount)) == 0
    }

    method Attempt(svc: Service, countFailure: bool, time: int)
      requires Valid()
      modifies this
      ensures State() == AttemptSpec(old(State()), svc, countFailure, time) && Valid()
    {
      hide Linked, Limbo, Surplus, Moves;
      ghost var start := State();
      StepMoves(start, Call.Attempt(svc, countFailure, time));
      MovesFacts(start, AttemptSpec(start, svc, countFailure, time));
      if svc.ip !in mapAddr {
        return;
      }
      AddrFacts(start, svc.ip);
      var nId := mapAddr[svc.ip];
      if mapInfo[nId].svc != svc {
        return;
      }
      var info := mapInfo[nId].(lastTry := time);
      if countFailure && info.lastCountAttempt < nLastGood {
        info := info.(lastCountAttempt := time, attempts := info.attempts + 1);
      }
      mapInfo := mapInfo[nId := info];
    }

    method Connected(svc: Service, time: int)
      requires Valid()
      modifies this
      ensures State() == ConnectedSpec(old(State()), svc, time) && Valid()
    {
      hide Linked, Limbo, Surplus, Moves;
      ghost var start := State();
      StepMoves(start, Call.Connected(svc, time));
      MovesFacts(start, ConnectedSpec(start, svc, time));
      if svc.ip !in mapAddr {
        return;
      }
      AddrFacts(start, svc.ip);
      var nId := mapAddr[svc.ip];
      if mapInfo[nId].svc == svc && time - mapInfo[nId].time > 20 * 60 {
        mapInfo := mapInfo[nId := mapInfo[nId].(time := time)];
      }
    }

    method SetServices(svc: Service, services: bv64)
      requires Valid()
      modifies this
      ensures State() == SetServicesSpec(old(State()), svc, services) && Valid()
    {
      hide Linked, Limbo, Surplus, Moves;
      ghost var start := State();
      StepMoves(start, Call.SetServices(svc, services));
      MovesFacts(start, SetServicesSpec(start, svc, services));
      if svc.ip !in mapAddr {
        return;
      }
      AddrFacts(start, svc.ip);
      var nId := mapAddr[svc.ip];
      if mapInfo[nId].svc == svc {
        mapInfo := mapInfo[nId := mapInfo[nId].(services := services)];
      }
    }

    /** One turn of the loop in ResolveCollisions_. */
    method ResolveOne(idNew: int, now: Readings, nRnd: nat)
      requires Valid() && nRnd < NEW_BUCKET_COUNT
      modifies this
      ensures State() == ResolvedOne(old(State()), idNew, now) && Valid()
      ensures triedCollisions ==
              if MustWait(old(State()), idNew, now) then old(triedCollisions) else old(triedCollisions) - {idNew}
    {
      hide Linked, Limbo, Surplus, Moves, GoodSpec, TriedFilled;
      ghost var start := State();
      ResolvedOneMoves(start, idNew, now);
      MovesFacts(start, ResolvedOne(start, idNew, now));
      ResolvedOneForgets(start, idNew, now);
      var eraseCollision := false;
      if idNew !in mapInfo {
        eraseCollision := true;
      } else {
        var infoNew := mapInfo[idNew];
        var b, p := TriedBucket(hashes, infoNew.svc), TriedPosition(hashes, infoNew.svc);
        TriedSlotFacts(start, infoNew.svc);
        TriedHeld(start, infoNew.svc);
        if !hashes.isValid(infoNew.svc.ip) {
          eraseCollision := true;
        } else if vvTried[b][p] != -1 {
          var infoOld := mapInfo[vvTried[b][p]];
          if now.success - infoOld.lastSuccess < REPLACEMENT_HOURS * (60 * 60) {
            eraseCollision := true;
          } else if now.attempt - infoOld.lastTry < REPLACEMENT_HOURS * (60 * 60) {
            if now.limit - infoOld.lastTry > 60 {
              Good(infoNew.svc, false, now.good, nRnd);
              eraseCollision := true;
            }
          } else if now.limit - infoNew.lastSuccess > TEST_WINDOW {
            Good(infoNew.svc, false, now.good, nRnd);
            eraseCollision := true;
          }
        } else {
          Good(infoNew.svc, false, now.good, nRnd);
          eraseCollision := true;
        }
      }
      if eraseCollision {
        triedCollisions := triedCollisions - {idNew};
      }
    }

    lemma TriedHeld(m: Manager, s: Service)
      requires Linked(m)
      ensures |m.triedTable| == TRIED_BUCKET_COUNT && |m.triedTable[TriedBucket(m.hashes, s)]| == BUCKET_SIZE
      ensures var slot := m.triedTable[TriedBucket(m.hashes, s)][TriedPosition(m.hashes, s)];
              slot != -1 <==> slot in m.info
    {
    }

    /** The collisions that had to wait at their turn are still remembered, and no others. */
    method ResolveCollisions(now: int -> Readings, draws: map<int, nat>)
      requires Valid() && forall x :: x in triedCollisions ==> x in draws && draws[x] < NEW_BUCKET_COUNT
      modifies this
      ensures State() == ResolveFrom(old(State()), old(triedCollisions), now) && Valid()
      ensures forall x :: x in triedCollisions <==>
                x in old(triedCollisions) &&
                MustWait(ResolveFrom(old(State()), Earlier(old(triedCollisions), x), now), x, now(x))
    {
      hide Linked, Limbo, Surplus, ResolvedOne, MustWait;
      forall x
        ensures x in ResolveFrom(State(), triedCollisions, now).collisions <==>
                x in triedCollisions && MustWait(ResolveFrom(State(), Earlier(triedCollisions, x), now), x, now(x))
      {
        if x in triedCollisions {
          ResolveOutcome(State(), triedCollisions, now, x);
        } else {
          ResolveKeepsOthers(State(), triedCollisions, now, x);
        }
      }
      var todo := triedCollisions;
      while todo != {}
        invariant Valid() && todo <= old(triedCollisions)
        invariant ResolveFrom(State(), todo, now) == ResolveFrom(old(State()), old(triedCollisions), now)
        decreases |todo|
      {
        ghost var l := Least(todo);
        var idNew :| IsLeast(idNew, todo);
        LeastIsUnique(l, idNew, todo);
        ResolveOne(idNew, now(idNew), draws[idNew]);
        todo := todo - {idNew};
      }
    }

    /** Returns the entries the draws select, less the terrible ones, until there are 23% of the known
        addresses or 2500; none of them twice. */
    method GetAddr(now: int, draws: seq<nat>) returns (vAddr: seq<Info>, ghost used: nat)
      requires Valid() && DrawsOk(State(), draws) && |draws| == |vRandom|
      modifies this`mapInfo, this`vRandom
      ensures used <= |draws| && State() == Shuffled(old(State()), draws, used) && Valid()
      ensures vAddr == Sampled(old(State()), draws, used, now)
      ensures var limit := Min(GETADDR_MAX_PCT * |old(vRandom)| / 100, GETADDR_MAX);
              |vAddr| <= limit && (used == |old(vRandom)| || |vAddr| == limit)
      ensures forall i :: 0 <= i < |vAddr| ==> !IsTerrible(vAddr[i], now) && vAddr[i].svc.ip in mapAddr
      ensures forall i, j :: 0 <= i < j < |vAddr| ==> vAddr[i].svc.ip != vAddr[j].svc.ip
    {
      hide Linked, Limbo, Surplus, Moves, IsTerrible, Swapped, CanSwap;
      ghost var start := State();
      vAddr := [];
      used := 0;
      var nNodes := GETADDR_MAX_PCT * |vRandom| / 100;
      if nNodes > GETADDR_MAX {
        nNodes := GETADDR_MAX;
      }
      ghost var size := |vRandom|;
      var n := 0;
      while n < |vRandom| && |vAddr| < nNodes
        invariant 0 <= n <= |vRandom| == size && n == used
        invariant State() == Shuffled(start, draws, n) && Valid()
        invariant |vAddr| <= nNodes && vAddr == Sampled(start, draws, n, now)
        invariant forall i :: 0 <= i < |vAddr| ==> !IsTerrible(vAddr[i], now) && AtPosition(State(), vAddr[i].svc.ip, n)
        invariant forall i, j :: 0 <= i < j < |vAddr| ==> vAddr[i].svc.ip != vAddr[j].svc.ip
      {
        var ai := DrawNext(n, draws[n] + n);
        if !IsTerrible(ai, now) {
          vAddr := vAddr + [ai];
        }
        n := n + 1;
        used := used + 1;
      }
    }

    /** One draw: the chosen entry moves to position `n`, and the earlier positions stay. */
    method DrawNext(n: nat, nRndPos: nat) returns (ai: Info)
      requires Valid() && n <= nRndPos < |vRandom|
      modifies this`mapInfo, this`vRandom
      ensures CanSwap(old(State()), n, nRndPos) && State() == Swapped(old(State()), n, nRndPos) && Valid()
      ensures |vRandom| == |old(vRandom)| && vRandom[n] in mapInfo && ai == mapInfo[vRandom[n]]
      ensures AtPosition(State(), ai.svc.ip, n + 1) && !AtPosition(State(), ai.svc.ip, n)
      ensures forall ip :: AtPosition(old(State()), ip, n) ==> AtPosition(State(), ip, n)
    {
      hide Linked, Limbo, Surplus, Moves, Swapped, CanSwap, AtPosition;
      ghost var before := State();
      RandomFacts(before, n);
      RandomFacts(before, nRndPos);
      CanSwapFact(before, n, nRndPos);
      SwapMoves(before, n, nRndPos);
      MovesFacts(before, Swapped(before, n, nRndPos));
      SwapRandom(n, nRndPos);
      RandomFacts(State(), n);
      ai := mapInfo[vRandom[n]];
      forall ip | AtPosition(before, ip, n)
        ensures AtPosition(State(), ip, n)
      {
        EarlierStays(before, n, nRndPos, ip);
      }
    }

    lemma CanSwapFact(m: Manager, i: int, j: int)
      requires 0 <= i < |m.random| && 0 <= j < |m.random| && m.random[i] in m.info && m.random[j] in m.info
      ensures CanSwap(m, i, j)
    {
    }

    lemma RandomFacts(m: Manager, i: int)
      requires Linked(m) && 0 <= i < |m.random|
      ensures m.random[i] in m.info
      ensures AtPosition(m, m.info[m.random[i]].svc.ip, i + 1) && !AtPosition(m, m.info[m.random[i]].svc.ip, i)
    {
      hide TablesOk;
      var id := m.random[i];
      assert id in m.info && m.info[id].randomPos == i;
      assert m.info[id].svc.ip in m.addrs && m.addrs[m.info[id].svc.ip] == id;
    }

    /** Positions below n keep their entries when n is swapped with a later position. */
    lemma EarlierStays(m: Manager, n: int, pos: int, ip: nat)
      requires Linked(m) && CanSwap(m, n, pos) && n <= pos && AtPosition(m, ip, n)
      ensures AtPosition(Swapped(m, n, pos), ip, n)
    {
      hide TablesOk;
    }

    /** Picks the entry that a remembered collision would evict. */
    method SelectTriedCollision(idNew: int) returns (chosen: Option<Info>)
      requires Valid() && idNew in triedCollisions
      modifies this`mapInfo, this`triedCollisions
      ensures State() == SelectCollisionSpec(old(State()), idNew)
      ensures Check(State()) <==> idNew !in old(mapInfo) || TriedFilled(old(State()), old(mapInfo)[idNew].svc)
      ensures Check(State()) && idNew in old(mapInfo) ==> chosen.Some? && chosen.value.inTried
    {
      hide Linked, Limbo, Surplus, TriedFilled;
      ghost var start := State();
      SelectCollisionKeepsCheck(start, idNew);
      if idNew !in mapInfo {
        triedCollisions := triedCollisions - {idNew};
        return None;
      }
      var svc := mapInfo[idNew].svc;
      TriedSlotFacts(start, svc);
      if TriedFilled(start, svc) {
        FilledSlotIsHeld(start, svc);
      }
      var idOld := vvTried[TriedBucket(hashes, svc)][TriedPosition(hashes, svc)];
      if idOld !in mapInfo {
        mapInfo := mapInfo[idOld := DefaultInfo];
      }
      chosen := Some(mapInfo[idOld]);
    }

    // ---------------------------------------------------------------- disk

    /** Writes the entries of one kind, in increasing order of id; `rank` records, for
        every id met, how many entries had been written before it. */
    method WriteEntries(ghost kind: set<int>, wanted: map<int, bool>)
      returns (infos: seq<DiskInfo>, rank: map<int, int>)
      requires wanted.Keys == mapInfo.Keys && kind <= mapInfo.Keys
      requires forall x :: x in mapInfo ==> (wanted[x] <==> x in kind)
      ensures AllIn(Ascending(kind), mapInfo) && infos == Saved(mapInfo, Ascending(kind))
      ensures forall x :: x in kind ==> x in rank && rank[x] == IndexOf(Ascending(kind), x)
    {
      hide IndexOf, IsLeast, Least, Ascending, Enumerates, Saved, AllIn;
      AscendingEnumerates(kind);
      ghost var order := Ascending(kind);
      ghost var done: seq<int> := [];
      var todo := mapInfo.Keys;
      infos, rank := [], map[];
      SavedNone(mapInfo);
      assert kind * todo == kind;
      while todo != {}
        invariant todo <= mapInfo.Keys
        invariant order == done + Ascending(kind * todo)
        invariant AllIn(done, mapInfo) && infos == Saved(mapInfo, done)
        invariant forall x :: x in kind && x !in todo ==> x in rank && rank[x] == IndexOf(order, x)
        decreases |todo|
      {
        assert IsLeast(Least(todo), todo);
        var id :| IsLeast(id, todo);
        OrderNext(kind, todo, id, order, done);
        rank := rank[id := |infos|];
        if wanted[id] {
          IndexOfAt(order, kind, |done|);
          SavedNext(mapInfo, done, id);
          infos := infos + [ToDisk(mapInfo[id])];
          done := done + [id];
        }
        todo := todo - {id};
      }
      NoneLeft(kind);
      assert order == done;
    }

    /** The indexes of one bucket's filled slots. */
    method WriteRow(bucket: nat, rank: map<int, int>, ghost order: seq<int>) returns (row: seq<int>)
      requires bucket < |vvNew|
      requires forall i :: 0 <= i < |vvNew[bucket]| && vvNew[bucket][i] != -1 ==>
                 vvNew[bucket][i] in rank && rank[vvNew[bucket][i]] == IndexOf(order, vvNew[bucket][i])
      ensures row == RowIndexes(vvNew[bucket], order, |vvNew[bucket]|)
    {
      row := [];
      for i := 0 to |vvNew[bucket]|
        invariant row == RowIndexes(vvNew[bucket], order, i)
      {
        if vvNew[bucket][i] != -1 {
          row := row + [rank[vvNew[bucket][i]]];
        }
      }
    }

    /** All buckets of the new table, as indexes. */
    method WriteRows(rank: map<int, int>) returns (buckets: seq<seq<int>>)
      requires Linked(State())
      requires forall x :: x in RefIds(mapInfo) ==> x in rank && rank[x] == IndexOf(NewOrder(State()), x)
      ensures |buckets| == NEW_BUCKET_COUNT == |vvNew|
      ensures forall b :: 0 <= b < NEW_BUCKET_COUNT ==>
              buckets[b] == RowIndexes(vvNew[b], NewOrder(State()), |vvNew[b]|)
    {
      hide Linked, RefIds, IndexOf, NewOrder, RowIndexes;
      ghost var m := State();
      NewRows(m);
      buckets := [];
      for bucket := 0 to NEW_BUCKET_COUNT
        invariant |buckets| == bucket
        invariant forall b :: 0 <= b < bucket ==> buckets[b] == RowIndexes(vvNew[b], NewOrder(m), |vvNew[b]|)
      {
        forall i | 0 <= i < |vvNew[bucket]| && vvNew[bucket][i] != -1
          ensures vvNew[bucket][i] in RefIds(mapInfo)
        {
          NewSlotFacts(m, bucket, i);
          HeldIsReferenced(m, vvNew[bucket][i]);
        }
        var row := WriteRow(bucket, rank, NewOrder(m));
        buckets := buckets + [row];
      }
    }

    method Serialize() returns (f: File)
      requires Valid()
      ensures f == FileOf(State())
      ensures Readable(f)
    {
      hide Linked, Limbo, Surplus, RefIds, TriedIds, NewIds, IndexOf, Ascending, Readable, IsRenaming, Check,
           RowIndexes;
      ghost var m := State();
      CheckIsKept(m);
      RoundTrip(m, {});
      IdKinds(m);
      var referenced := map x | x in mapInfo :: mapInfo[x].refCount != 0;
      var tried := map x | x in mapInfo :: mapInfo[x].inTried;
      var news, rank := WriteEntries(RefIds(mapInfo), referenced);
      var trieds, _ := WriteEntries(TriedIds(mapInfo), tried);
      var buckets := WriteRows(rank);
      f := File(1, KEY_SIZE, hashes, nNew, nTried, FlipFlag(NEW_BUCKET_COUNT), news + trieds, buckets);
      assert buckets == FileOf(m).buckets;
    }

    lemma IdKinds(m: Manager)
      ensures RefIds(m.info) <= m.info.Keys && TriedIds(m.info) <= m.info.Keys
      ensures forall x :: x in m.info ==>
                (m.info[x].refCount != 0 <==> x in RefIds(m.info)) && (m.info[x].inTried <==> x in TriedIds(m.info))
    {
    }

    lemma HeldIsReferenced(m: Manager, id: int)
      requires id in m.info && m.info[id].refCount > 0
      ensures id in RefIds(m.info)
    {
    }

    /** Enters one entry into the three indexes. */
    method Enter(id: int, info: Info)
      modifies this`mapInfo, this`mapAddr, this`vRandom
      ensures State() == Entered(old(State()), id, info)
    {
      mapInfo := mapInfo[id := info.(randomPos := |vRandom|)];
      mapAddr := mapAddr[info.svc.ip := id];
      vRandom := vRandom + [id];
    }

    method ReadNew(f: File)
      requires Count(f.nNew) <= |f.infos| && Dims(vvNew, NEW_BUCKET_COUNT)
      modifies this
      ensures State() == LoadNew(old(State()), f, Count(f.nNew)) && Dims(vvNew, NEW_BUCKET_COUNT)
    {
      hide Primary, Dims;
      for n := 0 to Count(f.nNew)
        invariant State() == LoadNew(old(State()), f, n) && Dims(vvNew, NEW_BUCKET_COUNT)
      {
        Enter(n, FromDisk(f.infos[n]));
        if !Usable(f) {
          TakePrimary(n);
        }
      }
    }

    /** The one reference given to an entry whose stored positions cannot be used. */
    method TakePrimary(id: int)
      requires id in mapInfo && Dims(vvNew, NEW_BUCKET_COUNT)
      modifies this`mapInfo, this`vvNew
      ensures State() == Primary(old(State()), id) && Dims(vvNew, NEW_BUCKET_COUNT)
    {
      var nUBucket := NewBucket(hashes, mapInfo[id].svc, mapInfo[id].source);
      var nUBucketPos := Position(hashes, mapInfo[id].svc, true, nUBucket);
      if vvNew[nUBucket][nUBucketPos] == -1 {
        vvNew := Put(vvNew, nUBucket, nUBucketPos, id);
        mapInfo := mapInfo[id := mapInfo[id].(refCount := mapInfo[id].refCount + 1)];
      }
    }

    /** Enters one tried entry unless its slot is taken. */
    method ReadTriedEntry(info: Info, lost: nat) returns (nLost: nat)
      requires Dims(vvTried, TRIED_BUCKET_COUNT)
      modifies this
      ensures Dims(vvTried, TRIED_BUCKET_COUNT)
      ensures Loading(State(), nLost) == TriedEntered(Loading(old(State()), lost), info)
    {
      hide Entered;
      var nKBucket := TriedBucket(hashes, info.svc);
      var nKBucketPos := TriedPosition(hashes, info.svc);
      if vvTried[nKBucket][nKBucketPos] == -1 {
        Enter(nIdCount, info.(inTried := true));
        vvTried := Put(vvTried, nKBucket, nKBucketPos, nIdCount);
        nIdCount := nIdCount + 1;
        nLost := lost;
      } else {
        nLost := lost + 1;
      }
    }

    method ReadTried(f: File) returns (nLost: nat)
      requires Count(f.nNew) + Count(f.nTried) <= |f.infos| && Dims(vvTried, TRIED_BUCKET_COUNT)
      modifies this
      ensures Loading(State(), nLost) == LoadTried(old(State()), f, Count(f.nTried))
    {
      hide TriedEntered, Dims;
      nIdCount := f.nNew;
      nLost := 0;
      for n := 0 to Count(f.nTried)
        invariant Loading(State(), nLost) == LoadTried(old(State()), f, n) && Dims(vvTried, TRIED_BUCKET_COUNT)
      {
        nLost := ReadTriedEntry(FromDisk(f.infos[Count(f.nNew) + n]), nLost);
      }
    }

    /** The stored positions of one new bucket. */
    method ReadRow(f: File, bucket: nat)
      requires bucket < |f.buckets|
      requires forall n :: 0 <= n < nNew ==> n in mapInfo
      requires Usable(f) ==> bucket < NEW_BUCKET_COUNT && Dims(vvNew, NEW_BUCKET_COUNT)
      modifies this`mapInfo, this`vvNew
      ensures State() == LoadRow(old(State()), f, bucket, f.buckets[bucket], |f.buckets[bucket]|)
      ensures forall n :: 0 <= n < nNew ==> n in mapInfo
      ensures Usable(f) ==> Dims(vvNew, NEW_BUCKET_COUNT)
    {
      for n := 0 to |f.buckets[bucket]|
        invariant State() == LoadRow(old(State()), f, bucket, f.buckets[bucket], n)
        invariant forall n :: 0 <= n < nNew ==> n in mapInfo
        invariant Usable(f) ==> Dims(vvNew, NEW_BUCKET_COUNT)
      {
        var nIndex := f.buckets[bucket][n];
        if 0 <= nIndex < nNew {
          var nUBucketPos := Position(hashes, mapInfo[nIndex].svc, true, bucket);
          if Usable(f) && vvNew[bucket][nUBucketPos] == -1 && mapInfo[nIndex].refCount < NEW_BUCKETS_PER_ADDRESS {
            mapInfo := mapInfo[nIndex := mapInfo[nIndex].(refCount := mapInfo[nIndex].refCount + 1)];
            vvNew := Put(vvNew, bucket, nUBucketPos, nIndex);
          }
        }
      }
    }

    /** The stored positions of all new buckets. */
    method ReadRows(f: File)
      requires Count(Buckets(f)) <= |f.buckets|
      requires forall n :: 0 <= n < nNew ==> n in mapInfo
      requires Dims(vvNew, NEW_BUCKET_COUNT)
      modifies this`mapInfo, this`vvNew
      ensures State() == LoadRows(old(State()), f, Count(Buckets(f)))
    {
      hide LoadRow;
      for bucket := 0 to Count(Buckets(f))
        invariant State() == LoadRows(old(State()), f, bucket)
        invariant forall n :: 0 <= n < nNew ==> n in mapInfo
        invariant Usable(f) ==> Dims(vvNew, NEW_BUCKET_COUNT)
      {
        ReadRow(f, bucket);
      }
    }

    /** Drops the entries that got no reference back. */
    method PruneUnreferenced()
      requires exists bound :: Listed(State(), bound)
      modifies this
      ensures State() == Prune(old(State()), old(mapInfo).Keys)
    {
      hide Listed, Deleted, CanDelete, IsLeast;
      ghost var bound :| Listed(State(), bound);
      var todo := mapInfo.Keys;
      while todo != {}
        invariant Listed(State(), bound)
        invariant Prune(State(), todo) == Prune(old(State()), old(mapInfo).Keys)
        decreases |todo|
      {
        assert IsLeast(Least(todo), todo);
        var id :| IsLeast(id, todo);
        LeastIsUnique(id, Least(todo), todo);
        if id in mapInfo && !mapInfo[id].inTried && mapInfo[id].refCount == 0 {
          DeletedListed(State(), id, bound);
          Delete(id);
        }
        todo := todo - {id};
      }
    }

    /** Fails where the source throws; otherwise rebuilds every index from the file. */
    method Unserialize(f: File) returns (ok: bool)
      modifies this
      ensures ok <==> Readable(f)
      ensures ok ==> State() == Loaded(f, old(triedCollisions))
    {
      hide LoadNew, LoadTried, LoadRows, Prune, Usable, Listed, FlipFlag;
      Clear(f.key);
      if f.keySize != KEY_SIZE {
        return false;
      }
      nNew, nTried := f.nNew, f.nTried;
      if nNew > NEW_BUCKET_COUNT * BUCKET_SIZE {
        return false;
      }
      if nTried > TRIED_BUCKET_COUNT * BUCKET_SIZE {
        return false;
      }
      if Count(f.nNew) + Count(f.nTried) > |f.infos| || Buckets(f) > |f.buckets| {
        return false;
      }
      LoadNewShape(State(), f, Count(f.nNew));
      ReadNew(f);
      LoadTriedShape(State(), f, Count(f.nTried));
      var nLost := ReadTried(f);
      nTried := nTried - nLost;
      assert State() == LoadEntries(f, old(triedCollisions));
      LoadEntriesListed(f, triedCollisions);
      LoadEntriesShape(f, triedCollisions);
      LoadRowsListed(State(), f, Count(Buckets(f)), nIdCount);
      ReadRows(f);
      PruneUnreferenced();
      ok := true;
    }
  }

  /** How far after the starting bucket the search meets bucket `b`. */
  ghost function Offset(b: int, start: int): int {
    if b >= start then b - start else b + NEW_BUCKET_COUNT - start
  }

  /** The entry with this address sits at a position of vRandom below `n`. */
  ghost predicate AtPosition(m: Manager, ip: nat, n: int) {
    ip in m.addrs && m.addrs[ip] in m.info && 0 <= m.info[m.addrs[ip]].randomPos < n
  }
}
