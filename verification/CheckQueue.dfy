/** The parallel verification queue as a state machine over its critical sections. Thread 0 is
    the master; the others are workers. Everything between acquiring and releasing the mutex is one
    step, running one check is one step, and steps of different threads interleave freely. */
module CheckQueue {
  import opened Arithmetic

  /** Where a thread is in Loop. `Locked` is only held inside a step. */
  datatype Thread<T> =
    | Outside
    | Entering                                        // started, has not had the lock yet
    | Locked                                          // has the lock, its batch is accounted for
    | Holding(rest: seq<T>, count: nat, ok: bool)     // vChecks still to run, nNow, fOk
    | Asleep(notified: bool)                          // in cond.wait

  /** The fields the mutex protects. */
  datatype Shared<T> = Shared(queue: seq<T>, nIdle: int, nTotal: int, fAllOk: bool, nTodo: int, nBatchSize: nat)

  /** What one Wait was asked, which checks ran for it, and what it returned. */
  datatype Answer<T> = Answer(asked: multiset<T>, ran: multiset<T>, result: bool)

  /** `added`, `ran` and `skipped` are the history since the last Wait returned. */
  datatype State<T> = State(
    q: Shared<T>, threads: seq<Thread<T>>,
    added: multiset<T>, ran: multiset<T>, skipped: multiset<T>, answers: seq<Answer<T>>)

  datatype Event<T> =
    | Lock(i: nat)                       // top of the do loop, up to the next unlock
    | Wake(i: nat)                       // return from cond.wait, up to the next unlock
    | Exec(i: nat)                       // one check of the thread's batch
    | Add(checks: seq<T>, chosen: nat)   // `chosen` is the worker notify_one picks
    | Begin                              // the master calls Wait
    | Spawn                              // another worker thread starts

  // ---------------------------------------------------------------- the steps

  function Init<T>(nBatchSize: nat): State<T> {
    State(Shared([], 0, 0, true, 0, nBatchSize), [Outside], multiset{}, multiset{}, multiset{}, [])
  }

  function Notified<T>(t: Thread<T>): Thread<T> {
    if t.Asleep? then Asleep(true) else t
  }

  /** The accounting for the batch the thread brings back. */
  function CleanedUp<T>(s: State<T>, i: nat): State<T>
    requires 0 < |s.threads| && i < |s.threads|
  {
    var t := s.threads[i];
    if t.Holding? then
      var q := s.q.(fAllOk := s.q.fAllOk && t.ok, nTodo := s.q.nTodo - t.count);
      var ts := s.threads[i := Locked];
      s.(q := q, threads := if q.nTodo == 0 && i != 0 then ts[0 := Notified(ts[0])] else ts)
    else
      s.(q := s.q.(nTotal := s.q.nTotal + 1), threads := s.threads[i := Locked])
  }

  /** How many checks a thread takes. */
  function BatchSize<T>(q: Shared<T>): int
    requires q.nTotal >= 0 && q.nIdle >= 0
  {
    var share := |q.queue| / (q.nTotal + q.nIdle + 1);
    var capped := if q.nBatchSize < share then q.nBatchSize else share;
    if capped < 1 then 1 else capped
  }

  /** The batch leaves the queue from the back. */
  function Batch<T>(queue: seq<T>, n: nat): (b: seq<T>)
    requires n <= |queue|
    ensures |b| == n
  {
    seq(n, k requires 0 <= k < n => queue[|queue| - 1 - k])
  }

  /** The inner loop: return, sleep or take a batch. */
  function Looped<T>(s: State<T>, i: nat): State<T>
    requires 0 < |s.threads| && i < |s.threads| && s.q.nTotal >= 0 && s.q.nIdle >= 0
  {
    if s.q.queue != [] then
      BatchSizeBounds(s.q);
      var n := BatchSize(s.q);
      s.(q := s.q.(queue := s.q.queue[..|s.q.queue| - n]),
         threads := s.threads[i := Holding(Batch(s.q.queue, n), n, s.q.fAllOk)])
    else if i == 0 && s.q.nTodo == 0 then
      State(s.q.(nTotal := s.q.nTotal - 1, fAllOk := true), s.threads[0 := Outside],
            multiset{}, multiset{}, multiset{}, s.answers + [Answer(s.added, s.ran, s.q.fAllOk)])
    else
      s.(q := s.q.(nIdle := s.q.nIdle + 1), threads := s.threads[i := Asleep(false)])
  }

  /** Running, or skipping, the next check of a batch. */
  function Executed<T>(s: State<T>, i: nat, eval: T -> bool): State<T>
    requires i < |s.threads| && s.threads[i].Holding? && s.threads[i].rest != []
  {
    var t := s.threads[i];
    var c := t.rest[0];
    var ts := s.threads[i := t.(rest := t.rest[1..], ok := t.ok && eval(c))];
    if t.ok then s.(threads := ts, ran := s.ran + multiset{c})
        else s.(threads := ts, skipped := s.skipped + multiset{c})
  }

  /** notify_all wakes every sleeping worker. */
  function WorkersNotified<T>(ts: seq<Thread<T>>): (r: seq<Thread<T>>)
    ensures |r| == |ts|
  {
    seq(|ts|, k requires 0 <= k < |ts| => if k == 0 then ts[k] else Notified(ts[k]))
  }

  function Added<T>(s: State<T>, checks: seq<T>, chosen: nat): State<T> {
    var q := s.q.(queue := s.q.queue + checks, nTodo := s.q.nTodo + |checks|);
    var ts :=
      if |checks| == 1 && 0 < chosen < |s.threads| then s.threads[chosen := Notified(s.threads[chosen])]
      else if |checks| > 1 then WorkersNotified(s.threads)
      else s.threads;
    s.(q := q, threads := ts, added := s.added + multiset(checks))
  }

  /** Which events can happen. Checks may be added at any time, also by others while the master is
      in Wait; they then belong to that Wait. */
  predicate Enabled<T>(s: State<T>, e: Event<T>) {
    && |s.threads| > 0
    && match e
       case Lock(i) => i < |s.threads| && (s.threads[i].Entering? || (s.threads[i].Holding? && s.threads[i].rest == []))
       case Wake(i) => i < |s.threads| && s.threads[i].Asleep?
       case Exec(i) => i < |s.threads| && s.threads[i].Holding? && s.threads[i].rest != []
       case Add(_, _) => true
       case Begin => s.threads[0].Outside?
       case Spawn => true
  }

  ghost function Step<T(!new)>(s: State<T>, e: Event<T>, eval: T -> bool): State<T>
    requires Enabled(s, e) && Inv(s, eval)
  {
    match e
    case Lock(i) => CleanedUpKeeps(s, i, eval); Looped(CleanedUp(s, i), i)
    case Wake(i) => WokenKeeps(s, i, eval); Looped(Woken(s, i), i)
    case Exec(i) => Executed(s, i, eval)
    case Add(checks, chosen) => Added(s, checks, chosen)
    case Begin => s.(threads := s.threads[0 := Entering])
    case Spawn => s.(threads := s.threads + [Entering])
  }

  /** Back from cond.wait, with the lock. */
  function Woken<T>(s: State<T>, i: nat): State<T>
    requires i < |s.threads|
  {
    s.(q := s.q.(nIdle := s.q.nIdle - 1), threads := s.threads[i := Locked])
  }

  // ---------------------------------------------------------------- the invariant

  function Sum<T>(ts: seq<Thread<T>>, f: Thread<T> -> int): int {
    if ts == [] then 0 else f(ts[0]) + Sum(ts[1..], f)
  }

  function Pending<T>(ts: seq<Thread<T>>): multiset<T> {
    if ts == [] then multiset{} else multiset(Rest(ts[0])) + Pending(ts[1..])
  }

  function Rest<T>(t: Thread<T>): seq<T> { if t.Holding? then t.rest else [] }
  function Taken<T>(t: Thread<T>): int { if t.Holding? then t.count else 0 }
  function Idle<T>(t: Thread<T>): int { if t.Asleep? then 1 else 0 }
  function InLoop<T>(t: Thread<T>): int { if t.Outside? || t.Entering? then 0 else 1 }

  function Failed<T>(t: Thread<T>): int { if t.Holding? && !t.ok then 1 else 0 }

  ghost predicate Counts<T>(s: State<T>) {
    && s.q.nTodo == |s.q.queue| + Sum(s.threads, Taken)
    && s.q.nIdle == Sum(s.threads, Idle)
    && s.q.nTotal == Sum(s.threads, InLoop)
  }

  ghost predicate BatchesOk<T>(ts: seq<Thread<T>>) {
    forall i :: 0 <= i < |ts| && ts[i].Holding? ==> ts[i].count >= 1 && |ts[i].rest| <= ts[i].count
  }

  /** No check is lost or duplicated. */
  ghost predicate Conserved<T>(s: State<T>) {
    s.added == multiset(s.q.queue) + Pending(s.threads) + s.ran + s.skipped
  }

  ghost predicate AllPass<T(!new)>(m: multiset<T>, eval: T -> bool) {
    forall c :: c in m ==> eval(c)
  }

  /** No failure is recorded in the queue or in any batch. */
  ghost predicate NoFailure<T>(s: State<T>) {
    s.q.fAllOk && Sum(s.threads, Failed) == 0
  }

  /** The recorded failures are exactly the failures of the checks that ran. */
  ghost predicate Verdict<T(!new)>(s: State<T>, eval: T -> bool) {
    && (NoFailure(s) ==> s.skipped == multiset{} && AllPass(s.ran, eval))
    && (!NoFailure(s) ==> !AllPass(s.ran, eval))
  }

  ghost predicate SomeoneLocked<T>(ts: seq<Thread<T>>) {
    exists k :: 0 <= k < |ts| && ts[k].Locked?
  }

  /** While the master sleeps un-notified another thread has a batch in hand, or is about to take
      one. */
  ghost predicate NoLostWakeup<T>(s: State<T>)
    requires |s.threads| > 0
  {
    s.threads[0] == Asleep(false) ==>
      || Sum(s.threads, Taken) > 0
      || (s.q.queue != [] && SomeoneLocked(s.threads))
  }

  /** A Wait returned true exactly when every check it was asked passes, and then each ran once. */
  ghost predicate AnswerOk<T(!new)>(a: Answer<T>, eval: T -> bool) {
    && (a.result <==> AllPass(a.asked, eval))
    && (a.result ==> a.ran == a.asked)
  }

  ghost predicate AnswersOk<T(!new)>(s: State<T>, eval: T -> bool) {
    forall k :: 0 <= k < |s.answers| ==> AnswerOk(s.answers[k], eval)
  }

  ghost predicate Inv<T(!new)>(s: State<T>, eval: T -> bool) {
    && |s.threads| > 0
    && Counts(s) && BatchesOk(s.threads) && Conserved(s) && Verdict(s, eval) && NoLostWakeup(s) && AnswersOk(s, eval)
  }

  // ---------------------------------------------------------------- sums over threads

  lemma {:induction false} SumUpdate<T>(ts: seq<Thread<T>>, i: nat, t: Thread<T>, f: Thread<T> -> int)
    requires i < |ts|
    ensures Sum(ts[i := t], f) == Sum(ts, f) - f(ts[i]) + f(t)
  {
    if i == 0 {
      assert ts[i := t][1..] == ts[1..];
    } else {
      assert ts[i := t][1..] == ts[1..][i - 1 := t];
      SumUpdate(ts[1..], i - 1, t, f);
    }
  }

  lemma {:induction false} SumAppend<T>(ts: seq<Thread<T>>, t: Thread<T>, f: Thread<T> -> int)
    ensures Sum(ts + [t], f) == Sum(ts, f) + f(t)
  {
    if ts != [] {
      assert (ts + [t])[1..] == ts[1..] + [t];
      SumAppend(ts[1..], t, f);
    }
  }

  lemma {:induction false} SumSame<T>(ts: seq<Thread<T>>, us: seq<Thread<T>>, f: Thread<T> -> int)
    requires |ts| == |us| && forall k :: 0 <= k < |ts| ==> f(ts[k]) == f(us[k])
    ensures Sum(ts, f) == Sum(us, f)
  {
    if ts != [] {
      SumSame(ts[1..], us[1..], f);
    }
  }

  lemma {:induction false} SumAtLeast<T>(ts: seq<Thread<T>>, i: nat, f: Thread<T> -> int)
    requires i < |ts| && forall k :: 0 <= k < |ts| ==> f(ts[k]) >= 0
    ensures Sum(ts, f) >= f(ts[i])
  {
    SumNonNegative(ts[1..], f);
    if i > 0 {
      SumAtLeast(ts[1..], i - 1, f);
    }
  }

  lemma {:induction false} SumNonNegative<T>(ts: seq<Thread<T>>, f: Thread<T> -> int)
    requires forall k :: 0 <= k < |ts| ==> f(ts[k]) >= 0
    ensures Sum(ts, f) >= 0
    ensures Sum(ts, f) > 0 ==> exists k :: 0 <= k < |ts| && f(ts[k]) > 0
  {
    if ts != [] {
      SumNonNegative(ts[1..], f);
      if f(ts[0]) == 0 && Sum(ts, f) > 0 {
        var k :| 0 <= k < |ts[1..]| && f(ts[1..][k]) > 0;
        assert f(ts[k + 1]) > 0;
      }
    }
  }

  lemma {:induction false} PendingUpdate<T>(ts: seq<Thread<T>>, i: nat, t: Thread<T>)
    requires i < |ts|
    ensures Pending(ts[i := t]) + multiset(Rest(ts[i])) == Pending(ts) + multiset(Rest(t))
  {
    if i == 0 {
      assert ts[i := t][1..] == ts[1..];
    } else {
      assert ts[i := t][1..] == ts[1..][i - 1 := t];
      PendingUpdate(ts[1..], i - 1, t);
      var first, rest, rest' := multiset(Rest(ts[0])), Pending(ts[1..]), Pending(ts[1..][i - 1 := t]);
      assert Pending(ts[i := t]) == first + rest';
      assert (first + rest') + multiset(Rest(ts[i])) == first + (rest' + multiset(Rest(ts[i])));
      assert first + (rest + multiset(Rest(t))) == (first + rest) + multiset(Rest(t));
    }
  }

  lemma PendingRun<T>(ts: seq<Thread<T>>, i: nat, t: Thread<T>, c: T)
    requires i < |ts| && Rest(ts[i]) == [c] + Rest(t)
    ensures Pending(ts) == Pending(ts[i := t]) + multiset{c}
  {
    hide Pending;
    PendingUpdate(ts, i, t);
    assert multiset([c] + Rest(t)) == multiset{c} + multiset(Rest(t));
    assert (Pending(ts[i := t]) + multiset{c}) + multiset(Rest(t)) == Pending(ts) + multiset(Rest(t));
    SameAddend(Pending(ts[i := t]) + multiset{c}, Pending(ts), multiset(Rest(t)));
  }

  lemma SameAddend<T>(a: multiset<T>, b: multiset<T>, c: multiset<T>)
    requires a + c == b + c
    ensures a == b
  {
    assert a == (a + c) - c && b == (b + c) - c;
  }

  lemma {:induction false} PendingAppend<T>(ts: seq<Thread<T>>, t: Thread<T>)
    requires Rest(t) == []
    ensures Pending(ts + [t]) == Pending(ts)
  {
    if ts != [] {
      assert (ts + [t])[1..] == ts[1..] + [t];
      PendingAppend(ts[1..], t);
    }
  }

  lemma {:induction false} PendingSame<T>(ts: seq<Thread<T>>, us: seq<Thread<T>>)
    requires |ts| == |us| && forall k :: 0 <= k < |ts| ==> Rest(ts[k]) == Rest(us[k])
    ensures Pending(ts) == Pending(us)
  {
    if ts != [] {
      PendingSame(ts[1..], us[1..]);
    }
  }

  lemma {:induction false} NothingPending<T>(ts: seq<Thread<T>>)
    requires BatchesOk(ts) && Sum(ts, Taken) == 0
    ensures Pending(ts) == multiset{} && Sum(ts, Failed) == 0
  {
    forall k | 0 <= k < |ts|
      ensures !ts[k].Holding?
    {
      SumAtLeast(ts, k, Taken);
    }
    NoneHolding(ts);
    SumNonNegative(ts, Failed);
  }

  lemma {:induction false} NoneHolding<T>(ts: seq<Thread<T>>)
    requires forall k :: 0 <= k < |ts| ==> !ts[k].Holding?
    ensures Pending(ts) == multiset{}
  {
    if ts != [] {
      NoneHolding(ts[1..]);
    }
  }

  lemma LockedStays<T>(ts: seq<Thread<T>>, us: seq<Thread<T>>)
    requires |ts| <= |us| && forall k :: 0 <= k < |ts| && ts[k].Locked? ==> us[k].Locked?
    ensures SomeoneLocked(ts) ==> SomeoneLocked(us)
  {
    if SomeoneLocked(ts) {
      var k :| 0 <= k < |ts| && ts[k].Locked?;
      assert us[k].Locked?;
    }
  }

  /** Replacing one thread by another, in every sum at once. */
  lemma UpdateSums<T>(ts: seq<Thread<T>>, i: nat, t: Thread<T>)
    requires i < |ts|
    ensures Sum(ts[i := t], Taken) == Sum(ts, Taken) - Taken(ts[i]) + Taken(t)
    ensures Sum(ts[i := t], Idle) == Sum(ts, Idle) - Idle(ts[i]) + Idle(t)
    ensures Sum(ts[i := t], InLoop) == Sum(ts, InLoop) - InLoop(ts[i]) + InLoop(t)
    ensures Sum(ts[i := t], Failed) == Sum(ts, Failed) - Failed(ts[i]) + Failed(t)
    ensures Sum(ts[i := t], Failed) >= 0 && Sum(ts, Failed) >= Failed(ts[i])
    ensures Pending(ts[i := t]) + multiset(Rest(ts[i])) == Pending(ts) + multiset(Rest(t))
    ensures Rest(ts[i]) == [] ==> Pending(ts[i := t]) == Pending(ts) + multiset(Rest(t))
    ensures Rest(ts[i]) == Rest(t) == [] ==> Pending(ts[i := t]) == Pending(ts)
  {
    SumUpdate(ts, i, t, Failed);
    SumAtLeast(ts, i, Failed);
    SumAtLeast(ts[i := t], i, Failed);
    SumUpdate(ts, i, t, Taken);
    SumUpdate(ts, i, t, Idle);
    SumUpdate(ts, i, t, InLoop);
    PendingUpdate(ts, i, t);
  }

  lemma NotifySums<T>(ts: seq<Thread<T>>, us: seq<Thread<T>>)
    requires |ts| == |us| && forall k :: 0 <= k < |ts| ==> us[k] == ts[k] || us[k] == Notified(ts[k])
    ensures Sum(us, Taken) == Sum(ts, Taken) && Sum(us, Idle) == Sum(ts, Idle) && Sum(us, InLoop) == Sum(ts, InLoop)
    ensures Sum(us, Failed) == Sum(ts, Failed) && Pending(us) == Pending(ts)
  {
    SumSame(ts, us, Failed);
    SumSame(ts, us, Taken);
    SumSame(ts, us, Idle);
    SumSame(ts, us, InLoop);
    PendingSame(ts, us);
  }

  // ---------------------------------------------------------------- every step keeps the invariant

  lemma CleanedUpKeeps<T(!new)>(s: State<T>, i: nat, eval: T -> bool)
    requires Inv(s, eval) && Enabled(s, Lock(i))
    ensures |CleanedUp(s, i).threads| == |s.threads|
    ensures Inv(CleanedUp(s, i), eval) && CleanedUp(s, i).threads[i] == Locked
    ensures CleanedUp(s, i).q.nTotal >= 0 && CleanedUp(s, i).q.nIdle >= 0
    ensures CleanedUp(s, i).q.nTodo >= 0
  {
    hide Sum, Pending;
    var r := CleanedUp(s, i);
    assert r.threads[i].Locked?;
    CleanedUpSums(s, i);
    SumNonNegative(r.threads, Idle);
    SumNonNegative(r.threads, InLoop);
    SumNonNegative(r.threads, Taken);
  }

  lemma CleanedUpSums<T(!new)>(s: State<T>, i: nat)
    requires |s.threads| > 0 && Enabled(s, Lock(i))
    ensures var us := CleanedUp(s, i).threads;
            && Sum(us, Taken) == Sum(s.threads, Taken) - Taken(s.threads[i])
            && Sum(us, Idle) == Sum(s.threads, Idle)
            && Sum(us, InLoop) == Sum(s.threads, InLoop) + (if s.threads[i].Holding? then 0 else 1)
            && 0 <= Sum(us, Failed) == Sum(s.threads, Failed) - Failed(s.threads[i])
            && Pending(us) == Pending(s.threads)
  {
    hide Sum, Pending, SomeoneLocked;
    UpdateSums(s.threads, i, Locked);
    NotifySums(s.threads[i := Locked], CleanedUp(s, i).threads);
  }

  lemma WokenKeeps<T(!new)>(s: State<T>, i: nat, eval: T -> bool)
    requires Inv(s, eval) && Enabled(s, Wake(i))
    ensures |Woken(s, i).threads| == |s.threads|
    ensures Inv(Woken(s, i), eval) && Woken(s, i).threads[i] == Locked
    ensures Woken(s, i).q.nTotal >= 0 && Woken(s, i).q.nIdle >= 0
  {
    hide Sum, Pending;
    var r := Woken(s, i);
    assert r.threads[i].Locked?;
    UpdateSums(s.threads, i, Locked);
    SumNonNegative(r.threads, Idle);
    SumNonNegative(r.threads, InLoop);
    assert NoFailure(r) <==> NoFailure(s);
  }

  /** A batch is never empty, never more than is queued, and respects the configured maximum. */
  lemma BatchSizeBounds<T>(q: Shared<T>)
    requires q.nTotal >= 0 && q.nIdle >= 0 && q.queue != []
    ensures 1 <= BatchSize(q) <= |q.queue|
    ensures BatchSize(q) <= q.nBatchSize || BatchSize(q) == 1
  {
    Quotient(|q.queue|, q.nTotal + q.nIdle + 1);
  }

  /** Between the minimum of one and the configured maximum, the largest batch that leaves as much for
      every other worker, idle ones counted twice. */
  lemma FairShare<T>(q: Shared<T>, n: nat)
    requires q.nTotal >= 0 && q.nIdle >= 0 && 1 < n <= q.nBatchSize
    ensures n <= BatchSize(q) <==> n * (q.nTotal + q.nIdle + 1) <= |q.queue|
  {
    var share, all := |q.queue|, q.nTotal + q.nIdle + 1;
    DivBounds(share, all);
    if n <= share / all {
      MulMono(n, share / all, all);
    } else {
      MulMono(share / all + 1, n, all);
    }
  }

  lemma {:induction false} BatchTakes<T>(queue: seq<T>, n: nat)
    requires n <= |queue|
    ensures multiset(queue) == multiset(queue[..|queue| - n]) + multiset(Batch(queue, n))
  {
    if n == 0 {
      assert queue[..|queue|] == queue;
    } else {
      var last := |queue| - 1;
      BatchTakes(queue[..last], n - 1);
      assert queue == queue[..last] + [queue[last]];
      assert Batch(queue, n) == [queue[last]] + Batch(queue[..last], n - 1);
      assert queue[..last][..last - (n - 1)] == queue[..|queue| - n];
    }
  }

  lemma LoopedKeeps<T(!new)>(s: State<T>, i: nat, eval: T -> bool)
    requires Inv(s, eval) && i < |s.threads| && s.threads[i] == Locked && s.q.nTotal >= 0 && s.q.nIdle >= 0
    ensures Inv(Looped(s, i), eval)
  {
    if s.q.queue != [] {
      LoopedTakes(s, i, eval);
    } else if i == 0 && s.q.nTodo == 0 {
      LoopedReturns(s, eval);
    } else {
      LoopedSleeps(s, i, eval);
    }
  }

  lemma LoopedTakes<T(!new)>(s: State<T>, i: nat, eval: T -> bool)
    requires Inv(s, eval) && i < |s.threads| && s.threads[i] == Locked && s.q.nTotal >= 0 && s.q.nIdle >= 0
    requires s.q.queue != []
    ensures Inv(Looped(s, i), eval) && BatchSize(s.q) <= |s.q.queue|
  {
    hide Sum, Pending, BatchSize, Conserved, SomeoneLocked;
    BatchSizeBounds(s.q);
    var r := Looped(s, i);
    UpdateSums(s.threads, i, r.threads[i]);
    SumAtLeast(r.threads, i, Taken);
    TakesConserve(s, i);
    assert NoFailure(r) <==> NoFailure(s);
  }

  lemma TakesConserve<T>(s: State<T>, i: nat)
    requires i < |s.threads| && s.threads[i] == Locked && s.q.nTotal >= 0 && s.q.nIdle >= 0
    requires s.q.queue != [] && Conserved(s)
    ensures Conserved(Looped(s, i))
  {
    hide Sum, Pending, BatchSize, Batch;
    BatchSizeBounds(s.q);
    BatchTakes(s.q.queue, BatchSize(s.q));
    UpdateSums(s.threads, i, Looped(s, i).threads[i]);
  }

  lemma LoopedReturns<T(!new)>(s: State<T>, eval: T -> bool)
    requires Inv(s, eval) && s.threads[0] == Locked && s.q.nTotal >= 0 && s.q.nIdle >= 0
    requires s.q.queue == [] && s.q.nTodo == 0
    ensures Inv(Looped(s, 0), eval)
    ensures AnswerOk(Answer(s.added, s.ran, s.q.fAllOk), eval)
  {
    hide Sum, Pending, SomeoneLocked;
    NothingPending(s.threads);
    var r := Looped(s, 0);
    UpdateSums(s.threads, 0, Outside);
    assert NoFailure(s) <==> s.q.fAllOk;
    assert s.added == s.ran + s.skipped;
    assert NoFailure(r);
  }

  lemma LoopedSleeps<T(!new)>(s: State<T>, i: nat, eval: T -> bool)
    requires Inv(s, eval) && i < |s.threads| && s.threads[i] == Locked && s.q.nTotal >= 0 && s.q.nIdle >= 0
    requires s.q.queue == [] && !(i == 0 && s.q.nTodo == 0)
    ensures Inv(Looped(s, i), eval)
  {
    hide Sum, Pending, SomeoneLocked;
    SumNonNegative(s.threads, Taken);
    var r := Looped(s, i);
    UpdateSums(s.threads, i, Asleep(false));
    assert NoFailure(r) <==> NoFailure(s);
  }

  lemma ExecutedKeeps<T(!new)>(s: State<T>, i: nat, eval: T -> bool)
    requires Inv(s, eval) && Enabled(s, Exec(i))
    ensures Inv(Executed(s, i, eval), eval)
  {
    hide Sum, Pending, Conserved, Verdict, SomeoneLocked;
    var r := Executed(s, i, eval);
    UpdateSums(s.threads, i, r.threads[i]);
    LockedStays(s.threads, r.threads);
    ExecutedConserves(s, i, eval);
    ExecutedVerdict(s, i, eval);
  }

  lemma ExecutedConserves<T(!new)>(s: State<T>, i: nat, eval: T -> bool)
    requires Conserved(s) && Enabled(s, Exec(i))
    ensures Conserved(Executed(s, i, eval))
  {
    hide Sum, Pending, SomeoneLocked;
    var r, t := Executed(s, i, eval), s.threads[i];
    assert t.rest == [t.rest[0]] + t.rest[1..];
    PendingRun(s.threads, i, r.threads[i], t.rest[0]);
  }

  lemma ExecutedVerdict<T(!new)>(s: State<T>, i: nat, eval: T -> bool)
    requires Verdict(s, eval) && Enabled(s, Exec(i))
    ensures Verdict(Executed(s, i, eval), eval)
  {
    hide Sum, Pending, SomeoneLocked;
    var r, c := Executed(s, i, eval), s.threads[i].rest[0];
    UpdateSums(s.threads, i, r.threads[i]);
    if s.threads[i].ok {
      assert NoFailure(r) <==> NoFailure(s) && eval(c);
      assert c in r.ran && forall d :: d in r.ran <==> d in s.ran || d == c;
    }
  }

  lemma AddedKeeps<T(!new)>(s: State<T>, checks: seq<T>, chosen: nat, eval: T -> bool)
    requires Inv(s, eval)
    ensures Inv(Added(s, checks, chosen), eval)
  {
    hide Sum, Pending, SomeoneLocked;
    var r := Added(s, checks, chosen);
    NotifySums(s.threads, r.threads);
    LockedStays(s.threads, r.threads);
    assert NoFailure(r) <==> NoFailure(s);
  }

  lemma SpawnKeeps<T(!new)>(s: State<T>, eval: T -> bool)
    requires Inv(s, eval)
    ensures Inv(s.(threads := s.threads + [Entering]), eval)
  {
    hide Sum, Pending, SomeoneLocked;
    var r := s.(threads := s.threads + [Entering]);
    SumAppend(s.threads, Entering, Taken);
    SumAppend(s.threads, Entering, Idle);
    SumAppend(s.threads, Entering, InLoop);
    SumAppend(s.threads, Entering, Failed);
    PendingAppend(s.threads, Entering);
    LockedStays(s.threads, r.threads);
    assert NoFailure(r) <==> NoFailure(s);
  }

  lemma BeginKeeps<T(!new)>(s: State<T>, eval: T -> bool)
    requires Inv(s, eval) && s.threads[0].Outside?
    ensures Inv(s.(threads := s.threads[0 := Entering]), eval)
  {
    hide Sum, Pending, SomeoneLocked;
    var r := s.(threads := s.threads[0 := Entering]);
    UpdateSums(s.threads, 0, Entering);
    assert NoFailure(r) <==> NoFailure(s);
  }

  lemma StepKeeps<T(!new)>(s: State<T>, e: Event<T>, eval: T -> bool)
    requires Inv(s, eval) && Enabled(s, e)
    ensures Inv(Step(s, e, eval), eval)
  {
    hide Inv, Looped, CleanedUp, Woken, Executed, Added;
    match e
    case Lock(i) =>
      CleanedUpKeeps(s, i, eval);
      Within(CleanedUp(s, i), i, eval);
    case Wake(i) =>
      WokenKeeps(s, i, eval);
      Within(Woken(s, i), i, eval);
    case Exec(i) => ExecutedKeeps(s, i, eval);
    case Add(checks, chosen) => AddedKeeps(s, checks, chosen, eval);
    case Begin => BeginKeeps(s, eval);
    case Spawn => SpawnKeeps(s, eval);
  }

  lemma Within<T(!new)>(s: State<T>, i: nat, eval: T -> bool)
    requires Inv(s, eval) && i < |s.threads| && s.threads[i] == Locked && s.q.nTotal >= 0 && s.q.nIdle >= 0
    ensures Inv(Looped(s, i), eval)
  {
    hide Inv, Looped;
    LoopedKeeps(s, i, eval);
  }

  // ---------------------------------------------------------------- runs

  /** No thread keeps the mutex between steps. */
  ghost predicate Released<T>(s: State<T>) {
    forall k :: 0 <= k < |s.threads| ==> !s.threads[k].Locked?
  }

  lemma StepReleases<T(!new)>(s: State<T>, e: Event<T>, eval: T -> bool)
    requires Inv(s, eval) && Enabled(s, e) && Released(s)
    ensures Released(Step(s, e, eval))
  {
    hide Inv, Looped;
    if e.Lock? {
      CleanedUpKeeps(s, e.i, eval);
      LoopedReleases(CleanedUp(s, e.i), e.i);
    } else if e.Wake? {
      WokenKeeps(s, e.i, eval);
      LoopedReleases(Woken(s, e.i), e.i);
    }
  }

  lemma LoopedReleases<T>(s: State<T>, i: nat)
    requires i < |s.threads| && s.q.nTotal >= 0 && s.q.nIdle >= 0
    requires forall k :: 0 <= k < |s.threads| && k != i ==> !s.threads[k].Locked?
    ensures Released(Looped(s, i))
  {
    hide BatchSize, Batch;
    if s.q.queue != [] {
      BatchSizeBounds(s.q);
    }
  }

  ghost predicate Possible<T(!new)>(s: State<T>, es: seq<Event<T>>, eval: T -> bool)
    requires Inv(s, eval)
    decreases |es|
  {
    es == [] || (Enabled(s, es[0]) && (StepKeeps(s, es[0], eval); Possible(Step(s, es[0], eval), es[1..], eval)))
  }

  ghost function Run<T(!new)>(s: State<T>, es: seq<Event<T>>, eval: T -> bool): (r: State<T>)
    requires Inv(s, eval) && Possible(s, es, eval)
    ensures Inv(r, eval)
    decreases |es|
  {
    if es == [] then s else StepKeeps(s, es[0], eval); Run(Step(s, es[0], eval), es[1..], eval)
  }

  lemma {:induction false} RunKeeps<T(!new)>(s: State<T>, es: seq<Event<T>>, eval: T -> bool)
    requires Inv(s, eval) && Released(s) && Possible(s, es, eval)
    ensures Inv(Run(s, es, eval), eval) && Released(Run(s, es, eval))
    decreases |es|
  {
    if es != [] {
      StepKeeps(s, es[0], eval);
      StepReleases(s, es[0], eval);
      RunKeeps(Step(s, es[0], eval), es[1..], eval);
    }
  }

  lemma InitOk<T(!new)>(nBatchSize: nat, eval: T -> bool)
    ensures Inv(Init<T>(nBatchSize), eval) && Released(Init<T>(nBatchSize))
  {
  }

  /** Whatever the threads do, every Wait answers for exactly the checks added since the last one. */
  lemma EveryWaitAnswers<T(!new)>(nBatchSize: nat, es: seq<Event<T>>, eval: T -> bool, k: nat)
    requires (InitOk(nBatchSize, eval); Possible(Init<T>(nBatchSize), es, eval))
    requires k < |Run(Init<T>(nBatchSize), es, eval).answers|
    ensures var a := Run(Init<T>(nBatchSize), es, eval).answers[k];
            && (a.result <==> AllPass(a.asked, eval))
            && (a.result ==> a.ran == a.asked)
  {
    InitOk(nBatchSize, eval);
    RunKeeps(Init<T>(nBatchSize), es, eval);
  }

  // ---------------------------------------------------------------- Wait comes back

  /** A thread going on with Loop, rather than the master's own calls. */
  predicate IsMove<T>(e: Event<T>) {
    e.Lock? || e.Wake? || e.Exec?
  }

  /** A return from cond.wait that nobody asked for. */
  predicate IsSpurious<T>(s: State<T>, e: Event<T>) {
    e.Wake? && e.i < |s.threads| && s.threads[e.i] == Asleep(false)
  }

  /** While the master is in Wait, some thread can go on without a spurious wake-up. */
  lemma SomeoneCanMove<T(!new)>(s: State<T>, eval: T -> bool) returns (e: Event<T>)
    requires Inv(s, eval) && Released(s) && !s.threads[0].Outside?
    ensures IsMove(e) && Enabled(s, e) && !IsSpurious(s, e)
  {
    hide Sum, Pending;
    var i := 0;
    if s.threads[0] == Asleep(false) {
      SumNonNegative(s.threads, Taken);
      i :| 0 <= i < |s.threads| && Taken(s.threads[i]) > 0;
    }
    var t := s.threads[i];
    e := if t.Asleep? then Wake(i) else if t.Holding? && t.rest != [] then Exec(i) else Lock(i);
  }

  function Weight<T>(t: Thread<T>): int {
    match t
    case Entering => 1
    case Holding(rest, count, _) => 2 * count + |rest|
    case Asleep(notified) => if notified then 1 else 0
    case _ => 0
  }

  /** Bounds the moves left. */
  function Measure<T>(s: State<T>): int {
    4 * |s.q.queue| + Sum(s.threads, Weight)
  }

  lemma LoopedShrinks<T(!new)>(s: State<T>, i: nat, eval: T -> bool)
    requires Inv(s, eval) && i < |s.threads| && s.threads[i] == Locked && s.q.nTotal >= 0 && s.q.nIdle >= 0
    ensures Measure(Looped(s, i)) <= Measure(s)
  {
    hide Sum, BatchSize, Inv;
    if s.q.queue != [] {
      BatchSizeBounds(s.q);
    }
    SumUpdate(s.threads, i, Looped(s, i).threads[i], Weight);
  }

  lemma CleanedUpShrinks<T(!new)>(s: State<T>, i: nat, eval: T -> bool)
    requires Inv(s, eval) && Enabled(s, Lock(i))
    ensures Measure(CleanedUp(s, i)) < Measure(s)
  {
    hide Sum, Conserved, Verdict, AnswersOk, NoLostWakeup, Counts;
    var ts := s.threads[i := Locked];
    SumUpdate(s.threads, i, Locked, Weight);
    SumUpdate(ts, 0, Notified(ts[0]), Weight);
    assert s.threads[i].Holding? ==> s.threads[i].count >= 1;
  }

  lemma MoveShrinks<T(!new)>(s: State<T>, e: Event<T>, eval: T -> bool)
    requires Inv(s, eval) && Enabled(s, e) && IsMove(e)
    ensures Measure(Step(s, e, eval)) <= Measure(s) - (if IsSpurious(s, e) then 0 else 1)
  {
    hide Sum, Inv, Looped, CleanedUp;
    match e
    case Lock(i) =>
      CleanedUpKeeps(s, i, eval);
      CleanedUpShrinks(s, i, eval);
      LoopedShrinks(CleanedUp(s, i), i, eval);
    case Wake(i) =>
      WokenKeeps(s, i, eval);
      SumUpdate(s.threads, i, Locked, Weight);
      LoopedShrinks(Woken(s, i), i, eval);
    case Exec(i) =>
      SumUpdate(s.threads, i, Executed(s, i, eval).threads[i], Weight);
  }

  ghost function SpuriousIn<T(!new)>(s: State<T>, es: seq<Event<T>>, eval: T -> bool): nat
    requires Inv(s, eval) && Possible(s, es, eval)
    decreases |es|
  {
    if es == [] then 0 else
      StepKeeps(s, es[0], eval);
      (if IsSpurious(s, es[0]) then 1 else 0) + SpuriousIn(Step(s, es[0], eval), es[1..], eval)
  }

  /** Without new checks the threads can only make so many moves; spurious wake-ups aside. */
  lemma {:induction false} MovesAreBounded<T(!new)>(s: State<T>, es: seq<Event<T>>, eval: T -> bool)
    requires Inv(s, eval) && Possible(s, es, eval) && forall k :: 0 <= k < |es| ==> IsMove(es[k])
    ensures |es| <= Measure(s) + SpuriousIn(s, es, eval)
    decreases |es|
  {
    hide Inv, Step, Sum;
    if es == [] {
      MeasureNonNegative(s, eval);
    } else {
      StepKeeps(s, es[0], eval);
      MoveShrinks(s, es[0], eval);
      MovesAreBounded(Step(s, es[0], eval), es[1..], eval);
    }
  }

  lemma MeasureNonNegative<T(!new)>(s: State<T>, eval: T -> bool)
    requires Inv(s, eval)
    ensures Measure(s) >= 0
  {
    SumNonNegative(s.threads, Weight);
  }

  /** A Wait returns: moves that leave nothing to do have brought the master out of it. */
  lemma WaitReturns<T(!new)>(s: State<T>, es: seq<Event<T>>, eval: T -> bool)
    requires Inv(s, eval) && Released(s) && Possible(s, es, eval)
    requires var r := Run(s, es, eval);
             forall e :: IsMove(e) && Enabled(r, e) ==> IsSpurious(r, e)
    ensures Run(s, es, eval).threads[0].Outside?
  {
    RunKeeps(s, es, eval);
    var r := Run(s, es, eval);
    if !r.threads[0].Outside? {
      var e := SomeoneCanMove(r, eval);
      assert false;
    }
  }
}
