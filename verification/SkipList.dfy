/** Skip heights, and how many steps the walk along skip pointers takes (src/chain.cpp). */
module SkipList {
  import opened Arithmetic

  // ---------------------------------------------------------------- skip heights

  function BitAnd(x: nat, y: nat): (r: nat)
    ensures r <= x && r <= y
  {
    if x == 0 || y == 0 then 0 else (if x % 2 == 1 && y % 2 == 1 then 1 else 0) + 2 * BitAnd(x / 2, y / 2)
  }

  function InvertLowestOne(n: nat): (r: nat)
    ensures r < n || r == n == 0
  {
    if n == 0 then 0 else BitAnd(n, n - 1)
  }

  lemma {:induction false} AndSelf(n: nat)
    ensures BitAnd(n, n) == n
  {
    if n > 0 {
      AndSelf(n / 2);
    }
  }

  /** It clears the lowest one bit, and no other. */
  lemma {:induction false} LowestOneCleared(q: nat, k: nat)
    ensures InvertLowestOne((2 * q + 1) * Pow2(k)) == 2 * q * Pow2(k)
  {
    if k == 0 {
      OddCleared(q);
    } else {
      LowestOneCleared(q, k - 1);
      Doubled(2 * q + 1, Pow2(k - 1));
      Doubled(2 * q, Pow2(k - 1));
      MulPositive(2 * q + 1, Pow2(k - 1));
      EvenCleared((2 * q + 1) * Pow2(k));
    }
  }

  lemma OddCleared(q: nat)
    ensures InvertLowestOne((2 * q + 1) * Pow2(0)) == 2 * q * Pow2(0)
  {
    AndSelf(q);
    assert (2 * q + 1) / 2 == q;
  }

  lemma EvenCleared(n: nat)
    requires n > 0 && n % 2 == 0
    ensures InvertLowestOne(n) == 2 * InvertLowestOne(n / 2)
  {
  }

  lemma Doubled(a: int, p: int)
    ensures a * (2 * p) == 2 * (a * p)
  {
  }

  /** Every positive number is an odd multiple of a power of two. */
  lemma {:induction false} OddPart(n: nat) returns (q: nat, k: nat)
    requires n > 0
    ensures n == (2 * q + 1) * Pow2(k)
  {
    if n % 2 == 1 {
      q, k := n / 2, 0;
      assert Pow2(0) == 1;
    } else {
      var r, j := OddPart(n / 2);
      q, k := r, j + 1;
      Doubled(2 * r + 1, Pow2(j));
    }
  }

  /** The height a skip pointer jumps back to. */
  function GetSkipHeight(height: nat): (r: nat)
    ensures height > 0 ==> r < height
  {
    if height < 2 then 0
    else if height % 2 == 1 then InvertLowestOne(InvertLowestOne(height - 1)) + 1
    else InvertLowestOne(height)
  }

  // ---------------------------------------------------------------- the walk

  /** Whether the walk to `t` follows the skip pointer at a height. */
  predicate Skips(h: nat, t: nat)
    requires t < h
  {
    var skip, skipPrev := GetSkipHeight(h), GetSkipHeight(h - 1);
    skip == t || (skip > t && !(skipPrev < skip - 2 && skipPrev >= t))
  }

  lemma SkipsIs(h: nat, t: nat)
    requires t < h
    ensures var skip, skipPrev := GetSkipHeight(h), GetSkipHeight(h - 1);
            Skips(h, t) <==> skip == t || (skip > t && !(skipPrev < skip - 2 && skipPrev >= t))
  {
  }

  function Next(h: nat, t: nat): (r: nat)
    requires t < h
    ensures t <= r < h
  {
    if Skips(h, t) then GetSkipHeight(h) else h - 1
  }

  /** The number of steps of the walk. */
  function Steps(h: nat, t: nat): nat
    requires t <= h
  {
    if h == t then 0 else 1 + Steps(Next(h, t), t)
  }

  lemma StepsNext(h: nat, t: nat)
    requires t < h
    ensures Steps(h, t) == 1 + Steps(if Skips(h, t) then GetSkipHeight(h) else h - 1, t)
  {
    hide Skips, GetSkipHeight;
  }

  lemma NoSteps(t: nat)
    ensures Steps(t, t) == 0
  {
  }

  // ---------------------------------------------------------------- multiples of powers of two

  function At(q: nat, k: nat): nat { q * Pow2(k) }

  lemma AtShift(q: nat, i: nat, k: nat)
    ensures At(At(q, i), k) == At(q, i + k)
  {
    hide Pow2;
    PowAdd(i, k);
    MulAssociates(q, Pow2(i), Pow2(k));
  }

  lemma AtNext(q: nat, k: nat)
    ensures At(q + 1, k) == At(q, k) + Pow2(k) && At(2 * q, k) == At(q, k + 1) && At(0, k) == 0
  {
  }

  /** A step of `e` below a multiple of a higher power: its lowest one is that step. */
  lemma BelowMultiple(m: nat, j: nat, e: nat)
    requires m > 0 && e < j
    ensures Pow2(e) < Pow2(e + 1) <= Pow2(j) <= At(m, j)
    ensures InvertLowestOne(At(m, j) - Pow2(e)) == At(m, j) - Pow2(e + 1)
  {
    hide At, InvertLowestOne;
    var u := At(m, j - e - 1);
    AtShift(m, j - e - 1, e + 1);
    AtPositive(m, j - e - 1);
    AtPositive(m, j);
    PowGrows(e + 1, j);
    OneBelow(u, e);
    LowestOneCleared(u - 1, e);
  }

  lemma AtPositive(m: nat, k: nat)
    requires m > 0
    ensures 0 < Pow2(k) <= At(m, k)
  {
    MulMono(1, m, Pow2(k));
  }

  lemma OneBelow(u: nat, e: nat)
    requires u > 0
    ensures At(u, e + 1) - Pow2(e) == (2 * (u - 1) + 1) * Pow2(e)
    ensures At(u, e + 1) - Pow2(e + 1) == 2 * (u - 1) * Pow2(e)
  {
    var p := Pow2(e);
    assert Pow2(e + 1) == 2 * p;
    assert u * (2 * p) == 2 * u * p;
    assert (2 * (u - 1) + 1) * p == 2 * u * p - p;
    assert 2 * (u - 1) * p == 2 * u * p - 2 * p;
  }

  /** Clearing the lowest one of a multiple leaves zero or a multiple of a higher power. */
  lemma ClearedUp(q: nat, k: nat) returns (r: nat, i: nat)
    requires q > 0
    ensures InvertLowestOne(At(q, k)) == At(r, i) && i > k && At(r, i) + Pow2(k) <= At(q, k)
  {
    hide At, InvertLowestOne;
    var u, j := OddPart(q);
    assert q == At(2 * u + 1, j) by { AtIs(2 * u + 1, j); }
    AtShift(2 * u + 1, j, k);
    LowestOneCleared(u, j + k);
    AtIs(2 * u + 1, j + k);
    AtIs(2 * u, j + k);
    AtNext(u, j + k);
    AtNext(2 * u, j + k);
    PowGrows(k, j + k);
    r, i := u, j + k + 1;
  }

  lemma AtIs(q: nat, k: nat)
    ensures At(q, k) == q * Pow2(k)
  {
  }

  lemma AtEven(q: nat, k: nat)
    requires q > 0 && k > 0
    ensures At(q, k) % 2 == 0 && At(q, k) >= 2
  {
    MulMono(1, q, Pow2(k));
    MulMono(1, Pow2(k - 1), 2);
    Doubled(q, Pow2(k - 1));
  }

  // ---------------------------------------------------------------- when a skip is followed

  /** From an odd height a skip that does not overshoot is always followed. */
  lemma OddFree(h: nat, t: nat)
    requires h >= 3 && h % 2 == 1 && t < h && GetSkipHeight(h) >= t
    ensures Skips(h, t)
  {
  }

  /** From an even multiple of eight, too: the parent skips only seven blocks from here. */
  lemma EvenFree(m: nat, k: nat, t: nat)
    requires m > 0 && k >= 3 && t < At(m, k) && GetSkipHeight(At(m, k)) >= t
    ensures Skips(At(m, k), t)
  {
    hide At, InvertLowestOne;
    var h := At(m, k);
    BelowMultiple(m, k, 1);
    BelowMultiple(m, k, 2);
    var r, i := ClearedUp(m, k);
    PowGrows(3, k);
    assert Pow2(1) == 2 && Pow2(2) == 4 && Pow2(3) == 8;
    AtEven(m, k);
    assert GetSkipHeight(h - 1) == h - 7;
  }

  // ---------------------------------------------------------------- aligned heights

  /** Steps from a multiple of 2^j down to a height at most 2^j below it. */
  function Depth(j: nat): nat {
    if j == 0 then 1 else Depth(j - 1) + (j + 3) / 2
  }

  lemma {:induction false} DepthGrows(i: nat, j: nat)
    requires i <= j
    ensures 1 <= Depth(i) <= Depth(j)
    decreases j
  {
    if i < j {
      DepthGrows(i, j - 1);
    } else if i > 0 {
      DepthGrows(i - 1, i - 1);
    }
  }

  lemma OneStep(t: nat)
    ensures Steps(t + 1, t) == 1
  {
    assert Next(t + 1, t) == t;
  }

  lemma Arrived(t: nat)
    ensures Steps(t, t) == 0
  {
  }

  lemma {:induction false} Aligned(m: nat, j: nat, t: nat)
    requires m > 0 && At(m, j) - Pow2(j) <= t <= At(m, j)
    ensures Steps(At(m, j), t) <= Depth(j)
    decreases j, j + 2
  {
    hide At, InvertLowestOne, Skips;
    var h := At(m, j);
    DepthGrows(0, j);
    if t < h {
      AtPositive(m, j);
      if j == 0 {
        assert Pow2(0) == 1;
        OneStep(t);
      } else {
        AtEven(m, j);
        var r, i := ClearedUp(m, j);
        FirstStep(h, t);
        if Next(h, t) != t {
          Climb(m, j, 1, t);
        }
      }
    }
  }

  /** An even height whose skip does not pass the target is left to the target or to its parent. */
  lemma FirstStep(h: nat, t: nat)
    requires h >= 2 && h % 2 == 0 && InvertLowestOne(h) <= t < h
    ensures Next(h, t) == t || Next(h, t) == h - 1
    ensures Steps(h, t) == 1 + Steps(Next(h, t), t)
  {
  }

  /** Below a multiple of 2^j, from 2^e - 1 below it, jumps grow fourfold until the target is near. */
  lemma {:induction false} Climb(m: nat, j: nat, e: nat, t: nat)
    requires m > 0 && e % 2 == 1 && e <= j && Pow2(e) <= Pow2(j) <= At(m, j)
    requires At(m, j) - Pow2(j) <= t <= At(m, j) - Pow2(e) + 1
    ensures Steps(At(m, j) - Pow2(e) + 1, t) <= (j - e + 2) / 2 + Depth(j - 1)
    decreases j, j - e
  {
    hide At, InvertLowestOne, Skips, Steps, Depth, GetSkipHeight, Pow2;
    var h := At(m, j);
    var x := h - Pow2(e) + 1;
    DepthGrows(0, j - 1);
    if x == t {
      Arrived(t);
    } else if e == j {
      OneStep(t);
    } else {
      BelowMultiple(m, j, e);
      if e + 1 < j {
        BelowMultiple(m, j, e + 1);
        PowGrows(e + 2, j);
        OddStep(m, j, e, t);
        if h - Pow2(e + 2) + 1 >= t {
          Climb(m, j, e + 2, t);
        } else {
          Turn(m, j, e, t);
        }
      } else {
        OddStep(m, j, e, t);
        if t <= h - Pow2(e) && GetSkipHeight(x) < t {
          Turn(m, j, e, t);
        } else {
          LastClimb(m, j, t);
        }
      }
    }
  }

  /** One step from the odd height 2^e - 1 below a multiple of a higher power. */
  lemma OddStep(m: nat, j: nat, e: nat, t: nat)
    requires m > 0 && 0 < e < j && Pow2(e) < Pow2(e + 1) <= At(m, j) && t < At(m, j) - Pow2(e) + 1
    ensures var x := At(m, j) - Pow2(e) + 1;
            && GetSkipHeight(x) == InvertLowestOne(At(m, j) - Pow2(e + 1)) + 1
            && Steps(x, t) == 1 + Steps(if GetSkipHeight(x) >= t then GetSkipHeight(x) else x - 1, t)
  {
    hide At, InvertLowestOne, Skips;
    BelowMultiple(m, j, e);
    AtEven(m, j);
    Doubled(1, Pow2(e - 1));
    Doubled(1, Pow2(e));
    var x := At(m, j) - Pow2(e) + 1;
    assert x % 2 == 1 && x >= 3;
    if GetSkipHeight(x) >= t {
      OddFree(x, t);
    } else {
      assert Skips(x, t) == false by { Overshoots(x, t); }
    }
  }

  lemma Overshoots(h: nat, t: nat)
    requires t < h && GetSkipHeight(h) < t
    ensures !Skips(h, t)
  {
  }

  /** Right below the multiple's last power: the skip overshoots, unless it ends at the first block. */
  lemma LastClimb(m: nat, j: nat, t: nat)
    requires m > 0 && j >= 2 && Pow2(j) <= At(m, j)
    requires At(m, j) - Pow2(j) <= t < At(m, j) - Pow2(j - 1) + 1
    requires var x := At(m, j) - Pow2(j - 1) + 1;
             && GetSkipHeight(x) == InvertLowestOne(At(m, j) - Pow2(j)) + 1 >= t
             && Steps(x, t) == 1 + Steps(GetSkipHeight(x), t)
    ensures Steps(At(m, j) - Pow2(j - 1) + 1, t) <= 2
  {
    hide At, InvertLowestOne, Skips;
    AtNext(m - 1, j);
    PowGrows(2, j);
    assert Pow2(2) == 4;
    AtNext(0, j);
    FirstBlocks();
    if m > 1 {
      var r, i := ClearedUp(m - 1, j);
    } else if t == 0 {
      OneStep(0);
    }
  }

  lemma FirstBlocks()
    ensures InvertLowestOne(0) == 0
  {
  }

  /** At 2^e below the multiple, with the target between there and the next jump. */
  lemma {:induction false} Turn(m: nat, j: nat, e: nat, t: nat)
    requires m > 0 && e % 2 == 1 && e < j && Pow2(e) < Pow2(e + 1) <= Pow2(j) <= At(m, j)
    requires At(m, j) - Pow2(j) <= t <= At(m, j) - Pow2(e)
    requires e + 1 < j ==> t >= At(m, j) - Pow2(e + 2) + 2
    ensures Steps(At(m, j) - Pow2(e), t) <= Depth(j - 1) + (if e + 1 < j then 1 else 0)
    decreases j, 0
  {
    hide At, InvertLowestOne, Skips, GetSkipHeight, Pow2, Depth;
    var h := At(m, j);
    var y := h - Pow2(e);
    DepthGrows(0, j - 1);
    BelowMultiple(m, j, e);
    PowNext(e);
    PowNext(e + 1);
    var c := OddMultiple(m, j, e);
    if y == t {
    } else if h - Pow2(e + 1) < t {
      DepthGrows(e, j - 1);
      Aligned(c, e, t);
    } else {
      EvenHeight(m, j, e);
      if h - Pow2(e + 1) == t {
        Reaches(y, t);
      } else {
        TurnSkips(m, j, e, t);
        var d := OddMultiple(m, j, e + 1);
        DepthGrows(e + 1, j - 1);
        Aligned(d, e + 1, t);
      }
    }
  }

  lemma Reaches(h: nat, t: nat)
    requires t < h && GetSkipHeight(h) == t
    ensures Steps(h, t) == 1
  {
  }

  /** The height as a multiple of the smaller power. */
  lemma OddMultiple(m: nat, j: nat, e: nat) returns (c: nat)
    requires m > 0 && e < j && Pow2(e) < At(m, j)
    ensures c > 0 && At(c, e) == At(m, j) - Pow2(e)
  {
    hide At;
    AtShift(m, j - e, e);
    AtPositive(m, j - e);
    c := At(m, j - e) - 1;
    AtNext(c, e);
    AtNext(0, e);
  }

  lemma EvenHeight(m: nat, j: nat, e: nat)
    requires m > 0 && 0 < e < j && Pow2(e) < Pow2(e + 1) <= At(m, j)
    ensures GetSkipHeight(At(m, j) - Pow2(e)) == At(m, j) - Pow2(e + 1)
    ensures At(m, j) - Pow2(e) >= 2 && (At(m, j) - Pow2(e)) % 2 == 0
  {
    hide At, InvertLowestOne;
    BelowMultiple(m, j, e);
    AtEven(m, j);
    Doubled(1, Pow2(e - 1));
    Doubled(1, Pow2(e));
    assert Pow2(e - 1) >= 1;
  }

  lemma TurnSkips(m: nat, j: nat, e: nat, t: nat)
    requires m > 0 && e % 2 == 1 && e < j && Pow2(e) < Pow2(e + 1) <= Pow2(j) <= At(m, j)
    requires At(m, j) - Pow2(j) <= t < At(m, j) - Pow2(e + 1)
    requires e + 1 < j && t >= At(m, j) - Pow2(e + 2) + 2
    ensures var y := At(m, j) - Pow2(e); Steps(y, t) == 1 + Steps(At(m, j) - Pow2(e + 1), t)
  {
    hide At, InvertLowestOne, Skips;
    EvenHeight(m, j, e);
    if e >= 3 {
      var c := OddMultiple(m, j, e);
      EvenFree(c, e, t);
    } else {
      NearSkip(m, j, t);
    }
  }

  /** Two below a multiple of eight the parent's skip is far too long for a near target. */
  lemma NearSkip(m: nat, j: nat, t: nat)
    requires m > 0 && j >= 3 && At(m, j) >= 8 && At(m, j) - 6 <= t < At(m, j) - 4
    ensures Skips(At(m, j) - 2, t)
  {
    hide At, InvertLowestOne;
    var h := At(m, j);
    assert Pow2(1) == 2 && Pow2(2) == 4 && Pow2(3) == 8;
    BelowMultiple(m, j, 1);
    BelowMultiple(m, j, 2);
    AtEven(m, j);
    var c := OddMultiple(m, j, 2);
    FarBelow(m, j);
    assert GetSkipHeight(h - 2) == h - 4;
    assert GetSkipHeight(h - 3) == InvertLowestOne(h - 8) + 1;
  }

  lemma FarBelow(m: nat, j: nat)
    requires m > 0 && j >= 3 && At(m, j) >= 8
    ensures InvertLowestOne(At(m, j) - 8) <= if At(m, j) >= 16 then At(m, j) - 16 else 0
  {
    hide At, InvertLowestOne;
    AtShift(m, j - 3, 3);
    AtPositive(m, j - 3);
    assert Pow2(3) == 8;
    var u := At(m, j - 3);
    AtNext(u - 1, 3);
    FirstBlocks();
    AtNext(0, 3);
    if u > 1 {
      var r, i := ClearedUp(u - 1, 3);
    }
  }

  // ---------------------------------------------------------------- any height

  /** One step more for the two lowest powers, from which the walk may take a detour. */
  function Detour(k: nat): nat { if k < 3 then 1 else 0 }

  function EvenBound(k: nat, l: nat): int { Depth(l) + l - k + Detour(k) }

  /** Clearing low ones takes at most a step for each level, until the target is less than one
      level away. */
  lemma {:induction false} FromEven(u: nat, k: nat, t: nat, l: nat)
    requires k > 0 && t <= At(2 * u + 1, k) <= Pow2(l)
    ensures k <= l && Steps(At(2 * u + 1, k), t) <= EvenBound(k, l)
    decreases At(2 * u + 1, k), 1
  {
    hide At, InvertLowestOne, Skips, Depth, GetSkipHeight;
    var h := At(2 * u + 1, k);
    Level(2 * u + 1, k, l);
    DepthGrows(k, l);
    EvenSkip(u, k);
    if t == h {
    } else if At(u, k + 1) < t {
      AtNext(2 * u, k);
      AtNext(u, k);
      Aligned(2 * u + 1, k, t);
    } else if At(u, k + 1) == t {
      Reaches(h, t);
    } else {
      if u == 0 {
        AtNext(0, k + 1);
      }
      if Skips(h, t) {
        var v, i := Regrouped(u, k + 1);
        FromEven(v, i, t, l);
      } else {
        Blocked(u, k, t, l);
      }
    }
  }

  lemma Level(q: nat, k: nat, l: nat)
    requires q > 0 && At(q, k) <= Pow2(l)
    ensures k <= l
  {
    AtPositive(q, k);
    if k > l {
      PowGrows(l + 1, k);
    }
  }

  lemma EvenSkip(u: nat, k: nat)
    requires k > 0
    ensures GetSkipHeight(At(2 * u + 1, k)) == At(u, k + 1) < At(2 * u + 1, k)
  {
    AtEven(2 * u + 1, k);
    AtNext(u, k);
    LowestOneCleared(u, k);
  }

  /** A positive multiple as an odd multiple of its own highest power. */
  lemma Regrouped(q: nat, k: nat) returns (v: nat, i: nat)
    requires q > 0
    ensures At(q, k) == At(2 * v + 1, i) && i >= k
  {
    var w, j := OddPart(q);
    AtShift(2 * w + 1, j, k);
    v, i := w, j + k;
  }

  /** When the skip is refused, the parent's much longer skip is taken instead. */
  lemma {:induction false} Blocked(u: nat, k: nat, t: nat, l: nat)
    requires u > 0 && 0 < k <= l && t < At(u, k + 1) < At(2 * u + 1, k) <= Pow2(l)
    requires GetSkipHeight(At(2 * u + 1, k)) == At(u, k + 1) && !Skips(At(2 * u + 1, k), t)
    ensures Steps(At(2 * u + 1, k), t) <= EvenBound(k, l)
    decreases At(2 * u + 1, k), 0
  {
    hide At, InvertLowestOne, Depth, Skips, GetSkipHeight, Steps;
    var h := At(2 * u + 1, k);
    if k >= 3 {
      EvenFree(2 * u + 1, k, t);
    }
    AtEven(2 * u + 1, k);
    ParentInstead(h, t);
    var q, i := ParentSkip(u, k);
    DepthGrows(1, l);
    DepthOfOne();
    FromOdd(q, i, t, l);
  }

  lemma ParentInstead(h: nat, t: nat)
    requires h >= 2 && h % 2 == 0 && t < GetSkipHeight(h) && !Skips(h, t)
    ensures t <= GetSkipHeight(h - 1) < h - 1 && Steps(h, t) == 2 + Steps(GetSkipHeight(h - 1), t)
  {
    hide InvertLowestOne;
    OddFree(h - 1, t);
  }

  lemma DepthOfOne()
    ensures Depth(1) == 3
  {
  }

  /** The skip of the parent clears two further ones. */
  lemma ParentSkip(u: nat, k: nat) returns (q: nat, i: nat)
    requires u > 0 && 1 <= k <= 2
    ensures GetSkipHeight(At(2 * u + 1, k) - 1) == At(q, i) + 1 && i >= 4
  {
    hide InvertLowestOne, At, Pow2, GetSkipHeight;
    SmallBlocks(u);
    OddSkip(if k == 1 then 2 * u else 4 * u + 1);
    if k == 1 {
      var r, j := ClearedUp(u, 2);
      if r == 0 {
        AtNext(0, j);
        FirstBlocks();
        q, i := 0, 4;
        AtNext(0, 4);
      } else {
        q, i := ClearedUp(r, j);
      }
    } else {
      q, i := ClearedUp(u, 3);
    }
  }

  lemma OddSkip(x: nat)
    requires x > 0
    ensures GetSkipHeight(2 * x + 1) == InvertLowestOne(InvertLowestOne(2 * x)) + 1
  {
    hide InvertLowestOne;
  }

  /** Two below an odd multiple of two or four. */
  lemma SmallBlocks(u: nat)
    requires u > 0
    ensures At(2 * u + 1, 1) == At(u, 2) + 2 == 4 * u + 2
    ensures At(2 * u + 1, 2) == 8 * u + 4 && InvertLowestOne(8 * u + 2) == At(u, 3)
  {
    hide InvertLowestOne;
    assert Pow2(1) == 2 && Pow2(2) == 4 && Pow2(3) == 8;
    LowestOneCleared(2 * u, 1);
  }

  /** From one above a multiple, two ones are cleared at a time. */
  lemma {:induction false} FromOdd(q: nat, k: nat, t: nat, l: nat)
    requires k > 0 && t <= At(q, k) + 1 <= Pow2(l)
    ensures Steps(At(q, k) + 1, t) <= if q == 0 then 1 else EvenBound(k, l) + 1
    ensures q > 0 ==> k <= l
    decreases At(q, k) + 1, 0
  {
    hide At, InvertLowestOne, Skips, Depth, GetSkipHeight;
    var x := At(q, k) + 1;
    AtNext(0, k);
    if q == 0 {
      if t == 0 {
        OneStep(0);
      }
    } else {
      Level(q, k, l);
      DepthGrows(k, l);
      var v, i := Regrouped(q, k);
      if t < x {
        var r, j := TwoCleared(v, i);
        StepFromOdd(x, t);
        if At(r, j) + 1 >= t {
          FromOdd(r, j, t, l);
        } else {
          FromEven(v, i, t, l);
        }
      }
    }
  }

  lemma TwoCleared(v: nat, i: nat) returns (r: nat, j: nat)
    requires i > 0
    ensures GetSkipHeight(At(2 * v + 1, i) + 1) == At(r, j) + 1 && j >= i + 2 && At(r, j) < At(2 * v + 1, i)
    ensures At(2 * v + 1, i) >= 2 && At(2 * v + 1, i) % 2 == 0
  {
    hide At, InvertLowestOne;
    AtEven(2 * v + 1, i);
    EvenSkip(v, i);
    FirstBlocks();
    AtNext(0, i + 1);
    AtNext(0, i + 2);
    if v == 0 {
      r, j := 0, i + 2;
    } else {
      r, j := ClearedUp(v, i + 1);
    }
  }

  lemma StepFromOdd(x: nat, t: nat)
    requires x >= 3 && x % 2 == 1 && t < x
    ensures Steps(x, t) == 1 + Steps(if GetSkipHeight(x) >= t then GetSkipHeight(x) else x - 1, t)
  {
    if GetSkipHeight(x) >= t {
      OddFree(x, t);
    }
  }

  /** The walk takes at most quadratically many steps in the logarithm of the height. */
  lemma StepsBound(h: nat, t: nat, l: nat)
    requires t <= h <= Pow2(l)
    ensures Steps(h, t) <= Depth(l) + l + 1
    ensures 4 * Steps(h, t) <= l * l + 11 * l + 8
  {
    hide Steps, Depth, Pow2;
    AnyHeight(h, t, l);
    DepthClosed(l);
  }

  lemma AnyHeight(h: nat, t: nat, l: nat)
    requires t <= h <= Pow2(l)
    ensures Steps(h, t) <= Depth(l) + l + 1
  {
    hide At, InvertLowestOne, Skips, Depth, GetSkipHeight, Steps, Pow2;
    DepthGrows(0, l);
    if t == h {
      Arrived(t);
    } else if h == 1 {
      OneStep(0);
    } else if h % 2 == 0 {
      var u, k := EvenPart(h);
      FromEven(u, k, t, l);
    } else {
      OddIsNext(h);
      FromOdd(h / 2, 1, t, l);
    }
  }

  lemma EvenPart(h: nat) returns (u: nat, k: nat)
    requires h > 0 && h % 2 == 0
    ensures h == At(2 * u + 1, k) && k > 0
  {
    u, k := OddPart(h);
    assert Pow2(0) == 1;
  }

  lemma OddIsNext(h: nat)
    requires h % 2 == 1
    ensures h == At(h / 2, 1) + 1
  {
    assert Pow2(1) == 2;
  }

  lemma {:induction false} DepthClosed(l: nat)
    ensures 4 * Depth(l) <= l * l + 7 * l + 4
  {
    if l > 0 {
      DepthClosed(l - 1);
      assert l * l == (l - 1) * (l - 1) + 2 * l - 1;
    }
  }
}
