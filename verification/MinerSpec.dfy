/** The memory pool as the block assembler sees it: a finite acyclic graph of transactions, numbered
    in hash order, with the totals the pool keeps for each transaction and its ancestors. */
module MinerSpec {

  /** `finalTx` is the lock-time test and `contract` whether the transaction creates or calls one. */
  datatype Entry = Entry(parents: set<nat>, size: nat, weight: nat, sigOps: nat, fee: int, contract: bool,
      finalTx: bool, hasWitness: bool)

  /** `rank` witnesses that spending never runs in a circle. */
  datatype Pool = Pool(entries: seq<Entry>, rank: seq<nat>)

  /** A transaction's virtual size is its weight in quarters, rounded up, or more. */
  ghost predicate PoolOk(p: Pool) {
    && |p.rank| == |p.entries|
    && (forall x :: 0 <= x < |p.entries| ==> ParentsOk(p, x))
    && (forall x :: 0 <= x < |p.entries| ==> p.entries[x].weight <= 4 * p.entries[x].size)
  }

  ghost predicate ParentsOk(p: Pool, x: nat)
    requires |p.rank| == |p.entries| && x < |p.entries|
  {
    forall q :: q in p.entries[x].parents ==> q < |p.entries| && p.rank[q] < p.rank[x]
  }

  // ---------------------------------------------------------------- ancestors

  predicate IsAncestor(p: Pool, a: nat, x: nat)
    requires PoolOk(p) && x < |p.entries|
    decreases p.rank[x]
  {
    assert ParentsOk(p, x);
    exists q :: q in p.entries[x].parents && (a == q || IsAncestor(p, a, q))
  }

  function Ancestors(p: Pool, x: nat): set<nat>
    requires PoolOk(p) && x < |p.entries|
  {
    set a | 0 <= a < |p.entries| && IsAncestor(p, a, x)
  }

  lemma {:induction false} AncestorRank(p: Pool, a: nat, x: nat)
    requires PoolOk(p) && x < |p.entries| && IsAncestor(p, a, x)
    ensures a < |p.entries| && p.rank[a] < p.rank[x]
    decreases p.rank[x]
  {
    assert ParentsOk(p, x);
    var q :| q in p.entries[x].parents && (a == q || IsAncestor(p, a, q));
    if a != q {
      AncestorRank(p, a, q);
    }
  }

  lemma {:induction false} AncestorTransitive(p: Pool, a: nat, b: nat, x: nat)
    requires PoolOk(p) && x < |p.entries| && b < |p.entries| && IsAncestor(p, a, b) && IsAncestor(p, b, x)
    ensures IsAncestor(p, a, x)
    decreases p.rank[x]
  {
    assert ParentsOk(p, x);
    var q :| q in p.entries[x].parents && (b == q || IsAncestor(p, b, q));
    if b != q {
      AncestorTransitive(p, a, b, q);
    }
  }

  /** GetCountWithAncestors. */
  function CountWithAncestors(p: Pool, x: nat): nat
    requires PoolOk(p) && x < |p.entries|
  {
    |Ancestors(p, x)| + 1
  }

  lemma AncestorsInside(p: Pool, a: nat, x: nat)
    requires PoolOk(p) && x < |p.entries| && a in Ancestors(p, x)
    ensures Ancestors(p, a) < Ancestors(p, x) && a !in Ancestors(p, a)
    ensures CountWithAncestors(p, a) < CountWithAncestors(p, x)
  {
    AncestorRank(p, a, x);
    forall b | b in Ancestors(p, a)
      ensures b in Ancestors(p, x)
    {
      AncestorTransitive(p, b, a, x);
    }
    if IsAncestor(p, a, a) {
      AncestorRank(p, a, a);
    }
    Smaller(Ancestors(p, a), Ancestors(p, x), a);
  }

  lemma Smaller(s: set<nat>, t: set<nat>, a: nat)
    requires s <= t && a in t && a !in s
    ensures |s| < |t|
  {
    assert t == (t - {a}) + {a};
    assert s <= t - {a};
    Subset(s, t - {a});
  }

  lemma {:induction false} Subset(s: set<nat>, t: set<nat>)
    requires s <= t
    ensures |s| <= |t|
  {
    if s != {} {
      var a :| a in s;
      Subset(s - {a}, t - {a});
      assert s == (s - {a}) + {a} && t == (t - {a}) + {a};
    }
  }

  // ---------------------------------------------------------------- totals

  /** The total of `v` over the members of `s` below `n`. */
  function SumTo(s: set<nat>, v: seq<int>, n: nat): int
    requires n <= |v|
  {
    if n == 0 then 0 else SumTo(s, v, n - 1) + (if n - 1 in s then v[n - 1] else 0)
  }

  function Sum(s: set<nat>, v: seq<int>): int { SumTo(s, v, |v|) }

  lemma {:induction false} SumToAdd(s: set<nat>, v: seq<int>, x: nat, n: nat)
    requires n <= |v| && x !in s
    ensures SumTo(s + {x}, v, n) == SumTo(s, v, n) + (if x < n then v[x] else 0)
  {
    if n > 0 {
      SumToAdd(s, v, x, n - 1);
    }
  }

  lemma SumAdd(s: set<nat>, v: seq<int>, x: nat)
    requires x < |v| && x !in s
    ensures Sum(s + {x}, v) == Sum(s, v) + v[x]
  {
    SumToAdd(s, v, x, |v|);
  }

  lemma {:induction false} SumToGrows(s: set<nat>, t: set<nat>, v: seq<int>, n: nat)
    requires s <= t && n <= |v| && forall i :: 0 <= i < |v| ==> v[i] >= 0
    ensures 0 <= SumTo(s, v, n) <= SumTo(t, v, n)
  {
    if n > 0 {
      SumToGrows(s, t, v, n - 1);
    }
  }

  lemma SumGrows(s: set<nat>, t: set<nat>, v: seq<int>)
    requires s <= t && forall i :: 0 <= i < |v| ==> v[i] >= 0
    ensures 0 <= Sum(s, v) <= Sum(t, v)
  {
    SumToGrows(s, t, v, |v|);
  }

  lemma {:induction false} SumToBelow(s: set<nat>, v: seq<int>, w: seq<int>, n: nat)
    requires n <= |v| == |w| && forall i :: 0 <= i < |v| ==> v[i] <= 4 * w[i]
    ensures SumTo(s, v, n) <= 4 * SumTo(s, w, n)
  {
    if n > 0 {
      SumToBelow(s, v, w, n - 1);
    }
  }

  lemma {:induction false} SumToEmpty(v: seq<int>, n: nat)
    requires n <= |v|
    ensures SumTo({}, v, n) == 0
  {
    if n > 0 {
      SumToEmpty(v, n - 1);
    }
  }

  function Sizes(p: Pool): (r: seq<int>)
    ensures |r| == |p.entries|
  {
    seq(|p.entries|, i requires 0 <= i < |p.entries| => p.entries[i].size)
  }

  function Weights(p: Pool): (r: seq<int>)
    ensures |r| == |p.entries|
  {
    seq(|p.entries|, i requires 0 <= i < |p.entries| => p.entries[i].weight)
  }

  function SigOps(p: Pool): (r: seq<int>)
    ensures |r| == |p.entries|
  {
    seq(|p.entries|, i requires 0 <= i < |p.entries| => p.entries[i].sigOps)
  }

  function Fees(p: Pool): (r: seq<int>)
    ensures |r| == |p.entries|
  {
    seq(|p.entries|, i requires 0 <= i < |p.entries| => p.entries[i].fee)
  }

  /** A transaction with its ancestors that are not yet in the block. */
  function Package(p: Pool, x: nat, inBlock: set<nat>): set<nat>
    requires PoolOk(p) && x < |p.entries|
  {
    (Ancestors(p, x) - inBlock) + {x}
  }

  // ---------------------------------------------------------------- the block

  /** An output: its amount and the signature operations of its script. */
  datatype Out = Out(value: int, sigOps: nat)

  datatype BlockTx = Reward(vout: seq<Out>) | Pooled(id: nat) | Transfer(weight: nat, sigOps: nat)

  /** Every pool transaction of the block comes once, after all its ancestors. */
  ghost predicate WellOrdered(p: Pool, vtx: seq<BlockTx>)
    requires PoolOk(p)
  {
    && (forall i :: 0 <= i < |vtx| && vtx[i].Pooled? ==> vtx[i].id < |p.entries|)
    && (forall i, j :: 0 <= i < j < |vtx| && vtx[i].Pooled? && vtx[j].Pooled? ==> vtx[i].id != vtx[j].id)
    && (forall i, a :: 0 <= i < |vtx| && vtx[i].Pooled? && a in Ancestors(p, vtx[i].id) ==> Pooled(a) in vtx[..i])
  }

  ghost predicate Holds(vtx: seq<BlockTx>, inBlock: set<nat>) {
    forall x :: x in inBlock <==> Pooled(x) in vtx
  }

  /** What is in the block is there with all its ancestors. */
  lemma BlockClosed(p: Pool, vtx: seq<BlockTx>, inBlock: set<nat>, x: nat)
    requires PoolOk(p) && WellOrdered(p, vtx) && Holds(vtx, inBlock) && x in inBlock
    ensures x < |p.entries| && Ancestors(p, x) <= inBlock
  {
    var i :| 0 <= i < |vtx| && vtx[i] == Pooled(x);
    forall a | a in Ancestors(p, x)
      ensures a in inBlock
    {
      assert Pooled(a) in vtx[..i];
    }
  }

  lemma OrderedAdd(p: Pool, vtx: seq<BlockTx>, inBlock: set<nat>, x: nat)
    requires PoolOk(p) && WellOrdered(p, vtx) && Holds(vtx, inBlock)
    requires x < |p.entries| && x !in inBlock && Ancestors(p, x) <= inBlock
    ensures WellOrdered(p, vtx + [Pooled(x)]) && Holds(vtx + [Pooled(x)], inBlock + {x})
  {
    var r := vtx + [Pooled(x)];
    forall i, a | 0 <= i < |r| && r[i].Pooled? && a in Ancestors(p, r[i].id)
      ensures Pooled(a) in r[..i]
    {
      if i < |vtx| {
        assert r[..i] == vtx[..i];
      } else {
        assert r[..i] == vtx;
        assert Pooled(a) in vtx;
      }
    }
  }

  lemma OrderedOther(p: Pool, vtx: seq<BlockTx>, inBlock: set<nat>, t: BlockTx)
    requires PoolOk(p) && WellOrdered(p, vtx) && Holds(vtx, inBlock) && !t.Pooled?
    ensures WellOrdered(p, vtx + [t]) && Holds(vtx + [t], inBlock)
  {
    var r := vtx + [t];
    forall i, a | 0 <= i < |r| && r[i].Pooled? && a in Ancestors(p, r[i].id)
      ensures Pooled(a) in r[..i]
    {
      assert r[..i] == vtx[..i];
    }
  }

  lemma OrderedReward(p: Pool, vtx: seq<BlockTx>, inBlock: set<nat>, k: nat, t: BlockTx)
    requires PoolOk(p) && WellOrdered(p, vtx) && Holds(vtx, inBlock) && k < |vtx| && !vtx[k].Pooled? && !t.Pooled?
    ensures WellOrdered(p, vtx[k := t]) && Holds(vtx[k := t], inBlock)
  {
    var r := vtx[k := t];
    forall i, a | 0 <= i < |r| && r[i].Pooled? && a in Ancestors(p, r[i].id)
      ensures Pooled(a) in r[..i]
    {
      var j :| 0 <= j < i && vtx[..i][j] == Pooled(a);
      assert r[..i][j] == Pooled(a);
    }
    forall x
      ensures x in inBlock <==> Pooled(x) in r
    {
      if Pooled(x) in vtx {
        var j :| 0 <= j < |vtx| && vtx[j] == Pooled(x);
        assert r[j] == Pooled(x);
      }
      if Pooled(x) in r {
        var j :| 0 <= j < |r| && r[j] == Pooled(x);
        assert vtx[j] == Pooled(x);
      }
    }
  }

  // ---------------------------------------------------------------- modified entries

  /** CTxMemPoolModifiedEntry without its fee total. */
  datatype Modified = Modified(size: int, sigOps: int)

  /** A modified entry starts from the totals the pool keeps. */
  function FromPool(p: Pool, x: nat): Modified
    requires PoolOk(p) && x < |p.entries|
  {
    Modified(Sum(Ancestors(p, x) + {x}, Sizes(p)), Sum(Ancestors(p, x) + {x}, SigOps(p)))
  }

  function Start(p: Pool, m: map<nat, Modified>, x: nat): Modified
    requires PoolOk(p) && x < |p.entries|
  {
    if x in m then m[x] else FromPool(p, x)
  }

  function Without(e: Modified, p: Pool, included: set<nat>): Modified {
    Modified(e.size - Sum(included, Sizes(p)), e.sigOps - Sum(included, SigOps(p)))
  }

  /** `m'` is `m` after the parents `done` of `added` were accounted for: exactly the descendants
      outside the block were entered, each less its included ancestors. */
  ghost predicate Accounted(p: Pool, m: map<nat, Modified>, m': map<nat, Modified>, added: set<nat>, done: set<nat>)
    requires PoolOk(p)
  {
    && (forall x: nat :: x in m' <==> x in m || (x < |p.entries| && x !in added && Ancestors(p, x) * done != {}))
    && (forall x: nat :: x in m' && x < |p.entries| ==> m'[x] == Without(Start(p, m, x), p, Ancestors(p, x) * done))
  }

  /** Recorded totals never fall short of what is still outside the block. */
  ghost predicate Covers(p: Pool, m: map<nat, Modified>, inBlock: set<nat>)
    requires PoolOk(p)
  {
    forall x: nat :: x in m ==> x < |p.entries| && EntryCovers(p, m[x], x, inBlock)
  }

  ghost predicate EntryCovers(p: Pool, e: Modified, x: nat, inBlock: set<nat>)
    requires PoolOk(p) && x < |p.entries|
  {
    e.size >= Sum(Package(p, x, inBlock), Sizes(p)) && e.sigOps >= Sum(Package(p, x, inBlock), SigOps(p))
  }

  lemma {:induction false} SumToUnion(s: set<nat>, t: set<nat>, v: seq<int>, n: nat)
    requires s !! t && n <= |v|
    ensures SumTo(s + t, v, n) == SumTo(s, v, n) + SumTo(t, v, n)
  {
    if n > 0 {
      SumToUnion(s, t, v, n - 1);
    }
  }

  lemma SumUnion(s: set<nat>, t: set<nat>, v: seq<int>)
    requires s !! t
    ensures Sum(s + t, v) == Sum(s, v) + Sum(t, v)
  {
    SumToUnion(s, t, v, |v|);
  }

  /** The pool's own totals cover any package. */
  lemma FromPoolCovers(p: Pool, x: nat, inBlock: set<nat>)
    requires PoolOk(p) && x < |p.entries|
    ensures EntryCovers(p, FromPool(p, x), x, inBlock)
  {
    hide Ancestors, PoolOk;
    SumGrows(Package(p, x, inBlock), Ancestors(p, x) + {x}, Sizes(p));
    SumGrows(Package(p, x, inBlock), Ancestors(p, x) + {x}, SigOps(p));
  }

  /** Block growth only makes packages smaller. */
  lemma EntryCoversMore(p: Pool, e: Modified, x: nat, inBlock: set<nat>, more: set<nat>)
    requires PoolOk(p) && x < |p.entries| && EntryCovers(p, e, x, inBlock)
    ensures EntryCovers(p, e, x, inBlock + more)
  {
    hide Ancestors, PoolOk;
    SumGrows(Package(p, x, inBlock + more), Package(p, x, inBlock), Sizes(p));
    SumGrows(Package(p, x, inBlock + more), Package(p, x, inBlock), SigOps(p));
  }

  lemma CoversMore(p: Pool, m: map<nat, Modified>, m': map<nat, Modified>, inBlock: set<nat>, more: set<nat>)
    requires PoolOk(p) && Covers(p, m, inBlock) && m'.Keys <= m.Keys && forall x :: x in m' ==> m'[x] == m[x]
    ensures Covers(p, m', inBlock + more)
  {
    hide PoolOk, EntryCovers;
    forall x: nat | x in m'
      ensures x < |p.entries| && EntryCovers(p, m'[x], x, inBlock + more)
    {
      EntryCoversMore(p, m[x], x, inBlock, more);
    }
  }

  /** Subtracting the newly included ancestors keeps an entry's totals covering. */
  lemma EntryAccounted(p: Pool, e: Modified, x: nat, before: set<nat>, added: set<nat>)
    requires PoolOk(p) && x < |p.entries| && x !in added && before !! added && EntryCovers(p, e, x, before)
    ensures EntryCovers(p, Without(e, p, Ancestors(p, x) * added), x, before + added)
  {
    hide Ancestors, PoolOk, Sum;
    var now, gone := Package(p, x, before + added), Ancestors(p, x) * added;
    assert Package(p, x, before) == now + gone;
    SumUnion(now, gone, Sizes(p));
    SumUnion(now, gone, SigOps(p));
  }

  lemma AccountedCovers(p: Pool, m: map<nat, Modified>, m': map<nat, Modified>, before: set<nat>, added: set<nat>)
    requires PoolOk(p) && Covers(p, m, before) && before !! added && m.Keys !! added
    requires Accounted(p, m, m', added, added)
    ensures Covers(p, m', before + added)
  {
    hide PoolOk, EntryCovers, FromPool, Without, Ancestors;
    forall x: nat | x in m'
      ensures x < |p.entries| && EntryCovers(p, m'[x], x, before + added)
    {
      StartCovers(p, m, x, before);
      EntryAccounted(p, Start(p, m, x), x, before, added);
    }
  }

  lemma StartCovers(p: Pool, m: map<nat, Modified>, x: nat, before: set<nat>)
    requires PoolOk(p) && Covers(p, m, before) && x < |p.entries|
    ensures EntryCovers(p, Start(p, m, x), x, before)
  {
    hide PoolOk, EntryCovers, FromPool;
    if x !in m {
      FromPoolCovers(p, x, before);
    }
  }

  // ---------------------------------------------------------------- packages in block order

  /** CompareTxIterByAncestorCount. */
  predicate Before(p: Pool, x: nat, y: nat)
    requires PoolOk(p) && x < |p.entries| && y < |p.entries|
  {
    var cx, cy := CountWithAncestors(p, x), CountWithAncestors(p, y);
    if cx != cy then cx < cy else x < y
  }

  ghost predicate SortedPackage(p: Pool, package: set<nat>, l: seq<nat>)
    requires PoolOk(p)
  {
    && (forall x :: x in package <==> x in l)
    && (forall i :: 0 <= i < |l| ==> l[i] < |p.entries|)
    && (forall i, j :: 0 <= i < j < |l| ==> Before(p, l[i], l[j]))
  }

  function SetOf(l: seq<nat>): set<nat> { set x | x in l }

  lemma SetOfNext(l: seq<nat>, i: nat)
    requires i < |l|
    ensures SetOf(l[..i + 1]) == SetOf(l[..i]) + {l[i]}
  {
    assert l[..i + 1] == l[..i] + [l[i]];
  }

  lemma EmptyPrefix(l: seq<nat>)
    ensures SetOf(l[..0]) == {}
  {
  }

  lemma PrefixOf(l: seq<nat>, i: nat)
    requires i <= |l|
    ensures SetOf(l[..i]) <= SetOf(l)
  {
  }

  /** In a sorted package everything comes after its ancestors and before nothing it needs; the
      transaction the package was made for comes last. */
  lemma PackageOrder(p: Pool, x: nat, inBlock: set<nat>, l: seq<nat>, i: nat)
    requires PoolOk(p) && x < |p.entries| && SortedPackage(p, Package(p, x, inBlock), l) && i < |l| && x !in inBlock
    ensures l[i] < |p.entries| && Ancestors(p, l[i]) <= inBlock + SetOf(l[..i])
    ensures l[i] !in inBlock + SetOf(l[..i])
    ensures l[i] == x <==> i == |l| - 1
  {
    hide PoolOk, Ancestors, CountWithAncestors;
    assert l[i] in Package(p, x, inBlock);
    forall a | a in Ancestors(p, l[i])
      ensures a in inBlock + SetOf(l[..i])
    {
      AncestorsInside(p, a, l[i]);
      if l[i] != x {
        AncestorsInside(p, l[i], x);
      }
      if a !in inBlock {
        assert a in l;
        var j :| 0 <= j < |l| && l[j] == a;
        assert j < i;
        assert l[..i][j] == a;
      }
    }
    assert x in l;
    var k :| 0 <= k < |l| && l[k] == x;
    NotBeforeItself(p, l, k);
    if k < |l| - 1 {
      assert l[k + 1] in Package(p, x, inBlock) && l[k + 1] != x;
      AncestorsInside(p, l[k + 1], x);
    }
    NotBeforeItself(p, l, i);
  }

  lemma PackageLast(p: Pool, x: nat, inBlock: set<nat>, l: seq<nat>, i: nat)
    requires PoolOk(p) && x < |p.entries| && SortedPackage(p, Package(p, x, inBlock), l) && x !in inBlock && i <= |l|
    ensures x in SetOf(l) && (i < |l| ==> x !in SetOf(l[..i])) && SetOf(l) == Package(p, x, inBlock)
  {
    hide PoolOk, Ancestors, Before;
    assert x in Package(p, x, inBlock);
    forall j | 0 <= j < |l|
      ensures l[j] == x <==> j == |l| - 1
    {
      PackageOrder(p, x, inBlock, l, j);
    }
  }

  lemma NotBeforeItself(p: Pool, l: seq<nat>, i: nat)
    requires PoolOk(p) && i < |l| && (forall k :: 0 <= k < |l| ==> l[k] < |p.entries|)
    requires forall k, j :: 0 <= k < j < |l| ==> Before(p, l[k], l[j])
    ensures l[i] !in l[..i] && forall j :: 0 <= j < |l| && l[j] == l[i] ==> j == i
  {
    hide PoolOk, CountWithAncestors;
  }

  predicate IsFirst(p: Pool, s: set<nat>, x: nat)
    requires PoolOk(p) && forall y :: y in s ==> y < |p.entries|
  {
    x in s && forall y :: y in s && y != x ==> Before(p, x, y)
  }

  lemma {:induction false} FirstExists(p: Pool, s: set<nat>) returns (x: nat)
    requires PoolOk(p) && s != {} && forall y :: y in s ==> y < |p.entries|
    ensures IsFirst(p, s, x) && x in s && forall y :: y in s && y != x ==> Before(p, x, y)
  {
    hide PoolOk, CountWithAncestors, Before;
    x :| x in s;
    var rest := s - {x};
    assert s == rest + {x};
    if rest != {} {
      var z := FirstExists(p, rest);
      FirstOfTwo(p, s, x, z);
      if !Before(p, x, z) {
        x := z;
      }
    }
  }

  lemma FirstOfTwo(p: Pool, s: set<nat>, x: nat, z: nat)
    requires PoolOk(p) && (forall y :: y in s ==> y < |p.entries|) && x in s && IsFirst(p, s - {x}, z)
    ensures if Before(p, x, z) then IsFirst(p, s, x) else IsFirst(p, s, z)
  {
    hide PoolOk, CountWithAncestors;
    forall y | y in s && y != x && y != z
      ensures Before(p, z, y)
    {
      assert y in s - {x};
    }
  }

  lemma SumAlone(x: nat, v: seq<int>)
    requires x < |v|
    ensures Sum({x}, v) == v[x]
  {
    SumToEmpty(v, |v|);
    SumAdd({}, v, x);
    assert {} + {x} == {x};
  }

  lemma WithoutOne(e: Modified, p: Pool, it: nat)
    requires it < |p.entries|
    ensures Without(e, p, {it}) == Modified(e.size - p.entries[it].size, e.sigOps - p.entries[it].sigOps)
  {
    hide Sum;
    SumAlone(it, Sizes(p));
    SumAlone(it, SigOps(p));
  }

  /** How many of the first `n` transactions are not chosen yet. */
  function Unchosen(s: set<nat>, n: nat): nat {
    if n == 0 then 0 else Unchosen(s, n - 1) + (if n - 1 in s then 0 else 1)
  }

  lemma {:induction false} UnchosenShrinks(s: set<nat>, t: set<nat>, n: nat)
    requires s <= t
    ensures Unchosen(t, n) <= Unchosen(s, n)
    ensures (exists x :: 0 <= x < n && x in t && x !in s) ==> Unchosen(t, n) < Unchosen(s, n)
  {
    if n > 0 {
      UnchosenShrinks(s, t, n - 1);
    }
  }

  /** `m` with the entries of `s` entered or lowered by `it`. */
  ghost function LoweredAll(p: Pool, m: map<nat, Modified>, it: nat, s: set<nat>): map<nat, Modified>
    requires PoolOk(p) && forall x :: x in s ==> x < |p.entries|
  {
    map x | x in m.Keys + s :: if x in s then Without(Start(p, m, x), p, {it}) else m[x]
  }

  lemma LoweredNone(p: Pool, m: map<nat, Modified>, it: nat)
    requires PoolOk(p)
    ensures LoweredAll(p, m, it, {}) == m
  {
    hide PoolOk, Without, FromPool;
  }

  lemma LoweredNext(p: Pool, m: map<nat, Modified>, it: nat, s: set<nat>, x: nat)
    requires PoolOk(p) && (forall y :: y in s ==> y < |p.entries|) && x < |p.entries| && x !in s
    ensures LoweredAll(p, m, it, s + {x}) ==
            LoweredAll(p, m, it, s)[x := Without(Start(p, LoweredAll(p, m, it, s), x), p, {it})]
  {
    hide PoolOk, Without, FromPool;
  }

  lemma AccountedNone(p: Pool, m: map<nat, Modified>, added: set<nat>)
    requires PoolOk(p) && forall x :: x in m ==> x < |p.entries|
    ensures Accounted(p, m, m, added, {})
  {
    hide PoolOk, Ancestors;
    SumToEmpty(Sizes(p), |p.entries|);
    SumToEmpty(SigOps(p), |p.entries|);
    forall x: nat | x in m
      ensures m[x] == Without(Start(p, m, x), p, Ancestors(p, x) * {})
    {
      assert Ancestors(p, x) * {} == {};
    }
  }

  /** One more included parent, on top of those already accounted for; `all` are its descendants
      outside the block. */
  lemma AccountedNext(p: Pool, start: map<nat, Modified>, before: map<nat, Modified>, added: set<nat>, done: set<nat>,
                      it: nat, all: set<nat>)
    requires PoolOk(p) && it !in done && start.Keys !! added && Accounted(p, start, before, added, done)
    requires forall x: nat :: x in all <==> x < |p.entries| && it in Ancestors(p, x) && x !in added
    ensures Accounted(p, start, LoweredAll(p, before, it, all), added, done + {it})
  {
    hide PoolOk, Ancestors, Sum, FromPool, Without;
    var after := LoweredAll(p, before, it, all);
    forall x: nat
      ensures x in after <==> x in start || (x < |p.entries| && x !in added && Ancestors(p, x) * (done + {it}) != {})
      ensures x in after && x < |p.entries| ==>
              after[x] == Without(Start(p, start, x), p, Ancestors(p, x) * (done + {it}))
    {
      if x < |p.entries| && x !in added {
        AccountedEntry(p, start, before, x, done, it);
      }
    }
  }

  lemma AccountedEntry(p: Pool, start: map<nat, Modified>, before: map<nat, Modified>, x: nat, done: set<nat>, it: nat)
    requires PoolOk(p) && x < |p.entries| && it !in done
    requires x in before ==> before[x] == Without(Start(p, start, x), p, Ancestors(p, x) * done)
    requires x !in before ==> x !in start && Ancestors(p, x) * done == {}
    ensures it in Ancestors(p, x) ==>
              && Ancestors(p, x) * (done + {it}) != {}
              && Without(Start(p, before, x), p, {it}) ==
                 Without(Start(p, start, x), p, Ancestors(p, x) * (done + {it}))
    ensures it !in Ancestors(p, x) ==> Ancestors(p, x) * (done + {it}) == Ancestors(p, x) * done
  {
    hide PoolOk, Ancestors, Sum, FromPool;
    var included := Ancestors(p, x) * done;
    if it in Ancestors(p, x) {
      assert Ancestors(p, x) * (done + {it}) == included + {it};
      SumUnion(included, {it}, Sizes(p));
      SumUnion(included, {it}, SigOps(p));
      SumNone(Sizes(p));
      SumNone(SigOps(p));
    } else {
      assert Ancestors(p, x) * (done + {it}) == included;
    }
  }

  lemma SumNone(v: seq<int>)
    ensures Sum({}, v) == 0
  {
    SumToEmpty(v, |v|);
  }

  /** The modified set as the selection loop keeps it. */
  ghost predicate ModifiedOk(p: Pool, m: map<nat, Modified>, inBlock: set<nat>)
    requires PoolOk(p)
  {
    Covers(p, m, inBlock) && m.Keys !! inBlock
  }

  /** After a whole package went in and its descendants were updated. */
  lemma ModifiedAfterSuccess(p: Pool, vtx: seq<BlockTx>, inBlock: set<nat>, x: nat, m: map<nat, Modified>,
                             m': map<nat, Modified>)
    requires PoolOk(p) && WellOrdered(p, vtx) && Holds(vtx, inBlock) && x < |p.entries| && x !in inBlock
    requires ModifiedOk(p, m, inBlock) && m.Keys !! Package(p, x, inBlock)
    requires Accounted(p, m, m', Package(p, x, inBlock), Package(p, x, inBlock))
    ensures ModifiedOk(p, m', inBlock + Package(p, x, inBlock))
  {
    hide PoolOk, WellOrdered, Holds, Covers, Ancestors;
    var added := Package(p, x, inBlock);
    AccountedCovers(p, m, m', inBlock, added);
    forall y: nat | y in m'
      ensures y !in inBlock
    {
      if y in inBlock {
        BlockClosed(p, vtx, inBlock, y);
      }
    }
  }

  /** After a package went in only in part. */
  lemma ModifiedAfterFailure(p: Pool, inBlock: set<nat>, inBlock': set<nat>, gone: set<nat>, m: map<nat, Modified>)
    requires PoolOk(p) && ModifiedOk(p, m, inBlock) && inBlock <= inBlock' <= inBlock + gone
    ensures ModifiedOk(p, m - gone, inBlock')
  {
    hide PoolOk, Covers;
    CoversMore(p, m, m - gone, inBlock, inBlock' - inBlock);
    assert inBlock + (inBlock' - inBlock) == inBlock';
  }

  /** Whatever part of a package enters, the block grows by at most the recorded totals. */
  lemma PackageFits(p: Pool, inBlock: set<nat>, inBlock': set<nat>, x: nat, e: Modified)
    requires PoolOk(p) && x < |p.entries| && x !in inBlock && EntryCovers(p, e, x, inBlock)
    requires inBlock <= inBlock' <= inBlock + Package(p, x, inBlock)
    ensures Sum(inBlock', Weights(p)) <= Sum(inBlock, Weights(p)) + 4 * e.size
    ensures Sum(inBlock', SigOps(p)) <= Sum(inBlock, SigOps(p)) + e.sigOps
  {
    var package := Package(p, x, inBlock);
    SumToBelow(package, Weights(p), Sizes(p), |p.entries|);
    hide PoolOk, Ancestors;
    SumGrows(inBlock', inBlock + package, Weights(p));
    SumGrows(inBlock', inBlock + package, SigOps(p));
    SumUnion(inBlock, package, Weights(p));
    SumUnion(inBlock, package, SigOps(p));
  }

  lemma PackageIds(p: Pool, x: nat, inBlock: set<nat>)
    requires PoolOk(p) && x < |p.entries|
    ensures forall y :: y in Package(p, x, inBlock) ==> y < |p.entries|
  {
  }

  lemma ModifiedIds(p: Pool, m: map<nat, Modified>, inBlock: set<nat>)
    requires PoolOk(p) && ModifiedOk(p, m, inBlock)
    ensures forall x :: x in m ==> x < |p.entries| && x !in inBlock
  {
    hide PoolOk, EntryCovers;
  }

  lemma NothingModified(p: Pool, m: map<nat, Modified>)
    requires PoolOk(p) && Accounted(p, map[], m, {}, {})
    ensures ModifiedOk(p, m, {})
  {
    hide PoolOk, Ancestors;
    assert forall x: nat :: x < |p.entries| ==> Ancestors(p, x) * {} == {};
  }

  lemma RecordedCovers(p: Pool, m: map<nat, Modified>, inBlock: set<nat>, x: nat, modified: bool)
    requires PoolOk(p) && ModifiedOk(p, m, inBlock) && x < |p.entries| && (modified ==> x in m)
    ensures EntryCovers(p, if modified then m[x] else FromPool(p, x), x, inBlock)
  {
    hide PoolOk, EntryCovers, FromPool;
    if !modified {
      FromPoolCovers(p, x, inBlock);
    }
  }

  lemma Erased(p: Pool, m: map<nat, Modified>, inBlock: set<nat>, x: nat)
    requires PoolOk(p) && ModifiedOk(p, m, inBlock) && x in m
    ensures ModifiedOk(p, m - {x}, inBlock) && |m - {x}| < |m|
  {
    hide PoolOk, EntryCovers;
    assert (m - {x}).Keys == m.Keys - {x};
    assert |m - {x}| == |(m - {x}).Keys| && |m| == |m.Keys|;
  }

  lemma Shrunk(m: map<nat, Modified>, m': map<nat, Modified>, x: nat)
    ensures m'.Keys <= m.Keys ==> |m'| <= |m| && (x in m && x !in m' ==> |m'| < |m|)
  {
    if m'.Keys <= m.Keys {
      Subset(m'.Keys, m.Keys);
      assert |m'| == |m'.Keys| && |m| == |m.Keys|;
      if x in m && x !in m' {
        Smaller(m'.Keys, m.Keys, x);
      }
    }
  }

  lemma NotEmpty(m: map<nat, Modified>)
    requires m != map[]
    ensures exists x :: x in m
  {
    assert (forall x :: x !in m) ==> m == map[];
  }
}
