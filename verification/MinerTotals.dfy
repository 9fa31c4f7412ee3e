/** When the totals recorded for a package are exact, and what then must be chosen: a pool that leaves
    room in the block is taken in whole, but for what cannot be mined yet (src/miner.cpp). */
module MinerTotals {
  import opened MinerSpec

  /** Final, and without witness data unless the block may carry some. */
  predicate Eligible(e: Entry, includeWitness: bool) {
    e.finalTx && (includeWitness || !e.hasWitness)
  }

  /** What can be mined: the eligible transactions all of whose ancestors are. */
  ghost function Minable(p: Pool, includeWitness: bool): set<nat>
    requires PoolOk(p)
  {
    set x | 0 <= x < |p.entries| && Eligible(p.entries[x], includeWitness) && AncestorsEligible(p, x, includeWitness)
  }

  ghost predicate AncestorsEligible(p: Pool, x: nat, includeWitness: bool)
    requires PoolOk(p) && x < |p.entries|
  {
    forall a :: a in Ancestors(p, x) ==> Eligible(p.entries[a], includeWitness)
  }

  ghost function All(p: Pool): set<nat> {
    set x | 0 <= x < |p.entries| && IsEntry(p, x)
  }

  predicate IsEntry(p: Pool, x: nat) { x < |p.entries| }

  lemma AncestorIds(p: Pool, x: nat)
    requires PoolOk(p) && x < |p.entries|
    ensures forall a :: a in Ancestors(p, x) ==> a < |p.entries|
  {
  }

  lemma MinableInBlock(p: Pool, vtx: seq<BlockTx>, inBlock: set<nat>, includeWitness: bool)
    requires PoolOk(p) && WellOrdered(p, vtx) && Holds(vtx, inBlock)
    requires forall x :: x in inBlock && x < |p.entries| ==> Eligible(p.entries[x], includeWitness)
    ensures inBlock <= Minable(p, includeWitness)
  {
    hide PoolOk, WellOrdered, Holds, Ancestors, Eligible;
    forall x | x in inBlock
      ensures x in Minable(p, includeWitness)
    {
      BlockClosed(p, vtx, inBlock, x);
      AncestorIds(p, x);
    }
  }

  /** A package may be mined if and only if its head is minable, when what is in the block is. */
  lemma PackageMinable(p: Pool, x: nat, inBlock: set<nat>, includeWitness: bool)
    requires PoolOk(p) && x < |p.entries| && inBlock <= Minable(p, includeWitness)
    ensures (forall y :: y in Package(p, x, inBlock) && y < |p.entries| ==> Eligible(p.entries[y], includeWitness)) <==>
            x in Minable(p, includeWitness)
  {
    hide PoolOk, Ancestors, Eligible;
    AncestorIds(p, x);
    assert x in Package(p, x, inBlock);
    assert forall a :: a in Ancestors(p, x) ==> a in Package(p, x, inBlock) || a in inBlock;
  }

  /** What a package really adds up to. */
  ghost function Rest(p: Pool, x: nat, inBlock: set<nat>): Modified
    requires PoolOk(p) && x < |p.entries|
  {
    Modified(Sum(Package(p, x, inBlock), Sizes(p)), Sum(Package(p, x, inBlock), SigOps(p)))
  }

  /** For the transactions of `w` outside the block, the modified set holds exactly those with an
      ancestor inside, with exact totals. */
  ghost predicate Exact(p: Pool, w: set<nat>, m: map<nat, Modified>, inBlock: set<nat>)
    requires PoolOk(p)
  {
    forall x: nat :: x in w && x < |p.entries| && x !in inBlock ==> ExactAt(p, m, inBlock, x)
  }

  ghost predicate ExactAt(p: Pool, m: map<nat, Modified>, inBlock: set<nat>, x: nat)
    requires PoolOk(p) && x < |p.entries|
  {
    if x in m then m[x] == Rest(p, x, inBlock) else Ancestors(p, x) !! inBlock
  }

  lemma RecordedExact(p: Pool, m: map<nat, Modified>, inBlock: set<nat>, x: nat)
    requires PoolOk(p) && x < |p.entries| && ExactAt(p, m, inBlock, x)
    ensures Start(p, m, x) == Rest(p, x, inBlock)
  {
    hide PoolOk, Ancestors, Sum;
    if x !in m {
      assert Package(p, x, inBlock) == Ancestors(p, x) + {x};
    }
  }

  /** The block and a package of it never add up to more than the pool. */
  lemma RestFits(p: Pool, inBlock: set<nat>, x: nat)
    requires PoolOk(p) && x < |p.entries| && x !in inBlock && inBlock <= All(p)
    ensures Sum(inBlock, Weights(p)) + 4 * Rest(p, x, inBlock).size <= 4 * Sum(All(p), Sizes(p))
    ensures Sum(inBlock, SigOps(p)) + Rest(p, x, inBlock).sigOps <= Sum(All(p), SigOps(p))
  {
    SumToBelow(inBlock, Weights(p), Sizes(p), |p.entries|);
    var package := Package(p, x, inBlock);
    PackageIds(p, x, inBlock);
    hide PoolOk, Ancestors;
    SumUnion(inBlock, package, Sizes(p));
    SumUnion(inBlock, package, SigOps(p));
    SumGrows(inBlock + package, All(p), Sizes(p));
    SumGrows(inBlock + package, All(p), SigOps(p));
  }

  lemma BlockFits(p: Pool, inBlock: set<nat>)
    requires PoolOk(p) && inBlock <= All(p)
    ensures Sum(inBlock, Weights(p)) <= 4 * Sum(All(p), Sizes(p))
  {
    SumToBelow(inBlock, Weights(p), Sizes(p), |p.entries|);
    hide PoolOk;
    SumGrows(inBlock, All(p), Sizes(p));
  }

  lemma ExactNone(p: Pool, w: set<nat>, m: map<nat, Modified>)
    requires PoolOk(p) && Accounted(p, map[], m, {}, {})
    ensures Exact(p, w, m, {}) && m == map[]
  {
    hide PoolOk, Ancestors;
    assert forall x: nat :: x < |p.entries| ==> Ancestors(p, x) * {} == {};
  }

  lemma ExactWithout(p: Pool, w: set<nat>, m: map<nat, Modified>, inBlock: set<nat>, x: nat)
    requires PoolOk(p) && Exact(p, w, m, inBlock) && x !in w
    ensures Exact(p, w, m - {x}, inBlock)
  {
    hide PoolOk, Ancestors, Rest;
    forall y: nat | y in w && y < |p.entries| && y !in inBlock
      ensures ExactAt(p, m - {x}, inBlock, y)
    {
      assert ExactAt(p, m, inBlock, y);
    }
  }

  /** A package that goes in whole, and whose descendants are accounted for, keeps totals exact. */
  lemma ExactAfter(p: Pool, w: set<nat>, m: map<nat, Modified>, m': map<nat, Modified>, inBlock: set<nat>,
                   package: set<nat>)
    requires PoolOk(p) && Exact(p, w, m, inBlock) && package !! inBlock
    requires Accounted(p, m - package, m', package, package)
    ensures Exact(p, w, m', inBlock + package)
  {
    hide PoolOk, Ancestors, Rest, Accounted;
    forall y: nat | y in w && y < |p.entries| && y !in inBlock + package
      ensures ExactAt(p, m', inBlock + package, y)
    {
      assert ExactAt(p, m, inBlock, y);
      AccountedExact(p, m, m', inBlock, package, y);
    }
  }

  lemma AccountedExact(p: Pool, m: map<nat, Modified>, m': map<nat, Modified>, inBlock: set<nat>, package: set<nat>,
                       y: nat)
    requires PoolOk(p) && y < |p.entries| && y !in inBlock + package && package !! inBlock
    requires ExactAt(p, m, inBlock, y) && Accounted(p, m - package, m', package, package)
    ensures ExactAt(p, m', inBlock + package, y)
  {
    hide PoolOk, Ancestors, Sum;
    RecordedExact(p, m, inBlock, y);
    assert Start(p, m - package, y) == Start(p, m, y);
    RestAfter(p, inBlock, package, y);
    if y !in m' {
      assert y !in m - package && y !in m;
      assert Ancestors(p, y) * package == {};
      assert forall a :: a in Ancestors(p, y) && a in package ==> a in Ancestors(p, y) * package;
    }
  }

  lemma RestAfter(p: Pool, inBlock: set<nat>, package: set<nat>, y: nat)
    requires PoolOk(p) && y < |p.entries| && y !in inBlock + package && package !! inBlock
    ensures Without(Rest(p, y, inBlock), p, Ancestors(p, y) * package) == Rest(p, y, inBlock + package)
  {
    hide PoolOk, Ancestors, Sum;
    var now, gone := Package(p, y, inBlock + package), Ancestors(p, y) * package;
    assert Package(p, y, inBlock) == now + gone;
    SumUnion(now, gone, Sizes(p));
    SumUnion(now, gone, SigOps(p));
  }

  // ---------------------------------------------------------------- the selection loop

  lemma MinableIds(p: Pool, includeWitness: bool)
    requires PoolOk(p)
    ensures Minable(p, includeWitness) <= All(p)
  {
    hide PoolOk, Ancestors;
  }

  /** What the selection loop keeps when there is room for all: each transaction of `w` that the order
      has passed is in the block or in the modified set, and none has failed. */
  ghost predicate Tracks(p: Pool, w: set<nat>, inBlock: set<nat>, order: seq<nat>, mi: nat, m: map<nat, Modified>,
                         failed: set<nat>)
    requires PoolOk(p)
  {
    && Exact(p, w, m, inBlock) && failed !! w && inBlock <= w && mi <= |order|
    && forall k :: 0 <= k < mi && order[k] in w ==> order[k] in inBlock || order[k] in m
  }

  lemma BeginsTracking(p: Pool, w: set<nat>, order: seq<nat>)
    requires PoolOk(p) && Exact(p, w, map[], {})
    ensures Tracks(p, w, {}, order, 0, map[], {})
  {
    hide PoolOk, Exact;
  }

  lemma SkipTracks(p: Pool, w: set<nat>, inBlock: set<nat>, order: seq<nat>, mi: nat, m: map<nat, Modified>,
                   failed: set<nat>)
    requires PoolOk(p) && mi < |order| && (order[mi] in m || order[mi] in inBlock || order[mi] in failed)
    ensures Tracks(p, w, inBlock, order, mi, m, failed) ==> Tracks(p, w, inBlock, order, mi + 1, m, failed)
  {
    hide PoolOk, Exact;
  }

  lemma TracksExact(p: Pool, w: set<nat>, inBlock: set<nat>, order: seq<nat>, mi: nat, m: map<nat, Modified>,
                    failed: set<nat>, x: nat)
    requires PoolOk(p) && Tracks(p, w, inBlock, order, mi, m, failed) && x in w && x < |p.entries| && x !in inBlock
    ensures ExactAt(p, m, inBlock, x)
  {
    hide PoolOk, ExactAt;
  }

  /** Whether the loop has moved on past `x` or not. */
  ghost predicate MovesOn(order: seq<nat>, at: nat, mi: nat, x: nat) {
    mi == at || (mi == at + 1 && at < |order| && order[at] == x)
  }

  lemma RefuseTracks(p: Pool, w: set<nat>, inBlock: set<nat>, order: seq<nat>, at: nat, mi: nat, m: map<nat, Modified>,
                     failed: set<nat>, x: nat)
    requires PoolOk(p) && Tracks(p, w, inBlock, order, at, m, failed) && x !in w && MovesOn(order, at, mi, x)
    ensures Tracks(p, w, inBlock, order, mi, m, failed)
    ensures Tracks(p, w, inBlock, order, mi, m - {x}, failed + {x})
  {
    hide PoolOk, Exact;
    ExactWithout(p, w, m, inBlock, x);
  }

  lemma TryTracks(p: Pool, w: set<nat>, before: set<nat>, after: set<nat>, order: seq<nat>, at: nat, mi: nat,
                  m: map<nat, Modified>, m': map<nat, Modified>, failed: set<nat>, x: nat)
    requires PoolOk(p) && Tracks(p, w, before, order, at, m, failed) && MovesOn(order, at, mi, x)
    requires before <= after <= w && x in after && m.Keys <= m'.Keys + after
    requires Exact(p, w, m, before) ==> Exact(p, w, m', after)
    ensures Tracks(p, w, after, order, mi, m', failed)
  {
    hide PoolOk, Exact;
  }

  lemma AllTracked(p: Pool, w: set<nat>, inBlock: set<nat>, order: seq<nat>, failed: set<nat>)
    requires PoolOk(p) && Tracks(p, w, inBlock, order, |order|, map[], failed)
    requires w <= All(p) && forall x :: x in All(p) ==> x in order
    ensures inBlock == w
  {
    hide PoolOk, Exact;
  }
}
