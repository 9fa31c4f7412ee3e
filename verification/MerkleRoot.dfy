/** ComputeMerkleRoot: the root of a block's transactions by pairing level after level, the flag for
    repeated hashes, and what root and flag together say about the list. The double hash is a
    parameter `H`, as in the partial trees. */
module MerkleRoot {
  import opened Arithmetic
  import opened MerkleSpec
  import opened MerkleBlock

  // ---------------------------------------------------------------- levels

  /** The pair hashed at a position; an odd last hash stands with itself. */
  function PairAt<D>(s: seq<D>, pos: nat): (D, D)
    requires 2 * pos < |s|
  {
    (s[2 * pos], if 2 * pos + 1 < |s| then s[2 * pos + 1] else s[2 * pos])
  }

  /** The level above. */
  function Paired<D>(H: (D, D) -> D, s: seq<D>): (r: seq<D>)
    ensures |r| == (|s| + 1) / 2
    ensures forall pos :: 0 <= pos < |r| ==> r[pos] == H(PairAt(s, pos).0, PairAt(s, pos).1)
  {
    seq((|s| + 1) / 2, pos requires 0 <= pos < (|s| + 1) / 2 => H(PairAt(s, pos).0, PairAt(s, pos).1))
  }

  /** The level `k` steps above. */
  function Level<D>(H: (D, D) -> D, s: seq<D>, k: nat): seq<D>
    decreases k
  {
    if k == 0 then s else Level(H, Paired(H, s), k - 1)
  }

  lemma {:induction false} LevelNext<D>(H: (D, D) -> D, s: seq<D>, k: nat)
    ensures Level(H, s, k + 1) == Paired(H, Level(H, s, k))
    decreases k
  {
    hide Paired;
    if k > 0 {
      LevelNext(H, Paired(H, s), k - 1);
    }
  }

  /** The number of levels above a list of this length. */
  function Above(n: nat): nat {
    if n <= 1 then 0 else 1 + Above((n + 1) / 2)
  }

  /** The root: what is left when one hash is left. */
  function RootOf<D>(H: (D, D) -> D, s: seq<D>): D
    requires s != []
    decreases |s|
  {
    if |s| == 1 then s[0] else RootOf(H, Paired(H, s))
  }

  lemma {:induction false} LastLevel<D>(H: (D, D) -> D, s: seq<D>)
    requires s != []
    ensures Level(H, s, Above(|s|)) == [RootOf(H, s)]
    decreases |s|
  {
    hide Paired;
    if |s| > 1 {
      LastLevel(H, Paired(H, s));
    }
  }

  /** Two hashes of one pair are equal, on this level. */
  ghost predicate Twin<D>(s: seq<D>) {
    exists pos :: Repeats(s, pos)
  }

  predicate Repeats<D(==)>(s: seq<D>, pos: nat) {
    2 * pos + 1 < |s| && s[2 * pos] == s[2 * pos + 1]
  }

  /** On some level up to the root. */
  ghost predicate Mutated<D>(H: (D, D) -> D, s: seq<D>)
    decreases |s|
  {
    |s| > 1 && (Twin(s) || Mutated(H, Paired(H, s)))
  }

  /** All pairs hashed on the way to the root. */
  ghost function Pairs<D>(H: (D, D) -> D, s: seq<D>): set<(D, D)>
    decreases |s|
  {
    if |s| <= 1 then {} else LevelPairs(s) + Pairs(H, Paired(H, s))
  }

  ghost function LevelPairs<D>(s: seq<D>): (r: set<(D, D)>)
    ensures forall pos: nat :: 2 * pos < |s| ==> PairAt(s, pos) in r
  {
    set pos: nat | pos < |s| && 2 * pos < |s| :: PairAt(s, pos)
  }

  // ---------------------------------------------------------------- the tree of CalcHash

  lemma WidthHalves(n: nat, k: nat)
    ensures Width(n, k + 1) == (Width(n, k) + 1) / 2
  {
    hide Width, Lo, Hi;
    var w, v := Width(n, k), Width(n, k + 1);
    if v > 0 {
      Children(n, k + 1, v - 1);
    }
    WidthIff(n, k + 1, v);
    WidthIff(n, k, 2 * v);
    LoChildren(k + 1, v);
  }

  /** A level holds the hashes that CalcHash gives the nodes of that height. */
  lemma {:induction false} LevelIs<D>(H: (D, D) -> D, txids: seq<D>, k: nat)
    ensures |Level(H, txids, k)| == Width(|txids|, k)
    ensures forall pos: nat :: pos < Width(|txids|, k) ==> Level(H, txids, k)[pos] == CalcHash(H, txids, k, pos)
  {
    hide Width, Level;
    if k == 0 {
      LowestLevel(H, txids);
    } else {
      LevelIs(H, txids, k - 1);
      LevelNext(H, txids, k - 1);
      WidthHalves(|txids|, k - 1);
    }
  }

  lemma LowestLevel<D>(H: (D, D) -> D, txids: seq<D>)
    ensures Level(H, txids, 0) == txids && Width(|txids|, 0) == |txids|
    ensures forall pos: nat :: pos < |txids| ==> CalcHash(H, txids, 0, pos) == txids[pos]
  {
  }

  lemma {:induction false} AboveIs(n: nat, m: nat, k: nat)
    requires m == Width(n, k) && forall j: nat :: j < k ==> Width(n, j) > 1
    ensures IsHeight(n, k + Above(m))
    decreases m
  {
    hide Width;
    if m > 1 {
      WidthHalves(n, k);
      AboveIs(n, (m + 1) / 2, k + 1);
    }
  }

  /** Pairing level by level gives the root of the tree that the partial trees are cut from. */
  lemma RootIsTrueRoot<D>(H: (D, D) -> D, txids: seq<D>)
    requires txids != []
    ensures RootOf(H, txids) == TrueRoot(H, txids)
  {
    hide Width, HeightOf, Level, RootOf, CalcHash;
    var n := |txids|;
    LowestLevel(H, txids);
    AboveIs(n, n, 0);
    HeightUnique(n, Above(n), HeightOf(n));
    LastLevel(H, txids);
    LevelIs(H, txids, Above(n));
    Root(n, Above(n));
  }

  // ---------------------------------------------------------------- the flag

  lemma {:induction false} MutatedAt<D>(H: (D, D) -> D, s: seq<D>, k: nat)
    requires Twin(Level(H, s, k))
    ensures Mutated(H, s)
    decreases k
  {
    hide Paired;
    if k > 0 {
      SingleHasNoTwin(H, s, k);
      MutatedAt(H, Paired(H, s), k - 1);
    }
  }

  lemma {:induction false} SingleHasNoTwin<D>(H: (D, D) -> D, s: seq<D>, k: nat)
    requires Twin(Level(H, s, k))
    ensures |s| > 1
    decreases k
  {
    if k > 0 {
      SingleHasNoTwin(H, Paired(H, s), k - 1);
    }
  }

  /** A list without the flag has no twins, so that every partial tree cut from it decodes. */
  lemma {:induction false} UnmutatedHasNoTwins<D>(H: (D, D) -> D, txids: seq<D>, mask: seq<bool>, h: nat, pos: nat)
    requires !Mutated(H, txids) && |mask| == |txids| && pos < Width(|txids|, h)
    ensures NoTwins(H, txids, mask, h, pos)
    decreases h
  {
    hide Width, CalcHash, Below, Mutated, Level;
    if h > 0 {
      LeftChild(|txids|, h, pos);
      UnmutatedHasNoTwins(H, txids, mask, h - 1, 2 * pos);
      if 2 * pos + 1 < Width(|txids|, h - 1) {
        UnmutatedHasNoTwins(H, txids, mask, h - 1, 2 * pos + 1);
        LevelIs(H, txids, h - 1);
        if Repeats(Level(H, txids, h - 1), pos) {
          MutatedAt(H, txids, h - 1);
        }
      }
    }
  }

  // ---------------------------------------------------------------- the root determines the list

  /** Without twins a level is determined by the one above. */
  lemma SamePaired<D>(H: (D, D) -> D, a: seq<D>, b: seq<D>)
    requires Paired(H, a) == Paired(H, b) && !Twin(a) && !Twin(b)
    requires NoCollision(H, LevelPairs(a), LevelPairs(b))
    ensures a == b
  {
    hide Paired, LevelPairs, NoCollision;
    forall pos: nat | 2 * pos < |a| && 2 * pos < |b|
      ensures PairAt(a, pos) == PairAt(b, pos)
    {
      assert pos < |Paired(H, a)|;
      SamePair(H, LevelPairs(a), LevelPairs(b), PairAt(a, pos), PairAt(b, pos));
    }
    NotShorter(a, b);
    NotShorter(b, a);
    forall i | 0 <= i < |a|
      ensures a[i] == b[i]
    {
      assert PairAt(a, i / 2) == PairAt(b, i / 2);
    }
  }

  lemma NotShorter<D>(a: seq<D>, b: seq<D>)
    requires (|a| + 1) / 2 == (|b| + 1) / 2 && !Twin(b)
    requires forall pos: nat :: 2 * pos < |a| && 2 * pos < |b| ==> PairAt(a, pos) == PairAt(b, pos)
    ensures |b| <= |a|
  {
    assert !Repeats(b, |a| / 2);
    if 2 * (|a| / 2) < |a| && 2 * (|a| / 2) < |b| {
      assert PairAt(a, |a| / 2) == PairAt(b, |a| / 2);
    }
  }

  lemma {:induction false} PairsAbove<D>(H: (D, D) -> D, s: seq<D>, k: nat)
    ensures Pairs(H, Level(H, s, k)) <= Pairs(H, s)
    ensures Mutated(H, Level(H, s, k)) ==> Mutated(H, s)
    ensures k < Above(|s|) ==> |Level(H, s, k)| > 1
    decreases k
  {
    hide Paired, LevelPairs, Twin;
    if k > 0 && |s| > 1 {
      PairsAbove(H, Paired(H, s), k - 1);
    } else if k > 0 {
      ShortStays(H, s, k);
    }
  }

  lemma {:induction false} ShortStays<D>(H: (D, D) -> D, s: seq<D>, k: nat)
    requires |s| <= 1
    ensures |Level(H, s, k)| <= 1
    decreases k
  {
    if k > 0 {
      ShortStays(H, Paired(H, s), k - 1);
    }
  }

  /** Of two lists with the same root, no flag and no collision, the lower one is a level of the other. */
  lemma {:induction false} SameRoot<D>(H: (D, D) -> D, a: seq<D>, b: seq<D>)
    requires a != [] && b != [] && Above(|a|) <= Above(|b|)
    requires RootOf(H, a) == RootOf(H, b) && !Mutated(H, a) && !Mutated(H, b)
    requires NoCollision(H, Pairs(H, a), Pairs(H, b))
    ensures a == Level(H, b, Above(|b|) - Above(|a|))
    decreases |a|
  {
    hide Paired, NoCollision, Level, Twin, Pairs, LevelPairs, Mutated, RootOf;
    if |a| == 1 {
      LastLevel(H, b);
      RootOfOne(H, a);
    } else {
      var j := Above(|b|) - Above(|a|);
      var c := Level(H, b, j);
      Unfolds(H, a);
      Unfolds(H, b);
      NoCollisionWithin(H, Pairs(H, a), Pairs(H, Paired(H, a)), Pairs(H, b), Pairs(H, Paired(H, b)));
      SameRoot(H, Paired(H, a), Paired(H, b));
      LevelUnfolds(H, b, j);
      LevelNext(H, b, j);
      PairsAbove(H, b, j);
      Unfolds(H, c);
      NoCollisionWithin(H, Pairs(H, a), LevelPairs(a), Pairs(H, b), LevelPairs(c));
      SamePaired(H, a, c);
    }
  }

  /** One level of a list with more than one hash. */
  lemma Unfolds<D>(H: (D, D) -> D, s: seq<D>)
    requires |s| > 1
    ensures Above(|s|) == 1 + Above(|Paired(H, s)|) && RootOf(H, s) == RootOf(H, Paired(H, s))
    ensures Pairs(H, s) == LevelPairs(s) + Pairs(H, Paired(H, s))
    ensures Mutated(H, s) <==> Twin(s) || Mutated(H, Paired(H, s))
  {
    hide LevelPairs, Twin;
  }

  lemma LevelUnfolds<D>(H: (D, D) -> D, s: seq<D>, k: nat)
    ensures Level(H, s, k + 1) == Level(H, Paired(H, s), k)
  {
  }

  /** With no collision and no flag, the root and the number of levels determine the list. */
  lemma SameListIff<D>(H: (D, D) -> D, a: seq<D>, b: seq<D>)
    requires a != [] && b != []
    requires RootOf(H, a) == RootOf(H, b) && !Mutated(H, a) && !Mutated(H, b)
    requires NoCollision(H, Pairs(H, a), Pairs(H, b))
    ensures a == b <==> Above(|a|) == Above(|b|)
  {
    hide Pairs, Mutated, RootOf, NoCollision;
    if Above(|a|) == Above(|b|) {
      SameRoot(H, a, b);
      LevelZero(H, b);
    }
  }

  /** The number of levels matters: a lone transaction whose id is the hash of two others has their root. */
  lemma LeafAsNode<D>(H: (D, D) -> D, x: D, y: D)
    requires x != y
    ensures RootOf(H, [H(x, y)]) == RootOf(H, [x, y]) && !Mutated(H, [H(x, y)]) && !Mutated(H, [x, y])
  {
    hide RootOf, Mutated;
    var b := [x, y];
    assert Paired(H, b) == [H(x, y)];
    Unfolds(H, b);
    Unflagged(H, [H(x, y)]);
    assert forall pos :: Repeats(b, pos) ==> pos == 0;
  }

  lemma Unflagged<D>(H: (D, D) -> D, s: seq<D>)
    requires |s| == 1
    ensures !Mutated(H, s)
  {
  }

  /** The promise of the flag: with no collision, and no transaction id that is itself the hash of a
      pair, two lists with the same root of which neither is flagged are the same list. */
  lemma RootDeterminesList<D>(H: (D, D) -> D, a: seq<D>, b: seq<D>)
    requires a != [] && b != []
    requires RootOf(H, a) == RootOf(H, b) && !Mutated(H, a) && !Mutated(H, b)
    requires NoCollision(H, Pairs(H, a), Pairs(H, b))
    requires Apart(H, a, b) && Apart(H, b, a)
    ensures a == b
  {
    hide Pairs, Mutated, RootOf, NoCollision, Apart;
    if Above(|a|) <= Above(|b|) {
      SameRoot(H, a, b);
      SameHeight(H, a, b);
    } else {
      Swapped(H, Pairs(H, a), Pairs(H, b));
      SameRoot(H, b, a);
      SameHeight(H, b, a);
    }
  }

  /** No transaction id of the one list is the hash of a pair of the other. */
  ghost predicate Apart<D>(H: (D, D) -> D, a: seq<D>, b: seq<D>) {
    forall i, q :: 0 <= i < |a| && q in Pairs(H, b) ==> a[i] != H(q.0, q.1)
  }

  lemma Swapped<D>(H: (D, D) -> D, ps: set<(D, D)>, qs: set<(D, D)>)
    requires NoCollision(H, ps, qs)
    ensures NoCollision(H, qs, ps)
  {
  }

  lemma SameHeight<D>(H: (D, D) -> D, a: seq<D>, b: seq<D>)
    requires a != [] && Above(|a|) <= Above(|b|) && a == Level(H, b, Above(|b|) - Above(|a|)) && Apart(H, a, b)
    ensures a == b
  {
    hide Pairs, Level;
    var j := Above(|b|) - Above(|a|);
    if j > 0 {
      var q := HashedFrom(H, b, j);
    } else {
      LevelZero(H, b);
    }
  }

  /** The first hash of a level above the transactions is the hash of a pair. */
  lemma HashedFrom<D>(H: (D, D) -> D, s: seq<D>, k: nat) returns (q: (D, D))
    requires 0 < k <= Above(|s|)
    ensures q in Pairs(H, s) && Level(H, s, k) != [] && Level(H, s, k)[0] == H(q.0, q.1)
  {
    hide Mutated, Level;
    LevelNext(H, s, k - 1);
    PairsAbove(H, s, k - 1);
    var below := Level(H, s, k - 1);
    q := PairAt(below, 0);
  }

  lemma LevelZero<D>(H: (D, D) -> D, s: seq<D>)
    ensures Level(H, s, 0) == s
  {
  }

  /** The list with its last `p` entries once more. */
  function Repeated<D>(s: seq<D>, p: nat): (r: seq<D>)
    requires p <= |s|
    ensures |r| == |s| + p
  {
    s + s[|s| - p..]
  }

  /** Repeating the last 2^k transactions where a level of `2^k`-blocks is odd keeps the root and is
      always flagged. */
  lemma {:induction false} RepeatedIsFlagged<D>(H: (D, D) -> D, s: seq<D>, m: nat, k: nat)
    requires |s| == OddBlocks(m, k)
    ensures Pow2(k) <= |s|
    ensures RootOf(H, Repeated(s, Pow2(k))) == RootOf(H, s) && Mutated(H, Repeated(s, Pow2(k)))
    decreases k
  {
    hide Pow2, Mutated, RootOf, Paired, OddBlocks, Repeated, Twin, Pairs, LevelPairs, Above;
    OddBlocksAre(m, k);
    Unfolds(H, Repeated(s, Pow2(k)));
    Unfolds(H, s);
    if k == 0 {
      LastRepeated(H, s);
    } else {
      RepeatedIsFlagged(H, Paired(H, s), m, k - 1);
      BlockRepeated(H, s, Pow2(k - 1));
    }
  }

  /** An odd number, three or more, of blocks of 2^k. */
  function OddBlocks(m: nat, k: nat): nat {
    (2 * m + 3) * Pow2(k)
  }

  lemma OddBlocksAre(m: nat, k: nat)
    ensures 1 < OddBlocks(m, k) && Pow2(k) <= OddBlocks(m, k)
    ensures k == 0 ==> Pow2(k) == 1 && OddBlocks(m, k) == 2 * m + 3
    ensures k > 0 ==> Pow2(k) == 2 * Pow2(k - 1) && OddBlocks(m, k) == 2 * OddBlocks(m, k - 1)
  {
    MulMono(1, Pow2(k), 2 * m + 3);
    MulMono(1, 2 * m + 3, Pow2(k));
    if k > 0 {
      Doubled(2 * m + 3, Pow2(k - 1));
    }
  }

  lemma Doubled(a: nat, p: nat)
    ensures a * (2 * p) == 2 * (a * p)
  {
  }

  lemma LastRepeated<D>(H: (D, D) -> D, s: seq<D>)
    requires |s| % 2 == 1
    ensures Twin(Repeated(s, 1)) && Paired(H, Repeated(s, 1)) == Paired(H, s)
  {
    assert Repeats(Repeated(s, 1), |s| / 2);
  }

  lemma BlockRepeated<D>(H: (D, D) -> D, s: seq<D>, p: nat)
    requires |s| % 2 == 0 && 2 * p <= |s|
    ensures p <= |Paired(H, s)| && Paired(H, Repeated(s, 2 * p)) == Repeated(Paired(H, s), p)
  {
  }

  // ---------------------------------------------------------------- the loop

  /** ComputeMerkleRoot, with the flag asked for. */
  method ComputeMerkleRoot<D(==)>(H: (D, D) -> D, zero: D, txids: seq<D>) returns (root: D, mutated: bool)
    ensures root == if txids == [] then zero else TrueRoot(H, txids)
    ensures mutated <==> Mutated(H, txids)
  {
    hide RootOf, TrueRoot;
    var hashes := txids;
    mutated := false;
    while |hashes| > 1
      invariant hashes == [] <==> txids == []
      invariant hashes != [] ==> RootOf(H, hashes) == RootOf(H, txids)
      invariant Mutated(H, txids) <==> mutated || Mutated(H, hashes)
      decreases |hashes|
    {
      var twin := HasTwin(hashes);
      mutated := mutated || twin;
      Unfolds(H, hashes);
      hashes := NextLevel(H, hashes);
    }
    if hashes == [] {
      root := zero;
    } else {
      root := hashes[0];
      RootIsTrueRoot(H, txids);
      RootOfOne(H, hashes);
    }
  }

  lemma RootOfOne<D>(H: (D, D) -> D, s: seq<D>)
    requires |s| == 1
    ensures RootOf(H, s) == s[0]
  {
  }

  /** The scan of one level. */
  method HasTwin<D(==)>(hashes: seq<D>) returns (twin: bool)
    ensures twin <==> Twin(hashes)
  {
    twin := false;
    var pos := 0;
    while pos + 1 < |hashes|
      invariant pos % 2 == 0
      invariant twin <==> exists q :: 0 <= q < pos / 2 && Repeats(hashes, q)
    {
      if hashes[pos] == hashes[pos + 1] {
        assert Repeats(hashes, pos / 2);
        twin := true;
      }
      pos := pos + 2;
    }
  }

  /** Hashing one level in place: the result of a pair is written over hashes already used. */
  method NextLevel<D>(H: (D, D) -> D, level: seq<D>) returns (hashes: seq<D>)
    requires level != []
    ensures hashes == Paired(H, level)
  {
    hashes := level;
    if |hashes| % 2 == 1 {
      hashes := hashes + [hashes[|hashes| - 1]];
    }
    ghost var padded := hashes;
    for i := 0 to |hashes| / 2
      invariant |hashes| == |padded|
      invariant forall q :: 0 <= q < i ==> hashes[q] == H(padded[2 * q], padded[2 * q + 1])
      invariant forall q :: i <= q < |hashes| ==> hashes[q] == padded[q]
    {
      hashes := hashes[i := H(hashes[2 * i], hashes[2 * i + 1])];
    }
    hashes := hashes[..|hashes| / 2];
  }
}
