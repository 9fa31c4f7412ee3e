/** Partial Merkle trees on values: the shape of the tree, the full tree's hashes, the depth-first
    encoding of a selection of transactions, and the walk that decodes it. The double hash is a
    parameter `H`, digests are a type parameter, and nothing is assumed about `H` except
    where a lemma says so. */
module MerkleSpec {
  import opened Arithmetic

  // ---------------------------------------------------------------- shape

  /** CalcTreeWidth: the number of nodes at a height. */
  function Width(n: nat, h: nat): nat {
    (n + Pow2(h) - 1) / Pow2(h)
  }

  /** The transactions below a node are those from Lo to Hi. */
  function Lo(h: nat, pos: nat): nat { pos * Pow2(h) }

  function Hi(n: nat, h: nat, pos: nat): (r: nat)
    ensures r <= n
  {
    if (pos + 1) * Pow2(h) < n then (pos + 1) * Pow2(h) else n
  }

  lemma HiIsNext(n: nat, h: nat, pos: nat)
    ensures Hi(n, h, pos) == if Lo(h, pos + 1) < n then Lo(h, pos + 1) else n
  {
  }

  lemma WidthIff(n: nat, h: nat, pos: nat)
    ensures pos < Width(n, h) <==> Lo(h, pos) < n
  {
    var p := Pow2(h);
    var w := (n + p - 1) / p;
    assert w * p <= n + p - 1 < (w + 1) * p by { DivBounds(n + p - 1, p); }
    if pos < w {
      assert (pos + 1) * p <= w * p by { MulMono(pos + 1, w, p); }
      assert (pos + 1) * p == pos * p + p;
    } else {
      assert w * p <= pos * p by { MulMono(w, pos, p); }
      assert (w + 1) * p == w * p + p;
    }
  }

  /** A node above the leaves has a left child, and a right one when more leaves remain; together
      the children cover exactly the node's transactions. */
  lemma Children(n: nat, h: nat, pos: nat)
    requires h > 0 && pos < Width(n, h)
    ensures 2 * pos < Width(n, h - 1)
    ensures Lo(h - 1, 2 * pos) == Lo(h, pos) < Hi(n, h - 1, 2 * pos)
    ensures 2 * pos + 1 < Width(n, h - 1) ==>
              Hi(n, h - 1, 2 * pos) == Lo(h - 1, 2 * pos + 1) < Hi(n, h - 1, 2 * pos + 1) == Hi(n, h, pos)
    ensures 2 * pos + 1 >= Width(n, h - 1) ==> Hi(n, h - 1, 2 * pos) == Hi(n, h, pos)
  {
    var p := Pow2(h - 1);
    WidthIff(n, h, pos);
    WidthIff(n, h - 1, 2 * pos);
    WidthIff(n, h - 1, 2 * pos + 1);
    assert Pow2(h) == 2 * p;
    assert pos * (2 * p) == 2 * pos * p;
    assert (pos + 1) * (2 * p) == 2 * pos * p + 2 * p;
    assert (2 * pos + 1) * p == 2 * pos * p + p;
    assert (2 * pos + 2) * p == 2 * pos * p + 2 * p;
  }

  lemma LeftChild(n: nat, h: nat, pos: nat)
    requires h > 0 && pos < Width(n, h)
    ensures 2 * pos < Width(n, h - 1)
  {
    hide Width, Lo, Hi;
    Children(n, h, pos);
  }

  lemma Leaf(n: nat, pos: nat)
    requires pos < Width(n, 0)
    ensures pos < n && Lo(0, pos) == pos && Hi(n, 0, pos) == pos + 1
  {
    WidthIff(n, 0, pos);
  }

  /** The root is the one node at its height, and covers every transaction. */
  ghost predicate IsHeight(n: nat, h: nat) {
    Width(n, h) <= 1 && forall k: nat :: k < h ==> Width(n, k) > 1
  }

  lemma Root(n: nat, h: nat)
    requires n > 0 && IsHeight(n, h)
    ensures 0 < Width(n, h) && Lo(h, 0) == 0 && Hi(n, h, 0) == n
  {
    WidthIff(n, h, 0);
    WidthIff(n, h, 1);
  }

  lemma HeightUnique(n: nat, h: nat, k: nat)
    requires IsHeight(n, h) && IsHeight(n, k)
    ensures h == k
  {
    assert h < k ==> Width(n, h) > 1;
    assert k < h ==> Width(n, k) > 1;
  }

  lemma WidthShrinks(n: nat, h: nat)
    requires Width(n, h) > 1
    ensures Width(n, h + 1) < Width(n, h)
  {
    var w := Width(n, h + 1);
    if w > 0 {
      Children(n, h + 1, w - 1);
    }
  }

  /** Up to 2^31 transactions every intermediate value of CalcTreeWidth fits 32 bits, at every
      height the traversal uses. */
  lemma WidthFits(n: nat, height: nat, h: nat)
    requires 0 < n <= 0x8000_0000 && IsHeight(n, height) && h <= height
    ensures n + Pow2(h) - 1 < 0x1_0000_0000
  {
    if h > 0 {
      assert Width(n, h - 1) > 1;
      WidthIff(n, h - 1, 1);
      assert Lo(h - 1, 1) == Pow2(h - 1);
      PowBelow(h - 1);
    }
  }

  /** A power of two below 2^31 is at most 2^30. */
  lemma PowBelow(h: nat)
    requires Pow2(h) < 0x8000_0000
    ensures 2 * Pow2(h) <= 0x8000_0000
  {
    PowWords();
    assert Pow2(32) == 2 * Pow2(31);
    if h > 30 {
      PowGrows(31, h);
    } else {
      PowGrows(h + 1, 31);
    }
  }

  // ---------------------------------------------------------------- the full tree

  /** CalcHash: a missing right child is replaced by the left one. */
  function CalcHash<D>(H: (D, D) -> D, txids: seq<D>, h: nat, pos: nat): D
    requires pos < Width(|txids|, h)
    decreases h
  {
    if h == 0 then
      Leaf(|txids|, pos);
      txids[pos]
    else
      LeftChild(|txids|, h, pos);
      var left := CalcHash(H, txids, h - 1, 2 * pos);
      var right := if 2 * pos + 1 < Width(|txids|, h - 1) then CalcHash(H, txids, h - 1, 2 * pos + 1) else left;
      H(left, right)
  }

  /** The pairs hashed to compute a node. */
  ghost function TruePairs<D>(H: (D, D) -> D, txids: seq<D>, h: nat, pos: nat): set<(D, D)>
    requires pos < Width(|txids|, h)
    decreases h
  {
    if h == 0 then {} else
      LeftChild(|txids|, h, pos);
      var left := CalcHash(H, txids, h - 1, 2 * pos);
      if 2 * pos + 1 < Width(|txids|, h - 1) then
        {(left, CalcHash(H, txids, h - 1, 2 * pos + 1))}
        + TruePairs(H, txids, h - 1, 2 * pos) + TruePairs(H, txids, h - 1, 2 * pos + 1)
      else
        {(left, left)} + TruePairs(H, txids, h - 1, 2 * pos)
  }

  /** No pair of `ps` collides with a different pair of `qs`. */
  ghost predicate NoCollision<D>(H: (D, D) -> D, ps: set<(D, D)>, qs: set<(D, D)>) {
    forall p, q :: p in ps && q in qs && H(p.0, p.1) == H(q.0, q.1) ==> p == q
  }

  // ---------------------------------------------------------------- selections

  /** The selected positions from `lo` to `hi`, ascending. */
  function Chosen(mask: seq<bool>, lo: nat, hi: nat): (r: seq<nat>)
    requires hi <= |mask|
    ensures forall i :: 0 <= i < |r| ==> lo <= r[i] < hi && mask[r[i]]
    ensures forall i, j :: 0 <= i < j < |r| ==> r[i] < r[j]
    ensures forall p :: lo <= p < hi && mask[p] ==> p in r
    decreases hi
  {
    if hi <= lo then [] else
    Chosen(mask, lo, hi - 1) + (if mask[hi - 1] then [hi - 1] else [])
  }

  lemma {:induction false} ChosenSplit(mask: seq<bool>, lo: nat, mid: nat, hi: nat)
    requires lo <= mid <= hi <= |mask|
    ensures Chosen(mask, lo, hi) == Chosen(mask, lo, mid) + Chosen(mask, mid, hi)
    decreases hi
  {
    if mid < hi {
      ChosenSplit(mask, lo, mid, hi - 1);
    }
  }

  function Below(mask: seq<bool>, h: nat, pos: nat): (r: seq<nat>)
    ensures forall i :: 0 <= i < |r| ==> r[i] < |mask|
  {
    Chosen(mask, Lo(h, pos), Hi(|mask|, h, pos))
  }

  lemma BelowChildren(mask: seq<bool>, h: nat, pos: nat)
    requires h > 0 && pos < Width(|mask|, h)
    ensures Below(mask, h, pos) ==
            Below(mask, h - 1, 2 * pos)
            + (if 2 * pos + 1 < Width(|mask|, h - 1) then Below(mask, h - 1, 2 * pos + 1) else [])
  {
    hide Width, Lo, Hi;
    Children(|mask|, h, pos);
    if 2 * pos + 1 < Width(|mask|, h - 1) {
      ChosenSplit(mask, Lo(h, pos), Lo(h - 1, 2 * pos + 1), Hi(|mask|, h, pos));
    }
  }

  function At<D>(txids: seq<D>, positions: seq<nat>): (r: seq<D>)
    requires forall i :: 0 <= i < |positions| ==> positions[i] < |txids|
    ensures |r| == |positions|
  {
    seq(|positions|, i requires 0 <= i < |positions| => txids[positions[i]])
  }

  // ---------------------------------------------------------------- encoding

  datatype Partial<D> = Partial(bits: seq<bool>, hashes: seq<D>)

  /** TraverseAndBuild. */
  function Build<D>(H: (D, D) -> D, txids: seq<D>, mask: seq<bool>, h: nat, pos: nat): Partial<D>
    requires |mask| == |txids| && pos < Width(|txids|, h)
    decreases h
  {
    hide Width, Below, CalcHash;
    var any := Below(mask, h, pos) != [];
    if h == 0 || !any then
      Partial([any], [CalcHash(H, txids, h, pos)])
    else
      LeftChild(|txids|, h, pos);
      var l := Build(H, txids, mask, h - 1, 2 * pos);
      if 2 * pos + 1 < Width(|txids|, h - 1) then
        var r := Build(H, txids, mask, h - 1, 2 * pos + 1);
        Partial([any] + l.bits + r.bits, l.hashes + r.hashes)
      else
        Partial([any] + l.bits, l.hashes)
  }

  /** A stored hash stands for at least one transaction, and for at least one bit; at most one more
      than `h` of them is stored for each selected transaction below the node. */
  lemma {:induction false} BuildSize<D>(H: (D, D) -> D, txids: seq<D>, mask: seq<bool>, h: nat, pos: nat)
    requires |mask| == |txids| && pos < Width(|txids|, h)
    ensures var t := Build(H, txids, mask, h, pos);
            && 1 <= |t.hashes| <= |t.bits|
            && |t.hashes| <= Hi(|txids|, h, pos) - Lo(h, pos)
            && |t.hashes| <= 1 + |Below(mask, h, pos)| * h
    decreases h
  {
    hide Width, Lo, Hi, Below, CalcHash, Build;
    if h == 0 || Below(mask, h, pos) == [] {
      BuildStop(H, txids, mask, h, pos);
    } else {
      Children(|txids|, h, pos);
      BelowChildren(mask, h, pos);
      BuildNode(H, txids, mask, h, pos);
      BuildSize(H, txids, mask, h - 1, 2 * pos);
      var l := |Below(mask, h - 1, 2 * pos)|;
      if 2 * pos + 1 < Width(|txids|, h - 1) {
        BuildSize(H, txids, mask, h - 1, 2 * pos + 1);
        OnePerLevel(l, |Below(mask, h - 1, 2 * pos + 1)|, h);
      } else {
        OnePerLevel(l, 0, h);
      }
    }
  }

  /** How many nodes with only a left child the encoding descends into. */
  function OneChild(mask: seq<bool>, h: nat, pos: nat): nat
    requires pos < Width(|mask|, h)
    decreases h
  {
    if h == 0 || Below(mask, h, pos) == [] then 0 else
      LeftChild(|mask|, h, pos);
      if 2 * pos + 1 < Width(|mask|, h - 1) then OneChild(mask, h - 1, 2 * pos) + OneChild(mask, h - 1, 2 * pos + 1)
      else 1 + OneChild(mask, h - 1, 2 * pos)
  }

  /** The exact number of flag bits: that of a tree in which every inner node has two children,
      and one more for each that has not. */
  lemma {:induction false} BitCount<D>(H: (D, D) -> D, txids: seq<D>, mask: seq<bool>, h: nat, pos: nat)
    requires |mask| == |txids| && pos < Width(|txids|, h)
    ensures var t := Build(H, txids, mask, h, pos); |t.bits| == 2 * |t.hashes| - 1 + OneChild(mask, h, pos)
    decreases h
  {
    hide Width, Lo, Hi, Below, CalcHash, Build;
    if h == 0 || Below(mask, h, pos) == [] {
      BuildStop(H, txids, mask, h, pos);
    } else {
      Children(|txids|, h, pos);
      BuildNode(H, txids, mask, h, pos);
      BitCount(H, txids, mask, h - 1, 2 * pos);
      if 2 * pos + 1 < Width(|txids|, h - 1) {
        BitCount(H, txids, mask, h - 1, 2 * pos + 1);
      }
    }
  }

  /** Such nodes lie on the right edge only, so there is at most one for each level. */
  lemma {:induction false} OneChildBound(mask: seq<bool>, h: nat, pos: nat)
    requires pos < Width(|mask|, h)
    ensures OneChild(mask, h, pos) <= h && (Lo(h, pos + 1) <= |mask| ==> OneChild(mask, h, pos) == 0)
    decreases h
  {
    hide Width, Hi, Below, Lo;
    if h > 0 {
      Children(|mask|, h, pos);
      LoChildren(h, pos);
      WidthIff(|mask|, h - 1, 2 * pos + 1);
      OneChildBound(mask, h - 1, 2 * pos);
      if 2 * pos + 1 < Width(|mask|, h - 1) {
        OneChildBound(mask, h - 1, 2 * pos + 1);
      }
    }
  }

  lemma LoChildren(h: nat, pos: nat)
    requires h > 0
    ensures Lo(h, pos) == Lo(h - 1, 2 * pos) < Lo(h - 1, 2 * pos + 1) < Lo(h - 1, 2 * pos + 2) == Lo(h, pos + 1)
  {
    var p := Pow2(h - 1);
    assert Pow2(h) == 2 * p;
    assert pos * (2 * p) == 2 * pos * p && (pos + 1) * (2 * p) == 2 * pos * p + 2 * p;
    assert (2 * pos + 1) * p == 2 * pos * p + p && (2 * pos + 2) * p == 2 * pos * p + 2 * p;
  }

  /** A node above the last transaction only, if that one is selected: one at every level. */
  lemma {:induction false} LastAlone(mask: seq<bool>, h: nat, pos: nat)
    requires pos < Width(|mask|, h) && Lo(h, pos) + 1 == |mask| && mask[|mask| - 1]
    ensures OneChild(mask, h, pos) == h
    decreases h
  {
    hide Width, Hi, Below, Lo;
    SelectedBelow(mask, h, pos, |mask| - 1);
    if h > 0 {
      Children(|mask|, h, pos);
      LoChildren(h, pos);
      WidthIff(|mask|, h - 1, 2 * pos + 1);
      LastAlone(mask, h - 1, 2 * pos);
    }
  }

  lemma SelectedBelow(mask: seq<bool>, h: nat, pos: nat, p: nat)
    requires p < |mask| && mask[p] && Lo(h, pos) == p
    ensures Below(mask, h, pos) != []
  {
    var q := Pow2(h);
    assert (pos + 1) * q == pos * q + q;
    assert p in Chosen(mask, Lo(h, pos), Hi(|mask|, h, pos));
  }

  /** With everything selected, every transaction's hash is stored. */
  lemma {:induction false} AllStored<D>(H: (D, D) -> D, txids: seq<D>, mask: seq<bool>, h: nat, pos: nat)
    requires |mask| == |txids| && pos < Width(|txids|, h) && forall p :: 0 <= p < |mask| ==> mask[p]
    ensures |Build(H, txids, mask, h, pos).hashes| == Hi(|txids|, h, pos) - Lo(h, pos)
    decreases h
  {
    hide Width, Lo, Hi, Below, CalcHash, Build;
    if h == 0 {
      Leaf(|txids|, pos);
      BuildStop(H, txids, mask, h, pos);
    } else {
      Children(|txids|, h, pos);
      SelectedBelow(mask, h, pos, Lo(h, pos));
      BuildNode(H, txids, mask, h, pos);
      AllStored(H, txids, mask, h - 1, 2 * pos);
      if 2 * pos + 1 < Width(|txids|, h - 1) {
        AllStored(H, txids, mask, h - 1, 2 * pos + 1);
      }
    }
  }

  lemma OnePerLevel(l: nat, r: nat, h: nat)
    requires h > 0 && l + r > 0
    ensures 2 + l * (h - 1) + r * (h - 1) <= 1 + (l + r) * h
  {
  }

  lemma BuildStop<D>(H: (D, D) -> D, txids: seq<D>, mask: seq<bool>, h: nat, pos: nat)
    requires |mask| == |txids| && pos < Width(|txids|, h) && (h == 0 || Below(mask, h, pos) == [])
    ensures Build(H, txids, mask, h, pos) == Partial([Below(mask, h, pos) != []], [CalcHash(H, txids, h, pos)])
    ensures Lo(h, pos) < Hi(|txids|, h, pos)
  {
    hide CalcHash, Below, Build;
    BuildStops(H, txids, mask, h, pos);
    if h == 0 {
      Leaf(|txids|, pos);
    } else {
      Children(|txids|, h, pos);
    }
  }

  lemma BuildStops<D>(H: (D, D) -> D, txids: seq<D>, mask: seq<bool>, h: nat, pos: nat)
    requires |mask| == |txids| && pos < Width(|txids|, h) && (h == 0 || Below(mask, h, pos) == [])
    ensures Build(H, txids, mask, h, pos) == Partial([Below(mask, h, pos) != []], [CalcHash(H, txids, h, pos)])
  {
    hide CalcHash, Below, Width;
  }

  lemma Appended<T>(a: seq<T>, b: seq<T>, c: seq<T>)
    ensures (a + b) + c == a + (b + c)
  {
  }

  lemma BuildUnfolds<D>(H: (D, D) -> D, txids: seq<D>, mask: seq<bool>, h: nat, pos: nat)
    requires |mask| == |txids| && pos < Width(|txids|, h) && h > 0 && 2 * pos < Width(|txids|, h - 1)
    requires Below(mask, h, pos) != []
    ensures var l := Build(H, txids, mask, h - 1, 2 * pos);
            Build(H, txids, mask, h, pos) ==
            if 2 * pos + 1 < Width(|txids|, h - 1) then
              var r := Build(H, txids, mask, h - 1, 2 * pos + 1);
              Partial([true] + l.bits + r.bits, l.hashes + r.hashes)
            else
              Partial([true] + l.bits, l.hashes)
  {
    hide CalcHash, Below, Width;
  }

  lemma BuildNode<D>(H: (D, D) -> D, txids: seq<D>, mask: seq<bool>, h: nat, pos: nat)
    requires |mask| == |txids| && pos < Width(|txids|, h) && h > 0 && 2 * pos < Width(|txids|, h - 1)
    requires Below(mask, h, pos) != []
    ensures var l := Build(H, txids, mask, h - 1, 2 * pos);
            Build(H, txids, mask, h, pos) ==
            if 2 * pos + 1 < Width(|txids|, h - 1) then
              var r := Build(H, txids, mask, h - 1, 2 * pos + 1);
              Partial([true] + (l.bits + r.bits), l.hashes + r.hashes)
            else
              Partial([true] + l.bits, l.hashes)
  {
    hide Build, CalcHash, Below, Width;
    BuildUnfolds(H, txids, mask, h, pos);
    var l := Build(H, txids, mask, h - 1, 2 * pos);
    if 2 * pos + 1 < Width(|txids|, h - 1) {
      var r := Build(H, txids, mask, h - 1, 2 * pos + 1);
      Appended([true], l.bits, r.bits);
    }
  }

  // ---------------------------------------------------------------- decoding

  /** What a walk returns and accumulates; `pairs` are the pairs it hashed. */
  datatype Walked<D(==)> = Walked(
    hash: D, nBits: nat, nHashes: nat, matches: seq<D>, indexes: seq<nat>, bad: bool, pairs: set<(D, D)>)

  /** TraverseAndExtract on bits from `b` and hashes from `k` on. */
  ghost function Walk<D>(H: (D, D) -> D, zero: D, n: nat, bits: seq<bool>, hashes: seq<D>, h: nat, pos: nat, b: nat,
                         k: nat): Walked<D>
    decreases h
  {
    if b >= |bits| then
      Walked(zero, b, k, [], [], true, {})
    else if h == 0 || !bits[b] then
      if k >= |hashes| then Walked(zero, b + 1, k, [], [], true, {}) else
      if h == 0 && bits[b] then Walked(hashes[k], b + 1, k + 1, [hashes[k]], [pos], false, {}) else
      Walked(hashes[k], b + 1, k + 1, [], [], false, {})
    else
      var l := Walk(H, zero, n, bits, hashes, h - 1, 2 * pos, b + 1, k);
      if 2 * pos + 1 < Width(n, h - 1) then
        var r := Walk(H, zero, n, bits, hashes, h - 1, 2 * pos + 1, l.nBits, l.nHashes);
        Walked(H(l.hash, r.hash), r.nBits, r.nHashes, l.matches + r.matches, l.indexes + r.indexes,
               l.bad || r.bad || r.hash == l.hash, l.pairs + r.pairs + {(l.hash, r.hash)})
      else
        l.(hash := H(l.hash, l.hash), pairs := l.pairs + {(l.hash, l.hash)})
  }

  /** How the walk of an inner node is made of those of its children. */
  lemma WalkInner<D>(H: (D, D) -> D, zero: D, n: nat, bits: seq<bool>, hashes: seq<D>, h: nat, pos: nat, b: nat, k: nat)
    requires b < |bits| && h > 0 && bits[b]
    ensures var w := Walk(H, zero, n, bits, hashes, h, pos, b, k);
            var l := Walk(H, zero, n, bits, hashes, h - 1, 2 * pos, b + 1, k);
            var r := Walk(H, zero, n, bits, hashes, h - 1, 2 * pos + 1, l.nBits, l.nHashes);
            if 2 * pos + 1 < Width(n, h - 1) then
              && w.hash == H(l.hash, r.hash) && w.nBits == r.nBits && w.nHashes == r.nHashes
              && w.matches == l.matches + r.matches && w.indexes == l.indexes + r.indexes
              && (w.bad <==> l.bad || r.bad || r.hash == l.hash)
            else
              && w.hash == H(l.hash, l.hash) && w.nBits == l.nBits && w.nHashes == l.nHashes
              && w.matches == l.matches && w.indexes == l.indexes && w.bad == l.bad
  {
    hide Width;
  }

  /** The walk of a node that is not descended into. */
  lemma WalkStops<D>(H: (D, D) -> D, zero: D, n: nat, bits: seq<bool>, hashes: seq<D>, h: nat, pos: nat, b: nat, k: nat)
    requires b >= |bits| || h == 0 || !bits[b]
    ensures var w := Walk(H, zero, n, bits, hashes, h, pos, b, k);
            var stored := b < |bits| && k < |hashes|;
            && w.hash == (if stored then hashes[k] else zero) && (w.bad <==> !stored)
            && w.nBits == (if b < |bits| then b + 1 else b) && w.nHashes == (if stored then k + 1 else k)
            && w.matches == (if stored && h == 0 && bits[b] then [hashes[k]] else [])
            && w.indexes == (if stored && h == 0 && bits[b] then [pos] else [])
  {
  }

  /** The positions a walk reports are ascending, below the node it walks. */
  lemma {:induction false} WalkIndexes<D>(H: (D, D) -> D, zero: D, n: nat, bits: seq<bool>, hashes: seq<D>, h: nat,
                                          pos: nat, b: nat, k: nat)
    requires pos < Width(n, h)
    ensures var w := Walk(H, zero, n, bits, hashes, h, pos, b, k);
            && |w.indexes| == |w.matches|
            && (forall i :: 0 <= i < |w.indexes| ==> Lo(h, pos) <= w.indexes[i] < Hi(n, h, pos))
            && (forall i, j :: 0 <= i < j < |w.indexes| ==> w.indexes[i] < w.indexes[j])
    decreases h
  {
    hide Width, Lo, Hi, Walk;
    if b >= |bits| || h == 0 || !bits[b] {
      WalkStops(H, zero, n, bits, hashes, h, pos, b, k);
      if h == 0 {
        Leaf(n, pos);
      }
    } else {
      Children(n, h, pos);
      WalkInner(H, zero, n, bits, hashes, h, pos, b, k);
      WalkIndexes(H, zero, n, bits, hashes, h - 1, 2 * pos, b + 1, k);
      if 2 * pos + 1 < Width(n, h - 1) {
        var l := Walk(H, zero, n, bits, hashes, h - 1, 2 * pos, b + 1, k);
        WalkIndexes(H, zero, n, bits, hashes, h - 1, 2 * pos + 1, l.nBits, l.nHashes);
      }
    }
  }

  /** Every reported pair is a transaction of the list and its position. */
  ghost predicate Genuine<D>(txids: seq<D>, matches: seq<D>, indexes: seq<nat>) {
    |matches| == |indexes| && forall i :: 0 <= i < |indexes| ==> indexes[i] < |txids| && matches[i] == txids[indexes[i]]
  }

  /** Whatever bits and hashes are walked: a walk that ends in the true hash of its node reports
      only genuine transactions, unless it hashed a pair colliding with one of the true tree. */
  lemma {:induction false} WalkSound<D>(H: (D, D) -> D, zero: D, txids: seq<D>, bits: seq<bool>, hashes: seq<D>,
                                        h: nat, pos: nat, b: nat, k: nat)
    requires pos < Width(|txids|, h)
    requires var w := Walk(H, zero, |txids|, bits, hashes, h, pos, b, k);
             && !w.bad && w.hash == CalcHash(H, txids, h, pos)
             && NoCollision(H, w.pairs, TruePairs(H, txids, h, pos))
    ensures var w := Walk(H, zero, |txids|, bits, hashes, h, pos, b, k); Genuine(txids, w.matches, w.indexes)
    decreases h
  {
    hide Width, NoCollision, Lo, Hi, Genuine;
    var n := |txids|;
    var w := Walk(H, zero, n, bits, hashes, h, pos, b, k);
    if h == 0 {
      WalkLeafSound(H, zero, txids, bits, hashes, pos, b, k);
    } else if bits[b] {
      Children(n, h, pos);
      var l := Walk(H, zero, n, bits, hashes, h - 1, 2 * pos, b + 1, k);
      var left := CalcHash(H, txids, h - 1, 2 * pos);
      if 2 * pos + 1 < Width(n, h - 1) {
        var r := Walk(H, zero, n, bits, hashes, h - 1, 2 * pos + 1, l.nBits, l.nHashes);
        var right := CalcHash(H, txids, h - 1, 2 * pos + 1);
        SamePair(H, w.pairs, TruePairs(H, txids, h, pos), (l.hash, r.hash), (left, right));
        NoCollisionWithin(H, w.pairs, l.pairs, TruePairs(H, txids, h, pos), TruePairs(H, txids, h - 1, 2 * pos));
        NoCollisionWithin(H, w.pairs, r.pairs, TruePairs(H, txids, h, pos), TruePairs(H, txids, h - 1, 2 * pos + 1));
        WalkSound(H, zero, txids, bits, hashes, h - 1, 2 * pos, b + 1, k);
        WalkSound(H, zero, txids, bits, hashes, h - 1, 2 * pos + 1, l.nBits, l.nHashes);
        GenuineBoth(txids, l.matches, l.indexes, r.matches, r.indexes);
      } else {
        SamePair(H, w.pairs, TruePairs(H, txids, h, pos), (l.hash, l.hash), (left, left));
        NoCollisionWithin(H, w.pairs, l.pairs, TruePairs(H, txids, h, pos), TruePairs(H, txids, h - 1, 2 * pos));
        WalkSound(H, zero, txids, bits, hashes, h - 1, 2 * pos, b + 1, k);
      }
    } else {
      GenuineNone(txids);
    }
  }

  lemma WalkLeafSound<D>(H: (D, D) -> D, zero: D, txids: seq<D>, bits: seq<bool>, hashes: seq<D>, pos: nat, b: nat,
                         k: nat)
    requires pos < Width(|txids|, 0)
    requires Walk(H, zero, |txids|, bits, hashes, 0, pos, b, k).hash == CalcHash(H, txids, 0, pos)
    ensures var w := Walk(H, zero, |txids|, bits, hashes, 0, pos, b, k); !w.bad ==> Genuine(txids, w.matches, w.indexes)
  {
    Leaf(|txids|, pos);
  }

  lemma GenuineNone<D>(txids: seq<D>)
    ensures Genuine(txids, [], [])
  {
  }

  lemma GenuineBoth<D>(txids: seq<D>, ms: seq<D>, xs: seq<nat>, ms': seq<D>, xs': seq<nat>)
    requires Genuine(txids, ms, xs) && Genuine(txids, ms', xs')
    ensures Genuine(txids, ms + ms', xs + xs')
  {
  }

  lemma SamePair<D>(H: (D, D) -> D, ps: set<(D, D)>, qs: set<(D, D)>, p: (D, D), q: (D, D))
    requires NoCollision(H, ps, qs) && p in ps && q in qs && H(p.0, p.1) == H(q.0, q.1)
    ensures p == q
  {
  }

  lemma NoCollisionWithin<D>(H: (D, D) -> D, ps: set<(D, D)>, ps': set<(D, D)>, qs: set<(D, D)>, qs': set<(D, D)>)
    requires NoCollision(H, ps, qs) && ps' <= ps && qs' <= qs
    ensures NoCollision(H, ps', qs')
  {
  }

  // ---------------------------------------------------------------- decoding what was encoded

  /** No node that the encoding descends into has two children with the same hash. */
  ghost predicate NoTwins<D>(H: (D, D) -> D, txids: seq<D>, mask: seq<bool>, h: nat, pos: nat)
    requires |mask| == |txids| && pos < Width(|txids|, h)
    decreases h
  {
    hide Width, Below, CalcHash;
    h == 0 || Below(mask, h, pos) == [] || (
      LeftChild(|txids|, h, pos);
      && NoTwins(H, txids, mask, h - 1, 2 * pos)
      && (2 * pos + 1 < Width(|txids|, h - 1) ==>
            && NoTwins(H, txids, mask, h - 1, 2 * pos + 1)
            && CalcHash(H, txids, h - 1, 2 * pos) != CalcHash(H, txids, h - 1, 2 * pos + 1)))
  }

  ghost predicate SliceAt<T>(s: seq<T>, at: nat, part: seq<T>) {
    at + |part| <= |s| && s[at..at + |part|] == part
  }

  lemma SliceOf<T>(s: seq<T>, at: nat, a: seq<T>, b: seq<T>)
    requires SliceAt(s, at, a + b)
    ensures SliceAt(s, at, a) && SliceAt(s, at + |a|, b)
  {
    assert s[at..at + |a|] == s[at..at + |a + b|][..|a|];
    assert s[at + |a|..at + |a + b|] == s[at..at + |a + b|][|a|..];
  }

  /** What a walk over an encoded node comes to. */
  ghost predicate Decodes<D>(H: (D, D) -> D, txids: seq<D>, mask: seq<bool>, h: nat, pos: nat, b: nat, k: nat,
                             w: Walked<D>)
    requires |mask| == |txids| && pos < Width(|txids|, h)
  {
    var t := Build(H, txids, mask, h, pos);
    && w.hash == CalcHash(H, txids, h, pos)
    && w.nBits == b + |t.bits| && w.nHashes == k + |t.hashes|
    && w.indexes == Below(mask, h, pos) && w.matches == At(txids, Below(mask, h, pos))
    && (w.bad <==> !NoTwins(H, txids, mask, h, pos))
  }

  /** Walking an encoding, wherever it lies among other bits and hashes, gives back the node's true
      hash and exactly the selected transactions in order; it is refused exactly when a node the
      encoding descends into has twin children. */
  lemma {:induction false} WalkComplete<D>(H: (D, D) -> D, zero: D, txids: seq<D>, mask: seq<bool>, bits: seq<bool>,
                                           hashes: seq<D>, h: nat, pos: nat, b: nat, k: nat)
    requires |mask| == |txids| && pos < Width(|txids|, h)
    requires var t := Build(H, txids, mask, h, pos); SliceAt(bits, b, t.bits) && SliceAt(hashes, k, t.hashes)
    ensures Decodes(H, txids, mask, h, pos, b, k, Walk(H, zero, |txids|, bits, hashes, h, pos, b, k))
    decreases h
  {
    hide Width, Lo, Hi, Chosen;
    var n, t := |txids|, Build(H, txids, mask, h, pos);
    if h == 0 {
      WalkLeafComplete(H, zero, txids, mask, bits, hashes, pos, b, k);
    } else if Below(mask, h, pos) == [] {
      FirstOf(bits, b, t.bits);
      FirstOf(hashes, k, t.hashes);
    } else {
      Children(n, h, pos);
      WalkNodeComplete(H, zero, txids, mask, bits, hashes, h, pos, b, k);
    }
  }

  lemma FirstOf<T>(s: seq<T>, at: nat, part: seq<T>)
    requires SliceAt(s, at, part) && part != []
    ensures at < |s| && s[at] == part[0]
  {
    assert s[at..at + |part|][0] == part[0];
  }

  lemma WalkLeafComplete<D>(H: (D, D) -> D, zero: D, txids: seq<D>, mask: seq<bool>, bits: seq<bool>, hashes: seq<D>,
                            pos: nat, b: nat, k: nat)
    requires |mask| == |txids| && pos < Width(|txids|, 0)
    requires var t := Build(H, txids, mask, 0, pos); SliceAt(bits, b, t.bits) && SliceAt(hashes, k, t.hashes)
    ensures Decodes(H, txids, mask, 0, pos, b, k, Walk(H, zero, |txids|, bits, hashes, 0, pos, b, k))
  {
    var t := Build(H, txids, mask, 0, pos);
    FirstOf(bits, b, t.bits);
    FirstOf(hashes, k, t.hashes);
    Leaf(|txids|, pos);
    assert Chosen(mask, pos, pos) == [];
    assert Below(mask, 0, pos) == if mask[pos] then [pos] else [];
  }

  lemma {:induction false} WalkNodeComplete<D>(H: (D, D) -> D, zero: D, txids: seq<D>, mask: seq<bool>,
                                               bits: seq<bool>, hashes: seq<D>, h: nat, pos: nat, b: nat, k: nat)
    requires |mask| == |txids| && pos < Width(|txids|, h) && h > 0 && 2 * pos < Width(|txids|, h - 1)
    requires var t := Build(H, txids, mask, h, pos); SliceAt(bits, b, t.bits) && SliceAt(hashes, k, t.hashes)
    requires Below(mask, h, pos) != []
    ensures Decodes(H, txids, mask, h, pos, b, k, Walk(H, zero, |txids|, bits, hashes, h, pos, b, k))
    decreases h, 0
  {
    hide Width, Lo, Hi, Chosen, Below, SliceAt, CalcHash, Build, Walk, NoTwins, At;
    var n := |txids|;
    NodeSlices(H, txids, mask, bits, hashes, h, pos, b, k);
    BelowChildren(mask, h, pos);
    WalkComplete(H, zero, txids, mask, bits, hashes, h - 1, 2 * pos, b + 1, k);
    var l := Walk(H, zero, n, bits, hashes, h - 1, 2 * pos, b + 1, k);
    if 2 * pos + 1 < Width(n, h - 1) {
      WalkComplete(H, zero, txids, mask, bits, hashes, h - 1, 2 * pos + 1, l.nBits, l.nHashes);
      var r := Walk(H, zero, n, bits, hashes, h - 1, 2 * pos + 1, l.nBits, l.nHashes);
      AtBoth(txids, l.indexes, r.indexes);
      DecodesBoth(H, zero, txids, mask, bits, hashes, h, pos, b, k, l, r);
    } else {
      DecodesOne(H, zero, txids, mask, bits, hashes, h, pos, b, k, l);
    }
  }

  /** Where the children's encodings lie in the node's. */
  lemma NodeSlices<D>(H: (D, D) -> D, txids: seq<D>, mask: seq<bool>, bits: seq<bool>, hashes: seq<D>, h: nat,
                      pos: nat, b: nat, k: nat)
    requires |mask| == |txids| && pos < Width(|txids|, h) && h > 0 && 2 * pos < Width(|txids|, h - 1)
    requires var t := Build(H, txids, mask, h, pos); SliceAt(bits, b, t.bits) && SliceAt(hashes, k, t.hashes)
    requires Below(mask, h, pos) != []
    ensures b < |bits| && bits[b]
    ensures var l := Build(H, txids, mask, h - 1, 2 * pos);
            && SliceAt(bits, b + 1, l.bits) && SliceAt(hashes, k, l.hashes)
            && (2 * pos + 1 < Width(|txids|, h - 1) ==>
                  var r := Build(H, txids, mask, h - 1, 2 * pos + 1);
                  SliceAt(bits, b + 1 + |l.bits|, r.bits) && SliceAt(hashes, k + |l.hashes|, r.hashes))
  {
    hide Width, Lo, Hi, Chosen, Below, SliceAt, CalcHash, Build;
    BuildNode(H, txids, mask, h, pos);
    var t := Build(H, txids, mask, h, pos);
    var l := Build(H, txids, mask, h - 1, 2 * pos);
    FirstOf(bits, b, t.bits);
    if 2 * pos + 1 < Width(|txids|, h - 1) {
      var r := Build(H, txids, mask, h - 1, 2 * pos + 1);
      SliceOf(bits, b, [true], l.bits + r.bits);
      SliceOf(bits, b + 1, l.bits, r.bits);
      SliceOf(hashes, k, l.hashes, r.hashes);
    } else {
      SliceOf(bits, b, [true], l.bits);
    }
  }

  lemma AtBoth<D>(txids: seq<D>, xs: seq<nat>, ys: seq<nat>)
    requires forall i :: 0 <= i < |xs| ==> xs[i] < |txids|
    requires forall i :: 0 <= i < |ys| ==> ys[i] < |txids|
    ensures At(txids, xs + ys) == At(txids, xs) + At(txids, ys)
  {
  }

  lemma DecodesBoth<D>(H: (D, D) -> D, zero: D, txids: seq<D>, mask: seq<bool>, bits: seq<bool>, hashes: seq<D>,
                       h: nat, pos: nat, b: nat, k: nat, l: Walked<D>, r: Walked<D>)
    requires |mask| == |txids| && pos < Width(|txids|, h) && h > 0 && 2 * pos + 1 < Width(|txids|, h - 1)
    requires b < |bits| && bits[b] && Below(mask, h, pos) != []
    requires l == Walk(H, zero, |txids|, bits, hashes, h - 1, 2 * pos, b + 1, k)
    requires r == Walk(H, zero, |txids|, bits, hashes, h - 1, 2 * pos + 1, l.nBits, l.nHashes)
    requires Decodes(H, txids, mask, h - 1, 2 * pos, b + 1, k, l)
    requires Decodes(H, txids, mask, h - 1, 2 * pos + 1, l.nBits, l.nHashes, r)
    requires Below(mask, h, pos) == l.indexes + r.indexes
    requires forall i :: 0 <= i < |l.indexes + r.indexes| ==> (l.indexes + r.indexes)[i] < |txids|
    requires At(txids, l.indexes + r.indexes) == l.matches + r.matches
    ensures Decodes(H, txids, mask, h, pos, b, k, Walk(H, zero, |txids|, bits, hashes, h, pos, b, k))
  {
    hide Width, Lo, Hi, Chosen, Below, At;
    var w := Walk(H, zero, |txids|, bits, hashes, h, pos, b, k);
    assert w.hash == CalcHash(H, txids, h, pos);
    assert w.nBits == b + |Build(H, txids, mask, h, pos).bits|;
  }

  lemma DecodesOne<D>(H: (D, D) -> D, zero: D, txids: seq<D>, mask: seq<bool>, bits: seq<bool>, hashes: seq<D>,
                      h: nat, pos: nat, b: nat, k: nat, l: Walked<D>)
    requires |mask| == |txids| && pos < Width(|txids|, h) && h > 0 && 2 * pos < Width(|txids|, h - 1) <= 2 * pos + 1
    requires b < |bits| && bits[b] && Below(mask, h, pos) != []
    requires l == Walk(H, zero, |txids|, bits, hashes, h - 1, 2 * pos, b + 1, k)
    requires Decodes(H, txids, mask, h - 1, 2 * pos, b + 1, k, l)
    requires Below(mask, h, pos) == l.indexes
    ensures Decodes(H, txids, mask, h, pos, b, k, Walk(H, zero, |txids|, bits, hashes, h, pos, b, k))
  {
    hide Width, Lo, Hi, Chosen, Below, At;
  }

  /** Distinct transactions and no collision inside the true tree rule twins out. */
  lemma {:induction false} NodesDiffer<D>(H: (D, D) -> D, txids: seq<D>, h: nat, pos: nat, other: nat,
                                          pairs: set<(D, D)>)
    requires pos < other < Width(|txids|, h)
    requires forall i, j :: 0 <= i < j < |txids| ==> txids[i] != txids[j]
    requires TruePairs(H, txids, h, pos) <= pairs && TruePairs(H, txids, h, other) <= pairs
    requires NoCollision(H, pairs, pairs)
    ensures CalcHash(H, txids, h, pos) != CalcHash(H, txids, h, other)
    decreases h
  {
    hide Width, NoCollision;
    var n := |txids|;
    if h == 0 {
      Leaf(n, pos);
      Leaf(n, other);
    } else {
      Children(n, h, pos);
      Children(n, h, other);
      NodesDiffer(H, txids, h - 1, 2 * pos, 2 * other, pairs);
      var p :| p in TruePairs(H, txids, h, pos) && p.0 == CalcHash(H, txids, h - 1, 2 * pos) &&
          H(p.0, p.1) == CalcHash(H, txids, h, pos);
      var q :| q in TruePairs(H, txids, h, other) && q.0 == CalcHash(H, txids, h - 1, 2 * other) &&
          H(q.0, q.1) == CalcHash(H, txids, h, other);
      if H(p.0, p.1) == H(q.0, q.1) {
        SamePair(H, pairs, pairs, p, q);
      }
    }
  }

  lemma {:induction false} DistinctMeansNoTwins<D>(H: (D, D) -> D, txids: seq<D>, mask: seq<bool>, h: nat, pos: nat,
                                                   pairs: set<(D, D)>)
    requires |mask| == |txids| && pos < Width(|txids|, h)
    requires forall i, j :: 0 <= i < j < |txids| ==> txids[i] != txids[j]
    requires TruePairs(H, txids, h, pos) <= pairs && NoCollision(H, pairs, pairs)
    ensures NoTwins(H, txids, mask, h, pos)
    decreases h
  {
    hide Width, NoCollision, CalcHash, Below;
    if h > 0 {
      Children(|txids|, h, pos);
      DistinctMeansNoTwins(H, txids, mask, h - 1, 2 * pos, pairs);
      if 2 * pos + 1 < Width(|txids|, h - 1) {
        DistinctMeansNoTwins(H, txids, mask, h - 1, 2 * pos + 1, pairs);
        NodesDiffer(H, txids, h - 1, 2 * pos, 2 * pos + 1, pairs);
      }
    }
  }
}
