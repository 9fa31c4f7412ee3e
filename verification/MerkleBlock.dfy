/** CPartialMerkleTree: building, packing, unpacking and extracting a partial Merkle tree. */
module MerkleBlock {
  import opened Arithmetic
  import opened Bits
  import opened MerkleSpec

  const WITNESS_SCALE_FACTOR := 4
  const MIN_TRANSACTION_WEIGHT := WITNESS_SCALE_FACTOR * 60

  // ---------------------------------------------------------------- bits in bytes

  /** The bits of the bytes, least significant first. */
  function Unpacked(bytes: seq<bv8>): (r: seq<bool>)
    ensures |r| == 8 * |bytes|
  {
    seq(8 * |bytes|, p requires 0 <= p < 8 * |bytes| => Bit(bytes[p / 8], p % 8))
  }

  /** The bits followed by the zeroes that fill the last byte. */
  function Padded(bits: seq<bool>): (r: seq<bool>)
    ensures |r| == 8 * ((|bits| + 7) / 8) && |bits| <= |r|
  {
    bits + seq(8 * ((|bits| + 7) / 8) - |bits|, _ => false)
  }

  /** Writing the flag bits. */
  method PackBits(bits: seq<bool>) returns (bytes: seq<bv8>)
    ensures Unpacked(bytes) == Padded(bits)
  {
    hide PackedTo, Unpacked, Padded;
    var size := (|bits| + 7) / 8;
    bytes := seq(size, _ => 0);
    NothingPacked(bytes, bits);
    for p := 0 to |bits|
      invariant |bytes| == size && PackedTo(bytes, bits, p)
    {
      PackOne(bytes, bits, p);
      var bit: bv8 := if bits[p] then 1 else 0;
      bytes := bytes[p / 8 := bytes[p / 8] | (bit << (p % 8))];
    }
    AllPacked(bytes, bits);
  }

  /** The first `p` bits are in their places, and all other bits of the bytes are zero. */
  ghost predicate PackedTo(bytes: seq<bv8>, bits: seq<bool>, p: nat) {
    p <= |bits| &&
    forall j, k :: 0 <= j < |bytes| && 0 <= k < 8 ==> Bit(bytes[j], k) == (8 * j + k < p && bits[8 * j + k])
  }

  lemma NothingPacked(bytes: seq<bv8>, bits: seq<bool>)
    requires forall j :: 0 <= j < |bytes| ==> bytes[j] == 0
    ensures PackedTo(bytes, bits, 0)
  {
  }

  lemma PackOne(bytes: seq<bv8>, bits: seq<bool>, p: nat)
    requires PackedTo(bytes, bits, p) && p < |bits| && |bytes| == (|bits| + 7) / 8
    ensures var bit: bv8 := if bits[p] then 1 else 0;
            PackedTo(bytes[p / 8 := bytes[p / 8] | (bit << (p % 8))], bits, p + 1)
  {
    var bit: bv8 := if bits[p] then 1 else 0;
    var x := bytes[p / 8] | (bit << (p % 8));
    forall k | 0 <= k < 8
      ensures Bit(x, k) == (Bit(bytes[p / 8], k) || (bits[p] && p % 8 == k))
    {
      SetBit(bytes[p / 8], bits[p], p % 8, k);
    }
    OnePacked(bytes, bits, p, p / 8, p % 8, x);
  }

  lemma OnePacked(bytes: seq<bv8>, bits: seq<bool>, p: nat, j: nat, r: nat, x: bv8)
    requires PackedTo(bytes, bits, p) && p < |bits| && j < |bytes| && r < 8 && p == 8 * j + r
    requires forall k :: 0 <= k < 8 ==> Bit(x, k) == (Bit(bytes[j], k) || (bits[p] && r == k))
    ensures PackedTo(bytes[j := x], bits, p + 1)
  {
    hide Bit;
  }

  lemma AllPacked(bytes: seq<bv8>, bits: seq<bool>)
    requires PackedTo(bytes, bits, |bits|) && |bytes| == (|bits| + 7) / 8
    ensures Unpacked(bytes) == Padded(bits)
  {
    hide Bit;
    forall p | 0 <= p < 8 * |bytes|
      ensures Unpacked(bytes)[p] == Padded(bits)[p]
    {
      assert 8 * (p / 8) + p % 8 == p;
    }
  }

  /** Reading the flag bits. */
  method UnpackBits(bytes: seq<bv8>) returns (bits: seq<bool>)
    ensures bits == Unpacked(bytes)
  {
    bits := seq(8 * |bytes|, _ => false);
    for p := 0 to |bits|
      invariant |bits| == 8 * |bytes|
      invariant forall q :: 0 <= q < p ==> bits[q] == Bit(bytes[q / 8], q % 8)
    {
      bits := bits[p := bytes[p / 8] & (1 << (p % 8)) != 0];
    }
  }

  // ---------------------------------------------------------------- extraction on values

  function HeightFrom(n: nat, h: nat): (r: nat)
    requires forall k: nat :: k < h ==> Width(n, k) > 1
    ensures IsHeight(n, r)
    decreases Width(n, h)
  {
    if Width(n, h) > 1 then
      WidthShrinks(n, h);
      HeightFrom(n, h + 1)
    else h
  }

  /** The height of the root. */
  function HeightOf(n: nat): (r: nat)
    ensures IsHeight(n, r)
  {
    HeightFrom(n, 0)
  }

  ghost function TrueRoot<D>(H: (D, D) -> D, txids: seq<D>): D
    requires txids != []
  {
    Root(|txids|, HeightOf(|txids|));
    CalcHash(H, txids, HeightOf(|txids|), 0)
  }

  ghost function RootPairs<D>(H: (D, D) -> D, txids: seq<D>): set<(D, D)>
    requires txids != []
  {
    Root(|txids|, HeightOf(|txids|));
    TruePairs(H, txids, HeightOf(|txids|), 0)
  }

  ghost function Encoded<D>(H: (D, D) -> D, txids: seq<D>, mask: seq<bool>): Partial<D>
    requires |mask| == |txids| > 0
  {
    Root(|txids|, HeightOf(|txids|));
    Build(H, txids, mask, HeightOf(|txids|), 0)
  }

  /** The size limits that are checked before anything is walked. */
  predicate Plausible<D>(n: nat, bits: seq<bool>, hashes: seq<D>, maxBlockSize: nat) {
    && n != 0
    && n <= maxBlockSize * WITNESS_SCALE_FACTOR / MIN_TRANSACTION_WEIGHT
    && |hashes| <= n
    && |hashes| <= |bits|
  }

  ghost function RootWalk<D>(H: (D, D) -> D, zero: D, n: nat, bits: seq<bool>, hashes: seq<D>): Walked<D> {
    Walk(H, zero, n, bits, hashes, HeightOf(n), 0, 0, 0)
  }

  /** Everything but padding was used, and nothing was wrong. */
  ghost predicate Accepted<D>(w: Walked<D>, bits: seq<bool>, hashes: seq<D>, bad: bool) {
    !bad && !w.bad && (w.nBits + 7) / 8 == (|bits| + 7) / 8 && w.nHashes == |hashes|
  }

  /** What ExtractMatches returns. */
  ghost function ExtractedRoot<D>(H: (D, D) -> D, zero: D, n: nat, bits: seq<bool>, hashes: seq<D>, bad: bool,
                                  maxBlockSize: nat): D {
    var w := RootWalk(H, zero, n, bits, hashes);
    if Plausible(n, bits, hashes, maxBlockSize) && Accepted(w, bits, hashes, bad) then w.hash else zero
  }

  /** Soundness. Take any transaction count, bits and hashes whatsoever. If ExtractMatches returns the
      root of a list of that many transactions, each pair it reports is a transaction of the
      list with its position, no position twice, unless a pair it hashed collides with one
      hashed for the root. */
  lemma ExtractSound<D>(H: (D, D) -> D, zero: D, txids: seq<D>, bits: seq<bool>, hashes: seq<D>, bad: bool,
                        maxBlockSize: nat)
    requires txids != [] && TrueRoot(H, txids) != zero
    requires ExtractedRoot(H, zero, |txids|, bits, hashes, bad, maxBlockSize) == TrueRoot(H, txids)
    requires NoCollision(H, RootWalk(H, zero, |txids|, bits, hashes).pairs, RootPairs(H, txids))
    ensures var w := RootWalk(H, zero, |txids|, bits, hashes);
            && Genuine(txids, w.matches, w.indexes)
            && forall i, j :: 0 <= i < j < |w.indexes| ==> w.indexes[i] < w.indexes[j]
  {
    hide Walk, NoCollision, TruePairs, CalcHash, Width, HeightOf;
    var h := HeightOf(|txids|);
    Root(|txids|, h);
    WalkSound(H, zero, txids, bits, hashes, h, 0, 0, 0);
    WalkIndexes(H, zero, |txids|, bits, hashes, h, 0, 0, 0);
  }

  /** Completeness. A built tree that has been packed and unpacked extracts to the true root and
      exactly the selected transactions and positions in order; that is, unless two sibling
      nodes the tree descends into have equal hashes, and then it is refused. */
  lemma ExtractComplete<D>(H: (D, D) -> D, zero: D, txids: seq<D>, mask: seq<bool>, maxBlockSize: nat)
    requires 0 < |txids| == |mask| <= maxBlockSize * WITNESS_SCALE_FACTOR / MIN_TRANSACTION_WEIGHT
    ensures var t := Encoded(H, txids, mask);
            var w := RootWalk(H, zero, |txids|, Padded(t.bits), t.hashes);
            && w.indexes == Chosen(mask, 0, |mask|) && w.matches == At(txids, Chosen(mask, 0, |mask|))
            && ExtractedRoot(H, zero, |txids|, Padded(t.bits), t.hashes, false, maxBlockSize) ==
               (Root(|txids|, HeightOf(|txids|));
                if NoTwins(H, txids, mask, HeightOf(|txids|), 0) then TrueRoot(H, txids) else zero)
  {
    hide Walk, NoTwins, CalcHash, Width, HeightOf, Build, Padded, SliceAt, Plausible, Accepted;
    var h, t := HeightOf(|txids|), Encoded(H, txids, mask);
    Root(|txids|, h);
    EncodedPlausible(H, txids, mask, maxBlockSize);
    PaddedStarts(t.bits);
    WholeSlice(t.hashes);
    WalkComplete(H, zero, txids, mask, Padded(t.bits), t.hashes, h, 0, 0, 0);
    AcceptedPadded(RootWalk(H, zero, |txids|, Padded(t.bits), t.hashes), t.bits, t.hashes);
  }

  lemma EncodedPlausible<D>(H: (D, D) -> D, txids: seq<D>, mask: seq<bool>, maxBlockSize: nat)
    requires 0 < |txids| == |mask| <= maxBlockSize * WITNESS_SCALE_FACTOR / MIN_TRANSACTION_WEIGHT
    ensures var t := Encoded(H, txids, mask); Plausible(|txids|, Padded(t.bits), t.hashes, maxBlockSize)
  {
    hide Build, Width, HeightOf, Padded;
    Root(|txids|, HeightOf(|txids|));
    BuildSize(H, txids, mask, HeightOf(|txids|), 0);
  }

  lemma PaddedStarts(bits: seq<bool>)
    ensures SliceAt(Padded(bits), 0, bits)
  {
  }

  /** A walk that used every bit before the padding and every hash is refused only for twins. */
  lemma AcceptedPadded<D>(w: Walked<D>, bits: seq<bool>, hashes: seq<D>)
    requires w.nBits == |bits| && w.nHashes == |hashes|
    ensures Accepted(w, Padded(bits), hashes, false) <==> !w.bad
  {
    hide Padded;
  }

  lemma WholeSlice<T>(s: seq<T>)
    ensures SliceAt(s, 0, s)
  {
  }

  /** With distinct transactions and no collision in the true tree, extraction succeeds. */
  lemma DistinctExtract<D>(H: (D, D) -> D, zero: D, txids: seq<D>, mask: seq<bool>, maxBlockSize: nat)
    requires 0 < |txids| == |mask| <= maxBlockSize * WITNESS_SCALE_FACTOR / MIN_TRANSACTION_WEIGHT
    requires forall i, j :: 0 <= i < j < |txids| ==> txids[i] != txids[j]
    requires NoCollision(H, RootPairs(H, txids), RootPairs(H, txids))
    ensures var t := Encoded(H, txids, mask);
            ExtractedRoot(H, zero, |txids|, Padded(t.bits), t.hashes, false, maxBlockSize) == TrueRoot(H, txids)
  {
    hide NoTwins, NoCollision, TruePairs, Encoded, ExtractedRoot, TrueRoot;
    Root(|txids|, HeightOf(|txids|));
    ExtractComplete(H, zero, txids, mask, maxBlockSize);
    DistinctMeansNoTwins(H, txids, mask, HeightOf(|txids|), 0, RootPairs(H, txids));
  }

  /** At most one hash per transaction, and at most one more than the height for each selected one. */
  lemma EncodedSize<D>(H: (D, D) -> D, txids: seq<D>, mask: seq<bool>)
    requires |mask| == |txids| > 0
    ensures var t := Encoded(H, txids, mask);
            |t.hashes| <= |txids| && |t.hashes| <= 1 + |Chosen(mask, 0, |mask|)| * HeightOf(|txids|)
  {
    hide Build, Width, HeightOf;
    Root(|txids|, HeightOf(|txids|));
    BuildSize(H, txids, mask, HeightOf(|txids|), 0);
  }

  /** The bytes of a variable-length size. */
  function SizeBytes(n: nat): nat { if n < 253 then 1 else if n < 0x1_0000 then 3 else 5 }

  /** The bytes of an encoding on the wire, with 32-byte hashes. */
  function WireSize<D>(t: Partial<D>): nat {
    var bytes := (|t.bits| + 7) / 8;
    4 + SizeBytes(|t.hashes|) + 32 * |t.hashes| + SizeBytes(bytes) + bytes
  }

  /** The selected single-child nodes of the whole tree. */
  function LoneChildren(mask: seq<bool>): nat
    requires mask != []
  {
    Root(|mask|, HeightOf(|mask|));
    OneChild(mask, HeightOf(|mask|), 0)
  }

  /** The documented bound of 2 N - 1 flag bits for N hashes holds if and only if the encoding
      descends into no node with a single child; each one costs exactly one bit more. */
  lemma FlagBits<D>(H: (D, D) -> D, txids: seq<D>, mask: seq<bool>)
    requires |mask| == |txids| > 0
    ensures var t := Encoded(H, txids, mask);
            && |t.bits| == 2 * |t.hashes| - 1 + LoneChildren(mask)
            && (|t.bits| <= 2 * |t.hashes| - 1 <==> LoneChildren(mask) == 0)
            && LoneChildren(mask) <= HeightOf(|txids|)
  {
    hide Build, Width, HeightOf, OneChild;
    Root(|txids|, HeightOf(|txids|));
    BitCount(H, txids, mask, HeightOf(|txids|), 0);
    OneChildBound(mask, HeightOf(|txids|), 0);
  }

  /** The smallest case: three transactions, the last one selected. */
  lemma ThreeTransactions<D>(H: (D, D) -> D, a: D, b: D, c: D)
    ensures var t := Encoded(H, [a, b, c], [false, false, true]); |t.bits| == 4 && |t.hashes| == 2
  {
    hide Build, Width, HeightOf, Below, CalcHash;
    var txids, mask := [a, b, c], [false, false, true];
    ThreeShape();
    Root(3, HeightOf(3));
    HeightUnique(3, HeightOf(3), 2);
    BuildNode(H, txids, mask, 2, 0);
    BuildStops(H, txids, mask, 1, 0);
    BuildNode(H, txids, mask, 1, 1);
    BuildStops(H, txids, mask, 0, 2);
  }

  lemma ThreeShape()
    ensures Width(3, 0) == 3 && Width(3, 1) == 2 && Width(3, 2) == 1 && IsHeight(3, 2)
    ensures var mask := [false, false, true];
            Below(mask, 1, 0) == [] && Below(mask, 0, 2) != [] && Below(mask, 1, 1) != [] && Below(mask, 2, 0) != []
  {
    hide Below, Chosen;
    assert Pow2(0) == 1 && Pow2(1) == 2 && Pow2(2) == 4;
    var mask := [false, false, true];
    LastChosen(mask, 0, 2);
    LastChosen(mask, 1, 1);
    LastChosen(mask, 2, 0);
    NoneChosen(mask);
  }

  lemma LastChosen(mask: seq<bool>, h: nat, pos: nat)
    requires mask != [] && mask[|mask| - 1] && Lo(h, pos) < |mask| == Hi(|mask|, h, pos)
    ensures Below(mask, h, pos) != []
  {
    hide Lo, Hi;
    assert |mask| - 1 in Chosen(mask, Lo(h, pos), |mask|);
  }

  lemma NoneChosen(mask: seq<bool>)
    requires |mask| == 3 && !mask[0] && !mask[1]
    ensures Below(mask, 1, 0) == []
  {
    assert Pow2(1) == 2;
    assert Lo(1, 0) == 0 && Hi(3, 1, 0) == 2;
    hide Lo, Hi;
    assert Chosen(mask, 0, 1) == [];
  }

  /** The documented size of at most 10 + ceil(32.25 N) bytes for N hashes fails exactly when the
      flag bits need 253 bytes or more and the lone children outnumber the bits that rounding N up
      to a multiple of four leaves over. */
  lemma SizeGuarantee<D>(H: (D, D) -> D, txids: seq<D>, mask: seq<bool>)
    requires 0 < |mask| == |txids| < 0x1_0000
    ensures var t := Encoded(H, txids, mask);
            var n := |t.hashes|;
            WireSize(t) <= 10 + 32 * n + (n + 3) / 4 <==>
            (2 * n + 6 + LoneChildren(mask)) / 8 < 253 || LoneChildren(mask) <= 1 + 8 * ((n + 3) / 4) - 2 * n
  {
    hide Build, Width, HeightOf, OneChild, LoneChildren;
    FlagBits(H, txids, mask);
    EncodedSize(H, txids, mask);
    LowTree(|txids|);
  }

  /** Fewer than 2^16 transactions make a tree of height at most 16. */
  lemma LowTree(n: nat)
    requires 0 < n < 0x1_0000
    ensures HeightOf(n) <= 16
  {
    PowWords();
    WidthIff(n, 16, 1);
    assert !(Width(n, 16) > 1);
  }

  /** With 2^k + 1 transactions, all selected, there is a lone child at every level but the root's. */
  lemma PowerPlusOne<D>(H: (D, D) -> D, txids: seq<D>, mask: seq<bool>, k: nat)
    requires |mask| == |txids| == Pow2(k) + 1 && forall p :: 0 <= p < |mask| ==> mask[p]
    ensures LoneChildren(mask) == k && |Encoded(H, txids, mask).hashes| == |txids|
  {
    hide Build, HeightOf, Below, OneChild;
    var n := |txids|;
    EdgeShape(k);
    HeightUnique(n, HeightOf(n), k + 1);
    Root(n, k + 1);
    AllStored(H, txids, mask, k + 1, 0);
    SelectedBelow(mask, k + 1, 0, 0);
    OneChildNode(mask, k + 1, 0);
    OneChildBound(mask, k, 0);
    LastAlone(mask, k, 1);
  }

  lemma EdgeShape(k: nat)
    ensures var n := Pow2(k) + 1;
            && Width(n, k) == 2 && Width(n, k + 1) == 1 && IsHeight(n, k + 1)
            && Lo(k + 1, 0) == 0 && Lo(k, 1) == Pow2(k) == n - 1
  {
    var n, p := Pow2(k) + 1, Pow2(k);
    WidthIff(n, k, 1);
    WidthIff(n, k, 2);
    WidthIff(n, k + 1, 0);
    WidthIff(n, k + 1, 1);
    forall j: nat | j < k + 1
      ensures Width(n, j) > 1
    {
      PowGrows(j, k);
      WidthIff(n, j, 1);
    }
  }

  lemma OneChildNode(mask: seq<bool>, h: nat, pos: nat)
    requires h > 0 && pos < Width(|mask|, h) && 2 * pos + 1 < Width(|mask|, h - 1) && Below(mask, h, pos) != []
    ensures OneChild(mask, h, pos) == OneChild(mask, h - 1, 2 * pos) + OneChild(mask, h - 1, 2 * pos + 1)
  {
    hide Width, Below;
  }

  /** 1025 transactions, all selected, take one byte more than documented. */
  lemma GuaranteeFails<D>(H: (D, D) -> D, txids: seq<D>, mask: seq<bool>)
    requires |mask| == |txids| == 1025 && forall p :: 0 <= p < |mask| ==> mask[p]
    ensures WireSize(Encoded(H, txids, mask)) == 10 + 32 * 1025 + (1025 + 3) / 4 + 1
  {
    hide Build, HeightOf, OneChild, LoneChildren;
    assert Pow2(5) == 32;
    PowAdd(5, 5);
    PowerPlusOne(H, txids, mask, 10);
    FlagBits(H, txids, mask);
  }

  // ---------------------------------------------------------------- the class

  datatype Wire<D> = Wire(nTransactions: nat, hashes: seq<D>, bytes: seq<bv8>)

  class CPartialMerkleTree<D(==)> {
    const H: (D, D) -> D
    const zero: D
    var nTransactions: nat
    var vBits: seq<bool>
    var vHash: seq<D>
    var fBad: bool

    constructor Empty(hash: (D, D) -> D, zeroDigest: D)
      ensures H == hash && zero == zeroDigest && nTransactions == 0 && vBits == [] && vHash == [] && fBad
    {
      H, zero := hash, zeroDigest;
      nTransactions, vBits, vHash, fBad := 0, [], [], true;
    }

    constructor FromTxids(hash: (D, D) -> D, zeroDigest: D, vTxid: seq<D>, vMatch: seq<bool>)
      requires |vTxid| == |vMatch| > 0
      ensures H == hash && zero == zeroDigest && nTransactions == |vTxid| && !fBad
      ensures Encoded(hash, vTxid, vMatch) == Partial(vBits, vHash)
    {
      H, zero := hash, zeroDigest;
      nTransactions, vBits, vHash, fBad := |vTxid|, [], [], false;
      new;
      var nHeight := CalcHeight();
      Root(|vTxid|, nHeight);
      TraverseAndBuild(nHeight, 0, vTxid, vMatch);
    }

    method CalcHeight() returns (nHeight: nat)
      ensures nHeight == HeightOf(nTransactions)
    {
      nHeight := 0;
      while Width(nTransactions, nHeight) > 1
        invariant forall k: nat :: k < nHeight ==> Width(nTransactions, k) > 1
        decreases Width(nTransactions, nHeight)
      {
        WidthShrinks(nTransactions, nHeight);
        nHeight := nHeight + 1;
      }
      HeightUnique(nTransactions, nHeight, HeightOf(nTransactions));
    }

    method TraverseAndBuild(height: nat, pos: nat, vTxid: seq<D>, vMatch: seq<bool>)
      requires nTransactions == |vTxid| == |vMatch| && pos < Width(|vTxid|, height)
      modifies this`vBits, this`vHash
      ensures var t := Build(H, vTxid, vMatch, height, pos);
              vBits == old(vBits) + t.bits && vHash == old(vHash) + t.hashes
      decreases height
    {
      hide Width, Below, CalcHash, Build;
      var fParentOfMatch := ParentOfMatch(height, pos, vMatch);
      vBits := vBits + [fParentOfMatch];
      if height == 0 || !fParentOfMatch {
        BuildStops(H, vTxid, vMatch, height, pos);
        vHash := vHash + [CalcHash(H, vTxid, height, pos)];
      } else {
        Children(nTransactions, height, pos);
        BuildNode(H, vTxid, vMatch, height, pos);
        TraverseAndBuild(height - 1, pos * 2, vTxid, vMatch);
        if pos * 2 + 1 < Width(nTransactions, height - 1) {
          TraverseAndBuild(height - 1, pos * 2 + 1, vTxid, vMatch);
        }
      }
    }

    method ParentOfMatch(height: nat, pos: nat, vMatch: seq<bool>) returns (any: bool)
      requires nTransactions == |vMatch|
      ensures any <==> Below(vMatch, height, pos) != []
    {
      hide Lo, Hi, Pow2;
      any := false;
      var p, end := Lo(height, pos), Lo(height, pos + 1);
      HiIsNext(nTransactions, height, pos);
      while p < end && p < nTransactions
        invariant Lo(height, pos) <= p
        invariant p == Lo(height, pos) || p <= Hi(nTransactions, height, pos)
        invariant any <==> exists q :: Lo(height, pos) <= q < p && q < |vMatch| && vMatch[q]
      {
        any := any || vMatch[p];
        p := p + 1;
      }
      assert p >= Hi(nTransactions, height, pos);
      var below := Below(vMatch, height, pos);
      assert below != [] ==> Lo(height, pos) <= below[0] < p && vMatch[below[0]];
      assert any ==> exists q :: q in below;
    }

    method TraverseAndExtract(height: nat, pos: nat, nBitsUsed: nat, nHashUsed: nat, vMatch: seq<D>, vnIndex: seq<nat>)
      returns (hash: D, nBits: nat, nHashes: nat, matches: seq<D>, indexes: seq<nat>)
      modifies this`fBad
      ensures var w := Walk(H, zero, nTransactions, vBits, vHash, height, pos, nBitsUsed, nHashUsed);
              && hash == w.hash && nBits == w.nBits && nHashes == w.nHashes
              && matches == vMatch + w.matches && indexes == vnIndex + w.indexes
              && fBad == (old(fBad) || w.bad)
      decreases height
    {
      hide Width, Walk;
      nBits, nHashes, matches, indexes := nBitsUsed, nHashUsed, vMatch, vnIndex;
      if nBits >= |vBits| || height == 0 || !vBits[nBits] {
        WalkStops(H, zero, nTransactions, vBits, vHash, height, pos, nBits, nHashes);
      }
      if nBits >= |vBits| {
        fBad := true;
        return zero, nBits, nHashes, matches, indexes;
      }
      var fParentOfMatch := vBits[nBits];
      nBits := nBits + 1;
      if height == 0 || !fParentOfMatch {
        if nHashes >= |vHash| {
          fBad := true;
          return zero, nBits, nHashes, matches, indexes;
        }
        hash := vHash[nHashes];
        nHashes := nHashes + 1;
        if height == 0 && fParentOfMatch {
          matches, indexes := matches + [hash], indexes + [pos];
        }
      } else {
        WalkInner(H, zero, nTransactions, vBits, vHash, height, pos, nBitsUsed, nHashUsed);
        ghost var l := Walk(H, zero, nTransactions, vBits, vHash, height - 1, 2 * pos, nBits, nHashes);
        ghost var r := Walk(H, zero, nTransactions, vBits, vHash, height - 1, 2 * pos + 1, l.nBits, l.nHashes);
        Appended(vMatch, l.matches, r.matches);
        Appended(vnIndex, l.indexes, r.indexes);
        var left, right;
        left, nBits, nHashes, matches, indexes :=
          TraverseAndExtract(height - 1, pos * 2, nBits, nHashes, matches, indexes);
        if pos * 2 + 1 < Width(nTransactions, height - 1) {
          right, nBits, nHashes, matches, indexes :=
            TraverseAndExtract(height - 1, pos * 2 + 1, nBits, nHashes, matches, indexes);
          if right == left {
            fBad := true;
          }
        } else {
          right := left;
        }
        hash := H(left, right);
      }
    }

    /** `vMatch` is cleared first; `vnIndex` is only appended to. */
    method ExtractMatches(vnIndexBefore: seq<nat>, dgpMaxBlockSize: nat)
      returns (root: D, vMatch: seq<D>, vnIndex: seq<nat>)
      modifies this`fBad
      ensures root == old(ExtractedRoot(H, zero, nTransactions, vBits, vHash, fBad, dgpMaxBlockSize))
      ensures var w := RootWalk(H, zero, nTransactions, vBits, vHash);
              if Plausible(nTransactions, vBits, vHash, dgpMaxBlockSize) then
                vMatch == w.matches && vnIndex == vnIndexBefore + w.indexes && fBad == (old(fBad) || w.bad)
              else
                vMatch == [] && vnIndex == vnIndexBefore && fBad == old(fBad)
    {
      vMatch, vnIndex := [], vnIndexBefore;
      if nTransactions == 0 {
        return zero, vMatch, vnIndex;
      }
      if nTransactions > dgpMaxBlockSize * WITNESS_SCALE_FACTOR / MIN_TRANSACTION_WEIGHT {
        return zero, vMatch, vnIndex;
      }
      if |vHash| > nTransactions {
        return zero, vMatch, vnIndex;
      }
      if |vBits| < |vHash| {
        return zero, vMatch, vnIndex;
      }
      var nHeight := CalcHeight();
      var hashMerkleRoot, nBitsUsed, nHashUsed;
      hashMerkleRoot, nBitsUsed, nHashUsed, vMatch, vnIndex := TraverseAndExtract(nHeight, 0, 0, 0, vMatch, vnIndex);
      if fBad {
        return zero, vMatch, vnIndex;
      }
      if (nBitsUsed + 7) / 8 != (|vBits| + 7) / 8 {
        return zero, vMatch, vnIndex;
      }
      if nHashUsed != |vHash| {
        return zero, vMatch, vnIndex;
      }
      return hashMerkleRoot, vMatch, vnIndex;
    }

    method Serialize() returns (w: Wire<D>)
      ensures w.nTransactions == nTransactions && w.hashes == vHash && Unpacked(w.bytes) == Padded(vBits)
    {
      var vBytes := PackBits(vBits);
      w := Wire(nTransactions, vHash, vBytes);
    }

    method Unserialize(w: Wire<D>)
      modifies this
      ensures nTransactions == w.nTransactions && vHash == w.hashes && vBits == Unpacked(w.bytes) && !fBad
    {
      nTransactions, vHash := w.nTransactions, w.hashes;
      vBits := UnpackBits(w.bytes);
      fBad := false;
    }
  }

  /** The whole path: one peer builds and sends a tree, the other reads it and extracts. */
  method Relay<D(==)>(H: (D, D) -> D, zero: D, vTxid: seq<D>, vMatch: seq<bool>, dgpMaxBlockSize: nat)
    returns (root: D, matches: seq<D>, indexes: seq<nat>)
    requires 0 < |vTxid| == |vMatch| <= dgpMaxBlockSize * WITNESS_SCALE_FACTOR / MIN_TRANSACTION_WEIGHT
    requires forall i, j :: 0 <= i < j < |vTxid| ==> vTxid[i] != vTxid[j]
    requires NoCollision(H, RootPairs(H, vTxid), RootPairs(H, vTxid))
    ensures root == TrueRoot(H, vTxid) && indexes == Chosen(vMatch, 0, |vMatch|) && matches == At(vTxid, indexes)
  {
    hide NoCollision, RootPairs, ExtractedRoot, TrueRoot, RootWalk, Encoded, Chosen;
    var sender := new CPartialMerkleTree.FromTxids(H, zero, vTxid, vMatch);
    var wire := sender.Serialize();
    var receiver := new CPartialMerkleTree.Empty(H, zero);
    receiver.Unserialize(wire);
    DistinctExtract(H, zero, vTxid, vMatch, dgpMaxBlockSize);
    ExtractComplete(H, zero, vTxid, vMatch, dgpMaxBlockSize);
    EncodedPlausible(H, vTxid, vMatch, dgpMaxBlockSize);
    root, matches, indexes := receiver.ExtractMatches([], dgpMaxBlockSize);
  }
}
