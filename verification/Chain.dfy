/** The block tree with its skip pointers, and the active chain. A block's parent and height never
    change; its skip pointer is set once it is added. */
module Chain {
  import opened Arithmetic
  import opened SkipList

  // ---------------------------------------------------------------- the tree

  class CBlockIndex {
    const pprev: CBlockIndex?
    const nHeight: nat
    var pskip: CBlockIndex?

    /** Heights count the parents up to the first block. */
    ghost predicate Linked()
      decreases nHeight
    {
      if pprev == null then nHeight == 0 else nHeight == pprev.nHeight + 1 && pprev.Linked()
    }

    constructor (prev: CBlockIndex?)
      requires prev != null ==> prev.Linked()
      ensures Linked() && pprev == prev && pskip == null
    {
      pprev := prev;
      nHeight := if prev == null then 0 else prev.nHeight + 1;
      pskip := null;
    }

    /** The skip walk ends where walking parents would, after a number of steps that is quadratic in
        the logarithm of the height. */
    method GetAncestor(height: int, ghost tree: set<CBlockIndex>) returns (r: CBlockIndex?, ghost steps: nat)
      requires TreeOk(tree) && this in tree
      ensures r == null <==> height > nHeight || height < 0
      ensures 0 <= height <= nHeight ==> r == Ancestor(this, height) && r in tree
      ensures forall l: nat :: nHeight <= Pow2(l) ==> 4 * steps <= l * l + 11 * l + 8
    {
      hide Pow2, Skips, GetSkipHeight, Steps, Next;
      if height > nHeight || height < 0 {
        return null, 0;
      }
      var pindexWalk: CBlockIndex := this;
      var heightWalk := nHeight;
      steps := 0;
      NoSteps(height);
      while heightWalk > height
        invariant pindexWalk in tree
        invariant height <= heightWalk == pindexWalk.nHeight
        invariant Ancestor(pindexWalk, height) == Ancestor(this, height)
        invariant steps + Steps(heightWalk, height) == Steps(nHeight, height)
        decreases heightWalk
      {
        var heightSkip := GetSkipHeight(heightWalk);
        var heightSkipPrev := GetSkipHeight(heightWalk - 1);
        SkipsIs(heightWalk, height);
        StepsNext(heightWalk, height);
        if pindexWalk.pskip != null &&
           (heightSkip == height ||
            (heightSkip > height && !(heightSkipPrev < heightSkip - 2 && heightSkipPrev >= height)))
        {
          AncestorOfAncestor(pindexWalk, heightSkip, height);
          AncestorInTree(tree, pindexWalk, heightSkip);
          pindexWalk := pindexWalk.pskip;
          heightWalk := heightSkip;
        } else {
          assert pindexWalk.pprev != null;
          pindexWalk := pindexWalk.pprev;
          heightWalk := heightWalk - 1;
        }
        steps := steps + 1;
      }
      forall l: nat | nHeight <= Pow2(l)
        ensures 4 * steps <= l * l + 11 * l + 8
      {
        StepsBound(nHeight, height, l);
      }
      r := pindexWalk;
    }

    /** The new block joins the tree with its skip pointer set. */
    method BuildSkip(ghost tree: set<CBlockIndex>)
      requires TreeOk(tree) && Linked() && this !in tree && (pprev != null ==> pprev in tree)
      requires pprev == null ==> pskip == null
      modifies this`pskip
      ensures TreeOk(tree + {this}) && (pprev != null ==> pskip == Ancestor(this, GetSkipHeight(nHeight)))
    {
      if pprev != null {
        ghost var steps;
        pskip, steps := pprev.GetAncestor(GetSkipHeight(nHeight), tree);
      }
    }
  }

  /** Walking parents down to a height. */
  ghost function Ancestor(b: CBlockIndex, height: nat): (r: CBlockIndex)
    requires b.Linked() && height <= b.nHeight
    ensures r.Linked() && r.nHeight == height
    decreases b.nHeight
  {
    if height == b.nHeight then b else Ancestor(b.pprev, height)
  }

  lemma {:induction false} AncestorOfAncestor(b: CBlockIndex, mid: nat, height: nat)
    requires b.Linked() && height <= mid <= b.nHeight
    ensures Ancestor(Ancestor(b, mid), height) == Ancestor(b, height)
    decreases b.nHeight
  {
    if mid < b.nHeight {
      AncestorOfAncestor(b.pprev, mid, height);
    }
  }

  /** A tree holds every block's parent, and its skip pointers lead where they should, or nowhere. */
  ghost predicate TreeOk(tree: set<CBlockIndex>)
    reads tree
  {
    forall b :: b in tree ==>
      && b.Linked() && (b.pprev != null ==> b.pprev in tree)
      && (b.pprev == null ==> b.pskip == null)
      && (b.pprev != null ==> b.pskip == Ancestor(b, GetSkipHeight(b.nHeight)))
  }

  lemma {:induction false} AncestorInTree(tree: set<CBlockIndex>, b: CBlockIndex, height: nat)
    requires TreeOk(tree) && b in tree && height <= b.nHeight
    ensures Ancestor(b, height) in tree
    decreases b.nHeight
  {
    if height < b.nHeight {
      AncestorInTree(tree, b.pprev, height);
    }
  }

  /** Growing the tree by a block keeps all skip pointers sound, so lookups stay exact. */
  method AddBlock(ghost tree: set<CBlockIndex>, prev: CBlockIndex?) returns (b: CBlockIndex)
    requires TreeOk(tree) && (prev != null ==> prev in tree)
    ensures fresh(b) && b.pprev == prev && TreeOk(tree + {b})
  {
    b := new CBlockIndex(prev);
    b.BuildSkip(tree);
  }

  // ---------------------------------------------------------------- common ancestors

  lemma {:induction false} AncestorPrev(b: CBlockIndex, height: nat)
    requires b.Linked() && height <= b.nHeight
    ensures Ancestor(b, height).pprev == if height == 0 then null else Ancestor(b, height - 1)
    decreases b.nHeight
  {
    if height < b.nHeight {
      AncestorPrev(b.pprev, height);
    }
  }

  /** Above `height` the two blocks have no ancestor in common. */
  ghost predicate ApartAbove(pa: CBlockIndex, pb: CBlockIndex, height: int)
    requires pa.Linked() && pb.Linked()
  {
    forall h: nat :: height < h <= pa.nHeight && h <= pb.nHeight ==> Ancestor(pa, h) != Ancestor(pb, h)
  }

  lemma NothingAbove(pa: CBlockIndex, pb: CBlockIndex, h: int)
    requires pa.Linked() && pb.Linked() && (pa.nHeight <= h || pb.nHeight <= h)
    ensures ApartAbove(pa, pb, h)
  {
  }

  lemma ApartHere(pa: CBlockIndex, pb: CBlockIndex, h: nat)
    requires pa.Linked() && pb.Linked() && h <= pa.nHeight && h <= pb.nHeight
    requires ApartAbove(pa, pb, h) && Ancestor(pa, h) != Ancestor(pb, h)
    ensures ApartAbove(pa, pb, h - 1)
  {
  }

  /** The highest block both descend from; null when they share none. */
  method LastCommonAncestor(a: CBlockIndex, b: CBlockIndex, ghost tree: set<CBlockIndex>) returns (r: CBlockIndex?)
    requires TreeOk(tree) && a in tree && b in tree
    ensures r == null ==> ApartAbove(a, b, -1)
    ensures r != null ==>
              && r.nHeight <= a.nHeight && r.nHeight <= b.nHeight
              && r == Ancestor(a, r.nHeight) == Ancestor(b, r.nHeight) && ApartAbove(a, b, r.nHeight)
  {
    hide CBlockIndex.Linked, TreeOk, Ancestor, ApartAbove;
    StandsAt(tree, a);
    StandsAt(tree, b);
    var pa: CBlockIndex?, pb: CBlockIndex? := a, b;
    if pa.nHeight > pb.nHeight {
      ghost var steps;
      pa, steps := pa.GetAncestor(pb.nHeight, tree);
    } else if pb.nHeight > pa.nHeight {
      ghost var steps;
      pb, steps := pb.GetAncestor(pa.nHeight, tree);
    }
    ghost var h: int := if a.nHeight < b.nHeight then a.nHeight else b.nHeight;
    NothingAbove(a, b, h);
    while pa != pb && pa != null && pb != null
      invariant -1 <= h <= a.nHeight && h <= b.nHeight
      invariant h >= 0 ==> pa == Ancestor(a, h) && pb == Ancestor(b, h)
      invariant h == -1 ==> pa == null && pb == null
      invariant ApartAbove(a, b, h)
      decreases h
    {
      AncestorPrev(a, h);
      AncestorPrev(b, h);
      ApartHere(a, b, h);
      pa := pa.pprev;
      pb := pb.pprev;
      h := h - 1;
    }
    assert pa == pb;
    return pa;
  }

  // ---------------------------------------------------------------- the active chain

  class CChain {
    var vChain: seq<CBlockIndex?>

    /** The vector is the path of its last entry. */
    ghost predicate Valid()
      reads this
    {
      && (forall i :: 0 <= i < |vChain| ==> vChain[i] != null && vChain[i].Linked() && vChain[i].nHeight == i)
      && (forall i :: 0 < i < |vChain| ==> vChain[i].pprev == vChain[i - 1])
    }

    constructor ()
      ensures Valid() && vChain == []
    {
      vChain := [];
    }

    function At(nHeight: int): CBlockIndex?
      reads this
    {
      if nHeight < 0 || nHeight >= |vChain| then null else vChain[nHeight]
    }

    predicate Contains(pindex: CBlockIndex)
      reads this
    {
      At(pindex.nHeight) == pindex
    }

    /** A contained block's ancestors are the entries below it. */
    lemma BelowTip(i: nat, j: nat)
      requires Valid() && j <= i < |vChain|
      ensures vChain[j] == Ancestor(vChain[i], j)
    {
      if j < i {
        BelowTip(i - 1, j);
      }
    }

    /** Leaves exactly the tip's path, although it stops at the first entry already in place. */
    method SetTip(tip: CBlockIndex?)
      requires Valid() && (tip != null ==> tip.Linked())
      modifies this
      ensures Valid()
      ensures tip == null ==> vChain == []
      ensures tip != null ==> |vChain| == tip.nHeight + 1 && forall i :: 0 <= i <= tip.nHeight ==>
              vChain[i] == Ancestor(tip, i)
    {
      if tip == null {
        vChain := [];
        return;
      }
      var size := tip.nHeight + 1;
      ghost var was := vChain;
      vChain := if size <= |vChain| then vChain[..size] else vChain + seq(size - |vChain|, _ => null);
      var pindex: CBlockIndex? := tip;
      ghost var h: int := tip.nHeight;
      while pindex != null && vChain[pindex.nHeight] != pindex
        invariant |vChain| == size && -1 <= h <= tip.nHeight
        invariant if h == -1 then pindex == null else pindex == Ancestor(tip, h)
        invariant forall i :: h < i <= tip.nHeight ==> vChain[i] == Ancestor(tip, i)
        invariant forall i :: 0 <= i <= h ==> vChain[i] == if i < |was| then was[i] else null
        decreases h
      {
        AncestorPrev(tip, h);
        vChain := vChain[pindex.nHeight := pindex];
        pindex := pindex.pprev;
        h := h - 1;
      }
      forall i | 0 <= i <= tip.nHeight
        ensures vChain[i] == Ancestor(tip, i)
      {
        if i <= h {
          OldPath(was, h, i);
          AncestorOfAncestor(tip, h, i);
        }
      }
      forall i | 0 < i <= tip.nHeight
        ensures Ancestor(tip, i).pprev == Ancestor(tip, i - 1)
      {
        AncestorPrev(tip, i);
      }
    }

    /** The last block of the chain that `start` descends from. */
    method FindFork(start: CBlockIndex?, ghost tree: set<CBlockIndex>) returns (r: CBlockIndex?)
      requires Valid() && TreeOk(tree) && (start != null ==> start in tree)
      ensures start == null ==> r == null
      ensures start != null ==>
                && (r != null ==> r.nHeight <= start.nHeight && r == Ancestor(start, r.nHeight) && Contains(r))
                && forall h: nat :: h <= start.nHeight && (r == null || h > r.nHeight) ==> !Contains(Ancestor(start, h))
    {
      hide CBlockIndex.Linked, TreeOk, Ancestor;
      if start == null {
        return null;
      }
      StandsAt(tree, start);
      var pindex: CBlockIndex? := start;
      if pindex.nHeight > |vChain| - 1 {
        ghost var steps;
        pindex, steps := pindex.GetAncestor(|vChain| - 1, tree);
      }
      ghost var h: int := if start.nHeight > |vChain| - 1 then |vChain| - 1 else start.nHeight;
      while pindex != null && !Contains(pindex)
        invariant -1 <= h <= start.nHeight
        invariant if h == -1 then pindex == null else pindex == Ancestor(start, h)
        invariant forall i: nat :: h < i <= start.nHeight ==> !Contains(Ancestor(start, i))
        decreases h
      {
        AncestorPrev(start, h);
        pindex := pindex.pprev;
        h := h - 1;
      }
      return pindex;
    }

    /** The ancestor at a height, by index where the chain allows it. */
    method StepBack(pindex: CBlockIndex, nHeight: nat, ghost tree: set<CBlockIndex>) returns (r: CBlockIndex)
      requires Valid() && TreeOk(tree) && pindex in tree && nHeight <= pindex.nHeight
      ensures r == Ancestor(pindex, nHeight) && r in tree
    {
      if Contains(pindex) {
        OldPath(vChain, pindex.nHeight, nHeight);
        AncestorInTree(tree, pindex, nHeight);
        r := At(nHeight);
      } else {
        ghost var steps;
        r, steps := pindex.GetAncestor(nHeight, tree);
      }
    }

    /** From the start down to the first block: steps of one for the first twelve entries, doubling
        after that, so their number grows with the logarithm of the height. */
    method GetLocator(from: CBlockIndex?, ghost tree: set<CBlockIndex>) returns (vHave: seq<CBlockIndex>)
      requires Valid() && TreeOk(tree) && (from != null ==> from in tree)
      requires forall i :: 0 <= i < |vChain| ==> vChain[i] in tree
      ensures vHave == [] <==> from == null && vChain == []
      ensures vHave != [] ==>
                var start := if from != null then from else vChain[|vChain| - 1];
                && Listed(vHave, start) && vHave[|vHave| - 1].nHeight == 0
                && (forall i :: 0 <= i < |vHave| ==> vHave[i].nHeight == LocatorHeight(start.nHeight, i))
                && (forall l: nat :: l > 0 && start.nHeight <= Pow2(l) ==> |vHave| <= 11 + l)
    {
      hide CBlockIndex.Linked, TreeOk, Ancestor, Stepped, Descends, Listed, LocatorHeight;
      var nStep := 1;
      vHave := [];
      var pindex := from;
      if pindex == null {
        pindex := At(|vChain| - 1);
      }
      ghost var start := pindex;
      if start != null {
        StandsAt(tree, start);
        NothingListed(start);
      }
      while pindex != null
        invariant pindex == null <==> start == null
        invariant start == null ==> vHave == []
        invariant start != null ==> start.Linked() && pindex in tree && pindex.nHeight <= start.nHeight
        invariant start != null ==> pindex == Ancestor(start, pindex.nHeight) && Descends(vHave, start, pindex)
        invariant start != null ==> Stepped(start.nHeight, pindex.nHeight, nStep, |vHave|)
        invariant start != null ==> Spaced(vHave, start.nHeight)
        decreases if pindex == null then 0 else pindex.nHeight
      {
        Deeper(vHave, start, pindex);
        SpacedMore(vHave, start.nHeight, pindex, nStep);
        vHave := vHave + [pindex];
        if pindex.nHeight == 0 {
          LocatorBound(start.nHeight, nStep, |vHave|);
          break;
        }
        var nHeight := if pindex.nHeight - nStep > 0 then pindex.nHeight - nStep else 0;
        NextStep(start.nHeight, pindex.nHeight, nStep, |vHave| - 1);
        AncestorOfAncestor(start, pindex.nHeight, nHeight);
        DeeperStill(vHave, start, pindex, Ancestor(pindex, nHeight));
        pindex := StepBack(pindex, nHeight, tree);
        if |vHave| > 10 {
          nStep := nStep * 2;
        }
      }
    }
  }

  /** Ancestors of `start`, from itself strictly downwards. */
  ghost predicate Listed(vHave: seq<CBlockIndex>, start: CBlockIndex) {
    && vHave != [] && vHave[0] == start && start.Linked()
    && (forall i :: 0 <= i < |vHave| ==>
          vHave[i].nHeight <= start.nHeight && vHave[i] == Ancestor(start, vHave[i].nHeight))
    && (forall i :: 0 < i < |vHave| ==> vHave[i].nHeight < vHave[i - 1].nHeight)
  }

  /** `next` goes on with the list. */
  ghost predicate Descends(vHave: seq<CBlockIndex>, start: CBlockIndex, next: CBlockIndex) {
    if vHave == [] then next == start else Listed(vHave, start) && next.nHeight < vHave[|vHave| - 1].nHeight
  }

  lemma Deeper(vHave: seq<CBlockIndex>, start: CBlockIndex, next: CBlockIndex)
    requires start.Linked() && next.nHeight <= start.nHeight && next == Ancestor(start, next.nHeight)
    requires Descends(vHave, start, next)
    ensures Listed(vHave + [next], start)
  {
  }

  lemma DeeperStill(vHave: seq<CBlockIndex>, start: CBlockIndex, last: CBlockIndex, next: CBlockIndex)
    requires Listed(vHave, start) && vHave[|vHave| - 1] == last && next.nHeight < last.nHeight
    ensures Descends(vHave, start, next)
  {
  }

  lemma NothingListed(start: CBlockIndex)
    ensures Descends([], start, start)
  {
  }

  /** The height of locator entry `n`: one block further back for each of the first twelve, then gaps of
      two, four, eight, down to the first block. */
  function LocatorHeight(top: nat, n: nat): nat {
    var h := if n <= 11 then top - n else top - 9 - Pow2(n - 10);
    if h > 0 then h else 0
  }

  ghost predicate Spaced(vHave: seq<CBlockIndex>, top: nat) {
    forall i :: 0 <= i < |vHave| ==> vHave[i].nHeight == LocatorHeight(top, i)
  }

  lemma SpacedMore(vHave: seq<CBlockIndex>, top: nat, next: CBlockIndex, step: int)
    requires Spaced(vHave, top) && Stepped(top, next.nHeight, step, |vHave|)
    ensures Spaced(vHave + [next], top)
  {
  }

  /** Where the locator stands after `n` entries below a start at `top`. */
  ghost predicate Stepped(top: nat, height: nat, step: int, n: nat) {
    if n <= 10 then
      step == 1 && height + n == top
    else
      && step == Pow2(n - 10)
      && height == LocatorHeight(top, n)
      && (n > 11 ==> Pow2(n - 11) + 9 < top)
  }

  lemma StandsAt(tree: set<CBlockIndex>, b: CBlockIndex)
    requires TreeOk(tree) && b in tree
    ensures b.Linked() && Ancestor(b, b.nHeight) == b && Stepped(b.nHeight, b.nHeight, 1, 0)
  {
  }

  lemma NextStep(top: nat, height: nat, step: int, n: nat)
    requires Stepped(top, height, step, n) && height > 0
    ensures step > 0
    ensures Stepped(top, if height - step > 0 then height - step else 0, if n + 1 > 10 then step * 2 else step, n + 1)
  {
  }

  lemma LocatorBound(top: nat, step: int, entries: nat)
    requires entries > 0 && Stepped(top, 0, step, entries - 1)
    ensures forall l: nat :: l > 0 && top <= Pow2(l) ==> entries <= 11 + l
  {
    forall l: nat | l > 0 && top <= Pow2(l)
      ensures entries <= 11 + l
    {
      if entries > 12 && entries - 12 >= l {
        PowGrows(l, entries - 12);
      }
    }
  }

  /** In a chain that was a path, the entries below a kept entry are its ancestors. */
  lemma {:induction false} OldPath(was: seq<CBlockIndex?>, h: nat, i: nat)
    requires i <= h < |was|
    requires forall k :: 0 <= k < |was| ==> was[k] != null && was[k].Linked() && was[k].nHeight == k
    requires forall k :: 0 < k < |was| ==> was[k].pprev == was[k - 1]
    ensures was[i] == Ancestor(was[h], i)
  {
    if i < h {
      OldPath(was, h - 1, i);
    }
  }
}
