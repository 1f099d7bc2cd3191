// The active chain (class CChain of src/chain.h, src/chain.cpp): a vector of the
// blocks from the genesis block to the tip.

module ActiveChain {
  import opened Arithmetic
  import opened BlockTree

  /******* The path to a block *******/

  ghost function Path(b: BlockIndex): (r: seq<BlockIndex?>)
    requires Linked(b)
    ensures |r| == b.nHeight + 1
    decreases b.nHeight
  {
    (if b.pprev == null then [] else Path(b.pprev)) + [b]
  }

  lemma {:induction false} PathAt(b: BlockIndex, h: nat)
    requires Linked(b) && h <= b.nHeight
    ensures Path(b)[h] == Ancestor(b, h) != null
    decreases b.nHeight
  {
    if h < b.nHeight {
      PathAt(b.pprev, h);
      ParentAncestor(b, h);
    }
  }

  // A path begins with the path to any block on it.
  lemma PathPrefix(b: BlockIndex, h: nat)
    requires Linked(b) && h <= b.nHeight
    ensures Ancestor(b, h) != null && Linked(Ancestor(b, h)) && Path(b)[..h + 1] == Path(Ancestor(b, h))
  {
    AncestorAt(b, h);
    var a := Ancestor(b, h);
    forall k: nat | k <= h ensures Path(b)[k] == Path(a)[k] {
      PathAt(b, k);
      PathAt(a, k);
      AncestorTrans(b, h, k);
    }
    assert Path(b)[..h + 1] == Path(a);
  }

  // The vector is exactly the path from the genesis block to the tip.
  ghost predicate IsPath(v: seq<BlockIndex?>, tip: BlockIndex?) {
    if tip == null then v == [] else Linked(tip) && v == Path(tip)
  }

  // The vector after resize: cut, or filled up with null.
  function Resized(v: seq<BlockIndex?>, n: nat): seq<BlockIndex?> {
    if n <= |v| then v[..n] else v + seq(n - |v|, _ => null)
  }

  // A vector that is a path, resized, holds the block at height h only if the path
  // leads through it.
  lemma HoldsPath(v: seq<BlockIndex?>, tip: BlockIndex?, b: BlockIndex, n: nat)
    requires Linked(b) && b.nHeight < n
    requires IsPath(v, tip)
    requires Resized(v, n)[b.nHeight] == b
    ensures Resized(v, n)[..b.nHeight + 1] == Path(b)
  {
    var h := b.nHeight;
    assert h < |v| && v[h] == b;
    PathAt(tip, h);
    PathPrefix(tip, h);
    assert Resized(v, n)[..h + 1] == v[..h + 1];
  }

  // Above height h the path to the tip is written, and the rest is as it was.
  ghost predicate Filled(tip: BlockIndex, was: seq<BlockIndex?>, v: seq<BlockIndex?>, h: int)
    requires Linked(tip) && -1 <= h <= tip.nHeight
  {
    |v| == tip.nHeight + 1 && v[..h + 1] == Resized(was, tip.nHeight + 1)[..h + 1] && v[h + 1..] == Path(tip)[h + 1..]
  }

  lemma Unfilled(tip: BlockIndex, was: seq<BlockIndex?>)
    requires Linked(tip)
    ensures Filled(tip, was, Resized(was, tip.nHeight + 1), tip.nHeight) && Ancestor(tip, tip.nHeight) == tip
  {
  }

  lemma FilledStep(tip: BlockIndex, was: seq<BlockIndex?>, v: seq<BlockIndex?>, h: nat)
    requires Linked(tip) && h <= tip.nHeight && Filled(tip, was, v, h)
    ensures Filled(tip, was, v[h := Ancestor(tip, h)], h - 1)
    ensures Ancestor(tip, h) != null && Ancestor(tip, h).pprev == (if h == 0 then null else Ancestor(tip, h - 1))
    ensures h > 0 ==> Ancestor(tip, h - 1) != null && Ancestor(tip, h - 1).nHeight == h - 1
  {
    PathAt(tip, h);
    Down(tip, h);
    if h > 0 { AncestorAt(tip, h - 1); }
    var v' := v[h := Ancestor(tip, h)];
    assert v'[..h] == v[..h + 1][..h];
    assert v'[h..] == [Path(tip)[h]] + v[h + 1..] == Path(tip)[h..];
  }

  // The write may stop where the block is in place: below it all is in place.
  lemma FilledEnd(tip: BlockIndex, was: seq<BlockIndex?>, wasTip: BlockIndex?, v: seq<BlockIndex?>, h: int)
    requires Linked(tip) && -1 <= h <= tip.nHeight && Filled(tip, was, v, h)
    requires IsPath(was, wasTip)
    requires h >= 0 ==> v[h] == Ancestor(tip, h)
    ensures v == Path(tip)
  {
    var r := Resized(was, tip.nHeight + 1);
    if h >= 0 {
      AncestorAt(tip, h);
      SameAt(v, r, h);
      HoldsPath(was, wasTip, Ancestor(tip, h), tip.nHeight + 1);
      PathPrefix(tip, h);
    }
    SameHalves(v, Path(tip), h + 1);
  }

  lemma SameAt<T>(a: seq<T>, b: seq<T>, h: nat)
    requires h < |a| && h < |b| && a[..h + 1] == b[..h + 1]
    ensures a[h] == b[h]
  {
    assert a[..h + 1][h] == b[..h + 1][h];
  }

  lemma SameHalves<T>(a: seq<T>, b: seq<T>, k: nat)
    requires k <= |a| == |b| && a[..k] == b[..k] && a[k..] == b[k..]
    ensures a == b
  {
    assert a == a[..k] + a[k..];
    assert b == b[..k] + b[k..];
  }

  /******* Locators *******/

  // The heights of a locator: `have` entries are listed and the next step is nStep.
  function LocatorHeights(h: nat, nStep: nat, have: nat): (r: seq<nat>)
    requires nStep > 0
    ensures |r| > 0 && r[0] == h
    decreases h
  {
    if h == 0 then [0]
    else [h] + LocatorHeights(StepDown(h, nStep), if have + 1 > 10 then 2 * nStep else nStep, have + 1)
  }

  // How far entry i is from the one after it, unless the genesis block is nearer.
  function StepAt(i: nat): nat { if i <= 10 then 1 else Pow2(i - 10) }

  // A locator descends to height 0, by single steps at first and then by doubling ones.
  lemma {:induction false} LocatorSteps(h: nat, have: nat)
    ensures var r := LocatorHeights(h, StepAt(have), have);
            && r[|r| - 1] == 0
            && forall i | 0 <= i < |r| - 1 ::
                 r[i] > 0 && r[i + 1] == (if r[i] > StepAt(have + i) then r[i] - StepAt(have + i) else 0)
    decreases h
  {
    if h != 0 {
      var next := if h > StepAt(have) then h - StepAt(have) else 0;
      LocatorSteps(next, have + 1);
      var r, rest := LocatorHeights(h, StepAt(have), have), LocatorHeights(next, StepAt(have + 1), have + 1);
      assert StepAt(have + 1) == if have + 1 > 10 then 2 * StepAt(have) else StepAt(have);
      assert r == [h] + rest;
      forall i | 0 <= i < |r| - 1
        ensures r[i] > 0 && r[i + 1] == (if r[i] > StepAt(have + i) then r[i] - StepAt(have + i) else 0)
      {
        if i > 0 { assert r[i] == rest[i - 1] && r[i + 1] == rest[i] && have + i == have + 1 + (i - 1); }
      }
    }
  }

  // The hashes of a block's ancestors at the given heights.
  ghost function HashesAt(b: BlockIndex, heights: seq<nat>): (r: seq<nat>)
    requires Linked(b) && forall i | 0 <= i < |heights| :: heights[i] <= b.nHeight
    ensures |r| == |heights|
  {
    if heights == [] then []
    else AncestorAt(b, heights[0]); [Ancestor(b, heights[0]).hash] + HashesAt(b, heights[1..])
  }

  lemma {:induction false} HeightsBounded(h: nat, nStep: nat, have: nat)
    requires nStep > 0
    ensures forall i | 0 <= i < |LocatorHeights(h, nStep, have)| :: LocatorHeights(h, nStep, have)[i] <= h
    decreases h
  {
    if h != 0 {
      HeightsBounded(StepDown(h, nStep), if have + 1 > 10 then 2 * nStep else nStep, have + 1);
    }
  }

  // What GetLocator lists for a block.
  ghost function Locator(b: BlockIndex, h: nat, nStep: nat, have: nat): seq<nat>
    requires Linked(b) && h <= b.nHeight && nStep > 0
  {
    HeightsBounded(h, nStep, have);
    HashesAt(b, LocatorHeights(h, nStep, have))
  }

  /******* The chain *******/

  class Chain {
    var vChain: seq<BlockIndex?>
    var mChainTip: BlockIndex?

    ghost predicate Valid()
      reads this
    {
      IsPath(vChain, mChainTip)
    }

    // The block is the tip or an ancestor of it.
    ghost predicate Active(b: BlockIndex)
      reads this
    {
      mChainTip != null && b.nHeight <= mChainTip.nHeight && b == Ancestor(mChainTip, b.nHeight)
    }

    constructor ()
      ensures Valid() && mChainTip == null
    {
      vChain, mChainTip := [], null;
    }

    // The write stops at the first block that is in place already.
    method SetTip(tip: BlockIndex?)
      requires Valid() && (tip != null ==> Linked(tip))
      modifies this
      ensures Valid() && mChainTip == tip
    {
      ghost var was, wasTip := vChain, mChainTip;
      mChainTip := tip;
      if tip == null {
        vChain := [];
        return;
      }
      var n := tip.nHeight + 1;
      vChain := Resized(vChain, n);
      Unfilled(tip, was);
      var pindex: BlockIndex? := tip;
      ghost var h: int := tip.nHeight;
      while pindex != null && vChain[pindex.nHeight] != pindex
        invariant -1 <= h <= tip.nHeight && mChainTip == tip && Filled(tip, was, vChain, h)
        invariant pindex == (if h == -1 then null else Ancestor(tip, h)) && (h >= 0 ==> pindex != null && pindex.nHeight == h)
        decreases h
      {
        FilledStep(tip, was, vChain, h);
        vChain := vChain[pindex.nHeight := pindex];
        pindex := pindex.pprev;
        h := h - 1;
      }
      FilledEnd(tip, was, wasTip, vChain, h);
    }

    function Tip(): BlockIndex?
      reads this
    {
      mChainTip
    }

    function Height(): int
      reads this
    {
      if mChainTip == null then -1 else mChainTip.nHeight
    }

    // operator[]
    function At(nHeight: int): BlockIndex?
      reads this
    {
      if nHeight < 0 || nHeight >= |vChain| then null else vChain[nHeight]
    }

    method Genesis() returns (r: BlockIndex?)
      requires Valid()
      ensures r == if mChainTip == null then null else Ancestor(mChainTip, 0)
    {
      if |vChain| > 0 {
        PathAt(mChainTip, 0);
        r := vChain[0];
      } else {
        r := null;
      }
    }

    lemma AtIs(h: int)
      requires Valid()
      ensures At(h) == if mChainTip == null then null else Ancestor(mChainTip, h)
    {
      if mChainTip != null && 0 <= h <= mChainTip.nHeight { PathAt(mChainTip, h); }
    }

    method Contains(pindex: BlockIndex) returns (r: bool)
      requires Valid()
      ensures r <==> Active(pindex)
    {
      AtIs(pindex.nHeight);
      r := At(pindex.nHeight) == pindex;
    }

    // The child of an active block on the chain; null for the tip and off the chain.
    method Next(pindex: BlockIndex) returns (r: BlockIndex?)
      requires Valid()
      ensures r != null <==> Active(pindex) && pindex != mChainTip
      ensures r != null ==> Active(r) && r.pprev == pindex
    {
      var c := Contains(pindex);
      if !c {
        return null;
      }
      AtIs(pindex.nHeight + 1);
      if pindex.nHeight < mChainTip.nHeight {
        Down(mChainTip, pindex.nHeight + 1);
        AncestorAt(mChainTip, pindex.nHeight + 1);
      }
      r := At(pindex.nHeight + 1);
    }

    // The highest active block that is the argument or an ancestor of it.
    method FindFork(pindex0: BlockIndex?, ghost blocks: set<BlockIndex>) returns (r: BlockIndex?)
      requires Valid() && Tree(blocks) && (pindex0 != null ==> pindex0 in blocks)
      ensures pindex0 == null || mChainTip == null ==> r == null
      ensures pindex0 != null && mChainTip != null ==> Meet(pindex0, mChainTip, r)
    {
      if pindex0 == null {
        return null;
      }
      var pindex: BlockIndex? := pindex0;
      if pindex.nHeight > Height() {
        if mChainTip != null { AncestorAt(pindex0, Height()); }
        pindex := pindex.GetAncestor(Height(), blocks);
      }
      r := WalkToChain(pindex0, pindex);
    }

    // The loop of FindFork, from an ancestor no higher than the tip.
    method WalkToChain(b: BlockIndex, start: BlockIndex?) returns (r: BlockIndex?)
      requires Valid() && Linked(b)
      requires if mChainTip == null then start == null
               else start != null && start.nHeight <= b.nHeight && start == Ancestor(b, start.nHeight) &&
                    start.nHeight <= mChainTip.nHeight && ApartAbove(b, mChainTip, start.nHeight)
      ensures mChainTip == null ==> r == null
      ensures mChainTip != null ==> Meet(b, mChainTip, r)
    {
      r := start;
      while r != null && At(r.nHeight) != r
        invariant r != null ==> mChainTip != null && r.nHeight <= b.nHeight && r.nHeight <= mChainTip.nHeight
        invariant r != null ==> r == Ancestor(b, r.nHeight)
        invariant mChainTip != null ==> ApartAbove(b, mChainTip, if r == null then -1 else r.nHeight)
        decreases if r == null then -1 else r.nHeight
      {
        AtIs(r.nHeight);
        WalkDown(b, mChainTip, r);
        r := r.pprev;
      }
      if r != null {
        AtIs(r.nHeight);
        MeetsAt(b, mChainTip, r);
      }
    }

    // A step of GetLocator: through the vector on the chain, through the tree off it.
    method StepBack(pindex: BlockIndex, nHeight: nat, ghost blocks: set<BlockIndex>) returns (r: BlockIndex?)
      requires Valid() && Tree(blocks) && pindex in blocks && nHeight <= pindex.nHeight
      ensures r == Ancestor(pindex, nHeight)
    {
      var c := Contains(pindex);
      if c {
        AtIs(nHeight);
        AncestorTrans(mChainTip, pindex.nHeight, nHeight);
        r := At(nHeight);
      } else {
        r := pindex.GetAncestor(nHeight, blocks);
      }
    }

    method GetLocator(pindex0: BlockIndex?, ghost blocks: set<BlockIndex>) returns (vHave: seq<nat>)
      requires Valid() && Tree(blocks) && (pindex0 != null ==> pindex0 in blocks) && (mChainTip != null ==> mChainTip in blocks)
      ensures pindex0 == null && mChainTip == null ==> vHave == []
      ensures pindex0 != null ==> vHave == Locator(pindex0, pindex0.nHeight, 1, 0)
      ensures pindex0 == null && mChainTip != null ==> vHave == Locator(mChainTip, mChainTip.nHeight, 1, 0)
    {
      var start := if pindex0 == null then Tip() else pindex0;
      if start == null {
        return [];
      }
      vHave := LocatorFrom(start, blocks);
    }

    // The loop of GetLocator, which ends with the genesis block.
    method LocatorFrom(start: BlockIndex, ghost blocks: set<BlockIndex>) returns (vHave: seq<nat>)
      requires Valid() && Tree(blocks) && start in blocks
      ensures vHave == Locator(start, start.nHeight, 1, 0)
    {
      var nStep: nat := 1;
      var pindex := start;
      vHave := [];
      while pindex.nHeight != 0
        invariant pindex != null && Walked(blocks, start, pindex, pindex.nHeight)
        invariant Locating(start, vHave, pindex.nHeight, nStep)
        decreases pindex.nHeight
      {
        LocatingStep(start, vHave, pindex.nHeight, nStep);
        vHave := vHave + [pindex.hash];
        var nHeight := StepDown(pindex.nHeight, nStep);
        Jumps(blocks, start, pindex, nHeight);
        pindex := StepBack(pindex, nHeight, blocks);
        if |vHave| > 10 {
          nStep := nStep * 2;
        }
      }
      LocatingStep(start, vHave, 0, nStep);
      vHave := vHave + [pindex.hash];
    }
  }

  function StepDown(h: nat, nStep: nat): nat {
    if h > nStep then h - nStep else 0
  }

  // What is listed and what is still to come make up the locator.
  ghost predicate Locating(start: BlockIndex, vHave: seq<nat>, h: nat, nStep: nat) {
    && Linked(start) && h <= start.nHeight && nStep > 0
    && Locator(start, start.nHeight, 1, 0) == vHave + Locator(start, h, nStep, |vHave|)
  }

  lemma LocatingStep(start: BlockIndex, vHave: seq<nat>, h: nat, nStep: nat)
    requires Locating(start, vHave, h, nStep)
    ensures Ancestor(start, h) != null
    ensures h == 0 ==> Locator(start, start.nHeight, 1, 0) == vHave + [Ancestor(start, h).hash]
    ensures h > 0 ==> Locating(start, vHave + [Ancestor(start, h).hash], StepDown(h, nStep),
                               if |vHave| + 1 > 10 then 2 * nStep else nStep)
  {
    LocatorUnfolds(start, h, nStep, |vHave|);
    if h > 0 {
      Push(vHave, Ancestor(start, h).hash,
           Locator(start, StepDown(h, nStep), if |vHave| + 1 > 10 then 2 * nStep else nStep, |vHave| + 1));
    }
  }

  lemma Push(a: seq<nat>, x: nat, b: seq<nat>)
    ensures a + ([x] + b) == a + [x] + b
  {
  }

  // One step of the walk, from a block that is not on the other branch.
  lemma WalkDown(b: BlockIndex, tip: BlockIndex, r: BlockIndex)
    requires Linked(b) && r.nHeight <= b.nHeight && r.nHeight <= tip.nHeight && r == Ancestor(b, r.nHeight)
    requires r != Ancestor(tip, r.nHeight) && ApartAbove(b, tip, r.nHeight)
    ensures ApartAbove(b, tip, r.nHeight - 1)
    ensures r.pprev == null ==> r.nHeight == 0
    ensures r.pprev != null ==> r.pprev.nHeight == r.nHeight - 1 && r.pprev == Ancestor(b, r.nHeight - 1)
  {
    Down(b, r.nHeight);
    if r.nHeight > 0 { AncestorAt(b, r.nHeight - 1); }
  }

  lemma LocatorUnfolds(b: BlockIndex, h: nat, nStep: nat, have: nat)
    requires Linked(b) && h <= b.nHeight && nStep > 0
    ensures Ancestor(b, h) != null
    ensures Locator(b, h, nStep, have) == [Ancestor(b, h).hash] +
              (if h == 0 then []
               else Locator(b, StepDown(h, nStep), if have + 1 > 10 then 2 * nStep else nStep, have + 1))
  {
    AncestorAt(b, h);
    HeightsBounded(h, nStep, have);
    var hs := LocatorHeights(h, nStep, have);
    if h != 0 {
      assert hs[1..] == LocatorHeights(StepDown(h, nStep), if have + 1 > 10 then 2 * nStep else nStep, have + 1);
    } else {
      assert hs[1..] == [];
    }
  }
}
