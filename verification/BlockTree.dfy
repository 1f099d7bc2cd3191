// The tree of block headers and its skip list (src/chain.cpp, class CBlockIndex of
// src/chain.h): the walk that follows skip pointers against the walk that follows
// parents.

module BlockTree {
  import opened Arithmetic

  /******* Skip heights *******/

  function InvertLowestOne(n: nat): nat {
    if n == 0 then 0 else And(n, n - 1)          // 0 & -1 is 0
  }

  function GetSkipHeight(height: int): nat {
    if height < 2 then 0
    else if height % 2 == 1 then InvertLowestOne(InvertLowestOne(height - 1)) + 1
    else InvertLowestOne(height)
  }

  // n is an odd multiple of a power of two, and loses just that power.
  lemma {:induction false} InvertLowestOneClears(n: nat) returns (q: nat, k: nat)
    requires n > 0
    ensures n == (2 * q + 1) * Pow2(k) && InvertLowestOne(n) == 2 * q * Pow2(k) == n - Pow2(k)
  {
    if n % 2 == 1 {
      q, k := n / 2, 0;
      AndSelf(n / 2);
      assert (n - 1) / 2 == n / 2;
    } else {
      q, k := InvertLowestOneClears(n / 2);
      assert (n - 1) / 2 == n / 2 - 1 && (n - 1) % 2 == 1;
      DoubleProduct(2 * q + 1, Pow2(k));
      DoubleProduct(2 * q, Pow2(k));
      k := k + 1;
    }
  }

  lemma DoubleProduct(a: int, p: int)
    ensures a * (2 * p) == 2 * (a * p)
  {
  }

  lemma InvertLowestOneLess(n: nat)
    requires n > 0
    ensures InvertLowestOne(n) < n
  {
    var _, _ := InvertLowestOneClears(n);
  }

  // Jumping always goes back.
  lemma SkipsBack(height: nat)
    requires height > 0
    ensures GetSkipHeight(height) < height
  {
    if height >= 2 {
      if height % 2 == 1 {
        InvertLowestOneLess(height - 1);
        var n := InvertLowestOne(height - 1);
        if n > 0 { InvertLowestOneLess(n); }
      } else {
        InvertLowestOneLess(height);
      }
    }
  }

  /******* Ancestry *******/

  // Every block below b has its parent one lower, down to a block at height 0.
  ghost predicate Linked(b: BlockIndex)
    decreases b.nHeight
  {
    if b.pprev == null then b.nHeight == 0
    else b.nHeight == b.pprev.nHeight + 1 && Linked(b.pprev)
  }

  // n steps to the parent.
  ghost function Back(b: BlockIndex?, n: nat): BlockIndex? {
    if n == 0 || b == null then b else Back(b.pprev, n - 1)
  }

  ghost function Ancestor(b: BlockIndex, height: int): BlockIndex? {
    if 0 <= height <= b.nHeight then Back(b, b.nHeight - height) else null
  }

  lemma {:induction false} BackLinked(b: BlockIndex, n: nat)
    requires Linked(b) && n <= b.nHeight
    ensures var a := Back(b, n); a != null && Linked(a) && a.nHeight == b.nHeight - n
    decreases n
  {
    if n > 0 { BackLinked(b.pprev, n - 1); }
  }

  lemma {:induction false} BackBack(b: BlockIndex?, n: nat, k: nat)
    ensures Back(Back(b, n), k) == Back(b, n + k)
  {
    if n > 0 && b != null { BackBack(b.pprev, n - 1, k); }
  }

  lemma AncestorAt(b: BlockIndex, h: nat)
    requires Linked(b) && h <= b.nHeight
    ensures var a := Ancestor(b, h); a != null && Linked(a) && a.nHeight == h
  {
    BackLinked(b, b.nHeight - h);
  }

  // An ancestor's ancestors are the block's own.
  lemma AncestorTrans(b: BlockIndex, h: nat, k: nat)
    requires Linked(b) && k <= h <= b.nHeight
    ensures Ancestor(b, h) != null && Ancestor(Ancestor(b, h), k) == Ancestor(b, k)
  {
    AncestorAt(b, h);
    BackBack(b, b.nHeight - h, h - k);
  }

  // The skip pointers of a set of blocks that holds its blocks' parents: each is
  // null or leads where BuildSkip makes it lead.
  ghost predicate SkipOk(b: BlockIndex)
    reads b
  {
    b.pskip != null ==> b.pprev != null && b.pskip == Ancestor(b, GetSkipHeight(b.nHeight))
  }

  ghost predicate Tree(blocks: set<BlockIndex>)
    reads blocks
  {
    forall b | b in blocks :: Linked(b) && (b.pprev != null ==> b.pprev in blocks) && SkipOk(b)
  }

  lemma {:induction false} BackInTree(blocks: set<BlockIndex>, b: BlockIndex, n: nat)
    requires Tree(blocks) && b in blocks && n <= b.nHeight
    ensures Back(b, n) in blocks
    decreases n
  {
    if n > 0 { BackInTree(blocks, b.pprev, n - 1); }
  }

  lemma AncestorInTree(blocks: set<BlockIndex>, b: BlockIndex, h: nat)
    requires Tree(blocks) && b in blocks && h <= b.nHeight
    ensures Ancestor(b, h) in blocks
  {
    BackInTree(blocks, b, b.nHeight - h);
  }

  class BlockIndex {
    const pprev: BlockIndex?
    const nHeight: nat
    const hash: nat
    var pskip: BlockIndex?

    constructor (pprev: BlockIndex?, nHeight: nat, hash: nat)
      ensures this.pprev == pprev && this.nHeight == nHeight && this.hash == hash && pskip == null
    {
      this.pprev, this.nHeight, this.hash, this.pskip := pprev, nHeight, hash, null;
    }

    // The walk over skip pointers arrives where the walk over parents does.
    method GetAncestor(height: int, ghost blocks: set<BlockIndex>) returns (r: BlockIndex?)
      requires Tree(blocks) && this in blocks
      ensures r == Ancestor(this, height)
    {
      if height > nHeight || height < 0 {
        return null;
      }
      var pindexWalk := this;
      var heightWalk := nHeight;
      while heightWalk > height
        invariant height <= heightWalk <= nHeight && pindexWalk != null
        invariant Walked(blocks, this, pindexWalk, heightWalk)
      {
        var heightSkip := GetSkipHeight(heightWalk);
        var heightSkipPrev := GetSkipHeight(heightWalk - 1);
        SkipsBack(heightWalk);
        if pindexWalk.pskip != null &&
           (heightSkip == height || (heightSkip > height && !(heightSkipPrev < heightSkip - 2 && heightSkipPrev >= height)))
        {
          WalkSkip(blocks, this, pindexWalk);
          pindexWalk := pindexWalk.pskip;
          heightWalk := heightSkip;
        } else {
          WalkPrev(blocks, this, pindexWalk);
          assert pindexWalk.pprev != null;
          pindexWalk := pindexWalk.pprev;
          heightWalk := heightWalk - 1;
        }
      }
      return pindexWalk;
    }

    // A new block is given its skip pointer and joins the tree.
    method BuildSkip(ghost blocks: set<BlockIndex>)
      requires Tree(blocks - {this}) && Linked(this)
      requires if pprev != null then pprev in blocks else pskip == null
      modifies this`pskip
      ensures pprev == null ==> pskip == null
      ensures pprev != null ==> pskip == Ancestor(this, GetSkipHeight(nHeight)) && pskip != null && pskip.nHeight < nHeight
      ensures Tree(blocks + {this})
    {
      if pprev != null {
        SkipsBack(nHeight);
        var a := pprev.GetAncestor(GetSkipHeight(nHeight), blocks - {this});
        ParentAncestor(this, GetSkipHeight(nHeight));
        AncestorAt(this, GetSkipHeight(nHeight));
        pskip := a;
      }
    }
  }

  lemma ParentAncestor(b: BlockIndex, h: nat)
    requires Linked(b) && b.pprev != null && h < b.nHeight
    ensures Ancestor(b, h) == Ancestor(b.pprev, h)
  {
  }

  // From the ancestor `at` of b one may go on to any height below.
  lemma Jumps(blocks: set<BlockIndex>, b: BlockIndex, at: BlockIndex, h: nat)
    requires Tree(blocks) && b in blocks && at.nHeight <= b.nHeight && at == Ancestor(b, at.nHeight) && h <= at.nHeight
    ensures Ancestor(at, h) == Ancestor(b, h) && Ancestor(b, h) in blocks && Ancestor(b, h).nHeight == h
  {
    AncestorTrans(b, at.nHeight, h);
    AncestorInTree(blocks, b, h);
    AncestorAt(b, h);
  }

  ghost predicate Walked(blocks: set<BlockIndex>, b: BlockIndex, at: BlockIndex, h: nat) {
    at in blocks && at.nHeight == h <= b.nHeight && at == Ancestor(b, h)
  }

  // Both ways on from a block lead to an ancestor.
  lemma WalkSkip(blocks: set<BlockIndex>, b: BlockIndex, at: BlockIndex)
    requires Tree(blocks) && b in blocks && Walked(blocks, b, at, at.nHeight) && at.pskip != null && at.nHeight > 0
    ensures Walked(blocks, b, at.pskip, GetSkipHeight(at.nHeight))
  {
    SkipsBack(at.nHeight);
    Jumps(blocks, b, at, GetSkipHeight(at.nHeight));
  }

  lemma WalkPrev(blocks: set<BlockIndex>, b: BlockIndex, at: BlockIndex)
    requires Tree(blocks) && b in blocks && Walked(blocks, b, at, at.nHeight) && at.nHeight > 0
    ensures at.pprev != null && Walked(blocks, b, at.pprev, at.nHeight - 1)
  {
    Jumps(blocks, b, at, at.nHeight - 1);
    assert Back(at, 1) == Back(at.pprev, 0);
  }

  /******* Where two branches meet *******/

  // r is the highest common ancestor of a and b: exactly the heights up to its own
  // have the same block on both branches, and without one no height has.
  ghost predicate Meet(a: BlockIndex, b: BlockIndex, r: BlockIndex?) {
    && (r != null ==> r.nHeight <= a.nHeight && r.nHeight <= b.nHeight && r == Ancestor(a, r.nHeight) == Ancestor(b, r.nHeight))
    && forall h: nat | h <= a.nHeight && h <= b.nHeight ::
         Ancestor(a, h) == Ancestor(b, h) <==> r != null && h <= r.nHeight
  }

  // Above height h the branches differ.
  ghost predicate ApartAbove(a: BlockIndex, b: BlockIndex, h: int) {
    forall k: nat | h < k <= a.nHeight && k <= b.nHeight :: Ancestor(a, k) != Ancestor(b, k)
  }

  lemma MeetsAt(a: BlockIndex, b: BlockIndex, r: BlockIndex)
    requires Linked(a) && Linked(b) && r.nHeight <= a.nHeight && r.nHeight <= b.nHeight
    requires r == Ancestor(a, r.nHeight) == Ancestor(b, r.nHeight) && ApartAbove(a, b, r.nHeight)
    ensures Meet(a, b, r)
  {
    forall h: nat | h <= r.nHeight ensures Ancestor(a, h) == Ancestor(b, h) {
      AncestorTrans(a, r.nHeight, h);
      AncestorTrans(b, r.nHeight, h);
    }
  }

  // Two blocks whose lowest blocks are the same meet; otherwise they never do.
  lemma MeetIffSameRoot(a: BlockIndex, b: BlockIndex, r: BlockIndex?)
    requires Linked(a) && Linked(b) && Meet(a, b, r)
    ensures r != null <==> Ancestor(a, 0) == Ancestor(b, 0)
  {
  }

  method LastCommonAncestor(pa0: BlockIndex, pb0: BlockIndex, ghost blocks: set<BlockIndex>) returns (r: BlockIndex?)
    requires Tree(blocks) && pa0 in blocks && pb0 in blocks
    ensures Meet(pa0, pb0, r)
  {
    var pa: BlockIndex?, pb: BlockIndex? := pa0, pb0;
    if pa.nHeight > pb.nHeight {
      pa := pa.GetAncestor(pb.nHeight, blocks);
    } else if pb.nHeight > pa.nHeight {
      pb := pb.GetAncestor(pa.nHeight, blocks);
    }
    ghost var h: int := if pa0.nHeight < pb0.nHeight then pa0.nHeight else pb0.nHeight;
    while pa != pb && pa != null && pb != null
      invariant -1 <= h <= pa0.nHeight && h <= pb0.nHeight && ApartAbove(pa0, pb0, h)
      invariant pa == AncestorOrNull(pa0, h) && pb == AncestorOrNull(pb0, h)
      decreases h
    {
      Down(pa0, h);
      Down(pb0, h);
      pa := pa.pprev;
      pb := pb.pprev;
      h := h - 1;
    }
    MeetEnd(pa0, pb0, h);
    assert pa == pb;
    return pa;
  }

  // The walk may go below height 0.
  ghost function AncestorOrNull(b: BlockIndex, h: int): BlockIndex? {
    if h < 0 then null else Ancestor(b, h)
  }

  lemma MeetEnd(a: BlockIndex, b: BlockIndex, h: int)
    requires Linked(a) && Linked(b) && -1 <= h <= a.nHeight && h <= b.nHeight && ApartAbove(a, b, h)
    requires var x, y := AncestorOrNull(a, h), AncestorOrNull(b, h); x == y || x == null || y == null
    ensures AncestorOrNull(a, h) == AncestorOrNull(b, h) && Meet(a, b, AncestorOrNull(a, h))
  {
    if h >= 0 {
      AncestorAt(a, h);
      AncestorAt(b, h);
      MeetsAt(a, b, Ancestor(a, h));
    }
  }

  lemma Down(b: BlockIndex, h: nat)
    requires Linked(b) && h <= b.nHeight
    ensures var a := Ancestor(b, h); a != null && (h == 0 <==> a.pprev == null)
    ensures Ancestor(b, h).pprev == AncestorOrNull(b, h - 1)
  {
    AncestorAt(b, h);
    if h > 0 {
      AncestorTrans(b, h, h - 1);
      assert Back(Ancestor(b, h), 1) == Back(Ancestor(b, h).pprev, 0);
    }
  }
}
