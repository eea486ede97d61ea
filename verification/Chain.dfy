/**
 The tree of block index entries with its skip pointers, and the active chain through it. A block's
 parent and height are fixed when it enters the tree; its skip pointer is set afterwards.
 */
module Chain {
  import opened Limbs
  import opened SkipList

  type Hash(==, !new, 0)

  // ---------- the tree ----------

  class BlockIndex {
    const hash: Hash
    const pprev: BlockIndex?
    const nHeight: nat
    var pskip: BlockIndex?

    /** Heights count the parents back to the genesis block. */
    ghost predicate Linked()
      decreases nHeight
    {
      if pprev == null then nHeight == 0 else nHeight > 0 && pprev.nHeight == nHeight - 1 && pprev.Linked()
    }

    /** The block at height h on the way to the genesis block, found by walking from parent to parent. */
    ghost function Ancestor(h: nat): (a: BlockIndex)
      requires Linked() && h <= nHeight
      ensures a.Linked() && a.nHeight == h
      decreases nHeight
    {
      if h == nHeight then this else pprev.Ancestor(h)
    }

    constructor (hash: Hash, pprev: BlockIndex?)
      requires pprev != null ==> pprev.Linked()
      ensures Linked() && this.pprev == pprev && this.hash == hash && pskip == null
    {
      this.hash, this.pprev, this.pskip := hash, pprev, null;
      this.nHeight := if pprev == null then 0 else pprev.nHeight + 1;
    }

    lemma {:induction false} AncestorOfAncestor(s: nat, h: nat)
      requires Linked() && h <= s <= nHeight
      ensures Ancestor(s).Ancestor(h) == Ancestor(h)
      decreases nHeight
    {
      if s < nHeight {
        pprev.AncestorOfAncestor(s, h);
      }
    }
  }

  /** A set of blocks with their parents, where skip pointers lead where they should. */
  ghost predicate Tree(tree: set<BlockIndex>)
    reads tree
  {
    forall b :: b in tree ==>
      && b.Linked() && (b.pprev != null ==> b.pprev in tree)
      && (b.pskip != null ==>
            && b.pprev != null && GetSkipHeight(b.nHeight) < b.nHeight
            && b.pskip == b.Ancestor(GetSkipHeight(b.nHeight)))
  }

  lemma TreeParent(tree: set<BlockIndex>, b: BlockIndex)
    requires Tree(tree) && b in tree
    ensures b.Linked() && (b.pprev != null ==> b.pprev in tree)
  {
  }

  lemma {:induction false} AncestorInTree(tree: set<BlockIndex>, b: BlockIndex, h: nat)
    requires Tree(tree) && b in tree && h <= b.nHeight
    ensures b.Ancestor(h) in tree
    decreases b.nHeight
  {
    if h < b.nHeight {
      AncestorInTree(tree, b.pprev, h);
    }
  }

  /** Every block but the genesis block has its skip pointer. */
  ghost predicate Skips(tree: set<BlockIndex>)
    reads tree
  {
    forall b :: b in tree && b.pprev != null ==> b.pskip != null
  }

  lemma SelfAncestor(b: BlockIndex)
    requires b.Linked()
    ensures b.Ancestor(b.nHeight) == b
  {
  }

  /** Both pointers of a block lead towards the ancestor looked for. */
  lemma WalkStep(tree: set<BlockIndex>, walk: BlockIndex, height: nat)
    requires Tree(tree) && walk in tree && walk.Linked() && height < walk.nHeight
    ensures walk.pprev != null && walk.pprev in tree && walk.pprev.Linked() && walk.pprev.nHeight == walk.nHeight - 1
    ensures walk.pprev.Ancestor(height) == walk.Ancestor(height)
    ensures walk.pskip != null && Jumps(walk.nHeight, height) ==>
              && walk.pskip in tree && walk.pskip.Linked() && height <= walk.pskip.nHeight < walk.nHeight
              && walk.pskip.nHeight == GetSkipHeight(walk.nHeight)
              && walk.pskip.Ancestor(height) == walk.Ancestor(height)
    ensures Steps(walk.nHeight, height)
            == 1 + Steps(if Jumps(walk.nHeight, height) then GetSkipHeight(walk.nHeight) else walk.nHeight - 1, height)
  {
    hide Jumps;
    hide GetSkipHeight;
    if Jumps(walk.nHeight, height) {
      Skipped(walk.nHeight, height);
      hide Steps;
      if walk.pskip != null {
        AncestorInTree(tree, walk, GetSkipHeight(walk.nHeight));
        walk.AncestorOfAncestor(GetSkipHeight(walk.nHeight), height);
      }
    } else {
      SteppedDown(walk.nHeight, height);
    }
  }

  /** The ancestor at a height, found by way of the skip pointers, and the number of steps it took. */
  method GetAncestor(b: BlockIndex, height: int, ghost tree: set<BlockIndex>) returns (r: BlockIndex?, ghost steps: nat)
    requires Tree(tree) && b in tree
    ensures r == null <==> height < 0 || height > b.nHeight
    ensures r != null ==> r in tree && r == b.Ancestor(height)
    ensures r != null && Skips(tree) ==> steps == Steps(b.nHeight, height)
  {
    hide Tree;
    hide Steps;
    hide Jumps;
    hide GetSkipHeight;
    hide BlockIndex.Linked;
    hide BlockIndex.Ancestor;
    if height > b.nHeight || height < 0 { return null, 0; }
    steps := 0;
    TreeParent(tree, b);
    var walk, heightWalk := b, b.nHeight;
    while heightWalk > height
      invariant walk in tree && walk.Linked() && walk.nHeight == heightWalk >= height
      invariant walk.Ancestor(height) == b.Ancestor(height)
      invariant Skips(tree) ==> steps + Steps(heightWalk, height) == Steps(b.nHeight, height)
      decreases heightWalk
    {
      WalkStep(tree, walk, height);
      steps := steps + 1;
      if walk.pskip != null && Jumps(heightWalk, height) {
        walk, heightWalk := walk.pskip, GetSkipHeight(heightWalk);
      } else {
        walk, heightWalk := walk.pprev, heightWalk - 1;
      }
    }
    r := walk;
    Arrived(height);
    SelfAncestor(walk);
  }

  /** Set the skip pointer of a block. */
  method BuildSkip(b: BlockIndex, ghost tree: set<BlockIndex>)
    requires Tree(tree) && b in tree
    modifies b`pskip
    ensures Tree(tree)
    ensures b.pprev != null ==> GetSkipHeight(b.nHeight) < b.nHeight && b.pskip == b.Ancestor(GetSkipHeight(b.nHeight))
    ensures b.pprev == null ==> b.pskip == old(b.pskip)
  {
    if b.pprev != null {
      SkipsBack(b.nHeight);
      ghost var steps;
      b.pskip, steps := GetAncestor(b.pprev, GetSkipHeight(b.nHeight), tree);
    }
  }

  // ---------- the active chain ----------

  /** Entry i is a block of height i whose parent is entry i - 1. */
  ghost predicate Entry(s: seq<BlockIndex?>, i: int)
    requires 0 <= i < |s|
  {
    s[i] != null && s[i].Linked() && s[i].nHeight == i && (i > 0 ==> s[i].pprev == s[i - 1])
  }

  ghost predicate Stacked(s: seq<BlockIndex?>) {
    forall i :: 0 <= i < |s| ==> Entry(s, i)
  }

  class ActiveChain {
    var vChain: seq<BlockIndex?>

    ghost predicate Valid()
      reads this
    {
      Stacked(vChain)
    }

    /** Entry i is the tip's ancestor at height i. */
    lemma {:induction false} EntriesAreAncestors(i: nat, j: nat)
      requires Valid() && i <= j < |vChain|
      ensures vChain[j] != null && vChain[j].Linked() && i <= vChain[j].nHeight && vChain[i] == vChain[j].Ancestor(i)
      decreases j
    {
      assert Entry(vChain, j);
      if i < j {
        EntriesAreAncestors(i, j - 1);
      }
    }

    function At(nHeight: int): BlockIndex?
      reads this
    {
      if nHeight < 0 || nHeight >= |vChain| then null else vChain[nHeight]
    }

    function Height(): int
      reads this
    {
      |vChain| - 1
    }

    function Tip(): BlockIndex?
      reads this
    {
      if |vChain| > 0 then vChain[|vChain| - 1] else null
    }

    predicate Contains(b: BlockIndex)
      reads this
    {
      At(b.nHeight) == b
    }

    method SetTip(pindex: BlockIndex?)
      requires Valid() && (pindex != null ==> pindex.Linked())
      modifies this
      ensures Valid() && Tip() == pindex
      ensures pindex == null ==> vChain == []
      ensures pindex != null ==>
                && |vChain| == pindex.nHeight + 1
                && forall i :: 0 <= i <= pindex.nHeight ==> vChain[i] == pindex.Ancestor(i)
    {
      if pindex == null {
        vChain := [];
        return;
      }
      ghost var was := vChain;
      var size := pindex.nHeight + 1;
      if size <= |vChain| {
        vChain := vChain[..size];
      } else {
        vChain := vChain + seq(size - |vChain|, _ => null);
      }
      var walk: BlockIndex? := pindex;
      while walk != null && vChain[walk.nHeight] != walk
        invariant |vChain| == size
        invariant walk != null ==> walk.Linked() && walk.nHeight < size && walk == pindex.Ancestor(walk.nHeight)
        invariant forall i :: 0 <= i < size && (walk == null || walk.nHeight < i) ==> vChain[i] == pindex.Ancestor(i)
        invariant walk != null ==>
                    forall i :: 0 <= i <= walk.nHeight ==> vChain[i] == if i < |was| then was[i] else null
        decreases if walk == null then 0 else walk.nHeight + 1
      {
        ParentIsAncestor(pindex, walk);
        vChain := vChain[walk.nHeight := walk];
        walk := walk.pprev;
      }
      if walk != null {
        BelowStop(was, walk, pindex);
      }
      ChainOfAncestors(vChain, pindex);
    }

    /** The ancestor at height h, if there is one, is not in the chain. */
    ghost predicate OffChain(b: BlockIndex, h: nat)
      reads this
    {
      b.Linked() && h <= b.nHeight ==> !Contains(b.Ancestor(h))
    }

    /** The last block of the chain that a block descends from. */
    method FindFork(pindex: BlockIndex?, ghost tree: set<BlockIndex>) returns (r: BlockIndex?)
      requires Valid() && Tree(tree) && (pindex != null ==> pindex in tree)
      ensures r != null ==>
                pindex != null && r.nHeight <= pindex.nHeight && r == pindex.Ancestor(r.nHeight) && Contains(r)
      ensures pindex != null ==> forall h: nat :: r == null || h > r.nHeight ==> OffChain(pindex, h)
    {
      hide Tree;
      hide Stacked;
      if pindex == null { return null; }
      TreeParent(tree, pindex);
      r := pindex;
      if pindex.nHeight > Height() {
        ghost var steps;
        r, steps := GetAncestor(pindex, Height(), tree);
      }
      while r != null && !Contains(r)
        invariant r != null ==> r in tree && r.nHeight <= pindex.nHeight && r == pindex.Ancestor(r.nHeight)
        invariant forall h: nat :: r == null || h > r.nHeight ==> OffChain(pindex, h)
        decreases if r == null then 0 else r.nHeight + 1
      {
        TreeParent(tree, r);
        ParentIsAncestor(pindex, r);
        r := r.pprev;
      }
    }

    /** Hashes of blocks from a block (by default the tip) back to the genesis block, in ever larger steps. */
    method GetLocator(pindex: BlockIndex?, ghost tree: set<BlockIndex>) returns (vHave: seq<Hash>)
      requires Valid() && Tree(tree) && (pindex != null ==> pindex in tree) && (Tip() != null ==> Tip() in tree)
      ensures var start := if pindex == null then Tip() else pindex;
              if start == null then vHave == [] else Locates(vHave, start) && ShortLocator(|vHave|, start.nHeight)
    {
      hide Tree;
      hide StepAt;
      hide Drop;
      hide Stacked;
      vHave := [];
      var nStep := 1;
      var walk := if pindex == null then Tip() else pindex;
      if walk == null { return; }
      ghost var start := walk;
      StartOf(start, tree);
      while true
        invariant walk != null && walk in tree && walk == start.Ancestor(LocatorHeight(start.nHeight, |vHave|))
        invariant forall i :: 0 <= i < |vHave| ==> Located(vHave, start, i) && LocatorHeight(start.nHeight, i) > 0
        invariant nStep == StepAt(|vHave|)
        decreases walk.nHeight
      {
        NextStep(|vHave|);
        vHave := vHave + [walk.hash];
        if walk.nHeight == 0 { break; }
        var nHeight := if walk.nHeight - nStep > 0 then walk.nHeight - nStep else 0;
        start.AncestorOfAncestor(walk.nHeight, nHeight);
        walk := WalkBack(walk, nHeight, tree);
        if |vHave| > 10 {
          nStep := nStep * 2;
        }
      }
      LocatorBound(|vHave|, start.nHeight);
    }

    /** An ancestor, by the chain's index if the block is in the chain. */
    method WalkBack(b: BlockIndex, nHeight: nat, ghost tree: set<BlockIndex>) returns (r: BlockIndex)
      requires Valid() && Tree(tree) && b in tree && b.Linked() && nHeight <= b.nHeight
      ensures r in tree && r == b.Ancestor(nHeight)
    {
      AncestorInTree(tree, b, nHeight);
      if Contains(b) {
        EntriesAreAncestors(nHeight, b.nHeight);
        r := At(nHeight);
      } else {
        ghost var steps;
        r, steps := GetAncestor(b, nHeight, tree);
      }
    }
  }

  lemma ParentIsAncestor(b: BlockIndex, a: BlockIndex)
    requires b.Linked() && a.nHeight <= b.nHeight && a == b.Ancestor(a.nHeight)
    ensures a.pprev != null ==>
              a.nHeight > 0 && a.pprev.nHeight == a.nHeight - 1 && a.pprev == b.Ancestor(a.nHeight - 1)
    ensures a.pprev == null ==> a.nHeight == 0
  {
    if a.pprev != null {
      b.AncestorOfAncestor(a.nHeight, a.nHeight - 1);
    }
  }

  /** Where the new chain meets the old one, the entries below are right already. */
  lemma {:induction false} BelowStop(was: seq<BlockIndex?>, walk: BlockIndex, tip: BlockIndex)
    requires tip.Linked() && walk.nHeight <= tip.nHeight && walk == tip.Ancestor(walk.nHeight)
    requires walk.nHeight < |was| && was[walk.nHeight] == walk && Stacked(was)
    ensures forall i :: 0 <= i <= walk.nHeight ==> was[i] == tip.Ancestor(i)
    decreases walk.nHeight
  {
    if walk.nHeight > 0 {
      assert Entry(was, walk.nHeight);
      ParentIsAncestor(tip, walk);
      BelowStop(was, walk.pprev, tip);
    }
  }

  lemma ChainOfAncestors(s: seq<BlockIndex?>, tip: BlockIndex)
    requires tip.Linked() && |s| == tip.nHeight + 1 && forall i :: 0 <= i < |s| ==> s[i] == tip.Ancestor(i)
    ensures Stacked(s)
  {
    forall i | 0 <= i < |s|
      ensures Entry(s, i)
    {
      ParentIsAncestor(tip, tip.Ancestor(i));
    }
  }

  // ---------- locators ----------

  /** The step after n blocks. */
  ghost function StepAt(n: nat): nat {
    if n <= 10 then 1 else Two(n - 10)
  }

  /** How far n steps lead down. */
  ghost function Drop(n: nat): nat {
    if n <= 11 then n else 9 + Two(n - 10)
  }

  /** The height of entry i of a locator that starts at height h. */
  ghost function LocatorHeight(h: nat, i: nat): nat {
    if h > Drop(i) then h - Drop(i) else 0
  }

  ghost predicate Located(vHave: seq<Hash>, start: BlockIndex, i: nat)
    requires i < |vHave| && start.Linked()
  {
    vHave[i] == start.Ancestor(LocatorHeight(start.nHeight, i)).hash
  }

  /** Every entry is the hash of the ancestor its place calls for; the last, and no other, is the genesis block's. */
  ghost predicate Locates(vHave: seq<Hash>, start: BlockIndex) {
    && start.Linked() && |vHave| > 0
    && forall i :: 0 <= i < |vHave| ==>
         Located(vHave, start, i) && (LocatorHeight(start.nHeight, i) == 0 <==> i == |vHave| - 1)
  }

  /** n <= 12 + log2(height + 1) */
  ghost predicate ShortLocator(n: nat, height: nat) {
    n > 12 ==> Two(n - 12) <= height + 1
  }

  lemma LocatorBound(n: nat, height: nat)
    requires n > 1 ==> LocatorHeight(height, n - 2) > 0
    ensures ShortLocator(n, height)
  {
    if n == 13 {
      assert Two(1) == 2;
    }
  }

  lemma StartOf(b: BlockIndex, tree: set<BlockIndex>)
    requires Tree(tree) && b in tree
    ensures b.Linked() && b == b.Ancestor(LocatorHeight(b.nHeight, 0)) && StepAt(0) == 1
  {
  }

  lemma NextStep(n: nat)
    ensures Drop(n + 1) == Drop(n) + StepAt(n) && StepAt(n) > 0
    ensures StepAt(n + 1) == if n + 1 > 10 then 2 * StepAt(n) else StepAt(n)
  {
    assert Two(1) == 2;
  }

  lemma {:induction false} DropGrows(i: nat, j: nat)
    requires i < j
    ensures Drop(i) < Drop(j)
  {
    NextStep(j - 1);
    if i < j - 1 {
      DropGrows(i, j - 1);
    }
  }

  /** A locator begins with the block itself, its entries strictly descend, and no other sequence is one. */
  lemma LocatorShape(v: seq<Hash>, w: seq<Hash>, start: BlockIndex)
    requires Locates(v, start) && Locates(w, start)
    ensures v == w && v[0] == start.hash
    ensures forall i, j :: 0 <= i < j < |v| ==> LocatorHeight(start.nHeight, j) < LocatorHeight(start.nHeight, i)
  {
    forall i, j | 0 <= i < j < |v|
      ensures LocatorHeight(start.nHeight, j) < LocatorHeight(start.nHeight, i)
    {
      DropGrows(i, j);
    }
    assert Located(v, start, 0);
    assert LocatorHeight(start.nHeight, |v| - 1) == 0 == LocatorHeight(start.nHeight, |w| - 1);
    forall i | 0 <= i < |v|
      ensures v[i] == w[i]
    {
      assert Located(v, start, i) && Located(w, start, i);
    }
  }

  /** Twelve blocks one below the other, then gaps that double each time, down to the genesis block. */
  lemma LocatorGaps(h: nat, i: nat)
    ensures i <= 11 ==> LocatorHeight(h, i) == if h > i then h - i else 0
    ensures i >= 11 && LocatorHeight(h, i + 1) > 0 ==>
              LocatorHeight(h, i) - LocatorHeight(h, i + 1) == 2 * (LocatorHeight(h, i - 1) - LocatorHeight(h, i))
  {
    if i >= 11 {
      assert Two(i - 9) == 2 * Two(i - 10) && Two(i - 10) == 2 * Two(i - 11);
      assert Two(1) == 2 && Two(0) == 1;
    }
  }

  /** Up to a height of 2^30 + 9 no step of a locator leaves 31 bits. */
  lemma LocatorSteps(v: seq<Hash>, start: BlockIndex)
    requires Locates(v, start) && start.nHeight <= 0x4000_0009
    ensures forall i :: 0 <= i < |v| ==> StepAt(i) < 0x8000_0000
  {
    forall i | 0 <= i < |v|
      ensures StepAt(i) < 0x8000_0000
    {
      if i > 11 {
        assert LocatorHeight(start.nHeight, i - 1) > 0;
        assert StepAt(i) == 2 * Two(i - 11) && Drop(i - 1) == 9 + Two(i - 11);
      } else {
        assert Two(1) == 2;
      }
    }
  }

  /** A new block enters the tree and gets its skip pointer. */
  method AddBlock(hash: Hash, pprev: BlockIndex?, ghost tree: set<BlockIndex>) returns (b: BlockIndex)
    requires Tree(tree) && (pprev != null ==> pprev in tree)
    ensures fresh(b) && Tree(tree + {b}) && b.hash == hash && b.pprev == pprev
    ensures old(Skips(tree)) ==> Skips(tree + {b})
    ensures forall o :: o in tree ==> o.pskip == old(o.pskip)
    ensures pprev != null ==> b.pskip != null
  {
    b := new BlockIndex(hash, pprev);
    BuildSkip(b, tree + {b});
  }
}
