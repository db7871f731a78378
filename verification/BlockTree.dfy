/** The tree of block index entries with its skip links. */
module BlockTree {
  import opened Bits
  import opened SkipHeights

  class BlockIndex {
    const prev: BlockIndex?
    const height: nat
    var skip: BlockIndex?

    constructor (prev: BlockIndex?)
      ensures this.prev == prev && skip == null && height == if prev == null then 0 else prev.height + 1
    {
      this.prev, skip := prev, null;
      height := if prev == null then 0 else prev.height + 1;
    }

    /** Sets the skip link, using those of the ancestors. */
    method BuildSkip(ghost tree: set<BlockIndex>)
      requires Tree(tree) && this in tree
      modifies this`skip
      ensures Tree(tree) && (prev == null ==> skip == old(skip))
      ensures prev != null ==> skip == Walk(prev, GetSkipHeight(height))
    {
      if prev != null {
        SkipIsLower(height);
        skip := GetAncestor(tree, prev, GetSkipHeight(height));
      }
    }
  }

  /** The plain walk from parent to parent down to a height. */
  ghost function Walk(block: BlockIndex, height: nat): BlockIndex
    decreases block.height
  {
    if block.height <= height || block.prev == null || block.prev.height >= block.height then block
    else Walk(block.prev, height)
  }

  /** Entries with all their ancestors, one higher than their parents, where a skip link, if set, leads
      to where the plain walk does. */
  ghost predicate Tree(tree: set<BlockIndex>)
    reads tree
  {
    && (forall b :: b in tree && b.prev != null ==> b.prev in tree && b.height == b.prev.height + 1)
    && (forall b :: b in tree && b.prev == null ==> b.height == 0)
    && (forall b :: b in tree && b.skip != null ==> b.prev != null && b.skip == Walk(b.prev, GetSkipHeight(b.height)))
  }

  ghost predicate IsAncestor(a: BlockIndex, b: BlockIndex) { a.height <= b.height && Walk(b, a.height) == a }

  // ---- The plain walk ----

  lemma {:induction false} WalkStops(tree: set<BlockIndex>, block: BlockIndex, height: nat)
    requires Tree(tree) && block in tree && height <= block.height
    ensures Walk(block, height) in tree && Walk(block, height).height == height
    decreases block.height
  {
    if height < block.height {
      WalkStops(tree, block.prev, height);
    }
  }

  /** Stopping on the way makes no difference. */
  lemma {:induction false} WalkOn(tree: set<BlockIndex>, block: BlockIndex, mid: nat, height: nat)
    requires Tree(tree) && block in tree && height <= mid <= block.height
    ensures Walk(Walk(block, mid), height) == Walk(block, height)
    decreases block.height
  {
    if mid < block.height {
      WalkOn(tree, block.prev, mid, height);
    }
  }

  /** A skip link leads to an ancestor. */
  lemma SkipLeads(tree: set<BlockIndex>, b: BlockIndex)
    requires Tree(tree) && b in tree && b.skip != null
    ensures b.skip in tree && b.skip.height == GetSkipHeight(b.height) < b.height
    ensures b.skip == Walk(b, b.skip.height)
  {
    SkipIsLower(b.height);
    WalkStops(tree, b.prev, GetSkipHeight(b.height));
  }

  // ---- The fast walk ----

  method GetAncestor(ghost tree: set<BlockIndex>, block: BlockIndex, height: int) returns (r: BlockIndex?)
    requires Tree(tree) && block in tree
    ensures height < 0 || height > block.height ==> r == null
    ensures 0 <= height <= block.height ==> r == Walk(block, height) && r in tree && r.height == height
  {
    if height > block.height || height < 0 {
      return null;
    }
    hide GetSkipHeight;
    var walk, heightWalk := block, block.height;
    WalkStops(tree, block, height);
    while heightWalk > height
      invariant walk in tree && heightWalk == walk.height >= height && Walk(walk, height) == Walk(block, height)
      decreases heightWalk
    {
      var heightSkip := GetSkipHeight(heightWalk);
      var heightSkipPrev := GetSkipHeight(heightWalk - 1);
      if walk.skip != null && (heightSkip == height || (heightSkip > height && !(heightSkipPrev < heightSkip - 2 && heightSkipPrev >= height))) {
        SkipLeads(tree, walk);
        WalkOn(tree, walk, heightSkip, height);
        walk, heightWalk := walk.skip, heightSkip;
      } else {
        walk, heightWalk := walk.prev, heightWalk - 1;
      }
    }
    r := walk;
  }

  /** A tree grows by a block on top of one of its own, or by a block without parent. */
  method Append(ghost tree: set<BlockIndex>, parent: BlockIndex?) returns (b: BlockIndex)
    requires Tree(tree) && (parent != null ==> parent in tree)
    ensures fresh(b) && Tree(tree + {b}) && b.prev == parent
    ensures parent != null ==> b.skip == Walk(parent, GetSkipHeight(b.height))
    ensures forall c :: c in tree ==> c.skip == old(c.skip)
  {
    b := new BlockIndex(parent);
    b.BuildSkip(tree + {b});
  }

  /** Any tree, block by block; a parent comes before its children, and a negative number means none. */
  method Build(parents: seq<int>) returns (blocks: seq<BlockIndex>, ghost tree: set<BlockIndex>)
    requires forall i :: 0 <= i < |parents| ==> parents[i] < i
    ensures |blocks| == |parents| && Tree(tree) && forall i :: 0 <= i < |blocks| ==> blocks[i] in tree
    ensures forall i :: 0 <= i < |blocks| ==> blocks[i].prev == if parents[i] < 0 then null else blocks[parents[i]]
    ensures forall i :: 0 <= i < |blocks| ==> (blocks[i].skip == null <==> blocks[i].prev == null)
  {
    blocks, tree := [], {};
    for n := 0 to |parents|
      invariant |blocks| == n && Tree(tree) && forall i :: 0 <= i < n ==> blocks[i] in tree
      invariant forall b :: b in tree ==> fresh(b)
      invariant forall i :: 0 <= i < n ==> blocks[i].prev == if parents[i] < 0 then null else blocks[parents[i]]
      invariant forall i :: 0 <= i < n ==> (blocks[i].skip == null <==> blocks[i].prev == null)
    {
      var b := Append(tree, if parents[n] < 0 then null else blocks[parents[n]]);
      blocks, tree := blocks + [b], tree + {b};
    }
  }

  // ---- Common ancestors ----

  ghost predicate Common(c: BlockIndex, a: BlockIndex, b: BlockIndex) { IsAncestor(c, a) && IsAncestor(c, b) }

  /** Below equal heights, ancestors of an ancestor are ancestors, and the lower of two ancestors is one of the other. */
  lemma AncestorsNest(tree: set<BlockIndex>, c: BlockIndex, b: BlockIndex, mid: nat)
    requires Tree(tree) && b in tree && mid <= b.height
    ensures c.height <= mid ==> (IsAncestor(c, b) <==> IsAncestor(c, Walk(b, mid)))
  {
    WalkStops(tree, b, mid);
    if c.height <= mid {
      WalkOn(tree, b, mid, c.height);
    }
  }

  /** Where two walks differ, they have differed all the way down to there. */
  lemma DifferBelow(tree: set<BlockIndex>, c: BlockIndex, a: BlockIndex, b: BlockIndex, mid: nat)
    requires Tree(tree) && a in tree && b in tree && mid <= a.height && mid <= b.height
    requires Walk(a, mid) != Walk(b, mid) && Common(c, a, b)
    ensures c.height < mid
  {
    if mid <= c.height {
      WalkOn(tree, a, c.height, mid);
      WalkOn(tree, b, c.height, mid);
      assert false;
    }
  }

  /** Two blocks of the same height that have the same common ancestors as `a` and `b`. */
  ghost predicate Narrowed(tree: set<BlockIndex>, a: BlockIndex, b: BlockIndex, pa: BlockIndex, pb: BlockIndex) {
    && pa in tree && pb in tree && pa.height == pb.height && IsAncestor(pa, a) && IsAncestor(pb, b)
    && (forall c :: c in tree && Common(c, a, b) ==> Common(c, pa, pb))
  }

  lemma Narrow(tree: set<BlockIndex>, a: BlockIndex, b: BlockIndex, h: nat)
    requires Tree(tree) && a in tree && b in tree && h <= a.height && h <= b.height
    requires forall c :: c in tree && Common(c, a, b) ==> c.height <= h
    ensures Narrowed(tree, a, b, Walk(a, h), Walk(b, h))
  {
    WalkStops(tree, a, h);
    WalkStops(tree, b, h);
    forall c | c in tree && Common(c, a, b)
      ensures Common(c, Walk(a, h), Walk(b, h))
    {
      AncestorsNest(tree, c, a, h);
      AncestorsNest(tree, c, b, h);
    }
  }

  lemma NarrowMore(tree: set<BlockIndex>, a: BlockIndex, b: BlockIndex, pa: BlockIndex, pb: BlockIndex, h: nat)
    requires Tree(tree) && a in tree && b in tree && Narrowed(tree, a, b, pa, pb) && h <= pa.height && pa != pb
    requires Walk(pa, h) != Walk(pb, h) || h == pa.height - 1
    ensures Narrowed(tree, a, b, Walk(pa, h), Walk(pb, h))
  {
    forall c | c in tree && Common(c, pa, pb)
      ensures c.height <= h
    {
      DifferBelow(tree, c, pa, pb, if Walk(pa, h) != Walk(pb, h) then h else pa.height);
    }
    Narrow(tree, pa, pb, h);
    hide IsAncestor, Common, Walk;
    NarrowTwice(tree, a, b, pa, pb, Walk(pa, h), Walk(pb, h));
  }

  lemma NarrowTwice(tree: set<BlockIndex>, a: BlockIndex, b: BlockIndex, pa: BlockIndex, pb: BlockIndex, qa: BlockIndex, qb: BlockIndex)
    requires Tree(tree) && a in tree && b in tree && Narrowed(tree, a, b, pa, pb) && Narrowed(tree, pa, pb, qa, qb)
    ensures Narrowed(tree, a, b, qa, qb)
  {
    WalkOn(tree, a, pa.height, qa.height);
    WalkOn(tree, b, pb.height, qb.height);
  }

  lemma RootsApart(tree: set<BlockIndex>, a: BlockIndex, b: BlockIndex, pa: BlockIndex, pb: BlockIndex)
    requires Tree(tree) && Narrowed(tree, a, b, pa, pb) && pa != pb && pa.height == 0
    ensures forall c :: c in tree ==> !Common(c, a, b)
  {
    forall c | c in tree
      ensures !Common(c, a, b)
    {
      if Common(c, pa, pb) {
        DifferBelow(tree, c, pa, pb, 0);
      }
    }
  }

  /** The deepest block that both have among their ancestors, or null if there is none. */
  method LastCommonAncestor(ghost tree: set<BlockIndex>, a: BlockIndex, b: BlockIndex) returns (r: BlockIndex?)
    requires Tree(tree) && a in tree && b in tree
    ensures r != null ==> r in tree && Common(r, a, b)
    ensures forall c :: c in tree && Common(c, a, b) ==> r != null && IsAncestor(c, r)
  {
    hide IsAncestor, Common, Narrowed;
    var pa: BlockIndex?, pb: BlockIndex? := a, b;
    if a.height > b.height {
      pa := GetAncestor(tree, a, b.height);
    } else if b.height > a.height {
      pb := GetAncestor(tree, b, a.height);
    }
    Level(tree, a, b);
    while pa != pb && pa != null && pb != null
      invariant pa != null && pb != null ==> Narrowed(tree, a, b, pa, pb)
      invariant pa == null || pb == null ==> pa == pb && forall c :: c in tree ==> !Common(c, a, b)
      decreases if pa == null then -1 else pa.height
    {
      NarrowedLevel(tree, a, b, pa, pb);
      if pa.skip != null && pb.skip != null && pa.skip != pb.skip {
        SkipLeads(tree, pa);
        SkipLeads(tree, pb);
        NarrowMore(tree, a, b, pa, pb, pa.skip.height);
        pa, pb := pa.skip, pb.skip;
        assert pa.height == pb.height;
      } else {
        if pa.height == 0 {
          RootsApart(tree, a, b, pa, pb);
        } else {
          NarrowMore(tree, a, b, pa, pb, pa.height - 1);
        }
        pa, pb := pa.prev, pb.prev;
      }
    }
    assert pa == pb;
    r := pa;
    if r != null {
      NarrowedSame(tree, a, b, r);
    }
  }

  lemma Level(tree: set<BlockIndex>, a: BlockIndex, b: BlockIndex)
    requires Tree(tree) && a in tree && b in tree
    ensures var h := if a.height < b.height then a.height else b.height;
            Narrowed(tree, a, b, Walk(a, h), Walk(b, h))
  {
    Narrow(tree, a, b, if a.height < b.height then a.height else b.height);
  }

  lemma NarrowedLevel(tree: set<BlockIndex>, a: BlockIndex, b: BlockIndex, pa: BlockIndex, pb: BlockIndex)
    requires Tree(tree) && Narrowed(tree, a, b, pa, pb)
    ensures pa in tree && pb in tree && pa.height == pb.height
    ensures pa.height == 0 ==> pa.prev == pb.prev == null
    ensures pa.height > 0 ==> pa.prev != null && Walk(pa, pa.height - 1) == pa.prev
    ensures pa.height > 0 ==> pb.prev != null && Walk(pb, pb.height - 1) == pb.prev
  {
  }

  lemma NarrowedSame(tree: set<BlockIndex>, a: BlockIndex, b: BlockIndex, r: BlockIndex)
    requires Narrowed(tree, a, b, r, r)
    ensures r in tree && Common(r, a, b) && forall c :: c in tree && Common(c, a, b) ==> IsAncestor(c, r)
  {
  }

  /** Whether one of two blocks is an ancestor of the other. */
  method AreOnTheSameFork(ghost tree: set<BlockIndex>, a: BlockIndex, b: BlockIndex) returns (same: bool)
    requires Tree(tree) && a in tree && b in tree
    ensures same <==> IsAncestor(a, b) || IsAncestor(b, a)
  {
    var pa: BlockIndex?, pb: BlockIndex? := a, b;
    if a.height > b.height {
      pa := GetAncestor(tree, a, b.height);
    } else if b.height > a.height {
      pb := GetAncestor(tree, b, a.height);
    }
    same := pa == pb;
  }

  // ---- Locators ----

  /** How far back the entries of a locator reach: twelve in a row, then in doubling steps. */
  function Back(k: nat): nat { if k <= 11 then k else 11 + Pow2(k - 10) - 2 }

  function HeightAt(height: nat, k: nat): nat { if Back(k) >= height then 0 else height - Back(k) }

  /** The blocks of a locator: ancestors at those distances, the last of them at height 0. */
  method LocatorEntries(ghost tree: set<BlockIndex>, index: BlockIndex?) returns (have: seq<BlockIndex>)
    requires Tree(tree) && (index != null ==> index in tree)
    ensures index == null ==> have == []
    ensures index != null ==>
              && have != [] && have[0] == index && have[|have| - 1].height == 0
              && (forall k :: 0 <= k < |have| ==> have[k] == Walk(index, HeightAt(index.height, k)))
              && (forall k :: 0 <= k < |have| - 1 ==> Back(k) < index.height) && Back(|have| - 1) >= index.height
  {
    hide GetSkipHeight, HeightAt, Walk, Back, Pow2, Tree;
    have := [];
    if index == null {
      return;
    }
    var walk: BlockIndex?, step := index, 1;
    HeightFacts(index.height, 0);
    WalkNone(index);
    while true
      invariant walk != null && walk in tree && walk == Walk(index, HeightAt(index.height, |have|))
      invariant walk.height == HeightAt(index.height, |have|)
      invariant step == if |have| <= 10 then 1 else Pow2(|have| - 10)
      invariant forall k :: 0 <= k < |have| ==> have[k] == Walk(index, HeightAt(index.height, k))
      invariant forall k :: 0 <= k < |have| ==> Back(k) < index.height
      invariant have != [] ==> have[0] == index
      decreases walk.height
    {
      HeightFacts(index.height, |have|);
      WalkOn(tree, index, walk.height, HeightAt(index.height, |have| + 1));
      WalkStops(tree, index, HeightAt(index.height, |have| + 1));
      have := have + [walk];
      if walk.height == 0 {
        break;
      }
      var height := if walk.height - step > 0 then walk.height - step else 0;
      walk := GetAncestor(tree, walk, height);
      if |have| > 10 {
        step := step * 2;
      }
    }
  }

  lemma WalkNone(block: BlockIndex)
    ensures Walk(block, block.height) == block
  {
  }

  lemma HeightFacts(height: nat, k: nat)
    ensures var step := if k <= 10 then 1 else Pow2(k - 10);
            && step > 0 && Back(k + 1) == Back(k) + step
            && HeightAt(height, k) <= height && (HeightAt(height, k) == 0 <==> Back(k) >= height)
            && HeightAt(height, k + 1) == (if HeightAt(height, k) - step > 0 then HeightAt(height, k) - step else 0)
            && HeightAt(height, 0) == height
            && (if k + 1 <= 10 then 1 else Pow2(k + 1 - 10)) == (if k + 1 > 10 then 2 * step else step)
  {
  }
}
