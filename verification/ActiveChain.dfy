/** The active chain: the path from a tip down to its first ancestor, as an array indexed by height. */
module ActiveChain {
  import opened BlockTree

  /** All the ancestors of a tip, by height. */
  ghost predicate PathTo(blocks: seq<BlockIndex?>, tip: BlockIndex) {
    |blocks| == tip.height + 1 && forall h :: 0 <= h <= tip.height ==> blocks[h] == Walk(tip, h)
  }

  class Chain {
    var blocks: seq<BlockIndex?>

    /** Empty or the path to its last block. */
    ghost predicate Valid(tree: set<BlockIndex>)
      reads this
    {
      blocks != [] ==> var tip := blocks[|blocks| - 1]; tip != null && tip in tree && PathTo(blocks, tip)
    }

    constructor ()
      ensures blocks == [] && Valid({})
    {
      blocks := [];
    }

    method At(height: int) returns (r: BlockIndex?)
      ensures r == if 0 <= height < |blocks| then blocks[height] else null
    {
      return if height < 0 || height >= |blocks| then null else blocks[height];
    }

    /** Being in the chain is being an ancestor of its tip. */
    method Contains(ghost tree: set<BlockIndex>, block: BlockIndex) returns (r: bool)
      requires Tree(tree) && Valid(tree) && block in tree
      ensures r <==> blocks != [] && blocks[|blocks| - 1] != null && IsAncestor(block, blocks[|blocks| - 1])
    {
      var at := At(block.height);
      r := at == block;
    }

    /** Rewrites the chain from the new tip down to where it joins the old one. */
    method SetTip(ghost tree: set<BlockIndex>, block: BlockIndex)
      requires Tree(tree) && Valid(tree) && block in tree
      modifies this
      ensures Valid(tree) && PathTo(blocks, block)
    {
      ghost var before := blocks;
      blocks := Resized(blocks, block.height + 1);
      var walk: BlockIndex? := block;
      while walk != null && blocks[walk.height] != walk
        invariant |blocks| == block.height + 1
        invariant walk != null ==> walk in tree && walk.height <= block.height && walk == Walk(block, walk.height)
        invariant forall h :: (if walk == null then 0 else walk.height + 1) <= h <= block.height ==> blocks[h] == Walk(block, h)
        invariant walk != null ==> forall h :: 0 <= h <= walk.height ==> blocks[h] == Resized(before, block.height + 1)[h]
        decreases if walk == null then -1 else walk.height
      {
        if walk.prev != null {
          WalkOn(tree, block, walk.height, walk.prev.height);
        }
        blocks := blocks[walk.height := walk];
        walk := walk.prev;
      }
      if walk != null {
        RestStays(tree, before, block, walk);
      }
    }

    /** The last block of the chain that is an ancestor of a given one. */
    method FindFork(ghost tree: set<BlockIndex>, block: BlockIndex?) returns (r: BlockIndex?)
      requires Tree(tree) && Valid(tree) && (block != null ==> block in tree)
      ensures block == null || blocks == [] ==> r == null
      ensures r != null ==> block != null && blocks != [] && r in tree && IsAncestor(r, block)
                            && blocks[|blocks| - 1] != null && IsAncestor(r, blocks[|blocks| - 1])
      ensures block != null && blocks != [] && blocks[|blocks| - 1] != null ==>
                forall c :: c in tree && Common(c, block, blocks[|blocks| - 1]) ==> r != null && IsAncestor(c, r)
    {
      if block == null {
        return null;
      }
      var walk: BlockIndex? := block;
      if block.height > |blocks| - 1 {
        walk := GetAncestor(tree, block, |blocks| - 1);
      }
      if blocks == [] {
        return walk;
      }
      ghost var tip := blocks[|blocks| - 1];
      assert tip != null && tip in tree;
      FirstStep(tree, block, tip);
      var within := false;
      while walk != null && !within
        invariant walk != null ==> walk in tree && walk.height <= tip.height && IsAncestor(walk, block)
        invariant walk != null && within ==> IsAncestor(walk, tip)
        invariant forall c :: c in tree && Common(c, block, tip) ==> walk != null && IsAncestor(c, walk)
        decreases if walk == null then -1 else walk.height, !within
      {
        within := Contains(tree, walk);
        if !within {
          NotThere(tree, block, tip, walk);
          walk := walk.prev;
        }
      }
      r := walk;
    }
  }

  function Resized(s: seq<BlockIndex?>, n: nat): (r: seq<BlockIndex?>)
    ensures |r| == n && forall i :: 0 <= i < n ==> r[i] == if i < |s| then s[i] else null
  {
    if n <= |s| then s[..n] else s + seq(n - |s|, (_: nat) => null)
  }

  /** Below a block that was there already, everything was right already. */
  lemma RestStays(tree: set<BlockIndex>, before: seq<BlockIndex?>, block: BlockIndex, at: BlockIndex)
    requires Tree(tree) && block in tree && at in tree && at.height <= block.height && at == Walk(block, at.height)
    requires before != [] ==> before[|before| - 1] != null && before[|before| - 1] in tree && PathTo(before, before[|before| - 1])
    requires Resized(before, block.height + 1)[at.height] == at
    ensures forall h :: 0 <= h <= at.height ==> Resized(before, block.height + 1)[h] == Walk(block, h)
  {
    forall h | 0 <= h <= at.height
      ensures Resized(before, block.height + 1)[h] == Walk(block, h)
    {
      WalkOn(tree, block, at.height, h);
      WalkOn(tree, before[|before| - 1], at.height, h);
    }
  }

  lemma FirstStep(tree: set<BlockIndex>, a: BlockIndex, tip: BlockIndex)
    requires Tree(tree) && a in tree && tip in tree
    ensures var walk := if a.height > tip.height then Walk(a, tip.height) else a;
            && walk in tree && walk.height <= tip.height && IsAncestor(walk, a)
            && (forall c :: c in tree && Common(c, a, tip) ==> IsAncestor(c, walk))
  {
    if a.height > tip.height {
      WalkStops(tree, a, tip.height);
      forall c | c in tree && Common(c, a, tip)
        ensures IsAncestor(c, Walk(a, tip.height))
      {
        AncestorsNest(tree, c, a, tip.height);
      }
    }
  }

  /** A block outside the chain is no common ancestor, so its parent will do. */
  lemma NotThere(tree: set<BlockIndex>, a: BlockIndex, tip: BlockIndex, walk: BlockIndex)
    requires Tree(tree) && a in tree && tip in tree && walk in tree && IsAncestor(walk, a) && !IsAncestor(walk, tip)
    requires forall c :: c in tree && Common(c, a, tip) ==> IsAncestor(c, walk)
    ensures walk.prev == null ==> forall c :: c in tree ==> !Common(c, a, tip)
    ensures walk.prev != null ==> IsAncestor(walk.prev, a) && forall c :: c in tree && Common(c, a, tip) ==> IsAncestor(c, walk.prev)
  {
    forall c | c in tree && Common(c, a, tip)
      ensures c.height < walk.height
    {
      assert IsAncestor(c, walk) && c != walk;
    }
    if walk.prev != null {
      WalkOn(tree, a, walk.height, walk.height - 1);
      forall c | c in tree && Common(c, a, tip)
        ensures IsAncestor(c, walk.prev)
      {
        AncestorsNest(tree, c, walk, walk.height - 1);
      }
    }
  }
}
