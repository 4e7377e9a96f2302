/**
 * The coalescing loop of `dealloc`, shared by both drafts. In a9/alloc.c the
 * extra assignment of the merged block to the cursor, just before the cursor
 * goes back to the head, is overwritten at once and has no effect.
 */
module Release {
  import opened Blocks

  /** `c` is a real block that overlaps neither the freed block nor any block of the free list. */
  ghost predicate Clear(c: Block, block: Block, free: seq<Block>) {
    0 < c.size && Disjoint(c, block) && forall x :: x in free ==> Disjoint(c, x)
  }

  /**
   * What `dealloc` makes of free list `free` when it releases `block`: at the
   * front a merged block that covers the freed block and stays clear of every
   * byte that neither of them nor the free list holds; behind it the blocks it
   * did not absorb, in their old order and none adjacent to it; every old free
   * block either kept or absorbed; and exactly the freed bytes added.
   */
  ghost predicate Released(free: seq<Block>, block: Block, after: seq<Block>) {
    && 1 <= |after| <= |free| + 1
    && Within(block, after[0])
    && (forall c :: Clear(c, block, free) ==> Disjoint(c, after[0]))
    && IsSubseq(after[1..], free)
    && (forall x :: x in after[1..] ==> x in free && !Adjacent(x, after[0]))
    && (forall x :: x in free ==> x in after[1..] || Within(x, after[0]))
    && SumSizes(after) == SumSizes(free) + block.size
  }

  /** The free list and the freed block do not overlap, as in a well-formed heap. */
  ghost predicate Separated(free: seq<Block>, block: Block) {
    PairwiseDisjoint(free) && forall x :: x in free ==> Disjoint(x, block)
  }

  /**
   * Walk the free list; when a block ends where the freed block starts, or
   * starts where it ends, unlink it, merge the two and restart from the head.
   * Stop after a full pass without a merge. Returns the list without the
   * merged neighbours and the merged block (not yet pushed to the front).
   */
  method Coalesce(free: seq<Block>, block: Block) returns (rest: seq<Block>, merged: Block)
    requires 0 < block.size
    requires forall x :: x in free ==> 0 < x.size
    ensures forall x :: x in rest ==> x in free
    ensures IsSubseq(rest, free)
    ensures forall x :: x in free ==> x in rest || Within(x, merged)
    ensures |rest| <= |free|
    ensures forall x :: x in rest ==> !Adjacent(x, merged)
    ensures SumSizes(rest) + merged.size == SumSizes(free) + block.size
    ensures merged.addr <= block.addr && End(block) <= End(merged)
    ensures forall c :: Clear(c, block, free) ==> Disjoint(c, merged)
    ensures Separated(free, block) ==> Separated(rest, merged)
    ensures Coalesced(free) ==> Coalesced([merged] + rest)
  {
    rest, merged := free, block;
    SubseqRefl(free);
    var i := 0;
    while i < |rest|
      invariant 0 <= i <= |rest|
      invariant forall x :: x in rest ==> x in free
      invariant IsSubseq(rest, free)
      invariant forall x :: x in free ==> x in rest || Within(x, merged)
      invariant |rest| <= |free|
      invariant forall j :: 0 <= j < i ==> !Adjacent(rest[j], merged)
      invariant SumSizes(rest) + merged.size == SumSizes(free) + block.size
      invariant merged.addr <= block.addr && End(block) <= End(merged)
      invariant forall c :: Clear(c, block, free) ==> Disjoint(c, merged)
      invariant Separated(free, block) ==> Separated(rest, merged)
      decreases |rest|, |rest| - i
    {
      var curr := rest[i];
      if End(curr) == merged.addr || End(merged) == curr.addr {
        var before := merged;
        if End(curr) == merged.addr {
          // the neighbour on the left absorbs the block
          merged := Block(curr.addr, curr.size + merged.size);
        } else {
          // the block absorbs the neighbour on the right
          merged := Block(merged.addr, merged.size + curr.size);
        }
        MergeKeeps(rest, i, before, merged, block, free);
        rest := RemoveAt(rest, i);
        i := 0;
      } else {
        i := i + 1;
      }
    }
    PushMergedKeepsCoalesced(free, rest, merged);
  }

  /** Pushing the merged block in front of the blocks the loop kept gives what `dealloc` promises. */
  lemma PushMergedReleases(free: seq<Block>, block: Block, rest: seq<Block>, merged: Block)
    requires IsSubseq(rest, free)
    requires forall x :: x in rest ==> x in free && !Adjacent(x, merged)
    requires forall x :: x in free ==> x in rest || Within(x, merged)
    requires SumSizes(rest) + merged.size == SumSizes(free) + block.size
    requires Within(block, merged)
    requires forall c :: Clear(c, block, free) ==> Disjoint(c, merged)
    ensures Released(free, block, [merged] + rest)
  {
    var after := [merged] + rest;
    assert after[1..] == rest;
    SubseqLength(rest, free);
  }

  /** With no neighbour of the merged block left, pushing it keeps a coalesced list coalesced. */
  lemma PushMergedKeepsCoalesced(free: seq<Block>, rest: seq<Block>, merged: Block)
    requires 0 < merged.size
    requires forall x :: x in rest ==> x in free
    requires forall x :: x in rest ==> !Adjacent(x, merged)
    ensures Coalesced(free) ==> Coalesced([merged] + rest)
  {
    if Coalesced(free) {
      forall x, y | x in [merged] + rest && y in [merged] + rest
        ensures End(x) != y.addr
      {
        if x != merged && y != merged {
          assert x in free && y in free;
        }
      }
    }
  }

  /** One merge step keeps every invariant of the coalescing loop. */
  lemma MergeKeeps(rest: seq<Block>, i: int, before: Block, after: Block, block: Block, free: seq<Block>)
    requires 0 <= i < |rest|
    requires forall x :: x in rest ==> x in free
    requires IsSubseq(rest, free)
    requires forall x :: x in free ==> x in rest || Within(x, before)
    requires forall x :: x in free ==> 0 < x.size
    requires before.size > 0
    requires
      || (End(rest[i]) == before.addr && after == Block(rest[i].addr, rest[i].size + before.size))
      || (End(before) == rest[i].addr && after == Block(before.addr, before.size + rest[i].size))
    requires forall c :: Clear(c, block, free) ==> Disjoint(c, before)
    requires Separated(free, block) ==> Separated(rest, before)
    ensures forall x :: x in RemoveAt(rest, i) ==> x in free
    ensures IsSubseq(RemoveAt(rest, i), free)
    ensures forall x :: x in free ==> x in RemoveAt(rest, i) || Within(x, after)
    ensures SumSizes(RemoveAt(rest, i)) + after.size == SumSizes(rest) + before.size
    ensures after.addr <= before.addr && End(before) <= End(after)
    ensures forall c :: Clear(c, block, free) ==> Disjoint(c, after)
    ensures Separated(free, block) ==> Separated(RemoveAt(rest, i), after)
  {
    var curr := rest[i];
    var r := RemoveAt(rest, i);
    assert curr in rest;
    SumSizesRemoveAt(rest, i);
    forall x | x in r
      ensures x in free
    {
      RemoveAtMember(rest, i, x);
    }
    SubseqRemoveAt(rest, i);
    SubseqTrans(r, rest, free);
    forall x | x in free && x !in r
      ensures Within(x, after)
    {
      if x in rest && x != curr {
        RemoveAtKeeps(rest, i, x);
      }
    }
    forall c | Clear(c, block, free)
      ensures Disjoint(c, after)
    {
      assert Disjoint(c, curr);
    }
    if Separated(free, block) {
      RemoveAtKeepsDisjoint(rest, i);
      forall x | x in r
        ensures Disjoint(x, after)
      {
        RemoveAtMember(rest, i, x);
        var j :| 0 <= j < |rest| && j != i && rest[j] == x;
        assert x in rest && x in free && 0 < x.size;
        assert Disjoint(x, before);
        assert Disjoint(rest[j], rest[i]) by {
          if j < i {
            assert Disjoint(rest[j], rest[i]);
          } else {
            assert Disjoint(rest[i], rest[j]);
          }
        }
      }
    }
  }

  /**
   * Releasing live block `a` keeps the layout: the merged block occupies only
   * the freed block and the free blocks it absorbed, so it stays in the arena
   * and overlaps no other block.
   */
  lemma ReleaseKeepsLayout(free: seq<Block>, live: map<int, int>, h: int, brk: int, a: int,
                           rest: seq<Block>, merged: Block)
    requires Layout(free, live, h, brk) && 0 < h
    requires a in live
    requires forall x :: x in rest ==> x in free
    requires merged.addr <= a && a + live[a] <= End(merged)
    requires forall c :: Clear(c, Block(a, live[a]), free) ==> Disjoint(c, merged)
    requires Separated(free, Block(a, live[a])) ==> Separated(rest, merged)
    ensures Layout([merged] + rest, live - {a}, h, brk)
  {
    var block := Block(a, live[a]);
    assert forall x :: x in free ==> InArena(x, h, brk) && Disjoint(x, block);
    assert Separated(free, block);
    assert Clear(Block(brk, 1), block, free);
    assert Clear(Block(0, 1), block, free);
    assert InArena(merged, h, brk);
    var live' := live - {a};
    forall a' | a' in live'
      ensures Disjoint(Block(a', live'[a']), merged)
    {
      assert forall x :: x in free ==> Disjoint(Block(a', live[a']), x);
      assert Clear(Block(a', live[a']), block, free);
    }
    var free' := [merged] + rest;
    forall i | 0 <= i < |free'|
      ensures InArena(free'[i], h, brk)
      ensures forall a' :: a' in live' ==> Disjoint(Block(a', live'[a']), free'[i])
    {
      if i > 0 {
        assert free'[i] in rest;
        assert free'[i] in free;
      }
    }
    forall i, j | 0 <= i < j < |free'|
      ensures Disjoint(free'[i], free'[j])
    {
      assert free'[j] == rest[j - 1];
      if i > 0 {
        assert free'[i] == rest[i - 1];
      } else {
        assert rest[j - 1] in rest;
      }
    }
  }
}
