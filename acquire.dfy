/**
 * The tail of `alloc`: the chosen block is unlinked and, when the leftover is
 * larger than a header, split in two. Both drafts do this the same way.
 */
module Acquire {
  import opened Options
  import opened Blocks

  /** The block handed to the client and the leftover free block, if the split happened. */
  datatype Carved = Carved(given: Block, leftover: Option<Block>)

  function LeftoverSize(r: Carved): int {
    if r.leftover.Some? then r.leftover.value.size else 0
  }

  /**
   * The split step: a leftover of more than a header becomes a free block
   * right after the first `total` bytes; a smaller leftover stays with the
   * block handed out (internal fragmentation).
   */
  function Split(c: Block, total: int, h: int): (r: Carved)
    requires c.size >= total
    ensures r.given.addr == c.addr && r.given.size >= total
    ensures r.given.size + LeftoverSize(r) == c.size
    ensures r.leftover.Some? <==> c.size - total > h
    ensures r.leftover.None? ==> r.given == c
    ensures r.leftover.Some? ==>
              && r.given.size == total
              && r.leftover.value.addr == End(r.given)
              && r.leftover.value.size > h
  {
    var remainder := c.size - total;
    if remainder > h then Carved(Block(c.addr, total), Some(Block(c.addr + total, remainder)))
    else Carved(c, None)
  }

  /** The leftover, when there is one, goes to the front of the list. */
  function Push(o: Option<Block>, s: seq<Block>): seq<Block> {
    if o.Some? then [o.value] + s else s
  }

  /** A non-empty part of a block is disjoint from whatever the block is disjoint from. */
  lemma DisjointWithin(x: Block, y: Block, c: Block)
    requires Disjoint(x, c) && Within(y, c) && 0 < y.size
    ensures Disjoint(x, y) && Disjoint(y, x)
  {
  }

  /**
   * Unlinking free block `k` keeps the layout of the remaining blocks, all of
   * which are disjoint from the unlinked one.
   */
  lemma UnlinkKeepsLayout(free: seq<Block>, live: map<int, int>, h: int, brk: int, k: int)
    requires Layout(free, live, h, brk)
    requires 0 <= k < |free|
    ensures Layout(RemoveAt(free, k), live, h, brk)
    ensures forall x :: x in RemoveAt(free, k) ==> Disjoint(x, free[k])
  {
    var rest := RemoveAt(free, k);
    RemoveAtKeepsDisjoint(free, k);
    forall i | 0 <= i < |rest|
      ensures InArena(rest[i], h, brk) && Disjoint(rest[i], free[k])
      ensures forall a :: a in live ==> Disjoint(Block(a, live[a]), rest[i])
    {
      var i' := if i < k then i else i + 1;
      assert rest[i] == free[i'] && i' != k;
    }
  }

  /**
   * Putting a block `g` and an optional leftover `o`, both inside a block `c`
   * that overlaps nothing, back into the layout keeps it.
   */
  lemma CarveKeepsLayout(rest: seq<Block>, live: map<int, int>, h: int, brk: int, c: Block, g: Block, o: Option<Block>)
    requires Layout(rest, live, h, brk) && 0 < h
    requires InArena(c, h, brk) && Within(g, c) && g.addr == c.addr && g.size > h
    requires o.Some? ==> Within(o.value, c) && o.value.size > h && Disjoint(g, o.value)
    requires forall x :: x in rest ==> Disjoint(x, c)
    requires forall a :: a in live ==> Disjoint(Block(a, live[a]), c)
    ensures g.addr !in live
    ensures Layout(Push(o, rest), live[g.addr := g.size], h, brk)
  {
    forall x | x in rest
      ensures Disjoint(g, x) && (o.Some? ==> Disjoint(o.value, x))
    {
      DisjointWithin(x, g, c);
      if o.Some? {
        DisjointWithin(x, o.value, c);
      }
    }
    forall a | a in live
      ensures Disjoint(Block(a, live[a]), g)
      ensures o.Some? ==> Disjoint(Block(a, live[a]), o.value)
    {
      DisjointWithin(Block(a, live[a]), g, c);
      if o.Some? {
        DisjointWithin(Block(a, live[a]), o.value, c);
      }
    }
    var free' := Push(o, rest);
    var live' := live[g.addr := g.size];
    assert forall i :: 0 <= i < |free'| ==> InArena(free'[i], h, brk);
    if o.Some? {
      assert PairwiseDisjoint(free');
    }
    assert forall a, i :: a in live' && 0 <= i < |free'| ==> Disjoint(Block(a, live'[a]), free'[i]);
  }

  /**
   * Handing out free block `k` (split or whole) keeps the layout: both parts
   * lie inside the old block, so they overlap nothing else, and the block
   * handed out is not already a live block.
   */
  lemma TakeKeepsLayout(free: seq<Block>, live: map<int, int>, h: int, brk: int, k: int, total: int)
    requires Layout(free, live, h, brk) && 0 < h
    requires 0 <= k < |free| && free[k].size >= total > h
    ensures Split(free[k], total, h).given.addr !in live
    ensures var r := Split(free[k], total, h);
              Layout(Push(r.leftover, RemoveAt(free, k)), live[r.given.addr := r.given.size], h, brk)
  {
    var r := Split(free[k], total, h);
    UnlinkKeepsLayout(free, live, h, brk, k);
    if r.leftover.Some? {
      assert Disjoint(r.given, r.leftover.value);
    }
    CarveKeepsLayout(RemoveAt(free, k), live, h, brk, free[k], r.given, r.leftover);
  }

  /**
   * Handing out free block `k` keeps a coalesced list coalesced: the leftover
   * ends where the old block ended and starts strictly inside it.
   */
  lemma TakeKeepsCoalesced(free: seq<Block>, live: map<int, int>, h: int, brk: int, k: int, total: int)
    requires Layout(free, live, h, brk) && 0 < h
    requires 0 <= k < |free| && free[k].size >= total > h
    ensures Coalesced(free) ==> Coalesced(Push(Split(free[k], total, h).leftover, RemoveAt(free, k)))
  {
    var r := Split(free[k], total, h);
    var rest := RemoveAt(free, k);
    UnlinkKeepsLayout(free, live, h, brk, k);
    forall x | x in rest
      ensures x in free
    {
      RemoveAtMember(free, k, x);
    }
    if r.leftover.Some? && Coalesced(free) {
      var lo := r.leftover.value;
      assert free[k] in free;
      forall x, y | x in [lo] + rest && y in [lo] + rest
        ensures End(x) != y.addr
      {
        if y == lo && x != lo {
          assert x in rest && InArena(x, h, brk);
        }
      }
    }
  }

  /**
   * A block carved at the old break keeps a coalesced list coalesced: its
   * leftover starts past the break, where no free block ends, and ends past
   * the break, where no free block starts.
   */
  lemma GrowKeepsCoalesced(free: seq<Block>, live: map<int, int>, h: int, brk: int, req: int, total: int)
    requires Layout(free, live, h, brk)
    requires 0 < h < total <= req
    ensures Coalesced(free) ==> Coalesced(Push(Split(Block(brk, req), total, h).leftover, free))
  {
    var r := Split(Block(brk, req), total, h);
    if r.leftover.Some? && Coalesced(free) {
      var lo := r.leftover.value;
      forall x, y | x in [lo] + free && y in [lo] + free
        ensures End(x) != y.addr
      {
        if x in free {
          assert InArena(x, h, brk);
        }
        if y in free {
          assert InArena(y, h, brk);
        }
      }
    }
  }

  /** A block carved at the old break overlaps nothing and lies in the grown arena. */
  lemma GrowKeepsLayout(free: seq<Block>, live: map<int, int>, h: int, brk: int, req: int)
    requires Layout(free, live, h, brk)
    requires 0 < brk && 0 < h < req
    ensures Layout([Block(brk, req)] + free, live, h, brk + req)
  {
    var free' := [Block(brk, req)] + free;
    assert forall i :: 0 <= i < |free'| ==> InArena(free'[i], h, brk + req);
    assert forall a :: a in live ==> InArena(Block(a, live[a]), h, brk + req);
  }
}
