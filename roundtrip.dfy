/**
 * `alloc` followed by `dealloc` of the pointer it returned, seen on the free
 * list alone. The block handed out comes back, and so does its leftover when
 * the split made one, because the leftover lies right after the block and the
 * coalescing absorbs it. The free bytes that `allocinfo` reports therefore
 * never drop. When the free list had no adjacent blocks they come back
 * exactly; after a growth they rise by the growth less at most one header.
 */
module RoundTrip {
  import opened Options
  import opened Blocks
  import opened Acquire
  import opened Release
  import opened Report

  /** No element occurs twice. */
  ghost predicate Distinct<T>(s: seq<T>) {
    forall i, j :: 0 <= i < j < |s| ==> s[i] != s[j]
  }

  /** Blocks that do not overlap and hold at least one byte are all different. */
  lemma DisjointBlocksDistinct(s: seq<Block>)
    requires PairwiseDisjoint(s)
    requires forall i :: 0 <= i < |s| ==> 0 < s[i].size
    ensures Distinct(s)
  {
    forall i, j | 0 <= i < j < |s|
      ensures s[i] != s[j]
    {
      assert Disjoint(s[i], s[j]);
    }
  }

  /** A subsequence that keeps every element of a list without repeats is as long as the list. */
  lemma {:induction false} SubseqCovers<T>(a: seq<T>, b: seq<T>)
    requires IsSubseq(a, b) && Distinct(b)
    requires forall x :: x in b ==> x in a
    ensures |a| == |b|
    decreases |b|
  {
    SubseqLength(a, b);
    if |b| > 0 {
      assert b[0] in a;
      if a[0] == b[0] && IsSubseq(a[1..], b[1..]) {
        forall x | x in b[1..]
          ensures x in a[1..]
        {
          var j :| 0 <= j < |b[1..]| && b[1..][j] == x;
          assert b[j + 1] == x && b[0] != b[j + 1];
          assert x in a;
        }
        SubseqCovers(a[1..], b[1..]);
      } else {
        SubseqMember(a, b[1..], b[0]);
        assert false;
      }
    }
  }

  /** The bytes of a list with an optional block pushed in front. */
  lemma SumSizesPush(o: Option<Block>, s: seq<Block>)
    ensures SumSizes(Push(o, s)) == SumSizes(s) + (if o.Some? then o.value.size else 0)
  {
    if o.Some? {
      assert Push(o, s)[1..] == s;
    }
  }

  /**
   * The free bytes of two lists compared: with `d` more blocks at most in the
   * first, its usable bytes trail its extra bytes by at most `d` headers.
   */
  lemma UsableSumCompare(a: seq<Block>, b: seq<Block>, h: int, d: int)
    requires 0 <= h && |a| <= |b| + d
    ensures UsableSum(a, h) - UsableSum(b, h) >= SumSizes(a) - SumSizes(b) - d * h
    ensures |a| == |b| ==> UsableSum(a, h) - UsableSum(b, h) == SumSizes(a) - SumSizes(b)
  {
    UsableSumIsBytesLessHeaders(a, h);
    UsableSumIsBytesLessHeaders(b, h);
    HeadersLe(|a|, |b|, d, h);
  }

  lemma HeadersLe(m: int, n: int, d: int, h: int)
    requires 0 <= h && m <= n + d
    ensures m * h <= n * h + d * h
  {
    assert (n + d - m) * h >= 0;
    assert (n + d - m) * h == n * h + d * h - m * h;
  }

  /**
   * A leftover that starts where the released block ends is not among the
   * blocks kept behind the merged block: it would touch or overlap it.
   */
  lemma LeftoverAbsorbed(g: Block, lo: Block, rest: seq<Block>, after: seq<Block>)
    requires 0 < g.size && 0 < lo.size && lo.addr == End(g)
    requires Released([lo] + rest, g, after) && PairwiseDisjoint(after)
    ensures IsSubseq(after[1..], rest)
  {
    forall j | 1 <= j < |after|
      ensures after[j] != lo
    {
      assert after[j] == after[1..][j - 1];
      assert !Adjacent(after[j], after[0]);
      assert Within(g, after[0]);
      assert Disjoint(after[0], after[j]);
    }
    assert lo !in after[1..];
    SubseqSkip(after[1..], lo, rest);
  }

  /**
   * Releasing a block carved from free block `k` of a list without adjacent
   * blocks merges it back into nothing more than free block `k`: the bytes
   * just below and just above that block are clear.
   */
  lemma MergedWithinTaken(free: seq<Block>, live: map<int, int>, h: int, brk: int, k: int, total: int,
                          after: seq<Block>)
    requires Layout(free, live, h, brk) && 0 < h && Coalesced(free)
    requires 0 <= k < |free| && free[k].size >= total > h
    requires var r := Split(free[k], total, h);
             Released(Push(r.leftover, RemoveAt(free, k)), r.given, after)
    ensures Within(after[0], free[k])
  {
    var r := Split(free[k], total, h);
    var rest := RemoveAt(free, k);
    var mid := Push(r.leftover, rest);
    var b := free[k];
    UnlinkKeepsLayout(free, live, h, brk, k);
    assert b in free;
    forall x | x in rest
      ensures x in free && Disjoint(x, b) && End(x) != b.addr && x.addr != End(b)
    {
      RemoveAtMember(free, k, x);
    }
    assert forall x :: x in mid ==> x in rest || (r.leftover.Some? && x == r.leftover.value);
    var below, above := Block(b.addr - 1, 1), Block(End(b), 1);
    assert Clear(below, r.given, mid);
    assert Clear(above, r.given, mid);
  }

  /**
   * The blocks kept behind the merged block are other blocks of the old list
   * in their order; when the list had no adjacent blocks, all of them.
   */
  lemma KeptAfterTake(free: seq<Block>, live: map<int, int>, h: int, brk: int, k: int, total: int,
                      after: seq<Block>)
    requires Layout(free, live, h, brk) && 0 < h
    requires 0 <= k < |free| && free[k].size >= total > h
    requires var r := Split(free[k], total, h);
             Released(Push(r.leftover, RemoveAt(free, k)), r.given, after)
    requires PairwiseDisjoint(after)
    ensures IsSubseq(after[1..], RemoveAt(free, k))
    ensures Coalesced(free) ==> |after| == |free|
  {
    var r := Split(free[k], total, h);
    var rest := RemoveAt(free, k);
    if r.leftover.Some? {
      LeftoverAbsorbed(r.given, r.leftover.value, rest, after);
    }
    if Coalesced(free) {
      MergedWithinTaken(free, live, h, brk, k, total, after);
      UnlinkKeepsLayout(free, live, h, brk, k);
      forall x | x in rest
        ensures x in after[1..]
      {
        assert Disjoint(x, free[k]) && 0 < x.size;
      }
      DisjointBlocksDistinct(rest);
      SubseqCovers(after[1..], rest);
    }
  }

  /**
   * Handing out free block `k` and releasing it again never lowers the free
   * bytes `allocinfo` reports. When the list had no adjacent blocks, they are
   * restored exactly.
   */
  lemma TakeThenRelease(free: seq<Block>, live: map<int, int>, h: int, brk: int, k: int, total: int,
                        after: seq<Block>)
    requires Layout(free, live, h, brk) && 0 < h
    requires 0 <= k < |free| && free[k].size >= total > h
    requires var r := Split(free[k], total, h);
             Released(Push(r.leftover, RemoveAt(free, k)), r.given, after)
    requires PairwiseDisjoint(after)
    ensures UsableSum(after, h) >= UsableSum(free, h)
    ensures Coalesced(free) ==> UsableSum(after, h) == UsableSum(free, h)
  {
    var r := Split(free[k], total, h);
    var rest := RemoveAt(free, k);
    SumSizesRemoveAt(free, k);
    SumSizesPush(r.leftover, rest);
    KeptAfterTake(free, live, h, brk, k, total, after);
    SubseqLength(after[1..], rest);
    UsableSumCompare(after, free, h, 0);
  }

  /**
   * A block carved from `req` fresh bytes at the old break and released again
   * leaves the free bytes higher than before by the growth less at most one
   * header.
   */
  lemma GrowThenRelease(free: seq<Block>, h: int, brk: int, req: int, total: int, after: seq<Block>)
    requires 0 < h < total <= req
    requires var r := Split(Block(brk, req), total, h);
             Released(Push(r.leftover, free), r.given, after)
    requires PairwiseDisjoint(after)
    ensures UsableSum(after, h) >= UsableSum(free, h) + req - h
  {
    var r := Split(Block(brk, req), total, h);
    SumSizesPush(r.leftover, free);
    if r.leftover.Some? {
      LeftoverAbsorbed(r.given, r.leftover.value, free, after);
    }
    SubseqLength(after[1..], free);
    UsableSumCompare(after, free, h, 1);
  }
}
