/**
 * The allocator of a9/src/alloc.c. The module-level globals `head`, `algo`,
 * `heap_limit` and `heap_start` are fields of one `Allocator` object, together
 * with the program break that `sbrk`/`brk` move and the header sizes of the
 * blocks handed out. Whether a call to `sbrk` or `brk` succeeds is a parameter.
 */
module SrcAlloc {
  import opened Blocks
  import opened CInts
  import opened Placement
  import opened Growth
  import opened Acquire
  import opened Release
  import opened Report

  const NULL: int := 0

  /**
   * The limit test of this draft: one INCREMENT on top of the bytes in use is
   * compared with the limit as an unsigned 64-bit value, whatever the size
   * the growth then asks for. A non-negative limit is a plain bound, so a
   * limit of 0 refuses every growth; a negative limit reads as a value of at
   * least 2^63 and refuses nothing on a heap of realistic size.
   */
  function GrowthRefused(bytesUsed: int, limit: Int32, increment: int): (r: bool)
    ensures 0 <= limit ==> (r <==> bytesUsed + increment > limit)
    ensures limit == 0 && 0 <= bytesUsed && 0 < increment ==> r
    ensures limit < 0 && bytesUsed + increment <= TWO_63 ==> !r
  {
    bytesUsed + increment > ToU64(limit)
  }

  /**
   * The test looks at one INCREMENT while the growth may take several, so a
   * growth it lets through can take the heap past the limit: with no bytes in
   * use and a limit of one INCREMENT, a request of one byte more than an
   * INCREMENT passes and grows the heap by two INCREMENTs.
   */
  lemma GrowthMayPassLimit(increment: int)
    requires 0 < increment <= INT_MAX
    ensures !GrowthRefused(0, increment, increment)
    ensures GrowthBytes(increment + 1, increment) == 2 * increment
    ensures 0 + GrowthBytes(increment + 1, increment) > increment
  {
    assert GrowFrom(2 * increment, increment + 1, increment) == 2 * increment;
  }

  class Allocator {
    /** `sizeof(struct header)`. */
    const header: int
    /** `INCREMENT`. */
    const increment: int

    /** The free list from `head` along the `next` links. */
    var free: seq<Block>
    /** The `size` field in the header of every block handed out and not yet released. */
    var live: map<int, int>
    var algo: Algo
    var heapLimit: Int32
    /** `heap_start`; `NULL` until `allocopt` first runs. */
    var heapStart: int
    /** The program break (`sbrk(0)`). */
    var brk: int

    ghost predicate Valid()
      reads this
    {
      && 0 < header && 0 < increment
      && 0 < brk && 0 <= heapStart <= brk
      && Layout(free, live, header, brk)
    }

    /** The state at program start: the initialisers of the globals. */
    constructor (header: int, increment: int, initialBreak: int)
      requires 0 < header && 0 < increment && 0 < initialBreak
      ensures Valid()
      ensures this.header == header && this.increment == increment && brk == initialBreak
      ensures free == [] && live == map[]
      ensures algo == FirstFit && heapLimit == 0 && heapStart == NULL
    {
      this.header := header;
      this.increment := increment;
      brk := initialBreak;
      free := [];
      live := map[];
      algo := FirstFit;
      heapLimit := 0;
      heapStart := NULL;
    }

    /**
     * `alloc(size)`: NULL for a non-positive size; otherwise the block the
     * strategy picks, or on a miss a fresh block of whole INCREMENTs at the
     * old break (unless the limit or `sbrk` refuses); the block is unlinked and
     * split when the leftover is larger than a header.
     */
    method Alloc(size: Int32, sbrkOk: bool) returns (p: int)
      requires Valid()
      modifies this
      ensures Valid()
      ensures algo == old(algo) && heapLimit == old(heapLimit) && heapStart == old(heapStart)
      ensures p == NULL <==>
                || size <= 0
                || (&& Pick(old(free), algo, size + header).None?
                    && (GrowthRefused(old(brk) - heapStart, heapLimit, increment) || !sbrkOk))
      ensures p == NULL ==> free == old(free) && live == old(live) && brk == old(brk)
      ensures p != NULL && Pick(old(free), algo, size + header).Some? ==>
                var k := Pick(old(free), algo, size + header).value;
                var r := Split(old(free)[k], size + header, header);
                && brk == old(brk)
                && p == r.given.addr + header
                && free == Push(r.leftover, RemoveAt(old(free), k))
                && live == old(live)[r.given.addr := r.given.size]
      ensures p != NULL && Pick(old(free), algo, size + header).None? ==>
                brk - old(brk) == GrowthBytes(size + header, increment)
      ensures p != NULL && Pick(old(free), algo, size + header).None? ==>
                var r := Split(Block(old(brk), brk - old(brk)), size + header, header);
                && p == r.given.addr + header
                && free == Push(r.leftover, old(free))
                && live == old(live)[r.given.addr := r.given.size]
      ensures p != NULL ==> p - header !in old(live) && live[p - header] - header >= size
    {
      if size <= 0 {
        return NULL;
      }
      var total := size + header;
      var pick := Place(free, algo, total);
      if pick.Some? {
        p := Take(pick.value, total);
      } else {
        p := AllocFromBreak(total, sbrkOk);
      }
    }

    /**
     * The miss path of `alloc`: refused when one more INCREMENT would pass the
     * limit or when `sbrk` fails; otherwise whole INCREMENTs covering `total`.
     */
    method AllocFromBreak(total: int, sbrkOk: bool) returns (p: int)
      requires Valid() && header < total
      modifies this
      ensures Valid()
      ensures algo == old(algo) && heapLimit == old(heapLimit) && heapStart == old(heapStart)
      ensures p == NULL <==> GrowthRefused(old(brk) - heapStart, heapLimit, increment) || !sbrkOk
      ensures p == NULL ==> free == old(free) && live == old(live) && brk == old(brk)
      ensures p != NULL ==> brk - old(brk) == GrowthBytes(total, increment)
      ensures p != NULL ==>
                var r := Split(Block(old(brk), brk - old(brk)), total, header);
                && p == r.given.addr + header
                && free == Push(r.leftover, old(free))
                && live == old(live)[r.given.addr := r.given.size]
      ensures p != NULL ==> p - header !in old(live) && live[p - header] >= total
    {
      var bytesUsed := brk - heapStart;
      if GrowthRefused(bytesUsed, heapLimit, increment) {
        return NULL;
      }
      var requested := GrowthSize(total, increment);
      if !sbrkOk {
        return NULL;
      }
      Grow(requested);
      // the new block is pushed on the list and then unlinked again as the chosen one
      assert free[0] == Block(old(brk), brk - old(brk)) && RemoveAt(free, 0) == old(free);
      p := Take(0, total);
    }

    /** A successful `sbrk(requested)`: a fresh free block at the old break goes to the front. */
    method Grow(requested: int)
      requires Valid() && header < requested
      modifies this
      ensures Valid()
      ensures algo == old(algo) && heapLimit == old(heapLimit) && heapStart == old(heapStart)
      ensures live == old(live)
      ensures brk == old(brk) + requested
      ensures free == [Block(old(brk), requested)] + old(free)
    {
      GrowKeepsLayout(free, live, header, brk, requested);
      free := [Block(brk, requested)] + free;
      brk := brk + requested;
    }

    /**
     * The tail of `alloc`: unlink free block `k`, split off a leftover larger
     * than a header, and hand out the rest.
     */
    method Take(k: int, total: int) returns (p: int)
      requires Valid()
      requires 0 <= k < |free| && free[k].size >= total > header
      modifies this
      ensures Valid()
      ensures algo == old(algo) && heapLimit == old(heapLimit) && heapStart == old(heapStart)
      ensures brk == old(brk)
      ensures p > header
      ensures var r := Split(old(free)[k], total, header);
                && p == r.given.addr + header
                && free == Push(r.leftover, RemoveAt(old(free), k))
                && live == old(live)[r.given.addr := r.given.size]
                && r.given.addr !in old(live)
      ensures p - header !in old(live) && live[p - header] >= total
    {
      TakeKeepsLayout(free, live, header, brk, k, total);
      var chosen := free[k];
      free := RemoveAt(free, k);
      var remainder := chosen.size - total;
      if remainder > header {
        free := [Block(chosen.addr + total, remainder)] + free;
        chosen := Block(chosen.addr, total);
      }
      live := live[chosen.addr := chosen.size];
      p := chosen.addr + header;
    }

    /**
     * `allocopt(alg, limit)`: selects the strategy and the limit and empties the
     * free list; after the first call the break is first moved back to
     * `heap_start`, and `heap_start` is then re-anchored at the break.
     */
    method AllocOpt(alg: Algo, limit: Int32, brkOk: bool)
      requires Valid()
      modifies this
      ensures Valid()
      ensures algo == alg && heapLimit == limit && free == [] && live == map[]
      ensures brk == if old(heapStart) != NULL && brkOk then old(heapStart) else old(brk)
      ensures heapStart == brk
    {
      algo := alg;
      heapLimit := limit;
      if heapStart != NULL && brkOk {
        brk := heapStart;
      }
      heapStart := brk;
      free := [];
      live := map[];
    }

    /**
     * `dealloc(ptr)`: nothing for NULL; otherwise the block is merged with
     * every adjacent free block and the result pushed to the front. The free
     * bytes grow by exactly the block's size.
     */
    method Dealloc(ptr: int)
      requires Valid()
      requires ptr == NULL || ptr - header in live
      modifies this
      ensures Valid()
      ensures algo == old(algo) && heapLimit == old(heapLimit) && heapStart == old(heapStart)
      ensures brk == old(brk)
      ensures ptr == NULL ==> free == old(free) && live == old(live)
      ensures ptr != NULL ==>
                && live == old(live) - {ptr - header}
                && Released(old(free), Block(ptr - header, old(live)[ptr - header]), free)
                && (Coalesced(old(free)) ==> Coalesced(free))
    {
      if ptr == NULL {
        return;
      }
      var a := ptr - header;
      var block := Block(a, live[a]);
      var rest, merged := Coalesce(free, block);
      ReleaseKeepsLayout(free, live, header, brk, a, rest, merged);
      PushMergedReleases(free, block, rest, merged);
      free := [merged] + rest;
      live := live - {a};
    }

    /** `allocinfo()`: reads the free list and changes nothing. */
    method AllocInfo() returns (info: Info)
      requires Valid()
      ensures info == Info(UsableSum(free, header), |free|, Largest(free, header), Smallest(free, header))
    {
      info := Summarize(free, header);
    }
  }
}
