/**
 * The allocator of a9/alloc.c, the draft that pads requests to a multiple of
 * 8, checks the limit against the rounded-up growth in `int` arithmetic, and
 * anchors `heap_start` only once. State and parameters as in `SrcAlloc`.
 */
module DraftAlloc {
  import opened Blocks
  import opened CInts
  import opened Placement
  import opened Growth
  import opened Acquire
  import opened Release
  import opened Report

  const NULL: int := 0

  /** Lines 24-29: `total` padded up to a multiple of 8. */
  function Padded(total: int): (r: int)
    requires total >= 0
    ensures r % 8 == 0
    ensures total <= r < total + 8
  {
    if total % 8 != 0 then total + (8 - total % 8) else total
  }

  /**
   * The limit test of this draft: the bytes in use plus the whole growth, as
   * `int`s, here without overflow (`GrowthRefusedAsWritten` has the `int`
   * sum). A growth it lets through keeps the heap within the limit; a limit
   * of 0 or below refuses every positive growth; and a negative growth, which
   * the wrapping loop can produce, passes whenever the heap is within the limit.
   */
  function GrowthRefused(bytesUsed: int, limit: Int32, requested: int): (r: bool)
    ensures !r ==> bytesUsed + requested <= limit
    ensures limit <= 0 && 0 <= bytesUsed && 0 < requested ==> r
    ensures bytesUsed <= limit && requested < 0 ==> !r
  {
    bytesUsed + requested > limit
  }

  /**
   * The growth loop of lines 80-85 as written: `requested_size` is an `int`
   * compared with the unsigned `total`. Its overflow past INT_MAX is undefined
   * in C; the model takes the usual two's-complement wrap (`Wrap32`).
   */
  function RequestedAsWritten(requested: Int32, total: int, inc: int): Int32
    requires 0 < inc <= INT_MAX && 0 <= total < TWO_63
    decreases if requested < 0 then 0 else TWO_32 - requested
  {
    if ToU64(requested) >= total then requested
    else RequestedAsWritten(Wrap32(requested + inc), total, inc)
  }

  /** Once `total` is past INT_MAX, no `int` reaches it: the loop wraps to a negative size. */
  lemma {:induction false} RequestWraps(requested: Int32, total: int, inc: int)
    requires 0 < inc <= INT_MAX && INT_MAX < total < TWO_63
    requires 0 < requested
    ensures RequestedAsWritten(requested, total, inc) < 0
    ensures RequestedAsWritten(requested, total, inc) <= inc - INT_MAX - 2
    decreases TWO_32 - requested
  {
    if requested + inc <= INT_MAX {
      RequestWraps(requested + inc, total, inc);
    }
  }

  /**
   * `alloc(INT_MAX)` when no free block fits: the loop leaves a negative
   * `requested_size`, the limit test of line 87 passes for any non-negative
   * limit, and line 91 calls `sbrk` with a negative size.
   */
  lemma IntMaxRequestPassesLimit(h: int, inc: int, bytesUsed: int, limit: Int32)
    requires 0 < h < 0x1000 && 0 < inc <= INT_MAX
    requires 0 <= bytesUsed && bytesUsed + inc <= INT_MAX + 1 && 0 <= limit
    ensures RequestedAsWritten(inc, Padded(INT_MAX + h), inc) < 0
    ensures !GrowthRefused(bytesUsed, limit, RequestedAsWritten(inc, Padded(INT_MAX + h), inc))
  {
    RequestWraps(inc, Padded(INT_MAX + h), inc);
  }

  /** With the growth computed without wrap-around, the same request is refused by the limit test. */
  lemma IntMaxRequestRefused(h: int, inc: int, bytesUsed: int, limit: Int32)
    requires 0 < h && 0 < inc
    requires 0 <= bytesUsed
    ensures GrowthRefused(bytesUsed, limit, GrowthBytes(Padded(INT_MAX + h), inc))
  {
  }

  /**
   * The limit test of line 87 as written: `bytes_used + requested_size` is an
   * `int` sum, wrapped as `Wrap32` assumes when it passes INT_MAX. Without
   * overflow it agrees with `GrowthRefused`.
   */
  function GrowthRefusedAsWritten(bytesUsed: Int32, limit: Int32, requested: Int32): (r: bool)
    ensures INT_MIN <= bytesUsed + requested <= INT_MAX ==> (r <==> GrowthRefused(bytesUsed, limit, requested))
  {
    Wrap32(bytesUsed + requested) > limit
  }

  /** Below INT_MAX the loop as written never wraps and ends where the unbounded loop does. */
  lemma {:induction false} RequestedNoWrap(requested: Int32, total: int, inc: int)
    requires 0 < inc <= INT_MAX && 0 <= total < TWO_63
    requires 0 <= requested && GrowFrom(requested, total, inc) <= INT_MAX
    ensures RequestedAsWritten(requested, total, inc) == GrowFrom(requested, total, inc)
    decreases total - requested
  {
    if requested < total {
      RequestedNoWrap(requested + inc, total, inc);
    }
  }

  /**
   * A growth that does not wrap can still take the `int` sum of line 87 past
   * INT_MAX: the sum wraps to a negative value, the test passes for every
   * non-negative limit, and `sbrk` grows the heap past the limit. The test on
   * the unbounded sum refuses the same growth.
   */
  lemma LimitSumWrapsPastLimit(inc: int, bytesUsed: Int32, limit: Int32, total: int)
    requires 0 < inc <= INT_MAX && 0 <= total && total + inc - 1 <= INT_MAX
    requires 0 <= bytesUsed && 0 <= limit
    requires bytesUsed + GrowthBytes(total, inc) > INT_MAX
    ensures RequestedAsWritten(inc, total, inc) == GrowthBytes(total, inc)
    ensures !GrowthRefusedAsWritten(bytesUsed, limit, RequestedAsWritten(inc, total, inc))
    ensures bytesUsed + GrowthBytes(total, inc) > limit
    ensures GrowthRefused(bytesUsed, limit, GrowthBytes(total, inc))
  {
    RequestedNoWrap(inc, total, inc);
  }

  class Allocator {
    /** `sizeof(struct header)`. */
    const header: int
    /** `INCREMENT`. */
    const increment: int

    /** The free list from `head` along the `next` links. */
    var free: seq<Block>
    /** The `size` field in the header of every block handed out and not yet released. */
    var live: map<int, int>
    var algo: Algo
    var heapLimit: Int32
    /** `heap_start`; `NULL` until `allocopt` first runs. */
    var heapStart: int
    /** The program break (`sbrk(0)`). */
    var brk: int

    ghost predicate Valid()
      reads this
    {
      && 0 < header && 0 < increment
      && 0 < brk && 0 <= heapStart <= brk
      && Layout(free, live, header, brk)
    }

    /** The state at program start: the initialisers of the globals. */
    constructor (header: int, increment: int, initialBreak: int)
      requires 0 < header && 0 < increment && 0 < initialBreak
      ensures Valid()
      ensures this.header == header && this.increment == increment && brk == initialBreak
      ensures free == [] && live == map[]
      ensures algo == FirstFit && heapLimit == 0 && heapStart == NULL
    {
      this.header := header;
      this.increment := increment;
      brk := initialBreak;
      free := [];
      live := map[];
      algo := FirstFit;
      heapLimit := 0;
      heapStart := NULL;
    }

    /**
     * `alloc(size)`: NULL for a non-positive size; otherwise the block the
     * strategy picks, or on a miss a fresh block of whole INCREMENTs at the
     * old break (unless the limit or `sbrk` refuses); the block is unlinked and
     * split when the leftover is larger than a header.
     */
    method Alloc(size: Int32, sbrkOk: bool) returns (p: int)
      requires Valid()
      modifies this
      ensures Valid()
      ensures algo == old(algo) && heapLimit == old(heapLimit) && heapStart == old(heapStart)
      ensures p == NULL <==>
                || size <= 0
                || (&& Pick(old(free), algo, Padded(size + header)).None?
                    && (|| GrowthRefused(old(brk) - heapStart, heapLimit, GrowthBytes(Padded(size + header), increment))
                        || !sbrkOk))
      ensures p == NULL ==> free == old(free) && live == old(live) && brk == old(brk)
      ensures p != NULL && Pick(old(free), algo, Padded(size + header)).Some? ==>
                var k := Pick(old(free), algo, Padded(size + header)).value;
                var r := Split(old(free)[k], Padded(size + header), header);
                && brk == old(brk)
                && p == r.given.addr + header
                && free == Push(r.leftover, RemoveAt(old(free), k))
                && live == old(live)[r.given.addr := r.given.size]
      ensures p != NULL && Pick(old(free), algo, Padded(size + header)).None? ==>
                brk - old(brk) == GrowthBytes(Padded(size + header), increment)
      ensures p != NULL && Pick(old(free), algo, Padded(size + header)).None? ==>
                var r := Split(Block(old(brk), brk - old(brk)), Padded(size + header), header);
                && p == r.given.addr + header
                && free == Push(r.leftover, old(free))
                && live == old(live)[r.given.addr := r.given.size]
      ensures p != NULL ==> p - header !in old(live) && live[p - header] - header >= size
      ensures brk != old(brk) ==> brk - heapStart <= heapLimit
    {
      if size <= 0 {
        return NULL;
      }
      var total := Padded(size + header);
      var pick := Place(free, algo, total);
      if pick.Some? {
        p := Take(pick.value, total);
      } else {
        p := AllocFromBreak(total, sbrkOk);
      }
    }

    /**
     * The miss path of `alloc`: whole INCREMENTs covering `total`, refused when
     * they would take the heap past the limit or when `sbrk` fails.
     */
    method AllocFromBreak(total: int, sbrkOk: bool) returns (p: int)
      requires Valid() && header < total
      modifies this
      ensures Valid()
      ensures algo == old(algo) && heapLimit == old(heapLimit) && heapStart == old(heapStart)
      ensures p == NULL <==> GrowthRefused(old(brk) - heapStart, heapLimit, GrowthBytes(total, increment)) || !sbrkOk
      ensures p == NULL ==> free == old(free) && live == old(live) && brk == old(brk)
      ensures p != NULL ==> brk - old(brk) == GrowthBytes(total, increment)
      ensures p != NULL ==>
                var r := Split(Block(old(brk), brk - old(brk)), total, header);
                && p == r.given.addr + header
                && free == Push(r.leftover, old(free))
                && live == old(live)[r.given.addr := r.given.size]
      ensures p != NULL ==> p - header !in old(live) && live[p - header] >= total
      ensures p != NULL ==> brk - heapStart <= heapLimit
    {
      var bytesUsed := brk - heapStart;
      var requested := GrowthSize(total, increment);
      if GrowthRefused(bytesUsed, heapLimit, requested) {
        return NULL;
      }
      if !sbrkOk {
        return NULL;
      }
      Grow(requested);
      assert brk - heapStart <= heapLimit;
      // the new block is pushed on the list and then unlinked again as the chosen one
      assert free[0] == Block(old(brk), brk - old(brk)) && RemoveAt(free, 0) == old(free);
      p := Take(0, total);
    }

    /** A successful `sbrk(requested)`: a fresh free block at the old break goes to the front. */
    method Grow(requested: int)
      requires Valid() && header < requested
      modifies this
      ensures Valid()
      ensures algo == old(algo) && heapLimit == old(heapLimit) && heapStart == old(heapStart)
      ensures live == old(live)
      ensures brk == old(brk) + requested
      ensures free == [Block(old(brk), requested)] + old(free)
    {
      GrowKeepsLayout(free, live, header, brk, requested);
      free := [Block(brk, requested)] + free;
      brk := brk + requested;
    }

    /**
     * The tail of `alloc`: unlink free block `k`, split off a leftover larger
     * than a header, and hand out the rest.
     */
    method Take(k: int, total: int) returns (p: int)
      requires Valid()
      requires 0 <= k < |free| && free[k].size >= total > header
      modifies this
      ensures Valid()
      ensures algo == old(algo) && heapLimit == old(heapLimit) && heapStart == old(heapStart)
      ensures brk == old(brk)
      ensures p > header
      ensures var r := Split(old(free)[k], total, header);
                && p == r.given.addr + header
                && free == Push(r.leftover, RemoveAt(old(free), k))
                && live == old(live)[r.given.addr := r.given.size]
                && r.given.addr !in old(live)
      ensures p - header !in old(live) && live[p - header] >= total
    {
      TakeKeepsLayout(free, live, header, brk, k, total);
      var chosen := free[k];
      free := RemoveAt(free, k);
      var remainder := chosen.size - total;
      if remainder > header {
        free := [Block(chosen.addr + total, remainder)] + free;
        chosen := Block(chosen.addr, total);
      }
      live := live[chosen.addr := chosen.size];
      p := chosen.addr + header;
    }

    /**
     * `allocopt(alg, limit)`: selects the strategy and the limit and empties the
     * free list; the first call anchors `heap_start` at the break, later calls
     * move the break back to it and leave it where it is.
     */
    method AllocOpt(alg: Algo, limit: Int32, brkOk: bool)
      requires Valid()
      modifies this
      ensures Valid()
      ensures algo == alg && heapLimit == limit && free == [] && live == map[]
      ensures old(heapStart) == NULL ==> heapStart == old(brk) && brk == old(brk)
      ensures old(heapStart) != NULL ==>
                && heapStart == old(heapStart)
                && brk == if brkOk then old(heapStart) else old(brk)
    {
      algo := alg;
      heapLimit := limit;
      if heapStart == NULL {
        heapStart := brk;
      } else if brkOk {
        brk := heapStart;
      }
      free := [];
      live := map[];
    }

    /**
     * `dealloc(ptr)`: nothing for NULL; otherwise the block is merged with
     * every adjacent free block and the result pushed to the front. The free
     * bytes grow by exactly the block's size.
     */
    method Dealloc(ptr: int)
      requires Valid()
      requires ptr == NULL || ptr - header in live
      modifies this
      ensures Valid()
      ensures algo == old(algo) && heapLimit == old(heapLimit) && heapStart == old(heapStart)
      ensures brk == old(brk)
      ensures ptr == NULL ==> free == old(free) && live == old(live)
      ensures ptr != NULL ==>
                && live == old(live) - {ptr - header}
                && Released(old(free), Block(ptr - header, old(live)[ptr - header]), free)
                && (Coalesced(old(free)) ==> Coalesced(free))
    {
      if ptr == NULL {
        return;
      }
      var a := ptr - header;
      var block := Block(a, live[a]);
      var rest, merged := Coalesce(free, block);
      ReleaseKeepsLayout(free, live, header, brk, a, rest, merged);
      PushMergedReleases(free, block, rest, merged);
      free := [merged] + rest;
      live := live - {a};
    }

    /** `allocinfo()`: reads the free list and changes nothing. */
    method AllocInfo() returns (info: Info)
      requires Valid()
      ensures info == Info(UsableSum(free, header), |free|, Largest(free, header), Smallest(free, header))
    {
      info := Summarize(free, header);
    }
  }
}
