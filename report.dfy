/**
 * `allocinfo`: one pass over the free list summing and ranging the usable
 * size (block size minus header) of each free block. Both drafts do the same.
 */
module Report {
  import opened Blocks

  /** `struct allocinfo`. */
  datatype Info = Info(freeSize: int, freeChunks: int, largest: int, smallest: int)

  function Usable(b: Block, h: int): int {
    b.size - h
  }

  /** Sum of the usable sizes, accumulated in list order. */
  function UsableSum(s: seq<Block>, h: int): int
    decreases |s|
  {
    if |s| == 0 then 0 else UsableSum(s[..|s| - 1], h) + Usable(s[|s| - 1], h)
  }

  /** The largest usable size of the list, 0 for an empty list. */
  function Largest(s: seq<Block>, h: int): (r: int)
    ensures |s| == 0 ==> r == 0
    ensures forall i :: 0 <= i < |s| ==> Usable(s[i], h) <= r
    ensures |s| > 0 ==> exists i :: 0 <= i < |s| && r == Usable(s[i], h)
    decreases |s|
  {
    if |s| <= 1 then (if |s| == 0 then 0 else Usable(s[0], h))
    else
      var prev := Largest(s[..|s| - 1], h);
      var u := Usable(s[|s| - 1], h);
      assert forall i :: 0 <= i < |s| - 1 ==> s[..|s| - 1][i] == s[i];
      if u > prev then u else prev
  }

  /** The smallest usable size of the list, 0 for an empty list. */
  function Smallest(s: seq<Block>, h: int): (r: int)
    ensures |s| == 0 ==> r == 0
    ensures forall i :: 0 <= i < |s| ==> r <= Usable(s[i], h)
    ensures |s| > 0 ==> exists i :: 0 <= i < |s| && r == Usable(s[i], h)
    decreases |s|
  {
    if |s| <= 1 then (if |s| == 0 then 0 else Usable(s[0], h))
    else
      var prev := Smallest(s[..|s| - 1], h);
      var u := Usable(s[|s| - 1], h);
      assert forall i :: 0 <= i < |s| - 1 ==> s[..|s| - 1][i] == s[i];
      if u < prev then u else prev
  }

  /** The free bytes `allocinfo` reports are the list's bytes less one header per block. */
  lemma {:induction false} UsableSumIsBytesLessHeaders(s: seq<Block>, h: int)
    ensures UsableSum(s, h) == SumSizes(s) - |s| * h
    decreases |s|
  {
    if |s| > 0 {
      var init := s[..|s| - 1];
      UsableSumIsBytesLessHeaders(init, h);
      assert init + [s[|s| - 1]] == s;
      SumSizesSnoc(init, s[|s| - 1]);
    }
  }

  /**
   * The figures of `allocinfo` after one more free block of usable size `u`:
   * the sum and the count grow by it, and the extremes take it in, the first
   * block setting both.
   */
  function Tally(acc: Info, u: int): (r: Info)
    ensures r.freeSize == acc.freeSize + u && r.freeChunks == acc.freeChunks + 1
    ensures r.smallest <= u <= r.largest
    ensures acc.freeChunks == 0 ==> r.largest == u && r.smallest == u
    ensures r.largest == u || r.largest == acc.largest
    ensures r.smallest == u || r.smallest == acc.smallest
    ensures acc.freeChunks != 0 ==> r.smallest <= acc.smallest && acc.largest <= r.largest
  {
    if acc.freeChunks == 0 then Info(acc.freeSize + u, 1, u, u)
    else
      Info(acc.freeSize + u, acc.freeChunks + 1,
           if u > acc.largest then u else acc.largest,
           if u < acc.smallest then u else acc.smallest)
  }

  /** The figures accumulated over a list, block by block in list order. */
  function TallyAll(s: seq<Block>, h: int): Info
    decreases |s|
  {
    if |s| == 0 then Info(0, 0, 0, 0) else Tally(TallyAll(s[..|s| - 1], h), Usable(s[|s| - 1], h))
  }

  /** Accumulating block by block yields the sum, the count and both extremes. */
  lemma {:induction false} TallyAllIsSummary(s: seq<Block>, h: int)
    ensures TallyAll(s, h) == Info(UsableSum(s, h), |s|, Largest(s, h), Smallest(s, h))
    decreases |s|
  {
    if |s| > 0 {
      TallyAllIsSummary(s[..|s| - 1], h);
    }
  }

  /**
   * The loop of `allocinfo`: the first block sets both extremes, each later
   * block may raise the largest or lower the smallest.
   */
  method Summarize(free: seq<Block>, h: int) returns (info: Info)
    ensures info == Info(UsableSum(free, h), |free|, Largest(free, h), Smallest(free, h))
  {
    var freeSize, freeChunks, largest, smallest := 0, 0, 0, 0;
    var i := 0;
    while i < |free|
      invariant 0 <= i <= |free|
      invariant Info(freeSize, freeChunks, largest, smallest) == TallyAll(free[..i], h)
    {
      assert free[..i + 1][..i] == free[..i];
      var available := free[i].size - h;
      freeSize := freeSize + available;
      freeChunks := freeChunks + 1;
      if freeChunks == 1 {
        largest, smallest := available, available;
      } else {
        if available > largest {
          largest := available;
        }
        if available < smallest {
          smallest := available;
        }
      }
      i := i + 1;
    }
    assert free[..i] == free;
    TallyAllIsSummary(free, h);
    info := Info(freeSize, freeChunks, largest, smallest);
  }
}
