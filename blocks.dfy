/**
 * Blocks of the arena and the layout invariant of the heap.
 *
 * A block is a header address and the block's total size in bytes, header
 * included (the `size` field of `struct header`). The free list threaded
 * through the `next` fields is modelled as a sequence of blocks in list order;
 * the header of a block handed out to a client is a map entry from its address
 * to its size.
 */
module Blocks {

  datatype Block = Block(addr: int, size: int)

  /** One past the last byte of the block. */
  function End(b: Block): int {
    b.addr + b.size
  }

  /** The two blocks share no byte. */
  predicate Disjoint(a: Block, b: Block) {
    End(a) <= b.addr || End(b) <= a.addr
  }

  /** One block ends exactly where the other starts (the test of `dealloc`). */
  predicate Adjacent(a: Block, b: Block) {
    End(a) == b.addr || End(b) == a.addr
  }

  /** Total bytes, headers included, of the blocks of a list. */
  function SumSizes(s: seq<Block>): int {
    if s == [] then 0 else s[0].size + SumSizes(s[1..])
  }

  /** The list with the element at position `k` unlinked. */
  function RemoveAt<T>(s: seq<T>, k: int): (r: seq<T>)
    requires 0 <= k < |s|
    ensures |r| == |s| - 1
    ensures forall j :: 0 <= j < k ==> r[j] == s[j]
    ensures forall j :: k <= j < |r| ==> r[j] == s[j + 1]
  {
    s[..k] + s[k + 1..]
  }

  /** `y` lies inside `c`. */
  predicate Within(y: Block, c: Block) {
    c.addr <= y.addr && End(y) <= End(c)
  }

  /** `a` is `b` with some elements left out and the others in the same order. */
  ghost predicate IsSubseq<T>(a: seq<T>, b: seq<T>)
    decreases |b|
  {
    if |a| == 0 then true
    else if |b| == 0 then false
    else (a[0] == b[0] && IsSubseq(a[1..], b[1..])) || IsSubseq(a, b[1..])
  }

  /** No two blocks of the list overlap. */
  ghost predicate PairwiseDisjoint(s: seq<Block>) {
    forall i, j :: 0 <= i < j < |s| ==> Disjoint(s[i], s[j])
  }

  /** No block of the list ends where another (or the same) one starts. */
  ghost predicate Coalesced(s: seq<Block>) {
    forall x, y :: x in s && y in s ==> End(x) != y.addr
  }

  /** A block lies below the break, is not at NULL and is larger than its header. */
  predicate InArena(b: Block, h: int, brk: int) {
    0 < b.addr && h < b.size && End(b) <= brk
  }

  /**
   * The heap's invariant: every free and every allocated block lies in the
   * arena and holds more than a header, and no two of them overlap.
   */
  ghost predicate Layout(free: seq<Block>, live: map<int, int>, h: int, brk: int) {
    && (forall i :: 0 <= i < |free| ==> InArena(free[i], h, brk))
    && PairwiseDisjoint(free)
    && (forall a :: a in live ==> InArena(Block(a, live[a]), h, brk))
    && (forall a, a' :: a in live && a' in live && a != a' ==>
          Disjoint(Block(a, live[a]), Block(a', live[a'])))
    && (forall a, i :: a in live && 0 <= i < |free| ==> Disjoint(Block(a, live[a]), free[i]))
  }

  /** Unlinking a block from the free list takes exactly its bytes out of the list's total. */
  lemma {:induction false} SumSizesRemoveAt(s: seq<Block>, k: int)
    requires 0 <= k < |s|
    ensures SumSizes(RemoveAt(s, k)) == SumSizes(s) - s[k].size
  {
    if k > 0 {
      assert RemoveAt(s, k)[0] == s[0];
      assert RemoveAt(s, k)[1..] == RemoveAt(s[1..], k - 1);
      SumSizesRemoveAt(s[1..], k - 1);
    } else {
      assert RemoveAt(s, k) == s[1..];
    }
  }

  /** Appending a block adds its size to the total. */
  lemma {:induction false} SumSizesSnoc(s: seq<Block>, b: Block)
    ensures SumSizes(s + [b]) == SumSizes(s) + b.size
  {
    if s != [] {
      assert (s + [b])[1..] == s[1..] + [b];
      SumSizesSnoc(s[1..], b);
    }
  }

  /** Unlinking a block keeps the others pairwise disjoint. */
  lemma RemoveAtKeepsDisjoint(s: seq<Block>, k: int)
    requires 0 <= k < |s|
    requires PairwiseDisjoint(s)
    ensures PairwiseDisjoint(RemoveAt(s, k))
  {
    var r := RemoveAt(s, k);
    forall i, j | 0 <= i < j < |r|
      ensures Disjoint(r[i], r[j])
    {
      var i', j' := if i < k then i else i + 1, if j < k then j else j + 1;
      assert r[i] == s[i'] && r[j] == s[j'] && i' < j';
    }
  }

  /** Every element of the list with one element unlinked is another element of the list. */
  lemma RemoveAtMember(s: seq<Block>, k: int, x: Block)
    requires 0 <= k < |s|
    requires x in RemoveAt(s, k)
    ensures exists j :: 0 <= j < |s| && j != k && s[j] == x
  {
    var r := RemoveAt(s, k);
    var m :| 0 <= m < |r| && r[m] == x;
    if m < k {
      assert s[m] == x;
    } else {
      assert s[m + 1] == x;
    }
  }

  lemma {:induction false} SubseqRefl<T>(s: seq<T>)
    ensures IsSubseq(s, s)
    decreases |s|
  {
    if |s| > 0 {
      SubseqRefl(s[1..]);
    }
  }

  /** Unlinking one element leaves the others in their order. */
  lemma {:induction false} SubseqRemoveAt<T>(s: seq<T>, k: int)
    requires 0 <= k < |s|
    ensures IsSubseq(RemoveAt(s, k), s)
    decreases |s|
  {
    var r := RemoveAt(s, k);
    if k == 0 {
      assert r == s[1..];
      SubseqRefl(s[1..]);
    } else {
      assert r[0] == s[0];
      assert r[1..] == RemoveAt(s[1..], k - 1);
      SubseqRemoveAt(s[1..], k - 1);
    }
  }

  lemma {:induction false} SubseqTrans<T>(a: seq<T>, b: seq<T>, c: seq<T>)
    requires IsSubseq(a, b) && IsSubseq(b, c)
    ensures IsSubseq(a, c)
    decreases |c|
  {
    if |a| > 0 {
      if IsSubseq(b, c[1..]) {
        SubseqTrans(a, b, c[1..]);
      } else if a[0] == b[0] && IsSubseq(a[1..], b[1..]) {
        SubseqTrans(a[1..], b[1..], c[1..]);
      } else {
        SubseqTrans(a, b[1..], c[1..]);
      }
    }
  }

  lemma {:induction false} SubseqMember<T>(a: seq<T>, b: seq<T>, x: T)
    requires IsSubseq(a, b) && x in a
    ensures x in b
    decreases |b|
  {
    if !(a[0] == b[0] && IsSubseq(a[1..], b[1..])) {
      SubseqMember(a, b[1..], x);
    } else if x != a[0] {
      SubseqMember(a[1..], b[1..], x);
    }
  }

  lemma {:induction false} SubseqLength<T>(a: seq<T>, b: seq<T>)
    requires IsSubseq(a, b)
    ensures |a| <= |b|
    decreases |b|
  {
    if |a| > 0 {
      if a[0] == b[0] && IsSubseq(a[1..], b[1..]) {
        SubseqLength(a[1..], b[1..]);
      } else {
        SubseqLength(a, b[1..]);
      }
    }
  }

  /** An element the subsequence does not contain can be dropped from the front of the longer list. */
  lemma SubseqSkip<T>(a: seq<T>, x: T, b: seq<T>)
    requires IsSubseq(a, [x] + b) && x !in a
    ensures IsSubseq(a, b)
  {
    if |a| > 0 {
      assert a[0] != x;
      assert ([x] + b)[1..] == b;
    }
  }

  /** Every element of the list except the unlinked one survives unlinking. */
  lemma RemoveAtKeeps<T>(s: seq<T>, k: int, x: T)
    requires 0 <= k < |s|
    requires x in s && x != s[k]
    ensures x in RemoveAt(s, k)
  {
    var j :| 0 <= j < |s| && s[j] == x;
    if j < k {
      assert RemoveAt(s, k)[j] == x;
    } else {
      assert RemoveAt(s, k)[j - 1] == x;
    }
  }
}
