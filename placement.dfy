/**
 * The placement scan of `alloc`: one pass over the free list choosing a block
 * of at least `total` bytes by first-fit, best-fit or worst-fit.
 */
module Placement {
  import opened Options
  import opened Blocks

  /** `enum algs`; any value other than FIRST_FIT and BEST_FIT takes the WORST_FIT branch. */
  datatype Algo = FirstFit | BestFit | WorstFit

  predicate Fits(b: Block, total: int) {
    b.size >= total
  }

  /** No block of the list is large enough. */
  ghost predicate NoFit(s: seq<Block>, total: int) {
    forall i :: 0 <= i < |s| ==> !Fits(s[i], total)
  }

  /**
   * Declarative statement of each strategy's choice: position `k` of `s` fits,
   * and it is the first fitting one (first-fit), or a fitting one of minimal
   * (best-fit) or maximal (worst-fit) size that no earlier block ties.
   */
  ghost predicate Chosen(algo: Algo, s: seq<Block>, total: int, k: int) {
    && 0 <= k < |s|
    && Fits(s[k], total)
    && match algo
       case FirstFit =>
         forall j :: 0 <= j < k ==> !Fits(s[j], total)
       case BestFit =>
         && (forall j :: 0 <= j < |s| && Fits(s[j], total) ==> s[k].size <= s[j].size)
         && (forall j :: 0 <= j < k && Fits(s[j], total) ==> s[k].size < s[j].size)
       case WorstFit =>
         && (forall j :: 0 <= j < |s| && Fits(s[j], total) ==> s[j].size <= s[k].size)
         && (forall j :: 0 <= j < k && Fits(s[j], total) ==> s[j].size < s[k].size)
  }

  /**
   * Reference definition of the choice among the first `n` blocks, block by
   * block: a fitting block replaces the current choice when there is none, or
   * (best-fit, worst-fit) when it is strictly smaller, strictly larger.
   */
  function PickUpTo(s: seq<Block>, algo: Algo, total: int, n: nat): (r: Option<nat>)
    requires n <= |s|
    ensures r.Some? ==> r.value < n && Fits(s[r.value], total)
  {
    if n == 0 then None
    else
      var prev := PickUpTo(s, algo, total, n - 1);
      if !Fits(s[n - 1], total) then prev
      else if prev.None? then Some(n - 1)
      else match algo
        case FirstFit => prev
        case BestFit => if s[n - 1].size < s[prev.value].size then Some(n - 1) else prev
        case WorstFit => if s[n - 1].size > s[prev.value].size then Some(n - 1) else prev
  }

  function Pick(s: seq<Block>, algo: Algo, total: int): (r: Option<nat>)
    ensures r.Some? ==> r.value < |s| && Fits(s[r.value], total)
  {
    PickUpTo(s, algo, total, |s|)
  }

  /** The block-by-block choice among the first `n` blocks is the declarative one. */
  lemma {:induction false} PickUpToChosen(s: seq<Block>, algo: Algo, total: int, n: nat)
    requires n <= |s|
    ensures PickUpTo(s, algo, total, n).None? <==> NoFit(s[..n], total)
    ensures PickUpTo(s, algo, total, n).Some? ==> Chosen(algo, s[..n], total, PickUpTo(s, algo, total, n).value)
  {
    if n > 0 {
      PickUpToChosen(s, algo, total, n - 1);
      assert s[..n][..n - 1] == s[..n - 1];
    }
  }

  /**
   * `Pick` is `None` exactly when nothing fits, and otherwise the position the
   * strategy prescribes, ties going to the earliest block.
   */
  lemma PickIsChosen(s: seq<Block>, algo: Algo, total: int)
    ensures Pick(s, algo, total).None? <==> NoFit(s, total)
    ensures Pick(s, algo, total).Some? ==> Chosen(algo, s, total, Pick(s, algo, total).value)
  {
    PickUpToChosen(s, algo, total, |s|);
    assert s[..|s|] == s;
  }

  /** A first-fit choice, once made, is never replaced by a later block. */
  lemma {:induction false} FirstFitStays(s: seq<Block>, total: int, k: nat, n: nat)
    requires k < n <= |s|
    requires PickUpTo(s, FirstFit, total, k + 1) == Some(k)
    ensures PickUpTo(s, FirstFit, total, n) == Some(k)
  {
    if n > k + 1 {
      FirstFitStays(s, total, k, n - 1);
    }
  }

  /**
   * The scan loop of `alloc`. First-fit stops at the first block that fits;
   * best-fit and worst-fit walk the whole list and replace the choice only on a
   * strictly better block.
   */
  method Place(free: seq<Block>, algo: Algo, total: int) returns (chosen: Option<nat>)
    ensures chosen == Pick(free, algo, total)
    ensures chosen.None? <==> NoFit(free, total)
    ensures chosen.Some? ==> Chosen(algo, free, total, chosen.value)
  {
    chosen := None;
    var i := 0;
    while i < |free|
      invariant 0 <= i <= |free|
      invariant chosen == PickUpTo(free, algo, total, i)
      invariant algo == FirstFit ==> chosen.None?
    {
      if Fits(free[i], total) {
        if algo == FirstFit {
          chosen := Some(i);
          FirstFitStays(free, total, i, |free|);
          break;
        } else if algo == BestFit {
          if chosen.None? || free[i].size < free[chosen.value].size {
            chosen := Some(i);
          }
        } else {
          if chosen.None? || free[i].size > free[chosen.value].size {
            chosen := Some(i);
          }
        }
      }
      i := i + 1;
    }
    PickIsChosen(free, algo, total);
  }
}
