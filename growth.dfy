/**
 * Growth size of the arena: on a miss, `alloc` asks `sbrk` for the smallest
 * multiple of INCREMENT (at least one INCREMENT) that covers `total`.
 */
module Growth {

  /**
   * The value the growth loop ends with when the requested size currently
   * holds `requested`: one INCREMENT is added until `total` is covered.
   */
  function GrowFrom(requested: int, total: int, inc: int): (r: int)
    requires inc > 0
    ensures r >= requested && r >= total
    ensures r == requested || r - inc < total
    decreases total - requested
  {
    if requested >= total then requested else GrowFrom(requested + inc, total, inc)
  }

  /** Bytes one growth asks `sbrk` for: the loop started at one INCREMENT. */
  function GrowthBytes(total: int, inc: int): (r: int)
    requires inc > 0
    ensures r >= total && r >= inc
    ensures r == inc || r - inc < total
  {
    GrowFrom(inc, total, inc)
  }

  /** How many INCREMENTs one growth asks for: the least `k >= 1` with `k * inc >= total`. */
  function Increments(total: int, inc: int): (k: nat)
    requires inc > 0
    ensures k >= 1 && k * inc >= total
    ensures k == 1 || (k - 1) * inc < total
    decreases total
  {
    if total <= inc then 1 else 1 + Increments(total - inc, inc)
  }

  /** The two properties of `Increments` single it out: it is the least such count. */
  lemma {:induction false} IncrementsUnique(total: int, inc: int, n: int)
    requires inc > 0 && n >= 1
    requires n * inc >= total
    requires n == 1 || (n - 1) * inc < total
    ensures n == Increments(total, inc)
    decreases total
  {
    if total > inc {
      assert n > 1;
      assert (n - 1) * inc == n * inc - inc;
      assert n - 1 == 1 || (n - 2) * inc < total - inc by {
        assert (n - 2) * inc == (n - 1) * inc - inc;
      }
      IncrementsUnique(total - inc, inc, n - 1);
    }
  }

  /** Started from a multiple `n` of INCREMENT that is not yet past `total`, the loop ends at the least one that is. */
  lemma {:induction false} GrowFromMultiple(n: int, total: int, inc: int)
    requires inc > 0 && n >= 1
    requires n == 1 || (n - 1) * inc < total
    ensures GrowFrom(n * inc, total, inc) == Increments(total, inc) * inc
    decreases total - n * inc
  {
    if n * inc >= total {
      IncrementsUnique(total, inc, n);
    } else {
      assert n * inc + inc == (n + 1) * inc;
      GrowFromMultiple(n + 1, total, inc);
    }
  }

  /** The growth is the smallest multiple of INCREMENT, one INCREMENT at least, that covers `total`. */
  lemma GrowthBytesIsLeastMultiple(total: int, inc: int)
    requires inc > 0
    ensures GrowthBytes(total, inc) == Increments(total, inc) * inc
  {
    GrowFromMultiple(1, total, inc);
  }

  /**
   * The growth loop of both drafts, on unbounded integers: start at one
   * INCREMENT and add one more while `total` is not covered.
   */
  method GrowthSize(total: int, increment: int) returns (requested: int)
    requires increment > 0
    ensures requested == GrowthBytes(total, increment)
  {
    requested := increment;
    while requested < total
      invariant GrowFrom(requested, total, increment) == GrowthBytes(total, increment)
      decreases total - requested
    {
      requested := requested + increment;
    }
  }
}
