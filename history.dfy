/**
 * The line history of the shell lab: a ring of `HISTORY_SIZE` slots holding
 * copies of the most recent lines, written at `current_position` and read
 * back oldest first. Line contents are immutable strings here; `strdup` and
 * `free` are not modelled.
 */
module LineHistory {
  import opened Options

  const HISTORY_SIZE := 5

  function Min(a: int, b: int): int {
    if a < b then a else b
  }

  /**
   * The two counters after one more line: from a slot of the ring the position
   * moves to the next slot, back to slot 0 after the last one; the count grows
   * by one until the ring is full and then stays.
   */
  function Advance(position: int, count: int): (r: (int, int))
    ensures 0 <= position < HISTORY_SIZE ==> 0 <= r.0 < HISTORY_SIZE
    ensures 0 <= position < HISTORY_SIZE ==> (r.0 == 0 <==> position == HISTORY_SIZE - 1)
    ensures 0 <= position < HISTORY_SIZE - 1 ==> r.0 == position + 1
    ensures count <= HISTORY_SIZE ==> r.1 == Min(count + 1, HISTORY_SIZE)
  {
    ((position + 1) % HISTORY_SIZE, if count < HISTORY_SIZE then count + 1 else count)
  }

  /** The counters after `n` lines from the initial state (both zero). */
  function Replay(n: nat): (int, int) {
    if n == 0 then (0, 0) else var (p, c) := Replay(n - 1); Advance(p, c)
  }

  /** After `n` lines the next slot is `n` mod the size and the count is `n` capped at the size. */
  lemma {:induction false} ReplayCounters(n: nat)
    ensures Replay(n) == (n % HISTORY_SIZE, Min(n, HISTORY_SIZE))
    ensures 0 <= Replay(n).0 < HISTORY_SIZE && 0 <= Replay(n).1 <= HISTORY_SIZE
  {
    if n > 0 {
      ReplayCounters(n - 1);
      NextSlot(n - 1);
    }
  }

  lemma NextSlot(n: nat)
    ensures (n % HISTORY_SIZE + 1) % HISTORY_SIZE == (n + 1) % HISTORY_SIZE
  {
    var q := n / HISTORY_SIZE;
    assert n == HISTORY_SIZE * q + n % HISTORY_SIZE;
    assert n + 1 == HISTORY_SIZE * q + (n % HISTORY_SIZE + 1);
  }

  /**
   * The slot `print_history` starts from: slot 0 until the ring is full, then
   * the next slot to write. In every state the counters reach (the position
   * equals the count until the ring is full) that is the slot `count` places
   * behind the position, the one holding the oldest stored line.
   */
  function Start(position: int, count: int): (r: int)
    ensures 0 <= position < HISTORY_SIZE ==> 0 <= r < HISTORY_SIZE
    ensures 0 <= position < HISTORY_SIZE && 0 <= count <= HISTORY_SIZE && (count < HISTORY_SIZE ==> position == count) ==>
              r == (position - count) % HISTORY_SIZE
  {
    if count < HISTORY_SIZE then 0 else position
  }

  /**
   * The `k`-th slot visited after `n` lines holds line number `n - count + k`:
   * the walk from `Start` visits the stored lines oldest first.
   */
  lemma OldestFirst(n: nat, k: int)
    requires 0 <= k < Min(n, HISTORY_SIZE)
    ensures (Start(n % HISTORY_SIZE, Min(n, HISTORY_SIZE)) + k) % HISTORY_SIZE
            == (n - Min(n, HISTORY_SIZE) + k) % HISTORY_SIZE
  {
    if n >= HISTORY_SIZE {
      var q := n / HISTORY_SIZE;
      assert n == HISTORY_SIZE * q + n % HISTORY_SIZE;
      assert n - HISTORY_SIZE + k == HISTORY_SIZE * (q - 1) + (n % HISTORY_SIZE + k);
    }
  }

  /** Two of the last `HISTORY_SIZE` line numbers never share a slot. */
  lemma DistinctSlots(i: int, n: int)
    requires n - HISTORY_SIZE < i < n
    ensures i % HISTORY_SIZE != n % HISTORY_SIZE
  {
    var q, r := i / HISTORY_SIZE, i % HISTORY_SIZE;
    assert i == HISTORY_SIZE * q + r;
  }

  /** The lines `print_history` shows: the last `HISTORY_SIZE` of them, or all when fewer. */
  ghost function Recent(lines: seq<string>): (r: seq<string>)
    ensures |r| == Min(|lines|, HISTORY_SIZE)
    ensures forall t :: 0 <= t < |r| ==> r[t] == lines[|lines| - |r| + t]
  {
    lines[|lines| - Min(|lines|, HISTORY_SIZE)..]
  }

  /**
   * The ring after `lines`: line `i` of the last `HISTORY_SIZE` sits in slot `i`
   * mod the size, and the slots not yet written are empty.
   */
  ghost predicate Holds(ring: seq<Option<string>>, lines: seq<string>) {
    && |ring| == HISTORY_SIZE
    && (forall i :: |lines| - Min(|lines|, HISTORY_SIZE) <= i < |lines| ==>
          ring[i % HISTORY_SIZE] == Some(lines[i]))
    && (forall j :: Min(|lines|, HISTORY_SIZE) <= j < HISTORY_SIZE ==> ring[j] == None)
  }

  /** Writing a line into the next slot keeps the ring holding the last lines. */
  lemma WriteKeepsHolds(ring: seq<Option<string>>, lines: seq<string>, line: string)
    requires Holds(ring, lines)
    ensures Holds(ring[|lines| % HISTORY_SIZE := Some(line)], lines + [line])
  {
    var n := |lines|;
    var ring', lines' := ring[n % HISTORY_SIZE := Some(line)], lines + [line];
    forall i | |lines'| - Min(|lines'|, HISTORY_SIZE) <= i < |lines'|
      ensures ring'[i % HISTORY_SIZE] == Some(lines'[i])
    {
      if i < n {
        DistinctSlots(i, n);
      }
    }
    if n < HISTORY_SIZE {
      assert n % HISTORY_SIZE == n;
    }
  }

  class History {
    /** `history[HISTORY_SIZE]`: `None` is a slot never written (NULL). */
    const slots: array<Option<string>>
    var currentPosition: int
    var storedCount: int
    /** Every line added so far, oldest first. */
    ghost var lines: seq<string>

    /**
     * The ring holds the last `storedCount` lines, line `i` in slot `i` mod the
     * size; the slots not yet written are empty.
     */
    ghost predicate Valid()
      reads this, slots
    {
      && slots.Length == HISTORY_SIZE
      && currentPosition == |lines| % HISTORY_SIZE
      && storedCount == Min(|lines|, HISTORY_SIZE)
      && Holds(slots[..], lines)
    }

    /** The initialisers: every slot NULL, both counters zero. */
    constructor ()
      ensures Valid() && fresh(slots)
      ensures lines == [] && currentPosition == 0 && storedCount == 0
    {
      slots := new Option<string>[HISTORY_SIZE](_ => None);
      currentPosition := 0;
      storedCount := 0;
      lines := [];
    }

    /**
     * `add_to_history(line)`: the line goes into the current slot (replacing
     * the oldest line once the ring is full), no other slot changes, and the
     * counters advance.
     */
    method AddToHistory(line: string)
      requires Valid()
      modifies this, slots
      ensures Valid()
      ensures slots[old(currentPosition)] == Some(line)
      ensures forall j :: 0 <= j < HISTORY_SIZE && j != old(currentPosition) ==> slots[j] == old(slots[j])
      ensures (currentPosition, storedCount) == Advance(old(currentPosition), old(storedCount))
      ensures lines == old(lines) + [line]
    {
      NextSlot(|lines|);
      WriteKeepsHolds(slots[..], lines, line);
      slots[currentPosition] := Some(line);
      currentPosition := (currentPosition + 1) % HISTORY_SIZE;
      if storedCount < HISTORY_SIZE {
        storedCount := storedCount + 1;
      }
      lines := lines + [line];
    }

    /**
     * The index walk of `print_history`: from the start slot, `storedCount`
     * slots in ring order. Returns the lines it prints, which are the most
     * recent ones, oldest first.
     */
    method PrintHistory() returns (out: seq<string>)
      requires Valid()
      ensures out == Recent(lines)
    {
      var start := Start(currentPosition, storedCount);
      out := [];
      for i := 0 to storedCount
        invariant |out| == i
        invariant forall t :: 0 <= t < i ==> out[t] == lines[|lines| - storedCount + t]
      {
        var index := (start + i) % HISTORY_SIZE;
        OldestFirst(|lines|, i);
        out := out + [slots[index].value];
      }
    }
  }
}
