# A verified model of a user-space heap allocator and a line-history ring

This project models, in Dafny, two drafts of a small `sbrk`-based heap allocator and the line history of a small shell:

- `a9/src/alloc.c`, module `SrcAlloc`.
- `a9/alloc.c`, module `DraftAlloc`. This draft pads requests to a multiple of 8, checks the limit against the rounded-up growth in `int` arithmetic, and anchors `heap_start` only once.
- the history ring of `lab3/lab3.c`, module `LineHistory`.

Allocator state:

- The module-level globals (`head`, `algo`, `heap_limit`, `heap_start`) are fields of one `Allocator` object, together with the program break.
- The free list reached from `head` is the field `free`: a sequence of `Block(addr, size)` values in list order.
- The header `size` of every block handed out and not yet released is the map field `live`. It is keyed by the block's address.
- `NULL` is address 0.
- `sizeof(struct header)` and `INCREMENT` come from `alloc.h`, which is not part of this model. They are constructor parameters (`header`, `increment`).
- `sbrk(0)` reads the field `brk`.
- A successful `sbrk(n)` moves `brk` up by `n`. Whether `sbrk(n)` or `brk(p)` succeeds is a boolean parameter of the operation (`sbrkOk`, `brkOk`).

Class invariant (`Valid`):

- every free block and every live block lies in the arena below the break and is larger than a header;
- no two free blocks overlap;
- no two live blocks overlap;
- no free block overlaps a live block.

Every operation keeps this invariant.

The logic that both drafts share is modelled once, on sequence values:

| part | module | form |
|---|---|---|
| placement scan | `Placement` | method `Place`, proved against the function `Pick` |
| growth loop | `Growth` | method `GrowthSize`, proved against the function `GrowthBytes` |
| unlink and split | `Acquire` | functions `Split` and `Push`, and lemmas about the layout |
| coalescing with restart | `Release` | method `Coalesce`, and the predicate `Released` that states its result |
| statistics pass | `Report` | method `Summarize`, proved against the functions `UsableSum`, `Largest` and `Smallest` |
| `alloc` then `dealloc` | `RoundTrip` | lemmas about the free bytes |

Each draft's class calls these members and updates its own fields. The class members `Take`, `Grow`, `Dealloc`, `AllocInfo`, `Valid` and the constructor are written out in both classes, because each class has its own fields. Their bodies are the same in the two drafts.

History ring:

- `History` keeps the `history` array as an `array<Option<string>>` of `HISTORY_SIZE` slots, plus the two counters.
- It also keeps a ghost record of every line added. The invariant ties the slots to the last `min(n, 5)` lines.

## Model

| member | source | states |
|---|---|---|
| `Placement.Place` | a9/src/alloc.c:37-59 | The scan returns the reference choice `Pick`. It returns no block exactly when no free block has `size >= total`. Otherwise the block it returns satisfies `Chosen`: the first fit for FIRST_FIT, and for BEST_FIT/WORST_FIT a fit of minimal/maximal size strictly better than every earlier fit, so ties go to the earliest block. FIRST_FIT leaves the loop at the first fit. |
| `Placement.PickUpTo` | a9/src/alloc.c:38-59 | The block-by-block choice among the first `n` blocks is one of them and fits. |
| `Placement.Pick` | a9/alloc.c:49-71 | The chosen index is in the list and the block fits. |
| `Placement.PickUpToChosen` | a9/src/alloc.c:39-55 | The block-by-block choice is the declarative one: none iff no block fits, and otherwise the index satisfies `Chosen` for the strategy. |
| `Placement.PickIsChosen` | a9/alloc.c:49-71 | The same, for the whole list. |
| `Placement.FirstFitStays` | a9/src/alloc.c:40-43 | Once first-fit has a block, later blocks never replace it, so breaking out of the loop there gives the same answer. |
| `Growth.GrowFrom` | a9/src/alloc.c:71-73 | The growth loop ends at a value `>= total`. It ends either where it started or less than one INCREMENT above `total`. |
| `Growth.GrowthBytes` | a9/src/alloc.c:68-73 | The growth is at least `total` and at least one INCREMENT. It exceeds `total` by less than one INCREMENT unless it is a single INCREMENT. |
| `Growth.Increments` | a9/src/alloc.c:68-73 | The least count `k >= 1` with `k * INCREMENT >= total`. |
| `Growth.IncrementsUnique` | a9/src/alloc.c:70-73 | Any count with those two properties equals `Increments`. |
| `Growth.GrowFromMultiple` | a9/src/alloc.c:71-73 | Starting the loop at `n` INCREMENTs, where `n == 1` or `n - 1` INCREMENTs do not cover `total`, ends at `Increments(total) * INCREMENT`. |
| `Growth.GrowthBytesIsLeastMultiple` | a9/alloc.c:80-85 | The growth size is exactly `Increments(total) * INCREMENT`, the smallest multiple of INCREMENT that covers `total`. |
| `Growth.GrowthSize` | a9/src/alloc.c:67-73 | The `while` loop computes `GrowthBytes`. Its result is unbounded, so it does not wrap around. |
| `Acquire.Split` | a9/src/alloc.c:98-109 | A split happens iff `remainder > header`. With a split, the block handed out is exactly `total` bytes and the leftover starts at `chosen + total`. Without a split, the whole block is handed out. Either way the two sizes add up to the chosen block's size. |
| `Acquire.UnlinkKeepsLayout` | a9/src/alloc.c:91-96 | Unlinking a free block keeps the layout invariant. Every remaining block is disjoint from the unlinked one. |
| `Acquire.CarveKeepsLayout` | a9/src/alloc.c:99-111 | The block handed out and its leftover both lie inside the unlinked block, so the invariant holds with the block made live. The block's address was not live before. |
| `Acquire.TakeKeepsLayout` | a9/alloc.c:107-128 | Unlinking and splitting a free block keeps the layout invariant. The address handed out was not live before. |
| `Acquire.TakeKeepsCoalesced` | a9/src/alloc.c:99-109 | If the free list had no two address-adjacent blocks, it still has none after a block is handed out from it. |
| `Acquire.GrowKeepsCoalesced` | a9/src/alloc.c:75-109 | The same for a block carved from fresh memory at the old break. |
| `Acquire.GrowKeepsLayout` | a9/src/alloc.c:75-88 | A block of `requested` bytes at the old break, pushed on the list, keeps the invariant once the break has moved up by `requested`. |
| `Release.Coalesce` | a9/src/alloc.c:149-195 | The restart-on-merge loop terminates. It returns the free blocks not merged and the merged block. The blocks not merged keep their old order (a subsequence of the list). Every old block is either kept or lies inside the merged block. No remaining block is adjacent to the merged block. The merged block covers the freed one and overlaps nothing that the freed block and the list did not already cover. The bytes are conserved: `sum(rest) + merged == sum(free) + block`. A free list without adjacent blocks stays without them. |
| `Release.MergeKeeps` | a9/src/alloc.c:158-191 | One merge, left or right, keeps every invariant of the coalescing loop. |
| `Release.PushMergedReleases` | a9/src/alloc.c:196-198 | Pushing the merged block in front of the blocks the loop kept gives the list `Released` describes: merged block first and covering the freed one, clear of every byte outside the freed block and the old list, the others a subsequence of the old list that none of them touches, every old block kept or absorbed, and exactly the freed bytes added. |
| `Release.PushMergedKeepsCoalesced` | a9/src/alloc.c:196-198 | Pushing the merged block, with no neighbour left, keeps a coalesced list coalesced. |
| `Release.ReleaseKeepsLayout` | a9/alloc.c:162-217 | Releasing a live block and pushing the merged block keeps the layout invariant. |
| `Report.Tally` | a9/src/alloc.c:210-229 | One step of the loop: the sum and the count grow by the block's usable size. The first block sets both extremes to its usable size. Later, the extremes take it in: after the step the smallest is at most it and the largest at least it, each is either it or the old value, and they only widen. |
| `Report.Largest` | a9/src/alloc.c:216-224 | The largest usable size (`size - header`) of the list, attained by some block; 0 for an empty list. |
| `Report.Smallest` | a9/src/alloc.c:216-228 | The smallest usable size, attained by some block; 0 for an empty list. |
| `Report.UsableSumIsBytesLessHeaders` | a9/src/alloc.c:211-213 | `free_size` is the list's bytes less one header per block. |
| `Report.TallyAllIsSummary` | a9/src/alloc.c:208-232 | The running accumulators of the loop, including the special case for the first block, give the sum, the count, the maximum and the minimum of the usable sizes. |
| `Report.Summarize` | a9/src/alloc.c:201-235 | The loop returns `Info(UsableSum, length, Largest, Smallest)` of the list, all 0 for an empty list. |
| `CInts.ToU64` | a9/src/alloc.c:63 | `(uint64_t)` of an `int` lies in `[0, 2^64)` and is congruent to it. It is the identity on non-negative values. |
| `CInts.Wrap32` | a9/alloc.c:84 | The usual two's-complement outcome of an `int` sum that overflows, which C leaves undefined: a value in `int` range congruent to the sum modulo `2^32`. It wraps by exactly `2^32` just above INT_MAX. |
| `SrcAlloc.GrowthRefused` | a9/src/alloc.c:63-65 | The limit test of this draft. For a non-negative limit it refuses exactly when one INCREMENT on top of the bytes in use passes the limit, so a limit of 0 refuses every growth. A negative limit, cast to `uint64_t`, refuses nothing while the bytes in use plus INCREMENT stay within 2^63. |
| `SrcAlloc.GrowthMayPassLimit` | a9/src/alloc.c:63-73 | The test of line 63 covers one INCREMENT while the loop of lines 68-73 may ask for several. With no bytes in use, a limit of one INCREMENT and `total` one byte over an INCREMENT, the test passes and the heap grows by two INCREMENTs, past the limit. |
| `SrcAlloc.Allocator.constructor` | a9/src/alloc.c:12-15 | The initial state: empty free list, FIRST_FIT, limit 0 and `heap_start` NULL. |
| `SrcAlloc.Allocator.Alloc` | a9/src/alloc.c:17-114 | The result is NULL iff one of these holds: `size <= 0`; or no free block fits and either `bytes_used + INCREMENT > (uint64_t)heap_limit` or `sbrk` fails. On NULL nothing changes. With a fit, the break is unchanged and the result is the header after the split of the chosen block. The free list is the other blocks in their order, with the leftover (if any) in front. On a miss, the break moves up by the least multiple of INCREMENT covering `total`, and that new block is split in the same way. The pointer returned was not live before and has room for `size` bytes. The invariant is kept. |
| `SrcAlloc.Allocator.AllocFromBreak` | a9/src/alloc.c:61-89 | The miss path: it is refused iff the limit test fails or `sbrk` fails, and then nothing changes. Otherwise the break grows by `GrowthBytes` and the new block is handed out as above. |
| `SrcAlloc.Allocator.Grow` | a9/src/alloc.c:75-88 | A successful `sbrk`: the new block is at the old break and at the front of the list. |
| `SrcAlloc.Allocator.Take` | a9/src/alloc.c:91-113 | Unlinks block `k`, splits it as in `Split`, and returns the address after its header. The block becomes live. |
| `SrcAlloc.Allocator.AllocOpt` | a9/src/alloc.c:116-134 | Sets the strategy and the limit and empties the free list. After the first call the break moves back to `heap_start` (if `brk` succeeds). `heap_start` is then re-anchored at the break. The record of live blocks is emptied too (see Left out). |
| `SrcAlloc.Allocator.Dealloc` | a9/src/alloc.c:136-199 | `dealloc(NULL)` changes nothing. Otherwise the block is no longer live and the free list is `Released(old free list, block, new free list)`: the merged block, which covers the freed one and takes in no byte that neither it nor the old list held, is at the front. Behind it come the old free blocks it did not absorb, in their old order, none adjacent to it; every other old block lies inside it. The free bytes grow by exactly the block's size, and a list without adjacent blocks stays without them. |
| `SrcAlloc.Allocator.AllocInfo` | a9/src/alloc.c:201-235 | Changes nothing and returns the four figures of the current free list, so two calls in a row agree. |
| `DraftAlloc.Padded` | a9/alloc.c:24-29 | `total` is rounded up to a multiple of 8: at least the unrounded value and less than 8 above it. |
| `DraftAlloc.RequestedAsWritten` | a9/alloc.c:80-85 | The growth loop as written, with `int requested_size` compared as unsigned with `total` and wrapping at INT_MAX. |
| `DraftAlloc.RequestWraps` | a9/alloc.c:80-85 | Once `total` exceeds INT_MAX, the loop as written ends at a negative `requested_size`. |
| `DraftAlloc.IntMaxRequestPassesLimit` | a9/alloc.c:80-91 | For `alloc(INT_MAX)` with no fitting block, the loop as written yields a negative size. The limit test of line 87 then passes for every non-negative limit, so `sbrk` is called with a negative size. |
| `DraftAlloc.IntMaxRequestRefused` | a9/alloc.c:87-89 | With the growth computed without wrap-around, the same request is refused by the limit test. |
| `DraftAlloc.GrowthRefusedAsWritten` | a9/alloc.c:87-89 | The limit test with the `int` sum `bytes_used + requested_size`, wrapped as `Wrap32` assumes. Whenever the sum fits in an `int`, it refuses exactly what `GrowthRefused` refuses. |
| `DraftAlloc.RequestedNoWrap` | a9/alloc.c:80-85 | While the growth stays within INT_MAX, the loop as written ends at the same growth as the loop without wrap-around. |
| `DraftAlloc.LimitSumWrapsPastLimit` | a9/alloc.c:80-91 | A growth that fits in an `int` can still take `bytes_used + requested_size` past INT_MAX. The wrapped sum then passes the test for every non-negative limit, and the heap grows past the limit. The test on the unbounded sum refuses the same growth. |
| `DraftAlloc.GrowthRefused` | a9/alloc.c:87-89 | The limit test of this draft, on the whole growth, with the sum taken without overflow. A growth it lets through keeps the bytes in use within the limit. A limit of 0 or below refuses every positive growth. A negative growth, such as the wrapping loop can produce, passes whenever the heap is within the limit. |
| `DraftAlloc.Allocator.constructor` | a9/alloc.c:11-14 | The initial state, as in the other draft. |
| `DraftAlloc.Allocator.Alloc` | a9/alloc.c:16-131 | As in the other draft, but with the padded `total`. The limit test is `bytes_used + requested_size > heap_limit` on the rounded growth, made before `sbrk`, with the sum taken without overflow. Under that test, after any growth the heap is within the limit. |
| `DraftAlloc.Allocator.AllocFromBreak` | a9/alloc.c:73-105 | The miss path of this draft: growth is refused iff the whole rounded growth would pass the limit or `sbrk` fails. |
| `DraftAlloc.Allocator.Grow` | a9/alloc.c:91-104 | A successful `sbrk`: the new block is at the old break and at the front of the list. |
| `DraftAlloc.Allocator.Take` | a9/alloc.c:107-130 | Unlink, split when `remainder > header`, and hand out. |
| `DraftAlloc.Allocator.AllocOpt` | a9/alloc.c:133-152 | The first call anchors `heap_start` at the break. Later calls move the break back to it (if `brk` succeeds) and leave `heap_start` as it is. Strategy and limit are set, and the free list and the record of live blocks are emptied. |
| `DraftAlloc.Allocator.Dealloc` | a9/alloc.c:154-218 | As in the other draft. The extra `curr = block;` at line 205 is overwritten at once and changes nothing. |
| `DraftAlloc.Allocator.AllocInfo` | a9/alloc.c:220-255 | Changes nothing and returns the four figures of the free list. |
| `RoundTrip.LeftoverAbsorbed` | a9/src/alloc.c:98-109 | The leftover of a split starts where the block handed out ends. When that block is released, the leftover is not among the blocks kept behind the merged block, so the kept blocks are a subsequence of the list without it. |
| `RoundTrip.MergedWithinTaken` | a9/src/alloc.c:149-198 | If the list had no adjacent blocks, the block merged on release of a block carved from free block `k` lies inside free block `k`, because the bytes just below and just above that block are clear. |
| `RoundTrip.KeptAfterTake` | a9/src/alloc.c:91-198 | After `alloc` took free block `k` and `dealloc` released the pointer, the blocks kept behind the merged one are other old free blocks in their order. If the list had no adjacent blocks, all of them are kept, so the list is as long as before. |
| `RoundTrip.TakeThenRelease` | a9/src/alloc.c:91-235 | `alloc` from a fitting free block, then `dealloc` of the pointer returned, never lowers `free_size` as `allocinfo` reports it. If the list had no adjacent blocks, `free_size` is restored exactly. |
| `RoundTrip.GrowThenRelease` | a9/src/alloc.c:61-235 | `alloc` that grows the heap by `requested_size` bytes, then `dealloc` of the pointer returned, raises `free_size` by at least `requested_size` less one header. |
| `LineHistory.Advance` | lab3/lab3.c:56-61 | From a slot of the ring the position moves to the next slot, and back to slot 0 exactly after the last one. The count grows by one until it reaches 5 and then stays. |
| `LineHistory.ReplayCounters` | lab3/lab3.c:56-61 | After `n` lines from the initial state, `current_position == n % 5` and `stored_count == min(n, 5)`. Both stay in range. |
| `LineHistory.Start` | lab3/lab3.c:66 | The start slot is a slot of the ring. In every state the counters can reach, it is the slot `stored_count` places behind `current_position`, which holds the oldest stored line. |
| `LineHistory.OldestFirst` | lab3/lab3.c:66-70 | Step `k` of the print walk, from slot 0 (not full) or `current_position` (full), reads slot `(n - count + k) % 5`, the slot of the `k`-th oldest stored line. |
| `LineHistory.DistinctSlots` | lab3/lab3.c:53-56 | Two of the last five line numbers never share a slot, so a write replaces only the oldest line. |
| `LineHistory.Recent` | lab3/lab3.c:64-73 | The lines the history shows: the last `min(n, 5)` lines, oldest first. |
| `LineHistory.History.constructor` | lab3/lab3.c:8-10 | All slots NULL and both counters 0. |
| `LineHistory.History.AddToHistory` | lab3/lab3.c:46-62 | Slot `current_position` gets the line and no other slot changes. The position advances mod 5 and the count saturates at 5. The ring keeps holding the last `min(n, 5)` lines. |
| `LineHistory.History.PrintHistory` | lab3/lab3.c:64-73 | The walk returns exactly the last `min(n, 5)` lines, oldest first. |

## Left out

- `sbrk` and `brk`: the break is an integer field. Success or failure of each call is a parameter. The `(void *)-1` sentinel is the failure case. Other code moving the break is not modelled.
- `alloc.h`: `struct header` and `INCREMENT` are not part of this model. The header size and INCREMENT are constructor parameters, with `0 < header` and `0 < increment`.
- The enumeration: the model has the three named strategies. A value of `enum algs` outside them takes the WORST_FIT branch in the source; that case is not modelled.
- `SrcAlloc.Allocator.Alloc`: the `uint64_t` arithmetic of `total`, `bytes_used` and `requested_size` is unbounded. A wrap-around past 2^64 is not modelled. The cast of a negative `int` limit is modelled (`ToU64`).
- `DraftAlloc.Allocator.Alloc`: the limit test is the corrected `DraftAlloc.GrowthRefused`, without the `int` overflow of the sum (see Findings), so its promise that the heap stays within the limit is that of the corrected test. The growth loop uses the corrected, unbounded `GrowthSize` rather than the wrapping `int` loop. The wrapping loop is modelled separately (`RequestedAsWritten`); see Findings. The truncation of `bytes_used` and of `remainder` to `int` is not modelled either.
- `DraftAlloc.Allocator.AllocInfo`: the `int` accumulators of this draft are unbounded. An overflow of `free_size` is not modelled.
- Caller misuse is undefined in the source and is a precondition of `Dealloc`: the pointer must be NULL or a pointer handed out by `Alloc` and not yet released. This excludes double frees and foreign pointers.
- `AllocOpt` empties the record of live blocks along with the free list, since the source abandons the whole arena. A pointer handed out before `allocopt` can therefore no longer be passed to `Dealloc`; in the source that is the same caller misuse.
- Coalescing on `Alloc`: the methods' ensures give the new free list exactly. That this list stays free of adjacent blocks is stated by the lemmas `Acquire.TakeKeepsCoalesced` and `Acquire.GrowKeepsCoalesced` about that list, not repeated on the methods.
- `main`, `getline`, `printf`, `strcmp`, `strdup`, `free` and `free_history` in `lab3/lab3.c`: these are input, output and memory release. History lines are immutable strings. `PrintHistory` returns the lines it would print.
- `lab1/lab1.c`: input parsing and printing with no logic of its own.
- Concurrency: the source has no locking and claims no thread safety.
- Limit of 0: in `a9/src/alloc.c` a limit of 0 refuses every growth, because `bytes_used + INCREMENT > 0` always holds (`SrcAlloc.GrowthRefused`). The code is followed here; the configuration has no "0 means unbounded" meaning. In `a9/src/alloc.c` a negative limit becomes a huge unsigned value, so growth is effectively unbounded. In `a9/src/alloc.c` the test covers one INCREMENT only, so a growth of several INCREMENTs can take the heap past the limit (`SrcAlloc.GrowthMayPassLimit`). `a9/alloc.c` tests the whole growth; its only way past the limit is the `int` overflow of `bytes_used + requested_size` (see Findings). In `a9/alloc.c` a limit of 0 or below refuses every positive growth (`DraftAlloc.GrowthRefused`), but the wrapping growth loop can make the growth negative, and then the test passes (`DraftAlloc.IntMaxRequestPassesLimit`). The truncation of `bytes_used` to `int` can also make it pass; that is not modelled.
- `DraftAlloc.GrowthRefused`: the sum `bytes_used + requested_size` is taken on unbounded integers. In the source it is an `int` sum that can overflow and then pass the test; that case is modelled by `DraftAlloc.GrowthRefusedAsWritten` and `DraftAlloc.LimitSumWrapsPastLimit` (see Findings).
- `DraftAlloc.Allocator.AllocFromBreak`: the limit test is the corrected `DraftAlloc.GrowthRefused`, so its promise that a growth keeps the heap within the limit does not hold for the source when the `int` sum overflows (see Findings). The growth is the corrected, unbounded `Growth.GrowthSize`, not the wrapping `int` loop of lines 80-85, so the limit test always sees a positive growth. The wrapping loop and the request it lets through are modelled separately (`DraftAlloc.RequestedAsWritten`, `DraftAlloc.IntMaxRequestPassesLimit`); see Findings.
- Re-anchoring: `a9/src/alloc.c` re-anchors `heap_start` on every `allocopt` call. `a9/alloc.c` anchors it only on the first call. Each module follows its own draft.
- The `alloc`-then-`dealloc` round trip is stated by the `RoundTrip` lemmas on the free lists that `Take` or `AllocFromBreak` and then `Dealloc` promise. It is not a method that makes the two calls in a row. The freed block is the block handed out, and the list after the release is disjoint because `Dealloc` keeps `Valid`.
- A block obtained by growth is pushed on the free list and immediately unlinked as the chosen block, as the code does. This has the same effect as handing it out directly.

## Findings

| source | as written | input that shows it | evidently intended | confidence | as-written member | corrected member |
|---|---|---|---|---|---|---|
| a9/alloc.c:80-91 | `int requested_size` grows by INCREMENT while it is below the unsigned `total`. Past INT_MAX the `+=` overflows, which C leaves undefined. Under the usual two's-complement wrap, the model's assumption (`Wrap32`), it becomes a negative value, which as an unsigned comparand is not below `total`, so the loop stops. The `int` limit test `bytes_used + requested_size > heap_limit` then passes, and `sbrk` is called with a negative size, which shrinks the heap. | `alloc(INT_MAX)` with no fitting free block, any non-negative limit and `bytes_used + INCREMENT <= 2^31` | the growth is the least multiple of INCREMENT covering `total`, and a request that large is refused by the limit test | not executed | `DraftAlloc.IntMaxRequestPassesLimit` | `Growth.GrowthSize` |
| a9/alloc.c:87-91 | The limit test adds `bytes_used` and `requested_size` as `int`s. A growth that fits in an `int` can still take the sum past INT_MAX, which C leaves undefined. Under the usual two's-complement wrap, the model's assumption (`Wrap32`), the sum becomes negative, the test passes for every non-negative limit, and `sbrk` grows the heap past the limit. | INCREMENT 4096, header 16, heap limit 4096: `alloc(100)` grows the heap by 4096, so `bytes_used` is 4096; then `alloc(2^31 - 4112)` with no fitting free block needs a growth of `2^31 - 4096`, and `4096 + 2^31 - 4096` wraps to INT_MIN | the test compares the whole sum with the limit and refuses this growth | not executed | `DraftAlloc.LimitSumWrapsPastLimit` | `DraftAlloc.GrowthRefused` |
