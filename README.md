# Page-replacement simulator

A model of `optimal.c`. That program generates a synthetic reference string with
locality, then counts the page faults of four replacement policies over it, each with
a small fixed frame table:
- a bounded-lookahead approximation of Belady's optimal policy;
- FIFO;
- LRU;
- second chance (clock).

The model has one module per component:

- `FrameTable` (`frame_table.dfy`) holds the shared pieces:
  - the empty-frame sentinel -1;
  - `locate`, as the method `Locate` over the frame array and the function `IndexOf`
    that specifies it;
  - `ServesReference`, the per-reference contract every policy keeps. On a hit the
    frames and the count are unchanged. On a miss exactly one frame is overwritten
    with the page and the count grows by one.
- `Traces` (`traces.dfy`) holds predicates and functions over reference strings:
  - `NoImmediateRepeat`;
  - `Changes`, the number of references differing from their predecessor;
  - `Dedup`, the distinct pages in order of first appearance;
  - `LastIndexOf`;
  - `Accounted`, the policy-independent invariant. Resident pages are pairwise
    distinct, every one of them was referenced, and the fault count lies between the
    number of distinct pages referenced and the number of references.
- `LocalityModel` (`generator.dfy`) is `ref_string_generator`. The random source is
  supplied by the caller: a sequence of draws, one per candidate page, and a sequence
  of moves (`Slide` or `Jump(target)`), one per relocation of the locus.
- `OptimalPolicy` (`optimal.dfy`), `FifoPolicy` (`fifo.dfy`), `LruPolicy` (`lru.dfy`)
  and `SecondChancePolicy` (`second_chance.dfy`) are the four simulators.

Each simulator is an imperative method over local arrays, following the C loop by
loop. `Fifo` keeps its short loop body inline. The other simulators and the
generator put the body of each pass in a method of its own (`ServeReference`,
`ServeDuringWarmUp`, `ServeAfterWarmUp`, `ConsiderDraw`), which updates the arrays in
place. Each method is proved equal to a specification function: a left fold of one
step function (`FifoStep`, `LruStep`, `OptStep`, `ClockStep`) over the references
served so far. The properties of each policy are lemmas about that fold.

More frames do not always mean fewer faults. On Belady's trace
`1 2 3 4 1 2 5 1 2 3 4 5`, FIFO (`FifoPolicy.FifoBeladyAnomaly`) and second chance
(`SecondChancePolicy.ClockBeladyAnomaly`) both show the anomaly:
- 3 frames take 9 faults;
- 4 frames take 10.

LRU is monotone (`LruPolicy.LruNoBeladyAnomaly`). On any trace of page numbers,
every page resident with `n` frames is also resident with `n + 1` frames, so adding
frames never adds a fault.

## Model

| member | source | states |
|---|---|---|
| FrameTable.IndexOf | optimal.c:12-17 | the lowest position holding the value, or -1 exactly when no position holds it |
| FrameTable.Locate | optimal.c:12-17 | returns the lowest index below `size` whose frame holds the page, or -1 exactly when none does; it changes nothing (no `modifies`) and agrees with `IndexOf` on `frames[..size]` |
| FrameTable.ServingKeepsResidentDistinct | optimal.c:98-106 | a reference served the way every policy serves one (hit: nothing changes; miss: one frame overwritten, one more fault) never puts a page into two frames |
| FrameTable.NextSlot | optimal.c:104-105 | advancing a circular pointer with `(p + 1) % size` gives `p + 1`, or 0 at the end |
| Traces.ChangesOfNoImmediateRepeat | optimal.c:26-29 | on a string with no page equal to its predecessor, the number of changes is the length |
| Traces.Dedup | optimal.c:48-57 | the distinct non-empty pages of a string: exactly those pages, each once, no more of them than references |
| Traces.DedupInFirstAppearanceOrder | optimal.c:48-57 | the distinct pages come in the order of their first appearance in the string |
| Traces.LastIndexOf | optimal.c:126-139 | the latest position holding a page, or -1 exactly when the page never occurs |
| Traces.ServingKeepsAccounted | optimal.c:59-65 | serving a page reference keeps resident pages distinct and previously referenced, and keeps faults between the number of distinct pages seen and the number of references |
| LocalityModel.Relocate | optimal.c:31-36 | the new locus stays within the `P - e + 1` possible positions; a slide moves it one place on, wrapping round to 0 |
| LocalityModel.GenRun | optimal.c:20-38 | the locus stays in `[0, P - e]` and no more moves are used than supplied |
| LocalityModel.ConsiderDraw | optimal.c:25-36 | one pass of the loop updates the string, the locus and the move count exactly as one step of `GenStep` does |
| LocalityModel.GenerateRefString | optimal.c:20-38 | the entries written are the specified string: every entry lies in `[0, P)`, and none equals its predecessor |
| LocalityModel.GenRunStopped | optimal.c:24 | once the string is complete, the moves have run out or the draws are used up, nothing changes |
| LocalityModel.GenRunBounded | optimal.c:25-35 | every page lies in the window `[locus, locus + e)` it was drawn from, every locus lies in `[0, P - e]`, so every page lies in `[0, P)`; at most `len` pages are written |
| LocalityModel.GenRunNoImmediateRepeat | optimal.c:26-29 | no page of the generated string equals its predecessor |
| LocalityModel.GenStepRelocation | optimal.c:31-36 | the locus moves only when the accepted count reaches a multiple of `m`, using exactly one move; it then slides by one (wrapping round) or jumps to the draw modulo `P - e + 1`; conversely, an accepted page that brings the count to a multiple of `m` always relocates the locus while a move is left |
| LocalityModel.GenRunRelocatesEveryM | optimal.c:24-36 | over a whole run, unless the moves ran out, the number of moves used is the number of complete blocks of `m` pages written |
| LocalityModel.GenRunComplete | optimal.c:24-30 | exactly `len` pages are written unless the draws are used up or the moves run out |
| LocalityModel.GenStuckOnSinglePageWindow | optimal.c:25-29 | with `e == 1` and `m > 1` the locus never moves and every draw after the first repeats page 0, so at most one page is ever written: the C loop never finishes |
| FifoPolicy.FifoRun | optimal.c:104-105 | the pointer `front` always stays in `[0, size)` |
| FifoPolicy.Fifo | optimal.c:90-109 | returns the fault count of the FIFO specification over the whole trace |
| FifoPolicy.FifoStepServes | optimal.c:98-106 | a reference is served as every policy must; a hit leaves `front` alone, a miss advances it by one modulo `size` |
| FifoPolicy.FifoFrontTracksFaults | optimal.c:104-105 | `front` is always the number of faults modulo `size` |
| FifoPolicy.FifoRunInvariant | optimal.c:95-107 | resident pages are distinct and were referenced, faults lie between the number of distinct pages referenced and the trace length, and frames are filled in index order |
| FifoPolicy.FifoLoadOrder | optimal.c:104-105 | the frames hold the most recent loads in pointer order: below the pointer the loads of the current sweep, from the pointer on those of the previous one |
| FifoPolicy.FifoEvictsOldestLoad | optimal.c:104-106 | once every frame has been used, the frame at `front`, the next victim, holds the oldest of the last `size` loads |
| FifoPolicy.FifoSingleFrame | optimal.c:98-107 | with one frame, faults are exactly the changes of page and the frame holds the latest page |
| FifoPolicy.FifoBeladyAnomaly | optimal.c:90-109 | on Belady's trace 3 frames take 9 faults and 4 frames take 10, so FIFO is not monotone in frame count |
| LruPolicy.LeastRecent | optimal.c:132-136 | the frame with the smallest timestamp, ties going to the lowest index |
| LruPolicy.FindLeastRecent | optimal.c:132-136 | the scan returns the lowest index whose timestamp is minimal |
| LruPolicy.ServeReference | optimal.c:123-139 | one pass of the loop updates frames, timestamps and count exactly as `LruStep` |
| LruPolicy.Lru | optimal.c:112-142 | returns the fault count of the LRU specification over the whole trace |
| LruPolicy.LruStepServes | optimal.c:122-139 | a reference is served as every policy must |
| LruPolicy.LruRunAccounted | optimal.c:122-140 | resident pages are distinct and were referenced; faults lie between the number of distinct pages referenced and the trace length |
| LruPolicy.LruTimestamps | optimal.c:126-139 | each used frame's timestamp is the last position in the trace of the page it holds, and unused frames are still at -1 |
| LruPolicy.LruFillsInOrder | optimal.c:117-139 | frames are filled in index order |
| LruPolicy.LruFillsEmptyFirst | optimal.c:132-136 | while frames remain unused, the least recently used frame is the first unused one, so empty frames are filled before anything is evicted |
| LruPolicy.LruEvictsLeastRecentlyUsed | optimal.c:131-139 | once every frame is in use, the victim's page was referenced last strictly before every other resident page |
| LruPolicy.LruStackInclusion | optimal.c:112-142 | every page resident with `n` frames is resident with `n + 1` frames, and the larger table has no more faults |
| LruPolicy.LruNoBeladyAnomaly | optimal.c:112-142 | for any `n <= n'`, LRU with `n'` frames takes no more faults than with `n` frames |
| LruPolicy.LruSingleFrame | optimal.c:122-140 | with one frame, faults are exactly the changes of page and the frame holds the latest page |
| OptimalPolicy.Window | optimal.c:69 | the lookahead window is the up to `limit` references after `cur`, cut off at the end of the trace |
| OptimalPolicy.Unreferenced | optimal.c:66-73 | the mask: a frame's flag is set exactly when its page does not occur in the window |
| OptimalPolicy.FirstAbsentSpec | optimal.c:77-83 | -1 exactly when every frame's page occurs in the window, otherwise the lowest frame whose page does not |
| OptimalPolicy.LatestFirstSpec | optimal.c:69-76 | the frame whose page first occurs in the window no earlier than any other frame's |
| OptimalPolicy.ScanAhead | optimal.c:66-73 | the lookahead loop computes the scan specification over the window, stopping early once no flag is left |
| OptimalPolicy.LowestFlag | optimal.c:78-82 | the shifting loop finds the lowest set flag |
| OptimalPolicy.ChooseVictim | optimal.c:66-84 | the victim chosen is the one the replacement rule names for this window |
| OptimalPolicy.Optimal | optimal.c:41-87 | returns the fault count of the specification over the whole trace |
| OptimalPolicy.WarmUp | optimal.c:48-57 | the warm-up loop ends within the trace with every frame filled, in the specified state after the references it consumed |
| OptimalPolicy.ServeDuringWarmUp | optimal.c:49-56 | one warm-up pass: a resident page undoes the advance of the fill index, a new page is loaded at the fill index with one fault |
| OptimalPolicy.ServeAfterWarmUp | optimal.c:60-84 | one steady-state pass: a hit changes nothing, a miss loads the page over the chosen victim with one fault |
| OptimalPolicy.WarmUpWithinTrace | optimal.c:48-57 | on a trace with at least `size` distinct pages the warm-up never runs past the end |
| OptimalPolicy.FullFramesDistinct | optimal.c:59-84 | after the warm-up the frames hold pairwise distinct pages |
| OptimalPolicy.ScanStep | optimal.c:70-72 | seeing one more reference clears exactly the flag of the frame holding it; if that was the last flag, that frame's page first occurs latest |
| OptimalPolicy.LatestFirstLastCleared | optimal.c:69-76 | when only one page is missing from the window, appending it makes its frame the latest first occurrence |
| OptimalPolicy.ScanUpToStops | optimal.c:69 | once no flag is left, further references do not change the scan |
| OptimalPolicy.ScanUpToMeaning | optimal.c:66-76 | the scan's flags are the mask of unreferenced frames; when none is left, the last located frame is the latest first occurrence |
| OptimalPolicy.LatestFirstPrefix | optimal.c:69-76 | once every resident page has occurred in a prefix of the window, the rest of the window does not change the latest first occurrence |
| OptimalPolicy.OptimalVictimRule | optimal.c:66-84 | if some resident page does not recur within the window, the victim is the lowest such frame; otherwise the victim's page first recurs strictly later than every other resident page |
| OptimalPolicy.OptRunShape | optimal.c:41-85 | filled frames form a prefix and hold no page twice; after the warm-up all frames hold distinct pages |
| OptimalPolicy.OptStepServes | optimal.c:59-84 | a reference is served as every policy must |
| OptimalPolicy.OptRunAccounted | optimal.c:48-85 | resident pages are distinct and were referenced; faults lie between the number of distinct pages seen and the number of references |
| OptimalPolicy.ResidentDuringWarmUp | optimal.c:49-51 | during the warm-up a page is resident exactly when it is the sentinel or already among the distinct pages seen |
| OptimalPolicy.WarmUpStep | optimal.c:49-56 | a warm-up reference to a new page appends it at the fill index with one fault; to a seen page it changes nothing |
| OptimalPolicy.OptWarmUp | optimal.c:48-57 | during the warm-up the filled frames are the distinct pages in order of first appearance, one fault each; once `size` distinct pages are seen every frame is filled |
| OptimalPolicy.WarmUpFillsLastFrame | optimal.c:48-57 | the reference that brings the distinct count to `size` fills the last frame: the frames are then the distinct pages, after `size` faults |
| OptimalPolicy.OptWarmUpComplete | optimal.c:48-57 | when the trace so far has exactly `size` distinct pages, the frames are those pages in order of first appearance, after exactly `size` faults |
| OptimalPolicy.OptSingleFrame | optimal.c:41-87 | with one frame, faults are exactly the changes of page and the frame holds the latest page |
| SecondChancePolicy.ClockRun | optimal.c:149-173 | the pointer always stays in `[0, size)` and there is one reference bit per frame |
| SecondChancePolicy.SkipFromSpec | optimal.c:166-169 | the sweep passes exactly the frames whose bits are set and stops at the first clear bit; it goes all the way round only when every bit is set |
| SecondChancePolicy.Sweep | optimal.c:166-169 | the clearing loop stops at the first frame from the pointer with a clear bit, having cleared exactly the bits it passed |
| SecondChancePolicy.ServeReference | optimal.c:157-173 | one pass of the loop updates frames, bits, pointer and count exactly as `ClockStep` |
| SecondChancePolicy.SecondChance | optimal.c:145-176 | returns the fault count of the second-chance specification over the whole trace |
| SecondChancePolicy.ClockMissVictim | optimal.c:165-173 | on a miss the victim is the first frame from the pointer with a clear bit, or the pointer's own frame when all bits are set; the frames passed had their bits set and lose them; the victim gets the page and a set bit; nothing else changes; the pointer ends one past the victim |
| SecondChancePolicy.ClockStepServes | optimal.c:156-173 | a reference is served as every policy must |
| SecondChancePolicy.ClockRunAccounted | optimal.c:156-174 | resident pages are distinct and were referenced; faults lie between the number of distinct pages referenced and the trace length |
| SecondChancePolicy.ClockFillsInOrder | optimal.c:149-173 | frames are filled in index order; while frames remain unused the pointer is at the first of them; no empty frame has its bit set |
| SecondChancePolicy.ClockSingleFrame | optimal.c:156-174 | with one frame, faults are exactly the changes of page and the frame holds the latest page |
| SecondChancePolicy.ClockBeladyAnomaly | optimal.c:145-176 | on Belady's trace 3 frames take 9 faults and 4 frames take 10, so second chance is not monotone in frame count |

## Left out

- `main` (optimal.c:179-219) is not modelled: argument parsing, printing, `malloc` and `free`.
- `rand()` and `lrand()` (optimal.c:9) are replaced by caller-supplied draws. The
  possible overflow or negative value of `lrand()` is not modelled; draws are natural
  numbers.
- The floating-point jump test `rand() < t * RAND_MAX` (optimal.c:32) is replaced by
  the caller's choice of move (`Slide` or `Jump(target)`) for each relocation. Draws
  for pages and moves for relocations are two separate sequences, so the order in
  which the C program interleaves its `rand()` calls is not modelled.
- LocalityModel.GenerateRefString stops writing when the supplied draws or moves run
  out. The C loop never stops early: with unlimited randomness it writes
  `STRING_LEN` pages, or never finishes (see `GenStuckOnSinglePageWindow`).
- `STRING_LEN` and `ALLOCATED_FRAMES` (optimal.c:7-8) are parameters: the length of the
  trace or array, and `size`.
- Integers are unbounded. Fault counts, indices and LRU timestamps cannot overflow in
  the model; with the C constants they stay far below 2^31.
- The `unused` bitmask of `optimal` (optimal.c:66-82) is a sequence of flags, one per
  frame. Its shifts become "the lowest set flag". `1 << size` is computed on a signed
  `int`, so the C is well defined only for `size <= 30`: at 31 the shift overflows.
  `Optimal` requires `size <= 31` and models size 31 as if the mask held 31 set bits.
- OptimalPolicy.Optimal requires at least `size` distinct pages in the trace. The C
  warm-up loop (optimal.c:48-57) never checks `cur < STRING_LEN` and reads past the end
  of the trace otherwise. That undefined behaviour is not modelled.
- Variable-length stack arrays are modelled as freshly allocated arrays.
- The reference bits of `second_chance` are `int`s holding 0 or 1 in the C. They are
  booleans in the model.
- Lemmas about the contents of the frames require a trace of non-negative page
  numbers. A reference to -1 would "hit" an empty frame, in the C as in the model.
