# smol-atlas and cRectAllocator in Dafny

This project models two dynamic 2D rectangle allocators and proves properties of them.

## smol-atlas

smol-atlas is a texture-atlas allocator that uses the "shelf best height fit" heuristic
(`src/smol-atlas.cpp`). The canvas is cut into horizontal shelves stacked from y = 0.

- Each shelf keeps a sorted linked list of free column spans and a vector of the items placed on it.
- `pack(w, h)` scans the shelves bottom to top:
  - it skips a shelf that is too short, or whose widest free span is narrower than w;
  - it takes the first shelf of exactly height h;
  - otherwise it takes the fitting shelf that wastes the least height, the earliest one on a tie.
  - When no shelf fits, it opens a new shelf of height h on top of the stack, if the canvas has room.
- `free_item` gives the item's columns back to its shelf. The span is inserted at its sorted place and merged with the neighbours it touches.

The model has three layers, one module each:

- `Spans`: the free-span list as a `seq<Span>`. It holds the list operations `alloc_item`,
  `add_free_span`, `free_span_insert`, `free_spans_remove` and `merge_free_spans` perform, and their
  lemmas: well-formedness is kept, the columns move exactly, and the round trip restores the list.
- `Shelves`: the value of a shelf (`ShelfState`), the functions `ShelfAlloc`/`ShelfRelease`, and the
  shelf invariant. Free columns and item columns partition the shelf, and items never overlap.
  The class `Shelf` holds the source's mutable fields (`spans`, `entries`). Its methods are the
  source's scan loops and in-place edits, each proved to have the effect of the matching function.
- `Atlases`: the functions `AtlasPack`/`AtlasFree`, the shelf choice (`FirstExact`, `BestFit`,
  `Choose`), the atlas invariant and its lemmas. The class `Atlas` holds a sequence of `Shelf`
  objects, and its `Pack` method runs the scan of `pack` with loop invariants.

`Scenarios` replays the runs of `test/smol-atlas-test.cpp` as lemmas about `AtlasPack` and
`AtlasFree`. The exception is `test_clear` (test/smol-atlas-test.cpp:208-221), which is covered by
`Atlases.PackAfterClear`: after `clear` the next item goes to (0, 0) on a new shelf 0. That test file calls the library by older names: `sma_pack` for `sma_add`,
`sma_entry_release` for `sma_remove`, and `sma_entry_get_x/y/width/height` for
`sma_item_x/y/width/height`. The scenarios model the operations those names stand for.

## cRectAllocator

Andrew Willmott's `cRectAllocator` (`external/andrewwillmott_rectallocator/`) is a guillotine allocator.

- It keeps a binary tree of sub-rectangles in a vector, addressed by index, plus a LIFO stack of
  recycled vector slots.
- `Alloc` searches the tree: left subtree first, then right. When it finds a free leaf that is too
  big, it splits it in two along its larger remainder and continues in the left part.
- `Free` marks a leaf free, then walks up the parent links. Each parent whose two children are both
  free leaves is collapsed back into a leaf.

The model has three modules:

- `RectTree`: the two vectors as a value (`Pool`), the tree invariant `Sound`, and the functions
  `AllocRef`, `FreeRef`, `AllocAt` (the recursive `Alloc`), `Collapse` and `Release` (`Free`), with
  their lemmas. `Sound` says that every live node but the root has a parent that links back to it,
  that children cut their parent in two, and that every node lies in the page. From it follows that
  `Alloc` fails exactly when no free leaf holds the request.
- `RectLayout`: the layout invariant `LeavesApart`, which says that distinct leaves share no pixel.
  It holds after `Clear`, and `Alloc` and `Free` keep it.
- `RectAllocators`: the class `RectAllocator`, whose methods update the two sequence fields in
  place. Each is proved to have the effect of the matching `RectTree` function and to keep both
  invariants.

## Model

| member | source | states |
|---|---|---|
| Spans.Interval | src/smol-atlas.cpp:29-36 | the columns a span covers are exactly x <= c < x + width |
| Spans.MaxI | src/smol-atlas.cpp:10-13 | `max_i` is at least both arguments and equals one of them |
| Spans.MaxWidth | src/smol-atlas.cpp:61-70 | `calc_max_free_span` is non-negative, no span is wider, and it is some span's width or 0 (the running maximum starts at 0) |
| Spans.FirstFit | src/smol-atlas.cpp:77-90 | the scan of `alloc_item` stops at a span at least w wide with every earlier span narrower; it finds nothing exactly when every span is narrower than w |
| Spans.RemoveAt | src/smol-atlas.cpp:162-169 | `free_spans_remove`: the list without the span at position k; `Spans.RemoveWellFormed` states that this keeps the list well-formed |
| Spans.InsertAt | src/smol-atlas.cpp:150-160 | `free_span_insert`: the list with the new span linked in at position k, the head when `prev` is null; `Spans.InsertShape` spells out the result |
| Spans.Carve | src/smol-atlas.cpp:92-102 | the carve step of `alloc_item`: the span at position k loses its w leftmost columns, or is unlinked when nothing is left; `Spans.CarveCells` and `Spans.CarveWellFormed` state that exactly [x, x + w) leaves the free columns and that the list stays well-formed |
| Spans.MergeNext | src/smol-atlas.cpp:176-177 | one absorption of `merge_free_spans`: the span at position k takes over its successor's width, and the successor is unlinked; `Spans.MergeNextJoin` states the result |
| Spans.MergeWithNext | src/smol-atlas.cpp:173-178 | the forward half of `merge_free_spans`; `Spans.WithNextJoin` and `Spans.WithNextCells` state when it merges and that it keeps the free columns |
| Spans.MergeWithPrev | src/smol-atlas.cpp:179-183 | the backward half of `merge_free_spans`; `Spans.WithPrevJoin` and `Spans.WithPrevCells` state when it merges and that it keeps the free columns |
| Spans.MergeAt | src/smol-atlas.cpp:171-184 | `merge_free_spans`: the forward merge, then the backward merge; `Spans.MergeJoinCells` and `Spans.MergeJoinWellFormed` state that it keeps the free columns and leaves no two spans touching |
| Spans.AddSpan | src/smol-atlas.cpp:109-130 | `add_free_span`: link [x, x + w) in before the first span that starts after x, then merge it; `Spans.AddSpanCells`, `Spans.AddSpanWellFormed` and `Spans.CarveThenAddSpan` state that it adds exactly those columns, keeps the list well-formed and undoes a carve |
| Spans.InsertPos | src/smol-atlas.cpp:113-127 | the insertion point of `add_free_span` has every earlier span starting at or before x, and the span at it starting after x |
| Spans.InsertPosIs | src/smol-atlas.cpp:113-127 | the insertion point is the unique position with smaller-or-equal starts before it and a larger start at it |
| Spans.InsertShape | src/smol-atlas.cpp:150-160 | proof helper that unfolds `Spans.InsertAt`: the new span sits between the spans before and after the insertion point |
| Spans.RemoveWellFormed | src/smol-atlas.cpp:162-169 | unlinking a span keeps the free-span list well-formed |
| Spans.CarveShape | src/smol-atlas.cpp:92-102 | proof helper that unfolds `Spans.Carve`: the chosen span loses its w leftmost columns when wider than w, and is unlinked when exactly w wide; the rest of the list is unchanged |
| Spans.CarveCells | src/smol-atlas.cpp:92-102 | carving w columns off a span takes exactly [x, x + w) out of the free columns |
| Spans.CarveWellFormed | src/smol-atlas.cpp:92-102 | carving keeps the free spans sorted, non-empty, separated by gaps and inside the shelf |
| Spans.MergeNextJoin | src/smol-atlas.cpp:174-178 | merging a span with the touching span after it widens it by that span's width and drops that span |
| Spans.WithNextJoin | src/smol-atlas.cpp:173-178 | the forward merge happens exactly when the next span starts where the new one ends |
| Spans.WithPrevJoin | src/smol-atlas.cpp:179-183 | the backward merge happens exactly when the previous span ends where the new one starts |
| Spans.WithNextCells | src/smol-atlas.cpp:173-178 | the forward merge keeps the set of free columns |
| Spans.WithPrevCells | src/smol-atlas.cpp:179-183 | the backward merge keeps the set of free columns |
| Spans.MergeJoinCells | src/smol-atlas.cpp:171-184 | both merges together keep the set of free columns |
| Spans.AddSpanCells | src/smol-atlas.cpp:109-130 | `add_free_span(x, w)` adds exactly the columns [x, x + w) to the free columns |
| Spans.InsertPosApart | src/smol-atlas.cpp:113-127 | for a released interval apart from every free span, spans before the insertion point end by x and spans after it start at or after x + w |
| Spans.PrevMergedWellFormed | src/smol-atlas.cpp:179-183 | a backward merge into the touching previous span leaves a well-formed list |
| Spans.PrevStageWellFormed | src/smol-atlas.cpp:179-183 | the backward merge keeps the list well-formed when the new span ends before every later span |
| Spans.MergeJoinWellFormed | src/smol-atlas.cpp:171-184 | both merges leave no two touching spans, so the list stays well-formed |
| Spans.AddSpanWellFormed | src/smol-atlas.cpp:109-130 | releasing an interval that lies apart from every free span keeps the list well-formed |
| Spans.JoinWellFormed | src/smol-atlas.cpp:150-160 | a span placed strictly between two well-formed halves gives a well-formed list |
| Spans.Isolated | src/smol-atlas.cpp:171-184 | proof helper that restates `Spans.WellFormed` span by span: in a well-formed list each span lies strictly apart from all others, with a gap on both sides |
| Spans.CarveThenAddSplit | src/smol-atlas.cpp:94-98 | giving back the columns cut off a span that kept a remainder rebuilds the original span |
| Spans.CarveThenAddWhole | src/smol-atlas.cpp:99-102 | giving back a span that was unlinked whole links it back in at its old place |
| Spans.CarveThenAddAt | src/smol-atlas.cpp:92-130 | `add_free_span` undoes the carve of `alloc_item` on an isolated span |
| Spans.CarveThenAddSpan | src/smol-atlas.cpp:92-130 | on a well-formed list, releasing the columns `alloc_item` just carved gives back exactly the list before |
| Shelves.NewShelf | src/smol-atlas.cpp:40-44 | a new shelf has the given y, height and index, no items, and all its columns free |
| Shelves.ShelfAlloc | src/smol-atlas.cpp:72-107 | `alloc_item` fails exactly when h exceeds the shelf height or no free span is w wide, and then changes nothing; otherwise the item has the shelf's y and index, the size asked for, and the x of the first span at least w wide |
| Shelves.IndexOf | src/smol-atlas.cpp:140-142 | `std::find` returns the first slot holding the item |
| Shelves.SwapRemove | src/smol-atlas.cpp:143-146 | the last entry moves into slot k and the vector shrinks by one; other slots are unchanged, and exactly one copy of the removed item is gone |
| Shelves.SwapRemoveMid | src/smol-atlas.cpp:143-146 | moving the last entry into an earlier slot and popping the back removes exactly one copy of the entry in that slot |
| Shelves.SwapRemoveShape | src/smol-atlas.cpp:143-146 | swap-removing slot k of a + [e] + b + [z] gives a + [z] + b |
| Shelves.ShelfRelease | src/smol-atlas.cpp:132-148 | `free_item` keeps the shelf's y, height and index, and removes exactly one copy of the item from the entries |
| Shelves.UsedSwapRemove | src/smol-atlas.cpp:139-146 | removing an item takes exactly its columns out of the used columns |
| Shelves.UsedDropLast | src/smol-atlas.cpp:146 | popping the last item takes exactly its columns out of the used columns |
| Shelves.IntervalsApart | src/smol-atlas.cpp:92-105 | two non-empty column intervals with no common column lie one after the other |
| Shelves.NewItemApart | src/smol-atlas.cpp:92-105 | an item cut from the free columns shares no column with any live item |
| Shelves.AllocItemOn | src/smol-atlas.cpp:92-106 | the placed item lies in the shelf's strip, inside the shelf width, and its columns were free |
| Shelves.AllocKeepsColumns | src/smol-atlas.cpp:92-106 | after `alloc_item` the free spans are well-formed and the free and used columns still partition the shelf |
| Shelves.AllocKeepsInv | src/smol-atlas.cpp:72-107 | `alloc_item` keeps the shelf invariant |
| Shelves.AppendOn | src/smol-atlas.cpp:104-105 | appending an item that lies on the shelf keeps every item on the shelf |
| Shelves.AppendApart | src/smol-atlas.cpp:104-105 | appending an item apart from all others keeps the items pairwise apart |
| Shelves.AllocApart | src/smol-atlas.cpp:72-107 | a newly allocated item never overlaps an item already on the shelf |
| Shelves.SwapRemoveApart | src/smol-atlas.cpp:139-146 | after a swap-remove the remaining items are still pairwise apart, and apart from the removed one |
| Shelves.ReleaseCells | src/smol-atlas.cpp:132-148 | `free_item` keeps the free spans well-formed and gives back exactly the item's columns |
| Shelves.ReleaseKeepsInv | src/smol-atlas.cpp:132-148 | `free_item` keeps the shelf invariant |
| Shelves.RemoveOn | src/smol-atlas.cpp:139-146 | removing one copy of an item keeps every remaining item on the shelf |
| Shelves.IndexOfLast | src/smol-atlas.cpp:104-105 | under the invariant live items are distinct, so `std::find` locates a just-appended item in the last slot |
| Shelves.ReleaseAfterAlloc | src/smol-atlas.cpp:72-148 | releasing the item `alloc_item` just placed restores the shelf exactly: spans, entries and all |
| Shelves.NewShelfInv | src/smol-atlas.cpp:40-44 | a new shelf satisfies the shelf invariant |
| Shelves.Shelf.constructor | src/smol-atlas.cpp:40-44 | the shelf object starts as `NewShelf`: one free span over the whole width, no items |
| Shelves.Shelf.CalcMaxFreeSpan | src/smol-atlas.cpp:61-70 | the loop computes the widest free span, 0 without spans |
| Shelves.Shelf.FreeSpanInsert | src/smol-atlas.cpp:150-160 | the span is linked in right after `prev`, or at the head when `prev` is null |
| Shelves.Shelf.FreeSpansRemove | src/smol-atlas.cpp:162-169 | the span after `prev`, or the head when `prev` is null, is unlinked |
| Shelves.Shelf.MergeFreeSpans | src/smol-atlas.cpp:171-184 | the span first absorbs a touching successor, then a touching predecessor absorbs it |
| Shelves.Shelf.CarveSpan | src/smol-atlas.cpp:92-102 | the chosen span is shrunk from the left by w, or unlinked when nothing is left |
| Shelves.Shelf.AllocItem | src/smol-atlas.cpp:72-107 | the scan, carve and append have the effect of `ShelfAlloc` and keep the shelf valid |
| Shelves.Shelf.AddFreeSpan | src/smol-atlas.cpp:109-130 | the scan, insert and merge have the effect of `AddSpan` and leave the entries alone |
| Shelves.Shelf.FreeItem | src/smol-atlas.cpp:132-148 | giving the columns back and swap-removing the entry has the effect of `ShelfRelease` and keeps the shelf valid |
| Atlases.CanvasSize | src/smol-atlas.cpp:197-201 | a positive dimension is kept, a non-positive one becomes 64; the result is always positive |
| Atlases.Fits | src/smol-atlas.cpp:214-218 | the two skip tests of the `pack` loop: a shelf fits when it is at least h tall and its widest free span is at least w; `Atlases.FitsAllocates` states that `alloc_item` then succeeds |
| Atlases.Exact | src/smol-atlas.cpp:214-221 | a fitting shelf of exactly height h, which `pack` takes at once; `Atlases.FirstExact` picks the first one |
| Atlases.BestFit | src/smol-atlas.cpp:223-229 | the best-fit scan over the fitting shelves; `Atlases.BestFitSpec` states its result |
| Atlases.Choose | src/smol-atlas.cpp:210-232 | the shelf `pack` uses: the first exact fit, otherwise the best fit; the index is in range, and `Atlases.ChooseSpec` and `Atlases.ExactIsBest` state what is chosen |
| Atlases.AtlasPack | src/smol-atlas.cpp:203-243 | `pack` on the shelf states: allocate on the chosen shelf, else open a shelf at `top_y` when the canvas has room, else null; `Atlases.PackFails`, `Atlases.PackOnShelf`, `Atlases.PackNewShelf` and `Atlases.PackKeepsInv` state each outcome and the kept invariant |
| Atlases.FirstExact | src/smol-atlas.cpp:214-221 | the exact-height shortcut picks a fitting shelf of height h with no such shelf before it, and nothing only when there is no such shelf |
| Atlases.BestFitSpec | src/smol-atlas.cpp:223-229 | the best fit is a fitting shelf of least height, every earlier fitting shelf is strictly taller (ties go to the earliest), and there is none only when no shelf fits |
| Atlases.ChooseSpec | src/smol-atlas.cpp:210-232 | `pack` chooses a shelf that fits, and chooses none exactly when no shelf fits |
| Atlases.ExactIsBest | src/smol-atlas.cpp:220-228 | the early return on an exact fit agrees with the best-fit rule |
| Atlases.TopY | src/smol-atlas.cpp:209-212 | `top_y` is non-negative and lies above every shelf |
| Atlases.TopYSnoc | src/smol-atlas.cpp:212 | the running top after one more shelf is the larger of the old top and that shelf's top |
| Atlases.TopYSameGeometry | src/smol-atlas.cpp:209-212 | the top depends only on the shelves' y and height |
| Atlases.StackedBelow | src/smol-atlas.cpp:234-238 | shelves opened at the top lie one above the other without overlap |
| Atlases.StackedTop | src/smol-atlas.cpp:234-238 | stacked shelves start at y >= 0 and `top_y` is the end of the last shelf |
| Atlases.AtlasFree | src/smol-atlas.cpp:245-251 | `free_item` keeps the number of shelves, and a null item changes nothing |
| Atlases.PackFails | src/smol-atlas.cpp:231-242 | `pack` returns null exactly when no shelf fits and a new shelf would not fit the canvas width or the height left above `top_y` |
| Atlases.PackOnShelf | src/smol-atlas.cpp:220-232 | when a shelf fits, the item goes on the chosen shelf at its y with its index and the size asked for, at the left end of that shelf's first free span at least w wide, and no other shelf changes |
| Atlases.PackNewShelf | src/smol-atlas.cpp:234-239 | otherwise a shelf of height h is appended at `top_y` with index equal to the shelf count, and the item lands at (0, `top_y`) |
| Atlases.NewShelfIsExact | src/smol-atlas.cpp:234-239 | the freshly opened shelf is an exact fit for the request that opened it |
| Atlases.FitsAllocates | src/smol-atlas.cpp:214-221 | a shelf that passes `pack`'s tests always accepts the item in `alloc_item` |
| Atlases.ItemInCanvas | src/smol-atlas.cpp:234-239 | every live item lies inside the canvas |
| Atlases.ItemsNeverOverlap | src/smol-atlas.cpp:203-256 | two different live items never overlap: they are apart horizontally or vertically |
| Atlases.PackOnShelfKeepsInv | src/smol-atlas.cpp:220-232 | allocating on an existing shelf keeps the atlas invariant |
| Atlases.ReplaceKeepsInv | src/smol-atlas.cpp:221 | replacing a shelf by one with the same place, height and index that keeps the shelf invariant keeps the atlas invariant |
| Atlases.ReplaceKeepsGeometry | src/smol-atlas.cpp:221 | such a replacement keeps the stack and its top |
| Atlases.ReplaceKeepsShelves | src/smol-atlas.cpp:221 | such a replacement keeps every shelf's invariant and index |
| Atlases.AtlasInvSnoc | src/smol-atlas.cpp:234-238 | putting a valid shelf with the next index on top of the stack, inside the canvas, keeps the atlas invariant |
| Atlases.SnocKeepsGeometry | src/smol-atlas.cpp:234-238 | a shelf of positive height put at `top_y` keeps the stack and becomes its new top |
| Atlases.SnocKeepsShelves | src/smol-atlas.cpp:236-237 | appending a valid shelf whose index is the shelf count keeps every shelf's invariant and index |
| Atlases.PackNewShelfKeepsInv | src/smol-atlas.cpp:234-239 | opening a shelf at the top and allocating on it keeps the atlas invariant |
| Atlases.PackKeepsInv | src/smol-atlas.cpp:203-243 | `pack` keeps the atlas invariant |
| Atlases.PackReleasable | src/smol-atlas.cpp:203-251 | what `pack` returns can be given to `free_item` |
| Atlases.FreeKeepsInv | src/smol-atlas.cpp:245-251 | `free_item` keeps the atlas invariant |
| Atlases.FreeAfterAllocAt | src/smol-atlas.cpp:245-251 | releasing the item a shelf just allocated restores the whole list of shelves |
| Atlases.FreeAfterPack | src/smol-atlas.cpp:203-251 | releasing what `pack` returned restores every shelf; a shelf opened for it stays, empty and wholly free |
| Atlases.RepackSame | src/smol-atlas.cpp:203-243 | packing the same request against the shelves it saw, plus any shelf it opened, gives the same result |
| Atlases.PackFreePack | src/smol-atlas.cpp:203-251 | pack, release, pack again gives the same item and the same shelves |
| Atlases.PackAfterClear | src/smol-atlas.cpp:253-256 | after `clear` the next item goes to (0, 0) on a new shelf 0 |
| Atlases.BestFitStep | src/smol-atlas.cpp:223-228 | one scan step replaces the best shelf only on a strictly smaller height surplus |
| Atlases.TopYStep | src/smol-atlas.cpp:212 | one scan step raises `top_y` to that shelf's top when it is higher |
| Atlases.ScanStep | src/smol-atlas.cpp:210-229 | the loop invariant of `pack`'s scan is kept over a shelf that is not an exact fit |
| Atlases.ScanDone | src/smol-atlas.cpp:229-231 | at the end of the scan the remembered shelf is `pack`'s choice and `top_y` is the stack's top |
| Atlases.FirstExactAt | src/smol-atlas.cpp:220-221 | an exact fit with none before it is what `pack` returns on |
| Atlases.ShelfHeightsBounded | src/smol-atlas.cpp:207 | shelf heights stay within 32 bits, so a height surplus stays below the 0x7fffffff sentinel |
| Atlases.StatesOf | src/smol-atlas.cpp:258 | the values of the shelf objects, one per shelf, in order |
| Atlases.Atlas.constructor | src/smol-atlas.cpp:197-201 | width and height are the requested ones, with 64 for a non-positive request; there are no shelves |
| Atlases.Atlas.Clear | src/smol-atlas.cpp:253-256 | every shelf is dropped and the canvas size stays |
| Atlases.Atlas.AllocOn | src/smol-atlas.cpp:221 | allocating on shelf k changes only shelf k, as `ShelfAlloc` says, and keeps the atlas valid |
| Atlases.Atlas.FindShelf | src/smol-atlas.cpp:206-229 | the scan loop returns `pack`'s choice, or -1 with `top_y` when no shelf fits |
| Atlases.Atlas.OpenShelf | src/smol-atlas.cpp:234-237 | a fresh shelf of height h is appended at `top_y` with the next index; the others stay |
| Atlases.Atlas.AllocOnNewShelf | src/smol-atlas.cpp:234-239 | opening a shelf and allocating on it adds exactly that shelf's state and returns its item |
| Atlases.Atlas.Pack | src/smol-atlas.cpp:203-243 | `pack` has the effect of `AtlasPack`, keeps the canvas size, and keeps the atlas valid |
| Atlases.Atlas.PlaceAt | src/smol-atlas.cpp:231-242 | after the scan, allocating on the chosen shelf, on a new shelf, or failing, has the effect of `AtlasPack` |
| Atlases.Atlas.FreeItem | src/smol-atlas.cpp:245-251 | `free_item` has the effect of `AtlasFree` and keeps the atlas valid |
| Atlases.Atlas.FreeOn | src/smol-atlas.cpp:250 | the item's shelf releases it and no other shelf changes |
| Scenarios.MaxWidthTwo | src/smol-atlas.cpp:61-70 | the widest of two spans is the larger width |
| Scenarios.ChooseExact | src/smol-atlas.cpp:220-221 | the first exact fit is chosen |
| Scenarios.ChooseBest | src/smol-atlas.cpp:223-232 | without an exact fit the earliest least-surplus fit is chosen |
| Scenarios.PlaceStep | src/smol-atlas.cpp:220-232 | on the chosen shelf the item goes at the left end of its first span when that span is wide enough |
| Scenarios.OpenStep | src/smol-atlas.cpp:234-239 | a new shelf holds the item at x = 0 and keeps the rest of its width free |
| Scenarios.SameHeightSameShelf | test/smol-atlas-test.cpp:34-47 | three 10 x 10 items land at x = 0, 10, 20 on shelf 0 |
| Scenarios.LargerHeightNewShelf | test/smol-atlas-test.cpp:49-58 | a 10 x 15 item after a 10 x 10 one opens a shelf at y = 10 |
| Scenarios.LargerHeightThirdShelf | test/smol-atlas-test.cpp:55-59 | a 10 x 20 item then opens a shelf at y = 25 |
| Scenarios.ShorterHeightBestShelf | test/smol-atlas-test.cpp:64-79 | a 10 x 9 item goes to (10, 0), the shelf of least surplus |
| Scenarios.PackUsesFreeSpace | test/smol-atlas-test.cpp:81-95 | after releasing the middle square, the next square fills its hole at (10, 0) |
| Scenarios.ReleaseOnly | src/smol-atlas.cpp:132-148 | releasing a shelf's only item at x = 0 makes the shelf wholly free |
| Scenarios.FreeOnly | src/smol-atlas.cpp:245-251 | the same through the atlas: only that shelf changes |
| Scenarios.ReleaseTop | test/smol-atlas-test.cpp:105 | releasing the 10 x 20 item empties the top shelf |
| Scenarios.ReleaseMiddle | test/smol-atlas-test.cpp:106 | releasing the 10 x 15 item empties the middle shelf |
| Scenarios.ReleaseBottom | test/smol-atlas-test.cpp:107 | releasing the 10 x 10 item empties the bottom shelf |
| Scenarios.ReleaseTiers | test/smol-atlas-test.cpp:105-107 | the three releases leave three empty shelves of heights 10, 15, 20 |
| Scenarios.LeastWastefulFreeSpace | test/smol-atlas-test.cpp:109-110 | a 10 x 13 item then goes to (0, 10), the empty shelf of height 15 |
| Scenarios.NewShelfReleased | test/smol-atlas-test.cpp:119-122 | releasing the 10 x 15 item empties its shelf and keeps the shelf |
| Scenarios.NewShelfNotWasteful | test/smol-atlas-test.cpp:124-125 | a 10 x 10 item then goes to (10, 0), not to the taller empty shelf |
| Scenarios.ReleasedShelfReused | test/smol-atlas-test.cpp:134-140 | a 10 x 13 item goes to (0, 10) on the released shelf of height 15 |
| Scenarios.ReusedShelfReleased | test/smol-atlas-test.cpp:142 | releasing it empties the shelf again |
| Scenarios.ShelfKeepsMaxHeight | test/smol-atlas-test.cpp:144-145 | a 10 x 14 item also goes to (0, 10): the shelf keeps height 15 |
| Scenarios.MinimalSizeOpen | test/smol-atlas-test.cpp:152-160 | on a 30 x 45 atlas, 10 x 10 goes to (0, 0) and 5 x 15 to (0, 10) |
| Scenarios.MinimalSizeExact | test/smol-atlas-test.cpp:156-161 | 25 x 15 goes to (5, 10) and takes the rest of that shelf |
| Scenarios.MinimalSizeTop | test/smol-atlas-test.cpp:157-162 | 10 x 20 goes to (0, 25), a third shelf ending at the canvas top |
| Scenarios.RowPack | src/smol-atlas.cpp:72-107 | on a single 10-high row, packing takes the left end of the first free span |
| Scenarios.CoalescingFillA | test/smol-atlas-test.cpp:175-179 | A goes to (0, 0) on a 100 x 10 atlas |
| Scenarios.CoalescingFillB | test/smol-atlas-test.cpp:176-180 | B goes to (10, 0) |
| Scenarios.CoalescingFillC | test/smol-atlas-test.cpp:177-181 | C goes to (30, 0) |
| Scenarios.CoalescingFillD | test/smol-atlas-test.cpp:178-182 | D goes to (40, 0) |
| Scenarios.CoalescingReleaseA | test/smol-atlas-test.cpp:185 | releasing A frees columns 0-9 and moves D into A's entry slot |
| Scenarios.CoalescingReleaseC | test/smol-atlas-test.cpp:186 | releasing C adds a separate free span for columns 30-39 |
| Scenarios.CoalescingReleaseB | test/smol-atlas-test.cpp:188 | releasing B merges its span with both neighbours into columns 0-39 |
| Scenarios.CoalescingRefill | test/smol-atlas-test.cpp:191-192 | a 30-wide E goes to (0, 0) |
| Scenarios.CoalescingReleaseD | test/smol-atlas-test.cpp:195 | releasing D merges its span with both neighbours into columns 30-99 |
| Scenarios.CoalescingReleaseE | test/smol-atlas-test.cpp:196-200 | releasing E frees the whole row, and a 90-wide F goes to (0, 0) |
| RectTree.Sub | external/andrewwillmott_rectallocator/RectAllocator.h:21-24 | subtraction is componentwise: adding the difference back gives the minuend, and it is zero exactly for equal vectors |
| RectTree.Eq | external/andrewwillmott_rectallocator/RectAllocator.h:25-28 | componentwise equality is equality of the vectors |
| RectTree.HasChildren | external/andrewwillmott_rectallocator/RectAllocator.h:83 | a node has children exactly when its left link is set, as the header tests |
| RectTree.Info | external/andrewwillmott_rectallocator/RectAllocator.h:97-101 | the rectangle of a node, which `RectInfo` returns; `RectAllocators.RectAllocator.RectInfo` states its properties |
| RectTree.FromInfo | external/andrewwillmott_rectallocator/RectAllocator.h:73-81 | a node built from a rectangle has its origin and size, no parent, no children, and is empty |
| RectTree.AllocRef | external/andrewwillmott_rectallocator/RectAllocator.cpp:149-162 | pops the most recently freed slot, or grows the vector by exactly one node; existing nodes are kept |
| RectTree.FreeRef | external/andrewwillmott_rectallocator/RectAllocator.cpp:164-169 | pushes the slot on the free stack; nodes are unchanged |
| RectTree.ReuseLastFreed | external/andrewwillmott_rectallocator/RectAllocator.cpp:149-169 | the free stack is LIFO: the slot freed last is the next one handed out |
| RectTree.PageRoot | external/andrewwillmott_rectallocator/RectAllocator.cpp:23-29 | after `Clear` there is one live, free leaf of the page size at the origin, nothing in use, and the tree invariant holds |
| RectTree.Divide | external/andrewwillmott_rectallocator/RectAllocator.cpp:120-143 | the split step of `Alloc`: take two slots and link them as the children of `ref`; `RectTree.DivideShape`, `RectTree.DivideTiles` and `RectTree.DivideSound` state the result |
| RectTree.Link | external/andrewwillmott_rectallocator/RectAllocator.cpp:123-143 | the node writes of the split; `RectTree.DivideShape` gives both children's rectangles and links |
| RectTree.TwoSlots | external/andrewwillmott_rectallocator/RectAllocator.cpp:120-121 | the split takes two distinct slots that were not live and keeps the existing nodes |
| RectTree.DivideShape | external/andrewwillmott_rectallocator/RectAllocator.cpp:120-143 | what the split writes, node by node: the children are linked, are free leaves with the split node as parent, and every other node is unchanged; when more width than height is left over the left child is size.x wide and full height, with the right child after it, otherwise it is full width and size.y tall, with the right child above it |
| RectTree.DivideTiles | external/andrewwillmott_rectallocator/RectAllocator.cpp:128-140 | the two children tile the split leaf and the left one is smaller; the left child keeps the full height and is size.x wide when more width than height is left over, and keeps the full width and is size.y tall otherwise |
| RectTree.DivideFits | external/andrewwillmott_rectallocator/RectAllocator.cpp:128-146 | the left child still holds the request |
| RectTree.DivideSound | external/andrewwillmott_rectallocator/RectAllocator.cpp:120-146 | the split keeps the tree invariant and hands back a live free leaf that holds the request, lies inside the split one and is strictly smaller |
| RectTree.DivideStack | external/andrewwillmott_rectallocator/RectAllocator.cpp:120-121 | after the split the free stack is still sound and the root is untouched |
| RectTree.DivideNewNodes | external/andrewwillmott_rectallocator/RectAllocator.cpp:123-143 | the split node and its new children have consistent parent and child links and lie in the page |
| RectTree.DivideKeepsNode | external/andrewwillmott_rectallocator/RectAllocator.cpp:120-143 | every other node keeps consistent links |
| RectTree.DivideKeepsUse | external/andrewwillmott_rectallocator/RectAllocator.cpp:120-143 | the split neither disturbs nor creates an allocation |
| RectTree.AllocAt | external/andrewwillmott_rectallocator/RectAllocator.cpp:87-147 | the result is -1 or an index of the new vector; on -1 nothing changes; a node smaller than the request in either dimension fails; at a leaf the search succeeds exactly when the leaf is free and holds the request |
| RectTree.TilesInside | external/andrewwillmott_rectallocator/RectAllocator.cpp:128-140 | both halves of a split lie within the split rectangle |
| RectTree.Mark | external/andrewwillmott_rectallocator/RectAllocator.cpp:43 | set a node's `empty` flag, as `Free` does here and `Alloc` does on an exact fit (line 116); `RectTree.MarkSound` and `RectLayout.MarkApart` state that the invariants are kept |
| RectTree.MarkSound | external/andrewwillmott_rectallocator/RectAllocator.cpp:43 | marking a leaf used or free keeps the tree invariant, and the leaf is in use exactly when marked used |
| RectTree.AllocSound | external/andrewwillmott_rectallocator/RectAllocator.cpp:87-147 | `Alloc` keeps the tree invariant; what it returns is a used leaf of exactly the requested size inside the node it started from |
| RectTree.AllocKeepsUse | external/andrewwillmott_rectallocator/RectAllocator.cpp:87-147 | `Alloc` keeps every existing allocation where it is, and adds only the one it returns |
| RectTree.AllocAdds | external/andrewwillmott_rectallocator/RectAllocator.cpp:87-147 | a successful `Alloc` adds exactly its result to the set in use; a failed one changes nothing |
| RectTree.AllocFreeLeaf | external/andrewwillmott_rectallocator/RectAllocator.cpp:111-146 | a free leaf that holds the request always satisfies it: splitting never fails |
| RectTree.AllocFromParent | external/andrewwillmott_rectallocator/RectAllocator.cpp:94-105 | a search that succeeds from a node other than the root also succeeds from its parent, which is strictly larger |
| RectTree.AllocFromRoot | external/andrewwillmott_rectallocator/RectAllocator.cpp:32-35 | a search that succeeds from any live node also succeeds from the root |
| RectTree.AllocHadRoom | external/andrewwillmott_rectallocator/RectAllocator.cpp:87-147 | a search succeeds only where some live free leaf holds the request |
| RectTree.AllocFailsIffFull | external/andrewwillmott_rectallocator/RectAllocator.h:54 | `Alloc` returns -1 exactly when no live free leaf of the page holds the request |
| RectTree.DistinctBound | external/andrewwillmott_rectallocator/RectAllocator.cpp:45-69 | the distinct parked slots number at most the vector size, which bounds the collapse walk |
| RectTree.Detach | external/andrewwillmott_rectallocator/RectAllocator.cpp:61-68 | one collapse of `Free`: clear both child links and park the children, left first; `RectTree.DetachSound`, `RectTree.DetachKeepsUse` and `RectLayout.DetachApart` state the result |
| RectTree.DetachSound | external/andrewwillmott_rectallocator/RectAllocator.cpp:61-68 | one collapse keeps the tree invariant, makes the node a leaf with the same parent, and parks two more slots |
| RectTree.DetachStack | external/andrewwillmott_rectallocator/RectAllocator.cpp:64-68 | after a collapse the free stack holds two more free leaves, all distinct |
| RectTree.PushTwoOk | external/andrewwillmott_rectallocator/RectAllocator.cpp:67-68 | parking two more distinct free leaves keeps the free stack sound |
| RectTree.DetachKeepsNode | external/andrewwillmott_rectallocator/RectAllocator.cpp:61-68 | after a collapse every live node still has consistent links |
| RectTree.DetachKeepsUse | external/andrewwillmott_rectallocator/RectAllocator.cpp:61-68 | a collapse touches no allocation |
| RectTree.Collapse | external/andrewwillmott_rectallocator/RectAllocator.cpp:45-69 | the walk up the parents keeps the vector size |
| RectTree.CollapseSound | external/andrewwillmott_rectallocator/RectAllocator.cpp:45-69 | the walk keeps the tree invariant and every allocation |
| RectTree.Release | external/andrewwillmott_rectallocator/RectAllocator.cpp:37-70 | `Free`: mark the leaf free, then collapse from its parent; `RectTree.ReleaseRemoves` and `RectLayout.ReleaseApart` state that it ends exactly that allocation and keeps both invariants |
| RectTree.ReleaseRemoves | external/andrewwillmott_rectallocator/RectAllocator.cpp:37-70 | `Free` keeps the tree invariant and ends exactly the given allocation; the others stay put |
| RectTree.UsedSetMinus | external/andrewwillmott_rectallocator/RectAllocator.cpp:37-70 | allocations differing exactly by ref give used sets differing exactly by ref |
| RectTree.AllocThenRelease | external/andrewwillmott_rectallocator/RectAllocator.cpp:32-70 | freeing what `Alloc` returned gives back the allocations there were before |
| RectTree.LeavesBelow | external/andrewwillmott_rectallocator/RectAllocator.cpp:72-84 | the scan of `AddUsedRects`/`AddUnusedRects` over the first n slots; `RectTree.LeavesBelowSpec` states what it lists |
| RectTree.Leaves | external/andrewwillmott_rectallocator/RectAllocator.cpp:72-84 | that scan over the whole vector; `RectTree.UsedLeavesAreAllocations` states that the used listing is exactly the live allocations |
| RectTree.LeavesBelowSpec | external/andrewwillmott_rectallocator/RectAllocator.cpp:72-84 | the listing holds exactly the leaves with the given flag, each once, in increasing order |
| RectTree.UsedLeavesAreAllocations | external/andrewwillmott_rectallocator/RectAllocator.cpp:72-77 | on a sound tree the used listing is exactly the set of live allocations |
| RectAllocators.RectAllocator.constructor | external/andrewwillmott_rectallocator/RectAllocator.cpp:11-21 | with a non-zero page width the page is the only node, a free root; otherwise the tree is empty |
| RectAllocators.RectAllocator.Clear | external/andrewwillmott_rectallocator/RectAllocator.cpp:23-29 | the state becomes one free root of the page size with nothing parked, and the invariant holds |
| RectAllocators.RectAllocator.Alloc | external/andrewwillmott_rectallocator/RectAllocator.cpp:32-35 | the search from the root has the effect of `AllocAt` and keeps both invariants; a success is a valid ref of exactly the requested size that overlaps no allocation live before; -1 comes back exactly when no live free leaf holds the request |
| RectAllocators.RectAllocator.AllocAt | external/andrewwillmott_rectallocator/RectAllocator.cpp:87-147 | the recursive method has the effect of `RectTree.AllocAt` |
| RectAllocators.RectAllocator.Split | external/andrewwillmott_rectallocator/RectAllocator.cpp:120-143 | taking two slots and writing the children has the effect of `Divide` |
| RectAllocators.RectAllocator.WriteChildren | external/andrewwillmott_rectallocator/RectAllocator.cpp:123-143 | the node writes of the split, in the source's order, produce `Link` and leave the free stack alone |
| RectAllocators.RectAllocator.Free | external/andrewwillmott_rectallocator/RectAllocator.cpp:37-70 | marking the leaf free and the collapse loop have the effect of `Release` and keep the invariant |
| RectAllocators.RectAllocator.AddUsedRects | external/andrewwillmott_rectallocator/RectAllocator.cpp:72-77 | appends the used leaves, in increasing index order |
| RectAllocators.RectAllocator.AddUnusedRects | external/andrewwillmott_rectallocator/RectAllocator.cpp:79-84 | appends the free leaves, in increasing index order |
| RectAllocators.RectAllocator.AllocRef | external/andrewwillmott_rectallocator/RectAllocator.cpp:149-162 | has the effect of `RectTree.AllocRef` |
| RectAllocators.RectAllocator.FreeRef | external/andrewwillmott_rectallocator/RectAllocator.cpp:164-169 | has the effect of `RectTree.FreeRef` |
| RectAllocators.RectAllocator.IsValid | external/andrewwillmott_rectallocator/RectAllocator.h:102-105 | a ref is valid exactly when the used or unused listing reports it, that is, when it is in range and names a leaf |
| RectAllocators.RectAllocator.RectInfo | external/andrewwillmott_rectallocator/RectAllocator.h:97-101 | defined only for valid refs; on a valid allocator the rectangle of a live leaf lies within the page, and an allocation shares no pixel with any other allocation |
| RectLayout.ApartMeansNoSharedPixel | external/andrewwillmott_rectallocator/RectAllocator.h:34-42 | two rectangles are apart exactly when no pixel lies in both |
| RectLayout.ApartInside | external/andrewwillmott_rectallocator/RectAllocator.cpp:128-140 | a rectangle apart from a node is apart from both parts the node is cut into |
| RectLayout.TilesApart | external/andrewwillmott_rectallocator/RectAllocator.cpp:128-140 | the two halves of a cut share no pixel |
| RectLayout.ApartBothHalves | external/andrewwillmott_rectallocator/RectAllocator.cpp:61-68 | a rectangle apart from both halves of a cut is apart from the whole, which a collapse restores |
| RectLayout.PageRootApart | external/andrewwillmott_rectallocator/RectAllocator.cpp:23-29 | after `Clear` the leaves are apart |
| RectLayout.MarkApart | external/andrewwillmott_rectallocator/RectAllocator.cpp:43 | marking a node used or free keeps the leaves apart |
| RectLayout.DivideApart | external/andrewwillmott_rectallocator/RectAllocator.cpp:120-143 | the split keeps the leaves apart |
| RectLayout.AllocApart | external/andrewwillmott_rectallocator/RectAllocator.cpp:87-147 | `Alloc` keeps the leaves apart |
| RectLayout.DetachApart | external/andrewwillmott_rectallocator/RectAllocator.cpp:61-68 | one collapse keeps the leaves apart |
| RectLayout.CollapseApart | external/andrewwillmott_rectallocator/RectAllocator.cpp:45-69 | the walk of `Free` keeps the leaves apart |
| RectLayout.ReleaseApart | external/andrewwillmott_rectallocator/RectAllocator.cpp:37-70 | `Free` keeps the leaves apart |
| RectLayout.AllocDisjoint | external/andrewwillmott_rectallocator/RectAllocator.h:54 | what `Alloc` returns overlaps no allocation that was live before it |

## Left out

- Memory management is not modelled: `new`/`delete`, `unique_ptr`, the `smol_shelf_t` destructor (src/smol-atlas.cpp:45-59) and `sma_destroy`. Free-span nodes and items are values in sequences, not heap objects.
- Items are compared by value rather than by pointer identity. On a valid shelf live items are pairwise apart and non-empty, so the two identify the same entry (`Shelves.IndexOfLast`).
- The `sma_*` entry points (src/smol-atlas.cpp:263-313) have no members of their own. Each is a one-line forwarder:
  - `sma_create` forwards to `Atlases.Atlas.constructor`, `sma_add` to `Pack`, `sma_remove` to `FreeItem` and `sma_clear` to `Clear`;
  - `sma_get_width`/`sma_get_height` read the `width`/`height` fields of `Atlas`;
  - `sma_item_x/y/width/height` read the fields of `Item`.
- Degenerate requests are preconditions. A width or height ≤ 0, a double free, freeing through the wrong atlas and a stale item after `clear` go unchecked in the source, so `Pack`, `AllocItem` and `FreeItem` require positive sizes and a live item.
- 32-bit overflow is not modelled. `Atlases.Atlas.constructor` requires dimensions within `INT_MAX` and the atlas invariant keeps them there. Sums such as x + width are unbounded integers.
- Resizing, grow-and-retry, shrink-to-fit and pooled item storage are not in src/smol-atlas.cpp and are not modelled.
- The `expected` argument of the `cRectAllocator` constructor only reserves vector capacity, so it has no effect in the model.
- `PageSize()` is declared at external/andrewwillmott_rectallocator/RectAllocator.h:51 but has no definition in the available sources, so it is not part of this model.
- RectAllocators.RectAllocator.Alloc requires the tree to be non-empty. The source would index an empty vector after a constructor given a zero page width.
- RectAllocators.RectAllocator.Alloc requires a request of positive size in both dimensions. The source also terminates on zero or negative sizes, after at most two splits. But those splits make degenerate children: zero-sized ones, or for negative sizes a right child outside its parent. `Tiles` and the layout invariant exclude such children.
- RectAllocators.RectAllocator.Free requires a live used leaf, where the source only asserts that the node is not empty. Freeing a parked slot or an internal node is not modelled.
- RectAllocators.RectAllocator.IsValid follows the source: it accepts any in-range index without children. That includes slots parked on the free stack.
- RectTree.AllocAt states the range of its result, no change on failure, and the outcome at a leaf. What a success returns is stated by `RectTree.AllocSound`, `RectTree.AllocKeepsUse` and `RectTree.AllocAdds`. When a search from an internal node fails is stated for the root by `RectTree.AllocFailsIffFull`.
- Atlases.AtlasFree states only the shelf count and the null case. What a release does to the shelf is stated by `Shelves.ReleaseCells`, `Shelves.ReleaseKeepsInv` and `Atlases.FreeAfterPack`.
- Atlases.ItemsNeverOverlap is proved for items of an atlas satisfying the atlas invariant. `Atlases.PackKeepsInv` and `Atlases.FreeKeepsInv` show that every `pack` and `free_item` keeps that invariant.
