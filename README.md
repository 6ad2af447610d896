# Sorting visualiser: the five in-place sorts

The page draws fifty random bars on a canvas. It then sorts them with the
procedure picked in a selector, redrawing the bars after each step. The steps
are: a pass of bubble sort; an iteration of selection or insertion sort; a
write-back of `merge`; a swap of the quicksort partition. This project models
those five procedures as Dafny methods on an `array<int>` and proves what each
of them does.

The canvas is a `Render.Context` object. It keeps the list of frames drawn on
it. `DrawBars` appends a `Frame(bars, highlight)`: a snapshot of the array and
the index drawn in the highlight colour. The default highlight `-1`
(`NO_HIGHLIGHT`) matches no bar. The 20 ms `sleep` after each frame changes
nothing in the array, so it is not modelled. Each procedure is proved against a
specification in one of three forms:

- Functional definitions of what the code computes. `Insertion.Insert` and
  `Insertion.InsertionSorted` describe the shifting loop. `MergeSpec.MergedBy`
  and `MergeSpec.MergeSortedBy` describe `merge` and the recursion. The split
  point is `floor((start + end) / 2)`, as in the source.
- `Bubble.Bubbled`, the fold of compare-and-swaps of one bubble pass, and
  invariants that the loops preserve: the placed suffix of bubble sort and
  the placed prefix of selection sort. `Session.PlacedSuffixIsFinal` and
  `Session.PlacedPrefixIsFinal` show that placed bars are in their final
  places, the ones of the sorted input.
- The postconditions of Lomuto partition.

Each specification comes with lemmas about it: sorted, a permutation of the
input, stable, unique. The frame log is specified to different depths:

- Bubble, selection and insertion sort, `merge` and `partition` state how
  many frames they draw, what each one highlights and what each one shows.
- `mergeSort` states how many frames it draws, with a bound of
  `n * Depth(n)`, and the range the frames highlight, but not what they show.
- `quickSort` states only the range its frames highlight.

Modules:

- `Order` holds the shared predicates (sorted, sorted between two indices,
  unchanged outside a range) and the swap.
- `Render` holds the frame log.
- `Bubble`, `Selection`, `Insertion`, `MergeSpec` (the functional merge sort),
  `Merging` (`merge` and `mergeSort` on the array) and `Quick` hold the sorts.
- `Session` holds the selector dispatch.

Merge sort is specified over a key function, so that its stability can be
stated: `MergedBy(l, r, key)` takes from the left run on ties (`<=`). On the
array the key is the identity.

A few behaviours of the code are worth spelling out, since the model states
them exactly as the code has them:

- `merge` draws each frame after `k` has been incremented. Each frame
  therefore highlights the position just after the one written. The last write
  of a merge reaching the end of the array highlights index `n`, which matches
  no bar.
- The partition loop highlights the index `j` where the value below the pivot
  was found, not the boundary `i` it moved to. The contract of
  `Quick.Partition` says that the array as it was on entry holds a value below
  the pivot at every highlighted index.
- Bubble and selection sort run `n - 1` outer iterations, and none at all on an
  empty array.
- Every procedure draws one final frame without highlight, except merge sort
  and quicksort.

## Model

| member | source | states |
|---|---|---|
| Order.Passes | main.js:29 | the number of outer iterations of bubble, selection and insertion sort: `n - 1` for a non-empty array (`i < n - 1` from 0 at main.js:29 and 42, `i < n` from 1 at main.js:57), none for an empty one |
| Order.Swap | main.js:32 | the destructuring exchange of two positions (also at main.js:48, 122 and 129): the new array is the old one with the two values traded, and the multiset of values is kept |
| Order.SortedUnique | main.js:139-155 | two sorted sequences with the same multiset of values are equal, so the five procedures leave the same array |
| Render.Context.DrawBars | main.js:13-22 | drawing appends exactly one frame, holding the current bars and the highlight index, and changes nothing else |
| Bubble.CompareSwap | main.js:31-33 | one compare-and-swap leaves the pair at `j`, `j + 1` in order, keeps the multiset of values and touches no other position |
| Bubble.CompareSwapKeeps | main.js:30-34 | a compare-and-swap keeps the inner-pass invariant: the suffix after `last` is untouched, nothing before it exceeds it, and the running element is the largest seen so far |
| Bubble.Bubbled | main.js:30-34 | the array after the compare-and-swaps of positions `j`, `j + 1`, ..., `last` of one pass, one after the other, keeping its length |
| Bubble.BubbledKeeps | main.js:30-34 | the rest of a pass keeps the inner-pass invariant to its end |
| Bubble.BubbledPlaces | main.js:30-34 | a whole pass over `[0, last]` extends the placed suffix to `last`, leaves the bars after `last` as they were and permutes the array |
| Bubble.PassPlaces | main.js:30-34 | at the end of an inner pass the largest of `bars[0..last]` is at `last`, so the placed suffix grows by one position |
| Bubble.Pass | main.js:30-34 | one inner pass turns the array into exactly `Bubbled(old array, 0, last)`, the adjacent compare-and-swaps in order; so it extends the placed suffix to `last` and permutes the array |
| Bubble.BubbleSort | main.js:28-39 | the array ends sorted and a permutation of the input; exactly `n - 1` pass frames are drawn (none when empty), pass `t` highlighting `n - t - 1`, showing a permutation of the input with every bar from there on placed (in its final place, by `Session.PlacedSuffixIsFinal`), then one frame without highlight showing the sorted array; earlier frames are kept |
| Selection.ScanMin | main.js:43-46 | the scan returns the first index of a minimum of `bars[i..]`, and it differs from `i` exactly when some later bar is strictly smaller than `bars[i]`, the only case in which the source swaps |
| Selection.SelectPlaces | main.js:47-49 | exchanging `i` with a minimum of the suffix places position `i` for good: the prefix `0..i` is sorted and no later bar is smaller |
| Selection.PlaceMinimum | main.js:43-49 | one outer iteration returns the first index `min` of a minimum of `bars[i..]`; the array is left exactly as it was when `min == i` and otherwise is the old one with `bars[i]` and `bars[min]` exchanged; so position `i` holds the minimum of what `bars[i..]` held, `bars[0..i-1]` is untouched and the placed prefix grows by position `i` |
| Selection.SelectionSort | main.js:41-54 | the array ends sorted and a permutation of the input; iteration `t` draws a frame highlighting `t` that shows a permutation of the input with positions `0..t` placed (in their final places, by `Session.PlacedPrefixIsFinal`), `n - 1` such frames, then one frame without highlight showing the sorted array |
| Insertion.Insert | main.js:58-64 | inserting a key into a prefix gives a sequence one longer (its meaning is given by the lemmas below) |
| Insertion.InsertionSorted | main.js:57-67 | the array after the outer loop has run over a whole sequence, each element in turn inserted into the prefix before it; of the same length (its meaning is given by the lemmas below) |
| Insertion.InsertPermutes | main.js:58-64 | the shifting loop adds exactly the key to the values of the prefix |
| Insertion.InsertSorted | main.js:58-64 | inserting into a sorted prefix gives a sorted prefix |
| Insertion.InsertionSortedPermutes | main.js:56-69 | the functional insertion sort is a permutation of its input |
| Insertion.InsertionSortedSorted | main.js:56-69 | the functional insertion sort is sorted |
| Insertion.SortedIsInsertionSorted | main.js:56-69 | every sorted permutation of an input equals its insertion sort |
| Insertion.ShiftStep | main.js:60-63 | moving the bar below the hole up one place keeps the shifting loop's state: prefix below the hole intact, what lies above it completes the insertion, later bars untouched |
| Insertion.ShiftDone | main.js:60-64 | when the loop stops, writing the key into the hole yields exactly the insertion of the key into the prefix, followed by the untouched rest |
| Insertion.InsertStep | main.js:57-64 | after iteration `i` the prefix `0..i` is the insertion sort of the input's prefix, is sorted, and bars after `i` are the input's |
| Insertion.InsertKey | main.js:58-64 | the body of iteration `i` turns the array into the insertion of `bars[i]` into `bars[0..i-1]`, followed by the untouched bars after `i` |
| Insertion.InsertionSort | main.js:56-69 | the array ends as the insertion sort of the input, hence sorted and a permutation of it; iteration `i` draws a frame highlighting `i` showing prefix `0..i` sorted (the insertion sort of the input's prefix) and later bars untouched, `n - 1` such frames, then one without highlight |
| MergeSpec.MergedBy | main.js:85-105 | merging two runs yields as many elements as both together |
| MergeSpec.Half | main.js:74 | the left part of a split of a run of at least two holds at least one element and no fewer than the right part |
| MergeSpec.MergeSortedBy | main.js:71-78 | the recursive sort keeps the length of the run |
| MergeSpec.MergeWrites | main.js:71-105 | the number of writes, and so of frames, of the recursive sort of a run of `n`: none for a run of at most one, otherwise those of the two halves plus one per element for the merge. `MergeSpec.MergeWritesBound` bounds it by `n * Depth(n)`, and `Merging.MergeSortWrites` ties it to the frames `mergeSort` draws |
| MergeSpec.Depth | main.js:74-76 | the levels of splitting of a run of `n` before every piece holds one element; `MergeSpec.DepthIsLog` shows it is `log2 n` rounded up |
| MergeSpec.DepthIsLog | main.js:74-76 | the number of levels of splitting of a run of `n` elements is the base-2 logarithm of `n` rounded up: `n <= 2^Depth(n)` and, from two elements on, `2^(Depth(n) - 1) < n` |
| MergeSpec.DepthMono | main.js:74-76 | a longer run is split at least as many times |
| MergeSpec.MergeWritesBound | main.js:71-105 | the recursive sort of `n` elements makes at most `n * Depth(n)` write-backs, so its frames number O(n log n) |
| MergeSpec.MergedPermutes | main.js:85-105 | a merge is a permutation of its two runs together |
| MergeSpec.MergedFrom | main.js:85-105 | every element of a merge comes from one of its runs |
| MergeSpec.ConsSorted | main.js:86-90 | an element no greater than any element of a sorted sequence can go in front of it |
| MergeSpec.MergedSorted | main.js:85-105 | the merge of two sorted runs is sorted |
| MergeSpec.ConsStable | main.js:86-90 | an element that comes before every element of a stably sorted sequence can go in front of it |
| MergeSpec.MergedStable | main.js:86 | taking from the left run on ties keeps equal keys in their original order: merging two stably sorted runs, the left one wholly earlier, gives a stably sorted run |
| MergeSpec.MergeSortPermutes | main.js:71-78 | the recursive sort is a permutation of its input |
| MergeSpec.MergeSortSorted | main.js:71-78 | the recursive sort is sorted by key |
| MergeSpec.MergeSortStable | main.js:71-78 | the recursive sort is stable: elements with equal keys keep their input order |
| MergeSpec.MergedKeys | main.js:85-105 | merging commutes with taking keys |
| MergeSpec.MergeSortKeys | main.js:71-78 | sorting commutes with taking keys, so sorting values tagged with their positions sorts the values themselves |
| MergeSpec.SortedById | main.js:86 | sorted by the identity key is sorted |
| Merging.TakeLeft | main.js:86-87 | writing the left head when it is no greater than the right head continues the merge |
| Merging.TakeRight | main.js:88-89 | writing the right head when it is smaller continues the merge |
| Merging.WrittenDone | main.js:85-105 | once every element is written, the range holds the merge and nothing outside it changed |
| Merging.FramesMergedAppend | main.js:91 | the frame drawn after a write, highlighting the advanced `k`, extends the frames of the merge |
| Merging.LeftStep | main.js:95-98 | writing the next left element keeps the merge loop's state and its frames |
| Merging.RightStep | main.js:101-104 | writing the next right element keeps the merge loop's state and its frames |
| Merging.Put | main.js:87-91 | a write-back stores the value at `k`, changes no other bar, and draws one frame highlighting `k + 1` |
| Merging.PutHead | main.js:85-93 | one iteration of the first loop writes the smaller head (the left one on ties) and advances its index |
| Merging.MergeHeads | main.js:85-93 | the first loop runs until one run is used up, writing the merge in order |
| Merging.CopyLeft | main.js:95-99 | the second loop copies what is left of the left run |
| Merging.CopyRight | main.js:101-105 | the third loop copies what is left of the right run |
| Merging.Merge | main.js:80-106 | the range becomes the merge of its two halves, the left one taken on ties; nothing outside it changes; exactly `end - start + 1` frames are drawn, the `t`-th highlighting `start + t + 1` and showing positions `start..start+t` written |
| Merging.FramesMergedHighlights | main.js:91-103 | the frames of a merge highlight positions in `[start + 1, start + writes]` |
| Merging.MergeSortWrites | main.js:74-77 | the frame count of a sort is the sum for its halves plus one per element |
| Merging.ShortRun | main.js:72 | a run of at most one bar is its own merge sort and draws nothing |
| Merging.HalvesSorted | main.js:75-76 | sorting the left half and then the right half leaves both halves sorted, the frames of both kept in order |
| Merging.HalvesMerged | main.js:74-77 | merging the two sorted halves completes the sort of the range, with the frame count and highlight range of a whole sort |
| Merging.MergeSort | main.js:71-78 | the range becomes the functional merge sort of what it held; nothing outside it changes; one frame per write-back (`MergeWrites`), each highlighting a position in `[start + 1, end + 1]`; a range with `start >= end` is left as it was, with no frame drawn |
| Merging.SortHalves | main.js:75-76 | the two recursive calls leave each half as its merge sort |
| Merging.MergeSortAll | main.js:71-78 | over the whole array the result is the merge sort of the input, hence sorted and a permutation of it; exactly `MergeWrites(n)` frames are drawn, at most `n * Depth(n)` |
| Quick.SwapBelow | main.js:121-125 | swapping a value below the pivot down to the boundary keeps the partition invariant with the boundary one further |
| Quick.FramesPartitionedAppend | main.js:123 | the frame drawn after such a swap extends the partition's frames |
| Quick.SkipAbove | main.js:120-121 | a value not below the pivot is left where it is, and the invariant still holds |
| Quick.PlacePivot | main.js:129 | the final swap puts the pivot at the boundary: everything before it smaller, everything after it not smaller |
| Quick.PartitionHighlights | main.js:123-130 | every frame of a partition highlights a position in `[left, right]` |
| Quick.PartitionLog | main.js:123-130 | the log after a partition holds the earlier frames, then the swap frames, then the frame of the pivot's exchange, all highlighting positions in `[left, right]` |
| Quick.Visit | main.js:120-127 | one iteration of the partition loop keeps its invariant and its frames |
| Quick.Partition | main.js:116-133 | returns `p` in `[left, right]` holding the old `bars[right]`; values in `[left, p)` are smaller, values in `(p, right]` are not smaller; nothing outside the range changes; the array is permuted; `p - left` swap frames, the `t`-th highlighting the increasing found index in `[left + t, right)`, where the array on entry holds a value below the pivot, and showing `[left, left + t]` below the pivot, then one frame highlighting `p` |
| Quick.JoinSorted | main.js:110-112 | a sorted part below the pivot and a sorted part above it, split at the pivot, form a sorted range |
| Quick.SidesSorted | main.js:110-112 | sorting both sides of a partition in place sorts the whole range |
| Quick.QuickSort | main.js:108-114 | the range ends sorted and a permutation of what it held; nothing outside it changes; every frame highlights a position in `[left, right]`; with `left >= right` nothing changes and nothing is drawn |
| Quick.QuickSortAll | main.js:108-114 | over the whole array the result is sorted and a permutation of the input |
| Session.PlacedSuffixIsFinal | main.js:29-36 | a permutation of the input whose suffix from `b` is placed in the sense of bubble sort holds there exactly what the sorted input holds |
| Session.PlacedPrefixIsFinal | main.js:42-51 | a permutation of the input whose prefix before `b` is placed in the sense of selection sort holds there exactly what the sorted input holds |
| Session.SortedBelowSuffix | main.js:29-36 | sorting the part before a bubble-placed suffix sorts the whole sequence and keeps its values |
| Session.SortedAbovePrefix | main.js:42-51 | sorting the part after a selection-placed prefix sorts the whole sequence and keeps its values |
| Session.Known | main.js:145-155 | the five selector values the dispatch recognises |
| Session.Run | main.js:141-155 | one frame of the bars as generated, without highlight, comes first; a known selector value leaves the array sorted, a permutation of the input and the same whichever procedure ran; any other value leaves the array as drawn, with no further frame |

## Left out

- The page's DOM wiring: the event listeners, the `descriptions` table, the selector element, the elapsed-time text and the light/dark toggle (main.js:5-11, 135-189). `Session.Run` takes the selector value as a parameter.
- Painting pixels on the canvas: bar widths by floating-point division and the fill colours (main.js:14-21). A frame records only what is drawn, not how.
- `sleep` and the `async`/`await` sequencing (main.js:1-3, 36, 51, 66, 92, 98, 104, 124, 131). Each handler creates its own array (main.js:140 and 163), but all of them draw on the one canvas context (main.js:136). A session started by a `change` event while an earlier one is still running therefore interleaves its frames with the earlier one's. That concurrency is not modelled: each run is sequential, and every frame-log contract assumes that nothing else appends to `ctx.frames` during the call.
- `createBars` (main.js:24-26): it draws values from `Math.random`. `Session.Run` sorts whatever array it is given.
- `performance.now()` timing and its formatting (main.js:143, 157-158).
- Range procedures take a range with `0 <= start <= end + 1 <= n`, which every call in the source satisfies. A call with a range partly outside the array is not modelled.
- Quick.QuickSort: does not state the number of frames drawn. That count depends on the pivot positions; the contract states only that frames are appended and where they highlight.
- Quick.QuickSortAll: states the frame log only as growing with earlier frames kept. The highlights are in the contract of `Quick.QuickSort`, and the count is not stated (see above).
