# ImageStack filters, modelled in Dafny

This project models the image type of ImageStack (`Image.h`, the "newimage"
branch) and the local filters of `Filter.cpp` that work on it:

- the min and max filters, which run a sliding extremum along rows and then columns;
- the percentile and median filters, built on the `SlidingNewImage` window;
- the box blur `RectFilter`;
- the circular (disc) filter;
- hot pixel suppression.

It proves properties of each model.

An `Image` is a strided view on a shared store of `float` samples. Here the
samples are `real`, the store is an `array<real>`, and the base pointer is
the array together with an offset into it. Each filter is written as the
loops the C++ writes: per channel, per frame, per scanline and per sample.
The loops work in place on the store, carry invariants and are proved
against a specification function of the input image:

- a running extremum over a window of `2r+1` samples;
- the mean of the in-image samples of a window;
- the rank `n - desired` order statistic of the in-image samples under a disc;
- the sum of the samples under a disc;
- a clamp of each sample to its four neighbours' range.

Modules, one per file:

| module | file | models |
|---|---|---|
| `Images` | images.dfy | `Image`: layout, accessors, regions, `==`, `=`, `set`, `copy`, allocation |
| `Lines` | lines.dfy | one scanline of a filter pass as a sequence, and writing it back |
| `Tree` | tree.dfy | the implicit binary tree (heap layout) shared by the sliding structures |
| `Extremum` | extremum.dfy | the tournament heap behind the min and max filters |
| `MinMax` | minmax.dfy | `MinFilter::apply`, `MaxFilter::apply` |
| `Window` | window.dfy | `PercentileFilter`'s `SlidingNewImage` |
| `Percentile` | percentile.dfy | `PercentileFilter::apply`, `MedianFilter::apply` |
| `Box` | box.dfy | the one-line box blur of `RectFilter::blurX` |
| `Rect` | rect.dfy | `RectFilter::blurX`, `blurXCompletely` |
| `Vertical` | vertical.dfy | `RectFilter::blurY` (the transposed strips) |
| `RectFilter` | rectfilter.dfy | `RectFilter::apply` |
| `Disc` | disc.dfy | the disc profile (`sqrtf` edge table) of the circular and percentile filters |
| `Circular` | circular.dfy | `CircularFilter::apply` |
| `HotPixel` | hotpixel.dfy | `HotPixelSuppression::apply` |

## The code as written

The model follows the C++ as written in these places:

- `MinFilter` and `MaxFilter` write the window's extremum to `x - radius`
  only when `x - radius > 0`, so sample 0 of every scanline and column
  keeps its value. The model keeps that (`MinMax.Filtered`).
- One might expect radius 0 to leave the image unchanged; in the code, the
  do-while walk at radius 0 steps `p` below zero (`size_t`
  wrap-around). `Extremum.RadiusZeroWalkLeavesHeap` exhibits this, and
  both filters require a radius of at least 1.
- `blurX` fills its buffer with r + 1 zeros and samples 1 .. r. Sample 0
  of a line therefore never enters a window (`Box.BoxPassIgnoresFirst`),
  and on lines of at least 2r + 2 samples the divisor is the number of
  samples 1 .. n - 1 the window covers. On shorter lines the divisor runs
  short (see Findings).
- `rebalance` keeps `clamp(int(total * (1 - p)), 0, total - 1)` values in
  the min-tree, which is the high partition. The conversion truncates
  rather than rounds. `pivot()` is then the value of rank
  `total - desired` (`Percentile.PivotIsPercentile`).

## Model

Source cells are paths from the repository root, with line ranges.

| member | source | states |
|---|---|---|
| Images.InStorage | branches/newimage/src/Image.h:49-59 | for a valid image, `base + x + y·ystride + t·tstride + c·cstride` of every in-bounds sample lies inside the store |
| Images.Put | branches/newimage/src/Image.h:49-59 | writing `im(x, y, t, c) = v` changes exactly the one cell at the sample's offset and nothing else in the store |
| Images.Scanline | branches/newimage/src/Image.h:528-530 | element x of `scanline(y, t, c)` is the cell of sample (x, y, t, c) |
| Images.Default | branches/newimage/src/Image.h:30-33 | the default image is valid, not `defined()`, and has all four extents zero |
| Images.ComputeBase | branches/newimage/src/Image.h:561-565 | from a float-aligned byte address, `compute_base` stops at the first 32-byte boundary, at most 7 floats on |
| Images.DenseLast | branches/newimage/src/Image.h:35-39 | under dense strides, the last sample of a w·h·f·c image sits at offset w·h·f·c − 1 above the base |
| Images.Create | branches/newimage/src/Image.h:35-39 | `Image(w, h, f, c)` allocates a fresh zero-filled store of w·h·f·c + 7 samples, gives dense strides, is valid and defined, and has a 32-byte aligned base at most 7 floats in |
| Images.DenseOffset | branches/newimage/src/Image.h:92-95 | a dense image's offset is the mixed-radix numeral x + w·(y + h·(t + f·c)) above the base |
| Images.DenseRange | branches/newimage/src/Image.h:92-95 | the dense offsets of in-bounds samples lie in [base, base + w·h·f·c) |
| Images.DenseInjective | branches/newimage/src/Image.h:92-95 | distinct in-bounds samples of a dense image have distinct offsets |
| Images.DenseCovers | branches/newimage/src/Image.h:92-95 | every k in [0, w·h·f·c) is the offset, above the base, of some in-bounds sample, so dense offsets hit exactly that range |
| Images.Region | branches/newimage/src/Image.h:71-74 | `region(x, y, t, c, xs, ys, ts, cs)` shares the parent's store and strides, has the requested extents, and its sample (x', y', t', c') is the parent's (x + x', y + y', t + t', c + c') |
| Images.RegionValid | branches/newimage/src/Image.h:567-573 | a region inside its parent is valid, its in-bounds samples are in-bounds samples of the parent, and it inherits injectivity |
| Images.Column | branches/newimage/src/Image.h:76-78 | `column(x)` is one sample wide, shares the store, and its sample (0, y, t, c) is the parent's (x, y, t, c) |
| Images.Row | branches/newimage/src/Image.h:80-82 | `row(y)` is one sample high, and its sample (x, 0, t, c) is the parent's (x, y, t, c) |
| Images.Frame | branches/newimage/src/Image.h:84-86 | `frame(t)` is one frame deep, and its sample (x, y, 0, c) is the parent's (x, y, t, c) |
| Images.Channel | branches/newimage/src/Image.h:88-90 | `channel(c)` is one channel deep, and its sample (x, y, t, 0) is the parent's (x, y, t, c) |
| Images.EqualAliases | branches/newimage/src/Image.h:101-110 | images that are `==` are aliases: each in-bounds sample of one is the same cell of the same store in the other (sample values are never compared) |
| Images.Assign | branches/newimage/src/Image.h:545-556 | after `operator=`, the target is `==` to `other`, shares its store and addresses every sample at the same cell, with no sample copied |
| Images.AsSource | branches/newimage/src/Image.h:505-511 | an image read as a function-like source is bounded, has the image's four extents, and yields the image's samples |
| Images.RowPositionIsCell | branches/newimage/src/Image.h:528-530 | every position of a scanline's `width` cells belongs to some in-bounds sample |
| Images.RowPositionIsRow | branches/newimage/src/Image.h:528-530 | in an injective image, the only samples whose cells fall in the scanline of (y, t, c) are on that row |
| Images.RowWrite | branches/newimage/src/Image.h:495-500 | rewriting one scanline changes no cell outside the image's cells, and in an injective image no sample of another row |
| Images.RowsAdvance | branches/newimage/src/Image.h:490-501 | after one more row of `set`, every row written so far holds the source's samples |
| Images.SetRow | branches/newimage/src/Image.h:498-500 | the innermost loop of `set` stores `src[x]` at each of the `width` cells of the scanline and changes nothing else |
| Images.Set | branches/newimage/src/Image.h:431-443 | `set(func)` succeeds exactly when a bounded source matches all four extents, or an unbounded source meets a `defined()` image; on failure nothing is written; on success every in-bounds sample of an injective target equals the source's; no cell outside the target's cells is written (lines 489-503 hold the scalar loops) |
| Images.Copy | branches/newimage/src/Image.h:65-69 | `copy()` is a fresh, dense, valid image with the same extents and the same samples, and it is not `==` to the original |
| Images.WriteThroughRegion | branches/newimage/src/Image.h:567-573 | a write through a region view at (x, y, t, c) is seen in the parent at (x0 + x, y0 + y, t0 + t, c0 + c) |
| Images.WriteAfterCopy | branches/newimage/src/Image.h:65-69 | after `copy()`, a write to the original is not seen in the copy, which keeps every sample the original had before the write |
| Lines.LineOf | branches/newimage/src/Image.h:49-59 | the n samples of a strided line, read from a snapshot of the store: sample k is the cell at start + k·stride |
| Lines.PutLine | branches/newimage/src/Image.h:49-59 | writing position k of a line gives that cell the new value; every other position of the line, and everything off it, keeps its value |
| Lines.Line | branches/newimage/src/Image.h:49-59 | the line along x, y or t through a sample has the image's extent along that axis, and its element at a sample's coordinate is that sample's cell |
| Lines.LineInStorage | branches/newimage/src/Image.h:49-59 | every line through an in-bounds sample of a valid image lies inside the store, and in an injective image its stride is positive when it has more than one sample |
| Lines.LineUpdate | branches/newimage/src/Image.h:49-59 | rewriting only the cells of one line of an injective image changes only that line's samples and no cell outside the image |
| Lines.LinePass | branches/newimage/src/Image.h:49-59 | a filter pass that replaces one line's contents by l' leaves the image holding l' on that line and the old samples elsewhere |
| Lines.CellUpdate | branches/newimage/src/Image.h:49-59 | writing one sample of an injective image changes that sample only |
| Lines.AgreesGet | branches/newimage/src/Image.h:49-59 | a store that agrees with a specification is what `im(x, y, t, c)` reads |
| Tree.UnderRoot | branches/newimage/src/Filter.cpp:1025-1030 | the walk `p = (p-1)/2` from any node reaches the root, so every node is below node 0 |
| Tree.UnderSiblings | branches/newimage/src/Filter.cpp:1033-1034 | no node lies below both children of a node, so the two children of a node count disjoint sets of leaves |
| Tree.Combine | branches/newimage/src/Filter.cpp:1033-1043 | the parent that `updateFrom` computes counts the live leaves of both children and points at one of the two children's slots |
| Tree.LiveSplit | branches/newimage/src/Filter.cpp:1036 | the live slots below a node are the disjoint union of those below its two children |
| Tree.LeafSummary | branches/newimage/src/Filter.cpp:979-981 | below a leaf lies only its own slot, and only while its count is 1; below a padding node lies nothing |
| Tree.Summary | branches/newimage/src/Filter.cpp:979-981 | in a sound tree, every node's `.second` is the number of live leaves below it, and a node with any live leaf points at the best of them (the smallest in the min tree, the largest in the max tree) |
| Tree.RootSummary | branches/newimage/src/Filter.cpp:1098-1104 | the root's count is the number of live slots, and while it is nonzero the root points at a live slot whose value is the minimum (min tree) or maximum (max tree) of all live values |
| Tree.BufferChange | branches/newimage/src/Filter.cpp:1010 | rewriting the buffer at slots that are dead in a tree keeps the tree sound |
| Tree.ClimbStops | branches/newimage/src/Filter.cpp:1044 | when the walk stops early because the parent already holds what its children give, the whole tree is sound |
| Tree.WalkUp | branches/newimage/src/Filter.cpp:1028-1045 | one step of the walk: every node that is not above the new position is good, and the step keeps the walk's invariant |
| Tree.WalkRoot | branches/newimage/src/Filter.cpp:1028-1046 | when the walk reaches the root the tree is sound and the leaves are as they were |
| Tree.Climb | branches/newimage/src/Filter.cpp:1027-1046 | `updateFrom` on one tree, after one leaf's count changed, leaves the tree sound, with its size and its leaves unchanged |
| Tree.SetLeaf | branches/newimage/src/Filter.cpp:1014-1019 | setting a leaf's count to 1 makes its slot live, and setting it to 0 makes it dead, with no other slot changed |
| Tree.SameLeaves | branches/newimage/src/Filter.cpp:1027-1064 | trees with the same leaves have the same live slots, so the walk changes no slot's liveness |
| Tree.DeadTree | branches/newimage/src/Filter.cpp:994-1005 | a tree whose counts are all zero and whose leaves point at their own slots is sound and has nothing live |
| Tree.PairBufferChange | branches/newimage/src/Filter.cpp:1010 | storing a value at a slot that is dead in both trees keeps the pair sound and disjoint |
| Extremum.Pick | branches/newimage/src/Filter.cpp:800 | `min(a, b)` (or `max`) is one of its arguments and at least as extreme as both |
| Extremum.Pad | branches/newimage/src/Filter.cpp:787-793 | the padding (INF for the min filter, -INF for the max filter) is never more extreme than any entry |
| Extremum.BestIsExtremum | branches/newimage/src/Filter.cpp:781-808 | the reference extremum of s[lo..hi] is one of those samples and at least as extreme as each of them |
| Extremum.RunningIsWindowExtremum | branches/newimage/src/Filter.cpp:803-805 | one pass leaves sample 0 as it was, because the write is guarded by `x-radius > 0`; every other sample i becomes one of the samples in [i−r, i+r] ∩ [0, n) and at least as extreme as all of them |
| Extremum.RootBetter | branches/newimage/src/Filter.cpp:775-780 | in a tree where each internal node holds the pick of its children, the root is at least as extreme as every node |
| Extremum.FromLeaf | branches/newimage/src/Filter.cpp:775-780 | every node of such a tree, the root included, holds the value of some leaf |
| Extremum.WindowLeaf | branches/newimage/src/Filter.cpp:806-808 | read from the oldest slot on, the circular buffer of leaves 2r..4r holds the last 2r + 1 inputs in order |
| Extremum.LeafInput | branches/newimage/src/Filter.cpp:806-808 | every leaf holds one of the last 2r + 1 inputs, or the padding |
| Extremum.BestBeatsInputs | branches/newimage/src/Filter.cpp:789-793 | the clipped window's extremum is at least as extreme as every padded input within r of the centre |
| Extremum.RootIsBest | branches/newimage/src/Filter.cpp:795-805 | with a consistent tree over the window centred on i, the root is exactly the extremum of the in-line samples within r of i |
| Extremum.WindowAdvance | branches/newimage/src/Filter.cpp:795-808 | storing the next input in the oldest leaf and advancing `pos` (wrapping to 2r) moves the window on by one |
| Extremum.SizeParent | branches/newimage/src/Filter.cpp:797-799 | `p--; p >>= 1` on a 64-bit `size_t` stays below 2^64 and is the parent (p − 1)/2 for p ≥ 1 |
| Extremum.RadiusZeroWalkLeavesHeap | branches/newimage/src/Filter.cpp:788-800 | with radius 0 the first step of the do-while from `pos = 0` wraps to 2^63 − 1, far outside the one-entry heap: why the model requires r ≥ 1 |
| Extremum.FillHeap | branches/newimage/src/Filter.cpp:787 | `std::fill` sets every heap entry to the padding |
| Extremum.StoreLeaf | branches/newimage/src/Filter.cpp:795 | storing a leaf upsets only the nodes above it |
| Extremum.Sift | branches/newimage/src/Filter.cpp:797-801 | the walk from the stored leaf to the root, recomputing each node from its children, makes every internal node the pick of its children and leaves the leaves as they were |
| Extremum.RunningAt | branches/newimage/src/Filter.cpp:803-805 | away from sample 0, the reference pass is the extremum of the clipped window |
| Extremum.Emit | branches/newimage/src/Filter.cpp:804-805 | writing output i of the pass extends the written prefix by one and changes nothing off the line |
| Extremum.Insert | branches/newimage/src/Filter.cpp:791-801 | storing input x in the oldest leaf and walking to the root keeps the tree consistent and moves the window on by one slot |
| Extremum.Push | branches/newimage/src/Filter.cpp:790-808 | one step x of the loop: after it, the line holds the filtered samples 1 .. x − r and the original samples elsewhere |
| Extremum.Output | branches/newimage/src/Filter.cpp:804-805 | the root written at x − r is the window extremum there |
| Extremum.RunningExtremum | branches/newimage/src/Filter.cpp:786-809 | one pass over a strided line of n samples leaves that line equal to the reference pass `Running` of its old contents and changes nothing off the line |
| MinMax.ColumnAfterRows | branches/newimage/src/Filter.cpp:813-838 | the column the column pass sees has the image's height: the column of the row-filtered image |
| MinMax.RowWindow | branches/newimage/src/Filter.cpp:784-810 | away from x = 0, the row pass leaves the extremum of the row's samples within r of x: one of them, and at least as extreme as each |
| MinMax.SquareExtremum | branches/newimage/src/Filter.cpp:783-839 | away from the first row and column, the filtered sample is one of the original samples of its clipped (2r+1)×(2r+1) square, and at least as extreme as all of them |
| MinMax.EdgeRow | branches/newimage/src/Filter.cpp:831-832 | row 0 is never written by the column pass, so it holds the row pass's output |
| MinMax.EdgeColumn | branches/newimage/src/Filter.cpp:804-805 | column 0 is never written by the row pass, so it holds the column pass over the original column |
| MinMax.FilteredBeatsSample | branches/newimage/src/Filter.cpp:783-839 | every filtered sample is at least as extreme as the original sample at the same place |
| MinMax.Bracket | branches/newimage/src/Filter.cpp:774-925 | the min filter never raises a sample and the max filter never lowers one |
| MinMax.RowStage | branches/newimage/src/Filter.cpp:784-810 | the pass over row (y, t, c) changes only that row, from its original samples to the row pass |
| MinMax.ColumnStage | branches/newimage/src/Filter.cpp:813-838 | the pass over column (x, t, c) changes only that column, from the row-filtered column to the column pass |
| MinMax.FilterRow | branches/newimage/src/Filter.cpp:786-809 | the loop body for one row and channel moves the image from one stage to the next, and writes nothing outside the image's cells |
| MinMax.FilterColumn | branches/newimage/src/Filter.cpp:815-836 | the loop body for one column and channel, likewise |
| MinMax.NextRow | branches/newimage/src/Filter.cpp:784-785 | the stage after every channel of row y is the stage before row y + 1 |
| MinMax.RowsDone | branches/newimage/src/Filter.cpp:811-813 | after the last row, the stage is the start of the column passes |
| MinMax.NextColumn | branches/newimage/src/Filter.cpp:813-814 | the stage after every channel of column x is the stage before column x + 1 |
| MinMax.ColumnsDone | branches/newimage/src/Filter.cpp:838-839 | after the last column, frame t is finished and frame t + 1 is next |
| MinMax.FilterRowChannels | branches/newimage/src/Filter.cpp:785-810 | `for c` over row y: every channel of the row is row-filtered |
| MinMax.FilterRows | branches/newimage/src/Filter.cpp:784-811 | `for y, for c`: every row of frame t is row-filtered |
| MinMax.FilterColumnChannels | branches/newimage/src/Filter.cpp:814-837 | `for c` over column x: every channel of the column is column-filtered |
| MinMax.FilterColumns | branches/newimage/src/Filter.cpp:813-838 | `for x, for c`: every column of frame t is column-filtered |
| MinMax.FilterFrame | branches/newimage/src/Filter.cpp:783-839 | frame t: its row passes, then its column passes |
| MinMax.Finished | branches/newimage/src/Filter.cpp:783-840 | when every frame is done, every sample reads as filtered |
| MinMax.Apply | branches/newimage/src/Filter.cpp:774-841 | in place, every in-bounds sample becomes the column pass over the row pass of the original frame, and nothing outside the image's cells changes |
| MinMax.MinFilter | branches/newimage/src/Filter.cpp:774-841 | `MinFilter::apply`: the min-kind filter in place, with the same two guarantees |
| MinMax.MaxFilter | branches/newimage/src/Filter.cpp:858-925 | `MaxFilter::apply`: the max-kind filter in place, with the same two guarantees |
| Window.Trunc | branches/newimage/src/Filter.cpp:1077 | `int(x)` truncates toward zero: for x ≥ 0 it is the floor, for x < 0 the ceiling |
| Window.ShareProduct | branches/newimage/src/Filter.cpp:1077 | the share `total * (1 - percentile)` built up by repeated addition equals the product |
| Window.Desired | branches/newimage/src/Filter.cpp:1075-1077 | `desiredMinHeapSize` is `clamp(int(total·(1 − p)), 0, total − 1)`, so for a nonempty window it lies in [0, total − 1] |
| Window.MedianSplit | branches/newimage/src/Filter.cpp:944-946 | at percentile 0.5 the low partition keeps (total + 1)/2 of the values: the lower half, rounded up |
| Window.Place | branches/newimage/src/Filter.cpp:1012 | `insert` as written puts the value low exactly when the window is empty or the value is below the pivot |
| Window.InsertOrdered | branches/newimage/src/Filter.cpp:1008-1022 | that placement keeps the partitions ordered when the window is empty or the pivot is the largest low value |
| Window.PlaceChecked | branches/newimage/src/Filter.cpp:1012 | the corrected placement: as written while the low partition is nonempty; otherwise low exactly when the high partition is empty or the value is below its smallest value |
| Window.CheckedOrdered | branches/newimage/src/Filter.cpp:1008-1022 | the corrected placement keeps the partitions ordered in every state |
| Window.StalePivot | branches/newimage/src/Filter.cpp:1008-1022 | the as-written placement breaks the order: an empty low partition, a stale pivot 0.0 and high values -5.0, -5.0 send -1.0 low, and percentile 0 then reports -1.0 as the minimum |
| Window.MoveDownOrdered | branches/newimage/src/Filter.cpp:1080-1086 | moving the smallest high value into the low partition keeps the order |
| Window.MoveUpOrdered | branches/newimage/src/Filter.cpp:1089-1095 | moving the largest low value into the high partition keeps the order |
| Window.MoveKeepsLive | branches/newimage/src/Filter.cpp:1082-1094 | moving one slot across keeps the union of the partitions |
| Window.PivotRank | branches/newimage/src/Filter.cpp:1102-1104 | with ordered partitions, the pivot (the largest low value) has fewer than \|low\| live values below it and at least \|low\| at or below it: it is the \|low\|-th smallest live value |
| Window.SlidingNewImage.constructor | branches/newimage/src/Filter.cpp:984-1006 | `maxKey` zeroed slots; both trees are complete, have at least 2·maxKey − 1 nodes (doubling only while below that), are sound and have nothing live |
| Window.SlidingNewImage.IsEmpty | branches/newimage/src/Filter.cpp:1098-1100 | `isEmpty()` holds exactly when no slot is live in either tree |
| Window.SlidingNewImage.Pivot | branches/newimage/src/Filter.cpp:1102-1104 | `pivot()` reads the slot the max-tree's root points at, which is the largest low value whenever the low partition is nonempty |
| Window.SlidingNewImage.UpdateFrom | branches/newimage/src/Filter.cpp:1025-1065 | after one leaf changed, the two walks leave both trees sound and each tree's live slots those its leaves say, with the buffer unchanged |
| Window.SlidingNewImage.SetSlot | branches/newimage/src/Filter.cpp:1014-1022 | the leaf stores plus `updateFrom` make the slot live in the tree chosen, dead in the other, and change no other slot |
| Window.SlidingNewImage.Insert | branches/newimage/src/Filter.cpp:1008-1023 | `insert` as written: stores the value and makes the slot live low or high as `Place` says, comparing with the (possibly stale) root value |
| Window.SlidingNewImage.Ends | branches/newimage/src/Filter.cpp:1102-1104 | the two roots' values and emptiness: the largest low value and the smallest high value when those partitions are nonempty |
| Window.SlidingNewImage.InsertChecked | branches/newimage/src/Filter.cpp:1008-1023 | `insert` with the corrected placement: the slot joins the live set, and ordered partitions stay ordered |
| Window.SlidingNewImage.Remove | branches/newimage/src/Filter.cpp:1067-1072 | `remove` makes the slot dead in both trees, takes it out of the live set, and keeps ordered partitions ordered |
| Window.SlidingNewImage.MoveDown | branches/newimage/src/Filter.cpp:1080-1086 | one step of the first loop moves the smallest high value to the low partition: the high count drops by one, the low count rises by one, the live set and the order are kept |
| Window.SlidingNewImage.MoveUp | branches/newimage/src/Filter.cpp:1089-1095 | one step of the second loop moves the largest low value to the high partition, symmetrically |
| Window.SlidingNewImage.ShrinkHigh | branches/newimage/src/Filter.cpp:1079-1086 | the first loop ends with min(old size, desired) values high, keeping the live set and the order |
| Window.SlidingNewImage.GrowHigh | branches/newimage/src/Filter.cpp:1088-1095 | the second loop ends with max(old size, desired) values high, keeping the live set and the order |
| Window.SlidingNewImage.Rebalance | branches/newimage/src/Filter.cpp:1074-1096 | `rebalance(p)` keeps the live slots, ends with exactly `Desired(total, p)` values high, and keeps ordered partitions ordered |
| Percentile.LeaveCovers | branches/newimage/src/Filter.cpp:1177-1180 | removing the leaving column of disc row k uncovers exactly that one position |
| Percentile.NoLeave | branches/newimage/src/Filter.cpp:1178 | a leaving column left of the image was never covered, so skipping it changes nothing |
| Percentile.EnterCovers | branches/newimage/src/Filter.cpp:1182-1186 | adding the entering column of disc row k, inside the image, covers exactly one more position and finishes that row's move |
| Percentile.NoEnter | branches/newimage/src/Filter.cpp:1183 | an entering column right of the image is never covered |
| Percentile.BelowShift | branches/newimage/src/Filter.cpp:1174 | the `break` below the image skips only disc rows that cover nothing |
| Percentile.AboveShift | branches/newimage/src/Filter.cpp:1175 | the `continue` above the image skips a disc row that covers nothing |
| Percentile.ShiftDone | branches/newimage/src/Filter.cpp:1169-1187 | once every disc row has moved, the window covers the disc around x + 1 |
| Percentile.FillCovers | branches/newimage/src/Filter.cpp:1156-1160 | inserting column j of disc row k in the first fill covers exactly one more position |
| Percentile.FillRowDone | branches/newimage/src/Filter.cpp:1156-1157 | disc row k of the first fill is complete at its edge or at the image's right edge |
| Percentile.BelowFill | branches/newimage/src/Filter.cpp:1153 | the fill's `break` below the image skips only rows that cover nothing |
| Percentile.AboveFill | branches/newimage/src/Filter.cpp:1154 | the fill's `continue` above the image skips a row that covers nothing |
| Percentile.FillDone | branches/newimage/src/Filter.cpp:1147-1161 | the complete first fill covers the disc around column 0 |
| Percentile.SlotRange | branches/newimage/src/Filter.cpp:1148-1159 | every slot `i·d + X%d` of a disc row lies inside the d·d buffer |
| Percentile.SlotRow | branches/newimage/src/Filter.cpp:1179-1185 | equal slots mean the same disc row and the same column residue |
| Percentile.ColumnsDiffer | branches/newimage/src/Filter.cpp:1179-1185 | columns less than d apart have different residues, so the live columns of one disc row, at most 2·edge + 1 ≤ d of them, never share a slot |
| Percentile.FillSlot | branches/newimage/src/Filter.cpp:1159 | the fill's slot `i·d + j` is the slot `i·d + j%d` that the shift later removes |
| Percentile.TracksSame | branches/newimage/src/Filter.cpp:1147-1187 | whether the window holds the covered samples depends only on which positions are covered |
| Percentile.TrackAdd | branches/newimage/src/Filter.cpp:1158-1159 | inserting the sample of a newly covered position into its dead slot keeps the window holding exactly the covered samples |
| Percentile.TrackDrop | branches/newimage/src/Filter.cpp:1179 | removing the slot of a covered position uncovers that position, and that slot was live |
| Percentile.LiveSlot | branches/newimage/src/Filter.cpp:1179-1185 | a live slot of disc row k holds a covered position on that row with the slot's residue |
| Percentile.FillFree | branches/newimage/src/Filter.cpp:1159 | the fill's next slot is dead when it is inserted |
| Percentile.EnterFree | branches/newimage/src/Filter.cpp:1185 | the entering column's slot is dead when it is inserted, because the column that shared it has just left |
| Percentile.RankedUnique | branches/newimage/src/Filter.cpp:1163-1167 | the value of a given rank among the samples under the disc is unique |
| Percentile.ImageSize | branches/newimage/src/Filter.cpp:1179-1185 | the ghost map from live slots to positions is injective, so a set of live slots and their positions have the same size |
| Percentile.CountVia | branches/newimage/src/Filter.cpp:1163-1167 | a set of live slots and the covered positions they hold have equal sizes |
| Percentile.CountsAgree | branches/newimage/src/Filter.cpp:1163-1167 | the live count equals the number of covered positions, and the live slots below (or at most) v number the same as the covered samples below (or at most) v |
| Percentile.SupportIsCover | branches/newimage/src/Filter.cpp:1163 | between two shifts the window covers exactly the in-image samples under the disc around (x, y) |
| Percentile.PivotIsPercentile | branches/newimage/src/Filter.cpp:1164-1167 | after `rebalance`, with ordered partitions, `pivot()` is the value of rank n − Desired(n, p) among the n samples under the disc |
| Percentile.CentreCovered | branches/newimage/src/Filter.cpp:1163-1164 | the window around (x, y) always holds (x, y) itself, so `rebalance` never sees an empty window |
| Percentile.DoneStep | branches/newimage/src/Filter.cpp:1167 | writing the percentile at (x, y, t, c) extends the finished part of the output by one sample |
| Percentile.DoneSame | branches/newimage/src/Filter.cpp:1144-1146 | the ends of the x, y, t and c loops are the starts of the next iteration of the enclosing loop |
| Percentile.Retrack | branches/newimage/src/Filter.cpp:1147-1187 | the window tracks the image at any phase that covers the same positions |
| Percentile.SkipLeave | branches/newimage/src/Filter.cpp:1178 | no `remove` is needed when the leaving column is left of the image |
| Percentile.SkipEnter | branches/newimage/src/Filter.cpp:1183 | no `insert` is needed when the entering column is right of the image |
| Percentile.ShiftAbove | branches/newimage/src/Filter.cpp:1175 | the shift's `continue` keeps the window tracking |
| Percentile.ShiftBelow | branches/newimage/src/Filter.cpp:1174 | the shift's `break` leaves the window tracking the disc around x + 1 |
| Percentile.ShiftEnd | branches/newimage/src/Filter.cpp:1170 | the shift's last row leaves the window tracking the disc around x + 1 |
| Percentile.FillAbove | branches/newimage/src/Filter.cpp:1154 | the fill's `continue` keeps the window tracking |
| Percentile.FillBelow | branches/newimage/src/Filter.cpp:1153 | the fill's `break` leaves the window tracking the disc around column 0 |
| Percentile.FillEnd | branches/newimage/src/Filter.cpp:1149 | the fill's last row leaves the window tracking the disc around column 0 |
| Percentile.FillRowEnd | branches/newimage/src/Filter.cpp:1156-1157 | the end of a fill row moves the tracking on to the next disc row |
| Percentile.Enter | branches/newimage/src/Filter.cpp:1158-1159 | `window.insert(key, im(X, Y, t, c))` for a newly covered position keeps the window tracking the next phase |
| Percentile.Leave | branches/newimage/src/Filter.cpp:1178-1180 | `window.remove(i·d + (x − xoff)%d)` of the leaving column keeps the window tracking the next phase |
| Percentile.LeftCovered | branches/newimage/src/Filter.cpp:1178 | the leaving column of disc row k, when in the image, is covered before it leaves |
| Percentile.RowSlot | branches/newimage/src/Filter.cpp:1179-1185 | `i·d + X%d` is the slot of column X of disc row i |
| Percentile.FillRow | branches/newimage/src/Filter.cpp:1156-1160 | `for j ≤ xoff`, breaking at the right edge, inserts disc row k of the first window |
| Percentile.Fill | branches/newimage/src/Filter.cpp:1147-1161 | the fill loops of a fresh window leave it holding exactly the in-image samples under the disc around (0, y) |
| Percentile.LeaveLeft | branches/newimage/src/Filter.cpp:1177-1180 | the remove half of one disc row's move |
| Percentile.EnterRight | branches/newimage/src/Filter.cpp:1182-1186 | the insert half of one disc row's move |
| Percentile.Shift | branches/newimage/src/Filter.cpp:1169-1187 | "move the support one to the right": the window goes from the disc around x to the disc around x + 1 |
| Percentile.Emit | branches/newimage/src/Filter.cpp:1164-1167 | `rebalance` then `out(x, y, t, c) = pivot()` writes the percentile at (x, y), and the window keeps tracking |
| Percentile.FilterRow | branches/newimage/src/Filter.cpp:1146-1189 | one scanline: a fresh window of d·d slots, the fill and the sweep finish row y of the output |
| Percentile.Scan | branches/newimage/src/Filter.cpp:1163-1188 | `for x`: emit and shift across the whole scanline |
| Percentile.FilterRows | branches/newimage/src/Filter.cpp:1146-1189 | `for y`: every scanline of frame t, channel c |
| Percentile.FilterFrames | branches/newimage/src/Filter.cpp:1145-1190 | `for t`: every frame of channel c |
| Percentile.FilterChannels | branches/newimage/src/Filter.cpp:1144-1191 | `for c`: every channel, starting from the zero-filled output |
| Percentile.FilterDone | branches/newimage/src/Filter.cpp:1193 | once every channel is done, every output sample reads as its percentile |
| Percentile.Apply | branches/newimage/src/Filter.cpp:968-1194 | `PercentileFilter::apply` returns a fresh dense image of the same size whose every sample is the value of rank n − Desired(n, p) among the n in-image samples of its frame and channel under the disc of integer half-widths `edge[i]`; the input is only read |
| Percentile.Median | branches/newimage/src/Filter.cpp:944-946 | `MedianFilter::apply` is the percentile filter at 0.5: every sample is the value of rank (n + 1)/2 (the lower median) under the disc |
| Percentile.SupportHasCentre | branches/newimage/src/Filter.cpp:1163-1167 | the support of an in-image sample holds that sample, so it is never empty |
| Disc.RootFromIsRoot | branches/newimage/src/Filter.cpp:1224 | counting k up from any root below n ends at the integer square root: k² ≤ n < (k + 1)² |
| Disc.ISqrtIsRoot | branches/newimage/src/Filter.cpp:1224 | `ISqrt(n)`, standing for `(int)(sqrtf(n) + 0.0001f)`, is the largest k with k² ≤ n |
| Disc.SquareLe | branches/newimage/src/Filter.cpp:1224 | squaring is monotone on non-negative numbers |
| Disc.OffsetSquare | branches/newimage/src/Filter.cpp:1224 | a row offset i − r within the radius has a square at most r², so the square root's argument is non-negative |
| Disc.RootBelow | branches/newimage/src/Filter.cpp:1224 | a root of a number at most r² is at most r |
| Disc.EdgeIsWidest | branches/newimage/src/Filter.cpp:1224 | `edge[i]` is the widest half-width whose end stays inside the circle: e² + (i − r)² ≤ r² < (e + 1)² + (i − r)², and e ≤ r |
| Disc.EdgeSymmetric | branches/newimage/src/Filter.cpp:1224 | the profile is symmetric about the centre row |
| Disc.EdgeCentre | branches/newimage/src/Filter.cpp:1224 | the centre row spans the whole diameter: `edge[r] == r` |
| Disc.AreaAtLeast | branches/newimage/src/Filter.cpp:1228-1230 | every row contributes at least one sample, so the area of k rows is at least k |
| Disc.MakeEdges | branches/newimage/src/Filter.cpp:1222-1225 | the profile loop fills a fresh array of 2r + 1 entries with `Edge(r, i)` |
| Disc.FilterArea | branches/newimage/src/Filter.cpp:1228-1230 | `count` is the number of samples under the disc, at least 2r + 1 |
| Circular.Clamp | branches/newimage/src/Filter.cpp:1242-1245 | `clamp(v, lo, hi)` lands in [lo, hi] and leaves a value already in range alone |
| Circular.SpanShift | branches/newimage/src/Filter.cpp:1255-1263 | sliding a run of clamped taps one column right adds the entering tap and drops the leaving one |
| Circular.SlideRow | branches/newimage/src/Filter.cpp:1255-1263 | the change of the disc's first i + 1 rows is the change of the first i rows plus row i's exchange |
| Circular.SlideStep | branches/newimage/src/Filter.cpp:1261-1262 | one row's `+=`/`-=` pair extends the sliding sum's invariant to one more row |
| Circular.TapWithin | branches/newimage/src/Filter.cpp:1245-1246 | a clamped tap of a bounded plane lies within the bound |
| Circular.TimesAdd | branches/newimage/src/Filter.cpp:1247 | repeated addition splits over a sum of counts |
| Circular.TimesProduct | branches/newimage/src/Filter.cpp:1247 | n copies of v add up to n·v |
| Circular.SpanWithin | branches/newimage/src/Filter.cpp:1244-1248 | a run of n taps of a plane bounded by [a, b] sums to between n·a and n·b |
| Circular.RowsWithin | branches/newimage/src/Filter.cpp:1239-1249 | the disc's first k rows hold `Area(e, k)` taps, so their sum is between that many a's and b's |
| Circular.Shrink | branches/newimage/src/Filter.cpp:1252 | multiplying by `invArea` turns such a sum into a value within [a, b] |
| Circular.CircleWithin | branches/newimage/src/Filter.cpp:1252 | the filter never leaves the range of the plane's samples |
| Circular.CircleConstant | branches/newimage/src/Filter.cpp:1252 | a constant plane comes out unchanged |
| Circular.RadiusZero | branches/newimage/src/Filter.cpp:1214-1270 | at radius 0 the filter is the identity on in-image samples |
| Circular.AddSpan | branches/newimage/src/Filter.cpp:1244-1248 | the inner initialisation loop adds the clamped taps −edge[i] .. edge[i] of one row |
| Circular.StartSum | branches/newimage/src/Filter.cpp:1237-1249 | the initialisation leaves `average` the sum under the disc around column 0 |
| Circular.Exchange | branches/newimage/src/Filter.cpp:1256-1262 | `max(0, x − edge[i])` and `min(x + edge[i] + 1, width − 1)` are the clamped leaving and entering taps, and `average` changes by their difference |
| Circular.ExchangeRow | branches/newimage/src/Filter.cpp:1255-1263 | one iteration of the move extends the change to one more disc row |
| Circular.Slide | branches/newimage/src/Filter.cpp:1254-1263 | "move the histogram to the right": `average` changes from the sum under the disc at x to the sum at x + 1 |
| Circular.StageStep | branches/newimage/src/Filter.cpp:1252 | writing (x, y, t, c) changes that output sample only, to its mean |
| Circular.WriteCell | branches/newimage/src/Filter.cpp:1252 | `out(x, y, t, c) = average * invArea` advances the written part of the output by one sample |
| Circular.FilterRow | branches/newimage/src/Filter.cpp:1236-1265 | one scanline: every sample of row y gets the mean under its disc |
| Circular.FilterRows | branches/newimage/src/Filter.cpp:1236-1265 | `for y`: every scanline of frame t, channel c |
| Circular.FilterFrames | branches/newimage/src/Filter.cpp:1235-1266 | `for t`: every frame of channel c |
| Circular.FilterChannels | branches/newimage/src/Filter.cpp:1234-1267 | `for c`: every channel, starting from the zero-filled output |
| Circular.FilterDone | branches/newimage/src/Filter.cpp:1269 | once every channel is done, every output sample reads as its mean |
| Circular.Apply | branches/newimage/src/Filter.cpp:1214-1270 | `CircularFilter::apply` returns a fresh dense image of the same size whose every sample is the mean of the input, clamped at the edges, over the disc of half-widths `edge[i]`; the input is only read |
| HotPixel.Highest | branches/newimage/src/Filter.cpp:1339 | `maxn` is one of the four neighbours and at least all of them |
| HotPixel.Lowest | branches/newimage/src/Filter.cpp:1340 | `minn` is one of the four neighbours and at most all of them |
| HotPixel.Suppress | branches/newimage/src/Filter.cpp:1341-1342 | the result lies within the neighbours' range; a sample already in range is kept, one above is lowered to `maxn`, one below raised to `minn` |
| HotPixel.SuppressIdempotent | branches/newimage/src/Filter.cpp:1341-1342 | clamping a second time against the same neighbours changes nothing |
| HotPixel.StageStep | branches/newimage/src/Filter.cpp:1343 | writing (x, y, t, c) changes that output sample only, to its suppressed value |
| HotPixel.SuppressCell | branches/newimage/src/Filter.cpp:1334-1343 | the loop body writes the suppressed value of (x, y, t, c) and advances the written part of the output |
| HotPixel.SuppressChannels | branches/newimage/src/Filter.cpp:1333-1344 | `for c`: every channel of sample (x, y) |
| HotPixel.SuppressColumns | branches/newimage/src/Filter.cpp:1332-1345 | `for x = 1 .. width − 2` along row y |
| HotPixel.SuppressRows | branches/newimage/src/Filter.cpp:1331-1346 | `for y = 1 .. height − 2` within frame t |
| HotPixel.SuppressFrames | branches/newimage/src/Filter.cpp:1330-1347 | `for t`, starting from the zero-filled output |
| HotPixel.SuppressDone | branches/newimage/src/Filter.cpp:1349 | once every frame is done, every interior output sample holds its suppressed value and every border sample zero |
| HotPixel.Apply | branches/newimage/src/Filter.cpp:1327-1350 | `HotPixelSuppression::apply` returns a fresh dense image of the same size whose interior samples are clamped into their four neighbours' range and whose one-sample border is zero; the input is only read |
| Box.BoxPass | branches/newimage/src/Filter.cpp:536-588 | one pass keeps the line's length; sample x becomes the mean of samples max(1, x − r) .. min(x + r, n − 1); this is what the code's pass computes on lines of at least 2r + 2 samples (`Box.BoxOnce`) and what it is meant to compute on shorter ones (see Findings) |
| Box.Boxed | branches/newimage/src/Filter.cpp:536 | `iterations` passes, each over the result of the one before, keep the line's length |
| Box.Flat | branches/newimage/src/Filter.cpp:501-508 | `blurXCompletely` on one scanline: every sample becomes the mean of the whole line |
| Box.BlurLine | branches/newimage/src/Filter.cpp:515-525 | on the lengths `Box.BlurFits` allows, `blurX` on one scanline keeps its length: unchanged for width ≤ 1 or a one-sample line, flattened when the line is no longer than the radius, else `iterations` box passes of radius width/2 |
| Box.SumWithin | branches/newimage/src/Filter.cpp:502-504 | a sum of samples within [m, M] lies between count·m and count·M |
| Box.MeanWithin | branches/newimage/src/Filter.cpp:505 | a mean lies within the bounds of its samples |
| Box.BoxPassWithin | branches/newimage/src/Filter.cpp:557-587 | a box pass keeps a line within any bounds its samples 1 .. n − 1 keep |
| Box.BoxedWithin | branches/newimage/src/Filter.cpp:536-588 | any number of passes keeps a line within the bounds of its samples |
| Box.BlurLineWithin | branches/newimage/src/Filter.cpp:515-593 | on the lengths `Box.BlurFits` allows, `blurX` never leaves the range of a scanline's samples |
| Box.FlatIdempotent | branches/newimage/src/Filter.cpp:496-512 | `blurXCompletely` applied to its own output gives the same scanline again |
| Box.BlurLineShortIdempotent | branches/newimage/src/Filter.cpp:515-524 | on a scanline no longer than half the width, `blurX` takes the complete-blur shortcut, so blurring twice equals blurring once |
| Box.BlurLineConstant | branches/newimage/src/Filter.cpp:515-593 | on the lengths `Box.BlurFits` allows, `blurX` leaves a constant scanline unchanged |
| Box.SumSame | branches/newimage/src/Filter.cpp:502-504 | sums over equal samples are equal |
| Box.BoxPassIgnoresFirst | branches/newimage/src/Filter.cpp:548-550 | sample 0 never enters the buffer, so a pass does not depend on it |
| Box.FeedSumIsSum | branches/newimage/src/Filter.cpp:545-562 | the values the buffer receives over a stretch of its feed sum to the samples fed in that stretch |
| Box.FeedSumFront | branches/newimage/src/Filter.cpp:563 | a feed sum splits off its first value |
| Box.FeedSumSlide | branches/newimage/src/Filter.cpp:563 | sliding the buffer one place drops the oldest value and adds the next |
| Box.WindowSum | branches/newimage/src/Filter.cpp:559 | while the window covers x, the buffer's sum is the sum of x's window |
| Box.CountPositive | branches/newimage/src/Filter.cpp:554 | every window holds at least one sample, so `1.0/bufferEntries` is defined |
| Box.CountInside | branches/newimage/src/Filter.cpp:568-571 | in the first loop the count grows by one until the buffer is full |
| Box.SlotAdvance | branches/newimage/src/Filter.cpp:565-566 | `bufferIndex++`, wrapping at `width`, makes the next slot the oldest |
| Box.StartBuffer | branches/newimage/src/Filter.cpp:540-554 | the initialisation leaves r + 1 zeros and samples 1 .. r in the buffer, their sum in `sum`, and `bufferEntries` r |
| Box.Output | branches/newimage/src/Filter.cpp:559 | `sum * mult` is the pass's output at x |
| Box.Slide | branches/newimage/src/Filter.cpp:562-571 | one step of the first loop moves the running state from x to x + 1 |
| Box.Drain | branches/newimage/src/Filter.cpp:580-586 | one step of the second loop moves the running state from x to x + 1 on lines of at least 2r + 2 samples |
| Box.PassInside | branches/newimage/src/Filter.cpp:557-572 | the first loop writes samples 0 .. n − r − 2 of the pass and touches nothing off the line |
| Box.PassTail | branches/newimage/src/Filter.cpp:575-587 | the second loop writes the remaining samples |
| Box.BoxOnce | branches/newimage/src/Filter.cpp:540-587 | one iteration replaces the scanline, in place, by `BoxPass` of its old contents, touching nothing else |
| Box.AsWrittenShort | branches/newimage/src/Filter.cpp:585-586 | on a line of r + 1 samples `bufferEntries` is r − x when sample x is written |
| Box.AsWrittenReachesZero | branches/newimage/src/Filter.cpp:585-586 | on a line of r + 1 samples `bufferEntries` is 0 when the last sample is written, while its window holds r samples |
| Box.AsWrittenFirstLoop | branches/newimage/src/Filter.cpp:557-572 | on a line of r + 1 .. 2r + 1 samples the first loop never fills the buffer, so `bufferEntries` is r + x when sample x is written |
| Box.AsWrittenSecondLoop | branches/newimage/src/Filter.cpp:575-587 | on those lines sample n − r − 1 + k is written with `bufferEntries` n − 1 − k |
| Box.AsWrittenUndercounts | branches/newimage/src/Filter.cpp:575-587 | on those lines every sample of the second loop after its first is divided by fewer entries than its window holds |
| Box.PassFrom | branches/newimage/src/Filter.cpp:557-587 | the two loops of one pass from sample x on, as written, yield one output per remaining sample, or stop where the count has reached 0 |
| Box.PassAsWritten | branches/newimage/src/Filter.cpp:540-587 | one pass as written, from the buffer of r + 1 zeros and samples 1 .. r, yields a line of the same length unless the count reaches 0 |
| Box.AsWrittenTail | branches/newimage/src/Filter.cpp:575-587 | the second loop on [1, 1, 1, 1] at width 5 writes 1, 1.5 and 3 while the count drops from 3 to 1 |
| Box.AsWrittenHead | branches/newimage/src/Filter.cpp:540-587 | the whole pass on [1, 1, 1, 1] at width 5 yields [1, 1, 1.5, 3] |
| Box.AsWrittenOverScales | branches/newimage/src/Filter.cpp:540-587 | at width 5 the code turns the constant line [1, 1, 1, 1] into [1, 1, 1.5, 3], where the box mean `BoxPass` gives the line back |
| Box.BoxLine | branches/newimage/src/Filter.cpp:536-588 | the `for i` loop replaces the scanline by `iterations` passes of its old contents |
| Box.FlattenLine | branches/newimage/src/Filter.cpp:501-508 | one scanline of `blurXCompletely` replaced by its mean, in place |
| Rect.Blurred | branches/newimage/src/Filter.cpp:496-593 | either kernel keeps a scanline's length |
| Rect.SweptRow | branches/newimage/src/Filter.cpp:499 | sweeping row (y, t, c) turns that scanline from original to blurred and changes no other sample |
| Rect.SweepRow | branches/newimage/src/Filter.cpp:499-509 | one scanline of a sweep is blurred in place |
| Rect.NextFrame | branches/newimage/src/Filter.cpp:498 | the end of the y loop is the start of the next frame |
| Rect.NextChannel | branches/newimage/src/Filter.cpp:497 | the end of the t loop is the start of the next channel |
| Rect.SweepRows | branches/newimage/src/Filter.cpp:499-509 | `for y`: every scanline of frame t, channel c |
| Rect.SweepFrames | branches/newimage/src/Filter.cpp:498-510 | `for t`: every frame of channel c |
| Rect.SweepDone | branches/newimage/src/Filter.cpp:497-511 | once every channel is done, every sample reads as its blurred scanline |
| Rect.Sweep | branches/newimage/src/Filter.cpp:497-511 | a whole sweep leaves every sample its place in its blurred scanline and touches nothing but samples |
| Rect.ReadsOwnLine | branches/newimage/src/Filter.cpp:516-517 | an image left as it is holds its own scanlines |
| Rect.BlurXCompletely | branches/newimage/src/Filter.cpp:496-512 | `blurXCompletely` replaces every scanline by its mean, in place |
| Rect.BlurX | branches/newimage/src/Filter.cpp:515-593 | `blurX` replaces every scanline by `BlurLine` of it, in place |
| Vertical.ReadsOwnColumn | branches/newimage/src/Filter.cpp:596-597 | an image left as it is holds its own columns |
| Vertical.ReadStep | branches/newimage/src/Filter.cpp:611 | `chunk(y, j) = im(x + j, y, t, c)` advances the transposed copy by one sample |
| Vertical.ReadCell | branches/newimage/src/Filter.cpp:611 | one sample of the strip into the scratch image |
| Vertical.ReadStripRow | branches/newimage/src/Filter.cpp:610-612 | `for j`: row y of the strip into the scratch image |
| Vertical.ReadStrip | branches/newimage/src/Filter.cpp:609-613 | `for y, for j`: the whole strip into the scratch image, transposed |
| Vertical.WrittenStep | branches/newimage/src/Filter.cpp:621 | writing sample (x + j, y) back changes that sample only |
| Vertical.WriteStep | branches/newimage/src/Filter.cpp:621 | storing the blurred value of (x + j, y) advances the write-back by one sample |
| Vertical.WriteCell | branches/newimage/src/Filter.cpp:621 | `im(x + j, y, t, c) = chunk(y, j)` |
| Vertical.WriteStripRow | branches/newimage/src/Filter.cpp:620-622 | `for j`: row y of the strip back from the scratch image |
| Vertical.WriteStrip | branches/newimage/src/Filter.cpp:619-623 | `for y, for j`: the strip back, leaving its columns blurred |
| Vertical.StripLines | branches/newimage/src/Filter.cpp:609-613 | after the read, scanline j of the scratch image is column x + j of the image |
| Vertical.Strip | branches/newimage/src/Filter.cpp:605-623 | one strip: read, `blurX` of the scratch image, write back, leaving columns x .. x + size − 1 blurred |
| Vertical.Strips | branches/newimage/src/Filter.cpp:604-624 | `for x`, eight columns at a time, the last strip cut to the image's width |
| Vertical.StripFrames | branches/newimage/src/Filter.cpp:603-625 | `for t`: every frame of channel c |
| Vertical.StripChannels | branches/newimage/src/Filter.cpp:602-626 | `for c`: every channel |
| Vertical.ColumnsDone | branches/newimage/src/Filter.cpp:602-626 | once every channel is done, every sample reads as its blurred column |
| Vertical.ColumnsKept | branches/newimage/src/Filter.cpp:596-597 | where `blurY` returns at once every column already is its own blur |
| Vertical.BlurY | branches/newimage/src/Filter.cpp:595-627 | `blurY` replaces every column by `BlurLine` of it, in place, touching nothing but samples |
| Vertical.ReadSteps | branches/newimage/src/Filter.cpp:643 | a `for` loop over t under a given guard runs at most as many times as it is let run |
| Vertical.BlurTReadAsWritten | branches/newimage/src/Filter.cpp:643 | the read loop of `blurT` tests `y < im.frames`: on a row below `frames` it never stops, running past the last frame, and on any other row it never runs |
| Vertical.BlurTReadFixed | branches/newimage/src/Filter.cpp:643 | with the guard `t < im.frames` the read loop runs once per frame and stops |
| RectFilter.FieldLine | branches/newimage/src/Filter.cpp:616 | the line along an axis has that axis's extent |
| RectFilter.FieldLineOf | branches/newimage/src/Filter.cpp:492-493 | the line of a store that agrees with a field is that field's line |
| RectFilter.Passed | branches/newimage/src/Filter.cpp:492-493 | a pass that leaves every sample at its place in the blurred line agrees with `PassAlong` |
| RectFilter.GetIsAt | branches/newimage/src/Image.h:49-51 | what `im(x, y, t, c)` reads is the sample of the store's snapshot |
| RectFilter.RowsPass | branches/newimage/src/Filter.cpp:492 | the pass along x |
| RectFilter.ColumnsPass | branches/newimage/src/Filter.cpp:493 | the pass along y |
| RectFilter.Apply | branches/newimage/src/Filter.cpp:487-494 | `apply` fails (writing nothing) exactly when an extent is even or `iterations` < 1; otherwise the image ends up blurred along x, then along y, and nothing but samples changes |
| RectFilter.PassWithin | branches/newimage/src/Filter.cpp:515-627 | a pass keeps every sample within the bounds of the field it blurs |
| RectFilter.FilteredWithin | branches/newimage/src/Filter.cpp:487-494 | on the extents `Box.BlurFits` allows, the filtered image stays within the range of the original samples |
| RectFilter.PassConstant | branches/newimage/src/Filter.cpp:515-627 | a pass leaves a constant field constant |
| RectFilter.FilteredConstant | branches/newimage/src/Filter.cpp:487-494 | on the extents `Box.BlurFits` allows, the filter leaves an image of one value unchanged |

## Left out

- Floating point: samples are `real`. `float`/`double` rounding, the `(float)` casts of `blurX`, infinities and NaN are not modelled. The min/max padding `±INF` is an extended value (`Extremum.Ext`).
- `Disc.ISqrt`: stands for `(int)(sqrtf(n) + 0.0001f)` as the exact integer square root. It does not model how `sqrtf` rounds on large radii.
- `Window.Desired`: `int(total * (1.0f - percentile))` is computed in exact arithmetic (`Window.Share`, a repeated sum equal to the product) and truncated toward zero. Float rounding of the product is not modelled.
- Integer overflow: `int` and `size_t` are unbounded. Strides, offsets and the window's slot numbers are assumed not to wrap.
- `MinMax.MinFilter`, `MinMax.MaxFilter`: require radius ≥ 1. At radius 0 the code steps an unsigned index below zero.
- `Window.SlidingNewImage.constructor`: requires `maxKey` ≥ 1. The filter always passes (2r + 1)².
- `Window.SlidingNewImage.Rebalance`: requires a nonempty window. With total 0, `clamp(…, 0, -1)` depends on a definition of `clamp` that is not part of this model. The filter never rebalances an empty window (`Percentile.CentreCovered`).
- `Percentile.Apply`, `Percentile.Median`: the sweep uses the corrected `insert` (`Window.SlidingNewImage.InsertChecked`), so they state the percentile the filter is meant to compute. With the insert as written the partitions can lose their order; see Findings.
- `Rect.BlurX`, `Vertical.BlurY`, `RectFilter.Apply`, `Box.BlurLine`, `Box.BlurLineWithin`, `Box.BlurLineConstant`, `RectFilter.FilteredWithin`, `RectFilter.FilteredConstant`: the code's blur is modelled on lines longer than the filter or no longer than its radius (`Box.BlurFits`). On lines of r + 1 .. 2r + 1 samples, the second loop lowers the divisor by one per sample while the sum only loses padding zeros. The outputs come out too large (`Box.AsWrittenOverScales`), and at n = r + 1 the count reaches 0 (`Box.AsWrittenReachesZero`). `BlurLine` gives the box means there, which is what the filter is meant to compute but not what the code does; see Findings.
- `RectFilter.Apply`: `blurT` is not modelled, because its read loop tests `y < im.frames` instead of `t` (see Findings). `Apply` requires that `blurT` returns at once (filter depth ≤ 1 or at most one frame). A failed shape check is the `ok` result rather than a panic.
- `Circular.Apply`: an image with no samples returns the fresh image without reading. On a zero-width image of nonzero height, the C++ reads `im(clamp(x, 0, -1), …)`, which this model does not cover.
- `Circular.Apply`: the radius is a `nat`. `CircularFilter::parse` passes a negative radius through unchecked, unlike the min, max, median and percentile parsers, and `vector<int> edge(radius*2+1)` then fails. That error path is not modelled.
- `Images.Set`: the source is read as a snapshot taken before the loop (`Images.AsSource`). When an image source shares cells with the target, the C++ reads cells the loop has already written, and rows race under `omp parallel for`. Neither is modelled. The SSE/AVX path of `set` is taken to store the same values as the scalar loop.
- `Images.Injective`: filters that write in place require distinct coordinates to name distinct cells. This holds for every image `Images.Create` makes (`Images.DenseInjective`), but an arbitrary strided view may break it.
- Allocation is a byte address parameter `addr` (a multiple of 4) rather than a call to `malloc`. Reference counting of the shared store, and freeing it, are not modelled.
- Not part of this model: `GaussianBlur`, `FastBlur`, `LanczosBlur` and `Envelope` (compositions of other operations), the `help`/`parse` command-line front ends, the `debug` printer of `SlidingNewImage`, and the image-level arithmetic, sampling and file helpers of `Image.h`.

## Findings

| source | as written | input that shows it | evidently intended | confidence | as-written member | corrected member |
|---|---|---|---|---|---|---|
| branches/newimage/src/Filter.cpp:1008-1012 | `insert` sends a value low when `val < pivot()`, even while the low partition is empty. `pivot()` then reads a stale slot, so the value can land low while it is larger than values in the high partition, and the partitions lose their order. | a 1×4 image [-10, -5, -5, -1], radius 1, percentile 0. The shift after x = 1 removes -10, the only low value. The max-tree's root then points at slot 0, which still holds its initial 0.0. `insert` sends -1 low beside a high partition holding -5 and -5. `rebalance` at x = 2 moves nothing, and `out(2, 0)` becomes -1 rather than the minimum -5. | while the low partition is empty, compare with the smallest high value instead (or send the value high whenever the high partition is nonempty), so the low partition always holds the smallest values | not executed | Window.SlidingNewImage.Insert, Window.StalePivot | Window.SlidingNewImage.InsertChecked, Window.CheckedOrdered |
| branches/newimage/src/Filter.cpp:575-587 | on lines of r + 1 .. 2r + 1 samples, the second loop of `blurX` lowers `bufferEntries` by one per sample while `sum` only loses the padding zeros, so the divisor is smaller than the number of samples summed; at r + 1 samples it reaches 0 | a filter 5 wide (r = 2) on the constant line [1, 1, 1, 1]: the pass writes [1, 1, 1.5, 3] | every sample is the mean of the samples its window covers, as on longer lines | not executed | Box.PassAsWritten, Box.AsWrittenOverScales, Box.AsWrittenUndercounts | Box.BoxPass, Box.BoxPassWithin |
| branches/newimage/src/Filter.cpp:643 | the read loop of `blurT` is `for (int t = 0; y < im.frames; t++)`: its guard does not depend on `t`, so on rows below `frames` it runs past the last frame, and on other rows it never runs and the chunk keeps the previous strip | any image with more than one frame, a filter depth above 1 and row y = 0: the guard holds for every t | the guard `t < im.frames`, reading each frame once | not executed | Vertical.BlurTReadAsWritten | Vertical.BlurTReadFixed |
