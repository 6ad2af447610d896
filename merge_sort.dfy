/** Top-down merge sort on a range of the bar array, one frame per write. */
module Merging {
  import opened Order
  import opened Render
  import opened MergeSpec

  /** `s` is `s0` with the range [start, k) overwritten by the first
      k - start values of `whole`. */
  ghost predicate Written(s0: seq<int>, s: seq<int>, start: int, k: int, whole: seq<int>) {
    && |s| == |s0|
    && 0 <= start <= k <= start + |whole| <= |s|
    && (forall p :: start <= p < k ==> s[p] == whole[p - start])
    && (forall p :: 0 <= p < |s| && !(start <= p < k) ==> s[p] == s0[p])
  }

  /** The state of the merge loops after `i` values of `left` and `j` values
      of `right` have been written from `start` on: the array holds the first
      i + j values of the merge, and the merge of what is left of the two
      runs is the rest of it. */
  ghost predicate MergeState(left: seq<int>, right: seq<int>, i: int, j: int,
                             s0: seq<int>, s: seq<int>, start: int) {
    && 0 <= i <= |left| && 0 <= j <= |right|
    && Written(s0, s, start, start + i + j, MergedBy(left, right, Id))
    && MergedBy(left, right, Id)[i + j..] == MergedBy(left[i..], right[j..], Id)
  }

  /** Taking the head of the left run: it is the next value of the merge. */
  lemma TakeLeft(left: seq<int>, right: seq<int>, i: int, j: int,
                 s0: seq<int>, s: seq<int>, start: int)
    requires MergeState(left, right, i, j, s0, s, start)
    requires i < |left| && (j == |right| || left[i] <= right[j])
    ensures MergeState(left, right, i + 1, j, s0, s[start + i + j := left[i]], start)
  {
    var whole := MergedBy(left, right, Id);
    assert left[i..][1..] == left[i + 1..];
    assert MergedBy(left[i..], right[j..], Id) == [left[i]] + MergedBy(left[i + 1..], right[j..], Id);
    assert whole[i + j] == whole[i + j..][0] == left[i];
    assert whole[i + j + 1..] == whole[i + j..][1..];
  }

  /** Taking the head of the right run: it is the next value of the merge. */
  lemma TakeRight(left: seq<int>, right: seq<int>, i: int, j: int,
                  s0: seq<int>, s: seq<int>, start: int)
    requires MergeState(left, right, i, j, s0, s, start)
    requires j < |right| && (i == |left| || left[i] > right[j])
    ensures MergeState(left, right, i, j + 1, s0, s[start + i + j := right[j]], start)
  {
    var whole := MergedBy(left, right, Id);
    assert right[j..][1..] == right[j + 1..];
    assert MergedBy(left[i..], right[j..], Id) == [right[j]] + MergedBy(left[i..], right[j + 1..], Id);
    assert whole[i + j] == whole[i + j..][0] == right[j];
    assert whole[i + j + 1..] == whole[i + j..][1..];
  }

  /** Once the whole range is written it holds the merge, and nothing
      outside it has changed. */
  lemma WrittenDone(s0: seq<int>, s: seq<int>, start: int, whole: seq<int>)
    requires Written(s0, s, start, start + |whole|, whole)
    ensures s[start..start + |whole|] == whole
    ensures SameOutside(s, s0, start, start + |whole|)
  {
  }

  /** The frames of one merge: the frame drawn after the t-th write shows the
      first t + 1 values written and highlights the position after the last
      one written. */
  ghost predicate FramesMerged(drawn: seq<Frame>, s0: seq<int>, start: int, whole: seq<int>) {
    forall t :: 0 <= t < |drawn| ==>
      drawn[t].highlight == start + t + 1 &&
      Written(s0, drawn[t].bars, start, start + t + 1, whole)
  }

  lemma FramesMergedAppend(drawn: seq<Frame>, s0: seq<int>, start: int, whole: seq<int>, s: seq<int>)
    requires FramesMerged(drawn, s0, start, whole)
    requires Written(s0, s, start, start + |drawn| + 1, whole)
    ensures FramesMerged(drawn + [Frame(s, start + |drawn| + 1)], s0, start, whole)
  {
  }

  /** Everything the merge loops keep: the array state and, for each frame
      drawn so far, what it showed. */
  ghost predicate MergeLoop(left: seq<int>, right: seq<int>, i: int, j: int,
                            s0: seq<int>, s: seq<int>, start: int, drawn: seq<Frame>) {
    && MergeState(left, right, i, j, s0, s, start)
    && |drawn| == i + j
    && FramesMerged(drawn, s0, start, MergedBy(left, right, Id))
  }

  /** Writing the head of the left run and drawing the frame after it. */
  lemma LeftStep(left: seq<int>, right: seq<int>, i: int, j: int,
                 s0: seq<int>, s: seq<int>, start: int, drawn: seq<Frame>)
    requires MergeLoop(left, right, i, j, s0, s, start, drawn)
    requires i < |left| && (j == |right| || left[i] <= right[j])
    ensures var t := s[start + i + j := left[i]];
            MergeLoop(left, right, i + 1, j, s0, t, start, drawn + [Frame(t, start + i + j + 1)])
  {
    TakeLeft(left, right, i, j, s0, s, start);
    FramesMergedAppend(drawn, s0, start, MergedBy(left, right, Id), s[start + i + j := left[i]]);
  }

  /** Writing the head of the right run and drawing the frame after it. */
  lemma RightStep(left: seq<int>, right: seq<int>, i: int, j: int,
                  s0: seq<int>, s: seq<int>, start: int, drawn: seq<Frame>)
    requires MergeLoop(left, right, i, j, s0, s, start, drawn)
    requires j < |right| && (i == |left| || left[i] > right[j])
    ensures var t := s[start + i + j := right[j]];
            MergeLoop(left, right, i, j + 1, s0, t, start, drawn + [Frame(t, start + i + j + 1)])
  {
    TakeRight(left, right, i, j, s0, s, start);
    FramesMergedAppend(drawn, s0, start, MergedBy(left, right, Id), s[start + i + j := right[j]]);
  }

  /** `bars[k++] = v` followed by the frame that highlights the new `k`. */
  method Put(bars: array<int>, ctx: Context, k: int, v: int)
    requires 0 <= k < bars.Length
    modifies bars, ctx
    ensures bars[..] == old(bars[..])[k := v]
    ensures ctx.frames == old(ctx.frames) + [Frame(bars[..], k + 1)]
  {
    bars[k] := v;
    ctx.DrawBars(bars, k + 1);
  }

  /** One iteration of the first loop of the merge: the smaller head of the
      two runs, the left one on a tie, is written at `k` and the frame after
      it drawn. */
  method PutHead(bars: array<int>, ctx: Context, left: seq<int>, right: seq<int>, start: int,
                 i: int, j: int, k: int, ghost s0: seq<int>, ghost base: seq<Frame>, ghost drawn: seq<Frame>)
      returns (i': int, j': int, ghost drawn': seq<Frame>)
    requires |s0| == bars.Length && k == start + i + j
    requires i < |left| && j < |right|
    requires MergeLoop(left, right, i, j, s0, bars[..], start, drawn)
    requires ctx.frames == base + drawn
    modifies bars, ctx
    ensures i' + j' == i + j + 1 && i <= i' && j <= j'
    ensures MergeLoop(left, right, i', j', s0, bars[..], start, drawn')
    ensures ctx.frames == base + drawn'
  {
    if left[i] <= right[j] {
      LeftStep(left, right, i, j, s0, bars[..], start, drawn);
      AppendFrame(base, drawn, Frame(bars[..][k := left[i]], k + 1));
      drawn' := drawn + [Frame(bars[..][k := left[i]], k + 1)];
      Put(bars, ctx, k, left[i]);
      i', j' := i + 1, j;
    } else {
      RightStep(left, right, i, j, s0, bars[..], start, drawn);
      AppendFrame(base, drawn, Frame(bars[..][k := right[j]], k + 1));
      drawn' := drawn + [Frame(bars[..][k := right[j]], k + 1)];
      Put(bars, ctx, k, right[j]);
      i', j' := i, j + 1;
    }
  }

  /** The first loop of the merge: while both runs have values left, the
      smaller head (the left one on a tie) is written and a frame drawn. */
  method MergeHeads(bars: array<int>, ctx: Context, left: seq<int>, right: seq<int>, start: int,
                    ghost s0: seq<int>, ghost base: seq<Frame>)
      returns (i: int, j: int, ghost drawn: seq<Frame>)
    requires |s0| == bars.Length
    requires MergeLoop(left, right, 0, 0, s0, bars[..], start, [])
    requires ctx.frames == base
    modifies bars, ctx
    ensures i == |left| || j == |right|
    ensures MergeLoop(left, right, i, j, s0, bars[..], start, drawn)
    ensures ctx.frames == base + drawn
  {
    i, j, drawn := 0, 0, [];
    var k := start;
    while i < |left| && j < |right|
      invariant k == start + i + j
      invariant MergeLoop(left, right, i, j, s0, bars[..], start, drawn)
      invariant ctx.frames == base + drawn
      decreases |left| + |right| - i - j
    {
      i, j, drawn := PutHead(bars, ctx, left, right, start, i, j, k, s0, base, drawn);
      k := k + 1;
    }
  }

  /** The second loop of the merge: what is left of the left run is copied,
      a frame after each value. */
  method CopyLeft(bars: array<int>, ctx: Context, left: seq<int>, right: seq<int>, start: int,
                  i0: int, j: int, ghost s0: seq<int>, ghost base: seq<Frame>, ghost drawn0: seq<Frame>)
      returns (ghost drawn: seq<Frame>)
    requires |s0| == bars.Length
    requires i0 == |left| || j == |right|
    requires MergeLoop(left, right, i0, j, s0, bars[..], start, drawn0)
    requires ctx.frames == base + drawn0
    modifies bars, ctx
    ensures MergeLoop(left, right, |left|, j, s0, bars[..], start, drawn)
    ensures ctx.frames == base + drawn
  {
    var i, k := i0, start + i0 + j;
    drawn := drawn0;
    while i < |left|
      invariant k == start + i + j && i0 <= i
      invariant MergeLoop(left, right, i, j, s0, bars[..], start, drawn)
      invariant ctx.frames == base + drawn
    {
      LeftStep(left, right, i, j, s0, bars[..], start, drawn);
      AppendFrame(base, drawn, Frame(bars[..][k := left[i]], k + 1));
      drawn := drawn + [Frame(bars[..][k := left[i]], k + 1)];
      Put(bars, ctx, k, left[i]);
      i := i + 1;
      k := k + 1;
    }
  }

  /** The third loop of the merge: what is left of the right run is copied,
      a frame after each value. */
  method CopyRight(bars: array<int>, ctx: Context, left: seq<int>, right: seq<int>, start: int,
                   j0: int, ghost s0: seq<int>, ghost base: seq<Frame>, ghost drawn0: seq<Frame>)
      returns (ghost drawn: seq<Frame>)
    requires |s0| == bars.Length
    requires MergeLoop(left, right, |left|, j0, s0, bars[..], start, drawn0)
    requires ctx.frames == base + drawn0
    modifies bars, ctx
    ensures MergeLoop(left, right, |left|, |right|, s0, bars[..], start, drawn)
    ensures ctx.frames == base + drawn
  {
    var i, j, k := |left|, j0, start + |left| + j0;
    drawn := drawn0;
    while j < |right|
      invariant k == start + i + j && j0 <= j
      invariant MergeLoop(left, right, i, j, s0, bars[..], start, drawn)
      invariant ctx.frames == base + drawn
    {
      RightStep(left, right, i, j, s0, bars[..], start, drawn);
      AppendFrame(base, drawn, Frame(bars[..][k := right[j]], k + 1));
      drawn := drawn + [Frame(bars[..][k := right[j]], k + 1)];
      Put(bars, ctx, k, right[j]);
      j := j + 1;
      k := k + 1;
    }
  }

  /** Merges the ascending runs bars[start..mid] and bars[mid+1..end] into
      bars[start..end]. The runs are first copied out, then the smaller head
      (the left one on a tie) is written at `k`, then what is left of either
      run; after each write a frame highlights the next position `k`. */
  method Merge(bars: array<int>, ctx: Context, start: int, mid: int, end: int)
    requires 0 <= start <= mid + 1 <= end + 1 <= bars.Length
    modifies bars, ctx
    ensures bars[start..end + 1] ==
            MergedBy(old(bars[start..mid + 1]), old(bars[mid + 1..end + 1]), Id)
    ensures SameOutside(bars[..], old(bars[..]), start, end + 1)
    ensures |ctx.frames| == |old(ctx.frames)| + (end + 1 - start)
    ensures ctx.frames[..|old(ctx.frames)|] == old(ctx.frames)
    ensures FramesMerged(ctx.frames[|old(ctx.frames)|..], old(bars[..]), start,
                         MergedBy(old(bars[start..mid + 1]), old(bars[mid + 1..end + 1]), Id))
  {
    var left, right := bars[start..mid + 1], bars[mid + 1..end + 1];
    ghost var s0, base := bars[..], ctx.frames;
    var i, j;
    ghost var drawn;
    i, j, drawn := MergeHeads(bars, ctx, left, right, start, s0, base);
    drawn := CopyLeft(bars, ctx, left, right, start, i, j, s0, base, drawn);
    drawn := CopyRight(bars, ctx, left, right, start, j, s0, base, drawn);
    WrittenDone(s0, bars[..], start, MergedBy(left, right, Id));
    assert ctx.frames[|base|..] == drawn;
  }

  /** The frames of one merge of a range starting at `start` highlight
      positions start + 1 .. start + |drawn|. */
  lemma FramesMergedHighlights(drawn: seq<Frame>, s0: seq<int>, start: int, whole: seq<int>)
    requires FramesMerged(drawn, s0, start, whole)
    ensures HighlightsIn(drawn, start + 1, start + |drawn|)
  {
  }

  /** The frames of a sort of [start, end] split at `mid` are those of its
      two halves and one per element for the merge. */
  lemma MergeSortWrites(f0: int, f2: int, f3: int, start: int, mid: int, end: int)
    requires start < end && mid == (start + end) / 2
    requires f2 == f0 + MergeWrites(mid + 1 - start) + MergeWrites(end - mid)
    requires f3 == f2 + (end + 1 - start)
    ensures f3 == f0 + MergeWrites(end + 1 - start)
  {
    var n := end + 1 - start;
    assert mid + 1 - start == Half(n) && end - mid == n - Half(n);
  }

  /** What a sort of the run [start, end] leaves behind, from the array `s0`
      and frame log `f0` to the array `s` and log `f`: the run holds the
      functional merge sort of what it held, nothing outside it changed, one
      frame was appended per write of its merges with the earlier frames kept,
      and every appended frame highlights a position in [start + 1, end + 1]. */
  ghost predicate SortedRun(s0: seq<int>, s: seq<int>, f0: seq<Frame>, f: seq<Frame>, start: int, end: int) {
    && 0 <= start <= end + 1 <= |s0|
    && SameOutside(s, s0, start, end + 1)
    && s[start..end + 1] == MergeSortedBy(s0[start..end + 1], Id)
    && |f| == |f0| + MergeWrites(end + 1 - start)
    && f[..|f0|] == f0
    && HighlightsIn(f[|f0|..], start + 1, end + 1)
  }

  /** The same for the two recursive calls of the sort of [start, end]: each
      of the halves [start, mid] and [mid + 1, end] holds the merge sort of
      what it held. */
  ghost predicate SortedHalves(s0: seq<int>, s: seq<int>, f0: seq<Frame>, f: seq<Frame>,
                               start: int, mid: int, end: int) {
    && 0 <= start <= mid < end < |s0|
    && SameOutside(s, s0, start, end + 1)
    && s[start..mid + 1] == MergeSortedBy(s0[start..mid + 1], Id)
    && s[mid + 1..end + 1] == MergeSortedBy(s0[mid + 1..end + 1], Id)
    && |f| == |f0| + MergeWrites(mid + 1 - start) + MergeWrites(end - mid)
    && f[..|f0|] == f0
    && HighlightsIn(f[|f0|..], start + 1, end + 1)
  }

  /** A run of at most one bar is already its own merge sort. */
  lemma ShortRun(s: seq<int>, f: seq<Frame>, start: int, end: int)
    requires 0 <= start <= end + 1 <= |s| && start >= end
    ensures SortedRun(s, s, f, f, start, end)
  {
    assert f[|f|..] == [];
  }

  /** Sorting [start, mid] and then [mid + 1, end] sorts both halves. */
  lemma HalvesSorted(s0: seq<int>, s1: seq<int>, s2: seq<int>, f0: seq<Frame>, f1: seq<Frame>, f2: seq<Frame>,
                     start: int, mid: int, end: int)
    requires 0 <= start <= mid < end < |s0|
    requires SortedRun(s0, s1, f0, f1, start, mid)
    requires SortedRun(s1, s2, f1, f2, mid + 1, end)
    ensures SortedHalves(s0, s2, f0, f2, start, mid, end)
  {
    SliceOutside(s1, s0, start, mid + 1, mid + 1, end + 1);
    SliceOutside(s2, s1, mid + 1, end + 1, start, mid + 1);
    SameOutsideTrans(s0, s1, s2, start, mid + 1, mid + 1, end + 1, start, end + 1);
    HighlightsExtend(f0, f1, f2, start + 1, end + 1);
  }

  /** Merging the two sorted halves completes the sort of [start, end]. */
  lemma HalvesMerged(s0: seq<int>, s2: seq<int>, s3: seq<int>, f0: seq<Frame>, f2: seq<Frame>, f3: seq<Frame>,
                     start: int, mid: int, end: int)
    requires mid == (start + end) / 2
    requires SortedHalves(s0, s2, f0, f2, start, mid, end)
    requires SameOutside(s3, s2, start, end + 1)
    requires s3[start..end + 1] == MergedBy(s2[start..mid + 1], s2[mid + 1..end + 1], Id)
    requires |f3| == |f2| + (end + 1 - start) && f3[..|f2|] == f2
    requires FramesMerged(f3[|f2|..], s2, start, MergedBy(s2[start..mid + 1], s2[mid + 1..end + 1], Id))
    ensures SortedRun(s0, s3, f0, f3, start, end)
  {
    var seg := s0[start..end + 1];
    var h := Half(|seg|);
    assert mid + 1 - start == h;
    assert seg[..h] == s0[start..mid + 1];
    assert seg[h..] == s0[mid + 1..end + 1];
    assert s3[start..end + 1] == MergeSortedBy(seg, Id);
    SameOutsideTrans(s0, s2, s3, start, end + 1, start, end + 1, start, end + 1);
    MergeSortWrites(|f0|, |f2|, |f3|, start, mid, end);
    FramesMergedHighlights(f3[|f2|..], s2, start, MergedBy(s2[start..mid + 1], s2[mid + 1..end + 1], Id));
    HighlightsExtend(f0, f2, f3, start + 1, end + 1);
  }

  /** Sorts bars[start..end] by sorting its two halves, split at
      mid = floor((start + end) / 2), and merging them: the run ends up as its
      functional merge sort as `SortedRun` says. A run of at most one bar is
      left alone and draws nothing. */
  method MergeSort(bars: array<int>, ctx: Context, start: int, end: int)
    requires 0 <= start <= end + 1 <= bars.Length
    modifies bars, ctx
    ensures SortedRun(old(bars[..]), bars[..], old(ctx.frames), ctx.frames, start, end)
    ensures start >= end ==> bars[..] == old(bars[..]) && ctx.frames == old(ctx.frames)
    decreases end - start, 1
  {
    if start >= end {
      ShortRun(bars[..], ctx.frames, start, end);
      return;
    }
    var mid := (start + end) / 2;
    ghost var s0, f0 := bars[..], ctx.frames;
    SortHalves(bars, ctx, start, mid, end);
    ghost var s2, f2 := bars[..], ctx.frames;
    Merge(bars, ctx, start, mid, end);
    HalvesMerged(s0, s2, bars[..], f0, f2, ctx.frames, start, mid, end);
  }

  /** The two recursive calls of the sort of [start, end]: first
      [start, mid], then [mid + 1, end]. */
  method SortHalves(bars: array<int>, ctx: Context, start: int, mid: int, end: int)
    requires 0 <= start <= mid < end < bars.Length
    modifies bars, ctx
    ensures SortedHalves(old(bars[..]), bars[..], old(ctx.frames), ctx.frames, start, mid, end)
    decreases end - start, 0
  {
    ghost var s0, f0 := bars[..], ctx.frames;
    MergeSort(bars, ctx, start, mid);
    ghost var s1, f1 := bars[..], ctx.frames;
    MergeSort(bars, ctx, mid + 1, end);
    HalvesSorted(s0, s1, bars[..], f0, f1, ctx.frames, start, mid, end);
  }

  /** `mergeSort(bars, ctx)` with its default range, the whole array: the
      array ends up sorted, as a permutation of what it held, after one frame
      per write-back, at most n * Depth(n) of them. */
  method MergeSortAll(bars: array<int>, ctx: Context)
    modifies bars, ctx
    ensures bars[..] == MergeSortedBy(old(bars[..]), Id)
    ensures Sorted(bars[..])
    ensures multiset(bars[..]) == old(multiset(bars[..]))
    ensures |ctx.frames| == |old(ctx.frames)| + MergeWrites(bars.Length)
    ensures |ctx.frames| <= |old(ctx.frames)| + bars.Length * Depth(bars.Length)
    ensures ctx.frames[..|old(ctx.frames)|] == old(ctx.frames)
  {
    ghost var input := bars[..];
    MergeSort(bars, ctx, 0, bars.Length - 1);
    if bars.Length >= 1 {
      MergeWritesBound(bars.Length);
    }
    assert bars[..] == bars[0..bars.Length] && input == input[0..bars.Length];
    MergeSortSorted(input, Id);
    SortedById(bars[..]);
    MergeSortPermutes(input, Id);
  }
}
