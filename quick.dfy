/** Quicksort with the Lomuto partition around the last element of a range,
    one frame per swap of the partition. */
module Quick {
  import opened Order
  import opened Render

  /** The partition loop of [left, right] around `pivot` after it has looked
      at [left, j): the values below the pivot found so far sit in [left, i),
      the others in [i, j), the values from `j` on not yet moved, the pivot
      still at `right`, and nothing outside the range has moved. */
  ghost predicate Partitioning(s0: seq<int>, s: seq<int>, left: int, right: int, i: int, j: int) {
    && |s| == |s0|
    && 0 <= left <= i <= j <= right < |s|
    && s[right] == s0[right]
    && (forall k :: left <= k < i ==> s[k] < s0[right])
    && (forall k :: i <= k < j ==> s0[right] <= s[k])
    && (forall k :: j <= k < right ==> s[k] == s0[k])
    && SameOutside(s, s0, left, right + 1)
    && multiset(s) == multiset(s0)
  }

  /** The frames drawn by the partition loop of [left, right] of `s0`
      around `pivot`: the t-th highlights the position just swapped, where
      the loop found a value of `s0` below the pivot, which lies in
      [left + t, right), later frames further right, and it shows
      [left, left + t] already holding values below the pivot. */
  ghost predicate FramesPartitioned(drawn: seq<Frame>, s0: seq<int>, left: int, right: int, pivot: int) {
    && 0 <= left && right <= |s0|
    && (forall t :: 0 <= t < |drawn| ==>
          && left + t <= drawn[t].highlight < right
          && s0[drawn[t].highlight] < pivot
          && left + t < |drawn[t].bars|
          && forall q :: left <= q <= left + t ==> drawn[t].bars[q] < pivot)
    && (forall t, u :: 0 <= t < u < |drawn| ==> drawn[t].highlight < drawn[u].highlight)
  }

  /** Looking at s[j] when it is below the pivot: it is swapped to `i` and
      the boundary moves up. */
  lemma SwapBelow(s0: seq<int>, s: seq<int>, left: int, right: int, i: int, j: int)
    requires Partitioning(s0, s, left, right, i, j) && j < right && s[j] < s0[right]
    ensures Partitioning(s0, s[i := s[j]][j := s[i]], left, right, i + 1, j + 1)
  {
    var s' := s[i := s[j]][j := s[i]];
    SwapPermutes(s, i, j);
    assert forall k :: left <= k < i ==> s'[k] == s[k];
    assert forall k :: i < k < j ==> s'[k] == s[k];
    assert s'[i] < s0[right];
    assert s'[j] == s[i] || i == j;
    assert forall k :: j < k < |s| ==> s'[k] == s[k];
  }

  /** The frame drawn after such a swap, highlighting `j`, extends the
      frames of the partition. */
  lemma FramesPartitionedAppend(drawn: seq<Frame>, s0: seq<int>, left: int, right: int, pivot: int,
                                 s: seq<int>, j: int)
    requires FramesPartitioned(drawn, s0, left, right, pivot)
    requires left + |drawn| <= j < right && left + |drawn| < |s|
    requires s0[j] < pivot
    requires forall t :: 0 <= t < |drawn| ==> drawn[t].highlight < j
    requires forall q :: left <= q <= left + |drawn| ==> s[q] < pivot
    ensures FramesPartitioned(drawn + [Frame(s, j)], s0, left, right, pivot)
  {
    var drawn' := drawn + [Frame(s, j)];
    forall t | 0 <= t < |drawn'|
      ensures && left + t <= drawn'[t].highlight < right
              && s0[drawn'[t].highlight] < pivot
              && left + t < |drawn'[t].bars|
              && forall q :: left <= q <= left + t ==> drawn'[t].bars[q] < pivot
    {
      if t < |drawn| {
        assert drawn'[t] == drawn[t];
      }
    }
  }

  /** Looking at s[j] when it is not below the pivot: only `j` moves on. */
  lemma SkipAbove(s0: seq<int>, s: seq<int>, left: int, right: int, i: int, j: int)
    requires Partitioning(s0, s, left, right, i, j) && j < right && s0[right] <= s[j]
    ensures Partitioning(s0, s, left, right, i, j + 1)
  {
  }

  /** Exchanging the pivot into the boundary `i` once every value of the
      range has been looked at. */
  lemma PlacePivot(s0: seq<int>, s: seq<int>, left: int, right: int, i: int)
    requires Partitioning(s0, s, left, right, i, right)
    ensures var s' := s[i := s[right]][right := s[i]];
            && s'[i] == s0[right]
            && (forall k :: left <= k < i ==> s'[k] < s'[i])
            && (forall k :: i < k <= right ==> s'[i] <= s'[k])
            && SameOutside(s', s0, left, right + 1)
            && multiset(s') == multiset(s0)
  {
    SwapPermutes(s, i, right);
  }

  /** The frames of a partition, the last one highlighting where the pivot
      went, all highlight positions of [left, right]. */
  lemma PartitionHighlights(drawn: seq<Frame>, s0: seq<int>, left: int, right: int, pivot: int,
                             last: Frame)
    requires FramesPartitioned(drawn, s0, left, right, pivot)
    requires left <= last.highlight <= right
    ensures HighlightsIn(drawn + [last], left, right)
  {
    forall t | 0 <= t < |drawn| + 1
      ensures left <= (drawn + [last])[t].highlight <= right
    {
      if t < |drawn| {
        assert (drawn + [last])[t] == drawn[t];
      }
    }
  }

  /** The log after a partition: the frames before it, the swap frames,
      then the frame of the pivot's exchange. */
  lemma PartitionLog(base: seq<Frame>, drawn: seq<Frame>, s0: seq<int>, left: int, right: int,
                     pivot: int, last: Frame)
    requires FramesPartitioned(drawn, s0, left, right, pivot)
    requires left <= last.highlight <= right
    ensures var log := (base + drawn) + [last];
            && |log| == |base| + |drawn| + 1
            && log[..|base|] == base
            && FramesPartitioned(log[|base|..][..|drawn|], s0, left, right, pivot)
            && log[|log| - 1] == last
            && HighlightsIn(log[|base|..], left, right)
  {
    var log := (base + drawn) + [last];
    assert log[|base|..] == drawn + [last];
    assert log[|base|..][..|drawn|] == drawn;
    PartitionHighlights(drawn, s0, left, right, pivot, last);
  }

  /** Everything the partition loop keeps after looking at [left, j). */
  ghost predicate PartitionLoop(s0: seq<int>, s: seq<int>, left: int, right: int, i: int, j: int,
                                drawn: seq<Frame>) {
    && Partitioning(s0, s, left, right, i, j)
    && FramesPartitioned(drawn, s0, left, right, s0[right])
    && |drawn| == i - left
    && (forall t :: 0 <= t < |drawn| ==> drawn[t].highlight < j)
  }

  /** One iteration of the partition loop: a value below the pivot is
      swapped down to the boundary `i`, a frame highlighting `j` is drawn and
      the boundary moves up; any other value is passed over. */
  method Visit(bars: array<int>, ctx: Context, left: int, right: int, pivot: int, i: int, j: int,
               ghost s0: seq<int>, ghost base: seq<Frame>, ghost drawn: seq<Frame>)
      returns (i': int, ghost drawn': seq<Frame>)
    requires PartitionLoop(s0, bars[..], left, right, i, j, drawn)
    requires j < right && pivot == s0[right]
    requires ctx.frames == base + drawn
    modifies bars, ctx
    ensures PartitionLoop(s0, bars[..], left, right, i', j + 1, drawn')
    ensures ctx.frames == base + drawn'
  {
    if bars[j] < pivot {
      SwapBelow(s0, bars[..], left, right, i, j);
      Swap(bars, i, j);
      FramesPartitionedAppend(drawn, s0, left, right, pivot, bars[..], j);
      AppendFrame(base, drawn, Frame(bars[..], j));
      ctx.DrawBars(bars, j);
      drawn' := drawn + [Frame(bars[..], j)];
      i' := i + 1;
    } else {
      SkipAbove(s0, bars[..], left, right, i, j);
      i', drawn' := i, drawn;
    }
  }

  /** Lomuto partition of [left, right] around the pivot bars[right]: each
      value below the pivot is swapped down to the boundary `i` and a frame
      highlighting its old position `j` is drawn; finally the pivot is
      exchanged into `i`, a frame highlighting it is drawn, and `i` is
      returned. */
  method Partition(bars: array<int>, ctx: Context, left: int, right: int) returns (p: int)
    requires 0 <= left <= right < bars.Length
    modifies bars, ctx
    ensures left <= p <= right
    ensures bars[p] == old(bars[right])
    ensures forall k :: left <= k < p ==> bars[k] < bars[p]
    ensures forall k :: p < k <= right ==> bars[p] <= bars[k]
    ensures SameOutside(bars[..], old(bars[..]), left, right + 1)
    ensures multiset(bars[..]) == old(multiset(bars[..]))
    ensures |ctx.frames| == |old(ctx.frames)| + (p - left) + 1
    ensures ctx.frames[..|old(ctx.frames)|] == old(ctx.frames)
    ensures FramesPartitioned(ctx.frames[|old(ctx.frames)|..][..p - left], old(bars[..]), left, right,
                              old(bars[right]))
    ensures ctx.frames[|ctx.frames| - 1] == Frame(bars[..], p)
    ensures HighlightsIn(ctx.frames[|old(ctx.frames)|..], left, right)
  {
    var pivot := bars[right];
    ghost var s0, base := bars[..], ctx.frames;
    ghost var drawn: seq<Frame> := [];
    var i := left;
    for j := left to right
      invariant PartitionLoop(s0, bars[..], left, right, i, j, drawn)
      invariant ctx.frames == base + drawn
    {
      i, drawn := Visit(bars, ctx, left, right, pivot, i, j, s0, base, drawn);
    }
    assert |drawn| == i - left && pivot == s0[right];
    PlacePivot(s0, bars[..], left, right, i);
    Swap(bars, i, right);
    ctx.DrawBars(bars, i);
    PartitionLog(base, drawn, s0, left, right, pivot, Frame(bars[..], i));
    p := i;
  }

  /** A range made of a sorted part below `p`, all less than the value at
      `p`, and a sorted part above `p`, none less than it, is sorted. */
  lemma JoinSorted(s: seq<int>, left: int, p: int, right: int)
    requires 0 <= left <= p <= right < |s|
    requires SortedBetween(s, left, p) && SortedBetween(s, p + 1, right + 1)
    requires forall k :: left <= k < p ==> s[k] < s[p]
    requires forall k :: p < k <= right ==> s[p] <= s[k]
    ensures SortedBetween(s, left, right + 1)
  {
  }

  /** The two sides of a partition, each sorted in place and each a
      permutation of what it held, make the whole range sorted. */
  lemma SidesSorted(s1: seq<int>, s2: seq<int>, s3: seq<int>, left: int, p: int, right: int)
    requires 0 <= left <= p <= right < |s1|
    requires forall k :: left <= k < p ==> s1[k] < s1[p]
    requires forall k :: p < k <= right ==> s1[p] <= s1[k]
    requires SameOutside(s2, s1, left, p) && SortedBetween(s2, left, p)
    requires multiset(s2) == multiset(s1)
    requires SameOutside(s3, s2, p + 1, right + 1) && SortedBetween(s3, p + 1, right + 1)
    requires multiset(s3) == multiset(s2)
    ensures SortedBetween(s3, left, right + 1)
  {
    var pivot := s1[p];
    RangePermutation(s1, s2, left, p);
    RangePreserved(s1, s2, left, p, x => x < pivot);
    RangePermutation(s2, s3, p + 1, right + 1);
    RangePreserved(s2, s3, p + 1, right + 1, x => pivot <= x);
    assert s3[p] == s2[p] == pivot;
    assert forall k :: left <= k < p ==> s3[k] == s2[k];
    JoinSorted(s3, left, p, right);
  }

  /** Sorts bars[left..right] by partitioning it and sorting the part before
      the pivot and the part after it. A range of at most one bar is left
      alone. The range ends up sorted and a permutation of what it held,
      nothing outside it changes, and every frame drawn highlights a position
      in [left, right]. */
  method QuickSort(bars: array<int>, ctx: Context, left: int, right: int)
    requires 0 <= left <= right + 1 <= bars.Length
    modifies bars, ctx
    ensures SortedBetween(bars[..], left, right + 1)
    ensures multiset(bars[..]) == old(multiset(bars[..]))
    ensures SameOutside(bars[..], old(bars[..]), left, right + 1)
    ensures |old(ctx.frames)| <= |ctx.frames|
    ensures ctx.frames[..|old(ctx.frames)|] == old(ctx.frames)
    ensures HighlightsIn(ctx.frames[|old(ctx.frames)|..], left, right)
    ensures left >= right ==> bars[..] == old(bars[..]) && ctx.frames == old(ctx.frames)
    decreases right - left
  {
    if left < right {
      ghost var s0, f0 := bars[..], ctx.frames;
      var pivotIndex := Partition(bars, ctx, left, right);
      ghost var s1, f1 := bars[..], ctx.frames;
      QuickSort(bars, ctx, left, pivotIndex - 1);
      ghost var s2, f2 := bars[..], ctx.frames;
      HighlightsWiden(f2[|f1|..], left, pivotIndex - 1, left, right);
      HighlightsExtend(f0, f1, f2, left, right);
      QuickSort(bars, ctx, pivotIndex + 1, right);
      HighlightsWiden(ctx.frames[|f2|..], pivotIndex + 1, right, left, right);
      HighlightsExtend(f0, f2, ctx.frames, left, right);
      SidesSorted(s1, s2, bars[..], left, pivotIndex, right);
      SameOutsideTrans(s0, s1, s2, left, right + 1, left, pivotIndex, left, right + 1);
      SameOutsideTrans(s0, s2, bars[..], left, right + 1, pivotIndex + 1, right + 1, left, right + 1);
    }
  }

  /** `quickSort(bars, ctx)` with its default range, the whole array: the
      array ends up sorted, as a permutation of what it held. */
  method QuickSortAll(bars: array<int>, ctx: Context)
    modifies bars, ctx
    ensures Sorted(bars[..])
    ensures multiset(bars[..]) == old(multiset(bars[..]))
    ensures |old(ctx.frames)| <= |ctx.frames|
    ensures ctx.frames[..|old(ctx.frames)|] == old(ctx.frames)
  {
    QuickSort(bars, ctx, 0, bars.Length - 1);
  }
}
