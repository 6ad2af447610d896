/** Selection sort with one rendered frame per outer iteration. */
module Selection {
  import opened Order
  import opened Render

  /** Every position below `b` holds its final value: the prefix is in
      ascending order and no later element is smaller than any element of it. */
  ghost predicate PrefixPlaced(s: seq<int>, b: int) {
    forall i, j :: 0 <= i < j < |s| && i < b ==> s[i] <= s[j]
  }

  /** The inner scan of iteration `i`: the index of the first minimum of
      bars[i..], found by moving `min` only to a strictly smaller element.
      It differs from `i` exactly when some later element is strictly
      smaller than bars[i], which is when the source swaps. */
  method ScanMin(bars: array<int>, i: int) returns (min: int)
    requires 0 <= i < bars.Length
    ensures i <= min < bars.Length
    ensures forall k :: i <= k < bars.Length ==> bars[min] <= bars[k]
    ensures forall k :: i <= k < min ==> bars[min] < bars[k]
    ensures min == i <==> forall k :: i <= k < bars.Length ==> bars[i] <= bars[k]
  {
    min := i;
    for j := i + 1 to bars.Length
      invariant i <= min < j
      invariant forall k :: i <= k < j ==> bars[min] <= bars[k]
      invariant forall k :: i <= k < min ==> bars[min] < bars[k]
    {
      if bars[j] < bars[min] {
        min := j;
      }
    }
  }

  /** Exchanging position `i` with a minimum of s[i..] extends the placed
      prefix by one position. */
  lemma SelectPlaces(s: seq<int>, i: int, min: int)
    requires 0 <= i <= min < |s|
    requires PrefixPlaced(s, i)
    requires forall k :: i <= k < |s| ==> s[min] <= s[k]
    ensures PrefixPlaced(s[i := s[min]][min := s[i]], i + 1)
  {
  }

  /** The body of iteration `i` before its frame is drawn: scan bars[i..]
      for its first minimum `min` and exchange it into position `i` when it
      lies elsewhere; when nothing later is strictly smaller the array is
      left as it was. Position `i` then holds the minimum of what bars[i..]
      held and the placed prefix grows by one position. */
  method PlaceMinimum(bars: array<int>, i: int) returns (min: int)
    requires 0 <= i < bars.Length
    requires PrefixPlaced(bars[..], i)
    modifies bars
    ensures i <= min < bars.Length
    ensures forall k :: i <= k < bars.Length ==> old(bars[min]) <= old(bars[k])
    ensures forall k :: i <= k < min ==> old(bars[min]) < old(bars[k])
    ensures bars[..] == if min == i then old(bars[..])
                        else old(bars[..])[i := old(bars[min])][min := old(bars[i])]
    ensures bars[i] in old(bars[i..])
    ensures forall k :: i <= k < bars.Length ==> bars[i] <= old(bars[k])
    ensures bars[..i] == old(bars[..i])
    ensures PrefixPlaced(bars[..], i + 1)
    ensures multiset(bars[..]) == old(multiset(bars[..]))
  {
    min := ScanMin(bars, i);
    ghost var cur := bars[..];
    assert cur[min] == cur[i..][min - i];
    SelectPlaces(cur, i, min);
    if min != i {
      Swap(bars, i, min);
    } else {
      assert bars[..] == cur[i := cur[min]][min := cur[i]];
    }
  }

  /** The frames drawn so far by the outer loop on the input `input`: the
      one of iteration `t` highlights `t`, shows a permutation of the input
      and positions 0..t in their final places. */
  ghost predicate FramesPlaced(drawn: seq<Frame>, input: seq<int>) {
    forall t :: 0 <= t < |drawn| ==>
      && drawn[t].highlight == t
      && PrefixPlaced(drawn[t].bars, t + 1)
      && multiset(drawn[t].bars) == multiset(input)
  }

  lemma FramesPlacedAppend(drawn: seq<Frame>, input: seq<int>, s: seq<int>)
    requires FramesPlaced(drawn, input) && PrefixPlaced(s, |drawn| + 1)
    requires multiset(s) == multiset(input)
    ensures FramesPlaced(drawn + [Frame(s, |drawn|)], input)
  {
  }

  /** Sorts `bars` in place by moving the minimum of the unsorted suffix to
      its front. The frame drawn after iteration `i` highlights `i` and shows
      positions 0..i already in their final places; a last frame without
      highlight shows the sorted array. */
  method SelectionSort(bars: array<int>, ctx: Context)
    modifies bars, ctx
    ensures Sorted(bars[..])
    ensures multiset(bars[..]) == old(multiset(bars[..]))
    ensures |ctx.frames| == |old(ctx.frames)| + Passes(bars.Length) + 1
    ensures ctx.frames[..|old(ctx.frames)|] == old(ctx.frames)
    ensures FramesPlaced(ctx.frames[|old(ctx.frames)|..][..Passes(bars.Length)], old(bars[..]))
    ensures ctx.frames[|ctx.frames| - 1] == Frame(bars[..], NO_HIGHLIGHT)
  {
    var n := bars.Length;
    ghost var drawn: seq<Frame> := [];
    var i := 0;
    while i < n - 1
      invariant 0 <= i <= Passes(n)
      invariant PrefixPlaced(bars[..], i)
      invariant multiset(bars[..]) == old(multiset(bars[..]))
      invariant ctx.frames == old(ctx.frames) + drawn && |drawn| == i
      invariant FramesPlaced(drawn, old(bars[..]))
    {
      var min := PlaceMinimum(bars, i);
      FramesPlacedAppend(drawn, old(bars[..]), bars[..]);
      AppendFrame(old(ctx.frames), drawn, Frame(bars[..], i));
      ctx.DrawBars(bars, i);
      drawn := drawn + [Frame(bars[..], i)];
      i := i + 1;
    }
    ctx.DrawBars(bars, NO_HIGHLIGHT);
    assert ctx.frames[|old(ctx.frames)|..] == drawn + [Frame(bars[..], NO_HIGHLIGHT)];
    assert ctx.frames[|old(ctx.frames)|..][..i] == drawn;
  }
}
