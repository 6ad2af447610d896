/** Bubble sort with one rendered frame per outer pass. */
module Bubble {
  import opened Order
  import opened Render

  /** Every position from `b` on holds its final value: the suffix is in
      ascending order and no earlier element exceeds any element in it. */
  ghost predicate SuffixPlaced(s: seq<int>, b: int) {
    forall i, j :: 0 <= i < j < |s| && b <= j ==> s[i] <= s[j]
  }

  /** No element of s[0..last] exceeds the first element after `last`. */
  ghost predicate Capped(s: seq<int>, last: int)
    requires 0 <= last < |s|
  {
    last + 1 < |s| ==> forall k :: 0 <= k <= last ==> s[k] <= s[last + 1]
  }

  /** A pass that leaves the suffix after `last` as it was, keeps every
      element of s[0..last] under it and carries the largest of them to
      `last` extends the placed suffix by one position. */
  lemma PassPlaces(s0: seq<int>, s: seq<int>, last: int)
    requires 0 <= last < |s0| == |s|
    requires SuffixPlaced(s0, last + 1)
    requires s[last + 1..] == s0[last + 1..]
    requires Capped(s, last)
    requires forall k :: 0 <= k < last ==> s[k] <= s[last]
    ensures SuffixPlaced(s, last)
  {
    forall i, j | 0 <= i < j < |s| && last <= j
      ensures s[i] <= s[j]
    {
      if last < j {
        assert s[j] == s[last + 1..][j - last - 1] == s0[j];
        if last < i {
          assert s[i] == s[last + 1..][i - last - 1] == s0[i];
        } else {
          assert s[last + 1] == s[last + 1..][0] == s0[last + 1];
        }
      }
    }
  }

  /** The state after one compare-and-swap of positions `j` and `j + 1`. */
  function CompareSwap(s: seq<int>, j: int): (t: seq<int>)
    requires 0 <= j < |s| - 1
    ensures |t| == |s| && multiset(t) == multiset(s)
    ensures t[j] <= t[j + 1]
    ensures forall k :: 0 <= k < |s| && k != j && k != j + 1 ==> t[k] == s[k]
  {
    if s[j] > s[j + 1] then s[j := s[j + 1]][j + 1 := s[j]] else s
  }

  /** The array after the compare-and-swaps of positions j, j + 1, ..., last
      of a pass, in that order, starting from `s`. */
  function Bubbled(s: seq<int>, j: int, last: int): (t: seq<int>)
    requires 0 <= j && last < |s|
    ensures |t| == |s|
    decreases last - j
  {
    if j >= last then s else Bubbled(CompareSwap(s, j), j + 1, last)
  }

  /** What holds of the array `s` after `j` steps of a pass over [0, last]
      that started from `s0`: the suffix after `last` is as it was, s[0..last]
      stays under it, s[j] is the largest of s[0..j], and the multiset of
      values is that of `s0`. */
  ghost predicate PassInvariant(s0: seq<int>, s: seq<int>, j: int, last: int) {
    && 0 <= j <= last < |s0| == |s|
    && s[last + 1..] == s0[last + 1..]
    && Capped(s, last)
    && (forall k :: 0 <= k < j ==> s[k] <= s[j])
    && multiset(s) == multiset(s0)
  }

  /** A compare-and-swap of positions `j` and `j + 1` takes the pass one
      step further. */
  lemma CompareSwapKeeps(s0: seq<int>, s: seq<int>, j: int, last: int)
    requires PassInvariant(s0, s, j, last) && j < last
    ensures PassInvariant(s0, CompareSwap(s, j), j + 1, last)
  {
  }

  /** The remaining steps of a pass keep its invariant to the end. */
  lemma {:induction false} BubbledKeeps(s0: seq<int>, s: seq<int>, j: int, last: int)
    requires PassInvariant(s0, s, j, last)
    ensures PassInvariant(s0, Bubbled(s, j, last), last, last)
    decreases last - j
  {
    if j < last {
      CompareSwapKeeps(s0, s, j, last);
      BubbledKeeps(s0, CompareSwap(s, j), j + 1, last);
    }
  }

  /** A whole pass over [0, last] of an array whose suffix after `last` is
      placed extends the placed suffix to `last`, leaves the positions after
      `last` as they were, and permutes the array. */
  lemma BubbledPlaces(s: seq<int>, last: int)
    requires 0 <= last < |s| && SuffixPlaced(s, last + 1)
    ensures SuffixPlaced(Bubbled(s, 0, last), last)
    ensures Bubbled(s, 0, last)[last + 1..] == s[last + 1..]
    ensures multiset(Bubbled(s, 0, last)) == multiset(s)
  {
    BubbledKeeps(s, s, 0, last);
    PassPlaces(s, Bubbled(s, 0, last), last);
  }

  /** One inner pass of bubble sort over positions [0, last]: each adjacent
      pair out of order is swapped, in order of position, which carries the
      largest of them to `last`. Positions after `last` are not touched. */
  method Pass(bars: array<int>, last: int)
    requires 0 <= last < bars.Length
    requires SuffixPlaced(bars[..], last + 1)
    modifies bars
    ensures bars[..] == Bubbled(old(bars[..]), 0, last)
    ensures SuffixPlaced(bars[..], last)
    ensures multiset(bars[..]) == old(multiset(bars[..]))
  {
    ghost var s0 := bars[..];
    ghost var cur := s0;
    var j := 0;
    while j < last
      invariant 0 <= j <= last
      invariant bars[..] == cur
      invariant Bubbled(cur, j, last) == Bubbled(s0, 0, last)
    {
      cur := CompareSwap(cur, j);
      if bars[j] > bars[j + 1] {
        Swap(bars, j, j + 1);
      }
      j := j + 1;
    }
    BubbledPlaces(s0, last);
  }

  /** The frames drawn so far by the outer loop over an array of length `n`
      holding `input`: the one of pass `t` highlights the boundary
      `n - t - 1`, shows a permutation of the input, and every bar from the
      boundary on in its final place. */
  ghost predicate FramesBubbled(drawn: seq<Frame>, n: int, input: seq<int>) {
    forall t :: 0 <= t < |drawn| ==>
      && drawn[t].highlight == n - t - 1
      && SuffixPlaced(drawn[t].bars, n - t - 1)
      && multiset(drawn[t].bars) == multiset(input)
  }

  lemma FramesBubbledAppend(drawn: seq<Frame>, n: int, input: seq<int>, s: seq<int>)
    requires FramesBubbled(drawn, n, input)
    requires SuffixPlaced(s, n - |drawn| - 1) && multiset(s) == multiset(input)
    ensures FramesBubbled(drawn + [Frame(s, n - |drawn| - 1)], n, input)
  {
  }

  /** Sorts `bars` in place by swapping adjacent out-of-order pairs. After
      pass `i` the frame drawn highlights the boundary `n - i - 1`, and from
      that boundary on every bar already stands in its final place; a last
      frame without highlight shows the sorted array. */
  method BubbleSort(bars: array<int>, ctx: Context)
    modifies bars, ctx
    ensures Sorted(bars[..])
    ensures multiset(bars[..]) == old(multiset(bars[..]))
    ensures |ctx.frames| == |old(ctx.frames)| + Passes(bars.Length) + 1
    ensures ctx.frames[..|old(ctx.frames)|] == old(ctx.frames)
    ensures FramesBubbled(ctx.frames[|old(ctx.frames)|..][..Passes(bars.Length)], bars.Length, old(bars[..]))
    ensures ctx.frames[|ctx.frames| - 1] == Frame(bars[..], NO_HIGHLIGHT)
  {
    var n := bars.Length;
    ghost var drawn: seq<Frame> := [];
    var i := 0;
    while i < n - 1
      invariant 0 <= i <= Passes(n)
      invariant SuffixPlaced(bars[..], n - i)
      invariant multiset(bars[..]) == old(multiset(bars[..]))
      invariant ctx.frames == old(ctx.frames) + drawn && |drawn| == i
      invariant FramesBubbled(drawn, n, old(bars[..]))
    {
      Pass(bars, n - i - 1);
      FramesBubbledAppend(drawn, n, old(bars[..]), bars[..]);
      AppendFrame(old(ctx.frames), drawn, Frame(bars[..], n - i - 1));
      ctx.DrawBars(bars, n - i - 1);
      drawn := drawn + [Frame(bars[..], n - i - 1)];
      i := i + 1;
    }
    ctx.DrawBars(bars, NO_HIGHLIGHT);
    assert ctx.frames[|old(ctx.frames)|..] == drawn + [Frame(bars[..], NO_HIGHLIGHT)];
    assert ctx.frames[|old(ctx.frames)|..][..i] == drawn;
  }
}
