/** Insertion sort with one rendered frame per outer iteration. */
module Insertion {
  import opened Order
  import opened Render

  /** Where the shifting loop puts `key` into `s`: scanning from the right,
      every element greater than `key` moves one place up, and `key` lands
      just after the rightmost element not greater than it. */
  function Insert(s: seq<int>, key: int): (r: seq<int>)
    ensures |r| == |s| + 1
    decreases |s|
  {
    if |s| == 0 || s[|s| - 1] <= key then s + [key]
    else Insert(s[..|s| - 1], key) + [s[|s| - 1]]
  }

  /** Inserting adds exactly the key to the multiset of values. */
  lemma {:induction false} InsertPermutes(s: seq<int>, key: int)
    ensures multiset(Insert(s, key)) == multiset(s) + multiset{key}
  {
    if |s| > 0 && s[|s| - 1] > key {
      InsertPermutes(s[..|s| - 1], key);
      assert s == s[..|s| - 1] + [s[|s| - 1]];
    }
  }

  /** Inserting into a sorted sequence keeps it sorted. */
  lemma {:induction false} InsertSorted(s: seq<int>, key: int)
    requires Sorted(s)
    ensures Sorted(Insert(s, key))
  {
    if |s| > 0 && s[|s| - 1] > key {
      var init, last := s[..|s| - 1], s[|s| - 1];
      InsertSorted(init, key);
      var r := Insert(init, key);
      InsertPermutes(init, key);
      forall k | 0 <= k < |r|
        ensures r[k] <= last
      {
        assert r[k] in multiset(init) + multiset{key};
        if r[k] != key {
          assert r[k] in init;
        }
      }
    }
  }

  /** The array after the outer loop has run over the whole of `s`: each
      element in turn inserted into the sorted prefix before it. */
  function InsertionSorted(s: seq<int>): (r: seq<int>)
    ensures |r| == |s|
    decreases |s|
  {
    if |s| == 0 then []
    else Insert(InsertionSorted(s[..|s| - 1]), s[|s| - 1])
  }

  /** Insertion sorting rearranges the input without adding or losing
      values. */
  lemma {:induction false} InsertionSortedPermutes(s: seq<int>)
    ensures multiset(InsertionSorted(s)) == multiset(s)
  {
    if |s| > 0 {
      InsertionSortedPermutes(s[..|s| - 1]);
      InsertPermutes(InsertionSorted(s[..|s| - 1]), s[|s| - 1]);
      assert s == s[..|s| - 1] + [s[|s| - 1]];
    }
  }

  /** Insertion sorting produces ascending order. */
  lemma {:induction false} InsertionSortedSorted(s: seq<int>)
    ensures Sorted(InsertionSorted(s))
  {
    if |s| > 0 {
      InsertionSortedSorted(s[..|s| - 1]);
      InsertSorted(InsertionSorted(s[..|s| - 1]), s[|s| - 1]);
    }
  }

  /** Every sorted permutation of `s` is its insertion sort: whichever
      procedure sorted the bars, the result is the same sequence. */
  lemma SortedIsInsertionSorted(s: seq<int>, t: seq<int>)
    requires Sorted(t) && multiset(t) == multiset(s)
    ensures t == InsertionSorted(s)
  {
    InsertionSortedSorted(s);
    InsertionSortedPermutes(s);
    SortedUnique(t, InsertionSorted(s));
  }

  /** The state of the shifting loop of one iteration: `prefix` is the sorted
      prefix the iteration started from, `key` the element being inserted,
      `rest` the untouched elements after it. Positions 0..j still hold the
      prefix, the hole sits at j + 1, and what lies above the hole completes
      the insertion. */
  ghost predicate Shifting(prefix: seq<int>, key: int, rest: seq<int>, s: seq<int>, j: int) {
    && -1 <= j < |prefix|
    && |s| == |prefix| + 1 + |rest|
    && s[..j + 1] == prefix[..j + 1]
    && Insert(prefix[..j + 1], key) + s[j + 2..|prefix| + 1] == Insert(prefix, key)
    && s[|prefix| + 1..] == rest
  }

  /** Moving the element below the hole up by one keeps the loop state. */
  lemma ShiftStep(prefix: seq<int>, key: int, rest: seq<int>, s: seq<int>, j: int)
    requires Shifting(prefix, key, rest, s, j)
    requires 0 <= j && s[j] > key
    ensures Shifting(prefix, key, rest, s[j + 1 := s[j]], j - 1)
  {
    var t := s[j + 1 := s[j]];
    assert prefix[..j + 1][..j] == prefix[..j];
    assert prefix[..j + 1][j] == s[j];
    assert t[..j] == s[..j] == prefix[..j];
    assert Insert(prefix[..j + 1], key) == Insert(prefix[..j], key) + [s[j]];
    assert t[j + 1..|prefix| + 1] == [s[j]] + s[j + 2..|prefix| + 1];
  }

  /** Once the element below the hole is not greater than `key` (or there is
      none), writing `key` into the hole completes the insertion. */
  lemma ShiftDone(prefix: seq<int>, key: int, rest: seq<int>, s: seq<int>, j: int)
    requires Shifting(prefix, key, rest, s, j)
    requires j < 0 || s[j] <= key
    ensures s[j + 1 := key] == Insert(prefix, key) + rest
  {
    var t := s[j + 1 := key];
    var i := |prefix|;
    if j >= 0 {
      assert prefix[..j + 1][j] == s[..j + 1][j] == s[j];
    }
    assert Insert(prefix[..j + 1], key) == prefix[..j + 1] + [key];
    assert t[..j + 1] == s[..j + 1];
    assert t[j + 2..i + 1] == s[j + 2..i + 1];
    assert t[..i + 1] == t[..j + 1] + [key] + t[j + 2..i + 1];
    assert t[i + 1..] == s[i + 1..];
    assert t == t[..i + 1] + t[i + 1..];
  }

  /** One outer iteration on an array `s` whose prefix of length `i` is the
      insertion sort of the input's prefix and whose elements from `i` on are
      the input's: afterwards the same holds of the prefix of length i + 1. */
  lemma InsertStep(input: seq<int>, s: seq<int>, i: int)
    requires 0 <= i < |input| == |s|
    requires s[..i] == InsertionSorted(input[..i]) && s[i..] == input[i..]
    ensures var t := Insert(s[..i], s[i]) + s[i + 1..];
            && t[..i + 1] == InsertionSorted(input[..i + 1])
            && t[i + 1..] == input[i + 1..]
            && Sorted(t[..i + 1])
  {
    var t := Insert(s[..i], s[i]) + s[i + 1..];
    assert s[i] == s[i..][0] == input[i..][0] == input[i];
    assert input[..i + 1][..i] == input[..i];
    assert t[..i + 1] == Insert(s[..i], s[i]);
    assert s[i + 1..] == s[i..][1..] == input[i..][1..] == input[i + 1..];
    InsertionSortedSorted(input[..i + 1]);
  }

  /** The body of outer iteration `i` before its frame is drawn: bars[i] is
      taken out as the key, greater elements of bars[0..i-1] shift up one
      place, and the key is written into the gap. Elements after `i` are not
      touched. */
  method InsertKey(bars: array<int>, i: int)
    requires 0 <= i < bars.Length
    modifies bars
    ensures bars[..] == Insert(old(bars[..i]), old(bars[i])) + old(bars[i + 1..])
  {
    var key := bars[i];
    var j := i - 1;
    ghost var prefix, rest := bars[..i], bars[i + 1..];
    ghost var cur := bars[..];
    assert cur[j + 2..|prefix| + 1] == [];
    while j >= 0 && bars[j] > key
      invariant bars[..] == cur
      invariant Shifting(prefix, key, rest, cur, j)
    {
      ShiftStep(prefix, key, rest, cur, j);
      cur := cur[j + 1 := cur[j]];
      bars[j + 1] := bars[j];
      j := j - 1;
    }
    ShiftDone(prefix, key, rest, cur, j);
    bars[j + 1] := key;
    assert bars[..] == cur[j + 1 := key];
  }

  /** The frames drawn by the outer loop for an input `input`: the one of
      iteration `t + 1` highlights `t + 1` and shows the array with its prefix
      0..t+1 sorted by insertion and the elements after it untouched. */
  ghost predicate FramesInserted(drawn: seq<Frame>, input: seq<int>) {
    forall t {:trigger drawn[t]} :: 0 <= t < |drawn| ==>
      && drawn[t].highlight == t + 1
      && t + 2 <= |input| == |drawn[t].bars|
      && drawn[t].bars[..t + 2] == InsertionSorted(input[..t + 2])
      && Sorted(drawn[t].bars[..t + 2])
      && drawn[t].bars[t + 2..] == input[t + 2..]
  }

  lemma FramesInsertedAppend(drawn: seq<Frame>, input: seq<int>, s: seq<int>)
    requires FramesInserted(drawn, input)
    requires |drawn| + 2 <= |input| == |s|
    requires s[..|drawn| + 2] == InsertionSorted(input[..|drawn| + 2])
    requires Sorted(s[..|drawn| + 2])
    requires s[|drawn| + 2..] == input[|drawn| + 2..]
    ensures FramesInserted(drawn + [Frame(s, |drawn| + 1)], input)
  {
  }

  /** Sorts `bars` in place by inserting each element into the sorted prefix
      before it. The result is the functional insertion sort of the input.
      The frame drawn after iteration `i` highlights `i` and shows the array
      with the prefix 0..i sorted and the rest untouched; a last frame without
      highlight shows the sorted array. */
  method InsertionSort(bars: array<int>, ctx: Context)
    modifies bars, ctx
    ensures bars[..] == InsertionSorted(old(bars[..]))
    ensures Sorted(bars[..])
    ensures multiset(bars[..]) == old(multiset(bars[..]))
    ensures |ctx.frames| == |old(ctx.frames)| + Passes(bars.Length) + 1
    ensures ctx.frames[..|old(ctx.frames)|] == old(ctx.frames)
    ensures FramesInserted(ctx.frames[|old(ctx.frames)|..][..Passes(bars.Length)], old(bars[..]))
    ensures ctx.frames[|ctx.frames| - 1] == Frame(bars[..], NO_HIGHLIGHT)
  {
    var n := bars.Length;
    ghost var input := bars[..];
    ghost var drawn: seq<Frame> := [];
    if n > 0 {
      assert input[..1] == [input[0]];
      assert InsertionSorted(input[..1]) == [input[0]];
    }
    var i := 1;
    while i < n
      invariant 1 <= i <= Passes(n) + 1
      invariant i <= n ==> bars[..i] == InsertionSorted(input[..i]) && bars[i..] == input[i..]
      invariant ctx.frames == old(ctx.frames) + drawn && |drawn| == i - 1
      invariant FramesInserted(drawn, input)
    {
      InsertStep(input, bars[..], i);
      InsertKey(bars, i);
      FramesInsertedAppend(drawn, input, bars[..]);
      AppendFrame(old(ctx.frames), drawn, Frame(bars[..], i));
      ctx.DrawBars(bars, i);
      drawn := drawn + [Frame(bars[..], i)];
      i := i + 1;
    }
    assert |drawn| == Passes(n);
    assert bars[..] == InsertionSorted(input) by {
      if n > 0 {
        assert bars[..] == bars[..n] && input == input[..n];
      }
    }
    InsertionSortedSorted(input);
    InsertionSortedPermutes(input);
    AppendFrame(old(ctx.frames), drawn, Frame(bars[..], NO_HIGHLIGHT));
    ctx.DrawBars(bars, NO_HIGHLIGHT);
    assert ctx.frames[|old(ctx.frames)|..] == drawn + [Frame(bars[..], NO_HIGHLIGHT)];
    assert ctx.frames[|old(ctx.frames)|..][..|drawn|] == drawn;
  }
}
