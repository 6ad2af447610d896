/** One run of the visualiser: the bars are drawn as generated, then sorted
    by the procedure the selector names. */
module Session {
  import opened Order
  import opened Render
  import Bubble
  import Selection
  import Insertion
  import Merging
  import Quick

  /** The selector values that name a sorting procedure. */
  predicate Known(algo: string) {
    algo == "bubble" || algo == "selection" || algo == "insertion" || algo == "merge" || algo == "quick"
  }

  /** A sequence whose suffix from `b` is placed in the sense of bubble sort
      (ascending, and no earlier value above any of it) holds there what the
      sorted arrangement of its values holds: those bars are in their final
      places. */
  lemma PlacedSuffixIsFinal(s: seq<int>, input: seq<int>, b: int)
    requires 0 <= b <= |s| && Bubble.SuffixPlaced(s, b)
    requires |s| == |input| && multiset(s) == multiset(input)
    ensures s[b..] == Insertion.InsertionSorted(input)[b..]
  {
    var u := Insertion.InsertionSorted(s[..b]) + s[b..];
    SortedBelowSuffix(s, b);
    Insertion.SortedIsInsertionSorted(input, u);
    assert u[b..] == s[b..];
  }

  /** Sorting the unplaced prefix of such a sequence sorts all of it. */
  lemma SortedBelowSuffix(s: seq<int>, b: int)
    requires 0 <= b <= |s| && Bubble.SuffixPlaced(s, b)
    ensures |Insertion.InsertionSorted(s[..b])| == b
    ensures Sorted(Insertion.InsertionSorted(s[..b]) + s[b..])
    ensures multiset(Insertion.InsertionSorted(s[..b]) + s[b..]) == multiset(s)
  {
    var p, c := s[..b], s[b..];
    var a := Insertion.InsertionSorted(p);
    Insertion.InsertionSortedSorted(p);
    Insertion.InsertionSortedPermutes(p);
    forall i, j | 0 <= i < |a| && 0 <= j < |c|
      ensures a[i] <= c[j]
    {
      assert a[i] in multiset(p);
      var m :| 0 <= m < |p| && p[m] == a[i];
      assert s[m] <= s[b + j];
    }
    forall i, j | 0 <= i < j < |c|
      ensures c[i] <= c[j]
    {
      assert s[b + i] <= s[b + j];
    }
    SortedConcat(a, c);
    assert s == p + c;
  }

  /** The same for a prefix placed in the sense of selection sort:
      ascending, and no later value below any of it. */
  lemma PlacedPrefixIsFinal(s: seq<int>, input: seq<int>, b: int)
    requires 0 <= b <= |s| && Selection.PrefixPlaced(s, b)
    requires |s| == |input| && multiset(s) == multiset(input)
    ensures s[..b] == Insertion.InsertionSorted(input)[..b]
  {
    var u := s[..b] + Insertion.InsertionSorted(s[b..]);
    SortedAbovePrefix(s, b);
    Insertion.SortedIsInsertionSorted(input, u);
    assert u[..b] == s[..b];
  }

  /** Sorting the unplaced suffix of such a sequence sorts all of it. */
  lemma SortedAbovePrefix(s: seq<int>, b: int)
    requires 0 <= b <= |s| && Selection.PrefixPlaced(s, b)
    ensures Sorted(s[..b] + Insertion.InsertionSorted(s[b..]))
    ensures multiset(s[..b] + Insertion.InsertionSorted(s[b..])) == multiset(s)
  {
    var p, c := s[..b], s[b..];
    var a := Insertion.InsertionSorted(c);
    Insertion.InsertionSortedSorted(c);
    Insertion.InsertionSortedPermutes(c);
    forall i, j | 0 <= i < |p| && 0 <= j < |a|
      ensures p[i] <= a[j]
    {
      assert a[j] in multiset(c);
      var m :| 0 <= m < |c| && c[m] == a[j];
      assert s[i] <= s[b + m];
    }
    forall i, j | 0 <= i < j < |p|
      ensures p[i] <= p[j]
    {
      assert s[i] <= s[j];
    }
    SortedConcat(p, a);
    assert s == p + c;
  }

  /** Draws the freshly generated bars without highlight, then runs the
      procedure `algo` names on the whole array; a value naming none leaves
      the bars as drawn. Whichever procedure runs, the array ends up as the
      same sorted permutation of the input. */
  method Run(algo: string, bars: array<int>, ctx: Context)
    modifies bars, ctx
    ensures |ctx.frames| > |old(ctx.frames)|
    ensures ctx.frames[..|old(ctx.frames)| + 1] == old(ctx.frames) + [Frame(old(bars[..]), NO_HIGHLIGHT)]
    ensures Known(algo) ==> Sorted(bars[..]) && multiset(bars[..]) == old(multiset(bars[..]))
    ensures Known(algo) ==> bars[..] == Insertion.InsertionSorted(old(bars[..]))
    ensures !Known(algo) ==> bars[..] == old(bars[..]) && |ctx.frames| == |old(ctx.frames)| + 1
  {
    ghost var input := bars[..];
    ctx.DrawBars(bars, NO_HIGHLIGHT);
    ghost var f0 := ctx.frames;
    if algo == "bubble" {
      Bubble.BubbleSort(bars, ctx);
    } else if algo == "selection" {
      Selection.SelectionSort(bars, ctx);
    } else if algo == "insertion" {
      Insertion.InsertionSort(bars, ctx);
    } else if algo == "merge" {
      Merging.MergeSortAll(bars, ctx);
    } else if algo == "quick" {
      Quick.QuickSortAll(bars, ctx);
    }
    if Known(algo) {
      Insertion.SortedIsInsertionSorted(input, bars[..]);
    }
    assert ctx.frames[..|f0|] == f0;
  }
}
