/** Ascending order and permutation facts shared by the five sorting procedures. */
module Order {

  /** The whole sequence is in ascending order. */
  ghost predicate Sorted(s: seq<int>) {
    forall i, j :: 0 <= i < j < |s| ==> s[i] <= s[j]
  }

  /** The half-open index range [lo, hi) of `s` is in ascending order. */
  ghost predicate SortedBetween(s: seq<int>, lo: int, hi: int)
    requires 0 <= lo && hi <= |s|
  {
    forall i, j :: lo <= i < j < hi ==> s[i] <= s[j]
  }

  /** `s` and `t` agree everywhere outside the half-open range [lo, hi). */
  ghost predicate SameOutside(s: seq<int>, t: seq<int>, lo: int, hi: int) {
    |s| == |t| && forall k :: 0 <= k < |s| && !(lo <= k < hi) ==> s[k] == t[k]
  }

  /** A sorted arrangement of a multiset is unique: whichever of the five
      procedures ran, a sorted permutation of the input is the same sequence. */
  lemma {:induction false} SortedUnique(s: seq<int>, t: seq<int>)
    requires Sorted(s) && Sorted(t)
    requires multiset(s) == multiset(t)
    ensures s == t
  {
    assert |s| == |multiset(s)| == |multiset(t)| == |t|;
    if |s| > 0 {
      SortedHeads(s, t);
      assert s == [s[0]] + s[1..];
      assert t == [t[0]] + t[1..];
      Cancel(multiset{s[0]}, multiset(s[1..]), multiset(t[1..]), multiset{});
      SortedUnique(s[1..], t[1..]);
    }
  }

  /** Two sorted sequences with the same values start with the same value:
      the least of them. */
  lemma SortedHeads(s: seq<int>, t: seq<int>)
    requires Sorted(s) && Sorted(t) && 0 < |s| && 0 < |t|
    requires multiset(s) == multiset(t)
    ensures s[0] == t[0]
  {
    assert s[0] in multiset(t);
    var k :| 0 <= k < |t| && t[k] == s[0];
    assert t[0] <= s[0];
    assert t[0] in multiset(s);
    var m :| 0 <= m < |s| && s[m] == t[0];
  }

  /** Two sorted sequences, every value of the first no greater than every
      value of the second, join into a sorted sequence. */
  lemma SortedConcat(a: seq<int>, c: seq<int>)
    requires Sorted(a) && Sorted(c)
    requires forall i, j :: 0 <= i < |a| && 0 <= j < |c| ==> a[i] <= c[j]
    ensures Sorted(a + c)
  {
    var u := a + c;
    forall i, j | 0 <= i < j < |u|
      ensures u[i] <= u[j]
    {
      if j < |a| {
        assert u[i] == a[i] && u[j] == a[j];
      } else if i < |a| {
        assert u[i] == a[i] && u[j] == c[j - |a|];
      } else {
        assert u[i] == c[i - |a|] && u[j] == c[j - |a|];
      }
    }
  }

  /** When two sequences agree outside [lo, hi) and hold the same multiset,
      the range [lo, hi) of one is a permutation of that range of the other. */
  lemma RangePermutation(s: seq<int>, t: seq<int>, lo: int, hi: int)
    requires 0 <= lo <= hi <= |s|
    requires SameOutside(s, t, lo, hi)
    requires multiset(s) == multiset(t)
    ensures multiset(s[lo..hi]) == multiset(t[lo..hi])
  {
    var a, c := s[..lo], s[hi..];
    assert s[..lo] == t[..lo] && s[hi..] == t[hi..];
    assert s == a + s[lo..hi] + c;
    assert t == a + t[lo..hi] + c;
    Cancel(multiset(a), multiset(s[lo..hi]), multiset(t[lo..hi]), multiset(c));
  }

  /** Equal sums with the same outer parts have equal middle parts. */
  lemma Cancel(a: multiset<int>, x: multiset<int>, y: multiset<int>, c: multiset<int>)
    requires a + x + c == a + y + c
    ensures x == y
  {
    forall v
      ensures x[v] == y[v]
    {
      assert (a + x + c)[v] == (a + y + c)[v];
    }
  }

  /** Two sequences that agree outside [lo, hi) agree on every slice that
      lies wholly outside it. */
  lemma SliceOutside(s: seq<int>, t: seq<int>, lo: int, hi: int, a: int, b: int)
    requires SameOutside(s, t, lo, hi)
    requires 0 <= a <= b <= |s| && (b <= lo || hi <= a)
    ensures s[a..b] == t[a..b]
  {
  }

  /** Changes confined to [lo1, hi1) followed by changes confined to
      [lo2, hi2) are confined to any range [lo, hi) that holds both. */
  lemma SameOutsideTrans(s: seq<int>, t: seq<int>, u: seq<int>,
                         lo1: int, hi1: int, lo2: int, hi2: int, lo: int, hi: int)
    requires SameOutside(t, s, lo1, hi1) && SameOutside(u, t, lo2, hi2)
    requires lo <= lo1 && hi1 <= hi && lo <= lo2 && hi2 <= hi
    ensures SameOutside(u, s, lo, hi)
  {
  }

  /** A property of every element of a range survives a permutation of that
      range. */
  lemma RangePreserved(s: seq<int>, t: seq<int>, lo: int, hi: int, p: int -> bool)
    requires 0 <= lo <= hi <= |s| && hi <= |t|
    requires multiset(s[lo..hi]) == multiset(t[lo..hi])
    requires forall k :: lo <= k < hi ==> p(s[k])
    ensures forall k :: lo <= k < hi ==> p(t[k])
  {
    forall k | lo <= k < hi
      ensures p(t[k])
    {
      assert t[k] == t[lo..hi][k - lo];
      assert t[k] in multiset(s[lo..hi]);
      var m :| 0 <= m < hi - lo && s[lo..hi][m] == t[k];
      assert s[lo + m] == t[k];
    }
  }

  /** Exchanging two positions keeps the multiset of values. */
  lemma SwapPermutes(s: seq<int>, i: int, j: int)
    requires 0 <= i < |s| && 0 <= j < |s|
    ensures multiset(s[i := s[j]][j := s[i]]) == multiset(s)
  {
    if i != j {
      var t := s[i := s[j]];
      assert multiset(t) == multiset(s) - multiset{s[i]} + multiset{s[j]};
      assert multiset(t[j := s[i]]) == multiset(t) - multiset{s[j]} + multiset{s[i]};
    }
  }

  /** Number of outer iterations of the bubble, selection and insertion
      loops over an array of length `n`: the loop bounds `i < n - 1` (from
      0) and `i < n` (from 1), none at all for an empty array. */
  function Passes(n: nat): nat {
    if n == 0 then 0 else n - 1
  }

  /** The destructuring exchange `[a[i], a[j]] = [a[j], a[i]]` used by the
      swapping procedures: the two positions trade values, nothing else
      moves, and the array holds the same multiset of values. */
  method Swap(a: array<int>, i: int, j: int)
    requires 0 <= i < a.Length && 0 <= j < a.Length
    modifies a
    ensures a[..] == old(a[..])[i := old(a[j])][j := old(a[i])]
    ensures multiset(a[..]) == old(multiset(a[..]))
  {
    a[i], a[j] := a[j], a[i];
  }
}
