/** The values merge sort computes, stated on sequences of records ordered
    by an integer key: the merge of two runs, the recursive sort, and the
    stability of both. The procedures on the bar array use the identity key;
    the general key shows what the `<=` comparison of the merge promises for
    records that compare equal. */
module MergeSpec {
  import opened Order

  /** The key of a bar is its height. */
  function Id(x: int): int {
    x
  }

  /** `s` is in ascending order of `key`. */
  ghost predicate SortedBy<T>(s: seq<T>, key: T -> int) {
    forall i, j :: 0 <= i < j < |s| ==> key(s[i]) <= key(s[j])
  }

  /** `x` goes before `y` when its key is smaller, or the keys are equal and
      its tag (the position it started from) is smaller. */
  ghost predicate Before<T>(x: T, y: T, key: T -> int, tag: T -> int) {
    key(x) < key(y) || (key(x) == key(y) && tag(x) < tag(y))
  }

  /** In ascending order of `key`, records of equal key in ascending order of
      `tag`. */
  ghost predicate StablySorted<T>(s: seq<T>, key: T -> int, tag: T -> int) {
    forall i, j :: 0 <= i < j < |s| ==> Before(s[i], s[j], key, tag)
  }

  /** The keys of `s`, in order. */
  function Keys<T>(s: seq<T>, key: T -> int): (k: seq<int>)
    ensures |k| == |s|
    ensures forall i :: 0 <= i < |s| ==> k[i] == key(s[i])
  {
    seq(|s|, i requires 0 <= i < |s| => key(s[i]))
  }

  /** What the merge loops write, front to back: while both runs have
      elements the smaller head is taken, the left one on a tie; then what
      is left of either run. */
  function MergedBy<T>(l: seq<T>, r: seq<T>, key: T -> int): (m: seq<T>)
    ensures |m| == |l| + |r|
    decreases |l| + |r|
  {
    if |l| == 0 then r
    else if |r| == 0 then l
    else if key(l[0]) <= key(r[0]) then [l[0]] + MergedBy(l[1..], r, key)
    else [r[0]] + MergedBy(l, r[1..], key)
  }

  /** Where the sort splits a run: the left part holds floor((n - 1) / 2) + 1
      elements, as `mid = floor((start + end) / 2)` does. */
  function Half(n: nat): (h: nat)
    requires n >= 2
    ensures 0 < h < n && n - h <= h
  {
    (n - 1) / 2 + 1
  }

  /** What the recursive sort leaves in place of a run `s`. */
  function MergeSortedBy<T>(s: seq<T>, key: T -> int): (r: seq<T>)
    ensures |r| == |s|
    decreases |s|
  {
    if |s| <= 1 then s
    else
      var h := Half(|s|);
      MergedBy(MergeSortedBy(s[..h], key), MergeSortedBy(s[h..], key), key)
  }

  /** Number of writes, and so of frames, the recursive sort of a run of
      length `n` makes: each merge writes every element of its range once. */
  function MergeWrites(n: nat): (w: nat)
  {
    if n <= 1 then 0 else MergeWrites(Half(n)) + MergeWrites(n - Half(n)) + n
  }

  /** Levels of splitting the recursive sort goes through on a run of
      length `n` before every piece holds one element. */
  function Depth(n: nat): (d: nat)
    decreases n
  {
    if n <= 1 then 0 else 1 + Depth(Half(n))
  }

  function Pow2(k: nat): (p: nat)
    ensures p >= 1
  {
    if k == 0 then 1 else 2 * Pow2(k - 1)
  }

  /** The depth is the base-2 logarithm of `n`, rounded up: `n` fits in
      2^Depth(n) and, from two elements on, not in half of it. */
  lemma {:induction false} DepthIsLog(n: nat)
    requires n >= 1
    ensures n <= Pow2(Depth(n))
    ensures n >= 2 ==> Pow2(Depth(n) - 1) < n
    decreases n
  {
    if n >= 2 {
      var h := Half(n);
      DepthIsLog(h);
      assert Pow2(Depth(n)) == 2 * Pow2(Depth(h));
      assert n <= 2 * h;
      if h >= 2 {
        assert 2 * h <= n + 1;
        assert Pow2(Depth(h)) == 2 * Pow2(Depth(h) - 1);
      }
    }
  }

  /** A longer run is split at least as many times. */
  lemma {:induction false} DepthMono(a: nat, b: nat)
    requires 1 <= a <= b
    ensures Depth(a) <= Depth(b)
    decreases b
  {
    if a >= 2 {
      assert Half(a) <= Half(b);
      DepthMono(Half(a), Half(b));
    }
  }

  /** The recursive sort of `n` elements writes at most n * Depth(n) times:
      every level of splitting writes each element once at most, so the
      writes, and the frames drawn, are O(n log n). */
  lemma {:induction false} MergeWritesBound(n: nat)
    requires n >= 1
    ensures MergeWrites(n) <= n * Depth(n)
    decreases n
  {
    if n >= 2 {
      var h := Half(n);
      var d := Depth(h);
      MergeWritesBound(h);
      MergeWritesBound(n - h);
      DepthMono(n - h, h);
      MulMono(n - h, Depth(n - h), d);
      Distrib(h, n - h, d);
      assert Depth(n) == d + 1;
    }
  }

  /** Two parts that each cost `d` per element, plus one more per element,
      cost `d + 1` per element of the whole. */
  lemma Distrib(a: nat, b: nat, d: nat)
    ensures a * d + b * d + (a + b) == (a + b) * (d + 1)
  {
  }

  lemma MulMono(a: nat, x: nat, y: nat)
    requires x <= y
    ensures a * x <= a * y
  {
  }

  /** Merging neither adds nor loses records. */
  lemma {:induction false} MergedPermutes<T>(l: seq<T>, r: seq<T>, key: T -> int)
    ensures multiset(MergedBy(l, r, key)) == multiset(l) + multiset(r)
    decreases |l| + |r|
  {
    if |l| > 0 && |r| > 0 {
      if key(l[0]) <= key(r[0]) {
        MergedPermutes(l[1..], r, key);
        assert l == [l[0]] + l[1..];
      } else {
        MergedPermutes(l, r[1..], key);
        assert r == [r[0]] + r[1..];
      }
    }
  }

  /** Every record of a merge comes from one of the two runs. */
  lemma MergedFrom<T>(l: seq<T>, r: seq<T>, key: T -> int)
    ensures forall x :: x in MergedBy(l, r, key) ==> x in l || x in r
  {
    MergedPermutes(l, r, key);
    forall x | x in MergedBy(l, r, key)
      ensures x in l || x in r
    {
      assert x in multiset(MergedBy(l, r, key));
    }
  }

  /** A record whose key is at most every key of an ascending run can be put
      in front of it. */
  lemma ConsSorted<T>(h: T, m: seq<T>, key: T -> int)
    requires SortedBy(m, key)
    requires forall k :: 0 <= k < |m| ==> key(h) <= key(m[k])
    ensures SortedBy([h] + m, key)
  {
    forall i, j | 0 <= i < j < |m| + 1
      ensures key(([h] + m)[i]) <= key(([h] + m)[j])
    {
      if i > 0 {
        assert ([h] + m)[i] == m[i - 1];
      }
      assert ([h] + m)[j] == m[j - 1];
    }
  }

  /** Merging two ascending runs gives an ascending run. */
  lemma {:induction false} MergedSorted<T>(l: seq<T>, r: seq<T>, key: T -> int)
    requires SortedBy(l, key) && SortedBy(r, key)
    ensures SortedBy(MergedBy(l, r, key), key)
    decreases |l| + |r|
  {
    if |l| > 0 && |r| > 0 {
      if key(l[0]) <= key(r[0]) {
        var l', m := l[1..], MergedBy(l[1..], r, key);
        MergedSorted(l', r, key);
        MergedFrom(l', r, key);
        forall k | 0 <= k < |m|
          ensures key(l[0]) <= key(m[k])
        {
          assert m[k] in m;
          if m[k] in l' {
            var p :| 0 <= p < |l'| && l'[p] == m[k];
            assert l'[p] == l[p + 1];
          } else {
            var p :| 0 <= p < |r| && r[p] == m[k];
          }
        }
        ConsSorted(l[0], m, key);
      } else {
        var r', m := r[1..], MergedBy(l, r[1..], key);
        MergedSorted(l, r', key);
        MergedFrom(l, r', key);
        forall k | 0 <= k < |m|
          ensures key(r[0]) <= key(m[k])
        {
          assert m[k] in m;
          if m[k] in r' {
            var p :| 0 <= p < |r'| && r'[p] == m[k];
            assert r'[p] == r[p + 1];
          } else {
            var p :| 0 <= p < |l| && l[p] == m[k];
          }
        }
        ConsSorted(r[0], m, key);
      }
    }
  }

  /** A record that goes before every record of a stably sorted run can be
      put in front of it. */
  lemma ConsStable<T>(h: T, m: seq<T>, key: T -> int, tag: T -> int)
    requires StablySorted(m, key, tag)
    requires forall k :: 0 <= k < |m| ==> Before(h, m[k], key, tag)
    ensures StablySorted([h] + m, key, tag)
  {
    forall i, j | 0 <= i < j < |m| + 1
      ensures Before(([h] + m)[i], ([h] + m)[j], key, tag)
    {
      if i > 0 {
        assert ([h] + m)[i] == m[i - 1];
      }
      assert ([h] + m)[j] == m[j - 1];
    }
  }

  /** Merge is stable: when every record of the left run started before
      every record of the right run, records of equal key come out in the
      order they started in. This is what taking the left head on a tie
      buys. */
  lemma {:induction false} MergedStable<T>(l: seq<T>, r: seq<T>, key: T -> int, tag: T -> int)
    requires StablySorted(l, key, tag) && StablySorted(r, key, tag)
    requires forall x, y :: x in l && y in r ==> tag(x) < tag(y)
    ensures StablySorted(MergedBy(l, r, key), key, tag)
    decreases |l| + |r|
  {
    if |l| > 0 && |r| > 0 {
      if key(l[0]) <= key(r[0]) {
        var l', m := l[1..], MergedBy(l[1..], r, key);
        assert forall x :: x in l' ==> x in l;
        MergedStable(l', r, key, tag);
        MergedFrom(l', r, key);
        forall k | 0 <= k < |m|
          ensures Before(l[0], m[k], key, tag)
        {
          assert m[k] in m;
          if m[k] in l' {
            var p :| 0 <= p < |l'| && l'[p] == m[k];
            assert l'[p] == l[p + 1];
          } else {
            var p :| 0 <= p < |r| && r[p] == m[k];
            assert l[0] in l;
            if p > 0 {
              assert Before(r[0], r[p], key, tag);
            }
          }
        }
        ConsStable(l[0], m, key, tag);
      } else {
        var r', m := r[1..], MergedBy(l, r[1..], key);
        assert forall y :: y in r' ==> y in r;
        MergedStable(l, r', key, tag);
        MergedFrom(l, r', key);
        forall k | 0 <= k < |m|
          ensures Before(r[0], m[k], key, tag)
        {
          assert m[k] in m;
          if m[k] in r' {
            var p :| 0 <= p < |r'| && r'[p] == m[k];
            assert r'[p] == r[p + 1];
          } else {
            var p :| 0 <= p < |l| && l[p] == m[k];
            if p > 0 {
              assert Before(l[0], l[p], key, tag);
            }
          }
        }
        ConsStable(r[0], m, key, tag);
      }
    }
  }

  /** The recursive sort neither adds nor loses records. */
  lemma {:induction false} MergeSortPermutes<T>(s: seq<T>, key: T -> int)
    ensures multiset(MergeSortedBy(s, key)) == multiset(s)
    decreases |s|
  {
    if |s| > 1 {
      var h := Half(|s|);
      var l, r := MergeSortedBy(s[..h], key), MergeSortedBy(s[h..], key);
      MergeSortPermutes(s[..h], key);
      MergeSortPermutes(s[h..], key);
      MergedPermutes(l, r, key);
      assert multiset(MergeSortedBy(s, key)) == multiset(l) + multiset(r);
      assert s == s[..h] + s[h..];
    }
  }

  /** The recursive sort leaves its run in ascending order of `key`. */
  lemma {:induction false} MergeSortSorted<T>(s: seq<T>, key: T -> int)
    ensures SortedBy(MergeSortedBy(s, key), key)
    decreases |s|
  {
    if |s| > 1 {
      var h := Half(|s|);
      MergeSortSorted(s[..h], key);
      MergeSortSorted(s[h..], key);
      MergedSorted(MergeSortedBy(s[..h], key), MergeSortedBy(s[h..], key), key);
    }
  }

  /** Tags of one run all below those of another stay so however each run is
      permuted. */
  lemma PermutedTags<T>(l: seq<T>, r: seq<T>, ls: seq<T>, rs: seq<T>, tag: T -> int)
    requires forall i, j :: 0 <= i < |l| && 0 <= j < |r| ==> tag(l[i]) < tag(r[j])
    requires multiset(ls) == multiset(l) && multiset(rs) == multiset(r)
    ensures forall x, y :: x in ls && y in rs ==> tag(x) < tag(y)
  {
    forall x, y | x in ls && y in rs
      ensures tag(x) < tag(y)
    {
      assert x in multiset(l) && y in multiset(r);
      var i :| 0 <= i < |l| && l[i] == x;
      var j :| 0 <= j < |r| && r[j] == y;
    }
  }

  /** The recursive sort is stable: records tagged with ascending positions
      come out in ascending order of key, and those of equal key in the
      order they started in. */
  lemma {:induction false} MergeSortStable<T>(s: seq<T>, key: T -> int, tag: T -> int)
    requires forall i, j :: 0 <= i < j < |s| ==> tag(s[i]) < tag(s[j])
    ensures StablySorted(MergeSortedBy(s, key), key, tag)
    decreases |s|
  {
    if |s| > 1 {
      var h := Half(|s|);
      var l, r := s[..h], s[h..];
      assert forall i, j :: 0 <= i < j < |l| ==> tag(l[i]) < tag(l[j]) by {
        forall i, j | 0 <= i < j < |l| ensures tag(l[i]) < tag(l[j]) {
          assert l[i] == s[i] && l[j] == s[j];
        }
      }
      assert forall i, j :: 0 <= i < j < |r| ==> tag(r[i]) < tag(r[j]) by {
        forall i, j | 0 <= i < j < |r| ensures tag(r[i]) < tag(r[j]) {
          assert r[i] == s[h + i] && r[j] == s[h + j];
        }
      }
      MergeSortStable(l, key, tag);
      MergeSortStable(r, key, tag);
      var ls, rs := MergeSortedBy(l, key), MergeSortedBy(r, key);
      MergeSortPermutes(l, key);
      MergeSortPermutes(r, key);
      forall i, j | 0 <= i < |l| && 0 <= j < |r|
        ensures tag(l[i]) < tag(r[j])
      {
        assert l[i] == s[i] && r[j] == s[h + j];
      }
      PermutedTags(l, r, ls, rs, tag);
      MergedStable(ls, rs, key, tag);
    }
  }

  /** Merging records and then taking keys is merging their keys: the merge
      of bar heights is the key view of a merge of records. */
  lemma {:induction false} MergedKeys<T>(l: seq<T>, r: seq<T>, key: T -> int)
    ensures Keys(MergedBy(l, r, key), key) == MergedBy(Keys(l, key), Keys(r, key), Id)
    decreases |l| + |r|
  {
    var kl, kr := Keys(l, key), Keys(r, key);
    if |l| > 0 && |r| > 0 {
      if key(l[0]) <= key(r[0]) {
        MergedKeys(l[1..], r, key);
        assert Keys(l[1..], key) == kl[1..];
        assert Keys([l[0]] + MergedBy(l[1..], r, key), key)
            == [key(l[0])] + Keys(MergedBy(l[1..], r, key), key);
      } else {
        MergedKeys(l, r[1..], key);
        assert Keys(r[1..], key) == kr[1..];
        assert Keys([r[0]] + MergedBy(l, r[1..], key), key)
            == [key(r[0])] + Keys(MergedBy(l, r[1..], key), key);
      }
    }
  }

  /** Sorting records and then taking keys is sorting their keys: the sort
      of bar heights is the key view of a stable sort of records. */
  lemma {:induction false} MergeSortKeys<T>(s: seq<T>, key: T -> int)
    ensures Keys(MergeSortedBy(s, key), key) == MergeSortedBy(Keys(s, key), Id)
    decreases |s|
  {
    if |s| > 1 {
      var h := Half(|s|);
      var ks := Keys(s, key);
      MergeSortKeys(s[..h], key);
      MergeSortKeys(s[h..], key);
      assert Keys(s[..h], key) == ks[..h];
      assert Keys(s[h..], key) == ks[h..];
      MergedKeys(MergeSortedBy(s[..h], key), MergeSortedBy(s[h..], key), key);
    }
  }

  /** On bar heights, ascending order of the identity key is `Sorted`. */
  lemma SortedById(s: seq<int>)
    ensures SortedBy(s, Id) <==> Sorted(s)
  {
  }
}
