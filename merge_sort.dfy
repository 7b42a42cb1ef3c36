/**
 * The sequential merge sort kernel: `sort`, the range-based recursive `mergeSort(p, r)`
 * and the three-loop `merge(p, q, r)`, all working in place on one array.
 *
 * `compareTo(x, y) <= 0` is the parameter `le`. Nothing in the code relies on `le` being
 * a total preorder (the Java code never checks it), so the methods are specified by the
 * functions `MergeSeq` and `MergeSortSeq` for every `le`; sortedness and stability are
 * proved about those functions under the `Comparable` contract, a total preorder.
 */
module Sorting {
  import opened JavaInt

  /** The `Comparable` contract: any two elements compare, and comparison is transitive. */
  ghost predicate TotalPreorder<T(!new)>(le: (T, T) -> bool)
  {
    && (forall x, y :: le(x, y) || le(y, x))
    && (forall x, y, z :: le(x, y) && le(y, z) ==> le(x, z))
  }

  /** Non-decreasing under `le`. */
  predicate Sorted<T>(le: (T, T) -> bool, s: seq<T>)
  {
    forall i, j :: 0 <= i < j < |s| ==> le(s[i], s[j])
  }

  /** `x` and `e` compare as equal (`compareTo` returns 0 both ways). */
  predicate Equivalent<T>(le: (T, T) -> bool, x: T, e: T)
  {
    le(x, e) && le(e, x)
  }

  /** The elements of `s` that compare equal to `e`, in their order in `s`. */
  function Ties<T>(le: (T, T) -> bool, s: seq<T>, e: T): (r: seq<T>)
    ensures |r| <= |s|
  {
    if |s| == 0 then []
    else (if Equivalent(le, s[0], e) then [s[0]] else []) + Ties(le, s[1..], e)
  }

  /**
   * What `merge` writes: repeatedly the smaller front of the two runs, the left
   * run's front on a tie (`compareTo <= 0`), then whatever remains.
   */
  function MergeSeq<T>(le: (T, T) -> bool, xs: seq<T>, ys: seq<T>): (r: seq<T>)
    ensures |r| == |xs| + |ys|
    decreases |xs| + |ys|
  {
    if |xs| == 0 then ys
    else if |ys| == 0 then xs
    else if le(xs[0], ys[0]) then [xs[0]] + MergeSeq(le, xs[1..], ys)
    else [ys[0]] + MergeSeq(le, xs, ys[1..])
  }

  /**
   * What `mergeSort` makes of a range: ranges of at most one element are left alone;
   * longer ones are split after `q = (p + r) / 2`, so the left half has `(n + 1) / 2`
   * of the `n` elements, both halves are sorted and the results merged.
   */
  function MergeSortSeq<T>(le: (T, T) -> bool, s: seq<T>): (r: seq<T>)
    ensures |r| == |s|
    decreases |s|
  {
    if |s| <= 1 then s
    else
      var h := (|s| + 1) / 2;
      MergeSeq(le, MergeSortSeq(le, s[..h]), MergeSortSeq(le, s[h..]))
  }

  // ---------------------------------------------------------------------------
  // The midpoint `q = (p + r) / 2`
  // ---------------------------------------------------------------------------

  /** The midpoint as the Java code computes it, with a 32-bit `p + r`. */
  function MidpointAsWritten(p: Int32, r: Int32): int
  {
    JavaDiv(Wrap32(p + r), 2)
  }

  /** The midpoint the Java code intends; written `p + (r - p) / 2` it cannot overflow. */
  function Midpoint(p: int, r: int): (q: int)
    requires 0 <= p < r
    ensures q == (p + r) / 2
    ensures p <= q < r
  {
    p + (r - p) / 2
  }

  /** While `p + r` fits in an `int`, the Java code's midpoint is the intended one. */
  lemma MidpointAsWrittenAgrees(p: Int32, r: Int32)
    requires 0 <= p < r && p + r <= MaxInt32
    ensures MidpointAsWritten(p, r) == Midpoint(p, r)
  {
  }

  /**
   * Sorting an array of 0x6000_0000 elements reaches `mergeSort(array, 0x3000_0000,
   * 0x5FFF_FFFF)` (the right half of the first split); there `p + r` overflows and
   * the Java code's midpoint is negative.
   */
  lemma MidpointAsWrittenOverflows()
    ensures Midpoint(0, 0x5FFF_FFFF) + 1 == 0x3000_0000
    ensures MidpointAsWritten(0x3000_0000, 0x5FFF_FFFF) < 0
    ensures Midpoint(0x3000_0000, 0x5FFF_FFFF) == 0x47FF_FFFF
  {
  }

  // ---------------------------------------------------------------------------
  // Properties of MergeSeq and MergeSortSeq
  // ---------------------------------------------------------------------------

  /** A sequence's elements are its first element and the elements of the rest. */
  lemma MultisetFront<T>(s: seq<T>)
    requires |s| > 0
    ensures multiset(s) == multiset{s[0]} + multiset(s[1..])
  {
    assert s == [s[0]] + s[1..];
  }

  /** A sequence's elements are those of its two halves. */
  lemma MultisetSplit<T>(s: seq<T>, h: nat)
    requires h <= |s|
    ensures multiset(s) == multiset(s[..h]) + multiset(s[h..])
  {
    assert s == s[..h] + s[h..];
  }

  /** The first step of a merge of two non-empty runs. */
  lemma MergeStep<T>(le: (T, T) -> bool, xs: seq<T>, ys: seq<T>)
    requires |xs| > 0 && |ys| > 0
    ensures le(xs[0], ys[0]) ==> MergeSeq(le, xs, ys) == [xs[0]] + MergeSeq(le, xs[1..], ys)
    ensures !le(xs[0], ys[0]) ==> MergeSeq(le, xs, ys) == [ys[0]] + MergeSeq(le, xs, ys[1..])
  {
  }

  /** `merge` keeps every element of both runs, no more and no fewer. */
  lemma {:induction false} MergePermutes<T>(le: (T, T) -> bool, xs: seq<T>, ys: seq<T>)
    ensures multiset(MergeSeq(le, xs, ys)) == multiset(xs) + multiset(ys)
    decreases |xs| + |ys|
  {
    if |xs| > 0 && |ys| > 0 {
      MergeStep(le, xs, ys);
      var m := MergeSeq(le, xs, ys);
      MultisetFront(m);
      if le(xs[0], ys[0]) {
        MergePermutes(le, xs[1..], ys);
        MultisetFront(xs);
      } else {
        MergePermutes(le, xs, ys[1..]);
        MultisetFront(ys);
      }
    }
  }

  /** `x` is below every element of `s`. */
  predicate Below<T>(le: (T, T) -> bool, x: T, s: seq<T>)
  {
    forall k :: 0 <= k < |s| ==> le(x, s[k])
  }

  /** Dropping the front of a sorted sequence leaves it sorted. */
  lemma SortedTail<T>(le: (T, T) -> bool, s: seq<T>)
    requires Sorted(le, s) && |s| > 0
    ensures Sorted(le, s[1..])
  {
    forall i, j | 0 <= i < j < |s| - 1
      ensures le(s[1..][i], s[1..][j])
    {
      assert s[1..][i] == s[i + 1] && s[1..][j] == s[j + 1];
    }
  }

  /** The front of a sorted sequence is below the rest of it. */
  lemma SortedHeadBelowTail<T>(le: (T, T) -> bool, s: seq<T>)
    requires Sorted(le, s) && |s| > 0
    ensures Below(le, s[0], s[1..])
  {
    forall k | 0 <= k < |s| - 1
      ensures le(s[0], s[1..][k])
    {
      assert s[1..][k] == s[k + 1];
    }
  }

  /** Under the `Comparable` contract, what is below the front of a sorted sequence is below all of it. */
  lemma SortedBelow<T(!new)>(le: (T, T) -> bool, x: T, s: seq<T>)
    requires TotalPreorder(le) && Sorted(le, s) && |s| > 0 && le(x, s[0])
    ensures Below(le, x, s)
  {
    forall k | 0 < k < |s|
      ensures le(x, s[k])
    {
      assert le(s[0], s[k]);
    }
  }

  /** A sorted sequence stays sorted when an element below all of it is put in front. */
  lemma SortedCons<T>(le: (T, T) -> bool, x: T, s: seq<T>)
    requires Sorted(le, s) && Below(le, x, s)
    ensures Sorted(le, [x] + s)
  {
    forall i, j | 0 <= i < j < |[x] + s|
      ensures le(([x] + s)[i], ([x] + s)[j])
    {
      assert ([x] + s)[j] == s[j - 1];
      if i > 0 {
        assert ([x] + s)[i] == s[i - 1];
      }
    }
  }

  /** What is below both runs is below their merge. */
  lemma {:induction false} MergeBelow<T>(le: (T, T) -> bool, x: T, xs: seq<T>, ys: seq<T>)
    requires Below(le, x, xs) && Below(le, x, ys)
    ensures Below(le, x, MergeSeq(le, xs, ys))
    decreases |xs| + |ys|
  {
    if |xs| > 0 && |ys| > 0 {
      MergeStep(le, xs, ys);
      if le(xs[0], ys[0]) {
        assert Below(le, x, xs[1..]) by {
          forall k | 0 <= k < |xs| - 1 ensures le(x, xs[1..][k]) {
            assert xs[1..][k] == xs[k + 1];
          }
        }
        MergeBelow(le, x, xs[1..], ys);
      } else {
        assert Below(le, x, ys[1..]) by {
          forall k | 0 <= k < |ys| - 1 ensures le(x, ys[1..][k]) {
            assert ys[1..][k] == ys[k + 1];
          }
        }
        MergeBelow(le, x, xs, ys[1..]);
      }
      var m := MergeSeq(le, xs, ys);
      forall k | 0 <= k < |m|
        ensures le(x, m[k])
      {
        if k > 0 {
          assert m[k] == m[1..][k - 1];
        }
      }
    }
  }

  /** Merging two sorted runs gives a sorted run. */
  lemma {:induction false} MergeSorted<T(!new)>(le: (T, T) -> bool, xs: seq<T>, ys: seq<T>)
    requires TotalPreorder(le) && Sorted(le, xs) && Sorted(le, ys)
    ensures Sorted(le, MergeSeq(le, xs, ys))
    decreases |xs| + |ys|
  {
    if |xs| > 0 && |ys| > 0 {
      MergeStep(le, xs, ys);
      if le(xs[0], ys[0]) {
        SortedTail(le, xs);
        MergeSorted(le, xs[1..], ys);
        SortedHeadBelowTail(le, xs);
        SortedBelow(le, xs[0], ys);
        MergeBelow(le, xs[0], xs[1..], ys);
        SortedCons(le, xs[0], MergeSeq(le, xs[1..], ys));
      } else {
        assert le(ys[0], xs[0]);
        SortedTail(le, ys);
        MergeSorted(le, xs, ys[1..]);
        SortedHeadBelowTail(le, ys);
        SortedBelow(le, ys[0], xs);
        MergeBelow(le, ys[0], xs, ys[1..]);
        SortedCons(le, ys[0], MergeSeq(le, xs, ys[1..]));
      }
    }
  }

  /** `mergeSort` rearranges a range: the result is a permutation of the input. */
  lemma {:induction false} MergeSortPermutes<T>(le: (T, T) -> bool, s: seq<T>)
    ensures multiset(MergeSortSeq(le, s)) == multiset(s)
    decreases |s|
  {
    if |s| > 1 {
      var h := (|s| + 1) / 2;
      var sl, sr := MergeSortSeq(le, s[..h]), MergeSortSeq(le, s[h..]);
      MergeSortPermutes(le, s[..h]);
      MergeSortPermutes(le, s[h..]);
      MergePermutes(le, sl, sr);
      assert MergeSortSeq(le, s) == MergeSeq(le, sl, sr);
      MultisetSplit(s, h);
    }
  }

  /** Under the `Comparable` contract, `mergeSort` leaves the range non-decreasing. */
  lemma {:induction false} MergeSortSorts<T(!new)>(le: (T, T) -> bool, s: seq<T>)
    requires TotalPreorder(le)
    ensures Sorted(le, MergeSortSeq(le, s))
    decreases |s|
  {
    if |s| > 1 {
      var h := (|s| + 1) / 2;
      MergeSortSorts(le, s[..h]);
      MergeSortSorts(le, s[h..]);
      MergeSorted(le, MergeSortSeq(le, s[..h]), MergeSortSeq(le, s[h..]));
    }
  }

  /** A sequence is the concatenation of its two halves. */
  lemma SplitJoin<T>(s: seq<T>, h: nat)
    requires h <= |s|
    ensures s[..h] + s[h..] == s
  {
  }

  /** Two runs already in order merge into their concatenation. */
  lemma {:induction false} MergeOrderedRuns<T>(le: (T, T) -> bool, xs: seq<T>, ys: seq<T>)
    requires forall i, j :: 0 <= i < |xs| && 0 <= j < |ys| ==> le(xs[i], ys[j])
    ensures MergeSeq(le, xs, ys) == xs + ys
    decreases |xs|
  {
    if |xs| > 0 && |ys| > 0 {
      MergeStep(le, xs, ys);
      MergeOrderedRuns(le, xs[1..], ys);
      assert xs[1..] + ys == (xs + ys)[1..];
    }
  }

  /** The halves of a sorted sequence are sorted and in order with each other. */
  lemma SortedHalves<T>(le: (T, T) -> bool, s: seq<T>, h: nat)
    requires Sorted(le, s) && h <= |s|
    ensures Sorted(le, s[..h]) && Sorted(le, s[h..])
    ensures forall i, j :: 0 <= i < h && 0 <= j < |s| - h ==> le(s[..h][i], s[h..][j])
  {
    forall i, j | 0 <= i < j < h
      ensures le(s[..h][i], s[..h][j])
    {
      assert s[..h][i] == s[i] && s[..h][j] == s[j];
    }
    forall i, j | 0 <= i < j < |s| - h
      ensures le(s[h..][i], s[h..][j])
    {
      assert s[h..][i] == s[h + i] && s[h..][j] == s[h + j];
    }
    forall i, j | 0 <= i < h && 0 <= j < |s| - h
      ensures le(s[..h][i], s[h..][j])
    {
      assert s[..h][i] == s[i] && s[h..][j] == s[h + j];
    }
  }

  /** Sorting an already sorted range changes nothing. */
  lemma {:induction false} MergeSortKeepsSorted<T>(le: (T, T) -> bool, s: seq<T>)
    requires Sorted(le, s)
    ensures MergeSortSeq(le, s) == s
    decreases |s|
  {
    if |s| > 1 {
      var h := (|s| + 1) / 2;
      var xs, ys := s[..h], s[h..];
      SortedHalves(le, s, h);
      MergeSortKeepsSorted(le, xs);
      MergeSortKeepsSorted(le, ys);
      assert MergeSortSeq(le, s) == MergeSeq(le, xs, ys);
      MergeOrderedRuns(le, xs, ys);
      SplitJoin(s, h);
    }
  }

  /** `Ties` of a sequence with a first element. */
  lemma TiesFront<T>(le: (T, T) -> bool, s: seq<T>, e: T)
    requires |s| > 0
    ensures Ties(le, s, e) == (if Equivalent(le, s[0], e) then [s[0]] else []) + Ties(le, s[1..], e)
  {
  }

  /** `Ties` distributes over concatenation. */
  lemma {:induction false} TiesAppend<T>(le: (T, T) -> bool, a: seq<T>, b: seq<T>, e: T)
    ensures Ties(le, a + b, e) == Ties(le, a, e) + Ties(le, b, e)
    decreases |a|
  {
    if |a| > 0 {
      assert (a + b)[0] == a[0];
      assert (a + b)[1..] == a[1..] + b;
      TiesAppend(le, a[1..], b, e);
      TiesFront(le, a, e);
      TiesFront(le, a + b, e);
      var front := if Equivalent(le, a[0], e) then [a[0]] else [];
      assert front + (Ties(le, a[1..], e) + Ties(le, b, e))
          == (front + Ties(le, a[1..], e)) + Ties(le, b, e);
    } else {
      assert a + b == b;
    }
  }

  /** A sequence none of whose elements compares equal to `e` has no ties with it. */
  lemma {:induction false} NoTies<T>(le: (T, T) -> bool, s: seq<T>, e: T)
    requires forall k :: 0 <= k < |s| ==> !Equivalent(le, s[k], e)
    ensures Ties(le, s, e) == []
    decreases |s|
  {
    if |s| > 0 {
      NoTies(le, s[1..], e);
    }
  }

  /**
   * When `merge` takes the right run's front `y` before the left run, nothing in the
   * sorted left run compares equal to `y`.
   */
  lemma LeftRunAbove<T(!new)>(le: (T, T) -> bool, xs: seq<T>, y: T, e: T)
    requires TotalPreorder(le) && Sorted(le, xs) && |xs| > 0 && !le(xs[0], y)
    requires Equivalent(le, y, e)
    ensures Ties(le, xs, e) == []
  {
    forall k | 0 <= k < |xs|
      ensures !Equivalent(le, xs[k], e)
    {
      assert k == 0 || le(xs[0], xs[k]);
    }
    NoTies(le, xs, e);
  }

  /**
   * `merge` is stable: among elements that compare equal to any `e`, those of the left
   * run come first and each run keeps its own order.
   */
  lemma {:induction false} MergeStable<T(!new)>(le: (T, T) -> bool, xs: seq<T>, ys: seq<T>, e: T)
    requires TotalPreorder(le) && Sorted(le, xs) && Sorted(le, ys)
    ensures Ties(le, MergeSeq(le, xs, ys), e) == Ties(le, xs, e) + Ties(le, ys, e)
    decreases |xs| + |ys|
  {
    if |xs| > 0 && |ys| > 0 {
      if le(xs[0], ys[0]) {
        SortedTail(le, xs);
        MergeStable(le, xs[1..], ys, e);
        StableTakeLeft(le, xs, ys, e);
      } else {
        SortedTail(le, ys);
        MergeStable(le, xs, ys[1..], e);
        if Equivalent(le, ys[0], e) {
          LeftRunAbove(le, xs, ys[0], e);
        }
        StableTakeRight(le, xs, ys, e);
      }
    } else if |xs| == 0 {
      assert Ties(le, xs, e) == [];
    } else {
      assert Ties(le, ys, e) == [];
    }
  }

  /** The ties after `merge` takes the left front follow from those of the rest of the merge. */
  lemma StableTakeLeft<T>(le: (T, T) -> bool, xs: seq<T>, ys: seq<T>, e: T)
    requires |xs| > 0 && |ys| > 0 && le(xs[0], ys[0])
    requires Ties(le, MergeSeq(le, xs[1..], ys), e) == Ties(le, xs[1..], e) + Ties(le, ys, e)
    ensures Ties(le, MergeSeq(le, xs, ys), e) == Ties(le, xs, e) + Ties(le, ys, e)
  {
    var m := MergeSeq(le, xs, ys);
    MergeStep(le, xs, ys);
    assert m[0] == xs[0] && m[1..] == MergeSeq(le, xs[1..], ys);
    TiesFront(le, m, e);
    TiesFront(le, xs, e);
    Regroup(if Equivalent(le, xs[0], e) then [xs[0]] else [], Ties(le, xs[1..], e), Ties(le, ys, e));
  }

  /** Concatenation is associative. */
  lemma Regroup<T>(a: seq<T>, b: seq<T>, c: seq<T>)
    ensures a + (b + c) == (a + b) + c
  {
  }

  /**
   * The ties after `merge` takes the right front follow from those of the rest of the
   * merge, given that the left run has no ties with `e` when that front has one.
   */
  lemma StableTakeRight<T>(le: (T, T) -> bool, xs: seq<T>, ys: seq<T>, e: T)
    requires |xs| > 0 && |ys| > 0 && !le(xs[0], ys[0])
    requires Equivalent(le, ys[0], e) ==> Ties(le, xs, e) == []
    requires Ties(le, MergeSeq(le, xs, ys[1..]), e) == Ties(le, xs, e) + Ties(le, ys[1..], e)
    ensures Ties(le, MergeSeq(le, xs, ys), e) == Ties(le, xs, e) + Ties(le, ys, e)
  {
    var m := MergeSeq(le, xs, ys);
    MergeStep(le, xs, ys);
    assert m[0] == ys[0] && m[1..] == MergeSeq(le, xs, ys[1..]);
    TiesFront(le, m, e);
    TiesFront(le, ys, e);
    var left, rest := Ties(le, xs, e), Ties(le, ys[1..], e);
    if Equivalent(le, ys[0], e) {
      assert left == [];
      assert Ties(le, m, e) == [ys[0]] + (left + rest);
      assert left + rest == rest;
      assert Ties(le, ys, e) == [ys[0]] + rest;
      assert left + Ties(le, ys, e) == Ties(le, ys, e);
    } else {
      assert Ties(le, m, e) == [] + (left + rest);
      assert Ties(le, ys, e) == [] + rest;
      assert [] + (left + rest) == left + rest;
      assert [] + rest == rest;
    }
  }

  /** `mergeSort` is stable: elements that compare equal keep their relative order. */
  lemma {:induction false} MergeSortStable<T(!new)>(le: (T, T) -> bool, s: seq<T>, e: T)
    requires TotalPreorder(le)
    ensures Ties(le, MergeSortSeq(le, s), e) == Ties(le, s, e)
    decreases |s|
  {
    if |s| > 1 {
      var h := (|s| + 1) / 2;
      var sl, sr := MergeSortSeq(le, s[..h]), MergeSortSeq(le, s[h..]);
      MergeSortStable(le, s[..h], e);
      MergeSortStable(le, s[h..], e);
      MergeSortSorts(le, s[..h]);
      MergeSortSorts(le, s[h..]);
      MergeStable(le, sl, sr, e);
      assert MergeSortSeq(le, s) == MergeSeq(le, sl, sr);
      TiesAppend(le, s[..h], s[h..], e);
      SplitJoin(s, h);
    }
  }

  /** Two sorted permutations of each other under an antisymmetric order start alike. */
  lemma SortedPermutationFront<T>(le: (T, T) -> bool, a: seq<T>, b: seq<T>)
    requires forall x, y :: le(x, y) && le(y, x) ==> x == y
    requires Sorted(le, a) && Sorted(le, b) && multiset(a) == multiset(b) && |a| > 0
    ensures |b| > 0 && a[0] == b[0]
  {
    assert a[0] in multiset(b);
    var i :| 0 <= i < |b| && b[i] == a[0];
    assert b[0] in multiset(a);
    var j :| 0 <= j < |a| && a[j] == b[0];
    assert i == 0 || le(b[0], a[0]);
    assert j == 0 || le(a[0], b[0]);
  }

  /** Sequences with equal fronts and equal tails are equal. */
  lemma FrontAndTail<T>(a: seq<T>, b: seq<T>)
    requires |a| > 0 && |b| > 0 && a[0] == b[0] && a[1..] == b[1..]
    ensures a == b
  {
    assert a == [a[0]] + a[1..];
    assert b == [b[0]] + b[1..];
  }

  /** For an antisymmetric order, a sorted permutation is unique. */
  lemma {:induction false} SortedPermutationUnique<T>(le: (T, T) -> bool, a: seq<T>, b: seq<T>)
    requires forall x, y :: le(x, y) && le(y, x) ==> x == y
    requires Sorted(le, a) && Sorted(le, b) && multiset(a) == multiset(b)
    ensures a == b
    decreases |a|
  {
    if |a| > 0 {
      SortedPermutationFront(le, a, b);
      MultisetFront(a);
      MultisetFront(b);
      assert multiset(a[1..]) == multiset(a) - multiset{a[0]};
      SortedTail(le, a);
      SortedTail(le, b);
      SortedPermutationUnique(le, a[1..], b[1..]);
      FrontAndTail(a, b);
    } else {
      assert |b| == |multiset(b)| == |multiset(a)| == 0;
    }
  }

  /** Integers compared by `compareTo`: `x.compareTo(y) <= 0` exactly when `x <= y`. */
  predicate IntLe(x: int, y: int)
  {
    x <= y
  }

  /** Every integer of `s` is at most its right neighbour. */
  predicate NeighboursInOrder(s: seq<int>)
  {
    |s| < 2 || (s[0] <= s[1] && NeighboursInOrder(s[1..]))
  }

  /** A sequence of integers whose neighbours are in order is sorted. */
  lemma {:induction false} SortedByNeighbours(s: seq<int>)
    requires NeighboursInOrder(s)
    ensures Sorted(IntLe, s)
    decreases |s|
  {
    if |s| > 1 {
      SortedByNeighbours(s[1..]);
      assert forall j :: 0 < j < |s| ==> s[j] == s[1..][j - 1];
    }
  }

  /** Two integers are sorted by one comparison. */
  lemma SortPair(x: int, y: int)
    ensures MergeSortSeq(IntLe, [x, y]) == if x <= y then [x, y] else [y, x]
  {
    assert [x, y][..1] == [x] && [x, y][1..] == [y] && [x][1..] == [] && [y][1..] == [];
    assert MergeSortSeq(IntLe, [x]) == [x] && MergeSortSeq(IntLe, [y]) == [y];
    assert MergeSortSeq(IntLe, [x, y]) == MergeSeq(IntLe, [x], [y]);
  }

  /** `{3, 1, 4}` sorts to `{1, 3, 4}`. */
  lemma SortExampleTriple()
    ensures MergeSortSeq(IntLe, [3, 1, 4]) == [1, 3, 4]
  {
    assert [3, 1, 4][..2] == [3, 1] && [3, 1, 4][2..] == [4];
    assert MergeSortSeq(IntLe, [3, 1, 4]) == MergeSeq(IntLe, MergeSortSeq(IntLe, [3, 1]), MergeSortSeq(IntLe, [4]));
    SortPair(3, 1);
    MergeOrderedRuns(IntLe, [1, 3], [4]);
  }

  /** The left half of the test array, `{3, 1, 4, 1, 5}`, sorts to `{1, 1, 3, 4, 5}`. */
  lemma SortExampleLeft()
    ensures MergeSortSeq(IntLe, [3, 1, 4, 1, 5]) == [1, 1, 3, 4, 5]
  {
    var a := [3, 1, 4, 1, 5];
    assert a[..3] == [3, 1, 4] && a[3..] == [1, 5];
    assert MergeSortSeq(IntLe, a) == MergeSeq(IntLe, MergeSortSeq(IntLe, [3, 1, 4]), MergeSortSeq(IntLe, [1, 5]));
    SortExampleTriple();
    SortPair(1, 5);
    MergeExampleLeft();
  }

  /** Merging the sorted runs `{1, 3, 4}` and `{1, 5}` takes the left `1` first. */
  lemma MergeExampleLeft()
    ensures MergeSeq(IntLe, [1, 3, 4], [1, 5]) == [1, 1, 3, 4, 5]
  {
    assert [1, 3, 4][1..] == [3, 4] && [1, 5][1..] == [5];
    MergeStep(IntLe, [1, 3, 4], [1, 5]);
    assert MergeSeq(IntLe, [1, 3, 4], [1, 5]) == [1] + MergeSeq(IntLe, [3, 4], [1, 5]);
    MergeStep(IntLe, [3, 4], [1, 5]);
    assert MergeSeq(IntLe, [3, 4], [1, 5]) == [1] + MergeSeq(IntLe, [3, 4], [5]);
    MergeOrderedRuns(IntLe, [3, 4], [5]);
    assert MergeSeq(IntLe, [3, 4], [5]) == [3, 4, 5];
  }

  /** The right half of the test array, `{9, 2, 6, 5}`, sorts to `{2, 5, 6, 9}`. */
  lemma SortExampleRight()
    ensures MergeSortSeq(IntLe, [9, 2, 6, 5]) == [2, 5, 6, 9]
  {
    var c := [9, 2, 6, 5];
    assert c[..2] == [9, 2] && c[2..] == [6, 5];
    SortPair(9, 2);
    SortPair(6, 5);
    assert MergeSeq(IntLe, [2, 9], [5, 6]) == [2, 5, 6, 9] by {
      assert [2, 9][1..] == [9] && [5, 6][1..] == [6] && [6][1..] == [];
      assert MergeSeq(IntLe, [9], [5, 6]) == [5] + MergeSeq(IntLe, [9], [6]);
      assert MergeSeq(IntLe, [9], [6]) == [6, 9];
    }
  }

  /** Sorting keeps duplicates: `{3, 1, 4, 1, 5, 9, 2, 6, 5}` sorts to `{1, 1, 2, 3, 4, 5, 5, 6, 9}`. */
  lemma SortKeepsDuplicates()
    ensures MergeSortSeq(IntLe, [3, 1, 4, 1, 5, 9, 2, 6, 5]) == [1, 1, 2, 3, 4, 5, 5, 6, 9]
  {
    var s := [3, 1, 4, 1, 5, 9, 2, 6, 5];
    assert s[..5] == [3, 1, 4, 1, 5] && s[5..] == [9, 2, 6, 5];
    SortExampleLeft();
    SortExampleRight();
    MergeExampleHalves();
  }

  /**
   * The last merge of the test array: the tie between the two 5s goes to the left
   * run's 5 first.
   */
  lemma MergeExampleHalves()
    ensures MergeSeq(IntLe, [1, 1, 3, 4, 5], [2, 5, 6, 9]) == [1, 1, 2, 3, 4, 5, 5, 6, 9]
  {
    assert [1, 1, 3, 4, 5][1..] == [1, 3, 4, 5] && [1, 3, 4, 5][1..] == [3, 4, 5];
    assert [2, 5, 6, 9][1..] == [5, 6, 9];
    MergeOrderedRuns(IntLe, [3, 4, 5], [5, 6, 9]);
    MergeStep(IntLe, [3, 4, 5], [2, 5, 6, 9]);
    MergeStep(IntLe, [1, 3, 4, 5], [2, 5, 6, 9]);
    MergeStep(IntLe, [1, 1, 3, 4, 5], [2, 5, 6, 9]);
  }

  // ---------------------------------------------------------------------------
  // The in-place methods
  // ---------------------------------------------------------------------------

  /** The array after `merge(p, q, r)`: the runs `[p, q]` and `[q+1, r]` merged in place. */
  function MergedRange<T>(le: (T, T) -> bool, s: seq<T>, p: int, q: int, r: int): (m: seq<T>)
    requires 0 <= p <= q + 1 <= r + 1 <= |s|
    ensures |m| == |s|
  {
    s[..p] + MergeSeq(le, s[p..q + 1], s[q + 1..r + 1]) + s[r + 1..]
  }

  /** The array after `mergeSort(p, r)`: the range `[p, r]` merge-sorted in place. */
  function SortedRange<T>(le: (T, T) -> bool, s: seq<T>, p: int, r: int): (m: seq<T>)
    requires 0 <= p <= r + 1 <= |s|
    ensures |m| == |s|
  {
    s[..p] + MergeSortSeq(le, s[p..r + 1]) + s[r + 1..]
  }

  /**
   * `merge(array, p, q, r)`: copies `array[p..q]` and `array[q+1..r]` into temporaries
   * and writes them back merged; every index outside `[p, r]` is left alone. The first
   * loop of the Java code is `MergeFronts`; the second and third, which copy what is left
   * of one run, are both `CopyRest`.
   */
  method Merge<T>(a: array<T>, le: (T, T) -> bool, p: int, q: int, r: int)
    requires 0 <= p <= q + 1 <= r + 1 <= a.Length
    modifies a
    ensures a[..] == MergedRange(le, old(a[..]), p, q, r)
  {
    ghost var s0 := a[..];
    var left := a[p..q + 1];
    var right := a[q + 1..r + 1];
    ghost var merged := MergeFrom(le, left, right, 0, 0);

    var i, j, k := MergeFronts(a, le, left, right, p);
    ghost var k1 := k;
    RestOfMerge(le, left, right, i, j);
    i, k := CopyRest(a, left, i, k);
    j, k := CopyRest(a, right, j, k);

    forall t | p <= t <= r
      ensures a[t] == merged[t - p]
    {
      if k1 <= t {
        assert merged[t - p] == merged[k1 - p..][t - k1];
      }
    }
    MergeWritesMergedRange(le, a[..], s0, p, q, r);
  }

  /**
   * The first loop of `merge`: while both runs have elements left, write the smaller
   * front (the left one on a tie) to `a[k]`.
   */
  method MergeFronts<T>(a: array<T>, le: (T, T) -> bool, left: seq<T>, right: seq<T>, p: int)
      returns (i: int, j: int, k: int)
    requires 0 <= p && p + |left| + |right| <= a.Length
    modifies a
    ensures 0 <= i <= |left| && 0 <= j <= |right| && (i == |left| || j == |right|) && k == p + i + j
    ensures forall t :: 0 <= t < p || k <= t < a.Length ==> a[t] == old(a[t])
    ensures forall t :: p <= t < k ==> a[t] == MergeFrom(le, left, right, 0, 0)[t - p]
    ensures MergeFrom(le, left, right, i, j) == MergeFrom(le, left, right, 0, 0)[i + j..]
  {
    ghost var merged := MergeFrom(le, left, right, 0, 0);
    i, j, k := 0, 0, p;
    while i < |left| && j < |right|
      invariant 0 <= i <= |left| && 0 <= j <= |right| && k == p + i + j
      invariant forall t :: 0 <= t < p || k <= t < a.Length ==> a[t] == old(a[t])
      invariant forall t :: p <= t < k ==> a[t] == merged[t - p]
      invariant MergeFrom(le, left, right, i, j) == merged[i + j..]
    {
      if le(left[i], right[j]) {
        TakeLeft(le, left, right, i, j, merged);
        a[k] := left[i];
        i := i + 1;
      } else {
        TakeRight(le, left, right, i, j, merged);
        a[k] := right[j];
        j := j + 1;
      }
      k := k + 1;
    }
  }

  /** The second and third loops of `merge`: copy `run[i..]` to `a[k..]`. */
  method CopyRest<T>(a: array<T>, run: seq<T>, i0: int, k0: int) returns (i: int, k: int)
    requires 0 <= i0 <= |run| && 0 <= k0 && k0 + |run| - i0 <= a.Length
    modifies a
    ensures i == |run| && k == k0 + |run| - i0
    ensures forall t :: 0 <= t < k0 || k <= t < a.Length ==> a[t] == old(a[t])
    ensures forall t :: k0 <= t < k ==> a[t] == run[i0..][t - k0]
  {
    i, k := i0, k0;
    while i < |run|
      invariant i0 <= i <= |run| && k == k0 + i - i0
      invariant forall t :: 0 <= t < k0 || k <= t < a.Length ==> a[t] == old(a[t])
      invariant forall t :: k0 <= t < k ==> a[t] == run[t - k0 + i0]
    {
      a[k] := run[i];
      i := i + 1;
      k := k + 1;
    }
  }

  /** Whether the next element `merge` writes, with `i` and `j` taken so far, comes from the left run. */
  predicate TakesLeft<T>(le: (T, T) -> bool, xs: seq<T>, ys: seq<T>, i: nat, j: nat)
  {
    i < |xs| && (j >= |ys| || le(xs[i], ys[j]))
  }

  /** The rest of the merge once `xs[..i]` and `ys[..j]` have been written. */
  ghost function MergeFrom<T>(le: (T, T) -> bool, xs: seq<T>, ys: seq<T>, i: nat, j: nat): (r: seq<T>)
    requires i <= |xs| && j <= |ys|
    ensures |r| == |xs| - i + |ys| - j
    decreases |xs| - i + |ys| - j
  {
    if i == |xs| && j == |ys| then []
    else if TakesLeft(le, xs, ys, i, j) then [xs[i]] + MergeFrom(le, xs, ys, i + 1, j)
    else [ys[j]] + MergeFrom(le, xs, ys, i, j + 1)
  }

  lemma {:induction false} MergeFromIsMergeSeq<T>(le: (T, T) -> bool, xs: seq<T>, ys: seq<T>, i: nat, j: nat)
    requires i <= |xs| && j <= |ys|
    ensures MergeFrom(le, xs, ys, i, j) == MergeSeq(le, xs[i..], ys[j..])
    decreases |xs| - i + |ys| - j
  {
    if i == |xs| && j == |ys| {
      assert xs[i..] == [] && ys[j..] == [];
    } else if TakesLeft(le, xs, ys, i, j) {
      assert xs[i..] == [xs[i]] + xs[i + 1..];
      MergeFromIsMergeSeq(le, xs, ys, i + 1, j);
      if j == |ys| {
        assert ys[j..] == [];
        if i + 1 == |xs| {
          assert xs[i + 1..] == [];
        }
      }
    } else {
      assert ys[j..] == [ys[j]] + ys[j + 1..];
      MergeFromIsMergeSeq(le, xs, ys, i, j + 1);
      if i == |xs| {
        assert xs[i..] == [];
        if j + 1 == |ys| {
          assert ys[j + 1..] == [];
        }
      }
    }
  }

  // One step of the first loop of `merge`: the next element written is the head of the
  // left or of the right run, and the rest of the merge goes on from there.

  lemma TakeLeft<T>(le: (T, T) -> bool, xs: seq<T>, ys: seq<T>, i: nat, j: nat, merged: seq<T>)
    requires i < |xs| && j <= |ys| && TakesLeft(le, xs, ys, i, j)
    requires i + j <= |merged| && MergeFrom(le, xs, ys, i, j) == merged[i + j..]
    ensures i + j < |merged| && merged[i + j] == xs[i]
    ensures MergeFrom(le, xs, ys, i + 1, j) == merged[i + j + 1..]
  {
    assert merged[i + j..] == [xs[i]] + MergeFrom(le, xs, ys, i + 1, j);
    assert merged[i + j..][1..] == merged[i + j + 1..];
  }

  lemma TakeRight<T>(le: (T, T) -> bool, xs: seq<T>, ys: seq<T>, i: nat, j: nat, merged: seq<T>)
    requires i <= |xs| && j < |ys| && !TakesLeft(le, xs, ys, i, j)
    requires i + j <= |merged| && MergeFrom(le, xs, ys, i, j) == merged[i + j..]
    ensures i + j < |merged| && merged[i + j] == ys[j]
    ensures MergeFrom(le, xs, ys, i, j + 1) == merged[i + j + 1..]
  {
    assert merged[i + j..] == [ys[j]] + MergeFrom(le, xs, ys, i, j + 1);
    assert merged[i + j..][1..] == merged[i + j + 1..];
  }

  /** Once one run is used up, the rest of the merge is the rest of the other run. */
  lemma {:induction false} RestOfMerge<T>(le: (T, T) -> bool, xs: seq<T>, ys: seq<T>, i: nat, j: nat)
    requires i <= |xs| && j <= |ys| && (i == |xs| || j == |ys|)
    ensures MergeFrom(le, xs, ys, i, j) == xs[i..] + ys[j..]
    decreases |xs| - i + |ys| - j
  {
    if i < |xs| {
      RestOfMerge(le, xs, ys, i + 1, j);
      assert ys[j..] == [];
      assert xs[i..] == [xs[i]] + xs[i + 1..];
    } else if j < |ys| {
      RestOfMerge(le, xs, ys, i, j + 1);
      assert xs[i..] == [];
      assert ys[j..] == [ys[j]] + ys[j + 1..];
    } else {
      assert xs[i..] == [] && ys[j..] == [];
    }
  }

  /** When the loops of `merge` are done, the array is `MergedRange` of what it was. */
  lemma MergeWritesMergedRange<T>(le: (T, T) -> bool, now: seq<T>, s0: seq<T>, p: int, q: int, r: int)
    requires 0 <= p <= q + 1 <= r + 1 <= |s0| == |now|
    requires forall t :: 0 <= t < p || r < t < |now| ==> now[t] == s0[t]
    requires forall t :: p <= t <= r ==> now[t] == MergeFrom(le, s0[p..q + 1], s0[q + 1..r + 1], 0, 0)[t - p]
    ensures now == MergedRange(le, s0, p, q, r)
  {
    var left, right := s0[p..q + 1], s0[q + 1..r + 1];
    var merged := MergeFrom(le, left, right, 0, 0);
    MergeFromIsMergeSeq(le, left, right, 0, 0);
    assert left[0..] == left && right[0..] == right;
    var spliced := s0[..p] + merged + s0[r + 1..];
    forall t | 0 <= t < |now|
      ensures now[t] == spliced[t]
    {
      if t < p {
        assert spliced[t] == s0[..p][t];
      } else if t <= r {
        assert spliced[t] == merged[t - p];
      } else {
        assert spliced[t] == s0[r + 1..][t - r - 1];
      }
    }
  }

  /** The pieces of a concatenation of three sequences, sliced back out. */
  lemma Pieces<T>(pre: seq<T>, mid: seq<T>, post: seq<T>)
    ensures (pre + mid + post)[..|pre|] == pre
    ensures (pre + mid + post)[|pre|..|pre| + |mid|] == mid
    ensures (pre + mid + post)[|pre| + |mid|..] == post
    ensures (pre + mid + post)[|pre|..] == mid + post
    ensures (pre + mid + post)[..|pre| + |mid|] == pre + mid
  {
  }

  /** Sorting the middle part `mid` of `s = pre + mid + post` as the range `[i, j]`. */
  lemma SortMiddle<T>(le: (T, T) -> bool, s: seq<T>, pre: seq<T>, mid: seq<T>, post: seq<T>, i: int, j: int)
    requires s == pre + mid + post && |mid| > 0 && i == |pre| && j == |pre| + |mid| - 1
    ensures SortedRange(le, s, i, j) == pre + MergeSortSeq(le, mid) + post
  {
    Pieces(pre, mid, post);
    assert s[..i] == pre;
    assert s[i..j + 1] == mid;
    assert s[j + 1..] == post;
  }

  /** A range of two or more elements is sorted by merging its sorted halves `[p, q]` and `[q+1, r]`. */
  lemma SortedRangeSplit<T>(le: (T, T) -> bool, s: seq<T>, p: int, q: int, r: int)
    requires 0 <= p < r < |s| && q == Midpoint(p, r)
    ensures MergeSortSeq(le, s[p..r + 1]) == MergeSeq(le, MergeSortSeq(le, s[p..q + 1]), MergeSortSeq(le, s[q + 1..r + 1]))
  {
    var t := s[p..r + 1];
    var h := q + 1 - p;
    MidpointHalf(p, r);
    SliceHalves(s, p, q + 1, r + 1);
    MergeSortHalves(le, t, h, s[p..q + 1], s[q + 1..r + 1]);
  }

  /** The left half `[p, Midpoint(p, r)]` is the half `MergeSortSeq` takes of the range. */
  lemma MidpointHalf(p: int, r: int)
    requires 0 <= p < r
    ensures Midpoint(p, r) + 1 - p == (r + 1 - p + 1) / 2
  {
  }

  /** Splitting the slice `s[p..r]` at `m` gives the slices `s[p..m]` and `s[m..r]`. */
  lemma SliceHalves<T>(s: seq<T>, p: int, m: int, r: int)
    requires 0 <= p <= m <= r <= |s|
    ensures s[p..r][..m - p] == s[p..m] && s[p..r][m - p..] == s[m..r]
  {
  }

  /** One step of `MergeSortSeq` on a sequence of two or more elements. */
  lemma MergeSortHalves<T>(le: (T, T) -> bool, t: seq<T>, h: int, lo: seq<T>, hi: seq<T>)
    requires |t| > 1 && h == (|t| + 1) / 2 && lo == t[..h] && hi == t[h..]
    ensures MergeSortSeq(le, t) == MergeSeq(le, MergeSortSeq(le, lo), MergeSortSeq(le, hi))
  {
  }

  /** Merging the middle parts `xs` and `ys` of `s = pre + xs + ys + post` as the runs `[p, q]`, `[q+1, r]`. */
  lemma MergeMiddle<T>(le: (T, T) -> bool, s: seq<T>, pre: seq<T>, xs: seq<T>, ys: seq<T>, post: seq<T>, p: int, q: int, r: int)
    requires s == pre + xs + ys + post && |xs| > 0 && |ys| > 0
    requires p == |pre| && q == |pre| + |xs| - 1 && r == |pre| + |xs| + |ys| - 1
    ensures MergedRange(le, s, p, q, r) == pre + MergeSeq(le, xs, ys) + post
  {
    Pieces4(pre, xs, ys, post);
    assert s[..p] == pre;
    assert s[p..q + 1] == xs;
    assert s[q + 1..r + 1] == ys;
    assert s[r + 1..] == post;
  }

  /** The four pieces of a concatenation of four sequences, sliced back out. */
  lemma Pieces4<T>(a: seq<T>, b: seq<T>, c: seq<T>, d: seq<T>)
    ensures (a + b + c + d)[..|a|] == a
    ensures (a + b + c + d)[|a|..|a| + |b|] == b
    ensures (a + b + c + d)[|a| + |b|..|a| + |b| + |c|] == c
    ensures (a + b + c + d)[|a| + |b| + |c|..] == d
  {
  }

  /** A sequence cut at three points is the concatenation of the four pieces. */
  lemma SplitFour<T>(s: seq<T>, i: nat, j: nat, k: nat)
    requires i <= j <= k <= |s|
    ensures s == s[..i] + s[i..j] + (s[j..k] + s[k..])
  {
    assert s[j..] == s[j..k] + s[k..];
    assert s[i..] == s[i..j] + s[j..];
    assert s == s[..i] + s[i..];
  }

  lemma Associate<T>(a: seq<T>, b: seq<T>, c: seq<T>, d: seq<T>)
    ensures a + b + (c + d) == a + b + c + d
  {
  }

  /**
   * `mergeSort(p, r)` as the Java code performs it: sort `[p, q]`, then `[q+1, r]`, then
   * merge the two runs; the result is `SortedRange(s, p, r)`.
   */
  lemma SortedRangeSteps<T>(le: (T, T) -> bool, s0: seq<T>, p: int, q: int, r: int)
    requires 0 <= p < r < |s0| && q == Midpoint(p, r)
    ensures MergedRange(le, SortedRange(le, SortedRange(le, s0, p, q), q + 1, r), p, q, r)
         == SortedRange(le, s0, p, r)
  {
    var before, lo, hi, after := s0[..p], s0[p..q + 1], s0[q + 1..r + 1], s0[r + 1..];
    var s2 := SortedRange(le, SortedRange(le, s0, p, q), q + 1, r);
    SortBothHalves(le, s0, p, q, r);
    MergeMiddle(le, s2, before, MergeSortSeq(le, lo), MergeSortSeq(le, hi), after, p, q, r);
    SortedRangeSplit(le, s0, p, q, r);
  }

  /** The first two steps of `mergeSort(p, r)`: each half sorted in place, the rest untouched. */
  lemma SortBothHalves<T>(le: (T, T) -> bool, s0: seq<T>, p: int, q: int, r: int)
    requires 0 <= p <= q < r < |s0|
    ensures SortedRange(le, SortedRange(le, s0, p, q), q + 1, r)
         == s0[..p] + MergeSortSeq(le, s0[p..q + 1]) + MergeSortSeq(le, s0[q + 1..r + 1]) + s0[r + 1..]
  {
    var before, lo, hi, after := s0[..p], s0[p..q + 1], s0[q + 1..r + 1], s0[r + 1..];
    var slo := MergeSortSeq(le, lo);
    SplitFour(s0, p, q + 1, r + 1);
    assert s0 == before + lo + (hi + after);
    assert |before| == p && |lo| == q + 1 - p && |lo| > 0;

    var s1 := SortedRange(le, s0, p, q);
    SortMiddle(le, s0, before, lo, hi + after, p, q);
    Associate(before, slo, hi, after);
    assert s1 == before + slo + hi + after;
    assert |before + slo| == q + 1 && |hi| == r - q;
    SortMiddle(le, s1, before + slo, hi, after, q + 1, r);
  }

  /** A range of at most one element is left as it is. */
  lemma SortedRangeShort<T>(le: (T, T) -> bool, s0: seq<T>, p: int, r: int)
    requires 0 <= p <= r + 1 <= |s0| && r <= p
    ensures SortedRange(le, s0, p, r) == s0
  {
    assert s0 == s0[..p] + s0[p..r + 1] + s0[r + 1..];
  }

  /** `sort` calls `mergeSort(array, 0, length - 1)`: the whole array as one range. */
  lemma SortedRangeWhole<T>(le: (T, T) -> bool, s: seq<T>)
    requires |s| > 0
    ensures SortedRange(le, s, 0, |s| - 1) == MergeSortSeq(le, s)
  {
    assert s[..0] == [] && s[0..|s|] == s && s[|s|..] == [];
  }

  /** `mergeSort(array, p, r)`: sorts `array[p..r]` in place, recursing on both halves. */
  method MergeSortRange<T>(a: array<T>, le: (T, T) -> bool, p: int, r: int)
    requires 0 <= p <= r + 1 <= a.Length
    modifies a
    ensures a[..] == SortedRange(le, old(a[..]), p, r)
    decreases r - p
  {
    if p < r {
      ghost var s0 := a[..];
      var q := Midpoint(p, r);
      MergeSortRange(a, le, p, q);
      MergeSortRange(a, le, q + 1, r);
      Merge(a, le, p, q, r);
      SortedRangeSteps(le, s0, p, q, r);
    } else {
      SortedRangeShort(le, a[..], p, r);
    }
  }

  /**
   * `sort(array)`: a null array or one with fewer than two elements is left as it is;
   * otherwise the whole array is merge-sorted.
   */
  method Sort<T(!new)>(a: array?<T>, le: (T, T) -> bool)
    modifies a
    ensures a != null ==> a[..] == MergeSortSeq(le, old(a[..]))
    ensures a != null && a.Length < 2 ==> a[..] == old(a[..])
    ensures a != null ==> multiset(a[..]) == multiset(old(a[..]))
    ensures a != null && TotalPreorder(le) ==> Sorted(le, a[..])
  {
    if a == null || a.Length < 2 {
      return;
    }
    ghost var s := a[..];
    MergeSortRange(a, le, 0, a.Length - 1);
    SortedRangeWhole(le, s);
    MergeSortPermutes(le, s);
    if TotalPreorder(le) {
      MergeSortSorts(le, s);
    }
  }
}
