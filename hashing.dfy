/**
 * Bucket selection and bucket arrays, shared by the chained hash table and the chained
 * hash map: both pick the bucket of a value as `Math.abs(hashCode) % buckets` and keep
 * a fixed array of buckets.
 */
module Hashing {
  import opened JavaInt

  /** A bucket count that the constructor accepts and `%` can divide by. */
  type BucketCount = n: int | 0 < n <= 0x7FFF_FFFF witness 1

  /**
   * The bucket index exactly as the Java code computes it, in 32-bit arithmetic:
   * `Math.abs(hash) % buckets`.
   */
  function BucketIndexAsWritten(hash: Int32, buckets: BucketCount): int
  {
    JavaRem(JavaAbs(hash), buckets)
  }

  /** The bucket index the Java code evidently intends: the mathematical `|hash| mod buckets`. */
  function BucketIndex(hash: Int32, buckets: BucketCount): (i: nat)
    ensures i < buckets
  {
    Abs(hash) % buckets
  }

  /** Wherever Java's `Math.abs` does not overflow, the Java code's index is the intended one. */
  lemma AsWrittenAgreesBelowOverflow(hash: Int32, buckets: BucketCount)
    requires hash != MinInt32
    ensures BucketIndexAsWritten(hash, buckets) == BucketIndex(hash, buckets)
  {
  }

  /** The input that shows the discrepancy: `Integer.MIN_VALUE` with 3 buckets gives index -2. */
  lemma AsWrittenNegativeAtMinValue()
    ensures BucketIndexAsWritten(MinInt32, 3) == -2
    ensures BucketIndex(MinInt32, 3) == 2
  {
  }

  /** Every element held by an array of buckets, counted with multiplicity. */
  function AllElements<T>(bs: seq<seq<T>>): (m: multiset<T>)
    decreases |bs|
  {
    if bs == [] then multiset{} else AllElements(bs[..|bs| - 1]) + multiset(bs[|bs| - 1])
  }

  /** A bucket's elements are among all elements. */
  lemma {:induction false} BucketInAll<T>(bs: seq<seq<T>>, i: nat)
    requires i < |bs|
    ensures multiset(bs[i]) <= AllElements(bs)
    decreases |bs|
  {
    if i < |bs| - 1 {
      BucketInAll(bs[..|bs| - 1], i);
    }
  }

  /** Replacing one bucket replaces its share of the elements and nothing else. */
  lemma {:induction false} AllElementsUpdate<T>(bs: seq<seq<T>>, i: nat, b: seq<T>)
    requires i < |bs|
    ensures AllElements(bs[i := b]) == AllElements(bs) - multiset(bs[i]) + multiset(b)
    decreases |bs|
  {
    var n := |bs| - 1;
    var bs' := bs[i := b];
    assert AllElements(bs') == AllElements(bs'[..n]) + multiset(bs'[n]);
    assert AllElements(bs) == AllElements(bs[..n]) + multiset(bs[n]);
    if i == n {
      assert bs'[..n] == bs[..n];
    } else {
      assert bs'[..n] == bs[..n][i := b];
      assert bs'[n] == bs[n] && bs[..n][i] == bs[i];
      AllElementsUpdate(bs[..n], i, b);
      BucketInAll(bs[..n], i);
      MoveOut(AllElements(bs[..n]), multiset(bs[i]), multiset(b), multiset(bs[n]));
    }
  }

  /** Taking a part out of a multiset commutes with adding to it. */
  lemma MoveOut<T>(a: multiset<T>, x: multiset<T>, y: multiset<T>, z: multiset<T>)
    requires x <= a
    ensures a - x + y + z == a + z - x + y
  {
  }

  /** Replacing a part `x` of `a` by `x` plus `y` adds `y`. */
  lemma Grow<T>(a: multiset<T>, x: multiset<T>, y: multiset<T>)
    requires x <= a
    ensures a - x + (x + y) == a + y
  {
  }

  /** An element is held by the buckets exactly when some bucket holds it. */
  lemma {:induction false} InAllElements<T>(bs: seq<seq<T>>, x: T)
    ensures x in AllElements(bs) <==> exists i, j :: 0 <= i < |bs| && 0 <= j < |bs[i]| && bs[i][j] == x
    decreases |bs|
  {
    if bs != [] {
      var n := |bs| - 1;
      InAllElements(bs[..n], x);
      if x in AllElements(bs) {
        if x in multiset(bs[n]) {
          var j :| 0 <= j < |bs[n]| && bs[n][j] == x;
          assert bs[n][j] == x;
        } else {
          var i, j :| 0 <= i < n && 0 <= j < |bs[..n][i]| && bs[..n][i][j] == x;
          assert bs[i][j] == x;
        }
      } else {
        forall i, j | 0 <= i < |bs| && 0 <= j < |bs[i]|
          ensures bs[i][j] != x
        {
          if i == n {
            assert bs[n][j] in multiset(bs[n]);
          } else {
            assert bs[..n][i][j] == bs[i][j];
          }
        }
      }
    }
  }

  /** The number of elements is the sum of the bucket lengths. */
  function TotalLength<T>(bs: seq<seq<T>>): (n: nat)
    ensures n == |AllElements(bs)|
    decreases |bs|
  {
    if bs == [] then 0 else TotalLength(bs[..|bs| - 1]) + |bs[|bs| - 1]|
  }

  /** Replacing one bucket changes the total length by the difference of the two lengths. */
  lemma {:induction false} TotalLengthUpdate<T>(bs: seq<seq<T>>, i: nat, b: seq<T>)
    requires i < |bs|
    ensures TotalLength(bs[i := b]) == TotalLength(bs) - |bs[i]| + |b|
    decreases |bs|
  {
    var n := |bs| - 1;
    var bs' := bs[i := b];
    if i == n {
      assert bs'[..n] == bs[..n];
    } else {
      assert bs'[..n] == bs[..n][i := b];
      TotalLengthUpdate(bs[..n], i, b);
    }
  }

  /** A fresh array of `n` empty buckets holds nothing. */
  lemma {:induction false} EmptyBuckets<T>(bs: seq<seq<T>>)
    requires forall i :: 0 <= i < |bs| ==> bs[i] == []
    ensures AllElements(bs) == multiset{}
    decreases |bs|
  {
    if bs != [] {
      EmptyBuckets(bs[..|bs| - 1]);
    }
  }
}
