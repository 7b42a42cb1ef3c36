/**
 * `ChainedHashTable`: a fixed array of buckets; an element goes to the bucket
 * `abs(hashCode) % buckets` and is appended there, so equal elements may be held
 * several times. Each bucket is the element sequence of a `List` (module `Lists`), and
 * the bucket operations are the sequence functions the `List` methods are proved against.
 *
 * Java's `equals` is the key projection `key` and `hashCode` is `hash` applied to the
 * key, so equal elements always have equal hash codes.
 */
module HashTable {
  import opened Wrappers
  import opened JavaInt
  import opened Hashing
  import opened Lists

  class ChainedHashTable<T, K(==)> {
    const buckets: BucketCount
    const key: T -> K
    const hash: K -> Int32
    var size: int
    const table: array<seq<T>>

    /** Every element sits in the bucket of its own index, and `size` counts them all. */
    ghost predicate Valid()
      reads this, table
    {
      table.Length == buckets &&
      size == TotalLength(table[..]) &&
      Placed(table[..])
    }

    /** Every element of every bucket in `bs` sits in the bucket of its own index. */
    ghost predicate Placed(bs: seq<seq<T>>)
    {
      forall i, j :: 0 <= i < |bs| && 0 <= j < |bs[i]| ==> ChainTableLookup(bs[i][j]) == i
    }

    /** Replacing bucket `i` by one whose elements all belong at `i` keeps every element in place. */
    lemma PlacedUpdate(bs: seq<seq<T>>, i: nat, b: seq<T>)
      requires Placed(bs) && i < |bs|
      requires forall j :: 0 <= j < |b| ==> ChainTableLookup(b[j]) == i
      ensures Placed(bs[i := b])
    {
    }

    /** All elements held, with multiplicity. */
    ghost function Elements(): multiset<T>
      reads this, table
    {
      AllElements(table[..])
    }

    /** Some element held equals `x`. */
    ghost predicate Holds(x: T)
      reads this, table
    {
      exists i, j :: 0 <= i < table.Length && 0 <= j < |table[i]| && key(table[i][j]) == key(x)
    }

    /** The constructor: `buckets` empty buckets. */
    constructor (buckets: BucketCount, key: T -> K, hash: K -> Int32)
      ensures Valid() && fresh(table)
      ensures this.buckets == buckets && this.key == key && this.hash == hash
      ensures Elements() == multiset{}
    {
      this.buckets := buckets;
      this.key := key;
      this.hash := hash;
      size := 0;
      var t := new seq<T>[buckets];
      var i := 0;
      while i < buckets
        invariant 0 <= i <= buckets
        invariant forall k :: 0 <= k < i ==> t[k] == []
      {
        t[i] := [];
        i := i + 1;
      }
      table := t;
      EmptyBuckets(t[..]);
    }

    /**
     * `chainTableLookup`: the bucket of `data`, always a valid index; it is the Java code's
     * `Math.abs(hash) % buckets` for every hash code but `Integer.MIN_VALUE`.
     */
    function ChainTableLookup(data: T): (i: nat)
      ensures i < buckets
      ensures hash(key(data)) != MinInt32 ==> i == BucketIndexAsWritten(hash(key(data)), buckets)
    {
      BucketIndex(hash(key(data)), buckets)
    }

    /** Whether an equal element is held is decided by the bucket of the element alone. */
    lemma BucketDecides(x: T)
      requires Valid()
      ensures Has(key, table[ChainTableLookup(x)], key(x)) <==> Holds(x)
    {
      var b := ChainTableLookup(x);
      if Holds(x) {
        var i, j :| 0 <= i < table.Length && 0 <= j < |table[i]| && key(table[i][j]) == key(x);
        assert table[..][i][j] == table[i][j];
      }
    }

    /** `lookup`: the first element equal to `data` in its bucket, or `None` (Java's `null`). */
    function Lookup(data: T): (r: Option<T>)
      reads this, table
      requires Valid()
      ensures r.Some? <==> Holds(data)
      ensures r.Some? ==> key(r.value) == key(data) && r.value in Elements()
    {
      var b := table[ChainTableLookup(data)];
      BucketDecides(data);
      var r := Find(key, b, key(data));
      if r.Some? then
        BucketInAll(table[..], ChainTableLookup(data));
        r
      else
        r
    }

    /** `insert`: appends `data` to its bucket; duplicates are kept. */
    method Insert(data: T)
      requires Valid()
      modifies this, table
      ensures Valid()
      ensures Elements() == old(Elements()) + multiset{data}
      ensures forall i :: 0 <= i < table.Length && i != ChainTableLookup(data) ==> table[i] == old(table[i])
      ensures Lookup(data) == if old(Lookup(data)).Some? then old(Lookup(data)) else Some(data)
    {
      var index := ChainTableLookup(data);
      ghost var bs := table[..];
      assert old(Lookup(data)) == Find(key, bs[index], key(data));
      var nb := table[index] + [data];
      InsertStep(bs, data);
      table[index] := nb;
      size := size + 1;
      assert table[..] == bs[index := nb];
    }

    /**
     * Appending `x` to its own bucket keeps every element in place, lengthens the table
     * by one, adds `x` to it, and lets the bucket's search find `x` if nothing equal came first.
     */
    lemma InsertStep(bs: seq<seq<T>>, x: T)
      requires Placed(bs) && |bs| == buckets
      ensures var i := ChainTableLookup(x);
        var bs' := bs[i := bs[i] + [x]];
        Placed(bs') &&
        TotalLength(bs') == TotalLength(bs) + 1 &&
        AllElements(bs') == AllElements(bs) + multiset{x} &&
        Find(key, bs'[i], key(x)) == if Has(key, bs[i], key(x)) then Find(key, bs[i], key(x)) else Some(x)
    {
      var i := ChainTableLookup(x);
      var nb := bs[i] + [x];
      assert forall j :: 0 <= j < |nb| ==> nb[j] == if j < |bs[i]| then bs[i][j] else x;
      PlacedUpdate(bs, i, nb);
      TotalLengthUpdate(bs, i, nb);
      AllElementsUpdate(bs, i, nb);
      BucketInAll(bs, i);
      assert multiset(nb) == multiset(bs[i]) + multiset{x};
      Grow(AllElements(bs), multiset(bs[i]), multiset{x});
      FindAfterAppend(key, bs[i], x);
    }

    /**
     * `remove`: takes the first element equal to `data` out of its bucket; the result
     * says whether the table held one, and only then does `size` go down.
     */
    method Remove(data: T) returns (removed: bool)
      requires Valid()
      modifies this, table
      ensures Valid()
      ensures removed == old(Holds(data))
      ensures Elements() == if removed then old(Elements()) - multiset{old(Lookup(data)).value} else old(Elements())
      ensures forall i :: 0 <= i < table.Length && i != ChainTableLookup(data) ==> table[i] == old(table[i])
    {
      var index := ChainTableLookup(data);
      var bucket := table[index];
      BucketDecides(data);
      if Has(key, bucket, key(data)) {
        ghost var bs := table[..];
        assert old(Lookup(data)) == Find(key, bs[index], key(data));
        var nb := RemoveFirst(key, bucket, key(data));
        RemoveStep(bs, index, key(data));
        table[index] := nb;
        size := size - 1;
        assert table[..] == bs[index := nb];
        return true;
      }
      return false;
    }

    /** `removeWithStream`: searches the bucket first and removes only when the search succeeds. */
    method RemoveWithStream(data: T) returns (removed: bool)
      requires Valid()
      modifies this, table
      ensures Valid()
      ensures removed == old(Holds(data))
      ensures Elements() == if removed then old(Elements()) - multiset{old(Lookup(data)).value} else old(Elements())
      ensures forall i :: 0 <= i < table.Length && i != ChainTableLookup(data) ==> table[i] == old(table[i])
    {
      var index := ChainTableLookup(data);
      BucketDecides(data);
      if Has(key, table[index], key(data)) {
        removed := Remove(data);
      } else {
        removed := false;
      }
    }

    /**
     * Removing the first element with key `k` from bucket `i` keeps every element in
     * place, shortens the table by one and takes that element out of it.
     */
    lemma RemoveStep(bs: seq<seq<T>>, i: nat, k: K)
      requires Placed(bs) && i < |bs| && Has(key, bs[i], k)
      ensures Placed(bs[i := RemoveFirst(key, bs[i], k)])
      ensures TotalLength(bs[i := RemoveFirst(key, bs[i], k)]) == TotalLength(bs) - 1
      ensures AllElements(bs[i := RemoveFirst(key, bs[i], k)]) == AllElements(bs) - multiset{Find(key, bs[i], k).value}
    {
      var b := bs[i];
      var nb := RemoveFirst(key, b, k);
      RemoveFirstMultiset(key, b, k);
      forall j | 0 <= j < |nb| ensures ChainTableLookup(nb[j]) == i {
        assert nb[j] in multiset(nb);
        assert nb[j] in b;
      }
      PlacedUpdate(bs, i, nb);
      TotalLengthUpdate(bs, i, nb);
      AllElementsUpdate(bs, i, nb);
    }

    /** An equal element is held exactly when some element with the same key is among the elements. */
    lemma HoldsElement(x: T)
      requires Valid()
      ensures Holds(x) <==> exists y :: y in Elements() && key(y) == key(x)
    {
      if Holds(x) {
        var i, j :| 0 <= i < table.Length && 0 <= j < |table[i]| && key(table[i][j]) == key(x);
        InAllElements(table[..], table[i][j]);
        assert table[..][i][j] == table[i][j];
      }
      if y :| y in Elements() && key(y) == key(x) {
        InAllElements(table[..], y);
        var i, j :| 0 <= i < |table[..]| && 0 <= j < |table[..][i]| && table[..][i][j] == y;
        assert table[i][j] == y;
      }
    }

    /** `size` counts the elements held. */
    lemma SizeCountsElements()
      requires Valid()
      ensures size == |Elements()|
    {
    }
  }

  /** An integer is its own key: `Integer.equals` compares values. */
  function IntKey(x: int): int
  {
    x
  }

  /** Where integers are their own keys, `lookup` finds exactly the integers held. */
  lemma LookupOwnKey(t: ChainedHashTable<int, int>, x: int)
    requires t.Valid() && t.key == IntKey
    ensures t.Lookup(x) == if x in t.Elements() then Some(x) else None
  {
    t.HoldsElement(x);
  }

  /** A table of 3 buckets holding integers, with 0, 3, 6, 1 and 4 inserted in that order. */
  method CollidingTable() returns (t: ChainedHashTable<int, int>)
    ensures fresh(t) && fresh(t.table) && t.Valid()
    ensures t.key == IntKey
    ensures t.Elements() == multiset{} + multiset{0} + multiset{3} + multiset{6} + multiset{1} + multiset{4}
  {
    t := new ChainedHashTable<int, int>(3, IntKey, Wrap32);
    t.Insert(0);
    t.Insert(3);
    t.Insert(6);
    t.Insert(1);
    t.Insert(4);
  }

  /**
   * Collisions do not hide elements: in a table of 3 buckets holding integers (whose hash
   * code is their value), 0, 3 and 6 share a bucket, and so do 1 and 4. All five are found;
   * after removing 3, it is gone while 0 and 6 are still found.
   */
  method CollisionScenario() returns (found: seq<Option<int>>, removed: bool, after: seq<Option<int>>)
    ensures found == [Some(0), Some(3), Some(6), Some(1), Some(4)]
    ensures removed
    ensures after == [None, Some(0), Some(6)]
  {
    var t := CollidingTable();
    ghost var held := t.Elements();
    assert 0 in held && 3 in held && 6 in held && 1 in held && 4 in held;
    assert 3 !in held - multiset{3} && 0 in held - multiset{3} && 6 in held - multiset{3};
    LookupOwnKey(t, 0);
    LookupOwnKey(t, 3);
    LookupOwnKey(t, 6);
    LookupOwnKey(t, 1);
    LookupOwnKey(t, 4);
    found := [t.Lookup(0), t.Lookup(3), t.Lookup(6), t.Lookup(1), t.Lookup(4)];
    removed := t.Remove(3);
    LookupOwnKey(t, 3);
    LookupOwnKey(t, 0);
    LookupOwnKey(t, 6);
    after := [t.Lookup(3), t.Lookup(0), t.Lookup(6)];
  }
}
