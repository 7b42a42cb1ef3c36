/**
 * `ChainedHashMap`: key/value entries chained in a fixed array of buckets. The bucket of
 * a key is `abs(hashCode) % buckets`; `put` overwrites the value of an existing entry in
 * place or appends a new entry, so each key has at most one entry.
 *
 * Java's `equals` on keys is Dafny's `==` on `K` (a key stands for its class of equal
 * keys) and `hashCode` is the function `hashCode`. Entries are compared by key only, as
 * `Entry.equals` does; a bucket is the element sequence of a `List` of entries.
 */
module HashMap {
  import opened Wrappers
  import opened JavaInt
  import opened Hashing
  import opened Lists

  /** `Entry`: a key and its current value. */
  datatype Entry<K, V> = Entry(key: K, value: V)

  /** `Entry.equals` compares keys only: this is the projection it compares. */
  function EntryKey<K, V>(e: Entry<K, V>): K
  {
    e.key
  }

  /** The value of the entry for `k` in bucket `b`, as `get` reads it. */
  function ValueIn<K(==), V>(b: seq<Entry<K, V>>, k: K): (r: Option<V>)
    ensures r.Some? <==> Has(EntryKey, b, k)
  {
    match Find(EntryKey, b, k)
    case Some(e) => Some(e.value)
    case None => None
  }

  /** The value `m` maps `k` to, if any. */
  function MapGet<K, V>(m: map<K, V>, k: K): (r: Option<V>)
    ensures r.Some? <==> k in m
    ensures r.Some? ==> r.value == m[k]
  {
    if k in m then Some(m[k]) else None
  }

  /** No two entries of bucket `b` have the same key. */
  ghost predicate UniqueKeys<K, V>(b: seq<Entry<K, V>>)
  {
    forall j1, j2 :: 0 <= j1 < j2 < |b| ==> b[j1].key != b[j2].key
  }

  class ChainedHashMap<K(==,!new), V> {
    const buckets: BucketCount
    const hashCode: K -> Int32
    var size: int
    const table: array<seq<Entry<K, V>>>
    ghost var mapping: map<K, V>

    /**
     * The buckets hold exactly the key/value pairs of `mapping`, each in the bucket of its
     * key and each key once, and `size` is the number of keys.
     */
    ghost predicate Valid()
      reads this, table
    {
      table.Length == buckets &&
      size == |mapping| &&
      Represents(table[..], mapping)
    }

    /** `bs` is a bucket array for the map `m`. */
    ghost predicate Represents(bs: seq<seq<Entry<K, V>>>, m: map<K, V>)
    {
      |bs| == buckets &&
      (forall i :: 0 <= i < |bs| ==> BucketOk(bs[i], i)) &&
      forall k :: ValueIn(bs[Hash(k)], k) == MapGet(m, k)
    }

    /** Every entry of bucket `b` belongs in bucket `i`, and no key occurs twice in it. */
    ghost predicate BucketOk(b: seq<Entry<K, V>>, i: nat)
    {
      (forall j :: 0 <= j < |b| ==> Hash(b[j].key) == i) && UniqueKeys(b)
    }

    /** The constructor: `buckets` empty buckets and no mapping. */
    constructor (buckets: BucketCount, hashCode: K -> Int32)
      ensures Valid() && fresh(table)
      ensures this.buckets == buckets && this.hashCode == hashCode
      ensures mapping == map[]
    {
      this.buckets := buckets;
      this.hashCode := hashCode;
      size := 0;
      mapping := map[];
      var t := new seq<Entry<K, V>>[buckets];
      var i := 0;
      while i < buckets
        invariant 0 <= i <= buckets
        invariant forall j :: 0 <= j < i ==> t[j] == []
      {
        t[i] := [];
        i := i + 1;
      }
      table := t;
    }

    /**
     * `hash`: the bucket of `key`, always a valid index; it is the Java code's
     * `Math.abs(key.hashCode()) % buckets` for every hash code but `Integer.MIN_VALUE`.
     */
    function Hash(key: K): (i: nat)
      ensures i < buckets
      ensures hashCode(key) != MinInt32 ==> i == BucketIndexAsWritten(hashCode(key), buckets)
    {
      BucketIndex(hashCode(key), buckets)
    }

    /** At most one entry per key in the whole map. */
    lemma OneEntryPerKey(i1: nat, j1: nat, i2: nat, j2: nat)
      requires Valid()
      requires i1 < table.Length && j1 < |table[i1]| && i2 < table.Length && j2 < |table[i2]|
      requires table[i1][j1].key == table[i2][j2].key
      ensures i1 == i2 && j1 == j2
    {
      var bs := table[..];
      assert bs[i1][j1] == table[i1][j1] && bs[i2][j2] == table[i2][j2];
      assert BucketOk(bs[i1], i1) && BucketOk(bs[i2], i2);
    }

    /** `get`: the value mapped to `key`, or `None` when there is no mapping. */
    function Get(key: K): (r: Option<V>)
      reads this, table
      requires Valid()
      ensures r == if key in mapping then Some(mapping[key]) else None
    {
      assert table[..][Hash(key)] == table[Hash(key)];
      ValueIn(table[Hash(key)], key)
    }

    /** `containsKey`: there is a mapping for `key`, whatever its value. */
    function ContainsKey(key: K): (b: bool)
      reads this, table
      requires Valid()
      ensures b <==> key in mapping
    {
      assert table[..][Hash(key)] == table[Hash(key)];
      Has(EntryKey, table[Hash(key)], key)
    }

    /** `size`: the number of keys mapped. */
    function Size(): (n: int)
      reads this, table
      requires Valid()
      ensures n == |mapping|
    {
      size
    }

    /** `isEmpty`: no key is mapped. */
    function IsEmpty(): (e: bool)
      reads this, table
      requires Valid()
      ensures e <==> mapping == map[]
    {
      size == 0
    }

    /**
     * `put`: maps `key` to `value`. An existing entry has its value overwritten and the
     * old value is returned; otherwise a new entry is appended, `size` grows and the
     * result is `None` (Java's `null`).
     */
    method Put(key: K, value: V) returns (previous: Option<V>)
      requires Valid()
      modifies this, table
      ensures Valid()
      ensures mapping == old(mapping)[key := value]
      ensures previous == if key in old(mapping) then Some(old(mapping)[key]) else None
      ensures forall i :: 0 <= i < table.Length && i != Hash(key) ==> table[i] == old(table[i])
    {
      var index := Hash(key);
      var bucket := table[index];
      ghost var bs := table[..];
      assert bucket == bs[index];
      var i := FirstIndex(EntryKey, bucket, key);
      var nb;
      if i < |bucket| {
        previous := Some(bucket[i].value);
        nb := bucket[i := bucket[i].(value := value)];
        PutExistingStep(bs, mapping, key, value);
      } else {
        previous := None;
        nb := bucket + [Entry(key, value)];
        PutNewStep(bs, mapping, key, value);
        size := size + 1;
      }
      table[index] := nb;
      mapping := mapping[key := value];
      assert table[..] == bs[index := nb];
    }

    /**
     * `remove`: deletes the mapping for `key` and returns its value; for an absent key
     * returns `None` (Java's `null`) and changes nothing.
     */
    method Remove(key: K) returns (previous: Option<V>)
      requires Valid()
      modifies this, table
      ensures Valid()
      ensures mapping == old(mapping) - {key}
      ensures previous == if key in old(mapping) then Some(old(mapping)[key]) else None
      ensures forall i :: 0 <= i < table.Length && i != Hash(key) ==> table[i] == old(table[i])
    {
      var index := Hash(key);
      var bucket := table[index];
      ghost var bs := table[..];
      assert bucket == bs[index];
      var result := Find(EntryKey, bucket, key);
      if result.Some? {
        previous := Some(result.value.value);
        var nb := RemoveFirst(EntryKey, bucket, EntryKey(result.value));
        RemoveStep(bs, mapping, key);
        table[index] := nb;
        size := size - 1;
        mapping := mapping - {key};
        assert table[..] == bs[index := nb];
        return;
      }
      assert key !in mapping;
      assert mapping - {key} == mapping;
      previous := None;
    }

    // -------------------------------------------------------------------------
    // One bucket replaced: the three updates on the bucket array
    // -------------------------------------------------------------------------

    /**
     * Replacing bucket `h` by `nb` turns a bucket array for `m` into one for `m'`, when
     * `nb` is a well-formed bucket `h` for `m'` and `m'` agrees with `m` outside bucket `h`.
     */
    lemma RepresentsUpdate(bs: seq<seq<Entry<K, V>>>, m: map<K, V>, h: nat, nb: seq<Entry<K, V>>, m': map<K, V>)
      requires Represents(bs, m) && h < |bs| && BucketOk(nb, h)
      requires forall k :: Hash(k) == h ==> ValueIn(nb, k) == MapGet(m', k)
      requires forall k :: Hash(k) != h ==> MapGet(m', k) == MapGet(m, k)
      ensures Represents(bs[h := nb], m')
    {
      var bs' := bs[h := nb];
      forall k ensures ValueIn(bs'[Hash(k)], k) == MapGet(m', k) {
        if Hash(k) != h {
          assert bs'[Hash(k)] == bs[Hash(k)];
        }
      }
    }

    /** A bucket with the same keys in the same order as a well-formed bucket is well formed. */
    lemma BucketOkSameKeys(b: seq<Entry<K, V>>, nb: seq<Entry<K, V>>, h: nat)
      requires BucketOk(b, h) && |nb| == |b|
      requires forall j :: 0 <= j < |nb| ==> nb[j].key == b[j].key
      ensures BucketOk(nb, h)
    {
    }

    /** Removing the entry for `k` from a well-formed bucket leaves it well formed. */
    lemma BucketOkRemove(b: seq<Entry<K, V>>, h: nat, k: K)
      requires BucketOk(b, h) && Has(EntryKey, b, k)
      ensures BucketOk(RemoveFirst(EntryKey, b, k), h)
    {
      var nb := RemoveFirst(EntryKey, b, k);
      var i := FirstIndex(EntryKey, b, k);
      assert forall j :: 0 <= j < |nb| ==> nb[j] == if j < i then b[j] else b[j + 1];
    }

    /** Overwriting the value of the entry for `k` in its bucket maps `k` to `v`. */
    lemma PutExistingStep(bs: seq<seq<Entry<K, V>>>, m: map<K, V>, k: K, v: V)
      requires Represents(bs, m) && Has(EntryKey, bs[Hash(k)], k)
      ensures var b := bs[Hash(k)];
        var i := FirstIndex(EntryKey, b, k);
        k in m && b[i].value == m[k] && Represents(bs[Hash(k) := b[i := b[i].(value := v)]], m[k := v])
    {
      var h := Hash(k);
      var b := bs[h];
      var i := FirstIndex(EntryKey, b, k);
      var e: Entry<K, V> := b[i].(value := v);
      var nb := b[i := e];
      var m' := m[k := v];
      assert ValueIn(b, k) == MapGet(m, k);
      BucketOkSameKeys(b, nb, h);
      forall k' | Hash(k') == h ensures ValueIn(nb, k') == MapGet(m', k') {
        assert ValueIn(b, k') == MapGet(m, k');
        FindAfterReplace(EntryKey, b, e, k');
      }
      forall k' | Hash(k') != h ensures MapGet(m', k') == MapGet(m, k') {
        assert k' != k;
      }
      RepresentsUpdate(bs, m, h, nb, m');
    }

    /** Appending an entry for an unmapped `k` to its bucket maps `k` to `v`. */
    lemma PutNewStep(bs: seq<seq<Entry<K, V>>>, m: map<K, V>, k: K, v: V)
      requires Represents(bs, m) && !Has(EntryKey, bs[Hash(k)], k)
      ensures k !in m && Represents(bs[Hash(k) := bs[Hash(k)] + [Entry(k, v)]], m[k := v])
    {
      var h := Hash(k);
      var b := bs[h];
      var e := Entry(k, v);
      var nb := b + [e];
      var m' := m[k := v];
      assert ValueIn(b, k) == MapGet(m, k);
      assert BucketOk(b, h);
      assert forall j :: 0 <= j < |nb| ==> nb[j] == if j < |b| then b[j] else e;
      forall j | 0 <= j < |b| ensures b[j].key != k {
        assert EntryKey(b[j]) != k;
      }
      forall k' | Hash(k') == h ensures ValueIn(nb, k') == MapGet(m', k') {
        assert ValueIn(b, k') == MapGet(m, k');
        if k' == k {
          FindAfterAppend(EntryKey, b, e);
        } else {
          FindAfterAppendOther(EntryKey, b, e, k');
        }
      }
      forall k' | Hash(k') != h ensures MapGet(m', k') == MapGet(m, k') {
        assert k' != k;
      }
      RepresentsUpdate(bs, m, h, nb, m');
    }

    /** Removing the entry for a mapped `k` from its bucket unmaps `k`. */
    lemma RemoveStep(bs: seq<seq<Entry<K, V>>>, m: map<K, V>, k: K)
      requires Represents(bs, m) && Has(EntryKey, bs[Hash(k)], k)
      ensures k in m && Find(EntryKey, bs[Hash(k)], k).value.value == m[k]
      ensures Represents(bs[Hash(k) := RemoveFirst(EntryKey, bs[Hash(k)], k)], m - {k})
    {
      var h := Hash(k);
      var b := bs[h];
      var nb := RemoveFirst(EntryKey, b, k);
      var m' := m - {k};
      assert ValueIn(b, k) == MapGet(m, k);
      BucketOkRemove(b, h, k);
      forall k' | Hash(k') == h ensures ValueIn(nb, k') == MapGet(m', k') {
        assert ValueIn(b, k') == MapGet(m, k');
        if k' == k {
          RemoveOnlyFirst(EntryKey, b, k);
        } else {
          FindAfterRemoveOther(EntryKey, b, k, k');
        }
      }
      forall k' | Hash(k') != h ensures MapGet(m', k') == MapGet(m, k') {
        assert k' != k;
      }
      RepresentsUpdate(bs, m, h, nb, m');
    }
  }
}
