/**
 * The singly linked list of the library: a chain of nodes with `head`, `tail` and a
 * `size` counter, appended to at the tail and searched from the head.
 *
 * Java's `equals` on the elements is modelled by a key projection `key`: two elements
 * are equal exactly when their keys are. The search functions on sequences below state
 * what `lookup`, `contains` and `remove` do; the `List` class is proved against them.
 */
module Lists {
  import opened Wrappers

  // ---------------------------------------------------------------------------
  // Searching a sequence of elements
  // ---------------------------------------------------------------------------

  /** Some element of `s` has the key `k`. */
  predicate Has<T, K(==)>(key: T -> K, s: seq<T>, k: K)
  {
    exists i :: 0 <= i < |s| && key(s[i]) == k
  }

  /** The position of the first element of `s` with the key `k`, or `|s|` when there is none. */
  function FirstIndex<T, K(==)>(key: T -> K, s: seq<T>, k: K): (i: nat)
    ensures i <= |s|
    ensures forall j :: 0 <= j < i ==> key(s[j]) != k
    ensures i < |s| ==> key(s[i]) == k
    decreases |s|
  {
    if |s| == 0 then 0
    else if key(s[0]) == k then 0
    else 1 + FirstIndex(key, s[1..], k)
  }

  /** `lookup`: the first element of `s` with the key `k`, or `None` (Java's `null`). */
  function Find<T, K(==)>(key: T -> K, s: seq<T>, k: K): (r: Option<T>)
    ensures r.Some? <==> Has(key, s, k)
    ensures r.Some? ==> key(r.value) == k && r.value in s
    ensures r.Some? ==> exists i :: 0 <= i < |s| && s[i] == r.value && forall j :: 0 <= j < i ==> key(s[j]) != k
  {
    var i := FirstIndex(key, s, k);
    if i < |s| then Some(s[i]) else None
  }

  /** `remove`: `s` without its first element with the key `k`; `s` itself when there is none. */
  function RemoveFirst<T, K(==)>(key: T -> K, s: seq<T>, k: K): (r: seq<T>)
    ensures Has(key, s, k) ==> |r| == |s| - 1
    ensures !Has(key, s, k) ==> r == s
  {
    var i := FirstIndex(key, s, k);
    if i < |s| then s[..i] + s[i + 1..] else s
  }

  /** Removing takes exactly the element that `Find` returns out of the multiset. */
  lemma RemoveFirstMultiset<T, K>(key: T -> K, s: seq<T>, k: K)
    requires Has(key, s, k)
    ensures multiset(RemoveFirst(key, s, k)) == multiset(s) - multiset{Find(key, s, k).value}
  {
    var i := FirstIndex(key, s, k);
    var pre, post := s[..i], s[i + 1..];
    assert s == pre + [s[i]] + post;
    assert multiset(s) == multiset(pre) + multiset{s[i]} + multiset(post);
  }

  /** Every element whose key is not `k` survives `RemoveFirst`, as often as it occurred. */
  lemma {:induction false} RemoveFirstKeepsOthers<T, K>(key: T -> K, s: seq<T>, k: K, y: T)
    requires key(y) != k
    ensures multiset(RemoveFirst(key, s, k))[y] == multiset(s)[y]
  {
    if Has(key, s, k) {
      RemoveFirstMultiset(key, s, k);
      assert Find(key, s, k).value != y;
    }
  }

  /**
   * Only the first equal element goes: an element with the key `k` is still found
   * afterwards exactly when `s` held at least two of them.
   */
  lemma RemoveOnlyFirst<T, K>(key: T -> K, s: seq<T>, k: K)
    ensures Has(key, RemoveFirst(key, s, k), k) <==>
            exists i, j :: 0 <= i < j < |s| && key(s[i]) == k && key(s[j]) == k
  {
    var i := FirstIndex(key, s, k);
    var r := RemoveFirst(key, s, k);
    if Has(key, r, k) {
      var m :| 0 <= m < |r| && key(r[m]) == k;
      if m >= i {
        assert r[m] == s[m + 1];
      }
    }
    if exists a, b :: 0 <= a < b < |s| && key(s[a]) == k && key(s[b]) == k {
      var a, b :| 0 <= a < b < |s| && key(s[a]) == k && key(s[b]) == k;
      assert i <= a;
      assert r[b - 1] == s[b];
    }
  }

  /** After appending `x`, its key is found: at the earlier element if there was one, else at `x`. */
  lemma FindAfterAppend<T, K>(key: T -> K, s: seq<T>, x: T)
    ensures Find(key, s + [x], key(x)) == if Has(key, s, key(x)) then Find(key, s, key(x)) else Some(x)
  {
    var t, k := s + [x], key(x);
    assert t[|s|] == x;
    var i, i' := FirstIndex(key, s, k), FirstIndex(key, t, k);
    if Has(key, s, k) {
      assert i' == i by {
        assert t[i] == s[i];
        forall j | 0 <= j < i' ensures j < |s| && key(s[j]) != k {
          assert t[j] == s[j];
        }
      }
    } else {
      assert i' == |s| by {
        forall j | 0 <= j < |s| ensures key(t[j]) != k {
          assert t[j] == s[j];
        }
      }
    }
  }

  /** `remove(x)` undoes `insertNext(x)` when no element equal to `x` was present before. */
  lemma RemoveUndoesAppend<T, K>(key: T -> K, s: seq<T>, x: T)
    requires !Has(key, s, key(x))
    ensures RemoveFirst(key, s + [x], key(x)) == s
  {
    var t := s + [x];
    assert t[|s|] == x;
    forall j | 0 <= j < |s| ensures key(t[j]) != key(x) {
      assert t[j] == s[j];
    }
    assert FirstIndex(key, t, key(x)) == |s|;
    assert t[..|s|] == s;
  }

  /** Appending an element with another key does not change what a search for `k` finds. */
  lemma FindAfterAppendOther<T, K>(key: T -> K, s: seq<T>, x: T, k: K)
    requires key(x) != k
    ensures Find(key, s + [x], k) == Find(key, s, k)
  {
    var t := s + [x];
    assert forall j :: 0 <= j < |s| ==> t[j] == s[j];
    assert t[|s|] == x;
    var i, i' := FirstIndex(key, s, k), FirstIndex(key, t, k);
    if i < |s| {
      assert i' == i;
    } else {
      assert i' == |t|;
    }
  }

  /** `FirstIndex` is the one position before which no element has the key `k` and at which one does. */
  lemma FirstIndexAt<T, K>(key: T -> K, s: seq<T>, k: K, i: nat)
    requires i <= |s|
    requires forall j :: 0 <= j < i ==> key(s[j]) != k
    requires i < |s| ==> key(s[i]) == k
    ensures FirstIndex(key, s, k) == i
  {
  }

  /**
   * Overwriting the first element with the key of `x` by `x` makes a search for that key
   * find `x` and leaves every search for another key as it was.
   */
  lemma FindAfterReplace<T, K>(key: T -> K, s: seq<T>, x: T, k: K)
    requires Has(key, s, key(x))
    ensures var t := s[FirstIndex(key, s, key(x)) := x];
      Find(key, t, k) == if k == key(x) then Some(x) else Find(key, s, k)
  {
    var i := FirstIndex(key, s, key(x));
    var t := s[i := x];
    assert forall j :: 0 <= j < |s| && j != i ==> t[j] == s[j];
    if k == key(x) {
      FirstIndexAt(key, t, k, i);
    } else {
      var i0 := FirstIndex(key, s, k);
      FirstIndexAt(key, t, k, i0);
    }
  }

  /** A search looks at the first element, then at the rest. */
  lemma FindCons<T, K>(key: T -> K, s: seq<T>, k: K)
    requires |s| > 0
    ensures Find(key, s, k) == if key(s[0]) == k then Some(s[0]) else Find(key, s[1..], k)
  {
    if key(s[0]) != k {
      var i := FirstIndex(key, s[1..], k);
      assert i < |s| - 1 ==> s[1..][i] == s[i + 1];
    }
  }

  /** A removal keeps the first element unless it has the key `k`. */
  lemma RemoveCons<T, K>(key: T -> K, s: seq<T>, k: K)
    requires |s| > 0
    ensures RemoveFirst(key, s, k) == if key(s[0]) == k then s[1..] else [s[0]] + RemoveFirst(key, s[1..], k)
  {
    if key(s[0]) != k {
      var i := FirstIndex(key, s[1..], k);
      if i < |s| - 1 {
        assert s[..i + 1] == [s[0]] + s[1..][..i];
        assert s[i + 2..] == s[1..][i + 1..];
      }
    }
  }

  /** Removing the first element with key `k` does not change what a search for another key finds. */
  lemma {:induction false} FindAfterRemoveOther<T, K>(key: T -> K, s: seq<T>, k: K, k': K)
    requires k != k'
    ensures Find(key, RemoveFirst(key, s, k), k') == Find(key, s, k')
    decreases |s|
  {
    if |s| > 0 {
      FindCons(key, s, k');
      RemoveCons(key, s, k);
      if key(s[0]) != k {
        var t := [s[0]] + RemoveFirst(key, s[1..], k);
        FindCons(key, t, k');
        assert t[1..] == RemoveFirst(key, s[1..], k);
        FindAfterRemoveOther(key, s[1..], k, k');
      }
    }
  }

  // ---------------------------------------------------------------------------
  // The linked list
  // ---------------------------------------------------------------------------

  /** `ListNode`: one element and the link to the next node. */
  class Node<T> {
    var data: T
    var next: Node?<T>

    constructor (data: T)
      ensures this.data == data && next == null
    {
      this.data := data;
      next := null;
    }
  }

  /**
   * `List`: `head` and `tail` point into a chain of nodes whose length is `size`. The
   * ghost `nodes` is the chain from `head` to `tail`, `contents` the elements in
   * iteration order and `Repr` the objects the list owns.
   */
  class List<T> {
    var size: int
    var head: Node?<T>
    var tail: Node?<T>
    ghost var nodes: seq<Node<T>>
    ghost var contents: seq<T>
    ghost var Repr: set<object>

    ghost predicate Valid()
      reads this, Repr
    {
      this in Repr &&
      |nodes| == |contents| == size &&
      (forall i :: 0 <= i < |nodes| ==> nodes[i] in Repr) &&
      (forall i :: 0 <= i < |nodes| ==> nodes[i].data == contents[i]) &&
      (forall i :: 0 <= i < |nodes| - 1 ==> nodes[i].next == nodes[i + 1]) &&
      (forall i, j :: 0 <= i < j < |nodes| ==> nodes[i] != nodes[j]) &&
      if |nodes| == 0 then head == null && tail == null
      else head == nodes[0] && tail == nodes[|nodes| - 1] && tail.next == null
    }

    /** A new list is empty. */
    constructor ()
      ensures Valid() && fresh(Repr) && contents == []
    {
      size := 0;
      head := null;
      tail := null;
      nodes := [];
      contents := [];
      Repr := {this};
    }

    /** `getSize`: the number of elements. */
    function GetSize(): (n: int)
      reads this, Repr
      requires Valid()
      ensures n == |contents|
    {
      size
    }

    /** `isEmpty`: there are no elements. */
    function IsEmpty(): (e: bool)
      reads this, Repr
      requires Valid()
      ensures e <==> contents == []
    {
      size == 0
    }

    /** `insertNext`: appends `data` after the tail. */
    method InsertNext(data: T)
      requires Valid()
      modifies Repr
      ensures Valid() && fresh(Repr - old(Repr))
      ensures contents == old(contents) + [data]
    {
      var n := new Node(data);
      if head == null {
        head := n;
        tail := n;
      } else {
        tail.next := n;
        tail := n;
      }
      size := size + 1;
      nodes := nodes + [n];
      contents := contents + [data];
      Repr := Repr + {n};
    }

    /**
     * `remove`: unlinks the first node whose element equals `data`, moving `head` or
     * `tail` when that node is the first or the last; reports whether there was one.
     */
    method Remove<K(==)>(key: T -> K, data: T) returns (removed: bool)
      requires Valid()
      modifies Repr
      ensures Valid() && Repr <= old(Repr)
      ensures removed == Has(key, old(contents), key(data))
      ensures contents == RemoveFirst(key, old(contents), key(data))
    {
      if head == null {
        return false;
      }
      if key(head.data) == key(data) {
        RemoveHead();
        return true;
      }
      var current := head;
      ghost var c := 0;
      while current.next != null
        invariant Valid() && nodes == old(nodes) && contents == old(contents) && Repr == old(Repr)
        invariant 0 <= c < |nodes| && current == nodes[c]
        invariant current.next == if c + 1 < |nodes| then nodes[c + 1] else null
        invariant forall j :: 0 <= j <= c ==> key(contents[j]) != key(data)
        decreases |nodes| - c
      {
        if key(current.next.data) == key(data) {
          assert FirstIndex(key, contents, key(data)) == c + 1;
          RemoveAfter(current, c);
          return true;
        }
        current := current.next;
        c := c + 1;
      }
      return false;
    }

    /** Unlinks the head node. */
    method RemoveHead()
      requires Valid() && head != null
      modifies this
      ensures Valid() && Repr <= old(Repr)
      ensures contents == old(contents)[1..]
    {
      head := head.next;
      if head == null {
        tail := null;
      }
      size := size - 1;
      Repr := Repr - {nodes[0]};
      nodes := nodes[1..];
      contents := contents[1..];
    }

    /** Unlinks the node after the `c`-th one. */
    method RemoveAfter(current: Node<T>, ghost c: nat)
      requires Valid() && c + 1 < |nodes| && current == nodes[c]
      modifies this, current
      ensures Valid() && Repr <= old(Repr)
      ensures contents == old(contents)[..c + 1] + old(contents)[c + 2..]
    {
      ghost var n0, s0 := nodes, contents;
      assert current.next == n0[c + 1];
      assert c + 2 < |n0| ==> n0[c + 1].next == n0[c + 2];
      current.next := current.next.next;
      if current.next == null {
        tail := current;
      }
      size := size - 1;
      Repr := Repr - {n0[c + 1]};
      nodes := n0[..c + 1] + n0[c + 2..];
      contents := s0[..c + 1] + s0[c + 2..];
    }

    /** `removeWithStream`: removes only after a search has found an equal element. */
    method RemoveWithStream<K(==)>(key: T -> K, data: T) returns (removed: bool)
      requires Valid()
      modifies Repr
      ensures Valid() && Repr <= old(Repr)
      ensures removed == Has(key, old(contents), key(data))
      ensures contents == RemoveFirst(key, old(contents), key(data))
    {
      var found := Contains(key, data);
      if found {
        removed := Remove(key, data);
      } else {
        removed := false;
      }
    }

    /** `lookup`: walks the chain from `head` and returns the first element equal to `data`. */
    method Lookup<K(==)>(key: T -> K, data: T) returns (r: Option<T>)
      requires Valid()
      ensures r == Find(key, contents, key(data))
    {
      var current := head;
      ghost var c := 0;
      while current != null
        invariant 0 <= c <= |nodes|
        invariant current == if c < |nodes| then nodes[c] else null
        invariant forall j :: 0 <= j < c ==> key(contents[j]) != key(data)
        decreases |nodes| - c
      {
        if key(current.data) == key(data) {
          return Some(current.data);
        }
        current := current.next;
        c := c + 1;
      }
      return None;
    }

    /** `contains`: some element equals `data`. */
    method Contains<K(==)>(key: T -> K, data: T) returns (b: bool)
      requires Valid()
      ensures b == Has(key, contents, key(data))
    {
      var r := Lookup(key, data);
      b := r.Some?;
    }
  }
}
