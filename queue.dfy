/**
 * The linked FIFO queue of the library: `head` is the front, `tail` the rear, and
 * `size` counts the nodes. `dequeue` and `peek` on an empty queue throw
 * `IllegalStateException`; here they return `None`.
 */
module Queues {
  import opened Wrappers

  /** `Queue.Node`: one element and the link towards the rear. */
  class Node<T> {
    var data: T
    var next: Node?<T>

    constructor (data: T)
      ensures this.data == data && next == null
    {
      this.data := data;
      next := null;
    }
  }

  /**
   * `Queue`: the ghost `nodes` is the chain from `head` to `tail`, `contents` the
   * elements from front to rear and `Repr` the objects the queue owns.
   */
  class Queue<T> {
    var head: Node?<T>
    var tail: Node?<T>
    var size: int
    ghost var nodes: seq<Node<T>>
    ghost var contents: seq<T>
    ghost var Repr: set<object>

    ghost predicate Valid()
      reads this, Repr
    {
      this in Repr &&
      |nodes| == |contents| == size &&
      (forall i :: 0 <= i < |nodes| ==> nodes[i] in Repr) &&
      (forall i :: 0 <= i < |nodes| ==> nodes[i].data == contents[i]) &&
      (forall i :: 0 <= i < |nodes| - 1 ==> nodes[i].next == nodes[i + 1]) &&
      (forall i, j :: 0 <= i < j < |nodes| ==> nodes[i] != nodes[j]) &&
      if |nodes| == 0 then head == null && tail == null
      else head == nodes[0] && tail == nodes[|nodes| - 1] && tail.next == null
    }

    /** A new queue is empty. */
    constructor ()
      ensures Valid() && fresh(Repr) && contents == []
    {
      head := null;
      tail := null;
      size := 0;
      nodes := [];
      contents := [];
      Repr := {this};
    }

    /** `isEmpty`: the queue holds no element. */
    function IsEmpty(): (e: bool)
      reads this, Repr
      requires Valid()
      ensures e <==> contents == []
    {
      size == 0
    }

    /** `size`: the number of elements. */
    function Size(): (n: int)
      reads this, Repr
      requires Valid()
      ensures n == |contents|
    {
      size
    }

    /** `peek`: the front element, or `None` where the Java code throws on an empty queue. */
    function Peek(): (r: Option<T>)
      reads this, Repr
      requires Valid()
      ensures r.None? <==> contents == []
      ensures r.Some? ==> r.value == contents[0]
    {
      if IsEmpty() then None else Some(head.data)
    }

    /** `enqueue`: adds `data` at the rear. */
    method Enqueue(data: T)
      requires Valid()
      modifies Repr
      ensures Valid() && fresh(Repr - old(Repr))
      ensures contents == old(contents) + [data]
    {
      var n := new Node(data);
      if tail == null {
        head := n;
        tail := n;
      } else {
        tail.next := n;
        tail := n;
      }
      size := size + 1;
      nodes := nodes + [n];
      contents := contents + [data];
      Repr := Repr + {n};
    }

    /**
     * `dequeue`: removes and returns the front element; on an empty queue returns `None`
     * (the Java code's `IllegalStateException`) and changes nothing.
     */
    method Dequeue() returns (r: Option<T>)
      requires Valid()
      modifies this
      ensures Valid() && Repr <= old(Repr)
      ensures r == old(Peek())
      ensures contents == if old(contents) == [] then [] else old(contents)[1..]
    {
      if IsEmpty() {
        return None;
      }
      var data := head.data;
      head := head.next;
      if head == null {
        tail := null;
      }
      size := size - 1;
      Repr := Repr - {nodes[0]};
      nodes := nodes[1..];
      contents := contents[1..];
      return Some(data);
    }
  }

  /**
   * First in, first out: enqueuing `xs` into a new queue and then dequeuing until it is
   * empty yields `xs` in the same order.
   */
  method FifoOrder<T>(xs: seq<T>) returns (ys: seq<T>)
    ensures ys == xs
  {
    var q := new Queue<T>();
    var i := 0;
    while i < |xs|
      invariant 0 <= i <= |xs|
      invariant q.Valid() && fresh(q.Repr)
      invariant q.contents == xs[..i]
    {
      q.Enqueue(xs[i]);
      assert xs[..i + 1] == xs[..i] + [xs[i]];
      i := i + 1;
    }
    assert xs[..i] == xs;
    ys := [];
    while !q.IsEmpty()
      invariant q.Valid() && fresh(q.Repr)
      invariant ys + q.contents == xs
      decreases |q.contents|
    {
      ghost var before := q.contents;
      var r := q.Dequeue();
      assert before == [r.value] + q.contents;
      ys := ys + [r.value];
    }
  }
}
