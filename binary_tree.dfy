/**
 * `BinaryTree`: nodes with a left and a right link, a `root` and a `size` that counts
 * the nodes. A tree is held here as a value of the datatype `Tree`; a `TreeNode`
 * reference handed to the tree is the path of links from the root to that node, and
 * Java's `null` is `None`. The traversals append into a `List` (module `Lists`), and
 * the level-order traversal runs over a `Queue` (module `Queues`).
 */
module Trees {
  import opened Wrappers
  import Lists
  import Queues

  /** A subtree: empty (a `null` link) or a node with its data and two subtrees. */
  datatype Tree<T> = Nil | Node(left: Tree<T>, data: T, right: Tree<T>)

  /** The side of a child link. */
  datatype Dir = L | R

  /** A node named by the links followed from the root. */
  type Path = seq<Dir>

  /** A new `TreeNode`: no children. */
  function Leaf<T>(data: T): Tree<T>
  {
    Node(Nil, data, Nil)
  }

  /** The child of `t` on `side`; an empty tree has only empty children. */
  function Child<T>(t: Tree<T>, side: Dir): Tree<T>
  {
    match t
    case Nil => Nil
    case Node(left, _, right) => if side == L then left else right
  }

  /** The subtree reached from `t` along `p`. */
  function Subtree<T>(t: Tree<T>, p: Path): Tree<T>
    decreases |p|
  {
    if p == [] then t else Subtree(Child(t, p[0]), p[1..])
  }

  /** `p` leads to a node of `t` or to an empty link of one of its nodes (or is the root). */
  predicate Position<T>(t: Tree<T>, p: Path)
    decreases |p|
  {
    p == [] || (t.Node? && Position(Child(t, p[0]), p[1..]))
  }

  /** `t` with the subtree at `p` replaced by `s`: setting one link. */
  function Graft<T>(t: Tree<T>, p: Path, s: Tree<T>): Tree<T>
    decreases |p|
  {
    if p == [] then s
    else match t
      case Nil => Nil
      case Node(left, d, right) =>
        if p[0] == L then Node(Graft(left, p[1..], s), d, right) else Node(left, d, Graft(right, p[1..], s))
  }

  /** The data of all nodes of `t`, with multiplicity. */
  ghost function Elements<T>(t: Tree<T>): multiset<T>
  {
    match t
    case Nil => multiset{}
    case Node(left, d, right) => Elements(left) + multiset{d} + Elements(right)
  }

  /** `countAndRemoveSubtree`: the number of nodes of `t`; only an empty tree has none. */
  function NodeCount<T>(t: Tree<T>): (n: nat)
    ensures n == 0 <==> t.Nil?
  {
    match t
    case Nil => 0
    case Node(left, _, right) => 1 + NodeCount(left) + NodeCount(right)
  }

  /** The number of levels of `t`. */
  function Height<T>(t: Tree<T>): nat
  {
    match t
    case Nil => 0
    case Node(left, _, right) => 1 + if Height(left) < Height(right) then Height(right) else Height(left)
  }

  // ---------------------------------------------------------------------------
  // Links: inserting and removing a subtree
  // ---------------------------------------------------------------------------

  /** Below a node, both child links are positions. */
  lemma {:induction false} ChildIsPosition<T>(t: Tree<T>, p: Path, side: Dir)
    requires Subtree(t, p).Node?
    ensures Position(t, p + [side])
    decreases |p|
  {
    if p != [] {
      assert (p + [side])[0] == p[0] && (p + [side])[1..] == p[1..] + [side];
      ChildIsPosition(Child(t, p[0]), p[1..], side);
    }
  }

  /** After grafting `s` at a position `p`, the subtree at `p` is `s`. */
  lemma {:induction false} GraftAt<T>(t: Tree<T>, p: Path, s: Tree<T>)
    requires Position(t, p)
    ensures Subtree(Graft(t, p, s), p) == s
    decreases |p|
  {
    if p != [] {
      GraftAt(Child(t, p[0]), p[1..], s);
    }
  }

  /** Grafting `s` at `p` replaces the nodes of the old subtree at `p` by those of `s`. */
  lemma {:induction false} GraftCount<T>(t: Tree<T>, p: Path, s: Tree<T>)
    requires Position(t, p)
    ensures NodeCount(Graft(t, p, s)) == NodeCount(t) - NodeCount(Subtree(t, p)) + NodeCount(s)
    decreases |p|
  {
    if p != [] {
      GraftCount(Child(t, p[0]), p[1..], s);
    }
  }

  /** Grafting at `p` leaves every subtree at a path neither above nor below `p` as it was. */
  lemma {:induction false} GraftElsewhere<T>(t: Tree<T>, p: Path, s: Tree<T>, q: Path)
    requires !(p <= q) && !(q <= p)
    ensures Subtree(Graft(t, p, s), q) == Subtree(t, q)
    decreases |p|
  {
    assert p != [] && q != [];
    match t
    case Nil =>
      SubtreeOfNil<T>(q[1..]);
    case Node(_, _, _) =>
      if p[0] == q[0] {
        assert !(p[1..] <= q[1..]) && !(q[1..] <= p[1..]);
        GraftElsewhere(Child(t, p[0]), p[1..], s, q[1..]);
      }
  }

  /** Every subtree of an empty tree is empty. */
  lemma {:induction false} SubtreeOfNil<T>(q: Path)
    ensures Subtree<T>(Nil, q) == Nil
    decreases |q|
  {
    if q != [] {
      SubtreeOfNil<T>(q[1..]);
    }
  }

  // ---------------------------------------------------------------------------
  // Depth-first orders
  // ---------------------------------------------------------------------------

  /** In-order: left subtree, node, right subtree. */
  function InOrder<T>(t: Tree<T>): seq<T>
  {
    match t
    case Nil => []
    case Node(left, d, right) => InOrder(left) + [d] + InOrder(right)
  }

  /** Pre-order: node, left subtree, right subtree. */
  function PreOrder<T>(t: Tree<T>): seq<T>
  {
    match t
    case Nil => []
    case Node(left, d, right) => [d] + PreOrder(left) + PreOrder(right)
  }

  /** Post-order: left subtree, right subtree, node. */
  function PostOrder<T>(t: Tree<T>): seq<T>
  {
    match t
    case Nil => []
    case Node(left, d, right) => PostOrder(left) + PostOrder(right) + [d]
  }

  /** In-order lists every node once: a permutation of the tree's data, as long as the node count. */
  lemma {:induction false} InOrderNodes<T>(t: Tree<T>)
    ensures multiset(InOrder(t)) == Elements(t) && |InOrder(t)| == NodeCount(t)
  {
    match t
    case Nil =>
    case Node(left, d, right) =>
      InOrderNodes(left);
      InOrderNodes(right);
      assert InOrder(t) == InOrder(left) + [d] + InOrder(right);
  }

  /** Pre-order lists every node once, the root first. */
  lemma {:induction false} PreOrderNodes<T>(t: Tree<T>)
    ensures multiset(PreOrder(t)) == Elements(t) && |PreOrder(t)| == NodeCount(t)
    ensures t.Node? ==> PreOrder(t)[0] == t.data
  {
    match t
    case Nil =>
    case Node(left, d, right) =>
      PreOrderNodes(left);
      PreOrderNodes(right);
      assert PreOrder(t) == [d] + PreOrder(left) + PreOrder(right);
  }

  /** Post-order lists every node once, the root last. */
  lemma {:induction false} PostOrderNodes<T>(t: Tree<T>)
    ensures multiset(PostOrder(t)) == Elements(t) && |PostOrder(t)| == NodeCount(t)
    ensures t.Node? ==> PostOrder(t)[NodeCount(t) - 1] == t.data
  {
    match t
    case Nil =>
    case Node(left, d, right) =>
      PostOrderNodes(left);
      PostOrderNodes(right);
      assert PostOrder(t) == PostOrder(left) + PostOrder(right) + [d];
  }

  /** The node count is the number of data held. */
  lemma {:induction false} NodeCountElements<T>(t: Tree<T>)
    ensures NodeCount(t) == |Elements(t)|
  {
    match t
    case Nil =>
    case Node(left, d, right) =>
      NodeCountElements(left);
      NodeCountElements(right);
  }

  /** `t` with left and right exchanged at every node. */
  function Mirror<T>(t: Tree<T>): Tree<T>
  {
    match t
    case Nil => Nil
    case Node(left, d, right) => Node(Mirror(right), d, Mirror(left))
  }

  /** `s` back to front. */
  function Reverse<T>(s: seq<T>): (r: seq<T>)
    ensures |r| == |s|
    ensures forall i :: 0 <= i < |s| ==> r[i] == s[|s| - 1 - i]
  {
    if s == [] then [] else Reverse(s[1..]) + [s[0]]
  }

  /** Reversal turns a concatenation around. */
  lemma {:induction false} ReverseAppend<T>(a: seq<T>, b: seq<T>)
    ensures Reverse(a + b) == Reverse(b) + Reverse(a)
  {
    if a == [] {
      assert a + b == b && Reverse(b) + [] == Reverse(b);
    } else {
      assert (a + b)[0] == a[0] && (a + b)[1..] == a[1..] + b;
      ReverseAppend(a[1..], b);
    }
  }

  /** The in-order of the mirror image is the in-order read backwards. */
  lemma {:induction false} InOrderMirror<T>(t: Tree<T>)
    ensures InOrder(Mirror(t)) == Reverse(InOrder(t))
  {
    match t
    case Nil =>
    case Node(left, d, right) =>
      InOrderMirror(left);
      InOrderMirror(right);
      ReverseAppend(InOrder(left) + [d], InOrder(right));
      ReverseAppend(InOrder(left), [d]);
      assert Reverse([d]) == [d];
      assert InOrder(Mirror(t)) == Reverse(InOrder(right)) + [d] + Reverse(InOrder(left));
  }

  /** Post-order is the pre-order of the mirror image read backwards. */
  lemma {:induction false} PostOrderMirror<T>(t: Tree<T>)
    ensures PostOrder(t) == Reverse(PreOrder(Mirror(t)))
  {
    match t
    case Nil =>
    case Node(left, d, right) =>
      PostOrderMirror(left);
      PostOrderMirror(right);
      ReverseAppend([d] + PreOrder(Mirror(right)), PreOrder(Mirror(left)));
      ReverseAppend([d], PreOrder(Mirror(right)));
      assert Reverse([d]) == [d];
      assert PreOrder(Mirror(t)) == [d] + PreOrder(Mirror(right)) + PreOrder(Mirror(left));
  }

  // ---------------------------------------------------------------------------
  // Breadth-first order
  // ---------------------------------------------------------------------------

  /** The number of nodes of all trees of `f`. */
  function ForestSize<T>(f: seq<Tree<T>>): nat
  {
    if f == [] then 0 else NodeCount(f[0]) + ForestSize(f[1..])
  }

  lemma {:induction false} ForestSizeAppend<T>(f: seq<Tree<T>>, g: seq<Tree<T>>)
    ensures ForestSize(f + g) == ForestSize(f) + ForestSize(g)
  {
    if f != [] {
      assert (f + g)[0] == f[0] && (f + g)[1..] == f[1..] + g;
      ForestSizeAppend(f[1..], g);
    } else {
      assert f + g == g;
    }
  }

  /** The children `levelOrderTraversal` enqueues after a node: the non-empty ones, left first. */
  function Kids<T>(t: Tree<T>): (r: seq<Tree<T>>)
    ensures forall i :: 0 <= i < |r| ==> r[i].Node?
  {
    match t
    case Nil => []
    case Node(left, _, right) => (if left.Nil? then [] else [left]) + (if right.Nil? then [] else [right])
  }

  lemma KidsSize<T>(t: Tree<T>)
    requires t.Node?
    ensures ForestSize(Kids(t)) == NodeCount(t) - 1
  {
    var a: seq<Tree<T>> := if t.left.Nil? then [] else [t.left];
    var b: seq<Tree<T>> := if t.right.Nil? then [] else [t.right];
    ForestSizeAppend(a, b);
    assert ForestSize(a) == NodeCount(t.left) by {
      if a != [] { assert a[1..] == []; }
    }
    assert ForestSize(b) == NodeCount(t.right) by {
      if b != [] { assert b[1..] == []; }
    }
  }

  /**
   * The order in which the nodes of the queued trees `f` are visited: the front tree's
   * root is taken and its children go to the back.
   */
  function Bfs<T>(f: seq<Tree<T>>): (r: seq<T>)
    ensures |r| == ForestSize(f)
    decreases ForestSize(f), |f|
  {
    if f == [] then []
    else match f[0]
      case Nil => Bfs(f[1..])
      case Node(_, d, _) =>
        ForestSizeAppend(f[1..], Kids(f[0]));
        KidsSize(f[0]);
        [d] + Bfs(f[1..] + Kids(f[0]))
  }

  /** Level order: breadth-first from the root; the root comes first and every node is visited. */
  function LevelOrder<T>(t: Tree<T>): (r: seq<T>)
    ensures |r| == NodeCount(t)
    ensures t.Node? ==> r[0] == t.data
  {
    assert [t][0] == t && [t][1..] == [] && [] + Kids(t) == Kids(t);
    assert ForestSize([t]) == NodeCount(t);
    Bfs([t])
  }

  /** The data of the nodes at depth `n` of `t`, from left to right. */
  function Level<T>(t: Tree<T>, n: nat): seq<T>
  {
    match t
    case Nil => []
    case Node(left, d, right) => if n == 0 then [d] else Level(left, n - 1) + Level(right, n - 1)
  }

  /** Levels `lo` to `hi - 1` of `t`, one after the other. */
  function Levels<T>(t: Tree<T>, lo: nat, hi: nat): seq<T>
    decreases hi - lo
  {
    if lo >= hi then [] else Level(t, lo) + Levels(t, lo + 1, hi)
  }

  /** Level order is the levels of the tree from the root down, each from left to right. */
  lemma LevelOrderByLevels<T>(t: Tree<T>)
    ensures LevelOrder(t) == Levels(t, 0, Height(t))
  {
    assert forall i :: 0 <= i < |[t]| ==> Height([t][i]) <= Height(t);
    BfsByLevels([t], Height(t));
    SingleTreeLevels(t, 0, Height(t));
  }

  /** Level `n` of all trees of `f`, tree after tree. */
  function ForestLevel<T>(f: seq<Tree<T>>, n: nat): seq<T>
  {
    if f == [] then [] else Level(f[0], n) + ForestLevel(f[1..], n)
  }

  /** Levels `lo` to `hi - 1` of the forest `f`. */
  function ForestLevels<T>(f: seq<Tree<T>>, lo: nat, hi: nat): seq<T>
    decreases hi - lo
  {
    if lo >= hi then [] else ForestLevel(f, lo) + ForestLevels(f, lo + 1, hi)
  }

  /** The children of all trees of `f`, in order. */
  function AllKids<T>(f: seq<Tree<T>>): seq<Tree<T>>
  {
    if f == [] then [] else Kids(f[0]) + AllKids(f[1..])
  }

  lemma {:induction false} ForestLevelAppend<T>(f: seq<Tree<T>>, g: seq<Tree<T>>, n: nat)
    ensures ForestLevel(f + g, n) == ForestLevel(f, n) + ForestLevel(g, n)
  {
    if f == [] {
      assert f + g == g;
    } else {
      assert (f + g)[0] == f[0] && (f + g)[1..] == f[1..] + g;
      ForestLevelAppend(f[1..], g, n);
    }
  }

  lemma ForestLevelSingle<T>(t: Tree<T>, n: nat)
    ensures ForestLevel([t], n) == Level(t, n)
  {
    assert [t][1..] == [];
  }

  /** Level `n` of the children of `t` is level `n + 1` of `t`. */
  lemma KidsLevel<T>(t: Tree<T>, n: nat)
    ensures ForestLevel(Kids(t), n) == Level(t, n + 1)
  {
    match t
    case Nil =>
    case Node(left, _, right) =>
      var a: seq<Tree<T>> := if left.Nil? then [] else [left];
      var b: seq<Tree<T>> := if right.Nil? then [] else [right];
      ForestLevelAppend(a, b, n);
      ForestLevelSingle(left, n);
      ForestLevelSingle(right, n);
  }

  lemma {:induction false} AllKidsLevel<T>(f: seq<Tree<T>>, n: nat)
    ensures ForestLevel(AllKids(f), n) == ForestLevel(f, n + 1)
  {
    if f != [] {
      ForestLevelAppend(Kids(f[0]), AllKids(f[1..]), n);
      KidsLevel(f[0], n);
      AllKidsLevel(f[1..], n);
    }
  }

  lemma {:induction false} AllKidsLevels<T>(f: seq<Tree<T>>, lo: nat, hi: nat)
    ensures ForestLevels(AllKids(f), lo, hi) == ForestLevels(f, lo + 1, hi + 1)
    decreases hi - lo
  {
    if lo < hi {
      AllKidsLevel(f, lo);
      AllKidsLevels(f, lo + 1, hi);
    }
  }

  lemma {:induction false} AllKidsHeight<T>(f: seq<Tree<T>>, h: nat)
    requires h > 0
    requires forall i :: 0 <= i < |f| ==> Height(f[i]) <= h
    ensures forall j :: 0 <= j < |AllKids(f)| ==> Height(AllKids(f)[j]) <= h - 1
  {
    if f != [] {
      AllKidsHeight(f[1..], h);
      var k := Kids(f[0]);
      assert Height(f[0]) <= h;
      assert forall j :: 0 <= j < |k| ==> Height(k[j]) <= h - 1;
    }
  }

  /**
   * Taking the roots of the trees `f` off the front of the queue `f + g` puts their
   * children behind `g`.
   */
  lemma {:induction false} BfsSplit<T>(f: seq<Tree<T>>, g: seq<Tree<T>>)
    ensures Bfs(f + g) == ForestLevel(f, 0) + Bfs(g + AllKids(f))
    decreases |f|
  {
    if f == [] {
      assert f + g == g && g + AllKids(f) == g;
    } else {
      var x, rest := f[0], f[1..];
      assert f == [x] + rest;
      Concat3([x], rest, g);
      BfsCons(x, rest + g);
      Concat3(rest, g, Kids(x));
      BfsSplit(rest, g + Kids(x));
      Concat3(g, Kids(x), AllKids(rest));
      assert ForestLevel(f, 0) == Level(x, 0) + ForestLevel(rest, 0);
    }
  }

  lemma Concat3<T>(a: seq<T>, b: seq<T>, c: seq<T>)
    ensures (a + b) + c == a + (b + c)
  {
  }

  /** The front tree of a queue contributes its root, and its children go to the back. */
  lemma BfsCons<T>(x: Tree<T>, rest: seq<Tree<T>>)
    ensures Bfs([x] + rest) == Level(x, 0) + Bfs(rest + Kids(x))
  {
    var f := [x] + rest;
    assert f[0] == x && f[1..] == rest;
    if x.Nil? {
      assert rest + Kids(x) == rest;
    }
  }

  /** A queue of empty trees visits nothing. */
  lemma {:induction false} BfsOfEmptyTrees<T>(f: seq<Tree<T>>)
    requires forall i :: 0 <= i < |f| ==> f[i].Nil?
    ensures Bfs(f) == []
  {
    if f != [] {
      BfsOfEmptyTrees(f[1..]);
    }
  }

  /** Breadth-first order of a forest of height at most `h` is its levels `0` to `h - 1`. */
  lemma {:induction false} BfsByLevels<T>(f: seq<Tree<T>>, h: nat)
    requires forall i :: 0 <= i < |f| ==> Height(f[i]) <= h
    ensures Bfs(f) == ForestLevels(f, 0, h)
    decreases h
  {
    if h == 0 {
      assert forall i :: 0 <= i < |f| ==> f[i].Nil?;
      BfsOfEmptyTrees(f);
    } else {
      var kids := AllKids(f);
      var h' := h - 1;
      AllKidsHeight(f, h);
      BfsByLevels(kids, h');
      AllKidsLevels(f, 0, h');
      BfsFront(f);
      assert Bfs(f) == ForestLevel(f, 0) + Bfs(kids);
      assert Bfs(kids) == ForestLevels(kids, 0, h');
      assert ForestLevels(kids, 0, h') == ForestLevels(f, 1, h);
      assert ForestLevels(f, 0, h) == ForestLevel(f, 0) + ForestLevels(f, 1, h);
    }
  }

  /**
   * A queue with a node in front visits that node, then the rest with the node's children
   * behind: taking it off moves its data from the queue's order to the visited prefix.
   */
  lemma BfsVisit<T>(visited: seq<T>, f: seq<Tree<T>>)
    requires f != [] && f[0].Node?
    ensures visited + Bfs(f) == (visited + [f[0].data]) + Bfs(f[1..] + Kids(f[0]))
  {
    assert Bfs(f) == [f[0].data] + Bfs(f[1..] + Kids(f[0]));
  }

  /** Taking a node off a queue of nodes and queueing its children leaves a queue of nodes. */
  lemma AllNodesAfterVisit<T>(f: seq<Tree<T>>)
    requires f != [] && forall i :: 0 <= i < |f| ==> f[i].Node?
    ensures forall i :: 0 <= i < |f[1..] + Kids(f[0])| ==> (f[1..] + Kids(f[0]))[i].Node?
  {
  }

  /** The queue `f` visits the roots of its trees, then breadth-first all their children. */
  lemma BfsFront<T>(f: seq<Tree<T>>)
    ensures Bfs(f) == ForestLevel(f, 0) + Bfs(AllKids(f))
  {
    BfsSplit(f, []);
    assert f + [] == f && [] + AllKids(f) == AllKids(f);
  }

  lemma {:induction false} SingleTreeLevels<T>(t: Tree<T>, lo: nat, hi: nat)
    ensures ForestLevels([t], lo, hi) == Levels(t, lo, hi)
    decreases hi - lo
  {
    if lo < hi {
      ForestLevelSingle(t, lo);
      SingleTreeLevels(t, lo + 1, hi);
    }
  }

  /**
   * Root 1 with children 2 and 3: in-order 2, 1, 3; pre-order 1, 2, 3; post-order
   * 2, 3, 1; level order 1, 2, 3.
   */
  lemma ThreeNodeOrders()
    ensures var t := Node(Leaf(2), 1, Leaf(3));
      InOrder(t) == [2, 1, 3] && PreOrder(t) == [1, 2, 3] && PostOrder(t) == [2, 3, 1] &&
      LevelOrder(t) == [1, 2, 3]
  {
    var t := Node(Leaf(2), 1, Leaf(3));
    LevelOrderByLevels(t);
    assert Height(t) == 2;
  }

  // ---------------------------------------------------------------------------
  // The tree object
  // ---------------------------------------------------------------------------

  class BinaryTree<T> {
    var size: int
    var root: Tree<T>

    /** `size` is the number of nodes. */
    ghost predicate Valid()
      reads this
    {
      size == NodeCount(root)
    }

    /** A new tree is empty. */
    constructor ()
      ensures Valid() && root == Nil
    {
      size := 0;
      root := Nil;
    }

    /** `getRoot`: a reference to the root, `None` for an empty tree. */
    function GetRoot(): (r: Option<Path>)
      reads this
      ensures r.None? <==> root.Nil?
      ensures r.Some? ==> Subtree(root, r.value) == root
    {
      if root.Nil? then None else Some([])
    }

    /** `getSize`: the number of nodes, which is the length of every traversal. */
    function GetSize(): (n: int)
      reads this
      requires Valid()
      ensures n == |Elements(root)| && n == |InOrder(root)| && n == |LevelOrder(root)|
    {
      NodeCountElements(root);
      InOrderNodes(root);
      size
    }

    /** The reference `node` names a node of this tree. */
    ghost predicate IsNode(node: Option<Path>)
      reads this
    {
      node.Some? ==> Subtree(root, node.value).Node?
    }

    /** The link an insertion or removal at `node` on `side` sets: `root` for `None`. */
    function Slot(node: Option<Path>, side: Dir): Path
    {
      if node.None? then [] else node.value + [side]
    }

    /** An insertion at `node` on `side` attaches a node: the tree is empty, or the child is missing. */
    predicate Attaches(node: Option<Path>, side: Dir)
      reads this
    {
      if node.None? then size <= 0 else Child(Subtree(root, node.value), side).Nil?
    }

    /**
     * `insertLeft`/`insertRight`: with no node, makes a new root if the tree is empty;
     * with a node, attaches a new leaf on `side` if that child is missing. Otherwise
     * nothing changes.
     */
    method InsertChild(node: Option<Path>, side: Dir, data: T)
      requires Valid() && IsNode(node)
      modifies this
      ensures Valid()
      ensures old(Attaches(node, side)) ==>
        root == Graft(old(root), Slot(node, side), Leaf(data)) &&
        Subtree(root, Slot(node, side)) == Leaf(data) &&
        size == old(size) + 1
      ensures !old(Attaches(node, side)) ==> root == old(root) && size == old(size)
    {
      if !Attaches(node, side) {
        return;
      }
      var slot := Slot(node, side);
      if node.Some? {
        ChildIsPosition(root, node.value, side);
        assert Subtree(root, slot) == Nil by {
          SubtreeChild(root, node.value, side);
        }
      }
      GraftAt(root, slot, Leaf(data));
      GraftCount(root, slot, Leaf(data));
      root := Graft(root, slot, Leaf(data));
      size := size + 1;
    }

    /** `insertLeft`. */
    method InsertLeft(node: Option<Path>, data: T)
      requires Valid() && IsNode(node)
      modifies this
      ensures Valid()
      ensures old(Attaches(node, L)) ==>
        root == Graft(old(root), Slot(node, L), Leaf(data)) &&
        Subtree(root, Slot(node, L)) == Leaf(data) &&
        size == old(size) + 1
      ensures !old(Attaches(node, L)) ==> root == old(root) && size == old(size)
    {
      InsertChild(node, L, data);
    }

    /** `insertRight`. */
    method InsertRight(node: Option<Path>, data: T)
      requires Valid() && IsNode(node)
      modifies this
      ensures Valid()
      ensures old(Attaches(node, R)) ==>
        root == Graft(old(root), Slot(node, R), Leaf(data)) &&
        Subtree(root, Slot(node, R)) == Leaf(data) &&
        size == old(size) + 1
      ensures !old(Attaches(node, R)) ==> root == old(root) && size == old(size)
    {
      InsertChild(node, R, data);
    }

    /**
     * `removeLeft`/`removeRight`: on a non-empty tree, cuts the link on `side` of `node`
     * (the root for `None`) and takes the detached subtree's nodes off `size`; on an
     * empty tree nothing changes.
     */
    method RemoveChild(node: Option<Path>, side: Dir)
      requires Valid() && IsNode(node)
      modifies this
      ensures Valid()
      ensures old(size) == 0 ==> root == old(root) && size == old(size)
      ensures old(size) != 0 ==>
        root == Graft(old(root), Slot(node, side), Nil) &&
        Subtree(root, Slot(node, side)) == Nil &&
        size == old(size) - NodeCount(old(Subtree(root, Slot(node, side))))
    {
      if size == 0 {
        return;
      }
      var slot := Slot(node, side);
      if node.Some? {
        ChildIsPosition(root, node.value, side);
      }
      var position := Subtree(root, slot);
      GraftAt(root, slot, Nil);
      GraftCount(root, slot, Nil);
      root := Graft(root, slot, Nil);
      if position.Node? {
        var removedCount := NodeCount(position);
        size := size - removedCount;
      }
    }

    /** `removeLeft`. */
    method RemoveLeft(node: Option<Path>)
      requires Valid() && IsNode(node)
      modifies this
      ensures Valid()
      ensures old(size) == 0 ==> root == old(root) && size == old(size)
      ensures old(size) != 0 ==>
        root == Graft(old(root), Slot(node, L), Nil) &&
        Subtree(root, Slot(node, L)) == Nil &&
        size == old(size) - NodeCount(old(Subtree(root, Slot(node, L))))
    {
      RemoveChild(node, L);
    }

    /** `removeRight`. */
    method RemoveRight(node: Option<Path>)
      requires Valid() && IsNode(node)
      modifies this
      ensures Valid()
      ensures old(size) == 0 ==> root == old(root) && size == old(size)
      ensures old(size) != 0 ==>
        root == Graft(old(root), Slot(node, R), Nil) &&
        Subtree(root, Slot(node, R)) == Nil &&
        size == old(size) - NodeCount(old(Subtree(root, Slot(node, R))))
    {
      RemoveChild(node, R);
    }

    /** `isLeaf`: the node has no children, that is, its subtree is the node alone. */
    function IsLeaf(node: Path): (b: bool)
      reads this
      requires Subtree(root, node).Node?
      ensures b <==> NodeCount(Subtree(root, node)) == 1
    {
      var n := Subtree(root, node);
      n.left.Nil? && n.right.Nil?
    }

    /** `inOrderTraversal`: a new list of the data in in-order. */
    method InOrderTraversal() returns (result: Lists.List<T>)
      ensures fresh(result.Repr) && result.Valid()
      ensures result.contents == InOrder(root)
    {
      result := new Lists.List<T>();
      InOrderHelper(root, result);
    }

    /** `inOrderHelper`: appends the in-order of `t` to `result`. */
    method InOrderHelper(t: Tree<T>, result: Lists.List<T>)
      requires result.Valid()
      modifies result.Repr
      ensures result.Valid() && fresh(result.Repr - old(result.Repr))
      ensures result.contents == old(result.contents) + InOrder(t)
      decreases t
    {
      if t.Nil? {
        return;
      }
      ghost var before := result.contents;
      InOrderHelper(t.left, result);
      result.InsertNext(t.data);
      InOrderHelper(t.right, result);
      assert result.contents == before + (InOrder(t.left) + [t.data] + InOrder(t.right));
    }

    /** `preOrderTraversal`: a new list of the data in pre-order. */
    method PreOrderTraversal() returns (result: Lists.List<T>)
      ensures fresh(result.Repr) && result.Valid()
      ensures result.contents == PreOrder(root)
    {
      result := new Lists.List<T>();
      PreOrderHelper(root, result);
    }

    /** `preOrderHelper`: appends the pre-order of `t` to `result`. */
    method PreOrderHelper(t: Tree<T>, result: Lists.List<T>)
      requires result.Valid()
      modifies result.Repr
      ensures result.Valid() && fresh(result.Repr - old(result.Repr))
      ensures result.contents == old(result.contents) + PreOrder(t)
      decreases t
    {
      if t.Nil? {
        return;
      }
      ghost var before := result.contents;
      result.InsertNext(t.data);
      PreOrderHelper(t.left, result);
      PreOrderHelper(t.right, result);
      assert result.contents == before + ([t.data] + PreOrder(t.left) + PreOrder(t.right));
    }

    /** `postOrderTraversal`: a new list of the data in post-order. */
    method PostOrderTraversal() returns (result: Lists.List<T>)
      ensures fresh(result.Repr) && result.Valid()
      ensures result.contents == PostOrder(root)
    {
      result := new Lists.List<T>();
      PostOrderHelper(root, result);
    }

    /** `postOrderHelper`: appends the post-order of `t` to `result`. */
    method PostOrderHelper(t: Tree<T>, result: Lists.List<T>)
      requires result.Valid()
      modifies result.Repr
      ensures result.Valid() && fresh(result.Repr - old(result.Repr))
      ensures result.contents == old(result.contents) + PostOrder(t)
      decreases t
    {
      if t.Nil? {
        return;
      }
      ghost var before := result.contents;
      PostOrderHelper(t.left, result);
      PostOrderHelper(t.right, result);
      result.InsertNext(t.data);
      assert result.contents == before + (PostOrder(t.left) + PostOrder(t.right) + [t.data]);
    }

    /**
     * `levelOrderTraversal`: a new list of the data in breadth-first order, kept by a
     * queue of the subtrees still to visit.
     */
    method LevelOrderTraversal() returns (result: Lists.List<T>)
      ensures fresh(result.Repr) && result.Valid()
      ensures result.contents == LevelOrder(root)
    {
      result := new Lists.List<T>();
      if root.Nil? {
        return;
      }
      ghost var order := LevelOrder(root);
      var queue := new Queues.Queue<Tree<T>>();
      queue.Enqueue(root);
      while !queue.IsEmpty()
        invariant result.Valid() && queue.Valid()
        invariant fresh(result.Repr) && fresh(queue.Repr) && result.Repr !! queue.Repr
        invariant forall i :: 0 <= i < |queue.contents| ==> queue.contents[i].Node?
        invariant result.contents + Bfs(queue.contents) == order
        decreases |Bfs(queue.contents)|
      {
        ghost var waiting := queue.contents;
        ghost var visited := result.contents;
        VisitFront(queue, result);
        AllNodesAfterVisit(waiting);
        BfsVisit(visited, waiting);
      }
    }
  }

  /**
   * The body of the `levelOrderTraversal` loop: takes the front subtree off the queue,
   * appends its data to `result` and queues its non-empty children.
   */
  method VisitFront<T>(queue: Queues.Queue<Tree<T>>, result: Lists.List<T>)
    requires queue.Valid() && result.Valid() && result.Repr !! queue.Repr
    requires queue.contents != [] && queue.contents[0].Node?
    modifies queue.Repr, result.Repr
    ensures queue.Valid() && result.Valid() && result.Repr !! queue.Repr
    ensures fresh(queue.Repr - old(queue.Repr)) && fresh(result.Repr - old(result.Repr))
    ensures result.contents == old(result.contents) + [old(queue.contents)[0].data]
    ensures queue.contents == old(queue.contents)[1..] + Kids(old(queue.contents)[0])
  {
    var front := queue.Dequeue();
    var current := front.value;
    assert result.Repr !! queue.Repr;
    result.InsertNext(current.data);
    assert result.Repr !! queue.Repr;
    EnqueueChildren(queue, current);
  }

  /** Queues the non-empty children of `t`, left first. */
  method EnqueueChildren<T>(queue: Queues.Queue<Tree<T>>, t: Tree<T>)
    requires queue.Valid()
    modifies queue.Repr
    ensures queue.Valid() && fresh(queue.Repr - old(queue.Repr))
    ensures queue.contents == old(queue.contents) + Kids(t)
  {
    if t.Nil? {
      return;
    }
    if t.left.Node? {
      queue.Enqueue(t.left);
    }
    if t.right.Node? {
      queue.Enqueue(t.right);
    }
  }

  /** The subtree at the `side` link below `p` is that child of the subtree at `p`. */
  lemma {:induction false} SubtreeChild<T>(t: Tree<T>, p: Path, side: Dir)
    ensures Subtree(t, p + [side]) == Child(Subtree(t, p), side)
    decreases |p|
  {
    if p == [] {
      assert [side][1..] == [];
    } else {
      assert (p + [side])[0] == p[0] && (p + [side])[1..] == p[1..] + [side];
      SubtreeChild(Child(t, p[0]), p[1..], side);
    }
  }

  /**
   * `mergeTree`: `merge` gets a new root holding `data` over the roots of `left` and
   * `right`, and a size one more than theirs together.
   */
  method MergeTree<T>(merge: BinaryTree<T>, left: BinaryTree<T>, right: BinaryTree<T>, data: T)
    requires merge != left && merge != right
    modifies merge
    ensures merge.root == Node(left.root, data, right.root)
    ensures merge.size == left.size + right.size + 1
    ensures left.Valid() && right.Valid() ==> merge.Valid()
  {
    merge.root := Node(Nil, data, Nil);
    merge.root := merge.root.(left := left.root);
    merge.root := merge.root.(right := right.root);
    merge.size := left.size + right.size + 1;
  }
}
