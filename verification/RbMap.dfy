/** The ordered map of `rbtree_demo.c`: search, insertion and deletion by key, and the recursive traversal. */
module RbMap {
  import opened Sequences
  import opened RbTree
  import opened RbLinks
  import opened RbRoots
  import opened RbHeight
  import E = RbErase

  // ---------------------------------------------------------------------------------------------
  // Sorted sequences of nodes as maps
  // ---------------------------------------------------------------------------------------------

  ghost predicate Sorted(s: seq<RbNode>) {
    forall i, j :: 0 <= i < j < |s| ==> s[i].key < s[j].key
  }

  ghost predicate KeysBelow(s: seq<RbNode>, k: int) {
    forall n :: n in s ==> n.key < k
  }

  ghost predicate KeysAbove(s: seq<RbNode>, k: int) {
    forall n :: n in s ==> n.key > k
  }

  lemma SortedSplit(b: seq<RbNode>, n: RbNode, a: seq<RbNode>)
    requires Sorted(b + [n] + a)
    ensures Sorted(b) && Sorted(a) && KeysBelow(b, n.key) && KeysAbove(a, n.key)
  {
    var s := b + [n] + a;
    assert forall i :: 0 <= i < |b| ==> s[i] == b[i];
    assert s[|b|] == n;
    forall i, j | 0 <= i < j < |a| ensures a[i].key < a[j].key {
      assert s[|b| + 1 + i].key < s[|b| + 1 + j].key;
    }
    forall i | 0 <= i < |a| ensures a[i].key > n.key {
      assert s[|b| + 1 + i].key > s[|b|].key;
    }
  }

  lemma SortedJoin(b: seq<RbNode>, n: RbNode, a: seq<RbNode>)
    requires Sorted(b + a) && KeysBelow(b, n.key) && KeysAbove(a, n.key)
    ensures Sorted(b + [n] + a)
  {
    var s := b + [n] + a;
    forall i, j | 0 <= i < j < |s| ensures s[i].key < s[j].key {
      assert s[i] == if i < |b| then (b + a)[i] else if i == |b| then n else (b + a)[i - 1];
      assert s[j] == if j < |b| then (b + a)[j] else if j == |b| then n else (b + a)[j - 1];
      assert i < |b| ==> b[i] in b;
      assert j > |b| ==> a[j - |b| - 1] in a;
    }
  }

  lemma RemovedAt(s: seq<RbNode>, i: nat)
    requires i < |s|
    ensures var s' := s[..i] + s[i + 1..];
            && (forall j :: 0 <= j < |s'| ==> s'[j] == s[if j < i then j else j + 1])
            && forall m | m in s && m != s[i] :: m in s'
  {
    var s' := s[..i] + s[i + 1..];
    forall m | m in s && m != s[i] ensures m in s' {
      var j :| 0 <= j < |s| && s[j] == m;
      assert s'[if j < i then j else j - 1] == m;
    }
  }

  lemma SortedRemoved(s: seq<RbNode>, s': seq<RbNode>, n: RbNode)
    requires Sorted(s) && Removed(s, s', n)
    ensures Sorted(s') && forall m :: m in s' <==> m in s && m != n
  {
    var i :| 0 <= i < |s| && s[i] == n && s' == s[..i] + s[i + 1..];
    RemovedAt(s, i);
    forall m | m in s' ensures m in s && m != n {
      var j :| 0 <= j < |s'| && s'[j] == m;
      assert s[if j < i then j else j + 1].key != s[i].key;
    }
  }

  ghost function Keys(s: seq<RbNode>): set<int> {
    set n | n in s :: n.key
  }

  ghost function Pick(s: seq<RbNode>, k: int): (n: RbNode)
    requires k in Keys(s)
    ensures n in s && n.key == k
  {
    var n :| n in s && n.key == k;
    n
  }

  /** The map from keys to node objects that a sequence of nodes stands for. */
  ghost function Contents(s: seq<RbNode>): map<int, RbNode> {
    map k | k in Keys(s) :: Pick(s, k)
  }

  lemma ContentsAt(s: seq<RbNode>, n: RbNode)
    requires Sorted(s) && n in s
    ensures n.key in Contents(s) && Contents(s)[n.key] == n
  {
    assert n.key in Keys(s);
    var m := Pick(s, n.key);
    var i :| 0 <= i < |s| && s[i] == n;
    var j :| 0 <= j < |s| && s[j] == m;
    assert i == j;
  }

  lemma ContentsInserted(b: seq<RbNode>, n: RbNode, a: seq<RbNode>)
    requires Sorted(b + [n] + a) && Sorted(b + a)
    ensures Contents(b + [n] + a) == Contents(b + a)[n.key := n]
  {
    var s, s' := b + a, b + [n] + a;
    ContentsAt(s', n);
    forall k ensures k in Contents(s') <==> k == n.key || k in Contents(s) {
      if k in Keys(s') && k != n.key {
        var m := Pick(s', k);
        assert m in s;
        assert k in Keys(s);
      }
      if k in Keys(s) {
        assert Pick(s, k) in s';
      }
    }
    forall k | k in Contents(s) && k != n.key ensures Contents(s')[k] == Contents(s)[k] {
      assert Pick(s, k) in s';
      ContentsAt(s', Pick(s, k));
    }
  }

  lemma ContentsRemoved(s: seq<RbNode>, s': seq<RbNode>, n: RbNode)
    requires Sorted(s) && Removed(s, s', n) && n in s
    ensures Sorted(s') && Contents(s') == Contents(s) - {n.key}
  {
    SortedRemoved(s, s', n);
    ContentsAt(s, n);
    forall k ensures k in Contents(s') <==> k in Contents(s) && k != n.key {
      if k in Keys(s') {
        var m := Pick(s', k);
        ContentsAt(s, m);
      }
      if k in Keys(s) && k != n.key {
        assert Pick(s, k) in s';
      }
    }
    forall k | k in Contents(s') ensures Contents(s')[k] == Contents(s)[k] {
      ContentsAt(s, Pick(s', k));
    }
  }

  // ---------------------------------------------------------------------------------------------
  // The map operations
  // ---------------------------------------------------------------------------------------------

  ghost predicate Ordered(root: RbRoot)
    reads root, Nodes(root.tree)
  {
    root.Valid() && Sorted(Inorder(root.tree))
  }

  ghost function MapOf(root: RbRoot): map<int, RbNode>
    reads root
  {
    Contents(Inorder(root.tree))
  }

  /** The keys before a position are below `k` and those after it are above: `k` can only be there. */
  ghost predicate Towards(t: Tree, p: Path, k: int) {
    KeysBelow(Before(p), k) && KeysAbove(After(p), k) && Sorted(Inorder(Plug(t, p)))
  }

  lemma StepDown(t: Tree, p: Path, k: int)
    requires t.Fork? && Towards(t, p, k)
    ensures k < t.node.key ==> Towards(t.left, In(LeftSide, t.color, t.node, t.right, p), k)
    ensures k > t.node.key ==> Towards(t.right, In(RightSide, t.color, t.node, t.left, p), k)
    ensures t.node in Inorder(Plug(t, p))
  {
    E.PlugForkInorder(t, p);
    SortedSplit(Before(p) + Inorder(t.left), t.node, Inorder(t.right) + After(p));
  }

  lemma NotThere(p: Path, k: int)
    requires Towards(Leaf, p, k)
    ensures k !in Contents(Inorder(Plug(Leaf, p)))
  {
    PlugInorder(Leaf, p);
    var s := Inorder(Plug(Leaf, p));
    forall n | n in s ensures n.key != k {
      assert n in Before(p) || n in After(p);
    }
  }

  /** With the height of a red-black tree, this bounds the looks of a search by 2 * log2(n + 1). */
  lemma LooksBounded(t: Tree, looks: nat)
    requires RedBlack(t) && looks <= Height(t)
    ensures Pow2(looks) <= Square(|Inorder(t)| + 1)
  {
    RedBlackHeight(t);
    Pow2Monotone(looks, Height(t));
  }

  /** myrbdemo_search, which looks at no more nodes than the tree is high. */
  method Search(root: RbRoot, key: int) returns (r: RbNode?, ghost looks: nat)
    requires Ordered(root)
    ensures Ordered(root) && r == if key in MapOf(root) then MapOf(root)[key] else null
    ensures looks <= Height(root.tree)
  {
    ghost var S, t, p := Nodes(root.tree), root.tree, Top;
    looks := 0;
    root.Reads(S, t, p);
    var n := root.rbNode;
    while n != null
      invariant root.Holds(S, t, p) && n == t.Root() && Towards(t, p, key) && Plug(t, p) == root.tree
      invariant looks + Height(t) <= Height(root.tree)
      decreases t
    {
      looks := looks + 1;
      StepDown(t, p, key);
      root.Reads(S, t, p);
      if key < n.key {
        n := n.left;
        root.Move(S, LeftSide, t.color, t.left, t.node, t.right, p);
        p, t := In(LeftSide, t.color, t.node, t.right, p), t.left;
      } else if key > n.key {
        n := n.right;
        root.Move(S, RightSide, t.color, t.right, t.node, t.left, p);
        p, t := In(RightSide, t.color, t.node, t.left, p), t.right;
      } else {
        ContentsAt(Inorder(root.tree), n);
        root.Settle(S, t, p);
        return n, looks;
      }
    }
    NotThere(p, key);
    root.Settle(S, t, p);
    r := null;
  }

  /** The loop of myrbdemo_insert: the node that has the key, or the empty position where it belongs. */
  method Descend(root: RbRoot, key: int) returns (found: bool, parent: RbNode?, side: Side, ghost p: Path)
    requires Ordered(root)
    ensures Ordered(root) && (found <==> key in MapOf(root))
    ensures !found ==> Towards(Leaf, p, key) && Plug(Leaf, p) == root.tree && parent == p.Parent()
                       && (p.In? ==> side == p.side)
  {
    ghost var S, t := Nodes(root.tree), root.tree;
    p := Top;
    root.Reads(S, t, p);
    var link := root.rbNode;
    parent, side := null, LeftSide;
    while link != null
      invariant root.Holds(S, t, p) && link == t.Root() && Towards(t, p, key) && Plug(t, p) == root.tree
      invariant parent == p.Parent() && (p.In? ==> side == p.side)
      decreases t
    {
      StepDown(t, p, key);
      root.Reads(S, t, p);
      parent := link;
      if key < parent.key {
        link, side := link.left, LeftSide;
        root.Move(S, LeftSide, t.color, t.left, t.node, t.right, p);
        p, t := In(LeftSide, t.color, t.node, t.right, p), t.left;
      } else if key > parent.key {
        link, side := link.right, RightSide;
        root.Move(S, RightSide, t.color, t.right, t.node, t.left, p);
        p, t := In(RightSide, t.color, t.node, t.left, p), t.right;
      } else {
        ContentsAt(Inorder(root.tree), parent);
        root.Settle(S, t, p);
        return true, parent, side, p;
      }
    }
    NotThere(p, key);
    root.Settle(S, t, p);
    found := false;
  }

  /** myrbdemo_insert: 0 and the node is in the map, or -1 and nothing has changed. */
  method Insert(root: RbRoot, n: RbNode) returns (r: int)
    requires Ordered(root)
    modifies root, (Nodes(root.tree) + {n})`parent, (Nodes(root.tree) + {n})`left
    modifies (Nodes(root.tree) + {n})`right, (Nodes(root.tree) + {n})`color
    ensures Ordered(root)
    ensures old(n.key in MapOf(root)) ==>
              && r == -1 && MapOf(root) == old(MapOf(root)) && unchanged(root) && unchanged(n)
              && root.LinksOf(Nodes(root.tree)) == old(root.LinksOf(Nodes(root.tree)))
    ensures old(n.key !in MapOf(root)) ==> r == 0 && MapOf(root) == old(MapOf(root))[n.key := n]
    ensures Nodes(root.tree) <= old(Nodes(root.tree)) + {n}
  {
    var found, parent, side;
    ghost var p;
    ghost var S := Nodes(root.tree);
    ghost var cells := CellsOf(S);
    found, parent, side, p := Descend(root, n.key);
    if found {
      assert CellsOf(S) == cells;
      return -1;
    }
    NotThere(p, n.key);
    InsertContents(p, n);
    root.Insert(n, parent, side, p);
    r := 0;
  }

  lemma InsertContents(p: Path, n: RbNode)
    requires Towards(Leaf, p, n.key) && n.key !in Contents(Inorder(Plug(Leaf, p)))
    ensures n !in Nodes(Plug(Leaf, p))
    ensures var s := Before(p) + [n] + After(p);
            Sorted(s) && Contents(s) == Contents(Inorder(Plug(Leaf, p)))[n.key := n]
  {
    PlugInorder(Leaf, p);
    assert Inorder(Plug(Leaf, p)) == Before(p) + After(p);
    NodesAreInorder(Plug(Leaf, p));
    if n in Inorder(Plug(Leaf, p)) {
      ContentsAt(Inorder(Plug(Leaf, p)), n);
    }
    SortedJoin(Before(p), n, After(p));
    ContentsInserted(Before(p), n, After(p));
  }

  /** myrbdemo_delete */
  method Delete(root: RbRoot, n: RbNode)
    requires Ordered(root) && n.key in MapOf(root) && MapOf(root)[n.key] == n
    modifies root, Nodes(root.tree)
    ensures Ordered(root) && MapOf(root) == old(MapOf(root)) - {n.key}
    ensures Nodes(root.tree) <= old(Nodes(root.tree))
  {
    NodesAreInorder(root.tree);
    ghost var s := Inorder(root.tree);
    root.Erase(n);
    ContentsRemoved(s, Inorder(root.tree), n);
  }

  // ---------------------------------------------------------------------------------------------
  // Runs
  // ---------------------------------------------------------------------------------------------

  datatype Op = Put(n: RbNode) | Get(key: int) | Drop(key: int)

  /** What a call reports: the status of an insertion, or the node a search finds. */
  datatype Out = Status(code: int) | Found(n: RbNode?)

  ghost function Step(m: map<int, RbNode>, op: Op): map<int, RbNode> {
    match op
    case Put(n) => if n.key in m then m else m[n.key := n]
    case Get(_) => m
    case Drop(k) => m - {k}
  }

  ghost function Report(m: map<int, RbNode>, op: Op): Out {
    match op
    case Put(n) => Status(if n.key in m then -1 else 0)
    case Get(k) => Found(if k in m then m[k] else null)
    case Drop(k) => Found(if k in m then m[k] else null)
  }

  ghost function StepAll(m: map<int, RbNode>, ops: seq<Op>): map<int, RbNode> {
    if ops == [] then m else Step(StepAll(m, ops[..|ops| - 1]), ops[|ops| - 1])
  }

  ghost function ReportAll(m: map<int, RbNode>, ops: seq<Op>): seq<Out> {
    if ops == [] then []
    else ReportAll(m, ops[..|ops| - 1]) + [Report(StepAll(m, ops[..|ops| - 1]), ops[|ops| - 1])]
  }

  ghost function OpNodes(ops: seq<Op>): set<RbNode> {
    set op | op in ops && op.Put? :: op.n
  }

  method Perform(root: RbRoot, op: Op) returns (out: Out)
    requires Ordered(root)
    modifies root, Nodes(root.tree) + OpNodes([op])
    ensures Ordered(root) && MapOf(root) == Step(old(MapOf(root)), op) && out == Report(old(MapOf(root)), op)
    ensures Nodes(root.tree) <= old(Nodes(root.tree)) + OpNodes([op])
  {
    match op
    case Put(n) =>
      assert op in [op] && n in OpNodes([op]);
      var code := Insert(root, n);
      out := Status(code);
    case Get(k) =>
      var n;
      ghost var looks;
      n, looks := Search(root, k);
      out := Found(n);
    case Drop(k) =>
      var n;
      ghost var looks;
      n, looks := Search(root, k);
      if n != null {
        Delete(root, n);
      }
      out := Found(n);
  }

  /** Over any run the tree answers as a map from keys to node objects would. */
  method Run(root: RbRoot, ops: seq<Op>) returns (outs: seq<Out>)
    requires Ordered(root)
    modifies root, Nodes(root.tree) + OpNodes(ops)
    ensures Ordered(root)
    ensures MapOf(root) == StepAll(old(MapOf(root)), ops) && outs == ReportAll(old(MapOf(root)), ops)
  {
    ghost var m, S := MapOf(root), Nodes(root.tree);
    outs := [];
    for i := 0 to |ops|
      invariant Ordered(root) && Nodes(root.tree) <= S + OpNodes(ops)
      invariant MapOf(root) == StepAll(m, ops[..i]) && outs == ReportAll(m, ops[..i])
    {
      assert ops[..i + 1][..i] == ops[..i];
      assert OpNodes([ops[i]]) <= OpNodes(ops);
      var out := Perform(root, ops[i]);
      outs := outs + [out];
    }
    assert ops[..|ops|] == ops;
  }

  // ---------------------------------------------------------------------------------------------
  // Traversal
  // ---------------------------------------------------------------------------------------------

  /** The two global counters of the traversal. */
  class Counters {
    var callDepth: int
    var maxCallDepth: int

    constructor ()
      ensures callDepth == 0 && maxCallDepth == 0
    {
      callDepth, maxCallDepth := 0, 0;
    }
  }

  function Max(a: int, b: int): int {
    if a < b then b else a
  }

  /** What the counters measure: they go down once for every missing child, so a right child is counted at
      the depth of its parent. */
  function LeftDepth(t: Tree): nat {
    match t
    case Leaf => 0
    case Fork(_, l, _, r) => Max(1 + LeftDepth(l), LeftDepth(r))
  }

  /** A way down from the root to a node. */
  predicate Way(t: Tree, way: seq<Side>)
    decreases t
  {
    t.Fork? && (way == [] || Way(if way[0] == LeftSide then t.left else t.right, way[1..]))
  }

  /** The steps to the left on the way. */
  function Lefts(way: seq<Side>): nat {
    if way == [] then 0 else (if way[0] == LeftSide then 1 else 0) + Lefts(way[1..])
  }

  /** No node is counted deeper than that. */
  lemma {:induction false} WayBounded(t: Tree, way: seq<Side>)
    requires Way(t, way)
    ensures 1 + Lefts(way) <= LeftDepth(t)
    decreases t
  {
    if way == [] {
    } else {
      WayBounded(if way[0] == LeftSide then t.left else t.right, way[1..]);
    }
  }

  /** And some node is counted as deep: the depth that is counted is one more than the number of steps to the left on
      the way to a node, at its greatest. */
  lemma {:induction false} DeepestWay(t: Tree) returns (way: seq<Side>)
    requires t.Fork?
    ensures Way(t, way) && 1 + Lefts(way) == LeftDepth(t)
    decreases t
  {
    if t.right.Fork? && LeftDepth(t.right) > LeftDepth(t.left) {
      var w := DeepestWay(t.right);
      way := [RightSide] + w;
      assert way[1..] == w;
    } else if t.left.Fork? {
      var w := DeepestWay(t.left);
      way := [LeftSide] + w;
      assert way[1..] == w;
    } else {
      way := [];
    }
  }

  function LeftSpine(t: Tree): nat {
    if t.Leaf? then 0 else 1 + LeftSpine(t.left)
  }

  /** The recursive traversal: the callback sees the nodes in order. */
  method Traverse(node: RbNode?, c: Counters, ghost S: set<RbNode>, ghost t: Tree, ghost parent: RbNode?)
    returns (visited: seq<RbNode>)
    requires Shape(CellsOf(S), t, parent) && node == t.Root()
    modifies c
    decreases t
    ensures CellsOf(S) == old(CellsOf(S)) && visited == Inorder(t)
    ensures c.callDepth == old(c.callDepth) - 1
    ensures c.maxCallDepth == if t.Leaf? then old(c.maxCallDepth)
                              else Max(old(c.maxCallDepth), old(c.callDepth) + LeftDepth(t))
  {
    if node == null {
      c.callDepth := c.callDepth - 1;
      return [];
    }
    Enter(c, S);
    var l := Traverse(node.left, c, S, t.left, node);
    visited := l + [node];
    var r := Traverse(node.right, c, S, t.right, node);
    visited := visited + r;
  }

  method Enter(c: Counters, ghost S: set<RbNode>)
    modifies c
    ensures c.callDepth == old(c.callDepth) + 1 && c.maxCallDepth == Max(old(c.maxCallDepth), old(c.callDepth) + 1)
    ensures CellsOf(S) == old(CellsOf(S))
  {
    c.callDepth := c.callDepth + 1;
    if c.callDepth > c.maxCallDepth {
      c.maxCallDepth := c.callDepth;
    }
  }

  /** myrbdemo_do_preorder_traversal: despite its name, the keys come in strictly increasing order.  With fresh counters
      the maximal call depth that is reported is the height of the tree exactly when no way down is longer than the one
      that always goes left; every further traversal with the same counters starts one level lower. */
  method TraverseAll(root: RbRoot, c: Counters) returns (visited: seq<RbNode>)
    requires Ordered(root)
    modifies c
    ensures visited == Inorder(root.tree) && Sorted(visited)
    ensures c.callDepth == old(c.callDepth) - 1
    ensures c.maxCallDepth == if root.tree.Leaf? then old(c.maxCallDepth)
                              else Max(old(c.maxCallDepth), old(c.callDepth) + LeftDepth(root.tree))
    ensures old(c.callDepth) == old(c.maxCallDepth) == 0 ==>
              (c.maxCallDepth == Height(root.tree) <==> Height(root.tree) == LeftSpine(root.tree))
  {
    ReportedDepth(root.tree);
    root.Reads(Nodes(root.tree), root.tree, Top);
    visited := Traverse(root.rbNode, c, Nodes(root.tree), root.tree, null);
  }

  lemma {:induction false} LeftDepthBounds(t: Tree)
    ensures LeftSpine(t) <= LeftDepth(t) <= Height(t)
  {
    if t.Leaf? {
    } else {
      LeftDepthBounds(t.left);
      LeftDepthBounds(t.right);
    }
  }

  /** What the traversal counts is the height of the tree exactly when no way down is longer than the one that always
      goes left. */
  lemma {:induction false} ReportedDepth(t: Tree)
    ensures LeftDepth(t) == Height(t) <==> Height(t) == LeftSpine(t)
  {
    LeftDepthBounds(t);
    if t.Leaf? {
    } else {
      ReportedDepth(t.left);
      LeftDepthBounds(t.left);
      LeftDepthBounds(t.right);
    }
  }

  /** A red-black tree of two nodes that is reported too low: a root with a right child. */
  lemma DepthTooLow(a: RbNode, b: RbNode)
    ensures var t := Fork(BLACK, Leaf, a, Fork(RED, Leaf, b, Leaf));
            RedBlack(t) && LeftDepth(t) == 1 && Height(t) == 2
  {
    var leaf: Tree := Leaf;
    var right := Fork(RED, leaf, b, leaf);
    var t := Fork(BLACK, leaf, a, right);
    assert Balanced(leaf, 0);
    assert Balanced(right, 0);
    assert Balanced(t, 1);
    assert LeftDepth(right) == 1 && Height(right) == 1;
  }
}
