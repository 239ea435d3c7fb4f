/** In-order iteration over the linked nodes. */
module RbIteration {
  import opened Sequences
  import opened RbTree
  import opened RbLinks
  import opened RbRoots
  import E = RbErase

  /** `r` is what follows `n` in `s`: nothing after the last element. */
  ghost predicate Follows(s: seq<RbNode>, n: RbNode, r: RbNode?) {
    exists i :: FollowsAt(s, i, n, r)
  }

  ghost predicate FollowsAt(s: seq<RbNode>, i: int, n: RbNode, r: RbNode?) {
    0 <= i < |s| && s[i] == n && r == if i + 1 < |s| then s[i + 1] else null
  }

  /** `r` is what precedes `n` in `s`: nothing before the first element. */
  ghost predicate Precedes(s: seq<RbNode>, n: RbNode, r: RbNode?) {
    exists i :: PrecedesAt(s, i, n, r)
  }

  ghost predicate PrecedesAt(s: seq<RbNode>, i: int, n: RbNode, r: RbNode?) {
    0 <= i < |s| && s[i] == n && r == if i > 0 then s[i - 1] else null
  }

  ghost function FirstOf(s: seq<RbNode>): RbNode? {
    if s == [] then null else s[0]
  }

  ghost function LastOf(s: seq<RbNode>): RbNode? {
    if s == [] then null else s[|s| - 1]
  }

  lemma FollowsFrom(b: seq<RbNode>, n: RbNode, a: seq<RbNode>)
    ensures Follows(b + [n] + a, n, FirstOf(a)) && Precedes(b + [n] + a, n, LastOf(b))
  {
    var s := b + [n] + a;
    assert FollowsAt(s, |b|, n, FirstOf(a)) && PrecedesAt(s, |b|, n, LastOf(b));
  }

  /** The node before a node's successor is that node, and the other way round. */
  lemma NextPrev(s: seq<RbNode>, n: RbNode, r: RbNode)
    requires NoDuplicates(s)
    ensures Follows(s, n, r) <==> Precedes(s, r, n)
  {
    if Follows(s, n, r) {
      var i :| FollowsAt(s, i, n, r);
      assert PrecedesAt(s, i + 1, r, n);
    }
    if Precedes(s, r, n) {
      var i :| PrecedesAt(s, i, r, n);
      assert FollowsAt(s, i - 1, n, r);
    }
  }

  /** With no node twice in `s`, what follows the node at index `k` is what comes next. */
  lemma FollowsIndex(s: seq<RbNode>, k: nat, r: RbNode?)
    requires NoDuplicates(s) && k < |s| && Follows(s, s[k], r)
    ensures r == FirstOf(s[k + 1..])
  {
  }

  /** And what precedes it is what came before. */
  lemma PrecedesIndex(s: seq<RbNode>, k: nat, r: RbNode?)
    requires NoDuplicates(s) && k < |s| && Precedes(s, s[k], r)
    ensures r == LastOf(s[..k])
  {
  }

  lemma {:induction false} LeastIsFirst(t: Tree)
    requires t.Fork?
    ensures Inorder(t) != [] && Inorder(t)[0] == E.Least(t).node
  {
    if t.left.Leaf? {
    } else {
      LeastIsFirst(t.left);
    }
  }

  /** The node that is last in order. */
  function Greatest(t: Tree): RbNode
    requires t.Fork?
  {
    if t.right.Leaf? then t.node else Greatest(t.right)
  }

  lemma {:induction false} GreatestIsLast(t: Tree)
    requires t.Fork?
    ensures Inorder(t) != [] && Inorder(t)[|Inorder(t)| - 1] == Greatest(t)
  {
    if t.right.Leaf? {
    } else {
      GreatestIsLast(t.right);
    }
  }

  /** The loop down the left children, from a position. */
  method DescendLeft(n: RbNode, ghost root: RbRoot, ghost S: set<RbNode>, ghost t: Tree,
                     ghost p: Path) returns (node: RbNode)
    requires root.Holds(S, t, p) && t.Fork? && t.node == n
    ensures node == E.Least(t).node && root.Holds(S, t, p)
  {
    node := n;
    ghost var u, q := t, p;
    root.Reads(S, u, q);
    while node.left != null
      invariant root.Holds(S, u, q) && u.Fork? && u.node == node && E.Least(u) == E.Least(t)
      invariant node in S && node.left == u.left.Root()
      decreases u
    {
      node := node.left;
      root.Move(S, LeftSide, u.color, u.left, u.node, u.right, q);
      q, u := In(LeftSide, u.color, u.node, u.right, q), u.left;
      root.Reads(S, u, q);
    }
  }

  method DescendRight(n: RbNode, ghost root: RbRoot, ghost S: set<RbNode>, ghost t: Tree,
                      ghost p: Path) returns (node: RbNode)
    requires root.Holds(S, t, p) && t.Fork? && t.node == n
    ensures node == Greatest(t) && root.Holds(S, t, p)
  {
    node := n;
    ghost var u, q := t, p;
    root.Reads(S, u, q);
    while node.right != null
      invariant root.Holds(S, u, q) && u.Fork? && u.node == node && Greatest(u) == Greatest(t)
      invariant node in S && node.right == u.right.Root()
      decreases u
    {
      node := node.right;
      root.Move(S, RightSide, u.color, u.right, u.node, u.left, q);
      q, u := In(RightSide, u.color, u.node, u.left, q), u.right;
      root.Reads(S, u, q);
    }
  }

  /** The loop up from a node that has no right child, as long as it comes from the right. */
  method ClimbFromRight(n: RbNode, ghost root: RbRoot, ghost S: set<RbNode>, ghost t: Tree,
                        ghost p: Path) returns (r: RbNode?)
    requires root.Holds(S, t, p) && t.Fork? && t.node == n
    ensures r == FirstOf(After(p)) && root.Holds(S, t, p)
  {
    var node := n;
    root.Reads(S, t, p);
    ghost var u, q := t, p;
    r := node.parent;
    while r != null && node == r.right
      invariant root.Holds(S, u, q) && u.Fork? && u.node == node && node in S && r == q.Parent() && After(q) == After(p)
      decreases q
    {
      root.Reads(S, u, q);
      root.Move(S, q.side, q.color, u, q.node, q.sibling, q.up);
      node := r;
      u, q := Mk(q.side, q.color, u, q.node, q.sibling), q.up;
      root.Reads(S, u, q);
      r := node.parent;
    }
    root.Reads(S, u, q);
  }

  /** The loop up from a node that has no left child, as long as it comes from the left. */
  method ClimbFromLeft(n: RbNode, ghost root: RbRoot, ghost S: set<RbNode>, ghost t: Tree,
                       ghost p: Path) returns (r: RbNode?)
    requires root.Holds(S, t, p) && t.Fork? && t.node == n
    ensures r == LastOf(Before(p)) && root.Holds(S, t, p)
  {
    var node := n;
    root.Reads(S, t, p);
    ghost var u, q := t, p;
    r := node.parent;
    while r != null && node == r.left
      invariant root.Holds(S, u, q) && u.Fork? && u.node == node && node in S && r == q.Parent()
                && Before(q) == Before(p)
      decreases q
    {
      root.Reads(S, u, q);
      root.Move(S, q.side, q.color, u, q.node, q.sibling, q.up);
      node := r;
      u, q := Mk(q.side, q.color, u, q.node, q.sibling), q.up;
      root.Reads(S, u, q);
      r := node.parent;
    }
    root.Reads(S, u, q);
  }

  /** rb_first */
  method First(root: RbRoot) returns (r: RbNode?)
    requires root.Valid()
    ensures r == FirstOf(Inorder(root.tree)) && root.Valid()
  {
    var n := root.rbNode;
    root.Reads(Nodes(root.tree), root.tree, Top);
    if n == null {
      return null;
    }
    r := DescendLeft(n, root, Nodes(root.tree), root.tree, Top);
    LeastIsFirst(root.tree);
  }

  /** rb_last */
  method Last(root: RbRoot) returns (r: RbNode?)
    requires root.Valid()
    ensures r == LastOf(Inorder(root.tree)) && root.Valid()
  {
    var n := root.rbNode;
    root.Reads(Nodes(root.tree), root.tree, Top);
    if n == null {
      return null;
    }
    r := DescendRight(n, root, Nodes(root.tree), root.tree, Top);
    GreatestIsLast(root.tree);
  }

  /** The position of a node of the tree, and what is before and after it in order. */
  lemma Position(root: RbRoot, n: RbNode)
    requires root.Valid() && n in Nodes(root.tree)
    ensures var t, p := Below(root.tree, n), Above(root.tree, Top, n);
            && root.Holds(Nodes(root.tree), t, p)
            && Inorder(root.tree) == (Before(p) + Inorder(t.left)) + [n] + (Inorder(t.right) + After(p))
  {
    var t, p := Below(root.tree, n), Above(root.tree, Top, n);
    ZipTop(root.LinksOf(Nodes(root.tree)), t, p);
    E.PlugForkInorder(t, p);
  }

  /** rb_next */
  method Next(n: RbNode, ghost root: RbRoot) returns (r: RbNode?)
    requires root.Valid() && n in Nodes(root.tree)
    ensures Follows(Inorder(root.tree), n, r) && root.Valid()
  {
    ghost var S := Nodes(root.tree);
    Position(root, n);
    ghost var t, p := Below(root.tree, n), Above(root.tree, Top, n);
    FollowsFrom(Before(p) + Inorder(t.left), n, Inorder(t.right) + After(p));
    root.Reads(S, t, p);
    var node := n;
    if node.parent == node {
      return null;
    }
    if node.right != null {
      root.Move(S, RightSide, t.color, t.right, t.node, t.left, p);
      r := DescendLeft(node.right, root, S, t.right, In(RightSide, t.color, t.node, t.left, p));
      ZipTop(root.LinksOf(S), t.right, In(RightSide, t.color, t.node, t.left, p));
      LeastIsFirst(t.right);
      return;
    }
    r := ClimbFromRight(node, root, S, t, p);
    ZipTop(root.LinksOf(S), t, p);
  }

  /** rb_prev */
  method Prev(n: RbNode, ghost root: RbRoot) returns (r: RbNode?)
    requires root.Valid() && n in Nodes(root.tree)
    ensures Precedes(Inorder(root.tree), n, r) && root.Valid()
  {
    ghost var S := Nodes(root.tree);
    Position(root, n);
    ghost var t, p := Below(root.tree, n), Above(root.tree, Top, n);
    FollowsFrom(Before(p) + Inorder(t.left), n, Inorder(t.right) + After(p));
    root.Reads(S, t, p);
    var node := n;
    if node.parent == node {
      return null;
    }
    if node.left != null {
      root.Move(S, LeftSide, t.color, t.left, t.node, t.right, p);
      r := DescendRight(node.left, root, S, t.left, In(LeftSide, t.color, t.node, t.right, p));
      ZipTop(root.LinksOf(S), t.left, In(LeftSide, t.color, t.node, t.right, p));
      GreatestIsLast(t.left);
      return;
    }
    r := ClimbFromLeft(node, root, S, t, p);
    ZipTop(root.LinksOf(S), t, p);
  }

  /** A loop over rb_first and rb_next: it meets every node exactly once, in order, and ends. */
  method Visit(root: RbRoot) returns (visited: seq<RbNode>)
    requires root.Valid()
    ensures visited == Inorder(root.tree)
  {
    ghost var s := Inorder(root.tree);
    ghost var t := root.tree;
    InorderNodes(t);
    visited := [];
    var n := First(root);
    while n != null
      invariant root.Valid() && root.tree == t
      invariant visited <= s && n == FirstOf(s[|visited|..])
      decreases |s| - |visited|
    {
      ghost var k := |visited|;
      assert n == s[k] && s[k] in s;
      visited := visited + [n];
      n := Next(n, root);
      FollowsIndex(s, k, n);
    }
  }

  function Reversed(s: seq<RbNode>): (r: seq<RbNode>)
    ensures |r| == |s| && forall i :: 0 <= i < |s| ==> r[i] == s[|s| - 1 - i]
  {
    seq(|s|, i requires 0 <= i < |s| => s[|s| - 1 - i])
  }

  lemma ReversedFrom(s: seq<RbNode>, k: nat)
    requires k < |s|
    ensures Reversed(s[k..]) == Reversed(s[k + 1..]) + [s[k]]
  {
  }

  /** A loop over rb_last and rb_prev: it meets every node exactly once, in the reverse order, and ends. */
  method VisitBack(root: RbRoot) returns (visited: seq<RbNode>)
    requires root.Valid()
    ensures visited == Reversed(Inorder(root.tree))
  {
    ghost var s := Inorder(root.tree);
    ghost var t := root.tree;
    InorderNodes(t);
    visited := [];
    var n := Last(root);
    ghost var m := |s|;
    assert s[..m] == s;
    while n != null
      invariant root.Valid() && root.tree == t && 0 <= m <= |s|
      invariant visited == Reversed(s[m..]) && n == LastOf(s[..m])
      decreases m
    {
      m := m - 1;
      assert n == s[m] && s[m] in s;
      ReversedFrom(s, m);
      visited := visited + [n];
      n := Prev(n, root);
      PrecedesIndex(s, m, n);
    }
    assert s[m..] == s;
  }

  lemma InorderNodes(t: Tree)
    requires Distinct(t)
    ensures NoDuplicates(Inorder(t)) && forall n :: n in Inorder(t) ==> n in Nodes(t)
  {
    DistinctIsNoDuplicates(t);
    NodesAreInorder(t);
  }
}
