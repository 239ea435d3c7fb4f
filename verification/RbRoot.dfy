/** The pointer programs of the red-black tree: rotations, insertion fix-up, erasure. */
module RbRoots {
  import opened Sequences
  import opened RbTree
  import opened RbLinks
  import opened RbInsert
  import E = RbErase
  import opened RbEraseLinks

  ghost function CellsOf(S: set<RbNode>): map<RbNode, Cell>
    reads S
  {
    map n | n in S :: Cell(n.parent, n.left, n.right, n.color)
  }

  /** The position of the sibling of `t`. */
  function Across(t: Tree, p: Path): Path
    requires p.In?
  {
    In(p.side.Opposite(), p.color, p.node, t, p.up)
  }

  class RbRoot {
    var rbNode: RbNode?
    ghost var tree: Tree  // the tree the pointers represent between operations

    constructor ()
      ensures rbNode == null && tree == Leaf && Valid()
    {
      rbNode := null;
      tree := Leaf;
      new;
      assert Balanced(tree, 0);
    }

    /** The pointers of the nodes in `S` and of the root are those of `Plug(t, p)`. */
    ghost predicate Holds(S: set<RbNode>, t: Tree, p: Path)
      reads this, S
    {
      Zip(LinksOf(S), t, p)
    }

    ghost function LinksOf(S: set<RbNode>): Links
      reads this, S
    {
      Links(CellsOf(S), rbNode)
    }

    ghost predicate Valid()
      reads this, Nodes(tree)
    {
      RedBlack(tree) && Holds(Nodes(tree), tree, Top)
    }

    /** The pointers of `S` form the tree: then `S` is the set of its nodes. */
    lemma Seal(S: set<RbNode>)
      requires Holds(S, tree, Top) && RedBlack(tree)
      ensures Valid() && Nodes(tree) == S
    {
      assert CellsOf(S).Keys == S;
      assert Nodes(tree) == S;
    }

    lemma Settle(S: set<RbNode>, t: Tree, p: Path)
      requires Holds(S, t, p) && Plug(t, p) == tree && RedBlack(tree)
      ensures Valid() && Nodes(tree) == S
    {
      ZipTop(LinksOf(S), t, p);
      Seal(S);
    }

    // -------------------------------------------------------------------------------------------
    // Pointer and colour updates
    // -------------------------------------------------------------------------------------------

    method SetColor(n: RbNode, c: Color, ghost S: set<RbNode>, ghost t: Tree, ghost p: Path)
      requires Holds(S, t, p) && t.Fork? && t.node == n
      modifies n`color
      ensures Holds(S, t.Paint(c), p)
    {
      ghost var s := LinksOf(S);
      n.color := c;
      PaintZip(s, LinksOf(S), t, p, c);
    }

    /** __rb_rotate_left: the right child `y` rises above the node, and its left child changes sides. */
    method RotateLeft(node: RbNode, ghost S: set<RbNode>, ghost y: RbNode, ghost b: RbNode?)
      requires node in S && node.right == y && y in S && y.left == b && (b != null ==> b in S)
      requires y != node && b != node && b != y
      requires node.parent != null ==> node.parent in S && node.parent != node && node.parent != y && node.parent != b
      requires node.parent != null ==> (node.parent.left == node <==> node.parent.right != node)
      modifies this`rbNode, S`parent, S`left, S`right
      ensures Rotation(old(LinksOf(S)), LinksOf(S), LeftSide, node, y, b)
    {
      var right := node.right;
      var parent := node.parent;
      node.right := right.left;
      if right.left != null {
        right.left.parent := node;
      }
      right.left := node;
      right.parent := parent;
      if parent != null {
        if node == parent.left {
          parent.left := right;
        } else {
          parent.right := right;
        }
      } else {
        rbNode := right;
      }
      node.parent := right;
    }

    method RotateLeftAt(node: RbNode, ghost S: set<RbNode>, ghost t: Tree, ghost p: Path)
      requires Holds(S, t, p) && t.Fork? && t.node == node && t.right.Fork?
      modifies this`rbNode, S`parent, S`left, S`right
      ensures Holds(S, Rotated(LeftSide, t), p)
    {
      ghost var s := LinksOf(S);
      RotationReads(s, LeftSide, t, p);
      RotateLeft(node, S, t.right.node, t.right.left.Root());
      RotationZip(s, LinksOf(S), LeftSide, t, p);
    }

    /** __rb_rotate_right: the left child `y` rises above the node, and its right child changes sides. */
    method RotateRight(node: RbNode, ghost S: set<RbNode>, ghost y: RbNode, ghost b: RbNode?)
      requires node in S && node.left == y && y in S && y.right == b && (b != null ==> b in S)
      requires y != node && b != node && b != y
      requires node.parent != null ==> node.parent in S && node.parent != node && node.parent != y && node.parent != b
      requires node.parent != null ==> (node.parent.left == node <==> node.parent.right != node)
      modifies this`rbNode, S`parent, S`right, S`left
      ensures Rotation(old(LinksOf(S)), LinksOf(S), RightSide, node, y, b)
    {
      var left := node.left;
      var parent := node.parent;
      node.left := left.right;
      if left.right != null {
        left.right.parent := node;
      }
      left.right := node;
      left.parent := parent;
      if parent != null {
        if node == parent.right {
          parent.right := left;
        } else {
          parent.left := left;
        }
      } else {
        rbNode := left;
      }
      node.parent := left;
    }

    method RotateRightAt(node: RbNode, ghost S: set<RbNode>, ghost t: Tree, ghost p: Path)
      requires Holds(S, t, p) && t.Fork? && t.node == node && t.left.Fork?
      modifies this`rbNode, S`parent, S`right, S`left
      ensures Holds(S, Rotated(RightSide, t), p)
    {
      ghost var s := LinksOf(S);
      RotationReads(s, RightSide, t, p);
      RotateRight(node, S, t.left.node, t.left.right.Root());
      RotationZip(s, LinksOf(S), RightSide, t, p);
    }

    // -------------------------------------------------------------------------------------------
    // Insertion
    // -------------------------------------------------------------------------------------------

    /** What the code can read off the pointers at a position. */
    lemma Reads(S: set<RbNode>, t: Tree, p: Path)
      requires Holds(S, t, p)
      ensures t.Fork? ==> t.node in S && t.node.left == t.left.Root() && t.node.right == t.right.Root()
                          && t.node.parent == p.Parent() && t.node.color == t.color
      ensures p.Top? ==> rbNode == t.Root()
      ensures p.In? ==> && p.node in S && p.node.color == p.color && p.node.parent == p.up.Parent()
                        && (p.side == LeftSide ==> p.node.left == t.Root() && p.node.right == p.sibling.Root())
                        && (p.side == RightSide ==> p.node.right == t.Root() && p.node.left == p.sibling.Root())
    {
    }

    lemma ReadsBelow(S: set<RbNode>, t: Tree, p: Path)
      requires Holds(S, t, p) && t.Fork?
      ensures t.node in S && t.node.left == t.left.Root() && t.node.right == t.right.Root()
      ensures (t.left.Fork? ==> t.left.node in S) && (t.right.Fork? ==> t.right.node in S)
    {
      Reads(S, t, p);
      assert Shape(CellsOf(S), t.left, t.node) && Shape(CellsOf(S), t.right, t.node);
    }

    lemma ReadsAbove(S: set<RbNode>, t: Tree, p: Path)
      requires Holds(S, t, p) && p.In? && p.up.In?
      ensures && p.node.parent == p.up.node && p.up.node in S
              && (p.up.side == LeftSide ==> p.up.node.left == p.node && p.up.node.right == p.up.sibling.Root())
              && (p.up.side == RightSide ==> p.up.node.left != p.node && p.up.node.left == p.up.sibling.Root())
      ensures p.up.sibling.Fork? ==> p.up.sibling.node in S && p.up.sibling.node.color == p.up.sibling.color
    {
      Reads(S, t, p);
      Move(S, p.side, p.color, t, p.node, p.sibling, p.up);
      Reads(S, Mk(p.side, p.color, t, p.node, p.sibling), p.up);
    }

    /** Moving the position one node up, or back down. */
    lemma Move(S: set<RbNode>, d: Side, c: Color, t: Tree, n: RbNode, sibling: Tree, up: Path)
      ensures Holds(S, t, In(d, c, n, sibling, up)) <==> Holds(S, Mk(d, c, t, n, sibling), up)
    {
      ZipMove(LinksOf(S), d, c, t, n, sibling, up);
    }

    /** A red uncle is painted black with the parent. */
    method Recolor(parent: RbNode, gparent: RbNode, uncle: RbNode, ghost S: set<RbNode>, ghost t: Tree, ghost p: Path)
      requires Holds(S, t, p) && t.Fork? && p.In? && p.up.In?
      requires p.node == parent && p.up.node == gparent && p.up.sibling.Red() && p.up.sibling.node == uncle
      modifies uncle`color, parent`color, gparent`color
      ensures Holds(S, StepTree(t, p), StepPath(t, p))
    {
      ghost var d, s, c, gd, gc, u, up := p.side, p.sibling, p.color, p.up.side, p.up.color, p.up.sibling, p.up.up;
      ghost var tp := Mk(d, c, t, parent, s);
      Move(S, d, c, t, parent, s, p.up);
      Move(S, gd, gc, tp, gparent, u, up);
      assert Mk(gd, gc, tp, gparent, u) == Mk(gd.Opposite(), gc, u, gparent, tp);
      Move(S, gd.Opposite(), gc, u, gparent, tp, up);
      SetColor(uncle, BLACK, S, u, In(gd.Opposite(), gc, gparent, tp, up));
      ghost var u' := u.Paint(BLACK);
      Move(S, gd.Opposite(), gc, u', gparent, tp, up);
      assert Mk(gd, gc, tp, gparent, u') == Mk(gd.Opposite(), gc, u', gparent, tp);
      Move(S, gd, gc, tp, gparent, u', up);
      SetColor(parent, BLACK, S, tp, In(gd, gc, gparent, u', up));
      Move(S, gd, gc, tp.Paint(BLACK), gparent, u', up);
      SetColor(gparent, RED, S, Mk(gd, gc, tp.Paint(BLACK), gparent, u'), up);
    }

    /** A red node below a red parent that is a left child. */
    method InsertRotateRight(n: RbNode, ghost S: set<RbNode>, ghost t: Tree, ghost p: Path)
      returns (node: RbNode)
      requires Holds(S, t, p) && t.Fork? && t.node == n && p.RedAbove() && p.up.In? && !p.up.sibling.Red()
               && p.up.side == LeftSide
      modifies this`rbNode, S`parent, S`left, S`right, S`color
      ensures Holds(S, StepTree(t, p), StepPath(t, p)) && StepTree(t, p).node == node
    {
      node := n;
      Reads(S, t, p);
      var parent: RbNode := node.parent;
      ghost var g, u, up, tp := p.up.node, p.up.sibling, p.up.up, Mk(p.side, RED, t, p.node, p.sibling);
      Move(S, p.side, RED, t, parent, p.sibling, p.up);
      Reads(S, tp, p.up);
      var gparent: RbNode := parent.parent;
      if parent.right == node {
        RotateLeftAt(parent, S, tp, p.up);
        tp := Rotated(LeftSide, tp);
        var tmp := parent;
        parent := node;
        node := tmp;
      }
      Reads(S, tp, p.up);
      SetColor(parent, BLACK, S, tp, p.up);
      tp := tp.Paint(BLACK);
      Move(S, LeftSide, p.up.color, tp, gparent, u, up);
      SetColor(gparent, RED, S, Fork(p.up.color, tp, gparent, u), up);
      RotateRightAt(gparent, S, Fork(RED, tp, gparent, u), up);
      ghost var t', p' := tp.left, In(LeftSide, BLACK, parent, Fork(RED, tp.right, gparent, u), up);
      Move(S, LeftSide, BLACK, t', parent, p'.sibling, up);
    }

    /** A red node below a red parent that is a right child: the mirror image. */
    method InsertRotateLeft(n: RbNode, ghost S: set<RbNode>, ghost t: Tree, ghost p: Path)
      returns (node: RbNode)
      requires Holds(S, t, p) && t.Fork? && t.node == n && p.RedAbove() && p.up.In? && !p.up.sibling.Red()
               && p.up.side == RightSide
      modifies this`rbNode, S`parent, S`left, S`right, S`color
      ensures Holds(S, StepTree(t, p), StepPath(t, p)) && StepTree(t, p).node == node
    {
      node := n;
      Reads(S, t, p);
      var parent: RbNode := node.parent;
      ghost var g, u, up, tp := p.up.node, p.up.sibling, p.up.up, Mk(p.side, RED, t, p.node, p.sibling);
      Move(S, p.side, RED, t, parent, p.sibling, p.up);
      Reads(S, tp, p.up);
      var gparent: RbNode := parent.parent;
      if parent.left == node {
        RotateRightAt(parent, S, tp, p.up);
        tp := Rotated(RightSide, tp);
        var tmp := parent;
        parent := node;
        node := tmp;
      }
      Reads(S, tp, p.up);
      SetColor(parent, BLACK, S, tp, p.up);
      tp := tp.Paint(BLACK);
      Move(S, RightSide, p.up.color, tp, gparent, u, up);
      SetColor(gparent, RED, S, Fork(p.up.color, u, gparent, tp), up);
      RotateLeftAt(gparent, S, Fork(RED, u, gparent, tp), up);
      ghost var t', p' := tp.right, In(RightSide, BLACK, parent, Fork(RED, u, gparent, tp.left), up);
      Move(S, RightSide, BLACK, t', parent, p'.sibling, up);
    }

    /** One round of the fix-up below a parent that is a left child. */
    method FixBelowLeftChild(n: RbNode, parent: RbNode, gparent: RbNode, ghost S: set<RbNode>, ghost t: Tree,
                             ghost p: Path)
      returns (node: RbNode)
      requires Holds(S, t, p) && t.Fork? && t.node == n && p.RedAbove() && p.node == parent
      requires p.up.In? && p.up.node == gparent && p.up.side == LeftSide
      modifies this`rbNode, S`parent, S`left, S`right, S`color
      ensures Holds(S, StepTree(t, p), StepPath(t, p)) && StepTree(t, p).node == node
    {
      ReadsAbove(S, t, p);
      Reads(S, t, p);
      var uncle := gparent.right;
      if uncle != null && uncle.color == RED {
        Recolor(parent, gparent, uncle, S, t, p);
        node := gparent;
      } else {
        node := InsertRotateRight(n, S, t, p);
      }
    }

    /** One round of the fix-up below a parent that is a right child. */
    method FixBelowRightChild(n: RbNode, parent: RbNode, gparent: RbNode, ghost S: set<RbNode>, ghost t: Tree,
                              ghost p: Path)
      returns (node: RbNode)
      requires Holds(S, t, p) && t.Fork? && t.node == n && p.RedAbove() && p.node == parent
      requires p.up.In? && p.up.node == gparent && p.up.side == RightSide
      modifies this`rbNode, S`parent, S`left, S`right, S`color
      ensures Holds(S, StepTree(t, p), StepPath(t, p)) && StepTree(t, p).node == node
    {
      ReadsAbove(S, t, p);
      Reads(S, t, p);
      var uncle := gparent.left;
      if uncle != null && uncle.color == RED {
        Recolor(parent, gparent, uncle, S, t, p);
        node := gparent;
      } else {
        node := InsertRotateLeft(n, S, t, p);
      }
    }

    /** rb_insert_color, from a red node `n` at a position of an otherwise red-black tree. */
    method InsertColor(n: RbNode, ghost S: set<RbNode>, ghost t0: Tree, ghost p0: Path)
      requires Holds(S, t0, p0) && Fixable(t0, p0) && t0.node == n
      modifies this`rbNode, S`parent, S`left, S`right, S`color
      ensures Holds(S, InsertFix(t0, p0), Top)
    {
      var node := n;
      ghost var t, p := t0, p0;
      Reads(S, t, p);
      while node.parent != null && node.parent.color == RED
        invariant Holds(S, t, p) && Fixable(t, p) && t.node == node
        invariant node in S && node.parent == p.Parent() && (p.In? ==> p.node in S && p.node.color == p.color)
        invariant InsertFix(t, p) == InsertFix(t0, p0)
        decreases p.Length()
      {
        StepFixable(t, p);
        ReadsAbove(S, t, p);
        var parent: RbNode := node.parent;
        var gparent: RbNode := parent.parent;
        if parent == gparent.left {
          node := FixBelowLeftChild(node, parent, gparent, S, t, p);
        } else {
          node := FixBelowRightChild(node, parent, gparent, S, t, p);
        }
        t, p := StepTree(t, p), StepPath(t, p);
        Reads(S, t, p);
      }
      ZipTop(LinksOf(S), t, p);
      SetColor(rbNode, BLACK, S, Plug(t, p), Top);
    }

    /** rb_link_node: a red node without children is linked into an empty position. */
    method Link(node: RbNode, parent: RbNode?, side: Side, ghost S: set<RbNode>, ghost p: Path)
      requires Holds(S, Leaf, p) && node !in S && parent == p.Parent() && (p.In? ==> side == p.side)
      modifies this`rbNode, node`parent, node`left, node`right, node`color, S`left, S`right
      ensures Holds(S + {node}, Fork(RED, Leaf, node, Leaf), p)
    {
      ghost var s := LinksOf(S);
      Reads(S, Leaf, p);
      node.parent := parent;
      node.color := RED;
      node.left := null;
      node.right := null;
      if parent == null {
        rbNode := node;
      } else if side == LeftSide {
        parent.left := node;
      } else {
        parent.right := node;
      }
      LinkZip(s, LinksOf(S + {node}), p, node);
    }

    /** rb_link_node and rb_insert_color, at an empty position of a red-black tree. */
    method LinkAndColor(node: RbNode, parent: RbNode?, side: Side, ghost S: set<RbNode>, ghost p: Path)
      requires Holds(S, Leaf, p) && node !in S && parent == p.Parent() && (p.In? ==> side == p.side)
      requires RedBlack(Plug(Leaf, p))
      modifies this`rbNode, (S + {node})`parent, (S + {node})`left, (S + {node})`right, (S + {node})`color
      ensures Holds(S + {node}, Linked(node, p), Top)
    {
      LinkFixable(node, p);
      Link(node, parent, side, S, p);
      InsertColor(node, S + {node}, Fork(RED, Leaf, node, Leaf), p);
    }

    /** Insertion at any empty position of the tree. */
    method Insert(node: RbNode, parent: RbNode?, side: Side, ghost p: Path)
      requires Valid() && node !in Nodes(tree)
      requires Plug(Leaf, p) == tree && parent == p.Parent() && (p.In? ==> side == p.side)
      modifies this, (Nodes(tree) + {node})`parent, (Nodes(tree) + {node})`left
      modifies (Nodes(tree) + {node})`right, (Nodes(tree) + {node})`color
      ensures Valid() && tree == Linked(node, p)
      ensures Inorder(tree) == Before(p) + [node] + After(p)
      ensures Nodes(tree) == old(Nodes(tree)) + {node}
    {
      ghost var S := Nodes(tree);
      ZipTop(LinksOf(S), Leaf, p);
      LinkFixable(node, p);
      LinkAndColor(node, parent, side, S, p);
      tree := Linked(node, p);
      Seal(S + {node});
    }

    // -------------------------------------------------------------------------------------------
    // Erasure
    // -------------------------------------------------------------------------------------------

    /** Moving the position to the sibling, and back. */
    lemma MoveAcross(S: set<RbNode>, t: Tree, p: Path)
      requires p.In?
      ensures Holds(S, t, p) <==> Holds(S, p.sibling, Across(t, p))
    {
      Move(S, p.side, p.color, t, p.node, p.sibling, p.up);
      Move(S, p.side.Opposite(), p.color, p.sibling, p.node, t, p.up);
    }

    /** The two children of the sibling of a position. */
    lemma ReadsNephews(S: set<RbNode>, t: Tree, p: Path)
      requires Holds(S, t, p) && p.In? && p.sibling.Fork?
      ensures Holds(S, p.sibling, Across(t, p)) && p.sibling.node in S
      ensures var o := p.sibling;
              && o.node.left == o.left.Root()
                 && (o.left.Fork? ==> o.left.node in S && o.left.node.color == o.left.color)
              && o.node.right == o.right.Root()
                 && (o.right.Fork? ==> o.right.node in S && o.right.node.color == o.right.color)
    {
      var o := p.sibling;
      MoveAcross(S, t, p);
      Reads(S, o, Across(t, p));
      Move(S, LeftSide, o.color, o.left, o.node, o.right, Across(t, p));
      Reads(S, o.left, In(LeftSide, o.color, o.node, o.right, Across(t, p)));
      Move(S, RightSide, o.color, o.right, o.node, o.left, Across(t, p));
      Reads(S, o.right, In(RightSide, o.color, o.node, o.left, Across(t, p)));
    }

    /** A red sibling on the right is rotated above the parent. */
    method RaiseRedRight(parent: RbNode, other: RbNode, ghost S: set<RbNode>, ghost t: Tree, ghost p: Path)
      requires Holds(S, t, p) && p.In? && p.side == LeftSide && p.node == parent
      requires p.sibling.Fork? && p.sibling.node == other
      modifies this`rbNode, S`parent, S`left, S`right, S`color
      ensures Holds(S, t, E.RaiseSibling(p))
    {
      ghost var c, o, up := p.color, p.sibling, p.up;
      MoveAcross(S, t, p);
      SetColor(other, BLACK, S, o, Across(t, p));
      Move(S, RightSide, c, o.Paint(BLACK), parent, t, up);
      SetColor(parent, RED, S, Fork(c, t, parent, o.Paint(BLACK)), up);
      RotateLeftAt(parent, S, Fork(RED, t, parent, o.Paint(BLACK)), up);
      Move(S, LeftSide, BLACK, Fork(RED, t, parent, o.left), other, o.right, up);
      Move(S, LeftSide, RED, t, parent, o.left, E.RaiseSibling(p).up);
    }

    /** A red left child of the sibling on the right, whose right child is not red, is rotated above it. */
    method RaiseNearRight(other: RbNode, ghost S: set<RbNode>, ghost o: Tree, ghost p: Path)
      requires Holds(S, o, p) && o.Fork? && o.node == other && o.left.Fork?
      modifies this`rbNode, S`parent, S`left, S`right, S`color
      ensures Holds(S, Fork(BLACK, o.left.left, o.left.node, Fork(RED, o.left.right, other, o.right)), p)
    {
      Reads(S, o, p);
      Move(S, LeftSide, o.color, o.left, other, o.right, p);
      SetColor(other.left, BLACK, S, o.left, In(LeftSide, o.color, other, o.right, p));
      Move(S, LeftSide, o.color, o.left.Paint(BLACK), other, o.right, p);
      SetColor(other, RED, S, o.(left := o.left.Paint(BLACK)), p);
      RotateRightAt(other, S, Fork(RED, o.left.Paint(BLACK), other, o.right), p);
    }

    /** The sibling on the right takes the colour of the parent and is rotated above it. */
    method RaiseFarRight(parent: RbNode, other: RbNode, ghost S: set<RbNode>, ghost t: Tree, ghost p: Path)
      requires Holds(S, t, p) && p.In? && p.side == LeftSide && p.node == parent
      requires p.sibling.Fork? && p.sibling.node == other && p.sibling.right.Fork?
      modifies this`rbNode, S`parent, S`left, S`right, S`color
      ensures Holds(S, Fork(p.color, Fork(BLACK, t, parent, p.sibling.left), other, p.sibling.right.Paint(BLACK)), p.up)
    {
      ghost var c, o, up := p.color, p.sibling, p.up;
      Reads(S, t, p);
      MoveAcross(S, t, p);
      SetColor(other, parent.color, S, o, Across(t, p));
      ghost var o' := o.Paint(c);
      Move(S, RightSide, c, o', parent, t, up);
      SetColor(parent, BLACK, S, Fork(c, t, parent, o'), up);
      Move(S, RightSide, BLACK, o', parent, t, up);
      ghost var q := In(RightSide, BLACK, parent, t, up);
      Reads(S, o', q);
      Move(S, RightSide, c, o.right, other, o.left, q);
      SetColor(other.right, BLACK, S, o.right, In(RightSide, c, other, o.left, q));
      ghost var o'' := Fork(c, o.left, other, o.right.Paint(BLACK));
      Move(S, RightSide, c, o.right.Paint(BLACK), other, o.left, q);
      Move(S, RightSide, BLACK, o'', parent, t, up);
      RotateLeftAt(parent, S, Fork(BLACK, t, parent, o''), up);
    }

    /** One round of the fix-up where the short subtree is a left child. */
    method EraseStepLeft(parent: RbNode, ghost S: set<RbNode>, ghost t: Tree, ghost p: Path) returns (node: RbNode?,
                         above: RbNode?)
      requires Holds(S, t, p) && E.HasSiblings(p) && p.side == LeftSide && p.node == parent
      modifies this`rbNode, S`parent, S`left, S`right, S`color
      ensures Holds(S, E.StepTree(t, p), E.StepPath(t, p))
      ensures node == E.StepTree(t, p).Root() && above == E.StepPath(t, p).Parent()
    {
      Reads(S, t, p);
      MoveAcross(S, t, p);
      Reads(S, p.sibling, Across(t, p));
      var other: RbNode := parent.right;
      ghost var q := p;
      if other.color == RED {
        RaiseRedRight(parent, other, S, t, p);
        q := E.RaiseSibling(p);
        Reads(S, t, q);
        other := parent.right;
      }
      node, above := EraseTurnLeft(parent, other, S, t, q);
    }

    /** The last rotations, where the short subtree is a left child and a child of the sibling is red. */
    method LastTurnsLeft(parent: RbNode, sibling: RbNode, ghost S: set<RbNode>, ghost t: Tree, ghost p: Path)
      requires Holds(S, t, p) && p.In? && p.side == LeftSide && p.node == parent
      requires p.sibling.Fork? && p.sibling.node == sibling && !E.BlackNephews(p.sibling)
      modifies this`rbNode, S`parent, S`left, S`right, S`color
      ensures Holds(S, Plug(E.Turned(t, p), p.up), Top) && rbNode == Plug(E.Turned(t, p), p.up).Root()
    {
      var other := sibling;
      ghost var o := p.sibling;
      ReadsNephews(S, t, p);
      if other.right == null || other.right.color == BLACK {
        RaiseNearRight(other, S, o, Across(t, p));
        o := Fork(BLACK, o.left.left, o.left.node, Fork(RED, o.left.right, other, o.right));
        MoveAcross(S, o, Across(t, p));
        Reads(S, t, p.(sibling := o));
        other := parent.right;
      }
      MoveAcross(S, o, Across(t, p));
      RaiseFarRight(parent, other, S, t, p.(sibling := o));
      ZipTop(LinksOf(S), E.Turned(t, p), p.up);
    }

    method EraseTurnLeft(parent: RbNode, sibling: RbNode, ghost S: set<RbNode>, ghost t: Tree, ghost p: Path)
      returns (node: RbNode?, above: RbNode?)
      requires Holds(S, t, p) && p.In? && p.side == LeftSide && p.node == parent
      requires p.sibling.Fork? && p.sibling.node == sibling
      modifies this`rbNode, S`parent, S`left, S`right, S`color
      ensures if E.BlackNephews(p.sibling) then
                Holds(S, Mk(p.side, p.color, t, parent, p.sibling.Paint(RED)), p.up) && node == parent
                  && above == p.up.Parent()
              else
                Holds(S, Plug(E.Turned(t, p), p.up), Top) && node == Plug(E.Turned(t, p), p.up).Root() && above == null
    {
      var other := sibling;
      ghost var o := p.sibling;
      ReadsNephews(S, t, p);
      if (other.left == null || other.left.color == BLACK) && (other.right == null || other.right.color == BLACK) {
        SetColor(other, RED, S, o, Across(t, p));
        node := parent;
        Move(S, RightSide, p.color, o.Paint(RED), parent, t, p.up);
        Reads(S, Fork(p.color, t, parent, o.Paint(RED)), p.up);
        above := node.parent;
      } else {
        LastTurnsLeft(parent, sibling, S, t, p);
        node := rbNode;
        above := null;
      }
    }

    // The mirror images, where the short subtree is a right child.

    /** A red sibling on the left is rotated above the parent. */
    method RaiseRedLeft(parent: RbNode, other: RbNode, ghost S: set<RbNode>, ghost t: Tree, ghost p: Path)
      requires Holds(S, t, p) && p.In? && p.side == RightSide && p.node == parent
      requires p.sibling.Fork? && p.sibling.node == other
      modifies this`rbNode, S`parent, S`right, S`left, S`color
      ensures Holds(S, t, E.RaiseSibling(p))
    {
      ghost var c, o, up := p.color, p.sibling, p.up;
      MoveAcross(S, t, p);
      SetColor(other, BLACK, S, o, Across(t, p));
      Move(S, LeftSide, c, o.Paint(BLACK), parent, t, up);
      SetColor(parent, RED, S, Fork(c, o.Paint(BLACK), parent, t), up);
      RotateRightAt(parent, S, Fork(RED, o.Paint(BLACK), parent, t), up);
      Move(S, RightSide, BLACK, Fork(RED, o.right, parent, t), other, o.left, up);
      Move(S, RightSide, RED, t, parent, o.right, E.RaiseSibling(p).up);
    }

    /** A red right child of the sibling on the left, whose left child is not red, is rotated above it. */
    method RaiseNearLeft(other: RbNode, ghost S: set<RbNode>, ghost o: Tree, ghost p: Path)
      requires Holds(S, o, p) && o.Fork? && o.node == other && o.right.Fork?
      modifies this`rbNode, S`parent, S`right, S`left, S`color
      ensures Holds(S, Fork(BLACK, Fork(RED, o.left, other, o.right.left), o.right.node, o.right.right), p)
    {
      Reads(S, o, p);
      Move(S, RightSide, o.color, o.right, other, o.left, p);
      SetColor(other.right, BLACK, S, o.right, In(RightSide, o.color, other, o.left, p));
      Move(S, RightSide, o.color, o.right.Paint(BLACK), other, o.left, p);
      SetColor(other, RED, S, o.(right := o.right.Paint(BLACK)), p);
      RotateLeftAt(other, S, Fork(RED, o.left, other, o.right.Paint(BLACK)), p);
    }

    /** The sibling on the left takes the colour of the parent and is rotated above it. */
    method RaiseFarLeft(parent: RbNode, other: RbNode, ghost S: set<RbNode>, ghost t: Tree, ghost p: Path)
      requires Holds(S, t, p) && p.In? && p.side == RightSide && p.node == parent
      requires p.sibling.Fork? && p.sibling.node == other && p.sibling.left.Fork?
      modifies this`rbNode, S`parent, S`right, S`left, S`color
      ensures Holds(S, Fork(p.color, p.sibling.left.Paint(BLACK), other, Fork(BLACK, p.sibling.right, parent, t)), p.up)
    {
      ghost var c, o, up := p.color, p.sibling, p.up;
      Reads(S, t, p);
      MoveAcross(S, t, p);
      SetColor(other, parent.color, S, o, Across(t, p));
      ghost var o' := o.Paint(c);
      Move(S, LeftSide, c, o', parent, t, up);
      SetColor(parent, BLACK, S, Fork(c, o', parent, t), up);
      Move(S, LeftSide, BLACK, o', parent, t, up);
      ghost var q := In(LeftSide, BLACK, parent, t, up);
      Reads(S, o', q);
      Move(S, LeftSide, c, o.left, other, o.right, q);
      SetColor(other.left, BLACK, S, o.left, In(LeftSide, c, other, o.right, q));
      ghost var o'' := Fork(c, o.left.Paint(BLACK), other, o.right);
      Move(S, LeftSide, c, o.left.Paint(BLACK), other, o.right, q);
      Move(S, LeftSide, BLACK, o'', parent, t, up);
      RotateRightAt(parent, S, Fork(BLACK, o'', parent, t), up);
    }

    /** One round of the fix-up where the short subtree is a right child. */
    method EraseStepRight(parent: RbNode, ghost S: set<RbNode>, ghost t: Tree, ghost p: Path) returns (node: RbNode?,
                          above: RbNode?)
      requires Holds(S, t, p) && E.HasSiblings(p) && p.side == RightSide && p.node == parent
      modifies this`rbNode, S`parent, S`right, S`left, S`color
      ensures Holds(S, E.StepTree(t, p), E.StepPath(t, p))
      ensures node == E.StepTree(t, p).Root() && above == E.StepPath(t, p).Parent()
    {
      Reads(S, t, p);
      MoveAcross(S, t, p);
      Reads(S, p.sibling, Across(t, p));
      var other: RbNode := parent.left;
      ghost var q := p;
      if other.color == RED {
        RaiseRedLeft(parent, other, S, t, p);
        q := E.RaiseSibling(p);
        Reads(S, t, q);
        other := parent.left;
      }
      node, above := EraseTurnRight(parent, other, S, t, q);
    }

    /** The last rotations, where the short subtree is a right child and a child of the sibling is red. */
    method LastTurnsRight(parent: RbNode, sibling: RbNode, ghost S: set<RbNode>, ghost t: Tree, ghost p: Path)
      requires Holds(S, t, p) && p.In? && p.side == RightSide && p.node == parent
      requires p.sibling.Fork? && p.sibling.node == sibling && !E.BlackNephews(p.sibling)
      modifies this`rbNode, S`parent, S`left, S`right, S`color
      ensures Holds(S, Plug(E.Turned(t, p), p.up), Top) && rbNode == Plug(E.Turned(t, p), p.up).Root()
    {
      var other := sibling;
      ghost var o := p.sibling;
      ReadsNephews(S, t, p);
      if other.left == null || other.left.color == BLACK {
        RaiseNearLeft(other, S, o, Across(t, p));
        o := Fork(BLACK, Fork(RED, o.left, other, o.right.left), o.right.node, o.right.right);
        MoveAcross(S, o, Across(t, p));
        Reads(S, t, p.(sibling := o));
        other := parent.left;
      }
      MoveAcross(S, o, Across(t, p));
      RaiseFarLeft(parent, other, S, t, p.(sibling := o));
      ZipTop(LinksOf(S), E.Turned(t, p), p.up);
    }

    method EraseTurnRight(parent: RbNode, sibling: RbNode, ghost S: set<RbNode>, ghost t: Tree, ghost p: Path)
      returns (node: RbNode?, above: RbNode?)
      requires Holds(S, t, p) && p.In? && p.side == RightSide && p.node == parent
      requires p.sibling.Fork? && p.sibling.node == sibling
      modifies this`rbNode, S`parent, S`right, S`left, S`color
      ensures if E.BlackNephews(p.sibling) then
                Holds(S, Mk(p.side, p.color, t, parent, p.sibling.Paint(RED)), p.up) && node == parent
                  && above == p.up.Parent()
              else
                Holds(S, Plug(E.Turned(t, p), p.up), Top) && node == Plug(E.Turned(t, p), p.up).Root() && above == null
    {
      var other := sibling;
      ghost var o := p.sibling;
      ReadsNephews(S, t, p);
      if (other.left == null || other.left.color == BLACK) && (other.right == null || other.right.color == BLACK) {
        SetColor(other, RED, S, o, Across(t, p));
        node := parent;
        Move(S, LeftSide, p.color, o.Paint(RED), parent, t, p.up);
        Reads(S, Fork(p.color, o.Paint(RED), parent, t), p.up);
        above := node.parent;
      } else {
        LastTurnsRight(parent, sibling, S, t, p);
        node := rbNode;
        above := null;
      }
    }

    /** The root pointer leads into the path, if the position is not the root. */
    lemma RootAbove(S: set<RbNode>, t: Tree, p: Path)
      requires Holds(S, t, p)
      ensures p.In? ==> rbNode != null && rbNode != t.Root()
    {
      RootInPath(LinksOf(S), p, t.Root());
    }

    /** __rb_erase_color, at a subtree that is one black node short of its surroundings. */
    method EraseColor(n: RbNode?, up: RbNode?, ghost S: set<RbNode>, ghost t0: Tree, ghost p0: Path)
      requires Holds(S, t0, p0) && E.Short(t0, p0) && n == t0.Root() && up == p0.Parent()
      modifies this`rbNode, S`parent, S`left, S`right, S`color
      ensures Holds(S, E.EraseFix(t0, p0), Top)
    {
      var node, parent := n, up;
      ghost var t, p := t0, p0;
      Reads(S, t, p);
      RootAbove(S, t, p);
      while (node == null || node.color == BLACK) && node != rbNode
        invariant Holds(S, t, p) && E.Short(t, p) && node == t.Root() && parent == p.Parent()
        invariant (node != null ==> node in S && node.color == t.color) && (node == rbNode <==> p.Top?)
        invariant E.EraseFix(t, p) == E.EraseFix(t0, p0)
        decreases E.Effort(t, p)
      {
        E.StepShort(t, p);
        E.StepEffort(t, p);
        Reads(S, t, p);
        if parent.left == node {
          node, parent := EraseStepLeft(parent, S, t, p);
        } else {
          node, parent := EraseStepRight(parent, S, t, p);
        }
        t, p := E.StepTree(t, p), E.StepPath(t, p);
        Reads(S, t, p);
        RootAbove(S, t, p);
      }
      if node != null {
        SetColor(node, BLACK, S, t, p);
      }
      ZipTop(LinksOf(S), t.Paint(BLACK), p);
    }

    /** The tail of rb_erase for a node with at most one child: the child takes its place. */
    method Unlink(node: RbNode, child: RbNode?, ghost S: set<RbNode>)
      requires node in S && (child != null ==> child in S && child != node && child != node.parent)
      requires node.parent != null ==> node.parent in S && node.parent != node
      modifies this`rbNode, S`parent, S`left, S`right
      ensures Spliced(old(LinksOf(S)), LinksOf(S - {node}), node, child)
    {
      var parent := node.parent;
      if child != null {
        child.parent := parent;
      }
      if parent != null {
        if parent.left == node {
          parent.left := child;
        } else {
          parent.right := child;
        }
      } else {
        rbNode := child;
      }
    }

    /** The middle of rb_erase for a node with two children: the next node in order leaves its place to its
        only child and takes over the links of the erased node. */
    method TakeOver(erased: RbNode, node: RbNode, ghost S: set<RbNode>)
      returns (child: RbNode?, parent: RbNode?, color: Color)
      requires erased in S && erased.left != null && erased.right != null && node in S
      requires ToldApart(CellsOf(S), erased, erased.parent, erased.left, erased.right, node, node.right, node.parent)
      modifies this`rbNode, S`parent, S`left, S`right, S`color
      ensures child == old(node.right) && parent == (if old(node.parent) == erased then node else old(node.parent))
      ensures color == old(node.color)
      ensures TakenOver(old(LinksOf(S)), LinksOf(S - {erased}), erased, node)
    {
      ghost var s := LinksOf(S);
      if erased.parent != null {
        if erased.parent.left == erased {
          erased.parent.left := node;
        } else {
          erased.parent.right := node;
        }
      } else {
        rbNode := node;
      }
      child := node.right;
      parent := node.parent;
      color := node.color;
      if parent == erased {
        parent := node;
      } else {
        if child != null {
          child.parent := parent;
        }
        parent.left := child;
        node.right := erased.right;
        erased.right.parent := node;
      }
      node.parent := erased.parent;
      node.color := erased.color;
      node.left := erased.left;
      erased.left.parent := node;
      forall m | m in S - {erased} ensures CellsOf(S - {erased})[m] == TakenOverCell(s.cells, erased, node, m) {
        if m == node {
        } else if m == erased.left {
        } else if m == s.cells[erased].parent {
        } else if s.cells[node].parent == erased {
        } else if m == child {
        } else if m == parent {
        } else if m == erased.right {
        } else {
        }
      }
    }

    /** The walk down to the node that is next in order below a node with two children. */
    method Successor(erased: RbNode, ghost S: set<RbNode>, ghost t: Tree, ghost p: Path) returns (node: RbNode)
      requires Holds(S, t, p) && t.Fork? && t.node == erased && t.left.Fork? && t.right.Fork?
      ensures node == E.Least(t.right).node && node in S
    {
      Reads(S, t, p);
      node := erased.right;
      ghost var u, q := t.right, In(RightSide, t.color, t.node, t.left, p);
      Move(S, RightSide, t.color, t.right, t.node, t.left, p);
      Reads(S, u, q);
      while node.left != null
        invariant Holds(S, u, q) && u.Fork? && u.node == node && E.Least(u) == E.Least(t.right)
        invariant node in S && node.left == u.left.Root()
        decreases u
      {
        node := node.left;
        Move(S, LeftSide, u.color, u.left, u.node, u.right, q);
        q, u := In(LeftSide, u.color, u.node, u.right, q), u.left;
        Reads(S, u, q);
      }
    }

    /** rb_erase up to its label `color`, for a node with at most one child. */
    method TakeOutOuter(node: RbNode, ghost S: set<RbNode>, ghost t: Tree, ghost p: Path)
      returns (child: RbNode?, parent: RbNode?, color: Color)
      requires Holds(S, t, p) && t.Fork? && t.node == node && (t.left.Leaf? || t.right.Leaf?)
      modifies this`rbNode, S`parent, S`left, S`right
      ensures Holds(S - {node}, E.GapTree(t), E.GapPath(t, p))
      ensures child == E.GapTree(t).Root() && parent == E.GapPath(t, p).Parent() && color == E.GapColor(t)
    {
      ghost var s := LinksOf(S);
      Reads(S, t, p);
      child := if node.left == null then node.right else node.left;
      assert child != null ==> child in Nodes(t) && child != node;
      parent := node.parent;
      color := node.color;
      Unlink(node, child, S);
      SpliceZip(s, LinksOf(S - {node}), t, p);
    }

    /** rb_erase up to its label `color`, for a node with two children. */
    method TakeOutInner(node: RbNode, ghost S: set<RbNode>, ghost t: Tree, ghost p: Path)
      returns (child: RbNode?, parent: RbNode?, color: Color)
      requires Holds(S, t, p) && t.Fork? && t.node == node && t.left.Fork? && t.right.Fork?
      modifies this`rbNode, S`parent, S`left, S`right, S`color
      ensures Holds(S - {node}, E.GapTree(t), E.GapPath(t, p))
      ensures child == E.GapTree(t).Root() && parent == E.GapPath(t, p).Parent() && color == E.GapColor(t)
    {
      ghost var s := LinksOf(S);
      ghost var q := In(RightSide, t.color, t.node, t.left, p);
      ghost var y := E.LeastPath(t.right, q).Parent();
      var next := Successor(node, S, t, p);
      TakeOverReads(s, t, p);
      child, parent, color := TakeOver(node, next, S);
      TakenOverIsReplaced(s, LinksOf(S - {node}), node, p.Parent(), t.left.node, t.right.node, next, child, y);
      TakeOverZip(s, LinksOf(S - {node}), t, p);
      if t.right.left.Fork? {
        LeastParent(t.right, q, q.(node := next));
      }
    }

    /** rb_erase, at the position of the node. */
    method EraseAt(node: RbNode, ghost S: set<RbNode>, ghost t: Tree, ghost p: Path)
      requires Holds(S, t, p) && t.Fork? && t.node == node
      requires E.GapColor(t) == BLACK ==> E.Short(E.GapTree(t), E.GapPath(t, p))
      modifies this`rbNode, S`parent, S`left, S`right, S`color
      ensures Holds(S - {node}, E.Erase(t, p), Top)
    {
      Reads(S, t, p);
      var child, parent, color;
      if node.left == null || node.right == null {
        child, parent, color := TakeOutOuter(node, S, t, p);
      } else {
        child, parent, color := TakeOutInner(node, S, t, p);
      }
      if color == BLACK {
        EraseColor(child, parent, S - {node}, E.GapTree(t), E.GapPath(t, p));
      } else {
        ZipTop(LinksOf(S - {node}), E.GapTree(t), E.GapPath(t, p));
      }
    }

    /** rb_erase: takes any node of the tree out of it. */
    method Erase(node: RbNode)
      requires Valid() && node in Nodes(tree)
      modifies this, Nodes(tree)`parent, Nodes(tree)`left, Nodes(tree)`right, Nodes(tree)`color
      ensures Valid() && tree == E.Erase(Below(old(tree), node), Above(old(tree), Top, node))
      ensures Removed(old(Inorder(tree)), Inorder(tree), node)
      ensures Nodes(tree) == old(Nodes(tree)) - {node}
    {
      ghost var S := Nodes(tree);
      ghost var t, p := Below(tree, node), Above(tree, Top, node);
      ZipTop(LinksOf(S), t, p);
      E.GapShort(t, p);
      E.EraseRedBlack(t, p);
      EraseRemoves(t, p);
      EraseAt(node, S, t, p);
      tree := E.Erase(t, p);
      Seal(S - {node});
    }
  }

  /** The tree after a new node has been linked at the end of path `p` and the tree rebalanced. */
  ghost function Linked(n: RbNode, p: Path): Tree {
    InsertFix(Fork(RED, Leaf, n, Leaf), p)
  }

  /** A red node at an empty position of a red-black tree can be fixed up, with it in its place in order. */
  lemma LinkFixable(n: RbNode, p: Path)
    requires RedBlack(Plug(Leaf, p))
    ensures Fixable(Fork(RED, Leaf, n, Leaf), p)
    ensures RedBlack(Linked(n, p)) && Inorder(Linked(n, p)) == Before(p) + [n] + After(p)
  {
    var t := Fork(RED, Leaf, n, Leaf);
    var k := UnplugRedBlack(Leaf, p);
    assert Balanced(t, k);
    InsertFixRedBlack(t, p);
    InsertFixInorder(t, p);
    PlugInorder(t, p);
  }

  lemma EraseRemoves(t: Tree, p: Path)
    requires t.Fork?
    ensures Removed(Inorder(Plug(t, p)), Inorder(E.Erase(t, p)), t.node)
  {
    E.EraseInorder(t, p);
    RemovedFrom(Before(p) + Inorder(t.left), t.node, Inorder(t.right) + After(p));
  }
}
