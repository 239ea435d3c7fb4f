/** The tree that `rb_insert_color` leaves behind, as a function of the focus node's subtree and the way
    from it to the root, and what that tree keeps. */
module RbInsert {
  import opened RbTree

  /** One round of the fix-up at a red node below a red parent: the subtree and the way up of the next
      focus.  A red uncle is painted black with the parent and the focus moves to the grandparent;
      otherwise the node or its parent is rotated above the grandparent, and the other one of the two, now
      below a black node, is the focus. */
  function StepTree(t: Tree, p: Path): Tree
    requires t.Fork? && p.In? && p.up.In?
  {
    var d, gd, g, uncle := p.side, p.up.side, p.up.node, p.up.sibling;
    if uncle.Red() then Mk(gd, RED, Mk(d, BLACK, t, p.node, p.sibling), g, uncle.Paint(BLACK))
    else if d == gd then t
    else Mk(d, RED, t.Child(gd), p.node, p.sibling)
  }

  function StepPath(t: Tree, p: Path): (q: Path)
    requires t.Fork? && p.In? && p.up.In?
    ensures q.Length() < p.Length()
  {
    var d, gd, g, uncle, up := p.side, p.up.side, p.up.node, p.up.sibling, p.up.up;
    if uncle.Red() then up
    else if d == gd then In(gd, BLACK, p.node, Mk(gd, RED, p.sibling, g, uncle), up)
    else In(gd, BLACK, t.node, Mk(gd, RED, t.Child(d), g, uncle), up)
  }

  /** The fix-up after linking a red node, with the red node at the top of `t`.
      A red parent at the root would leave the grandparent missing: `Accepts` rules it out. */
  function InsertFix(t: Tree, p: Path): Tree
    decreases p.Length()
  {
    if t.Fork? && p.RedAbove() && p.up.In? then InsertFix(StepTree(t, p), StepPath(t, p))
    else Plug(t, p).Paint(BLACK)
  }

  /** A red node on top of a balanced tree, in surroundings that would accept a black one. */
  ghost predicate Fixable(t: Tree, p: Path) {
    t.Red() && exists k: nat :: Balanced(t, k) && Accepts(p, k)
  }

  /** A round leads from one such position to another.  A red parent has a parent of its own. */
  lemma StepFixable(t: Tree, p: Path)
    requires Fixable(t, p) && p.RedAbove()
    ensures p.up.In? && Fixable(StepTree(t, p), StepPath(t, p))
  {
    var k: nat :| Balanced(t, k) && Accepts(p, k);
    assert Accepts(p.up, k) && Balanced(p.up.sibling, k) && Balanced(p.sibling, k);
    if p.up.sibling.Red() {
      assert Balanced(Mk(p.side, BLACK, t, p.node, p.sibling), k + 1) && Balanced(p.up.sibling.Paint(BLACK), k + 1);
      assert Balanced(StepTree(t, p), k + 1);
    } else {
      assert Balanced(StepPath(t, p).sibling, k);
      assert Balanced(StepTree(t, p), k);
    }
  }

  lemma {:induction false} InsertFixRedBlack(t: Tree, p: Path)
    requires Fixable(t, p)
    ensures RedBlack(InsertFix(t, p))
    decreases p.Length()
  {
    var k: nat :| Balanced(t, k) && Accepts(p, k);
    if p.RedAbove() {
      StepFixable(t, p);
      InsertFixRedBlack(StepTree(t, p), StepPath(t, p));
    } else if p.Top? {
      assert Balanced(t.Paint(BLACK), k + 1);
    } else {
      PlugRedBlack(t, p, k);
    }
  }

  lemma StepInorder(t: Tree, p: Path)
    requires t.Fork? && p.In? && p.up.In?
    ensures Inorder(Plug(StepTree(t, p), StepPath(t, p))) == Inorder(Plug(t, p))
  {
    var d, c, n, s, gd, gc, g, uncle, up := p.side, p.color, p.node, p.sibling, p.up.side, p.up.color, p.up.node,
      p.up.sibling, p.up.up;
    var before, q := Mk(gd, gc, Mk(d, c, t, n, s), g, uncle), StepPath(t, p);
    if uncle.Red() {
      MkInorder(gd, RED, Mk(d, BLACK, t, n, s), g, uncle.Paint(BLACK), gc, Mk(d, c, t, n, s), uncle);
      PlugSameInorder(StepTree(t, p), before, up);
    } else {
      if d == gd {
        RotationInorder(gd, t, n, s, g, uncle, gc, c, BLACK, RED);
      } else {
        InnerRotationInorder(gd, gc, c, t, n, s, g, uncle);
      }
      PlugSameInorder(Mk(gd, BLACK, StepTree(t, p), q.node, q.sibling), before, up);
    }
  }

  /** Rotating the inner grandchild above its parent and then above its grandparent. */
  lemma InnerRotationInorder(gd: Side, c: Color, c': Color, t: Tree, n: RbNode, s: Tree, g: RbNode, uncle: Tree)
    requires t.Fork?
    ensures var d := gd.Opposite();
            Inorder(Mk(gd, BLACK, Mk(d, RED, t.Child(gd), n, s), t.node, Mk(gd, RED, t.Child(d), g, uncle)))
            == Inorder(Mk(gd, c, Mk(d, c', t, n, s), g, uncle))
  {
    var d := gd.Opposite();
    var a, b := t.Child(gd), t.Child(d);
    RotationInorder(d, b, t.node, a, n, s, c', t.color, RED, RED);
    var p' := Mk(d, RED, b, t.node, Mk(d, RED, a, n, s));
    assert t == Mk(d, t.color, b, t.node, a);
    assert p' == Mk(gd, RED, Mk(d, RED, a, n, s), t.node, b);
    RotationInorder(gd, Mk(d, RED, a, n, s), t.node, b, g, uncle, c, RED, BLACK, RED);
    MkInorder(gd, c, Mk(d, c', t, n, s), g, uncle, c, p', uncle);
  }

  lemma {:induction false} InsertFixInorder(t: Tree, p: Path)
    ensures Inorder(InsertFix(t, p)) == Inorder(Plug(t, p))
    decreases p.Length()
  {
    if t.Fork? && p.RedAbove() && p.up.In? {
      StepInorder(t, p);
      InsertFixInorder(StepTree(t, p), StepPath(t, p));
    } else {
      PaintInorder(Plug(t, p), BLACK);
    }
  }
}
