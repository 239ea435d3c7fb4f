/** The tree that `rb_erase` leaves behind, as a function of the erased node's subtree and the way from
    it to the root, and what that tree keeps. */
module RbErase {
  import opened RbTree

  /** Where the walk of the fix-up still has to go: up, and once more at a node that is not red. */
  function Effort(t: Tree, p: Path): int {
    2 * p.Length() + if t.Red() then 0 else 1
  }

  /** The way to the root after a red sibling has been rotated above the parent: one node longer. */
  function RaiseSibling(p: Path): (q: Path)
    requires p.In? && p.sibling.Fork?
    ensures q.In? && q.Length() == p.Length() + 1
  {
    var d, o := p.side, p.sibling;
    In(d, RED, p.node, o.Child(d), In(d, BLACK, o.node, o.Child(d.Opposite()), p.up))
  }

  /** The way to the root along which the sibling is black. */
  function BlackSibling(p: Path): Path
    requires p.In? && p.sibling.Fork?
  {
    if p.sibling.Red() then RaiseSibling(p) else p
  }

  predicate BlackNephews(o: Tree)
    requires o.Fork?
  {
    !o.left.Red() && !o.right.Red()
  }

  /** The subtree at the parent after the rotations that end the fix-up: the black sibling, or its red
      child on the near side, rises above the parent. */
  function Turned(t: Tree, p: Path): Tree
    requires p.In? && p.sibling.Fork? && !BlackNephews(p.sibling)
  {
    var d, c, n, o := p.side, p.color, p.node, p.sibling;
    var near, far := o.Child(d), o.Child(d.Opposite());
    if far.Red() then Mk(d, c, Mk(d, BLACK, t, n, near), o.node, far.Paint(BLACK))
    else Mk(d, c, Mk(d, BLACK, t, n, near.Child(d)), near.node, Mk(d, BLACK, near.Child(d.Opposite()), o.node, far))
  }

  /** There is a sibling, and a black sibling to go on with once a red one has been rotated away. */
  predicate HasSiblings(p: Path) {
    p.In? && p.sibling.Fork? && BlackSibling(p).sibling.Fork?
  }

  /** One round of the fix-up at a black or empty subtree below the root: the next subtree and way up. */
  function StepTree(t: Tree, p: Path): Tree
    requires HasSiblings(p)
  {
    var q := BlackSibling(p);
    if BlackNephews(q.sibling) then Mk(q.side, q.color, t, q.node, q.sibling.Paint(RED))
    else Plug(Turned(t, q), q.up)
  }

  function StepPath(t: Tree, p: Path): Path
    requires HasSiblings(p)
  {
    var q := BlackSibling(p);
    if BlackNephews(q.sibling) then q.up else Top
  }

  lemma StepEffort(t: Tree, p: Path)
    requires HasSiblings(p) && !t.Red()
    ensures Effort(StepTree(t, p), StepPath(t, p)) < Effort(t, p)
  {
    var q := BlackSibling(p);
    assert q.up.Length() <= p.Length() && (!p.sibling.Red() ==> q.up.Length() < p.Length());
  }

  /** The fix-up at a subtree `t` that is one black node short of what its surroundings accept. */
  function EraseFix(t: Tree, p: Path): Tree
    decreases Effort(t, p)
  {
    if !t.Red() && HasSiblings(p) then
      StepEffort(t, p);
      EraseFix(StepTree(t, p), StepPath(t, p))
    else Plug(t.Paint(BLACK), p)
  }

  /** The node that is first in order in a tree, and the way down to it. */
  function Least(t: Tree): Tree
    requires t.Fork?
    ensures Least(t).Fork? && Least(t).left == Leaf
  {
    if t.left.Leaf? then t else Least(t.left)
  }

  function LeastPath(t: Tree, p: Path): Path
    requires t.Fork?
  {
    if t.left.Leaf? then p else LeastPath(t.left, In(LeftSide, t.color, t.node, t.right, p))
  }

  /** The subtree left where a node is taken out, the way from there to the root, and the colour that is
      missing there.  A node with two subtrees gives its place and colour to the node that follows it. */
  function GapTree(t: Tree): Tree
    requires t.Fork?
  {
    if t.left.Leaf? then t.right else if t.right.Leaf? then t.left else Least(t.right).right
  }

  function GapPath(t: Tree, p: Path): Path
    requires t.Fork?
  {
    if t.left.Leaf? || t.right.Leaf? then p
    else LeastPath(t.right, In(RightSide, t.color, Least(t.right).node, t.left, p))
  }

  function GapColor(t: Tree): Color
    requires t.Fork?
  {
    if t.left.Leaf? || t.right.Leaf? then t.color else Least(t.right).color
  }

  /** What is left of the whole tree when the top node of `t` is erased. */
  function Erase(t: Tree, p: Path): Tree
    requires t.Fork?
  {
    if GapColor(t) == BLACK then EraseFix(GapTree(t), GapPath(t, p)) else Plug(GapTree(t), GapPath(t, p))
  }

  // ---------------------------------------------------------------------------------------------
  // Red-black rules
  // ---------------------------------------------------------------------------------------------

  /** A subtree that is one black node short of its surroundings, or red: painting it black makes up for
      what is missing, even if its child is red too. */
  ghost predicate ShortBy1(t: Tree, p: Path, k: nat) {
    Accepts(p, k + 1) && if t.Red() then Balanced(t.Paint(BLACK), k + 1) else Balanced(t, k)
  }

  ghost predicate Short(t: Tree, p: Path) {
    exists k: nat :: ShortBy1(t, p, k)
  }

  lemma RaiseShort(t: Tree, p: Path, k: nat)
    requires ShortBy1(t, p, k) && !t.Red() && p.In?
    ensures p.sibling.Fork? && ShortBy1(t, BlackSibling(p), k)
    ensures BlackSibling(p).sibling.Fork? && !BlackSibling(p).sibling.Red()
  {
    assert Balanced(p.sibling, k + 1);
    if p.sibling.Red() {
      assert Balanced(p.sibling.left, k + 1) && Balanced(p.sibling.right, k + 1);
    }
  }

  lemma TurnedBalanced(t: Tree, p: Path, k: nat)
    requires ShortBy1(t, p, k) && !t.Red() && p.In? && p.sibling.Fork? && !p.sibling.Red() && !BlackNephews(p.sibling)
    ensures RedBlack(Plug(Turned(t, p), p.up))
  {
    var d, c, n, o, up := p.side, p.color, p.node, p.sibling, p.up;
    var near, far := o.Child(d), o.Child(d.Opposite());
    assert Balanced(o, k + 1) && Balanced(near, k) && Balanced(far, k);
    if far.Red() {
      assert Balanced(far.Paint(BLACK), k + 1) && Balanced(Mk(d, BLACK, t, n, near), k + 1);
    } else {
      var a, b := near.Child(d), near.Child(d.Opposite());
      assert Balanced(Mk(d, BLACK, t, n, a), k + 1) && Balanced(Mk(d, BLACK, b, o.node, far), k + 1);
    }
    PlugRedBlack(Turned(t, p), up, if c == RED then k + 1 else k + 2);
  }

  /** Every round finds the siblings it needs, and leads to another such position. */
  lemma StepShort(t: Tree, p: Path)
    requires Short(t, p) && !t.Red() && p.In?
    ensures HasSiblings(p) && Short(StepTree(t, p), StepPath(t, p))
  {
    var k: nat :| ShortBy1(t, p, k);
    RaiseShort(t, p, k);
    var q := BlackSibling(p);
    var t', p' := StepTree(t, p), StepPath(t, p);
    if BlackNephews(q.sibling) {
      assert Balanced(q.sibling, k + 1) && Balanced(q.sibling.Paint(RED), k);
      assert ShortBy1(t', p', if q.color == RED then k else k + 1);
    } else {
      TurnedBalanced(t, q, k);
      var h: nat :| Balanced(t', h);
      assert ShortBy1(t', p', h);
    }
  }

  lemma {:induction false} EraseFixRedBlack(t: Tree, p: Path)
    requires Short(t, p)
    ensures RedBlack(EraseFix(t, p))
    decreases Effort(t, p)
  {
    var k: nat :| ShortBy1(t, p, k);
    if t.Red() {
      PlugRedBlack(t.Paint(BLACK), p, k + 1);
    } else if p.In? {
      StepShort(t, p);
      StepEffort(t, p);
      EraseFixRedBlack(StepTree(t, p), StepPath(t, p));
    } else {
      assert RedBlack(t);
    }
  }

  lemma {:induction false} LeastBalanced(t: Tree, p: Path, k: nat) returns (h: nat)
    requires t.Fork? && Balanced(t, k) && Accepts(p, k)
    requires t.Red() ==> p.In? && p.color == BLACK
    ensures Balanced(Least(t), h) && Accepts(LeastPath(t, p), h)
    ensures Least(t).Red() ==> LeastPath(t, p).In? && LeastPath(t, p).color == BLACK
  {
    if t.left.Fork? {
      h := LeastBalanced(t.left, In(LeftSide, t.color, t.node, t.right, p), if t.color == RED then k else k - 1);
    } else {
      h := k;
    }
  }

  lemma GapBalanced(c: Color, t: Tree, p: Path, k: nat)
    requires (c == BLACK ==> k > 0) && Balanced(t, if c == BLACK then k - 1 else k) && Accepts(p, k)
    requires c == RED ==> !t.Red() && p.In? && p.color == BLACK
    ensures if c == BLACK then Short(t, p) else RedBlack(Plug(t, p))
  {
    if c == BLACK {
      assert ShortBy1(t, p, k - 1);
    } else {
      PlugRedBlack(t, p, k);
    }
  }

  /** Taking a black node out of a red-black tree leaves a gap that is one black node short; taking a red
      one out leaves a red-black tree. */
  lemma GapShort(t: Tree, p: Path)
    requires t.Fork? && RedBlack(Plug(t, p))
    ensures if GapColor(t) == BLACK then Short(GapTree(t), GapPath(t, p)) else RedBlack(Plug(GapTree(t), GapPath(t, p)))
  {
    var k := UnplugRedBlack(t, p);
    if t.left.Leaf? || t.right.Leaf? {
      GapBalanced(t.color, GapTree(t), p, k);
    } else {
      var next := Least(t.right);
      var q := In(RightSide, t.color, next.node, t.left, p);
      var h := LeastBalanced(t.right, q, if t.color == RED then k else k - 1);
      GapBalanced(next.color, next.right, LeastPath(t.right, q), h);
    }
  }

  /** Erasing any node of any red-black tree leaves a red-black tree. */
  lemma EraseRedBlack(t: Tree, p: Path)
    requires t.Fork? && RedBlack(Plug(t, p))
    ensures RedBlack(Erase(t, p))
  {
    GapShort(t, p);
    if GapColor(t) == BLACK {
      EraseFixRedBlack(GapTree(t), GapPath(t, p));
    }
  }

  // ---------------------------------------------------------------------------------------------
  // In-order sequence
  // ---------------------------------------------------------------------------------------------

  lemma BlackSiblingInorder(t: Tree, p: Path)
    requires p.In? && p.sibling.Fork?
    ensures Inorder(Plug(t, BlackSibling(p))) == Inorder(Plug(t, p))
  {
    var d, c, n, o, up := p.side, p.color, p.node, p.sibling, p.up;
    var near, far := o.Child(d), o.Child(d.Opposite());
    RotationInorder(d, t, n, near, o.node, far, BLACK, RED, c, o.color);
    assert o == Mk(d, o.color, near, o.node, far);
    PlugSameInorder(Mk(d, BLACK, Mk(d, RED, t, n, near), o.node, far), Mk(d, c, t, n, o), up);
  }

  lemma TurnedInorder(t: Tree, p: Path)
    requires p.In? && p.sibling.Fork? && !BlackNephews(p.sibling)
    ensures Inorder(Turned(t, p)) == Inorder(Mk(p.side, p.color, t, p.node, p.sibling))
  {
    var d, c, n, o := p.side, p.color, p.node, p.sibling;
    var near, far := o.Child(d), o.Child(d.Opposite());
    assert o == Mk(d, o.color, near, o.node, far);
    if far.Red() {
      RotationInorder(d, t, n, near, o.node, far, c, BLACK, c, o.color);
      MkInorder(d, c, Mk(d, BLACK, t, n, near), o.node, far.Paint(BLACK), c, Mk(d, BLACK, t, n, near), far);
    } else {
      var a, b := near.Child(d), near.Child(d.Opposite());
      var high := Mk(d, BLACK, b, o.node, far);
      assert near == Mk(d, near.color, a, near.node, b);
      RotationInorder(d, a, near.node, b, o.node, far, o.color, near.color, BLACK, BLACK);
      MkInorder(d, c, t, n, o, c, t, Mk(d, BLACK, a, near.node, high));
      RotationInorder(d, t, n, a, near.node, high, c, BLACK, c, BLACK);
    }
  }

  lemma StepInorder(t: Tree, p: Path)
    requires HasSiblings(p)
    ensures Inorder(Plug(StepTree(t, p), StepPath(t, p))) == Inorder(Plug(t, p))
  {
    var q := BlackSibling(p);
    BlackSiblingInorder(t, p);
    var before := Mk(q.side, q.color, t, q.node, q.sibling);
    if BlackNephews(q.sibling) {
      MkInorder(q.side, q.color, t, q.node, q.sibling.Paint(RED), q.color, t, q.sibling);
      PlugSameInorder(StepTree(t, p), before, q.up);
    } else {
      TurnedInorder(t, q);
      PlugSameInorder(Turned(t, q), before, q.up);
    }
  }

  lemma {:induction false} EraseFixInorder(t: Tree, p: Path)
    ensures Inorder(EraseFix(t, p)) == Inorder(Plug(t, p))
    decreases Effort(t, p)
  {
    if !t.Red() && HasSiblings(p) {
      StepEffort(t, p);
      StepInorder(t, p);
      EraseFixInorder(StepTree(t, p), StepPath(t, p));
    } else {
      PlugSameInorder(t.Paint(BLACK), t, p);
    }
  }

  lemma {:induction false} LeastInorder(t: Tree, p: Path)
    requires t.Fork?
    ensures Before(LeastPath(t, p)) == Before(p)
    ensures [Least(t).node] + Inorder(Least(t).right) + After(LeastPath(t, p)) == Inorder(t) + After(p)
  {
    if t.left.Fork? {
      LeastInorder(t.left, In(LeftSide, t.color, t.node, t.right, p));
      assert Inorder(t) + After(p) == Inorder(t.left) + (([t.node] + Inorder(t.right)) + After(p));
    } else {
      assert Inorder(t) == [t.node] + Inorder(t.right);
    }
  }

  lemma GapInorder(t: Tree, p: Path)
    requires t.Fork?
    ensures Inorder(Erase(t, p)) == Before(GapPath(t, p)) + Inorder(GapTree(t)) + After(GapPath(t, p))
  {
    EraseFixInorder(GapTree(t), GapPath(t, p));
    PlugInorder(GapTree(t), GapPath(t, p));
  }

  lemma EraseInnerInorder(t: Tree, p: Path)
    requires t.Fork? && t.left.Fork? && t.right.Fork?
    ensures Inorder(Erase(t, p)) == (Before(p) + Inorder(t.left)) + (Inorder(t.right) + After(p))
  {
    var next := Least(t.right);
    var q := In(RightSide, t.color, next.node, t.left, p);
    GapInorder(t, p);
    LeastInorder(t.right, q);
    AroundRegroup(Before(p), Inorder(t.left), next.node, Inorder(next.right), After(LeastPath(t.right, q)));
  }

  lemma EraseOuterInorder(t: Tree, p: Path)
    requires t.Fork? && (t.left.Leaf? || t.right.Leaf?)
    ensures Inorder(Erase(t, p)) == (Before(p) + Inorder(t.left)) + (Inorder(t.right) + After(p))
  {
    var u := if t.left.Leaf? then t.right else t.left;
    GapInorder(t, p);
    SeqRegroup(Before(p), Inorder(u), After(p));
  }

  lemma SeqRegroup<T>(b: seq<T>, s: seq<T>, a: seq<T>)
    ensures b + s + a == (b + []) + (s + a) == (b + s) + ([] + a)
  {
  }

  lemma AroundRegroup<T>(b: seq<T>, l: seq<T>, x: T, r: seq<T>, a: seq<T>)
    ensures b + (l + [x] + r) + a == (b + l) + [x] + (r + a)
    ensures (b + (l + [x])) + r + a == (b + l) + ([x] + r + a)
  {
  }

  lemma PlugForkInorder(t: Tree, p: Path)
    requires t.Fork?
    ensures Inorder(Plug(t, p)) == (Before(p) + Inorder(t.left)) + [t.node] + (Inorder(t.right) + After(p))
  {
    PlugInorder(t, p);
    AroundRegroup(Before(p), Inorder(t.left), t.node, Inorder(t.right), After(p));
  }

  /** Erasing a node takes exactly that node object out of the in-order sequence. */
  lemma EraseInorder(t: Tree, p: Path)
    requires t.Fork?
    ensures var before, after := Before(p) + Inorder(t.left), Inorder(t.right) + After(p);
            Inorder(Plug(t, p)) == before + [t.node] + after && Inorder(Erase(t, p)) == before + after
  {
    PlugForkInorder(t, p);
    if t.left.Leaf? || t.right.Leaf? {
      EraseOuterInorder(t, p);
    } else {
      EraseInnerInorder(t, p);
    }
  }
}
