/** What it means for pointers to represent a position in a tree, stated on a snapshot of the pointer
    fields, and what each kind of pointer update does to the represented tree. */
module RbLinks {
  import opened RbTree

  /** The link fields of one node. */
  datatype Cell = Cell(parent: RbNode?, left: RbNode?, right: RbNode?, color: Color) {
    function Child(d: Side): RbNode? {
      match d case LeftSide => left case RightSide => right
    }

    function WithChild(d: Side, n: RbNode?): Cell {
      match d case LeftSide => this.(left := n) case RightSide => this.(right := n)
    }
  }

  /** The link fields of a set of nodes, and the root pointer. */
  datatype Links = Links(cells: map<RbNode, Cell>, root: RbNode?)

  ghost predicate Shape(h: map<RbNode, Cell>, t: Tree, parent: RbNode?) {
    match t
    case Leaf => true
    case Fork(c, l, n, r) =>
      && n in h && h[n] == Cell(parent, l.Root(), r.Root(), c)
      && Shape(h, l, n) && Shape(h, r, n)
  }

  ghost function FrameCell(p: Path, hole: RbNode?): Cell
    requires p.In?
  {
    match p.side
    case LeftSide => Cell(p.up.Parent(), hole, p.sibling.Root(), p.color)
    case RightSide => Cell(p.up.Parent(), p.sibling.Root(), hole, p.color)
  }

  /** Seen from a position, the links upwards and of everything on the way are those of path `p`, and the
      position itself is linked to `hole`. */
  ghost predicate Around(s: Links, p: Path, hole: RbNode?)
    decreases p
  {
    match p
    case Top => s.root == hole
    case In(d, c, n, sibling, up) =>
      && n in s.cells && s.cells[n] == FrameCell(p, hole)
      && Shape(s.cells, sibling, n) && Around(s, up, n)
  }

  /** The links are exactly those of tree `Plug(t, p)`, seen from the position of `t`. */
  ghost predicate Zip(s: Links, t: Tree, p: Path) {
    && Shape(s.cells, t, p.Parent()) && Around(s, p, t.Root())
    && Distinct(t) && DistinctPath(p) && Nodes(t) !! PathNodes(p)
    && s.cells.Keys == Nodes(t) + PathNodes(p)
  }

  // ---------------------------------------------------------------------------------------------
  // Moving the position
  // ---------------------------------------------------------------------------------------------

  lemma ZipMove(s: Links, d: Side, c: Color, t: Tree, n: RbNode, sibling: Tree, up: Path)
    ensures Zip(s, t, In(d, c, n, sibling, up)) <==> Zip(s, Mk(d, c, t, n, sibling), up)
  {
  }

  lemma {:induction false} ZipTop(s: Links, t: Tree, p: Path)
    ensures Zip(s, t, p) <==> Zip(s, Plug(t, p), Top)
    decreases p
  {
    match p
    case Top =>
    case In(d, c, n, sibling, up) =>
      ZipMove(s, d, c, t, n, sibling, up);
      ZipTop(s, Mk(d, c, t, n, sibling), up);
  }

  lemma {:induction false} RootInPath(s: Links, p: Path, hole: RbNode?)
    requires Around(s, p, hole)
    ensures p.In? ==> s.root != null && s.root in PathNodes(p)
    decreases p
  {
    if p.Top? {
    } else {
      RootInPath(s, p.up, p.node);
    }
  }

  // ---------------------------------------------------------------------------------------------
  // Updates that do not touch a part of the tree
  // ---------------------------------------------------------------------------------------------

  ghost predicate SameOn(h: map<RbNode, Cell>, h': map<RbNode, Cell>, ns: set<RbNode>) {
    forall n :: n in ns && n in h ==> n in h' && h'[n] == h[n]
  }

  lemma {:induction false} ShapeFrame(h: map<RbNode, Cell>, h': map<RbNode, Cell>, t: Tree, parent: RbNode?)
    requires Shape(h, t, parent) && SameOn(h, h', Nodes(t))
    ensures Shape(h', t, parent)
  {
    match t
    case Leaf =>
    case Fork(c, l, n, r) =>
      ShapeFrame(h, h', l, n);
      ShapeFrame(h, h', r, n);
  }

  lemma {:induction false} AroundFrame(s: Links, s': Links, p: Path, hole: RbNode?)
    requires Around(s, p, hole) && SameOn(s.cells, s'.cells, PathNodes(p)) && s.root == s'.root
    ensures Around(s', p, hole)
    decreases p
  {
    match p
    case Top =>
    case In(d, c, n, sibling, up) =>
      ShapeFrame(s.cells, s'.cells, sibling, n);
      AroundFrame(s, s', up, n);
  }

  // ---------------------------------------------------------------------------------------------
  // Updates at the edge of a part of the tree
  // ---------------------------------------------------------------------------------------------

  /** The only change within `ns` is, if `n` is one of them, that the fields of `n` are now `c`. */
  ghost predicate OnlyAt(h: map<RbNode, Cell>, h': map<RbNode, Cell>, ns: set<RbNode>, n: RbNode?, c: Cell) {
    && SameOn(h, h', ns - {n})
    && (n != null && n in ns ==> n in h' && h'[n] == c)
  }

  lemma Reparent(h: map<RbNode, Cell>, h': map<RbNode, Cell>, t: Tree, parent: RbNode?, parent': RbNode?)
    requires Shape(h, t, parent) && Distinct(t)
    requires t.Fork? ==> OnlyAt(h, h', Nodes(t), t.node, h[t.node].(parent := parent'))
    ensures Shape(h', t, parent')
  {
    if t.Fork? {
      ShapeFrame(h, h', t.left, t.node);
      ShapeFrame(h, h', t.right, t.node);
    }
  }

  /** Hanging another node into a position: only the root pointer or one child pointer changes. */
  lemma Rehang(s: Links, s': Links, p: Path, hole: RbNode?, hole': RbNode?)
    requires Around(s, p, hole) && DistinctPath(p)
    requires if p.Top? then s'.root == hole'
             else s'.root == s.root && OnlyAt(s.cells, s'.cells, PathNodes(p), p.node, FrameCell(p, hole'))
    ensures Around(s', p, hole')
  {
    if p.In? {
      ShapeFrame(s.cells, s'.cells, p.sibling, p.node);
      AroundFrame(s, s', p.up, p.node);
    }
  }

  lemma PaintZip(s: Links, s': Links, t: Tree, p: Path, c: Color)
    requires Zip(s, t, p) && t.Fork?
    requires s'.root == s.root && s'.cells == s.cells[t.node := s.cells[t.node].(color := c)]
    ensures Zip(s', t.Paint(c), p)
  {
    ShapeFrame(s.cells, s'.cells, t.left, t.node);
    ShapeFrame(s.cells, s'.cells, t.right, t.node);
    AroundFrame(s, s', p, t.node);
  }

  /** The pointer writes of a rotation that moves `x` down to side `d`, below its other child `y`. */
  ghost predicate Rotation(s: Links, s': Links, d: Side, x: RbNode, y: RbNode, b: RbNode?) {
    && s'.cells.Keys == s.cells.Keys && x in s.cells && y in s.cells && x != y && b != x && b != y
    && SameOn(s.cells, s'.cells, s.cells.Keys - {x, y, b, s.cells[x].parent})
    && s'.cells[x] == s.cells[x].(parent := y).WithChild(d.Opposite(), b)
    && s'.cells[y] == s.cells[y].(parent := s.cells[x].parent).WithChild(d, x)
    && (b != null && b in s.cells ==> s'.cells[b] == s.cells[b].(parent := x))
    && var q := s.cells[x].parent;
       if q == null then s'.root == y
       else
         && s'.root == s.root
         && (q in s.cells && q != x && q != y && q != b ==>
               s'.cells[q] == if s.cells[q].left == x then s.cells[q].(left := y) else s.cells[q].(right := y))
  }

  /** The tree after a rotation towards side `d`: the other child of the top node rises above it. */
  function Rotated(d: Side, t: Tree): Tree
    requires t.Fork? && t.Child(d.Opposite()).Fork?
  {
    var y := t.Child(d.Opposite());
    Mk(d, y.color, Mk(d, t.color, t.Child(d), t.node, y.Child(d)), y.node, y.Child(d.Opposite()))
  }

  lemma RotatedNodes(d: Side, t: Tree)
    requires t.Fork? && t.Child(d.Opposite()).Fork? && Distinct(t)
    ensures Nodes(Rotated(d, t)) == Nodes(t) && Distinct(Rotated(d, t))
  {
    var y := t.Child(d.Opposite());
    var low := Mk(d, t.color, t.Child(d), t.node, y.Child(d));
    assert Distinct(y) && Nodes(low) == Nodes(t.Child(d)) + {t.node} + Nodes(y.Child(d));
    assert Distinct(low);
  }

  lemma RotationSubtrees(s: Links, s': Links, d: Side, t: Tree, parent: RbNode?)
    requires Shape(s.cells, t, parent) && Distinct(t) && t.Fork? && t.Child(d.Opposite()).Fork?
    requires parent !in Nodes(t)
    requires var y := t.Child(d.Opposite()); Rotation(s, s', d, t.node, y.node, y.Child(d).Root())
    ensures var y := t.Child(d.Opposite());
            Shape(s'.cells, t.Child(d), t.node) && Shape(s'.cells, y.Child(d), t.node)
              && Shape(s'.cells, y.Child(d.Opposite()), y.node)
  {
    var y := t.Child(d.Opposite());
    assert Shape(s.cells, y, t.node) && Distinct(y) && Nodes(y) <= Nodes(t) && Nodes(y) !! Nodes(t.Child(d));
    assert y.Child(d).Fork? ==> y.Child(d).node in Nodes(y.Child(d));
    ShapeFrame(s.cells, s'.cells, t.Child(d), t.node);
    ShapeFrame(s.cells, s'.cells, y.Child(d.Opposite()), y.node);
    Reparent(s.cells, s'.cells, y.Child(d), y.node, t.node);
  }

  lemma RotationShape(s: Links, s': Links, d: Side, t: Tree, parent: RbNode?)
    requires Shape(s.cells, t, parent) && Distinct(t) && t.Fork? && t.Child(d.Opposite()).Fork?
    requires parent !in Nodes(t)
    requires var y := t.Child(d.Opposite()); Rotation(s, s', d, t.node, y.node, y.Child(d).Root())
    ensures Shape(s'.cells, Rotated(d, t), parent)
  {
    var y := t.Child(d.Opposite());
    RotationSubtrees(s, s', d, t, parent);
    assert s.cells[y.node].color == y.color && s.cells[y.node].Child(d.Opposite()) == y.Child(d.Opposite()).Root();
    assert Shape(s'.cells, Mk(d, t.color, t.Child(d), t.node, y.Child(d)), y.node);
  }

  /** What a rotation reads: the nodes involved are there, and they are four different ones. */
  lemma RotationReads(s: Links, d: Side, t: Tree, p: Path)
    requires Zip(s, t, p) && t.Fork? && t.Child(d.Opposite()).Fork?
    ensures var y := t.Child(d.Opposite());
            var b, q := y.Child(d).Root(), p.Parent();
            && t.node in s.cells && s.cells[t.node].Child(d.Opposite()) == y.node && s.cells[t.node].parent == q
            && y.node in s.cells && s.cells[y.node].Child(d) == b
            && (b != null ==> b in s.cells) && (q != null ==> q in s.cells)
            && t.node != y.node && b != t.node && b != y.node
            && (q != null ==> q != t.node && q != y.node && q != b
                              && (s.cells[q].left == t.node <==> s.cells[q].right != t.node))
  {
    var y := t.Child(d.Opposite());
    assert Shape(s.cells, y, t.node) && Distinct(y) && Nodes(y) <= Nodes(t);
    assert y.Child(d).Fork? ==> y.Child(d).node in Nodes(y);
    assert p.In? && p.sibling.Fork? ==> p.sibling.node in PathNodes(p);
  }

  lemma RotationZip(s: Links, s': Links, d: Side, t: Tree, p: Path)
    requires Zip(s, t, p) && t.Fork? && t.Child(d.Opposite()).Fork?
    requires var y := t.Child(d.Opposite()); Rotation(s, s', d, t.node, y.node, y.Child(d).Root())
    ensures Zip(s', Rotated(d, t), p)
  {
    var y := t.Child(d.Opposite());
    assert y.node in Nodes(t) && Nodes(y.Child(d)) <= Nodes(t);
    RotatedNodes(d, t);
    RotationShape(s, s', d, t, p.Parent());
    Rehang(s, s', p, t.node, y.node);
  }

  /** The pointer writes of rb_link_node at the empty position at the end of path `p`. */
  ghost predicate LinksTo(s: Links, s': Links, p: Path, n: RbNode) {
    && s'.cells.Keys == s.cells.Keys + {n} && n !in s.cells
    && s'.cells[n] == Cell(p.Parent(), null, null, RED)
    && (if p.Top? then s'.root == n && SameOn(s.cells, s'.cells, s.cells.Keys)
        else s'.root == s.root && OnlyAt(s.cells, s'.cells, s.cells.Keys, p.node, FrameCell(p, n)))
  }

  lemma LinkZip(s: Links, s': Links, p: Path, n: RbNode)
    requires Zip(s, Leaf, p) && LinksTo(s, s', p, n)
    ensures Zip(s', Fork(RED, Leaf, n, Leaf), p)
  {
    Rehang(s, s', p, null, n);
  }
}
