/** What the pointer writes of `rb_erase` do to the represented tree: splicing out a node that has at most
    one child, and putting another node in the place of one that has two. */
module RbEraseLinks {
  import opened RbTree
  import opened RbLinks
  import opened RbErase

  /** A child pointer to `x` becomes one to `y`, looking at the left side first. */
  function Relink(c: Cell, x: RbNode, y: RbNode?): Cell {
    if c.left == x then c.(left := y) else c.(right := y)
  }

  // ---------------------------------------------------------------------------------------------
  // Splicing out
  // ---------------------------------------------------------------------------------------------

  /** The fields of node `m` after `n` has been replaced by its only child `u`. */
  function SplicedCell(h: map<RbNode, Cell>, n: RbNode, u: RbNode?, m: RbNode): Cell
    requires n in h && m in h
  {
    if m == u then h[m].(parent := h[n].parent)
    else if m == h[n].parent then Relink(h[m], n, u)
    else h[m]
  }

  ghost predicate Spliced(s: Links, s': Links, n: RbNode, u: RbNode?) {
    && n in s.cells && s'.cells.Keys == s.cells.Keys - {n}
    && (forall m :: m in s'.cells ==> s'.cells[m] == SplicedCell(s.cells, n, u, m))
    && s'.root == if s.cells[n].parent == null then u else s.root
  }

  /** The only subtree of a node that has at most one. */
  function Only(t: Tree): Tree
    requires t.Fork?
  {
    if t.left.Leaf? then t.right else t.left
  }

  lemma SpliceZip(s: Links, s': Links, t: Tree, p: Path)
    requires Zip(s, t, p) && t.Fork? && (t.left.Leaf? || t.right.Leaf?)
    requires Spliced(s, s', t.node, Only(t).Root())
    ensures Zip(s', Only(t), p)
  {
    var u := Only(t);
    assert Shape(s.cells, u, t.node) && Distinct(u) && t.node !in Nodes(u) && Nodes(t) == Nodes(u) + {t.node};
    assert u.Fork? ==> u.node in Nodes(u);
    Reparent(s.cells, s'.cells, u, t.node, p.Parent());
    Rehang(s, s', p, t.node, u.Root());
  }

  // ---------------------------------------------------------------------------------------------
  // Replacing
  // ---------------------------------------------------------------------------------------------

  /** The fields of node `m` after `n` has taken over the links of `old`. */
  function ReplacedCell(h: map<RbNode, Cell>, erased: RbNode, n: RbNode, m: RbNode): Cell
    requires erased in h && (m in h || m == n)
  {
    if m == n then h[erased]
    else if m == h[erased].left || m == h[erased].right then h[m].(parent := n)
    else if m == h[erased].parent then Relink(h[m], erased, n)
    else h[m]
  }

  ghost predicate Replaced(s: Links, s': Links, erased: RbNode, n: RbNode) {
    && erased in s.cells && n !in s.cells && s'.cells.Keys == s.cells.Keys - {erased} + {n}
    && (forall m :: m in s'.cells ==> s'.cells[m] == ReplacedCell(s.cells, erased, n, m))
    && s'.root == if s.cells[erased].parent == null then n else s.root
  }

  lemma ReplaceShape(s: Links, s': Links, t: Tree, p: Path, n: RbNode)
    requires Zip(s, t, p) && t.Fork? && Replaced(s, s', t.node, n)
    ensures Shape(s'.cells, t.left, n) && Shape(s'.cells, t.right, n)
  {
    var l, r := t.left, t.right;
    assert Shape(s.cells, l, t.node) && Shape(s.cells, r, t.node);
    assert l.Fork? ==> l.node in Nodes(l);
    assert r.Fork? ==> r.node in Nodes(r);
    Reparent(s.cells, s'.cells, l, t.node, n);
    Reparent(s.cells, s'.cells, r, t.node, n);
  }

  lemma ReplaceAround(s: Links, s': Links, t: Tree, p: Path, n: RbNode)
    requires Zip(s, t, p) && t.Fork? && Replaced(s, s', t.node, n)
    ensures Around(s', p, n)
  {
    assert t.left.Fork? ==> t.left.node in Nodes(t);
    assert t.right.Fork? ==> t.right.node in Nodes(t);
    Rehang(s, s', p, t.node, n);
  }

  lemma ReplaceZip(s: Links, s': Links, t: Tree, p: Path, n: RbNode)
    requires Zip(s, t, p) && t.Fork? && Replaced(s, s', t.node, n)
    ensures Zip(s', t.(node := n), p)
  {
    ReplaceShape(s, s', t, p, n);
    ReplaceAround(s, s', t, p, n);
  }

  // ---------------------------------------------------------------------------------------------
  // Erasing a node that has two children
  // ---------------------------------------------------------------------------------------------

  lemma {:induction false} LeastZip(s: Links, t: Tree, p: Path)
    requires Zip(s, t, p) && t.Fork?
    ensures Zip(s, Least(t), LeastPath(t, p))
  {
    if t.left.Leaf? {
    } else {
      ZipMove(s, LeftSide, t.color, t.left, t.node, t.right, p);
      LeastZip(s, t.left, In(LeftSide, t.color, t.node, t.right, p));
    }
  }

  function WithoutLeast(t: Tree): Tree
    requires t.Fork?
  {
    if t.left.Leaf? then t.right else t.(left := WithoutLeast(t.left))
  }

  lemma {:induction false} WithoutLeastZip(s: Links, t: Tree, p: Path)
    requires t.Fork?
    ensures Zip(s, Least(t).right, LeastPath(t, p)) <==> Zip(s, WithoutLeast(t), p)
  {
    if t.left.Leaf? {
    } else {
      var l := WithoutLeast(t.left);
      ZipMove(s, LeftSide, t.color, l, t.node, t.right, p);
      WithoutLeastZip(s, t.left, In(LeftSide, t.color, t.node, t.right, p));
    }
  }

  /** The links after splicing out a node. */
  ghost function SpliceOut(s: Links, n: RbNode, u: RbNode?): Links
    requires n in s.cells
  {
    Links(map m | m in s.cells && m != n :: SplicedCell(s.cells, n, u, m),
          if s.cells[n].parent == null then u else s.root)
  }

  /** Splicing out the node that is next in order and letting it take over the links of the erased node. */
  lemma TakeOverZip(s: Links, s': Links, t: Tree, p: Path)
    requires Zip(s, t, p) && t.Fork? && t.left.Fork? && t.right.Fork?
    requires var next := Least(t.right);
             Zip(s, next, LeastPath(t.right, In(RightSide, t.color, t.node, t.left, p))) &&
             Replaced(SpliceOut(s, next.node, next.right.Root()), s', t.node, next.node)
    ensures var next := Least(t.right);
            Zip(s', next.right, LeastPath(t.right, In(RightSide, t.color, next.node, t.left, p)))
  {
    var next, erased := Least(t.right), In(RightSide, t.color, t.node, t.left, p);
    var s1 := SpliceOut(s, next.node, next.right.Root());
    SpliceZip(s, s1, next, LeastPath(t.right, erased));
    WithoutLeastZip(s1, t.right, erased);
    var r := WithoutLeast(t.right);
    ZipMove(s1, RightSide, t.color, r, t.node, t.left, p);
    ReplaceZip(s1, s', t.(right := r), p, next.node);
    ZipMove(s', RightSide, t.color, r, next.node, t.left, p);
    WithoutLeastZip(s', t.right, In(RightSide, t.color, next.node, t.left, p));
  }

  lemma {:induction false} LeastNodes(t: Tree, p: Path)
    requires t.Fork? && Distinct(t)
    ensures Nodes(Least(t)) <= Nodes(t) && Least(t).node in Nodes(t)
    ensures t.left.Leaf? ==> Least(t) == t && LeastPath(t, p) == p
    ensures t.left.Fork? ==> t.node !in Nodes(Least(t))
    ensures t.left.Fork? ==> var q := LeastPath(t, p); q.In? && q.side == LeftSide
                                                       && q.node in Nodes(t) - Nodes(Least(t))
  {
    if t.left.Leaf? {
    } else {
      LeastNodes(t.left, In(LeftSide, t.color, t.node, t.right, p));
    }
  }

  lemma {:induction false} LeastParent(t: Tree, p: Path, p': Path)
    requires t.Fork? && t.left.Fork?
    ensures LeastPath(t, p).Parent() == LeastPath(t, p').Parent()
  {
    if t.left.left.Leaf? {
    } else {
      LeastParent(t.left, In(LeftSide, t.color, t.node, t.right, p), In(LeftSide, t.color, t.node, t.right, p'));
    }
  }

  /** The nodes that `rb_erase` writes to when the erased node has two children, told apart: the erased node
      `o` with parent `a` and children `l` and `r`, the next node `n` with parent `y` and child `x`. */
  ghost predicate ToldApart(h: map<RbNode, Cell>, o: RbNode, a: RbNode?, l: RbNode, r: RbNode, n: RbNode, x: RbNode?,
                            y: RbNode?)
  {
    && o in h && h[o].parent == a && h[o].left == l && h[o].right == r && l in h && r in h && (a != null ==> a in h)
    && n in h && h[n].parent == y && h[n].left == null && h[n].right == x
       && (x != null ==> x in h && h[x].parent == n) && y != null && y in h
    && n != o && n != l && n != a && l != o && l != r && r != o && a != o && a != l && a != r
    && (x != null ==> x != o && x != n && x != l && x != r && x != a && x != y)
    && y != n && y != l && y != a && (y == o <==> n == r) && (y != o ==> h[y].left == n)
  }

  lemma TakeOverReads(s: Links, t: Tree, p: Path)
    requires Zip(s, t, p) && t.Fork? && t.left.Fork? && t.right.Fork?
    ensures var next, q := Least(t.right), LeastPath(t.right, In(RightSide, t.color, t.node, t.left, p));
            && Zip(s, next, q) && s.cells[t.node].color == t.color && next.node in s.cells
               && s.cells[next.node].color == next.color
            && ToldApart(s.cells, t.node, p.Parent(), t.left.node, t.right.node, next.node, next.right.Root(),
               q.Parent())
  {
    var b := In(RightSide, t.color, t.node, t.left, p);
    var next, q := Least(t.right), LeastPath(t.right, b);
    ZipMove(s, RightSide, t.color, t.right, t.node, t.left, p);
    LeastZip(s, t.right, b);
    LeastNodes(t.right, b);
    assert next.right.Fork? ==> next.right.node in Nodes(next) && next.right.node != next.node;
    assert Shape(s.cells, next.right, next.node);
    assert t.left.node in Nodes(t.left);
  }

  /** The fields of node `m` after the two steps together: `n` leaves its place to its child and takes over
      the links of `o`. */
  function TakenOverCell(h: map<RbNode, Cell>, o: RbNode, n: RbNode, m: RbNode): Cell
    requires o in h && n in h && m in h
  {
    if m == n then
      Cell(h[o].parent, h[o].left, if h[n].parent == o then h[n].right else h[o].right, h[o].color)
    else if m == h[o].left then h[m].(parent := n)
    else if m == h[o].parent then Relink(h[m], o, n)
    else if h[n].parent == o then h[m]
    else if m == h[n].right then h[m].(parent := h[n].parent)
    else
      var c := if m == h[n].parent then h[m].(left := h[n].right) else h[m];
      if m == h[o].right then c.(parent := n) else c
  }

  ghost predicate TakenOver(s: Links, s': Links, o: RbNode, n: RbNode) {
    && o in s.cells && n in s.cells && s'.cells.Keys == s.cells.Keys - {o}
    && (forall m :: m in s'.cells ==> s'.cells[m] == TakenOverCell(s.cells, o, n, m))
    && s'.root == if s.cells[o].parent == null then n else s.root
  }

  lemma TakenOverIsReplaced(s: Links, s': Links, o: RbNode, a: RbNode?, l: RbNode, r: RbNode, n: RbNode, x: RbNode?,
                            y: RbNode?)
    requires ToldApart(s.cells, o, a, l, r, n, x, y) && TakenOver(s, s', o, n)
    ensures Replaced(SpliceOut(s, n, x), s', o, n)
  {
    var s1 := SpliceOut(s, n, x);
    assert s1.cells[o] == if y == o then s.cells[o].(right := x) else s.cells[o];
    forall m | m in s'.cells ensures s'.cells[m] == ReplacedCell(s1.cells, o, n, m) {
      if m != n {
        assert s1.cells[m] == SplicedCell(s.cells, n, x, m);
      }
    }
  }
}
