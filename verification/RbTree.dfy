/** The nodes of an intrusive red-black tree, and the shapes they can be linked into.

    An `RbNode` carries the mutable links of `struct rb_node` together with the payload of the
    structure it is embedded in.  A `Tree` is a mathematical picture of linked nodes: it holds the
    node objects themselves, so two trees with the same in-order sequence hold the same objects. */
module RbTree {
  import opened Sequences

  datatype Color = RED | BLACK

  datatype Side = LeftSide | RightSide {
    function Opposite(): Side {
      match this case LeftSide => RightSide case RightSide => LeftSide
    }
  }

  /** The type of the values an augmented tree keeps in its nodes.  Nothing is assumed about it. */
  type Aug(==, 0)

  /** `struct rb_node`, with the parent pointer and the colour in fields of their own, embedded in a
      container that has a key and an augmented value. */
  class RbNode {
    var parent: RbNode?
    var color: Color
    var left: RbNode?
    var right: RbNode?
    const key: int
    var aug: Aug

    /** rb_init_node: a node outside every tree is its own parent. */
    constructor (k: int, a: Aug)
      ensures key == k && aug == a
      ensures parent == this && left == null && right == null
    {
      key := k;
      aug := a;
      parent := this;
      color := RED;
      left := null;
      right := null;
    }
  }

  datatype Tree = Leaf | Fork(color: Color, left: Tree, node: RbNode, right: Tree) {
    predicate Red() {
      Fork? && color == RED
    }

    /** What setting the colour of the top node does, if there is one. */
    function Paint(c: Color): Tree {
      if Fork? then this.(color := c) else this
    }

    ghost function Root(): RbNode? {
      if Fork? then node else null
    }

    function Child(d: Side): Tree
      requires Fork?
    {
      match d case LeftSide => left case RightSide => right
    }
  }

  /** A tree whose `d`-side subtree is `inner` and whose other subtree is `outer`. */
  function Mk(d: Side, c: Color, inner: Tree, n: RbNode, outer: Tree): Tree {
    match d
    case LeftSide => Fork(c, inner, n, outer)
    case RightSide => Fork(c, outer, n, inner)
  }

  /** The way from a position in a tree back to the root.  In `In(d, c, n, sibling, up)` the position is
      the `d`-side child of node `n`, which has colour `c` and the other subtree `sibling`. */
  datatype Path = Top | In(side: Side, color: Color, node: RbNode, sibling: Tree, up: Path) {
    predicate RedAbove() {
      In? && color == RED
    }

    ghost function Parent(): RbNode? {
      if In? then node else null
    }

    function Length(): nat {
      if Top? then 0 else 1 + up.Length()
    }
  }

  /** The whole tree, from a subtree and the way from it to the root. */
  function Plug(t: Tree, p: Path): Tree
    decreases p
  {
    match p
    case Top => t
    case In(d, c, n, s, up) => Plug(Mk(d, c, t, n, s), up)
  }

  // ---------------------------------------------------------------------------------------------
  // In-order sequence
  // ---------------------------------------------------------------------------------------------

  function Inorder(t: Tree): seq<RbNode> {
    match t
    case Leaf => []
    case Fork(_, l, n, r) => Inorder(l) + [n] + Inorder(r)
  }

  /** The part of the in-order sequence that comes before a position. */
  function Before(p: Path): seq<RbNode> {
    match p
    case Top => []
    case In(LeftSide, _, _, _, up) => Before(up)
    case In(RightSide, _, n, s, up) => Before(up) + (Inorder(s) + [n])
  }

  /** The part of the in-order sequence that comes after a position. */
  function After(p: Path): seq<RbNode> {
    match p
    case Top => []
    case In(LeftSide, _, n, s, up) => ([n] + Inorder(s)) + After(up)
    case In(RightSide, _, _, _, up) => After(up)
  }

  lemma {:induction false} PlugInorder(t: Tree, p: Path)
    ensures Inorder(Plug(t, p)) == Before(p) + Inorder(t) + After(p)
    decreases p
  {
    match p
    case Top =>
    case In(d, c, n, s, up) =>
      PlugInorder(Mk(d, c, t, n, s), up);
  }

  /** Replacing a subtree by one with the same in-order sequence does not show from outside. */
  lemma PlugSameInorder(t: Tree, t': Tree, p: Path)
    requires Inorder(t) == Inorder(t')
    ensures Inorder(Plug(t, p)) == Inorder(Plug(t', p))
  {
    PlugInorder(t, p);
    PlugInorder(t', p);
  }

  /** The one fact about sequences behind every rotation. */
  lemma RotationInorder(d: Side, a: Tree, x: RbNode, b: Tree, y: RbNode, e: Tree, c1: Color, c2: Color, c3: Color,
                        c4: Color)
    ensures Inorder(Mk(d, c1, Mk(d, c2, a, x, b), y, e)) == Inorder(Mk(d, c3, a, x, Mk(d, c4, b, y, e)))
  {
    var s, u, v := Inorder(a), Inorder(b), Inorder(e);
    match d
    case LeftSide =>
      assert (s + [x] + u) + [y] + v == s + [x] + (u + [y] + v);
    case RightSide =>
      assert v + [y] + (u + [x] + s) == (v + [y] + u) + [x] + s;
  }

  /** Subtrees may be exchanged for ones with the same sequence inside `Mk`. */
  lemma MkInorder(d: Side, c: Color, t: Tree, n: RbNode, s: Tree, c': Color, t': Tree, s': Tree)
    requires Inorder(t) == Inorder(t') && Inorder(s) == Inorder(s')
    ensures Inorder(Mk(d, c, t, n, s)) == Inorder(Mk(d, c', t', n, s'))
  {
  }

  lemma PaintInorder(t: Tree, c: Color)
    ensures Inorder(t.Paint(c)) == Inorder(t)
  {
  }

  // ---------------------------------------------------------------------------------------------
  // The nodes of a tree, and their being different from each other
  // ---------------------------------------------------------------------------------------------

  ghost function Nodes(t: Tree): set<RbNode> {
    match t
    case Leaf => {}
    case Fork(_, l, n, r) => Nodes(l) + {n} + Nodes(r)
  }

  ghost predicate Distinct(t: Tree) {
    match t
    case Leaf => true
    case Fork(_, l, n, r) =>
      && Distinct(l) && Distinct(r)
      && n !in Nodes(l) && n !in Nodes(r) && Nodes(l) !! Nodes(r)
  }

  ghost function PathNodes(p: Path): set<RbNode> {
    match p
    case Top => {}
    case In(_, _, n, s, up) => {n} + Nodes(s) + PathNodes(up)
  }

  ghost predicate DistinctPath(p: Path) {
    match p
    case Top => true
    case In(_, _, n, s, up) =>
      && Distinct(s) && DistinctPath(up)
      && n !in Nodes(s) && n !in PathNodes(up) && Nodes(s) !! PathNodes(up)
  }

  lemma {:induction false} NodesAreInorder(t: Tree)
    ensures Nodes(t) == set n | n in Inorder(t)
  {
    match t
    case Leaf =>
    case Fork(_, l, n, r) =>
      NodesAreInorder(l);
      NodesAreInorder(r);
  }

  lemma {:induction false} NoDuplicatesIsDistinct(t: Tree)
    requires NoDuplicates(Inorder(t))
    ensures Distinct(t)
  {
    match t
    case Leaf =>
    case Fork(_, l, n, r) =>
      NoDuplicatesAround(Inorder(l), n, Inorder(r));
      NoDuplicatesIsDistinct(l);
      NoDuplicatesIsDistinct(r);
      NodesAreInorder(l);
      NodesAreInorder(r);
  }

  lemma {:induction false} DistinctIsNoDuplicates(t: Tree)
    requires Distinct(t)
    ensures NoDuplicates(Inorder(t))
  {
    match t
    case Leaf =>
    case Fork(_, l, n, r) =>
      DistinctIsNoDuplicates(l);
      DistinctIsNoDuplicates(r);
      NodesAreInorder(l);
      NodesAreInorder(r);
      forall y | y in Inorder(l) ensures y !in Inorder(r) {
        assert y in Nodes(l);
      }
      NoDuplicatesJoin(Inorder(l), n, Inorder(r));
  }

  // ---------------------------------------------------------------------------------------------
  // The red-black rules
  // ---------------------------------------------------------------------------------------------

  /** Below `t` no red node has a red child, and every way down to a leaf meets `k` black nodes. */
  ghost predicate Balanced(t: Tree, k: nat) {
    match t
    case Leaf => k == 0
    case Fork(RED, l, _, r) => !l.Red() && !r.Red() && Balanced(l, k) && Balanced(r, k)
    case Fork(BLACK, l, _, r) => k > 0 && Balanced(l, k - 1) && Balanced(r, k - 1)
  }

  ghost predicate RedBlack(t: Tree) {
    !t.Red() && exists k: nat :: Balanced(t, k)
  }

  /** The surroundings of a position are red-black if a black subtree of black height `k` is put there. */
  ghost predicate Accepts(p: Path, k: nat) {
    match p
    case Top => true
    case In(_, RED, _, s, up) => up.In? && up.color == BLACK && !s.Red() && Balanced(s, k) && Accepts(up, k)
    case In(_, BLACK, _, s, up) => Balanced(s, k) && Accepts(up, k + 1)
  }

  lemma {:induction false} PlugRedBlack(t: Tree, p: Path, k: nat)
    requires Balanced(t, k) && Accepts(p, k)
    requires t.Red() ==> p.In? && p.color == BLACK
    ensures RedBlack(Plug(t, p))
    decreases p
  {
    match p
    case Top =>
    case In(d, c, n, s, up) =>
      PlugRedBlack(Mk(d, c, t, n, s), up, if c == RED then k else k + 1);
  }

  /** Every position in a red-black tree has surroundings that accept what is there. */
  lemma {:induction false} UnplugRedBlack(t: Tree, p: Path) returns (k: nat)
    requires RedBlack(Plug(t, p))
    ensures Balanced(t, k) && Accepts(p, k)
    ensures t.Red() ==> p.In? && p.color == BLACK
    decreases p
  {
    match p
    case Top =>
      k :| Balanced(t, k);
    case In(d, c, n, s, up) =>
      var h := UnplugRedBlack(Mk(d, c, t, n, s), up);
      k := if c == RED then h else h - 1;
  }

  // ---------------------------------------------------------------------------------------------
  // Finding the position of a node
  // ---------------------------------------------------------------------------------------------

  /** The subtree of `t` below node `n`. */
  ghost function Below(t: Tree, n: RbNode): (t': Tree)
    requires n in Nodes(t)
    ensures t'.Fork? && t'.node == n
  {
    if t.node == n then t else if n in Nodes(t.left) then Below(t.left, n) else Below(t.right, n)
  }

  /** The way from node `n` of `t` to the top of `t`, and on along `p`. */
  ghost function Above(t: Tree, p: Path, n: RbNode): (p': Path)
    requires n in Nodes(t)
    ensures Plug(Below(t, n), p') == Plug(t, p)
  {
    if t.node == n then p
    else if n in Nodes(t.left) then Above(t.left, In(LeftSide, t.color, t.node, t.right, p), n)
    else Above(t.right, In(RightSide, t.color, t.node, t.left, p), n)
  }
}
