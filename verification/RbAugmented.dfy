/** The augmented red-black tree: the repair walk, and the two protocols around insertion and erasure. */
module RbAugmented {
  import opened Options
  import opened Sequences
  import opened RbTree
  import opened RbLinks
  import opened RbRoots
  import opened RbAugment
  import opened RbEraseLinks
  import opened RbIteration
  import E = RbErase

  ghost function AugsOf(S: set<RbNode>): Augs
    reads S
  {
    map n | n in S :: n.aug
  }

  /** The client's callback. */
  method Call(f: Recompute, n: RbNode, ghost root: RbRoot, ghost S: set<RbNode>, ghost t: Tree, ghost p: Path)
    requires root.Holds(S, t, p) && t.Fork? && t.node == n
    modifies n`aug
    ensures root.Holds(S, t, p) && AugsOf(S) == Recomputed(f, old(AugsOf(S)), t)
  {
    root.ReadsBelow(S, t, p);
    var l := if n.left == null then None else Some(n.left.aug);
    var r := if n.right == null then None else Some(n.right.aug);
    ghost var h := CellsOf(S);
    n.aug := f(n, l, r);
    assert CellsOf(S) == h;
  }

  /** rb_augment_path */
  method AugmentPath(f: Recompute, n: RbNode, ghost root: RbRoot, ghost S: set<RbNode>, ghost t0: Tree, ghost p0: Path)
    requires root.Holds(S, t0, p0) && Walkable(f, AugsOf(S), t0, p0) && t0.node == n
    modifies S`aug
    ensures root.Holds(S, Plug(t0, p0), Top) && Fresh(f, AugsOf(S), Plug(t0, p0))
  {
    var node := n;
    ghost var t, p := t0, p0;
    while true
      invariant root.Holds(S, t, p) && Walkable(f, AugsOf(S), t, p) && t.node == node && node in S
      invariant Plug(t, p) == Plug(t0, p0)
      decreases p.Length()
    {
      ghost var g := AugsOf(S);
      RecomputeFresh(f, g, t);
      if p.In? {
        WalkUp(f, g, t, p);
      }
      Call(f, node, root, S, t, p);
      root.Reads(S, t, p);
      var parent := node.parent;
      if parent == null {
        return;
      }
      ghost var g1 := AugsOf(S);
      if node == parent.left && parent.right != null {
        root.MoveAcross(S, t, p);
        Call(f, parent.right, root, S, p.sibling, Across(t, p));
        root.MoveAcross(S, t, p);
      } else if parent.left != null {
        if node == parent.left {
          RecomputeIdle(f, g1, t);
          Call(f, parent.left, root, S, t, p);
        } else {
          root.MoveAcross(S, t, p);
          Call(f, parent.left, root, S, p.sibling, Across(t, p));
          root.MoveAcross(S, t, p);
        }
      }
      root.Move(S, p.side, p.color, t, p.node, p.sibling, p.up);
      node := parent;
      t, p := Mk(p.side, p.color, t, p.node, p.sibling), p.up;
      root.Reads(S, t, p);
    }
  }

  /** rb_augment_insert, after `node` has been inserted. */
  method AugmentInsert(f: Recompute, n: RbNode, ghost root: RbRoot)
    requires root.Valid() && StaleAround(f, AugsOf(Nodes(root.tree)), root.tree, n)
    modifies Nodes(root.tree)`aug
    ensures root.Valid() && Fresh(f, AugsOf(Nodes(root.tree)), root.tree)
  {
    ghost var S, g := Nodes(root.tree), AugsOf(Nodes(root.tree));
    ghost var t, p := LocateAround(f, g, root.tree, Top, n);
    ZipTop(root.LinksOf(S), t, p);
    root.Reads(S, t, p);
    root.Move(S, LeftSide, t.color, t.left, t.node, t.right, p);
    root.Move(S, RightSide, t.color, t.right, t.node, t.left, p);
    var node := n;
    if node.left != null {
      node := node.left;
      p, t := In(LeftSide, t.color, t.node, t.right, p), t.left;
    } else if node.right != null {
      node := node.right;
      p, t := In(RightSide, t.color, t.node, t.left, p), t.right;
    }
    AugmentPath(f, node, root, S, t, p);
    root.Seal(S);
  }

  /** rb_link_node, rb_insert_color and rb_augment_insert: the augmentation survives an insertion. */
  method InsertAugmented(f: Recompute, root: RbRoot, node: RbNode, parent: RbNode?, side: Side, ghost p: Path)
    requires root.Valid() && Fresh(f, AugsOf(Nodes(root.tree)), root.tree) && node !in Nodes(root.tree)
    requires Plug(Leaf, p) == root.tree && parent == p.Parent() && (p.In? ==> side == p.side)
    modifies root, Nodes(root.tree) + {node}
    ensures root.Valid() && Fresh(f, AugsOf(Nodes(root.tree)), root.tree)
    ensures Inorder(root.tree) == Before(p) + [node] + After(p)
  {
    ghost var S, g := Nodes(root.tree), AugsOf(Nodes(root.tree));
    root.Insert(node, parent, side, p);
    ghost var g' := AugsOf(S + {node});
    FreshFrame(f, g, g', Plug(Leaf, p));
    InsertStale(f, g', p, node);
    AugmentInsert(f, node, root);
  }

  /** The deepest node on the way up from the gap that erasing `n` leaves. */
  ghost function DeepestAfter(t: Tree, n: RbNode): RbNode?
    requires n in Nodes(t)
  {
    Deepest(E.GapTree(Below(t, n)), E.GapPath(Below(t, n), Above(t, Top, n)))
  }

  /** The node that is next in order below a node with two children. */
  lemma NextIsLeast(root: RbRoot, n: RbNode, r: RbNode?)
    requires root.Valid() && n in Nodes(root.tree) && Below(root.tree, n).right.Fork?
    requires Follows(Inorder(root.tree), n, r)
    ensures r == E.Least(Below(root.tree, n).right).node
  {
    var t, p := Below(root.tree, n), Above(root.tree, Top, n);
    Position(root, n);
    InorderNodes(root.tree);
    LeastIsFirst(t.right);
    var b := Before(p) + Inorder(t.left);
    assert Inorder(root.tree)[|b|] == n;
    FollowsIndex(Inorder(root.tree), |b|, r);
  }

  /** rb_augment_erase_begin */
  method AugmentEraseBegin(node: RbNode, ghost root: RbRoot) returns (deepest: RbNode?)
    requires root.Valid() && node in Nodes(root.tree)
    ensures root.Valid() && deepest == DeepestAfter(root.tree, node)
  {
    ghost var S, t, p := Nodes(root.tree), Below(root.tree, node), Above(root.tree, Top, node);
    Position(root, node);
    root.Reads(S, t, p);
    if node.right == null && node.left == null {
      deepest := node.parent;
    } else if node.right == null {
      deepest := node.left;
    } else if node.left == null {
      deepest := node.right;
    } else {
      deepest := Next(node, root);
      NextIsLeast(root, node, deepest);
      Position(root, node);
      TakeOverReads(root.LinksOf(S), t, p);
      ghost var q := In(RightSide, t.color, t.node, t.left, p);
      LeastNodes(t.right, q);
      if deepest.right != null {
        deepest := deepest.right;
      } else if deepest.parent != node {
        deepest := deepest.parent;
        LeastParent(t.right, q, q.(node := E.Least(t.right).node));
      }
    }
  }

  /** rb_augment_erase_begin, rb_erase and rb_augment_erase_end: the augmentation survives an erasure. */
  method EraseAugmented(f: Recompute, root: RbRoot, node: RbNode)
    requires root.Valid() && Fresh(f, AugsOf(Nodes(root.tree)), root.tree) && node in Nodes(root.tree)
    modifies root, Nodes(root.tree)
    ensures root.Valid() && Fresh(f, AugsOf(Nodes(root.tree)), root.tree)
    ensures Removed(old(Inorder(root.tree)), Inorder(root.tree), node)
  {
    ghost var S, g := Nodes(root.tree), AugsOf(Nodes(root.tree));
    ghost var t, p := Below(root.tree, node), Above(root.tree, Top, node);
    EraseStale(f, g, t, p);
    var deepest := AugmentEraseBegin(node, root);
    root.Erase(node);
    ghost var g' := AugsOf(S - {node});
    StaleBesideFrame(f, g, g', root.tree, deepest);
    AugmentEraseEnd(f, deepest, root);
  }

  /** rb_augment_erase_end */
  method AugmentEraseEnd(f: Recompute, n: RbNode?, ghost root: RbRoot)
    requires root.Valid()
    requires if n == null then root.tree == Leaf else StaleBeside(f, AugsOf(Nodes(root.tree)), root.tree, n)
    modifies Nodes(root.tree)`aug
    ensures root.Valid() && Fresh(f, AugsOf(Nodes(root.tree)), root.tree)
  {
    if n != null {
      ghost var S, g := Nodes(root.tree), AugsOf(Nodes(root.tree));
      ghost var t, p := LocateBeside(f, g, root.tree, Top, n);
      ZipTop(root.LinksOf(S), t, p);
      AugmentPath(f, n, root, S, t, p);
      root.Seal(S);
    }
  }
}
