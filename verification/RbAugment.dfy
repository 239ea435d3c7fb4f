/** Augmented values: which of them an update leaves stale, and why one walk to the root repairs them all. */
module RbAugment {
  import opened Options
  import opened RbTree
  import I = RbInsert
  import E = RbErase

  /** The client's recomputation of a node's value from the node itself and its children's values. */
  type Recompute = (RbNode, Option<Aug>, Option<Aug>) -> Aug

  type Augs = map<RbNode, Aug>

  ghost function At(g: Augs, n: RbNode?): Option<Aug> {
    if n != null && n in g then Some(g[n]) else None
  }

  /** Every node of `t` has the value its subtree calls for. */
  ghost predicate Fresh(f: Recompute, g: Augs, t: Tree) {
    match t
    case Leaf => true
    case Fork(_, l, n, r) =>
      Fresh(f, g, l) && Fresh(f, g, r) && n in g && g[n] == f(n, At(g, l.Root()), At(g, r.Root()))
  }

  /** At most the top node of `t` is stale. */
  ghost predicate FreshBelow(f: Recompute, g: Augs, t: Tree) {
    t.Fork? ==> Fresh(f, g, t.left) && Fresh(f, g, t.right) && t.node in g
  }

  /** Only `n` and nodes above it are stale. */
  ghost predicate StaleAbove(f: Recompute, g: Augs, t: Tree, n: RbNode) {
    t.Fork? && t.node in g &&
    (|| (t.node == n && Fresh(f, g, t.left) && Fresh(f, g, t.right))
     || (StaleAbove(f, g, t.left, n) && Fresh(f, g, t.right))
     || (Fresh(f, g, t.left) && StaleAbove(f, g, t.right, n)))
  }

  /** Only `n`, nodes above it and siblings of those nodes are stale. */
  ghost predicate StaleBeside(f: Recompute, g: Augs, t: Tree, n: RbNode) {
    t.Fork? && t.node in g &&
    (|| (t.node == n && Fresh(f, g, t.left) && Fresh(f, g, t.right))
     || (StaleBeside(f, g, t.left, n) && FreshBelow(f, g, t.right))
     || (FreshBelow(f, g, t.left) && StaleBeside(f, g, t.right, n)))
  }

  /** Only `n`, its children, nodes above it and siblings of those nodes are stale. */
  ghost predicate StaleAround(f: Recompute, g: Augs, t: Tree, n: RbNode) {
    t.Fork? && t.node in g &&
    (|| (t.node == n && FreshBelow(f, g, t.left) && FreshBelow(f, g, t.right))
     || (StaleAround(f, g, t.left, n) && FreshBelow(f, g, t.right))
     || (FreshBelow(f, g, t.left) && StaleAround(f, g, t.right, n)))
  }

  /** Beside the way to the root everything is fresh. */
  ghost predicate FreshPath(f: Recompute, g: Augs, p: Path) {
    p.In? ==> p.node in g && Fresh(f, g, p.sibling) && FreshPath(f, g, p.up)
  }

  /** Beside the way to the root only siblings of nodes on it may be stale. */
  ghost predicate FreshBelowPath(f: Recompute, g: Augs, p: Path) {
    p.In? ==> p.node in g && FreshBelow(f, g, p.sibling) && FreshBelowPath(f, g, p.up)
  }

  lemma {:induction false} FreshPathBelow(f: Recompute, g: Augs, p: Path)
    requires FreshPath(f, g, p)
    ensures FreshBelowPath(f, g, p)
  {
    if p.Top? {
    } else {
      FreshPathBelow(f, g, p.up);
    }
  }

  lemma {:induction false} UnplugFresh(f: Recompute, g: Augs, t: Tree, p: Path)
    requires Fresh(f, g, Plug(t, p))
    ensures Fresh(f, g, t) && FreshPath(f, g, p)
    decreases p
  {
    if p.Top? {
    } else {
      UnplugFresh(f, g, Mk(p.side, p.color, t, p.node, p.sibling), p.up);
    }
  }

  lemma {:induction false} PlugStaleAround(f: Recompute, g: Augs, t: Tree, p: Path, n: RbNode)
    requires StaleAround(f, g, t, n) && FreshBelowPath(f, g, p)
    ensures StaleAround(f, g, Plug(t, p), n)
    decreases p
  {
    if p.Top? {
    } else {
      PlugStaleAround(f, g, Mk(p.side, p.color, t, p.node, p.sibling), p.up, n);
    }
  }

  lemma {:induction false} PlugStaleBeside(f: Recompute, g: Augs, t: Tree, p: Path, n: RbNode)
    requires StaleBeside(f, g, t, n) && FreshBelowPath(f, g, p)
    ensures StaleBeside(f, g, Plug(t, p), n)
    decreases p
  {
    if p.Top? {
    } else {
      PlugStaleBeside(f, g, Mk(p.side, p.color, t, p.node, p.sibling), p.up, n);
    }
  }

  lemma {:induction false} StaleAboveBeside(f: Recompute, g: Augs, t: Tree, n: RbNode)
    requires StaleAbove(f, g, t, n)
    ensures StaleBeside(f, g, t, n) && StaleAround(f, g, t, n)
  {
    if StaleAbove(f, g, t.left, n) {
      StaleAboveBeside(f, g, t.left, n);
    }
    if StaleAbove(f, g, t.right, n) {
      StaleAboveBeside(f, g, t.right, n);
    }
  }

  // ---------------------------------------------------------------------------------------------
  // Insertion
  // ---------------------------------------------------------------------------------------------

  /** The new node may rise above its parent and its grandparent: then both are stale below it. */
  lemma InnerRotationStale(f: Recompute, g: Augs, t: Tree, p: Path, n: RbNode)
    requires StaleAbove(f, g, t, n) && FreshPath(f, g, p) && p.In? && p.up.In? && p.side != p.up.side
             && !p.up.sibling.Red()
    ensures var p' := I.StepPath(t, p);
            StaleAround(f, g, Mk(p.up.side, BLACK, I.StepTree(t, p), p'.node, p'.sibling), n)
  {
    var gd, d, low, p' := p.up.side, p.side, I.StepTree(t, p), I.StepPath(t, p);
    var a, b := t.Child(gd), t.Child(d);
    if t.node == n && Fresh(f, g, a) && Fresh(f, g, b) {
      assert FreshBelow(f, g, low) && FreshBelow(f, g, p'.sibling);
    } else if StaleAbove(f, g, a, n) && Fresh(f, g, b) {
      assert StaleAbove(f, g, low, n) && FreshBelow(f, g, p'.sibling);
      StaleAboveBeside(f, g, low, n);
    } else {
      assert StaleAbove(f, g, b, n) && Fresh(f, g, a);
      assert StaleAbove(f, g, p'.sibling, n) && FreshBelow(f, g, low);
      StaleAboveBeside(f, g, p'.sibling, n);
    }
  }

  /** Rotations leave nodes stale that are not above the new node, but only next to the way up. */
  lemma StepStale(f: Recompute, g: Augs, t: Tree, p: Path, n: RbNode)
    requires StaleAbove(f, g, t, n) && FreshPath(f, g, p) && p.In? && p.up.In?
    ensures var t', p' := I.StepTree(t, p), I.StepPath(t, p);
            if p.up.sibling.Red() then StaleAbove(f, g, t', n) && FreshPath(f, g, p')
            else StaleAround(f, g, Plug(t', p'), n)
  {
    var d, gd, t', p', up := p.side, p.up.side, I.StepTree(t, p), I.StepPath(t, p), p.up.up;
    if p.up.sibling.Red() {
      assert Fresh(f, g, p.up.sibling.Paint(BLACK));
      assert StaleAbove(f, g, Mk(d, BLACK, t, p.node, p.sibling), n);
    } else {
      FreshPathBelow(f, g, up);
      if d == gd {
        StaleAboveBeside(f, g, t, n);
        assert FreshBelow(f, g, p'.sibling);
      } else {
        InnerRotationStale(f, g, t, p, n);
      }
      PlugStaleAround(f, g, Mk(gd, BLACK, t', p'.node, p'.sibling), up, n);
    }
  }

  lemma PaintStaleAround(f: Recompute, g: Augs, t: Tree, n: RbNode, c: Color)
    requires StaleAround(f, g, t, n)
    ensures StaleAround(f, g, t.Paint(c), n)
  {
  }

  lemma {:induction false} InsertFixStale(f: Recompute, g: Augs, t: Tree, p: Path, n: RbNode)
    requires StaleAbove(f, g, t, n) && FreshPath(f, g, p)
    ensures StaleAround(f, g, I.InsertFix(t, p), n)
    decreases p.Length()
  {
    if t.Fork? && p.RedAbove() && p.up.In? {
      StepStale(f, g, t, p, n);
      var t', p' := I.StepTree(t, p), I.StepPath(t, p);
      if p.up.sibling.Red() {
        InsertFixStale(f, g, t', p', n);
      } else {
        PaintStaleAround(f, g, Plug(t', p'), n, BLACK);
      }
    } else {
      StaleAboveBeside(f, g, t, n);
      FreshPathBelow(f, g, p);
      PlugStaleAround(f, g, t, p, n);
      PaintStaleAround(f, g, Plug(t, p), n, BLACK);
    }
  }

  /** After a new node has been linked and the tree rebalanced, only the new node, its children, the nodes
      above it and the siblings of those can be stale. */
  lemma InsertStale(f: Recompute, g: Augs, p: Path, n: RbNode)
    requires Fresh(f, g, Plug(Leaf, p)) && n in g
    ensures StaleAround(f, g, I.InsertFix(Fork(RED, Leaf, n, Leaf), p), n)
  {
    UnplugFresh(f, g, Leaf, p);
    InsertFixStale(f, g, Fork(RED, Leaf, n, Leaf), p, n);
  }

  // ---------------------------------------------------------------------------------------------
  // Erasure
  // ---------------------------------------------------------------------------------------------

  /** The deepest node on the way up from the gap that will still be there. */
  ghost function Deepest(t: Tree, p: Path): RbNode? {
    if t.Fork? then t.node else p.Parent()
  }

  /** Only `n` and nodes above it are stale, where `n` is in `t` or, if `t` is empty, just above it. */
  ghost predicate StaleFrom(f: Recompute, g: Augs, t: Tree, p: Path, n: RbNode) {
    FreshPath(f, g, p) && (StaleAbove(f, g, t, n) || (t.Leaf? && p.Parent() == n))
  }

  lemma StaleFromUp(f: Recompute, g: Augs, d: Side, c: Color, t: Tree, n: RbNode, s: Tree, m: RbNode)
    requires StaleAbove(f, g, t, m) || (t.Leaf? && n == m)
    requires Fresh(f, g, s) && n in g
    ensures StaleAbove(f, g, Mk(d, c, t, n, s), m)
  {
  }

  lemma TurnedStale(f: Recompute, g: Augs, t: Tree, p: Path, m: RbNode)
    requires StaleFrom(f, g, t, p, m) && p.In? && p.sibling.Fork? && !E.BlackNephews(p.sibling)
    ensures StaleBeside(f, g, Plug(E.Turned(t, p), p.up), m)
  {
    var d, c, n, o := p.side, p.color, p.node, p.sibling;
    var near, far := o.Child(d), o.Child(d.Opposite());
    assert Fresh(f, g, near) && Fresh(f, g, far) && o.node in g;
    var low := Mk(d, BLACK, t, n, if far.Red() then near else near.Child(d));
    StaleFromUp(f, g, d, BLACK, t, n, if far.Red() then near else near.Child(d), m);
    StaleAboveBeside(f, g, low, m);
    if far.Red() {
      assert FreshBelow(f, g, far.Paint(BLACK));
    } else {
      assert FreshBelow(f, g, Mk(d, BLACK, near.Child(d.Opposite()), o.node, far)) && near.node in g;
    }
    FreshPathBelow(f, g, p.up);
    PlugStaleBeside(f, g, E.Turned(t, p), p.up, m);
  }

  lemma BlackSiblingStale(f: Recompute, g: Augs, t: Tree, p: Path, m: RbNode)
    requires StaleFrom(f, g, t, p, m) && p.In? && p.sibling.Fork?
    ensures StaleFrom(f, g, t, E.BlackSibling(p), m)
  {
    var o := p.sibling;
    assert Fresh(f, g, o.left) && Fresh(f, g, o.right) && o.node in g;
  }

  lemma {:induction false} EraseFixStale(f: Recompute, g: Augs, t: Tree, p: Path, m: RbNode)
    requires StaleFrom(f, g, t, p, m)
    ensures StaleBeside(f, g, E.EraseFix(t, p), m)
    decreases E.Effort(t, p)
  {
    if !t.Red() && E.HasSiblings(p) {
      E.StepEffort(t, p);
      BlackSiblingStale(f, g, t, p, m);
      var q := E.BlackSibling(p);
      var t', p' := E.StepTree(t, p), E.StepPath(t, p);
      if E.BlackNephews(q.sibling) {
        assert Fresh(f, g, q.sibling.Paint(RED));
        StaleFromUp(f, g, q.side, q.color, t, q.node, q.sibling.Paint(RED), m);
        EraseFixStale(f, g, t', p', m);
      } else {
        TurnedStale(f, g, t, q, m);
        PaintStaleBeside(f, g, t', m, BLACK);
      }
    } else {
      PlugStaleFrom(f, g, t.Paint(BLACK), p, m);
    }
  }

  lemma PaintStaleBeside(f: Recompute, g: Augs, t: Tree, n: RbNode, c: Color)
    requires StaleBeside(f, g, t, n)
    ensures StaleBeside(f, g, t.Paint(c), n)
  {
  }

  lemma PlugStaleFrom(f: Recompute, g: Augs, t: Tree, p: Path, m: RbNode)
    requires StaleFrom(f, g, t, p, m)
    ensures StaleBeside(f, g, Plug(t, p), m)
  {
    FreshPathBelow(f, g, p);
    if StaleAbove(f, g, t, m) {
      StaleAboveBeside(f, g, t, m);
      PlugStaleBeside(f, g, t, p, m);
    } else {
      var u := Mk(p.side, p.color, t, p.node, p.sibling);
      StaleFromUp(f, g, p.side, p.color, t, p.node, p.sibling, m);
      StaleAboveBeside(f, g, u, m);
      PlugStaleBeside(f, g, u, p.up, m);
    }
  }

  lemma {:induction false} LeastFresh(f: Recompute, g: Augs, t: Tree, p: Path)
    requires t.Fork? && Fresh(f, g, t) && FreshPath(f, g, p)
    ensures Fresh(f, g, E.Least(t).right) && FreshPath(f, g, E.LeastPath(t, p)) && E.Least(t).node in g
  {
    if t.left.Leaf? {
    } else {
      LeastFresh(f, g, t.left, In(LeftSide, t.color, t.node, t.right, p));
    }
  }

  /** After a node has been taken out of a fresh tree and the tree rebalanced, only the deepest node above
      the gap, the nodes above that and the siblings of those can be stale. */
  lemma EraseStale(f: Recompute, g: Augs, t: Tree, p: Path)
    requires t.Fork? && Fresh(f, g, Plug(t, p))
    ensures var m := Deepest(E.GapTree(t), E.GapPath(t, p));
            if m == null then E.Erase(t, p) == Leaf else StaleBeside(f, g, E.Erase(t, p), m)
  {
    UnplugFresh(f, g, t, p);
    if t.left.Fork? && t.right.Fork? {
      LeastFresh(f, g, t.right, Top);
      LeastFresh(f, g, t.right, In(RightSide, t.color, E.Least(t.right).node, t.left, p));
    }
    var u, q := E.GapTree(t), E.GapPath(t, p);
    assert Fresh(f, g, u) && FreshPath(f, g, q);
    var m := Deepest(u, q);
    if m != null {
      assert u.Fork? ==> Fresh(f, g, u.left) && Fresh(f, g, u.right);
      EraseFixStale(f, g, u, q, m);
      PlugStaleFrom(f, g, u, q, m);
    }
  }

  // ---------------------------------------------------------------------------------------------
  // The walk
  // ---------------------------------------------------------------------------------------------

  /** A position from which a walk to the root repairs everything. */
  ghost predicate Walkable(f: Recompute, g: Augs, t: Tree, p: Path) {
    t.Fork? && FreshBelow(f, g, t) && FreshBelowPath(f, g, p)
  }

  lemma {:induction false} LocateBeside(f: Recompute, g: Augs, t: Tree, p: Path, n: RbNode) returns (t': Tree, p': Path)
    requires StaleBeside(f, g, t, n) && FreshBelowPath(f, g, p)
    ensures Plug(t', p') == Plug(t, p) && Walkable(f, g, t', p') && t'.node == n
  {
    if t.node == n && Fresh(f, g, t.left) && Fresh(f, g, t.right) {
      t', p' := t, p;
    } else if StaleBeside(f, g, t.left, n) && FreshBelow(f, g, t.right) {
      t', p' := LocateBeside(f, g, t.left, In(LeftSide, t.color, t.node, t.right, p), n);
    } else {
      t', p' := LocateBeside(f, g, t.right, In(RightSide, t.color, t.node, t.left, p), n);
    }
  }

  lemma {:induction false} LocateAround(f: Recompute, g: Augs, t: Tree, p: Path, n: RbNode) returns (t': Tree, p': Path)
    requires StaleAround(f, g, t, n) && FreshBelowPath(f, g, p)
    ensures Plug(t', p') == Plug(t, p) && t'.Fork? && t'.node == n && n in g
    ensures FreshBelow(f, g, t'.left) && FreshBelow(f, g, t'.right) && FreshBelowPath(f, g, p')
  {
    if t.node == n && FreshBelow(f, g, t.left) && FreshBelow(f, g, t.right) {
      t', p' := t, p;
    } else if StaleAround(f, g, t.left, n) && FreshBelow(f, g, t.right) {
      t', p' := LocateAround(f, g, t.left, In(LeftSide, t.color, t.node, t.right, p), n);
    } else {
      t', p' := LocateAround(f, g, t.right, In(RightSide, t.color, t.node, t.left, p), n);
    }
  }

  ghost predicate SameAugs(g: Augs, g': Augs, ns: set<RbNode>) {
    forall n :: n in ns && n in g ==> n in g' && g'[n] == g[n]
  }

  lemma {:induction false} FreshFrame(f: Recompute, g: Augs, g': Augs, t: Tree)
    requires Fresh(f, g, t) && SameAugs(g, g', Nodes(t))
    ensures Fresh(f, g', t)
  {
    if t.Leaf? {
    } else {
      FreshFrame(f, g, g', t.left);
      FreshFrame(f, g, g', t.right);
      FreshRoot(f, g, t.left);
      FreshRoot(f, g, t.right);
    }
  }

  lemma FreshRoot(f: Recompute, g: Augs, t: Tree)
    requires Fresh(f, g, t)
    ensures t.Fork? ==> t.node in g && t.node in Nodes(t)
  {
  }

  lemma {:induction false} FreshBelowPathFrame(f: Recompute, g: Augs, g': Augs, p: Path)
    requires FreshBelowPath(f, g, p) && SameAugs(g, g', PathNodes(p))
    ensures FreshBelowPath(f, g', p)
  {
    if p.Top? {
    } else {
      FreshBelowFrame(f, g, g', p.sibling);
      FreshBelowPathFrame(f, g, g', p.up);
    }
  }

  lemma FreshBelowFrame(f: Recompute, g: Augs, g': Augs, t: Tree)
    requires FreshBelow(f, g, t) && SameAugs(g, g', Nodes(t))
    ensures FreshBelow(f, g', t)
  {
    if t.Fork? {
      FreshFrame(f, g, g', t.left);
      FreshFrame(f, g, g', t.right);
    }
  }

  /** The values after the client has recomputed the one of the top node of `t`. */
  ghost function Recomputed(f: Recompute, g: Augs, t: Tree): Augs
    requires t.Fork?
  {
    g[t.node := f(t.node, At(g, t.left.Root()), At(g, t.right.Root()))]
  }

  /** Recomputing a node whose children are fresh makes it fresh. */
  lemma RecomputeFresh(f: Recompute, g: Augs, t: Tree)
    requires t.Fork? && FreshBelow(f, g, t) && Distinct(t)
    ensures Fresh(f, Recomputed(f, g, t), t)
  {
    var g' := Recomputed(f, g, t);
    FreshFrame(f, g, g', t.left);
    FreshFrame(f, g, g', t.right);
    FreshRoot(f, g, t.left);
    FreshRoot(f, g, t.right);
  }

  /** Recomputing a fresh node changes nothing. */
  lemma RecomputeIdle(f: Recompute, g: Augs, t: Tree)
    requires t.Fork? && Fresh(f, g, t)
    ensures Recomputed(f, g, t) == g
  {
  }

  /** One round of the walk: the node, then its sibling if it has one, and the parent comes next. */
  lemma WalkUp(f: Recompute, g: Augs, t: Tree, p: Path)
    requires Walkable(f, g, t, p) && p.In?
    requires Distinct(t) && DistinctPath(p) && Nodes(t) !! PathNodes(p)
    ensures var g1 := Recomputed(f, g, t);
            var g2 := if p.sibling.Fork? then Recomputed(f, g1, p.sibling) else g1;
            Walkable(f, g2, Mk(p.side, p.color, t, p.node, p.sibling), p.up) && Fresh(f, g1, t)
  {
    var g1 := Recomputed(f, g, t);
    RecomputeFresh(f, g, t);
    FreshBelowPathFrame(f, g, g1, p);
    if p.sibling.Fork? {
      var g2 := Recomputed(f, g1, p.sibling);
      assert p.sibling.node in Nodes(p.sibling);
      RecomputeFresh(f, g1, p.sibling);
      FreshFrame(f, g1, g2, t);
      FreshBelowPathFrame(f, g1, g2, p.up);
    }
  }

  lemma {:induction false} StaleBesideFrame(f: Recompute, g: Augs, g': Augs, t: Tree, n: RbNode?)
    requires n != null ==> StaleBeside(f, g, t, n)
    requires SameAugs(g, g', Nodes(t))
    ensures n != null ==> StaleBeside(f, g', t, n)
  {
    if n != null {
      if StaleBeside(f, g, t.left, n) {
        StaleBesideFrame(f, g, g', t.left, n);
      }
      if StaleBeside(f, g, t.right, n) {
        StaleBesideFrame(f, g, g', t.right, n);
      }
      if t.node == n && Fresh(f, g, t.left) && Fresh(f, g, t.right) {
        FreshFrame(f, g, g', t.left);
        FreshFrame(f, g, g', t.right);
      }
      if FreshBelow(f, g, t.left) {
        FreshBelowFrame(f, g, g', t.left);
      }
      if FreshBelow(f, g, t.right) {
        FreshBelowFrame(f, g, g', t.right);
      }
    }
  }
}
