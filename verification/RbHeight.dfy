/** How tall a red-black tree can be. */
module RbHeight {
  import opened RbTree

  function Height(t: Tree): nat {
    match t
    case Leaf => 0
    case Fork(_, l, _, r) => 1 + if Height(l) < Height(r) then Height(r) else Height(l)
  }

  function Pow2(n: nat): nat {
    if n == 0 then 1 else 2 * Pow2(n - 1)
  }

  lemma {:induction false} BlackHeightSize(t: Tree, k: nat)
    requires Balanced(t, k)
    ensures Pow2(k) <= |Inorder(t)| + 1
  {
    if t.Leaf? {
    } else {
      var h := if t.color == RED then k else k - 1;
      BlackHeightSize(t.left, h);
      BlackHeightSize(t.right, h);
    }
  }

  lemma {:induction false} BlackHeightHeight(t: Tree, k: nat)
    requires Balanced(t, k)
    ensures Height(t) <= 2 * k + if t.Red() then 1 else 0
  {
    if t.Leaf? {
    } else {
      var h := if t.color == RED then k else k - 1;
      BlackHeightHeight(t.left, h);
      BlackHeightHeight(t.right, h);
    }
  }

  lemma {:induction false} Pow2Monotone(a: nat, b: nat)
    requires a <= b
    ensures Pow2(a) <= Pow2(b)
  {
    if a < b {
      Pow2Monotone(a, b - 1);
    }
  }

  lemma {:induction false} Pow2Double(k: nat)
    ensures Pow2(2 * k) == Pow2(k) * Pow2(k)
  {
    if k == 0 {
    } else {
      Pow2Double(k - 1);
      var x := Pow2(k - 1);
      assert Pow2(2 * k) == 2 * (2 * Pow2(2 * (k - 1)));
      assert Pow2(k) * Pow2(k) == 4 * (x * x);
    }
  }

  lemma SquareMonotone(a: nat, b: nat)
    requires a <= b
    ensures a * a <= b * b
  {
    assert a * a <= a * b <= b * b;
  }

  function Square(n: nat): nat {
    n * n
  }

  /** A red-black tree of n nodes has height at most 2 * log2(n + 1). */
  lemma RedBlackHeight(t: Tree)
    requires RedBlack(t)
    ensures Pow2(Height(t)) <= Square(|Inorder(t)| + 1)
  {
    var k: nat :| Balanced(t, k);
    BlackHeightSize(t, k);
    BlackHeightHeight(t, k);
    Pow2Monotone(Height(t), 2 * k);
    Pow2Double(k);
    SquareMonotone(Pow2(k), |Inorder(t)| + 1);
  }
}
