/**
 * The balancing engine of AVL.java: the balance factor, the four rotations and
 * checkBalance, which picks one of them.
 */
module AvlBalance {
  import opened SearchTree

  /**
   * balanceFactor: right height minus left height. The code reads the node's own height when
   * a child is absent, so it agrees with the definition once that height is current.
   */
  function BalanceFactor(n: Tree): (bf: int)
    ensures n.Nil? ==> bf == 0
    ensures n.Node? && n.height == 1 + Max(H(n.left), H(n.right)) ==> bf == H(n.right) - H(n.left)
  {
    if n.Nil? then 0
    else if n.right.Nil? then n.height * -1 + 1
    else if n.left.Nil? then n.height - 1
    else n.right.height - n.left.height
  }

  /** Every node's children differ in cached height by at most one. */
  ghost predicate AvlBalanced(t: Tree)
  {
    match t
    case Nil => true
    case Node(_, l, r, _, _, _) => -1 <= H(r) - H(l) <= 1 && AvlBalanced(l) && AvlBalanced(r)
  }

  /** Heights are current and every node is balanced. */
  ghost predicate IsAvl(t: Tree)
  {
    HeightsOk(t) && AvlBalanced(t)
  }

  /** balanceLL: the left child B becomes the root, A keeps B's old right subtree as its left. */
  function RotateLL(a: Tree): (b: Tree)
    requires a.Node? && a.left.Node?
    ensures b.Node? && b.data == a.left.data && b.right.Node? && b.right.data == a.data
    ensures InOrder(b) == InOrder(a) && Elements(b) == Elements(a) && Size(b) == Size(a)
    ensures b.leftSize == a.left.leftSize && b.rightSize == a.left.rightSize
    ensures b.right.leftSize == a.leftSize && b.right.rightSize == a.rightSize
    ensures HeightsOk(a.left.left) && HeightsOk(a.left.right) && HeightsOk(a.right) ==> HeightsOk(b)
  {
    var pivot := a.left;
    var a' := UpdateHeight(a.(left := pivot.right));
    UpdateHeight(pivot.(right := a'))
  }

  /** balanceRR: the mirror image of balanceLL. */
  function RotateRR(a: Tree): (b: Tree)
    requires a.Node? && a.right.Node?
    ensures b.Node? && b.data == a.right.data && b.left.Node? && b.left.data == a.data
    ensures InOrder(b) == InOrder(a) && Elements(b) == Elements(a) && Size(b) == Size(a)
    ensures b.leftSize == a.right.leftSize && b.rightSize == a.right.rightSize
    ensures b.left.leftSize == a.leftSize && b.left.rightSize == a.rightSize
    ensures HeightsOk(a.right.left) && HeightsOk(a.right.right) && HeightsOk(a.left) ==> HeightsOk(b)
  {
    var pivot := a.right;
    var a' := UpdateHeight(a.(right := pivot.left));
    UpdateHeight(pivot.(left := a'))
  }

  /** balanceLR: the left child's right child C becomes the root, with B on its left and A on its right. */
  function RotateLR(a: Tree): (c: Tree)
    requires a.Node? && a.left.Node? && a.left.right.Node?
    ensures c.Node? && c.data == a.left.right.data
    ensures c.left.Node? && c.left.data == a.left.data && c.right.Node? && c.right.data == a.data
    ensures InOrder(c) == InOrder(a) && Elements(c) == Elements(a) && Size(c) == Size(a)
    ensures c.leftSize == a.left.right.leftSize && c.rightSize == a.left.right.rightSize
    ensures c.left.leftSize == a.left.leftSize && c.left.rightSize == a.left.rightSize
    ensures c.right.leftSize == a.leftSize && c.right.rightSize == a.rightSize
    ensures (HeightsOk(a.left.left) && HeightsOk(a.left.right.left) && HeightsOk(a.left.right.right)
             && HeightsOk(a.right)) ==> HeightsOk(c)
  {
    var b := a.left;
    var pivot := b.right;
    var a' := UpdateHeight(a.(left := pivot.right));
    var b' := UpdateHeight(b.(right := pivot.left));
    assert InOrder(a') == InOrder(pivot.right) + [a.data] + InOrder(a.right);
    assert InOrder(b') == InOrder(b.left) + [b.data] + InOrder(pivot.left);
    assert Elements(a') == Elements(pivot.right) + {a.data} + Elements(a.right);
    assert Elements(b') == Elements(b.left) + {b.data} + Elements(pivot.left);
    assert Size(a') == Size(pivot.right) + 1 + Size(a.right);
    assert Size(b') == Size(b.left) + 1 + Size(pivot.left);
    var c := UpdateHeight(pivot.(left := b', right := a'));
    assert InOrder(c) == InOrder(b') + [pivot.data] + InOrder(a');
    assert InOrder(b) == InOrder(b.left) + [b.data] + (InOrder(pivot.left) + [pivot.data] + InOrder(pivot.right));
    assert Elements(c) == Elements(b') + {pivot.data} + Elements(a');
    assert Elements(b) == Elements(b.left) + {b.data} + (Elements(pivot.left) + {pivot.data} + Elements(pivot.right));
    assert Size(c) == Size(b') + 1 + Size(a');
    assert Size(b) == Size(b.left) + 1 + (Size(pivot.left) + 1 + Size(pivot.right));
    c
  }

  /** balanceRL: the mirror image of balanceLR. */
  function RotateRL(a: Tree): (c: Tree)
    requires a.Node? && a.right.Node? && a.right.left.Node?
    ensures c.Node? && c.data == a.right.left.data
    ensures c.right.Node? && c.right.data == a.right.data && c.left.Node? && c.left.data == a.data
    ensures InOrder(c) == InOrder(a) && Elements(c) == Elements(a) && Size(c) == Size(a)
    ensures c.leftSize == a.right.left.leftSize && c.rightSize == a.right.left.rightSize
    ensures c.right.leftSize == a.right.leftSize && c.right.rightSize == a.right.rightSize
    ensures c.left.leftSize == a.leftSize && c.left.rightSize == a.rightSize
    ensures (HeightsOk(a.right.right) && HeightsOk(a.right.left.left) && HeightsOk(a.right.left.right)
             && HeightsOk(a.left)) ==> HeightsOk(c)
  {
    var b := a.right;
    var pivot := b.left;
    var a' := UpdateHeight(a.(right := pivot.left));
    var b' := UpdateHeight(b.(left := pivot.right));
    assert InOrder(a') == InOrder(a.left) + [a.data] + InOrder(pivot.left);
    assert InOrder(b') == InOrder(pivot.right) + [b.data] + InOrder(b.right);
    assert Elements(a') == Elements(a.left) + {a.data} + Elements(pivot.left);
    assert Elements(b') == Elements(pivot.right) + {b.data} + Elements(b.right);
    assert Size(a') == Size(a.left) + 1 + Size(pivot.left);
    assert Size(b') == Size(pivot.right) + 1 + Size(b.right);
    var c := UpdateHeight(pivot.(right := b', left := a'));
    assert InOrder(c) == InOrder(a') + [pivot.data] + InOrder(b');
    assert InOrder(b) == (InOrder(pivot.left) + [pivot.data] + InOrder(pivot.right)) + [b.data] + InOrder(b.right);
    assert Elements(c) == Elements(a') + {pivot.data} + Elements(b');
    assert Elements(b) == (Elements(pivot.left) + {pivot.data} + Elements(pivot.right)) + {b.data} + Elements(b.right);
    assert Size(c) == Size(a') + 1 + Size(b');
    assert Size(b) == (Size(pivot.left) + 1 + Size(pivot.right)) + 1 + Size(b.right);
    c
  }

  /**
   * checkBalance: a right-heavy node (factor > 1) gets RL when its right child leans left
   * (factor < 0) and RR otherwise; a left-heavy node (factor < -1) gets LR when its left child
   * leans right (factor > 0) and LL otherwise; any other node is returned as it is.
   */
  function CheckBalance(n: Tree): (r: Tree)
    requires HeightsOk(n)
    ensures InOrder(r) == InOrder(n) && Elements(r) == Elements(n) && Size(r) == Size(n)
    ensures HeightsOk(r)
    ensures -1 <= BalanceFactor(n) <= 1 ==> r == n
  {
    var balance := BalanceFactor(n);
    if balance > 1 then
      assert HeightsOk(n.right) && HeightsOk(n.left);
      if BalanceFactor(n.right) < 0 then
        assert HeightsOk(n.right.left) && HeightsOk(n.right.right);
        RotateRL(n)
      else RotateRR(n)
    else if balance < -1 then
      assert HeightsOk(n.left) && HeightsOk(n.right);
      if BalanceFactor(n.left) > 0 then
        assert HeightsOk(n.left.left) && HeightsOk(n.left.right);
        RotateLR(n)
      else RotateLL(n)
    else n
  }

  /** Rotations keep the search-tree order, since they keep the in-order sequence. */
  lemma CheckBalanceKeepsOrder(n: Tree)
    requires HeightsOk(n) && IsBst(n)
    ensures IsBst(CheckBalance(n))
  {
    BstIffIncreasing(n);
    BstIffIncreasing(CheckBalance(n));
  }

  /** A right-heavy node whose right child does not lean left is fixed by the single rotation. */
  lemma RebalanceRR(n: Tree)
    requires n.Node? && HeightsOk(n) && AvlBalanced(n.left) && AvlBalanced(n.right)
    requires H(n.right) - H(n.left) == 2 && H(n.right.right) - H(n.right.left) >= 0
    ensures IsAvl(RotateRR(n)) && H(n) - 1 <= H(RotateRR(n)) <= H(n)
  {
    var l, r := n.left, n.right;
    assert HeightsOk(r) && AvlBalanced(r);
    var a' := UpdateHeight(n.(right := r.left));
    assert H(a') == 1 + Max(H(l), H(r.left));
    assert AvlBalanced(a');
    assert RotateRR(n) == UpdateHeight(r.(left := a'));
  }

  /** A right-heavy node whose right child leans left is fixed by the double rotation. */
  lemma RebalanceRL(n: Tree)
    requires n.Node? && HeightsOk(n) && AvlBalanced(n.left) && AvlBalanced(n.right)
    requires H(n.right) - H(n.left) == 2 && H(n.right.right) - H(n.right.left) < 0
    ensures n.right.left.Node?
    ensures IsAvl(RotateRL(n)) && H(n) - 1 <= H(RotateRL(n)) <= H(n)
  {
    var l, r := n.left, n.right;
    assert HeightsOk(r) && AvlBalanced(r);
    var c := r.left;
    assert HeightsOk(c) && AvlBalanced(c);
    var a' := UpdateHeight(n.(right := c.left));
    var b' := UpdateHeight(r.(left := c.right));
    assert H(a') == H(l) + 1 && H(b') == H(l) + 1;
    assert AvlBalanced(a') && AvlBalanced(b');
    assert RotateRL(n) == UpdateHeight(c.(right := b', left := a'));
  }

  /** A left-heavy node whose left child does not lean right is fixed by the single rotation. */
  lemma RebalanceLL(n: Tree)
    requires n.Node? && HeightsOk(n) && AvlBalanced(n.left) && AvlBalanced(n.right)
    requires H(n.right) - H(n.left) == -2 && H(n.left.right) - H(n.left.left) <= 0
    ensures IsAvl(RotateLL(n)) && H(n) - 1 <= H(RotateLL(n)) <= H(n)
  {
    var l, r := n.left, n.right;
    assert HeightsOk(l) && AvlBalanced(l);
    var a' := UpdateHeight(n.(left := l.right));
    assert H(a') == 1 + Max(H(l.right), H(r));
    assert AvlBalanced(a');
    assert RotateLL(n) == UpdateHeight(l.(right := a'));
  }

  /** A left-heavy node whose left child leans right is fixed by the double rotation. */
  lemma RebalanceLR(n: Tree)
    requires n.Node? && HeightsOk(n) && AvlBalanced(n.left) && AvlBalanced(n.right)
    requires H(n.right) - H(n.left) == -2 && H(n.left.right) - H(n.left.left) > 0
    ensures n.left.right.Node?
    ensures IsAvl(RotateLR(n)) && H(n) - 1 <= H(RotateLR(n)) <= H(n)
  {
    var l, r := n.left, n.right;
    assert HeightsOk(l) && AvlBalanced(l);
    var c := l.right;
    assert HeightsOk(c) && AvlBalanced(c);
    var a' := UpdateHeight(n.(left := c.right));
    var b' := UpdateHeight(l.(right := c.left));
    assert H(a') == H(r) + 1 && H(b') == H(r) + 1;
    assert AvlBalanced(a') && AvlBalanced(b');
    assert RotateLR(n) == UpdateHeight(c.(left := b', right := a'));
  }

  /**
   * One rebalancing step restores balance: a node whose height is current, whose subtrees are
   * AVL trees and whose factor lies in [-2, 2] becomes an AVL tree at most one level lower.
   */
  lemma Rebalance(n: Tree)
    requires n.Node? && HeightsOk(n) && AvlBalanced(n.left) && AvlBalanced(n.right)
    requires -2 <= H(n.right) - H(n.left) <= 2
    ensures IsAvl(CheckBalance(n))
    ensures H(n) - 1 <= H(CheckBalance(n)) <= H(n)
  {
    var l, r := n.left, n.right;
    assert HeightsOk(l) && HeightsOk(r);
    if H(r) - H(l) == 2 {
      if H(r.right) - H(r.left) < 0 {
        RebalanceRL(n);
      } else {
        RebalanceRR(n);
      }
    } else if H(r) - H(l) == -2 {
      if H(l.right) - H(l.left) > 0 {
        RebalanceLR(n);
      } else {
        RebalanceLL(n);
      }
    }
  }
}
