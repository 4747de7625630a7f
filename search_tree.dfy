/**
 * The node structure shared by AVL.java and BST.java and the facts about it that both
 * trees rely on: the in-order sequence, the search-tree order, cached heights and the
 * subtree counters behind rank access.
 */
module SearchTree {

  /**
   * A node of either tree (AVL.java:64-79, BST.java:65-80); Nil stands for a null link.
   * Every node is owned by exactly one parent, so a node is modelled as a value and an
   * in-place update of its fields as the construction of the updated value.
   * `height` is one-based (a leaf has height 1); `leftSize` and `rightSize` are meant to
   * count the nodes of the left and right subtree. A Java height is never negative, hence `nat`.
   */
  datatype Tree =
    | Nil
    | Node(data: int, left: Tree, right: Tree, height: nat, leftSize: int, rightSize: int)

  /**
   * A freshly allocated node: height 1, both counters 0. It is a one-element search tree
   * whose cached height and counters are already exact.
   */
  function Leaf(e: int): (r: Tree)
    ensures Elements(r) == {e} && InOrder(r) == [e] && H(r) == 1
    ensures IsBst(r) && HeightsOk(r) && CountsOk(r)
  {
    Node(e, Nil, Nil, 1, 0, 0)
  }

  function Max(a: int, b: int): int
  {
    if a < b then b else a
  }

  /** The cached height of a subtree, an absent subtree counting as 0. */
  function H(t: Tree): nat
  {
    if t.Nil? then 0 else t.height
  }

  /** The number of nodes. */
  function Size(t: Tree): nat
  {
    match t
    case Nil => 0
    case Node(_, l, r, _, _, _) => Size(l) + 1 + Size(r)
  }

  function Elements(t: Tree): set<int>
  {
    match t
    case Nil => {}
    case Node(d, l, r, _, _, _) => Elements(l) + {d} + Elements(r)
  }

  function InOrder(t: Tree): seq<int>
  {
    match t
    case Nil => []
    case Node(d, l, r, _, _, _) => InOrder(l) + [d] + InOrder(r)
  }

  function PreOrder(t: Tree): seq<int>
  {
    match t
    case Nil => []
    case Node(d, l, r, _, _, _) => [d] + PreOrder(l) + PreOrder(r)
  }

  function PostOrder(t: Tree): seq<int>
  {
    match t
    case Nil => []
    case Node(d, l, r, _, _, _) => PostOrder(l) + PostOrder(r) + [d]
  }

  /** Search-tree order: every element of the left subtree is smaller, every one of the right larger. */
  ghost predicate IsBst(t: Tree)
  {
    match t
    case Nil => true
    case Node(d, l, r, _, _, _) =>
      && (forall x | x in Elements(l) :: x < d)
      && (forall x | x in Elements(r) :: d < x)
      && IsBst(l) && IsBst(r)
  }

  /** Every cached height is one more than the larger cached height of the children. */
  ghost predicate HeightsOk(t: Tree)
  {
    match t
    case Nil => true
    case Node(_, l, r, h, _, _) => h == 1 + Max(H(l), H(r)) && HeightsOk(l) && HeightsOk(r)
  }

  /** Every node's counters equal the true sizes of its subtrees. */
  ghost predicate CountsOk(t: Tree)
  {
    match t
    case Nil => true
    case Node(_, l, r, _, ls, rs) => ls == Size(l) && rs == Size(r) && CountsOk(l) && CountsOk(r)
  }

  ghost predicate Increasing(s: seq<int>)
  {
    forall i, j | 0 <= i < j < |s| :: s[i] < s[j]
  }

  /**
   * updateHeight: a null node is left alone; otherwise only the height changes, to one more
   * than the larger child height with an absent child counting as 0 (so a leaf gets 1).
   */
  function UpdateHeight(n: Tree): (r: Tree)
    ensures n.Nil? ==> r == Nil
    ensures n.Node? ==> r == n.(height := 1 + Max(H(n.left), H(n.right)))
    ensures n.Node? && HeightsOk(n.left) && HeightsOk(n.right) ==> HeightsOk(r)
    ensures HeightsOk(n) ==> r == n
  {
    if n.Nil? then n
    else if n.left.Nil? && n.right.Nil? then n.(height := 1)
    else if n.left.Nil? then n.(height := n.right.height + 1)
    else if n.right.Nil? then n.(height := n.left.height + 1)
    else if n.right.height > n.left.height then n.(height := n.right.height + 1)
    else n.(height := n.left.height + 1)
  }

  lemma {:induction false} InOrderSize(t: Tree)
    ensures |InOrder(t)| == Size(t)
  {
    if t.Node? {
      InOrderSize(t.left);
      InOrderSize(t.right);
    }
  }

  /** The in-order sequence lists exactly the elements of the tree. */
  lemma {:induction false} InOrderElements(t: Tree)
    ensures forall x :: x in InOrder(t) <==> x in Elements(t)
  {
    if t.Node? {
      InOrderElements(t.left);
      InOrderElements(t.right);
    }
  }

  /** All three traversal orders list the same nodes, only in a different order. */
  lemma {:induction false} TraversalsAgree(t: Tree)
    ensures multiset(PreOrder(t)) == multiset(InOrder(t)) == multiset(PostOrder(t))
  {
    if t.Node? {
      TraversalsAgree(t.left);
      TraversalsAgree(t.right);
    }
  }

  lemma IncreasingSplit(a: seq<int>, d: int, b: seq<int>)
    ensures Increasing(a + [d] + b) <==>
      Increasing(a) && Increasing(b) && (forall x | x in a :: x < d) && (forall x | x in b :: d < x)
  {
    var s := a + [d] + b;
    if Increasing(s) {
      forall i, j | 0 <= i < j < |a| ensures a[i] < a[j] { assert a[i] == s[i] && a[j] == s[j]; }
      forall i, j | 0 <= i < j < |b| ensures b[i] < b[j] {
        assert b[i] == s[|a| + 1 + i] && b[j] == s[|a| + 1 + j];
      }
      forall x | x in a ensures x < d {
        var i :| 0 <= i < |a| && a[i] == x;
        assert s[i] == x && s[|a|] == d;
      }
      forall x | x in b ensures d < x {
        var i :| 0 <= i < |b| && b[i] == x;
        assert s[|a| + 1 + i] == x && s[|a|] == d;
      }
    }
    if Increasing(a) && Increasing(b) && (forall x | x in a :: x < d) && (forall x | x in b :: d < x) {
      forall i, j | 0 <= i < j < |s| ensures s[i] < s[j] {
        if j < |a| {
          assert s[i] == a[i] && s[j] == a[j];
        } else if j == |a| {
          assert s[i] == a[i] && a[i] in a;
        } else if i > |a| {
          assert s[i] == b[i - |a| - 1] && s[j] == b[j - |a| - 1];
        } else if i == |a| {
          assert s[j] == b[j - |a| - 1] && b[j - |a| - 1] in b;
        } else {
          assert s[i] == a[i] && a[i] in a;
          assert s[j] == b[j - |a| - 1] && b[j - |a| - 1] in b;
        }
      }
    }
  }

  /** The search-tree order holds exactly when the in-order sequence is strictly increasing. */
  lemma {:induction false} BstIffIncreasing(t: Tree)
    ensures IsBst(t) <==> Increasing(InOrder(t))
  {
    if t.Node? {
      BstIffIncreasing(t.left);
      BstIffIncreasing(t.right);
      InOrderElements(t.left);
      InOrderElements(t.right);
      IncreasingSplit(InOrder(t.left), t.data, InOrder(t.right));
    }
  }

  /** Elements are distinct in a search tree, so it holds as many elements as nodes. */
  lemma {:induction false} BstCardinality(t: Tree)
    requires IsBst(t)
    ensures |Elements(t)| == Size(t)
  {
    if t.Node? {
      BstCardinality(t.left);
      BstCardinality(t.right);
      var l, r := Elements(t.left), Elements(t.right);
      assert l * r == {} by {
        forall x | x in l && x in r ensures false { }
      }
      assert |l + r| == |l| + |r|;
      assert t.data !in l + r;
      assert Elements(t) == (l + r) + {t.data};
    }
  }

  /** Java's int division truncates towards zero; Dafny's rounds down. */
  function TruncDiv2(a: int): (q: int)
    ensures -1 <= a - 2 * q <= 1
    ensures a >= 0 ==> a - 2 * q >= 0
    ensures a < 0 ==> a - 2 * q <= 0
  {
    if a >= 0 then a / 2 else -((-a) / 2)
  }

  /** The elements of arr[low..high] are those left of mid, arr[mid], and those right of it. */
  lemma SliceSplit(arr: seq<int>, low: int, mid: int, high: int)
    requires 0 <= low <= mid <= high < |arr|
    ensures (set i | low <= i <= high :: arr[i])
      == (set i | low <= i <= mid - 1 :: arr[i]) + {arr[mid]} + (set i | mid + 1 <= i <= high :: arr[i])
  {
  }
}
