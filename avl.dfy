/**
 * AVL.java: insertion and deletion with bottom-up rebalancing, and the tree object that holds
 * the root and the element count.
 */
module Avl {
  import opened Wrappers
  import opened SearchTree
  import opened TreeQueries
  import opened AvlBalance

  /**
   * The pair of steps the code runs on every node it passes on the way back up: updateHeight,
   * then checkBalance.
   */
  function Retrace(n: Tree): (r: Tree)
    requires n.Node? ==> HeightsOk(n.left) && HeightsOk(n.right)
    ensures HeightsOk(r)
    ensures InOrder(r) == InOrder(n) && Elements(r) == Elements(n) && Size(r) == Size(n)
  {
    CheckBalance(UpdateHeight(n))
  }

  /**
   * Retracing a node one of whose AVL subtrees grew by at most one (from heights hl, hr that
   * differed by at most one) gives an AVL tree whose height grew by at most one.
   */
  lemma AfterGrow(n: Tree, hl: nat, hr: nat)
    requires n.Node? && IsAvl(n.left) && IsAvl(n.right)
    requires -1 <= hr - hl <= 1
    requires hl <= H(n.left) <= hl + 1 && hr <= H(n.right) <= hr + 1
    requires H(n.left) == hl || H(n.right) == hr
    ensures IsAvl(Retrace(n))
    ensures 1 + Max(hl, hr) <= H(Retrace(n)) <= 2 + Max(hl, hr)
  {
    var u := UpdateHeight(n);
    Rebalance(u);
    if -1 <= H(n.right) - H(n.left) <= 1 {
      assert CheckBalance(u) == u;
    }
  }

  /**
   * Retracing a node one of whose AVL subtrees shrank by at most one gives an AVL tree whose
   * height shrank by at most one.
   */
  lemma AfterShrink(n: Tree, hl: nat, hr: nat)
    requires n.Node? && IsAvl(n.left) && IsAvl(n.right)
    requires -1 <= hr - hl <= 1
    requires hl - 1 <= H(n.left) <= hl && hr - 1 <= H(n.right) <= hr
    requires H(n.left) == hl || H(n.right) == hr
    ensures IsAvl(Retrace(n))
    ensures Max(hl, hr) <= H(Retrace(n)) <= 1 + Max(hl, hr)
  {
    var u := UpdateHeight(n);
    Rebalance(u);
    if -1 <= H(n.right) - H(n.left) <= 1 {
      assert CheckBalance(u) == u;
    }
  }

  /** An AVL tree is left alone by retracing. */
  lemma RetraceAvl(t: Tree)
    requires IsAvl(t)
    ensures Retrace(t) == t
  {
    if t.Node? {
      assert HeightsOk(t);
      assert CheckBalance(t) == t;
    }
  }

  /**
   * add(item, root): descend to an empty link and hang a new node there; on the way back up
   * bump the counter of the side descended into, recompute the height and rebalance. An equal
   * element stops the descent. The flag says whether a node was created (the code's size++).
   */
  function Insert(item: int, t: Tree): (r: (Tree, bool))
    requires HeightsOk(t)
    ensures HeightsOk(r.0)
    ensures Elements(r.0) == Elements(t) + {item}
    ensures Size(r.0) == Size(t) + (if r.1 then 1 else 0)
    decreases t
  {
    if t.Nil? then (Leaf(item), true)
    else if t.data == item then (t, false)
    else if t.data < item then
      var sub := Insert(item, t.right);
      (Retrace(t.(right := sub.0, rightSize := t.rightSize + 1)), sub.1)
    else
      var sub := Insert(item, t.left);
      (Retrace(t.(left := sub.0, leftSize := t.leftSize + 1)), sub.1)
  }

  /**
   * What insertion promises on an AVL search tree t: a node is created exactly when the
   * element was absent, the result is again an AVL search tree, and the height grows by at
   * most one.
   */
  ghost predicate InsertedInto(t: Tree, item: int, r: (Tree, bool))
  {
    && r.1 == (item !in Elements(t))
    && IsBst(r.0) && IsAvl(r.0)
    && H(t) <= H(r.0) <= H(t) + 1
  }

  lemma {:induction false} InsertCorrect(item: int, t: Tree)
    requires IsBst(t) && IsAvl(t)
    ensures InsertedInto(t, item, Insert(item, t))
    decreases t, 1
  {
    if t.Node? && t.data < item {
      InsertRight(item, t);
    } else if t.Node? && t.data > item {
      InsertLeft(item, t);
    }
  }

  lemma {:induction false} InsertRight(item: int, t: Tree)
    requires IsBst(t) && IsAvl(t) && t.Node? && t.data < item
    ensures InsertedInto(t, item, Insert(item, t))
    decreases t, 0
  {
    assert HeightsOk(t) && AvlBalanced(t);
    InsertCorrect(item, t.right);
    var n := t.(right := Insert(item, t.right).0, rightSize := t.rightSize + 1);
    InsertRightStep(item, t);
    AfterGrow(n, H(t.left), H(t.right));
    assert IsBst(UpdateHeight(n));
    CheckBalanceKeepsOrder(UpdateHeight(n));
  }

  lemma {:induction false} InsertLeft(item: int, t: Tree)
    requires IsBst(t) && IsAvl(t) && t.Node? && t.data > item
    ensures InsertedInto(t, item, Insert(item, t))
    decreases t, 0
  {
    assert HeightsOk(t) && AvlBalanced(t);
    InsertCorrect(item, t.left);
    var n := t.(left := Insert(item, t.left).0, leftSize := t.leftSize + 1);
    InsertLeftStep(item, t);
    AfterGrow(n, H(t.left), H(t.right));
    assert IsBst(UpdateHeight(n));
    CheckBalanceKeepsOrder(UpdateHeight(n));
  }

  /**
   * recRemove(target, node): the pair holds the new subtree root and the code's `found` flag.
   * After a recursive call the child is retraced, the counter of that side is decremented
   * when something was removed, and the node itself is retraced. At the target the left
   * counter is decremented before removeNode runs.
   */
  function RecRemove(target: int, node: Tree): (r: (Tree, bool))
    requires HeightsOk(node)
    ensures HeightsOk(r.0)
    ensures Elements(r.0) <= Elements(node)
    decreases Size(node), 1
  {
    if node.Nil? then (Nil, false)
    else if target < node.data then
      var (left, found) := RecRemove(target, node.left);
      var n := node.(left := Retrace(left), leftSize := if found then node.leftSize - 1 else node.leftSize);
      (Retrace(n), found)
    else if target > node.data then
      var (right, found) := RecRemove(target, node.right);
      var n := node.(right := Retrace(right), rightSize := if found then node.rightSize - 1 else node.rightSize);
      (Retrace(n), found)
    else
      (Retrace(RemoveNode(node.(leftSize := node.leftSize - 1))), true)
  }

  /**
   * removeNode: a node with an absent child is replaced by its other child; a node with two
   * children takes the greatest element of its left subtree (getPredecessor) and that element
   * is removed from the left subtree. The node's own height is left for the caller to fix.
   */
  function RemoveNode(node: Tree): (r: Tree)
    requires node.Node? && HeightsOk(node)
    ensures r.Node? ==> HeightsOk(r.left) && HeightsOk(r.right)
    ensures Elements(r) <= Elements(node)
    ensures node.left.Nil? ==> r == node.right
    ensures node.left.Node? && node.right.Nil? ==> r == node.left
    ensures node.left.Node? && node.right.Node? ==>
      r.Node? && r.data == MaxOf(node.left) && r.right == node.right
    decreases Size(node), 0
  {
    if node.left.Nil? then
      assert HeightsOk(node.right);
      node.right
    else if node.right.Nil? then
      assert HeightsOk(node.left);
      node.left
    else
      var data := MaxOf(node.left);
      node.(data := data, left := RecRemove(data, node.left).0)
  }

  /**
   * What removing target from an AVL search tree must give: the flag says whether target was
   * there, target is gone and nothing else is, the result is an AVL search tree, and the
   * height dropped by at most one.
   */
  ghost predicate RemovedFrom(node: Tree, target: int, r: (Tree, bool))
  {
    && r.1 == (target in Elements(node))
    && Elements(r.0) == Elements(node) - {target}
    && IsBst(r.0) && IsAvl(r.0)
    && H(node) - 1 <= H(r.0) <= H(node)
  }

  /**
   * Removal reports exactly whether the target was present, takes it out, keeps an AVL search
   * tree, and lowers the height by at most one.
   */
  lemma {:induction false} RecRemoveCorrect(target: int, node: Tree)
    requires IsBst(node) && IsAvl(node)
    ensures RemovedFrom(node, target, RecRemove(target, node))
    decreases Size(node), 2
  {
    if node.Nil? {
    } else if target < node.data {
      RecRemoveLeft(target, node);
    } else if target > node.data {
      RecRemoveRight(target, node);
    } else {
      var m := node.(leftSize := node.leftSize - 1);
      assert IsBst(m) && IsAvl(m) && Elements(m) == Elements(node) && H(m) == H(node);
      RemoveNodeCorrect(m);
      RecRemoveHere(target, node);
    }
  }

  /** At the target, recRemove retraces what removeNode leaves. */
  lemma RecRemoveHere(target: int, node: Tree)
    requires HeightsOk(node) && node.Node? && target == node.data
    ensures RecRemove(target, node) == (Retrace(RemoveNode(node.(leftSize := node.leftSize - 1))), true)
  {
  }

  /** One step of recRemove's descent to the left, unfolded. */
  lemma RecRemoveLeftStep(target: int, node: Tree)
    requires HeightsOk(node) && node.Node? && target < node.data
    ensures var (left, found) := RecRemove(target, node.left);
      RecRemove(target, node)
      == (Retrace(node.(left := Retrace(left), leftSize := if found then node.leftSize - 1 else node.leftSize)), found)
  {
  }

  /** One step of recRemove's descent to the right, unfolded. */
  lemma RecRemoveRightStep(target: int, node: Tree)
    requires HeightsOk(node) && node.Node? && target > node.data
    ensures var (right, found) := RecRemove(target, node.right);
      RecRemove(target, node)
      == (Retrace(node.(right := Retrace(right), rightSize := if found then node.rightSize - 1 else node.rightSize)), found)
  {
  }

  /** The descent to the left, whose result is retraced on the way back. */
  lemma {:induction false} RecRemoveLeft(target: int, node: Tree)
    requires IsBst(node) && IsAvl(node) && node.Node? && target < node.data
    ensures RemovedFrom(node, target, RecRemove(target, node))
    decreases Size(node), 1
  {
    assert HeightsOk(node);
    RecRemoveCorrect(target, node.left);
    RecRemoveLeftStep(target, node);
    var (left, found) := RecRemove(target, node.left);
    ShrinkLeft(node, target, left, found);
  }

  /** The descent to the right, the mirror image of RecRemoveLeft. */
  lemma {:induction false} RecRemoveRight(target: int, node: Tree)
    requires IsBst(node) && IsAvl(node) && node.Node? && target > node.data
    ensures RemovedFrom(node, target, RecRemove(target, node))
    decreases Size(node), 1
  {
    assert HeightsOk(node);
    RecRemoveCorrect(target, node.right);
    RecRemoveRightStep(target, node);
    var (right, found) := RecRemove(target, node.right);
    ShrinkRight(node, target, right, found);
  }

  /**
   * Hanging a correct removal result from the left subtree back under node, fixing the
   * counter and retracing twice as recRemove does, is a correct removal from node.
   */
  lemma ShrinkLeft(node: Tree, target: int, left: Tree, found: bool)
    requires IsBst(node) && IsAvl(node) && node.Node? && target < node.data
    requires RemovedFrom(node.left, target, (left, found))
    ensures RemovedFrom(node, target,
      (Retrace(node.(left := Retrace(left), leftSize := if found then node.leftSize - 1 else node.leftSize)), found))
  {
    assert HeightsOk(node) && AvlBalanced(node);
    RetraceAvl(left);
    var n := node.(left := left, leftSize := if found then node.leftSize - 1 else node.leftSize);
    assert target !in Elements(node.right);
    RemoveFromUnion(Elements(node.left), node.data, Elements(node.right), target);
    AfterShrink(n, H(node.left), H(node.right));
    assert IsBst(UpdateHeight(n));
    CheckBalanceKeepsOrder(UpdateHeight(n));
  }

  /** Removing x from a node's three parts, when only one side can hold it. */
  lemma RemoveFromUnion(l: set<int>, d: int, r: set<int>, x: int)
    requires x != d
    ensures x !in r ==> (l - {x}) + {d} + r == (l + {d} + r) - {x}
    ensures x !in l ==> l + {d} + (r - {x}) == (l + {d} + r) - {x}
  {
  }

  /** The mirror image of ShrinkLeft. */
  lemma ShrinkRight(node: Tree, target: int, right: Tree, found: bool)
    requires IsBst(node) && IsAvl(node) && node.Node? && target > node.data
    requires RemovedFrom(node.right, target, (right, found))
    ensures RemovedFrom(node, target,
      (Retrace(node.(right := Retrace(right), rightSize := if found then node.rightSize - 1 else node.rightSize)), found))
  {
    assert HeightsOk(node) && AvlBalanced(node);
    RetraceAvl(right);
    var n := node.(right := right, rightSize := if found then node.rightSize - 1 else node.rightSize);
    assert target !in Elements(node.left);
    RemoveFromUnion(Elements(node.left), node.data, Elements(node.right), target);
    AfterShrink(n, H(node.left), H(node.right));
    assert IsBst(UpdateHeight(n));
    CheckBalanceKeepsOrder(UpdateHeight(n));
  }

  /** Retracing what removeNode leaves behind removes the node's own element from an AVL search tree. */
  lemma {:induction false} RemoveNodeCorrect(node: Tree)
    requires node.Node? && IsBst(node) && IsAvl(node)
    ensures Elements(Retrace(RemoveNode(node))) == Elements(node) - {node.data}
    ensures IsBst(Retrace(RemoveNode(node))) && IsAvl(Retrace(RemoveNode(node)))
    ensures H(node) - 1 <= H(Retrace(RemoveNode(node))) <= H(node)
    decreases Size(node), 1
  {
    assert HeightsOk(node) && AvlBalanced(node);
    var l, d, r := node.left, node.data, node.right;
    assert Elements(node) == Elements(l) + {d} + Elements(r);
    assert d !in Elements(l) && d !in Elements(r);
    if l.Nil? {
      RetraceAvl(r);
    } else if r.Nil? {
      RetraceAvl(l);
    } else {
      RemoveNodeWithTwo(node);
    }
  }

  /** The node with two children takes over its predecessor, which is removed from the left subtree. */
  lemma {:induction false} RemoveNodeWithTwo(node: Tree)
    requires node.Node? && IsBst(node) && IsAvl(node) && node.left.Node? && node.right.Node?
    ensures Elements(Retrace(RemoveNode(node))) == Elements(node) - {node.data}
    ensures IsBst(Retrace(RemoveNode(node))) && IsAvl(Retrace(RemoveNode(node)))
    ensures H(node) - 1 <= H(Retrace(RemoveNode(node))) <= H(node)
    ensures RemoveNode(node).data == MaxOf(node.left)
    ensures Elements(RemoveNode(node).left) == Elements(node.left) - {MaxOf(node.left)}
    decreases Size(node), 0
  {
    assert HeightsOk(node) && AvlBalanced(node);
    var l, d, r := node.left, node.data, node.right;
    assert Elements(node) == Elements(l) + {d} + Elements(r);
    assert d !in Elements(l) && d !in Elements(r);
    var data := MaxOf(l);
    RecRemoveCorrect(data, l);
    var n := RemoveNode(node);
    assert n == node.(data := data, left := RecRemove(data, l).0);
    assert Elements(n.left) == Elements(l) - {data};
    assert Elements(n) == Elements(l) + Elements(r);
    AfterShrink(n, H(l), H(r));
    assert IsBst(l) && IsBst(r);
    assert forall x | x in Elements(l) :: x <= data;
    forall x | x in Elements(n.left)
      ensures x < data
    {
      assert x in Elements(l) && x != data;
    }
    assert forall x | x in Elements(r) :: data < x;
    assert IsBst(n);
    var u := UpdateHeight(n);
    assert u.data == data && u.left == n.left && u.right == r;
    CheckBalanceKeepsOrder(u);
  }

  /**
   * After three ascending elements a < b < c are added, the root holds b, but the single
   * rotation did not fix the counters, so rank 0 answers b instead of a.
   */
  lemma {:induction false} RotationLeavesCountersStale(a: int, b: int, c: int)
    requires a < b < c
    ensures var t := Insert(c, Insert(b, Insert(a, Nil).0).0).0;
      InOrder(t) == [a, b, c] && !CountsOk(t) && GetHelp(t, 0) == Some(b)
  {
    InsertAscending(a, b, c);
    StaleShape(a, b, c);
  }

  /** The tree InsertAscending builds: in order, but with the counters of node a wrong. */
  lemma StaleShape(a: int, b: int, c: int)
    requires a < b < c
    ensures var t := Node(b, Node(a, Nil, Nil, 1, 0, 2), Leaf(c), 2, 0, 1);
      InOrder(t) == [a, b, c] && !CountsOk(t) && GetHelp(t, 0) == Some(b)
  {
    var t := Node(b, Node(a, Nil, Nil, 1, 0, 2), Leaf(c), 2, 0, 1);
    assert t.right == Node(c, Nil, Nil, 1, 0, 0);
    assert InOrder(t.left) == [a] && InOrder(t.right) == [c];
    assert InOrder(t) == [a] + [b] + [c];
    assert !CountsOk(t.left);
  }

  lemma InsertAscending(a: int, b: int, c: int)
    requires a < b < c
    ensures Insert(c, Insert(b, Insert(a, Nil).0).0).0 == Node(b, Node(a, Nil, Nil, 1, 0, 2), Leaf(c), 2, 0, 1)
  {
    var t2 := Node(a, Nil, Leaf(b), 2, 0, 1);
    var m := Node(b, Nil, Leaf(c), 2, 0, 1);
    InsertRightStep(b, Leaf(a));
    InsertRightStep(c, Leaf(b));
    InsertRightStep(c, t2);
    assert Insert(b, Insert(a, Nil).0).0 == t2 by {
      assert Retrace(Node(a, Nil, Leaf(b), 1, 0, 1)) == t2;
    }
    assert Insert(c, Leaf(b)).0 == m by {
      assert Retrace(Node(b, Nil, Leaf(c), 1, 0, 1)) == m;
    }
    var n3 := Node(a, Nil, m, 3, 0, 2);
    assert UpdateHeight(t2.(right := m, rightSize := 2)) == n3;
    assert BalanceFactor(n3) == 2 && BalanceFactor(m) == 1;
    assert CheckBalance(n3) == RotateRR(n3);
  }

  /** One step of add's descent to the right, unfolded. */
  lemma InsertRightStep(item: int, t: Tree)
    requires HeightsOk(t) && t.Node? && t.data < item
    ensures Insert(item, t).0 == Retrace(t.(right := Insert(item, t.right).0, rightSize := t.rightSize + 1))
    ensures Insert(item, t).1 == Insert(item, t.right).1
  {
  }

  /** One step of add's descent to the left, unfolded. */
  lemma InsertLeftStep(item: int, t: Tree)
    requires HeightsOk(t) && t.Node? && t.data > item
    ensures Insert(item, t).0 == Retrace(t.(left := Insert(item, t.left).0, leftSize := t.leftSize + 1))
    ensures Insert(item, t).1 == Insert(item, t.left).1
  {
  }

  /** The tree object: the root link and the element count. */
  class AvlTree {
    var root: Tree
    var size: int

    ghost predicate Valid()
      reads this
    {
      IsBst(root) && IsAvl(root) && size == Size(root)
    }

    constructor ()
      ensures Valid() && root == Nil && size == 0
    {
      root := Nil;
      size := 0;
    }

    /**
     * contains(o): null throws; an empty tree answers false; otherwise the root is compared
     * and the search path is walked.
     */
    method Contains(o: Option<int>) returns (r: Result<bool>)
      requires Valid()
      ensures o.None? ==> r == Failure(NullPointer)
      ensures o.Some? ==> r == Success(o.value in Elements(root))
    {
      if o.None? {
        return Failure(NullPointer);
      }
      if root.Nil? {
        return Success(false);
      }
      if o.value == root.data {
        return Success(true);
      }
      var found := Search(root, o.value);
      return Success(found);
    }

    /**
     * add(e): null throws; an element already present is answered false without touching
     * the tree; otherwise it is inserted and the count grows by one.
     */
    method Add(e: Option<int>) returns (r: Result<bool>)
      requires Valid()
      modifies this
      ensures Valid()
      ensures e.None? ==> r == Failure(NullPointer) && root == old(root) && size == old(size)
      ensures e.Some? ==> r == Success(e.value !in old(Elements(root)))
      ensures e.Some? ==> Elements(root) == old(Elements(root)) + {e.value}
      ensures e.Some? && e.value in old(Elements(root)) ==> root == old(root)
      ensures size == old(size) + (if r == Success(true) then 1 else 0)
    {
      if e.None? {
        return Failure(NullPointer);
      }
      var oldSize := size;
      var present := Contains(e);
      if !present.value {
        InsertCorrect(e.value, root);
        var (t, grew) := Insert(e.value, root);
        root := t;
        if grew {
          size := size + 1;
        }
      }
      return Success(oldSize != size);
    }

    /**
     * remove(o): null throws; otherwise the answer is whether o was present, o is gone
     * afterwards, and the count drops by one exactly when it was present.
     */
    method Remove(o: Option<int>) returns (r: Result<bool>)
      requires Valid()
      modifies this
      ensures Valid()
      ensures o.None? ==> r == Failure(NullPointer) && root == old(root) && size == old(size)
      ensures o.Some? ==> r == Success(o.value in old(Elements(root)))
      ensures o.Some? ==> Elements(root) == old(Elements(root)) - {o.value}
      ensures size == old(size) - (if r == Success(true) then 1 else 0)
    {
      if o.None? {
        return Failure(NullPointer);
      }
      RecRemoveCorrect(o.value, root);
      BstCardinality(root);
      var (t, found) := RecRemove(o.value, root);
      BstCardinality(t);
      root := t;
      if found {
        size := size - 1;
      }
      return Success(found);
    }

    /** first(): the smallest element; an empty tree throws. */
    method First() returns (r: Result<int>)
      requires Valid()
      ensures root.Nil? ==> r == Failure(NoSuchElement)
      ensures root.Node? ==> r.Success? && r.value in Elements(root)
      ensures r.Success? ==> forall y | y in Elements(root) :: r.value <= y
    {
      if root.Nil? {
        return Failure(NoSuchElement);
      }
      var m := Leftmost(root);
      return Success(m);
    }

    /** last(): the largest element; an empty tree throws. */
    method Last() returns (r: Result<int>)
      requires Valid()
      ensures root.Nil? ==> r == Failure(NoSuchElement)
      ensures root.Node? ==> r.Success? && r.value in Elements(root)
      ensures r.Success? ==> forall y | y in Elements(root) :: y <= r.value
    {
      if root.Nil? {
        return Failure(NoSuchElement);
      }
      var m := Rightmost(root);
      return Success(m);
    }

    /** floor(e): null throws, and so does an empty tree (the code reads root.data first). */
    method Floor(e: Option<int>) returns (r: Result<Option<int>>)
      requires Valid()
      ensures e.None? || root.Nil? <==> r.Failure?
      ensures r.Failure? ==> r.error == NullPointer
      ensures r.Success? ==> IsFloor(Elements(root), e.value, r.value)
    {
      if e.None? || root.Nil? {
        return Failure(NullPointer);
      }
      return Success(TreeQueries.Floor(root, e.value));
    }

    /** ceiling(e): null throws, and so does an empty tree. */
    method Ceiling(e: Option<int>) returns (r: Result<Option<int>>)
      requires Valid()
      ensures e.None? || root.Nil? <==> r.Failure?
      ensures r.Failure? ==> r.error == NullPointer
      ensures r.Success? ==> IsCeiling(Elements(root), e.value, r.value)
    {
      if e.None? || root.Nil? {
        return Failure(NullPointer);
      }
      return Success(TreeQueries.Ceiling(root, e.value));
    }

    /** higher(e): null throws, and so does an empty tree. */
    method Higher(e: Option<int>) returns (r: Result<Option<int>>)
      requires Valid()
      ensures e.None? || root.Nil? <==> r.Failure?
      ensures r.Failure? ==> r.error == NullPointer
      ensures r.Success? ==> IsHigher(Elements(root), e.value, r.value)
    {
      if e.None? || root.Nil? {
        return Failure(NullPointer);
      }
      return Success(TreeQueries.Higher(root, e.value));
    }

    /** lower(e): null throws, and so does an empty tree. */
    method Lower(e: Option<int>) returns (r: Result<Option<int>>)
      requires Valid()
      ensures e.None? || root.Nil? <==> r.Failure?
      ensures r.Failure? ==> r.error == NullPointer
      ensures r.Success? ==> IsLower(Elements(root), e.value, r.value)
    {
      if e.None? || root.Nil? {
        return Failure(NullPointer);
      }
      return Success(TreeQueries.Lower(root, e.value));
    }

    /**
     * get(index): an index outside [0, size) throws; otherwise the rank descent runs, and it
     * finds element `index` of the in-order sequence when the counters are exact.
     */
    method Get(index: int) returns (r: Result<Option<int>>)
      requires Valid()
      ensures r.Failure? <==> !(0 <= index < size)
      ensures r.Failure? ==> r.error == IndexOutOfBounds
      ensures r.Success? && CountsOk(root) ==> |InOrder(root)| == size && r.value == Some(InOrder(root)[index])
      ensures r.Success? && r.value.Some? ==> r.value.value in Elements(root)
    {
      if index < 0 || index >= size {
        return Failure(IndexOutOfBounds);
      }
      if CountsOk(root) {
        GetHelpRank(root, index);
      }
      return Success(GetHelp(root, index));
    }

    /**
     * getRange(from, to): null bounds and from > to throw; an empty tree answers null (None);
     * otherwise the answer lists the elements within [from, to] in ascending order.
     */
    method GetRange(from: Option<int>, to: Option<int>) returns (r: Result<Option<seq<int>>>)
      requires Valid()
      ensures from.None? || to.None? ==> r == Failure(NullPointer)
      ensures from.Some? && to.Some? && from.value > to.value ==> r == Failure(IllegalArgument)
      ensures from.Some? && to.Some? && from.value <= to.value ==> r.Success?
      ensures r.Success? ==> (r.value.None? <==> root.Nil?)
      ensures r.Success? && r.value.Some? ==>
        && Increasing(r.value.value)
        && forall x :: x in r.value.value <==> x in Elements(root) && from.value <= x <= to.value
    {
      if from.None? || to.None? {
        return Failure(NullPointer);
      }
      if from.value > to.value {
        return Failure(IllegalArgument);
      }
      if root.Nil? {
        return Success(None);
      }
      var list := RangeTraverse(from.value, to.value, root, []);
      BstIffIncreasing(root);
      InOrderElements(root);
      InRangeMembers(InOrder(root), from.value, to.value);
      return Success(Some(list));
    }

    /** iterator(), preorderIterator(), postorderIterator(): a snapshot of the current tree. */
    method NewIterator(order: Order) returns (it: Itr)
      requires Valid()
      ensures fresh(it) && it.Valid() && it.count == 0
      ensures it.collection == Snapshot(root, order)
      ensures order == In ==> Increasing(it.collection)
    {
      it := new Itr(root, order);
    }

    /**
     * adder(arr, low, high): add the middle element of arr[low..high], then recurse on the two
     * halves; the middle index uses Java's truncating division. A range that has run empty
     * adds an element already stored, except for the empty array, where arr[0] throws.
     */
    method Adder(arr: seq<int>, low: int, high: int) returns (r: Result<()>)
      requires Valid()
      requires 0 <= low <= high + 1 <= |arr|
      requires low > 0 ==> arr[low - 1] in Elements(root)
      requires low == 0 && high < 0 && |arr| > 0 ==> arr[0] in Elements(root)
      modifies this
      ensures Valid()
      ensures r.Failure? <==> |arr| == 0
      ensures r.Failure? ==> r.error == ArrayIndexOutOfBounds && root == old(root)
      ensures Elements(root) == old(Elements(root)) + set i | low <= i <= high :: arr[i]
      decreases high - low + 1
    {
      var mid := TruncDiv2(low + high);
      if mid < 0 || mid >= |arr| {
        return Failure(ArrayIndexOutOfBounds);
      }
      if low >= high {
        var _ := Add(Some(arr[mid]));
        assert low < high + 1 ==> mid == low == high;
        return Success(());
      }
      var _ := Add(Some(arr[mid]));
      var _ := Adder(arr, low, mid - 1);
      var _ := Adder(arr, mid + 1, high);
      SliceSplit(arr, low, mid, high);
      return Success(());
    }

    /**
     * The array constructor: null throws; otherwise every element of the array is added.
     * An empty array throws from adder.
     */
    static method FromArray(collection: Option<seq<int>>) returns (r: Result<AvlTree>)
      ensures collection.None? ==> r == Failure(IllegalArgument)
      ensures collection.Some? && |collection.value| == 0 ==> r == Failure(ArrayIndexOutOfBounds)
      ensures collection.Some? && |collection.value| > 0 ==> r.Success?
      ensures r.Success? ==> collection.Some? && r.value.Valid()
      ensures r.Success? ==> Elements(r.value.root) == set i | 0 <= i < |collection.value| :: collection.value[i]
    {
      if collection.None? {
        return Failure(IllegalArgument);
      }
      var arr := collection.value;
      var tree := new AvlTree();
      var res := tree.Adder(arr, 0, |arr| - 1);
      if res.Failure? {
        return Failure(res.error);
      }
      return Success(tree);
    }
  }
}
