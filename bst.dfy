/**
 * BST.java: the same search tree without rebalancing. Its counters stay exact on a fresh
 * insertion and on removal, which makes rank access exact, but an insertion of an element
 * already present still bumps the counters along the search path.
 */
module Bst {
  import opened Wrappers
  import opened SearchTree
  import opened TreeQueries

  /**
   * add(item, root) as written: descend to an empty link and hang a new node there; an equal
   * element stops the descent. On the way back up the counter of the side descended into is
   * bumped whether or not a node was created, and the height is recomputed. The flag says
   * whether a node was created (the code's size++).
   */
  function Insert(item: int, t: Tree): (r: (Tree, bool))
    requires HeightsOk(t)
    ensures HeightsOk(r.0)
    ensures Elements(r.0) == Elements(t) + {item}
    ensures Size(r.0) == Size(t) + (if r.1 then 1 else 0)
    decreases t
  {
    if t.Nil? then (Leaf(item), true)
    else if t.data == item then (t, false)
    else if t.data < item then
      var sub := Insert(item, t.right);
      (UpdateHeight(t.(right := sub.0, rightSize := t.rightSize + 1)), sub.1)
    else
      var sub := Insert(item, t.left);
      (UpdateHeight(t.(left := sub.0, leftSize := t.leftSize + 1)), sub.1)
  }

  /**
   * What insertion promises on a search tree t: a node is created exactly when the element
   * was absent and the order is kept; an absent element keeps every counter exact, and a
   * present one leaves the in-order sequence as it was.
   */
  ghost predicate InsertedInto(t: Tree, item: int, r: (Tree, bool))
  {
    && r.1 == (item !in Elements(t))
    && IsBst(r.0)
    && (CountsOk(t) && item !in Elements(t) ==> CountsOk(r.0))
    && (item in Elements(t) ==> InOrder(r.0) == InOrder(t))
  }

  lemma {:induction false} InsertCorrect(item: int, t: Tree)
    requires IsBst(t) && HeightsOk(t)
    ensures InsertedInto(t, item, Insert(item, t))
    decreases t, 1
  {
    if t.Node? && t.data < item {
      InsertRight(item, t);
    } else if t.Node? && t.data > item {
      InsertLeft(item, t);
    }
  }

  lemma {:induction false} InsertRight(item: int, t: Tree)
    requires IsBst(t) && HeightsOk(t) && t.Node? && t.data < item
    ensures InsertedInto(t, item, Insert(item, t))
    decreases t, 0
  {
    assert HeightsOk(t.left) && HeightsOk(t.right);
    InsertCorrect(item, t.right);
    var sub := Insert(item, t.right);
    assert Insert(item, t) == (t.(right := sub.0, rightSize := t.rightSize + 1, height := 1 + Max(H(t.left), H(sub.0))), sub.1);
    assert item !in Elements(t.left);
  }

  lemma {:induction false} InsertLeft(item: int, t: Tree)
    requires IsBst(t) && HeightsOk(t) && t.Node? && t.data > item
    ensures InsertedInto(t, item, Insert(item, t))
    decreases t, 0
  {
    assert HeightsOk(t.left) && HeightsOk(t.right);
    InsertCorrect(item, t.left);
    var sub := Insert(item, t.left);
    assert Insert(item, t) == (t.(left := sub.0, leftSize := t.leftSize + 1, height := 1 + Max(H(sub.0), H(t.right))), sub.1);
    assert item !in Elements(t.right);
  }

  /**
   * Inserting an element already stored below the root of a tree whose counters are exact
   * leaves the root's counter for that side one too high.
   */
  lemma DuplicateInsertBreaksCounters(item: int, t: Tree)
    requires IsBst(t) && HeightsOk(t) && CountsOk(t)
    requires item in Elements(t) && item != t.data
    ensures var r := Insert(item, t).0;
      && r.Node?
      && (item < t.data ==> r.leftSize == Size(r.left) + 1)
      && (t.data < item ==> r.rightSize == Size(r.right) + 1)
    ensures !CountsOk(Insert(item, t).0)
  {
    assert HeightsOk(t.left) && HeightsOk(t.right);
    if t.data < item {
      InsertCorrect(item, t.right);
      var sub := Insert(item, t.right);
      assert Size(sub.0) == Size(t.right) == t.rightSize;
      assert Insert(item, t).0.rightSize == t.rightSize + 1;
    } else {
      InsertCorrect(item, t.left);
      var sub := Insert(item, t.left);
      assert Size(sub.0) == Size(t.left) == t.leftSize;
      assert Insert(item, t).0.leftSize == t.leftSize + 1;
    }
  }

  /**
   * A concrete instance: with b at the root and a < b as its left child, adding a again makes
   * the root's leftSize 2, and rank 1 then descends past a and answers null instead of b.
   */
  lemma DuplicateInsertMisleadsGet(a: int, b: int)
    requires a < b
    ensures var t := Node(b, Leaf(a), Nil, 2, 1, 0);
      && HeightsOk(t) && CountsOk(t) && InOrder(t) == [a, b]
      && InOrder(Insert(a, t).0) == [a, b] && GetHelp(Insert(a, t).0, 1) == None
  {
    var t := Node(b, Leaf(a), Nil, 2, 1, 0);
    assert Leaf(a) == Node(a, Nil, Nil, 1, 0, 0);
    assert InOrder(Leaf(a)) == [a];
    assert InOrder(t) == [a] + [b] + [];
    assert Elements(Leaf(a)) == {a} && IsBst(Leaf(a));
    assert IsBst(t);
    InsertCorrect(a, t);
    var t' := Node(b, Leaf(a), Nil, 2, 2, 0);
    assert Insert(a, t).0 == t';
    assert GetHelp(t', 1) == GetHelp(Leaf(a), 1) == GetHelp(Nil, 0) == None;
  }

  /**
   * recRemove(target, node): the pair holds the new subtree root and the code's `found` flag.
   * After a recursive call the child's height is recomputed and the counter of that side is
   * decremented when something was removed; at the target the left counter is decremented
   * before removeNode runs; the node's own height is recomputed last.
   */
  function RecRemove(target: int, node: Tree): (r: (Tree, bool))
    requires HeightsOk(node)
    ensures HeightsOk(r.0)
    ensures Elements(r.0) <= Elements(node)
    decreases Size(node), 1
  {
    if node.Nil? then (Nil, false)
    else if target < node.data then
      var sub := RecRemove(target, node.left);
      var n := node.(left := UpdateHeight(sub.0), leftSize := if sub.1 then node.leftSize - 1 else node.leftSize);
      (UpdateHeight(n), sub.1)
    else if target > node.data then
      var sub := RecRemove(target, node.right);
      var n := node.(right := UpdateHeight(sub.0), rightSize := if sub.1 then node.rightSize - 1 else node.rightSize);
      (UpdateHeight(n), sub.1)
    else
      (UpdateHeight(RemoveNode(node.(leftSize := node.leftSize - 1))), true)
  }

  /**
   * removeNode: a node with an absent child is replaced by its other child; a node with two
   * children takes the greatest element of its left subtree (getPredecessor) and that element
   * is removed from the left subtree. It is the same code as the AVL tree's removeNode, but
   * each calls its own recRemove, so the two cannot share one definition.
   */
  function RemoveNode(node: Tree): (r: Tree)
    requires node.Node? && HeightsOk(node)
    ensures r.Node? ==> HeightsOk(r.left) && HeightsOk(r.right)
    ensures Elements(r) <= Elements(node)
    ensures node.left.Nil? ==> r == node.right
    ensures node.left.Node? && node.right.Nil? ==> r == node.left
    ensures node.left.Node? && node.right.Node? ==>
      r.Node? && r.data == MaxOf(node.left) && r.right == node.right
    decreases Size(node), 0
  {
    if node.left.Nil? then
      assert HeightsOk(node.right);
      node.right
    else if node.right.Nil? then
      assert HeightsOk(node.left);
      node.left
    else
      var data := MaxOf(node.left);
      node.(data := data, left := RecRemove(data, node.left).0)
  }

  /**
   * What removing target from a search tree must give: the flag says whether target was
   * there, target is gone and nothing else is, the order holds, and exact counters stay exact.
   */
  ghost predicate RemovedFrom(node: Tree, target: int, r: (Tree, bool))
  {
    && r.1 == (target in Elements(node))
    && Elements(r.0) == Elements(node) - {target}
    && Size(r.0) == Size(node) - (if r.1 then 1 else 0)
    && IsBst(r.0)
    && (CountsOk(node) ==> CountsOk(r.0))
  }

  /** Removal from a search tree meets RemovedFrom. */
  lemma {:induction false} RecRemoveCorrect(target: int, node: Tree)
    requires IsBst(node) && HeightsOk(node)
    ensures RemovedFrom(node, target, RecRemove(target, node))
    decreases Size(node), 2
  {
    if node.Nil? {
    } else if target < node.data {
      RecRemoveLeft(target, node);
    } else if target > node.data {
      RecRemoveRight(target, node);
    } else {
      var m := node.(leftSize := node.leftSize - 1);
      assert IsBst(m) && HeightsOk(m) && Elements(m) == Elements(node);
      RemoveNodeCorrect(m);
      assert RecRemove(target, node) == (UpdateHeight(RemoveNode(m)), true);
      assert CountsOk(node) ==> m.leftSize == Size(node.left) - 1 && CountsOk(m.left) && CountsOk(m.right);
    }
  }

  /** One step of recRemove's descent to the left, unfolded. */
  lemma RecRemoveLeftStep(target: int, node: Tree)
    requires HeightsOk(node) && node.Node? && target < node.data
    ensures var sub := RecRemove(target, node.left);
      RecRemove(target, node)
      == (UpdateHeight(node.(left := UpdateHeight(sub.0), leftSize := if sub.1 then node.leftSize - 1 else node.leftSize)), sub.1)
  {
  }

  /** One step of recRemove's descent to the right, unfolded. */
  lemma RecRemoveRightStep(target: int, node: Tree)
    requires HeightsOk(node) && node.Node? && target > node.data
    ensures var sub := RecRemove(target, node.right);
      RecRemove(target, node)
      == (UpdateHeight(node.(right := UpdateHeight(sub.0), rightSize := if sub.1 then node.rightSize - 1 else node.rightSize)), sub.1)
  {
  }

  /** The descent to the left: the child shrinks by the target, its side's counter with it. */
  lemma {:induction false} RecRemoveLeft(target: int, node: Tree)
    requires IsBst(node) && HeightsOk(node) && node.Node? && target < node.data
    ensures RemovedFrom(node, target, RecRemove(target, node))
    decreases Size(node), 1
  {
    assert HeightsOk(node.left) && HeightsOk(node.right) && IsBst(node.left);
    RecRemoveCorrect(target, node.left);
    var sub := RecRemove(target, node.left);
    RecRemoveLeftStep(target, node);
    ReplaceLeft(node, target, sub.0, sub.1);
  }

  /** The descent to the right, the mirror image of RecRemoveLeft. */
  lemma {:induction false} RecRemoveRight(target: int, node: Tree)
    requires IsBst(node) && HeightsOk(node) && node.Node? && target > node.data
    ensures RemovedFrom(node, target, RecRemove(target, node))
    decreases Size(node), 1
  {
    assert HeightsOk(node.left) && HeightsOk(node.right) && IsBst(node.right);
    RecRemoveCorrect(target, node.right);
    var sub := RecRemove(target, node.right);
    RecRemoveRightStep(target, node);
    ReplaceRight(node, target, sub.0, sub.1);
  }

  /**
   * Putting back a left subtree from which target (smaller than the node) was removed, with
   * the counter adjusted and the heights recomputed, removes target from the whole tree.
   */
  lemma ReplaceLeft(node: Tree, target: int, l: Tree, found: bool)
    requires node.Node? && IsBst(node) && HeightsOk(node) && target < node.data
    requires RemovedFrom(node.left, target, (l, found)) && HeightsOk(l)
    ensures var n := node.(left := UpdateHeight(l), leftSize := if found then node.leftSize - 1 else node.leftSize);
      RemovedFrom(node, target, (UpdateHeight(n), found))
  {
    assert UpdateHeight(l) == l;
    assert target !in Elements(node.right);
  }

  /** The mirror image of ReplaceLeft. */
  lemma ReplaceRight(node: Tree, target: int, r: Tree, found: bool)
    requires node.Node? && IsBst(node) && HeightsOk(node) && target > node.data
    requires RemovedFrom(node.right, target, (r, found)) && HeightsOk(r)
    ensures var n := node.(right := UpdateHeight(r), rightSize := if found then node.rightSize - 1 else node.rightSize);
      RemovedFrom(node, target, (UpdateHeight(n), found))
  {
    assert UpdateHeight(r) == r;
    assert target !in Elements(node.left);
  }

  /**
   * What removeNode leaves, once its height is recomputed, is the search tree without the
   * node's own element; given a left counter one below the true count (the decrement done
   * just before), exact counters elsewhere stay exact.
   */
  lemma {:induction false} RemoveNodeCorrect(node: Tree)
    requires node.Node? && IsBst(node) && HeightsOk(node)
    ensures Elements(UpdateHeight(RemoveNode(node))) == Elements(node) - {node.data}
    ensures Size(UpdateHeight(RemoveNode(node))) == Size(node) - 1
    ensures IsBst(UpdateHeight(RemoveNode(node)))
    ensures (node.leftSize == Size(node.left) - 1 && node.rightSize == Size(node.right)
             && CountsOk(node.left) && CountsOk(node.right)) ==> CountsOk(UpdateHeight(RemoveNode(node)))
    decreases Size(node), 1
  {
    var l, d, r := node.left, node.data, node.right;
    assert HeightsOk(l) && HeightsOk(r);
    assert Elements(node) == Elements(l) + {d} + Elements(r);
    assert d !in Elements(l) && d !in Elements(r);
    if l.Nil? {
      assert UpdateHeight(r) == r;
    } else if r.Nil? {
      assert UpdateHeight(l) == l;
    } else {
      var data := MaxOf(l);
      assert IsBst(l);
      RecRemoveCorrect(data, l);
      var sub := RecRemove(data, l);
      assert RemoveNode(node) == node.(data := data, left := sub.0);
      ReplaceRoot(node, sub.0);
      var u := node.(data := data, left := sub.0);
      assert UpdateHeight(u) == u.(height := 1 + Max(H(sub.0), H(r)));
    }
  }

  /**
   * A node with two children whose element is overwritten by its predecessor, and whose left
   * subtree loses the predecessor, holds the old elements minus its own, in order.
   */
  lemma ReplaceRoot(node: Tree, l: Tree)
    requires node.Node? && IsBst(node) && node.left.Node?
    requires Elements(l) == Elements(node.left) - {MaxOf(node.left)} && IsBst(l)
    ensures var u := node.(data := MaxOf(node.left), left := l);
      Elements(u) == Elements(node) - {node.data} && IsBst(u)
  {
    var data, r := MaxOf(node.left), node.right;
    assert IsBst(node.left) && IsBst(r);
    assert node.data !in Elements(node.left) && node.data !in Elements(r);
    PredecessorAbove(node.left, l);
    assert forall x | x in Elements(r) :: data < x;
    var u := node.(data := data, left := l);
    assert Elements(u) == Elements(l) + {data} + Elements(r);
    assert data in Elements(node.left);
    assert Elements(l) + {data} == Elements(node.left);
    assert Elements(node) == Elements(node.left) + {node.data} + Elements(r);
  }

  /** Every element left in a subtree after its greatest element is removed lies below that element. */
  lemma PredecessorAbove(t: Tree, l: Tree)
    requires t.Node? && IsBst(t) && Elements(l) == Elements(t) - {MaxOf(t)}
    ensures forall x | x in Elements(l) :: x < MaxOf(t)
  {
  }

  /** The tree object: the root link and the element count. */
  class BstTree {
    var root: Tree
    var size: int

    /** The search-tree order, current heights, and a count that matches the nodes. */
    ghost predicate Shaped()
      reads this
    {
      IsBst(root) && HeightsOk(root) && size == Size(root)
    }

    /** Shaped, with every node's counters exact as well. */
    ghost predicate Valid()
      reads this
    {
      Shaped() && CountsOk(root)
    }

    constructor ()
      ensures Valid() && root == Nil && size == 0
    {
      root := Nil;
      size := 0;
    }

    /**
     * contains(o): null throws; an empty tree answers false; otherwise the root is compared
     * and the search path is walked.
     */
    method Contains(o: Option<int>) returns (r: Result<bool>)
      requires Shaped()
      ensures o.None? ==> r == Failure(NullPointer)
      ensures o.Some? ==> r == Success(o.value in Elements(root))
    {
      if o.None? {
        return Failure(NullPointer);
      }
      if root.Nil? {
        return Success(false);
      }
      if o.value == root.data {
        return Success(true);
      }
      var found := Search(root, o.value);
      return Success(found);
    }

    /**
     * add(e) as written: null throws; otherwise the element goes through the insertion with
     * no membership probe, and the answer is whether the count grew. A present element leaves
     * the in-order sequence as it was but, below the root, breaks the counters.
     */
    method AddAsWritten(e: Option<int>) returns (r: Result<bool>)
      requires Shaped()
      modifies this
      ensures Shaped()
      ensures e.None? ==> r == Failure(NullPointer) && root == old(root) && size == old(size)
      ensures e.Some? ==> r == Success(e.value !in old(Elements(root)))
      ensures e.Some? ==> Elements(root) == old(Elements(root)) + {e.value}
      ensures size == old(size) + (if r == Success(true) then 1 else 0)
      ensures old(CountsOk(root)) && r == Success(true) ==> Valid()
      ensures e.Some? && e.value in old(Elements(root)) ==> InOrder(root) == old(InOrder(root))
      ensures (old(CountsOk(root)) && old(root).Node? && e.Some? && e.value in old(Elements(root))
               && e.value != old(root).data) ==> !CountsOk(root)
    {
      if e.None? {
        return Failure(NullPointer);
      }
      var oldSize := size;
      InsertCorrect(e.value, root);
      if CountsOk(root) && root.Node? && e.value in Elements(root) && e.value != root.data {
        DuplicateInsertBreaksCounters(e.value, root);
      }
      var (t, grew) := Insert(e.value, root);
      root := t;
      if grew {
        size := size + 1;
      }
      return Success(oldSize != size);
    }

    /**
     * add(e) with the membership probe the AVL tree performs first: a present element is
     * answered false and the tree is left untouched, so the counters stay exact.
     */
    method Add(e: Option<int>) returns (r: Result<bool>)
      requires Valid()
      modifies this
      ensures Valid()
      ensures e.None? ==> r == Failure(NullPointer) && root == old(root) && size == old(size)
      ensures e.Some? ==> r == Success(e.value !in old(Elements(root)))
      ensures e.Some? ==> Elements(root) == old(Elements(root)) + {e.value}
      ensures e.Some? && e.value in old(Elements(root)) ==> root == old(root)
      ensures size == old(size) + (if r == Success(true) then 1 else 0)
    {
      if e.None? {
        return Failure(NullPointer);
      }
      var oldSize := size;
      var present := Contains(e);
      if !present.value {
        InsertCorrect(e.value, root);
        var (t, grew) := Insert(e.value, root);
        root := t;
        if grew {
          size := size + 1;
        }
      }
      return Success(oldSize != size);
    }

    /**
     * remove(o): null throws; otherwise the answer is whether o was present, o is gone
     * afterwards, the count drops by one exactly when it was present, and counters that
     * were exact stay exact.
     */
    method Remove(o: Option<int>) returns (r: Result<bool>)
      requires Shaped()
      modifies this
      ensures Shaped()
      ensures old(CountsOk(root)) ==> CountsOk(root)
      ensures o.None? ==> r == Failure(NullPointer) && root == old(root) && size == old(size)
      ensures o.Some? ==> r == Success(o.value in old(Elements(root)))
      ensures o.Some? ==> Elements(root) == old(Elements(root)) - {o.value}
      ensures size == old(size) - (if r == Success(true) then 1 else 0)
    {
      if o.None? {
        return Failure(NullPointer);
      }
      RecRemoveCorrect(o.value, root);
      BstCardinality(root);
      var (t, found) := RecRemove(o.value, root);
      BstCardinality(t);
      root := t;
      if found {
        size := size - 1;
      }
      return Success(found);
    }

    /** first(): the smallest element; an empty tree throws. */
    method First() returns (r: Result<int>)
      requires Shaped()
      ensures root.Nil? ==> r == Failure(NoSuchElement)
      ensures root.Node? ==> r.Success? && r.value in Elements(root)
      ensures r.Success? ==> forall y | y in Elements(root) :: r.value <= y
    {
      if root.Nil? {
        return Failure(NoSuchElement);
      }
      var m := Leftmost(root);
      return Success(m);
    }

    /** last(): the largest element; an empty tree throws. */
    method Last() returns (r: Result<int>)
      requires Shaped()
      ensures root.Nil? ==> r == Failure(NoSuchElement)
      ensures root.Node? ==> r.Success? && r.value in Elements(root)
      ensures r.Success? ==> forall y | y in Elements(root) :: y <= r.value
    {
      if root.Nil? {
        return Failure(NoSuchElement);
      }
      var m := Rightmost(root);
      return Success(m);
    }

    /** ceiling(e): an empty tree answers null before the argument is checked; null throws. */
    method Ceiling(e: Option<int>) returns (r: Result<Option<int>>)
      requires Shaped()
      ensures root.Nil? ==> r == Success(None)
      ensures root.Node? && e.None? ==> r == Failure(NullPointer)
      ensures root.Node? && e.Some? ==> r.Success?
      ensures r.Success? && e.Some? ==> IsCeiling(Elements(root), e.value, r.value)
    {
      if root.Nil? {
        return Success(None);
      }
      if e.None? {
        return Failure(NullPointer);
      }
      return Success(TreeQueries.Ceiling(root, e.value));
    }

    /** floor(e): null throws, and so does an empty tree (the code reads root.data first). */
    method Floor(e: Option<int>) returns (r: Result<Option<int>>)
      requires Shaped()
      ensures e.None? || root.Nil? <==> r.Failure?
      ensures r.Failure? ==> r.error == NullPointer
      ensures r.Success? ==> IsFloor(Elements(root), e.value, r.value)
    {
      if e.None? || root.Nil? {
        return Failure(NullPointer);
      }
      return Success(TreeQueries.Floor(root, e.value));
    }

    /** higher(e): null throws, and so does an empty tree. */
    method Higher(e: Option<int>) returns (r: Result<Option<int>>)
      requires Shaped()
      ensures e.None? || root.Nil? <==> r.Failure?
      ensures r.Failure? ==> r.error == NullPointer
      ensures r.Success? ==> IsHigher(Elements(root), e.value, r.value)
    {
      if e.None? || root.Nil? {
        return Failure(NullPointer);
      }
      return Success(TreeQueries.Higher(root, e.value));
    }

    /** lower(e): null throws, and so does an empty tree. */
    method Lower(e: Option<int>) returns (r: Result<Option<int>>)
      requires Shaped()
      ensures e.None? || root.Nil? <==> r.Failure?
      ensures r.Failure? ==> r.error == NullPointer
      ensures r.Success? ==> IsLower(Elements(root), e.value, r.value)
    {
      if e.None? || root.Nil? {
        return Failure(NullPointer);
      }
      return Success(TreeQueries.Lower(root, e.value));
    }

    /**
     * get(index): an index outside [0, size) throws; otherwise the rank descent runs. With
     * exact counters it finds element `index` of the in-order sequence; with stale ones it
     * may answer null, and any element it answers is still one of the tree's.
     */
    method Get(index: int) returns (r: Result<Option<int>>)
      requires Shaped()
      ensures r.Failure? <==> !(0 <= index < size)
      ensures r.Failure? ==> r.error == IndexOutOfBounds
      ensures r.Success? && CountsOk(root) ==> |InOrder(root)| == size && r.value == Some(InOrder(root)[index])
      ensures r.Success? && r.value.Some? ==> r.value.value in Elements(root)
    {
      if index < 0 || index >= size {
        return Failure(IndexOutOfBounds);
      }
      if CountsOk(root) {
        GetHelpRank(root, index);
      }
      return Success(GetHelp(root, index));
    }

    /**
     * getRange(from, to): null bounds and from > to throw; an empty tree answers null (None);
     * otherwise the answer lists the elements within [from, to] in ascending order.
     */
    method GetRange(from: Option<int>, to: Option<int>) returns (r: Result<Option<seq<int>>>)
      requires Shaped()
      ensures from.None? || to.None? ==> r == Failure(NullPointer)
      ensures from.Some? && to.Some? && from.value > to.value ==> r == Failure(IllegalArgument)
      ensures from.Some? && to.Some? && from.value <= to.value ==> r.Success?
      ensures r.Success? ==> (r.value.None? <==> root.Nil?)
      ensures r.Success? && r.value.Some? ==>
        && Increasing(r.value.value)
        && forall x :: x in r.value.value <==> x in Elements(root) && from.value <= x <= to.value
    {
      if from.None? || to.None? {
        return Failure(NullPointer);
      }
      if from.value > to.value {
        return Failure(IllegalArgument);
      }
      if root.Nil? {
        return Success(None);
      }
      var list := RangeTraverse(from.value, to.value, root, []);
      BstIffIncreasing(root);
      InOrderElements(root);
      InRangeMembers(InOrder(root), from.value, to.value);
      return Success(Some(list));
    }

    /** iterator(), preorderIterator(), postorderIterator(): a snapshot of the current tree. */
    method NewIterator(order: Order) returns (it: Itr)
      requires Shaped()
      ensures fresh(it) && it.Valid() && it.count == 0
      ensures it.collection == Snapshot(root, order)
      ensures order == In ==> Increasing(it.collection)
    {
      it := new Itr(root, order);
    }

    /**
     * adder(arr, low, high): add the middle element of arr[low..high] with the add that does
     * not probe first, then recurse on the two halves; the middle index uses Java's
     * truncating division. A range that has run empty adds an element already stored again,
     * which leaves the elements as they are but can break the counters, so only the shape
     * is promised; the empty array throws at arr[0].
     */
    method Adder(arr: seq<int>, low: int, high: int) returns (r: Result<()>)
      requires Shaped()
      requires 0 <= low <= high + 1 <= |arr|
      requires low > 0 ==> arr[low - 1] in Elements(root)
      requires low == 0 && high < 0 && |arr| > 0 ==> arr[0] in Elements(root)
      modifies this
      ensures Shaped()
      ensures r.Failure? <==> |arr| == 0
      ensures r.Failure? ==> r.error == ArrayIndexOutOfBounds && root == old(root)
      ensures Elements(root) == old(Elements(root)) + set i | low <= i <= high :: arr[i]
      decreases high - low + 1
    {
      var mid := TruncDiv2(low + high);
      if mid < 0 || mid >= |arr| {
        return Failure(ArrayIndexOutOfBounds);
      }
      if low >= high {
        var _ := AddAsWritten(Some(arr[mid]));
        assert low < high + 1 ==> mid == low == high;
        return Success(());
      }
      var _ := AddAsWritten(Some(arr[mid]));
      var _ := Adder(arr, low, mid - 1);
      var _ := Adder(arr, mid + 1, high);
      SliceSplit(arr, low, mid, high);
      return Success(());
    }

    /**
     * The array constructor: null throws; otherwise every element of the array is added
     * through adder. An empty array throws from adder.
     */
    static method FromArray(collection: Option<seq<int>>) returns (r: Result<BstTree>)
      ensures collection.None? ==> r == Failure(IllegalArgument)
      ensures collection.Some? && |collection.value| == 0 ==> r == Failure(ArrayIndexOutOfBounds)
      ensures collection.Some? && |collection.value| > 0 ==> r.Success?
      ensures r.Success? ==> collection.Some? && r.value.Shaped()
      ensures r.Success? ==> Elements(r.value.root) == set i | 0 <= i < |collection.value| :: collection.value[i]
    {
      if collection.None? {
        return Failure(IllegalArgument);
      }
      var arr := collection.value;
      var tree := new BstTree();
      var res := tree.Adder(arr, 0, |arr| - 1);
      if res.Failure? {
        return Failure(res.error);
      }
      return Success(tree);
    }
  }
}
