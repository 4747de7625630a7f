/**
 * The read-only part that AVL.java and BST.java share in logic: membership, first and
 * last, floor / ceiling / higher / lower, rank access, range extraction and the snapshot
 * iterators. None of these change the tree.
 */
module TreeQueries {
  import opened Wrappers
  import opened SearchTree

  /** The element reached by walking left from the root: the smallest one. */
  function MinOf(t: Tree): (m: int)
    requires t.Node?
    ensures m in Elements(t)
    ensures IsBst(t) ==> forall y | y in Elements(t) :: m <= y
  {
    if t.left.Nil? then t.data else MinOf(t.left)
  }

  /** The element reached by walking right from the root: the largest one. */
  function MaxOf(t: Tree): (m: int)
    requires t.Node?
    ensures m in Elements(t)
    ensures IsBst(t) ==> forall y | y in Elements(t) :: y <= m
  {
    if t.right.Nil? then t.data else MaxOf(t.right)
  }

  /** The cursor loop of contains: descend towards x until it is met or the path ends. */
  method Search(t: Tree, x: int) returns (found: bool)
    requires IsBst(t)
    ensures found == (x in Elements(t))
  {
    var current := t;
    while current.Node?
      invariant IsBst(current)
      invariant x in Elements(t) <==> x in Elements(current)
      decreases current
    {
      if current.data == x {
        return true;
      } else if current.data < x {
        current := current.right;
      } else {
        current := current.left;
      }
    }
    return false;
  }

  /** The cursor loop of first: follow left links to the end. */
  method Leftmost(t: Tree) returns (m: int)
    requires t.Node? && IsBst(t)
    ensures m in Elements(t)
    ensures forall y | y in Elements(t) :: m <= y
  {
    var current := t;
    while current.left.Node?
      invariant current.Node? && MinOf(current) == MinOf(t)
      decreases current
    {
      current := current.left;
    }
    m := current.data;
  }

  /** The cursor loop of last and of getPredecessor: follow right links to the end. */
  method Rightmost(t: Tree) returns (m: int)
    requires t.Node?
    ensures m == MaxOf(t)
    ensures IsBst(t) ==> m in Elements(t) && forall y | y in Elements(t) :: y <= m
  {
    var current := t;
    while current.right.Node?
      invariant current.Node? && MaxOf(current) == MaxOf(t)
      decreases current
    {
      current := current.right;
    }
    m := current.data;
  }

  /** r is the greatest member of s that is <= e, or None when there is none. */
  ghost predicate IsFloor(s: set<int>, e: int, r: Option<int>)
  {
    && (r.Some? ==> r.value in s && r.value <= e)
    && (forall x | x in s && x <= e :: r.Some? && x <= r.value)
  }

  /** r is the least member of s that is >= e, or None when there is none. */
  ghost predicate IsCeiling(s: set<int>, e: int, r: Option<int>)
  {
    && (r.Some? ==> r.value in s && r.value >= e)
    && (forall x | x in s && x >= e :: r.Some? && r.value <= x)
  }

  /** r is the least member of s that is > e, or None when there is none. */
  ghost predicate IsHigher(s: set<int>, e: int, r: Option<int>)
  {
    && (r.Some? ==> r.value in s && r.value > e)
    && (forall x | x in s && x > e :: r.Some? && r.value <= x)
  }

  /** r is the greatest member of s that is < e, or None when there is none. */
  ghost predicate IsLower(s: set<int>, e: int, r: Option<int>)
  {
    && (r.Some? ==> r.value in s && r.value < e)
    && (forall x | x in s && x < e :: r.Some? && x <= r.value)
  }

  /** floor(root, e): the greatest element <= e, or None. */
  function Floor(t: Tree, e: int): (r: Option<int>)
    requires IsBst(t)
    ensures IsFloor(Elements(t), e, r)
  {
    if t.Nil? then None
    else if t.data > e then Floor(t.left, e)
    else
      var f := Floor(t.right, e);
      if f.Some? && f.value <= e then f else Some(t.data)
  }

  /** ceiling(root, e): the least element >= e, or None. */
  function Ceiling(t: Tree, e: int): (r: Option<int>)
    requires IsBst(t)
    ensures IsCeiling(Elements(t), e, r)
  {
    if t.Nil? then None
    else if t.data < e then Ceiling(t.right, e)
    else
      var c := Ceiling(t.left, e);
      if c.Some? && c.value >= e then c else Some(t.data)
  }

  /** higherHelper(root, e): the least element > e, or None. */
  function Higher(t: Tree, e: int): (r: Option<int>)
    requires IsBst(t)
    ensures IsHigher(Elements(t), e, r)
  {
    if t.Nil? then None
    else if t.data <= e then Higher(t.right, e)
    else
      var h := Higher(t.left, e);
      if h.Some? && h.value > e then h else Some(t.data)
  }

  /** lowerHelper(root, e): the greatest element < e, or None. */
  function Lower(t: Tree, e: int): (r: Option<int>)
    requires IsBst(t)
    ensures IsLower(Elements(t), e, r)
  {
    if t.Nil? then None
    else if t.data >= e then Lower(t.left, e)
    else
      var l := Lower(t.right, e);
      if l.Some? && l.value < e then l else Some(t.data)
  }

  /**
   * getHelp(root, index): rank descent steered by the cached leftSize counters. Whatever
   * the counters say, an answer is an element of the tree, and running off a leaf gives null.
   */
  function GetHelp(t: Tree, index: int): (r: Option<int>)
    ensures t.Nil? ==> r.None?
    ensures r.Some? ==> r.value in Elements(t)
  {
    if t.Nil? then None
    else if t.leftSize - index == 0 then Some(t.data)
    else if index - t.leftSize > 0 then GetHelp(t.right, index - t.leftSize - 1)
    else GetHelp(t.left, index)
  }

  /** With exact counters, the rank descent finds element `index` of the in-order sequence. */
  lemma {:induction false} GetHelpRank(t: Tree, index: int)
    requires CountsOk(t) && 0 <= index < Size(t)
    ensures |InOrder(t)| == Size(t) && GetHelp(t, index) == Some(InOrder(t)[index])
  {
    InOrderSize(t);
    InOrderSize(t.left);
    if index < t.leftSize {
      GetHelpRank(t.left, index);
    } else if index > t.leftSize {
      GetHelpRank(t.right, index - t.leftSize - 1);
    }
  }

  /** The elements of s lying in [lo, hi], in the order of s. */
  function InRange(s: seq<int>, lo: int, hi: int): seq<int>
  {
    if s == [] then []
    else (if lo <= s[0] <= hi then [s[0]] else []) + InRange(s[1..], lo, hi)
  }

  lemma {:induction false} InRangeConcat(a: seq<int>, b: seq<int>, lo: int, hi: int)
    ensures InRange(a + b, lo, hi) == InRange(a, lo, hi) + InRange(b, lo, hi)
  {
    if a == [] {
      assert a + b == b;
    } else {
      assert (a + b)[0] == a[0] && (a + b)[1..] == a[1..] + b;
      InRangeConcat(a[1..], b, lo, hi);
    }
  }

  lemma {:induction false} InRangeNone(s: seq<int>, lo: int, hi: int)
    requires forall x | x in s :: x < lo || hi < x
    ensures InRange(s, lo, hi) == []
  {
    if s != [] {
      assert s[0] in s;
      forall x | x in s[1..] ensures x < lo || hi < x {
        assert x in s;
      }
      InRangeNone(s[1..], lo, hi);
    }
  }

  /** Filtering keeps exactly the members that lie in the range, and keeps an increasing order. */
  lemma {:induction false} InRangeMembers(s: seq<int>, lo: int, hi: int)
    ensures forall x :: x in InRange(s, lo, hi) <==> x in s && lo <= x <= hi
    ensures Increasing(s) ==> Increasing(InRange(s, lo, hi))
  {
    if s != [] {
      InRangeMembers(s[1..], lo, hi);
      if Increasing(s) {
        assert Increasing(s[1..]);
        var rest := InRange(s[1..], lo, hi);
        if lo <= s[0] <= hi {
          forall i, j | 0 <= i < j < |[s[0]] + rest| ensures ([s[0]] + rest)[i] < ([s[0]] + rest)[j] {
            if i == 0 {
              assert ([s[0]] + rest)[j] in rest;
            }
          }
        }
      }
    }
  }

  /** rangeTraverse: appends to `list` the elements of t within [lo, hi], ascending, pruning subtrees outside. */
  method RangeTraverse(lo: int, hi: int, t: Tree, list: seq<int>) returns (out: seq<int>)
    requires lo <= hi && IsBst(t)
    ensures out == list + InRange(InOrder(t), lo, hi)
    decreases t
  {
    if t.Nil? {
      return list;
    }
    RangeSplit(t, lo, hi);
    if lo <= t.data && t.data <= hi {
      out := RangeTraverse(lo, hi, t.left, list);
      out := out + [t.data];
      out := RangeTraverse(lo, hi, t.right, out);
    } else {
      out := list;
      if t.data < lo {
        out := RangeTraverse(lo, hi, t.right, out);
      }
      if t.data > hi {
        out := RangeTraverse(lo, hi, t.left, out);
      }
    }
  }

  /**
   * The range of a search tree splits at its root. A root inside [lo, hi] sits between the
   * ranges of its subtrees. A root below lo leaves only the right subtree's range, and a root
   * above hi leaves only the left one's.
   */
  lemma RangeSplit(t: Tree, lo: int, hi: int)
    requires t.Node? && IsBst(t)
    ensures lo <= t.data <= hi ==>
      InRange(InOrder(t), lo, hi) == InRange(InOrder(t.left), lo, hi) + [t.data] + InRange(InOrder(t.right), lo, hi)
    ensures t.data < lo ==> InRange(InOrder(t), lo, hi) == InRange(InOrder(t.right), lo, hi)
    ensures t.data > hi ==> InRange(InOrder(t), lo, hi) == InRange(InOrder(t.left), lo, hi)
  {
    InRangeConcat(InOrder(t.left) + [t.data], InOrder(t.right), lo, hi);
    InRangeConcat(InOrder(t.left), [t.data], lo, hi);
    InOrderElements(t.left);
    InOrderElements(t.right);
    if t.data < lo {
      InRangeNone(InOrder(t.left), lo, hi);
    }
    if t.data > hi {
      InRangeNone(InOrder(t.right), lo, hi);
    }
  }

  /** The three traversal keywords "in", "pre" and "post". */
  datatype Order = In | Pre | Post

  function Snapshot(t: Tree, order: Order): seq<int>
  {
    match order
    case In => InOrder(t)
    case Pre => PreOrder(t)
    case Post => PostOrder(t)
  }

  /** Itr.traverse: appends the nodes of t to `arr` in the requested order. */
  method Traverse(t: Tree, arr: seq<int>, order: Order) returns (out: seq<int>)
    ensures out == arr + Snapshot(t, order)
    decreases t
  {
    out := arr;
    if t.Node? {
      match order
      case In =>
        out := Traverse(t.left, out, order);
        out := out + [t.data];
        out := Traverse(t.right, out, order);
      case Pre =>
        out := out + [t.data];
        out := Traverse(t.left, out, order);
        out := Traverse(t.right, out, order);
      case Post =>
        out := Traverse(t.left, out, order);
        out := Traverse(t.right, out, order);
        out := out + [t.data];
    }
  }

  /**
   * The iterator of either tree: the whole traversal is copied into `collection` when the
   * iterator is built, so later changes to the tree do not reach it.
   */
  class Itr {
    var collection: seq<int>
    var count: nat

    ghost predicate Valid()
      reads this
    {
      count <= |collection|
    }

    constructor (root: Tree, order: Order)
      ensures Valid() && count == 0
      ensures collection == Snapshot(root, order)
      ensures order == In && IsBst(root) ==> Increasing(collection)
    {
      var snapshot := Traverse(root, [], order);
      collection := snapshot;
      count := 0;
      if order == In {
        BstIffIncreasing(root);
      }
    }

    method HasNext() returns (b: bool)
      ensures b == (count < |collection|)
    {
      b := count < |collection|;
    }

    method Next() returns (r: Result<int>)
      requires Valid()
      modifies this
      ensures Valid() && collection == old(collection)
      ensures old(count) < |collection| ==> r == Success(collection[old(count)]) && count == old(count) + 1
      ensures old(count) == |collection| ==> r == Failure(NoSuchElement) && count == old(count)
    {
      if count >= |collection| {
        return Failure(NoSuchElement);
      }
      r := Success(collection[count]);
      count := count + 1;
    }
  }
}
