/**
 * LinkedList.java: a singly linked list with head, tail and size fields. The ghost sequences
 * Contents and Nodes give the abstract list and the chain of nodes that holds it; Repr is the
 * set of objects the list owns.
 */
module LinkedLists {
  import opened Wrappers

  /** The first index at which x occurs in s, or -1 when it does not occur. */
  function FirstIndex(s: seq<int>, x: int): (i: int)
    ensures -1 <= i < |s|
    ensures i == -1 <==> x !in s
    ensures 0 <= i ==> s[i] == x && x !in s[..i]
  {
    if |s| == 0 then -1
    else if s[0] == x then 0
    else
      var j := FirstIndex(s[1..], x);
      assert s[1..][..j + 1] == s[1..j + 2] || j == -1;
      if j == -1 then -1 else
        assert s[..j + 1] == [s[0]] + s[1..][..j];
        j + 1
  }

  /** s with position i deleted. */
  function Delete(s: seq<int>, i: int): (r: seq<int>)
    requires 0 <= i < |s|
    ensures |r| == |s| - 1
    ensures forall k | 0 <= k < i :: r[k] == s[k]
    ensures forall k | i <= k < |r| :: r[k] == s[k + 1]
  {
    s[..i] + s[i + 1..]
  }

  class Node {
    var element: int
    var next: Node?

    constructor (e: int)
      ensures element == e && next == null
    {
      element := e;
      next := null;
    }
  }

  class LinkedList {
    var head: Node?
    var tail: Node?
    var size: int

    ghost var Contents: seq<int>
    ghost var Nodes: seq<Node>
    ghost var Repr: set<object>

    /**
     * The chain: head is the first node, each node links to the next one and the last to
     * null, the nodes are distinct and hold Contents, and size counts them.
     */
    ghost predicate Linked()
      reads this, Repr
    {
      && this in Repr
      && |Nodes| == |Contents| == size
      && (forall i | 0 <= i < |Nodes| :: Nodes[i] in Repr)
      && (forall i, j | 0 <= i < j < |Nodes| :: Nodes[i] != Nodes[j])
      && head == (if |Nodes| == 0 then null else Nodes[0])
      && (forall i | 0 <= i < |Nodes| :: Nodes[i].element == Contents[i])
      && (forall i {:trigger Nodes[i].next} | 0 <= i < |Nodes| :: Nodes[i].next == (if i + 1 < |Nodes| then Nodes[i + 1] else null))
    }

    /** Linked, and a non-empty list's tail is its last node. */
    ghost predicate Valid()
      reads this, Repr
    {
      Linked() && (size > 0 ==> tail == Nodes[size - 1])
    }

    constructor ()
      ensures Valid() && fresh(Repr) && Contents == []
    {
      head := null;
      tail := null;
      size := 0;
      Contents := [];
      Nodes := [];
      Repr := {this};
    }

    /** add(e): null is refused; otherwise e is appended after the tail and the answer is true. */
    method Add(e: Option<int>) returns (r: Result<bool>)
      requires Valid()
      modifies Repr
      ensures Valid() && fresh(Repr - old(Repr))
      ensures e.None? ==> r == Failure(IllegalArgument) && Contents == old(Contents)
      ensures e.Some? ==> r == Success(true) && Contents == old(Contents) + [e.value]
    {
      if e.None? {
        return Failure(IllegalArgument);
      }
      var n := new Node(e.value);
      if size == 0 {
        head := n;
        tail := head;
      } else {
        tail.next := n;
        tail := tail.next;
      }
      size := size + 1;
      Contents := Contents + [e.value];
      Nodes := Nodes + [n];
      Repr := Repr + {n};
      return Success(true);
    }

    /** get(index): an index outside [0, size) throws; otherwise the element at that position. */
    method Get(index: int) returns (r: Result<int>)
      requires Linked()
      ensures !(0 <= index < |Contents|) ==> r == Failure(IndexOutOfBounds)
      ensures 0 <= index < |Contents| ==> r == Success(Contents[index])
    {
      if index < 0 || index >= size {
        return Failure(IndexOutOfBounds);
      }
      var t := head;
      for i := 0 to index
        invariant t == Nodes[i]
      {
        assert Nodes[i].next == Nodes[i + 1];
        t := t.next;
      }
      return Success(t.element);
    }

    /**
     * remove(pos): a position outside [0, size) throws; otherwise the node at pos is spliced
     * out and its element returned. When that node was the last one, tail moves back to its
     * predecessor, so that a later add still appends to the list.
     */
    method RemoveAt(pos: int) returns (r: Result<int>)
      requires Valid()
      modifies Repr
      ensures Valid() && Repr == old(Repr)
      ensures !(0 <= pos < old(|Contents|)) ==> r == Failure(IllegalArgument) && Contents == old(Contents)
      ensures 0 <= pos < old(|Contents|) ==>
        r == Success(old(Contents)[pos]) && Contents == Delete(old(Contents), pos)
    {
      if pos < 0 || pos >= size {
        return Failure(IllegalArgument);
      }
      if pos == 0 {
        var current := RemoveFirst();
        return Success(current.element);
      }
      var prev, cur := Splice(pos);
      if cur == tail {
        tail := prev;
      }
      return Success(cur.element);
    }

    /**
     * remove(pos) as written: the same splice, but tail is never moved. Removing the last
     * node of a list of two or more leaves tail on the unlinked node.
     */
    method RemoveAtAsWritten(pos: int) returns (r: Result<int>)
      requires Linked()
      modifies Repr
      ensures Linked() && Repr == old(Repr) && tail == old(tail)
      ensures !(0 <= pos < old(|Contents|)) ==> r == Failure(IllegalArgument) && Contents == old(Contents)
      ensures 0 <= pos < old(|Contents|) ==>
        r == Success(old(Contents)[pos]) && Contents == Delete(old(Contents), pos)
      ensures old(Valid()) && 0 <= pos < old(|Contents|) - 1 ==> Valid()
      ensures old(Valid()) && old(|Contents|) >= 2 && pos == old(|Contents|) - 1 ==> tail !in Nodes && !Valid()
    {
      if pos < 0 || pos >= size {
        return Failure(IllegalArgument);
      }
      if pos == 0 {
        var current := RemoveFirst();
        return Success(current.element);
      }
      ghost var last := Nodes[|Nodes| - 1];
      var prev, cur := Splice(pos);
      if old(Valid()) && pos == old(|Contents|) - 1 {
        assert cur == last == tail;
        assert tail !in Nodes;
      }
      return Success(cur.element);
    }

    /** remove(0): head moves to the second node; tail stays, which is right unless the list empties. */
    method RemoveFirst() returns (current: Node)
      requires Linked() && 0 < size
      modifies this
      ensures Linked() && Repr == old(Repr) && tail == old(tail)
      ensures old(Valid()) ==> Valid()
      ensures current == old(Nodes)[0] && current.element == old(Contents)[0]
      ensures Contents == Delete(old(Contents), 0) && Nodes == old(Nodes[1..])
    {
      assert Nodes[0].next == (if 1 < |Nodes| then Nodes[1] else null);
      current := head;
      head := head.next;
      size := size - 1;
      Contents := Contents[1..];
      Nodes := Nodes[1..];
    }

    /**
     * The cursor walk and splice shared by both versions of remove(pos) for pos > 0: prev and
     * cur advance together until cur is the node at pos, then prev is linked past cur.
     */
    method Splice(pos: int) returns (prev: Node, cur: Node)
      requires Linked() && 0 < pos < size
      modifies Repr
      ensures Linked() && Repr == old(Repr) && tail == old(tail)
      ensures cur == old(Nodes)[pos] && prev == old(Nodes)[pos - 1] && cur.element == old(Contents)[pos]
      ensures Contents == Delete(old(Contents), pos) && Nodes == old(Nodes[..pos] + Nodes[pos + 1..])
      ensures old(Valid()) && pos < old(size) - 1 ==> tail == Nodes[size - 1]
      ensures pos == old(size) - 1 ==> size > 0 && prev == Nodes[size - 1]
      ensures old(Valid()) && pos == old(size) - 1 ==> cur == tail
    {
      assert Nodes[0].next == Nodes[1];
      prev := head;
      cur := head.next;
      var at := 1;
      while at < pos
        invariant 1 <= at <= pos
        invariant prev == Nodes[at - 1] && cur == Nodes[at]
      {
        assert Nodes[at - 1].next == Nodes[at] && Nodes[at].next == Nodes[at + 1];
        prev := prev.next;
        cur := cur.next;
        at := at + 1;
      }
      Unlink(prev, cur, pos);
    }

    /** The splice itself: prev, the node before pos, is linked past cur, the node at pos. */
    method Unlink(prev: Node, cur: Node, pos: int)
      requires Linked() && 0 < pos < size
      requires prev == Nodes[pos - 1] && cur == Nodes[pos]
      modifies this, prev
      ensures Linked() && Repr == old(Repr) && tail == old(tail)
      ensures Contents == Delete(old(Contents), pos) && Nodes == old(Nodes[..pos] + Nodes[pos + 1..])
    {
      ghost var nodes := Nodes;
      assert cur.next == (if pos + 1 < |nodes| then nodes[pos + 1] else null);
      prev.next := cur.next;
      size := size - 1;
      Contents := Delete(Contents, pos);
      Nodes := nodes[..pos] + nodes[pos + 1..];
      forall i | 0 <= i < |Nodes|
        ensures Nodes[i].next == (if i + 1 < |Nodes| then Nodes[i + 1] else null)
      {
        if i < pos - 1 {
          assert Nodes[i] == nodes[i] != nodes[pos - 1];
        } else if i >= pos {
          assert Nodes[i] == nodes[i + 1] != nodes[pos - 1];
        }
      }
      forall i, j | 0 <= i < j < |Nodes|
        ensures Nodes[i] != Nodes[j]
      {
        var i' := if i < pos then i else i + 1;
        var j' := if j < pos then j else j + 1;
        assert Nodes[i] == nodes[i'] && Nodes[j] == nodes[j'];
      }
      forall i | 0 <= i < |Nodes|
        ensures Nodes[i].element == Contents[i]
      {
        if i >= pos {
          assert Nodes[i] == nodes[i + 1];
        }
      }
    }

    /** indexOf(c): the position of the first element equal to c, or -1. */
    method IndexOf(c: int) returns (i: int)
      requires Linked()
      ensures i == FirstIndex(Contents, c)
    {
      var count := 0;
      var current := head;
      while current != null
        invariant 0 <= count <= |Nodes|
        invariant current == (if count < |Nodes| then Nodes[count] else null)
        invariant c !in Contents[..count]
        decreases |Nodes| - count
      {
        if current.element == c {
          return count;
        }
        assert count < |Nodes| && current == Nodes[count];
        assert Nodes[count].next == (if count + 1 < |Nodes| then Nodes[count + 1] else null);
        assert Contents[..count + 1] == Contents[..count] + [Contents[count]];
        current := current.next;
        count := count + 1;
      }
      assert Contents[..count] == Contents;
      return -1;
    }

    /** contains(o): whether some element equals o, the same as indexOf(o) != -1. */
    method Contains(o: int) returns (b: bool)
      requires Linked()
      ensures b == (o in Contents)
      ensures b == (FirstIndex(Contents, o) != -1)
    {
      if head == null {
        return false;
      }
      var current := head;
      ghost var k := 0;
      while current != null
        invariant 0 <= k <= |Nodes|
        invariant current == (if k < |Nodes| then Nodes[k] else null)
        invariant o !in Contents[..k]
        decreases |Nodes| - k
      {
        if current.element == o {
          return true;
        }
        assert Nodes[k].next == (if k + 1 < |Nodes| then Nodes[k + 1] else null);
        assert Contents[..k + 1] == Contents[..k] + [Contents[k]];
        current := current.next;
        k := k + 1;
      }
      assert Contents[..k] == Contents;
      return false;
    }

    /**
     * remove(o): an absent o is answered false and nothing changes; otherwise the first
     * occurrence of o, and only that one, is removed, and the answer is true.
     */
    method RemoveObject(o: int) returns (b: bool)
      requires Valid()
      modifies Repr
      ensures Valid() && Repr == old(Repr)
      ensures b == (o in old(Contents))
      ensures !b ==> Contents == old(Contents)
      ensures b ==> Contents == Delete(old(Contents), FirstIndex(old(Contents), o))
    {
      var present := Contains(o);
      if !present {
        return false;
      }
      var index := IndexOf(o);
      var _ := RemoveAt(index);
      return true;
    }

    /**
     * equals(o): false for null and for a list of another size; otherwise the two chains are
     * walked together and compared element by element.
     */
    method Equals(other: LinkedList?) returns (b: bool)
      requires Linked()
      requires other != null ==> other.Linked()
      ensures b == (other != null && Contents == other.Contents)
    {
      if other == null {
        return false;
      }
      if size != other.size {
        return false;
      }
      var itA := head;
      var itB := other.head;
      ghost var k := 0;
      while itA != null
        invariant 0 <= k <= |Nodes|
        invariant itA == (if k < |Nodes| then Nodes[k] else null)
        invariant itB == (if k < |other.Nodes| then other.Nodes[k] else null)
        invariant Contents[..k] == other.Contents[..k]
        decreases |Nodes| - k
      {
        if itA.element != itB.element {
          assert Contents[k] != other.Contents[k];
          return false;
        }
        assert Nodes[k].next == (if k + 1 < |Nodes| then Nodes[k + 1] else null);
        assert other.Nodes[k].next == (if k + 1 < |other.Nodes| then other.Nodes[k + 1] else null);
        assert Contents[..k + 1] == Contents[..k] + [Contents[k]];
        assert other.Contents[..k + 1] == other.Contents[..k] + [other.Contents[k]];
        itA := itA.next;
        itB := itB.next;
        k := k + 1;
      }
      assert Contents[..k] == Contents && other.Contents[..k] == other.Contents;
      return true;
    }

    /** toArray(): a new array of length size holding the elements in list order. */
    method ToArray() returns (ret: array<int>)
      requires Linked()
      ensures fresh(ret) && ret.Length == size
      ensures ret[..] == Contents
    {
      var current := head;
      ret := new int[size];
      for i := 0 to size
        invariant current == (if i < |Nodes| then Nodes[i] else null)
        invariant ret[..i] == Contents[..i]
      {
        assert Nodes[i].next == (if i + 1 < |Nodes| then Nodes[i + 1] else null);
        ret[i] := current.element;
        current := current.next;
      }
      assert ret[..] == ret[..size];
    }
  }

  /**
   * The list iterator: a cursor on the node whose element comes next. The ghost index is the
   * cursor's position in the list.
   */
  class ListItr {
    var current: Node?
    ghost var list: LinkedList
    ghost var index: nat

    ghost predicate Valid()
      reads this, list, list.Repr
    {
      && list.Linked()
      && index <= |list.Contents|
      && current == (if index < |list.Nodes| then list.Nodes[index] else null)
    }

    constructor (l: LinkedList)
      requires l.Linked()
      ensures Valid() && list == l && index == 0
    {
      current := l.head;
      list := l;
      index := 0;
    }

    method HasNext() returns (b: bool)
      requires Valid()
      ensures b == (index < |list.Contents|)
    {
      b := current != null;
    }

    /** next(): the element under the cursor, which then moves on; past the end it throws. */
    method Next() returns (r: Result<int>)
      requires Valid()
      modifies this
      ensures Valid() && list == old(list)
      ensures old(index) < |list.Contents| ==> r == Success(list.Contents[old(index)]) && index == old(index) + 1
      ensures old(index) == |list.Contents| ==> r == Failure(NoSuchElement) && index == old(index)
    {
      if current == null {
        return Failure(NoSuchElement);
      }
      r := Success(current.element);
      current := current.next;
      index := index + 1;
    }
  }
}
