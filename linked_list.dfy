/**
  ConcurrentLinkedList: a singly linked list of strings behind a sentinel head
  node, with insertion at the front, an in-place swap of two adjacent nodes
  used by the linked bubble sorter, and an iterator.
  The per-node locks are left out; the model is sequential.
*/
module LinkedList {
  import opened JavaString
  import opened Wrappers

  /** A list cell: its value and the link to the next cell (null at the end). */
  class Node {
    var value: string
    var next: Node?

    constructor (v: string)
      ensures value == v && next == null
    {
      value := v;
      next := null;
    }
  }

  datatype IteratorError = NoSuchElement

  class ConcurrentLinkedList {
    /** The sentinel; its value is never read. */
    const head: Node
    var size: nat
    /** The cells in link order, starting with the sentinel. */
    ghost var nodes: seq<Node>
    /** The values of the cells after the sentinel, in link order. */
    ghost var contents: seq<string>

    ghost predicate Valid()
      reads this, nodes
    {
      && |nodes| == |contents| + 1
      && nodes[0] == head
      && (forall i, j :: 0 <= i < j < |nodes| ==> nodes[i] != nodes[j])
      && (forall i :: 0 <= i < |nodes| - 1 ==> nodes[i].next == nodes[i + 1])
      && nodes[|nodes| - 1].next == null
      && (forall i :: 0 <= i < |contents| ==> nodes[i + 1].value == contents[i])
      && size == |contents|
    }

    /** The position of a cell in link order (0 for the sentinel). */
    ghost function IndexOf(n: Node): (i: nat)
      reads this, nodes
      requires Valid() && n in nodes
      ensures i < |nodes| && nodes[i] == n
    {
      var i :| 0 <= i < |nodes| && nodes[i] == n; i
    }

    constructor ()
      ensures Valid() && contents == [] && fresh(nodes[0])
    {
      var h := new Node("");
      head := h;
      size := 0;
      nodes := [h];
      contents := [];
    }

    /** addFirst: the new value becomes the first one, the rest is unchanged. */
    method AddFirst(s: string)
      requires Valid()
      modifies this, head
      ensures Valid()
      ensures contents == [s] + old(contents)
      ensures size == old(size) + 1
      ensures nodes[0] == old(nodes)[0] && fresh(nodes[1]) && nodes[2..] == old(nodes)[1..]
    {
      var n := new Node(s);
      n.next := head.next;
      head.next := n;
      size := size + 1;
      nodes := [head, n] + nodes[1..];
      contents := [s] + contents;
    }

    method Size() returns (n: nat)
      requires Valid()
      ensures n == |contents|
    {
      n := size;
    }

    /**
      trySwapIfOutOfOrder(prev, a, b): when prev -> a -> b are adjacent in that
      order and a.value.compareTo(b.value) > 0, relinks them to prev -> b -> a
      and returns true; otherwise changes nothing and returns false.
      The Java method dereferences a and b (lock and unlock) before any check,
      so a and b are non-null here.
    */
    method TrySwapIfOutOfOrder(prev: Node, a: Node, b: Node) returns (swapped: bool)
      requires Valid() && prev in nodes && a in nodes && b in nodes
      modifies this, prev, a, b
      ensures Valid() && size == old(size)
      ensures swapped <==> old(prev.next) == a && old(a.next) == b && CompareTo(old(a.value), old(b.value)) > 0
      ensures !swapped ==> unchanged(this, prev, a, b)
      ensures swapped ==> prev.next == b && b.next == a && a.next == old(b.next)
      ensures multiset(nodes) == multiset(old(nodes))
      ensures swapped ==>
        var i := old(IndexOf(prev));
        i + 1 < |old(contents)| && contents == SwapAdjacent(old(contents), i) &&
        nodes == SwapAdjacent(old(nodes), i + 1)
    {
      if prev.next != a || a.next != b {
        return false;
      }
      ghost var i := IndexOf(prev);
      assert nodes[i + 1] == a && nodes[i + 2] == b;
      if CompareTo(a.value, b.value) > 0 {
        Relink(i, prev, a, b);
        SwapAdjacentFacts(old(nodes), i + 1);
        return true;
      }
      return false;
    }

    /** The three assignments of a successful swap: prev -> b -> a -> (old b.next). */
    method Relink(ghost i: nat, prev: Node, a: Node, b: Node)
      requires Valid() && i + 2 < |nodes|
      requires nodes[i] == prev && nodes[i + 1] == a && nodes[i + 2] == b
      modifies this, prev, a, b
      ensures Valid() && size == old(size)
      ensures prev.next == b && b.next == a && a.next == old(b.next)
      ensures prev.value == old(prev.value) && a.value == old(a.value) && b.value == old(b.value)
      ensures nodes == SwapAdjacent(old(nodes), i + 1)
      ensures contents == SwapAdjacent(old(contents), i)
    {
      ghost var oldNodes := nodes;
      SwapAdjacentDistinct(nodes, i + 1);
      a.next := b.next;
      b.next := a;
      prev.next := b;
      nodes := SwapAdjacent(nodes, i + 1);
      contents := SwapAdjacent(contents, i);
      forall j | 0 <= j < |nodes| - 1 ensures nodes[j].next == nodes[j + 1] {
        if j < i || j > i + 2 {
          assert nodes[j] == oldNodes[j] && nodes[j + 1] == oldNodes[j + 1];
          assert oldNodes[j] != prev && oldNodes[j] != a && oldNodes[j] != b;
          assert oldNodes[j].next == old(oldNodes[j].next);
        }
      }
      forall j | 0 <= j < |contents| ensures nodes[j + 1].value == contents[j] {
        assert nodes[j + 1] == oldNodes[Transposed(j, i) + 1];
      }
      assert nodes[|nodes| - 1].next == null by {
        if i + 3 < |nodes| {
          assert nodes[|nodes| - 1] == oldNodes[|nodes| - 1];
        }
      }
    }

    method Iterator() returns (it: ListIterator)
      requires Valid()
      ensures fresh(it) && it.Valid() && it.list == this && it.position == 1
    {
      it := new ListIterator(this);
    }
  }

  /** s with the elements at positions p and p+1 exchanged. */
  function SwapAdjacent<T>(s: seq<T>, p: nat): (r: seq<T>)
    requires p + 1 < |s|
    ensures |r| == |s|
  {
    seq(|s|, j requires 0 <= j < |s| => s[Transposed(j, p)])
  }

  lemma SwapAdjacentFacts<T>(s: seq<T>, p: nat)
    requires p + 1 < |s|
    ensures SwapAdjacent(s, p) == s[..p] + [s[p + 1], s[p]] + s[p + 2..]
    ensures multiset(SwapAdjacent(s, p)) == multiset(s)
  {
    assert SwapAdjacent(s, p) == s[..p] + [s[p + 1], s[p]] + s[p + 2..];
    assert s == s[..p] + [s[p], s[p + 1]] + s[p + 2..];
  }

  lemma SwapAdjacentDistinct<T>(s: seq<T>, p: nat)
    requires p + 1 < |s|
    requires forall j, k :: 0 <= j < k < |s| ==> s[j] != s[k]
    ensures forall j, k :: 0 <= j < k < |s| ==> SwapAdjacent(s, p)[j] != SwapAdjacent(s, p)[k]
  {
    var r := SwapAdjacent(s, p);
    forall j, k | 0 <= j < k < |s| ensures r[j] != r[k] {
      assert r[j] == s[Transposed(j, p)] && r[k] == s[Transposed(k, p)];
    }
  }

  /** The index that position j moves to when positions p and p+1 are exchanged. */
  function Transposed(j: nat, p: nat): (t: nat)
    ensures t == j || (j == p && t == p + 1) || (j == p + 1 && t == p)
  {
    if j == p then p + 1 else if j == p + 1 then p else j
  }

  /** The list's iterator: walks the links from head.next, never returning the sentinel. */
  class ListIterator {
    const list: ConcurrentLinkedList
    var cur: Node?
    /** Index in list.nodes of cur; |list.nodes| once cur is null. */
    ghost var position: nat

    ghost predicate Valid()
      reads this, list, list.nodes
    {
      && list.Valid()
      && 1 <= position <= |list.nodes|
      && cur == (if position < |list.nodes| then list.nodes[position] else null)
    }

    constructor (list: ConcurrentLinkedList)
      requires list.Valid()
      ensures Valid() && this.list == list && position == 1
    {
      this.list := list;
      cur := list.head.next;
      position := 1;
    }

    method HasNext() returns (b: bool)
      requires Valid()
      ensures b <==> position < |list.nodes|
    {
      b := cur != null;
    }

    /** next(): the value at the current position, or NoSuchElement past the end. */
    method Next() returns (r: Result<string, IteratorError>)
      requires Valid()
      modifies this
      ensures Valid()
      ensures old(position) < |list.nodes| ==>
        r == Ok(list.contents[old(position) - 1]) && position == old(position) + 1
      ensures old(position) == |list.nodes| ==> r == Err(NoSuchElement) && position == old(position)
    {
      if cur == null {
        return Err(NoSuchElement);
      }
      var v := cur.value;
      cur := cur.next;
      position := position + 1;
      r := Ok(v);
    }
  }
}
