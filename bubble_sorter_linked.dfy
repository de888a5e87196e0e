/**
  BubbleSorterLinked: one pass of the sorter's outer loop over the linked list,
  walking prev/a/b from the sentinel and calling trySwapIfOutOfOrder.
*/
module BubbleSorterLinked {
  import opened JavaString
  import opened BubblePass
  import opened LinkedList

  class BubbleSorterLinked {
    const list: ConcurrentLinkedList
    /** The shared step counter, as a plain integer. */
    var steps: nat

    constructor (list: ConcurrentLinkedList, steps: nat)
      ensures this.list == list && this.steps == steps
    {
      this.list := list;
      this.steps := steps;
    }

    /**
      The state of the pass before the comparison at index i: prev is cell i
      (the sentinel is cell 0), a is the cell after it, the list is a
      reordering of the original cells, finishing the pass from here gives
      the pass of the original values, and i comparisons have been counted.
    */
    ghost predicate PassAt(i: nat, prev: Node, a: Node?, s0: seq<string>, cells: multiset<Node>, steps0: nat)
      reads this, list, list.nodes
    {
      && list.Valid()
      && multiset(list.nodes) == cells
      && |list.contents| == |s0|
      && i < |list.nodes| && prev == list.nodes[i]
      && (i == 0 || i + 1 < |list.nodes|)
      && a == (if i + 1 < |list.nodes| then list.nodes[i + 1] else null)
      && PassFrom(list.contents, i) == Pass(s0)
      && steps == steps0 + i
    }

    /**
      One pass: prev starts at the sentinel and a at the first cell; the pass
      ends when a or a.next is null. Each comparison counts one step.
    */
    method RunPass()
      requires list.Valid()
      modifies this, list, list.nodes
      ensures list.Valid()
      ensures list.contents == Pass(old(list.contents))
      ensures steps == old(steps) + PassSteps(|old(list.contents)|)
      ensures multiset(list.nodes) == multiset(old(list.nodes))
    {
      var prev := list.head;
      var a := prev.next;
      ghost var i := 0;
      while a != null && a.next != null
        invariant PassAt(i, prev, a, old(list.contents), multiset(old(list.nodes)), old(steps))
        decreases |old(list.contents)| + 1 - i
      {
        assert a.next == list.nodes[i + 2];
        SameCellsAt(list.nodes, old(list.nodes), i);
        prev, a := Step(i, prev, a, old(list.contents), multiset(old(list.nodes)), old(steps));
        i := i + 1;
      }
      assert i + 1 == |list.nodes| || i + 2 == |list.nodes|;
      assert PassFrom(list.contents, i) == list.contents;
    }

    /** One iteration of the pass: count the step and compare cells i+1 and i+2. */
    method Step(ghost i: nat, prev: Node, a: Node, ghost s0: seq<string>, ghost cells: multiset<Node>, ghost steps0: nat)
      returns (prev': Node, a': Node?)
      requires PassAt(i, prev, a, s0, cells, steps0) && a.next != null
      modifies this, list, prev, a, a.next
      ensures PassAt(i + 1, prev', a', s0, cells, steps0)
    {
      steps := steps + 1;
      ghost var before := list.contents;
      assert a.next == list.nodes[i + 2];
      prev', a' := CompareAt(i, prev, a);
      assert PassFrom(before, i) == PassFrom(list.contents, i + 1);
    }

    /**
      One comparison of the pass at cells i+1 and i+2 (after the sentinel at 0).
      After a swap prev moves to the former b and a stays the same cell, now
      one position further; otherwise prev := a and a := a.next. Either way
      the new prev is the cell at position i+1.
    */
    method CompareAt(ghost i: nat, prev: Node, a: Node) returns (prev': Node, a': Node?)
      requires list.Valid() && i + 2 < |list.nodes|
      requires prev == list.nodes[i] && a == list.nodes[i + 1]
      modifies list, prev, a, a.next
      ensures list.Valid() && multiset(list.nodes) == multiset(old(list.nodes))
      ensures list.contents == SwapIfOutOfOrder(old(list.contents), i)
      ensures prev' == list.nodes[i + 1]
      ensures a' == (if i + 2 < |list.nodes| then list.nodes[i + 2] else null)
    {
      var b := a.next;
      ghost var before := list.contents;
      ghost var beforeNodes := list.nodes;
      assert b == list.nodes[i + 2];
      assert a.value == before[i] && b.value == before[i + 1];
      assert list.IndexOf(prev) == i;
      var swapped := list.TrySwapIfOutOfOrder(prev, a, b);
      if swapped {
        SwapAdjacentFacts(before, i);
        SwapAdjacentFacts(beforeNodes, i + 1);
        prev' := b;
        a' := b.next;
      } else {
        prev' := a;
        a' := a.next;
      }
    }
  }

  /** Cells i, i+1 and i+2 of a reordering of t are cells of t. */
  lemma SameCellsAt(s: seq<Node>, t: seq<Node>, i: nat)
    requires multiset(s) == multiset(t) && i + 2 < |s|
    ensures s[i] in t && s[i + 1] in t && s[i + 2] in t
  {
    assert s[i] in multiset(s) && s[i + 1] in multiset(s) && s[i + 2] in multiset(s);
  }
}
