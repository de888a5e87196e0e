/**
  BubbleSorterArray: one pass of the sorter's outer loop over an array-backed
  list of strings, counting one step per visited index.
*/
module BubbleSorterArray {
  import opened JavaString
  import opened BubblePass

  class BubbleSorterArray {
    const list: array<string>
    /** The shared step counter, as a plain integer. */
    var steps: nat

    constructor (list: array<string>, steps: nat)
      ensures this.list == list && this.steps == steps
    {
      this.list := list;
      this.steps := steps;
    }

    /**
      One pass: n is fixed at the start, indices i = 0 .. n-2 are visited,
      each visit counts one step and swaps list[i], list[i+1] when
      list[i].compareTo(list[i+1]) > 0.
    */
    method RunPass()
      modifies this, list
      ensures list[..] == Pass(old(list[..]))
      ensures steps == old(steps) + PassSteps(list.Length)
    {
      var n := list.Length;
      var i := 0;
      while i + 1 < n
        invariant 0 <= i <= PassSteps(n)
        invariant PassFrom(list[..], i) == Pass(old(list[..]))
        invariant steps == old(steps) + i
      {
        ghost var before := list[..];
        steps := steps + 1;
        if i + 1 < list.Length {
          var a := list[i];
          var b := list[i + 1];
          if CompareTo(a, b) > 0 {
            list[i], list[i + 1] := b, a;
          }
        }
        assert list[..] == SwapIfOutOfOrder(before, i);
        i := i + 1;
      }
    }
  }
}
