/**
  One pass of bubble sort over a list of strings, the specification that both
  the array-backed sorter and the linked-list sorter implement.
  A pass visits i = 0 .. n-2 and swaps positions i and i+1 exactly when
  list[i].compareTo(list[i+1]) > 0.
*/
module BubblePass {
  import opened JavaString

  /** Positions i and i+1 exchanged when they are out of order, the list itself otherwise. */
  function SwapIfOutOfOrder(s: seq<string>, i: nat): (r: seq<string>)
    requires i + 1 < |s|
    ensures |r| == |s|
  {
    if CompareTo(s[i], s[i + 1]) > 0 then s[..i] + [s[i + 1], s[i]] + s[i + 2..] else s
  }

  /** The rest of a pass that has already visited indices 0 .. i-1. */
  function PassFrom(s: seq<string>, i: nat): (r: seq<string>)
    decreases |s| - i
  {
    if i + 1 < |s| then PassFrom(SwapIfOutOfOrder(s, i), i + 1) else s
  }

  /** A whole pass, starting at index 0. */
  function Pass(s: seq<string>): seq<string>
  {
    PassFrom(s, 0)
  }

  /** The number of comparisons a pass over n elements makes: one per visited index. */
  function PassSteps(n: nat): nat
  {
    if n == 0 then 0 else n - 1
  }

  predicate Sorted(s: seq<string>)
  {
    forall i :: 0 <= i < |s| - 1 ==> CompareTo(s[i], s[i + 1]) <= 0
  }

  /** The element at index m is a maximum of s[..k]. */
  predicate MaxOfPrefix(s: seq<string>, k: nat, m: nat)
    requires k <= |s| && m < |s|
  {
    forall j :: 0 <= j < k ==> CompareTo(s[j], s[m]) <= 0
  }

  lemma SwapIfOutOfOrderPermutes(s: seq<string>, i: nat)
    requires i + 1 < |s|
    ensures multiset(SwapIfOutOfOrder(s, i)) == multiset(s)
  {
    if CompareTo(s[i], s[i + 1]) > 0 {
      assert s == s[..i] + [s[i], s[i + 1]] + s[i + 2..];
    }
  }

  /** A pass keeps the length and rearranges the elements: the multiset is unchanged. */
  lemma {:induction false} PassFromPermutes(s: seq<string>, i: nat)
    ensures |PassFrom(s, i)| == |s|
    ensures multiset(PassFrom(s, i)) == multiset(s)
    decreases |s| - i
  {
    if i + 1 < |s| {
      SwapIfOutOfOrderPermutes(s, i);
      PassFromPermutes(SwapIfOutOfOrder(s, i), i + 1);
    }
  }

  lemma PassPermutes(s: seq<string>)
    ensures |Pass(s)| == |s| && multiset(Pass(s)) == multiset(s)
  {
    PassFromPermutes(s, 0);
  }

  /** One step carries a maximum of s[..i+1] at i on to index i+1. */
  lemma SwapCarriesMax(s: seq<string>, i: nat)
    requires i + 1 < |s| && MaxOfPrefix(s, i + 1, i)
    ensures MaxOfPrefix(SwapIfOutOfOrder(s, i), i + 2, i + 1)
  {
    var t := SwapIfOutOfOrder(s, i);
    if CompareTo(s[i], s[i + 1]) > 0 {
      CompareToAntisymmetric(s[i], s[i + 1]);
      forall j | 0 <= j < i + 2 ensures CompareTo(t[j], t[i + 1]) <= 0 {
        if j == i { assert t[j] == s[i + 1]; }
      }
    } else {
      forall j | 0 <= j < i + 2 ensures CompareTo(t[j], t[i + 1]) <= 0 {
        if j < i + 1 { CompareToTransitive(s[j], s[i], s[i + 1]); }
      }
    }
  }

  lemma {:induction false} PassFromCarriesMax(s: seq<string>, i: nat)
    requires i < |s| && MaxOfPrefix(s, i + 1, i)
    ensures |PassFrom(s, i)| == |s| && MaxOfPrefix(PassFrom(s, i), |s|, |s| - 1)
    decreases |s| - i
  {
    if i + 1 < |s| {
      var t := SwapIfOutOfOrder(s, i);
      SwapCarriesMax(s, i);
      PassFromCarriesMax(t, i + 1);
      assert PassFrom(s, i) == PassFrom(t, i + 1);
    } else {
      assert PassFrom(s, i) == s && i + 1 == |s|;
    }
  }

  /** After a full pass the last element is a maximum of the list. */
  lemma PassMovesMaxToEnd(s: seq<string>)
    requires |s| > 0
    ensures |Pass(s)| == |s|
    ensures forall j :: 0 <= j < |s| ==> CompareTo(Pass(s)[j], Pass(s)[|s| - 1]) <= 0
  {
    PassFromCarriesMax(s, 0);
  }

  lemma {:induction false} PassFromSortedUnchanged(s: seq<string>, i: nat)
    requires Sorted(s)
    ensures PassFrom(s, i) == s
    decreases |s| - i
  {
    if i + 1 < |s| {
      assert SwapIfOutOfOrder(s, i) == s;
      PassFromSortedUnchanged(s, i + 1);
    }
  }

  /** A pass leaves an already sorted list unchanged. */
  lemma PassSortedUnchanged(s: seq<string>)
    requires Sorted(s)
    ensures Pass(s) == s
  {
    PassFromSortedUnchanged(s, 0);
  }
}
