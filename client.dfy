/**
 * Consumers of the heap that rely on its contracts alone, after the pattern
 * of the test program: repeated deleteMin yields the stored items in
 * non-decreasing order.
 */
module HeapClient {
  import opened HeapErrors
  import opened DHeaps

  /** Each element is no larger than the next. */
  predicate NonDecreasing(s: seq<int>)
    decreases |s|
  {
    |s| < 2 || (s[0] <= s[1] && NonDecreasing(s[1..]))
  }

  /** Appending an element no smaller than the last keeps a sequence non-decreasing. */
  lemma {:induction false} AppendSorted(s: seq<int>, v: int)
    requires NonDecreasing(s) && (0 < |s| ==> s[|s| - 1] <= v)
    ensures NonDecreasing(s + [v])
    decreases |s|
  {
    if 2 <= |s| {
      assert (s + [v])[1..] == s[1..] + [v];
      AppendSorted(s[1..], v);
    }
  }

  /** The head of a non-decreasing sequence is no larger than any of its elements. */
  lemma {:induction false} HeadIsLeast(a: seq<int>, x: int)
    requires NonDecreasing(a) && x in multiset(a)
    ensures 0 < |a| && a[0] <= x
    decreases |a|
  {
    assert 0 < |a|;
    if a[0] != x {
      TailElements(a);
      assert x in multiset(a[1..]);
      HeadIsLeast(a[1..], x);
    }
  }

  /** Dropping the head of a sequence drops one copy of it from its elements. */
  lemma TailElements(a: seq<int>)
    requires 0 < |a|
    ensures multiset(a[1..]) == multiset(a) - multiset{a[0]}
  {
    assert a == [a[0]] + a[1..];
  }

  /** Two non-decreasing sequences with the same elements start alike and agree on the elements of their tails. */
  lemma SameHead(a: seq<int>, b: seq<int>)
    requires NonDecreasing(a) && NonDecreasing(b) && multiset(a) == multiset(b) && 0 < |a|
    ensures 0 < |b| && a[0] == b[0] && multiset(a[1..]) == multiset(b[1..])
  {
    assert a[0] in multiset(a);
    HeadIsLeast(b, a[0]);
    assert b[0] in multiset(b);
    HeadIsLeast(a, b[0]);
    TailElements(a);
    TailElements(b);
  }

  /** Two non-decreasing sequences with the same elements are equal. */
  lemma {:induction false} SortedIsDeterminedByContents(a: seq<int>, b: seq<int>)
    requires NonDecreasing(a) && NonDecreasing(b) && multiset(a) == multiset(b)
    ensures a == b
    decreases |a|
  {
    if |a| == 0 {
      assert |b| == |multiset(b)| == 0;
    } else {
      SameHead(a, b);
      SortedIsDeterminedByContents(a[1..], b[1..]);
      assert a == [a[0]] + a[1..];
      assert b == [b[0]] + b[1..];
    }
  }

  /** One round of a drain: moving a least element m of the heap's contents to the output keeps the drain's state. */
  lemma DrainStep(out: seq<int>, before: multiset<int>, after: multiset<int>, m: int, total: multiset<int>)
    requires multiset(out) + before == total && NonDecreasing(out)
    requires 0 < |out| ==> forall y :: y in before ==> out[|out| - 1] <= y
    requires m in before && (forall x :: x in before ==> m <= x) && after == before - multiset{m}
    ensures multiset(out + [m]) + after == total && NonDecreasing(out + [m])
    ensures forall y :: y in after ==> (out + [m])[|out + [m]| - 1] <= y
  {
    AppendSorted(out, m);
    assert multiset(out + [m]) == multiset(out) + multiset{m};
    forall y | y in after
      ensures m <= y
    {
      assert y in before;
    }
  }

  /** Empties the heap by repeated deleteMin; the minima come out sorted and are exactly the former contents. */
  method DrainAll(h: DHeap) returns (out: seq<int>)
    requires h.Valid()
    modifies h, h.storage
    ensures h.Valid() && h.IsEmpty() && h.storage == old(h.storage)
    ensures multiset(out) == old(h.Elements())
    ensures NonDecreasing(out)
  {
    out := [];
    while !h.IsEmpty()
      invariant h.Valid() && h.storage == old(h.storage)
      invariant multiset(out) + h.Elements() == old(h.Elements())
      invariant NonDecreasing(out)
      invariant 0 < |out| ==> forall y :: y in h.Elements() ==> out[|out| - 1] <= y
      decreases h.currentSize
    {
      ghost var before := h.Elements();
      var r := h.DeleteMin();
      DrainStep(out, before, h.Elements(), r.value, old(h.Elements()));
      out := out + [r.value];
    }
  }

  /** The sample items in order. */
  lemma SampleSorted()
    ensures NonDecreasing([1, 2, 3, 5, 8, 9])
  {
    assert NonDecreasing([8, 9]);
    assert NonDecreasing([3, 5, 8, 9]);
  }

  /** The sample items and their sorted order hold the same elements. */
  lemma SampleContents()
    ensures multiset([5, 3, 8, 1, 9, 2]) == multiset([1, 2, 3, 5, 8, 9])
  {
  }

  /** Bulk-loads 5, 3, 8, 1, 9, 2 and drains the heap: the minima come out as 1, 2, 3, 5, 8, 9, then deleteMin underflows. */
  method DrainBulkLoaded() returns (out: seq<int>, last: Result<int>)
    ensures out == [1, 2, 3, 5, 8, 9]
    ensures last == Err(Underflow)
  {
    var h := new DHeap.FromItems([5, 3, 8, 1, 9, 2]);
    out := DrainAll(h);
    SampleSorted();
    SampleContents();
    SortedIsDeterminedByContents(out, [1, 2, 3, 5, 8, 9]);
    assert out == [1, 2, 3, 5, 8, 9];
    assert h.FindMin() == Err(Underflow);
    last := h.DeleteMin();
  }
}
