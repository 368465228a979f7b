/**
 * Index arithmetic of a d-ary heap stored from slot 1 of an array:
 * the children of node i are the d slots (i-1)*d+2 .. i*d+1, and the
 * parent of node i (i >= 2) is (i+d-2)/d.
 */
module HeapIndex {
  import opened HeapErrors

  /** Parent of node i; the unchecked core of ParentIndex. */
  function Parent(d: int, i: int): (p: int)
    requires d >= 2 && i >= 2
    ensures 1 <= p < i
  {
    ParentBounds(d, i);
    (i + d - 2) / d
  }

  /** First child of node i; the unchecked core of FirstChildIndex. From node 1 on it is slot 2 or later, and exactly slot 2 when d is 0. */
  function FirstChild(d: int, i: int): (c: int)
    ensures i >= 1 && d >= 0 ==> c >= 2
    ensures d == 0 ==> c == 2
  {
    (i - 1) * d + 2
  }

  /** parentIndex: fails on the root and below, otherwise returns the node whose children include index. */
  function ParentIndex(d: int, index: int): (r: Result<int>)
    requires d >= 2
    ensures r.Err? <==> index < 2
    ensures r.Err? ==> r.error == IllegalArgument
    ensures r.Ok? ==> 1 <= r.value < index
    ensures r.Ok? ==> FirstChild(d, r.value) <= index < FirstChild(d, r.value) + d
  {
    if index < 2 then
      Err(IllegalArgument)
    else
      ParentOfChild(d, Parent(d, index), index);
      Ok(Parent(d, index))
  }

  /**
   * firstChildIndex: fails below node 1; for d >= 2 the first child lies past
   * the node, and each of the d slots from it has index as its parent.
   */
  function FirstChildIndex(d: int, index: int): (r: Result<int>)
    ensures r.Err? <==> index < 1
    ensures r.Err? ==> r.error == IllegalArgument
    ensures r.Ok? && d >= 2 ==> index < r.value
    ensures r.Ok? && d >= 2 ==> forall c :: r.value <= c < r.value + d ==> Parent(d, c) == index
  {
    if index < 1 then
      Err(IllegalArgument)
    else
      ChildBlock(d, index);
      Ok(FirstChild(d, index))
  }

  /** For d >= 2, the block of d slots from FirstChild(d, i) lies past i and each slot has parent i. */
  lemma ChildBlock(d: int, i: int)
    requires i >= 1
    ensures d >= 2 ==> i < FirstChild(d, i)
    ensures d >= 2 ==> forall c :: FirstChild(d, i) <= c < FirstChild(d, i) + d ==> Parent(d, c) == i
  {
    if d >= 2 {
      MulMono(2, d, i - 1);
      assert i < FirstChild(d, i);
      forall c | FirstChild(d, i) <= c < FirstChild(d, i) + d
        ensures Parent(d, c) == i
      {
        ParentOfChild(d, i, c);
      }
    }
  }

  /** The parent/child inverse law: c is a child of h exactly when c lies in h's block of d slots. */
  lemma ParentOfChild(d: int, h: int, c: int)
    requires d >= 2 && h >= 1 && c >= 2
    ensures Parent(d, c) == h <==> FirstChild(d, h) <= c < FirstChild(d, h) + d
  {
    assert FirstChild(d, h) == h * d - d + 2;
    DivCharacterization(c + d - 2, d, h);
  }

  /** Every node of 2..n has its parent in 1..n/2, so a bottom-up build may start at n/2. */
  lemma ParentAtMostHalf(d: int, n: int, j: int)
    requires d >= 2 && 2 <= j <= n
    ensures Parent(d, j) <= n / 2
  {
    var p := Parent(d, j);
    DivCharacterization(j + d - 2, d, p);
    assert (p - 1) * d <= n - 2;
    MulMono(2, d, p - 1);
    assert 2 * (p - 1) <= n - 2;
  }

  /**
   * With a branching factor of 0 (what the bulk constructor leaves in place),
   * every node's first child is slot 2, node 2 included, so a percolation
   * that moves its hole to the first child never leaves slot 2.
   */
  lemma ZeroDimensionFirstChildIsSelf(index: int)
    requires index >= 1
    ensures FirstChildIndex(0, index) == Ok(2)
  {
  }

  // ---- Arithmetic helpers ----

  lemma MulMono(a: int, b: int, d: int)
    requires a <= b && d >= 0
    ensures a * d <= b * d
  {
  }

  /** x / d == q exactly when q*d <= x < q*d + d. */
  lemma DivCharacterization(x: int, d: int, q: int)
    requires d > 0
    ensures x / d == q <==> q * d <= x < q * d + d
  {
    var q0, r0 := x / d, x % d;
    assert x == q0 * d + r0 && 0 <= r0 < d;
    if q * d <= x < q * d + d {
      if q0 < q {
        MulMono(q0 + 1, q, d);
      } else if q < q0 {
        MulMono(q + 1, q0, d);
      }
    }
  }

  /** For d >= 2 and i >= 2, (i + d - 2) / d lies in [1, i). */
  lemma ParentBounds(d: int, i: int)
    requires d >= 2 && i >= 2
    ensures 1 <= (i + d - 2) / d < i
  {
    var q := (i + d - 2) / d;
    DivCharacterization(i + d - 2, d, q);
    if q < 1 {
      MulMono(q, 0, d);
    }
    if q >= i {
      MulMono(i, q, d);
      MulMono(2, d, i - 1);
    }
  }
}
