/**
 * The bulk constructor as written leaves the branching factor at 0. With
 * d = 0, firstChildIndex answers 2 for every node and the loop of
 * smallestChildIndex runs no iteration, so smallestChildIndex answers 2
 * whenever slot 2 is occupied. percolateDown then moves its hole to slot 2
 * and, from there, keeps copying slot 2 onto itself.
 */
module BulkLoadFinding {
  import opened HeapIndex

  /** One round of percolateDown's loop: either it exits, or it copies a child up and moves the hole there. */
  datatype Round = Exit | Moved(slots: seq<int>, hole: int)

  /** smallestChildIndex as written with dimension 0: the loop from 1 to dimension runs no iteration. */
  function SmallestChildIndexAtZero(n: nat, index: int): (c: int)
    requires index >= 1
    ensures c == 2 || c == n + 1
    ensures c <= n <==> 2 <= n
  {
    ZeroDimensionFirstChildIsSelf(index);
    var firstChild := FirstChildIndex(0, index).value;
    if firstChild > n then n + 1 else firstChild
  }

  /** One round of percolateDown's loop as written with dimension 0, tmp being the element sifted. */
  function PercolateRoundAtZero(a: seq<int>, n: nat, hole: int, tmp: int): (r: Round)
    requires 1 <= hole < |a| && n < |a|
    ensures r.Moved? <==> 2 <= n && tmp >= a[2]
    ensures r.Moved? ==> r.hole == 2 && r.slots == a[hole := a[2]]
  {
    var c := SmallestChildIndexAtZero(n, hole);
    if c <= n && tmp >= a[c] then Moved(a[hole := a[c]], c) else Exit
  }

  /**
   * percolateDown's loop as written with dimension 0, run for at most fuel
   * rounds: the state reached after fuel rounds, or Exit if it ends sooner.
   * Every round that runs leaves the hole at slot 2.
   */
  function RunAtZero(a: seq<int>, n: nat, hole: int, tmp: int, fuel: nat): (r: Round)
    requires 1 <= hole < |a| && n < |a|
    ensures r.Moved? ==> |r.slots| == |a| && (r.hole == hole || r.hole == 2)
    ensures r.Moved? && fuel > 0 ==> r.hole == 2
    decreases fuel
  {
    if fuel == 0 then
      Moved(a, hole)
    else
      match PercolateRoundAtZero(a, n, hole, tmp)
      case Exit => Exit
      case Moved(b, c) => RunAtZero(b, n, c, tmp, fuel - 1)
  }

  /** Once the hole is at slot 2 and tmp is no smaller than slot 2, no number of rounds ends the loop. */
  lemma {:induction false} PercolationAtZeroNeverEnds(a: seq<int>, n: nat, tmp: int, fuel: nat)
    requires 2 <= n < |a| && tmp >= a[2]
    ensures RunAtZero(a, n, 2, tmp, fuel) == Moved(a, 2)
    decreases fuel
  {
    if fuel > 0 {
      assert a[2 := a[2]] == a;
      PercolationAtZeroNeverEnds(a, n, tmp, fuel - 1);
    }
  }

  /**
   * percolateDown(i) as written with dimension 0, on any occupied hole: when
   * tmp is smaller than slot 2 the loop exits at once with nothing moved;
   * otherwise slot 2 is copied into the hole and the loop never ends.
   */
  lemma PercolateAtZero(a: seq<int>, n: nat, i: int, fuel: nat)
    requires 2 <= n < |a| && 1 <= i <= n && 0 < fuel
    ensures a[i] < a[2] ==> RunAtZero(a, n, i, a[i], fuel) == Exit
    ensures a[i] >= a[2] ==> RunAtZero(a, n, i, a[i], fuel) == Moved(a[i := a[2]], 2)
  {
    if a[i] >= a[2] {
      assert a[i := a[2]][2] == a[2];
      PercolationAtZeroNeverEnds(a[i := a[2]], n, a[i], fuel - 1);
    }
  }

  /**
   * buildHeap as written on four or more items reaches percolateDown(2),
   * every earlier call having exited at once or hung; there tmp is slot 2
   * itself, so the loop never ends.
   */
  lemma PercolateTwoAtZeroNeverEnds(a: seq<int>, n: nat, fuel: nat)
    requires 2 <= n < |a|
    ensures RunAtZero(a, n, 2, a[2], fuel) == Moved(a, 2)
  {
    PercolationAtZeroNeverEnds(a, n, a[2], fuel);
  }

  /**
   * Bulk-loading 5 and 3 into its (2 + 2) * 11 / 10 = 4 slots: buildHeap
   * calls percolateDown(1) with tmp = 5; the first round moves 3 to the root
   * and the hole to slot 2, and after that the loop never ends.
   */
  lemma BulkLoadOfFiveThreeNeverEnds(fuel: nat)
    ensures PercolateRoundAtZero([0, 5, 3, 0], 2, 1, 5) == Moved([0, 3, 3, 0], 2)
    ensures RunAtZero([0, 3, 3, 0], 2, 2, 5, fuel) == Moved([0, 3, 3, 0], 2)
  {
    assert [0, 5, 3, 0][1 := 3] == [0, 3, 3, 0];
    PercolationAtZeroNeverEnds([0, 3, 3, 0], 2, 5, fuel);
  }
}
