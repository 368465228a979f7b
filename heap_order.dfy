/**
 * Heap order over the slots 1..n of a sequence, the subtree structure the
 * index arithmetic induces, and the states of the three loops that restore
 * heap order: the sift-down loop of percolateDown, the sift-up loop of
 * insert and the bottom-up loop of buildHeap.
 */
module HeapOrder {
  import opened HeapIndex

  /** The multiset of elements held in slots 1..n. */
  ghost function Stored(a: seq<int>, n: nat): multiset<int>
    requires n < |a|
  {
    multiset(a[1..n + 1])
  }

  /** Heap order: no element of slots 2..n is smaller than its parent. */
  ghost predicate HeapOrdered(a: seq<int>, d: int, n: nat)
    requires d >= 2 && n < |a|
  {
    forall j :: 2 <= j <= n ==> a[Parent(d, j)] <= a[j]
  }

  /** Node k lies in the subtree rooted at node h (k is h or one of its descendants). */
  ghost predicate InSubtree(d: int, k: int, h: int)
    requires d >= 2
    decreases k
  {
    k == h || (k >= 2 && k > h && InSubtree(d, Parent(d, k), h))
  }

  /** Every parent-child edge inside the subtree rooted at h is ordered. */
  ghost predicate SubtreeOrdered(a: seq<int>, d: int, n: nat, h: int)
    requires d >= 2 && n < |a|
  {
    forall j :: 2 <= j <= n && InSubtree(d, Parent(d, j), h) ==> a[Parent(d, j)] <= a[j]
  }

  /** The subtrees rooted at the children of h are ordered; the edges out of h itself need not be. */
  ghost predicate ChildSubtreesOrdered(a: seq<int>, d: int, n: nat, h: int)
    requires d >= 2 && n < |a|
  {
    forall j :: 2 <= j <= n && Parent(d, j) != h && InSubtree(d, Parent(d, j), h) ==> a[Parent(d, j)] <= a[j]
  }

  /** Every edge whose parent lies past node i is ordered: the state of a bottom-up build about to fix node i. */
  ghost predicate OrderedBeyond(a: seq<int>, d: int, n: nat, i: int)
    requires d >= 2 && n < |a|
  {
    forall j :: 2 <= j <= n && Parent(d, j) > i ==> a[Parent(d, j)] <= a[j]
  }

  /** b agrees with a everywhere except on the occupied slots of the subtree rooted at h. */
  ghost predicate SameOutside(b: seq<int>, a: seq<int>, d: int, n: nat, h: int)
    requires d >= 2 && |b| == |a|
  {
    forall k :: 0 <= k < |a| && !(k <= n && InSubtree(d, k, h)) ==> b[k] == a[k]
  }

  /**
   * c is the answer smallestChildIndex gives for node h: n + 1 when h has no
   * child in 1..n, otherwise the leftmost child in range holding the least element.
   */
  ghost predicate IsSmallestChild(a: seq<int>, d: int, n: nat, h: int, c: int)
    requires d >= 2 && n < |a| && h >= 1
  {
    var first := FirstChild(d, h);
    ChildBlock(d, h);
    if first > n then
      c == n + 1
    else
      && h < first <= c <= n && c < first + d
      && (forall k :: first <= k <= n && k < first + d ==> a[c] <= a[k])
      && (forall k :: first <= k < c ==> a[c] < a[k])
  }

  /** The answer of smallestChildIndex in terms of the parent relation. */
  lemma SmallestChildFacts(a: seq<int>, d: int, n: nat, h: int, c: int)
    requires d >= 2 && n < |a| && h >= 1 && IsSmallestChild(a, d, n, h, c)
    ensures c > n <==> forall j :: 2 <= j <= n ==> Parent(d, j) != h
    ensures c <= n ==> h < c && Parent(d, c) == h
    ensures c <= n ==> forall j :: 2 <= j <= n && Parent(d, j) == h ==> a[c] <= a[j]
  {
    ChildBlock(d, h);
    if FirstChild(d, h) <= n {
      ParentOfChild(d, h, FirstChild(d, h));
    }
    forall j | 2 <= j <= n
      ensures Parent(d, j) == h <==> FirstChild(d, h) <= j < FirstChild(d, h) + d
    {
      ParentOfChild(d, h, j);
    }
  }

  // ---- The root holds the minimum ----

  /** In a heap-ordered prefix the root is no larger than any occupied slot. */
  lemma {:induction false} RootIsMinimum(a: seq<int>, d: int, n: nat, k: int)
    requires d >= 2 && n < |a| && HeapOrdered(a, d, n) && 1 <= k <= n
    ensures a[1] <= a[k]
    decreases k
  {
    if k > 1 {
      RootIsMinimum(a, d, n, Parent(d, k));
    }
  }

  /** The root is no larger than any element of the multiset stored in 1..n. */
  lemma RootBoundsElements(a: seq<int>, d: int, n: nat)
    requires d >= 2 && n < |a| && HeapOrdered(a, d, n) && 1 <= n
    ensures a[1] in Stored(a, n)
    ensures forall x :: x in Stored(a, n) ==> a[1] <= x
  {
    assert a[1..n + 1][0] == a[1];
    forall x | x in Stored(a, n)
      ensures a[1] <= x
    {
      var i :| 0 <= i < n && a[1..n + 1][i] == x;
      RootIsMinimum(a, d, n, i + 1);
    }
  }

  /** Every node from 1 on lies in the subtree of the root. */
  lemma {:induction false} UnderRoot(d: int, k: int)
    requires d >= 2 && k >= 1
    ensures InSubtree(d, k, 1)
    decreases k
  {
    if k > 1 {
      UnderRoot(d, Parent(d, k));
    }
  }

  /** Ordering the root's subtree orders the whole heap. */
  lemma RootSubtreeIsHeap(a: seq<int>, d: int, n: nat)
    requires d >= 2 && n < |a| && SubtreeOrdered(a, d, n, 1)
    ensures HeapOrdered(a, d, n)
  {
    forall j | 2 <= j <= n
      ensures a[Parent(d, j)] <= a[j]
    {
      UnderRoot(d, Parent(d, j));
    }
  }

  // ---- Multisets of slices ----

  /** Writing v at slot k of slots lo..hi-1 trades one s[k] for one v. */
  lemma UpdateSlice(s: seq<int>, lo: int, hi: int, k: int, v: int)
    requires 0 <= lo <= k < hi <= |s|
    ensures multiset(s[k := v][lo..hi]) == multiset(s[lo..hi]) - multiset{s[k]} + multiset{v}
  {
    assert s[k := v][lo..hi] == s[lo..hi][k - lo := v];
  }

  /** If adding t to m gives m0 plus x, and x is in m, then swapping x for t in m gives m0. */
  lemma Exchange(m: multiset<int>, m0: multiset<int>, x: int, t: int)
    requires m + multiset{t} == m0 + multiset{x} && x in m
    ensures m - multiset{x} + multiset{t} == m0
  {
    forall y
      ensures (m - multiset{x} + multiset{t})[y] == m0[y]
    {
      assert (m + multiset{t})[y] == (m0 + multiset{x})[y];
      if y == x {
        assert m[y] >= 1;
      }
    }
    assert m - multiset{x} + multiset{t} == m0;
  }

  /** Trading the element just added for another one. */
  lemma Replace(m: multiset<int>, x: int, v: int)
    ensures m + multiset{x} - multiset{x} + multiset{v} == m + multiset{v}
  {
    assert m + multiset{x} - multiset{x} == m;
  }

  /** Adding the same element to two multisets keeps them apart unless they were equal. */
  lemma Cancel(m: multiset<int>, m0: multiset<int>, t: int)
    requires m + multiset{t} == m0 + multiset{t}
    ensures m == m0
  {
    forall y
      ensures m[y] == m0[y]
    {
      assert (m + multiset{t})[y] == (m0 + multiset{t})[y];
    }
    assert m == m0;
  }

  /** Copying the slots into a longer array keeps heap order and the stored elements. */
  lemma Grown(a: seq<int>, b: seq<int>, d: int, n: nat)
    requires d >= 2 && n < |a| <= |b| && b[..|a|] == a
    ensures HeapOrdered(a, d, n) ==> HeapOrdered(b, d, n)
    ensures Stored(b, n) == Stored(a, n)
  {
    assert forall k :: 0 <= k < |a| ==> b[k] == a[k] by {
      forall k | 0 <= k < |a|
        ensures b[k] == a[k]
      {
        assert b[..|a|][k] == b[k];
      }
    }
    assert b[1..n + 1] == a[1..n + 1];
  }

  /** deleteMin's first step: moving the last element to the root keeps the children's subtrees ordered and drops exactly the root. */
  lemma MoveLastToRoot(a: seq<int>, d: int, n: nat)
    requires d >= 2 && 1 <= n < |a| && HeapOrdered(a, d, n)
    ensures ChildSubtreesOrdered(a[1 := a[n]], d, n - 1, 1)
    ensures multiset(a[1 := a[n]][1..n]) == Stored(a, n) - multiset{a[1]}
  {
    var b := a[1 := a[n]];
    if n == 1 {
      assert a[1..n + 1] == [a[1]];
      assert b[1..n] == [];
    } else {
      assert a[1..n + 1] == [a[1]] + a[2..n] + [a[n]];
      assert b[1..n] == [a[n]] + a[2..n];
    }
  }

  // ---- The sift-down loop of percolateDown ----

  /**
   * The ordering part of the sift-down loop's state, the loop having started
   * at node root with the hole now at h and tmp the value being sifted: every
   * edge of root's subtree except those out of the hole is ordered, and the
   * hole's parent bounds both tmp and the hole's children.
   */
  ghost predicate SiftDownOrder(a: seq<int>, d: int, n: nat, root: int, h: int, tmp: int)
    requires d >= 2 && n < |a| && 1 <= root <= h < |a| && InSubtree(d, h, root)
  {
    && (forall j :: 2 <= j <= n && Parent(d, j) != h && InSubtree(d, Parent(d, j), root) ==> a[Parent(d, j)] <= a[j])
    && (h != root ==> a[Parent(d, h)] <= tmp)
    && (h != root ==> forall j :: 2 <= j <= n && Parent(d, j) == h ==> a[Parent(d, h)] <= a[j])
  }

  /**
   * The state of the sift-down loop run on the original contents a0, heap
   * order aside: the hole h lies in root's subtree, the contents are a0's
   * once tmp fills the hole, and nothing outside the subtree has been written.
   */
  ghost predicate SiftDownFrame(a: seq<int>, a0: seq<int>, d: int, n: nat, root: int, h: int, tmp: int)
    requires d >= 2 && n < |a| && |a0| == |a|
  {
    && 1 <= root <= h < |a|
    && InSubtree(d, h, root)
    && (h != root ==> h <= n)
    && tmp == a0[root]
    && Stored(a, n) + multiset{tmp} == Stored(a0, n) + multiset{a[h]}
    && SameOutside(a, a0, d, n, root)
  }

  /** On entry the frame holds, and so does the ordering part when the subtrees below root are ordered. */
  lemma SiftDownStart(a: seq<int>, d: int, n: nat, root: int)
    requires d >= 2 && n < |a| && 1 <= root < |a|
    ensures SiftDownFrame(a, a, d, n, root, root, a[root])
    ensures ChildSubtreesOrdered(a, d, n, root) ==> SiftDownOrder(a, d, n, root, root, a[root])
  {
  }

  lemma SiftDownOrderStep(a: seq<int>, d: int, n: nat, root: int, h: int, c: int, tmp: int)
    requires d >= 2 && n < |a| && 1 <= root <= h < c <= n && InSubtree(d, h, root) && InSubtree(d, c, root)
    requires Parent(d, c) == h && tmp >= a[c]
    requires forall j :: 2 <= j <= n && Parent(d, j) == h ==> a[c] <= a[j]
    requires SiftDownOrder(a, d, n, root, h, tmp)
    ensures SiftDownOrder(a[h := a[c]], d, n, root, c, tmp)
  {
    var b := a[h := a[c]];
    forall j | 2 <= j <= n && Parent(d, j) != c && InSubtree(d, Parent(d, j), root)
      ensures b[Parent(d, j)] <= b[j]
    {
      if Parent(d, j) == h {
        assert b[Parent(d, j)] == a[c];
      } else if j == h {
        assert h != root;
      } else {
        assert b[Parent(d, j)] == a[Parent(d, j)] && b[j] == a[j];
      }
    }
    forall j | 2 <= j <= n && Parent(d, j) == c
      ensures b[Parent(d, c)] <= b[j]
    {
      assert InSubtree(d, Parent(d, j), root);
    }
  }

  /**
   * Moving the smallest child up into the hole, when it is no larger than
   * tmp, moves the hole down to that child, keeping the frame and, where it
   * held, the ordering part.
   */
  lemma SiftDownStep(a: seq<int>, a0: seq<int>, d: int, n: nat, root: int, h: int, c: int, tmp: int)
    requires d >= 2 && n < |a| && |a0| == |a|
    requires SiftDownFrame(a, a0, d, n, root, h, tmp)
    requires IsSmallestChild(a, d, n, h, c) && c <= n && tmp >= a[c]
    ensures h < c
    ensures SiftDownFrame(a[h := a[c]], a0, d, n, root, c, tmp)
    ensures SiftDownOrder(a, d, n, root, h, tmp) ==> SiftDownOrder(a[h := a[c]], d, n, root, c, tmp)
  {
    SmallestChildFacts(a, d, n, h, c);
    assert InSubtree(d, c, root);
    if SiftDownOrder(a, d, n, root, h, tmp) {
      SiftDownOrderStep(a, d, n, root, h, c, tmp);
    }
    SiftDownFrameStep(a, a0, d, n, root, h, c, tmp);
  }

  /** The frame part of a sift-down step: copying child c of the hole up moves the hole to c. */
  lemma SiftDownFrameStep(a: seq<int>, a0: seq<int>, d: int, n: nat, root: int, h: int, c: int, tmp: int)
    requires d >= 2 && n < |a| && |a0| == |a|
    requires SiftDownFrame(a, a0, d, n, root, h, tmp)
    requires h < c <= n && InSubtree(d, c, root)
    ensures SiftDownFrame(a[h := a[c]], a0, d, n, root, c, tmp)
  {
    UpdateSlice(a, 1, n + 1, h, a[c]);
    WriteInside(a, a0, d, n, root, h, a[c]);
  }

  /** A write to an occupied slot of root's subtree keeps everything outside it as in a0. */
  lemma WriteInside(a: seq<int>, a0: seq<int>, d: int, n: nat, root: int, h: int, v: int)
    requires d >= 2 && |a0| == |a| && 0 <= h <= n && h < |a| && InSubtree(d, h, root)
    requires SameOutside(a, a0, d, n, root)
    ensures SameOutside(a[h := v], a0, d, n, root)
  {
  }

  lemma SiftDownOrderFinish(a: seq<int>, d: int, n: nat, root: int, h: int, tmp: int)
    requires d >= 2 && n < |a| && 1 <= root <= h < |a| && InSubtree(d, h, root)
    requires SiftDownOrder(a, d, n, root, h, tmp)
    requires forall j :: 2 <= j <= n && Parent(d, j) == h ==> tmp <= a[j]
    ensures SubtreeOrdered(a[h := tmp], d, n, root)
  {
    var b := a[h := tmp];
    forall j | 2 <= j <= n && InSubtree(d, Parent(d, j), root)
      ensures b[Parent(d, j)] <= b[j]
    {
      if Parent(d, j) == h {
      } else if j == h {
        assert h != root;
      } else {
        assert b[Parent(d, j)] == a[Parent(d, j)] && b[j] == a[j];
      }
    }
  }

  /** Filling the hole with tmp gives back the original contents and leaves the outside of the subtree as it was. */
  lemma SiftDownFill(a: seq<int>, a0: seq<int>, d: int, n: nat, root: int, h: int, tmp: int)
    requires d >= 2 && n < |a| && |a0| == |a|
    requires SiftDownFrame(a, a0, d, n, root, h, tmp)
    ensures Stored(a[h := tmp], n) == Stored(a0, n)
    ensures SameOutside(a[h := tmp], a0, d, n, root)
  {
    if h <= n {
      UpdateSlice(a, 1, n + 1, h, tmp);
      assert a[1..n + 1][h - 1] == a[h];
      Exchange(Stored(a, n), Stored(a0, n), a[h], tmp);
      WriteInside(a, a0, d, n, root, h, tmp);
    } else {
      assert h == root && a[h] == a0[h] == tmp;
      assert a[h := tmp] == a;
      Cancel(Stored(a, n), Stored(a0, n), tmp);
    }
  }

  /**
   * Placing tmp in the hole once no child is smaller ends the loop with the
   * original contents and nothing outside the subtree written, and with the
   * subtree ordered when the ordering part held.
   */
  lemma SiftDownFinish(a: seq<int>, a0: seq<int>, d: int, n: nat, root: int, h: int, c: int, tmp: int)
    requires d >= 2 && n < |a| && |a0| == |a|
    requires SiftDownFrame(a, a0, d, n, root, h, tmp)
    requires IsSmallestChild(a, d, n, h, c) && (c > n || tmp < a[c])
    ensures SiftDownOrder(a, d, n, root, h, tmp) ==> SubtreeOrdered(a[h := tmp], d, n, root)
    ensures Stored(a[h := tmp], n) == Stored(a0, n)
    ensures SameOutside(a[h := tmp], a0, d, n, root)
  {
    if SiftDownOrder(a, d, n, root, h, tmp) {
      SmallestChildFacts(a, d, n, h, c);
      assert forall j :: 2 <= j <= n && Parent(d, j) == h ==> tmp <= a[j];
      SiftDownOrderFinish(a, d, n, root, h, tmp);
    }
    SiftDownFill(a, a0, d, n, root, h, tmp);
  }

  // ---- The sift-up loop of insert ----

  /**
   * The ordering part of insert's sift-up loop for x, the hole being at h:
   * every edge except the one into the hole is ordered, and x and the hole's
   * parent both bound the hole's children.
   */
  ghost predicate SiftUpOrder(a: seq<int>, d: int, n: nat, h: int, x: int)
    requires d >= 2 && n < |a| && 1 <= h
  {
    && (forall j :: 2 <= j <= n && j != h ==> a[Parent(d, j)] <= a[j])
    && (forall j :: 2 <= j <= n && Parent(d, j) == h ==> x <= a[j])
    && (h >= 2 ==> forall j :: 2 <= j <= n && Parent(d, j) == h ==> a[Parent(d, h)] <= a[j])
  }

  /**
   * The state of insert's sift-up loop, slots 1..n-1 of a0 holding the old
   * contents: the ordering part holds and the contents are a0's plus
   * whatever the hole holds.
   */
  ghost predicate SiftUpState(a: seq<int>, a0: seq<int>, d: int, n: nat, h: int, x: int)
    requires d >= 2 && n < |a| && |a0| == |a|
  {
    && 1 <= h <= n
    && SiftUpOrder(a, d, n, h, x)
    && Stored(a, n) == Stored(a0, n - 1) + multiset{a[h]}
  }

  lemma SiftUpStart(a: seq<int>, d: int, n: nat, x: int)
    requires d >= 2 && 1 <= n < |a| && HeapOrdered(a, d, n - 1)
    ensures SiftUpState(a, a, d, n, n, x)
  {
    assert a[1..n + 1] == a[1..n] + [a[n]];
  }

  lemma SiftUpOrderStep(a: seq<int>, d: int, n: nat, h: int, x: int)
    requires d >= 2 && n < |a| && 2 <= h <= n
    requires SiftUpOrder(a, d, n, h, x) && x < a[Parent(d, h)]
    ensures SiftUpOrder(a[h := a[Parent(d, h)]], d, n, Parent(d, h), x)
  {
    var p := Parent(d, h);
    var b := a[h := a[p]];
    forall j | 2 <= j <= n && j != p
      ensures b[Parent(d, j)] <= b[j]
    {
      if j == h {
      } else if Parent(d, j) == h {
      } else {
        assert b[j] == a[j] && b[Parent(d, j)] == a[Parent(d, j)];
      }
    }
    forall j | 2 <= j <= n && Parent(d, j) == p
      ensures x <= b[j]
    {
      if j != h {
        assert a[p] <= a[j];
      }
    }
    if p >= 2 {
      forall j | 2 <= j <= n && Parent(d, j) == p
        ensures b[Parent(d, p)] <= b[j]
      {
        assert a[Parent(d, p)] <= a[p];
        if j != h {
          assert a[p] <= a[j];
        }
      }
    }
  }

  /** Moving the parent down into the hole, when x is smaller than it, moves the hole up to the parent. */
  lemma SiftUpStep(a: seq<int>, a0: seq<int>, d: int, n: nat, h: int, x: int)
    requires d >= 2 && n < |a| && |a0| == |a|
    requires SiftUpState(a, a0, d, n, h, x) && h > 1 && x < a[Parent(d, h)]
    ensures Parent(d, h) < h
    ensures SiftUpState(a[h := a[Parent(d, h)]], a0, d, n, Parent(d, h), x)
  {
    var p := Parent(d, h);
    SiftUpOrderStep(a, d, n, h, x);
    SiftUpContents(a, a0, n, h, a[p]);
    assert a[h := a[p]][p] == a[p];
  }

  /** Writing v into the hole makes the contents the old ones plus v. */
  lemma SiftUpContents(a: seq<int>, a0: seq<int>, n: nat, h: int, v: int)
    requires 1 <= h <= n < |a| && |a0| == |a|
    requires Stored(a, n) == Stored(a0, n - 1) + multiset{a[h]}
    ensures Stored(a[h := v], n) == Stored(a0, n - 1) + multiset{v}
  {
    UpdateSlice(a, 1, n + 1, h, v);
    Replace(Stored(a0, n - 1), a[h], v);
  }

  /** Placing x in the hole at the root, or under a parent no larger than x, leaves the heap ordered with x added. */
  lemma SiftUpFinish(a: seq<int>, a0: seq<int>, d: int, n: nat, h: int, x: int)
    requires d >= 2 && n < |a| && |a0| == |a|
    requires SiftUpState(a, a0, d, n, h, x) && (h == 1 || x >= a[Parent(d, h)])
    ensures HeapOrdered(a[h := x], d, n)
    ensures Stored(a[h := x], n) == Stored(a0, n - 1) + multiset{x}
  {
    var b := a[h := x];
    forall j | 2 <= j <= n
      ensures b[Parent(d, j)] <= b[j]
    {
      if j == h {
      } else if Parent(d, j) == h {
      } else {
        assert b[j] == a[j] && b[Parent(d, j)] == a[Parent(d, j)];
      }
    }
    SiftUpContents(a, a0, n, h, x);
  }

  // ---- The bottom-up loop of buildHeap ----

  /** Before buildHeap's loop nothing is claimed: every parent lies in 1..n/2. */
  lemma BuildStart(a: seq<int>, d: int, n: nat)
    requires d >= 2 && n < |a|
    ensures OrderedBeyond(a, d, n, n / 2)
  {
    forall j | 2 <= j <= n
      ensures Parent(d, j) <= n / 2
    {
      ParentAtMostHalf(d, n, j);
    }
  }

  /** The build's state at node i meets percolateDown's requirement at i. */
  lemma BeyondOrdersChildSubtrees(a: seq<int>, d: int, n: nat, i: int)
    requires d >= 2 && n < |a| && i >= 1 && OrderedBeyond(a, d, n, i)
    ensures ChildSubtreesOrdered(a, d, n, i)
  {
  }

  /** Ordering the subtree of i, and leaving the rest alone, advances the build from i to i - 1. */
  lemma BuildStep(a: seq<int>, b: seq<int>, d: int, n: nat, i: int)
    requires d >= 2 && n < |a| && |b| == |a| && i >= 1
    requires OrderedBeyond(a, d, n, i)
    requires SubtreeOrdered(b, d, n, i) && SameOutside(b, a, d, n, i)
    ensures OrderedBeyond(b, d, n, i - 1)
  {
    forall j | 2 <= j <= n && Parent(d, j) > i - 1
      ensures b[Parent(d, j)] <= b[j]
    {
      if !InSubtree(d, Parent(d, j), i) {
        assert !InSubtree(d, j, i);
      }
    }
  }

  /** A build that reaches node 0 has ordered the whole heap. */
  lemma BuildDone(a: seq<int>, d: int, n: nat)
    requires d >= 2 && n < |a| && OrderedBeyond(a, d, n, 0)
    ensures HeapOrdered(a, d, n)
  {
  }
}
