/**
 * The d-ary min-heap DHeap: an array whose slot 0 is unused, the elements
 * in slots 1..currentSize, and the branching factor dimension.
 */
module DHeaps {
  import opened HeapErrors
  import opened HeapIndex
  import opened HeapOrder

  /** DEFAULT_CHILD_NUM: the branching factor of the no-argument and bulk constructors. */
  const DefaultChildNum: int := 2

  class DHeap {
    var currentSize: nat
    var storage: array<int>
    const dimension: int

    /** The layout every operation relies on, heap order aside. */
    ghost predicate Shape()
      reads this
    {
      dimension >= 2 && 1 <= storage.Length && currentSize <= storage.Length - 1
    }

    /** The object invariant: the layout, and heap order over slots 1..currentSize. */
    ghost predicate Valid()
      reads this, storage
    {
      Shape() && HeapOrdered(storage[..], dimension, currentSize)
    }

    /** The elements the heap holds. */
    ghost function Elements(): multiset<int>
      reads this, storage
      requires Shape()
    {
      Stored(storage[..], currentSize)
    }

    /** DHeap(int d), for a d the source accepts; Create models the rejection of d < 2. */
    constructor (d: int)
      requires d >= 2
      ensures Valid() && fresh(storage)
      ensures dimension == d && currentSize == 0 && storage.Length == d + 1
      ensures Elements() == multiset{}
    {
      dimension := d;
      currentSize := 0;
      storage := new int[d + 1];
    }

    /** DHeap(): a binary heap. */
    constructor Default()
      ensures Valid() && fresh(storage)
      ensures dimension == DefaultChildNum && currentSize == 0 && storage.Length == DefaultChildNum + 1
      ensures Elements() == multiset{}
    {
      dimension := DefaultChildNum;
      currentSize := 0;
      storage := new int[DefaultChildNum + 1];
    }

    /** DHeap(int d) with its argument check: d < 2 is an IllegalArgumentException. */
    static method Create(d: int) returns (r: Result<DHeap>)
      ensures r.Err? <==> d < 2
      ensures r.Err? ==> r.error == IllegalArgument
      ensures r.Ok? ==> fresh(r.value) && fresh(r.value.storage) && r.value.Valid()
      ensures r.Ok? ==> r.value.dimension == d && r.value.currentSize == 0 && r.value.storage.Length == d + 1
    {
      if d < 2 {
        return Err(IllegalArgument);
      }
      var h := new DHeap(d);
      return Ok(h);
    }

    /**
     * DHeap(AnyType[] items): copies the items into slots 1..n of an array
     * of length (n + 2) * 11 / 10 and builds heap order. The source never
     * assigns dimension here, leaving it 0; this model uses DEFAULT_CHILD_NUM.
     */
    constructor FromItems(items: seq<int>)
      ensures Valid() && fresh(storage)
      ensures dimension == DefaultChildNum && currentSize == |items|
      ensures storage.Length == (|items| + 2) * 11 / 10 && storage.Length >= |items| + 2
      ensures Elements() == multiset(items)
    {
      var slots := new int[(|items| + 2) * 11 / 10];
      for i := 0 to |items|
        invariant slots[1..i + 1] == items[..i]
      {
        slots[i + 1] := items[i];
      }
      assert slots[1..|items| + 1] == items;
      dimension := DefaultChildNum;
      currentSize := |items|;
      storage := slots;
      new;
      BuildHeap();
    }

    /** size(): the number of elements held. */
    function Size(): (r: nat)
      reads this, storage
      requires Valid()
      ensures r == |Elements()|
    {
      currentSize
    }

    /** isEmpty(): true exactly when the heap holds no element. */
    function IsEmpty(): (r: bool)
      reads this, storage
      requires Valid()
      ensures r <==> Elements() == multiset{}
    {
      assert currentSize > 0 ==> storage[1..currentSize + 1][0] in Elements();
      currentSize == 0
    }

    /** get(index): the raw slot; an occupied slot holds one of the elements. */
    function Get(index: int): (r: int)
      reads this, storage
      requires 0 <= index < storage.Length
      ensures Shape() && 1 <= index <= currentSize ==> r in Elements()
    {
      assert Shape() && 1 <= index <= currentSize ==> storage[1..currentSize + 1][index - 1] == storage[index];
      storage[index]
    }

    /**
     * smallestChildIndex(index): an IllegalArgumentException below node 1;
     * otherwise currentSize + 1 when the node has no child in 1..currentSize,
     * else the leftmost in-range child holding the least element.
     */
    method SmallestChildIndex(index: int) returns (r: Result<int>)
      requires Shape()
      ensures r.Err? <==> index < 1
      ensures r.Err? ==> r.error == IllegalArgument
      ensures r.Ok? ==> IsSmallestChild(storage[..], dimension, currentSize, index, r.value)
    {
      if index < 1 {
        return Err(IllegalArgument);
      }
      var firstChild := FirstChild(dimension, index);
      ChildBlock(dimension, index);
      if firstChild > currentSize {
        return Ok(currentSize + 1);
      }
      var childVar := firstChild;
      for i := 1 to dimension
        invariant firstChild <= childVar <= currentSize && childVar < firstChild + i
        invariant forall k :: firstChild <= k <= currentSize && k < firstChild + i ==> storage[childVar] <= storage[k]
        invariant forall k :: firstChild <= k < childVar ==> storage[childVar] < storage[k]
      {
        if firstChild + i <= currentSize {
          if storage[childVar] > storage[firstChild + i] {
            childVar := firstChild + i;
          }
        }
      }
      return Ok(childVar);
    }

    /**
     * smallestChild(index): get(smallestChildIndex(index)). For a node with a
     * child in range it is the least child element; for one without, it is
     * whatever slot currentSize + 1 holds, which must exist.
     */
    method SmallestChild(index: int) returns (r: Result<int>)
      requires Shape()
      requires index >= 1 && FirstChild(dimension, index) > currentSize ==> currentSize + 1 < storage.Length
      ensures r.Err? <==> index < 1
      ensures r.Err? ==> r.error == IllegalArgument
      ensures r.Ok? && FirstChild(dimension, index) > currentSize ==> r.value == storage[currentSize + 1]
      ensures r.Ok? && FirstChild(dimension, index) <= currentSize ==>
        exists c :: 2 <= c <= currentSize && Parent(dimension, c) == index && r.value == storage[c]
      ensures r.Ok? ==> forall c :: 2 <= c <= currentSize && Parent(dimension, c) == index ==> r.value <= storage[c]
    {
      var c := SmallestChildIndex(index);
      if c.Err? {
        return Err(c.error);
      }
      SmallestChildFacts(storage[..], dimension, currentSize, index, c.value);
      r := Ok(Get(c.value));
    }

    /**
     * percolateDown(hole): sifts the element at hole down, moving a child up
     * whenever it is no larger; the elements are only rearranged, and only
     * occupied slots of the hole's subtree are written. When the subtrees
     * below the children of hole were ordered, the whole subtree of hole is.
     */
    method PercolateDown(hole: int)
      requires Shape() && 1 <= hole < storage.Length
      modifies storage
      ensures ChildSubtreesOrdered(old(storage[..]), dimension, currentSize, hole) ==>
        SubtreeOrdered(storage[..], dimension, currentSize, hole)
      ensures Elements() == old(Elements())
      ensures SameOutside(storage[..], old(storage[..]), dimension, currentSize, hole)
    {
      ghost var a0 := storage[..];
      ghost var ordered := ChildSubtreesOrdered(a0, dimension, currentSize, hole);
      var tmp := storage[hole];
      var h := hole;
      SiftDownStart(a0, dimension, currentSize, hole);
      var first := SmallestChildIndex(h);
      var c := first.value;
      while c <= currentSize && tmp >= storage[c]
        invariant SiftDownFrame(storage[..], a0, dimension, currentSize, hole, h, tmp)
        invariant ordered ==> SiftDownOrder(storage[..], dimension, currentSize, hole, h, tmp)
        invariant IsSmallestChild(storage[..], dimension, currentSize, h, c)
        decreases storage.Length - h
      {
        SiftDownStep(storage[..], a0, dimension, currentSize, hole, h, c, tmp);
        storage[h] := storage[c];
        h := c;
        var next := SmallestChildIndex(h);
        c := next.value;
      }
      SiftDownFinish(storage[..], a0, dimension, currentSize, hole, h, c, tmp);
      storage[h] := tmp;
    }

    /**
     * insert(x): grows the array to 2 * length + 1 when it is full, then
     * sifts x up from the new last slot; heap order is kept and exactly x is added.
     */
    method Insert(x: int)
      requires Valid()
      modifies this, storage
      ensures Valid()
      ensures currentSize == old(currentSize) + 1
      ensures Elements() == old(Elements()) + multiset{x}
      ensures old(currentSize) == old(storage.Length) - 1 ==> fresh(storage) && storage.Length == 2 * old(storage.Length) + 1
      ensures old(currentSize) < old(storage.Length) - 1 ==> storage == old(storage)
    {
      if currentSize == storage.Length - 1 {
        EnlargeArray(storage.Length * 2 + 1);
        Grown(old(storage[..]), storage[..], dimension, currentSize);
      }
      currentSize := currentSize + 1;
      PercolateUp(x);
    }

    /** The percolate-up loop of insert: x enters at the last slot, which is outside heap order, and moves up past every larger parent. */
    method PercolateUp(x: int)
      requires Shape() && 1 <= currentSize && HeapOrdered(storage[..], dimension, currentSize - 1)
      modifies storage
      ensures HeapOrdered(storage[..], dimension, currentSize)
      ensures Elements() == Stored(old(storage[..]), currentSize - 1) + multiset{x}
    {
      var hole := currentSize;
      ghost var a0 := storage[..];
      SiftUpStart(a0, dimension, currentSize, x);
      while hole > 1 && x < storage[Parent(dimension, hole)]
        invariant SiftUpState(storage[..], a0, dimension, currentSize, hole, x)
        decreases hole
      {
        SiftUpStep(storage[..], a0, dimension, currentSize, hole, x);
        storage[hole] := storage[Parent(dimension, hole)];
        hole := Parent(dimension, hole);
      }
      SiftUpFinish(storage[..], a0, dimension, currentSize, hole, x);
      storage[hole] := x;
    }

    /** enlargeArray(newSize): a fresh array of length newSize whose first slots are copies of the old ones. */
    method EnlargeArray(newSize: int)
      requires storage.Length <= newSize
      modifies this
      ensures fresh(storage) && storage.Length == newSize
      ensures storage[..old(storage.Length)] == old(storage[..])
      ensures currentSize == old(currentSize)
    {
      var previous := storage;
      var larger := new int[newSize];
      for i := 0 to previous.Length
        invariant larger[..i] == previous[..i]
        modifies larger
      {
        larger[i] := previous[i];
      }
      storage := larger;
    }

    /** findMin(): the root, which no element is smaller than; Underflow when empty. */
    function FindMin(): (r: Result<int>)
      reads this, storage
      requires Valid()
      ensures r.Err? <==> Elements() == multiset{}
      ensures r.Err? ==> r.error == Underflow
      ensures r.Ok? ==> r.value == storage[1] && r.value in Elements()
      ensures r.Ok? ==> forall x :: x in Elements() ==> r.value <= x
    {
      if IsEmpty() then
        Err(Underflow)
      else
        RootBoundsElements(storage[..], dimension, currentSize);
        Ok(storage[1])
    }

    /**
     * deleteMin(): removes and returns the root, refilling it with the last
     * element and percolating that down; Underflow, with nothing changed, when empty.
     */
    method DeleteMin() returns (r: Result<int>)
      requires Valid()
      modifies this, storage
      ensures Valid() && storage == old(storage)
      ensures old(currentSize) == 0 ==> r == Err(Underflow) && currentSize == 0 && storage[..] == old(storage[..])
      ensures old(currentSize) > 0 ==> r == Ok(old(storage[1])) && currentSize == old(currentSize) - 1
      ensures old(currentSize) > 0 ==> r.value in old(Elements())
      ensures old(currentSize) > 0 ==> forall x :: x in old(Elements()) ==> r.value <= x
      ensures old(currentSize) > 0 ==> Elements() == old(Elements()) - multiset{r.value}
    {
      if IsEmpty() {
        return Err(Underflow);
      }
      var minItem := FindMin().value;
      ghost var a := storage[..];
      MoveLastToRoot(a, dimension, currentSize);
      storage[1] := storage[currentSize];
      assert storage[..] == a[1 := a[currentSize]];
      currentSize := currentSize - 1;
      ghost var moved := storage[..];
      assert ChildSubtreesOrdered(moved, dimension, currentSize, 1);
      PercolateDown(1);
      assert SubtreeOrdered(storage[..], dimension, currentSize, 1);
      RootSubtreeIsHeap(storage[..], dimension, currentSize);
      return Ok(minItem);
    }

    /** buildHeap(): percolates down every node from currentSize / 2 to 1, ordering any arrangement. */
    method BuildHeap()
      requires Shape()
      modifies storage
      ensures Valid()
      ensures Elements() == old(Elements())
    {
      var i := currentSize / 2;
      BuildStart(storage[..], dimension, currentSize);
      while i > 0
        invariant 0 <= i <= currentSize / 2
        invariant OrderedBeyond(storage[..], dimension, currentSize, i)
        invariant Elements() == old(Elements())
      {
        BeyondOrdersChildSubtrees(storage[..], dimension, currentSize, i);
        ghost var before := storage[..];
        PercolateDown(i);
        BuildStep(before, storage[..], dimension, currentSize, i);
        i := i - 1;
      }
      BuildDone(storage[..], dimension, currentSize);
    }

    /** makeEmpty(): forgets every element, keeping the array and the branching factor. */
    method MakeEmpty()
      requires Valid()
      modifies this
      ensures Valid() && IsEmpty()
      ensures currentSize == 0 && storage == old(storage)
    {
      currentSize := 0;
    }
  }
}
