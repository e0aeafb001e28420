/**
 * The behaviour the vector's test suite exercises, restated as methods on
 * fresh vectors of integers whose contracts give the concrete sizes,
 * capacities and elements the tests expect.
 */
module VectorScenarios {
  import opened Storage
  import opened Vectors

  /** Construction from five elements: size 5, capacity 5, elements in order. */
  method Construction() returns (size: nat, capacity: nat, elements: seq<int>, atThree: int)
    ensures size == 5 && capacity == 5
    ensures elements == [1, 2, 3, 5, 4] && atThree == 5
  {
    var v := new Vector<int>.FromRange([1, 2, 3, 5, 4]);
    size, capacity, elements, atThree := v.Size(), v.Capacity(), v.Elements(), v.At(3);
  }

  /** A default-constructed vector is empty and has no allocation. */
  method Empty() returns (empty: bool, size: nat, capacity: nat)
    ensures empty && size == 0 && capacity == 0
  {
    var v := new Vector<int>();
    empty, size, capacity := v.IsEmpty(), v.Size(), v.Capacity();
  }

  /**
   * Reserving less than the capacity keeps it; reserving 10 and then 65536
   * (one past the short header's range) sets the capacity exactly and
   * keeps the elements; the last one switches to the long header.
   */
  method Reserve() returns (caps: seq<nat>, elements: seq<int>, long: bool)
    ensures caps == [5, 5, 10, 65536]
    ensures elements == [1, 2, 3, 5, 4]
    ensures long
  {
    var v := new Vector<int>.FromRange([1, 2, 3, 5, 4]);
    caps := [v.Capacity()];
    v.Reserve(1);
    caps := caps + [v.Capacity()];
    v.Reserve(10);
    caps := caps + [v.Capacity()];
    v.Reserve(ShortMax + 1);
    caps := caps + [v.Capacity()];
    elements := v.Elements();
    long := v.storage.IsLong();
  }

  /** Moving a vector into a new one carries the elements; the source ends empty. */
  method Move() returns (moved: seq<int>, sourceSize: nat, sourceCapacity: nat)
    ensures moved == [1, 2, 3, 5, 4] && sourceSize == 0 && sourceCapacity == 0
  {
    var v := new Vector<int>.FromRange([1, 2, 3, 5, 4]);
    var w := new Vector<int>();
    w.MoveAssign(v);
    moved, sourceSize, sourceCapacity := w.Elements(), v.Size(), v.Capacity();
  }

  /** Pushing 5, 2, 1 onto an empty vector: capacities 0, 1, 3, 3. */
  method PushBack() returns (caps: seq<nat>, elements: seq<int>)
    ensures caps == [0, 1, 3, 3]
    ensures elements == [5, 2, 1]
  {
    PushCapacities();
    var v := new Vector<int>();
    caps := [v.Capacity()];
    v.PushBack(5);
    caps := caps + [v.Capacity()];
    v.PushBack(2);
    caps := caps + [v.Capacity()];
    v.PushBack(1);
    caps := caps + [v.Capacity()];
    elements := v.Elements();
  }

  /**
   * Erasing an empty range, then the element at 2, then the first three:
   * the returned positions hold 1, 4 and 5, and the sizes are 5, 4 and 1.
   */
  method Erase() returns (at: seq<int>, sizes: seq<nat>)
    ensures at == [1, 4, 5] && sizes == [5, 4, 1]
  {
    var v := new Vector<int>.FromRange([1, 2, 3, 4, 5]);
    var i := v.Erase(0, 0);
    at, sizes := [v.At(i)], [v.Size()];
    i := v.EraseAt(2);
    assert v.Elements() == [1, 2, 4, 5];
    at, sizes := at + [v.At(i)], sizes + [v.Size()];
    i := v.Erase(0, 3);
    assert v.Elements() == [5];
    at, sizes := at + [v.At(i)], sizes + [v.Size()];
  }

  /** Inserting 6 at the front. */
  method Insert() returns (at: int, elements: seq<int>)
    ensures at == 6 && elements == [6, 1, 2, 3, 4, 5]
  {
    var v := new Vector<int>.FromRange([1, 2, 3, 4, 5]);
    var i := v.Insert(0, 6);
    assert v.Elements() == [6, 1, 2, 3, 4, 5];
    at, elements := v.At(i), v.Elements();
  }

  /** Inserting [6, 7, 8, 9] at position 3: the hole straddles the old end. */
  method InsertRangeInside() returns (at: int, elements: seq<int>)
    ensures at == 6 && elements == [1, 2, 3, 6, 7, 8, 9, 4, 5]
  {
    var v := new Vector<int>.FromRange([1, 2, 3, 4, 5]);
    var i := v.InsertRange(3, [6, 7, 8, 9]);
    assert v.Elements() == [1, 2, 3, 6, 7, 8, 9, 4, 5];
    at, elements := v.At(i), v.Elements();
  }

  /** Inserting [6, 7] at the front: the hole lies inside the old live range. */
  method InsertRangeAtFront() returns (at: int, elements: seq<int>)
    ensures at == 6 && elements == [6, 7, 1, 2, 3, 4, 5]
  {
    var v := new Vector<int>.FromRange([1, 2, 3, 4, 5]);
    var i := v.InsertRange(0, [6, 7]);
    assert v.Elements() == [6, 7, 1, 2, 3, 4, 5];
    at, elements := v.At(i), v.Elements();
  }

  /** Front and back of [1, 2, 3, 4, 5]. */
  method FrontBack() returns (front: int, back: int)
    ensures front == 1 && back == 5
  {
    var v := new Vector<int>.FromRange([1, 2, 3, 4, 5]);
    front, back := v.Front(), v.Back();
  }

  /** Popping twice from [1, 2]: the back becomes 1, then the vector is empty. */
  method PopBack() returns (backs: seq<int>, size: nat)
    ensures backs == [2, 1] && size == 0
  {
    var v := new Vector<int>.FromRange([1, 2]);
    backs := [v.Back()];
    v.PopBack();
    backs := backs + [v.Back()];
    v.PopBack();
    size := v.Size();
  }

  /** Swapping [1, 2, 3, 4, 5] with [6]. */
  method Swap() returns (first: seq<int>, second: seq<int>)
    ensures first == [6] && second == [1, 2, 3, 4, 5]
  {
    var v := new Vector<int>.FromRange([1, 2, 3, 4, 5]);
    var w := new Vector<int>.FromRange([6]);
    v.Swap(w);
    first, second := v.Elements(), w.Elements();
  }

  /** Swapping a vector with itself keeps its elements and capacity. */
  method SelfSwap() returns (elements: seq<int>, capacity: nat)
    ensures elements == [1, 2, 3] && capacity == 3
  {
    var v := new Vector<int>.FromRange([1, 2, 3]);
    v.Swap(v);
    elements, capacity := v.Elements(), v.Capacity();
  }

  /** Two vectors built from the same elements compare equal; a shorter one does not. */
  method Equality() returns (same: bool, different: bool)
    ensures same && !different
  {
    var v := new Vector<int>.FromRange([1, 2, 3]);
    var w := new Vector<int>.FromRange([1, 2, 3]);
    var u := new Vector<int>.FromRange([1, 2]);
    same, different := v.Equals(w), v.Equals(u);
  }
}
