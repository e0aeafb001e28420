/**
 * The user-facing compact dynamic array. Its only field is the storage; the
 * logical sequence is the storage's live prefix. The insert and erase
 * operations are loops over the slot array that move that boundary through
 * the storage's size-adjustment primitive; the other mutators reallocate,
 * free, exchange or shrink the storage directly.
 *
 * Positions (the source's iterators) are indices into the slot array.
 */
module Vectors {
  import opened Bits
  import opened Storage

  /** The growth policy's domain: `1U << (h + 1)` on a 32-bit unsigned is defined for h <= 30. */
  const GrowthLimit: nat := 0x8000_0000

  lemma Pow2At31()
    ensures Pow2(31) == GrowthLimit
  {
    Pow2At32();
    assert Pow2(32) == 2 * Pow2(31);
  }

  /** Powers of two up to 2^31 are at most the growth limit. */
  lemma Pow2UpToGrowthLimit(k: nat)
    requires k <= 31
    ensures Pow2(k) <= GrowthLimit
  {
    Pow2Monotone(k, 31);
    Pow2At31();
  }

  /** Powers of two from 2^31 on are at least the growth limit. */
  lemma Pow2FromGrowthLimit(k: nat)
    requires 31 <= k
    ensures GrowthLimit <= Pow2(k)
  {
    Pow2Monotone(31, k);
    Pow2At31();
  }

  /** Below the growth limit the highest bit is at most 30. */
  lemma HighestBitBelowGrowthLimit(n: nat)
    requires 0 < n < GrowthLimit
    ensures 0 <= HighestBitOf(n) <= 30
  {
    var h := HighestBitOf(n);
    if h > 30 {
      Pow2FromGrowthLimit(h);
    }
  }

  /**
   * getNextCapacity: 0 for 0, otherwise `2^(highestBit(n) + 1) - 1`, which
   * is a value of the form `2^k - 1` no smaller than `n` and less than `2n`.
   */
  function NextCapacity(n: nat): (r: nat)
    requires n < GrowthLimit
    ensures n == 0 <==> r == 0
    ensures n <= r
    ensures n > 0 ==> r < 2 * n
    ensures exists k: nat :: r == Pow2(k) - 1
    ensures r < GrowthLimit
  {
    if n == 0 then
      assert 0 == Pow2(0) - 1;
      0
    else
      var h := HighestBitOf(n);
      HighestBitBelowGrowthLimit(n);
      Pow2UpToGrowthLimit(h + 1);
      Pow2(h + 1) - 1
  }

  /** NextCapacity(n) is the least value of the form `2^k - 1` that is at least n. */
  lemma NextCapacityIsLeast(n: nat, k: nat)
    requires 0 < n < GrowthLimit && n <= Pow2(k) - 1
    ensures NextCapacity(n) <= Pow2(k) - 1
  {
    var h := HighestBitOf(n);
    if k < h + 1 {
      Pow2Monotone(k, h);
    } else {
      Pow2Monotone(h + 1, k);
    }
  }

  /** A capacity of the form `2^k - 1` is its own next capacity: pushing below it never grows. */
  lemma NextCapacityOfAllOnes(k: nat, n: nat)
    requires 1 <= k <= 31 && n == Pow2(k) - 1
    ensures n < GrowthLimit
    ensures NextCapacity(n) == n
  {
    Pow2UpToGrowthLimit(k);
    var j: nat := k - 1;
    assert Pow2(j + 1) == Pow2(k);
    HighestBitIsUnique(n, j);
  }

  /** One past a full capacity `2^k - 1` the next capacity is `2^(k+1) - 1`. */
  lemma NextCapacityOfPow2(k: nat)
    requires k <= 30
    ensures Pow2(k) < GrowthLimit
    ensures NextCapacity(Pow2(k)) == Pow2(k + 1) - 1
  {
    Pow2UpToGrowthLimit(k + 1);
    HighestBitOfPow2(k);
  }

  /** Growing again from a grown capacity changes nothing. */
  lemma NextCapacityIdempotent(n: nat)
    requires n < GrowthLimit
    ensures NextCapacity(NextCapacity(n)) == NextCapacity(n)
  {
    var r := NextCapacity(n);
    if n > 0 {
      var k: nat :| r == Pow2(k) - 1;
      if k > 31 {
        Pow2FromGrowthLimit(k - 1);
        assert false;
      }
      NextCapacityOfAllOnes(k, r);
    }
  }

  /** The capacities reached by pushing onto an empty vector: 1, 3, 3, 7. */
  lemma PushCapacities()
    ensures NextCapacity(0 + 1) == 1
    ensures NextCapacity(1 + 1) == 3
    ensures NextCapacity(3 + 1) == 7
  {
    NextCapacityOfPow2(0);
    NextCapacityOfPow2(1);
    NextCapacityOfPow2(2);
  }

  /** The sequence `s` with `src` inserted before position `d`. */
  ghost function InsertAt<T>(s: seq<T>, d: nat, src: seq<T>): seq<T>
    requires d <= |s|
  {
    s[..d] + src + s[d..]
  }

  /** The sequence `s` without the positions `[i, j)`. */
  ghost function EraseRange<T>(s: seq<T>, i: nat, j: nat): seq<T>
    requires i <= j <= |s|
  {
    s[..i] + s[j..]
  }

  /** Erasing what was just inserted gives back the original sequence. */
  lemma EraseUndoesInsert<T>(s: seq<T>, d: nat, src: seq<T>)
    requires d <= |s|
    ensures |InsertAt(s, d, src)| == |s| + |src|
    ensures EraseRange(InsertAt(s, d, src), d, d + |src|) == s
  {
    var t := InsertAt(s, d, src);
    assert t[..d] == s[..d];
    assert t[d + |src|..] == s[d..];
  }

  /** The inserted elements sit at `[d, d + |src|)` and the others keep their order around them. */
  lemma InsertAtPositions<T>(s: seq<T>, d: nat, src: seq<T>, k: nat)
    requires d <= |s| && k < |s| + |src|
    ensures InsertAt(s, d, src)[k] ==
      if k < d then s[k] else if k < d + |src| then src[k - d] else s[k - |src|]
  {
  }

  /** A sequence that keeps `s[..i]` and then continues with `s[j..]` is `EraseRange(s, i, j)`. */
  lemma EraseRangeFromPositions<T>(t: seq<T>, s: seq<T>, i: nat, j: nat)
    requires i <= j <= |s| && |t| == |s| - (j - i)
    requires forall k :: 0 <= k < i ==> t[k] == s[k]
    requires forall k :: i <= k < |t| ==> t[k] == s[j + k - i]
    ensures t == EraseRange(s, i, j)
  {
  }

  /** Inserting one element at the end appends it. */
  lemma InsertAtEndAppends<T>(s: seq<T>, x: T)
    ensures InsertAt(s, |s|, [x]) == s + [x]
  {
    assert s[|s|..] == [];
  }

  /** Erasing an empty range leaves the sequence unchanged. */
  lemma EraseRangeOfEmptyRange<T>(s: seq<T>, i: nat)
    requires i <= |s|
    ensures EraseRange(s, i, i) == s
  {
  }

  /** Erasing the last position drops exactly the last element. */
  lemma EraseLastIsPrefix<T>(s: seq<T>)
    requires |s| > 0
    ensures EraseRange(s, |s| - 1, |s|) == s[..|s| - 1]
  {
  }

  /** Slots that agree with `s` on the first n positions hold `s[..n]`. */
  lemma SlotsHoldPrefix<T>(a: array<T>, s: seq<T>, n: nat)
    requires n <= a.Length && n <= |s|
    requires forall k :: 0 <= k < n ==> a[k] == s[k]
    ensures a[..n] == s[..n]
  {
  }

  /**
   * The assignment loop of insertImpl on a slot array whose slot `last` was
   * just constructed from slot `last - 1`: slots `(pos, last)` each take the
   * value below them, from the top down, and then `value` is assigned at
   * `pos`. The first `last + 1` slots then hold `value` inserted into `s`.
   */
  method ShiftAndPlace<T>(a: array<T>, pos: nat, last: nat, value: T, ghost s: seq<T>)
    requires pos < last < a.Length && |s| == last
    requires a[..last] == s && a[last] == s[last - 1]
    modifies a
    ensures a[..last + 1] == InsertAt(s, pos, [value])
    ensures forall k :: last < k < a.Length ==> a[k] == old(a[k])
  {
    var i := last - 1;
    while i != pos
      invariant pos <= i < last
      invariant forall k :: 0 <= k <= i ==> a[k] == s[k]
      invariant forall k :: i < k <= last ==> a[k] == s[k - 1]
      invariant forall k :: last < k < a.Length ==> a[k] == old(a[k])
    {
      a[i] := a[i - 1];
      i := i - 1;
    }
    a[pos] := value;
    forall k | 0 <= k < last + 1
      ensures a[k] == InsertAt(s, pos, [value])[k]
    {
      InsertAtPositions(s, pos, [value], k);
    }
  }

  /**
   * The first two loops of the range insert on a slot array whose first
   * `thisEnd` slots hold `s`: slots `[pos, thisEnd)` move `|range|` slots up,
   * from the top down, and then the range is assigned into the hole while
   * the hole lies below `thisEnd`. Returns how many range elements were
   * written.
   */
  method OpenHole<T>(a: array<T>, pos: nat, thisEnd: nat, range: seq<T>, ghost s: seq<T>) returns (j: nat)
    requires pos <= thisEnd && thisEnd + |range| <= a.Length
    requires |s| == thisEnd && a[..thisEnd] == s
    modifies a
    ensures j <= |range| && pos + j <= thisEnd
    ensures pos + j == thisEnd || j == |range|
    ensures forall k :: 0 <= k < pos ==> a[k] == s[k]
    ensures forall k :: pos <= k < pos + j ==> a[k] == range[k - pos]
    ensures forall k :: pos <= k < thisEnd ==> a[k + |range|] == s[k]
  {
    var srcDist := |range|;
    var moveResult := thisEnd + srcDist;
    var it := thisEnd;
    while it != pos
      invariant pos <= it <= thisEnd && moveResult == it + srcDist
      invariant forall k :: 0 <= k < thisEnd && k < moveResult ==> a[k] == s[k]
      invariant forall k :: it <= k < thisEnd ==> a[k + srcDist] == s[k]
    {
      it := it - 1;
      moveResult := moveResult - 1;
      a[moveResult] := a[it];
    }
    j := 0;
    var p := pos;
    while p != thisEnd && j != srcDist
      invariant pos <= p <= thisEnd && p == pos + j && j <= srcDist
      invariant forall k :: 0 <= k < pos ==> a[k] == s[k]
      invariant forall k :: pos <= k < p ==> a[k] == range[k - pos]
      invariant forall k :: pos <= k < thisEnd ==> a[k + srcDist] == s[k]
    {
      a[p] := range[j];
      j, p := j + 1, p + 1;
    }
  }

  /** Slots laid out as the range insert leaves them hold `range` inserted into `s` at `pos`. */
  lemma HoleFilled<T>(a: array<T>, pos: nat, thisEnd: nat, range: seq<T>, s: seq<T>)
    requires pos <= thisEnd == |s| && thisEnd + |range| <= a.Length
    requires forall k :: 0 <= k < pos ==> a[k] == s[k]
    requires forall k :: pos <= k < pos + |range| ==> a[k] == range[k - pos]
    requires forall k :: pos <= k < thisEnd ==> a[k + |range|] == s[k]
    ensures a[..thisEnd + |range|] == InsertAt(s, pos, range)
  {
    var t := InsertAt(s, pos, range);
    forall k | 0 <= k < thisEnd + |range|
      ensures a[k] == t[k]
    {
      InsertAtPositions(s, pos, range, k);
      if pos + |range| <= k {
        assert a[(k - |range|) + |range|] == s[k - |range|];
      }
    }
  }

  class Vector<T(0,==)> {
    const storage: MemoryOptimizedStorage<T>

    ghost predicate Valid()
      reads this, storage, storage.ptr
    {
      storage.Valid()
    }

    /** The two vectors own different storage objects and tagged pointers. */
    predicate Separate(other: Vector<T>) {
      storage != other.storage && storage.ptr != other.storage.ptr
    }

    /** The logical sequence: the storage's live slots. */
    function Elements(): seq<T>
      reads this, storage, storage.ptr, storage.slots
      requires Valid()
    {
      storage.Live()
    }

    function Size(): (n: nat)
      reads this, storage, storage.ptr, storage.slots
      requires Valid()
      ensures n == |Elements()|
    {
      storage.Size()
    }

    function Capacity(): (c: nat)
      reads this, storage, storage.ptr, storage.slots
      requires Valid()
      ensures Size() <= c <= LongMax
    {
      storage.Capacity()
    }

    predicate IsEmpty()
      reads this, storage, storage.ptr, storage.slots
      requires Valid()
      ensures IsEmpty() <==> Elements() == []
    {
      Size() == 0
    }

    /** operator[]: the element at position i < size. */
    function At(i: nat): (x: T)
      reads this, storage, storage.ptr, storage.slots
      requires Valid() && i < Size()
      ensures x == Elements()[i]
    {
      storage.slots[i]
    }

    function Front(): (x: T)
      reads this, storage, storage.ptr, storage.slots
      requires Valid() && 0 < Size()
      ensures x == Elements()[0]
    {
      At(0)
    }

    function Back(): (x: T)
      reads this, storage, storage.ptr, storage.slots
      requires Valid() && 0 < Size()
      ensures x == Elements()[|Elements()| - 1]
    {
      At(Size() - 1)
    }

    /** operator==: equal sizes and pairwise equal elements. */
    function Equals(other: Vector<T>): (equal: bool)
      reads this, storage, storage.ptr, storage.slots, other, other.storage, other.storage.ptr, other.storage.slots
      requires Valid() && other.Valid()
      ensures equal <==> Elements() == other.Elements()
    {
      var equal := Size() == other.Size() && forall k :: 0 <= k < Size() ==> At(k) == other.At(k);
      assert equal ==> Elements() == other.Elements() by {
        if equal {
          forall k | 0 <= k < Size() ensures Elements()[k] == other.Elements()[k] {
            assert At(k) == other.At(k);
          }
        }
      }
      equal
    }

    /** The default constructor: no allocation. */
    constructor ()
      ensures Valid() && fresh(storage) && fresh(storage.ptr)
      ensures Elements() == [] && Capacity() == 0 && storage.slots == null
    {
      storage := new MemoryOptimizedStorage<T>();
    }

    /**
     * Construction from a range: exactly |range| slots, filled in order.
     * An empty range allocates nothing.
     */
    constructor FromRange(range: seq<T>)
      requires |range| <= LongMax
      ensures Valid() && fresh(storage) && fresh(storage.ptr) && (storage.slots == null || fresh(storage.slots))
      ensures Elements() == range && Capacity() == |range|
      ensures range == [] ==> storage.slots == null
      ensures range != [] ==> (storage.IsLong() <==> NeedsLongHeader(|range|))
    {
      storage := new MemoryOptimizedStorage<T>();
      new;
      if |range| > 0 {
        Reallocate(|range|);
        ConstructAtEnd(range, 0);
      }
    }

    /**
     * The construction loop shared by the range constructor and the range
     * insert: each element of `src[from..]`, in order, is constructed in the
     * first slot past the live range, which then grows by one. Slots past
     * the new end are not touched.
     */
    method ConstructAtEnd(src: seq<T>, from: nat)
      requires Valid() && storage.slots != null
      requires from <= |src| && Size() + (|src| - from) <= Capacity()
      modifies storage.slots, storage`header
      ensures Valid() && Capacity() == old(Capacity()) && storage.IsLong() == old(storage.IsLong())
      ensures Size() == old(Size()) + (|src| - from) && Elements() == old(Elements()) + src[from..]
      ensures forall k :: 0 <= k < storage.slots.Length ==>
        storage.slots[k] == if old(Size()) <= k < Size() then src[from + k - old(Size())] else old(storage.slots[k])
    {
      var a := storage.slots;
      ghost var n0 := Size();
      ghost var s0 := Elements();
      var i := from;
      while i != |src|
        modifies a, storage`header
        invariant Valid() && storage.slots == a
        invariant Capacity() == old(Capacity()) && storage.IsLong() == old(storage.IsLong())
        invariant from <= i <= |src| && Size() == n0 + (i - from)
        invariant forall k :: 0 <= k < a.Length ==>
          a[k] == if n0 <= k < Size() then src[from + k - n0] else old(a[k])
      {
        var p := Size();
        a[p] := src[i];
        storage.AdvanceSize(1);
        i := i + 1;
      }
      assert a[..Size()] == s0 + src[from..];
    }

    /** clear(): destroys everything and releases the allocation. */
    method Clear()
      requires Valid()
      modifies storage, storage.ptr
      ensures Valid()
      ensures Elements() == [] && Capacity() == 0 && storage.slots == null
    {
      storage.Free();
    }

    /**
     * Move assignment (and, after default construction, the move constructor):
     * this vector takes the other's allocation and the other ends empty.
     */
    method MoveAssign(other: Vector<T>)
      requires Valid() && other.Valid()
      requires other == this || Separate(other)
      modifies storage, storage.ptr, other.storage, other.storage.ptr
      ensures Valid() && other.Valid()
      ensures other == this ==> Elements() == old(Elements()) && Capacity() == old(Capacity())
      ensures other != this ==>
        && Elements() == old(other.Elements()) && Capacity() == old(other.Capacity())
        && storage.slots == old(other.storage.slots)
        && other.Elements() == [] && other.Capacity() == 0
    {
      storage.MoveAssign(other.storage);
    }

    /** swap(): exchanges the whole contents of the two vectors. */
    method Swap(other: Vector<T>)
      requires Valid() && other.Valid() && (other == this || Separate(other))
      modifies storage, storage.ptr, other.storage, other.storage.ptr
      ensures Valid() && other.Valid()
      ensures storage.slots == old(other.storage.slots) && other.storage.slots == old(storage.slots)
      ensures Elements() == old(other.Elements()) && Capacity() == old(other.Capacity())
      ensures other.Elements() == old(Elements()) && other.Capacity() == old(Capacity())
    {
      storage.Swap(other.storage);
    }

    /**
     * moveData: moves `source[first..end)`, whose contents on entry are
     * `src`, to the positions starting at `result`. A position at or past the
     * end of the live range as it was on entry receives a new element and
     * grows the size by one; a position inside it is assigned. Returns the
     * position after the last one written.
     */
    method MoveData(source: array?<T>, first: nat, end: nat, result: nat, ghost src: seq<T>) returns (next: nat)
      requires Valid() && storage.slots != null
      requires source == null ==> src == [] && first == end
      requires source != null ==> source[..] == src
      requires first <= end <= |src|
      requires result <= Size() && result + (end - first) <= Capacity()
      requires source == storage.slots ==> result < first
      modifies storage.slots, storage`header
      ensures Valid() && Capacity() == old(Capacity()) && storage.IsLong() == old(storage.IsLong())
      ensures next == result + (end - first)
      ensures Size() == if next > old(Size()) then next else old(Size())
      ensures forall k :: 0 <= k < storage.slots.Length ==>
        storage.slots[k] == if result <= k < next then src[first + k - result] else old(storage.slots[k])
    {
      var a := storage.slots;
      ghost var dst := a[..];
      var endData := Size();
      var i, r := first, result;
      while i != end
        modifies a, storage`header
        invariant Valid() && storage.slots == a
        invariant first <= i <= end && r == result + (i - first)
        invariant Capacity() == old(Capacity()) && storage.IsLong() == old(storage.IsLong())
        invariant Size() == if r > endData then r else endData
        invariant source != null && source != a ==> source[..] == src
        invariant forall k :: 0 <= k < a.Length ==>
          a[k] == if result <= k < r then src[first + k - result] else dst[k]
      {
        if endData <= r {
          a[r] := source[i];
          storage.AdvanceSize(1);
        } else {
          a[r] := source[i];
        }
        i, r := i + 1, r + 1;
      }
      next := r;
    }

    /** reallocate: moves the elements into a fresh allocation of exactly `capacity` slots. */
    method Reallocate(capacity: nat)
      requires Valid() && Size() <= capacity && 1 <= capacity <= LongMax
      modifies storage, storage.ptr, storage.slots
      ensures Valid() && fresh(storage.slots)
      ensures Elements() == old(Elements()) && Capacity() == capacity
      ensures storage.IsLong() <==> NeedsLongHeader(capacity)
    {
      ghost var s0 := Elements();
      // The temporary vector moved out of this one is modelled by its storage.
      var tmp := new MemoryOptimizedStorage<T>();
      tmp.MoveAssign(storage);
      var source, n := tmp.slots, tmp.Size();
      ghost var moved := if source == null then [] else source[..];
      assert moved[..n] == s0;
      storage.Allocate(capacity);
      var _ := MoveData(source, 0, n, 0, moved);
      SlotsHoldPrefix(storage.slots, moved, n);
      tmp.Free();
    }

    /**
     * reserve: nothing happens when `capacity` does not exceed the current
     * capacity; otherwise the capacity becomes exactly `capacity`, with the
     * header width chosen anew, and the elements are kept.
     */
    method Reserve(capacity: nat)
      requires Valid() && capacity <= LongMax
      modifies storage, storage.ptr, storage.slots
      ensures Valid() && (storage.slots == old(storage.slots) || fresh(storage.slots))
      ensures Elements() == old(Elements())
      ensures capacity <= old(Capacity()) ==>
        unchanged(storage, storage.ptr) && (storage.slots != null ==> unchanged(storage.slots))
      ensures capacity > old(Capacity()) ==>
        Capacity() == capacity && fresh(storage.slots) && (storage.IsLong() <==> NeedsLongHeader(capacity))
    {
      if capacity > Capacity() {
        Reallocate(capacity);
      }
    }

    /**
     * insertImpl: grows by the growth policy when full, then inserts in
     * place.
     */
    method Insert(pos: nat, value: T) returns (index: nat)
      requires Valid() && pos <= Size()
      requires Size() < Capacity() || Size() + 1 < GrowthLimit
      modifies storage, storage.ptr, storage.slots
      ensures Valid() && (storage.slots == old(storage.slots) || fresh(storage.slots))
      ensures Elements() == InsertAt(old(Elements()), pos, [value])
      ensures index == pos
      ensures Capacity() == if old(Size()) == old(Capacity()) then NextCapacity(old(Size()) + 1) else old(Capacity())
    {
      if Capacity() == Size() {
        Reserve(NextCapacity(Size() + 1));
      }
      index := InsertInPlace(pos, value);
    }

    /**
     * insertImpl below capacity: at the end, `value` is constructed in the
     * first free slot; elsewhere the last element is constructed there, the
     * elements from `pos` shift one slot towards the end by assignment, and
     * `value` is assigned at `pos`.
     */
    method InsertInPlace(pos: nat, value: T) returns (index: nat)
      requires Valid() && pos <= Size() < Capacity()
      modifies storage.slots, storage`header
      ensures Valid() && Capacity() == old(Capacity())
      ensures Elements() == InsertAt(old(Elements()), pos, [value])
      ensures index == pos
    {
      var size := Size();
      ghost var s0 := Elements();
      var a := storage.slots;
      assert a[..size] == s0;
      if pos == size {
        a[size] := value;
        storage.AdvanceSize(1);
        assert a[..size + 1] == s0 + [value];
        InsertAtEndAppends(s0, value);
      } else {
        a[size] := a[size - 1];
        storage.AdvanceSize(1);
        ShiftAndPlace(a, pos, size, value, s0);
      }
      index := pos;
    }

    /** push_back: insertion at the end. */
    method PushBack(value: T)
      requires Valid()
      requires Size() < Capacity() || Size() + 1 < GrowthLimit
      modifies storage, storage.ptr, storage.slots
      ensures Valid() && (storage.slots == old(storage.slots) || fresh(storage.slots))
      ensures Elements() == old(Elements()) + [value]
      ensures Capacity() == if old(Size()) == old(Capacity()) then NextCapacity(old(Size()) + 1) else old(Capacity())
    {
      var _ := Insert(Size(), value);
      InsertAtEndAppends(old(Elements()), value);
    }

    /**
     * Range insert: reserves the growth policy's capacity for the new size,
     * moves `[pos, end)` towards the end by |range| slots, then writes the
     * range into the hole (assignments inside the old live range, new
     * elements past it). An empty range changes nothing.
     */
    method InsertRange(pos: nat, range: seq<T>) returns (index: nat)
      requires Valid() && pos <= Size()
      requires range == [] || Size() + |range| < GrowthLimit
      modifies storage, storage.ptr, storage.slots
      ensures Valid() && (storage.slots == old(storage.slots) || fresh(storage.slots))
      ensures Elements() == InsertAt(old(Elements()), pos, range)
      ensures index == pos
      ensures range == [] ==> unchanged(storage, storage.ptr) && (storage.slots != null ==> unchanged(storage.slots))
      ensures range != [] ==>
        Capacity() == if NextCapacity(old(Size()) + |range|) <= old(Capacity()) then old(Capacity())
                      else NextCapacity(old(Size()) + |range|)
    {
      if range == [] {
        assert InsertAt(Elements(), pos, range) == Elements();
        return pos;
      }
      Reserve(NextCapacity(Size() + |range|));
      index := InsertRangeInPlace(pos, range);
    }

    /**
     * The range insert after the reservation: moves `[pos, end)` towards
     * the end by |range| slots, then writes the range into the hole
     * (assignments inside the old live range, new elements past it).
     */
    method InsertRangeInPlace(pos: nat, range: seq<T>) returns (index: nat)
      requires Valid() && pos <= Size() && range != []
      requires Size() + |range| <= Capacity()
      modifies storage.slots, storage`header
      ensures Valid() && Capacity() == old(Capacity())
      ensures Elements() == InsertAt(old(Elements()), pos, range)
      ensures index == pos
    {
      var size := Size();
      var srcDist := |range|;
      ghost var s0 := Elements();
      var a := storage.slots;
      assert a[..size] == s0;
      var thisEnd := size;
      var j := OpenHole(a, pos, thisEnd, range, s0);
      var p := pos + j;
      if j != srcDist {
        ghost var b := a[..];
        ConstructAtEnd(range, j);
        p := p + (srcDist - j);
        forall k | pos <= k < thisEnd
          ensures a[k + srcDist] == s0[k]
        {
          assert a[k + srcDist] == b[k + srcDist];
        }
        forall k | pos <= k < pos + srcDist
          ensures a[k] == range[k - pos]
        {
          if k < thisEnd {
            assert a[k] == b[k];
          }
        }
      }
      storage.AdvanceSize(size + srcDist - Size());
      index := p - srcDist;
      HoleFilled(a, pos, thisEnd, range, s0);
    }

    /**
     * erase(first, last): moves `[last, end)` down onto `first` by
     * assignment and shrinks the size by `last - first`; the slots left past
     * the new end are dead. The allocation is kept.
     */
    method Erase(first: nat, last: nat) returns (index: nat)
      requires Valid() && first <= last <= Size()
      modifies storage.slots, storage`header
      ensures Valid() && storage.slots == old(storage.slots)
      ensures Elements() == EraseRange(old(Elements()), first, last)
      ensures index == first
      ensures Capacity() == old(Capacity())
    {
      ghost var s0 := Elements();
      index := first;
      if first != last {
        var endData := Size();
        var a := storage.slots;
        var next := MoveData(a, last, endData, first, a[..]);
        storage.AdvanceSize(next as int - endData);
        EraseRangeFromPositions(a[..next], s0, first, last);
      }
    }

    /** erase(pos): removes the single element at pos. */
    method EraseAt(pos: nat) returns (index: nat)
      requires Valid() && pos < Size()
      modifies storage.slots, storage`header
      ensures Valid() && storage.slots == old(storage.slots)
      ensures Elements() == old(Elements())[..pos] + old(Elements())[pos + 1..]
      ensures index == pos
      ensures Capacity() == old(Capacity())
    {
      index := Erase(pos, pos + 1);
    }

    /** pop_back: drops the last element; on an empty vector nothing happens. */
    method PopBack()
      requires Valid()
      modifies storage`header
      ensures Valid() && storage.slots == old(storage.slots)
      ensures old(Size()) > 0 ==> Elements() == old(Elements())[..old(Size()) - 1]
      ensures old(Size()) == 0 ==> Elements() == old(Elements())
      ensures Capacity() == old(Capacity())
    {
      if Size() > 0 {
        storage.AdvanceSize(-1);
      }
    }
  }
}
