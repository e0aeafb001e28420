/**
 * The heap-backed storage of the compact vector: at most one allocation,
 * made of a header (size, capacity) in one of two integer widths followed
 * by `capacity` element slots, of which the first `size` are live. Bit 0 of
 * the tagged pointer to the allocation says which header width is in use.
 *
 * The allocation is modelled by the `header` value and the `slots` array;
 * their address is the word of the tagged pointer `ptr`.
 */
module Storage {
  import opened TaggedPointer

  /** The largest value of the short header's 16-bit fields. */
  const ShortMax: nat := 0xFFFF
  /** The largest value of the long header's 32-bit fields. */
  const LongMax: nat := 0xFFFF_FFFF

  newtype u16 = x: int | 0 <= x <= 0xFFFF
  newtype u32 = x: int | 0 <= x <= 0xFFFF_FFFF

  /** The two header layouts at the start of an allocation. */
  datatype Header =
    | Short(shortSize: u16, shortCapacity: u16)
    | Long(longSize: u32, longCapacity: u32)

  /** The choice `allocate` makes: the long header exactly when the capacity does not fit 16 bits. */
  predicate NeedsLongHeader(capacity: nat) {
    capacity > ShortMax
  }

  /**
   * What an allocation's header promises: the flag names its variant, the
   * size is at most the capacity, the capacity is the slot count, and the
   * long header is used exactly for capacities beyond 16 bits.
   */
  predicate HeaderFits(h: Header, flag: bool, length: nat) {
    match h
    case Short(s, c) => !flag && s <= c && 0 < c && length == c as int
    case Long(s, c) => flag && s <= c && NeedsLongHeader(c as int) && length == c as int
  }

  class MemoryOptimizedStorage<T(0)> {
    const ptr: TaggedPtr
    var header: Header
    var slots: array?<T>

    /** The tagged pointer is null exactly without an allocation, and the header fits the allocation. */
    ghost predicate Valid()
      reads this, ptr
    {
      && (slots != null <==> ptr.IsSet())
      && (slots != null ==> HeaderFits(header, ptr.HasFlag(), slots.Length))
    }

    /** The empty storage: a null tagged pointer. */
    constructor ()
      ensures Valid() && fresh(ptr)
      ensures slots == null && Size() == 0 && Capacity() == 0
    {
      ptr := new TaggedPtr();
      header := Short(0, 0);
      slots := null;
    }

    /** The number of live slots; 0 without an allocation. The flag picks the header width. */
    function Size(): (n: nat)
      reads this, ptr
      requires Valid()
      ensures n <= Capacity()
      ensures slots == null ==> n == 0
    {
      if !ptr.IsSet() then 0
      else if ptr.HasFlag() then header.longSize as nat
      else header.shortSize as nat
    }

    /** The number of slots; 0 without an allocation. */
    function Capacity(): (c: nat)
      reads this, ptr
      requires Valid()
      ensures slots == null <==> c == 0
      ensures slots != null ==> c == slots.Length
      ensures c <= LongMax
    {
      if !ptr.IsSet() then 0
      else if ptr.HasFlag() then header.longCapacity as nat
      else header.shortCapacity as nat
    }

    /** The slot array; null without an allocation. */
    function Data(): (a: array?<T>)
      reads this, ptr
      requires Valid()
      ensures a == null <==> !ptr.IsSet()
      ensures a != null ==> a.Length == Capacity()
    {
      slots
    }

    /** The live elements, slots `[0, size)`. */
    function Live(): (s: seq<T>)
      reads this, ptr, slots
      requires Valid()
    {
      if slots == null then [] else slots[..Size()]
    }

    /** Whether the long header is in use. */
    predicate IsLong()
      reads this, ptr
      requires Valid()
    {
      ptr.HasFlag()
    }

    /**
     * Makes one allocation of `capacity` slots on empty storage. The address
     * returned by `operator new` is any even, non-null word.
     */
    method Allocate(capacity: nat)
      requires Valid() && !ptr.IsSet()
      requires 1 <= capacity <= LongMax
      modifies this, ptr
      ensures Valid() && fresh(slots)
      ensures Size() == 0 && Capacity() == capacity
      ensures IsLong() <==> NeedsLongHeader(capacity)
    {
      assert IsEven(2) && 2 != 0;
      var address: bv64 :| IsEven(address) && address != 0;
      if capacity <= ShortMax {
        ptr.Assign(address);
        slots := new T[capacity];
        header := Short(0, capacity as u16);
      } else {
        ptr.Assign(address);
        ptr.SetFlag(true);
        slots := new T[capacity];
        header := Long(0, capacity as u32);
      }
    }

    /** Releases the allocation, if any, and resets the tagged pointer to null. */
    method Free()
      requires Valid()
      modifies this, ptr
      ensures Valid()
      ensures slots == null && ptr.word == 0
      ensures Size() == 0 && Capacity() == 0
    {
      if ptr.IsSet() {
        ptr.Assign(0);
        slots := null;
      }
    }

    /**
     * Adds `delta` to the size field of the header in use. The caller keeps
     * the result within `[0, capacity]`; nothing else changes.
     */
    method AdvanceSize(delta: int)
      requires Valid() && ptr.IsSet()
      requires 0 <= Size() + delta <= Capacity()
      modifies this`header
      ensures Valid()
      ensures Size() == old(Size()) + delta && Capacity() == old(Capacity())
      ensures IsLong() == old(IsLong())
    {
      if ptr.HasFlag() {
        header := header.(longSize := (header.longSize as int + delta) as u32);
      } else {
        header := header.(shortSize := (header.shortSize as int + delta) as u16);
      }
    }

    /** Exchanges the allocations (tagged words, headers and slots) of two storages; a self-swap changes nothing. */
    method Swap(other: MemoryOptimizedStorage<T>)
      requires Valid() && other.Valid() && (other == this || other.ptr != ptr)
      modifies this, ptr, other, other.ptr
      ensures Valid() && other.Valid()
      ensures ptr.word == old(other.ptr.word) && other.ptr.word == old(ptr.word)
      ensures header == old(other.header) && other.header == old(header)
      ensures slots == old(other.slots) && other.slots == old(slots)
      ensures Size() == old(other.Size()) && other.Size() == old(Size())
      ensures Capacity() == old(other.Capacity()) && other.Capacity() == old(Capacity())
    {
      ptr.Swap(other.ptr);
      header, other.header := other.header, header;
      slots, other.slots := other.slots, slots;
    }

    /**
     * Move assignment: when `other` is another storage, this one takes its
     * allocation and the previous allocation of this one is freed through
     * `other`, which ends empty. Moving a storage onto itself changes nothing.
     */
    method MoveAssign(other: MemoryOptimizedStorage<T>)
      requires Valid() && other.Valid()
      requires other == this || other.ptr != ptr
      modifies this, ptr, other, other.ptr
      ensures Valid() && other.Valid()
      ensures other == this ==> unchanged(this, ptr)
      ensures other != this ==>
        && ptr.word == old(other.ptr.word) && header == old(other.header) && slots == old(other.slots)
        && Size() == old(other.Size()) && Capacity() == old(other.Capacity())
      ensures other != this ==> other.slots == null && other.Size() == 0 && other.Capacity() == 0
    {
      if this != other {
        Swap(other);
        other.Free();
      }
    }
  }
}
