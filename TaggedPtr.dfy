/**
 * A tagged pointer: one 64-bit machine word that stores an even address
 * and reuses the address's always-zero bit 0 as a boolean flag.
 *
 * The pure functions on `bv64` describe the bit arithmetic once; the class
 * `TaggedPtr` is the mutable object whose methods update its word in place.
 */
module TaggedPointer {

  /** True iff `p` may be stored: its bit 0 is clear (the address is even). */
  predicate IsEven(p: bv64) {
    p & 1 == 0
  }

  /** The flag stored in bit 0 of a tagged word. */
  predicate FlagOf(word: bv64) {
    word & 1 == 1
  }

  /** The address stored in a tagged word: the word with bit 0 cleared. */
  function AddressOf(word: bv64): (p: bv64)
    ensures IsEven(p)
  {
    word & !1
  }

  /** The address and the flag together rebuild the whole word. */
  lemma AddressAndFlagRebuildWord(word: bv64)
    ensures AddressOf(word) | (if FlagOf(word) then 1 else 0) == word
  {
  }

  /** Masking changes the word exactly when the flag is set. */
  lemma MaskingClearsOnlyTheFlag(word: bv64)
    ensures FlagOf(word) <==> AddressOf(word) != word
  {
  }

  /** The word after the flag is set to `value`: bit 0 is `value`, the other 63 bits are kept. */
  function WithFlag(word: bv64, value: bool): (r: bv64)
    ensures FlagOf(r) == value
    ensures AddressOf(r) == AddressOf(word)
  {
    if value then word | 1 else word & !1
  }

  /** Storing an even pointer keeps its bits, so the flag reads false and the address reads back. */
  lemma StoredPointerReadsBack(p: bv64)
    requires IsEven(p)
    ensures AddressOf(p) == p && !FlagOf(p)
  {
  }

  /** The boolean conversion tests the whole word: it is true iff the address or the flag is non-zero. */
  lemma TruthIsWholeWord(word: bv64)
    ensures word != 0 <==> (AddressOf(word) != 0 || FlagOf(word))
  {
  }

  /** A word that carries the flag is true as a boolean even when its address is null. */
  lemma FlaggedNullIsTrue()
    ensures WithFlag(0, true) != 0 && AddressOf(WithFlag(0, true)) == 0
  {
  }

  /** Setting the flag and clearing it again gives back the word of an even pointer. */
  lemma SetThenClearRestores(word: bv64)
    requires IsEven(word)
    ensures WithFlag(WithFlag(word, true), false) == word
  {
  }

  class TaggedPtr {
    var word: bv64

    /** The default state: the word is 0. */
    constructor ()
      ensures word == 0
      ensures !IsSet() && !HasFlag()
    {
      word := 0;
    }

    /** Construction from a pointer, which must be even. */
    constructor FromPointer(p: bv64)
      requires IsEven(p)
      ensures word == p
      ensures !HasFlag() && GetAs() == p
    {
      word := p;
    }

    /** Assignment from a pointer, which must be even; the previous flag is overwritten. */
    method Assign(p: bv64)
      requires IsEven(p)
      modifies this
      ensures word == p
      ensures !HasFlag() && GetAs() == p
    {
      word := p;
    }

    /** The boolean conversion: true iff the whole word, flag bit included, is non-zero. */
    predicate IsSet()
      reads this
      ensures IsSet() <==> (AddressOf(word) != 0 || FlagOf(word))
    {
      TruthIsWholeWord(word);
      word != 0
    }

    /** The flag: bit 0 of the word, set exactly when masking changes the word. */
    predicate HasFlag()
      reads this
      ensures HasFlag() <==> AddressOf(word) != word
    {
      MaskingClearsOnlyTheFlag(word);
      FlagOf(word)
    }

    /** Sets bit 0 to `value` and keeps the address bits. */
    method SetFlag(value: bool)
      modifies this
      ensures word == WithFlag(old(word), value)
      ensures HasFlag() == value && GetAs() == old(GetAs())
    {
      if value {
        word := word | 1;
      } else {
        word := word & !1;
      }
      assert word == WithFlag(old(word), value);
    }

    /** The stored address with the flag masked off. */
    function GetAs(): (p: bv64)
      reads this
      ensures IsEven(p)
      ensures p | (if FlagOf(word) then 1 else 0) == word
    {
      var p := AddressOf(word);
      assert p | (if FlagOf(word) then 1 else 0) == word by {
        AddressAndFlagRebuildWord(word);
      }
      p
    }

    /** Exchanges the two words; `other` may be this very object. */
    method Swap(other: TaggedPtr)
      modifies this, other
      ensures word == old(other.word) && other.word == old(word)
    {
      word, other.word := other.word, word;
    }
  }

  /**
   * Tagging a stored even pointer: the flag reads false before and true
   * after, and the masked read-back is the pointer itself.
   */
  method TagStoredPointer(p: bv64) returns (before: bool, after: bool, address: bv64)
    requires IsEven(p)
    ensures !before && after && address == p
  {
    var t := new TaggedPtr.FromPointer(p);
    before := t.HasFlag();
    t.SetFlag(true);
    after, address := t.HasFlag(), t.GetAs();
  }

  /** Swapping two tagged pointers twice gives both their original words. */
  method SwapTwice(a: TaggedPtr, b: TaggedPtr)
    modifies a, b
    ensures a.word == old(a.word) && b.word == old(b.word)
  {
    a.Swap(b);
    a.Swap(b);
  }
}
