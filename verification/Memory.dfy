/** Physical memory as the memory managers see it: a store of 64-bit link words, one per cell
    address.  The store a memory starts from is arbitrary; a cell outside its domain reads as zero. */
module WordMemory {

  type Words = map<nat, nat>

  const PAGE_SIZE: nat := 0x1000
  /** Bytes in a link word. */
  const LINK_BYTES: nat := 8
  /** `std::uint16_t` arithmetic wraps here. */
  const UINT16: nat := 0x1_0000

  ghost predicate Overlap(a: nat, aBytes: nat, b: nat, bBytes: nat) {
    a < b + bBytes && b < a + aBytes
  }

  /** Every word of the store stands at a multiple of its size. */
  ghost predicate Aligned(w: Words) {
    forall a :: a in w ==> a % LINK_BYTES == 0
  }

  /** The word stored in cell `a`. */
  function Load(w: Words, a: nat): nat {
    if a in w then w[a] else 0
  }

  /** `Read` and `Write` demand a non-null address, so every method verified against this class is
      free of null dereferences. */
  class Memory {
    var words: Words

    constructor (initial: Words)
      ensures words == initial
    {
      words := initial;
    }

    function Read(a: nat): nat
      requires a != 0
      reads this
    {
      Load(words, a)
    }

    method Write(a: nat, v: nat)
      requires a != 0
      modifies this
      ensures words == old(words)[a := v]
    {
      words := words[a := v];
    }

    /** Clears every word inside [base, base + bytes). */
    method Memset(base: nat, bytes: nat)
      modifies this
      ensures words == Cleared(old(words), base, bytes)
    {
      words := Cleared(words, base, bytes);
    }
  }

  function Cleared(w: Words, base: nat, bytes: nat): Words {
    map a | a in w && !(base <= a && a + LINK_BYTES <= base + bytes) :: w[a]
  }
}
