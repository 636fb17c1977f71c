/** The numbers that bit vectors stand for, taken apart from the top: 8 + 8 bits, four times 9 bits, 12 bits. */
module BitValues {

  function Nat64(v: bv64): nat { v as nat }

  function Nat56(v: bv56): nat { v as nat }

  function Nat48(v: bv48): nat { v as nat }

  function Nat39(v: bv39): nat { v as nat }

  function Nat30(v: bv30): nat { v as nat }

  function Nat21(v: bv21): nat { v as nat }

  function Nat12(v: bv12): nat { v as nat }

  function Nat9(v: bv9): nat { v as nat }

  function Nat8(v: bv8): nat { v as nat }

  lemma Split64(v: bv64)
    ensures Nat64(v) == Nat8((v >> 56) as bv8) * 0x100_0000_0000_0000 + Nat56((v & 0xFF_FFFF_FFFF_FFFF) as bv56)
  {
  }

  lemma Split56(v: bv56)
    ensures Nat56(v) == Nat8((v >> 48) as bv8) * 0x1_0000_0000_0000 + Nat48((v & 0xFFFF_FFFF_FFFF) as bv48)
  {
  }

  lemma Split48(v: bv48)
    ensures Nat48(v) == Nat9((v >> 39) as bv9) * 0x80_0000_0000 + Nat39((v & 0x7F_FFFF_FFFF) as bv39)
  {
  }

  lemma Split39(v: bv39)
    ensures Nat39(v) == Nat9((v >> 30) as bv9) * 0x4000_0000 + Nat30((v & 0x3FFF_FFFF) as bv30)
  {
  }

  lemma Split30(v: bv30)
    ensures Nat30(v) == Nat9((v >> 21) as bv9) * 0x20_0000 + Nat21((v & 0x1F_FFFF) as bv21)
  {
  }

  lemma Split21(v: bv21)
    ensures Nat21(v) == Nat9((v >> 12) as bv9) * 0x1000 + Nat12((v & 0xFFF) as bv12)
  {
  }

  lemma Narrow(b: bv64)
    requires b < 512
    ensures Nat64(b) == Nat9(b as bv9)
  {
  }

  lemma Bounds(a: bv48, b: bv12)
    ensures Nat48(a) < 0x1_0000_0000_0000 && Nat12(b) < 0x1000
  {
  }

  /** The lowest 48 bits are the remainder by 2^48. */
  lemma Low48(v: bv64)
    ensures Nat64(v) % 0x1_0000_0000_0000 == Nat48((v & 0xFFFF_FFFF_FFFF) as bv48)
  {
    hide *;
    Split64(v);
    var u := (v & 0xFF_FFFF_FFFF_FFFF) as bv56;
    Split56(u);
    var w := (v & 0xFFFF_FFFF_FFFF) as bv48;
    assert (u & 0xFFFF_FFFF_FFFF) as bv48 == w;
    Bounds(w, 0);
  }
}
