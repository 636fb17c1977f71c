/** Bit layout of x86-64 virtual addresses and page-table entries (Intel SDM Volume 3A, section 4.5). */
module PageBits {
  import opened BitValues

  const CANONICAL_MASK: bv64 := 0xFFFF_8000_0000_0000

  predicate IsCanonical(v: bv64) {
    v & CANONICAL_MASK == CANONICAL_MASK || v & CANONICAL_MASK == 0
  }

  /** The four table indices of an address: PML4, page-directory pointer table, page directory, page table. */
  datatype PageIndices = PageIndices(pm4le: bv64, pdpte: bv64, pde: bv64, pt: bv64)

  predicate InRange(i: PageIndices) {
    i.pm4le < 512 && i.pdpte < 512 && i.pde < 512 && i.pt < 512
  }

  function ExtractPageIndices(v: bv64): (i: PageIndices)
    ensures InRange(i)
  {
    PageIndices(
      (v & (0x1FF << 39)) >> 39,
      (v & (0x1FF << 30)) >> 30,
      (v & (0x1FF << 21)) >> 21,
      (v & (0x1FF << 12)) >> 12)
  }

  /** The canonical addresses are the lowest and the highest 2^47. */
  lemma CanonicalHalves(v: bv64)
    ensures IsCanonical(v) <==> v < 0x8000_0000_0000 || v >= 0xFFFF_8000_0000_0000
  {
  }

  lemma FieldBits(v: bv64)
    ensures var i, a := ExtractPageIndices(v), (v & 0xFFFF_FFFF_FFFF) as bv48;
            var b := (a & 0x7F_FFFF_FFFF) as bv39;
            var c := (b & 0x3FFF_FFFF) as bv30;
            var d := (c & 0x1F_FFFF) as bv21;
            && (a >> 39) as bv9 == i.pm4le as bv9 && (b >> 30) as bv9 == i.pdpte as bv9
            && (c >> 21) as bv9 == i.pde as bv9 && (d >> 12) as bv9 == i.pt as bv9
            && (d & 0xFFF) as bv12 == (v & 0xFFF) as bv12
  {
  }

  lemma FieldSum(v: bv64)
    ensures var i := ExtractPageIndices(v);
            Nat48((v & 0xFFFF_FFFF_FFFF) as bv48) ==
            Nat9(i.pm4le as bv9) * 0x80_0000_0000 + Nat9(i.pdpte as bv9) * 0x4000_0000
            + Nat9(i.pde as bv9) * 0x20_0000 + Nat9(i.pt as bv9) * 0x1000 + Nat12((v & 0xFFF) as bv12)
  {
    hide *;
    FieldBits(v);
    var a := (v & 0xFFFF_FFFF_FFFF) as bv48;
    var b := (a & 0x7F_FFFF_FFFF) as bv39;
    var c := (b & 0x3FFF_FFFF) as bv30;
    var d := (c & 0x1F_FFFF) as bv21;
    Split48(a);
    Split39(b);
    Split30(c);
    Split21(d);
  }

  lemma Remainder(k: nat, offset: nat)
    requires offset < 0x1000
    ensures (0x1000 * k + offset) % 0x1000 == offset
  {
  }

  lemma Assemble(n: nat, a: nat, b: nat, c: nat, d: nat, offset: nat)
    requires n % 0x1_0000_0000_0000 ==
             a * 0x80_0000_0000 + b * 0x4000_0000 + c * 0x20_0000 + d * 0x1000 + offset
    requires offset < 0x1000
    ensures n % 0x1000 == offset
  {
    var m := n / 0x1_0000_0000_0000;
    var k := 0x10_0000_0000 * m + a * 0x800_0000 + b * 0x4_0000 + c * 0x200 + d;
    assert n == 0x1000 * k + offset;
    Remainder(k, offset);
  }

  lemma NarrowIndices(v: bv64)
    ensures var i := ExtractPageIndices(v);
            && Nat9(i.pm4le as bv9) == Nat64(i.pm4le) && Nat9(i.pdpte as bv9) == Nat64(i.pdpte)
            && Nat9(i.pde as bv9) == Nat64(i.pde) && Nat9(i.pt as bv9) == Nat64(i.pt)
  {
    hide ExtractPageIndices, Nat9, Nat64;
    var i := ExtractPageIndices(v);
    Narrow(i.pm4le);
    Narrow(i.pdpte);
    Narrow(i.pde);
    Narrow(i.pt);
  }

  lemma IndexValues(v: bv64)
    ensures var i := ExtractPageIndices(v);
            Nat64(v) % 0x1_0000_0000_0000 ==
            Nat64(i.pm4le) * 0x80_0000_0000 + Nat64(i.pdpte) * 0x4000_0000 + Nat64(i.pde) * 0x20_0000
            + Nat64(i.pt) * 0x1000 + Nat64(v) % 0x1000
  {
    hide *;
    NarrowIndices(v);
    Low48(v);
    FieldSum(v);
    Bounds(0, (v & 0xFFF) as bv12);
    var i := ExtractPageIndices(v);
    Assemble(Nat64(v), Nat64(i.pm4le), Nat64(i.pdpte), Nat64(i.pde), Nat64(i.pt), Nat12((v & 0xFFF) as bv12));
  }

  /** The lowest 48 bits of any address, as a number, are its indices and offset in base 512 and 4096.  Indices
      are below 512, so this determines each of them. */
  lemma IndicesOfAddress(v: bv64)
    ensures var i := ExtractPageIndices(v);
            v as nat % 0x1_0000_0000_0000 ==
            i.pm4le as nat * 0x80_0000_0000 + i.pdpte as nat * 0x4000_0000 + i.pde as nat * 0x20_0000
            + i.pt as nat * 0x1000 + v as nat % 0x1000
  {
    hide ExtractPageIndices;
    IndexValues(v);
  }

  /** The same in 64-bit arithmetic, index by index. */
  lemma IndicesByDivision(v: bv64)
    ensures ExtractPageIndices(v) ==
            PageIndices(v / 0x80_0000_0000 % 512, v / 0x4000_0000 % 512, v / 0x20_0000 % 512, v / 0x1000 % 512)
  {
  }

  /** Rebuilds a kernel address, shifting the fields in from the top. */
  method KVirtFromPageIndex(indices: PageIndices, offset: bv64) returns (vaddr: bv64)
    ensures vaddr == KVirt(indices, offset)
  {
    vaddr := 0;
    vaddr := vaddr | 0xFFFF;
    vaddr := vaddr << 9;
    vaddr := vaddr | (indices.pm4le & 0x1FF);
    vaddr := vaddr << 9;
    vaddr := vaddr | (indices.pdpte & 0x1FF);
    vaddr := vaddr << 9;
    vaddr := vaddr | (indices.pde & 0x1FF);
    vaddr := vaddr << 9;
    vaddr := vaddr | (indices.pt & 0x1FF);
    vaddr := vaddr << 12;
    vaddr := vaddr | (offset & 0xFFF);
  }

  /** The address with all high bits set, and the given fields in their places. */
  function KVirt(i: PageIndices, offset: bv64): bv64 {
    0xFFFF_0000_0000_0000 | ((i.pm4le & 0x1FF) << 39) | ((i.pdpte & 0x1FF) << 30) | ((i.pde & 0x1FF) << 21)
    | ((i.pt & 0x1FF) << 12) | (offset & 0xFFF)
  }

  /** Rebuilding an address from its indices and offset gives it back exactly when its top 16 bits are set. */
  lemma RebuildExtracted(v: bv64)
    ensures KVirt(ExtractPageIndices(v), v & 0xFFF) == v <==> v & 0xFFFF_0000_0000_0000 == 0xFFFF_0000_0000_0000
  {
  }

  /** Extraction recovers the indices and the offset an address was built from. */
  lemma ExtractRebuilt(i: PageIndices, offset: bv64)
    requires InRange(i) && offset < 0x1000
    ensures ExtractPageIndices(KVirt(i, offset)) == i
    ensures KVirt(i, offset) & 0xFFF == offset
  {
  }

  /** A canonical address is determined by its indices and its offset. */
  lemma CanonicalDetermined(v: bv64, u: bv64)
    requires IsCanonical(v) && IsCanonical(u)
    requires ExtractPageIndices(v) == ExtractPageIndices(u) && v & 0xFFF == u & 0xFFF
    ensures v == u
  {
  }

  // ---------------------------------------------------------------- pages

  /** The first address of the page of `v`. */
  function PageStart(v: bv64): bv64 { v - v % 0x1000 }

  lemma PageStartIs(v: bv64)
    ensures v & !0xFFF == PageStart(v)
  {
  }

  // ---------------------------------------------------------------- entries

  const PRESENT: bv64 := 1
  const WRITEABLE: bv64 := 2
  const USER_ACCESSIBLE: bv64 := 4
  const UPPER_ADDRESS_MASK: bv64 := 0xFFF_FFFF << 12
  const PAGE_ADDRESS_MASK: bv64 := !0xFFF

  function CreateUser(pageBase: bv64): bv64 {
    PRESENT | WRITEABLE | USER_ACCESSIBLE | pageBase
  }

  predicate IsPresent(entry: bv64) { entry & PRESENT != 0 }

  /** Entries of the three upper levels keep address bits 12 to 39 only. */
  function UpperBase(entry: bv64): bv64 { entry & UPPER_ADDRESS_MASK }

  function PageBase(entry: bv64): bv64 { entry & PAGE_ADDRESS_MASK }

  /** A table's address survives in an upper entry if and only if it is page aligned and below 2^40. */
  lemma UpperEntryRoundTrip(f: bv64)
    ensures IsPresent(CreateUser(f)) && CreateUser(f) & WRITEABLE != 0 && CreateUser(f) & USER_ACCESSIBLE != 0
    ensures UpperBase(CreateUser(f)) == f <==> f & 0xFFF == 0 && f < 0x100_0000_0000
  {
  }

  /** A page's address survives in a leaf entry if and only if it is page aligned. */
  lemma PageEntryRoundTrip(f: bv64)
    ensures IsPresent(CreateUser(f)) && CreateUser(f) & WRITEABLE != 0 && CreateUser(f) & USER_ACCESSIBLE != 0
    ensures PageBase(CreateUser(f)) == f <==> f & 0xFFF == 0
  {
  }

  // The fields of an entry in arithmetic: bit 0 says present, and the address fields are whole pages.

  lemma PresentIsOdd(entry: bv64)
    ensures IsPresent(entry) <==> entry % 2 == 1
  {
  }

  lemma UpperBaseIs(entry: bv64)
    ensures UpperBase(entry) == entry % 0x100_0000_0000 - entry % 0x1000
  {
  }

  lemma PageBaseIs(entry: bv64)
    ensures PageBase(entry) == PageStart(entry)
  {
    PageStartIs(entry);
    assert PageBase(entry) == entry & !0xFFF;
    hide PageStart;
  }

  /** An entry made for an aligned address sets its three lowest bits and no other. */
  lemma CreateUserIs(pageBase: bv64)
    requires PageAligned(pageBase)
    ensures CreateUser(pageBase) == pageBase + 7
  {
  }

  // ---------------------------------------------------------------- entry addresses

  /** `GetEntry(index)` of the table at `table`. */
  function EntryAt(table: bv64, index: bv64): bv64 {
    table + (index << 3)
  }

  /** Entry `index` of a table is 8 * index bytes into it, and inside its page. */
  lemma EntryAddress(table: bv64, index: bv64)
    requires index < 512
    ensures EntryAt(table, index) == table + 8 * index
    ensures PageAligned(table) ==> EntryAt(table, index) & !0xFFF == table
  {
  }

  /** Entries of page-aligned tables never coincide. */
  lemma EntryAtInjective(t: bv64, i: bv64, t': bv64, i': bv64)
    requires t & 0xFFF == 0 && t' & 0xFFF == 0 && i < 512 && i' < 512
    ensures EntryAt(t, i) == EntryAt(t', i') ==> t == t' && i == i'
  {
  }

  predicate PageAligned(a: bv64) { a & 0xFFF == 0 }

  predicate SamePage(u: bv64, v: bv64) { u & !0xFFF == v & !0xFFF }

  lemma SamePageIff(u: bv64, v: bv64)
    ensures SamePage(u, v) <==> PageStart(u) == PageStart(v)
  {
    PageStartIs(u);
    PageStartIs(v);
    hide PageStart;
  }

  /** Canonical addresses take the same path through the tables exactly when they are in the same page. */
  lemma SamePath(u: bv64, v: bv64)
    requires IsCanonical(u) && IsCanonical(v)
    ensures ExtractPageIndices(u) == ExtractPageIndices(v) <==> SamePage(u, v)
  {
    assert SamePage(u, v) ==> ExtractPageIndices(u) == ExtractPageIndices(v);
    if ExtractPageIndices(u) == ExtractPageIndices(v) {
      CanonicalDetermined(u & !0xFFF, v & !0xFFF);
    }
  }
}
