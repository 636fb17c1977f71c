/** The boot memory map, and the page frames it makes available to the allocator. */
module MemoryMaps {
  import opened WordMemory
  import opened Chains

  const MAX_ENTRIES: nat := 20
  /** Last address some 32-bit drivers can use. */
  const CUTOFF: nat := 0xFFFF_FFFF
  /** `std::size_t` arithmetic wraps here. */
  const SIZE_T: nat := 0x1_0000_0000_0000_0000

  datatype EntryType =
    | Useable | Reserved | AcpiReclaimable | AcpiNVS | BadMemory
    | BootLoaderReclaimable | Kernel | FrameBuffer | Empty | Unknown

  datatype Entry = Entry(base: nat, length: nat, kind: EntryType) {
    function End(): nat { base + length }

    /** The region contains both addresses up to the cutoff and addresses above it. */
    predicate Straddles() { base <= CUTOFF < End() }
  }

  /** What the allocator assumes of its memory map: useable regions are non-null, page granular,
      ascending, disjoint, and end inside the 64-bit address space. */
  ghost predicate WellFormed(e: seq<Entry>) {
    && (forall i :: 0 <= i < |e| && e[i].kind.Useable? ==>
          0 < e[i].base && 0 < e[i].length && e[i].End() < SIZE_T
          && e[i].base % PAGE_SIZE == 0 && e[i].length % PAGE_SIZE == 0)
    && (forall i, j :: 0 <= i < j < |e| && e[i].kind.Useable? && e[j].kind.Useable? ==>
          e[i].End() <= e[j].base)
  }

  function UseableBytes(e: seq<Entry>): nat {
    if e == [] then 0
    else
      var last := e[|e| - 1];
      UseableBytes(e[..|e| - 1]) + if last.kind.Useable? then last.length else 0
  }

  /** The bases of the pages in [base, base + length). */
  function PagesOf(base: nat, length: nat): (s: seq<nat>)
    ensures |s| == length / PAGE_SIZE
  {
    seq(length / PAGE_SIZE, i requires 0 <= i => base + i * PAGE_SIZE)
  }

  /** `InitialiseList` (top) and `InitialiseLowList` (not top) each use the regions chosen here. */
  predicate Selected(entry: Entry, top: bool) {
    entry.kind.Useable? && (top <==> entry.End() > CUTOFF)
  }

  function PageBases(e: seq<Entry>, top: bool): seq<nat> {
    if e == [] then []
    else
      var last := e[|e| - 1];
      PageBases(e[..|e| - 1], top) + if Selected(last, top) then PagesOf(last.base, last.length) else []
  }

  // ---------------------------------------------------------------- lemmas

  lemma {:induction false} UseableBytesBounded(e: seq<Entry>, bound: nat)
    requires WellFormed(e)
    requires forall i :: 0 <= i < |e| && e[i].kind.Useable? ==> e[i].End() <= bound
    ensures UseableBytes(e) <= bound
  {
    if e == [] {
    } else {
      var n := |e| - 1;
      UseableBytesBounded(e[..n], if e[n].kind.Useable? then e[n].base else bound);
    }
  }

  /** The 64-bit sum of the useable lengths cannot wrap. */
  lemma UseableBytesFit(e: seq<Entry>)
    requires WellFormed(e)
    ensures UseableBytes(e) < SIZE_T
  {
    UseableBytesBounded(e, SIZE_T - 1);
  }

  ghost predicate PageOfRegion(e: seq<Entry>, top: bool, p: nat, i: nat)
  {
    i < |e| && Selected(e[i], top) && e[i].base <= p < e[i].End() && p % PAGE_SIZE == 0
  }

  lemma PagesOfMember(base: nat, length: nat, p: nat)
    requires base % PAGE_SIZE == 0 && length % PAGE_SIZE == 0
    ensures p in PagesOf(base, length) <==> base <= p < base + length && p % PAGE_SIZE == 0
  {
    var s := PagesOf(base, length);
    if base <= p < base + length && p % PAGE_SIZE == 0 {
      assert s[(p - base) / PAGE_SIZE] == p;
    }
  }

  /** The list built from a memory map holds exactly the page bases of the selected regions. */
  lemma {:induction false} PageBasesMember(e: seq<Entry>, top: bool, p: nat)
    requires WellFormed(e)
    ensures p in PageBases(e, top) <==> exists i: nat :: PageOfRegion(e, top, p, i)
  {
    if e == [] {
    } else {
      var n := |e| - 1;
      var front := e[..n];
      PageBasesMember(front, top, p);
      assert forall i: nat :: i < n ==> (PageOfRegion(e, top, p, i) <==> PageOfRegion(front, top, p, i));
      if Selected(e[n], top) {
        PagesOfMember(e[n].base, e[n].length, p);
        assert PageOfRegion(e, top, p, n) <==> p in PagesOf(e[n].base, e[n].length);
      }
    }
  }

  /** ... in ascending order. */
  lemma {:induction false} PageBasesSorted(e: seq<Entry>, top: bool)
    requires WellFormed(e)
    ensures Sorted(PageBases(e, top))
  {
    if e == [] {
    } else {
      var n := |e| - 1;
      PageBasesSorted(e[..n], top);
      if Selected(e[n], top) {
        var s := PageBases(e[..n], top);
        forall i | 0 <= i < |s| ensures s[i] < e[n].base {
          assert s[i] in s;
          PageBasesMember(e[..n], top, s[i]);
        }
      }
    }
  }

  /** What one more entry of the memory map adds. */
  lemma PageBasesStep(e: seq<Entry>, top: bool, i: nat)
    requires WellFormed(e) && i < |e|
    ensures PageBases(e[..i + 1], top) ==
            PageBases(e[..i], top) + if Selected(e[i], top) then PagesOf(e[i].base, e[i].length) else []
    ensures Sorted(PageBases(e[..i + 1], top))
    ensures e[i].kind.Useable? ==> e[i].base > 0 && e[i].length > 0 && e[i].length % PAGE_SIZE == 0
  {
    assert e[..i + 1][..i] == e[..i];
    PageBasesSorted(e[..i + 1], top);
  }

  /** Both lists together account for every useable byte. */
  lemma {:induction false} PageBasesCount(e: seq<Entry>)
    requires WellFormed(e)
    ensures |PageBases(e, true)| + |PageBases(e, false)| == UseableBytes(e) / PAGE_SIZE
    ensures UseableBytes(e) % PAGE_SIZE == 0
  {
    if e == [] {
    } else {
      PageBasesCount(e[..|e| - 1]);
    }
  }

  ghost predicate NoneStraddles(e: seq<Entry>) {
    forall i :: 0 <= i < |e| && e[i].kind.Useable? ==> !e[i].Straddles()
  }

  ghost predicate AllAboveCutoff(s: seq<nat>) { forall p :: p in s ==> p > CUTOFF }

  ghost predicate AllUpToCutoff(s: seq<nat>) { forall p :: p in s ==> p <= CUTOFF }

  /** The cutoff separates the two lists if and only if no useable region straddles it.  A region that
      ends exactly at 4 GiB straddles: all its pages go to the top list. */
  lemma CutoffSplitsLists(e: seq<Entry>)
    requires WellFormed(e)
    ensures AllUpToCutoff(PageBases(e, false))
    ensures AllAboveCutoff(PageBases(e, true)) <==> NoneStraddles(e)
  {
    forall p | p in PageBases(e, false) ensures p <= CUTOFF {
      PageBasesMember(e, false, p);
    }
    forall i | 0 <= i < |e| && e[i].kind.Useable? && e[i].Straddles()
      ensures !AllAboveCutoff(PageBases(e, true))
    {
      PageBasesMember(e, true, e[i].base);
      assert PageOfRegion(e, true, e[i].base, i);
    }
    if NoneStraddles(e) {
      forall p | p in PageBases(e, true) ensures p > CUTOFF {
        PageBasesMember(e, true, p);
      }
    }
  }

  /** One page below 4 GiB: its region is put on the top list although its address is not above the cutoff. */
  lemma StraddlingRegionExample()
    ensures var e := [Entry(0xFFFF_F000, 0x1000, Useable)];
            WellFormed(e) && 0xFFFF_F000 in PageBases(e, true) && 0xFFFF_F000 <= CUTOFF
  {
    var e := [Entry(0xFFFF_F000, 0x1000, Useable)];
    PageBasesMember(e, true, 0xFFFF_F000);
    assert PageOfRegion(e, true, 0xFFFF_F000, 0);
  }

  // ---------------------------------------------------------------- the class

  class MemoryMap {
    const entries: array<Entry>
    var totalUseableBytes: nat

    constructor ()
      ensures entries.Length == MAX_ENTRIES && fresh(entries)
    {
      entries := new Entry[MAX_ENTRIES](_ => Entry(0, 0, Empty));
      totalUseableBytes := 0;
    }

    /** Loads the map from a list: the rest of the table is padded with empty entries. */
    method Init(src: seq<Entry>)
      requires entries.Length == MAX_ENTRIES
      requires |src| < MAX_ENTRIES
      modifies this, entries
      ensures entries[..] == src + seq(MAX_ENTRIES - |src|, _ => Entry(0, 0, Empty))
      ensures totalUseableBytes == UseableBytes(entries[..]) % SIZE_T
      ensures WellFormed(src) ==> WellFormed(entries[..])
    {
      for i := 0 to entries.Length
        invariant forall k :: 0 <= k < i ==> entries[k] == Entry(0, 0, Empty)
      {
        entries[i] := Entry(0, 0, Empty);
      }
      for i := 0 to |src|
        invariant forall k :: 0 <= k < i ==> entries[k] == src[k]
        invariant forall k :: i <= k < entries.Length ==> entries[k] == Entry(0, 0, Empty)
      {
        entries[i] := src[i];
      }
      InitialiseUseableData();
    }

    method InitialiseUseableData()
      modifies this`totalUseableBytes
      ensures totalUseableBytes == UseableBytes(entries[..]) % SIZE_T
    {
      var total := 0;
      for i := 0 to entries.Length
        invariant total == UseableBytes(entries[..i]) % SIZE_T
      {
        assert entries[..i + 1][..i] == entries[..i];
        if entries[i].kind.Useable? {
          total := (total + entries[i].length) % SIZE_T;
        }
      }
      assert entries[..entries.Length] == entries[..];
      totalUseableBytes := total;
    }

    function TotalUseablePageFrames(pageSize: nat): nat
      requires pageSize != 0
      reads this
    {
      totalUseableBytes / pageSize
    }
  }
}
