/** One slab of equally sized slots: its geometry, its free chain, and what allocating and freeing a
    slot does to it. */
module SlabSpec {
  import opened WordMemory
  import opened Chains

  const MIN_BUFFER_SIZE: nat := 8

  /** `free` lists the free slots; `tail` says whether the truncated slot that `SetupLinkage` links
      behind them is still on the chain. */
  datatype Slab = Slab(base: nat, bufferSize: nat, pages: nat, total: nat, used: nat, free: seq<nat>, tail: bool) {
    function Bytes(): nat { PAGE_SIZE * pages }
    function Limit(): nat { base + Bytes() }
    predicate InRange(a: nat) { base <= a < Limit() }
  }

  /** Address of slot `k`. */
  function SlotAt(base: nat, size: nat, k: nat): nat {
    if k == 0 then base else SlotAt(base, size, k - 1) + size
  }

  function SlotSeq(base: nat, size: nat, n: nat): seq<nat> {
    seq(n, k requires 0 <= k => SlotAt(base, size, k))
  }

  /** The whole slots of a slab. */
  function Slots(s: Slab): seq<nat> {
    SlotSeq(s.base, s.bufferSize, s.total)
  }

  function TailCell(s: Slab): nat {
    SlotAt(s.base, s.bufferSize, s.total)
  }

  /** The cells on the free chain, in chain order. */
  function Cells(s: Slab): seq<nat> {
    s.free + if s.tail then [TailCell(s)] else []
  }

  /** The slots handed out. */
  ghost function Live(s: Slab): set<nat> {
    Elements(Slots(s)) - Elements(s.free)
  }

  ghost predicate Geometry(s: Slab) {
    && s.base > 0 && s.bufferSize >= MIN_BUFFER_SIZE && s.pages > 0
    && s.total == s.Bytes() / s.bufferSize
  }

  /** The free slots are sorted, whole, as many as are not in use; a truncated tail slot exists only
      when the buffer size does not divide the region, and is gone once the slab has filled up. */
  ghost predicate SlabInv(s: Slab) {
    && Geometry(s)
    && Sorted(s.free)
    && (forall a :: a in s.free ==> a in Slots(s))
    && s.used + |s.free| == s.total
    && (s.tail ==> s.Bytes() % s.bufferSize != 0)
    && (s.used == s.total && s.total > 0 ==> !s.tail)
  }

  // ---------------------------------------------------------------- operations

  ghost function Allocate(s: Slab): (Slab, nat)
    requires SlabInv(s)
  {
    if s.used == s.total then (s, 0)
    else (s.(used := s.used + 1, free := s.free[1..], tail := s.tail && s.used + 1 != s.total), s.free[0])
  }

  ghost function Deallocate(s: Slab, a: nat): Slab {
    if !s.InRange(a) || s.used == 0 then s
    else s.(used := s.used - 1, free := Insert(s.free, a))
  }

  /** Memory after `Deallocate`; `Allocate` writes nothing. */
  ghost function DeallocatedWords(w: Words, s: Slab, a: nat): Words {
    if !s.InRange(a) || s.used == 0 then w else Linked(w, Cells(s), a)
  }

  /** What `Deallocate` demands: an address inside the slab is a slot that is in use. */
  ghost predicate MayFree(s: Slab, a: nat) {
    s.InRange(a) && s.used > 0 ==> a in Live(s)
  }

  // ---------------------------------------------------------------- geometry

  lemma {:induction false} SlotAtMonotone(base: nat, size: nat, i: nat, j: nat)
    requires i <= j
    ensures SlotAt(base, size, i) <= SlotAt(base, size, j)
    ensures i < j ==> SlotAt(base, size, i) + size <= SlotAt(base, size, j)
    decreases j
  {
    if i == j {
    } else {
      SlotAtMonotone(base, size, i, j - 1);
    }
  }

  /** Slot addresses are the multiples of the buffer size above the base. */
  lemma {:induction false} SlotAtIs(base: nat, size: nat, k: nat)
    ensures SlotAt(base, size, k) == base + k * size
  {
    if k == 0 {
    } else {
      SlotAtIs(base, size, k - 1);
      assert k * size == (k - 1) * size + size;
    }
  }

  /** Distinct slots are at least a buffer size apart. */
  lemma SlotsApart(base: nat, size: nat, n: nat, a: nat, b: nat)
    requires a in SlotSeq(base, size, n) && b in SlotSeq(base, size, n) && a < b
    ensures a + size <= b
  {
    var i :| 0 <= i < n && SlotSeq(base, size, n)[i] == a;
    var j :| 0 <= j < n && SlotSeq(base, size, n)[j] == b;
    if i < j { SlotAtMonotone(base, size, i, j); } else { SlotAtMonotone(base, size, j, i); }
  }

  lemma SlotSeqSorted(base: nat, size: nat, n: nat)
    requires size > 0
    ensures Sorted(SlotSeq(base, size, n))
  {
    forall i, j | 0 <= i < j < n ensures SlotAt(base, size, i) < SlotAt(base, size, j) {
      SlotAtMonotone(base, size, i, j);
    }
  }

  /** How many cells `SetupLinkage` links: the whole slots, and one more if a part of a slot is left over. */
  function CellCount(bytes: nat, size: nat): nat
    requires size > 0
  {
    bytes / size + if bytes % size != 0 then 1 else 0
  }

  lemma CellsBelowLimit(base: nat, size: nat, bytes: nat, k: nat)
    requires size > 0
    ensures SlotAt(base, size, k) < base + bytes <==> k < CellCount(bytes, size)
    ensures SlotAt(base, size, k) + size <= base + bytes <==> k < bytes / size
  {
    SlotAtIs(base, size, k);
    DivisionLemma(bytes, size, k);
  }

  lemma DivisionLemma(bytes: nat, size: nat, k: nat)
    requires size > 0
    ensures k * size < bytes <==> k < CellCount(bytes, size)
    ensures k * size + size <= bytes <==> k < bytes / size
  {
    var q, r := bytes / size, bytes % size;
    assert bytes == q * size + r;
    if k < q {
      assert (k + 1) * size <= q * size by { MulMonotone(k + 1, q, size); }
      assert (k + 1) * size == k * size + size;
    } else if k > q {
      assert (q + 1) * size <= k * size by { MulMonotone(q + 1, k, size); }
      assert (q + 1) * size == q * size + size;
    }
  }

  lemma MulMonotone(a: nat, b: nat, c: nat)
    requires a <= b
    ensures a * c <= b * c
  {
  }

  /** Every whole slot lies inside the slab. */
  lemma SlotInside(s: Slab, a: nat)
    requires Geometry(s) && a in Slots(s)
    ensures s.base <= a && a + s.bufferSize <= s.Limit() && s.InRange(a)
    ensures a < TailCell(s)
  {
    var k :| 0 <= k < s.total && Slots(s)[k] == a;
    CellsBelowLimit(s.base, s.bufferSize, s.Bytes(), k);
    SlotAtMonotone(s.base, s.bufferSize, 0, k);
    SlotAtMonotone(s.base, s.bufferSize, k, s.total);
  }

  /** The free chain is strictly ascending; its tail slot, if any, comes last. */
  lemma CellsSorted(s: Slab)
    requires SlabInv(s)
    ensures Sorted(Cells(s)) && 0 !in Cells(s)
    ensures forall c :: c in Cells(s) ==> s.InRange(c)
    ensures forall c :: c in Cells(s) <==> c in s.free || (s.tail && c == TailCell(s))
  {
    forall a | a in s.free ensures s.base <= a < TailCell(s) && s.InRange(a) {
      SlotInside(s, a);
    }
    if s.tail {
      CellsBelowLimit(s.base, s.bufferSize, s.Bytes(), s.total);
      SlotAtMonotone(s.base, s.bufferSize, 0, s.total);
    }
    forall i, j | 0 <= i < j < |Cells(s)| ensures Cells(s)[i] < Cells(s)[j] {
      assert i < |s.free| ==> s.free[i] in s.free;
    }
  }

  /** A new slab: every whole slot is free, and the left-over of the region, if any, is linked behind them. */
  function NewSlab(base: nat, size: nat, pages: nat): Slab
    requires size > 0
  {
    var bytes := PAGE_SIZE * pages;
    var total := bytes / size;
    Slab(base, size, pages, total, 0, SlotSeq(base, size, total), bytes % size != 0)
  }

  lemma NewSlabInv(base: nat, size: nat, pages: nat)
    requires base > 0 && size >= MIN_BUFFER_SIZE && pages > 0
    ensures var s := NewSlab(base, size, pages);
            && SlabInv(s) && Live(s) == {}
            && Cells(s) == SlotSeq(base, size, CellCount(s.Bytes(), size))
            && Sorted(Cells(s)) && 0 !in Cells(s) && Cells(s) != []
  {
    var s := NewSlab(base, size, pages);
    SlotSeqSorted(base, size, s.total);
    if s.total == 0 { CellsBelowLimit(base, size, s.Bytes(), 0); }
    CellsSorted(s);
  }

  /** Link words and live slots never share a byte, so freeing a slot changes no live object, and a
      client writing inside its slot changes no link. */
  lemma LinksMissLiveSlots(s: Slab, c: nat, l: nat)
    requires SlabInv(s) && c in Cells(s) && l in Live(s)
    ensures !Overlap(c, LINK_BYTES, l, s.bufferSize)
  {
    CellsSorted(s);
    if c in s.free {
      if c < l {
        SlotsApart(s.base, s.bufferSize, s.total, c, l);
      } else {
        SlotsApart(s.base, s.bufferSize, s.total, l, c);
      }
    } else {
      var k :| 0 <= k < s.total && Slots(s)[k] == l;
      SlotAtMonotone(s.base, s.bufferSize, k, s.total);
    }
  }

  /** What is left over behind the whole slots is nothing, or has room for a link. */
  ghost predicate LinksFit(s: Slab)
    requires s.bufferSize > 0
  {
    s.Bytes() % s.bufferSize == 0 || s.Bytes() % s.bufferSize >= LINK_BYTES
  }

  /** So it is for every buffer size that is a multiple of 8. */
  lemma MultipleOfEightFits(s: Slab)
    requires s.bufferSize > 0 && s.bufferSize % 8 == 0
    ensures LinksFit(s)
  {
    var q, r, e := s.Bytes() / s.bufferSize, s.Bytes() % s.bufferSize, s.bufferSize / 8;
    assert s.Bytes() == q * s.bufferSize + r;
    assert q * s.bufferSize == 8 * (q * e);
    assert r == 8 * (512 * s.pages - q * e);
  }

  /** All links lie inside the slab if and only if no left-over tail is shorter than a link. */
  lemma LinksInsideSlab(s: Slab)
    requires Geometry(s)
    ensures (forall k: nat :: k < CellCount(s.Bytes(), s.bufferSize) ==>
               SlotAt(s.base, s.bufferSize, k) + LINK_BYTES <= s.Limit())
       <==> LinksFit(s)
  {
    var n := CellCount(s.Bytes(), s.bufferSize);
    forall k: nat | k < s.total ensures SlotAt(s.base, s.bufferSize, k) + LINK_BYTES <= s.Limit() {
      CellsBelowLimit(s.base, s.bufferSize, s.Bytes(), k);
    }
    if s.Bytes() % s.bufferSize != 0 {
      SlotAtIs(s.base, s.bufferSize, s.total);
      assert s.Bytes() == s.total * s.bufferSize + s.Bytes() % s.bufferSize;
      assert s.total < n;
    }
  }

  /** The word at `a` shares no byte with a link in one of the cells. */
  ghost predicate WordApart(a: nat, cells: seq<nat>) {
    forall c :: c in cells ==> !Overlap(a, LINK_BYTES, c, LINK_BYTES)
  }

  lemma ApartIsOff(a: nat, cells: seq<nat>)
    requires WordApart(a, cells)
    ensures a !in cells
  {
    assert a in cells ==> Overlap(a, LINK_BYTES, a, LINK_BYTES);
  }

  /** One page of slots of 9 bytes leaves one byte over: the last link, in cell 0x1FFF, runs into the word at
      0x2000, the first behind the slab. */
  lemma ShortTailExample()
    ensures var s := NewSlab(0x1000, 9, 1);
            && SlabInv(s) && !LinksFit(s) && s.Limit() == 0x2000
            && 0x1FFF in Cells(s) && !WordApart(0x2000, Cells(s))
  {
    var s := NewSlab(0x1000, 9, 1);
    NewSlabInv(0x1000, 9, 1);
    SlotAtIs(0x1000, 9, 455);
    assert s.total == 455 && TailCell(s) == 0x1FFF;
    CellsSorted(s);
  }

  /** The number of slots a descriptor records: it keeps it in 16 bits. */
  function SlotCount(size: nat, pages: nat): nat
    requires size > 0
  {
    pages * PAGE_SIZE / size % UINT16
  }

  /** A region of 512 KiB in slots of 8 bytes has 65536 of them and counts as having none: its slab is full
      from the start. */
  lemma SlotCountWrapExample()
    ensures NewSlab(0x1000, 8, 128).total == 65536 && SlotCount(8, 128) == 0
  {
  }

  /** Where all links fit, words that do not reach into the region share no byte with any of them. */
  lemma OutsideIsApart(s: Slab, a: nat)
    requires SlabInv(s) && LinksFit(s)
    requires a + LINK_BYTES <= s.base || s.Limit() <= a
    ensures WordApart(a, Cells(s))
  {
    forall c | c in Cells(s) ensures !Overlap(a, LINK_BYTES, c, LINK_BYTES) {
      CellsSpaced(s, c);
    }
  }

  /** The cells of a chain keep their distance, and stay inside the slab. */
  lemma CellsSpaced(s: Slab, c: nat)
    requires SlabInv(s) && LinksFit(s) && c in Cells(s)
    ensures s.base <= c && c + LINK_BYTES <= s.Limit()
    ensures forall d :: d in Cells(s) && d != c ==> !Overlap(c, LINK_BYTES, d, LINK_BYTES)
  {
    CellIndex(s, c);
    forall d | d in Cells(s) && d != c ensures !Overlap(c, LINK_BYTES, d, LINK_BYTES) {
      CellIndex(s, d);
      SlotsApart(s.base, s.bufferSize, s.total + 1, if c < d then c else d, if c < d then d else c);
    }
    LinksInsideSlab(s);
    var k :| 0 <= k < CellCount(s.Bytes(), s.bufferSize) && SlotAt(s.base, s.bufferSize, k) == c;
    SlotAtMonotone(s.base, s.bufferSize, 0, k);
  }

  lemma CellIndex(s: Slab, c: nat)
    requires SlabInv(s) && c in Cells(s)
    ensures c in SlotSeq(s.base, s.bufferSize, s.total + 1)
    ensures exists k :: 0 <= k < CellCount(s.Bytes(), s.bufferSize) && SlotAt(s.base, s.bufferSize, k) == c
  {
    CellsSorted(s);
    if c in s.free {
      var k :| 0 <= k < s.total && Slots(s)[k] == c;
      assert SlotSeq(s.base, s.bufferSize, s.total + 1)[k] == c;
      assert SlotAt(s.base, s.bufferSize, k) == c;
    } else {
      assert SlotSeq(s.base, s.bufferSize, s.total + 1)[s.total] == c;
      assert SlotAt(s.base, s.bufferSize, s.total) == c;
    }
  }

  // ---------------------------------------------------------------- what the operations do

  /** `Allocate` fails exactly on a full slab; otherwise it hands out the lowest slot not in use, whole
      and inside the slab. */
  lemma AllocateLowest(s: Slab)
    requires SlabInv(s)
    ensures var (s', r) := Allocate(s);
            && SlabInv(s')
            && (r == 0 <==> s.used == s.total)
            && (r != 0 ==>
                  && r in Slots(s) && r !in Live(s)
                  && s.base <= r && r + s.bufferSize <= s.Limit()
                  && (forall a :: a in Slots(s) && a < r ==> a in Live(s))
                  && Live(s') == Live(s) + {r})
  {
    if s.used != s.total {
      var r := s.free[0];
      assert r in s.free;
      SlotInside(s, r);
      assert s.free == [r] + s.free[1..];
      assert r !in s.free[1..];
    }
  }

  /** After `Allocate` the chain is the old one without its head, or empty once the slab is full. */
  lemma AllocateCells(s: Slab)
    requires SlabInv(s) && s.used < s.total
    ensures Cells(s) != [] && Cells(s)[0] == s.free[0]
    ensures Cells(Allocate(s).0) == if s.used + 1 == s.total then [] else Cells(s)[1..]
  {
  }

  lemma DeallocateCells(s: Slab, a: nat)
    requires SlabInv(s) && a in Live(s)
    ensures a !in Cells(s) && a != 0 && s.InRange(a)
    ensures Insert(s.free, a) + (if s.tail then [TailCell(s)] else []) == Insert(Cells(s), a)
  {
    CellsSorted(s);
    SlotInside(s, a);
    InsertBefore(s.free, if s.tail then [TailCell(s)] else [], a);
  }

  /** `Deallocate` of a slot in use returns exactly that slot, and puts it at its sorted place on the chain. */
  lemma DeallocateReturns(s: Slab, a: nat)
    requires SlabInv(s) && a in Live(s)
    ensures var s' := Deallocate(s, a);
            && SlabInv(s') && s'.used == s.used - 1
            && Live(s') == Live(s) - {a}
            && Cells(s') == Insert(Cells(s), a)
  {
    DeallocateCells(s, a);
    LiveCount(s);
    InsertSorted(s.free, a);
    InsertElements(s.free, a);
  }

  /** Memory follows: the new chain is threaded through the slab, and no other cell changes. */
  lemma DeallocateChain(w: Words, s: Slab, a: nat)
    requires SlabInv(s) && a in Live(s) && Chain(w, At(Cells(s), 0), Cells(s))
    ensures var w', s' := DeallocatedWords(w, s, a), Deallocate(s, a);
            && w' == Linked(w, Cells(s), a)
            && Chain(w', At(Cells(s'), 0), Cells(s'))
            && (forall c :: c !in Cells(s') ==> Load(w', c) == Load(w, c))
            && (forall c :: c in Cells(s) ==> c in Cells(s'))
  {
    DeallocateCells(s, a);
    DeallocateReturns(s, a);
    CellsSorted(s);
    ChainInsert(w, Cells(s), a);
    LinkedFrame(w, Cells(s), a);
    InsertElements(Cells(s), a);
  }

  /** Freeing a slot leaves a free chain if and only if the slot was in use: a second free ties the chain
      into a loop. */
  lemma DeallocateChainIff(w: Words, s: Slab, a: nat)
    requires SlabInv(s) && a in Slots(s) && s.used > 0 && Chain(w, At(Cells(s), 0), Cells(s))
    ensures (exists t :: Chain(DeallocatedWords(w, s, a), At(Insert(Cells(s), a), 0), t)) <==> a in Live(s)
  {
    SlotInside(s, a);
    if a in Live(s) {
      DeallocateReturns(s, a);
      DeallocateChain(w, s, a);
    } else {
      CellsSorted(s);
      RelinkLoops(w, Cells(s), a);
    }
  }

  /** Freeing any other address inside a slab that has objects leaves a free list that is wrong. */
  lemma MisfreeUnsound(s: Slab, a: nat)
    requires SlabInv(s) && !MayFree(s, a)
    ensures !SlabInv(Deallocate(s, a))
  {
    if a in s.free {
      InsertTwice(s.free, a);
    } else {
      InsertElements(s.free, a);
      assert a in Insert(s.free, a) && a !in Slots(s);
    }
  }

  /** A free keeps the slab sound, its chain included, if and only if the address is outside the slab, or the
      slab has no object, or the address is that of an object. */
  lemma DeallocateSoundIff(w: Words, s: Slab, a: nat)
    requires SlabInv(s) && Chain(w, At(Cells(s), 0), Cells(s))
    ensures var w', s' := DeallocatedWords(w, s, a), Deallocate(s, a);
            SlabInv(s') && Chain(w', At(Cells(s'), 0), Cells(s')) <==> MayFree(s, a)
  {
    if !MayFree(s, a) {
      MisfreeUnsound(s, a);
    } else if s.InRange(a) && s.used > 0 {
      DeallocateReturns(s, a);
      DeallocateChain(w, s, a);
    }
  }

  /** The same, told from the head of the chain that `Deallocate` builds. */
  lemma FreedChainSoundIff(w: Words, s: Slab, a: nat)
    requires SlabInv(s) && Chain(w, At(Cells(s), 0), Cells(s)) && s.InRange(a) && s.used > 0
    ensures var w', s' := Linked(w, Cells(s), a), Deallocate(s, a);
            SlabInv(s') && Chain(w', At(Insert(Cells(s), a), 0), Cells(s')) <==> MayFree(s, a)
  {
    DeallocateSoundIff(w, s, a);
    if MayFree(s, a) {
      DeallocateReturns(s, a);
    } else {
      MisfreeUnsound(s, a);
    }
  }

  lemma LinkedFrame(w: Words, s: seq<nat>, x: nat)
    ensures forall c :: c !in Insert(s, x) ==> Load(Linked(w, s, x), c) == Load(w, c)
  {
    InsertElements(s, x);
  }

  /** The number of slots in use is the used count. */
  lemma LiveCount(s: Slab)
    requires SlabInv(s)
    ensures |Live(s)| == s.used
  {
    SlotSeqSorted(s.base, s.bufferSize, s.total);
    SortedSize(Slots(s));
    SortedSize(s.free);
    assert Elements(s.free) <= Elements(Slots(s));
  }

  /** The chain of a slab depends only on which slots are in use and on whether the tail is linked. */
  lemma ChainDeterminedByLive(s: Slab, t: Slab)
    requires SlabInv(s) && SlabInv(t)
    requires s.base == t.base && s.bufferSize == t.bufferSize && s.pages == t.pages
    requires Live(s) == Live(t) && s.tail == t.tail
    ensures s == t
  {
    forall a ensures a in s.free <==> a in t.free {
      assert a in s.free <==> a in Slots(s) && a !in Live(s);
      assert a in t.free <==> a in Slots(t) && a !in Live(t);
    }
    SortedUnique(s.free, t.free);
  }

  /** Freeing two objects in either order gives the same slab and the same memory. */
  lemma FreeOrderIrrelevant(w: Words, s: Slab, a: nat, b: nat)
    requires SlabInv(s) && Chain(w, At(Cells(s), 0), Cells(s))
    requires a in Live(s) && b in Live(s) && a != b
    ensures Deallocate(Deallocate(s, a), b) == Deallocate(Deallocate(s, b), a)
    ensures forall c :: Load(DeallocatedWords(DeallocatedWords(w, s, a), Deallocate(s, a), b), c)
                     == Load(DeallocatedWords(DeallocatedWords(w, s, b), Deallocate(s, b), a), c)
  {
    hide Live, SlabInv, Cells, DeallocatedWords, Deallocate;
    var wab, sab := FreeBoth(w, s, a, b);
    var wba, sba := FreeBoth(w, s, b, a);
    ChainDeterminedByLive(sab, sba);
    var t := Cells(sab);
    forall c ensures Load(wab, c) == Load(wba, c) {
      if c in t {
        var i :| 0 <= i < |t| && t[i] == c;
        assert Load(wab, t[i]) == At(t, i + 1) && Load(wba, t[i]) == At(t, i + 1);
      }
    }
  }

  lemma FreeBoth(w: Words, s: Slab, a: nat, b: nat) returns (w2: Words, s2: Slab)
    requires SlabInv(s) && Chain(w, At(Cells(s), 0), Cells(s))
    requires a in Live(s) && b in Live(s) && a != b
    ensures s2 == Deallocate(Deallocate(s, a), b)
    ensures w2 == DeallocatedWords(DeallocatedWords(w, s, a), Deallocate(s, a), b)
    ensures SlabInv(s2) && Chain(w2, At(Cells(s2), 0), Cells(s2))
    ensures Live(s2) == Live(s) - {a, b}
    ensures s2.base == s.base && s2.bufferSize == s.bufferSize && s2.pages == s.pages && s2.tail == s.tail
    ensures forall c :: c !in Cells(s2) ==> Load(w2, c) == Load(w, c)
  {
    hide Live, SlabInv, Cells, DeallocatedWords, Chain;
    DeallocateReturns(s, a);
    DeallocateChain(w, s, a);
    var s1, w1 := Deallocate(s, a), DeallocatedWords(w, s, a);
    DeallocateReturns(s1, b);
    DeallocateChain(w1, s1, b);
    s2, w2 := Deallocate(s1, b), DeallocatedWords(w1, s1, b);
  }

  /** A slab that hands out a slot and takes it back is as before, unless that filled it up and cut the
      truncated tail off. */
  lemma AllocateThenFree(s: Slab)
    requires SlabInv(s) && s.used < s.total
    ensures var (s1, r) := Allocate(s);
            Deallocate(s1, r) == s.(tail := s.tail && s.used + 1 != s.total)
  {
    var (s1, r) := Allocate(s);
    assert r in s.free;
    SlotInside(s, r);
    RankIs(s1.free, r, 0);
    assert Insert(s1.free, r) == s.free;
  }
}
