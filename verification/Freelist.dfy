/** The page-frame allocator: two address-sorted lists threaded through the free pages themselves. */
module Freelists {
  import opened WordMemory
  import opened Chains
  import opened MemoryMaps
  import opened FreelistSpec
  import opened Options
  import Runs = FreelistRuns

  /** A list head cell.  `pages` is the list it represents. */
  class ListHead {
    var next: nat
    ghost var pages: seq<nat>

    constructor ()
      ensures next == 0 && pages == []
    {
      next, pages := 0, [];
    }
  }

  /** `pages` is the sorted list hanging off this head. */
  ghost predicate IsList(w: Words, head: ListHead)
    reads head
  {
    Chain(w, head.next, head.pages) && Sorted(head.pages)
  }

  /** Loop state of `InitialiseList`: everything is linked except the last page so far. */
  ghost predicate Building(w: Words, listHead: ListHead, first: bool, lastAddr: nat)
    reads listHead
  {
    var s := listHead.pages;
    && 0 !in s && OpenChain(w, s)
    && (first <==> s == [])
    && (if s == [] then lastAddr == 0 else listHead.next == s[0] && lastAddr == s[|s| - 1])
  }

  /** A gap after position `j` rules out every run that starts in [i, j] and is long enough to cross it. */
  lemma NoRunAcross(s: seq<nat>, i: nat, j: nat, n: nat)
    requires i <= j < |s| - 1 && s[j] + PAGE_SIZE != s[j + 1] && i + n > j + 1
    ensures forall k: nat :: i <= k <= j ==> !IsRun(s, k, n)
  {
    forall k: nat | i <= k <= j ensures !IsRun(s, k, n) {
      var d := j - k;
      assert s[k + d] + PAGE_SIZE != s[k + d + 1];
    }
  }

  lemma NoRunLeft(s: seq<nat>, i: nat, n: nat)
    requires |s| >= 2 && |s| < i + n
    requires forall k: nat :: k < i ==> !IsRun(s, k, n)
    ensures RunIndex(s, n).None?
  {
  }

  lemma FirstRunAt(s: seq<nat>, i: nat, n: nat)
    requires |s| >= 2 && IsRun(s, i, n)
    requires forall k: nat :: k < i ==> !IsRun(s, k, n)
    ensures RunIndex(s, n) == Some(i)
  {
    assert i <= |s|;
  }

  /** Freeing an off-list page keeps both lists valid if and only if it is safe. */
  lemma FreedListsValid(st: State, base: nat)
    requires ListsValid(st) && base != 0
    requires base % PAGE_SIZE == 0 && base < SIZE_T && base !in st.top && base !in st.low
    ensures ListsValid(FreelistSpec.DeallocPage(st, base)) <==> SafeToFree(st.words, ListFor(st, base), base)
  {
    FreedChainIff(st.words, ListFor(st, base), base);
    if SafeToFree(st.words, ListFor(st, base), base) {
      Runs.WorldOf(st, {base});
      Runs.FreeConserves(Runs.World(st, {base}, 0, 0), base, Elements(st.top) + Elements(st.low) + {base});
    }
  }

  lemma ListsDisjoint(e: seq<Entry>)
    requires WellFormed(e)
    ensures forall p :: p in PageBases(e, true) ==> p !in PageBases(e, false)
  {
    forall p | p in PageBases(e, true) ensures p !in PageBases(e, false) {
      PageBasesMember(e, true, p);
      PageBasesMember(e, false, p);
      var i: nat :| PageOfRegion(e, true, p, i);
      assert forall j: nat :: PageOfRegion(e, false, p, j) ==> i < j || j < i;
    }
  }

  lemma PageBasesArePages(e: seq<Entry>, top: bool)
    requires WellFormed(e)
    ensures AllPages(PageBases(e, top))
    ensures |PageBases(e, top)| < SIZE_T
  {
    forall p | p in PageBases(e, top) ensures p % PAGE_SIZE == 0 && 0 < p < SIZE_T {
      PageBasesMember(e, top, p);
    }
    PageBasesSorted(e, top);
    Runs.LengthFits(PageBases(e, top));
  }

  /** The state built from a memory map: valid exactly if no useable region straddles the cutoff. */
  lemma InitialWorld(st: State, e: seq<Entry>)
    requires WellFormed(e) && st.top == PageBases(e, true) && st.low == PageBases(e, false)
    requires Chain(st.words, At(st.top, 0), st.top) && Chain(st.words, At(st.low, 0), st.low)
    requires st.freeTop == |st.top| && st.freeLow == |st.low|
    ensures ListsValid(st) <==> NoneStraddles(e)
    ensures NoneStraddles(e) ==> Runs.Inv(Runs.World(st, {}, 0, 0), Elements(st.top) + Elements(st.low))
  {
    hide Chain, Sorted, WellFormed, NoneStraddles, PageBases, AllPages, AllAboveCutoff, AllUpToCutoff, Runs.Conserved;
    PageBasesSorted(e, true);
    PageBasesSorted(e, false);
    PageBasesArePages(e, true);
    PageBasesArePages(e, false);
    CutoffSplitsLists(e);
    if NoneStraddles(e) {
      Runs.WorldOf(st, {});
      assert Elements(st.top) + Elements(st.low) + {} == Elements(st.top) + Elements(st.low);
    }
  }

  class Freelist {
    const mem: Memory
    const head: ListHead
    const lowHead: ListHead
    var freePagesTop: nat
    var freePagesLow: nat

    constructor (mem: Memory)
      ensures this.mem == mem && fresh(head) && fresh(lowHead) && head != lowHead
    {
      this.mem := mem;
      head := new ListHead();
      lowHead := new ListHead();
      freePagesTop, freePagesLow := 0, 0;
    }

    ghost function Value(): State
      reads this, mem, head, lowHead
    {
      State(mem.words, head.pages, lowHead.pages, freePagesTop, freePagesLow)
    }

    ghost predicate Valid()
      reads this, mem, head, lowHead
    {
      && head != lowHead
      && ListsValid(Value())
      && head.next == At(head.pages, 0)
      && lowHead.next == At(lowHead.pages, 0)
    }

    // -------------------------------------------------------------- initialisation

    method Init(memMap: MemoryMap)
      requires head != lowHead
      requires memMap.entries.Length == MAX_ENTRIES && WellFormed(memMap.entries[..])
      modifies this, mem, head, lowHead
      ensures head.pages == PageBases(memMap.entries[..], true)
      ensures lowHead.pages == PageBases(memMap.entries[..], false)
      ensures IsList(mem.words, head) && IsList(mem.words, lowHead)
      ensures freePagesTop == |head.pages| && freePagesLow == |lowHead.pages|
      ensures Valid() <==> NoneStraddles(memMap.entries[..])
      ensures NoneStraddles(memMap.entries[..]) ==>
                Runs.Inv(Runs.World(Value(), {}, 0, 0), Elements(head.pages) + Elements(lowHead.pages))
      ensures memMap.totalUseableBytes == UseableBytes(memMap.entries[..]) % SIZE_T ==>
                freePagesTop + freePagesLow == memMap.TotalUseablePageFrames(PAGE_SIZE)
    {
      hide Chain, WellFormed, NoneStraddles, PageBases, UseableBytes, ListsValid, Runs.Inv;
      ghost var e := memMap.entries[..];
      freePagesTop := 0;
      freePagesLow := 0;
      PageBasesArePages(e, true);
      PageBasesArePages(e, false);
      var top := InitialiseList(head, memMap, true);
      freePagesTop := (freePagesTop + top) % SIZE_T;
      ghost var w := mem.words;
      var low := InitialiseList(lowHead, memMap, false);
      freePagesLow := (freePagesLow + low) % SIZE_T;
      ListsDisjoint(e);
      ChainFrame(w, mem.words, head.next, head.pages);
      HeadIs(mem.words, head.next, head.pages);
      HeadIs(mem.words, lowHead.next, lowHead.pages);
      InitialWorld(Value(), e);
      PageBasesCount(e);
      UseableBytesFit(e);
    }

    /** `InitialiseList` (`top`) and `InitialiseLowList` (not `top`): chain up every page of the selected
        regions, counting them. */
    method InitialiseList(listHead: ListHead, memMap: MemoryMap, top: bool) returns (counted: nat)
      requires memMap.entries.Length == MAX_ENTRIES && WellFormed(memMap.entries[..])
      modifies mem, listHead
      ensures listHead.pages == PageBases(memMap.entries[..], top)
      ensures IsList(mem.words, listHead)
      ensures counted == |listHead.pages|
      ensures forall a :: a !in listHead.pages ==> Load(mem.words, a) == Load(old(mem.words), a)
    {
      ghost var e := memMap.entries[..];
      var firstIteration := true;
      var lastAddr := 0;
      counted := 0;
      listHead.pages := [];
      for i := 0 to memMap.entries.Length
        invariant listHead.pages == PageBases(e[..i], top)
        invariant Building(mem.words, listHead, firstIteration, lastAddr)
        invariant counted == |listHead.pages|
        invariant forall a :: a !in listHead.pages ==> Load(mem.words, a) == Load(old(mem.words), a)
      {
        PageBasesStep(e, top, i);
        var entry := memMap.entries[i];
        assert entry == e[i];
        if (if top then entry.base + entry.length > CUTOFF else entry.base + entry.length <= CUTOFF) {
          if entry.kind.Useable? {
            lastAddr := AddRegion(listHead, entry, firstIteration, lastAddr);
            firstIteration := false;
            counted := counted + entry.length / PAGE_SIZE;
          }
        }
      }
      assert e[..memMap.entries.Length] == e;
      PageBasesSorted(e, top);
      TerminateList(listHead, firstIteration, lastAddr);
    }

    /** The end of `InitialiseList`: null-terminates the list. */
    method TerminateList(listHead: ListHead, ghost first: bool, lastAddr: nat)
      requires Building(mem.words, listHead, first, lastAddr) && Sorted(listHead.pages)
      modifies mem, listHead`next
      ensures IsList(mem.words, listHead)
      ensures forall a :: a !in listHead.pages ==> Load(mem.words, a) == Load(old(mem.words), a)
    {
      if lastAddr == 0 {
        listHead.next := 0;
        return;
      }
      CloseChain(mem.words, listHead.pages);
      mem.Write(lastAddr, 0);
    }

    /** Loop body of `InitialiseList` for a selected region. */
    method AddRegion(listHead: ListHead, entry: Entry, firstIteration: bool, lastAddr: nat) returns (last: nat)
      requires Building(mem.words, listHead, firstIteration, lastAddr)
      requires entry.base > 0 && entry.length > 0 && entry.length % PAGE_SIZE == 0
      requires Sorted(listHead.pages + PagesOf(entry.base, entry.length))
      modifies mem, listHead
      ensures listHead.pages == old(listHead.pages) + PagesOf(entry.base, entry.length)
      ensures Building(mem.words, listHead, false, last)
      ensures forall a :: a !in listHead.pages ==> Load(mem.words, a) == Load(old(mem.words), a)
    {
      ghost var before := listHead.pages;
      if firstIteration {
        listHead.next := entry.base;
        last := SetupRegion(entry.base, entry.length, 0, before);
      } else {
        last := SetupRegion(entry.base, entry.length, lastAddr, before);
      }
      listHead.pages := before + PagesOf(entry.base, entry.length);
    }

    /** Links up the pages of one region, and hangs them on the last page of the region before. */
    method SetupRegion(base: nat, length: nat, lastAddr: nat, ghost before: seq<nat>) returns (last: nat)
      requires base > 0 && length > 0 && length % PAGE_SIZE == 0
      requires 0 !in before && Sorted(before + PagesOf(base, length))
      requires lastAddr == if before == [] then 0 else before[|before| - 1]
      requires OpenChain(mem.words, before)
      modifies mem
      ensures last == base + length - PAGE_SIZE
      ensures OpenChain(mem.words, before + PagesOf(base, length))
      ensures forall a :: a !in before + PagesOf(base, length) ==> Load(mem.words, a) == Load(old(mem.words), a)
    {
      ghost var s := before + PagesOf(base, length);
      ghost var n := |before|;
      var current := base;
      ghost var w := mem.words;
      assert s[n] == base;
      if lastAddr != 0 {
        mem.Write(lastAddr, base);
      }
      forall j {:trigger Load(mem.words, s[j])} | 0 <= j < n && j < |s| - 1
        ensures Load(mem.words, s[j]) == At(s, j + 1)
      {
        assert s[j] == before[j];
        if j < n - 1 {
          assert s[j] < s[n - 1] == lastAddr && s[j + 1] == before[j + 1];
          assert Load(w, before[j]) == At(before, j + 1);
        } else {
          assert s[j] == lastAddr && s[j + 1] == base;
        }
      }
      ghost var k := 0;
      while current < base + length
        invariant current == base + PAGE_SIZE * k && n + k <= |s|
        invariant forall j {:trigger Load(mem.words, s[j])} :: 0 <= j < n + k && j < |s| - 1 ==>
                    Load(mem.words, s[j]) == At(s, j + 1)
        invariant forall a :: a !in s ==> Load(mem.words, a) == Load(old(mem.words), a)
      {
        assert s[n + k] == current;
        if current + PAGE_SIZE < base + length {
          assert s[n + k + 1] == current + PAGE_SIZE;
          w := mem.words;
          mem.Write(current, current + PAGE_SIZE);
          forall j {:trigger Load(mem.words, s[j])} | 0 <= j < n + k + 1
            ensures Load(mem.words, s[j]) == At(s, j + 1)
          {
            if j < n + k {
              assert s[j] < current;
              assert Load(w, s[j]) == At(s, j + 1);
            }
          }
        }
        current := current + PAGE_SIZE;
        k := k + 1;
      }
      last := current - PAGE_SIZE;
    }

    // -------------------------------------------------------------- one list

    method AllocatePageImpl(listHead: ListHead) returns (allocd: nat)
      requires IsList(mem.words, listHead) && listHead.pages != []
      modifies mem, listHead
      ensures (mem.words, listHead.pages, allocd) == TakeHead(old(mem.words), old(listHead.pages))
      ensures listHead.next == At(listHead.pages, 0)
    {
      ghost var s := listHead.pages;
      assert Load(mem.words, s[0]) == At(s, 1);
      assert s[0] in s;
      allocd := listHead.next;
      listHead.next := mem.Read(allocd);
      mem.Write(allocd, 0);
      listHead.pages := s[1..];
    }

    /** Follows `pages` links. */
    method Advance(start: nat, pages: nat, ghost s: seq<nat>, ghost i: nat) returns (end: nat)
      requires Chain(mem.words, At(s, 0), s) && i + pages <= |s| && start == At(s, i)
      ensures end == At(s, i + pages)
    {
      end := start;
      for k := 0 to pages
        invariant end == At(s, i + k)
      {
        assert s[i + k] in s;
        assert Load(mem.words, s[i + k]) == At(s, i + k + 1);
        end := mem.Read(end);
      }
    }

    /** Removes `pages` list entries from `pageaddr` on.  `pageaddr` must not lie above a list of two or
        more pages, and the entries must be there: otherwise the walk runs off the end of the list. */
    method ExtractImpl(listHead: ListHead, pageaddr: nat, pages: nat)
      requires IsList(mem.words, listHead) && pageaddr != 0
      requires |listHead.pages| >= 2 ==> pageaddr <= listHead.pages[|listHead.pages| - 1]
      requires OnList(listHead.pages, pageaddr) ==> Rank(listHead.pages, pageaddr) + pages <= |listHead.pages|
      modifies mem, listHead
      ensures (mem.words, listHead.pages) == Extracted(old(mem.words), old(listHead.pages), pageaddr, pages)
      ensures listHead.next == At(listHead.pages, 0)
    {
      hide Rank, OnList, Extracted, Unlinked, Chain, Sorted;
      ghost var s, w := listHead.pages, mem.words;
      HeadIs(w, listHead.next, s);
      var current := listHead.next;
      if current == 0 {
        ExtractedNone(w, s, pageaddr, 0, pages);
        return;
      }
      if current == pageaddr {
        ExtractedAt(w, s, 0, pages);
        UnlinkedAt(w, s, 0, pages);
        var end := Advance(pageaddr, pages, s, 0);
        listHead.next := end;
        listHead.pages := Without(s, 0, pages);
      }
      assert mem.words == w && Chain(w, At(s, 0), s);
      LinkAt(w, s[0], s, 0);
      SortedBelow(s, 0, pageaddr);
      var next := mem.Read(current);
      if next == 0 {
        if current != pageaddr {
          ExtractedNone(w, s, pageaddr, if pageaddr < current then 0 else 1, pages);
        }
        return;
      }
      ghost var j, front, rest := 0, listHead.next, listHead.pages;
      while next < pageaddr
        invariant j + 1 < |s| && current == s[j] && next == s[j + 1]
        invariant j > 0 ==> s[j] < pageaddr
        invariant mem.words == w && listHead.next == front && listHead.pages == rest
        decreases |s| - j
      {
        LinkAt(w, s[0], s, j + 1);
        current := next;
        next := mem.Read(current);
        j := j + 1;
      }
      if next > pageaddr {
        if current != pageaddr {
          SortedBelow(s, j, pageaddr);
          ExtractedNone(w, s, pageaddr, if pageaddr < current then 0 else j + 1, pages);
        }
        return;
      }
      ExtractedAt(w, s, j + 1, pages);
      var end := Advance(pageaddr, pages, s, j + 1);
      UnlinkedAt(w, s, j + 1, pages);
      mem.Write(current, end);
      listHead.pages := Without(s, j + 1, pages);
    }

    /** First half of `AllocatePagesImpl`: the scan for adjacent list entries. */
    method ScanForRun(listHead: ListHead, pages: nat) returns (allocBase: nat, ghost i: nat)
      requires IsList(mem.words, listHead)
      ensures allocBase == 0 ==> RunIndex(listHead.pages, pages).None?
      ensures allocBase != 0 ==>
                RunIndex(listHead.pages, pages) == Some(i) && i < |listHead.pages| && allocBase == listHead.pages[i]
    {
      ghost var s, w := listHead.pages, mem.words;
      i := 0;
      var count := 1;
      allocBase := listHead.next;
      var current := allocBase;
      if current == 0 {
        return;
      }
      assert s[0] in s;
      assert Load(w, s[0]) == At(s, 1);
      var next := mem.Read(current);
      if next == 0 {
        return 0, 0;
      }
      ghost var j := 0;
      while count < pages
        invariant j + 1 < |s| && current == s[j] && next == s[j + 1]
        invariant count == j - i + 1 && i <= j && allocBase == s[i] && IsRun(s, i, count)
        invariant forall k: nat :: k < i ==> !IsRun(s, k, pages)
        invariant count > 1 ==> count < pages
        invariant allocBase != 0
        decreases |s| - j
      {
        assert s[j + 1] in s;
        assert Load(w, s[j]) == At(s, j + 1) && Load(w, s[j + 1]) == At(s, j + 2);
        var isContiguous := current + PAGE_SIZE == next;
        if isContiguous {
          count := count + 1;
          assert IsRun(s, i, count);
          if count == pages { break; }
        } else {
          NoRunAcross(s, i, j, pages);
          count := 1;
          allocBase := next;
          i := j + 1;
        }
        current := mem.Read(current);  // never null: it was `next`
        next := mem.Read(next);
        if next == 0 {
          NoRunLeft(s, i, pages);
          return 0, 0;
        }
        j := j + 1;
      }
      assert IsRun(s, i, pages);
      FirstRunAt(s, i, pages);
    }

    method AllocatePagesImpl(listHead: ListHead, pages: nat) returns (allocBase: nat)
      requires IsList(mem.words, listHead)
      modifies mem, listHead
      ensures (mem.words, listHead.pages, allocBase) == TakeRun(old(mem.words), old(listHead.pages), pages)
      ensures listHead.next == At(listHead.pages, 0)
    {
      ghost var i;
      allocBase, i := ScanForRun(listHead, pages);
      if allocBase == 0 {
        return;
      }
      ghost var s := listHead.pages;
      assert s[i] in s;
      assert IsRun(s, i, pages);
      ExtractedAt(mem.words, s, i, pages);
      ExtractImpl(listHead, allocBase, pages);
    }

    method DeallocPageImpl(listHead: ListHead, base: nat)
      requires IsList(mem.words, listHead) && base != 0 && base !in listHead.pages
      modifies mem, listHead
      ensures mem.words == FreedWords(old(mem.words), old(listHead.pages), base)
      ensures listHead.pages == Insert(old(listHead.pages), base)
      ensures listHead.next == At(listHead.pages, 0)
    {
      hide Rank, Insert, FreedWords;
      ghost var s, w := listHead.pages, mem.words;
      listHead.pages := Insert(s, base);
      var currentHead := listHead.next;
      if currentHead == 0 {
        FreedAt(w, s, base, 0);
        listHead.next := base;
        mem.Write(base, 0);
        return;
      }
      assert s[0] in s;
      assert Load(w, s[0]) == At(s, 1);
      if base < currentHead {
        FreedAt(w, s, base, 0);
        listHead.next := base;
        mem.Write(base, currentHead);
      } else if mem.Read(currentHead) == 0 {
        FreedAt(w, s, base, 1);
        mem.Write(currentHead, base);
      } else {
        var current := currentHead;
        var next := mem.Read(currentHead);
        ghost var j := 0;
        while base > next
          invariant j + 1 < |s| && current == s[j] && s[j] < base && next == s[j + 1]
          decreases |s| - j
        {
          assert s[j + 1] in s;
          assert Load(w, s[j + 1]) == At(s, j + 2);
          current := next;
          next := mem.Read(current);
          j := j + 1;
          if next == 0 { break; }
        }
        FreedAt(w, s, base, j + 1);
        mem.Write(current, base);
        mem.Write(base, next);
      }
    }

    // -------------------------------------------------------------- the allocator

    method AllocatePage() returns (page: nat)
      requires Valid()
      modifies this, mem, head, lowHead
      ensures Valid()
      ensures (Value(), page) == FreelistSpec.AllocatePage(old(Value()))
    {
      Runs.WorldOf(Value(), {});
      Runs.AllocateConserves(Runs.World(Value(), {}, 0, 0), Elements(head.pages) + Elements(lowHead.pages));
      if head.next != 0 {
        freePagesTop := Dec(freePagesTop);
        page := AllocatePageImpl(head);
      } else if lowHead.next != 0 {
        freePagesLow := Dec(freePagesLow);
        page := AllocatePageImpl(lowHead);
      } else {
        page := 0;
      }
    }

    method AllocatePageWith(options: RamOptions) returns (page: nat)
      requires Valid() && OptionListNonempty(Value(), options)
      modifies this, mem, head, lowHead
      ensures Valid()
      ensures (Value(), page) == FreelistSpec.AllocatePageWith(old(Value()), options)
    {
      Runs.WorldOf(Value(), {});
      Runs.AllocateWithConserves(Runs.World(Value(), {}, 0, 0), options,
                                 Elements(head.pages) + Elements(lowHead.pages));
      if options == LOW {
        page := AllocatePageImpl(lowHead);
      } else {
        page := AllocatePageImpl(head);
      }
      if page != 0 && options == Z {
        mem.Memset(page, PAGE_SIZE);
      }
    }

    method AllocatePages(pages: nat) returns (base: nat)
      requires Valid()
      modifies this, mem, head, lowHead
      ensures Valid()
      ensures (Value(), base) == FreelistSpec.AllocatePages(old(Value()), pages)
    {
      Runs.WorldOf(Value(), {});
      Runs.AllocateRunConserves(Runs.World(Value(), {}, 0, 0), pages, Elements(head.pages) + Elements(lowHead.pages));
      base := AllocatePagesImpl(head, pages);
    }

    method AllocatePagesWith(pages: nat, options: RamOptions) returns (base: nat)
      requires Valid()
      modifies this, mem, head, lowHead
      ensures Valid()
      ensures (Value(), base) == FreelistSpec.AllocatePagesWith(old(Value()), pages, options)
    {
      Runs.RunWithValid(Value(), pages, options);
      if options == LOW {
        base := AllocatePagesImpl(lowHead, pages);
      } else {
        base := AllocatePagesImpl(head, pages);
      }
      if base != 0 && options == Z {
        mem.Memset(base, MemsetBytes(pages));
      }
    }

    /** The allocator stays valid if and only if the freed page's stale link does no harm. */
    method DeallocPage(base: nat)
      requires Valid()
      requires base % PAGE_SIZE == 0 && base < SIZE_T && base !in head.pages && base !in lowHead.pages
      modifies this, mem, head, lowHead
      ensures Value() == FreelistSpec.DeallocPage(old(Value()), base)
      ensures Valid() <==> base == 0 || SafeToFree(old(mem.words), old(ListFor(Value(), base)), base)
    {
      if base == 0 {
        return;
      }
      FreedListsValid(Value(), base);
      if base <= CUTOFF {
        DeallocPageImpl(lowHead, base);
        freePagesLow := Inc(freePagesLow);
      } else {
        DeallocPageImpl(head, base);
        freePagesTop := Inc(freePagesTop);
      }
    }

    // -------------------------------------------------------------- whole runs

    method Perform(op: Runs.Op, ghost world: Runs.World, ghost all: set<nat>) returns (page: nat)
      requires Valid() && Value() == world.st
      requires Runs.Conserved(world, all) && Runs.Legal(world, op)
      modifies this, mem, head, lowHead
      ensures Value() == Runs.Step(world, op).st
      ensures page == Runs.Answer(world, op)
      ensures Valid()
    {
      page := 0;
      match op
      case Allocate => page := AllocatePage();
      case AllocateWith(options) => page := AllocatePageWith(options);
      case AllocateRun(n) => page := AllocatePages(n);
      case AllocateRunWith(n, options) => page := AllocatePagesWith(n, options);
      case Free(base) => DeallocPage(base);
      case ClientWrite(cell, value) =>
        Runs.ClientWriteConserves(world, cell, value, all);
        mem.Write(cell, value);
    }

    /** Replays a sequence of operations, as the page fuzzer does. */
    method Replay(ops: seq<Runs.Op>, ghost world: Runs.World, ghost all: set<nat>) returns (pages: seq<nat>)
      requires Valid() && Value() == world.st
      requires Runs.Inv(world, all) && Runs.LegalRun(world, ops)
      modifies this, mem, head, lowHead
      ensures Valid()
      ensures Value() == Runs.Run(world, ops).st
      ensures pages == Runs.Answers(world, ops)
    {
      hide *;
      pages := [];
      ghost var now := world;
      for i := 0 to |ops|
        invariant Valid() && Value() == now.st
        invariant Runs.Inv(now, all) && Runs.LegalRun(now, ops[i..])
        invariant Runs.Run(now, ops[i..]) == Runs.Run(world, ops)
        invariant pages + Runs.Answers(now, ops[i..]) == Runs.Answers(world, ops)
      {
        assert ops[i..][0] == ops[i] && ops[i..][1..] == ops[i + 1..];
        Runs.RunStep(now, ops[i..], all);
        var page := Perform(ops[i], now, all);
        pages := pages + [page];
        now := Runs.Step(now, ops[i]);
      }
      assert ops[|ops|..] == [];
      Runs.RunEnd(now);
    }
  }
}
