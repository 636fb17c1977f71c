/** What each operation of the page-frame free list does, as functions on values, and what every run
    of them keeps. */
module FreelistSpec {
  import opened WordMemory
  import opened Chains
  import opened MemoryMaps
  import opened Options

  // ---------------------------------------------------------------- one list

  /** Pages `s[i..i + n]` are on the list and adjacent in memory. */
  ghost predicate IsRun(s: seq<nat>, i: nat, n: nat) {
    i + n <= |s| && forall j :: i < j < i + n ==> s[j] == s[i] + PAGE_SIZE * (j - i)
  }

  /** The first position at or after `i` where a run of `n` adjacent pages starts. */
  ghost function FirstRun(s: seq<nat>, n: nat, i: nat): (r: Option<nat>)
    requires i <= |s|
    ensures r.None? ==> forall k: nat :: i <= k ==> !IsRun(s, k, n)
    ensures r.Some? ==> i <= r.value && IsRun(s, r.value, n) && forall k: nat :: i <= k < r.value ==> !IsRun(s, k, n)
    decreases |s| - i
  {
    if i + n > |s| then None
    else if IsRun(s, i, n) then Some(i)
    else FirstRun(s, n, i + 1)
  }

  /** The run `AllocatePagesImpl` takes: it gives up on lists of fewer than two pages. */
  ghost function RunIndex(s: seq<nat>, n: nat): Option<nat> {
    if |s| < 2 then None else FirstRun(s, n, 0)
  }

  /** First fit is sound, lowest and complete, except that a single page is not found on a list of
      one, and that "zero pages" returns a page it leaves on the list. */
  lemma RunIndexExact(s: seq<nat>, n: nat)
    requires Sorted(s) && n > 0
    ensures RunIndex(s, n).Some? <==> (exists i: nat :: IsRun(s, i, n)) && !(n == 1 && |s| == 1)
    ensures RunIndex(s, n).Some? ==>
              var i := RunIndex(s, n).value;
              i < |s| && IsRun(s, i, n) && forall k: nat :: IsRun(s, k, n) ==> s[i] <= s[k]
  {
    if |s| < 2 {
      if |s| == 1 && n == 1 { assert IsRun(s, 0, 1); }
    } else if RunIndex(s, n).Some? {
      var i := RunIndex(s, n).value;
      forall k: nat | IsRun(s, k, n) ensures s[i] <= s[k] {
        assert i <= k;
      }
    }
  }

  /** A request for no pages hands out the head of the list, which stays on the list. */
  lemma ZeroPagesKeepsPage(w: Words, s: seq<nat>)
    requires |s| >= 2
    ensures var (w', s', r) := TakeRun(w, s, 0); r == s[0] && s' == s
  {
    assert IsRun(s, 0, 0);
  }

  /** `AllocatePageImpl`: unlink the head and clear its link. */
  ghost function TakeHead(w: Words, s: seq<nat>): (Words, seq<nat>, nat)
    requires s != []
  {
    (w[s[0] := 0], s[1..], s[0])
  }

  /** `AllocatePagesImpl`. */
  ghost function TakeRun(w: Words, s: seq<nat>, n: nat): (Words, seq<nat>, nat) {
    match RunIndex(s, n)
    case None => (w, s, 0)
    case Some(i) => (Unlinked(w, s, i, n), Without(s, i, n), s[i])
  }

  /** The page handed out leaves the list if and only if at least one page was asked for. */
  lemma HandedOutIff(w: Words, s: seq<nat>, n: nat)
    requires Sorted(s) && 0 !in s
    ensures var (_, s', r) := TakeRun(w, s, n); r != 0 ==> (r !in s' <==> n > 0)
  {
    if RunIndex(s, n).Some? {
      var i := RunIndex(s, n).value;
      WithoutSorted(s, i, n);
      assert n > 0 ==> s[i..i + n][0] == s[i];
      assert n == 0 ==> s[i] in s && s[i..i + n] == [];
    }
  }

  /** `pageaddr` is the base of a page on the sorted list. */
  ghost predicate OnList(s: seq<nat>, pageaddr: nat) {
    var k := Rank(s, pageaddr);
    k < |s| && s[k] == pageaddr
  }

  /** `ExtractImpl`. */
  ghost function Extracted(w: Words, s: seq<nat>, pageaddr: nat, n: nat): (Words, seq<nat>)
    requires OnList(s, pageaddr) ==> Rank(s, pageaddr) + n <= |s|
  {
    var k := Rank(s, pageaddr);
    if OnList(s, pageaddr) then (Unlinked(w, s, k, n), Without(s, k, n)) else (w, s)
  }

  lemma ExtractedAt(w: Words, s: seq<nat>, k: nat, n: nat)
    requires Sorted(s) && k < |s|
    requires k + n <= |s| || (OnList(s, s[k]) ==> Rank(s, s[k]) + n <= |s|)
    ensures OnList(s, s[k]) && Rank(s, s[k]) == k && k + n <= |s|
    ensures Extracted(w, s, s[k], n) == (Unlinked(w, s, k, n), Without(s, k, n))
  {
    RankIs(s, s[k], k);
  }

  lemma ExtractedNone(w: Words, s: seq<nat>, x: nat, k: nat, n: nat)
    requires Sorted(s) && k <= |s|
    requires forall i :: 0 <= i < k ==> s[i] < x
    requires k < |s| ==> x < s[k]
    ensures !OnList(s, x) && Extracted(w, s, x, n) == (w, s)
  {
    RankIs(s, x, k);
  }

  /** The branch of `DeallocPageImpl` for a page above the only page of the list never writes the
      link of the page being freed. */
  ghost predicate LinkKept(s: seq<nat>, x: nat) {
    |s| == 1 && s[0] < x
  }

  /** `DeallocPageImpl`: memory afterwards. */
  ghost function FreedWords(w: Words, s: seq<nat>, x: nat): Words {
    if LinkKept(s, x) then w[s[0] := x] else Linked(w, s, x)
  }

  lemma FreedAt(w: Words, s: seq<nat>, x: nat, k: nat)
    requires Sorted(s) && x !in s && k <= |s|
    requires k > 0 ==> s[k - 1] < x
    requires k < |s| ==> x < s[k]
    ensures FreedWords(w, s, x) ==
            if LinkKept(s, x) then w[s[0] := x]
            else if k == 0 then w[x := At(s, 0)]
            else w[s[k - 1] := x][x := At(s, k)]
    ensures At(Insert(s, x), 0) == if k == 0 then x else s[0]
  {
    RankIs(s, x, k);
  }

  /** A freed page joins the sorted list properly if and only if its link is written, or was null
      already. */
  ghost predicate SafeToFree(w: Words, s: seq<nat>, x: nat) {
    LinkKept(s, x) ==> Load(w, x) == 0
  }

  lemma FreedChainIff(w: Words, s: seq<nat>, x: nat)
    requires Chain(w, At(s, 0), s) && Sorted(s) && x !in s && x != 0
    ensures Chain(FreedWords(w, s, x), At(Insert(s, x), 0), Insert(s, x)) <==> SafeToFree(w, s, x)
  {
    ChainInsert(w, s, x);
    if LinkKept(s, x) {
      var t, w' := Insert(s, x), FreedWords(w, s, x);
      assert Rank(s, x) == 1 && t == [s[0], x];
      assert Load(w', t[1]) == Load(w, x);
      if Load(w, x) == 0 {
        ChainFrame(Linked(w, s, x), w', At(t, 0), t);
      }
    }
  }

  /** Freeing 0x5000 onto the list [0x1000] while 0x5000 still links to 0x9000 leaves the list running
      on into page 0x9000, which is not free. */
  lemma StaleLinkExample()
    ensures var s, w := [0x1000], map[0x1000 := 0, 0x5000 := 0x9000];
            && Chain(w, At(s, 0), s)
            && !Chain(FreedWords(w, s, 0x5000), 0x1000, [0x1000, 0x5000])
            && Chain(FreedWords(w, s, 0x5000), 0x1000, [0x1000, 0x5000, 0x9000])
  {
    var s, w := [0x1000], map[0x1000 := 0, 0x5000 := 0x9000];
    assert LinkKept(s, 0x5000);
    var w' := FreedWords(w, s, 0x5000);
    assert Load(w', 0x5000) == 0x9000 && Load(w', 0x1000) == 0x5000 && Load(w', 0x9000) == 0;
    var t := [0x1000, 0x5000];
    assert Load(w', t[1]) != At(t, 2);
  }

  // ---------------------------------------------------------------- the allocator

  datatype RamOptions = Z | LOW

  datatype State = State(words: Words, top: seq<nat>, low: seq<nat>, freeTop: nat, freeLow: nat)

  function Inc(c: nat): nat { if c + 1 == SIZE_T then 0 else c + 1 }

  function Dec(c: nat): nat { if c == 0 then SIZE_T - 1 else c - 1 }

  ghost predicate AllPages(s: seq<nat>) {
    forall p :: p in s ==> p % PAGE_SIZE == 0 && p < SIZE_T
  }

  /** Both lists are properly linked, sorted, made of page addresses, and on their side of the cutoff. */
  ghost predicate ListsValid(st: State) {
    && AllPages(st.top) && AllPages(st.low)
    && Chain(st.words, At(st.top, 0), st.top) && Sorted(st.top) && AllAboveCutoff(st.top)
    && Chain(st.words, At(st.low, 0), st.low) && Sorted(st.low) && AllUpToCutoff(st.low)
  }

  ghost function AllocatePage(st: State): (State, nat) {
    if st.top != [] then
      var (w, s, r) := TakeHead(st.words, st.top);
      (st.(words := w, top := s, freeTop := Dec(st.freeTop)), r)
    else if st.low != [] then
      var (w, s, r) := TakeHead(st.words, st.low);
      (st.(words := w, low := s, freeLow := Dec(st.freeLow)), r)
    else
      (st, 0)
  }

  ghost predicate OptionListNonempty(st: State, options: RamOptions) {
    if options == LOW then st.low != [] else st.top != []
  }

  ghost function AllocatePageWith(st: State, options: RamOptions): (State, nat)
    requires OptionListNonempty(st, options)
  {
    if options == LOW then
      var (w, s, r) := TakeHead(st.words, st.low);
      (st.(words := w, low := s), r)
    else
      var (w, s, r) := TakeHead(st.words, st.top);
      (st.(words := Cleared(w, r, PAGE_SIZE), top := s), r)
  }

  ghost function AllocatePages(st: State, n: nat): (State, nat) {
    var (w, s, r) := TakeRun(st.words, st.top, n);
    (st.(words := w, top := s), r)
  }

  /** `pages * PAGESIZE` is computed in 32 bits. */
  function MemsetBytes(n: nat): nat { n * PAGE_SIZE % 0x1_0000_0000 }

  ghost function AllocatePagesWith(st: State, n: nat, options: RamOptions): (State, nat) {
    if options == LOW then
      var (w, s, r) := TakeRun(st.words, st.low, n);
      (st.(words := w, low := s), r)
    else
      var (w, s, r) := TakeRun(st.words, st.top, n);
      (st.(words := if r != 0 then Cleared(w, r, MemsetBytes(n)) else w, top := s), r)
  }

  ghost function DeallocPage(st: State, base: nat): State {
    if base == 0 then st
    else if base <= CUTOFF then
      st.(words := FreedWords(st.words, st.low, base), low := Insert(st.low, base), freeLow := Inc(st.freeLow))
    else
      st.(words := FreedWords(st.words, st.top, base), top := Insert(st.top, base), freeTop := Inc(st.freeTop))
  }

  /** The list `DeallocPage` chooses. */
  ghost function ListFor(st: State, base: nat): seq<nat> {
    if base <= CUTOFF then st.low else st.top
  }

  // ---------------------------------------------------------------- what the answers mean

  /** `p` is one of the `n` adjacent pages from `base` on. */
  ghost predicate InRun(p: nat, base: nat, n: nat) {
    exists j: nat :: j < n && p == base + j * PAGE_SIZE
  }

  /** The `n` adjacent pages from `base` on are all on the list. */
  ghost predicate AllOn(s: seq<nat>, base: nat, n: nat) {
    forall p :: InRun(p, base, n) ==> p in s
  }

  /** What a request for `n` pages promises about its answer `r`: it fails exactly if no `n` adjacent pages are
      free, or one page is asked for and one is left; otherwise `r` is the lowest base of `n` adjacent free
      pages, and exactly these leave the list. */
  ghost predicate GrantsRun(before: seq<nat>, after: seq<nat>, n: nat, r: nat) {
    && (r != 0 <==> (exists base :: AllOn(before, base, n)) && !(n == 1 && |before| == 1))
    && (r == 0 ==> after == before)
    && (r != 0 ==>
          && AllOn(before, r, n) && (forall base :: AllOn(before, base, n) ==> r <= base)
          && forall p :: p in after <==> p in before && !InRun(p, r, n))
  }

  lemma RunIsAllOn(s: seq<nat>, i: nat, n: nat)
    requires IsRun(s, i, n) && n > 0
    ensures AllOn(s, s[i], n)
    ensures forall p :: p in s[i..i + n] <==> InRun(p, s[i], n)
  {
    var t := s[i..i + n];
    forall p | InRun(p, s[i], n) ensures p in t && p in s {
      var j: nat :| j < n && p == s[i] + j * PAGE_SIZE;
      assert t[j] == s[i + j] == p;
    }
    forall p | p in t ensures InRun(p, s[i], n) {
      var j: nat :| j < n && t[j] == p;
      assert s[i + j] == s[i] + j * PAGE_SIZE;
    }
  }

  /** On a sorted list of pages, adjacent pages are adjacent entries. */
  lemma {:induction false} AllOnFollow(s: seq<nat>, i: nat, n: nat, j: nat)
    requires Sorted(s) && AllPages(s) && i < |s| && AllOn(s, s[i], n) && j < n
    ensures i + j < |s| && s[i + j] == s[i] + j * PAGE_SIZE
  {
    if j == 0 {
    } else {
      AllOnFollow(s, i, n, j - 1);
      var p := s[i] + j * PAGE_SIZE;
      assert InRun(p, s[i], n);
      var k :| 0 <= k < |s| && s[k] == p;
      assert s[i + j - 1] < s[k];
      assert i + j <= k;
      assert s[i + j] in s && s[i + j - 1] in s;
      NextPage(s[i + j - 1], s[i + j]);
    }
  }

  lemma NextPage(p: nat, q: nat)
    requires p % PAGE_SIZE == 0 && q % PAGE_SIZE == 0 && p < q
    ensures p + PAGE_SIZE <= q
  {
  }

  lemma AllOnIsRun(s: seq<nat>, base: nat, n: nat) returns (i: nat)
    requires Sorted(s) && AllPages(s) && AllOn(s, base, n) && n > 0
    ensures IsRun(s, i, n) && s[i] == base
  {
    assert InRun(base, base, n) by { assert base == base + 0 * PAGE_SIZE; }
    i :| 0 <= i < |s| && s[i] == base;
    AllOnFollow(s, i, n, n - 1);
    forall j | i < j < i + n ensures s[j] == s[i] + PAGE_SIZE * (j - i) {
      AllOnFollow(s, i, n, j - i);
    }
  }

  lemma TakeRunGrants(w: Words, s: seq<nat>, n: nat)
    requires Sorted(s) && AllPages(s) && 0 !in s && n > 0
    ensures var (w', s', r) := TakeRun(w, s, n);
            GrantsRun(s, s', n, r) && (r == 0 ==> w' == w)
  {
    RunIndexExact(s, n);
    if RunIndex(s, n).Some? {
      var i := RunIndex(s, n).value;
      assert s[i] in s;
      RunIsAllOn(s, i, n);
      WithoutSorted(s, i, n);
      forall base | AllOn(s, base, n) ensures s[i] <= base {
        var k := AllOnIsRun(s, base, n);
      }
    } else {
      forall base | AllOn(s, base, n) ensures n == 1 && |s| == 1 {
        var k := AllOnIsRun(s, base, n);
      }
    }
  }

  /** `AllocatePages` serves from the top list, in either form, and `AllocatePages` by option from the low list
      for `LOW`.  The other list and the counters stay as they are, and so does everything if it fails. */
  lemma AllocatePagesGrants(st: State, n: nat)
    requires ListsValid(st) && n > 0
    ensures var (st', r) := AllocatePages(st, n);
            && GrantsRun(st.top, st'.top, n, r)
            && st'.low == st.low && st'.freeTop == st.freeTop && st'.freeLow == st.freeLow
            && (r == 0 ==> st' == st)
  {
    TakeRunGrants(st.words, st.top, n);
  }

  lemma AllocatePagesWithGrants(st: State, n: nat, options: RamOptions)
    requires ListsValid(st) && n > 0
    ensures var (st', r) := AllocatePagesWith(st, n, options);
            && (match options
                case LOW => GrantsRun(st.low, st'.low, n, r) && st'.top == st.top
                case Z => GrantsRun(st.top, st'.top, n, r) && st'.low == st.low)
            && st'.freeTop == st.freeTop && st'.freeLow == st.freeLow
            && (r == 0 ==> st' == st)
  {
    TakeRunGrants(st.words, st.top, n);
    TakeRunGrants(st.words, st.low, n);
  }

  /** `r` is the lowest page of the list, and the only one that leaves it. */
  ghost predicate GrantsLowest(before: seq<nat>, after: seq<nat>, r: nat) {
    && r in before && (forall p :: p in before ==> r <= p)
    && forall p :: p in after <==> p in before && p != r
  }

  lemma TakeHeadGrants(w: Words, s: seq<nat>)
    requires s != [] && Sorted(s)
    ensures var (_, s', r) := TakeHead(w, s); GrantsLowest(s, s', r)
  {
    assert s == [s[0]] + s[1..];
  }

  /** A page asked for with `LOW` comes from the low list and is not above the cutoff; any other option gets the
      lowest page of the top list, which is above it.  The other list and the counters stay as they are. */
  lemma AllocatePageWithGrants(st: State, options: RamOptions)
    requires ListsValid(st) && OptionListNonempty(st, options)
    ensures var (st', r) := AllocatePageWith(st, options);
            && (match options
                case LOW => r <= CUTOFF && GrantsLowest(st.low, st'.low, r) && st'.top == st.top
                case Z => r > CUTOFF && GrantsLowest(st.top, st'.top, r) && st'.low == st.low)
            && st'.freeTop == st.freeTop && st'.freeLow == st.freeLow
  {
    if options == LOW {
      TakeHeadGrants(st.words, st.low);
    } else {
      TakeHeadGrants(st.words, st.top);
    }
  }

  /** Without options the top list goes first; one page leaves the list it comes from, and its counter counts it. */
  lemma AllocatePageGrants(st: State)
    requires ListsValid(st)
    ensures var (st', r) := AllocatePage(st);
            if st.top != [] then
              && r > CUTOFF && GrantsLowest(st.top, st'.top, r) && st'.low == st.low
              && (st'.freeTop + 1) % SIZE_T == st.freeTop % SIZE_T && st'.freeLow == st.freeLow
            else if st.low != [] then
              && 0 < r <= CUTOFF && GrantsLowest(st.low, st'.low, r) && st'.top == st.top
              && (st'.freeLow + 1) % SIZE_T == st.freeLow % SIZE_T && st'.freeTop == st.freeTop
            else r == 0 && st' == st
  {
    if st.top != [] {
      TakeHeadGrants(st.words, st.top);
    } else if st.low != [] {
      TakeHeadGrants(st.words, st.low);
      assert st.low[0] in st.low;
    }
  }

  /** Freeing a page adds it to the list on its side of the cutoff, keeps both lists' order, and counts it. */
  lemma DeallocPageReturns(st: State, base: nat)
    requires ListsValid(st) && base != 0 && base !in st.top && base !in st.low
    ensures var st' := DeallocPage(st, base);
            && Sorted(st'.top) && Sorted(st'.low)
            && (forall p :: p in st'.top <==> p in st.top || (p == base && base > CUTOFF))
            && (forall p :: p in st'.low <==> p in st.low || (p == base && base <= CUTOFF))
            && (base > CUTOFF ==> st'.freeTop % SIZE_T == (st.freeTop + 1) % SIZE_T && st'.freeLow == st.freeLow)
            && (base <= CUTOFF ==> st'.freeLow % SIZE_T == (st.freeLow + 1) % SIZE_T && st'.freeTop == st.freeTop)
  {
    InsertElements(ListFor(st, base), base);
    InsertSorted(ListFor(st, base), base);
  }
}
