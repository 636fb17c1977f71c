/** Every run of the page allocator: allocations, frees, and clients writing to the pages they hold. */
module FreelistRuns {
  import opened WordMemory
  import opened Chains
  import opened MemoryMaps
  import opened FreelistSpec
  import opened Options

  datatype Op =
    | Allocate
    | AllocateWith(options: RamOptions)
    | AllocateRun(pages: nat)
    | AllocateRunWith(pages: nat, options: RamOptions)
    | Free(base: nat)
    | ClientWrite(cell: nat, value: nat)

  /** The allocator's state, the pages clients hold, and how many pages left each list through an
      operation that does not update that list's counter. */
  datatype World = World(st: State, out: set<nat>, uncountedTop: nat, uncountedLow: nat)

  /** The pages a request for `n` adjacent pages hands out. */
  ghost function Handed(s: seq<nat>, n: nat): set<nat> {
    match RunIndex(s, n)
    case None => {}
    case Some(i) => Elements(s[i..i + n])
  }

  ghost predicate Legal(world: World, op: Op) {
    match op
    case Allocate => true
    case AllocateWith(options) => OptionListNonempty(world.st, options)
    case AllocateRun(_) => true
    case AllocateRunWith(_, _) => true
    case Free(base) =>
      base == 0 || (base in world.out && SafeToFree(world.st.words, ListFor(world.st, base), base))
    case ClientWrite(cell, _) => InHeldPage(world, cell)
  }

  /** `cell` is a word of a page that a client holds. */
  ghost predicate InHeldPage(world: World, cell: nat) {
    cell % LINK_BYTES == 0 && exists p :: p in world.out && p <= cell < p + PAGE_SIZE
  }

  /** The source follows a null link only when asked for a single page from an empty list by option. */
  ghost predicate Possible(world: World, op: Op) {
    op.AllocateWith? ==> OptionListNonempty(world.st, op.options)
  }

  ghost function Step(world: World, op: Op): World
    requires Possible(world, op)
  {
    var st := world.st;
    match op
    case Allocate =>
      var (st', r) := AllocatePage(st);
      world.(st := st', out := if r == 0 then world.out else world.out + {r})
    case AllocateWith(options) =>
      var (st', r) := AllocatePageWith(st, options);
      World(st', world.out + {r},
            world.uncountedTop + |st.top| - |st'.top|, world.uncountedLow + |st.low| - |st'.low|)
    case AllocateRun(n) =>
      World(AllocatePages(st, n).0, world.out + Handed(st.top, n),
            world.uncountedTop + |Handed(st.top, n)|, world.uncountedLow)
    case AllocateRunWith(n, options) =>
      var st' := AllocatePagesWith(st, n, options).0;
      if options == LOW then
        World(st', world.out + Handed(st.low, n), world.uncountedTop, world.uncountedLow + |Handed(st.low, n)|)
      else
        World(st', world.out + Handed(st.top, n), world.uncountedTop + |Handed(st.top, n)|, world.uncountedLow)
    case Free(base) =>
      world.(st := DeallocPage(st, base), out := world.out - {base})
    case ClientWrite(cell, value) =>
      world.(st := st.(words := st.words[cell := value]))
  }

  /** What the client gets: null for anything but an allocation. */
  ghost function Answer(world: World, op: Op): nat
    requires Possible(world, op)
  {
    match op
    case Allocate => AllocatePage(world.st).1
    case AllocateWith(options) => AllocatePageWith(world.st, options).1
    case AllocateRun(n) => AllocatePages(world.st, n).1
    case AllocateRunWith(n, options) => AllocatePagesWith(world.st, n, options).1
    case Free(_) => 0
    case ClientWrite(_, _) => 0
  }

  /** How many pages the client asks for. */
  function Asked(op: Op): nat {
    match op
    case Allocate => 1
    case AllocateWith(_) => 1
    case AllocateRun(n) => n
    case AllocateRunWith(n, _) => n
    case Free(_) => 0
    case ClientWrite(_, _) => 0
  }

  ghost predicate LegalRun(world: World, ops: seq<Op>)
    decreases |ops|
  {
    ops == [] || (Legal(world, ops[0]) && LegalRun(Step(world, ops[0]), ops[1..]))
  }

  ghost function Run(world: World, ops: seq<Op>): World
    requires LegalRun(world, ops)
    decreases |ops|
  {
    if ops == [] then world else Run(Step(world, ops[0]), ops[1..])
  }

  /** The lists are valid and no page is lost, duplicated, or both free and handed out. */
  ghost predicate Conserved(world: World, all: set<nat>) {
    var st := world.st;
    && ListsValid(st)
    && (forall p :: p in all ==> p % PAGE_SIZE == 0 && 0 < p < SIZE_T)
    && (forall p :: p in all <==> p in st.top || p in st.low || p in world.out)
    && (forall p :: p in world.out ==> p !in st.top && p !in st.low)
  }

  ghost predicate Counts(c: nat, n: nat) { c == n % SIZE_T }

  /** The counters are exact up to the pages that left uncounted. */
  ghost predicate CountersAgree(world: World) {
    && Counts(world.st.freeTop, |world.st.top| + world.uncountedTop)
    && Counts(world.st.freeLow, |world.st.low| + world.uncountedLow)
  }

  ghost predicate Inv(world: World, all: set<nat>) {
    Conserved(world, all) && CountersAgree(world)
  }

  ghost function Answers(world: World, ops: seq<Op>): seq<nat>
    requires LegalRun(world, ops)
    decreases |ops|
  {
    if ops == [] then [] else [Answer(world, ops[0])] + Answers(Step(world, ops[0]), ops[1..])
  }

  // ---------------------------------------------------------------- one list at a time

  lemma TakeHeadKeeps(w: Words, s: seq<nat>)
    requires s != [] && Chain(w, At(s, 0), s) && Sorted(s)
    ensures var (w', s', r) := TakeHead(w, s);
            && Chain(w', At(s', 0), s') && Sorted(s')
            && r != 0 && r !in s' && (forall y :: y in s <==> y in s' || y == r)
            && (forall a :: a !in s ==> Load(w', a) == Load(w, a))
  {
    var (w', s', r) := TakeHead(w, s);
    ChainWithout(w, s, 0, 1);
    assert Without(s, 0, 1) == s';
    assert s == [r] + s';
    ChainFrame(w, w', At(s', 0), s');
  }

  /** Taking a run keeps the list valid and moves exactly the handed pages off it. */
  lemma TakeRunKeeps(w: Words, s: seq<nat>, n: nat)
    requires Chain(w, At(s, 0), s) && Sorted(s)
    ensures var (w', s', r) := TakeRun(w, s, n);
            && Chain(w', At(s', 0), s') && Sorted(s')
            && (forall y :: y in s' <==> y in s && y !in Handed(s, n))
            && (forall y :: y in Handed(s, n) ==> y in s)
            && (forall a :: a !in s ==> Load(w', a) == Load(w, a))
  {
    if RunIndex(s, n).Some? {
      var i := RunIndex(s, n).value;
      ChainWithout(w, s, i, n);
      WithoutSorted(s, i, n);
      assert s == s[..i] + s[i..i + n] + s[i + n..];
    }
  }

  /** Zeroing the pages just handed out touches no cell of a list they are not on. */
  lemma ClearHanded(w: Words, s: seq<nat>, n: nat, bytes: nat, head: nat, t: seq<nat>)
    requires Sorted(s) && RunIndex(s, n).Some? && bytes <= n * PAGE_SIZE
    requires forall x :: x in s || x in t ==> x % PAGE_SIZE == 0
    requires forall x :: x in t ==> x !in Handed(s, n)
    requires Chain(w, head, t)
    ensures Chain(Cleared(w, s[RunIndex(s, n).value], bytes), head, t)
  {
    var i := RunIndex(s, n).value;
    if bytes > 0 {
      assert s[i] in s;
      forall x | s[i] <= x < s[i] + bytes && x % PAGE_SIZE == 0 ensures x in Handed(s, n) {
        var k := (x - s[i]) / PAGE_SIZE;
        assert s[i..i + n][k] == x;
      }
    }
    ChainFrame(w, Cleared(w, s[i], bytes), head, t);
  }

  lemma FreeKeeps(w: Words, s: seq<nat>, x: nat)
    requires Chain(w, At(s, 0), s) && Sorted(s) && x !in s && x != 0 && SafeToFree(w, s, x)
    ensures var s' := Insert(s, x); var w' := FreedWords(w, s, x);
            && Chain(w', At(s', 0), s') && Sorted(s')
            && (forall y :: y in s' <==> y in s || y == x)
            && (forall a :: a !in s && a != x ==> Load(w', a) == Load(w, a))
  {
    FreedChainIff(w, s, x);
    InsertSorted(s, x);
    InsertElements(s, x);
  }

  // ---------------------------------------------------------------- conservation, step by step

  lemma StepConserves(world: World, op: Op, all: set<nat>)
    requires Conserved(world, all) && Legal(world, op)
    ensures Conserved(Step(world, op), all)
  {
    match op
    case Allocate => AllocateConserves(world, all);
    case AllocateWith(options) => AllocateWithConserves(world, options, all);
    case AllocateRun(n) => AllocateRunConserves(world, n, all);
    case AllocateRunWith(n, options) =>
      if options == LOW { AllocateLowRunConserves(world, n, all); } else { AllocateZeroedRunConserves(world, n, all); }
    case Free(base) => FreeConserves(world, base, all);
    case ClientWrite(cell, value) => ClientWriteConserves(world, cell, value, all);
  }

  /** `s'` is `s` without the pages `gone`, properly linked. */
  ghost predicate TakenFrom(w': Words, s': seq<nat>, s: seq<nat>, gone: set<nat>) {
    && Chain(w', At(s', 0), s') && Sorted(s')
    && forall y :: y in s' <==> y in s && y !in gone
  }

  /** Handing out free pages conserves them. */
  lemma MoveOutConserves(world: World, world': World, gone: set<nat>, all: set<nat>)
    requires Conserved(world, all)
    requires TakenFrom(world'.st.words, world'.st.top, world.st.top, gone)
    requires TakenFrom(world'.st.words, world'.st.low, world.st.low, gone)
    requires forall y :: y in gone ==> y in world.st.top || y in world.st.low
    requires world'.out == world.out + gone
    ensures Conserved(world', all)
  {
  }

  lemma AllocateConserves(world: World, all: set<nat>)
    requires Conserved(world, all)
    ensures Conserved(Step(world, Allocate), all)
  {
    var st := world.st;
    if st.top != [] {
      TakeHeadKeeps(st.words, st.top);
      ChainFrame(st.words, TakeHead(st.words, st.top).0, At(st.low, 0), st.low);
      MoveOutConserves(world, Step(world, Allocate), {st.top[0]}, all);
    } else if st.low != [] {
      TakeHeadKeeps(st.words, st.low);
      MoveOutConserves(world, Step(world, Allocate), {st.low[0]}, all);
    }
  }

  lemma AllocateWithConserves(world: World, options: RamOptions, all: set<nat>)
    requires Conserved(world, all) && Legal(world, AllocateWith(options))
    ensures Conserved(Step(world, AllocateWith(options)), all)
  {
    var st := world.st;
    if options == LOW {
      TakeHeadKeeps(st.words, st.low);
      ChainFrame(st.words, TakeHead(st.words, st.low).0, At(st.top, 0), st.top);
      MoveOutConserves(world, Step(world, AllocateWith(options)), {st.low[0]}, all);
    } else {
      TakeHeadKeeps(st.words, st.top);
      var (w, s, r) := TakeHead(st.words, st.top);
      var w' := Cleared(w, r, PAGE_SIZE);
      ChainFrame(st.words, w, At(st.low, 0), st.low);
      assert forall x :: x in s || x in st.low ==> x in all && x != r;
      assert r in all;
      ChainFrame(w, w', At(st.low, 0), st.low);
      ChainFrame(w, w', At(s, 0), s);
      MoveOutConserves(world, Step(world, AllocateWith(options)), {r}, all);
    }
  }

  lemma AllocateRunConserves(world: World, n: nat, all: set<nat>)
    requires Conserved(world, all)
    ensures Conserved(Step(world, AllocateRun(n)), all)
  {
    var st := world.st;
    TakeRunKeeps(st.words, st.top, n);
    ChainFrame(st.words, TakeRun(st.words, st.top, n).0, At(st.low, 0), st.low);
    MoveOutConserves(world, Step(world, AllocateRun(n)), Handed(st.top, n), all);
  }

  lemma AllocateLowRunConserves(world: World, n: nat, all: set<nat>)
    requires Conserved(world, all)
    ensures Conserved(Step(world, AllocateRunWith(n, LOW)), all)
  {
    var st := world.st;
    TakeRunKeeps(st.words, st.low, n);
    ChainFrame(st.words, TakeRun(st.words, st.low, n).0, At(st.top, 0), st.top);
    MoveOutConserves(world, Step(world, AllocateRunWith(n, LOW)), Handed(st.low, n), all);
  }

  /** Rewriting memory conserves the pages as long as both lists stay linked. */
  lemma RelinkedConserves(world: World, w: Words, all: set<nat>)
    requires Conserved(world, all)
    requires Chain(w, At(world.st.top, 0), world.st.top)
    requires Chain(w, At(world.st.low, 0), world.st.low)
    ensures Conserved(world.(st := world.st.(words := w)), all)
  {
  }

  lemma AllocateZeroedRunConserves(world: World, n: nat, all: set<nat>)
    requires Conserved(world, all)
    ensures Conserved(Step(world, AllocateRunWith(n, Z)), all)
  {
    hide RunIndex, Chain, Sorted, Without, Unlinked, Cleared, AllAboveCutoff, AllUpToCutoff;
    var st := world.st;
    AllocateRunConserves(world, n, all);
    var world1 := Step(world, AllocateRun(n));
    var (w, s, r) := TakeRun(st.words, st.top, n);
    if RunIndex(st.top, n).Some? && r != 0 {
      var w' := Cleared(w, r, MemsetBytes(n));
      forall x | x in st.top || x in s || x in st.low ensures x % PAGE_SIZE == 0 {
        assert x in all;
      }
      assert forall x :: x in s || x in st.low ==> x !in Handed(st.top, n) by {
        assert forall x :: x in Handed(st.top, n) ==> x in world1.out;
      }
      ClearHanded(w, st.top, n, MemsetBytes(n), At(s, 0), s);
      ClearHanded(w, st.top, n, MemsetBytes(n), At(st.low, 0), st.low);
      RelinkedConserves(world1, w', all);
      assert Step(world, AllocateRunWith(n, Z)) == world1.(st := world1.st.(words := w'));
    } else {
      assert Step(world, AllocateRunWith(n, Z)) == world1;
    }
  }

  lemma FreeConserves(world: World, base: nat, all: set<nat>)
    requires Conserved(world, all) && Legal(world, Free(base))
    ensures Conserved(Step(world, Free(base)), all)
  {
    var st := world.st;
    if base != 0 {
      FreeKeeps(st.words, ListFor(st, base), base);
      var w := FreedWords(st.words, ListFor(st, base), base);
      if base <= CUTOFF {
        ChainFrame(st.words, w, At(st.top, 0), st.top);
      } else {
        ChainFrame(st.words, w, At(st.low, 0), st.low);
      }
    }
  }

  /** Clients may write anything into pages they hold: the lists are threaded through other pages. */
  lemma ClientWriteConserves(world: World, cell: nat, value: nat, all: set<nat>)
    requires Conserved(world, all) && Legal(world, ClientWrite(cell, value))
    ensures Conserved(Step(world, ClientWrite(cell, value)), all)
  {
    var st := world.st;
    var p :| p in world.out && p <= cell < p + PAGE_SIZE;
    assert p in all;
    forall x | x in st.top || x in st.low ensures x != cell {
      assert x in all && x != p;
      if p < x { NextPage(p, x); }
    }
    hide Conserved, Chain;
    ChainFrame(st.words, st.words[cell := value], At(st.top, 0), st.top);
    ChainFrame(st.words, st.words[cell := value], At(st.low, 0), st.low);
  }

  // ---------------------------------------------------------------- what is handed out

  /** The pages a run's answer stands for are those that are handed out. */
  lemma HandedIsAnswered(w: Words, s: seq<nat>, n: nat)
    requires Sorted(s) && 0 !in s
    ensures var r := TakeRun(w, s, n).2;
            forall p :: p in Handed(s, n) <==> r != 0 && InRun(p, r, n)
  {
    if RunIndex(s, n).Some? {
      var i := RunIndex(s, n).value;
      assert s[i] in s;
      if n > 0 {
        RunIsAllOn(s, i, n);
      } else {
        assert s[i..i] == [];
      }
    }
  }

  /** After any operation clients hold what they held, without the page freed, and with the pages that the
      answer stands for: as many as asked for, adjacent, from the answer on. */
  lemma StepHandsOut(world: World, op: Op, all: set<nat>)
    requires Conserved(world, all) && Legal(world, op)
    ensures var r := Answer(world, op);
            forall p :: p in Step(world, op).out <==>
              (p in world.out && op != Free(p)) || (r != 0 && InRun(p, r, Asked(op)))
  {
    var st := world.st;
    match op
    case Allocate => OnePage(AllocatePage(st).1);
    case AllocateWith(options) =>
      OnePage(AllocatePageWith(st, options).1);
      AllocatePageWithGrants(st, options);
      assert 0 !in st.top && 0 !in st.low;
    case AllocateRun(n) => HandedIsAnswered(st.words, st.top, n);
    case AllocateRunWith(n, options) =>
      HandedIsAnswered(st.words, if options == LOW then st.low else st.top, n);
    case Free(_) =>
    case ClientWrite(_, _) =>
  }

  lemma OnePage(r: nat)
    ensures forall p :: InRun(p, r, 1) <==> p == r
  {
    assert r == r + 0 * PAGE_SIZE;
  }

  // ---------------------------------------------------------------- what is written

  /** Where an operation may write: the links of free pages, that of the page freed, the pages handed out if they
      are asked for zeroed, and what a client writes itself. */
  ghost predicate MayWrite(world: World, op: Op, a: nat)
    requires Possible(world, op)
  {
    || a in world.st.top || a in world.st.low
    || match op
       case Free(base) => a == base
       case ClientWrite(cell, _) => a == cell
       case AllocateWith(options) => options == Z && InPages(a, Answer(world, op), 1)
       case AllocateRunWith(n, options) => options == Z && Answer(world, op) != 0 && InPages(a, Answer(world, op), n)
       case _ => false
  }

  ghost predicate InPages(a: nat, base: nat, n: nat) {
    base <= a < base + n * PAGE_SIZE
  }

  lemma StepWritesOnly(world: World, op: Op, all: set<nat>, a: nat)
    requires Conserved(world, all) && Legal(world, op)
    ensures Load(Step(world, op).st.words, a) == Load(world.st.words, a) || MayWrite(world, op, a)
  {
    var st := world.st;
    match op
    case Allocate =>
      if st.top != [] { TakeHeadKeeps(st.words, st.top); } else if st.low != [] { TakeHeadKeeps(st.words, st.low); }
    case AllocateWith(options) => TakeHeadKeeps(st.words, if options == LOW then st.low else st.top);
    case AllocateRun(n) => TakeRunKeeps(st.words, st.top, n);
    case AllocateRunWith(n, options) =>
      TakeRunKeeps(st.words, if options == LOW then st.low else st.top, n);
      assert MemsetBytes(n) <= n * PAGE_SIZE;
    case Free(base) => if base != 0 { FreeKeeps(st.words, ListFor(st, base), base); }
    case ClientWrite(_, _) =>
  }

  // ---------------------------------------------------------------- held pages

  /** The operation is not up to the client who holds page `p` and watches cell `a` of it. */
  ghost predicate Spares(op: Op, p: nat, a: nat) {
    match op
    case Free(base) => base != p
    case ClientWrite(cell, _) => cell != a
    case _ => true
  }

  /** A page that an address of the run lies in is one of the run. */
  lemma InRunIsHanded(s: seq<nat>, n: nat, p: nat, a: nat)
    requires RunIndex(s, n).Some? && forall x :: x in s ==> x % PAGE_SIZE == 0
    requires p % PAGE_SIZE == 0 && p <= a < p + PAGE_SIZE
    requires n > 0 && At(s, RunIndex(s, n).value) <= a < At(s, RunIndex(s, n).value) + n * PAGE_SIZE
    ensures p in Handed(s, n)
  {
    var i := RunIndex(s, n).value;
    assert s[i] in s;
    assert s[i] / PAGE_SIZE <= a / PAGE_SIZE == p / PAGE_SIZE;
    assert s[i..i + n][(p - s[i]) / PAGE_SIZE] == p;
  }

  lemma ClearedSpares(w: Words, s: seq<nat>, n: nat, bytes: nat, p: nat, a: nat)
    requires RunIndex(s, n).Some? && bytes <= n * PAGE_SIZE
    requires forall x :: x in s ==> x % PAGE_SIZE == 0
    requires p % PAGE_SIZE == 0 && p !in Handed(s, n) && p <= a < p + PAGE_SIZE
    ensures Load(Cleared(w, At(s, RunIndex(s, n).value), bytes), a) == Load(w, a)
  {
    var r := At(s, RunIndex(s, n).value);
    if r <= a < r + bytes {
      InRunIsHanded(s, n, p, a);
    }
  }

  /** A page that is held stays held and keeps its words, whatever the allocator and others do. */
  lemma StepSparesHeld(world: World, op: Op, all: set<nat>, p: nat, a: nat)
    requires Conserved(world, all) && Legal(world, op)
    requires p in world.out && p <= a < p + PAGE_SIZE && Spares(op, p, a)
    ensures p in Step(world, op).out && Load(Step(world, op).st.words, a) == Load(world.st.words, a)
  {
    assert p in all;
    var st := world.st;
    NotALink(world, all, p, a);
    match op
    case Allocate =>
      if st.top != [] { TakeHeadKeeps(st.words, st.top); } else if st.low != [] { TakeHeadKeeps(st.words, st.low); }
    case AllocateWith(options) => AllocateWithSpares(world, options, all, p, a);
    case AllocateRun(n) => TakeRunKeeps(st.words, st.top, n);
    case AllocateRunWith(n, options) => AllocateRunSpares(world, n, options, all, p, a);
    case Free(base) => if base != 0 { FreeSpares(world, base, all, p, a); }
    case ClientWrite(_, _) =>
  }

  lemma NotALink(world: World, all: set<nat>, p: nat, a: nat)
    requires Conserved(world, all) && p in world.out && p <= a < p + PAGE_SIZE
    ensures a !in world.st.top && a !in world.st.low
    ensures a in world.out ==> a == p
  {
    assert p in all;
    assert a % PAGE_SIZE == 0 ==> a == p;
    assert a in world.st.top || a in world.st.low ==> a in all;
  }

  lemma AllocateWithSpares(world: World, options: RamOptions, all: set<nat>, p: nat, a: nat)
    requires Conserved(world, all) && Legal(world, AllocateWith(options))
    requires p in world.out && p <= a < p + PAGE_SIZE
    ensures Load(Step(world, AllocateWith(options)).st.words, a) == Load(world.st.words, a)
  {
    var s := if options == LOW then world.st.low else world.st.top;
    TakeHeadKeeps(world.st.words, s);
    NotALink(world, all, p, a);
    assert s[0] in s;
    assert p in all && s[0] in all && p != s[0];
    assert s[0] <= a < s[0] + PAGE_SIZE ==> s[0] / PAGE_SIZE == a / PAGE_SIZE == p / PAGE_SIZE;
  }

  lemma AllocateRunSpares(world: World, n: nat, options: RamOptions, all: set<nat>, p: nat, a: nat)
    requires Conserved(world, all) && p in world.out && p <= a < p + PAGE_SIZE
    ensures Load(Step(world, AllocateRunWith(n, options)).st.words, a) == Load(world.st.words, a)
  {
    var w, s := world.st.words, if options == LOW then world.st.low else world.st.top;
    TakeRunKeeps(w, s, n);
    NotALink(world, all, p, a);
    assert forall x :: x in s ==> x in all;
    assert p in all && p !in s;
    assert MemsetBytes(n) <= n * PAGE_SIZE;
    if RunIndex(s, n).Some? {
      ClearedSpares(TakeRun(w, s, n).0, s, n, MemsetBytes(n), p, a);
    }
    hide RunIndex, Chain, Sorted, Without, Unlinked, Cleared, MemsetBytes;
  }

  lemma FreeSpares(world: World, base: nat, all: set<nat>, p: nat, a: nat)
    requires Conserved(world, all) && Legal(world, Free(base)) && base != 0
    requires p in world.out && p <= a < p + PAGE_SIZE && base != p
    ensures Load(Step(world, Free(base)).st.words, a) == Load(world.st.words, a)
  {
    NotALink(world, all, p, a);
    FreeKeeps(world.st.words, ListFor(world.st, base), base);
  }

  /** ... over every run in which it is not freed and the cell is not written. */
  lemma {:induction false} RunSparesHeld(world: World, ops: seq<Op>, all: set<nat>, p: nat, a: nat)
    requires Conserved(world, all) && LegalRun(world, ops)
    requires p in world.out && p <= a < p + PAGE_SIZE
    requires forall op :: op in ops ==> Spares(op, p, a)
    ensures p in Run(world, ops).out && Load(Run(world, ops).st.words, a) == Load(world.st.words, a)
    decreases |ops|
  {
    if ops == [] {
    } else {
      StepConserves(world, ops[0], all);
      StepSparesHeld(world, ops[0], all, p, a);
      assert forall op :: op in ops[1..] ==> op in ops;
      hide Conserved, Spares, Step, Legal;
      RunSparesHeld(Step(world, ops[0]), ops[1..], all, p, a);
    }
  }

  // ---------------------------------------------------------------- counters, step by step

  lemma TakeRunCount(w: Words, s: seq<nat>, n: nat)
    requires Sorted(s)
    ensures |s| == |TakeRun(w, s, n).1| + |Handed(s, n)|
  {
    if RunIndex(s, n).Some? {
      var i := RunIndex(s, n).value;
      SortedSize(s[i..i + n]);
    }
  }

  lemma CountUp(c: nat, n: nat)
    requires Counts(c, n)
    ensures Counts(Inc(c), n + 1)
  {
  }

  lemma CountDown(c: nat, n: nat)
    requires Counts(c, n) && n > 0
    ensures Counts(Dec(c), n - 1)
  {
  }

  lemma AllocateKeepsCounters(world: World)
    requires CountersAgree(world)
    ensures CountersAgree(Step(world, Allocate))
  {
    hide Counts;
    var st := world.st;
    if st.top != [] {
      CountDown(st.freeTop, |st.top| + world.uncountedTop);
    } else if st.low != [] {
      CountDown(st.freeLow, |st.low| + world.uncountedLow);
    }
  }

  lemma RunKeepsCounters(world: World, n: nat, options: RamOptions)
    requires ListsValid(world.st) && CountersAgree(world)
    ensures CountersAgree(Step(world, AllocateRun(n)))
    ensures CountersAgree(Step(world, AllocateRunWith(n, options)))
  {
    hide Counts, Handed, TakeRun, Chain, Cleared;
    var st := world.st;
    TakeRunCount(st.words, st.top, n);
    TakeRunCount(st.words, st.low, n);
  }

  lemma FreeKeepsCounters(world: World, base: nat)
    requires CountersAgree(world) && base != 0
    ensures CountersAgree(Step(world, Free(base)))
  {
    hide Counts, Insert, FreedWords;
    var st := world.st;
    InsertElements(ListFor(st, base), base);
    if base > CUTOFF {
      CountUp(st.freeTop, |st.top| + world.uncountedTop);
    } else {
      CountUp(st.freeLow, |st.low| + world.uncountedLow);
    }
  }

  lemma StepKeepsCounters(world: World, op: Op)
    requires ListsValid(world.st) && Legal(world, op) && CountersAgree(world)
    ensures CountersAgree(Step(world, op))
  {
    match op
    case Allocate => AllocateKeepsCounters(world);
    case AllocateWith(options) =>
    case AllocateRun(n) => RunKeepsCounters(world, n, Z);
    case AllocateRunWith(n, options) => RunKeepsCounters(world, n, options);
    case Free(base) => if base != 0 { FreeKeepsCounters(world, base); }
    case ClientWrite(cell, value) =>
  }

  lemma RunEnd(world: World)
    ensures LegalRun(world, []) && Run(world, []) == world && Answers(world, []) == []
  {
  }

  /** The first step of a run. */
  lemma RunStep(world: World, ops: seq<Op>, all: set<nat>)
    requires Inv(world, all) && LegalRun(world, ops) && ops != []
    ensures Conserved(world, all) && Legal(world, ops[0]) && Possible(world, ops[0])
    ensures Inv(Step(world, ops[0]), all)
    ensures LegalRun(Step(world, ops[0]), ops[1..])
    ensures Run(world, ops) == Run(Step(world, ops[0]), ops[1..])
    ensures Answers(world, ops) == [Answer(world, ops[0])] + Answers(Step(world, ops[0]), ops[1..])
  {
    StepConserves(world, ops[0], all);
    StepKeepsCounters(world, ops[0]);
  }

  /** Safety over whole runs: the lists stay valid, free and outstanding pages always partition the
      initial pages, and the counters are exact up to uncounted pages. */
  lemma {:induction false} RunKeepsInv(world: World, ops: seq<Op>, all: set<nat>)
    requires Inv(world, all) && LegalRun(world, ops)
    ensures Inv(Run(world, ops), all)
    decreases |ops|
  {
    if ops == [] {
    } else {
      StepConserves(world, ops[0], all);
      StepKeepsCounters(world, ops[0]);
      RunKeepsInv(Step(world, ops[0]), ops[1..], all);
    }
  }

  // ---------------------------------------------------------------- runs that need no look at links

  /** The link of every page handed out is null. */
  ghost predicate NullLinks(world: World) {
    forall p :: p in world.out ==> Load(world.st.words, p) == 0
  }

  /** What clients can see to themselves: they free pages they hold, keep the first word of a page they
      hold null, and ask for several pages at once only zeroed, and fewer than 2^20 of them. */
  ghost predicate Careful(world: World, op: Op) {
    match op
    case Allocate => true
    case AllocateWith(options) => OptionListNonempty(world.st, options)
    case AllocateRun(_) => false
    case AllocateRunWith(n, options) => options == Z && n < 0x10_0000
    case Free(base) => base == 0 || base in world.out
    case ClientWrite(cell, value) => InHeldPage(world, cell) && (cell % PAGE_SIZE == 0 ==> value == 0)
  }

  ghost predicate CarefulRun(world: World, ops: seq<Op>)
    decreases |ops|
  {
    ops == [] || (Careful(world, ops[0]) && CarefulRun(Step(world, ops[0]), ops[1..]))
  }

  lemma CarefulIsLegal(world: World, op: Op)
    requires NullLinks(world) && Careful(world, op)
    ensures Legal(world, op)
  {
  }

  lemma TakeHeadNull(world: World, all: set<nat>, options: RamOptions)
    requires Conserved(world, all) && NullLinks(world) && OptionListNonempty(world.st, options)
    ensures NullLinks(Step(world, AllocateWith(options)))
  {
  }

  lemma FreeNull(world: World, base: nat, all: set<nat>)
    requires Conserved(world, all) && NullLinks(world) && base in world.out
    ensures NullLinks(Step(world, Free(base)))
  {
    FreeKeeps(world.st.words, ListFor(world.st, base), base);
  }

  lemma ZeroedRunNull(world: World, n: nat, all: set<nat>)
    requires Conserved(world, all) && NullLinks(world) && n < 0x10_0000
    ensures NullLinks(Step(world, AllocateRunWith(n, Z)))
  {
    var w, s := world.st.words, world.st.top;
    TakeRunKeeps(w, s, n);
    assert MemsetBytes(n) == n * PAGE_SIZE;
    if RunIndex(s, n).Some? { RunCleared(TakeRun(w, s, n).0, s, n); }
    hide RunIndex, Chain, Sorted, Without, Unlinked, Cleared, MemsetBytes;
    forall p | p in world.out ensures Load(Step(world, AllocateRunWith(n, Z)).st.words, p) == 0 {
      assert p !in s;
    }
  }

  lemma RunCleared(w: Words, s: seq<nat>, n: nat)
    requires RunIndex(s, n).Some?
    ensures var i := RunIndex(s, n).value;
            var w' := Cleared(w, At(s, i), n * PAGE_SIZE);
            && (forall p :: p in Handed(s, n) ==> Load(w', p) == 0)
            && (forall p :: Load(w, p) == 0 ==> Load(w', p) == 0)
  {
    HandedInside(s, n);
  }

  /** The pages of a run fill its n * 4096 bytes. */
  lemma HandedInside(s: seq<nat>, n: nat)
    requires RunIndex(s, n).Some?
    ensures var r := At(s, RunIndex(s, n).value);
            forall p :: p in Handed(s, n) ==> r <= p && p + PAGE_SIZE <= r + n * PAGE_SIZE
  {
    var i := RunIndex(s, n).value;
    forall p | p in Handed(s, n) ensures s[i] <= p && p + PAGE_SIZE <= s[i] + n * PAGE_SIZE {
      var j :| 0 <= j < n && s[i..i + n][j] == p;
      assert p == s[i] + PAGE_SIZE * j;
    }
  }

  /** Careful clients keep the links of their pages null, ... */
  lemma CarefulKeepsNull(world: World, op: Op, all: set<nat>)
    requires Conserved(world, all) && NullLinks(world) && Careful(world, op)
    ensures NullLinks(Step(world, op))
  {
    match op
    case Allocate =>
    case AllocateWith(options) => TakeHeadNull(world, all, options);
    case AllocateRunWith(n, options) => ZeroedRunNull(world, n, all);
    case Free(base) => if base != 0 { FreeNull(world, base, all); }
    case ClientWrite(cell, value) =>
  }

  /** ... so every free they ask for is safe, and the lists and counters stay right over every run. */
  lemma {:induction false} CarefulRunIsSafe(world: World, ops: seq<Op>, all: set<nat>)
    requires Inv(world, all) && NullLinks(world) && CarefulRun(world, ops)
    ensures LegalRun(world, ops)
    ensures Inv(Run(world, ops), all) && NullLinks(Run(world, ops))
    decreases |ops|
  {
    if ops == [] {
    } else {
      CarefulIsLegal(world, ops[0]);
      StepConserves(world, ops[0], all);
      StepKeepsCounters(world, ops[0]);
      CarefulKeepsNull(world, ops[0], all);
      CarefulRunIsSafe(Step(world, ops[0]), ops[1..], all);
    }
  }

  /** Memory in which four low pages make up the list. */
  function FourPages(): Words {
    map[0x1000 := 0x2000, 0x2000 := 0x3000, 0x3000 := 0x4000, 0x4000 := 0]
  }

  /** A world of low pages only. */
  function LowWorld(words: Words, low: seq<nat>, freeLow: nat, out: set<nat>, uncounted: nat): World {
    World(State(words, [], low, 0, freeLow), out, 0, uncounted)
  }

  function FourFree(): World {
    LowWorld(FourPages(), [0x1000, 0x2000, 0x3000, 0x4000], 4, {}, 0)
  }

  function CarelessOps(): seq<Op> {
    [Allocate, AllocateRunWith(2, LOW), Allocate, Free(0x1000)]
  }

  function CarelessEnd(): World {
    LowWorld(FourPages()[0x1000 := 0][0x4000 := 0][0x1000 := 0], [0x1000], 3, {0x2000, 0x3000, 0x4000}, 2)
  }

  lemma LowAllocate(words: Words, low: seq<nat>, freeLow: nat, out: set<nat>, uncounted: nat)
    requires low != [] && low[0] != 0 && freeLow > 0
    ensures Step(LowWorld(words, low, freeLow, out, uncounted), Allocate) ==
            LowWorld(words[low[0] := 0], low[1..], freeLow - 1, out + {low[0]}, uncounted)
  {
  }

  lemma LowFreeFirst(words: Words, freeLow: nat, out: set<nat>, uncounted: nat, base: nat)
    requires 0 < base <= CUTOFF && freeLow + 1 < SIZE_T
    ensures Step(LowWorld(words, [], freeLow, out, uncounted), Free(base)) ==
            LowWorld(words[base := 0], [base], freeLow + 1, out - {base}, uncounted)
  {
  }

  lemma RunTaken(w: Words)
    ensures var s := [0x2000, 0x3000, 0x4000];
            TakeRun(w, s, 2) == (w, [0x4000], 0x2000) && Handed(s, 2) == {0x2000, 0x3000}
  {
    var s := [0x2000, 0x3000, 0x4000];
    assert IsRun(s, 0, 2);
    assert s[0..2] == [0x2000, 0x3000] && Without(s, 0, 2) == [0x4000];
    assert Elements([0x2000, 0x3000]) == {0x2000, 0x3000};
  }

  lemma CarelessRun()
    ensures LegalRun(FourFree(), CarelessOps()) && Run(FourFree(), CarelessOps()) == CarelessEnd()
  {
    hide Run, LegalRun, FourPages, TakeHead, TakeRun, Handed, Insert, FreedWords;
    var ops, w1 := CarelessOps(), FourPages()[0x1000 := 0];
    LowAllocate(FourPages(), [0x1000, 0x2000, 0x3000, 0x4000], 4, {}, 0);
    var world1 := LowWorld(w1, [0x2000, 0x3000, 0x4000], 3, {0x1000}, 0);
    assert Step(FourFree(), ops[0]) == world1;
    RunTaken(w1);
    var world2 := LowWorld(w1, [0x4000], 3, {0x1000, 0x2000, 0x3000}, 2);
    assert Step(world1, ops[1]) == world2 by {
      assert |Handed([0x2000, 0x3000, 0x4000], 2)| == 2;
    }
    LowAllocate(w1, [0x4000], 3, {0x1000, 0x2000, 0x3000}, 2);
    var world3 := LowWorld(w1[0x4000 := 0], [], 2, {0x1000, 0x2000, 0x3000, 0x4000}, 2);
    assert Step(world2, ops[2]) == world3;
    LowFreeFirst(w1[0x4000 := 0], 2, {0x1000, 0x2000, 0x3000, 0x4000}, 2, 0x1000);
    assert Step(world3, ops[3]) == CarelessEnd();
    RunOfFour(FourFree(), ops, world1, world2, world3);
  }

  lemma RunOfFour(world: World, ops: seq<Op>, world1: World, world2: World, world3: World)
    requires |ops| == 4
    requires Legal(world, ops[0]) && Step(world, ops[0]) == world1
    requires Legal(world1, ops[1]) && Step(world1, ops[1]) == world2
    requires Legal(world2, ops[2]) && Step(world2, ops[2]) == world3
    requires Legal(world3, ops[3])
    ensures LegalRun(world, ops) && Run(world, ops) == Step(world3, ops[3])
  {
    var end := Step(world3, ops[3]);
    hide Step, Legal;
    assert ops[3..][1..] == [] && ops[2..][1..] == ops[3..] && ops[1..][1..] == ops[2..];
    assert LegalRun(world3, ops[3..]) && Run(world3, ops[3..]) == end;
    assert LegalRun(world2, ops[2..]) && Run(world2, ops[2..]) == end;
    assert LegalRun(world1, ops[1..]) && Run(world1, ops[1..]) == end;
  }

  lemma FourPagesValid()
    ensures Inv(FourFree(), {0x1000, 0x2000, 0x3000, 0x4000})
  {
    var st := FourFree().st;
    assert Chain(st.words, 0x1000, st.low) by {
      assert |st.low| == 4;
    }
    hide FourPages, Chain, Sorted;
    assert forall p :: p in st.low ==> p % PAGE_SIZE == 0;
  }

  /** Without such care the allocator's own operations reach a harmful free.  Of the low pages 0x1000 to
      0x4000 take one, two adjacent ones and one more, and give 0x1000 back.  All of this is legal, but
      now freeing 0x2000, whose link still leads to 0x3000, puts two held pages back on the list. */
  lemma CarelessRunExample()
    ensures Inv(FourFree(), {0x1000, 0x2000, 0x3000, 0x4000}) && LegalRun(FourFree(), CarelessOps())
    ensures var held := Run(FourFree(), CarelessOps());
            && 0x2000 in held.out && !SafeToFree(held.st.words, held.st.low, 0x2000)
            && var after := Step(held, Free(0x2000));
            && 0x3000 in after.out && 0x4000 in after.out
            && Chain(after.st.words, 0x1000, [0x1000, 0x2000, 0x3000, 0x4000])
  {
    hide Run, LegalRun, CarelessOps;
    FourPagesValid();
    CarelessRun();
    assert Step(CarelessEnd(), Free(0x2000)).st.words == CarelessEnd().st.words[0x1000 := 0x2000];
  }

  // ---------------------------------------------------------------- words

  /** An aligned store stays aligned: whatever the allocator and its clients write is a whole word at a
      multiple of 8. */
  lemma StepKeepsAligned(world: World, op: Op, all: set<nat>)
    requires Conserved(world, all) && Legal(world, op) && Aligned(world.st.words)
    ensures Aligned(Step(world, op).st.words)
  {
    var st := world.st;
    match op
    case Allocate =>
      if st.top != [] { HeadAligned(st.words, st.top); }
      else if st.low != [] { HeadAligned(st.words, st.low); }
    case AllocateWith(options) => HeadAligned(st.words, if options == LOW then st.low else st.top);
    case AllocateRun(n) => RunAligned(st.words, st.top, n);
    case AllocateRunWith(n, options) => RunAligned(st.words, if options == LOW then st.low else st.top, n);
    case Free(base) => if base != 0 { FreeAligned(world, base, all); }
    case ClientWrite(cell, value) => assert Aligned(st.words[cell := value]);
  }

  lemma PageAligned(w: Words, p: nat, v: nat)
    requires Aligned(w) && p % PAGE_SIZE == 0
    ensures Aligned(w[p := v])
  {
    assert p == LINK_BYTES * (512 * (p / PAGE_SIZE));
  }

  lemma HeadAligned(w: Words, s: seq<nat>)
    requires Aligned(w) && AllPages(s) && s != []
    ensures Aligned(TakeHead(w, s).0)
  {
    hide Aligned;
    assert s[0] in s;
    PageAligned(w, s[0], 0);
  }

  lemma RunAligned(w: Words, s: seq<nat>, n: nat)
    requires Aligned(w) && AllPages(s)
    ensures Aligned(TakeRun(w, s, n).0)
  {
    hide Aligned;
    if RunIndex(s, n).Some? {
      var i := RunIndex(s, n).value;
      if i > 0 {
        assert s[i - 1] in s;
        PageAligned(w, s[i - 1], At(s, i + n));
      }
    }
  }

  lemma FreeAligned(world: World, base: nat, all: set<nat>)
    requires Conserved(world, all) && base in world.out && Aligned(world.st.words)
    ensures Aligned(Step(world, Free(base)).st.words)
  {
    hide Aligned;
    var w, s := world.st.words, ListFor(world.st, base);
    var k := Rank(s, base);
    assert base in all;
    if LinkKept(s, base) {
      assert s[0] in s;
      PageAligned(w, s[0], base);
    } else {
      if k > 0 {
        assert s[k - 1] in s;
        PageAligned(w, s[k - 1], base);
      }
      PageAligned(if k == 0 then w else w[s[k - 1] := base], base, At(s, k));
    }
  }

  /** Over every run from an aligned store no two words share a byte, so that a store of whole words
      is an exact model of the memory. */
  lemma {:induction false} RunKeepsWordsApart(world: World, ops: seq<Op>, all: set<nat>)
    requires Inv(world, all) && LegalRun(world, ops) && Aligned(world.st.words)
    ensures Aligned(Run(world, ops).st.words)
    ensures var w := Run(world, ops).st.words;
            forall a, b :: a in w && b in w && a != b ==> !Overlap(a, LINK_BYTES, b, LINK_BYTES)
    decreases |ops|
  {
    if ops == [] {
    } else {
      StepConserves(world, ops[0], all);
      StepKeepsCounters(world, ops[0]);
      StepKeepsAligned(world, ops[0], all);
      RunKeepsWordsApart(Step(world, ops[0]), ops[1..], all);
    }
  }

  ghost predicate CountedOnly(ops: seq<Op>) {
    forall i :: 0 <= i < |ops| ==> ops[i].Allocate? || ops[i].Free? || ops[i].ClientWrite?
  }

  lemma {:induction false} CountedRunLeaksNothing(world: World, ops: seq<Op>)
    requires LegalRun(world, ops) && CountedOnly(ops)
    ensures Run(world, ops).uncountedTop == world.uncountedTop
    ensures Run(world, ops).uncountedLow == world.uncountedLow
    decreases |ops|
  {
    if ops == [] {
    } else {
      CountedRunLeaksNothing(Step(world, ops[0]), ops[1..]);
    }
  }

  lemma {:induction false} SortedLength(s: seq<nat>, n: nat)
    requires Sorted(s) && 0 < n <= |s|
    ensures s[n - 1] >= s[0] + n - 1
  {
    if n == 1 {
    } else {
      SortedLength(s, n - 1);
    }
  }

  /** A sorted list of addresses is shorter than the address space, so its length fits a counter. */
  lemma LengthFits(s: seq<nat>)
    requires Sorted(s) && forall p :: p in s ==> 0 < p < SIZE_T
    ensures |s| < SIZE_T
  {
    if s != [] {
      SortedLength(s, |s|);
      assert s[0] in s && s[|s| - 1] in s;
    }
  }

  lemma SafeRunKeepsInv(world: World, ops: seq<Op>, all: set<nat>)
    requires Inv(world, all)
    requires LegalRun(world, ops) || (NullLinks(world) && CarefulRun(world, ops))
    ensures LegalRun(world, ops) && Inv(Run(world, ops), all)
  {
    hide *;
    if LegalRun(world, ops) {
      RunKeepsInv(world, ops, all);
    } else {
      CarefulRunIsSafe(world, ops, all);
    }
  }

  lemma CountersAreLengths(world: World, all: set<nat>)
    requires Inv(world, all) && world.uncountedTop == world.uncountedLow == 0
    ensures world.st.freeTop == |world.st.top| && world.st.freeLow == |world.st.low|
  {
    PagesFit(world, all);
    hide Conserved;
  }

  /** Over runs of `AllocatePage()`, `DeallocPage` and client writes alone, the two counters are the
      two list lengths: for careful clients always, and for others as long as each free is safe. */
  lemma CountersExact(world: World, ops: seq<Op>, all: set<nat>)
    requires Inv(world, all) && CountedOnly(ops)
    requires LegalRun(world, ops) || (NullLinks(world) && CarefulRun(world, ops))
    requires world.uncountedTop == world.uncountedLow == 0
    ensures LegalRun(world, ops)
    ensures var st := Run(world, ops).st; st.freeTop == |st.top| && st.freeLow == |st.low|
  {
    hide *;
    SafeRunKeepsInv(world, ops, all);
    CountedRunLeaksNothing(world, ops);
    CountersAreLengths(Run(world, ops), all);
  }

  lemma PagesFit(world: World, all: set<nat>)
    requires Conserved(world, all)
    ensures |world.st.top| < SIZE_T && |world.st.low| < SIZE_T
  {
    assert forall p :: p in world.st.top || p in world.st.low ==> p in all;
    LengthFits(world.st.top);
    LengthFits(world.st.low);
  }

  /** Any valid allocator is the start of a conserved world in which clients hold the pages `out`. */
  lemma WorldOf(st: State, out: set<nat>)
    requires ListsValid(st)
    requires forall p :: p in out ==> p !in st.top && p !in st.low && p % PAGE_SIZE == 0 && 0 < p < SIZE_T
    ensures Conserved(World(st, out, 0, 0), Elements(st.top) + Elements(st.low) + out)
  {
  }

  lemma RunWithValid(st: State, n: nat, options: RamOptions)
    requires ListsValid(st)
    ensures ListsValid(AllocatePagesWith(st, n, options).0)
  {
    WorldOf(st, {});
    StepConserves(World(st, {}, 0, 0), AllocateRunWith(n, options), Elements(st.top) + Elements(st.low) + {});
  }

  /** `AllocatePage` returns null exactly when both lists are empty, and never a page a client holds. */
  lemma AllocateFresh(world: World, all: set<nat>)
    requires Conserved(world, all)
    ensures var r := AllocatePage(world.st).1;
            && (r == 0 <==> world.st.top == [] && world.st.low == [])
            && (r != 0 ==> r in all && r !in world.out && r in Step(world, Allocate).out)
            && (world.st.top != [] ==> r > CUTOFF && forall p :: p in world.st.top ==> r <= p)
            && (world.st.top == [] && world.st.low != [] ==> forall p :: p in world.st.low ==> r <= p)
  {
    var st := world.st;
    if st.top != [] { assert st.top[0] in st.top; }
    else if st.low != [] { assert st.low[0] in st.low; }
  }

  /** A page or a run asked for with `Z` comes zeroed; a run of 2^20 pages or more does not fit the 32-bit
      byte count and is zeroed only in part. */
  lemma ZeroedPages(st: State, n: nat)
    ensures var (st', r) := AllocatePagesWith(st, n, Z);
            r != 0 ==> forall a :: r <= a && a + LINK_BYTES <= r + MemsetBytes(n) ==> Load(st'.words, a) == 0
    ensures OptionListNonempty(st, Z) ==>
              var (st', r) := AllocatePageWith(st, Z);
              forall a :: r <= a && a + LINK_BYTES <= r + PAGE_SIZE ==> Load(st'.words, a) == 0
    ensures n < 0x1_0000_0000 ==> (MemsetBytes(n) == n * PAGE_SIZE <==> n < 0x10_0000)
  {
  }

  lemma TakeThenPutBack(w: Words, s: seq<nat>)
    requires s != [] && Chain(w, At(s, 0), s) && Sorted(s)
    ensures var (w', s', r) := TakeHead(w, s);
            && r == s[0] && r in s && r != 0
            && SafeToFree(w', s', r) && Insert(s', r) == s
            && (forall a :: Load(FreedWords(w', s', r), a) == Load(w, a))
  {
    var (w1, s1, r) := TakeHead(w, s);
    assert s[0] in s;
    RankIs(s1, r, 0);
    assert Load(w, s[0]) == At(s, 1) == At(s1, 0);
  }

  /** Freeing the page just allocated is always safe and undoes the allocation: both lists, both
      counters and every memory word are as before. */
  lemma AllocateThenFree(st: State)
    requires ListsValid(st) && st.freeTop < SIZE_T && st.freeLow < SIZE_T
    requires st.top != [] || st.low != []
    ensures var (st1, r) := AllocatePage(st);
            var st2 := DeallocPage(st1, r);
            && r != 0 && SafeToFree(st1.words, ListFor(st1, r), r)
            && st2.top == st.top && st2.low == st.low
            && st2.freeTop == st.freeTop && st2.freeLow == st.freeLow
            && (forall a :: Load(st2.words, a) == Load(st.words, a))
  {
    if st.top != [] {
      TakeThenPutBack(st.words, st.top);
    } else {
      TakeThenPutBack(st.words, st.low);
    }
  }
}
