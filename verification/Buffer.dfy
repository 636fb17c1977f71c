/** The slab buffer: slabs of one object size in three rings, and their migration as they fill and drain. */
module Buffers {
  import opened WordMemory
  import opened Chains
  import opened ListDescriptors
  import opened Options
  import opened Sequences
  import SlabSpec
  import opened BufferSpec

  /** Base addresses of the slabs of a ring. */
  function Bases(r: seq<ListDescriptor>): (s: seq<nat>)
    ensures |s| == |r| && forall i :: 0 <= i < |r| ==> s[i] == r[i].base
  {
    seq(|r|, i requires 0 <= i < |r| => r[i].base)
  }

  lemma AllThree<T>(m: map<Kind, seq<T>>)
    requires Free in m && Partial in m && Full in m
    ensures AllRings(m)
  {
    forall k: Kind ensures k in m {
      match k case Free => case Partial => case Full =>
    }
  }

  function RingBases(free: seq<ListDescriptor>, partial: seq<ListDescriptor>, full: seq<ListDescriptor>)
      : (m: map<Kind, seq<nat>>)
    ensures AllRings(m)
  {
    var m := map[Free := Bases(free), Partial := Bases(partial), Full := Bases(full)];
    AllThree(m);
    m
  }

  lemma EmptyBuffer()
    ensures BufferInv(BufferSpec.Buffer(map[], RingBases([], [], [])))
  {
    var m := RingBases([], [], []);
    forall k: Kind ensures m[k] == [] {
      match k case Free => case Partial => case Full =>
    }
  }

  ghost predicate InRangeAgrees(slabs: map<nat, SlabSpec.Slab>, list: seq<ListDescriptor>, a: nat) {
    forall x :: x in list ==> x.base in slabs && (slabs[x.base].InRange(a) <==> x.ObjectInRange(a))
  }

  /** A walk along a ring finds what the specification's search finds. */
  lemma WalkFinds(slabs: map<nat, SlabSpec.Slab>, list: seq<ListDescriptor>, a: nat, it: ListDescriptor?, i: nat)
    requires InRangeAgrees(slabs, list, a)
    requires if it == null then forall j :: 0 <= j < |list| ==> !list[j].ObjectInRange(a)
             else i < |list| && list[i].ObjectInRange(a) && forall j :: 0 <= j < i ==> !list[j].ObjectInRange(a)
    ensures forall x :: x in Bases(list) ==> x in slabs
    ensures Find(slabs, Bases(list), a, 0) == if it == null then None else Some(i)
  {
    forall j | 0 <= j < |list|
      ensures Bases(list)[j] in slabs && (slabs[Bases(list)[j]].InRange(a) <==> list[j].ObjectInRange(a))
    {
      assert list[j] in list;
    }
  }

  /** What becomes of ring `r` when entry `i` of ring `k`, the descriptor `x`, moves to ring `kind`. */
  ghost predicate MovedRing(r: Kind, k: Kind, i: nat, kind: Kind, x: ListDescriptor,
                            before: seq<ListDescriptor>, after: seq<ListDescriptor>)
    requires r == k ==> i < |before|
  {
    var rest := if r == k then Dropped(before, i) else before;
    after == if r == kind && !(i == 0 && kind == k) then rest + [x] else rest
  }

  lemma MovedBases(k: Kind, i: nat, kind: Kind, x: ListDescriptor,
                   free: seq<ListDescriptor>, partial: seq<ListDescriptor>, full: seq<ListDescriptor>,
                   free': seq<ListDescriptor>, partial': seq<ListDescriptor>, full': seq<ListDescriptor>)
    requires i < |RingBases(free, partial, full)[k]| && RingBases(free, partial, full)[k][i] == x.base
    requires MovedRing(Free, k, i, kind, x, free, free')
    requires MovedRing(Partial, k, i, kind, x, partial, partial')
    requires MovedRing(Full, k, i, kind, x, full, full')
    ensures RingBases(free', partial', full') == Relocated(RingBases(free, partial, full), k, i, kind)
  {
    var b, b' := RingBases(free, partial, full), RingBases(free', partial', full');
    MovedRingBases(Free, k, i, kind, x, free, free');
    MovedRingBases(Partial, k, i, kind, x, partial, partial');
    MovedRingBases(Full, k, i, kind, x, full, full');
    hide MovedRing, Dropped, Bases;
    var m := Relocated(b, k, i, kind);
    forall r: Kind ensures b'[r] == m[r] {
      match r
      case Free =>
      case Partial =>
      case Full =>
    }
  }

  lemma MovedRingBases(r: Kind, k: Kind, i: nat, kind: Kind, x: ListDescriptor,
                       before: seq<ListDescriptor>, after: seq<ListDescriptor>)
    requires (r == k ==> i < |before|) && MovedRing(r, k, i, kind, x, before, after)
    ensures var rest := if r == k then Dropped(Bases(before), i) else Bases(before);
            Bases(after) == if r == kind && !(i == 0 && kind == k) then rest + [x.base] else rest
  {
    var rest := if r == k then Dropped(before, i) else before;
    assert Bases(rest) == if r == k then Dropped(Bases(before), i) else Bases(before);
    assert Bases(rest + [x]) == Bases(rest) + [x.base];
  }

  /** The new descriptor `x` goes to the end of the ring of its kind. */
  lemma JoinedBases(kind: Kind, x: ListDescriptor,
                    free: seq<ListDescriptor>, partial: seq<ListDescriptor>, full: seq<ListDescriptor>,
                    free': seq<ListDescriptor>, partial': seq<ListDescriptor>, full': seq<ListDescriptor>)
    requires free' == if kind == Free then free + [x] else free
    requires partial' == if kind == Partial then partial + [x] else partial
    requires full' == if kind == Full then full + [x] else full
    ensures var b := RingBases(free, partial, full); RingBases(free', partial', full') == b[kind := b[kind] + [x.base]]
  {
    var b, b' := RingBases(free, partial, full), RingBases(free', partial', full');
    forall r: Kind ensures b'[r] == b[kind := b[kind] + [x.base]][r] {
      match r
      case Free =>
      case Partial =>
      case Full =>
    }
  }

  /** Placing the descriptor `x`, of kind `kind`, takes a ring of kind `k` from `before`, headed by `head`, to
      `after`, headed by `head'`.  A descriptor that the ring's head still points to is not added. */
  ghost predicate Placed(kind: Kind, k: Kind, x: ListDescriptor, head: ListDescriptor?, before: seq<ListDescriptor>,
                         head': ListDescriptor?, after: seq<ListDescriptor>)
  {
    if kind == k && head != x then after == before + [x] && head' == HeadOf(after)
    else after == before && head' == head
  }

  /** What placing the detached head `x` of ring `k` does to the ring of kind `r`. */
  lemma HeadPlaced(r: Kind, k: Kind, kind: Kind, x: ListDescriptor, before: seq<ListDescriptor>,
                   rest: seq<ListDescriptor>, head: ListDescriptor?, head': ListDescriptor?, after: seq<ListDescriptor>)
    requires r == k ==> before != []
    requires rest == if r == k then Dropped(before, 0) else before
    requires Placed(kind, r, x, head, rest, head', after)
    requires if r == k then head == x else head == HeadOf(before) && x !in before
    ensures MovedRing(r, k, 0, kind, x, before, after)
    ensures if r == k then after == rest else head' == HeadOf(after)
  {
  }

  /** Freeing a slot writes only cells that are links afterwards. */
  lemma OnlyLinksWritten(w: Words, s: SlabSpec.Slab, a: nat)
    requires SlabSpec.SlabInv(s) && SlabSpec.MayFree(s, a)
    requires Chain(w, At(SlabSpec.Cells(s), 0), SlabSpec.Cells(s))
    ensures forall c :: c !in SlabSpec.Cells(SlabSpec.Deallocate(s, a)) ==>
              Load(SlabSpec.DeallocatedWords(w, s, a), c) == Load(w, c)
  {
    if s.InRange(a) && s.used > 0 {
      SlabSpec.DeallocateChain(w, s, a);
    }
  }

  /** Freeing a slot of slab `s` writes no cell of a slab apart from it. */
  lemma OthersKeepChains(w: Words, s: SlabSpec.Slab, a: nat, t: SlabSpec.Slab, tHead: nat)
    requires SlabSpec.SlabInv(s) && SlabSpec.SlabInv(t) && Apart(s, t) && SlabSpec.MayFree(s, a)
    requires Chain(w, At(SlabSpec.Cells(s), 0), SlabSpec.Cells(s))
    requires Chain(w, tHead, SlabSpec.Cells(t))
    ensures Chain(SlabSpec.DeallocatedWords(w, s, a), tHead, SlabSpec.Cells(t))
  {
    if s.InRange(a) && s.used > 0 {
      SlabSpec.DeallocateChain(w, s, a);
      SlabSpec.DeallocateReturns(s, a);
      SlabSpec.CellsSorted(SlabSpec.Deallocate(s, a));
      SlabSpec.CellsSorted(t);
      ChainFrame(w, SlabSpec.DeallocatedWords(w, s, a), tHead, SlabSpec.Cells(t));
    }
  }

  /** The operation counter has eight bits. */
  function Tick(count: nat): nat { (count + 1) % 256 }

  ghost predicate InSomeSlab(slabs: map<nat, SlabSpec.Slab>, c: nat) {
    exists x :: x in slabs && slabs[x].InRange(c)
  }

  /** Only cells of the given slabs differ. */
  ghost predicate WritesInSlabs(w: Words, w': Words, slabs: map<nat, SlabSpec.Slab>) {
    forall c :: Load(w', c) == Load(w, c) || InSomeSlab(slabs, c)
  }

  /** The slab of `x` is as before. */
  twostate predicate SameSlab(x: ListDescriptor)
    reads x`nextFree, x`buffersUsed, x`free, x`tail
  {
    x.nextFree == old(x.nextFree) && x.Value() == old(x.Value())
  }

  lemma LinksInSlabs(slabs: map<nat, SlabSpec.Slab>)
    requires SlabsInv(slabs)
    ensures forall c :: IsLink(slabs, c) ==> InSomeSlab(slabs, c)
  {
    forall c | IsLink(slabs, c) ensures InSomeSlab(slabs, c) {
      var x :| x in slabs && c in SlabSpec.Cells(slabs[x]);
      SlabSpec.CellsSorted(slabs[x]);
    }
  }

  lemma ObjectsInSlabs(slabs: map<nat, SlabSpec.Slab>, x: nat, l: nat, cell: nat)
    requires SlabsInv(slabs) && InObject(slabs, x, l, cell)
    ensures InSomeSlab(slabs, cell)
  {
    SlabSpec.SlotInside(slabs[x], l);
  }

  /** Writing to cells of other slabs leaves the chain of slab `t` alone. */
  lemma ChainOutside(w: Words, w': Words, slabs: map<nat, SlabSpec.Slab>, t: SlabSpec.Slab, head: nat)
    requires SlabSpec.SlabInv(t) && Chain(w, head, SlabSpec.Cells(t))
    requires forall y :: y in slabs ==> Apart(slabs[y], t)
    requires WritesInSlabs(w, w', slabs)
    ensures Chain(w', head, SlabSpec.Cells(t))
  {
    SlabSpec.CellsSorted(t);
    hide SlabSpec.Cells, SlabSpec.SlabInv, Chain;
    forall c | c in SlabSpec.Cells(t) ensures Load(w', c) == Load(w, c) {
      assert t.InRange(c);
    }
    ChainFrame(w, w', head, SlabSpec.Cells(t));
  }

  class Buffer {
    const mem: Memory
    const bufferSize: nat
    const freeLists: Ring
    const partialLists: Ring
    const fullLists: Ring
    var opCount: nat
    /** All descriptors, and their values by base address. */
    ghost var members: set<ListDescriptor>
    ghost var slabs: map<nat, SlabSpec.Slab>

    constructor (mem: Memory, bufferSize: nat)
      ensures Valid() && this.mem == mem && this.bufferSize == bufferSize
      ensures fresh(freeLists) && fresh(partialLists) && fresh(fullLists)
      ensures members == {} && slabs == map[]
    {
      this.mem := mem;
      this.bufferSize := bufferSize;
      freeLists := new Ring();
      partialLists := new Ring();
      fullLists := new Ring();
      opCount := 0;
      members := {};
      slabs := map[];
      EmptyBuffer();
      hide BufferInv;
    }

    function RingOf(k: Kind): Ring {
      match k
      case Free => freeLists
      case Partial => partialLists
      case Full => fullLists
    }

    /** The three rings are linked up, and share no descriptor. */
    ghost predicate RingsLinked()
      reads this`members, freeLists, partialLists, fullLists, members`nextList, members`prevList
    {
      && ListsLinked()
      && freeLists.head == HeadOf(freeLists.list)
      && partialLists.head == HeadOf(partialLists.list)
      && fullLists.head == HeadOf(fullLists.list)
    }

    /** The same but for the list heads: one of them may be about to be replaced. */
    ghost predicate ListsLinked()
      reads this`members, freeLists`list, partialLists`list, fullLists`list, members`nextList, members`prevList
    {
      && freeLists != partialLists && freeLists != fullLists && partialLists != fullLists
      && RingLinked(freeLists) && RingLinked(partialLists) && RingLinked(fullLists)
      && Separate(freeLists, partialLists) && Separate(freeLists, fullLists) && Separate(partialLists, fullLists)
    }

    ghost predicate RingLinked(ring: Ring)
      reads this`members, ring`list, members`nextList, members`prevList
    {
      && (forall x :: x in ring.list ==> x in members && x.bufferSize == bufferSize)
      && IsRing(ring.list)
    }

    ghost predicate Separate(r: Ring, t: Ring)
      reads r`list, t`list
    {
      forall x :: x in r.list ==> x !in t.list
    }

    /** Every descriptor is sound, lives in this memory, and has the value recorded for it. */
    ghost predicate SlabsValid()
      reads this`members, this`slabs, mem, members`nextFree, members`buffersUsed, members`free, members`tail
    {
      forall x :: x in members ==>
        && x.mem == mem && x.Valid() && x.base in slabs && slabs[x.base] == x.Value()
        && forall y :: y in members && y.base == x.base ==> y == x
    }

    ghost function Value(): BufferSpec.Buffer
      reads this`slabs, freeLists, partialLists, fullLists
    {
      BufferSpec.Buffer(slabs, RingBases(freeLists.list, partialLists.list, fullLists.list))
    }

    ghost predicate Valid()
      reads this`members, this`slabs, mem, freeLists, partialLists, fullLists, members
    {
      && RingsLinked()
      && SlabsValid()
      && BufferInv(Value())
    }

    // -------------------------------------------------------------- moving slabs

    ghost predicate OnNoRing(x: ListDescriptor)
      reads freeLists`list, partialLists`list, fullLists`list
    {
      x !in freeLists.list && x !in partialLists.list && x !in fullLists.list
    }

    /** The body of `AddList`: the descriptor joins the ring of its kind, unless it still is the head there. */
    method Place(x: ListDescriptor)
      requires ListsLinked() && x in members && x.bufferSize == bufferSize && OnNoRing(x)
      requires freeLists.MayTake(x) && partialLists.MayTake(x) && fullLists.MayTake(x)
      modifies this`opCount, freeLists, partialLists, fullLists, members`nextList, members`prevList
      ensures ListsLinked() && opCount == Tick(old(opCount))
      ensures var kind := old(KindOf(x.Value()));
              && Placed(kind, Free, x, old(freeLists.head), old(freeLists.list), freeLists.head, freeLists.list)
              && Placed(kind, Partial, x, old(partialLists.head), old(partialLists.list),
                        partialLists.head, partialLists.list)
              && Placed(kind, Full, x, old(fullLists.head), old(fullLists.list), fullLists.head, fullLists.list)
    {
      opCount := Tick(opCount);
      if x.Full() {
        fullLists.Add(x, members);
        RingKept(freeLists.list);
        RingKept(partialLists.list);
      } else if x.Empty() {
        freeLists.Add(x, members);
        RingKept(partialLists.list);
        RingKept(fullLists.list);
      } else {
        partialLists.Add(x, members);
        RingKept(freeLists.list);
        RingKept(fullLists.list);
      }
    }

    /** `MoveFreeHead`, `MovePartialHead` and `MoveFullHead`. */
    method MoveHead(k: Kind)
      requires RingsLinked() && RingOf(k).list != []
      modifies this`opCount, freeLists, partialLists, fullLists, members`nextList, members`prevList
      ensures RingsLinked() && opCount == Tick(old(opCount))
      ensures var x := old(RingOf(k).list[0]);
              Value().rings == Relocated(old(Value().rings), k, 0, old(KindOf(x.Value())))
    {
      ghost var free, partial, full := freeLists.list, partialLists.list, fullLists.list;
      EntryBase(k, 0);
      hide ListsLinked, IsRing, Dropped, Bases, RingBases, Placed, MovedRing, Relocated, HeadOf, KindOf, Tick;
      var x, next := TakeHead(k);
      ghost var kind := KindOf(x.Value());
      ghost var free', partial', full' := freeLists.list, partialLists.list, fullLists.list;
      ghost var freeHead, partialHead, fullHead := freeLists.head, partialLists.head, fullLists.head;
      Place(x);
      HeadPlaced(Free, k, kind, x, free, free', freeHead, freeLists.head, freeLists.list);
      HeadPlaced(Partial, k, kind, x, partial, partial', partialHead, partialLists.head, partialLists.list);
      HeadPlaced(Full, k, kind, x, full, full', fullHead, fullLists.head, fullLists.list);
      RingOf(k).head := next;
      MovedBases(k, 0, kind, x, free, partial, full, freeLists.list, partialLists.list, fullLists.list);
    }

    lemma EntryBase(k: Kind, i: nat)
      requires i < |RingOf(k).list|
      ensures i < |Value().rings[k]| && Value().rings[k][i] == RingOf(k).list[i].base
    {
    }

    /** Takes the head of ring `k` out of the rings, with its list head still pointing to it. */
    method TakeHead(k: Kind) returns (x: ListDescriptor, next: ListDescriptor?)
      requires RingsLinked() && RingOf(k).list != []
      modifies freeLists`list, partialLists`list, fullLists`list, members`nextList, members`prevList
      ensures ListsLinked() && IsRing([x]) && OnNoRing(x) && x in members && x.bufferSize == bufferSize
      ensures x == old(RingOf(k).list[0]) && RingOf(k).head == x && next == HeadOf(RingOf(k).list)
      ensures freeLists.list == if k == Free then Dropped(old(freeLists.list), 0) else old(freeLists.list)
      ensures partialLists.list == if k == Partial then Dropped(old(partialLists.list), 0) else old(partialLists.list)
      ensures fullLists.list == if k == Full then Dropped(old(fullLists.list), 0) else old(fullLists.list)
      ensures k != Free ==> freeLists.head == HeadOf(freeLists.list)
      ensures k != Partial ==> partialLists.head == HeadOf(partialLists.list)
      ensures k != Full ==> fullLists.head == HeadOf(fullLists.list)
    {
      hide ListsLinked, IsRing, Dropped, HeadOf;
      BesideIff(k);
      DetachedHead(RingOf(k), Others(k).0, Others(k).1);
      assert RingOf(k).head == RingOf(k).list[0] by { HeadEntry(k, 0); }
      x, next := Detach(RingOf(k), Others(k).0, Others(k).1);
      BesideIff(k);
    }

    /** `ListsLinked`, seen from the ring `r`. */
    ghost predicate Beside(r: Ring, t: Ring, u: Ring)
      reads this`members, r`list, t`list, u`list, members`nextList, members`prevList
    {
      && r != t && r != u && t != u
      && RingLinked(r) && RingLinked(t) && RingLinked(u)
      && Separate(r, t) && Separate(r, u) && Separate(t, u)
    }

    /** The rings other than that of kind `k`. */
    function Others(k: Kind): (Ring, Ring) {
      match k
      case Free => (partialLists, fullLists)
      case Partial => (freeLists, fullLists)
      case Full => (freeLists, partialLists)
    }

    lemma BesideIff(k: Kind)
      ensures ListsLinked() <==> Beside(RingOf(k), Others(k).0, Others(k).1)
    {
      hide RingLinked;
    }

    /** The head of a ring is on no other ring, and not on what is left of its own. */
    lemma DetachedHead(ring: Ring, t: Ring, u: Ring)
      requires Beside(ring, t, u) && ring.list != []
      ensures var r := ring.list;
              && r[0] in members && r[0].bufferSize == bufferSize
              && r[0] !in r[1..] && r[0] !in t.list && r[0] !in u.list
              && Dropped(r, 0) == r[1..] && forall y :: y in r[1..] ==> y in r
    {
      assert ring.list[0] in ring.list;
    }

    method Detach(ring: Ring, ghost t: Ring, ghost u: Ring) returns (x: ListDescriptor, next: ListDescriptor?)
      requires Beside(ring, t, u) && ring.list != [] && ring.head == ring.list[0]
      modifies ring`list, members`nextList, members`prevList
      ensures Beside(ring, t, u) && IsRing([x])
      ensures x == ring.head == old(ring.list)[0] && ring.list == Dropped(old(ring.list), 0)
      ensures next == HeadOf(ring.list)
    {
      DetachedHead(ring, t, u);
      hide Dropped, IsRing;
      x, next := ring.DetachHead(members);
      RingKept(t.list);
      RingKept(u.list);
    }

    /** `MovePartialEntry` and `MoveFullEntry`: an entry of ring `k` joins the ring of its kind. */
    method MoveEntry(k: Kind, entry: ListDescriptor, ghost i: nat)
      requires RingsLinked() && i < |RingOf(k).list| && RingOf(k).list[i] == entry
      modifies this`opCount, freeLists, partialLists, fullLists, members`nextList, members`prevList
      ensures RingsLinked() && opCount == Tick(old(opCount))
      ensures Value().rings == Relocated(old(Value().rings), k, i, old(KindOf(entry.Value())))
    {
      HeadEntry(k, i);
      hide ListsLinked, Relocated;
      if entry == RingOf(k).head {
        MoveHead(k);
      } else {
        MoveOther(k, entry, i);
      }
    }

    lemma HeadEntry(k: Kind, i: nat)
      requires RingsLinked() && i < |RingOf(k).list|
      ensures RingOf(k).list[i] == RingOf(k).head <==> i == 0
    {
    }

    /** ... which is not the head. */
    method MoveOther(k: Kind, entry: ListDescriptor, ghost i: nat)
      requires RingsLinked() && 0 < i < |RingOf(k).list| && RingOf(k).list[i] == entry
      modifies this`opCount, freeLists, partialLists, fullLists, members`nextList, members`prevList
      ensures RingsLinked() && opCount == Tick(old(opCount))
      ensures Value().rings == Relocated(old(Value().rings), k, i, old(KindOf(entry.Value())))
    {
      ghost var free, partial, full := freeLists.list, partialLists.list, fullLists.list;
      hide ListsLinked, IsRing, Dropped, Bases;
      BesideIff(k);
      Unlink(RingOf(k), Others(k).0, Others(k).1, entry, i);
      BesideIff(k);
      Place(entry);
      MovedBases(k, i, KindOf(entry.Value()), entry, free, partial, full,
                 freeLists.list, partialLists.list, fullLists.list);
    }

    method Unlink(ring: Ring, ghost t: Ring, ghost u: Ring, entry: ListDescriptor, ghost i: nat)
      requires Beside(ring, t, u) && 0 < i < |ring.list| && ring.list[i] == entry && ring.head == HeadOf(ring.list)
      modifies ring`list, members`nextList, members`prevList
      ensures Beside(ring, t, u) && ring.list == Dropped(old(ring.list), i) && ring.head == HeadOf(ring.list)
      ensures entry in members && entry.bufferSize == bufferSize
      ensures entry !in ring.list && entry !in t.list && entry !in u.list
    {
      ghost var r := ring.list;
      assert entry in r;
      assert forall x :: x in Dropped(r, i) ==> x in r && x != entry;
      hide Dropped, IsRing;
      ring.DetachEntry(entry, i, members);
      RingKept(t.list);
      RingKept(u.list);
    }

    // -------------------------------------------------------------- allocation

    /** Puts a new descriptor on record. */
    ghost method Enrol(list: ListDescriptor)
      requires RingsLinked() && SlabsValid()
      requires list !in members && list.mem == mem && list.Valid() && list.base !in slabs
      modifies this`members, this`slabs
      ensures RingsLinked() && SlabsValid()
      ensures members == old(members) + {list} && slabs == old(slabs)[list.base := list.Value()]
    {
      members := members + {list};
      slabs := slabs[list.base := list.Value()];
    }

    method AddList(list: ListDescriptor)
      requires Valid() && list !in members && list.mem == mem && list.Valid() && list.bufferSize == bufferSize
      requires MayAdd(Value(), list.Value())
      modifies this, freeLists, partialLists, fullLists
      modifies members`nextList, members`prevList, list`nextList, list`prevList
      ensures Valid() && members == old(members) + {list} && opCount == Tick(old(opCount))
      ensures Value() == BufferSpec.AddList(old(Value()), old(list.Value()))
    {
      hide BufferInv, SlabsValid;
      AddListJoins(Value(), list.Value());
      ghost var free, partial, full := freeLists.list, partialLists.list, fullLists.list;
      Enrol(list);
      Place(list);
      JoinedBases(KindOf(list.Value()), list, free, partial, full, freeLists.list, partialLists.list, fullLists.list);
    }

    /** Takes a slot from a descriptor, and records the descriptor's new value. */
    method TakeFrom(x: ListDescriptor) returns (alloc: nat)
      requires RingsLinked() && SlabsValid() && x in members
      modifies this`slabs, x`nextFree, x`buffersUsed, x`free, x`tail
      ensures RingsLinked() && SlabsValid()
      ensures (x.Value(), alloc) == SlabSpec.Allocate(old(x.Value()))
      ensures slabs == old(slabs)[x.base := x.Value()]
    {
      hide RingsLinked;
      alloc := x.Allocate();
      slabs := slabs[x.base := x.Value()];
    }

    /** What the record says about entry `i` of ring `k`. */
    lemma EntryKnown(k: Kind, i: nat)
      requires RingsLinked() && SlabsValid() && i < |RingOf(k).list|
      ensures var x := RingOf(k).list[i];
              && x in members && x.base in slabs && slabs[x.base] == x.Value()
              && i < |Value().rings[k]| && Value().rings[k][i] == x.base
      ensures RingOf(k).head == RingOf(k).list[0]
    {
      assert RingOf(k).list[i] in RingOf(k).list;
    }

    lemma RingKnown(k: Kind)
      requires RingsLinked()
      ensures RingOf(k).Valid()
    {
    }

    lemma HeadKnown(k: Kind)
      requires RingsLinked()
      ensures RingOf(k).head == null <==> Value().rings[k] == []
      ensures |Value().rings[k]| == |RingOf(k).list|
    {
    }

    method AddToFree() returns (alloc: nat)
      requires Valid() && freeLists.list != []
      modifies this, freeLists, partialLists, fullLists, members
      ensures Valid() && members == old(members)
      ensures (Value(), alloc) == Serve(old(Value()), Free)
      ensures opCount == Tick(old(opCount)) && Value().rings != old(Value().rings)
    {
      hide SlabsInv, RingsExact, SlabsValid, RingsLinked;
      ServeOne(Value(), Free);
      EntryKnown(Free, 0);
      alloc := TakeFrom(freeLists.head);
      RelocatedDiffers(Value().rings, Free, 0, KindOf(freeLists.head.Value()));
      MoveHead(Free);
    }

    /** The element that pass `n` of the search of `AddToPartial` looks at. */
    static ghost function PassAt(head: ListDescriptor, n: nat): ListDescriptor
      reads head`nextList
    {
      if n == 0 then head else head.nextList
    }

    /** The search ends if some pass finds space, or comes back to the head: exactly if the ring has one element,
        or one of the first two has space. */
    lemma SearchEndsIff(ring: Ring)
      requires ring.Valid() && ring.list != []
      ensures (exists n: nat :: PassAt(ring.list[0], n).HasSpace() || ring.list[0].nextList == ring.list[0])
         <==> |ring.list| == 1 || ring.list[0].HasSpace() || ring.list[1].HasSpace()
    {
      var r := ring.list;
      assert r[0].nextList == r[Succ(0, |r|)];
      assert PassAt(r[0], 0) == r[0] && PassAt(r[0], 1) == r[0].nextList;
    }

    /** The search of `AddToPartial`, which always goes on with the element behind the head: it needs a ring of
        one, or space in one of the first two elements. */
    method SearchPartial() returns (it: ListDescriptor?, ghost passes: nat)
      requires partialLists.Valid() && partialLists.list != []
      requires var r := partialLists.list; r[0].HasSpace() || |r| == 1 || r[1].HasSpace()
      ensures var r := partialLists.list;
              if r[0].HasSpace() then it == r[0] && passes == 1
              else if |r| == 1 then it == null
              else it == r[1] && passes == 2
    {
      ghost var r := partialLists.list;
      assert r[0].nextList == r[Succ(0, |r|)];
      it := partialLists.head;
      passes := 1;
      while !it.HasSpace()
        invariant 1 <= passes <= 2 && passes <= |r| && it == r[passes - 1]
        invariant passes == 2 ==> !r[0].HasSpace()
        decreases 2 - passes
      {
        it := partialLists.head.nextList;
        if it == partialLists.head {
          return null, passes;
        }
        passes := passes + 1;
      }
    }

    /** The head of the partial ring always has space, so the search ends on its first pass. */
    method AddToPartial() returns (alloc: nat, ghost passes: nat)
      requires Valid() && partialLists.list != []
      modifies this, freeLists, partialLists, fullLists, members
      ensures Valid() && members == old(members)
      ensures (Value(), alloc) == Serve(old(Value()), Partial)
      ensures passes == 1
      ensures opCount == if Value().rings == old(Value().rings) then old(opCount) else Tick(old(opCount))
    {
      hide SlabsInv, RingsExact, SlabsValid, RingsLinked;
      ServeOne(Value(), Partial);
      EntryKnown(Partial, 0);
      RingKnown(Partial);
      var it;
      it, passes := SearchPartial();
      alloc := TakeFrom(it);
      if it.Full() {
        RelocatedDiffers(Value().rings, Partial, 0, Full);
        MoveEntry(Partial, it, 0);
      }
    }

    method Allocate() returns (alloc: nat)
      requires Valid()
      modifies this, freeLists, partialLists, fullLists, members
      ensures Valid() && members == old(members)
      ensures (Value(), alloc) == BufferSpec.Allocate(old(Value()))
      ensures opCount == if alloc == 0 then old(opCount)
                         else if Value().rings == old(Value().rings) then Tick(old(opCount))
                         else Tick(Tick(old(opCount)))
    {
      hide SlabsInv, RingsExact, SlabsValid, RingsLinked;
      AllocateServes(Value());
      HeadKnown(Partial);
      HeadKnown(Free);
      alloc := 0;
      if partialLists.head != null {
        ghost var passes;
        alloc, passes := AddToPartial();
      }
      if alloc == 0 && freeLists.head != null {
        alloc := AddToFree();
      }
      if alloc == 0 {
        return 0;
      }
      opCount := Tick(opCount);
    }

    // -------------------------------------------------------------- deallocation

    /** Returns a slot to its descriptor, and records the descriptor's new value.  The links it writes lie
        in this slab, so no other chain changes. */
    method ReturnTo(x: ListDescriptor, objaddr: nat)
      requires RingsLinked() && SlabsValid() && SlabsInv(slabs) && x in members
      modifies this`slabs, x`nextFree, x`buffersUsed, x`free, x`tail, mem
      ensures RingsLinked()
      ensures SlabSpec.MayFree(old(x.Value()), objaddr) ==> SlabsValid()
      ensures x.Value() == SlabSpec.Deallocate(old(x.Value()), objaddr)
      ensures slabs == old(slabs)[x.base := x.Value()]
      ensures SlabSpec.MayFree(old(x.Value()), objaddr) ==>
                forall c :: Load(mem.words, c) == Load(old(mem.words), c) || IsLink(slabs, c)
    {
      hide RingsLinked, SlabSpec.SlabInv, SlabSpec.Cells, SlabSpec.Deallocate, SlabSpec.DeallocatedWords,
        SlabSpec.MayFree, Chain;
      ghost var s, w := x.Value(), SlabSpec.DeallocatedWords(mem.words, x.Value(), objaddr);
      HeadIs(mem.words, x.nextFree, SlabSpec.Cells(s));
      if SlabSpec.MayFree(s, objaddr) {
        OnlyLinksWritten(mem.words, s, objaddr);
        forall y | y in members && y != x
          ensures SlabSpec.SlabInv(y.Value()) && Chain(w, y.nextFree, SlabSpec.Cells(y.Value()))
        {
          assert slabs[x.base].base == x.base && slabs[y.base].base == y.base;
          OthersKeepChains(mem.words, s, objaddr, y.Value(), y.nextFree);
        }
      }
      x.Deallocate(objaddr);
      slabs := slabs[x.base := x.Value()];
    }

    /** The ring walk of `DeallocPartial` and `DeallocFull`. */
    method FindList(ring: Ring, objaddr: nat) returns (it: ListDescriptor?, ghost i: nat)
      requires ring.Valid()
      ensures it == null ==> forall j :: 0 <= j < |ring.list| ==> !ring.list[j].ObjectInRange(objaddr)
      ensures it != null ==>
                && i < |ring.list| && ring.list[i] == it && it.ObjectInRange(objaddr)
                && forall j :: 0 <= j < i ==> !ring.list[j].ObjectInRange(objaddr)
    {
      ghost var list := ring.list;
      i := 0;
      it := ring.head;
      if it == null {
        return;
      }
      while !it.ObjectInRange(objaddr)
        invariant i < |list| && it == list[i]
        invariant forall j :: 0 <= j < i ==> !list[j].ObjectInRange(objaddr)
        decreases |list| - i
      {
        assert list[i].nextList == list[Succ(i, |list|)];
        it := it.nextList;
        if it == ring.head {
          return null, 0;
        }
        i := i + 1;
      }
    }

    /** Which descriptors of a ring an address lies in, as the record has it. */
    lemma ListKnown(k: Kind, a: nat)
      requires RingsLinked() && SlabsValid()
      ensures Value().rings[k] == Bases(RingOf(k).list)
      ensures InRangeAgrees(slabs, RingOf(k).list, a)
    {
    }

    /** The body of the walk in `DeallocPartial` and `DeallocFull`, for the slab that the object lies in. */
    method FreeIn(k: Kind, it: ListDescriptor, ghost i: nat, objaddr: nat)
      requires Valid() && k != Free
      requires i < |RingOf(k).list| && RingOf(k).list[i] == it && it.ObjectInRange(objaddr)
      modifies this, mem, freeLists, partialLists, fullLists, members
      ensures members == old(members) && (Valid() <==> BufferSpec.MayFree(old(Value()), objaddr))
      ensures i < |old(Value()).rings[k]| && Value() == DeallocateIn(old(Value()), k, i, objaddr)
      ensures BufferSpec.MayFree(old(Value()), objaddr) ==>
                forall c :: Load(mem.words, c) == Load(old(mem.words), c) || IsLink(slabs, c)
      ensures opCount == if Value().rings == old(Value().rings) then old(opCount) else Tick(old(opCount))
    {
      hide SlabsInv, RingsExact, SlabsValid, RingsLinked;
      EntryKnown(k, i);
      DeallocateInIff(Value(), k, i, objaddr);
      KindAfterFree(Value(), k, i, objaddr);
      ReturnTo(it, objaddr);
      if (if k == Partial then it.Empty() else !it.Full()) {
        RelocatedDiffers(Value().rings, k, i, KindOf(it.Value()));
        MoveEntry(k, it, i);
      }
    }

    /** `DeallocPartial` and `DeallocFull`: walks ring `k` for the slab the object lies in. */
    method DeallocFrom(k: Kind, objaddr: nat) returns (status: bool)
      requires Valid() && k != Free
      modifies this, mem, freeLists, partialLists, fullLists, members
      ensures members == old(members)
      ensures var b := old(Value());
              match Find(b.slabs, b.rings[k], objaddr, 0)
              case None => !status && Valid() && Value() == b && mem.words == old(mem.words)
              case Some(i) =>
                status && Value() == DeallocateIn(b, k, i, objaddr) && (Valid() <==> BufferSpec.MayFree(b, objaddr))
      ensures BufferSpec.MayFree(old(Value()), objaddr) ==>
                forall c :: Load(mem.words, c) == Load(old(mem.words), c) || IsLink(slabs, c)
      ensures opCount == if Value().rings == old(Value().rings) then old(opCount) else Tick(old(opCount))
    {
      hide SlabsInv, RingsExact, SlabsValid, RingsLinked;
      RingKnown(k);
      var it, i := FindList(RingOf(k), objaddr);
      ListKnown(k, objaddr);
      WalkFinds(slabs, RingOf(k).list, objaddr, it, i);
      if it == null {
        return false;
      }
      FreeIn(k, it, i, objaddr);
      return true;
    }

    /** An object that is in no partial and no full slab is ignored.  The buffer stays valid if and only if the
        address is that of an object, or is in no slab that has objects. */
    method Deallocate(objaddr: nat)
      requires Valid()
      modifies this, mem, freeLists, partialLists, fullLists, members
      ensures members == old(members) && (Valid() <==> BufferSpec.MayFree(old(Value()), objaddr))
      ensures Value() == BufferSpec.Deallocate(old(Value()), objaddr)
      ensures BufferSpec.MayFree(old(Value()), objaddr) ==>
                forall c :: Load(mem.words, c) == Load(old(mem.words), c) || IsLink(slabs, c)
      ensures opCount == if Value().rings == old(Value().rings) then old(opCount) else Tick(old(opCount))
    {
      hide SlabsInv, RingsExact, SlabsValid, RingsLinked;
      DeallocateIff(Value(), objaddr);
      var done := DeallocFrom(Partial, objaddr);
      if !done {
        done := DeallocFrom(Full, objaddr);
      }
    }

    /** A client writes a word inside object `l` of the slab at `x`: the buffer does not notice. */
    method ClientWrite(cell: nat, value: nat, ghost x: nat, ghost l: nat)
      requires Valid() && InObject(slabs, x, l, cell)
      modifies mem
      ensures Valid() && Value() == old(Value())
      ensures mem.words == old(mem.words)[cell := value]
    {
      SlabSpec.SlotInside(slabs[x], l);
      hide SlabSpec.SlabInv, SlabSpec.Cells, Chain, RingsLinked, RingsExact;
      ghost var w := mem.words;
      forall y | y in members
        ensures Chain(w[cell := value], y.nextFree, SlabSpec.Cells(y.Value()))
      {
        forall c | c in SlabSpec.Cells(y.Value()) ensures c != cell {
          assert IsLink(slabs, c);
          LinksMissObjects(Value(), c, x, l);
        }
        ChainFrame(w, w[cell := value], y.nextFree, SlabSpec.Cells(y.Value()));
      }
      mem.Write(cell, value);
    }

    // -------------------------------------------------------------- whole runs

    /** Descriptors that can still join: sound, of the right size, in this memory, and not members. */
    ghost predicate Waiting(waiting: seq<ListDescriptor>)
      reads this`members, mem, waiting`nextFree, waiting`buffersUsed, waiting`free, waiting`tail
    {
      && Distinct(waiting)
      && forall x :: x in waiting ==> x !in members && x.mem == mem && x.bufferSize == bufferSize && x.Valid()
    }

    /** The descriptors are those of the given slabs, and lie outside the slabs that are there. */
    ghost predicate Describe(waiting: seq<ListDescriptor>, news: seq<SlabSpec.Slab>)
      reads waiting`buffersUsed, waiting`free, waiting`tail
    {
      |news| == |waiting| && forall i {:trigger news[i]} :: 0 <= i < |news| ==> news[i] == waiting[i].Value()
    }

    ghost predicate Outside(waiting: seq<ListDescriptor>)
      reads this`slabs, waiting`buffersUsed, waiting`free, waiting`tail
    {
      forall x, y :: x in waiting && y in slabs ==> Apart(slabs[y], x.Value())
    }

    /** Writing to cells of slabs that are there keeps the waiting descriptors sound. */
    twostate lemma WaitingKept(waiting: seq<ListDescriptor>)
      requires old(Waiting(waiting)) && members == old(members) && Outside(waiting)
      requires forall x :: x in waiting ==> SameSlab(x)
      requires WritesInSlabs(old(mem.words), mem.words, slabs)
      ensures Waiting(waiting)
    {
      forall x | x in waiting ensures x.Valid() {
        ChainOutside(old(mem.words), mem.words, slabs, x.Value(), x.nextFree);
      }
    }

    lemma FirstWaiting(waiting: seq<ListDescriptor>)
      requires Waiting(waiting)
      ensures forall x :: x in waiting ==> x !in members
      ensures waiting != [] ==>
                var x := waiting[0]; x !in members && x.mem == mem && x.bufferSize == bufferSize && x.Valid()
    {
    }

    /** Once the first has joined, the others still wait. */
    twostate lemma RestWaits(waiting: seq<ListDescriptor>)
      requires old(Waiting(waiting)) && waiting != [] && members == old(members) + {waiting[0]}
      requires mem.words == old(mem.words)
      requires forall x :: x in waiting ==> SameSlab(x)
      ensures Waiting(waiting[1..])
    {
      assert forall x :: x in waiting[1..] ==> x in waiting;
      assert waiting[0] !in waiting[1..];
    }

    lemma StepInPlace(op: Op)
      requires Valid() && Legal(Value(), op) && !op.Join?
      ensures SameRegions(Value(), Step(Value(), op))
    {
      StepRefines(Value(), op);
    }

    twostate lemma StillOutside(waiting: seq<ListDescriptor>)
      requires old(Outside(waiting)) && SameRegions(old(Value()), Value())
      requires forall x :: x in waiting ==> SameSlab(x)
      ensures Outside(waiting)
    {
    }

    lemma DescribeFirst(waiting: seq<ListDescriptor>, ops: seq<Op>)
      requires ops != [] && Describe(waiting, Joins(ops))
      ensures if ops[0].Join?
              then waiting != [] && waiting[0].Value() == ops[0].slab && Describe(waiting[1..], Joins(ops[1..]))
              else Describe(waiting, Joins(ops[1..]))
    {
      if ops[0].Join? {
        assert Joins(ops)[0] == ops[0].slab && Joins(ops)[1..] == Joins(ops[1..]);
      } else {
        assert Joins(ops) == Joins(ops[1..]);
      }
    }

    /** Descriptors waiting to join in a legal run lie outside the slabs that are there. */
    lemma OutsideOf(ops: seq<Op>, waiting: seq<ListDescriptor>)
      requires BufferInv(Value()) && LegalRun(Value(), ops) && Describe(waiting, Joins(ops))
      ensures Outside(waiting)
    {
      forall x, y | x in waiting && y in slabs ensures Apart(slabs[y], x.Value()) {
        var i :| 0 <= i < |waiting| && waiting[i] == x;
        assert Joins(ops)[i] == x.Value();
        JoinsApart(Value(), ops, x.Value());
      }
    }

    /** The first waiting descriptor joins. */
    method JoinFirst(waiting: seq<ListDescriptor>, ghost news: seq<SlabSpec.Slab>)
      requires Valid() && Waiting(waiting) && waiting != [] && MayAdd(Value(), waiting[0].Value())
      requires Describe(waiting[1..], news)
      modifies this, freeLists, partialLists, fullLists
      modifies members`nextList, members`prevList, waiting`nextList, waiting`prevList
      ensures Valid() && Value() == BufferSpec.AddList(old(Value()), old(waiting[0].Value()))
      ensures members == old(members) + {waiting[0]}
      ensures Waiting(waiting[1..]) && Describe(waiting[1..], news)
    {
      FirstWaiting(waiting);
      hide *;
      ghost var rest := waiting[1..];
      AddList(waiting[0]);
      RestWaits(waiting);
      assert Waiting(rest) && Describe(rest, news);
    }

    /** Any other request.  It writes to cells of slabs that are there. */
    method Perform(op: Op) returns (answer: nat)
      requires Valid() && Legal(Value(), op) && !op.Join?
      modifies this, mem, freeLists, partialLists, fullLists, members
      ensures Valid() && members == old(members)
      ensures Value() == Step(old(Value()), op) && answer == Answer(old(Value()), op)
      ensures WritesInSlabs(old(mem.words), mem.words, slabs)
      ensures WordsKept(old(Value()), op, old(mem.words), Value(), mem.words)
    {
      hide SlabsInv, RingsExact, SlabsValid, RingsLinked, InObject;
      answer := 0;
      match op
      case Alloc =>
        answer := Allocate();
      case Dealloc(a) =>
        Deallocate(a);
        LinksInSlabs(slabs);
        ObjectsHoldNoLinks(Value());
      case ClientWrite(cell, value) =>
        ghost var x, l :| InObject(slabs, x, l, cell);
        ObjectsInSlabs(slabs, x, l, cell);
        ClientWrite(cell, value, x, l);
    }

    /** The same while some descriptors wait to join. */
    method PerformBeside(op: Op, ghost waiting: seq<ListDescriptor>, ghost news: seq<SlabSpec.Slab>)
        returns (answer: nat)
      requires Valid() && Legal(Value(), op) && !op.Join?
      requires Waiting(waiting) && Outside(waiting) && Describe(waiting, news)
      modifies this, mem, freeLists, partialLists, fullLists, members
      ensures Valid() && members == old(members)
      ensures Value() == Step(old(Value()), op) && answer == Answer(old(Value()), op)
      ensures WordsKept(old(Value()), op, old(mem.words), Value(), mem.words)
      ensures Waiting(waiting) && Describe(waiting, news)
    {
      FirstWaiting(waiting);
      StepInPlace(op);
      hide *;
      answer := Perform(op);
      StillOutside(waiting);
      WaitingKept(waiting);
    }

    /** Serves the first of a sequence of requests. */
    method ServeFirst(ops: seq<Op>, waiting: seq<ListDescriptor>) returns (answer: nat, rest: seq<ListDescriptor>)
      requires Valid() && LegalRun(Value(), ops) && ops != []
      requires Waiting(waiting) && Describe(waiting, Joins(ops))
      modifies this, mem, freeLists, partialLists, fullLists, members, waiting`nextList, waiting`prevList
      ensures Valid() && LegalRun(Value(), ops[1..])
      ensures Value() == Step(old(Value()), ops[0])
      ensures WordsKept(old(Value()), ops[0], old(mem.words), Value(), mem.words)
      ensures Run(Value(), ops[1..]) == Run(old(Value()), ops)
      ensures [answer] + Answers(Value(), ops[1..]) == Answers(old(Value()), ops)
      ensures members <= old(members) + set x | x in waiting
      ensures Waiting(rest) && Describe(rest, Joins(ops[1..])) && forall x :: x in rest ==> x in waiting
    {
      hide BufferInv, SlabsValid, RingsLinked, Waiting, Outside, Describe, Joins, LegalRun, Run, Answers, Step,
        Answer, Legal, MayAdd, InObject;
      RunStep(Value(), ops);
      OutsideOf(ops, waiting);
      DescribeFirst(waiting, ops);
      answer, rest := 0, waiting;
      if ops[0].Join? {
        JoinFirst(waiting, Joins(ops[1..]));
        rest := waiting[1..];
      } else {
        answer := PerformBeside(ops[0], waiting, Joins(ops[1..]));
      }
    }

    /** Serves a sequence of requests: every run of the real buffer is a run of the specification.  Slabs join
        by their descriptors, in the given order.  A word in an object that stays in use ends up holding what its
        client last wrote there. */
    method Replay(ops: seq<Op>, waiting: seq<ListDescriptor>) returns (answers: seq<nat>)
      requires Valid() && LegalRun(Value(), ops)
      requires Waiting(waiting) && Describe(waiting, Joins(ops))
      modifies this, mem, freeLists, partialLists, fullLists, members, waiting
      ensures Valid()
      ensures Value() == Run(old(Value()), ops)
      ensures answers == Answers(old(Value()), ops)
      ensures forall x, l, cell :: Tracked(old(Value()), ops, x, l, cell) ==>
                Load(mem.words, cell) == LastWritten(ops, cell, Load(old(mem.words), cell))
    {
      hide BufferInv, SlabsValid, RingsLinked, Waiting, Describe, Joins, LegalRun, Run, Answers, Remembers, WordsKept,
        Tracked, Step, Legal;
      answers := [];
      RemembersStart(Value(), ops, mem.words);
      var queue := waiting;
      ghost var known := members + set x | x in waiting;
      assert forall x :: x in known ==> x in members || x in waiting;
      for i := 0 to |ops|
        invariant Valid() && LegalRun(Value(), ops[i..])
        invariant Run(Value(), ops[i..]) == Run(old(Value()), ops)
        invariant answers + Answers(Value(), ops[i..]) == Answers(old(Value()), ops)
        invariant members <= known && forall x :: x in queue ==> x in waiting
        invariant Waiting(queue) && Describe(queue, Joins(ops[i..]))
        invariant Remembers(old(Value()), ops, old(mem.words), Value(), ops[i..], mem.words)
      {
        assert ops[i..][0] == ops[i] && ops[i..][1..] == ops[i + 1..];
        ghost var b, w := Value(), mem.words;
        var answer;
        answer, queue := ServeFirst(ops[i..], queue);
        answers := answers + [answer];
        RemembersStep(old(Value()), ops, old(mem.words), b, ops[i..], w, Value(), mem.words);
      }
      assert ops[|ops|..] == [];
      RunEnd(Value());
      RemembersEnd(old(Value()), ops, old(mem.words), Value(), mem.words);
    }
  }
}
