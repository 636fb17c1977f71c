/** A slab's descriptor: its free chain, and its place in a circular doubly linked ring of slabs. */
module ListDescriptors {
  import opened WordMemory
  import opened Chains
  import opened Sequences
  import SlabSpec

  class ListDescriptor {
    const mem: Memory
    const base: nat
    const bufferSize: nat
    const totalBuffers: nat
    const pages: nat
    var nextFree: nat
    var buffersUsed: nat
    var nextList: ListDescriptor
    var prevList: ListDescriptor
    ghost var free: seq<nat>
    ghost var tail: bool

    constructor (mem: Memory, baseAddr: nat, bufferSize: nat, pages: nat)
      ensures this.mem == mem && base == baseAddr && this.pages == pages
      ensures this.bufferSize == if bufferSize < SlabSpec.MIN_BUFFER_SIZE then SlabSpec.MIN_BUFFER_SIZE else bufferSize
      ensures totalBuffers == SlabSpec.SlotCount(this.bufferSize, pages)
      ensures nextFree == 0 && buffersUsed == 0
      ensures IsRing([this])
    {
      this.mem := mem;
      base := baseAddr;
      nextFree := 0;
      nextList := this;
      prevList := this;
      var size := if bufferSize < SlabSpec.MIN_BUFFER_SIZE then SlabSpec.MIN_BUFFER_SIZE else bufferSize;
      this.bufferSize := size;
      buffersUsed := 0;
      this.pages := pages;
      totalBuffers := SlabSpec.SlotCount(size, pages);
    }

    ghost function Value(): SlabSpec.Slab
      reads this`buffersUsed, this`free, this`tail
    {
      SlabSpec.Slab(base, bufferSize, pages, totalBuffers, buffersUsed, free, tail)
    }

    /** The free chain in memory is the one the slab's value describes. */
    ghost predicate Valid()
      reads this`nextFree, this`buffersUsed, this`free, this`tail, mem
    {
      SlabSpec.SlabInv(Value()) && Chain(mem.words, nextFree, SlabSpec.Cells(Value()))
    }

    function Limit(): nat { base + PAGE_SIZE * pages }

    predicate ObjectInRange(obj: nat) { base <= obj < Limit() }

    predicate Full() reads this`buffersUsed { totalBuffers == buffersUsed }

    predicate Empty() reads this`buffersUsed { buffersUsed == 0 }

    predicate HasSpace() reads this`buffersUsed { totalBuffers > buffersUsed }

    // -------------------------------------------------------------- the free chain

    /** Threads the free chain through a new slab.  The slab is then valid if and only if its slot count
        fits the 16-bit counter.  Only words that share a byte with a link can change, and if no left-over is
        shorter than a link, none outside the region does. */
    method SetupLinkage()
      requires base > 0 && bufferSize >= SlabSpec.MIN_BUFFER_SIZE && pages > 0
      requires totalBuffers == SlabSpec.SlotCount(bufferSize, pages)
      requires buffersUsed == 0
      modifies this`nextFree, this`free, this`tail, mem
      ensures Valid() <==> pages * PAGE_SIZE / bufferSize < UINT16
      ensures free == SlabSpec.Slots(Value())
      ensures tail <==> Value().Bytes() % bufferSize != 0
      ensures forall a: nat :: SlabSpec.WordApart(a, SlabSpec.Cells(SlabSpec.NewSlab(base, bufferSize, pages))) ==>
                Load(mem.words, a) == Load(old(mem.words), a)
      ensures SlabSpec.LinksFit(Value()) ==>
                forall a: nat :: a + LINK_BYTES <= base || Limit() <= a ==>
                  Load(mem.words, a) == Load(old(mem.words), a)
    {
      ghost var s := SlabSpec.NewSlab(base, bufferSize, pages);
      SlabSpec.NewSlabInv(base, bufferSize, pages);
      LinkCells(SlabSpec.Cells(s));
      free := SlabSpec.SlotSeq(base, bufferSize, totalBuffers);
      tail := s.tail;
      assert pages * PAGE_SIZE / bufferSize < UINT16 ==> Value() == s;
      if SlabSpec.LinksFit(s) {
        forall a: nat | a + LINK_BYTES <= base || Limit() <= a ensures SlabSpec.WordApart(a, SlabSpec.Cells(s)) {
          SlabSpec.OutsideIsApart(s, a);
        }
      }
    }

    /** The loop of `SetupLinkage`. */
    method LinkCells(ghost cells: seq<nat>)
      requires base > 0 && bufferSize >= SlabSpec.MIN_BUFFER_SIZE && pages > 0
      requires cells == SlabSpec.SlotSeq(base, bufferSize, SlabSpec.CellCount(PAGE_SIZE * pages, bufferSize))
      requires Sorted(cells) && 0 !in cells && cells != []
      modifies this`nextFree, mem
      ensures Chain(mem.words, nextFree, cells)
      ensures forall a: nat :: SlabSpec.WordApart(a, cells) ==> Load(mem.words, a) == Load(old(mem.words), a)
    {
      hide OpenChain, Chain, SlabSpec.WordApart, SlabSpec.CellCount;
      ghost var bytes := PAGE_SIZE * pages;
      OpenChainStart(mem.words, cells[..1]);
      var limit := Limit();
      var current := base;
      nextFree := current;
      ghost var k := 0;
      SlabSpec.CellsBelowLimit(base, bufferSize, bytes, 0);
      while current + bufferSize < limit
        invariant k < |cells| && current == SlabSpec.SlotAt(base, bufferSize, k) == cells[k]
        invariant OpenChain(mem.words, cells[..k + 1])
        invariant forall a :: a !in cells ==> Load(mem.words, a) == Load(old(mem.words), a)
        invariant base <= current < limit && nextFree == base == cells[0]
        decreases limit - current
      {
        SlabSpec.CellsBelowLimit(base, bufferSize, bytes, k + 1);
        assert cells[k + 1] == current + bufferSize;
        ghost var w := mem.words;
        mem.Write(current, current + bufferSize);
        OpenChainStep(w, cells, k);
        current := current + bufferSize;
        k := k + 1;
      }
      SlabSpec.CellsBelowLimit(base, bufferSize, bytes, k + 1);
      assert cells[..k + 1] == cells;
      CloseChain(mem.words, cells);
      mem.Write(current, 0);
      forall a: nat | SlabSpec.WordApart(a, cells) ensures Load(mem.words, a) == Load(old(mem.words), a) {
        SlabSpec.ApartIsOff(a, cells);
      }
    }

    method Allocate() returns (allocd: nat)
      requires Valid()
      modifies this`nextFree, this`buffersUsed, this`free, this`tail
      ensures Valid()
      ensures (Value(), allocd) == SlabSpec.Allocate(old(Value()))
    {
      ghost var s := Value();
      SlabSpec.AllocateLowest(s);
      if buffersUsed == totalBuffers {
        return 0;
      }
      SlabSpec.AllocateCells(s);
      ChainSuffix(mem.words, nextFree, SlabSpec.Cells(s), 1);
      assert SlabSpec.Cells(s)[0] in SlabSpec.Cells(s);
      assert Load(mem.words, SlabSpec.Cells(s)[0]) == At(SlabSpec.Cells(s), 1);
      allocd := nextFree;
      nextFree := mem.Read(nextFree);
      buffersUsed := buffersUsed + 1;
      if buffersUsed == totalBuffers {
        nextFree := 0;
      }
      free := s.free[1..];
      tail := s.tail && buffersUsed != totalBuffers;
    }

    /** The descriptor stays valid if and only if the address is that of an object, or is ignored. */
    method Deallocate(address: nat)
      requires Valid()
      modifies this`nextFree, this`buffersUsed, this`free, mem
      ensures Valid() <==> SlabSpec.MayFree(old(Value()), address)
      ensures Value() == SlabSpec.Deallocate(old(Value()), address)
      ensures mem.words == SlabSpec.DeallocatedWords(old(mem.words), old(Value()), address)
    {
      if !ObjectInRange(address) || buffersUsed == 0 {
        return;
      }
      ghost var s := Value();
      HeadIs(mem.words, nextFree, SlabSpec.Cells(s));
      SlabSpec.FreedChainSoundIff(mem.words, s, address);
      SlabSpec.CellsSorted(s);
      hide SlabSpec.SlabInv, SlabSpec.Cells, SlabSpec.MayFree, Chain, Sorted, Linked, Insert;
      InsertCell(address, SlabSpec.Cells(s));
      free := Insert(s.free, address);
      buffersUsed := buffersUsed - 1;
    }

    /** The pointer work of `Deallocate`: links the operand cell into the sorted free chain. */
    method InsertCell(operandCell: nat, ghost c: seq<nat>)
      requires Chain(mem.words, nextFree, c) && Sorted(c) && operandCell != 0
      modifies this`nextFree, mem
      ensures mem.words == Linked(old(mem.words), c, operandCell)
      ensures nextFree == At(Insert(c, operandCell), 0)
    {
      if nextFree == 0 {
        nextFree := operandCell;
        mem.Write(nextFree, 0);
        return;
      }
      var prevCell, currentCell := 0, nextFree;
      ghost var j := 0;
      while operandCell > currentCell
        invariant j < |c| && currentCell == c[j] && prevCell == if j == 0 then 0 else c[j - 1]
        invariant j > 0 ==> c[j - 1] < operandCell && c[j - 1] in c
        decreases |c| - j
      {
        assert c[j] in c;
        assert Load(mem.words, c[j]) == At(c, j + 1);
        prevCell := currentCell;
        currentCell := mem.Read(currentCell);
        j := j + 1;
        if currentCell == 0 { break; }
      }
      RankIs(c, operandCell, j);
      if prevCell == 0 {
        mem.Write(operandCell, currentCell);
        nextFree := operandCell;
      } else {
        mem.Write(prevCell, operandCell);
        mem.Write(operandCell, currentCell);
      }
    }

    // -------------------------------------------------------------- the ring

    /** `this` is the head of the ring `r`: `src` joins it as the last element.  A descriptor of another
        buffer size, or the head itself, is ignored. */
    method AddList(src: ListDescriptor, ghost r: seq<ListDescriptor>)
      requires IsRing(r) && r != [] && r[0] == this
      requires src == this || src !in r
      modifies r`nextList, r`prevList, src`nextList, src`prevList
      ensures IsRing(if src.bufferSize == bufferSize && src != this then r + [src] else r)
      ensures src.bufferSize != bufferSize ==> Kept(src)
    {
      if src.bufferSize != bufferSize {
        return;
      }
      if this == src {
        return;
      } else if this == prevList && this == nextList {
        nextList := src;
        prevList := src;
        src.prevList := this;
        src.nextList := this;
      } else {
        src.nextList := this;
        src.prevList := prevList;
        prevList.nextList := src;
        prevList := src;
      }
    }

    /** Unlinks a member of the ring headed by `this`; the head itself is not removed. */
    method Remove(entry: ListDescriptor, ghost r: seq<ListDescriptor>, ghost i: nat)
      requires IsRing(r) && r != [] && r[0] == this
      requires i < |r| && r[i] == entry
      modifies r`nextList, r`prevList
      ensures IsRing(if i == 0 then r else Dropped(r, i))
      ensures Kept(entry)
    {
      if this == entry {
        return;
      }
      if prevList == entry && nextList == entry {
        nextList := this;
        prevList := this;
        return;
      }
      Bypass(entry, r, i);
    }

    /** The unlinking step for rings of three or more. */
    static method Bypass(entry: ListDescriptor, ghost r: seq<ListDescriptor>, ghost i: nat)
      requires IsRing(r) && 0 < i < |r| && r[i] == entry
      modifies r`nextList, r`prevList
      ensures IsRing(Dropped(r, i)) && Kept(entry)
    {
      ghost var n := |r|;
      assert entry.prevList == r[Pred(i, n)] && entry.nextList == r[Succ(i, n)];
      entry.prevList.nextList := entry.nextList;
      entry.nextList.prevList := entry.prevList;
      hide Dropped;
      ghost var d := Dropped(r, i);
      DroppedDistinct(r, i);
      forall k {:trigger d[k].nextList} | 0 <= k < |d| ensures d[k].nextList == d[Succ(k, |d|)] {
        var j := DroppedNeighbours(r, i, k);
        assert old(r[j].nextList) == r[Succ(j, |r|)];
      }
      forall k {:trigger d[k].prevList} | 0 <= k < |d| ensures d[k].prevList == d[Pred(k, |d|)] {
        var j := DroppedNeighbours(r, i, k);
        assert old(r[j].prevList) == r[Pred(j, |r|)];
      }
    }

    method Extract(entry: ListDescriptor, ghost r: seq<ListDescriptor>, ghost i: nat) returns (e: ListDescriptor?)
      requires IsRing(r) && r != [] && r[0] == this
      requires i < |r| && r[i] == entry
      modifies r`nextList, r`prevList
      ensures IsRing(if i == 0 then r else Dropped(r, i))
      ensures Kept(entry)
      ensures e == if i == 0 then null else entry
    {
      if this == entry {
        return null;
      }
      Remove(entry, r, i);
      return entry;
    }

    /** The head leaves its ring: its successor heads what is left, and it is a ring of its own. */
    method ExtractSelf(ghost r: seq<ListDescriptor>) returns (self: ListDescriptor)
      requires IsRing(r) && r != [] && r[0] == this
      modifies r`nextList, r`prevList
      ensures self == this && IsRing([this])
      ensures IsRing(if |r| == 1 then r else r[1..])
    {
      if nextList == this && prevList == this {
        return this;
      } else if nextList == prevList {
        var newHead := nextList;
        newHead.nextList := newHead;
        newHead.prevList := newHead;
      } else {
        var newHead := nextList;
        prevList.nextList := newHead;
        newHead.prevList := prevList;
      }
      nextList := this;
      prevList := this;
      return this;
    }
  }

  function Succ(i: nat, n: nat): nat { if i + 1 < n then i + 1 else 0 }

  function Pred(i: nat, n: nat): nat { if i == 0 then if n == 0 then 0 else n - 1 else i - 1 }

  /** The descriptors of `r` are linked in a circle, in this order. */
  ghost predicate IsRing(r: seq<ListDescriptor>)
    reads r`nextList, r`prevList
  {
    && Distinct(r)
    && (forall i {:trigger r[i].nextList} :: 0 <= i < |r| ==> r[i].nextList == r[Succ(i, |r|)])
    && (forall i {:trigger r[i].prevList} :: 0 <= i < |r| ==> r[i].prevList == r[Pred(i, |r|)])
  }

  lemma DroppedDistinct<T>(r: seq<T>, i: nat)
    requires Distinct(r) && i < |r|
    ensures |Dropped(r, i)| == |r| - 1 && Distinct(Dropped(r, i))
  {
  }

  /** In a circle without its element `i`, the neighbours of `i` close up and all others stay. */
  lemma DroppedNeighbours<T>(r: seq<T>, i: nat, k: nat) returns (j: nat)
    requires 0 < i < |r| && k < |r| - 1
    ensures j < |r| && j != i && Dropped(r, i)[k] == r[j]
    ensures Dropped(r, i)[Succ(k, |r| - 1)] == r[if Succ(j, |r|) == i then Succ(i, |r|) else Succ(j, |r|)]
    ensures Dropped(r, i)[Pred(k, |r| - 1)] == r[if Pred(j, |r|) == i then Pred(i, |r|) else Pred(j, |r|)]
  {
    j := if k < i then k else k + 1;
  }

  function HeadOf(r: seq<ListDescriptor>): ListDescriptor? {
    if r == [] then null else r[0]
  }

  /** The links of `x` are as before. */
  twostate predicate Kept(x: ListDescriptor)
    reads x`nextList, x`prevList
  {
    x.nextList == old(x.nextList) && x.prevList == old(x.prevList)
  }

  /** A ring none of whose links changed is still a ring. */
  twostate lemma RingKept(r: seq<ListDescriptor>)
    requires old(IsRing(r))
    requires forall x :: x in r ==> Kept(x)
    ensures IsRing(r)
  {
    forall i {:trigger r[i].nextList} | 0 <= i < |r| ensures r[i].nextList == r[Succ(i, |r|)] {
      assert Kept(r[i]);
      assert old(r[i].nextList) == r[Succ(i, |r|)];
    }
    forall i {:trigger r[i].prevList} | 0 <= i < |r| ensures r[i].prevList == r[Pred(i, |r|)] {
      assert Kept(r[i]);
      assert old(r[i].prevList) == r[Pred(i, |r|)];
    }
  }

  /** A list head of a buffer, and the ring it heads.  `all` bounds the descriptors a caller keeps track of. */
  class Ring {
    var head: ListDescriptor?
    ghost var list: seq<ListDescriptor>

    constructor ()
      ensures Valid() && list == []
    {
      head, list := null, [];
    }

    ghost predicate Valid()
      reads this, list`nextList, list`prevList
    {
      IsRing(list) && head == HeadOf(list)
    }

    /** `x` heads no ring of others: it may be added, also when it is this ring's head about to be replaced. */
    ghost predicate MayTake(x: ListDescriptor)
      reads this, x`nextList, x`prevList
    {
      head == HeadOf(list) || (head == x && IsRing([x]))
    }

    /** `TryAddFreeList`, `TryAddPartialList` and `TryAddFullList`.  A descriptor that `head` still points to
        is not added. */
    method Add(x: ListDescriptor, ghost all: set<ListDescriptor>)
      requires IsRing(list) && MayTake(x) && x !in list
      requires forall y :: y in list ==> y.bufferSize == x.bufferSize
      modifies this, list`nextList, list`prevList, x`nextList, x`prevList
      ensures IsRing(list)
      ensures if old(head) == x then list == old(list) && head == x && Kept(x)
              else list == old(list) + [x] && head == list[0]
      ensures forall y :: y in all && y !in old(list) && y != x ==> Kept(y)
    {
      if head == null {
        head := x;
        x.nextList := x;
        x.prevList := x;
        list := [x];
      } else if head == x {
        SelfLinked(x);
        x.AddList(x, [x]);
        SelfLinked(x);
        RingKept(list);
      } else {
        head.AddList(x, list);
        list := list + [x];
      }
    }

    /** Takes the head out of the ring: `MoveFreeHead`, `MovePartialHead` and `MoveFullHead` up to where the
        head is placed.  `head` still points to it. */
    method DetachHead(ghost all: set<ListDescriptor>) returns (x: ListDescriptor, next: ListDescriptor?)
      requires Valid() && list != []
      modifies this`list, list`nextList, list`prevList
      ensures IsRing(list) && IsRing([x])
      ensures x == head == old(list)[0] && list == old(list)[1..] && next == HeadOf(list)
      ensures forall y :: y in all && y !in old(list) ==> Kept(y)
    {
      assert list[0].nextList == list[Succ(0, |list|)];
      if head.nextList == head {
        x, next := head, null;
      } else {
        next := head.nextList;
        x := head.ExtractSelf(list);
      }
      list := list[1..];
    }

    /** Takes another entry out of the ring: the same for `MovePartialEntry` and `MoveFullEntry`. */
    method DetachEntry(entry: ListDescriptor, ghost i: nat, ghost all: set<ListDescriptor>)
      requires Valid() && 0 < i < |list| && list[i] == entry
      modifies this`list, list`nextList, list`prevList
      ensures Valid() && list == Dropped(old(list), i)
      ensures forall y :: y in all && y !in old(list) ==> Kept(y)
    {
      var _ := head.Extract(entry, list, i);
      list := Dropped(list, i);
    }
  }

  /** A ring of one is linked to itself. */
  lemma SelfLinked(x: ListDescriptor)
    requires IsRing([x])
    ensures x.nextList == x && x.prevList == x
  {
    assert [x][0].nextList == [x][Succ(0, 1)] && [x][0].prevList == [x][Pred(0, 1)];
  }
}
