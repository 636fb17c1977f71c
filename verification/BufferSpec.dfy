/** A buffer of equally sized slabs, as a value: which slabs there are, and which ring each one is in. */
module BufferSpec {
  import opened WordMemory
  import opened Chains
  import opened Options
  import opened Sequences
  import opened SlabSpec

  /** The three rings. */
  datatype Kind = Free | Partial | Full

  function KindOf(s: Slab): Kind {
    if s.used == s.total then Full else if s.used == 0 then Free else Partial
  }

  /** `slabs` maps the base address of each slab to the slab; a ring lists base addresses. */
  datatype Buffer = Buffer(slabs: map<nat, Slab>, rings: map<Kind, seq<nat>>)

  ghost predicate Apart(s: Slab, t: Slab) {
    s.Limit() <= t.base || t.Limit() <= s.base
  }

  /** Slabs are sound and occupy disjoint regions. */
  ghost predicate SlabsInv(slabs: map<nat, Slab>) {
    && (forall x :: x in slabs ==> slabs[x].base == x && SlabInv(slabs[x]) && LinksFit(slabs[x]))
    && (forall x, y :: x in slabs && y in slabs && x != y ==> Apart(slabs[x], slabs[y]))
  }

  ghost predicate AllRings<T>(rings: map<Kind, seq<T>>) {
    forall k: Kind :: k in rings
  }

  /** Each ring lists exactly the slabs of its kind, once. */
  ghost predicate RingsExact(b: Buffer) {
    && AllRings(b.rings)
    && (forall k: Kind :: Distinct(b.rings[k]))
    && (forall k: Kind, x :: x in b.rings[k] <==> x in b.slabs && KindOf(b.slabs[x]) == k)
  }

  ghost predicate BufferInv(b: Buffer) {
    SlabsInv(b.slabs) && RingsExact(b)
  }

  /** Addresses of all objects in use. */
  ghost function Objects(b: Buffer): set<nat> {
    set x, a | x in b.slabs && a in Live(b.slabs[x]) :: a
  }

  /** Addresses of all whole slots, in use or not. */
  ghost function AllSlots(b: Buffer): set<nat> {
    set x, a | x in b.slabs && a in Slots(b.slabs[x]) :: a
  }

  // ---------------------------------------------------------------- operations

  /** The slab at position `i` of ring `k` leaves it for the end of ring `kind`. */
  ghost function Moved<T>(rings: map<Kind, seq<T>>, k: Kind, i: nat, kind: Kind): map<Kind, seq<T>>
    requires AllRings(rings) && i < |rings[k]|
  {
    var rest := rings[k := Dropped(rings[k], i)];
    rest[kind := rest[kind] + [rings[k][i]]]
  }

  /** What the `Move` methods do: the slab at position `i` of ring `k` joins the ring of its kind, as its last
      element.  If that is ring `k` itself and the slab was the head, it is lost. */
  ghost function Relocated<T>(rings: map<Kind, seq<T>>, k: Kind, i: nat, kind: Kind): map<Kind, seq<T>>
    requires AllRings(rings) && i < |rings[k]|
  {
    if i == 0 && kind == k then rings[k := Dropped(rings[k], 0)] else Moved(rings, k, i, kind)
  }

  /** Slab `i` of ring `k` becomes `s`, and moves if that changes its kind. */
  ghost function Settled(b: Buffer, k: Kind, i: nat, s: Slab): Buffer
    requires AllRings(b.rings) && i < |b.rings[k]|
  {
    var b' := b.(slabs := b.slabs[b.rings[k][i] := s]);
    if KindOf(s) == k then b' else b'.(rings := Moved(b.rings, k, i, KindOf(s)))
  }

  ghost function AddList(b: Buffer, s: Slab): Buffer
    requires AllRings(b.rings)
  {
    Buffer(b.slabs[s.base := s], b.rings[KindOf(s) := b.rings[KindOf(s)] + [s.base]])
  }

  /** Allocation from the head of ring `k`. */
  ghost function Serve(b: Buffer, k: Kind): (Buffer, nat)
    requires BufferInv(b) && b.rings[k] != []
  {
    var x := b.rings[k][0];
    assert x in b.rings[k];
    var (s, r) := SlabSpec.Allocate(b.slabs[x]);
    (Settled(b, k, 0, s), r)
  }

  ghost function Allocate(b: Buffer): (Buffer, nat)
    requires BufferInv(b)
  {
    if b.rings[Partial] != [] then Serve(b, Partial)
    else if b.rings[Free] != [] then Serve(b, Free)
    else (b, 0)
  }

  /** The first slab of a ring, from position `i` on, whose region contains `a`. */
  ghost function Find(slabs: map<nat, Slab>, ring: seq<nat>, a: nat, i: nat): (r: Option<nat>)
    requires i <= |ring| && forall x :: x in ring ==> x in slabs
    ensures r.Some? ==> i <= r.value < |ring| && slabs[ring[r.value]].InRange(a)
    ensures r.Some? ==> forall j :: i <= j < r.value ==> !slabs[ring[j]].InRange(a)
    ensures r.None? ==> forall j :: i <= j < |ring| ==> !slabs[ring[j]].InRange(a)
    decreases |ring| - i
  {
    if i == |ring| then None
    else if slabs[ring[i]].InRange(a) then Some(i)
    else Find(slabs, ring, a, i + 1)
  }

  ghost function DeallocateIn(b: Buffer, k: Kind, i: nat, a: nat): Buffer
    requires BufferInv(b) && i < |b.rings[k]|
  {
    assert b.rings[k][i] in b.rings[k];
    Settled(b, k, i, SlabSpec.Deallocate(b.slabs[b.rings[k][i]], a))
  }

  ghost function Deallocate(b: Buffer, a: nat): Buffer
    requires BufferInv(b)
  {
    match Find(b.slabs, b.rings[Partial], a, 0)
    case Some(i) => DeallocateIn(b, Partial, i, a)
    case None =>
      match Find(b.slabs, b.rings[Full], a, 0)
      case Some(i) => DeallocateIn(b, Full, i, a)
      case None => b
  }

  /** An address inside a slab that has objects in use must be one of them. */
  ghost predicate MayFree(b: Buffer, a: nat) {
    forall x :: x in b.slabs ==> SlabSpec.MayFree(b.slabs[x], a)
  }

  /** A slab can join if it is sound and its region is new. */
  ghost predicate MayAdd(b: Buffer, s: Slab) {
    && SlabInv(s) && LinksFit(s) && s.base !in b.slabs
    && forall x :: x in b.slabs ==> Apart(b.slabs[x], s)
  }

  // ---------------------------------------------------------------- one step

  lemma MovedRings(rings: map<Kind, seq<nat>>, k: Kind, i: nat, kind: Kind)
    requires AllRings(rings) && i < |rings[k]|
    requires Distinct(rings[k]) && Distinct(rings[kind]) && (kind != k ==> rings[k][i] !in rings[kind])
    ensures var m, x := Moved(rings, k, i, kind), rings[k][i];
            && AllRings(m)
            && (forall j: Kind :: j != k && j != kind ==> m[j] == rings[j])
            && Distinct(m[k]) && Distinct(m[kind])
            && (forall y :: y in m[kind] <==> y in rings[kind] || y == x)
            && (kind != k ==> forall y :: y in m[k] <==> y in rings[k] && y != x)
  {
    var r := rings[k];
    assert r == r[..i] + [r[i]] + r[i + 1..];
  }

  lemma SlabsUpdated(slabs: map<nat, Slab>, s: Slab)
    requires SlabsInv(slabs) && SlabInv(s) && s.base in slabs
    requires s.pages == slabs[s.base].pages && s.bufferSize == slabs[s.base].bufferSize
    ensures SlabsInv(slabs[s.base := s])
  {
  }

  lemma RingsSettled(b: Buffer, k: Kind, i: nat, s: Slab)
    requires RingsExact(b) && i < |b.rings[k]| && s.base == b.rings[k][i]
    ensures RingsExact(Settled(b, k, i, s))
    ensures forall j: Kind :: j != k && j != KindOf(s) ==> Settled(b, k, i, s).rings[j] == b.rings[j]
  {
    hide SlabInv, KindOf, Moved, Dropped;
    assert s.base in b.rings[k];
    assert KindOf(b.slabs[s.base]) == k;
    if KindOf(s) != k {
      assert s.base !in b.rings[KindOf(s)];
      MovedRings(b.rings, k, i, KindOf(s));
    }
  }

  /** Updating a slab, and moving it to the ring of its kind, keeps the rings exact. */
  lemma SettledInv(b: Buffer, k: Kind, i: nat, s: Slab)
    requires BufferInv(b) && i < |b.rings[k]|
    requires SlabInv(s) && s.base == b.rings[k][i]
    requires s.base in b.slabs && s.pages == b.slabs[s.base].pages && s.bufferSize == b.slabs[s.base].bufferSize
    ensures BufferInv(Settled(b, k, i, s))
    ensures forall j: Kind :: j != k && j != KindOf(s) ==> Settled(b, k, i, s).rings[j] == b.rings[j]
    ensures Objects(b) == ObjectsOutside(b, s.base) + Live(b.slabs[s.base])
    ensures Objects(Settled(b, k, i, s)) == ObjectsOutside(b, s.base) + Live(s)
  {
    SlabsUpdated(b.slabs, s);
    RingsSettled(b, k, i, s);
    ReplacedObjects(b, s.base, s, Settled(b, k, i, s));
  }

  lemma FullSlab(s: Slab)
    requires SlabInv(s) && s.used == s.total
    ensures Live(s) == Elements(Slots(s))
  {
    assert s.free == [];
  }

  lemma FreeSlot(b: Buffer, x: nat) returns (a: nat)
    requires BufferInv(b) && x in b.slabs && b.slabs[x].used != b.slabs[x].total
    ensures a in AllSlots(b) && a !in Objects(b)
  {
    a := b.slabs[x].free[0];
    assert a in b.slabs[x].free && a in Slots(b.slabs[x]);
    hide RingsExact, Slots, Geometry;
    SlotInside(b.slabs[x], a);
    OutsideMisses(b, x, a);
    ReplacedObjects(b, x, b.slabs[x], b);
  }

  /** Every slab is full exactly when every slot is in use. */
  lemma FullIff(b: Buffer)
    requires BufferInv(b)
    ensures (forall x :: x in b.slabs ==> b.slabs[x].used == b.slabs[x].total) <==> Objects(b) == AllSlots(b)
  {
    if x :| x in b.slabs && b.slabs[x].used != b.slabs[x].total {
      var a := FreeSlot(b, x);
    } else {
      forall x | x in b.slabs ensures Live(b.slabs[x]) == Elements(Slots(b.slabs[x])) {
        FullSlab(b.slabs[x]);
      }
      hide BufferInv, Live, Slots;
      assert forall x, a :: x in b.slabs ==> (a in Live(b.slabs[x]) <==> a in Slots(b.slabs[x]));
    }
  }

  /** `Allocate` fails exactly when every slab is full; otherwise the object is new, and the only change. */
  lemma AllocateServes(b: Buffer)
    requires BufferInv(b)
    ensures var (b', r) := Allocate(b);
            && BufferInv(b')
            && (r == 0 <==> forall x :: x in b.slabs ==> b.slabs[x].used == b.slabs[x].total)
            && (r == 0 ==> b' == b)
            && (r != 0 ==> r !in Objects(b) && Objects(b') == Objects(b) + {r})
            && (b.rings[Partial] != [] ==> r != 0 && b'.rings[Free] == b.rings[Free])
  {
    if b.rings[Partial] != [] {
      ServeOne(b, Partial);
    } else if b.rings[Free] != [] {
      ServeOne(b, Free);
    } else {
      forall x | x in b.slabs ensures b.slabs[x].used == b.slabs[x].total {
        assert x in b.rings[KindOf(b.slabs[x])];
      }
    }
  }

  lemma ServeOne(b: Buffer, k: Kind)
    requires BufferInv(b) && b.rings[k] != [] && k != Full
    ensures var (b', r) := Serve(b, k);
            && BufferInv(b')
            && r != 0 && r !in Objects(b) && Objects(b') == Objects(b) + {r}
            && b.rings[k][0] in b.slabs && b.slabs[b.rings[k][0]].used < b.slabs[b.rings[k][0]].total
            && (k == Partial ==> b'.rings[Free] == b.rings[Free])
  {
    var x := b.rings[k][0];
    assert x in b.rings[k];
    var (s, r) := SlabSpec.Allocate(b.slabs[x]);
    AllocateLowest(b.slabs[x]);
    hide Geometry, Live, Slots, Distinct, Settled;
    SettledInv(b, k, 0, s);
    assert KindOf(s) != Free;
    SlotInside(b.slabs[x], r);
    OutsideMisses(b, x, r);
  }

  ghost function ObjectsOutside(b: Buffer, x: nat): set<nat> {
    set y, a | y in b.slabs && y != x && a in Live(b.slabs[y]) :: a
  }

  /** Objects after one slab changed. */
  lemma ReplacedObjects(b: Buffer, x: nat, s: Slab, b': Buffer)
    requires x in b.slabs && b'.slabs == b.slabs[x := s]
    ensures Objects(b) == ObjectsOutside(b, x) + Live(b.slabs[x])
    ensures Objects(b') == ObjectsOutside(b, x) + Live(s)
  {
    forall a ensures a in Objects(b') <==> a in ObjectsOutside(b, x) || a in Live(s) {
      if a in Live(s) { assert a in Live(b'.slabs[x]); }
      if y :| y in b.slabs && y != x && a in Live(b.slabs[y]) { assert a in Live(b'.slabs[y]); }
    }
  }

  /** No object of another slab lies in the region of slab `x`. */
  lemma OutsideMisses(b: Buffer, x: nat, a: nat)
    requires SlabsInv(b.slabs) && x in b.slabs && b.slabs[x].InRange(a)
    ensures a !in ObjectsOutside(b, x)
  {
    forall y | y in b.slabs && y != x ensures a !in Live(b.slabs[y]) {
      if a in Live(b.slabs[y]) {
        SlotInside(b.slabs[y], a);
      }
    }
  }

  /** `Deallocate` removes exactly the object it is given. */
  lemma DeallocateRemoves(b: Buffer, a: nat)
    requires BufferInv(b) && MayFree(b, a)
    ensures BufferInv(Deallocate(b, a))
    ensures Objects(Deallocate(b, a)) == Objects(b) - {a}
  {
    var partial, full := Find(b.slabs, b.rings[Partial], a, 0), Find(b.slabs, b.rings[Full], a, 0);
    if partial.Some? {
      DeallocateOne(b, Partial, partial.value, a);
    } else if full.Some? {
      DeallocateOne(b, Full, full.value, a);
    } else {
      forall x | x in b.slabs ensures a !in Live(b.slabs[x]) {
        var k := KindOf(b.slabs[x]);
        assert x in b.rings[k];
        LiveCount(b.slabs[x]);
        if a in Live(b.slabs[x]) {
          SlotInside(b.slabs[x], a);
        }
      }
    }
  }

  lemma SlabAfterFree(s: Slab, a: nat)
    requires SlabInv(s) && s.InRange(a) && SlabSpec.MayFree(s, a)
    ensures var s' := SlabSpec.Deallocate(s, a);
            && SlabInv(s') && Live(s') == Live(s) - {a}
            && s'.base == s.base && s'.pages == s.pages && s'.bufferSize == s.bufferSize
  {
    LiveCount(s);
    if s.used > 0 { DeallocateReturns(s, a); }
  }

  lemma DeallocateOne(b: Buffer, k: Kind, i: nat, a: nat)
    requires BufferInv(b) && MayFree(b, a)
    requires i < |b.rings[k]| && b.rings[k][i] in b.slabs && b.slabs[b.rings[k][i]].InRange(a)
    ensures BufferInv(DeallocateIn(b, k, i, a))
    ensures Objects(DeallocateIn(b, k, i, a)) == Objects(b) - {a}
  {
    var x := b.rings[k][i];
    SlabAfterFree(b.slabs[x], a);
    SettledInv(b, k, i, SlabSpec.Deallocate(b.slabs[x], a));
    OutsideMisses(b, x, a);
  }

  /** A partial slab changes its kind when a free empties it, a full one when it has space again. */
  lemma KindAfterFree(b: Buffer, k: Kind, i: nat, a: nat)
    requires BufferInv(b) && k != Free
    requires i < |b.rings[k]| && b.rings[k][i] in b.slabs && b.slabs[b.rings[k][i]].InRange(a)
    ensures var s := SlabSpec.Deallocate(b.slabs[b.rings[k][i]], a);
            KindOf(s) != k <==> if k == Partial then s.used == 0 else s.used != s.total
  {
    assert b.rings[k][i] in b.rings[k];
    assert KindOf(b.slabs[b.rings[k][i]]) == k;
  }

  lemma MisfreeIn(b: Buffer, k: Kind, i: nat, a: nat, y: nat)
    requires BufferInv(b) && y in b.slabs && !SlabSpec.MayFree(b.slabs[y], a)
    requires i < |b.rings[k]| && b.rings[k][i] in b.slabs && b.slabs[b.rings[k][i]].InRange(a)
    ensures !BufferInv(DeallocateIn(b, k, i, a))
  {
    var x := b.rings[k][i];
    assert x == y by {
      assert x != y ==> Apart(b.slabs[x], b.slabs[y]);
    }
    MisfreeUnsound(b.slabs[x], a);
    hide RingsExact;
    assert DeallocateIn(b, k, i, a).slabs[x] == SlabSpec.Deallocate(b.slabs[x], a);
  }

  /** A free in slab `i` of ring `k`, where the address lies, keeps the buffer sound exactly if it is allowed. */
  lemma DeallocateInIff(b: Buffer, k: Kind, i: nat, a: nat)
    requires BufferInv(b)
    requires i < |b.rings[k]| && b.rings[k][i] in b.slabs && b.slabs[b.rings[k][i]].InRange(a)
    ensures BufferInv(DeallocateIn(b, k, i, a)) <==> MayFree(b, a)
  {
    hide BufferInv, DeallocateIn, SlabSpec.MayFree;
    if MayFree(b, a) {
      DeallocateOne(b, k, i, a);
    } else {
      var y :| y in b.slabs && !SlabSpec.MayFree(b.slabs[y], a);
      MisfreeIn(b, k, i, a, y);
    }
  }

  /** `Deallocate` keeps the buffer sound if and only if the address is in no slab that has objects, or is that
      of an object. */
  lemma DeallocateIff(b: Buffer, a: nat)
    requires BufferInv(b)
    ensures BufferInv(Deallocate(b, a)) <==> MayFree(b, a)
  {
    var partial, full := Find(b.slabs, b.rings[Partial], a, 0), Find(b.slabs, b.rings[Full], a, 0);
    if partial.Some? {
      DeallocateInIff(b, Partial, partial.value, a);
    } else if full.Some? {
      DeallocateInIff(b, Full, full.value, a);
    } else {
      forall x | x in b.slabs ensures SlabSpec.MayFree(b.slabs[x], a) {
        assert x in b.rings[KindOf(b.slabs[x])];
      }
    }
  }

  lemma JoinedRings(b: Buffer, s: Slab)
    requires RingsExact(b) && s.base !in b.slabs
    ensures RingsExact(AddList(b, s))
  {
    assert s.base !in b.rings[KindOf(s)];
  }

  lemma JoinedSlabs(slabs: map<nat, Slab>, s: Slab)
    requires SlabsInv(slabs) && SlabInv(s) && LinksFit(s) && s.base !in slabs
    requires forall x :: x in slabs ==> Apart(slabs[x], s)
    ensures SlabsInv(slabs[s.base := s])
  {
    hide SlabInv, LinksFit;
  }

  lemma JoinedObjects(b: Buffer, s: Slab)
    requires AllRings(b.rings) && s.base !in b.slabs
    ensures Objects(AddList(b, s)) == Objects(b) + Live(s)
  {
    hide Live, KindOf;
    var b' := AddList(b, s);
    forall a ensures a in Objects(b') <==> a in Objects(b) || a in Live(s) {
      if a in Live(s) { assert a in Live(b'.slabs[s.base]); }
      if y :| y in b.slabs && a in Live(b.slabs[y]) { assert a in Live(b'.slabs[y]); }
    }
  }

  /** A new slab brings its own objects and no others. */
  lemma AddListJoins(b: Buffer, s: Slab)
    requires BufferInv(b) && MayAdd(b, s)
    ensures BufferInv(AddList(b, s))
    ensures Objects(AddList(b, s)) == Objects(b) + Live(s)
  {
    hide SlabInv, LinksFit, Live;
    JoinedSlabs(b.slabs, s);
    JoinedRings(b, s);
    JoinedObjects(b, s);
  }

  // ---------------------------------------------------------------- which slab, and where it goes

  /** The rings are told apart by how many slots are in use. */
  lemma RingMembers(b: Buffer, x: nat)
    requires BufferInv(b)
    ensures x in b.rings[Free] <==> x in b.slabs && b.slabs[x].used == 0 < b.slabs[x].total
    ensures x in b.rings[Partial] <==> x in b.slabs && 0 < b.slabs[x].used < b.slabs[x].total
    ensures x in b.rings[Full] <==> x in b.slabs && b.slabs[x].used == b.slabs[x].total
  {
    if x in b.slabs {
      assert KindOf(b.slabs[x]) in [Free, Partial, Full];
      assert x in b.rings[KindOf(b.slabs[x])];
    }
  }

  /** Slab `x` is the only one that changes, and now has the objects `live`. */
  ghost predicate OnlySlab(b: Buffer, b': Buffer, x: nat, live: set<nat>) {
    && x in b.slabs && b'.slabs.Keys == b.slabs.Keys && Live(b'.slabs[x]) == live
    && forall y :: y in b.slabs && y != x ==> b'.slabs[y] == b.slabs[y]
  }

  /** Entry `i` of ring `k` has left it, the order of the others kept, and is now the last of ring `to`; the third
      ring is as before. */
  ghost predicate Migrated(b: Buffer, b': Buffer, k: Kind, i: nat, to: Kind)
    requires AllRings(b.rings) && AllRings(b'.rings) && i < |b.rings[k]|
  {
    && b'.rings[k] == b.rings[k][..i] + b.rings[k][i + 1..]
    && b'.rings[to] == b.rings[to] + [b.rings[k][i]]
    && forall j: Kind :: j != k && j != to ==> b'.rings[j] == b.rings[j]
  }

  /** `r` is the lowest slot of the slab that is not in use. */
  ghost predicate LowestUnused(s: Slab, r: nat) {
    && r in Slots(s) && r !in Live(s)
    && forall a :: a in Slots(s) && a < r ==> a in Live(s)
  }

  /** Allocation takes the lowest unused slot of the head of the partial ring, or else the first slot of the head
      of the free ring, or else fails.  No other slab changes.  The head moves on when it fills up, and from the
      free ring always. */
  lemma AllocateExact(b: Buffer)
    requires BufferInv(b)
    ensures var (b', r) := Allocate(b);
            && AllRings(b'.rings)
            && if b.rings[Partial] != [] then
                 var x := b.rings[Partial][0];
                 && OnlySlab(b, b', x, Live(b.slabs[x]) + {r}) && LowestUnused(b.slabs[x], r)
                 && (if b.slabs[x].used + 1 == b.slabs[x].total then Migrated(b, b', Partial, 0, Full)
                     else b'.rings == b.rings)
               else if b.rings[Free] != [] then
                 var x := b.rings[Free][0];
                 && OnlySlab(b, b', x, {r}) && r == x
                 && Migrated(b, b', Free, 0, if b.slabs[x].total == 1 then Full else Partial)
               else
                 r == 0 && b' == b
  {
    hide SlabsInv, Migrated, LowestUnused, Serve, Live;
    if b.rings[Partial] != [] {
      ServeExact(b, Partial);
    } else if b.rings[Free] != [] {
      ServeExact(b, Free);
      FirstSlot(b, Serve(b, Free).1);
    }
  }

  /** The head of the free ring has no object, and its lowest unused slot is at its base. */
  lemma FirstSlot(b: Buffer, r: nat)
    requires BufferInv(b) && b.rings[Free] != []
    ensures var x := b.rings[Free][0];
            && x in b.slabs && Live(b.slabs[x]) == {} && b.slabs[x].used == 0
            && (LowestUnused(b.slabs[x], r) ==> r == x)
  {
    var x := b.rings[Free][0];
    assert x in b.rings[Free];
    RingMembers(b, x);
    var s := b.slabs[x];
    LiveCount(s);
    assert Live(s) == {};
    if LowestUnused(s, r) {
      SlotInside(s, r);
      assert Slots(s)[0] == x && x in Slots(s);
    }
  }

  lemma SettledExact(b: Buffer, k: Kind, i: nat, s: Slab)
    requires AllRings(b.rings) && i < |b.rings[k]| && b.rings[k][i] in b.slabs
    ensures var b', x := Settled(b, k, i, s), b.rings[k][i];
            && AllRings(b'.rings)
            && OnlySlab(b, b', x, Live(s))
            && if KindOf(s) == k then b'.rings == b.rings else Migrated(b, b', k, i, KindOf(s))
  {
    hide Live, KindOf;
    assert Dropped(b.rings[k], i) == b.rings[k][..i] + b.rings[k][i + 1..];
  }

  lemma ServeExact(b: Buffer, k: Kind)
    requires BufferInv(b) && b.rings[k] != [] && k != Full
    ensures var (b', r) := Serve(b, k);
            var x := b.rings[k][0];
            && AllRings(b'.rings)
            && OnlySlab(b, b', x, Live(b.slabs[x]) + {r}) && LowestUnused(b.slabs[x], r)
            && var filled := b.slabs[x].used + 1 == b.slabs[x].total;
            if k == Partial && !filled then b'.rings == b.rings
            else Migrated(b, b', k, 0, if filled then Full else Partial)
  {
    var x := b.rings[k][0];
    assert x in b.rings[k];
    assert KindOf(b.slabs[x]) == k;
    AllocateLowest(b.slabs[x]);
    SettledExact(b, k, 0, SlabSpec.Allocate(b.slabs[x]).0);
    hide Live, Slots, SlabInv, RingsExact, SlabsInv, Settled, OnlySlab, Migrated;
  }

  /** What freeing object `a` of slab `x`, at position `i` of ring `k`, does: no other slab changes, and the slab
      moves if a partial one is now empty, or a full one has space again. */
  ghost predicate FreedAt(b: Buffer, b': Buffer, a: nat, x: nat, k: Kind, i: nat)
    requires AllRings(b.rings) && AllRings(b'.rings) && x in b.slabs
  {
    var s := b.slabs[x];
    && k == (if s.used == s.total then Full else Partial)
    && i < |b.rings[k]| && b.rings[k][i] == x
    && OnlySlab(b, b', x, Live(s) - {a})
    && if k == Partial && s.used > 1 then b'.rings == b.rings
       else Migrated(b, b', k, i, if s.used == 1 then Free else Partial)
  }

  /** Deallocation of an object frees it in the slab it lies in. */
  lemma DeallocateExact(b: Buffer, a: nat, x: nat)
    requires BufferInv(b) && x in b.slabs && a in Live(b.slabs[x])
    ensures AllRings(Deallocate(b, a).rings)
    ensures exists k: Kind, i: nat :: FreedAt(b, Deallocate(b, a), a, x, k, i)
  {
    SlotInside(b.slabs[x], a);
    InOneSlab(b, a, x);
    var partial, full := Find(b.slabs, b.rings[Partial], a, 0), Find(b.slabs, b.rings[Full], a, 0);
    FoundIs(b, Partial, a, x);
    FoundIs(b, Full, a, x);
    RingMembers(b, x);
    LiveCount(b.slabs[x]);
    assert partial.Some? || full.Some?;
    hide Live, Slots, SlabInv, SlabsInv, FreedAt, DeallocateIn, Find, RingsExact;
    if partial.Some? {
      DeallocateInExact(b, Partial, partial.value, a);
      assert FreedAt(b, Deallocate(b, a), a, x, Partial, partial.value);
    } else {
      DeallocateInExact(b, Full, full.value, a);
      assert FreedAt(b, Deallocate(b, a), a, x, Full, full.value);
    }
  }

  /** The search of ring `k` finds slab `x`, in which the address lies, exactly if it is on that ring. */
  lemma FoundIs(b: Buffer, k: Kind, a: nat, x: nat)
    requires BufferInv(b) && x in b.slabs && b.slabs[x].InRange(a)
    ensures var r := Find(b.slabs, b.rings[k], a, 0);
            if x in b.rings[k] then r.Some? && b.rings[k][r.value] == x else r.None?
  {
    InOneSlab(b, a, x);
    var r := Find(b.slabs, b.rings[k], a, 0);
    if r.Some? {
      assert b.rings[k][r.value] in b.rings[k];
    }
  }

  /** An address lies in one slab at most. */
  lemma InOneSlab(b: Buffer, a: nat, x: nat)
    requires SlabsInv(b.slabs) && x in b.slabs && b.slabs[x].InRange(a)
    ensures forall y :: y in b.slabs && b.slabs[y].InRange(a) ==> y == x
  {
    forall y | y in b.slabs && b.slabs[y].InRange(a) ensures y == x {
      assert y != x ==> Apart(b.slabs[y], b.slabs[x]);
    }
  }

  lemma DeallocateInExact(b: Buffer, k: Kind, i: nat, a: nat)
    requires BufferInv(b) && i < |b.rings[k]| && k != Free
    requires var x := b.rings[k][i]; x in b.slabs && a in Live(b.slabs[x])
    ensures var b' := DeallocateIn(b, k, i, a);
            AllRings(b'.rings) && FreedAt(b, b', a, b.rings[k][i], k, i)
  {
    var x := b.rings[k][i];
    var s := b.slabs[x];
    assert x in b.rings[k];
    assert KindOf(s) == k;
    SlotInside(s, a);
    LiveCount(s);
    DeallocateReturns(s, a);
    SettledExact(b, k, i, SlabSpec.Deallocate(s, a));
    hide Live, Slots, SlabInv, RingsExact, SlabsInv, Settled, OnlySlab, Migrated;
  }

  lemma DeallocateIgnores(b: Buffer, a: nat)
    requires BufferInv(b) && MayFree(b, a) && a !in Objects(b)
    ensures Deallocate(b, a) == b
  {
    var partial, full := Find(b.slabs, b.rings[Partial], a, 0), Find(b.slabs, b.rings[Full], a, 0);
    if partial.Some? {
      FoundUnused(b, Partial, partial.value, a);
    } else if full.Some? {
      FoundUnused(b, Full, full.value, a);
    }
  }

  lemma FoundUnused(b: Buffer, k: Kind, i: nat, a: nat)
    requires BufferInv(b) && MayFree(b, a) && a !in Objects(b) && k != Free
    requires i < |b.rings[k]| && b.rings[k][i] in b.slabs && b.slabs[b.rings[k][i]].InRange(a)
    ensures DeallocateIn(b, k, i, a) == b
  {
    var x := b.rings[k][i];
    assert x in b.rings[k];
    assert KindOf(b.slabs[x]) == k;
    assert a !in Live(b.slabs[x]);
  }

  /** A slab that joins is the last of the ring of its kind. */
  lemma AddListExact(b: Buffer, s: Slab)
    requires BufferInv(b) && MayAdd(b, s)
    ensures var b' := AddList(b, s);
            && b'.slabs == b.slabs[s.base := s] && AllRings(b'.rings)
            && b'.rings[Full] == (if s.used == s.total then b.rings[Full] + [s.base] else b.rings[Full])
            && b'.rings[Free] == (if s.used == 0 < s.total then b.rings[Free] + [s.base] else b.rings[Free])
            && b'.rings[Partial] == (if 0 < s.used < s.total then b.rings[Partial] + [s.base] else b.rings[Partial])
  {
    assert s.used <= s.total;
  }

  lemma RelocatedDiffers(rings: map<Kind, seq<nat>>, k: Kind, i: nat, to: Kind)
    requires AllRings(rings) && i < |rings[k]| && to != k
    ensures Relocated(rings, k, i, to) != rings
  {
    assert |Relocated(rings, k, i, to)[k]| < |rings[k]|;
  }

  /** What a `Move` method does to the rings: an entry that stays on its ring becomes the last there, or is lost if
      it was the head. */
  lemma RelocatedIs(b: Buffer, b': Buffer, k: Kind, i: nat, to: Kind)
    requires AllRings(b.rings) && i < |b.rings[k]| && b'.rings == Relocated(b.rings, k, i, to)
    ensures AllRings(b'.rings)
    ensures to != k ==> Migrated(b, b', k, i, to)
    ensures to == k ==> forall j: Kind :: j != k ==> b'.rings[j] == b.rings[j]
    ensures to == k && i == 0 ==> b'.rings[k] == b.rings[k][1..]
    ensures to == k && i > 0 ==> b'.rings[k] == b.rings[k][..i] + b.rings[k][i + 1..] + [b.rings[k][i]]
  {
    assert b.rings[k][..0] + b.rings[k][1..] == b.rings[k][1..];
  }

  // ---------------------------------------------------------------- bytes

  /** Some slab's chain has a link in cell `c`. */
  ghost predicate IsLink(slabs: map<nat, Slab>, c: nat) {
    exists x :: x in slabs && c in Cells(slabs[x])
  }

  /** No link of any slab shares a byte with an object of any slab: operations, which write links only,
      leave objects alone, and clients writing into their objects leave the chains alone. */
  lemma LinksMissObjects(b: Buffer, c: nat, x: nat, l: nat)
    requires SlabsInv(b.slabs) && IsLink(b.slabs, c) && x in b.slabs && l in Live(b.slabs[x])
    ensures !Overlap(c, LINK_BYTES, l, b.slabs[x].bufferSize)
  {
    var y :| y in b.slabs && c in Cells(b.slabs[y]);
    if x == y {
      LinksMissLiveSlots(b.slabs[x], c, l);
    } else {
      CellsSpaced(b.slabs[y], c);
      SlotInside(b.slabs[x], l);
    }
  }

  /** No two links share a byte. */
  lemma LinksApart(b: Buffer, c: nat, d: nat)
    requires SlabsInv(b.slabs) && IsLink(b.slabs, c) && IsLink(b.slabs, d) && c != d
    ensures !Overlap(c, LINK_BYTES, d, LINK_BYTES)
  {
    var x :| x in b.slabs && c in Cells(b.slabs[x]);
    var y :| y in b.slabs && d in Cells(b.slabs[y]);
    CellsSpaced(b.slabs[x], c);
    CellsSpaced(b.slabs[y], d);
  }

  // ---------------------------------------------------------------- whole runs

  datatype Op = Join(slab: Slab) | Alloc | Dealloc(a: nat) | ClientWrite(cell: nat, value: nat)

  /** The word at `cell` lies inside object `l` of the slab at `x`. */
  ghost predicate InObject(slabs: map<nat, Slab>, x: nat, l: nat, cell: nat) {
    && x in slabs && l in Live(slabs[x])
    && l <= cell && cell + LINK_BYTES <= l + slabs[x].bufferSize
  }

  ghost predicate Legal(b: Buffer, op: Op) {
    match op
    case Join(s) => MayAdd(b, s)
    case Alloc => true
    case Dealloc(a) => MayFree(b, a)
    case ClientWrite(cell, _) => exists x, l :: InObject(b.slabs, x, l, cell)
  }

  ghost function Step(b: Buffer, op: Op): Buffer
    requires BufferInv(b) && Legal(b, op)
  {
    match op
    case Join(s) => AddList(b, s)
    case Alloc => Allocate(b).0
    case Dealloc(a) => Deallocate(b, a)
    case ClientWrite(_, _) => b
  }

  /** What the caller gets: null for all but allocations. */
  ghost function Answer(b: Buffer, op: Op): nat
    requires BufferInv(b)
  {
    if op.Alloc? then Allocate(b).1 else 0
  }

  /** What a buffer means to its clients: a set of slots, some of which are objects in use. */
  datatype Pool = Pool(slots: set<nat>, objects: set<nat>)

  ghost function PoolOf(b: Buffer): Pool {
    Pool(AllSlots(b), Objects(b))
  }

  /** The answers a pool may give.  An allocation fails exactly when every slot is in use; otherwise any slot
      that is not in use will do.  A slab that joins brings new slots. */
  ghost predicate Allowed(p: Pool, op: Op, r: nat) {
    match op
    case Join(s) => p.slots !! Elements(Slots(s))
    case Alloc => (r == 0 <==> p.objects == p.slots) && (r != 0 ==> r in p.slots && r !in p.objects)
    case Dealloc(_) => r == 0
    case ClientWrite(_, _) => r == 0
  }

  ghost function After(p: Pool, op: Op, r: nat): Pool {
    match op
    case Join(s) => Pool(p.slots + Elements(Slots(s)), p.objects + Live(s))
    case Alloc => if r == 0 then p else p.(objects := p.objects + {r})
    case Dealloc(a) => p.(objects := p.objects - {a})
    case ClientWrite(_, _) => p
  }

  /** No operation adds, drops or resizes a slot of a slab that is there. */
  lemma SettledSlots(b: Buffer, k: Kind, i: nat, s: Slab)
    requires BufferInv(b) && i < |b.rings[k]|
    requires SlabInv(s) && s.base == b.rings[k][i]
    requires s.base in b.slabs && s.pages == b.slabs[s.base].pages && s.bufferSize == b.slabs[s.base].bufferSize
    ensures AllSlots(Settled(b, k, i, s)) == AllSlots(b)
    ensures SameRegions(b, Settled(b, k, i, s))
  {
    var b' := Settled(b, k, i, s);
    assert forall x :: x in b.slabs ==> x in b'.slabs && Slots(b'.slabs[x]) == Slots(b.slabs[x]);
  }

  /** Every slab of `b` is a slab of `b'`, in the same place. */
  ghost predicate KeepsRegions(b: Buffer, b': Buffer) {
    forall x :: x in b.slabs ==>
      x in b'.slabs && b'.slabs[x].base == b.slabs[x].base && b'.slabs[x].pages == b.slabs[x].pages
  }

  ghost predicate SameRegions(b: Buffer, b': Buffer) {
    b'.slabs.Keys == b.slabs.Keys && KeepsRegions(b, b')
  }

  lemma AllocateKeepsSlots(b: Buffer)
    requires BufferInv(b)
    ensures AllSlots(Allocate(b).0) == AllSlots(b) && SameRegions(b, Allocate(b).0)
    ensures Allocate(b).1 != 0 ==> Allocate(b).1 in AllSlots(b)
  {
    var k := if b.rings[Partial] != [] then Partial else Free;
    if b.rings[k] != [] {
      var x := b.rings[k][0];
      assert x in b.rings[k];
      AllocateLowest(b.slabs[x]);
      SettledSlots(b, k, 0, SlabSpec.Allocate(b.slabs[x]).0);
    }
  }

  lemma DeallocateInKeepsSlots(b: Buffer, k: Kind, i: nat, a: nat)
    requires BufferInv(b) && MayFree(b, a)
    requires i < |b.rings[k]| && b.rings[k][i] in b.slabs && b.slabs[b.rings[k][i]].InRange(a)
    ensures AllSlots(DeallocateIn(b, k, i, a)) == AllSlots(b) && SameRegions(b, DeallocateIn(b, k, i, a))
  {
    var x := b.rings[k][i];
    SlabAfterFree(b.slabs[x], a);
    SettledSlots(b, k, i, SlabSpec.Deallocate(b.slabs[x], a));
  }

  lemma DeallocateKeepsSlots(b: Buffer, a: nat)
    requires BufferInv(b) && MayFree(b, a)
    ensures AllSlots(Deallocate(b, a)) == AllSlots(b) && SameRegions(b, Deallocate(b, a))
  {
    var partial, full := Find(b.slabs, b.rings[Partial], a, 0), Find(b.slabs, b.rings[Full], a, 0);
    if partial.Some? {
      DeallocateInKeepsSlots(b, Partial, partial.value, a);
    } else if full.Some? {
      DeallocateInKeepsSlots(b, Full, full.value, a);
    }
  }

  lemma JoinAddsSlots(b: Buffer, s: Slab)
    requires BufferInv(b) && MayAdd(b, s)
    ensures AllSlots(b) !! Elements(Slots(s))
    ensures AllSlots(AddList(b, s)) == AllSlots(b) + Elements(Slots(s)) && KeepsRegions(b, AddList(b, s))
  {
    var b' := AddList(b, s);
    forall a ensures a in AllSlots(b') <==> a in AllSlots(b) || a in Slots(s) {
      if a in Slots(s) { assert a in Slots(b'.slabs[s.base]); }
      if x :| x in b.slabs && a in Slots(b.slabs[x]) { assert a in Slots(b'.slabs[x]); }
    }
    forall x, a | x in b.slabs && a in Slots(b.slabs[x]) ensures a !in Slots(s) {
      SlotInside(b.slabs[x], a);
      if a in Slots(s) { SlotInside(s, a); }
    }
  }

  /** Each operation keeps the buffer sound, and is what a pool of slots could do: with an answer the pool
      allows, and the pool's effect. */
  lemma StepRefines(b: Buffer, op: Op)
    requires BufferInv(b) && Legal(b, op)
    ensures BufferInv(Step(b, op)) && KeepsRegions(b, Step(b, op))
    ensures !op.Join? ==> SameRegions(b, Step(b, op))
    ensures Allowed(PoolOf(b), op, Answer(b, op))
    ensures PoolOf(Step(b, op)) == After(PoolOf(b), op, Answer(b, op))
  {
    match op
    case Join(s) =>
      AddListJoins(b, s);
      JoinAddsSlots(b, s);
    case Alloc =>
      AllocateServes(b);
      AllocateKeepsSlots(b);
      FullIff(b);
    case Dealloc(a) =>
      DeallocateRemoves(b, a);
      DeallocateKeepsSlots(b, a);
    case ClientWrite(_, _) =>
  }

  ghost predicate LegalRun(b: Buffer, ops: seq<Op>)
    requires BufferInv(b)
    decreases |ops|
  {
    ops == [] ||
    (Legal(b, ops[0]) && (StepRefines(b, ops[0]); LegalRun(Step(b, ops[0]), ops[1..])))
  }

  ghost function Run(b: Buffer, ops: seq<Op>): Buffer
    requires BufferInv(b) && LegalRun(b, ops)
    decreases |ops|
  {
    if ops == [] then b else (StepRefines(b, ops[0]); Run(Step(b, ops[0]), ops[1..]))
  }

  /** The first step of a run. */
  lemma RunStep(b: Buffer, ops: seq<Op>)
    requires BufferInv(b) && LegalRun(b, ops) && ops != []
    ensures Legal(b, ops[0]) && BufferInv(Step(b, ops[0])) && LegalRun(Step(b, ops[0]), ops[1..])
    ensures Run(b, ops) == Run(Step(b, ops[0]), ops[1..])
    ensures Answers(b, ops) == [Answer(b, ops[0])] + Answers(Step(b, ops[0]), ops[1..])
    ensures ops[0].Join? ==>
              var s := ops[0].slab; MayAdd(b, s) && Step(b, ops[0]) == AddList(b, s) && Answer(b, ops[0]) == 0
  {
    hide BufferInv, MayAdd, MayFree, KeepsRegions, SameRegions;
    StepRefines(b, ops[0]);
  }

  ghost function Answers(b: Buffer, ops: seq<Op>): seq<nat>
    requires BufferInv(b) && LegalRun(b, ops)
    decreases |ops|
  {
    if ops == [] then []
    else (StepRefines(b, ops[0]); [Answer(b, ops[0])] + Answers(Step(b, ops[0]), ops[1..]))
  }

  lemma RunEnd(b: Buffer)
    requires BufferInv(b)
    ensures LegalRun(b, []) && Run(b, []) == b && Answers(b, []) == []
  {
  }

  /** A pool that starts as `p` may answer `ops` with `rs`, and is then `p'`. */
  ghost predicate PoolRun(p: Pool, ops: seq<Op>, rs: seq<nat>, p': Pool)
    decreases |ops|
  {
    if ops == [] then rs == [] && p' == p
    else rs != [] && Allowed(p, ops[0], rs[0]) && PoolRun(After(p, ops[0], rs[0]), ops[1..], rs[1..], p')
  }

  /** Over every run the rings stay exact, and clients see a pool of slots. */
  lemma {:induction false} RunRefinesPool(b: Buffer, ops: seq<Op>)
    requires BufferInv(b) && LegalRun(b, ops)
    ensures BufferInv(Run(b, ops))
    ensures PoolRun(PoolOf(b), ops, Answers(b, ops), PoolOf(Run(b, ops)))
    decreases |ops|
  {
    hide BufferInv, Legal, Step, Answer, Allowed, After, PoolOf, KeepsRegions, SameRegions;
    if ops == [] {
    } else {
      StepRefines(b, ops[0]);
      RunRefinesPool(Step(b, ops[0]), ops[1..]);
      assert Answers(b, ops)[1..] == Answers(Step(b, ops[0]), ops[1..]);
    }
  }

  // ---------------------------------------------------------------- what clients find in their objects

  /** The operation writes to no byte of the word at `cell`. */
  ghost predicate Clears(op: Op, cell: nat) {
    op.ClientWrite? ==> !Overlap(op.cell, LINK_BYTES, cell, LINK_BYTES)
  }

  /** From memory `w` to memory `w'`: a client's write arrives, and all other words of objects that stay in use
      keep their value. */
  ghost predicate WordsKept(b: Buffer, op: Op, w: Words, b': Buffer, w': Words) {
    && (op.ClientWrite? ==> Load(w', op.cell) == op.value)
    && forall x, l, cell :: InObject(b.slabs, x, l, cell) && InObject(b'.slabs, x, l, cell) && Clears(op, cell) ==>
         Load(w', cell) == Load(w, cell)
  }

  /** Words of objects hold no links. */
  lemma ObjectsHoldNoLinks(b: Buffer)
    requires SlabsInv(b.slabs)
    ensures forall x, l, cell :: InObject(b.slabs, x, l, cell) ==> !IsLink(b.slabs, cell)
  {
    forall x, l, cell | InObject(b.slabs, x, l, cell) ensures !IsLink(b.slabs, cell) {
      if IsLink(b.slabs, cell) {
        LinksMissObjects(b, cell, x, l);
      }
    }
  }

  /** The value the last write to `cell` gave it, or `v` if there was none. */
  function LastWritten(ops: seq<Op>, cell: nat, v: nat): nat
    decreases |ops|
  {
    if ops == [] then v
    else LastWritten(ops[1..], cell, if ops[0].ClientWrite? && ops[0].cell == cell then ops[0].value else v)
  }

  /** Throughout the run object `l` of the slab at `x` stays in use, and writes hit its word at `cell` as a whole
      or not at all. */
  ghost predicate Tracked(b: Buffer, ops: seq<Op>, x: nat, l: nat, cell: nat)
    requires BufferInv(b) && LegalRun(b, ops)
    decreases |ops|
  {
    && InObject(b.slabs, x, l, cell)
    && (ops != [] ==>
          && (Clears(ops[0], cell) || ops[0].cell == cell)
          && (StepRefines(b, ops[0]); Tracked(Step(b, ops[0]), ops[1..], x, l, cell)))
  }

  /** What the rest of a run leaves in tracked words is what the whole run leaves there. */
  ghost predicate Remembers(b0: Buffer, ops0: seq<Op>, w0: Words, b: Buffer, ops: seq<Op>, w: Words)
    requires BufferInv(b0) && LegalRun(b0, ops0) && BufferInv(b) && LegalRun(b, ops)
  {
    forall x, l, cell {:trigger Tracked(b0, ops0, x, l, cell)} :: Tracked(b0, ops0, x, l, cell) ==>
      && Tracked(b, ops, x, l, cell)
      && LastWritten(ops, cell, Load(w, cell)) == LastWritten(ops0, cell, Load(w0, cell))
  }

  lemma RemembersStart(b: Buffer, ops: seq<Op>, w: Words)
    requires BufferInv(b) && LegalRun(b, ops)
    ensures Remembers(b, ops, w, b, ops, w)
  {
  }

  lemma RemembersStep(b0: Buffer, ops0: seq<Op>, w0: Words, b: Buffer, ops: seq<Op>, w: Words, b': Buffer, w': Words)
    requires BufferInv(b0) && LegalRun(b0, ops0) && BufferInv(b) && LegalRun(b, ops) && ops != []
    requires Remembers(b0, ops0, w0, b, ops, w)
    requires b' == Step(b, ops[0]) && WordsKept(b, ops[0], w, b', w')
    ensures BufferInv(b') && LegalRun(b', ops[1..]) && Remembers(b0, ops0, w0, b', ops[1..], w')
  {
    hide BufferInv, Step, Legal, InObject;
    StepRefines(b, ops[0]);
    forall x, l, cell {:trigger Tracked(b0, ops0, x, l, cell)} | Tracked(b0, ops0, x, l, cell)
      ensures Tracked(b', ops[1..], x, l, cell)
      ensures LastWritten(ops[1..], cell, Load(w', cell)) == LastWritten(ops0, cell, Load(w0, cell))
    {
      TrackedStep(b, ops, x, l, cell);
    }
  }

  lemma TrackedStep(b: Buffer, ops: seq<Op>, x: nat, l: nat, cell: nat)
    requires BufferInv(b) && LegalRun(b, ops) && ops != [] && Tracked(b, ops, x, l, cell)
    ensures Legal(b, ops[0]) && BufferInv(Step(b, ops[0])) && LegalRun(Step(b, ops[0]), ops[1..])
    ensures Tracked(Step(b, ops[0]), ops[1..], x, l, cell)
    ensures InObject(b.slabs, x, l, cell) && InObject(Step(b, ops[0]).slabs, x, l, cell)
    ensures Clears(ops[0], cell) || (ops[0].ClientWrite? && ops[0].cell == cell)
  {
    hide BufferInv, Step, Legal, InObject;
    StepRefines(b, ops[0]);
  }

  lemma RemembersEnd(b0: Buffer, ops0: seq<Op>, w0: Words, b: Buffer, w: Words)
    requires BufferInv(b0) && LegalRun(b0, ops0) && BufferInv(b) && LegalRun(b, [])
    requires Remembers(b0, ops0, w0, b, [], w)
    ensures forall x, l, cell :: Tracked(b0, ops0, x, l, cell) ==>
              Load(w, cell) == LastWritten(ops0, cell, Load(w0, cell))
  {
  }

  /** The slabs that join during a run, in order. */
  function Joins(ops: seq<Op>): seq<Slab> {
    if ops == [] then [] else (if ops[0].Join? then [ops[0].slab] else []) + Joins(ops[1..])
  }

  /** A slab that joins later in a legal run is apart from every slab there is now. */
  lemma {:induction false} JoinsApart(b: Buffer, ops: seq<Op>, s: Slab)
    requires BufferInv(b) && LegalRun(b, ops) && s in Joins(ops)
    ensures SlabInv(s) && forall x :: x in b.slabs ==> Apart(b.slabs[x], s)
    decreases |ops|
  {
    hide BufferInv, SlabInv;
    StepRefines(b, ops[0]);
    if ops[0] == Join(s) {
    } else {
      JoinsApart(Step(b, ops[0]), ops[1..], s);
    }
  }

  // ---------------------------------------------------------------- counting

  ghost function UsedIn(slabs: map<nat, Slab>, ring: seq<nat>): nat
    requires forall x :: x in ring ==> x in slabs
  {
    if ring == [] then 0 else UsedIn(slabs, ring[1..]) + slabs[ring[0]].used
  }

  ghost function ObjectsIn(slabs: map<nat, Slab>, ring: seq<nat>): set<nat>
    requires forall x :: x in ring ==> x in slabs
  {
    set x, a | x in ring && a in Live(slabs[x]) :: a
  }

  lemma {:induction false} RingCount(slabs: map<nat, Slab>, ring: seq<nat>)
    requires SlabsInv(slabs) && Distinct(ring) && forall x :: x in ring ==> x in slabs
    ensures |ObjectsIn(slabs, ring)| == UsedIn(slabs, ring)
  {
    if ring == [] {
      assert ObjectsIn(slabs, ring) == {};
    } else {
      var head, rest := ring[0], ring[1..];
      RingCount(slabs, rest);
      LiveCount(slabs[head]);
      ObjectsInCons(slabs, head, rest);
      assert ring == [head] + rest;
    }
  }

  lemma ObjectsInCons(slabs: map<nat, Slab>, head: nat, rest: seq<nat>)
    requires SlabsInv(slabs) && head in slabs && head !in rest && forall x :: x in rest ==> x in slabs
    ensures ObjectsIn(slabs, [head] + rest) == ObjectsIn(slabs, rest) + Live(slabs[head])
    ensures ObjectsIn(slabs, rest) !! Live(slabs[head])
  {
    forall x, a | x in rest && a in Live(slabs[head]) ensures a !in Live(slabs[x]) {
      SlotInside(slabs[head], a);
      if a in Live(slabs[x]) { SlotInside(slabs[x], a); }
    }
    forall a ensures a in ObjectsIn(slabs, [head] + rest) <==> a in ObjectsIn(slabs, rest) || a in Live(slabs[head]) {
      if a in Live(slabs[head]) { assert head in [head] + rest; }
      if x :| x in rest && a in Live(slabs[x]) { assert x in [head] + rest; }
    }
  }

  lemma DistinctAppend(r: seq<nat>, t: seq<nat>)
    requires Distinct(r) && Distinct(t) && forall x :: x in r ==> x !in t
    ensures Distinct(r + t)
  {
    forall i, j | 0 <= i < j < |r + t| ensures (r + t)[i] != (r + t)[j] {
      assert i < |r| <= j ==> (r + t)[i] in r && (r + t)[j] in t;
    }
  }

  lemma OnOneRing(b: Buffer, x: nat, k: Kind)
    requires RingsExact(b) && x in b.rings[k]
    ensures forall j: Kind :: j != k ==> x !in b.rings[j]
  {
    assert KindOf(b.slabs[x]) == k;
  }

  /** The used counts over the three rings add up to the number of objects in use. */
  lemma UsedCountsObjects(b: Buffer)
    requires BufferInv(b)
    ensures UsedIn(b.slabs, b.rings[Free]) + UsedIn(b.slabs, b.rings[Partial]) + UsedIn(b.slabs, b.rings[Full])
            == |Objects(b)|
  {
    var all := b.rings[Free] + b.rings[Partial] + b.rings[Full];
    forall x | x in b.rings[Free] ensures x !in b.rings[Partial] && x !in b.rings[Full] {
      OnOneRing(b, x, Free);
    }
    forall x | x in b.rings[Partial] ensures x !in b.rings[Full] {
      OnOneRing(b, x, Partial);
    }
    DistinctAppend(b.rings[Free], b.rings[Partial]);
    DistinctAppend(b.rings[Free] + b.rings[Partial], b.rings[Full]);
    UsedAppend(b.slabs, b.rings[Free] + b.rings[Partial], b.rings[Full]);
    UsedAppend(b.slabs, b.rings[Free], b.rings[Partial]);
    RingCount(b.slabs, all);
    forall x ensures x in all <==> x in b.slabs {
      if x in b.slabs { assert x in b.rings[KindOf(b.slabs[x])]; }
    }
    assert ObjectsIn(b.slabs, all) == Objects(b);
  }

  lemma {:induction false} UsedAppend(slabs: map<nat, Slab>, r: seq<nat>, t: seq<nat>)
    requires forall x :: x in r || x in t ==> x in slabs
    ensures UsedIn(slabs, r + t) == UsedIn(slabs, r) + UsedIn(slabs, t)
  {
    if r == [] {
      assert r + t == t;
    } else {
      assert (r + t)[1..] == r[1..] + t;
      UsedAppend(slabs, r[1..], t);
    }
  }
}
