/** Four-level page tables: walking them, and mapping a page. */
module PageTables {
  import opened Options
  import opened PageBits

  // ---------------------------------------------------------------- memory

  /** A physical address. */
  datatype Address = Address(bits: bv64)

  type Words = map<Address, bv64>

  function Entry(w: Words, table: bv64, index: bv64): bv64 {
    var a := Address(EntryAt(table, index));
    if a in w then w[a] else 0
  }

  function WithEntry(w: Words, table: bv64, index: bv64, value: bv64): Words {
    w[Address(EntryAt(table, index)) := value]
  }

  /** Writing one entry of a page-aligned table changes no other entry of any page-aligned table. */
  lemma WithEntryOnly(w: Words, table: bv64, index: bv64, value: bv64, t: bv64, i: bv64)
    requires PageAligned(table) && index < 512 && PageAligned(t) && i < 512
    ensures Entry(WithEntry(w, table, index, value), t, i) == if t == table && i == index then value else Entry(w, t, i)
  {
    EntryAtInjective(table, index, t, i);
  }

  /** No entry of the frame is present. */
  ghost predicate Blank(w: Words, frame: bv64) {
    forall i :: i < 512 ==> !IsPresent(Entry(w, frame, i))
  }

  // ---------------------------------------------------------------- the tree of tables

  /** A table, named by the indices that lead to it. */
  datatype Path =
    | Pml4
    | Pdpt(i4: bv64)
    | Pd(i4: bv64, i3: bv64)
    | Pt(i4: bv64, i3: bv64, i2: bv64)
  {
    function Child(i: bv64): Path
      requires !Pt?
    {
      match this
      case Pml4 => Pdpt(i)
      case Pdpt(i4) => Pd(i4, i)
      case Pd(i4, i3) => Pt(i4, i3, i)
    }

    function Parent(): Path
      requires !Pml4?
    {
      match this
      case Pdpt(_) => Pml4
      case Pd(i4, _) => Pdpt(i4)
      case Pt(i4, i3, _) => Pd(i4, i3)
    }

    /** How many tables a walk still goes through from here. */
    function Height(): nat {
      match this
      case Pml4 => 3
      case Pdpt(_) => 2
      case Pd(_, _) => 1
      case Pt(_, _, _) => 0
    }

    /** Which entry of this table a walk uses. */
    function Index(x: PageIndices): bv64 {
      match this
      case Pml4 => x.pm4le
      case Pdpt(_) => x.pdpte
      case Pd(_, _) => x.pde
      case Pt(_, _, _) => x.pt
    }

    /** A walk along these indices goes through this table. */
    predicate On(x: PageIndices) {
      match this
      case Pml4 => true
      case Pdpt(i4) => i4 == x.pm4le
      case Pd(i4, i3) => i4 == x.pm4le && i3 == x.pdpte
      case Pt(i4, i3, i2) => i4 == x.pm4le && i3 == x.pdpte && i2 == x.pde
    }

    /** A table has 512 entries. */
    predicate InBounds() {
      match this
      case Pml4 => true
      case Pdpt(i4) => i4 < 512
      case Pd(i4, i3) => i4 < 512 && i3 < 512
      case Pt(i4, i3, i2) => i4 < 512 && i3 < 512 && i2 < 512
    }
  }

  type Tree = map<Path, bv64>

  /** The upper entries in memory say exactly which tables exist and where they are. */
  ghost predicate EntryAgrees(w: Words, tree: Tree, p: Path, i: bv64)
    requires p in tree && !p.Pt?
  {
    var e := Entry(w, tree[p], i);
    if p.Child(i) in tree then IsPresent(e) && UpperBase(e) == tree[p.Child(i)] else !IsPresent(e)
  }

  /** The tables form a tree: each is reached by one path, through its parent, and no two share a frame. */
  ghost predicate TreeInv(w: Words, root: bv64, tree: Tree) {
    && Pml4 in tree && tree[Pml4] == root
    && (forall p :: p in tree ==> p.InBounds() && PageAligned(tree[p]))
    && (forall p, q :: p in tree && q in tree && tree[p] == tree[q] ==> p == q)
    && (forall p :: p in tree && !p.Pml4? ==> p.Parent() in tree)
    && (forall p, i :: p in tree && !p.Pt? && i < 512 ==> EntryAgrees(w, tree, p, i))
  }

  /** The walk of `VirtToPhys`: the base of the page the indices lead to, if there is one. */
  function Walk(w: Words, root: bv64, x: PageIndices): Option<bv64> {
    WalkFrom(w, Pml4, root, x)
  }

  /** The rest of the walk, from a table at the level of `p` on. */
  function WalkFrom(w: Words, p: Path, table: bv64, x: PageIndices): Option<bv64>
    decreases p.Height()
  {
    var e := Entry(w, table, p.Index(x));
    if !IsPresent(e) then None
    else if p.Pt? then Some(PageBase(e))
    else WalkFrom(w, p.Child(p.Index(x)), UpperBase(e), x)
  }

  lemma TreeRoot(w: Words, root: bv64, tree: Tree)
    requires TreeInv(w, root, tree)
    ensures Pml4 in tree && tree[Pml4] == root
  {
  }

  lemma TreeParent(w: Words, root: bv64, tree: Tree, p: Path)
    requires TreeInv(w, root, tree) && p in tree && !p.Pml4?
    ensures p.Parent() in tree
  {
  }

  lemma TreeEntry(w: Words, root: bv64, tree: Tree, p: Path, i: bv64)
    requires TreeInv(w, root, tree) && p in tree && !p.Pt? && i < 512
    ensures EntryAgrees(w, tree, p, i)
  {
  }

  lemma TreeDistinct(w: Words, root: bv64, tree: Tree, p: Path, q: Path)
    requires TreeInv(w, root, tree) && p in tree && q in tree && p != q
    ensures tree[p] != tree[q]
  {
  }

  lemma TreeAligned(w: Words, root: bv64, tree: Tree, p: Path)
    requires TreeInv(w, root, tree) && p in tree
    ensures PageAligned(tree[p])
  {
  }

  /** What the tree says about the same indices. */
  ghost function Lookup(w: Words, tree: Tree, x: PageIndices): Option<bv64> {
    var p := Pt(x.pm4le, x.pdpte, x.pde);
    if p in tree && IsPresent(Entry(w, tree[p], x.pt)) then Some(PageBase(Entry(w, tree[p], x.pt))) else None
  }

  lemma WalkIsLookup(w: Words, root: bv64, tree: Tree, x: PageIndices)
    requires TreeInv(w, root, tree) && InRange(x)
    ensures Walk(w, root, x) == Lookup(w, tree, x)
  {
    WalkFromIsLookup(w, root, tree, Pml4, x);
  }

  lemma {:induction false} WalkFromIsLookup(w: Words, root: bv64, tree: Tree, p: Path, x: PageIndices)
    requires TreeInv(w, root, tree) && InRange(x) && p in tree && p.On(x)
    ensures WalkFrom(w, p, tree[p], x) == Lookup(w, tree, x)
    decreases p.Height()
  {
    hide Entry, IsPresent, UpperBase, PageBase, TreeInv;
    if p.Pt? {
    } else {
      var c := p.Child(p.Index(x));
      TreeEntry(w, root, tree, p, p.Index(x));
      if c in tree {
        WalkFromIsLookup(w, root, tree, c, x);
      } else {
        NotBelow(w, root, tree, c, x);
      }
    }
  }

  /** A walk that lacks a table reaches no page table. */
  lemma {:induction false} NotBelow(w: Words, root: bv64, tree: Tree, c: Path, x: PageIndices)
    requires TreeInv(w, root, tree) && c !in tree && c.On(x)
    ensures Pt(x.pm4le, x.pdpte, x.pde) !in tree
    decreases c.Height()
  {
    if c.Pt? {
    } else {
      var d := c.Child(c.Index(x));
      if d in tree {
        TreeParent(w, root, tree, d);
      }
      hide TreeInv;
      NotBelow(w, root, tree, d, x);
    }
  }

  // ---------------------------------------------------------------- changing an entry

  /** A frame fit to become a table: in reach of an upper entry, in use by no table, and blank. */
  ghost predicate FitFrame(w: Words, tree: Tree, frame: bv64) {
    && PageAligned(frame) && frame < 0x100_0000_0000
    && Blank(w, frame)
    && forall q :: q in tree ==> tree[q] != frame
  }

  /** Linking a blank frame as a new table keeps the tree, and no page appears or disappears. */
  lemma LinkTable(w: Words, root: bv64, tree: Tree, p: Path, i: bv64, frame: bv64)
    requires TreeInv(w, root, tree)
    requires p in tree && !p.Pt? && i < 512 && p.Child(i) !in tree && FitFrame(w, tree, frame)
    ensures var w', tree' := WithEntry(w, tree[p], i, CreateUser(frame)), tree[p.Child(i) := frame];
            && TreeInv(w', root, tree')
            && (forall x :: InRange(x) ==> Lookup(w', tree', x) == Lookup(w, tree, x))
  {
    hide Entry, WithEntry, IsPresent, UpperBase, PageBase, PageAligned, CreateUser, Blank, EntryAgrees;
    var c := p.Child(i);
    var w', tree' := WithEntry(w, tree[p], i, CreateUser(frame)), tree[c := frame];
    forall q, j | q in tree' && !q.Pt? && j < 512 ensures EntryAgrees(w', tree', q, j) {
      LinkTableEntry(w, root, tree, p, i, frame, q, j);
    }
    forall x | InRange(x) ensures Lookup(w', tree', x) == Lookup(w, tree, x) {
      LinkTableLookup(w, root, tree, p, i, frame, x);
    }
  }

  lemma LinkTableEntry(w: Words, root: bv64, tree: Tree, p: Path, i: bv64, frame: bv64, q: Path, j: bv64)
    requires TreeInv(w, root, tree)
    requires p in tree && !p.Pt? && i < 512 && p.Child(i) !in tree && FitFrame(w, tree, frame)
    requires (q in tree || q == p.Child(i)) && !q.Pt? && j < 512
    ensures EntryAgrees(WithEntry(w, tree[p], i, CreateUser(frame)), tree[p.Child(i) := frame], q, j)
  {
    hide Entry, WithEntry, IsPresent, UpperBase, PageBase, PageAligned, CreateUser;
    var c := p.Child(i);
    LinkedEntry(frame);
    WithEntryOnly(w, tree[p], i, CreateUser(frame), tree[c := frame][q], j);
    if q == c {
      assert c.Child(j).Parent() == c;
      assert !IsPresent(Entry(w, frame, j));
    } else {
      assert EntryAgrees(w, tree, q, j);
      assert q.Child(j) == c <==> q == p && j == i;
    }
  }

  lemma LinkTableLookup(w: Words, root: bv64, tree: Tree, p: Path, i: bv64, frame: bv64, x: PageIndices)
    requires TreeInv(w, root, tree)
    requires p in tree && !p.Pt? && i < 512 && p.Child(i) !in tree && FitFrame(w, tree, frame)
    requires InRange(x)
    ensures Lookup(WithEntry(w, tree[p], i, CreateUser(frame)), tree[p.Child(i) := frame], x) == Lookup(w, tree, x)
  {
    hide Entry, WithEntry, IsPresent, UpperBase, PageBase, PageAligned, CreateUser, EntryAgrees;
    var q, tree' := Pt(x.pm4le, x.pdpte, x.pde), tree[p.Child(i) := frame];
    if q in tree' {
      WithEntryOnly(w, tree[p], i, CreateUser(frame), tree'[q], x.pt);
    }
  }

  /** A frame that becomes a page table must be blank: any present entry it holds is a page mapped by accident. */
  lemma PageTableMustBeBlank(w: Words, root: bv64, tree: Tree, p: Path, i: bv64, frame: bv64)
    requires TreeInv(w, root, tree)
    requires p in tree && p.Pd? && i < 512 && p.Child(i) !in tree
    requires PageAligned(frame) && frame < 0x100_0000_0000 && forall q :: q in tree ==> tree[q] != frame
    ensures var w', tree' := WithEntry(w, tree[p], i, CreateUser(frame)), tree[p.Child(i) := frame];
            Blank(w, frame) <==> forall x :: InRange(x) ==> Lookup(w', tree', x) == Lookup(w, tree, x)
  {
    hide Entry, WithEntry, IsPresent, UpperBase, PageBase, PageAligned, CreateUser;
    var w', tree' := WithEntry(w, tree[p], i, CreateUser(frame)), tree[p.Child(i) := frame];
    if Blank(w, frame) {
      LinkTable(w, root, tree, p, i, frame);
    } else {
      var j :| j < 512 && IsPresent(Entry(w, frame, j));
      var x := PageIndices(p.i4, p.i3, i, j);
      WithEntryOnly(w, tree[p], i, CreateUser(frame), frame, j);
      assert InRange(x) && Lookup(w', tree', x) != Lookup(w, tree, x);
    }
  }

  /** So must a frame that becomes a table of an upper level, if the recorded tables and this one are to be the
      tree in memory: any present entry it holds would point to a table that nobody allocated. */
  lemma UpperTableMustBeBlank(w: Words, root: bv64, tree: Tree, p: Path, i: bv64, frame: bv64)
    requires TreeInv(w, root, tree)
    requires p in tree && (p.Pml4? || p.Pdpt?) && i < 512 && p.Child(i) !in tree
    requires PageAligned(frame) && frame < 0x100_0000_0000 && forall q :: q in tree ==> tree[q] != frame
    ensures var w', tree' := WithEntry(w, tree[p], i, CreateUser(frame)), tree[p.Child(i) := frame];
            Blank(w, frame) <==> TreeInv(w', root, tree')
  {
    hide Entry, WithEntry, IsPresent, UpperBase, PageBase, PageAligned, CreateUser;
    var c := p.Child(i);
    var w', tree' := WithEntry(w, tree[p], i, CreateUser(frame)), tree[c := frame];
    if Blank(w, frame) {
      LinkTable(w, root, tree, p, i, frame);
    } else {
      var j :| j < 512 && IsPresent(Entry(w, frame, j));
      WithEntryOnly(w, tree[p], i, CreateUser(frame), frame, j);
      assert c.Child(j).Parent() == c;
      assert !EntryAgrees(w', tree', c, j);
    }
  }

  /** After any frame is linked as a table, all translations are as before if and only if no page is reached
      through the frame. */
  lemma LinkedFrameMaps(w: Words, root: bv64, tree: Tree, p: Path, i: bv64, frame: bv64)
    requires TreeInv(w, root, tree)
    requires p in tree && !p.Pt? && i < 512 && p.Child(i) !in tree
    requires PageAligned(frame) && frame < 0x100_0000_0000
    ensures var w', c := WithEntry(w, tree[p], i, CreateUser(frame)), p.Child(i);
            ((forall x :: InRange(x) ==> Walk(w', root, x) == Walk(w, root, x))
             <==> (forall x :: InRange(x) && c.On(x) ==> WalkFrom(w', c, frame, x) == None))
  {
    hide Entry, WithEntry, IsPresent, UpperBase, PageBase, PageAligned, CreateUser, WalkFrom;
    var w', c := WithEntry(w, tree[p], i, CreateUser(frame)), p.Child(i);
    forall x | InRange(x)
      ensures Walk(w', root, x) == if c.On(x) then WalkFrom(w', c, frame, x) else Walk(w, root, x)
      ensures c.On(x) ==> Walk(w, root, x) == None
    {
      LinkedWalk(w, root, tree, p, i, frame, Pml4, x);
      if c.On(x) {
        WalkIsLookup(w, root, tree, x);
        NotBelow(w, root, tree, c, x);
      }
    }
  }

  /** From table `q` on, the walk after linking goes through the frame where it goes through the new entry. */
  lemma {:induction false} LinkedWalk(w: Words, root: bv64, tree: Tree, p: Path, i: bv64, frame: bv64, q: Path,
                                      x: PageIndices)
    requires TreeInv(w, root, tree)
    requires p in tree && !p.Pt? && i < 512 && p.Child(i) !in tree
    requires PageAligned(frame) && frame < 0x100_0000_0000
    requires InRange(x) && q in tree && q.On(x) && q.Height() >= (if p.Child(i).On(x) then p.Height() else 0)
    ensures var w', c := WithEntry(w, tree[p], i, CreateUser(frame)), p.Child(i);
            WalkFrom(w', q, tree[q], x) == if c.On(x) then WalkFrom(w', c, frame, x) else WalkFrom(w, q, tree[q], x)
    decreases q.Height()
  {
    hide Entry, WithEntry, IsPresent, UpperBase, PageBase, PageAligned, CreateUser, TreeInv;
    var j, c := q.Index(x), p.Child(i);
    LinkedEntry(frame);
    TreeAligned(w, root, tree, p);
    TreeAligned(w, root, tree, q);
    WithEntryOnly(w, tree[p], i, CreateUser(frame), tree[q], j);
    if q != p {
      TreeDistinct(w, root, tree, p, q);
    }
    if q == p && j == i {
    } else if q.Pt? {
    } else {
      TreeEntry(w, root, tree, q, j);
      if c.On(x) {
        AboveInTree(w, root, tree, p, q.Child(j), x);
      }
      if q.Child(j) in tree {
        LinkedWalk(w, root, tree, p, i, frame, q.Child(j), x);
      }
    }
  }

  /** Every table above one that exists exists. */
  lemma {:induction false} AboveInTree(w: Words, root: bv64, tree: Tree, p: Path, d: Path, x: PageIndices)
    requires TreeInv(w, root, tree) && p in tree && p.On(x) && d.On(x) && d.Height() >= p.Height()
    ensures d in tree
    decreases d.Height() - p.Height()
  {
    if d.Height() == p.Height() {
    } else {
      TreeParent(w, root, tree, p);
      hide TreeInv;
      AboveInTree(w, root, tree, p.Parent(), d, x);
    }
  }

  lemma LinkedEntry(frame: bv64)
    requires PageAligned(frame) && frame < 0x100_0000_0000
    ensures IsPresent(CreateUser(frame)) && UpperBase(CreateUser(frame)) == frame
  {
    UpperEntryRoundTrip(frame);
  }

  /** Writing a leaf entry maps that page and no other. */
  lemma LinkPage(w: Words, root: bv64, tree: Tree, x: PageIndices, pageBase: bv64)
    requires TreeInv(w, root, tree) && InRange(x) && PageAligned(pageBase)
    requires Pt(x.pm4le, x.pdpte, x.pde) in tree
    ensures var w' := WithEntry(w, tree[Pt(x.pm4le, x.pdpte, x.pde)], x.pt, CreateUser(pageBase));
            && TreeInv(w', root, tree)
            && Lookup(w', tree, x) == Some(pageBase)
            && (forall y :: InRange(y) && y != x ==> Lookup(w', tree, y) == Lookup(w, tree, y))
  {
    hide Entry, WithEntry, IsPresent, UpperBase, PageBase, PageAligned, CreateUser;
    var p := Pt(x.pm4le, x.pdpte, x.pde);
    var w' := WithEntry(w, tree[p], x.pt, CreateUser(pageBase));
    LeafEntry(pageBase);
    forall q, j | q in tree && !q.Pt? && j < 512 ensures EntryAgrees(w', tree, q, j) {
      WithEntryOnly(w, tree[p], x.pt, CreateUser(pageBase), tree[q], j);
      assert EntryAgrees(w, tree, q, j);
    }
    forall y | InRange(y)
      ensures Lookup(w', tree, y) == if y == x then Some(pageBase) else Lookup(w, tree, y)
    {
      var q := Pt(y.pm4le, y.pdpte, y.pde);
      if q in tree {
        WithEntryOnly(w, tree[p], x.pt, CreateUser(pageBase), tree[q], y.pt);
      }
    }
  }

  lemma LeafEntry(pageBase: bv64)
    requires PageAligned(pageBase)
    ensures IsPresent(CreateUser(pageBase)) && PageBase(CreateUser(pageBase)) == pageBase
  {
    PageEntryRoundTrip(pageBase);
  }

  // ---------------------------------------------------------------- what is written

  /** The entry at index `i` of table `p` points to a table that is new in `tree'`. */
  ghost predicate NewLink(tree: Tree, tree': Tree, p: Path, i: bv64) {
    p in tree' && !p.Pt? && i < 512 && p.Child(i) in tree' && p.Child(i) !in tree
  }

  /** The entry at index `i` of the frame `t` is one of those. */
  ghost predicate IsNewLink(tree: Tree, tree': Tree, t: bv64, i: bv64) {
    exists p :: NewLink(tree, tree', p, i) && tree'[p] == t
  }

  /** Memory went from `w` to `w'` as the tables grew: each new table is linked by a present, writeable entry open
      to users, and nothing else was written. */
  ghost predicate LinksOnly(w: Words, tree: Tree, w': Words, tree': Tree) {
    && (forall p, i :: NewLink(tree, tree', p, i) ==> Entry(w', tree'[p], i) == CreateUser(tree'[p.Child(i)]))
    && (forall t, i :: PageAligned(t) && i < 512 && !IsNewLink(tree, tree', t, i) ==>
          Entry(w', t, i) == Entry(w, t, i))
  }

  /** What mapping the page at the indices `x` writes: the links to new tables, the leaf entry, and nothing else. */
  ghost predicate MappingOnly(w: Words, tree: Tree, w': Words, tree': Tree, x: PageIndices, pageBase: bv64) {
    var leaf := Pt(x.pm4le, x.pdpte, x.pde);
    && leaf in tree' && Entry(w', tree'[leaf], x.pt) == CreateUser(pageBase)
    && (forall p, i :: NewLink(tree, tree', p, i) ==> Entry(w', tree'[p], i) == CreateUser(tree'[p.Child(i)]))
    && (forall t, i :: PageAligned(t) && i < 512 && !IsNewLink(tree, tree', t, i)
                       && !(t == tree'[leaf] && i == x.pt) ==>
          Entry(w', t, i) == Entry(w, t, i))
  }

  lemma LeafOnly(w: Words, tree: Tree, w1: Words, tree1: Tree, root: bv64, x: PageIndices, pageBase: bv64)
    requires TreeInv(w1, root, tree1) && LinksOnly(w, tree, w1, tree1) && InRange(x)
    requires Pt(x.pm4le, x.pdpte, x.pde) in tree1
    ensures MappingOnly(w, tree, WithEntry(w1, tree1[Pt(x.pm4le, x.pdpte, x.pde)], x.pt, CreateUser(pageBase)), tree1,
                        x, pageBase)
  {
    hide Entry, WithEntry, PageAligned, CreateUser, EntryAgrees;
    var leaf := Pt(x.pm4le, x.pdpte, x.pde);
    TreeAligned(w1, root, tree1, leaf);
    WithEntryOnly(w1, tree1[leaf], x.pt, CreateUser(pageBase), tree1[leaf], x.pt);
    var w' := WithEntry(w1, tree1[leaf], x.pt, CreateUser(pageBase));
    forall p, i | NewLink(tree, tree1, p, i) ensures Entry(w', tree1[p], i) == CreateUser(tree1[p.Child(i)]) {
      TreeDistinct(w1, root, tree1, p, leaf);
      TreeAligned(w1, root, tree1, p);
      WithEntryOnly(w1, tree1[leaf], x.pt, CreateUser(pageBase), tree1[p], i);
    }
    forall t, i | PageAligned(t) && i < 512 && !IsNewLink(tree, tree1, t, i) && !(t == tree1[leaf] && i == x.pt)
      ensures Entry(w', t, i) == Entry(w, t, i)
    {
      WithEntryOnly(w1, tree1[leaf], x.pt, CreateUser(pageBase), t, i);
    }
  }

  lemma LinksNone(w: Words, tree: Tree)
    ensures LinksOnly(w, tree, w, tree)
  {
    hide Entry, PageAligned, CreateUser;
  }

  lemma LinksOne(w: Words, root: bv64, tree: Tree, p: Path, i: bv64, frame: bv64)
    requires TreeInv(w, root, tree) && p in tree && !p.Pt? && i < 512 && p.Child(i) !in tree
    ensures LinksOnly(w, tree, WithEntry(w, tree[p], i, CreateUser(frame)), tree[p.Child(i) := frame])
  {
    hide Entry, WithEntry, IsPresent, UpperBase, PageAligned, CreateUser, EntryAgrees;
    var w', tree' := WithEntry(w, tree[p], i, CreateUser(frame)), tree[p.Child(i) := frame];
    TreeAligned(w, root, tree, p);
    assert NewLink(tree, tree', p, i);
    forall q, j | NewLink(tree, tree', q, j) ensures q == p && j == i {
      assert q.Child(j).Parent() == p.Child(i).Parent();
    }
    WithEntryOnly(w, tree[p], i, CreateUser(frame), tree[p], i);
    forall t, j | PageAligned(t) && j < 512 && !IsNewLink(tree, tree', t, j)
      ensures Entry(w', t, j) == Entry(w, t, j)
    {
      WithEntryOnly(w, tree[p], i, CreateUser(frame), t, j);
    }
  }

  /** `tree'` has the tables of `tree`, where they were. */
  ghost predicate Extends(tree: Tree, tree': Tree) {
    forall p :: p in tree ==> p in tree' && tree'[p] == tree[p]
  }

  lemma LinksCompose(w: Words, tree: Tree, w1: Words, tree1: Tree, w2: Words, tree2: Tree, root: bv64)
    requires TreeInv(w1, root, tree1) && TreeInv(w2, root, tree2) && Extends(tree, tree1) && Extends(tree1, tree2)
    requires LinksOnly(w, tree, w1, tree1) && LinksOnly(w1, tree1, w2, tree2)
    ensures Extends(tree, tree2) && LinksOnly(w, tree, w2, tree2)
  {
    hide Entry, PageAligned, CreateUser, EntryAgrees;
    forall p, i | NewLink(tree, tree2, p, i) ensures Entry(w2, tree2[p], i) == CreateUser(tree2[p.Child(i)]) {
      LinkCompose(w, tree, w1, tree1, w2, tree2, root, p, i);
    }
    forall t, i | PageAligned(t) && i < 512 && !IsNewLink(tree, tree2, t, i)
      ensures Entry(w2, t, i) == Entry(w, t, i)
    {
      forall p | NewLink(tree1, tree2, p, i) ensures tree2[p] != t {
        assert NewLink(tree, tree2, p, i);
      }
      forall p | NewLink(tree, tree1, p, i) ensures tree1[p] != t {
        assert NewLink(tree, tree2, p, i);
      }
      assert !IsNewLink(tree1, tree2, t, i) && !IsNewLink(tree, tree1, t, i);
    }
  }

  lemma LinkCompose(w: Words, tree: Tree, w1: Words, tree1: Tree, w2: Words, tree2: Tree, root: bv64, p: Path, i: bv64)
    requires TreeInv(w1, root, tree1) && TreeInv(w2, root, tree2) && Extends(tree, tree1) && Extends(tree1, tree2)
    requires LinksOnly(w, tree, w1, tree1) && LinksOnly(w1, tree1, w2, tree2)
    requires NewLink(tree, tree2, p, i)
    ensures Entry(w2, tree2[p], i) == CreateUser(tree2[p.Child(i)])
  {
    hide Entry, PageAligned, CreateUser, EntryAgrees;
    var c := p.Child(i);
    if c in tree1 {
      TreeParent(w1, root, tree1, c);
      assert c.Parent() == p;
      assert NewLink(tree, tree1, p, i);
      TreeAligned(w1, root, tree1, p);
      forall q | NewLink(tree1, tree2, q, i) ensures tree2[q] != tree1[p] {
        assert q != p;
        TreeDistinct(w2, root, tree2, q, p);
      }
      assert !IsNewLink(tree1, tree2, tree1[p], i);
    } else {
      assert NewLink(tree1, tree2, p, i);
    }
  }

  // ---------------------------------------------------------------- the frames to come

  /** The frames the page allocator will hand out: distinct, and each fit to become a table. */
  ghost predicate PoolInv(w: Words, tree: Tree, free: seq<bv64>) {
    && (forall f :: f in free ==> FitFrame(w, tree, f))
    && (forall i, j :: 0 <= i < j < |free| ==> free[i] != free[j])
  }

  /** Writing an entry of a table leaves the frames of the pool blank. */
  lemma PoolKept(w: Words, tree: Tree, free: seq<bv64>, p: Path, i: bv64, value: bv64)
    requires PoolInv(w, tree, free) && p in tree && PageAligned(tree[p]) && i < 512
    ensures PoolInv(WithEntry(w, tree[p], i, value), tree, free)
  {
    hide Entry, WithEntry, IsPresent, PageAligned;
    forall f, j | f in free && j < 512
      ensures Entry(WithEntry(w, tree[p], i, value), f, j) == Entry(w, f, j)
    {
      assert FitFrame(w, tree, f);
      WithEntryOnly(w, tree[p], i, value, f, j);
    }
    forall f | f in free ensures FitFrame(WithEntry(w, tree[p], i, value), tree, f) {
      assert FitFrame(w, tree, f);
    }
  }

  /** ... and so does taking the first of them for a table. */
  lemma PoolTaken(w: Words, tree: Tree, free: seq<bv64>, c: Path)
    requires PoolInv(w, tree, free) && free != [] && c !in tree
    ensures PoolInv(w, tree[c := free[0]], free[1..])
  {
    hide Blank, PageAligned;
    forall f | f in free[1..] ensures FitFrame(w, tree[c := free[0]], f) {
      assert FitFrame(w, tree, f);
    }
  }

  /** The tables on the way to a page. */
  function Way(x: PageIndices): set<Path> {
    {Pdpt(x.pm4le), Pd(x.pm4le, x.pdpte), Pt(x.pm4le, x.pdpte, x.pde)}
  }

  /** How many tables on the way to a page do not exist. */
  function Missing(tables: set<Path>, x: PageIndices): nat {
    (if Pdpt(x.pm4le) in tables then 0 else 1)
    + (if Pd(x.pm4le, x.pdpte) in tables then 0 else 1)
    + (if Pt(x.pm4le, x.pdpte, x.pde) in tables then 0 else 1)
  }

  /** Table `c` exists afterwards: if it did not, the next frame becomes it. */
  ghost function Grown(tree: Tree, free: seq<bv64>, c: Path): (Tree, seq<bv64>)
    requires c in tree || free != []
  {
    if c in tree then (tree, free) else (tree[c := free[0]], free[1..])
  }

  ghost function GrownWay(tree: Tree, free: seq<bv64>, x: PageIndices): (Tree, seq<bv64>)
    requires |free| >= Missing(tree.Keys, x)
  {
    var (tree3, free3) := Grown(tree, free, Pdpt(x.pm4le));
    var (tree2, free2) := Grown(tree3, free3, Pd(x.pm4le, x.pdpte));
    Grown(tree2, free2, Pt(x.pm4le, x.pdpte, x.pde))
  }

  /** The three steps of `GrownWay`. */
  lemma GrownSteps(tree: Tree, free: seq<bv64>, x: PageIndices)
    requires |free| >= Missing(tree.Keys, x)
    ensures var p3, p2, p1 := Pdpt(x.pm4le), Pd(x.pm4le, x.pdpte), Pt(x.pm4le, x.pdpte, x.pde);
            && (p3 in tree || free != [])
            && var (tree3, free3) := Grown(tree, free, p3);
            && (p2 in tree3 || free3 != [])
            && var (tree2, free2) := Grown(tree3, free3, p2);
            && (p1 in tree2 || free2 != [])
            && GrownWay(tree, free, x) == Grown(tree2, free2, p1)
  {
  }

  /** The tree grows by exactly the missing tables, and takes exactly as many frames. */
  lemma GrownWayExact(tree: Tree, free: seq<bv64>, x: PageIndices)
    requires |free| >= Missing(tree.Keys, x)
    ensures var (tree', free') := GrownWay(tree, free, x);
            && tree'.Keys == tree.Keys + Way(x)
            && (forall p :: p in tree ==> tree'[p] == tree[p])
            && free' == free[Missing(tree.Keys, x)..]
            && Missing(tree'.Keys, x) == 0
  {
  }

  /** The physical address in a page frame; zero stands for "not mapped". */
  function Physical(frame: Option<bv64>, v: bv64): bv64 {
    match frame
    case None => 0
    case Some(b) => InPage(b, v)
  }

  function InPage(pageBase: bv64, v: bv64): bv64 { pageBase + (v & 0xFFF) }

  /** A mapped address keeps its offset and gets the frame's page number. */
  lemma PhysicalIs(w: Words, root: bv64, x: PageIndices, v: bv64)
    ensures match Walk(w, root, x)
            case None => Physical(Walk(w, root, x), v) == 0
            case Some(f) =>
              var phys := Physical(Walk(w, root, x), v);
              PageAligned(f) && AtOffset(phys, v, f)
  {
    hide Entry, IsPresent, UpperBase;
    WalkAligned(w, Pml4, root, x);
    if Walk(w, root, x).Some? {
      InPageIs(Walk(w, root, x).value, v);
    }
  }

  /** `phys` has the page offset of `v` and lies in the frame. */
  ghost predicate AtOffset(phys: bv64, v: bv64, frame: bv64) {
    phys & 0xFFF == v & 0xFFF && phys & !0xFFF == frame
  }

  lemma InPageIs(pageBase: bv64, v: bv64)
    requires PageAligned(pageBase)
    ensures AtOffset(InPage(pageBase, v), v, pageBase)
  {
  }

  lemma {:induction false} WalkAligned(w: Words, p: Path, table: bv64, x: PageIndices)
    ensures WalkFrom(w, p, table, x).Some? ==> PageAligned(WalkFrom(w, p, table, x).value)
    decreases p.Height()
  {
    var e := Entry(w, table, p.Index(x));
    PageBaseAligned(e);
    hide Entry, IsPresent, UpperBase, PageBase, PageAligned;
    if p.Pt? {
    } else {
      WalkAligned(w, p.Child(p.Index(x)), UpperBase(e), x);
    }
  }

  lemma PageBaseAligned(e: bv64)
    ensures PageAligned(PageBase(e))
  {
  }

  // ---------------------------------------------------------------- the manual's walk

  /** What section 4.5 of the Intel SDM Volume 3A says about addresses and entries, in arithmetic: the indices
      are bits 39, 30, 21 and 12 upwards, entries are eight bytes, and bit 0 says present.  As in the source,
      tables are looked for below 2^40, and large pages are left out. */
  function ManualIndices(v: bv64): PageIndices {
    PageIndices(v / 0x80_0000_0000 % 512, v / 0x4000_0000 % 512, v / 0x20_0000 % 512, v / 0x1000 % 512)
  }

  function ManualEntry(w: Words, table: bv64, index: bv64): bv64 {
    var a := Address(table + 8 * index);
    if a in w then w[a] else 0
  }

  predicate ManualPresent(entry: bv64) { entry % 2 == 1 }

  function ManualTable(entry: bv64): bv64 { entry % 0x100_0000_0000 - entry % 0x1000 }

  function ManualFrame(entry: bv64): bv64 { PageStart(entry) }

  /** The frame in which the processor finds the byte at address `v`. */
  function ManualWalk(w: Words, root: bv64, v: bv64): Option<bv64> {
    var x := ManualIndices(v);
    var e4 := ManualEntry(w, root, x.pm4le);
    if !ManualPresent(e4) then None else
    var e3 := ManualEntry(w, ManualTable(e4), x.pdpte);
    if !ManualPresent(e3) then None else
    var e2 := ManualEntry(w, ManualTable(e3), x.pde);
    if !ManualPresent(e2) then None else
    var e1 := ManualEntry(w, ManualTable(e2), x.pt);
    if !ManualPresent(e1) then None else Some(ManualFrame(e1))
  }

  lemma ManualEntryIs(w: Words, table: bv64, index: bv64)
    requires index < 512
    ensures ManualEntry(w, table, index) == Entry(w, table, index)
  {
    EntryAddress(table, index);
    hide EntryAt;
  }

  lemma ManualFields(e: bv64)
    ensures ManualPresent(e) <==> IsPresent(e)
    ensures ManualTable(e) == UpperBase(e)
    ensures ManualFrame(e) == PageBase(e)
  {
    PresentIsOdd(e);
    UpperBaseIs(e);
    PageBaseIs(e);
    hide IsPresent, UpperBase, PageBase, PageStart;
  }

  /** The walk of the source reaches exactly the frames the manual's walk reaches. */
  lemma WalkIsManual(w: Words, root: bv64, v: bv64)
    ensures Walk(w, root, ExtractPageIndices(v)) == ManualWalk(w, root, v)
  {
    IndicesByDivision(v);
    var x := ExtractPageIndices(v);
    assert x == ManualIndices(v) && InRange(x);
    hide Entry, ManualEntry, ExtractPageIndices, ManualIndices, IsPresent, UpperBase, PageBase, ManualPresent,
      ManualTable, ManualFrame;
    var e4 := Entry(w, root, x.pm4le);
    var e3 := Entry(w, UpperBase(e4), x.pdpte);
    var e2 := Entry(w, UpperBase(e3), x.pde);
    var e1 := Entry(w, UpperBase(e2), x.pt);
    ManualEntryIs(w, root, x.pm4le);
    ManualEntryIs(w, UpperBase(e4), x.pdpte);
    ManualEntryIs(w, UpperBase(e3), x.pde);
    ManualEntryIs(w, UpperBase(e2), x.pt);
    ManualFields(e4);
    ManualFields(e3);
    ManualFields(e2);
    ManualFields(e1);
    WalkSteps(w, root, x);
  }

  /** The walk, level by level. */
  lemma WalkSteps(w: Words, root: bv64, x: PageIndices)
    ensures var e4 := Entry(w, root, x.pm4le);
            var e3 := Entry(w, UpperBase(e4), x.pdpte);
            var e2 := Entry(w, UpperBase(e3), x.pde);
            var e1 := Entry(w, UpperBase(e2), x.pt);
            Walk(w, root, x) ==
            if IsPresent(e4) && IsPresent(e3) && IsPresent(e2) && IsPresent(e1) then Some(PageBase(e1)) else None
  {
    hide Entry, IsPresent, UpperBase, PageBase;
    var e4 := Entry(w, root, x.pm4le);
    var e3 := Entry(w, UpperBase(e4), x.pdpte);
    var e2 := Entry(w, UpperBase(e3), x.pde);
    var p3, p2, p1 := Pdpt(x.pm4le), Pd(x.pm4le, x.pdpte), Pt(x.pm4le, x.pdpte, x.pde);
    assert WalkFrom(w, p1, UpperBase(e2), x) ==
           var e1 := Entry(w, UpperBase(e2), x.pt); if IsPresent(e1) then Some(PageBase(e1)) else None;
    assert WalkFrom(w, p2, UpperBase(e3), x) == if IsPresent(e2) then WalkFrom(w, p1, UpperBase(e2), x) else None;
    assert WalkFrom(w, p3, UpperBase(e4), x) == if IsPresent(e3) then WalkFrom(w, p2, UpperBase(e3), x) else None;
  }

  datatype Request = Request(virtAddr: bv64, pageBase: bv64)

  /** How many tables a sequence of requests adds to those there are. */
  function Needed(tables: set<Path>, requests: seq<Request>): nat
    decreases |requests|
  {
    if requests == [] then 0
    else
      var x := ExtractPageIndices(requests[0].virtAddr);
      Missing(tables, x) + Needed(tables + Way(x), requests[1..])
  }

  /** The frame the last request for the page of `u` asked for. */
  ghost function Latest(requests: seq<Request>, u: bv64, before: Option<bv64>): Option<bv64> {
    if requests == [] then before
    else
      var last := requests[|requests| - 1];
      if SamePage(u, last.virtAddr) then Some(last.pageBase) else Latest(requests[..|requests| - 1], u, before)
  }

  // ---------------------------------------------------------------- the classes

  class PhysicalMemory {
    var words: Words

    constructor ()
      ensures words == map[]
    {
      words := map[];
    }

    function GetEntry(table: bv64, index: bv64): bv64
      reads this
    {
      Entry(words, table, index)
    }

    method SetEntry(table: bv64, index: bv64, value: bv64)
      modifies this
      ensures words == WithEntry(old(words), table, index, value)
    {
      words := WithEntry(words, table, index, value);
    }
  }

  /** The page allocator, as far as the page tables see it. */
  class PageAllocator {
    var free: seq<bv64>

    constructor (free: seq<bv64>)
      ensures this.free == free
    {
      this.free := free;
    }

    method AllocatePage() returns (page: bv64)
      requires free != []
      modifies this
      ensures page == old(free)[0] && free == old(free)[1..]
    {
      page := free[0];
      free := free[1..];
    }
  }

  class X86Pages {
    const mem: PhysicalMemory
    const pageAllocator: PageAllocator
    const pml4: bv64
    /** Where every table is. */
    ghost var tree: Tree

    constructor (mem: PhysicalMemory, pageAllocator: PageAllocator, pml4base: bv64)
      requires PageAligned(pml4base) && Blank(mem.words, pml4base)
      requires PoolInv(mem.words, map[Pml4 := pml4base], pageAllocator.free)
      ensures Valid() && this.mem == mem && this.pageAllocator == pageAllocator && pml4 == pml4base
      ensures tree == map[Pml4 := pml4base]
    {
      this.mem := mem;
      this.pageAllocator := pageAllocator;
      pml4 := pml4base;
      tree := map[Pml4 := pml4base];
    }

    ghost predicate Valid()
      reads this, mem, pageAllocator
    {
      TreeInv(mem.words, pml4, tree) && PoolInv(mem.words, tree, pageAllocator.free)
    }

    /** The page frame a virtual address is mapped to, if any. */
    ghost function Mapping(v: bv64): Option<bv64>
      reads mem
    {
      Walk(mem.words, pml4, ExtractPageIndices(v))
    }

    /** The physical address of a virtual address; zero if it has none. */
    ghost function Translation(v: bv64): bv64
      reads mem
    {
      Physical(Mapping(v), v)
    }

    method VirtToPhys(virtAddr: bv64) returns (phys: bv64)
      requires IsCanonical(virtAddr)
      ensures phys == Translation(virtAddr)
      ensures match Mapping(virtAddr)
              case None => phys == 0
              case Some(f) => PageAligned(f) && AtOffset(phys, virtAddr, f)
    {
      hide Entry, IsPresent, UpperBase, PageBase, ExtractPageIndices, IsCanonical, InPage, PageAligned, AtOffset;
      PhysicalIs(mem.words, pml4, ExtractPageIndices(virtAddr), virtAddr);
      var index := ExtractPageIndices(virtAddr);
      if !IsPresent(mem.GetEntry(pml4, index.pm4le)) {
        return 0;
      }
      var pdpt := UpperBase(mem.GetEntry(pml4, index.pm4le));
      assert WalkFrom(mem.words, Pdpt(index.pm4le), pdpt, index) == Mapping(virtAddr);
      if !IsPresent(mem.GetEntry(pdpt, index.pdpte)) {
        return 0;
      }
      var pd := UpperBase(mem.GetEntry(pdpt, index.pdpte));
      assert WalkFrom(mem.words, Pd(index.pm4le, index.pdpte), pd, index) == Mapping(virtAddr);
      if !IsPresent(mem.GetEntry(pd, index.pde)) {
        return 0;
      }
      var pt := UpperBase(mem.GetEntry(pd, index.pde));
      assert WalkFrom(mem.words, Pt(index.pm4le, index.pdpte, index.pde), pt, index) == Mapping(virtAddr);
      if !IsPresent(mem.GetEntry(pt, index.pt)) {
        return 0;
      }
      var pagebase := PageBase(mem.GetEntry(pt, index.pt));
      phys := InPage(pagebase, virtAddr);
    }

    /** One level of the descent of `MapUserPage`: the table an entry points to, allocated if missing. */
    method Descend(table: bv64, index: bv64, ghost p: Path) returns (child: bv64)
      requires Valid() && p in tree && !p.Pt? && tree[p] == table && index < 512
      requires p.Child(index) !in tree ==> pageAllocator.free != []
      modifies this`tree, mem, pageAllocator
      ensures Valid()
      ensures (tree, pageAllocator.free) == Grown(old(tree), old(pageAllocator.free), p.Child(index))
      ensures p.Child(index) in tree && child == tree[p.Child(index)]
      ensures Extends(old(tree), tree) && LinksOnly(old(mem.words), old(tree), mem.words, tree)
      ensures forall x :: InRange(x) ==> Lookup(mem.words, tree, x) == Lookup(old(mem.words), old(tree), x)
    {
      hide Entry, WithEntry, IsPresent, UpperBase, PageAligned, CreateUser, Lookup;
      hide LinksOnly;
      assert EntryAgrees(mem.words, tree, p, index);
      LinksNone(mem.words, tree);
      if !IsPresent(mem.GetEntry(table, index)) {
        ghost var free := pageAllocator.free;
        LinksOne(mem.words, pml4, tree, p, index, free[0]);
        LinkTable(mem.words, pml4, tree, p, index, free[0]);
        PoolKept(mem.words, tree, free, p, index, CreateUser(free[0]));
        var page := pageAllocator.AllocatePage();
        mem.SetEntry(table, index, CreateUser(page));
        PoolTaken(mem.words, tree, free, p.Child(index));
        tree := tree[p.Child(index) := page];
        assert EntryAgrees(mem.words, tree, p, index);
      }
      child := UpperBase(mem.GetEntry(table, index));
    }

    lemma TreeKnown()
      requires Valid()
      ensures TreeInv(mem.words, pml4, tree)
    {
    }

    /** The descent of `MapUserPage` to the page table: exactly the missing tables are allocated. */
    method ReachPageTable(index: PageIndices) returns (pt: bv64)
      requires Valid() && InRange(index) && |pageAllocator.free| >= Missing(tree.Keys, index)
      modifies this`tree, mem, pageAllocator
      ensures Valid()
      ensures (tree, pageAllocator.free) == GrownWay(old(tree), old(pageAllocator.free), index)
      ensures Pt(index.pm4le, index.pdpte, index.pde) in tree
      ensures pt == tree[Pt(index.pm4le, index.pdpte, index.pde)]
      ensures Extends(old(tree), tree) && LinksOnly(old(mem.words), old(tree), mem.words, tree)
      ensures forall x :: InRange(x) ==> Lookup(mem.words, tree, x) == Lookup(old(mem.words), old(tree), x)
    {
      GrownSteps(tree, pageAllocator.free, index);
      TreeRoot(mem.words, pml4, tree);
      assert index.pm4le < 512 && index.pdpte < 512 && index.pde < 512;
      ghost var p3, p2 := Pdpt(index.pm4le), Pd(index.pm4le, index.pdpte);
      assert Pml4.Child(index.pm4le) == p3 && p3.Child(index.pdpte) == p2;
      assert p2.Child(index.pde) == Pt(index.pm4le, index.pdpte, index.pde);
      ghost var tree4, w4 := tree, mem.words;
      hide *;
      var pdpt := Descend(pml4, index.pm4le, Pml4);
      ghost var tree3, w3 := tree, mem.words;
      var pd := Descend(pdpt, index.pdpte, p3);
      ghost var tree2, w2 := tree, mem.words;
      TreeKnown();
      LinksCompose(w4, tree4, w3, tree3, w2, tree2, pml4);
      pt := Descend(pd, index.pde, p2);
      TreeKnown();
      LinksCompose(w4, tree4, w2, tree2, mem.words, tree, pml4);
    }

    /** Maps the page of `virtAddr` to the frame `pageBase`, changes the translation of no other page, and
        adds exactly the tables that are missing on the way. */
    method MapUserPage(virtAddr: bv64, pageBase: bv64)
      requires Valid() && IsCanonical(virtAddr) && PageAligned(pageBase)
      requires |pageAllocator.free| >= Missing(tree.Keys, ExtractPageIndices(virtAddr))
      modifies this`tree, mem, pageAllocator
      ensures Valid()
      ensures forall u :: IsCanonical(u) ==>
                Mapping(u) == if SamePage(u, virtAddr) then Some(pageBase) else old(Mapping(u))
      ensures forall u :: IsCanonical(u) ==>
                if SamePage(u, virtAddr)
                then AtOffset(Translation(u), u, pageBase)
                else Translation(u) == old(Translation(u))
      ensures MappingOnly(old(mem.words), old(tree), mem.words, tree, ExtractPageIndices(virtAddr), pageBase)
      ensures tree.Keys == old(tree).Keys + Way(ExtractPageIndices(virtAddr))
      ensures forall p :: p in old(tree) ==> tree[p] == old(tree)[p]
      ensures pageAllocator.free == old(pageAllocator.free[Missing(tree.Keys, ExtractPageIndices(virtAddr))..])
    {
      hide Entry, WithEntry, IsPresent, UpperBase, PageBase, PageAligned, CreateUser, TreeInv, PoolInv, Lookup, Walk,
        ExtractPageIndices, SamePage, IsCanonical, Missing, GrownWay, AtOffset, InPage, LinksOnly, MappingOnly;
      var index := ExtractPageIndices(virtAddr);
      ghost var p := Pt(index.pm4le, index.pdpte, index.pde);
      ghost var w, was := mem.words, tree;
      GrownWayExact(tree, pageAllocator.free, index);
      var pt := ReachPageTable(index);
      LinkPage(mem.words, pml4, tree, index, pageBase);
      LeafOnly(w, was, mem.words, tree, pml4, index, pageBase);
      TreeAligned(mem.words, pml4, tree, p);
      PoolKept(mem.words, tree, pageAllocator.free, p, index.pt, CreateUser(pageBase));
      mem.SetEntry(pt, index.pt, CreateUser(pageBase));
      forall u | IsCanonical(u)
        ensures Mapping(u) == if SamePage(u, virtAddr) then Some(pageBase) else old(Mapping(u))
      {
        SamePath(u, virtAddr);
        WalkIsLookup(w, pml4, was, ExtractPageIndices(u));
        WalkIsLookup(mem.words, pml4, tree, ExtractPageIndices(u));
      }
      forall u | IsCanonical(u) && SamePage(u, virtAddr)
        ensures AtOffset(Translation(u), u, pageBase)
      {
        PhysicalIs(mem.words, pml4, ExtractPageIndices(u), u);
      }
    }

    /** Serves a sequence of requests: every address translates according to the latest request for its
        page, or as before if there was none.  Exactly the missing tables are allocated. */
    method MapPages(requests: seq<Request>)
      requires Valid() && |pageAllocator.free| >= Needed(tree.Keys, requests)
      requires forall r :: r in requests ==> IsCanonical(r.virtAddr) && PageAligned(r.pageBase)
      modifies this`tree, mem, pageAllocator
      ensures Valid()
      ensures forall u :: IsCanonical(u) ==> Mapping(u) == Latest(requests, u, old(Mapping(u)))
      ensures |pageAllocator.free| == old(|pageAllocator.free| - Needed(tree.Keys, requests))
    {
      hide TreeInv, PoolInv, Walk, ExtractPageIndices, SamePage, IsCanonical, PageAligned, Missing, Way;
      for i := 0 to |requests|
        invariant Valid() && |pageAllocator.free| >= Needed(tree.Keys, requests[i..])
        invariant |pageAllocator.free| - Needed(tree.Keys, requests[i..])
                  == old(|pageAllocator.free| - Needed(tree.Keys, requests))
        invariant forall u :: IsCanonical(u) ==> Mapping(u) == Latest(requests[..i], u, old(Mapping(u)))
      {
        assert requests[..i + 1][..i] == requests[..i];
        assert requests[i..][0] == requests[i] && requests[i..][1..] == requests[i + 1..];
        MapUserPage(requests[i].virtAddr, requests[i].pageBase);
      }
      assert requests[..|requests|] == requests;
    }
  }
}
