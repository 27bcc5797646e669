/** Three-level translation tables held in physical frames (kernel/mm/vmm.c), as a forest of
    tables in which every table frame has exactly one place. */
module PageTables {
  import opened Base
  import opened Pmm
  import opened Vma

  const ENTRIES: nat := 512
  // Pages of user space: 2^38 / 2^12.
  const PAGES: nat := 0x400_0000

  const AP_RW_EL1: nat := 0
  const AP_RW_EL0: nat := 1
  const AP_RO_EL0: nat := 3

  /** A table word by its fields: valid bit, output frame, access permission bits 7:6,
      the software copy-on-write mark and the no-execute bit. */
  datatype Entry = Entry(valid: bool, frame: nat, ap: nat, cow: bool, uxn: bool) {
    predicate UserWritable() {
      valid && ap == AP_RW_EL0
    }

    predicate UserReadable() {
      valid && (ap == AP_RW_EL0 || ap == AP_RO_EL0)
    }
  }

  const ZERO: Entry := Entry(false, 0, AP_RW_EL1, false, false)

  datatype Frame = Data(bytes: seq<Byte>) | Table(entries: seq<Entry>)

  function ZeroTable(): Frame {
    Table(seq(ENTRIES, _ => ZERO))
  }

  function ZeroData(): Frame {
    Data(Zeros())
  }

  function Zeros(): (r: seq<Byte>)
    ensures |r| == PAGE_SIZE && forall i :: 0 <= i < PAGE_SIZE ==> r[i] == 0
  {
    seq(PAGE_SIZE, _ => 0)
  }

  /** The word that points to a table: the table's entries alone decide the rights. */
  function TableEntry(frame: nat): (e: Entry)
    ensures e.valid && e.frame == frame && !e.uxn
  {
    Entry(true, frame, AP_RW_EL1, false, false)
  }

  function TopIndex(page: nat): nat { page / 0x4_0000 % ENTRIES }
  function MidIndex(page: nat): nat { page / ENTRIES % ENTRIES }
  function LowIndex(page: nat): nat { page % ENTRIES }

  /** Nine bits of the page number per level, the top ones first. */
  lemma IndexSplit(page: nat)
    requires page < PAGES
    ensures page == (TopIndex(page) * ENTRIES + MidIndex(page)) * ENTRIES + LowIndex(page)
  {
    assert page / 0x4_0000 == page / ENTRIES / ENTRIES;
  }

  lemma IndexInjective(p: nat, q: nat)
    requires p < PAGES && q < PAGES
    requires TopIndex(p) == TopIndex(q) && MidIndex(p) == MidIndex(q) && LowIndex(p) == LowIndex(q)
    ensures p == q
  {
    assert p / 0x4_0000 == p / ENTRIES / ENTRIES;
    assert q / 0x4_0000 == q / ENTRIES / ENTRIES;
    assert p / ENTRIES == q / ENTRIES;
  }

  // ---- walking ----

  function EntryAt(mem: seq<Frame>, table: nat, index: nat): Entry {
    if table < |mem| && mem[table].Table? && index < |mem[table].entries| then mem[table].entries[index] else ZERO
  }

  /** The lowest-level table for `page`, as vmm_get_pte_from_table reaches it. */
  function Walk(mem: seq<Frame>, root: nat, page: nat): Option<nat> {
    var top := EntryAt(mem, root, TopIndex(page));
    if !top.valid then None
    else
      var mid := EntryAt(mem, top.frame, MidIndex(page));
      if !mid.valid then None else Some(mid.frame)
  }

  function LeafAt(mem: seq<Frame>, root: nat, page: nat): Entry {
    var low := Walk(mem, root, page);
    if low.None? then ZERO else EntryAt(mem, low.value, LowIndex(page))
  }

  // ---- the forest ----

  datatype Mm = Mm(pageTable: nat, vmas: seq<Vma>, heapStart: nat, heapEnd: nat, stackStart: nat, mmapBase: nat)

  datatype Key = Key(space: nat, page: nat)

  /** The one place where a table frame hangs. `Dying` tables belong to a space being destroyed. */
  datatype Use = Root(space: nat) | Mid(space: nat, i: nat) | Low(space: nat, i: nat, j: nat) | Dying {
    predicate In(s: nat) {
      !Dying? && space == s
    }

    predicate Owned(mms: map<nat, Mm>) {
      Dying? || space in mms
    }
  }

  ghost predicate TablesOk(mem: seq<Frame>, use: map<nat, Use>) {
    forall f :: f in use ==> f < |mem| && mem[f].Table? && |mem[f].entries| == ENTRIES
  }

  ghost predicate RootsOk(mms: map<nat, Mm>, use: map<nat, Use>) {
    && (forall s :: s in mms ==> mms[s].pageTable in use && use[mms[s].pageTable] == Root(s))
    && (forall f :: f in use && use[f].Root? ==> use[f].space in mms && mms[use[f].space].pageTable == f)
  }

  /** Every valid entry of a root or middle table leads to the table placed there. */
  ghost predicate LinksOk(mem: seq<Frame>, use: map<nat, Use>) {
    && (forall f, i :: f in use && use[f].Root? && 0 <= i < ENTRIES && EntryAt(mem, f, i).valid ==>
          EntryAt(mem, f, i).frame in use && use[EntryAt(mem, f, i).frame] == Mid(use[f].space, i))
    && (forall f, j :: f in use && use[f].Mid? && 0 <= j < ENTRIES && EntryAt(mem, f, j).valid ==>
          EntryAt(mem, f, j).frame in use && use[EntryAt(mem, f, j).frame] == Low(use[f].space, use[f].i, j))
  }

  /** Every middle or lowest table hangs where it is placed. */
  ghost predicate PlacesOk(mem: seq<Frame>, mms: map<nat, Mm>, use: map<nat, Use>) {
    && (forall f :: f in use && use[f].Mid? ==>
          && use[f].space in mms && use[f].i < ENTRIES
          && EntryAt(mem, mms[use[f].space].pageTable, use[f].i) == TableEntry(f))
    && (forall f :: f in use && use[f].Low? ==>
          && use[f].space in mms && use[f].i < ENTRIES && use[f].j < ENTRIES
          && EntryAt(mem, mms[use[f].space].pageTable, use[f].i).valid
          && EntryAt(mem, EntryAt(mem, mms[use[f].space].pageTable, use[f].i).frame, use[f].j) == TableEntry(f))
  }

  ghost predicate Tree(mem: seq<Frame>, mms: map<nat, Mm>, use: map<nat, Use>) {
    TablesOk(mem, use) && RootsOk(mms, use) && LinksOk(mem, use) && PlacesOk(mem, mms, use)
  }

  lemma TablesOwned(mem: seq<Frame>, mms: map<nat, Mm>, use: map<nat, Use>)
    requires Tree(mem, mms, use)
    ensures forall f :: f in use ==> f < |mem| && use[f].Owned(mms)
  {
  }

  /** `leaf` is exactly the set of present user pages of all spaces. */
  ghost predicate Leaves(mem: seq<Frame>, mms: map<nat, Mm>, leaf: map<Key, Entry>) {
    && (forall s, p :: s in mms && 0 <= p < PAGES ==>
          (LeafAt(mem, mms[s].pageTable, p).valid <==> Key(s, p) in leaf))
    && (forall k :: k in leaf ==>
          k.space in mms && k.page < PAGES && leaf[k] == LeafAt(mem, mms[k.space].pageTable, k.page))
  }

  lemma LeavesOwned(mem: seq<Frame>, mms: map<nat, Mm>, leaf: map<Key, Entry>)
    requires Leaves(mem, mms, leaf)
    ensures forall k :: k in leaf ==> k.space in mms && k.page < PAGES
  {
    hide LeafAt;
  }

  lemma WalkUse(mem: seq<Frame>, mms: map<nat, Mm>, use: map<nat, Use>, s: nat, page: nat)
    requires Tree(mem, mms, use) && s in mms
    ensures Walk(mem, mms[s].pageTable, page).Some? ==>
      var low := Walk(mem, mms[s].pageTable, page).value;
      low in use && use[low] == Low(s, TopIndex(page), MidIndex(page))
  {
    var top := EntryAt(mem, mms[s].pageTable, TopIndex(page));
    if top.valid {
      assert use[top.frame] == Mid(s, TopIndex(page));
      var mid := EntryAt(mem, top.frame, MidIndex(page));
      assert mid.valid ==> use[mid.frame] == Low(s, TopIndex(page), MidIndex(page));
    }
  }

  /** Nothing outside the table frames decides a translation. */
  lemma TablesDecide(mem: seq<Frame>, mem': seq<Frame>, mms: map<nat, Mm>, use: map<nat, Use>, leaf: map<Key, Entry>)
    requires Tree(mem, mms, use) && Leaves(mem, mms, leaf)
    requires |mem'| == |mem| && forall f :: f in use ==> mem'[f] == mem[f]
    ensures Tree(mem', mms, use) && Leaves(mem', mms, leaf)
    ensures forall s, p :: s in mms ==> LeafAt(mem', mms[s].pageTable, p) == LeafAt(mem, mms[s].pageTable, p)
  {
    forall f, i | f in use
      ensures EntryAt(mem', f, i) == EntryAt(mem, f, i)
    {
    }
    forall s, p | s in mms
      ensures LeafAt(mem', mms[s].pageTable, p) == LeafAt(mem, mms[s].pageTable, p)
    {
      WalkUse(mem, mms, use, s, p);
    }
  }

  lemma WalksDecided(mem: seq<Frame>, mem': seq<Frame>, mms: map<nat, Mm>, use: map<nat, Use>)
    requires Tree(mem, mms, use)
    requires |mem'| == |mem| && forall f :: f in use ==> mem'[f] == mem[f]
    ensures forall s, p :: s in mms ==> Walk(mem', mms[s].pageTable, p) == Walk(mem, mms[s].pageTable, p)
  {
    forall f, i | f in use
      ensures EntryAt(mem', f, i) == EntryAt(mem, f, i)
    {
    }
    forall s, p: nat | s in mms
      ensures Walk(mem', mms[s].pageTable, p) == Walk(mem, mms[s].pageTable, p)
    {
      WalkUse(mem, mms, use, s, p);
    }
  }

  function WithLeaf(mem: seq<Frame>, low: nat, index: nat, e: Entry): seq<Frame>
    requires low < |mem| && mem[low].Table? && index < |mem[low].entries|
  {
    mem[low := Table(mem[low].entries[index := e])]
  }

  lemma WriteLowTree(mem: seq<Frame>, mms: map<nat, Mm>, use: map<nat, Use>, low: nat, index: nat, e: Entry)
    requires Tree(mem, mms, use)
    requires low in use && use[low].Low? && index < ENTRIES
    ensures Tree(WithLeaf(mem, low, index, e), mms, use)
    ensures forall t, q :: t in mms ==>
      Walk(WithLeaf(mem, low, index, e), mms[t].pageTable, q) == Walk(mem, mms[t].pageTable, q)
  {
    var mem' := WithLeaf(mem, low, index, e);
    forall f, i: nat | f in use && !use[f].Low?
      ensures EntryAt(mem', f, i) == EntryAt(mem, f, i)
    {
    }
    assert TablesOk(mem', use) && LinksOk(mem', use) && PlacesOk(mem', mms, use);
    forall t, q: nat | t in mms
      ensures Walk(mem', mms[t].pageTable, q) == Walk(mem, mms[t].pageTable, q)
    {
      WalkUse(mem, mms, use, t, q);
    }
  }

  lemma WriteLeafAt(mem: seq<Frame>, mms: map<nat, Mm>, use: map<nat, Use>,
                    s: nat, page: nat, low: nat, e: Entry, t: nat, q: nat)
    requires Tree(mem, mms, use)
    requires s in mms && page < PAGES && Walk(mem, mms[s].pageTable, page) == Some(low)
    requires t in mms && q < PAGES
    requires low in use && use[low] == Low(s, TopIndex(page), MidIndex(page))
    ensures
      LeafAt(WithLeaf(mem, low, LowIndex(page), e), mms[t].pageTable, q) ==
      if t == s && q == page then e else LeafAt(mem, mms[t].pageTable, q)
  {
    WriteLowTree(mem, mms, use, low, LowIndex(page), e);
    WalkUse(mem, mms, use, t, q);
    if Walk(mem, mms[t].pageTable, q) == Some(low) && LowIndex(q) == LowIndex(page) {
      IndexInjective(q, page);
    }
  }

  ghost function SetKey(leaf: map<Key, Entry>, k: Key, e: Entry): map<Key, Entry> {
    if e.valid then leaf[k := e] else leaf - {k}
  }

  lemma LeavesChange(mem: seq<Frame>, mem': seq<Frame>, mms: map<nat, Mm>, leaf: map<Key, Entry>, s: nat, page: nat, e: Entry)
    requires Leaves(mem, mms, leaf) && s in mms && page < PAGES
    requires forall t, q: nat :: t in mms && q < PAGES ==>
      LeafAt(mem', mms[t].pageTable, q) == if t == s && q == page then e else LeafAt(mem, mms[t].pageTable, q)
    ensures Leaves(mem', mms, SetKey(leaf, Key(s, page), e))
  {
    var leaf' := SetKey(leaf, Key(s, page), e);
    forall t, q: nat | t in mms && q < PAGES
      ensures LeafAt(mem', mms[t].pageTable, q).valid <==> Key(t, q) in leaf'
    {
      assert LeafAt(mem, mms[t].pageTable, q).valid <==> Key(t, q) in leaf;
    }
    forall k | k in leaf'
      ensures k.space in mms && k.page < PAGES && leaf'[k] == LeafAt(mem', mms[k.space].pageTable, k.page)
    {
      assert k != Key(s, page) ==> k in leaf;
    }
  }

  /** Writing one leaf entry changes the translation of that page of that space and no other. */
  lemma WriteLeaf(mem: seq<Frame>, mms: map<nat, Mm>, use: map<nat, Use>, leaf: map<Key, Entry>,
                  s: nat, page: nat, low: nat, e: Entry)
    requires Tree(mem, mms, use) && Leaves(mem, mms, leaf)
    requires s in mms && page < PAGES && Walk(mem, mms[s].pageTable, page) == Some(low)
    ensures low in use && use[low].Low?
    ensures low < |mem| && mem[low].Table? && |mem[low].entries| == ENTRIES
    ensures Tree(WithLeaf(mem, low, LowIndex(page), e), mms, use)
    ensures Leaves(WithLeaf(mem, low, LowIndex(page), e), mms, SetKey(leaf, Key(s, page), e))
    ensures forall t, q :: t in mms ==>
      Walk(WithLeaf(mem, low, LowIndex(page), e), mms[t].pageTable, q) == Walk(mem, mms[t].pageTable, q)
  {
    WalkUse(mem, mms, use, s, page);
    WriteLowTree(mem, mms, use, low, LowIndex(page), e);
    forall t, q: nat | t in mms && q < PAGES
      ensures LeafAt(WithLeaf(mem, low, LowIndex(page), e), mms[t].pageTable, q) ==
        if t == s && q == page then e else LeafAt(mem, mms[t].pageTable, q)
    {
      WriteLeafAt(mem, mms, use, s, page, low, e, t, q);
    }
    LeavesChange(mem, WithLeaf(mem, low, LowIndex(page), e), mms, leaf, s, page, e);
  }

  /** Where a table hung at `index` of `parent` has its place. */
  ghost function PlaceUnder(use: map<nat, Use>, parent: nat, index: nat): Use
    requires parent in use && (use[parent].Root? || use[parent].Mid?)
  {
    if use[parent].Root? then Mid(use[parent].space, index) else Low(use[parent].space, use[parent].i, index)
  }

  function WithTable(mem: seq<Frame>, parent: nat, index: nat, added: nat): seq<Frame>
    requires parent < |mem| && mem[parent].Table? && index < |mem[parent].entries| && added < |mem| && added != parent
  {
    mem[added := ZeroTable()][parent := Table(mem[parent].entries[index := TableEntry(added)])]
  }

  lemma AddTableTree(mem: seq<Frame>, mms: map<nat, Mm>, use: map<nat, Use>, parent: nat, index: nat, added: nat)
    requires Tree(mem, mms, use)
    requires parent in use && (use[parent].Root? || use[parent].Mid?) && index < ENTRIES
    requires !EntryAt(mem, parent, index).valid
    requires added < |mem| && added !in use
    ensures Tree(WithTable(mem, parent, index, added), mms, use[added := PlaceUnder(use, parent, index)])
    ensures forall f, i :: f in use || f == added ==>
      EntryAt(WithTable(mem, parent, index, added), f, i) ==
      (if f == added then ZERO else if f == parent && i == index then TableEntry(added) else EntryAt(mem, f, i))
  {
    var mem' := WithTable(mem, parent, index, added);
    var use' := use[added := PlaceUnder(use, parent, index)];
    forall f, i: nat | f in use'
      ensures EntryAt(mem', f, i) ==
        if f == added then ZERO else if f == parent && i == index then TableEntry(added) else EntryAt(mem, f, i)
    {
    }
    assert TablesOk(mem', use');
    assert RootsOk(mms, use');
    assert LinksOk(mem', use');
    assert PlacesOk(mem', mms, use');
  }

  /** Hanging a zeroed, so far unused frame at an empty slot of a root or middle table adds a table
      and changes no translation. */
  lemma AddTable(mem: seq<Frame>, mms: map<nat, Mm>, use: map<nat, Use>, leaf: map<Key, Entry>,
                 parent: nat, index: nat, added: nat)
    requires Tree(mem, mms, use) && Leaves(mem, mms, leaf)
    requires parent in use && (use[parent].Root? || use[parent].Mid?) && index < ENTRIES
    requires !EntryAt(mem, parent, index).valid
    requires added < |mem| && added !in use
    ensures parent < |mem| && mem[parent].Table? && |mem[parent].entries| == ENTRIES
    ensures Tree(WithTable(mem, parent, index, added), mms, use[added := PlaceUnder(use, parent, index)])
    ensures Leaves(WithTable(mem, parent, index, added), mms, leaf)
  {
    var mem' := WithTable(mem, parent, index, added);
    var use' := use[added := PlaceUnder(use, parent, index)];
    AddTableTree(mem, mms, use, parent, index, added);
    forall t, q: nat | t in mms
      ensures LeafAt(mem', mms[t].pageTable, q) == LeafAt(mem, mms[t].pageTable, q)
    {
      WalkUse(mem, mms, use, t, q);
      WalkUse(mem', mms, use', t, q);
    }
  }

  lemma AddRootTree(mem: seq<Frame>, mms: map<nat, Mm>, use: map<nat, Use>, s: nat, mm: Mm)
    requires Tree(mem, mms, use)
    requires s !in mms && mm.pageTable < |mem| && mm.pageTable !in use
    ensures Tree(mem[mm.pageTable := ZeroTable()], mms[s := mm], use[mm.pageTable := Root(s)])
  {
    var mem' := mem[mm.pageTable := ZeroTable()];
    var mms', use' := mms[s := mm], use[mm.pageTable := Root(s)];
    forall f, i: nat | f in use'
      ensures EntryAt(mem', f, i) == if f == mm.pageTable then ZERO else EntryAt(mem, f, i)
    {
    }
    assert TablesOk(mem', use');
    assert RootsOk(mms', use');
    assert LinksOk(mem', use');
    assert PlacesOk(mem', mms', use');
  }

  /** A new address space starts with an empty root table. */
  lemma AddRoot(mem: seq<Frame>, mms: map<nat, Mm>, use: map<nat, Use>, leaf: map<Key, Entry>, s: nat, mm: Mm)
    requires Tree(mem, mms, use) && Leaves(mem, mms, leaf)
    requires s !in mms && mm.pageTable < |mem| && mm.pageTable !in use
    ensures Tree(mem[mm.pageTable := ZeroTable()], mms[s := mm], use[mm.pageTable := Root(s)])
    ensures Leaves(mem[mm.pageTable := ZeroTable()], mms[s := mm], leaf)
  {
    RootFrameUsed(mem, mms, use);
    hide Tree, Leaves;
    AddRootTree(mem, mms, use, s, mm);
    TablesDecide(mem, mem[mm.pageTable := ZeroTable()], mms, use, leaf);
    AddRootLeaves(mem[mm.pageTable := ZeroTable()], mms, leaf, s, mm);
  }

  lemma AddRootLeaves(mem: seq<Frame>, mms: map<nat, Mm>, leaf: map<Key, Entry>, s: nat, mm: Mm)
    requires Leaves(mem, mms, leaf) && s !in mms && mm.pageTable < |mem| && mem[mm.pageTable] == ZeroTable()
    ensures Leaves(mem, mms[s := mm], leaf)
  {
    hide LeafAt;
    var mms' := mms[s := mm];
    forall t, q: nat | t in mms' && q < PAGES
      ensures LeafAt(mem, mms'[t].pageTable, q).valid <==> Key(t, q) in leaf
    {
      EmptyRoot(mem, mm.pageTable, q);
    }
  }

  lemma RootFrameUsed(mem: seq<Frame>, mms: map<nat, Mm>, use: map<nat, Use>)
    requires Tree(mem, mms, use)
    ensures forall f :: f in use ==> f < |mem|
  {
  }

  lemma EmptyRoot(mem: seq<Frame>, root: nat, page: nat)
    requires root < |mem| && mem[root] == ZeroTable()
    ensures LeafAt(mem, root, page) == ZERO
  {
    assert EntryAt(mem, root, TopIndex(page)) == ZERO;
  }

  /** The address-space records matter to the tables only through their root frame. */
  lemma SameRoots(mem: seq<Frame>, mms: map<nat, Mm>, mms': map<nat, Mm>, use: map<nat, Use>, leaf: map<Key, Entry>)
    requires Tree(mem, mms, use) && Leaves(mem, mms, leaf)
    requires mms'.Keys == mms.Keys && forall s :: s in mms ==> mms'[s].pageTable == mms[s].pageTable
    ensures Tree(mem, mms', use) && Leaves(mem, mms', leaf)
  {
    assert RootsOk(mms', use);
    assert PlacesOk(mem, mms', use);
  }

  // ---- taking a space down ----

  ghost function Detached(use: map<nat, Use>, s: nat): map<nat, Use> {
    map f | f in use :: if use[f].In(s) then Dying else use[f]
  }

  lemma DetachTree(mem: seq<Frame>, mms: map<nat, Mm>, use: map<nat, Use>, s: nat)
    requires Tree(mem, mms, use) && s in mms
    ensures Tree(mem, mms - {s}, Detached(use, s))
  {
    hide EntryAt;
    var mms', use' := mms - {s}, Detached(use, s);
    assert TablesOk(mem, use');
    assert RootsOk(mms', use');
    assert LinksOk(mem, use');
    assert PlacesOk(mem, mms', use');
  }

  /** A space without present pages can be forgotten; its tables stay allocated until freed. */
  lemma Detach(mem: seq<Frame>, mms: map<nat, Mm>, use: map<nat, Use>, leaf: map<Key, Entry>, s: nat)
    requires Tree(mem, mms, use) && Leaves(mem, mms, leaf) && s in mms
    requires forall k :: k in leaf ==> k.space != s
    ensures Tree(mem, mms - {s}, Detached(use, s)) && Leaves(mem, mms - {s}, leaf)
  {
    hide LeafAt, Tree;
    DetachTree(mem, mms, use, s);
  }

  lemma ForgetDying(mem: seq<Frame>, mms: map<nat, Mm>, use: map<nat, Use>, leaf: map<Key, Entry>, f: nat)
    requires Tree(mem, mms, use) && Leaves(mem, mms, leaf) && f in use && use[f] == Dying
    ensures Tree(mem, mms, use - {f}) && Leaves(mem, mms, leaf)
  {
    var use' := use - {f};
    forall g, i | g in use' && use'[g].Root? && 0 <= i < ENTRIES && EntryAt(mem, g, i).valid
      ensures EntryAt(mem, g, i).frame in use' && use'[EntryAt(mem, g, i).frame] == Mid(use'[g].space, i)
    {
      assert use[EntryAt(mem, g, i).frame] == Mid(use[g].space, i);
    }
  }
}
