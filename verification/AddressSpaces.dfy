/** The state of all user address spaces together, its invariant, and the elementary changes
    kernel/mm/vma.c makes to it: each keeps the invariant. */
module AddressSpaces {
  import opened Base
  import opened Pmm
  import opened Vma
  import opened PageTables

  /** `others` counts references held outside address spaces (boot, kernel, page cache). */
  datatype State = State(
    mem: seq<Frame>,
    counts: seq<nat>,
    others: seq<nat>,
    mms: map<nat, Mm>,
    use: map<nat, Use>,
    leaf: map<Key, Entry>)

  // ---- reference counting ----

  ghost function Mappers(leaf: map<Key, Entry>, f: nat): set<Key> {
    set k | k in leaf && leaf[k].frame == f
  }

  ghost function Refs(use: map<nat, Use>, leaf: map<Key, Entry>, f: nat): nat {
    (if f in use then 1 else 0) + |Mappers(leaf, f)|
  }

  /** Each frame's count is its foreign references plus its use as a table plus the present
      pages that map it. */
  ghost predicate Counted(counts: seq<nat>, others: seq<nat>, use: map<nat, Use>, leaf: map<Key, Entry>) {
    && |others| == |counts|
    && forall f :: 0 <= f < |counts| ==> counts[f] == others[f] + Refs(use, leaf, f)
  }

  lemma MapperAdded(leaf: map<Key, Entry>, k: Key, e: Entry)
    requires k !in leaf
    ensures Mappers(leaf[k := e], e.frame) == Mappers(leaf, e.frame) + {k}
    ensures |Mappers(leaf[k := e], e.frame)| == |Mappers(leaf, e.frame)| + 1
    ensures forall f :: f != e.frame ==> Mappers(leaf[k := e], f) == Mappers(leaf, f)
  {
  }

  lemma MapperRemoved(leaf: map<Key, Entry>, k: Key)
    requires k in leaf
    ensures Mappers(leaf - {k}, leaf[k].frame) == Mappers(leaf, leaf[k].frame) - {k}
    ensures |Mappers(leaf - {k}, leaf[k].frame)| + 1 == |Mappers(leaf, leaf[k].frame)|
    ensures forall f :: f != leaf[k].frame ==> Mappers(leaf - {k}, f) == Mappers(leaf, f)
  {
    assert k in Mappers(leaf, leaf[k].frame);
  }

  lemma MapperKept(leaf: map<Key, Entry>, k: Key, e: Entry)
    requires k in leaf && e.frame == leaf[k].frame
    ensures forall f :: Mappers(leaf[k := e], f) == Mappers(leaf, f)
  {
  }

  // ---- the invariant ----

  /** The list entry covering a page. */
  ghost function Area(mms: map<nat, Mm>, k: Key): Option<Vma> {
    if k.space in mms then Find(mms[k.space].vmas, k.page * PAGE_SIZE) else None
  }

  ghost predicate IsPrivate(mms: map<nat, Mm>, k: Key) {
    Area(mms, k).Some? && !Area(mms, k).value.Has(VMA_SHARED)
  }

  /** Private memory that starts as zeros: the subject of the isolation theorem. */
  ghost predicate IsPrivateAnonymous(mms: map<nat, Mm>, k: Key) {
    IsPrivate(mms, k) && Area(mms, k).value.kind == Anonymous
  }

  /** A frame fit to hold a present page. */
  ghost predicate DataFrame(mem: seq<Frame>, others: seq<nat>, use: map<nat, Use>, f: nat) {
    && f < |mem| && f < |others|
    && f !in use && others[f] == 0
    && mem[f].Data? && |mem[f].bytes| == PAGE_SIZE
  }

  ghost predicate PagesOk(mem: seq<Frame>, others: seq<nat>, use: map<nat, Use>, leaf: map<Key, Entry>) {
    && (forall k :: k in leaf ==> DataFrame(mem, others, use, leaf[k].frame))
    && (forall f :: f in use ==> f < |others| && others[f] == 0)
    && (forall k, l :: k in leaf && l in leaf && leaf[k].frame == leaf[l].frame ==> k.page == l.page)
  }

  ghost predicate EntryOk(mms: map<nat, Mm>, k: Key, e: Entry) {
    && Area(mms, k).Some?
    && var v := Area(mms, k).value;
    && e.valid && (e.ap == AP_RW_EL0 || e.ap == AP_RO_EL0)
    && (e.UserWritable() ==> v.Has(VMA_WRITE) && !e.cow)
    && (v.Has(VMA_WRITE) ==> e.UserWritable() || e.cow)
    && (e.cow ==> !v.Has(VMA_SHARED))
    && (e.uxn <==> !v.Has(VMA_EXEC))
  }

  /** Page permissions match their area, and a writable private page is the only page on its frame. */
  ghost predicate RightsOk(mms: map<nat, Mm>, leaf: map<Key, Entry>) {
    && (forall k :: k in leaf ==> EntryOk(mms, k, leaf[k]))
    && (forall k, l :: k in leaf && l in leaf && k != l && leaf[k].frame == leaf[l].frame ==>
          && IsPrivate(mms, k) == IsPrivate(mms, l)
          && (IsPrivate(mms, k) ==> !leaf[k].UserWritable()))
  }

  ghost predicate MmOk(mm: Mm) {
    ListOk(mm.vmas) && NoDevices(mm.vmas) && mm.mmapBase == USER_MMAP_BASE
  }

  ghost predicate ListsOk(mms: map<nat, Mm>) {
    forall s :: s in mms ==> MmOk(mms[s])
  }

  ghost predicate Inv(st: State) {
    && |st.mem| == |st.counts| == |st.others|
    && Tree(st.mem, st.mms, st.use)
    && Leaves(st.mem, st.mms, st.leaf)
    && Counted(st.counts, st.others, st.use, st.leaf)
    && PagesOk(st.mem, st.others, st.use, st.leaf)
    && RightsOk(st.mms, st.leaf)
    && ListsOk(st.mms)
  }

  /** A frame with a zero count plays no part in any address space. */
  lemma ZeroCountUnused(st: State, f: nat)
    requires Inv(st) && f < |st.counts| && st.counts[f] == 0
    ensures f !in st.use && st.others[f] == 0
    ensures Mappers(st.leaf, f) == {}
    ensures forall k :: k in st.leaf ==> st.leaf[k].frame != f
  {
    assert |Mappers(st.leaf, f)| == 0;
    forall k | k in st.leaf
      ensures st.leaf[k].frame != f
    {
      assert k !in Mappers(st.leaf, f);
    }
  }

  /** A present page or a table frame holds a reference. */
  lemma ReferencedCounted(st: State, f: nat)
    requires Inv(st) && f < |st.counts|
    requires f in st.use || exists k :: k in st.leaf && st.leaf[k].frame == f
    ensures st.counts[f] > 0
  {
    if f !in st.use {
      var k :| k in st.leaf && st.leaf[k].frame == f;
      assert k in Mappers(st.leaf, f);
    }
  }

  /** A frame is mapped at most once in each address space, so sharers are bounded by spaces. */
  lemma SharersBounded(st: State, f: nat, spaces: set<nat>)
    requires Inv(st)
    requires forall k :: k in st.leaf && st.leaf[k].frame == f ==> k.space in spaces
    ensures |Mappers(st.leaf, f)| <= |spaces|
  {
    var keys := Mappers(st.leaf, f);
    var used := set k | k in keys :: k.space;
    InjectiveImage(keys, used);
    SubsetSize(used, spaces);
  }

  lemma {:induction false} InjectiveImage(keys: set<Key>, image: set<nat>)
    requires image == set k | k in keys :: k.space
    requires forall k, l :: k in keys && l in keys && k.space == l.space ==> k == l
    ensures |keys| == |image|
  {
    if keys != {} {
      var k :| k in keys;
      InjectiveImage(keys - {k}, image - {k.space});
    }
  }

  // ---- effects on the parts of the invariant ----

  lemma CountedAdd(counts: seq<nat>, others: seq<nat>, use: map<nat, Use>, leaf: map<Key, Entry>, k: Key, e: Entry)
    requires Counted(counts, others, use, leaf) && k !in leaf && e.frame < |counts|
    ensures Counted(counts[e.frame := counts[e.frame] + 1], others, use, leaf[k := e])
  {
    MapperAdded(leaf, k, e);
  }

  /** pmm_inc_ref keeps the count exact if and only if the frame has fewer than 255 references. */
  lemma SaturationIff(counts: seq<nat>, others: seq<nat>, use: map<nat, Use>, leaf: map<Key, Entry>, k: Key, e: Entry)
    requires Counted(counts, others, use, leaf) && k !in leaf && e.frame < |counts| && counts[e.frame] <= MAX_REF
    ensures Counted(counts[e.frame := if counts[e.frame] < MAX_REF then counts[e.frame] + 1 else MAX_REF], others, use, leaf[k := e])
      <==> counts[e.frame] < MAX_REF
  {
    MapperAdded(leaf, k, e);
    if counts[e.frame] == MAX_REF {
      assert counts[e.frame := MAX_REF][e.frame] != others[e.frame] + Refs(use, leaf[k := e], e.frame);
    } else {
      CountedAdd(counts, others, use, leaf, k, e);
    }
  }

  lemma CountedRemove(counts: seq<nat>, others: seq<nat>, use: map<nat, Use>, leaf: map<Key, Entry>, k: Key)
    requires Counted(counts, others, use, leaf) && k in leaf && leaf[k].frame < |counts|
    ensures counts[leaf[k].frame] > 0
    ensures Counted(counts[leaf[k].frame := counts[leaf[k].frame] - 1], others, use, leaf - {k})
  {
    MapperRemoved(leaf, k);
  }

  lemma CountedKept(counts: seq<nat>, others: seq<nat>, use: map<nat, Use>, leaf: map<Key, Entry>, k: Key, e: Entry)
    requires Counted(counts, others, use, leaf) && k in leaf && e.frame == leaf[k].frame
    ensures Counted(counts, others, use, leaf[k := e])
  {
    MapperKept(leaf, k, e);
  }

  lemma CountedTable(counts: seq<nat>, others: seq<nat>, use: map<nat, Use>, leaf: map<Key, Entry>, f: nat, u: Use)
    requires Counted(counts, others, use, leaf) && f < |counts| && f !in use
    ensures Counted(counts[f := counts[f] + 1], others, use[f := u], leaf)
  {
  }

  lemma PagesOkMem(mem: seq<Frame>, mem': seq<Frame>, others: seq<nat>, use: map<nat, Use>, leaf: map<Key, Entry>)
    requires PagesOk(mem, others, use, leaf) && |mem'| == |mem|
    requires forall k :: k in leaf ==> DataFrame(mem', others, use, leaf[k].frame)
    ensures PagesOk(mem', others, use, leaf)
  {
  }

  lemma PagesOkAdd(mem: seq<Frame>, others: seq<nat>, use: map<nat, Use>, leaf: map<Key, Entry>, k: Key, e: Entry)
    requires PagesOk(mem, others, use, leaf)
    requires DataFrame(mem, others, use, e.frame)
    requires forall l :: l in leaf && leaf[l].frame == e.frame ==> l.page == k.page
    ensures PagesOk(mem, others, use, leaf[k := e])
  {
  }

  lemma RemovalOk(mem: seq<Frame>, others: seq<nat>, use: map<nat, Use>, mms: map<nat, Mm>, leaf: map<Key, Entry>, k: Key)
    requires PagesOk(mem, others, use, leaf) && RightsOk(mms, leaf)
    ensures PagesOk(mem, others, use, leaf - {k}) && RightsOk(mms, leaf - {k})
  {
  }

  lemma PagesOkUse(mem: seq<Frame>, others: seq<nat>, use: map<nat, Use>, leaf: map<Key, Entry>, f: nat, u: Use)
    requires PagesOk(mem, others, use, leaf)
    requires f < |others| && others[f] == 0 && forall k :: k in leaf ==> leaf[k].frame != f
    ensures PagesOk(mem, others, use[f := u], leaf)
  {
  }

  lemma PagesOkTable(mem: seq<Frame>, others: seq<nat>, use: map<nat, Use>, leaf: map<Key, Entry>,
                     parent: nat, index: nat, added: nat, u: Use)
    requires PagesOk(mem, others, use, leaf)
    requires parent in use && parent < |mem| && mem[parent].Table? && index < |mem[parent].entries|
    requires added < |others| && added < |mem| && added != parent && others[added] == 0
    requires forall k :: k in leaf ==> leaf[k].frame != added
    ensures PagesOk(WithTable(mem, parent, index, added), others, use[added := u], leaf)
  {
    PagesOkUse(mem, others, use, leaf, added, u);
    forall k | k in leaf
      ensures DataFrame(WithTable(mem, parent, index, added), others, use[added := u], leaf[k].frame)
    {
    }
  }

  lemma RightsOkAdd(mms: map<nat, Mm>, leaf: map<Key, Entry>, k: Key, e: Entry)
    requires RightsOk(mms, leaf) && EntryOk(mms, k, e)
    requires forall l :: l in leaf && l != k && leaf[l].frame == e.frame ==>
      && IsPrivate(mms, l) == IsPrivate(mms, k)
      && (IsPrivate(mms, k) ==> !e.UserWritable() && !leaf[l].UserWritable())
    ensures RightsOk(mms, leaf[k := e])
  {
  }

  lemma RightsOkMms(mms: map<nat, Mm>, mms': map<nat, Mm>, leaf: map<Key, Entry>)
    requires RightsOk(mms, leaf)
    requires forall k :: k in leaf ==> SameRights(Area(mms', k), Area(mms, k))
    ensures RightsOk(mms', leaf)
  {
    forall k | k in leaf
      ensures EntryOk(mms', k, leaf[k]) && IsPrivate(mms', k) == IsPrivate(mms, k)
    {
      assert EntryOk(mms, k, leaf[k]);
    }
  }

  /** What the invariant says about one present page. */
  lemma PresentPage(st: State, k: Key)
    requires Inv(st) && k in st.leaf
    ensures k.space in st.mms && k.page < PAGES
    ensures DataFrame(st.mem, st.others, st.use, st.leaf[k].frame)
    ensures EntryOk(st.mms, k, st.leaf[k])
    ensures forall l :: l in st.leaf && st.leaf[l].frame == st.leaf[k].frame ==> l.page == k.page
    ensures forall l :: l in st.leaf && l != k && st.leaf[l].frame == st.leaf[k].frame ==>
      && IsPrivate(st.mms, l) == IsPrivate(st.mms, k)
      && (IsPrivate(st.mms, k) ==> !st.leaf[l].UserWritable() && !st.leaf[k].UserWritable())
  {
    hide Tree, Counted, ListsOk, IsPrivate, Walk, LeafAt;
    LeavesOwned(st.mem, st.mms, st.leaf);
  }

  // ---- elementary changes ----

  /** Writing a leaf entry touches no data frame. */
  lemma PagesOkLeafWrite(mem: seq<Frame>, others: seq<nat>, use: map<nat, Use>, leaf: map<Key, Entry>, low: nat, index: nat, e: Entry)
    requires PagesOk(mem, others, use, leaf)
    requires low in use && low < |mem| && mem[low].Table? && index < |mem[low].entries|
    ensures PagesOk(WithLeaf(mem, low, index, e), others, use, leaf)
  {
    forall k | k in leaf
      ensures DataFrame(WithLeaf(mem, low, index, e), others, use, leaf[k].frame)
    {
    }
  }

  lemma KeepAddTable(st: State, parent: nat, index: nat, added: nat)
    requires Inv(st)
    requires parent in st.use && (st.use[parent].Root? || st.use[parent].Mid?) && index < ENTRIES
    requires !EntryAt(st.mem, parent, index).valid
    requires added < |st.mem| && st.counts[added] == 0
    ensures added !in st.use
    ensures parent < |st.mem| && st.mem[parent].Table? && |st.mem[parent].entries| == ENTRIES
    ensures Inv(st.(mem := WithTable(st.mem, parent, index, added),
                    counts := st.counts[added := 1],
                    use := st.use[added := PlaceUnder(st.use, parent, index)]))
  {
    hide Tree, Leaves, Counted, PagesOk, RightsOk, ListsOk;
    ZeroCountUnused(st, added);
    AddTable(st.mem, st.mms, st.use, st.leaf, parent, index, added);
    CountedTable(st.counts, st.others, st.use, st.leaf, added, PlaceUnder(st.use, parent, index));
    PagesOkTable(st.mem, st.others, st.use, st.leaf, parent, index, added, PlaceUnder(st.use, parent, index));
  }

  lemma KeepAddRoot(st: State, s: nat, mm: Mm)
    requires Inv(st) && s !in st.mms && MmOk(mm)
    requires mm.pageTable < |st.mem| && st.counts[mm.pageTable] == 0
    ensures Inv(st.(mem := st.mem[mm.pageTable := ZeroTable()],
                    counts := st.counts[mm.pageTable := 1],
                    mms := st.mms[s := mm],
                    use := st.use[mm.pageTable := Root(s)]))
  {
    hide Tree, Leaves, Counted, RightsOk;
    var f := mm.pageTable;
    ZeroCountUnused(st, f);
    AddRoot(st.mem, st.mms, st.use, st.leaf, s, mm);
    CountedTable(st.counts, st.others, st.use, st.leaf, f, Root(s));
    PagesOkUse(st.mem, st.others, st.use, st.leaf, f, Root(s));
    PagesOkMem(st.mem, st.mem[f := ZeroTable()], st.others, st.use[f := Root(s)], st.leaf);
    forall k | k in st.leaf
      ensures Area(st.mms[s := mm], k) == Area(st.mms, k)
    {
      PresentPage(st, k);
    }
    RightsOkMms(st.mms, st.mms[s := mm], st.leaf);
  }

  /** Replacing one area list by another that grants every present page the same rights. */
  lemma KeepSetVmas(st: State, s: nat, mm: Mm)
    requires Inv(st) && s in st.mms && MmOk(mm) && mm.pageTable == st.mms[s].pageTable
    requires forall k :: k in st.leaf && k.space == s ==>
      SameRights(Find(mm.vmas, k.page * PAGE_SIZE), Find(st.mms[s].vmas, k.page * PAGE_SIZE))
    ensures Inv(st.(mms := st.mms[s := mm]))
  {
    SameRoots(st.mem, st.mms, st.mms[s := mm], st.use, st.leaf);
    RightsOkMms(st.mms, st.mms[s := mm], st.leaf);
  }

  /** Writing a frame no table and no page uses. */
  lemma KeepFillUnused(st: State, f: nat, content: Frame)
    requires Inv(st) && f < |st.mem| && st.counts[f] == 0
    ensures Inv(st.(mem := st.mem[f := content]))
    ensures forall s, p :: s in st.mms ==>
      Walk(st.mem[f := content], st.mms[s].pageTable, p) == Walk(st.mem, st.mms[s].pageTable, p)
  {
    ZeroCountUnused(st, f);
    var mem' := st.mem[f := content];
    TablesDecide(st.mem, mem', st.mms, st.use, st.leaf);
    PagesOkMem(st.mem, mem', st.others, st.use, st.leaf);
    WalksDecided(st.mem, mem', st.mms, st.use);
  }

  /** Installing a page on a frame nobody uses yet. */
  lemma KeepMapPage(st: State, k: Key, low: nat, e: Entry)
    requires Inv(st) && k.space in st.mms && k.page < PAGES && k !in st.leaf
    requires Walk(st.mem, st.mms[k.space].pageTable, k.page) == Some(low)
    requires EntryOk(st.mms, k, e) && e.frame < |st.mem| && st.counts[e.frame] == 0
    requires st.mem[e.frame].Data? && |st.mem[e.frame].bytes| == PAGE_SIZE
    ensures low in st.use && low != e.frame && low < |st.mem| && st.mem[low].Table? && |st.mem[low].entries| == ENTRIES
    ensures Inv(st.(mem := WithLeaf(st.mem, low, LowIndex(k.page), e),
                    counts := st.counts[e.frame := 1],
                    leaf := st.leaf[k := e]))
  {
    hide Tree, Leaves, Counted, PagesOk, RightsOk, ListsOk;
    ZeroCountUnused(st, e.frame);
    WriteLeaf(st.mem, st.mms, st.use, st.leaf, k.space, k.page, low, e);
    CountedAdd(st.counts, st.others, st.use, st.leaf, k, e);
    PagesOkAdd(st.mem, st.others, st.use, st.leaf, k, e);
    PagesOkLeafWrite(st.mem, st.others, st.use, st.leaf[k := e], low, LowIndex(k.page), e);
    RightsOkAdd(st.mms, st.leaf, k, e);
  }

  /** Giving a page a frame of its own and dropping its reference to the shared one. */
  lemma KeepMovePage(st: State, k: Key, low: nat, e: Entry)
    requires Inv(st) && k in st.leaf
    requires Walk(st.mem, st.mms[k.space].pageTable, k.page) == Some(low)
    requires EntryOk(st.mms, k, e) && e.frame < |st.mem| && st.counts[e.frame] == 0
    requires st.mem[e.frame].Data? && |st.mem[e.frame].bytes| == PAGE_SIZE
    ensures low in st.use && low != e.frame && low < |st.mem| && st.mem[low].Table? && |st.mem[low].entries| == ENTRIES
    ensures e.frame != st.leaf[k].frame < |st.counts| && st.counts[st.leaf[k].frame] > 0
    ensures Inv(st.(mem := WithLeaf(st.mem, low, LowIndex(k.page), e),
                    counts := st.counts[e.frame := 1][st.leaf[k].frame := st.counts[st.leaf[k].frame] - 1],
                    leaf := st.leaf[k := e]))
  {
    hide Tree, Leaves, Counted, PagesOk, RightsOk, ListsOk;
    PresentPage(st, k);
    KeepClearPage(st, k, low);
    var cleared := st.(mem := WithLeaf(st.mem, low, LowIndex(k.page), ZERO),
                       counts := st.counts[st.leaf[k].frame := st.counts[st.leaf[k].frame] - 1],
                       leaf := st.leaf - {k});
    ZeroCountUnused(st, e.frame);
    WriteLeaf(st.mem, st.mms, st.use, st.leaf, k.space, k.page, low, ZERO);
    KeepMapPage(cleared, k, low, e);
    var entries, i := st.mem[low].entries, LowIndex(k.page);
    assert entries[i := ZERO][i := e] == entries[i := e];
    assert WithLeaf(cleared.mem, low, LowIndex(k.page), e) == WithLeaf(st.mem, low, LowIndex(k.page), e);
    assert cleared.leaf[k := e] == st.leaf[k := e];
    assert cleared.counts[e.frame := 1] ==
      st.counts[e.frame := 1][st.leaf[k].frame := st.counts[st.leaf[k].frame] - 1];
  }

  /** Filling an unused frame and mapping it. */
  lemma KeepDemand(st: State, k: Key, low: nat, content: Frame, e: Entry)
    requires Inv(st) && k.space in st.mms && k.page < PAGES && k !in st.leaf
    requires Walk(st.mem, st.mms[k.space].pageTable, k.page) == Some(low)
    requires EntryOk(st.mms, k, e) && e.frame < |st.mem| && st.counts[e.frame] == 0
    requires content.Data? && |content.bytes| == PAGE_SIZE
    ensures low in st.use && low != e.frame && low < |st.mem| && st.mem[low].Table? && |st.mem[low].entries| == ENTRIES
    ensures Inv(st.(mem := WithLeaf(st.mem[e.frame := content], low, LowIndex(k.page), e),
                    counts := st.counts[e.frame := 1],
                    leaf := st.leaf[k := e]))
  {
    hide Inv, Walk, EntryOk;
    KeepFillUnused(st, e.frame, content);
    KeepMapPage(st.(mem := st.mem[e.frame := content]), k, low, e);
  }

  /** Copying a page to an unused frame and remapping it there. */
  lemma InvSizes(st: State)
    requires Inv(st)
    ensures |st.mem| == |st.counts| == |st.others|
  {
  }

  lemma KeepCopy(st: State, k: Key, low: nat, e: Entry)
    requires Inv(st) && k in st.leaf
    requires Walk(st.mem, st.mms[k.space].pageTable, k.page) == Some(low)
    requires EntryOk(st.mms, k, e) && e.frame < |st.mem| && st.counts[e.frame] == 0
    ensures low in st.use && low != e.frame && low < |st.mem| && st.mem[low].Table? && |st.mem[low].entries| == ENTRIES
    ensures e.frame != st.leaf[k].frame < |st.counts| && st.counts[st.leaf[k].frame] > 0
    ensures st.leaf[k].frame < |st.mem|
    ensures Inv(st.(mem := WithLeaf(st.mem[e.frame := st.mem[st.leaf[k].frame]], low, LowIndex(k.page), e),
                    counts := st.counts[e.frame := 1][st.leaf[k].frame := st.counts[st.leaf[k].frame] - 1],
                    leaf := st.leaf[k := e]))
  {
    hide Inv, Walk, EntryOk, IsPrivate, Mappers;
    InvSizes(st);
    PresentPage(st, k);
    KeepFillUnused(st, e.frame, st.mem[st.leaf[k].frame]);
    KeepMovePage(st.(mem := st.mem[e.frame := st.mem[st.leaf[k].frame]]), k, low, e);
  }

  lemma KeepClearPage(st: State, k: Key, low: nat)
    requires Inv(st) && k in st.leaf
    requires Walk(st.mem, st.mms[k.space].pageTable, k.page) == Some(low)
    ensures low in st.use && low < |st.mem| && st.mem[low].Table? && |st.mem[low].entries| == ENTRIES
    ensures st.leaf[k].frame < |st.counts| && st.counts[st.leaf[k].frame] > 0
    ensures Inv(st.(mem := WithLeaf(st.mem, low, LowIndex(k.page), ZERO),
                    counts := st.counts[st.leaf[k].frame := st.counts[st.leaf[k].frame] - 1],
                    leaf := st.leaf - {k}))
  {
    hide Tree, Leaves, Counted, PagesOk, RightsOk, ListsOk;
    PresentPage(st, k);
    WriteLeaf(st.mem, st.mms, st.use, st.leaf, k.space, k.page, low, ZERO);
    CountedRemove(st.counts, st.others, st.use, st.leaf, k);
    RemovalOk(st.mem, st.others, st.use, st.mms, st.leaf, k);
    PagesOkLeafWrite(st.mem, st.others, st.use, st.leaf - {k}, low, LowIndex(k.page), ZERO);
  }

  /** Rewriting the permissions of a present page without making it writable. */
  lemma KeepProtect(st: State, k: Key, low: nat, e: Entry)
    requires Inv(st) && k in st.leaf
    requires Walk(st.mem, st.mms[k.space].pageTable, k.page) == Some(low)
    requires e.frame == st.leaf[k].frame && EntryOk(st.mms, k, e) && !e.UserWritable()
    ensures low in st.use && low < |st.mem| && st.mem[low].Table? && |st.mem[low].entries| == ENTRIES
    ensures Inv(st.(mem := WithLeaf(st.mem, low, LowIndex(k.page), e), leaf := st.leaf[k := e]))
    ensures forall t, q :: t in st.mms ==>
      Walk(WithLeaf(st.mem, low, LowIndex(k.page), e), st.mms[t].pageTable, q) == Walk(st.mem, st.mms[t].pageTable, q)
  {
    hide Tree, Leaves, Counted, PagesOk, RightsOk, ListsOk;
    PresentPage(st, k);
    WriteLeaf(st.mem, st.mms, st.use, st.leaf, k.space, k.page, low, e);
    CountedKept(st.counts, st.others, st.use, st.leaf, k, e);
    PagesOkAdd(st.mem, st.others, st.use, st.leaf, k, e);
    PagesOkLeafWrite(st.mem, st.others, st.use, st.leaf[k := e], low, LowIndex(k.page), e);
    RightsOkAdd(st.mms, st.leaf, k, e);
  }

  /** Mapping in another space, at the same page, the frame of a page that no private page may write. */
  lemma KeepSharePage(st: State, k: Key, l: Key, low: nat)
    requires Inv(st) && k in st.leaf && l !in st.leaf && l.page == k.page && l.space in st.mms
    requires Walk(st.mem, st.mms[l.space].pageTable, l.page) == Some(low)
    requires SameRights(Area(st.mms, l), Area(st.mms, k))
    requires IsPrivate(st.mms, k) ==> !st.leaf[k].UserWritable()
    ensures low in st.use && low < |st.mem| && st.mem[low].Table? && |st.mem[low].entries| == ENTRIES
    ensures st.leaf[k].frame < |st.counts|
    ensures Inv(st.(mem := WithLeaf(st.mem, low, LowIndex(l.page), st.leaf[k]),
                    counts := st.counts[st.leaf[k].frame := st.counts[st.leaf[k].frame] + 1],
                    leaf := st.leaf[l := st.leaf[k]]))
  {
    hide Tree, Leaves, Counted, RightsOk, PagesOk, ListsOk, Walk;
    PresentPage(st, k);
    var e := st.leaf[k];
    assert EntryOk(st.mms, k, e);
    assert DataFrame(st.mem, st.others, st.use, e.frame);
    WriteLeaf(st.mem, st.mms, st.use, st.leaf, l.space, l.page, low, e);
    CountedAdd(st.counts, st.others, st.use, st.leaf, l, e);
    PagesOkAdd(st.mem, st.others, st.use, st.leaf, l, e);
    PagesOkLeafWrite(st.mem, st.others, st.use, st.leaf[l := e], low, LowIndex(l.page), e);
    RightsOkAdd(st.mms, st.leaf, l, e);
  }

  /** A user store to a present page. */
  lemma KeepStore(st: State, k: Key, offset: nat, b: Byte)
    requires Inv(st) && k in st.leaf && offset < PAGE_SIZE
    ensures DataFrame(st.mem, st.others, st.use, st.leaf[k].frame)
    ensures var f := st.leaf[k].frame;
      Inv(st.(mem := st.mem[f := Data(st.mem[f].bytes[offset := b])]))
  {
    hide Tree, Leaves, Counted, RightsOk, ListsOk;
    PresentPage(st, k);
    var f := st.leaf[k].frame;
    var mem' := st.mem[f := Data(st.mem[f].bytes[offset := b])];
    forall l | l in st.leaf
      ensures DataFrame(mem', st.others, st.use, st.leaf[l].frame)
    {
      assert DataFrame(st.mem, st.others, st.use, st.leaf[l].frame);
    }
    TablesDecide(st.mem, mem', st.mms, st.use, st.leaf);
    PagesOkMem(st.mem, mem', st.others, st.use, st.leaf);
  }

  lemma KeepDetach(st: State, s: nat)
    requires Inv(st) && s in st.mms
    requires forall k :: k in st.leaf ==> k.space != s
    ensures Inv(st.(mms := st.mms - {s}, use := Detached(st.use, s)))
  {
    Detach(st.mem, st.mms, st.use, st.leaf, s);
    RightsOkMms(st.mms, st.mms - {s}, st.leaf);
    forall f | 0 <= f < |st.counts|
      ensures Refs(Detached(st.use, s), st.leaf, f) == Refs(st.use, st.leaf, f)
    {
    }
  }

  lemma KeepFreeTable(st: State, f: nat)
    requires Inv(st) && f in st.use && st.use[f] == Dying
    ensures f < |st.counts| && st.counts[f] > 0
    ensures Inv(st.(counts := st.counts[f := st.counts[f] - 1], use := st.use - {f}))
  {
    assert f < |st.mem|;
    ReferencedCounted(st, f);
    ForgetDying(st.mem, st.mms, st.use, st.leaf, f);
    forall k | k in st.leaf
      ensures DataFrame(st.mem, st.others, st.use - {f}, st.leaf[k].frame)
    {
    }
  }
}
