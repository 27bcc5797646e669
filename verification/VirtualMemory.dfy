/** The operations of kernel/mm/vma.c on any number of address spaces, over the frame allocator and
    the table walks. Whether the kernel heap has room is an input. */
module VirtualMemory {
  import opened Base
  import opened Pmm
  import opened Vma
  import opened PageTables
  import opened AddressSpaces
  import opened Isolation
  import opened MemorySteps

  class Machine {
    const pmm: FrameAllocator
    var mem: seq<Frame>
    var mms: map<nat, Mm>
    ghost var others: seq<nat>
    ghost var use: map<nat, Use>
    ghost var leaf: map<Key, Entry>
    ghost var history: History

    ghost function St(): State
      reads this, pmm, pmm.refCounts
    {
      State(mem, pmm.Counts(), others, mms, use, leaf)
    }

    /** Allocator, tables, counts, pages and permissions agree. */
    ghost predicate Consistent()
      reads this, pmm, pmm.frameStack, pmm.refCounts
    {
      pmm.Valid() && Inv(St()) && forall f :: f in use ==> !use[f].Dying?
    }

    /** In addition, private anonymous memory shows what the history of the run says it must. */
    ghost predicate Valid()
      reads this, pmm, pmm.frameStack, pmm.refCounts
    {
      Consistent() && Faithful(history, St())
    }

    /** A machine with no address spaces, taking over the allocator as the boot code left it. */
    constructor (allocator: FrameAllocator)
      requires allocator.Valid()
      ensures Valid() && mms == map[] && history == [] && pmm == allocator && others == allocator.Counts()
    {
      pmm := allocator;
      mem := seq(allocator.totalFrames, _ => ZeroData());
      mms, use, leaf, history := map[], map[], map[], [];
      others := allocator.Counts();
      new;
      assert forall f: nat :: Mappers(leaf, f) == {};
    }

    // ---- table walks with allocation ----

    /** One level of vmm_get_pte_from_table_alloc: a zeroed frame is hung into an empty slot. */
    method AllocTable(parent: nat, index: nat) returns (ok: bool, ghost added: nat)
      requires Consistent()
      requires parent in use && (use[parent].Root? || use[parent].Mid?) && index < ENTRIES
      requires !EntryAt(mem, parent, index).valid
      modifies this`mem, this`use, pmm, pmm.frameStack, pmm.refCounts
      ensures Consistent() && pmm.marked == old(pmm.marked)
      ensures SameData(old(mem), mem, leaf)
      ensures ok ==>
        && added !in old(use) && use == old(use)[added := PlaceUnder(old(use), parent, index)]
        && EntryAt(mem, parent, index) == TableEntry(added)
        && (forall f, i :: f in old(use) && f != parent ==> EntryAt(mem, f, i) == old(EntryAt(mem, f, i)))
        && pmm.stackTop == old(pmm.stackTop) - 1
      ensures EntriesStay(old(mem), mem, old(use)) && old(use).Keys <= use.Keys
      ensures !ok ==> use == old(use) && mem == old(mem) && pmm.Counts() == old(pmm.Counts()) && pmm.stackTop == old(pmm.stackTop) == 0
    {
      hide Inv, FreeListOk;
      ghost var st := St();
      added := 0;
      PagesOwned(st);
      var phys := pmm.AllocFrame();
      if phys == 0 {
        return false, 0;
      }
      var frame := pmm.PhysToIndex(phys).value;
      KeepAddTable(st, parent, index, frame);
      TableKeepsData(st, parent, index, frame);
      mem := mem[frame := ZeroTable()];
      mem := mem[parent := Table(mem[parent].entries[index := TableEntry(frame)])];
      use := use[frame := PlaceUnder(use, parent, index)];
      assert St() == st.(mem := WithTable(st.mem, parent, index, frame), counts := st.counts[frame := 1], use := use);
      return true, frame;
    }

    /** vmm_get_pte_from_table_alloc: the lowest-level table for the page, with missing tables made. */
    method PteAlloc(s: nat, page: nat) returns (low: Option<nat>)
      requires Consistent() && s in mms && page < PAGES
      modifies this`mem, this`use, pmm, pmm.frameStack, pmm.refCounts
      ensures Consistent() && pmm.marked == old(pmm.marked)
      ensures SameData(old(mem), mem, leaf)
      ensures Outside(St(), s) == old(Outside(St(), s))
      ensures EntriesStay(old(mem), mem, old(use)) && pmm.stackTop <= old(pmm.stackTop)
      ensures low.Some? ==> Walk(mem, mms[s].pageTable, page) == low
      ensures low.None? ==> pmm.stackTop == 0
    {
      hide Inv, FreeListOk;
      var root := mms[s].pageTable;
      WalkTables(St(), s, TopIndex(page));
      if !EntryAt(mem, root, TopIndex(page)).valid {
        ghost var st := St();
        var ok, f := AllocTable(root, TopIndex(page));
        if !ok {
          return None;
        }
        OutsideUse(st, St(), s, f, Mid(s, TopIndex(page)));
      }
      WalkTables(St(), s, TopIndex(page));
      var l2 := EntryAt(mem, root, TopIndex(page)).frame;
      if !EntryAt(mem, l2, MidIndex(page)).valid {
        ghost var st := St();
        var ok, f := AllocTable(l2, MidIndex(page));
        if !ok {
          return None;
        }
        OutsideUse(st, St(), s, f, Low(s, TopIndex(page), MidIndex(page)));
      }
      return Some(EntryAt(mem, l2, MidIndex(page)).frame);
    }

    /** One round of the FREE_PAGES loop. */
    method FreePage(s: nat, page: nat)
      requires Consistent() && s in mms && page < PAGES
      modifies this`mem, this`leaf, pmm, pmm.frameStack, pmm.refCounts
      ensures Consistent() && pmm.marked == old(pmm.marked)
      ensures leaf == old(leaf) - {Key(s, page)}
      ensures SameData(old(mem), mem, leaf)
    {
      hide Inv, FreeListOk;
      PresentIff(St(), s, page);
      var low := Walk(mem, mms[s].pageTable, page);
      if low.Some? && EntryAt(mem, low.value, LowIndex(page)).valid {
        ghost var st := St();
        ghost var k := Key(s, page);
        KeepClearPage(st, k, low.value);
        ClearKeepsData(st, k, low.value, LowIndex(page));
        var frame := EntryAt(mem, low.value, LowIndex(page)).frame;
        pmm.LiveNotFree(frame);
        pmm.FreeFrame(IndexToPhys(frame));
        mem := WithLeaf(mem, low.value, LowIndex(page), ZERO);
        leaf := leaf - {k};
        assert St() == st.(mem := mem, counts := st.counts[frame := st.counts[frame] - 1], leaf := leaf);
      }
    }

    /** FREE_PAGES: drops every present page whose address lies in [lo, hi). */
    method FreePages(s: nat, lo: nat, hi: nat)
      requires Consistent() && s in mms
      requires lo % PAGE_SIZE == 0 && hi % PAGE_SIZE == 0 && lo <= hi <= USER_SPACE_END
      modifies this`mem, this`leaf, pmm, pmm.frameStack, pmm.refCounts
      ensures Consistent() && pmm.marked == old(pmm.marked)
      ensures leaf == Without(old(leaf), s, lo, hi)
      ensures SameData(old(mem), mem, leaf)
    {
      hide Inv, FreeListOk;
      var addr := lo;
      assert leaf == Without(leaf, s, lo, lo);
      while addr < hi
        invariant lo <= addr <= hi && addr % PAGE_SIZE == 0
        invariant Consistent() && pmm.marked == old(pmm.marked)
        invariant leaf == Without(old(leaf), s, lo, addr)
        invariant SameData(old(mem), mem, leaf)
      {
        FreePage(s, addr / PAGE_SIZE);
        WithoutNext(old(leaf), s, lo, addr);
        addr := addr + PAGE_SIZE;
      }
    }

    /** One pmm_free_frame of a table of a detached space. */
    method FreeTable(frame: nat)
      requires pmm.Valid() && Inv(St()) && frame in use && use[frame].Dying?
      modifies this`use, pmm, pmm.frameStack, pmm.refCounts
      ensures pmm.Valid() && Inv(St()) && pmm.marked == old(pmm.marked)
      ensures use == old(use) - {frame}
    {
      hide Inv, FreeListOk;
      ghost var st := St();
      PagesOwned(st);
      KeepFreeTable(st, frame);
      pmm.LiveNotFree(frame);
      pmm.FreeFrame(IndexToPhys(frame));
      use := use - {frame};
      assert St() == st.(counts := st.counts[frame := st.counts[frame] - 1], use := use);
    }

    /** The inner loop of mm_destroy over one middle table. */
    method FreeLowTables(ghost use0: map<nat, Use>, ghost mms0: map<nat, Mm>, ghost s: nat, i: nat, l2: nat)
      requires pmm.Valid() && Inv(St())
      requires Tree(mem, mms0, use0) && s in mms0 && i < ENTRIES
      requires l2 in use0 && use0[l2] == Mid(s, i) && EntryAt(mem, mms0[s].pageTable, i) == TableEntry(l2)
      requires use == UseLeft(use0, s, i, 0)
      modifies this`use, pmm, pmm.frameStack, pmm.refCounts
      ensures pmm.Valid() && Inv(St()) && pmm.marked == old(pmm.marked)
      ensures use == UseLeft(use0, s, i, ENTRIES)
    {
      hide Inv, FreeListOk, Tree, UseLeft;
      var j := 0;
      while j < ENTRIES
        invariant 0 <= j <= ENTRIES
        invariant pmm.Valid() && Inv(St()) && pmm.marked == old(pmm.marked)
        invariant use == UseLeft(use0, s, i, j)
      {
        UseLeftLow(mem, mms0, use0, s, i, l2, j);
        var e := EntryAt(mem, l2, j);
        if e.valid {
          FreeTable(e.frame);
        }
        j := j + 1;
      }
    }

    /** The table loops of mm_destroy: every table of the space is freed, each once. */
    method FreeTables(ghost use0: map<nat, Use>, ghost mms0: map<nat, Mm>, ghost s: nat, root: nat)
      requires pmm.Valid() && Inv(St())
      requires Tree(mem, mms0, use0) && s in mms0 && root == mms0[s].pageTable
      requires use == UseLeft(use0, s, 0, 0)
      modifies this`use, pmm, pmm.frameStack, pmm.refCounts
      ensures pmm.Valid() && Inv(St()) && pmm.marked == old(pmm.marked)
      ensures use == map f | f in use0 && !use0[f].In(s) :: use0[f]
    {
      hide Inv, FreeListOk, Tree, UseLeft;
      UseLeftEnd(mem, mms0, use0, s);
      var i := 0;
      while i < ENTRIES
        invariant 0 <= i <= ENTRIES
        invariant pmm.Valid() && Inv(St()) && pmm.marked == old(pmm.marked)
        invariant use == UseLeft(use0, s, i, 0)
      {
        UseLeftMid(mem, mms0, use0, s, i);
        var e := EntryAt(mem, root, i);
        if e.valid {
          FreeLowTables(use0, mms0, s, i, e.frame);
          FreeTable(e.frame);
        }
        i := i + 1;
      }
      FreeTable(root);
    }

    /** The first loop of mm_destroy. */
    method FreeAllPages(s: nat)
      requires Consistent() && s in mms
      modifies this`mem, this`leaf, pmm, pmm.frameStack, pmm.refCounts
      ensures Consistent() && pmm.marked == old(pmm.marked)
      ensures leaf == map k | k in old(leaf) && k.space != s :: old(leaf)[k]
      ensures SameData(old(mem), mem, leaf)
    {
      hide Inv, FreeListOk, LeafAfter, Without, Find;
      var list := mms[s].vmas;
      SpaceList(St(), s);
      ghost var leaf0 := leaf;
      LeafAfterNone(leaf0, s, 0, USER_SPACE_END);
      NoPagesLeft(St(), s);
      assert SameData(mem, mem, leaf);
      hide SameData;
      var i := 0;
      while i < |list|
        invariant 0 <= i <= |list|
        invariant Consistent() && pmm.marked == old(pmm.marked)
        invariant leaf == LeafAfter(leaf0, s, list[..i], 0, USER_SPACE_END)
        invariant SameData(old(mem), mem, leaf)
      {
        LeafAfterStep(leaf0, s, list, i, 0, USER_SPACE_END);
        ghost var mem1, leaf1 := mem, leaf;
        FreePages(s, list[i].start, list[i].end);
        SameDataWithout(old(mem), mem1, mem, leaf1, s, list[i].start, list[i].end);
        i := i + 1;
      }
      assert list[..i] == list;
    }

    /** mm_destroy: frees the pages of every area, then every table. */
    method DestroySpace(s: nat)
      requires Consistent() && s in mms
      modifies this`mem, this`mms, this`use, this`leaf, pmm, pmm.frameStack, pmm.refCounts
      ensures Consistent() && pmm.marked == old(pmm.marked)
      ensures mms == old(mms) - {s}
      ensures Outside(St(), s) == old(Outside(St(), s)) == (use, leaf)
      ensures SameData(old(mem), mem, leaf)
    {
      hide Inv, FreeListOk, SameData, Outside;
      FreeAllPages(s);
      ghost var st := St();
      KeepDetach(st, s);
      InvTree(st);
      var root := mms[s].pageTable;
      mms := mms - {s};
      use := Detached(use, s);
      DetachedIsLeft(st.use, s);
      FreeTables(st.use, st.mms, s, root);
      OutsideDestroyed(old(St()), St(), s);
    }

    // ---- page faults ----

    /** First use of a page: a zeroed frame, or the file's bytes laid over it. */
    method DemandPage(s: nat, page: nat, low: nat, v: Vma, files: map<nat, seq<Byte>>) returns (r: int)
      requires Valid() && s in mms && page < PAGES && Key(s, page) !in leaf
      requires Area(mms, Key(s, page)) == Some(v)
      requires Walk(mem, mms[s].pageTable, page) == Some(low)
      modifies this`mem, this`leaf, pmm, pmm.frameStack, pmm.refCounts
      ensures Valid() && pmm.marked == old(pmm.marked)
      ensures Outside(St(), s) == old(Outside(St(), s))
      ensures r == 0 || r == -1
      ensures r == -1 ==> pmm.stackTop == 0 && leaf == old(leaf) && mem == old(mem)
      ensures r == 0 ==>
        var k := Key(s, page);
        && k in leaf && leaf == old(leaf)[k := leaf[k]] && Granted(leaf[k], v)
        && leaf[k].frame < |old(pmm.Counts())| && old(pmm.Counts())[leaf[k].frame] == 0
        && Shows(Content(St(), k), v, page, files)
      ensures SameData(old(mem), mem, old(leaf))
    {
      hide Inv, FreeListOk, Walk, Area, Faithful, Outside, Granted, Shows, EntryOk, DemandEntry;
      ghost var st := St();
      PagesOwned(st);
      var phys := pmm.AllocFrame();
      if phys == 0 {
        return -1;
      }
      var frame := pmm.PhysToIndex(phys).value;
      var bytes := FirstBytes(v, page, files);
      var e := DemandEntry(frame, v);
      ghost var k := Key(s, page);
      var content := Data(bytes);
      DemandOk(mms, k, frame, v);
      KeepDemand(st, k, low, content, e);
      FillKeepsData(st, frame, content, low, LowIndex(page), e);
      mem := mem[frame := content];
      mem := WithLeaf(mem, low, LowIndex(page), e);
      leaf := leaf[k := e];
      assert St() == st.(mem := mem, counts := st.counts[frame := 1], leaf := leaf);
      assert Content(St(), k) == bytes;
      OutsideLeaf(st, St(), k);
      FileIsNotAnonymous(mms, k, v);
      FaithfulPage(history, st, St(), k);
      return 0;
    }

    /** A write to a copy-on-write page: a private copy, one reference less on the shared frame. */
    method CopyPage(s: nat, page: nat, low: nat, v: Vma) returns (r: int)
      requires Valid() && s in mms && page < PAGES && Key(s, page) in leaf
      requires Area(mms, Key(s, page)) == Some(v) && v.Has(VMA_WRITE)
      requires Walk(mem, mms[s].pageTable, page) == Some(low)
      modifies this`mem, this`leaf, pmm, pmm.frameStack, pmm.refCounts
      ensures Valid() && pmm.marked == old(pmm.marked)
      ensures Outside(St(), s) == old(Outside(St(), s))
      ensures r == 0 || r == -1
      ensures r == -1 ==> pmm.stackTop == 0 && leaf == old(leaf) && mem == old(mem)
      ensures r == 0 ==>
        var k := Key(s, page);
        && k in leaf && leaf == old(leaf)[k := leaf[k]] && Granted(leaf[k], v)
        && leaf[k].frame < |old(pmm.Counts())| && old(pmm.Counts())[leaf[k].frame] == 0
        && Content(St(), k) == old(Content(St(), k))
      ensures SameData(old(mem), mem, old(leaf))
    {
      hide Inv, FreeListOk, Walk, Area, Faithful, Outside, SameData, EntryOk, IsPrivate;
      ghost var st := St();
      PagesOwned(st);
      SameDataSelf(mem, leaf);
      ghost var k := Key(s, page);
      PresentIff(st, s, page);
      PresentPage(st, k);
      assert EntryAt(mem, low, LowIndex(page)) == leaf[k];
      var oldFrame := EntryAt(mem, low, LowIndex(page)).frame;
      var phys := pmm.AllocFrame();
      if phys == 0 {
        return -1;
      }
      var frame := pmm.PhysToIndex(phys).value;
      var e := CopyEntry(frame, v);
      CopiedPage(history, st, k, low, frame, v);
      mem := mem[frame := mem[oldFrame]];
      mem := WithLeaf(mem, low, LowIndex(page), e);
      leaf := leaf[k := e];
      pmm.LiveNotFree(oldFrame);
      pmm.FreeFrame(IndexToPhys(oldFrame));
      assert St() == st.(mem := mem, counts := st.counts[frame := 1][oldFrame := st.counts[oldFrame] - 1], leaf := leaf);
      return 0;
    }

    /** vma_expand_stack: the first area marked as growing down starts at the faulting page from now on. */
    method ExpandStack(s: nat, addr: nat) returns (r: int)
      requires Valid() && s in mms && Find(mms[s].vmas, addr).None?
      modifies this`mms, this`history
      ensures pmm.Valid() && (Valid() <==> r == -1 || GrowthSafe(old(mms)[s].vmas, addr))
      ensures r == 0 || r == -1
      ensures r == -1 ==> mms == old(mms) && history == old(history)
      ensures r == -1 <==>
        addr / PAGE_SIZE * PAGE_SIZE < USER_STACK_TOP - USER_STACK_SIZE * 2 ||
        forall i: nat :: !IsGrowsDown(old(mms)[s].vmas, i)
      ensures r == 0 ==>
        && s in mms && mms == old(mms)[s := old(mms)[s].(vmas := mms[s].vmas)]
        && StackGrown(old(mms)[s].vmas, mms[s].vmas, old(history), history, s, addr)
      ensures r == 0 && GrowthSafe(old(mms)[s].vmas, addr) ==> Find(mms[s].vmas, addr).Some?
    {
      hide Inv, FreeListOk, Faithful, Find, GapBelow, GrowthSafe;
      var l := mms[s].vmas;
      SpaceList(St(), s);
      var i := 0;
      while i < |l| && !l[i].Has(VMA_GROWSDN)
        invariant 0 <= i <= |l|
        invariant forall j :: 0 <= j < i ==> !l[j].Has(VMA_GROWSDN)
      {
        i := i + 1;
      }
      if i == |l| {
        return -1;
      }
      assert IsGrowsDown(l, i);
      var newStart := addr / PAGE_SIZE * PAGE_SIZE;
      if newStart < USER_STACK_TOP - USER_STACK_SIZE * 2 {
        return -1;
      }
      var mm := mms[s].(vmas := l[i := l[i].(start := newStart)]);
      OneGrowing(l, i, addr);
      if GapBelow(l, i, newStart) {
        GrowthKeeps(history, St(), s, mm, i, addr);
      } else {
        GrowthBreaks(St(), s, i, addr);
      }
      history := history + [Cleared(s, newStart / PAGE_SIZE, l[i].start / PAGE_SIZE)];
      mms := mms[s := mm];
      assert St() == old(St()).(mms := mms);
      assert newStart / PAGE_SIZE == addr / PAGE_SIZE;
      return 0;
    }

    /** The part of vma_page_fault that concerns an address inside area `v`. */
    method FaultInArea(s: nat, page: nat, v: Vma, isWrite: bool, files: map<nat, seq<Byte>>) returns (r: int)
      requires Valid() && s in mms && page < PAGES
      requires Area(mms, Key(s, page)) == Some(v)
      modifies this`mem, this`use, this`leaf, pmm, pmm.frameStack, pmm.refCounts
      ensures Valid() && pmm.marked == old(pmm.marked)
      ensures Outside(St(), s) == old(Outside(St(), s))
      ensures SameData(old(mem), mem, old(leaf))
      ensures r == 0 || r == -1
      ensures r == 0 ==> Served(old(St()), St(), Key(s, page), v, isWrite, files)
      ensures r == -1 ==> leaf == old(leaf) && Refused(St(), Key(s, page), v, isWrite, pmm.stackTop)
    {
      hide Inv, FreeListOk, Walk, Find, Faithful, Outside, Area, Served, Refused;
      ghost var k := Key(s, page);
      if isWrite && !v.Has(VMA_WRITE) {
        MayRefuse(St(), k, v, isWrite, pmm.stackTop);
        return -1;
      }
      ghost var st := St();
      var pte := PteAlloc(s, page);
      FaithfulPage(history, st, St(), k);
      if pte.None? {
        MayRefuse(St(), k, v, isWrite, pmm.stackTop);
        return -1;
      }
      PresentIff(St(), s, page);
      var e := EntryAt(mem, pte.value, LowIndex(page));
      assert e == LeafAt(mem, mms[s].pageTable, page);
      ghost var mid := St();
      if !e.valid {
        r := DemandPage(s, page, pte.value, v, files);
        SameDataTwice(st.mem, mid.mem, mem, st.leaf);
        MayRefuse(St(), k, v, isWrite, pmm.stackTop);
        ServedDemand(st, St(), k, v, isWrite, files);
        return r;
      }
      PresentPage(mid, k);
      WritableOrMarked(mms, k, leaf[k], v);
      if isWrite && e.cow {
        SharedFrameLive(mid, k);
        r := CopyPage(s, page, pte.value, v);
        SameDataTwice(st.mem, mid.mem, mem, st.leaf);
        MayRefuse(St(), k, v, isWrite, pmm.stackTop);
        ServedCopy(st, mid, St(), k, v, files);
        return r;
      }
      MayRefuse(St(), k, v, isWrite, pmm.stackTop);
      return -1;
    }

    /** vma_page_fault. `files` is what each file holds. */
    method PageFault(s: nat, addr: nat, isWrite: bool, files: map<nat, seq<Byte>>) returns (r: int)
      requires Valid() && s in mms
      modifies this, pmm, pmm.frameStack, pmm.refCounts
      ensures pmm.Valid() && pmm.marked == old(pmm.marked) && others == old(others)
      ensures Valid() <==> (Find(old(mms)[s].vmas, addr).None? && r == 0 ==> GrowthSafe(old(mms)[s].vmas, addr))
      ensures Outside(St(), s) == old(Outside(St(), s))
      ensures SameData(old(mem), mem, old(leaf))
      ensures r == 0 || r == -1
      ensures Find(old(mms)[s].vmas, addr).None? ==>
        && leaf == old(leaf) && mem == old(mem)
        && (r == 0 <==> USER_STACK_TOP - 2 * USER_STACK_SIZE <= addr < USER_STACK_TOP && exists i: nat :: IsGrowsDown(old(mms)[s].vmas, i))
        && (r == -1 ==> mms == old(mms) && history == old(history))
        && (r == 0 ==>
              && s in mms && mms == old(mms)[s := old(mms)[s].(vmas := mms[s].vmas)]
              && StackGrown(old(mms)[s].vmas, mms[s].vmas, old(history), history, s, addr)
              && (GrowthSafe(old(mms)[s].vmas, addr) ==> Find(mms[s].vmas, addr).Some?))
      ensures Find(old(mms)[s].vmas, addr).Some? ==>
        var k, v := Key(s, addr / PAGE_SIZE), Find(old(mms)[s].vmas, addr).value;
        && mms == old(mms) && history == old(history)
        && (r == 0 ==> Served(old(St()), St(), k, v, isWrite, files))
        && (r == -1 ==> leaf == old(leaf) && Refused(St(), k, v, isWrite, pmm.stackTop))
    {
      hide Inv, FreeListOk, Walk, Find, Faithful, Outside, Area, GrowthSafe, StackGrown, Served, Refused;
      var area := FindVma(mms[s].vmas, addr);
      AreaOf(St(), s, addr);
      if area.None? {
        r := -1;
        if addr < USER_STACK_TOP && addr >= USER_STACK_TOP - USER_STACK_SIZE * 2 {
          r := ExpandStack(s, addr);
        }
        OutsideSame(old(St()), St(), s);
      } else {
        r := FaultInArea(s, addr / PAGE_SIZE, area.value, isWrite, files);
      }
    }

    // ---- reserving and creating ----

    /** vma_allocate and vma_allocate_file: reserve a range, at the hint or at the lowest free place. */
    method Allocate(s: nat, addr: nat, length: nat, flags: bv32, file: Option<(nat, nat)>, heap: bool) returns (r: nat)
      requires Valid() && s in mms && addr < WORD && length < WORD && addr % PAGE_SIZE == 0
      modifies this`mms, this`history
      ensures Valid()
      ensures r == 0 ==> mms == old(mms) && history == old(history)
      ensures r != 0 ==>
        var l, hi := old(mms)[s].vmas, r + RoundUp(length);
        && heap && length > 0 && FreeAt(l, r, RoundUp(length)) && hi <= USER_SPACE_END
        && mms == old(mms)[s := old(mms)[s].(vmas := Insert(l,
             if file.Some? then Vma(r, hi, flags, File, Some(file.value.0), file.value.1) else Vma(r, hi, flags, Anonymous, None, 0)))]
        && history == old(history) + [Cleared(s, r / PAGE_SIZE, hi / PAGE_SIZE)]
      ensures r != 0 && addr != 0 ==> r == addr
      // without a hint: the lowest free place, and failure only where there is none
      ensures r != 0 && addr == 0 ==>
        USER_MMAP_BASE <= r && forall b :: USER_MMAP_BASE <= b && FreeAt(old(mms)[s].vmas, b, RoundUp(length)) ==> r <= b
      ensures r == 0 && addr == 0 && length > 0 && heap ==>
        forall b :: USER_MMAP_BASE <= b && FreeAt(old(mms)[s].vmas, b, RoundUp(length)) ==> b + RoundUp(length) > USER_SPACE_END
      // with one: failure only if the range is taken or leaves user space
      ensures r == 0 && addr != 0 && length > 0 && heap ==>
        addr + RoundUp(length) > USER_SPACE_END || !FreeAt(old(mms)[s].vmas, addr, RoundUp(length))
    {
      hide Inv, FreeListOk, Faithful, Find, FreeAt, Insert, FirstFit, RoundUp;
      if length == 0 {
        return 0;
      }
      var size := (length + PAGE_SIZE - 1) % WORD / PAGE_SIZE * PAGE_SIZE;
      RoundUpWraps(length);
      SpaceList(St(), s);
      var a := addr;
      if addr == 0 {
        a := FindFree(mms[s].vmas, mms[s].mmapBase, size);
        FirstFitSound(mms[s].vmas, size);
        if (a + size) % WORD > USER_SPACE_END {
          WrapsBeyond(a, size);
          return 0;
        }
      }
      r := Place(s, a, size, flags, file, heap);
    }

    /** The second half of vma_allocate: make the entry and link it in. */
    method Place(s: nat, addr: nat, size: nat, flags: bv32, file: Option<(nat, nat)>, heap: bool) returns (r: nat)
      requires Valid() && s in mms && 0 < addr < WORD && size < WORD && addr % PAGE_SIZE == 0 && size % PAGE_SIZE == 0
      modifies this`mms, this`history
      ensures Valid()
      ensures r == 0 ==> mms == old(mms) && history == old(history)
      ensures r == 0 && heap ==>
        size == 0 || addr + size > USER_SPACE_END || !FreeAt(old(mms)[s].vmas, addr, size)
      ensures r != 0 ==>
        var l := old(mms)[s].vmas;
        && heap && r == addr && size > 0 && FreeAt(l, addr, size) && addr + size <= USER_SPACE_END
        && mms == old(mms)[s := old(mms)[s].(vmas := Insert(l,
             if file.Some? then Vma(addr, addr + size, flags, File, Some(file.value.0), file.value.1) else Vma(addr, addr + size, flags, Anonymous, None, 0)))]
        && history == old(history) + [Cleared(s, addr / PAGE_SIZE, (addr + size) / PAGE_SIZE)]
    {
      hide Inv, FreeListOk, Faithful, Find, FreeAt, Insert;
      WrapsBeyond(addr, size);
      SpaceList(St(), s);
      var created := VmaCreate(addr, (addr + size) % WORD, flags, if file.Some? then File else Anonymous);
      if created.None? || !heap {
        return 0;
      }
      var v := created.value;
      if file.Some? {
        v := v.(file := Some(file.value.0), pgoff := file.value.1);
      }
      var ok, l' := InsertVma(mms[s].vmas, v);
      if !ok {
        return 0;
      }
      InsertedArea(history, St(), s, v);
      history := history + [Cleared(s, v.start / PAGE_SIZE, v.end / PAGE_SIZE)];
      mms := mms[s := mms[s].(vmas := l')];
      return addr;
    }

    /** mm_create: an empty root table and the initial stack area, if there is heap for it. */
    method Create(s: nat, heap: bool, stackHeap: bool) returns (ok: bool)
      requires Valid() && s !in mms
      modifies this, pmm, pmm.frameStack, pmm.refCounts
      ensures Valid() && pmm.marked == old(pmm.marked) && others == old(others)
      ensures Outside(St(), s) == old(Outside(St(), s))
      ensures !ok ==> mms == old(mms) && history == old(history) && use == old(use) && pmm.Counts() == old(pmm.Counts())
      ensures ok ==>
        && s in mms && mms == old(mms)[s := mms[s]]
        && mms[s].vmas == (if !stackHeap then [] else
             [Vma(USER_STACK_TOP - USER_STACK_SIZE, USER_STACK_TOP, VMA_READ | VMA_WRITE | VMA_GROWSDN, Anonymous, None, 0)])
        && mms[s] == Mm(mms[s].pageTable, mms[s].vmas, USER_HEAP_START, USER_HEAP_START, USER_STACK_TOP, USER_MMAP_BASE)
        && history == old(history) + [Cleared(s, 0, PAGES)]
      ensures leaf == old(leaf) && (ok <==> heap && old(pmm.stackTop) > 0)
    {
      hide Inv, FreeListOk, Faithful, Outside, Find;
      if !heap {
        return false;
      }
      ghost var st := St();
      PagesOwned(st);
      var phys := pmm.AllocFrame();
      if phys == 0 {
        return false;
      }
      var root := pmm.PhysToIndex(phys).value;
      ZeroCountUnused(st, root);
      mem := mem[root := ZeroTable()];
      var list: seq<Vma> := [];
      if stackHeap {
        list := [StackVma()];
      }
      StackOk();
      var mm := Mm(root, list, USER_HEAP_START, USER_HEAP_START, USER_STACK_TOP, USER_MMAP_BASE);
      KeepAddRoot(st, s, mm);
      mms := mms[s := mm];
      use := use[root := Root(s)];
      assert St() == st.(mem := mem, counts := st.counts[root := 1], mms := mms, use := use);
      NewSpace(history, st, St(), s);
      OutsideUse(st, St(), s, root, Root(s));
      history := history + [Cleared(s, 0, PAGES)];
      return true;
    }

    /** mm_destroy. */
    method Destroy(s: nat)
      requires Valid() && s in mms
      modifies this, pmm, pmm.frameStack, pmm.refCounts
      ensures Valid() && pmm.marked == old(pmm.marked) && others == old(others) && history == old(history)
      ensures mms == old(mms) - {s}
      ensures Outside(St(), s) == old(Outside(St(), s)) == (use, leaf)
      ensures SameData(old(mem), mem, leaf)
    {
      hide Inv, FreeListOk, Faithful, SameData;
      ghost var st := St();
      DestroySpace(s);
      FaithfulDestroyed(history, st, St(), s);
    }

    // ---- user stores ----

    /** A user store to a page whose entry allows it. */
    method Store(s: nat, addr: nat, b: Byte)
      requires Valid() && Key(s, addr / PAGE_SIZE) in leaf && leaf[Key(s, addr / PAGE_SIZE)].UserWritable()
      modifies this`mem, this`history
      ensures Valid()
      ensures history == old(history) + [Stored(s, addr / PAGE_SIZE, addr % PAGE_SIZE, b)]
      ensures Content(St(), Key(s, addr / PAGE_SIZE)) == old(Content(St(), Key(s, addr / PAGE_SIZE)))[addr % PAGE_SIZE := b]
    {
      hide Inv, FreeListOk, Faithful;
      ghost var st := St();
      ghost var k := Key(s, addr / PAGE_SIZE);
      PresentIff'(st, k);
      var low := Walk(mem, mms[s].pageTable, addr / PAGE_SIZE);
      var frame := EntryAt(mem, low.value, LowIndex(addr / PAGE_SIZE)).frame;
      KeepStore(st, k, addr % PAGE_SIZE, b);
      FaithfulStored(history, st, k, addr % PAGE_SIZE, b);
      mem := mem[frame := Data(mem[frame].bytes[addr % PAGE_SIZE := b])];
      history := history + [Stored(s, addr / PAGE_SIZE, addr % PAGE_SIZE, b)];
      assert St() == st.(mem := mem);
    }

    // ---- unmapping ----

    /** One entry of the vma_unmap loop. Only splitting an entry can fail. */
    method UnmapEntry(s: nat, pos: nat, start: nat, end: nat, heap: bool) returns (ok: bool, next: nat)
      requires Consistent() && s in mms && pos < |mms[s].vmas|
      requires start < end && start % PAGE_SIZE == 0 && end % PAGE_SIZE == 0
      modifies this`mem, this`mms, this`leaf, pmm, pmm.frameStack, pmm.refCounts
      ensures Consistent() && pmm.marked == old(pmm.marked)
      ensures
        var v := old(mms)[s].vmas[pos];
        && (ok <==> heap || !(v.start < start && end < v.end))
        && (!ok ==>
              && mms == old(mms) && leaf == old(leaf) && mem == old(mem) && pmm.Counts() == old(pmm.Counts()))
        && (ok ==>
              && mms == old(mms)[s := old(mms)[s].(vmas := Replaced(old(mms)[s].vmas, pos, start, end))]
              && next == pos + |Trim(v, start, end)|
              && leaf == Without(old(leaf), s, Max(start, v.start), Min(end, v.end))
              && SameData(old(mem), mem, leaf))
        && (!v.Overlaps(start, end) ==>
              ok && leaf == old(leaf) && mem == old(mem) && mms == old(mms) && pmm.Counts() == old(pmm.Counts()))
    {
      hide Inv, FreeListOk, Without, Find, Replaced;
      var l := mms[s].vmas;
      var v := l[pos];
      SpaceList(St(), s);
      ReplacedIs(l, pos, start, end);
      if v.end <= start || v.start >= end {
        WithoutNothing(leaf, s, Max(start, v.start), Min(end, v.end));
        return true, pos + 1;
      }
      var l': seq<Vma>;
      if start <= v.start && end >= v.end {
        FreePages(s, v.start, v.end);
        l', next := l[..pos] + l[pos + 1..], pos;
      } else if start <= v.start {
        FreePages(s, v.start, end);
        l', next := l[pos := v.(start := end)], pos + 1;
      } else if end >= v.end {
        FreePages(s, start, v.end);
        l', next := l[pos := v.(end := start)], pos + 1;
      } else {
        var created := VmaCreate(end, v.end, v.flags, v.kind);
        if created.None? || !heap {
          return false, pos;
        }
        FreePages(s, start, end);
        l', next := l[..pos] + [v.(end := start), created.value] + l[pos + 1..], pos + 2;
      }
      TrimmedList(St(), s, pos, start, end, old(leaf));
      mms := mms[s := mms[s].(vmas := l')];
      return true, next;
    }

    /** The loop of vma_unmap over all entries. */
    method UnmapEntries(s: nat, start: nat, end: nat, heap: bool) returns (ok: bool)
      requires Consistent() && s in mms && start < end && start % PAGE_SIZE == 0 && end % PAGE_SIZE == 0
      modifies this`mem, this`mms, this`leaf, pmm, pmm.frameStack, pmm.refCounts
      ensures Consistent() && pmm.marked == old(pmm.marked)
      ensures ok <==> heap || !Splits(old(mms)[s].vmas, start, end)
      ensures !ok ==> St() == old(St())
      ensures ok ==>
        && mms == old(mms)[s := old(mms)[s].(vmas := Unmapped(old(mms)[s].vmas, start, end))]
        && leaf == LeafAfter(old(leaf), s, old(mms)[s].vmas, start, end)
        && SameData(old(mem), mem, leaf)
    {
      hide Inv, FreeListOk, Without, Find, LeafAfter, Unmapped, Replaced, Trim, SameData, ListOk, HalfUnmapped;
      ghost var st := St();
      ghost var n: nat := 0;
      HalfUnmappedBegin(st, s, start, end);
      var pos: nat := 0;
      while pos < |mms[s].vmas|
        invariant Consistent() && pmm.marked == old(pmm.marked)
        invariant s in mms && n <= |st.mms[s].vmas| && HalfUnmapped(st, St(), s, n, pos, start, end)
        invariant heap || forall i :: 0 <= i < n ==> !(st.mms[s].vmas[i].start < start && end < st.mms[s].vmas[i].end)
        decreases |st.mms[s].vmas| - n
      {
        ghost var mid := St();
        HalfUnmappedAt(st, mid, s, n, pos, start, end);
        var ok', next := UnmapEntry(s, pos, start, end, heap);
        if !ok' {
          HalfUnmappedFailed(st, mid, s, n, pos, start, end);
          return false;
        }
        HalfUnmappedStep(st, mid, St(), s, n, pos, next, start, end);
        n := n + 1;
        pos := next;
      }
      HalfUnmappedEnd(st, St(), s, n, pos, start, end);
      AllPassed(st, St(), s, n, pos, start, end);
      return true;
    }

    /** vma_unmap: the areas and the present pages lose exactly the range, or nothing changes. */
    method Unmap(s: nat, start: nat, end: nat, heap: bool) returns (r: int)
      requires Valid() && s in mms && start % PAGE_SIZE == 0 && end % PAGE_SIZE == 0
      modifies this, pmm, pmm.frameStack, pmm.refCounts
      ensures Valid() && pmm.marked == old(pmm.marked) && others == old(others) && use == old(use)
      ensures r == 0 || r == -1
      ensures r == 0 <==> start < end && (heap || !Splits(old(mms)[s].vmas, start, end))
      ensures r == -1 ==> St() == old(St()) && history == old(history)
      ensures r == 0 ==>
        && start < end
        && mms == old(mms)[s := old(mms)[s].(vmas := Unmapped(old(mms)[s].vmas, start, end))]
        && leaf == Without(old(leaf), s, start, end)
        && SameData(old(mem), mem, leaf)
        && history == old(history) + [Cleared(s, start / PAGE_SIZE, end / PAGE_SIZE)]
    {
      hide Inv, FreeListOk, Without, Find, Faithful, LeafAfter, Unmapped, SameData;
      if start >= end {
        return -1;
      }
      ghost var st := St();
      var ok := UnmapEntries(s, start, end, heap);
      if !ok {
        return -1;
      }
      AllCovered(st, s, start, end);
      history := history + [Cleared(s, start / PAGE_SIZE, end / PAGE_SIZE)];
      FaithfulUnmapped(old(history), st, St(), s, start, end);
      return 0;
    }

    // ---- fork ----

    /** Both entries of a page that is shared from now on. The invariant holds afterwards exactly if the
        count of the frame could go up. */
    method ShareEntry(p: nat, c: nat, page: nat, v: Vma, low: nat, newLow: nat)
      requires Consistent() && p in mms && c in mms && p != c && page < PAGES && Key(p, page) in leaf && Key(c, page) !in leaf
      requires Area(mms, Key(p, page)) == Some(v) == Area(mms, Key(c, page))
      requires Walk(mem, mms[p].pageTable, page) == Some(low) && Walk(mem, mms[c].pageTable, page) == Some(newLow)
      modifies this`mem, this`leaf, pmm, pmm.refCounts
      ensures Consistent() <==> old(Spare(St(), Key(p, page)))
      ensures pmm.Valid() && pmm.marked == old(pmm.marked) && pmm.stackTop == old(pmm.stackTop)
      ensures SameData(old(mem), mem, old(leaf))
      ensures var e := ForkEntry(old(leaf)[Key(p, page)], v);
        leaf == old(leaf)[Key(p, page) := e][Key(c, page) := e] && Protected(old(leaf)[Key(p, page)], e, v)
    {
      hide Inv, FreeListOk, Walk, Area, ForkEntry, SameData, Protected, EntryOk, IsPrivate;
      ghost var st := St();
      ghost var k := Key(p, page);
      PresentIff(st, p, page);
      LowTablesDiffer(st, k, c, low, newLow);
      SameCount(st, st, k);
      PresentPage(st, k);
      ForkEntryOk(mms, k, leaf[k], v);
      if st.counts[leaf[k].frame] < MAX_REF {
        KeepForkPage(st, k, c, v, low, newLow);
      }
      ForkKeepsData(st, low, newLow, LowIndex(page), ForkEntry(leaf[k], v));
      var e := EntryAt(mem, low, LowIndex(page));
      assert e == LeafAt(mem, mms[p].pageTable, page);
      var e' := ForkEntry(e, v);
      mem := WithLeaf(mem, low, LowIndex(page), e');
      mem := WithLeaf(mem, newLow, LowIndex(page), e');
      leaf := leaf[k := e'][Key(c, page) := e'];
      ForkEntryFrame(e, v);
      pmm.LiveNotFree(e.frame);
      pmm.IncRef(IndexToPhys(e.frame));
      if st.counts[e.frame] < MAX_REF {
        assert St() == st.(mem := mem, counts := st.counts[e.frame := st.counts[e.frame] + 1], leaf := leaf);
      } else {
        assert st.counts[e.frame := MAX_REF] == st.counts;
        assert St() == st.(mem := mem, leaf := leaf);
        ForkSaturates(st, St(), k, Key(c, page), e');
      }
    }

    /** The page loop of mm_duplicate for one address. A page whose table cannot be made is skipped. */
    method ForkPage(p: nat, c: nat, page: nat, v: Vma) returns (ghost lost: bool)
      requires Consistent() && p in mms && c in mms && p != c && page < PAGES
      requires Key(c, page) !in leaf && Area(mms, Key(p, page)) == Some(v) == Area(mms, Key(c, page))
      modifies this`mem, this`use, this`leaf, pmm, pmm.frameStack, pmm.refCounts
      ensures Consistent() <==> lost || old(Spare(St(), Key(p, page)))
      ensures pmm.Valid() && pmm.marked == old(pmm.marked) && pmm.stackTop <= old(pmm.stackTop)
      ensures Outside(St(), c).0 == old(Outside(St(), c)).0
      ensures SameData(old(mem), mem, old(leaf))
      ensures lost ==> Key(p, page) in old(leaf) && leaf == old(leaf) && pmm.stackTop == 0
      ensures !lost && Key(p, page) !in old(leaf) ==> leaf == old(leaf)
      ensures !lost && Key(p, page) in old(leaf) ==>
        var e := ForkEntry(old(leaf)[Key(p, page)], v);
        leaf == old(leaf)[Key(p, page) := e][Key(c, page) := e] && Protected(old(leaf)[Key(p, page)], e, v)
    {
      hide Inv, FreeListOk, Walk, Area, Outside, ForkEntry, EntriesStay, SameData, Protected;
      ghost var st := St();
      ghost var k := Key(p, page);
      PresentIff(st, p, page);
      SameDataSelf(mem, leaf);
      var low := Walk(mem, mms[p].pageTable, page);
      if low.None? || !EntryAt(mem, low.value, LowIndex(page)).valid {
        return false;
      }
      var newLow := PteAlloc(c, page);
      if newLow.None? {
        return true;
      }
      ghost var mid := St();
      WalkStays(st, mem, p, page);
      SameCount(st, mid, k);
      ShareEntry(p, c, page, v, low.value, newLow.value);
      SameDataTwice(st.mem, mid.mem, mem, st.leaf);
      OutsideUses(mid, St(), c);
      return false;
    }

    /** The page loop of mm_duplicate over one area. */
    method ForkArea(p: nat, c: nat, i: nat, ghost st: State, ghost lost0: set<nat>) returns (ghost lost: set<nat>)
      requires Consistent() && p in mms && c in mms && p != c
      requires Inv(st) && Shareable(st, p) && p in st.mms && i < |st.mms[p].vmas| && mms[p] == st.mms[p]
      requires mms[c].vmas == st.mms[p].vmas[..i + 1]
      requires HalfForked(st, St(), p, c, st.mms[p].vmas[i].start / PAGE_SIZE, lost0)
      modifies this`mem, this`use, this`leaf, pmm, pmm.frameStack, pmm.refCounts
      ensures Consistent() && pmm.marked == old(pmm.marked) && pmm.stackTop <= old(pmm.stackTop)
      ensures HalfForked(st, St(), p, c, st.mms[p].vmas[i].end / PAGE_SIZE, lost)
      ensures lost != lost0 ==> pmm.stackTop == 0
    {
      hide Inv, FreeListOk, HalfForked, Outside, SameData, Find, Area, ForkEntry, Shareable, Spare, Protected;
      lost := lost0;
      SpaceList(st, p);
      var v := mms[p].vmas[i];
      var addr := v.start;
      while addr < v.end
        invariant v.start <= addr <= v.end && addr % PAGE_SIZE == 0
        invariant Consistent() && pmm.marked == old(pmm.marked) && pmm.stackTop <= old(pmm.stackTop)
        invariant HalfForked(st, St(), p, c, addr / PAGE_SIZE, lost)
        invariant lost != lost0 ==> pmm.stackTop == 0
      {
        ghost var mid := St();
        var page := addr / PAGE_SIZE;
        ForkAreas(mid, p, c, i, page, v);
        NotYetForked(st, mid, p, c, page, lost);
        MayShare(st, mid, p, c, page, lost);
        ghost var skipped := ForkPage(p, c, page, v);
        HalfForkedPage(st, mid, St(), p, c, page, v, lost, skipped);
        lost := if skipped then lost + {page} else lost;
        addr := addr + PAGE_SIZE;
      }
    }

    /** The start of mm_duplicate: an empty child. */
    method StartChild(p: nat, c: nat, heap: nat) returns (ok: bool)
      requires Consistent() && p in mms && c !in mms
      modifies this`mem, this`mms, this`use, pmm, pmm.frameStack, pmm.refCounts
      ensures Consistent() && pmm.marked == old(pmm.marked)
      ensures ok <==> heap > 0 && old(pmm.stackTop) > 0
      ensures !ok ==> St() == old(St())
      ensures ok ==>
        && c in mms && mms == old(mms)[c := old(mms)[p].(pageTable := mms[c].pageTable, vmas := [])]
        && HalfForked(old(St()), St(), p, c, 0, {})
    {
      hide Inv, FreeListOk, HalfForked, Outside, SameData, Find;
      if heap == 0 {
        return false;
      }
      ghost var st := St();
      PagesOwned(st);
      var phys := pmm.AllocFrame();
      if phys == 0 {
        return false;
      }
      var root := pmm.PhysToIndex(phys).value;
      ZeroCountUnused(st, root);
      var mm := mms[p].(pageTable := root, vmas := []);
      EmptyChild(st, c, mm, mms[p]);
      mem := mem[root := ZeroTable()];
      mms := mms[c := mm];
      use := use[root := Root(c)];
      assert St() == st.(mem := mem, counts := st.counts[root := 1], mms := mms, use := use);
      HalfForkedBegin(st, St(), p, c);
      return true;
    }

    /** The area loop of mm_duplicate; gives up when an entry cannot be cloned. */
    method ForkAllAreas(p: nat, c: nat, heap: nat, ghost st: State) returns (ok: bool, ghost cursor: nat, ghost lost: set<nat>)
      requires Consistent() && p in st.mms && c in mms && p != c && Inv(st) && Shareable(st, p)
      requires mms == st.mms[c := mms[c]] && mms[c].vmas == [] && HalfForked(st, St(), p, c, 0, {})
      modifies this`mem, this`mms, this`use, this`leaf, pmm, pmm.frameStack, pmm.refCounts
      ensures Consistent() && pmm.marked == old(pmm.marked)
      ensures c in mms && HalfForked(st, St(), p, c, cursor, lost)
      ensures ok <==> heap >= |st.mms[p].vmas|
      ensures ok ==>
        && mms == st.mms[c := old(mms)[c].(vmas := st.mms[p].vmas)]
        && (forall q: nat :: Key(p, q) in st.leaf ==> q < cursor)
        && (lost != {} ==> pmm.stackTop == 0)
    {
      hide Inv, FreeListOk, HalfForked, Outside, SameData, Find, Shareable, Insert, ListOk, VmaOk, FreeAt;
      lost, cursor := {}, 0;
      var list := mms[p].vmas;
      var i := 0;
      while i < |list|
        invariant 0 <= i <= |list| && list == st.mms[p].vmas && i <= heap
        invariant Consistent() && pmm.marked == old(pmm.marked)
        invariant c in mms && mms == st.mms[c := old(mms)[c].(vmas := list[..i])]
        invariant cursor == if i == 0 then 0 else list[i - 1].end / PAGE_SIZE
        invariant HalfForked(st, St(), p, c, cursor, lost)
        invariant lost != {} ==> pmm.stackTop == 0
      {
        HalfForkedSkip(st, St(), p, c, i, cursor, lost);
        if heap <= i {
          return false, cursor, lost;
        }
        HalfForkedArea(st, St(), p, c, i, lost);
        CloneFits(st, p, i);
        var _, l' := InsertVma(mms[c].vmas, list[i]);
        mms := mms[c := mms[c].(vmas := l')];
        lost := ForkArea(p, c, i, st, lost);
        i := i + 1;
        cursor := list[i - 1].end / PAGE_SIZE;
      }
      assert list[..i] == list;
      HalfForkedSkip(st, St(), p, c, i, cursor, lost);
      return true, cursor, lost;
    }

    /** mm_duplicate: a child with the parent's areas that shares every present page. Pages are lost
        only when the allocator ran dry. A frame can have at most 255 references. The kernel heap gives
        out `heap` more objects. */
    method Duplicate(p: nat, c: nat, heap: nat) returns (ok: bool, ghost lost: set<nat>)
      requires Valid() && p in mms && c !in mms && Shareable(St(), p)
      modifies this, pmm, pmm.frameStack, pmm.refCounts
      ensures Valid() && pmm.marked == old(pmm.marked) && others == old(others)
      ensures ok <==> old(pmm.stackTop) > 0 && heap > |old(mms)[p].vmas|
      ensures !ok ==>
        && mms == old(mms) && pmm.Counts() == old(pmm.Counts()) && history == old(history)
        && leaf.Keys == old(leaf).Keys && forall k :: k in old(leaf) ==> OnlyProtected(old(St()), leaf, p, k)
      ensures ok ==>
        && c in mms && mms == old(mms)[c := old(mms)[p].(pageTable := mms[c].pageTable)]
        && history == old(history) + [Forked(p, c, lost)]
        && (lost != {} ==> pmm.stackTop == 0)
        && ForkedLeaf(old(St()), leaf, p, c, lost) && PagesProtected(old(St()), leaf, p, lost) && SameData(old(mem), mem, old(leaf))
        && Outside(St(), c).0 == old(use)
    {
      hide Inv, FreeListOk, HalfForked, Outside, SameData, Find, Faithful, Shareable, ForkedLeaf, PagesProtected;
      ghost var st := St();
      ghost var cursor;
      ok := StartChild(p, c, heap);
      if !ok {
        return false, {};
      }
      ok, cursor, lost := ForkAllAreas(p, c, heap - 1, st);
      if !ok {
        ghost var mid := St();
        DestroySpace(c);
        ForkUndone(history, st, mid, St(), p, c, cursor, lost);
        return false, {};
      }
      HalfForkedEnd(history, st, St(), p, c, cursor, lost);
      ForkedAll(st, St(), p, c, cursor, lost);
      ForkProtects(st, leaf, p, c, lost);
      history := history + [Forked(p, c, lost)];
    }

    // ---- whole lives of a space ----

    /** One thing a process does to its own space. */
    method Act(s: nat, a: Action) returns (grewBadly: bool)
      requires Valid() && s in mms && ActionOk(a)
      modifies this, pmm, pmm.frameStack, pmm.refCounts
      ensures Valid() <==> !grewBadly
      ensures pmm.Valid() && pmm.marked == old(pmm.marked) && others == old(others)
      ensures s in mms && mms == old(mms)[s := mms[s]] && Outside(St(), s) == old(Outside(St(), s))
      ensures grewBadly ==> a.Fault? && !GrowthSafe(old(mms)[s].vmas, a.addr)
    {
      hide Inv, FreeListOk, Faithful, Outside, Find, GrowthSafe, Served, Refused, StackGrown, SameData, Unmapped, Without, Content, Insert, FreeAt, RoundUp, Splits;
      grewBadly := false;
      ghost var st := St();
      match a
      case Fault(addr, isWrite, files) =>
        var area := FindVma(mms[s].vmas, addr);
        var safe := IsGrowthSafe(mms[s].vmas, addr);
        var r := PageFault(s, addr, isWrite, files);
        grewBadly := area.None? && r == 0 && !safe;
      case Map(addr, length, flags, file, heap) =>
        var _ := Allocate(s, addr, length, flags, file, heap);
        OutsideSame(st, St(), s);
      case Remove(start, end, heap) =>
        var _ := Unmap(s, start, end, heap);
        OutsideUnmapped(st, St(), s, start, end);
      case Put(addr, b) =>
        if addr < USER_SPACE_END {
          var page := addr / PAGE_SIZE;
          PresentIff(st, s, page);
          var low := Walk(mem, mms[s].pageTable, page);
          if low.Some? && EntryAt(mem, low.value, LowIndex(page)).valid && EntryAt(mem, low.value, LowIndex(page)).UserWritable() {
            assert EntryAt(mem, low.value, LowIndex(page)) == LeafAt(mem, mms[s].pageTable, page);
            Store(s, addr, b);
          }
        }
        OutsideSame(st, St(), s);
    }

    /** mm_create, anything the process does in its space, and mm_destroy: the frames on the free stack
        are those that were there before. */
    method Lifetime(s: nat, heap: bool, stackHeap: bool, actions: seq<Action>) returns (grewBadly: bool)
      requires Valid() && s !in mms && forall i :: 0 <= i < |actions| ==> ActionOk(actions[i])
      modifies this, pmm, pmm.frameStack, pmm.refCounts
      ensures Valid() <==> !grewBadly
      ensures !grewBadly ==> mms == old(mms) && use == old(use) && leaf == old(leaf)
      ensures !grewBadly ==> pmm.Counts() == old(pmm.Counts()) && pmm.FreeFrames() == old(pmm.FreeFrames())
    {
      hide Inv, FreeListOk, Faithful, Outside, SameData, ActionOk;
      grewBadly := false;
      ghost var st := St();
      ghost var stack := pmm.Stack();
      NothingInside(st, s);
      var ok := Create(s, heap, stackHeap);
      if ok {
        var i := 0;
        while i < |actions|
          invariant 0 <= i <= |actions| && Valid() && pmm.marked == old(pmm.marked) && others == st.others
          invariant s in mms && mms - {s} == st.mms && Outside(St(), s) == Outside(st, s)
        {
          grewBadly := Act(s, actions[i]);
          if grewBadly {
            return;
          }
          i := i + 1;
        }
        Destroy(s);
        CountsRestored(st, St(), s);
      }
      SameFree(stack, pmm.Stack(), pmm.Counts(), pmm.marked);
    }

    /** mm_duplicate and then mm_destroy of the child leave every count, and so the free frames, as they
        were. */
    method ForkAndDestroy(p: nat, c: nat, heap: nat) returns (ok: bool)
      requires Valid() && p in mms && c !in mms && Shareable(St(), p)
      modifies this, pmm, pmm.frameStack, pmm.refCounts
      ensures Valid() && mms == old(mms)
      ensures pmm.Counts() == old(pmm.Counts()) && pmm.FreeFrames() == old(pmm.FreeFrames())
      ensures leaf.Keys == old(leaf).Keys && forall k :: k in old(leaf) ==> OnlyProtected(old(St()), leaf, p, k)
    {
      hide Inv, FreeListOk, Faithful, Outside, SameData, Shareable, ForkedLeaf, OnlyProtected;
      ghost var st := St();
      ghost var stack := pmm.Stack();
      ghost var lost;
      ok, lost := Duplicate(p, c, heap);
      if ok {
        ghost var mid := St();
        Destroy(c);
        ForkGone(st, mid, St(), p, c, lost);
      }
      SameFree(stack, pmm.Stack(), pmm.Counts(), pmm.marked);
    }

    /** A user load. Whatever else ran, private anonymous memory shows the bytes of its own history. */
    method Load(s: nat, addr: nat) returns (b: Byte)
      requires Valid() && Key(s, addr / PAGE_SIZE) in leaf && leaf[Key(s, addr / PAGE_SIZE)].UserReadable()
      ensures b == Content(St(), Key(s, addr / PAGE_SIZE))[addr % PAGE_SIZE]
      ensures IsPrivateAnonymous(mms, Key(s, addr / PAGE_SIZE)) ==>
        b == Expected(history, s, addr / PAGE_SIZE)[addr % PAGE_SIZE]
    {
      hide Inv, FreeListOk, Expected;
      PresentIff'(St(), Key(s, addr / PAGE_SIZE));
      var low := Walk(mem, mms[s].pageTable, addr / PAGE_SIZE);
      var frame := EntryAt(mem, low.value, LowIndex(addr / PAGE_SIZE)).frame;
      b := mem[frame].bytes[addr % PAGE_SIZE];
    }
  }
}
