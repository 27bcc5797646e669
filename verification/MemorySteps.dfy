/** Facts about the states of AddressSpaces that the operations of kernel/mm/vma.c rest on: what a
    fault, an unmapping, a fork and the end of a space do to tables, counts, pages and bytes. */
module MemorySteps {
  import opened Base
  import opened Pmm
  import opened Vma
  import opened PageTables
  import opened AddressSpaces
  import opened Isolation

  /** The entry vma_page_fault writes for a page used for the first time. */
  function DemandEntry(frame: nat, v: Vma): Entry {
    Entry(true, frame, if v.Has(VMA_WRITE) then AP_RW_EL0 else AP_RO_EL0, false, !v.Has(VMA_EXEC))
  }

  /** The entry it writes when a shared page gets a frame of its own. */
  function CopyEntry(frame: nat, v: Vma): Entry {
    Entry(true, frame, AP_RW_EL0, false, !v.Has(VMA_EXEC))
  }

  /** What mm_duplicate makes of a parent entry: private user pages lose write access and get the mark.
      The test in the code, "writable at EL0 or at EL1", comes out as bit 6, which read-only user
      pages carry too. */
  function ForkEntry(e: Entry, v: Vma): Entry {
    if !v.Has(VMA_SHARED) && e.ap % 2 == 1 then e.(ap := AP_RO_EL0, cow := true) else e
  }

  /** Entry `e` as a fork leaves it: what may be written through it must be shared memory, private pages are
      marked for copying, and frame and execute right stay. */
  ghost predicate Protected(e: Entry, e': Entry, v: Vma) {
    && e'.frame == e.frame && e'.uxn == e.uxn
    && if v.Has(VMA_SHARED) then e' == e else e'.UserReadable() && !e'.UserWritable() && e'.cow
  }

  ghost predicate SameData(mem: seq<Frame>, mem': seq<Frame>, leaf: map<Key, Entry>) {
    |mem'| == |mem| && forall k :: k in leaf && leaf[k].frame < |mem| ==> mem'[leaf[k].frame] == mem[leaf[k].frame]
  }

  /** Valid entries of existing tables are never redirected. */
  ghost predicate EntriesStay(mem: seq<Frame>, mem': seq<Frame>, use: map<nat, Use>) {
    forall f, i :: f in use && EntryAt(mem, f, i).valid ==> EntryAt(mem', f, i) == EntryAt(mem, f, i)
  }

  lemma WalkStays(st: State, mem': seq<Frame>, s: nat, page: nat)
    requires Inv(st) && s in st.mms && EntriesStay(st.mem, mem', st.use)
    ensures Walk(st.mem, st.mms[s].pageTable, page).Some? ==>
      Walk(mem', st.mms[s].pageTable, page) == Walk(st.mem, st.mms[s].pageTable, page)
  {
    hide Inv;
    WalkTables(st, s, TopIndex(page));
  }

  /** Everything about tables and present pages that does not belong to space `s`. */
  ghost function Outside(st: State, s: nat): (map<nat, Use>, map<Key, Entry>) {
    (map f | f in st.use && !st.use[f].In(s) :: st.use[f],
     map k | k in st.leaf && k.space != s :: st.leaf[k])
  }

  /** Reference counts are a function of what exists: once a space is gone, whatever was done in
      it, every frame has the count it had before the space was made. */
  lemma CountsRestored(before: State, after: State, s: nat)
    requires Inv(before) && Inv(after)
    requires before.others == after.others
    requires s !in before.mms && s !in after.mms
    requires Outside(before, s) == Outside(after, s)
    ensures before.counts == after.counts
  {
    NothingInside(before, s);
    NothingInside(after, s);
  }

  /** What a process may do to its own space. */
  datatype Action =
    | Fault(addr: nat, isWrite: bool, files: map<nat, seq<Byte>>)
    | Map(addr: nat, length: nat, flags: bv32, file: Option<(nat, nat)>, heap: bool)
    | Remove(start: nat, end: nat, heap: bool)
    | Put(addr: nat, b: Byte)

  predicate ActionOk(a: Action) {
    match a
    case Fault(_, _, _) => true
    case Map(addr, length, _, _, _) => addr < WORD && length < WORD && addr % PAGE_SIZE == 0
    case Remove(start, end, _) => start % PAGE_SIZE == 0 && end % PAGE_SIZE == 0
    case Put(_, _) => true
  }

  lemma OutsideUnmapped(st: State, st': State, s: nat, lo: nat, hi: nat)
    requires st'.use == st.use && (st'.leaf == st.leaf || st'.leaf == Without(st.leaf, s, lo, hi))
    ensures Outside(st', s) == Outside(st, s)
  {
    assert Outside(st', s).1 == Outside(st, s).1;
  }

  lemma NothingInside(st: State, s: nat)
    requires Inv(st) && s !in st.mms
    ensures Outside(st, s) == (st.use, st.leaf)
  {
    hide Inv;
    PagesOwned(st);
    assert Outside(st, s).0 == st.use;
    assert Outside(st, s).1 == st.leaf;
  }

  lemma PagesOwned(st: State)
    requires Inv(st)
    ensures |st.mem| == |st.counts| == |st.others|
    ensures forall k :: k in st.leaf ==> k.space in st.mms && k.page < PAGES
    ensures forall f :: f in st.use ==> f < |st.mem| && st.use[f].Owned(st.mms)
  {
    hide Tree, Leaves, Counted, PagesOk, RightsOk, ListsOk;
    TablesOwned(st.mem, st.mms, st.use);
    LeavesOwned(st.mem, st.mms, st.leaf);
  }

  lemma TableKeepsData(st: State, parent: nat, index: nat, added: nat)
    requires Inv(st) && parent in st.use && added < |st.counts| && st.counts[added] == 0
    requires parent < |st.mem| && st.mem[parent].Table? && index < |st.mem[parent].entries| && parent != added < |st.mem|
    ensures SameData(st.mem, WithTable(st.mem, parent, index, added), st.leaf)
  {
    hide Inv, EntryOk, IsPrivate;
    ZeroCountUnused(st, added);
    forall k | k in st.leaf
      ensures st.leaf[k].frame != added && st.leaf[k].frame != parent
    {
      PresentPage(st, k);
    }
  }

  /** The root of a space and the middle tables under it are where the walk finds them. */
  lemma WalkTables(st: State, s: nat, i: nat)
    requires Inv(st) && s in st.mms && i < ENTRIES
    ensures
      var root := st.mms[s].pageTable;
      && root in st.use && st.use[root] == Root(s)
      && (EntryAt(st.mem, root, i).valid ==>
            EntryAt(st.mem, root, i).frame in st.use && st.use[EntryAt(st.mem, root, i).frame] == Mid(s, i))
  {
    hide Leaves, Counted, PagesOk, RightsOk, ListsOk;
  }

  lemma OutsideUse(st: State, st': State, s: nat, f: nat, u: Use)
    requires f !in st.use && u.In(s)
    requires st'.use == st.use[f := u] && st'.leaf == st.leaf
    ensures Outside(st', s) == Outside(st, s)
  {
    assert Outside(st', s).0 == Outside(st, s).0;
  }

  /** The walk finds an entry exactly when the page is present. */
  lemma PresentIff(st: State, s: nat, page: nat)
    requires Inv(st) && s in st.mms && page < PAGES
    ensures LeafAt(st.mem, st.mms[s].pageTable, page).valid <==> Key(s, page) in st.leaf
    ensures Key(s, page) in st.leaf ==>
      && Walk(st.mem, st.mms[s].pageTable, page).Some?
      && LeafAt(st.mem, st.mms[s].pageTable, page) == st.leaf[Key(s, page)]
  {
    hide Tree, Counted, PagesOk, RightsOk, ListsOk, Walk;
  }

  ghost function Without(leaf: map<Key, Entry>, s: nat, lo: nat, hi: nat): map<Key, Entry> {
    map k | k in leaf && !(k.space == s && lo <= k.page * PAGE_SIZE < hi) :: leaf[k]
  }

  lemma WithoutNext(leaf: map<Key, Entry>, s: nat, lo: nat, addr: nat)
    requires lo <= addr && addr % PAGE_SIZE == 0
    ensures Without(leaf, s, lo, addr + PAGE_SIZE) == Without(leaf, s, lo, addr) - {Key(s, addr / PAGE_SIZE)}
  {
    forall k: Key
      ensures k.space == s && addr <= k.page * PAGE_SIZE < addr + PAGE_SIZE <==> k == Key(s, addr / PAGE_SIZE)
    {
    }
  }

  /** The pages left once the entries of `list` have been cleared of the range [lo, hi). */
  ghost function LeafAfter(leaf: map<Key, Entry>, s: nat, list: seq<Vma>, lo: nat, hi: nat): map<Key, Entry> {
    map k | k in leaf && !(k.space == s && lo <= k.page * PAGE_SIZE < hi && Find(list, k.page * PAGE_SIZE).Some?) :: leaf[k]
  }

  lemma LeafAfterStep(leaf: map<Key, Entry>, s: nat, list: seq<Vma>, n: nat, lo: nat, hi: nat)
    requires n < |list|
    ensures LeafAfter(leaf, s, list[..n + 1], lo, hi) ==
      Without(LeafAfter(leaf, s, list[..n], lo, hi), s, Max(lo, list[n].start), Min(hi, list[n].end))
  {
    var after, before := LeafAfter(leaf, s, list[..n + 1], lo, hi), LeafAfter(leaf, s, list[..n], lo, hi);
    var cut := Without(before, s, Max(lo, list[n].start), Min(hi, list[n].end));
    forall k | k in leaf
      ensures k in after <==> k in cut
    {
      FindSnoc(list, n, k.page * PAGE_SIZE);
    }
    assert after.Keys == cut.Keys;
  }

  lemma FindSnoc(list: seq<Vma>, n: nat, addr: nat)
    requires n < |list|
    ensures Find(list[..n + 1], addr).Some? <==> Find(list[..n], addr).Some? || list[n].Contains(addr)
  {
    assert list[..n + 1] == list[..n] + [list[n]];
    FindConcat(list[..n], [list[n]], addr);
    assert [list[n]][1..] == [];
    assert Find([list[n]], addr).Some? <==> list[n].Contains(addr);
  }

  lemma WithoutNothing(leaf: map<Key, Entry>, s: nat, lo: nat, hi: nat)
    requires hi <= lo
    ensures Without(leaf, s, lo, hi) == leaf
  {
  }

  // ---- freeing the tables of a space in the order mm_destroy visits them ----

  /** Whether the loops, standing at entry (i, j), have yet to free this table. */
  predicate Left(u: Use, i: nat, j: nat) {
    match u
    case Root(_) => true
    case Mid(_, i') => i' >= i
    case Low(_, i', j') => i' > i || (i' == i && j' >= j)
    case Dying => true
  }

  ghost function UseLeft(use: map<nat, Use>, s: nat, i: nat, j: nat): map<nat, Use> {
    map f | f in use && (use[f].In(s) ==> Left(use[f], i, j)) :: if use[f].In(s) then Dying else use[f]
  }

  /** The walk meets every table of the space at its place and nowhere else. */
  lemma TablesOfSpace(mem: seq<Frame>, mms: map<nat, Mm>, use: map<nat, Use>, s: nat)
    requires Tree(mem, mms, use) && s in mms
    ensures
      var root := mms[s].pageTable;
      && root in use && use[root] == Root(s)
      && (forall i :: 0 <= i < ENTRIES && EntryAt(mem, root, i).valid ==>
            EntryAt(mem, root, i).frame in use && use[EntryAt(mem, root, i).frame] == Mid(s, i))
      && (forall f, j :: f in use && use[f].Mid? && use[f].In(s) && 0 <= j < ENTRIES && EntryAt(mem, f, j).valid ==>
            EntryAt(mem, f, j).frame in use && use[EntryAt(mem, f, j).frame] == Low(s, use[f].i, j))
      && (forall f :: f in use && use[f].In(s) && use[f].Root? ==> f == root)
      && (forall f :: f in use && use[f].In(s) && use[f].Mid? ==>
            use[f].i < ENTRIES && EntryAt(mem, root, use[f].i) == TableEntry(f))
      && (forall f :: f in use && use[f].In(s) && use[f].Low? ==>
            && use[f].i < ENTRIES && use[f].j < ENTRIES
            && EntryAt(mem, root, use[f].i).valid
            && EntryAt(mem, EntryAt(mem, root, use[f].i).frame, use[f].j) == TableEntry(f))
  {
  }

  lemma UseLeftLow(mem: seq<Frame>, mms: map<nat, Mm>, use: map<nat, Use>, s: nat, i: nat, l2: nat, j: nat)
    requires Tree(mem, mms, use) && s in mms && i < ENTRIES && j < ENTRIES
    requires l2 in use && use[l2] == Mid(s, i) && EntryAt(mem, mms[s].pageTable, i) == TableEntry(l2)
    ensures
      var e := EntryAt(mem, l2, j);
      if e.valid then
        && e.frame in UseLeft(use, s, i, j) && UseLeft(use, s, i, j)[e.frame] == Dying
        && UseLeft(use, s, i, j + 1) == UseLeft(use, s, i, j) - {e.frame}
      else UseLeft(use, s, i, j + 1) == UseLeft(use, s, i, j)
  {
    TablesOfSpace(mem, mms, use, s);
    hide Tree;
    var now, next := UseLeft(use, s, i, j), UseLeft(use, s, i, j + 1);
    var e := EntryAt(mem, l2, j);
    forall f | f in use
      ensures use[f] == Low(s, i, j) <==> e.valid && f == e.frame
    {
    }
    assert next.Keys == if e.valid then now.Keys - {e.frame} else now.Keys;
  }

  lemma UseLeftMid(mem: seq<Frame>, mms: map<nat, Mm>, use: map<nat, Use>, s: nat, i: nat)
    requires Tree(mem, mms, use) && s in mms && i < ENTRIES
    ensures
      var e := EntryAt(mem, mms[s].pageTable, i);
      if e.valid then
        && e.frame in use && use[e.frame] == Mid(s, i) && e == TableEntry(e.frame)
        && e.frame in UseLeft(use, s, i, ENTRIES) && UseLeft(use, s, i, ENTRIES)[e.frame] == Dying
        && UseLeft(use, s, i + 1, 0) == UseLeft(use, s, i, ENTRIES) - {e.frame}
      else UseLeft(use, s, i + 1, 0) == UseLeft(use, s, i, 0)
  {
    TablesOfSpace(mem, mms, use, s);
    hide Tree;
    var next := UseLeft(use, s, i + 1, 0);
    var e := EntryAt(mem, mms[s].pageTable, i);
    forall f | f in use
      ensures use[f] == Mid(s, i) <==> e.valid && f == e.frame
      ensures use[f].In(s) && use[f].Low? ==> use[f].j < ENTRIES && (use[f].i == i ==> e.valid)
    {
    }
    if e.valid {
      assert next.Keys == UseLeft(use, s, i, ENTRIES).Keys - {e.frame};
    } else {
      assert next.Keys == UseLeft(use, s, i, 0).Keys;
    }
  }

  lemma UseLeftEnd(mem: seq<Frame>, mms: map<nat, Mm>, use: map<nat, Use>, s: nat)
    requires Tree(mem, mms, use) && s in mms
    ensures
      var root := mms[s].pageTable;
      && root in UseLeft(use, s, ENTRIES, 0) && UseLeft(use, s, ENTRIES, 0)[root] == Dying
      && UseLeft(use, s, ENTRIES, 0) - {root} == map f | f in use && !use[f].In(s) :: use[f]
  {
    TablesOfSpace(mem, mms, use, s);
    hide Tree;
    assert (UseLeft(use, s, ENTRIES, 0) - {mms[s].pageTable}).Keys == set f | f in use && !use[f].In(s);
  }

  /** Every present page lies in some area, so clearing all areas clears all pages. */
  lemma NoPagesLeft(st: State, s: nat)
    requires Inv(st) && s in st.mms
    ensures LeafAfter(st.leaf, s, st.mms[s].vmas, 0, USER_SPACE_END) == map k | k in st.leaf && k.space != s :: st.leaf[k]
  {
    hide Inv, Find;
    forall k | k in st.leaf && k.space == s
      ensures Find(st.mms[s].vmas, k.page * PAGE_SIZE).Some? && k.page * PAGE_SIZE < USER_SPACE_END
    {
      PresentPage(st, k);
    }
  }

  lemma SpaceList(st: State, s: nat)
    requires Inv(st) && s in st.mms
    ensures ListOk(st.mms[s].vmas) && NoDevices(st.mms[s].vmas) && st.mms[s].mmapBase == USER_MMAP_BASE
  {
    InvTree(st);
    hide Inv;
  }

  lemma LeafAfterNone(leaf: map<Key, Entry>, s: nat, lo: nat, hi: nat)
    ensures LeafAfter(leaf, s, [], lo, hi) == leaf
  {
  }

  lemma InvTree(st: State)
    requires Inv(st)
    ensures Tree(st.mem, st.mms, st.use) && Leaves(st.mem, st.mms, st.leaf) && ListsOk(st.mms)
  {
    hide Tree, Leaves, Counted, PagesOk, RightsOk, ListsOk;
  }

  lemma SameDataWithout(m0: seq<Frame>, m1: seq<Frame>, m2: seq<Frame>, leaf: map<Key, Entry>, s: nat, lo: nat, hi: nat)
    requires SameData(m0, m1, leaf) && SameData(m1, m2, Without(leaf, s, lo, hi))
    ensures SameData(m0, m2, Without(leaf, s, lo, hi))
  {
  }

  lemma OutsideDestroyed(st: State, st': State, s: nat)
    requires st'.use == map f | f in st.use && !st.use[f].In(s) :: st.use[f]
    requires st'.leaf == map k | k in st.leaf && k.space != s :: st.leaf[k]
    ensures Outside(st', s) == Outside(st, s) == (st'.use, st'.leaf)
  {
    assert Outside(st', s).0 == st'.use == Outside(st, s).0;
    assert Outside(st', s).1 == st'.leaf == Outside(st, s).1;
  }

  lemma DetachedIsLeft(use: map<nat, Use>, s: nat)
    ensures Detached(use, s) == UseLeft(use, s, 0, 0)
  {
  }

  /** Clearing a leaf entry leaves every other page's bytes alone. */
  lemma ClearKeepsData(st: State, k: Key, low: nat, index: nat)
    requires Inv(st) && low in st.use && low < |st.mem| && st.mem[low].Table? && index < |st.mem[low].entries|
    ensures forall e :: SameData(st.mem, WithLeaf(st.mem, low, index, e), st.leaf)
  {
    hide Inv, EntryOk, IsPrivate;
    forall l | l in st.leaf
      ensures st.leaf[l].frame != low
    {
      PresentPage(st, l);
    }
  }

  /** The page an address belongs to and its area. */
  lemma AreaOf(st: State, s: nat, addr: nat)
    requires Inv(st) && s in st.mms
    ensures Area(st.mms, Key(s, addr / PAGE_SIZE)) == Find(st.mms[s].vmas, addr)
    ensures Find(st.mms[s].vmas, addr).Some? ==> addr / PAGE_SIZE < PAGES
    ensures Find(st.mms[s].vmas, addr).Some? ==> VmaOk(Find(st.mms[s].vmas, addr).value)
  {
    hide Inv, Find;
    SpaceList(st, s);
    FindPage(st.mms[s].vmas, addr);
  }

  lemma DemandOk(mms: map<nat, Mm>, k: Key, frame: nat, v: Vma)
    requires Area(mms, k) == Some(v)
    ensures EntryOk(mms, k, DemandEntry(frame, v)) && Granted(DemandEntry(frame, v), v) && DemandEntry(frame, v).frame == frame
  {
    hide Area;
  }

  lemma CopyOk(mms: map<nat, Mm>, k: Key, frame: nat, v: Vma)
    requires Area(mms, k) == Some(v) && v.Has(VMA_WRITE)
    ensures EntryOk(mms, k, CopyEntry(frame, v)) && Granted(CopyEntry(frame, v), v)
  {
    hide Area;
  }

  lemma FileIsNotAnonymous(mms: map<nat, Mm>, k: Key, v: Vma)
    requires Area(mms, k) == Some(v)
    ensures v.kind == File ==> !IsPrivateAnonymous(mms, k)
  {
    hide Area;
  }

  lemma SharedFrameLive(st: State, k: Key)
    requires Inv(st) && k in st.leaf
    ensures st.leaf[k].frame < |st.counts| == |st.mem| && st.counts[st.leaf[k].frame] > 0
  {
    PagesOwned(st);
    PresentPage(st, k);
    ReferencedCounted(st, st.leaf[k].frame);
    hide Inv;
  }

  lemma WritableOrMarked(mms: map<nat, Mm>, k: Key, e: Entry, v: Vma)
    requires EntryOk(mms, k, e) && Area(mms, k) == Some(v)
    ensures v.Has(VMA_WRITE) ==> e.UserWritable() || e.cow
  {
    hide Area;
  }

  /** A page that is all its space's own, with exactly the rights of its area. */
  ghost predicate Granted(e: Entry, v: Vma) {
    && e.UserReadable() && !e.cow
    && (e.UserWritable() <==> v.Has(VMA_WRITE)) && (e.uxn <==> !v.Has(VMA_EXEC))
  }

  /** The bytes of a page used for the first time: those of the file from the page's place in it on, zeros
      behind its end, and zeros in memory that maps no file. `files` is what each file holds. */
  ghost predicate Shows(bytes: seq<Byte>, v: Vma, page: nat, files: map<nat, seq<Byte>>) {
    && |bytes| == PAGE_SIZE
    && forall j :: 0 <= j < PAGE_SIZE ==>
         var i := (v.pgoff + (page * PAGE_SIZE - v.start)) % WORD + j;
         bytes[j] == if v.kind == File && v.file.Some? && v.file.value in files && i < |files[v.file.value]| then files[v.file.value][i] else 0
  }

  /** The read of vma_page_fault into a zeroed frame. */
  method FirstBytes(v: Vma, page: nat, files: map<nat, seq<Byte>>) returns (bytes: seq<Byte>)
    ensures |bytes| == PAGE_SIZE && Shows(bytes, v, page, files)
    ensures v.kind != File ==> bytes == Zeros()
  {
    bytes := Zeros();
    if v.kind == File && v.file.Some? && v.file.value in files {
      var file := files[v.file.value];
      var offset := (v.pgoff + (page * PAGE_SIZE - v.start)) % WORD;
      if offset < |file| {
        var n := Min(PAGE_SIZE, |file| - offset);
        bytes := Patched(bytes, 0, file[offset..offset + n]);
      }
    }
  }

  /** What a successful fault leaves: the page is present with its area's rights, writable if a
      write was asked for, showing zeros (or the file) on first use and its old bytes after a copy. */
  ghost predicate Served(st: State, st': State, k: Key, v: Vma, isWrite: bool, files: map<nat, seq<Byte>>) {
    && k in st'.leaf && st'.leaf == st.leaf[k := st'.leaf[k]] && Granted(st'.leaf[k], v)
    && (isWrite ==> v.Has(VMA_WRITE))
    && if k in st.leaf then
         isWrite && st.leaf[k].cow && st'.leaf[k].frame != st.leaf[k].frame && Content(st', k) == Content(st, k)
       else
         Shows(Content(st', k), v, k.page, files)
  }

  /** Why a fault inside an area may fail: a forbidden write, no free frame, or no fault at all. */
  ghost predicate Refused(st: State, k: Key, v: Vma, isWrite: bool, freeFrames: nat) {
    || (isWrite && !v.Has(VMA_WRITE))
    || freeFrames == 0
    || (k in st.leaf && (isWrite ==> st.leaf[k].UserWritable()))
  }

  lemma MayRefuse(st: State, k: Key, v: Vma, isWrite: bool, freeFrames: nat)
    ensures (isWrite && !v.Has(VMA_WRITE)) || freeFrames == 0 || (k in st.leaf && (isWrite ==> st.leaf[k].UserWritable()))
      ==> Refused(st, k, v, isWrite, freeFrames)
  {
  }

  lemma SameDataTwice(m0: seq<Frame>, m1: seq<Frame>, m2: seq<Frame>, leaf: map<Key, Entry>)
    requires SameData(m0, m1, leaf) && SameData(m1, m2, leaf)
    ensures SameData(m0, m2, leaf)
  {
  }

  lemma ServedDemand(st: State, st': State, k: Key, v: Vma, isWrite: bool, files: map<nat, seq<Byte>>)
    requires k !in st.leaf && (isWrite ==> v.Has(VMA_WRITE))
    ensures
      (&& k in st'.leaf && st'.leaf == st.leaf[k := st'.leaf[k]]
       && Granted(st'.leaf[k], v) && Shows(Content(st', k), v, k.page, files))
      ==> Served(st, st', k, v, isWrite, files)
  {
    hide Content, Granted, Shows;
  }

  lemma ServedCopy(st: State, mid: State, st': State, k: Key, v: Vma, files: map<nat, seq<Byte>>)
    requires k in st.leaf && mid.leaf == st.leaf && v.Has(VMA_WRITE) && st.leaf[k].cow
    requires SameData(st.mem, mid.mem, st.leaf) && st.leaf[k].frame < |mid.counts| == |mid.mem| && mid.counts[st.leaf[k].frame] > 0
    ensures
      (&& k in st'.leaf && st'.leaf == mid.leaf[k := st'.leaf[k]]
       && Granted(st'.leaf[k], v)
       && st'.leaf[k].frame < |mid.counts| && mid.counts[st'.leaf[k].frame] == 0
       && Content(st', k) == Content(mid, k))
      ==> Served(st, st', k, v, true, files)
  {
    hide Granted;
  }

  /** Filling an unused frame and writing a leaf entry leave all other pages' bytes alone. */
  ghost predicate CopyFits(st: State, k: Key, low: nat, frame: nat) {
    && TableAt(st, low) && low != frame && k in st.leaf && frame != st.leaf[k].frame
    && frame < |st.mem| == |st.counts| && st.leaf[k].frame < |st.counts| && st.counts[st.leaf[k].frame] > 0
  }

  ghost function CopiedState(st: State, k: Key, low: nat, frame: nat, v: Vma): State
    requires CopyFits(st, k, low, frame)
  {
    var e, f := CopyEntry(frame, v), st.leaf[k].frame;
    st.(mem := WithLeaf(st.mem[frame := st.mem[f]], low, LowIndex(k.page), e),
        counts := st.counts[frame := 1][f := st.counts[f] - 1], leaf := st.leaf[k := e])
  }

  /** A shared page gets a frame of its own: everything but where its bytes lie stays as it was. */
  lemma CopiedPage(h: History, st: State, k: Key, low: nat, frame: nat, v: Vma)
    requires Inv(st) && Faithful(h, st) && k in st.leaf && Area(st.mms, k) == Some(v) && v.Has(VMA_WRITE)
    requires Walk(st.mem, st.mms[k.space].pageTable, k.page) == Some(low)
    requires frame < |st.mem| == |st.counts| && st.counts[frame] == 0
    ensures CopyFits(st, k, low, frame)
    ensures var st' := CopiedState(st, k, low, frame, v);
      && Inv(st') && Faithful(h, st') && SameData(st.mem, st'.mem, st.leaf)
      && Outside(st', k.space) == Outside(st, k.space) && Content(st', k) == Content(st, k)
  {
    hide Inv, Walk, Area, Faithful, EntryOk, IsPrivate, SameData, Outside;
    PresentPage(st, k);
    var e, f := CopyEntry(frame, v), st.leaf[k].frame;
    CopyOk(st.mms, k, frame, v);
    KeepCopy(st, k, low, e);
    FillKeepsData(st, frame, st.mem[f], low, LowIndex(k.page), e);
    var st' := CopiedState(st, k, low, frame, v);
    assert Content(st', k) == Content(st, k);
    OutsideLeaf(st, st', k);
    PageMoved(h, st, st', k);
  }

  lemma PageMoved(h: History, st: State, st': State, k: Key)
    requires Inv(st) && Inv(st') && Faithful(h, st) && st'.mms == st.mms && st'.others == st.others && k in st.leaf
    requires k in st'.leaf && st'.leaf == st.leaf[k := st'.leaf[k]] && SameData(st.mem, st'.mem, st.leaf)
    requires Content(st', k) == Content(st, k)
    ensures Faithful(h, st')
  {
    hide Inv, Faithful;
    assert forall l :: l in st.leaf - {k} ==> st'.leaf[l] == st.leaf[l];
    FaithfulPage(h, st, st', k);
  }

  lemma FillKeepsData(st: State, f: nat, content: Frame, low: nat, index: nat, e: Entry)
    requires Inv(st) && f < |st.counts| && st.counts[f] == 0 && f < |st.mem|
    requires low in st.use && low < |st.mem| && low != f && st.mem[low].Table? && index < |st.mem[low].entries|
    ensures SameData(st.mem, WithLeaf(st.mem[f := content], low, index, e), st.leaf)
    ensures WithLeaf(st.mem[f := content], low, index, e)[f] == content
  {
    hide Inv;
    ZeroCountUnused(st, f);
    forall l | l in st.leaf
      ensures st.leaf[l].frame != low
    {
      PresentPage(st, l);
    }
  }

  lemma OutsideSame(st: State, st': State, s: nat)
    requires st'.use == st.use && st'.leaf == st.leaf
    ensures Outside(st', s) == Outside(st, s)
  {
  }

  lemma OutsideLeaf(st: State, st': State, k: Key)
    requires st'.use == st.use
    requires forall l :: l != k ==> (l in st'.leaf <==> l in st.leaf)
    requires forall l :: l != k && l in st.leaf ==> st'.leaf[l] == st.leaf[l]
    ensures Outside(st', k.space) == Outside(st, k.space)
  {
    assert Outside(st', k.space).1 == Outside(st, k.space).1;
  }

  /** Same areas, same present pages with the same bytes, one page possibly new: nothing private changed. */
  lemma FaithfulPage(h: History, st: State, st': State, k: Key)
    requires Faithful(h, st)
    requires st'.mms == st.mms
    requires forall l :: l != k ==> (l in st'.leaf <==> l in st.leaf)
    requires forall l :: l != k && l in st.leaf ==> st'.leaf[l].frame == st.leaf[l].frame
    requires SameData(st.mem, st'.mem, st.leaf - {k})
    requires IsPrivateAnonymous(st.mms, k) ==> Content(st', k) == Content(st, k)
    ensures Faithful(h, st')
  {
    hide IsPrivateAnonymous, Expected;
    forall l: Key | IsPrivateAnonymous(st'.mms, l)
      ensures Content(st', l) == Content(st, l)
    {
      if l != k && l in st.leaf {
        assert l in st.leaf - {k};
      }
    }
    FaithfulKept(h, st, st');
  }

  /** The source's assumption about the stack: the entry marked as growing down has only free
      space between it and the faulting page. */
  ghost predicate GrowthSafe(l: seq<Vma>, addr: nat) {
    forall i: nat :: IsGrowsDown(l, i) ==> GapBelow(l, i, addr / PAGE_SIZE * PAGE_SIZE)
  }

  method IsGrowthSafe(l: seq<Vma>, addr: nat) returns (safe: bool)
    ensures safe <==> GrowthSafe(l, addr)
  {
    hide GrowthSafe, GapBelow;
    for i := 0 to |l|
      invariant forall j :: 0 <= j < i ==> !l[j].Has(VMA_GROWSDN)
    {
      if l[i].Has(VMA_GROWSDN) {
        OneGrowing(l, i, addr);
        return GapBelow(l, i, addr / PAGE_SIZE * PAGE_SIZE);
      }
    }
    NoneGrowing(l, addr);
    return true;
  }

  lemma NoneGrowing(l: seq<Vma>, addr: nat)
    requires forall j :: 0 <= j < |l| ==> !l[j].Has(VMA_GROWSDN)
    ensures GrowthSafe(l, addr)
  {
  }

  /** What vma_expand_stack does: the first area marked as growing down starts at the faulting page. */
  ghost predicate StackGrown(l: seq<Vma>, l': seq<Vma>, h: History, h': History, s: nat, addr: nat) {
    exists i: nat ::
      && IsGrowsDown(l, i) && l' == Restarted(l, i, addr / PAGE_SIZE * PAGE_SIZE)
      && h' == h + [Cleared(s, addr / PAGE_SIZE, l[i].start / PAGE_SIZE)]
  }

  /** A list whose stack has grown over something, or upwards, breaks the invariant. */
  lemma GrowthBreaks(st: State, s: nat, i: nat, addr: nat)
    requires Inv(st) && s in st.mms && Find(st.mms[s].vmas, addr).None? && IsGrowsDown(st.mms[s].vmas, i)
    requires !GapBelow(st.mms[s].vmas, i, addr / PAGE_SIZE * PAGE_SIZE)
    ensures !Inv(st.(mms := st.mms[s := st.mms[s].(vmas := Restarted(st.mms[s].vmas, i, addr / PAGE_SIZE * PAGE_SIZE))]))
  {
    hide Inv, Find, GapBelow, Restarted;
    SpaceList(st, s);
    ExpandOkIff(st.mms[s].vmas, i, addr);
    var st' := st.(mms := st.mms[s := st.mms[s].(vmas := Restarted(st.mms[s].vmas, i, addr / PAGE_SIZE * PAGE_SIZE))]);
    if Inv(st') {
      SpaceList(st', s);
    }
  }

  lemma GrowthKeeps(h: History, st: State, s: nat, mm: Mm, i: nat, addr: nat)
    requires Inv(st) && Faithful(h, st) && s in st.mms && i < |st.mms[s].vmas| && GapBelow(st.mms[s].vmas, i, addr / PAGE_SIZE * PAGE_SIZE)
    requires mm == st.mms[s].(vmas := Restarted(st.mms[s].vmas, i, addr / PAGE_SIZE * PAGE_SIZE))
    ensures Inv(st.(mms := st.mms[s := mm])) && Find(mm.vmas, addr).Some?
    ensures Faithful(h + [Cleared(s, addr / PAGE_SIZE * PAGE_SIZE / PAGE_SIZE, st.mms[s].vmas[i].start / PAGE_SIZE)], st.(mms := st.mms[s := mm]))
  {
    hide Inv, Find, Faithful;
    var l, newStart := st.mms[s].vmas, addr / PAGE_SIZE * PAGE_SIZE;
    SpaceList(st, s);
    ExpandOk(l, i, newStart);
    assert NoDevices(mm.vmas);
    forall a: nat
      ensures newStart <= a < l[i].start ==> Find(l, a).None?
      ensures !(newStart <= a < l[i].start) ==> SameRights(Find(mm.vmas, a), Find(l, a))
    {
      ExpandFind(l, i, newStart, a);
    }
    NewArea(h, st, s, mm, newStart, l[i].start);
    FindIs(mm.vmas, newStart, i);
    FindPage(mm.vmas, addr);
  }

  lemma OneGrowing(l: seq<Vma>, i: nat, addr: nat)
    requires IsGrowsDown(l, i)
    ensures GrowthSafe(l, addr) <==> GapBelow(l, i, addr / PAGE_SIZE * PAGE_SIZE)
  {
    hide GapBelow;
    assert forall j: nat :: IsGrowsDown(l, j) ==> j == i;
  }

  /** An address without an area has no present page. */
  lemma UncoveredAbsent(st: State, k: Key)
    requires Inv(st)
    requires Area(st.mms, k).None?
    ensures k !in st.leaf
  {
    if k in st.leaf {
      hide Inv, Area;
      PresentPage(st, k);
    }
  }

  /** Replacing the area list of `s` by one that newly covers only pages of [lo, hi) keeps the
      invariant and makes those pages read as zeros. */
  lemma NewArea(h: History, st: State, s: nat, mm: Mm, lo: nat, hi: nat)
    requires Inv(st) && Faithful(h, st) && s in st.mms && MmOk(mm) && mm.pageTable == st.mms[s].pageTable
    requires lo % PAGE_SIZE == 0 && hi % PAGE_SIZE == 0
    requires forall p: nat :: lo <= p * PAGE_SIZE < hi ==> Find(st.mms[s].vmas, p * PAGE_SIZE).None?
    requires forall p: nat :: !(lo <= p * PAGE_SIZE < hi) ==>
      SameRights(Find(mm.vmas, p * PAGE_SIZE), Find(st.mms[s].vmas, p * PAGE_SIZE))
    ensures Inv(st.(mms := st.mms[s := mm]))
    ensures Faithful(h + [Cleared(s, lo / PAGE_SIZE, hi / PAGE_SIZE)], st.(mms := st.mms[s := mm]))
  {
    hide Inv, Expected, Find;
    var st' := st.(mms := st.mms[s := mm]);
    forall k | k in st.leaf && k.space == s
      ensures SameRights(Find(mm.vmas, k.page * PAGE_SIZE), Find(st.mms[s].vmas, k.page * PAGE_SIZE))
    {
      PresentPage(st, k);
    }
    KeepSetVmas(st, s, mm);
    forall k: Key | IsPrivateAnonymous(st'.mms, k)
      ensures if k.space == s && lo / PAGE_SIZE <= k.page < hi / PAGE_SIZE then Content(st', k) == Zeros()
              else IsPrivateAnonymous(st.mms, k) && Content(st', k) == Content(st, k)
    {
      if k.space == s && lo <= k.page * PAGE_SIZE < hi {
        UncoveredAbsent(st, k);
      }
    }
    FaithfulCleared(h, st, st', s, lo / PAGE_SIZE, hi / PAGE_SIZE);
  }

  // ---- reserving ----

  function RoundUp(length: nat): (r: nat)
    ensures r % PAGE_SIZE == 0 && length <= r < length + PAGE_SIZE
  {
    (length + PAGE_SIZE - 1) / PAGE_SIZE * PAGE_SIZE
  }

  /** Rounding in 64 bits agrees with rounding, or the length was hopeless and comes out as 0. */
  lemma RoundUpWraps(length: nat)
    requires 0 < length < WORD
    ensures
      var size := (length + PAGE_SIZE - 1) % WORD / PAGE_SIZE * PAGE_SIZE;
      && size < WORD && size % PAGE_SIZE == 0
      && (RoundUp(length) <= USER_SPACE_END ==> size == RoundUp(length) && size > 0)
      && (size == 0 || size == RoundUp(length))
  {
    var sum := length + PAGE_SIZE - 1;
    if sum < WORD {
      assert sum % WORD == sum;
    } else {
      assert sum % WORD == sum - WORD;
      assert (sum - WORD) / PAGE_SIZE == 0;
    }
  }

  /** A wrapped sum ends below its start, so it never passes for a range. */
  lemma WrapsBeyond(a: nat, size: nat)
    requires a < WORD && size < WORD
    ensures (a + size) % WORD == if a + size < WORD then a + size else a + size - WORD
  {
  }

  function StackVma(): Vma {
    Vma(USER_STACK_TOP - USER_STACK_SIZE, USER_STACK_TOP, VMA_READ | VMA_WRITE | VMA_GROWSDN, Anonymous, None, 0)
  }

  lemma StackOk()
    ensures ListOk([]) && ListOk([StackVma()])
  {
  }

  lemma FirstFitSound(l: seq<Vma>, size: nat)
    requires ListOk(l)
    ensures
      var a := FirstFit(l, USER_MMAP_BASE, size);
      && USER_MMAP_BASE <= a <= USER_SPACE_END && a % PAGE_SIZE == 0
      && (0 < size <= USER_SPACE_END ==> FreeAt(l, a, size))
      && (0 < size <= USER_SPACE_END ==> forall b :: USER_MMAP_BASE <= b && FreeAt(l, b, size) ==> a <= b)
  {
    FirstFitBounds(l, USER_MMAP_BASE, size);
    if 0 < size <= USER_SPACE_END {
      FirstFitFree(l, USER_MMAP_BASE, size);
      forall b | USER_MMAP_BASE <= b && FreeAt(l, b, size)
        ensures FirstFit(l, USER_MMAP_BASE, size) <= b
      {
        FirstFitLowest(l, USER_MMAP_BASE, size, b);
      }
    }
  }

  lemma FreeUncovered(l: seq<Vma>, lo: nat, hi: nat, addr: nat)
    requires lo < hi && FreeAt(l, lo, hi - lo) && lo <= addr < hi
    ensures Find(l, addr).None?
  {
    FindNone(l, addr);
    forall i | 0 <= i < |l|
      ensures !l[i].Contains(addr)
    {
      assert !l[i].Overlaps(lo, lo + (hi - lo));
    }
  }

  lemma InsertedArea(h: History, st: State, s: nat, v: Vma)
    requires Inv(st) && Faithful(h, st) && s in st.mms && VmaOk(v) && v.kind != Device && FreeAt(st.mms[s].vmas, v.start, v.end - v.start)
    ensures
      var st' := st.(mms := st.mms[s := st.mms[s].(vmas := Insert(st.mms[s].vmas, v))]);
      Inv(st') && Faithful(h + [Cleared(s, v.start / PAGE_SIZE, v.end / PAGE_SIZE)], st')
  {
    hide Inv, Faithful, Find, FreeAt, Insert;
    var l := st.mms[s].vmas;
    SpaceList(st, s);
    InsertOk(l, v);
    var mm := st.mms[s].(vmas := Insert(l, v));
    assert forall x :: x in mm.vmas ==> x.kind != Device;
    forall a: nat
      ensures v.start <= a < v.end ==> Find(l, a).None?
      ensures !(v.start <= a < v.end) ==> SameRights(Find(mm.vmas, a), Find(l, a))
    {
      InsertFind(l, v, a);
      if v.start <= a < v.end {
        FreeUncovered(l, v.start, v.end, a);
      }
    }
    NewArea(h, st, s, mm, v.start, v.end);
  }

  lemma NewSpace(h: History, st: State, st': State, s: nat)
    requires Faithful(h, st) && Inv(st) && Inv(st') && s !in st.mms && s in st'.mms && st'.mms == st.mms[s := st'.mms[s]]
    requires st'.leaf == st.leaf && SameData(st.mem, st'.mem, st.leaf)
    ensures Faithful(h + [Cleared(s, 0, PAGES)], st')
  {
    hide Inv, Expected, Find;
    forall k: Key | IsPrivateAnonymous(st'.mms, k)
      ensures if k.space == s && 0 <= k.page < PAGES then Content(st', k) == Zeros()
              else IsPrivateAnonymous(st.mms, k) && Content(st', k) == Content(st, k)
    {
      if k.space == s {
        PagesOwned(st);
        AreaOf(st', s, k.page * PAGE_SIZE);
      }
    }
    FaithfulCleared(h, st, st', s, 0, PAGES);
  }

  lemma FaithfulDestroyed(h: History, st: State, st': State, s: nat)
    requires Faithful(h, st) && st'.mms == st.mms - {s}
    requires Outside(st, s) == (st'.use, st'.leaf) && SameData(st.mem, st'.mem, st'.leaf)
    ensures Faithful(h, st')
  {
    hide Expected, Find;
    forall k: Key | IsPrivateAnonymous(st'.mms, k)
      ensures IsPrivateAnonymous(st.mms, k) && Content(st', k) == Content(st, k)
    {
      assert k in st'.leaf <==> k in st.leaf;
      assert k in st.leaf ==> st'.leaf[k] == st.leaf[k];
    }
    FaithfulKept(h, st, st');
  }

  lemma PresentIff'(st: State, k: Key)
    requires Inv(st) && k in st.leaf
    ensures k.space in st.mms && k.page < PAGES
    ensures Walk(st.mem, st.mms[k.space].pageTable, k.page).Some?
    ensures LeafAt(st.mem, st.mms[k.space].pageTable, k.page) == st.leaf[k]
    ensures DataFrame(st.mem, st.others, st.use, st.leaf[k].frame)
  {
    PresentPage(st, k);
    PresentIff(st, k.space, k.page);
    hide Inv;
  }

  // ---- unmapping ----

  lemma ReplacedIs(l: seq<Vma>, pos: nat, lo: nat, hi: nat)
    requires pos < |l| && lo < hi && l[pos].start < l[pos].end
    ensures
      var v := l[pos];
      Replaced(l, pos, lo, hi) ==
      if v.end <= lo || v.start >= hi then l
      else if lo <= v.start && hi >= v.end then l[..pos] + l[pos + 1..]
      else if lo <= v.start then l[pos := v.(start := hi)]
      else if hi >= v.end then l[pos := v.(end := lo)]
      else l[..pos] + [v.(end := lo), Vma(hi, v.end, v.flags, v.kind, None, 0)] + l[pos + 1..]
  {
    var v := l[pos];
    assert l == l[..pos] + [v] + l[pos + 1..];
    assert forall w :: l[pos := w] == l[..pos] + [w] + l[pos + 1..];
    assert l[..pos] + [] + l[pos + 1..] == l[..pos] + l[pos + 1..];
  }

  /** Once its pages in the range are gone, an entry may be trimmed. */
  lemma TrimmedList(st: State, s: nat, pos: nat, lo: nat, hi: nat, leaf0: map<Key, Entry>)
    requires Inv(st) && s in st.mms && pos < |st.mms[s].vmas|
    requires lo < hi && lo % PAGE_SIZE == 0 && hi % PAGE_SIZE == 0
    requires st.leaf == Without(leaf0, s, Max(lo, st.mms[s].vmas[pos].start), Min(hi, st.mms[s].vmas[pos].end))
    ensures Inv(st.(mms := st.mms[s := st.mms[s].(vmas := Replaced(st.mms[s].vmas, pos, lo, hi))]))
  {
    hide Inv, Find, Replaced;
    var l := st.mms[s].vmas;
    SpaceList(st, s);
    ReplacedOk(l, pos, lo, hi);
    ReplacedKinds(l, pos, lo, hi);
    forall k | k in st.leaf && k.space == s
      ensures SameRights(Find(Replaced(l, pos, lo, hi), k.page * PAGE_SIZE), Find(l, k.page * PAGE_SIZE))
    {
      ReplacedFind(l, pos, lo, hi, k.page * PAGE_SIZE);
    }
    KeepSetVmas(st, s, st.mms[s].(vmas := Replaced(l, pos, lo, hi)));
  }

  lemma UnmapBegin(l: seq<Vma>, lo: nat, hi: nat)
    ensures l[..0] == [] && Unmapped(l[..0], lo, hi) == [] && Unmapped(l[..0], lo, hi) + l[0..] == l
  {
  }

  /** Trimming the entry at the cursor advances the half-done list by one entry. */
  lemma UnmapAt(l: seq<Vma>, n: nat, pos: nat, lo: nat, hi: nat)
    requires n <= |l| && pos == |Unmapped(l[..n], lo, hi)| && lo < hi
    requires pos < |Unmapped(l[..n], lo, hi) + l[n..]|
    ensures n < |l| && (Unmapped(l[..n], lo, hi) + l[n..])[pos] == l[n]
    ensures Replaced(Unmapped(l[..n], lo, hi) + l[n..], pos, lo, hi) == Unmapped(l[..n + 1], lo, hi) + l[n + 1..]
    ensures |Unmapped(l[..n + 1], lo, hi)| == pos + |Trim(l[n], lo, hi)|
  {
    hide Unmapped, Trim;
    UnmappedStep(l, n, lo, hi);
    var done := Unmapped(l[..n], lo, hi);
    var now := done + l[n..];
    assert now[..pos] == done;
    assert now[pos + 1..] == l[n + 1..];
    assert done + Trim(l[n], lo, hi) + l[n + 1..] == (done + Trim(l[n], lo, hi)) + l[n + 1..];
  }

  lemma UnmapEnd(l: seq<Vma>, n: nat, pos: nat, lo: nat, hi: nat)
    requires n <= |l| && pos == |Unmapped(l[..n], lo, hi)| && pos >= |Unmapped(l[..n], lo, hi) + l[n..]|
    ensures l[..n] == l && Unmapped(l[..n], lo, hi) + l[n..] == Unmapped(l, lo, hi)
  {
    hide Unmapped;
    assert |l[n..]| == 0;
    assert l[..n] == l;
    assert Unmapped(l[..n], lo, hi) + l[n..] == Unmapped(l[..n], lo, hi);
  }

  /** If the range lies strictly inside one entry, no earlier entry met it. */
  lemma UntouchedBefore(l: seq<Vma>, n: nat, lo: nat, hi: nat)
    requires ListOk(l) && n < |l| && lo < hi && l[n].start < lo
    ensures FreeAt(l[..n], lo, hi - lo)
  {
  }

  lemma FreeAtSnoc(l: seq<Vma>, n: nat, lo: nat, hi: nat)
    requires n < |l| && lo < hi
    ensures FreeAt(l[..n + 1], lo, hi - lo) ==> FreeAt(l[..n], lo, hi - lo) && !l[n].Overlaps(lo, hi)
  {
    if FreeAt(l[..n + 1], lo, hi - lo) {
      assert l[..n + 1][n] == l[n];
      assert lo + (hi - lo) == hi;
      assert forall i :: 0 <= i < n ==> l[..n][i] == l[..n + 1][i];
    }
  }

  /** The state after the loop has dealt with the first `n` entries and stands at position `pos`. */
  ghost predicate HalfUnmapped(st: State, now: State, s: nat, n: nat, pos: nat, lo: nat, hi: nat) {
    && s in st.mms && n <= |st.mms[s].vmas|
    && var l := st.mms[s].vmas;
    && pos == |Unmapped(l[..n], lo, hi)|
    && now.mms == st.mms[s := st.mms[s].(vmas := Unmapped(l[..n], lo, hi) + l[n..])]
    && now.leaf == LeafAfter(st.leaf, s, l[..n], lo, hi)
    && SameData(st.mem, now.mem, now.leaf)
    && (lo < hi && FreeAt(l[..n], lo, hi - lo) ==> now == st)
  }

  lemma HalfUnmappedBegin(st: State, s: nat, lo: nat, hi: nat)
    requires s in st.mms
    ensures HalfUnmapped(st, st, s, 0, 0, lo, hi)
  {
    hide SameData;
    LeafAfterNone(st.leaf, s, lo, hi);
    UnmapBegin(st.mms[s].vmas, lo, hi);
    SameDataSelf(st.mem, st.leaf);
  }

  lemma HalfUnmappedAt(st: State, now: State, s: nat, n: nat, pos: nat, lo: nat, hi: nat)
    requires HalfUnmapped(st, now, s, n, pos, lo, hi) && lo < hi && s in now.mms && pos < |now.mms[s].vmas|
    ensures n < |st.mms[s].vmas| && now.mms[s].vmas[pos] == st.mms[s].vmas[n]
  {
    hide SameData, Unmapped, LeafAfter;
    UnmapAt(st.mms[s].vmas, n, pos, lo, hi);
  }

  lemma HalfUnmappedFailed(st: State, now: State, s: nat, n: nat, pos: nat, lo: nat, hi: nat)
    requires HalfUnmapped(st, now, s, n, pos, lo, hi) && Inv(st)
    requires lo < hi && n < |st.mms[s].vmas| && st.mms[s].vmas[n].start < lo && hi < st.mms[s].vmas[n].end
    ensures now == st && exists v :: v in st.mms[s].vmas && v.start < lo && hi < v.end
  {
    hide Inv, SameData, Unmapped, LeafAfter, ListOk;
    SpaceList(st, s);
    UntouchedBefore(st.mms[s].vmas, n, lo, hi);
    assert st.mms[s].vmas[n] in st.mms[s].vmas;
  }

  /** An entry reaches beyond the range on both sides, so that unmapping must split it. */
  ghost predicate Splits(l: seq<Vma>, lo: nat, hi: nat) {
    exists i :: 0 <= i < |l| && l[i].start < lo && hi < l[i].end
  }

  lemma AllPassed(st: State, now: State, s: nat, n: nat, pos: nat, lo: nat, hi: nat)
    requires HalfUnmapped(st, now, s, n, pos, lo, hi) && s in now.mms && pos >= |now.mms[s].vmas|
    ensures n == |st.mms[s].vmas|
  {
    hide SameData, Unmapped, LeafAfter;
  }

  lemma HalfUnmappedStep(st: State, mid: State, now: State, s: nat, n: nat, pos: nat, next: nat, lo: nat, hi: nat)
    requires HalfUnmapped(st, mid, s, n, pos, lo, hi) && lo < hi && s in mid.mms && pos < |mid.mms[s].vmas|
    requires n < |st.mms[s].vmas| && mid.mms[s].vmas[pos] == st.mms[s].vmas[n]
    requires now.mms == mid.mms[s := mid.mms[s].(vmas := Replaced(mid.mms[s].vmas, pos, lo, hi))]
    requires next == pos + |Trim(st.mms[s].vmas[n], lo, hi)|
    requires now.leaf == Without(mid.leaf, s, Max(lo, st.mms[s].vmas[n].start), Min(hi, st.mms[s].vmas[n].end))
    requires SameData(mid.mem, now.mem, now.leaf)
    requires !st.mms[s].vmas[n].Overlaps(lo, hi) ==> now == mid
    ensures HalfUnmapped(st, now, s, n + 1, next, lo, hi)
  {
    hide SameData, Unmapped, LeafAfter, Replaced, Trim, Without, FreeAt;
    var l := st.mms[s].vmas;
    UnmapAt(l, n, pos, lo, hi);
    LeafAfterStep(st.leaf, s, l, n, lo, hi);
    SameDataWithout(st.mem, mid.mem, now.mem, mid.leaf, s, Max(lo, l[n].start), Min(hi, l[n].end));
    FreeAtSnoc(l, n, lo, hi);
  }

  lemma HalfUnmappedEnd(st: State, now: State, s: nat, n: nat, pos: nat, lo: nat, hi: nat)
    requires HalfUnmapped(st, now, s, n, pos, lo, hi) && s in now.mms && pos >= |now.mms[s].vmas|
    ensures now.mms == st.mms[s := st.mms[s].(vmas := Unmapped(st.mms[s].vmas, lo, hi))]
    ensures now.leaf == LeafAfter(st.leaf, s, st.mms[s].vmas, lo, hi)
    ensures SameData(st.mem, now.mem, now.leaf)
  {
    hide SameData, Unmapped, LeafAfter;
    UnmapEnd(st.mms[s].vmas, n, pos, lo, hi);
  }

  lemma AllCovered(st: State, s: nat, lo: nat, hi: nat)
    requires Inv(st) && s in st.mms
    ensures LeafAfter(st.leaf, s, st.mms[s].vmas, lo, hi) == Without(st.leaf, s, lo, hi)
  {
    hide Inv, Find;
    forall k | k in st.leaf && k.space == s
      ensures Find(st.mms[s].vmas, k.page * PAGE_SIZE).Some?
    {
      PresentPage(st, k);
    }
  }

  lemma FaithfulUnmapped(h: History, st: State, st': State, s: nat, lo: nat, hi: nat)
    requires Inv(st) && Faithful(h, st) && s in st.mms && lo < hi && lo % PAGE_SIZE == 0 && hi % PAGE_SIZE == 0
    requires st'.mms == st.mms[s := st.mms[s].(vmas := Unmapped(st.mms[s].vmas, lo, hi))]
    requires st'.leaf == Without(st.leaf, s, lo, hi) && SameData(st.mem, st'.mem, st'.leaf)
    ensures Faithful(h + [Cleared(s, lo / PAGE_SIZE, hi / PAGE_SIZE)], st')
  {
    hide Inv, Expected, Find, Unmapped;
    forall k: Key | IsPrivateAnonymous(st'.mms, k)
      ensures if k.space == s && lo / PAGE_SIZE <= k.page < hi / PAGE_SIZE then Content(st', k) == Zeros()
              else IsPrivateAnonymous(st.mms, k) && Content(st', k) == Content(st, k)
    {
      if k.space == s {
        UnmappedFind(st.mms[s].vmas, lo, hi, k.page * PAGE_SIZE);
      }
    }
    FaithfulCleared(h, st, st', s, lo / PAGE_SIZE, hi / PAGE_SIZE);
  }

  lemma SameDataSelf(mem: seq<Frame>, leaf: map<Key, Entry>)
    ensures SameData(mem, mem, leaf)
  {
  }

  // ---- fork ----

  lemma ForkEntryOk(mms: map<nat, Mm>, k: Key, e: Entry, v: Vma)
    requires EntryOk(mms, k, e) && Area(mms, k) == Some(v)
    ensures EntryOk(mms, k, ForkEntry(e, v)) && ForkEntry(e, v).frame == e.frame && Protected(e, ForkEntry(e, v), v)
    ensures !v.Has(VMA_SHARED) ==> !ForkEntry(e, v).UserWritable()
    ensures v.Has(VMA_SHARED) ==> ForkEntry(e, v) == e
    ensures IsPrivate(mms, k) <==> !v.Has(VMA_SHARED)
  {
    hide Area;
  }

  /** Every frame that `p` maps can take one more reference. */
  ghost predicate Shareable(st: State, p: nat) {
    forall k :: k in st.leaf && k.space == p ==> Spare(st, k)
  }

  ghost predicate Spare(st: State, k: Key) {
    k in st.leaf ==> st.leaf[k].frame < |st.counts| && st.counts[st.leaf[k].frame] < MAX_REF
  }

  /** A page more on a frame whose count stands still breaks the invariant. */
  lemma ForkSaturates(st: State, st': State, k: Key, l: Key, e: Entry)
    requires Inv(st) && k in st.leaf && l !in st.leaf && e.frame == st.leaf[k].frame
    requires st' == st.(mem := st'.mem, leaf := st.leaf[k := e][l := e])
    ensures !Inv(st')
  {
    hide Inv, EntryOk, IsPrivate;
    InvSizes(st);
    PresentPage(st, k);
    MapperKept(st.leaf, k, e);
    MapperAdded(st.leaf[k := e], l, e);
    if Inv(st') {
      CountIs(st, e.frame);
      CountIs(st', e.frame);
    }
  }

  /** With fewer than 255 spaces there is always one more. */
  lemma FewSpaces(st: State, p: nat)
    requires Inv(st) && |st.mms| < MAX_REF
    ensures Shareable(st, p)
  {
    hide Inv, EntryOk, IsPrivate;
    InvSizes(st);
    forall k | k in st.leaf && k.space == p
      ensures Spare(st, k)
    {
      PresentPage(st, k);
      var f := st.leaf[k].frame;
      forall l | l in st.leaf && st.leaf[l].frame == f
        ensures l.space in st.mms.Keys
      {
        PresentPage(st, l);
      }
      SharersBounded(st, f, st.mms.Keys);
      CountIs(st, f);
    }
  }

  /** Only new pages on a frame add to its count: a page that the child does not have yet has a frame
      with as many references as before the fork. */
  lemma ForkCount(st: State, now: State, p: nat, c: nat, page: nat, lost: set<nat>)
    requires Inv(st) && Inv(now) && HalfForked(st, now, p, c, page, lost) && Key(p, page) in st.leaf
    ensures Key(p, page) in now.leaf && now.leaf[Key(p, page)].frame == st.leaf[Key(p, page)].frame
    ensures st.leaf[Key(p, page)].frame < |st.counts| == |now.counts|
    ensures now.counts[st.leaf[Key(p, page)].frame] == st.counts[st.leaf[Key(p, page)].frame]
  {
    hide Inv, EntryOk, IsPrivate, SameData, Outside, ForkedEntries;
    var f := st.leaf[Key(p, page)].frame;
    InvSizes(st);
    InvSizes(now);
    PresentPage(st, Key(p, page));
    PresentPage(now, Key(p, page));
    forall k | k in now.leaf && now.leaf[k].frame == f
      ensures k.space != c
    {
      assert k == Key(k.space, page);
    }
    assert Mappers(now.leaf, f) == Mappers(st.leaf, f);
    CountIs(st, f);
    CountIs(now, f);
  }

  lemma MayShare(st: State, now: State, p: nat, c: nat, page: nat, lost: set<nat>)
    requires Inv(st) && Inv(now) && HalfForked(st, now, p, c, page, lost) && Shareable(st, p)
    ensures Spare(now, Key(p, page))
  {
    hide Inv, SameData, Outside, ForkedEntries;
    assert Key(p, page) in now.leaf ==> Key(p, page) in st.leaf;
    if Key(p, page) in st.leaf {
      ForkCount(st, now, p, c, page, lost);
    }
  }

  /** Making tables changes the count of no frame with a present page. */
  lemma SameCount(st: State, now: State, k: Key)
    requires Inv(st) && Inv(now) && now.leaf == st.leaf && now.others == st.others && k in st.leaf
    ensures st.leaf[k].frame < |st.counts| == |now.counts| && now.counts[st.leaf[k].frame] == st.counts[st.leaf[k].frame] > 0
  {
    hide Inv, EntryOk, IsPrivate;
    InvSizes(st);
    InvSizes(now);
    PresentPage(st, k);
    PresentPage(now, k);
    CountIs(st, st.leaf[k].frame);
    CountIs(now, st.leaf[k].frame);
    assert k in Mappers(st.leaf, st.leaf[k].frame);
  }

  lemma CountIs(st: State, f: nat)
    requires Inv(st) && f < |st.counts|
    ensures f < |st.others| && st.counts[f] == st.others[f] + Refs(st.use, st.leaf, f)
  {
    hide Tree, Leaves, PagesOk, RightsOk, ListsOk;
  }

  ghost predicate TableAt(st: State, f: nat) {
    f in st.use && f < |st.mem| && st.mem[f].Table? && |st.mem[f].entries| == ENTRIES
  }

  ghost function ForkedPage(st: State, k: Key, c: nat, v: Vma, low: nat, newLow: nat): State
    requires k in st.leaf && TableAt(st, low) && TableAt(st, newLow) && low != newLow && st.leaf[k].frame < |st.counts|
  {
    var e := ForkEntry(st.leaf[k], v);
    var i := LowIndex(k.page);
    var f := st.leaf[k].frame;
    st.(mem := WithLeaf(WithLeaf(st.mem, low, i, e), newLow, i, e),
        counts := st.counts[f := st.counts[f] + 1],
        leaf := st.leaf[k := e][Key(c, k.page) := e])
  }

  /** Protecting the parent's entry and copying it for the child, as one change. */
  lemma KeepForkPage(st: State, k: Key, c: nat, v: Vma, low: nat, newLow: nat)
    requires Inv(st) && k in st.leaf && c in st.mms && c != k.space && Key(c, k.page) !in st.leaf
    requires Area(st.mms, k) == Some(v) == Area(st.mms, Key(c, k.page))
    requires Walk(st.mem, st.mms[k.space].pageTable, k.page) == Some(low)
    requires Walk(st.mem, st.mms[c].pageTable, k.page) == Some(newLow)
    requires TableAt(st, low) && TableAt(st, newLow) && low != newLow
    requires st.leaf[k].frame < |st.counts|
    ensures Inv(ForkedPage(st, k, c, v, low, newLow))
  {
    hide Inv, Area, Walk, ForkEntry, EntryOk;
    if v.Has(VMA_SHARED) {
      KeepForkShared(st, k, c, v, low, newLow);
    } else {
      KeepForkPrivate(st, k, c, v, low, newLow);
    }
  }

  lemma KeepForkShared(st: State, k: Key, c: nat, v: Vma, low: nat, newLow: nat)
    requires Inv(st) && k in st.leaf && c in st.mms && c != k.space && Key(c, k.page) !in st.leaf
    requires Area(st.mms, k) == Some(v) == Area(st.mms, Key(c, k.page)) && v.Has(VMA_SHARED)
    requires Walk(st.mem, st.mms[k.space].pageTable, k.page) == Some(low)
    requires Walk(st.mem, st.mms[c].pageTable, k.page) == Some(newLow)
    requires TableAt(st, low) && TableAt(st, newLow) && low != newLow
    requires st.leaf[k].frame < |st.counts|
    ensures Inv(ForkedPage(st, k, c, v, low, newLow))
  {
    hide Inv, Area, Walk, EntryOk, WithLeaf;
    PresentPage(st, k);
    ForkEntryOk(st.mms, k, st.leaf[k], v);
    SameEntry(st, k, low);
    KeepSharePage(st, k, Key(c, k.page), newLow);
  }

  lemma KeepForkPrivate(st: State, k: Key, c: nat, v: Vma, low: nat, newLow: nat)
    requires Inv(st) && k in st.leaf && c in st.mms && c != k.space && Key(c, k.page) !in st.leaf
    requires Area(st.mms, k) == Some(v) == Area(st.mms, Key(c, k.page)) && !v.Has(VMA_SHARED)
    requires Walk(st.mem, st.mms[k.space].pageTable, k.page) == Some(low)
    requires Walk(st.mem, st.mms[c].pageTable, k.page) == Some(newLow)
    requires TableAt(st, low) && TableAt(st, newLow) && low != newLow
    requires st.leaf[k].frame < |st.counts|
    ensures Inv(ForkedPage(st, k, c, v, low, newLow))
  {
    hide Inv, Area, Walk, EntryOk, ForkEntry, WithLeaf;
    PresentPage(st, k);
    var e := ForkEntry(st.leaf[k], v);
    ForkEntryOk(st.mms, k, st.leaf[k], v);
    KeepProtect(st, k, low, e);
    var st1 := st.(mem := WithLeaf(st.mem, low, LowIndex(k.page), e), leaf := st.leaf[k := e]);
    KeepSharePage(st1, k, Key(c, k.page), newLow);
  }

  lemma ForkEntryFrame(e: Entry, v: Vma)
    ensures ForkEntry(e, v).frame == e.frame
  {
  }

  lemma OutsideUses(st: State, st': State, s: nat)
    requires st'.use == st.use
    ensures Outside(st', s).0 == Outside(st, s).0
  {
  }

  lemma ForkKeepsData(st: State, low: nat, newLow: nat, index: nat, e: Entry)
    requires Inv(st) && TableAt(st, low) && TableAt(st, newLow) && low != newLow && index < ENTRIES
    ensures SameData(st.mem, WithLeaf(WithLeaf(st.mem, low, index, e), newLow, index, e), st.leaf)
  {
    hide Inv;
    forall l | l in st.leaf
      ensures st.leaf[l].frame != low && st.leaf[l].frame != newLow
    {
      PresentPage(st, l);
    }
  }

  /** Rewriting a shared page's entry with itself changes nothing. */
  lemma SameEntry(st: State, k: Key, low: nat)
    requires Inv(st) && k in st.leaf && Walk(st.mem, st.mms[k.space].pageTable, k.page) == Some(low)
    requires low < |st.mem| && st.mem[low].Table? && |st.mem[low].entries| == ENTRIES
    ensures WithLeaf(st.mem, low, LowIndex(k.page), st.leaf[k]) == st.mem
    ensures st.leaf[k := st.leaf[k]] == st.leaf
  {
    hide Inv, Walk;
    PresentPage(st, k);
    PresentIff(st, k.space, k.page);
    assert st.mem[low].entries[LowIndex(k.page) := st.leaf[k]] == st.mem[low].entries;
  }

  lemma LowTablesDiffer(st: State, k: Key, c: nat, low: nat, newLow: nat)
    requires Inv(st) && k in st.leaf && c in st.mms && c != k.space
    requires Walk(st.mem, st.mms[k.space].pageTable, k.page) == Some(low)
    requires Walk(st.mem, st.mms[c].pageTable, k.page) == Some(newLow)
    ensures TableAt(st, low) && TableAt(st, newLow) && low != newLow
  {
    InvTree(st);
    PagesOwned(st);
    hide Inv, Walk;
    WalkUse(st.mem, st.mms, st.use, k.space, k.page);
    WalkUse(st.mem, st.mms, st.use, c, k.page);
  }

  /** The state while child `c` takes over the pages of `p` below `cursor`; `lost` ones were skipped. */
  ghost predicate HalfForked(st: State, now: State, p: nat, c: nat, cursor: nat, lost: set<nat>) {
    && p in st.mms && c !in st.mms && c in now.mms
    && now.mms == st.mms[c := now.mms[c]]
    && now.others == st.others
    && SameData(st.mem, now.mem, st.leaf)
    && Outside(now, c).0 == st.use
    && (forall k :: k in st.leaf ==> k.space != c && k in now.leaf && now.leaf[k].frame == st.leaf[k].frame)
    && (forall k :: k in now.leaf && k.space != c ==> k in st.leaf)
    && (forall q: nat :: Key(c, q) in now.leaf ==>
          && Key(p, q) in st.leaf && now.leaf[Key(c, q)].frame == st.leaf[Key(p, q)].frame
          && q < cursor && q !in lost)
    && (forall q: nat :: Key(p, q) in st.leaf && q < cursor && q !in lost ==> Key(c, q) in now.leaf)
    && (forall q :: q in lost ==> q < cursor)
    && ForkedEntries(st, now.leaf, p, c)
  }

  /** What a fork makes of a present page of the parent, in the parent and in the child. */
  ghost function ForkedEntry(st: State, k: Key): Entry
    requires k in st.leaf
  {
    if Area(st.mms, k).Some? then ForkEntry(st.leaf[k], Area(st.mms, k).value) else st.leaf[k]
  }

  /** The pages that the child has are protected in the parent and in the child alike; all other
      entries are as they were. */
  ghost predicate ForkedEntries(st: State, leaf': map<Key, Entry>, p: nat, c: nat) {
    && (forall k :: k in st.leaf ==>
          k in leaf' && leaf'[k] == if k.space == p && Key(c, k.page) in leaf' then ForkedEntry(st, k) else st.leaf[k])
    && (forall q: nat :: Key(c, q) in leaf' ==> Key(p, q) in st.leaf && leaf'[Key(c, q)] == ForkedEntry(st, Key(p, q)))
  }

  /** All entries after a fork: the child has every present page of the parent that is not lost. */
  ghost predicate ForkedLeaf(st: State, leaf': map<Key, Entry>, p: nat, c: nat, lost: set<nat>) {
    && (forall k :: k in leaf' <==> k in st.leaf || (k.space == c && Key(p, k.page) in st.leaf && k.page !in lost))
    && ForkedEntries(st, leaf', p, c)
  }

  ghost predicate PagesProtected(st: State, leaf': map<Key, Entry>, p: nat, lost: set<nat>) {
    forall k :: k in st.leaf && k.space == p && k.page !in lost ==>
      k in leaf' && Area(st.mms, k).Some? && Protected(st.leaf[k], leaf'[k], Area(st.mms, k).value)
  }

  lemma ForkProtects(st: State, leaf': map<Key, Entry>, p: nat, c: nat, lost: set<nat>)
    requires Inv(st) && ForkedLeaf(st, leaf', p, c, lost)
    ensures PagesProtected(st, leaf', p, lost)
  {
    hide Inv, ForkEntry, Area, Protected, EntryOk;
    forall k | k in st.leaf && k.space == p && k.page !in lost
      ensures k in leaf' && Area(st.mms, k).Some? && Protected(st.leaf[k], leaf'[k], Area(st.mms, k).value)
    {
      PresentPage(st, k);
      HasArea(st.mms, k, st.leaf[k]);
      ForkEntryOk(st.mms, k, st.leaf[k], Area(st.mms, k).value);
      assert Key(c, k.page) in leaf';
    }
  }

  lemma HasArea(mms: map<nat, Mm>, k: Key, e: Entry)
    requires EntryOk(mms, k, e)
    ensures Area(mms, k).Some?
  {
  }

  lemma ForkedAll(st: State, now: State, p: nat, c: nat, cursor: nat, lost: set<nat>)
    requires HalfForked(st, now, p, c, cursor, lost) && forall q: nat :: Key(p, q) in st.leaf ==> q < cursor
    ensures ForkedLeaf(st, now.leaf, p, c, lost) && SameData(st.mem, now.mem, st.leaf) && Outside(now, c).0 == st.use
  {
    hide SameData, Outside, ForkedEntries;
    forall k: Key
      ensures k in now.leaf <==> k in st.leaf || (k.space == c && Key(p, k.page) in st.leaf && k.page !in lost)
    {
      if k.space == c {
        assert k == Key(c, k.page);
      }
    }
  }

  lemma HalfForkedBegin(st: State, now: State, p: nat, c: nat)
    requires Inv(st) && p in st.mms && c !in st.mms && c in now.mms
    requires now.mms == st.mms[c := now.mms[c]] && now.others == st.others && now.leaf == st.leaf
    requires SameData(st.mem, now.mem, st.leaf) && Outside(now, c) == Outside(st, c)
    ensures HalfForked(st, now, p, c, 0, {})
  {
    hide Inv, SameData;
    PagesOwned(st);
    NothingInside(st, c);
  }

  /** No page of the parent lies between two of its areas. */
  lemma HalfForkedSkip(st: State, now: State, p: nat, c: nat, i: nat, cursor: nat, lost: set<nat>)
    requires HalfForked(st, now, p, c, cursor, lost) && Inv(st)
    requires i <= |st.mms[p].vmas| && cursor == if i == 0 then 0 else st.mms[p].vmas[i - 1].end / PAGE_SIZE
    ensures i < |st.mms[p].vmas| ==> HalfForked(st, now, p, c, st.mms[p].vmas[i].start / PAGE_SIZE, lost)
    ensures i == |st.mms[p].vmas| ==> forall q: nat :: Key(p, q) in st.leaf ==> q < cursor
  {
    hide Inv, SameData, Outside;
    var l := st.mms[p].vmas;
    SpaceList(st, p);
    forall q: nat | Key(p, q) in st.leaf
      ensures q < cursor || (i < |l| && q >= l[i].start / PAGE_SIZE)
    {
      PresentPage(st, Key(p, q));
      var v := Find(l, q * PAGE_SIZE).value;
      var j :| 0 <= j < |l| && l[j] == v;
      assert j < i ==> l[j].end <= l[i - 1].end;
    }
    assert i < |l| ==> cursor <= l[i].start / PAGE_SIZE;
  }

  /** The child's list grows by the next area; its present pages keep their rights. */
  lemma HalfForkedArea(st: State, now: State, p: nat, c: nat, i: nat, lost: set<nat>)
    requires Inv(st) && Inv(now) && p in st.mms && i < |st.mms[p].vmas|
    requires HalfForked(st, now, p, c, st.mms[p].vmas[i].start / PAGE_SIZE, lost)
    requires now.mms[c].vmas == st.mms[p].vmas[..i]
    ensures
      var now' := now.(mms := now.mms[c := now.mms[c].(vmas := st.mms[p].vmas[..i + 1])]);
      Inv(now') && HalfForked(st, now', p, c, st.mms[p].vmas[i].start / PAGE_SIZE, lost)
  {
    hide Inv, SameData, Find;
    var l := st.mms[p].vmas;
    SpaceList(st, p);
    SpaceList(now, c);
    var mm := now.mms[c].(vmas := l[..i + 1]);
    assert forall j :: 0 <= j <= i ==> l[..i + 1][j] == l[j];
    forall k | k in now.leaf && k.space == c
      ensures SameRights(Find(mm.vmas, k.page * PAGE_SIZE), Find(now.mms[c].vmas, k.page * PAGE_SIZE))
    {
      assert k == Key(c, k.page);
      assert l[..i + 1] == l[..i] + [l[i]];
      FindConcat(l[..i], [l[i]], k.page * PAGE_SIZE);
      FindSingle(l[i], k.page * PAGE_SIZE);
    }
    KeepSetVmas(now, c, mm);
    var now' := now.(mms := now.mms[c := mm]);
    OutsideSame(now, now', c);
  }

  lemma ForkedData(st: State, mid: State, now: State, p: nat, c: nat, page: nat, lost: set<nat>)
    requires HalfForked(st, mid, p, c, page, lost) && SameData(mid.mem, now.mem, mid.leaf)
    ensures SameData(st.mem, now.mem, st.leaf)
  {
    SameDataForked(st, mid, now);
  }

  lemma HalfForkedPage(st: State, mid: State, now: State, p: nat, c: nat, page: nat, v: Vma, lost: set<nat>, skipped: bool)
    requires HalfForked(st, mid, p, c, page, lost) && p != c
    requires now.mms == mid.mms && now.others == mid.others && Outside(now, c).0 == Outside(mid, c).0
    requires SameData(mid.mem, now.mem, mid.leaf)
    requires skipped || Key(p, page) !in mid.leaf ==> now.leaf == mid.leaf
    requires !skipped && Key(p, page) in mid.leaf ==>
      now.leaf == mid.leaf[Key(p, page) := ForkEntry(mid.leaf[Key(p, page)], v)][Key(c, page) := ForkEntry(mid.leaf[Key(p, page)], v)]
    requires Area(mid.mms, Key(p, page)) == Some(v)
    ensures HalfForked(st, now, p, c, page + 1, if skipped then lost + {page} else lost)
  {
    hide Inv, ForkEntry, Outside, SameData, HalfForked, Area, ForkedEntries;
    ForkedData(st, mid, now, p, c, page, lost);
    if skipped || Key(p, page) !in mid.leaf {
      PassedOver(st, mid, now, p, c, page, lost, skipped);
    } else {
      ForkEntryFrame(mid.leaf[Key(p, page)], v);
      PageForked(st, mid, p, c, page, v, lost);
      BothEntries(st, mid.leaf, now.leaf, p, c, page, ForkEntry(mid.leaf[Key(p, page)], v));
      BothMapped(st, mid, now, p, c, page, ForkEntry(mid.leaf[Key(p, page)], v), lost);
    }
  }

  lemma PassedOver(st: State, mid: State, now: State, p: nat, c: nat, page: nat, lost: set<nat>, skipped: bool)
    requires HalfForked(st, mid, p, c, page, lost) && p != c
    requires now.mms == mid.mms && now.others == mid.others && Outside(now, c).0 == Outside(mid, c).0
    requires SameData(st.mem, now.mem, st.leaf) && now.leaf == mid.leaf && (skipped || Key(p, page) !in mid.leaf)
    ensures HalfForked(st, now, p, c, page + 1, if skipped then lost + {page} else lost)
  {
    hide Inv, Outside, SameData, ForkedEntries;
    assert Key(p, page) !in mid.leaf ==> Key(p, page) !in st.leaf;
  }

  lemma BothMapped(st: State, mid: State, now: State, p: nat, c: nat, page: nat, e: Entry, lost: set<nat>)
    requires HalfForked(st, mid, p, c, page, lost) && p != c
    requires now.mms == mid.mms && now.others == mid.others && Outside(now, c).0 == Outside(mid, c).0
    requires SameData(st.mem, now.mem, st.leaf) && Key(p, page) in mid.leaf && e.frame == mid.leaf[Key(p, page)].frame
    requires now.leaf == mid.leaf[Key(p, page) := e][Key(c, page) := e] && ForkedEntries(st, now.leaf, p, c)
    ensures HalfForked(st, now, p, c, page + 1, lost)
  {
    hide Inv, Outside, SameData, ForkedEntries;
    assert now.leaf.Keys == mid.leaf.Keys + {Key(c, page)};
  }

  /** The page at the cursor is as it was before the fork. */
  lemma PageForked(st: State, mid: State, p: nat, c: nat, page: nat, v: Vma, lost: set<nat>)
    requires HalfForked(st, mid, p, c, page, lost) && p != c
    requires Key(p, page) in mid.leaf && Area(mid.mms, Key(p, page)) == Some(v)
    ensures ForkedEntries(st, mid.leaf, p, c) && Key(c, page) !in mid.leaf && Key(p, page) in st.leaf
    ensures mid.leaf[Key(p, page)] == st.leaf[Key(p, page)] && ForkedEntry(st, Key(p, page)) == ForkEntry(mid.leaf[Key(p, page)], v)
    ensures forall k :: k in st.leaf ==> k.space != c
  {
    hide Outside, SameData, ForkEntry, Find;
  }

  lemma BothEntries(st: State, leaf: map<Key, Entry>, leaf': map<Key, Entry>, p: nat, c: nat, page: nat, e: Entry)
    requires ForkedEntries(st, leaf, p, c) && p != c && Key(p, page) in st.leaf && e == ForkedEntry(st, Key(p, page))
    requires leaf' == leaf[Key(p, page) := e][Key(c, page) := e] && forall k :: k in st.leaf ==> k.space != c
    ensures ForkedEntries(st, leaf', p, c)
  {
    hide ForkedEntry;
    forall k | k in st.leaf
      ensures k in leaf' && leaf'[k] == if k.space == p && Key(c, k.page) in leaf' then ForkedEntry(st, k) else st.leaf[k]
    {
      assert k.space == p && k.page == page ==> k == Key(p, page);
    }
  }

  /** Parent and child list the same entry for a page of the area being copied. */
  lemma ForkAreas(st: State, p: nat, c: nat, i: nat, page: nat, v: Vma)
    requires Inv(st) && p in st.mms && c in st.mms && i < |st.mms[p].vmas| && v == st.mms[p].vmas[i]
    requires st.mms[c].vmas == st.mms[p].vmas[..i + 1] && v.start <= page * PAGE_SIZE < v.end
    ensures Area(st.mms, Key(p, page)) == Some(v) == Area(st.mms, Key(c, page))
    ensures page < PAGES
  {
    hide Inv, Find;
    SpaceList(st, p);
    SpaceList(st, c);
    FindIs(st.mms[p].vmas, page * PAGE_SIZE, i);
    FindIs(st.mms[c].vmas, page * PAGE_SIZE, i);
  }

  lemma NotYetForked(st: State, now: State, p: nat, c: nat, page: nat, lost: set<nat>)
    requires HalfForked(st, now, p, c, page, lost)
    ensures Key(c, page) !in now.leaf
  {
    hide SameData, Outside;
  }

  lemma EmptyChild(st: State, c: nat, mm: Mm, parent: Mm)
    requires Inv(st) && c !in st.mms && mm.pageTable < |st.mem| && |st.mem| == |st.counts| && st.counts[mm.pageTable] == 0
    requires mm.vmas == [] && mm.mmapBase == parent.mmapBase && exists p :: p in st.mms && st.mms[p] == parent
    ensures
      var st' := st.(mem := st.mem[mm.pageTable := ZeroTable()], counts := st.counts[mm.pageTable := 1],
                     mms := st.mms[c := mm], use := st.use[mm.pageTable := Root(c)]);
      Inv(st') && SameData(st.mem, st'.mem, st.leaf) && Outside(st', c) == Outside(st, c)
  {
    hide Inv;
    var p :| p in st.mms && st.mms[p] == parent;
    SpaceList(st, p);
    ZeroCountUnused(st, mm.pageTable);
    KeepAddRoot(st, c, mm);
    OutsideUse(st, st.(use := st.use[mm.pageTable := Root(c)]), c, mm.pageTable, Root(c));
  }

  /** The clone of the next area never overlaps the clones before it and goes to the end. */
  lemma CloneFits(st: State, p: nat, i: nat)
    requires Inv(st) && p in st.mms && i < |st.mms[p].vmas|
    ensures
      var l := st.mms[p].vmas;
      && ListOk(l[..i]) && VmaOk(l[i]) && FreeAt(l[..i], l[i].start, l[i].end - l[i].start)
      && Insert(l[..i], l[i]) == l[..i + 1]
  {
    hide Inv;
    var l := st.mms[p].vmas;
    SpaceList(st, p);
    forall j | 0 <= j < i
      ensures l[j].start < l[i].start
    {
      assert VmaOk(l[j]);
    }
    InsertAt(l[..i], l[i], i);
    assert l[..i][..i] + [l[i]] + l[..i][i..] == l[..i + 1];
  }

  /** Bytes of the parent's frames survive the step, since the frames are mapped throughout. */
  lemma SameDataForked(st: State, mid: State, now: State)
    requires SameData(st.mem, mid.mem, st.leaf) && SameData(mid.mem, now.mem, mid.leaf)
    requires forall k :: k in st.leaf ==> k in mid.leaf && mid.leaf[k].frame == st.leaf[k].frame
    ensures SameData(st.mem, now.mem, st.leaf)
  {
  }

  lemma HalfForkedEnd(h: History, st: State, now: State, p: nat, c: nat, cursor: nat, lost: set<nat>)
    requires Faithful(h, st) && HalfForked(st, now, p, c, cursor, lost) && p != c && Inv(st)
    requires now.mms[c].vmas == st.mms[p].vmas
    requires forall q: nat :: Key(p, q) in st.leaf ==> q < cursor
    ensures Faithful(h + [Forked(p, c, lost)], now)
  {
    hide Inv, Expected, Find, Outside;
    forall q: nat | IsPrivateAnonymous(now.mms, Key(c, q))
      ensures if q in lost then Content(now, Key(c, q)) == Zeros()
              else IsPrivateAnonymous(st.mms, Key(p, q)) && Content(now, Key(c, q)) == Content(st, Key(p, q))
    {
      if Key(p, q) in st.leaf {
        PresentPage(st, Key(p, q));
      }
    }
    forall k: Key | k.space != c && IsPrivateAnonymous(now.mms, k)
      ensures IsPrivateAnonymous(st.mms, k) && Content(now, k) == Content(st, k)
    {
    }
    FaithfulForked(h, st, now, p, c, lost);
  }

  ghost predicate OnlyProtected(st: State, leaf': map<Key, Entry>, p: nat, k: Key)
    requires k in st.leaf
  {
    k in leaf' && (leaf'[k] == st.leaf[k] || (k.space == p && leaf'[k] == ForkedEntry(st, k)))
  }

  /** Giving the half-made child up restores every count and every byte. */
  lemma ForkUndone(h: History, st: State, mid: State, now: State, p: nat, c: nat, cursor: nat, lost: set<nat>)
    requires Inv(st) && Inv(now) && Faithful(h, st) && HalfForked(st, mid, p, c, cursor, lost)
    requires now.mms == mid.mms - {c} && now.others == mid.others && Outside(mid, c) == (now.use, now.leaf)
    requires SameData(mid.mem, now.mem, now.leaf)
    ensures now.mms == st.mms && now.counts == st.counts && Faithful(h, now)
    ensures now.leaf.Keys == st.leaf.Keys && (forall k :: k in st.leaf ==> OnlyProtected(st, now.leaf, p, k))
  {
    hide Inv, Expected, Find, ForkedEntry;
    assert now.mms == st.mms;
    assert now.leaf.Keys == st.leaf.Keys;
    CountsSame(st, now);
    forall k: Key | IsPrivateAnonymous(now.mms, k)
      ensures IsPrivateAnonymous(st.mms, k) && Content(now, k) == Content(st, k)
    {
      if k in st.leaf {
        assert now.leaf[k] == mid.leaf[k];
        PresentPage(st, k);
      }
    }
    FaithfulKept(h, st, now);
  }

  /** A child that is gone has left only the protection of the parent's pages behind. */
  lemma ForkGone(st: State, mid: State, now: State, p: nat, c: nat, lost: set<nat>)
    requires Inv(st) && Inv(now) && c !in st.mms && mid.others == st.others == now.others
    requires ForkedLeaf(st, mid.leaf, p, c, lost) && Outside(mid, c).0 == st.use && Outside(mid, c) == (now.use, now.leaf)
    ensures now.counts == st.counts && now.leaf.Keys == st.leaf.Keys
    ensures forall k :: k in st.leaf ==> OnlyProtected(st, now.leaf, p, k)
  {
    hide Inv, ForkEntry, Area;
    PagesOwned(st);
    assert now.leaf.Keys == st.leaf.Keys;
    forall k | k in st.leaf
      ensures OnlyProtected(st, now.leaf, p, k) && now.leaf[k].frame == st.leaf[k].frame
    {
      ForkedFrame(st, k);
      assert now.leaf[k] == mid.leaf[k];
    }
    CountsSame(st, now);
  }

  lemma ForkedFrame(st: State, k: Key)
    requires k in st.leaf
    ensures ForkedEntry(st, k).frame == st.leaf[k].frame
  {
  }

  lemma CountsSame(st: State, now: State)
    requires Inv(st) && Inv(now) && now.others == st.others && now.use == st.use
    requires now.leaf.Keys == st.leaf.Keys && forall k :: k in st.leaf ==> now.leaf[k].frame == st.leaf[k].frame
    ensures now.counts == st.counts
  {
    hide Inv;
    PagesOwned(st);
    PagesOwned(now);
    forall f | 0 <= f < |st.counts|
      ensures now.counts[f] == st.counts[f]
    {
      CountIs(st, f);
      CountIs(now, f);
      assert Mappers(now.leaf, f) == Mappers(st.leaf, f);
    }
  }
}
