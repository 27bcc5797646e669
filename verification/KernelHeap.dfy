/** kmalloc and kfree (kernel/mm/heap.c). The list of empty slabs that the caches also have is never
    filled, since an emptied slab gives its page back at once; it is not modelled. */
module KernelHeap {
  import opened Base
  import opened LinkLists
  import opened HeapPages
  import Slabs
  import opened HeapTheory

  const PAGE_INFO_SIZE: nat := 4
  const MAX_OBJECT: nat := 2048
  const U64: nat := 0x1_0000_0000_0000_0000

  class Heap {
    const start: nat
    const meta: nat
    const pages: array<PageInfo>
    const heads: array<nat>
    var links: Links
    var slabs: map<nat, Slabs.Slab>
    var words: map<nat, nat>
    ghost var kinds: seq<Kind>
    ghost var lists: seq<seq<nat>>
    ghost var free: map<nat, seq<nat>>

    ghost function St(): State
      reads this, heads
    {
      State(start, meta, kinds, heads[..], links, lists, slabs, words, free)
    }

    ghost predicate Recorded()
      reads this`kinds, pages
    {
      |kinds| == pages.Length && forall i :: 0 <= i < pages.Length ==> pages[i] == InfoOf(kinds[i])
    }

    ghost predicate Valid()
      reads this, pages, heads
    {
      Recorded() && Core(St()) && NoEmpty(St())
    }

    /** heap_init, of a region large enough for its metadata: all pages behind the metadata are free. */
    constructor (from: nat, size: nat)
      requires
        var aligned := (from + PAGE_SIZE - 1) / PAGE_SIZE * PAGE_SIZE;
        && aligned > 0 && size >= aligned - from
        && var total := (size - (aligned - from)) / PAGE_SIZE;
        && (total * PAGE_INFO_SIZE + PAGE_SIZE - 1) / PAGE_SIZE < total
      ensures Valid() && slabs == map[] && meta < |kinds|
      ensures forall i :: meta <= i < |kinds| ==> kinds[i] == Free
      ensures forall p: nat :: LiveSize(St(), p) == 0
    {
      var aligned := (from + PAGE_SIZE - 1) / PAGE_SIZE * PAGE_SIZE;
      var total := (size - (aligned - from)) / PAGE_SIZE;
      var metaPages := (total * PAGE_INFO_SIZE + PAGE_SIZE - 1) / PAGE_SIZE;
      start := aligned;
      meta := metaPages;
      pages := new PageInfo[total](_ => PageInfo(FREE, 0));
      heads := new nat[2 * Slabs.CACHES](_ => NULL);
      links, slabs, words, free := map[], map[], map[], map[];
      kinds := NewKinds(total, metaPages);
      lists := seq(2 * Slabs.CACHES, _ => []);
      new;
      ghost var st := St();
      NewHeapOk(st, total);
      for i := 0 to metaPages
        invariant St() == st && slabs == map[] && kinds == NewKinds(total, metaPages)
        invariant forall j :: 0 <= j < i ==> pages[j] == PageInfo(LARGE, 1)
        invariant forall j :: i <= j < total ==> pages[j] == PageInfo(FREE, 0)
      {
        pages[i] := PageInfo(LARGE, 1);
      }
    }

    /** alloc_pages_backend: the lowest run of free pages that is long enough; it fails only if there is none. */
    method AllocPages(n: nat, slab: bool) returns (r: Option<nat>)
      requires Recorded() && (slab ==> n == 1)
      modifies pages, this`kinds
      ensures Recorded()
      ensures r.None? ==> kinds == old(kinds) && (n == 0 || NoRun(kinds, n, |kinds|))
      ensures r.Some? ==> n > 0 && FreeRange(old(kinds), r.value, n) && kinds == Taken(old(kinds), r.value, n, slab)
      ensures r.Some? ==> forall s: nat :: s < r.value ==> !FreeRange(old(kinds), s, n)
    {
      hide Taken, FreeRange;
      var run: nat := 0;
      var first: nat := 0;
      ghost var was := kinds;
      for i := 0 to pages.Length
        invariant Recorded() && kinds == was && run <= i && (run > 0 ==> first == i - run)
        invariant n > 0 ==> run < n && NoRun(kinds, n, i)
        invariant forall j :: i - run <= j < i ==> kinds[j] == Free
        invariant run == i || kinds[i - run - 1] != Free
      {
        if pages[i].kind == FREE {
          if run == 0 {
            first := i;
          }
          if run + 1 == n {
            IsRun(kinds, first, n);
            RunAbsent(kinds, n, first, i);
            MarkPages(first, n, slab);
            return Some(first);
          }
          if n > 0 {
            NoRunNext(kinds, n, i, run);
          }
          run := run + 1;
        } else {
          if n > 0 {
            NoRunNext(kinds, n, i, run);
          }
          run := 0;
        }
      }
      r := None;
    }

    /** The loop that marks the pages of a run. */
    method MarkPages(first: nat, n: nat, slab: bool)
      requires Recorded() && first + n <= pages.Length && (slab ==> n == 1)
      modifies pages, this`kinds
      ensures Recorded() && kinds == Taken(old(kinds), first, n, slab)
    {
      hide Taken;
      ghost var was := pages[..];
      for j := 0 to n
        invariant kinds == old(kinds)
        invariant forall k :: 0 <= k < pages.Length ==>
          pages[k] == if first <= k < first + j
            then PageInfo(if slab then SLAB else LARGE, if k == first then n % 0x10000 else 0)
            else was[k]
      {
        pages[first + j] := PageInfo(if slab then SLAB else LARGE, if j == 0 then n % 0x10000 else 0);
      }
      kinds := Taken(kinds, first, n, slab);
    }

    /** free_pages_backend, of the first page of a slab or a large block. */
    method FreePages(i: nat, ghost n: nat)
      requires Recorded() && i < |kinds| && (kinds[i] == Head(n) || (kinds[i] == Slab && n == 1)) && i + n <= |kinds|
      requires forall j :: i < j < i + n ==> kinds[j] == Rest(i)
      modifies pages, this`kinds
      ensures Recorded() && kinds == Released(old(kinds), i, n)
    {
      hide Released;
      var count := pages[i].count;
      ghost var was := pages[..];
      assert count == n % 0x10000;
      for j := 0 to count
        invariant kinds == old(kinds) && count <= n
        invariant forall k :: 0 <= k < pages.Length ==> pages[k] == if i <= k < i + j then PageInfo(FREE, 0) else was[k]
      {
        pages[i + j] := PageInfo(FREE, 0);
      }
      kinds := Released(kinds, i, n);
    }

    // ---- slab lists ----

    /** Taking a slab off its list. */
    method Unlink(l: nat, a: nat, ghost i: nat)
      requires l < heads.Length == |lists| && Family(links, heads[..], lists) && i < |lists[l]| && lists[l][i] == a
      modifies this`links, this`lists, heads
      ensures Family(links, heads[..], lists) && lists == old(lists)[l := Removed(old(lists)[l], i)] && heads.Length == |lists|
    {
      hide Family, Removed, ListOk;
      ghost var h, was := links, heads[..];
      InFamily(links, heads[..], lists, l, i);
      FamilyRemove(links, heads[..], lists, l, i);
      var next, prev := links[a].next, links[a].prev;
      if prev != NULL {
        links := links[prev := links[prev].(next := next)];
      } else {
        heads[l] := next;
      }
      if next != NULL {
        links := links[next := links[next].(prev := prev)];
      }
      assert heads[..] == was[l := if prev == NULL then next else was[l]];
      lists := lists[l := Removed(lists[l], i)];
    }

    /** Putting a slab at the head of a list. */
    method PushFront(l: nat, a: nat)
      requires l < heads.Length == |lists| && Family(links, heads[..], lists) && a != NULL
      requires forall m :: 0 <= m < |lists| ==> a !in lists[m]
      modifies this`links, this`lists, heads
      ensures Family(links, heads[..], lists) && lists == old(lists)[l := [a] + old(lists)[l]] && heads.Length == |lists|
      ensures links == Fronted(old(links), old(heads[..])[l], a) && heads[..] == old(heads[..])[l := a]
    {
      hide Family;
      FamilyFront(links, heads[..], lists, l, a);
      HeadIn(links, heads[..], lists, l);
      links := links[a := Link(heads[l], NULL)];
      if heads[l] != NULL {
        links := links[heads[l] := links[heads[l]].(prev := a)];
      }
      heads[l] := a;
      lists := lists[l := [a] + lists[l]];
    }

    // ---- caches ----

    /** The part of cache_alloc that gets a new slab. */
    method NewSlab(c: nat) returns (a: nat)
      requires Valid() && c < Slabs.CACHES
      modifies this, pages, heads
      ensures Recorded() && Core(St()) && forall q: nat :: LiveSize(St(), q) == LiveSize(old(St()), q)
      ensures a == NULL <==> NoRun(old(kinds), 1, |old(kinds)|)
      ensures a == NULL ==> Valid() && kinds == old(kinds)
      ensures a != NULL ==> OnePageLess(old(kinds), kinds)
      ensures a != NULL ==>
        && a in slabs && slabs[a].cache == c && a in free && free[a] != [] && |lists[2 * c]| > 0 && lists[2 * c][0] == a
        && forall b :: b in slabs && b != a ==> slabs[b].inUse > 0
      ensures NoLost(old(kinds)) ==> NoLost(kinds)
    {
      hide Core, LiveSize, NoLost, Taken, Recorded, NoRun, FreeRange, OnePageLess, AddSlab, Threaded, NoEmpty, PageAddr, Family;
      ghost var st := St();
      var i := AllocPages(1, true);
      if i.None? {
        return NULL;
      }
      FreePage(st, i.value);
      PageStart(st, i.value);
      OnePage(st.kinds, kinds, i.value);
      if NoLost(st.kinds) {
        TakenNoLost(st.kinds, i.value, 1, true);
      }
      a := PageAddr(start, i.value);
      Unlisted(st, a);
      LinkSlab(c, i.value, st);
      AddSlabOk(st, i.value, c, words);
      NewlyAdded(st, i.value, c, words);
    }

    /** Writing the new slab's header and threading its objects, and putting it on the partial list. */
    method LinkSlab(c: nat, i: nat, ghost st: State)
      requires c < Slabs.CACHES && i < |st.kinds| && St() == st.(kinds := Taken(st.kinds, i, 1, true)) && PageAddr(start, i) > 0
      requires heads.Length == |lists| == 2 * Slabs.CACHES && Family(links, heads[..], lists)
      requires forall m :: 0 <= m < |lists| ==> PageAddr(start, i) !in lists[m]
      modifies this`words, this`slabs, this`free, this`links, this`lists, heads
      ensures St() == AddSlab(st, i, c, words) && Threaded(st.words, words, PageAddr(start, i), c)
    {
      hide Taken, Slabs.SlabOk, Slabs.AllObjects, Slabs.Capacity, Slabs.Size, PageAddr, Family, Fronted;
      var a := PageAddr(start, i);
      words := Slabs.InitPage(words, a, c);
      slabs := slabs[a := Slabs.Slab(c, a + Slabs.SLAB_HEADER, 0)];
      free := free[a := Slabs.AllObjects(a, c, 0, Slabs.Capacity(c))];
      PushFront(2 * c, a);
    }

    /** The part of cache_alloc that takes an object, from the first partial slab. */
    method TakeObject(c: nat, a: nat) returns (p: nat)
      requires Recorded() && Core(St()) && c < Slabs.CACHES && |lists[2 * c]| > 0 && lists[2 * c][0] == a
      requires forall b :: b in slabs && b != a ==> slabs[b].inUse > 0
      modifies this`links, this`lists, this`slabs, this`words, this`free, heads
      ensures Valid() && p > 0 && LiveSize(old(St()), p) == 0 && LiveSize(St(), p) == Slabs.Size(c) && OthersLive(old(St()), St(), p)
      ensures slabs.Keys == old(slabs).Keys && IsFreeObject(old(St()), c, p)
    {
      hide Core, LiveSize, Slabs.SlabOk, Slabs.Size, Family, SoundSlabs, Removed, Placed, OthersLive, Recorded, Slabs.Objects, Slabs.Capacity;
      ghost var st := St();
      CoreSound(st);
      FirstPartial(st, c, a);
      FirstFree(st, a);
      PoppedSlabs(st, a);
      PoppedLive(st, a);
      PoppedOnly(st, a);
      p := slabs[a].freeList;
      var rest := words[p];
      words := words - {p};
      slabs := slabs[a := Slabs.Slab(slabs[a].cache, rest, slabs[a].inUse + 1)];
      free := free[a := free[a][1..]];
      ghost var mid := St();
      assert mid == Popped(st, a);
      RestNull(mid, a);
      if rest == NULL {
        Relist(2 * c, a, 0, 2 * c + 1, st);
      }
      TakePlaced(st, mid, St(), a, c);
      Settled(st, mid, St(), p);
      InUseNow(St(), a);
    }

    /** Moving a slab from its list to the front of another. */
    method Relist(l: nat, a: nat, ghost i: nat, m: nat, ghost st: State)
      requires l < heads.Length == |lists| && m < |lists| && l != m && a != NULL && i < |lists[l]| && lists[l][i] == a
      requires Placed(st) && st.heads == heads[..] && st.links == links && st.lists == lists
      modifies this`links, this`lists, heads
      ensures Family(links, heads[..], lists) && heads.Length == |lists|
      ensures lists == old(lists)[l := Removed(old(lists)[l], i)][m := [a] + old(lists)[m]]
    {
      hide Family, Removed, Place;
      Unlink(l, a, i);
      GoneEverywhere(st, a, l, i, lists);
      PushFront(m, a);
    }

    /** cache_alloc. */
    method CacheAlloc(c: nat) returns (p: nat)
      requires Valid() && c < Slabs.CACHES
      modifies this, pages, heads
      ensures Valid()
      ensures p == NULL <==> !HasFree(old(St()), c) && NoRun(old(kinds), 1, |old(kinds)|)
      ensures p == NULL ==> kinds == old(kinds) && forall q: nat :: LiveSize(St(), q) == LiveSize(old(St()), q)
      ensures p != NULL ==> LiveSize(old(St()), p) == 0 && LiveSize(St(), p) == Slabs.Size(c) && OthersLive(old(St()), St(), p)
      ensures HasFree(old(St()), c) ==> kinds == old(kinds) && slabs.Keys == old(slabs).Keys && IsFreeObject(old(St()), c, p)
      ensures p != NULL && !HasFree(old(St()), c) ==> OnePageLess(old(kinds), kinds)
      ensures NoLost(old(kinds)) ==> NoLost(kinds)
    {
      hide Core, LiveSize, Slabs.SlabOk, Slabs.Size, Family, Recorded, NoLost, HasFree, IsFreeObject, OnePageLess;
      CoreSound(St());
      PartialIff(St(), c);
      PlacedFamily(St());
      HeadIn(links, heads[..], lists, 2 * c);
      var a := heads[2 * c];
      if a == NULL {
        a := NewSlab(c);
        if a == NULL {
          return NULL;
        }
      }
      p := TakeObject(c, a);
    }

    /** cache_free, of a live object: an emptied slab gives back its page, a full one becomes partial. */
    method CacheFree(p: nat)
      requires Valid() && LiveSize(St(), p) > 0 && PageOf(p) in slabs
      modifies this, pages, heads
      ensures Valid() && LiveSize(St(), p) == 0 && OthersLive(old(St()), St(), p)
      ensures kinds == if old(slabs)[PageOf(p)].inUse == 1 then Released(old(kinds), PageNo(start, PageOf(p)), 1) else old(kinds)
      ensures NoLost(old(kinds)) ==> NoLost(kinds)
    {
      hide NoLost, Core, LiveSize, Released, Slabs.SlabOk, Slabs.Size, Slabs.Objects, Slabs.Capacity, Family, SoundSlabs, Removed, Placed, OthersLive, Recorded, PageOf, PageNo, NoEmpty;
      ghost var st := St();
      var a := PageOf(p);
      CoreSound(st);
      SlabBlock(st, p);
      SlabPositive(st, a);
      LiveInUse(st, p);
      RestNull(st, a);
      ghost var l := Place(slabs[a], free[a]);
      ghost var i := IndexIn(st, a);
      PushedSlabs(st, a, p);
      PushedLive(st, a, p);
      PushedOnly(st, a, p);
      var c := slabs[a].cache;
      var wasFull := slabs[a].freeList == NULL;
      words := words[p := slabs[a].freeList];
      slabs := slabs[a := Slabs.Slab(c, p, slabs[a].inUse - 1)];
      free := free[a := [p] + free[a]];
      ghost var mid := St();
      assert mid == Pushed(st, a, p);
      if slabs[a].inUse == 0 {
        DropSlab(st, a, if wasFull then 2 * c + 1 else 2 * c, i, p);
      } else {
        if wasFull {
          Relist(2 * c + 1, a, i, 2 * c, st);
        }
        PutPlaced(st, mid, St(), a, c, i, p);
        Settled(st, mid, St(), p);
        NoEmptyNow(st, St(), a);
      }
    }

    /** An emptied slab leaves its list and its page is free again. */
    method DropSlab(ghost st: State, a: nat, l: nat, ghost i: nat, ghost p: nat)
      requires Recorded() && Core(st) && NoEmpty(st) && SoundSlabs(St()) && OthersLive(st, St(), p) && LiveSize(St(), p) == 0
      requires heads[..] == st.heads && links == st.links && lists == st.lists && OnlySlab(st, St(), a)
      requires a in slabs && slabs[a].inUse == 0 && a in st.slabs && a in st.free
      requires l < |lists| && i < |lists[l]| && lists[l][i] == a
      modifies this, pages, heads
      ensures Valid() && LiveSize(St(), p) == 0 && OthersLive(st, St(), p)
      ensures PageNo(start, a) < |old(kinds)| && kinds == Released(old(kinds), PageNo(start, a), 1)
      ensures NoLost(old(kinds)) ==> NoLost(kinds)
    {
      hide NoLost, Core, LiveSize, Family, SoundSlabs, Removed, Placed, OthersLive, PageNo, Released, PageAddr, NoEmpty, OnlySlab;
      ghost var mid := St();
      CoreSound(st);
      PlacedFamily(st);
      DroppedOk(mid, a);
      Unlink(l, a, i);
      if NoLost(kinds) {
        ReleasedNoLost(kinds, PageNo(start, a), 1);
      }
      FreePages(PageNo(start, a), 1);
      slabs := slabs - {a};
      free := free - {a};
      assert St() == Dropped(mid, a).(links := links, heads := heads[..], lists := lists);
      DroppedSettled(st, mid, St(), a, l, i, p);
    }

    /** kfree of a live block: it and no other stops being live. */
    method Kfree(p: nat)
      requires Valid() && (p != NULL ==> LiveSize(St(), p) > 0)
      modifies this, pages, heads
      ensures Valid()
      ensures p == NULL ==> forall q: nat :: LiveSize(St(), q) == LiveSize(old(St()), q)
      ensures p != NULL ==> LiveSize(St(), p) == 0 && OthersLive(old(St()), St(), p)
      ensures p != NULL && PageOf(p) !in old(slabs) ==>
        var i := PageNo(start, p);
        i < |old(kinds)| && old(kinds)[i].Head? && i + old(kinds)[i].n <= |old(kinds)| && kinds == Released(old(kinds), i, old(kinds)[i].n)
      ensures NoLost(old(kinds)) && (p != NULL ==> LiveSize(old(St()), p) < 0x10000 * PAGE_SIZE) ==> NoLost(kinds)
    {
      hide NoLost, Core, LiveSize, OthersLive, PageNo, Released, PageAddr, NoEmpty, PageOf;
      if p == NULL {
        return;
      }
      ghost var st := St();
      LivePageType(st, p);
      var i := PageNo(start, p);
      if pages[i].kind == SLAB {
        CacheFree(p);
      } else if pages[i].kind == LARGE {
        LargeBlock(st, p);
        if NoLost(kinds) && kinds[i].n < 0x10000 {
          ReleasedNoLost(kinds, i, kinds[i].n);
        }
        FreePages(i, kinds[i].n);
        LargeReleased(st, St(), p);
        NoEmptyKept(st, St());
      }
    }

    /** kmalloc: a block at least as large as asked for, where none was live, and no other block changes.
        It fails only if there is no page (for small sizes) or no run of pages (for large ones). */
    method Kmalloc(size: nat) returns (p: nat)
      requires Valid() && size < U64
      modifies this, pages, heads
      ensures Valid()
      ensures p == NULL ==> kinds == old(kinds) && forall q: nat :: LiveSize(St(), q) == LiveSize(old(St()), q)
      ensures size == 0 ==> p == NULL
      ensures forall c :: 0 < size && IsClassFor(size, c) ==>
        && (p == NULL <==> !HasFree(old(St()), c) && NoRun(old(kinds), 1, |old(kinds)|))
        && (HasFree(old(St()), c) ==> kinds == old(kinds) && IsFreeObject(old(St()), c, p))
      ensures MAX_OBJECT < size && size + PAGE_SIZE - 1 < U64 ==>
        (p == NULL <==> NoRun(old(kinds), (size + PAGE_SIZE - 1) / PAGE_SIZE, |old(kinds)|))
      ensures p != NULL ==> LiveSize(old(St()), p) == 0 && LiveSize(St(), p) >= size && OthersLive(old(St()), St(), p)
      ensures p != NULL && size > MAX_OBJECT ==> LiveSize(St(), p) < size + PAGE_SIZE
      ensures p != NULL && size <= MAX_OBJECT ==> IsBestClass(size, LiveSize(St(), p))
      ensures NoLost(old(kinds)) ==> NoLost(kinds)
    {
      hide Core, LiveSize, Taken, Recorded, NoLost, HasFree, IsFreeObject, IsClassFor, IsBestClass;
      p := NULL;
      TooLarge(size);
      if size == 0 {
        return;
      }
      if size <= MAX_OBJECT {
        for i := 0 to Slabs.CACHES
          invariant unchanged(this) && unchanged(pages) && unchanged(heads) && (i > 0 ==> size > Slabs.Size(i - 1))
        {
          if size <= Slabs.Size(i) {
            BestClass(size, i);
            p := CacheAlloc(i);
            return;
          }
        }
        assert false;
      } else {
        var n := (size + PAGE_SIZE - 1) % U64 / PAGE_SIZE;
        ghost var st := St();
        var i := AllocPages(n, false);
        if i.Some? {
          if NoLost(old(kinds)) {
            TakenNoLost(old(kinds), i.value, n, false);
          }
          LargeTaken(st, St(), i.value, n);
          PageStart(st, i.value);
          NoEmptyKept(st, St());
          LargeEnough(size, n);
          p := PageAddr(start, i.value);
        }
      }
    }
  }

  lemma TooLarge(size: nat)
    ensures size > MAX_OBJECT ==> forall c :: !IsClassFor(size, c)
  {
  }

  lemma LargeEnough(size: nat, n: nat)
    requires size < U64 && n == (size + PAGE_SIZE - 1) % U64 / PAGE_SIZE && n > 0 && size > 0
    ensures size <= n * PAGE_SIZE < size + PAGE_SIZE
  {
  }

  /** Some slab of the class has an object left. */
  ghost predicate HasFree(st: State, c: nat) {
    exists a :: a in st.slabs && a in st.free && st.slabs[a].cache == c && st.free[a] != []
  }

  ghost predicate IsFreeObject(st: State, c: nat, p: nat) {
    PageOf(p) in st.slabs && PageOf(p) in st.free && st.slabs[PageOf(p)].cache == c && p in st.free[PageOf(p)]
  }

  ghost predicate OnePageLess(kinds: seq<Kind>, kinds': seq<Kind>) {
    exists i :: 0 <= i < |kinds| && kinds[i] == Free && kinds' == kinds[i := Slab]
  }

  lemma OnePage(kinds: seq<Kind>, kinds': seq<Kind>, i: nat)
    requires FreeRange(kinds, i, 1) && kinds' == Taken(kinds, i, 1, true)
    ensures OnePageLess(kinds, kinds') && !NoRun(kinds, 1, |kinds|)
  {
    assert kinds[i] == Free && kinds' == kinds[i := Slab];
  }

  lemma NewlyAdded(st: State, i: nat, c: nat, words: map<nat, nat>)
    requires Core(st) && NoEmpty(st) && i < |st.kinds| && c < Slabs.CACHES
    ensures |st.heads| == |st.lists| == 2 * Slabs.CACHES
    ensures var st', a := AddSlab(st, i, c, words), PageAddr(st.start, i);
      && a in st'.slabs && st'.slabs[a].cache == c && a in st'.free && st'.free[a] != []
      && |st'.lists| == 2 * Slabs.CACHES && |st'.lists[2 * c]| > 0 && st'.lists[2 * c][0] == a
      && forall b :: b in st'.slabs && b != a ==> st'.slabs[b].inUse > 0
  {
    hide SoundSlabs, Placed, Fronted, PageAddr, Taken;
  }

  /** The partial list of a class is empty exactly if all its slabs are full. */
  lemma PartialIff(st: State, c: nat)
    requires Placed(st) && c < Slabs.CACHES
    ensures |st.lists| == 2 * Slabs.CACHES && (HasFree(st, c) <==> st.lists[2 * c] != [])
  {
    hide Family;
    if HasFree(st, c) {
      var a :| a in st.slabs && a in st.free && st.slabs[a].cache == c && st.free[a] != [];
      assert InPlace(st.lists, a, 2 * c);
    }
    if st.lists[2 * c] != [] {
      var a := st.lists[2 * c][0];
      assert a in st.lists[2 * c] && st.slabs[a].cache == c && st.free[a] != [];
    }
  }

  /** The smallest object size that is large enough. */
  ghost predicate IsBestClass(size: nat, objectSize: nat) {
    && size <= objectSize && (exists c :: 0 <= c < Slabs.CACHES && objectSize == Slabs.Size(c))
    && forall c :: 0 <= c < Slabs.CACHES && size <= Slabs.Size(c) ==> objectSize <= Slabs.Size(c)
  }

  ghost predicate IsClassFor(size: nat, c: nat) {
    c < Slabs.CACHES && IsBestClass(size, Slabs.Size(c))
  }

  lemma BestClass(size: nat, i: nat)
    requires i < Slabs.CACHES && size <= Slabs.Size(i) && (i > 0 ==> size > Slabs.Size(i - 1))
    ensures IsBestClass(size, Slabs.Size(i)) && forall c :: IsClassFor(size, c) ==> c == i
  {
  }

  lemma NoEmptyKept(st: State, st': State)
    requires NoEmpty(st) && st'.slabs == st.slabs
    ensures NoEmpty(st')
  {
  }

  lemma FirstPartial(st: State, c: nat, a: nat)
    requires Core(st) && c < Slabs.CACHES && |st.lists[2 * c]| > 0 && st.lists[2 * c][0] == a
    ensures |st.heads| == |st.lists| == 2 * Slabs.CACHES
    ensures a > 0 && a in st.slabs && a in st.free && st.slabs[a].cache == c && st.free[a] != []
  {
    hide KindsOk, PageNo, PageAddr, SlabPages, Family;
    assert a in st.lists[2 * c];
    SlabPositive(st, a);
  }

  lemma SlabPositive(st: State, a: nat)
    requires SoundSlabs(st) && a in st.slabs
    ensures a > 0 && a in st.free && st.slabs[a].cache < Slabs.CACHES
  {
    hide KindsOk, PageNo, PageAddr, SlabPages;
    assert Slabs.SlabOk(st.words, a, st.slabs[a], st.free[a]);
  }

  /** The state after a change to one block and the relisting of its slab. */
  lemma Settled(st: State, mid: State, st': State, p: nat)
    requires SoundSlabs(mid) && Placed(st') && OthersLive(st, mid, p)
    requires st' == mid.(links := st'.links, heads := st'.heads, lists := st'.lists)
    ensures Core(st') && OthersLive(st, st', p) && LiveSize(st', p) == LiveSize(mid, p)
  {
    hide LiveSize, SoundSlabs, Family;
    SoundKept(mid, st');
  }

  /** Slab `a` left list `l` for the front of list `m`. */
  ghost predicate Relisted(st: State, st': State, a: nat, l: nat, i: nat, m: nat) {
    && l < |st.lists| && i < |st.lists[l]| && st.lists[l][i] == a && m < |st.lists| && m != l && |st'.heads| == |st.heads|
    && st'.lists == st.lists[l := Removed(st.lists[l], i)][m := [a] + st.lists[m]] && Family(st'.links, st'.heads, st'.lists)
  }

  lemma PoppedOnly(st: State, a: nat)
    requires a in st.slabs && a in st.free && st.free[a] != [] && st.slabs[a].freeList in st.words
    ensures
      var mid := Popped(st, a);
      && OnlySlab(st, mid, a) && mid.lists == st.lists && mid.heads == st.heads && mid.links == st.links
      && a in mid.slabs && a in mid.free && mid.slabs[a].cache == st.slabs[a].cache && mid.free[a] == st.free[a][1..] && mid.slabs[a].inUse > 0
  {
  }

  lemma TakePlaced(st: State, mid: State, st': State, a: nat, c: nat)
    requires Placed(st) && a in st.slabs && a in st.free && st.free[a] != [] && st.slabs[a].freeList in st.words && mid == Popped(st, a)
    requires st.slabs[a].cache == c && a in mid.free && st' == mid.(links := st'.links, heads := st'.heads, lists := st'.lists)
    requires if mid.free[a] == [] then Relisted(st, st', a, 2 * c, 0, 2 * c + 1) else st' == mid
    ensures Placed(st')
  {
    hide Placed, Popped, Family, Removed;
    PoppedOnly(st, a);
    if mid.free[a] == [] {
      PlacedMove(st, st', a, 2 * c, 0, 2 * c + 1);
    } else {
      PlacedStay(st, st', a);
    }
  }

  lemma LiveInUse(st: State, p: nat)
    requires Core(st) && LiveSize(st, p) > 0 && PageOf(p) in st.slabs
    ensures st.slabs[PageOf(p)].inUse > 0
  {
    hide Slabs.Objects, Slabs.Capacity, Slabs.Size, Placed, PageNo, PageAddr, PageOf, KindsOk, Slabs.SlabOk;
    SlabBlock(st, p);
    var a := PageOf(p);
    Slabs.SlabInUse(st.words, a, st.slabs[a], st.free[a], p);
  }

  ghost function IndexIn(st: State, a: nat): (i: nat)
    requires Placed(st) && a in st.slabs && a in st.free
    ensures Place(st.slabs[a], st.free[a]) < |st.lists| && i < |st.lists[Place(st.slabs[a], st.free[a])]|
    ensures st.lists[Place(st.slabs[a], st.free[a])][i] == a
  {
    assert InPlace(st.lists, a, Place(st.slabs[a], st.free[a]));
    var l := Place(st.slabs[a], st.free[a]);
    var i :| 0 <= i < |st.lists[l]| && st.lists[l][i] == a;
    i
  }

  lemma PushedOnly(st: State, a: nat, p: nat)
    requires a in st.slabs && a in st.free && st.slabs[a].inUse > 0
    ensures
      var mid := Pushed(st, a, p);
      && OnlySlab(st, mid, a) && mid.lists == st.lists && mid.heads == st.heads && mid.links == st.links
      && a in mid.slabs && a in mid.free && mid.slabs[a].cache == st.slabs[a].cache && mid.free[a] == [p] + st.free[a]
  {
  }

  lemma PutPlaced(st: State, mid: State, st': State, a: nat, c: nat, i: nat, p: nat)
    requires Placed(st) && a in st.slabs && a in st.free && st.slabs[a].inUse > 0 && mid == Pushed(st, a, p)
    requires st.slabs[a].cache == c && st' == mid.(links := st'.links, heads := st'.heads, lists := st'.lists)
    requires if st.free[a] == [] then Relisted(st, st', a, 2 * c + 1, i, 2 * c) else st' == mid
    ensures Placed(st')
  {
    hide Placed, Pushed, Family, Removed;
    PushedOnly(st, a, p);
    if st.free[a] == [] {
      PlacedMove(st, st', a, 2 * c + 1, i, 2 * c);
    } else {
      PlacedStay(st, st', a);
    }
  }

  lemma NoEmptyNow(st: State, st': State, a: nat)
    requires NoEmpty(st) && a in st'.slabs && st'.slabs[a].inUse > 0 && st'.slabs.Keys == st.slabs.Keys
    requires forall b :: b in st.slabs && b != a ==> st'.slabs[b] == st.slabs[b]
    ensures NoEmpty(st')
  {
  }

  lemma PlacedFamily(st: State)
    requires Placed(st)
    ensures Family(st.links, st.heads, st.lists) && |st.heads| == |st.lists| == 2 * Slabs.CACHES
  {
  }

  lemma DroppedSettled(st: State, mid: State, st': State, a: nat, l: nat, i: nat, p: nat)
    requires Core(st) && NoEmpty(st) && SoundSlabs(mid) && OthersLive(st, mid, p) && LiveSize(mid, p) == 0 && OnlySlab(st, mid, a)
    requires a in mid.slabs && mid.slabs[a].inUse == 0 && a in st.slabs && a in st.free && mid.lists == st.lists
    requires l < |st.lists| && i < |st.lists[l]| && st.lists[l][i] == a && |st'.heads| == |st.heads|
    requires IsPage(mid.start, |mid.kinds|, a) && st' == Dropped(mid, a).(links := st'.links, heads := st'.heads, lists := st'.lists)
    requires st'.lists == st.lists[l := Removed(st.lists[l], i)] && Family(st'.links, st'.heads, st'.lists)
    ensures Core(st') && NoEmpty(st') && LiveSize(st', p) == 0 && OthersLive(st, st', p)
  {
    hide LiveSize, Family, SoundSlabs, Removed, Placed, PageNo, Released, PageAddr, IsPage;
    CoreSound(st);
    DroppedOk(mid, a);
    var drop := Dropped(mid, a);
    SoundKept(drop, st');
    forall q: nat
      ensures LiveSize(st', q) == LiveSize(mid, q)
    {
      DroppedLive(mid, a, q);
    }
    PlacedDrop(st, st', a, l, i);
    SameKeys(st);
    forall b | b in st'.slabs
      ensures st'.slabs[b].inUse > 0
    {
      assert b in mid.slabs.Keys - {a};
      assert b in st.slabs.Keys - {a};
    }
  }

  lemma SameKeys(st: State)
    requires Core(st)
    ensures st.slabs.Keys == st.free.Keys
  {
  }

  /** What kfree reads in the record of a live block's page. */
  lemma LivePageType(st: State, p: nat)
    requires Core(st) && LiveSize(st, p) > 0
    ensures PageNo(st.start, p) < |st.kinds|
    ensures PageOf(p) in st.slabs ==> st.kinds[PageNo(st.start, p)] == Slab
    ensures PageOf(p) !in st.slabs ==> st.kinds[PageNo(st.start, p)].Head?
  {
    hide Core, LiveSize, Slabs.Objects, Slabs.Capacity, Slabs.Size;
    if PageOf(p) in st.slabs {
      SlabBlock(st, p);
      SamePageNo(st, p);
    } else {
      LargeBlock(st, p);
    }
  }

  lemma SamePageNo(st: State, p: nat)
    requires Core(st) && SlabPage(st, PageOf(p))
    ensures PageNo(st.start, p) == PageNo(st.start, PageOf(p))
  {
    hide SoundSlabs, Placed;
    CoreSound(st);
    Aligned(st);
    var i, s := PageNo(st.start, PageOf(p)), st.start / PAGE_SIZE;
    assert PageOf(p) == (s + i) * PAGE_SIZE;
    PageOfAligned(p);
  }

  lemma Aligned(st: State)
    requires SoundSlabs(st)
    ensures st.start % PAGE_SIZE == 0
  {
  }

  /** With nothing live, every page behind the metadata is free, apart from those that releasing a
      block of 65536 pages or more has lost. */
  lemma AllFreed(st: State, i: nat)
    requires Core(st) && NoEmpty(st) && st.meta <= i < |st.kinds| && forall p: nat :: LiveSize(st, p) == 0
    ensures st.kinds[i].Free? || st.kinds[i].Lost?
  {
    hide KindsOk, PageNo, PageAddr, PageOf, Placed, Slabs.SlabOk, Slabs.Objects, Slabs.Capacity, Slabs.Size, IsPage;
    CoreKind(st, i);
    if st.kinds[i].Slab? {
      SlabHasLive(st, PageAddr(st.start, i));
    } else if st.kinds[i].Head? {
      HeadIsLive(st, i);
    } else if st.kinds[i].Rest? {
      CoreKind(st, st.kinds[i].head);
      HeadIsLive(st, st.kinds[i].head);
    }
  }

  lemma CoreKind(st: State, i: nat)
    requires Core(st) && i < |st.kinds|
    ensures KindOk(st.kinds, st.meta, i)
  {
  }

  lemma HeadIsLive(st: State, i: nat)
    requires Core(st) && i < |st.kinds| && st.kinds[i].Head? && st.kinds[i].n > 0
    ensures LiveSize(st, PageAddr(st.start, i)) > 0
  {
    hide KindsOk, PageNo, PageAddr, PageOf, Placed, Slabs.SlabOk, Slabs.Objects, Slabs.Capacity, Slabs.Size;
    var p := PageAddr(st.start, i);
    PageNumbered(st.start, |st.kinds|, i);
    PageAligned(st.start, |st.kinds|, p);
    assert p in st.slabs ==> SlabPage(st, p);
  }

  lemma SlabHasLive(st: State, a: nat)
    requires Core(st) && NoEmpty(st) && a in st.slabs
    ensures exists p: nat :: LiveSize(st, p) > 0
  {
    hide KindsOk, PageNo, PageAddr, PageOf, Placed, Slabs.Objects, Slabs.Capacity, Slabs.Size;
    var s, f := st.slabs[a], st.free[a];
    var n := Slabs.Capacity(s.cache);
    assert SlabPage(st, a) && Slabs.SlabOk(st.words, a, s, f);
    Slabs.ChainSize(st.words, s.freeList, f);
    Slabs.ObjectCount(a, s.cache, n);
    if forall p :: p in Slabs.Objects(a, s.cache, n) ==> p in f {
      SubsetSize(Slabs.Objects(a, s.cache, n), set x: nat | x in f);
    }
    var p :| p in Slabs.Objects(a, s.cache, n) && p !in f;
    Slabs.ObjectInside(a, s.cache, p);
    PageParts(st.start, |st.kinds|, a, p);
    assert LiveSize(st, p) > 0;
  }

  lemma InUseNow(st: State, a: nat)
    requires a in st.slabs && st.slabs[a].inUse > 0 && forall b :: b in st.slabs && b != a ==> st.slabs[b].inUse > 0
    ensures NoEmpty(st)
  {
  }

  lemma CoreSound(st: State)
    requires Core(st)
    ensures SoundSlabs(st) && Placed(st)
  {
  }

  /** The free list is empty exactly if its head is null. */
  lemma RestNull(st: State, a: nat)
    requires SoundSlabs(st) && a in st.slabs
    ensures a in st.free && (st.slabs[a].freeList == NULL <==> st.free[a] == [])
  {
    hide KindsOk, PageNo, PageAddr, SlabPages;
    assert Slabs.SlabOk(st.words, a, st.slabs[a], st.free[a]);
    if st.free[a] != [] {
      assert Slabs.WordOk(st.words, st.free[a], 0);
    }
  }

  lemma GoneEverywhere(st: State, a: nat, l: nat, i: nat, lists: seq<seq<nat>>)
    requires Placed(st) && l < |st.lists| && i < |st.lists[l]| && st.lists[l][i] == a && lists == st.lists[l := Removed(st.lists[l], i)]
    ensures forall m :: 0 <= m < |lists| ==> a !in lists[m]
  {
    hide Family;
    ListOf(st, l, i);
    forall m | 0 <= m < |lists|
      ensures a !in lists[m]
    {
      OnlyOnce(st, a, l, m);
    }
  }

  /** Relisting slabs changes nothing about them. */
  lemma SoundKept(st: State, st': State)
    requires SoundSlabs(st) && st' == st.(links := st'.links, heads := st'.heads, lists := st'.lists)
    ensures SoundSlabs(st') && forall q: nat :: LiveSize(st', q) == LiveSize(st, q)
  {
    hide KindsOk, PageNo, PageAddr, Slabs.SlabOk, Slabs.Objects, Slabs.Capacity, PageOf;
    forall b | b in st'.slabs
      ensures SlabPage(st', b)
    {
      assert SlabPage(st, b);
    }
  }

  lemma InFamily(h: Links, heads: seq<nat>, lists: seq<seq<nat>>, l: nat, i: nat)
    requires Family(h, heads, lists) && l < |lists| && i < |lists[l]|
    ensures |heads| == |lists| && lists[l][i] in h
    ensures
      var n := lists[l][i];
      && (h[n].next != NULL ==> h[n].next in h && h[n].next != h[n].prev)
      && (h[n].prev != NULL ==> h[n].prev in h)
      && h[n].next != n && h[n].prev != n
  {
    var head, s := heads[l], lists[l];
    Node(h, head, s, i);
    Ends(h, head, s, i);
    if i > 0 {
      Node(h, head, s, i - 1);
      Distinct(h, head, s, i - 1, i);
    }
    if i + 1 < |s| {
      Node(h, head, s, i + 1);
      Distinct(h, head, s, i, i + 1);
      if i > 0 {
        Distinct(h, head, s, i - 1, i + 1);
      }
    }
  }

  lemma HeadIn(h: Links, heads: seq<nat>, lists: seq<seq<nat>>, l: nat)
    requires Family(h, heads, lists) && l < |lists|
    ensures |heads| == |lists| && heads[l] == At(lists[l], 0) && (heads[l] != NULL ==> lists[l] != [] && heads[l] in h)
    ensures lists[l] != [] ==> heads[l] != NULL
  {
    if lists[l] != [] {
      Node(h, heads[l], lists[l], 0);
    }
  }

  lemma PageStart(st: State, i: nat)
    requires Core(st)
    ensures PageAddr(st.start, i) > 0
  {
  }

  lemma Unlisted(st: State, a: nat)
    requires Core(st) && a !in st.slabs
    ensures |st.heads| == |st.lists| == 2 * Slabs.CACHES && Family(st.links, st.heads, st.lists)
    ensures forall m :: 0 <= m < |st.lists| ==> a !in st.lists[m]
  {
    hide Family, SoundSlabs;
  }

  lemma FreePage(st: State, i: nat)
    requires Core(st) && FreeRange(st.kinds, i, 1)
    ensures i < |st.kinds| && st.kinds[i] == Free && PageAddr(st.start, i) !in st.slabs
  {
    hide Family, KindsOk, Slabs.SlabOk, PageNo, PageAddr;
    PageNumbered(st.start, |st.kinds|, i);
    assert PageAddr(st.start, i) in st.slabs ==> SlabPage(st, PageAddr(st.start, i));
  }

  ghost function NewKinds(total: nat, meta: nat): (r: seq<Kind>)
    ensures |r| == total && forall i :: 0 <= i < total ==> r[i] == if i < meta then Meta else Free
  {
    seq(total, i => if i < meta then Meta else Free)
  }

  lemma NewHeapOk(st: State, total: nat)
    requires st.start > 0 && st.start % PAGE_SIZE == 0 && st.kinds == NewKinds(total, st.meta) && st.meta < total
    requires st.slabs == map[] && st.free == map[] && |st.heads| == |st.lists| == 2 * Slabs.CACHES
    requires forall l :: 0 <= l < |st.lists| ==> st.lists[l] == [] && st.heads[l] == NULL
    ensures Core(st) && NoEmpty(st) && forall p: nat :: LiveSize(st, p) == 0
  {
    forall i | 0 <= i < |st.kinds|
      ensures KindOk(st.kinds, st.meta, i)
    {
    }
  }

  lemma IsRun(kinds: seq<Kind>, first: nat, n: nat)
    requires first + n <= |kinds| && forall j :: first <= j < first + n ==> kinds[j] == Free
    ensures FreeRange(kinds, first, n)
  {
  }

  lemma RunAbsent(kinds: seq<Kind>, n: nat, first: nat, i: nat)
    requires NoRun(kinds, n, i) && first + n == i + 1
    ensures forall s: nat :: s < first ==> !FreeRange(kinds, s, n)
  {
  }
}
