/** The kernel heap as a whole (kernel/mm/heap.c): pages, slabs and slab lists together, what is live,
    and the steps that allocation and release consist of. */
module HeapTheory {
  import opened Base
  import opened LinkLists
  import HeapPages
  import opened Slabs

  /** `lists[2c]` are the partial slabs of cache `c` and `lists[2c + 1]` its full ones. */
  datatype State = State(
    start: nat,
    meta: nat,
    kinds: seq<HeapPages.Kind>,
    heads: seq<nat>,
    links: Links,
    lists: seq<seq<nat>>,
    slabs: map<nat, Slab>,
    words: map<nat, nat>,
    free: map<nat, seq<nat>>)

  function PageAddr(start: nat, i: nat): nat {
    start + i * PAGE_SIZE
  }

  function PageNo(start: nat, a: nat): nat {
    if a < start then 0 else (a - start) / PAGE_SIZE
  }

  predicate IsPage(start: nat, n: nat, a: nat) {
    a == PageAddr(start, PageNo(start, a)) && PageNo(start, a) < n
  }

  function PageOf(p: nat): nat {
    p / PAGE_SIZE * PAGE_SIZE
  }

  function Place(s: Slab, free: seq<nat>): nat {
    2 * s.cache + if free == [] then 1 else 0
  }

  ghost predicate PagesOk(st: State) {
    HeapPages.KindsOk(st.kinds, st.meta) && st.start > 0 && st.start % PAGE_SIZE == 0
  }

  ghost predicate SlabPage(st: State, a: nat) {
    IsPage(st.start, |st.kinds|, a) && st.kinds[PageNo(st.start, a)].Slab?
  }

  ghost predicate SlabPages(st: State) {
    && st.slabs.Keys == st.free.Keys
    && (forall a :: a in st.slabs ==> SlabPage(st, a))
    && (forall i: nat :: i < |st.kinds| && st.kinds[i].Slab? ==> PageAddr(st.start, i) in st.slabs)
  }

  ghost predicate SlabsOk(st: State) {
    forall a :: a in st.slabs ==> a in st.free && SlabOk(st.words, a, st.slabs[a], st.free[a])
  }

  /** Every slab is on the list where its cache and its free objects put it, and on no other. */
  ghost predicate Placed(st: State) {
    && |st.heads| == |st.lists| == 2 * CACHES && Family(st.links, st.heads, st.lists)
    && (forall l, x :: 0 <= l < |st.lists| && x in st.lists[l] ==> x in st.slabs && x in st.free && l == Place(st.slabs[x], st.free[x]))
    && (forall a :: a in st.slabs && a in st.free ==> InPlace(st.lists, a, Place(st.slabs[a], st.free[a])))
  }

  ghost predicate InPlace(lists: seq<seq<nat>>, a: nat, l: nat) {
    l < |lists| && a in lists[l]
  }

  /** Everything but where the slabs are listed. */
  ghost predicate SoundSlabs(st: State) {
    PagesOk(st) && SlabPages(st) && SlabsOk(st)
  }

  ghost predicate Core(st: State) {
    |st.heads| == |st.lists| == 2 * CACHES && SoundSlabs(st) && Placed(st)
  }

  /** No slab without objects in use keeps its page. */
  ghost predicate NoEmpty(st: State) {
    forall a :: a in st.slabs ==> st.slabs[a].inUse > 0
  }

  // ---- what is live ----

  /** The size of the block at `p`, or 0 if none has been handed out there. */
  ghost function LiveSize(st: State, p: nat): nat {
    if PageOf(p) in st.slabs && PageOf(p) in st.free then
      var s := st.slabs[PageOf(p)];
      if p in Objects(PageOf(p), s.cache, Capacity(s.cache)) && p !in st.free[PageOf(p)] then Size(s.cache) else 0
    else if IsPage(st.start, |st.kinds|, p) && st.kinds[PageNo(st.start, p)].Head? then
      st.kinds[PageNo(st.start, p)].n * PAGE_SIZE
    else 0
  }

  /** The addresses of a page are those that round down to it. */
  lemma PageParts(start: nat, n: nat, a: nat, p: nat)
    requires start % PAGE_SIZE == 0 && IsPage(start, n, a)
    ensures a <= p < a + PAGE_SIZE <==> PageOf(p) == a
    ensures a % PAGE_SIZE == 0
  {
    var i, s := PageNo(start, a), start / PAGE_SIZE;
    assert a == (i + s) * PAGE_SIZE;
  }

  lemma PageNumbered(start: nat, n: nat, i: nat)
    requires i < n
    ensures IsPage(start, n, PageAddr(start, i)) && PageNo(start, PageAddr(start, i)) == i && PageAddr(start, i) >= start
  {
  }

  ghost predicate Clear(p: nat, n: nat, q: nat, m: nat) {
    p + n <= q || q + m <= p
  }

  /** A large block is a run of pages of its own. */
  lemma LargeBlock(st: State, p: nat)
    requires Core(st) && LiveSize(st, p) > 0 && PageOf(p) !in st.slabs
    ensures IsPage(st.start, |st.kinds|, p)
    ensures
      var i := PageNo(st.start, p);
      && st.kinds[i].Head? && i >= st.meta && LiveSize(st, p) == st.kinds[i].n * PAGE_SIZE && i + st.kinds[i].n <= |st.kinds|
      && forall j :: i < j < i + st.kinds[i].n ==> st.kinds[j] == HeapPages.Rest(i)
  {
    hide SlabsOk, Placed, SlabPages, Objects, PageNo, PageAddr, PageOf;
    assert HeapPages.KindOk(st.kinds, st.meta, PageNo(st.start, p));
  }

  /** An object lies in the page of its slab, behind the header. */
  lemma SlabBlock(st: State, p: nat)
    requires Core(st) && LiveSize(st, p) > 0 && PageOf(p) in st.slabs
    ensures SlabPage(st, PageOf(p)) && PageOf(p) in st.free
    ensures
      var a := PageOf(p);
      && a + SLAB_HEADER <= p && p + LiveSize(st, p) <= a + PAGE_SIZE && LiveSize(st, p) == Size(st.slabs[a].cache)
      && p in Objects(a, st.slabs[a].cache, Capacity(st.slabs[a].cache)) && p !in st.free[a]
  {
    hide SlabsOk, Placed, Objects, Capacity, Size, PageOf, PageNo, PageAddr, PagesOk;
    var a := PageOf(p);
    assert SlabPage(st, a);
    ObjectInside(a, st.slabs[a].cache, p);
  }

  lemma LargeClear(st: State, p: nat, q: nat)
    requires Core(st) && LiveSize(st, p) > 0 && LiveSize(st, q) > 0 && p != q && PageOf(p) !in st.slabs
    ensures Clear(p, LiveSize(st, p), q, LiveSize(st, q))
  {
    hide Core, LiveSize, Objects, Capacity, Size, PageOf, PageNo, PageAddr;
    LargeBlock(st, p);
    var i := PageNo(st.start, p);
    var n := st.kinds[i].n;
    var b := if PageOf(q) in st.slabs then PageOf(q) else q;
    if PageOf(q) !in st.slabs {
      LargeBlock(st, q);
    } else {
      SlabBlock(st, q);
    }
    var k := PageNo(st.start, b);
    assert k != i;
    if k < i {
      if st.kinds[k].Head? {
        assert k + st.kinds[k].n <= i;
        PageRuns(st.start, k, st.kinds[k].n, i);
      } else {
        PageRuns(st.start, k, 1, i);
      }
    } else {
      assert i + n <= k;
      PageRuns(st.start, i, n, k);
    }
  }

  lemma PageRuns(start: nat, i: nat, n: nat, k: nat)
    requires i + n <= k
    ensures PageAddr(start, i) + n * PAGE_SIZE <= PageAddr(start, k)
  {
  }

  /** Live blocks never overlap. */
  lemma LiveDisjoint(st: State, p: nat, q: nat)
    requires Core(st) && LiveSize(st, p) > 0 && LiveSize(st, q) > 0 && p != q
    ensures Clear(p, LiveSize(st, p), q, LiveSize(st, q))
  {
    hide Core, LiveSize, PageOf, Objects, Capacity, Size;
    if PageOf(p) !in st.slabs {
      LargeClear(st, p, q);
    } else if PageOf(q) !in st.slabs {
      LargeClear(st, q, p);
    } else {
      SlabBlock(st, p);
      SlabBlock(st, q);
      PageOfAligned(p);
      PageOfAligned(q);
      if PageOf(p) == PageOf(q) {
        ObjectsApart(PageOf(p), st.slabs[PageOf(p)].cache, p, q);
      } else {
        PagesApart(PageOf(p), PageOf(q));
      }
    }
  }

  lemma PageOfAligned(p: nat)
    ensures PageOf(p) % PAGE_SIZE == 0 && PageOf(p) <= p < PageOf(p) + PAGE_SIZE
  {
  }

  lemma PagesApart(a: nat, b: nat)
    requires a % PAGE_SIZE == 0 && b % PAGE_SIZE == 0 && a != b
    ensures a + PAGE_SIZE <= b || b + PAGE_SIZE <= a
  {
  }

  /** The states differ in what is live at `p` only. */
  ghost predicate OthersLive(st: State, st': State, p: nat) {
    forall q: nat :: q != p ==> LiveSize(st', q) == LiveSize(st, q)
  }

  // ---- a new slab ----

  ghost function AddSlab(st: State, i: nat, c: nat, words: map<nat, nat>): State
    requires i < |st.kinds| && c < CACHES && |st.heads| == |st.lists| == 2 * CACHES
  {
    var a := PageAddr(st.start, i);
    State(st.start, st.meta, HeapPages.Taken(st.kinds, i, 1, true), st.heads[2 * c := a], Fronted(st.links, st.heads[2 * c], a),
          st.lists[2 * c := [a] + st.lists[2 * c]], st.slabs[a := Slab(c, a + SLAB_HEADER, 0)], words,
          st.free[a := AllObjects(a, c, 0, Capacity(c))])
  }

  /** What slab_init_page leaves. */
  ghost predicate Threaded(words: map<nat, nat>, words': map<nat, nat>, a: nat, c: nat) {
    && SlabOk(words', a, Slab(c, a + SLAB_HEADER, 0), AllObjects(a, c, 0, Capacity(c)))
    && forall x :: x in words && !(a <= x < a + PAGE_SIZE) ==> x in words' && words'[x] == words[x]
  }

  lemma AddSlabPages(st: State, i: nat, c: nat, words: map<nat, nat>)
    requires Core(st) && i < |st.kinds| && c < CACHES && st.kinds[i] == HeapPages.Free
    ensures PagesOk(AddSlab(st, i, c, words)) && SlabPages(AddSlab(st, i, c, words)) && PageAddr(st.start, i) !in st.slabs
  {
    hide HeapPages.Taken, HeapPages.KindsOk, Fronted, Placed, SlabsOk, AllObjects, PageNo, PageAddr;
    PageNumbered(st.start, |st.kinds|, i);
    HeapPages.TakenOk(st.kinds, st.meta, i, 1, true);
    var st' := AddSlab(st, i, c, words);
    forall a | a in st'.slabs
      ensures SlabPage(st', a)
    {
      assert a in st.slabs ==> SlabPage(st, a);
    }
  }

  lemma AddSlabSlabs(st: State, i: nat, c: nat, words: map<nat, nat>)
    requires Core(st) && i < |st.kinds| && c < CACHES && st.kinds[i] == HeapPages.Free && Threaded(st.words, words, PageAddr(st.start, i), c)
    ensures SlabsOk(AddSlab(st, i, c, words))
  {
    hide Placed, HeapPages.Taken, Fronted, SlabOk, AllObjects, PageNo, PageAddr, PageOf;
    AddSlabPages(st, i, c, words);
    var st', n := AddSlab(st, i, c, words), PageAddr(st.start, i);
    PageNumbered(st.start, |st.kinds|, i);
    PageParts(st.start, |st.kinds|, n, n);
    forall a | a in st.slabs
      ensures SlabOk(words, a, st.slabs[a], st.free[a])
    {
      assert SlabPage(st, a);
      PageParts(st.start, |st.kinds|, a, a);
      PagesApart(a, n);
      SlabUntouched(st.words, words, a, st.slabs[a], st.free[a]);
    }
  }

  lemma AddSlabPlaced(st: State, i: nat, c: nat, words: map<nat, nat>)
    requires Core(st) && i < |st.kinds| && c < CACHES && st.kinds[i] == HeapPages.Free
    ensures Placed(AddSlab(st, i, c, words))
  {
    hide HeapPages.Taken, PagesOk, SlabPages, Fronted, SlabsOk, Family, Capacity, PageNo, PageAddr, PageOf, AllObjects;
    AddSlabPages(st, i, c, words);
    StartPositive(st);
    var a := PageAddr(st.start, i);
    PageNumbered(st.start, |st.kinds|, i);
    FamilyFront(st.links, st.heads, st.lists, 2 * c, a);
    var st' := AddSlab(st, i, c, words);
    assert AllObjects(a, c, 0, Capacity(c)) != [];
    assert Place(st'.slabs[a], st'.free[a]) == 2 * c;
    PlacedAdd(st, st', a, 2 * c);
  }

  lemma StartPositive(st: State)
    requires PagesOk(st)
    ensures st.start > 0
  {
  }

  /** A slab joins list `l`; the other slabs stay where they are. */
  lemma PlacedAdd(st: State, st': State, a: nat, l: nat)
    requires Placed(st) && a !in st.slabs && l < |st.lists| && |st'.heads| == |st.heads| && Family(st'.links, st'.heads, st'.lists)
    requires st'.lists == st.lists[l := [a] + st.lists[l]] && a in st'.slabs && a in st'.free && Place(st'.slabs[a], st'.free[a]) == l
    requires st'.slabs.Keys == st.slabs.Keys + {a}
    requires forall b :: b in st.slabs && b in st.free ==> b in st'.free && st'.slabs[b] == st.slabs[b] && st'.free[b] == st.free[b]
    requires forall b :: b in st'.free && b != a ==> b in st.free
    ensures Placed(st')
  {
    hide Family, Place;
    forall b | b in st'.slabs && b in st'.free
      ensures InPlace(st'.lists, b, Place(st'.slabs[b], st'.free[b]))
    {
      if b != a {
        assert InPlace(st.lists, b, Place(st.slabs[b], st.free[b]));
      }
    }
    forall m, x | 0 <= m < |st'.lists| && x in st'.lists[m]
      ensures x in st'.slabs && x in st'.free && m == Place(st'.slabs[x], st'.free[x])
    {
      assert (x == a && m == l) || x in st.lists[m];
    }
  }

  /** A new slab shows no live block and hides none. */
  lemma AddSlabOk(st: State, i: nat, c: nat, words: map<nat, nat>)
    requires Core(st) && i < |st.kinds| && c < CACHES && st.kinds[i] == HeapPages.Free && Threaded(st.words, words, PageAddr(st.start, i), c)
    ensures Core(AddSlab(st, i, c, words)) && forall q: nat :: LiveSize(AddSlab(st, i, c, words), q) == LiveSize(st, q)
  {
    AddSlabPages(st, i, c, words);
    AddSlabSlabs(st, i, c, words);
    AddSlabPlaced(st, i, c, words);
    var st', a := AddSlab(st, i, c, words), PageAddr(st.start, i);
    forall q: nat
      ensures LiveSize(st', q) == LiveSize(st, q)
    {
      AddSlabLive(st, i, c, words, q);
    }
  }

  lemma AddSlabLive(st: State, i: nat, c: nat, words: map<nat, nat>, q: nat)
    requires PagesOk(st) && SlabPages(st) && i < |st.kinds| && c < CACHES && st.kinds[i] == HeapPages.Free && |st.heads| == |st.lists| == 2 * CACHES
    requires PageAddr(st.start, i) !in st.slabs
    ensures LiveSize(AddSlab(st, i, c, words), q) == LiveSize(st, q)
  {
    hide HeapPages.Taken, HeapPages.KindsOk, Fronted, Capacity, Objects, PageNo, PageAddr, PageOf;
    var a := PageAddr(st.start, i);
    PageNumbered(st.start, |st.kinds|, i);
    PageParts(st.start, |st.kinds|, a, q);
    if PageOf(q) == a {
      if q in Objects(a, c, Capacity(c)) {
        ObjectIndex(a, c, Capacity(c), q);
        var k :| 0 <= k < Capacity(c) && q == Object(a, c, k);
        assert AllObjects(a, c, 0, Capacity(c))[k] == q;
      }
      PageAligned(st.start, |st.kinds|, q);
    }
  }

  lemma PageAligned(start: nat, n: nat, q: nat)
    requires start % PAGE_SIZE == 0
    ensures IsPage(start, n, q) ==> PageOf(q) == q
  {
    if IsPage(start, n, q) {
      PageParts(start, n, q, q);
    }
  }

  // ---- taking an object ----

  /** The first free object of slab `a` is handed out; the lists are not yet adjusted. */
  ghost function Popped(st: State, a: nat): State
    requires a in st.slabs && a in st.free && st.free[a] != [] && st.slabs[a].freeList in st.words
  {
    var s := st.slabs[a];
    st.(words := st.words - {s.freeList},
        slabs := st.slabs[a := Slab(s.cache, st.words[s.freeList], s.inUse + 1)],
        free := st.free[a := st.free[a][1..]])
  }

  /** Object `p` of slab `a` is given back; the lists are not yet adjusted. */
  ghost function Pushed(st: State, a: nat, p: nat): State
    requires a in st.slabs && a in st.free && st.slabs[a].inUse > 0
  {
    var s := st.slabs[a];
    st.(words := st.words[p := s.freeList],
        slabs := st.slabs[a := Slab(s.cache, p, s.inUse - 1)],
        free := st.free[a := [p] + st.free[a]])
  }

  lemma WordsElsewhere(st: State, a: nat, b: nat, x: nat)
    requires PagesOk(st) && SlabPages(st) && a in st.slabs && b in st.slabs && a != b && a <= x < a + PAGE_SIZE
    ensures !(b <= x < b + PAGE_SIZE)
  {
    hide HeapPages.KindsOk, PageNo, PageAddr, PageOf;
    assert SlabPage(st, a) && SlabPage(st, b);
    PageParts(st.start, |st.kinds|, a, x);
    PageParts(st.start, |st.kinds|, b, x);
  }

  lemma FirstFree(st: State, a: nat)
    requires SoundSlabs(st) && a in st.slabs && st.free[a] != []
    ensures st.slabs[a].freeList == st.free[a][0] && st.free[a][0] in st.words && st.free[a][0] > 0 && PageOf(st.free[a][0]) == a
    ensures st.free[a][0] in Objects(a, st.slabs[a].cache, Capacity(st.slabs[a].cache)) && st.free[a][0] !in st.free[a][1..]
  {
    hide HeapPages.KindsOk, PageNo, PageAddr, PageOf, Objects, Capacity;
    var p := st.free[a][0];
    assert SlabPage(st, a) && SlabOk(st.words, a, st.slabs[a], st.free[a]);
    ChainPop(st.words, st.slabs[a].freeList, st.free[a]);
    ObjectInside(a, st.slabs[a].cache, p);
    PageParts(st.start, |st.kinds|, a, p);
  }

  lemma PoppedSlabs(st: State, a: nat)
    requires SoundSlabs(st) && a in st.slabs && st.free[a] != [] && st.slabs[a].freeList in st.words
    ensures SoundSlabs(Popped(st, a))
  {
    hide HeapPages.KindsOk, PageNo, PageAddr, PageOf, Objects, Capacity, SlabOk;
    var st', p := Popped(st, a), st.free[a][0];
    FirstFree(st, a);
    ObjectInside(a, st.slabs[a].cache, p);
    SlabPop(st.words, a, st.slabs[a], st.free[a]);
    forall b | b in st.slabs
      ensures SlabOk(st'.words, b, st'.slabs[b], st'.free[b])
    {
      if b != a {
        WordsElsewhere(st, a, b, p);
        SlabUntouched(st.words, st'.words, b, st.slabs[b], st.free[b]);
      }
    }
    SlabPagesKept(st, st');
  }

  lemma SlabPagesKept(st: State, st': State)
    requires PagesOk(st) && SlabPages(st) && st'.kinds == st.kinds && st'.start == st.start && st'.meta == st.meta
    requires st'.slabs.Keys == st.slabs.Keys && st'.free.Keys == st.free.Keys
    ensures PagesOk(st') && SlabPages(st')
  {
    hide HeapPages.KindsOk, PageNo, PageAddr;
    forall b | b in st'.slabs
      ensures SlabPage(st', b)
    {
      assert SlabPage(st, b);
    }
  }

  lemma PushedSlabs(st: State, a: nat, p: nat)
    requires SoundSlabs(st) && a in st.slabs && st.slabs[a].inUse > 0
    requires p in Objects(a, st.slabs[a].cache, Capacity(st.slabs[a].cache)) && p !in st.free[a]
    ensures SoundSlabs(Pushed(st, a, p))
  {
    hide HeapPages.KindsOk, PageNo, PageAddr, PageOf, Objects, Capacity, SlabOk, SlabPage, Object;
    var st' := Pushed(st, a, p);
    ObjectInside(a, st.slabs[a].cache, p);
    SlabPush(st.words, a, st.slabs[a], st.free[a], p);
    forall b | b in st.slabs
      ensures SlabOk(st'.words, b, st'.slabs[b], st'.free[b])
    {
      if b != a {
        WordsElsewhere(st, a, b, p);
        SlabUntouched(st.words, st'.words, b, st.slabs[b], st.free[b]);
      }
    }
    SlabPagesKept(st, st');
  }

  /** Taking an object makes exactly it live. */
  lemma PoppedLive(st: State, a: nat)
    requires SoundSlabs(st) && a in st.slabs && st.free[a] != [] && st.slabs[a].freeList in st.words
    ensures
      var st', p := Popped(st, a), st.slabs[a].freeList;
      p > 0 && LiveSize(st, p) == 0 && LiveSize(st', p) == Size(st.slabs[a].cache) && OthersLive(st, st', p)
  {
    hide HeapPages.KindsOk, PageNo, PageAddr, PageOf, Objects, Capacity, Size, SlabsOk;
    var st', p := Popped(st, a), st.free[a][0];
    FirstFree(st, a);
    forall q: nat | q != p
      ensures LiveSize(st', q) == LiveSize(st, q)
    {
      assert q in st.free[a] <==> q in st.free[a][1..];
    }
  }

  lemma PushedLive(st: State, a: nat, p: nat)
    requires SoundSlabs(st) && a in st.slabs && st.slabs[a].inUse > 0
    requires p in Objects(a, st.slabs[a].cache, Capacity(st.slabs[a].cache)) && p !in st.free[a]
    ensures LiveSize(Pushed(st, a, p), p) == 0 && OthersLive(st, Pushed(st, a, p), p)
  {
    hide HeapPages.KindsOk, PageNo, PageAddr, PageOf, Objects, Capacity, Size, SlabsOk;
    var st' := Pushed(st, a, p);
    ObjectInside(a, st.slabs[a].cache, p);
    assert SlabPage(st, a);
    PageParts(st.start, |st.kinds|, a, p);
    forall q: nat | q != p
      ensures LiveSize(st', q) == LiveSize(st, q)
    {
      assert q in st.free[a] <==> q in st'.free[a];
    }
  }

  // ---- adjusting the lists ----

  /** `st'` differs from `st` in slab `a` only. */
  ghost predicate OnlySlab(st: State, st': State, a: nat) {
    && st'.slabs.Keys - {a} == st.slabs.Keys - {a} && st'.free.Keys - {a} == st.free.Keys - {a}
    && forall b :: b != a && b in st.slabs && b in st.free ==> b in st'.slabs && b in st'.free && st'.slabs[b] == st.slabs[b] && st'.free[b] == st.free[b]
  }

  lemma PlacedStay(st: State, st': State, a: nat)
    requires Placed(st) && a in st.slabs && a in st.free && OnlySlab(st, st', a) && a in st'.slabs && a in st'.free
    requires st'.heads == st.heads && st'.links == st.links && st'.lists == st.lists
    requires Place(st'.slabs[a], st'.free[a]) == Place(st.slabs[a], st.free[a])
    ensures Placed(st')
  {
    hide Family, Place;
    forall b | b in st'.slabs && b in st'.free
      ensures InPlace(st'.lists, b, Place(st'.slabs[b], st'.free[b]))
    {
      assert b in st.slabs && b in st.free by {
        assert b != a ==> b in st'.slabs.Keys - {a} && b in st'.free.Keys - {a};
      }
      assert InPlace(st.lists, b, Place(st.slabs[b], st.free[b]));
    }
  }

  lemma PlacedDrop(st: State, st': State, a: nat, l: nat, i: nat)
    requires Placed(st) && a in st.slabs && a in st.free && OnlySlab(st, st', a) && a !in st'.slabs
    requires l < |st.lists| && i < |st.lists[l]| && st.lists[l][i] == a && |st'.heads| == |st.heads|
    requires st'.lists == st.lists[l := Removed(st.lists[l], i)] && Family(st'.links, st'.heads, st'.lists)
    ensures Placed(st')
  {
    hide Family, Place;
    ListOf(st, l, i);
    forall b | b in st'.slabs && b in st'.free
      ensures InPlace(st'.lists, b, Place(st'.slabs[b], st'.free[b]))
    {
      assert b in st'.slabs.Keys - {a} && b in st'.free.Keys - {a};
      assert InPlace(st.lists, b, Place(st.slabs[b], st.free[b]));
    }
    forall m, x | 0 <= m < |st'.lists| && x in st'.lists[m]
      ensures x in st'.slabs && x in st'.free && m == Place(st'.slabs[x], st'.free[x])
    {
      assert x in st.lists[m];
      OnlyOnce(st, a, l, m);
    }
  }

  lemma ListOf(st: State, l: nat, i: nat)
    requires Placed(st) && l < |st.lists| && i < |st.lists[l]|
    ensures forall x :: x in Removed(st.lists[l], i) <==> x in st.lists[l] && x != st.lists[l][i]
  {
    RemovedGone(st.links, st.heads[l], st.lists[l], i);
  }

  lemma OnlyOnce(st: State, a: nat, l: nat, m: nat)
    requires Placed(st) && l < |st.lists| && m < |st.lists| && a in st.lists[l]
    ensures a in st.lists[m] ==> m == l
  {
  }

  lemma PlacedMove(st: State, st': State, a: nat, l: nat, i: nat, m: nat)
    requires Placed(st) && a in st.slabs && a in st.free && OnlySlab(st, st', a) && a in st'.slabs && a in st'.free
    requires l < |st.lists| && i < |st.lists[l]| && st.lists[l][i] == a && m < |st.lists| && m != l && |st'.heads| == |st.heads|
    requires st'.lists == st.lists[l := Removed(st.lists[l], i)][m := [a] + st.lists[m]] && Family(st'.links, st'.heads, st'.lists)
    requires Place(st'.slabs[a], st'.free[a]) == m
    ensures Placed(st')
  {
    hide Family, Place;
    ListOf(st, l, i);
    forall b | b in st'.slabs && b in st'.free
      ensures InPlace(st'.lists, b, Place(st'.slabs[b], st'.free[b]))
    {
      if b != a {
        assert b in st'.slabs.Keys - {a} && b in st'.free.Keys - {a};
        assert InPlace(st.lists, b, Place(st.slabs[b], st.free[b]));
      }
    }
    forall k, x | 0 <= k < |st'.lists| && x in st'.lists[k]
      ensures x in st'.slabs && x in st'.free && k == Place(st'.slabs[x], st'.free[x])
    {
      if x != a {
        assert x in st.lists[k];
      } else {
        OnlyOnce(st, a, l, k);
      }
    }
  }

  // ---- pages come and go ----

  /** An empty slab's page is free again. */
  ghost function Dropped(st: State, a: nat): State
    requires IsPage(st.start, |st.kinds|, a)
  {
    st.(kinds := HeapPages.Released(st.kinds, PageNo(st.start, a), 1), slabs := st.slabs - {a}, free := st.free - {a})
  }

  lemma DroppedOk(st: State, a: nat)
    requires SoundSlabs(st) && a in st.slabs && st.slabs[a].inUse == 0
    ensures SlabPage(st, a) && SoundSlabs(Dropped(st, a))
  {
    hide HeapPages.KindsOk, HeapPages.Released, PageNo, PageAddr, PageOf, SlabOk;
    assert SlabPage(st, a);
    var i := PageNo(st.start, a);
    HeapPages.ReleasedOk(st.kinds, st.meta, i, 1);
    var st' := Dropped(st, a);
    forall b | b in st'.slabs
      ensures SlabPage(st', b)
    {
      assert SlabPage(st, b);
    }
    forall k: nat | k < |st'.kinds| && st'.kinds[k].Slab?
      ensures PageAddr(st'.start, k) in st'.slabs
    {
      PageNumbered(st.start, |st.kinds|, k);
    }
  }

  /** All objects of a slab with none in use are free, so dropping it hides nothing. */
  lemma DroppedLive(st: State, a: nat, q: nat)
    requires SoundSlabs(st) && a in st.slabs && st.slabs[a].inUse == 0 && SlabPage(st, a)
    ensures LiveSize(Dropped(st, a), q) == LiveSize(st, q)
  {
    hide HeapPages.KindsOk, HeapPages.Released, PageNo, PageAddr, PageOf, Objects, Capacity, Size, SlabOk;
    var st' := Dropped(st, a);
    PageAligned(st.start, |st.kinds|, q);
    if PageOf(q) == a {
      assert SlabOk(st.words, a, st.slabs[a], st.free[a]);
      if q in Objects(a, st.slabs[a].cache, Capacity(st.slabs[a].cache)) && q !in st.free[a] {
        SlabInUse(st.words, a, st.slabs[a], st.free[a], q);
      }
    }
  }

  /** A large block of `n` pages at page `i`. */
  lemma LargeTaken(st: State, st': State, i: nat, n: nat)
    requires Core(st) && HeapPages.FreeRange(st.kinds, i, n) && n > 0 && st' == st.(kinds := HeapPages.Taken(st.kinds, i, n, false))
    ensures Core(st') && LiveSize(st, PageAddr(st.start, i)) == 0 && LiveSize(st', PageAddr(st.start, i)) == n * PAGE_SIZE
    ensures OthersLive(st, st', PageAddr(st.start, i))
  {
    hide HeapPages.KindsOk, HeapPages.Taken, PageNo, PageAddr, PageOf, Objects, Capacity, Size, SlabOk, Family;
    HeapPages.TakenOk(st.kinds, st.meta, i, n, false);
    forall b | b in st'.slabs
      ensures SlabPage(st', b)
    {
      assert SlabPage(st, b);
    }
    PageNumbered(st.start, |st.kinds|, i);
    var p := PageAddr(st.start, i);
    PageAligned(st.start, |st.kinds|, p);
    assert p in st.slabs ==> SlabPage(st, p);
    forall q: nat | q != p
      ensures LiveSize(st', q) == LiveSize(st, q)
    {
    }
  }

  lemma LargeReleased(st: State, st': State, p: nat)
    requires Core(st) && LiveSize(st, p) > 0 && PageOf(p) !in st.slabs && IsPage(st.start, |st.kinds|, p)
    requires
      var i := PageNo(st.start, p);
      st.kinds[i].Head? && i + st.kinds[i].n <= |st.kinds| && st' == st.(kinds := HeapPages.Released(st.kinds, i, st.kinds[i].n))
    ensures Core(st') && LiveSize(st', p) == 0 && OthersLive(st, st', p)
  {
    hide HeapPages.KindsOk, HeapPages.Released, PageNo, PageAddr, PageOf, Objects, Capacity, Size, SlabOk, Family, LiveSize, OthersLive;
    var i := PageNo(st.start, p);
    LargeBlock(st, p);
    HeapPages.ReleasedOk(st.kinds, st.meta, i, st.kinds[i].n);
    forall b | b in st'.slabs
      ensures SlabPage(st', b)
    {
      assert SlabPage(st, b);
    }
    LargeReleasedLive(st, st', p);
  }

  lemma LargeReleasedLive(st: State, st': State, p: nat)
    requires Core(st) && LiveSize(st, p) > 0 && PageOf(p) !in st.slabs && IsPage(st.start, |st.kinds|, p)
    requires
      var i := PageNo(st.start, p);
      st.kinds[i].Head? && i + st.kinds[i].n <= |st.kinds| && st' == st.(kinds := HeapPages.Released(st.kinds, i, st.kinds[i].n))
    ensures LiveSize(st', p) == 0 && OthersLive(st, st', p)
  {
    hide HeapPages.KindsOk, HeapPages.Released, PageNo, PageAddr, PageOf, Objects, Capacity, Size, SlabOk, Family, SlabPages, SlabsOk, Placed;
    LargeBlock(st, p);
    forall q: nat | q != p
      ensures LiveSize(st', q) == LiveSize(st, q)
    {
    }
  }
}
