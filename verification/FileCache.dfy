/** The page cache and the cached file operations of kernel/fs/vfs.c, in front of backing files that
    never fail. Running out of frames or heap is an arbitrary choice. */
module FileCache {
  import opened Base
  import opened FileCacheTheory
  import opened CacheLinks

  /** The state of a write that has copied `written` bytes over `t` pages. */
  ghost predicate InWrite(c: Links, now: Store, st0: Store, node: nat, offset: nat, data: seq<Byte>, written: nat, t: nat, zeroFrom: nat) {
    && node in st0.disk && node in st0.sizes && offset <= st0.sizes[node]
    && StoreOk(now, Span(node, offset / PAGE_SIZE, t))
    && Front(c, Span(node, offset / PAGE_SIZE, t), t)
    && Written(st0, now, node, offset, data, written, zeroFrom)
    && Progress(offset, |data|, written, t)
    && zeroFrom <= offset && (written == 0 ==> zeroFrom == offset)
  }

  lemma WriteBegin(c: Links, st: Store, node: nat, offset: nat, data: seq<Byte>)
    requires LinksOk(c) && StoreOk(st, {}) && node in st.disk && node in st.sizes && offset <= st.sizes[node]
    ensures InWrite(c, st, st, node, offset, data, 0, 0, offset)
  {
    hide LinksOk, StoreOk, Front, Written;
    StoreWf(st, {});
    FrontNone(c);
    WrittenBegin(st, node, offset, data);
    assert Span(node, offset / PAGE_SIZE, 0) == {};
  }

  class Cache {
    const buckets: array<nat>
    var heap: Heap
    var lruHead: nat
    var lruTail: nat
    var cachedPages: nat
    var sizes: map<nat, nat>
    var disk: map<nat, seq<Byte>>
    ghost var lru: seq<nat>
    ghost var chains: seq<seq<nat>>
    ghost var index: map<PageKey, nat>

    ghost function L(): Links
      reads this, buckets
    {
      Links(heap, buckets[..], lruHead, lruTail, lru, chains, index)
    }

    ghost function St(): Store
      reads this, buckets
    {
      Store(Pages(L()), disk, sizes)
    }

    /** The lists agree, and the counter counts them and respects the limit. */
    ghost predicate Structure()
      reads this, buckets
    {
      && buckets.Length == CACHE_BUCKETS
      && LinksOk(L())
      && cachedPages == |lru| <= MAX_CACHED_PAGES
    }

    ghost predicate Valid()
      reads this, buckets
    {
      Structure() && StoreOk(St(), {})
    }

    /** An empty cache over given backing files. */
    constructor (files: map<nat, seq<Byte>>)
      ensures Valid() && fresh(buckets) && disk == files && lru == []
      ensures sizes == map n | n in files :: |files[n]|
    {
      hide LinksOk, Pages, StoreOk;
      buckets := new nat[CACHE_BUCKETS](_ => NULL);
      heap, lruHead, lruTail, cachedPages := map[], NULL, NULL, 0;
      disk, sizes := files, map n | n in files :: |files[n]|;
      lru, index := [], map[];
      chains := seq(CACHE_BUCKETS, _ => []);
      new;
      EmptyLinks(L());
      EmptyStore(disk, sizes);
    }

    /** cache_lookup: follows one hash chain. */
    method Lookup(k: PageKey) returns (e: nat)
      requires Structure()
      ensures e == if k in index then index[k] else NULL
      ensures e == NULL <==> k !in index
      ensures e != NULL ==> e in heap && heap[e].key == k && e in lru
    {
      hide LinksOk, ChainOk, Hash, Pages;
      BucketFacts(L(), k);
      ghost var chain := chains[Hash(k)];
      e := buckets[Hash(k)];
      ghost var j := 0;
      ChainFirst(heap, e, chain);
      while e != NULL
        invariant 0 <= j <= |chain| && e == At(chain, j)
        invariant forall i :: 0 <= i < j ==> chain[i] in heap && heap[chain[i]].key != k
        decreases |chain| - j
      {
        ChainStep(heap, buckets[Hash(k)], chain, j);
        if heap[e].key == k {
          return;
        }
        e := heap[e].next;
        j := j + 1;
      }
      ChainNull(heap, buckets[Hash(k)], chain, j);
    }

    /** lru_remove. */
    method LruRemove(e: nat)
      requires CanUnlink(heap, e)
      modifies this`heap, this`lruHead, this`lruTail
      ensures heap == Unlinked(old(heap), e)
      ensures lruHead == if old(heap)[e].lruPrev != NULL then old(lruHead) else old(heap)[e].lruNext
      ensures old(heap)[e].lruPrev != e && old(heap)[e].lruNext != e ==>
        lruTail == if old(heap)[e].lruNext != NULL then old(lruTail) else old(heap)[e].lruPrev
    {
      var p := heap[e].lruPrev;
      if p != NULL {
        heap := heap[p := heap[p].(lruNext := heap[e].lruNext)];
      } else {
        lruHead := heap[e].lruNext;
      }
      var n := heap[e].lruNext;
      if n != NULL {
        heap := heap[n := heap[n].(lruPrev := heap[e].lruPrev)];
      } else {
        lruTail := heap[e].lruPrev;
      }
    }

    /** lru_add_front. */
    method LruAddFront(e: nat)
      requires e in heap && (lruHead != NULL ==> lruHead in heap)
      modifies this`heap, this`lruHead, this`lruTail
      ensures heap == Fronted(old(heap), old(lruHead), e)
      ensures lruHead == e && lruTail == if old(lruTail) == NULL then e else old(lruTail)
    {
      heap := heap[e := heap[e].(lruNext := lruHead, lruPrev := NULL)];
      if lruHead != NULL {
        heap := heap[lruHead := heap[lruHead].(lruPrev := e)];
      }
      lruHead := e;
      if lruTail == NULL {
        lruTail := e;
      }
    }

    /** lru_touch: the entry moves to the front, the rest keeps its order. */
    method LruTouch(e: nat, ghost i: nat)
      requires Structure() && i < |lru| && lru[i] == e
      modifies this`heap, this`lruHead, this`lruTail, this`lru
      ensures Structure() && Pages(L()) == old(Pages(L()))
      ensures lru == [e] + Removed(old(lru), i)
      ensures OnlyRecency(old(heap), heap) && e in heap
    {
      hide LinksOk, Pages, Unlinked, Fronted, Removed, OnlyRecency;
      ghost var c := L();
      TouchStart(c, i);
      RecencySelf(heap);
      if e == lruHead {
        return;
      }
      LruRemove(e);
      TouchUnlinked(c, i, heap, lruHead, lruTail);
      TouchMiddle(c, i, heap, lruHead, lruTail);
      LruAddFront(e);
      lru := [e] + Removed(lru, i);
      RemovedAt(c.lru, i, 0);
      RecencyKeys(c.heap, heap);
    }

    /** Taking an entry out of its hash chain. */
    method Unchain(e: nat, ghost chain: seq<nat>, ghost j: nat)
      requires buckets.Length == CACHE_BUCKETS && e in heap && j < |chain| && chain[j] == e
      requires ChainOk(heap, buckets[Hash(heap[e].key)], chain) && (At(chain, j - 1) != NULL ==> At(chain, j - 1) in heap)
      modifies this`heap, buckets
      ensures heap == Bypassed(old(heap), At(chain, j - 1), e)
      ensures buckets[..] == if j == 0 then old(buckets[..])[Hash(old(heap)[e].key) := old(heap)[e].next] else old(buckets[..])
    {
      hide Hash, ChainOk;
      var b := Hash(heap[e].key);
      ghost var first := buckets[b];
      ChainFirst(heap, first, chain);
      ChainFacts(heap, first, chain);
      if buckets[b] == e {
        buckets[b] := heap[e].next;
      } else {
        var curr := buckets[b];
        ghost var i := 0;
        while curr != NULL && curr in heap && heap[curr].next != e
          invariant 0 <= i < j && curr == chain[i] && i < |chain|
          invariant heap == old(heap) && buckets[..] == old(buckets[..])
          decreases |chain| - i
        {
          ChainStep(heap, first, chain, i);
          ChainStep(heap, first, chain, i + 1);
          curr := heap[curr].next;
          i := i + 1;
        }
        ChainStep(heap, first, chain, i);
        if curr != NULL {
          heap := heap[curr := heap[curr].(next := heap[e].next)];
        }
      }
    }

    /** Unlinking and freeing one entry, as both eviction functions do. */
    method Drop(e: nat, ghost i: nat)
      requires Structure() && i < |lru| && lru[i] == e
      modifies this`heap, this`lruHead, this`lruTail, this`cachedPages, this`lru, this`chains, this`index, buckets
      ensures Structure() && lru == Removed(old(lru), i)
      ensures e in old(heap) && Pages(L()) == old(Pages(L())) - {old(heap)[e].key}
      ensures forall x :: x in heap ==> x in old(heap) && heap[x].key == old(heap)[x].key
    {
      hide LinksOk, Pages, Unlinked, Fronted, Bypassed, Removed, Hash, ChainOk;
      ghost var c := L();
      ghost var j := DropStart(c, i);
      ghost var b := Hash(heap[e].key);
      Unchain(e, chains[b], j);
      ghost var h1 := heap;
      DropMiddle(c, i, At(c.chains[b], j as int - 1), h1);
      LruRemove(e);
      heap := heap - {e};
      DropOk(c, i, b, j, h1, heap);
      index := index - {c.heap[e].key};
      chains := chains[b := Removed(chains[b], j)];
      RemovedAt(lru, i, 0);
      lru := Removed(lru, i);
      cachedPages := cachedPages - 1;
    }

    /** Writing a dirty page back, cut off at the size of the file. */
    method WriteBack(e: nat)
      requires e in heap && heap[e].key.node in disk && heap[e].key.node in sizes && |heap[e].data| == PAGE_SIZE
      requires heap[e].dirty ==> heap[e].key.offset <= sizes[heap[e].key.node]
      modifies this`disk
      ensures disk == if heap[e].dirty
        then old(disk)[heap[e].key.node := Overlaid(old(disk)[heap[e].key.node], heap[e].key.offset,
                                                    heap[e].data[..WriteSize(heap[e].key.offset, sizes[heap[e].key.node])])]
        else old(disk)
    {
      var k := heap[e].key;
      if heap[e].dirty {
        var writeSize := PAGE_SIZE;
        if k.offset + PAGE_SIZE > sizes[k.node] {
          writeSize := sizes[k.node] - k.offset;
        }
        disk := disk[k.node := Overlaid(disk[k.node], k.offset, heap[e].data[..writeSize])];
      }
    }

    /** Write-back and removal of entry `i`, which no write in progress has touched. */
    method Evict(e: nat, ghost i: nat, ghost touched: set<PageKey>)
      requires Structure() && StoreOk(St(), touched) && i < |lru| && lru[i] == e
      requires e in heap && heap[e].key !in touched
      modifies this`heap, this`disk, this`lruHead, this`lruTail, this`cachedPages, this`lru, this`chains, this`index, buckets
      ensures Structure() && StoreOk(St(), touched) && lru == Removed(old(lru), i)
      ensures
        var k := old(heap)[e].key;
        && Pages(L()) == old(Pages(L())) - {k}
        && SameBytesBut(old(St()), St(), k)
        && (forall n :: n in old(disk) && n != k.node ==> n in disk && disk[n] == old(disk)[n])
      ensures disk.Keys == old(disk).Keys
      ensures forall x :: x in heap ==> x in old(heap) && heap[x].key == old(heap)[x].key
    {
      hide LinksOk, Pages, StoreOk, SameBytesBut, Removed, Wf;
      ghost var st := St();
      ghost var k := heap[e].key;
      PageOf(L(), i);
      EvictedAll(st, touched, k);
      WriteBack(e);
      Drop(e, i);
      assert St() == Evicted(st, k);
    }

    /** cache_evict_one: the least recently used entry goes. */
    method EvictOne(ghost touched: set<PageKey>)
      requires Structure() && StoreOk(St(), touched)
      requires lru != [] ==> lru[|lru| - 1] in heap && heap[lru[|lru| - 1]].key !in touched
      modifies this`heap, this`disk, this`lruHead, this`lruTail, this`cachedPages, this`lru, this`chains, this`index, buckets
      ensures Structure() && StoreOk(St(), touched) && SameBytesIn(old(St()), St(), touched)
      ensures old(lru) == [] ==> St() == old(St()) && lru == old(lru)
      ensures old(lru) != [] ==>
        && lru == old(lru)[..|old(lru)| - 1]
        && old(lru)[|old(lru)| - 1] in old(heap)
        && Pages(L()) == old(Pages(L())) - {old(heap)[old(lru)[|old(lru)| - 1]].key}
      ensures forall x :: x in heap ==> x in old(heap) && heap[x].key == old(heap)[x].key
    {
      hide LinksOk, Pages, StoreOk, SameBytesBut, SameBytesIn;
      ghost var st := St();
      StoreWf(st, touched);
      SameBytesSelf(st, touched);
      TailIs(L());
      if lruTail == NULL {
        return;
      }
      ghost var k := heap[lruTail].key;
      RemovedLast(lru);
      Evict(lruTail, |lru| - 1, touched);
      SameBytesEvicted(st, St(), touched, k);
    }

    /** cache_evict_inode with flushing, as vfs_close calls it: no entry of the file is left and the
        backing file holds the file. */
    method EvictInode(node: nat)
      requires Valid() && node in disk
      modifies this`heap, this`disk, this`lruHead, this`lruTail, this`cachedPages, this`lru, this`chains, this`index, buckets
      ensures Valid() && SameBytesIn(old(St()), St(), {})
      ensures forall k :: k in Pages(L()) ==> k.node != node
      ensures forall k: PageKey :: k.node != node && k in old(Pages(L())) ==> k in Pages(L()) && Pages(L())[k] == old(Pages(L()))[k]
      ensures Wf(old(St())) && node in disk && disk[node] == File(old(St()), node)
    {
      hide LinksOk, Pages, StoreOk, SameBytesBut, SameBytesIn, Wf, File, Removed;
      ghost var st := St();
      StoreWf(st, {});
      SameBytesSelf(st, {});
      TailIs(L());
      var curr := lruHead;
      ghost var p := 0;
      while curr != NULL
        invariant Valid() && SameBytesIn(st, St(), {}) && disk.Keys == st.disk.Keys
        invariant 0 <= p <= |lru| && curr == At(lru, p)
        invariant forall i :: 0 <= i < p ==> lru[i] in heap && heap[lru[i]].key.node != node
        invariant forall k: PageKey :: k.node != node && k in st.cache ==> k in Pages(L()) && Pages(L())[k] == st.cache[k]
        decreases |lru| - p
      {
        ghost var c := L();
        CursorAt(c, p);
        var next := heap[curr].lruNext;
        if heap[curr].key.node == node {
          ghost var mid := St();
          ghost var k := heap[curr].key;
          Evict(curr, p, {});
          SameBytesEvicted(mid, St(), {}, k);
          SameBytesTwice(st, mid, St(), {});
          CursorStays(c, L(), p, k);
          TailIs(L());
        } else {
          p := p + 1;
        }
        curr := next;
      }
      NoneLeft(L(), p, node);
      FlushedFile(St(), node);
      SameFiles(st, St(), {}, node);
    }

    /** cache_add: makes room if the cache is full, then links a clean entry in at the front. `mid` is
        the store after the eviction. */
    method Add(k: PageKey, data: seq<Byte>, ghost touched: set<PageKey>, memory: bool) returns (e: nat, ghost mid: Store)
      requires Structure() && StoreOk(St(), touched) && k !in index
      requires |lru| == MAX_CACHED_PAGES ==> lru[|lru| - 1] in heap && heap[lru[|lru| - 1]].key !in touched
      modifies this`heap, this`disk, this`lruHead, this`lruTail, this`cachedPages, this`lru, this`chains, this`index, buckets
      ensures Structure() && StoreOk(mid, touched) && SameBytesIn(old(St()), mid, touched) && k !in mid.cache
      ensures e == NULL ==> St() == mid && !memory
      ensures e != NULL ==>
        && St() == mid.(cache := mid.cache[k := Page(data, false)])
        && k in index && index[k] == e && e in heap && heap[e].key == k && heap[e].data == data && !heap[e].dirty
        && lru == [e] + (if |old(lru)| == MAX_CACHED_PAGES then old(lru)[..|old(lru)| - 1] else old(lru))
        && (forall x :: x in heap && x != e ==> x in old(heap) && heap[x].key == old(heap)[x].key)
    {
      hide LinksOk, Pages, StoreOk, SameBytesIn;
      ghost var st := St();
      StoreWf(st, touched);
      SameBytesSelf(st, touched);
      PagesOf(L());
      if cachedPages >= MAX_CACHED_PAGES {
        EvictOne(touched);
      }
      mid := St();
      PagesOf(L());
      var room := *;
      if !room && !memory {
        return NULL, mid;
      }
      e := Link(k, data);
    }

    /** A new entry goes to the head of its chain and to the front of the recency list. */
    method Link(k: PageKey, data: seq<Byte>) returns (a: nat)
      requires Structure() && k !in index && |lru| < MAX_CACHED_PAGES
      modifies this`heap, this`lruHead, this`lruTail, this`cachedPages, this`lru, this`chains, this`index, buckets
      ensures Structure() && a != NULL && lru == [a] + old(lru)
      ensures Pages(L()) == old(Pages(L()))[k := Page(data, false)]
      ensures k in index && index[k] == a && a in heap && heap[a].key == k && heap[a].data == data && !heap[a].dirty
      ensures forall x :: x in heap && x != a ==> x in old(heap) && heap[x].key == old(heap)[x].key
    {
      hide LinksOk, Pages, Hash, Fronted;
      ghost var c := L();
      FreshAddress(heap.Keys);
      a :| a != NULL && a !in heap;
      AddStart(c);
      AddOk(c, a, k, data);
      AddedEntry(c, a, k, data);
      var b := Hash(k);
      heap := heap[a := Entry(k, data, false, buckets[b], NULL, NULL)];
      buckets[b] := a;
      LruAddFront(a);
      chains := chains[b := [a] + chains[b]];
      lru := [a] + lru;
      index := index[k := a];
      cachedPages := cachedPages + 1;
      assert buckets[..] == c.buckets[b := a];
      assert L() == AddLinks(c, a, k, data);
      AddedOthers(c, a, k, data);
    }

    // ---- reading ----

    /** The page of vfs_read: touched if cached, otherwise loaded and added. */
    method Fetch(k: PageKey, memory: bool) returns (e: nat)
      requires Valid() && k.node in disk && k.offset % PAGE_SIZE == 0 && k.node in sizes && k.offset < sizes[k.node]
      modifies this`heap, this`disk, this`lruHead, this`lruTail, this`cachedPages, this`lru, this`chains, this`index, buckets
      ensures Valid() && SameBytesIn(old(St()), St(), {}) && (memory ==> e != NULL)
      ensures k in old(St()).cache ==> e != NULL && St() == old(St())
      ensures e != NULL ==> e in heap && k in St().cache && St().cache[k].data == heap[e].data && lru != [] && lru[0] == e
    {
      hide LinksOk, Pages, StoreOk, SameBytesIn, Wf, Removed;
      ghost var st := St();
      StoreWf(st, {});
      SameBytesSelf(st, {});
      PagesOf(L());
      e := Lookup(k);
      if e != NULL {
        ghost var i :| 0 <= i < |lru| && lru[i] == e;
        LruTouch(e, i);
        PagesOf(L());
      } else {
        var frame := *;
        if !frame && !memory {
          return NULL;
        }
        var readSize := PAGE_SIZE;
        if k.offset + PAGE_SIZE > sizes[k.node] {
          readSize := sizes[k.node] - k.offset;
        }
        var data := Loaded(ZeroBytes(PAGE_SIZE), disk[k.node], k.offset, readSize);
        ghost var mid;
        TailIs(L());
        e, mid := Add(k, data, {}, memory);
        SameBytesSizes(st, mid, {});
        if e != NULL {
          LoadedAfter(st, mid, {}, k, ZeroBytes(PAGE_SIZE));
          LoadedVisible(mid, k, data);
          SameBytesTwice(st, mid, St(), {});
        }
      }
    }

    /** How much of one page a round of vfs_read takes: up to the end of the page, the request and the file. */
    method ReadChunk(current: nat, left: nat, fileSize: nat) returns (n: nat)
      requires left > 0 && current < fileSize
      ensures 0 < n <= left && current % PAGE_SIZE + n <= PAGE_SIZE && current + n <= fileSize
      ensures n == left || current + n == fileSize || current % PAGE_SIZE + n == PAGE_SIZE
    {
      n := PAGE_SIZE - current % PAGE_SIZE;
      if n > left {
        n := left;
      }
      if current + n > fileSize {
        n := fileSize - current;
      }
    }

    /** vfs_read of a regular file: exactly the slice of the file, cut short only by a shortage of memory. With
        `memory` every allocation succeeds. */
    method Read(node: nat, offset: nat, size: nat, memory: bool) returns (buffer: seq<Byte>, ghost shortage: bool)
      requires Valid() && node in disk
      modifies this`heap, this`disk, this`lruHead, this`lruTail, this`cachedPages, this`lru, this`chains, this`index, buckets
      ensures Valid() && SameBytesIn(old(St()), St(), {}) && Wf(old(St()))
      // pages already cached need no memory and are not evicted
      ensures AllCached(old(St()), node, offset, size) ==> !shortage && St() == old(St())
      ensures
        var file := File(old(St()), node);
        && |buffer| <= size
        && (buffer == [] || (offset + |buffer| <= |file| && buffer == file[offset..offset + |buffer|]))
        && (!shortage ==> |buffer| == size || offset + |buffer| >= |file|) && (memory ==> !shortage)
    {
      hide LinksOk, Pages, StoreOk, SameBytesIn, Wf, Bytes, File, PageStart, AllCached;
      ghost var st := St();
      StoreWf(st, {});
      SameBytesSelf(st, {});
      buffer, shortage := [], false;
      while |buffer| < size
        invariant Valid() && SameBytesIn(st, St(), {}) && node in disk && node in sizes && sizes == st.sizes
        invariant |buffer| <= size && (buffer == [] || offset + |buffer| <= sizes[node])
        invariant buffer == Bytes(st, node, offset, |buffer|)
        invariant !shortage && (AllCached(st, node, offset, size) ==> St() == st)
      {
        var current := offset + |buffer|;
        var page := PageStart(current);
        var inPage := current % PAGE_SIZE;
        if current >= sizes[node] {
          break;
        }
        var n := ReadChunk(current, size - |buffer|, sizes[node]);
        PageBelow(current);
        ghost var before := St();
        if AllCached(st, node, offset, size) {
          CachedHere(st, node, offset, size, current);
        }
        var e := Fetch(PageKey(node, page), memory);
        SameBytesTwice(st, before, St(), {});
        SameBytesSizes(st, St(), {});
        if e == NULL {
          shortage := true;
          break;
        }
        ReadPiece(st, St(), node, offset, |buffer|, n);
        buffer := buffer + heap[e].data[inPage..inPage + n];
      }
      if buffer != [] {
        BytesOfFile(st, node, offset, |buffer|);
      }
    }

    // ---- writing ----

    /** The page of vfs_write: touched if cached; otherwise a frame, filled from the backing file only
        for a partial write that starts inside the file, else zeroed. */
    method FetchForWrite(k: PageKey, partialInside: bool, memory: bool, ghost touched: set<PageKey>, ghost t: nat)
      returns (e: nat, ghost mid: Store)
      requires Structure() && StoreOk(St(), touched) && Front(L(), touched, t) && t < MAX_CACHED_PAGES && k !in touched
      requires k.node in disk && k.node in sizes && k.offset % PAGE_SIZE == 0 && (partialInside ==> k.offset < sizes[k.node])
      modifies this`heap, this`disk, this`lruHead, this`lruTail, this`cachedPages, this`lru, this`chains, this`index, buckets
      ensures Structure() && StoreOk(mid, touched) && SameBytesIn(old(St()), mid, touched)
      ensures e == NULL ==> St() == mid && !memory
      ensures k in old(St()).cache ==> e != NULL && mid == old(St())
      ensures e != NULL ==>
        && k in index && index[k] == e && e in heap && |heap[e].data| == PAGE_SIZE
        && St() == mid.(cache := mid.cache[k := Page(heap[e].data, heap[e].dirty)])
        && Wf(mid) && k.node in mid.disk && Holds(mid, k, heap[e].data, k !in old(Pages(L())) && !partialInside)
        && Front(L(), touched + {k}, t + 1)
    {
      hide LinksOk, Pages, StoreOk, SameBytesIn, Wf, Removed, Holds, Front, OnlyRecency;
      ghost var st, c := St(), L();
      StoreWf(st, touched);
      SameBytesSelf(st, touched);
      PagesOf(c);
      mid := st;
      e := Lookup(k);
      if e != NULL {
        ghost var i :| 0 <= i < |lru| && lru[i] == e;
        PageOf(c, i);
        LruTouch(e, i);
        PagesOf(L());
        FrontTouched(c, L(), touched, t, k, i);
        PageLength(st, touched, k);
        HoldsCached(st, k);
        assert st.cache == st.cache[k := st.cache[k]];
        return;
      }
      var frame := *;
      if !frame && !memory {
        return;
      }
      assert |ZeroBytes(PAGE_SIZE)| == PAGE_SIZE;
      var data: seq<Byte> :| |data| == PAGE_SIZE;  // an uninitialised frame
      ghost var garbage := data;
      if partialInside {
        var readSize := PAGE_SIZE;
        if k.offset + PAGE_SIZE > sizes[k.node] {
          readSize := sizes[k.node] - k.offset;
        }
        data := Loaded(data, disk[k.node], k.offset, readSize);
      } else {
        data := ZeroBytes(PAGE_SIZE);
      }
      FrontLast(c, touched, t);
      e, mid := Add(k, data, touched, memory);
      SameBytesSizes(st, mid, touched);
      if e != NULL {
        if partialInside {
          LoadedAfter(st, mid, touched, k, garbage);
        } else {
          HoldsZeros(mid, k, data);
        }
        FrontAdded(c, L(), touched, t, k, e);
      }
    }

    /** One round of the loop of vfs_write: up to one page, or nothing for want of memory. */
    method WriteChunk(node: nat, offset: nat, data: seq<Byte>, written: nat, n: nat, memory: bool,
                      ghost st0: Store, ghost t: nat, ghost zeroFrom: nat) returns (ok: bool, ghost zeroFrom': nat)
      requires Structure() && InWrite(L(), St(), st0, node, offset, data, written, t, zeroFrom) && t < MAX_CACHED_PAGES
      requires written == 0 ==> St() == st0
      requires 0 < n && written + n <= |data| && n <= PAGE_SIZE - (offset + written) % PAGE_SIZE
      requires written + n == |data| || n == PAGE_SIZE - (offset + written) % PAGE_SIZE
      modifies this`heap, this`disk, this`lruHead, this`lruTail, this`cachedPages, this`lru, this`chains, this`index, buckets
      ensures Structure() && (memory ==> ok)
      ensures PageKey(node, PageStart(offset + written)) in old(St()).cache ==> ok && St().cache.Keys == old(St()).cache.Keys
      ensures !ok ==> Written(st0, St(), node, offset, data, written, zeroFrom) && StoreOk(St(), Span(node, offset / PAGE_SIZE, t))
      ensures ok ==>
        && InWrite(L(), St(), st0, node, offset, data, written + n, t + 1, zeroFrom')
        && zeroFrom' == if written == 0 then LostFrom(st0, node, offset) else zeroFrom
    {
      hide LinksOk, Pages, StoreOk, SameBytesIn, Wf, Holds, Front, Written, Span, Progress, LostFrom, PageStart;
      var current := offset + written;
      var k := PageKey(node, PageStart(current));
      ghost var now, touched := St(), Span(node, offset / PAGE_SIZE, t);
      ghost var cached := k in now.cache;
      NextPage(node, offset, |data|, written, t);
      PageBelow(current);
      WrittenSizes(st0, now, node, offset, data, written, zeroFrom);
      var partialInside := n < PAGE_SIZE && current < sizes[node];
      var e;
      ghost var mid;
      e, mid := FetchForWrite(k, partialInside, memory, touched, t);
      SameBytesSizes(now, mid, touched);
      if e == NULL {
        SpanCovers(node, offset, |data|, written, t);
        WrittenKept(st0, now, mid, touched, node, offset, data, written, zeroFrom);
        return false, zeroFrom;
      }
      ghost var zeroed := !cached && !partialInside;
      zeroFrom' := if zeroed && written == 0 && k.offset < offset then k.offset else zeroFrom;
      if written == 0 {
        LostIs(st0, node, offset, n, zeroed);
      }
      PutChunk(k, e, offset, data, written, n, st0, now, mid, t, zeroed, zeroFrom);
      return true, zeroFrom';
    }

    /** The second half of the round: the piece goes into the fetched page. */
    method PutChunk(k: PageKey, e: nat, offset: nat, data: seq<Byte>, written: nat, n: nat,
                    ghost st0: Store, ghost now: Store, ghost mid: Store, ghost t: nat, ghost zeroed: bool, ghost zeroFrom: nat)
      requires Structure() && k in index && index[k] == e && e in heap
      requires Fetched(st0, now, mid, t, k, heap[e].data, zeroed, offset, data, written, n, zeroFrom)
      requires St() == mid.(cache := mid.cache[k := Page(heap[e].data, heap[e].dirty)])
      requires Front(L(), Span(k.node, offset / PAGE_SIZE, t) + {k}, t + 1)
      modifies this`heap
      ensures k in old(St()).cache ==> St().cache.Keys == old(St()).cache.Keys
      ensures Structure() && InWrite(L(), St(), st0, k.node, offset, data, written + n, t + 1,
                                     if zeroed && written == 0 && k.offset < offset then k.offset else zeroFrom)
    {
      hide LinksOk, Pages, StoreOk, SameBytesIn, Wf, Holds, Front, Written, Span, Progress, PageStart;
      var inPage := (offset + written) % PAGE_SIZE;
      ChunkWritten(st0, now, mid, t, k, heap[e].data, zeroed, offset, data, written, n, zeroFrom);
      NextPage(k.node, offset, |data|, written, t);
      SpanNext(k.node, offset, written, t);
      ghost var fetched, fetchedPage := St(), Page(heap[e].data, heap[e].dirty);
      var page := Patched(heap[e].data, inPage, data[written..written + n]);
      PutPage(k, e, page, Span(k.node, offset / PAGE_SIZE, t) + {k}, t + 1);
      PutTwice(mid, fetched, k, fetchedPage, page);
    }

    /** Copying into the frame of a cached page and marking it dirty. */
    method PutPage(k: PageKey, e: nat, page: seq<Byte>, ghost touched: set<PageKey>, ghost t: nat)
      requires Structure() && k in index && index[k] == e && e in heap && Front(L(), touched, t)
      modifies this`heap
      ensures Structure() && Front(L(), touched, t)
      ensures Pages(L()) == old(Pages(L()))[k := Page(page, true)]
    {
      hide LinksOk, Pages, Front;
      StorePage(L(), k, page);
      FrontStored(L(), e, page, touched, t);
      heap := heap[e := heap[e].(data := page, dirty := true)];
    }

    /** vfs_write of a regular file that leaves no hole and spans no more pages than the cache holds:
        exactly the range is overwritten, except that an append into the middle of an uncached page
        turns the bytes before it in that page into zeros. */
    method Write(node: nat, offset: nat, data: seq<Byte>, memory: bool) returns (written: nat, ghost shortage: bool)
      requires Valid() && node in disk && node in sizes && offset <= sizes[node]
      requires (offset % PAGE_SIZE + |data| + PAGE_SIZE - 1) / PAGE_SIZE <= MAX_CACHED_PAGES
      modifies this, buckets
      ensures Valid() && Wf(old(St())) && disk.Keys == old(disk).Keys && sizes.Keys == old(sizes).Keys
      ensures written <= |data| && (!shortage ==> written == |data|) && (memory ==> !shortage)
      ensures AllCached(old(St()), node, offset, |data|) ==> !shortage
      ensures
        var lost := if written > 0 then LostFrom(old(St()), node, offset) else offset;
        File(St(), node) == Overlaid(ZeroedTail(File(old(St()), node), lost, offset), offset, data[..written])
      ensures forall n :: n in disk && n != node ==> File(St(), n) == File(old(St()), n)
    {
      hide LinksOk, Pages, StoreOk, Wf, Front, Written, Span, Progress, File, LostFrom, AllCached;
      ghost var st0 := St();
      ghost var t, zeroFrom;
      written, shortage, t, zeroFrom := WriteLoop(node, offset, data, memory);
      WriteEnd(st0, St(), node, offset, data, written, t, zeroFrom);
      ghost var now := St();
      if offset + written > sizes[node] {
        sizes := sizes[node := offset + written];
      }
      assert now.sizes[node := Max(now.sizes[node], offset + written)] == sizes;
      assert St() == now.(sizes := sizes);
    }

    /** The loop of vfs_write. */
    method WriteLoop(node: nat, offset: nat, data: seq<Byte>, memory: bool)
      returns (written: nat, ghost shortage: bool, ghost t: nat, ghost zeroFrom: nat)
      requires Valid() && node in disk && node in sizes && offset <= sizes[node]
      requires (offset % PAGE_SIZE + |data| + PAGE_SIZE - 1) / PAGE_SIZE <= MAX_CACHED_PAGES
      modifies this`heap, this`disk, this`lruHead, this`lruTail, this`cachedPages, this`lru, this`chains, this`index, buckets
      ensures Structure() && written <= |data| && (!shortage ==> written == |data|) && (memory ==> !shortage)
      ensures AllCached(old(St()), node, offset, |data|) ==> !shortage
      ensures StoreOk(St(), Span(node, offset / PAGE_SIZE, t)) && Progress(offset, |data|, written, t)
      ensures Written(old(St()), St(), node, offset, data, written, zeroFrom)
      ensures zeroFrom == if written > 0 then LostFrom(old(St()), node, offset) else offset
    {
      hide LinksOk, Pages, StoreOk, Wf, Front, Written, Span, Progress, LostFrom, AllCached, PageStart;
      ghost var st0 := St();
      t, zeroFrom := 0, offset;
      written, shortage := 0, false;
      WriteBegin(L(), st0, node, offset, data);
      while written < |data|
        invariant Structure() && InWrite(L(), St(), st0, node, offset, data, written, t, zeroFrom)
        invariant written <= |data| && (written == 0 ==> St() == st0)
        invariant written > 0 ==> zeroFrom == LostFrom(st0, node, offset)
        invariant !shortage && (AllCached(st0, node, offset, |data|) ==> St().cache.Keys == st0.cache.Keys)
      {
        if AllCached(st0, node, offset, |data|) {
          CachedHere(st0, node, offset, |data|, offset + written);
        }
        var n := PAGE_SIZE - (offset + written) % PAGE_SIZE;
        if written + n > |data| {
          n := |data| - written;
        }
        NextPage(node, offset, |data|, written, t);
        PageBudget(offset, |data|, written, t, MAX_CACHED_PAGES);
        var ok;
        ghost var z;
        ok, z := WriteChunk(node, offset, data, written, n, memory, st0, t, zeroFrom);
        if !ok {
          shortage := true;
          break;
        }
        written, t, zeroFrom := written + n, t + 1, z;
      }
    }
  }
}
