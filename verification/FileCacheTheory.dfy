/** What a write-back page cache over a slow file must amount to (kernel/fs/vfs.c): one flat
    byte array per file. */
module FileCacheTheory {
  import opened Base

  datatype PageKey = PageKey(node: nat, offset: nat)

  datatype Page = Page(data: seq<Byte>, dirty: bool)

  /** Cached pages, the backing files, and the sizes kept in the inodes. */
  datatype Store = Store(cache: map<PageKey, Page>, disk: map<nat, seq<Byte>>, sizes: map<nat, nat>)

  function PageStart(i: nat): nat {
    i / PAGE_SIZE * PAGE_SIZE
  }

  function DiskByte(file: seq<Byte>, i: nat): Byte {
    if i < |file| then file[i] else 0
  }

  ghost predicate Wf(st: Store) {
    && st.disk.Keys == st.sizes.Keys
    && forall k :: k in st.cache ==>
         k.node in st.disk && k.offset % PAGE_SIZE == 0 && |st.cache[k].data| == PAGE_SIZE
  }

  /** The byte a reader of `node` finds at `i`. */
  ghost function ByteAt(st: Store, node: nat, i: nat): Byte
    requires Wf(st) && node in st.disk
  {
    var k := PageKey(node, PageStart(i));
    if k in st.cache then st.cache[k].data[i % PAGE_SIZE] else DiskByte(st.disk[node], i)
  }

  /** The file as users see it. */
  ghost function File(st: Store, node: nat): (r: seq<Byte>)
    requires Wf(st) && node in st.disk
    ensures |r| == st.sizes[node]
  {
    seq(st.sizes[node], i requires 0 <= i => ByteAt(st, node, i))
  }

  ghost predicate Backed(st: Store, node: nat, i: nat)
    requires Wf(st) && node in st.disk
  {
    PageKey(node, PageStart(i)) in st.cache || i < |st.disk[node]|
  }

  /** Inside the file, the page holds what the backing file holds. */
  ghost predicate Agrees(data: seq<Byte>, offset: nat, file: seq<Byte>, size: nat)
    requires |data| == PAGE_SIZE
  {
    forall i :: offset <= i < offset + PAGE_SIZE && i < size ==> AgreesAt(data, offset, file, i)
  }

  ghost predicate AgreesAt(data: seq<Byte>, offset: nat, file: seq<Byte>, i: nat) {
    offset <= i < offset + |data| && i < |file| && data[i - offset] == file[i]
  }

  ghost predicate PageOk(st: Store, k: PageKey)
    requires Wf(st) && k in st.cache
  {
    && k.offset < st.sizes[k.node]
    && (!st.cache[k].dirty ==> Agrees(st.cache[k].data, k.offset, st.disk[k.node], st.sizes[k.node]))
  }

  /** `touched` are the pages already changed by a write in progress: they may reach past the size,
      which is only updated at its end. */
  ghost predicate StoreOk(st: Store, touched: set<PageKey>) {
    && Wf(st)
    && (forall n :: n in st.disk ==> |st.disk[n]| <= st.sizes[n])
    && (forall n, i :: n in st.disk && 0 <= i < st.sizes[n] ==> Backed(st, n, i))
    && (forall k :: k in st.cache && k !in touched ==> PageOk(st, k))
    && (forall k :: k in touched ==> k in st.cache && st.cache[k].dirty)
  }

  // ---- the backing file ----

  /** What writing `bytes` at `offset` leaves; a gap reads as zeros. */
  function Overlaid(file: seq<Byte>, offset: nat, bytes: seq<Byte>): (r: seq<Byte>)
    ensures |r| == if |file| < offset + |bytes| then offset + |bytes| else |file|
    ensures forall i :: offset <= i < offset + |bytes| ==> r[i] == bytes[i - offset]
    ensures forall i :: 0 <= i < |r| && !(offset <= i < offset + |bytes|) ==> r[i] == DiskByte(file, i)
  {
    seq(if |file| < offset + |bytes| then offset + |bytes| else |file|,
        i requires 0 <= i =>
          if offset <= i < offset + |bytes| then bytes[i - offset] else DiskByte(file, i))
  }

  /** Bytes of a page that lie inside the file. */
  function WriteSize(offset: nat, size: nat): nat
    requires offset <= size
  {
    if offset + PAGE_SIZE > size then size - offset else PAGE_SIZE
  }

  /** Dropping a page, after writing it back if it is dirty. */
  ghost function Evicted(st: Store, k: PageKey): Store
    requires Wf(st) && k in st.cache && k.offset <= st.sizes[k.node]
  {
    var p := st.cache[k];
    var disk := if p.dirty
      then st.disk[k.node := Overlaid(st.disk[k.node], k.offset, p.data[..WriteSize(k.offset, st.sizes[k.node])])]
      else st.disk;
    Store(st.cache - {k}, disk, st.sizes)
  }

  lemma SamePage(i: nat, offset: nat)
    requires offset % PAGE_SIZE == 0
    ensures PageStart(i) == offset <==> offset <= i < offset + PAGE_SIZE
    ensures PageStart(i) == offset ==> i % PAGE_SIZE == i - offset
  {
  }

  /** Eviction is invisible inside the file and outside the evicted page. */
  lemma EvictedByte(st: Store, touched: set<PageKey>, k: PageKey, n: nat, i: nat)
    requires StoreOk(st, touched) && k in st.cache && k !in touched && n in st.disk
    requires i < st.sizes[n] || PageKey(n, PageStart(i)) != k
    ensures k.offset < st.sizes[k.node] && Wf(Evicted(st, k))
    ensures ByteAt(Evicted(st, k), n, i) == ByteAt(st, n, i)
  {
    assert PageOk(st, k);
    SamePage(i, k.offset);
    if PageKey(n, PageStart(i)) == k && !st.cache[k].dirty {
      assert AgreesAt(st.cache[k].data, k.offset, st.disk[n], i);
    }
  }

  lemma AgreesAfter(data: seq<Byte>, offset: nat, file: seq<Byte>, size: nat, at: nat, bytes: seq<Byte>)
    requires |data| == PAGE_SIZE && |bytes| <= PAGE_SIZE
    requires offset + PAGE_SIZE <= at || at + PAGE_SIZE <= offset
    ensures Agrees(data, offset, file, size) ==> Agrees(data, offset, Overlaid(file, at, bytes), size)
  {
    if Agrees(data, offset, file, size) {
      forall i | offset <= i < offset + PAGE_SIZE && i < size
        ensures AgreesAt(data, offset, Overlaid(file, at, bytes), i)
      {
        assert AgreesAt(data, offset, file, i);
      }
    }
  }

  lemma EvictedOk(st: Store, touched: set<PageKey>, k: PageKey)
    requires StoreOk(st, touched) && k in st.cache && k !in touched
    ensures k.offset < st.sizes[k.node] && StoreOk(Evicted(st, k), touched)
  {
    assert PageOk(st, k);
    var st' := Evicted(st, k);
    forall n, i | n in st'.disk && 0 <= i < st'.sizes[n]
      ensures Backed(st', n, i)
    {
      assert Backed(st, n, i);
      SamePage(i, k.offset);
      if n == k.node && k.offset <= i < k.offset + PAGE_SIZE && !st.cache[k].dirty {
        assert AgreesAt(st.cache[k].data, k.offset, st.disk[n], i);
      }
    }
    forall l | l in st'.cache && l !in touched
      ensures PageOk(st', l)
    {
      assert PageOk(st, l);
      if l.node == k.node {
        Apart(l.offset, k.offset);
        AgreesAfter(st.cache[l].data, l.offset, st.disk[l.node], st.sizes[l.node], k.offset, st.cache[k].data[..WriteSize(k.offset, st.sizes[k.node])]);
      }
    }
  }

  /** Distinct page starts are at least a page apart. */
  lemma Apart(a: nat, b: nat)
    requires a % PAGE_SIZE == 0 && b % PAGE_SIZE == 0
    ensures a == b || a + PAGE_SIZE <= b || b + PAGE_SIZE <= a
  {
  }

  /** Caching what the backing file holds is invisible. */
  lemma LoadedOk(st: Store, touched: set<PageKey>, k: PageKey, data: seq<Byte>)
    requires StoreOk(st, touched) && k !in st.cache && k.node in st.disk && k.offset % PAGE_SIZE == 0
    requires k.offset < st.sizes[k.node] && |data| == PAGE_SIZE
    requires forall i :: k.offset <= i < k.offset + PAGE_SIZE && i < st.sizes[k.node] ==>
      data[i - k.offset] == DiskByte(st.disk[k.node], i)
    ensures StoreOk(st.(cache := st.cache[k := Page(data, false)]), touched)
    ensures forall n, i :: n in st.disk && 0 <= i < st.sizes[n] ==>
      ByteAt(st.(cache := st.cache[k := Page(data, false)]), n, i) == ByteAt(st, n, i)
  {
    var st' := st.(cache := st.cache[k := Page(data, false)]);
    forall i | k.offset <= i < k.offset + PAGE_SIZE && i < st.sizes[k.node]
      ensures AgreesAt(data, k.offset, st.disk[k.node], i)
    {
      SamePage(i, k.offset);
      assert Backed(st, k.node, i);
      assert data[i - k.offset] == DiskByte(st.disk[k.node], i);
    }
    assert PageOk(st', k);
    forall n, i | n in st'.disk && 0 <= i < st'.sizes[n]
      ensures Backed(st', n, i)
    {
      assert Backed(st, n, i);
    }
    forall l | l in st'.cache && l !in touched
      ensures PageOk(st', l)
    {
      assert l != k ==> PageOk(st, l);
    }
    forall n, i | n in st.disk && 0 <= i < st.sizes[n]
      ensures ByteAt(st', n, i) == ByteAt(st, n, i)
    {
      SamePage(i, k.offset);
    }
  }

  /** The two stores differ in the bytes of page `k` only, which the second takes from `data`. */
  ghost predicate Replaces(st: Store, st': Store, k: PageKey, data: seq<Byte>) {
    && Wf(st) && Wf(st') && st'.disk.Keys == st.disk.Keys && |data| == PAGE_SIZE
    && forall n, i: nat {:trigger ByteAt(st', n, i)} :: n in st.disk ==>
         ByteAt(st', n, i) ==
         if n == k.node && k.offset <= i < k.offset + PAGE_SIZE then data[i - k.offset] else ByteAt(st, n, i)
  }

  /** Putting a dirty page, possibly past the size, changes exactly the bytes of that page. */
  lemma PutOk(st: Store, touched: set<PageKey>, k: PageKey, data: seq<Byte>)
    requires StoreOk(st, touched) && k.node in st.disk && k.offset % PAGE_SIZE == 0 && |data| == PAGE_SIZE
    ensures StoreOk(st.(cache := st.cache[k := Page(data, true)]), touched + {k})
    ensures Replaces(st, st.(cache := st.cache[k := Page(data, true)]), k, data)
  {
    var st' := st.(cache := st.cache[k := Page(data, true)]);
    forall n, i | n in st'.disk && 0 <= i < st'.sizes[n]
      ensures Backed(st', n, i)
    {
      assert Backed(st, n, i);
    }
    forall l | l in st'.cache && l !in touched + {k}
      ensures PageOk(st', l)
    {
      assert PageOk(st, l);
    }
    forall n, i: nat | n in st.disk
      ensures ByteAt(st', n, i) ==
        if n == k.node && k.offset <= i < k.offset + PAGE_SIZE then data[i - k.offset] else ByteAt(st, n, i)
    {
      SamePage(i, k.offset);
    }
  }

  /** Evicting an untouched page: sound, invisible where it matters, and confined to one file. */
  lemma EvictedAll(st: Store, touched: set<PageKey>, k: PageKey)
    requires StoreOk(st, touched) && k in st.cache && k !in touched
    ensures Wf(st) && k.node in st.disk && k.node in st.sizes && |st.cache[k].data| == PAGE_SIZE && k.offset < st.sizes[k.node]
    ensures StoreOk(Evicted(st, k), touched)
    ensures SameBytesBut(st, Evicted(st, k), k)
    ensures Evicted(st, k).disk.Keys == st.disk.Keys
    ensures forall n :: n in st.disk && n != k.node ==> Evicted(st, k).disk[n] == st.disk[n]
  {
    EvictedOk(st, touched, k);
    hide ByteAt, Evicted;
    forall n, p: nat | n in st.disk && (p < st.sizes[n] || PageKey(n, PageStart(p)) != k)
      ensures Wf(Evicted(st, k)) && ByteAt(Evicted(st, k), n, p) == ByteAt(st, n, p)
    {
      EvictedByte(st, touched, k, n, p);
    }
    EvictedDisk(st, k);
  }

  lemma EvictedDisk(st: Store, k: PageKey)
    requires Wf(st) && k in st.cache && k.offset <= st.sizes[k.node]
    ensures Evicted(st, k).disk.Keys == st.disk.Keys && Evicted(st, k).sizes == st.sizes
    ensures forall n :: n in st.disk && n != k.node ==> Evicted(st, k).disk[n] == st.disk[n]
  {
  }

  /** Same bytes inside every file, and everywhere outside page `k`. */
  ghost predicate SameBytesBut(st: Store, st': Store, k: PageKey) {
    && Wf(st) && Wf(st') && st'.disk.Keys == st.disk.Keys && st'.sizes == st.sizes
    && forall n, p: nat :: n in st.disk && (p < st.sizes[n] || PageKey(n, PageStart(p)) != k) ==>
         ByteAt(st', n, p) == ByteAt(st, n, p)
  }

  /** Same bytes inside every file and in the pages of `touched`. */
  ghost predicate SameBytesIn(st: Store, st': Store, touched: set<PageKey>) {
    && Wf(st) && Wf(st') && st'.disk.Keys == st.disk.Keys && st'.sizes == st.sizes
    && forall n, p: nat :: n in st.disk && (p < st.sizes[n] || PageKey(n, PageStart(p)) in touched) ==>
         ByteAt(st', n, p) == ByteAt(st, n, p)
  }

  lemma SameBytesSelf(st: Store, touched: set<PageKey>)
    requires Wf(st)
    ensures SameBytesIn(st, st, touched)
  {
  }

  lemma SameBytesEvicted(st: Store, st': Store, touched: set<PageKey>, k: PageKey)
    requires SameBytesBut(st, st', k) && k !in touched
    ensures SameBytesIn(st, st', touched)
  {
    hide ByteAt;
  }

  lemma SameBytesTwice(st: Store, mid: Store, st': Store, touched: set<PageKey>)
    requires SameBytesIn(st, mid, touched) && SameBytesIn(mid, st', touched)
    ensures SameBytesIn(st, st', touched)
  {
    hide ByteAt;
  }

  lemma SameFiles(st: Store, st': Store, touched: set<PageKey>, n: nat)
    requires SameBytesIn(st, st', touched) && n in st.disk
    ensures File(st', n) == File(st, n)
  {
    hide ByteAt;
    forall p | 0 <= p < st.sizes[n]
      ensures File(st', n)[p] == File(st, n)[p]
    {
      assert ByteAt(st', n, p) == ByteAt(st, n, p);
    }
  }

  /** What the backing file delivers for a page, laid over a zeroed or arbitrary frame. */
  function Loaded(frame: seq<Byte>, file: seq<Byte>, offset: nat, count: nat): (r: seq<Byte>)
    requires count <= |frame|
    ensures |r| == |frame|
    ensures forall j :: 0 <= j < |frame| ==> r[j] == if j < count then DiskByte(file, offset + j) else frame[j]
  {
    seq(|frame|, j requires 0 <= j < |frame| => LoadedByte(frame, file, offset, count, j))
  }

  function LoadedByte(frame: seq<Byte>, file: seq<Byte>, offset: nat, count: nat, j: nat): Byte
    requires j < |frame|
  {
    if j < count then DiskByte(file, offset + j) else frame[j]
  }

  /** Once no page of a file is cached, the backing file is the file. */
  lemma FlushedFile(st: Store, n: nat)
    requires StoreOk(st, {}) && n in st.disk
    requires forall k :: k in st.cache ==> k.node != n
    ensures st.disk[n] == File(st, n)
  {
    assert st.sizes[n] > 0 ==> Backed(st, n, st.sizes[n] - 1);
    forall p | 0 <= p < st.sizes[n]
      ensures st.disk[n][p] == File(st, n)[p]
    {
      assert ByteAt(st, n, p) == DiskByte(st.disk[n], p);
    }
  }

  lemma StoreWf(st: Store, touched: set<PageKey>)
    requires StoreOk(st, touched)
    ensures Wf(st) && st.disk.Keys == st.sizes.Keys
  {
  }

  // ---- a write in progress ----

  /** The `count` pages of a file from page number `first` on. */
  ghost function Span(node: nat, first: nat, count: nat): (r: set<PageKey>)
    ensures forall k :: k in r <==>
      k.node == node && k.offset % PAGE_SIZE == 0 && first <= k.offset / PAGE_SIZE < first + count
  {
    if count == 0 then {} else Span(node, first, count - 1) + {PageKey(node, (first + count - 1) * PAGE_SIZE)}
  }

  /** After `w` bytes: the range shows the new data; of what precedes it in the file, the bytes from
      `zeroFrom` on have become zeros; all else is as before. */
  ghost predicate Written(st0: Store, now: Store, node: nat, offset: nat, data: seq<Byte>, w: nat, zeroFrom: nat) {
    && Wf(st0) && Wf(now) && now.sizes == st0.sizes && now.disk.Keys == st0.disk.Keys && node in st0.disk && w <= |data|
    && (forall i: nat {:trigger ByteAt(now, node, i)} :: i < st0.sizes[node] || offset <= i < offset + w ==>
          ByteAt(now, node, i) ==
          if offset <= i < offset + w then data[i - offset]
          else if zeroFrom <= i < offset then 0
          else ByteAt(st0, node, i))
    && (forall n, i: nat {:trigger ByteAt(now, n, i)} :: n in st0.disk && n != node && i < st0.sizes[n] ==>
          ByteAt(now, n, i) == ByteAt(st0, n, i))
  }

  /** What the page at hand holds before the copy, for the bytes that are already in the file. */
  ghost predicate Holds(mid: Store, k: PageKey, content: seq<Byte>, zeroed: bool)
    requires Wf(mid) && k.node in mid.disk && |content| == PAGE_SIZE
  {
    forall i: nat {:trigger ByteAt(mid, k.node, i)} :: k.offset <= i < k.offset + PAGE_SIZE && i < mid.sizes[k.node] ==>
      content[i - k.offset] == if zeroed then 0 else ByteAt(mid, k.node, i)
  }

  /** What one round of the loop of vfs_write starts from: `w` bytes are done, the next `n` go into
      page `k`, which holds `content`. */
  ghost predicate RoundOk(st0: Store, now: Store, mid: Store, touched: set<PageKey>, k: PageKey, content: seq<Byte>, zeroed: bool,
                          offset: nat, data: seq<Byte>, w: nat, n: nat, zeroFrom: nat, zeroFrom': nat) {
    && SameBytesIn(now, mid, touched)
    && Written(st0, now, k.node, offset, data, w, zeroFrom)
    && (forall i: nat :: offset <= i < offset + w ==> i < st0.sizes[k.node] || PageKey(k.node, PageStart(i)) in touched)
    && k.offset == PageStart(offset + w) && 0 < n && w + n <= |data| && offset + w + n <= k.offset + PAGE_SIZE
    && |content| == PAGE_SIZE && k.node in mid.disk && Holds(mid, k, content, zeroed)
    // bytes of the page below the cursor: all written by this call, or in the file before it
    && (k.offset < offset + w ==> w == 0)
    && (!zeroed ==> zeroFrom' == zeroFrom)
    && (zeroed ==> n == PAGE_SIZE || st0.sizes[k.node] <= offset + w)
    && (zeroed ==> zeroFrom' == if w == 0 && k.offset < offset then k.offset else zeroFrom)
    && (w == 0 ==> zeroFrom == offset)
    && offset <= st0.sizes[k.node]
    && zeroFrom <= offset
  }

  lemma WriteStepByte(st0: Store, now: Store, mid: Store, touched: set<PageKey>, k: PageKey, content: seq<Byte>, zeroed: bool,
                      offset: nat, data: seq<Byte>, w: nat, n: nat, zeroFrom: nat, zeroFrom': nat, i: nat)
    requires RoundOk(st0, now, mid, touched, k, content, zeroed, offset, data, w, n, zeroFrom, zeroFrom')
    requires i < st0.sizes[k.node] || offset <= i < offset + w + n
    ensures
      (if k.offset <= i < k.offset + PAGE_SIZE
       then Patched(content, offset + w - k.offset, data[w..w + n])[i - k.offset]
       else ByteAt(mid, k.node, i)) ==
      if offset <= i < offset + w + n then data[i - offset] else if zeroFrom' <= i < offset then 0 else ByteAt(st0, k.node, i)
  {
    hide ByteAt;
    SamePage(i, k.offset);
    if i < st0.sizes[k.node] || offset <= i < offset + w {
      assert ByteAt(mid, k.node, i) == ByteAt(now, k.node, i);
    }
  }

  /** One round of the loop of vfs_write. */
  lemma WriteStep(st0: Store, now: Store, mid: Store, touched: set<PageKey>, k: PageKey, content: seq<Byte>, zeroed: bool,
                  offset: nat, data: seq<Byte>, w: nat, n: nat, zeroFrom: nat, zeroFrom': nat)
    requires StoreOk(mid, touched) && RoundOk(st0, now, mid, touched, k, content, zeroed, offset, data, w, n, zeroFrom, zeroFrom')
    ensures
      var page := Patched(content, offset + w - k.offset, data[w..w + n]);
      var st' := mid.(cache := mid.cache[k := Page(page, true)]);
      StoreOk(st', touched + {k}) && Written(st0, st', k.node, offset, data, w + n, zeroFrom')
  {
    hide ByteAt, Holds, Backed, PageOk;
    var page := Patched(content, offset + w - k.offset, data[w..w + n]);
    var st' := mid.(cache := mid.cache[k := Page(page, true)]);
    PutOk(mid, touched, k, page);
    forall m, i: nat | m in st0.disk && m != k.node && i < st0.sizes[m]
      ensures ByteAt(st', m, i) == ByteAt(st0, m, i)
    {
      assert ByteAt(now, m, i) == ByteAt(st0, m, i);
    }
    forall i: nat | i < st0.sizes[k.node] || offset <= i < offset + w + n
      ensures ByteAt(st', k.node, i) ==
        if offset <= i < offset + w + n then data[i - offset] else if zeroFrom' <= i < offset then 0 else ByteAt(st0, k.node, i)
    {
      assert ByteAt(st', k.node, i) == if k.offset <= i < k.offset + PAGE_SIZE then page[i - k.offset] else ByteAt(mid, k.node, i);
      WriteStepByte(st0, now, mid, touched, k, content, zeroed, offset, data, w, n, zeroFrom, zeroFrom', i);
    }
  }

  /** Updating the size at the end of a write: touched pages now lie inside the file. */
  lemma GrownOk(now: Store, touched: set<PageKey>, node: nat, offset: nat, w: nat)
    requires StoreOk(now, touched) && node in now.disk && offset <= now.sizes[node]
    requires forall k :: k in touched ==> k.node == node && k.offset < offset + w
    requires forall i: nat :: offset <= i < offset + w ==> PageKey(node, PageStart(i)) in touched
    ensures StoreOk(now.(sizes := now.sizes[node := Max(now.sizes[node], offset + w)]), {})
  {
    var st' := now.(sizes := now.sizes[node := Max(now.sizes[node], offset + w)]);
    forall n, i | n in st'.disk && 0 <= i < st'.sizes[n]
      ensures Backed(st', n, i)
    {
      assert i < now.sizes[n] ==> Backed(now, n, i);
    }
    forall k | k in st'.cache
      ensures PageOk(st', k)
    {
      if k !in touched {
        assert PageOk(now, k);
        if !now.cache[k].dirty && k.node == node {
          forall i | k.offset <= i < k.offset + PAGE_SIZE && i < st'.sizes[node]
            ensures AgreesAt(now.cache[k].data, k.offset, now.disk[node], i)
          {
            SamePage(i, k.offset);
            assert i < now.sizes[node];
          }
        }
      }
    }
  }

  /** The file a caller of vfs_write sees afterwards. */
  lemma WrittenFile(st0: Store, now: Store, node: nat, offset: nat, data: seq<Byte>, w: nat, zeroFrom: nat)
    requires Written(st0, now, node, offset, data, w, zeroFrom) && offset <= st0.sizes[node]
    ensures
      var st' := now.(sizes := now.sizes[node := Max(now.sizes[node], offset + w)]);
      && Wf(st')
      && File(st', node) == Overlaid(ZeroedTail(File(st0, node), zeroFrom, offset), offset, data[..w])
      && forall n :: n in st0.disk && n != node ==> File(st', n) == File(st0, n)
  {
    var st' := now.(sizes := now.sizes[node := Max(now.sizes[node], offset + w)]);
    forall n, i: nat | n in st0.disk
      ensures ByteAt(st', n, i) == ByteAt(now, n, i)
    {
    }
    hide ByteAt;
    var want := Overlaid(ZeroedTail(File(st0, node), zeroFrom, offset), offset, data[..w]);
    forall i | 0 <= i < st'.sizes[node]
      ensures File(st', node)[i] == want[i]
    {
      assert File(st', node)[i] == ByteAt(now, node, i);
    }
    forall n | n in st0.disk && n != node
      ensures File(st', n) == File(st0, n)
    {
      forall i | 0 <= i < st0.sizes[n]
        ensures File(st', n)[i] == File(st0, n)[i]
      {
        assert ByteAt(now, n, i) == ByteAt(st0, n, i);
      }
    }
  }

  /** The file with the bytes [from, to) replaced by zeros. */
  function ZeroedTail(file: seq<Byte>, from: nat, to: nat): (r: seq<Byte>)
    ensures |r| == |file|
    ensures forall i :: 0 <= i < |file| ==> r[i] == if from <= i < to then 0 else file[i]
  {
    seq(|file|, i requires 0 <= i < |file| => ZeroedByte(file, from, to, i))
  }

  function ZeroedByte(file: seq<Byte>, from: nat, to: nat, i: nat): Byte
    requires i < |file|
  {
    if from <= i < to then 0 else file[i]
  }

  /** vfs_write overwrites its range and nothing else, except in one case: an append that starts in
      the middle of a page that is not cached. Then it is right exactly when the bytes of that page
      already in the file are all zero. */
  lemma AppendIff(file: seq<Byte>, bytes: seq<Byte>)
    ensures
      var offset := |file|;
      Overlaid(ZeroedTail(file, PageStart(offset), offset), offset, bytes) == Overlaid(file, offset, bytes) <==>
      forall i :: PageStart(offset) <= i < offset ==> file[i] == 0
  {
    var offset := |file|;
    var lost, kept := Overlaid(ZeroedTail(file, PageStart(offset), offset), offset, bytes), Overlaid(file, offset, bytes);
    if lost == kept {
      forall i | PageStart(offset) <= i < offset
        ensures file[i] == 0
      {
        assert lost[i] == kept[i];
      }
    } else {
      var i :| 0 <= i < |lost| && lost[i] != kept[i];
      assert PageStart(offset) <= i < offset && file[i] != 0;
    }
  }

  lemma AppendLosesBytes()
    ensures Overlaid(ZeroedTail([7], PageStart(1), 1), 1, [8]) == [0, 8]
    ensures Overlaid([7], 1, [8]) == [7, 8]
  {
  }

  /** Data read from the backing file before an eviction is still what the file holds after it. */
  lemma LoadedAfter(st: Store, mid: Store, touched: set<PageKey>, k: PageKey, frame: seq<Byte>)
    requires StoreOk(st, touched) && StoreOk(mid, touched) && SameBytesIn(st, mid, touched) && k !in st.cache && k !in mid.cache
    requires k.node in st.disk && k.offset % PAGE_SIZE == 0 && k.offset <= st.sizes[k.node] && |frame| == PAGE_SIZE
    ensures
      var data := Loaded(frame, st.disk[k.node], k.offset, WriteSize(k.offset, st.sizes[k.node]));
      && |data| == PAGE_SIZE && Wf(mid) && k.node in mid.disk
      && (forall i :: k.offset <= i < k.offset + PAGE_SIZE && i < mid.sizes[k.node] ==>
            data[i - k.offset] == DiskByte(mid.disk[k.node], i))
      && Holds(mid, k, data, false)
  {
    var data := Loaded(frame, st.disk[k.node], k.offset, WriteSize(k.offset, st.sizes[k.node]));
    forall i | k.offset <= i < k.offset + PAGE_SIZE && i < mid.sizes[k.node]
      ensures data[i - k.offset] == DiskByte(mid.disk[k.node], i)
    {
      SamePage(i, k.offset);
      assert ByteAt(mid, k.node, i) == ByteAt(st, k.node, i);
    }
    forall i: nat | k.offset <= i < k.offset + PAGE_SIZE && i < mid.sizes[k.node]
      ensures data[i - k.offset] == ByteAt(mid, k.node, i)
    {
      SamePage(i, k.offset);
      assert data[i - k.offset] == DiskByte(mid.disk[k.node], i);
    }
  }

  lemma HoldsCached(st: Store, k: PageKey)
    requires Wf(st) && k in st.cache
    ensures Holds(st, k, st.cache[k].data, false)
  {
    forall i: nat | k.offset <= i < k.offset + PAGE_SIZE
      ensures st.cache[k].data[i - k.offset] == ByteAt(st, k.node, i)
    {
      SamePage(i, k.offset);
    }
  }

  lemma HoldsZeros(st: Store, k: PageKey, zeros: seq<Byte>)
    requires Wf(st) && k.node in st.disk && |zeros| == PAGE_SIZE && forall j :: 0 <= j < PAGE_SIZE ==> zeros[j] == 0
    ensures Holds(st, k, zeros, true)
  {
    hide ByteAt;
  }

  /** Caching a page as read is invisible; reading it back delivers the file. */
  lemma LoadedVisible(mid: Store, k: PageKey, data: seq<Byte>)
    requires StoreOk(mid, {}) && k !in mid.cache && k.node in mid.disk && k.offset % PAGE_SIZE == 0
    requires k.offset < mid.sizes[k.node] && |data| == PAGE_SIZE
    requires forall i :: k.offset <= i < k.offset + PAGE_SIZE && i < mid.sizes[k.node] ==>
      data[i - k.offset] == DiskByte(mid.disk[k.node], i)
    ensures StoreOk(mid.(cache := mid.cache[k := Page(data, false)]), {})
    ensures SameBytesIn(mid, mid.(cache := mid.cache[k := Page(data, false)]), {})
  {
    LoadedOk(mid, {}, k, data);
  }

  /** The bytes [from, from + n) a reader finds. */
  ghost function Bytes(st: Store, node: nat, from: nat, n: nat): (r: seq<Byte>)
    requires Wf(st) && node in st.disk
    ensures |r| == n
  {
    if n == 0 then [] else Bytes(st, node, from, n - 1) + [ByteAt(st, node, from + n - 1)]
  }

  lemma {:induction false} BytesAt(st: Store, node: nat, from: nat, n: nat)
    requires Wf(st) && node in st.disk
    ensures forall j :: 0 <= j < n ==> Bytes(st, node, from, n)[j] == ByteAt(st, node, from + j)
  {
    hide ByteAt;
    if n > 0 {
      BytesAt(st, node, from, n - 1);
    }
  }

  lemma {:induction false} BytesConcat(st: Store, node: nat, from: nat, m: nat, n: nat)
    requires Wf(st) && node in st.disk
    ensures Bytes(st, node, from, m) + Bytes(st, node, from + m, n) == Bytes(st, node, from, m + n)
  {
    hide ByteAt;
    if n == 0 {
      assert Bytes(st, node, from + m, 0) == [];
    } else {
      BytesConcat(st, node, from, m, n - 1);
    }
  }

  lemma BytesOfFile(st: Store, node: nat, from: nat, n: nat)
    requires Wf(st) && node in st.disk && from + n <= st.sizes[node]
    ensures Bytes(st, node, from, n) == File(st, node)[from..from + n]
  {
    hide ByteAt;
    BytesAt(st, node, from, n);
  }

  /** A slice of a cached page is the slice of the file. */
  lemma CachedSlice(st: Store, k: PageKey, from: nat, n: nat)
    requires Wf(st) && k in st.cache && k.offset <= from && from + n <= k.offset + PAGE_SIZE
    ensures st.cache[k].data[from - k.offset..from - k.offset + n] == Bytes(st, k.node, from, n)
  {
    var slice := st.cache[k].data[from - k.offset..from - k.offset + n];
    BytesAt(st, k.node, from, n);
    forall j | 0 <= j < n
      ensures slice[j] == Bytes(st, k.node, from, n)[j]
    {
      SamePage(from + j, k.offset);
    }
  }

  lemma SameBytesSizes(st: Store, st': Store, touched: set<PageKey>)
    requires SameBytesIn(st, st', touched)
    ensures st'.sizes == st.sizes && st'.disk.Keys == st.disk.Keys && Wf(st) && Wf(st') && st.disk.Keys == st.sizes.Keys
  {
  }

  lemma SameBytesRange(st: Store, st': Store, node: nat, from: nat, n: nat)
    requires SameBytesIn(st, st', {}) && node in st.disk && node in st.sizes && from + n <= st.sizes[node]
    ensures node in st'.disk && Wf(st) && Wf(st') && Bytes(st', node, from, n) == Bytes(st, node, from, n)
  {
    hide ByteAt;
    BytesAt(st, node, from, n);
    BytesAt(st', node, from, n);
    forall j | 0 <= j < n
      ensures Bytes(st', node, from, n)[j] == Bytes(st, node, from, n)[j]
    {
      assert ByteAt(st', node, from + j) == ByteAt(st, node, from + j);
    }
  }

  lemma PageLength(st: Store, touched: set<PageKey>, k: PageKey)
    requires StoreOk(st, touched) && k in st.cache
    ensures |st.cache[k].data| == PAGE_SIZE
  {
  }

  /** Every page of the range is in the cache. */
  ghost predicate AllCached(st: Store, node: nat, from: nat, n: nat) {
    forall i: nat :: from <= i < from + n ==> PageKey(node, PageStart(i)) in st.cache
  }

  lemma CachedHere(st: Store, node: nat, from: nat, n: nat, i: nat)
    requires AllCached(st, node, from, n) && from <= i < from + n
    ensures PageKey(node, PageStart(i)) in st.cache
  {
  }

  lemma PageBelow(i: nat)
    ensures PageStart(i) <= i && PageStart(i) % PAGE_SIZE == 0
  {
  }

  /** One page more of a read. */
  lemma ReadPiece(st: Store, now: Store, node: nat, offset: nat, have: nat, n: nat)
    requires SameBytesIn(st, now, {}) && StoreOk(now, {}) && Wf(st) && node in st.disk && node in st.sizes
    requires var current := offset + have; current + n <= st.sizes[node] && current % PAGE_SIZE + n <= PAGE_SIZE
    requires PageKey(node, PageStart(offset + have)) in now.cache
    ensures
      var data, at := now.cache[PageKey(node, PageStart(offset + have))].data, (offset + have) % PAGE_SIZE;
      && |data| == PAGE_SIZE
      && Bytes(st, node, offset, have) + data[at..at + n] == Bytes(st, node, offset, have + n)
  {
    hide StoreOk, SameBytesIn, Wf, Bytes;
    var current := offset + have;
    var k := PageKey(node, PageStart(current));
    PageLength(now, {}, k);
    SameBytesRange(st, now, node, current, n);
    assert current - k.offset == current % PAGE_SIZE;
    CachedSlice(now, k, current, n);
    BytesConcat(st, node, offset, have, n);
  }

  // ---- how far a write has come ----

  /** `t` pages hold the `written` bytes; before the end, the next byte starts a page. */
  ghost predicate Progress(offset: nat, length: nat, written: nat, t: nat) {
    && written <= length
    && (written == 0 ==> t == 0)
    && (written > 0 ==> (offset + written - 1) / PAGE_SIZE == offset / PAGE_SIZE + t - 1)
    && (0 < written < length ==> (offset + written) % PAGE_SIZE == 0)
  }

  /** Where the bytes lost by an append begin; `offset` itself if none are. */
  function LostFrom(st: Store, node: nat, offset: nat): nat
    requires node in st.sizes
  {
    if offset == st.sizes[node] && PageKey(node, PageStart(offset)) !in st.cache then PageStart(offset) else offset
  }

  lemma NextPage(node: nat, offset: nat, length: nat, written: nat, t: nat)
    requires Progress(offset, length, written, t) && written < length
    ensures (offset + written) / PAGE_SIZE == offset / PAGE_SIZE + t
    ensures PageKey(node, PageStart(offset + written)) !in Span(node, offset / PAGE_SIZE, t)
    ensures written > 0 ==> (offset + written) % PAGE_SIZE == 0
  {
  }

  lemma ProgressStep(offset: nat, length: nat, written: nat, t: nat, n: nat)
    requires Progress(offset, length, written, t) && 0 < n && written + n <= length
    requires n <= PAGE_SIZE - (offset + written) % PAGE_SIZE
    requires written + n == length || n == PAGE_SIZE - (offset + written) % PAGE_SIZE
    ensures Progress(offset, length, written + n, t + 1)
  {
    NextPage(0, offset, length, written, t);
  }

  lemma SpanNext(node: nat, offset: nat, written: nat, t: nat)
    requires (offset + written) / PAGE_SIZE == offset / PAGE_SIZE + t
    ensures Span(node, offset / PAGE_SIZE, t) + {PageKey(node, PageStart(offset + written))} == Span(node, offset / PAGE_SIZE, t + 1)
  {
  }

  lemma SpanCovers(node: nat, offset: nat, length: nat, written: nat, t: nat)
    requires Progress(offset, length, written, t)
    ensures forall i: nat :: offset <= i < offset + written ==> PageKey(node, PageStart(i)) in Span(node, offset / PAGE_SIZE, t)
    ensures forall k :: k in Span(node, offset / PAGE_SIZE, t) ==> k.node == node && k.offset < offset + written
  {
    forall i: nat | offset <= i < offset + written
      ensures PageKey(node, PageStart(i)) in Span(node, offset / PAGE_SIZE, t)
    {
      assert offset / PAGE_SIZE <= i / PAGE_SIZE <= (offset + written - 1) / PAGE_SIZE;
    }
    forall k | k in Span(node, offset / PAGE_SIZE, t)
      ensures k.node == node && k.offset < offset + written
    {
      assert written > 0;
    }
  }

  lemma WrittenKept(st0: Store, now: Store, mid: Store, touched: set<PageKey>, node: nat, offset: nat, data: seq<Byte>, w: nat, zeroFrom: nat)
    requires Written(st0, now, node, offset, data, w, zeroFrom) && SameBytesIn(now, mid, touched)
    requires forall i: nat :: offset <= i < offset + w ==> PageKey(node, PageStart(i)) in touched
    ensures Written(st0, mid, node, offset, data, w, zeroFrom)
  {
    hide ByteAt;
    forall n, i: nat | n in st0.disk && n != node && i < st0.sizes[n]
      ensures ByteAt(mid, n, i) == ByteAt(st0, n, i)
    {
      assert ByteAt(now, n, i) == ByteAt(st0, n, i);
    }
    forall i: nat | i < st0.sizes[node] || offset <= i < offset + w
      ensures ByteAt(mid, node, i) == ByteAt(now, node, i)
    {
    }
  }

  lemma WrittenBegin(st: Store, node: nat, offset: nat, data: seq<Byte>)
    requires Wf(st) && node in st.disk
    ensures Written(st, st, node, offset, data, 0, offset)
  {
    hide ByteAt;
  }

  lemma WrittenSizes(st0: Store, now: Store, node: nat, offset: nat, data: seq<Byte>, w: nat, zeroFrom: nat)
    requires Written(st0, now, node, offset, data, w, zeroFrom)
    ensures now.sizes == st0.sizes && now.disk.Keys == st0.disk.Keys && node in st0.disk && Wf(st0) && Wf(now)
  {
    hide ByteAt;
  }

  /** A write over at most `limit` pages has touched fewer before each round. */
  lemma PageBudget(offset: nat, length: nat, written: nat, t: nat, limit: nat)
    requires (offset + written) / PAGE_SIZE == offset / PAGE_SIZE + t && written < length
    requires (offset % PAGE_SIZE + length + PAGE_SIZE - 1) / PAGE_SIZE <= limit
    ensures t < limit
  {
  }

  /** Page `k` was fetched for the next `n` bytes of a write. */
  ghost predicate Fetched(st0: Store, now: Store, mid: Store, t: nat, k: PageKey, content: seq<Byte>, zeroed: bool,
                          offset: nat, data: seq<Byte>, w: nat, n: nat, zeroFrom: nat) {
    && k.node in st0.disk && k.node in st0.sizes && offset <= st0.sizes[k.node]
    && Written(st0, now, k.node, offset, data, w, zeroFrom) && Progress(offset, |data|, w, t)
    && zeroFrom <= offset && (w == 0 ==> zeroFrom == offset) && k.offset == PageStart(offset + w)
    && 0 < n && w + n <= |data| && n <= PAGE_SIZE - (offset + w) % PAGE_SIZE
    && (w + n == |data| || n == PAGE_SIZE - (offset + w) % PAGE_SIZE)
    && StoreOk(mid, Span(k.node, offset / PAGE_SIZE, t)) && SameBytesIn(now, mid, Span(k.node, offset / PAGE_SIZE, t))
    && Wf(mid) && k.node in mid.disk && |content| == PAGE_SIZE && Holds(mid, k, content, zeroed)
    && (zeroed ==> n == PAGE_SIZE || st0.sizes[k.node] <= offset + w)
  }

  /** One round of the loop of vfs_write, from the page it fetched on. */
  lemma ChunkWritten(st0: Store, now: Store, mid: Store, t: nat, k: PageKey, content: seq<Byte>, zeroed: bool,
                     offset: nat, data: seq<Byte>, w: nat, n: nat, zeroFrom: nat)
    requires Fetched(st0, now, mid, t, k, content, zeroed, offset, data, w, n, zeroFrom)
    ensures
      var page := Patched(content, (offset + w) % PAGE_SIZE, data[w..w + n]);
      var st' := mid.(cache := mid.cache[k := Page(page, true)]);
      && StoreOk(st', Span(k.node, offset / PAGE_SIZE, t + 1)) && Progress(offset, |data|, w + n, t + 1)
      && Written(st0, st', k.node, offset, data, w + n, if zeroed && w == 0 && k.offset < offset then k.offset else zeroFrom)
  {
    hide StoreOk, SameBytesIn, Wf, Holds, Written, Span, Progress;
    NextPage(k.node, offset, |data|, w, t);
    SpanCovers(k.node, offset, |data|, w, t);
    SpanNext(k.node, offset, w, t);
    ProgressStep(offset, |data|, w, t, n);
    assert offset + w - k.offset == (offset + w) % PAGE_SIZE;
    var zeroFrom' := if zeroed && w == 0 && k.offset < offset then k.offset else zeroFrom;
    WriteStep(st0, now, mid, Span(k.node, offset / PAGE_SIZE, t), k, content, zeroed, offset, data, w, n, zeroFrom, zeroFrom');
  }

  lemma LostIs(st0: Store, node: nat, offset: nat, n: nat, zeroed: bool)
    requires node in st0.sizes && offset <= st0.sizes[node] && 0 < n <= PAGE_SIZE - offset % PAGE_SIZE
    requires zeroed <==> PageKey(node, PageStart(offset)) !in st0.cache && !(n < PAGE_SIZE && offset < st0.sizes[node])
    ensures (if zeroed && PageStart(offset) < offset then PageStart(offset) else offset) == LostFrom(st0, node, offset) <= offset
  {
  }

  lemma PutTwice(mid: Store, fetched: Store, k: PageKey, p: Page, page: seq<Byte>)
    requires fetched == mid.(cache := mid.cache[k := p])
    ensures fetched.(cache := fetched.cache[k := Page(page, true)]) == mid.(cache := mid.cache[k := Page(page, true)])
  {
  }

  /** The end of a write: the size is raised, the store is sound again and shows the written file. */
  lemma WriteEnd(st0: Store, now: Store, node: nat, offset: nat, data: seq<Byte>, written: nat, t: nat, zeroFrom: nat)
    requires node in st0.disk && node in st0.sizes && offset <= st0.sizes[node]
    requires StoreOk(now, Span(node, offset / PAGE_SIZE, t)) && Progress(offset, |data|, written, t)
    requires Written(st0, now, node, offset, data, written, zeroFrom)
    ensures node in now.sizes
    ensures
      var st' := now.(sizes := now.sizes[node := Max(now.sizes[node], offset + written)]);
      && StoreOk(st', {}) && Wf(st0) && Wf(st') && st'.disk.Keys == st0.disk.Keys && now.sizes == st0.sizes
      && File(st', node) == Overlaid(ZeroedTail(File(st0, node), zeroFrom, offset), offset, data[..written])
      && forall n :: n in st0.disk && n != node ==> File(st', n) == File(st0, n)
  {
    hide StoreOk, Written, Span, Progress, File;
    WrittenSizes(st0, now, node, offset, data, written, zeroFrom);
    SpanCovers(node, offset, |data|, written, t);
    GrownOk(now, Span(node, offset / PAGE_SIZE, t), node, offset, written);
    WrittenFile(st0, now, node, offset, data, written, zeroFrom);
  }

  lemma EmptyStore(disk: map<nat, seq<Byte>>, sizes: map<nat, nat>)
    requires sizes == map n | n in disk :: |disk[n]|
    ensures StoreOk(Store(map[], disk, sizes), {})
  {
    var st := Store(map[], disk, sizes);
    forall n, i | n in st.disk && 0 <= i < st.sizes[n]
      ensures Backed(st, n, i)
    {
    }
  }
}
