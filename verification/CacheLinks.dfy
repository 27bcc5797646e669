/** The links of the page cache of kernel/fs/vfs.c: hash chains and a doubly linked recency list over
    the same entries. Entries live in a memory of records named by address; address 0 is the null
    pointer. */
module CacheLinks {
  import opened Base
  import opened FileCacheTheory

  const CACHE_BUCKETS: nat := 256
  const MAX_CACHED_PAGES: nat := 1024
  /** hash_cache. Inodes are named by their address. */
  function Hash(k: PageKey): (b: nat)
    ensures b < CACHE_BUCKETS
  {
    ((k.node / 16 % CACHE_BUCKETS) as bv8 ^ (k.offset / PAGE_SIZE % CACHE_BUCKETS) as bv8) as nat
  }

  datatype Entry = Entry(key: PageKey, data: seq<Byte>, dirty: bool, next: nat, lruNext: nat, lruPrev: nat)

  type Heap = map<nat, Entry>

  ghost predicate Distinct(s: seq<nat>) {
    forall i, j :: 0 <= i < j < |s| ==> s[i] != s[j]
  }

  ghost predicate Allocated(h: Heap, s: seq<nat>) {
    NULL !in h && forall i :: 0 <= i < |s| ==> s[i] in h
  }

  // ---- the recency list ----

  /** Forward and backward links agree with `lru`, most recent first. */
  ghost predicate LruOk(h: Heap, head: nat, tail: nat, lru: seq<nat>) {
    && Distinct(lru) && Allocated(h, lru)
    && head == At(lru, 0)
    && tail == At(lru, |lru| - 1)
    && (forall i {:trigger h[lru[i]].lruNext} :: 0 <= i < |lru| ==> h[lru[i]].lruNext == At(lru, i + 1))
    && (forall i {:trigger h[lru[i]].lruPrev} :: 0 <= i < |lru| ==> h[lru[i]].lruPrev == At(lru, i - 1))
  }

  /** lru_remove, on values. */
  function Unlinked(h: Heap, e: nat): Heap
    requires e in h && (h[e].lruPrev != NULL ==> h[e].lruPrev in h) && (h[e].lruNext != NULL ==> h[e].lruNext in h)
  {
    var h1 := if h[e].lruPrev != NULL then h[h[e].lruPrev := h[h[e].lruPrev].(lruNext := h[e].lruNext)] else h;
    if h1[e].lruNext != NULL then h1[h1[e].lruNext := h1[h1[e].lruNext].(lruPrev := h1[e].lruPrev)] else h1
  }

  lemma RemovedOk(h: Heap, s: seq<nat>, i: nat)
    requires Distinct(s) && Allocated(h, s) && i < |s|
    ensures Distinct(Removed(s, i)) && Allocated(h, Removed(s, i))
    ensures forall x :: x in Removed(s, i) <==> x in s && x != s[i]
  {
    var w := Removed(s, i);
    forall x
      ensures x in w <==> x in s && x != s[i]
    {
      if x in s && x != s[i] {
        var k :| 0 <= k < |s| && s[k] == x;
        assert w[if k < i then k else k - 1] == x;
      }
    }
  }

  lemma UnlinkedAt(h: Heap, e: nat, x: nat)
    requires x in h && e in h && (h[e].lruPrev != NULL ==> h[e].lruPrev in h) && (h[e].lruNext != NULL ==> h[e].lruNext in h)
    requires NULL !in h && h[e].lruPrev != e && h[e].lruNext != e
    ensures x in Unlinked(h, e)
    ensures Unlinked(h, e)[x] ==
      h[x].(lruNext := if x == h[e].lruPrev then h[e].lruNext else h[x].lruNext,
            lruPrev := if x == h[e].lruNext then h[e].lruPrev else h[x].lruPrev)
  {
  }

  lemma LruRemoved(h: Heap, head: nat, tail: nat, lru: seq<nat>, i: nat)
    requires LruOk(h, head, tail, lru) && i < |lru|
    ensures h[lru[i]].lruPrev == At(lru, i - 1) && h[lru[i]].lruNext == At(lru, i + 1)
    ensures
      var e := lru[i];
      LruOk(Unlinked(h, e), if h[e].lruPrev != NULL then head else h[e].lruNext,
            if h[e].lruNext != NULL then tail else h[e].lruPrev, Removed(lru, i))
  {
    var e := lru[i];
    var w := Removed(lru, i);
    RemovedOk(h, lru, i);
    assert h[e].lruPrev == At(lru, i - 1) && h[e].lruNext == At(lru, i + 1);
    hide Unlinked, Removed;
    RemovedAt(lru, i, 0);
    RemovedAt(lru, i, |lru| - 2);
    forall j | 0 <= j < |w|
      ensures w[j] in Unlinked(h, e)
      ensures Unlinked(h, e)[w[j]].lruNext == At(w, j + 1)
      ensures Unlinked(h, e)[w[j]].lruPrev == At(w, j - 1)
    {
      LruRemovedAt(h, head, tail, lru, i, j);
    }
    NullUnlinked(h, e);
  }

  lemma NullUnlinked(h: Heap, e: nat)
    requires NULL !in h && e in h && (h[e].lruPrev != NULL ==> h[e].lruPrev in h) && (h[e].lruNext != NULL ==> h[e].lruNext in h)
    ensures NULL !in Unlinked(h, e) && Unlinked(h, e).Keys == h.Keys
  {
  }

  lemma LruRemovedAt(h: Heap, head: nat, tail: nat, lru: seq<nat>, i: nat, j: nat)
    requires LruOk(h, head, tail, lru) && i < |lru| && j < |lru| - 1
    requires h[lru[i]].lruPrev == At(lru, i - 1) && h[lru[i]].lruNext == At(lru, i + 1)
    ensures
      var e, w := lru[i], Removed(lru, i);
      && |w| == |lru| - 1 && w[j] in Unlinked(h, e)
      && Unlinked(h, e)[w[j]].lruNext == At(w, j + 1)
      && Unlinked(h, e)[w[j]].lruPrev == At(w, j - 1)
  {
    var e, k := lru[i], if j < i then j else j + 1;
    assert h[lru[k]].lruNext == At(lru, k + 1) && h[lru[k]].lruPrev == At(lru, k - 1);
    assert lru[k] == At(lru, i - 1) <==> k == i - 1;
    assert lru[k] == At(lru, i + 1) <==> k == i + 1;
    hide Unlinked, Removed, Distinct;
    RemovedAt(lru, i, j);
    RemovedAt(lru, i, j + 1);
    RemovedAt(lru, i, j - 1);
    UnlinkedAt(h, e, lru[k]);
  }

  /** lru_add_front, on values. */
  function Fronted(h: Heap, head: nat, e: nat): Heap
    requires e in h && (head != NULL ==> head in h)
  {
    var h1 := h[e := h[e].(lruNext := head, lruPrev := NULL)];
    if head != NULL then h1[head := h1[head].(lruPrev := e)] else h1
  }

  lemma FrontedKeys(h: Heap, head: nat, e: nat)
    requires e in h && (head != NULL ==> head in h)
    ensures Fronted(h, head, e).Keys == h.Keys
  {
  }

  lemma LruFrontedAt(h: Heap, head: nat, tail: nat, lru: seq<nat>, e: nat, j: nat)
    requires LruOk(h, head, tail, lru) && e in h && e !in lru && (head != NULL ==> head in h) && j <= |lru|
    ensures var h', w := Fronted(h, head, e), [e] + lru;
      w[j] in h' && h'[w[j]].lruNext == At(w, j + 1) && h'[w[j]].lruPrev == At(w, j - 1)
  {
    if j > 0 {
      assert lru[j - 1] in lru;
      assert h[lru[j - 1]].lruNext == At(lru, j) && h[lru[j - 1]].lruPrev == At(lru, j - 2);
    }
  }

  lemma LruFronted(h: Heap, head: nat, tail: nat, lru: seq<nat>, e: nat)
    requires LruOk(h, head, tail, lru) && e in h && e !in lru
    ensures LruOk(Fronted(h, head, e), e, if tail == NULL then e else tail, [e] + lru)
  {
    hide Fronted;
    FrontedKeys(h, head, e);
    var h', w := Fronted(h, head, e), [e] + lru;
    forall j | 0 <= j < |w|
      ensures w[j] in h' && h'[w[j]].lruNext == At(w, j + 1) && h'[w[j]].lruPrev == At(w, j - 1)
    {
      LruFrontedAt(h, head, tail, lru, e, j);
    }
    assert lru != [] ==> tail == lru[|lru| - 1] && lru[|lru| - 1] in lru;
  }

  // ---- hash chains ----

  ghost predicate ChainOk(h: Heap, first: nat, chain: seq<nat>) {
    && Distinct(chain) && Allocated(h, chain)
    && first == At(chain, 0)
    && (forall i {:trigger h[chain[i]].next} :: 0 <= i < |chain| ==> h[chain[i]].next == At(chain, i + 1))
  }

  /** Bypassing element `j` by its predecessor's link. */
  function Bypassed(h: Heap, before: nat, e: nat): Heap
    requires e in h && (before != NULL ==> before in h)
  {
    if before != NULL then h[before := h[before].(next := h[e].next)] else h
  }

  lemma ChainRemoved(h: Heap, first: nat, chain: seq<nat>, j: nat)
    requires ChainOk(h, first, chain) && j < |chain|
    ensures h[chain[j]].next == At(chain, j + 1) && (At(chain, j - 1) != NULL ==> At(chain, j - 1) in h)
    ensures ChainOk(Bypassed(h, At(chain, j - 1), chain[j]), if j == 0 then h[chain[j]].next else first, Removed(chain, j))
  {
    var e, w, before := chain[j], Removed(chain, j), At(chain, j - 1);
    RemovedOk(h, chain, j);
    assert h[e].next == At(chain, j + 1);
    assert j > 0 ==> before == chain[j - 1];
    hide Removed;
    RemovedAt(chain, j, 0);
    var h' := Bypassed(h, before, e);
    forall i | 0 <= i < |w|
      ensures w[i] in h' && h'[w[i]].next == At(w, i + 1)
    {
      RemovedAt(chain, j, i);
      RemovedAt(chain, j, i + 1);
      var k := if i < j then i else i + 1;
      assert w[i] == At(w, i) == chain[k];
      assert h[chain[k]].next == At(chain, k + 1);
      assert chain[k] == before <==> k == j - 1;
    }
  }

  /** A chain does not notice changes to links of entries outside it, nor to other fields. */
  lemma ChainKept(h: Heap, h': Heap, first: nat, chain: seq<nat>)
    requires ChainOk(h, first, chain) && NULL !in h'
    requires forall x :: x in chain ==> x in h' && h'[x].next == h[x].next
    ensures ChainOk(h', first, chain)
  {
    forall i | 0 <= i < |chain|
      ensures chain[i] in h' && h'[chain[i]].next == At(chain, i + 1)
    {
      assert chain[i] in chain;
      assert h[chain[i]].next == At(chain, i + 1);
    }
  }

  lemma LruKept(h: Heap, h': Heap, head: nat, tail: nat, lru: seq<nat>)
    requires LruOk(h, head, tail, lru) && NULL !in h'
    requires forall x :: x in lru ==> x in h' && h'[x].lruNext == h[x].lruNext && h'[x].lruPrev == h[x].lruPrev
    ensures LruOk(h', head, tail, lru)
  {
    forall i | 0 <= i < |lru|
      ensures lru[i] in h' && h'[lru[i]].lruNext == At(lru, i + 1) && h'[lru[i]].lruPrev == At(lru, i - 1)
    {
      assert lru[i] in lru;
      assert h[lru[i]].lruNext == At(lru, i + 1) && h[lru[i]].lruPrev == At(lru, i - 1);
    }
  }

  // ---- the whole structure ----

  datatype Links = Links(heap: Heap, buckets: seq<nat>, head: nat, tail: nat,
                         lru: seq<nat>, chains: seq<seq<nat>>, index: map<PageKey, nat>)

  ghost predicate ChainsOk(h: Heap, buckets: seq<nat>, chains: seq<seq<nat>>) {
    && |buckets| == |chains| == CACHE_BUCKETS
    && (forall b :: 0 <= b < CACHE_BUCKETS ==> ChainOk(h, buckets[b], chains[b]))
    && HashesOk(h, chains)
  }

  ghost predicate HashesOk(h: Heap, chains: seq<seq<nat>>) {
    forall b, x {:trigger x in chains[b]} :: 0 <= b < |chains| && x in chains[b] ==> x in h && Hash(h[x].key) == b
  }

  /** List, chains and heap hold the same entries, and no key occurs twice. */
  ghost predicate SameEntries(h: Heap, lru: seq<nat>, chains: seq<seq<nat>>, index: map<PageKey, nat>)
    requires |chains| == CACHE_BUCKETS
  {
    && (forall x :: x in lru <==> x in h)
    && (forall x :: x in h ==> x in chains[Hash(h[x].key)])
    && (forall x :: x in h ==> h[x].key in index && index[h[x].key] == x)
    && (forall k :: k in index ==> index[k] in h && h[index[k]].key == k)
  }

  ghost predicate LinksOk(c: Links) {
    && LruOk(c.heap, c.head, c.tail, c.lru)
    && ChainsOk(c.heap, c.buckets, c.chains)
    && SameEntries(c.heap, c.lru, c.chains, c.index)
  }

  /** The cached pages by key. */
  ghost function Pages(c: Links): map<PageKey, Page> {
    map k | k in c.index && c.index[k] in c.heap :: Page(c.heap[c.index[k]].data, c.heap[c.index[k]].dirty)
  }

  lemma EmptyLinks(c: Links)
    requires c.heap == map[] && c.head == NULL && c.tail == NULL && c.lru == [] && c.index == map[]
    requires |c.buckets| == |c.chains| == CACHE_BUCKETS
    requires forall b :: 0 <= b < CACHE_BUCKETS ==> c.buckets[b] == NULL && c.chains[b] == []
    ensures LinksOk(c) && Pages(c) == map[]
  {
    hide Hash;
  }

  /** Changes of fields other than links and keys keep the structure. */
  lemma FieldsFree(c: Links, h': Heap)
    requires LinksOk(c) && h'.Keys == c.heap.Keys
    requires forall x :: x in h' ==>
      && h'[x].key == c.heap[x].key && h'[x].next == c.heap[x].next
      && h'[x].lruNext == c.heap[x].lruNext && h'[x].lruPrev == c.heap[x].lruPrev
    ensures LinksOk(c.(heap := h'))
  {
    LruKept(c.heap, h', c.head, c.tail, c.lru);
    forall b | 0 <= b < CACHE_BUCKETS
      ensures ChainOk(h', c.buckets[b], c.chains[b])
    {
      ChainKept(c.heap, h', c.buckets[b], c.chains[b]);
    }
  }

  /** Only recency links change when an entry is unlinked or put in front. */
  ghost predicate OnlyRecency(h: Heap, h': Heap) {
    h'.Keys == h.Keys && forall x :: x in h ==>
      h'[x].key == h[x].key && h'[x].next == h[x].next && h'[x].data == h[x].data && h'[x].dirty == h[x].dirty
  }

  lemma UnlinkedRecency(h: Heap, e: nat)
    requires e in h && (h[e].lruPrev != NULL ==> h[e].lruPrev in h) && (h[e].lruNext != NULL ==> h[e].lruNext in h)
    ensures OnlyRecency(h, Unlinked(h, e))
  {
  }

  lemma FrontedRecency(h: Heap, h1: Heap, head: nat, e: nat)
    requires OnlyRecency(h, h1) && e in h1 && (head != NULL ==> head in h1)
    ensures OnlyRecency(h, Fronted(h1, head, e))
  {
  }

  lemma RecencyChains(h: Heap, h': Heap, buckets: seq<nat>, chains: seq<seq<nat>>)
    requires ChainsOk(h, buckets, chains) && OnlyRecency(h, h') && NULL !in h'
    ensures ChainsOk(h', buckets, chains)
  {
    forall b | 0 <= b < CACHE_BUCKETS
      ensures ChainOk(h', buckets[b], chains[b])
    {
      ChainKept(h, h', buckets[b], chains[b]);
    }
  }

  /** Reordering the recency list leaves chains and pages alone. */
  lemma RecencyChange(c: Links, c': Links)
    requires LinksOk(c) && OnlyRecency(c.heap, c'.heap) && LruOk(c'.heap, c'.head, c'.tail, c'.lru)
    requires c'.buckets == c.buckets && c'.chains == c.chains && c'.index == c.index
    requires forall x :: x in c'.lru <==> x in c.lru
    ensures LinksOk(c') && Pages(c') == Pages(c)
  {
    hide LruOk, ChainsOk;
    LruNull(c'.heap, c'.head, c'.tail, c'.lru);
    RecencyChains(c.heap, c'.heap, c.buckets, c.chains);
    BucketCount(c);
    SameEntriesKept(c.heap, c'.heap, c.lru, c'.lru, c.chains, c.index);
    assert Pages(c').Keys == Pages(c).Keys;
  }

  lemma LruNull(h: Heap, head: nat, tail: nat, lru: seq<nat>)
    requires LruOk(h, head, tail, lru)
    ensures NULL !in h && (forall x :: x in lru ==> x in h)
  {
  }

  lemma BucketCount(c: Links)
    requires ChainsOk(c.heap, c.buckets, c.chains)
    ensures |c.chains| == |c.buckets| == CACHE_BUCKETS
  {
  }

  lemma SameEntriesKept(h: Heap, h': Heap, lru: seq<nat>, lru': seq<nat>, chains: seq<seq<nat>>, index: map<PageKey, nat>)
    requires |chains| == CACHE_BUCKETS && SameEntries(h, lru, chains, index)
    requires h'.Keys == h.Keys && (forall x :: x in h ==> h'[x].key == h[x].key) && (forall x :: x in lru' <==> x in lru)
    ensures SameEntries(h', lru', chains, index)
  {
  }

  // ---- dropping and adding an entry ----

  /** Bypassing an entry in its chain touches one `next` link and nothing else. */
  ghost predicate OnlyNext(h: Heap, h': Heap, before: nat) {
    h'.Keys == h.Keys && forall x :: x in h ==>
      && h'[x].key == h[x].key && h'[x].data == h[x].data && h'[x].dirty == h[x].dirty
      && h'[x].lruNext == h[x].lruNext && h'[x].lruPrev == h[x].lruPrev
      && (x != before ==> h'[x].next == h[x].next)
  }

  /** Everything but `e` keeps its key, its contents and its chain link. */
  ghost predicate Dropped(h: Heap, h': Heap, e: nat) {
    h'.Keys == h.Keys - {e} && forall x :: x in h' ==>
      h'[x].key == h[x].key && h'[x].data == h[x].data && h'[x].dirty == h[x].dirty
  }

  lemma DropLru(h1: Heap, h3: Heap, head: nat, tail: nat, lru: seq<nat>, i: nat)
    requires LruOk(h1, head, tail, lru) && i < |lru|
    requires h1[lru[i]].lruPrev == At(lru, i - 1) && h1[lru[i]].lruNext == At(lru, i + 1)
    requires h3 == Unlinked(h1, lru[i]) - {lru[i]}
    ensures LruOk(h3, if h1[lru[i]].lruPrev != NULL then head else h1[lru[i]].lruNext,
                  if h1[lru[i]].lruNext != NULL then tail else h1[lru[i]].lruPrev, Removed(lru, i))
  {
    var e := lru[i];
    RemovedOk(h1, lru, i);
    NullUnlinked(h1, e);
    LruRemoved(h1, head, tail, lru, i);
    hide LruOk, Removed, Unlinked;
    LruNull(Unlinked(h1, e), if h1[e].lruPrev != NULL then head else h1[e].lruNext,
            if h1[e].lruNext != NULL then tail else h1[e].lruPrev, Removed(lru, i));
    LruKept(Unlinked(h1, e), h3, if h1[e].lruPrev != NULL then head else h1[e].lruNext,
            if h1[e].lruNext != NULL then tail else h1[e].lruPrev, Removed(lru, i));
  }

  lemma ChainFacts(h: Heap, first: nat, chain: seq<nat>)
    requires ChainOk(h, first, chain)
    ensures Distinct(chain) && Allocated(h, chain)
  {
  }

  /** One chain loses the entry, the others do not see it. */
  lemma DropChains(h: Heap, h1: Heap, h3: Heap, buckets: seq<nat>, chains: seq<seq<nat>>, b: nat, j: nat)
    requires ChainsOk(h, buckets, chains) && b < CACHE_BUCKETS && j < |chains[b]|
    requires At(chains[b], j - 1) != NULL ==> At(chains[b], j - 1) in h
    requires chains[b][j] in h && h1 == Bypassed(h, At(chains[b], j - 1), chains[b][j])
    requires Dropped(h1, h3, chains[b][j]) && forall x :: x in h3 ==> h3[x].next == h1[x].next
    ensures ChainsOk(h3, if j == 0 then buckets[b := h[chains[b][j]].next] else buckets, chains[b := Removed(chains[b], j)])
  {
    var e := chains[b][j];
    var buckets' := if j == 0 then buckets[b := h[e].next] else buckets;
    var chains' := chains[b := Removed(chains[b], j)];
    hide Removed, Hash, ChainOk, HashesOk;
    assert ChainOk(h, buckets[b], chains[b]);
    ChainFacts(h, buckets[b], chains[b]);
    ChainRemoved(h, buckets[b], chains[b], j);
    RemovedOk(h, chains[b], j);
    forall c | 0 <= c < CACHE_BUCKETS
      ensures ChainOk(h3, buckets'[c], chains'[c])
    {
      if c == b {
        ChainKept(h1, h3, buckets'[b], chains'[b]);
      } else {
        assert ChainOk(h, buckets[c], chains[c]);
        OtherChain(h, chains, b, j, c);
        ChainKept(h, h3, buckets[c], chains[c]);
      }
    }
    DropHashes(h, h3, chains, b, j);
  }

  lemma DropHashes(h: Heap, h3: Heap, chains: seq<seq<nat>>, b: nat, j: nat)
    requires HashesOk(h, chains) && b < |chains| == CACHE_BUCKETS && j < |chains[b]| && Distinct(chains[b]) && Allocated(h, chains[b])
    requires h3.Keys == h.Keys - {chains[b][j]} && forall x :: x in h3 ==> h3[x].key == h[x].key
    ensures HashesOk(h3, chains[b := Removed(chains[b], j)])
  {
    RemovedOk(h, chains[b], j);
    var chains' := chains[b := Removed(chains[b], j)];
    hide Removed, Hash;
    forall c, x | 0 <= c < |chains'| && x in chains'[c]
      ensures x in h3 && Hash(h3[x].key) == c
    {
      if c != b {
        OtherChain(h, chains, b, j, c);
      }
      assert x in chains[c];
    }
  }

  lemma OtherChain(h: Heap, chains: seq<seq<nat>>, b: nat, j: nat, c: nat)
    requires |chains| == CACHE_BUCKETS && b < CACHE_BUCKETS && c < CACHE_BUCKETS && b != c && j < |chains[b]|
    requires HashesOk(h, chains)
    ensures chains[b][j] !in chains[c]
    ensures j > 0 ==> chains[b][j - 1] !in chains[c]
  {
    hide Hash;
    assert chains[b][j] in chains[b];
    assert j > 0 ==> chains[b][j - 1] in chains[b];
  }

  lemma DropEntries(h: Heap, h3: Heap, lru: seq<nat>, chains: seq<seq<nat>>, index: map<PageKey, nat>, i: nat, b: nat, j: nat)
    requires |chains| == CACHE_BUCKETS && SameEntries(h, lru, chains, index) && i < |lru| && Dropped(h, h3, lru[i])
    requires Distinct(lru) && Allocated(h, lru)
    requires b < CACHE_BUCKETS && j < |chains[b]| && chains[b][j] == lru[i] && b == Hash(h[lru[i]].key)
    requires Distinct(chains[b]) && Allocated(h, chains[b])
    ensures SameEntries(h3, Removed(lru, i), chains[b := Removed(chains[b], j)], index - {h[lru[i]].key})
  {
    hide Removed, Hash, Distinct, Allocated;
    RemovedOk(h, lru, i);
    RemovedOk(h, chains[b], j);
    var e, chains' := lru[i], chains[b := Removed(chains[b], j)];
    EntriesOf(h, lru, chains, index);
    forall x | x in h3
      ensures x in chains'[Hash(h3[x].key)] && h3[x].key in index && h3[x].key != h[e].key && index[h3[x].key] == x
    {
      assert x in h && x != e;
    }
    forall k | k in index && k != h[e].key
      ensures index[k] in h3 && h3[index[k]].key == k
    {
      assert index[k] in h && index[k] != e;
    }
  }

  lemma EntriesOf(h: Heap, lru: seq<nat>, chains: seq<seq<nat>>, index: map<PageKey, nat>)
    requires |chains| == CACHE_BUCKETS && SameEntries(h, lru, chains, index)
    ensures forall x, y :: x in h && y in h && h[x].key == h[y].key ==> x == y
  {
    hide Hash;
  }

  /** The structure after the unlinking steps of cache_evict_one. */
  ghost function DropLinks(c: Links, h3: Heap, head: nat, tail: nat, i: nat, b: nat, j: nat): Links
    requires i < |c.lru| && c.lru[i] in c.heap && b < |c.buckets| == |c.chains| && j < |c.chains[b]|
  {
    var e := c.lru[i];
    Links(h3, if j == 0 then c.buckets[b := c.heap[e].next] else c.buckets, head, tail,
          Removed(c.lru, i), c.chains[b := Removed(c.chains[b], j)], c.index - {c.heap[e].key})
  }

  lemma LinksFacts(c: Links)
    requires LinksOk(c)
    ensures |c.chains| == |c.buckets| == CACHE_BUCKETS && NULL !in c.heap
    ensures Distinct(c.lru) && Allocated(c.heap, c.lru)
    ensures forall b :: 0 <= b < CACHE_BUCKETS ==> ChainOk(c.heap, c.buckets[b], c.chains[b]) && Distinct(c.chains[b]) && Allocated(c.heap, c.chains[b])
    ensures forall x :: x in c.lru <==> x in c.heap
    ensures forall x :: x in c.heap ==> x in c.chains[Hash(c.heap[x].key)] && c.heap[x].key in c.index && c.index[c.heap[x].key] == x
    ensures forall k :: k in c.index ==> c.index[k] in c.heap && c.heap[c.index[k]].key == k
    ensures c.head == At(c.lru, 0) && c.tail == At(c.lru, |c.lru| - 1)
  {
    hide Hash;
  }

  lemma LruNeighbours(h: Heap, head: nat, tail: nat, lru: seq<nat>, i: nat)
    requires LruOk(h, head, tail, lru) && i < |lru|
    ensures lru[i] in h && h[lru[i]].lruPrev == At(lru, i - 1) && h[lru[i]].lruNext == At(lru, i + 1)
    ensures (At(lru, i - 1) != NULL ==> At(lru, i - 1) in h) && (At(lru, i + 1) != NULL ==> At(lru, i + 1) in h)
  {
  }

  lemma BypassedOnlyNext(h: Heap, before: nat, e: nat)
    requires e in h && (before != NULL ==> before in h)
    ensures OnlyNext(h, Bypassed(h, before, e), before)
  {
  }

  lemma DroppedBy(h: Heap, h1: Heap, h3: Heap, before: nat, e: nat)
    requires OnlyNext(h, h1, before) && e in h1
    requires (h1[e].lruPrev != NULL ==> h1[e].lruPrev in h1) && (h1[e].lruNext != NULL ==> h1[e].lruNext in h1)
    requires h3 == Unlinked(h1, e) - {e}
    ensures Dropped(h1, h3, e) && Dropped(h, h3, e) && forall x :: x in h3 ==> h3[x].next == h1[x].next
  {
    hide Unlinked;
    UnlinkedRecency(h1, e);
  }

  /** Dropping entry `i` keeps the structure and removes exactly its page. */
  lemma DropOk(c: Links, i: nat, b: nat, j: nat, h1: Heap, h3: Heap)
    requires LinksOk(c) && i < |c.lru| && c.lru[i] in c.heap
    requires b < |c.buckets| == |c.chains| == CACHE_BUCKETS && b == Hash(c.heap[c.lru[i]].key) && j < |c.chains[b]| && c.chains[b][j] == c.lru[i]
    requires (At(c.chains[b], j - 1) != NULL ==> At(c.chains[b], j - 1) in c.heap) && h1 == Bypassed(c.heap, At(c.chains[b], j - 1), c.lru[i])
    requires c.lru[i] in h1 && (h1[c.lru[i]].lruPrev != NULL ==> h1[c.lru[i]].lruPrev in h1) && (h1[c.lru[i]].lruNext != NULL ==> h1[c.lru[i]].lruNext in h1)
    requires h3 == Unlinked(h1, c.lru[i]) - {c.lru[i]}
    ensures
      var head := if h1[c.lru[i]].lruPrev != NULL then c.head else h1[c.lru[i]].lruNext;
      var tail := if h1[c.lru[i]].lruNext != NULL then c.tail else h1[c.lru[i]].lruPrev;
      var c' := DropLinks(c, h3, head, tail, i, b, j);
      LinksOk(c') && Pages(c') == Pages(c) - {c.heap[c.lru[i]].key}
    ensures Dropped(c.heap, h3, c.lru[i])
  {
    hide LruOk, ChainsOk, SameEntries, Unlinked, Removed, Hash, Bypassed, Dropped, Pages, Distinct, Allocated, OnlyNext;
    var e := c.lru[i];
    LinksFacts(c);
    BypassedOnlyNext(c.heap, At(c.chains[b], j - 1), e);
    LruKept(c.heap, h1, c.head, c.tail, c.lru);
    LruNeighbours(h1, c.head, c.tail, c.lru, i);
    DroppedBy(c.heap, h1, h3, At(c.chains[b], j - 1), e);
    DropLru(h1, h3, c.head, c.tail, c.lru, i);
    DropChains(c.heap, h1, h3, c.buckets, c.chains, b, j);
    DropEntries(c.heap, h3, c.lru, c.chains, c.index, i, b, j);
    var head := if h1[e].lruPrev != NULL then c.head else h1[e].lruNext;
    var tail := if h1[e].lruNext != NULL then c.tail else h1[e].lruPrev;
    var c' := DropLinks(c, h3, head, tail, i, b, j);
    assert LinksOk(c') && c'.heap == h3 && c'.index == c.index - {c.heap[e].key};
    DropPages(c, c', e);
  }

  lemma DropPages(c: Links, c': Links, e: nat)
    requires e in c.heap && Dropped(c.heap, c'.heap, e) && c'.index == c.index - {c.heap[e].key}
    requires |c.chains| == CACHE_BUCKETS && SameEntries(c.heap, c.lru, c.chains, c.index)
    ensures Pages(c') == Pages(c) - {c.heap[e].key}
  {
    hide Hash;
    assert Pages(c').Keys == (Pages(c) - {c.heap[e].key}).Keys;
  }

  /** The structure after cache_add has linked in entry `a`. */
  ghost function AddLinks(c: Links, a: nat, k: PageKey, data: seq<Byte>): Links
    requires |c.buckets| == |c.chains| == CACHE_BUCKETS && (c.head != NULL ==> c.head in c.heap) && c.head != a
  {
    var b := Hash(k);
    var h1 := c.heap[a := Entry(k, data, false, c.buckets[b], NULL, NULL)];
    Links(Fronted(h1, c.head, a), c.buckets[b := a], a, if c.tail == NULL then a else c.tail,
          [a] + c.lru, c.chains[b := [a] + c.chains[b]], c.index[k := a])
  }

  lemma FrontedFields(h: Heap, head: nat, a: nat)
    requires a in h && (head != NULL ==> head in h)
    ensures OnlyRecency(h, Fronted(h, head, a))
  {
  }

  lemma ChainFronted(h: Heap, h': Heap, first: nat, chain: seq<nat>, a: nat)
    requires ChainOk(h, first, chain) && a !in h && a != NULL
    requires a in h' && h'[a].next == first && NULL !in h' && forall x :: x in h ==> x in h' && h'[x].next == h[x].next
    ensures ChainOk(h', a, [a] + chain)
  {
    var w := [a] + chain;
    forall i | 0 <= i < |w|
      ensures w[i] in h' && h'[w[i]].next == At(w, i + 1)
    {
      if i > 0 {
        assert w[i] == chain[i - 1];
        assert h[chain[i - 1]].next == At(chain, i);
      }
    }
  }

  lemma AddChains(h: Heap, h': Heap, buckets: seq<nat>, chains: seq<seq<nat>>, a: nat, k: PageKey)
    requires ChainsOk(h, buckets, chains) && a !in h && a != NULL && NULL !in h'
    requires a in h' && h'[a].key == k && h'[a].next == buckets[Hash(k)]
    requires forall x :: x in h ==> x in h' && h'[x].next == h[x].next && h'[x].key == h[x].key
    ensures ChainsOk(h', buckets[Hash(k) := a], chains[Hash(k) := [a] + chains[Hash(k)]])
  {
    var b := Hash(k);
    hide Hash, ChainOk;
    var buckets', chains' := buckets[b := a], chains[b := [a] + chains[b]];
    forall d | 0 <= d < CACHE_BUCKETS
      ensures ChainOk(h', buckets'[d], chains'[d])
    {
      assert ChainOk(h, buckets[d], chains[d]);
      if d == b {
        ChainFronted(h, h', buckets[b], chains[b], a);
      } else {
        ChainFacts(h, buckets[d], chains[d]);
        ChainKept(h, h', buckets[d], chains[d]);
      }
    }
    forall d, x | 0 <= d < |chains'| && x in chains'[d]
      ensures x in h' && Hash(h'[x].key) == d
    {
      assert x == a || x in chains[d];
    }
  }

  lemma AddEntries(h: Heap, h': Heap, lru: seq<nat>, chains: seq<seq<nat>>, index: map<PageKey, nat>, a: nat, k: PageKey)
    requires |chains| == CACHE_BUCKETS && SameEntries(h, lru, chains, index) && a !in h && k !in index
    requires h'.Keys == h.Keys + {a} && h'[a].key == k && forall x :: x in h ==> h'[x].key == h[x].key
    ensures SameEntries(h', [a] + lru, chains[Hash(k) := [a] + chains[Hash(k)]], index[k := a])
  {
    hide Hash;
    var chains' := chains[Hash(k) := [a] + chains[Hash(k)]];
    forall x | x in h'
      ensures x in chains'[Hash(h'[x].key)]
    {
      if x == a {
        assert chains'[Hash(k)][0] == a;
      } else {
        assert x in chains[Hash(h[x].key)];
      }
    }
  }

  lemma AddOk(c: Links, a: nat, k: PageKey, data: seq<Byte>)
    requires LinksOk(c) && a !in c.heap && a != NULL && k !in c.index
    requires |c.buckets| == |c.chains| == CACHE_BUCKETS && (c.head != NULL ==> c.head in c.heap) && c.head != a
    ensures LinksOk(AddLinks(c, a, k, data)) && Pages(AddLinks(c, a, k, data)) == Pages(c)[k := Page(data, false)]
  {
    hide LruOk, ChainsOk, SameEntries, Hash, Fronted, OnlyRecency, Pages, Distinct, Allocated, ChainOk;
    LinksFacts(c);
    var h1 := c.heap[a := Entry(k, data, false, c.buckets[Hash(k)], NULL, NULL)];
    LruKept(c.heap, h1, c.head, c.tail, c.lru);
    LruFronted(h1, c.head, c.tail, c.lru, a);
    var h2 := Fronted(h1, c.head, a);
    AddHeap(c.heap, h1, h2, c.head, a);
    AddChains(c.heap, h2, c.buckets, c.chains, a, k);
    AddEntries(c.heap, h2, c.lru, c.chains, c.index, a, k);
    AddPages(c, AddLinks(c, a, k, data), a, k, data);
  }

  lemma AddHeap(h: Heap, h1: Heap, h2: Heap, head: nat, a: nat)
    requires a !in h && NULL !in h && a != NULL && a in h1 && h1 == h[a := h1[a]]
    requires (head != NULL ==> head in h1) && h2 == Fronted(h1, head, a)
    ensures h2.Keys == h.Keys + {a} && NULL !in h2
    ensures h2[a].key == h1[a].key && h2[a].next == h1[a].next && h2[a].data == h1[a].data && h2[a].dirty == h1[a].dirty
    ensures forall x :: x in h ==>
      && x in h2 && h2[x].next == h[x].next && h2[x].key == h[x].key
      && h2[x].data == h[x].data && h2[x].dirty == h[x].dirty
  {
    hide Fronted;
    FrontedFields(h1, head, a);
    assert h1.Keys == h.Keys + {a};
  }

  lemma AddPages(c: Links, c': Links, a: nat, k: PageKey, data: seq<Byte>)
    requires c'.index == c.index[k := a] && k !in c.index && a !in c.heap
    requires c'.heap.Keys == c.heap.Keys + {a} && c'.heap[a].data == data && !c'.heap[a].dirty
    requires forall x :: x in c.heap ==> c'.heap[x].data == c.heap[x].data && c'.heap[x].dirty == c.heap[x].dirty
    requires forall l :: l in c.index ==> c.index[l] in c.heap
    ensures Pages(c') == Pages(c)[k := Page(data, false)]
  {
  }

  /** Storing into a cached page. */
  lemma StorePage(c: Links, k: PageKey, data: seq<Byte>)
    requires LinksOk(c) && k in c.index && c.index[k] in c.heap
    ensures
      var c' := c.(heap := c.heap[c.index[k] := c.heap[c.index[k]].(data := data, dirty := true)]);
      LinksOk(c') && Pages(c') == Pages(c)[k := Page(data, true)]
  {
    hide LruOk, ChainsOk, Hash;
    var h' := c.heap[c.index[k] := c.heap[c.index[k]].(data := data, dirty := true)];
    FieldsFree(c, h');
    BucketCount(c);
    assert Pages(c.(heap := h')).Keys == Pages(c).Keys + {k};
  }

  /** One bucket of a sound structure: its chain finds the entry of every key that hashes there. */
  lemma BucketFacts(c: Links, k: PageKey)
    requires LinksOk(c)
    ensures |c.chains| == |c.buckets| == CACHE_BUCKETS && NULL !in c.heap
    ensures ChainOk(c.heap, c.buckets[Hash(k)], c.chains[Hash(k)])
    ensures k in c.index ==> c.index[k] in c.chains[Hash(k)] && c.index[k] in c.heap && c.heap[c.index[k]].key == k
    ensures forall x :: x in c.heap && c.heap[x].key == k ==> k in c.index && c.index[k] == x
    ensures forall x :: x in c.heap ==> x in c.lru
  {
    hide Hash, LruOk, ChainOk;
    LruNull(c.heap, c.head, c.tail, c.lru);
  }

  lemma ChainStep(h: Heap, first: nat, chain: seq<nat>, j: nat)
    requires ChainOk(h, first, chain) && j < |chain|
    ensures chain[j] in h && chain[j] != NULL && h[chain[j]].next == At(chain, j + 1)
  {
  }

  lemma ChainFirst(h: Heap, first: nat, chain: seq<nat>)
    requires ChainOk(h, first, chain)
    ensures first == At(chain, 0)
  {
  }

  lemma ChainNull(h: Heap, first: nat, chain: seq<nat>, j: nat)
    requires ChainOk(h, first, chain) && At(chain, j) == NULL
    ensures j >= |chain|
  {
  }

  /** The heap can always supply an unused address. */
  lemma {:induction false} FreshAddress(used: set<nat>)
    ensures exists a: nat :: a != NULL && a !in used
  {
    var a := AboveAll(used);
    assert a != NULL && a !in used;
  }

  lemma {:induction false} AboveAll(used: set<nat>) returns (a: nat)
    ensures a > 0 && forall x :: x in used ==> x < a
  {
    if used == {} {
      a := 1;
    } else {
      var x :| x in used;
      a := AboveAll(used - {x});
      if a <= x {
        a := x + 1;
      }
      forall y | y in used
        ensures y < a
      {
        assert y == x || y in used - {x};
      }
    }
  }

  lemma FrontIs(lru: seq<nat>, i: nat)
    requires Distinct(lru) && i < |lru| && lru[i] == lru[0]
    ensures [lru[i]] + Removed(lru, i) == lru
  {
  }

  lemma SelfLinks(lru: seq<nat>, i: nat)
    requires Distinct(lru) && i < |lru| && NULL !in lru
    ensures At(lru, i - 1) != lru[i] && At(lru, i + 1) != lru[i]
  {
  }

  lemma HeadIn(h: Heap, head: nat, tail: nat, lru: seq<nat>)
    requires LruOk(h, head, tail, lru)
    ensures head != NULL ==> head in h
  {
  }

  /** What lru_touch finds: the entry is in front, or it can be unlinked and put there. */
  lemma TouchStart(c: Links, i: nat)
    requires LinksOk(c) && i < |c.lru|
    ensures
      var e := c.lru[i];
      && e in c.heap && NULL !in c.heap && c.head == At(c.lru, 0)
      && c.heap[e].lruPrev == At(c.lru, i - 1) && c.heap[e].lruNext == At(c.lru, i + 1)
      && (c.heap[e].lruPrev != NULL ==> c.heap[e].lruPrev in c.heap)
      && (c.heap[e].lruNext != NULL ==> c.heap[e].lruNext in c.heap)
      && c.heap[e].lruPrev != e && c.heap[e].lruNext != e
      && (e == c.head ==> [e] + Removed(c.lru, i) == c.lru)
  {
    hide ChainsOk, SameEntries, Hash;
    LruNeighbours(c.heap, c.head, c.tail, c.lru, i);
    LruNull(c.heap, c.head, c.tail, c.lru);
    SelfLinks(c.lru, i);
    if c.lru[i] == c.lru[0] {
      FrontIs(c.lru, i);
    }
  }

  ghost function TouchedLinks(c: Links, i: nat, h1: Heap, head: nat, tail: nat): Links
    requires i < |c.lru| && c.lru[i] in h1 && (head != NULL ==> head in h1)
  {
    c.(heap := Fronted(h1, head, c.lru[i]), head := c.lru[i], tail := if tail == NULL then c.lru[i] else tail,
       lru := [c.lru[i]] + Removed(c.lru, i))
  }

  ghost predicate CanUnlink(h: Heap, e: nat) {
    e in h && (h[e].lruPrev != NULL ==> h[e].lruPrev in h) && (h[e].lruNext != NULL ==> h[e].lruNext in h)
  }

  lemma TouchUnlinked(c: Links, i: nat, h1: Heap, head: nat, tail: nat)
    requires LinksOk(c) && i < |c.lru| && CanUnlink(c.heap, c.lru[i]) && h1 == Unlinked(c.heap, c.lru[i])
    requires head == if c.heap[c.lru[i]].lruPrev != NULL then c.head else c.heap[c.lru[i]].lruNext
    requires tail == if c.heap[c.lru[i]].lruNext != NULL then c.tail else c.heap[c.lru[i]].lruPrev
    ensures c.lru[i] in h1 && (head != NULL ==> head in h1) && OnlyRecency(c.heap, h1)
    ensures LruOk(h1, head, tail, Removed(c.lru, i))
  {
    hide LruOk, ChainsOk, SameEntries, Hash, Unlinked, Removed, OnlyRecency;
    LruRemoved(c.heap, c.head, c.tail, c.lru, i);
    UnlinkedRecency(c.heap, c.lru[i]);
    RecencyKeys(c.heap, h1);
    HeadIn(h1, head, tail, Removed(c.lru, i));
  }

  lemma TouchMiddle(c: Links, i: nat, h1: Heap, head: nat, tail: nat)
    requires LinksOk(c) && i < |c.lru| && c.lru[i] in c.heap && c.lru[i] in h1 && (head != NULL ==> head in h1)
    requires LruOk(h1, head, tail, Removed(c.lru, i)) && OnlyRecency(c.heap, h1)
    ensures LinksOk(TouchedLinks(c, i, h1, head, tail)) && Pages(TouchedLinks(c, i, h1, head, tail)) == Pages(c)
    ensures OnlyRecency(c.heap, Fronted(h1, head, c.lru[i]))
  {
    hide LinksOk, LruOk, Fronted, Removed, Pages, OnlyRecency;
    var e := c.lru[i];
    LinksFacts(c);
    RemovedOk(c.heap, c.lru, i);
    LruFronted(h1, head, tail, Removed(c.lru, i), e);
    FrontedRecency(c.heap, h1, head, e);
    RecencyChange(c, TouchedLinks(c, i, h1, head, tail));
  }

  lemma RecencyKeys(h: Heap, h': Heap)
    requires OnlyRecency(h, h')
    ensures h'.Keys == h.Keys
  {
  }

  /** What cache_evict_one finds for entry `i`: its place in its chain, and links it can be taken out by. */
  lemma DropStart(c: Links, i: nat) returns (j: nat)
    requires LinksOk(c) && i < |c.lru|
    ensures c.lru[i] in c.heap && NULL !in c.heap && |c.chains| == |c.buckets| == CACHE_BUCKETS
    ensures
      var b := Hash(c.heap[c.lru[i]].key);
      && j < |c.chains[b]| && c.chains[b][j] == c.lru[i]
      && ChainOk(c.heap, c.buckets[b], c.chains[b])
      && (At(c.chains[b], j - 1) != NULL ==> At(c.chains[b], j - 1) in c.heap)
  {
    hide Hash, LruOk, ChainOk;
    LruNull(c.heap, c.head, c.tail, c.lru);
    var e := c.lru[i];
    var chain := c.chains[Hash(c.heap[e].key)];
    assert e in chain;
    j :| 0 <= j < |chain| && chain[j] == e;
    ChainFacts(c.heap, c.buckets[Hash(c.heap[e].key)], chain);
  }

  /** Bypassing an entry in its chain leaves its recency links as they were. */
  lemma DropMiddle(c: Links, i: nat, before: nat, h1: Heap)
    requires LinksOk(c) && i < |c.lru| && c.lru[i] in c.heap && (before != NULL ==> before in c.heap)
    requires h1 == Bypassed(c.heap, before, c.lru[i])
    ensures CanUnlink(h1, c.lru[i]) && h1[c.lru[i]].lruPrev != c.lru[i] && h1[c.lru[i]].lruNext != c.lru[i]
    ensures h1[c.lru[i]].key == c.heap[c.lru[i]].key
  {
    hide ChainsOk, SameEntries, Hash, Bypassed;
    TouchStart(c, i);
    BypassedOnlyNext(c.heap, before, c.lru[i]);
  }

  lemma PageOf(c: Links, i: nat)
    requires LinksOk(c) && i < |c.lru|
    ensures c.lru[i] in c.heap
    ensures
      var e := c.heap[c.lru[i]];
      e.key in Pages(c) && Pages(c)[e.key] == Page(e.data, e.dirty)
  {
    hide Hash, LruOk, ChainsOk;
    LruNull(c.heap, c.head, c.tail, c.lru);
    BucketCount(c);
  }

  lemma PagesOf(c: Links)
    requires LinksOk(c)
    ensures Pages(c).Keys == c.index.Keys
    ensures forall k :: k in c.index ==> c.index[k] in c.heap && Pages(c)[k] == Page(c.heap[c.index[k]].data, c.heap[c.index[k]].dirty)
  {
    hide Hash, LruOk, ChainsOk;
    BucketCount(c);
  }

  lemma TailIs(c: Links)
    requires LinksOk(c)
    ensures c.head == At(c.lru, 0) && c.tail == At(c.lru, |c.lru| - 1)
    ensures forall x :: x in c.lru ==> x in c.heap && x != NULL
  {
    hide ChainsOk, SameEntries, Hash;
  }

  lemma RemovedLast(lru: seq<nat>)
    requires lru != []
    ensures Removed(lru, |lru| - 1) == lru[..|lru| - 1]
  {
  }

  lemma CursorAt(c: Links, p: nat)
    requires LinksOk(c) && p <= |c.lru| && At(c.lru, p) != NULL
    ensures p < |c.lru| && c.lru[p] in c.heap && c.heap[c.lru[p]].lruNext == At(c.lru, p + 1)
  {
    hide ChainsOk, SameEntries, Hash;
  }

  /** After the entry under the cursor has gone, its successor is under the cursor and what was
      passed is still there. */
  lemma CursorStays(c: Links, c': Links, p: nat, k: PageKey)
    requires LinksOk(c) && LinksOk(c') && p < |c.lru| && c.lru[p] in c.heap && c.heap[c.lru[p]].key == k
    requires c'.lru == Removed(c.lru, p) && Pages(c') == Pages(c) - {k}
    ensures At(c.lru, p + 1) == At(c'.lru, p) && p <= |c'.lru| == |c.lru| - 1
    ensures forall i :: 0 <= i < p ==> c'.lru[i] == c.lru[i]
  {
    hide ChainsOk, SameEntries, Hash, LruOk, Pages;
    RemovedAt(c.lru, p, p);
  }

  lemma NoneLeft(c: Links, p: nat, node: nat)
    requires LinksOk(c) && p <= |c.lru| && At(c.lru, p) == NULL
    requires forall i :: 0 <= i < p ==> c.lru[i] in c.heap && c.heap[c.lru[i]].key.node != node
    ensures forall k :: k in Pages(c) ==> k.node != node
  {
    hide ChainsOk, Hash;
    BucketCount(c);
    assert p == |c.lru|;
    forall k | k in Pages(c)
      ensures k.node != node
    {
      assert c.index[k] in c.lru;
    }
  }

  lemma AddStart(c: Links)
    requires LinksOk(c)
    ensures |c.chains| == |c.buckets| == CACHE_BUCKETS && (c.head != NULL ==> c.head in c.heap)
  {
    hide LruOk, ChainsOk, SameEntries, Hash;
    BucketCount(c);
    HeadIn(c.heap, c.head, c.tail, c.lru);
  }

  lemma AddedEntry(c: Links, a: nat, k: PageKey, data: seq<Byte>)
    requires |c.buckets| == |c.chains| == CACHE_BUCKETS && (c.head != NULL ==> c.head in c.heap) && c.head != a
    ensures
      var c' := AddLinks(c, a, k, data);
      a in c'.heap && c'.heap[a].key == k && c'.heap[a].data == data && !c'.heap[a].dirty && k in c'.index && c'.index[k] == a
  {
    hide Hash;
  }

  lemma RecencySelf(h: Heap)
    ensures OnlyRecency(h, h)
  {
  }

  /** The first `t` entries in recency order are those of the pages in `touched`. */
  ghost predicate Front(c: Links, touched: set<PageKey>, t: nat) {
    t <= |c.lru| && forall i :: 0 <= i < |c.lru| ==> c.lru[i] in c.heap && (c.heap[c.lru[i]].key in touched <==> i < t)
  }

  lemma FrontNone(c: Links)
    requires LinksOk(c)
    ensures Front(c, {}, 0)
  {
    hide ChainsOk, SameEntries, Hash;
  }

  lemma FrontTouched(c: Links, c': Links, touched: set<PageKey>, t: nat, k: PageKey, i: nat)
    requires LinksOk(c) && Front(c, touched, t) && i < |c.lru| && c.heap[c.lru[i]].key == k && k !in touched
    requires c'.lru == [c.lru[i]] + Removed(c.lru, i) && OnlyRecency(c.heap, c'.heap)
    ensures Front(c', touched + {k}, t + 1)
  {
    hide ChainsOk, LruOk, Hash;
    BucketCount(c);
    forall j | 0 <= j < |c'.lru|
      ensures c'.lru[j] in c'.heap && (c'.heap[c'.lru[j]].key in touched + {k} <==> j < t + 1)
    {
      if j > 0 {
        RemovedAt(c.lru, i, j - 1);
        var m := if j - 1 < i then j - 1 else j;
        assert c'.lru[j] == c.lru[m];
        DistinctKeys(c, m, i);
      }
    }
  }

  lemma DistinctKeys(c: Links, i: nat, j: nat)
    requires LinksOk(c) && i < |c.lru| && j < |c.lru| && i != j
    ensures c.lru[i] in c.heap && c.lru[j] in c.heap && c.heap[c.lru[i]].key != c.heap[c.lru[j]].key
  {
    hide ChainsOk, Hash;
    BucketCount(c);
  }

  lemma FrontAdded(c: Links, c': Links, touched: set<PageKey>, t: nat, k: PageKey, e: nat)
    requires Front(c, touched, t) && k !in touched && LinksOk(c')
    requires t < |c.lru| || |c.lru| < MAX_CACHED_PAGES
    requires c'.lru == [e] + (if |c.lru| == MAX_CACHED_PAGES then c.lru[..|c.lru| - 1] else c.lru)
    requires e in c'.heap && c'.heap[e].key == k
    requires forall x :: x in c'.heap && x != e ==> x in c.heap && c'.heap[x].key == c.heap[x].key
    ensures Front(c', touched + {k}, t + 1)
  {
    hide ChainsOk, SameEntries, Hash;
    forall j | 0 <= j < |c'.lru|
      ensures c'.lru[j] in c'.heap && (c'.heap[c'.lru[j]].key in touched + {k} <==> j < t + 1)
    {
      if j > 0 {
        assert c'.lru[j] == c.lru[j - 1] && c'.lru[j] != e;
        hide LruOk;
        DistinctKeys(c', 0, j);
      }
    }
  }

  lemma AddedOthers(c: Links, a: nat, k: PageKey, data: seq<Byte>)
    requires |c.buckets| == |c.chains| == CACHE_BUCKETS && (c.head != NULL ==> c.head in c.heap) && c.head != a
    ensures forall x :: x in AddLinks(c, a, k, data).heap && x != a ==> x in c.heap && AddLinks(c, a, k, data).heap[x].key == c.heap[x].key
  {
    hide Hash;
  }

  /** With fewer touched pages than the limit, the least recently used entry of a full cache is not one. */
  lemma FrontLast(c: Links, touched: set<PageKey>, t: nat)
    requires Front(c, touched, t) && t < MAX_CACHED_PAGES
    ensures |c.lru| == MAX_CACHED_PAGES ==> c.lru[|c.lru| - 1] in c.heap && c.heap[c.lru[|c.lru| - 1]].key !in touched
    ensures t < |c.lru| || |c.lru| < MAX_CACHED_PAGES
  {
  }

  lemma FrontStored(c: Links, e: nat, data: seq<Byte>, touched: set<PageKey>, t: nat)
    requires Front(c, touched, t) && e in c.heap
    ensures Front(c.(heap := c.heap[e := c.heap[e].(data := data, dirty := true)]), touched, t)
  {
  }
}
