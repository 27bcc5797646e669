/** Slabs (kernel/mm/heap.c:111-232): pages cut into objects of one size, with an in-object free list. */
module Slabs {
  import opened Base
  import opened LinkLists

  const CACHES: nat := 8
  const SLAB_HEADER: nat := 40

  /** slab_sizes. */
  function Size(c: nat): (r: nat)
    ensures 16 <= r <= 2048
  {
    if c == 0 then 16 else if c == 1 then 32 else if c == 2 then 64 else if c == 3 then 128
    else if c == 4 then 256 else if c == 5 then 512 else if c == 6 then 1024 else 2048
  }

  /** Powers of two from 16 to 2048. */
  lemma SizesDouble(c: nat)
    requires c + 1 < CACHES
    ensures Size(0) == 16 && Size(c + 1) == 2 * Size(c) && Size(CACHES - 1) == 2048
  {
  }

  /** Objects per slab: as many as fit behind the header. */
  function Capacity(c: nat): (r: nat)
    ensures r >= 1 && r * Size(c) <= PAGE_SIZE - SLAB_HEADER < (r + 1) * Size(c)
  {
    (PAGE_SIZE - SLAB_HEADER) / Size(c)
  }

  /** A slab header: its cache, the first free object and the number of objects in use. */
  datatype Slab = Slab(cache: nat, freeList: nat, inUse: nat)

  function Object(a: nat, c: nat, k: nat): nat {
    a + SLAB_HEADER + k * Size(c)
  }

  ghost function Objects(a: nat, c: nat, n: nat): set<nat> {
    if n == 0 then {} else Objects(a, c, n - 1) + {Object(a, c, n - 1)}
  }

  lemma {:induction false} ObjectIndex(a: nat, c: nat, n: nat, p: nat)
    requires p in Objects(a, c, n)
    ensures exists k :: 0 <= k < n && p == Object(a, c, k)
  {
    if p != Object(a, c, n - 1) {
      ObjectIndex(a, c, n - 1, p);
    }
  }

  lemma ObjectApart(a: nat, c: nat, j: nat, k: nat)
    requires j < k
    ensures Object(a, c, j) + Size(c) <= Object(a, c, k)
  {
    assert (k - j) * Size(c) >= Size(c);
    assert k * Size(c) == j * Size(c) + (k - j) * Size(c);
  }

  lemma {:induction false} ObjectCount(a: nat, c: nat, n: nat)
    ensures |Objects(a, c, n)| == n
  {
    if n > 0 {
      ObjectCount(a, c, n - 1);
      if Object(a, c, n - 1) in Objects(a, c, n - 1) {
        ObjectIndex(a, c, n - 1, Object(a, c, n - 1));
        var k :| 0 <= k < n - 1 && Object(a, c, n - 1) == Object(a, c, k);
        ObjectApart(a, c, k, n - 1);
      }
    }
  }

  /** Objects lie in the slab's page behind its header. */
  lemma ObjectInside(a: nat, c: nat, p: nat)
    requires p in Objects(a, c, Capacity(c))
    ensures a + SLAB_HEADER <= p && p + Size(c) <= a + PAGE_SIZE
  {
    ObjectIndex(a, c, Capacity(c), p);
    var k :| 0 <= k < Capacity(c) && p == Object(a, c, k);
    hide Capacity, Size;
    ObjectApart(a, c, k, Capacity(c));
  }

  lemma ObjectsApart(a: nat, c: nat, p: nat, q: nat)
    requires p in Objects(a, c, Capacity(c)) && q in Objects(a, c, Capacity(c)) && p != q
    ensures p + Size(c) <= q || q + Size(c) <= p
  {
    ObjectIndex(a, c, Capacity(c), p);
    ObjectIndex(a, c, Capacity(c), q);
    var j :| 0 <= j < Capacity(c) && p == Object(a, c, j);
    var k :| 0 <= k < Capacity(c) && q == Object(a, c, k);
    if j < k {
      ObjectApart(a, c, j, k);
    } else {
      ObjectApart(a, c, k, j);
    }
  }

  // ---- free lists ----

  ghost predicate WordOk(words: map<nat, nat>, s: seq<nat>, i: nat)
    requires i < |s|
  {
    s[i] != NULL && s[i] in words && words[s[i]] == At(s, i + 1)
  }

  /** `s` is the list threaded through the objects from `first` on. */
  ghost predicate Chain(words: map<nat, nat>, first: nat, s: seq<nat>) {
    first == At(s, 0) && forall i :: 0 <= i < |s| ==> WordOk(words, s, i)
  }

  lemma {:induction false} ChainDistinct(words: map<nat, nat>, first: nat, s: seq<nat>, i: nat, j: nat)
    requires Chain(words, first, s) && i < j < |s|
    ensures s[i] != s[j]
    decreases |s| - j
  {
    assert WordOk(words, s, i) && WordOk(words, s, j) && WordOk(words, s, i + 1);
    if j + 1 < |s| {
      ChainDistinct(words, first, s, i + 1, j + 1);
    }
  }

  lemma ChainUntouched(words: map<nat, nat>, words': map<nat, nat>, first: nat, s: seq<nat>)
    requires Chain(words, first, s) && forall x :: x in s && x in words ==> x in words' && words'[x] == words[x]
    ensures Chain(words', first, s)
  {
    forall i | 0 <= i < |s|
      ensures WordOk(words', s, i)
    {
      assert WordOk(words, s, i);
    }
  }

  lemma ChainPop(words: map<nat, nat>, first: nat, s: seq<nat>)
    requires Chain(words, first, s) && s != []
    ensures first in words && first == s[0] && first !in s[1..] && Chain(words - {first}, words[first], s[1..])
  {
    assert WordOk(words, s, 0);
    var t := s[1..];
    forall i | 0 <= i < |t|
      ensures t[i] != first && WordOk(words - {first}, t, i)
    {
      ChainDistinct(words, first, s, 0, i + 1);
      assert WordOk(words, s, i + 1);
    }
  }

  lemma ChainPush(words: map<nat, nat>, first: nat, s: seq<nat>, p: nat)
    requires Chain(words, first, s) && p != NULL && p !in s
    ensures Chain(words[p := first], p, [p] + s)
  {
    var t, words' := [p] + s, words[p := first];
    forall i | 0 <= i < |t|
      ensures WordOk(words', t, i)
    {
      if i > 0 {
        assert WordOk(words, s, i - 1) && s[i - 1] in s;
      }
    }
  }

  /** A free list holds each of its objects once. */
  lemma ChainSize(words: map<nat, nat>, first: nat, s: seq<nat>)
    requires Chain(words, first, s)
    ensures |set x: nat | x in s| == |s|
  {
    forall i, j | 0 <= i < j < |s|
      ensures s[i] != s[j]
    {
      ChainDistinct(words, first, s, i, j);
    }
    SeqSetSize(s);
  }

  // ---- one slab ----

  /** The free list holds objects of this slab, and with those in use they are all there is. */
  ghost predicate SlabOk(words: map<nat, nat>, a: nat, s: Slab, free: seq<nat>) {
    && s.cache < CACHES && a > 0 && Chain(words, s.freeList, free)
    && (forall x :: x in free ==> x in Objects(a, s.cache, Capacity(s.cache)))
    && s.inUse + |free| == Capacity(s.cache)
  }

  /** An object that is not free is one of those in use. */
  lemma SlabInUse(words: map<nat, nat>, a: nat, s: Slab, free: seq<nat>, p: nat)
    requires SlabOk(words, a, s, free) && p in Objects(a, s.cache, Capacity(s.cache)) && p !in free
    ensures s.inUse > 0
  {
    var f := set x: nat | x in free;
    ChainSize(words, s.freeList, free);
    ObjectCount(a, s.cache, Capacity(s.cache));
    SubsetSize(f + {p}, Objects(a, s.cache, Capacity(s.cache)));
  }

  lemma SlabUntouched(words: map<nat, nat>, words': map<nat, nat>, a: nat, s: Slab, free: seq<nat>)
    requires SlabOk(words, a, s, free) && forall x :: a <= x < a + PAGE_SIZE && x in words ==> x in words' && words'[x] == words[x]
    ensures SlabOk(words', a, s, free)
  {
    hide Objects, Capacity;
    forall x | x in free
      ensures a <= x < a + PAGE_SIZE
    {
      ObjectInside(a, s.cache, x);
    }
    ChainUntouched(words, words', s.freeList, free);
  }

  /** slab_init_page threads all objects of a page onto a free list. */
  ghost function AllObjects(a: nat, c: nat, from: nat, n: nat): (r: seq<nat>)
    requires from <= n
    ensures |r| == n - from
    ensures forall i :: 0 <= i < |r| ==> r[i] == Object(a, c, from + i)
    decreases n - from
  {
    if from == n then [] else [Object(a, c, from)] + AllObjects(a, c, from + 1, n)
  }

  lemma {:induction false} ObjectIn(a: nat, c: nat, n: nat, k: nat)
    requires k < n
    ensures Object(a, c, k) in Objects(a, c, n)
  {
    if k < n - 1 {
      ObjectIn(a, c, n - 1, k);
    }
  }

  /** The first `n` objects each name the next. */
  ghost predicate Threads(words: map<nat, nat>, a: nat, c: nat, n: nat) {
    forall k: nat :: k < n ==> Object(a, c, k) in words && words[Object(a, c, k)] == Object(a, c, k + 1)
  }

  ghost predicate SameOutside(words: map<nat, nat>, words': map<nat, nat>, a: nat) {
    forall x :: x in words && !(a <= x < a + PAGE_SIZE) ==> x in words' && words'[x] == words[x]
  }

  lemma ThreadNext(words: map<nat, nat>, a: nat, c: nat, i: nat, x: nat, words0: map<nat, nat>)
    requires Threads(words, a, c, i) && i < Capacity(c) && SameOutside(words0, words, a)
    ensures forall k: nat :: k < i ==> Object(a, c, k) != Object(a, c, i)
    ensures Threads(words[Object(a, c, i) := x], a, c, i) && SameOutside(words0, words[Object(a, c, i) := x], a)
    ensures x == Object(a, c, i + 1) ==> Threads(words[Object(a, c, i) := x], a, c, i + 1)
  {
    hide Object, Capacity, Objects;
    forall k: nat | k < i
      ensures Object(a, c, k) != Object(a, c, i)
    {
      ObjectApart(a, c, k, i);
    }
    ObjectIn(a, c, Capacity(c), i);
    ObjectInside(a, c, Object(a, c, i));
  }

  lemma ThreadEnd(words: map<nat, nat>, a: nat, c: nat)
    requires a > 0 && c < CACHES && Threads(words, a, c, Capacity(c) - 1)
    requires Object(a, c, Capacity(c) - 1) in words && words[Object(a, c, Capacity(c) - 1)] == NULL
    ensures SlabOk(words, a, Slab(c, a + SLAB_HEADER, 0), AllObjects(a, c, 0, Capacity(c)))
  {
    hide Capacity, Objects, AllObjects, Object;
    var all := AllObjects(a, c, 0, Capacity(c));
    assert Object(a, c, 0) == a + SLAB_HEADER by {
      FirstObject(a, c);
    }
    forall i | 0 <= i < |all|
      ensures WordOk(words, all, i) && all[i] in Objects(a, c, Capacity(c))
    {
      ObjectIn(a, c, Capacity(c), i);
      ObjectInside(a, c, all[i]);
    }
  }

  lemma FirstObject(a: nat, c: nat)
    ensures Object(a, c, 0) == a + SLAB_HEADER
    ensures forall k: nat :: Object(a, c, k + 1) == Object(a, c, k) + Size(c)
  {
    forall k: nat
      ensures Object(a, c, k + 1) == Object(a, c, k) + Size(c)
    {
      assert (k + 1) * Size(c) == k * Size(c) + Size(c);
    }
  }

  method InitPage(words0: map<nat, nat>, a: nat, c: nat) returns (words: map<nat, nat>)
    requires a > 0 && c < CACHES
    ensures SlabOk(words, a, Slab(c, a + SLAB_HEADER, 0), AllObjects(a, c, 0, Capacity(c)))
    ensures forall x :: x in words0 && !(a <= x < a + PAGE_SIZE) ==> x in words && words[x] == words0[x]
  {
    hide Size, Objects, AllObjects, Object, SlabOk, Capacity, Threads;
    FirstObject(a, c);
    var maxObjects := Capacity(c);
    words := words0;
    var curr := a + SLAB_HEADER;
    NoThreads(words, a, c);
    for i := 0 to maxObjects - 1
      invariant curr == Object(a, c, i) && Threads(words, a, c, i) && SameOutside(words0, words, a)
    {
      ThreadNext(words, a, c, i, curr + Size(c), words0);
      words := words[curr := curr + Size(c)];
      curr := curr + Size(c);
    }
    ThreadNext(words, a, c, maxObjects - 1, NULL, words0);
    words := words[curr := NULL];
    ThreadEnd(words, a, c);
  }

  lemma NoThreads(words: map<nat, nat>, a: nat, c: nat)
    ensures Threads(words, a, c, 0)
  {
  }

  lemma SlabPop(words: map<nat, nat>, a: nat, s: Slab, free: seq<nat>)
    requires SlabOk(words, a, s, free) && free != []
    ensures s.freeList in words && SlabOk(words - {s.freeList}, a, Slab(s.cache, words[s.freeList], s.inUse + 1), free[1..])
  {
    hide Objects, Capacity;
    ChainPop(words, s.freeList, free);
  }

  lemma SlabPush(words: map<nat, nat>, a: nat, s: Slab, free: seq<nat>, p: nat)
    requires SlabOk(words, a, s, free) && s.inUse > 0 && p in Objects(a, s.cache, Capacity(s.cache)) && p !in free
    ensures SlabOk(words[p := s.freeList], a, Slab(s.cache, p, s.inUse - 1), [p] + free)
  {
    hide Objects, Capacity;
    ObjectInside(a, s.cache, p);
    ChainPush(words, s.freeList, free, p);
  }
}
