/** The page runs of the kernel heap (kernel/mm/heap.c:70-109): what the page table of the heap says
    about each page, and the runs of pages it hands out. */
module HeapPages {
  import opened Base

  datatype PageType = FREE | SLAB | LARGE

  datatype PageInfo = PageInfo(kind: PageType, count: nat)

  /** What a page is used for. `Lost` pages are marked used and belong to nothing. */
  datatype Kind = Meta | Free | Slab | Head(n: nat) | Rest(head: nat) | Lost

  /** The record of a page; the count field has 16 bits. */
  function InfoOf(k: Kind): PageInfo {
    match k
    case Meta => PageInfo(LARGE, 1)
    case Free => PageInfo(FREE, 0)
    case Slab => PageInfo(SLAB, 1)
    case Head(n) => PageInfo(LARGE, n % 0x10000)
    case Rest(_) => PageInfo(LARGE, 0)
    case Lost => PageInfo(LARGE, 0)
  }

  ghost predicate KindOk(kinds: seq<Kind>, meta: nat, i: nat)
    requires i < |kinds|
  {
    && (kinds[i].Meta? <==> i < meta)
    && (kinds[i].Head? ==>
          kinds[i].n > 0 && i + kinds[i].n <= |kinds| && forall j :: i < j < i + kinds[i].n ==> kinds[j] == Rest(i))
    && (kinds[i].Rest? ==> kinds[i].head < i && kinds[kinds[i].head].Head? && i < kinds[i].head + kinds[kinds[i].head].n)
  }

  /** Metadata first; the pages of a run are its head and what follows it. */
  ghost predicate KindsOk(kinds: seq<Kind>, meta: nat) {
    forall i :: 0 <= i < |kinds| ==> KindOk(kinds, meta, i)
  }

  ghost predicate FreeRange(kinds: seq<Kind>, from: nat, n: nat) {
    from + n <= |kinds| && forall j :: from <= j < from + n ==> kinds[j] == Free
  }

  /** `n` pages from `from` on become a slab or a large block. */
  ghost function Taken(kinds: seq<Kind>, from: nat, n: nat, slab: bool): (r: seq<Kind>)
    requires from + n <= |kinds|
    ensures |r| == |kinds|
    ensures forall j :: 0 <= j < |r| ==>
      r[j] == if from <= j < from + n then (if slab then Slab else if j == from then Head(n) else Rest(from)) else kinds[j]
  {
    seq(|kinds|, j requires 0 <= j < |kinds| =>
      if from <= j < from + n then (if slab then Slab else if j == from then Head(n) else Rest(from)) else kinds[j])
  }

  lemma TakenOk(kinds: seq<Kind>, meta: nat, from: nat, n: nat, slab: bool)
    requires KindsOk(kinds, meta) && FreeRange(kinds, from, n) && n > 0
    ensures KindsOk(Taken(kinds, from, n, slab), meta)
  {
    hide Taken;
    var r := Taken(kinds, from, n, slab);
    forall i | 0 <= i < |r|
      ensures KindOk(r, meta, i)
    {
      assert KindOk(kinds, meta, i);
      if !(from <= i < from + n) && kinds[i].Rest? {
        assert kinds[kinds[i].head] != Free;
      }
      if !(from <= i < from + n) && kinds[i].Head? {
        forall j | i < j < i + kinds[i].n
          ensures r[j] == Rest(i)
        {
          assert kinds[j] == Rest(i);
        }
      }
    }
  }

  /** A large block of `n` pages is released: as many pages as the 16-bit count says become free. */
  ghost function Released(kinds: seq<Kind>, from: nat, n: nat): (r: seq<Kind>)
    requires from + n <= |kinds|
    ensures |r| == |kinds|
    ensures forall j :: 0 <= j < |r| ==>
      r[j] == if from <= j < from + n then (if j < from + n % 0x10000 then Free else Lost) else kinds[j]
  {
    seq(|kinds|, j requires 0 <= j < |kinds| =>
      if from <= j < from + n then (if j < from + n % 0x10000 then Free else Lost) else kinds[j])
  }

  lemma ReleasedOk(kinds: seq<Kind>, meta: nat, from: nat, n: nat)
    requires KindsOk(kinds, meta) && from < |kinds| && (kinds[from] == Head(n) || (kinds[from] == Slab && n == 1))
    ensures from + n <= |kinds| && KindsOk(Released(kinds, from, n), meta)
  {
    hide Released;
    assert KindOk(kinds, meta, from);
    var r := Released(kinds, from, n);
    forall i | 0 <= i < |r|
      ensures KindOk(r, meta, i)
    {
      assert KindOk(kinds, meta, i);
      if !(from <= i < from + n) && kinds[i].Head? {
        forall j | i < j < i + kinds[i].n
          ensures r[j] == Rest(i)
        {
          assert kinds[j] == Rest(i);
        }
      }
    }
  }

  /** The pages of a released block are all free again exactly if there were fewer than 65536. */
  lemma ReleasedFree(kinds: seq<Kind>, from: nat, n: nat)
    requires from + n <= |kinds| && n > 0
    ensures FreeRange(Released(kinds, from, n), from, n) <==> n < 0x10000
  {
    hide Released;
    if n >= 0x10000 {
      assert Released(kinds, from, n)[from + n - 1] == Lost;
    }
  }

  /** A block of 65536 pages, 256 MB, taken from an empty heap and released: none of its pages is free. */
  lemma AllLost()
    ensures FreeRange(seq(0x10000, _ => Free), 0, 0x10000)
    ensures var r := Released(Taken(seq(0x10000, _ => Free), 0, 0x10000, false), 0, 0x10000); forall i :: 0 <= i < |r| ==> r[i] == Lost
  {
    hide Released, Taken;
    assert 0x10000 % 0x10000 == 0;
  }

  ghost predicate NoLost(kinds: seq<Kind>) {
    forall i :: 0 <= i < |kinds| ==> !kinds[i].Lost?
  }

  lemma TakenNoLost(kinds: seq<Kind>, from: nat, n: nat, slab: bool)
    requires from + n <= |kinds| && NoLost(kinds)
    ensures NoLost(Taken(kinds, from, n, slab))
  {
  }

  lemma ReleasedNoLost(kinds: seq<Kind>, from: nat, n: nat)
    requires from + n <= |kinds| && NoLost(kinds) && n < 0x10000
    ensures NoLost(Released(kinds, from, n))
  {
  }

  // ---- searching ----

  ghost predicate NoRun(kinds: seq<Kind>, n: nat, before: nat) {
    forall s: nat :: s + n <= before ==> !FreeRange(kinds, s, n)
  }

  lemma NoRunNext(kinds: seq<Kind>, n: nat, i: nat, run: nat)
    requires i < |kinds| && NoRun(kinds, n, i) && run < n && run <= i
    requires run == i || kinds[i - run - 1] != Free
    requires kinds[i] == Free ==> run + 1 < n
    ensures NoRun(kinds, n, i + 1)
  {
    forall s: nat | s + n <= i + 1
      ensures !FreeRange(kinds, s, n)
    {
      if s + n == i + 1 {
        if kinds[i] == Free {
          assert s <= i - run - 1 < s + n;
        } else {
          assert s <= i < s + n;
        }
      }
    }
  }
}
