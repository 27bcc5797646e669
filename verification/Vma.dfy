/** Interval lists of an address space (kernel/mm/vma.c): a list of half-open address ranges
    kept sorted by start. */
module Vma {
  import opened Base
  import opened Pmm

  const USER_SPACE_END: nat := 0x40_0000_0000
  const USER_STACK_TOP: nat := 0x3F_FFFF_0000
  const USER_STACK_SIZE: nat := 8 * 1024 * 1024
  const USER_HEAP_START: nat := 0x1000_0000
  const USER_MMAP_BASE: nat := 0x20_0000_0000
  // Addresses are 64-bit: sums wrap around.
  const WORD: nat := 0x1_0000_0000_0000_0000

  const VMA_READ: bv32 := 1
  const VMA_WRITE: bv32 := 2
  const VMA_EXEC: bv32 := 4
  const VMA_SHARED: bv32 := 8
  const VMA_GROWSDN: bv32 := 64

  datatype VmaType = Anonymous | File | Device

  datatype Vma = Vma(start: nat, end: nat, flags: bv32, kind: VmaType, file: Option<nat>, pgoff: nat) {
    predicate Contains(addr: nat) {
      start <= addr < end
    }

    /** vma_insert's overlap test. */
    predicate Overlaps(lo: nat, hi: nat) {
      !(hi <= start || lo >= end)
    }

    predicate Has(flag: bv32) {
      flags & flag != 0
    }

    predicate Aligned() {
      start % PAGE_SIZE == 0 && end % PAGE_SIZE == 0
    }
  }

  /** vma_create, apart from running out of memory. */
  function VmaCreate(start: nat, end: nat, flags: bv32, kind: VmaType): Option<Vma> {
    if start >= end || end > USER_SPACE_END then None
    else Some(Vma(start, end, flags, kind, None, 0))
  }

  ghost predicate VmaOk(v: Vma) {
    v.start < v.end <= USER_SPACE_END && v.Aligned()
  }

  ghost predicate NoDevices(l: seq<Vma>) {
    forall i :: 0 <= i < |l| ==> l[i].kind != Device
  }

  /** Sorted, disjoint, page aligned, inside user space. */
  ghost predicate ListOk(l: seq<Vma>) {
    && (forall i :: 0 <= i < |l| ==> VmaOk(l[i]))
    && (forall i, j :: 0 <= i < j < |l| ==> l[i].end <= l[j].start)
  }

  /** The entry vma_find returns for `addr`: the first that contains it. */
  ghost function Find(l: seq<Vma>, addr: nat): (r: Option<Vma>)
    ensures r.Some? ==> r.value in l && r.value.Contains(addr)
  {
    if l == [] then None
    else if l[0].Contains(addr) then Some(l[0])
    else Find(l[1..], addr)
  }

  lemma {:induction false} FindNone(l: seq<Vma>, addr: nat)
    ensures Find(l, addr).None? <==> forall i :: 0 <= i < |l| ==> !l[i].Contains(addr)
  {
    if l != [] {
      FindNone(l[1..], addr);
      assert forall i :: 0 < i < |l| ==> l[i] == l[1..][i - 1];
      assert forall i :: 0 <= i < |l| - 1 ==> l[1..][i] == l[i + 1];
    }
  }

  /** In an ordered list the entry containing an address is unique, so order of search is immaterial. */
  lemma {:induction false} FindIs(l: seq<Vma>, addr: nat, i: nat)
    requires ListOk(l) && i < |l| && l[i].Contains(addr)
    ensures Find(l, addr) == Some(l[i])
  {
    if i > 0 {
      FindIs(l[1..], addr, i - 1);
    }
  }

  lemma {:induction false} FindConcat(a: seq<Vma>, b: seq<Vma>, addr: nat)
    ensures Find(a + b, addr) == if Find(a, addr).Some? then Find(a, addr) else Find(b, addr)
  {
    if a == [] {
      assert a + b == b;
    } else {
      FindConcat(a[1..], b, addr);
      assert (a + b)[1..] == a[1..] + b;
    }
  }

  ghost predicate FreeAt(l: seq<Vma>, addr: nat, length: nat) {
    forall i :: 0 <= i < |l| ==> !l[i].Overlaps(addr, addr + length)
  }

  // ---- insertion ----

  /** vma_insert's place for a range that overlaps nothing. */
  ghost function Insert(l: seq<Vma>, v: Vma): seq<Vma> {
    if l == [] || v.start <= l[0].start then [v] + l
    else [l[0]] + Insert(l[1..], v)
  }

  lemma {:induction false} InsertOk(l: seq<Vma>, v: Vma)
    requires ListOk(l) && VmaOk(v) && FreeAt(l, v.start, v.end - v.start)
    ensures ListOk(Insert(l, v))
    ensures forall x :: x in Insert(l, v) <==> x in l || x == v
  {
    if l != [] && v.start > l[0].start {
      var tail := l[1..];
      InsertOk(tail, v);
      var r := Insert(l, v);
      assert r == [l[0]] + Insert(tail, v);
      forall j | 0 < j < |r|
        ensures l[0].end <= r[j].start
      {
        assert r[j] in Insert(tail, v);
      }
      assert l == [l[0]] + tail;
    }
  }

  /** After an insertion the new range answers for its own addresses and nothing else changes. */
  lemma {:induction false} InsertFind(l: seq<Vma>, v: Vma, addr: nat)
    requires ListOk(l) && VmaOk(v) && FreeAt(l, v.start, v.end - v.start)
    ensures Find(Insert(l, v), addr) == if v.Contains(addr) then Some(v) else Find(l, addr)
  {
    InsertOk(l, v);
    var r := Insert(l, v);
    if v.Contains(addr) {
      assert v in r;
      var i :| 0 <= i < |r| && r[i] == v;
      FindIs(r, addr, i);
    } else if Find(l, addr).Some? {
      var x := Find(l, addr).value;
      var i :| 0 <= i < |r| && r[i] == x;
      FindIs(r, addr, i);
    } else {
      FindNone(l, addr);
      FindNone(r, addr);
      forall i | 0 <= i < |r|
        ensures !r[i].Contains(addr)
      {
        assert r[i] in r;
      }
    }
  }

  // ---- removal of a range ----

  /** What vma_unmap leaves of one entry. The cut-off right part of a hole loses its file. */
  ghost function Trim(v: Vma, lo: nat, hi: nat): seq<Vma> {
    if v.end <= lo || v.start >= hi then [v]
    else if lo <= v.start && hi >= v.end then []
    else if lo <= v.start then [v.(start := hi)]
    else if hi >= v.end then [v.(end := lo)]
    else [v.(end := lo), Vma(hi, v.end, v.flags, v.kind, None, 0)]
  }

  ghost function Unmapped(l: seq<Vma>, lo: nat, hi: nat): seq<Vma> {
    if l == [] then [] else Trim(l[0], lo, hi) + Unmapped(l[1..], lo, hi)
  }

  lemma {:induction false} UnmappedConcat(a: seq<Vma>, b: seq<Vma>, lo: nat, hi: nat)
    ensures Unmapped(a + b, lo, hi) == Unmapped(a, lo, hi) + Unmapped(b, lo, hi)
  {
    hide Trim;
    if a == [] {
      assert a + b == b;
    } else {
      UnmappedConcat(a[1..], b, lo, hi);
      assert (a + b)[1..] == a[1..] + b && (a + b)[0] == a[0];
      var head, rest, tail := Trim(a[0], lo, hi), Unmapped(a[1..], lo, hi), Unmapped(b, lo, hi);
      assert Unmapped(a + b, lo, hi) == head + (rest + tail);
      assert head + (rest + tail) == (head + rest) + tail;
    }
  }

  lemma JoinOk(a: seq<Vma>, b: seq<Vma>, limit: nat)
    requires ListOk(a) && ListOk(b)
    requires forall i :: 0 <= i < |a| ==> a[i].end <= limit
    requires forall i :: 0 <= i < |b| ==> limit <= b[i].start
    ensures ListOk(a + b)
  {
  }

  lemma TrimOk(v: Vma, lo: nat, hi: nat)
    requires VmaOk(v) && lo < hi && lo % PAGE_SIZE == 0 && hi % PAGE_SIZE == 0
    ensures ListOk(Trim(v, lo, hi))
    ensures forall i :: 0 <= i < |Trim(v, lo, hi)| ==>
      v.start <= Trim(v, lo, hi)[i].start && Trim(v, lo, hi)[i].end <= v.end
  {
  }

  lemma {:induction false} UnmappedOk(l: seq<Vma>, lo: nat, hi: nat, limit: nat)
    requires ListOk(l) && lo < hi && lo % PAGE_SIZE == 0 && hi % PAGE_SIZE == 0
    requires l != [] ==> limit <= l[0].start
    ensures ListOk(Unmapped(l, lo, hi))
    ensures forall i :: 0 <= i < |Unmapped(l, lo, hi)| ==> limit <= Unmapped(l, lo, hi)[i].start
  {
    if l != [] {
      TrimOk(l[0], lo, hi);
      UnmappedOk(l[1..], lo, hi, l[0].end);
      JoinOk(Trim(l[0], lo, hi), Unmapped(l[1..], lo, hi), l[0].end);
    }
  }

  /** The two entries agree on everything that decides access. */
  ghost predicate SameRights(a: Option<Vma>, b: Option<Vma>) {
    a.Some? == b.Some? && (a.Some? ==> a.value.flags == b.value.flags && a.value.kind == b.value.kind)
  }

  /** Coverage after unmapping is the old coverage minus the range, with the same rights. */
  lemma {:induction false} UnmappedFind(l: seq<Vma>, lo: nat, hi: nat, addr: nat)
    requires lo < hi
    ensures lo <= addr < hi ==> Find(Unmapped(l, lo, hi), addr).None?
    ensures !(lo <= addr < hi) ==> SameRights(Find(Unmapped(l, lo, hi), addr), Find(l, addr))
  {
    if l != [] {
      UnmappedFind(l[1..], lo, hi, addr);
      var head := Trim(l[0], lo, hi);
      FindConcat(head, Unmapped(l[1..], lo, hi), addr);
      if |head| == 2 {
        assert head[1..] == [head[1]];
        assert Find(head[1..], addr) == if head[1].Contains(addr) then Some(head[1]) else None;
      }
    }
  }

  /** A range that touches nothing removes nothing. */
  lemma {:induction false} UnmappedFree(l: seq<Vma>, lo: nat, hi: nat)
    requires lo < hi && FreeAt(l, lo, hi - lo)
    ensures Unmapped(l, lo, hi) == l
  {
    if l != [] {
      assert l[0] in l;
      UnmappedFree(l[1..], lo, hi);
    }
  }

  // ---- choosing a free range ----

  /** The address vma_allocate settles on when no hint is given; sums wrap at 64 bits. */
  ghost function FirstFit(l: seq<Vma>, addr: nat, length: nat): nat {
    if l == [] || (addr + length) % WORD <= l[0].start then addr
    else FirstFit(l[1..], if addr < l[0].end then l[0].end else addr, length)
  }

  lemma {:induction false} FirstFitBounds(l: seq<Vma>, addr: nat, length: nat)
    requires ListOk(l)
    ensures FirstFit(l, addr, length) >= addr
    ensures addr <= USER_SPACE_END ==> FirstFit(l, addr, length) <= USER_SPACE_END
    ensures addr % PAGE_SIZE == 0 ==> FirstFit(l, addr, length) % PAGE_SIZE == 0
  {
    if l != [] {
      FirstFitBounds(l[1..], if addr < l[0].end then l[0].end else addr, length);
    }
  }

  /** The chosen range is free. */
  lemma {:induction false} FirstFitFree(l: seq<Vma>, addr: nat, length: nat)
    requires ListOk(l) && 0 < length <= USER_SPACE_END && addr <= USER_SPACE_END
    ensures FreeAt(l, FirstFit(l, addr, length), length)
  {
    if l == [] {
    } else if (addr + length) % WORD <= l[0].start {
      assert addr + length <= l[0].start;
    } else {
      var next := if addr < l[0].end then l[0].end else addr;
      FirstFitBounds(l[1..], next, length);
      FirstFitFree(l[1..], next, length);
      assert forall i :: 0 < i < |l| ==> l[i] == l[1..][i - 1];
    }
  }

  /** No free range starts lower. */
  lemma {:induction false} FirstFitLowest(l: seq<Vma>, addr: nat, length: nat, b: nat)
    requires ListOk(l) && 0 < length <= USER_SPACE_END && addr <= USER_SPACE_END
    requires addr <= b && FreeAt(l, b, length)
    ensures FirstFit(l, addr, length) <= b
  {
    if l != [] && (addr + length) % WORD > l[0].start {
      assert !l[0].Overlaps(b, b + length);
      assert addr + length > l[0].start;
      assert forall i :: 0 <= i < |l| - 1 ==> l[1..][i] == l[i + 1];
      FirstFitLowest(l[1..], if addr < l[0].end then l[0].end else addr, length, b);
    }
  }

  /** Page-aligned entries contain a whole page or none of it. */
  lemma {:induction false} FindPage(l: seq<Vma>, addr: nat)
    requires ListOk(l)
    ensures Find(l, addr) == Find(l, addr / PAGE_SIZE * PAGE_SIZE)
  {
    if l != [] {
      FindPage(l[1..], addr);
      assert l[0].Contains(addr) <==> l[0].Contains(addr / PAGE_SIZE * PAGE_SIZE);
    }
  }

  // ---- stack growth ----

  ghost predicate IsGrowsDown(l: seq<Vma>, i: nat) {
    i < |l| && l[i].Has(VMA_GROWSDN) && forall j :: 0 <= j < i ==> !l[j].Has(VMA_GROWSDN)
  }

  /** vma_expand_stack moves the start of one entry. */
  ghost function Restarted(l: seq<Vma>, i: nat, newStart: nat): seq<Vma>
    requires i < |l|
  {
    l[i := l[i].(start := newStart)]
  }

  predicate GapBelow(l: seq<Vma>, i: nat, newStart: nat)
    requires i < |l|
  {
    newStart < l[i].start && (i > 0 ==> l[i - 1].end <= newStart)
  }

  lemma ExpandOk(l: seq<Vma>, i: nat, newStart: nat)
    requires ListOk(l) && i < |l| && newStart % PAGE_SIZE == 0 && GapBelow(l, i, newStart)
    ensures ListOk(Restarted(l, i, newStart))
  {
    var l' := Restarted(l, i, newStart);
    forall j, k | 0 <= j < k < |l'|
      ensures l'[j].end <= l'[k].start
    {
      if k == i && j < i - 1 {
        assert l[j].end <= l[i - 1].start;
      }
    }
  }

  /** Moving the start of the stack entry down to the faulting page is sound exactly when the page
      lies below the entry and nothing reaches into the gap. The code checks neither. */
  lemma ExpandOkIff(l: seq<Vma>, i: nat, addr: nat)
    requires ListOk(l) && i < |l| && Find(l, addr).None?
    ensures ListOk(Restarted(l, i, addr / PAGE_SIZE * PAGE_SIZE)) <==> GapBelow(l, i, addr / PAGE_SIZE * PAGE_SIZE)
  {
    hide Find;
    var newStart := addr / PAGE_SIZE * PAGE_SIZE;
    var l' := Restarted(l, i, newStart);
    if GapBelow(l, i, newStart) {
      ExpandOk(l, i, newStart);
    } else if i > 0 && l[i - 1].end > newStart {
      assert l'[i - 1].end > l'[i].start;
    } else {
      PageOutside(l, i, addr);
      assert !VmaOk(l'[i]);
    }
  }

  lemma PageOutside(l: seq<Vma>, i: nat, addr: nat)
    requires ListOk(l) && i < |l| && Find(l, addr).None?
    ensures addr / PAGE_SIZE * PAGE_SIZE < l[i].start || addr / PAGE_SIZE * PAGE_SIZE >= l[i].end
  {
    FindPage(l, addr);
    FindNone(l, addr / PAGE_SIZE * PAGE_SIZE);
    assert !l[i].Contains(addr / PAGE_SIZE * PAGE_SIZE);
  }

  /** A stack cut off at its top makes growth turn the entry inside out. */
  lemma ExpandUpwardsBreaks()
    ensures
      var cut := Vma(USER_STACK_TOP - USER_STACK_SIZE, USER_STACK_TOP - PAGE_SIZE, VMA_READ | VMA_WRITE | VMA_GROWSDN, Anonymous, None, 0);
      && ListOk([cut])
      && Find([cut], USER_STACK_TOP - 1).None?
      && !ListOk(Restarted([cut], 0, (USER_STACK_TOP - 1) / PAGE_SIZE * PAGE_SIZE))
  {
    var cut := Vma(USER_STACK_TOP - USER_STACK_SIZE, USER_STACK_TOP - PAGE_SIZE, VMA_READ | VMA_WRITE | VMA_GROWSDN, Anonymous, None, 0);
    assert Find([cut][1..], USER_STACK_TOP - 1).None?;
    ExpandOkIff([cut], 0, USER_STACK_TOP - 1);
  }

  /** Growth keeps every covered address and adds exactly the gap. */
  lemma ExpandFind(l: seq<Vma>, i: nat, newStart: nat, addr: nat)
    requires ListOk(l) && i < |l| && newStart < l[i].start
    requires ListOk(Restarted(l, i, newStart))
    ensures newStart <= addr < l[i].start ==> Find(l, addr).None?
    ensures !(newStart <= addr < l[i].start) ==>
      SameRights(Find(Restarted(l, i, newStart), addr), Find(l, addr))
  {
    var l' := Restarted(l, i, newStart);
    FindNone(l, addr);
    FindNone(l', addr);
    if Find(l, addr).Some? {
      var j :| 0 <= j < |l| && l[j].Contains(addr);
      FindIs(l, addr, j);
      assert l'[j].Contains(addr);
      FindIs(l', addr, j);
      assert j != i ==> j < i ==> l'[j].end <= l'[i].start;
      assert j != i ==> j > i ==> l'[i].end <= l'[j].start;
    } else if !(newStart <= addr < l[i].start) {
      assert forall j :: 0 <= j < |l| && !l[j].Contains(addr) ==> !l'[j].Contains(addr);
    }
  }

  // ---- the list walks of vma.c ----

  method FindVma(l: seq<Vma>, addr: nat) returns (r: Option<Vma>)
    ensures r == Find(l, addr)
  {
    var i := 0;
    while i < |l|
      invariant 0 <= i <= |l|
      invariant Find(l, addr) == Find(l[i..], addr)
    {
      if l[i].Contains(addr) {
        return Some(l[i]);
      }
      assert l[i..][1..] == l[i + 1..];
      i := i + 1;
    }
    return None;
  }

  lemma {:induction false} InsertAt(l: seq<Vma>, v: Vma, j: nat)
    requires j <= |l|
    requires forall i :: 0 <= i < j ==> l[i].start < v.start
    requires j < |l| ==> v.start <= l[j].start
    ensures Insert(l, v) == l[..j] + [v] + l[j..]
  {
    if j > 0 {
      InsertAt(l[1..], v, j - 1);
      assert l[1..][..j - 1] == l[1..j] && l[1..][j - 1..] == l[j..];
      assert l[..j] == [l[0]] + l[1..j];
    } else {
      assert l[..0] + [v] + l[0..] == [v] + l;
    }
  }

  /** vma_insert's first pass. */
  method IsFree(l: seq<Vma>, v: Vma) returns (free: bool)
    requires v.start < v.end
    ensures free <==> FreeAt(l, v.start, v.end - v.start)
  {
    var i := 0;
    while i < |l|
      invariant 0 <= i <= |l|
      invariant forall j :: 0 <= j < i ==> !l[j].Overlaps(v.start, v.end)
    {
      if l[i].Overlaps(v.start, v.end) {
        assert l[i].Overlaps(v.start, v.start + (v.end - v.start));
        return false;
      }
      i := i + 1;
    }
    return true;
  }

  /** vma_insert: refuses an overlap, otherwise links the entry in at its place. */
  method InsertVma(l: seq<Vma>, v: Vma) returns (ok: bool, l': seq<Vma>)
    requires ListOk(l) && VmaOk(v)
    ensures ok <==> FreeAt(l, v.start, v.end - v.start)
    ensures l' == if ok then Insert(l, v) else l
  {
    var free := IsFree(l, v);
    if !free {
      return false, l;
    }
    if |l| == 0 || v.start < l[0].start {
      return true, [v] + l;
    }
    assert !l[0].Overlaps(v.start, v.start + (v.end - v.start));
    var prev := 0;
    while prev + 1 < |l| && l[prev + 1].start < v.start
      invariant 0 <= prev < |l|
      invariant l[prev].start < v.start
    {
      prev := prev + 1;
    }
    InsertAt(l, v, prev + 1);
    return true, l[..prev + 1] + [v] + l[prev + 1..];
  }

  /** The search for free space in vma_allocate. */
  method FindFree(l: seq<Vma>, base: nat, length: nat) returns (addr: nat)
    ensures addr == FirstFit(l, base, length)
  {
    addr := base;
    var i := 0;
    while i < |l|
      invariant 0 <= i <= |l|
      invariant FirstFit(l, base, length) == FirstFit(l[i..], addr, length)
    {
      if (addr + length) % WORD <= l[i].start {
        return;
      }
      if addr < l[i].end {
        addr := l[i].end;
      }
      assert l[i..][1..] == l[i + 1..];
      i := i + 1;
    }
  }

  // ---- unmapping one entry at a time ----

  /** The list with one entry trimmed in place. */
  ghost function Replaced(l: seq<Vma>, pos: nat, lo: nat, hi: nat): seq<Vma>
    requires pos < |l|
  {
    l[..pos] + Trim(l[pos], lo, hi) + l[pos + 1..]
  }

  lemma ReplacedKinds(l: seq<Vma>, pos: nat, lo: nat, hi: nat)
    requires pos < |l| && NoDevices(l)
    ensures NoDevices(Replaced(l, pos, lo, hi))
  {
    hide Trim;
    TrimKinds(l[pos], lo, hi);
  }

  lemma TrimKinds(v: Vma, lo: nat, hi: nat)
    ensures forall i :: 0 <= i < |Trim(v, lo, hi)| ==> Trim(v, lo, hi)[i].kind == v.kind
  {
  }

  lemma ReplacedOk(l: seq<Vma>, pos: nat, lo: nat, hi: nat)
    requires ListOk(l) && pos < |l| && lo < hi && lo % PAGE_SIZE == 0 && hi % PAGE_SIZE == 0
    ensures ListOk(Replaced(l, pos, lo, hi))
  {
    TrimOk(l[pos], lo, hi);
    JoinOk(l[..pos], Trim(l[pos], lo, hi), l[pos].start);
    JoinOk(l[..pos] + Trim(l[pos], lo, hi), l[pos + 1..], l[pos].end);
  }

  lemma FindSingle(v: Vma, addr: nat)
    ensures Find([v], addr) == if v.Contains(addr) then Some(v) else None
  {
    assert [v][1..] == [];
  }

  lemma TrimFind(v: Vma, lo: nat, hi: nat, addr: nat)
    requires lo < hi
    ensures SameRights(Find(Trim(v, lo, hi), addr), if v.Contains(addr) && !(lo <= addr < hi) then Some(v) else None)
  {
    var head := Trim(v, lo, hi);
    if |head| == 2 {
      assert head == [head[0]] + [head[1]];
      FindConcat([head[0]], [head[1]], addr);
      FindSingle(head[0], addr);
      FindSingle(head[1], addr);
    } else if |head| == 1 {
      FindSingle(head[0], addr);
    }
  }

  /** Trimming an entry changes the answer only for addresses it takes away. */
  lemma ReplacedFind(l: seq<Vma>, pos: nat, lo: nat, hi: nat, addr: nat)
    requires ListOk(l) && pos < |l| && lo < hi
    requires !(l[pos].Contains(addr) && lo <= addr < hi)
    ensures SameRights(Find(Replaced(l, pos, lo, hi), addr), Find(l, addr))
  {
    hide Find, Trim, ListOk;
    var before, head, after := l[..pos], Trim(l[pos], lo, hi), l[pos + 1..];
    assert l == before + ([l[pos]] + after);
    FindConcat(before, [l[pos]] + after, addr);
    FindConcat([l[pos]], after, addr);
    FindSingle(l[pos], addr);
    assert Replaced(l, pos, lo, hi) == before + (head + after);
    FindConcat(before, head + after, addr);
    FindConcat(head, after, addr);
    TrimFind(l[pos], lo, hi, addr);
  }

  lemma UnmappedStep(l: seq<Vma>, n: nat, lo: nat, hi: nat)
    requires n < |l|
    ensures Unmapped(l[..n + 1], lo, hi) == Unmapped(l[..n], lo, hi) + Trim(l[n], lo, hi)
    ensures l[n..] == [l[n]] + l[n + 1..]
  {
    assert l[..n + 1] == l[..n] + [l[n]];
    UnmappedConcat(l[..n], [l[n]], lo, hi);
    assert [l[n]][1..] == [];
    assert Unmapped([l[n]], lo, hi) == Trim(l[n], lo, hi) + Unmapped([], lo, hi);
  }
}
