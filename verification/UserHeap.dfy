/** The user heap (user/src/stdlib.c:9-140): a doubly linked list of blocks that tiles the mapped
    regions, with first fit, splitting and coalescing. */
module UserHeap {
  import opened Base
  import Vma

  const HEADER: nat := 32
  const ALIGNMENT: nat := 16
  const U64: nat := 0x1_0000_0000_0000_0000

  /** A block header in memory. */
  datatype Header = Header(size: nat, next: nat, prev: nat, free: bool)

  type Memory = map<nat, Header>

  /** A block of the list: where it is, its payload size and whether it is free. */
  datatype Cell = Cell(addr: nat, size: nat, free: bool)

  datatype Region = Region(start: nat, length: nat)

  function End(c: Cell): nat {
    c.addr + HEADER + c.size
  }

  predicate Fits(c: Cell, size: nat) {
    c.free && c.size >= size
  }

  function AddrAt(cells: seq<Cell>, i: int): nat {
    if 0 <= i < |cells| then cells[i].addr else NULL
  }

  // ---- layout ----

  predicate Aligned(n: int) {
    n % ALIGNMENT == 0
  }

  lemma AlignedSum(a: int, b: int)
    requires Aligned(a) && Aligned(b)
    ensures Aligned(a + b) && Aligned(a - b) && Aligned(a + HEADER) && Aligned(a + b + HEADER) && Aligned(a - b - HEADER)
  {
    var i, j := a / ALIGNMENT, b / ALIGNMENT;
    assert a == ALIGNMENT * i && b == ALIGNMENT * j;
    Multiples(i + j);
    Multiples(i - j);
    Multiples(i + 2);
    Multiples(i + j + 2);
    Multiples(i - j - 2);
  }

  lemma Multiples(k: int)
    ensures Aligned(ALIGNMENT * k)
  {
  }

  predicate Apart(c: Cell, d: Cell) {
    End(c) <= d.addr || End(d) <= c.addr
  }

  /** Blocks are aligned and do not overlap. */
  ghost predicate Layout(cells: seq<Cell>) {
    && (forall i :: 0 <= i < |cells| ==> cells[i].addr > 0 && Aligned(cells[i].addr) && Aligned(cells[i].size))
    && (forall i, j :: 0 <= i < j < |cells| ==> Apart(cells[i], cells[j]))
  }

  /** Block `i` and its successor are not both free and touching. */
  predicate PairOk(cells: seq<Cell>, i: int) {
    0 <= i < |cells| - 1 ==> !(cells[i].free && cells[i + 1].free && End(cells[i]) == cells[i + 1].addr)
  }

  /** No two list neighbours that touch are both free. */
  ghost predicate Coalesced(cells: seq<Cell>) {
    forall i :: PairOk(cells, i)
  }

  ghost predicate Covered(cells: seq<Cell>, x: nat) {
    exists i :: 0 <= i < |cells| && cells[i].addr <= x < End(cells[i])
  }

  ghost predicate Mapped(regions: seq<Region>, x: nat) {
    exists i :: 0 <= i < |regions| && regions[i].start <= x < regions[i].start + regions[i].length
  }

  ghost predicate Tiles(cells: seq<Cell>, regions: seq<Region>) {
    forall x: nat :: Covered(cells, x) <==> Mapped(regions, x)
  }

  /** The blocks handed out: header address and payload size. */
  ghost function Live(cells: seq<Cell>): set<(nat, nat)> {
    set i | 0 <= i < |cells| && !cells[i].free :: (cells[i].addr, cells[i].size)
  }

  /** Payloads handed out are aligned and disjoint. */
  lemma LiveDisjoint(cells: seq<Cell>, b: (nat, nat), c: (nat, nat))
    requires Layout(cells) && b in Live(cells) && c in Live(cells)
    ensures Aligned(b.0 + HEADER)
    ensures b == c || b.0 + HEADER + b.1 <= c.0 || c.0 + HEADER + c.1 <= b.0
  {
    hide Aligned;
    var i :| 0 <= i < |cells| && !cells[i].free && b == (cells[i].addr, cells[i].size);
    var j :| 0 <= j < |cells| && !cells[j].free && c == (cells[j].addr, cells[j].size);
    AlignedSum(cells[i].addr, cells[i].size);
    assert i < j ==> Apart(cells[i], cells[j]);
    assert j < i ==> Apart(cells[j], cells[i]);
  }

  // ---- links ----

  ghost predicate LinkOk(h: Memory, cells: seq<Cell>, i: nat)
    requires i < |cells|
  {
    && cells[i].addr in h
    && h[cells[i].addr] == Header(cells[i].size, AddrAt(cells, i + 1), AddrAt(cells, i - 1), cells[i].free)
  }

  ghost predicate Linked(h: Memory, base: nat, cells: seq<Cell>) {
    base == AddrAt(cells, 0) && forall i :: 0 <= i < |cells| ==> LinkOk(h, cells, i)
  }

  lemma Distinct(cells: seq<Cell>, i: nat, j: nat)
    requires Layout(cells) && i < |cells| && j < |cells| && i != j
    ensures cells[i].addr != cells[j].addr
  {
    hide Aligned;
    if i < j {
      assert Apart(cells[i], cells[j]);
    } else {
      assert Apart(cells[j], cells[i]);
    }
  }

  // ---- splitting ----

  /** Block `i` cut after `size` bytes of payload; the rest is a free block of its own. */
  ghost function Cut(cells: seq<Cell>, i: nat, size: nat): seq<Cell>
    requires i < |cells| && size + HEADER <= cells[i].size
  {
    cells[..i] + [Cell(cells[i].addr, size, cells[i].free), Cell(cells[i].addr + HEADER + size, cells[i].size - size - HEADER, true)] + cells[i + 1..]
  }

  lemma CutAt(cells: seq<Cell>, i: nat, size: nat, j: nat)
    requires i < |cells| && size + HEADER <= cells[i].size && j < |cells| + 1
    ensures |Cut(cells, i, size)| == |cells| + 1
    ensures Cut(cells, i, size)[j] ==
      if j < i then cells[j]
      else if j == i then Cell(cells[i].addr, size, cells[i].free)
      else if j == i + 1 then Cell(cells[i].addr + HEADER + size, cells[i].size - size - HEADER, true)
      else cells[j - 1]
  {
  }

  lemma CutLayout(cells: seq<Cell>, i: nat, size: nat)
    requires Layout(cells) && i < |cells| && size + HEADER <= cells[i].size && Aligned(size)
    ensures Layout(Cut(cells, i, size))
  {
    hide Cut, Apart, Aligned;
    var cut := Cut(cells, i, size);
    CutAt(cells, i, size, 0);
    forall j | 0 <= j < |cut|
      ensures cut[j].addr > 0 && Aligned(cut[j].addr) && Aligned(cut[j].size)
    {
      CutAt(cells, i, size, j);
      AlignedSum(cells[i].addr, size);
      AlignedSum(cells[i].size, size);
    }
    forall j, k | 0 <= j < k < |cut|
      ensures Apart(cut[j], cut[k])
    {
      CutApart(cells, i, size, j, k);
    }
  }

  lemma CutApart(cells: seq<Cell>, i: nat, size: nat, j: nat, k: nat)
    requires Layout(cells) && i < |cells| && size + HEADER <= cells[i].size && j < k < |Cut(cells, i, size)|
    ensures Apart(Cut(cells, i, size)[j], Cut(cells, i, size)[k])
  {
    hide Cut, Aligned;
    CutAt(cells, i, size, 0);
    CutAt(cells, i, size, j);
    CutAt(cells, i, size, k);
    var j', k' := if j <= i then j else j - 1, if k <= i then k else k - 1;
    assert j' < k' ==> Apart(cells[j'], cells[k']);
  }

  lemma CutCovers(cells: seq<Cell>, i: nat, size: nat, x: nat)
    requires i < |cells| && size + HEADER <= cells[i].size
    ensures Covered(Cut(cells, i, size), x) <==> Covered(cells, x)
  {
    hide Cut;
    var cut := Cut(cells, i, size);
    CutAt(cells, i, size, 0);
    if Covered(cells, x) {
      var j :| 0 <= j < |cells| && cells[j].addr <= x < End(cells[j]);
      var k := if j < i then j else if j > i then j + 1 else if x < cells[i].addr + HEADER + size then i else i + 1;
      CutAt(cells, i, size, k);
      assert cut[k].addr <= x < End(cut[k]);
    }
    if Covered(cut, x) {
      var k :| 0 <= k < |cut| && cut[k].addr <= x < End(cut[k]);
      CutAt(cells, i, size, k);
      var j := if k <= i then k else k - 1;
      assert cells[j].addr <= x < End(cells[j]);
    }
  }

  /** The memory after split_block has cut block `b`. */
  function CutMemory(h: Memory, b: nat, size: nat): Memory
    requires b in h && size + HEADER <= h[b].size
  {
    var rest := b + HEADER + size;
    var next := h[b].next;
    var h1 := h[rest := Header(h[b].size - size - HEADER, next, b, true)];
    var h2 := if next != NULL && next in h1 then h1[next := h1[next].(prev := rest)] else h1;
    h2[b := Header(size, rest, h[b].prev, h[b].free)]
  }

  lemma CutFresh(cells: seq<Cell>, i: nat, size: nat, j: nat)
    requires Layout(cells) && i < |cells| && size + HEADER <= cells[i].size && j < |cells|
    ensures cells[j].addr != cells[i].addr + HEADER + size && cells[i].addr + HEADER + size != NULL
  {
    hide Aligned;
    assert i < j ==> Apart(cells[i], cells[j]);
    assert j < i ==> Apart(cells[j], cells[i]);
  }

  lemma CutLinkAt(h: Memory, base: nat, cells: seq<Cell>, i: nat, size: nat, j: nat)
    requires Linked(h, base, cells) && Layout(cells) && i < |cells| && size + HEADER <= cells[i].size && j <= |cells|
    requires cells[i].addr in h && h[cells[i].addr].size == cells[i].size
    ensures |Cut(cells, i, size)| == |cells| + 1 && LinkOk(CutMemory(h, cells[i].addr, size), Cut(cells, i, size), j)
  {
    hide Cut, Layout, Linked;
    Links(h, base, cells, i);
    CutFresh(cells, i, size, i);
    var j' := if j <= i then j else j - 1;
    Links(h, base, cells, j');
    CutFresh(cells, i, size, j');
    if j' != i {
      Distinct(cells, i, j');
    }
    if i + 1 < |cells| {
      Links(h, base, cells, i + 1);
      Positive(cells, i + 1);
      CutFresh(cells, i, size, i + 1);
      if j' != i + 1 {
        Distinct(cells, i + 1, j');
      }
    }
    CutAddr(cells, i, size, j + 1);
    CutAddr(cells, i, size, j - 1);
    CutAt(cells, i, size, j);
  }

  lemma CutAddr(cells: seq<Cell>, i: nat, size: nat, j: int)
    requires i < |cells| && size + HEADER <= cells[i].size
    ensures AddrAt(Cut(cells, i, size), j) ==
      if j <= i then AddrAt(cells, j) else if j == i + 1 then cells[i].addr + HEADER + size else AddrAt(cells, j - 1)
  {
  }

  lemma Positive(cells: seq<Cell>, i: nat)
    requires Layout(cells) && i < |cells|
    ensures cells[i].addr > 0
  {
  }

  lemma Links(h: Memory, base: nat, cells: seq<Cell>, i: nat)
    requires Linked(h, base, cells) && i < |cells|
    ensures LinkOk(h, cells, i)
  {
  }

  lemma CutLinked(h: Memory, base: nat, cells: seq<Cell>, i: nat, size: nat)
    requires Linked(h, base, cells) && Layout(cells) && i < |cells| && size + HEADER <= cells[i].size
    requires cells[i].addr in h && h[cells[i].addr].size == cells[i].size
    ensures Linked(CutMemory(h, cells[i].addr, size), base, Cut(cells, i, size))
  {
    hide Cut, Layout, LinkOk, CutMemory;
    CutAddr(cells, i, size, 0);
    CutAt(cells, i, size, 0);
    forall j | 0 <= j <= |cells|
      ensures LinkOk(CutMemory(h, cells[i].addr, size), Cut(cells, i, size), j)
    {
      CutLinkAt(h, base, cells, i, size, j);
    }
  }

  lemma CutLive(cells: seq<Cell>, i: nat, size: nat)
    requires i < |cells| && size + HEADER <= cells[i].size && cells[i].free
    ensures Live(Cut(cells, i, size)) == Live(cells)
  {
    hide Cut;
    var cut := Cut(cells, i, size);
    CutAt(cells, i, size, 0);
    forall b | b in Live(cells)
      ensures b in Live(cut)
    {
      var j :| 0 <= j < |cells| && !cells[j].free && b == (cells[j].addr, cells[j].size);
      CutAt(cells, i, size, if j < i then j else j + 1);
    }
    forall b | b in Live(cut)
      ensures b in Live(cells)
    {
      var k :| 0 <= k < |cut| && !cut[k].free && b == (cut[k].addr, cut[k].size);
      CutAt(cells, i, size, k);
    }
  }

  // ---- merging ----

  /** Blocks `i` and `i + 1` as one. */
  ghost function Merged(cells: seq<Cell>, i: nat): seq<Cell>
    requires i + 1 < |cells|
  {
    cells[..i] + [Cell(cells[i].addr, cells[i].size + HEADER + cells[i + 1].size, cells[i].free)] + cells[i + 2..]
  }

  /** Merging undoes cutting. */
  lemma MergedCut(cells: seq<Cell>, i: nat)
    requires i + 1 < |cells| && cells[i + 1].free && End(cells[i]) == cells[i + 1].addr
    ensures |Merged(cells, i)| == |cells| - 1 && Merged(cells, i)[i] == Cell(cells[i].addr, cells[i].size + HEADER + cells[i + 1].size, cells[i].free)
    ensures Cut(Merged(cells, i), i, cells[i].size) == cells
  {
  }

  lemma MergedAt(cells: seq<Cell>, i: nat, j: nat)
    requires i + 1 < |cells| && j < |cells| - 1
    ensures |Merged(cells, i)| == |cells| - 1
    ensures Merged(cells, i)[j] ==
      if j < i then cells[j]
      else if j == i then Cell(cells[i].addr, cells[i].size + HEADER + cells[i + 1].size, cells[i].free)
      else cells[j + 1]
  {
  }

  lemma MergedLayout(cells: seq<Cell>, i: nat)
    requires Layout(cells) && i + 1 < |cells| && End(cells[i]) == cells[i + 1].addr
    ensures Layout(Merged(cells, i))
  {
    hide Merged, Apart, Aligned;
    var m := Merged(cells, i);
    MergedAt(cells, i, 0);
    forall j | 0 <= j < |m|
      ensures m[j].addr > 0 && Aligned(m[j].addr) && Aligned(m[j].size)
    {
      MergedAt(cells, i, j);
      AlignedSum(cells[i].size, cells[i + 1].size);
    }
    forall j, k | 0 <= j < k < |m|
      ensures Apart(m[j], m[k])
    {
      MergedApart(cells, i, j, k);
    }
  }

  lemma MergedApart(cells: seq<Cell>, i: nat, j: nat, k: nat)
    requires Layout(cells) && i + 1 < |cells| && End(cells[i]) == cells[i + 1].addr && j < k < |Merged(cells, i)|
    ensures Apart(Merged(cells, i)[j], Merged(cells, i)[k])
  {
    hide Merged, Aligned;
    MergedAt(cells, i, 0);
    MergedAt(cells, i, j);
    MergedAt(cells, i, k);
    var j', k' := if j <= i then j else j + 1, if k <= i then k else k + 1;
    assert Apart(cells[j'], cells[k']);
    if k == i {
      assert Apart(cells[j'], cells[i + 1]);
    } else if j == i {
      assert Apart(cells[i + 1], cells[k']);
    }
  }

  /** The memory after free has joined block `b` with its successor. */
  function MergeMemory(h: Memory, b: nat): Memory
    requires b in h && h[b].next in h
  {
    var n := h[b].next;
    var h1 := h[b := Header(h[b].size + HEADER + h[n].size, h[n].next, h[b].prev, h[b].free)];
    if h[n].next != NULL && h[n].next in h1 then h1[h[n].next := h1[h[n].next].(prev := b)] else h1
  }

  lemma MergedAddr(cells: seq<Cell>, i: nat, j: int)
    requires i + 1 < |cells|
    ensures AddrAt(Merged(cells, i), j) == if j <= i then AddrAt(cells, j) else AddrAt(cells, j + 1)
  {
  }

  lemma MergeLinkAt(h: Memory, base: nat, cells: seq<Cell>, i: nat, j: nat)
    requires Linked(h, base, cells) && Layout(cells) && i + 1 < |cells| && j < |cells| - 1
    requires cells[i].addr in h && h[cells[i].addr].next == cells[i + 1].addr && cells[i + 1].addr in h
    ensures |Merged(cells, i)| == |cells| - 1 && LinkOk(MergeMemory(h, cells[i].addr), Merged(cells, i), j)
  {
    hide Merged, Layout, Linked;
    Links(h, base, cells, i);
    Links(h, base, cells, i + 1);
    var j' := if j <= i then j else j + 1;
    Links(h, base, cells, j');
    if j' != i {
      Distinct(cells, i, j');
    }
    if i + 2 < |cells| {
      Links(h, base, cells, i + 2);
      Positive(cells, i + 2);
      Distinct(cells, i, i + 2);
      if j' != i + 2 {
        Distinct(cells, i + 2, j');
      }
    }
    MergedAddr(cells, i, j + 1);
    MergedAddr(cells, i, j - 1);
    MergedAt(cells, i, j);
  }

  lemma MergeLinked(h: Memory, base: nat, cells: seq<Cell>, i: nat)
    requires Linked(h, base, cells) && Layout(cells) && i + 1 < |cells|
    requires cells[i].addr in h && h[cells[i].addr].next == cells[i + 1].addr && cells[i + 1].addr in h
    ensures Linked(MergeMemory(h, cells[i].addr), base, Merged(cells, i))
  {
    hide Merged, Layout, LinkOk, MergeMemory;
    MergedAddr(cells, i, 0);
    MergedAt(cells, i, 0);
    forall j | 0 <= j < |cells| - 1
      ensures LinkOk(MergeMemory(h, cells[i].addr), Merged(cells, i), j)
    {
      MergeLinkAt(h, base, cells, i, j);
    }
  }

  lemma MergedSame(cells: seq<Cell>, i: nat)
    requires i + 1 < |cells| && cells[i].free && cells[i + 1].free && End(cells[i]) == cells[i + 1].addr
    ensures Live(Merged(cells, i)) == Live(cells)
    ensures forall x: nat :: Covered(Merged(cells, i), x) <==> Covered(cells, x)
  {
    hide Merged, Cut, Live, Covered;
    MergedCut(cells, i);
    CutLive(Merged(cells, i), i, cells[i].size);
    forall x: nat
      ensures Covered(Merged(cells, i), x) <==> Covered(cells, x)
    {
      CutCovers(Merged(cells, i), i, cells[i].size, x);
    }
  }

  /** Only the pair before `i` may still need joining; merging `i` with its successor keeps it so. */
  lemma MergedPairs(cells: seq<Cell>, i: nat)
    requires i + 1 < |cells| && cells[i + 1].free && End(cells[i]) == cells[i + 1].addr
    requires forall j :: j != i && j != i - 1 ==> PairOk(cells, j)
    ensures forall j :: j != i - 1 ==> PairOk(Merged(cells, i), j)
  {
    hide Merged;
    var m := Merged(cells, i);
    MergedAt(cells, i, 0);
    forall j | j != i - 1
      ensures PairOk(m, j)
    {
      if 0 <= j < |m| - 1 {
        MergedAt(cells, i, j);
        MergedAt(cells, i, j + 1);
        assert PairOk(cells, if j < i then j else j + 1);
      }
    }
  }

  // ---- marking ----

  ghost function Marked(cells: seq<Cell>, i: nat, free: bool): seq<Cell>
    requires i < |cells|
  {
    cells[i := cells[i].(free := free)]
  }

  lemma MarkedLinked(h: Memory, base: nat, cells: seq<Cell>, i: nat, free: bool)
    requires Linked(h, base, cells) && Layout(cells) && i < |cells| && cells[i].addr in h
    ensures Linked(h[cells[i].addr := h[cells[i].addr].(free := free)], base, Marked(cells, i, free))
  {
    var h', m := h[cells[i].addr := h[cells[i].addr].(free := free)], Marked(cells, i, free);
    hide Layout;
    forall j | 0 <= j < |m|
      ensures LinkOk(h', m, j)
    {
      Links(h, base, cells, j);
      if j != i {
        Distinct(cells, i, j);
      }
    }
  }

  lemma MarkedSame(cells: seq<Cell>, i: nat, free: bool)
    requires Layout(cells) && i < |cells|
    ensures Layout(Marked(cells, i, free)) && forall x: nat :: Covered(Marked(cells, i, free), x) <==> Covered(cells, x)
  {
    hide Aligned;
    var m := Marked(cells, i, free);
    forall j, k | 0 <= j < k < |m|
      ensures Apart(m[j], m[k])
    {
      assert Apart(cells[j], cells[k]);
    }
    forall x: nat
      ensures Covered(m, x) <==> Covered(cells, x)
    {
      if Covered(cells, x) {
        var j :| 0 <= j < |cells| && cells[j].addr <= x < End(cells[j]);
        assert m[j].addr <= x < End(m[j]);
      }
      if Covered(m, x) {
        var j :| 0 <= j < |m| && m[j].addr <= x < End(m[j]);
        assert cells[j].addr <= x < End(cells[j]);
      }
    }
  }

  lemma MarkedLive(cells: seq<Cell>, i: nat)
    requires Layout(cells) && i < |cells|
    ensures Live(Marked(cells, i, false)) == Live(Marked(cells, i, true)) + {(cells[i].addr, cells[i].size)}
    ensures (cells[i].addr, cells[i].size) !in Live(Marked(cells, i, true))
    ensures Marked(cells, i, cells[i].free) == cells
  {
    hide Layout;
    var used, free, b := Marked(cells, i, false), Marked(cells, i, true), (cells[i].addr, cells[i].size);
    forall c | c in Live(free)
      ensures c in Live(used) && c != b
    {
      var j :| 0 <= j < |free| && !free[j].free && c == (free[j].addr, free[j].size);
      assert used[j] == free[j];
      Distinct(cells, i, j);
    }
    forall c | c in Live(used) && c != b
      ensures c in Live(free)
    {
      var j :| 0 <= j < |used| && !used[j].free && c == (used[j].addr, used[j].size);
      assert used[j] == free[j];
    }
    assert used[i].addr == b.0;
  }

  // ---- appending ----

  /** A fresh mapping: page aligned, inside user space, clear of all others. */
  ghost predicate FreshRegion(regions: seq<Region>, r: Region) {
    && r.start > 0 && r.start % PAGE_SIZE == 0 && r.length > 0 && r.start + r.length <= Vma.USER_SPACE_END
    && forall x: nat :: r.start <= x < r.start + r.length ==> !Mapped(regions, x)
  }

  function AppendMemory(h: Memory, last: nat, b: nat, size: nat): Memory {
    var h1 := if last != NULL && last in h then h[last := h[last].(next := b)] else h;
    h1[b := Header(size, NULL, last, true)]
  }

  lemma AppendApart(cells: seq<Cell>, regions: seq<Region>, r: Region, i: nat)
    requires Tiles(cells, regions) && FreshRegion(regions, r) && i < |cells|
    ensures r.length >= HEADER ==> Apart(cells[i], Cell(r.start, r.length - HEADER, true))
  {
    var c := cells[i];
    var x := if c.addr < r.start then r.start else c.addr;
    if c.addr <= x < End(c) {
      assert Covered(cells, x);
    }
    assert r.start <= x < r.start + r.length ==> !Mapped(regions, x);
  }

  /** A new mapping becomes the last block. */
  lemma AppendOk(h: Memory, base: nat, cells: seq<Cell>, regions: seq<Region>, r: Region)
    requires Linked(h, base, cells) && Layout(cells) && Tiles(cells, regions) && FreshRegion(regions, r) && r.length % PAGE_SIZE == 0
    ensures r.length > HEADER
    ensures
      var c := Cell(r.start, r.length - HEADER, true);
      && Layout(cells + [c])
      && Linked(AppendMemory(h, AddrAt(cells, |cells| - 1), r.start, r.length - HEADER), if cells == [] then r.start else base, cells + [c])
  {
    hide Tiles, Layout, Linked, AppendMemory, Apart, FreshRegion;
    RegionFacts(regions, r);
    var c := Cell(r.start, r.length - HEADER, true);
    forall i | 0 <= i < |cells|
      ensures Apart(cells[i], c)
    {
      AppendApart(cells, regions, r, i);
    }
    AppendLayout(cells, c);
    AppendLinked(h, base, cells, c);
  }

  lemma RegionFacts(regions: seq<Region>, r: Region)
    requires FreshRegion(regions, r) && r.length % PAGE_SIZE == 0
    ensures r.length > HEADER && Aligned(r.length - HEADER) && Aligned(r.start) && r.start > 0
  {
    hide Mapped;
    PageAligned(r.start);
    PageAligned(r.length);
  }

  lemma PageAligned(n: nat)
    requires n > 0 && n % PAGE_SIZE == 0
    ensures n >= PAGE_SIZE && Aligned(n) && Aligned(n - HEADER)
  {
    var q := n / PAGE_SIZE;
    assert n == ALIGNMENT * (256 * q);
    assert n - HEADER == ALIGNMENT * (256 * q - 2);
  }

  lemma AppendLayout(cells: seq<Cell>, c: Cell)
    requires Layout(cells) && c.addr > 0 && Aligned(c.addr) && Aligned(c.size)
    requires forall i :: 0 <= i < |cells| ==> Apart(cells[i], c)
    ensures Layout(cells + [c])
  {
    hide Aligned, Apart;
  }

  lemma AppendLinked(h: Memory, base: nat, cells: seq<Cell>, c: Cell)
    requires Linked(h, base, cells) && Layout(cells) && c.free && forall i :: 0 <= i < |cells| ==> Apart(cells[i], c)
    ensures Linked(AppendMemory(h, AddrAt(cells, |cells| - 1), c.addr, c.size), if cells == [] then c.addr else base, cells + [c])
  {
    hide Layout;
    var all, h' := cells + [c], AppendMemory(h, AddrAt(cells, |cells| - 1), c.addr, c.size);
    forall i | 0 <= i < |all|
      ensures LinkOk(h', all, i)
    {
      if cells != [] {
        Links(h, base, cells, |cells| - 1);
        Positive(cells, |cells| - 1);
      }
      if i < |cells| {
        Links(h, base, cells, i);
        assert Apart(cells[i], c);
        if i < |cells| - 1 {
          Distinct(cells, i, |cells| - 1);
        }
      }
    }
    AppendBase(h, base, cells, c);
  }

  lemma AppendBase(h: Memory, base: nat, cells: seq<Cell>, c: Cell)
    requires Linked(h, base, cells)
    ensures AddrAt(cells + [c], 0) == if cells == [] then c.addr else base
  {
  }

  lemma AppendTiles(cells: seq<Cell>, regions: seq<Region>, r: Region)
    requires Tiles(cells, regions) && r.length >= HEADER
    ensures Tiles(cells + [Cell(r.start, r.length - HEADER, true)], regions + [r])
  {
    var all, regions' := cells + [Cell(r.start, r.length - HEADER, true)], regions + [r];
    forall x: nat
      ensures Covered(all, x) <==> Mapped(regions', x)
    {
      CoveredAppend(cells, Cell(r.start, r.length - HEADER, true), x);
      MappedAppend(regions, r, x);
    }
  }

  lemma CoveredAppend(cells: seq<Cell>, c: Cell, x: nat)
    ensures Covered(cells + [c], x) <==> Covered(cells, x) || c.addr <= x < End(c)
  {
    var all := cells + [c];
    if Covered(cells, x) {
      var i :| 0 <= i < |cells| && cells[i].addr <= x < End(cells[i]);
      assert all[i].addr <= x < End(all[i]);
    }
    if c.addr <= x < End(c) {
      assert all[|cells|].addr <= x < End(all[|cells|]);
    }
  }

  lemma MappedAppend(regions: seq<Region>, r: Region, x: nat)
    ensures Mapped(regions + [r], x) <==> Mapped(regions, x) || r.start <= x < r.start + r.length
  {
    var all := regions + [r];
    if Mapped(regions, x) {
      var i :| 0 <= i < |regions| && regions[i].start <= x < regions[i].start + regions[i].length;
      assert all[i].start <= x < all[i].start + all[i].length;
    }
    if r.start <= x < r.start + r.length {
      assert all[|regions|].start <= x < all[|regions|].start + all[|regions|].length;
    }
  }

  // ---- sizes ----

  /** ALIGN, on 64-bit sizes. */
  function Align(size: nat): (r: nat)
    ensures r % ALIGNMENT == 0 && (size + ALIGNMENT <= U64 ==> size <= r < size + ALIGNMENT)
  {
    (size + ALIGNMENT - 1) % U64 / ALIGNMENT * ALIGNMENT
  }

  /** What request_space asks mmap for. */
  function RequestBytes(size: nat): (r: nat)
    ensures r % PAGE_SIZE == 0 && (size + HEADER + PAGE_SIZE <= U64 ==> size + HEADER <= r < size + HEADER + PAGE_SIZE)
  {
    ((size + HEADER) % U64 + PAGE_SIZE - 1) % U64 / PAGE_SIZE * PAGE_SIZE
  }

  /** A request is refused (mmap fails for length 0) or large enough, exactly up to 2^64 - 32 bytes. */
  lemma RequestCovers(size: nat)
    requires 0 < size < U64
    ensures
      var a := Align(size);
      a >= size && (RequestBytes(a) == 0 || RequestBytes(a) >= a + HEADER) <==> size <= U64 - HEADER
  {
    var a := Align(size);
    if size <= U64 - ALIGNMENT {
      assert (size + ALIGNMENT - 1) % U64 == size + ALIGNMENT - 1;
      if a + HEADER < U64 {
        assert (a + HEADER) % U64 == a + HEADER;
      }
    }
  }

  lemma RequestFits(size: nat)
    requires 0 < size <= U64 - HEADER
    ensures Align(size) >= size && Aligned(Align(size)) && Align(size) > 0
    ensures RequestBytes(Align(size)) % PAGE_SIZE == 0 && (RequestBytes(Align(size)) == 0 || RequestBytes(Align(size)) >= Align(size) + HEADER)
  {
    RequestCovers(size);
  }

  // ---- what mmap answers ----

  /** The word that comes back from mmap: the start of a fresh region, or a refusal. The library hands
      on the kernel's negative error codes as they are. */
  datatype Reply = Mapped(word: nat) | Refused(word: nat)

  const MAP_FAILED: nat := U64 - 1
  const MINUS_ENOMEM: nat := U64 - 12
  const MINUS_EINVAL: nat := U64 - 22

  ghost predicate NoneFits(cells: seq<Cell>, size: nat) {
    forall i :: 0 <= i < |cells| ==> !Fits(cells[i], size)
  }

  ghost predicate IsFirstFit(cells: seq<Cell>, size: nat, i: nat) {
    i < |cells| && Fits(cells[i], size) && forall j :: 0 <= j < i ==> !Fits(cells[j], size)
  }

  /** malloc takes a refusal for a region. */
  ghost predicate Faults(cells: seq<Cell>, size: nat, reply: Reply) {
    size > 0 && NoneFits(cells, Align(size)) && reply.Refused? && reply.word != MAP_FAILED
  }

  /** The kernel refuses with other words than the library tests for: with the first request of a program
      and no memory left, malloc faults instead of returning null. */
  lemma NoMemoryFaults()
    ensures Faults([], 1, Refused(MINUS_ENOMEM)) && Faults([], U64 - HEADER, Refused(MINUS_EINVAL)) && !Faults([], 1, Refused(MAP_FAILED))
    ensures RequestBytes(Align(U64 - HEADER)) == 0
  {
  }

  /** A request of 2^64 - 16 bytes asks for one page. */
  lemma LargestRequests()
    ensures Align(U64 - 16) == U64 - 16 && RequestBytes(Align(U64 - 16)) == PAGE_SIZE
    ensures Align(U64 - 15) == 0
  {
  }

  // ---- the allocator ----

  lemma Carved(cells: seq<Cell>, i: nat, cells': seq<Cell>, size: nat)
    requires Layout(cells) && i < |cells| && cells[i].free && size <= cells[i].size && Aligned(size)
    requires forall j :: j != i - 1 ==> PairOk(cells, j)
    requires cells' == if cells[i].size >= size + HEADER + ALIGNMENT then Cut(cells, i, size) else cells
    ensures i < |cells'| && Layout(cells') && cells'[i].addr == cells[i].addr && size <= cells'[i].size < size + HEADER + ALIGNMENT && cells'[i].free
    ensures Live(cells') == Live(cells) && forall x: nat :: Covered(cells', x) <==> Covered(cells, x)
    ensures Coalesced(Marked(cells', i, false))
  {
    hide Cut, Live, Covered, Aligned, Apart;
    if cells[i].size >= size + HEADER + ALIGNMENT {
      CutLayout(cells, i, size);
      CutLive(cells, i, size);
      CutAt(cells, i, size, i);
      forall x: nat
        ensures Covered(cells', x) <==> Covered(cells, x)
      {
        CutCovers(cells, i, size, x);
      }
    }
    var used := Marked(cells', i, false);
    forall j
      ensures PairOk(used, j)
    {
      if 0 <= j < |used| - 1 && cells' != cells {
        CutAt(cells, i, size, j);
        CutAt(cells, i, size, j + 1);
        assert j > i ==> PairOk(cells, j - 1);
        assert j < i - 1 ==> PairOk(cells, j);
      } else {
        assert j != i - 1 ==> PairOk(cells, j);
      }
    }
  }

  lemma TilesSame(cells: seq<Cell>, cells': seq<Cell>, regions: seq<Region>)
    requires Tiles(cells, regions) && forall x: nat :: Covered(cells', x) <==> Covered(cells, x)
    ensures Tiles(cells', regions)
  {
  }

  lemma BaseNull(h: Memory, base: nat, cells: seq<Cell>)
    requires Linked(h, base, cells) && Layout(cells)
    ensures base == NULL <==> cells == []
  {
  }

  lemma AppendPairs(cells: seq<Cell>, c: Cell)
    requires Coalesced(cells) && c.free
    ensures forall j :: j != |cells| - 1 ==> PairOk(cells + [c], j)
    ensures Live(cells + [c]) == Live(cells)
  {
    forall j | j != |cells| - 1
      ensures PairOk(cells + [c], j)
    {
      assert PairOk(cells, j);
    }
    forall b | b in Live(cells)
      ensures b in Live(cells + [c])
    {
      var i :| 0 <= i < |cells| && !cells[i].free && b == (cells[i].addr, cells[i].size);
      assert (cells + [c])[i] == cells[i];
    }
  }

  lemma MarkedPairs(cells: seq<Cell>, i: nat)
    requires Coalesced(cells) && i < |cells|
    ensures forall j :: j != i && j != i - 1 ==> PairOk(Marked(cells, i, true), j)
    ensures |Marked(cells, i, true)| == |cells| && Marked(cells, i, true)[i] == cells[i].(free := true)
  {
    forall j | j != i && j != i - 1
      ensures PairOk(Marked(cells, i, true), j)
    {
      assert PairOk(cells, j);
    }
  }

  lemma MergedPrefix(cells: seq<Cell>, i: nat)
    requires i + 1 < |cells|
    ensures |Merged(cells, i)| == |cells| - 1 && Merged(cells, i)[..i] == cells[..i]
  {
  }

  /** Joining the last pair that was open leaves none. */
  lemma MergedAll(cells: seq<Cell>, i: nat)
    requires i + 1 < |cells| && cells[i].free && cells[i + 1].free && End(cells[i]) == cells[i + 1].addr
    requires forall j :: j != i ==> PairOk(cells, j)
    ensures Coalesced(Merged(cells, i))
  {
    hide Merged;
    var m := Merged(cells, i);
    MergedAt(cells, i, 0);
    forall j
      ensures PairOk(m, j)
    {
      if 0 <= j < |m| - 1 {
        MergedAt(cells, i, j);
        MergedAt(cells, i, j + 1);
        assert PairOk(cells, if j < i then j else j + 1);
      }
    }
  }

  class Allocator {
    var memory: Memory
    var base: nat
    ghost var cells: seq<Cell>
    ghost var regions: seq<Region>

    constructor ()
      ensures Valid() && cells == [] && regions == []
    {
      memory, base, cells, regions := map[], NULL, [], [];
    }

    ghost predicate Valid()
      reads this
    {
      Linked(memory, base, cells) && Layout(cells) && Coalesced(cells) && Tiles(cells, regions)
    }

    /** find_free_block: the first free block that is large enough, or none, and the last block passed. */
    method FindFreeBlock(size: nat) returns (block: nat, last: nat, ghost i: nat)
      requires Valid() && base != NULL
      ensures i <= |cells| && block == AddrAt(cells, i) && (i == |cells| ==> last == AddrAt(cells, |cells| - 1))
      ensures block == NULL <==> i == |cells|
      ensures i < |cells| ==> Fits(cells[i], size) && block in memory && memory[block].free && memory[block].size >= size
      ensures forall j :: 0 <= j < i ==> !Fits(cells[j], size)
    {
      hide Layout, Coalesced, Tiles;
      BaseNull(memory, base, cells);
      Links(memory, base, cells, 0);
      block, last, i := base, base, 0;
      while block != NULL && !(memory[block].free && memory[block].size >= size)
        invariant i <= |cells| && block == AddrAt(cells, i) && (block != NULL ==> i < |cells| && block in memory)
        invariant i > 0 ==> last == cells[i - 1].addr
        invariant forall j :: 0 <= j < i ==> !Fits(cells[j], size)
        invariant i < |cells| ==> LinkOk(memory, cells, i) && block != NULL
        decreases |cells| - i
      {
        last := block;
        block := memory[block].next;
        i := i + 1;
        if i < |cells| {
          Links(memory, base, cells, i);
          Positive(cells, i);
        }
      }
    }

    /** split_block, then marking the block used. */
    method Take(block: nat, size: nat, ghost i: nat) returns (ghost n: nat)
      requires Linked(memory, base, cells) && Layout(cells) && Tiles(cells, regions)
      requires forall j :: j != i - 1 ==> PairOk(cells, j)
      requires i < |cells| && cells[i].free && block == cells[i].addr && size <= cells[i].size && Aligned(size)
      modifies this`memory, this`cells
      ensures Valid()
      ensures size <= n < size + HEADER + ALIGNMENT && Live(cells) == old(Live(cells)) + {(block, n)} && (block, n) !in old(Live(cells))
    {
      hide Layout, Coalesced, Tiles, Cut, Live, Covered, CutMemory, Marked, PairOk, Linked;
      ghost var was := cells;
      Links(memory, base, cells, i);
      if memory[block].size >= size + HEADER + ALIGNMENT {
        CutLinked(memory, base, cells, i, size);
        memory := CutMemory(memory, block, size);
        cells := Cut(cells, i, size);
      }
      Carved(was, i, cells, size);
      Links(memory, base, cells, i);
      MarkedLinked(memory, base, cells, i, false);
      MarkedSame(cells, i, false);
      MarkedLive(cells, i);
      TilesSame(was, cells, regions);
      TilesSame(cells, Marked(cells, i, false), regions);
      memory := memory[block := memory[block].(free := false)];
      n := cells[i].size;
      cells := Marked(cells, i, false);
    }

    /** malloc: a live block of at least the size asked for; every other live block stays as it is. It
        faults, writing a header to memory that is not there, exactly if mmap is needed and refuses with
        a word other than the one the library tests for. */
    method Malloc(size: nat, reply: Reply) returns (ptr: nat, fault: bool, ghost n: nat)
      requires Valid() && size <= U64 - HEADER
      requires reply.Mapped? ==> FreshRegion(regions, Region(reply.word, RequestBytes(Align(size))))
      modifies this
      ensures Valid() && (fault <==> Faults(old(cells), size, reply))
      ensures ptr == NULL ==> cells == old(cells) && regions == old(regions)
      ensures ptr == NULL && !fault <==> size == 0 || (NoneFits(old(cells), Align(size)) && reply == Refused(MAP_FAILED))
      ensures ptr != NULL ==> ptr >= HEADER && size <= n < Align(size) + HEADER + ALIGNMENT && !fault
      // the first block that fits, or the new region
      ensures ptr != NULL && NoneFits(old(cells), Align(size)) ==>
        reply.Mapped? && ptr == reply.word + HEADER && regions == old(regions) + [Region(reply.word, RequestBytes(Align(size)))]
      ensures size > 0 ==> forall i :: 0 <= i < |old(cells)| && IsFirstFit(old(cells), Align(size), i) ==>
        ptr == old(cells)[i].addr + HEADER && regions == old(regions)
      ensures ptr != NULL ==> Live(cells) == old(Live(cells)) + {(ptr - HEADER, n)} && (ptr - HEADER, n) !in old(Live(cells))
    {
      hide Layout, PairOk, Tiles, Live, Linked, FreshRegion, Align, RequestBytes, Aligned;
      ptr, fault, n := NULL, false, 0;
      if size == 0 {
        return;
      }
      var aligned := Align(size);
      RequestFits(size);
      var block, last := NULL, NULL;
      ghost var i: nat := |cells|;
      BaseNull(memory, base, cells);
      if base != NULL {
        block, last, i := FindFreeBlock(aligned);
      }
      if block == NULL {
        if reply.word == MAP_FAILED && reply.Refused? {
          return;
        }
        if reply.Refused? {
          fault := true;
          return;
        }
        block := reply.word;
        Append(block, last, RequestBytes(aligned));
      }
      n := Take(block, aligned, i);
      ptr := block + HEADER;
    }

    /** The end of request_space: the new region is the last block. */
    method Append(block: nat, last: nat, length: nat)
      requires Valid() && length % PAGE_SIZE == 0 && FreshRegion(regions, Region(block, length)) && (cells != [] ==> last == AddrAt(cells, |cells| - 1))
      requires cells == [] ==> last == NULL
      modifies this
      ensures Linked(memory, base, cells) && Layout(cells) && Tiles(cells, regions)
      ensures length > HEADER && cells == old(cells) + [Cell(block, length - HEADER, true)] && regions == old(regions) + [Region(block, length)]
      ensures Live(cells) == old(Live(cells)) && forall j :: j != |old(cells)| - 1 ==> PairOk(cells, j)
    {
      hide Layout, PairOk, Tiles, Live, Linked, FreshRegion, Aligned, AppendMemory;
      ghost var r := Region(block, length);
      BaseNull(memory, base, cells);
      AppendOk(memory, base, cells, regions, r);
      AppendTiles(cells, regions, r);
      AppendPairs(cells, Cell(block, r.length - HEADER, true));
      memory := AppendMemory(memory, last, block, length - HEADER);
      if base == NULL {
        base := block;
      }
      cells := cells + [Cell(block, r.length - HEADER, true)];
      regions := regions + [r];
    }

    /** free of a live block: it and no other stops being live, and is joined with free neighbours. */
    method Free(ptr: nat, ghost i: nat)
      requires Valid() && (ptr != NULL ==> i < |cells| && !cells[i].free && ptr == cells[i].addr + HEADER)
      modifies this`memory, this`cells
      ensures Valid()
      ensures ptr == NULL ==> cells == old(cells)
      ensures ptr != NULL ==> Live(cells) == old(Live(cells)) - {(ptr - HEADER, old(cells)[i].size)}
    {
      hide Layout, PairOk, Tiles, Live, Linked, Marked, Merged, MergeMemory, Covered;
      if ptr == NULL {
        return;
      }
      var block := ptr - HEADER;
      Links(memory, base, cells, i);
      ghost var was := cells;
      MarkedLinked(memory, base, cells, i, true);
      MarkedSame(cells, i, true);
      MarkedLive(cells, i);
      MarkedPairs(cells, i);
      TilesSame(cells, Marked(cells, i, true), regions);
      memory := memory[block := memory[block].(free := true)];
      cells := Marked(cells, i, true);
      JoinNext(block, i);
      JoinPrev(block, i);
    }

    /** The first half of the coalescing in free. */
    method JoinNext(block: nat, ghost i: nat)
      requires Linked(memory, base, cells) && Layout(cells) && Tiles(cells, regions)
      requires i < |cells| && cells[i].free && block == cells[i].addr && forall j :: j != i && j != i - 1 ==> PairOk(cells, j)
      modifies this`memory, this`cells
      ensures Linked(memory, base, cells) && Layout(cells) && Tiles(cells, regions) && Live(cells) == old(Live(cells))
      ensures i < |cells| && cells[i].free && block == cells[i].addr && forall j :: j != i - 1 ==> PairOk(cells, j)
      ensures cells[..i] == old(cells)[..i]
    {
      hide Layout, Tiles, Live, Linked, Merged, MergeMemory, Covered;
      Links(memory, base, cells, i);
      var next := memory[block].next;
      if i + 1 < |cells| {
        Links(memory, base, cells, i + 1);
        Positive(cells, i + 1);
      }
      if next != NULL && memory[next].free && block + HEADER + memory[block].size == next {
        MergeLinked(memory, base, cells, i);
        MergedLayout(cells, i);
        MergedSame(cells, i);
        MergedPairs(cells, i);
        MergedAt(cells, i, i);
        MergedPrefix(cells, i);
        TilesSame(cells, Merged(cells, i), regions);
        memory := MergeMemory(memory, block);
        cells := Merged(cells, i);
      }
    }

    /** The second half: the predecessor takes the block in. */
    method JoinPrev(block: nat, ghost i: nat)
      requires Linked(memory, base, cells) && Layout(cells) && Tiles(cells, regions)
      requires i < |cells| && cells[i].free && block == cells[i].addr && forall j :: j != i - 1 ==> PairOk(cells, j)
      modifies this`memory, this`cells
      ensures Valid() && Live(cells) == old(Live(cells))
    {
      hide Layout, Tiles, Live, Linked, Merged, MergeMemory, Covered;
      Links(memory, base, cells, i);
      var prev := memory[block].prev;
      if i > 0 {
        Links(memory, base, cells, i - 1);
        Positive(cells, i - 1);
      }
      if prev != NULL && memory[prev].free && prev + HEADER + memory[prev].size == block {
        MergeLinked(memory, base, cells, i - 1);
        MergedLayout(cells, i - 1);
        MergedSame(cells, i - 1);
        MergedAll(cells, i - 1);
        TilesSame(cells, Merged(cells, i - 1), regions);
        memory := MergeMemory(memory, prev);
        cells := Merged(cells, i - 1);
      }
    }
  }
}
