/** Directory operations on the clusters of a directory's chain (kernel/fs/fat32.c). */
module Directories {
  import opened Base
  import opened LongNames
  import opened DirectoryScan
  import opened DirectoryGrowth
  import opened ShortNames

  // ---- clusters of slots as one list ----

  ghost function Flat(cs: seq<seq<Slot>>): seq<Slot> {
    if cs == [] then [] else Flat(cs[..|cs| - 1]) + cs[|cs| - 1]
  }

  lemma {:induction false} FlatConcat(a: seq<seq<Slot>>, b: seq<seq<Slot>>)
    ensures Flat(a + b) == Flat(a) + Flat(b)
  {
    if b == [] {
      assert a + b == a;
    } else {
      FlatConcat(a, b[..|b| - 1]);
      assert (a + b)[..|a + b| - 1] == a + b[..|b| - 1];
    }
  }

  /** Index of the first slot of cluster `c`. */
  ghost function FirstSlot(cs: seq<seq<Slot>>, c: nat): nat
    requires c <= |cs|
  {
    |Flat(cs[..c])|
  }

  lemma FlatSplit(cs: seq<seq<Slot>>, c: nat)
    requires c < |cs|
    ensures Flat(cs) == Flat(cs[..c]) + cs[c] + Flat(cs[c + 1..])
    ensures FirstSlot(cs, c + 1) == FirstSlot(cs, c) + |cs[c]|
  {
    FlatConcat(cs[..c + 1], cs[c + 1..]);
    assert cs[..c + 1] + cs[c + 1..] == cs;
    assert cs[..c + 1][..c] == cs[..c];
  }

  /** Slot `i` of cluster `c` is slot `FirstSlot + i` of the directory. */
  lemma FlatAt(cs: seq<seq<Slot>>, c: nat)
    requires c < |cs|
    ensures FirstSlot(cs, c + 1) == FirstSlot(cs, c) + |cs[c]| <= |Flat(cs)|
    ensures forall i :: 0 <= i < |cs[c]| ==> Flat(cs)[FirstSlot(cs, c) + i] == cs[c][i]
    ensures c + 1 == |cs| ==> FirstSlot(cs, c + 1) == |Flat(cs)|
  {
    hide Flat;
    FlatSplit(cs, c);
    MiddleAt(Flat(cs), Flat(cs[..c]), cs[c], Flat(cs[c + 1..]));
    if c + 1 == |cs| {
      assert cs[..c + 1] == cs;
    }
  }

  lemma MiddleAt(whole: seq<Slot>, a: seq<Slot>, b: seq<Slot>, c: seq<Slot>)
    requires whole == a + b + c
    ensures |a| + |b| <= |whole| && forall i :: 0 <= i < |b| ==> whole[|a| + i] == b[i]
  {
  }

  /** Rewriting a cluster rewrites its stretch of the directory. */
  lemma FlatUpdate(cs: seq<seq<Slot>>, c: nat, cluster: seq<Slot>)
    requires c < |cs| && |cluster| == |cs[c]|
    ensures var flat := Flat(cs[c := cluster]);
      && |flat| == |Flat(cs)|
      && FirstSlot(cs, c) + |cluster| <= |flat|
      && (forall j :: 0 <= j < |flat| ==> flat[j] == if FirstSlot(cs, c) <= j < FirstSlot(cs, c) + |cluster| then cluster[j - FirstSlot(cs, c)] else Flat(cs)[j])
  {
    FlatSplit(cs, c);
    FlatSplit(cs[c := cluster], c);
    assert cs[c := cluster][..c] == cs[..c];
    assert cs[c := cluster][c + 1..] == cs[c + 1..];
  }

  lemma {:induction false} FirstSlotOrder(cs: seq<seq<Slot>>, c: nat, d: nat)
    requires c < d <= |cs|
    ensures FirstSlot(cs, c) + |cs[c]| <= FirstSlot(cs, d)
    decreases d - c
  {
    FlatSplit(cs, c);
    if c + 1 < d {
      FirstSlotOrder(cs, c + 1, d);
    }
  }

  /** Cluster sizes alone decide where clusters begin. */
  lemma {:induction false} FirstSlotFrame(cs: seq<seq<Slot>>, cs': seq<seq<Slot>>, c: nat)
    requires c <= |cs| == |cs'| && forall d :: 0 <= d < |cs| ==> |cs'[d]| == |cs[d]|
    ensures FirstSlot(cs', c) == FirstSlot(cs, c)
  {
    if c == 0 {
      NoSlots(cs);
      NoSlots(cs');
    } else {
      FirstSlotFrame(cs, cs', c - 1);
      FlatSplit(cs, c - 1);
      FlatSplit(cs', c - 1);
    }
  }

  method KillRange(cluster: seq<Slot>, from: nat, to: nat) returns (r: seq<Slot>)
    requires from <= to <= |cluster|
    ensures |r| == |cluster|
    ensures forall j :: 0 <= j < |r| ==> r[j] == if from <= j < to then Killed(cluster[j]) else cluster[j]
  {
    hide Killed;
    r := cluster;
    for j := from to to
      invariant |r| == |cluster|
      invariant forall k :: 0 <= k < |r| ==> r[k] == if from <= k < j then Killed(cluster[k]) else cluster[k]
    {
      r := r[j := Killed(r[j])];
    }
  }

  ghost predicate KilledIn(cluster: seq<Slot>, cluster': seq<Slot>, from: nat, to: nat) {
    |cluster'| == |cluster| && forall j :: 0 <= j < |cluster| ==> cluster'[j] == if from <= j < to then Killed(cluster[j]) else cluster[j]
  }

  /** A part of one cluster is deleted. */
  lemma KilledPart(cs: seq<seq<Slot>>, c: nat, from: nat, to: nat, cluster: seq<Slot>)
    requires c < |cs| && from <= to <= |cs[c]| && KilledIn(cs[c], cluster, from, to)
    ensures KilledIn(Flat(cs), Flat(cs[c := cluster]), FirstSlot(cs, c) + from, FirstSlot(cs, c) + to)
  {
    hide Flat, FirstSlot, Killed;
    FlatAt(cs, c);
    FlatUpdate(cs, c, cluster);
    var flat, flat', first := Flat(cs), Flat(cs[c := cluster]), FirstSlot(cs, c);
    forall j | 0 <= j < |flat|
      ensures flat'[j] == if first + from <= j < first + to then Killed(flat[j]) else flat[j]
    {
      if first <= j < first + |cluster| {
        assert flat[first + (j - first)] == cs[c][j - first];
      }
    }
  }

  lemma KilledHere(cs: seq<seq<Slot>>, c: nat, i: nat, start: nat, cluster: seq<Slot>)
    requires c < |cs| && start <= i < |cs[c]| && KilledIn(cs[c], cluster, start, i + 1)
    ensures Deleted(Flat(cs), Flat(cs[c := cluster]), FirstSlot(cs, c) + start, FirstSlot(cs, c) + i)
  {
    hide Flat, FirstSlot, Killed;
    FlatAt(cs, c);
    KilledPart(cs, c, start, i + 1, cluster);
  }

  lemma KilledAcross(cs: seq<seq<Slot>>, c: nat, i: nat, d: nat, start: nat, run: seq<Slot>, cluster: seq<Slot>)
    requires d < c < |cs| && i < |cs[c]| && start < |cs[d]|
    requires KilledIn(cs[d], run, start, |run|) && KilledIn(cs[c], cluster, i, i + 1)
    ensures Deleted(Flat(cs), Flat(cs[d := run][c := cluster]), FirstSlot(cs, d) + start, FirstSlot(cs, c) + i)
  {
    hide Flat, FirstSlot, Killed;
    FlatAt(cs, c);
    FlatAt(cs, d);
    FirstSlotOrder(cs, d, c);
    KilledPart(cs, d, start, |run|, run);
    FirstSlotFrame(cs, cs[d := run], c);
    KilledPart(cs[d := run], c, i, i + 1, cluster);
  }

  // ---- free slots ----

  /** Slots past the end of the directory count as free: clusters appended there are empty. */
  ghost predicate RunAt(slots: seq<Slot>, p: nat, count: nat) {
    forall j :: p <= j < p + count && j < |slots| ==> IsFree(slots[j])
  }

  /** The lowest place where `count` free slots follow each other. */
  ghost predicate IsFirstRun(slots: seq<Slot>, p: nat, count: nat) {
    RunAt(slots, p, count) && forall q: nat :: q < p ==> !RunAt(slots, q, count)
  }

  /** The free slots of a directory alone decide where an entry goes. */
  lemma OneFirstRun(slots: seq<Slot>, p: nat, q: nat, count: nat)
    requires IsFirstRun(slots, p, count) && IsFirstRun(slots, q, count)
    ensures p == q
  {
  }

  lemma GrownFirst(slots: seq<Slot>, slots': seq<Slot>, p: nat, count: nat)
    requires Grown(slots, slots')
    ensures IsFirstRun(slots, p, count) <==> IsFirstRun(slots', p, count)
  {
    forall q: nat
      ensures RunAt(slots, q, count) <==> RunAt(slots', q, count)
    {
      hide IsEnd, IsDeleted;
      GrownRun(slots, slots', q, count);
    }
  }

  lemma GrownRun(slots: seq<Slot>, slots': seq<Slot>, q: nat, count: nat)
    requires Grown(slots, slots')
    ensures RunAt(slots, q, count) <==> RunAt(slots', q, count)
  {
    hide IsEnd, IsDeleted;
    assert forall j :: 0 <= j < |slots| ==> slots'[..|slots|][j] == slots'[j];
  }

  /** A slot in use ends every run shorter than `count` before it. */
  lemma UsedSlot(slots: seq<Slot>, pos: nat, run: nat, count: nat)
    requires run < count && run <= pos < |slots| && !IsFree(slots[pos])
    requires forall q: nat :: q < pos - run ==> !RunAt(slots, q, count)
    ensures forall q: nat :: q < pos + 1 ==> !RunAt(slots, q, count)
  {
    hide IsFree;
  }

  lemma {:induction false} FirstSlotIs(cs: seq<seq<Slot>>, c: nat, n: nat)
    requires c <= |cs| && forall d :: 0 <= d < |cs| ==> |cs[d]| == n
    ensures FirstSlot(cs, c) == c * n
  {
    hide FirstSlot, Flat;
    if c == 0 {
      NoSlots(cs);
    } else {
      FirstSlotIs(cs, c - 1, n);
      FlatAt(cs, c - 1);
      assert c * n == (c - 1) * n + n;
    }
  }

  /** A slot's number gives its cluster and its index there. */
  lemma PlaceOf(c: nat, i: nat, n: nat)
    requires i < n
    ensures (c * n + i) / n == c && (c * n + i) % n == i
  {
    var q, r := (c * n + i) / n, (c * n + i) % n;
    assert c * n + i == q * n + r;
    if q < c {
      ScaledOrder(q, c, n);
    } else if q > c {
      ScaledOrder(c, q, n);
    }
  }

  lemma ScaledOrder(a: nat, b: nat, n: nat)
    requires a < b
    ensures a * n + n <= b * n
  {
    assert b * n == a * n + n + (b - a - 1) * n;
  }

  /** Before slot `pos` come `run` free slots, which begin at slot `index` of `cluster`, and before
      those neither an end mark nor a run of `count` free slots. */
  ghost predicate FreeRun(cs: seq<seq<Slot>>, pos: nat, count: nat, run: nat, cluster: nat, index: nat, perCluster: nat) {
    && run < count && run <= pos <= |Flat(cs)|
    && (run > 0 ==> cluster < |cs| && index < perCluster && FirstSlot(cs, cluster) + index == pos - run)
    && (forall j :: pos - run <= j < pos ==> IsFree(Flat(cs)[j]))
    && (forall j :: 0 <= j < pos - run ==> !IsEnd(Flat(cs)[j]))
    && (forall q: nat :: q < pos - run ==> !RunAt(Flat(cs), q, count))
  }

  lemma FreeRunStart(cs: seq<seq<Slot>>, count: nat, perCluster: nat)
    requires count > 0
    ensures FreeRun(cs, FirstSlot(cs, 0), count, 0, 0, 0, perCluster)
  {
    hide Flat;
    NoSlots(cs);
  }

  lemma NoEndBefore(slots: seq<Slot>, i: nat)
    requires EndClean(slots) && i < |slots| && !IsEnd(slots[i])
    ensures forall j :: 0 <= j < i ==> !IsEnd(slots[j])
  {
  }

  function EmptyCluster(n: nat): (r: seq<Slot>)
    ensures |r| == n && forall i :: 0 <= i < n ==> IsEnd(r[i])
  {
    if n == 0 then [] else EmptyCluster(n - 1) + [ZeroBytes(SLOT_SIZE)]
  }

  /** A directory with nothing but end marks added. */
  ghost predicate Grown(slots: seq<Slot>, slots': seq<Slot>) {
    |slots| <= |slots'| && slots'[..|slots|] == slots && forall j :: |slots| <= j < |slots'| ==> IsEnd(slots'[j])
  }

  lemma GrownSelf(slots: seq<Slot>)
    ensures Grown(slots, slots)
  {
  }

  lemma GrownTwice(a: seq<Slot>, b: seq<Slot>, c: seq<Slot>)
    requires Grown(a, b) && Grown(b, c)
    ensures Grown(a, c)
  {
    assert c[..|a|] == b[..|a|];
  }

  lemma GrownEntries(slots: seq<Slot>, slots': seq<Slot>)
    requires Grown(slots, slots') && AllFit(slots) && AllFit(slots')
    ensures Entries(slots') == Entries(slots)
  {
    hide Fits, Visible, IsEnd;
    var more := slots'[|slots|..];
    assert slots' == slots + more;
    EmptySlots(slots, more, 0, Fresh());
  }

  lemma AppendedOk(cs: seq<seq<Slot>>, n: nat)
    requires AllFit(Flat(cs)) && EndClean(Flat(cs))
    ensures Flat(cs + [EmptyCluster(n)]) == Flat(cs) + EmptyCluster(n)
    ensures AllFit(Flat(cs + [EmptyCluster(n)])) && EndClean(Flat(cs + [EmptyCluster(n)])) && Grown(Flat(cs), Flat(cs + [EmptyCluster(n)]))
  {
    hide EmptyCluster;
    assert (cs + [EmptyCluster(n)])[..|cs|] == cs;
  }

  lemma AppendedAt(cs: seq<seq<Slot>>, n: nat, q: nat, count: nat)
    requires Flat(cs + [EmptyCluster(n)]) == Flat(cs) + EmptyCluster(n)
    ensures RunAt(Flat(cs + [EmptyCluster(n)]), q, count) <==> RunAt(Flat(cs), q, count)
  {
    hide EmptyCluster, Flat, IsEnd, RunAt;
    GrownRun(Flat(cs), Flat(cs + [EmptyCluster(n)]), q, count);
  }

  /** At the end of the directory the slots counted so far begin the first run. */
  lemma RunAtEnd(cs: seq<seq<Slot>>, count: nat, run: nat, cluster: nat, index: nat, perCluster: nat)
    requires FreeRun(cs, |Flat(cs)|, count, run, cluster, index, perCluster)
    ensures IsFirstRun(Flat(cs), |Flat(cs)| - run, count)
  {
    hide Flat, IsEnd, IsDeleted, FirstSlot;
  }

  lemma AppendedRun(cs: seq<seq<Slot>>, n: nat, c: nat, count: nat, run: nat, cluster: nat, index: nat)
    requires c <= |cs| && FreeRun(cs, FirstSlot(cs, c), count, run, cluster, index, n) && Flat(cs + [EmptyCluster(n)]) == Flat(cs) + EmptyCluster(n)
    ensures FreeRun(cs + [EmptyCluster(n)], FirstSlot(cs + [EmptyCluster(n)], c), count, run, cluster, index, n)
  {
    hide EmptyCluster, Flat, IsEnd;
    var cs' := cs + [EmptyCluster(n)];
    assert cs'[..c] == cs[..c];
    assert run > 0 ==> cs'[..cluster] == cs[..cluster];
    forall q: nat | q < FirstSlot(cs, c) - run
      ensures !RunAt(Flat(cs'), q, count)
    {
      AppendedAt(cs, n, q, count);
    }
  }

  lemma RunPlaced(was: seq<Slot>, cs: seq<seq<Slot>>, start: nat, count: nat, cluster: nat, index: nat, perCluster: nat, most: nat)
    requires cluster < |cs| <= most && index < perCluster && (forall d :: 0 <= d < |cs| ==> |cs[d]| == perCluster)
    requires start == FirstSlot(cs, cluster) + index && Grown(was, Flat(cs)) && IsFirstRun(Flat(cs), start, count) && start + count <= |Flat(cs)|
    ensures IsFirstRun(was, start, count) && start + count <= most * perCluster
    ensures cluster == start / perCluster && index == start % perCluster
  {
    hide Flat, FirstSlot, Grown, IsFirstRun;
    FirstSlotIs(cs, cluster, perCluster);
    PlaceOf(cluster, index, perCluster);
    AllSlots(cs, perCluster);
    GrownFirst(was, Flat(cs), start, count);
    assert |cs| * perCluster <= most * perCluster;
  }

  lemma AllSlots(cs: seq<seq<Slot>>, perCluster: nat)
    requires forall d :: 0 <= d < |cs| ==> |cs[d]| == perCluster
    ensures |Flat(cs)| == |cs| * perCluster
  {
    hide Flat;
    FirstSlotIs(cs, |cs|, perCluster);
    assert cs[..|cs|] == cs;
  }

  lemma RunRefused(was: seq<Slot>, cs: seq<seq<Slot>>, count: nat, run: nat, cluster: nat, index: nat, perCluster: nat) returns (start: nat)
    requires (forall d :: 0 <= d < |cs| ==> |cs[d]| == perCluster) && Grown(was, Flat(cs))
    requires FreeRun(cs, FirstSlot(cs, |cs|), count, run, cluster, index, perCluster)
    ensures IsFirstRun(was, start, count) && start + count > |cs| * perCluster
  {
    hide Flat, Grown, IsFirstRun;
    AllSlots(cs, perCluster);
    assert cs[..|cs|] == cs;
    RunAtEnd(cs, count, run, cluster, index, perCluster);
    start := |Flat(cs)| - run;
    GrownFirst(was, Flat(cs), start, count);
  }

  // ---- writing slots ----

  lemma PlacedNone(slots: seq<Slot>, p: nat)
    requires p <= |slots|
    ensures Placed(slots, p, []) == slots
  {
  }

  /** The inner loop of write_dir_entries: as many entries as fit into the buffer. */
  method CopySlots(cluster: seq<Slot>, from: nat, entries: seq<Slot>, done: nat) returns (buffer: seq<Slot>, i: nat, written: nat)
    requires from <= |cluster| && done <= |entries|
    ensures from <= i <= |cluster| && done <= written <= |entries| && i - from == written - done && (i == |cluster| || written == |entries|)
    ensures buffer == Placed(cluster, from, entries[done..written])
  {
    hide Placed;
    buffer, i, written := cluster, from, done;
    PlacedNone(cluster, from);
    while i < |cluster| && written < |entries|
      invariant from <= i <= |cluster| && done <= written <= |entries| && i - from == written - done
      invariant buffer == Placed(cluster, from, entries[done..written])
    {
      PlacedNext(cluster, from, entries, done, written);
      buffer := buffer[i := entries[written]];
      i, written := i + 1, written + 1;
    }
  }

  lemma PlacedNext(cluster: seq<Slot>, at: nat, entries: seq<Slot>, done: nat, w: nat)
    requires done <= w < |entries| && at + (w - done) < |cluster|
    ensures Placed(cluster, at, entries[done..w])[at + (w - done) := entries[w]] == Placed(cluster, at, entries[done..w + 1])
  {
    hide Placed;
  }

  /** One cluster more of the entries is in place. */
  lemma PlacedMore(cs: seq<seq<Slot>>, c: nat, from: nat, was: seq<Slot>, p: nat, entries: seq<Slot>, done: nat, w: nat, buffer: seq<Slot>)
    requires c < |cs| && done <= w <= |entries| && from + (w - done) <= |cs[c]| && p + w <= |was|
    requires Flat(cs) == Placed(was, p, entries[..done]) && FirstSlot(cs, c) + from == p + done
    requires buffer == Placed(cs[c], from, entries[done..w])
    ensures Flat(cs[c := buffer]) == Placed(was, p, entries[..w])
  {
    hide Flat, FirstSlot, Placed;
    FlatAt(cs, c);
    FlatUpdate(cs, c, buffer);
    var base, flat, flat' := FirstSlot(cs, c), Flat(cs), Flat(cs[c := buffer]);
    forall j | 0 <= j < |was|
      ensures flat'[j] == Placed(was, p, entries[..w])[j]
    {
      if base <= j < base + |buffer| {
        assert flat[base + (j - base)] == cs[c][j - base];
      }
    }
  }

  // ---- the scan ----

  /** The part of the three scanning loops that takes in one slot. */
  method Advance(buffer: array<Byte>, expected: Byte, valid: bool, s: Slot) returns (expected': Byte, valid': bool)
    requires buffer.Length == NAME_BUFFER && Fits(s) && !IsEnd(s)
    modifies buffer
    ensures Scan(buffer[..], expected', valid') == Step(Scan(old(buffer[..]), expected, valid), s)
  {
    hide Patched, ZeroBytes, Fits, Chars, ChecksumOf;
    expected', valid' := expected, valid;
    if IsDeleted(s) || !IsLfn(s) {
      valid' := false;
      return;
    }
    FitsAt(s);
    if StartsRun(s) {
      for i := 0 to NAME_BUFFER
        invariant forall j :: 0 <= j < i ==> buffer[j] == 0
      {
        buffer[i] := 0;
      }
      assert buffer[..] == ZeroBytes(NAME_BUFFER);
      expected', valid' := SlotChecksum(s), true;
    }
    if valid' && SlotChecksum(s) == expected' {
      ExtractChars(s, buffer, (Order(s) - 1) * 13);
    }
  }

  lemma FitsAt(s: Slot)
    requires Fits(s) && IsLfn(s) && !IsEnd(s) && !IsDeleted(s)
    ensures 1 <= Order(s) && (Order(s) - 1) * 13 + Count(s) < NAME_BUFFER - 1
  {
  }

  /** The name under which a short entry shows. */
  method EntryName(buffer: array<Byte>, expected: Byte, valid: bool, s: Slot) returns (name: seq<Byte>)
    ensures name == NameOf(Scan(buffer[..], expected, valid), s)
  {
    var sum := Checksum(s);
    name := if valid && sum == expected then Terminated(buffer[..]) else ShortName(s);
  }

  /** The name a caller asks for is cut at 255 bytes. */
  function Key(name: seq<Byte>): seq<Byte> {
    if |name| <= 255 then name else name[..255]
  }

  lemma VisibleNext(slots: seq<Slot>, i: nat, st: Scan, key: seq<Byte>)
    requires i < |slots| && AllFit(slots) && ScanOk(st) && !IsEnd(slots[i])
    ensures Visible(slots, i, st) == Shown(st, slots[i], i) + Visible(slots, i + 1, Step(st, slots[i]))
    ensures IsShort(slots[i]) && Matches(Entry(NameOf(st, slots[i]), i, slots[i]), key) ==>
      FindName(Visible(slots, i, st), key) == Some(Entry(NameOf(st, slots[i]), i, slots[i]))
    ensures !IsShort(slots[i]) || !Matches(Entry(NameOf(st, slots[i]), i, slots[i]), key) ==>
      FindName(Visible(slots, i, st), key) == FindName(Visible(slots, i + 1, Step(st, slots[i])), key)
  {
    hide Step, NameOf, Matches;
    var rest := Visible(slots, i + 1, Step(st, slots[i]));
    if IsShort(slots[i]) {
      assert (Shown(st, slots[i], i) + rest)[1..] == rest;
    } else {
      assert Shown(st, slots[i], i) + rest == rest;
    }
  }

  /** What a lookup delivers: the entry's name and slot, the cluster it is in and its index there. */
  datatype Found = Found(name: seq<Byte>, slot: Slot, cluster: nat, index: nat)

  ghost function EntryOf(cs: seq<seq<Slot>>, r: Option<Found>): Option<Entry>
    requires r.Some? ==> r.value.cluster < |cs|
  {
    if r.None? then None else Some(Entry(r.value.name, FirstSlot(cs, r.value.cluster) + r.value.index, r.value.slot))
  }

  lemma NoSlots(cs: seq<seq<Slot>>)
    ensures FirstSlot(cs, 0) == 0 && (cs == [] ==> Flat(cs) == [])
  {
    assert cs[..0] == [];
  }

  /** The first cluster an entry names: its high half is in bytes 20 and 21, its low half in bytes 26 and 27. */
  function FirstCluster(s: Slot): (c: nat)
    ensures c < 0x1_0000_0000 && Le16(c / 0x10000) == s[20..22] && Le16(c) == s[26..28]
  {
    LowHalf(s, 20);
    LowHalf(s, 26);
    HalvesApart(U16(s, 20), U16(s, 26));
    U16(s, 20) * 0x10000 + U16(s, 26)
  }

  lemma LowHalf(s: Slot, i: nat)
    requires i + 2 <= |s|
    ensures U16(s, i) < 0x10000 && Le16(U16(s, i)) == s[i..i + 2]
  {
  }

  lemma HalvesApart(hi: nat, lo: nat)
    requires hi < 0x10000 && lo < 0x10000
    ensures (hi * 0x10000 + lo) / 0x10000 == hi && Le16(hi * 0x10000 + lo) == Le16(lo)
  {
    var n := hi * 0x10000 + lo;
    LowPart(hi * 256, lo);
    assert n / 256 == hi * 256 + lo / 256;
    LowPart(hi, lo / 256);
  }

  lemma LowPart(k: nat, lo: nat)
    ensures (k * 256 + lo) % 256 == lo % 256 && (k * 256 + lo) / 256 == k + lo / 256
  {
  }

  /** The scan has come to slot `i` without an end mark or a match. */
  ghost predicate Pending(slots: seq<Slot>, key: seq<Byte>, st: Scan, i: nat) {
    && AllFit(slots) && i <= |slots| && ScanOk(st)
    && FindName(Entries(slots), key) == FindName(Visible(slots, i, st), key)
    && forall j :: 0 <= j < i ==> !IsEnd(slots[j])
  }

  /** Slots `start` up to `i` are the beginning of a run. */
  ghost predicate InRun(slots: seq<Slot>, start: nat, i: nat) {
    && start < i <= |slots| && IsLongSlot(slots[start]) && StartsRun(slots[start])
    && forall j :: start < j < i ==> IsRest(slots[j])
  }

  lemma PendingStart(cs: seq<seq<Slot>>, key: seq<Byte>, st: Scan)
    requires AllFit(Flat(cs)) && ScanOk(st) && !st.valid
    ensures FirstSlot(cs, 0) == 0 && Pending(Flat(cs), key, st, 0)
  {
    hide Fits;
    NoSlots(cs);
    Forgets(Flat(cs), 0, Fresh(), st);
  }

  lemma PendingEnd(slots: seq<Slot>, key: seq<Byte>, st: Scan, i: nat)
    requires Pending(slots, key, st, i) && (i == |slots| || IsEnd(slots[i]))
    ensures FindName(Entries(slots), key) == None
  {
  }

  /** One slot further: a match, or still nothing. */
  lemma PendingNext(slots: seq<Slot>, key: seq<Byte>, st: Scan, i: nat)
    requires Pending(slots, key, st, i) && i < |slots| && !IsEnd(slots[i])
    ensures Fits(slots[i]) && |st.buffer| == NAME_BUFFER && forall j :: 0 <= j <= i ==> !IsEnd(slots[j])
    ensures
      if IsShort(slots[i]) && UpperAll(key) == UpperAll(NameOf(st, slots[i]))
      then FindName(Entries(slots), key) == Some(Entry(NameOf(st, slots[i]), i, slots[i]))
      else Pending(slots, key, Step(st, slots[i]), i + 1)
  {
    hide Entries, Visible, Step, NameOf, UpperAll, FindName, Fits;
    VisibleNext(slots, i, st, key);
  }

  /** Slot `i` is a short entry, and `start` is where its run begins; all before it is in use. */
  ghost predicate Located(slots: seq<Slot>, start: nat, i: nat) {
    && i < |slots| && IsShort(slots[i]) && (start == i || InRun(slots, start, i))
    && forall j :: 0 <= j <= i ==> !IsEnd(slots[j])
  }

  lemma LocatedOrder(slots: seq<Slot>, start: nat, i: nat)
    requires Located(slots, start, i)
    ensures start <= i
  {
  }

  /** A reader that holds a name has been reading one run since its first slot. */
  lemma StepRun(st: Scan, s: Slot, slots: seq<Slot>, start: nat, i: nat)
    requires ScanOk(st) && Fits(s) && !IsEnd(s) && i < |slots| && slots[i] == s
    requires IsLongSlot(s) && StartsRun(s) ==> start == i
    requires st.valid && !(IsLongSlot(s) && StartsRun(s)) && !IsShort(s) ==> InRun(slots, start, i)
    ensures Step(st, s).valid ==> InRun(slots, start, i + 1)
  {
    hide Fits, Gathered;
  }

  /** The scan of a deletion: besides, `start` is where the run being read began. */
  ghost predicate Tracking(slots: seq<Slot>, key: seq<Byte>, st: Scan, start: nat, i: nat) {
    Pending(slots, key, st, i) && (st.valid ==> InRun(slots, start, i))
  }

  function RunStart(st: Scan, s: Slot, start: nat, i: nat): nat {
    if IsShort(s) then (if st.valid && ChecksumOf(s[..11]) == st.expected then start else i)
    else if !IsDeleted(s) && StartsRun(s) then i else start
  }

  lemma TrackingStart(cs: seq<seq<Slot>>, key: seq<Byte>, st: Scan, start: nat)
    requires AllFit(Flat(cs)) && ScanOk(st) && !st.valid
    ensures FirstSlot(cs, 0) == 0 && Tracking(Flat(cs), key, st, start, 0)
  {
    hide Pending;
    PendingStart(cs, key, st);
  }

  lemma TrackingEnd(slots: seq<Slot>, key: seq<Byte>, st: Scan, start: nat, i: nat)
    requires Tracking(slots, key, st, start, i) && (i == |slots| || IsEnd(slots[i]))
    ensures FindName(Entries(slots), key) == None
  {
    hide Pending;
    PendingEnd(slots, key, st, i);
  }

  lemma TrackingNext(slots: seq<Slot>, key: seq<Byte>, st: Scan, start: nat, i: nat)
    requires Tracking(slots, key, st, start, i) && i < |slots| && !IsEnd(slots[i])
    ensures Fits(slots[i]) && |st.buffer| == NAME_BUFFER
    ensures var now := RunStart(st, slots[i], start, i);
      if IsShort(slots[i]) && UpperAll(key) == UpperAll(NameOf(st, slots[i]))
      then FindName(Entries(slots), key) == Some(Entry(NameOf(st, slots[i]), i, slots[i])) && Located(slots, now, i)
      else Tracking(slots, key, Step(st, slots[i]), now, i + 1)
  {
    hide Entries, Pending, NameOf, UpperAll, FindName, Fits, ChecksumOf, Step, InRun;
    PendingNext(slots, key, st, i);
    PendingOk(slots, key, st, i);
    StepRun(st, slots[i], slots, RunStart(st, slots[i], start, i), i);
  }

  lemma PendingOk(slots: seq<Slot>, key: seq<Byte>, st: Scan, i: nat)
    requires Pending(slots, key, st, i)
    ensures ScanOk(st)
  {
  }

  lemma DeletedEntries(slots: seq<Slot>, slots': seq<Slot>, start: nat, i: nat)
    requires AllFit(slots) && Located(slots, start, i) && Deleted(slots, slots', start, i)
    ensures AllFit(slots') && Entries(slots') == Without(Entries(slots), i)
    ensures EndClean(slots) ==> EndClean(slots')
  {
    hide Visible, Without, Fits;
    DeletedFit(slots, slots', start, i);
    DeletedVisible(slots, slots', start, i, 0, Fresh());
  }

  /** The directory bit of the attributes. */
  predicate IsDirectory(s: Slot)
    ensures IsDirectory(s) <==> (s[11] as bv8) & 0x10 != 0
  {
    s[11] / 16 % 2 == 1
  }

  /** The scan has come to slot `i` after `n` visible entries. */
  ghost predicate Numbered(slots: seq<Slot>, st: Scan, i: nat, n: nat) {
    && AllFit(slots) && i <= |slots| && ScanOk(st)
    && n <= |Entries(slots)| && Entries(slots)[n..] == Visible(slots, i, st)
  }

  lemma NumberedStart(cs: seq<seq<Slot>>, st: Scan)
    requires AllFit(Flat(cs)) && ScanOk(st) && !st.valid
    ensures FirstSlot(cs, 0) == 0 && Numbered(Flat(cs), st, 0, 0)
  {
    hide Fits, Visible;
    NoSlots(cs);
    Forgets(Flat(cs), 0, Fresh(), st);
  }

  lemma NumberedEnd(slots: seq<Slot>, st: Scan, i: nat, n: nat)
    requires Numbered(slots, st, i, n) && (i == |slots| || IsEnd(slots[i]))
    ensures n == |Entries(slots)|
  {
    hide Entries;
  }

  lemma NumberedNext(slots: seq<Slot>, st: Scan, i: nat, n: nat)
    requires Numbered(slots, st, i, n) && i < |slots| && !IsEnd(slots[i])
    ensures Fits(slots[i]) && |st.buffer| == NAME_BUFFER
    ensures IsShort(slots[i]) ==> n < |Entries(slots)| && Entries(slots)[n] == Entry(NameOf(st, slots[i]), i, slots[i])
    ensures Numbered(slots, Step(st, slots[i]), i + 1, if IsShort(slots[i]) then n + 1 else n)
  {
    hide Entries, Visible, Step, NameOf, Fits;
    VisibleNext(slots, i, st, []);
    var rest := Visible(slots, i + 1, Step(st, slots[i]));
    assert Entries(slots)[n..] == Shown(st, slots[i], i) + rest;
    if IsShort(slots[i]) {
      assert Entries(slots)[n + 1..] == Entries(slots)[n..][1..] == rest;
      assert Entries(slots)[n] == Entries(slots)[n..][0];
    } else {
      assert Shown(st, slots[i], i) + rest == rest;
    }
  }

  /** The short names in use. */
  ghost function Taken(slots: seq<Slot>, from: nat): set<seq<Byte>>
    requires from <= |slots|
    decreases |slots| - from
  {
    if from == |slots| || IsEnd(slots[from]) then {}
    else (if IsShort(slots[from]) then {slots[from][..11]} else {}) + Taken(slots, from + 1)
  }

  lemma TakenNext(slots: seq<Slot>, i: nat)
    requires i < |slots|
    ensures Taken(slots, i) == if IsEnd(slots[i]) then {} else (if IsShort(slots[i]) then {slots[i][..11]} else {}) + Taken(slots, i + 1)
  {
  }

  lemma TakenNone(slots: seq<Slot>)
    ensures Taken(slots, |slots|) == {}
  {
  }

  lemma {:induction false} TakenSize(slots: seq<Slot>, from: nat, st: Scan)
    requires from <= |slots| && AllFit(slots) && ScanOk(st)
    ensures |Taken(slots, from)| <= |Visible(slots, from, st)|
    decreases |slots| - from
  {
    hide Step, NameOf;
    if from < |slots| && !IsEnd(slots[from]) {
      TakenSize(slots, from + 1, Step(st, slots[from]));
    }
  }

  lemma TakenFewer(slots: seq<Slot>)
    requires AllFit(slots)
    ensures |Taken(slots, 0)| <= |Entries(slots)|
  {
    hide Taken, Visible;
    TakenSize(slots, 0, Fresh());
  }

  /** The entry shows, under its name if that takes long slots and under the short name otherwise. */
  ghost predicate Added(was: seq<Slot>, slots: seq<Slot>, name: seq<Byte>, at: nat, e: Slot) {
    && AllFit(was) && AllFit(slots)
    && (NeedsLong(name) ==> Created(Entries(was), Entries(slots), Entry(name, at, e)))
    && (!NeedsLong(name) && RunsComplete(was) ==> Created(Entries(was), Entries(slots), Entry(ShortName(e), at, e)))
  }

  ghost predicate IsAt(slots: seq<Slot>, at: nat, e: Slot) {
    at < |slots| && slots[at] == e
  }

  function ExtraSlots(name: seq<Byte>): nat {
    if NeedsLong(name) then LongCount(name) else 0
  }

  function Occupied(): (r: Slot)
    ensures r[0] == 'A' as nat && r[11] == 0
  {
    ZeroBytes(SLOT_SIZE)[0 := 'A' as nat]
  }

  function NearlyFull(): (r: seq<Slot>)
    ensures |r| == 16 && (forall i :: 0 <= i < 15 ==> r[i] == Occupied()) && IsEnd(r[15])
  {
    seq(15, i => Occupied()) + [ZeroBytes(SLOT_SIZE)]
  }

  /** One slot left in a cluster of sixteen: the entry "a", which takes a long slot, gets a place whose
      index is past the end of the cluster it names. */
  lemma PlaceLeavesCluster()
    ensures Flat([NearlyFull()]) == NearlyFull() && AllFit(NearlyFull()) && EndClean(NearlyFull())
    ensures NameOk(['a' as nat]) && IsFirstRun(NearlyFull(), 15, ExtraSlots(['a' as nat]) + 1)
    ensures 15 % 16 + ExtraSlots(['a' as nat]) == 16
  {
    hide NearlyFull;
    var slots, name := NearlyFull(), ['a' as nat];
    assert IsShort(Occupied());
    assert [NearlyFull()][..0] == [];
    assert name[0] == 'a' as nat && NeedsLong(name);
    forall q: nat | q < 15
      ensures !RunAt(slots, q, 2)
    {
      assert !IsFree(slots[q]);
    }
  }

  /** The form with number `suffix`, all forms with lower numbers being taken; number 0 is the plain form. */
  ghost predicate IsChoice(short: seq<Byte>, suffix: nat, name: seq<Byte>, taken: set<seq<Byte>>) {
    && suffix <= MAX_TAIL && TailFits(suffix) && short == Short(name, suffix)
    && (short !in taken || suffix == MAX_TAIL)
    && forall j: nat :: j < suffix && TailFits(j) ==> Short(name, j) in taken
  }

  ghost predicate ShortFor(short: seq<Byte>, name: seq<Byte>, taken: set<seq<Byte>>) {
    exists suffix: nat :: IsChoice(short, suffix, name, taken)
  }

  /** The plain form is chosen exactly if it is free. */
  lemma PlainChoice(short: seq<Byte>, name: seq<Byte>, taken: set<seq<Byte>>)
    requires ShortFor(short, name, taken)
    ensures TailFits(0) && (Short(name, 0) !in taken ==> short == Short(name, 0))
    ensures short == Short(name, 0) && short in taken ==> forall j: nat :: j < MAX_TAIL && TailFits(j) ==> Short(name, j) in taken
  {
    hide Short, TailFits;
    TailsFit(0);
    TailsFit(MAX_TAIL);
  }

  /** The directory will show a new entry under exactly this name: in long slots, or in a plain short form
      that is free. */
  ghost predicate ShowsAsAsked(slots: seq<Slot>, name: seq<Byte>) {
    TailFits(0) && (NeedsLong(name) || (IsPlain(name) && Short(name, 0) !in Taken(slots, 0) && RunsComplete(slots)))
  }

  lemma AsAsked(was: seq<Slot>, slots: seq<Slot>, name: seq<Byte>, at: nat, e: Slot)
    requires Added(was, slots, name, at, e) && ShortFor(e[..11], name, Taken(was, 0)) && NameOk(name)
    ensures AllFit(was) && AllFit(slots)
    ensures ShowsAsAsked(was, name) ==> Created(Entries(was), Entries(slots), Entry(name, at, e))
    ensures ShowsAsAsked(was, name) && FindName(Entries(was), Key(name)).None? && !IsDeleted(e) ==>
      FindName(Entries(slots), Key(name)) == Some(Entry(name, at, e))
  {
    hide Entries, Taken, Created, Short, TailFits, IsPlain, NeedsLong, RunsComplete, FindName, ShortName, ShortFor, UpperAll, AllFit;
    if ShowsAsAsked(was, name) {
      PlainChoice(e[..11], name, Taken(was, 0));
      if !NeedsLong(name) {
        ShortShows(name, e);
      }
      if FindName(Entries(was), Key(name)).None? && !IsDeleted(e) {
        CreatedFound(slots, Entries(was), Entry(name, at, e), Key(name));
      }
    }
  }

  lemma RoomSize(slots: seq<Slot>, p: nat, count: nat)
    requires Room(slots, p, count)
    ensures p + count <= |slots|
  {
  }

  lemma CreatedLong(was: seq<Slot>, slots: seq<Slot>, slots': seq<Slot>, p: nat, name: seq<Byte>, e: Slot, entries: seq<Slot>)
    requires AllFit(was) && AllFit(slots) && Entries(slots) == Entries(was) && NameOk(name) && IsEntry(e) && NeedsLong(name)
    requires LongCount(name) < 64 && entries == NewSlots(name, e)
    requires Room(slots, p, LongCount(name) + 1) && p + |entries| <= |slots| && slots' == Placed(slots, p, entries)
    ensures AllFit(slots') && EndClean(slots') && Added(was, slots', name, p + LongCount(name), e) && IsAt(slots', p + LongCount(name), e)
  {
    hide NeedsLong, Fits, Placed, Visible, Room, NewSlots, LongCount, Created, IsEntry, NameOk;
    PlacedFit(slots, p, name, e);
    CreatedVisible(slots, slots', p, name, e, 0, Fresh());
  }

  lemma CreatedShort(was: seq<Slot>, slots: seq<Slot>, slots': seq<Slot>, p: nat, name: seq<Byte>, e: Slot)
    requires Grown(was, slots) && AllFit(was) && AllFit(slots) && Entries(slots) == Entries(was) && IsEntry(e)
    requires Room(slots, p, 1) && p < |slots| && slots' == Placed(slots, p, [e]) && !NeedsLong(name)
    ensures AllFit(slots') && EndClean(slots') && Added(was, slots', name, p, e) && IsAt(slots', p, e)
  {
    hide NeedsLong, Placed, Visible, Created, ShortName;
    forall j | 0 <= j < |slots'|
      ensures Fits(slots'[j])
    {
      assert Fits(slots[j]);
    }
    if RunsComplete(was) {
      GrownRuns(was, slots);
      ShortCreated(slots, slots', p, e, 0, Fresh());
    }
  }

  lemma GrownRuns(slots: seq<Slot>, slots': seq<Slot>)
    requires Grown(slots, slots') && RunsComplete(slots)
    ensures RunsComplete(slots')
  {
    forall i | 0 <= i < |slots'| && IsLongSlot(slots'[i])
      ensures i + 1 < |slots'| && !IsFree(slots'[i + 1])
    {
      assert i < |slots| && slots[i] == slots'[..|slots|][i];
      assert slots[i + 1] == slots'[..|slots|][i + 1];
    }
  }

  class Directory {
    const perCluster: nat
    var clusters: seq<seq<Slot>>

    ghost function Slots(): seq<Slot>
      reads this
    {
      Flat(clusters)
    }

    ghost predicate Shaped()
      reads this
    {
      perCluster > 0 && clusters != [] && forall c :: 0 <= c < |clusters| ==> |clusters[c]| == perCluster
    }

    ghost predicate Valid()
      reads this
    {
      Shaped() && AllFit(Slots())
    }

    constructor (perCluster: nat, clusters: seq<seq<Slot>>)
      requires perCluster > 0 && clusters != [] && AllFit(Flat(clusters))
      requires forall c :: 0 <= c < |clusters| ==> |clusters[c]| == perCluster
      ensures Valid() && this.perCluster == perCluster && this.clusters == clusters
    {
      this.perCluster, this.clusters := perCluster, clusters;
    }

    /** fat32_lookup: the first visible entry with that name, ignoring case, and where it is. */
    method Lookup(name: seq<Byte>) returns (r: Option<Found>)
      requires Valid()
      ensures r.Some? ==> r.value.cluster < |clusters| && r.value.index < perCluster
      ensures EntryOf(clusters, r) == FindName(Entries(Slots()), Key(name))
    {
      hide Entries, Pending, Step, NameOf, UpperAll, FindName, Fits, FirstSlot, Flat;
      var key := Key(name);
      var buffer := new Byte[NAME_BUFFER];
      var expected: Byte, valid := 0, false;
      ghost var slots := Slots();
      PendingStart(clusters, key, Scan(buffer[..], expected, valid));
      for c := 0 to |clusters|
        invariant Pending(slots, key, Scan(buffer[..], expected, valid), FirstSlot(clusters, c))
        invariant c == |clusters| ==> FirstSlot(clusters, c) == |slots|
      {
        FlatAt(clusters, c);
        ghost var base := FirstSlot(clusters, c);
        for i := 0 to perCluster
          invariant base == FirstSlot(clusters, c) && base + perCluster <= |slots|
          invariant Pending(slots, key, Scan(buffer[..], expected, valid), base + i)
        {
          var s := clusters[c][i];
          assert slots[base + i] == s;
          ghost var st := Scan(buffer[..], expected, valid);
          if IsEnd(s) {
            PendingEnd(slots, key, st, base + i);
            return None;
          }
          PendingNext(slots, key, st, base + i);
          if IsShort(s) {
            var entryName := EntryName(buffer, expected, valid, s);
            if UpperAll(key) == UpperAll(entryName) {
              return Some(Found(entryName, s, c, i));
            }
          }
          expected, valid := Advance(buffer, expected, valid, s);
        }
      }
      PendingEnd(slots, key, Scan(buffer[..], expected, valid), |slots|);
      r := None;
    }

    /** Marks the slots of an entry as deleted: the short one, and of its run those in the run's first
        cluster. Slots of the run in later clusters stay behind. */
    method Kill(c: nat, i: nat, startCluster: nat, startIndex: nat)
      requires Valid() && c < |clusters| && i < perCluster && startCluster <= c && startIndex < perCluster
      requires startCluster == c ==> startIndex <= i
      modifies this
      ensures |clusters| == |old(clusters)| && forall d :: 0 <= d < |clusters| ==> |clusters[d]| == perCluster
      ensures Deleted(old(Slots()), Slots(), FirstSlot(old(clusters), startCluster) + startIndex, FirstSlot(old(clusters), c) + i)
    {
      hide Flat, FirstSlot, Killed, Deleted;
      var cluster: seq<Slot> := clusters[c][i := Killed(clusters[c][i])];
      if startCluster == c {
        cluster := KillRange(cluster, startIndex, i);
        KilledHere(clusters, c, i, startIndex, cluster);
        clusters := clusters[c := cluster];
      } else {
        var run := KillRange(clusters[startCluster], startIndex, perCluster);
        KilledAcross(clusters, c, i, startCluster, startIndex, run, cluster);
        clusters := clusters[startCluster := run];
        clusters := clusters[c := cluster];
      }
    }

    /** The scan of delete_dir_entries: like a lookup, but it also keeps where the run began. */
    method Locate(name: seq<Byte>) returns (r: Option<Found>, startCluster: nat, startIndex: nat)
      requires Valid()
      ensures r.Some? ==> r.value.cluster < |clusters| && r.value.index < perCluster
      ensures EntryOf(clusters, r) == FindName(Entries(Slots()), Key(name))
      ensures r.Some? ==> startCluster <= r.value.cluster && startIndex < perCluster
      ensures r.Some? ==> Located(Slots(), FirstSlot(clusters, startCluster) + startIndex, FirstSlot(clusters, r.value.cluster) + r.value.index)
    {
      hide Entries, Tracking, Located, Step, NameOf, UpperAll, FindName, Fits, FirstSlot, Flat, ChecksumOf, Key, AllFit;
      var key := Key(name);
      var buffer := new Byte[NAME_BUFFER];
      var expected: Byte, valid := 0, false;
      startCluster, startIndex := 0, 0;
      ghost var slots := Slots();
      TrackingStart(clusters, key, Scan(buffer[..], expected, valid), FirstSlot(clusters, 0));
      for c := 0 to |clusters|
        invariant startCluster <= c && startCluster < |clusters| && startIndex < perCluster
        invariant Tracking(slots, key, Scan(buffer[..], expected, valid), FirstSlot(clusters, startCluster) + startIndex, FirstSlot(clusters, c))
        invariant c == |clusters| ==> FirstSlot(clusters, c) == |slots|
      {
        FlatAt(clusters, c);
        ghost var base := FirstSlot(clusters, c);
        for i := 0 to perCluster
          invariant startCluster <= c && startIndex < perCluster
          invariant Tracking(slots, key, Scan(buffer[..], expected, valid), FirstSlot(clusters, startCluster) + startIndex, base + i)
        {
          var s := clusters[c][i];
          assert slots[base + i] == s;
          ghost var st := Scan(buffer[..], expected, valid);
          if IsEnd(s) {
            TrackingEnd(slots, key, st, FirstSlot(clusters, startCluster) + startIndex, base + i);
            return None, 0, 0;
          }
          TrackingNext(slots, key, st, FirstSlot(clusters, startCluster) + startIndex, base + i);
          if IsShort(s) {
            var sum := Checksum(s);
            var entryName := EntryName(buffer, expected, valid, s);
            if !(valid && sum == expected) {
              startCluster, startIndex := c, i;
            }
            if UpperAll(key) == UpperAll(entryName) {
              return Some(Found(entryName, s, c, i)), startCluster, startIndex;
            }
          } else if !IsDeleted(s) && StartsRun(s) {
            startCluster, startIndex := c, i;
          }
          expected, valid := Advance(buffer, expected, valid, s);
        }
      }
      TrackingEnd(slots, key, Scan(buffer[..], expected, valid), FirstSlot(clusters, startCluster) + startIndex, |slots|);
      return None, 0, 0;
    }

    /** delete_dir_entries: removes exactly the entry that a lookup of the name finds, and reports its
        first cluster. */
    method DeleteEntries(name: seq<Byte>) returns (deleted: bool, first: nat)
      requires Valid()
      modifies this
      ensures Valid() && |clusters| == |old(clusters)|
      ensures
        var found := FindName(Entries(old(Slots())), Key(name));
        if deleted
        then found.Some? && Entries(Slots()) == Without(Entries(old(Slots())), found.value.at) && first == FirstCluster(found.value.slot)
        else found.None? && clusters == old(clusters)
      ensures EndClean(old(Slots())) ==> EndClean(Slots())
    {
      hide Entries, FindName, FirstSlot, Flat, InRun, Deleted, Without, EndClean, FirstCluster, Fits;
      var r, startCluster, startIndex := Locate(name);
      if r.None? {
        return false, 0;
      }
      ghost var slots := Slots();
      ghost var start, at := FirstSlot(clusters, startCluster) + startIndex, FirstSlot(clusters, r.value.cluster) + r.value.index;
      LocatedOrder(slots, start, at);
      FlatAt(clusters, r.value.cluster);
      Kill(r.value.cluster, r.value.index, startCluster, startIndex);
      DeletedEntries(slots, Slots(), start, at);
      return true, FirstCluster(r.value.slot);
    }

    /** fat32_readdir: the entry with that number in the list, its name cut to the caller's buffer. */
    method ReadDir(index: nat, length: nat) returns (found: bool, name: seq<Byte>, isDirectory: bool)
      requires Valid() && 1 <= length <= NAME_BUFFER
      ensures found <==> index < |Entries(Slots())|
      ensures found ==>
        var e := Entries(Slots())[index];
        name == e.name[..if |e.name| < length then |e.name| else length - 1] && isDirectory == IsDirectory(e.slot)
    {
      hide Entries, Numbered, Step, NameOf, Fits, FirstSlot, Flat;
      var buffer := new Byte[NAME_BUFFER];
      var expected: Byte, valid := 0, false;
      var n := 0;
      ghost var slots := Slots();
      NumberedStart(clusters, Scan(buffer[..], expected, valid));
      for c := 0 to |clusters|
        invariant n <= index && Numbered(slots, Scan(buffer[..], expected, valid), FirstSlot(clusters, c), n)
        invariant c == |clusters| ==> FirstSlot(clusters, c) == |slots|
      {
        FlatAt(clusters, c);
        ghost var base := FirstSlot(clusters, c);
        for i := 0 to perCluster
          invariant base == FirstSlot(clusters, c) && base + perCluster <= |slots|
          invariant n <= index && Numbered(slots, Scan(buffer[..], expected, valid), base + i, n)
        {
          var s := clusters[c][i];
          assert slots[base + i] == s;
          ghost var st := Scan(buffer[..], expected, valid);
          if IsEnd(s) {
            NumberedEnd(slots, st, base + i, n);
            return false, [], false;
          }
          NumberedNext(slots, st, base + i, n);
          if IsShort(s) {
            if n == index {
              name := EntryName(buffer, expected, valid, s);
              if |name| >= length {
                name := name[..length - 1];
              }
              return true, name, IsDirectory(s);
            }
            n := n + 1;
          }
          expected, valid := Advance(buffer, expected, valid, s);
        }
      }
      NumberedEnd(slots, Scan(buffer[..], expected, valid), |slots|, n);
      return false, [], false;
    }

    /** fat32_unlink: removes what a lookup finds unless that is a directory. */
    method Unlink(name: seq<Byte>) returns (ok: bool, first: nat)
      requires Valid()
      modifies this
      ensures Valid() && (EndClean(old(Slots())) ==> EndClean(Slots()))
      ensures
        var found := FindName(Entries(old(Slots())), Key(name));
        if found.None? || IsDirectory(found.value.slot)
        then !ok && clusters == old(clusters)
        else ok && first == FirstCluster(found.value.slot) && Entries(Slots()) == Without(Entries(old(Slots())), found.value.at)
    {
      hide Entries, FindName, FirstSlot, Flat, Without, EndClean, FirstCluster, Fits, IsDirectory;
      var target := Lookup(name);
      if target.None? || IsDirectory(target.value.slot) {
        return false, 0;
      }
      ok, first := DeleteEntries(name);
    }

    /** The inner loop of find_free_dir_entries: one cluster more, with `run` free slots before it. */
    method FreeRunIn(c: nat, count: nat, run0: nat, runCluster0: nat, runIndex0: nat)
      returns (found: bool, run: nat, runCluster: nat, runIndex: nat)
      requires Valid() && EndClean(Slots()) && c < |clusters|
      requires FreeRun(clusters, FirstSlot(clusters, c), count, run0, runCluster0, runIndex0, perCluster)
      ensures found ==> runCluster < |clusters| && runIndex < perCluster && Room(Slots(), FirstSlot(clusters, runCluster) + runIndex, count)
      ensures found ==> IsFirstRun(Slots(), FirstSlot(clusters, runCluster) + runIndex, count)
      ensures !found ==> run < count && FreeRun(clusters, FirstSlot(clusters, c + 1), count, run, runCluster, runIndex, perCluster)
      ensures !found && (forall i :: 0 <= i < perCluster ==> IsEnd(clusters[c][i])) ==> run > run0
    {
      hide Flat, FirstSlot, Fits, EndClean;
      ghost var slots, base := Slots(), FirstSlot(clusters, c);
      FlatAt(clusters, c);
      run, runCluster, runIndex := run0, runCluster0, runIndex0;
      for i := 0 to perCluster
        invariant FreeRun(clusters, base + i, count, run, runCluster, runIndex, perCluster)
        invariant (forall j :: 0 <= j < perCluster ==> IsEnd(clusters[c][j])) ==> run == run0 + i
      {
        assert slots[base + i] == clusters[c][i];
        if IsEnd(clusters[c][i]) || IsDeleted(clusters[c][i]) {
          if run == 0 {
            runCluster, runIndex := c, i;
          }
          run := run + 1;
          if run >= count {
            return true, run, runCluster, runIndex;
          }
        } else {
          NoEndBefore(slots, base + i);
          UsedSlot(slots, base + i, run, count);
          run := 0;
        }
      }
      found := false;
    }

    /** find_free_dir_entries: the first run of free slots, which has no end mark before it. While
        the directory has none, empty clusters are appended, which show nothing; `grants` is how many
        of them the volume still gives. */
    method FindFree(count: nat, grants: nat) returns (ok: bool, cluster: nat, index: nat, ghost start: nat)
      requires Valid() && EndClean(Slots()) && count > 0
      modifies this
      ensures Valid() && EndClean(Slots()) && |old(clusters)| <= |clusters| <= |old(clusters)| + grants && Grown(old(Slots()), Slots())
      ensures IsFirstRun(old(Slots()), start, count)
      ensures ok <==> start + count <= (|old(clusters)| + grants) * perCluster
      ensures ok ==> cluster == start / perCluster < |clusters| && index == start % perCluster
      ensures ok ==> FirstSlot(clusters, cluster) + index == start && Room(Slots(), start, count)
    {
      hide Flat, FirstSlot, Fits, EndClean, FreeRun, Room, Grown, IsFirstRun;
      var c: nat := 0;
      var run: nat, runCluster: nat, runIndex: nat := 0, 0, 0;
      var n := |clusters|;
      ok, cluster, index, start := false, 0, 0, 0;
      FreeRunStart(clusters, count, perCluster);
      GrownSelf(Slots());
      while c < |clusters|
        invariant c < |clusters| && Valid() && EndClean(Slots()) && n <= |clusters| <= n + grants && Grown(old(Slots()), Slots())
        invariant run < count && FreeRun(clusters, FirstSlot(clusters, c), count, run, runCluster, runIndex, perCluster)
        invariant forall d :: n <= d < |clusters| ==> forall i :: 0 <= i < perCluster ==> IsEnd(clusters[d][i])
        decreases if c < n then n - c else 0, count - run
      {
        var found;
        found, run, runCluster, runIndex := FreeRunIn(c, count, run, runCluster, runIndex);
        if found {
          start := FirstSlot(clusters, runCluster) + runIndex;
          RoomSize(Slots(), start, count);
          RunPlaced(old(Slots()), clusters, start, count, runCluster, runIndex, perCluster, n + grants);
          return true, runCluster, runIndex, start;
        }
        if c + 1 == |clusters| {
          if |clusters| == n + grants {
            start := RunRefused(old(Slots()), clusters, count, run, runCluster, runIndex, perCluster);
            return false, 0, 0, start;
          }
          AppendedOk(clusters, perCluster);
          AppendedRun(clusters, perCluster, c + 1, count, run, runCluster, runIndex);
          GrownTwice(old(Slots()), Flat(clusters), Flat(clusters + [EmptyCluster(perCluster)]));
          clusters := clusters + [EmptyCluster(perCluster)];
        }
        c := c + 1;
      }
    }

    /** write_dir_entries: the entries over the slots from a place on, as far as the directory goes. */
    method WriteSlots(cluster: nat, index: nat, entries: seq<Slot>) returns (ok: bool)
      requires Shaped() && cluster < |clusters| && index < perCluster
      modifies this
      ensures Shaped() && |clusters| == |old(clusters)|
      ensures ok <==> FirstSlot(old(clusters), cluster) + index + |entries| <= |old(Slots())|
      ensures ok ==> Slots() == Placed(old(Slots()), FirstSlot(old(clusters), cluster) + index, entries)
    {
      hide Flat, FirstSlot, Placed;
      ghost var was := Slots();
      ghost var p := FirstSlot(clusters, cluster) + index;
      FlatAt(clusters, cluster);
      var c: nat, i: nat := cluster, index;
      var written: nat := 0;
      PlacedNone(was, p);
      while written < |entries| && c < |clusters|
        invariant Shaped() && |clusters| == |old(clusters)| && written <= |entries| && c <= |clusters| && |Slots()| == |was|
        invariant written < |entries| && c < |clusters| ==> i < perCluster && FirstSlot(clusters, c) + i == p + written
        invariant p + written <= |was| && Slots() == Placed(was, p, entries[..written])
        invariant c == |clusters| ==> p + written == |was|
        decreases |clusters| - c, |entries| - written
      {
        ghost var done: nat, from: nat := written, i;
        FlatAt(clusters, c);
        var buffer;
        buffer, i, written := CopySlots(clusters[c], i, entries, written);
        PlacedMore(clusters, c, from, was, p, entries, done, written, buffer);
        FirstSlotFrame(clusters, clusters[c := buffer], c);
        clusters := clusters[c := buffer];
        FlatAt(clusters, c);
        if written < |entries| {
          c, i := c + 1, 0;
        }
      }
      assert written == |entries| ==> entries[..written] == entries;
      return written == |entries|;
    }

    /** short_name_exists. */
    method ShortNameExists(short: seq<Byte>) returns (taken: bool)
      requires Valid()
      ensures taken <==> short in Taken(Slots(), 0)
    {
      hide Flat, FirstSlot, Fits, AllFit, Taken;
      ghost var slots := Slots();
      NoSlots(clusters);
      for c := 0 to |clusters|
        invariant FirstSlot(clusters, c) <= |slots| && (c == |clusters| ==> FirstSlot(clusters, c) == |slots|)
        invariant short in Taken(slots, 0) <==> short in Taken(slots, FirstSlot(clusters, c))
      {
        FlatAt(clusters, c);
        ghost var base := FirstSlot(clusters, c);
        for i := 0 to perCluster
          invariant base == FirstSlot(clusters, c) && base + perCluster <= |slots|
          invariant short in Taken(slots, 0) <==> short in Taken(slots, base + i)
        {
          var s := clusters[c][i];
          assert slots[base + i] == s;
          TakenNext(slots, base + i);
          if IsEnd(s) {
            return false;
          }
          if IsShort(s) && s[..11] == short {
            return true;
          }
        }
      }
      TakenNone(slots);
      return false;
    }

    /** generate_unique_short_name: the plain form exactly if it is free, and otherwise the one with the
        lowest free tail; in a directory with fewer entries than there are tails, a name no entry has. */
    method GenerateUniqueShortName(name: seq<Byte>) returns (short: seq<Byte>)
      requires Valid()
      ensures |Entries(Slots())| < MAX_TAIL ==> short !in Taken(Slots(), 0)
      ensures ShortFor(short, name, Taken(Slots(), 0))
    {
      hide Flat, Fits, AllFit, Taken, Short, TailFits, Entries;
      ghost var slots := Slots();
      TailsFit(0);
      short := GenerateShortName(name, 0);
      var taken := ShortNameExists(short);
      if !taken {
        assert IsChoice(short, 0, name, Taken(slots, 0));
        return;
      }
      for i := 1 to MAX_TAIL + 1
        invariant TailFits(i - 1) && short == Short(name, i - 1)
        invariant forall j: nat :: j < i && TailFits(j) ==> Short(name, j) in Taken(slots, 0)
      {
        TailsFit(i);
        short := GenerateShortName(name, i);
        taken := ShortNameExists(short);
        if !taken {
          assert IsChoice(short, i, name, Taken(slots, 0));
          return;
        }
      }
      assert IsChoice(short, MAX_TAIL, name, Taken(slots, 0));
      if |Entries(slots)| < MAX_TAIL {
        TakenFewer(slots);
        SomeTailFree(name, Taken(slots, 0));
        assert false;
      }
    }

    /** Finding room for an entry and its long slots, and writing them. */
    method AddEntry(name: seq<Byte>, e: Slot, grants: nat) returns (r: Option<Found>, ghost start: nat)
      requires Valid() && EndClean(Slots()) && NameOk(name) && IsEntry(e)
      modifies this
      ensures Valid() && EndClean(Slots())
      ensures r.None? ==> Entries(Slots()) == Entries(old(Slots()))
      ensures r.Some? ==> r.value.cluster < |clusters| && r.value.name == name && r.value.slot == e
      ensures r.Some? ==> Added(old(Slots()), Slots(), name, FirstSlot(clusters, r.value.cluster) + r.value.index, e)
      ensures r.Some? ==> IsAt(Slots(), FirstSlot(clusters, r.value.cluster) + r.value.index, e)
      ensures IsFirstRun(old(Slots()), start, ExtraSlots(name) + 1)
      ensures r.Some? <==> start + ExtraSlots(name) < (|old(clusters)| + grants) * perCluster
      ensures r.Some? ==> r.value.cluster == start / perCluster && r.value.index == start % perCluster + ExtraSlots(name)
    {
      hide Flat, FirstSlot, Fits, AllFit, Entries, EndClean, Room, Placed, Grown, Created, NewSlots, NeedsLong, IsEntry, Added, IsFirstRun;
      var long := ExtraSlots(name);
      var entries: seq<Slot> := if NeedsLong(name) then NewSlots(name, e) else [e];
      ghost var was := Slots();
      var ok, cluster, index;
      ok, cluster, index, start := FindFree(long + 1, grants);
      GrownEntries(was, Slots());
      if !ok {
        return None, start;
      }
      ghost var slots, p, cs := Slots(), start, clusters;
      RoomSize(slots, p, long + 1);
      ok := WriteSlots(cluster, index, entries);
      FirstSlotFrame(cs, clusters, cluster);
      if NeedsLong(name) {
        CreatedLong(was, slots, Slots(), p, name, e, entries);
      } else {
        CreatedShort(was, slots, Slots(), p, name, e);
      }
      return Some(Found(name, e, cluster, index + long)), start;
    }

    /** fat32_create_entry: one more entry shows, under exactly the name asked for if that needs long
        slots and under the formatted short name otherwise, and nothing else changes. The new slots
        are the first run of free ones, from `start` on. The place it reports lies in its cluster
        exactly if the run stays in the cluster it starts in. */
    method Create(name: seq<Byte>, attr: Byte, fields: seq<Byte>, grants: nat) returns (r: Option<Found>, ghost start: nat)
      requires Valid() && EndClean(Slots()) && NameOk(name) && attr != LFN && |fields| == 20
      modifies this
      ensures Valid() && EndClean(Slots())
      ensures r.None? ==> Entries(Slots()) == Entries(old(Slots()))
      ensures r.Some? ==> r.value.cluster < |clusters| && r.value.name == name
      ensures r.Some? ==> Added(old(Slots()), Slots(), name, FirstSlot(clusters, r.value.cluster) + r.value.index, r.value.slot)
      ensures r.Some? ==> IsAt(Slots(), FirstSlot(clusters, r.value.cluster) + r.value.index, r.value.slot)
      ensures r.Some? ==> ShortFor(r.value.slot[..11], name, Taken(old(Slots()), 0)) && r.value.slot[11] == attr && r.value.slot[12..] == fields
      ensures r.Some? && |Entries(old(Slots()))| < MAX_TAIL ==> r.value.slot[..11] !in Taken(old(Slots()), 0)
      ensures r.Some? && ShowsAsAsked(old(Slots()), name) ==>
        var e := Entry(name, FirstSlot(clusters, r.value.cluster) + r.value.index, r.value.slot);
        && Created(Entries(old(Slots())), Entries(Slots()), e)
        && (FindName(Entries(old(Slots())), Key(name)).None? && !IsDeleted(e.slot) ==> FindName(Entries(Slots()), Key(name)) == Some(e))
      ensures IsFirstRun(old(Slots()), start, ExtraSlots(name) + 1)
      ensures r.Some? <==> start + ExtraSlots(name) < (|old(clusters)| + grants) * perCluster
      ensures r.Some? ==> r.value.cluster == start / perCluster && r.value.index == start % perCluster + ExtraSlots(name)
      ensures r.Some? ==> (r.value.index < perCluster <==> start % perCluster + ExtraSlots(name) < perCluster)
    {
      hide Flat, FirstSlot, Fits, AllFit, Taken, Short, Entries, EndClean, TailFits, Added, IsFirstRun, ShowsAsAsked, Created, FindName;
      var short := GenerateUniqueShortName(name);
      ghost var was := Slots();
      ghost var suffix: nat :| IsChoice(short, suffix, name, Taken(was, 0));
      var e: Slot := short + [attr] + fields;
      assert e[..11] == short && e[12..] == fields;
      FirstByte(name, suffix);
      r, start := AddEntry(name, e, grants);
      if r.Some? {
        AsAsked(was, Slots(), name, FirstSlot(clusters, r.value.cluster) + r.value.index, e);
      }
    }
  }
}
