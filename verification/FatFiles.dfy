/** Reading and writing FAT32 files (kernel/fs/fat32.c:211-454 and 962-968). The volume's table and
    clusters are updated in place. */
module FatFiles {
  import opened Base
  import opened ClusterChains

  /** The fields of an inode and its FAT data that file access uses. */
  class Node {
    var size: nat
    var first: nat
    const entryCluster: nat
    const entryOffset: nat

    constructor (size: nat, first: nat, entryCluster: nat, entryOffset: nat)
      ensures this.size == size && this.first == first && this.entryCluster == entryCluster && this.entryOffset == entryOffset
    {
      this.size, this.first, this.entryCluster, this.entryOffset := size, first, entryCluster, entryOffset;
    }
  }

  /** The last cluster of chain `h` names cluster `x`, which is free or does not exist. */
  ghost predicate BadLink(v: Volume, v': Volume, h: nat, x: nat) {
    && VolumeOk(v) && h in v.chains && v' == v.(fat := v'.fat) && |v'.fat| == |v.fat| && x < |v.fat|
    && (forall y :: 0 <= y < v.total + 2 ==> v'.fat[y] == if y == v.chains[h][|v.chains[h]| - 1] then x else v.fat[y])
    && (IsCluster(v.total, x) ==> v.fat[x] == 0) && 2 <= x
  }

  lemma BadLinkBreaks(v: Volume, v': Volume, h: nat, x: nat)
    requires BadLink(v, v', h, x)
    ensures h in v'.chains && !IsChain(v'.fat, v'.total, v'.chains[h]) && !VolumeOk(v')
  {
    ChainEntries(v.fat, v.total, v.chains[h], |v.chains[h]| - 1);
  }

  /** Chain `h` of an otherwise sound volume ends in a bad link. */
  ghost predicate Broken(v0: Volume, v': Volume, h: nat) {
    exists v, x :: OthersKept(v0, v, h) && BadLink(v, v', h, x)
  }

  /** A cluster of the volume that find_free_cluster can see is free. */
  ghost predicate HasFree(v: Volume)
    requires ScanLimit(v.total) <= |v.fat|
  {
    exists x :: 0 <= x < ScanLimit(v.total) && IsCluster(v.total, x) && v.fat[x] == 0
  }

  /** A table entry that find_free_cluster looks at, but that belongs to no cluster, is zero. */
  ghost predicate TailFree(v: Volume)
    requires ScanLimit(v.total) <= |v.fat|
  {
    exists x :: v.total + 2 <= x < ScanLimit(v.total) && v.fat[x] == 0
  }

  lemma WrittenFacts(v0: Volume, v: Volume, h: nat, offset: nat, bytes: seq<Byte>, w: nat)
    requires Written(v0, v, h, offset, bytes, w)
    ensures h in v.chains && IsChain(v.fat, v.total, v.chains[h]) && v.chains[h] != [] && v.chains[h][0] == h && VolumeOk(v)
    ensures OthersKept(v0, v, h)
  {
  }

  lemma NotHead(v: Volume, h: nat)
    requires VolumeOk(v) && h < 2
    ensures h !in v.chains
  {
  }

  lemma DivMod(a: nat, b: nat)
    requires b > 0
    ensures a / b * b + a % b == a && a % b < b
  {
  }

  /** What fat32_write_file does to the chains, apart from bad links. */
  ghost predicate Outcome(v0: Volume, v: Volume, first0: nat, first: nat, offset: nat, bytes: seq<Byte>, w: nat) {
    || (v == v0 && first == first0 && w == 0)
    || (Written(v0, v, first, offset, bytes, w) && (if first0 in v0.chains then first == first0 else first !in v0.chains))
  }

  lemma OutcomeNone(v0: Volume, first: nat, offset: nat, bytes: seq<Byte>)
    ensures Outcome(v0, v0, first, first, offset, bytes, 0)
  {
  }

  lemma OutcomeWritten(v0: Volume, first0: nat, first: nat, offset: nat, bytes: seq<Byte>)
    requires if first0 in v0.chains then first == first0 else first !in v0.chains
    ensures forall v, w :: Written(v0, v, first, offset, bytes, w) ==> Outcome(v0, v, first0, first, offset, bytes, w)
  {
  }

  lemma ClusterSized(v: Volume)
    requires VolumeOk(v)
    ensures v.clusterSize > 0
  {
  }

  /** The chain is the flat array it was, extended with zeros, with `bytes` written at `offset`. */
  ghost predicate FlatWrite(v0: Volume, v: Volume, first0: nat, first: nat, offset: nat, bytes: seq<Byte>) {
    && VolumeOk(v0) && VolumeOk(v)
    && |ContentOf(v0, first0)| <= |ContentOf(v, first)| && (bytes != [] ==> offset + |bytes| <= |ContentOf(v, first)|)
    && ContentOf(v, first) == Laid(ContentOf(v0, first0), |ContentOf(v, first)|, offset, bytes)
  }

  /** Chains other than `h` stay where they were; those other than `dir` too keep their bytes. */
  ghost predicate OthersBut(v0: Volume, v: Volume, h: nat, dir: nat) {
    && VolumeOk(v0) && VolumeOk(v) && v.chains.Keys - {h} == v0.chains.Keys - {h}
    && forall g :: g in v0.chains && g != h ==>
         g in v.chains && v.chains[g] == v0.chains[g] && (g != dir ==> ContentOf(v, g) == ContentOf(v0, g))
  }

  /** Of the entry's cluster nothing changes but the entry's last fields; those do if `stamped` and the
      entry lies inside the cluster. */
  ghost predicate EntryKept(v0: Volume, v: Volume, cluster: nat, at: nat, size: nat, first: nat, date: nat, time: nat, stamped: bool) {
    && cluster < |v0.data| && cluster < |v.data|
    && (at + 32 > |v0.data[cluster]| ==> v.data[cluster] == v0.data[cluster])
    && (at + 32 <= |v0.data[cluster]| ==>
          var now := Patched(v0.data[cluster], at + 18, EntryTail(size, first, date, time));
          v.data[cluster] == now || (!stamped && v.data[cluster] == v0.data[cluster]))
  }

  lemma BrokenSized(v0: Volume, v: Volume, h: nat)
    requires Broken(v0, v, h)
    ensures v.total == v0.total && v.clusterSize == v0.clusterSize && |v.data| == v.total + 2 && Sized(v.data, v.clusterSize)
  {
  }

  lemma BrokenStays(v0: Volume, v: Volume, v': Volume, h: nat)
    requires Broken(v0, v, h) && v' == v.(data := v'.data)
    ensures !VolumeOk(v')
  {
    hide IsChain;
    var mid, x :| OthersKept(v0, mid, h) && BadLink(mid, v, h, x);
    BadLinkBreaks(mid, v, h, x);
  }

  lemma OutcomeFlat(v0: Volume, v: Volume, first0: nat, first: nat, offset: nat, bytes: seq<Byte>, w: nat)
    requires VolumeOk(v0) && Outcome(v0, v, first0, first, offset, bytes, w) && (first0 in v0.chains || first0 < 2)
    ensures FlatWrite(v0, v, first0, first, offset, bytes[..w])
  {
    hide VolumeOk, IsChain, Laid, OthersKept;
    if first0 < 2 {
      NotHead(v0, first0);
    }
    if v == v0 && first == first0 && w == 0 {
      LaidNone(ContentOf(v0, first0), offset);
      assert bytes[..0] == [];
    } else {
      WrittenFacts(v0, v, first, offset, bytes, w);
      ContentOfLength(v, first);
    }
  }

  /** The entry's cluster is no part of what has been written. */
  lemma OutcomeEntry(v0: Volume, v: Volume, first0: nat, first: nat, offset: nat, bytes: seq<Byte>, w: nat, dir: nat, entry: nat)
    requires VolumeOk(v0) && Outcome(v0, v, first0, first, offset, bytes, w) && (first0 in v0.chains || first0 < 2)
    requires entry >= 2 ==> dir in v0.chains && dir != first0 && entry in v0.chains[dir]
    ensures VolumeOk(v) && v.total == v0.total && v.clusterSize == v0.clusterSize && (first in v.chains || first < 2)
    ensures entry >= 2 ==> dir in v.chains && v.chains[dir] == v0.chains[dir] && entry < |v.data| && entry < |v0.data| && v.data[entry] == v0.data[entry]
  {
    hide Laid, ContentOf, IsChain;
    if entry >= 2 {
      ChainNonEmpty(v0.fat, v0.total, v0.chains[dir]);
    }
  }

  /** Stamping the entry changes no other chain. */
  lemma StampOk(v: Volume, v': Volume, dir: nat, entry: nat)
    requires VolumeOk(v) && v' == v.(data := v'.data) && |v'.data| == |v.data| && Sized(v'.data, v.clusterSize)
    requires entry < 2 ==> v' == v
    requires entry >= 2 ==> dir in v.chains && entry in v.chains[dir]
    requires forall x :: 0 <= x < |v.data| && x != entry ==> v'.data[x] == v.data[x]
    ensures VolumeOk(v')
    ensures forall g :: g in v.chains && (entry < 2 || g != dir) ==> ContentOf(v', g) == ContentOf(v, g)
  {
    hide IsChain, ContentOf;
    if entry >= 2 {
      var k :| 0 <= k < |v.chains[dir]| && v.chains[dir][k] == entry;
      ChainWithin(v.fat, v.total, v.chains[dir], v.data);
      RewrittenOk(v, dir, k, v'.data[entry]);
      assert v'.data == v.data[entry := v'.data[entry]];
      forall g | g in v.chains && g != dir
        ensures ContentOf(v', g) == ContentOf(v, g)
      {
        OthersContent(v, v', dir, g);
      }
    }
  }

  lemma OutcomeNoLeak(v0: Volume, v: Volume, v': Volume, first0: nat, first: nat, offset: nat, bytes: seq<Byte>, w: nat)
    requires Outcome(v0, v, first0, first, offset, bytes, w) && v' == v.(data := v'.data)
    ensures NoLeak(v0) ==> NoLeak(v')
  {
    hide OthersKept, ContentOf, Laid;
  }

  lemma OutcomeStamped(v0: Volume, v: Volume, v': Volume, first0: nat, first: nat, offset: nat, bytes: seq<Byte>, w: nat, dir: nat, entry: nat)
    requires VolumeOk(v0) && VolumeOk(v) && VolumeOk(v') && v' == v.(data := v'.data)
    requires Outcome(v0, v, first0, first, offset, bytes, w) && (first0 in v0.chains || first0 < 2)
    requires entry >= 2 ==> dir in v0.chains && dir != first0
    requires forall g :: g in v.chains && (entry < 2 || g != dir) ==> ContentOf(v', g) == ContentOf(v, g)
    ensures FlatWrite(v0, v', first0, first, offset, bytes[..w])
    ensures OthersBut(v0, v', first, if entry < 2 then first else dir)
  {
    hide VolumeOk, IsChain, Laid, Written, OthersKept;
    OutcomeFlat(v0, v, first0, first, offset, bytes, w);
    if v != v0 || first != first0 || w != 0 {
      WrittenFacts(v0, v, first, offset, bytes, w);
      OthersAll(v0, v, first);
    }
  }

  lemma OthersAll(v0: Volume, v: Volume, h: nat)
    requires OthersKept(v0, v, h)
    ensures VolumeOk(v0) && VolumeOk(v) && v.chains.Keys == v0.chains.Keys + {h}
    ensures forall g :: g in v0.chains && g != h ==> g in v.chains && v.chains[g] == v0.chains[g] && ContentOf(v, g) == ContentOf(v0, g)
  {
    hide VolumeOk, ContentOf, SameClusters;
    forall g | g in v0.chains && g != h
      ensures ContentOf(v, g) == ContentOf(v0, g)
    {
      OthersContent(v0, v, h, g);
    }
  }

  lemma HeadOf(v: Volume, h: nat)
    requires VolumeOk(v) && h in v.chains
    ensures IsChain(v.fat, v.total, v.chains[h]) && v.chains[h] != [] && v.chains[h][0] == h && v.clusterSize > 0
    ensures |v.data| == v.total + 2 && Sized(v.data, v.clusterSize)
  {
  }

  lemma SkipInside(k: nat, at: nat, n: nat, size: nat)
    requires k * size + at < n * size
    ensures k < n
  {
    if k >= n {
      MulMono(n, k, size);
    }
  }

  lemma ChainEnds(fat: seq<nat>, total: nat, c: seq<nat>, x: nat)
    requires IsChain(fat, total, c) && x >= FAT_EOC
    ensures x !in c
  {
  }

  /** A part of cluster `k` is a slice of what the chain holds. */
  lemma SliceAt(v: Volume, h: nat, k: nat, at: nat, m: nat)
    requires VolumeOk(v) && h in v.chains && k < |v.chains[h]| && at + m <= v.clusterSize
    ensures v.chains[h][k] < |v.data| && |v.data[v.chains[h][k]]| == v.clusterSize
    ensures k * v.clusterSize + at + m <= |ContentOf(v, h)|
    ensures v.data[v.chains[h][k]][at..at + m] == ContentOf(v, h)[k * v.clusterSize + at..k * v.clusterSize + at + m]
  {
    ContentSplit(v.data, v.chains[h], k);
    ContentLength(v.data, v.chains[h][..k], v.clusterSize);
    MiddleSlice(Content(v.data, v.chains[h][..k]), v.data[v.chains[h][k]], Content(v.data, v.chains[h][k + 1..]), at, m);
  }

  lemma MiddleSlice(a: seq<Byte>, x: seq<Byte>, b: seq<Byte>, at: nat, m: nat)
    requires at + m <= |x|
    ensures (a + x + b)[|a| + at..|a| + at + m] == x[at..at + m]
  {
  }

  const U64: nat := 0x1_0000_0000_0000_0000

  /** The bytes of a read: the clipping test is a 64-bit sum. */
  function ReadBytes(content: seq<Byte>, fileSize: nat, offset: nat, size: nat): seq<Byte>
    requires fileSize <= |content|
  {
    if offset >= fileSize then [] else
      var n := if (offset + size) % U64 > fileSize then fileSize - offset else size;
      content[offset..if offset + n < |content| then offset + n else |content|]
  }

  /** A read delivers the slice of the file it was asked for, unless the 64-bit sum wraps and the
      chain holds more than the file. */
  lemma ReadIsSlice(content: seq<Byte>, fileSize: nat, offset: nat, size: nat)
    requires fileSize <= |content| < U64 && size < U64
    ensures
      ReadBytes(content, fileSize, offset, size) ==
        (if offset >= fileSize then [] else content[offset..if offset + size < fileSize then offset + size else fileSize])
      <==> offset + size < U64 || offset >= fileSize || fileSize == |content|
  {
  }

  /** Two bytes of file in a chain of three, read from offset 1 with a count that wraps the sum to zero:
      the byte behind the file comes along. */
  lemma ReadRunsOver()
    ensures ReadBytes([1, 2, 3], 2, 1, U64 - 1) == [2, 3]
  {
    assert (1 + (U64 - 1)) % U64 == 0;
    assert ReadBytes([1, 2, 3], 2, 1, U64 - 1) == [1, 2, 3][1..3];
  }

  lemma NoContent(v: Volume, h: nat)
    requires VolumeOk(v) && ContentOf(v, h) != []
    ensures h in v.chains
  {
  }

  // ---- freeing ----

  predicate Live(c: nat) {
    2 <= c < FAT_EOC
  }

  /** The cluster `n` links after `c`. */
  ghost function Hop(fat: seq<nat>, c: nat, n: nat): nat {
    if n == 0 then c else var d := Hop(fat, c, n - 1); if Live(d) && d < |fat| then fat[d] else 0
  }

  ghost predicate Reaches(fat: seq<nat>, c: nat, x: nat) {
    Live(x) && exists n: nat :: Hop(fat, c, n) == x
  }

  lemma HopNext(fat: seq<nat>, c: nat, n: nat)
    requires Live(Hop(fat, c, n)) && Hop(fat, c, n) < |fat|
    ensures Reaches(fat, c, Hop(fat, c, n)) && Hop(fat, c, n + 1) == fat[Hop(fat, c, n)]
  {
  }

  lemma {:induction false} Bounded(s: set<nat>, n: nat)
    requires forall x :: x in s ==> x < n
    ensures |s| <= n
  {
    if n == 0 {
      assert s == {};
    } else {
      Bounded(s - {n - 1}, n - 1);
    }
  }

  /** A set closed under links contains all that its start reaches. */
  lemma {:induction false} Closed(fat: seq<nat>, c: nat, s: set<nat>, n: nat)
    requires Live(c) ==> c in s
    requires forall x :: x in s ==> x < |fat| && (Live(fat[x]) ==> fat[x] in s)
    ensures Live(Hop(fat, c, n)) ==> Hop(fat, c, n) in s
  {
    if n > 0 {
      Closed(fat, c, s, n - 1);
    }
  }

  ghost predicate HopsInside(fat: seq<nat>, start: nat) {
    forall n: nat :: Live(Hop(fat, start, n)) ==> Hop(fat, start, n) < |fat|
  }

  /** `freed` are the clusters cleared so far: all reachable, and closed under links but for `c`. */
  ghost predicate Freeing(was: seq<nat>, fat: seq<nat>, start: nat, freed: set<nat>, c: nat, n: nat) {
    && |fat| == |was| && (Live(c) ==> c == Hop(was, start, n) && c < |was|)
    && (forall x :: x in freed ==> x < |was| && Reaches(was, start, x))
    && (forall x :: x in freed && Live(was[x]) ==> was[x] in freed || was[x] == c)
    && (forall x :: 0 <= x < |was| ==> fat[x] == if x in freed then 0 else was[x])
    && (start == c || start in freed || !Live(start))
  }

  lemma FreeingStart(was: seq<nat>, start: nat)
    requires forall n: nat :: Live(Hop(was, start, n)) ==> Hop(was, start, n) < |was|
    ensures Freeing(was, was, start, {}, start, 0) && HopsInside(was, start)
  {
    assert Hop(was, start, 0) == start;
  }

  lemma FreeingStep(was: seq<nat>, fat: seq<nat>, start: nat, freed: set<nat>, c: nat, n: nat)
    requires Freeing(was, fat, start, freed, c, n) && Live(c) && HopsInside(was, start)
    ensures c < |fat| == |was| && Freeing(was, fat[c := 0], start, freed + {c}, fat[c], n + 1)
    ensures |freed + {c}| <= |was| && (c in freed ==> fat[c] == 0 && freed + {c} == freed) && (c !in freed ==> |freed + {c}| == |freed| + 1)
  {
    hide Hop, Reaches;
    HopNext(was, start, n);
    Bounded(freed + {c}, |was|);
    assert Live(was[c]) ==> was[c] < |was|;
  }

  lemma FreeingEnd(was: seq<nat>, fat: seq<nat>, start: nat, freed: set<nat>, c: nat, n: nat)
    requires Freeing(was, fat, start, freed, c, n) && !Live(c)
    ensures |fat| == |was| && forall x :: 0 <= x < |was| ==> fat[x] == if Reaches(was, start, x) then 0 else was[x]
  {
    hide Hop;
    forall x | 0 <= x < |was| && Reaches(was, start, x)
      ensures x in freed
    {
      var m: nat :| Hop(was, start, m) == x;
      Closed(was, start, freed, m);
    }
  }

  lemma {:induction false} ChainHop(fat: seq<nat>, total: nat, c: seq<nat>, n: nat)
    requires IsChain(fat, total, c)
    ensures if n < |c| then Hop(fat, c[0], n) == c[n] else !Live(Hop(fat, c[0], n))
  {
    if n > 0 {
      ChainHop(fat, total, c, n - 1);
      if n <= |c| {
        ChainEntries(fat, total, c, n - 1);
      }
    }
  }

  /** What the first cluster of a chain reaches is the chain. */
  lemma ChainReaches(fat: seq<nat>, total: nat, c: seq<nat>)
    requires IsChain(fat, total, c)
    ensures c != [] && forall n: nat :: Live(Hop(fat, c[0], n)) ==> Hop(fat, c[0], n) < |fat|
    ensures forall x :: Reaches(fat, c[0], x) <==> x in c
  {
    forall n: nat | Live(Hop(fat, c[0], n))
      ensures Hop(fat, c[0], n) in c && Hop(fat, c[0], n) < |fat|
    {
      ChainHop(fat, total, c, n);
    }
    forall x | x in c
      ensures Reaches(fat, c[0], x)
    {
      var n :| 0 <= n < |c| && c[n] == x;
      ChainHop(fat, total, c, n);
    }
  }

  lemma FreedOk(v: Volume, v': Volume, h: nat)
    requires VolumeOk(v) && h in v.chains && v' == v.(fat := v'.fat, chains := v.chains - {h}) && |v'.fat| == |v.fat|
    requires forall x :: 0 <= x < |v.fat| ==> v'.fat[x] == if x in v.chains[h] then 0 else v.fat[x]
    ensures VolumeOk(v') && forall g :: g in v'.chains ==> ContentOf(v', g) == ContentOf(v, g)
  {
    hide IsChain, Content;
    ChainNonEmpty(v.fat, v.total, v.chains[h]);
    forall g | g in v'.chains
      ensures v.chains[g] != [] && IsChain(v'.fat, v'.total, v.chains[g])
    {
      ChainNonEmpty(v.fat, v.total, v.chains[g]);
      assert Disjoint(v.chains[g], v.chains[h]);
      ChainFrame(v.fat, v'.fat, v.total, v.chains[g]);
    }
  }

  /** Where the scan of find_free_cluster ends: one or two clusters short of some volumes, past the end
      of most others. */
  lemma ScanEnd(total: nat)
    ensures ScanLimit(total) < total + 2 <==> total % SECTOR_ENTRIES == 0 || total % SECTOR_ENTRIES == 127
    ensures ScanLimit(total) == total + 2 <==> total % SECTOR_ENTRIES == 126
  {
  }

  lemma LowestFree(v: Volume, c: nat)
    requires ScanLimit(v.total) <= |v.fat| && 2 <= c < ScanLimit(v.total) && v.fat[c] == 0 && forall x :: 2 <= x < c ==> v.fat[x] != 0
    ensures IsCluster(v.total, c) <==> HasFree(v)
    ensures c >= v.total + 2 ==> TailFree(v)
  {
  }

  /** A full volume of one cluster as formatting leaves it, with the rest of its table sector zero. */
  function OneCluster(): Volume {
    Volume(1, 512, seq(SECTOR_ENTRIES, i => if i < 3 then FAT_EOC else 0), seq(3, _ => ZeroBytes(512)), map[2 := [2]])
  }

  /** It is sound, has no free cluster, and yet the scan finds a zero entry. */
  lemma OverrunExists()
    ensures VolumeOk(OneCluster()) && ScanLimit(1) == 128 && !HasFree(OneCluster()) && TailFree(OneCluster())
  {
    var v := OneCluster();
    assert v.fat[3] == 0 && v.total + 2 <= 3 < ScanLimit(v.total);
    assert IsChain(v.fat, v.total, v.chains[2]);
  }

  /** In a volume of 128 clusters the last two are never seen. */
  lemma ScanMisses(v: Volume)
    requires v.total == 128 && |v.fat| == 130 && v.fat[129] == 0 && forall x :: 2 <= x < 128 ==> v.fat[x] != 0
    ensures ScanLimit(v.total) == 128 && IsCluster(v.total, 129) && !HasFree(v) && !TailFree(v)
  {
  }

  /** At the level of files: after a write the file is the flat array with the bytes in place, exactly
      if what the old chain holds between the old end and the offset is zero. */
  lemma FileWritten(content: seq<Byte>, content': seq<Byte>, size: nat, offset: nat, bytes: seq<Byte>, size': nat)
    requires size <= |content| <= |content'| && bytes != [] && offset + |bytes| <= |content'|
    requires content' == Laid(content, |content'|, offset, bytes)
    requires size' == if offset + |bytes| > size then offset + |bytes| else size
    ensures content'[..size'] == Laid(content[..size], size', offset, bytes) <==>
      forall i :: size <= i < offset && i < |content| ==> content[i] == 0
    ensures (forall i :: size <= i < |content| ==> content[i] == 0) ==> forall i :: size' <= i < |content'| ==> content'[i] == 0
  {
    var file', flat := content'[..size'], Laid(content[..size], size', offset, bytes);
    forall i | 0 <= i < size'
      ensures file'[i] == flat[i] <==> !(size <= i < offset && i < |content|) || content[i] == 0
    {
      assert file'[i] == LaidByte(content, offset, bytes, i);
      assert flat[i] == LaidByte(content[..size], offset, bytes, i);
    }
    if file' == flat {
      forall i | size <= i < offset && i < |content|
        ensures content[i] == 0
      {
        assert file'[i] == flat[i];
      }
    }
  }

  /** A one-byte file whose cluster has another byte behind it, written at offset 2: that byte appears in
      the gap, where the file should read as zero. */
  lemma StaleGap()
    ensures Laid([7, 9], 3, 2, [5])[..3] == [7, 9, 5] && Laid([7, 9][..1], 3, 2, [5]) == [7, 0, 5]
  {
    assert [7, 9][..1] == [7];
  }

  /** Reading a range just written gives the bytes back. */
  lemma WriteThenRead(content: seq<Byte>, content': seq<Byte>, size': nat, offset: nat, bytes: seq<Byte>)
    requires content' == Laid(content, |content'|, offset, bytes) && offset + |bytes| <= size' <= |content'| < U64
    ensures ReadBytes(content', size', offset, |bytes|) == bytes
  {
  }

  /** No free cluster is in sight. */
  ghost predicate Spent(v: Volume) {
    ScanLimit(v.total) <= |v.fat| && !HasFree(v)
  }

  lemma SpentKept(v: Volume, v': Volume)
    requires v' == v.(data := v'.data)
    ensures Spent(v) <==> Spent(v')
  {
  }

  /** The file's first cluster does not exist. */
  ghost predicate FirstLost(v: Volume, first: nat) {
    VolumeOk(v) && first >= v.total + 2
  }

  /** Taking an entry past the end leaves the chains alone. */
  lemma TailTaken(v: Volume, c: nat)
    requires VolumeOk(v) && v.total + 2 <= c < |v.fat| && !HasFree(v)
    ensures FirstLost(v.(fat := v.fat[c := FAT_EOC]), c) && Spent(v.(fat := v.fat[c := FAT_EOC]))
  {
    var v' := v.(fat := v.fat[c := FAT_EOC]);
    forall g | g in v.chains
      ensures IsChain(v'.fat, v.total, v.chains[g])
    {
      ChainNonEmpty(v.fat, v.total, v.chains[g]);
      ChainFrame(v.fat, v'.fat, v.total, v.chains[g]);
    }
  }

  lemma EntryIn(v: Volume, dir: nat, entry: nat)
    requires VolumeOk(v) && (entry >= 2 ==> dir in v.chains && entry in v.chains[dir])
    ensures entry >= 2 ==> IsCluster(v.total, entry) && entry < |v.data| && |v.data[entry]| == v.clusterSize
  {
    hide IsChain;
    if entry >= 2 {
      ChainNonEmpty(v.fat, v.total, v.chains[dir]);
    }
  }

  /** A broken chain or a lost first cluster stays so. */
  lemma LostStays(v0: Volume, v: Volume, v': Volume, first: nat, written: nat)
    requires Broken(v0, v, first) || FirstLost(v, first)
    requires v' == v.(data := v'.data)
    ensures VolumeOk(v') ==> first !in v'.chains && first >= 2
  {
    if Broken(v0, v, first) {
      BrokenStays(v0, v, v', first);
    } else if first in v.chains {
      ChainHead(v, first);
    }
  }

  lemma NoFreeStays(v: Volume, v': Volume, h: nat, x: nat)
    requires BadLink(v, v', h, x) && !HasFree(v)
    ensures ScanLimit(v'.total) <= |v'.fat| && !HasFree(v')
  {
  }

  // ---- the directory entry of a file ----

  /** The last 14 bytes of an entry: access date, first cluster (high half), write time and date,
      first cluster (low half) and size. */
  function EntryTail(size: nat, first: nat, date: nat, time: nat): (r: seq<Byte>)
    ensures |r| == 14
  {
    Le16(date) + Le16(first / 0x10000) + Le16(time) + Le16(date) + Le16(first) + Le16(size) + Le16(size / 0x10000)
  }

  function EntryFirst(cluster: seq<Byte>, at: nat): nat
    requires at + 32 <= |cluster|
  {
    U16(cluster, at + 20) * 0x10000 + U16(cluster, at + 26)
  }

  function EntrySize(cluster: seq<Byte>, at: nat): nat
    requires at + 32 <= |cluster|
  {
    U16(cluster, at + 28) + 0x10000 * U16(cluster, at + 30)
  }

  /** A later lookup reads back what the entry was stamped with: first cluster and size, the write time,
      and the date of writing and of access. The other bytes of the entry stay. */
  lemma EntryStamped(cluster: seq<Byte>, at: nat, size: nat, first: nat, date: nat, time: nat)
    requires at + 32 <= |cluster|
    ensures
      var stamped := Patched(cluster, at + 18, EntryTail(size, first, date, time));
      && EntryFirst(stamped, at) == first % 0x1_0000_0000 && EntrySize(stamped, at) == size % 0x1_0000_0000
      && U16(stamped, at + 18) == U16(stamped, at + 24) == date % 0x10000 && U16(stamped, at + 22) == time % 0x10000
      && stamped[at..at + 18] == cluster[at..at + 18]
  {
    hide Patched, Le16, EntryTail, U16;
    TailFields(cluster, at, size, first, date, time);
    Le16Value(date);
    Le16Value(time);
    HalfWords(first);
    HalfWords(size);
    Le16Value(first / 0x10000);
    Le16Value(first);
    Le16Value(size / 0x10000);
    Le16Value(size);
  }

  lemma HalfWords(n: nat)
    ensures n / 0x10000 % 0x10000 * 0x10000 + n % 0x10000 == n % 0x1_0000_0000
  {
  }

  lemma TailFields(cluster: seq<Byte>, at: nat, size: nat, first: nat, date: nat, time: nat)
    requires at + 32 <= |cluster|
    ensures
      var stamped := Patched(cluster, at + 18, EntryTail(size, first, date, time));
      && U16(stamped, at + 20) == U16(Le16(first / 0x10000), 0) && U16(stamped, at + 26) == U16(Le16(first), 0)
      && U16(stamped, at + 28) == U16(Le16(size), 0) && U16(stamped, at + 30) == U16(Le16(size / 0x10000), 0)
      && U16(stamped, at + 18) == U16(Le16(date), 0) == U16(stamped, at + 24) && U16(stamped, at + 22) == U16(Le16(time), 0)
      && stamped[at..at + 18] == cluster[at..at + 18]
  {
    hide Le16, Patched;
  }

  class Fat {
    const total: nat
    const clusterSize: nat
    const fat: array<nat>
    const data: array<seq<Byte>>
    ghost var chains: map<nat, seq<nat>>

    ghost function V(): Volume
      reads this, fat, data
    {
      Volume(total, clusterSize, fat[..], data[..], chains)
    }

    ghost predicate Valid()
      reads this, fat, data
    {
      VolumeOk(V())
    }

    /** A mounted volume. */
    constructor (total: nat, clusterSize: nat, fat: array<nat>, data: array<seq<Byte>>, ghost chains: map<nat, seq<nat>>)
      requires VolumeOk(Volume(total, clusterSize, fat[..], data[..], chains))
      ensures Valid() && V() == Volume(total, clusterSize, fat[..], data[..], chains) && this.fat == fat && this.data == data
    {
      this.total, this.clusterSize, this.fat, this.data, this.chains := total, clusterSize, fat, data, chains;
    }

    /** find_free_cluster: the lowest free entry among the sectors scanned. It is a cluster of the volume
        exactly if one of those it looks at is free, and otherwise an entry past the end exactly if one
        of those is zero. */
    method FindFreeCluster() returns (c: nat)
      requires ScanLimit(total) <= fat.Length
      ensures c == 0 ==> forall x :: 2 <= x < ScanLimit(total) ==> fat[x] != 0
      ensures c != 0 ==> 2 <= c < ScanLimit(total) && fat[c] == 0 && forall x :: 2 <= x < c ==> fat[x] != 0
      ensures IsCluster(total, c) <==> HasFree(V())
      ensures c >= total + 2 <==> !HasFree(V()) && TailFree(V())
      ensures c == 0 <==> !HasFree(V()) && !TailFree(V())
    {
      var sectors := (total * 4 + 511) / 512;
      for sector := 0 to sectors
        invariant forall x :: 2 <= x < sector * SECTOR_ENTRIES ==> fat[x] != 0
      {
        for i := 0 to SECTOR_ENTRIES
          invariant forall x :: 2 <= x < sector * SECTOR_ENTRIES + i ==> fat[x] != 0
        {
          var cluster := sector * SECTOR_ENTRIES + i;
          if cluster < 2 {
            continue;
          }
          if fat[cluster] == 0 {
            LowestFree(V(), cluster);
            return cluster;
          }
        }
      }
      return 0;
    }

    /** allocate_cluster: a zeroed cluster that ends chain `h`, or starts a chain when there is no
        previous cluster. Without memory for the zeros an extension leaves a dangling link; without a
        free cluster it may take an entry past the end of the volume, and then what it clears and
        links lies outside. */
    method AllocateCluster(prev: nat, ghost h: nat, memory: bool) returns (c: nat, ghost nomem: bool)
      requires Valid() && (prev >= 2 ==> h in chains && prev == chains[h][|chains[h]| - 1])
      modifies fat, data, this`chains
      ensures !nomem ==> (IsCluster(total, c) <==> HasFree(old(V())))
      ensures !nomem ==> (c >= total + 2 <==> !HasFree(old(V())) && TailFree(old(V())))
      ensures nomem ==> c == 0 && (HasFree(old(V())) || TailFree(old(V())))
      ensures c != 0 ==> c < fat.Length && old(fat[c]) == 0 && 2 <= c
      ensures IsCluster(total, c) ==> V() == Allocated(old(V()), if prev >= 2 then h else c, c)
      ensures c == 0 && !nomem ==> V() == old(V())
      ensures prev >= 2 && (nomem || c >= total + 2) ==> exists x :: BadLink(old(V()), V(), h, x)
      ensures prev < 2 && nomem ==> V() == old(V())
      ensures prev < 2 && c >= total + 2 ==> V() == old(V()).(fat := old(fat[..])[c := FAT_EOC])
      ensures memory ==> !nomem
    {
      ghost var v := V();
      nomem := false;
      c := FindFreeCluster();
      if c == 0 {
        return;
      }
      assert prev >= 2 ==> prev < total + 2 && prev != c by {
        if prev >= 2 {
          ChainEntries(fat[..], total, chains[h], |chains[h]| - 1);
        }
      }
      fat[c] := FAT_EOC;
      if prev >= 2 {
        fat[prev] := c;
      }
      var room := *;
      if !room && !memory {
        fat[c] := 0;
        if prev >= 2 {
          assert BadLink(v, V(), h, c);
        } else {
          assert fat[..] == v.fat;
        }
        return 0, true;
      }
      if c >= total + 2 {
        if prev >= 2 {
          assert BadLink(v, V(), h, c);
        }
        return;
      }
      data[c] := ZeroBytes(clusterSize);
      chains := chains[if prev >= 2 then h else c := if prev >= 2 then chains[h] + [c] else [c]];
    }

    ghost predicate NodeOk(first: nat, size: nat)
      requires Valid()
      reads this, fat, data
    {
      (first in chains || first < 2) && size <= |ContentOf(V(), first)|
    }

    /** The next cluster of chain `h`, extending it at its end. The model stops where the program goes on
        outside the volume. */
    method NextOrExtend(cluster: nat, ghost h: nat, ghost k: nat, ghost v0: Volume, offset: nat, bytes: seq<Byte>, w: nat, memory: bool)
      returns (next: nat, ghost broken: bool, ghost nomem: bool)
      requires Valid() && Written(v0, V(), h, offset, bytes, w) && k < |chains[h]| && cluster == chains[h][k]
      modifies fat, data, this`chains
      ensures next != 0 ==> Valid() && Written(v0, V(), h, offset, bytes, w) && k + 1 < |chains[h]| && next == chains[h][k + 1]
      ensures next != 0 ==> !broken
      ensures next == 0 && !broken ==> Valid() && Written(v0, V(), h, offset, bytes, w)
      ensures broken ==> next == 0 && Broken(v0, V(), h)
      ensures next == 0 && !nomem ==> Spent(V())
      ensures next != 0 ==> !nomem
      ensures memory ==> !nomem
    {
      hide IsChain, Written, OthersKept, Laid, ContentOf, BadLink, HasFree, TailFree, Allocated;
      ghost var v := V();
      WrittenFacts(v0, v, h, offset, bytes, w);
      ChainEntries(fat[..], total, chains[h], k);
      broken, nomem := false, false;
      next := fat[cluster];
      if next >= FAT_EOC {
        next, nomem := AllocateCluster(cluster, h, memory);
        if next >= total + 2 || nomem {
          ghost var x :| BadLink(v, V(), h, x);
          if !nomem {
            NoFreeStays(v, V(), h, x);
          }
          broken := true;
        } else if next != 0 {
          WrittenGrown(v0, v, h, offset, bytes, w, next);
          AllocatedChain(v, h, next);
          WrittenFacts(v0, V(), h, offset, bytes, w);
        }
        if next >= total + 2 {
          next := 0;
        }
      }
    }

    /** The skipping loop of fat32_write_file. */
    method Seek(first: nat, skip: nat, ghost v0: Volume, offset: nat, bytes: seq<Byte>, memory: bool)
      returns (cluster: nat, ghost broken: bool, ghost nomem: bool)
      requires Valid() && Written(v0, V(), first, offset, bytes, 0)
      modifies fat, data, this`chains
      ensures cluster != 0 ==> Valid() && Written(v0, V(), first, offset, bytes, 0) && skip < |chains[first]| && cluster == chains[first][skip]
      ensures cluster != 0 ==> !broken
      ensures cluster == 0 && !broken ==> Valid() && Written(v0, V(), first, offset, bytes, 0)
      ensures broken ==> cluster == 0 && Broken(v0, V(), first)
      ensures cluster == 0 && !nomem ==> Spent(V())
      ensures memory ==> !nomem
    {
      hide IsChain, Written, OthersKept, Laid, ContentOf, Spent;
      WrittenFacts(v0, V(), first, offset, bytes, 0);
      cluster, broken, nomem := first, false, false;
      ChainHead(V(), first);
      for i := 0 to skip
        invariant Valid() && Written(v0, V(), first, offset, bytes, 0) && first in chains
        invariant i < |chains[first]| && cluster == chains[first][i] && cluster != 0 && !broken && (memory ==> !nomem)
      {
        var next;
        next, broken, nomem := NextOrExtend(cluster, first, i, v0, offset, bytes, 0, memory);
        if next == 0 {
          return 0, broken, nomem;
        }
        WrittenFacts(v0, V(), first, offset, bytes, 0);
        cluster := next;
      }
    }

    /** Read a cluster, change a part of it, write it back. */
    method CopyPiece(cluster: nat, ghost h: nat, ghost k: nat, at: nat, ghost v0: Volume, offset: nat, bytes: seq<Byte>, w: nat, n: nat)
      requires Valid() && Written(v0, V(), h, offset, bytes, w) && k < |chains[h]| && cluster == chains[h][k]
      requires at + n <= clusterSize && w + n <= |bytes| && k * clusterSize + at == offset + w
      modifies data
      ensures Valid() && Written(v0, V(), h, offset, bytes, w + n)
    {
      hide IsChain, Written, OthersKept, Laid, ContentOf, Patched;
      ghost var v := V();
      WrittenFacts(v0, v, h, offset, bytes, w);
      ChainEntries(fat[..], total, chains[h], k);
      var buffer := Patched(data[cluster], at, bytes[w..w + n]);
      WrittenPiece(v0, v, h, k, at, offset, bytes, w, n);
      data[cluster] := buffer;
      assert V() == v.(data := v.data[cluster := buffer]);
      WrittenFacts(v0, V(), h, offset, bytes, w + n);
    }

    /** The copying loop of fat32_write_file. */
    method CopyIn(first: nat, start: nat, skip: nat, chunk: nat, ghost v0: Volume, offset: nat, bytes: seq<Byte>, memory: bool)
      returns (written: nat, ghost broken: bool, ghost nomem: bool)
      requires Valid() && Written(v0, V(), first, offset, bytes, 0) && bytes != []
      requires skip < |chains[first]| && start == chains[first][skip]
      requires chunk < clusterSize && skip * clusterSize + chunk == offset
      modifies fat, data, this`chains
      ensures 0 < written <= |bytes|
      ensures !broken ==> Valid() && Written(v0, V(), first, offset, bytes, written)
      ensures broken ==> written < |bytes| && Broken(v0, V(), first)
      ensures written < |bytes| && !nomem ==> Spent(V())
      ensures memory ==> !nomem
    {
      hide IsChain, Written, OthersKept, Laid, ContentOf, Patched, Spent;
      var cluster, inCluster: nat := start, chunk;
      ghost var k: nat := skip;
      WrittenFacts(v0, V(), first, offset, bytes, 0);
      written, broken, nomem := 0, false, false;
      while written < |bytes|
        invariant written <= |bytes| && Valid() && Written(v0, V(), first, offset, bytes, written) && first in chains && !broken && !nomem
        invariant written < |bytes| ==> k < |chains[first]| && cluster == chains[first][k]
        invariant written < |bytes| ==> inCluster < clusterSize && k * clusterSize + inCluster == offset + written
        decreases |bytes| - written
      {
        var n := clusterSize - inCluster;
        if n > |bytes| - written {
          n := |bytes| - written;
        }
        CopyPiece(cluster, first, k, inCluster, v0, offset, bytes, written, n);
        written := written + n;
        WrittenFacts(v0, V(), first, offset, bytes, written);
        assert (k + 1) * clusterSize == k * clusterSize + clusterSize;
        inCluster := 0;
        if written < |bytes| {
          var next;
          next, broken, nomem := NextOrExtend(cluster, first, k, v0, offset, bytes, written, memory);
          if next == 0 {
            return;
          }
          WrittenFacts(v0, V(), first, offset, bytes, written);
          cluster, k := next, k + 1;
        }
      }
    }

    /** What fat32_write_file changes in a directory cluster. An entry recorded outside its cluster is
        not reached: the write goes past the buffer and the cluster is put back as it was. */
    method StampEntry(node: Node, date: nat, time: nat, memory: bool)
      requires node.entryCluster >= 2 ==> IsCluster(total, node.entryCluster) && data.Length == total + 2 && |data[node.entryCluster]| == clusterSize
      modifies data
      ensures forall x :: 0 <= x < data.Length && x != node.entryCluster ==> data[x] == old(data[x])
      ensures node.entryCluster >= 2 ==>
        || data[node.entryCluster] == old(data[node.entryCluster])
        || (node.entryOffset + 32 <= clusterSize
            && data[node.entryCluster] == Patched(old(data[node.entryCluster]), node.entryOffset + 18, EntryTail(node.size, node.first, date, time)))
      ensures memory && node.entryCluster >= 2 && node.entryOffset + 32 <= clusterSize ==>
        data[node.entryCluster] == Patched(old(data[node.entryCluster]), node.entryOffset + 18, EntryTail(node.size, node.first, date, time))
      ensures node.entryCluster < 2 ==> data[..] == old(data[..])
    {
      if node.entryCluster >= 2 {
        var room := *;
        if (room || memory) && node.entryOffset + 32 <= clusterSize {
          data[node.entryCluster] :=
            Patched(data[node.entryCluster], node.entryOffset + 18, EntryTail(node.size, node.first, date, time));
        }
      }
    }

    /** The first cluster of a file that has none. */
    method FirstCluster(node: Node, ghost v0: Volume, offset: nat, bytes: seq<Byte>, memory: bool) returns (ok: bool, ghost broken: bool, ghost nomem: bool)
      requires Valid() && v0 == V() && node.first < 2
      modifies fat, data, this`chains, node`first
      ensures ok ==> Valid() && !broken && node.first !in v0.chains && Written(v0, V(), node.first, offset, bytes, 0)
      ensures !ok && !broken ==> V() == v0 && node.first == old(node.first)
      ensures broken ==> !ok && FirstLost(V(), node.first)
      ensures !ok && !nomem ==> Spent(V())
      ensures memory ==> !nomem
    {
      hide IsChain, Written, Allocated, HasFree, TailFree;
      NotHead(v0, node.first);
      var c;
      c, nomem := AllocateCluster(0, 0, memory);
      broken := c >= total + 2;
      if c == 0 {
        return false, broken, nomem;
      }
      node.first := c;
      if c >= total + 2 {
        TailTaken(v0, c);
        return false, broken, nomem;
      }
      WrittenFirst(v0, c, offset, bytes);
      WrittenFacts(v0, V(), c, offset, bytes, 0);
      return true, broken, nomem;
    }

    /** fat32_write_file up to the size update. */
    method WriteData(node: Node, offset: nat, bytes: seq<Byte>, memory: bool)
      returns (written: nat, ghost broken: bool, ghost nomem: bool)
      requires Valid() && NodeOk(node.first, node.size) && bytes != [] && offset / clusterSize < 0x1_0000_0000
      modifies fat, data, this`chains, node
      ensures written <= |bytes|
      ensures broken ==> Broken(old(V()), V(), node.first) || (written == 0 && FirstLost(V(), node.first))
      ensures !broken ==> Valid()
      ensures !broken ==> Outcome(old(V()), V(), old(node.first), node.first, offset, bytes, written)
      ensures (broken || written < |bytes|) && !nomem ==> Spent(V())
      ensures node.size == if written > 0 && offset + written > old(node.size) then offset + written else old(node.size)
      ensures memory ==> !nomem
    {
      hide IsChain, Written, OthersKept, Laid, ContentOf, Spent, FirstLost, Broken, VolumeOk, Outcome;
      ghost var v0 := V();
      ClusterSized(v0);
      OutcomeNone(v0, node.first, offset, bytes);
      written, broken, nomem := 0, false, false;
      if node.first < 2 {
        var ok;
        NotHead(v0, node.first);
        ok, broken, nomem := FirstCluster(node, v0, offset, bytes, memory);
        if !ok {
          return;
        }
      } else {
        WrittenNone(v0, node.first, offset, bytes);
      }
      WrittenFacts(v0, V(), node.first, offset, bytes, 0);
      OutcomeWritten(v0, old(node.first), node.first, offset, bytes);
      var skip, chunk := offset / clusterSize, offset % clusterSize;
      DivMod(offset, clusterSize);
      var cluster;
      cluster, broken, nomem := Seek(node.first, skip, v0, offset, bytes, memory);
      if cluster == 0 {
        return;
      }
      var room := *;
      if !room && !memory {
        nomem := true;
        return;
      }
      written, broken, nomem := CopyIn(node.first, cluster, skip, chunk, v0, offset, bytes, memory);
      if offset + written > node.size {
        node.size := offset + written;
      }
    }

    /** fat32_write_file: on a sound volume the chain becomes the flat array it was, extended with zeros
        as far as needed, with the bytes written at the offset. Other chains keep their place and their
        bytes, except for the file's own entry in its directory `dir`. It stops short, or leaves the
        volume or the file broken, only when memory is out or no free cluster is in sight. */
    method WriteFile(node: Node, offset: nat, bytes: seq<Byte>, date: nat, time: nat, memory: bool, ghost dir: nat)
      returns (written: nat, ghost broken: bool, ghost nomem: bool)
      requires Valid() && NodeOk(node.first, node.size) && offset / clusterSize < 0x1_0000_0000
      requires node.entryCluster >= 2 ==> dir in chains && dir != node.first && node.entryCluster in chains[dir]
      modifies fat, data, this`chains, node
      ensures written <= |bytes|
      ensures (broken || written < |bytes|) && !nomem ==> Spent(V())
      ensures broken <==> !(Valid() && NodeOk(node.first, node.size))
      ensures node.size == if written > 0 && offset + written > old(node.size) then offset + written else old(node.size)
      ensures !broken ==> FlatWrite(old(V()), V(), old(node.first), node.first, offset, bytes[..written])
      ensures !broken ==> OthersBut(old(V()), V(), node.first, if node.entryCluster < 2 then node.first else dir)
      ensures !broken && NoLeak(old(V())) ==> NoLeak(V())
      ensures !broken && node.entryCluster >= 2 ==>
        EntryKept(old(V()), V(), node.entryCluster, node.entryOffset, node.size, node.first, date, time, memory && written > 0)
      ensures memory ==> !nomem
    {
      hide IsChain, Written, OthersKept, Laid, ContentOf, NoLeak, Spent, Broken, FirstLost;
      ghost var v0, first := V(), node.first;
      EntryIn(v0, dir, node.entryCluster);
      if bytes == [] {
        LaidNone(ContentOf(v0, first), offset);
        assert bytes[..0] == [];
        return 0, false, false;
      }
      written, broken, nomem := WriteData(node, offset, bytes, memory);
      ghost var v := V();
      if written > 0 {
        if broken {
          BrokenSized(v0, v, node.first);
        }
        StampEntry(node, date, time, memory);
        SpentKept(v, V());
      }
      if broken {
        LostStays(v0, v, V(), node.first, written);
      } else {
        OutcomeEntry(v0, v, first, node.first, offset, bytes, written, dir, node.entryCluster);
        StampOk(v, V(), dir, node.entryCluster);
        OutcomeStamped(v0, v, V(), first, node.first, offset, bytes, written, dir, node.entryCluster);
        OutcomeNoLeak(v0, v, V(), first, node.first, offset, bytes, written);
        assert |bytes[..written]| == written;
      }
    }

    /** The skipping loop of fat32_read_file, inside the chain. */
    method SkipTo(first: nat, skip: nat) returns (cluster: nat)
      requires Valid() && first in chains && skip < |chains[first]|
      ensures cluster == chains[first][skip]
    {
      hide IsChain, VolumeOk;
      HeadOf(V(), first);
      cluster := first;
      for i := 0 to skip
        invariant cluster == chains[first][i]
      {
        ChainEntries(fat[..], total, chains[first], i);
        cluster := fat[cluster];
        if cluster >= FAT_EOC {
          assert false;
        }
      }
    }

    /** The copying loop of fat32_read_file. */
    method CopyOut(first: nat, offset: nat, n: nat) returns (buffer: seq<Byte>)
      requires Valid() && first in chains && offset < |ContentOf(V(), first)|
      ensures
        var content := ContentOf(V(), first);
        buffer == content[offset..if offset + n < |content| then offset + n else |content|]
    {
      hide IsChain, ContentOf, VolumeOk;
      ghost var content, chain := ContentOf(V(), first), chains[first];
      ContentOfLength(V(), first);
      HeadOf(V(), first);
      var skip := offset / clusterSize;
      var inCluster: nat := offset % clusterSize;
      DivMod(offset, clusterSize);
      SkipInside(skip, inCluster, |chain|, clusterSize);
      var cluster := SkipTo(first, skip);
      ghost var k: nat := skip;
      buffer := [];
      while |buffer| < n
        invariant |buffer| <= n && offset + |buffer| <= |content| && buffer == content[offset..offset + |buffer|]
        invariant k <= |chain| && (k < |chain| ==> cluster == chain[k]) && (k == |chain| ==> cluster >= FAT_EOC)
        invariant |buffer| < n ==> inCluster < clusterSize && k * clusterSize + inCluster == offset + |buffer|
        decreases n - |buffer|
      {
        if cluster >= FAT_EOC {
          ChainEnds(fat[..], total, chain, cluster);
          break;
        }
        ChainEntries(fat[..], total, chain, k);
        var m := clusterSize - inCluster;
        if m > n - |buffer| {
          m := n - |buffer|;
        }
        SliceAt(V(), first, k, inCluster, m);
        assert (k + 1) * clusterSize == k * clusterSize + clusterSize;
        buffer := buffer + data[cluster][inCluster..inCluster + m];
        inCluster := 0;
        cluster := fat[cluster];
        k := k + 1;
      }
    }

    /** fat32_read_file: a slice of what the chain holds; only the access date of the file's own entry
        changes on the volume. */
    method ReadFile(node: Node, offset: nat, size: nat, date: nat, memory: bool, ghost dir: nat) returns (buffer: seq<Byte>, ghost nomem: bool)
      requires Valid() && NodeOk(node.first, node.size)
      requires node.entryCluster >= 2 ==> dir in chains && dir != node.first && node.entryCluster in chains[dir]
      modifies data
      ensures Valid()
      ensures buffer == if nomem then [] else ReadBytes(ContentOf(old(V()), node.first), node.size, offset, size)
      ensures forall g :: g in chains && (node.entryCluster < 2 || g != dir) ==> ContentOf(V(), g) == ContentOf(old(V()), g)
      ensures forall x :: 0 <= x < data.Length && x != node.entryCluster ==> data[x] == old(data[x])
      ensures node.entryCluster >= 2 ==>
        || data[node.entryCluster] == old(data[node.entryCluster])
        || (node.entryOffset + 32 <= clusterSize
            && data[node.entryCluster] == Patched(old(data[node.entryCluster]), node.entryOffset + 18, Le16(date)))
      ensures memory && buffer != [] && node.entryCluster >= 2 && node.entryOffset + 32 <= clusterSize ==>
        data[node.entryCluster] == Patched(old(data[node.entryCluster]), node.entryOffset + 18, Le16(date))
      ensures memory ==> !nomem
    {
      hide IsChain, ContentOf, VolumeOk, Patched;
      buffer, nomem := [], false;
      ghost var v := V();
      EntryIn(v, dir, node.entryCluster);
      if node.entryCluster >= 2 {
        HeadOf(v, dir);
      }
      if offset >= node.size {
        return;
      }
      var n := size;
      if (offset + size) % U64 > node.size {
        n := node.size - offset;
      }
      if n == 0 {
        return;
      }
      var room := *;
      if !room && !memory {
        nomem := true;
        return;
      }
      NoContent(v, node.first);
      HeadOf(v, node.first);
      buffer := CopyOut(node.first, offset, n);
      if node.entryCluster >= 2 {
        var room' := *;
        if (room' || memory) && node.entryOffset + 32 <= clusterSize {
          data[node.entryCluster] := Patched(data[node.entryCluster], node.entryOffset + 18, Le16(date));
        }
      }
      StampOk(v, V(), dir, node.entryCluster);
    }

    /** free_cluster_chain, on any table that does not lead out of itself: it ends, and it frees exactly
        the clusters that can be reached from `start`. */
    method FreeClusterChain(start: nat)
      requires forall n: nat :: Live(Hop(fat[..], start, n)) ==> Hop(fat[..], start, n) < fat.Length
      modifies fat
      ensures forall x :: 0 <= x < fat.Length ==> fat[x] == if Reaches(old(fat[..]), start, x) then 0 else old(fat[x])
    {
      hide Hop, Reaches, Freeing, HopsInside;
      ghost var was := fat[..];
      ghost var freed: set<nat> := {};
      ghost var n: nat := 0;
      var cluster: nat := start;
      FreeingStart(was, start);
      while Live(cluster)
        invariant fat.Length == |was| && Freeing(was, fat[..], start, freed, cluster, n) && |freed| <= |was| && HopsInside(was, start)
        decreases |was| - |freed|, cluster
      {
        FreeingStep(was, fat[..], start, freed, cluster, n);
        var next := fat[cluster];
        fat[cluster] := 0;
        freed := freed + {cluster};
        cluster := next;
        n := n + 1;
      }
      FreeingEnd(was, fat[..], start, freed, cluster, n);
    }

    /** Freeing the chain of a file, as unlinking does: its clusters and no others become free. */
    method FreeFile(h: nat)
      requires Valid() && h in chains
      modifies fat, this`chains
      ensures Valid() && chains == old(chains) - {h}
      ensures forall x :: 0 <= x < fat.Length ==> fat[x] == if x in old(chains[h]) then 0 else old(fat[x])
      ensures forall g :: g in chains ==> ContentOf(V(), g) == ContentOf(old(V()), g)
      ensures NoLeak(old(V())) ==> NoLeak(V())
    {
      hide IsChain, ContentOf, NoLeak;
      ghost var v := V();
      ChainReaches(v.fat, v.total, chains[h]);
      FreeClusterChain(h);
      chains := chains - {h};
      FreedOk(v, V(), h);
      if NoLeak(v) {
        FreedNoLeak(v, V(), h);
      }
    }
  }
}
