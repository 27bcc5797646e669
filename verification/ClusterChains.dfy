/** FAT32 cluster chains and the bytes they hold (kernel/fs/fat32.c). A volume is its table, its
    clusters and, for the proofs, the chains of its files and directories by first cluster. */
module ClusterChains {
  import opened Base

  const FAT_EOC: nat := 0x0FFF_FFF8
  const SECTOR_ENTRIES: nat := 128

  datatype Volume = Volume(total: nat, clusterSize: nat, fat: seq<nat>, data: seq<seq<Byte>>, chains: map<nat, seq<nat>>)

  /** Table entries that find_free_cluster looks at: whole sectors of a table of `total` entries. */
  function ScanLimit(total: nat): nat {
    (total * 4 + 511) / 512 * SECTOR_ENTRIES
  }

  /** Clusters are numbered from 2. */
  predicate IsCluster(total: nat, x: nat) {
    2 <= x < total + 2
  }

  /** Each cluster's entry names the next; the last one's is an end mark. */
  ghost predicate IsChain(fat: seq<nat>, total: nat, c: seq<nat>) {
    && total + 2 <= |fat| && total + 2 < FAT_EOC && c != []
    && (forall i :: 0 <= i < |c| ==> IsCluster(total, c[i]))
    && (forall i {:trigger fat[c[i]]} :: 0 <= i < |c| - 1 ==> fat[c[i]] == c[i + 1])
    && fat[c[|c| - 1]] >= FAT_EOC
  }

  ghost predicate Disjoint(a: seq<nat>, b: seq<nat>) {
    forall x :: x in a ==> x !in b
  }

  ghost predicate GeometryOk(v: Volume) {
    && v.clusterSize > 0 && v.total + 2 < FAT_EOC
    && |v.data| == v.total + 2 && v.total + 2 <= |v.fat| <= FAT_EOC && ScanLimit(v.total) <= |v.fat|
    && (forall x :: 0 <= x < |v.data| ==> |v.data[x]| == v.clusterSize)
  }

  ghost predicate VolumeOk(v: Volume) {
    && GeometryOk(v)
    && (forall h :: h in v.chains ==> IsChain(v.fat, v.total, v.chains[h]) && v.chains[h][0] == h)
    && (forall g, h :: g in v.chains && h in v.chains && g != h ==> Disjoint(v.chains[g], v.chains[h]))
  }

  /** A chain that ends visits no cluster twice. */
  lemma {:induction false} ChainDistinct(fat: seq<nat>, total: nat, c: seq<nat>, i: nat, j: nat)
    requires IsChain(fat, total, c) && i < j < |c|
    ensures c[i] != c[j]
    decreases |c| - j
  {
    if c[i] == c[j] {
      assert fat[c[i]] == c[i + 1] && IsCluster(total, c[i + 1]);
      if j < |c| - 1 {
        assert fat[c[j]] == c[j + 1];
        ChainDistinct(fat, total, c, i + 1, j + 1);
      }
    }
  }

  lemma ChainEntries(fat: seq<nat>, total: nat, c: seq<nat>, i: nat)
    requires IsChain(fat, total, c) && i < |c|
    ensures IsCluster(total, c[i]) && c[i] < |fat| && fat[c[i]] != 0
    ensures fat[c[i]] >= FAT_EOC <==> i == |c| - 1
    ensures i < |c| - 1 ==> fat[c[i]] == c[i + 1]
  {
    if i < |c| - 1 {
      assert fat[c[i]] == c[i + 1] && IsCluster(total, c[i + 1]);
    }
  }

  /** A free cluster is in no chain. */
  lemma FreeUnused(v: Volume, x: nat, h: nat)
    requires VolumeOk(v) && x < |v.fat| && v.fat[x] == 0 && h in v.chains
    ensures x !in v.chains[h]
  {
    var c := v.chains[h];
    if x in c {
      var i :| 0 <= i < |c| && c[i] == x;
      ChainEntries(v.fat, v.total, c, i);
    }
  }

  // ---- what a chain holds ----

  ghost function Content(data: seq<seq<Byte>>, c: seq<nat>): seq<Byte>
    requires Within(data, c)
  {
    if c == [] then [] else Content(data, c[..|c| - 1]) + data[c[|c| - 1]]
  }

  ghost predicate Sized(data: seq<seq<Byte>>, size: nat) {
    forall x :: 0 <= x < |data| ==> |data[x]| == size
  }

  ghost predicate Within(data: seq<seq<Byte>>, c: seq<nat>) {
    forall i :: 0 <= i < |c| ==> c[i] < |data|
  }

  lemma {:induction false} ContentLength(data: seq<seq<Byte>>, c: seq<nat>, size: nat)
    requires Within(data, c) && Sized(data, size)
    ensures |Content(data, c)| == |c| * size
  {
    if c != [] {
      ContentLength(data, c[..|c| - 1], size);
      assert (|c| - 1) * size + size == |c| * size;
    }
  }

  lemma ContentSnoc(data: seq<seq<Byte>>, c: seq<nat>)
    requires c != [] && Within(data, c)
    ensures Within(data, c[..|c| - 1]) && Content(data, c) == Content(data, c[..|c| - 1]) + data[c[|c| - 1]]
  {
  }

  lemma {:induction false} ContentConcat(data: seq<seq<Byte>>, a: seq<nat>, b: seq<nat>)
    requires Within(data, a) && Within(data, b)
    ensures Within(data, a + b) && Content(data, a + b) == Content(data, a) + Content(data, b)
  {
    if b == [] {
      assert a + b == a;
    } else {
      var b' := b[..|b| - 1];
      ContentConcat(data, a, b');
      assert (a + b)[..|a + b| - 1] == a + b';
      assert (a + b)[|a + b| - 1] == b[|b| - 1];
      ContentSnoc(data, a + b);
      ContentSnoc(data, b);
      hide Content;
    }
  }

  /** Cluster `k` of a chain is the `k`-th slice of what the chain holds. */
  lemma ContentSplit(data: seq<seq<Byte>>, c: seq<nat>, k: nat)
    requires Within(data, c) && k < |c|
    ensures Within(data, c[..k]) && Within(data, c[k + 1..])
    ensures Content(data, c) == Content(data, c[..k]) + data[c[k]] + Content(data, c[k + 1..])
  {
    ContentConcat(data, c[..k + 1], c[k + 1..]);
    assert c[..k + 1] + c[k + 1..] == c;
    assert c[..k + 1][..k] == c[..k];
  }

  /** Clusters outside a chain do not matter to it. */
  lemma {:induction false} ContentFrame(data: seq<seq<Byte>>, data': seq<seq<Byte>>, c: seq<nat>)
    requires Within(data, c) && Within(data', c)
    requires forall i :: 0 <= i < |c| ==> data'[c[i]] == data[c[i]]
    ensures Content(data', c) == Content(data, c)
  {
    if c != [] {
      ContentFrame(data, data', c[..|c| - 1]);
    }
  }

  // ---- overwriting ----

  /** The flat array: `old` cut or extended with zeros to length `n`, and `bytes` written at `at`. */
  function Laid(base: seq<Byte>, n: nat, at: nat, bytes: seq<Byte>): (r: seq<Byte>)
    ensures |r| == n
    ensures forall i :: 0 <= i < n ==> r[i] == LaidByte(base, at, bytes, i)
  {
    seq(n, i requires 0 <= i < n => LaidByte(base, at, bytes, i))
  }

  function LaidByte(base: seq<Byte>, at: nat, bytes: seq<Byte>, i: nat): Byte {
    if at <= i < at + |bytes| then bytes[i - at] else if i < |base| then base[i] else 0
  }

  lemma LaidNone(s: seq<Byte>, at: nat)
    ensures Laid(s, |s|, at, []) == s
  {
  }

  lemma LaidGrown(s: seq<Byte>, n: nat, at: nat, bytes: seq<Byte>, m: nat)
    requires |s| <= n && (bytes == [] || at + |bytes| <= n)
    ensures Laid(s, n, at, bytes) + ZeroBytes(m) == Laid(s, n + m, at, bytes)
  {
  }

  /** Writing the next piece after what has been written. */
  lemma LaidNext(s: seq<Byte>, n: nat, at: nat, bytes: seq<Byte>, w: nat, m: nat)
    requires w + m <= |bytes| && at + w + m <= n
    ensures Patched(Laid(s, n, at, bytes[..w]), at + w, bytes[w..w + m]) == Laid(s, n, at, bytes[..w + m])
  {
  }

  lemma ChainWithin(fat: seq<nat>, total: nat, c: seq<nat>, data: seq<seq<Byte>>)
    requires IsChain(fat, total, c) && |data| == total + 2
    ensures Within(data, c)
  {
  }

  lemma OtherClusters(fat: seq<nat>, total: nat, c: seq<nat>, k: nat)
    requires IsChain(fat, total, c) && k < |c|
    ensures forall i :: 0 <= i < |c| && i != k ==> c[i] != c[k]
  {
    forall i | 0 <= i < |c| && i != k
      ensures c[i] != c[k]
    {
      if i < k {
        ChainDistinct(fat, total, c, i, k);
      } else {
        ChainDistinct(fat, total, c, k, i);
      }
    }
  }

  lemma ContentReplaced(data: seq<seq<Byte>>, fat: seq<nat>, total: nat, c: seq<nat>, k: nat, cluster: seq<Byte>)
    requires IsChain(fat, total, c) && |data| == total + 2 && k < |c| && c[k] < |data|
    ensures Within(data, c[..k]) && Within(data, c[k + 1..]) && Within(data[c[k] := cluster], c)
    ensures Content(data[c[k] := cluster], c) == Content(data, c[..k]) + cluster + Content(data, c[k + 1..])
  {
    hide IsChain, Content;
    var data' := data[c[k] := cluster];
    ChainWithin(fat, total, c, data);
    ContentSplit(data', c, k);
    OtherClusters(fat, total, c, k);
    ContentFrame(data, data', c[..k]);
    ContentFrame(data, data', c[k + 1..]);
  }

  ghost predicate PatchOf(whole: seq<Byte>, whole': seq<Byte>, at: nat, bytes: seq<Byte>) {
    at + |bytes| <= |whole| && whole' == Patched(whole, at, bytes)
  }

  /** Writing into one cluster writes into the chain. */
  lemma ContentPatched(data: seq<seq<Byte>>, fat: seq<nat>, total: nat, c: seq<nat>, k: nat, cluster: seq<Byte>, at: nat, bytes: seq<Byte>, size: nat)
    requires IsChain(fat, total, c) && |data| == total + 2 && Sized(data, size) && k < |c|
    requires c[k] < |data| && PatchOf(data[c[k]], cluster, at, bytes)
    ensures Within(data, c) && Within(data[c[k] := cluster], c)
    ensures PatchOf(Content(data, c), Content(data[c[k] := cluster], c), k * size + at, bytes)
  {
    hide IsChain, Content, PatchOf;
    ChainWithin(fat, total, c, data);
    ContentSplit(data, c, k);
    assert |c[..k]| == k;
    ContentReplaced(data, fat, total, c, k, cluster);
    ContentLength(data, c[..k], size);
    PatchedMiddle(Content(data, c), Content(data[c[k] := cluster], c),
                  Content(data, c[..k]), data[c[k]], cluster, Content(data, c[k + 1..]), at, bytes);
  }

  lemma PatchedMiddle(whole: seq<Byte>, whole': seq<Byte>, a: seq<Byte>, b: seq<Byte>, b': seq<Byte>, c: seq<Byte>, at: nat, bytes: seq<Byte>)
    requires PatchOf(b, b', at, bytes) && whole == a + b + c && whole' == a + b' + c
    ensures PatchOf(whole, whole', |a| + at, bytes)
  {
  }

  // ---- steps of a volume ----

  /** What the file or directory starting at cluster `h` holds; nothing before its first cluster. */
  ghost function ContentOf(v: Volume, h: nat): seq<Byte>
    requires VolumeOk(v)
  {
    if h in v.chains then Content(v.data, v.chains[h]) else []
  }

  ghost predicate SameClusters(data: seq<seq<Byte>>, data': seq<seq<Byte>>, c: seq<nat>) {
    |data'| == |data| && forall x :: x in c && x < |data| ==> data'[x] == data[x]
  }

  /** All chains but `h` are where they were and hold what they held. */
  ghost predicate OthersKept(v: Volume, v': Volume, h: nat) {
    && VolumeOk(v) && VolumeOk(v') && v'.total == v.total && v'.clusterSize == v.clusterSize
    && v'.chains.Keys == v.chains.Keys + {h}
    && forall g :: g in v.chains && g != h ==> v'.chains[g] == v.chains[g] && SameClusters(v.data, v'.data, v.chains[g])
  }

  lemma OthersContent(v: Volume, v': Volume, h: nat, g: nat)
    requires OthersKept(v, v', h) && g in v.chains && g != h
    ensures ContentOf(v', g) == ContentOf(v, g)
  {
    hide IsChain;
    ChainWithin(v.fat, v.total, v.chains[g], v.data);
    ContentFrame(v.data, v'.data, v.chains[g]);
  }

  lemma OthersKeptTwice(v: Volume, mid: Volume, v': Volume, h: nat)
    requires OthersKept(v, mid, h) && OthersKept(mid, v', h)
    ensures OthersKept(v, v', h)
  {
    hide VolumeOk, ContentOf;
  }

  /** allocate_cluster: `c` is zeroed and ends chain `h`, which it starts if it is `h` itself. */
  ghost function Allocated(v: Volume, h: nat, c: nat): Volume
    requires GeometryOk(v) && IsCluster(v.total, c)
    requires h in v.chains ==> IsChain(v.fat, v.total, v.chains[h])
  {
    var fat := v.fat[c := FAT_EOC];
    if h in v.chains then
      var chain := v.chains[h];
      Volume(v.total, v.clusterSize, fat[chain[|chain| - 1] := c], v.data[c := ZeroBytes(v.clusterSize)], v.chains[h := chain + [c]])
    else
      Volume(v.total, v.clusterSize, fat, v.data[c := ZeroBytes(v.clusterSize)], v.chains[h := [c]])
  }

  lemma ChainFrame(fat: seq<nat>, fat': seq<nat>, total: nat, c: seq<nat>)
    requires IsChain(fat, total, c) && |fat'| == |fat|
    requires forall x :: x in c ==> fat'[x] == fat[x]
    ensures IsChain(fat', total, c)
  {
    forall i | 0 <= i < |c| - 1
      ensures fat'[c[i]] == c[i + 1]
    {
      assert fat[c[i]] == c[i + 1];
    }
  }

  lemma ChainGrown(fat: seq<nat>, total: nat, chain: seq<nat>, c: nat)
    requires IsChain(fat, total, chain) && IsCluster(total, c) && fat[c] == 0
    ensures c !in chain && chain[|chain| - 1] < |fat|
    ensures IsChain(fat[c := FAT_EOC][chain[|chain| - 1] := c], total, chain + [c])
  {
    var fat', chain' := fat[c := FAT_EOC][chain[|chain| - 1] := c], chain + [c];
    forall i | 0 <= i < |chain|
      ensures chain[i] != c
    {
      ChainEntries(fat, total, chain, i);
    }
    OtherClusters(fat, total, chain, |chain| - 1);
    forall i | 0 <= i < |chain'| - 1
      ensures fat'[chain'[i]] == chain'[i + 1]
    {
      if i < |chain| - 1 {
        assert fat[chain[i]] == chain[i + 1];
      }
    }
  }

  /** The chains after an allocation are still chains and still apart. */
  lemma AllocatedChains(v: Volume, h: nat, c: nat)
    requires VolumeOk(v) && IsCluster(v.total, c) && v.fat[c] == 0 && (h in v.chains || h == c)
    ensures VolumeOk(Allocated(v, h, c))
  {
    hide IsChain;
    var v' := Allocated(v, h, c);
    if h in v.chains {
      ChainNonEmpty(v.fat, v.total, v.chains[h]);
    }
    forall g | g in v'.chains
      ensures v'.chains[g] != [] && IsChain(v'.fat, v'.total, v'.chains[g]) && v'.chains[g][0] == g
    {
      if g == h && h in v.chains {
        ChainGrown(v.fat, v.total, v.chains[h], c);
      } else if g == h {
        ChainOfOne(v'.fat, v.total, c);
      } else {
        FreeUnused(v, c, g);
        ChainNonEmpty(v.fat, v.total, v.chains[g]);
        assert h in v.chains ==> Disjoint(v.chains[h], v.chains[g]);
        ChainFrame(v.fat, v'.fat, v.total, v.chains[g]);
      }
    }
    forall f, g | f in v'.chains && g in v'.chains && f != g
      ensures Disjoint(v'.chains[f], v'.chains[g])
    {
      if f != h {
        FreeUnused(v, c, f);
      }
      if g != h {
        FreeUnused(v, c, g);
      }
    }
  }

  lemma ChainOfOne(fat: seq<nat>, total: nat, c: nat)
    requires IsCluster(total, c) && total + 2 <= |fat| && total + 2 < FAT_EOC && fat[c] >= FAT_EOC
    ensures IsChain(fat, total, [c])
  {
  }

  lemma ChainNonEmpty(fat: seq<nat>, total: nat, c: seq<nat>)
    requires IsChain(fat, total, c)
    ensures c != [] && c[|c| - 1] in c && forall x :: x in c ==> IsCluster(total, x) && x < |fat|
  {
  }

  /** An allocation appends a cluster of zeros to its chain and leaves every other one alone. */
  lemma AllocatedOk(v: Volume, h: nat, c: nat)
    requires VolumeOk(v) && IsCluster(v.total, c) && v.fat[c] == 0 && (h in v.chains || h == c)
    ensures VolumeOk(Allocated(v, h, c)) && OthersKept(v, Allocated(v, h, c), h)
    ensures ContentOf(Allocated(v, h, c), h) == ContentOf(v, h) + ZeroBytes(v.clusterSize)
  {
    AllocatedChains(v, h, c);
    var v' := Allocated(v, h, c);
    hide IsChain, ZeroBytes;
    forall g | g in v.chains
      ensures SameClusters(v.data, v'.data, v.chains[g])
    {
      FreeUnused(v, c, g);
    }
    ContentOne(v'.data, c);
    if h in v.chains {
      ChainWithin(v.fat, v.total, v.chains[h], v.data);
      ContentFrame(v.data, v'.data, v.chains[h]);
      ContentConcat(v'.data, v.chains[h], [c]);
    }
  }

  lemma ContentOne(data: seq<seq<Byte>>, c: nat)
    requires c < |data|
    ensures Content(data, [c]) == data[c]
  {
    assert [c][..0] == [];
    assert Content(data, [c]) == Content(data, []) + data[c];
  }

  /** Replacing cluster `k` of chain `h` keeps the chains and touches no other one. */
  lemma RewrittenOk(v: Volume, h: nat, k: nat, cluster: seq<Byte>)
    requires VolumeOk(v) && h in v.chains && k < |v.chains[h]| && |cluster| == v.clusterSize && v.chains[h][k] < |v.data|
    ensures OthersKept(v, v.(data := v.data[v.chains[h][k] := cluster]), h)
  {
    var v' := v.(data := v.data[v.chains[h][k] := cluster]);
    hide IsChain;
    assert VolumeOk(v');
    forall g | g in v.chains && g != h
      ensures SameClusters(v.data, v'.data, v.chains[g])
    {
      assert Disjoint(v.chains[h], v.chains[g]);
      assert v.chains[h][k] in v.chains[h];
    }
  }

  /** Writing a piece into cluster `k`: the next piece of the flat array. */
  lemma PieceOk(v: Volume, h: nat, k: nat, at: nat, base: seq<Byte>, offset: nat, bytes: seq<Byte>, w: nat, m: nat)
    requires VolumeOk(v) && h in v.chains && k < |v.chains[h]| && at + m <= v.clusterSize && w + m <= |bytes|
    requires k * v.clusterSize + at == offset + w && v.chains[h][k] < |v.data| && |v.data[v.chains[h][k]]| == v.clusterSize
    requires ContentOf(v, h) == Laid(base, |v.chains[h]| * v.clusterSize, offset, bytes[..w])
    ensures
      var v' := v.(data := v.data[v.chains[h][k] := Patched(v.data[v.chains[h][k]], at, bytes[w..w + m])]);
      && OthersKept(v, v', h)
      && ContentOf(v', h) == Laid(base, |v.chains[h]| * v.clusterSize, offset, bytes[..w + m])
  {
    hide IsChain, Patched, Laid;
    var cluster := Patched(v.data[v.chains[h][k]], at, bytes[w..w + m]);
    RewrittenOk(v, h, k, cluster);
    ContentPatched(v.data, v.fat, v.total, v.chains[h], k, cluster, at, bytes[w..w + m], v.clusterSize);
    ContentLength(v.data, v.chains[h], v.clusterSize);
    LaidNext(base, |v.chains[h]| * v.clusterSize, offset, bytes, w, m);
  }

  // ---- no cluster is lost ----

  /** Every cluster that is not free is in a chain. */
  ghost predicate NoLeak(v: Volume) {
    v.total + 2 <= |v.fat| && forall x: nat :: IsCluster(v.total, x) && v.fat[x] != 0 ==> Owned(v.chains, x)
  }

  ghost predicate Owned(chains: map<nat, seq<nat>>, x: nat) {
    exists h :: h in chains && x in chains[h]
  }

  lemma AllocatedNoLeak(v: Volume, h: nat, c: nat)
    requires VolumeOk(v) && IsCluster(v.total, c) && v.fat[c] == 0 && (h in v.chains || h == c) && NoLeak(v)
    ensures NoLeak(Allocated(v, h, c))
  {
    hide IsChain;
    var v' := Allocated(v, h, c);
    if h in v.chains {
      ChainNonEmpty(v.fat, v.total, v.chains[h]);
    }
    assert c in v'.chains[h];
    forall x: nat | IsCluster(v.total, x) && v'.fat[x] != 0
      ensures Owned(v'.chains, x)
    {
      if x != c {
        assert h in v.chains && x == v.chains[h][|v.chains[h]| - 1] ==> x in v'.chains[h];
        if Owned(v.chains, x) {
          var g :| g in v.chains && x in v.chains[g];
          assert x in v'.chains[g];
        }
      }
    }
  }

  lemma FreedNoLeak(v: Volume, v': Volume, h: nat)
    requires NoLeak(v) && h in v.chains && v' == v.(fat := v'.fat, chains := v.chains - {h}) && |v'.fat| == |v.fat|
    requires forall x :: 0 <= x < |v.fat| ==> v'.fat[x] == if x in v.chains[h] then 0 else v.fat[x]
    ensures NoLeak(v')
  {
    forall x: nat | IsCluster(v.total, x) && v'.fat[x] != 0
      ensures Owned(v'.chains, x)
    {
      var g :| g in v.chains && x in v.chains[g];
      assert g in v'.chains;
    }
  }

  // ---- a write in progress ----

  /** After `w` bytes: chain `h` is the flat array it was, grown by zeros, with those bytes laid over
      it; all other chains are as they were. */
  ghost predicate Written(v0: Volume, v: Volume, h: nat, offset: nat, bytes: seq<Byte>, w: nat) {
    && OthersKept(v0, v, h) && h in v.chains && w <= |bytes|
    && ContentOf(v, h) == Laid(ContentOf(v0, h), |v.chains[h]| * v.clusterSize, offset, bytes[..w])
    && |ContentOf(v0, h)| <= |v.chains[h]| * v.clusterSize
    && (NoLeak(v0) ==> NoLeak(v))
    && (w > 0 ==> offset + w <= |v.chains[h]| * v.clusterSize)
  }

  lemma ContentOfLength(v: Volume, h: nat)
    requires VolumeOk(v) && h in v.chains
    ensures |ContentOf(v, h)| == |v.chains[h]| * v.clusterSize && v.chains[h] != []
  {
    ContentLength(v.data, v.chains[h], v.clusterSize);
  }

  lemma WrittenNone(v: Volume, h: nat, offset: nat, bytes: seq<Byte>)
    requires VolumeOk(v) && h in v.chains
    ensures Written(v, v, h, offset, bytes, 0)
  {
    hide VolumeOk, Laid, NoLeak;
    ContentOfLength(v, h);
    LaidNone(ContentOf(v, h), offset);
    assert bytes[..0] == [];
  }

  lemma WrittenFirst(v: Volume, c: nat, offset: nat, bytes: seq<Byte>)
    requires VolumeOk(v) && IsCluster(v.total, c) && v.fat[c] == 0
    ensures c !in v.chains && Written(v, Allocated(v, c, c), c, offset, bytes, 0)
  {
    hide IsChain, Laid, ZeroBytes, NoLeak;
    if c in v.chains {
      FreeUnused(v, c, c);
      ChainHead(v, c);
    }
    AllocatedOk(v, c, c);
    if NoLeak(v) {
      AllocatedNoLeak(v, c, c);
    }
    assert bytes[..0] == [];
    LaidGrown([], 0, offset, [], v.clusterSize);
    LaidNone([], offset);
    assert 1 * v.clusterSize == v.clusterSize;
  }

  lemma ChainHead(v: Volume, h: nat)
    requires VolumeOk(v) && h in v.chains
    ensures h in v.chains[h] && IsCluster(v.total, h) && v.chains[h] != []
  {
    assert v.chains[h][0] in v.chains[h];
  }

  lemma OthersVolumes(v: Volume, v': Volume, h: nat)
    requires OthersKept(v, v', h)
    ensures VolumeOk(v) && VolumeOk(v') && GeometryOk(v')
  {
  }

  lemma AllocatedChain(v: Volume, h: nat, c: nat)
    requires GeometryOk(v) && IsCluster(v.total, c) && h in v.chains && IsChain(v.fat, v.total, v.chains[h])
    ensures
      var v' := Allocated(v, h, c);
      v'.clusterSize == v.clusterSize && h in v'.chains && v'.chains[h] == v.chains[h] + [c]
  {
  }

  lemma WrittenGrown(v0: Volume, v: Volume, h: nat, offset: nat, bytes: seq<Byte>, w: nat, c: nat)
    requires Written(v0, v, h, offset, bytes, w) && IsCluster(v.total, c) && v.total + 2 <= |v.fat| && v.fat[c] == 0
    requires IsChain(v.fat, v.total, v.chains[h])
    ensures Written(v0, Allocated(v, h, c), h, offset, bytes, w)
  {
    hide Laid, ZeroBytes, ContentOf, IsChain, NoLeak, SameClusters, VolumeOk, Allocated;
    OthersVolumes(v0, v, h);
    AllocatedOk(v, h, c);
    if NoLeak(v) {
      AllocatedNoLeak(v, h, c);
    }
    AllocatedChain(v, h, c);
    OthersKeptTwice(v0, v, Allocated(v, h, c), h);
    var n := |v.chains[h]| * v.clusterSize;
    assert (|v.chains[h]| + 1) * v.clusterSize == n + v.clusterSize;
    LaidGrown(ContentOf(v0, h), n, offset, bytes[..w], v.clusterSize);
  }

  lemma WrittenPiece(v0: Volume, v: Volume, h: nat, k: nat, at: nat, offset: nat, bytes: seq<Byte>, w: nat, m: nat)
    requires Written(v0, v, h, offset, bytes, w) && k < |v.chains[h]| && at + m <= v.clusterSize && w + m <= |bytes|
    requires k * v.clusterSize + at == offset + w && v.chains[h][k] < |v.data| && |v.data[v.chains[h][k]]| == v.clusterSize
    ensures Written(v0, v.(data := v.data[v.chains[h][k] := Patched(v.data[v.chains[h][k]], at, bytes[w..w + m])]), h, offset, bytes, w + m)
  {
    hide VolumeOk, Laid, ContentOf, Patched;
    PieceOk(v, h, k, at, ContentOf(v0, h), offset, bytes, w, m);
    var v' := v.(data := v.data[v.chains[h][k] := Patched(v.data[v.chains[h][k]], at, bytes[w..w + m])]);
    OthersKeptTwice(v0, v, v', h);
    LastCluster(k, |v.chains[h]|, v.clusterSize);
  }

  lemma LastCluster(k: nat, n: nat, size: nat)
    requires k < n
    ensures k * size + size <= n * size
  {
    assert (k + 1) * size <= n * size by {
      MulMono(k + 1, n, size);
    }
    assert (k + 1) * size == k * size + size;
  }

  lemma MulMono(a: nat, b: nat, size: nat)
    requires a <= b
    ensures a * size <= b * size
  {
    assert (b - a) * size >= 0;
    assert b * size == a * size + (b - a) * size;
  }
}
