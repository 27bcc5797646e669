/** Unlinking a file as a whole (kernel/fs/fat32.c:1006-1137): its directory entry and its clusters go
    together. */
module FileRemoval {
  import opened Base
  import opened LongNames
  import opened DirectoryScan
  import opened DirectoryGrowth
  import opened Directories
  import opened ClusterChains
  import opened FatFiles

  predicate HasClusters(e: Entry) {
    !IsDirectory(e.slot) && FirstCluster(e.slot) >= 2
  }

  /** Every file with clusters is the head of a chain that no other entry begins with. */
  ghost predicate Backed(es: seq<Entry>, chains: map<nat, seq<nat>>) {
    && (forall e :: e in es && HasClusters(e) ==> FirstCluster(e.slot) in chains)
    && (forall d, e :: d in es && e in es && d.at != e.at && HasClusters(d) && HasClusters(e) ==>
          FirstCluster(d.slot) != FirstCluster(e.slot))
  }

  lemma {:induction false} WithoutMembers(es: seq<Entry>, at: nat, e: Entry)
    ensures e in Without(es, at) <==> e in es && e.at != at
  {
    if es != [] {
      WithoutMembers(es[1..], at, e);
      assert es == [es[0]] + es[1..];
    }
  }

  lemma BackedWithout(es: seq<Entry>, chains: map<nat, seq<nat>>, gone: Entry, chains': map<nat, seq<nat>>)
    requires Backed(es, chains) && gone in es && !IsDirectory(gone.slot)
    requires chains' == if HasClusters(gone) then chains - {FirstCluster(gone.slot)} else chains
    ensures Backed(Without(es, gone.at), chains')
  {
    hide FirstCluster, IsDirectory;
    var rest := Without(es, gone.at);
    forall e | e in rest
      ensures e in es && e.at != gone.at
    {
      WithoutMembers(es, gone.at, e);
    }
  }

  /** An entry stamped with a first cluster is unlinked by freeing the chain of that cluster. */
  lemma StampedFirst(cluster: seq<Byte>, at: nat, size: nat, first: nat, date: nat, time: nat)
    requires at + 32 <= |cluster| && first < 0x1_0000_0000
    ensures var stamped := Patched(cluster, at + 18, EntryTail(size, first, date, time));
      FirstCluster(stamped[at..at + 32]) == first
  {
    hide Patched, EntryTail;
    EntryStamped(cluster, at, size, first, date, time);
    var stamped := Patched(cluster, at + 18, EntryTail(size, first, date, time));
    var s: Slot := stamped[at..at + 32];
    assert s[20..22] == stamped[at + 20..at + 22] && s[26..28] == stamped[at + 26..at + 28];
    TwoAre(s, 20, stamped, at + 20);
    TwoAre(s, 26, stamped, at + 26);
  }

  lemma TwoAre(s: seq<Byte>, i: nat, t: seq<Byte>, j: nat)
    requires i + 2 <= |s| && j + 2 <= |t| && s[i..i + 2] == t[j..j + 2]
    ensures U16(s, i) == U16(t, j)
  {
    assert s[i] == s[i..i + 2][0] && s[i + 1] == s[i..i + 2][1];
    assert t[j] == t[j..j + 2][0] && t[j + 1] == t[j..j + 2][1];
  }

  /** fat32_unlink: the entry goes from the list, its clusters and no others become free, and every other
      file keeps its chain and its content. A directory, or no such name, changes nothing. */
  method UnlinkFile(dir: Directory, volume: Fat, name: seq<Byte>) returns (ok: bool)
    requires dir.Valid() && volume.Valid() && Backed(Entries(dir.Slots()), volume.chains)
    modifies dir, volume`chains, volume.fat
    ensures dir.Valid() && volume.Valid() && Backed(Entries(dir.Slots()), volume.chains)
    ensures
      var found := FindName(Entries(old(dir.Slots())), Key(name));
      && (ok <==> found.Some? && !IsDirectory(found.value.slot))
      && (ok ==> Entries(dir.Slots()) == Without(Entries(old(dir.Slots())), found.value.at))
      && volume.chains == (if ok && HasClusters(found.value) then old(volume.chains) - {FirstCluster(found.value.slot)} else old(volume.chains))
    ensures !ok ==> dir.clusters == old(dir.clusters) && volume.fat[..] == old(volume.fat[..])
    ensures forall h :: h in volume.chains ==> ContentOf(volume.V(), h) == ContentOf(old(volume.V()), h)
    ensures NoLeak(old(volume.V())) ==> NoLeak(volume.V())
  {
    hide Entries, FindName, Flat, Without, EndClean, FirstCluster, AllFit, IsDirectory, Backed, ContentOf, NoLeak, VolumeOk;
    ghost var es, chains := Entries(dir.Slots()), volume.chains;
    var first;
    ok, first := dir.Unlink(name);
    if ok {
      ghost var gone := FindName(es, Key(name)).value;
      if first >= 2 {
        FileBacked(es, chains, gone);
        volume.FreeFile(first);
      }
      BackedWithout(es, chains, gone, volume.chains);
    }
  }

  lemma FileBacked(es: seq<Entry>, chains: map<nat, seq<nat>>, e: Entry)
    requires Backed(es, chains) && e in es && HasClusters(e)
    ensures FirstCluster(e.slot) in chains
  {
  }
}
