/** Taking a cluster for a chain: the table grows by one link, and nothing else on the volume changes. */
module FatGrowth {
  import opened Bytes
  import opened Collections
  import opened DiskCache
  import opened FatTable
  import opened FatChains
  import opened FatOperations
  import opened ClusterBytes

  /** Clusters that are free in a table. */
  ghost function FreeSet(fat: seq<nat>): set<nat> {
    set x | 2 <= x < |fat| && fat[x] == 0
  }

  /** One past the last cluster of the volume. */
  function DataEnd(t: AllocationTable, limit: nat): int
    requires 2 <= limit
  {
    t.firstClusterLocation + t.BytesPerCluster() * (limit - 2)
  }

  /** The reserved sectors, the root directory and what follows the last cluster are the same. */
  ghost predicate SameMeta(v: seq<Byte>, w: seq<Byte>, t: AllocationTable, limit: nat)
    requires |v| == |w| && t.Lays(limit, |v|)
  {
    LayoutFacts(t, limit, |v|);
    MulLe(0, limit - 2, t.BytesPerCluster());
    && v[..t.tableStart] == w[..t.tableStart]
    && v[t.FatEnd()..t.firstClusterLocation] == w[t.FatEnd()..t.firstClusterLocation]
    && v[DataEnd(t, limit)..] == w[DataEnd(t, limit)..]
  }

  /** Off the clusters of `c`, table entries, cluster contents and all other bytes are the same in `v` and `w`. */
  ghost predicate Kept(v: seq<Byte>, w: seq<Byte>, t: AllocationTable, limit: nat, c: seq<nat>) {
    && |v| == |w| && t.Lays(limit, |v|) && SameMeta(v, w, t, limit)
    && (forall x | 2 <= x < limit && x !in c ::
          Copy(w, t, 0, limit)[x] == Copy(v, t, 0, limit)[x] && Cluster(w, t, x, limit) == Cluster(v, t, x, limit))
  }

  lemma KeptTrans(u: seq<Byte>, v: seq<Byte>, w: seq<Byte>, t: AllocationTable, limit: nat, c: seq<nat>, d: seq<nat>)
    requires Kept(u, v, t, limit, c) && Kept(v, w, t, limit, d) && c <= d
    ensures Kept(u, w, t, limit, d)
  {
    hide Copy, Cluster, AllocationTable.FatEnd, DataEnd;
    forall x | 2 <= x < limit && x !in d
      ensures Copy(w, t, 0, limit)[x] == Copy(u, t, 0, limit)[x] && Cluster(w, t, x, limit) == Cluster(u, t, x, limit)
    {
      assert x !in c;
    }
  }

  lemma FreeMeansHasFree(fat: seq<nat>)
    ensures HasFree(fat) <==> FreeSet(fat) != {}
    ensures HasFree(fat) <==> |FreeSet(fat)| > 0
  {
    if HasFree(fat) {
      var c :| 2 <= c < |fat| && fat[c] == 0;
      assert c in FreeSet(fat);
    }
    if x :| x in FreeSet(fat) {
      assert fat[x] == 0;
    }
  }

  /** What is known after the table alone has changed. */
  lemma TableStep(v: seq<Byte>, w: seq<Byte>, t: AllocationTable, limit: nat, c: seq<nat>)
    requires t.Lays(limit, |v|) && OnlyTable(w, v, t) && 1 <= t.fatCount
    requires forall x | 2 <= x < limit && x !in c :: Copy(w, t, 0, limit)[x] == Copy(v, t, 0, limit)[x]
    ensures Kept(v, w, t, limit, c)
    ensures forall d | InVolume(d, limit) :: ChainBytes(w, t, d, limit) == ChainBytes(v, t, d, limit)
  {
    hide Copy, Cluster, AllocationTable.Lays, OnlyTable, SameMeta;
    assert |v| == |w| by { SameSize(v, w, t); }
    TableIsNoMeta(v, w, t, limit);
    forall x | 2 <= x < limit
      ensures Cluster(w, t, x, limit) == Cluster(v, t, x, limit)
    {
      TableIsNoCluster(v, w, t, limit, x);
    }
    forall d | InVolume(d, limit)
      ensures ChainBytes(w, t, d, limit) == ChainBytes(v, t, d, limit)
    {
      SameClusters(v, w, t, d, limit);
    }
  }

  /** The regions of a volume, in order. */
  lemma DataBounds(t: AllocationTable, limit: nat, size: nat)
    requires t.Lays(limit, size)
    ensures t.tableStart <= t.FatEnd() <= t.firstClusterLocation <= DataEnd(t, limit) <= size
  {
    LayoutFacts(t, limit, size);
    MulLe(0, limit - 2, t.BytesPerCluster());
  }

  lemma TableIsNoMeta(v: seq<Byte>, w: seq<Byte>, t: AllocationTable, limit: nat)
    requires |v| == |w| && t.Lays(limit, |v|) && OnlyTable(w, v, t)
    ensures SameMeta(v, w, t, limit)
  {
    DataBounds(t, limit, |v|);
    hide AllocationTable.FatEnd, AllocationTable.Lays, DataEnd;
    var e, f, g := t.FatEnd(), t.firstClusterLocation, DataEnd(t, limit);
    SubSlice(v, e, |v|, 0, f - e);
    SubSlice(w, e, |w|, 0, f - e);
    SubSlice(v, e, |v|, g - e, |v| - g);
    SubSlice(w, e, |w|, g - e, |w| - g);
  }

  lemma SameSize(v: seq<Byte>, w: seq<Byte>, t: AllocationTable)
    requires OnlyTable(w, v, t)
    ensures |v| == |w|
  {
  }

  /** The table after taking `free` for the chain `c` (which may still be empty). */
  function LinkedIn(fat: seq<nat>, c: seq<nat>, free: nat): (r: seq<nat>)
    ensures |r| == |fat|
  {
    if free >= |fat| then fat
    else if c == [] || c[|c| - 1] >= |fat| then fat[free := END_OF_CHAIN]
    else fat[free := END_OF_CHAIN][c[|c| - 1] := free]
  }

  lemma LinkedFacts(fat: seq<nat>, c: seq<nat>, free: nat)
    requires |fat| <= CLUSTER_CAP && 2 <= free < |fat| && fat[free] == 0 && (c != [] ==> IsChain(fat, c))
    ensures c != [] ==> c[|c| - 1] < |fat|
    ensures IsChain(LinkedIn(fat, c, free), c + [free]) && free !in c
    ensures FreeSet(LinkedIn(fat, c, free)) == FreeSet(fat) - {free}
    ensures forall x | 2 <= x < |fat| && x !in c + [free] :: LinkedIn(fat, c, free)[x] == fat[x]
  {
    if c != [] {
      LinkIsChain(fat, c, free);
      FreeIsOnNoChain(fat, c, free);
      assert c[|c| - 1] in c;
      assert fat[c[|c| - 1]] == END_OF_CHAIN;
    }
  }

  /**
   Allocates a cluster and, unless the chain is still empty, links it behind `prev`, the chain's last.
   On success the chain has one more cluster, which was free; on failure nothing has changed.
   */
  method AppendCluster(t: AllocationTable, prev: Option<nat>, disk: DiskAccess, ghost limit: nat, ghost c: seq<nat>)
    returns (r: Option<nat>)
    requires disk.Valid() && t.Lays(limit, |disk.View|) && 1 <= t.fatCount
    requires prev == if c == [] then None else Some(c[|c| - 1])
    requires c != [] ==> IsChain(Copy(disk.View, t, 0, limit), c)
    requires HasFree(Copy(disk.View, t, 0, limit)) || NoPhantom(disk.View, t, limit)
    requires limit == CLUSTER_CAP || HasFree(Copy(disk.View, t, 0, limit)) || Reaches(t, CLUSTER_CAP - 1, |disk.View|)
    modifies disk, disk.buf, disk.hashTable
    ensures disk.Valid() && |disk.View| == |old(disk.View)|
    ensures r.Some? <==> HasFree(Copy(old(disk.View), t, 0, limit))
    ensures r.None? ==> disk.View == old(disk.View)
    ensures r.Some? ==>
              && 2 <= r.value < limit && r.value in FreeSet(Copy(old(disk.View), t, 0, limit)) && r.value !in c
              && IsChain(Copy(disk.View, t, 0, limit), c + [r.value])
              && Kept(old(disk.View), disk.View, t, limit, c + [r.value])
              && FreeSet(Copy(disk.View, t, 0, limit)) == FreeSet(Copy(old(disk.View), t, 0, limit)) - {r.value}
              && (forall d | InVolume(d, limit) ::
                    ChainBytes(disk.View, t, d, limit) == ChainBytes(old(disk.View), t, d, limit))
              && (CopiesEqual(old(disk.View), t, limit) ==> CopiesEqual(disk.View, t, limit))
              && OnlyTable(disk.View, old(disk.View), t)
    ensures r.Some? ==> forall x | 2 <= x < r.value :: Copy(old(disk.View), t, 0, limit)[x] != 0
    ensures r.Some? ==> forall k | 0 <= k < t.fatCount ::
                          Copy(disk.View, t, k, limit) == LinkedIn(Copy(old(disk.View), t, k, limit), c, r.value)
    ensures r.Some? ==> GrowsOneChain(Copy(old(disk.View), t, 0, limit), Copy(disk.View, t, 0, limit), c, c + [r.value])
  {
    hide Copy, AllocationTable.Lays, IsChain, OnlyTable, DiskAccess.Valid, ChainBytes, Kept, FreeSet, GrowsOneChain;
    ghost var v := disk.View;
    ghost var fat := Copy(v, t, 0, limit);
    LayoutFacts(t, limit, |v|);
    r := AllocateCluster(t, disk, limit);
    if r.Some? {
      var new' := r.value;
      LinkedFacts(fat, c, new');
      ghost var u := disk.View;
      SameSize(v, u, t);
      if prev.Some? {
        SetClusterEntry(t, prev.value, new', disk, limit);
        SameSize(u, disk.View, t);
        OnlyTableTrans(v, u, disk.View, t);
      }
      assert forall k | 0 <= k < t.fatCount :: Copy(disk.View, t, k, limit) == LinkedIn(Copy(v, t, k, limit), c, new');
      GrowthIsLocal(fat, Copy(disk.View, t, 0, limit), c, c + [new']);
      TableStep(v, disk.View, t, limit, c + [new']);
      assert new' in FreeSet(fat) by { FreeMember(fat, new'); }
    }
  }

  lemma FreeMember(fat: seq<nat>, x: nat)
    requires 2 <= x < |fat| && fat[x] == 0
    ensures x in FreeSet(fat)
  {
  }

  lemma OnlyTableTrans(u: seq<Byte>, v: seq<Byte>, w: seq<Byte>, t: AllocationTable)
    requires OnlyTable(v, u, t) && OnlyTable(w, v, t)
    ensures OnlyTable(w, u, t)
  {
  }
}
