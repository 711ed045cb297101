/** The operations of the allocation table on the cached disk. */
module FatOperations {
  import opened Bytes
  import opened Collections
  import opened DiskCache
  import opened FatTable
  import opened FatChains

  /** Copy `k` of the table, as the first `limit` entries. */
  ghost function Copy(view: seq<Byte>, t: AllocationTable, k: nat, limit: nat): (fat: seq<nat>)
    requires t.Lays(limit, |view|) && k < t.fatCount
    ensures |fat| == limit
  {
    CopyInBounds(t, k, limit, |view|);
    Fat(view, t.FatStart(k), limit)
  }

  lemma CopyInBounds(t: AllocationTable, k: nat, limit: nat, size: nat)
    requires t.Lays(limit, size) && k < t.fatCount
    ensures t.tableStart <= t.FatStart(k) && t.FatStart(k) + t.bytesPerFat <= t.FatEnd()
    ensures t.FatEnd() <= t.firstClusterLocation <= size && FatBytes(limit) <= t.bytesPerFat
  {
    MulStep(k, t.bytesPerFat);
    MulLe(k + 1, t.fatCount, t.bytesPerFat);
    MulLe(0, limit - 2, t.BytesPerCluster());
  }

  lemma LayoutFacts(t: AllocationTable, limit: nat, size: nat)
    requires t.Lays(limit, size)
    ensures 1 <= t.fatCount && 1 <= t.sectorsPerCluster && 2 <= limit <= CLUSTER_CAP && t.FatStart(0) == t.tableStart
    ensures t.tableStart <= t.FatEnd() <= t.firstClusterLocation <= size && FatBytes(limit) <= t.bytesPerFat
    ensures t.tableStart + FatBytes(limit) <= t.FatEnd()
  {
    CopyInBounds(t, 0, limit, size);
  }

  lemma FirstCopyEntry(view: seq<Byte>, t: AllocationTable, limit: nat, c: nat)
    requires t.Lays(limit, |view|) && c < limit
    ensures t.tableStart + PairOffset(c) + 3 <= |view|
    ensures 1 <= t.fatCount && Copy(view, t, 0, limit)[c] == Entry(view, t.tableStart, c)
  {
    hide Entry;
    LayoutFacts(t, limit, |view|);
  }

  lemma CopiesApart(t: AllocationTable, j: nat, k: nat)
    requires j < k
    ensures t.FatStart(j) + t.bytesPerFat <= t.FatStart(k)
  {
    MulStep(j, t.bytesPerFat);
    MulLe(j + 1, k, t.bytesPerFat);
  }

  /** Only bytes of the allocation table may differ. */
  ghost predicate OnlyTable(v: seq<Byte>, w: seq<Byte>, t: AllocationTable) {
    && |v| == |w| && t.tableStart <= t.FatEnd() <= |v|
    && v[..t.tableStart] == w[..t.tableStart] && v[t.FatEnd()..] == w[t.FatEnd()..]
  }

  function NextOf(entry: nat): Option<nat> {
    if entry == END_OF_CHAIN then None else Some(entry)
  }

  method ReadPair(disk: DiskAccess, at: nat) returns (pair: seq<Byte>)
    requires disk.Valid() && at + 3 <= |disk.View|
    modifies disk, disk.buf, disk.hashTable
    ensures disk.Valid() && disk.View == old(disk.View)
    ensures pair == disk.View[at..at + 3]
  {
    hide *;
    var buffer := new Byte[3];
    ghost var blank := buffer[..];
    var n := disk.ReadBytes(at, buffer, 0, 3);
    SpliceWhole(blank, disk.View[at..at + 3]);
    pair := buffer[..];
  }

  method GetNextCluster(t: AllocationTable, cluster: nat, disk: DiskAccess) returns (next: Option<nat>)
    requires disk.Valid() && t.tableStart + PairOffset(cluster) + 3 <= |disk.View|
    modifies disk, disk.buf, disk.hashTable
    ensures disk.Valid() && disk.View == old(disk.View)
    ensures next == NextOf(Entry(disk.View, t.tableStart, cluster))
  {
    var pair := ReadPair(disk, t.tableStart + PairOffset(cluster));
    var pairValue := PairValue(pair);
    var nextCluster := if cluster % 2 == 0 then pairValue % 0x1000 else pairValue / 0x1000;
    if nextCluster == 0xFFF {
      return None;
    }
    return Some(nextCluster);
  }

  /** The place where the last copy would hold an entry lies inside the volume. */
  ghost predicate Reaches(t: AllocationTable, cluster: nat, size: nat) {
    forall k | 0 <= k < t.fatCount :: t.FatStart(k) + PairOffset(cluster) + 3 <= size
  }

  /**
   Stores a 12-bit value in every copy of the table: that entry changes and no other byte of meaning. For a number
   past the volume's clusters the code stores where the entry would be, and nothing more is said.
   */
  method SetClusterEntry(t: AllocationTable, cluster: nat, value: nat, disk: DiskAccess, ghost limit: nat)
    requires disk.Valid() && t.Lays(limit, |disk.View|) && (cluster < limit || Reaches(t, cluster, |disk.View|))
    modifies disk, disk.buf, disk.hashTable
    ensures disk.Valid() && |disk.View| == |old(disk.View)|
    ensures cluster < limit ==> OnlyTable(disk.View, old(disk.View), t)
    ensures cluster < limit ==>
              forall k | 0 <= k < t.fatCount ::
                Copy(disk.View, t, k, limit) == Copy(old(disk.View), t, k, limit)[cluster := value % 0x1000]
  {
    hide Splice, Fat, Entry, PairValue, PairBytes, WithHalf, DiskAccess.Valid, Copy, AllocationTable.Lays,
         AllocationTable.FatStart, AllocationTable.FatEnd;
    var v := value % 0x1000;
    ghost var was := disk.View;
    LayoutFacts(t, limit, |was|);
    for fatIndex := 0 to t.fatCount
      invariant disk.Valid() && |disk.View| == |was|
      invariant cluster < limit ==> OnlyTable(disk.View, was, t)
      invariant cluster < limit ==> forall k | 0 <= k < t.fatCount ::
                  Copy(disk.View, t, k, limit) ==
                  if k < fatIndex then Copy(was, t, k, limit)[cluster := v] else Copy(was, t, k, limit)
    {
      ghost var before := disk.View;
      CopyInBounds(t, fatIndex, limit, |before|);
      var at := t.FatStart(fatIndex) + PairOffset(cluster);
      var pair := ReadPair(disk, at);
      var pairValue := PairValue(pair);
      pairValue := WithHalf(pairValue, cluster, v);
      pair := PairBytes(pairValue);
      disk.WriteBytes(at, pair);
      if cluster < limit {
        OneCopyStored(before, t, fatIndex, limit, cluster, v);
      }
    }
  }

  lemma OneCopyStored(v: seq<Byte>, t: AllocationTable, f: nat, limit: nat, cluster: nat, value: nat)
    requires t.Lays(limit, |v|) && f < t.fatCount && cluster < limit && value < 0x1000
    requires t.FatStart(f) + PairOffset(cluster) + 3 <= |v|
    ensures var at := t.FatStart(f) + PairOffset(cluster);
            var w := Splice(v, at, PairBytes(WithHalf(PairValue(v[at..at + 3]), cluster, value)));
            && OnlyTable(w, v, t)
            && forall k | 0 <= k < t.fatCount ::
                 Copy(w, t, k, limit) == if k == f then Copy(v, t, k, limit)[cluster := value] else Copy(v, t, k, limit)
  {
    hide Fat, PairValue, PairBytes, WithHalf, Splice, AllocationTable.Lays, AllocationTable.FatStart,
         AllocationTable.FatEnd;
    var at := t.FatStart(f) + PairOffset(cluster);
    var d := PairBytes(WithHalf(PairValue(v[at..at + 3]), cluster, value));
    var w := Splice(v, at, d);
    CopyInBounds(t, f, limit, |v|);
    SpliceSlice(v, at, d, 0, t.tableStart);
    SpliceSlice(v, at, d, t.FatEnd(), |v|);
    forall k | 0 <= k < t.fatCount
      ensures Copy(w, t, k, limit) == if k == f then Copy(v, t, k, limit)[cluster := value] else Copy(v, t, k, limit)
    {
      OtherCopyKept(v, t, f, limit, cluster, d, k);
      if k == f {
        StoreEntry(v, t.FatStart(f), limit, cluster, value);
      }
    }
  }

  lemma OtherCopyKept(v: seq<Byte>, t: AllocationTable, f: nat, limit: nat, cluster: nat, d: seq<Byte>, k: nat)
    requires t.Lays(limit, |v|) && f < t.fatCount && k < t.fatCount && cluster < limit && |d| == 3
    requires t.FatStart(f) + PairOffset(cluster) + 3 <= |v|
    ensures t.FatStart(k) + FatBytes(limit) <= |v|
    ensures k != f ==> Copy(Splice(v, t.FatStart(f) + PairOffset(cluster), d), t, k, limit) == Copy(v, t, k, limit)
  {
    hide Fat, Splice, AllocationTable.Lays, AllocationTable.FatStart, AllocationTable.FatEnd;
    CopyInBounds(t, f, limit, |v|);
    CopyInBounds(t, k, limit, |v|);
    if k != f {
      CopiesApart(t, if k < f then k else f, if k < f then f else k);
      FatUntouched(v, t.FatStart(f) + PairOffset(cluster), d, t.FatStart(k), limit);
    }
  }

  /** The driver keeps the copies of the table equal. */
  ghost predicate CopiesEqual(view: seq<Byte>, t: AllocationTable, limit: nat)
    requires t.Lays(limit, |view|)
  {
    forall k | 0 <= k < t.fatCount :: Copy(view, t, k, limit) == Copy(view, t, 0, limit)
  }

  ghost predicate HasFree(fat: seq<nat>) {
    exists c :: 2 <= c < |fat| && fat[c] == 0
  }

  /**
   No number past the volume's clusters looks free: the scan runs up to cluster 4084, however few there are. Whatever
   lies behind the entries is read as if it were entries too.
   */
  ghost predicate NoPhantom(view: seq<Byte>, t: AllocationTable, limit: nat) {
    forall x: nat | limit <= x < CLUSTER_CAP && t.tableStart + PairOffset(x) + 3 <= |view| ::
      Entry(view, t.tableStart, x) != 0
  }

  /**
   Takes the lowest free cluster and marks it as the end of a chain. It answers a cluster of the volume or none,
   rightly, exactly when the volume has a free cluster or nothing behind its entries looks like one.
   */
  method AllocateCluster(t: AllocationTable, disk: DiskAccess, ghost limit: nat) returns (r: Option<nat>)
    requires disk.Valid() && t.Lays(limit, |disk.View|)
    requires limit == CLUSTER_CAP || HasFree(Copy(disk.View, t, 0, limit)) || Reaches(t, CLUSTER_CAP - 1, |disk.View|)
    modifies disk, disk.buf, disk.hashTable
    ensures disk.Valid() && |disk.View| == |old(disk.View)|
    ensures (r.Some? ==> r.value < limit) <==>
            HasFree(Copy(old(disk.View), t, 0, limit)) || NoPhantom(old(disk.View), t, limit)
    ensures HasFree(Copy(old(disk.View), t, 0, limit)) ==> r.Some?
    ensures r.Some? && r.value < limit ==> HasFree(Copy(old(disk.View), t, 0, limit))
    ensures r.None? ==> disk.View == old(disk.View)
    ensures r.Some? && r.value < limit ==>
              && 2 <= r.value && Copy(old(disk.View), t, 0, limit)[r.value] == 0
              && (forall c | 2 <= c < r.value :: Copy(old(disk.View), t, 0, limit)[c] != 0)
              && (forall k | 0 <= k < t.fatCount ::
                    Copy(disk.View, t, k, limit) == Copy(old(disk.View), t, k, limit)[r.value := END_OF_CHAIN])
              && OnlyTable(disk.View, old(disk.View), t)
              && GrowsOneChain(Copy(old(disk.View), t, 0, limit), Copy(disk.View, t, 0, limit), [], [r.value])
  {
    hide Splice, Half, PairValue, DiskAccess.Valid, AllocationTable.FatEnd, AllocationTable.FatStart, GrowsOneChain,
         Copy, AllocationTable.Lays;
    ghost var was := disk.View;
    LayoutFacts(t, limit, |was|);
    ghost var fat := Copy(was, t, 0, limit);
    for cluster := 2 to CLUSTER_CAP
      invariant disk.Valid() && disk.View == was
      invariant forall c | 2 <= c < cluster && c < limit :: fat[c] != 0
      invariant forall c: nat | limit <= c < cluster && t.tableStart + PairOffset(c) + 3 <= |was| ::
                  Entry(was, t.tableStart, c) != 0
    {
      if cluster < limit {
        FirstCopyEntry(was, t, limit, cluster);
      } else {
        ReachesFirst(t, cluster, CLUSTER_CAP - 1, |was|);
      }
      var pair := ReadPair(disk, t.tableStart + PairOffset(cluster));
      var entry := Half(PairValue(pair), cluster);
      assert entry == Entry(was, t.tableStart, cluster);
      if entry == 0 {
        SetClusterEntry(t, cluster, 0xFFF, disk, limit);
        if cluster < limit {
          GrowthIsLocal(fat, Copy(disk.View, t, 0, limit), [], [cluster]);
        }
        return Some(cluster);
      }
    }
    return None;
  }

  lemma ReachesFirst(t: AllocationTable, x: nat, y: nat, size: nat)
    requires 1 <= t.fatCount && x <= y && Reaches(t, y, size)
    ensures Reaches(t, x, size) && t.tableStart + PairOffset(x) + 3 <= size
  {
    assert t.FatStart(0) == t.tableStart;
  }

  /** A volume of one cluster, in use, and an empty table behind its entry: the scan takes cluster 3, which is none. */
  lemma PhantomExample() returns (t: AllocationTable, view: seq<Byte>)
    ensures t.Lays(3, |view|) && Reaches(t, CLUSTER_CAP - 1, |view|) && 1 <= t.fatCount
    ensures !HasFree(Copy(view, t, 0, 3)) && !NoPhantom(view, t, 3)
  {
    t := AllocationTable(0, 1, 6144, 1, 6144);
    view := [255, 255, 255, 255, 15, 0] + seq(6144 + 512 - 6, _ => 0);
    assert view[3..6] == [255, 15, 0];
    assert Entry(view, 0, 3) == 0 && Entry(view, 0, 2) == 0xFFF;
  }

  /** Walks a chain and clears its entries: exactly those of its clusters, in every copy. */
  method FreeChain(t: AllocationTable, firstCluster: nat, disk: DiskAccess, ghost limit: nat, ghost chain: seq<nat>)
    requires disk.Valid() && t.Lays(limit, |disk.View|)
    requires IsChain(Copy(disk.View, t, 0, limit), chain) && chain[0] == firstCluster
    modifies disk, disk.buf, disk.hashTable
    ensures disk.Valid() && OnlyTable(disk.View, old(disk.View), t)
    ensures forall k | 0 <= k < t.fatCount ::
              Copy(disk.View, t, k, limit) == Cleared(Copy(old(disk.View), t, k, limit), chain)
    ensures DropsOneChain(Copy(old(disk.View), t, 0, limit), Copy(disk.View, t, 0, limit), chain)
  {
    hide Splice, Copy, Entry, DiskAccess.Valid, AllocationTable.FatEnd, AllocationTable.FatStart, AllocationTable.Lays,
         IsChain, DropsOneChain;
    ghost var was := disk.View;
    LayoutFacts(t, limit, |was|);
    ghost var fat := Copy(was, t, 0, limit);
    ChainBounds(fat, chain);
    var current := firstCluster;
    ghost var i := 0;
    assert chain[..0] == [];
    while true
      invariant 0 <= i < |chain| && current == chain[i]
      invariant disk.Valid() && OnlyTable(disk.View, was, t)
      invariant forall k | 0 <= k < t.fatCount ::
                  Copy(disk.View, t, k, limit) == Cleared(Copy(was, t, k, limit), chain[..i])
      decreases |chain| - i
    {
      ChainStep(fat, chain, i);
      FirstCopyEntry(disk.View, t, limit, current);
      ghost var entry := Copy(disk.View, t, 0, limit)[current];
      var next := GetNextCluster(t, current, disk);
      assert next == NextOf(entry);
      SetClusterEntry(t, current, 0, disk, limit);
      forall k | 0 <= k < t.fatCount
        ensures Copy(disk.View, t, k, limit) == Cleared(Copy(was, t, k, limit), chain[..i + 1])
      {
        ClearedMore(Copy(was, t, k, limit), chain, i);
      }
      i := i + 1;
      match next
      case Some(n) => current := n;
      case None => break;
    }
    assert chain[..i] == chain;
    FreeingIsLocal(fat, chain);
  }

  /** Where the walk along a chain stands: its next entry is still there, and says whether the chain goes on. */
  lemma ChainStep(fat: seq<nat>, chain: seq<nat>, i: nat)
    requires IsChain(fat, chain) && |fat| <= CLUSTER_CAP && i < |chain|
    ensures 2 <= chain[i] < |fat| && Cleared(fat, chain[..i])[chain[i]] == fat[chain[i]]
    ensures i < |chain| - 1 ==> fat[chain[i]] == chain[i + 1] < END_OF_CHAIN
    ensures i == |chain| - 1 ==> fat[chain[i]] == END_OF_CHAIN
  {
    forall j | 0 <= j < i
      ensures chain[j] != chain[i]
    {
      ChainIsAcyclic(fat, chain, j, i);
    }
  }

  lemma ClearedMore(fat: seq<nat>, chain: seq<nat>, i: nat)
    requires i < |chain| && chain[i] < |fat|
    ensures Cleared(fat, chain[..i])[chain[i] := 0] == Cleared(fat, chain[..i + 1])
  {
    assert chain[..i + 1] == chain[..i] + [chain[i]];
  }
}
