/** Files of the FAT driver: reading and writing through a cluster chain is reading and writing a byte string. */
module FatFile {
  import opened Bytes
  import opened Collections
  import opened DiskCache
  import opened FatTable
  import opened FatChains
  import opened FatOperations
  import opened ClusterBytes
  import opened FatGrowth
  import opened DirEntries

  /** `s` with `data` written at `off`, growing it if the data reach past its end. */
  function Overwrite(s: seq<Byte>, off: nat, data: seq<Byte>): (r: seq<Byte>)
    requires off <= |s|
  {
    s[..off] + data + (if off + |data| <= |s| then s[off + |data|..] else [])
  }

  /** `r` is `s` with `data` written at `off`. Between the end of `s` and `off` it holds anything. */
  ghost predicate Wrote(s: seq<Byte>, off: nat, data: seq<Byte>, r: seq<Byte>) {
    && |r| == (if off + |data| > |s| then off + |data| else |s|)
    && r[..Min(off, |s|)] == s[..Min(off, |s|)]
    && r[off..off + |data|] == data
    && (off + |data| <= |s| ==> r[off + |data|..] == s[off + |data|..])
  }

  lemma WroteIsOverwrite(s: seq<Byte>, off: nat, data: seq<Byte>, r: seq<Byte>)
    requires off <= |s|
    ensures Wrote(s, off, data, r) <==> r == Overwrite(s, off, data)
    ensures |Overwrite(s, off, data)| == if off + |data| > |s| then off + |data| else |s|
  {
    var n := off + |data|;
    if Wrote(s, off, data, r) {
      assert r == r[..off] + r[off..n] + r[n..];
    }
    if r == Overwrite(s, off, data) {
      assert r[..off] == s[..off] && r[off..n] == data;
    }
  }

  /**
   How far a write has come: `b` is what the chain holds now, `b0` what it held before, and the first
   `w` bytes of the data are in place at `off`.
   */
  ghost predicate Progress(b: seq<Byte>, b0: seq<Byte>, off: nat, data: seq<Byte>, w: nat) {
    && |b0| <= |b| && w <= |data| && (w > 0 ==> off + w <= |b|)
    && b[..Min(off, |b0|)] == b0[..Min(off, |b0|)]
    && (w > 0 ==> b[off..off + w] == data[..w])
    && (off + w <= |b0| ==> b[off + w..|b0|] == b0[off + w..])
  }

  lemma ProgressWrite(b: seq<Byte>, b0: seq<Byte>, off: nat, data: seq<Byte>, w: nat, n: nat)
    requires Progress(b, b0, off, data, w) && w + n <= |data| && off + w + n <= |b|
    ensures Progress(Splice(b, off + w, data[w..w + n]), b0, off, data, w + n)
  {
    hide Splice;
    var d := data[w..w + n];
    var b' := Splice(b, off + w, d);
    SpliceSlice(b, off + w, d, 0, Min(off, |b0|));
    SpliceSlice(b, off + w, d, off, off + w);
    SpliceSlice(b, off + w, d, off + w, off + w + n);
    assert b[off..off + w] == data[..w];
    assert b'[off..off + w + n] == b'[off..off + w] + b'[off + w..off + w + n];
    assert data[..w + n] == data[..w] + d;
    if off + w + n <= |b0| {
      SpliceSlice(b, off + w, d, off + w + n, |b0|);
      SubSlice(b, off + w, |b0|, n, |b0| - off - w - n);
      SubSlice(b0, off + w, |b0|, n, |b0| - off - w - n);
    }
  }

  lemma ProgressGrow(b: seq<Byte>, b0: seq<Byte>, off: nat, data: seq<Byte>, w: nat, extra: seq<Byte>)
    requires Progress(b, b0, off, data, w)
    ensures Progress(b + extra, b0, off, data, w)
  {
    var g, m := b + extra, Min(off, |b0|);
    assert g[..m] == b[..m] && (w > 0 ==> g[off..off + w] == b[off..off + w]);
    assert off + w <= |b0| ==> g[off + w..|b0|] == b[off + w..|b0|];
  }

  /** The file's contents after the write, if its size is updated, and if it is not. */
  lemma ProgressContents(b: seq<Byte>, b0: seq<Byte>, off: nat, data: seq<Byte>, w: nat, size: nat)
    requires Progress(b, b0, off, data, w) && size <= |b0|
    ensures off + w <= |b| ==> Wrote(b0[..size], off, data[..w], b[..if off + w > size then off + w else size])
    ensures off <= size ==> b[..size] == Overwrite(b0[..size], off, data[..w])[..size]
    ensures off > size ==> b[..size] == b0[..size]
  {
    var m, m0 := Min(off, size), Min(off, |b0|);
    assert b[..m] == b[..m0][..m] && b0[..m] == b0[..m0][..m];
    var old', d := b0[..size], data[..w];
    if off + w <= |b| {
      var r := b[..if off + w > size then off + w else size];
      assert r[..m] == b[..m] && old'[..m] == b0[..m];
      assert r[off..off + w] == b[off..off + w];
      if off + w <= size {
        assert r[off + w..] == b[off + w..|b0|][..size - off - w];
        assert old'[off + w..] == b0[off + w..][..size - off - w];
      }
      hide Progress;
      if off <= size {
        WroteIsOverwrite(old', off, d, r);
        assert b[..size] == r[..size];
      }
    }
  }

  /** Where a file's directory entry lies: in the root directory, or inside a cluster of another chain. */
  ghost predicate EntryPlace(view: seq<Byte>, t: AllocationTable, limit: nat, c: seq<nat>, at: nat, home: nat)
    requires t.Lays(limit, |view|)
  {
    && t.FatEnd() <= at && at + ENTRY_SIZE <= |view|
    && if home == 0 then at + ENTRY_SIZE <= t.firstClusterLocation
       else
         && 2 <= home < limit && home !in c && Copy(view, t, 0, limit)[home] != 0
         && t.ClusterLocation(home) <= at && at + ENTRY_SIZE <= t.ClusterLocation(home) + t.BytesPerCluster()
  }

  /** Room for the chain to reach `end` bytes; a volume with all 4083 clusters may also run full. */
  ghost predicate Room(fat: seq<nat>, t: AllocationTable, limit: nat, c: seq<nat>, end: nat) {
    limit == CLUSTER_CAP || end <= (|c| + |FreeSet(fat)|) * t.BytesPerCluster()
  }

  /** One chunk written into a chain: the chain's string changes there, the tables and all else stay. */
  lemma ChunkWritten(v: seq<Byte>, t: AllocationTable, limit: nat, c: seq<nat>, k: nat, o: nat, d: seq<Byte>)
    requires t.Lays(limit, |v|) && 1 <= t.fatCount && IsChain(Copy(v, t, 0, limit), c)
    requires k < |c| && o + |d| <= t.BytesPerCluster()
    ensures InVolume(c, limit) && 2 <= c[k] < limit && t.ClusterLocation(c[k]) + o + |d| <= |v|
    ensures k * t.BytesPerCluster() + o + |d| <= |c| * t.BytesPerCluster()
    ensures var w := Splice(v, t.ClusterLocation(c[k]) + o, d);
            && (forall f | 0 <= f < t.fatCount :: Copy(w, t, f, limit) == Copy(v, t, f, limit))
            && ChainBytes(w, t, c, limit) == Splice(ChainBytes(v, t, c, limit), k * t.BytesPerCluster() + o, d)
            && Kept(v, w, t, limit, c)
  {
    ChainBounds(Copy(v, t, 0, limit), c);
    forall i | 0 <= i < |c|
      ensures 2 <= c[i] < limit
    {
      assert c[i] in c;
    }
    forall i, j | 0 <= i < j < |c|
      ensures c[i] != c[j]
    {
      LayoutFacts(t, limit, |v|);
      ChainIsAcyclic(Copy(v, t, 0, limit), c, i, j);
    }
    hide Copy, Cluster, AllocationTable.Lays, IsChain, ChainBytes, Splice, AllocationTable.BytesPerCluster,
         AllocationTable.ClusterLocation,
         SameMeta;
    ChainWrite(v, t, c, limit, k, o, d);
    ClusterInBounds(t, c[k], limit, |v|);
    var w := Splice(v, t.ClusterLocation(c[k]) + o, d);
    forall f | 0 <= f < t.fatCount
      ensures Copy(w, t, f, limit) == Copy(v, t, f, limit)
    {
      ClusterIsNoTable(v, t, limit, t.ClusterLocation(c[k]) + o, d, f);
    }
    forall x | 2 <= x < limit && x !in c
      ensures Cluster(w, t, x, limit) == Cluster(v, t, x, limit)
    {
      ClusterWrite(v, t, limit, c[k], o, d, x);
    }
    ClusterIsNoMeta(v, t, limit, c[k], o, d);
  }

  lemma ClusterIsNoMeta(v: seq<Byte>, t: AllocationTable, limit: nat, c: nat, o: nat, d: seq<Byte>)
    requires t.Lays(limit, |v|) && 2 <= c < limit && o + |d| <= t.BytesPerCluster()
    requires t.ClusterLocation(c) + o + |d| <= |v|
    ensures SameMeta(v, Splice(v, t.ClusterLocation(c) + o, d), t, limit)
  {
    hide Splice, AllocationTable.FatEnd, AllocationTable.FatStart, AllocationTable.ClusterLocation, FatBytes;
    LayoutFacts(t, limit, |v|);
    ClusterInBounds(t, c, limit, DataEnd(t, limit));
    hide AllocationTable.Lays, AllocationTable.BytesPerCluster, DataEnd;
    var at := t.ClusterLocation(c) + o;
    SpliceSlice(v, at, d, 0, t.tableStart);
    SpliceSlice(v, at, d, t.FatEnd(), t.firstClusterLocation);
    SpliceSlice(v, at, d, DataEnd(t, limit), |v|);
  }

  /**
   The state in the middle of a write: the chain has grown from `c0` to `c` by clusters that were free,
   `w` bytes of the data are in place, and nothing off the chain has changed.
   */
  ghost predicate Writing(v0: seq<Byte>, v: seq<Byte>, t: AllocationTable, limit: nat, c0: seq<nat>, c: seq<nat>,
                          off: nat,
                          data: seq<Byte>, w: nat) {
    && |v| == |v0| && t.Lays(limit, |v|) && 1 <= t.fatCount
    && c0 <= c && InVolume(c, limit) && c != [] && IsChain(Copy(v, t, 0, limit), c)
    && (forall i | |c0| <= i < |c| :: c[i] in FreeSet(Copy(v0, t, 0, limit)))
    && Kept(v0, v, t, limit, c)
    && Progress(ChainBytes(v, t, c, limit), ChainBytes(v0, t, c0, limit), off, data, w)
    && |c| + |FreeSet(Copy(v, t, 0, limit))| == |c0| + |FreeSet(Copy(v0, t, 0, limit))|
    && (CopiesEqual(v0, t, limit) ==> CopiesEqual(v, t, limit))
  }

  lemma ChainInVolume(fat: seq<nat>, c: seq<nat>)
    requires IsChain(fat, c)
    ensures InVolume(c, |fat|)
  {
  }

  lemma WritingStarts(v: seq<Byte>, t: AllocationTable, limit: nat, c: seq<nat>, off: nat, data: seq<Byte>)
    requires t.Lays(limit, |v|) && 1 <= t.fatCount && c != [] && IsChain(Copy(v, t, 0, limit), c)
    ensures Writing(v, v, t, limit, c, c, off, data, 0)
  {
    ChainInVolume(Copy(v, t, 0, limit), c);
    hide Copy, Cluster, AllocationTable.Lays, IsChain, ChainBytes, AllocationTable.BytesPerCluster;
  }

  /** A file without clusters takes its first one. */
  lemma WritingStartsEmpty(v: seq<Byte>, w: seq<Byte>, t: AllocationTable, limit: nat, new': nat, off: nat,
                            data: seq<Byte>)
    requires |w| == |v| && t.Lays(limit, |v|) && 1 <= t.fatCount
    requires 2 <= new' < limit && new' in FreeSet(Copy(v, t, 0, limit))
    requires IsChain(Copy(w, t, 0, limit), [new']) && Kept(v, w, t, limit, [new'])
    requires FreeSet(Copy(w, t, 0, limit)) == FreeSet(Copy(v, t, 0, limit)) - {new'}
    requires CopiesEqual(v, t, limit) ==> CopiesEqual(w, t, limit)
    ensures Writing(v, w, t, limit, [], [new'], off, data, 0)
  {
    hide Copy, Cluster, AllocationTable.Lays, IsChain, Kept, CopiesEqual, FreeSet, AllocationTable.BytesPerCluster;
    var b, b0 := ChainBytes(w, t, [new'], limit), ChainBytes(v, t, [], limit);
    assert b0 == [] && b[..0] == b0[..0] && Min(off, |b0|) == 0 && b[0..0] == b0[0..];
  }

  /** `w` is `v` with other bytes in the directory entry at `at`, and beyond that changed on the chain `c` only. */
  ghost predicate FileKept(v: seq<Byte>, w: seq<Byte>, t: AllocationTable, limit: nat, c: seq<nat>, at: nat) {
    && |v| == |w| && at + ENTRY_SIZE <= |v|
    && Kept(Splice(v, at, w[at..at + ENTRY_SIZE]), w, t, limit, c)
  }

  /** Writing the directory entry touches neither the tables nor any cluster but the one it lies in. */
  lemma EntryWritten(v: seq<Byte>, t: AllocationTable, limit: nat, c: seq<nat>, at: nat, home: nat, d: seq<Byte>)
    requires t.Lays(limit, |v|) && 1 <= t.fatCount && InVolume(c, limit) && |d| == ENTRY_SIZE
    requires EntryPlace(v, t, limit, c, at, home)
    ensures var w := Splice(v, at, d);
            && (forall f | 0 <= f < t.fatCount :: Copy(w, t, f, limit) == Copy(v, t, f, limit))
            && ChainBytes(w, t, c, limit) == ChainBytes(v, t, c, limit)
            && (forall x | 2 <= x < limit && x != home :: Cluster(w, t, x, limit) == Cluster(v, t, x, limit))
            && w[at..at + ENTRY_SIZE] == d
  {
    hide Copy, ChainBytes, Splice;
    var w := Splice(v, at, d);
    forall f | 0 <= f < t.fatCount
      ensures Copy(w, t, f, limit) == Copy(v, t, f, limit)
    {
      ClusterIsNoTable(v, t, limit, at, d, f);
    }
    forall x | 2 <= x < limit && x != home
      ensures Cluster(w, t, x, limit) == Cluster(v, t, x, limit)
    {
      ClusterInBounds(t, x, limit, |v|);
      if home != 0 {
        ClustersApart(t, if x < home then x else home, if x < home then home else x);
      }
      SpliceSlice(v, at, d, t.ClusterLocation(x), t.ClusterLocation(x) + t.BytesPerCluster());
    }
    SameClusters(v, w, t, c, limit);
    SpliceSlice(v, at, d, at, at + ENTRY_SIZE);
  }

  /** The place of the directory entry survives the growth of the chain. */
  lemma EntryPlaceKept(v0: seq<Byte>, v: seq<Byte>, t: AllocationTable, limit: nat, c0: seq<nat>, c: seq<nat>, off: nat,
                       data: seq<Byte>, w: nat,
                       at: nat, home: nat)
    requires Writing(v0, v, t, limit, c0, c, off, data, w) && EntryPlace(v0, t, limit, c0, at, home)
    ensures EntryPlace(v0, t, limit, c, at, home) && EntryPlace(v, t, limit, c, at, home)
    ensures Kept(v0, v, t, limit, c)
  {
    hide Copy, Cluster, IsChain, ChainBytes, CopiesEqual, Progress, SameMeta, AllocationTable.ClusterLocation;
  }

  /** Before the directory entry is stored, its bytes are the old ones. */
  lemma EntryUntouched(v0: seq<Byte>, v: seq<Byte>, t: AllocationTable, limit: nat, c: seq<nat>, at: nat, home: nat)
    requires Kept(v0, v, t, limit, c) && 1 <= t.fatCount && EntryPlace(v0, t, limit, c, at, home)
    ensures v[at..at + ENTRY_SIZE] == v0[at..at + ENTRY_SIZE]
    ensures FileKept(v0, v, t, limit, c, at)
  {
    hide Copy, Splice, DataEnd, AllocationTable.FatEnd;
    DataBounds(t, limit, |v|);
    var lo, hi := t.FatEnd(), t.firstClusterLocation;
    if home != 0 {
      ClusterInBounds(t, home, limit, |v|);
      assert Cluster(v, t, home, limit) == Cluster(v0, t, home, limit);
      lo, hi := t.ClusterLocation(home), t.ClusterLocation(home) + t.BytesPerCluster();
    }
    SubSlice(v, lo, hi, at - lo, ENTRY_SIZE);
    SubSlice(v0, lo, hi, at - lo, ENTRY_SIZE);
    SpliceSelf(v0, at, ENTRY_SIZE);
  }

  lemma SpliceSelf(v: seq<Byte>, at: nat, n: nat)
    requires at + n <= |v|
    ensures Splice(v, at, v[at..at + n]) == v
  {
  }

  /** Storing the directory entry: the volume is kept but for the chain and those bytes. */
  lemma EntryReplaced(v0: seq<Byte>, v: seq<Byte>, t: AllocationTable, limit: nat, c: seq<nat>, at: nat, home: nat,
                      d: seq<Byte>)
    requires Kept(v0, v, t, limit, c) && 1 <= t.fatCount && InVolume(c, limit) && |d| == ENTRY_SIZE
    requires EntryPlace(v0, t, limit, c, at, home) && EntryPlace(v, t, limit, c, at, home)
    ensures FileKept(v0, Splice(v, at, d), t, limit, c, at)
    ensures EntryPlace(Splice(v, at, d), t, limit, c, at, home)
  {
    hide Copy, Splice, Cluster, SameMeta, ChainBytes, AllocationTable.Lays;
    var w0, w := Splice(v0, at, d), Splice(v, at, d);
    EntryWritten(v0, t, limit, c, at, home, d);
    EntryWritten(v, t, limit, c, at, home, d);
    EntryMeta(v0, v, t, limit, c, at, home, d);
    forall x | 2 <= x < limit && x !in c
      ensures Cluster(w, t, x, limit) == Cluster(w0, t, x, limit)
    {
      if x == home {
        ClusterWrite(v0, t, limit, home, at - t.ClusterLocation(home), d, x);
        ClusterWrite(v, t, limit, home, at - t.ClusterLocation(home), d, x);
      }
    }
  }

  lemma SpliceBoth(v0: seq<Byte>, v: seq<Byte>, at: nat, d: seq<Byte>, lo: nat, hi: nat)
    requires |v| == |v0| && lo <= hi <= |v| && at + |d| <= |v| && v0[lo..hi] == v[lo..hi]
    requires at + |d| <= lo || hi <= at || lo <= at <= at + |d| <= hi
    ensures Splice(v0, at, d)[lo..hi] == Splice(v, at, d)[lo..hi]
  {
    hide Splice;
    SpliceSlice(v0, at, d, lo, hi);
    SpliceSlice(v, at, d, lo, hi);
  }

  lemma RootEntryMeta(v0: seq<Byte>, v: seq<Byte>, t: AllocationTable, limit: nat, at: nat, d: seq<Byte>)
    requires |v| == |v0| && t.Lays(limit, |v|) && SameMeta(v0, v, t, limit)
    requires t.FatEnd() <= at && at + |d| <= t.firstClusterLocation && at + |d| <= |v|
    ensures SameMeta(Splice(v0, at, d), Splice(v, at, d), t, limit)
  {
    DataBounds(t, limit, |v|);
    hide Splice, AllocationTable.FatEnd, AllocationTable.Lays, DataEnd;
    SpliceBoth(v0, v, at, d, 0, t.tableStart);
    SpliceBoth(v0, v, at, d, t.FatEnd(), t.firstClusterLocation);
    SpliceBoth(v0, v, at, d, DataEnd(t, limit), |v|);
  }

  lemma EntryMeta(v0: seq<Byte>, v: seq<Byte>, t: AllocationTable, limit: nat, c: seq<nat>, at: nat, home: nat,
                  d: seq<Byte>)
    requires |v| == |v0| && t.Lays(limit, |v|) && SameMeta(v0, v, t, limit) && |d| == ENTRY_SIZE
    requires EntryPlace(v, t, limit, c, at, home)
    ensures SameMeta(Splice(v0, at, d), Splice(v, at, d), t, limit)
  {
    hide Splice, Copy;
    if home == 0 {
      RootEntryMeta(v0, v, t, limit, at, d);
    } else {
      hide DataEnd, AllocationTable.Lays;
      ClusterIsNoMeta(v0, t, limit, home, at - t.ClusterLocation(home), d);
      ClusterIsNoMeta(v, t, limit, home, at - t.ClusterLocation(home), d);
    }
  }

  lemma UsedClusterKept(fat: seq<nat>, c0: seq<nat>, c: seq<nat>, d: seq<nat>, x: nat)
    requires IsChain(fat, d) && x in d && Disjoint(d, c0) && c0 <= c
    requires forall i | |c0| <= i < |c| :: c[i] in FreeSet(fat)
    ensures x !in c && 2 <= x < |fat|
  {
    var k :| 0 <= k < |d| && d[k] == x;
    assert fat[x] != 0 by {
      assert k == |d| - 1 || fat[d[k]] == d[k + 1];
    }
  }

  lemma FreeBefore(v0: seq<Byte>, v: seq<Byte>, t: AllocationTable, limit: nat, c: seq<nat>, x: nat)
    requires Kept(v0, v, t, limit, c) && 1 <= t.fatCount && x !in c && x in FreeSet(Copy(v, t, 0, limit))
    ensures x in FreeSet(Copy(v0, t, 0, limit))
  {
    hide Copy, Cluster;
  }

  lemma WritingGrows(v0: seq<Byte>, v: seq<Byte>, w': seq<Byte>, t: AllocationTable, limit: nat, c0: seq<nat>,
                     c: seq<nat>,
                     new': nat,
                     off: nat, data: seq<Byte>, w: nat)
    requires Writing(v0, v, t, limit, c0, c, off, data, w) && |w'| == |v|
    requires 2 <= new' < limit && new' in FreeSet(Copy(v, t, 0, limit)) && new' !in c
    requires IsChain(Copy(w', t, 0, limit), c + [new']) && Kept(v, w', t, limit, c + [new'])
    requires FreeSet(Copy(w', t, 0, limit)) == FreeSet(Copy(v, t, 0, limit)) - {new'}
    requires forall d | InVolume(d, limit) :: ChainBytes(w', t, d, limit) == ChainBytes(v, t, d, limit)
    requires CopiesEqual(v, t, limit) ==> CopiesEqual(w', t, limit)
    ensures Writing(v0, w', t, limit, c0, c + [new'], off, data, w)
  {
    hide Copy, Cluster, AllocationTable.Lays, IsChain, Kept, CopiesEqual, Progress, FreeSet,
         AllocationTable.BytesPerCluster;
    KeptTrans(v0, v, w', t, limit, c, c + [new']);
    FreeBefore(v0, v, t, limit, c, new');
    var d := c + [new'];
    assert d[..|d| - 1] == c;
    ProgressGrow(ChainBytes(v, t, c, limit), ChainBytes(v0, t, c0, limit), off, data, w, Cluster(w', t, new', limit));
  }

  lemma WritingBounds(v0: seq<Byte>, v: seq<Byte>, t: AllocationTable, limit: nat, c0: seq<nat>, c: seq<nat>, off: nat,
                      data: seq<Byte>, w: nat)
    requires Writing(v0, v, t, limit, c0, c, off, data, w)
    ensures |v| == |v0| && t.Lays(limit, |v|) && 1 <= t.fatCount
    ensures 0 < t.BytesPerCluster() && c0 <= c && InVolume(c, limit)
  {
    hide Copy, IsChain, ChainBytes, Kept, CopiesEqual, Progress, FreeSet;
  }

  lemma WritingAdvances(v0: seq<Byte>, v: seq<Byte>, t: AllocationTable, limit: nat, c0: seq<nat>, c: seq<nat>,
                        off: nat, data: seq<Byte>, w: nat, k: nat, o: nat, n: nat)
    requires Writing(v0, v, t, limit, c0, c, off, data, w)
    requires k < |c| && o + n <= t.BytesPerCluster() && w + n <= |data| && off + w == k * t.BytesPerCluster() + o
    ensures 2 <= c[k] < limit && t.ClusterLocation(c[k]) + o + n <= |v|
    ensures Writing(v0, Splice(v, t.ClusterLocation(c[k]) + o, data[w..w + n]), t, limit, c0, c, off, data, w + n)
  {
    hide Copy, Cluster, AllocationTable.Lays, IsChain, ChainBytes, Splice, Progress, FreeSet, Kept,
         AllocationTable.BytesPerCluster,
         AllocationTable.ClusterLocation;
    var d := data[w..w + n];
    ChunkWritten(v, t, limit, c, k, o, d);
    ProgressWrite(ChainBytes(v, t, c, limit), ChainBytes(v0, t, c0, limit), off, data, w, n);
    KeptTrans(v0, v, Splice(v, t.ClusterLocation(c[k]) + o, d), t, limit, c, c);
  }

  /**
   From `v` to `w` one file has changed: its chain has grown from `c0` to `c` by clusters that were free, every other
   chain of the table is as it was, and off the chain only the directory entry at `at` may differ.
   */
  ghost predicate OnlyThisFile(v: seq<Byte>, w: seq<Byte>, t: AllocationTable, limit: nat, c0: seq<nat>, c: seq<nat>,
                               at: nat) {
    && |v| == |w| && t.Lays(limit, |v|) && 1 <= t.fatCount && c0 <= c
    && (forall i | |c0| <= i < |c| :: c[i] in FreeSet(Copy(v, t, 0, limit)))
    && FileKept(v, w, t, limit, c, at)
    && (CopiesEqual(v, t, limit) ==> CopiesEqual(w, t, limit))
    && if c == [] then Copy(w, t, 0, limit) == Copy(v, t, 0, limit)
       else GrowsOneChain(Copy(v, t, 0, limit), Copy(w, t, 0, limit), c0, c)
  }

  lemma SameFile(v: seq<Byte>, t: AllocationTable, limit: nat, c: seq<nat>, at: nat, home: nat)
    requires t.Lays(limit, |v|) && 1 <= t.fatCount && EntryPlace(v, t, limit, c, at, home)
    requires c != [] ==> IsChain(Copy(v, t, 0, limit), c)
    ensures OnlyThisFile(v, v, t, limit, c, c, at)
  {
    hide Copy, Cluster, FreeSet, IsChain, FileKept, GrowsOneChain;
    EntryUntouched(v, v, t, limit, c, at, home);
    if c != [] {
      GrowthIsLocal(Copy(v, t, 0, limit), Copy(v, t, 0, limit), c, c);
    }
  }

  lemma GrowsTwice(f0: seq<nat>, f1: seq<nat>, f2: seq<nat>, c0: seq<nat>, c1: seq<nat>, c2: seq<nat>)
    requires GrowsOneChain(f0, f1, c0, c1) && GrowsOneChain(f1, f2, c1, c2) && c1 != []
    ensures GrowsOneChain(f0, f2, c0, c2)
  {
    hide Forest, NothingLost;
    forall chains: seq<seq<nat>>, a: nat {:trigger WithChain(chains, a, c2)}
      | Forest(f0, chains) && (if c0 == [] then a == |chains| else a < |chains| && chains[a] == c0)
      ensures Forest(f2, WithChain(chains, a, c2))
      ensures NothingLost(f0, chains) ==> NothingLost(f2, WithChain(chains, a, c2))
    {
      var chains1 := WithChain(chains, a, c1);
      assert WithChain(chains1, a, c2) == WithChain(chains, a, c2);
    }
  }

  lemma FileKeptTwice(u: seq<Byte>, v: seq<Byte>, w: seq<Byte>, t: AllocationTable, limit: nat, c1: seq<nat>,
                      c2: seq<nat>,
                      at: nat, home: nat)
    requires t.Lays(limit, |u|) && 1 <= t.fatCount && InVolume(c1, limit) && c1 <= c2
    requires FileKept(u, v, t, limit, c1, at) && FileKept(v, w, t, limit, c2, at)
    requires EntryPlace(u, t, limit, [], at, home) && EntryPlace(v, t, limit, c1, at, home)
    ensures FileKept(u, w, t, limit, c2, at)
  {
    var e, d := v[at..at + ENTRY_SIZE], w[at..at + ENTRY_SIZE];
    var u1 := Splice(u, at, e);
    EntryWritten(u, t, limit, [], at, home, e);
    SpliceSlice(v, at, d, at, at + ENTRY_SIZE);
    SpliceAgain(u, at, e, d);
    hide Splice, Copy, Cluster, Kept, SameMeta, ChainBytes, AllocationTable.Lays, AllocationTable.ClusterLocation;
    EntryReplaced(u1, v, t, limit, c1, at, home, d);
    KeptTrans(Splice(u, at, d), Splice(v, at, d), w, t, limit, c1, c2);
  }

  lemma SpliceAgain(u: seq<Byte>, at: nat, e: seq<Byte>, d: seq<Byte>)
    requires |e| == |d| && at + |d| <= |u|
    ensures Splice(Splice(u, at, e), at, d) == Splice(u, at, d)
  {
  }

  lemma WasFree(u: seq<Byte>, v: seq<Byte>, t: AllocationTable, limit: nat, c: seq<nat>, at: nat, home: nat, x: nat)
    requires FileKept(u, v, t, limit, c, at) && t.Lays(limit, |u|)
    requires 1 <= t.fatCount && EntryPlace(u, t, limit, [], at, home)
    requires c != [] ==> IsChain(Copy(v, t, 0, limit), c)
    requires x in FreeSet(Copy(v, t, 0, limit))
    ensures x in FreeSet(Copy(u, t, 0, limit))
  {
    if c != [] {
      FreeIsOnNoChain(Copy(v, t, 0, limit), c, x);
    }
    var u1 := Splice(u, at, v[at..at + ENTRY_SIZE]);
    EntryWritten(u, t, limit, [], at, home, v[at..at + ENTRY_SIZE]);
    hide Splice, Copy, Cluster, Kept, FreeSet;
    FreeBefore(u1, v, t, limit, c, x);
  }

  /** What holds of each of two changes to one file holds of both together. */
  lemma SameFileTwice(u: seq<Byte>, v: seq<Byte>, w: seq<Byte>, t: AllocationTable, limit: nat,
                      c0: seq<nat>, c1: seq<nat>, c2: seq<nat>, at: nat, home: nat)
    requires OnlyThisFile(u, v, t, limit, c0, c1, at) && OnlyThisFile(v, w, t, limit, c1, c2, at)
    requires EntryPlace(u, t, limit, c0, at, home) && EntryPlace(v, t, limit, c1, at, home) && InVolume(c1, limit)
    requires c1 != [] ==> IsChain(Copy(v, t, 0, limit), c1)
    ensures OnlyThisFile(u, w, t, limit, c0, c2, at)
  {
    hide Copy, Cluster, FreeSet, IsChain, FileKept, GrowsOneChain, CopiesEqual, AllocationTable.Lays,
         AllocationTable.ClusterLocation;
    FileKeptTwice(u, v, w, t, limit, c1, c2, at, home);
    forall i | |c0| <= i < |c2|
      ensures c2[i] in FreeSet(Copy(u, t, 0, limit))
    {
      if i < |c1| {
        assert c2[i] == c1[i];
      } else {
        WasFree(u, v, t, limit, c1, at, home, c2[i]);
      }
    }
    if c1 != [] {
      GrowsTwice(Copy(u, t, 0, limit), Copy(v, t, 0, limit), Copy(w, t, 0, limit), c0, c1, c2);
    }
  }

  /** Any other file on the volume keeps its chain and its bytes. */
  lemma OtherFileKept(v: seq<Byte>, w: seq<Byte>, t: AllocationTable, limit: nat, c0: seq<nat>, c: seq<nat>, at: nat,
                      home: nat, d: seq<nat>)
    requires OnlyThisFile(v, w, t, limit, c0, c, at) && EntryPlace(v, t, limit, c0, at, home)
    requires IsChain(Copy(v, t, 0, limit), d) && Disjoint(d, c0) && home !in d
    ensures InVolume(d, limit) && IsChain(Copy(w, t, 0, limit), d)
    ensures ChainBytes(w, t, d, limit) == ChainBytes(v, t, d, limit)
  {
    hide GrowsOneChain, CopiesEqual;
    ChainInVolume(Copy(v, t, 0, limit), d);
    EntryWritten(v, t, limit, [], at, home, w[at..at + ENTRY_SIZE]);
    forall x | x in d
      ensures x !in c && Copy(w, t, 0, limit)[x] == Copy(v, t, 0, limit)[x]
      ensures Cluster(w, t, x, limit) == Cluster(v, t, x, limit)
    {
      hide Copy, Cluster, AllocationTable.Lays, Splice, SameMeta, EntryPlace;
      UsedClusterKept(Copy(v, t, 0, limit), c0, c, d, x);
    }
    hide Cluster, Copy, Splice, AllocationTable.Lays;
    ChainKept(Copy(v, t, 0, limit), Copy(w, t, 0, limit), d);
    SameClusters(v, w, t, d, limit);
  }

  /** Every file whose chain is disjoint from `c` keeps its chain and its bytes. */
  ghost predicate OthersKept(v: seq<Byte>, w: seq<Byte>, t: AllocationTable, limit: nat, c: seq<nat>, home: nat)
    requires |v| == |w| && t.Lays(limit, |v|) && 1 <= t.fatCount
  {
    forall d | InVolume(d, limit) && IsChain(Copy(v, t, 0, limit), d) && Disjoint(d, c) && home !in d ::
      IsChain(Copy(w, t, 0, limit), d) && ChainBytes(w, t, d, limit) == ChainBytes(v, t, d, limit)
  }

  lemma OthersAreKept(v: seq<Byte>, w: seq<Byte>, t: AllocationTable, limit: nat, c0: seq<nat>, c: seq<nat>, at: nat,
                      home: nat)
    requires OnlyThisFile(v, w, t, limit, c0, c, at) && EntryPlace(v, t, limit, c0, at, home)
    ensures OthersKept(v, w, t, limit, c0, home)
  {
    hide FileKept, FreeSet, GrowsOneChain, CopiesEqual, EntryPlace, IsChain, ChainBytes, Copy, Disjoint,
         AllocationTable.Lays;
    forall d | InVolume(d, limit) && IsChain(Copy(v, t, 0, limit), d) && Disjoint(d, c0) && home !in d
      ensures IsChain(Copy(w, t, 0, limit), d) && ChainBytes(w, t, d, limit) == ChainBytes(v, t, d, limit)
    {
      OtherFileKept(v, w, t, limit, c0, c, at, home, d);
    }
  }

  /** The size a file can reach: its own clusters and all the free ones. */
  ghost function Capacity(view: seq<Byte>, t: AllocationTable, limit: nat, c: seq<nat>): nat
    requires t.Lays(limit, |view|) && 1 <= t.fatCount
  {
    (|c| + |FreeSet(Copy(view, t, 0, limit))|) * t.BytesPerCluster()
  }

  /** There is one chain from a cluster. */
  lemma OneChain(fat: seq<nat>, c: seq<nat>)
    requires IsChain(fat, c) && |fat| <= CLUSTER_CAP
    ensures forall d | IsChain(fat, d) && d[0] == c[0] :: d == c
  {
    forall d | IsChain(fat, d) && d[0] == c[0]
      ensures d == c
    {
      ChainsAgree(fat, c, d);
    }
  }

  class File {
    var entry: DirEntry
    const entryOffset: nat
    var clusterCache: seq<nat>

    /** The handle describes the chain `c` of the volume `view`, and remembers it or nothing. */
    ghost predicate Backed(view: seq<Byte>, t: AllocationTable, limit: nat, c: seq<nat>, home: nat)
      reads this
    {
      && t.Lays(limit, |view|) && 1 <= t.fatCount && entry.Valid()
      && (if c == [] then entry.firstCluster == 0 && entry.byteSize == 0
          else entry.firstCluster == c[0] && IsChain(Copy(view, t, 0, limit), c))
      && (clusterCache == [] || clusterCache == c)
      && entry.byteSize <= |c| * t.BytesPerCluster()
      && EntryPlace(view, t, limit, c, entryOffset, home)
    }

    /** The directory entry on the disk is the handle's. */
    ghost predicate InSync(view: seq<Byte>)
      reads this
    {
      LiesAt(entry, view, entryOffset)
    }

    /** The same for a file that had no cluster when it was opened: it shows on the disk once it has a size. */
    ghost predicate NewInSync(view: seq<Byte>, c: seq<nat>)
      reads this
    {
      InSync(view) <==> c == [] || entry.byteSize > 0
    }

    /** What the file holds. */
    ghost function Contents(view: seq<Byte>, t: AllocationTable, limit: nat, c: seq<nat>): (r: seq<Byte>)
      requires t.Lays(limit, |view|) && InVolume(c, limit) && entry.byteSize <= |c| * t.BytesPerCluster()
      reads this
      ensures |r| == entry.byteSize
    {
      ChainBytes(view, t, c, limit)[..entry.byteSize]
    }

    method CacheClusterChain(t: AllocationTable, start: nat, disk: DiskAccess, ghost limit: nat, ghost c: seq<nat>)
      requires disk.Valid() && t.Lays(limit, |disk.View|) && 1 <= t.fatCount
      requires IsChain(Copy(disk.View, t, 0, limit), c) && c[0] == start
      modifies this`clusterCache, disk, disk.buf, disk.hashTable
      ensures disk.Valid() && disk.View == old(disk.View)
      ensures clusterCache == c
      ensures forall d | IsChain(Copy(disk.View, t, 0, limit), d) && d[0] == start :: clusterCache == d
    {
      hide Copy, AllocationTable.Lays, IsChain, DiskAccess.Valid, Entry;
      ghost var v := disk.View;
      ghost var fat := Copy(v, t, 0, limit);
      ChainBounds(fat, c);
      LayoutFacts(t, limit, |v|);
      OneChain(fat, c);
      clusterCache := [];
      var current := start;
      while current != 0xFFF
        invariant disk.Valid() && disk.View == v
        invariant |clusterCache| < |c| && clusterCache == c[..|clusterCache|] && current == c[|clusterCache|]
        decreases |c| - |clusterCache|
      {
        ghost var i := |clusterCache|;
        ChainStep(fat, c, i);
        FirstCopyEntry(v, t, limit, current);
        clusterCache := clusterCache + [current];
        assert clusterCache == c[..i + 1];
        var next := GetNextCluster(t, current, disk);
        match next
        case Some(n) => current := n;
        case None => return;
      }
      ChainStep(fat, c, |clusterCache|);
    }

    /** Extends the chain until it has more than `rel` clusters; false when the volume is full. */
    method GrowTo(rel: nat, t: AllocationTable, disk: DiskAccess, ghost limit: nat, ghost v0: seq<Byte>,
                  ghost c0: seq<nat>,
                  ghost off: nat, ghost data: seq<Byte>, ghost w: nat)
      returns (ok: bool)
      requires disk.Valid() && Writing(v0, disk.View, t, limit, c0, clusterCache, off, data, w)
      requires limit == CLUSTER_CAP || rel < |c0| + |FreeSet(Copy(v0, t, 0, limit))|
      modifies this`clusterCache, disk, disk.buf, disk.hashTable
      ensures disk.Valid() && Writing(v0, disk.View, t, limit, c0, clusterCache, off, data, w)
      ensures old(clusterCache) <= clusterCache && (ok ==> rel < |clusterCache|)
      ensures !ok ==> limit == CLUSTER_CAP && FreeSet(Copy(disk.View, t, 0, limit)) == {}
      ensures !ok ==> rel >= |c0| + |FreeSet(Copy(v0, t, 0, limit))|
    {
      hide Copy, AllocationTable.Lays, IsChain, DiskAccess.Valid, ChainBytes, Kept, CopiesEqual, Progress, FreeSet;
      while rel >= |clusterCache|
        invariant old(clusterCache) <= clusterCache
        invariant disk.Valid() && Writing(v0, disk.View, t, limit, c0, clusterCache, off, data, w)
        decreases rel - |clusterCache|
      {
        ghost var v := disk.View;
        FreeMeansHasFree(Copy(v, t, 0, limit));
        var prevCluster := clusterCache[|clusterCache| - 1];
        var r := AppendCluster(t, Some(prevCluster), disk, limit, clusterCache);
        if r.None? {
          return false;
        }
        WritingGrows(v0, v, disk.View, t, limit, c0, clusterCache, r.value, off, data, w);
        clusterCache := clusterCache + [r.value];
      }
      return true;
    }

    /** The loop that puts the data in place, cluster by cluster. */
    method WriteLoop(data: seq<Byte>, initialOffset: nat, t: AllocationTable, disk: DiskAccess, ghost limit: nat,
                     ghost v0: seq<Byte>, ghost c0: seq<nat>)
      returns (bytesWritten: nat)
      requires disk.Valid() && Writing(v0, disk.View, t, limit, c0, clusterCache, initialOffset, data, 0)
      requires data != [] ==> Room(Copy(v0, t, 0, limit), t, limit, c0, initialOffset + |data|)
      modifies this`clusterCache, disk, disk.buf, disk.hashTable
      ensures disk.Valid() && bytesWritten <= |data| && old(clusterCache) <= clusterCache
      ensures data == [] ==> clusterCache == old(clusterCache)
      ensures Writing(v0, disk.View, t, limit, c0, clusterCache, initialOffset, data, bytesWritten)
      ensures bytesWritten < |data| ==> limit == CLUSTER_CAP && FreeSet(Copy(disk.View, t, 0, limit)) == {}
      ensures bytesWritten < |data| ==>
                initialOffset + |data| > (|c0| + |FreeSet(Copy(v0, t, 0, limit))|) * t.BytesPerCluster()
    {
      hide Copy, AllocationTable.Lays, IsChain, DiskAccess.Valid, ChainBytes, Kept, CopiesEqual, Progress, FreeSet,
           Writing, Splice,
           AllocationTable.BytesPerCluster, AllocationTable.ClusterLocation;
      var offset := initialOffset;
      bytesWritten := 0;
      WritingBounds(v0, disk.View, t, limit, c0, clusterCache, initialOffset, data, 0);
      var b := t.BytesPerCluster();
      while bytesWritten < |data|
        invariant disk.Valid() && bytesWritten <= |data| && offset == initialOffset + bytesWritten
        invariant old(clusterCache) <= clusterCache && (data == [] ==> clusterCache == old(clusterCache))
        invariant Writing(v0, disk.View, t, limit, c0, clusterCache, initialOffset, data, bytesWritten)
      {
        var rel := offset / b;
        var clusterOffset := offset % b;
        DivMod(offset, b);
        if limit != CLUSTER_CAP {
          MulLt(rel, |c0| + |FreeSet(Copy(v0, t, 0, limit))|, b);
        }
        var ok := GrowTo(rel, t, disk, limit, v0, c0, initialOffset, data, bytesWritten);
        if !ok {
          MulLe(|c0| + |FreeSet(Copy(v0, t, 0, limit))|, rel, b);
          return;
        }
        var cluster := clusterCache[rel];
        var n := if |data| - bytesWritten < b - clusterOffset then |data| - bytesWritten else b - clusterOffset;
        WritingAdvances(v0, disk.View, t, limit, c0, clusterCache, initialOffset, data, bytesWritten, rel,
                        clusterOffset, n);
        disk.WriteBytes(t.ClusterLocation(cluster) + clusterOffset, data[bytesWritten..bytesWritten + n]);
        bytesWritten := bytesWritten + n;
        offset := offset + n;
      }
    }

    /**
     Reads from `initialOffset` on: as much as the buffer takes and the file has, and nothing else changes. Past the
     clusters of the file there is nothing to read.
     */
    method Read(buffer: array<Byte>, initialOffset: nat, t: AllocationTable, disk: DiskAccess, ghost limit: nat,
                ghost c: seq<nat>, ghost home: nat)
      returns (bytesRead: nat)
      requires disk.Valid() && Backed(disk.View, t, limit, c, home) && InVolume(c, limit)
      requires entry.firstCluster >= 2 && buffer != disk.buf
      requires initialOffset <= entry.byteSize || initialOffset >= |c| * t.BytesPerCluster()
      modifies this`clusterCache, disk, disk.buf, disk.hashTable, buffer
      ensures disk.Valid() && disk.View == old(disk.View) && Backed(disk.View, t, limit, c, home)
      ensures initialOffset <= entry.byteSize ==>
                && bytesRead == Min(buffer.Length, entry.byteSize - initialOffset)
                && var s := Contents(disk.View, t, limit, c);
                   buffer[..] == Splice(old(buffer[..]), 0, s[initialOffset..initialOffset + bytesRead])
      ensures initialOffset > entry.byteSize ==> bytesRead == 0 && buffer[..] == old(buffer[..])
    {
      hide Copy, AllocationTable.Lays, IsChain, DiskAccess.Valid, ChainBytes, EntryPlace, Splice,
           AllocationTable.BytesPerCluster,
           AllocationTable.ClusterLocation;
      ghost var v, b0 := disk.View, buffer[..];
      ghost var all := ChainBytes(v, t, c, limit);
      var size := entry.byteSize;
      var b := t.BytesPerCluster();
      ClusterInBounds(t, c[0], limit, |v|);
      LayoutFacts(t, limit, |v|);
      var offset := initialOffset;
      bytesRead := 0;
      SpliceNothing(b0, 0);
      assert initialOffset <= size ==> all[..size][initialOffset..initialOffset] == [];
      while true
        invariant disk.Valid() && disk.View == v && Backed(v, t, limit, c, home) && entry == old(entry)
        invariant offset == initialOffset + bytesRead && bytesRead <= buffer.Length
        invariant initialOffset <= size ==> offset <= size
        invariant initialOffset <= size ==> buffer[..] == Splice(b0, 0, all[..size][initialOffset..offset])
        invariant initialOffset > size ==> bytesRead == 0 && buffer[..] == b0
        decreases size - offset
      {
        var rel := offset / b;
        var clusterOffset := offset % b;
        DivMod(offset, b);
        if clusterCache == [] {
          CacheClusterChain(t, entry.firstCluster, disk, limit, c);
        }
        if rel < |c| {
          MulLe(rel + 1, |c|, b);
          MulStep(rel, b);
        }
        if rel >= |clusterCache| {
          MulLe(|c|, rel, b);
          return;
        }
        var cluster := clusterCache[rel];
        var inFile := size - offset;
        var inCluster := b - clusterOffset;
        var fromDisk := if inFile < inCluster then inFile else inCluster;
        var bufferEnd := if buffer.Length < bytesRead + fromDisk then buffer.Length else bytesRead + fromDisk;
        ChainRead(v, t, c, limit, rel, clusterOffset, bufferEnd - bytesRead);
        SubSlice(all, 0, size, offset, bufferEnd - bytesRead);
        assert all[0..size] == all[..size];
        SpliceMore(b0, 0, all[..size], initialOffset, bytesRead, bufferEnd - bytesRead);
        var readSize := disk.ReadBytes(t.ClusterLocation(cluster) + clusterOffset, buffer, bytesRead, bufferEnd);
        bytesRead := bytesRead + readSize;
        offset := offset + readSize;
        if bytesRead + initialOffset >= entry.byteSize {
          return;
        }
        if bytesRead >= buffer.Length {
          return;
        }
      }
    }

    /** Makes sure the handle knows a chain to write to, taking a first cluster for an empty file. */
    method StartWrite(t: AllocationTable, disk: DiskAccess, ghost limit: nat, ghost c: seq<nat>, ghost home: nat,
                      ghost off: nat, ghost data: seq<Byte>)
      returns (ok: bool)
      requires disk.Valid() && Backed(disk.View, t, limit, c, home)
      requires c == [] ==> limit == CLUSTER_CAP || FreeSet(Copy(disk.View, t, 0, limit)) != {}
      modifies this, disk, disk.buf, disk.hashTable
      ensures disk.Valid()
      ensures ok ==> Writing(old(disk.View), disk.View, t, limit, c, clusterCache, off, data, 0)
      ensures ok ==> clusterCache != [] && entry == old(entry).(firstCluster := clusterCache[0])
      ensures ok ==> |clusterCache| == if c == [] then 1 else |c|
      ensures !ok ==> c == [] && disk.View == old(disk.View) && entry == old(entry) && clusterCache == []
      ensures !ok ==> limit == CLUSTER_CAP && FreeSet(Copy(disk.View, t, 0, limit)) == {}
    {
      hide Copy, AllocationTable.Lays, IsChain, DiskAccess.Valid, ChainBytes, Kept, CopiesEqual, FreeSet, EntryPlace,
           Writing;
      ghost var v := disk.View;
      if clusterCache == [] && entry.firstCluster != 0 {
        CacheClusterChain(t, entry.firstCluster, disk, limit, c);
      }
      if clusterCache == [] {
        EmptyHasNoChain(v, t, limit, c);
        FreeMeansHasFree(Copy(v, t, 0, limit));
        var r := AppendCluster(t, None, disk, limit, []);
        if r.None? {
          return false;
        }
        LayoutFacts(t, limit, |v|);
        entry := entry.(firstCluster := r.value);
        clusterCache := clusterCache + [r.value];
        assert [] + [r.value] == [r.value];
        WritingStartsEmpty(v, disk.View, t, limit, r.value, off, data);
      } else {
        WritingStarts(v, t, limit, c, off, data);
      }
      return true;
    }

    /**
     Writes `data` at `initialOffset`. When all of it is written the contents are the old ones with the data there;
     what lies between the old end and the offset is not defined. The chain grows by free clusters only, and nothing
     off the chain and the directory entry changes. When the volume runs full in the middle, the size is left as it
     was. The handle stays right unless the write is hollow. `c'` is the chain afterwards.
     */
    method Write(data: seq<Byte>, initialOffset: nat, t: AllocationTable, disk: DiskAccess, ghost limit: nat,
                 ghost c: seq<nat>, ghost home: nat)
      returns (bytesWritten: nat, ghost c': seq<nat>)
      requires disk.Valid() && Backed(disk.View, t, limit, c, home) && InVolume(c, limit)
      requires initialOffset + |data| < 0x1_0000_0000
      requires data != [] ==> Room(Copy(disk.View, t, 0, limit), t, limit, c, initialOffset + |data|)
      requires c == [] ==> limit == CLUSTER_CAP || FreeSet(Copy(disk.View, t, 0, limit)) != {}
      modifies this, disk, disk.buf, disk.hashTable
      ensures disk.Valid() && InVolume(c', limit)
      ensures OnlyThisFile(old(disk.View), disk.View, t, limit, c, c', entryOffset)
      ensures Backed(disk.View, t, limit, c', home) <==> !Hollow(old(disk.View), t, limit, c, initialOffset, data)
      ensures Hollow(old(disk.View), t, limit, c, initialOffset, data) ==>
                entry.byteSize == initialOffset && initialOffset > |c'| * t.BytesPerCluster()
      ensures c' == [] <==> c == [] && FreeSet(Copy(old(disk.View), t, 0, limit)) == {}
      ensures bytesWritten <= |data|
      ensures bytesWritten == |data| <==> data == [] || initialOffset + |data| <= Capacity(old(disk.View), t, limit, c)
      ensures bytesWritten < |data| ==> limit == CLUSTER_CAP && FreeSet(Copy(disk.View, t, 0, limit)) == {}
      ensures |c'| + |FreeSet(Copy(disk.View, t, 0, limit))| == |c| + |FreeSet(Copy(old(disk.View), t, 0, limit))|
      ensures !Hollow(old(disk.View), t, limit, c, initialOffset, data) ==>
                var s, s' := old(Contents(disk.View, t, limit, c)), Contents(disk.View, t, limit, c');
                if c' == [] then s' == s
                else if bytesWritten == |data| then Wrote(s, initialOffset, data, s')
                else s' == if initialOffset <= |s| then Overwrite(s, initialOffset, data[..bytesWritten])[..|s|] else s
      ensures entry == old(entry).(firstCluster := entry.firstCluster, byteSize := entry.byteSize)
      ensures entry.byteSize > old(entry.byteSize) ==> InSync(disk.View)
      ensures var (lo, hi) := (entryOffset, entryOffset + ENTRY_SIZE);
              entry.byteSize <= old(entry.byteSize) ==> disk.View[lo..hi] == old(disk.View)[lo..hi]
      ensures old(InSync(disk.View)) ==>
                (InSync(disk.View) <==> Named(old(disk.View), t, limit, c, initialOffset, data))
    {
      hide Copy, AllocationTable.Lays, IsChain, DiskAccess.Valid, ChainBytes, Kept, CopiesEqual, FreeSet, EntryPlace,
           Writing, Progress,
           Encode, Decode, LiesAt, Splice, Overwrite, Wrote, FileKept, Room, AllocationTable.BytesPerCluster;
      ghost var v0 := disk.View;
      ghost var e0 := entry;
      LayoutFacts(t, limit, |v0|);
      var ok := StartWrite(t, disk, limit, c, home, initialOffset, data);
      if !ok {
        NothingWritten(v0, t, limit, entryOffset, home);
        EntryPlaceBounds(v0, t, limit, c, entryOffset, home);
        SameBytesSameEntry(v0, disk.View, entryOffset, e0, entry);
        return 0, [];
      }
      bytesWritten := WriteLoop(data, initialOffset, t, disk, limit, v0, c);
      c' := clusterCache;
      ghost var v := disk.View;
      WriteDone(v0, v, t, limit, c, c', initialOffset, data, bytesWritten, e0.byteSize);
      EntryPlaceKept(v0, v, t, limit, c, c', initialOffset, data, bytesWritten, entryOffset, home);
      EntryUntouched(v0, v, t, limit, c', entryOffset, home);
      MulLe(|c'|, |c| + |FreeSet(Copy(v0, t, 0, limit))|, t.BytesPerCluster());
      FileGrown(v0, v, t, limit, c, c', entryOffset);
      EntryPlaceBounds(v, t, limit, c', entryOffset, home);
      SameBytesSameEntry(v0, v, entryOffset, e0, entry);
      if bytesWritten < |data| {
        return;
      }
      assert data[..bytesWritten] == data && 2 <= c'[0] < limit;
      var newEnd := initialOffset + bytesWritten;
      if newEnd > entry.byteSize {
        entry := entry.(byteSize := newEnd);
        EntryWritten(v, t, limit, c', entryOffset, home, Encode(entry));
        disk.WriteBytes(entryOffset, Encode(entry));
        EncodesInPlace(v, entryOffset, entry);
        EntryReplaced(v0, v, t, limit, c', entryOffset, home, Encode(entry));
        CopiesStored(v, disk.View, t, limit);
      }
    }
  }

  /**
   Whether the write leaves the disk's entry equal to the handle's: it does unless it takes a first cluster and then
   does not get to a size, because there is no data or not room enough for it.
   */
  ghost predicate Named(view: seq<Byte>, t: AllocationTable, limit: nat, c: seq<nat>, offset: nat, data: seq<Byte>)
    requires t.Lays(limit, |view|) && 1 <= t.fatCount
  {
    || c != [] || FreeSet(Copy(view, t, 0, limit)) == {}
    || (offset + |data| > 0 && (data == [] || offset + |data| <= Capacity(view, t, limit, c)))
  }

  /**
   A write without data, past the clusters that the file has then. It makes the file longer than its chain: the size
   follows the offset, and the loop that would take the clusters is not entered.
   */
  ghost predicate Hollow(view: seq<Byte>, t: AllocationTable, limit: nat, c: seq<nat>, offset: nat, data: seq<Byte>)
    requires t.Lays(limit, |view|) && 1 <= t.fatCount
  {
    && data == [] && offset > (if c == [] then 1 else |c|) * t.BytesPerCluster()
    && (c != [] || FreeSet(Copy(view, t, 0, limit)) != {})
  }

  /** A file of one cluster with its entry in the root directory, written nothing at offset 513. */
  lemma HollowExample() returns (t: AllocationTable, view: seq<Byte>)
    ensures t.Lays(3, |view|) && 1 <= t.fatCount && IsChain(Copy(view, t, 0, 3), [2])
    ensures EntryPlace(view, t, 3, [2], 512, 0) && Hollow(view, t, 3, [2], 513, [])
  {
    t := AllocationTable(0, 1, 512, 1, 1024);
    view := [255, 255, 255, 255, 15, 0] + seq(1530, _ => 0);
    assert view[3..6] == [255, 15, 0];
    assert Entry(view, 0, 2) == 0xFFF;
  }

  /**
   A new file on an empty volume, written nothing at its start: the disk's entry does not name the cluster it takes.
   */
  lemma UnnamedExample() returns (t: AllocationTable, view: seq<Byte>)
    ensures t.Lays(3, |view|) && 1 <= t.fatCount && FreeSet(Copy(view, t, 0, 3)) == {2}
    ensures EntryPlace(view, t, 3, [], 512, 0) && !Named(view, t, 3, [], 0, [])
  {
    t := AllocationTable(0, 1, 512, 1, 1024);
    view := seq(1536, _ => 0);
    assert view[3..6] == [0, 0, 0];
    assert Entry(view, 0, 2) == 0;
    assert 2 in FreeSet(Copy(view, t, 0, 3));
  }

  /** A volume in which every cluster is taken: a file of one cluster can hold its 512 bytes and not one more. */
  lemma FullVolumeExample() returns (t: AllocationTable, view: seq<Byte>)
    ensures t.Lays(CLUSTER_CAP, |view|) && 1 <= t.fatCount && IsChain(Copy(view, t, 0, CLUSTER_CAP), [2])
    ensures EntryPlace(view, t, CLUSTER_CAP, [2], t.ClusterLocation(3), 3)
    ensures Capacity(view, t, CLUSTER_CAP, [2]) == 512
  {
    t := AllocationTable(0, 1, 6144, 1, 6144);
    view := seq(6144 + 512 * 4083, i => if i < 6144 then 255 else 0);
    var fat := Copy(view, t, 0, CLUSTER_CAP);
    forall x: nat | x < CLUSTER_CAP
      ensures fat[x] == END_OF_CHAIN
    {
      var at := PairOffset(x);
      assert view[at..at + 3] == [255, 255, 255];
      assert fat[x] == Half(PairValue([255, 255, 255]), x);
    }
    assert FreeSet(fat) == {};
  }

  lemma FileGrown(v0: seq<Byte>, v: seq<Byte>, t: AllocationTable, limit: nat, c: seq<nat>, c': seq<nat>, at: nat)
    requires t.Lays(limit, |v|) && 1 <= t.fatCount && |v| == |v0|
    requires c' != [] && IsChain(Copy(v, t, 0, limit), c') && c <= c'
    requires Kept(v0, v, t, limit, c') && FileKept(v0, v, t, limit, c', at)
    requires CopiesEqual(v0, t, limit) ==> CopiesEqual(v, t, limit)
    requires forall i | |c| <= i < |c'| :: c'[i] in FreeSet(Copy(v0, t, 0, limit))
    ensures OnlyThisFile(v0, v, t, limit, c, c', at)
  {
    hide Copy, Cluster, IsChain, FileKept, GrowsOneChain, CopiesEqual, SameMeta, AllocationTable.Lays;
    GrowthIsLocal(Copy(v0, t, 0, limit), Copy(v, t, 0, limit), c, c');
  }

  lemma EntryPlaceBounds(v: seq<Byte>, t: AllocationTable, limit: nat, c: seq<nat>, at: nat, home: nat)
    requires t.Lays(limit, |v|) && EntryPlace(v, t, limit, c, at, home)
    ensures at + ENTRY_SIZE <= |v|
  {
  }

  lemma NothingWritten(v: seq<Byte>, t: AllocationTable, limit: nat, at: nat, home: nat)
    requires t.Lays(limit, |v|) && 1 <= t.fatCount && EntryPlace(v, t, limit, [], at, home)
    ensures FileKept(v, v, t, limit, [], at) && ChainBytes(v, t, [], limit)[..0] == []
  {
    hide Copy, Cluster;
    EntryUntouched(v, v, t, limit, [], at, home);
  }

  /** What the middle of a write says when it is the end. */
  lemma WriteDone(v0: seq<Byte>, v: seq<Byte>, t: AllocationTable, limit: nat, c0: seq<nat>, c: seq<nat>, off: nat,
                  data: seq<Byte>, w: nat, size: nat)
    requires Writing(v0, v, t, limit, c0, c, off, data, w)
    requires InVolume(c0, limit) && size <= |c0| * t.BytesPerCluster()
    ensures |v| == |v0| && t.Lays(limit, |v|) && InVolume(c, limit)
    ensures IsChain(Copy(v, t, 0, limit), c) && c0 <= c && c != []
    ensures (w > 0 ==> off + w <= |c| * t.BytesPerCluster()) && size <= |c| * t.BytesPerCluster() && w <= |data|
    ensures forall i | |c0| <= i < |c| :: c[i] in FreeSet(Copy(v0, t, 0, limit))
    ensures CopiesEqual(v0, t, limit) ==> CopiesEqual(v, t, limit)
    ensures |c| + |FreeSet(Copy(v, t, 0, limit))| == |c0| + |FreeSet(Copy(v0, t, 0, limit))|
    ensures var b, b0 := ChainBytes(v, t, c, limit), ChainBytes(v0, t, c0, limit);
            && (off + w <= |b| ==> Wrote(b0[..size], off, data[..w], b[..if off + w > size then off + w else size]))
            && b[..size] == if off <= size then Overwrite(b0[..size], off, data[..w])[..size] else b0[..size]
  {
    hide Copy, ChainBytes, Overwrite, Cluster, IsChain, Kept, CopiesEqual, FreeSet, Wrote;
    ProgressContents(ChainBytes(v, t, c, limit), ChainBytes(v0, t, c0, limit), off, data, w, size);
  }

  lemma CopiesStored(v: seq<Byte>, w: seq<Byte>, t: AllocationTable, limit: nat)
    requires |v| == |w| && t.Lays(limit, |v|) && 1 <= t.fatCount
    requires forall f | 0 <= f < t.fatCount :: Copy(w, t, f, limit) == Copy(v, t, f, limit)
    ensures CopiesEqual(v, t, limit) ==> CopiesEqual(w, t, limit)
  {
    hide Copy;
  }

  datatype FileRequest = Get(offset: nat, len: nat) | Put(offset: nat, data: seq<Byte>)

  /**
   A request on a file of `len` bytes that reads from inside the file, once it has a cluster, or writes within `room`
   bytes, and past the end only if there is something to write.
   */
  predicate Proper(r: FileRequest, len: nat, room: nat, started: bool) {
    match r
    case Get(offset, _) => offset <= len && started
    case Put(offset, data) => offset + |data| <= room && (data == [] ==> offset <= len)
  }

  function LengthAfter(len: nat, r: FileRequest): nat {
    if r.Put? && r.offset + |r.data| > len then r.offset + |r.data| else len
  }

  function FileAnswer(s: seq<Byte>, r: FileRequest): seq<Byte>
    requires r.offset <= |s|
  {
    if r.Put? then [] else if r.len < |s| - r.offset then s[r.offset..r.offset + r.len] else s[r.offset..]
  }

  /** What a request does to a byte string. The bytes between the end and a write past it are not defined. */
  ghost predicate FileActs(s: seq<Byte>, r: FileRequest, answer: seq<Byte>, s': seq<Byte>) {
    match r
    case Get(offset, _) => offset <= |s| && answer == FileAnswer(s, r) && s' == s
    case Put(offset, data) =>
      answer == [] && if offset <= |s| then s' == Overwrite(s, offset, data) else Wrote(s, offset, data, s')
  }

  /** The answers are those of a byte string that is `s` at first and `s'` in the end. */
  ghost predicate FileBehaves(s: seq<Byte>, rs: seq<FileRequest>, answers: seq<seq<Byte>>, s': seq<Byte>)
    decreases |rs|
  {
    |answers| == |rs| &&
    if rs == [] then s' == s
    else exists m :: FileActs(s, rs[0], answers[0], m) && FileBehaves(m, rs[1..], answers[1..], s')
  }

  /** A write gives the file a cluster, if there is any room at all. */
  predicate Started(r: FileRequest, room: nat, started: bool) {
    started || (r.Put? && room > 0)
  }

  predicate AllProper(len: nat, rs: seq<FileRequest>, room: nat, started: bool)
    decreases |rs|
  {
    rs != [] ==>
      && Proper(rs[0], len, room, started)
      && AllProper(LengthAfter(len, rs[0]), rs[1..], room, Started(rs[0], room, started))
  }

  /** A read through an open handle. */
  method ServeGet(f: File, offset: nat, len: nat, t: AllocationTable, disk: DiskAccess, ghost limit: nat,
                  ghost c: seq<nat>, ghost home: nat)
    returns (answer: seq<Byte>)
    requires disk.Valid() && f.Backed(disk.View, t, limit, c, home) && InVolume(c, limit)
    requires offset <= f.entry.byteSize && c != []
    modifies f`clusterCache, disk, disk.buf, disk.hashTable
    ensures disk.Valid() && disk.View == old(disk.View) && f.Backed(disk.View, t, limit, c, home)
    ensures answer == FileAnswer(f.Contents(disk.View, t, limit, c), Get(offset, len))
  {
    hide Copy, AllocationTable.Lays, IsChain, DiskAccess.Valid, ChainBytes, EntryPlace, Splice,
         AllocationTable.BytesPerCluster;
    var buffer := new Byte[len];
    ghost var blank := buffer[..];
    FirstIsCluster(disk.View, t, limit, c);
    var n := f.Read(buffer, offset, t, disk, limit, c, home);
    ghost var s := f.Contents(disk.View, t, limit, c);
    SpliceSlice(blank, 0, s[offset..offset + n], 0, n);
    answer := buffer[..n];
    assert answer == buffer[..][0..n];
  }

  /** One request through an open handle. */
  method ServeFile(f: File, r: FileRequest, t: AllocationTable, disk: DiskAccess, ghost limit: nat, ghost c: seq<nat>,
                   ghost home: nat)
    returns (answer: seq<Byte>, ghost c': seq<nat>)
    requires disk.Valid() && f.Backed(disk.View, t, limit, c, home) && InVolume(c, limit)
    requires Proper(r, f.entry.byteSize, Capacity(disk.View, t, limit, c), c != [])
    requires Capacity(disk.View, t, limit, c) < 0x1_0000_0000
    requires c == [] ==> limit == CLUSTER_CAP || Capacity(disk.View, t, limit, c) > 0
    modifies f, disk, disk.buf, disk.hashTable
    ensures disk.Valid() && f.Backed(disk.View, t, limit, c', home) && InVolume(c', limit)
    ensures Capacity(disk.View, t, limit, c') == Capacity(old(disk.View), t, limit, c)
    ensures c' != [] <==> Started(r, Capacity(disk.View, t, limit, c'), c != [])
    ensures f.entry.byteSize == LengthAfter(old(f.entry.byteSize), r)
    ensures FileActs(old(f.Contents(disk.View, t, limit, c)), r, answer, f.Contents(disk.View, t, limit, c'))
    ensures OnlyThisFile(old(disk.View), disk.View, t, limit, c, c', f.entryOffset)
    ensures c != [] && old(f.InSync(disk.View)) ==> f.InSync(disk.View)
    ensures old(f.NewInSync(disk.View, c)) ==> f.NewInSync(disk.View, c')
  {
    hide Copy, AllocationTable.Lays, IsChain, DiskAccess.Valid, ChainBytes, EntryPlace, Splice,
         AllocationTable.BytesPerCluster, FreeSet, FileKept, CopiesEqual, LiesAt, GrowsOneChain, Wrote, Overwrite;
    match r
    case Get(offset, len) =>
      answer := ServeGet(f, offset, len, t, disk, limit, c, home);
      c' := c;
      SameFile(disk.View, t, limit, c, f.entryOffset, home);
    case Put(offset, data) =>
      var n;
      CapacityIsFree(disk.View, t, limit, c);
      n, c' := f.Write(data, offset, t, disk, limit, c, home);
      ghost var s, s' := old(f.Contents(disk.View, t, limit, c)), f.Contents(disk.View, t, limit, c');
      WroteLength(s, offset, data, s');
      if offset <= |s| {
        WroteIsOverwrite(s, offset, data, s');
      }
      OverwriteNothing();
      ghost var e, e' := old(f.entry), f.entry;
      if e'.byteSize <= e.byteSize {
        EntryPlaceBounds(disk.View, t, limit, c', f.entryOffset, home);
        SameBytesSameEntry(old(disk.View), disk.View, f.entryOffset, e, e');
      }
      answer := [];
  }

  lemma WroteLength(s: seq<Byte>, off: nat, data: seq<Byte>, r: seq<Byte>)
    ensures Wrote(s, off, data, r) ==> |r| == if off + |data| > |s| then off + |data| else |s|
  {
  }

  lemma OverwriteNothing()
    ensures Overwrite([], 0, []) == []
  {
  }

  /** The only room of a file without clusters is free clusters. */
  lemma CapacityIsFree(v: seq<Byte>, t: AllocationTable, limit: nat, c: seq<nat>)
    requires t.Lays(limit, |v|) && 1 <= t.fatCount
    ensures c != [] || FreeSet(Copy(v, t, 0, limit)) != {} <==> Capacity(v, t, limit, c) > 0
  {
    LayoutFacts(t, limit, |v|);
    var n, b := |c| + |FreeSet(Copy(v, t, 0, limit))|, t.BytesPerCluster();
    assert b > 0;
    hide Copy, FreeSet, AllocationTable.BytesPerCluster, AllocationTable.Lays;
    if n > 0 {
      MulLe(1, n, b);
    }
  }

  lemma FirstIsCluster(v: seq<Byte>, t: AllocationTable, limit: nat, c: seq<nat>)
    requires t.Lays(limit, |v|) && 1 <= t.fatCount && c != [] && IsChain(Copy(v, t, 0, limit), c)
    ensures c[0] >= 2
  {
  }

  /**
   Every run of reads and writes through one handle, down to the sector cache, is the run on a byte string. The file
   may be new. Its chain grows by free clusters only, every other file keeps its chain and its bytes, the copies of
   the table stay equal, and the directory entry on the disk keeps up with the handle (for a new file: from the first
   byte on).
   */
  method FileSession(f: File, rs: seq<FileRequest>, t: AllocationTable, disk: DiskAccess, ghost limit: nat,
                     ghost c: seq<nat>, ghost home: nat)
    returns (answers: seq<seq<Byte>>, ghost c': seq<nat>)
    requires disk.Valid() && f.Backed(disk.View, t, limit, c, home) && InVolume(c, limit)
    requires c == [] ==> limit == CLUSTER_CAP || Capacity(disk.View, t, limit, c) > 0
    requires var room := Capacity(disk.View, t, limit, c);
             room < 0x1_0000_0000 && AllProper(f.entry.byteSize, rs, room, c != [])
    modifies f, disk, disk.buf, disk.hashTable
    ensures disk.Valid() && f.Backed(disk.View, t, limit, c', home) && InVolume(c', limit)
    ensures FileBehaves(old(f.Contents(disk.View, t, limit, c)), rs, answers, f.Contents(disk.View, t, limit, c'))
    ensures OnlyThisFile(old(disk.View), disk.View, t, limit, c, c', f.entryOffset)
    ensures OthersKept(old(disk.View), disk.View, t, limit, c, home)
    ensures c != [] && old(f.InSync(disk.View)) ==> f.InSync(disk.View)
    ensures old(f.NewInSync(disk.View, c)) ==> f.NewInSync(disk.View, c')
    decreases |rs|
  {
    hide Copy, AllocationTable.Lays, IsChain, DiskAccess.Valid, ChainBytes, EntryPlace, AllocationTable.BytesPerCluster,
         FreeSet, Overwrite, Proper, FileActs, LengthAfter, OthersKept, LiesAt, FileKept, CopiesEqual, GrowsOneChain;
    ghost var v := disk.View;
    if rs == [] {
      SameFile(v, t, limit, c, f.entryOffset, home);
      OthersAreKept(v, v, t, limit, c, c, f.entryOffset, home);
      return [], c;
    }
    var answer;
    ghost var c1;
    answer, c1 := ServeFile(f, rs[0], t, disk, limit, c, home);
    ghost var u := disk.View;
    var rest;
    rest, c' := FileSession(f, rs[1..], t, disk, limit, c1, home);
    answers := [answer] + rest;
    assert answers[1..] == rest;
    SameFileTwice(v, u, disk.View, t, limit, c, c1, c', f.entryOffset, home);
    OthersAreKept(v, disk.View, t, limit, c, c', f.entryOffset, home);
  }

  lemma EmptyHasNoChain(v: seq<Byte>, t: AllocationTable, limit: nat, c: seq<nat>)
    requires t.Lays(limit, |v|) && 1 <= t.fatCount
    ensures c != [] && c[0] == 0 ==> !IsChain(Copy(v, t, 0, limit), c)
  {
  }
}
