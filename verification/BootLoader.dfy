/**
 The bootloader's kernel loader: it follows the FAT12 chain in memory, reads each run of consecutive clusters in one go
 through a 64 KiB buffer, and appends it to the kernel's image. Sector numbers are 16-bit and wrap.
 */
module BootLoader {
  import opened Bytes
  import opened FatTable
  import opened FatChains
  import opened ClusterBytes
  import opened FatOperations

  const SECTOR_SIZE: nat := 512
  const MAX_SECTORS_PER_COPY: nat := 128
  const END_MARK: nat := 0xFF8
  /** The memory from the table's place on that the loader may look at. */
  const FAT_MEMORY: nat := 0x1900

  datatype LoadResult = Loaded | ChainTooLong

  lemma LookupInMemory(cluster: nat)
    requires cluster < END_MARK + MAX_SECTORS_PER_COPY
    ensures PairOffset(cluster) + 3 <= FAT_MEMORY
  {
  }

  function NextCluster(fat: seq<Byte>, cluster: nat): (next: nat)
    requires |fat| == FAT_MEMORY && cluster < END_MARK + MAX_SECTORS_PER_COPY
    ensures next < 0x1000
  {
    LookupInMemory(cluster);
    Fat12Next(fat, 0, cluster)
  }

  /** `count` sectors of the disk from `lba` on. */
  function ReadSectors(disk: nat -> Byte, lba: nat, count: nat): (s: seq<Byte>)
    ensures |s| == count * SECTOR_SIZE
  {
    seq(count * SECTOR_SIZE, i requires 0 <= i => disk(lba * SECTOR_SIZE + i))
  }

  /** The first sector of a cluster. */
  function FirstSector(rootDataSector: nat, sectorsPerCluster: nat, cluster: nat): nat
    requires cluster >= 2
  {
    rootDataSector + (cluster - 2) * sectorsPerCluster
  }

  /** The same in the loader's 16-bit arithmetic. */
  function LbaOf(rootDataSector: nat, sectorsPerCluster: nat, cluster: nat): nat {
    (rootDataSector + (cluster + 0xFFFE) % 0x10000 * sectorsPerCluster) % 0x10000
  }

  lemma FirstSectorAfter(root: nat, spc: nat, cluster: nat, n: nat)
    requires cluster >= 2
    ensures FirstSector(root, spc, cluster + n) == FirstSector(root, spc, cluster) + n * spc
  {
  }

  /** A chain as the loader understands it: it ends with any end mark. */
  ghost predicate BootChain(fat: seq<Byte>, c: seq<nat>)
    requires |fat| == FAT_MEMORY
  {
    && |c| >= 1
    && (forall i | 0 <= i < |c| :: 2 <= c[i] < END_MARK - 1)
    && (forall i | 0 <= i < |c| - 1 :: NextCluster(fat, c[i]) == c[i + 1])
    && NextCluster(fat, c[|c| - 1]) >= END_MARK
  }

  /** Every cluster of the chain has a 16-bit sector number. */
  ghost predicate Addressable(rootDataSector: nat, sectorsPerCluster: nat, c: seq<nat>) {
    forall i | 0 <= i < |c| :: c[i] >= 2 && FirstSector(rootDataSector, sectorsPerCluster, c[i]) < 0x10000
  }

  /** The clusters of a chain, copied one at a time. */
  ghost function Clusters(disk: nat -> Byte, rootDataSector: nat, sectorsPerCluster: nat, c: seq<nat>): seq<Byte>
    requires forall i | 0 <= i < |c| :: c[i] >= 2
  {
    if c == [] then [] else
      Clusters(disk, rootDataSector, sectorsPerCluster, c[..|c| - 1]) +
      ReadSectors(disk, FirstSector(rootDataSector, sectorsPerCluster, c[|c| - 1]), sectorsPerCluster)
  }

  ghost predicate IsRun(c: seq<nat>, k: nat, n: nat, first: nat) {
    k + n <= |c| && forall i | k <= i < k + n :: c[i] == first + (i - k)
  }

  lemma ReadMore(disk: nat -> Byte, lba: nat, m: nat, n: nat)
    ensures ReadSectors(disk, lba, m + n) == ReadSectors(disk, lba, m) + ReadSectors(disk, lba + m, n)
  {
  }

  lemma ClustersMore(disk: nat -> Byte, root: nat, spc: nat, c: seq<nat>, k: nat)
    requires (forall i | 0 <= i < |c| :: c[i] >= 2) && k < |c|
    ensures Clusters(disk, root, spc, c[..k + 1]) ==
            Clusters(disk, root, spc, c[..k]) + ReadSectors(disk, FirstSector(root, spc, c[k]), spc)
  {
    assert c[..k + 1][..k] == c[..k];
  }

  /** Reading a run in one go is reading its clusters one at a time. */
  lemma {:induction false} RunIsClusters(disk: nat -> Byte, root: nat, spc: nat, c: seq<nat>, k: nat, n: nat,
                                         first: nat)
    requires (forall i | 0 <= i < |c| :: c[i] >= 2) && IsRun(c, k, n, first) && first >= 2
    ensures Clusters(disk, root, spc, c[..k + n]) ==
            Clusters(disk, root, spc, c[..k]) + ReadSectors(disk, FirstSector(root, spc, first), n * spc)
  {
    hide ReadSectors, FirstSector, Clusters;
    var lba := FirstSector(root, spc, first);
    if n == 0 {
      assert |ReadSectors(disk, lba, 0)| == 0;
    } else {
      RunIsClusters(disk, root, spc, c, k, n - 1, first);
      ClustersMore(disk, root, spc, c, k + n - 1);
      var m := (n - 1) * spc;
      assert n * spc == m + spc by { MulStep(n - 1, spc); }
      FirstSectorAfter(root, spc, first, n - 1);
      ReadMore(disk, lba, m, spc);
      Assoc(Clusters(disk, root, spc, c[..k]), ReadSectors(disk, lba, m), ReadSectors(disk, lba + m, spc));
    }
  }

  lemma Assoc(a: seq<Byte>, b: seq<Byte>, c: seq<Byte>)
    ensures a + b + c == a + (b + c)
  {
  }

  lemma NoClusters(disk: nat -> Byte, root: nat, spc: nat)
    ensures Clusters(disk, root, spc, []) == []
  {
  }

  lemma RunFits(spc: nat)
    requires 1 <= spc <= MAX_SECTORS_PER_COPY
    ensures 1 <= MAX_SECTORS_PER_COPY / spc <= MAX_SECTORS_PER_COPY
  {
  }

  lemma CopyFits(spc: nat, n: nat)
    requires 1 <= spc <= MAX_SECTORS_PER_COPY && n <= MAX_SECTORS_PER_COPY / spc
    ensures n * spc <= MAX_SECTORS_PER_COPY
  {
    DivMod(MAX_SECTORS_PER_COPY, spc);
    MulLe(n, MAX_SECTORS_PER_COPY / spc, spc);
  }

  lemma LbaIsExact(root: nat, spc: nat, c: seq<nat>, k: nat)
    requires Addressable(root, spc, c) && k < |c| && c[k] < 0x1000
    ensures c[k] >= 2 && LbaOf(root, spc, c[k]) == FirstSector(root, spc, c[k])
  {
    assert (c[k] + 0xFFFE) % 0x10000 == c[k] - 2;
  }

  /** Where the chain goes after its first `k` clusters. */
  ghost predicate At(fat: seq<Byte>, c: seq<nat>, k: nat, current: nat)
    requires |fat| == FAT_MEMORY
  {
    k <= |c| && if k < |c| then current == c[k] else current >= END_MARK
  }

  /** The longest run from `current` on that fits one copy, and the entry after it. */
  method FindRun(fat: seq<Byte>, current: nat, maxClusters: nat, ghost c: seq<nat>, ghost k: nat)
    returns (runLen: nat, next: nat)
    requires |fat| == FAT_MEMORY && current < END_MARK && 1 <= maxClusters <= MAX_SECTORS_PER_COPY
    ensures 1 <= runLen <= maxClusters && next < 0x1000
    ensures BootChain(fat, c) && At(fat, c, k, current) ==> IsRun(c, k, runLen, current) && At(fat, c, k + runLen, next)
  {
    hide NextCluster;
    runLen := 1;
    next := NextCluster(fat, current);
    ghost var wf := BootChain(fat, c) && At(fat, c, k, current);
    if wf {
      Follow(fat, c, k, current);
    }
    while next == current + runLen && runLen < maxClusters
      invariant 1 <= runLen <= maxClusters && next < 0x1000
      invariant wf ==> IsRun(c, k, runLen, current) && At(fat, c, k + runLen, next)
    {
      if wf {
        assert c[k + runLen - 1] == current + runLen - 1;
        Follow(fat, c, k + runLen, next);
      }
      runLen := runLen + 1;
      next := NextCluster(fat, current + runLen - 1);
    }
  }

  lemma StartsAt(fat: seq<Byte>, c: seq<nat>)
    requires |fat| == FAT_MEMORY && BootChain(fat, c)
    ensures c != [] && (forall i | 0 <= i < |c| :: 2 <= c[i] < END_MARK) && At(fat, c, 0, c[0])
  {
  }

  lemma Follow(fat: seq<Byte>, c: seq<nat>, k: nat, current: nat)
    requires |fat| == FAT_MEMORY && BootChain(fat, c) && At(fat, c, k, current) && current < END_MARK
    ensures k < |c| && current == c[k] && At(fat, c, k + 1, NextCluster(fat, current))
  {
  }

  /**
   One round of the loader, on a chain: the run read from its 16-bit sector number is the next clusters of the chain.
   */
  lemma RunCopied(fat: seq<Byte>, disk: nat -> Byte, root: nat, spc: nat, c: seq<nat>, k: nat, n: nat, current: nat)
    requires |fat| == FAT_MEMORY && BootChain(fat, c) && Addressable(root, spc, c) && At(fat, c, k, current)
    requires current < END_MARK && IsRun(c, k, n, current)
    ensures Clusters(disk, root, spc, c[..k + n]) ==
            Clusters(disk, root, spc, c[..k]) + ReadSectors(disk, LbaOf(root, spc, current), n * spc)
  {
    LbaIsExact(root, spc, c, k);
    RunIsClusters(disk, root, spc, c, k, n, current);
  }

  /** The first `n` clusters of the chain have been read, and `current` is where it goes on. */
  ghost predicate ReadUpTo(fat: seq<Byte>, disk: nat -> Byte, root: nat, spc: nat, c: seq<nat>, n: nat, current: nat,
                           image: seq<Byte>) {
    && |fat| == FAT_MEMORY && BootChain(fat, c) && Addressable(root, spc, c) && At(fat, c, n, current)
    && image == Clusters(disk, root, spc, c[..n])
  }

  lemma NothingRead(fat: seq<Byte>, disk: nat -> Byte, root: nat, spc: nat, c: seq<nat>)
    requires |fat| == FAT_MEMORY && BootChain(fat, c) && Addressable(root, spc, c)
    ensures ReadUpTo(fat, disk, root, spc, c, 0, c[0], [])
  {
    NoClusters(disk, root, spc);
    assert c[..0] == [];
  }

  lemma RoundDone(fat: seq<Byte>, disk: nat -> Byte, root: nat, spc: nat, c: seq<nat>, k: nat, n: nat, current: nat,
                  next: nat, image: seq<Byte>)
    requires ReadUpTo(fat, disk, root, spc, c, k, current, image) && current < END_MARK
    requires IsRun(c, k, n, current) && At(fat, c, k + n, next)
    ensures var run := ReadSectors(disk, LbaOf(root, spc, current), n * spc);
            ReadUpTo(fat, disk, root, spc, c, k + n, next, image + run)
  {
    hide Clusters, ReadSectors, LbaOf;
    RunCopied(fat, disk, root, spc, c, k, n, current);
  }

  lemma ReadParts(fat: seq<Byte>, disk: nat -> Byte, root: nat, spc: nat, c: seq<nat>, n: nat, current: nat,
                  image: seq<Byte>)
    requires ReadUpTo(fat, disk, root, spc, c, n, current, image)
    ensures |fat| == FAT_MEMORY && At(fat, c, n, current)
  {
  }

  /** The chain is at its end exactly when all of it has been read. */
  lemma EndReached(fat: seq<Byte>, disk: nat -> Byte, root: nat, spc: nat, c: seq<nat>, n: nat, current: nat,
                   image: seq<Byte>)
    requires ReadUpTo(fat, disk, root, spc, c, n, current, image)
    ensures n <= |c| && (current >= END_MARK <==> n == |c|) && (forall i | 0 <= i < |c| :: c[i] >= 2)
    ensures image == Clusters(disk, root, spc, c[..n]) && (n == |c| ==> image == Clusters(disk, root, spc, c))
  {
    assert c[..|c|] == c;
  }

  /**
   Loads the file. On any table the ceiling bounds the number of copies. On a chain the image is the chain's clusters in
   order: all of them when it is no longer than the ceiling, and never when it is longer by the clusters of one copy;
   what is read of a chain that is too long is its front, up to the ceiling at least.
   */
  method LoadKernel(fat: seq<Byte>, disk: nat -> Byte, rootDataSector: nat, sectorsPerCluster: nat, firstCluster: nat,
                    fileSize: nat,
                    ghost c: seq<nat>)
    returns (r: LoadResult, image: seq<Byte>, ghost copies: nat)
    requires |fat| == FAT_MEMORY && 1 <= sectorsPerCluster <= MAX_SECTORS_PER_COPY
    ensures copies <= fileSize / (sectorsPerCluster * 512) + 2
    ensures var ceiling := fileSize / (sectorsPerCluster * 512) + 2;
            BootChain(fat, c) && c[0] == firstCluster && Addressable(rootDataSector, sectorsPerCluster, c) ==>
              && (|c| <= ceiling ==> r == Loaded)
              && (|c| >= ceiling + 128 / sectorsPerCluster ==> r == ChainTooLong)
              && (r == Loaded ==> image == Clusters(disk, rootDataSector, sectorsPerCluster, c))
              && (r == ChainTooLong ==>
                    exists n :: ceiling <= n < |c| &&
                                image == Clusters(disk, rootDataSector, sectorsPerCluster, c[..n]))
  {
    hide NextCluster, ReadSectors, LbaOf, Clusters, IsRun, BootChain, Addressable, At, ReadUpTo;
    RunFits(sectorsPerCluster);
    var maxClustersPerCopy := MAX_SECTORS_PER_COPY / sectorsPerCluster;
    var bytesPerCluster := sectorsPerCluster * SECTOR_SIZE;
    var maxClusters := fileSize / bytesPerCluster + 2;
    var clustersRead: nat, current: nat := 0, firstCluster;
    if BootChain(fat, c) {
      StartsAt(fat, c);
    }
    image := [];
    copies := 0;
    ghost var wf := BootChain(fat, c) && c[0] == firstCluster && Addressable(rootDataSector, sectorsPerCluster, c);
    if wf {
      NothingRead(fat, disk, rootDataSector, sectorsPerCluster, c);
    }
    while current < END_MARK
      invariant copies <= clustersRead < maxClusters + maxClustersPerCopy && copies <= maxClusters
      invariant wf ==> ReadUpTo(fat, disk, rootDataSector, sectorsPerCluster, c, clustersRead, current, image)
      decreases maxClusters - copies
    {
      ghost var before := image;
      if clustersRead >= maxClusters {
        if wf {
          EndReached(fat, disk, rootDataSector, sectorsPerCluster, c, clustersRead, current, image);
        }
        return ChainTooLong, image, copies;
      }
      if wf {
        ReadParts(fat, disk, rootDataSector, sectorsPerCluster, c, clustersRead, current, image);
      }
      var runLen, next := FindRun(fat, current, maxClustersPerCopy, c, clustersRead);
      var lba := LbaOf(rootDataSector, sectorsPerCluster, current);
      var sectorCount := runLen * sectorsPerCluster;
      assert sectorCount <= MAX_SECTORS_PER_COPY by { CopyFits(sectorsPerCluster, runLen); }
      image := image + ReadSectors(disk, lba, sectorCount);
      if wf {
        RoundDone(fat, disk, rootDataSector, sectorsPerCluster, c, clustersRead, runLen, current, next, before);
      }
      clustersRead := clustersRead + runLen;
      current := next;
      copies := copies + 1;
    }
    if wf {
      EndReached(fat, disk, rootDataSector, sectorsPerCluster, c, clustersRead, current, image);
    }
    r := Loaded;
  }

  // ---------- The same file as the FAT driver's ----------

  /** A chain of the driver's table is a chain for the loader, which has a copy of the table in memory. */
  lemma DriverChainBoots(view: seq<Byte>, start: nat, limit: nat, c: seq<nat>, fat: seq<Byte>)
    requires |fat| == FAT_MEMORY && limit <= CLUSTER_CAP
    requires start + FatBytes(limit) <= |view| && FatBytes(limit) <= |fat|
    requires fat[..FatBytes(limit)] == view[start..start + FatBytes(limit)]
    requires IsChain(Fat(view, start, limit), c)
    ensures BootChain(fat, c)
  {
    forall x: nat | 2 <= x < limit
      ensures NextCluster(fat, x) == Fat(view, start, limit)[x]
    {
      LookupInMemory(x);
      BothDecodersAgree(fat, 0, x);
      SameEntry(view, start, limit, fat, x);
    }
    hide NextCluster, Fat;
  }

  lemma SameEntry(view: seq<Byte>, start: nat, limit: nat, fat: seq<Byte>, x: nat)
    requires x < limit && start + FatBytes(limit) <= |view| && FatBytes(limit) <= |fat|
    requires fat[..FatBytes(limit)] == view[start..start + FatBytes(limit)]
    ensures PairOffset(x) + 3 <= |fat| && start + PairOffset(x) + 3 <= |view|
    ensures Entry(fat, 0, x) == Entry(view, start, x)
  {
    var at, n := PairOffset(x), FatBytes(limit);
    assert at + 3 <= n;
    SubSlice(view, start, start + n, at, 3);
    SubSlice(fat, 0, n, at, 3);
    assert fat[0..n] == fat[..n];
  }

  lemma OneCluster(view: seq<Byte>, disk: nat -> Byte, t: AllocationTable, limit: nat, root: nat, x: nat)
    requires t.Lays(limit, |view|) && 2 <= x < limit && t.firstClusterLocation == root * SECTOR_SIZE
    requires forall i | 0 <= i < |view| :: disk(i) == view[i]
    ensures ReadSectors(disk, FirstSector(root, t.sectorsPerCluster, x), t.sectorsPerCluster) ==
            Cluster(view, t, x, limit)
  {
    ClusterInBounds(t, x, limit, |view|);
    var lba, n, at := FirstSector(root, t.sectorsPerCluster, x), t.sectorsPerCluster, t.ClusterLocation(x);
    assert lba * SECTOR_SIZE == at;
    var a, b := ReadSectors(disk, lba, n), Cluster(view, t, x, limit);
    hide FirstSector;
    assert |a| == |b|;
    forall i | 0 <= i < |a|
      ensures a[i] == b[i]
    {
      assert a[i] == disk(at + i) && b[i] == view[at + i];
    }
  }

  /** The image is the driver's contents of the chain, when both agree on where the clusters start. */
  lemma {:induction false} ImageIsChainBytes(view: seq<Byte>, disk: nat -> Byte, t: AllocationTable, limit: nat,
                                             root: nat,
                                             c: seq<nat>)
    requires t.Lays(limit, |view|) && InVolume(c, limit) && t.firstClusterLocation == root * SECTOR_SIZE
    requires forall i | 0 <= i < |view| :: disk(i) == view[i]
    ensures Clusters(disk, root, t.sectorsPerCluster, c) == ChainBytes(view, t, c, limit)
  {
    if c != [] {
      var x := c[|c| - 1];
      ImageIsChainBytes(view, disk, t, limit, root, c[..|c| - 1]);
      OneCluster(view, disk, t, limit, root, x);
      hide ReadSectors, Cluster, FirstSector;
    }
  }

  /** A file's own chain is never too long: its clusters but the last hold no more than the file. */
  lemma OwnChainFits(n: nat, bytesPerCluster: nat, fileSize: nat)
    requires bytesPerCluster > 0 && n > 0 && (n - 1) * bytesPerCluster <= fileSize
    ensures n <= fileSize / bytesPerCluster + 2
  {
    DivMod(fileSize, bytesPerCluster);
    MulStep(fileSize / bytesPerCluster, bytesPerCluster);
    MulLt(n - 1, fileSize / bytesPerCluster + 1, bytesPerCluster);
  }

  /**
   The loader's memory and disk hold the driver's volume: the first table, the sectors, and where the clusters start.
   */
  ghost predicate SameVolume(view: seq<Byte>, t: AllocationTable, limit: nat, fat: seq<Byte>, disk: nat -> Byte,
                             root: nat) {
    && t.Lays(limit, |view|) && t.firstClusterLocation == root * SECTOR_SIZE
    && |fat| == FAT_MEMORY && FatBytes(limit) <= |fat|
    && t.FatStart(0) + FatBytes(limit) <= |view|
    && fat[..FatBytes(limit)] == view[t.FatStart(0)..t.FatStart(0) + FatBytes(limit)]
    && (forall i | 0 <= i < |view| :: disk(i) == view[i])
  }

  /**
   For a file's own chain the ceiling is never reached, and the image is the contents of the chain as the driver reads
   them.
   */
  method LoadFile(fat: seq<Byte>, disk: nat -> Byte, rootDataSector: nat, t: AllocationTable, firstCluster: nat,
                  fileSize: nat,
                  ghost view: seq<Byte>,
                  ghost limit: nat,
                  ghost c: seq<nat>)
    returns (r: LoadResult, image: seq<Byte>)
    requires SameVolume(view, t, limit, fat, disk, rootDataSector) && t.sectorsPerCluster <= MAX_SECTORS_PER_COPY
    requires IsChain(Copy(view, t, 0, limit), c) && c[0] == firstCluster && (|c| - 1) * t.BytesPerCluster() <= fileSize
    requires Addressable(rootDataSector, t.sectorsPerCluster, c)
    ensures InVolume(c, limit) && r == Loaded && image == ChainBytes(view, t, c, limit)
  {
    CopyInBounds(t, 0, limit, |view|);
    DriverChainBoots(view, t.FatStart(0), limit, c, fat);
    ImageIsChainBytes(view, disk, t, limit, rootDataSector, c);
    OwnChainFits(|c|, t.BytesPerCluster(), fileSize);
    hide BootChain, Addressable, Clusters, ChainBytes;
    ghost var copies;
    r, image, copies := LoadKernel(fat, disk, rootDataSector, t.sectorsPerCluster, firstCluster, fileSize, c);
  }
}
