/** Subdirectories: a cluster chain of 32-byte slots that must behave as a list of entries. */
module SubDirectory {
  import opened Bytes
  import opened Collections
  import opened DiskCache
  import opened FatTable
  import opened FatChains
  import opened FatOperations
  import opened ClusterBytes
  import opened FatGrowth
  import opened DirEntries
  import opened FatFile

  const NEVER_USED: Byte := 0x00
  const DELETED: Byte := 0xE5

  // ---- a directory as a list of slots ----

  predicate IsFree(e: DirEntry)
    requires |e.fileName| == 8
  {
    e.fileName[0] == NEVER_USED || e.fileName[0] == DELETED
  }

  ghost predicate WellFormed(d: seq<DirEntry>) {
    forall i | 0 <= i < |d| :: d[i].Valid()
  }

  /** The slots that iteration yields from slot `j` on: up to the first never-used one, deleted ones left out. */
  ghost function ListedFrom(d: seq<DirEntry>, j: nat): seq<nat>
    requires WellFormed(d) && j <= |d|
    decreases |d| - j
  {
    if j == |d| || d[j].fileName[0] == NEVER_USED then []
    else if d[j].fileName[0] == DELETED then ListedFrom(d, j + 1)
    else [j] + ListedFrom(d, j + 1)
  }

  ghost predicate IsListed(d: seq<DirEntry>, i: nat)
    requires WellFormed(d)
  {
    && i < |d| && !IsFree(d[i])
    && (forall k | 0 <= k < i :: d[k].fileName[0] != NEVER_USED)
  }

  /** Everything behind a never-used slot is never used. */
  ghost predicate CleanTail(d: seq<DirEntry>)
    requires WellFormed(d)
  {
    forall i, j | 0 <= i < j < |d| && d[i].fileName[0] == NEVER_USED :: d[j].fileName[0] == NEVER_USED
  }

  ghost predicate Ascending(s: seq<nat>) {
    forall i, j | 0 <= i < j < |s| :: s[i] < s[j]
  }

  /** The listing, said without recursion: the listed slots, each once, in order. */
  lemma {:induction false} ListedExactly(d: seq<DirEntry>, j: nat)
    requires WellFormed(d) && j <= |d| && forall k | 0 <= k < j :: d[k].fileName[0] != NEVER_USED
    ensures forall i: nat :: i in ListedFrom(d, j) <==> j <= i && IsListed(d, i)
    ensures Ascending(ListedFrom(d, j))
    decreases |d| - j
  {
    if j < |d| && d[j].fileName[0] != NEVER_USED {
      ListedExactly(d, j + 1);
      var l := ListedFrom(d, j + 1);
      assert forall i | 0 <= i < |l| :: l[i] in l;
    }
  }

  /** `d'` is the full directory `d` with the entry `e` behind it and never-used slots behind that. */
  ghost predicate Extends(d': seq<DirEntry>, d: seq<DirEntry>, e: DirEntry)
    requires WellFormed(d')
  {
    && |d'| > |d| && d'[..|d|] == d && d'[|d|] == e
    && (forall k | |d| < k < |d'| :: d'[k].fileName[0] == NEVER_USED)
  }

  function Deleted(e: DirEntry): DirEntry
    requires |e.fileName| == 8
  {
    e.(fileName := e.fileName[0 := DELETED])
  }

  // ---- the listing as a list of entries ----

  /** The entries that iteration yields from slot `j` on. */
  ghost function ListingFrom(d: seq<DirEntry>, j: nat): (l: seq<DirEntry>)
    requires WellFormed(d) && j <= |d|
    ensures WellFormed(l)
    decreases |d| - j
  {
    if j == |d| || d[j].fileName[0] == NEVER_USED then []
    else if d[j].fileName[0] == DELETED then ListingFrom(d, j + 1)
    else [d[j]] + ListingFrom(d, j + 1)
  }

  ghost function Listing(d: seq<DirEntry>): (l: seq<DirEntry>)
    requires WellFormed(d)
    ensures WellFormed(l)
  {
    ListingFrom(d, 0)
  }

  /** `m` holds the slots that `l` names. */
  ghost predicate Picks(d: seq<DirEntry>, l: seq<nat>, m: seq<DirEntry>) {
    |m| == |l| && forall i | 0 <= i < |l| :: l[i] < |d| && m[i] == d[l[i]]
  }

  /** They are the entries of the listed slots. */
  lemma {:induction false} ListingIsListed(d: seq<DirEntry>, j: nat)
    requires WellFormed(d) && j <= |d|
    ensures Picks(d, ListedFrom(d, j), ListingFrom(d, j))
    decreases |d| - j
  {
    if j < |d| && d[j].fileName[0] != NEVER_USED {
      ListingIsListed(d, j + 1);
      var l, m := ListedFrom(d, j + 1), ListingFrom(d, j + 1);
      assert Picks(d, l, m) && Picks(d, [j] + l, [d[j]] + m);
      hide Picks;
    }
  }

  lemma {:induction false} SameListing(d: seq<DirEntry>, d': seq<DirEntry>, j: nat)
    requires WellFormed(d) && WellFormed(d') && |d'| == |d| && j <= |d| && forall i | j <= i < |d| :: d'[i] == d[i]
    ensures ListingFrom(d', j) == ListingFrom(d, j)
    decreases |d| - j
  {
    if j < |d| {
      SameListing(d, d', j + 1);
    }
  }

  /** The first slot that is free for a new entry, or `|d|` when there is none. */
  ghost predicate FirstFree(d: seq<DirEntry>, j: nat)
    requires WellFormed(d)
  {
    && j <= |d| && (j < |d| ==> IsFree(d[j]))
    && (forall i | 0 <= i < j :: !IsFree(d[i]))
  }

  function Inserted(l: seq<DirEntry>, p: nat, e: DirEntry): seq<DirEntry>
    requires p <= |l|
  {
    l[..p] + [e] + l[p..]
  }

  /**
   Filling the first free slot `j` of a clean directory puts the entry behind the first `j` entries of the listing.
   */
  lemma {:induction false} FillInserts(d: seq<DirEntry>, i: nat, j: nat, e: DirEntry)
    requires WellFormed(d) && CleanTail(d) && e.Valid() && !IsFree(e)
    requires i <= j < |d| && FirstFree(d, j)
    ensures WellFormed(d[j := e]) && j - i <= |ListingFrom(d, i)|
    ensures ListingFrom(d[j := e], i) == Inserted(ListingFrom(d, i), j - i, e)
    decreases j - i
  {
    var d' := d[j := e];
    if i < j {
      FillInserts(d, i + 1, j, e);
    } else {
      SameListing(d, d', j + 1);
      if d[j].fileName[0] == NEVER_USED {
        assert j + 1 < |d| ==> d[j + 1].fileName[0] == NEVER_USED;
      }
    }
  }

  /** A full directory extended by a zeroed cluster with the entry in front lists that entry behind all the others. */
  lemma {:induction false} ExtendInserts(d: seq<DirEntry>, d': seq<DirEntry>, i: nat, e: DirEntry)
    requires WellFormed(d) && WellFormed(d') && e.Valid() && !IsFree(e) && Extends(d', d, e)
    requires i <= |d| && FirstFree(d, |d|)
    ensures |ListingFrom(d, i)| == |d| - i && ListingFrom(d', i) == Inserted(ListingFrom(d, i), |d| - i, e)
    decreases |d| - i
  {
    assert forall k | 0 <= k < |d| :: d'[k] == d'[..|d|][k];
    if i < |d| {
      ExtendInserts(d, d', i + 1, e);
    }
  }

  /** Both keep the tail clean. */
  lemma AddKeepsTail(d: seq<DirEntry>, d': seq<DirEntry>, j: nat, e: DirEntry)
    requires WellFormed(d) && WellFormed(d') && CleanTail(d) && e.Valid() && !IsFree(e) && FirstFree(d, j)
    requires if j < |d| then d' == d[j := e] else Extends(d', d, e)
    ensures CleanTail(d')
  {
    if j == |d| {
      assert forall k | 0 <= k < |d| :: d'[k] == d'[..|d|][k];
    }
  }

  /** The listing without the first entry of that name, and that entry. */
  ghost function DropFirst(l: seq<DirEntry>, fileName: seq<Byte>, ext: seq<Byte>): seq<DirEntry>
    requires WellFormed(l) && |fileName| == 8 && |ext| == 3
  {
    if l == [] then []
    else
      assert l[0].Valid();
      if MatchesName(l[0], fileName, ext) then l[1..] else [l[0]] + DropFirst(l[1..], fileName, ext)
  }

  ghost function FirstOf(l: seq<DirEntry>, fileName: seq<Byte>, ext: seq<Byte>): Option<DirEntry>
    requires WellFormed(l) && |fileName| == 8 && |ext| == 3
  {
    if l == [] then None
    else
      assert l[0].Valid();
      if MatchesName(l[0], fileName, ext) then Some(l[0]) else FirstOf(l[1..], fileName, ext)
  }

  /** Slot `j` is listed, matches the name, and no listed slot before it does. */
  ghost predicate FirstMatch(d: seq<DirEntry>, j: nat, fileName: seq<Byte>, ext: seq<Byte>)
    requires WellFormed(d) && |fileName| == 8 && |ext| == 3
  {
    && IsListed(d, j) && MatchesName(d[j], fileName, ext)
    && (forall i: nat | i < j && IsListed(d, i) :: !MatchesName(d[i], fileName, ext))
  }

  /** Marking the first match as deleted drops exactly it from the listing. */
  lemma {:induction false} DeleteDrops(d: seq<DirEntry>, i: nat, j: nat, fileName: seq<Byte>, ext: seq<Byte>)
    requires WellFormed(d) && |fileName| == 8 && |ext| == 3 && FirstMatch(d, j, fileName, ext) && i <= j
    ensures WellFormed(d[j := Deleted(d[j])])
    ensures ListingFrom(d[j := Deleted(d[j])], i) == DropFirst(ListingFrom(d, i), fileName, ext)
    ensures FirstOf(ListingFrom(d, i), fileName, ext) == Some(d[j])
    ensures CleanTail(d) ==> CleanTail(d[j := Deleted(d[j])])
    decreases j - i
  {
    hide MatchesName;
    var d' := d[j := Deleted(d[j])];
    if i < j {
      DeleteDrops(d, i + 1, j, fileName, ext);
      assert !IsFree(d[i]) ==> IsListed(d, i);
    } else {
      SameListing(d, d', j + 1);
    }
  }

  lemma {:induction false} NothingToDrop(d: seq<DirEntry>, i: nat, fileName: seq<Byte>, ext: seq<Byte>)
    requires WellFormed(d) && |fileName| == 8 && |ext| == 3 && i <= |d|
    requires forall k | 0 <= k < i :: d[k].fileName[0] != NEVER_USED
    requires forall k: nat | IsListed(d, k) :: !MatchesName(d[k], fileName, ext)
    ensures DropFirst(ListingFrom(d, i), fileName, ext) == ListingFrom(d, i)
    ensures FirstOf(ListingFrom(d, i), fileName, ext) == None
    decreases |d| - i
  {
    hide MatchesName;
    if i < |d| && d[i].fileName[0] != NEVER_USED {
      NothingToDrop(d, i + 1, fileName, ext);
      assert !IsFree(d[i]) ==> IsListed(d, i);
    }
  }

  // ---- the slots on the disk ----

  function EntriesPerCluster(t: AllocationTable): nat {
    t.BytesPerCluster() / ENTRY_SIZE
  }

  lemma SlotArithmetic(t: AllocationTable, n: nat)
    ensures t.BytesPerCluster() == EntriesPerCluster(t) * ENTRY_SIZE
    ensures n * t.BytesPerCluster() == n * EntriesPerCluster(t) * ENTRY_SIZE
    ensures n * t.BytesPerCluster() % ENTRY_SIZE == 0
    ensures n * t.BytesPerCluster() / ENTRY_SIZE == n * EntriesPerCluster(t)
  {
    var b, e := t.BytesPerCluster(), EntriesPerCluster(t);
    assert b == e * ENTRY_SIZE;
    calc {
      n * b;
      n * (e * ENTRY_SIZE);
      (n * e) * ENTRY_SIZE;
    }
  }

  /** A byte string cut into decoded slots. */
  ghost function SlotsOf(b: seq<Byte>): (d: seq<DirEntry>)
    requires |b| % ENTRY_SIZE == 0
    ensures |d| == |b| / ENTRY_SIZE && WellFormed(d)
    ensures forall j: nat | j < |d| :: d[j] == Decode(b[j * ENTRY_SIZE..j * ENTRY_SIZE + ENTRY_SIZE])
  {
    seq(|b| / ENTRY_SIZE, j requires 0 <= j < |b| / ENTRY_SIZE =>
          Decode(b[j * ENTRY_SIZE..j * ENTRY_SIZE + ENTRY_SIZE]))
  }

  lemma SlotsOfSplice(b: seq<Byte>, j: nat, e: DirEntry)
    requires |b| % ENTRY_SIZE == 0 && j < |b| / ENTRY_SIZE && e.Valid()
    ensures SlotsOf(Splice(b, j * ENTRY_SIZE, Encode(e))) == SlotsOf(b)[j := e]
  {
    hide Splice, Encode, Decode;
    var w := Splice(b, j * ENTRY_SIZE, Encode(e));
    forall k: nat | k < |b| / ENTRY_SIZE
      ensures SlotsOf(w)[k] == SlotsOf(b)[j := e][k]
    {
      SpliceSlice(b, j * ENTRY_SIZE, Encode(e), k * ENTRY_SIZE, k * ENTRY_SIZE + ENTRY_SIZE);
      if k == j {
        assert Encode(e)[0..ENTRY_SIZE] == Encode(e);
        EntryRoundTrip(e);
      }
    }
  }

  /** The slots of a directory. */
  ghost function DirSlots(view: seq<Byte>, t: AllocationTable, c: seq<nat>, limit: nat): (d: seq<DirEntry>)
    requires t.Lays(limit, |view|) && InVolume(c, limit)
    ensures |d| == |c| * EntriesPerCluster(t) && WellFormed(d)
  {
    SlotArithmetic(t, |c|);
    SlotsOf(ChainBytes(view, t, c, limit))
  }

  /** Where slot `j` of the chain lies on the disk. */
  function OffsetOf(t: AllocationTable, c: seq<nat>, j: nat): nat {
    var n := EntriesPerCluster(t);
    if n == 0 || j / n >= |c| || c[j / n] < 2 then 0 else t.ClusterLocation(c[j / n]) + j % n * ENTRY_SIZE
  }

  /** Slot `i` of cluster number `k`: its number, its place, and what is there. */
  lemma SlotPlace(v: seq<Byte>, t: AllocationTable, c: seq<nat>, limit: nat, k: nat, i: nat)
    requires t.Lays(limit, |v|) && InVolume(c, limit) && k < |c| && i < EntriesPerCluster(t)
    ensures k * EntriesPerCluster(t) + i < |c| * EntriesPerCluster(t)
    ensures OffsetOf(t, c, k * EntriesPerCluster(t) + i) == t.ClusterLocation(c[k]) + i * ENTRY_SIZE
    ensures t.ClusterLocation(c[k]) + i * ENTRY_SIZE + ENTRY_SIZE <= |v|
    ensures var at := t.ClusterLocation(c[k]) + i * ENTRY_SIZE;
            Decode(v[at..at + ENTRY_SIZE]) == DirSlots(v, t, c, limit)[k * EntriesPerCluster(t) + i]
  {
    hide Decode, AllocationTable.BytesPerCluster, AllocationTable.ClusterLocation, AllocationTable.Lays, ChainBytes;
    var e, b := EntriesPerCluster(t), t.BytesPerCluster();
    SlotArithmetic(t, k);
    SlotArithmetic(t, |c|);
    DivModOf(k, e, i);
    MulStep(k, e);
    MulLe(k + 1, |c|, e);
    ChainRead(v, t, c, limit, k, i * ENTRY_SIZE, ENTRY_SIZE);
    assert k * b + i * ENTRY_SIZE == (k * e + i) * ENTRY_SIZE;
  }

  /** Every slot is on the disk at its place, field by field. */
  lemma SlotsLie(v: seq<Byte>, t: AllocationTable, c: seq<nat>, limit: nat, j: nat)
    requires t.Lays(limit, |v|) && InVolume(c, limit) && j < |c| * EntriesPerCluster(t)
    ensures LiesAt(DirSlots(v, t, c, limit)[j], v, OffsetOf(t, c, j))
  {
    hide Decode, LiesAt, AllocationTable.Lays, OffsetOf, DirSlots, AllocationTable.ClusterLocation;
    var n := EntriesPerCluster(t);
    assert n != 0;
    hide EntriesPerCluster;
    DivMod(j, n);
    MulLt(j / n, |c|, n);
    SlotPlace(v, t, c, limit, j / n, j % n);
    DecodesExactly(v, OffsetOf(t, c, j), DirSlots(v, t, c, limit)[j]);
  }

  /** Storing an entry in slot `i` of cluster number `k` changes that slot of the directory and nothing else. */
  lemma SlotStored(v: seq<Byte>, w: seq<Byte>, t: AllocationTable, c: seq<nat>, limit: nat, k: nat, i: nat, e: DirEntry,
                   at: nat, j: nat)
    requires t.Lays(limit, |v|) && 1 <= t.fatCount && IsChain(Copy(v, t, 0, limit), c) && InVolume(c, limit)
    requires k < |c| && i < EntriesPerCluster(t) && e.Valid()
    requires j == k * EntriesPerCluster(t) + i && at == t.ClusterLocation(c[k]) + i * ENTRY_SIZE
    requires at + ENTRY_SIZE <= |v| && w == Splice(v, at, Encode(e))
    ensures j < |DirSlots(v, t, c, limit)|
    ensures forall f | 0 <= f < t.fatCount :: Copy(w, t, f, limit) == Copy(v, t, f, limit)
    ensures DirSlots(w, t, c, limit) == DirSlots(v, t, c, limit)[j := e]
    ensures Kept(v, w, t, limit, c)
  {
    hide Decode, Encode, AllocationTable.BytesPerCluster, AllocationTable.ClusterLocation, AllocationTable.Lays,
         ChainBytes, Splice, Copy, Kept, IsChain;
    var n, b := EntriesPerCluster(t), t.BytesPerCluster();
    SlotArithmetic(t, k);
    SlotArithmetic(t, |c|);
    MulStep(k, n);
    MulLe(k + 1, |c|, n);
    ChunkWritten(v, t, limit, c, k, i * ENTRY_SIZE, Encode(e));
    assert k * b + i * ENTRY_SIZE == (k * n + i) * ENTRY_SIZE;
    SlotsOfSplice(ChainBytes(v, t, c, limit), k * n + i, e);
  }

  /** A directory on the volume: a chain, all of whose clusters lie in the volume. */
  ghost predicate Directory(view: seq<Byte>, t: AllocationTable, limit: nat, c: seq<nat>) {
    && t.Lays(limit, |view|) && 1 <= t.fatCount && c != []
    && IsChain(Copy(view, t, 0, limit), c) && InVolume(c, limit)
  }

  /** No copy of the table has changed. */
  ghost predicate SameCopies(v: seq<Byte>, w: seq<Byte>, t: AllocationTable, limit: nat)
    requires |v| == |w| && t.Lays(limit, |v|)
  {
    forall f | 0 <= f < t.fatCount :: Copy(w, t, f, limit) == Copy(v, t, f, limit)
  }

  method ReadEntry(disk: DiskAccess, at: nat) returns (e: DirEntry)
    requires disk.Valid() && at + ENTRY_SIZE <= |disk.View|
    modifies disk, disk.buf, disk.hashTable
    ensures disk.Valid() && disk.View == old(disk.View)
    ensures e == Decode(disk.View[at..at + ENTRY_SIZE])
  {
    hide *;
    var buffer := new Byte[ENTRY_SIZE];
    ghost var blank := buffer[..];
    var n := disk.ReadBytes(at, buffer, 0, ENTRY_SIZE);
    SpliceWhole(blank, disk.View[at..at + ENTRY_SIZE]);
    e := Decode(buffer[..]);
  }

  /** The slot after the last of cluster number `k` is the first of the next one. */
  lemma NextRow(k: nat, e: nat, n: nat)
    requires k < n
    ensures (k + 1) * e == k * e + e <= n * e
  {
    MulStep(k, e);
    MulLe(k + 1, n, e);
  }

  /** What the walk from cluster to cluster meets: the next cluster of the chain, or its end. */
  method NextInChain(t: AllocationTable, cluster: nat, disk: DiskAccess, ghost limit: nat, ghost c: seq<nat>,
                     ghost k: nat)
    returns (next: Option<nat>)
    requires disk.Valid() && Directory(disk.View, t, limit, c) && k < |c| && cluster == c[k]
    modifies disk, disk.buf, disk.hashTable
    ensures disk.Valid() && disk.View == old(disk.View)
    ensures next == if k + 1 < |c| then Some(c[k + 1]) else None
  {
    hide Copy, AllocationTable.Lays, IsChain, DiskAccess.Valid, Entry;
    LayoutFacts(t, limit, |disk.View|);
    ChainStep(Copy(disk.View, t, 0, limit), c, k);
    FirstCopyEntry(disk.View, t, limit, cluster);
    next := GetNextCluster(t, cluster, disk);
  }

  /** The slots before `j` have been looked at: none is never used, and none that is in use matches. */
  ghost predicate Passed(d: seq<DirEntry>, j: nat, fileName: seq<Byte>, ext: seq<Byte>)
    requires WellFormed(d) && |fileName| == 8 && |ext| == 3
  {
    && j <= |d|
    && (forall i | 0 <= i < j ::
          d[i].fileName[0] != NEVER_USED && (IsFree(d[i]) || !MatchesName(d[i], fileName, ext)))
  }

  /**
   Removes the first listed entry of that name: its slot is marked deleted, nothing else changes, and the
   entry is returned. `j` is its slot.
   */
  method RemoveEntry(firstCluster: nat, fileName: seq<Byte>, ext: seq<Byte>, t: AllocationTable, disk: DiskAccess,
                     ghost limit: nat, ghost c: seq<nat>)
    returns (r: Option<DirEntry>, ghost j: nat)
    requires disk.Valid() && Directory(disk.View, t, limit, c) && c[0] == firstCluster && |fileName| == 8 && |ext| == 3
    modifies disk, disk.buf, disk.hashTable
    ensures disk.Valid() && Directory(disk.View, t, limit, c) && Kept(old(disk.View), disk.View, t, limit, c)
    ensures r.None? ==> disk.View == old(disk.View)
    ensures var d := DirSlots(old(disk.View), t, c, limit);
            && (r.None? ==> forall i: nat | IsListed(d, i) :: !MatchesName(d[i], fileName, ext))
            && (r.Some? ==> FirstMatch(d, j, fileName, ext) && r.value == d[j])
            && (r.Some? ==> DirSlots(disk.View, t, c, limit) == d[j := Deleted(d[j])])
    ensures var d, d' := DirSlots(old(disk.View), t, c, limit), DirSlots(disk.View, t, c, limit);
            && r == FirstOf(Listing(d), fileName, ext) && Listing(d') == DropFirst(Listing(d), fileName, ext)
            && (CleanTail(d) ==> CleanTail(d'))
    ensures |disk.View| == |old(disk.View)| && SameCopies(old(disk.View), disk.View, t, limit)
    ensures r.Some? ==>
              var at := OffsetOf(t, c, j);
              LiesAt(r.value, old(disk.View), at) && disk.View == old(disk.View)[at := DELETED]
  {
    hide CleanTail, ListingFrom, DropFirst, FirstOf, LiesAt;
    hide Copy, AllocationTable.Lays, IsChain, DiskAccess.Valid, Decode, Encode, DirSlots, Kept, MatchesName, Splice,
         AllocationTable.ClusterLocation,
         EntriesPerCluster;
    ghost var v := disk.View;
    ghost var d := DirSlots(v, t, c, limit);
    KeptRefl(v, t, limit, c);
    var n := EntriesPerCluster(t);
    var cluster := firstCluster;
    ghost var k := 0;
    while true
      invariant disk.Valid() && disk.View == v && 0 <= k < |c| && cluster == c[k] && 0 <= k * n
      invariant Passed(d, k * n, fileName, ext)
      decreases |c| - k
    {
      NextRow(k, n, |c|);
      var location := t.ClusterLocation(cluster);
      for i := 0 to n
        invariant disk.Valid() && disk.View == v
        invariant Passed(d, k * n + i, fileName, ext)
      {
        j := k * n + i;
        SlotPlace(v, t, c, limit, k, i);
        var offset := location + i * ENTRY_SIZE;
        var entry := ReadEntry(disk, offset);
        if entry.fileName[0] == NEVER_USED {
          NothingToDrop(d, 0, fileName, ext);
          return None, j;
        }
        if entry.fileName[0] != DELETED && MatchesName(entry, fileName, ext) {
          disk.WriteBytes(offset, Encode(Deleted(entry)));
          SlotStored(v, disk.View, t, c, limit, k, i, Deleted(entry), offset, j);
          SlotsLie(v, t, c, limit, j);
          DeletedByte(v, offset, entry);
          DeleteDrops(d, 0, j, fileName, ext);
          return Some(entry), j;
        }
      }
      var next := NextInChain(t, cluster, disk, limit, c, k);
      match next
      case Some(x) =>
        cluster := x;
        k := k + 1;
      case None =>
        NothingToDrop(d, 0, fileName, ext);
        return None, |d|;
    }
  }

  /** Marking an entry deleted changes its first byte. */
  lemma DeletedByte(v: seq<Byte>, at: nat, e: DirEntry)
    requires at + ENTRY_SIZE <= |v| && Decode(v[at..at + ENTRY_SIZE]) == e
    ensures Splice(v, at, Encode(Deleted(e))) == v[at := DELETED]
  {
    var b := v[at..at + ENTRY_SIZE];
    BytesRoundTrip(b);
    assert Encode(Deleted(e)) == b[0 := DELETED] by { hide Le16, Le32, FromLe16, FromLe32; }
    SpliceAt(v, at, b[0 := DELETED]);
  }

  lemma KeptRefl(v: seq<Byte>, t: AllocationTable, limit: nat, c: seq<nat>)
    requires t.Lays(limit, |v|) && 1 <= t.fatCount
    ensures Kept(v, v, t, limit, c)
  {
    hide Copy, Cluster, AllocationTable.Lays;
  }

  ghost predicate HasFreeSlot(d: seq<DirEntry>)
    requires WellFormed(d)
  {
    exists i :: 0 <= i < |d| && IsFree(d[i])
  }

  /** A zeroed cluster behind the chain, with the entry in its first slot. */
  method ExtendWith(entry: DirEntry, cluster: nat, t: AllocationTable, disk: DiskAccess, ghost limit: nat,
                    ghost c: seq<nat>)
    returns (r: Option<nat>, ghost c': seq<nat>)
    requires disk.Valid() && Directory(disk.View, t, limit, c) && cluster == c[|c| - 1] && entry.Valid()
    requires limit == CLUSTER_CAP || HasFree(Copy(disk.View, t, 0, limit))
    modifies disk, disk.buf, disk.hashTable
    ensures disk.Valid() && Directory(disk.View, t, limit, c') && Kept(old(disk.View), disk.View, t, limit, c')
    ensures r.None? ==> disk.View == old(disk.View) && c' == c && !HasFree(Copy(disk.View, t, 0, limit))
    ensures r.Some? ==>
              && |c'| == |c| + 1 && c <= c' && c'[|c|] in FreeSet(Copy(old(disk.View), t, 0, limit))
              && r.value == t.ClusterLocation(c'[|c|])
              && Extends(DirSlots(disk.View, t, c', limit), DirSlots(old(disk.View), t, c, limit), entry)
    ensures CopiesEqual(old(disk.View), t, limit) ==> CopiesEqual(disk.View, t, limit)
    ensures r.Some? ==> LiesAt(entry, disk.View, r.value)
  {
    hide Copy, AllocationTable.Lays, IsChain, DiskAccess.Valid, Decode, Encode, DirSlots, Kept, Splice,
         AllocationTable.ClusterLocation, LiesAt,
         AllocationTable.BytesPerCluster, ChainBytes, CopiesEqual, OnlyTable, FreeSet, Extends, Zeros;
    ghost var v := disk.View;
    LayoutFacts(t, limit, |v|);
    c' := c;
    KeptRefl(v, t, limit, c);
    r := AppendCluster(t, Some(cluster), disk, limit, c);
    if r.None? {
      return;
    }
    var newCluster := r.value;
    c' := c + [newCluster];
    ghost var u, last := disk.View, |c|;
    var location := t.ClusterLocation(newCluster);
    var b := t.BytesPerCluster();
    ghost var all := ChainBytes(u, t, c', limit);
    NextRow(last, b, |c'|);
    ZeroingStarts(u, t, limit, c', last * b);
    var off := 0;
    while off < b
      invariant 0 <= off <= b && disk.Valid() && Zeroing(u, disk.View, t, limit, c', last * b, off)
    {
      var n := if b - off < SECTOR then b - off else SECTOR;
      ZeroingStep(u, disk.View, t, limit, c', last, off, n);
      disk.WriteBytes(location + off, Zeros(n));
      off := off + n;
    }
    ghost var w := disk.View;
    BehindZeros(v, u, w, t, limit, c, newCluster);
    SlotPlaceZero(w, t, c', limit, last);
    disk.WriteBytes(location, Encode(entry));
    EncodesInPlace(w, location, entry);
    ExtensionDone(v, u, w, disk.View, t, limit, c, newCluster, entry);
    CopiesStored(u, disk.View, t, limit);
    r := Some(location);
  }

  function Zeros(n: nat): (z: seq<Byte>)
    ensures |z| == n && forall i | 0 <= i < n :: z[i] == 0
  {
    seq(n, _ => 0)
  }

  /** The last cluster of the chain `c'` is zero up to byte `off`, and that is all that has changed since `u`. */
  ghost predicate Zeroing(u: seq<Byte>, v: seq<Byte>, t: AllocationTable, limit: nat, c': seq<nat>, at: nat, off: nat) {
    && |u| == |v| && Directory(u, t, limit, c') && Directory(v, t, limit, c') && Kept(u, v, t, limit, c')
    && SameCopies(u, v, t, limit)
    && at + off <= |c'| * t.BytesPerCluster()
    && ChainBytes(v, t, c', limit) == Splice(ChainBytes(u, t, c', limit), at, Zeros(off))
  }

  lemma ZeroingStarts(u: seq<Byte>, t: AllocationTable, limit: nat, c': seq<nat>, at: nat)
    requires Directory(u, t, limit, c') && at <= |c'| * t.BytesPerCluster()
    ensures Zeroing(u, u, t, limit, c', at, 0)
  {
    hide Copy, Kept, Splice, ChainBytes, IsChain, AllocationTable.Lays, AllocationTable.BytesPerCluster;
    KeptRefl(u, t, limit, c');
    assert Zeros(0) == [];
    SpliceNothing(ChainBytes(u, t, c', limit), at);
  }

  lemma ZeroingStep(u: seq<Byte>, v: seq<Byte>, t: AllocationTable, limit: nat, c': seq<nat>, last: nat, off: nat,
                    n: nat)
    requires last < |c'| && Zeroing(u, v, t, limit, c', last * t.BytesPerCluster(), off)
    requires off + n <= t.BytesPerCluster()
    ensures 2 <= c'[last] && t.ClusterLocation(c'[last]) + off + n <= |v|
    ensures Zeroing(u, Splice(v, t.ClusterLocation(c'[last]) + off, Zeros(n)), t, limit, c',
                    last * t.BytesPerCluster(), off + n)
  {
    hide Copy, Kept, Splice, ChainBytes, IsChain, AllocationTable.Lays, AllocationTable.ClusterLocation,
         AllocationTable.BytesPerCluster;
    var b := t.BytesPerCluster();
    ChunkWritten(v, t, limit, c', last, off, Zeros(n));
    var w := Splice(v, t.ClusterLocation(c'[last]) + off, Zeros(n));
    KeptTrans(u, v, w, t, limit, c', c');
    SpliceAdjacent(ChainBytes(u, t, c', limit), last * b, Zeros(off), Zeros(n));
    assert Zeros(off) + Zeros(n) == Zeros(off + n);
  }

  /** The whole new cluster is zero: the directory is the old one followed by never-used slots. */
  lemma BehindZeros(v: seq<Byte>, u: seq<Byte>, w: seq<Byte>, t: AllocationTable, limit: nat, c: seq<nat>, new': nat)
    requires |u| == |v| && Directory(v, t, limit, c) && 2 <= new' < limit
    requires Zeroing(u, w, t, limit, c + [new'], |c| * t.BytesPerCluster(), t.BytesPerCluster())
    requires ChainBytes(u, t, c, limit) == ChainBytes(v, t, c, limit)
    ensures var d, d' := DirSlots(v, t, c, limit), DirSlots(w, t, c + [new'], limit);
            && |d| < |d'| && d'[..|d|] == d && (forall j | |d| <= j < |d'| :: d'[j].fileName[0] == NEVER_USED)
  {
    hide Copy, Kept, Splice, Cluster, IsChain, AllocationTable.BytesPerCluster;
    var c' := c + [new'];
    var b, n := t.BytesPerCluster(), EntriesPerCluster(t);
    assert c'[..|c'| - 1] == c;
    var old', tail := ChainBytes(v, t, c, limit), Cluster(u, t, new', limit);
    assert ChainBytes(u, t, c', limit) == old' + tail;
    SpliceRight(old', tail, 0, Zeros(b));
    SpliceWhole(tail, Zeros(b));
    assert ChainBytes(w, t, c', limit) == old' + Zeros(b);
    SlotArithmetic(t, |c|);
    SlotArithmetic(t, |c'|);
    MulStep(|c|, n);
    SlotsBehind(old', Zeros(b));
    EntriesPositive(t);
  }

  lemma EntriesPositive(t: AllocationTable)
    requires 1 <= t.sectorsPerCluster
    ensures 16 <= EntriesPerCluster(t)
  {
  }

  lemma SlotsBehind(a: seq<Byte>, z: seq<Byte>)
    requires |a| % ENTRY_SIZE == 0 && |z| % ENTRY_SIZE == 0 && forall i | 0 <= i < |z| :: z[i] == 0
    ensures |a + z| % ENTRY_SIZE == 0 && |a + z| / ENTRY_SIZE == |a| / ENTRY_SIZE + |z| / ENTRY_SIZE
    ensures SlotsOf(a + z)[..|a| / ENTRY_SIZE] == SlotsOf(a)
    ensures forall j | |a| / ENTRY_SIZE <= j < |a + z| / ENTRY_SIZE :: SlotsOf(a + z)[j].fileName[0] == NEVER_USED
  {
    var s := a + z;
    forall j: nat | j < |a| / ENTRY_SIZE
      ensures SlotsOf(s)[j] == SlotsOf(a)[j]
    {
      hide Decode;
      assert s[j * ENTRY_SIZE..j * ENTRY_SIZE + ENTRY_SIZE] == a[j * ENTRY_SIZE..j * ENTRY_SIZE + ENTRY_SIZE];
    }
    forall j: nat | |a| / ENTRY_SIZE <= j < |s| / ENTRY_SIZE
      ensures SlotsOf(s)[j].fileName[0] == NEVER_USED
    {
      assert s[j * ENTRY_SIZE..j * ENTRY_SIZE + ENTRY_SIZE][0] == s[j * ENTRY_SIZE] == 0;
    }
  }

  lemma SlotPlaceZero(w: seq<Byte>, t: AllocationTable, c': seq<nat>, limit: nat, last: nat)
    requires Directory(w, t, limit, c') && last < |c'|
    ensures 2 <= c'[last] && t.ClusterLocation(c'[last]) + ENTRY_SIZE <= |w|
  {
    hide Copy, IsChain;
    EntriesPositive(t);
    SlotPlace(w, t, c', limit, last, 0);
  }

  lemma ExtensionDone(v: seq<Byte>, u: seq<Byte>, w: seq<Byte>, x: seq<Byte>, t: AllocationTable, limit: nat,
                      c: seq<nat>,
                      new': nat, e: DirEntry)
    requires |u| == |v| && Directory(v, t, limit, c) && 2 <= new' < limit
    requires e.Valid() && Kept(v, u, t, limit, c + [new'])
    requires Zeroing(u, w, t, limit, c + [new'], |c| * t.BytesPerCluster(), t.BytesPerCluster())
    requires var d, d' := DirSlots(v, t, c, limit), DirSlots(w, t, c + [new'], limit);
             && |d| < |d'| && d'[..|d|] == d && (forall j | |d| <= j < |d'| :: d'[j].fileName[0] == NEVER_USED)
    requires t.ClusterLocation(new') + ENTRY_SIZE <= |w| && x == Splice(w, t.ClusterLocation(new'), Encode(e))
    ensures Directory(x, t, limit, c + [new']) && Kept(v, x, t, limit, c + [new']) && SameCopies(u, x, t, limit)
    ensures Extends(DirSlots(x, t, c + [new'], limit), DirSlots(v, t, c, limit), e)
  {
    hide Copy, Kept, Splice, ChainBytes, Encode, IsChain, DirSlots, EntriesPerCluster, AllocationTable.ClusterLocation,
         AllocationTable.BytesPerCluster;
    var c' := c + [new'];
    EntriesPositive(t);
    SlotStored(w, x, t, c', limit, |c|, 0, e, t.ClusterLocation(new'), |c| * EntriesPerCluster(t));
    KeptTrans(v, u, w, t, limit, c', c');
    KeptTrans(v, w, x, t, limit, c', c');
  }

  /**
   Adds an entry: in the first free slot, or, when the directory is full, in front of a zeroed cluster put
   behind the chain. `j` is its slot and `c'` the chain afterwards.
   */
  method WriteEntry(firstCluster: nat, entry: DirEntry, t: AllocationTable, disk: DiskAccess, ghost limit: nat,
                    ghost c: seq<nat>)
    returns (r: Option<nat>, ghost j: nat, ghost c': seq<nat>)
    requires disk.Valid() && Directory(disk.View, t, limit, c) && c[0] == firstCluster && entry.Valid()
    requires || limit == CLUSTER_CAP || HasFree(Copy(disk.View, t, 0, limit))
             || HasFreeSlot(DirSlots(disk.View, t, c, limit))
    modifies disk, disk.buf, disk.hashTable
    ensures disk.Valid() && Directory(disk.View, t, limit, c') && Kept(old(disk.View), disk.View, t, limit, c')
    ensures FirstFree(DirSlots(old(disk.View), t, c, limit), j)
    ensures var d, d' := DirSlots(old(disk.View), t, c, limit), DirSlots(disk.View, t, c', limit);
            if j < |d| then
              && c' == c && r == Some(OffsetOf(t, c, j)) && d' == d[j := entry]
            else if r.Some? then
              && |c'| == |c| + 1 && c <= c' && c'[|c|] in FreeSet(Copy(old(disk.View), t, 0, limit))
              && r.value == t.ClusterLocation(c'[|c|]) && Extends(d', d, entry)
            else
              && c' == c && disk.View == old(disk.View) && !HasFree(Copy(disk.View, t, 0, limit))
    ensures var d, d' := DirSlots(old(disk.View), t, c, limit), DirSlots(disk.View, t, c', limit);
            CleanTail(d) && !IsFree(entry) ==>
              && CleanTail(d') && j <= |Listing(d)|
              && Listing(d') == if r.Some? then Inserted(Listing(d), j, entry) else Listing(d)
    ensures OnlyThisDirectory(old(disk.View), disk.View, t, limit, c, c')
    ensures FreeSet(Copy(disk.View, t, 0, limit)) == FreeSet(Copy(old(disk.View), t, 0, limit)) - Elements(c'[|c|..])
    ensures r.Some? ==> LiesAt(entry, disk.View, r.value)
  {
    hide CleanTail, ListingFrom, Inserted, GrowsOneChain, Elements, CopiesEqual, LiesAt;
    hide Copy, AllocationTable.Lays, IsChain, DiskAccess.Valid, Decode, Encode, DirSlots, Kept, Splice,
         AllocationTable.ClusterLocation, EntriesPerCluster, OffsetOf, Extends, FreeSet, HasFree;
    ghost var v := disk.View;
    ghost var d := DirSlots(v, t, c, limit);
    var n := EntriesPerCluster(t);
    var cluster := firstCluster;
    ghost var k := 0;
    while true
      invariant disk.Valid() && disk.View == v && 0 <= k < |c| && cluster == c[k] && 0 <= k * n <= |d|
      invariant forall i | 0 <= i < k * n :: !IsFree(d[i])
      decreases |c| - k
    {
      NextRow(k, n, |c|);
      var location := t.ClusterLocation(cluster);
      for i := 0 to n
        invariant disk.Valid() && disk.View == v
        invariant forall x | 0 <= x < k * n + i :: !IsFree(d[x])
      {
        j := k * n + i;
        SlotPlace(v, t, c, limit, k, i);
        var offset := location + i * ENTRY_SIZE;
        var slot := ReadEntry(disk, offset);
        if slot.fileName[0] == NEVER_USED || slot.fileName[0] == DELETED {
          disk.WriteBytes(offset, Encode(entry));
          SlotStored(v, disk.View, t, c, limit, k, i, entry, offset, j);
          EncodesInPlace(v, offset, entry);
          EntryAdded(d, DirSlots(disk.View, t, c, limit), j, entry);
          CopiesStored(v, disk.View, t, limit);
          DirectoryGrown(v, disk.View, t, limit, c, c);
          return Some(offset), j, c;
        }
      }
      var next := NextInChain(t, cluster, disk, limit, c, k);
      match next
      case Some(x) =>
        cluster := x;
        k := k + 1;
      case None =>
        break;
    }
    j := |d|;
    r, c' := ExtendWith(entry, cluster, t, disk, limit, c);
    if r.Some? {
      EntryAdded(d, DirSlots(disk.View, t, c', limit), j, entry);
    } else {
      FullListing(d, 0);
    }
    DirectoryGrown(v, disk.View, t, limit, c, c');
  }

  /** What holds of each of two changes to one directory holds of both together. */
  lemma SameDirectoryTwice(u: seq<Byte>, v: seq<Byte>, w: seq<Byte>, t: AllocationTable, limit: nat,
                           c: seq<nat>, c1: seq<nat>, c2: seq<nat>)
    requires OnlyThisDirectory(u, v, t, limit, c, c1) && OnlyThisDirectory(v, w, t, limit, c1, c2)
    requires Directory(v, t, limit, c1)
    ensures OnlyThisDirectory(u, w, t, limit, c, c2)
  {
    hide Copy, Kept, IsChain, GrowsOneChain, CopiesEqual, AllocationTable.Lays;
    KeptTrans(u, v, w, t, limit, c1, c2);
    GrowsTwice(Copy(u, t, 0, limit), Copy(v, t, 0, limit), Copy(w, t, 0, limit), c, c1, c2);
    forall i | |c| <= i < |c2|
      ensures c2[i] in FreeSet(Copy(u, t, 0, limit))
    {
      if i < |c1| {
        assert c2[i] == c1[i];
      } else {
        FreeIsOnNoChain(Copy(v, t, 0, limit), c1, c2[i]);
        FreeBefore(u, v, t, limit, c1, c2[i]);
      }
    }
  }

  /** Every file whose chain is disjoint from the directory's keeps its chain and its bytes. */
  lemma OtherFilesKept(v: seq<Byte>, w: seq<Byte>, t: AllocationTable, limit: nat, c: seq<nat>, c': seq<nat>)
    requires OnlyThisDirectory(v, w, t, limit, c, c')
    ensures OthersKept(v, w, t, limit, c, 0)
  {
    hide Copy, Cluster, IsChain, GrowsOneChain, CopiesEqual, FreeSet, AllocationTable.Lays, ChainBytes, SameMeta,
         Disjoint;
    forall d | InVolume(d, limit) && IsChain(Copy(v, t, 0, limit), d) && Disjoint(d, c) && 0 !in d
      ensures IsChain(Copy(w, t, 0, limit), d) && ChainBytes(w, t, d, limit) == ChainBytes(v, t, d, limit)
    {
      forall x | x in d
        ensures x !in c' && 2 <= x < limit
      {
        UsedClusterKept(Copy(v, t, 0, limit), c, c', d, x);
      }
      ChainKept(Copy(v, t, 0, limit), Copy(w, t, 0, limit), d);
      SameClusters(w, v, t, d, limit);
    }
  }

  lemma EntryAdded(d: seq<DirEntry>, d': seq<DirEntry>, j: nat, e: DirEntry)
    requires WellFormed(d) && WellFormed(d') && FirstFree(d, j) && e.Valid()
    requires if j < |d| then d' == d[j := e] else Extends(d', d, e)
    ensures CleanTail(d) && !IsFree(e) ==> CleanTail(d') && j <= |Listing(d)|
    ensures CleanTail(d) && !IsFree(e) ==> Listing(d') == Inserted(Listing(d), j, e)
  {
    if CleanTail(d) && !IsFree(e) {
      AddKeepsTail(d, d', j, e);
      if j < |d| {
        FillInserts(d, 0, j, e);
      } else {
        ExtendInserts(d, d', 0, e);
      }
    }
  }

  lemma {:induction false} FullListing(d: seq<DirEntry>, i: nat)
    requires WellFormed(d) && i <= |d| && FirstFree(d, |d|)
    ensures |ListingFrom(d, i)| == |d| - i
    decreases |d| - i
  {
    if i < |d| {
      FullListing(d, i + 1);
    }
  }

  /**
   From `v` to `w` one directory has changed: its chain has grown from `c` to `c'` by clusters that were free, every
   other chain of the table is as it was, and so are all bytes off the chain.
   */
  ghost predicate OnlyThisDirectory(v: seq<Byte>, w: seq<Byte>, t: AllocationTable, limit: nat, c: seq<nat>,
                                    c': seq<nat>) {
    && |v| == |w| && t.Lays(limit, |v|) && 1 <= t.fatCount && c <= c'
    && (forall i | |c| <= i < |c'| :: c'[i] in FreeSet(Copy(v, t, 0, limit)))
    && Kept(v, w, t, limit, c')
    && (CopiesEqual(v, t, limit) ==> CopiesEqual(w, t, limit))
    && GrowsOneChain(Copy(v, t, 0, limit), Copy(w, t, 0, limit), c, c')
  }

  lemma DirectoryGrown(v: seq<Byte>, w: seq<Byte>, t: AllocationTable, limit: nat, c: seq<nat>, c': seq<nat>)
    requires Directory(v, t, limit, c) && Directory(w, t, limit, c') && Kept(v, w, t, limit, c') && c <= c'
    requires forall i | |c| <= i < |c'| :: c'[i] in FreeSet(Copy(v, t, 0, limit))
    requires CopiesEqual(v, t, limit) ==> CopiesEqual(w, t, limit)
    ensures OnlyThisDirectory(v, w, t, limit, c, c')
    ensures FreeSet(Copy(w, t, 0, limit)) == FreeSet(Copy(v, t, 0, limit)) - Elements(c'[|c|..])
  {
    var fat, fat' := Copy(v, t, 0, limit), Copy(w, t, 0, limit);
    hide Copy, Cluster, GrowsOneChain, SameMeta, AllocationTable.Lays, CopiesEqual;
    GrowthIsLocal(fat, fat', c, c');
    forall x
      ensures x in FreeSet(fat') <==> x in FreeSet(fat) && x !in Elements(c'[|c|..])
    {
      if x in FreeSet(fat') {
        FreeIsOnNoChain(fat', c', x);
      }
      if x in FreeSet(fat) {
        FreeIsOnNoChain(fat, c, x);
        assert x in c' ==> x in c || x in c'[|c|..] by { assert c' == c + c'[|c|..]; }
      }
      assert x in c'[|c|..] ==> x in c' by { assert c' == c + c'[|c|..]; }
    }
  }

  /** The iterator over a subdirectory, which reads one slot ahead. */
  class SubdirIter {
    const disk: DiskAccess
    const table: AllocationTable
    var currentCluster: nat
    var currentIndexInCluster: nat
    const entriesPerCluster: nat
    var current: DirEntry
    ghost const chain: seq<nat>
    ghost const limit: nat
    /** The slot `current` was read from, or the number of slots when the iteration is over. */
    ghost var slot: nat
    /** Where `currentCluster` stands in the chain. */
    ghost var row: nat

    ghost predicate Valid()
      reads this, disk, disk.buf, disk.hashTable
    {
      && disk.Valid() && Directory(disk.View, table, limit, chain) && entriesPerCluster == EntriesPerCluster(table)
      && |current.fileName| == 8 && slot <= |Slots()|
      && (slot < |Slots()| ==>
            && row < |chain| && currentCluster == chain[row] && currentIndexInCluster < entriesPerCluster
            && slot == row * entriesPerCluster + currentIndexInCluster && current == Slots()[slot])
      && (slot == |Slots()| ==> current.fileName[0] == NEVER_USED)
    }

    ghost function Slots(): (d: seq<DirEntry>)
      requires Directory(disk.View, table, limit, chain)
      reads this, disk
      ensures WellFormed(d)
    {
      DirSlots(disk.View, table, chain, limit)
    }

    constructor (firstCluster: nat, t: AllocationTable, d: DiskAccess, ghost lim: nat, ghost c: seq<nat>)
      requires d.Valid() && Directory(d.View, t, lim, c) && c[0] == firstCluster
      modifies d, d.buf, d.hashTable
      ensures Valid() && slot == 0 && disk == d && table == t && chain == c && limit == lim && d.View == old(d.View)
    {
      hide Copy, AllocationTable.Lays, IsChain, DiskAccess.Valid, Decode, DirSlots, AllocationTable.ClusterLocation,
           EntriesPerCluster, OffsetOf;
      assert 1 <= t.sectorsPerCluster by { LayoutFacts(t, lim, |d.View|); }
      EntriesPositive(t);
      SlotPlace(d.View, t, c, lim, 0, 0);
      NextRow(0, EntriesPerCluster(t), |c|);
      var first := ReadEntry(d, t.ClusterLocation(firstCluster));
      disk := d;
      table := t;
      currentCluster := firstCluster;
      currentIndexInCluster := 0;
      entriesPerCluster := EntriesPerCluster(t);
      current := first;
      chain := c;
      limit := lim;
      slot := 0;
      row := 0;
    }

    /** Moves on by one slot, reading the next one ahead, or ends the iteration behind the last cluster. */
    method Advance()
      requires Valid() && slot < |Slots()| && current.fileName[0] != NEVER_USED
      modifies this, disk, disk.buf, disk.hashTable
      ensures Valid() && slot == old(slot) + 1 && disk.View == old(disk.View)
    {
      hide Copy, AllocationTable.Lays, IsChain, DiskAccess.Valid, Decode, DirSlots, AllocationTable.ClusterLocation,
           EntriesPerCluster, OffsetOf;
      NextRow(row, entriesPerCluster, |chain|);
      currentIndexInCluster := currentIndexInCluster + 1;
      if currentIndexInCluster >= entriesPerCluster {
        var next := NextInChain(table, currentCluster, disk, limit, chain, row);
        match next
        case Some(x) =>
          currentCluster := x;
          currentIndexInCluster := 0;
          row := row + 1;
        case None =>
          current := current.(fileName := current.fileName[0 := NEVER_USED]);
      }
      slot := slot + 1;
      if current.fileName[0] != NEVER_USED {
        SlotPlace(disk.View, table, chain, limit, row, currentIndexInCluster);
        current := ReadEntry(disk, table.ClusterLocation(currentCluster) + currentIndexInCluster * ENTRY_SIZE);
      }
    }

    /** The next entry with its place on the disk: the first slot of what is still to be listed. */
    method NextEntry() returns (r: Option<(DirEntry, nat)>)
      requires Valid()
      modifies this, disk, disk.buf, disk.hashTable
      ensures Valid() && disk.View == old(disk.View)
      ensures r.None? ==> ListedFrom(old(Slots()), old(slot)) == []
      ensures r.Some? ==>
                && old(slot) < slot <= |Slots()| && ListedFrom(old(Slots()), old(slot)) != []
                && var l := ListedFrom(old(Slots()), old(slot));
                && l[1..] == ListedFrom(Slots(), slot)
                && l[0] < |Slots()| && r.value == (Slots()[l[0]], OffsetOf(table, chain, l[0]))
    {
      hide Copy, AllocationTable.Lays, IsChain, DiskAccess.Valid, Decode, DirSlots, AllocationTable.ClusterLocation,
           EntriesPerCluster, OffsetOf;
      ghost var d := Slots();
      ghost var from := slot;
      while true
        invariant Valid() && disk.View == old(disk.View) && from <= slot
        invariant ListedFrom(d, from) == ListedFrom(d, slot)
        decreases |d| - slot
      {
        if current.fileName[0] == NEVER_USED {
          return None;
        }
        SlotPlace(disk.View, table, chain, limit, row, currentIndexInCluster);
        var entry := current;
        var offset := table.ClusterLocation(currentCluster) + currentIndexInCluster * ENTRY_SIZE;
        Advance();
        if entry.fileName[0] == DELETED {
          continue;
        }
        return Some((entry, offset));
      }
    }
  }

  /** Iterating to the end yields exactly the listed slots, in chain order, each with its place on the disk. */
  method ListAll(firstCluster: nat, t: AllocationTable, disk: DiskAccess, ghost limit: nat, ghost c: seq<nat>)
    returns (all: seq<(DirEntry, nat)>)
    requires disk.Valid() && Directory(disk.View, t, limit, c) && c[0] == firstCluster
    modifies disk, disk.buf, disk.hashTable
    ensures disk.Valid() && disk.View == old(disk.View)
    ensures var d := DirSlots(disk.View, t, c, limit);
            var l := ListedFrom(d, 0);
            && |all| == |l|
            && forall i | 0 <= i < |l| :: l[i] < |d| && all[i] == (d[l[i]], OffsetOf(t, c, l[i]))
    ensures forall i | 0 <= i < |all| :: LiesAt(all[i].0, disk.View, all[i].1)
  {
    hide Copy, AllocationTable.Lays, IsChain, DiskAccess.Valid, Decode, DirSlots, AllocationTable.ClusterLocation,
         EntriesPerCluster, OffsetOf, ListedFrom, LiesAt;
    ghost var d := DirSlots(disk.View, t, c, limit);
    ghost var l := ListedFrom(d, 0);
    var iter := new SubdirIter(firstCluster, t, disk, limit, c);
    all := [];
    while true
      invariant iter.Valid() && disk.View == old(disk.View)
      invariant iter.disk == disk && iter.table == t && iter.chain == c && iter.limit == limit
      invariant |all| <= |l| && l[|all|..] == ListedFrom(d, iter.slot)
      invariant forall i | 0 <= i < |all| :: l[i] < |d| && all[i] == (d[l[i]], OffsetOf(t, c, l[i]))
      decreases |d| - iter.slot
    {
      ghost var n := |all|;
      var next := iter.NextEntry();
      if next.None? {
        break;
      }
      assert l[n..][0] == l[n] && l[n..][1..] == l[n + 1..];
      all := all + [next.value];
    }
    forall i | 0 <= i < |all|
      ensures LiesAt(all[i].0, disk.View, all[i].1)
    {
      SlotsLie(disk.View, t, c, limit, l[i]);
    }
  }

  // ---- runs ----

  datatype DirRequest = Add(entry: DirEntry) | Drop(fileName: seq<Byte>, ext: seq<Byte>) | List
  datatype DirAnswer = Added(ok: bool) | Dropped(entry: Option<DirEntry>) | Listed(entries: seq<DirEntry>)

  ghost predicate GoodRequest(r: DirRequest) {
    match r
    case Add(e) => e.Valid() && !IsFree(e)
    case Drop(name, ext) => |name| == 8 && |ext| == 3
    case List => true
  }

  /** What a request does to a list of entries: one entry more, the first match gone, or all entries told. */
  ghost predicate Acts(l: seq<DirEntry>, r: DirRequest, a: DirAnswer, l': seq<DirEntry>)
    requires WellFormed(l) && GoodRequest(r)
  {
    match r
    case Add(e) => a.Added? && if a.ok then exists p :: 0 <= p <= |l| && l' == Inserted(l, p, e) else l' == l
    case Drop(name, ext) => a == Dropped(FirstOf(l, name, ext)) && l' == DropFirst(l, name, ext)
    case List => a == Listed(l) && l' == l
  }

  /** The answers are those of a list of entries that is `l` at first and `l'` in the end. */
  ghost predicate Behaves(l: seq<DirEntry>, rs: seq<DirRequest>, answers: seq<DirAnswer>, l': seq<DirEntry>)
    requires WellFormed(l) && forall i | 0 <= i < |rs| :: GoodRequest(rs[i])
    decreases |rs|
  {
    |answers| == |rs| &&
    if rs == [] then l' == l
    else exists m :: WellFormed(m) && Acts(l, rs[0], answers[0], m) && Behaves(m, rs[1..], answers[1..], l')
  }

  lemma NoneFree(fat: seq<nat>)
    requires !HasFree(fat)
    ensures FreeSet(fat) == {}
  {
    assert FreeSet(fat) == {};
  }

  lemma FreeEnough(fat: seq<nat>, fat': seq<nat>, c: seq<nat>, c': seq<nat>, n: nat)
    requires |c| <= |c'| <= |c| + 1 && FreeSet(fat') == FreeSet(fat) - Elements(c'[|c|..]) && n + 1 <= |FreeSet(fat)|
    ensures n <= |FreeSet(fat')|
  {
    ElementsSize(c'[|c|..]);
    hide FreeSet, Elements;
    var a, b := FreeSet(fat), Elements(c'[|c|..]);
    assert |a| == |a - b| + |a * b| by { assert a == (a - b) + (a * b); }
    SubsetSize(a * b, b);
  }

  /** One request on the disk. */
  method ServeDir(firstCluster: nat, r: DirRequest, t: AllocationTable, disk: DiskAccess, ghost limit: nat,
                  ghost c: seq<nat>)
    returns (a: DirAnswer, ghost c': seq<nat>)
    requires disk.Valid() && Directory(disk.View, t, limit, c) && c[0] == firstCluster && GoodRequest(r)
    requires CleanTail(DirSlots(disk.View, t, c, limit))
    requires limit == CLUSTER_CAP || |FreeSet(Copy(disk.View, t, 0, limit))| >= 1
    modifies disk, disk.buf, disk.hashTable
    ensures disk.Valid() && Directory(disk.View, t, limit, c') && c'[0] == firstCluster && |c| <= |c'| <= |c| + 1
    ensures CleanTail(DirSlots(disk.View, t, c', limit))
    ensures Acts(Listing(DirSlots(old(disk.View), t, c, limit)), r, a, Listing(DirSlots(disk.View, t, c', limit)))
    ensures a == Added(false) ==> FreeSet(Copy(old(disk.View), t, 0, limit)) == {}
    ensures OnlyThisDirectory(old(disk.View), disk.View, t, limit, c, c')
    ensures FreeSet(Copy(disk.View, t, 0, limit)) == FreeSet(Copy(old(disk.View), t, 0, limit)) - Elements(c'[|c|..])
  {
    hide Copy, AllocationTable.Lays, IsChain, DiskAccess.Valid, Decode, Encode, DirSlots, Kept, CleanTail, ListingFrom,
         Inserted, GrowsOneChain, FreeSet, Elements, FirstOf, DropFirst, OffsetOf, Extends, MatchesName, CopiesEqual;
    ghost var v := disk.View;
    ghost var d := DirSlots(v, t, c, limit);
    match r
    case Add(e) =>
      FreeMeansHasFree(Copy(v, t, 0, limit));
      var at;
      ghost var j;
      at, j, c' := WriteEntry(firstCluster, e, t, disk, limit, c);
      a := Added(at.Some?);
      if at.None? {
        NoneFree(Copy(v, t, 0, limit));
      }
    case Drop(name, ext) =>
      var dropped;
      ghost var j;
      dropped, j := RemoveEntry(firstCluster, name, ext, t, disk, limit, c);
      a := Dropped(dropped);
      c' := c;
      CopiesStored(v, disk.View, t, limit);
      DirectoryGrown(v, disk.View, t, limit, c, c);
    case List =>
      var all := ListAll(firstCluster, t, disk, limit, c);
      ListingIsListed(d, 0);
      a := Listed(seq(|all|, i requires 0 <= i < |all| => all[i].0));
      assert a.entries == Listing(d);
      c' := c;
      KeptRefl(v, t, limit, c);
      DirectoryGrown(v, v, t, limit, c, c);
  }

  /**
   Every run of additions, removals and listings answers as a list of entries does, for directories of any length; the
   tail stays clean, the chain grows by free clusters, every other file keeps its chain and its bytes, the copies of the
   table stay equal, and no addition is refused while there is a free cluster for each request.
   */
  method DirSession(firstCluster: nat, rs: seq<DirRequest>, t: AllocationTable, disk: DiskAccess, ghost limit: nat,
                    ghost c: seq<nat>)
    returns (answers: seq<DirAnswer>, ghost c': seq<nat>)
    requires disk.Valid() && Directory(disk.View, t, limit, c) && c[0] == firstCluster
    requires forall i | 0 <= i < |rs| :: GoodRequest(rs[i])
    requires CleanTail(DirSlots(disk.View, t, c, limit))
    requires limit == CLUSTER_CAP || |FreeSet(Copy(disk.View, t, 0, limit))| >= |rs|
    modifies disk, disk.buf, disk.hashTable
    ensures disk.Valid() && Directory(disk.View, t, limit, c') && CleanTail(DirSlots(disk.View, t, c', limit))
    ensures var d, d' := DirSlots(old(disk.View), t, c, limit), DirSlots(disk.View, t, c', limit);
            Behaves(Listing(d), rs, answers, Listing(d'))
    ensures |FreeSet(Copy(old(disk.View), t, 0, limit))| >= |rs| ==> Added(false) !in answers
    ensures OnlyThisDirectory(old(disk.View), disk.View, t, limit, c, c')
    ensures OthersKept(old(disk.View), disk.View, t, limit, c, 0)
    decreases |rs|
  {
    hide Copy, AllocationTable.Lays, IsChain, DiskAccess.Valid, DirSlots, Kept, CleanTail, ListingFrom, GrowsOneChain,
         FreeSet, Elements, Acts, GoodRequest, CopiesEqual, OthersKept, OnlyThisDirectory;
    ghost var v := disk.View;
    if rs == [] {
      KeptRefl(v, t, limit, c);
      DirectoryGrown(v, v, t, limit, c, c);
      OtherFilesKept(v, v, t, limit, c, c);
      return [], c;
    }
    var a;
    ghost var c1;
    a, c1 := ServeDir(firstCluster, rs[0], t, disk, limit, c);
    ghost var u := disk.View;
    if |FreeSet(Copy(v, t, 0, limit))| >= |rs| {
      FreeEnough(Copy(v, t, 0, limit), Copy(u, t, 0, limit), c, c1, |rs| - 1);
    }
    answers, c' := DirSession(firstCluster, rs[1..], t, disk, limit, c1);
    answers := [a] + answers;
    SameDirectoryTwice(v, u, disk.View, t, limit, c, c1, c');
    OtherFilesKept(v, disk.View, t, limit, c, c');
  }
}
