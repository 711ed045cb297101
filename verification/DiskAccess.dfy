/** The write-back sector cache of the FAT driver, proved to be a flat array of bytes. */
module DiskCache {
  import opened Bytes
  import opened Collections
  import opened HashIndex

  const SECTOR: nat := 512
  const READAHEAD_SECTORS: nat := 16
  const STAGING_SIZE: nat := READAHEAD_SECTORS * SECTOR

  datatype CacheEntry = CacheEntry(lba: nat, lastAccess: nat, dirty: bool)

  /** The multiplicative hash, with the 32-bit wrap-around of `wrapping_mul`. */
  function HashLba(lba: nat): (h: nat)
    ensures h < BUCKETS
  {
    (lba * 2654435761) % 0x1_0000_0000 / 0x1_0000 % BUCKETS
  }

  function Homes(entries: seq<CacheEntry>): (r: seq<nat>)
    ensures |r| == |entries|
    ensures forall s | 0 <= s < |r| :: r[s] == HashLba(entries[s].lba)
  {
    seq(|entries|, i requires 0 <= i < |entries| => HashLba(entries[i].lba))
  }

  /** Sector number `k` of a byte string. */
  function Sector(b: seq<Byte>, k: nat): (r: seq<Byte>)
    requires (k + 1) * SECTOR <= |b|
    ensures |r| == SECTOR
  {
    b[k * SECTOR..(k + 1) * SECTOR]
  }

  /** Overwriting part of sector `l` changes that part of that sector and no other sector. */
  lemma SectorOfSplice(v: seq<Byte>, l: nat, o: nat, d: seq<Byte>, k: nat)
    requires (l + 1) * SECTOR <= |v| && (k + 1) * SECTOR <= |v| && o + |d| <= SECTOR
    ensures Sector(Splice(v, l * SECTOR + o, d), k) == if k == l then Splice(Sector(v, l), o, d) else Sector(v, k)
  {
    SpliceSlice(v, l * SECTOR + o, d, k * SECTOR, (k + 1) * SECTOR);
  }

  /** Two strings of whole sectors are equal when their sectors are. */
  lemma SameSectors(a: seq<Byte>, b: seq<Byte>)
    requires |a| == |b| && |a| % SECTOR == 0
    requires forall l: nat | l < |a| / SECTOR :: Sector(a, l) == Sector(b, l)
    ensures a == b
  {
    forall i | 0 <= i < |a|
      ensures a[i] == b[i]
    {
      var l := i / SECTOR;
      assert Sector(a, l)[i - l * SECTOR] == Sector(b, l)[i - l * SECTOR];
    }
  }

  /** No entry has been accessed less recently than that in `slot`. */
  ghost predicate LeastRecent(entries: seq<CacheEntry>, slot: nat) {
    slot < |entries| && forall s | 0 <= s < |entries| :: entries[slot].lastAccess <= entries[s].lastAccess
  }

  ghost predicate Cached(entries: seq<CacheEntry>, lba: nat) {
    exists s :: 0 <= s < |entries| && entries[s].lba == lba
  }

  ghost predicate Distinct(entries: seq<CacheEntry>) {
    forall r, s | 0 <= r < s < |entries| :: entries[r].lba != entries[s].lba
  }

  /** The hash table finds exactly the cached sectors. */
  ghost predicate Indexed(t: seq<nat>, entries: seq<CacheEntry>) {
    && Distinct(entries)
    && Exact(t, Homes(entries), SlotsBelow(|entries|))
  }

  /** A sector whose disk copy is stale is cached and dirty, and dirty sectors are on the disk. */
  ghost predicate StaleIsDirty(disk: seq<Byte>, view: seq<Byte>, entries: seq<CacheEntry>) {
    && |disk| == |view| && |disk| % SECTOR == 0
    && (forall l: nat | l < |disk| / SECTOR && Sector(disk, l) != Sector(view, l) ::
          exists s :: 0 <= s < |entries| && entries[s].lba == l && entries[s].dirty)
    && (forall s | 0 <= s < |entries| && entries[s].dirty :: entries[s].lba < |disk| / SECTOR)
  }

  /** Every slot outside `loading` holds the current bytes of its sector. */
  ghost predicate Loaded(buf: seq<Byte>, view: seq<Byte>, entries: seq<CacheEntry>, loading: set<nat>) {
    && |entries| * SECTOR <= |buf|
    && (forall s | 0 <= s < |entries| && s !in loading && entries[s].lba < |view| / SECTOR ::
          Sector(buf, s) == Sector(view, entries[s].lba))
  }

  ghost predicate Coherent(disk: seq<Byte>, buf: seq<Byte>, view: seq<Byte>, entries: seq<CacheEntry>,
                           loading: set<nat>) {
    && StaleIsDirty(disk, view, entries)
    && Loaded(buf, view, entries, loading)
    && (forall s | s in loading :: s < |entries| && !entries[s].dirty)
  }

  /** What a write-back of slot `s` leaves on the disk. */
  ghost function WrittenBack(disk: seq<Byte>, buf: seq<Byte>, entries: seq<CacheEntry>, s: nat): (r: seq<Byte>)
    requires s < |entries| && |entries| * SECTOR <= |buf|
    requires entries[s].dirty ==> (entries[s].lba + 1) * SECTOR <= |disk|
    ensures |r| == |disk|
  {
    if entries[s].dirty then Splice(disk, entries[s].lba * SECTOR, Sector(buf, s)) else disk
  }

  lemma DirtyOnDisk(disk: seq<Byte>, buf: seq<Byte>, view: seq<Byte>, entries: seq<CacheEntry>, loading: set<nat>)
    requires Coherent(disk, buf, view, entries, loading)
    ensures |entries| * SECTOR <= |buf| && |disk| == |view| && |disk| % SECTOR == 0
    ensures forall s | 0 <= s < |entries| && entries[s].dirty :: (entries[s].lba + 1) * SECTOR <= |disk|
    ensures forall s | s in loading :: s < |entries|
  {
  }

  /** A written-back slot can be marked clean, or be given to another sector. */
  lemma WriteBack(disk: seq<Byte>, buf: seq<Byte>, view: seq<Byte>, entries: seq<CacheEntry>, loading: set<nat>, s: nat,
                  e: CacheEntry)
    requires Distinct(entries)
    requires Coherent(disk, buf, view, entries, loading) && s < |entries| && s !in loading && !e.dirty
    ensures StaleIsDirty(WrittenBack(disk, buf, entries, s), view, entries[s := e])
    ensures e.lba == entries[s].lba ==>
              Coherent(WrittenBack(disk, buf, entries, s), buf, view, entries[s := e], loading)
    ensures Coherent(WrittenBack(disk, buf, entries, s), buf, view, entries[s := e], loading + {s})
  {
    hide Sector, Splice;
    var disk' := WrittenBack(disk, buf, entries, s);
    var entries' := entries[s := e];
    if entries[s].dirty {
      assert Splice(Sector(disk, entries[s].lba), 0, Sector(buf, s)) == Sector(buf, s) by {
        SpliceWhole(Sector(disk, entries[s].lba), Sector(buf, s));
      }
    }
    forall l: nat | l < |disk| / SECTOR && Sector(disk', l) != Sector(view, l)
      ensures exists r :: 0 <= r < |entries'| && entries'[r].lba == l && entries'[r].dirty
    {
      if entries[s].dirty {
        SectorOfSplice(disk, entries[s].lba, 0, Sector(buf, s), l);
      }
      assert l != entries[s].lba;
      var r :| 0 <= r < |entries| && entries[r].lba == l && entries[r].dirty;
      assert entries'[r] == entries[r];
    }
  }

  /** Writing into a loaded slot, and the same bytes into the view, keeps the two in step. */
  lemma WriteThrough(disk: seq<Byte>, buf: seq<Byte>, view: seq<Byte>, entries: seq<CacheEntry>, s: nat, e: CacheEntry,
                     o: nat, d: seq<Byte>)
    requires Distinct(entries) && Coherent(disk, buf, view, entries, {})
    requires s < |entries| && e.lba == entries[s].lba && e.dirty && e.lba < |view| / SECTOR && o + |d| <= SECTOR
    ensures Coherent(disk, Splice(buf, s * SECTOR + o, d), Splice(view, e.lba * SECTOR + o, d), entries[s := e], {})
  {
    WriteThroughStale(disk, view, entries, s, e, o, d);
    var view' := Splice(view, e.lba * SECTOR + o, d);
    var buf' := Splice(buf, s * SECTOR + o, d);
    forall r | 0 <= r < |entries| && entries[r].lba < |view| / SECTOR
      ensures Sector(buf', r) == Sector(view', entries[r].lba)
    {
      SectorOfSplice(view, e.lba, o, d, entries[r].lba);
      SectorOfSplice(buf, s, o, d, r);
    }
  }

  lemma WriteThroughStale(disk: seq<Byte>, view: seq<Byte>, entries: seq<CacheEntry>, s: nat, e: CacheEntry, o: nat,
                          d: seq<Byte>)
    requires StaleIsDirty(disk, view, entries)
    requires s < |entries| && e.lba == entries[s].lba && e.dirty && e.lba < |view| / SECTOR && o + |d| <= SECTOR
    ensures StaleIsDirty(disk, Splice(view, e.lba * SECTOR + o, d), entries[s := e])
  {
    var view' := Splice(view, e.lba * SECTOR + o, d);
    var entries' := entries[s := e];
    forall l: nat | l < |disk| / SECTOR && Sector(disk, l) != Sector(view', l)
      ensures exists r :: 0 <= r < |entries'| && entries'[r].lba == l && entries'[r].dirty
    {
      if l == e.lba {
        assert entries'[s].lba == l;
      } else {
        SectorOfSplice(view, e.lba, o, d, l);
        var r :| 0 <= r < |entries| && entries[r].lba == l && entries[r].dirty;
        assert entries'[r] == entries[r];
      }
    }
  }

  /** Filling a slot that is being loaded with its sector's bytes. */
  lemma FillSlot(disk: seq<Byte>, buf: seq<Byte>, view: seq<Byte>, entries: seq<CacheEntry>, loading: set<nat>, s: nat,
                 d: seq<Byte>)
    requires Distinct(entries) && Coherent(disk, buf, view, entries, loading)
    requires s in loading && |d| == SECTOR
    requires entries[s].lba < |disk| / SECTOR ==> d == Sector(disk, entries[s].lba)
    ensures Coherent(disk, Splice(buf, s * SECTOR, d), view, entries, loading - {s})
  {
    var buf' := Splice(buf, s * SECTOR, d);
    hide Splice, Sector;
    forall r | 0 <= r < |entries| && r !in loading - {s} && entries[r].lba < |view| / SECTOR
      ensures Sector(buf', r) == Sector(view, entries[r].lba)
    {
      SectorOfSplice(buf, s, 0, d, r);
      if r == s {
        SpliceWhole(Sector(buf, s), d);
      }
    }
  }

  /** The staging area lies behind the slots, so filling it disturbs no slot. */
  lemma StageCoherent(disk: seq<Byte>, buf: seq<Byte>, view: seq<Byte>, entries: seq<CacheEntry>, loading: set<nat>,
                      at: nat,
                      d: seq<Byte>)
    requires Coherent(disk, buf, view, entries, loading) && |entries| * SECTOR <= at && at + |d| <= |buf|
    ensures Coherent(disk, Splice(buf, at, d), view, entries, loading)
    ensures Splice(buf, at, d)[at..at + |d|] == d
  {
    forall r | 0 <= r < |entries|
      ensures Sector(Splice(buf, at, d), r) == Sector(buf, r)
    {
      SpliceSlice(buf, at, d, r * SECTOR, (r + 1) * SECTOR);
    }
  }

  lemma TableInRange(t: seq<nat>, entries: seq<CacheEntry>)
    requires Indexed(t, entries)
    ensures |t| == BUCKETS && forall k | 0 <= k < BUCKETS && t[k] != EMPTY :: t[k] < |entries|
  {
    hide HashLba;
  }

  lemma OnlySlotOf(entries: seq<CacheEntry>, slot: nat)
    requires Distinct(entries) && slot < |entries|
    ensures forall s | 0 <= s < |entries| && entries[s].lba == entries[slot].lba :: s == slot
  {
  }

  /** A probe for `lba` that saw only other sectors before an empty bucket, or all round, has missed nothing. */
  lemma NothingMissed(t: seq<nat>, entries: seq<CacheEntry>, lba: nat, n: nat, idx: nat)
    requires |t| == BUCKETS && Indexed(t, entries) && idx < BUCKETS
    requires forall k | 0 <= k < BUCKETS && t[k] != EMPTY :: t[k] < |entries|
    requires n < BUCKETS ==> Dist(HashLba(lba), idx) == n && t[idx] == EMPTY
    requires forall k | 0 <= k < BUCKETS && Dist(HashLba(lba), k) < n :: t[k] != EMPTY && entries[t[k]].lba != lba
    ensures !Cached(entries, lba)
  {
    hide HashLba;
    hide Exact, Dist;
    var homes, live := Homes(entries), SlotsBelow(|entries|);
    forall s | 0 <= s < |entries|
      ensures entries[s].lba != lba
    {
      if n < BUCKETS {
        ProbeStopsRightly(t, homes, live, s, idx);
      } else {
        SlotIsInTable(t, homes, live, s);
      }
    }
  }

  lemma IndexGrown(t: seq<nat>, entries: seq<CacheEntry>, e: CacheEntry, p: nat)
    requires |t| == BUCKETS && Indexed(t, entries) && !Cached(entries, e.lba) && |entries| + 1 < BUCKETS
    requires p < BUCKETS && t[p] == EMPTY && Reachable(t, HashLba(e.lba), p)
    ensures Indexed(t[p := |entries|], entries + [e])
  {
    hide HashLba, Exact, Reachable;
    InsertExact(t, Homes(entries), SlotsBelow(|entries|), |entries|, Homes(entries + [e]), p);
    assert SlotsBelow(|entries|) + {|entries|} == SlotsBelow(|entries + [e]|);
  }

  lemma IndexReplaced(t: seq<nat>, entries: seq<CacheEntry>, s: nat, e: CacheEntry, p: nat)
    requires s < |entries| && |t| == BUCKETS && Distinct(entries) && !Cached(entries, e.lba) && |entries| < BUCKETS
    requires Exact(t, Homes(entries), SlotsBelow(|entries|) - {s})
    requires p < BUCKETS && t[p] == EMPTY && Reachable(t, HashLba(e.lba), p)
    ensures Indexed(t[p := s], entries[s := e])
  {
    hide HashLba, Exact, Reachable;
    InsertExact(t, Homes(entries), SlotsBelow(|entries|) - {s}, s, Homes(entries[s := e]), p);
    assert SlotsBelow(|entries|) - {s} + {s} == SlotsBelow(|entries|);
  }

  /** Chunk `i` of the staging area holds sector `lba + i` of the disk. */
  lemma StagedSector(disk: seq<Byte>, buf: seq<Byte>, staging: nat, bytes: seq<Byte>, lba: nat, i: nat)
    requires staging + |bytes| <= |buf| && buf[staging..staging + |bytes|] == bytes && (i + 1) * SECTOR <= |bytes|
    requires |disk| % SECTOR == 0
    requires forall k | 0 <= k < |bytes| && lba * SECTOR + k < |disk| :: bytes[k] == disk[lba * SECTOR + k]
    ensures var chunk := buf[staging + i * SECTOR..staging + i * SECTOR + SECTOR];
            lba + i < |disk| / SECTOR ==> chunk == Sector(disk, lba + i)
  {
    var chunk := buf[staging + i * SECTOR..staging + i * SECTOR + SECTOR];
    forall k | 0 <= k < SECTOR
      ensures chunk[k] == bytes[i * SECTOR + k]
    {
      assert buf[staging..staging + |bytes|][i * SECTOR + k] == buf[staging + i * SECTOR + k];
    }
  }

  /** One step of distributing the staging area. */
  lemma LoadOne(disk: seq<Byte>, buf: seq<Byte>, view: seq<Byte>, entries: seq<CacheEntry>, slotOf: seq<nat>, i: nat,
                staging: nat, bytes: seq<Byte>, lba: nat)
    requires i < |slotOf| && Distinct(entries) && Coherent(disk, buf, view, entries, Elements(slotOf[i..]))
    requires |bytes| == |slotOf| * SECTOR && NoDuplicates(slotOf)
    requires slotOf[i] < |entries| && entries[slotOf[i]].lba == lba + i
    requires |entries| * SECTOR <= staging && staging + |bytes| <= |buf| && buf[staging..staging + |bytes|] == bytes
    requires forall k | 0 <= k < |bytes| && lba * SECTOR + k < |disk| :: bytes[k] == disk[lba * SECTOR + k]
    ensures var b := Splice(buf, slotOf[i] * SECTOR, buf[staging + i * SECTOR..staging + i * SECTOR + SECTOR]);
            && Coherent(disk, b, view, entries, Elements(slotOf[i + 1..]))
            && b[staging..staging + |bytes|] == bytes
  {
    hide Coherent, Distinct, Sector;
    var loading := Elements(slotOf[i..]);
    var chunk := buf[staging + i * SECTOR..staging + i * SECTOR + SECTOR];
    DirtyOnDisk(disk, buf, view, entries, loading);
    StagedSector(disk, buf, staging, bytes, lba, i);
    SpliceSlice(buf, slotOf[i] * SECTOR, chunk, staging, staging + |bytes|);
    assert slotOf[i..][0] == slotOf[i];
    FillSlot(disk, buf, view, entries, loading, slotOf[i], chunk);
    assert loading - {slotOf[i]} == Elements(slotOf[i + 1..]);
  }

  /** The index does not depend on ages and dirty marks. */
  lemma DirtyIndexed(t: seq<nat>, entries: seq<CacheEntry>, s: nat, e: CacheEntry)
    requires Indexed(t, entries) && s < |entries| && e.lba == entries[s].lba
    ensures Indexed(t, entries[s := e])
  {
    hide HashLba, Exact;
    assert Homes(entries[s := e]) == Homes(entries);
  }

  /** Renewing the age of an entry disturbs nothing. */
  lemma TouchValid(t: seq<nat>, disk: seq<Byte>, buf: seq<Byte>, view: seq<Byte>, entries: seq<CacheEntry>, s: nat,
                   age: nat)
    requires Indexed(t, entries) && Coherent(disk, buf, view, entries, {}) && s < |entries|
    ensures var e := entries[s := entries[s].(lastAccess := age)];
            Indexed(t, e) && Coherent(disk, buf, view, e, {})
  {
    hide HashLba, Exact, Sector;
    var e := entries[s := entries[s].(lastAccess := age)];
    DirtyIndexed(t, entries, s, e[s]);
    forall l: nat | l < |disk| / SECTOR && Sector(disk, l) != Sector(view, l)
      ensures exists r :: 0 <= r < |e| && e[r].lba == l && e[r].dirty
    {
      var r :| 0 <= r < |entries| && entries[r].lba == l && entries[r].dirty;
      assert e[r].lba == l;
    }
  }

  lemma SlotHolds(disk: seq<Byte>, buf: seq<Byte>, view: seq<Byte>, entries: seq<CacheEntry>, s: nat)
    requires Coherent(disk, buf, view, entries, {}) && s < |entries|
    ensures (s + 1) * SECTOR <= |buf|
    ensures (entries[s].lba + 1) * SECTOR <= |view| ==> Sector(buf, s) == Sector(view, entries[s].lba)
  {
  }

  lemma SameChunk(buf: seq<Byte>, s: nat, view: seq<Byte>, lba: nat, o: nat, n: nat)
    requires (s + 1) * SECTOR <= |buf| && (lba + 1) * SECTOR <= |view| && o + n <= SECTOR
    requires Sector(buf, s) == Sector(view, lba)
    ensures buf[s * SECTOR + o..s * SECTOR + o + n] == view[lba * SECTOR + o..lba * SECTOR + o + n]
  {
    SubSlice(buf, s * SECTOR, (s + 1) * SECTOR, o, n);
    SubSlice(view, lba * SECTOR, (lba + 1) * SECTOR, o, n);
  }

  ghost predicate Uncached(entries: seq<CacheEntry>, lo: nat, hi: nat) {
    forall s | 0 <= s < |entries| :: !(lo <= entries[s].lba < hi)
  }

  lemma GrowCoherent(disk: seq<Byte>, buf: seq<Byte>, view: seq<Byte>, entries: seq<CacheEntry>, loading: set<nat>,
                     e: CacheEntry)
    requires Coherent(disk, buf, view, entries, loading) && (|entries| + 1) * SECTOR <= |buf| && !e.dirty
    ensures Coherent(disk, buf, view, entries + [e], loading + {|entries|})
  {
    var entries' := entries + [e];
    forall l: nat | l < |disk| / SECTOR && Sector(disk, l) != Sector(view, l)
      ensures exists r :: 0 <= r < |entries'| && entries'[r].lba == l && entries'[r].dirty
    {
      var r :| 0 <= r < |entries| && entries[r].lba == l && entries[r].dirty;
      assert entries'[r] == entries[r];
    }
  }

  /** A proper subset of the slots leaves one out. */
  lemma SomeSlotOutside(loading: set<nat>, n: nat) returns (r: nat)
    requires |loading| < n
    ensures r < n && r !in loading
  {
    if forall s: nat | s < n :: s in loading {
      SubsetSize(SlotsBelow(n), loading);
    }
    r :| r < n && r !in loading;
  }

  /** `DiskAccess` with its device: `disk` is what the device holds. */
  class DiskAccess {
    var disk: seq<Byte>
    const buf: array<Byte>
    var entries: seq<CacheEntry>
    const hashTable: array<nat>
    var globalAge: nat
    /** The flat array of bytes that the cache and the disk stand for. */
    ghost var View: seq<Byte>

    function MaxEntries(): int {
      (buf.Length - STAGING_SIZE) / SECTOR
    }

    ghost function Repr(): set<object> {
      {this, buf, hashTable}
    }

    ghost predicate Shape()
      reads this
    {
      && buf.Length % SECTOR == 0 && READAHEAD_SECTORS <= MaxEntries() < BUCKETS
      && hashTable.Length == BUCKETS && buf as object != hashTable as object
      && |entries| <= MaxEntries()
      && (forall s | 0 <= s < |entries| :: entries[s].lastAccess <= globalAge)
    }

    /** The invariant while the slots of `loading` are still waiting for their bytes. */
    ghost predicate Core(loading: set<nat>)
      reads this, buf, hashTable
    {
      && Shape()
      && Indexed(hashTable[..], entries)
      && Coherent(disk, buf[..], View, entries, loading)
    }

    ghost predicate Valid()
      reads this, buf, hashTable
    {
      Core({})
    }

    /**
     A cold cache of `bufferSize` bytes plus staging, rounded up to whole pages, over a device. The bounds are exactly
     those that give at least 16 slots, a batch of readahead, and fewer than 256, the buckets of the index.
     */
    constructor (device: seq<Byte>, bufferSize: nat)
      requires |device| % SECTOR == 0
      requires READAHEAD_SECTORS <= (bufferSize + 0xFFF) / 0x1000 * 8 < BUCKETS
      ensures Valid() && fresh(Repr()) && MaxEntries() == (bufferSize + 0xFFF) / 0x1000 * 8
      ensures View == device == disk
    {
      var total := bufferSize + STAGING_SIZE;
      var pageAligned := (total + 0xFFF) / 0x1000 * 0x1000;
      disk := device;
      buf := new Byte[pageAligned](_ => 0);
      entries := [];
      hashTable := new nat[BUCKETS](_ => EMPTY);
      globalAge := 0;
      View := device;
    }

    method HashLookup(lba: nat) returns (r: Option<nat>)
      requires Shape() && Indexed(hashTable[..], entries)
      ensures r.Some? ==> r.value < |entries| && entries[r.value].lba == lba
      ensures r.None? ==> !Cached(entries, lba)
    {
      hide HashLba, Exact, Distinct;
      ghost var t := hashTable[..];
      TableInRange(t, entries);
      ghost var home := HashLba(lba);
      var idx: nat := HashLba(lba);
      for i := 0 to BUCKETS
        invariant idx < BUCKETS && (i < BUCKETS ==> Dist(home, idx) == i)
        invariant forall k | 0 <= k < BUCKETS && Dist(home, k) < i :: t[k] != EMPTY && entries[t[k]].lba != lba
      {
        var slot := hashTable[idx];
        if slot == EMPTY {
          NothingMissed(t, entries, lba, i, idx);
          return None;
        }
        assert t[idx] == slot;
        if entries[slot].lba == lba {
          return Some(slot);
        }
        idx := Next(idx);
      }
      NothingMissed(t, entries, lba, BUCKETS, idx);
      return None;
    }

    /** Fills the first empty bucket `p` on the probe path; a full table is left alone (`p == 256`). */
    method HashInsert(lba: nat, slot: nat) returns (ghost p: nat)
      requires hashTable.Length == BUCKETS
      modifies hashTable
      ensures p < BUCKETS ==> old(hashTable[p]) == EMPTY && Reachable(old(hashTable[..]), HashLba(lba), p)
      ensures p < BUCKETS ==> hashTable[..] == old(hashTable[..])[p := slot]
      ensures p >= BUCKETS ==> EMPTY !in old(hashTable[..]) && hashTable[..] == old(hashTable[..])
    {
      hide HashLba;
      ghost var t := hashTable[..];
      ghost var home := HashLba(lba);
      var idx: nat := HashLba(lba);
      for i := 0 to BUCKETS
        invariant idx < BUCKETS && (i < BUCKETS ==> Dist(home, idx) == i)
        invariant hashTable[..] == t
        invariant forall k | 0 <= k < BUCKETS && Dist(home, k) < i :: t[k] != EMPTY
      {
        if hashTable[idx] == EMPTY {
          hashTable[idx] := slot;
          return idx;
        }
        assert t[idx] != EMPTY;
        idx := Next(idx);
      }
      return BUCKETS;
    }

    /** Removes a sector from the index; a sector that is not cached leaves the table alone. */
    method HashRemove(lba: nat)
      requires Shape() && Indexed(hashTable[..], entries)
      modifies hashTable
      ensures forall s | 0 <= s < |entries| && entries[s].lba == lba ::
                Exact(hashTable[..], Homes(entries), SlotsBelow(|entries|) - {s})
      ensures !Cached(entries, lba) ==> hashTable[..] == old(hashTable[..])
    {
      hide HashLba, Exact, Distinct;
      ghost var t := hashTable[..];
      TableInRange(t, entries);
      ghost var home := HashLba(lba);
      var idx: nat := HashLba(lba);
      for i := 0 to BUCKETS
        invariant idx < BUCKETS && (i < BUCKETS ==> Dist(home, idx) == i)
        invariant hashTable[..] == t
        invariant forall k | 0 <= k < BUCKETS && Dist(home, k) < i :: t[k] != EMPTY && entries[t[k]].lba != lba
      {
        var slot := hashTable[idx];
        if slot == EMPTY {
          NothingMissed(t, entries, lba, i, idx);
          return;
        }
        assert t[idx] == slot;
        if entries[slot].lba == lba {
          ClearAndRehash(idx);
          OnlySlotOf(entries, slot);
          return;
        }
        idx := Next(idx);
      }
      NothingMissed(t, entries, lba, BUCKETS, idx);
    }

    /** Clears bucket `hole`, then takes out and reinserts every entry of the run that follows it. */
    method ClearAndRehash(hole: nat)
      requires Shape() && Indexed(hashTable[..], entries)
      requires hole < BUCKETS && hashTable[hole] != EMPTY
      modifies hashTable
      ensures Exact(hashTable[..], Homes(entries), SlotsBelow(|entries|) - {old(hashTable[hole])})
    {
      hide HashLba, Exact, Sweep, Dist, Reachable;
      ghost var t0 := hashTable[..];
      ghost var homes := Homes(entries);
      ghost var live := SlotsBelow(|entries|);
      ghost var stop := SweepStart(t0, homes, live, hole);
      hashTable[hole] := EMPTY;
      var next: nat := Next(hole);
      assert hashTable[..] == t0[hole := EMPTY];
      while hashTable[next] != EMPTY
        invariant next < BUCKETS
        invariant Sweep(hashTable[..], t0, homes, live, hole, next, stop)
        decreases BUCKETS - Dist(hole, next)
      {
        ghost var t := hashTable[..];
        SweepFacts(t, t0, homes, live, hole, next, stop);
        assert t[next] == hashTable[next];
        var rehashSlot := hashTable[next];
        var rehashLba := entries[rehashSlot].lba;
        hashTable[next] := EMPTY;
        assert hashTable[..] == t[next := EMPTY] && hashTable[..][next] == EMPTY;
        ghost var p := HashInsert(rehashLba, rehashSlot);
        SweepStep(t, t0, homes, live, hole, next, stop, p);
        next := Next(next);
      }
      assert hashTable[..][next] == EMPTY;
      SweepDone(hashTable[..], t0, homes, live, hole, next, stop);
    }

    /** The first least-recently-used entry; ages stay below the `u32::MAX` the search starts from. */
    method OldestEntry() returns (oldest: nat)
      requires |entries| > 0 && forall s | 0 <= s < |entries| :: entries[s].lastAccess <= globalAge
      ensures LeastRecent(entries, oldest)
      ensures forall s | 0 <= s < oldest :: entries[oldest].lastAccess < entries[s].lastAccess
    {
      oldest := 0;
      var oldestAccess := globalAge + 1;
      for i := 0 to |entries|
        invariant oldest < |entries| && (i == 0 ==> oldestAccess == globalAge + 1)
        invariant i > 0 ==> oldest < i && oldestAccess == entries[oldest].lastAccess
        invariant forall s | 0 <= s < i :: oldestAccess <= entries[s].lastAccess
        invariant forall s | 0 <= s < oldest :: oldestAccess < entries[s].lastAccess
      {
        if entries[i].lastAccess < oldestAccess {
          oldest := i;
          oldestAccess := entries[i].lastAccess;
        }
      }
    }

    /** One sector of slot `index` written to the device. */
    method WriteSlotBack(index: nat)
      requires index < |entries| && |entries| * SECTOR <= buf.Length
      requires (entries[index].lba + 1) * SECTOR <= |disk|
      modifies this`disk
      ensures disk == Splice(old(disk), entries[index].lba * SECTOR, Sector(buf[..], index))
    {
      var start := index * SECTOR;
      var flushBuf := buf[start..start + SECTOR];
      assert flushBuf == Sector(buf[..], index);
      disk := Splice(disk, entries[index].lba * SECTOR, flushBuf);
    }

    /**
     Gives a sector that is not cached a slot, evicting the least recently used entry when all are
     taken. The slots of the batch being loaded carry the newest age, so none of them is evicted.
     */
    method AllocateSlot(lba: nat, ghost loading: set<nat>) returns (slot: nat)
      requires Core(loading) && !Cached(entries, lba) && |loading| < MaxEntries()
      requires forall s | 0 <= s < |entries| :: s in loading <==> entries[s].lastAccess == globalAge
      modifies this`disk, this`entries, hashTable
      ensures Core(loading + {slot})
      ensures |old(entries)| <= |entries|
      ensures slot < |entries| && slot !in loading && entries[slot] == CacheEntry(lba, globalAge, false)
      ensures forall s | 0 <= s < |entries| && s != slot :: s < |old(entries)| && entries[s] == old(entries)[s]
      ensures |old(entries)| < MaxEntries() ==> slot == |old(entries)| && disk == old(disk)
      ensures |old(entries)| == MaxEntries() ==>
                && |entries| == |old(entries)| && LeastRecent(old(entries), slot)
                && (!old(entries)[slot].dirty ==> disk == old(disk))
    {
      hide HashLba, Exact, Dist, Reachable, Coherent, Distinct, Cached, Sector, Splice, SlotsBelow;
      if |entries| < MaxEntries() {
        ghost var was, t := entries, hashTable[..];
        DirtyOnDisk(disk, buf[..], View, was, loading);
        slot := |entries|;
        var newEntry := CacheEntry(lba, globalAge, false);
        EmptyBucketExists(t, Homes(was), SlotsBelow(|was|));
        GrowCoherent(disk, buf[..], View, was, loading, newEntry);
        entries := entries + [newEntry];
        ghost var p := HashInsert(lba, slot);
        IndexGrown(t, was, newEntry, p);
      } else {
        slot := Evict(lba, loading);
      }
    }

    /** Writes the least recently used entry back if it is dirty and gives its slot to `lba`. */
    method Evict(lba: nat, ghost loading: set<nat>) returns (slot: nat)
      requires Core(loading) && !Cached(entries, lba) && |loading| < |entries|
      requires forall s | 0 <= s < |entries| :: s in loading <==> entries[s].lastAccess == globalAge
      modifies this`disk, this`entries, hashTable
      ensures Core(loading + {slot})
      ensures slot < |old(entries)| && slot !in loading
      ensures entries == old(entries)[slot := CacheEntry(lba, globalAge, false)]
      ensures LeastRecent(old(entries), slot)
      ensures !old(entries)[slot].dirty ==> disk == old(disk)
    {
      hide HashLba, Exact, Dist, Reachable, Coherent, Distinct, Cached, Sector, Splice, SlotsBelow;
      ghost var was := entries;
      var newEntry := CacheEntry(lba, globalAge, false);
      slot := OldestEntry();
      ghost var r := SomeSlotOutside(loading, |entries|);
      DirtyOnDisk(disk, buf[..], View, was, loading);
      WriteBack(disk, buf[..], View, was, loading, slot, newEntry);
      if entries[slot].dirty {
        WriteSlotBack(slot);
      }
      var oldLba := entries[slot].lba;
      HashRemove(oldLba);
      ghost var t := hashTable[..];
      EmptyBucketExists(t, Homes(was), SlotsBelow(|was|) - {slot});
      ghost var p := HashInsert(lba, slot);
      entries := entries[slot := newEntry];
      IndexReplaced(t, was, slot, newEntry, p);
    }

    /** The device fills the whole buffer; past its end it may deliver anything. */
    method DeviceRead(offset: nat, len: nat) returns (bytes: seq<Byte>)
      ensures |bytes| == len
      ensures forall i | 0 <= i < len && offset + i < |disk| :: bytes[i] == disk[offset + i]
    {
      var d := disk;
      bytes := seq(len, i requires 0 <= i < len => if offset + i < |d| then d[offset + i] else 0);
    }

    /** How many consecutive sectors from `startLba` on, at most 16, are not cached. */
    method CountUncached(startLba: nat) returns (count: nat)
      requires Shape() && Indexed(hashTable[..], entries)
      ensures count <= READAHEAD_SECTORS && Uncached(entries, startLba, startLba + count)
      ensures count < READAHEAD_SECTORS ==> Cached(entries, startLba + count)
    {
      hide HashLba, Exact, Distinct;
      count := 0;
      while count < READAHEAD_SECTORS
        invariant count <= READAHEAD_SECTORS
        invariant Uncached(entries, startLba, startLba + count)
      {
        var found := HashLookup(startLba + count);
        if found.Some? {
          break;
        }
        count := count + 1;
      }
    }

    /** Slots for a whole batch: all distinct, because the newest age is never the one evicted. */
    method AllocateBatch(startLba: nat, count: nat) returns (slotOf: seq<nat>)
      requires Valid() && count <= READAHEAD_SECTORS
      requires forall s | 0 <= s < |entries| :: entries[s].lastAccess < globalAge
      requires Uncached(entries, startLba, startLba + count)
      modifies this`disk, this`entries, hashTable
      ensures |slotOf| == count && NoDuplicates(slotOf)
      ensures Core(Elements(slotOf))
      ensures forall k | 0 <= k < count ::
                slotOf[k] < |entries| && entries[slotOf[k]] == CacheEntry(startLba + k, globalAge, false)
    {
      hide Indexed, Coherent, LeastRecent;
      slotOf := [];
      assert Elements(slotOf) == {};
      for i := 0 to count
        invariant |slotOf| == i && NoDuplicates(slotOf)
        invariant Core(Elements(slotOf))
        invariant forall s | 0 <= s < |entries| :: s in slotOf <==> entries[s].lastAccess == globalAge
        invariant forall k | 0 <= k < i ::
                    slotOf[k] < |entries| && entries[slotOf[k]] == CacheEntry(startLba + k, globalAge, false)
        invariant Uncached(entries, startLba + i, startLba + count)
      {
        ElementsSize(slotOf);
        ghost var was := entries;
        var slot := AllocateSlot(startLba + i, Elements(slotOf));
        assert Elements(slotOf) + {slot} == Elements(slotOf + [slot]);
        slotOf := slotOf + [slot];
      }
    }

    /** Reads the batch into the staging area and copies each sector to its slot. */
    method LoadBatch(startLba: nat, slotOf: seq<nat>)
      requires Core(Elements(slotOf)) && |slotOf| <= READAHEAD_SECTORS && NoDuplicates(slotOf)
      requires forall k | 0 <= k < |slotOf| :: slotOf[k] < |entries| && entries[slotOf[k]].lba == startLba + k
      modifies buf
      ensures Valid()
    {
      hide HashLba, Exact, Distinct, Coherent, Sector, Splice, Elements, NoDuplicates;
      var count := |slotOf|;
      var staging := MaxEntries() * SECTOR;
      ghost var b := buf[..];
      var bytes := DeviceRead(startLba * SECTOR, count * SECTOR);
      Blit(buf, staging, bytes);
      StageCoherent(disk, b, View, entries, Elements(slotOf), staging, bytes);
      assert slotOf[0..] == slotOf;
      for i := 0 to count
        invariant buf[..][staging..staging + count * SECTOR] == bytes
        invariant Coherent(disk, buf[..], View, entries, Elements(slotOf[i..]))
      {
        var src := staging + i * SECTOR;
        b := buf[..];
        var chunk := buf[src..src + SECTOR];
        assert chunk == b[src..src + SECTOR] && slotOf[i] < |entries|;
        LoadOne(disk, b, View, entries, slotOf, i, staging, bytes, startLba);
        Blit(buf, slotOf[i] * SECTOR, chunk);
      }
      NoElements(slotOf);
    }

    /** Caches the sectors from `startLba` on, up to the first that is cached already. */
    method Readahead(startLba: nat)
      requires Valid() && !Cached(entries, startLba)
      requires forall s | 0 <= s < |entries| :: entries[s].lastAccess < globalAge
      modifies this`disk, this`entries, buf, hashTable
      ensures Valid() && Cached(entries, startLba)
      ensures forall s | 0 <= s < |entries| && entries[s].lba == startLba :: entries[s].lastAccess == globalAge
    {
      hide Exact, HashLba, Coherent;
      var count := CountUncached(startLba);
      if count == 0 {
        return;
      }
      var slotOf := AllocateBatch(startLba, count);
      LoadBatch(startLba, slotOf);
      OnlySlotOf(entries, slotOf[0]);
    }

    /**
     The slot that holds sector `lba`, read in if need be, and now the newest; what the cache stands for is unchanged.
     */
    method CacheSector(lba: nat) returns (slot: nat)
      requires Valid()
      modifies this`disk, this`entries, this`globalAge, buf, hashTable
      ensures Valid() && slot < |entries| && entries[slot].lba == lba
      ensures globalAge == old(globalAge) + 1 && entries[slot].lastAccess == globalAge
      ensures (slot + 1) * SECTOR <= buf.Length
      ensures (lba + 1) * SECTOR <= |View| ==> Sector(buf[..], slot) == Sector(View, lba)
    {
      hide Indexed, Coherent;
      globalAge := globalAge + 1;
      var found := HashLookup(lba);
      if found.Some? {
        slot := found.value;
        ghost var was := entries;
        entries := entries[slot := entries[slot].(lastAccess := globalAge)];
        TouchValid(hashTable[..], disk, buf[..], View, was, slot, globalAge);
      } else {
        Readahead(lba);
        found := HashLookup(lba);
        slot := found.value;
      }
      SlotHolds(disk, buf[..], View, entries, slot);
    }

    /** Reads the `hi - lo` bytes at `offset` into `buffer[lo..hi]`. */
    method ReadBytes(offset: nat, buffer: array<Byte>, lo: nat, hi: nat) returns (bytesRead: nat)
      requires Valid() && lo <= hi <= buffer.Length && buffer != buf
      requires offset + (hi - lo) <= |View|
      modifies this`disk, this`entries, this`globalAge, buf, hashTable, buffer
      ensures Valid() && bytesRead == hi - lo
      ensures buffer[..] == Splice(old(buffer[..]), lo, View[offset..offset + (hi - lo)])
    {
      hide Valid, Core, Shape, Sector, Splice;
      var firstSector := offset / SECTOR;
      var lastByte := offset + (hi - lo);
      var lastSector := (lastByte + 511) / SECTOR;
      var sectorOffset: nat := offset % SECTOR;
      var toRead: nat := hi - lo;
      bytesRead := 0;
      ghost var b0, v := buffer[..], View;
      SpliceNothing(b0, lo);
      assert v[offset..offset] == [];
      for sector := firstSector to lastSector
        invariant Valid() && View == v
        invariant bytesRead + toRead == hi - lo && sectorOffset < SECTOR
        invariant toRead == 0 || sector * SECTOR + sectorOffset == offset + bytesRead
        invariant buffer[..] == Splice(b0, lo, v[offset..offset + bytesRead])
      {
        var index := CacheSector(sector);
        var n := if toRead < SECTOR - sectorOffset then toRead else SECTOR - sectorOffset;
        var src := index * SECTOR + sectorOffset;
        var chunk := buf[src..src + n];
        if n > 0 {
          ValidView();
          SameChunk(buf[..], index, v, sector, sectorOffset, n);
        }
        assert chunk == v[offset + bytesRead..offset + bytesRead + n];
        SpliceMore(b0, lo, v, offset, bytesRead, n);
        Blit(buffer, lo + bytesRead, chunk);
        bytesRead := bytesRead + n;
        toRead := toRead - n;
        sectorOffset := 0;
      }
    }

    lemma ValidView()
      requires Valid()
      ensures |View| == |disk| && |View| % SECTOR == 0
    {
      hide Indexed;
    }

    /** Marks slot `index` dirty and writes `d` into it from byte `o` on. */
    method WriteChunk(index: nat, o: nat, d: seq<Byte>)
      requires Valid() && index < |entries| && o + |d| <= SECTOR && (entries[index].lba + 1) * SECTOR <= |View|
      modifies this`entries, this`View, buf
      ensures Valid() && View == Splice(old(View), old(entries)[index].lba * SECTOR + o, d)
    {
      hide HashLba, Exact, Sector, Splice, Coherent;
      ghost var was, b := entries, buf[..];
      SlotHolds(disk, b, View, was, index);
      var e := entries[index].(dirty := true);
      DirtyIndexed(hashTable[..], was, index, e);
      ValidView();
      WriteThrough(disk, b, View, was, index, e, o, d);
      entries := entries[index := e];
      Blit(buf, index * SECTOR + o, d);
      View := Splice(View, e.lba * SECTOR + o, d);
    }

    /** Writes `data` at `offset`: the flat array changes there and nowhere else. */
    method WriteBytes(offset: nat, data: seq<Byte>)
      requires Valid() && offset + |data| <= |View|
      modifies this, buf, hashTable
      ensures Valid() && View == Splice(old(View), offset, data)
    {
      hide Valid, Core, Shape, Sector, Splice;
      var firstSector := offset / SECTOR;
      var lastByte := offset + |data|;
      var lastSector := (lastByte + 511) / SECTOR;
      var sectorOffset: nat := offset % SECTOR;
      var written: nat := 0;
      ghost var v := View;
      SpliceNothing(v, offset);
      assert data[..0] == [];
      ValidView();
      for sector := firstSector to lastSector
        invariant Valid() && |View| == |v|
        invariant written <= |data| && sectorOffset < SECTOR
        invariant written == |data| || sector * SECTOR + sectorOffset == offset + written
        invariant View == Splice(v, offset, data[..written])
      {
        var n := if |data| - written < SECTOR - sectorOffset then |data| - written else SECTOR - sectorOffset;
        var index := CacheSector(sector);
        if n == 0 {
          SpliceNothing(View, sector * SECTOR + sectorOffset);
          SpliceNothing(View, offset + written);
        }
        WriteChunk(index, sectorOffset, data[written..written + n]);
        SpliceAdjacent(v, offset, data[..written], data[written..written + n]);
        assert data[..written] + data[written..written + n] == data[..written + n];
        written := written + n;
        sectorOffset := 0;
      }
      assert data[..written] == data;
    }

    /** Writes every dirty sector back: afterwards the disk is the flat array. */
    method FlushAll()
      requires Valid()
      modifies this`disk, this`entries
      ensures Valid() && disk == View
      ensures forall s | 0 <= s < |entries| :: !entries[s].dirty
    {
      hide HashLba, Exact, Sector, Splice, Coherent;
      for index := 0 to |entries|
        invariant Valid() && |entries| == |old(entries)|
        invariant forall s | 0 <= s < index :: !entries[s].dirty
      {
        if entries[index].dirty {
          var e := entries[index].(dirty := false);
          DirtyOnDisk(disk, buf[..], View, entries, {});
          DirtyIndexed(hashTable[..], entries, index, e);
          WriteBack(disk, buf[..], View, entries, {}, index, e);
          WriteSlotBack(index);
          entries := entries[index := e];
        }
      }
      CleanIsView(disk, buf[..], View, entries);
    }
  }

  lemma CleanIsView(disk: seq<Byte>, buf: seq<Byte>, view: seq<Byte>, entries: seq<CacheEntry>)
    requires Coherent(disk, buf, view, entries, {})
    requires forall s | 0 <= s < |entries| :: !entries[s].dirty
    ensures disk == view
  {
    hide Sector;
    SameSectors(disk, view);
  }

  /** The flat array is no free choice: disk, buffer and entries determine it. */
  lemma ViewIsDetermined(disk: seq<Byte>, buf: seq<Byte>, v: seq<Byte>, w: seq<Byte>, entries: seq<CacheEntry>)
    requires Coherent(disk, buf, v, entries, {}) && Coherent(disk, buf, w, entries, {})
    ensures v == w
  {
    hide Sector;
    forall l: nat | l < |v| / SECTOR
      ensures Sector(v, l) == Sector(w, l)
    {
      if s :| 0 <= s < |entries| && entries[s].lba == l {
        assert Sector(buf, s) == Sector(v, l);
      } else {
        assert Sector(disk, l) == Sector(v, l);
      }
    }
    SameSectors(v, w);
  }

  datatype Request = ReadAt(offset: nat, len: nat) | WriteAt(offset: nat, data: seq<Byte>) | Flush

  predicate Fits(r: Request, size: nat) {
    match r
    case ReadAt(offset, len) => offset + len <= size
    case WriteAt(offset, data) => offset + |data| <= size
    case Flush => true
  }

  /** What one request makes of a flat array of bytes. */
  ghost function Effect(flat: seq<Byte>, r: Request): (after: seq<Byte>)
    requires Fits(r, |flat|)
    ensures |after| == |flat|
  {
    if r.WriteAt? then Splice(flat, r.offset, r.data) else flat
  }

  /** What a flat array of bytes answers to one request. */
  ghost function Answer(flat: seq<Byte>, r: Request): seq<Byte>
    requires Fits(r, |flat|)
  {
    if r.ReadAt? then flat[r.offset..r.offset + r.len] else []
  }

  ghost predicate AllFit(rs: seq<Request>, size: nat) {
    forall i | 0 <= i < |rs| :: Fits(rs[i], size)
  }

  ghost function FlatAfter(flat: seq<Byte>, rs: seq<Request>): (after: seq<Byte>)
    requires AllFit(rs, |flat|)
    ensures |after| == |flat|
  {
    if rs == [] then flat else Effect(FlatAfter(flat, rs[..|rs| - 1]), rs[|rs| - 1])
  }

  ghost function FlatAnswers(flat: seq<Byte>, rs: seq<Request>): seq<seq<Byte>>
    requires AllFit(rs, |flat|)
  {
    if rs == [] then [] else
      FlatAnswers(flat, rs[..|rs| - 1]) + [Answer(FlatAfter(flat, rs[..|rs| - 1]), rs[|rs| - 1])]
  }

  method ServeOne(d: DiskAccess, r: Request) returns (answer: seq<Byte>)
    requires d.Valid() && Fits(r, |d.View|)
    modifies d, d.buf, d.hashTable
    ensures d.Valid() && d.View == Effect(old(d.View), r)
    ensures answer == Answer(old(d.View), r)
    ensures r.Flush? ==> d.disk == d.View
  {
    hide Splice, Indexed, Coherent, HashLba;
    match r
    case ReadAt(offset, len) =>
      var buffer := new Byte[len];
      ghost var blank := buffer[..];
      var n := d.ReadBytes(offset, buffer, 0, len);
      SpliceWhole(blank, d.View[offset..offset + len]);
      answer := buffer[..];
    case WriteAt(offset, data) =>
      d.WriteBytes(offset, data);
      answer := [];
    case Flush =>
      d.FlushAll();
      answer := [];
  }

  /** Every run of reads, writes and flushes answers as the flat array does, and a flush makes the disk that array. */
  method Serve(d: DiskAccess, rs: seq<Request>) returns (answers: seq<seq<Byte>>)
    requires d.Valid() && AllFit(rs, |d.View|)
    modifies d, d.buf, d.hashTable
    ensures d.Valid() && d.View == FlatAfter(old(d.View), rs)
    ensures answers == FlatAnswers(old(d.View), rs)
    ensures rs != [] && rs[|rs| - 1].Flush? ==> d.disk == FlatAfter(old(d.View), rs)
  {
    hide Effect, Answer, Fits;
    ghost var v := d.View;
    answers := [];
    for i := 0 to |rs|
      invariant d.Valid() && d.View == FlatAfter(v, rs[..i])
      invariant answers == FlatAnswers(v, rs[..i])
      invariant i > 0 && rs[i - 1].Flush? ==> d.disk == d.View
    {
      assert rs[..i + 1][..i] == rs[..i];
      var answer := ServeOne(d, rs[i]);
      answers := answers + [answer];
    }
    assert rs[..|rs|] == rs;
  }
}
