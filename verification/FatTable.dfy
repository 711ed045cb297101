/** The FAT12 allocation table: 12-bit entries packed in pairs, in one or more copies on the disk. */
module FatTable {
  import opened Bytes
  import opened DiskCache

  const END_OF_CHAIN: nat := 0xFFF
  /** One past the last cluster number the driver ever looks at. */
  const CLUSTER_CAP: nat := 4085

  datatype BiosParamBlock = BiosParamBlock(
    sectorsPerCluster: nat,
    reservedSectors: nat,
    fatCount: nat,
    rootDirectoryEntries: nat,
    sectorsPerFat: nat)
  {
    function FirstRootDirectorySector(): nat {
      reservedSectors + fatCount * sectorsPerFat
    }

    function RootDirectorySize(): nat {
      rootDirectoryEntries * 32
    }
  }

  datatype AllocationTable = AllocationTable(
    tableStart: nat,
    sectorsPerCluster: nat,
    bytesPerFat: nat,
    fatCount: nat,
    firstClusterLocation: nat)
  {
    static function FromBpb(bpb: BiosParamBlock): AllocationTable {
      AllocationTable(
        bpb.reservedSectors * SECTOR,
        bpb.sectorsPerCluster,
        bpb.sectorsPerFat * SECTOR,
        bpb.fatCount,
        bpb.FirstRootDirectorySector() * SECTOR + bpb.RootDirectorySize())
    }

    function BytesPerCluster(): nat {
      sectorsPerCluster * SECTOR
    }

    function ClusterLocation(cluster: nat): nat
      requires 2 <= cluster
    {
      firstClusterLocation + BytesPerCluster() * (cluster - 2)
    }

    function FatStart(k: nat): nat {
      tableStart + k * bytesPerFat
    }

    function FatEnd(): nat {
      FatStart(fatCount)
    }

    /** A volume of `size` bytes whose clusters are 2, ..., limit - 1 and whose regions lie one after the other. */
    ghost predicate Lays(limit: nat, size: nat) {
      && 1 <= fatCount && 1 <= sectorsPerCluster && 2 <= limit <= CLUSTER_CAP
      && FatBytes(limit) <= bytesPerFat
      && FatEnd() <= firstClusterLocation
      && firstClusterLocation + BytesPerCluster() * (limit - 2) <= size
    }
  }

  /** The tables, the root directory and the clusters follow each other in that order, without gaps. */
  lemma RegionsFollow(bpb: BiosParamBlock, limit: nat, size: nat)
    ensures var t := AllocationTable.FromBpb(bpb);
            && t.FatStart(0) == bpb.reservedSectors * SECTOR
            && t.FatEnd() == bpb.FirstRootDirectorySector() * SECTOR
            && t.firstClusterLocation == t.FatEnd() + bpb.rootDirectoryEntries * 32
            && t.BytesPerCluster() == bpb.sectorsPerCluster * 512
            && (forall x: nat | 2 <= x ::
                  t.ClusterLocation(x) == t.firstClusterLocation + (x - 2) * (bpb.sectorsPerCluster * 512))
            && t.FatEnd() == (bpb.reservedSectors + bpb.fatCount * bpb.sectorsPerFat) * 512
            && (t.Lays(limit, size) <==>
                && 1 <= bpb.fatCount && 1 <= bpb.sectorsPerCluster && 2 <= limit <= CLUSTER_CAP
                && FatBytes(limit) <= bpb.sectorsPerFat * SECTOR
                && t.firstClusterLocation + t.BytesPerCluster() * (limit - 2) <= size)
  {
    var a, b := bpb.fatCount, bpb.sectorsPerFat;
    assert a * (b * SECTOR) == a * b * SECTOR;
  }

  // ---- twelve bits at a time ----

  /** Bytes that `n` entries take up. */
  function FatBytes(n: nat): nat {
    (n + 1) / 2 * 3
  }

  /** The 24-bit little-endian value of a pair of entries. */
  function PairValue(b: seq<Byte>): (p: nat)
    requires |b| == 3
    ensures p < 0x100_0000
  {
    b[0] as int + b[1] as int * 0x100 + b[2] as int * 0x1_0000
  }

  function PairBytes(p: nat): (b: seq<Byte>)
    ensures |b| == 3
  {
    [p % 0x100, p / 0x100 % 0x100, p / 0x1_0000 % 0x100]
  }

  /** The entry of an even cluster is the low half of its pair, that of an odd one the high half. */
  function Half(p: nat, cluster: nat): (e: nat) {
    if cluster % 2 == 0 then p % 0x1000 else p / 0x1000
  }

  function WithHalf(p: nat, cluster: nat, value: nat): (q: nat)
    requires value < 0x1000 && p < 0x100_0000
    ensures q < 0x100_0000
  {
    if cluster % 2 == 0 then p / 0x1000 * 0x1000 + value else p % 0x1000 + value * 0x1000
  }

  lemma PairRoundTrip(p: nat)
    requires p < 0x100_0000
    ensures PairValue(PairBytes(p)) == p
  {
  }

  /** Storing one half gives it back and leaves the other half alone. */
  lemma HalfRoundTrip(p: nat, cluster: nat, value: nat, other: nat)
    requires value < 0x1000 && p < 0x100_0000
    ensures Half(WithHalf(p, cluster, value), cluster) == value
    ensures other % 2 != cluster % 2 ==> Half(WithHalf(p, cluster, value), other) == Half(p, other)
  {
  }

  function PairOffset(cluster: nat): nat {
    cluster / 2 * 3
  }

  /** The entry of `cluster` in the table copy that starts at byte `start`. */
  function Entry(view: seq<Byte>, start: nat, cluster: nat): (e: nat)
    requires start + PairOffset(cluster) + 3 <= |view|
    ensures e < 0x1000
  {
    var at := start + PairOffset(cluster);
    Half(PairValue(view[at..at + 3]), cluster)
  }

  /** The first `n` entries of that copy. */
  function Fat(view: seq<Byte>, start: nat, n: nat): (fat: seq<nat>)
    requires start + FatBytes(n) <= |view|
    ensures |fat| == n
    ensures forall c: nat | c < n :: fat[c] == Entry(view, start, c)
  {
    seq(n, c requires 0 <= c < n => Entry(view, start, c))
  }

  /** The bootloader decodes an entry from two bytes; it reads the same value from every image. */
  function Fat12Next(view: seq<Byte>, start: nat, cluster: nat): (e: nat)
    requires start + PairOffset(cluster) + 3 <= |view|
  {
    var offset := cluster * 3 / 2;
    var raw := view[start + offset] as int + view[start + offset + 1] as int * 0x100;
    if cluster % 2 == 0 then raw % 0x1000 else raw / 0x10
  }

  /**
   The bytes of an entry: an even cluster has the first byte of its three and the low half of the second, an odd one the
   high half of the second and the third.
   */
  lemma EntryBytes(view: seq<Byte>, start: nat, cluster: nat)
    requires start + cluster / 2 * 3 + 3 <= |view|
    ensures var at := start + cluster / 2 * 3;
            var (x, y, z) := (view[at] as int, view[at + 1] as int, view[at + 2] as int);
            Entry(view, start, cluster) == if cluster % 2 == 0 then x + y % 16 * 256 else y / 16 + z * 16
  {
    var at := start + cluster / 2 * 3;
    var b := view[at..at + 3];
    assert b[0] == view[at] && b[1] == view[at + 1] && b[2] == view[at + 2];
    TwelveBits(b[0], b[1], b[2]);
  }

  lemma TwelveBits(x: Byte, y: Byte, z: Byte)
    ensures PairValue([x, y, z]) % 0x1000 == x as int + y as int % 16 * 256
    ensures PairValue([x, y, z]) / 0x1000 == y as int / 16 + z as int * 16
  {
    TwoBytes(x, y, z);
  }

  lemma BothDecodersAgree(view: seq<Byte>, start: nat, cluster: nat)
    requires start + PairOffset(cluster) + 3 <= |view|
    ensures Fat12Next(view, start, cluster) == Entry(view, start, cluster)
  {
    var at := start + PairOffset(cluster);
    var b := view[at..at + 3];
    assert b[0] == view[at] && b[1] == view[at + 1] && b[2] == view[at + 2];
    TwoBytes(b[0], b[1], b[2]);
    if cluster % 2 == 0 {
      assert cluster * 3 / 2 == PairOffset(cluster);
    } else {
      assert cluster * 3 / 2 == PairOffset(cluster) + 1;
    }
    hide PairOffset;
  }

  lemma TwoBytes(x: Byte, y: Byte, z: Byte)
    ensures (x as int + y as int * 0x100) % 0x1000 == (x as int + y as int * 0x100 + z as int * 0x1_0000) % 0x1000
    ensures (y as int + z as int * 0x100) / 0x10 == (x as int + y as int * 0x100 + z as int * 0x1_0000) / 0x1000
  {
    var low, high := x as int + y as int * 0x100, y as int + z as int * 0x100;
    assert (low + z as int * 0x10 * 0x1000) % 0x1000 == low % 0x1000;
    assert (x as int + high * 0x100) / 0x1000 == high / 0x10;
  }

  lemma PairsApart(c: nat, d: nat, n: nat)
    requires c < n
    ensures PairOffset(c) + 3 <= FatBytes(n)
    ensures if c / 2 == d / 2 then PairOffset(c) == PairOffset(d) && (c == d || c % 2 != d % 2)
            else PairOffset(c) + 3 <= PairOffset(d) || PairOffset(d) + 3 <= PairOffset(c)
  {
  }

  /** Overwriting a pair with one half replaced changes exactly one entry. */
  lemma StoreEntry(view: seq<Byte>, start: nat, n: nat, cluster: nat, value: nat)
    requires start + FatBytes(n) <= |view| && cluster < n && value < 0x1000
    ensures var at := start + PairOffset(cluster);
            var q := WithHalf(PairValue(view[at..at + 3]), cluster, value);
            Fat(Splice(view, at, PairBytes(q)), start, n) == Fat(view, start, n)[cluster := value]
  {
    var at := start + PairOffset(cluster);
    var p := PairValue(view[at..at + 3]);
    var q := WithHalf(p, cluster, value);
    hide Splice, PairValue, PairBytes, Half, WithHalf, PairOffset, FatBytes;
    PairsApart(cluster, cluster, n);
    var after := Splice(view, at, PairBytes(q));
    forall c: nat | c < n
      ensures Entry(after, start, c) == if c == cluster then value else Entry(view, start, c)
    {
      PairsApart(c, cluster, n);
      var ac := start + PairOffset(c);
      SpliceSlice(view, at, PairBytes(q), ac, ac + 3);
      if c / 2 == cluster / 2 {
        PairRoundTrip(q);
        HalfRoundTrip(p, cluster, value, c);
        assert PairBytes(q)[0..3] == PairBytes(q);
      }
    }
  }

  /** Writing outside a copy of the table leaves its entries alone. */
  lemma FatUntouched(view: seq<Byte>, at: nat, d: seq<Byte>, start: nat, n: nat)
    requires start + FatBytes(n) <= |view| && at + |d| <= |view|
    requires at + |d| <= start || start + FatBytes(n) <= at
    ensures Fat(Splice(view, at, d), start, n) == Fat(view, start, n)
  {
    hide Splice, PairValue, Half;
    forall c: nat | c < n
      ensures Entry(Splice(view, at, d), start, c) == Entry(view, start, c)
    {
      var ac := start + PairOffset(c);
      SpliceSlice(view, at, d, ac, ac + 3);
    }
  }
}
