/**
 The floppy driver's transfers: any byte range is moved through a 4096-byte DMA buffer, at most 8 sectors and never past
 the end of a track at a time, and a write that does not cover its sectors reads them first. The controller may fail.
 */
module FloppyDriver {
  import opened Bytes
  import opened Collections

  const SECTORS_PER_TRACK: nat := 18
  const SECTOR_SIZE: nat := 512
  const DMA_SIZE: nat := 0x1000

  datatype ChsGeometry = ChsGeometry(cylinder: nat, head: nat, sector: nat)

  datatype IoError = FileHandleInvalid | FileSystemError
  datatype IoResult = Ok(count: nat) | Err(error: IoError)

  function FromLba(lba: nat): ChsGeometry {
    var sectorsPerCylinder := 2 * SECTORS_PER_TRACK;
    var cylinderOffset := lba % sectorsPerCylinder;
    ChsGeometry(lba / sectorsPerCylinder, cylinderOffset / SECTORS_PER_TRACK, cylinderOffset % SECTORS_PER_TRACK + 1)
  }

  /** The sector that the controller finds at a cylinder, head and sector. */
  function ToLba(c: ChsGeometry): int {
    (c.cylinder * 2 + c.head) * SECTORS_PER_TRACK + c.sector - 1
  }

  predicate OnDisk(c: ChsGeometry) {
    c.head < 2 && 1 <= c.sector <= SECTORS_PER_TRACK
  }

  /** The two numberings are inverse to each other, so no two sectors share a position. */
  lemma ChsRoundTrip(lba: nat, c: ChsGeometry)
    ensures OnDisk(FromLba(lba)) && ToLba(FromLba(lba)) == lba
    ensures var at := FromLba(lba); lba == at.cylinder * 36 + at.head * 18 + (at.sector - 1)
    ensures OnDisk(c) ==> ToLba(c) >= 0 && FromLba(ToLba(c)) == c
  {
  }

  /** The sectors of one transfer for `remaining` bytes from `position` on. */
  function SectorCount(position: nat, remaining: nat): nat
    requires remaining > 0
  {
    var firstSector := position / SECTOR_SIZE;
    var lastSector := (position + remaining - 1) / SECTOR_SIZE;
    Min(Min(lastSector - firstSector + 1, DMA_SIZE / SECTOR_SIZE), SECTORS_PER_TRACK + 1 - FromLba(firstSector).sector)
  }

  function CopyLength(position: nat, remaining: nat): nat
    requires remaining > 0
  {
    Min(remaining, SectorCount(position, remaining) * SECTOR_SIZE - position % SECTOR_SIZE)
  }

  /** A transfer moves something, fits the DMA buffer and the track, and stays below `size`. */
  lemma TransferFits(position: nat, remaining: nat, size: nat)
    requires remaining > 0 && position + remaining <= size && size % SECTOR_SIZE == 0
    ensures 1 <= SectorCount(position, remaining) <= 8 && 0 < CopyLength(position, remaining) <= remaining
    ensures FromLba(position / SECTOR_SIZE).sector + SectorCount(position, remaining) - 1 <= SECTORS_PER_TRACK
    ensures (position / SECTOR_SIZE + SectorCount(position, remaining)) * SECTOR_SIZE <= size
    ensures position % SECTOR_SIZE + CopyLength(position, remaining) <= SectorCount(position, remaining) * SECTOR_SIZE
    ensures position == position / SECTOR_SIZE * SECTOR_SIZE + position % SECTOR_SIZE
  {
  }

  /** A transfer that starts and ends on sector boundaries covers all its sectors. */
  lemma WholeSectors(position: nat, remaining: nat)
    requires remaining > 0 && position % SECTOR_SIZE == 0 && CopyLength(position, remaining) % SECTOR_SIZE == 0
    ensures CopyLength(position, remaining) == SectorCount(position, remaining) * SECTOR_SIZE
  {
  }

  /** Changing part of a slice and storing the slice back changes just that part. */
  lemma ReadModifyWrite(disk: seq<Byte>, at: nat, n: nat, off: nat, d: seq<Byte>)
    requires at + n <= |disk| && off + |d| <= n
    ensures Splice(disk, at, Splice(disk[at..at + n], off, d)) == Splice(disk, at + off, d)
  {
    SpliceAt(disk[at..at + n], off, d);
    SpliceAt(disk, at, Splice(disk[at..at + n], off, d));
    SpliceAt(disk, at + off, d);
  }

  /** What a transfer from the DMA buffer does to the disk, when the buffer held the sectors or the data covers them. */
  lemma ChunkStored(disk: seq<Byte>, at: nat, n: nat, off: nat, d: seq<Byte>, dma: seq<Byte>)
    requires at + n <= |disk| && n <= |dma| && off + |d| <= n
    requires dma[..n] == disk[at..at + n] || (off == 0 && |d| == n)
    ensures Splice(disk, at, Splice(dma, off, d)[..n]) == Splice(disk, at + off, d)
  {
    hide Splice;
    SpliceSlice(dma, off, d, 0, n);
    if off == 0 && |d| == n {
      SpliceWhole(dma[..n], d);
    } else {
      ReadModifyWrite(disk, at, n, off, d);
    }
  }

  class Floppy {
    var disks: seq<seq<Byte>>
    var openInstances: map<nat, nat>
    const dma: array<Byte>
    /** How many more transfers the controller carries out before it fails. */
    var healthy: nat

    ghost predicate Valid()
      reads this
    {
      && |disks| == 2 && dma.Length == DMA_SIZE
      && (forall d | 0 <= d < 2 ::
            |disks[d]| % SECTOR_SIZE == 0 && |disks[d]| <= 256 * 2 * SECTORS_PER_TRACK * SECTOR_SIZE)
      && forall i | i in openInstances :: openInstances[i] < 2
    }

    /** What the hardware asks of a transfer: sectors of one track, inside the disk and the DMA buffer. */
    ghost predicate Transferable(drive: nat, chs: ChsGeometry, count: nat)
      reads this
    {
      && drive < 2 == |disks| && OnDisk(chs) && chs.cylinder < 256 && 1 <= count
      && count * SECTOR_SIZE <= DMA_SIZE == dma.Length
      && chs.sector + count - 1 <= SECTORS_PER_TRACK
      && 0 <= ToLba(chs) && (ToLba(chs) + count) * SECTOR_SIZE <= |disks[drive]|
    }

    method ReadSectors(drive: nat, chs: ChsGeometry, count: nat) returns (ok: bool)
      requires Transferable(drive, chs, count)
      modifies dma, this`healthy
      ensures ok <==> old(healthy) > 0
      ensures healthy == if ok then old(healthy) - 1 else old(healthy)
      ensures !ok ==> dma[..] == old(dma[..])
      ensures var (lo, hi) := (ToLba(chs) * SECTOR_SIZE, (ToLba(chs) + count) * SECTOR_SIZE);
              ok ==> dma[..] == Splice(old(dma[..]), 0, disks[drive][lo..hi])
    {
      if healthy == 0 {
        return false;
      }
      healthy := healthy - 1;
      Blit(dma, 0, disks[drive][ToLba(chs) * SECTOR_SIZE..(ToLba(chs) + count) * SECTOR_SIZE]);
      ok := true;
    }

    method WriteSectors(drive: nat, chs: ChsGeometry, count: nat) returns (ok: bool)
      requires Transferable(drive, chs, count)
      modifies this`disks, this`healthy
      ensures ok <==> old(healthy) > 0
      ensures healthy == if ok then old(healthy) - 1 else old(healthy)
      ensures !ok ==> disks == old(disks)
      ensures var stored := dma[..count * SECTOR_SIZE];
              ok ==> disks == old(disks)[drive := Splice(old(disks)[drive], ToLba(chs) * SECTOR_SIZE, stored)]
    {
      if healthy == 0 {
        return false;
      }
      healthy := healthy - 1;
      disks := disks[drive := Splice(disks[drive], ToLba(chs) * SECTOR_SIZE, dma[..count * SECTOR_SIZE])];
      ok := true;
    }

    lemma CanTransfer(drive: nat, position: nat, remaining: nat)
      requires Valid() && drive < 2 && remaining > 0 && position + remaining <= |disks[drive]|
      ensures Transferable(drive, FromLba(position / SECTOR_SIZE), SectorCount(position, remaining))
      ensures ToLba(FromLba(position / SECTOR_SIZE)) == position / SECTOR_SIZE
    {
      TransferFits(position, remaining, |disks[drive]|);
      ChsRoundTrip(position / SECTOR_SIZE, FromLba(0));
    }

    /** One transfer from the disk: the bytes from `position` on that it brings. */
    method FetchChunk(drive: nat, position: nat, remaining: nat) returns (ok: bool, chunk: seq<Byte>)
      requires Valid() && drive < 2 && remaining > 0 && position + remaining <= |disks[drive]|
      modifies dma, this`healthy
      ensures ok <==> old(healthy) > 0
      ensures healthy == if ok then old(healthy) - 1 else old(healthy)
      ensures ok ==> |chunk| == CopyLength(position, remaining) <= remaining
      ensures ok ==> chunk == disks[drive][position..position + |chunk|]
    {
      hide SectorCount, CopyLength, FromLba, ToLba, Splice;
      var firstSector := position / SECTOR_SIZE;
      var readOffset := position % SECTOR_SIZE;
      var sectorCount := SectorCount(position, remaining);
      TransferFits(position, remaining, |disks[drive]|);
      CanTransfer(drive, position, remaining);
      ok := ReadSectors(drive, FromLba(firstSector), sectorCount);
      if !ok {
        return false, [];
      }
      var copyLen := CopyLength(position, remaining);
      chunk := dma[readOffset..readOffset + copyLen];
      ghost var lo, hi := firstSector * SECTOR_SIZE, (firstSector + sectorCount) * SECTOR_SIZE;
      SpliceSlice(old(dma[..]), 0, disks[drive][lo..hi], readOffset, readOffset + copyLen);
      SubSlice(disks[drive], lo, hi, readOffset, copyLen);
    }

    /**
     Fills the buffer with the disk's bytes from `offset` on; if the controller fails, just the first `got` of them. It
     fails only with the controller, and every transfer brings some bytes.
     */
    method ReadBlocks(instance: nat, buffer: array<Byte>, offset: nat) returns (r: IoResult, ghost got: nat)
      requires Valid() && buffer != dma
      requires instance in openInstances ==> offset + buffer.Length <= |disks[openInstances[instance]]|
      modifies buffer, dma, this`healthy
      ensures Valid() && got <= buffer.Length
      ensures buffer.Length == 0 ==> r == Ok(0)
      ensures buffer.Length > 0 ==> (r == Err(FileHandleInvalid) <==> instance !in openInstances)
      ensures r.Ok? ==> r.count == got == buffer.Length
      ensures r.Err? ==> got < buffer.Length
      ensures (r == Err(FileSystemError) ==> healthy == 0) && old(healthy) <= healthy + got
      ensures instance !in openInstances ==> got == 0 && buffer[..] == old(buffer[..])
      ensures instance in openInstances ==>
                buffer[..] == Splice(old(buffer[..]), 0, disks[openInstances[instance]][offset..offset + got])
    {
      hide CopyLength, SectorCount, FromLba, Splice;
      got := 0;
      SpliceNothing(buffer[..], 0);
      if instance in openInstances {
        assert disks[openInstances[instance]][offset..offset + 0] == [];
      }
      if buffer.Length == 0 {
        return Ok(0), 0;
      }
      if instance !in openInstances {
        return Err(FileHandleInvalid), 0;
      }
      var drive := openInstances[instance];
      var bufOffset, position := 0, offset;
      var total := buffer.Length;
      while bufOffset < total
        invariant Valid() && 0 <= bufOffset == got <= total && position == offset + bufOffset
        invariant old(healthy) <= healthy + got
        invariant buffer[..] == Splice(old(buffer[..]), 0, disks[drive][offset..offset + bufOffset])
      {
        TransferFits(position, total - bufOffset, |disks[drive]|);
        var ok, chunk := FetchChunk(drive, position, total - bufOffset);
        if !ok {
          return Err(FileSystemError), got;
        }
        SpliceMore(old(buffer[..]), 0, disks[drive], offset, bufOffset, |chunk|);
        Blit(buffer, bufOffset, chunk);
        bufOffset := bufOffset + |chunk|;
        position := position + |chunk|;
        got := bufOffset;
      }
      return Ok(total), got;
    }

    /** One transfer to the disk. Sectors that the data does not cover are read first. */
    method StoreChunk(drive: nat, position: nat, data: seq<Byte>) returns (ok: bool, copyLen: nat)
      requires Valid() && drive < 2 && data != [] && position + |data| <= |disks[drive]|
      modifies dma, this`healthy, this`disks
      ensures copyLen == CopyLength(position, |data|) && 0 < copyLen <= |data|
      ensures !ok ==> healthy == 0 && old(healthy) <= 1
      ensures old(healthy) <= healthy + 2
      ensures !ok ==> disks == old(disks)
      ensures ok ==> disks == old(disks)[drive := Splice(old(disks)[drive], position, data[..copyLen])]
    {
      TransferFits(position, |data|, |disks[drive]|);
      CanTransfer(drive, position, |data|);
      hide SectorCount, CopyLength, FromLba, ToLba, Splice;
      var chs := FromLba(position / SECTOR_SIZE);
      var writeOffset := position % SECTOR_SIZE;
      var sectorCount := SectorCount(position, |data|);
      ghost var at, n, disk := position / SECTOR_SIZE * SECTOR_SIZE, sectorCount * SECTOR_SIZE, disks[drive];
      copyLen := CopyLength(position, |data|);
      if writeOffset != 0 || copyLen % SECTOR_SIZE != 0 {
        ok := ReadSectors(drive, chs, sectorCount);
        if !ok {
          return false, copyLen;
        }
        SpliceSlice(old(dma[..]), 0, disk[at..at + n], 0, n);
      } else {
        WholeSectors(position, |data|);
      }
      ChunkStored(disk, at, n, writeOffset, data[..copyLen], dma[..]);
      Blit(dma, writeOffset, data[..copyLen]);
      ok := WriteSectors(drive, chs, sectorCount);
    }

    /**
     Overwrites the disk's bytes from `offset` on with the data; if the controller fails, with the first `put` bytes
     of it.
     */
    method WriteBlocks(instance: nat, data: seq<Byte>, offset: nat) returns (r: IoResult, ghost put: nat)
      requires Valid()
      requires instance in openInstances ==> offset + |data| <= |disks[openInstances[instance]]|
      modifies dma, this`healthy, this`disks
      ensures Valid() && put <= |data|
      ensures data == [] ==> r == Ok(0)
      ensures data != [] ==> (r == Err(FileHandleInvalid) <==> instance !in openInstances)
      ensures r.Ok? ==> r.count == put == |data|
      ensures r.Err? ==> put < |data|
      ensures (r == Err(FileSystemError) ==> healthy == 0) && old(healthy) <= healthy + 2 * put + 1
      ensures instance !in openInstances ==> disks == old(disks)
      ensures instance in openInstances ==>
                var drive := openInstances[instance];
                disks == old(disks)[drive := Splice(old(disks)[drive], offset, data[..put])]
    {
      hide CopyLength, Splice, SectorCount, FromLba;
      put := 0;
      if instance in openInstances {
        SpliceNothing(disks[openInstances[instance]], offset);
      }
      if data == [] {
        return Ok(0), 0;
      }
      if instance !in openInstances {
        return Err(FileHandleInvalid), 0;
      }
      var drive := openInstances[instance];
      var bufOffset, position := 0, offset;
      var total := |data|;
      while bufOffset < total
        invariant Valid() && 0 <= bufOffset == put <= total && position == offset + bufOffset
        invariant old(healthy) <= healthy + 2 * put
        invariant disks == old(disks)[drive := Splice(old(disks)[drive], offset, data[..bufOffset])]
      {
        var rest := data[bufOffset..];
        var ok, copyLen := StoreChunk(drive, position, rest);
        if !ok {
          return Err(FileSystemError), put;
        }
        assert rest[..copyLen] == data[bufOffset..bufOffset + copyLen];
        SpliceMore(old(disks)[drive], offset, data, 0, bufOffset, copyLen);
        bufOffset := bufOffset + copyLen;
        position := position + copyLen;
        put := bufOffset;
      }
      return Ok(total), put;
    }
  }
}
