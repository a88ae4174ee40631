/** filesys/inode.c, inode_read_at and inode_write_at: transfers in sector-sized chunks
    against the device seen as one flat array of bytes. */
module InodeIO {
  import opened Disk

  /** The header fields that locate a file's data. */
  datatype Extent = Extent(start: nat, length: nat)

  /** bytes_to_sectors */
  function Sectors(length: nat): nat { (length + SECTOR_SIZE - 1) / SECTOR_SIZE }

  predicate OnDevice(e: Extent, sectors: seq<Sector>) { e.start + Sectors(e.length) <= |sectors| }

  // ---- the flat view ----

  function Flat(sectors: seq<Sector>): seq<Byte> {
    seq(SECTOR_SIZE * |sectors|,
        i requires 0 <= i < SECTOR_SIZE * |sectors| => sectors[i / SECTOR_SIZE][i % SECTOR_SIZE])
  }

  /** The bytes of BASE, with DATA over those from POS on. */
  function Spliced(base: seq<Byte>, pos: nat, data: seq<Byte>): seq<Byte>
    requires pos + |data| <= |base|
  {
    seq(|base|, i requires 0 <= i < |base| => if pos <= i < pos + |data| then data[i - pos] else base[i])
  }

  /** Where byte OFFSET of a file lies on the device. */
  function Position(e: Extent, offset: nat): nat { SECTOR_SIZE * e.start + offset }

  /** The file's bytes. */
  function Contents(e: Extent, sectors: seq<Sector>): seq<Byte>
    requires OnDevice(e, sectors)
  {
    Flat(sectors)[Position(e, 0)..Position(e, e.length)]
  }

  /** Bytes that a request of SIZE bytes at OFFSET covers, clipped to the file. */
  function Clipped(e: Extent, size: int, offset: nat): nat {
    if size <= 0 || e.length <= offset then 0 else if size < e.length - offset then size else e.length - offset
  }

  /** Bytes transferred. Without memory for a bounce buffer only whole, aligned sectors are. */
  function Transferred(e: Extent, size: int, offset: nat, bounce: bool): nat {
    if bounce then Clipped(e, size, offset)
    else if offset % SECTOR_SIZE == 0 then Clipped(e, size, offset) / SECTOR_SIZE * SECTOR_SIZE
    else 0
  }

  // ---- chunks ----

  /** chunk_size: what is left of the request, the file and the sector. */
  function Chunk(e: Extent, size: int, offset: nat): int {
    var inodeLeft, sectorLeft := e.length - offset, SECTOR_SIZE - offset % SECTOR_SIZE;
    var minLeft := if inodeLeft < sectorLeft then inodeLeft else sectorLeft;
    if size < minLeft then size else minLeft
  }

  predicate WholeSector(e: Extent, size: int, offset: nat) {
    offset % SECTOR_SIZE == 0 && Chunk(e, size, offset) == SECTOR_SIZE
  }

  /** bytes_to_sectors gives the least number of sectors that is enough. */
  lemma SectorsLeast(length: nat, k: nat)
    ensures Sectors(length) <= k <==> length <= SECTOR_SIZE * k
  {
  }

  /** As much as was asked for and is there is transferred; without memory for a bounce buffer, the
      whole sectors of it. */
  lemma TransferredExactly(e: Extent, size: int, offset: nat, k: nat)
    ensures k <= Transferred(e, size, offset, true) <==> k == 0 || (k <= size && offset + k <= e.length)
    ensures var all, n := Transferred(e, size, offset, true), Transferred(e, size, offset, false);
            && n % SECTOR_SIZE == 0 && n <= all
            && if offset % SECTOR_SIZE == 0 then all < n + SECTOR_SIZE else n == 0
  {
  }

  /** One round of the loop: the totals for the rest of the request. */
  lemma ChunkStep(e: Extent, size: int, offset: nat, bounce: bool)
    requires size > 0 && Chunk(e, size, offset) > 0
    ensures var c := Chunk(e, size, offset);
            && c <= SECTOR_SIZE - offset % SECTOR_SIZE && offset + c <= e.length
            && (bounce || WholeSector(e, size, offset) ==>
                    Transferred(e, size, offset, bounce) == c + Transferred(e, size - c, offset + c, bounce))
            && (!bounce && !WholeSector(e, size, offset) ==> Transferred(e, size, offset, bounce) == 0)
  {
  }

  lemma LastChunk(e: Extent, size: int, offset: nat, bounce: bool)
    requires size <= 0 || Chunk(e, size, offset) <= 0
    ensures Transferred(e, size, offset, bounce) == 0
  {
  }

  /** The branch of inode_write_at that starts from a sector of zeros is never taken: a chunk
      that covers its whole sector has already gone to the direct write. */
  lemma ZeroFillUnreachable(e: Extent, size: int, offset: nat)
    requires size > 0 && Chunk(e, size, offset) > 0 && !WholeSector(e, size, offset)
    ensures offset % SECTOR_SIZE > 0 || Chunk(e, size, offset) < SECTOR_SIZE - offset % SECTOR_SIZE
  {
  }

  /** A chunk lies in one sector of the file, which is on the device. */
  lemma ChunkSector(e: Extent, sectors: seq<Sector>, offset: nat, c: nat)
    requires OnDevice(e, sectors) && 0 < c <= SECTOR_SIZE - offset % SECTOR_SIZE && offset + c <= e.length
    ensures var s := e.start + offset / SECTOR_SIZE;
            && s < |sectors|
            && SECTOR_SIZE * s + offset % SECTOR_SIZE == Position(e, offset)
            && Position(e, offset) + c <= |Flat(sectors)|
            && Flat(sectors)[Position(e, offset)..Position(e, offset) + c] ==
                  sectors[s][offset % SECTOR_SIZE..offset % SECTOR_SIZE + c]
  {
    var s, o := e.start + offset / SECTOR_SIZE, offset % SECTOR_SIZE;
    assert s < |sectors|;
    var x, y := Flat(sectors)[Position(e, offset)..Position(e, offset) + c], sectors[s][o..o + c];
    forall i | 0 <= i < c ensures x[i] == y[i] {
      assert (SECTOR_SIZE * s + (o + i)) / SECTOR_SIZE == s && (SECTOR_SIZE * s + (o + i)) % SECTOR_SIZE == o + i;
    }
  }

  /** Rewriting part of one sector. */
  lemma SectorPatched(sectors: seq<Sector>, s: nat, ofs: nat, data: seq<Byte>, patched: Sector)
    requires s < |sectors| && ofs + |data| <= SECTOR_SIZE && patched == Spliced(sectors[s], ofs, data)
    ensures SECTOR_SIZE * s + ofs + |data| <= |Flat(sectors)|
    ensures Flat(sectors[s := patched]) == Spliced(Flat(sectors), SECTOR_SIZE * s + ofs, data)
  {
    var x, y := Flat(sectors[s := patched]), Spliced(Flat(sectors), SECTOR_SIZE * s + ofs, data);
    forall i | 0 <= i < |x| ensures x[i] == y[i] {
      if i / SECTOR_SIZE == s {
        assert i == SECTOR_SIZE * s + i % SECTOR_SIZE;
      }
    }
  }

  lemma SplicedOn(base: seq<Byte>, pos: nat, a: seq<Byte>, b: seq<Byte>)
    requires pos + |a| + |b| <= |base|
    ensures Spliced(Spliced(base, pos, a), pos + |a|, b) == Spliced(base, pos, a + b)
  {
  }

  lemma NextPart(was: seq<Byte>, file: seq<Byte>, offset: nat, at: nat, chunk: nat)
    requires offset <= at && at + chunk <= |file| && at + chunk - offset <= |was|
    ensures Spliced(Spliced(was, 0, file[offset..at]), at - offset, file[at..at + chunk]) ==
              Spliced(was, 0, file[offset..at + chunk])
    ensures at == offset ==> Spliced(was, 0, file[offset..at]) == was
  {
    SplicedOn(was, 0, file[offset..at], file[at..at + chunk]);
    assert file[offset..at] + file[at..at + chunk] == file[offset..at + chunk];
  }

  // ---- what a write means for files ----

  /** The file written to is updated as a flat array of bytes... */
  lemma FileUpdated(e: Extent, before: seq<Sector>, after: seq<Sector>, offset: nat, data: seq<Byte>)
    requires OnDevice(e, before) && |after| == |before| && offset + |data| <= e.length
             && Position(e, offset) + |data| <= |Flat(before)|
    requires Flat(after) == Spliced(Flat(before), Position(e, offset), data)
    ensures Contents(e, after) == Spliced(Contents(e, before), offset, data)
    ensures Contents(e, after)[offset..offset + |data|] == data
  {
  }

  /** ... and every sector outside its extent is as it was. */
  lemma OtherSectorKept(e: Extent, before: seq<Sector>, after: seq<Sector>, offset: nat, data: seq<Byte>, s: nat)
    requires OnDevice(e, before) && |after| == |before| && offset + |data| <= e.length
             && Position(e, offset) + |data| <= |Flat(before)|
    requires Flat(after) == Spliced(Flat(before), Position(e, offset), data)
    requires s < |before| && !(e.start <= s < e.start + Sectors(e.length))
    ensures after[s] == before[s]
  {
    var x, y := Flat(after), Flat(before);
    forall o | 0 <= o < SECTOR_SIZE ensures after[s][o] == before[s][o] {
      var i := SECTOR_SIZE * s + o;
      assert i / SECTOR_SIZE == s && i % SECTOR_SIZE == o;
      assert x[i] == y[i];
    }
  }

  // ---- the two transfers ----

  lemma SliceOfSlice(s: seq<Byte>, a: nat, b: nat, c: nat, d: nat)
    requires a <= b <= |s| && c <= d <= b - a
    ensures s[a..b][c..d] == s[a + c..a + d]
  {
    var x, y := s[a..b][c..d], s[a + c..a + d];
    assert |x| == |y| && forall k | 0 <= k < |x| :: x[k] == y[k];
  }

  /** One chunk into the caller's buffer. */
  method ReadChunk(device: Device, e: Extent, buffer: array<Byte>, pos: nat, at: nat, chunk: nat)
    requires OnDevice(e, device.sectors) && 0 < chunk <= SECTOR_SIZE - at % SECTOR_SIZE && at + chunk <= e.length
             && pos + chunk <= buffer.Length
    modifies buffer
    ensures buffer[..] == Spliced(old(buffer[..]), pos, Contents(e, device.sectors)[at..at + chunk])
  {
    ChunkSector(e, device.sectors, at, chunk);
    var ofs := at % SECTOR_SIZE;
    var data := device.Read(e.start + at / SECTOR_SIZE);
    SliceOfSlice(Flat(device.sectors), Position(e, 0), Position(e, e.length), at, at + chunk);
    assert Contents(e, device.sectors)[at..at + chunk] == data[ofs..ofs + chunk];
    CopyInto(buffer, pos, data[ofs..ofs + chunk]);
  }

  /** memcpy */
  method CopyInto(buffer: array<Byte>, pos: nat, data: seq<Byte>)
    requires pos + |data| <= buffer.Length
    modifies buffer
    ensures buffer[..] == Spliced(old(buffer[..]), pos, data)
  {
    forall i | 0 <= i < |data| { buffer[pos + i] := data[i]; }
  }

  /** inode_read_at; BOUNCE tells whether memory for the bounce buffer can be had. */
  method ReadAt(device: Device, e: Extent, buffer: array<Byte>, size: int, offset: nat, bounce: bool) returns (n: nat)
    requires OnDevice(e, device.sectors) && size <= buffer.Length
    modifies buffer
    ensures n == Transferred(e, size, offset, bounce) <= buffer.Length && (n > 0 ==> offset + n <= e.length)
    ensures n == 0 ==> buffer[..] == old(buffer[..])
    ensures n > 0 ==> buffer[..] == Spliced(old(buffer[..]), 0, Contents(e, device.sectors)[offset..offset + n])
  {
    ghost var file, was := Contents(e, device.sectors), buffer[..];
    var left, at := size, offset;
    n := 0;
    while left > 0
      invariant left == size - n && at == offset + n && n <= buffer.Length && (n > 0 ==> at <= e.length)
      invariant n + Transferred(e, left, at, bounce) == Transferred(e, size, offset, bounce)
      invariant n == 0 ==> buffer[..] == was
      invariant n > 0 ==> buffer[..] == Spliced(was, 0, file[offset..at])
      decreases left
    {
      var chunk := Chunk(e, left, at);
      if chunk <= 0 {
        LastChunk(e, left, at, bounce);
        break;
      }
      ChunkStep(e, left, at, bounce);
      if !WholeSector(e, left, at) && !bounce {
        break;
      }
      ReadChunk(device, e, buffer, n, at, chunk);
      NextPart(was, file, offset, at, chunk);
      left, at, n := left - chunk, at + chunk, n + chunk;
    }
  }

  /** One chunk onto the device: directly when it is a whole sector, otherwise through the
      bounce buffer. */
  method WriteChunk(device: Device, e: Extent, data: seq<Byte>, left: int, at: nat)
    requires OnDevice(e, device.sectors) && left > 0 && 0 < |data| == Chunk(e, left, at)
    modifies device
    ensures |device.sectors| == |old(device.sectors)| && Position(e, at) + |data| <= |Flat(device.sectors)|
    ensures Flat(device.sectors) == Spliced(Flat(old(device.sectors)), Position(e, at), data)
  {
    ChunkStep(e, left, at, true);
    ChunkSector(e, device.sectors, at, |data|);
    var sector, ofs := e.start + at / SECTOR_SIZE, at % SECTOR_SIZE;
    var patched;
    if WholeSector(e, left, at) {
      patched := data;
    } else {
      ZeroFillUnreachable(e, left, at);
      patched := device.Read(sector);
      patched := Spliced(patched, ofs, data);
    }
    SectorPatched(device.sectors, sector, ofs, data, patched);
    device.Write(sector, patched);
  }

  /** inode_write_at; DENIED is deny_write_cnt. */
  method WriteAt(device: Device, e: Extent, denied: nat, buffer: seq<Byte>, size: int, offset: nat, bounce: bool)
    returns (n: nat)
    requires OnDevice(e, device.sectors) && size <= |buffer|
    modifies device
    ensures |device.sectors| == |old(device.sectors)|
    ensures n == (if denied > 0 then 0 else Transferred(e, size, offset, bounce)) <= |buffer|
    ensures n == 0 ==> device.sectors == old(device.sectors)
    ensures n > 0 ==> offset + n <= e.length && Position(e, offset) + n <= |Flat(device.sectors)|
    ensures n > 0 ==> Flat(device.sectors) == Spliced(Flat(old(device.sectors)), Position(e, offset), buffer[..n])
  {
    hide Clipped, Spliced;
    n := 0;
    if denied > 0 {
      return;
    }
    ghost var was := Flat(device.sectors);
    var left, at := size, offset;
    while left > 0
      invariant |device.sectors| == |old(device.sectors)|
      invariant left == size - n && at == offset + n && n <= |buffer|
                && (n > 0 ==> at <= e.length && Position(e, at) <= |was|)
      invariant n + Transferred(e, left, at, bounce) == Transferred(e, size, offset, bounce)
      invariant n == 0 ==> device.sectors == old(device.sectors)
      invariant n > 0 ==> Flat(device.sectors) == Spliced(was, Position(e, offset), buffer[..n])
      decreases left
    {
      var chunk := Chunk(e, left, at);
      if chunk <= 0 {
        LastChunk(e, left, at, bounce);
        break;
      }
      ChunkStep(e, left, at, bounce);
      if !WholeSector(e, left, at) && !bounce {
        break;
      }
      WriteChunk(device, e, buffer[n..n + chunk], left, at);
      SplicedOn(was, Position(e, offset), buffer[..n], buffer[n..n + chunk]);
      assert buffer[..n] + buffer[n..n + chunk] == buffer[..n + chunk];
      left, at, n := left - chunk, at + chunk, n + chunk;
    }
    if left <= 0 { LastChunk(e, left, at, bounce); }
  }
}
