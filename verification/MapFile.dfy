/** The free map's file: bitmap_read and bitmap_write over inode.c. */
module MapFile {
  import opened Bits
  import opened Bitmap
  import opened Disk
  import opened InodeIO
  import opened Directory
  import opened Ownership
  import opened DiskState

  // ---- words and bytes ----

  /** The memory of an array of words. */
  function Image(words: seq<nat>): (b: seq<Byte>)
    requires forall i | 0 <= i < |words| :: words[i] < 0x1_0000_0000
    ensures |b| == 4 * |words|
  {
    seq(4 * |words|, i requires 0 <= i < 4 * |words| => WordBytes(words[i / 4])[i % 4])
  }

  function WordAt(b: seq<Byte>, i: nat): nat
    requires 4 * i + 4 <= |b|
  {
    Word(b[4 * i..4 * i + 4])
  }

  lemma ImageWord(words: seq<nat>, i: nat)
    requires (forall i | 0 <= i < |words| :: words[i] < 0x1_0000_0000) && i < |words|
    ensures WordAt(Image(words), i) == words[i]
  {
    var b := Image(words);
    forall j | 0 <= j < 4 ensures b[4 * i..4 * i + 4][j] == WordBytes(words[i])[j] {
      assert (4 * i + j) / 4 == i && (4 * i + j) % 4 == j;
    }
    assert b[4 * i..4 * i + 4] == WordBytes(words[i]);
  }

  /** The N bits in the bytes of a file. */
  ghost function BitsOf(b: seq<Byte>, n: nat): seq<bool>
    requires |b| == FileSize(n)
  {
    seq(n, i requires 0 <= i < n => Bit(WordAt(b, i / 32), i % 32))
  }

  /** The map as the file at E has it. */
  ghost function Stored(sectors: seq<Sector>, e: Extent, n: nat): (r: seq<bool>)
    requires OnDevice(e, sectors) && e.length == FileSize(n)
    ensures |r| == n
  {
    BitsOf(Contents(e, sectors), n)
  }

  /** A transfer of the whole file succeeds with memory for a bounce buffer, or without if the
      file ends on a sector boundary. */
  predicate Moves(n: nat, bounce: bool) { bounce || FileSize(n) % SECTOR_SIZE == 0 }

  lemma WholeTransfer(e: Extent, n: nat, bounce: bool)
    requires e.length == FileSize(n)
    ensures Transferred(e, FileSize(n), 0, bounce) == FileSize(n) <==> Moves(n, bounce)
  {
  }

  // ---- bitmap_write ----

  /** Success leaves the map in the file; in any case nothing else changes. */
  method WriteMap(device: Device, freeMap: Bitmap, e: Extent, denied: nat, bounce: bool) returns (ok: bool)
    requires freeMap.Valid() && OnDevice(e, device.sectors)
    requires FREE_MAP_SECTOR < |device.sectors| && e == HeaderAt(device.sectors, FREE_MAP_SECTOR)
    modifies device
    ensures OnlyDataOf(old(device.sectors), device.sectors, FREE_MAP_SECTOR)
    ensures e.length == FileSize(freeMap.bitCnt) && denied == 0 ==> (ok <==> Moves(freeMap.bitCnt, bounce))
    ensures e.length == FileSize(freeMap.bitCnt) && ok ==> Stored(device.sectors, e, freeMap.bitCnt) == freeMap.Bools()
  {
    hide Contents, Transferred, Stored, Spliced;
    Pow2Words();
    var image := Image(freeMap.bits[..]);
    var n := WriteAt(device, e, denied, image, |image|, 0, bounce);
    ok := n == |image|;
    if n > 0 {
      OnlyExtentWritten(e, old(device.sectors), device.sectors, 0, image[..n]);
    }
    if e.length == FileSize(freeMap.bitCnt) {
      WholeTransfer(e, freeMap.bitCnt, bounce);
      if ok && freeMap.bitCnt > 0 {
        assert image[..n] == image;
        Written(e, old(device.sectors), device.sectors, freeMap.bits[..], freeMap.bitCnt);
        assert Stored(device.sectors, e, freeMap.bitCnt) == freeMap.Bools();
      }
    }
  }

  /** A file overwritten with the image of WORDS holds their bits. */
  lemma Written(e: Extent, before: seq<Sector>, after: seq<Sector>, words: seq<nat>, n: nat)
    requires OnDevice(e, before) && |after| == |before| && forall i | 0 <= i < |words| :: words[i] < 0x1_0000_0000
    requires n > 0 && |words| == (n + 31) / 32 && e.length == FileSize(n) && Position(e, 0) + e.length <= |Flat(before)|
    requires Flat(after) == Spliced(Flat(before), Position(e, 0), Image(words))
    ensures var r := Stored(after, e, n); forall i | 0 <= i < n :: r[i] == Bit(words[i / 32], i % 32)
  {
    hide Spliced, Image;
    var image := Image(words);
    FileUpdated(e, before, after, 0, image);
    assert |Contents(e, after)| == |image|;
    assert Contents(e, after) == Contents(e, after)[0..0 + |image|];
    forall i | 0 <= i < n ensures Stored(after, e, n)[i] == Bit(words[i / 32], i % 32) { ImageWord(words, i / 32); }
  }

  // ---- bitmap_read ----

  /** Success leaves the file's bits in the map, and clear bits after them. */
  method ReadMap(device: Device, freeMap: Bitmap, e: Extent, bounce: bool) returns (ok: bool)
    requires freeMap.Valid() && OnDevice(e, device.sectors)
    modifies freeMap.bits
    ensures freeMap.Valid()
    ensures freeMap.bitCnt > 0 ==> SpareClear(freeMap.bits[freeMap.bits.Length - 1], freeMap.bitCnt)
    ensures e.length == FileSize(freeMap.bitCnt) ==> (ok <==> Moves(freeMap.bitCnt, bounce))
    ensures e.length == FileSize(freeMap.bitCnt) && ok ==> freeMap.Bools() == Stored(device.sectors, e, freeMap.bitCnt)
  {
    hide Flat, Contents, Transferred, Stored, Spliced, Image, BitsOf, WordAt, LastMask;
    Pow2Words();
    ok := true;
    if freeMap.bitCnt > 0 {
      var memory := Image(freeMap.bits[..]);
      var buffer := new Byte[|memory|](i requires 0 <= i < |memory| => memory[i]);
      assert buffer[..] == memory;
      var n := ReadAt(device, e, buffer, buffer.Length, 0, bounce);
      ok := n == buffer.Length;
      SetWords(freeMap, buffer[..]);
      freeMap.MaskLast();
      if e.length == FileSize(freeMap.bitCnt) {
        WholeTransfer(e, freeMap.bitCnt, bounce);
        if ok { WholeRead(e, device.sectors, memory, buffer[..], freeMap.bitCnt); }
      }
    }
  }

  /** The bytes B are the memory of the map's words. */
  method SetWords(freeMap: Bitmap, b: seq<Byte>)
    requires freeMap.Valid() && |b| == FileSize(freeMap.bitCnt)
    modifies freeMap.bits
    ensures freeMap.Valid() && freeMap.Bools() == BitsOf(b, freeMap.bitCnt)
  {
    Pow2Words();
    for i := 0 to freeMap.bits.Length
      invariant freeMap.Valid() && forall j | 0 <= j < i :: freeMap.bits[j] == WordAt(b, j)
    {
      freeMap.bits[i] := WordAt(b, i);
    }
  }

  lemma WholeRead(e: Extent, sectors: seq<Sector>, before: seq<Byte>, after: seq<Byte>, n: nat)
    requires OnDevice(e, sectors) && |before| == e.length == FileSize(n)
    requires after == Spliced(before, 0, Contents(e, sectors)[0..0 + e.length])
    ensures |after| == FileSize(n) && BitsOf(after, n) == Stored(sectors, e, n)
  {
    assert after == Contents(e, sectors);
  }

  lemma OnlyExtentWritten(e: Extent, before: seq<Sector>, after: seq<Sector>, offset: nat, data: seq<Byte>)
    requires OnDevice(e, before) && |after| == |before| && offset + |data| <= e.length
             && Position(e, offset) + |data| <= |Flat(before)|
    requires Flat(after) == Spliced(Flat(before), Position(e, offset), data)
    ensures forall k | 0 <= k < |before| && !InData(e, k) :: after[k] == before[k]
  {
    forall k | 0 <= k < |before| && !InData(e, k) ensures after[k] == before[k] {
      OtherSectorKept(e, before, after, offset, data, k);
    }
  }

}
