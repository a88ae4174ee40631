/** devices/block.c seen from its users: a device is a sequence of sectors. */
module Disk {
  const SECTOR_SIZE: nat := 512

  newtype Byte = x: int | 0 <= x < 256

  type Sector = s: seq<Byte> | |s| == SECTOR_SIZE witness seq(SECTOR_SIZE, _ => 0)

  class Device {
    var sectors: seq<Sector>

    constructor (sectors: seq<Sector>)
      ensures this.sectors == sectors
    {
      this.sectors := sectors;
    }

    /** block_read */
    method Read(i: nat) returns (data: Sector)
      requires i < |sectors|
      ensures data == sectors[i]
    {
      data := sectors[i];
    }

    /** block_write */
    method Write(i: nat, data: Sector)
      requires i < |sectors|
      modifies this
      ensures sectors == old(sectors)[i := data]
    {
      sectors := sectors[i := data];
    }
  }
}
