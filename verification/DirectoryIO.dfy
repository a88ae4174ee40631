/** filesys/directory.c: the loops over the slots of a directory on disk. */
module DirectoryIO {
  import opened Disk
  import opened InodeIO
  import opened Directory

  ghost predicate IsDirectory(e: Extent, sectors: seq<Sector>) { e.length == DIR_SIZE && OnDevice(e, sectors) }

  ghost function On(e: Extent, sectors: seq<Sector>): (r: seq<Entry>)
    requires IsDirectory(e, sectors)
    ensures |r| == ROOT_ENTRIES
  {
    Entries(Contents(e, sectors))
  }

  /** inode_read_at for the entry in slot K. */
  method ReadSlot(device: Device, e: Extent, k: nat, bounce: bool) returns (ok: bool, raw: seq<Byte>)
    requires IsDirectory(e, device.sectors) && k <= ROOT_ENTRIES
    ensures ok == (bounce && k < ROOT_ENTRIES) && |raw| == ENTRY_SIZE
    ensures ok ==> EntryOf(raw) == On(e, device.sectors)[k]
  {
    var buffer := new Byte[ENTRY_SIZE](_ => 0);
    SlotTransfer(e, k, bounce);
    var n := ReadAt(device, e, buffer, ENTRY_SIZE, ENTRY_SIZE * k, bounce);
    ok, raw := n == ENTRY_SIZE, buffer[..];
    if ok {
      assert raw == Contents(e, device.sectors)[ENTRY_SIZE * k..ENTRY_SIZE * k + ENTRY_SIZE];
    }
  }

  /** lookup */
  method Lookup(device: Device, e: Extent, name: seq<Byte>, stop: nat) returns (k: nat, raw: seq<Byte>)
    requires IsDirectory(e, device.sectors)
    ensures k == Find(On(e, device.sectors), name, stop) && |raw| == ENTRY_SIZE
    ensures k < stop && k < ROOT_ENTRIES ==> EntryOf(raw) == On(e, device.sectors)[k]
  {
    ghost var es := On(e, device.sectors);
    k := 0;
    var ok;
    ok, raw := ReadSlot(device, e, 0, 0 != stop);
    assert es[0..] == es;
    while ok
      invariant k <= ROOT_ENTRIES && k <= stop && |raw| == ENTRY_SIZE && ok == (k != stop && k < ROOT_ENTRIES)
      invariant ok ==> EntryOf(raw) == es[k]
      invariant Find(es, name, stop) == k + Find(es[k..], name, stop - k)
      decreases ROOT_ENTRIES - k
    {
      if Named(EntryOf(raw), name) {
        return;
      }
      assert es[k..][1..] == es[k + 1..];
      k := k + 1;
      ok, raw := ReadSlot(device, e, k, k != stop);
    }
  }

  /** dir_add's search for a free slot. */
  method FindFree(device: Device, e: Extent, stop: nat) returns (k: nat, raw: seq<Byte>)
    requires IsDirectory(e, device.sectors)
    ensures k == FreeSlot(On(e, device.sectors), stop) && |raw| == ENTRY_SIZE
  {
    ghost var es := On(e, device.sectors);
    k := 0;
    var ok;
    ok, raw := ReadSlot(device, e, 0, 0 != stop);
    assert es[0..] == es;
    while ok
      invariant k <= ROOT_ENTRIES && k <= stop && |raw| == ENTRY_SIZE && ok == (k != stop && k < ROOT_ENTRIES)
      invariant ok ==> EntryOf(raw) == es[k]
      invariant FreeSlot(es, stop) == k + FreeSlot(es[k..], stop - k)
      decreases ROOT_ENTRIES - k
    {
      if !EntryOf(raw).inUse {
        return;
      }
      assert es[k..][1..] == es[k + 1..];
      k := k + 1;
      ok, raw := ReadSlot(device, e, k, k != stop);
    }
  }

  /** inode_write_at for the entry in slot K. */
  method WriteSlot(device: Device, e: Extent, denied: nat, k: nat, raw: seq<Byte>, bounce: bool) returns (ok: bool)
    requires IsDirectory(e, device.sectors) && k <= ROOT_ENTRIES && |raw| == ENTRY_SIZE
    modifies device
    ensures ok == (denied == 0 && bounce && k < ROOT_ENTRIES) && |device.sectors| == |old(device.sectors)|
    ensures !ok ==> device.sectors == old(device.sectors)
    ensures ok ==> Position(e, ENTRY_SIZE * k) + ENTRY_SIZE <= |Flat(old(device.sectors))|
                   && Flat(device.sectors) == Spliced(Flat(old(device.sectors)), Position(e, ENTRY_SIZE * k), raw)
  {
    SlotTransfer(e, k, bounce);
    var n := WriteAt(device, e, denied, raw, ENTRY_SIZE, ENTRY_SIZE * k, bounce);
    ok := n == ENTRY_SIZE;
    assert raw[..ENTRY_SIZE] == raw;
  }
}
