/** Runs of the file system's operations in which promises fail, each starting from a device just
    formatted. */
module FileSysCases {
  import opened Bitmap
  import opened Common
  import opened Disk
  import opened InodeIO
  import opened Directory
  import opened Ownership
  import opened DiskState
  import opened FileSysState
  import opened MapFile
  import opened FileSys

  /** Memory for every request. */
  const MEMORY: Means := Means(true, true, true, true, true, true, true, true, true, ROOT_ENTRIES, ROOT_ENTRIES)

  /** Two more sectors than the formatted device uses. */
  predicate HasRoom(n: nat) { 5 + Sectors(FileSize(n)) <= n < 0x1_0000_0000 }

  lemma {:induction false} FirstFitExists(used: seq<bool>, k: nat)
    requires k < |used| && !used[k]
    ensures exists s: nat | s <= k :: IsFirstFit(used, 0, 1, false, Some(s))
  {
    if j: nat :| j < k && !used[j] {
      FirstFitExists(used, j);
      var s: nat :| s <= j && IsFirstFit(used, 0, 1, false, Some(s));
    } else {
      forall j: nat | j < k ensures !AllAre(used, j, 1, false) { assert used[j]; }
      assert AllAre(used, k, 1, false) && IsFirstFit(used, 0, 1, false, Some(k));
    }
  }

  /** An empty file can be had as long as a sector is free... */
  lemma RoomForEmpty(used: seq<bool>, k: nat, means: Means)
    requires k < |used| && !used[k] && means.map1 && means.map2 && means.header
    ensures Reserves(used, 0, means)
  {
    FirstFitExists(used, k);
    var s: nat :| s <= k && IsFirstFit(used, 0, 1, false, Some(s));
    assert AllAre(used, s, 1, false) && AllAre(Filled(used, s, 1, true), 0, 0, false);
    FitUnique(used, s, 0);
  }

  /** ... and one of one byte as long as two are. */
  lemma RoomForOne(used: seq<bool>, k: nat, means: Means)
    requires k + 1 < |used| && !used[k] && !used[k + 1] && means.map1 && means.map2 && means.header
    ensures Reserves(used, 1, means)
  {
    FirstFitExists(used, k);
    var s: nat :| s <= k && IsFirstFit(used, 0, 1, false, Some(s));
    assert AllAre(used, s, 1, false) && AllAre(Filled(used, s, 1, true), k + 1, 1, false);
    FitUnique(used, s, 1);
  }

  /** filesys_create fails for the empty name and keeps a sector: no name is in use, yet the free
      map is not that of a formatted device. */
  method EmptyNameLeaks(device: Device) returns (fs: FileSystem, ok: bool)
    requires HasRoom(|device.sectors|)
    modifies device
    ensures !ok && fs.Valid() && RootOk(device.sectors) && fs.device == device && forall e | e in fs.Root() :: !e.inUse
    ensures |fs.freeMap.Bools()| == |device.sectors| == |old(device.sectors)|
    ensures exists k :: 3 + Sectors(FileSize(|device.sectors|)) <= k < |device.sectors| && fs.freeMap.Bools()[k]
  {
    hide Reserves, Leaks, IsTaken, IsFound, StateOk, AllUntouched, Ordinary, Saved, Moves, KeepsNames,
         UniqueNames, Overlooked, Overwrites, Sectors, FileSize, CanList, Added, Find, FreeSlot, RootOk,
         RootEntries, Taken, IsBlank, OpenSectors;
    fs := Init(device);
    ghost var used, first := fs.freeMap.Bools(), 3 + Sectors(FileSize(|device.sectors|));
    RoomForOne(used, first, MEMORY);
    NotAName(fs.Root());
    ghost var s;
    ok, s := fs.Create([], 1, MEMORY);
    RootStands(fs.freeMap.Bools(), device.sectors, fs.Mem(), fs.loose, {});
    OneMore(used, fs.freeMap.Bools(), first);
  }

  lemma NotAName(es: seq<Entry>)
    ensures !CanList(es, [], ROOT_ENTRIES, ROOT_ENTRIES, true)
  {
  }

  lemma OneMore(used: seq<bool>, used': seq<bool>, first: nat)
    requires Leaks(used, used', 1) && forall k | 0 <= k < |used| :: used[k] <==> k < first
    ensures |used'| == |used| && exists k :: first <= k < |used| && used'[k]
  {
    var start: nat :| IsTaken(used, used', Extent(start, 1));
    assert used'[start] && !used[start];
  }

  const A: seq<Byte> := [97]
  const B: seq<Byte> := [98]

  /** The root directory of a device with one file, "a". */
  ghost predicate OnlyA(es: seq<Entry>) {
    |es| == ROOT_ENTRIES && Named(es[0], A) && forall j | 1 <= j < ROOT_ENTRIES :: !es[j].inUse
  }

  lemma FirstListed(es: seq<Entry>, s: nat)
    requires |es| == ROOT_ENTRIES && forall e | e in es :: !e.inUse
    ensures CanList(es, A, ROOT_ENTRIES, ROOT_ENTRIES, true) && OnlyA(Added(es, A, s, ROOT_ENTRIES, ROOT_ENTRIES, true))
  {
    forall j | 0 <= j < ROOT_ENTRIES ensures !es[j].inUse { assert es[j] in es; }
    assert Find(es, A, ROOT_ENTRIES) == ROOT_ENTRIES && FreeSlot(es, ROOT_ENTRIES) == 0;
  }

  /** An empty file takes one sector, so of two that were free one still is. */
  lemma OneLeft(used: seq<bool>, used': seq<bool>, sectors: seq<Sector>, s: nat, k: nat)
    requires Taken(used, used', sectors, s) && IsBlank(sectors, s, 0) && k + 1 < |used| && !used[k] && !used[k + 1]
    ensures |used'| == |used| && exists i: nat :: i < |used'| && !used'[i]
  {
    var i := if s == k then k + 1 else k;
    assert !Owns(sectors, s, i);
    assert !used'[i];
  }

  /** A file system with an empty file "a" and a free sector. */
  method OneFile(device: Device) returns (fs: FileSystem)
    requires HasRoom(|device.sectors|)
    modifies device
    ensures fs.Valid() && fs.device == device && fresh(fs) && fresh(fs.freeMap.bits) && RootOk(device.sectors)
    ensures OnlyA(fs.Root()) && exists i: nat :: i < |fs.freeMap.Bools()| && !fs.freeMap.Bools()[i]
  {
    hide Reserves, Leaks, IsFound, RootEntries, RootOk, Taken, IsBlank, Added, CanList, FreeSlot, OnlyA,
         StateOk, AllUntouched, Ordinary, Saved, Moves, KeepsNames, UniqueNames, Overlooked, Overwrites,
         Sectors, FileSize, Find, OpenSectors;
    fs := Init(device);
    ghost var used, first, es := fs.freeMap.Bools(), 3 + Sectors(FileSize(|device.sectors|)), fs.Root();
    RoomForEmpty(used, first, MEMORY);
    FirstListed(es, 0);
    var ok;
    ghost var s;
    ok, s := fs.Create(A, 0, MEMORY);
    FirstListed(es, s);
    OneLeft(used, fs.freeMap.Bools(), device.sectors, s, first);
  }

  /** When the first read of its lookup gets no memory, filesys_create lists "a" a second time. */
  method DuplicateFile(device: Device) returns (fs: FileSystem, ok: bool)
    requires HasRoom(|device.sectors|)
    modifies device
    ensures ok && fs.Valid() && fs.device == device && RootOk(device.sectors) && !UniqueNames(fs.Root())
  {
    hide Reserves, Leaks, IsFound, RootEntries, RootOk, Taken, IsBlank, Added, CanList, FreeSlot, UniqueNames,
         Overlooked, StateOk, AllUntouched, Ordinary, Saved, Moves, KeepsNames, Overwrites, Sectors, FileSize,
         Find, OpenSectors;
    fs := OneFile(device);
    ghost var used, es := fs.freeMap.Bools(), fs.Root();
    ghost var i: nat :| i < |used| && !used[i];
    RoomForEmpty(used, i, MEMORY.(stop1 := 0));
    DuplicateName(es, 1, 0);
    ghost var s;
    ok, s := fs.Create(A, 0, MEMORY.(stop1 := 0));
    DuplicateName(es, 1, s);
  }

  lemma TakesFirst(es: seq<Entry>, s: nat)
    requires OnlyA(es)
    ensures CanList(es, B, ROOT_ENTRIES, 0, true) && Overwrites(es, B, ROOT_ENTRIES, 0, true) && IsFound(es, A)
    ensures !IsFound(Added(es, B, s, ROOT_ENTRIES, 0, true), A)
  {
    forall j | 0 <= j < ROOT_ENTRIES ensures !Named(es[j], B) {}
    assert Find(es, B, ROOT_ENTRIES) == ROOT_ENTRIES && FreeSlot(es, 0) == 0;
    forall j | 0 <= j < |es| && j != 0 ensures !Named(es[j], A) {}
    NameLost(es, Added(es, B, s, ROOT_ENTRIES, 0, true), 0, B, s);
  }

  /** When the first read of its search for a free slot gets no memory, filesys_create of "b"
      succeeds at the cost of "a". */
  method LostFile(device: Device) returns (fs: FileSystem, ok: bool)
    requires HasRoom(|device.sectors|)
    modifies device
    ensures ok && fs.Valid() && fs.device == device && RootOk(device.sectors) && !IsFound(fs.Root(), A)
  {
    hide Reserves, Leaks, IsFound, RootEntries, RootOk, Taken, IsBlank, Added, CanList, FreeSlot, Overwrites,
         OnlyA, StateOk, AllUntouched, Ordinary, Saved, Moves, KeepsNames, UniqueNames, Overlooked, Sectors,
         FileSize, Find, OpenSectors;
    fs := OneFile(device);
    ghost var used, es := fs.freeMap.Bools(), fs.Root();
    ghost var i: nat :| i < |used| && !used[i];
    RoomForEmpty(used, i, MEMORY.(stop2 := 0));
    TakesFirst(es, 0);
    ghost var s;
    ok, s := fs.Create(B, 0, MEMORY.(stop2 := 0));
    TakesFirst(es, s);
  }
}
