/** filesys/filesys.c over inode.c, free-map.c, directory.c and file.c.
    Whether a request for memory succeeds is a parameter of each operation. */
module FileSys {
  import opened Disk
  import opened Bitmap
  import opened Common
  import opened InodeIO
  import opened Directory
  import opened DirectoryIO
  import opened Ownership
  import opened InodeTable
  import opened DiskState
  import opened FileSysState
  import opened MapFile

  const ZEROS: Sector := seq(SECTOR_SIZE, _ => 0)

  /** Which of an operation's requests for memory succeed: for the in-memory inode of the root
      directory and struct dir, for another in-memory inode, for struct file, for the buffer of a
      new header, for the bounce buffers of the writes of the free map and of a directory slot.
      Loops over directory slots get memory up to the slot numbered stop1 or stop2. */
  datatype Means = Means(dirInode: bool, dir: bool, inode: bool, file: bool, header: bool, map1: bool, map2: bool,
        map3: bool, slot: bool, stop1: nat, stop2: nat)

  /** Lengths whose sectors bytes_to_sectors can count in an int. */
  const MAX_SIZE: nat := 0x8000_0000 - (SECTOR_SIZE - 1)

  // ---- inode.c against the device alone ----

  /** inode_create's loop */
  method ZeroOut(device: Device, start: nat, n: nat)
    requires start + n <= |device.sectors|
    modifies device
    ensures |device.sectors| == |old(device.sectors)|
    ensures forall k | 0 <= k < |device.sectors| ::
              device.sectors[k] == if start <= k < start + n then ZEROS else old(device.sectors)[k]
  {
    for i := 0 to n
      invariant |device.sectors| == |old(device.sectors)|
      invariant forall k | 0 <= k < |device.sectors| ::
                  device.sectors[k] == if start <= k < start + i then ZEROS else old(device.sectors)[k]
    {
      device.Write(start + i, ZEROS);
    }
  }

  /** inode_create's writes: the header, then the data. */
  method WriteInode(device: Device, s: nat, e: Extent)
    requires s < |device.sectors| && OnDevice(e, device.sectors) && !InData(e, s) && e.start < 0x1_0000_0000
             && e.length < 0x8000_0000
    modifies device
    ensures |device.sectors| == |old(device.sectors)| && HeaderAt(device.sectors, s) == e
    ensures forall k: nat | k < |device.sectors| && k != s && !InData(e, k) ::
              device.sectors[k] == old(device.sectors)[k]
    ensures forall k: nat | InData(e, k) :: device.sectors[k] == ZEROS
  {
    device.Write(s, HeaderSector(e));
    ZeroOut(device, e.start, Sectors(e.length));
  }

  // ---- formatting ----

  /** The disk after do_format: the free map's file from sector 2 on, then the root directory. */
  lemma Formatted(used: seq<bool>, sectors: seq<Sector>, n: nat)
    requires |used| == |sectors| && n == Sectors(FileSize(|sectors|)) && 3 + n <= |sectors|
    requires forall k | 0 <= k < |used| :: used[k] <==> k < 3 + n
    requires HeaderAt(sectors, FREE_MAP_SECTOR) == Extent(2, FileSize(|sectors|))
             && HeaderAt(sectors, ROOT_DIR_SECTOR) == Extent(2 + n, DIR_SIZE)
    requires sectors[2 + n] == ZEROS
    ensures DiskOk(used, sectors, FirstInode(sectors), {}) && forall e | e in RootEntries(sectors) :: !e.inUse
  {
    assert Located(sectors, FREE_MAP_SECTOR) && Located(sectors, ROOT_DIR_SECTOR);
    var e := HeaderAt(sectors, ROOT_DIR_SECTOR);
    var dir := Contents(e, sectors);
    forall j | 0 <= j < DIR_SIZE ensures dir[j] == 0 {
      assert Position(e, j) / SECTOR_SIZE == 2 + n;
    }
    var es := RootEntries(sectors);
    forall j | 0 <= j < |es| ensures !es[j].inUse {
      assert dir[ENTRY_SIZE * j..ENTRY_SIZE * j + ENTRY_SIZE][19] == 0;
    }
    FormattedSafe(used, sectors, n);
    assert Listed(es) == {};
    var inodes := FirstInode(sectors);
    forall s | s in OpenSectors(inodes) ensures s == FREE_MAP_SECTOR {}
    FewerLive(used, sectors, {FREE_MAP_SECTOR, ROOT_DIR_SECTOR}, Live(es, inodes) + {});
  }

  lemma FormattedSafe(used: seq<bool>, sectors: seq<Sector>, n: nat)
    requires |used| == |sectors| && n == Sectors(FileSize(|sectors|)) && 3 + n <= |sectors|
    requires forall k | 0 <= k < |used| :: used[k] <==> k < 3 + n
    requires HeaderAt(sectors, FREE_MAP_SECTOR) == Extent(2, FileSize(|sectors|))
             && HeaderAt(sectors, ROOT_DIR_SECTOR) == Extent(2 + n, DIR_SIZE)
    ensures Safe(used, sectors, {FREE_MAP_SECTOR, ROOT_DIR_SECTOR})
  {
    assert Sectors(DIR_SIZE) == 1;
  }

  /** The least free range, when the sectors before M are taken and the others free. */
  lemma FirstFree(used: seq<bool>, m: nat, n: nat, r: Option<nat>)
    requires m + n <= |used| && n > 0 && (forall k | 0 <= k < |used| :: used[k] <==> k < m)
             && IsFirstFit(used, 0, n, false, r)
    ensures r == Some(m)
  {
    assert AllAre(used, m, n, false);
    forall j: nat | j < m ensures !AllAre(used, j, n, false) { assert used[j]; }
  }

  /** The scan of free_map_allocate when the sectors before M are taken and the others free. */
  method TakeFirst(freeMap: Bitmap, n: nat, ghost m: nat) returns (start: nat)
    requires freeMap.Valid() && n > 0 && m + n <= freeMap.bitCnt
             && forall k | 0 <= k < freeMap.bitCnt :: freeMap.Bools()[k] <==> k < m
    modifies freeMap.bits
    ensures freeMap.Valid() && start == m && forall k | 0 <= k < freeMap.bitCnt :: freeMap.Bools()[k] <==> k < m + n
  {
    ghost var used := freeMap.Bools();
    var r := freeMap.ScanAndFlip(0, n, false);
    FirstFree(used, m, n, r);
    start := r.value;
  }

  /** free_map_init and free_map_create */
  method FormatMap(device: Device, freeMap: Bitmap) returns (n: nat)
    requires freeMap.Valid() && freeMap.bitCnt == |device.sectors| < 0x1_0000_0000
             && forall k | 0 <= k < freeMap.bitCnt :: !freeMap.Bools()[k]
    requires 3 + Sectors(FileSize(|device.sectors|)) <= |device.sectors|
    modifies device, freeMap.bits
    ensures freeMap.Valid() && |device.sectors| == |old(device.sectors)| && n == Sectors(FileSize(|device.sectors|))
    ensures forall k | 0 <= k < freeMap.bitCnt :: freeMap.Bools()[k] <==> k < 2 + n
    ensures HeaderAt(device.sectors, FREE_MAP_SECTOR) == Extent(2, FileSize(|device.sectors|))
  {
    hide Flat, Stored, HeaderOf, Contents, OnlyDataOf;
    n := Sectors(FileSize(|device.sectors|));
    freeMap.Mark(FREE_MAP_SECTOR);
    freeMap.Mark(ROOT_DIR_SECTOR);
    var start := TakeFirst(freeMap, n, 2);
    var e := Extent(start, FileSize(|device.sectors|));
    device.Write(FREE_MAP_SECTOR, HeaderSector(e));
    ZeroOut(device, start, n);
    ghost var sectors := device.sectors;
    var ok := WriteMap(device, freeMap, e, 0, true);
    MapHeaderKept(sectors, device.sectors);
  }

  lemma MapHeaderKept(sectors: seq<Sector>, sectors': seq<Sector>)
    requires OnlyDataOf(sectors, sectors', FREE_MAP_SECTOR) && HeaderAt(sectors, FREE_MAP_SECTOR).start > 0
    ensures |sectors'| == |sectors| && HeaderAt(sectors', FREE_MAP_SECTOR) == HeaderAt(sectors, FREE_MAP_SECTOR)
  {
  }

  /** The root directory is written outside the map's file, which comes first. */
  lemma MapAside(sectors: seq<Sector>, sectors': seq<Sector>, n: nat)
    requires |sectors'| == |sectors| && 3 + n <= |sectors|
    requires var e := HeaderAt(sectors, FREE_MAP_SECTOR); e.start == 2 && Sectors(e.length) == n
    requires forall k | 0 <= k < |sectors| && k != ROOT_DIR_SECTOR && k != 2 + n :: sectors'[k] == sectors[k]
    ensures Untouched(sectors, sectors', FREE_MAP_SECTOR)
    ensures HeaderAt(sectors', FREE_MAP_SECTOR) == HeaderAt(sectors, FREE_MAP_SECTOR)
  {
    hide HeaderOf, Sectors;
  }

  /** do_format */
  method Format(device: Device, freeMap: Bitmap)
    requires freeMap.Valid() && freeMap.bitCnt == |device.sectors| < 0x1_0000_0000
             && forall k | 0 <= k < freeMap.bitCnt :: !freeMap.Bools()[k]
    requires 3 + Sectors(FileSize(|device.sectors|)) <= |device.sectors|
    modifies device, freeMap.bits
    ensures freeMap.Valid() && |device.sectors| == |old(device.sectors)|
    ensures var n := Sectors(FileSize(|device.sectors|));
            && (forall k | 0 <= k < freeMap.bitCnt :: freeMap.Bools()[k] <==> k < 3 + n)
            && HeaderAt(device.sectors, FREE_MAP_SECTOR) == Extent(2, FileSize(|device.sectors|))
            && HeaderAt(device.sectors, ROOT_DIR_SECTOR) == Extent(2 + n, DIR_SIZE)
            && device.sectors[2 + n] == ZEROS
    ensures Saved(device.sectors, freeMap.Bools())
  {
    hide Flat, Stored, HeaderOf, Contents, OnlyDataOf, Untouched;
    var n := FormatMap(device, freeMap);
    var e := Extent(2, FileSize(|device.sectors|));
    var start := TakeFirst(freeMap, 1, 2 + n);
    ghost var formatted := device.sectors;
    var ok := WriteMap(device, freeMap, e, 0, true);
    ghost var sectors := device.sectors;
    MapHeaderKept(formatted, sectors);
    device.Write(ROOT_DIR_SECTOR, HeaderSector(Extent(start, DIR_SIZE)));
    ZeroOut(device, start, 1);
    MapAside(sectors, device.sectors, n);
    SavedKept(sectors, device.sectors, freeMap.Bools());
  }

  lemma FirstState(used: seq<bool>, sectors: seq<Sector>)
    requires |used| == |sectors| < 0x1_0000_0000 && FREE_MAP_SECTOR < |sectors|
             && DiskOk(used, sectors, FirstInode(sectors), {})
    requires HeaderAt(sectors, FREE_MAP_SECTOR).length == FileSize(|sectors|)
    ensures StateOk(used, sectors, Memory(FirstInode(sectors), [1], map[], 1, 2), multiset{1}, {})
  {
    hide DiskOk;
    assert Openers(map[], 1) == {} && Deniers(map[], 1) == {};
  }

  /** list_remove, seen on the sequence. */
  method Without(s: seq<nat>, x: nat) returns (r: seq<nat>)
    requires Distinct(s)
    ensures Distinct(r) && forall y :: y in r <==> y in s && y != x
  {
    r := [];
    for k := 0 to |s|
      invariant Distinct(r) && forall y :: y in r <==> y in s[..k] && y != x
    {
      assert s[k] !in s[..k];
      if s[k] != x {
        r := r + [s[k]];
      }
    }
  }

  /** N bytes of the file at POS are now at the front of the buffer. */
  ghost predicate IsRead(e: Extent, sectors: seq<Sector>, pos: nat, size: int, bounce: bool, before: seq<Byte>,
                         after: seq<Byte>, n: nat) {
    && OnDevice(e, sectors) && n == Transferred(e, size, pos, bounce) <= |before|
    && if n == 0 then after == before
       else pos + n <= e.length && after == Spliced(before, 0, Contents(e, sectors)[pos..pos + n])
  }

  /** The first N bytes of DATA are now in the file at POS; none while somebody denies writes. */
  ghost predicate IsWrite(e: Extent, deniers: set<nat>, before: seq<Sector>, after: seq<Sector>, pos: nat,
                          data: seq<Byte>, size: int, bounce: bool, n: nat) {
    && OnDevice(e, before) && |after| == |before|
    && n == (if deniers != {} then 0 else Transferred(e, size, pos, bounce)) <= |data|
    && if n == 0 then after == before
       else pos + n <= e.length && Contents(e, after) == Spliced(Contents(e, before), pos, data[..n])
  }

  /** What was written is what a later read of the same place finds. */
  lemma WrittenIsRead(e: Extent, deniers: set<nat>, before: seq<Sector>, after: seq<Sector>, pos: nat, data: seq<Byte>,
                      size: int, bounce: bool, n: nat, was: seq<Byte>, got: seq<Byte>, m: nat)
    requires IsWrite(e, deniers, before, after, pos, data, size, bounce, n) && n > 0
    requires IsRead(e, after, pos, n, true, was, got, m)
    ensures m == n && n <= |got| && got[..n] == data[..n]
  {
    var file := Spliced(Contents(e, before), pos, data[..n]);
    assert file[pos..pos + n] == data[..n];
  }

  ghost predicate OthersSame(inodes: map<nat, Inode>, i: nat, before: seq<Sector>, after: seq<Sector>) {
    forall j | j in inodes && j != i ::
      OnDevice(inodes[j].data, before) && OnDevice(inodes[j].data, after)
             && Contents(inodes[j].data, after) == Contents(inodes[j].data, before)
  }

  /** The inode in sector S is that of a file of LENGTH bytes, all zero. */
  ghost predicate IsBlank(sectors: seq<Sector>, s: nat, length: nat) {
    && s < |sectors| && OnDevice(HeaderAt(sectors, s), sectors) && HeaderAt(sectors, s).length == length
    && forall k: nat | InData(HeaderAt(sectors, s), k) :: AllZero(sectors[k])
  }

  predicate AllZero(s: Sector) { forall o | 0 <= o < SECTOR_SIZE :: s[o] == 0 }

  /** Such a file reads as zeros. */
  lemma BlankReadsZeros(sectors: seq<Sector>, s: nat, length: nat, i: nat)
    requires IsBlank(sectors, s, length) && i < length
    ensures Contents(HeaderAt(sectors, s), sectors)[i] == 0
  {
    var e := HeaderAt(sectors, s);
    var k := Position(e, i) / SECTOR_SIZE;
    assert InData(e, k);
    assert Contents(e, sectors)[i] == sectors[k][Position(e, i) % SECTOR_SIZE];
  }

  /** It stays so as long as what it owns does. */
  lemma BlankKept(sectors: seq<Sector>, sectors': seq<Sector>, s: nat, length: nat)
    requires IsBlank(sectors, s, length) && Untouched(sectors, sectors', s)
    ensures IsBlank(sectors', s, length) && HeaderAt(sectors', s) == HeaderAt(sectors, s)
  {
    assert Owns(sectors, s, s);
    forall k: nat | InData(HeaderAt(sectors, s), k) ensures AllZero(sectors'[k]) { assert Owns(sectors, s, k); }
  }

  /** ... has been marked, and was not before. */
  ghost predicate Taken(used: seq<bool>, used': seq<bool>, sectors: seq<Sector>, s: nat) {
    Freed(used', used, sectors, s) && forall k: nat | k < |used| && Owns(sectors, s, k) :: used'[k]
  }

  /** Giving up a reference to INODE: the last one to a removed inode frees its sectors. */
  ghost predicate Released(inode: Inode, used: seq<bool>, used': seq<bool>, sectors: seq<Sector>,
                           sectors': seq<Sector>) {
    if inode.removed && inode.openCnt == 1 then Freed(used, used', sectors, inode.sector)
    else used' == used && sectors' == sectors
  }

  /** Removing the name of the inode in sector S frees its sectors, unless it is open. */
  ghost predicate Unlinked(s: nat, inodes: map<nat, Inode>, used: seq<bool>, used': seq<bool>, sectors: seq<Sector>) {
    if s in OpenSectors(inodes) then used' == used else Freed(used, used', sectors, s)
  }

  /** First fit finds a sector for a header and then N more for data. */
  ghost predicate RoomFor(used: seq<bool>, n: nat) {
    exists s: nat :: IsFirstFit(used, 0, 1, false, Some(s)) && !NoRoom(Filled(used, s, 1, true), n)
  }

  /** filesys_create gets as far as dir_add. */
  ghost predicate Reserves(used: seq<bool>, size: nat, means: Means) {
    Moves(|used|, means.map1) && means.header && Moves(|used|, means.map2) && RoomFor(used, Sectors(size))
  }

  /** The name is found and its inode can be opened. */
  ghost predicate Opens(es: seq<Entry>, inodes: map<nat, Inode>, name: seq<Byte>, stop: nat, mem: bool) {
    var k := Find(es, name, stop);
    k < |es| && k < stop && (mem || es[k].sector in OpenSectors(inodes))
  }

  /** The data of a new inode at E have been marked. */
  ghost predicate IsTaken(used: seq<bool>, used': seq<bool>, e: Extent) {
    && AllAre(used, e.start, Sectors(e.length), false)
    && used' == Filled(used, e.start, Sectors(e.length), true)
  }

  /** A failed filesys_create has left the sectors of SIZE bytes marked, which were free. */
  ghost predicate Leaks(used: seq<bool>, used': seq<bool>, size: nat) {
    exists start: nat :: IsTaken(used, used', Extent(start, size))
  }

  /** Every name that was found is found. */
  ghost predicate KeepsNames(es: seq<Entry>, es': seq<Entry>) {
    forall name :: IsFound(es, name) ==> IsFound(es', name)
  }

  /** inode_create succeeds. */
  ghost predicate Made(used: seq<bool>, size: nat, means: Means) {
    means.header && Moves(|used|, means.map2) && !NoRoom(used, Sectors(size))
  }

  predicate AllMove(n: nat, means: Means) { Moves(n, means.map1) && Moves(n, means.map2) && Moves(n, means.map3) }

  /** Sector S has been unmarked; if there are data at E, they have been marked. */
  ghost predicate GaveBack(used: seq<bool>, used': seq<bool>, s: nat, e: Extent, made: bool) {
    && s < |used| && (made ==> AllAre(used, e.start, Sectors(e.length), false))
    && used' == Filled(if made then Filled(used, e.start, Sectors(e.length), true) else used, s, 1, false)
  }

  lemma NoFirst(used: seq<bool>, n: nat)
    requires NoRoom(used, 1)
    ensures !RoomFor(used, n)
  {
  }

  /** A sector for the header and those for the data. */
  lemma BothTaken(used: seq<bool>, s: nat, e: Extent, used': seq<bool>, sectors: seq<Sector>)
    requires s < |used| && !used[s] && s < |sectors| && HeaderAt(sectors, s) == e
    requires IsTaken(Filled(used, s, 1, true), used', e)
    ensures Taken(used, used', sectors, s)
  {
    hide HeaderOf, Sectors;
    var marked := Filled(used, s, 1, true);
    forall k: nat | k < |used|
      ensures used[k] == (used'[k] && !Owns(sectors, s, k)) && (Owns(sectors, s, k) ==> used'[k])
    {
      assert used'[k] == if InData(e, k) then true else marked[k];
      assert InData(e, k) ==> !marked[k];
    }
  }

  /** Giving back the header's sector makes up for everything only if there are no data. */
  lemma Leaked(used: seq<bool>, s: nat, e: Extent, used': seq<bool>, made: bool)
    requires s < |used| && !used[s] && GaveBack(Filled(used, s, 1, true), used', s, e, made)
    ensures used' == used <==> !(made && e.length > 0)
    ensures made ==> IsTaken(used, used', e)
  {
    hide Sectors;
    var marked := Filled(used, s, 1, true);
    assert Filled(marked, s, 1, false) == used;
    if made {
      assert Sectors(e.length) > 0 <==> e.length > 0 by { SomeSectors(e.length); }
      StillFree(used, s, e);
      assert used' == Filled(used, e.start, Sectors(e.length), true);
      if e.length > 0 {
        assert used'[e.start] && !used[e.start];
      } else {
        assert used' == used;
      }
    }
  }

  lemma SomeSectors(length: nat)
    ensures Sectors(length) > 0 <==> length > 0
  {
  }

  /** The data's sectors were free before the header's was marked. */
  lemma StillFree(used: seq<bool>, s: nat, e: Extent)
    requires s < |used| && !used[s] && AllAre(Filled(used, s, 1, true), e.start, Sectors(e.length), false)
    ensures AllAre(used, e.start, Sectors(e.length), false) && !InData(e, s)
  {
    hide Sectors;
    var marked := Filled(used, s, 1, true);
    forall k | e.start <= k < e.start + Sectors(e.length) ensures !used[k] && k != s { assert !marked[k]; }
  }

  lemma NamesAdded(es: seq<Entry>, name: seq<Byte>, s: nat, means: Means)
    ensures var es' := Added(es, name, s, means.stop1, means.stop2, means.slot);
            && (UniqueNames(es) ==>
                  (UniqueNames(es') <==> !Overlooked(es, name, means.stop1, means.stop2, means.slot)))
            && (KeepsNames(es, es') <==> !Overwrites(es, name, means.stop1, means.stop2, means.slot))
  {
    hide Added, Overlooked, Overwrites, UniqueNames, IsFound;
    if UniqueNames(es) { UniqueExactly(es, name, s, means.stop1, means.stop2, means.slot); }
    OverwritesExactly(es, name, s, means.stop1, means.stop2, means.slot);
  }

  lemma BlankHeader(sectors: seq<Sector>, s: nat, length: nat)
    requires IsBlank(sectors, s, length)
    ensures s < |sectors| && HeaderAt(sectors, s).length == length
  {
  }

  lemma FitUnique(used: seq<bool>, s: nat, n: nat)
    requires IsFirstFit(used, 0, 1, false, Some(s))
    ensures s < |used| && (RoomFor(used, n) <==> !NoRoom(Filled(used, s, 1, true), n))
  {
    forall t: nat | IsFirstFit(used, 0, 1, false, Some(t)) ensures t == s {}
  }

  class FileSystem {
    const device: Device
    const freeMap: Bitmap
    var inodes: map<nat, Inode>        // in-memory inodes by address
    var open: seq<nat>                 // open_inodes
    var files: map<nat, File>          // open files by address
    var mapInode: nat                  // the inode of free_map_file
    var next: nat                      // an address not handed out yet
    ghost var loose: multiset<nat>     // references that are not held by an entry of files

    ghost function Mem(): Memory
      reads this
    {
      Memory(inodes, open, files, mapInode, next)
    }

    ghost predicate Inv(reserved: set<nat>)
      reads this, device, freeMap, freeMap.bits
    {
      freeMap.Valid() && StateOk(freeMap.Bools(), device.sectors, Mem(), loose, reserved)
    }

    /** Between operations. */
    ghost predicate Valid()
      reads this, device, freeMap, freeMap.bits
    {
      Inv({}) && loose == multiset{mapInode}
    }

    ghost function Root(): seq<Entry>
      requires RootOk(device.sectors)
      reads this, device
    {
      RootEntries(device.sectors)
    }

    /** The free map on disk is the one in memory. */
    ghost predicate Current()
      requires freeMap.Valid()
      reads device, freeMap, freeMap.bits
    {
      Saved(device.sectors, freeMap.Bools())
    }

    /** free_map_open on a disk in order. */
    constructor (device: Device, freeMap: Bitmap)
      requires freeMap.Valid() && freeMap.bitCnt == |device.sectors| < 0x1_0000_0000
               && FREE_MAP_SECTOR < |device.sectors|
      requires HeaderAt(device.sectors, FREE_MAP_SECTOR).length == FileSize(|device.sectors|)
      requires DiskOk(freeMap.Bools(), device.sectors, FirstInode(device.sectors), {})
      ensures Valid() && this.device == device && this.freeMap == freeMap && files == map[]
    {
      hide StateOk;
      this.device, this.freeMap := device, freeMap;
      inodes, open, files, mapInode, next, loose := FirstInode(device.sectors), [1], map[], 1, 2, multiset{1};
      FirstState(freeMap.Bools(), device.sectors);
    }

    // ---- what holds between any two operations ----

    /** With no file open and the free map on disk up to date, the disk can be mounted again. */
    lemma CanRemount()
      requires Valid() && files == map[] && Current()
      ensures 0 < |device.sectors| < 0x1_0000_0000 && Saved(device.sectors, freeMap.Bools())
      ensures DiskOk(freeMap.Bools(), device.sectors, FirstInode(device.sectors), {})
    {
      Remountable(freeMap.Bools(), device.sectors, Mem());
    }

    /** A sector that belongs to an inode (reserved, listed, or open and perhaps removed) is marked
        in the free map and belongs to no other. */
    lemma SectorOwnership(s: nat, t: nat, k: nat)
      requires Valid() && RootOk(device.sectors) && s in Live(Root(), inodes) && t in Live(Root(), inodes)
      ensures s < |device.sectors| && t < |device.sectors| && OnDevice(HeaderAt(device.sectors, s), device.sectors)
      ensures Owns(device.sectors, s, k) ==> k < freeMap.bitCnt && freeMap.Bools()[k]
      ensures Owns(device.sectors, s, k) && Owns(device.sectors, t, k) ==> s == t
    {
      assert Located(device.sectors, s) && Located(device.sectors, t);
    }

    /** There is one in-memory inode for a sector, its header is the one on disk, and its counters
        are right. */
    lemma InodeCache(i: nat, j: nat)
      requires Valid() && i in inodes && j in inodes
      ensures inodes[i].sector == inodes[j].sector ==> i == j
      ensures inodes[i].sector < |device.sectors| && inodes[i].data == HeaderAt(device.sectors, inodes[i].sector)
      ensures inodes[i].denyCnt == |Deniers(files, i)| <= inodes[i].openCnt
    {
      assert CountersOk(inodes[i], files, loose, i);
      DenyAtMostOpen(inodes, open, files, loose, i);
    }

    // ---- free-map.c ----

    /** free_map_allocate: first fit, and it succeeds exactly when there is room and the map can
        be written. */
    method Allocate(cnt: nat, bounce: bool) returns (r: Option<nat>)
      requires Inv({})
      modifies device, freeMap.bits
      ensures Inv({}) && RootOk(old(device.sectors)) && RootOk(device.sectors) && Root() == old(Root())
      ensures |device.sectors| == old(|device.sectors|)
      ensures r.Some? <==> Moves(freeMap.bitCnt, bounce) && !NoRoom(old(freeMap.Bools()), cnt)
      ensures r.None? ==> freeMap.Bools() == old(freeMap.Bools())
      ensures r.None? && Moves(freeMap.bitCnt, bounce) ==> device.sectors == old(device.sectors)
      ensures r.Some? ==> IsFirstFit(old(freeMap.Bools()), 0, cnt, false, r) && Current()
      ensures r.Some? ==>
                r.value + cnt <= freeMap.bitCnt
                && freeMap.Bools() == Filled(old(freeMap.Bools()), r.value, cnt, true)
      ensures r.Some? ==> forall k: nat | r.value <= k < r.value + cnt ::
                  Unowned(device.sectors, Live(Root(), inodes), k)
      ensures forall t | t in Live(Root(), inodes) ::
                t < |device.sectors| && HeaderAt(device.sectors, t) == HeaderAt(old(device.sectors), t)
      ensures AllUntouched(old(device.sectors), device.sectors, Ordinary(Root(), inodes))
    {
      hide StateOk, Live, RootOk, RootEntries, AllUntouched, Stored, Moves;
      ghost var used, sectors := freeMap.Bools(), device.sectors;
      Known(used, sectors, Mem(), loose, {});
      r := freeMap.ScanAndFlip(0, cnt, false);
      if r.None? {
        MapWritten(used, sectors, sectors, Mem(), loose, {});
        NoneTouched(used, sectors, Mem(), loose, {});
        return;
      }
      assert AllAre(used, r.value, cnt, false);
      var ok := WriteMap(device, freeMap, inodes[mapInode].data, inodes[mapInode].denyCnt, bounce);
      Allocated(used, sectors, device.sectors, Mem(), loose, r.value, cnt);
      MapWritten(used, sectors, device.sectors, Mem(), loose, {});
      OthersUntouched(used, sectors, device.sectors, Mem(), loose, {}, FREE_MAP_SECTOR);
      Known(used, device.sectors, Mem(), loose, {});
      if !ok {
        freeMap.SetMultiple(r.value, cnt, false);
        assert freeMap.Bools() == used;
        r := None;
      }
    }

    /** free_map_release */
    method Release(sector: nat, cnt: nat, bounce: bool)
      requires freeMap.Valid() && AllAre(freeMap.Bools(), sector, cnt, true) && freeMap.bitCnt == |device.sectors|
      requires mapInode in inodes && IsMapExtent(device.sectors, inodes[mapInode].data)
      requires inodes[mapInode].data.length == FileSize(freeMap.bitCnt) && inodes[mapInode].denyCnt == 0
      modifies device, freeMap.bits
      ensures freeMap.Valid() && freeMap.Bools() == Filled(old(freeMap.Bools()), sector, cnt, false)
      ensures OnlyDataOf(old(device.sectors), device.sectors, FREE_MAP_SECTOR)
              && IsMapExtent(device.sectors, inodes[mapInode].data)
      ensures Moves(freeMap.bitCnt, bounce) ==> Current()
    {
      hide Stored, Moves;
      freeMap.SetMultiple(sector, cnt, false);
      var ok := WriteMap(device, freeMap, inodes[mapInode].data, inodes[mapInode].denyCnt, bounce);
    }

    // ---- inode.c ----

    /** inode_open's search of open_inodes. */
    method FindOpen(sector: nat, ghost reserved: set<nat>) returns (i: nat)
      requires Inv(reserved)
      ensures i == NULL ==> forall j | j in inodes :: inodes[j].sector != sector
      ensures i != NULL ==> i in inodes && inodes[i].sector == sector
    {
      hide DiskOk, CountersOk;
      for k := 0 to |open|
        invariant forall j | 0 <= j < k :: open[j] in inodes && inodes[open[j]].sector != sector
      {
        i := open[k];
        assert i in open;
        if inodes[i].sector == sector {
          return;
        }
      }
      i := NULL;
    }

    /** inode_open on an inode that exists: it fails only for lack of memory. */
    method InodeOpen(sector: nat, mem: bool, ghost reserved: set<nat>) returns (i: nat)
      requires Inv(reserved) && RootOk(device.sectors) && sector in Live(Root(), inodes)
      modifies this
      ensures Inv(reserved) && files == old(files) && mapInode == old(mapInode)
      ensures i == NULL ==> inodes == old(inodes) && loose == old(loose)
      ensures i != NULL ==> i in inodes && inodes[i].sector == sector && loose == old(loose) + multiset{i}
      ensures i != NULL && i in old(inodes) ==>
                old(inodes)[i].sector == sector && old(inodes)[i].removed == inodes[i].removed
      ensures i != NULL && i !in old(inodes) ==> !inodes[i].removed
      ensures forall j | j in old(inodes) && j != i :: j in inodes && inodes[j] == old(inodes)[j]
      ensures i != NULL <==> mem || sector in old(OpenSectors(inodes))
      ensures i != NULL ==> (inodes[i].openCnt == 1 <==> sector !in old(OpenSectors(inodes)))
      ensures OpenSectors(inodes) == old(OpenSectors(inodes)) + if i == NULL then {} else {sector}
    {
      hide StateOk, Live, RootOk, RootEntries, HeaderOf, OpenSectors;
      i := FindOpen(sector, reserved);
      if i != NULL {
        Counted(freeMap.Bools(), device.sectors, Mem(), loose, reserved, i);
        InodeReopened(freeMap.Bools(), device.sectors, Mem(), loose, reserved, i);
        SectorsOpen(inodes, i, inodes[i].(openCnt := inodes[i].openCnt + 1));
        inodes, loose := inodes[i := inodes[i].(openCnt := inodes[i].openCnt + 1)], loose + multiset{i};
      } else if mem {
        i := next;
        NotOpen(inodes, sector);
        RootStands(freeMap.Bools(), device.sectors, Mem(), loose, reserved);
        InodeLoaded(freeMap.Bools(), device.sectors, Mem(), loose, reserved, sector);
        var data := HeaderOf(device.sectors[sector]);
        SectorsOpen(inodes, i, Inode(sector, 1, false, 0, data));
        inodes, open, loose, next := inodes[i := Inode(sector, 1, false, 0, data)], [i] + open, loose + multiset{i},
            next + 1;
      } else {
        NotOpen(inodes, sector);
      }
    }

    /** inode_close gives back the sectors of a removed inode. */
    method ReleaseInode(i: nat, bounce1: bool, bounce2: bool, ghost reserved: set<nat>)
      requires Inv(reserved) && i in inodes
      modifies device, freeMap.bits
      ensures freeMap.Valid() && OnlyDataOf(old(device.sectors), device.sectors, FREE_MAP_SECTOR)
      ensures Freed(old(freeMap.Bools()), freeMap.Bools(), old(device.sectors), inodes[i].sector)
      ensures Moves(freeMap.bitCnt, bounce2) ==> Current()
    {
      hide StateOk, RootOk, RootEntries, Live, OnlyDataOf, AllAre, Moves, Saved, Freed, Filled, IsMapExtent, Sectors,
           FileSize;
      ghost var used, sectors := freeMap.Bools(), device.sectors;
      Known(freeMap.Bools(), sectors, Mem(), loose, reserved);
      ReleaseAllowed(freeMap.Bools(), sectors, Mem(), loose, reserved, i);
      Release(inodes[i].sector, 1, bounce1);
      ghost var sectors' := device.sectors;
      SameSize(sectors, sectors', FREE_MAP_SECTOR);
      Release(inodes[i].data.start, Sectors(inodes[i].data.length), bounce2);
      MapWrittenTwice(sectors, sectors', device.sectors);
      HeaderAndData(used, sectors, inodes[i].sector);
    }

    /** inode_close: the last reference to a removed inode frees exactly its sectors. */
    method InodeClose(i: nat, bounce1: bool, bounce2: bool, ghost reserved: set<nat>)
      requires Inv(reserved) && i in loose && (i == mapInode ==> loose[i] > 1) && i in inodes
      requires inodes[i].removed ==> inodes[i].sector !in reserved
      modifies this, device, freeMap.bits
      ensures Inv(reserved) && loose == old(loose) - multiset{i} && files == old(files) && mapInode == old(mapInode)
      ensures RootOk(old(device.sectors)) && RootOk(device.sectors) && Root() == old(Root())
      ensures forall j | j in old(inodes) && j != i :: j in inodes && inodes[j] == old(inodes)[j]
      ensures Released(old(inodes)[i], old(freeMap.Bools()), freeMap.Bools(), old(device.sectors), device.sectors)
      ensures AllUntouched(old(device.sectors), device.sectors, Ordinary(old(Root()), old(inodes)))
      ensures old(Current()) && Moves(freeMap.bitCnt, bounce2) ==> Current()
    {
      hide StateOk, Live, RootOk, RootEntries, AllUntouched, Moves, Saved, Freed;
      Known(freeMap.Bools(), device.sectors, Mem(), loose, reserved);
      NoneTouched(freeMap.Bools(), device.sectors, Mem(), loose, reserved);
      if inodes[i].openCnt > 1 {
        InodeDropped(freeMap.Bools(), device.sectors, Mem(), loose, reserved, i);
        inodes, loose := inodes[i := inodes[i].(openCnt := inodes[i].openCnt - 1)], loose - multiset{i};
      } else {
        CloseLast(i, bounce1, bounce2, reserved);
      }
    }

    /** inode_close by the last opener. */
    method CloseLast(i: nat, bounce1: bool, bounce2: bool, ghost reserved: set<nat>)
      requires Inv(reserved) && i in loose && (i == mapInode ==> loose[i] > 1) && i in inodes
      requires (inodes[i].removed ==> inodes[i].sector !in reserved) && inodes[i].openCnt == 1
      modifies this, device, freeMap.bits
      ensures Inv(reserved) && loose == old(loose) - multiset{i} && files == old(files) && mapInode == old(mapInode)
      ensures inodes == old(inodes) - {i}
      ensures RootOk(old(device.sectors)) && RootOk(device.sectors) && Root() == old(Root())
      ensures Released(old(inodes)[i], old(freeMap.Bools()), freeMap.Bools(), old(device.sectors), device.sectors)
      ensures AllUntouched(old(device.sectors), device.sectors, Ordinary(old(Root()), old(inodes)))
      ensures old(Current()) && Moves(freeMap.bitCnt, bounce2) ==> Current()
    {
      hide StateOk, Live, RootOk, RootEntries, Sectors, OnlyDataOf, AllUntouched, Moves, Saved, Freed,
           Ordinary, IsMapExtent, OpenSectors, Listed, EntriesOk, FileSize;
      ghost var used, sectors, m := freeMap.Bools(), device.sectors, Mem();
      Known(used, sectors, m, loose, reserved);
      NoneTouched(used, sectors, m, loose, reserved);
      var open' := Without(open, i);
      if inodes[i].removed {
        ReleaseInode(i, bounce1, bounce2, reserved);
        InodeDeleted(used, freeMap.Bools(), sectors, device.sectors, m, loose, reserved, i, open');
        OthersUntouched(used, sectors, device.sectors, m, loose, reserved, FREE_MAP_SECTOR);
      } else {
        InodeForgotten(used, sectors, m, loose, reserved, i, open');
      }
      ghost var m' := m.(inodes := m.inodes - {i}, open := open');
      assert StateOk(freeMap.Bools(), device.sectors, m', loose - multiset{i}, reserved);
      RootStands(freeMap.Bools(), device.sectors, m', loose - multiset{i}, reserved);
      inodes, open, loose := inodes - {i}, open', loose - multiset{i};
      assert Mem() == m';
    }

    /** inode_create in sector S, which has been marked for it. */
    method InodeCreate(s: nat, length: nat, mem: bool, bounce: bool) returns (ok: bool)
      requires Inv({}) && length < MAX_SIZE && RootOk(device.sectors)
      requires s < freeMap.bitCnt && freeMap.Bools()[s] && Unowned(device.sectors, Live(Root(), inodes), s)
      modifies device, freeMap.bits
      ensures Inv(if ok then {s} else {}) && RootOk(device.sectors) && Root() == old(Root())
      ensures freeMap.Bools()[s] && Unowned(device.sectors, Live(Root(), inodes), s) && s !in Live(Root(), inodes)
      ensures ROOT_DIR_SECTOR < s < 0x1_0000_0000
      ensures ok <==> mem && Moves(freeMap.bitCnt, bounce) && !NoRoom(old(freeMap.Bools()), Sectors(length))
      ensures !ok ==> freeMap.Bools() == old(freeMap.Bools())
      ensures ok ==> IsBlank(device.sectors, s, length)
      ensures ok ==> IsTaken(old(freeMap.Bools()), freeMap.Bools(), HeaderAt(device.sectors, s))
      ensures old(Current()) && Moves(freeMap.bitCnt, bounce) ==> Current()
      ensures AllUntouched(old(device.sectors), device.sectors, Ordinary(Root(), inodes))
    {
      hide StateOk, Live, RootOk, RootEntries, Unowned, HeaderOf, Sectors, AllUntouched, Untouched, Moves,
           Saved, NoRoom;
      ok := false;
      NotLive(freeMap.Bools(), device.sectors, Mem(), loose, s);
      Known(freeMap.Bools(), device.sectors, Mem(), loose, {});
      if !mem {
        NoneTouched(freeMap.Bools(), device.sectors, Mem(), loose, {});
        return;
      }
      ghost var used, first := freeMap.Bools(), device.sectors;
      var r := Allocate(Sectors(length), bounce);
      StillUnowned(first, device.sectors, Live(Root(), inodes), s);
      if r.None? {
        return;
      }
      var e := Extent(r.value, length);
      ghost var sectors := device.sectors;
      FillIn(s, e);
      assert forall k: nat | InData(e, k) :: !used[k];
      UntouchedTwice(first, sectors, device.sectors, Ordinary(Root(), inodes));
      ok := true;
    }

    /** inode_create's writes to sectors that have been allocated. */
    method FillIn(s: nat, e: Extent)
      requires Inv({}) && RootOk(device.sectors) && s < freeMap.bitCnt && freeMap.Bools()[s]
      requires e.length < MAX_SIZE && OnDevice(e, device.sectors) && !InData(e, s)
      requires Unowned(device.sectors, Live(Root(), inodes), s)
      requires forall k: nat | InData(e, k) ::
                 k < freeMap.bitCnt && freeMap.Bools()[k] && Unowned(device.sectors, Live(Root(), inodes), k)
      modifies device
      ensures Inv({s}) && RootOk(device.sectors) && Root() == old(Root())
      ensures Unowned(device.sectors, Live(Root(), inodes), s)
      ensures IsBlank(device.sectors, s, e.length) && HeaderAt(device.sectors, s) == e
      ensures old(Current()) ==> Current()
      ensures AllUntouched(old(device.sectors), device.sectors, Ordinary(Root(), inodes))
    {
      hide StateOk, Live, RootOk, RootEntries, Unowned, HeaderOf, Sectors, AllUntouched, Untouched, Moves,
           Saved;
      Known(freeMap.Bools(), device.sectors, Mem(), loose, {});
      ghost var sectors := device.sectors;
      WriteInode(device, s, e);
      InodeCreated(freeMap.Bools(), sectors, device.sectors, Mem(), loose, s, e);
      NewTouchesNone(freeMap.Bools(), sectors, device.sectors, Mem(), loose, s, e);
      RootStands(freeMap.Bools(), device.sectors, Mem(), loose, {s});
      if old(Current()) { SavedKept(sectors, device.sectors, freeMap.Bools()); }
    }

    // ---- directory.c ----

    /** dir_open_root; the directory is its inode. */
    method OpenRoot(mem1: bool, mem2: bool, bounce: bool) returns (d: nat)
      requires Inv({})
      modifies this, device, freeMap.bits
      ensures Inv({}) && files == old(files) && mapInode == old(mapInode)
      ensures RootOk(device.sectors) && device.sectors == old(device.sectors) && freeMap.Bools() == old(freeMap.Bools())
      ensures d == NULL ==> loose == old(loose)
      ensures d != NULL ==>
                loose == old(loose) + multiset{d} && d in inodes && inodes[d].sector == ROOT_DIR_SECTOR
                && d != mapInode
      ensures d != NULL <==> (mem1 || ROOT_DIR_SECTOR in old(OpenSectors(inodes))) && mem2
      ensures d != NULL ==> OpenSectors(inodes) == old(OpenSectors(inodes)) + {ROOT_DIR_SECTOR}
      ensures d != NULL ==> Ordinary(Root(), inodes) == old(Ordinary(RootEntries(device.sectors), inodes))
    {
      hide StateOk, Live, RootOk, RootEntries, AllUntouched, Saved, Freed;
      Known(freeMap.Bools(), device.sectors, Mem(), loose, {});
      d := InodeOpen(ROOT_DIR_SECTOR, mem1, {});
      if d != NULL {
        SameLive(Root(), old(inodes), inodes, ROOT_DIR_SECTOR);
        RootInode(freeMap.Bools(), device.sectors, Mem(), loose, {}, d);
        if !mem2 {
          InodeClose(d, bounce, bounce, {});
          d := NULL;
        }
      }
    }

    /** dir_add for the inode just created in sector S. */
    method DirAdd(d: nat, name: seq<Byte>, s: nat, stop1: nat, stop2: nat, write: bool) returns (ok: bool)
      requires Inv({s}) && d in inodes && inodes[d].sector == ROOT_DIR_SECTOR && RootOk(device.sectors)
               && s !in Live(Root(), inodes)
      requires 0 !in name && s < 0x1_0000_0000
      modifies device
      ensures Inv(if ok then {} else {s}) && RootOk(device.sectors)
              && Root() == Added(old(Root()), name, s, stop1, stop2, write)
      ensures ok <==> CanList(old(Root()), name, stop1, stop2, write)
      ensures !ok ==> device.sectors == old(device.sectors)
      ensures Untouched(old(device.sectors), device.sectors, s)
      ensures old(Current()) ==> Current()
      ensures AllUntouched(old(device.sectors), device.sectors, Ordinary(old(Root()), inodes))
    {
      hide StateOk, Live, RootOk, RootEntries, AllUntouched, Untouched, Saved;
      ok := false;
      RootInode(freeMap.Bools(), device.sectors, Mem(), loose, {s}, d);
      NoneTouched(freeMap.Bools(), device.sectors, Mem(), loose, {s});
      ReservedOn(freeMap.Bools(), device.sectors, Mem(), loose, s);
      ghost var sectors := device.sectors;
      var e := inodes[d].data;
      RootOn(sectors);
      if |name| == 0 || |name| > NAME_MAX {
        return;
      }
      var k, raw := Lookup(device, e, name, stop1);
      if k < stop1 && k < ROOT_ENTRIES {
        return;
      }
      k, raw := FindFree(device, e, stop2);
      var b := NewEntry(raw, name, s);
      ok := WriteSlot(device, e, inodes[d].denyCnt, k, b, write);
      if ok {
        EntryListed(freeMap.Bools(), sectors, device.sectors, Mem(), loose, s, k, b);
        OthersUntouched(freeMap.Bools(), sectors, device.sectors, Mem(), loose, {s}, ROOT_DIR_SECTOR);
        RootStands(freeMap.Bools(), device.sectors, Mem(), loose, {});
        if old(Current()) { SavedKept(sectors, device.sectors, freeMap.Bools()); }
      }
    }

    /** dir_remove */
    method DirRemove(d: nat, name: seq<Byte>, stop: nat, mem: bool, write: bool, bounce1: bool, bounce2: bool)
      returns (ok: bool)
      requires Inv({}) && d in inodes && inodes[d].sector == ROOT_DIR_SECTOR && RootOk(device.sectors) && d in loose
      modifies this, device, freeMap.bits
      ensures Inv({}) && files == old(files) && mapInode == old(mapInode) && loose == old(loose)
      ensures d in inodes && inodes[d].sector == ROOT_DIR_SECTOR
      ensures ok <==> Opens(old(Root()), old(inodes), name, stop, mem) && write
      ensures RootOk(device.sectors) && Root() == if ok then Erasing(old(Root()), Find(old(Root()), name, stop))
                else old(Root())
      ensures !ok ==> freeMap.Bools() == old(freeMap.Bools())
      ensures ok ==> Unlinked(old(Root())[Find(old(Root()), name, stop)].sector, old(inodes),
                              old(freeMap.Bools()), freeMap.Bools(), old(device.sectors))
      ensures AllUntouched(old(device.sectors), device.sectors, Ordinary(old(Root()), old(inodes)))
      ensures old(Current()) && Moves(freeMap.bitCnt, bounce2) ==> Current()
    {
      hide StateOk, Live, RootOk, RootEntries, Entries, EntryOf, CString, InData, AllUntouched, Untouched,
           Saved, Moves, Unlinked;
      ok := false;
      RootInode(freeMap.Bools(), device.sectors, Mem(), loose, {}, d);
      NoneTouched(freeMap.Bools(), device.sectors, Mem(), loose, {});
      RootOn(device.sectors);
      var e := inodes[d].data;
      var k, raw := Lookup(device, e, name, stop);
      if k >= stop || k >= ROOT_ENTRIES {
        return;
      }
      ok := RemoveListed(e, k, raw, mem, write, bounce1, bounce2);
    }

    /** dir_remove once the entry is found. */
    method RemoveListed(e: Extent, k: nat, raw: seq<Byte>, mem: bool, write: bool, bounce1: bool, bounce2: bool)
      returns (ok: bool)
      requires Inv({}) && RootOk(device.sectors) && e == HeaderAt(device.sectors, ROOT_DIR_SECTOR) && k < ROOT_ENTRIES
      requires |raw| == ENTRY_SIZE && EntryOf(raw) == Root()[k] && Root()[k].inUse
      modifies this, device, freeMap.bits
      ensures Inv({}) && files == old(files) && mapInode == old(mapInode) && loose == old(loose)
      ensures forall j | j in old(inodes) && old(inodes)[j].sector == ROOT_DIR_SECTOR ::
                j in inodes && inodes[j] == old(inodes)[j]
      ensures RootOk(device.sectors) && Root() == if ok then Erasing(old(Root()), k) else old(Root())
      ensures ok <==> (mem || old(Root())[k].sector in old(OpenSectors(inodes))) && write
      ensures !ok ==> freeMap.Bools() == old(freeMap.Bools())
      ensures ok ==> Unlinked(old(Root())[k].sector, old(inodes), old(freeMap.Bools()), freeMap.Bools(),
                old(device.sectors))
      ensures AllUntouched(old(device.sectors), device.sectors, Ordinary(old(Root()), old(inodes)))
      ensures old(Current()) && Moves(freeMap.bitCnt, bounce2) ==> Current()
    {
      hide StateOk, Live, RootOk, RootEntries, Entries, EntryOf, CString, AllUntouched, Untouched, Saved,
           Moves, Ordinary, Freed, HeaderOf, OpenSectors, Listed;
      ok := false;
      RootOn(device.sectors);
      ListedInode(freeMap.Bools(), device.sectors, Mem(), loose, {}, k);
      NoneTouched(freeMap.Bools(), device.sectors, Mem(), loose, {});
      var i := InodeOpen(EntryOf(raw).sector, mem, {});
      if i != NULL {
        SameLive(Root(), old(inodes), inodes, inodes[i].sector);
        ok := RemoveOpen(e, k, raw, i, write, bounce1, bounce2);
      }
    }

    /** dir_remove once the inode is open; the name goes, and so does this reference. Nobody can
        deny writes to the root directory. */
    method RemoveOpen(e: Extent, k: nat, raw: seq<Byte>, i: nat, write: bool, bounce1: bool, bounce2: bool)
      returns (ok: bool)
      requires Inv({}) && RootOk(device.sectors) && e == HeaderAt(device.sectors, ROOT_DIR_SECTOR) && k < ROOT_ENTRIES
      requires |raw| == ENTRY_SIZE && EntryOf(raw) == Root()[k] && Root()[k].inUse
      requires i in loose && i in inodes && inodes[i].sector == Root()[k].sector
      modifies this, device, freeMap.bits
      ensures Inv({}) && files == old(files) && mapInode == old(mapInode) && loose == old(loose) - multiset{i}
      ensures forall j | j in old(inodes) && j != i :: j in inodes && inodes[j] == old(inodes)[j]
      ensures RootOk(device.sectors) && Root() == if ok then Erasing(old(Root()), k) else old(Root())
      ensures ok == write
      ensures !ok ==> freeMap.Bools() == old(freeMap.Bools())
      ensures ok ==> Released(old(inodes)[i].(removed := true), old(freeMap.Bools()), freeMap.Bools(),
                old(device.sectors), old(device.sectors))
      ensures AllUntouched(old(device.sectors), device.sectors, Ordinary(old(Root()), old(inodes)))
      ensures old(Current()) && Moves(freeMap.bitCnt, bounce2) ==> Current()
    {
      hide StateOk, Live, RootOk, RootEntries, Entries, EntryOf, CString, AllUntouched, Untouched, Saved,
           Moves, Ordinary, Freed, HeaderOf, OpenSectors, Listed;
      ghost var before := device.sectors;
      RootOn(before);
      ListedInode(freeMap.Bools(), before, Mem(), loose, {}, k);
      ok := EraseSlot(e, 0, k, raw, write);
      ghost var erased := device.sectors;
      if ok {
        InodeRemove(i);
        StillOrdinary(old(Root()), k, Root(), old(inodes), inodes, i);
      }
      InodeClose(i, bounce1, bounce2, {});
      UntouchedTwice(before, erased, device.sectors, Ordinary(old(Root()), old(inodes)));
      FreedBefore(before, erased, Ordinary(old(Root()), old(inodes)), old(inodes)[i].sector, old(freeMap.Bools()),
                  freeMap.Bools());
    }

    /** inode_remove */
    method InodeRemove(i: nat)
      requires Inv({}) && RootOk(device.sectors) && i in inodes
      requires inodes[i].sector > ROOT_DIR_SECTOR && inodes[i].sector !in Listed(Root())
      modifies this`inodes
      ensures Inv({}) && inodes == old(inodes)[i := old(inodes)[i].(removed := true)]
      ensures OpenSectors(inodes) == old(OpenSectors(inodes)) + {inodes[i].sector}
    {
      hide StateOk;
      InodeRemoved(freeMap.Bools(), device.sectors, Mem(), loose, i);
      SectorsOpen(inodes, i, inodes[i].(removed := true));
      inodes := inodes[i := inodes[i].(removed := true)];
    }

    /** dir_remove's write */
    method EraseSlot(e: Extent, denied: nat, k: nat, raw: seq<Byte>, write: bool) returns (ok: bool)
      requires Inv({}) && RootOk(device.sectors) && e == HeaderAt(device.sectors, ROOT_DIR_SECTOR) && k < ROOT_ENTRIES
      requires |raw| == ENTRY_SIZE && EntryOf(raw) == Root()[k] && Root()[k].inUse && denied == 0
      modifies device
      ensures Inv({}) && RootOk(device.sectors) && Root() == if ok then Erasing(old(Root()), k) else old(Root())
      ensures ok ==> old(Root())[k].sector !in Listed(Root())
      ensures ok == write
      ensures AllUntouched(old(device.sectors), device.sectors, Ordinary(old(Root()), inodes))
      ensures old(Current()) ==> Current()
    {
      hide StateOk, Live, RootOk, RootEntries, AllUntouched, Untouched, Saved;
      ghost var sectors := device.sectors;
      RootOn(sectors);
      NoneTouched(freeMap.Bools(), sectors, Mem(), loose, {});
      ok := WriteSlot(device, e, denied, k, Erased(raw), write);
      if ok {
        EntryUnlisted(freeMap.Bools(), sectors, device.sectors, Mem(), loose, k, Erased(raw));
        OthersUntouched(freeMap.Bools(), sectors, device.sectors, Mem(), loose, {}, ROOT_DIR_SECTOR);
        RootStands(freeMap.Bools(), device.sectors, Mem(), loose, {});
        if old(Current()) { SavedKept(sectors, device.sectors, freeMap.Bools()); }
      }
    }

    // ---- file.c ----

    /** A struct file for inode I. */
    method AddFile(i: nat) returns (f: nat)
      requires Inv({}) && i in loose && i in inodes && inodes[i].sector > ROOT_DIR_SECTOR
      modifies this
      ensures Inv({}) && inodes == old(inodes) && mapInode == old(mapInode) && loose == old(loose) - multiset{i}
      ensures f != NULL && f !in old(files) && files == old(files)[f := File(i, 0, false)]
    {
      hide StateOk, RootOk, RootEntries, Live;
      Known(freeMap.Bools(), device.sectors, Mem(), loose, {});
      FileOpened(freeMap.Bools(), device.sectors, Mem(), loose, i);
      f := next;
      files, next, loose := files[f := File(i, 0, false)], next + 1, loose - multiset{i};
    }

    /** file_open, which takes over the reference to inode I. */
    method FileOpen(i: nat, mem: bool, bounce1: bool, bounce2: bool) returns (f: nat)
      requires Inv({}) && (i != NULL ==>
                   i in loose && i in inodes && i != mapInode
                   && inodes[i].sector > ROOT_DIR_SECTOR)
      modifies this, device, freeMap.bits
      ensures Inv({}) && mapInode == old(mapInode)
              && loose == (if i == NULL then old(loose) else old(loose) - multiset{i})
      ensures RootOk(old(device.sectors)) && RootOk(device.sectors) && Root() == old(Root())
      ensures f == NULL ==> files == old(files)
      ensures f != NULL ==>
                i != NULL && f !in old(files) && files == old(files)[f := File(i, 0, false)] && i in inodes
                && inodes == old(inodes)
      ensures f != NULL <==> i != NULL && mem
      ensures (i == NULL || !old(inodes)[i].removed || old(inodes)[i].openCnt > 1) ==>
                device.sectors == old(device.sectors) && freeMap.Bools() == old(freeMap.Bools())
    {
      hide StateOk, Live, RootOk, RootEntries, AllUntouched, Saved, Freed;
      RootStands(freeMap.Bools(), device.sectors, Mem(), loose, {});
      f := NULL;
      if i != NULL {
        if mem {
          f := AddFile(i);
        } else {
          InodeClose(i, bounce1, bounce2, {});
        }
      }
    }

    /** file_allow_write and file_deny_write where they change something. */
    method FlipDeny(f: nat)
      requires Inv({}) && f in files
      modifies this
      ensures Inv({}) && mapInode == old(mapInode) && loose == old(loose)
      ensures files == old(files)[f := old(files)[f].(deny := !old(files)[f].deny)]
      ensures forall i | i in old(inodes) :: i in inodes
                && inodes[i].(denyCnt := old(inodes)[i].denyCnt) == old(inodes)[i]
      ensures inodes.Keys == old(inodes).Keys && OpenSectors(inodes) == old(OpenSectors(inodes))
    {
      hide StateOk, RootOk, RootEntries, Live, Listed, OpenSectors, EntriesOk, IsMapExtent, FileSize;
      Known(freeMap.Bools(), device.sectors, Mem(), loose, {});
      DenyFlipped(freeMap.Bools(), device.sectors, Mem(), loose, f);
      var i, deny := files[f].inode, files[f].deny;
      var inode := inodes[i].(denyCnt := if deny then inodes[i].denyCnt - 1 else inodes[i].denyCnt + 1);
      SectorsOpen(inodes, i, inode);
      Counted(freeMap.Bools(), device.sectors, Mem(), loose, {}, i);
      inodes, files := inodes[i := inode], files[f := files[f].(deny := !deny)];
    }

    /** file_deny_write */
    method DenyWrite(f: nat)
      requires Valid() && f in files
      modifies this
      ensures Valid() && files == old(files)[f := old(files)[f].(deny := true)]
    {
      hide StateOk;
      if !files[f].deny {
        FlipDeny(f);
      }
    }

    /** file_allow_write */
    method AllowWrite(f: nat)
      requires Valid() && f in files
      modifies this
      ensures Valid() && files == old(files)[f := old(files)[f].(deny := false)]
    {
      hide StateOk;
      if files[f].deny {
        FlipDeny(f);
      }
    }

    /** file_seek */
    method Seek(f: nat, pos: nat)
      requires Valid() && f in files
      modifies this
      ensures Valid() && files == old(files)[f := old(files)[f].(pos := pos)] && inodes == old(inodes)
    {
      hide StateOk;
      Moved(freeMap.Bools(), device.sectors, Mem(), loose, f, pos);
      files := files[f := files[f].(pos := pos)];
    }

    /** file_reopen; NULL if it fails, which is for lack of memory. */
    method Reopen(f: nat, means: Means) returns (g: nat)
      requires Valid() && f in files
      modifies this, device, freeMap.bits
      ensures Valid() && device.sectors == old(device.sectors) && freeMap.Bools() == old(freeMap.Bools())
      ensures g != NULL <==> means.file
      ensures g == NULL ==> files == old(files)
      ensures g != NULL ==> g !in old(files) && files == old(files)[g := File(old(files)[f].inode, 0, false)]
    {
      hide StateOk, RootOk, RootEntries;
      FileInode(freeMap.Bools(), device.sectors, Mem(), loose, f);
      var i := files[f].inode;
      Counted(freeMap.Bools(), device.sectors, Mem(), loose, {}, i);
      InodeReopened(freeMap.Bools(), device.sectors, Mem(), loose, {}, i);
      inodes, loose := inodes[i := inodes[i].(openCnt := inodes[i].openCnt + 1)], loose + multiset{i};
      g := FileOpen(i, means.file, means.map1, means.map2);
    }

    /** file_allow_write, and the file is gone, its reference to the inode still to be given up. */
    method Detach(f: nat) returns (i: nat)
      requires Inv({}) && f in files
      modifies this
      ensures Inv({}) && files == old(files) - {f} && mapInode == old(mapInode) && loose == old(loose) + multiset{i}
      ensures i == old(files)[f].inode && i in inodes && i in old(inodes) && i != mapInode
      ensures inodes[i].(denyCnt := old(inodes)[i].denyCnt) == old(inodes)[i]
              && OpenSectors(inodes) == old(OpenSectors(inodes))
    {
      hide StateOk;
      FileInode(freeMap.Bools(), device.sectors, Mem(), loose, f);
      if files[f].deny {
        FlipDeny(f);
      }
      FileInode(freeMap.Bools(), device.sectors, Mem(), loose, f);
      FileClosed(freeMap.Bools(), device.sectors, Mem(), loose, f);
      i := files[f].inode;
      files, loose := files - {f}, loose + multiset{i};
    }

    /** file_close: the last file on a removed inode frees exactly its sectors. */
    method Close(f: nat, means: Means)
      requires Valid() && (f == NULL || f in files)
      modifies this, device, freeMap.bits
      ensures Valid() && files == old(files) - {f} && RootOk(old(device.sectors)) && RootOk(device.sectors)
              && Root() == old(Root())
      ensures f == NULL ==> device.sectors == old(device.sectors) && freeMap.Bools() == old(freeMap.Bools())
      ensures f != NULL ==>
                && old(files)[f].inode in old(inodes)
                && Released(old(inodes)[old(files)[f].inode], old(freeMap.Bools()), freeMap.Bools(),
                      old(device.sectors), device.sectors)
      ensures AllUntouched(old(device.sectors), device.sectors, Ordinary(old(Root()), old(inodes)))
      ensures old(Current()) && Moves(freeMap.bitCnt, means.map2) ==> Current()
    {
      hide StateOk, RootOk, RootEntries, Live, AllUntouched, Saved, Freed, Moves, Ordinary, OpenSectors,
           Listed, IsMapExtent, EntriesOk, FileSize;
      RootStands(freeMap.Bools(), device.sectors, Mem(), loose, {});
      NoneTouched(freeMap.Bools(), device.sectors, Mem(), loose, {});
      if f == NULL {
        return;
      }
      var i := Detach(f);
      SameOrdinary(Root(), old(inodes), inodes);
      InodeClose(i, means.map1, means.map2, {});
    }

    /** file_read */
    method Read(f: nat, buffer: array<Byte>, size: int, bounce: bool) returns (n: nat)
      requires Valid() && f in files && size <= buffer.Length
      modifies this, buffer
      ensures Valid() && files == old(files)[f := old(files)[f].(pos := old(files)[f].pos + n)] && inodes == old(inodes)
      ensures files[f].inode in inodes
      ensures IsRead(inodes[files[f].inode].data, device.sectors, old(files)[f].pos, size, bounce, old(buffer[..]),
                buffer[..], n)
    {
      hide StateOk, Contents, Transferred;
      FileInode(freeMap.Bools(), device.sectors, Mem(), loose, f);
      n := ReadAt(device, inodes[files[f].inode].data, buffer, size, files[f].pos, bounce);
      Seek(f, files[f].pos + n);
    }

    /** file_write: exactly the bytes asked for, clipped, of this file and of no other; none while
        a file denies writes to the inode. */
    method Write(f: nat, buffer: seq<Byte>, size: int, bounce: bool) returns (n: nat)
      requires Valid() && f in files && size <= |buffer|
      modifies this, device
      ensures Valid() && files == old(files)[f := old(files)[f].(pos := old(files)[f].pos + n)] && inodes == old(inodes)
      ensures RootOk(old(device.sectors)) && RootOk(device.sectors) && Root() == old(Root())
      ensures files[f].inode in inodes
      ensures IsWrite(inodes[files[f].inode].data, Deniers(old(files), files[f].inode), old(device.sectors),
                device.sectors, old(files)[f].pos, buffer, size, bounce, n)
      ensures OthersSame(inodes, files[f].inode, old(device.sectors), device.sectors)
      ensures AllUntouched(old(device.sectors), device.sectors,
                Live(old(Root()), inodes) - {inodes[files[f].inode].sector})
      ensures old(Current()) ==> Current()
    {
      hide Live, OpenSectors, AllUntouched, Untouched, Saved, StateOk, Contents, Transferred, RootOk,
           RootEntries, Deniers, Sectors;
      ghost var sectors := device.sectors;
      RootStands(freeMap.Bools(), sectors, Mem(), loose, {});
      FileInode(freeMap.Bools(), sectors, Mem(), loose, f);
      var i := files[f].inode;
      var e := inodes[i].data;
      n := WriteAt(device, e, inodes[i].denyCnt, buffer, size, files[f].pos, bounce);
      if n > 0 {
        OnlyExtentWritten(e, sectors, device.sectors, files[f].pos, buffer[..n]);
        FileUpdated(e, sectors, device.sectors, files[f].pos, buffer[..n]);
      }
      DataUpdated(freeMap.Bools(), sectors, device.sectors, Mem(), loose, i);
      if old(Current()) { MapNotWritten(freeMap.Bools(), sectors, device.sectors, Mem(), i); }
      RootStands(freeMap.Bools(), device.sectors, Mem(), loose, {});
      Seek(f, files[f].pos + n);
    }

    // ---- filesys.c ----

    /** filesys_create releases the sector of an inode that is not listed. */
    method GiveBack(s: nat, bounce: bool, ghost reserved: set<nat>)
      requires Inv(reserved) && reserved <= {s} && RootOk(device.sectors) && s < freeMap.bitCnt && freeMap.Bools()[s]
      requires s !in Live(Root(), inodes) && Unowned(device.sectors, Live(Root(), inodes), s)
      modifies device, freeMap.bits
      ensures Inv({}) && RootOk(device.sectors) && Root() == old(Root())
      ensures freeMap.Bools() == Filled(old(freeMap.Bools()), s, 1, false)
      ensures AllUntouched(old(device.sectors), device.sectors, Ordinary(Root(), inodes))
      ensures Moves(freeMap.bitCnt, bounce) ==> Current()
    {
      hide StateOk, Live, RootOk, RootEntries, Unowned, OnlyDataOf, AllUntouched, Moves, Saved;
      ghost var used, sectors := freeMap.Bools(), device.sectors;
      Known(used, sectors, Mem(), loose, reserved);
      Release(s, 1, bounce);
      GivenBack(used, sectors, device.sectors, Mem(), loose, reserved, s);
      OthersUntouched(used, sectors, device.sectors, Mem(), loose, reserved, FREE_MAP_SECTOR);
      RootStands(freeMap.Bools(), device.sectors, Mem(), loose, {});
    }

    /** The middle of filesys_create: an inode in a sector of its own, listed under NAME. */
    method CreateIn(d: nat, name: seq<Byte>, size: nat, means: Means) returns (ok: bool, ghost s: nat)
      requires Inv({}) && d in inodes && inodes[d].sector == ROOT_DIR_SECTOR && 0 !in name && size < MAX_SIZE
      modifies device, freeMap.bits
      ensures Inv({}) && RootOk(old(device.sectors)) && RootOk(device.sectors)
      ensures Root() == if ok then Added(old(Root()), name, s, means.stop1, means.stop2, means.slot) else old(Root())
      ensures ok <==>
                Reserves(old(freeMap.Bools()), size, means)
                && CanList(old(Root()), name, means.stop1, means.stop2, means.slot)
      ensures ok ==> s !in Live(old(Root()), inodes) && s > ROOT_DIR_SECTOR && IsBlank(device.sectors, s, size)
      ensures ok ==> Taken(old(freeMap.Bools()), freeMap.Bools(), device.sectors, s)
      ensures !ok ==> (freeMap.Bools() == old(freeMap.Bools()) <==>
                  !(Reserves(old(freeMap.Bools()), size, means) && size > 0))
      ensures !ok && Reserves(old(freeMap.Bools()), size, means) ==> Leaks(old(freeMap.Bools()), freeMap.Bools(), size)
      ensures AllUntouched(old(device.sectors), device.sectors, Ordinary(old(Root()), inodes))
      ensures old(Current()) && AllMove(freeMap.bitCnt, means) ==> Current()
    {
      hide StateOk, Live, RootOk, RootEntries, Added, Unowned, IsBlank, AllUntouched, Saved, Moves, NoRoom,
           CanList, Taken, RoomFor, Sectors, HeaderOf;
      ok, s := false, 0;
      ghost var used, before := freeMap.Bools(), device.sectors;
      var r := Allocate(1, means.map1);
      if r.None? {
        if NoRoom(used, 1) { NoFirst(used, Sectors(size)); }
        return;
      }
      s := r.value;
      FitUnique(used, s, Sectors(size));
      ghost var first, e := device.sectors, Extent(0, 0);
      ok, e := ListNew(d, name, r.value, size, means);
      UntouchedTwice(before, first, device.sectors, Ordinary(old(Root()), inodes));
      if ok {
        BothTaken(used, s, e, freeMap.Bools(), device.sectors);
      } else {
        Leaked(used, s, e, freeMap.Bools(), Made(Filled(used, s, 1, true), size, means));
        assert e == Extent(e.start, size);
      }
    }

    /** filesys_create once sector S is marked. */
    method ListNew(d: nat, name: seq<Byte>, s: nat, size: nat, means: Means) returns (ok: bool, ghost e: Extent)
      requires Inv({}) && d in inodes && inodes[d].sector == ROOT_DIR_SECTOR && 0 !in name && size < MAX_SIZE
               && RootOk(device.sectors)
      requires s < freeMap.bitCnt && freeMap.Bools()[s] && Unowned(device.sectors, Live(Root(), inodes), s)
      modifies device, freeMap.bits
      ensures Inv({}) && RootOk(device.sectors)
      ensures Root() == if ok then Added(old(Root()), name, s, means.stop1, means.stop2, means.slot) else old(Root())
      ensures ok <==>
                Made(old(freeMap.Bools()), size, means)
                && CanList(old(Root()), name, means.stop1, means.stop2, means.slot)
      ensures ok ==> s !in Live(old(Root()), inodes) && s > ROOT_DIR_SECTOR && IsBlank(device.sectors, s, size)
      ensures ok ==>
                s < |device.sectors| && HeaderAt(device.sectors, s) == e
                && IsTaken(old(freeMap.Bools()), freeMap.Bools(), e)
      ensures e.length == size
      ensures !ok ==> GaveBack(old(freeMap.Bools()), freeMap.Bools(), s, e, Made(old(freeMap.Bools()), size, means))
      ensures AllUntouched(old(device.sectors), device.sectors, Ordinary(old(Root()), inodes))
      ensures old(Current()) && AllMove(freeMap.bitCnt, means) ==> Current()
    {
      hide StateOk, Live, RootOk, RootEntries, Added, Unowned, AllUntouched, Saved, Moves, NoRoom, CanList,
           Sectors, HeaderOf, IsBlank, Owns, Untouched;
      ok, e := false, Extent(0, size);
      ghost var used, before := freeMap.Bools(), device.sectors;
      var created := InodeCreate(s, size, means.header, means.map2);
      ghost var made, taken := device.sectors, freeMap.Bools();
      if created {
        BlankHeader(made, s, size);
        e := HeaderAt(made, s);
        ok := DirAdd(d, name, s, means.stop1, means.stop2, means.slot);
        UntouchedTwice(before, made, device.sectors, Ordinary(old(Root()), inodes));
        BlankKept(made, device.sectors, s, size);
      }
      if !ok {
        GiveBack(s, means.map3, if created then {s} else {});
        UntouchedTwice(before, made, device.sectors, Ordinary(old(Root()), inodes));
      }
    }

    /** filesys_create. It succeeds exactly when memory, room and a slot can be had for a name that
        is not found; then the new inode's sectors, which were free, are marked. A failure leaves
        the free map as it was exactly when it is not dir_add that fails, or there are no data:
        filesys_create then gives back the header's sector and forgets those of the data. */
    method Create(name: seq<Byte>, size: nat, means: Means) returns (ok: bool, ghost s: nat)
      requires Valid() && 0 !in name && size < MAX_SIZE
      modifies this, device, freeMap.bits
      ensures Valid() && files == old(files) && RootOk(old(device.sectors)) && RootOk(device.sectors)
      ensures Root() == if ok then Added(old(Root()), name, s, means.stop1, means.stop2, means.slot) else old(Root())
      ensures ok <==> means.dirInode && means.dir && Reserves(old(freeMap.Bools()), size, means)
                      && CanList(old(Root()), name, means.stop1, means.stop2, means.slot)
      ensures ok ==> IsBlank(device.sectors, s, size) && Taken(old(freeMap.Bools()), freeMap.Bools(), device.sectors, s)
      ensures !ok ==> (freeMap.Bools() == old(freeMap.Bools()) <==>
                       !(means.dirInode && means.dir && Reserves(old(freeMap.Bools()), size, means) && size > 0))
      ensures !ok && means.dirInode && means.dir && Reserves(old(freeMap.Bools()), size, means) ==>
                Leaks(old(freeMap.Bools()), freeMap.Bools(), size)
      ensures KeepsNames(old(Root()), Root()) <==>
                !(ok && Overwrites(old(Root()), name, means.stop1, means.stop2, means.slot))
      ensures AllUntouched(old(device.sectors), device.sectors, Ordinary(old(Root()), old(inodes)))
      ensures old(Current()) && AllMove(freeMap.bitCnt, means) ==> Current()
      ensures UniqueNames(old(Root())) ==>
                (UniqueNames(Root()) <==> !(ok && Overlooked(old(Root()), name, means.stop1, means.stop2, means.slot)))
    {
      hide StateOk, Live, RootOk, RootEntries, Added, UniqueNames, Overlooked, Overwrites, IsFound, IsBlank, Leaks,
          AllUntouched, Saved,
           Moves, CanList, Taken, Reserves, Freed;
      ok, s := false, 0;
      RootNotOpen(freeMap.Bools(), device.sectors, Mem(), {});
      NoneTouched(freeMap.Bools(), device.sectors, Mem(), loose, {});
      var d := OpenRoot(means.dirInode, means.dir, means.map1);
      if d != NULL {
        ok, s := CreateIn(d, name, size, means);
        RootInode(freeMap.Bools(), device.sectors, Mem(), loose, {}, d);
        InodeClose(d, means.map1, means.map2, {});
      }
      if ok {
        NamesAdded(old(Root()), name, s, means);
      }
    }

    /** filesys_remove. It succeeds exactly when memory can be had and the name is found; then the
        inode's sectors are freed, now if no file is open on it, otherwise by the last Close. */
    method Remove(name: seq<Byte>, means: Means) returns (ok: bool)
      requires Valid()
      modifies this, device, freeMap.bits
      ensures Valid() && files == old(files) && RootOk(old(device.sectors)) && RootOk(device.sectors)
      ensures ok <==> means.dirInode && means.dir && means.slot
                      && Opens(old(Root()), old(inodes), name, means.stop1, means.inode)
      ensures Root() == if ok then Erasing(old(Root()), Find(old(Root()), name, means.stop1)) else old(Root())
      ensures !ok ==> freeMap.Bools() == old(freeMap.Bools())
      ensures ok ==> Unlinked(old(Root())[Find(old(Root()), name, means.stop1)].sector, old(inodes),
                              old(freeMap.Bools()), freeMap.Bools(), old(device.sectors))
      ensures AllUntouched(old(device.sectors), device.sectors, Ordinary(old(Root()), old(inodes)))
      ensures old(Current()) && Moves(freeMap.bitCnt, means.map2) ==> Current()
      ensures UniqueNames(old(Root())) ==> UniqueNames(Root())
    {
      hide StateOk, Live, RootOk, RootEntries, Erasing, UniqueNames, AllUntouched, Saved, Moves, Freed,
           Ordinary, Opens, Unlinked, OpenSectors, HeaderOf, Find;
      ok := false;
      RootNotOpen(freeMap.Bools(), device.sectors, Mem(), {});
      NoneTouched(freeMap.Bools(), device.sectors, Mem(), loose, {});
      NamedOrdinary(freeMap.Bools(), device.sectors, Mem(), loose, name, means.stop1);
      var d := OpenRoot(means.dirInode, means.dir, means.map1);
      if d != NULL {
        RootAlsoOpen(Root(), old(inodes), inodes, name, means, freeMap.Bools(), device.sectors);
        ok := DirRemove(d, name, means.stop1, means.inode, means.slot, means.map1, means.map2);
        RootInode(freeMap.Bools(), device.sectors, Mem(), loose, {}, d);
        InodeClose(d, means.map1, means.map2, {});
      }
      if UniqueNames(old(Root())) { ErasingUnique(old(Root()), Find(old(Root()), name, means.stop1)); }
    }

    /** dir_lookup: an inode opened, or NULL. */
    method DirLookup(d: nat, name: seq<Byte>, stop: nat, mem: bool) returns (i: nat)
      requires Inv({}) && d in inodes && inodes[d].sector == ROOT_DIR_SECTOR && RootOk(device.sectors) && d in loose
      modifies this
      ensures Inv({}) && files == old(files) && mapInode == old(mapInode) && d in inodes
              && inodes[d].sector == ROOT_DIR_SECTOR
      ensures i == NULL ==> loose == old(loose)
      ensures i != NULL ==> loose == old(loose) + multiset{i} && i in inodes && i != d && i != mapInode
      ensures i != NULL ==>
                inodes[i].sector > ROOT_DIR_SECTOR && !inodes[i].removed
                && IsNamed(Root(), name, stop, inodes[i].sector)
      ensures i != NULL <==> Opens(Root(), old(inodes), name, stop, mem)
    {
      hide StateOk, Live, RootOk, RootEntries, Entries, EntryOf;
      RootInode(freeMap.Bools(), device.sectors, Mem(), loose, {}, d);
      RootOn(device.sectors);
      var k, raw := Lookup(device, inodes[d].data, name, stop);
      i := NULL;
      if k < stop && k < ROOT_ENTRIES {
        ListedInode(freeMap.Bools(), device.sectors, Mem(), loose, {}, k);
        i := InodeOpen(EntryOf(raw).sector, mem, {});
        ListedInode(freeMap.Bools(), device.sectors, Mem(), loose, {}, k);
        Known(freeMap.Bools(), device.sectors, Mem(), loose, {});
      }
    }

    /** filesys_open; NULL if it fails, which is when the name is not found or for lack of memory. */
    method Open(name: seq<Byte>, means: Means) returns (f: nat)
      requires Valid()
      modifies this, device, freeMap.bits
      ensures Valid() && device.sectors == old(device.sectors) && freeMap.Bools() == old(freeMap.Bools())
              && RootOk(device.sectors)
      ensures f != NULL <==>
                means.dirInode && means.dir && means.file
                && Opens(Root(), old(inodes), name, means.stop1, means.inode)
      ensures f == NULL ==> files == old(files)
      ensures f != NULL ==> f !in old(files) && f in files && files == old(files)[f := File(files[f].inode, 0, false)]
      ensures f != NULL ==>
                files[f].inode in inodes
                && IsNamed(Root(), name, means.stop1, inodes[files[f].inode].sector)
    {
      hide StateOk, Live, RootOk, RootEntries, IsNamed, Ordinary, Find, HeaderOf, Opens, OpenSectors, Unlinked;
      f := NULL;
      RootNotOpen(freeMap.Bools(), device.sectors, Mem(), {});
      NamedOrdinary(freeMap.Bools(), device.sectors, Mem(), loose, name, means.stop1);
      var d := OpenRoot(means.dirInode, means.dir, means.map1);
      if d != NULL {
        RootAlsoOpen(Root(), old(inodes), inodes, name, means, freeMap.Bools(), device.sectors);
        f := OpenIn(d, name, means);
      }
    }

    /** filesys_open once the root directory is open. */
    method OpenIn(d: nat, name: seq<Byte>, means: Means) returns (f: nat)
      requires Inv({}) && d in inodes && inodes[d].sector == ROOT_DIR_SECTOR && RootOk(device.sectors) && d in loose
               && d != mapInode
      modifies this, device, freeMap.bits
      ensures Inv({}) && mapInode == old(mapInode) && loose == old(loose) - multiset{d}
      ensures device.sectors == old(device.sectors) && freeMap.Bools() == old(freeMap.Bools())
      ensures f != NULL <==> means.file && Opens(Root(), old(inodes), name, means.stop1, means.inode)
      ensures f == NULL ==> files == old(files)
      ensures f != NULL ==> f !in old(files) && f in files && files == old(files)[f := File(files[f].inode, 0, false)]
      ensures f != NULL ==>
                files[f].inode in inodes
                && IsNamed(Root(), name, means.stop1, inodes[files[f].inode].sector)
    {
      hide StateOk, Live, RootOk, RootEntries, IsNamed, Opens;
      var i := LookupAndClose(d, name, means);
      f := FileOpen(i, means.file, means.map1, means.map2);
    }

    /** filesys_open between dir_open_root and file_open. */
    method LookupAndClose(d: nat, name: seq<Byte>, means: Means) returns (i: nat)
      requires Inv({}) && d in inodes && inodes[d].sector == ROOT_DIR_SECTOR && RootOk(device.sectors) && d in loose
               && d != mapInode
      modifies this, device, freeMap.bits
      ensures Inv({}) && files == old(files) && mapInode == old(mapInode) && RootOk(device.sectors)
      ensures device.sectors == old(device.sectors) && freeMap.Bools() == old(freeMap.Bools())
      ensures i == NULL ==> loose == old(loose) - multiset{d}
      ensures i != NULL ==> loose == old(loose) - multiset{d} + multiset{i} && i in inodes && i != mapInode
      ensures i != NULL ==> inodes[i].sector > ROOT_DIR_SECTOR && !inodes[i].removed
      ensures i != NULL ==> IsNamed(Root(), name, means.stop1, inodes[i].sector)
      ensures i != NULL <==> Opens(Root(), old(inodes), name, means.stop1, means.inode)
    {
      hide StateOk, Live, RootOk, RootEntries, IsNamed, AllUntouched, Saved, Freed, Opens;
      i := DirLookup(d, name, means.stop1, means.inode);
      RootInode(freeMap.Bools(), device.sectors, Mem(), loose, {}, d);
      InodeClose(d, means.map1, means.map2, {});
    }
  }

  /** NAME is found, in an entry that refers to the inode in sector S. */
  ghost predicate IsNamed(es: seq<Entry>, name: seq<Byte>, stop: nat, s: nat) {
    var k := Find(es, name, stop);
    k < |es| && k < stop && es[k].sector == s && s > ROOT_DIR_SECTOR
  }

  /** The inode that an open file is on. */
  lemma FileInode(used: seq<bool>, sectors: seq<Sector>, m: Memory, loose: multiset<nat>, f: nat)
    requires StateOk(used, sectors, m, loose, {}) && f in m.files
    ensures var i := m.files[f].inode;
            && i in m.inodes && m.inodes[i].sector > ROOT_DIR_SECTOR && i != NULL && i != m.mapInode
                && m.inodes[i].sector < |sectors|
            && m.inodes[i].data == HeaderAt(sectors, m.inodes[i].sector) && OnDevice(m.inodes[i].data, sectors)
            && (m.inodes[i].denyCnt == 0 <==> Deniers(m.files, i) == {})
  {
    var i := m.files[f].inode;
    assert m.inodes[i].sector in OpenSectors(m.inodes) && CountersOk(m.inodes[i], m.files, loose, i);
    assert Located(sectors, m.inodes[i].sector);
  }

  lemma ErasingUnique(es: seq<Entry>, k: nat)
    requires UniqueNames(es)
    ensures UniqueNames(Erasing(es, k))
  {
  }

  /** The entries with the one in slot K no longer in use. */
  ghost function Erasing(es: seq<Entry>, k: nat): seq<Entry> {
    if k < |es| then es[k := es[k].(inUse := false)] else es
  }

  lemma MapNotWritten(used: seq<bool>, sectors: seq<Sector>, sectors': seq<Sector>, m: Memory, i: nat)
    requires Saved(sectors, used) && RootOk(sectors) && i in m.inodes && m.inodes[i].sector > ROOT_DIR_SECTOR
    requires AllUntouched(sectors, sectors', Live(RootEntries(sectors), m.inodes) - {m.inodes[i].sector})
    ensures Saved(sectors', used)
  {
    SavedKept(sectors, sectors', used);
  }

  /** That the root directory is open as well makes no difference to other names. */
  lemma RootAlsoOpen(es: seq<Entry>, inodes: map<nat, Inode>, inodes': map<nat, Inode>, name: seq<Byte>, means: Means,
                     used: seq<bool>, sectors: seq<Sector>)
    requires OpenSectors(inodes') == OpenSectors(inodes) + {ROOT_DIR_SECTOR}
    requires var k := Find(es, name, means.stop1); k < |es| && k < means.stop1 ==> es[k].sector > ROOT_DIR_SECTOR
    ensures Opens(es, inodes', name, means.stop1, means.inode) == Opens(es, inodes, name, means.stop1, means.inode)
    ensures Opens(es, inodes, name, means.stop1, means.inode) ==>
              && Find(es, name, means.stop1) < |es|
              && var s := es[Find(es, name, means.stop1)].sector;
                 forall used' :: Unlinked(s, inodes', used, used', sectors) == Unlinked(s, inodes, used, used', sectors)
  {
  }

  lemma SameOrdinary(es: seq<Entry>, inodes: map<nat, Inode>, inodes': map<nat, Inode>)
    requires OpenSectors(inodes') == OpenSectors(inodes)
    ensures Ordinary(es, inodes') == Ordinary(es, inodes)
  {
  }

  lemma NotOpen(inodes: map<nat, Inode>, sector: nat)
    requires forall i | i in inodes :: inodes[i].sector != sector
    ensures sector !in OpenSectors(inodes)
  {
  }

  lemma SameSize(sectors: seq<Sector>, sectors': seq<Sector>, s: nat)
    requires OnlyDataOf(sectors, sectors', s)
    ensures |sectors'| == |sectors|
  {
  }

  /** Erasing the entry of an open inode leaves the same inodes in existence. */
  lemma StillOrdinary(es: seq<Entry>, k: nat, es': seq<Entry>, inodes: map<nat, Inode>, inodes': map<nat, Inode>,
                      i: nat)
    requires k < |es| && es' == Erasing(es, k) && i in inodes && inodes[i].sector == es[k].sector
    requires OpenSectors(inodes') == OpenSectors(inodes) + {inodes[i].sector}
    ensures Ordinary(es', inodes') == Ordinary(es, inodes)
  {
    assert inodes[i].sector in OpenSectors(inodes);
    forall j | 0 <= j < |es| && j != k ensures es'[j] == es[j] {}
    forall s ensures s in Listed(es) ==> s in Listed(es') || s == es[k].sector {
      if s in Listed(es) {
        var e :| e in es && e.inUse && e.sector == s;
        var j :| 0 <= j < |es| && es[j] == e;
        if j != k { assert es'[j] in es'; }
      }
    }
    forall s ensures s in Listed(es') ==> s in Listed(es) {
      if s in Listed(es') {
        var e :| e in es' && e.inUse && e.sector == s;
        var j :| 0 <= j < |es'| && es'[j] == e;
        assert j != k && es[j] in es;
      }
    }
  }

  /** The same sectors, whether told before or after the entry was erased. */
  lemma FreedBefore(before: seq<Sector>, erased: seq<Sector>, inodes: set<nat>, s: nat, used: seq<bool>,
                    used': seq<bool>)
    requires AllUntouched(before, erased, inodes) && s in inodes
    ensures Freed(used, used', erased, s) ==> Freed(used, used', before, s)
  {
    assert Untouched(before, erased, s) && Owns(before, s, s);
  }

  lemma RootOn(sectors: seq<Sector>)
    requires RootOk(sectors)
    ensures IsDirectory(HeaderAt(sectors, ROOT_DIR_SECTOR), sectors)
            && On(HeaderAt(sectors, ROOT_DIR_SECTOR), sectors) == RootEntries(sectors)
    ensures |RootEntries(sectors)| == ROOT_ENTRIES
  {
  }

  lemma ReservedOn(used: seq<bool>, sectors: seq<Sector>, m: Memory, loose: multiset<nat>, s: nat)
    requires StateOk(used, sectors, m, loose, {s})
    ensures Untouched(sectors, sectors, s)
  {
    assert s in Live(RootEntries(sectors), m.inodes) + {s};
    assert Located(sectors, s);
  }

  /** An inode that a name leads to is not the root directory's. */
  lemma NamedOrdinary(used: seq<bool>, sectors: seq<Sector>, m: Memory, loose: multiset<nat>, name: seq<Byte>,
                      stop: nat)
    requires StateOk(used, sectors, m, loose, {})
    ensures RootOk(sectors)
    ensures var k := Find(RootEntries(sectors), name, stop);
            k < |RootEntries(sectors)| && k < stop ==> RootEntries(sectors)[k].sector > ROOT_DIR_SECTOR
  {
    hide TableOk, HandlesOk, Cached, RemovedOk;
    var k := Find(RootEntries(sectors), name, stop);
    if k < |RootEntries(sectors)| && k < stop { ListedInode(used, sectors, m, loose, {}, k); }
  }

  lemma NotLive(used: seq<bool>, sectors: seq<Sector>, m: Memory, loose: multiset<nat>, s: nat)
    requires StateOk(used, sectors, m, loose, {}) && s < |used|
             && Unowned(sectors, Live(RootEntries(sectors), m.inodes), s)
    ensures s !in Live(RootEntries(sectors), m.inodes)
  {
    assert Owns(sectors, s, s);
  }

  lemma StillUnowned(sectors: seq<Sector>, sectors': seq<Sector>, live: set<nat>, k: nat)
    requires Unowned(sectors, live, k) && |sectors'| == |sectors|
    requires forall t | t in live :: t < |sectors| && HeaderAt(sectors', t) == HeaderAt(sectors, t)
    ensures Unowned(sectors', live, k)
  {
    forall t | t in live && t < |sectors'| ensures !Owns(sectors', t, k) { assert !Owns(sectors, t, k); }
  }

  /** filesys_init without format: free_map_open reads the map from a disk that is in order as
      that map has it. */
  method Mount(device: Device, ghost used: seq<bool>) returns (fs: FileSystem)
    requires 0 < |device.sectors| < 0x1_0000_0000 && Saved(device.sectors, used)
    requires DiskOk(used, device.sectors, FirstInode(device.sectors), {})
    ensures fs.Valid() && fs.device == device && fresh(fs) && fresh(fs.freeMap) && fresh(fs.freeMap.bits)
    ensures fs.files == map[] && fs.freeMap.Bools() == used && fs.Current()
  {
    hide DiskOk, Stored, StateOk;
    var freeMap := new Bitmap(|device.sectors|);
    var ok := ReadMap(device, freeMap, HeaderOf(device.sectors[FREE_MAP_SECTOR]), true);
    fs := new FileSystem(device, freeMap);
  }

  /** filesys_init with format, on a device with room for the map and the root directory. */
  method Init(device: Device) returns (fs: FileSystem)
    requires 3 + Sectors(FileSize(|device.sectors|)) <= |device.sectors| < 0x1_0000_0000
    modifies device
    ensures fs.Valid() && fs.device == device && fresh(fs) && fresh(fs.freeMap) && fresh(fs.freeMap.bits)
    ensures fs.files == map[] && fs.Current() && RootOk(device.sectors) && forall e | e in fs.Root() :: !e.inUse
    ensures |fs.freeMap.Bools()| == |device.sectors| == |old(device.sectors)|
    ensures forall k | 0 <= k < |device.sectors| ::
              fs.freeMap.Bools()[k] <==> k < 3 + Sectors(FileSize(|device.sectors|))
  {
    hide DiskOk, Stored, StateOk, RootEntries;
    var freeMap := new Bitmap(|device.sectors|);
    Format(device, freeMap);
    Formatted(freeMap.Bools(), device.sectors, Sectors(FileSize(|device.sectors|)));
    fs := Mount(device, freeMap.Bools());
  }
}
