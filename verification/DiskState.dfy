/** What holds of the file system's disk, free map and in-memory inodes together, and how each
    elementary step keeps it. */
module DiskState {
  import opened Disk
  import opened InodeIO
  import opened Directory
  import opened Ownership
  import opened InodeTable

  ghost function OpenSectors(inodes: map<nat, Inode>): set<nat> { set i | i in inodes :: inodes[i].sector }

  /** The inodes that exist: the two reserved ones, those that the root directory lists, and
      those that are open (removed or not). */
  ghost function Live(es: seq<Entry>, inodes: map<nat, Inode>): set<nat> {
    {FREE_MAP_SECTOR, ROOT_DIR_SECTOR} + Listed(es) + OpenSectors(inodes)
  }

  /** The cached headers are those on disk. */
  ghost predicate Cached(sectors: seq<Sector>, inodes: map<nat, Inode>) {
    forall i | i in inodes :: inodes[i].sector < |sectors| && inodes[i].data == HeaderAt(sectors, inodes[i].sector)
  }

  ghost predicate RemovedOk(es: seq<Entry>, inodes: map<nat, Inode>) {
    forall i | i in inodes && inodes[i].removed :: inodes[i].sector > ROOT_DIR_SECTOR && inodes[i].sector !in Listed(es)
  }

  /** RESERVED holds the sector of an inode that has been created but not yet listed. */
  ghost predicate DiskOk(used: seq<bool>, sectors: seq<Sector>, inodes: map<nat, Inode>, reserved: set<nat>) {
    && RootOk(sectors) && EntriesOk(RootEntries(sectors))
    && Safe(used, sectors, Live(RootEntries(sectors), inodes) + reserved)
    && Cached(sectors, inodes)
    && RemovedOk(RootEntries(sectors), inodes)
  }

  ghost predicate Unowned(sectors: seq<Sector>, live: set<nat>, k: nat) {
    forall t | t in live && t < |sectors| :: !Owns(sectors, t, k)
  }

  /** Only data of the inode in sector S differs. */
  ghost predicate OnlyDataOf(sectors: seq<Sector>, sectors': seq<Sector>, s: nat) {
    && |sectors'| == |sectors| && s < |sectors|
    && forall k | 0 <= k < |sectors| && !InData(HeaderAt(sectors, s), k) :: sectors'[k] == sectors[k]
  }

  // ---- steps on the disk ----

  /** Marking sectors that were free: nobody owned them. */
  lemma Marked(used: seq<bool>, used': seq<bool>, sectors: seq<Sector>, inodes: map<nat, Inode>, reserved: set<nat>)
    requires DiskOk(used, sectors, inodes, reserved) && |used'| == |used|
             && forall k | 0 <= k < |used| && used[k] :: used'[k]
    ensures DiskOk(used', sectors, inodes, reserved)
    ensures forall k: nat | k < |used| && !used[k] :: Unowned(sectors, Live(RootEntries(sectors), inodes) + reserved, k)
  {
    HeadersKept(used, used', sectors, sectors, Live(RootEntries(sectors), inodes) + reserved);
  }

  /** Unmarking sectors that nobody owns. */
  lemma Unmarked(used: seq<bool>, used': seq<bool>, sectors: seq<Sector>, inodes: map<nat, Inode>, reserved: set<nat>)
    requires DiskOk(used, sectors, inodes, reserved) && |used'| == |used|
    requires forall k: nat | k < |used| && used[k] != used'[k] ::
               Unowned(sectors, Live(RootEntries(sectors), inodes) + reserved, k)
    ensures DiskOk(used', sectors, inodes, reserved)
  {
  }

  /** Writing data of an inode other than the root directory. */
  lemma FileWritten(used: seq<bool>, sectors: seq<Sector>, sectors': seq<Sector>, inodes: map<nat, Inode>,
                    reserved: set<nat>, s: nat)
    requires DiskOk(used, sectors, inodes, reserved) && OnlyDataOf(sectors, sectors', s)
    requires s in Live(RootEntries(sectors), inodes) && s != ROOT_DIR_SECTOR
    ensures DiskOk(used, sectors', inodes, reserved) && RootEntries(sectors') == RootEntries(sectors)
    ensures forall t | t in Live(RootEntries(sectors), inodes) + reserved ::
              HeaderAt(sectors', t) == HeaderAt(sectors, t)
  {
    var live := Live(RootEntries(sectors), inodes) + reserved;
    DataWritten(used, sectors, sectors', live, s);
    RootKept(sectors, sectors');
    forall i | i in inodes
      ensures inodes[i].data == HeaderAt(sectors', inodes[i].sector)
    {
      assert inodes[i].sector in live;
    }
  }

  /** inode_create's writes: a header in sector S and data in sectors that nobody owned. */
  lemma Created(used: seq<bool>, sectors: seq<Sector>, sectors': seq<Sector>, inodes: map<nat, Inode>, s: nat)
    requires DiskOk(used, sectors, inodes, {}) && |sectors'| == |sectors| && Located(sectors', s)
    requires forall k: nat | Owns(sectors', s, k) :: used[k] && Unowned(sectors, Live(RootEntries(sectors), inodes), k)
    requires forall k: nat | k < |sectors| && !Owns(sectors', s, k) :: sectors'[k] == sectors[k]
    ensures s !in Live(RootEntries(sectors), inodes)
    ensures DiskOk(used, sectors', inodes, {s}) && RootEntries(sectors') == RootEntries(sectors)
  {
    var live := Live(RootEntries(sectors), inodes);
    assert live + {} == live;
    forall t, k: nat | t in live && Owns(sectors, t, k) ensures sectors'[k] == sectors[k] {
      assert Owns(sectors', s, k) ==> Unowned(sectors, live, k);
    }
    forall t | t in live ensures HeaderAt(sectors', t) == HeaderAt(sectors, t) { assert Owns(sectors, t, t); }
    HeadersKept(used, used, sectors, sectors', live);
    RootKept(sectors, sectors');
    forall t, k: nat | t in live && Owns(sectors', s, k)
      ensures !Owns(sectors', t, k)
    {
      assert Unowned(sectors, live, k);
    }
    InodeAdded(used, sectors', live, s);
    forall i | i in inodes
      ensures inodes[i].data == HeaderAt(sectors', inodes[i].sector)
    {
      assert inodes[i].sector in live;
    }
  }

  // ---- steps on the root directory ----

  /** Writing slot K of the root directory. */
  lemma SlotWritten(used: seq<bool>, sectors: seq<Sector>, sectors': seq<Sector>, inodes: map<nat, Inode>,
                    reserved: set<nat>, k: nat, b: seq<Byte>)
    requires DiskOk(used, sectors, inodes, reserved) && k < ROOT_ENTRIES && |b| == ENTRY_SIZE && |sectors'| == |sectors|
    requires var e := HeaderAt(sectors, ROOT_DIR_SECTOR);
             && Position(e, ENTRY_SIZE * k) + ENTRY_SIZE <= |Flat(sectors)|
             && Flat(sectors') == Spliced(Flat(sectors), Position(e, ENTRY_SIZE * k), b)
    ensures RootOk(sectors') && RootEntries(sectors') == RootEntries(sectors)[k := EntryOf(b)]
    ensures Safe(used, sectors', Live(RootEntries(sectors), inodes) + reserved) && Cached(sectors', inodes)
    ensures forall t, i: nat | t in reserved && t != ROOT_DIR_SECTOR && Owns(sectors, t, i) :: sectors'[i] == sectors[i]
  {
    var e, live := HeaderAt(sectors, ROOT_DIR_SECTOR), Live(RootEntries(sectors), inodes) + reserved;
    forall i | 0 <= i < |sectors| && !InData(e, i) ensures sectors'[i] == sectors[i] {
      OtherSectorKept(e, sectors, sectors', ENTRY_SIZE * k, b, i);
    }
    DataWritten(used, sectors, sectors', live, ROOT_DIR_SECTOR);
    FileUpdated(e, sectors, sectors', ENTRY_SIZE * k, b);
    EntryWritten(Contents(e, sectors), k, b);
    forall i | i in inodes
      ensures inodes[i].data == HeaderAt(sectors', inodes[i].sector)
    {
      assert inodes[i].sector in live;
    }
  }

  /** Listing the inode just created. */
  lemma EntryAdded(used: seq<bool>, sectors: seq<Sector>, sectors': seq<Sector>, inodes: map<nat, Inode>, s: nat,
                   k: nat, b: seq<Byte>)
    requires DiskOk(used, sectors, inodes, {s}) && s !in Live(RootEntries(sectors), inodes) && k < ROOT_ENTRIES
             && |b| == ENTRY_SIZE && |sectors'| == |sectors|
    requires var e := HeaderAt(sectors, ROOT_DIR_SECTOR);
             && Position(e, ENTRY_SIZE * k) + ENTRY_SIZE <= |Flat(sectors)|
             && Flat(sectors') == Spliced(Flat(sectors), Position(e, ENTRY_SIZE * k), b)
    requires EntryOf(b).inUse && EntryOf(b).sector == s
    ensures DiskOk(used, sectors', inodes, {}) && RootEntries(sectors') == RootEntries(sectors)[k := EntryOf(b)]
    ensures forall i: nat | Owns(sectors, s, i) :: sectors'[i] == sectors[i]
  {
    var es, es' := RootEntries(sectors), RootEntries(sectors)[k := EntryOf(b)];
    SlotWritten(used, sectors, sectors', inodes, {s}, k, b);
    ListedAfterAdd(es, k, EntryOf(b));
    FewerLive(used, sectors', Live(es, inodes) + {s}, Live(es', inodes) + {});
    forall i | i in inodes && inodes[i].removed
      ensures inodes[i].sector !in Listed(es')
    {
      assert inodes[i].sector in OpenSectors(inodes);
    }
  }

  /** Erasing an entry. */
  lemma EntryErased(used: seq<bool>, sectors: seq<Sector>, sectors': seq<Sector>, inodes: map<nat, Inode>, k: nat,
                    b: seq<Byte>)
    requires DiskOk(used, sectors, inodes, {}) && k < ROOT_ENTRIES && |b| == ENTRY_SIZE && |sectors'| == |sectors|
    requires var e := HeaderAt(sectors, ROOT_DIR_SECTOR);
             && Position(e, ENTRY_SIZE * k) + ENTRY_SIZE <= |Flat(sectors)|
             && Flat(sectors') == Spliced(Flat(sectors), Position(e, ENTRY_SIZE * k), b)
    requires RootEntries(sectors)[k].inUse && EntryOf(b) == RootEntries(sectors)[k].(inUse := false)
    ensures DiskOk(used, sectors', inodes, {}) && RootEntries(sectors') == RootEntries(sectors)[k := EntryOf(b)]
    ensures Listed(RootEntries(sectors')) == Listed(RootEntries(sectors)) - {RootEntries(sectors)[k].sector}
  {
    var es, es' := RootEntries(sectors), RootEntries(sectors)[k := EntryOf(b)];
    SlotWritten(used, sectors, sectors', inodes, {}, k, b);
    ListedAfterErase(es, k);
    FewerLive(used, sectors', Live(es, inodes) + {}, Live(es', inodes) + {});
  }

  // ---- steps on the in-memory inodes ----

  /** Counters and handles play no part. */
  lemma CountersChanged(used: seq<bool>, sectors: seq<Sector>, inodes: map<nat, Inode>, inodes': map<nat, Inode>,
                        reserved: set<nat>)
    requires DiskOk(used, sectors, inodes, reserved) && inodes'.Keys == inodes.Keys
    requires forall i | i in inodes :: inodes'[i].sector == inodes[i].sector && inodes'[i].data == inodes[i].data
               && inodes'[i].removed == inodes[i].removed
    ensures DiskOk(used, sectors, inodes', reserved)
  {
    assert OpenSectors(inodes') == OpenSectors(inodes);
  }

  /** Opening an inode that exists, with its header read from disk. */
  lemma HeaderRead(used: seq<bool>, sectors: seq<Sector>, inodes: map<nat, Inode>, reserved: set<nat>, i: nat,
                   inode: Inode)
    requires DiskOk(used, sectors, inodes, reserved) && i !in inodes && !inode.removed
    requires inode.sector in Live(RootEntries(sectors), inodes) && inode.data == HeaderAt(sectors, inode.sector)
    ensures DiskOk(used, sectors, inodes[i := inode], reserved)
  {
    var inodes' := inodes[i := inode];
    forall s | s in OpenSectors(inodes') ensures s in Live(RootEntries(sectors), inodes) {
      var j :| j in inodes' && inodes'[j].sector == s;
      assert j != i ==> inodes[j].sector in OpenSectors(inodes);
    }
    FewerLive(used, sectors, Live(RootEntries(sectors), inodes) + reserved,
              Live(RootEntries(sectors), inodes') + reserved);
  }

  /** inode_remove on an inode that is no longer listed. */
  lemma RemovedMarked(used: seq<bool>, sectors: seq<Sector>, inodes: map<nat, Inode>, i: nat)
    requires DiskOk(used, sectors, inodes, {}) && i in inodes
    requires inodes[i].sector > ROOT_DIR_SECTOR && inodes[i].sector !in Listed(RootEntries(sectors))
    ensures DiskOk(used, sectors, inodes[i := inodes[i].(removed := true)], {})
  {
    var inodes' := inodes[i := inodes[i].(removed := true)];
    forall j | j in inodes ensures inodes'[j].sector == inodes[j].sector && inodes'[j].data == inodes[j].data {}
    assert OpenSectors(inodes') == OpenSectors(inodes);
  }

  /** Forgetting an in-memory inode. */
  lemma Forgotten(used: seq<bool>, sectors: seq<Sector>, inodes: map<nat, Inode>, reserved: set<nat>, i: nat)
    requires DiskOk(used, sectors, inodes, reserved) && i in inodes
    ensures DiskOk(used, sectors, inodes - {i}, reserved)
  {
    forall s | s in OpenSectors(inodes - {i}) ensures s in OpenSectors(inodes) {
      var j :| j in inodes - {i} && inodes[j].sector == s;
    }
    FewerLive(used, sectors, Live(RootEntries(sectors), inodes) + reserved,
              Live(RootEntries(sectors), inodes - {i}) + reserved);
  }

  /** The sectors of a removed inode can be released with its last reference. */
  lemma RemovedReleased(used: seq<bool>, used': seq<bool>, sectors: seq<Sector>, inodes: map<nat, Inode>,
                        reserved: set<nat>, i: nat)
    requires DiskOk(used, sectors, inodes, reserved) && i in inodes && inodes[i].removed && |used'| == |used|
             && inodes[i].sector !in reserved
    requires forall j | j in inodes && j != i :: inodes[j].sector != inodes[i].sector
    requires forall k: nat | k < |used| && !Owns(sectors, inodes[i].sector, k) :: used'[k] == used[k]
    ensures forall k: nat | Owns(sectors, inodes[i].sector, k) :: used[k]
    ensures DiskOk(used', sectors, inodes - {i}, reserved)
  {
    var es, s := RootEntries(sectors), inodes[i].sector;
    assert s in OpenSectors(inodes);
    InodeReleased(used, used', sectors, Live(es, inodes) + reserved, s);
    forall t | t in OpenSectors(inodes - {i}) ensures t in OpenSectors(inodes) && t != s {
      var j :| j in inodes - {i} && inodes[j].sector == t;
    }
    FewerLive(used', sectors, Live(es, inodes) + reserved - {s}, Live(es, inodes - {i}) + reserved);
  }
}
