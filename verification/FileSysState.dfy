/** The whole state of the file system between elementary steps, and that each step keeps it in
    order. USED is the free map, SECTORS the device. */
module FileSysState {
  import opened Disk
  import opened Bitmap
  import opened Common
  import opened InodeIO
  import opened Directory
  import opened Ownership
  import opened InodeTable
  import opened DiskState
  import opened MapFile

  const NULL: nat := 0

  /** In-memory inodes and open files by address, open_inodes, the inode of free_map_file, and
      an address not handed out yet. */
  datatype Memory = Memory(inodes: map<nat, Inode>, open: seq<nat>, files: map<nat, File>, mapInode: nat, next: nat)

  /** Addresses are below NEXT; files are open on ordinary inodes; the free map's file is open. */
  ghost predicate HandlesOk(m: Memory, loose: multiset<nat>) {
    && NULL < m.next && (forall i | i in m.inodes :: NULL < i < m.next)
        && (forall f | f in m.files :: NULL < f < m.next)
    && (forall f | f in m.files :: m.files[f].inode in m.inodes && m.inodes[m.files[f].inode].sector > ROOT_DIR_SECTOR)
    && m.mapInode in m.inodes && m.inodes[m.mapInode].sector == FREE_MAP_SECTOR && m.mapInode in loose
  }

  ghost predicate StateOk(used: seq<bool>, sectors: seq<Sector>, m: Memory, loose: multiset<nat>, reserved: set<nat>) {
    && |used| == |sectors| < 0x1_0000_0000
    && TableOk(m.inodes, m.open, m.files, loose)
    && HandlesOk(m, loose) && m.inodes[m.mapInode].data.length == FileSize(|sectors|)
    && DiskOk(used, sectors, m.inodes, reserved)
  }

  /** What the operations need to know to go on. */
  lemma Known(used: seq<bool>, sectors: seq<Sector>, m: Memory, loose: multiset<nat>, reserved: set<nat>)
    requires StateOk(used, sectors, m, loose, reserved)
    ensures |used| == |sectors| < 0x1_0000_0000 && RootOk(sectors) && NULL < m.next
    ensures m.mapInode in m.inodes && m.inodes[m.mapInode].sector == FREE_MAP_SECTOR
            && IsMapExtent(sectors, m.inodes[m.mapInode].data)
    ensures m.inodes[m.mapInode].data.length == FileSize(|sectors|) && m.inodes[m.mapInode].denyCnt == 0
    ensures forall i | i in loose :: i in m.inodes && i != NULL && m.inodes[i].openCnt > 0
    ensures forall f | f in m.files :: m.files[f].inode in m.inodes && f != NULL
    ensures Distinct(m.open)
    ensures {FREE_MAP_SECTOR, ROOT_DIR_SECTOR} <= Live(RootEntries(sectors), m.inodes)
    ensures EntriesOk(RootEntries(sectors)) && Listed(RootEntries(sectors)) <= Live(RootEntries(sectors), m.inodes)
  {
    assert Located(sectors, FREE_MAP_SECTOR);
    assert CountersOk(m.inodes[m.mapInode], m.files, loose, m.mapInode) && Deniers(m.files, m.mapInode) == {};
    forall i | i in loose ensures m.inodes[i].openCnt > 0 { assert CountersOk(m.inodes[i], m.files, loose, i); }
  }

  lemma RootStands(used: seq<bool>, sectors: seq<Sector>, m: Memory, loose: multiset<nat>, reserved: set<nat>)
    requires StateOk(used, sectors, m, loose, reserved)
    ensures |used| == |sectors| && RootOk(sectors) && NULL !in m.files && NULL < m.next
  {
  }

  /** E is where the free map's file is. */
  predicate IsMapExtent(sectors: seq<Sector>, e: Extent) {
    FREE_MAP_SECTOR < |sectors| && e == HeaderAt(sectors, FREE_MAP_SECTOR) && OnDevice(e, sectors)
        && !InData(e, FREE_MAP_SECTOR)
  }

  /** The root directory's inode, when it is open: its cached header is good and no file denies
      writes to it. */
  lemma RootInode(used: seq<bool>, sectors: seq<Sector>, m: Memory, loose: multiset<nat>, reserved: set<nat>, d: nat)
    requires StateOk(used, sectors, m, loose, reserved) && d in m.inodes && m.inodes[d].sector == ROOT_DIR_SECTOR
    ensures RootOk(sectors) && m.inodes[d].data == HeaderAt(sectors, ROOT_DIR_SECTOR) && m.inodes[d].denyCnt == 0
    ensures d != m.mapInode && !m.inodes[d].removed
  {
    assert CountersOk(m.inodes[d], m.files, loose, d);
    assert Deniers(m.files, d) == {};
  }

  /** An inode that the directory lists is ordinary, and not removed if it is open. */
  lemma ListedInode(used: seq<bool>, sectors: seq<Sector>, m: Memory, loose: multiset<nat>, reserved: set<nat>, k: nat)
    requires StateOk(used, sectors, m, loose, reserved) && k < ROOT_ENTRIES && RootOk(sectors)
             && RootEntries(sectors)[k].inUse
    ensures RootEntries(sectors)[k].sector > ROOT_DIR_SECTOR
            && RootEntries(sectors)[k].sector in Live(RootEntries(sectors), m.inodes)
    ensures RootEntries(sectors)[k].sector in Ordinary(RootEntries(sectors), m.inodes)
    ensures forall i | i in m.inodes && m.inodes[i].sector == RootEntries(sectors)[k].sector ::
              i != m.mapInode && !m.inodes[i].removed
  {
    hide TableOk, Cached, Safe, RootOk, RootEntries;
    assert RootEntries(sectors)[k] in RootEntries(sectors);
    assert RootEntries(sectors)[k].sector in Listed(RootEntries(sectors));
  }

  /** Between operations the root directory is not open. */
  lemma RootNotOpen(used: seq<bool>, sectors: seq<Sector>, m: Memory, reserved: set<nat>)
    requires StateOk(used, sectors, m, multiset{m.mapInode}, reserved)
    ensures ROOT_DIR_SECTOR !in OpenSectors(m.inodes)
  {
    forall i | i in m.inodes ensures m.inodes[i].sector != ROOT_DIR_SECTOR {
      assert CountersOk(m.inodes[i], m.files, multiset{m.mapInode}, i);
      if i != m.mapInode {
        assert Openers(m.files, i) != {};
        var f :| f in Openers(m.files, i);
      }
    }
  }

  // ---- what steps leave alone ----

  /** The inode in sector S is as it was, header and data. */
  ghost predicate Untouched(before: seq<Sector>, after: seq<Sector>, s: nat) {
    s < |before| == |after| && forall k: nat | k < |before| && Owns(before, s, k) :: after[k] == before[k]
  }

  ghost predicate AllUntouched(before: seq<Sector>, after: seq<Sector>, inodes: set<nat>) {
    |after| == |before| && forall s | s in inodes :: Untouched(before, after, s)
  }

  /** The inodes that exist apart from those of the free map and the root directory. */
  ghost function Ordinary(es: seq<Entry>, inodes: map<nat, Inode>): set<nat> {
    Live(es, inodes) - {FREE_MAP_SECTOR, ROOT_DIR_SECTOR}
  }

  /** Then its file reads the same. */
  lemma UntouchedContents(before: seq<Sector>, after: seq<Sector>, s: nat)
    requires Untouched(before, after, s) && OnDevice(HeaderAt(before, s), before)
    ensures HeaderAt(after, s) == HeaderAt(before, s)
    ensures Contents(HeaderAt(after, s), after) == Contents(HeaderAt(before, s), before)
  {
    assert Owns(before, s, s);
    forall k: nat | InData(HeaderAt(before, s), k) ensures after[k] == before[k] { assert Owns(before, s, k); }
    ContentsKept(HeaderAt(before, s), before, after);
  }

  lemma UntouchedTwice(a: seq<Sector>, b: seq<Sector>, c: seq<Sector>, inodes: set<nat>)
    requires AllUntouched(a, b, inodes) && AllUntouched(b, c, inodes)
    ensures AllUntouched(a, c, inodes)
  {
    forall s | s in inodes ensures Untouched(a, c, s) {
      assert Untouched(a, b, s) && Untouched(b, c, s);
      assert Owns(a, s, s);
      forall k: nat | k < |a| && Owns(a, s, k) ensures c[k] == a[k] { assert Owns(b, s, k); }
    }
  }

  lemma NoneTouched(used: seq<bool>, sectors: seq<Sector>, m: Memory, loose: multiset<nat>, reserved: set<nat>)
    requires StateOk(used, sectors, m, loose, reserved)
    ensures AllUntouched(sectors, sectors, Ordinary(RootEntries(sectors), m.inodes))
    ensures Untouched(sectors, sectors, FREE_MAP_SECTOR)
  {
    hide TableOk, HandlesOk, Cached, RemovedOk, EntriesOk;
    forall s | s in Live(RootEntries(sectors), m.inodes) ensures Located(sectors, s) {}
  }

  /** Writing the free map's file or the root directory. */
  lemma OthersUntouched(used: seq<bool>, sectors: seq<Sector>, sectors': seq<Sector>, m: Memory, loose: multiset<nat>,
                        reserved: set<nat>, s: nat)
    requires StateOk(used, sectors, m, loose, reserved) && OnlyDataOf(sectors, sectors', s) && s <= ROOT_DIR_SECTOR
    ensures AllUntouched(sectors, sectors', Ordinary(RootEntries(sectors), m.inodes))
    ensures s == ROOT_DIR_SECTOR ==> Untouched(sectors, sectors', FREE_MAP_SECTOR)
  {
    hide TableOk, HandlesOk, Cached, RemovedOk, EntriesOk;
    SafeUntouched(used, sectors, sectors', Live(RootEntries(sectors), m.inodes) + reserved, s);
  }

  lemma SafeUntouched(used: seq<bool>, sectors: seq<Sector>, sectors': seq<Sector>, live: set<nat>, s: nat)
    requires Safe(used, sectors, live) && OnlyDataOf(sectors, sectors', s) && s in live
    ensures AllUntouched(sectors, sectors', live - {s})
  {
    DataWritten(used, sectors, sectors', live, s);
    forall t | t in live - {s} ensures Untouched(sectors, sectors', t) {
      assert Located(sectors, t);
      forall k: nat | k < |sectors| && Owns(sectors, t, k) ensures sectors'[k] == sectors[k] {}
    }
  }

  /** Writing sectors that nobody owned. */
  lemma NewTouchesNone(used: seq<bool>, sectors: seq<Sector>, sectors': seq<Sector>, m: Memory, loose: multiset<nat>,
                       s: nat, e: Extent)
    requires StateOk(used, sectors, m, loose, {}) && |sectors'| == |sectors|
    requires forall k: nat | k < |sectors| && k != s && !InData(e, k) :: sectors'[k] == sectors[k]
    requires Unowned(sectors, Live(RootEntries(sectors), m.inodes), s)
    requires forall k: nat | InData(e, k) :: Unowned(sectors, Live(RootEntries(sectors), m.inodes), k)
    ensures AllUntouched(sectors, sectors', Ordinary(RootEntries(sectors), m.inodes))
    ensures Untouched(sectors, sectors', FREE_MAP_SECTOR)
  {
    hide TableOk, HandlesOk, Cached, RemovedOk, EntriesOk;
    var live := Live(RootEntries(sectors), m.inodes);
    assert live + {} == live;
    forall t | t in live ensures Untouched(sectors, sectors', t) {
      assert Located(sectors, t);
      forall k: nat | k < |sectors| && Owns(sectors, t, k) ensures sectors'[k] == sectors[k] {
        assert InData(e, k) ==> Unowned(sectors, live, k);
      }
    }
  }

  // ---- the free map's file ----

  /** The free map on the device is USED. */
  ghost predicate Saved(sectors: seq<Sector>, used: seq<bool>) {
    && |used| == |sectors| && FREE_MAP_SECTOR < |sectors|
    && var e := HeaderAt(sectors, FREE_MAP_SECTOR);
       OnDevice(e, sectors) && e.length == FileSize(|sectors|) && Stored(sectors, e, |sectors|) == used
  }

  lemma SavedKept(sectors: seq<Sector>, sectors': seq<Sector>, used: seq<bool>)
    requires Saved(sectors, used) && Untouched(sectors, sectors', FREE_MAP_SECTOR)
    ensures Saved(sectors', used)
  {
    UntouchedContents(sectors, sectors', FREE_MAP_SECTOR);
  }

  /** What is on the device when no file is open is enough to mount it again. */
  lemma Remountable(used: seq<bool>, sectors: seq<Sector>, m: Memory)
    requires StateOk(used, sectors, m, multiset{m.mapInode}, {}) && m.files == map[]
    ensures FREE_MAP_SECTOR < |sectors| && DiskOk(used, sectors, FirstInode(sectors), {})
  {
    hide EntriesOk, RootOk, Safe;
    OnlyMapOpen(m);
    assert OpenSectors(m.inodes) == {FREE_MAP_SECTOR} == OpenSectors(FirstInode(sectors));
  }

  lemma OnlyMapOpen(m: Memory)
    requires TableOk(m.inodes, m.open, m.files, multiset{m.mapInode}) && m.files == map[]
    ensures forall i | i in m.inodes :: i == m.mapInode
  {
    forall i | i in m.inodes ensures i == m.mapInode {
      assert CountersOk(m.inodes[i], m.files, multiset{m.mapInode}, i) && Openers(m.files, i) == {};
    }
  }

  /** The inode that is open from the start: that of the free map's file. */
  function FirstInode(sectors: seq<Sector>): map<nat, Inode>
    requires FREE_MAP_SECTOR < |sectors|
  {
    map[1 := Inode(FREE_MAP_SECTOR, 1, false, 0, HeaderAt(sectors, FREE_MAP_SECTOR))]
  }

  // ---- in-memory inodes ----

  lemma Counted(used: seq<bool>, sectors: seq<Sector>, m: Memory, loose: multiset<nat>, reserved: set<nat>, i: nat)
    requires StateOk(used, sectors, m, loose, reserved) && i in m.inodes
    ensures m.inodes[i].openCnt > 0 && m.inodes[i].sector in OpenSectors(m.inodes)
  {
    hide DiskOk, HandlesOk;
    assert CountersOk(m.inodes[i], m.files, loose, i);
  }

  /** Changing an in-memory inode, or adding one. */
  lemma SectorsOpen(inodes: map<nat, Inode>, i: nat, inode: Inode)
    requires i in inodes ==> inode.sector == inodes[i].sector
    ensures OpenSectors(inodes[i := inode]) == OpenSectors(inodes) + {inode.sector}
  {
    var inodes' := inodes[i := inode];
    forall s ensures s in OpenSectors(inodes') <==> s in OpenSectors(inodes) + {inode.sector} {
      if s in OpenSectors(inodes) {
        var j :| j in inodes && inodes[j].sector == s;
        assert j in inodes' && inodes'[j].sector == s;
      }
      assert i in inodes' && inodes'[i].sector == inode.sector;
    }
  }

  /** The same sectors are open: the same inodes exist. */
  lemma SameLive(es: seq<Entry>, inodes: map<nat, Inode>, inodes': map<nat, Inode>, sector: nat)
    requires OpenSectors(inodes') == OpenSectors(inodes) + {sector} && sector in Live(es, inodes)
    ensures Live(es, inodes') == Live(es, inodes) && Ordinary(es, inodes') == Ordinary(es, inodes)
  {
  }

  lemma InodeReopened(used: seq<bool>, sectors: seq<Sector>, m: Memory, loose: multiset<nat>, reserved: set<nat>,
                      i: nat)
    requires StateOk(used, sectors, m, loose, reserved) && i in m.inodes
    ensures StateOk(used, sectors, m.(inodes := m.inodes[i := m.inodes[i].(openCnt := m.inodes[i].openCnt + 1)]),
              loose + multiset{i}, reserved)
  {
    hide TableOk, DiskOk;
    var inodes' := m.inodes[i := m.inodes[i].(openCnt := m.inodes[i].openCnt + 1)];
    Reopened(m.inodes, m.open, m.files, loose, i);
    CountersChanged(used, sectors, m.inodes, inodes', reserved);
  }

  lemma InodeLoaded(used: seq<bool>, sectors: seq<Sector>, m: Memory, loose: multiset<nat>, reserved: set<nat>,
                    sector: nat)
    requires StateOk(used, sectors, m, loose, reserved) && sector in Live(RootEntries(sectors), m.inodes)
    requires forall j | j in m.inodes :: m.inodes[j].sector != sector
    ensures sector < |sectors|
    ensures m.next !in m.inodes
    ensures StateOk(used, sectors,
                    Memory(m.inodes[m.next := Inode(sector, 1, false, 0, HeaderAt(sectors, sector))],
                           [m.next] + m.open, m.files, m.mapInode, m.next + 1),
                    loose + multiset{m.next}, reserved)
  {
    hide TableOk, Cached, RemovedOk, EntriesOk;
    assert Located(sectors, sector);
    var data := HeaderAt(sectors, sector);
    Opened(m.inodes, m.open, m.files, loose, m.next, sector, data);
    HeaderRead(used, sectors, m.inodes, reserved, m.next, Inode(sector, 1, false, 0, data));
  }

  lemma InodeDropped(used: seq<bool>, sectors: seq<Sector>, m: Memory, loose: multiset<nat>, reserved: set<nat>, i: nat)
    requires StateOk(used, sectors, m, loose, reserved) && i in loose && i in m.inodes
             && (i == m.mapInode ==> loose[i] > 1) && m.inodes[i].openCnt > 1
    ensures StateOk(used, sectors, m.(inodes := m.inodes[i := m.inodes[i].(openCnt := m.inodes[i].openCnt - 1)]),
              loose - multiset{i}, reserved)
  {
    hide TableOk, DiskOk;
    var inodes' := m.inodes[i := m.inodes[i].(openCnt := m.inodes[i].openCnt - 1)];
    Dropped(m.inodes, m.open, m.files, loose, i);
    CountersChanged(used, sectors, m.inodes, inodes', reserved);
  }

  /** The last reference to an inode that is not the free map's. */
  lemma LastReference(m: Memory, open': seq<nat>, loose: multiset<nat>, i: nat)
    requires TableOk(m.inodes, m.open, m.files, loose) && HandlesOk(m, loose)
    requires i in loose && (i == m.mapInode ==> loose[i] > 1) && m.inodes[i].openCnt == 1
    requires Distinct(open') && forall j :: j in open' <==> j in m.open && j != i
    ensures TableOk(m.inodes - {i}, open', m.files, loose - multiset{i})
            && HandlesOk(m.(inodes := m.inodes - {i}, open := open'), loose - multiset{i})
  {
    Closed(m.inodes, m.open, m.files, loose, i, open');
    assert CountersOk(m.inodes[i], m.files, loose, i);
    forall f | f in m.files ensures m.files[f].inode != i { assert f in Openers(m.files, m.files[f].inode); }
  }

  lemma InodeForgotten(used: seq<bool>, sectors: seq<Sector>, m: Memory, loose: multiset<nat>, reserved: set<nat>,
                       i: nat, open': seq<nat>)
    requires StateOk(used, sectors, m, loose, reserved) && i in loose && (i == m.mapInode ==> loose[i] > 1)
             && m.inodes[i].openCnt == 1
    requires Distinct(open') && forall j :: j in open' <==> j in m.open && j != i
    ensures StateOk(used, sectors, m.(inodes := m.inodes - {i}, open := open'), loose - multiset{i}, reserved)
  {
    LastReference(m, open', loose, i);
    Forgotten(used, sectors, m.inodes, reserved, i);
  }

  /** What inode_close hands to free_map_release is marked, as free_map_release asserts. */
  lemma ReleaseAllowed(used: seq<bool>, sectors: seq<Sector>, m: Memory, loose: multiset<nat>, reserved: set<nat>,
                       i: nat)
    requires StateOk(used, sectors, m, loose, reserved) && i in m.inodes
    ensures var inode := m.inodes[i];
            && inode.sector < |sectors| && inode.data == HeaderAt(sectors, inode.sector)
            && AllAre(used, inode.sector, 1, true)
            && AllAre(Filled(used, inode.sector, 1, false), inode.data.start, Sectors(inode.data.length), true)
  {
    var s := m.inodes[i].sector;
    assert s in OpenSectors(m.inodes);
    assert Located(sectors, s) && Owns(sectors, s, s);
    forall k: nat | InData(m.inodes[i].data, k) ensures used[k] && k != s { assert Owns(sectors, s, k); }
  }

  /** What the inode in sector S owns, and nothing else, has been unmarked. */
  ghost predicate Freed(used: seq<bool>, used': seq<bool>, sectors: seq<Sector>, s: nat) {
    && |used'| == |used| && s < |sectors|
    && forall k: nat | k < |used| :: used'[k] == (used[k] && !Owns(sectors, s, k))
  }

  /** Unmarking the header and then the data unmarks what the inode owns. */
  lemma HeaderAndData(used: seq<bool>, sectors: seq<Sector>, s: nat)
    requires s < |sectors|
    requires var d := HeaderAt(sectors, s); s + 1 <= |used| && d.start + Sectors(d.length) <= |used|
    ensures var d := HeaderAt(sectors, s);
            Freed(used, Filled(Filled(used, s, 1, false), d.start, Sectors(d.length), false), sectors, s)
  {
  }

  /** inode_close gives up what a removed inode owned, rewriting the map's file. */
  lemma InodeDeleted(used: seq<bool>, used': seq<bool>, sectors: seq<Sector>, sectors': seq<Sector>, m: Memory,
                     loose: multiset<nat>, reserved: set<nat>, i: nat, open': seq<nat>)
    requires StateOk(used, sectors, m, loose, reserved) && i in loose && (i == m.mapInode ==> loose[i] > 1)
             && m.inodes[i].openCnt == 1
    requires m.inodes[i].removed && m.inodes[i].sector !in reserved
    requires Distinct(open') && forall j :: j in open' <==> j in m.open && j != i
    requires Freed(used, used', sectors, m.inodes[i].sector)
    requires OnlyDataOf(sectors, sectors', FREE_MAP_SECTOR)
    ensures StateOk(used', sectors', m.(inodes := m.inodes - {i}, open := open'), loose - multiset{i}, reserved)
            && RootEntries(sectors') == RootEntries(sectors)
  {
    LastReference(m, open', loose, i);
    RemovedReleased(used, used', sectors, m.inodes, reserved, i);
    FileWritten(used', sectors, sectors', m.inodes - {i}, reserved, FREE_MAP_SECTOR);
  }

  /** inode_remove, once the entry is erased. */
  lemma InodeRemoved(used: seq<bool>, sectors: seq<Sector>, m: Memory, loose: multiset<nat>, i: nat)
    requires StateOk(used, sectors, m, loose, {}) && i in m.inodes
    requires m.inodes[i].sector > ROOT_DIR_SECTOR && m.inodes[i].sector !in Listed(RootEntries(sectors))
    ensures StateOk(used, sectors, m.(inodes := m.inodes[i := m.inodes[i].(removed := true)]), loose, {})
  {
    hide TableOk, DiskOk;
    RemovedMarked(used, sectors, m.inodes, i);
    Unrelated(m.inodes, m.inodes[i := m.inodes[i].(removed := true)], m.open, m.files, m.files, loose);
  }

  // ---- open files ----

  lemma FileOpened(used: seq<bool>, sectors: seq<Sector>, m: Memory, loose: multiset<nat>, i: nat)
    requires StateOk(used, sectors, m, loose, {}) && i in loose && i in m.inodes && m.inodes[i].sector > ROOT_DIR_SECTOR
    ensures m.next !in m.files
    ensures StateOk(used, sectors, m.(files := m.files[m.next := File(i, 0, false)], next := m.next + 1),
              loose - multiset{i}, {})
  {
    hide TableOk, DiskOk;
    FileAdded(m.inodes, m.open, m.files, loose, i, m.next);
  }

  lemma FileClosed(used: seq<bool>, sectors: seq<Sector>, m: Memory, loose: multiset<nat>, f: nat)
    requires StateOk(used, sectors, m, loose, {}) && f in m.files && !m.files[f].deny
    ensures StateOk(used, sectors, m.(files := m.files - {f}), loose + multiset{m.files[f].inode}, {})
  {
    hide TableOk, DiskOk;
    FileRemoved(m.inodes, m.open, m.files, loose, f);
  }

  /** file_deny_write and file_allow_write, with the assertions about the counter. */
  lemma DenyFlipped(used: seq<bool>, sectors: seq<Sector>, m: Memory, loose: multiset<nat>, f: nat)
    requires StateOk(used, sectors, m, loose, {}) && f in m.files
    ensures var i, deny := m.files[f].inode, m.files[f].deny;
            && (if deny then 0 < m.inodes[i].denyCnt <= m.inodes[i].openCnt
                else m.inodes[i].denyCnt + 1 <= m.inodes[i].openCnt)
            && var cnt := if deny then m.inodes[i].denyCnt - 1 else m.inodes[i].denyCnt + 1;
               StateOk(used, sectors, m.(inodes := m.inodes[i := m.inodes[i].(denyCnt := cnt)],
                                         files := m.files[f := m.files[f].(deny := !deny)]), loose, {})
  {
    hide TableOk, DiskOk;
    var i, deny := m.files[f].inode, m.files[f].deny;
    DenyAtMostOpen(m.inodes, m.open, m.files, loose, i);
    DenyChanged(m.inodes, m.open, m.files, loose, f);
    var cnt: nat := if deny then m.inodes[i].denyCnt - 1 else m.inodes[i].denyCnt + 1;
    CountersChanged(used, sectors, m.inodes, m.inodes[i := m.inodes[i].(denyCnt := cnt)], {});
  }

  lemma Moved(used: seq<bool>, sectors: seq<Sector>, m: Memory, loose: multiset<nat>, f: nat, pos: nat)
    requires StateOk(used, sectors, m, loose, {}) && f in m.files
    ensures StateOk(used, sectors, m.(files := m.files[f := m.files[f].(pos := pos)]), loose, {})
  {
    hide TableOk, DiskOk;
    Unrelated(m.inodes, m.inodes, m.open, m.files, m.files[f := m.files[f].(pos := pos)], loose);
  }

  // ---- disk ----

  /** free_map_allocate took N free sectors from S on and wrote the map's file. */
  lemma Allocated(used: seq<bool>, sectors: seq<Sector>, sectors': seq<Sector>, m: Memory, loose: multiset<nat>, s: nat,
                  n: nat)
    requires StateOk(used, sectors, m, loose, {}) && AllAre(used, s, n, false)
             && OnlyDataOf(sectors, sectors', FREE_MAP_SECTOR)
    ensures StateOk(Filled(used, s, n, true), sectors', m, loose, {}) && RootEntries(sectors') == RootEntries(sectors)
    ensures forall k: nat | s <= k < s + n :: Unowned(sectors', Live(RootEntries(sectors'), m.inodes), k)
  {
    hide TableOk, HandlesOk, Cached, RemovedOk, EntriesOk;
    var live := Live(RootEntries(sectors), m.inodes);
    assert live + {} == live;
    FileWritten(used, sectors, sectors', m.inodes, {}, FREE_MAP_SECTOR);
    Marked(used, Filled(used, s, n, true), sectors', m.inodes, {});
    forall k: nat | s <= k < s + n ensures Unowned(sectors', live, k) { assert !used[k]; }
  }

  /** Only the map's file was written. */
  lemma MapWritten(used: seq<bool>, sectors: seq<Sector>, sectors': seq<Sector>, m: Memory, loose: multiset<nat>,
                   reserved: set<nat>)
    requires StateOk(used, sectors, m, loose, reserved) && OnlyDataOf(sectors, sectors', FREE_MAP_SECTOR)
    ensures StateOk(used, sectors', m, loose, reserved) && RootEntries(sectors') == RootEntries(sectors)
    ensures forall t | t in Live(RootEntries(sectors), m.inodes) ::
              t < |sectors| && HeaderAt(sectors', t) == HeaderAt(sectors, t)
  {
    FileWritten(used, sectors, sectors', m.inodes, reserved, FREE_MAP_SECTOR);
    forall t | t in Live(RootEntries(sectors), m.inodes) ensures Located(sectors, t) {}
  }

  lemma MapWrittenTwice(a: seq<Sector>, b: seq<Sector>, c: seq<Sector>)
    requires OnlyDataOf(a, b, FREE_MAP_SECTOR) && OnlyDataOf(b, c, FREE_MAP_SECTOR)
             && !InData(HeaderAt(a, FREE_MAP_SECTOR), FREE_MAP_SECTOR)
    ensures OnlyDataOf(a, c, FREE_MAP_SECTOR)
  {
  }

  /** Sector S was marked for a new inode that did not come about, or was not listed. */
  lemma GivenBack(used: seq<bool>, sectors: seq<Sector>, sectors': seq<Sector>, m: Memory, loose: multiset<nat>,
                  reserved: set<nat>, s: nat)
    requires StateOk(used, sectors, m, loose, reserved) && reserved <= {s} && AllAre(used, s, 1, true)
             && OnlyDataOf(sectors, sectors', FREE_MAP_SECTOR)
    requires s !in Live(RootEntries(sectors), m.inodes) && Unowned(sectors, Live(RootEntries(sectors), m.inodes), s)
    ensures StateOk(Filled(used, s, 1, false), sectors', m, loose, {}) && RootEntries(sectors') == RootEntries(sectors)
  {
    hide TableOk, HandlesOk, Cached, RemovedOk, EntriesOk;
    FewerLive(used, sectors, Live(RootEntries(sectors), m.inodes) + reserved,
              Live(RootEntries(sectors), m.inodes) + {});
    assert Live(RootEntries(sectors), m.inodes) + {} == Live(RootEntries(sectors), m.inodes);
    Unmarked(used, Filled(used, s, 1, false), sectors, m.inodes, {});
    FileWritten(Filled(used, s, 1, false), sectors, sectors', m.inodes, {}, FREE_MAP_SECTOR);
  }

  /** inode_create: a header in S and zeros in the sectors from E.START on. */
  lemma InodeCreated(used: seq<bool>, sectors: seq<Sector>, sectors': seq<Sector>, m: Memory, loose: multiset<nat>,
                     s: nat, e: Extent)
    requires StateOk(used, sectors, m, loose, {}) && |sectors'| == |sectors| && s < |sectors| && OnDevice(e, sectors)
             && !InData(e, s)
    requires HeaderAt(sectors', s) == e && forall k: nat | k < |sectors| && k != s && !InData(e, k) ::
               sectors'[k] == sectors[k]
    requires used[s] && Unowned(sectors, Live(RootEntries(sectors), m.inodes), s)
    requires forall k: nat | InData(e, k) :: used[k] && Unowned(sectors, Live(RootEntries(sectors), m.inodes), k)
    ensures StateOk(used, sectors', m, loose, {s}) && RootEntries(sectors') == RootEntries(sectors)
    ensures s !in Live(RootEntries(sectors'), m.inodes) && Unowned(sectors', Live(RootEntries(sectors'), m.inodes), s)
  {
    hide TableOk, HandlesOk, Cached, RemovedOk, EntriesOk;
    Created(used, sectors, sectors', m.inodes, s);
    var live := Live(RootEntries(sectors'), m.inodes);
    forall t | t in live && t < |sectors'|
      ensures !Owns(sectors', t, s)
    {
      assert Owns(sectors', s, s) && t in live + {s};
    }
  }

  /** A write to a slot of the root directory changes only data of the directory. */
  lemma SlotOnly(sectors: seq<Sector>, sectors': seq<Sector>, k: nat, b: seq<Byte>)
    requires RootOk(sectors) && k < ROOT_ENTRIES && |b| == ENTRY_SIZE && |sectors'| == |sectors|
    requires var e := HeaderAt(sectors, ROOT_DIR_SECTOR);
             && Position(e, ENTRY_SIZE * k) + ENTRY_SIZE <= |Flat(sectors)|
             && Flat(sectors') == Spliced(Flat(sectors), Position(e, ENTRY_SIZE * k), b)
    ensures OnlyDataOf(sectors, sectors', ROOT_DIR_SECTOR)
  {
    var e := HeaderAt(sectors, ROOT_DIR_SECTOR);
    forall i | 0 <= i < |sectors| && !InData(e, i) ensures sectors'[i] == sectors[i] {
      OtherSectorKept(e, sectors, sectors', ENTRY_SIZE * k, b, i);
    }
  }

  /** dir_add's write */
  lemma EntryListed(used: seq<bool>, sectors: seq<Sector>, sectors': seq<Sector>, m: Memory, loose: multiset<nat>,
                    s: nat, k: nat, b: seq<Byte>)
    requires StateOk(used, sectors, m, loose, {s}) && s !in Live(RootEntries(sectors), m.inodes) && k < ROOT_ENTRIES
             && |b| == ENTRY_SIZE && |sectors'| == |sectors|
    requires var e := HeaderAt(sectors, ROOT_DIR_SECTOR);
             && Position(e, ENTRY_SIZE * k) + ENTRY_SIZE <= |Flat(sectors)|
             && Flat(sectors') == Spliced(Flat(sectors), Position(e, ENTRY_SIZE * k), b)
    requires EntryOf(b).inUse && EntryOf(b).sector == s
    ensures StateOk(used, sectors', m, loose, {}) && RootEntries(sectors') == RootEntries(sectors)[k := EntryOf(b)]
    ensures Untouched(sectors, sectors', s)
    ensures OnlyDataOf(sectors, sectors', ROOT_DIR_SECTOR)
  {
    SlotOnly(sectors, sectors', k, b);
    EntryAdded(used, sectors, sectors', m.inodes, s, k, b);
  }

  /** dir_remove's write */
  lemma EntryUnlisted(used: seq<bool>, sectors: seq<Sector>, sectors': seq<Sector>, m: Memory, loose: multiset<nat>,
                      k: nat, b: seq<Byte>)
    requires StateOk(used, sectors, m, loose, {}) && k < ROOT_ENTRIES && |b| == ENTRY_SIZE && |sectors'| == |sectors|
    requires var e := HeaderAt(sectors, ROOT_DIR_SECTOR);
             && Position(e, ENTRY_SIZE * k) + ENTRY_SIZE <= |Flat(sectors)|
             && Flat(sectors') == Spliced(Flat(sectors), Position(e, ENTRY_SIZE * k), b)
    requires RootEntries(sectors)[k].inUse && EntryOf(b) == RootEntries(sectors)[k].(inUse := false)
    ensures StateOk(used, sectors', m, loose, {}) && RootEntries(sectors') == RootEntries(sectors)[k := EntryOf(b)]
    ensures Listed(RootEntries(sectors')) == Listed(RootEntries(sectors)) - {RootEntries(sectors)[k].sector}
    ensures OnlyDataOf(sectors, sectors', ROOT_DIR_SECTOR)
  {
    SlotOnly(sectors, sectors', k, b);
    EntryErased(used, sectors, sectors', m.inodes, k, b);
  }

  lemma SectorsDiffer(m: Memory, loose: multiset<nat>, i: nat, j: nat)
    requires TableOk(m.inodes, m.open, m.files, loose) && i in m.inodes && j in m.inodes && i != j
    ensures m.inodes[i].sector != m.inodes[j].sector
  {
  }

  /** A write to an open file. */
  lemma DataUpdated(used: seq<bool>, sectors: seq<Sector>, sectors': seq<Sector>, m: Memory, loose: multiset<nat>,
                    i: nat)
    requires StateOk(used, sectors, m, loose, {}) && i in m.inodes && m.inodes[i].sector != ROOT_DIR_SECTOR
    requires OnlyDataOf(sectors, sectors', m.inodes[i].sector)
    ensures StateOk(used, sectors', m, loose, {}) && RootEntries(sectors') == RootEntries(sectors)
    ensures forall j | j in m.inodes && j != i ::
              OnDevice(m.inodes[j].data, sectors)
              && Contents(m.inodes[j].data, sectors') == Contents(m.inodes[j].data, sectors)
    ensures AllUntouched(sectors, sectors', Live(RootEntries(sectors), m.inodes) - {m.inodes[i].sector})
  {
    hide TableOk, HandlesOk, RemovedOk, EntriesOk;
    var s, live := m.inodes[i].sector, Live(RootEntries(sectors), m.inodes) + {};
    assert s in OpenSectors(m.inodes);
    FileWritten(used, sectors, sectors', m.inodes, {}, s);
    SafeUntouched(used, sectors, sectors', live, s);
    assert live == Live(RootEntries(sectors), m.inodes);
    forall j | j in m.inodes && j != i
      ensures OnDevice(m.inodes[j].data, sectors)
      ensures Contents(m.inodes[j].data, sectors') == Contents(m.inodes[j].data, sectors)
    {
      var t := m.inodes[j].sector;
      assert t in OpenSectors(m.inodes) && Located(sectors, t);
      assert t != s by { SectorsDiffer(m, loose, i, j); }
      UntouchedContents(sectors, sectors', t);
    }
  }
}
