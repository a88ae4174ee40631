/** Who owns which sector of the file system: inodes and their data extents, against the free
    map, over the bytes on the device. */
module Ownership {
  import opened Disk
  import opened InodeIO
  import opened Directory

  const FREE_MAP_SECTOR: nat := 0
  const ROOT_DIR_SECTOR: nat := 1

  function HeaderAt(sectors: seq<Sector>, s: nat): Extent
    requires s < |sectors|
  {
    HeaderOf(sectors[s])
  }

  /** Sector K holds data of E. */
  predicate InData(e: Extent, k: nat) { e.start <= k < e.start + Sectors(e.length) }

  /** Sector K is the header or part of the data of the inode in sector S. */
  predicate Owns(sectors: seq<Sector>, s: nat, k: nat)
    requires s < |sectors|
  {
    k == s || InData(HeaderAt(sectors, s), k)
  }

  predicate Located(sectors: seq<Sector>, s: nat) {
    s < |sectors| && OnDevice(HeaderAt(sectors, s), sectors) && !InData(HeaderAt(sectors, s), s)
  }

  /** What the live inodes own is marked in the free map and owned by no other. */
  ghost predicate Safe(used: seq<bool>, sectors: seq<Sector>, live: set<nat>) {
    && |used| == |sectors|
    && (forall s | s in live :: Located(sectors, s))
    && (forall s, k: nat | s in live && Owns(sectors, s, k) :: used[k])
    && (forall s, t, k: nat | s in live && t in live && Owns(sectors, s, k) && Owns(sectors, t, k) :: s == t)
  }

  // ---- how steps bear on ownership ----

  lemma FewerLive(used: seq<bool>, sectors: seq<Sector>, live: set<nat>, live': set<nat>)
    requires Safe(used, sectors, live) && live' <= live
    ensures Safe(used, sectors, live')
  {
  }

  /** More marks, and no header of a live inode changed. */
  lemma HeadersKept(used: seq<bool>, used': seq<bool>, sectors: seq<Sector>, sectors': seq<Sector>, live: set<nat>)
    requires Safe(used, sectors, live) && |used'| == |used| && |sectors'| == |sectors|
    requires forall k | 0 <= k < |used| && used[k] :: used'[k]
    requires forall s | s in live :: HeaderAt(sectors', s) == HeaderAt(sectors, s)
    ensures Safe(used', sectors', live)
  {
    forall s, k: nat | s in live && Owns(sectors', s, k) ensures Owns(sectors, s, k) {}
  }

  /** Writing the data of a live inode touches no header and no other inode's data. */
  lemma DataWritten(used: seq<bool>, sectors: seq<Sector>, sectors': seq<Sector>, live: set<nat>, s: nat)
    requires Safe(used, sectors, live) && s in live && |sectors'| == |sectors|
    requires forall k | 0 <= k < |sectors| && !InData(HeaderAt(sectors, s), k) :: sectors'[k] == sectors[k]
    ensures Safe(used, sectors', live)
    ensures forall t | t in live :: HeaderAt(sectors', t) == HeaderAt(sectors, t)
    ensures forall t, k: nat | t in live && t != s && Owns(sectors, t, k) :: sectors'[k] == sectors[k]
  {
    forall t, k: nat | t in live && Owns(sectors, t, k) && (t != s || k == t) ensures sectors'[k] == sectors[k] {
      var both := Owns(sectors, s, k);
    }
    forall t | t in live ensures HeaderAt(sectors', t) == HeaderAt(sectors, t) { assert Owns(sectors, t, t); }
    HeadersKept(used, used, sectors, sectors', live);
  }

  /** A new inode in sectors that nobody owned. */
  lemma InodeAdded(used: seq<bool>, sectors: seq<Sector>, live: set<nat>, s: nat)
    requires Safe(used, sectors, live) && Located(sectors, s)
    requires forall k: nat | Owns(sectors, s, k) :: used[k] && forall t | t in live :: !Owns(sectors, t, k)
    ensures s !in live && Safe(used, sectors, live + {s})
  {
    assert Owns(sectors, s, s);
  }

  /** Unmarking what one inode owns. */
  lemma InodeReleased(used: seq<bool>, used': seq<bool>, sectors: seq<Sector>, live: set<nat>, s: nat)
    requires Safe(used, sectors, live) && s in live && |used'| == |used|
    requires forall k: nat | k < |used| && !Owns(sectors, s, k) :: used'[k] == used[k]
    ensures Safe(used', sectors, live - {s})
  {
  }

  // ---- the root directory ----

  predicate RootOk(sectors: seq<Sector>) {
    Located(sectors, ROOT_DIR_SECTOR) && HeaderAt(sectors, ROOT_DIR_SECTOR).length == DIR_SIZE
  }

  function RootEntries(sectors: seq<Sector>): (r: seq<Entry>)
    requires RootOk(sectors)
    ensures |r| == ROOT_ENTRIES
  {
    Entries(Contents(HeaderAt(sectors, ROOT_DIR_SECTOR), sectors))
  }

  /** The inode sectors that directory entries in use refer to. */
  ghost function Listed(es: seq<Entry>): set<nat> {
    set i | 0 <= i < |es| && es[i].inUse :: es[i].sector
  }

  /** Entries refer to different inodes, and not to the two reserved ones. */
  ghost predicate EntriesOk(es: seq<Entry>) {
    && (forall i | 0 <= i < |es| && es[i].inUse :: es[i].sector > ROOT_DIR_SECTOR)
    && (forall i, j | 0 <= i < j < |es| && es[i].inUse && es[j].inUse :: es[i].sector != es[j].sector)
  }

  lemma ListedAfterAdd(es: seq<Entry>, k: nat, e: Entry)
    requires EntriesOk(es) && k < |es| && e.inUse && e.sector > ROOT_DIR_SECTOR && e.sector !in Listed(es)
    ensures EntriesOk(es[k := e]) && Listed(es[k := e]) <= Listed(es) + {e.sector}
    ensures !es[k].inUse ==> Listed(es[k := e]) == Listed(es) + {e.sector}
  {
    var es' := es[k := e];
    forall i | 0 <= i < |es| && es[i].inUse ensures es[i].sector in Listed(es) && es[i].sector != e.sector {}
    forall s | s in Listed(es') ensures s in Listed(es) + {e.sector} {
      var i :| 0 <= i < |es'| && es'[i].inUse && es'[i].sector == s;
      assert i != k ==> es[i] == es'[i];
    }
    if !es[k].inUse {
      assert es'[k] == e;
      forall s | s in Listed(es) ensures s in Listed(es') {
        var i :| 0 <= i < |es| && es[i].inUse && es[i].sector == s;
        assert es'[i] == es[i];
      }
    }
  }

  lemma ListedAfterErase(es: seq<Entry>, k: nat)
    requires EntriesOk(es) && k < |es| && es[k].inUse
    ensures var es' := es[k := es[k].(inUse := false)]; EntriesOk(es') && Listed(es') == Listed(es) - {es[k].sector}
  {
    var es' := es[k := es[k].(inUse := false)];
    forall s | s in Listed(es') ensures s in Listed(es) && s != es[k].sector {
      var i :| 0 <= i < |es'| && es'[i].inUse && es'[i].sector == s;
      assert i != k && es[i] == es'[i];
    }
    forall s | s in Listed(es) && s != es[k].sector ensures s in Listed(es') {
      var i :| 0 <= i < |es| && es[i].inUse && es[i].sector == s;
      assert es'[i] == es[i];
    }
  }

  /** Data that no sector of changed reads the same. */
  lemma ContentsKept(e: Extent, sectors: seq<Sector>, sectors': seq<Sector>)
    requires OnDevice(e, sectors) && |sectors'| == |sectors|
    requires forall k: nat | InData(e, k) :: sectors'[k] == sectors[k]
    ensures Contents(e, sectors') == Contents(e, sectors)
  {
    var x, y := Contents(e, sectors'), Contents(e, sectors);
    forall i | 0 <= i < e.length ensures x[i] == y[i] {
      var k := Position(e, i) / SECTOR_SIZE;
      assert InData(e, k);
    }
  }

  /** The directory reads the same as long as its sectors do. */
  lemma RootKept(sectors: seq<Sector>, sectors': seq<Sector>)
    requires RootOk(sectors) && |sectors'| == |sectors|
    requires forall k: nat | Owns(sectors, ROOT_DIR_SECTOR, k) :: sectors'[k] == sectors[k]
    ensures RootOk(sectors') && RootEntries(sectors') == RootEntries(sectors)
  {
    assert Owns(sectors, ROOT_DIR_SECTOR, ROOT_DIR_SECTOR);
    forall k: nat | InData(HeaderAt(sectors, ROOT_DIR_SECTOR), k)
      ensures sectors'[k] == sectors[k]
    {
      assert Owns(sectors, ROOT_DIR_SECTOR, k);
    }
    ContentsKept(HeaderAt(sectors, ROOT_DIR_SECTOR), sectors, sectors');
  }
}
